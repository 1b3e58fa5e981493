/** The fixed-width integer types of the source and its `as` casts between
    them. Unsigned types are bit-vectors; signed types are bounded integers,
    and the casts between the two are two's-complement reinterpretations,
    stated as congruences modulo 2^16 and 2^32. */
module TwosComplement {

  type uint8 = bv8
  type uint16 = bv16
  type uint32 = bv32
  type int16 = x: int | -0x8000 <= x < 0x8000
  type int32 = x: int | -0x8000_0000 <= x < 0x8000_0000

  /** The four-bit pattern of a natural number below 16. */
  function NibbleBits(d: int): (b: bv4)
    requires 0 <= d < 16
    ensures b as int == d
  {
    match d
    case 0 => 0
    case 1 => 1
    case 2 => 2
    case 3 => 3
    case 4 => 4
    case 5 => 5
    case 6 => 6
    case 7 => 7
    case 8 => 8
    case 9 => 9
    case 10 => 10
    case 11 => 11
    case 12 => 12
    case 13 => 13
    case 14 => 14
    case _ => 15
  }

  /** Four nibbles, joined, have the value of their place-value sum. */
  lemma ConcatNibbles(d3: bv4, d2: bv4, d1: bv4, d0: bv4)
    ensures (((d3 as uint16) << 12) | ((d2 as uint16) << 8) | ((d1 as uint16) << 4) | (d0 as uint16)) as int
            == d3 as int * 0x1000 + d2 as int * 0x100 + d1 as int * 0x10 + d0 as int
  {
  }

  /** Two half-words, joined, have the value of their place-value sum. */
  lemma ConcatHalves(hi: uint16, lo: uint16)
    ensures (((hi as uint32) << 16) | (lo as uint32)) as int == hi as int * 0x1_0000 + lo as int
  {
  }

  /** A number below 2^16 is the place-value sum of its four hex digits,
      taken most significant first. */
  lemma HexDigits(n: int)
    requires 0 <= n < 0x1_0000
    ensures var r3 := n % 0x1000; var r2 := r3 % 0x100;
            n == (n / 0x1000) * 0x1000 + (r3 / 0x100) * 0x100 + (r2 / 0x10) * 0x10 + r2 % 0x10
  {
    var r3 := n % 0x1000;
    var r2 := r3 % 0x100;
    assert n == (n / 0x1000) * 0x1000 + r3;
    assert r3 == (r3 / 0x100) * 0x100 + r2;
    assert r2 == (r2 / 0x10) * 0x10 + r2 % 0x10;
  }

  /** The value of a bit-vector is in range. */
  lemma U16Range(b: uint16)
    ensures 0 <= b as int < 0x1_0000
  {
  }

  lemma U32Range(b: uint32)
    ensures 0 <= b as int < 0x1_0000_0000
  {
  }

  /** Bit-vectors with the same value are equal. */
  lemma U16Injective(c: uint16, b: uint16)
    requires c as int == b as int
    ensures c == b
  {
    assert (c as int) as uint16 == c;
    assert (b as int) as uint16 == b;
  }

  lemma U32Injective(c: uint32, b: uint32)
    requires c as int == b as int
    ensures c == b
  {
    assert (c as int) as uint32 == c;
    assert (b as int) as uint32 == b;
  }

  /** The bit pattern of a natural number below 2^16, assembled from its hex
      digits. */
  function NatToU16(n: int): (b: uint16)
    requires 0 <= n < 0x1_0000
    ensures b as int == n
  {
    var r3 := n % 0x1000;
    var r2 := r3 % 0x100;
    var d3, d2, d1, d0 := NibbleBits(n / 0x1000), NibbleBits(r3 / 0x100),
                          NibbleBits(r2 / 0x10), NibbleBits(r2 % 0x10);
    ConcatNibbles(d3, d2, d1, d0);
    HexDigits(n);
    ((d3 as uint16) << 12) | ((d2 as uint16) << 8) | ((d1 as uint16) << 4) | (d0 as uint16)
  }

  /** The bit pattern of a natural number below 2^32, assembled half by half. */
  function NatToU32(n: int): (b: uint32)
    requires 0 <= n < 0x1_0000_0000
    ensures b as int == n
  {
    var hi, lo := NatToU16(n / 0x1_0000), NatToU16(n % 0x1_0000);
    ConcatHalves(hi, lo);
    ((hi as uint32) << 16) | (lo as uint32)
  }

  /** `x as u16` for an `i16`: the value modulo 2^16. */
  function I16ToU16(x: int16): (b: uint16)
    ensures b as int == x % 0x1_0000
  {
    var n := if x < 0 then x + 0x1_0000 else x;
    assert n == x % 0x1_0000;
    NatToU16(n)
  }

  /** `b as i16` for a `u16`: the one `i16` congruent to `b` modulo 2^16. */
  function U16ToI16(b: uint16): (x: int16)
    ensures x % 0x1_0000 == b as int
  {
    U16Range(b);
    Signed16(b as int)
  }

  /** The `i16` congruent to a natural number below 2^16. */
  function Signed16(v: int): (x: int16)
    requires 0 <= v < 0x1_0000
    ensures x % 0x1_0000 == v
  {
    if v < 0x8000 then v else v - 0x1_0000
  }

  /** `x as u32` for an `i32`: the value modulo 2^32. */
  function I32ToU32(x: int32): (b: uint32)
    ensures b as int == x % 0x1_0000_0000
  {
    var n := if x < 0 then x + 0x1_0000_0000 else x;
    assert n == x % 0x1_0000_0000;
    NatToU32(n)
  }

  /** `b as i32` for a `u32`: the one `i32` congruent to `b` modulo 2^32. */
  function U32ToI32(b: uint32): (x: int32)
    ensures x % 0x1_0000_0000 == b as int
  {
    U32Range(b);
    Signed32(b as int)
  }

  /** The `i32` congruent to a natural number below 2^32. */
  function Signed32(v: int): (x: int32)
    requires 0 <= v < 0x1_0000_0000
    ensures x % 0x1_0000_0000 == v
  {
    if v < 0x8000_0000 then v else v - 0x1_0000_0000
  }

  lemma I16RoundTrip(x: int16)
    ensures U16ToI16(I16ToU16(x)) == x
  {
    var b := I16ToU16(x);
    SignedOfResidue16(x, b as int);
  }

  /** An `i16` is recovered from its residue modulo 2^16. */
  lemma SignedOfResidue16(x: int16, v: int)
    requires v == x % 0x1_0000
    ensures Signed16(v) == x
  {
  }

  lemma U16RoundTrip(b: uint16)
    ensures I16ToU16(U16ToI16(b)) == b
  {
    var x := U16ToI16(b);
    U16Injective(I16ToU16(x), b);
  }

  lemma I32RoundTrip(x: int32)
    ensures U32ToI32(I32ToU32(x)) == x
  {
    var b := I32ToU32(x);
    SignedOfResidue32(x, b as int);
  }

  /** An `i32` is recovered from its residue modulo 2^32. */
  lemma SignedOfResidue32(x: int32, v: int)
    requires v == x % 0x1_0000_0000
    ensures Signed32(v) == x
  {
  }

  lemma U32RoundTrip(b: uint32)
    ensures I32ToU32(U32ToI32(b)) == b
  {
    var x := U32ToI32(b);
    U32Injective(I32ToU32(x), b);
  }
}
