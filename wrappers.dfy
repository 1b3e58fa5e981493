/** Rust's `Option` and `Result`, with the members Dafny's `:-` needs so that
    the decoder can propagate errors the way the source's `?` operator does. */
module Wrappers {

  datatype Option<+T> = None | Some(value: T) {

    /** `Option::ok_or`: a missing value becomes the given error. */
    function OkOr<E>(error: E): (r: Result<T, E>)
      ensures r.Ok? <==> Some?
      ensures r.Ok? ==> r.value == value
      ensures r.Err? ==> r.error == error
    {
      match this
      case Some(v) => Ok(v)
      case None => Err(error)
    }
  }

  datatype Result<+T, +E> = Ok(value: T) | Err(error: E) {

    predicate IsFailure() {
      Err?
    }

    function PropagateFailure<U>(): Result<U, E>
      requires Err?
    {
      Err(error)
    }

    function Extract(): T
      requires Ok?
    {
      value
    }
  }
}
