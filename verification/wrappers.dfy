/** Option and Result types shared by the dashboard model. `None` is the
    explicit "absent" marker that the dashboard keeps distinct from zero. */
module Wrappers {

  datatype Option<+T> = None | Some(value: T)

  /** The outcome of an operation that the dashboard script would abort with
      an exception: `Failure` carries the kind of error that was raised. */
  datatype Result<+R, +E> = Success(value: R) | Failure(error: E)

  function Min(a: int, b: int): (m: int)
  {
    if a <= b then a else b
  }
}
