/** The single error value every operation of the triangulator reports
    (fewer than three points, a collinear triangle, an empty triangulation),
    wrapped in a failure-compatible result so that `:-` plays the part of
    the source's `?` operator. */
module Errors {

  datatype Result<+T> = Ok(value: T) | Err {

    predicate IsFailure() {
      Err?
    }

    function PropagateFailure<U>(): Result<U>
      requires Err?
    {
      Err
    }

    function Extract(): T
      requires Ok?
    {
      value
    }
  }
}
