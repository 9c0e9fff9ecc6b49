/** Failure-compatible result types for the two scripts.

  The scripts have no error handling of their own: a malformed line makes the
  interpreter raise, which ends the script. `Error` names the exception that
  is raised; `Result` is the value of an expression that may raise it.
 */
module Results {

  /** The Python exceptions the scripts can raise on their input. */
  datatype Error =
    | IndexError         // a missing column or sub-field (`collect[7]`, `split("=")[1]`, `line[0]`)
    | ValueError         // `int(...)` or `float(...)` of text that is not a number
    | ZeroDivisionError  // `alt / (alt + ref)` with both read counts summing to zero

  datatype Option<+T> = None | Some(value: T) {
    predicate IsFailure() { None? }

    function PropagateFailure<U>(): Option<U>
      requires None?
    {
      None
    }

    function Extract(): T
      requires Some?
    {
      value
    }
  }

  datatype Result<+T> = Ok(value: T) | Err(error: Error) {
    predicate IsFailure() { Err? }

    function PropagateFailure<U>(): Result<U>
      requires Err?
    {
      Err(error)
    }

    function Extract(): T
      requires Ok?
    {
      value
    }
  }
}
