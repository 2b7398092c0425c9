/** Outcomes of the modelled operations: the exceptions that can escape the
    connection core, and the failure-compatible wrappers that carry them. */
module Outcomes {

  /** The exceptional exits the model distinguishes. */
  datatype Error =
    | ShortRead   // readFully ran out of input before the requested count
    | Malformed   // the header parser or a frame variant's parser threw (a null header type included)
    | ClassCast   // a SETTINGS-typed header on a frame that is not a settings frame

  datatype Option<+T> = None | Some(value: T)

  /** Either a value or the exception that replaced it; usable with `:-`. */
  datatype Result<+T> = Ok(value: T) | Err(error: Error) {

    predicate IsFailure() {
      Err?
    }

    function PropagateFailure<U>(): Result<U>
      requires Err?
    {
      Err(error)
    }

    function Extract(): T
      requires Ok?
    {
      value
    }
  }
}
