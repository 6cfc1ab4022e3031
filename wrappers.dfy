/** Option and Result values shared by every module of the model. */
module Wrappers {
  datatype Option<T> = None | Some(value: T)
  {
    function GetOr(default: T): T
    {
      if Some? then value else default
    }
  }

  /** The outcome of a Convex function: a value, or the message of the Error it throws. */
  datatype Result<T> = Ok(value: T) | Err(msg: string)

  /** The outcome of a check that returns nothing on success. */
  datatype Outcome = Pass | Fail(msg: string)
}
