/** Outcome of one evaluation of the planner: a value, or the exception Python raises. */
module Outcome {

  /** The only exception modelled; the overflow Python can also raise is not part of this model. */
  datatype CalcError = ZeroDivisionError

  datatype Result<+T> = Ok(value: T) | Err(error: CalcError)
}
