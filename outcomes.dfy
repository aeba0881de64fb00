/** The exceptions the core raises, as values. */
module Outcomes {

  datatype Error =
    | ValueError   // `raise ValueError(...)`: a character seed of the wrong length
    | IndexError   // `random.choice` on an empty list, or `list(...)[0]` of an empty table

  datatype Result<T> = Ok(value: T) | Err(error: Error)
}
