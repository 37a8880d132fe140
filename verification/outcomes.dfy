/**
 * Outcomes of the modelled Python code.  A raised exception (KeyError,
 * IndexError, ValueError) aborts the whole call and is modelled as `Fail`;
 * the source never recovers from one, so no error detail is carried.
 */
module Outcomes {

  datatype Result<T> = Ok(value: T) | Fail

  datatype Option<T> = None | Some(value: T)
}
