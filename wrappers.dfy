/** The optional value and the success-or-error result the model uses for
    pandas' missing results (`NaN`, `NaT`) and for the exceptions the
    cleaning steps can raise. */
module Wrappers {
  datatype Option<+T> = None | Some(value: T)

  datatype Result<+T, +E> = Ok(value: T) | Err(error: E)
}
