/** Optional values and results with an error side, used wherever the
    dashboard either has no value (JavaScript `undefined`, `NaN`) or throws. */
module Outcomes {

  datatype Option<+T> = None | Some(value: T)

  datatype Result<+T, +E> = Ok(value: T) | Err(error: E)
}
