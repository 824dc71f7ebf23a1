/** Optional values, and answers that may fail; `Err` stands for a panic of the source. */
module Outcomes {

  datatype Option<T> = None | Some(value: T)

  datatype Result<T> = Ok(value: T) | Err
}
