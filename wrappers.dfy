/** Option and Result values used for "no match" answers and for the errors
    that abort a run of the searcher. */
module Wrappers {

  datatype Option<+T> = None | Some(value: T)

  datatype Result<+T, +E> = Ok(value: T) | Err(error: E)
}
