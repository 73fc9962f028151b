/** Option and Result, the two shapes a scraper's answer can take: a value that may be
    missing (a node `find` did not locate, a function that returns `None`), and a value
    or the lookup error that would have been raised. */
module Wrappers {

  datatype Option<+T> = None | Some(value: T)

  datatype Result<+T, +E> = Ok(value: T) | Err(error: E)
}
