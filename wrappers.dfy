/** Optional values: a request-body field that may be missing, and the
    outcome of a parser that may reject its input. */
module Wrappers {

  datatype Option<+T> = None | Some(value: T)
}
