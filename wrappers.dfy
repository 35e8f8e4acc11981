/** Optional values (the source's nullable references and `int?` filters) and
    results that carry either a value or a typed error. */
module Wrappers {

  datatype Option<+T> = None | Some(value: T)

  datatype Result<+T, +E> = Success(value: T) | Failure(error: E)
}
