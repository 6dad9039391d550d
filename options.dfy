/** Option and Result values: a pandas null cell, a missing URL, an error path. */
module Options {

  datatype Option<+T> = None | Some(value: T)

  datatype Result<+R, +E> = Success(value: R) | Failure(error: E)
}
