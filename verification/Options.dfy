/** Optional values and results, as the Go code expresses them with nil pointers and error returns. */
module Options {

  datatype Option<+T> = None | Some(value: T)

  datatype Result<+T> = Ok(value: T) | Err(error: string)
}
