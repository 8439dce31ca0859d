/** Result types shared by every module: the source's `undefined`/`null` and its thrown errors. */
module Common {

  datatype Option<+T> = None | Some(value: T)

  datatype Result<+T, +E> = Ok(value: T) | Err(error: E)
}
