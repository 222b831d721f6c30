/** The two standard enums the homework's interfaces return. */
module RustTypes {
  datatype Option<T> = None | Some(value: T)

  datatype Result<T, E> = Ok(value: T) | Err(error: E)
}
