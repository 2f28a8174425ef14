/** The two outcome shapes the program uses: an iterator step that may find
    nothing, and a computation that may fail with a message. */
module Results {

  datatype Option<T> = None | Some(value: T)

  datatype Result<T> = Ok(value: T) | Err(error: string)
}
