/** Failure-carrying values for the operations that end the process in the application
    (an `expect` or an `unwrap` that fails): the model returns them instead of panicking. */
module Results {

  datatype Option<T> = None | Some(value: T)

  datatype Result<T, E> = Ok(value: T) | Err(error: E)

  datatype Outcome<E> = Pass | Fail(error: E)
}
