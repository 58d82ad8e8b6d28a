/** Failure-carrying values shared by the whole model. A Python exception
    raised inside the backend is modelled as `Err` carrying the text that
    `str(e)` would give. */
module Results {

  datatype Option<+T> = None | Some(value: T)

  datatype Result<+T> = Ok(value: T) | Err(message: string)
}
