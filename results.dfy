/** Failure-carrying results: the source's DIE / DIE_ASSERT paths become `Err`. */
module Results {

  datatype Option<+T> = None | Some(value: T)

  datatype Result<+T, +E> = Ok(value: T) | Err(error: E)
}
