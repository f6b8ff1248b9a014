/** Outcomes of a step of the generator that can stop it: a Go panic in the reader,
    or an error returned by a template's execution. */
module Results {

  datatype Result<T> = Ok(value: T) | Failed(reason: string)

  datatype Option<T> = None | Some(value: T)
}
