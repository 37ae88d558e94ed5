/** The two kinds of failure the constructors of the model can report. */
module Results {

  /** `TypeError` is raised for a wrong number or kind of arguments,
      `ValueError` for an argument that is not an acceptable message. */
  datatype Error = TypeError | ValueError

  /** The outcome of a fallible constructor. */
  datatype Result<+T> = Ok(value: T) | Err(error: Error)
}
