/** Nullable values and failures, as the Java code uses them: `null` references become
    `None`, a thrown exception becomes `Failure` with the exception's message. */
module Results {

  datatype Option<T> = None | Some(value: T)

  datatype Result<T> = Success(value: T) | Failure(message: string)
}
