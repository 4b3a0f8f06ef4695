/** Failure-compatible result types used by the queries.
    `Option` stands for a Java reference that may be null; `Result` for a
    computation that may end in one of the exceptions the query code can raise. */
module Results {

  datatype Option<+T> = None | Some(value: T)

  datatype Result<+T, +E> = Success(value: T) | Failure(error: E)
}
