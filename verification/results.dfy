/** Failure-carrying wrappers shared by the model.
- Option<T> stands for a lookup that may find nothing (the -1 sentinel of the
  first-occurrence table).
- Result<T, E> stands for a tensor operation that either returns a value or
  raises an indexing error.
 */
module Results {

  datatype Option<+T> = None | Some(value: T)

  datatype Result<+T, +E> = Success(value: T) | Failure(error: E)

  /** The indexing error a tensor gather raises when an index is not below the
      size of the dimension it selects from. */
  datatype ShapeError = IndexOutOfRange
}
