/** Null-aware wrappers: `Option` stands for a C# reference that may be null,
    `Result` for an operation that may fail fast with an argument error. */
module Results {

  /** `None` models a null reference, `Some(v)` a non-null one. */
  datatype Option<+T> = None | Some(value: T)

  /** `Failure` models an exception thrown before any filtering begins. */
  datatype Result<+T, +E> = Success(value: T) | Failure(error: E)
}
