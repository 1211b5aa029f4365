/** The outcome of an operation that the programs abandon with a panic on some inputs. */
module Results {
  datatype Result<T> = Success(value: T) | Failure(reason: string)
}
