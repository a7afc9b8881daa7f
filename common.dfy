/** Option and Result: the "no match" answers and the raised exceptions of the inventory code. */
module Common {

  datatype Option<+T> = None | Some(value: T)

  datatype Result<+T, +E> = Success(value: T) | Failure(error: E)
}
