/** Option and Result values used where the modelled code either has no
    value (pandas' NaN median, an empty mode) or raises. */
module Results {

  datatype Option<T> = None | Some(value: T)

  datatype Result<T, E> = Success(value: T) | Failure(error: E)
}
