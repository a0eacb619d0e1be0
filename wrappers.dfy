/** Optional values and results with an error, as the encoder's Go code expresses them with `nil`
    and `error` returns. */
module QrWrappers {

  datatype Option<T> = None | Some(value: T)

  datatype Result<T, E> = Success(value: T) | Failure(error: E)
}
