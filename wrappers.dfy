// The outcome of an operation that the modelled code can abort with an
// exception: Ok carries the value returned, Err the reason it raised.

module Wrappers {

  datatype Result<T, E> = Ok(value: T) | Err(error: E)
}
