// Option and Result, the two shapes every fallible operation of the model
// returns, and Outcome, for the operations whose source can panic.
module Wrappers {
  datatype Option<T> = None | Some(value: T)
  {
    function UnwrapOr(default: T): T
    {
      match this
      case None => default
      case Some(v) => v
    }
  }

  datatype Result<T, E> = Ok(value: T) | Err(error: E)
  {
    function MapErr<F>(f: E -> F): Result<T, F>
    {
      match this
      case Ok(v) => Ok(v)
      case Err(e) => Err(f(e))
    }
  }

  /** A call that either returns its value or panics (an unwrap, an index, an arithmetic overflow). */
  datatype Outcome<T> = Returns(value: T) | Panics
}
