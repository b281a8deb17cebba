/** Result types shared by the other modules. */
module Prelude {

  datatype Option<+T> = None | Some(value: T)

  /** What a call returns: its value, or the error it raises. */
  datatype Result<+T, +E> = Ok(value: T) | Raised(error: E)

  /** A Python list that is changed in place. */
  class PyList<T> {
    var items: seq<T>

    constructor (s: seq<T>)
      ensures items == s
    {
      items := s;
    }
  }
}
