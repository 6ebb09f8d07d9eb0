/** Values shared by the whole model: bytes of file contents and an optional value. */
module Basics {

  /** One byte of a file, as .NET's `byte`. */
  type byte = x: int | 0 <= x < 256

  datatype Option<T> = None | Some(value: T)
}
