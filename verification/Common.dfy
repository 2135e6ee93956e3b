/** Types the components share. */
module Common {
  type Byte = x: int | 0 <= x < 256

  /** A C int. */
  type CInt = x: int | -0x8000_0000 <= x < 0x8000_0000

  datatype Option<T> = None | Some(value: T)
}
