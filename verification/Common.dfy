/** Small types shared by the other modules. */
module Common {

  /** A value that may be missing: the source's NULL. */
  datatype Option<+T> = None | Some(value: T)

  newtype byte = x: int | 0 <= x < 256

  type Bytes = seq<byte>
}
