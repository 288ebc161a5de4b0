/** Types shared by every component of the runtime model. */
module Common {

  /** One octet of memory (a C `char` / `uint8_t`), by its unsigned value. */
  newtype byte = x: int | 0 <= x < 0x100

  /** The runtime's `enum ff_result`. */
  datatype FfResult = Success | Failure

  datatype Option<T> = None | Some(value: T)
}
