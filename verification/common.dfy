/** Types shared by the three configuration builders. */
module Common {

  /** The conventional Some/None datatype, used for "no error" and for
      lookups that can miss. */
  datatype Option<+T> = None | Some(value: T)

  /** Go's `uint16`, the type of `tls.Config.MinVersion` and `MaxVersion`. */
  type uint16 = x: int | 0 <= x < 0x1_0000

  /** One byte of a wire encoding. */
  type uint8 = x: int | 0 <= x < 0x100
}
