/** Small value types shared by the whole model. */
module Base {

  /** Python's `None` or a value. */
  datatype Option<+T> = None | Some(value: T) {

    /** The value, or `default` when there is none (Python's `dict.get(key, default)`). */
    function GetOr(default: T): T {
      match this
      case Some(v) => v
      case None => default
    }
  }

  /** One byte of a binary blob (Python `bytes` element). */
  newtype Byte = x: int | 0 <= x < 256
}
