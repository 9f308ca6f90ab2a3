/** Datatypes shared by every module. */
module Prelude {

  /** A value that may be absent; failure-compatible, so `:-` propagates `None`. */
  datatype Option<+T> = None | Some(value: T) {
    predicate IsFailure() {
      None?
    }

    function PropagateFailure<U>(): Option<U>
      requires None?
    {
      None
    }

    function Extract(): T
      requires Some?
    {
      value
    }
  }

  /** One octet of a network stream. */
  type Byte = b: int | 0 <= b < 256
}
