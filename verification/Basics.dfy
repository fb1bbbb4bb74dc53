/** Values shared by every component. */
module Basics {
  /** The optional values that Python writes as None. */
  datatype Option<+T> = None | Some(value: T)

  /** Identifiers are opaque: only ever generated and compared for equality. */
  datatype Uuid = Uuid(bits: nat)
}
