/** Value types shared by every module of the session model. */
module Basics {

  /** One octet, as held in a Python `bytes` object. */
  newtype byte = x: int | 0 <= x < 256

  /** The result of a step that may produce nothing, such as a strict decoder. */
  datatype Option<+T> = None | Some(value: T)

  /** True when every character is in the 7-bit ASCII range. */
  predicate IsAscii(s: string) {
    forall i :: 0 <= i < |s| ==> s[i] as int < 128
  }
}
