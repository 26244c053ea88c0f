/**
  Well-formedness of UTF-8 byte strings, as given by the syntax in section 4
  of RFC 3629.  Python's `bytes.decode()` raises exactly when its input is not
  well formed, so this predicate is the error condition of that call.  The
  decoded text is represented by its UTF-8 bytes, which determine it uniquely.
*/
module Utf8 {
  import opened Basics

  /** A continuation byte, `UTF8-tail` in RFC 3629. */
  predicate IsTail(b: byte) {
    0x80 <= b <= 0xBF
  }

  /** The bytes that never occur in UTF-8 (RFC 3629, section 1). */
  predicate IsNeverUtf8(x: byte) {
    x == 0xC0 || x == 0xC1 || x >= 0xF5
  }

  /**
    The length of the well-formed character that starts `b`, or 0 when no
    well-formed character starts there (an overlong form, a surrogate, a value
    above U+10FFFF, a stray continuation byte or a truncated sequence).
  */
  function LeadingCharLength(b: seq<byte>): (n: nat)
    requires |b| > 0
    ensures n <= 4 && n <= |b|
    ensures n > 0 ==> (n == 1 <==> b[0] < 0x80)
    ensures forall i :: 0 <= i < n ==> !IsNeverUtf8(b[i])
  {
    var b0 := b[0];
    if b0 <= 0x7F then 1
    else if 0xC2 <= b0 <= 0xDF then
      if |b| >= 2 && IsTail(b[1]) then 2 else 0
    else if b0 == 0xE0 then
      if |b| >= 3 && 0xA0 <= b[1] <= 0xBF && IsTail(b[2]) then 3 else 0
    else if (0xE1 <= b0 <= 0xEC) || (0xEE <= b0 <= 0xEF) then
      if |b| >= 3 && IsTail(b[1]) && IsTail(b[2]) then 3 else 0
    else if b0 == 0xED then
      if |b| >= 3 && 0x80 <= b[1] <= 0x9F && IsTail(b[2]) then 3 else 0
    else if b0 == 0xF0 then
      if |b| >= 4 && 0x90 <= b[1] <= 0xBF && IsTail(b[2]) && IsTail(b[3]) then 4 else 0
    else if 0xF1 <= b0 <= 0xF3 then
      if |b| >= 4 && IsTail(b[1]) && IsTail(b[2]) && IsTail(b[3]) then 4 else 0
    else if b0 == 0xF4 then
      if |b| >= 4 && 0x80 <= b[1] <= 0x8F && IsTail(b[2]) && IsTail(b[3]) then 4 else 0
    else 0
  }

  /**
    True when `b` is a sequence of well-formed UTF-8 characters.  Such a
    string holds none of the bytes UTF-8 never uses, and does not start with a
    continuation byte.
  */
  predicate WellFormed(b: seq<byte>)
    ensures WellFormed(b) ==> forall i :: 0 <= i < |b| ==> !IsNeverUtf8(b[i])
    ensures WellFormed(b) && |b| > 0 ==> !IsTail(b[0])
    decreases |b|
  {
    |b| == 0 || (LeadingCharLength(b) > 0 && WellFormed(b[LeadingCharLength(b)..]))
  }

  /** Every byte string of ASCII characters is well-formed UTF-8. */
  lemma {:induction false} AsciiIsWellFormed(b: seq<byte>)
    requires forall x :: x in b ==> x < 0x80
    ensures WellFormed(b)
    decreases |b|
  {
    if |b| > 0 {
      assert b[0] in b;
      assert LeadingCharLength(b) == 1;
      assert forall x :: x in b[1..] ==> x in b;
      AsciiIsWellFormed(b[1..]);
    }
  }
}
