/**
  `sign_data` of server.py: the HMAC-SHA256 of the data under the process
  secret key, as an upper-case hexadecimal string.

  The HMAC itself is not modelled.  It enters as a parameter `mac` standing for
  `hmac.new(key, msg, hashlib.sha256).hexdigest()`; the one thing assumed of
  it, where a proof needs it, is `IsHexDigestMac`: every result is 64
  lower-case hexadecimal digits, the form `hexdigest()` gives a 32-byte digest.
*/
module Signer {
  import opened Basics

  /** A keyed digest returning hexadecimal text: (key, message) to digest. */
  type HexMac = (seq<byte>, seq<byte>) -> string

  /** Two hexadecimal digits per byte of a SHA-256 digest. */
  const DigestHexLength := 64

  predicate IsLowerHexDigit(c: char) {
    ('0' <= c <= '9') || ('a' <= c <= 'f')
  }

  predicate IsUpperHexDigit(c: char) {
    ('0' <= c <= '9') || ('A' <= c <= 'F')
  }

  /** The shape of `hexdigest()` for SHA-256. */
  predicate IsLowerHexDigest(s: string) {
    |s| == DigestHexLength && forall i :: 0 <= i < |s| ==> IsLowerHexDigit(s[i])
  }

  /** The shape of `sign_data`'s result. */
  predicate IsUpperHexDigest(s: string) {
    |s| == DigestHexLength && forall i :: 0 <= i < |s| ==> IsUpperHexDigit(s[i])
  }

  /** The assumption about the HMAC: every digest it returns has the `hexdigest()` shape. */
  ghost predicate IsHexDigestMac(mac: HexMac) {
    forall key, msg :: IsLowerHexDigest(mac(key, msg))
  }

  /** `c.upper()` for an ASCII character; every other character is left as it is. */
  function UpperChar(c: char): char {
    if 'a' <= c <= 'z' then (c as int - 'a' as int + 'A' as int) as char else c
  }

  /**
    `s.upper()` over ASCII text: no lower-case ASCII letter is left, each one
    becomes its capital (32 code points lower), and every other character is
    unchanged.  A lower-case hex digest becomes an upper-case one.
  */
  function Upper(s: string): (r: string)
    ensures |r| == |s|
    ensures forall i :: 0 <= i < |r| ==> !('a' <= r[i] <= 'z')
    ensures forall i :: 0 <= i < |s| ==>
      if 'a' <= s[i] <= 'z' then r[i] as int == s[i] as int - 32 else r[i] == s[i]
    ensures IsLowerHexDigest(s) ==> IsUpperHexDigest(r)
  {
    seq(|s|, i requires 0 <= i < |s| => UpperChar(s[i]))
  }

  /**
    `sign_data(data)`: the upper-cased hex HMAC of `data` under `key`.  Given
    the assumption on the HMAC, the signature is 64 upper-case hex digits, so
    it is ASCII and has no `.` in it.
  */
  function SignData(mac: HexMac, key: seq<byte>, data: seq<byte>): (sig: string)
    ensures IsLowerHexDigest(mac(key, data)) ==> IsUpperHexDigest(sig) && IsAscii(sig) && '.' !in sig
  {
    Upper(mac(key, data))
  }

  /** Upper-casing twice is upper-casing once. */
  lemma UpperIdempotent(s: string)
    ensures Upper(Upper(s)) == Upper(s)
  {
  }
}
