/**
  The signed session token of server.py: how the login handler turns a
  username into the `username` cookie (lines 104-105) and how
  `extract_username_from_signed_string` (lines 62-72) turns a cookie back into
  a username.

  A token is `base64(username) + "." + sign_data(username)`.  Usernames are
  the UTF-8 bytes of the Python string.
*/
module Session {
  import opened Basics
  import Base64
  import Utf8
  import Text
  import Signer

  /** The one character separating the encoded username from its signature. */
  const Separator := '.'

  /**
    The exceptions `extract_username_from_signed_string` lets escape, each
    named for its cause:
    - MalformedBase64: `base64.b64decode` rejects the first part (binascii.Error);
    - MalformedUtf8: the decoded bytes are not UTF-8 (UnicodeDecodeError);
    - UnpackMismatch: the split did not give two parts (ValueError), which
      cannot happen once the separator count is one;
    - NonAsciiComparison: `hmac.compare_digest` was handed a string with a
      non-ASCII character (TypeError).
  */
  datatype Fault = MalformedBase64 | MalformedUtf8 | UnpackMismatch | NonAsciiComparison

  /** The three ways verification ends: `None`, a username, or an exception. */
  datatype Verdict = Rejected | Accepted(username: seq<byte>) | Raised(fault: Fault)

  /** The cookie value the login handler sets for `username`. */
  function Mint(mac: Signer.HexMac, key: seq<byte>, username: seq<byte>): (token: string)
    ensures Signer.IsHexDigestMac(mac) ==> multiset(token)[Separator] == 1
  {
    var encoded, sig := Base64.Encode(username), Signer.SignData(mac, key, username);
    Base64.EncodeHasNoDot(username);
    assert multiset(encoded + [Separator] + sig) == multiset(encoded) + multiset{Separator} + multiset(sig);
    encoded + [Separator] + sig
  }

  /**
    The second half of `extract_username_from_signed_string`, once the cookie
    is split: decode the first part to the username, sign it, and compare the
    signature with the second part.  It accepts only the encoding of a UTF-8
    username together with that username's signature.
  */
  function CheckSignature(mac: Signer.HexMac, key: seq<byte>, encoded: string, sig: string): (v: Verdict)
    ensures Base64.Decode(encoded).None? ==> v == Raised(MalformedBase64)
    ensures Base64.Decode(encoded).Some? && !Utf8.WellFormed(Base64.Decode(encoded).value) ==>
      v == Raised(MalformedUtf8)
    ensures v.Accepted? ==>
      && Utf8.WellFormed(v.username)
      && encoded == Base64.Encode(v.username)
      && sig == Signer.SignData(mac, key, v.username)
  {
    match Base64.Decode(encoded)
    case None => Raised(MalformedBase64)
    case Some(username) =>
      if !Utf8.WellFormed(username) then Raised(MalformedUtf8)
      else
        var expected := Signer.SignData(mac, key, username);
        if !IsAscii(expected) || !IsAscii(sig) then Raised(NonAsciiComparison)
        else if expected == sig then
          Base64.EncodeDecode(encoded, username);
          Accepted(username)
        else Rejected
  }

  /**
    `extract_username_from_signed_string(cookie)`.  A cookie that does not
    hold exactly one separator is rejected whatever else it holds; otherwise
    the two parts around it are checked, and only the token minted for a
    username is accepted.
  */
  function Verify(mac: Signer.HexMac, key: seq<byte>, cookie: string): (v: Verdict)
    ensures multiset(cookie)[Separator] != 1 ==> v == Rejected
    ensures v != Raised(UnpackMismatch)
    ensures v.Accepted? ==> Utf8.WellFormed(v.username) && cookie == Mint(mac, key, v.username)
  {
    if Text.Count(cookie, Separator) != 1 then Rejected
    else
      var parts := Text.Split(cookie, Separator);
      if |parts| != 2 then Raised(UnpackMismatch)
      else
        Text.JoinSplit(cookie, Separator);
        CheckSignature(mac, key, parts[0], parts[1])
  }

  /** A cookie of two separator-free parts around one separator is checked part by part. */
  lemma VerifyTwoParts(mac: Signer.HexMac, key: seq<byte>, encoded: string, sig: string)
    requires Separator !in encoded && Separator !in sig
    ensures Verify(mac, key, encoded + [Separator] + sig) == CheckSignature(mac, key, encoded, sig)
  {
    SplitTwoParts(encoded, sig);
  }

  /**
    Round trip: the token the login handler mints for a username is accepted
    and yields exactly that username.
  */
  lemma VerifyMinted(mac: Signer.HexMac, key: seq<byte>, username: seq<byte>)
    requires Signer.IsHexDigestMac(mac)
    requires Utf8.WellFormed(username)
    ensures Verify(mac, key, Mint(mac, key, username)) == Accepted(username)
  {
    Base64.EncodeHasNoDot(username);
    VerifyTwoParts(mac, key, Base64.Encode(username), Signer.SignData(mac, key, username));
    Base64.DecodeEncode(username);
  }

  /**
    Soundness: an accepted cookie splits into two parts, the first decodes to
    the username and the second is that username's signature.
  */
  lemma AcceptedParts(mac: Signer.HexMac, key: seq<byte>, cookie: string, username: seq<byte>)
    requires Verify(mac, key, cookie) == Accepted(username)
    ensures var parts := Text.Split(cookie, Separator);
      |parts| == 2
      && Base64.Decode(parts[0]) == Some(username)
      && parts[1] == Signer.SignData(mac, key, username)
  {
    var encoded, sig := Base64.Encode(username), Signer.SignData(mac, key, username);
    Base64.EncodeHasNoDot(username);
    assert Separator !in sig by {
      var parts := Text.Split(cookie, Separator);
      assert Text.Count(cookie, Separator) == 1;
      assert CheckSignature(mac, key, parts[0], parts[1]) == Accepted(username);
    }
    VerifyTwoParts(mac, key, encoded, sig);
    SplitTwoParts(encoded, sig);
    Base64.DecodeEncode(username);
  }

  /** Splitting two separator-free parts joined by the separator gives the two parts. */
  lemma SplitTwoParts(a: string, b: string)
    requires Separator !in a && Separator !in b
    ensures Text.Split(a + [Separator] + b, Separator) == [a, b]
  {
    var parts := [a, b];
    assert Text.Join(parts, Separator) == a + [Separator] + Text.Join(parts[1..], Separator);
    Text.SplitJoin(parts, Separator);
  }

  /**
    The verifier accepts a cookie for a username exactly when the cookie is
    the token minted for that username (and the username is UTF-8 text).
  */
  lemma AcceptsExactlyMinted(mac: Signer.HexMac, key: seq<byte>, cookie: string, username: seq<byte>)
    requires Signer.IsHexDigestMac(mac)
    ensures Verify(mac, key, cookie) == Accepted(username)
        <==> Utf8.WellFormed(username) && cookie == Mint(mac, key, username)
  {
    if Utf8.WellFormed(username) && cookie == Mint(mac, key, username) {
      VerifyMinted(mac, key, username);
    }
  }

  /**
    Tamper rejection: replacing the signature of a minted token by any other
    separator-free string is never accepted.  It is rejected when the
    replacement is ASCII; otherwise `compare_digest` raises.
  */
  lemma TamperedSignatureRejected(mac: Signer.HexMac, key: seq<byte>, username: seq<byte>, forged: string)
    requires Signer.IsHexDigestMac(mac)
    requires Utf8.WellFormed(username)
    requires Separator !in forged
    requires forged != Signer.SignData(mac, key, username)
    ensures Verify(mac, key, Base64.Encode(username) + [Separator] + forged)
         == if IsAscii(forged) then Rejected else Raised(NonAsciiComparison)
  {
    Base64.EncodeHasNoDot(username);
    VerifyTwoParts(mac, key, Base64.Encode(username), forged);
    Base64.DecodeEncode(username);
  }
}
