/**
  Base 64 encoding with the standard alphabet and `=` padding, as defined in
  section 4 of RFC 4648.  The encoder is the one the login handler applies to
  the username bytes; the decoder is strict: it accepts exactly the strings the
  encoder produces and returns None for every other string.
*/
module Base64 {
  import opened Basics

  /** A 6-bit group, the value one output character stands for. */
  type Sextet = x: int | 0 <= x < 64

  /** The 64 characters of the alphabet of RFC 4648, section 4, Table 1. */
  predicate IsAlphabetChar(c: char) {
    ('A' <= c <= 'Z') || ('a' <= c <= 'z') || ('0' <= c <= '9') || c == '+' || c == '/'
  }

  /** True when every character is an alphabet character or the pad character. */
  predicate IsEncodingChars(s: string) {
    forall i :: 0 <= i < |s| ==> IsAlphabetChar(s[i]) || s[i] == '='
  }

  /** The character Table 1 assigns to a sextet. */
  function CharOf(v: Sextet): (c: char)
    ensures IsAlphabetChar(c)
    ensures IndexOf(c) == v
  {
    if v < 26 then ('A' as int + v) as char
    else if v < 52 then ('a' as int + (v - 26)) as char
    else if v < 62 then ('0' as int + (v - 52)) as char
    else if v == 62 then '+'
    else '/'
  }

  /** The sextet an alphabet character stands for. */
  function IndexOf(c: char): (v: Sextet)
    requires IsAlphabetChar(c)
  {
    if 'A' <= c <= 'Z' then c as int - 'A' as int
    else if 'a' <= c <= 'z' then c as int - 'a' as int + 26
    else if '0' <= c <= '9' then c as int - '0' as int + 52
    else if c == '+' then 62
    else 63
  }

  /** Table 1 is a bijection: looking a character up and back gives the character. */
  lemma CharOfIndexOf(c: char)
    requires IsAlphabetChar(c)
    ensures CharOf(IndexOf(c)) == c
  {
  }

  // The three bytes of a quantum split into four sextets, most significant first.

  function Hi(b0: byte): Sextet { b0 as int / 4 }
  function MidHi(b0: byte, b1: byte): Sextet { (b0 as int % 4) * 16 + b1 as int / 16 }
  function MidLo(b1: byte, b2: byte): Sextet { (b1 as int % 16) * 4 + b2 as int / 64 }
  function Lo(b2: byte): Sextet { b2 as int % 64 }

  // The four sextets of a quantum joined back into three bytes.

  function Byte0(v0: Sextet, v1: Sextet): byte { (v0 * 4 + v1 / 16) as byte }
  function Byte1(v1: Sextet, v2: Sextet): byte { ((v1 % 16) * 16 + v2 / 4) as byte }
  function Byte2(v2: Sextet, v3: Sextet): byte { ((v2 % 4) * 64 + v3) as byte }

  /** Splitting bytes into sextets and joining them again gives the bytes back. */
  lemma BytesFromSextets(b0: byte, b1: byte, b2: byte)
    ensures Byte0(Hi(b0), MidHi(b0, b1)) == b0
    ensures Byte1(MidHi(b0, b1), MidLo(b1, b2)) == b1
    ensures Byte2(MidLo(b1, b2), Lo(b2)) == b2
  {
  }

  /** Joining sextets into bytes and splitting them again gives the sextets back. */
  lemma SextetsFromBytes(v0: Sextet, v1: Sextet, v2: Sextet, v3: Sextet)
    ensures Hi(Byte0(v0, v1)) == v0
    ensures MidHi(Byte0(v0, v1), Byte1(v1, v2)) == v1
    ensures MidLo(Byte1(v1, v2), Byte2(v2, v3)) == v2
    ensures Lo(Byte2(v2, v3)) == v3
  {
  }

  /** The four characters that encode one full quantum of three bytes. */
  function EncodeQuantum(b0: byte, b1: byte, b2: byte): (q: string)
    ensures |q| == 4
  {
    [CharOf(Hi(b0)), CharOf(MidHi(b0, b1)), CharOf(MidLo(b1, b2)), CharOf(Lo(b2))]
  }

  /**
    The encoding of a byte string: one four-character quantum per three input
    bytes, and a final quantum padded with `==` or `=` when one or two bytes
    remain (RFC 4648, section 4, cases (2) and (3)).
  */
  function Encode(b: seq<byte>): (s: string)
    ensures IsEncodingChars(s)
    decreases |b|
  {
    if |b| == 0 then ""
    else if |b| == 1 then
      [CharOf(Hi(b[0])), CharOf(MidHi(b[0], 0)), '=', '=']
    else if |b| == 2 then
      [CharOf(Hi(b[0])), CharOf(MidHi(b[0], b[1])), CharOf(MidLo(b[1], 0)), '=']
    else
      EncodeQuantum(b[0], b[1], b[2]) + Encode(b[3..])
  }

  /** Decodes one unpadded quantum into three bytes. */
  function DecodeQuantum(c0: char, c1: char, c2: char, c3: char): (r: Option<seq<byte>>)
    ensures r.Some? ==> |r.value| == 3
  {
    if IsAlphabetChar(c0) && IsAlphabetChar(c1) && IsAlphabetChar(c2) && IsAlphabetChar(c3) then
      var v0, v1, v2, v3 := IndexOf(c0), IndexOf(c1), IndexOf(c2), IndexOf(c3);
      Some([Byte0(v0, v1), Byte1(v1, v2), Byte2(v2, v3)])
    else
      None
  }

  /**
    Decodes the last quantum, which may carry one or two pad characters.  The
    bits a pad discards must be zero, so that only the encoder's own output is
    accepted.
  */
  function DecodeFinalQuantum(c0: char, c1: char, c2: char, c3: char): (r: Option<seq<byte>>)
    ensures r.Some? ==> 1 <= |r.value| <= 3
  {
    if c3 != '=' then
      DecodeQuantum(c0, c1, c2, c3)
    else if c2 != '=' then
      if IsAlphabetChar(c0) && IsAlphabetChar(c1) && IsAlphabetChar(c2) && IndexOf(c2) % 4 == 0 then
        Some([Byte0(IndexOf(c0), IndexOf(c1)), Byte1(IndexOf(c1), IndexOf(c2))])
      else
        None
    else
      if IsAlphabetChar(c0) && IsAlphabetChar(c1) && IndexOf(c1) % 16 == 0 then
        Some([Byte0(IndexOf(c0), IndexOf(c1))])
      else
        None
  }

  /**
    The strict decoder: None for any string the encoder cannot produce.  What
    it accepts is a whole number of quanta over the alphabet and the pad
    character, and only the empty string decodes to no bytes.
  */
  function Decode(s: string): (r: Option<seq<byte>>)
    ensures r.Some? ==> |s| % 4 == 0 && IsEncodingChars(s)
    ensures r.Some? ==> (|r.value| == 0 <==> |s| == 0)
    decreases |s|
  {
    if |s| == 0 then Some([])
    else if |s| < 4 then None
    else if |s| == 4 then DecodeFinalQuantum(s[0], s[1], s[2], s[3])
    else
      match DecodeQuantum(s[0], s[1], s[2], s[3])
      case None => None
      case Some(head) =>
        match Decode(s[4..])
        case None => None
        case Some(tail) => Some(head + tail)
  }

  /** The encoding never contains `.`, the separator of the session token. */
  lemma EncodeHasNoDot(b: seq<byte>)
    ensures '.' !in Encode(b)
  {
  }

  /** Every three input bytes, and a final one or two, become four output characters. */
  lemma {:induction false} EncodedLength(b: seq<byte>)
    ensures |Encode(b)| == 4 * ((|b| + 2) / 3)
    decreases |b|
  {
    if |b| >= 3 {
      EncodeFirstQuantum(b);
      EncodedLength(b[3..]);
    }
  }

  /** A full quantum decodes to the three bytes it encodes. */
  lemma DecodeEncodeQuantum(b0: byte, b1: byte, b2: byte)
    ensures var q := EncodeQuantum(b0, b1, b2);
      DecodeQuantum(q[0], q[1], q[2], q[3]) == Some([b0, b1, b2])
  {
    BytesFromSextets(b0, b1, b2);
  }

  /** A sextet whose low bits are filled with zeros passes the pad check. */
  lemma LowBitsZero(k: int, m: int)
    requires m == 4 || m == 16
    requires 0 <= k < 64 / m
    ensures (k * m) % m == 0
  {
  }

  /** A four-character string is decoded as a final quantum. */
  lemma DecodeSingleQuantum(c0: char, c1: char, c2: char, c3: char)
    ensures Decode([c0, c1, c2, c3]) == DecodeFinalQuantum(c0, c1, c2, c3)
  {
  }

  /** The final quantum of a one-byte remainder decodes back to that byte. */
  lemma DecodeEncodeOne(b0: byte)
    ensures Decode(Encode([b0])) == Some([b0])
  {
    var c0, c1 := CharOf(Hi(b0)), CharOf(MidHi(b0, 0));
    assert Encode([b0]) == [c0, c1, '=', '='];
    DecodeSingleQuantum(c0, c1, '=', '=');
    DecodePaddedOne(b0);
  }

  lemma DecodePaddedOne(b0: byte)
    ensures DecodeFinalQuantum(CharOf(Hi(b0)), CharOf(MidHi(b0, 0)), '=', '=') == Some([b0])
  {
    LowBitsZero(b0 as int % 4, 16);
    BytesFromSextets(b0, 0, 0);
  }

  /** The final quantum of a two-byte remainder decodes back to those bytes. */
  lemma DecodeEncodeTwo(b0: byte, b1: byte)
    ensures Decode(Encode([b0, b1])) == Some([b0, b1])
  {
    var c0, c1, c2 := CharOf(Hi(b0)), CharOf(MidHi(b0, b1)), CharOf(MidLo(b1, 0));
    assert Encode([b0, b1]) == [c0, c1, c2, '='];
    DecodeSingleQuantum(c0, c1, c2, '=');
    DecodePaddedTwo(b0, b1);
  }

  lemma DecodePaddedTwo(b0: byte, b1: byte)
    ensures DecodeFinalQuantum(CharOf(Hi(b0)), CharOf(MidHi(b0, b1)), CharOf(MidLo(b1, 0)), '=') == Some([b0, b1])
  {
    LowBitsZero(b1 as int % 16, 4);
    BytesFromSextets(b0, b1, 0);
  }

  /** A byte string of three or more bytes encodes its first quantum, then the rest. */
  lemma EncodeFirstQuantum(b: seq<byte>)
    requires |b| >= 3
    ensures Encode(b) == EncodeQuantum(b[0], b[1], b[2]) + Encode(b[3..])
  {
  }

  /** A full quantum on its own decodes to three bytes. */
  lemma DecodeOnlyQuantum(b0: byte, b1: byte, b2: byte)
    ensures Decode(EncodeQuantum(b0, b1, b2)) == Some([b0, b1, b2])
  {
    var q := EncodeQuantum(b0, b1, b2);
    DecodeEncodeQuantum(b0, b1, b2);
    DecodeSingleQuantum(q[0], q[1], q[2], q[3]);
    assert q == [q[0], q[1], q[2], q[3]];
  }

  /** Round trip: decoding an encoding gives back the bytes that were encoded. */
  lemma {:induction false} DecodeEncode(b: seq<byte>)
    ensures Decode(Encode(b)) == Some(b)
    decreases |b|
  {
    if |b| == 0 {
    } else if |b| == 1 {
      assert b == [b[0]];
      DecodeEncodeOne(b[0]);
    } else if |b| == 2 {
      assert b == [b[0], b[1]];
      DecodeEncodeTwo(b[0], b[1]);
    } else {
      var head, tail := b[..3], b[3..];
      assert b == head + tail;
      assert head == [b[0], b[1], b[2]];
      EncodeFirstQuantum(b);
      var q, rest := EncodeQuantum(b[0], b[1], b[2]), Encode(tail);
      if |tail| == 0 {
        assert rest == "";
        assert Encode(b) == q;
        assert b == [b[0], b[1], b[2]];
        DecodeOnlyQuantum(b[0], b[1], b[2]);
      } else {
        DecodeEncode(tail);
        DecodeEncodeQuantum(b[0], b[1], b[2]);
        var s := q + rest;
        assert s[4..] == rest && s[..4] == q;
        DecodeFirstQuantum(s);
        assert Decode(q + rest) == Some(head + tail);
      }
    }
  }

  /** A full quantum the decoder accepts is the encoding of what it decodes to. */
  lemma EncodeDecodeQuantum(c0: char, c1: char, c2: char, c3: char)
    requires DecodeQuantum(c0, c1, c2, c3).Some?
    ensures var b := DecodeQuantum(c0, c1, c2, c3).value;
      EncodeQuantum(b[0], b[1], b[2]) == [c0, c1, c2, c3]
  {
    CharOfIndexOf(c0);
    CharOfIndexOf(c1);
    CharOfIndexOf(c2);
    CharOfIndexOf(c3);
    SextetsFromBytes(IndexOf(c0), IndexOf(c1), IndexOf(c2), IndexOf(c3));
  }

  /** A final quantum the decoder accepts is the encoding of what it decodes to. */
  lemma EncodeDecodeFinalQuantum(c0: char, c1: char, c2: char, c3: char)
    requires DecodeFinalQuantum(c0, c1, c2, c3).Some?
    ensures Encode(DecodeFinalQuantum(c0, c1, c2, c3).value) == [c0, c1, c2, c3]
  {
    var b := DecodeFinalQuantum(c0, c1, c2, c3).value;
    if c3 != '=' {
      EncodeDecodeQuantum(c0, c1, c2, c3);
      EncodeFirstQuantum(b);
      assert Encode(b[3..]) == "";
    } else if c2 != '=' {
      CharOfIndexOf(c0);
      CharOfIndexOf(c1);
      CharOfIndexOf(c2);
      SextetsFromBytes(IndexOf(c0), IndexOf(c1), IndexOf(c2), 0);
    } else {
      CharOfIndexOf(c0);
      CharOfIndexOf(c1);
      SextetsFromBytes(IndexOf(c0), IndexOf(c1), 0, 0);
    }
  }

  /** A string longer than one quantum is decoded quantum by quantum. */
  lemma DecodeFirstQuantum(s: string)
    requires |s| > 4
    ensures Decode(s) ==
      match DecodeQuantum(s[0], s[1], s[2], s[3])
      case None => None
      case Some(head) =>
        match Decode(s[4..])
        case None => None
        case Some(tail) => Some(head + tail)
  {
  }

  /** A string longer than one quantum is its first quantum followed by the rest. */
  lemma SplitFirstQuantum(s: string)
    requires |s| > 4
    ensures s == [s[0], s[1], s[2], s[3]] + s[4..]
  {
  }

  /** Strictness: a string the decoder accepts is the encoding of what it decodes to. */
  lemma {:induction false} EncodeDecode(s: string, b: seq<byte>)
    requires Decode(s) == Some(b)
    ensures Encode(b) == s
    decreases |s|
  {
    if |s| == 0 {
    } else if |s| == 4 {
      DecodeSingleQuantum(s[0], s[1], s[2], s[3]);
      assert s == [s[0], s[1], s[2], s[3]];
      EncodeDecodeFinalQuantum(s[0], s[1], s[2], s[3]);
    } else {
      SplitFirstQuantum(s);
      DecodeFirstQuantum(s);
      var head := DecodeQuantum(s[0], s[1], s[2], s[3]).value;
      var tail := Decode(s[4..]).value;
      EncodeDecodeQuantum(s[0], s[1], s[2], s[3]);
      EncodeDecode(s[4..], tail);
      var bytes := head + tail;
      assert bytes[3..] == tail;
      EncodeFirstQuantum(bytes);
    }
  }

  /** The decoder is exactly the inverse of the encoder. */
  lemma DecodeIffEncode(s: string, b: seq<byte>)
    ensures Decode(s) == Some(b) <==> Encode(b) == s
  {
    if Decode(s) == Some(b) {
      EncodeDecode(s, b);
    }
    if Encode(b) == s {
      DecodeEncode(b);
    }
  }
}
