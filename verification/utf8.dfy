/**
  `str.encode("utf-8")`: the UTF-8 form of section 3 of RFC 3629, and a strict decoder showing
  that the octets determine the text.
 */
module Utf8 {
  import opened Wrappers
  import opened Bytes

  /** A trailing octet `10xxxxxx`. */
  predicate IsContinuation(x: byte) {
    0x80 <= x < 0xC0
  }

  /** The one to four octets of one scalar value. */
  function EncodeChar(c: char): (r: seq<byte>)
    ensures 1 <= |r| <= 4
  {
    var cp := c as int;
    if cp < 0x80 then [cp]
    else if cp < 0x800 then [0xC0 + cp / 64, 0x80 + cp % 64]
    else if cp < 0x10000 then [0xE0 + cp / 4096, 0x80 + cp / 64 % 64, 0x80 + cp % 64]
    else [0xF0 + cp / 262144, 0x80 + cp / 4096 % 64, 0x80 + cp / 64 % 64, 0x80 + cp % 64]
  }

  /** The octets of a whole text, character by character. */
  function Encode(s: string): (r: seq<byte>)
    ensures |r| >= |s|
    decreases |s|
  {
    if |s| == 0 then [] else EncodeChar(s[0]) + Encode(s[1..])
  }

  /** The character at the front of `b` and how many octets it takes; `None` for an ill-formed
      sequence (a stray continuation, an overlong form, a surrogate, a value past U+10FFFF or a
      truncated sequence). */
  function DecodeFirst(b: seq<byte>): (r: Option<(char, nat)>)
    requires |b| > 0
    ensures r.Some? ==> 1 <= r.value.1 <= |b|
  {
    var b0: int := b[0];
    var b1: int := if |b| > 1 then b[1] else 0;
    var b2: int := if |b| > 2 then b[2] else 0;
    var b3: int := if |b| > 3 then b[3] else 0;
    if b0 < 0x80 then Some((b0 as char, 1))
    else if 0xC2 <= b0 < 0xE0 then
      if |b| >= 2 && IsContinuation(b[1]) then
        Some((((b0 - 0xC0) * 64 + (b1 - 0x80)) as char, 2))
      else None
    else if 0xE0 <= b0 < 0xF0 then
      if |b| >= 3 && IsContinuation(b[1]) && IsContinuation(b[2]) then
        var cp := (b0 - 0xE0) * 4096 + (b1 - 0x80) * 64 + (b2 - 0x80);
        if 0x800 <= cp && !(0xD800 <= cp < 0xE000) then Some((cp as char, 3)) else None
      else None
    else if 0xF0 <= b0 < 0xF5 then
      if |b| >= 4 && IsContinuation(b[1]) && IsContinuation(b[2]) && IsContinuation(b[3]) then
        var cp := (b0 - 0xF0) * 262144 + (b1 - 0x80) * 4096 + (b2 - 0x80) * 64 + (b3 - 0x80);
        if 0x10000 <= cp < 0x110000 then Some((cp as char, 4)) else None
      else None
    else None
  }

  /** Strict decoding of a whole octet sequence. */
  function Decode(b: seq<byte>): Option<string>
    decreases |b|
  {
    if |b| == 0 then Some([])
    else
      match DecodeFirst(b)
      case None => None
      case Some((c, n)) =>
        match Decode(b[n..])
        case None => None
        case Some(rest) => Some([c] + rest)
  }

  /** The encoder's octets for one character are read back as that character. */
  lemma DecodeFirstEncodeChar(c: char, rest: seq<byte>)
    ensures DecodeFirst(EncodeChar(c) + rest) == Some((c, |EncodeChar(c)|))
  {
    var cp := c as int;
    if cp < 0x80 {
    } else if cp < 0x800 {
      ReadBack2(c, rest);
    } else if cp < 0x10000 {
      ReadBack3(c, rest);
    } else {
      ReadBack4(c, rest);
    }
  }

  /** The two-octet case of `DecodeFirstEncodeChar`. */
  lemma ReadBack2(c: char, rest: seq<byte>)
    requires 0x80 <= c as int < 0x800
    ensures DecodeFirst(EncodeChar(c) + rest) == Some((c, 2))
  {
    var cp := c as int;
    var b := EncodeChar(c) + rest;
    assert b[0] == 0xC0 + cp / 64 && b[1] == 0x80 + cp % 64;
  }

  /** The three-octet case of `DecodeFirstEncodeChar`. */
  lemma ReadBack3(c: char, rest: seq<byte>)
    requires 0x800 <= c as int < 0x10000
    ensures DecodeFirst(EncodeChar(c) + rest) == Some((c, 3))
  {
    var cp := c as int;
    var b := EncodeChar(c) + rest;
    assert b[0] == 0xE0 + cp / 4096 && b[1] == 0x80 + cp / 64 % 64 && b[2] == 0x80 + cp % 64;
    Digits3(cp);
  }

  /** The four-octet case of `DecodeFirstEncodeChar`. */
  lemma ReadBack4(c: char, rest: seq<byte>)
    requires 0x10000 <= c as int
    ensures DecodeFirst(EncodeChar(c) + rest) == Some((c, 4))
  {
    var cp := c as int;
    var b := EncodeChar(c) + rest;
    assert b[0] == 0xF0 + cp / 262144 && b[1] == 0x80 + cp / 4096 % 64;
    assert b[2] == 0x80 + cp / 64 % 64 && b[3] == 0x80 + cp % 64;
    Digits4(cp);
  }

  /** A value below 2^16 from its three 6-bit-or-less parts. */
  lemma Digits3(cp: int)
    requires 0 <= cp < 0x10000
    ensures cp / 4096 * 4096 + cp / 64 % 64 * 64 + cp % 64 == cp
  {
    assert cp / 4096 == cp / 64 / 64;
  }

  /** A value below 2^21 from its four 6-bit-or-less parts. */
  lemma Digits4(cp: int)
    requires 0 <= cp < 0x200000
    ensures cp / 262144 * 262144 + cp / 4096 % 64 * 4096 + cp / 64 % 64 * 64 + cp % 64 == cp
  {
    assert cp / 4096 == cp / 64 / 64;
    assert cp / 262144 == cp / 4096 / 64;
  }

  /** Decoding the encoding of a text gives back the text. */
  lemma {:induction false} DecodeEncode(s: string)
    ensures Decode(Encode(s)) == Some(s)
    decreases |s|
  {
    if |s| > 0 {
      var e := EncodeChar(s[0]);
      var rest := Encode(s[1..]);
      DecodeFirstEncodeChar(s[0], rest);
      assert (e + rest)[|e|..] == rest;
      DecodeEncode(s[1..]);
      assert [s[0]] + s[1..] == s;
    }
  }

  /** The decoder accepts only the encoder's form: the octets it reads for a character are
      exactly the encoding of that character. */
  lemma EncodeCharDecodeFirst(b: seq<byte>)
    requires |b| > 0 && DecodeFirst(b).Some?
    ensures EncodeChar(DecodeFirst(b).value.0) == b[..DecodeFirst(b).value.1]
  {
    if b[0] < 0x80 {
      assert EncodeChar(DecodeFirst(b).value.0) == [b[0]];
    } else if b[0] < 0xE0 {
      DecodeFirst2(b);
    } else if b[0] < 0xF0 {
      DecodeFirst3(b);
    } else {
      DecodeFirst4(b);
    }
  }

  /** The two-octet case of `EncodeCharDecodeFirst`. */
  lemma DecodeFirst2(b: seq<byte>)
    requires |b| > 0 && 0x80 <= b[0] < 0xE0 && DecodeFirst(b).Some?
    ensures EncodeChar(DecodeFirst(b).value.0) == b[..DecodeFirst(b).value.1]
  {
    var b0: int, b1: int := b[0], b[1];
    Parts2(b0, b1);
    assert EncodeChar(DecodeFirst(b).value.0) == [b0, b1];
  }

  /** The three-octet case of `EncodeCharDecodeFirst`. */
  lemma DecodeFirst3(b: seq<byte>)
    requires |b| > 0 && 0xE0 <= b[0] < 0xF0 && DecodeFirst(b).Some?
    ensures EncodeChar(DecodeFirst(b).value.0) == b[..DecodeFirst(b).value.1]
  {
    var b0: int, b1: int, b2: int := b[0], b[1], b[2];
    Parts3(b0, b1, b2);
    assert EncodeChar(DecodeFirst(b).value.0) == [b0, b1, b2];
  }

  /** The four-octet case of `EncodeCharDecodeFirst`. */
  lemma DecodeFirst4(b: seq<byte>)
    requires |b| > 0 && 0xF0 <= b[0] && DecodeFirst(b).Some?
    ensures EncodeChar(DecodeFirst(b).value.0) == b[..DecodeFirst(b).value.1]
  {
    var b0: int, b1: int, b2: int, b3: int := b[0], b[1], b[2], b[3];
    Parts4(b0, b1, b2, b3);
    assert EncodeChar(DecodeFirst(b).value.0) == [b0, b1, b2, b3];
  }

  /** A two-octet form is split back into the same octets. */
  lemma Parts2(b0: int, b1: int)
    requires 0xC2 <= b0 < 0xE0 && 0x80 <= b1 < 0xC0
    ensures var cp := (b0 - 0xC0) * 64 + (b1 - 0x80);
            0x80 <= cp < 0x800 && 0xC0 + cp / 64 == b0 && 0x80 + cp % 64 == b1
  {
  }

  /** A three-octet form is split back into the same octets. */
  lemma Parts3(b0: int, b1: int, b2: int)
    requires 0xE0 <= b0 < 0xF0 && 0x80 <= b1 < 0xC0 && 0x80 <= b2 < 0xC0
    ensures var cp := (b0 - 0xE0) * 4096 + (b1 - 0x80) * 64 + (b2 - 0x80);
            cp < 0x10000 && 0xE0 + cp / 4096 == b0 && 0x80 + cp / 64 % 64 == b1 && 0x80 + cp % 64 == b2
  {
    var cp := (b0 - 0xE0) * 4096 + (b1 - 0x80) * 64 + (b2 - 0x80);
    assert cp / 64 == (b0 - 0xE0) * 64 + (b1 - 0x80) && cp % 64 == b2 - 0x80;
    assert cp / 4096 == cp / 64 / 64;
  }

  /** A four-octet form is split back into the same octets. */
  lemma Parts4(b0: int, b1: int, b2: int, b3: int)
    requires 0xF0 <= b0 < 0xF5 && 0x80 <= b1 < 0xC0 && 0x80 <= b2 < 0xC0 && 0x80 <= b3 < 0xC0
    ensures var cp := (b0 - 0xF0) * 262144 + (b1 - 0x80) * 4096 + (b2 - 0x80) * 64 + (b3 - 0x80);
            && 0xF0 + cp / 262144 == b0 && 0x80 + cp / 4096 % 64 == b1
            && 0x80 + cp / 64 % 64 == b2 && 0x80 + cp % 64 == b3
  {
    var cp := (b0 - 0xF0) * 262144 + (b1 - 0x80) * 4096 + (b2 - 0x80) * 64 + (b3 - 0x80);
    assert cp / 64 == (b0 - 0xF0) * 4096 + (b1 - 0x80) * 64 + (b2 - 0x80) && cp % 64 == b3 - 0x80;
    assert cp / 4096 == cp / 64 / 64;
    assert cp / 262144 == cp / 4096 / 64;
  }

  /** Re-encoding what the decoder returns gives back its input. */
  lemma {:induction false} EncodeDecode(b: seq<byte>)
    requires Decode(b).Some?
    ensures Encode(Decode(b).value) == b
    decreases |b|
  {
    if |b| > 0 {
      var c, n := DecodeFirst(b).value.0, DecodeFirst(b).value.1;
      DecodeStep(b);
      EncodeCharDecodeFirst(b);
      EncodeDecode(b[n..]);
      Glue(b, n, c, Decode(b[n..]).value);
    }
  }

  /** Decoding a non-empty sequence: the first character, then the decoding of the rest. */
  lemma DecodeStep(b: seq<byte>)
    requires |b| > 0 && Decode(b).Some?
    ensures DecodeFirst(b).Some?
    ensures Decode(b[DecodeFirst(b).value.1..]).Some?
    ensures Decode(b).value == [DecodeFirst(b).value.0] + Decode(b[DecodeFirst(b).value.1..]).value
  {
  }

  /** A character whose encoding is the front of `b`, before a text whose encoding is the rest. */
  lemma Glue(b: seq<byte>, n: int, c: char, rest: string)
    requires 0 <= n <= |b| && EncodeChar(c) == b[..n] && Encode(rest) == b[n..]
    ensures Encode([c] + rest) == b
  {
    EncodeFront(c, rest);
    assert b[..n] + b[n..] == b;
  }

  /** Encoding a character in front of a text. */
  lemma EncodeFront(c: char, s: string)
    ensures Encode([c] + s) == EncodeChar(c) + Encode(s)
  {
    assert ([c] + s)[0] == c && ([c] + s)[1..] == s;
  }
}
