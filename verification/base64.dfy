/**
  The base64 encoding of section 4 of RFC 4648 (standard alphabet, `=` padding), as computed by
  Python's `base64.b64encode`, and a strict decoder for it.
 */
module Base64 {
  import opened Wrappers
  import opened Bytes

  /** The alphabet of Table 1 of RFC 4648. */
  predicate IsDigit(c: char) {
    ('A' <= c <= 'Z') || ('a' <= c <= 'z') || ('0' <= c <= '9') || c == '+' || c == '/'
  }

  /** The digit of Table 1 for a 6-bit value. */
  function Digit(v: int): (c: char)
    requires 0 <= v < 64
    ensures IsDigit(c)
  {
    if v < 26 then ('A' as int + v) as char
    else if v < 52 then ('a' as int + (v - 26)) as char
    else if v < 62 then ('0' as int + (v - 52)) as char
    else if v == 62 then '+'
    else '/'
  }

  /** The 6-bit value of a digit of Table 1; `Digit` is its inverse. */
  function Value(c: char): (v: int)
    requires IsDigit(c)
    ensures 0 <= v < 64
  {
    if 'A' <= c <= 'Z' then c as int - 'A' as int
    else if 'a' <= c <= 'z' then c as int - 'a' as int + 26
    else if '0' <= c <= '9' then c as int - '0' as int + 52
    else if c == '+' then 62
    else 63
  }

  /** Writing the value of a digit gives back the digit. */
  lemma DigitOfValue(c: char)
    requires IsDigit(c)
    ensures Digit(Value(c)) == c
  {
  }

  /** Reading back the digit of a value gives the value. */
  lemma ValueOfDigit(v: int)
    requires 0 <= v < 64
    ensures Value(Digit(v)) == v
  {
  }

  /** Three octets as four digits: the 24-bit group split into 6-bit groups, high bits first. */
  function EncodeGroup(b0: byte, b1: byte, b2: byte): string {
    [Digit(b0 / 4), Digit(b0 % 4 * 16 + b1 / 16), Digit(b1 % 16 * 4 + b2 / 64), Digit(b2 % 64)]
  }

  /** `base64.b64encode(b)`: whole groups of three octets, then a final group of one octet
      (two digits and `==`) or two octets (three digits and `=`). */
  function Encode(b: seq<byte>): (s: string)
    decreases |b|
  {
    if |b| == 0 then ""
    else if |b| == 1 then [Digit(b[0] / 4), Digit(b[0] % 4 * 16), '=', '=']
    else if |b| == 2 then [Digit(b[0] / 4), Digit(b[0] % 4 * 16 + b[1] / 16), Digit(b[1] % 16 * 4), '=']
    else EncodeGroup(b[0], b[1], b[2]) + Encode(b[3..])
  }

  /** Every three octets, and a final one or two, become four characters. */
  lemma {:induction false} EncodeLength(b: seq<byte>)
    ensures |Encode(b)| == (|b| + 2) / 3 * 4
    decreases |b|
  {
    if |b| >= 3 {
      EncodeLength(b[3..]);
      EncodeCons(b[..3], b[3..]);
      assert b[..3] + b[3..] == b;
      assert (|b| + 2) / 3 == (|b| - 1) / 3 + 1;
    }
  }

  /** The encoding uses only the alphabet and the pad character, and the pad character only at
      the end. */
  lemma {:induction false} EncodeAlphabet(b: seq<byte>)
    ensures forall i :: 0 <= i < |Encode(b)| ==> IsDigit(Encode(b)[i]) || Encode(b)[i] == '='
    ensures forall i, j :: 0 <= i < j < |Encode(b)| && Encode(b)[i] == '=' ==> Encode(b)[j] == '='
    decreases |b|
  {
    if |b| >= 3 {
      EncodeAlphabet(b[3..]);
      var g, rest := EncodeGroup(b[0], b[1], b[2]), Encode(b[3..]);
      assert Encode(b) == g + rest;
      forall i | 0 <= i < |Encode(b)|
        ensures IsDigit(Encode(b)[i]) || Encode(b)[i] == '='
        ensures Encode(b)[i] == '=' ==> i >= 4
      {
        if i >= 4 {
          assert Encode(b)[i] == rest[i - 4];
        }
      }
      forall i, j | 0 <= i < j < |Encode(b)| && Encode(b)[i] == '='
        ensures Encode(b)[j] == '='
      {
        assert Encode(b)[i] == rest[i - 4] && Encode(b)[j] == rest[j - 4];
      }
    }
  }

  /** Four digits back to three octets. */
  function DecodeGroup(d0: int, d1: int, d2: int, d3: int): seq<byte>
    requires 0 <= d0 < 64 && 0 <= d1 < 64 && 0 <= d2 < 64 && 0 <= d3 < 64
  {
    [d0 * 4 + d1 / 16, d1 % 16 * 16 + d2 / 4, d2 % 4 * 64 + d3]
  }

  /** The last quantum of an encoding: four digits, or two or three digits whose unused low
      bits are zero followed by the padding. Anything else is rejected. */
  function DecodeFinal(s: string): Option<seq<byte>>
    requires |s| == 4
  {
    if IsDigit(s[0]) && IsDigit(s[1]) && IsDigit(s[2]) && IsDigit(s[3]) then
      Some(DecodeGroup(Value(s[0]), Value(s[1]), Value(s[2]), Value(s[3])))
    else if IsDigit(s[0]) && IsDigit(s[1]) && s[2] == '=' && s[3] == '=' && Value(s[1]) % 16 == 0 then
      Some(DecodeGroup(Value(s[0]), Value(s[1]), 0, 0)[..1])
    else if IsDigit(s[0]) && IsDigit(s[1]) && IsDigit(s[2]) && s[3] == '=' && Value(s[2]) % 4 == 0 then
      Some(DecodeGroup(Value(s[0]), Value(s[1]), Value(s[2]), 0)[..2])
    else None
  }

  /** Strict decoding: the length is a multiple of four, padding appears only in the last
      quantum, and no digit carries non-zero bits past the end of the data. */
  function Decode(s: string): (r: Option<seq<byte>>)
    decreases |s|
  {
    if |s| == 0 then Some([])
    else if |s| < 4 then None
    else if |s| == 4 then DecodeFinal(s)
    else if IsDigit(s[0]) && IsDigit(s[1]) && IsDigit(s[2]) && IsDigit(s[3]) then
      match Decode(s[4..])
      case None => None
      case Some(rest) => Some(DecodeGroup(Value(s[0]), Value(s[1]), Value(s[2]), Value(s[3])) + rest)
    else None
  }

  /** A group of three octets survives encoding and decoding. */
  lemma GroupRoundTrip(b0: byte, b1: byte, b2: byte)
    ensures var d0, d1, d2, d3 := b0 / 4, b0 % 4 * 16 + b1 / 16, b1 % 16 * 4 + b2 / 64, b2 % 64;
            DecodeGroup(d0, d1, d2, d3) == [b0, b1, b2]
  {
  }

  /** Decoding an encoding gives back the octets. */
  lemma {:induction false} DecodeEncode(b: seq<byte>)
    ensures Decode(Encode(b)) == Some(b)
    decreases |b|
  {
    if |b| == 1 {
      DecodeEncodeOne(b[0]);
      assert b == [b[0]];
    } else if |b| == 2 {
      DecodeEncodeTwo(b[0], b[1]);
      assert b == [b[0], b[1]];
    } else if |b| >= 3 {
      DecodeEncode(b[3..]);
      DecodeEncodeCons(b);
    }
  }

  /** Three octets in front of an encoding that round-trips. */
  lemma DecodeEncodeCons(b: seq<byte>)
    requires |b| >= 3 && Decode(Encode(b[3..])) == Some(b[3..])
    ensures Decode(Encode(b)) == Some(b)
  {
    var g := EncodeGroup(b[0], b[1], b[2]);
    var rest := Encode(b[3..]);
    assert Encode(b) == g + rest;
    DecodeEncodeGroup(b[0], b[1], b[2]);
    DecodeQuantum(g, rest);
    SplitGroup(b);
  }

  /** A sequence of at least three octets is its first group followed by the rest. */
  lemma SplitGroup(b: seq<byte>)
    requires |b| >= 3
    ensures b == [b[0], b[1], b[2]] + b[3..]
  {
  }

  /** A full quantum of four digits in front of a decodable rest decodes to its group followed
      by the rest. */
  lemma DecodeQuantum(g: string, rest: string)
    requires |g| == 4 && IsDigit(g[0]) && IsDigit(g[1]) && IsDigit(g[2]) && IsDigit(g[3])
    requires Decode(rest).Some?
    ensures Decode(g + rest)
         == Some(DecodeGroup(Value(g[0]), Value(g[1]), Value(g[2]), Value(g[3])) + Decode(rest).value)
  {
    var s := g + rest;
    assert s[..4] == g && s[4..] == rest;
    var d := DecodeGroup(Value(g[0]), Value(g[1]), Value(g[2]), Value(g[3]));
    if |rest| == 0 {
      assert s == g;
      assert Decode(rest) == Some([]);
      assert DecodeFinal(g) == Some(d);
      assert d + [] == d;
    } else {
      assert Decode(s) == Some(d + Decode(rest).value);
    }
  }

  /** One octet: two digits and `==`. */
  lemma DecodeEncodeOne(b0: byte)
    ensures Decode(Encode([b0])) == Some([b0])
  {
    var s := Encode([b0]);
    ValueOfDigit(b0 / 4);
    ValueOfDigit(b0 % 4 * 16);
    assert Value(s[0]) == b0 / 4 && Value(s[1]) == b0 % 4 * 16;
    assert !IsDigit(s[2]) && s[2] == '=' && s[3] == '=';
    var g := DecodeGroup(b0 / 4, b0 % 4 * 16, 0, 0);
    assert DecodeFinal(s) == Some(g[..1]);
    assert g[0] == b0;
    assert g[..1] == [b0];
  }

  /** Two octets: three digits and `=`. */
  lemma DecodeEncodeTwo(b0: byte, b1: byte)
    ensures Decode(Encode([b0, b1])) == Some([b0, b1])
  {
    var s := Encode([b0, b1]);
    var d0, d1, d2 := b0 / 4, b0 % 4 * 16 + b1 / 16, b1 % 16 * 4;
    ValueOfDigit(d0);
    ValueOfDigit(d1);
    ValueOfDigit(d2);
    assert Value(s[0]) == d0 && Value(s[1]) == d1 && Value(s[2]) == d2;
    assert !IsDigit(s[3]) && s[3] == '=' && s[2] != '=';
    var g := DecodeGroup(d0, d1, d2, 0);
    assert DecodeFinal(s) == Some(g[..2]);
    GroupRoundTrip(b0, b1, 0);
    assert g[0] == b0 && g[1] == b1;
    assert g[..2] == [b0, b1];
  }

  /** Three octets: four digits. */
  lemma DecodeEncodeGroup(b0: byte, b1: byte, b2: byte)
    ensures var g := EncodeGroup(b0, b1, b2);
            && IsDigit(g[0]) && IsDigit(g[1]) && IsDigit(g[2]) && IsDigit(g[3])
            && DecodeGroup(Value(g[0]), Value(g[1]), Value(g[2]), Value(g[3])) == [b0, b1, b2]
  {
    var d0, d1, d2, d3 := b0 / 4, b0 % 4 * 16 + b1 / 16, b1 % 16 * 4 + b2 / 64, b2 % 64;
    ValueOfDigit(d0);
    ValueOfDigit(d1);
    ValueOfDigit(d2);
    ValueOfDigit(d3);
    GroupRoundTrip(b0, b1, b2);
  }

  /** The decoder accepts only canonical encodings: re-encoding what it returns gives back the
      input. */
  lemma {:induction false} EncodeDecode(s: string)
    requires Decode(s).Some?
    ensures Encode(Decode(s).value) == s
    decreases |s|
  {
    if |s| == 4 {
      EncodeDecodeFinal(s);
    } else if |s| > 4 {
      EncodeDecode(s[4..]);
      EncodeDecodeCons(s);
    }
  }

  /** A full quantum in front of a rest that re-encodes to itself. */
  lemma EncodeDecodeCons(s: string)
    requires |s| > 4 && Decode(s).Some?
    requires Encode(Decode(s[4..]).value) == s[4..]
    ensures Encode(Decode(s).value) == s
  {
    DecodeCons(s);
    var g := DecodeGroup(Value(s[0]), Value(s[1]), Value(s[2]), Value(s[3]));
    QuantumRoundTrip(s);
    EncodeCons(g, Decode(s[4..]).value);
    SplitQuantum(s);
  }

  /** A quantum of four digits, decoded and re-encoded, is itself. */
  lemma QuantumRoundTrip(s: string)
    requires |s| >= 4 && IsDigit(s[0]) && IsDigit(s[1]) && IsDigit(s[2]) && IsDigit(s[3])
    ensures var g := DecodeGroup(Value(s[0]), Value(s[1]), Value(s[2]), Value(s[3]));
            |g| == 3 && EncodeGroup(g[0], g[1], g[2]) == s[..4]
  {
    GroupDigits(Value(s[0]), Value(s[1]), Value(s[2]), Value(s[3]));
    QuantumDigits(s);
  }

  /** What decoding more than one quantum returns. */
  lemma DecodeCons(s: string)
    requires |s| > 4 && Decode(s).Some?
    ensures IsDigit(s[0]) && IsDigit(s[1]) && IsDigit(s[2]) && IsDigit(s[3])
    ensures Decode(s[4..]).Some?
    ensures Decode(s).value
         == DecodeGroup(Value(s[0]), Value(s[1]), Value(s[2]), Value(s[3])) + Decode(s[4..]).value
  {
  }

  /** Encoding a group in front of more octets. */
  lemma EncodeCons(g: seq<byte>, rest: seq<byte>)
    requires |g| == 3
    ensures Encode(g + rest) == EncodeGroup(g[0], g[1], g[2]) + Encode(rest)
  {
    var b := g + rest;
    assert b[0] == g[0] && b[1] == g[1] && b[2] == g[2] && b[3..] == rest;
  }

  /** The digits of a quantum, rewritten through their values. */
  lemma QuantumDigits(s: string)
    requires |s| >= 4 && IsDigit(s[0]) && IsDigit(s[1]) && IsDigit(s[2]) && IsDigit(s[3])
    ensures [Digit(Value(s[0])), Digit(Value(s[1])), Digit(Value(s[2])), Digit(Value(s[3]))] == s[..4]
  {
    DigitOfValue(s[0]);
    DigitOfValue(s[1]);
    DigitOfValue(s[2]);
    DigitOfValue(s[3]);
  }

  /** A string of at least four characters is its first quantum followed by the rest. */
  lemma SplitQuantum(s: string)
    requires |s| >= 4
    ensures s == s[..4] + s[4..]
  {
  }

  /** `EncodeDecode` for the last quantum. */
  lemma EncodeDecodeFinal(s: string)
    requires |s| == 4 && DecodeFinal(s).Some?
    ensures Encode(DecodeFinal(s).value) == s
  {
    if IsDigit(s[2]) && IsDigit(s[3]) {
      FinalNoPad(s);
    } else if IsDigit(s[2]) {
      FinalOnePad(s);
    } else {
      FinalTwoPads(s);
    }
  }

  /** A last quantum of four digits. */
  lemma FinalNoPad(s: string)
    requires |s| == 4 && DecodeFinal(s).Some? && IsDigit(s[2]) && IsDigit(s[3])
    ensures Encode(DecodeFinal(s).value) == s
  {
    var b := DecodeFinal(s).value;
    QuantumDigits(s);
    GroupDigits(Value(s[0]), Value(s[1]), Value(s[2]), Value(s[3]));
    EncodeCons(b, []);
    assert b + [] == b;
    SplitQuantum(s);
  }

  /** A last quantum of three digits and one pad. */
  lemma FinalOnePad(s: string)
    requires |s| == 4 && DecodeFinal(s).Some? && IsDigit(s[2]) && !IsDigit(s[3])
    ensures Encode(DecodeFinal(s).value) == s
  {
    var b := DecodeFinal(s).value;
    var d0, d1, d2 := Value(s[0]), Value(s[1]), Value(s[2]);
    DigitOfValue(s[0]);
    DigitOfValue(s[1]);
    DigitOfValue(s[2]);
    GroupDigits(d0, d1, d2, 0);
    var x, y := d0 * 4 + d1 / 16, d1 % 16 * 16 + d2 / 4;
    assert b == [x, y];
    assert y % 16 * 4 == d2;
    assert [Digit(d0), Digit(d1), Digit(d2), '='] == s;
  }

  /** A last quantum of two digits and two pads. */
  lemma FinalTwoPads(s: string)
    requires |s| == 4 && DecodeFinal(s).Some? && !IsDigit(s[2])
    ensures Encode(DecodeFinal(s).value) == s
  {
    var b := DecodeFinal(s).value;
    var d0, d1 := Value(s[0]), Value(s[1]);
    DigitOfValue(s[0]);
    DigitOfValue(s[1]);
    GroupDigits(d0, d1, 0, 0);
    var x := d0 * 4 + d1 / 16;
    assert b == [x];
    assert x % 4 * 16 == d1;
    assert [Digit(d0), Digit(d1), '=', '='] == s;
  }

  /** Splitting a decoded group into 6-bit values gives back the digits' values. */
  lemma GroupDigits(d0: int, d1: int, d2: int, d3: int)
    requires 0 <= d0 < 64 && 0 <= d1 < 64 && 0 <= d2 < 64 && 0 <= d3 < 64
    ensures var g := DecodeGroup(d0, d1, d2, d3);
            && g[0] / 4 == d0 && g[0] % 4 * 16 + g[1] / 16 == d1
            && g[1] % 16 * 4 + g[2] / 64 == d2 && g[2] % 64 == d3
  {
  }
}
