/**
  The Python `str` operations the script relies on, over `string` (a sequence of Unicode scalar
  values). Whitespace and line boundaries are fixed to the sets CPython uses: `IsSpace` is the set
  of `str.isspace()` (what `str.strip()` removes and what `\s` matches in a `str` regular
  expression), and `IsLineBreak` is the set of boundaries `str.splitlines()` splits at.
 */
module PyStr {

  /** CPython's whitespace: `\t \n \v \f \r`, `\x1c`-`\x1f`, space, NEL, NBSP, OGHAM SPACE MARK,
      U+2000-U+200A, LINE and PARAGRAPH SEPARATOR, NNBSP, MMSP and IDEOGRAPHIC SPACE. */
  predicate IsSpace(c: char) {
    || ('\t' <= c <= '\r')
    || ('\U{1C}' <= c <= ' ')
    || c == '\U{85}' || c == '\U{A0}' || c == '\U{1680}'
    || ('\U{2000}' <= c <= '\U{200A}')
    || c == '\U{2028}' || c == '\U{2029}' || c == '\U{202F}' || c == '\U{205F}' || c == '\U{3000}'
  }

  /** The boundaries of `str.splitlines()`: `\n \v \f \r`, `\x1c`-`\x1e`, NEL, LINE and
      PARAGRAPH SEPARATOR (and `\r\n` as one boundary, handled by `SplitLines`). */
  predicate IsLineBreak(c: char) {
    || ('\n' <= c <= '\r')
    || ('\U{1C}' <= c <= '\U{1E}')
    || c == '\U{85}' || c == '\U{2028}' || c == '\U{2029}'
  }

  /** Neither end of `s` is whitespace. */
  predicate IsTrimmed(s: string) {
    s == [] || (!IsSpace(s[0]) && !IsSpace(s[|s| - 1]))
  }

  /** `s.lstrip()`: the longest suffix of `s` that does not start with whitespace. */
  function StripLeft(s: string): (r: string)
    ensures |r| <= |s| && r == s[|s| - |r|..]
    ensures forall k :: 0 <= k < |s| - |r| ==> IsSpace(s[k])
    ensures r == [] || !IsSpace(r[0])
    decreases |s|
  {
    if |s| > 0 && IsSpace(s[0]) then StripLeft(s[1..]) else s
  }

  /** `s.rstrip()`: the longest prefix of `s` that does not end with whitespace. */
  function StripRight(s: string): (r: string)
    ensures |r| <= |s| && r == s[..|r|]
    ensures forall k :: |r| <= k < |s| ==> IsSpace(s[k])
    ensures r == [] || !IsSpace(r[|r| - 1])
    decreases |s|
  {
    if |s| > 0 && IsSpace(s[|s| - 1]) then StripRight(s[..|s| - 1]) else s
  }

  /** `s.strip()` */
  function Strip(s: string): (r: string)
    ensures IsTrimmed(r)
    ensures |r| <= |s|
  {
    StripRight(StripLeft(s))
  }

  /** `Strip` cuts a slice out of `s` and everything it cuts away is whitespace. */
  lemma StripSlice(s: string) returns (i: nat, j: nat)
    ensures i <= j <= |s| && Strip(s) == s[i..j]
    ensures forall k :: 0 <= k < i ==> IsSpace(s[k])
    ensures forall k :: j <= k < |s| ==> IsSpace(s[k])
  {
    var l := StripLeft(s);
    i := |s| - |l|;
    j := i + |Strip(s)|;
    assert l == s[i..];
    assert Strip(s) == l[..|Strip(s)|];
    forall k | j <= k < |s|
      ensures IsSpace(s[k])
    {
      assert s[k] == l[k - i];
    }
  }

  /** `[ln.strip() for ln in lines]` */
  function StripAll(lines: seq<string>): (r: seq<string>)
    ensures |r| == |lines|
    ensures forall k :: 0 <= k < |lines| ==> r[k] == Strip(lines[k])
    decreases |lines|
  {
    if |lines| == 0 then [] else [Strip(lines[0])] + StripAll(lines[1..])
  }

  /** Every character `Strip` keeps comes from its input. */
  lemma StripChars(s: string, c: char)
    requires c in Strip(s)
    ensures c in s
  {
    var i, j := StripSlice(s);
    var t := s[i..j];
    assert c in t;
    var k :| 0 <= k < |t| && t[k] == c;
    assert s[i + k] == t[k];
  }

  /** `Strip` never introduces a character its input lacks. */
  lemma StripKeepsAbsent(s: string, c: char)
    requires c !in s
    ensures c !in Strip(s)
  {
    if c in Strip(s) {
      StripChars(s, c);
    }
  }

  /** `s.strip() == s` exactly when `s` is already trimmed. */
  lemma StripFixpoint(s: string)
    ensures Strip(s) == s <==> IsTrimmed(s)
  {
    if IsTrimmed(s) {
      assert StripLeft(s) == s;
      assert StripRight(s) == s;
    }
  }

  /** `s.startswith(p)`: a literal, case-sensitive prefix test. */
  predicate StartsWith(s: string, p: string) {
    |p| <= |s| && s[..|p|] == p
  }

  /** `p` occurs in `s` starting at index `i`. */
  predicate OccursAt(s: string, p: string, i: int) {
    0 <= i && i + |p| <= |s| && s[i..i + |p|] == p
  }

  /** `p in s` on strings: a substring test, scanning `s` from the left. */
  predicate Contains(s: string, p: string)
    decreases |s|
  {
    StartsWith(s, p) || (|s| > 0 && Contains(s[1..], p))
  }

  /** The scan of `Contains` finds `p` exactly when `p` occurs at some index of `s`. */
  lemma {:induction false} ContainsIffOccurs(s: string, p: string)
    ensures Contains(s, p) <==> exists i :: OccursAt(s, p, i)
    decreases |s|
  {
    OccursAtStart(s, p);
    if StartsWith(s, p) {
      assert OccursAt(s, p, 0);
    } else if |s| > 0 {
      ContainsIffOccurs(s[1..], p);
      if Contains(s[1..], p) {
        var i :| OccursAt(s[1..], p, i);
        OccursShift(s, p, i + 1);
      } else {
        forall i | 1 <= i
          ensures !OccursAt(s, p, i)
        {
          OccursShift(s, p, i);
        }
      }
    }
  }

  /** An occurrence at index 0 is a prefix. */
  lemma OccursAtStart(s: string, p: string)
    ensures OccursAt(s, p, 0) <==> StartsWith(s, p)
    ensures |s| == 0 ==> forall i :: 1 <= i ==> !OccursAt(s, p, i)
  {
  }

  /** An occurrence past index 0 is an occurrence in the tail, one index earlier. */
  lemma OccursShift(s: string, p: string, i: int)
    requires |s| > 0 && 1 <= i
    ensures OccursAt(s, p, i) <==> OccursAt(s[1..], p, i - 1)
  {
    if i + |p| <= |s| {
      assert s[i..i + |p|] == s[1..][i - 1..i - 1 + |p|];
    }
  }

  /** `s.replace(a, b)` for single characters. */
  function ReplaceChar(s: string, a: char, b: char): (r: string)
    ensures |r| == |s|
    ensures forall k :: 0 <= k < |s| ==> r[k] == (if s[k] == a then b else s[k])
    decreases |s|
  {
    if |s| == 0 then ""
    else [if s[0] == a then b else s[0]] + ReplaceChar(s[1..], a, b)
  }

  /** Replacing a character that does not occur changes nothing. */
  lemma ReplaceAbsent(s: string, a: char, b: char)
    requires a !in s
    ensures ReplaceChar(s, a, b) == s
  {
  }

  /** After replacing `a` by another character, `a` no longer occurs. */
  lemma ReplaceRemoves(s: string, a: char, b: char)
    requires a != b
    ensures a !in ReplaceChar(s, a, b)
  {
    var r := ReplaceChar(s, a, b);
    forall k | 0 <= k < |r|
      ensures r[k] != a
    {
    }
  }

  /** `s.split(sep)` for a one-character separator: the pieces between separators. */
  function Split(s: string, sep: char): (r: seq<string>)
    ensures |r| >= 1
    ensures forall k :: 0 <= k < |r| ==> sep !in r[k]
    ensures forall k, i :: 0 <= k < |r| && 0 <= i < |r[k]| ==> r[k][i] in s
    decreases |s|
  {
    if |s| == 0 then [""]
    else
      var t := Split(s[1..], sep);
      if s[0] == sep then [""] + t
      else
        assert forall k, i :: 1 <= k < |t| && 0 <= i < |t[k]| ==> t[k][i] in s;
        [[s[0]] + t[0]] + t[1..]
  }

  /** `sep.join(parts)` */
  function Join(parts: seq<string>, sep: string): string
    decreases |parts|
  {
    if |parts| == 0 then ""
    else if |parts| == 1 then parts[0]
    else parts[0] + sep + Join(parts[1..], sep)
  }

  /** A join of non-empty parts starts with the first part's first character and ends with the
      last part's last character. */
  lemma {:induction false} JoinEnds(parts: seq<string>, sep: string)
    requires |parts| >= 1 && forall k :: 0 <= k < |parts| ==> parts[k] != []
    ensures var j := Join(parts, sep);
            |j| > 0 && j[0] == parts[0][0] && j[|j| - 1] == parts[|parts| - 1][|parts[|parts| - 1]| - 1]
    decreases |parts|
  {
    if |parts| > 1 {
      JoinEnds(parts[1..], sep);
    }
  }

  /** Every character of `s` other than the separator lies in some piece of the split. */
  lemma {:induction false} SplitCovers(s: string, sep: char, k: int)
    requires 0 <= k < |s| && s[k] != sep
    ensures exists j :: 0 <= j < |Split(s, sep)| && s[k] in Split(s, sep)[j]
    decreases |s|
  {
    SplitFront(s, sep);
    if k == 0 {
      assert s[0] in Split(s, sep)[0];
    } else {
      SplitCovers(s[1..], sep, k - 1);
      var j :| 0 <= j < |Split(s[1..], sep)| && s[1..][k - 1] in Split(s[1..], sep)[j];
      SplitCoversStep(s, sep, k, j);
    }
  }

  /** The step of `SplitCovers`: a character found in a piece of the tail's split. */
  lemma SplitCoversStep(s: string, sep: char, k: int, j: int)
    requires 1 <= k < |s| && 0 <= j < |Split(s[1..], sep)| && s[k] in Split(s[1..], sep)[j]
    ensures exists j' :: 0 <= j' < |Split(s, sep)| && s[k] in Split(s, sep)[j']
  {
    var t := Split(s[1..], sep);
    SplitFront(s, sep);
    if s[0] == sep {
      assert Split(s, sep)[j + 1] == t[j];
    } else if j == 0 {
      assert Split(s, sep)[0] == [s[0]] + t[0];
    } else {
      assert Split(s, sep)[j] == t[j];
    }
  }

  /** A character other than the separator that no piece holds does not occur in `s`. */
  lemma SplitAbsent(s: string, sep: char, c: char)
    requires c != sep
    requires forall j :: 0 <= j < |Split(s, sep)| ==> c !in Split(s, sep)[j]
    ensures c !in s
  {
    forall k | 0 <= k < |s| && s[k] != sep
      ensures s[k] != c
    {
      SplitCovers(s, sep, k);
    }
  }

  /** A character absent from `s` is absent from every piece of its split. */
  lemma SplitKeepsAbsent(s: string, sep: char, c: char)
    requires c !in s
    ensures forall j :: 0 <= j < |Split(s, sep)| ==> c !in Split(s, sep)[j]
  {
    var r := Split(s, sep);
    forall j, i | 0 <= j < |r| && 0 <= i < |r[j]|
      ensures r[j][i] != c
    {
      assert r[j][i] in s;
    }
  }

  /** Stripping pieces that lack a character gives lines that lack it. */
  lemma StripAllKeepsAbsent(parts: seq<string>, c: char)
    requires forall j :: 0 <= j < |parts| ==> c !in parts[j]
    ensures forall j :: 0 <= j < |StripAll(parts)| ==> c !in StripAll(parts)[j]
  {
    forall j | 0 <= j < |parts|
      ensures c !in StripAll(parts)[j]
    {
      StripKeepsAbsent(parts[j], c);
    }
  }

  /** Joining the pieces of a split with the separator gives back the string. */
  lemma {:induction false} JoinSplit(s: string, sep: char)
    ensures Join(Split(s, sep), [sep]) == s
    decreases |s|
  {
    if |s| > 0 {
      JoinSplit(s[1..], sep);
      JoinSplitStep(s, sep, Split(s[1..], sep));
    }
  }

  /** The step of `JoinSplit`: one more character in front. */
  lemma JoinSplitStep(s: string, sep: char, t: seq<string>)
    requires |s| > 0 && t == Split(s[1..], sep) && Join(t, [sep]) == s[1..]
    ensures Join(Split(s, sep), [sep]) == s
  {
    SplitFront(s, sep);
    if s[0] == sep {
      JoinFront("", t, [sep]);
    } else {
      JoinGlue(s[0], t, [sep]);
    }
    assert [s[0]] + s[1..] == s;
  }

  /** One step of `Split`. */
  lemma SplitFront(s: string, sep: char)
    requires |s| > 0
    ensures s[0] == sep ==> Split(s, sep) == [""] + Split(s[1..], sep)
    ensures s[0] != sep ==> Split(s, sep) == [[s[0]] + Split(s[1..], sep)[0]] + Split(s[1..], sep)[1..]
  {
  }

  /** Joining a part in front of at least one more part. */
  lemma JoinFront(x: string, rest: seq<string>, sep: string)
    requires |rest| >= 1
    ensures Join([x] + rest, sep) == x + sep + Join(rest, sep)
  {
    assert ([x] + rest)[0] == x && ([x] + rest)[1..] == rest;
  }

  /** Putting a character in front of the first part puts it in front of the join. */
  lemma JoinGlue(c: char, parts: seq<string>, sep: string)
    requires |parts| >= 1
    ensures Join([[c] + parts[0]] + parts[1..], sep) == [c] + Join(parts, sep)
  {
    var r := [[c] + parts[0]] + parts[1..];
    if |parts| > 1 {
      assert r[0] == [c] + parts[0] && r[1..] == parts[1..];
      assert Join(parts, sep) == parts[0] + sep + Join(parts[1..], sep);
      assert ([c] + parts[0]) + sep + Join(parts[1..], sep) == [c] + (parts[0] + sep + Join(parts[1..], sep));
    }
  }

  /** Splitting `a + t` where `a` holds no separator glues `a` onto the first piece of `t`. */
  lemma {:induction false} SplitPrefix(a: string, t: string, sep: char)
    requires sep !in a
    ensures Split(a + t, sep) == [a + Split(t, sep)[0]] + Split(t, sep)[1..]
    decreases |a|
  {
    var u := Split(t, sep);
    if |a| > 0 {
      HeadTail(a, t);
      SplitPrefix(a[1..], t, sep);
      var v := Split(a[1..] + t, sep);
      assert Split(a + t, sep) == [[a[0]] + v[0]] + v[1..];
      HeadTail(a, u[0]);
    } else {
      assert a + t == t;
      assert a + u[0] == u[0];
      assert [u[0]] + u[1..] == u;
    }
  }

  /** A concatenation with a non-empty front, taken apart at its first character. */
  lemma HeadTail(a: string, t: string)
    requires |a| > 0
    ensures (a + t)[0] == a[0] && (a + t)[1..] == a[1..] + t
    ensures [a[0]] + (a[1..] + t) == a + t
  {
  }

  /** Splitting the join of separator-free pieces gives back the pieces. */
  lemma {:induction false} SplitJoin(parts: seq<string>, sep: char)
    requires |parts| >= 1
    requires forall k :: 0 <= k < |parts| ==> sep !in parts[k]
    ensures Split(Join(parts, [sep]), sep) == parts
    decreases |parts|
  {
    if |parts| == 1 {
      SplitPrefix(parts[0], "", sep);
      assert parts[0] + "" == parts[0];
    } else {
      var rest := Join(parts[1..], [sep]);
      SplitJoin(parts[1..], sep);
      assert Join(parts, [sep]) == parts[0] + ([sep] + rest);
      SplitPrefix(parts[0], [sep] + rest, sep);
      assert ([sep] + rest)[0] == sep && ([sep] + rest)[1..] == rest;
      assert Split([sep] + rest, sep) == [""] + parts[1..];
      assert parts[0] + "" == parts[0];
      assert [parts[0]] + parts[1..] == parts;
    }
  }

  /** `s.splitlines()`: the lines of `s` without their boundaries; `\r\n` is one boundary and a
      final boundary does not open an empty last line. */
  function SplitLines(s: string): (r: seq<string>)
    ensures s == [] <==> r == []
    ensures forall k, i :: 0 <= k < |r| && 0 <= i < |r[k]| ==> !IsLineBreak(r[k][i])
    decreases |s|
  {
    if |s| == 0 then []
    else if IsLineBreak(s[0]) then
      var rest := if s[0] == '\r' && |s| > 1 && s[1] == '\n' then s[2..] else s[1..];
      [""] + SplitLines(rest)
    else
      var t := SplitLines(s[1..]);
      if |t| == 0 then [[s[0]]]
      else
        assert forall k, i :: 1 <= k < |t| && 0 <= i < |t[k]| ==> !IsLineBreak(t[k][i]);
        [[s[0]] + t[0]] + t[1..]
  }

  /** `splitlines` on `a + t`, where `a` holds no boundary, glues `a` onto the first line of `t`. */
  lemma {:induction false} SplitLinesPrefix(a: string, t: string)
    requires forall i :: 0 <= i < |a| ==> !IsLineBreak(a[i])
    ensures a == [] ==> SplitLines(a + t) == SplitLines(t)
    ensures a != [] && SplitLines(t) == [] ==> SplitLines(a + t) == [a]
    ensures a != [] && SplitLines(t) != [] ==>
              SplitLines(a + t) == [a + SplitLines(t)[0]] + SplitLines(t)[1..]
    decreases |a|
  {
    var u := SplitLines(t);
    if |a| == 0 {
      assert a + t == t;
    } else {
      assert (a + t)[0] == a[0] && (a + t)[1..] == a[1..] + t;
      SplitLinesPrefix(a[1..], t);
      var v := SplitLines(a[1..] + t);
      if |a| == 1 {
        assert a[1..] + t == t;
        assert a == [a[0]];
        if u != [] {
          assert [a[0]] + u[0] == a + u[0];
        }
      } else {
        assert v != [];
        if u == [] {
          assert v == [a[1..]];
          assert [a[0]] + a[1..] == a;
        } else {
          assert v[0] == a[1..] + u[0] && v[1..] == u[1..];
        }
        assert [a[0]] + v[0] == a + (if u == [] then [] else u[0]);
      }
    }
  }

  /** `splitlines` undoes a `"\n"`-join of boundary-free lines whose last line is non-empty. */
  lemma {:induction false} SplitLinesJoin(lines: seq<string>)
    requires |lines| >= 1 && lines[|lines| - 1] != ""
    requires forall k, i :: 0 <= k < |lines| && 0 <= i < |lines[k]| ==> !IsLineBreak(lines[k][i])
    ensures SplitLines(Join(lines, "\n")) == lines
    decreases |lines|
  {
    if |lines| == 1 {
      SplitLinesPrefix(lines[0], "");
      assert lines[0] + "" == lines[0];
    } else {
      SplitLinesJoin(lines[1..]);
      SplitLinesJoinStep(lines);
    }
  }

  /** The step of `SplitLinesJoin`: one more line in front. */
  lemma SplitLinesJoinStep(lines: seq<string>)
    requires |lines| > 1
    requires forall i :: 0 <= i < |lines[0]| ==> !IsLineBreak(lines[0][i])
    requires SplitLines(Join(lines[1..], "\n")) == lines[1..]
    ensures SplitLines(Join(lines, "\n")) == lines
  {
    JoinCons(lines, "\n");
    LineThenAnyBreak(lines[0], '\n', Join(lines[1..], "\n"));
    assert [lines[0]] + lines[1..] == lines;
  }

  /** A join of at least two parts: the first part, the separator, the join of the rest. */
  lemma JoinCons(parts: seq<string>, sep: string)
    requires |parts| > 1
    ensures Join(parts, sep) == parts[0] + (sep + Join(parts[1..], sep))
  {
  }

  /** A boundary-free line, one boundary character, then text: the line, then the lines of the
      text. A `\r` counts here only when no `\n` follows it (otherwise see `LineThenCrLf`). */
  lemma LineThenAnyBreak(a: string, c: char, rest: string)
    requires forall i :: 0 <= i < |a| ==> !IsLineBreak(a[i])
    requires IsLineBreak(c) && !(c == '\r' && |rest| > 0 && rest[0] == '\n')
    ensures SplitLines(a + ([c] + rest)) == [a] + SplitLines(rest)
  {
    BreakOpensLine(c, rest);
    SplitLinesPrefix(a, [c] + rest);
    assert a + "" == a;
  }

  /** A boundary-free line, `\r\n`, then text: `\r\n` is one boundary, not two. */
  lemma LineThenCrLf(a: string, rest: string)
    requires forall i :: 0 <= i < |a| ==> !IsLineBreak(a[i])
    ensures SplitLines(a + ("\r\n" + rest)) == [a] + SplitLines(rest)
  {
    CrLfOpensLine(rest);
    SplitLinesPrefix(a, "\r\n" + rest);
    assert a + "" == a;
  }

  /** A boundary character in front opens one empty line. */
  lemma BreakOpensLine(c: char, rest: string)
    requires IsLineBreak(c) && !(c == '\r' && |rest| > 0 && rest[0] == '\n')
    ensures SplitLines([c] + rest) == [""] + SplitLines(rest)
  {
    assert ([c] + rest)[0] == c && ([c] + rest)[1..] == rest;
  }

  /** `\r\n` in front opens one empty line. */
  lemma CrLfOpensLine(rest: string)
    ensures SplitLines("\r\n" + rest) == [""] + SplitLines(rest)
  {
    assert ("\r\n" + rest)[0] == '\r' && ("\r\n" + rest)[1] == '\n' && ("\r\n" + rest)[2..] == rest;
  }
}
