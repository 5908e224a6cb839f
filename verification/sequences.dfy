/** Order-preserving filtering and first-occurrence deduplication over sequences. */
module Sequences {

  /** `a` is `b` with some elements deleted, the rest kept in order. */
  predicate IsSubsequence<T(==)>(a: seq<T>, b: seq<T>)
    decreases |b|
  {
    if |a| == 0 then true
    else if |b| == 0 then false
    else (a[0] == b[0] && IsSubsequence(a[1..], b[1..])) || IsSubsequence(a, b[1..])
  }

  /** No value occurs twice in `s`. */
  predicate NoDuplicates<T(==)>(s: seq<T>) {
    forall i, j :: 0 <= i < j < |s| ==> s[i] != s[j]
  }

  /** The elements of `s` satisfying `p`, in their order in `s`
      (a list comprehension with an `if` clause). */
  function Filter<T(==)>(p: T -> bool, s: seq<T>): (r: seq<T>)
    ensures forall k :: 0 <= k < |r| ==> p(r[k])
    ensures forall k :: 0 <= k < |r| ==> r[k] in s
    ensures forall k :: 0 <= k < |s| && p(s[k]) ==> s[k] in r
    ensures IsSubsequence(r, s)
    decreases |s|
  {
    if |s| == 0 then []
    else if p(s[0]) then [s[0]] + Filter(p, s[1..])
    else Filter(p, s[1..])
  }

  /** What holds of every element of `s` holds of every element `Filter` keeps. */
  lemma {:induction false} FilterPreserves<T>(p: T -> bool, q: T -> bool, s: seq<T>)
    requires forall k :: 0 <= k < |s| ==> q(s[k])
    ensures forall k :: 0 <= k < |Filter(p, s)| ==> q(Filter(p, s)[k])
    decreases |s|
  {
    if |s| > 0 {
      FilterPreserves(p, q, s[1..]);
    }
  }

  /** Filtering distributes over concatenation. */
  lemma {:induction false} FilterAppend<T>(p: T -> bool, a: seq<T>, b: seq<T>)
    ensures Filter(p, a + b) == Filter(p, a) + Filter(p, b)
    decreases |a|
  {
    if |a| > 0 {
      ConsAppend(a, b);
      FilterAppend(p, a[1..], b);
      if p(a[0]) {
        AppendAssoc([a[0]], Filter(p, a[1..]), Filter(p, b));
      }
    } else {
      assert a + b == b;
    }
  }

  /** Filtering keeps a sequence whose elements all pass. */
  lemma {:induction false} FilterAll<T>(p: T -> bool, s: seq<T>)
    requires forall k :: 0 <= k < |s| ==> p(s[k])
    ensures Filter(p, s) == s
    decreases |s|
  {
    if |s| > 0 {
      FilterAll(p, s[1..]);
      assert [s[0]] + s[1..] == s;
    }
  }

  /** `Filter` keeps every occurrence of a passing value and none of a failing one. */
  lemma {:induction false} FilterCount<T>(p: T -> bool, s: seq<T>, x: T)
    ensures multiset(Filter(p, s))[x] == if p(x) then multiset(s)[x] else 0
    decreases |s|
  {
    if |s| > 0 {
      FilterCount(p, s[1..], x);
      assert s == [s[0]] + s[1..];
      assert multiset(s) == multiset([s[0]]) + multiset(s[1..]);
    }
  }

  /** The head and tail of a concatenation with a non-empty front. */
  lemma ConsAppend<T>(a: seq<T>, b: seq<T>)
    requires |a| > 0
    ensures (a + b)[0] == a[0] && (a + b)[1..] == a[1..] + b
  {
  }

  /** Concatenation is associative. */
  lemma AppendAssoc<T>(a: seq<T>, b: seq<T>, c: seq<T>)
    ensures (a + b) + c == a + (b + c)
  {
  }

  /** The head and tail of a concatenation whose first part is non-empty. */
  lemma ConsTail<T>(a: seq<T>, b: seq<T>)
    requires |a| > 0
    ensures (a + b)[0] == a[0] && (a + b)[1..] == a[1..] + b
  {
  }

  /** The index of the first occurrence of `x` in `s`. */
  function FirstIndex<T(==)>(s: seq<T>, x: T): (i: nat)
    requires x in s
    ensures i < |s| && s[i] == x && x !in s[..i]
    decreases |s|
  {
    if s[0] == x then 0
    else
      var i := FirstIndex(s[1..], x);
      assert s[..i + 1] == [s[0]] + s[1..][..i];
      i + 1
  }

  /** The values of `s` that are not in `seen`, each kept at its first occurrence only:
      the effect of scanning `s` with a `seen` set. */
  function Distinct<T(==)>(s: seq<T>, seen: set<T>): (r: seq<T>)
    ensures NoDuplicates(r)
    ensures forall k :: 0 <= k < |r| ==> r[k] in s && r[k] !in seen
    ensures forall k :: 0 <= k < |s| && s[k] !in seen ==> s[k] in r
    ensures IsSubsequence(r, s)
    decreases |s|
  {
    if |s| == 0 then []
    else if s[0] in seen then Distinct(s[1..], seen)
    else [s[0]] + Distinct(s[1..], seen + {s[0]})
  }

  /** `a` is strictly ordered by the first indices of its elements in `s`. */
  ghost predicate OrderedByFirstIndex<T>(a: seq<T>, s: seq<T>)
    requires forall k :: 0 <= k < |a| ==> a[k] in s
  {
    forall i, j :: 0 <= i < j < |a| ==> FirstIndex(s, a[i]) < FirstIndex(s, a[j])
  }

  /** `Distinct` lists its values in the order of their first occurrences in `s`. */
  lemma {:induction false} DistinctFirstOccurrenceOrder<T>(s: seq<T>, seen: set<T>)
    ensures OrderedByFirstIndex(Distinct(s, seen), s)
    decreases |s|
  {
    if |s| > 0 {
      var seen' := if s[0] in seen then seen else seen + {s[0]};
      var t := Distinct(s[1..], seen');
      DistinctFirstOccurrenceOrder(s[1..], seen');
      assert forall k :: 0 <= k < |t| ==> t[k] != s[0] by {
        assert s[0] in seen';
      }
      OrderedShift(s, t);
      assert Distinct(s, seen) == if s[0] in seen then t else [s[0]] + t;
    }
  }

  /** A list ordered by first index in the tail of `s`, avoiding the head of `s`, stays ordered in
      `s`, also with that head put in front. */
  lemma OrderedShift<T>(s: seq<T>, t: seq<T>)
    requires |s| > 0
    requires forall k :: 0 <= k < |t| ==> t[k] in s[1..] && t[k] != s[0]
    requires OrderedByFirstIndex(t, s[1..])
    ensures forall k :: 0 <= k < |t| ==> t[k] in s
    ensures OrderedByFirstIndex(t, s)
    ensures forall k :: 0 <= k < |[s[0]] + t| ==> ([s[0]] + t)[k] in s
    ensures OrderedByFirstIndex([s[0]] + t, s)
  {
    forall k | 0 <= k < |t|
      ensures t[k] in s && FirstIndex(s, t[k]) == FirstIndex(s[1..], t[k]) + 1
    {
      FirstIndexTail(s, t[k]);
    }
    var u := [s[0]] + t;
    assert FirstIndex(s, s[0]) == 0;
    forall i, j | 0 <= i < j < |u|
      ensures FirstIndex(s, u[i]) < FirstIndex(s, u[j])
    {
      assert u[j] == t[j - 1];
      if i > 0 {
        assert u[i] == t[i - 1];
      }
    }
  }

  /** Past a different head, the first index is one more than in the tail. */
  lemma FirstIndexTail<T>(s: seq<T>, x: T)
    requires |s| > 0 && x in s[1..] && x != s[0]
    ensures FirstIndex(s, x) == FirstIndex(s[1..], x) + 1
  {
  }

  /** Two lists holding the same values of `s`, each ordered by first index in `s`, are equal. */
  lemma {:induction false} OrderedByFirstIndexUnique<T>(a: seq<T>, b: seq<T>, s: seq<T>)
    requires forall k :: 0 <= k < |a| ==> a[k] in s
    requires forall k :: 0 <= k < |b| ==> b[k] in s
    requires forall k :: 0 <= k < |a| ==> a[k] in b
    requires forall k :: 0 <= k < |b| ==> b[k] in a
    requires OrderedByFirstIndex(a, s) && OrderedByFirstIndex(b, s)
    ensures a == b
    decreases |a|
  {
    if |a| == 0 {
      assert |b| == 0;
    } else {
      assert |b| > 0 by { assert a[0] in b; }
      HeadFirst(a, s, b[0]);
      HeadFirst(b, s, a[0]);
      OrderedTail(a, s);
      OrderedTail(b, s);
      TailMembers(a, b, s);
      TailMembers(b, a, s);
      OrderedByFirstIndexUnique(a[1..], b[1..], s);
      assert a == [a[0]] + a[1..] && b == [b[0]] + b[1..];
    }
  }

  /** Every other value of an ordered list comes strictly later in `s` than its head. */
  lemma HeadFirst<T>(a: seq<T>, s: seq<T>, x: T)
    requires forall k :: 0 <= k < |a| ==> a[k] in s
    requires OrderedByFirstIndex(a, s)
    requires x in a
    ensures x == a[0] || FirstIndex(s, a[0]) < FirstIndex(s, x)
  {
    var j :| 0 <= j < |a| && a[j] == x;
    if j > 0 {
      assert FirstIndex(s, a[0]) < FirstIndex(s, a[j]);
    }
  }

  /** The tail of an ordered list is ordered. */
  lemma OrderedTail<T>(a: seq<T>, s: seq<T>)
    requires |a| > 0
    requires forall k :: 0 <= k < |a| ==> a[k] in s
    requires OrderedByFirstIndex(a, s)
    ensures forall k :: 0 <= k < |a[1..]| ==> a[1..][k] in s
    ensures OrderedByFirstIndex(a[1..], s)
  {
    assert forall k :: 0 <= k < |a[1..]| ==> a[1..][k] == a[k + 1];
  }

  /** Values after the shared head of `a` are values after the head of `b`. */
  lemma TailMembers<T>(a: seq<T>, b: seq<T>, s: seq<T>)
    requires |a| > 0 && |b| > 0 && a[0] == b[0]
    requires forall k :: 0 <= k < |a| ==> a[k] in s
    requires forall k :: 0 <= k < |a| ==> a[k] in b
    requires OrderedByFirstIndex(a, s)
    ensures forall k :: 0 <= k < |a[1..]| ==> a[1..][k] in b[1..]
  {
    forall k | 0 <= k < |a[1..]|
      ensures a[1..][k] in b[1..]
    {
      var x := a[k + 1];
      assert a[1..][k] == x;
      assert FirstIndex(s, a[0]) < FirstIndex(s, a[k + 1]);
      var m :| 0 <= m < |b| && b[m] == x;
      assert m != 0;
      assert b[1..][m - 1] == b[m];
    }
  }
}
