/** Sequence facts shared by the widgets' list operations. */
module Seqs {

  predicate Distinct<T(==)>(s: seq<T>) {
    forall i, j :: 0 <= i < j < |s| ==> s[i] != s[j]
  }

  /** `a` is `b` with some elements dropped, the rest in their order. */
  predicate IsSubsequence<T(==)>(a: seq<T>, b: seq<T>)
    decreases |b|
  {
    if a == [] then true
    else if b == [] then false
    else if a[0] == b[0] then IsSubsequence(a[1..], b[1..])
    else IsSubsequence(a, b[1..])
  }

  lemma {:induction false} SubsequenceMembers<T>(a: seq<T>, b: seq<T>)
    requires IsSubsequence(a, b)
    ensures forall x :: x in a ==> x in b
    decreases |b|
  {
    if a != [] && b != [] {
      if a[0] == b[0] {
        SubsequenceMembers(a[1..], b[1..]);
        assert forall x :: x in a ==> x == a[0] || x in a[1..];
      } else {
        SubsequenceMembers(a, b[1..]);
      }
    }
  }

  lemma {:induction false} SubsequenceDistinct<T>(a: seq<T>, b: seq<T>)
    requires IsSubsequence(a, b) && Distinct(b)
    ensures Distinct(a)
    decreases |b|
  {
    if a != [] && b != [] {
      assert Distinct(b[1..]) by {
        forall i, j | 0 <= i < j < |b| - 1 ensures b[1..][i] != b[1..][j] {
          assert b[1..][i] == b[i + 1] && b[1..][j] == b[j + 1];
        }
      }
      if a[0] == b[0] {
        SubsequenceDistinct(a[1..], b[1..]);
        SubsequenceMembers(a[1..], b[1..]);
        assert b[0] !in b[1..];
        forall i, j | 0 <= i < j < |a| ensures a[i] != a[j] {
          if i == 0 {
            assert a[j] == a[1..][j - 1];
            assert a[j] in a[1..];
          } else {
            assert a[i] == a[1..][i - 1] && a[j] == a[1..][j - 1];
          }
        }
      } else {
        SubsequenceDistinct(a, b[1..]);
      }
    }
  }

  lemma DistinctAppend<T>(a: seq<T>, b: seq<T>)
    requires Distinct(a) && Distinct(b)
    requires forall x :: x in a ==> x !in b
    ensures Distinct(a + b)
  {
    forall i, j | 0 <= i < j < |a + b| ensures (a + b)[i] != (a + b)[j] {
      if i < |a| && |a| <= j {
        assert (a + b)[i] == a[i] && (a + b)[j] == b[j - |a|];
        assert a[i] in a && b[j - |a|] in b;
      }
    }
  }

  /** A concatenation splits back into its two parts. */
  lemma SplitAt<T>(s: seq<T>, a: seq<T>, b: seq<T>)
    requires s == a + b
    ensures s[..|a|] == a && s[|a|..] == b
  {
  }

  /** `s.filter(p)` */
  function Filter<T>(s: seq<T>, p: T -> bool): seq<T> {
    if s == [] then []
    else if p(s[0]) then [s[0]] + Filter(s[1..], p)
    else Filter(s[1..], p)
  }

  /** `filter` keeps, in order, exactly the elements that pass. */
  lemma {:induction false} FilterMembers<T>(s: seq<T>, p: T -> bool)
    ensures IsSubsequence(Filter(s, p), s)
    ensures forall x :: x in Filter(s, p) <==> x in s && p(x)
  {
    if s != [] {
      var rest := Filter(s[1..], p);
      FilterMembers(s[1..], p);
      assert s == [s[0]] + s[1..];
      if p(s[0]) {
        assert ([s[0]] + rest)[1..] == rest;
      } else {
        SkipFirst(rest, s);
      }
    }
  }

  /** `filter` keeps each element that passes as often as it occurs. */
  lemma {:induction false} FilterCounts<T>(s: seq<T>, p: T -> bool)
    ensures forall x :: multiset(Filter(s, p))[x] == if p(x) then multiset(s)[x] else 0
  {
    if s != [] {
      FilterCounts(s[1..], p);
      assert s == [s[0]] + s[1..];
    }
  }

  /** Both of the above. */
  lemma FilterMeaning<T>(s: seq<T>, p: T -> bool)
    ensures IsSubsequence(Filter(s, p), s)
    ensures forall x :: x in Filter(s, p) <==> x in s && p(x)
    ensures forall x :: multiset(Filter(s, p))[x] == if p(x) then multiset(s)[x] else 0
  {
    FilterMembers(s, p);
    FilterCounts(s, p);
  }

  /** Dropping one more leading element of `b` keeps `a` a subsequence. */
  lemma {:induction false} SkipFirst<T>(a: seq<T>, b: seq<T>)
    requires b != [] && IsSubsequence(a, b[1..])
    ensures IsSubsequence(a, b)
    decreases |b|, 0
  {
    if a != [] && a[0] == b[0] {
      SubsequenceTail(a, b[1..]);
    }
  }

  /** Dropping the first element of `a` keeps it a subsequence. */
  lemma {:induction false} SubsequenceTail<T>(a: seq<T>, c: seq<T>)
    requires a != [] && IsSubsequence(a, c)
    ensures IsSubsequence(a[1..], c)
    decreases |c|, 1
  {
    if a[1..] != [] {
      if a[0] == c[0] {
        SkipFirst(a[1..], c);
      } else {
        SubsequenceTail(a, c[1..]);
        SkipFirst(a[1..], c);
      }
    }
  }

  /** When every element passes, `filter` returns the list itself. */
  lemma {:induction false} FilterKeepsAll<T>(s: seq<T>, p: T -> bool)
    requires forall i :: 0 <= i < |s| ==> p(s[i])
    ensures Filter(s, p) == s
  {
    if s != [] {
      FilterKeepsAll(s[1..], p);
      assert s == [s[0]] + s[1..];
    }
  }

  /** `filter` distributes over concatenation. */
  lemma {:induction false} FilterAppend<T>(a: seq<T>, b: seq<T>, p: T -> bool)
    ensures Filter(a + b, p) == Filter(a, p) + Filter(b, p)
  {
    if a != [] {
      var ab := a + b;
      assert ab[0] == a[0] && ab[1..] == a[1..] + b;
      FilterAppend(a[1..], b, p);
      if p(a[0]) {
        calc {
          Filter(ab, p);
          [a[0]] + Filter(a[1..] + b, p);
          [a[0]] + (Filter(a[1..], p) + Filter(b, p));
          ([a[0]] + Filter(a[1..], p)) + Filter(b, p);
        }
      }
    } else {
      assert a + b == b;
    }
  }

  /** Taking element `i` out and appending it keeps the same elements. */
  lemma RotateToEnd<T>(s: seq<T>, i: nat)
    requires i < |s|
    ensures multiset(s[..i] + s[i + 1..] + [s[i]]) == multiset(s)
  {
    assert s == s[..i] + [s[i]] + s[i + 1..];
  }

  /** Putting the head of `s` back in front of a permutation of its tail plus `x`
      gives a permutation of `s` plus `x`. */
  lemma ConsPermutes<T>(s: seq<T>, rest: seq<T>, x: T)
    requires s != [] && multiset(rest) == multiset(s[1..]) + multiset{x}
    ensures multiset([s[0]] + rest) == multiset(s) + multiset{x}
  {
    assert s == [s[0]] + s[1..];
  }

  /** Moving an element that `p` rejects to the end does not change what `filter` keeps. */
  lemma FilterRotate<T>(s: seq<T>, i: nat, p: T -> bool)
    requires i < |s| && !p(s[i])
    ensures Filter(s[..i] + s[i + 1..] + [s[i]], p) == Filter(s, p)
  {
    var before, x, after := s[..i], s[i], s[i + 1..];
    assert Filter(s, p) == Filter(before, p) + Filter(after, p) by {
      assert s == (before + [x]) + after;
      FilterRejected(x, p);
      FilterAppend(before + [x], after, p);
      FilterAppend(before, [x], p);
    }
    assert Filter((before + after) + [x], p) == Filter(before, p) + Filter(after, p) by {
      FilterRejected(x, p);
      FilterAppend(before + after, [x], p);
      FilterAppend(before, after, p);
    }
  }

  lemma FilterRejected<T>(x: T, p: T -> bool)
    requires !p(x)
    ensures Filter([x], p) == []
  {
    assert [x][1..] == [];
  }

  /** `Array.from(new Set(s))`: each element once, at its first occurrence. */
  function Dedup<T(==)>(s: seq<T>): seq<T> {
    if s == [] then []
    else
      var d := Dedup(s[..|s| - 1]);
      if s[|s| - 1] in d then d else d + [s[|s| - 1]]
  }

  /** `Dedup` keeps every element once and nothing else. */
  lemma {:induction false} DedupMembers<T>(s: seq<T>)
    ensures Distinct(Dedup(s))
    ensures forall x :: x in Dedup(s) <==> x in s
  {
    if s != [] {
      var p, x := s[..|s| - 1], s[|s| - 1];
      DedupMembers(p);
      assert s == p + [x];
      if x !in Dedup(p) {
        DistinctAppend(Dedup(p), [x]);
      }
    }
  }

  /** Of two elements of `Dedup(s)`, the earlier one occurs in `s` before
      any occurrence of the later one. */
  ghost predicate FirstOccurrenceOrder<T>(s: seq<T>, d: seq<T>) {
    forall i, j :: 0 <= i < j < |d| ==>
      exists k :: 0 <= k < |s| && s[k] == d[i] && d[j] !in s[..k]
  }

  lemma {:induction false} DedupFirstOccurrence<T>(s: seq<T>)
    ensures FirstOccurrenceOrder(s, Dedup(s))
  {
    if s != [] {
      var p, x := s[..|s| - 1], s[|s| - 1];
      assert s == p + [x];
      DedupFirstOccurrence(p);
      DedupAppendOrder(p, x);
    }
  }

  lemma DedupElementIn<T>(p: seq<T>, i: int)
    requires 0 <= i < |Dedup(p)|
    ensures Dedup(p)[i] in p
  {
    DedupMembers(p);
    assert Dedup(p)[i] in Dedup(p);
  }

  lemma DedupAppendOrder<T>(p: seq<T>, x: T)
    requires FirstOccurrenceOrder(p, Dedup(p))
    ensures FirstOccurrenceOrder(p + [x], Dedup(p + [x]))
  {
    var s := p + [x];
    assert s[..|s| - 1] == p;
    var dp := Dedup(p);
    var d := Dedup(s);
    assert d == if x in dp then dp else dp + [x];
    forall i, j | 0 <= i < j < |d|
      ensures exists k :: 0 <= k < |s| && s[k] == d[i] && d[j] !in s[..k]
    {
      assert d[i] == dp[i];
      if j < |dp| {
        assert d[j] == dp[j];
        DedupPairOrderKept(p, x, i, j);
      } else {
        assert d[j] == x && x !in dp;
        DedupPairOrderNew(p, x, i);
      }
    }
  }

  /** Two elements already in `Dedup(p)` keep their order once `x` is appended. */
  lemma DedupPairOrderKept<T>(p: seq<T>, x: T, i: int, j: int)
    requires FirstOccurrenceOrder(p, Dedup(p))
    requires 0 <= i < j < |Dedup(p)|
    ensures exists k :: 0 <= k < |p + [x]| && (p + [x])[k] == Dedup(p)[i] && Dedup(p)[j] !in (p + [x])[..k]
  {
    var s, dp := p + [x], Dedup(p);
    var k :| 0 <= k < |p| && p[k] == dp[i] && dp[j] !in p[..k];
    assert s[k] == p[k] && s[..k] == p[..k];
  }

  /** An element of `Dedup(p)` occurs in `p` before a new last element `x`. */
  lemma DedupPairOrderNew<T>(p: seq<T>, x: T, i: int)
    requires 0 <= i < |Dedup(p)| && x !in Dedup(p)
    ensures exists k :: 0 <= k < |p + [x]| && (p + [x])[k] == Dedup(p)[i] && x !in (p + [x])[..k]
  {
    var s, dp := p + [x], Dedup(p);
    DedupMembers(p);
    DedupElementIn(p, i);
    var k :| 0 <= k < |p| && p[k] == dp[i];
    assert s[k] == p[k] && s[..k] == p[..k];
    assert forall y :: y in p[..k] ==> y in p;
  }

  /** A list with no repeats is its own `Dedup`. */
  lemma {:induction false} DedupOfDistinct<T>(s: seq<T>)
    requires Distinct(s)
    ensures Dedup(s) == s
  {
    if s != [] {
      var p, x := s[..|s| - 1], s[|s| - 1];
      assert Distinct(p);
      DedupOfDistinct(p);
      assert x !in p;
      assert s == p + [x];
    }
  }

  /** A list with no repeats has as many distinct elements as entries. */
  lemma {:induction false} DistinctCardinality<T>(s: seq<T>)
    requires Distinct(s)
    ensures |set x | x in s| == |s|
  {
    if s != [] {
      var p, x := s[..|s| - 1], s[|s| - 1];
      assert Distinct(p);
      DistinctCardinality(p);
      assert s == p + [x];
      assert x !in p;
      assert (set y | y in s) == (set y | y in p) + {x};
    }
  }

  function Min(a: int, b: int): int {
    if a < b then a else b
  }

  /** `s.slice(start, end)` for non-negative bounds: each bound is clamped to
      the length, and a reversed range is empty. */
  function Slice<T>(s: seq<T>, start: nat, end: nat): (r: seq<T>)
    ensures |r| == if Min(end, |s|) <= Min(start, |s|) then 0 else Min(end, |s|) - Min(start, |s|)
    ensures forall i :: 0 <= i < |r| ==> r[i] == s[start + i]
  {
    var from, to := Min(start, |s|), Min(end, |s|);
    if to <= from then [] else s[from..to]
  }

  /** The position of the first `x` in `s`, or -1 when `s` has none. */
  function IndexOf<T(==)>(s: seq<T>, x: T): (i: int)
    ensures -1 <= i < |s|
    ensures i == -1 <==> x !in s
    ensures i >= 0 ==> s[i] == x && x !in s[..i]
  {
    if s == [] then -1
    else if s[0] == x then 0
    else
      var i := IndexOf(s[1..], x);
      assert s == [s[0]] + s[1..];
      if i == -1 then -1 else (assert s[..i + 1] == [s[0]] + s[1..][..i]; i + 1)
  }
}
