/** Subsequences, reorderings and filtering of sequences. */
module Sequences {

  /** The elements of `a` stand in `b` in the same order, with others in between. */
  ghost predicate Subsequence<T>(a: seq<T>, b: seq<T>)
    decreases b
  {
    a == [] || (b != [] && ((a[0] == b[0] && Subsequence(a[1..], b[1..])) || Subsequence(a, b[1..])))
  }

  lemma {:induction false} SubsequenceReflexive<T>(a: seq<T>)
    ensures Subsequence(a, a)
  {
    if a != [] { SubsequenceReflexive(a[1..]); }
  }

  lemma {:induction false} SubsequenceConcat<T>(a: seq<T>, b: seq<T>, c: seq<T>, d: seq<T>)
    requires Subsequence(a, b) && Subsequence(c, d)
    ensures Subsequence(a + c, b + d)
    decreases b
  {
    if b == [] {
      assert a + c == c && b + d == d;
    } else {
      assert (b + d)[1..] == b[1..] + d;
      if a == [] {
        SubsequenceConcat([], b[1..], c, d);
      } else if a[0] == b[0] && Subsequence(a[1..], b[1..]) {
        SubsequenceConcat(a[1..], b[1..], c, d);
        assert (a + c)[1..] == a[1..] + c;
      } else {
        SubsequenceConcat(a, b[1..], c, d);
      }
    }
  }

  lemma SubsequencePadded<T>(a: seq<T>, pad: seq<T>, b: seq<T>)
    requires Subsequence(a, b)
    ensures Subsequence(a, pad + b)
  {
    SubsequenceConcat([], pad, a, b);
    assert [] + a == a;
  }

  // ---------- order ----------

  ghost predicate Ordered<T>(s: seq<T>, atMost: (T, T) -> bool) {
    forall i, j :: 0 <= i < j < |s| ==> atMost(s[i], s[j])
  }

  // ---------- reorderings ----------

  lemma LastApart<T>(a: seq<T>)
    requires a != []
    ensures multiset(a) == multiset(a[..|a| - 1]) + multiset{a[|a| - 1]}
  {
    assert a == a[..|a| - 1] + [a[|a| - 1]];
  }

  lemma OneInside<T>(u: seq<T>, x: T, v: seq<T>)
    ensures multiset(u + ([x] + v)) == multiset(u + v) + multiset{x}
  {
  }

  /** In a reordering of `a`, its last element stands somewhere, and the others are a reordering of
      the rest of `a`. */
  lemma LastStandsSomewhere<T>(a: seq<T>, b: seq<T>) returns (u: seq<T>, v: seq<T>)
    requires a != [] && multiset(a) == multiset(b)
    ensures b == u + ([a[|a| - 1]] + v)
    ensures multiset(u + v) == multiset(a[..|a| - 1])
  {
    var x := a[|a| - 1];
    LastApart(a);
    assert x in multiset(b);
    var j :| 0 <= j < |b| && b[j] == x;
    u, v := b[..j], b[j + 1..];
    assert b == u + ([x] + v);
    OneInside(u, x, v);
    assert multiset(u + v) == multiset(b) - multiset{x};
    assert multiset(a[..|a| - 1]) == multiset(a) - multiset{x};
  }

  lemma OnlyEmptyReordersEmpty<T>(b: seq<T>)
    requires multiset(b) == multiset{}
    ensures b == []
  {
    assert |multiset(b)| == |b|;
  }

  // ---------- filtering ----------

  /** The elements that satisfy `p`, in order. */
  function Filter<T>(s: seq<T>, p: T -> bool): seq<T> {
    if s == [] then [] else Filter(s[..|s| - 1], p) + if p(s[|s| - 1]) then [s[|s| - 1]] else []
  }

  lemma FilterAppend<T>(s: seq<T>, x: T, p: T -> bool)
    ensures Filter(s + [x], p) == if p(x) then Filter(s, p) + [x] else Filter(s, p)
  {
    assert (s + [x])[..|s|] == s;
  }

  /** One more element of `s`, as a loop meets it. */
  lemma FilterNext<T>(s: seq<T>, i: nat, p: T -> bool)
    requires i < |s|
    ensures Filter(s[..i + 1], p) == if p(s[i]) then Filter(s[..i], p) + [s[i]] else Filter(s[..i], p)
  {
    assert s[..i + 1] == s[..i] + [s[i]];
    FilterAppend(s[..i], s[i], p);
  }

  lemma {:induction false} FilterConcat<T>(a: seq<T>, b: seq<T>, p: T -> bool)
    ensures Filter(a + b, p) == Filter(a, p) + Filter(b, p)
  {
    if b == [] {
      assert a + b == a;
    } else {
      FilterConcat(a, b[..|b| - 1], p);
      assert (a + b)[..|a + b| - 1] == a + b[..|b| - 1];
    }
  }

  lemma {:induction false} FilterIsSubsequence<T>(s: seq<T>, p: T -> bool)
    ensures Subsequence(Filter(s, p), s)
  {
    if s != [] {
      var n := |s| - 1;
      FilterIsSubsequence(s[..n], p);
      var last := if p(s[n]) then [s[n]] else [];
      assert s == s[..n] + [s[n]];
      SubsequenceConcat(Filter(s[..n], p), s[..n], last, [s[n]]);
    }
  }

  lemma {:induction false} FilterMembers<T>(s: seq<T>, p: T -> bool, x: T)
    ensures x in Filter(s, p) <==> x in s && p(x)
  {
    if s != [] {
      var n := |s| - 1;
      FilterMembers(s[..n], p, x);
      assert s == s[..n] + [s[n]];
    }
  }

  lemma CountAppend<T>(s: seq<T>, x: T, y: T)
    ensures multiset(s + [x])[y] == multiset(s)[y] + if x == y then 1 else 0
  {
  }

  /** Filtering keeps each element as often as it occurs, or drops it altogether. */
  lemma {:induction false} FilterCounts<T>(s: seq<T>, p: T -> bool, x: T)
    ensures multiset(Filter(s, p))[x] == if p(x) then multiset(s)[x] else 0
  {
    if s != [] {
      var init, last := s[..|s| - 1], s[|s| - 1];
      assert s == init + [last];
      FilterCounts(init, p, x);
      FilterAppend(init, last, p);
      CountAppend(init, last, x);
      CountAppend(Filter(init, p), last, x);
    }
  }
}
