/** The 99th percentile of a load run: an insertion sort on a copy, and the element of that rank. */
module Latency {
  import opened Numbers
  import opened Sequences

  /** The elements up to `i` are ordered, but for a hole at `h`, and those after the hole exceed `key`. */
  ghost predicate OrderedAround(s: seq<int>, i: nat, h: nat, key: int) {
    && h <= i < |s|
    && (forall p, q :: 0 <= p < q <= i && p != h && q != h ==> s[p] <= s[q])
    && forall p :: h < p <= i ==> s[p] > key
  }

  /** Moving the element below the hole up moves the hole down and keeps the values. */
  lemma MoveHole(s: seq<int>, i: nat, h: nat, key: int)
    requires OrderedAround(s, i, h, key) && h > 0 && s[h - 1] > key
    ensures OrderedAround(s[h := s[h - 1]], i, h - 1, key)
    ensures multiset(s[h := s[h - 1]][h - 1 := key]) == multiset(s[h := key])
  {
    var t, x := s[h := key], s[h - 1];
    assert s[h := x][h - 1 := key] == t[h := x][h - 1 := key];
  }

  lemma FillHole(s: seq<int>, i: nat, h: nat, key: int)
    requires OrderedAround(s, i, h, key) && (h > 0 ==> s[h - 1] <= key)
    ensures Ordered(s[h := key][..i + 1], AtMost)
  {
  }

  /** The list once `key` has been sifted down from the hole at `h`. */
  function Sifted(s: seq<int>, h: nat, key: int): seq<int>
    requires h < |s|
    decreases h
  {
    if h > 0 && s[h - 1] > key then Sifted(s[h := s[h - 1]], h - 1, key) else s[h := key]
  }

  /** Sifting orders the elements up to `i` and only moves values. */
  lemma {:induction false} SiftingOrders(s: seq<int>, i: nat, h: nat, key: int)
    requires OrderedAround(s, i, h, key)
    ensures |Sifted(s, h, key)| == |s| && Ordered(Sifted(s, h, key)[..i + 1], AtMost)
    ensures multiset(Sifted(s, h, key)) == multiset(s[h := key])
    decreases h
  {
    if h > 0 && s[h - 1] > key {
      MoveHole(s, i, h, key);
      SiftingOrders(s[h := s[h - 1]], i, h - 1, key);
    } else {
      FillHole(s, i, h, key);
    }
  }

  lemma SiftFromOwnPlace(s: seq<int>, i: nat)
    requires i < |s| && Ordered(s[..i], AtMost)
    ensures |Sifted(s, i, s[i])| == |s| && Ordered(Sifted(s, i, s[i])[..i + 1], AtMost)
    ensures multiset(Sifted(s, i, s[i])) == multiset(s)
  {
    assert s[i := s[i]] == s;
    SiftingOrders(s, i, i, s[i]);
  }

  method SiftDown(a: array<int>, i: nat)
    requires i < a.Length
    modifies a
    ensures a[..] == Sifted(old(a[..]), i, old(a[i]))
  {
    var key := a[i];
    var j := i - 1;
    while j >= 0 && a[j] > key
      invariant -1 <= j < i
      invariant Sifted(a[..], j + 1, key) == Sifted(old(a[..]), i, key)
    {
      ghost var before := a[..];
      a[j + 1] := a[j];
      assert a[..] == before[j + 1 := before[j]];
      j := j - 1;
    }
    ghost var before := a[..];
    a[j + 1] := key;
    assert a[..] == before[j + 1 := key];
  }

  /** The rank of the percentile among `n` values, the product taken exactly. */
  function RankOf(n: nat): (k: nat)
    requires n > 0
    ensures k < n && 100 * k <= 99 * n < 100 * (k + 1)
  {
    n * 99 / 100
  }

  /** How many values are below `x`, and how many are at most `x`. */
  function Below(s: seq<int>, x: int): (n: nat)
    ensures n <= |s|
  {
    if s == [] then 0 else Below(s[..|s| - 1], x) + if s[|s| - 1] < x then 1 else 0
  }

  function UpTo(s: seq<int>, x: int): nat {
    Below(s, x + 1)
  }

  lemma {:induction false} BelowJoin(s: seq<int>, t: seq<int>, x: int)
    ensures Below(s + t, x) == Below(s, x) + Below(t, x)
  {
    if t == [] {
      assert s + t == s;
    } else {
      assert (s + t)[..|s + t| - 1] == s + t[..|t| - 1];
      BelowJoin(s, t[..|t| - 1], x);
    }
  }

  /** The counts depend on the values alone, not on their order. */
  lemma {:induction false} BelowReordered(s: seq<int>, t: seq<int>, x: int)
    requires multiset(s) == multiset(t)
    ensures Below(s, x) == Below(t, x)
    decreases |s|
  {
    if s == [] {
      OnlyEmptyReordersEmpty(t);
    } else {
      var last := s[|s| - 1];
      var u, v := LastStandsSomewhere(s, t);
      BelowReordered(s[..|s| - 1], u + v, x);
      BelowJoin(u, [last] + v, x);
      BelowJoin([last], v, x);
      BelowJoin(u, v, x);
      BelowSingle(last, x);
    }
  }

  lemma BelowSingle(v: int, x: int)
    ensures Below([v], x) == if v < x then 1 else 0
  {
    assert [v][..0] == [];
  }

  lemma {:induction false} NoneBelow(s: seq<int>, x: int)
    requires forall i :: 0 <= i < |s| ==> s[i] >= x
    ensures Below(s, x) == 0
  {
    if s != [] { NoneBelow(s[..|s| - 1], x); }
  }

  lemma {:induction false} AllBelow(s: seq<int>, x: int)
    requires forall i :: 0 <= i < |s| ==> s[i] < x
    ensures Below(s, x) == |s|
  {
    if s != [] { AllBelow(s[..|s| - 1], x); }
  }

  /** In an ordered list the element at `k` has at most `k` values below it and more than `k` up to it. */
  lemma {:induction false} RankMeaning(s: seq<int>, k: nat)
    requires Ordered(s, AtMost) && k < |s|
    ensures Below(s, s[k]) <= k < UpTo(s, s[k])
  {
    assert s == s[..k] + s[k..] && s == s[..k + 1] + s[k + 1..];
    BelowJoin(s[..k], s[k..], s[k]);
    NoneBelow(s[k..], s[k]);
    BelowJoin(s[..k + 1], s[k + 1..], s[k] + 1);
    AllBelow(s[..k + 1], s[k] + 1);
  }

  lemma {:induction false} BelowMonotone(s: seq<int>, x: int, y: int)
    requires x <= y
    ensures Below(s, x) <= Below(s, y)
  {
    if s != [] { BelowMonotone(s[..|s| - 1], x, y); }
  }

  /** At most one value has a given rank, so the counts determine the percentile outright. */
  lemma {:induction false} RankIsUnique(s: seq<int>, k: nat, x: int, y: int)
    requires Below(s, x) <= k < UpTo(s, x) && Below(s, y) <= k < UpTo(s, y)
    ensures x == y
  {
    if x < y {
      BelowMonotone(s, x + 1, y);
    } else if y < x {
      BelowMonotone(s, y + 1, x);
    }
  }

  lemma RankInSorted(sorted: seq<int>, s: seq<int>, k: nat)
    requires Ordered(sorted, AtMost) && k < |sorted| && multiset(sorted) == multiset(s)
    ensures sorted[k] in s && Below(s, sorted[k]) <= k < UpTo(s, sorted[k])
  {
    RankMeaning(sorted, k);
    BelowReordered(sorted, s, sorted[k]);
    BelowReordered(sorted, s, sorted[k] + 1);
    assert sorted[k] in multiset(s);
  }

  /** The percentile is the latency whose rank is the index reached in the sorted copy. */
  method ComputeP99(latencies: seq<int>) returns (p: int)
    ensures latencies == [] ==> p == 0
    ensures latencies != [] ==> p in latencies
    ensures latencies != [] ==> Below(latencies, p) <= RankOf(|latencies|) < UpTo(latencies, p)
  {
    if |latencies| == 0 {
      return 0;
    }
    var a := new int[|latencies|](i requires 0 <= i < |latencies| => latencies[i]);
    assert a[..] == latencies;
    for i := 1 to a.Length
      invariant Ordered(a[..i], AtMost)
      invariant multiset(a[..]) == multiset(latencies)
    {
      SiftFromOwnPlace(a[..], i);
      SiftDown(a, i);
    }
    assert a[..a.Length] == a[..];
    var idx := a.Length * 99 / 100;
    if idx >= a.Length {
      // The clamp never applies.
      assert false;
    }
    p := a[idx];
    RankInSorted(a[..], latencies, idx);
  }
}
