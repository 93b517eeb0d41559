/** Rows grouped by a key, each group merged into one row: the shape of every aggregation that
    updates a map entry for each row it meets. */
module Grouping {
  import opened Sequences

  /** The entry of each key after merging the rows in order. */
  function Group<R>(rows: seq<R>, key: R -> string, merge: (R, R) -> R): map<string, R> {
    if rows == [] then map[] else Put(Group(rows[..|rows| - 1], key, merge), rows[|rows| - 1], key, merge)
  }

  function Put<R>(m: map<string, R>, r: R, key: R -> string, merge: (R, R) -> R): map<string, R> {
    m[key(r) := if key(r) in m then merge(m[key(r)], r) else r]
  }

  lemma GroupAppend<R>(rows: seq<R>, r: R, key: R -> string, merge: (R, R) -> R)
    ensures Group(rows + [r], key, merge) == Put(Group(rows, key, merge), r, key, merge)
  {
    assert (rows + [r])[..|rows|] == rows;
  }

  function HasKey<R>(key: R -> string, k: string): R -> bool {
    r => key(r) == k
  }

  /** The rows of one key, in order. */
  function Own<R>(rows: seq<R>, key: R -> string, k: string): seq<R> {
    Filter(rows, HasKey(key, k))
  }

  lemma OwnNext<R>(rows: seq<R>, key: R -> string, k: string)
    requires rows != []
    ensures var init, last := rows[..|rows| - 1], rows[|rows| - 1];
            Own(rows, key, k) == if key(last) == k then Own(init, key, k) + [last] else Own(init, key, k)
  {
    assert rows == rows[..|rows| - 1] + [rows[|rows| - 1]];
    FilterAppend(rows[..|rows| - 1], rows[|rows| - 1], HasKey(key, k));
  }

  function MergeAll<R>(rows: seq<R>, merge: (R, R) -> R): R
    requires rows != []
  {
    if |rows| == 1 then rows[0] else merge(MergeAll(rows[..|rows| - 1], merge), rows[|rows| - 1])
  }

  function Sum<R>(rows: seq<R>, f: R -> real): real {
    if rows == [] then 0.0 else Sum(rows[..|rows| - 1], f) + f(rows[|rows| - 1])
  }

  lemma SumAppend<R>(rows: seq<R>, r: R, f: R -> real)
    ensures Sum(rows + [r], f) == Sum(rows, f) + f(r)
  {
    assert (rows + [r])[..|rows|] == rows;
  }

  /** The entry of a key is the merge of exactly that key's rows. */
  lemma {:induction false} GroupIsMerge<R>(rows: seq<R>, key: R -> string, merge: (R, R) -> R, k: string)
    ensures k in Group(rows, key, merge) <==> Own(rows, key, k) != []
    ensures k in Group(rows, key, merge) ==> Group(rows, key, merge)[k] == MergeAll(Own(rows, key, k), merge)
  {
    if rows != [] {
      var n := |rows| - 1;
      GroupIsMerge(rows[..n], key, merge, k);
      OwnNext(rows, key, k);
      var own := Own(rows[..n], key, k);
      assert (own + [rows[n]])[..|own|] == own;
    }
  }

  ghost predicate Additive<R(!new)>(f: R -> real, merge: (R, R) -> R) {
    forall a, b :: f(merge(a, b)) == f(a) + f(b)
  }

  lemma {:induction false} MergeAddsUp<R(!new)>(rows: seq<R>, merge: (R, R) -> R, f: R -> real)
    requires rows != [] && Additive(f, merge)
    ensures f(MergeAll(rows, merge)) == Sum(rows, f)
  {
    if |rows| > 1 {
      MergeAddsUp(rows[..|rows| - 1], merge, f);
    } else {
      assert rows[..0] == [];
    }
  }

  ghost predicate TakesMax<R(!new)>(f: R -> int, merge: (R, R) -> R) {
    forall a, b :: f(merge(a, b)) == if f(a) >= f(b) then f(a) else f(b)
  }

  lemma {:induction false} MergeTakesMax<R(!new)>(rows: seq<R>, merge: (R, R) -> R, f: R -> int)
    requires rows != [] && TakesMax(f, merge)
    ensures exists r :: r in rows && f(MergeAll(rows, merge)) == f(r)
    ensures forall r :: r in rows ==> f(r) <= f(MergeAll(rows, merge))
  {
    var n := |rows| - 1;
    assert rows == rows[..n] + [rows[n]];
    if n > 0 {
      MergeTakesMax(rows[..n], merge, f);
    }
  }

  // ---------- totals over a map ----------

  ghost function Total<R>(m: map<string, R>, f: R -> real): real {
    if m == map[] then 0.0
    else
      var k :| k in m;
      f(m[k]) + Total(m - {k}, f)
  }

  lemma {:induction false} TotalRemove<R>(m: map<string, R>, f: R -> real, k: string)
    requires k in m
    ensures Total(m, f) == f(m[k]) + Total(m - {k}, f)
    decreases |m|
  {
    var j :| j in m && Total(m, f) == f(m[j]) + Total(m - {j}, f);
    if j != k {
      TotalRemove(m - {j}, f, k);
      TotalRemove(m - {k}, f, j);
      assert m - {j} - {k} == m - {k} - {j};
    }
  }

  lemma TotalPut<R>(m: map<string, R>, k: string, r: R, f: R -> real)
    ensures Total(m[k := r], f) == Total(m, f) + f(r) - if k in m then f(m[k]) else 0.0
  {
    TotalRemove(m[k := r], f, k);
    assert m[k := r] - {k} == m - {k};
    if k in m {
      TotalRemove(m, f, k);
    } else {
      assert m - {k} == m;
    }
  }

  /** Merging additively loses nothing: the entries add up to what the rows add up to. */
  lemma {:induction false} GroupConserves<R(!new)>(rows: seq<R>, key: R -> string, merge: (R, R) -> R, f: R -> real)
    requires Additive(f, merge)
    ensures Total(Group(rows, key, merge), f) == Sum(rows, f)
  {
    if rows != [] {
      var n := |rows| - 1;
      var m, r := Group(rows[..n], key, merge), rows[n];
      GroupConserves(rows[..n], key, merge, f);
      TotalPut(m, key(r), if key(r) in m then merge(m[key(r)], r) else r, f);
    }
  }

  // ---------- order of the rows ----------

  lemma {:induction false} SumConcat<R>(a: seq<R>, b: seq<R>, f: R -> real)
    ensures Sum(a + b, f) == Sum(a, f) + Sum(b, f)
  {
    if b == [] {
      assert a + b == a;
    } else {
      var n := |b| - 1;
      SumConcat(a, b[..n], f);
      assert (a + b)[..|a + b| - 1] == a + b[..n];
    }
  }

  /** A sum does not depend on the order of the rows. */
  lemma {:induction false} SumReordered<R>(a: seq<R>, b: seq<R>, f: R -> real)
    requires multiset(a) == multiset(b)
    ensures Sum(a, f) == Sum(b, f)
    decreases |a|
  {
    if a == [] {
      OnlyEmptyReordersEmpty(b);
    } else {
      var last := a[|a| - 1];
      var u, v := LastStandsSomewhere(a, b);
      SumReordered(a[..|a| - 1], u + v, f);
      SumConcat(u, [last] + v, f);
      SumConcat([last], v, f);
      SumConcat(u, v, f);
      assert [last][..0] == [];
    }
  }

  lemma {:induction false} OwnSum<R>(rows: seq<R>, key: R -> string, k: string, f: R -> real, g: R -> real)
    requires forall r :: r in rows ==> g(r) == if key(r) == k then f(r) else 0.0
    ensures Sum(Own(rows, key, k), f) == Sum(rows, g)
  {
    if rows != [] {
      var n := |rows| - 1;
      OwnSum(rows[..n], key, k, f, g);
      OwnNext(rows, key, k);
      SumAppend(Own(rows[..n], key, k), rows[n], f);
    }
  }

  /** Neither does the sum of a key's own rows. */
  lemma OwnSumReordered<R>(a: seq<R>, b: seq<R>, key: R -> string, k: string, f: R -> real)
    requires multiset(a) == multiset(b)
    ensures Sum(Own(a, key, k), f) == Sum(Own(b, key, k), f)
  {
    var g: R -> real := r => if key(r) == k then f(r) else 0.0;
    OwnSum(a, key, k, f, g);
    OwnSum(b, key, k, f, g);
    SumReordered(a, b, g);
  }

  // ---------- listing the entries ----------

  /** `out` lists every entry of `m` once. */
  ghost predicate Lists<R>(out: seq<R>, m: map<string, R>, key: R -> string) {
    && (forall i :: 0 <= i < |out| ==> key(out[i]) in m && m[key(out[i])] == out[i])
    && (forall i, j :: 0 <= i < j < |out| ==> key(out[i]) != key(out[j]))
    && (forall k :: k in m ==> exists i :: 0 <= i < |out| && key(out[i]) == k)
  }

  ghost predicate Descending<R>(out: seq<R>, rank: R -> int) {
    forall i, j :: 0 <= i < j < |out| ==> rank(out[i]) >= rank(out[j])
  }

  /** The entries of the keys that are not in `left`. */
  ghost function Done<R>(m: map<string, R>, left: set<string>): map<string, R> {
    map k | k in m && k !in left :: m[k]
  }

  /** The entries sorted by rank, largest first; the order of equal ranks is not determined. */
  method ListDescending<R>(m: map<string, R>, key: R -> string, rank: R -> int) returns (out: seq<R>)
    requires forall k :: k in m ==> key(m[k]) == k
    ensures Lists(out, m, key) && Descending(out, rank)
  {
    out := [];
    var left := m.Keys;
    while left != {}
      invariant left <= m.Keys
      invariant Descending(out, rank)
      invariant Lists(out, Done(m, left), key)
      decreases |left|
    {
      var k :| k in left;
      var i := InsertionPoint(out, rank, rank(m[k]));
      InsertKeepsListing(out, Done(m, left), key, m[k], i);
      InsertKeepsOrder(out, rank, m[k], i);
      assert Done(m, left - {k}) == Done(m, left)[k := m[k]];
      out := out[..i] + [m[k]] + out[i..];
      left := left - {k};
    }
    assert Done(m, {}) == m;
  }

  method InsertionPoint<R>(out: seq<R>, rank: R -> int, x: int) returns (i: nat)
    ensures i <= |out| && forall j :: 0 <= j < i ==> rank(out[j]) >= x
    ensures i < |out| ==> rank(out[i]) < x
  {
    i := 0;
    while i < |out| && rank(out[i]) >= x
      invariant i <= |out| && forall j :: 0 <= j < i ==> rank(out[j]) >= x
    {
      i := i + 1;
    }
  }

  lemma InsertKeepsOrder<R>(out: seq<R>, rank: R -> int, r: R, i: nat)
    requires Descending(out, rank) && i <= |out|
    requires forall j :: 0 <= j < i ==> rank(out[j]) >= rank(r)
    requires i < |out| ==> rank(out[i]) < rank(r)
    ensures Descending(out[..i] + [r] + out[i..], rank)
  {
  }

  lemma InsertKeepsListing<R>(out: seq<R>, m: map<string, R>, key: R -> string, r: R, i: nat)
    requires Lists(out, m, key) && key(r) !in m && i <= |out|
    ensures Lists(out[..i] + [r] + out[i..], m[key(r) := r], key)
  {
    var next, m' := out[..i] + [r] + out[i..], m[key(r) := r];
    forall k | k in m'
      ensures exists j :: 0 <= j < |next| && key(next[j]) == k
    {
      if k == key(r) {
        assert next[i] == r;
      } else {
        var j :| 0 <= j < |out| && key(out[j]) == k;
        assert next[if j < i then j else j + 1] == out[j];
      }
    }
  }

  /** A listing adds up to the map's total. */
  lemma {:induction false} ListingTotal<R>(out: seq<R>, m: map<string, R>, key: R -> string, f: R -> real)
    requires Lists(out, m, key)
    ensures Sum(out, f) == Total(m, f)
  {
    if out == [] {
      assert m == map[];
    } else {
      var n := |out| - 1;
      var k := key(out[n]);
      DropLast(out, m, key);
      ListingTotal(out[..n], m - {k}, key, f);
      TotalRemove(m, f, k);
    }
  }

  lemma DropLast<R>(out: seq<R>, m: map<string, R>, key: R -> string)
    requires Lists(out, m, key) && out != []
    ensures Lists(out[..|out| - 1], m - {key(out[|out| - 1])}, key)
  {
    var n := |out| - 1;
    forall j | j in m - {key(out[n])}
      ensures exists i :: 0 <= i < n && key(out[..n][i]) == j
    {
      var i :| 0 <= i < |out| && key(out[i]) == j;
      assert out[..n][i] == out[i];
    }
  }
}
