/** The digest of the memory graph: the decimal document ids, sorted as strings and written into the
    hash one after the other. The hash itself is opaque, so the text written into it is the model. */
module BrainMerkle {
  import opened Numbers
  import opened Sequences

  /** Lexicographic order, as sort.Strings uses it. */
  predicate NotAfter(a: string, b: string)
    decreases a
  {
    a == "" || (b != "" && (a[0] < b[0] || (a[0] == b[0] && NotAfter(a[1..], b[1..]))))
  }

  /** The strings part at `k`, and `a` has the smaller character there. */
  ghost predicate SmallerAt(a: string, b: string, k: int) {
    0 <= k < |a| && k < |b| && a[..k] == b[..k] && a[k] < b[k]
  }

  /** A string comes first when it is a beginning of the other, or has the smaller character where they part. */
  lemma {:induction false} NotAfterExactly(a: string, b: string)
    ensures NotAfter(a, b) <==> a <= b || exists k :: SmallerAt(a, b, k)
    decreases a
  {
    if a != "" && b != "" {
      var a', b' := a[1..], b[1..];
      assert a == [a[0]] + a' && b == [b[0]] + b';
      NotAfterExactly(a', b');
      if a[0] < b[0] { assert SmallerAt(a, b, 0); }
      if a[0] == b[0] {
        if k :| SmallerAt(a', b', k) { assert a[..k + 1] == [a[0]] + a'[..k] && SmallerAt(a, b, k + 1); }
        if k :| SmallerAt(a, b, k) { assert a'[..k - 1] == a[..k][1..] && SmallerAt(a', b', k - 1); }
      }
      if k :| SmallerAt(a, b, k) && k > 0 { assert a[0] == a[..k][0] == b[..k][0]; }
    }
  }

  lemma {:induction false} OrderIsTotal(a: string, b: string)
    ensures NotAfter(a, b) || NotAfter(b, a)
    ensures NotAfter(a, b) && NotAfter(b, a) ==> a == b
    decreases a
  {
    if a != "" && b != "" {
      OrderIsTotal(a[1..], b[1..]);
      assert a == [a[0]] + a[1..] && b == [b[0]] + b[1..];
    }
  }

  lemma {:induction false} OrderIsTransitive(a: string, b: string, c: string)
    requires NotAfter(a, b) && NotAfter(b, c)
    ensures NotAfter(a, c)
    decreases a
  {
    if a != "" && a[0] == b[0] == c[0] { OrderIsTransitive(a[1..], b[1..], c[1..]); }
  }

  function Insert(s: seq<string>, x: string): seq<string> {
    if s == [] || NotAfter(x, s[0]) then [x] + s else [s[0]] + Insert(s[1..], x)
  }

  function Sort(s: seq<string>): seq<string> {
    if s == [] then [] else Insert(Sort(s[..|s| - 1]), s[|s| - 1])
  }

  lemma OrderedCons(x: string, s: seq<string>)
    requires Ordered(s, NotAfter) && forall y :: y in multiset(s) ==> NotAfter(x, y)
    ensures Ordered([x] + s, NotAfter)
  {
    forall j | 0 <= j < |s|
      ensures NotAfter(x, s[j])
    {
      assert s[j] in multiset(s);
    }
  }

  lemma OrderedTail(s: seq<string>)
    requires Ordered(s, NotAfter) && s != []
    ensures Ordered(s[1..], NotAfter) && multiset(s) == multiset{s[0]} + multiset(s[1..])
    ensures forall y :: y in multiset(s[1..]) ==> NotAfter(s[0], y)
  {
    assert s == [s[0]] + s[1..];
    forall y | y in multiset(s[1..])
      ensures NotAfter(s[0], y)
    {
      var j :| 0 <= j < |s[1..]| && s[1..][j] == y;
      assert s[j + 1] == y;
    }
  }

  lemma {:induction false} InsertKeepsOrder(s: seq<string>, x: string)
    requires Ordered(s, NotAfter)
    ensures Ordered(Insert(s, x), NotAfter) && multiset(Insert(s, x)) == multiset(s) + multiset{x}
  {
    if s != [] {
      OrderedTail(s);
      OrderIsTotal(x, s[0]);
      if NotAfter(x, s[0]) {
        forall y | y in multiset(s)
          ensures NotAfter(x, y)
        {
          if y != s[0] { OrderIsTransitive(x, s[0], y); }
        }
        OrderedCons(x, s);
      } else {
        InsertKeepsOrder(s[1..], x);
        OrderedCons(s[0], Insert(s[1..], x));
      }
    }
  }

  lemma {:induction false} SortOrders(s: seq<string>)
    ensures Ordered(Sort(s), NotAfter) && multiset(Sort(s)) == multiset(s)
  {
    if s != [] {
      var n := |s| - 1;
      SortOrders(s[..n]);
      InsertKeepsOrder(Sort(s[..n]), s[n]);
      LastApart(s);
    }
  }

  /** There is one ordered arrangement, so any sorting algorithm gives this one. */
  lemma {:induction false} OrderedIsUnique(s: seq<string>, t: seq<string>)
    requires Ordered(s, NotAfter) && Ordered(t, NotAfter) && multiset(s) == multiset(t)
    ensures s == t
  {
    if s == [] {
      OnlyEmptyReordersEmpty(t);
    } else {
      OrderedTail(s);
      OrderedTail(t);
      assert s[0] in multiset(t) && t[0] in multiset(s);
      OrderIsTotal(s[0], t[0]);
      SameFirstSameRest(s[0], s[1..], t[1..], multiset(s));
      OrderedIsUnique(s[1..], t[1..]);
      assert s == [s[0]] + s[1..] && t == [t[0]] + t[1..];
    }
  }

  lemma SameFirstSameRest(x: string, s: seq<string>, t: seq<string>, all: multiset<string>)
    requires multiset{x} + multiset(s) == all == multiset{x} + multiset(t)
    ensures multiset(s) == multiset(t)
  {
    assert multiset(s) == all - multiset{x} == multiset(t);
  }

  function Concat(s: seq<string>): string {
    if s == [] then "" else s[0] + Concat(s[1..])
  }

  function Decimals(ids: seq<nat>): seq<string> {
    seq(|ids|, i requires 0 <= i < |ids| => Decimal(ids[i]))
  }

  /** What is written into the hash. */
  function HashInput(ids: seq<nat>): string {
    Concat(Sort(Decimals(ids)))
  }

  method ComputeBrainMerkle(docIDs: seq<nat>) returns (input: string)
    ensures input == HashInput(docIDs)
  {
    var ids: seq<string> := [];
    for i := 0 to |docIDs|
      invariant ids == Decimals(docIDs[..i])
    {
      ids := ids + [Decimal(docIDs[i])];
    }
    assert docIDs[..|docIDs|] == docIDs;
    ids := Sort(ids);
    input := "";
    for i := 0 to |ids|
      invariant input + Concat(ids[i..]) == Concat(ids)
    {
      assert ids[i..][1..] == ids[i + 1..];
      input := input + ids[i];
    }
  }

  lemma DecimalsConcat(a: seq<nat>, b: seq<nat>)
    ensures Decimals(a + b) == Decimals(a) + Decimals(b)
  {
  }

  lemma DecimalsAround(u: seq<nat>, x: nat, v: seq<nat>)
    ensures multiset(Decimals(u + ([x] + v))) == multiset(Decimals(u + v)) + multiset{Decimal(x)}
  {
    DecimalsConcat(u, v);
    DecimalsConcat(u, [x] + v);
    DecimalsConcat([x], v);
    assert Decimals([x]) == [Decimal(x)];
  }

  lemma DecimalsSnoc(a: seq<nat>)
    requires a != []
    ensures var n := |a| - 1;
            multiset(Decimals(a)) == multiset(Decimals(a[..n])) + multiset{Decimal(a[n])}
  {
    var n := |a| - 1;
    assert Decimals(a) == Decimals(a[..n]) + [Decimal(a[n])];
  }

  lemma {:induction false} DecimalsReordered(a: seq<nat>, b: seq<nat>)
    requires multiset(a) == multiset(b)
    ensures multiset(Decimals(a)) == multiset(Decimals(b))
    decreases |a|
  {
    if a == [] {
      OnlyEmptyReordersEmpty(b);
    } else {
      var n := |a| - 1;
      var u, v := LastStandsSomewhere(a, b);
      DecimalsReordered(a[..n], u + v);
      DecimalsAround(u, a[n], v);
      DecimalsSnoc(a);
    }
  }

  /** The digest does not depend on the order in which the graph lists its nodes. */
  lemma NodeOrderIrrelevant(a: seq<nat>, b: seq<nat>)
    requires multiset(a) == multiset(b)
    ensures HashInput(a) == HashInput(b)
  {
    DecimalsReordered(a, b);
    SortOrders(Decimals(a));
    SortOrders(Decimals(b));
    OrderedIsUnique(Sort(Decimals(a)), Sort(Decimals(b)));
  }

  lemma SortTwo(x: string, y: string)
    ensures Sort([x, y]) == if NotAfter(y, x) then [y, x] else [x, y]
  {
    assert [x, y][..1] == [x] && [x][..0] == [] && [x][1..] == [];
    assert Sort([x]) == [x];
    assert Insert([], y) == [y];
  }

  /** The text of two ids, given their decimals. */
  lemma TwoNodes(m: nat, n: nat, x: string, y: string)
    requires Decimal(m) == x && Decimal(n) == y
    ensures HashInput([m, n]) == Concat(Sort([x, y]))
  {
    assert Decimals([m, n]) == [x, y];
  }

  lemma ConcatTwo(x: string, y: string)
    ensures Concat([x, y]) == x + y
  {
    assert [x, y][1..] == [y] && [y][1..] == [];
    assert Concat([y]) == y + "" == y;
  }

  lemma TextOfTwo(x: string, y: string)
    requires !NotAfter(y, x)
    ensures Concat(Sort([x, y])) == x + y
  {
    SortTwo(x, y);
    ConcatTwo(x, y);
  }

  lemma {:induction false} BeginningComesFirst(x: string, y: string)
    ensures NotAfter(x, x + y)
  {
    if x != "" {
      BeginningComesFirst(x[1..], y);
      assert (x + y)[1..] == x[1..] + y;
    }
  }

  lemma Regroup(x: string, p: string, y: string)
    ensures x + (p + y) == (x + p) + y
  {
  }

  /** Nothing separates the ids: whenever the decimals of two pairs are x, py and xp, y, in this order,
      the pairs, which differ, are written as the same text. */
  lemma PairsCollide(a: nat, b: nat, c: nat, d: nat, x: string, p: string, y: string)
    requires Decimal(a) == x && Decimal(b) == p + y && Decimal(c) == x + p && Decimal(d) == y
    requires p != "" && !NotAfter(p + y, x) && !NotAfter(y, x + p)
    ensures HashInput([a, b]) == HashInput([c, d]) && a != c && a != d
  {
    BeginningComesFirst(x, p);
    TwoNodes(a, b, x, p + y);
    TwoNodes(c, d, x + p, y);
    TextOfTwo(x, p + y);
    TextOfTwo(x + p, y);
    Regroup(x, p, y);
    assert |x + p| > |x|;
  }

  /** So different graphs can share a text: 1 and 12 are written as 11 and 2 are. */
  lemma DifferentGraphsCollide() returns (g: seq<nat>, h: seq<nat>)
    ensures g == [1, 12] && h == [11, 2]
    ensures HashInput(g) == HashInput(h) && multiset(g) != multiset(h)
  {
    g, h := [1, 12], [11, 2];
    PairsCollide(g[0], g[1], h[0], h[1], "1", "1", "2") by {
      assert Decimal(1) == "1" && Decimal(2) == "2" && Decimal(11) == "11" && Decimal(12) == "12";
      assert "1" + "2" == "12" && "1" + "1" == "11";
      assert !NotAfter("12", "1") by { assert "12"[1..] == "2" && "1"[1..] == ""; }
      assert !NotAfter("2", "11");
    }
    assert 12 in multiset(g) && 12 !in multiset(h);
  }

  /** No text is a proper beginning of another. */
  ghost predicate PrefixFree(s: seq<string>) {
    forall x, y :: x in s && y in s && x <= y ==> x == y
  }

  ghost predicate NoneEmpty(s: seq<string>) {
    forall x :: x in s ==> x != ""
  }

  lemma EmptyConcat(s: seq<string>)
    requires NoneEmpty(s)
    ensures Concat(s) == "" <==> s == []
  {
    assert s != [] ==> s[0] in s;
  }

  /** Two beginnings of one text: one is a beginning of the other. */
  lemma BeginningsCompare(x: string, u: string, y: string, v: string)
    requires x + u == y + v
    ensures x <= y || y <= x
    ensures x == y ==> u == v
  {
    assert x == (x + u)[..|x|] && y == (x + u)[..|y|];
    assert u == (x + u)[|x|..] && v == (y + v)[|y|..];
  }

  /** Pieces none of which begins another can be told apart in the text they make up. */
  lemma {:induction false} PiecesOfConcat(s: seq<string>, t: seq<string>, codes: seq<string>)
    requires PrefixFree(codes) && NoneEmpty(codes)
    requires (forall x :: x in s ==> x in codes) && (forall x :: x in t ==> x in codes)
    requires Concat(s) == Concat(t)
    ensures s == t
  {
    EmptyConcat(s);
    EmptyConcat(t);
    if s != [] {
      assert s[0] in s && t[0] in t;
      BeginningsCompare(s[0], Concat(s[1..]), t[0], Concat(t[1..]));
      assert s == [s[0]] + s[1..] && t == [t[0]] + t[1..];
      PiecesOfConcat(s[1..], t[1..], codes);
    }
  }

  lemma DecimalIsInjective(m: nat, n: nat)
    requires Decimal(m) == Decimal(n)
    ensures m == n
  {
    ScanDecimal(m);
    ScanDecimal(n);
  }

  /** The ids can be read off their decimals. */
  lemma {:induction false} DecimalsDetermineIds(a: seq<nat>, b: seq<nat>)
    requires multiset(Decimals(a)) == multiset(Decimals(b))
    ensures multiset(a) == multiset(b)
    decreases |a|
  {
    if a == [] {
      OnlyEmptyReordersEmpty(Decimals(b));
      assert |Decimals(b)| == |b|;
    } else {
      var n := |a| - 1;
      var x := Decimal(a[n]);
      assert Decimals(a)[n] == x && x in multiset(Decimals(b));
      var j :| 0 <= j < |b| && Decimals(b)[j] == x;
      DecimalIsInjective(b[j], a[n]);
      var u, v := b[..j], b[j + 1..];
      assert b == u + ([a[n]] + v) && a == a[..n] + ([a[n]] + []) && a[..n] + [] == a[..n];
      DecimalsAround(u, a[n], v);
      DecimalsAround(a[..n], a[n], []);
      SameWithoutOne(multiset(Decimals(a[..n])), multiset(Decimals(u + v)), x);
      DecimalsDetermineIds(a[..n], u + v);
      OneInside(u, a[n], v);
      OneInside(a[..n], a[n], []);
    }
  }

  lemma SameWithoutOne(s: multiset<string>, t: multiset<string>, x: string)
    requires s + multiset{x} == t + multiset{x}
    ensures s == t
  {
    assert s == s + multiset{x} - multiset{x} == t;
  }

  lemma SortedMembers(ids: seq<nat>, x: string)
    ensures x in Sort(Decimals(ids)) <==> x in Decimals(ids)
  {
    SortOrders(Decimals(ids));
    assert x in Sort(Decimals(ids)) <==> x in multiset(Sort(Decimals(ids)));
    assert x in Decimals(ids) <==> x in multiset(Decimals(ids));
  }

  /** As long as no id's decimal begins another's, different graphs never collide. */
  lemma PrefixFreeNeverCollide(a: seq<nat>, b: seq<nat>)
    requires PrefixFree(Decimals(a) + Decimals(b))
    ensures HashInput(a) == HashInput(b) <==> multiset(a) == multiset(b)
  {
    if HashInput(a) == HashInput(b) {
      forall x
        ensures x in Sort(Decimals(a)) ==> x in Decimals(a) + Decimals(b)
        ensures x in Sort(Decimals(b)) ==> x in Decimals(a) + Decimals(b)
      {
        SortedMembers(a, x);
        SortedMembers(b, x);
      }
      PiecesOfConcat(Sort(Decimals(a)), Sort(Decimals(b)), Decimals(a) + Decimals(b));
      SortOrders(Decimals(a));
      SortOrders(Decimals(b));
      DecimalsDetermineIds(a, b);
    }
    if multiset(a) == multiset(b) { NodeOrderIrrelevant(a, b); }
  }

  /** In particular when all ids have equally many digits. */
  lemma EqualWidthsNeverCollide(a: seq<nat>, b: seq<nat>, w: nat)
    requires forall x :: x in a + b ==> |Decimal(x)| == w
    ensures HashInput(a) == HashInput(b) <==> multiset(a) == multiset(b)
  {
    forall x | x in Decimals(a) + Decimals(b)
      ensures |x| == w
    {
      assert Decimals(a) + Decimals(b) == Decimals(a + b);
      var i :| 0 <= i < |a + b| && Decimals(a + b)[i] == x;
      assert (a + b)[i] in a + b;
    }
    PrefixFreeNeverCollide(a, b);
  }

  // ---------- exactly when digit counts admit a collision ----------

  /** The digit count of every id is permitted. */
  ghost predicate Fits(ids: seq<nat>, widths: set<nat>) {
    forall x :: x in ids ==> |Decimal(x)| in widths
  }

  /** No id occurs twice. */
  ghost predicate NoRepeats(ids: seq<nat>) {
    forall i, j :: 0 <= i < j < |ids| ==> ids[i] != ids[j]
  }

  ghost predicate Collide(a: seq<nat>, b: seq<nat>) {
    HashInput(a) == HashInput(b) && multiset(a) != multiset(b)
  }

  ghost predicate NeverCollide(widths: set<nat>) {
    forall a, b :: Fits(a, widths) && Fits(b, widths) ==> !Collide(a, b)
  }

  /** The same for graphs in which no id occurs twice. */
  ghost predicate DistinctNeverCollide(widths: set<nat>) {
    forall a, b :: Fits(a, widths) && Fits(b, widths) && NoRepeats(a) && NoRepeats(b) ==> !Collide(a, b)
  }

  ghost predicate AtMostOneWidth(widths: set<nat>) {
    forall v, w :: v in widths && w in widths ==> v == w
  }

  function Rep(c: char, n: nat): string {
    seq(n, _ => c)
  }

  lemma {:induction false} OnesComeFirst(v: nat, a: nat, b: nat)
    requires v <= a + b
    ensures NotAfter(Rep('1', v), Rep('1', a) + Rep('2', b))
    decreases v
  {
    var x, y := Rep('1', v), Rep('1', a) + Rep('2', b);
    if v > 0 && a > 0 {
      OnesComeFirst(v - 1, a - 1, b);
      assert x[1..] == Rep('1', v - 1) && y[1..] == Rep('1', a - 1) + Rep('2', b);
    }
  }

  /** The number spelled by some ones and then some twos. */
  lemma OnesAndTwos(a: nat, b: nat) returns (n: nat)
    requires a + b > 0
    ensures Decimal(n) == Rep('1', a) + Rep('2', b)
  {
    var s := Rep('1', a) + Rep('2', b);
    assert AllDigits(s);
    DecimalOfDigits(s);
    n := ScanDigits(s, 0);
  }

  lemma NotBothWays(x: string, y: string)
    requires NotAfter(x, y) && x != y
    ensures !NotAfter(y, x)
  {
    OrderIsTotal(x, y);
  }

  /** The texts of the four ids: v ones; w - v ones and v twos; w ones; v twos. */
  lemma TextsOfOnesAndTwos(v: nat, w: nat)
    requires 0 < v < w
    ensures var x, p, y := Rep('1', v), Rep('1', w - v), Rep('2', v);
            && x + p == Rep('1', w) && |p + y| == w && p != ""
            && !NotAfter(p + y, x) && !NotAfter(y, x + p)
  {
    var x, p, y := Rep('1', v), Rep('1', w - v), Rep('2', v);
    OnesComeFirst(v, w - v, v);
    assert |x| < |p + y|;
    NotBothWays(x, p + y);
    assert (x + p)[0] == '1' && y[0] == '2';
  }

  lemma PairsFit(a: nat, b: nat, widths: set<nat>)
    requires |Decimal(a)| in widths && |Decimal(b)| in widths && |Decimal(a)| != |Decimal(b)|
    ensures Fits([a, b], widths) && NoRepeats([a, b])
  {
  }

  lemma PairsDiffer(a: nat, b: nat, c: nat, d: nat)
    requires a != c && a != d
    ensures multiset([a, b]) != multiset([c, d])
  {
    assert a in multiset([a, b]) && a !in multiset([c, d]);
  }

  lemma OnlyOnes(n: nat)
    ensures Rep('1', n) + Rep('2', 0) == Rep('1', n) && Rep('1', 0) + Rep('2', n) == Rep('2', n)
  {
  }

  /** For two digit counts, two graphs of two different ids each that share a text. */
  lemma TwoWidthsCollide(v: nat, w: nat) returns (g: seq<nat>, h: seq<nat>)
    requires 0 < v < w
    ensures Collide(g, h) && NoRepeats(g) && NoRepeats(h) && Fits(g, {v, w}) && Fits(h, {v, w})
  {
    OnlyOnes(v);
    OnlyOnes(w);
    var a := OnesAndTwos(v, 0);
    var b := OnesAndTwos(w - v, v);
    var c := OnesAndTwos(w, 0);
    var d := OnesAndTwos(0, v);
    TextsOfOnesAndTwos(v, w);
    PairsCollide(a, b, c, d, Rep('1', v), Rep('1', w - v), Rep('2', v));
    PairsFit(a, b, {v, w});
    PairsFit(c, d, {v, w});
    PairsDiffer(a, b, c, d);
    g, h := [a, b], [c, d];
  }

  lemma WiderFits(ids: seq<nat>, narrow: set<nat>, widths: set<nat>)
    requires Fits(ids, narrow) && narrow <= widths
    ensures Fits(ids, widths)
  {
  }

  lemma OneWidthNeverCollides(widths: set<nat>, a: seq<nat>, b: seq<nat>)
    requires AtMostOneWidth(widths) && Fits(a, widths) && Fits(b, widths)
    ensures !Collide(a, b)
  {
    if a + b == [] {
      assert a == b == [];
    } else {
      var w := |Decimal((a + b)[0])|;
      assert (a + b)[0] in a + b;
      forall x | x in a + b
        ensures |Decimal(x)| == w
      {
        assert x in a || x in b;
      }
      EqualWidthsNeverCollide(a, b, w);
    }
  }

  /** Graphs whose ids have permitted digit counts never share a text if and only if at most one digit
      count is permitted, whether or not an id may occur twice. */
  lemma NeverCollideExactly(widths: set<nat>)
    requires 0 !in widths
    ensures NeverCollide(widths) <==> AtMostOneWidth(widths)
    ensures DistinctNeverCollide(widths) <==> AtMostOneWidth(widths)
  {
    if AtMostOneWidth(widths) {
      forall a, b | Fits(a, widths) && Fits(b, widths)
        ensures !Collide(a, b)
      {
        OneWidthNeverCollides(widths, a, b);
      }
    } else {
      var v, w :| v in widths && w in widths && v != w;
      var g, h := TwoWidthsCollide(if v < w then v else w, if v < w then w else v);
      WiderFits(g, {v, w}, widths);
      WiderFits(h, {v, w}, widths);
    }
  }
}
