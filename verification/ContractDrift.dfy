/** Which breaking contract changes matter: those on a route that had a frontend caller. The list is
    filtered into its own backing array. */
module ContractDrift {
  import opened Numbers
  import opened Sequences

  datatype Change = Change(kind: string, endpoint: string, old': string, new': string)
  datatype Node = Node(verb: string, path: string, callers: nat)

  /** The callers counted for a lookup key: a route counts as "VERB path" and as "path". */
  function CallersOf(prev: seq<Node>, key: string): nat {
    if prev == [] then 0
    else
      var c := prev[|prev| - 1];
      CallersOf(prev[..|prev| - 1], key)
      + (if c.verb + " " + c.path == key then c.callers else 0) + (if c.path == key then c.callers else 0)
  }

  /** The route has callers and is named by the key. */
  predicate CalledAs(c: Node, key: string) {
    c.callers > 0 && (c.verb + " " + c.path == key || c.path == key)
  }

  /** Some called route is named by the key. */
  ghost predicate HasCaller(prev: seq<Node>, key: string) {
    exists i :: 0 <= i < |prev| && CalledAs(prev[i], key)
  }

  lemma {:induction false} CountedIffCalled(prev: seq<Node>, key: string)
    ensures CallersOf(prev, key) > 0 <==> HasCaller(prev, key)
  {
    if prev != [] {
      var n := |prev| - 1;
      CountedIffCalled(prev[..n], key);
      if HasCaller(prev[..n], key) {
        var i :| 0 <= i < n && CalledAs(prev[..n][i], key);
        assert prev[i] == prev[..n][i];
      }
      if HasCaller(prev, key) {
        var i :| 0 <= i < |prev| && CalledAs(prev[i], key);
        assert i < n ==> prev[..n][i] == prev[i];
      }
    }
  }

  method CountCallers(prev: seq<Node>) returns (count: map<string, nat>)
    ensures forall key :: Lookup(count, key) == CallersOf(prev, key)
  {
    count := map[];
    for i := 0 to |prev|
      invariant forall key :: Lookup(count, key) == CallersOf(prev[..i], key)
    {
      assert prev[..i + 1][..i] == prev[..i];
      var c := prev[i];
      var route := c.verb + " " + c.path;
      assert |route| > |c.path|;
      if c.callers == 0 {
        continue;
      }
      count := count[route := Lookup(count, route) + c.callers];
      count := count[c.path := Lookup(count, c.path) + c.callers];
    }
    assert prev[..|prev|] == prev;
  }

  predicate Actionable(prev: seq<Node>, b: Change) {
    CallersOf(prev, b.old') > 0 || CallersOf(prev, b.endpoint) > 0
  }

  function Kept(prev: seq<Node>): Change -> bool {
    b => Actionable(prev, b)
  }

  function Filtered(prev: seq<Node>, bs: seq<Change>): seq<Change> {
    Filter(bs, Kept(prev))
  }

  /** The result is the first `n` elements of the caller's own array; no element is overwritten
      before it has been looked at, and the rest of the array stays. */
  method FilterActionableBreaking(breaking: array<Change>, prev: seq<Node>) returns (n: nat)
    modifies breaking
    ensures n <= breaking.Length
    ensures breaking[..n] == Filtered(prev, old(breaking[..]))
    ensures breaking[n..] == old(breaking[n..])
  {
    var callerCount := CountCallers(prev);
    ghost var before := breaking[..];
    n := 0;
    for i := 0 to breaking.Length
      invariant n <= i
      invariant breaking[..n] == Filtered(prev, before[..i])
      invariant breaking[n..] == before[n..]
    {
      FilterNext(before, i, Kept(prev));
      var b := breaking[i];
      StillThere(breaking[..], before, n, i);
      var callers := Lookup(callerCount, b.old');
      if callers == 0 {
        callers := Lookup(callerCount, b.endpoint);
      }
      if callers == 0 {
        continue;
      }
      ghost var now := breaking[..];
      breaking[n] := b;
      OneKept(now, breaking[..], before, n, b);
      n := n + 1;
    }
    assert before[..breaking.Length] == before;
  }

  /** The elements not yet passed are the original ones. */
  lemma StillThere(now: seq<Change>, before: seq<Change>, n: nat, i: nat)
    requires n <= i < |now| == |before| && now[n..] == before[n..]
    ensures now[i] == before[i]
  {
    assert now[n..][i - n] == before[n..][i - n];
  }

  lemma OneKept(now: seq<Change>, next: seq<Change>, before: seq<Change>, n: nat, b: Change)
    requires n < |now| == |before| && now[n..] == before[n..] && next == now[n := b]
    ensures next[..n + 1] == now[..n] + [b] && next[n + 1..] == before[n + 1..]
  {
    assert now[n..][1..] == before[n..][1..];
  }

  /** A change is reported exactly when its old route or its endpoint had a caller. */
  lemma ReportedExactly(prev: seq<Node>, bs: seq<Change>, b: Change)
    ensures b in Filtered(prev, bs) <==> b in bs && (HasCaller(prev, b.old') || HasCaller(prev, b.endpoint))
  {
    CountedIffCalled(prev, b.old');
    CountedIffCalled(prev, b.endpoint);
    FilterMembers(bs, Kept(prev), b);
  }
}
