/** Admission control of tool calls: one token bucket for each tool name.
    Tokens and instants are reals; a call reads the clock once, under the bucket's lock. */
module RateLimit {
  import opened Wrappers

  datatype Bucket = Bucket(tokens: real, lastRefill: real, rate: real, capacity: real)

  /** The tokens that flow in between two instants. */
  function Accrued(rate: real, from: real, to: real): real {
    (to - from) * rate
  }

  /** What a call at instant `now` finds in the bucket once it has been topped up. */
  function Refill(b: Bucket, now: real): real {
    var filled := b.tokens + Accrued(b.rate, b.lastRefill, now);
    if filled > b.capacity then b.capacity else filled
  }

  /** The bucket after a call at instant `now`, and whether that call is let through. */
  function AllowStep(b: Bucket, now: real): (Bucket, bool) {
    var filled := Refill(b, now);
    if filled >= 1.0 then (b.(tokens := filled - 1.0, lastRefill := now), true)
    else (b.(tokens := filled, lastRefill := now), false)
  }

  class TokenBucket {
    var tokens: real
    var lastRefill: real
    const rate: real
    const capacity: real

    constructor (tokens: real, lastRefill: real, rate: real, capacity: real)
      ensures State() == Bucket(tokens, lastRefill, rate, capacity)
    {
      this.tokens, this.lastRefill, this.rate, this.capacity := tokens, lastRefill, rate, capacity;
    }

    function State(): Bucket
      reads this
    {
      Bucket(tokens, lastRefill, rate, capacity)
    }

    method Allow(now: real) returns (ok: bool)
      modifies this
      ensures State() == AllowStep(old(State()), now).0
      ensures ok == AllowStep(old(State()), now).1
    {
      var elapsed := now - lastRefill;
      tokens := tokens + elapsed * rate;
      if tokens > capacity {
        tokens := capacity;
      }
      lastRefill := now;
      assert tokens == Refill(old(State()), now);
      if tokens >= 1.0 {
        tokens := tokens - 1.0;
        return true;
      }
      return false;
    }
  }

  // ---------- whole runs of one bucket ----------

  function After(b: Bucket, ts: seq<real>): Bucket {
    if ts == [] then b else AllowStep(After(b, ts[..|ts| - 1]), ts[|ts| - 1]).0
  }

  /** Whether call `j` of the run is let through. */
  predicate Granted(b: Bucket, ts: seq<real>, j: nat)
    requires j < |ts|
  {
    AllowStep(After(b, ts[..j]), ts[j]).1
  }

  /** The number of calls let through among calls `i..j`. */
  function Grants(b: Bucket, ts: seq<real>, i: nat, j: nat): nat
    requires i <= j <= |ts|
    decreases j
  {
    if i == j then 0 else Grants(b, ts, i, j - 1) + if Granted(b, ts, j - 1) then 1 else 0
  }

  /** A bucket that starts full, never loses tokens by waiting, and is called at
      non-decreasing instants: what the registry and a monotonic clock provide. */
  ghost predicate FullStart(b: Bucket, ts: seq<real>) {
    && b.tokens == b.capacity
    && b.rate >= 0.0
    && (ts != [] ==> b.lastRefill <= ts[0])
    && forall i, j :: 0 <= i <= j < |ts| ==> ts[i] <= ts[j]
  }

  function Level(b: Bucket, ts: seq<real>, j: nat): real
    requires j < |ts|
  {
    Refill(After(b, ts[..j]), ts[j])
  }

  /** The allowance of the window from call `i` up to instant `ts[j]`. */
  function Allowance(b: Bucket, ts: seq<real>, i: nat, j: nat): real
    requires i <= j < |ts|
  {
    b.capacity + Accrued(b.rate, ts[i], ts[j])
  }

  lemma {:induction false} AfterKeepsLimits(b: Bucket, ts: seq<real>)
    ensures After(b, ts).rate == b.rate && After(b, ts).capacity == b.capacity
    ensures ts != [] ==> After(b, ts).lastRefill == ts[|ts| - 1]
  {
    if ts != [] { AfterKeepsLimits(b, ts[..|ts| - 1]); }
  }

  lemma AccruedAdds(rate: real, from: real, mid: real, to: real)
    ensures Accrued(rate, from, to) == Accrued(rate, from, mid) + Accrued(rate, mid, to)
    ensures rate >= 0.0 && mid <= to ==> Accrued(rate, mid, to) >= 0.0
  {
  }

  /** How the level moves from one call to the next. */
  lemma LevelStep(b: Bucket, ts: seq<real>, j: nat)
    requires 0 < j < |ts|
    ensures var refilled := Level(b, ts, j - 1) - (if Granted(b, ts, j - 1) then 1.0 else 0.0)
                            + Accrued(b.rate, ts[j - 1], ts[j]);
            Level(b, ts, j) == if refilled > b.capacity then b.capacity else refilled
  {
    assert ts[..j][..j - 1] == ts[..j - 1];
    AfterKeepsLimits(b, ts[..j]);
    AfterKeepsLimits(b, ts[..j - 1]);
  }

  /** No window has been overdrawn: the level lies below what every window has left. */
  lemma {:induction false} LevelBelowEveryWindow(b: Bucket, ts: seq<real>, i: nat, j: nat)
    requires FullStart(b, ts) && i <= j < |ts|
    ensures Level(b, ts, j) <= Allowance(b, ts, i, j) - Grants(b, ts, i, j) as real
    decreases j
  {
    AfterKeepsLimits(b, ts[..j]);
    if i < j {
      LevelBelowEveryWindow(b, ts, i, j - 1);
      LevelStep(b, ts, j);
      AccruedAdds(b.rate, ts[i], ts[j - 1], ts[j]);
    }
  }

  /** Some window is exactly used up to the level: the one since the bucket was last full. */
  lemma {:induction false} LevelReached(b: Bucket, ts: seq<real>, j: nat) returns (i: nat)
    requires FullStart(b, ts) && j < |ts|
    ensures i <= j && Level(b, ts, j) == Allowance(b, ts, i, j) - Grants(b, ts, i, j) as real
  {
    AfterKeepsLimits(b, ts[..j]);
    if j == 0 {
      assert ts[..0] == [];
      i := 0;
    } else {
      LevelStep(b, ts, j);
      if Level(b, ts, j) == b.capacity {
        i := j;
      } else {
        i := LevelReached(b, ts, j - 1);
        AccruedAdds(b.rate, ts[i], ts[j - 1], ts[j]);
      }
    }
  }

  /** Call `j` is let through exactly when that keeps every window ending with it within
      capacity + rate * duration. */
  lemma ExactAdmission(b: Bucket, ts: seq<real>, j: nat)
    requires FullStart(b, ts) && j < |ts|
    ensures Granted(b, ts, j) <==>
            forall i :: 0 <= i <= j ==> (Grants(b, ts, i, j) + 1) as real <= Allowance(b, ts, i, j)
  {
    forall i | 0 <= i <= j
      ensures Level(b, ts, j) <= Allowance(b, ts, i, j) - Grants(b, ts, i, j) as real
    {
      LevelBelowEveryWindow(b, ts, i, j);
    }
    var tight := LevelReached(b, ts, j);
    assert Granted(b, ts, j) <==> Level(b, ts, j) >= 1.0;
  }

  /** No window of any run ever exceeds its allowance. */
  lemma {:induction false} WindowBound(b: Bucket, ts: seq<real>, i: nat, j: nat)
    requires FullStart(b, ts) && b.capacity >= 0.0 && i <= j < |ts|
    ensures Grants(b, ts, i, j + 1) as real <= Allowance(b, ts, i, j)
    decreases j
  {
    ExactAdmission(b, ts, j);
    assert Grants(b, ts, i, j + 1) == Grants(b, ts, i, j) + if Granted(b, ts, j) then 1 else 0;
    if !Granted(b, ts, j) && i < j {
      WindowBound(b, ts, i, j - 1);
      AccruedAdds(b.rate, ts[i], ts[j - 1], ts[j]);
    }
  }

  // ---------- no admission rule does better ----------

  /** The number of `true` decisions among calls `i..j` of an arbitrary rule. */
  function Count(d: seq<bool>, i: nat, j: nat): nat
    requires i <= j <= |d|
    decreases j
  {
    if i == j then 0 else Count(d, i, j - 1) + if d[j - 1] then 1 else 0
  }

  /** A rule that keeps every window within its allowance. */
  ghost predicate Conforming(b: Bucket, ts: seq<real>, d: seq<bool>)
    requires |d| == |ts|
  {
    forall i, j :: 0 <= i <= j < |ts| ==> Count(d, i, j + 1) as real <= Allowance(b, ts, i, j)
  }

  lemma {:induction false} CountSplit(d: seq<bool>, i: nat, j: nat)
    requires i <= j <= |d|
    ensures Count(d, 0, j) == Count(d, 0, i) + Count(d, i, j)
    decreases j
  {
    if i < j { CountSplit(d, i, j - 1); }
  }

  lemma {:induction false} GrantsSplit(b: Bucket, ts: seq<real>, i: nat, j: nat)
    requires i <= j <= |ts|
    ensures Grants(b, ts, 0, j) == Grants(b, ts, 0, i) + Grants(b, ts, i, j)
    decreases j
  {
    if i < j { GrantsSplit(b, ts, i, j - 1); }
  }

  /** Among all rules that respect every window, the bucket has let through the most calls
      at every point of the run. */
  lemma {:induction false} BucketIsOptimal(b: Bucket, ts: seq<real>, d: seq<bool>, j: nat)
    requires FullStart(b, ts) && |d| == |ts| && Conforming(b, ts, d) && j <= |ts|
    ensures Count(d, 0, j) <= Grants(b, ts, 0, j)
    decreases j
  {
    if j > 0 {
      BucketIsOptimal(b, ts, d, j - 1);
      if d[j - 1] && !Granted(b, ts, j - 1) && Count(d, 0, j - 1) == Grants(b, ts, 0, j - 1) {
        ExactAdmission(b, ts, j - 1);
        var i :| 0 <= i <= j - 1 && (Grants(b, ts, i, j - 1) + 1) as real > Allowance(b, ts, i, j - 1);
        BucketIsOptimal(b, ts, d, i);
        CountSplit(d, i, j - 1);
        GrantsSplit(b, ts, i, j - 1);
      }
    }
  }

  // ---------- the registry: one bucket a tool ----------

  /** `created` is the clock reading that would initialise a new bucket, `now` the one Allow takes. */
  datatype Call = Call(name: string, created: real, now: real)

  const INITIAL_TOKENS := 100.0
  const INITIAL_RATE := 2.0

  function NewBucket(created: real): Bucket {
    Bucket(INITIAL_TOKENS, created, INITIAL_RATE, INITIAL_TOKENS)
  }

  datatype Verdict = NotFound | Limited | Run

  class ToolRegistry {
    const tools: set<string>
    var buckets: map<string, Bucket>

    constructor (tools: set<string>)
      ensures this.tools == tools && buckets == map[]
    {
      this.tools, buckets := tools, map[];
    }

    method Admit(c: Call) returns (v: Verdict)
      modifies this
      ensures buckets == AdmitStep(tools, old(buckets), c).0
      ensures v == AdmitStep(tools, old(buckets), c).1
    {
      if c.name !in tools {
        return NotFound;
      }
      if c.name !in buckets {
        buckets := buckets[c.name := NewBucket(c.created)];
      }
      var (b, ok) := AllowStep(buckets[c.name], c.now);
      buckets := buckets[c.name := b];
      return if ok then Run else Limited;
    }
  }

  function AdmitStep(tools: set<string>, buckets: map<string, Bucket>, c: Call): (map<string, Bucket>, Verdict) {
    if c.name !in tools then (buckets, NotFound)
    else
      var found := if c.name in buckets then buckets[c.name] else NewBucket(c.created);
      var (b, ok) := AllowStep(found, c.now);
      (buckets[c.name := b], if ok then Run else Limited)
  }

  function BucketsAfter(tools: set<string>, cs: seq<Call>): map<string, Bucket> {
    if cs == [] then map[] else AdmitStep(tools, BucketsAfter(tools, cs[..|cs| - 1]), cs[|cs| - 1]).0
  }

  /** The instants at which `name` was called. */
  function TimesOf(cs: seq<Call>, name: string): seq<real> {
    if cs == [] then []
    else
      var c := cs[|cs| - 1];
      TimesOf(cs[..|cs| - 1], name) + if c.name == name then [c.now] else []
  }

  function FirstCreated(cs: seq<Call>, name: string): Option<real> {
    if cs == [] then None
    else if FirstCreated(cs[..|cs| - 1], name).Some? then FirstCreated(cs[..|cs| - 1], name)
    else if cs[|cs| - 1].name == name then Some(cs[|cs| - 1].created)
    else None
  }

  /** Whatever the interleaving with other tools, a tool's bucket is the bucket its own calls
      alone would have produced: tools never spend each other's tokens. */
  lemma {:induction false} ToolsAreIsolated(tools: set<string>, cs: seq<Call>, name: string)
    requires name in tools
    ensures name in BucketsAfter(tools, cs) <==> FirstCreated(cs, name).Some?
    ensures FirstCreated(cs, name).Some? ==>
              BucketsAfter(tools, cs)[name] ==
              After(NewBucket(FirstCreated(cs, name).value), TimesOf(cs, name))
    ensures FirstCreated(cs, name).None? ==> TimesOf(cs, name) == []
  {
    if cs != [] {
      var prev, c := cs[..|cs| - 1], cs[|cs| - 1];
      ToolsAreIsolated(tools, prev, name);
      if c.name == name {
        var ts := TimesOf(cs, name);
        assert ts[..|ts| - 1] == TimesOf(prev, name);
      } else {
        assert TimesOf(cs, name) == TimesOf(prev, name);
      }
    }
  }

  /** Whether each call of `name` was let run, in order. */
  function RunsOf(tools: set<string>, cs: seq<Call>, name: string): seq<bool> {
    if cs == [] then []
    else
      var prev, c := cs[..|cs| - 1], cs[|cs| - 1];
      RunsOf(tools, prev, name)
      + if c.name == name then [AdmitStep(tools, BucketsAfter(tools, prev), c).1 == Run] else []
  }

  /** The verdict on a call depends on the tool's own calls alone. */
  lemma VerdictIsOwn(tools: set<string>, cs: seq<Call>, c: Call)
    requires c.name in tools
    ensures var created := FirstCreated(cs + [c], c.name);
            && created.Some?
            && (AdmitStep(tools, BucketsAfter(tools, cs), c).1 == Run <==>
                AllowStep(After(NewBucket(created.value), TimesOf(cs, c.name)), c.now).1)
  {
    assert (cs + [c])[..|cs|] == cs;
    ToolsAreIsolated(tools, cs, c.name);
  }

  lemma GrantedEarlier(b: Bucket, ts: seq<real>, t: real, j: nat)
    requires j <= |ts|
    ensures j < |ts| ==> (Granted(b, ts + [t], j) <==> Granted(b, ts, j))
    ensures Granted(b, ts + [t], |ts|) <==> AllowStep(After(b, ts), t).1
  {
    assert (ts + [t])[..j] == ts[..j] && (ts + [t])[..|ts|] == ts;
  }

  lemma FirstCreatedStays(cs: seq<Call>, name: string)
    requires cs != [] && FirstCreated(cs[..|cs| - 1], name).Some?
    ensures FirstCreated(cs, name) == FirstCreated(cs[..|cs| - 1], name)
  {
  }

  /** A tool runs exactly when its own bucket grants the call. */
  lemma {:induction false} RunsAreGrants(tools: set<string>, cs: seq<Call>, name: string)
    requires name in tools && FirstCreated(cs, name).Some?
    ensures var b, ts, runs := NewBucket(FirstCreated(cs, name).value), TimesOf(cs, name), RunsOf(tools, cs, name);
            |runs| == |ts| && forall j :: 0 <= j < |ts| ==> (runs[j] <==> Granted(b, ts, j))
  {
    var prev, c := cs[..|cs| - 1], cs[|cs| - 1];
    var b := NewBucket(FirstCreated(cs, name).value);
    if FirstCreated(prev, name).Some? {
      FirstCreatedStays(cs, name);
      RunsAreGrants(tools, prev, name);
    } else {
      NeverCalled(tools, prev, name);
    }
    if c.name == name {
      assert cs == prev + [c];
      VerdictIsOwn(tools, prev, c);
      var ts := TimesOf(prev, name);
      forall j | 0 <= j <= |ts|
        ensures j < |ts| ==> (Granted(b, ts + [c.now], j) <==> Granted(b, ts, j))
        ensures Granted(b, ts + [c.now], |ts|) <==> AllowStep(After(b, ts), c.now).1
      {
        GrantedEarlier(b, ts, c.now, j);
      }
    } else {
      assert TimesOf(cs, name) == TimesOf(prev, name) && RunsOf(tools, cs, name) == RunsOf(tools, prev, name);
    }
  }

  lemma {:induction false} NeverCalled(tools: set<string>, cs: seq<Call>, name: string)
    requires FirstCreated(cs, name).None?
    ensures TimesOf(cs, name) == [] && RunsOf(tools, cs, name) == []
  {
    if cs != [] { NeverCalled(tools, cs[..|cs| - 1], name); }
  }

  lemma {:induction false} CountIsGrants(b: Bucket, ts: seq<real>, d: seq<bool>, i: nat, j: nat)
    requires |d| == |ts| && i <= j <= |d|
    requires forall k :: 0 <= k < |d| ==> (d[k] <==> Granted(b, ts, k))
    ensures Count(d, i, j) == Grants(b, ts, i, j)
    decreases j
  {
    if i < j { CountIsGrants(b, ts, d, i, j - 1); }
  }

  /** The tool's bucket was created no later than its first call, and the clock never went back. */
  ghost predicate Clocked(created: real, ts: seq<real>) {
    (ts != [] ==> created <= ts[0]) && forall i, j :: 0 <= i <= j < |ts| ==> ts[i] <= ts[j]
  }

  lemma RegistryAllowance(created: real, ts: seq<real>, i: nat, j: nat)
    requires i <= j < |ts|
    ensures Allowance(NewBucket(created), ts, i, j) == 100.0 + 2.0 * (ts[j] - ts[i])
    ensures Clocked(created, ts) ==> FullStart(NewBucket(created), ts)
  {
  }

  /** Decisions that are a bucket's grants stay within its allowance. */
  lemma DecisionsBounded(b: Bucket, ts: seq<real>, d: seq<bool>, i: nat, j: nat)
    requires |d| == |ts| && i <= j < |d|
    requires forall k :: 0 <= k < |d| ==> (d[k] <==> Granted(b, ts, k))
    requires FullStart(b, ts) && b.capacity >= 0.0
    ensures Count(d, i, j + 1) as real <= Allowance(b, ts, i, j)
  {
    CountIsGrants(b, ts, d, i, j + 1);
    WindowBound(b, ts, i, j);
  }

  /** Within any stretch of its calls, a tool runs at most 100 + 2 * seconds times. */
  lemma ToolRateBound(tools: set<string>, cs: seq<Call>, name: string, i: nat, j: nat)
    requires name in tools && FirstCreated(cs, name).Some?
    requires i <= j < |TimesOf(cs, name)|
    requires Clocked(FirstCreated(cs, name).value, TimesOf(cs, name))
    ensures |RunsOf(tools, cs, name)| == |TimesOf(cs, name)|
    ensures var ts := TimesOf(cs, name);
            Count(RunsOf(tools, cs, name), i, j + 1) as real <= 100.0 + 2.0 * (ts[j] - ts[i])
  {
    var created, ts, runs := FirstCreated(cs, name).value, TimesOf(cs, name), RunsOf(tools, cs, name);
    RunsAreGrants(tools, cs, name);
    RegistryAllowance(created, ts, i, j);
    DecisionsBounded(NewBucket(created), ts, runs, i, j);
  }

  /** After any run a name that is not registered, and no other, is answered as not found, and that changes
      nothing; any call leaves the other tools' buckets alone. */
  lemma NotFoundExactly(tools: set<string>, cs: seq<Call>, c: Call, other: string)
    ensures var before := BucketsAfter(tools, cs);
            var (next, v) := AdmitStep(tools, before, c);
            && (v == NotFound <==> c.name !in tools)
            && (c.name !in tools ==> next == before)
            && (other != c.name ==> (other in next <==> other in before)
                                    && (other in next ==> next[other] == before[other]))
  {
  }

  /** A tool's call is let run if and only if it keeps every stretch of the tool's calls that ends with it
      within 100 + 2 * seconds. */
  lemma ToolAdmissionExactly(tools: set<string>, cs: seq<Call>, name: string, j: nat)
    requires name in tools && FirstCreated(cs, name).Some? && j < |TimesOf(cs, name)|
    requires Clocked(FirstCreated(cs, name).value, TimesOf(cs, name))
    ensures |RunsOf(tools, cs, name)| == |TimesOf(cs, name)|
    ensures var ts, runs := TimesOf(cs, name), RunsOf(tools, cs, name);
            runs[j] <==> forall i :: 0 <= i <= j ==>
                                       (Count(runs, i, j) + 1) as real <= 100.0 + 2.0 * (ts[j] - ts[i])
  {
    var b, ts, runs := NewBucket(FirstCreated(cs, name).value), TimesOf(cs, name), RunsOf(tools, cs, name);
    RunsAreGrants(tools, cs, name);
    RegistryAllowance(FirstCreated(cs, name).value, ts, 0, j);
    ExactAdmission(b, ts, j);
    forall i | 0 <= i <= j
      ensures Count(runs, i, j) == Grants(b, ts, i, j)
      ensures Allowance(b, ts, i, j) == 100.0 + 2.0 * (ts[j] - ts[i])
    {
      CountIsGrants(b, ts, runs, i, j);
      RegistryAllowance(FirstCreated(cs, name).value, ts, i, j);
    }
  }
}
