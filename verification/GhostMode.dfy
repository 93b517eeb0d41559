/** Ghost Mode: automatic approval of tool calls up to a cap, after which a human checkpoint is due.
    `cycles` and `suspended` are separate atomics, read and written one at a time. */
module GhostMode {
  import opened Sequences

  const DEFAULT_CAP := 50

  /** The configured cap as the 32-bit integer the code narrows it to. */
  function Narrow(n: int): int {
    var low := n % 0x1_0000_0000;
    if low >= 0x8000_0000 then low - 0x1_0000_0000 else low
  }

  function EffectiveCap(configured: int): (cap: nat)
    ensures 0 < cap < 0x8000_0000
    ensures 0 < configured < 0x8000_0000 ==> cap == configured
    ensures -0x8000_0000 <= configured <= 0 ==> cap == 50
  {
    if Narrow(configured) <= 0 then DEFAULT_CAP else Narrow(configured)
  }

  /** A configured cap counts modulo 2^32: adding any multiple to it changes nothing. */
  lemma CapWrapsAround(n: int, q: int)
    requires -0x8000_0000 <= n < 0x8000_0000
    ensures EffectiveCap(n + q * 0x1_0000_0000) == if n <= 0 then 50 else n
  {
    assert (n + q * 0x1_0000_0000) % 0x1_0000_0000 == n % 0x1_0000_0000;
  }

  /** What a command is: judged divergent by its paths, or safe by the whitelist. */
  datatype Command = Command(divergent: bool, safe: bool)

  datatype Decision = Decision(autoApproved: bool, suspended: bool, cycleCount: nat)

  datatype Counters = Counters(cycles: nat, suspended: bool)

  /** A whole decision that nothing overlaps. */
  function Decide(g: Counters, enabled: bool, cap: nat, c: Command): (Counters, Decision) {
    if !enabled then (g, Decision(false, false, 0))
    else if g.suspended then (g, Decision(false, true, 0))
    else if g.cycles >= cap then (g.(suspended := true), Decision(false, true, g.cycles))
    else if c.divergent then (g.(suspended := true), Decision(false, true, 0))
    else if !c.safe then (g, Decision(false, false, 0))
    else (g.(cycles := g.cycles + 1), Decision(true, false, g.cycles + 1))
  }

  class GhostInterceptor {
    var cycles: nat
    var suspended: bool

    function State(): Counters
      reads this
    {
      Counters(cycles, suspended)
    }

    constructor ()
      ensures State() == Counters(0, false)
    {
      cycles, suspended := 0, false;
    }

    method ShouldAutoApprove(enabled: bool, configuredCap: int, c: Command) returns (d: Decision)
      modifies this
      ensures State() == Decide(old(State()), enabled, EffectiveCap(configuredCap), c).0
      ensures d == Decide(old(State()), enabled, EffectiveCap(configuredCap), c).1
    {
      if !enabled {
        return Decision(false, false, 0);
      }
      if suspended {
        return Decision(false, true, 0);
      }
      var maxCycles := Narrow(configuredCap);
      if maxCycles <= 0 {
        maxCycles := DEFAULT_CAP;
      }
      var current := cycles;
      if current >= maxCycles {
        suspended := true;
        return Decision(false, true, current);
      }
      if c.divergent {
        suspended := true;
        return Decision(false, true, 0);
      }
      if !c.safe {
        return Decision(false, false, 0);
      }
      cycles := cycles + 1;
      return Decision(true, false, cycles);
    }

    method Reset()
      modifies this
      ensures State() == Counters(0, false)
    {
      cycles := 0;
      suspended := false;
    }
  }

  // ---------- one caller at a time ----------

  datatype Request = Ask(enabled: bool, command: Command) | Checkpoint

  function Handle(g: Counters, cap: nat, q: Request): Counters {
    match q
    case Ask(enabled, c) => Decide(g, enabled, cap, c).0
    case Checkpoint => Counters(0, false)
  }

  function Handled(g: Counters, cap: nat, qs: seq<Request>): Counters {
    if qs == [] then g else Handle(Handled(g, cap, qs[..|qs| - 1]), cap, qs[|qs| - 1])
  }

  /** How many commands were approved since the last checkpoint. */
  function ApprovedSinceCheckpoint(g: Counters, cap: nat, qs: seq<Request>): nat {
    if qs == [] then 0
    else
      var prev, q := qs[..|qs| - 1], qs[|qs| - 1];
      if q.Checkpoint? then 0
      else ApprovedSinceCheckpoint(g, cap, prev)
           + if Decide(Handled(g, cap, prev), q.enabled, cap, q.command).1.autoApproved then 1 else 0
  }

  /** One caller never gets past the cap between two checkpoints. */
  lemma {:induction false} CapBetweenCheckpoints(cap: nat, qs: seq<Request>)
    ensures Handled(Counters(0, false), cap, qs).cycles == ApprovedSinceCheckpoint(Counters(0, false), cap, qs) <= cap
  {
    if qs != [] { CapBetweenCheckpoints(cap, qs[..|qs| - 1]); }
  }

  /** Once a decision reports suspension, nothing is approved until a checkpoint, whatever is
      asked and however the mode is switched in between. */
  lemma {:induction false} SuspensionSticks(g: Counters, enabled: bool, cap: nat, c: Command,
                                            qs: seq<Request>, last: Request)
    requires Decide(g, enabled, cap, c).1.suspended
    requires forall q :: q in qs ==> q.Ask?
    requires last.Ask?
    ensures var after := Handled(Decide(g, enabled, cap, c).0, cap, qs);
            after == Decide(g, enabled, cap, c).0 && !Decide(after, last.enabled, cap, last.command).1.autoApproved
  {
    if qs != [] {
      SuspensionSticks(g, enabled, cap, c, qs[..|qs| - 1], qs[|qs| - 1]);
    }
  }

  // ---------- what a decision is ----------

  /** All that an approval needs: the mode is on and not suspended, the count is below the cap, and the
      command is whitelisted and stays in the workspace. */
  predicate Approvable(g: Counters, enabled: bool, cap: nat, c: Command) {
    enabled && !g.suspended && g.cycles < cap && c.safe && !c.divergent
  }

  /** What trips the mode: the cap is reached, or the command leaves the workspace. */
  predicate Trips(g: Counters, enabled: bool, cap: nat, c: Command) {
    enabled && !g.suspended && (g.cycles >= cap || c.divergent)
  }

  /** A command is approved if and only if it is approvable; the answer reports suspension if and only if
      the mode is on and suspended or tripped; only an approval counts, and only a trip suspends. */
  lemma DecisionExactly(g: Counters, enabled: bool, cap: nat, c: Command)
    ensures var (next, d) := Decide(g, enabled, cap, c);
            && (d.autoApproved <==> Approvable(g, enabled, cap, c))
            && (d.suspended <==> enabled && (g.suspended || Trips(g, enabled, cap, c)))
            && next.cycles == g.cycles + (if Approvable(g, enabled, cap, c) then 1 else 0)
            && (next.suspended <==> g.suspended || Trips(g, enabled, cap, c))
            && d.cycleCount == (if d.autoApproved then next.cycles
                                else if enabled && !g.suspended && g.cycles >= cap then g.cycles else 0)
  {
  }

  /** Request `i` of a run is approved. */
  predicate ApprovedAt(g: Counters, cap: nat, qs: seq<Request>, i: nat)
    requires i < |qs|
  {
    qs[i].Ask? && Decide(Handled(g, cap, qs[..i]), qs[i].enabled, cap, qs[i].command).1.autoApproved
  }

  /** Over every run: a request is approved if and only if the mode was on, its command was whitelisted
      and stayed in the workspace, nothing had tripped the mode since the last checkpoint, and fewer
      commands than the cap had been approved since. */
  lemma ApprovedExactly(cap: nat, qs: seq<Request>, i: nat)
    requires i < |qs|
    ensures var g0 := Counters(0, false);
            ApprovedAt(g0, cap, qs, i) <==>
            qs[i].Ask? && qs[i].enabled && qs[i].command.safe && !qs[i].command.divergent
            && ApprovedSinceCheckpoint(g0, cap, qs[..i]) < cap && !TrippedSinceCheckpoint(g0, cap, qs[..i])
  {
    var g0 := Counters(0, false);
    CapBetweenCheckpoints(cap, qs[..i]);
    SuspendedExactly(g0, cap, qs[..i]);
    if qs[i].Ask? { DecisionExactly(Handled(g0, cap, qs[..i]), qs[i].enabled, cap, qs[i].command); }
  }

  /** Some request since the last checkpoint tripped the mode. */
  predicate TrippedSinceCheckpoint(g: Counters, cap: nat, qs: seq<Request>) {
    if qs == [] then g.suspended
    else
      var prev, q := qs[..|qs| - 1], qs[|qs| - 1];
      q.Ask? && (TrippedSinceCheckpoint(g, cap, prev) || Trips(Handled(g, cap, prev), q.enabled, cap, q.command))
  }

  lemma {:induction false} SuspendedExactly(g: Counters, cap: nat, qs: seq<Request>)
    ensures Handled(g, cap, qs).suspended <==> TrippedSinceCheckpoint(g, cap, qs)
  {
    if qs != [] {
      var prev, q := qs[..|qs| - 1], qs[|qs| - 1];
      SuspendedExactly(g, cap, prev);
      if q.Ask? { DecisionExactly(Handled(g, cap, prev), q.enabled, cap, q.command); }
    }
  }

  predicate IsOn(q: Request) {
    q.Checkpoint? || q.enabled
  }

  /** Requests made while the mode is off leave no trace: a run ends as it would have without them. */
  lemma {:induction false} OffLeavesNoTrace(g: Counters, cap: nat, qs: seq<Request>)
    ensures Handled(g, cap, qs) == Handled(g, cap, Filter(qs, IsOn))
    ensures forall i :: 0 <= i < |qs| && !IsOn(qs[i]) ==> !ApprovedAt(g, cap, qs, i)
  {
    if qs != [] {
      var prev, q := qs[..|qs| - 1], qs[|qs| - 1];
      assert qs == prev + [q];
      OffLeavesNoTrace(g, cap, prev);
      FilterAppend(prev, q, IsOn);
      assert (Filter(prev, IsOn) + [q])[..|Filter(prev, IsOn)|] == Filter(prev, IsOn);
      forall i | 0 <= i < |qs| && !IsOn(qs[i])
        ensures !ApprovedAt(g, cap, qs, i)
      {
        DecisionExactly(Handled(g, cap, qs[..i]), qs[i].enabled, cap, qs[i].command);
      }
    }
  }

  // ---------- overlapping callers ----------

  /** Where a caller stands: it saw the mode not suspended; it saw the count below the cap with a
      safe command; or it has decided to suspend. */
  datatype Phase = Idle | Entered | Cleared | Tripping

  datatype Shared = Shared(counters: Counters, callers: seq<Phase>)

  datatype Step =
    | LoadSuspended(i: nat)
    | LoadCycles(i: nat, command: Command)
    | StoreSuspended(i: nat)
    | AddCycle(i: nat)

  predicate Enabled(s: Shared, t: Step) {
    && t.i < |s.callers|
    && match t
       case LoadSuspended(i) => s.callers[i] == Idle
       case LoadCycles(i, _) => s.callers[i] == Entered
       case StoreSuspended(i) => s.callers[i] == Tripping
       case AddCycle(i) => s.callers[i] == Cleared
  }

  function Apply(cap: nat, s: Shared, t: Step): Shared
    requires Enabled(s, t)
  {
    match t
    case LoadSuspended(i) =>
      if s.counters.suspended then s else s.(callers := s.callers[i := Entered])
    case LoadCycles(i, c) =>
      var next := if s.counters.cycles >= cap || c.divergent then Tripping else if c.safe then Cleared else Idle;
      s.(callers := s.callers[i := next])
    case StoreSuspended(i) =>
      Shared(s.counters.(suspended := true), s.callers[i := Idle])
    case AddCycle(i) =>
      Shared(s.counters.(cycles := s.counters.cycles + 1), s.callers[i := Idle])
  }

  /** The steps are all possible, in this order; `end` is where they lead. */
  ghost predicate Reaches(cap: nat, s: Shared, ts: seq<Step>, end: Shared) {
    if ts == [] then end == s
    else
      var prev, t := ts[..|ts| - 1], ts[|ts| - 1];
      exists mid :: Reaches(cap, s, prev, mid) && Enabled(mid, t) && end == Apply(cap, mid, t)
  }

  function Approvals(ts: seq<Step>): nat {
    if ts == [] then 0 else Approvals(ts[..|ts| - 1]) + if ts[|ts| - 1].AddCycle? then 1 else 0
  }

  ghost function Standing(s: Shared, p: Phase): nat {
    multiset(s.callers)[p]
  }

  lemma {:induction false} StandingBounded(callers: seq<Phase>)
    ensures var m := multiset(callers); m[Idle] + m[Entered] + m[Cleared] + m[Tripping] == |callers|
  {
    if callers == [] {
      assert multiset(callers) == multiset{};
    } else {
      var n := |callers| - 1;
      assert multiset(callers) == multiset(callers[..n]) + multiset{callers[n]} by {
        assert callers == callers[..n] + [callers[n]];
      }
      StandingBounded(callers[..n]);
      assert forall p :: multiset(callers)[p] == multiset(callers[..n])[p] + if p == callers[n] then 1 else 0;
    }
  }

  function AllIdle(k: nat): Shared {
    Shared(Counters(0, false), seq(k, _ => Idle))
  }

  lemma {:induction false} IdleHasNoOther(k: nat)
    ensures forall p :: p != Idle ==> Standing(AllIdle(k), p) == 0
  {
    forall p: Phase | p != Idle
      ensures Standing(AllIdle(k), p) == 0
    {
      assert p !in AllIdle(k).callers;
    }
  }

  /** How one step changes the standing of the callers: one leaves a phase and enters another. */
  lemma StepStanding(cap: nat, s: Shared, t: Step, p: Phase)
    requires Enabled(s, t)
    ensures var next := Apply(cap, s, t);
            && (next.callers == s.callers
                || (next.callers == s.callers[t.i := next.callers[t.i]]
                    && Standing(next, p) == Standing(s, p) + (if next.callers[t.i] == p then 1 else 0)
                                            - (if s.callers[t.i] == p then 1 else 0)))
  {
    var next := Apply(cap, s, t);
    if next.callers != s.callers {
      UpdateCounts(s.callers, t.i, next.callers[t.i], p);
    }
  }

  lemma UpdateCounts(callers: seq<Phase>, i: nat, q: Phase, p: Phase)
    requires i < |callers|
    ensures multiset(callers[i := q])[p] ==
            multiset(callers)[p] + (if q == p then 1 else 0) - (if callers[i] == p then 1 else 0)
  {
    assert callers == callers[..i] + [callers[i]] + callers[i + 1..];
    assert callers[i := q] == callers[..i] + [q] + callers[i + 1..];
  }

  /** The count and the cleared callers together stay below cap + callers. */
  ghost predicate Capped(cap: nat, s: Shared) {
    s.counters.cycles + Standing(s, Cleared) <= cap + |s.callers| - 1
  }

  lemma StepKeepsCap(cap: nat, s: Shared, t: Step)
    requires cap > 0 && s.callers != [] && Capped(cap, s) && Enabled(s, t)
    ensures |Apply(cap, s, t).callers| == |s.callers| && Capped(cap, Apply(cap, s, t))
    ensures Apply(cap, s, t).counters.cycles == s.counters.cycles + if t.AddCycle? then 1 else 0
  {
    StepStanding(cap, s, t, Cleared);
    StandingBounded(Apply(cap, s, t).callers);
  }

  /** Callers that have passed the cap test can only push the count `k - 1` past it. */
  lemma {:induction false} CapOvershoot(cap: nat, k: nat, ts: seq<Step>, end: Shared)
    requires cap > 0 && k > 0 && Reaches(cap, AllIdle(k), ts, end)
    ensures |end.callers| == k
    ensures end.counters.cycles == Approvals(ts)
    ensures end.counters.cycles + Standing(end, Cleared) <= cap + k - 1
  {
    if ts == [] {
      IdleHasNoOther(k);
    } else {
      var t := ts[|ts| - 1];
      var mid :| Reaches(cap, AllIdle(k), ts[..|ts| - 1], mid) && Enabled(mid, t) && end == Apply(cap, mid, t);
      CapOvershoot(cap, k, ts[..|ts| - 1], mid);
      StepKeepsCap(cap, mid, t);
    }
  }

  lemma StepWhenSuspended(cap: nat, s: Shared, t: Step)
    requires s.counters.suspended && Enabled(s, t)
    ensures var next := Apply(cap, s, t);
            && next.counters.suspended
            && Standing(next, Entered) + Standing(next, Cleared) + (if t.AddCycle? then 1 else 0) <=
               Standing(s, Entered) + Standing(s, Cleared)
  {
    StepStanding(cap, s, t, Entered);
    StepStanding(cap, s, t, Cleared);
  }

  /** From the moment the mode is suspended, only callers already past that test can still approve,
      once each: at most `k - 1`, and none when there is one caller. */
  lemma {:induction false} ApprovalsAfterSuspension(cap: nat, s: Shared, ts: seq<Step>, end: Shared)
    requires s.counters.suspended && Reaches(cap, s, ts, end)
    ensures end.counters.suspended
    ensures Approvals(ts) + Standing(end, Entered) + Standing(end, Cleared) <=
            Standing(s, Entered) + Standing(s, Cleared)
  {
    if ts != [] {
      var t := ts[|ts| - 1];
      var mid :| Reaches(cap, s, ts[..|ts| - 1], mid) && Enabled(mid, t) && end == Apply(cap, mid, t);
      ApprovalsAfterSuspension(cap, s, ts[..|ts| - 1], mid);
      StepWhenSuspended(cap, mid, t);
    }
  }

  lemma SuspenderLeavesFewer(cap: nat, s: Shared, i: nat, ts: seq<Step>, end: Shared)
    requires Enabled(s, StoreSuspended(i)) && Reaches(cap, Apply(cap, s, StoreSuspended(i)), ts, end)
    ensures Approvals(ts) <= |s.callers| - 1
  {
    var suspended := Apply(cap, s, StoreSuspended(i));
    ApprovalsAfterSuspension(cap, suspended, ts, end);
    StandingBounded(suspended.callers);
    assert suspended.callers[i] == Idle && multiset(suspended.callers)[Idle] > 0;
  }

  // ---------- what overlapping callers approve ----------

  /** Caller `i`'s last step was to look at the count with a command that is whitelisted and stays in the
      workspace. */
  ghost predicate LookedWithSafe(ts: seq<Step>, i: nat) {
    exists j :: 0 <= j < |ts| && ts[j].LoadCycles? && ts[j].i == i && ts[j].command.safe && !ts[j].command.divergent
                && forall k :: j < k < |ts| ==> ts[k].i != i
  }

  lemma LookedEarlier(ts: seq<Step>, t: Step, i: nat)
    requires LookedWithSafe(ts, i) && t.i != i
    ensures LookedWithSafe(ts + [t], i)
  {
    var j :| 0 <= j < |ts| && ts[j].LoadCycles? && ts[j].i == i && ts[j].command.safe && !ts[j].command.divergent
             && forall k :: j < k < |ts| ==> ts[k].i != i;
    assert (ts + [t])[j] == ts[j];
  }

  /** In every interleaving a caller about to approve got there by such a look: nothing else is approved. */
  lemma {:induction false} ClearedLooked(cap: nat, k: nat, ts: seq<Step>, end: Shared, i: nat)
    requires Reaches(cap, AllIdle(k), ts, end) && i < |end.callers| && end.callers[i] == Cleared
    ensures LookedWithSafe(ts, i)
  {
    assert ts == [] ==> end == AllIdle(k);
    if ts != [] {
      var prev, t := ts[..|ts| - 1], ts[|ts| - 1];
      var mid :| Reaches(cap, AllIdle(k), prev, mid) && Enabled(mid, t) && end == Apply(cap, mid, t);
      assert ts == prev + [t];
      if t.i == i {
        assert ts[|ts| - 1] == t;
      } else {
        ClearedLooked(cap, k, prev, mid, i);
        LookedEarlier(prev, t, i);
      }
    }
  }

  /** Every approval in every interleaving is of a whitelisted command that stays in the workspace. */
  lemma ApprovalsAreSafe(cap: nat, k: nat, ts: seq<Step>, mid: Shared, i: nat)
    requires Reaches(cap, AllIdle(k), ts, mid) && Enabled(mid, AddCycle(i))
    ensures LookedWithSafe(ts, i)
  {
    ClearedLooked(cap, k, ts, mid, i);
  }

  // ---------- the overshoot happens ----------

  lemma Extend(cap: nat, s: Shared, ts: seq<Step>, mid: Shared, t: Step)
    requires Reaches(cap, s, ts, mid) && Enabled(mid, t)
    ensures Reaches(cap, s, ts + [t], Apply(cap, mid, t))
    ensures Approvals(ts + [t]) == Approvals(ts) + if t.AddCycle? then 1 else 0
  {
    assert (ts + [t])[..|ts + [t]| - 1] == ts;
  }

  /** Caller 0 alone can take the count anywhere up to the cap. */
  lemma {:induction false} Alone(cap: nat, k: nat, n: nat) returns (ts: seq<Step>)
    requires k > 0 && n <= cap
    ensures Reaches(cap, AllIdle(k), ts, AllIdle(k).(counters := Counters(n, false)))
  {
    ts := [];
    if n > 0 {
      ts := Alone(cap, k, n - 1);
      var s := AllIdle(k).(counters := Counters(n - 1, false));
      var entered := Apply(cap, s, LoadSuspended(0));
      var cleared := Apply(cap, entered, LoadCycles(0, Command(false, true)));
      Extend(cap, AllIdle(k), ts, s, LoadSuspended(0));
      Extend(cap, AllIdle(k), ts + [LoadSuspended(0)], entered, LoadCycles(0, Command(false, true)));
      var t2 := ts + [LoadSuspended(0)] + [LoadCycles(0, Command(false, true))];
      Extend(cap, AllIdle(k), t2, cleared, AddCycle(0));
      assert Apply(cap, cleared, AddCycle(0)).callers == AllIdle(k).callers;
      ts := t2 + [AddCycle(0)];
    }
  }

  /** The first `m` of `k` callers have passed the cap test. */
  function Passed(k: nat, m: nat): seq<Phase> {
    seq(k, j => if j < m then Cleared else Idle)
  }

  /** One more caller passes it, while the count is below the cap. */
  lemma OnePasses(cap: nat, k: nat, m: nat, ts: seq<Step>) returns (more: seq<Step>)
    requires 0 < cap && m < k && Reaches(cap, AllIdle(k), ts, Shared(Counters(cap - 1, false), Passed(k, m)))
    ensures Reaches(cap, AllIdle(k), more, Shared(Counters(cap - 1, false), Passed(k, m + 1)))
  {
    var s := Shared(Counters(cap - 1, false), Passed(k, m));
    var entered := Apply(cap, s, LoadSuspended(m));
    var look := LoadCycles(m, Command(false, true));
    Extend(cap, AllIdle(k), ts, s, LoadSuspended(m));
    Extend(cap, AllIdle(k), ts + [LoadSuspended(m)], entered, look);
    assert Apply(cap, entered, look).callers == Passed(k, m + 1);
    more := ts + [LoadSuspended(m)] + [look];
  }

  /** The first `m` callers pass the cap test together. */
  lemma {:induction false} Together(cap: nat, k: nat, m: nat) returns (ts: seq<Step>)
    requires 0 < cap && m <= k && k > 0
    ensures Reaches(cap, AllIdle(k), ts, Shared(Counters(cap - 1, false), Passed(k, m)))
  {
    if m == 0 {
      ts := Alone(cap, k, cap - 1);
      assert Passed(k, 0) == AllIdle(k).callers;
    } else {
      ts := Together(cap, k, m - 1);
      ts := OnePasses(cap, k, m - 1, ts);
    }
  }

  /** Then all but the first `m` of them approve. */
  lemma {:induction false} Rush(cap: nat, k: nat, m: nat) returns (ts: seq<Step>)
    requires 0 < cap && m <= k && k > 0
    ensures Reaches(cap, AllIdle(k), ts, Shared(Counters(cap - 1 + k - m, false), Passed(k, m)))
    decreases k - m
  {
    if m == k {
      ts := Together(cap, k, k);
    } else {
      var s := Shared(Counters(cap - 1 + k - (m + 1), false), Passed(k, m + 1));
      ts := Rush(cap, k, m + 1);
      Extend(cap, AllIdle(k), ts, s, AddCycle(m));
      assert Apply(cap, s, AddCycle(m)).callers == Passed(k, m);
      ts := ts + [AddCycle(m)];
    }
  }

  /** `k` overlapping callers can approve cap + k - 1 cycles: the cap is not exact under overlap. */
  lemma OvershootIsReached(cap: nat, k: nat) returns (ts: seq<Step>, end: Shared)
    requires 0 < cap && k > 0
    ensures Reaches(cap, AllIdle(k), ts, end) && end.counters.cycles == Approvals(ts) == cap + k - 1
  {
    ts := Rush(cap, k, 0);
    end := Shared(Counters(cap - 1 + k, false), Passed(k, 0));
    CapOvershoot(cap, k, ts, end);
  }

  // ---------- one caller's steps are a decision ----------

  /** Run without interruption, a caller's atomic steps have the effect of one whole decision. */
  lemma UninterruptedSteps(cap: nat, s: Shared, i: nat, c: Command) returns (ts: seq<Step>, end: Shared)
    requires i < |s.callers| && s.callers[i] == Idle
    ensures Reaches(cap, s, ts, end) && end.callers == s.callers
    ensures end.counters == Decide(s.counters, true, cap, c).0
    ensures Approvals(ts) == if Decide(s.counters, true, cap, c).1.autoApproved then 1 else 0
  {
    ts, end := [], s;
    if !s.counters.suspended {
      var entered := Apply(cap, s, LoadSuspended(i));
      Extend(cap, s, [], s, LoadSuspended(i));
      var looked := Apply(cap, entered, LoadCycles(i, c));
      Extend(cap, s, [] + [LoadSuspended(i)], entered, LoadCycles(i, c));
      ts, end := [] + [LoadSuspended(i)] + [LoadCycles(i, c)], looked;
      if looked.callers[i] != Idle {
        var last := if looked.callers[i] == Tripping then StoreSuspended(i) else AddCycle(i);
        Extend(cap, s, ts, looked, last);
        ts, end := ts + [last], Apply(cap, looked, last);
      }
    }
  }
}
