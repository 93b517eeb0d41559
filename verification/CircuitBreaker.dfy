/** The circuit breaker in front of the JSON-RPC handler. The check before a handler runs and the
    bookkeeping after it are separate critical sections, so handlers may overlap. */
module CircuitBreaker {
  import opened Wrappers

  const THRESHOLD := 5
  const COOL_DOWN := 30.0

  datatype Breaker = Breaker(errors: nat, resetAt: Option<real>)

  const CLOSED := Breaker(0, None)

  /** The first critical section: `now` and `later` are its two clock readings. */
  function Check(b: Breaker, now: real, later: real): (Breaker, bool) {
    if b.errors < THRESHOLD then (b, true)
    else if b.resetAt.None? then (b.(resetAt := Some(later + COOL_DOWN)), false)
    else if now > b.resetAt.value then (CLOSED, true)
    else (b, false)
  }

  /** The second critical section; a panic in the handler counts as a failure. */
  function Record(b: Breaker, failed: bool): Breaker {
    b.(errors := if failed then b.errors + 1 else 0)
  }

  class MCPServer {
    var consecutiveErrors: nat
    var cbResetAt: Option<real>

    function State(): Breaker
      reads this
    {
      Breaker(consecutiveErrors, cbResetAt)
    }

    constructor ()
      ensures State() == CLOSED
    {
      consecutiveErrors, cbResetAt := 0, None;
    }

    method CheckBreaker(now: real, later: real) returns (admitted: bool)
      modifies this
      ensures State() == Check(old(State()), now, later).0
      ensures admitted == Check(old(State()), now, later).1
    {
      if consecutiveErrors >= THRESHOLD && cbResetAt.Some? && now > cbResetAt.value {
        consecutiveErrors := 0;
        cbResetAt := None;
      }
      if consecutiveErrors >= THRESHOLD {
        if cbResetAt.None? {
          cbResetAt := Some(later + COOL_DOWN);
        }
        return false;
      }
      return true;
    }

    method RecordOutcome(failed: bool)
      modifies this
      ensures State() == Record(old(State()), failed)
    {
      if failed {
        consecutiveErrors := consecutiveErrors + 1;
      } else {
        consecutiveErrors := 0;
      }
    }

    /** A request that nothing overlaps; `fails` says what its handler would do. */
    method HandleMessage(q: Request) returns (admitted: bool)
      modifies this
      ensures State() == Serve(old(State()), q)
      ensures admitted == Check(old(State()), q.now, q.later).1
    {
      admitted := CheckBreaker(q.now, q.later);
      if admitted {
        RecordOutcome(q.fails);
      }
    }
  }

  // ---------- overlapping requests ----------

  /** The breaker and the identities of the requests whose handler is running. */
  datatype Server = Server(breaker: Breaker, running: set<nat>)

  datatype Event = Arrive(id: nat, now: real, later: real) | Finish(id: nat, failed: bool)

  const IDLE := Server(CLOSED, {})

  /** At most `k` requests are ever in flight. */
  predicate Enabled(k: nat, s: Server, e: Event) {
    match e
    case Arrive(id, _, _) => id !in s.running && |s.running| < k
    case Finish(id, _) => id in s.running
  }

  function Apply(s: Server, e: Event): Server {
    match e
    case Arrive(id, now, later) =>
      var (b, admitted) := Check(s.breaker, now, later);
      Server(b, if admitted then s.running + {id} else s.running)
    case Finish(id, failed) => Server(Record(s.breaker, failed), s.running - {id})
  }

  function After(s: Server, es: seq<Event>): Server {
    if es == [] then s else Apply(After(s, es[..|es| - 1]), es[|es| - 1])
  }

  ghost predicate Legal(k: nat, s: Server, es: seq<Event>) {
    es == [] || (Legal(k, s, es[..|es| - 1]) && Enabled(k, After(s, es[..|es| - 1]), es[|es| - 1]))
  }

  /** The counter and the running handlers together stay below the threshold plus `k`. */
  predicate Bounded(k: nat, s: Server) {
    |s.running| <= k && s.breaker.errors + |s.running| <= THRESHOLD - 1 + k
  }

  lemma ArrivalKeepsBound(k: nat, s: Server, id: nat, now: real, later: real)
    requires Bounded(k, s) && id !in s.running && |s.running| < k
    ensures Bounded(k, Apply(s, Arrive(id, now, later)))
  {
    assert |s.running + {id}| == |s.running| + 1;
  }

  lemma FinishKeepsBound(k: nat, s: Server, id: nat, failed: bool)
    requires Bounded(k, s) && id in s.running
    ensures Bounded(k, Apply(s, Finish(id, failed)))
  {
    assert |s.running - {id}| == |s.running| - 1;
  }

  /** However checks, failures, successes and recoveries interleave, that bound holds. */
  lemma {:induction false} OvershootBound(k: nat, es: seq<Event>)
    requires Legal(k, IDLE, es)
    ensures var s := After(IDLE, es);
            |s.running| <= k && s.breaker.errors + |s.running| <= 4 + k
  {
    if es == [] {
      assert |IDLE.running| == 0;
    } else {
      var s := After(IDLE, es[..|es| - 1]);
      OvershootBound(k, es[..|es| - 1]);
      match es[|es| - 1]
      case Arrive(id, now, later) => ArrivalKeepsBound(k, s, id, now, later);
      case Finish(id, failed) => FinishKeepsBound(k, s, id, failed);
    }
  }

  lemma {:induction false} AfterConcat(k: nat, s: Server, xs: seq<Event>, ys: seq<Event>)
    ensures After(s, xs + ys) == After(After(s, xs), ys)
    ensures Legal(k, s, xs + ys) <==> Legal(k, s, xs) && Legal(k, After(s, xs), ys)
  {
    if ys == [] {
      assert xs + ys == xs;
    } else {
      AfterConcat(k, s, xs, ys[..|ys| - 1]);
      assert (xs + ys)[..|xs + ys| - 1] == xs + ys[..|ys| - 1];
    }
  }

  lemma AfterOne(k: nat, s: Server, e: Event)
    ensures After(s, [e]) == Apply(s, e) && (Legal(k, s, [e]) <==> Enabled(k, s, e))
  {
    assert [e][..0] == [];
    assert After(s, []) == s;
  }

  function Below(n: nat): (ids: set<nat>)
    ensures |ids| == n && forall i :: i in ids <==> 0 <= i < n
  {
    if n == 0 then {} else Below(n - 1) + {n - 1}
  }

  /** `n` requests are admitted at once. */
  lemma {:induction false} Burst(k: nat, e: nat, n: nat) returns (es: seq<Event>)
    requires e < THRESHOLD && n <= k
    ensures Legal(k, Server(Breaker(e, None), {}), es)
    ensures After(Server(Breaker(e, None), {}), es) == Server(Breaker(e, None), Below(n))
  {
    var s := Server(Breaker(e, None), {});
    es := [];
    if n > 0 {
      var before := Burst(k, e, n - 1);
      var last := Arrive(n - 1, 0.0, 0.0);
      AfterConcat(k, s, before, [last]);
      AfterOne(k, After(s, before), last);
      es := before + [last];
    }
  }

  lemma OneFails(k: nat, e: nat, m: nat)
    ensures var s := Server(Breaker(e, None), Below(m + 1));
            Enabled(k, s, Finish(m, true)) && Apply(s, Finish(m, true)) == Server(Breaker(e + 1, None), Below(m))
  {
    assert Below(m + 1) - {m} == Below(m);
  }

  /** Of `n` running requests, all but the first `m` fail. */
  lemma {:induction false} AllFail(k: nat, e: nat, m: nat, n: nat) returns (es: seq<Event>)
    requires m <= n
    ensures Legal(k, Server(Breaker(e, None), Below(n)), es)
    ensures After(Server(Breaker(e, None), Below(n)), es) == Server(Breaker(e + n - m, None), Below(m))
    decreases n - m
  {
    var s := Server(Breaker(e, None), Below(n));
    es := [];
    if m < n {
      var before := AllFail(k, e, m + 1, n);
      var last := Finish(m, true);
      AfterConcat(k, s, before, [last]);
      AfterOne(k, After(s, before), last);
      OneFails(k, e + n - m - 1, m);
      es := before + [last];
    }
  }

  lemma OneMore(k: nat, es: seq<Event>, s: Server, e: Event)
    requires Legal(k, IDLE, es) && After(IDLE, es) == s && Enabled(k, s, e)
    ensures Legal(k, IDLE, es + [e]) && After(IDLE, es + [e]) == Apply(s, e)
  {
    assert (es + [e])[..|es|] == es;
  }

  /** `n` requests, one after the other, all fail. */
  lemma {:induction false} FailuresInSequence(k: nat, n: nat) returns (es: seq<Event>)
    requires k >= 1 && n <= THRESHOLD
    ensures Legal(k, IDLE, es) && After(IDLE, es) == Server(Breaker(n, None), {})
  {
    es := [];
    if n > 0 {
      es := FailuresInSequence(k, n - 1);
      OneMore(k, es, Server(Breaker(n - 1, None), {}), Arrive(0, 0.0, 0.0));
      es := es + [Arrive(0, 0.0, 0.0)];
      OneMore(k, es, Server(Breaker(n - 1, None), {0}), Finish(0, true));
      es := es + [Finish(0, true)];
    }
  }

  /** The bound is reached: after four failures, `k` overlapping requests push the counter to 4 + k. */
  lemma OvershootIsReached(k: nat) returns (es: seq<Event>)
    requires k >= 1
    ensures Legal(k, IDLE, es) && After(IDLE, es).breaker.errors == 4 + k
  {
    var before := FailuresInSequence(k, THRESHOLD - 1);
    var burst := Burst(k, THRESHOLD - 1, k);
    var failures := AllFail(k, THRESHOLD - 1, 0, k);
    AfterConcat(k, IDLE, before, burst);
    AfterConcat(k, IDLE, before + burst, failures);
    es := before + burst + failures;
  }

  /** Event `i` is a veto that started the cool-down ending at `r`. */
  ghost predicate StartsCoolDown(es: seq<Event>, i: nat, r: real)
    requires i < |es|
  {
    && es[i].Arrive? && es[i].later + COOL_DOWN == r
    && !Check(After(IDLE, es[..i]).breaker, es[i].now, es[i].later).1
  }

  lemma {:induction false} DeadlineComesFromAVeto(es: seq<Event>) returns (i: nat)
    ensures After(IDLE, es).breaker.resetAt.Some? ==>
              i < |es| && StartsCoolDown(es, i, After(IDLE, es).breaker.resetAt.value)
  {
    i := 0;
    if es != [] {
      var prev, e := es[..|es| - 1], es[|es| - 1];
      i := DeadlineComesFromAVeto(prev);
      if After(IDLE, es).breaker.resetAt.Some? {
        if After(IDLE, prev).breaker.resetAt == After(IDLE, es).breaker.resetAt {
          assert prev[..i] == es[..i];
        } else {
          i := |es| - 1;
        }
      }
    }
  }

  /** A handler is admitted only with the counter below five, or, in which case the counter
      restarts from zero, more than 30 s after some request was vetoed. */
  lemma AdmissionNeedsCoolDown(es: seq<Event>, id: nat, now: real, later: real) returns (i: nat)
    requires Check(After(IDLE, es).breaker, now, later).1
    ensures Check(After(IDLE, es).breaker, now, later).0.errors < 5
    ensures After(IDLE, es).breaker.errors >= 5 ==>
              && Check(After(IDLE, es).breaker, now, later).0 == CLOSED
              && i < |es| && StartsCoolDown(es, i, After(IDLE, es).breaker.resetAt.value)
              && now > es[i].later + 30.0
  {
    i := DeadlineComesFromAVeto(es);
  }

  /** A deadline is pending only while the breaker is open. */
  predicate Aligned(b: Breaker) {
    b.resetAt.Some? ==> b.errors >= THRESHOLD
  }

  /** Overlap breaks that: an event keeps the deadline aligned exactly when it is not a success
      recorded while a deadline is pending. */
  lemma AlignmentLost(s: Server, e: Event)
    requires Aligned(s.breaker)
    ensures Aligned(Apply(s, e).breaker) <==> !(e.Finish? && !e.failed && s.breaker.resetAt.Some?)
  {
  }

  /** It happens: after four failures two requests are admitted; one fails, a third is vetoed, and the
      other succeeds. The counter is zero and the deadline is still pending. */
  lemma StaleDeadlineArises() returns (es: seq<Event>)
    ensures Legal(2, IDLE, es) && !Aligned(After(IDLE, es).breaker)
    ensures After(IDLE, es) == Server(Breaker(0, Some(COOL_DOWN)), {})
  {
    var failures := FailuresInSequence(2, THRESHOLD - 1);
    var burst := Burst(2, THRESHOLD - 1, 2);
    var two := Server(Breaker(THRESHOLD - 1, None), Below(2));
    var one := Server(Breaker(THRESHOLD, None), {0});
    var vetoed := Server(Breaker(THRESHOLD, Some(COOL_DOWN)), {0});
    assert Below(2) == {0, 1};
    AfterConcat(2, IDLE, failures, burst);
    es := failures + burst;
    assert Apply(two, Finish(1, true)) == one;
    OneMore(2, es, two, Finish(1, true));
    es := es + [Finish(1, true)];
    assert Apply(one, Arrive(2, 0.0, 0.0)) == vetoed;
    OneMore(2, es, one, Arrive(2, 0.0, 0.0));
    es := es + [Arrive(2, 0.0, 0.0)];
    OneMore(2, es, vetoed, Finish(0, false));
    es := es + [Finish(0, false)];
  }

  /** The event is a recovery: an arrival after a deadline that is pending with the breaker open. */
  predicate Recovers(s: Server, e: Event) {
    e.Arrive? && s.breaker.errors >= THRESHOLD && s.breaker.resetAt.Some? && e.now > s.breaker.resetAt.value
  }

  ghost predicate NoRecovery(s: Server, es: seq<Event>) {
    forall i :: 0 <= i < |es| ==> !Recovers(After(s, es[..i]), es[i])
  }

  /** A pending deadline outlives everything but a recovery: whatever fails, succeeds or is vetoed in the
      meantime, it stays as it is, and an arrival is admitted if and only if the counter is below five or
      that deadline has passed. */
  lemma {:induction false} DeadlineOutlives(s: Server, es: seq<Event>, now: real, later: real)
    requires s.breaker.resetAt.Some? && NoRecovery(s, es)
    ensures After(s, es).breaker.resetAt == s.breaker.resetAt
    ensures Check(After(s, es).breaker, now, later).1 <==>
            After(s, es).breaker.errors < 5 || now > s.breaker.resetAt.value
  {
    if es != [] {
      var n := |es| - 1;
      var prev := es[..n];
      forall i | 0 <= i < |prev|
        ensures !Recovers(After(s, prev[..i]), prev[i])
      {
        assert prev[..i] == es[..i] && prev[i] == es[i];
      }
      DeadlineOutlives(s, prev, now, later);
      assert !Recovers(After(s, es[..n]), es[n]);
    }
  }

  /** So a deadline left behind is taken for the next trip's: once it has passed, however the breaker was
      tripped again, the first arrival is not vetoed. */
  lemma StaleDeadlineSkipsVeto(s: Server, es: seq<Event>, now: real, later: real)
    requires s.breaker.resetAt.Some? && NoRecovery(s, es) && After(s, es).breaker.errors >= THRESHOLD
    ensures Check(After(s, es).breaker, now, later) == (CLOSED, true) <==> now > s.breaker.resetAt.value
  {
    DeadlineOutlives(s, es, now, later);
  }

  // ---------- requests that do not overlap ----------

  datatype Request = Request(now: real, later: real, fails: bool)

  function Serve(b: Breaker, q: Request): Breaker {
    var (checked, admitted) := Check(b, q.now, q.later);
    if admitted then Record(checked, q.fails) else checked
  }

  function Served(qs: seq<Request>): Breaker {
    if qs == [] then CLOSED else Serve(Served(qs[..|qs| - 1]), qs[|qs| - 1])
  }

  predicate Admitted(qs: seq<Request>, i: nat)
    requires i < |qs|
  {
    Check(Served(qs[..i]), qs[i].now, qs[i].later).1
  }

  /** Without overlap the counter never passes five, and a deadline is pending only at five. */
  lemma {:induction false} SequentialInvariant(qs: seq<Request>)
    ensures Served(qs).errors <= THRESHOLD
    ensures Served(qs).resetAt.Some? ==> Served(qs).errors == THRESHOLD
  {
    if qs != [] { SequentialInvariant(qs[..|qs| - 1]); }
  }

  /** The counter is a streak: when the last request was admitted, the last `n` requests all were,
      and all failed; in particular the breaker opens only after five failures in a row. */
  lemma {:induction false} CounterCountsFailures(qs: seq<Request>, n: nat)
    requires Served(qs).errors == n && (qs == [] || Admitted(qs, |qs| - 1))
    ensures n <= |qs| && forall m :: |qs| - n <= m < |qs| ==> Admitted(qs, m) && qs[m].fails
  {
    if n > 0 {
      var prev := qs[..|qs| - 1];
      SequentialInvariant(prev);
      if n > 1 {
        assert Served(prev).errors == n - 1;
        CounterCountsFailures(prev, n - 1);
        forall m | |qs| - n <= m < |prev|
          ensures Admitted(qs, m) && qs[m].fails
        {
          assert prev[..m] == qs[..m];
        }
      }
    }
  }

  /** From the first veto on, the breaker stays as that veto left it while requests are vetoed. */
  lemma {:induction false} VetoesKeepDeadline(qs: seq<Request>, i: nat, j: nat)
    requires i < j <= |qs|
    requires !Admitted(qs, i) && (i > 0 ==> Admitted(qs, i - 1))
    requires forall m :: i < m < j ==> !Admitted(qs, m)
    ensures Served(qs[..j]) == Breaker(5, Some(qs[i].later + 30.0))
    decreases j
  {
    assert qs[..j][..j - 1] == qs[..j - 1];
    SequentialInvariant(qs[..i]);
    if j == i + 1 {
      if i > 0 {
        assert qs[..i][..i - 1] == qs[..i - 1];
        SequentialInvariant(qs[..i - 1]);
      }
    } else {
      VetoesKeepDeadline(qs, i, j - 1);
      assert !Admitted(qs, j - 1);
    }
  }

  /** The first request to run after a trip is the first one that arrives more than 30 s after
      the first vetoed request. */
  lemma CoolDownIsExact(qs: seq<Request>, i: nat, j: nat)
    requires i < j < |qs|
    requires !Admitted(qs, i) && (i > 0 ==> Admitted(qs, i - 1))
    requires forall m :: i < m < j ==> !Admitted(qs, m)
    ensures Admitted(qs, j) <==> qs[j].now > qs[i].later + 30.0
  {
    VetoesKeepDeadline(qs, i, j);
  }

  /** How many requests at the end of a run were all admitted and all failed. */
  function Streak(qs: seq<Request>): nat {
    if qs == [] || !Admitted(qs, |qs| - 1) || !qs[|qs| - 1].fails then 0 else Streak(qs[..|qs| - 1]) + 1
  }

  lemma {:induction false} StreakIsCounter(qs: seq<Request>)
    requires qs == [] || Admitted(qs, |qs| - 1)
    ensures Served(qs) == Breaker(Streak(qs), None)
  {
    if qs != [] {
      var prev := qs[..|qs| - 1];
      SequentialInvariant(prev);
      if prev == [] || Admitted(prev, |prev| - 1) { StreakIsCounter(prev); } else { VetoLeavesDeadline(prev); }
    }
  }

  lemma VetoLeavesDeadline(qs: seq<Request>)
    requires qs != [] && !Admitted(qs, |qs| - 1)
    ensures Served(qs).errors >= 5 && Served(qs).resetAt.Some? && Streak(qs) == 0
  {
  }

  /** After an admitted request the next one is vetoed if and only if at least five admitted requests in a
      row have just failed, whatever the time. */
  lemma TripsExactly(qs: seq<Request>, q: Request)
    requires qs == [] || Admitted(qs, |qs| - 1)
    ensures Check(Served(qs), q.now, q.later).1 <==> Streak(qs) < 5
  {
    StreakIsCounter(qs);
  }
}
