/** Parallel cache warm-up: one goroutine for each (target, handler) pair, a semaphore of four,
    shared counters, and one result slot for each job. */
module CacheWarmup {
  import opened Wrappers

  datatype Job = Job(handler: string, target: string)
  datatype Row = Row(job: Job, failed: bool)

  const MAX_CONCURRENT := 4

  // ---------- the jobs ----------

  function JobsOf(target: string, handlers: seq<string>): seq<Job> {
    seq(|handlers|, h requires 0 <= h < |handlers| => Job(handlers[h], target))
  }

  /** The cross product in launch order. */
  function Jobs(targets: seq<string>, handlers: seq<string>): seq<Job> {
    if targets == [] then [] else Jobs(targets[..|targets| - 1], handlers) + JobsOf(targets[|targets| - 1], handlers)
  }

  /** Every pair has exactly one slot: slot t * handlers + h. */
  lemma {:induction false} JobAt(targets: seq<string>, handlers: seq<string>, t: nat, h: nat)
    requires t < |targets| && h < |handlers|
    ensures |Jobs(targets, handlers)| == |targets| * |handlers|
    ensures 0 <= t * |handlers| + h < |Jobs(targets, handlers)|
    ensures Jobs(targets, handlers)[t * |handlers| + h] == Job(handlers[h], targets[t])
    decreases |targets|
  {
    var n, prev := |targets| - 1, targets[..|targets| - 1];
    JobCount(prev, handlers);
    if t < n {
      JobAt(prev, handlers, t, h);
    }
  }

  lemma OneMore(n: nat, h: nat)
    ensures (n + 1) * h == n * h + h
  {
  }

  lemma {:induction false} JobCount(targets: seq<string>, handlers: seq<string>)
    ensures |Jobs(targets, handlers)| == |targets| * |handlers|
  {
    if targets != [] {
      var n := |targets| - 1;
      JobCount(targets[..n], handlers);
      OneMore(n, |handlers|);
    }
  }

  /** The launching loop: job `i` is handed slot `i`. */
  method Launch(targets: seq<string>, handlers: seq<string>) returns (jobs: seq<Job>)
    ensures jobs == Jobs(targets, handlers)
    ensures |jobs| == |targets| * |handlers|
  {
    jobs := [];
    for t := 0 to |targets|
      invariant jobs == Jobs(targets[..t], handlers)
    {
      ghost var done := jobs;
      for h := 0 to |handlers|
        invariant jobs == done + JobsOf(targets[t], handlers)[..h]
      {
        jobs := jobs + [Job(handlers[h], targets[t])];
      }
      assert targets[..t + 1][..t] == targets[..t];
    }
    assert targets[..|targets|] == targets;
    JobCount(targets, handlers);
  }

  // ---------- the goroutines as interleaved steps ----------

  /** A goroutine waits for the semaphore, runs its handler, bumps a counter, writes its slot,
      releases the semaphore, and reports to the wait group. */
  datatype Phase =
    | Waiting
    | Running
    | Counted(failed: bool)
    | Written(failed: bool)
    | Released(failed: bool)
    | Finished(failed: bool)

  datatype Batch =
    Batch(phases: seq<Phase>, sem: nat, successes: nat, failures: nat, results: seq<Option<Row>>, pending: nat)

  datatype Step = Acquire(i: nat) | Count(i: nat, failed: bool) | Write(i: nat) | Release(i: nat) | Done(i: nat)

  function Start(n: nat): Batch {
    Batch(seq(n, _ => Waiting), 0, 0, 0, seq(n, _ => None), n)
  }

  predicate Enabled(b: Batch, s: Step) {
    && s.i < |b.phases|
    && match s
       case Acquire(i) => b.phases[i] == Waiting && b.sem < MAX_CONCURRENT
       case Count(i, _) => b.phases[i] == Running
       case Write(i) => b.phases[i].Counted?
       case Release(i) => b.phases[i].Written?
       case Done(i) => b.phases[i].Released?
  }

  function Apply(jobs: seq<Job>, b: Batch, s: Step): Batch
    requires Enabled(b, s) && |jobs| == |b.results| == |b.phases|
  {
    var p := b.phases[s.i];
    match s
    case Acquire(i) => b.(phases := b.phases[i := Running], sem := b.sem + 1)
    case Count(i, failed) =>
      b.(phases := b.phases[i := Counted(failed)],
         successes := b.successes + (if failed then 0 else 1), failures := b.failures + (if failed then 1 else 0))
    case Write(i) =>
      b.(phases := b.phases[i := Written(p.failed)], results := b.results[i := Some(Row(jobs[i], p.failed))])
    case Release(i) =>
      b.(phases := b.phases[i := Released(p.failed)], sem := if b.sem > 0 then b.sem - 1 else 0)
    case Done(i) =>
      b.(phases := b.phases[i := Finished(p.failed)], pending := if b.pending > 0 then b.pending - 1 else 0)
  }

  ghost predicate Reaches(jobs: seq<Job>, steps: seq<Step>, end: Batch) {
    if steps == [] then end == Start(|jobs|)
    else
      var prev, s := steps[..|steps| - 1], steps[|steps| - 1];
      exists mid :: Reaches(jobs, prev, mid) && |mid.results| == |mid.phases| == |jobs|
                    && Enabled(mid, s) && end == Apply(jobs, mid, s)
  }

  // ---------- counting goroutines ----------

  function Num(ps: seq<Phase>, f: Phase -> nat): nat {
    if ps == [] then 0 else Num(ps[..|ps| - 1], f) + f(ps[|ps| - 1])
  }

  lemma {:induction false} NumUpdate(ps: seq<Phase>, i: nat, p: Phase, f: Phase -> nat)
    requires i < |ps|
    ensures Num(ps[i := p], f) == Num(ps, f) - f(ps[i]) + f(p)
  {
    var n := |ps| - 1;
    if i < n {
      NumUpdate(ps[..n], i, p, f);
      assert ps[i := p][..n] == ps[..n][i := p];
    } else {
      assert ps[i := p][..n] == ps[..n];
    }
  }

  lemma {:induction false} NumConstant(ps: seq<Phase>, f: Phase -> nat, c: nat)
    requires forall p :: p in ps ==> f(p) == c
    ensures Num(ps, f) == c * |ps|
  {
    if ps != [] { NumConstant(ps[..|ps| - 1], f, c); }
  }

  function Holds(p: Phase): nat { if p.Running? || p.Counted? || p.Written? then 1 else 0 }
  function Succeeded(p: Phase): nat { if p.Waiting? || p.Running? || p.failed then 0 else 1 }
  function Failed(p: Phase): nat { if p.Waiting? || p.Running? || !p.failed then 0 else 1 }
  function Reporting(p: Phase): nat { if p.Finished? then 0 else 1 }
  function Left(p: Phase): nat {
    match p
    case Waiting => 5
    case Running => 4
    case Counted(_) => 3
    case Written(_) => 2
    case Released(_) => 1
    case Finished(_) => 0
  }
  function CountedAtAll(p: Phase): nat { Succeeded(p) + Failed(p) }

  // ---------- what every interleaving keeps ----------

  ghost predicate Inv(jobs: seq<Job>, b: Batch) {
    && |b.phases| == |b.results| == |jobs|
    && b.sem == Num(b.phases, Holds) <= MAX_CONCURRENT
    && b.successes == Num(b.phases, Succeeded)
    && b.failures == Num(b.phases, Failed)
    && b.pending == Num(b.phases, Reporting)
    && forall i :: 0 <= i < |jobs| ==> b.results[i] == Outcome(jobs[i], b.phases[i])
  }

  function Outcome(job: Job, p: Phase): Option<Row> {
    if p.Written? || p.Released? || p.Finished? then Some(Row(job, p.failed)) else None
  }

  lemma {:induction false} MemberCounts(ps: seq<Phase>, i: nat, f: Phase -> nat)
    requires i < |ps|
    ensures Num(ps, f) >= f(ps[i])
  {
    if i < |ps| - 1 { MemberCounts(ps[..|ps| - 1], i, f); }
  }

  function Next(b: Batch, s: Step): Phase
    requires Enabled(b, s)
  {
    match s
    case Acquire(_) => Running
    case Count(_, failed) => Counted(failed)
    case Write(i) => Written(b.phases[i].failed)
    case Release(i) => Released(b.phases[i].failed)
    case Done(i) => Finished(b.phases[i].failed)
  }

  lemma StepKeepsSemaphore(jobs: seq<Job>, b: Batch, s: Step)
    requires Inv(jobs, b) && Enabled(b, s)
    ensures Apply(jobs, b, s).phases == b.phases[s.i := Next(b, s)]
    ensures Apply(jobs, b, s).sem == Num(b.phases[s.i := Next(b, s)], Holds) <= MAX_CONCURRENT
  {
    NumUpdate(b.phases, s.i, Next(b, s), Holds);
    MemberCounts(b.phases, s.i, Holds);
  }

  lemma StepKeepsCounters(jobs: seq<Job>, b: Batch, s: Step)
    requires Inv(jobs, b) && Enabled(b, s)
    ensures var c := Apply(jobs, b, s);
            var ps := b.phases[s.i := Next(b, s)];
            c.successes == Num(ps, Succeeded) && c.failures == Num(ps, Failed) && c.pending == Num(ps, Reporting)
  {
    NumUpdate(b.phases, s.i, Next(b, s), Succeeded);
    NumUpdate(b.phases, s.i, Next(b, s), Failed);
    NumUpdate(b.phases, s.i, Next(b, s), Reporting);
    MemberCounts(b.phases, s.i, Reporting);
  }

  lemma StepKeepsSlots(jobs: seq<Job>, b: Batch, s: Step)
    requires Inv(jobs, b) && Enabled(b, s)
    ensures var c := Apply(jobs, b, s);
            |c.phases| == |c.results| == |jobs|
            && forall i :: 0 <= i < |jobs| ==> c.results[i] == Outcome(jobs[i], c.phases[i])
  {
  }

  lemma StepKeepsInv(jobs: seq<Job>, b: Batch, s: Step)
    requires Inv(jobs, b) && Enabled(b, s)
    ensures Inv(jobs, Apply(jobs, b, s))
    ensures Num(Apply(jobs, b, s).phases, Left) == Num(b.phases, Left) - 1
    ensures s.Write? ==> b.results[s.i].None?
  {
    NumUpdate(b.phases, s.i, Next(b, s), Left);
    StepKeepsSemaphore(jobs, b, s);
    StepKeepsCounters(jobs, b, s);
    StepKeepsSlots(jobs, b, s);
  }

  /** In every interleaving at most four handlers run, no slot is written twice, and the steps
      taken and still to take always add up to five for each job. */
  lemma {:induction false} EveryRunKeepsInv(jobs: seq<Job>, steps: seq<Step>, end: Batch)
    requires Reaches(jobs, steps, end)
    ensures Inv(jobs, end)
    ensures |steps| + Num(end.phases, Left) == 5 * |jobs|
  {
    if steps == [] {
      NumConstant(end.phases, Holds, 0);
      NumConstant(end.phases, Succeeded, 0);
      NumConstant(end.phases, Failed, 0);
      NumConstant(end.phases, Reporting, 1);
      NumConstant(end.phases, Left, 5);
    } else {
      var prev, s := steps[..|steps| - 1], steps[|steps| - 1];
      var mid :| Reaches(jobs, prev, mid) && |mid.results| == |mid.phases| == |jobs|
                 && Enabled(mid, s) && end == Apply(jobs, mid, s);
      EveryRunKeepsInv(jobs, prev, mid);
      StepKeepsInv(jobs, mid, s);
    }
  }

  /** Handlers running at the same time. */
  lemma AtMostFourRun(jobs: seq<Job>, steps: seq<Step>, end: Batch)
    requires Reaches(jobs, steps, end)
    ensures Num(end.phases, (p: Phase) => if p.Running? then 1 else 0) <= 4
  {
    EveryRunKeepsInv(jobs, steps, end);
    NumMonotone(end.phases, (p: Phase) => if p.Running? then 1 else 0, Holds);
  }

  /** In every interleaving a waiting job can start if and only if fewer than four others have started and not
      yet released the semaphore. */
  lemma StartsExactly(jobs: seq<Job>, steps: seq<Step>, end: Batch, i: nat)
    requires Reaches(jobs, steps, end) && i < |end.phases|
    ensures Enabled(end, Acquire(i)) <==> end.phases[i] == Waiting && Num(end.phases, Holds) < 4
  {
    EveryRunKeepsInv(jobs, steps, end);
  }

  lemma {:induction false} NumMonotone(ps: seq<Phase>, f: Phase -> nat, g: Phase -> nat)
    requires forall p :: p in ps ==> f(p) <= g(p)
    ensures Num(ps, f) <= Num(ps, g)
  {
    if ps != [] { NumMonotone(ps[..|ps| - 1], f, g); }
  }

  /** Until every goroutine has reported, some step can be taken; with the step count above, the
      batch always finishes, after exactly five steps a job. */
  lemma NeverStuck(jobs: seq<Job>, steps: seq<Step>, end: Batch) returns (s: Step)
    requires Reaches(jobs, steps, end) && end.pending > 0
    ensures Enabled(end, s)
  {
    EveryRunKeepsInv(jobs, steps, end);
    if i :| 0 <= i < |end.phases| && !end.phases[i].Waiting? && !end.phases[i].Finished? {
      var p := end.phases[i];
      s := if p.Running? then Count(i, false)
           else if p.Counted? then Write(i)
           else if p.Written? then Release(i)
           else Done(i);
    } else {
      NumConstant(end.phases, Holds, 0);
      if forall i :: 0 <= i < |end.phases| ==> end.phases[i].Finished? {
        NumConstant(end.phases, Reporting, 0);
        assert false;
      }
      var i :| 0 <= i < |end.phases| && !end.phases[i].Finished?;
      s := Acquire(i);
    }
  }

  lemma {:induction false} NumAdds(ps: seq<Phase>)
    ensures Num(ps, CountedAtAll) == Num(ps, Succeeded) + Num(ps, Failed)
  {
    if ps != [] { NumAdds(ps[..|ps| - 1]); }
  }

  function FailedRows(rows: seq<Option<Row>>): nat {
    if rows == [] then 0
    else FailedRows(rows[..|rows| - 1]) + if rows[|rows| - 1].Some? && rows[|rows| - 1].value.failed then 1 else 0
  }

  lemma {:induction false} RowsMatchPhases(jobs: seq<Job>, ps: seq<Phase>, rows: seq<Option<Row>>)
    requires |jobs| == |ps| == |rows|
    requires forall i :: 0 <= i < |ps| ==> ps[i].Finished? && rows[i] == Outcome(jobs[i], ps[i])
    ensures FailedRows(rows) == Num(ps, Failed)
  {
    if ps != [] {
      var n := |ps| - 1;
      RowsMatchPhases(jobs[..n], ps[..n], rows[..n]);
    }
  }

  lemma AllFinished(jobs: seq<Job>, b: Batch)
    requires Inv(jobs, b) && b.pending == 0
    ensures forall i :: 0 <= i < |jobs| ==> b.phases[i].Finished?
    ensures b.sem == 0 && Num(b.phases, Left) == 0
    ensures b.successes + b.failures == |jobs|
  {
    forall i | 0 <= i < |b.phases|
      ensures b.phases[i].Finished?
    {
      MemberCounts(b.phases, i, Reporting);
    }
    NumConstant(b.phases, Left, 0);
    NumConstant(b.phases, Holds, 0);
    NumConstant(b.phases, CountedAtAll, 1);
    NumAdds(b.phases);
  }

  /** When the wait group opens, every slot holds its own job's row, and the counters agree with
      the rows and add up to targets * handlers. */
  lemma BatchResult(targets: seq<string>, handlers: seq<string>, steps: seq<Step>, end: Batch)
    requires Reaches(Jobs(targets, handlers), steps, end) && end.pending == 0
    ensures |end.results| == |targets| * |handlers|
    ensures end.successes + end.failures == |end.results| && end.failures == FailedRows(end.results)
    ensures end.sem == 0 && |steps| == 5 * |end.results|
    ensures |Jobs(targets, handlers)| == |end.results|
    ensures forall i :: 0 <= i < |end.results| ==>
              end.results[i].Some? && end.results[i].value.job == Jobs(targets, handlers)[i]
  {
    var jobs := Jobs(targets, handlers);
    EveryRunKeepsInv(jobs, steps, end);
    JobCount(targets, handlers);
    AllFinished(jobs, end);
    RowsMatchPhases(jobs, end.phases, end.results);
  }

  /** The row of target `t` and handler `h` is the one in slot t * handlers + h. */
  lemma SlotResult(targets: seq<string>, handlers: seq<string>, steps: seq<Step>, end: Batch, t: nat, h: nat)
    requires Reaches(Jobs(targets, handlers), steps, end) && end.pending == 0
    requires t < |targets| && h < |handlers|
    ensures 0 <= t * |handlers| + h < |end.results| && end.results[t * |handlers| + h].Some?
    ensures end.results[t * |handlers| + h].value.job == Job(handlers[h], targets[t])
  {
    BatchResult(targets, handlers, steps, end);
    JobAt(targets, handlers, t, h);
  }

  // ---------- what the rows say ----------

  /** Whether the handler of job `i` has returned, and then whether it returned an error. */
  predicate Returned(p: Phase, failed: bool) {
    !p.Waiting? && !p.Running? && p.failed == failed
  }

  lemma StepReturns(jobs: seq<Job>, b: Batch, s: Step, i: nat, failed: bool)
    requires Enabled(b, s) && |b.results| == |b.phases| == |jobs| && i < |jobs|
    ensures |Apply(jobs, b, s).phases| == |jobs|
    ensures Returned(Apply(jobs, b, s).phases[i], failed) <==> Returned(b.phases[i], failed) || s == Count(i, failed)
  {
  }

  /** In every interleaving a job's handler has returned with or without an error exactly when its
      `Count` step said so. */
  lemma {:induction false} ReturnedExactly(jobs: seq<Job>, steps: seq<Step>, end: Batch, i: nat, failed: bool)
    requires Reaches(jobs, steps, end) && i < |jobs|
    ensures |end.phases| == |jobs|
    ensures Returned(end.phases[i], failed) <==> Count(i, failed) in steps
  {
    if steps != [] {
      var prev, s := steps[..|steps| - 1], steps[|steps| - 1];
      assert steps == prev + [s];
      var mid :| Reaches(jobs, prev, mid) && |mid.results| == |mid.phases| == |jobs|
                 && Enabled(mid, s) && end == Apply(jobs, mid, s);
      ReturnedExactly(jobs, prev, mid, i, failed);
      StepReturns(jobs, mid, s, i, failed);
    }
  }

  /** A job's row is marked failed if and only if its handler returned an error, and every job's handler
      has returned when the wait group opens. */
  lemma RowExactly(targets: seq<string>, handlers: seq<string>, steps: seq<Step>, end: Batch, i: nat)
    requires Reaches(Jobs(targets, handlers), steps, end) && end.pending == 0 && i < |end.results|
    ensures end.results[i].Some?
    ensures end.results[i].value.failed <==> Count(i, true) in steps
    ensures !end.results[i].value.failed <==> Count(i, false) in steps
  {
    var jobs := Jobs(targets, handlers);
    EveryRunKeepsInv(jobs, steps, end);
    AllFinished(jobs, end);
    ReturnedExactly(jobs, steps, end, i, true);
    ReturnedExactly(jobs, steps, end, i, false);
  }

  /** How many handlers returned with, or without, an error. */
  function Returns(steps: seq<Step>, failed: bool): nat {
    if steps == [] then 0
    else
      var s := steps[|steps| - 1];
      Returns(steps[..|steps| - 1], failed) + if s.Count? && s.failed == failed then 1 else 0
  }

  /** The two counters are the numbers of handlers that have returned without and with an error. */
  lemma {:induction false} CountersExactly(jobs: seq<Job>, steps: seq<Step>, end: Batch)
    requires Reaches(jobs, steps, end)
    ensures end.successes == Returns(steps, false) && end.failures == Returns(steps, true)
  {
    if steps != [] {
      var prev, s := steps[..|steps| - 1], steps[|steps| - 1];
      var mid :| Reaches(jobs, prev, mid) && |mid.results| == |mid.phases| == |jobs|
                 && Enabled(mid, s) && end == Apply(jobs, mid, s);
      CountersExactly(jobs, prev, mid);
    }
  }
}
