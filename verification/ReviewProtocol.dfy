/** The operator's review of one stored daemon result: approve and reject each make several
    store calls, any of which may fail without effect, and may be repeated by the operator. */
module ReviewProtocol {
  import opened Wrappers

  datatype Status = PendingReview | Approved | Rejected
  datatype Result = Result(status: Status, trustApplied: bool, tokensUsed: nat, note: string)

  datatype Lifecycle = Pending | InProgress | Completed | Orphaned | RolledBack | FailedPermanent
  /** The planner's entry for the reviewed work. */
  datatype Item = Item(done: bool, lifecycle: Lifecycle, retries: nat, lastError: string)

  /** The Beta counts of the result's (pattern, scope) bucket. */
  datatype Trust = Trust(alpha: real, beta: real, executions: nat, streak: nat)

  datatype Outcome = Success | OperatorOverride
  datatype Kind = Quality | Timing | Scope

  const MAX_RETRIES := 3

  function KindName(kind: Kind): string {
    match kind
    case Quality => "quality"
    case Timing => "timing"
    case Scope => "scope"
  }

  /** The note a rejection leaves on the result. */
  function RejectNote(kind: Kind, reason: string): string {
    "[" + KindName(kind) + "] " + reason
  }

  /** The errors a rejection leaves on the item. */
  function RequeueError(kind: Kind, reason: string): string {
    "reject:" + KindName(kind) + " \U{2014} " + reason
  }

  function NoRequeueError(reason: string): string {
    "operator reject:quality (no-requeue) \U{2014} " + reason
  }

  function ExceededError(lastError: string): string {
    "max retries 3 exceeded \U{2014} " + lastError
  }

  /** What can happen to the stores. */
  datatype Effect =
    | Recorded(outcome: Outcome)
    | FlagWriteFailed
    | ItemCompleted
    | ItemRequeued(tick: bool)
    | ItemDeadLettered
    | TokensCharged(tokens: nat)
    | CloseFailed
    | Closed(status: Status)

  /** How often each effect has occurred. */
  datatype Tally = Tally(successes: nat, overrides: nat, flagFailures: nat, completions: nat, ticks: nat,
                         freeRequeues: nat, deadLetters: nat, charges: nat, paid: nat,
                         closeFailures: nat, approvals: nat, rejections: nat)
  {
    function Outcomes(): nat { successes + overrides }

    function Moves(): nat { completions + ticks + freeRequeues + deadLetters }

    function Add(e: Effect): Tally {
      match e
      case Recorded(Success) => this.(successes := successes + 1)
      case Recorded(OperatorOverride) => this.(overrides := overrides + 1)
      case FlagWriteFailed => this.(flagFailures := flagFailures + 1)
      case ItemCompleted => this.(completions := completions + 1)
      case ItemRequeued(true) => this.(ticks := ticks + 1)
      case ItemRequeued(false) => this.(freeRequeues := freeRequeues + 1)
      case ItemDeadLettered => this.(deadLetters := deadLetters + 1)
      case TokensCharged(n) => this.(charges := charges + 1, paid := paid + n)
      case CloseFailed => this.(closeFailures := closeFailures + 1)
      case Closed(Approved) => this.(approvals := approvals + 1)
      case Closed(_) => this.(rejections := rejections + 1)
    }
  }

  const NOTHING := Tally(0, 0, 0, 0, 0, 0, 0, 0, 0, 0, 0, 0)

  /** The token rollup of the session. */
  datatype Budget = Budget(tokens: nat, tasks: nat)

  function Charge(b: Budget, tokens: nat): Budget {
    Budget(b.tokens + tokens, b.tasks + 1)
  }

  datatype World = World(result: Option<Result>, item: Option<Item>, trust: Trust, budget: Budget, log: Tally)

  /** Which store calls of one request fail. */
  datatype Faults = Faults(load: bool, trust: bool, flag: bool, item: bool, budget: bool, deadLetter: bool, close: bool)

  datatype Op =
    | Approve(session: string, note: string, faults: Faults)
    | Reject(kind: Kind, requeue: bool, reason: string, faults: Faults)

  datatype Error = LoadFailed | NoResult | AlreadyReviewed | TrustFailed | FlagFailed | ItemFailed | CloseError
  datatype Reply = Ok(requeued: bool, failedPermanent: bool) | Err(error: Error)

  // ---------- single store calls ----------

  function RecordOutcome(t: Trust, o: Outcome): Trust {
    match o
    case Success => Trust(t.alpha + 1.0, t.beta, t.executions + 1, 0)
    case OperatorOverride => Trust(t.alpha, t.beta + 5.0, t.executions + 1, t.streak + 1)
  }

  function Requeued(i: Item, tick: bool, err: string): Item {
    if !tick then i.(done := false, lifecycle := Pending, lastError := err)
    else if i.retries < MAX_RETRIES then Item(false, Pending, i.retries + 1, err)
    else i.(lifecycle := FailedPermanent, lastError := ExceededError(err))
  }

  /** Whether a requeue puts the item back in the queue; a missing item is not requeued. */
  predicate GoesBack(i: Option<Item>, tick: bool) {
    i.Some? && (!tick || i.value.retries < MAX_RETRIES)
  }

  function LogRequeue(log: Tally, i: Option<Item>, tick: bool): Tally {
    if i.None? then log else log.Add(if GoesBack(i, tick) then ItemRequeued(tick) else ItemDeadLettered)
  }

  function MapItem(i: Option<Item>, f: Item -> Item): Option<Item> {
    if i.None? then None else Some(f(i.value))
  }

  class ReviewStore {
    var result: Option<Result>
    var item: Option<Item>
    var trust: Trust
    var budget: Budget
    ghost var log: Tally

    ghost function State(): World
      reads this
    {
      World(result, item, trust, budget, log)
    }

    constructor (result: Option<Result>, item: Option<Item>, trust: Trust, budget: Budget)
      ensures State() == World(result, item, trust, budget, NOTHING)
    {
      this.result, this.item, this.trust, this.budget, this.log := result, item, trust, budget, NOTHING;
    }

    method TrustRecord(o: Outcome, fails: bool) returns (ok: bool)
      modifies this
      ensures ok == !fails
      ensures State() == if fails then old(State())
                         else old(State()).(trust := RecordOutcome(old(trust), o), log := old(log).Add(Recorded(o)))
    {
      if fails {
        return false;
      }
      trust := RecordOutcome(trust, o);
      log := log.Add(Recorded(o));
      return true;
    }

    method MarkTrustApplied(fails: bool) returns (ok: bool)
      requires result.Some?
      modifies this
      ensures ok == !fails
      ensures State() == if fails then old(State()).(log := old(log).Add(FlagWriteFailed))
                         else old(State()).(result := Some(old(result).value.(trustApplied := true)))
    {
      if fails {
        log := log.Add(FlagWriteFailed);
        return false;
      }
      result := Some(result.value.(trustApplied := true));
      return true;
    }

    method MarkTaskCompleted(fails: bool) returns (ok: bool)
      modifies this
      ensures ok == !fails
      ensures State() == if fails then old(State()) else Complete(old(State()))
    {
      if fails {
        return false;
      }
      if item.Some? {
        item := Some(item.value.(done := true, lifecycle := Completed));
        log := log.Add(ItemCompleted);
      }
      return true;
    }

    method RequeueTaskOrFail(err: string, tick: bool, fails: bool) returns (ok: bool, requeued: bool)
      modifies this
      ensures ok == !fails
      ensures requeued == (!fails && GoesBack(old(item), tick))
      ensures State() == if fails then old(State()) else PutBack(old(State()), err, tick)
    {
      if fails {
        return false, false;
      }
      requeued := GoesBack(item, tick);
      log := LogRequeue(log, item, tick);
      item := MapItem(item, i => Requeued(i, tick, err));
      return true, requeued;
    }

    method MarkTaskFailedPermanent(err: string, fails: bool)
      modifies this
      ensures State() == if fails then old(State()) else DeadLetter(old(State()), err)
    {
      if !fails && item.Some? {
        item := Some(item.value.(lifecycle := FailedPermanent, lastError := err));
        log := log.Add(ItemDeadLettered);
      }
    }

    method BudgetRecord(tokens: nat, fails: bool)
      modifies this
      ensures State() == if fails then old(State())
                         else old(State()).(budget := Charge(old(budget), tokens),
                                            log := old(log).Add(TokensCharged(tokens)))
    {
      if !fails {
        budget := Charge(budget, tokens);
        log := log.Add(TokensCharged(tokens));
      }
    }

    method Close(status: Status, note: string, fails: bool) returns (ok: bool)
      requires result.Some?
      modifies this
      ensures ok == !fails
      ensures State() == CloseStep(old(State()), status, note, fails)
    {
      if fails {
        log := log.Add(CloseFailed);
        return false;
      }
      result := Some(result.value.(status := status, note := note));
      log := log.Add(Closed(status));
      return true;
    }

    method HandleApprove(session: string, note: string, f: Faults) returns (r: Reply)
      modifies this
      ensures State() == Step(old(State()), Op.Approve(session, note, f)).0
      ensures r == Step(old(State()), Op.Approve(session, note, f)).1
    {
      if f.load {
        return Err(LoadFailed);
      }
      if result.None? {
        return Err(NoResult);
      }
      var loaded := result.value;
      if loaded.status != PendingReview {
        return Err(AlreadyReviewed);
      }
      if !loaded.trustApplied {
        var recorded := TrustRecord(Success, f.trust);
        if !recorded {
          return Err(TrustFailed);
        }
        var flagged := MarkTrustApplied(f.flag);
        if !flagged {
          return Err(FlagFailed);
        }
      }
      var completed := MarkTaskCompleted(f.item);
      if !completed {
        return Err(ItemFailed);
      }
      if session != "" && loaded.tokensUsed > 0 {
        BudgetRecord(loaded.tokensUsed, f.budget);
      }
      var closed := Close(Status.Approved, note, f.close);
      if !closed {
        return Err(CloseError);
      }
      return Ok(false, false);
    }

    method ApplyRejectRequeue(kind: Kind, requeue: bool, reason: string, fails: bool)
      returns (ok: bool, requeued: bool, failedPermanent: bool)
      modifies this
      ensures ok == !(requeue && kind != Scope && fails)
      ensures requeued == (requeue && kind != Scope && !fails && GoesBack(old(item), kind != Timing))
      ensures failedPermanent == (requeue && !fails && !requeued && kind == Quality)
      ensures State() == if requeue && kind != Scope && !fails
                         then PutBack(old(State()), RequeueError(kind, reason), kind != Timing)
                         else old(State())
    {
      if !requeue || kind == Scope {
        return true, false, false;
      }
      ok, requeued := RequeueTaskOrFail(RequeueError(kind, reason), kind != Timing, fails);
      failedPermanent := ok && !requeued && kind == Quality;
    }

    method HandleReject(kind: Kind, requeue: bool, reason: string, f: Faults) returns (r: Reply)
      modifies this
      ensures State() == Step(old(State()), Op.Reject(kind, requeue, reason, f)).0
      ensures r == Step(old(State()), Op.Reject(kind, requeue, reason, f)).1
    {
      if f.load {
        return Err(LoadFailed);
      }
      if result.None? {
        return Err(NoResult);
      }
      var loaded := result.value;
      if loaded.status != PendingReview {
        return Err(AlreadyReviewed);
      }
      if kind == Quality && !loaded.trustApplied {
        var recorded := TrustRecord(OperatorOverride, f.trust);
        if !recorded {
          return Err(TrustFailed);
        }
        var flagged := MarkTrustApplied(f.flag);
        if !flagged {
          return Err(FlagFailed);
        }
      }
      var ok, requeued, failedPermanent := ApplyRejectRequeue(kind, requeue, reason, f.item);
      if !ok {
        return Err(ItemFailed);
      }
      if kind == Quality && !requeue {
        MarkTaskFailedPermanent(NoRequeueError(reason), f.deadLetter);
        failedPermanent := true;
      }
      var closed := Close(Status.Rejected, RejectNote(kind, reason), f.close);
      if !closed {
        return Err(CloseError);
      }
      return Ok(requeued, failedPermanent);
    }
  }

  // ---------- one request as a step of the world ----------

  function Complete(w: World): World {
    if w.item.None? then w
    else w.(item := Some(w.item.value.(done := true, lifecycle := Completed)), log := w.log.Add(ItemCompleted))
  }

  function PutBack(w: World, err: string, tick: bool): World {
    w.(item := MapItem(w.item, i => Requeued(i, tick, err)), log := LogRequeue(w.log, w.item, tick))
  }

  function DeadLetter(w: World, err: string): World {
    if w.item.None? then w
    else w.(item := Some(w.item.value.(lifecycle := FailedPermanent, lastError := err)),
            log := w.log.Add(ItemDeadLettered))
  }

  function CloseStep(w: World, status: Status, note: string, fails: bool): World
    requires w.result.Some?
  {
    if fails then w.(log := w.log.Add(CloseFailed))
    else w.(result := Some(w.result.value.(status := status, note := note)), log := w.log.Add(Closed(status)))
  }

  /** The trust stage: skipped when it does not apply or has been done, otherwise the outcome
      is recorded and then flagged as recorded. The error, if any, ends the request. */
  function TrustStage(w: World, applies: bool, o: Outcome, f: Faults): (World, Option<Error>)
    requires w.result.Some?
  {
    if !applies || w.result.value.trustApplied then (w, None)
    else if f.trust then (w, Some(TrustFailed))
    else
      var counted := w.(trust := RecordOutcome(w.trust, o), log := w.log.Add(Recorded(o)));
      if f.flag then (counted.(log := counted.log.Add(FlagWriteFailed)), Some(FlagFailed))
      else (counted.(result := Some(counted.result.value.(trustApplied := true))), None)
  }

  /** The trust stage of a request: every approval has one, and among rejections those for quality. */
  function TrustOf(w: World, op: Op): (World, Option<Error>)
    requires w.result.Some?
  {
    TrustStage(w, op.Approve? || op.kind == Quality, if op.Approve? then Success else OperatorOverride, op.faults)
  }

  function ApproveRest(w: World, op: Op): (World, Reply)
    requires op.Approve? && w.result.Some?
  {
    if op.faults.item then (w, Err(ItemFailed))
    else
      var completed := Complete(w);
      var tokens := w.result.value.tokensUsed;
      var paid := if op.session != "" && tokens > 0 && !op.faults.budget
                  then completed.(budget := Charge(completed.budget, tokens),
                                  log := completed.log.Add(TokensCharged(tokens)))
                  else completed;
      (CloseStep(paid, Status.Approved, op.note, op.faults.close),
       if op.faults.close then Err(CloseError) else Ok(false, false))
  }

  function RejectRest(w: World, op: Op): (World, Reply)
    requires op.Reject? && w.result.Some?
  {
    var requeues := op.requeue && op.kind != Scope;
    var tick := op.kind != Timing;
    if requeues && op.faults.item then (w, Err(ItemFailed))
    else
      var back := requeues && GoesBack(w.item, tick);
      var moved :=
        if requeues then
          PutBack(w, RequeueError(op.kind, op.reason), tick)
        else if op.kind == Quality && !op.faults.deadLetter then DeadLetter(w, NoRequeueError(op.reason))
        else w;
      (CloseStep(moved, Status.Rejected, RejectNote(op.kind, op.reason), op.faults.close),
       if op.faults.close then Err(CloseError) else Ok(back, op.kind == Quality && !back))
  }

  function Step(w: World, op: Op): (World, Reply) {
    if op.faults.load then (w, Err(LoadFailed))
    else if w.result.None? then (w, Err(NoResult))
    else if w.result.value.status != PendingReview then (w, Err(AlreadyReviewed))
    else
      var (trusted, failure) := TrustOf(w, op);
      if failure.Some? then (trusted, Err(failure.value))
      else if op.Approve? then ApproveRest(trusted, op)
      else RejectRest(trusted, op)
  }

  function Run(w: World, ops: seq<Op>): World {
    if ops == [] then w else Step(Run(w, ops[..|ops| - 1]), ops[|ops| - 1]).0
  }

  // ---------- what every run keeps ----------

  /** A result as execute_next stores it; what the log has counted before does not matter. */
  ghost predicate Fresh(w: World) {
    w.result.Some? && w.result.value.status == PendingReview && !w.result.value.trustApplied
  }

  function One(b: bool): nat {
    if b then 1 else 0
  }

  /** What the log has counted since it was `t0`, against the result's own state. */
  predicate Counted(t0: Tally, t: Tally, r: Result) {
    && t0.flagFailures <= t.flagFailures && t0.closeFailures <= t.closeFailures
    // one outcome a flag: the surplus is exactly the failed flag writes
    && t.Outcomes() - t0.Outcomes() == t.flagFailures - t0.flagFailures + One(r.trustApplied)
    // the item is moved and tokens are charged at most once, plus once for each failed closing write
    && t.Moves() - t0.Moves() <= t.closeFailures - t0.closeFailures + One(r.status != PendingReview)
    && t.charges - t0.charges <= t.closeFailures - t0.closeFailures + One(r.status == Status.Approved)
    && t.approvals - t0.approvals == One(r.status == Status.Approved)
    && t.rejections - t0.rejections == One(r.status == Status.Rejected)
    && (r.status == Status.Approved ==> r.trustApplied)
  }

  /** Trust, retries and budget have moved by what the log says. */
  predicate Booked(w0: World, w: World, t: Tally) {
    && w.trust.alpha == w0.trust.alpha + (t.successes - w0.log.successes) as real
    && w.trust.beta == w0.trust.beta + 5.0 * (t.overrides - w0.log.overrides) as real
    && w.trust.executions - w0.trust.executions == t.Outcomes() - w0.log.Outcomes()
    && w.budget.tokens - w0.budget.tokens == t.paid - w0.log.paid
    && w.budget.tasks - w0.budget.tasks == t.charges - w0.log.charges
    && w.item.Some? == w0.item.Some?
    && (w.item.Some? ==>
          && w.item.value.retries - w0.item.value.retries == t.ticks - w0.log.ticks
          && (w.item.value.retries == w0.item.value.retries || w.item.value.retries <= MAX_RETRIES))
  }

  /** The books of a run that started in `w0`. */
  ghost predicate Balanced(w0: World, w: World) {
    && w0.result.Some? && w.result.Some?
    && w.result.value.tokensUsed == w0.result.value.tokensUsed
    && Counted(w0.log, w.log, w.result.value)
    && Booked(w0, w, w.log)
    // approval means the item is done
    && (w.result.value.status == Status.Approved && w.item.Some? ==>
          w.item.value.done && w.item.value.lifecycle == Completed)
  }

  lemma TrustStageBalances(w0: World, w: World, applies: bool, o: Outcome, f: Faults)
    requires Balanced(w0, w) && w.result.value.status == PendingReview
    ensures var (next, failure) := TrustStage(w, applies, o, f);
            && Balanced(w0, next) && next.result.value.status == PendingReview
            && (failure.None? && applies ==> next.result.value.trustApplied)
  {
  }

  lemma CloseBalances(w0: World, w: World, moved: World, status: Status, note: string, fails: bool)
    requires Balanced(w0, w) && w.result.value.status == PendingReview && status != PendingReview
    requires moved.result == w.result
    requires var t, s := w.log, moved.log;
             && s == t.(completions := s.completions, ticks := s.ticks, freeRequeues := s.freeRequeues,
                        deadLetters := s.deadLetters, charges := s.charges, paid := s.paid)
             && s.Moves() <= t.Moves() + 1 && s.charges <= t.charges + One(status == Status.Approved)
    requires Booked(w0, moved, moved.log)
    requires status == Status.Approved ==>
               w.result.value.trustApplied
               && (moved.item.Some? ==> moved.item.value.done && moved.item.value.lifecycle == Completed)
    ensures Balanced(w0, CloseStep(moved, status, note, fails))
  {
  }

  lemma ApproveRestBalances(w0: World, w: World, op: Op)
    requires Balanced(w0, w) && w.result.value.status == PendingReview
    requires op.Approve? && w.result.value.trustApplied
    ensures Balanced(w0, ApproveRest(w, op).0)
  {
    if !op.faults.item {
      var completed, tokens := Complete(w), w.result.value.tokensUsed;
      var paid := if op.session != "" && tokens > 0 && !op.faults.budget
                  then completed.(budget := Charge(completed.budget, tokens),
                                  log := completed.log.Add(TokensCharged(tokens)))
                  else completed;
      CloseBalances(w0, w, paid, Status.Approved, op.note, op.faults.close);
    }
  }

  lemma RequeueBalances(w0: World, w: World, err: string, tick: bool)
    requires Balanced(w0, w)
    ensures var moved := PutBack(w, err, tick);
            && Booked(w0, moved, moved.log)
            && var t, s := w.log, moved.log;
            && s == t.(ticks := s.ticks, freeRequeues := s.freeRequeues, deadLetters := s.deadLetters)
            && s.Moves() <= t.Moves() + 1
  {
  }

  lemma RejectRestBalances(w0: World, w: World, op: Op)
    requires Balanced(w0, w) && w.result.value.status == PendingReview && op.Reject?
    ensures Balanced(w0, RejectRest(w, op).0)
  {
    var requeues, tick := op.requeue && op.kind != Scope, op.kind != Timing;
    if requeues && !op.faults.item {
      RequeueBalances(w0, w, RequeueError(op.kind, op.reason), tick);
      var moved := PutBack(w, RequeueError(op.kind, op.reason), tick);
      CloseBalances(w0, w, moved, Status.Rejected, RejectNote(op.kind, op.reason), op.faults.close);
    } else if !requeues {
      var moved := if op.kind == Quality && !op.faults.deadLetter
                   then DeadLetter(w, NoRequeueError(op.reason)) else w;
      CloseBalances(w0, w, moved, Status.Rejected, RejectNote(op.kind, op.reason), op.faults.close);
    }
  }

  lemma StepBalances(w0: World, w: World, op: Op)
    requires Balanced(w0, w)
    ensures Balanced(w0, Step(w, op).0)
  {
    if !op.faults.load && w.result.value.status == PendingReview {
      var applies, o := op.Approve? || op.kind == Quality, if op.Approve? then Success else OperatorOverride;
      TrustStageBalances(w0, w, applies, o, op.faults);
      var (trusted, failure) := TrustStage(w, applies, o, op.faults);
      if failure.None? {
        if op.Approve? { ApproveRestBalances(w0, trusted, op); } else { RejectRestBalances(w0, trusted, op); }
      }
    }
  }

  lemma FreshBalances(w0: World)
    requires Fresh(w0)
    ensures Balanced(w0, w0)
  {
  }

  /** Every run of approvals and rejections, with any store calls failing, keeps the books. */
  lemma {:induction false} RunsBalance(w0: World, ops: seq<Op>)
    requires Fresh(w0)
    ensures Balanced(w0, Run(w0, ops))
  {
    if ops == [] {
      FreshBalances(w0);
    } else {
      var w := Run(w0, ops[..|ops| - 1]);
      RunsBalance(w0, ops[..|ops| - 1]);
      StepBalances(w0, w, ops[|ops| - 1]);
    }
  }

  /** A model's trust moves at most once for a result, plus once for each failed flag write. */
  lemma TrustMovesOnce(w0: World, ops: seq<Op>)
    requires Fresh(w0)
    ensures var w := Run(w0, ops);
            var t0, t := w0.log, w.log;
            && t.Outcomes() - t0.Outcomes() <= 1 + (t.flagFailures - t0.flagFailures)
            && (w.result.Some? && w.result.value.status == Status.Approved ==> t.Outcomes() - t0.Outcomes() >= 1)
  {
    RunsBalance(w0, ops);
  }

  /** Once reviewed, a result is final: no later request changes anything or has an effect. */
  lemma {:induction false} ReviewIsFinal(w: World, ops: seq<Op>)
    requires w.result.Some? && w.result.value.status != PendingReview
    ensures Run(w, ops) == w
  {
    if ops != [] { ReviewIsFinal(w, ops[..|ops| - 1]); }
  }

  // ---------- what retries cost ----------

  /** An approval that goes through adds a success exactly when no earlier request had set
      the trust flag, and never adds a penalty. */
  lemma ApprovalCredit(w: World, op: Op)
    requires op.Approve? && Step(w, op).1.Ok?
    ensures var next := Step(w, op).0;
            && w.result.Some?
            && (next.trust.alpha == w.trust.alpha + 1.0 <==> !w.result.value.trustApplied)
            && next.trust.beta == w.trust.beta
  {
  }

  const NO_FAULTS := Faults(false, false, false, false, false, false, false)

  /** The promise that approval records the success outcome can fail: a quality rejection that
      penalised the model but could not requeue leaves the flag set, and the approval that
      follows credits nothing. */
  lemma ApprovedAfterPenalty(w0: World)
    requires Fresh(w0)
    ensures var w := Run(w0, [Op.Reject(Quality, true, "", NO_FAULTS.(item := true)), Op.Approve("", "", NO_FAULTS)]);
            && w.result.Some? && w.result.value.status == Status.Approved
            && w.trust.alpha == w0.trust.alpha && w.trust.beta == w0.trust.beta + 5.0
  {
    var ops := [Op.Reject(Quality, true, "", NO_FAULTS.(item := true)), Op.Approve("", "", NO_FAULTS)];
    assert ops[..1] == [ops[0]] && ops[..1][..0] == [];
    assert Run(w0, ops[..1]) == Step(Run(w0, []), ops[0]).0;
  }

  // ---------- when the item is done, and the model credited ----------

  /** The request reaches the store calls. */
  predicate Opens(w: World, op: Op) {
    !op.faults.load && w.result.Some? && w.result.value.status == PendingReview
  }

  predicate PassesTrust(w: World, op: Op)
    requires Opens(w, op)
  {
    (op.Reject? && op.kind != Quality) || w.result.value.trustApplied || (!op.faults.trust && !op.faults.flag)
  }

  /** The request completes the item: an approval past the trust stage whose item write succeeds. */
  predicate Completes(w: World, op: Op) {
    Opens(w, op) && op.Approve? && PassesTrust(w, op) && !op.faults.item
  }

  /** The request puts the item back in the queue. */
  predicate PutsBack(w: World, op: Op) {
    Opens(w, op) && op.Reject? && PassesTrust(w, op)
    && op.requeue && op.kind != Scope && !op.faults.item && GoesBack(w.item, op.kind != Timing)
  }

  /** The request records a success. */
  predicate Credits(w: World, op: Op) {
    Opens(w, op) && op.Approve? && !w.result.value.trustApplied && !op.faults.trust
  }

  /** What the trust stage leaves alone, and when it lets the request go on. */
  lemma TrustStageKeeps(w: World, op: Op)
    requires Opens(w, op)
    ensures var (m, failure) := TrustOf(w, op);
            && (failure.None? <==> PassesTrust(w, op))
            && m.result.Some? && m.item == w.item
            && m.log == w.log.(successes := m.log.successes, overrides := m.log.overrides,
                               flagFailures := m.log.flagFailures)
  {
  }

  lemma ApproveRestItem(w: World, op: Op)
    requires op.Approve? && w.result.Some? && w.item.Some?
    ensures var next := ApproveRest(w, op).0.item;
            && next.Some? && next.value.retries == w.item.value.retries
            && (next.value.done <==> !op.faults.item || w.item.value.done)
  {
  }

  lemma RejectRestItem(w: World, op: Op)
    requires op.Reject? && w.result.Some? && w.item.Some?
    ensures var next := RejectRest(w, op).0.item;
            var back := op.requeue && op.kind != Scope && !op.faults.item && GoesBack(w.item, op.kind != Timing);
            && next.Some? && next.value.retries == w.item.value.retries + One(back && op.kind != Timing)
            && (next.value.done <==> w.item.value.done && !back)
  {
  }

  lemma StepItem(w: World, op: Op)
    requires w.item.Some?
    ensures var next := Step(w, op).0.item;
            && next.Some?
            && next.value.retries == w.item.value.retries + One(PutsBack(w, op) && op.kind != Timing)
            && (next.value.done <==> Completes(w, op) || (w.item.value.done && !PutsBack(w, op)))
  {
    if Opens(w, op) {
      TrustStageKeeps(w, op);
      var m := TrustOf(w, op).0;
      if PassesTrust(w, op) {
        if op.Approve? { ApproveRestItem(m, op); } else { RejectRestItem(m, op); }
      }
    }
  }

  // ---------- what one request answers and writes ----------

  /** The request charges the session: an approval past the trust stage whose item write succeeds, with
      a session, tokens to charge, and a working budget store. Whether it then closes does not matter. */
  predicate Charges(w: World, op: Op) {
    Completes(w, op) && op.session != "" && w.result.value.tokensUsed > 0 && !op.faults.budget
  }

  lemma TrustStageKeepsResult(w: World, op: Op)
    requires Opens(w, op)
    ensures var m := TrustOf(w, op).0;
            && m.result.Some? && m.budget == w.budget
            && m.result.value.(trustApplied := w.result.value.trustApplied) == w.result.value
  {
  }

  lemma ApproveRestCharges(w: World, op: Op)
    requires op.Approve? && w.result.Some?
    ensures var next, tokens := ApproveRest(w, op).0, w.result.value.tokensUsed;
            && next.result.Some? && next.result.value.tokensUsed == tokens
            && next.budget == if !op.faults.item && op.session != "" && tokens > 0 && !op.faults.budget
                              then Budget(w.budget.tokens + tokens, w.budget.tasks + 1) else w.budget
  {
  }

  lemma RejectRestCharges(w: World, op: Op)
    requires op.Reject? && w.result.Some?
    ensures var next := RejectRest(w, op).0;
            next.budget == w.budget && next.result.Some? && next.result.value.tokensUsed == w.result.value.tokensUsed
  {
  }

  /** One request adds the tokens and one task to the session if and only if it charges it. */
  lemma StepCharges(w: World, op: Op)
    requires w.result.Some?
    ensures var next, tokens := Step(w, op).0, w.result.value.tokensUsed;
            && next.result.Some? && next.result.value.tokensUsed == tokens
            && next.budget == if Charges(w, op) then Budget(w.budget.tokens + tokens, w.budget.tasks + 1) else w.budget
  {
    if Opens(w, op) {
      TrustStageKeeps(w, op);
      TrustStageKeepsResult(w, op);
      var m := TrustOf(w, op).0;
      if PassesTrust(w, op) {
        if op.Approve? { ApproveRestCharges(m, op); } else { RejectRestCharges(m, op); }
      }
    }
  }

  /** How many requests of a run charge the session. */
  function Charged(w0: World, ops: seq<Op>): nat {
    if ops == [] then 0
    else
      var prev, op := ops[..|ops| - 1], ops[|ops| - 1];
      Charged(w0, prev) + One(Charges(Run(w0, prev), op))
  }

  /** From `w0` to `w` the session has been charged `n` tasks and the result's tokens `n` times. */
  predicate ChargedTimes(w0: World, w: World, n: nat)
    requires w0.result.Some?
  {
    && w.result.Some? && w.result.value.tokensUsed == w0.result.value.tokensUsed
    && w.budget.tasks == w0.budget.tasks + n
    && w.budget.tokens == w0.budget.tokens + n * w0.result.value.tokensUsed
  }

  lemma ChargedOnceMore(w0: World, w: World, n: nat, op: Op)
    requires w0.result.Some? && ChargedTimes(w0, w, n)
    ensures ChargedTimes(w0, Step(w, op).0, n + One(Charges(w, op)))
  {
    var tokens := w0.result.value.tokensUsed;
    StepCharges(w, op);
    assert (n + 1) * tokens == n * tokens + tokens;
  }

  /** After any run the session has been charged one task and the result's tokens for each request that
      charges it, and nothing else. */
  lemma {:induction false} ChargesExactly(w0: World, ops: seq<Op>)
    requires w0.result.Some?
    ensures ChargedTimes(w0, Run(w0, ops), Charged(w0, ops))
  {
    if ops != [] {
      var prev := ops[..|ops| - 1];
      ChargesExactly(w0, prev);
      ChargedOnceMore(w0, Run(w0, prev), Charged(w0, prev), ops[|ops| - 1]);
    }
  }

  /** The request records a penalty. */
  predicate Penalises(w: World, op: Op) {
    Opens(w, op) && op.Reject? && op.kind == Quality && !w.result.value.trustApplied && !op.faults.trust
  }

  /** What one request does to the model's trust: a success adds one to alpha and ends the streak, a
      penalty adds five to beta and extends it, and nothing else touches it. */
  lemma StepTrust(w: World, op: Op)
    ensures var t, next := w.trust, Step(w, op).0.trust;
            next == if Credits(w, op) then Trust(t.alpha + 1.0, t.beta, t.executions + 1, 0)
                    else if Penalises(w, op) then Trust(t.alpha, t.beta + 5.0, t.executions + 1, t.streak + 1)
                    else t
  {
  }

  /** The item write of the request fails. */
  predicate ItemFails(op: Op) {
    op.faults.item && (op.Approve? || (op.requeue && op.kind != Scope))
  }

  /** The request gets as far as its closing write. */
  predicate ReachesClose(w: World, op: Op) {
    Opens(w, op) && PassesTrust(w, op) && !ItemFails(op)
  }

  /** The trust stage fails at the record or at the flag. */
  predicate RecordFails(w: World, op: Op)
    requires Opens(w, op)
  {
    !PassesTrust(w, op) && op.faults.trust
  }

  /** A request answers success if and only if it gets to its closing write and that succeeds, and each
      failure names the first store call that failed. */
  lemma AnswerExactly(w: World, op: Op)
    ensures var r := Step(w, op).1;
            && (r.Ok? <==> ReachesClose(w, op) && !op.faults.close)
            && (r == Err(LoadFailed) <==> op.faults.load)
            && (r == Err(NoResult) <==> !op.faults.load && w.result.None?)
            && (r == Err(AlreadyReviewed) <==>
                  !op.faults.load && w.result.Some? && w.result.value.status != PendingReview)
            && (r == Err(TrustFailed) <==> Opens(w, op) && RecordFails(w, op))
            && (r == Err(FlagFailed) <==> Opens(w, op) && !PassesTrust(w, op) && !RecordFails(w, op))
            && (r == Err(ItemFailed) <==> Opens(w, op) && PassesTrust(w, op) && ItemFails(op))
            && (r == Err(CloseError) <==> ReachesClose(w, op) && op.faults.close)
  {
  }

  /** A successful answer says whether the item went back, and closes the result with the operator's
      note; any other request leaves status and note as they were. */
  lemma CloseExactly(w: World, op: Op)
    requires w.result.Some?
    ensures var (next, r) := Step(w, op);
            && next.result.Some?
            && (r.Ok? ==> r.requeued == PutsBack(w, op))
            && (r.Ok? ==> r.failedPermanent == (op.Reject? && op.kind == Quality && !PutsBack(w, op)))
            && next.result.value.status == (if !r.Ok? then w.result.value.status
                                            else if op.Approve? then Status.Approved else Status.Rejected)
            && next.result.value.note == (if !r.Ok? then w.result.value.note
                                          else if op.Approve? then op.note else RejectNote(op.kind, op.reason))
  {
    if Opens(w, op) {
      TrustStageKeeps(w, op);
      TrustStageKeepsResult(w, op);
    }
  }

  /** The texts a rejection writes, kind by kind. */
  lemma RejectionTexts(reason: string)
    ensures RejectNote(Quality, reason) == "[quality] " + reason
    ensures RejectNote(Timing, reason) == "[timing] " + reason
    ensures RejectNote(Scope, reason) == "[scope] " + reason
    ensures RequeueError(Quality, reason) == "reject:quality \U{2014} " + reason
    ensures RequeueError(Timing, reason) == "reject:timing \U{2014} " + reason
  {
    assert "reject:" + "quality" + " \U{2014} " == "reject:quality \U{2014} ";
    assert "reject:" + "timing" + " \U{2014} " == "reject:timing \U{2014} ";
  }

  /** A rejection fails the item for good: at the retry limit, or when it is not to be requeued. */
  predicate GivesUp(w: World, op: Op) {
    Opens(w, op) && op.Reject? && PassesTrust(w, op) && w.item.Some?
    && (if op.requeue && op.kind != Scope then !op.faults.item && !GoesBack(w.item, op.kind != Timing)
        else op.kind == Quality && !op.faults.deadLetter)
  }

  lemma RejectRestLifecycle(w: World, op: Op)
    requires op.Reject? && w.result.Some? && w.item.Some?
    ensures var item, next := w.item.value, RejectRest(w, op).0.item;
            && next.Some?
            && (if op.requeue && op.kind != Scope && !op.faults.item then
                  next.value.lifecycle == (if GoesBack(w.item, op.kind != Timing) then Pending else FailedPermanent)
                  && next.value.lastError == (if GoesBack(w.item, op.kind != Timing)
                                              then RequeueError(op.kind, op.reason)
                                              else ExceededError(RequeueError(op.kind, op.reason)))
                else if !(op.requeue && op.kind != Scope) && op.kind == Quality && !op.faults.deadLetter then
                  next.value.lifecycle == FailedPermanent && next.value.lastError == NoRequeueError(op.reason)
                else next.value == item)
  {
  }

  /** The item's lifecycle after one request, and when its error text changes. */
  lemma StepLifecycle(w: World, op: Op)
    requires w.item.Some?
    ensures var item, next := w.item.value, Step(w, op).0.item;
            && next.Some?
            && next.value.lifecycle == (if Completes(w, op) then Completed
                                        else if PutsBack(w, op) then Pending
                                        else if GivesUp(w, op) then FailedPermanent
                                        else item.lifecycle)
            && (!PutsBack(w, op) && !GivesUp(w, op) ==> next.value.lastError == item.lastError)
            && (PutsBack(w, op) ==> next.value.lastError == RequeueError(op.kind, op.reason))
            && (GivesUp(w, op) ==> next.value.lastError == if op.requeue
                                                           then ExceededError(RequeueError(op.kind, op.reason))
                                                           else NoRequeueError(op.reason))
  {
    if Opens(w, op) {
      TrustStageKeeps(w, op);
      if PassesTrust(w, op) && op.Reject? { RejectRestLifecycle(TrustOf(w, op).0, op); }
    }
  }

  // ---------- runs of requests ----------

  /** The world before request `i` of a run. */
  function Before(w0: World, ops: seq<Op>, i: nat): World
    requires i <= |ops|
  {
    Run(w0, ops[..i])
  }

  ghost predicate CompletedAt(w0: World, ops: seq<Op>, i: int) {
    0 <= i < |ops| && Completes(Before(w0, ops, i), ops[i])
  }

  ghost predicate PutBackAt(w0: World, ops: seq<Op>, i: int) {
    0 <= i < |ops| && PutsBack(Before(w0, ops, i), ops[i])
  }

  ghost predicate CreditedAt(w0: World, ops: seq<Op>, i: int) {
    0 <= i < |ops| && Credits(Before(w0, ops, i), ops[i])
  }

  /** Nothing put the item back from request `i` on. */
  ghost predicate NeverBackFrom(w0: World, ops: seq<Op>, i: int) {
    forall j :: i <= j ==> !PutBackAt(w0, ops, j)
  }

  ghost predicate DoneForGood(w0: World, ops: seq<Op>, i: int) {
    CompletedAt(w0, ops, i) && NeverBackFrom(w0, ops, i + 1)
  }

  lemma EarlierRequests(w0: World, ops: seq<Op>, i: int)
    requires ops != []
    ensures var n := |ops| - 1;
            && (i < n ==> (CompletedAt(w0, ops, i) <==> CompletedAt(w0, ops[..n], i)))
            && (i < n ==> (PutBackAt(w0, ops, i) <==> PutBackAt(w0, ops[..n], i)))
            && (i < n ==> (CreditedAt(w0, ops, i) <==> CreditedAt(w0, ops[..n], i)))
  {
    if 0 <= i < |ops| - 1 {
      assert ops[..|ops| - 1][..i] == ops[..i];
    }
  }

  lemma NeverBackStep(w0: World, ops: seq<Op>, i: int)
    requires ops != [] && 0 <= i <= |ops| - 1
    ensures NeverBackFrom(w0, ops, i) <==>
            NeverBackFrom(w0, ops[..|ops| - 1], i) && !PutBackAt(w0, ops, |ops| - 1)
  {
    var n := |ops| - 1;
    forall j
      ensures j < n ==> (PutBackAt(w0, ops, j) <==> PutBackAt(w0, ops[..n], j))
    {
      EarlierRequests(w0, ops, j);
    }
    if NeverBackFrom(w0, ops[..n], i) && !PutBackAt(w0, ops, n) {
      forall j | i <= j
        ensures !PutBackAt(w0, ops, j)
      {
        assert j < n ==> !PutBackAt(w0, ops[..n], j);
      }
    }
  }

  /** After any run the item is done if and only if it was done before and nothing put it back, or
      some approval completed it and nothing put it back since. */
  lemma {:induction false} DoneExactly(w0: World, ops: seq<Op>)
    requires w0.item.Some?
    ensures Run(w0, ops).item.Some?
    ensures Run(w0, ops).item.value.done <==>
            (w0.item.value.done && NeverBackFrom(w0, ops, 0)) || exists i :: DoneForGood(w0, ops, i)
  {
    if ops != [] {
      var n := |ops| - 1;
      var prev := ops[..n];
      DoneExactly(w0, prev);
      StepItem(Run(w0, prev), ops[n]);
      assert Before(w0, ops, n) == Run(w0, prev);
      NeverBackStep(w0, ops, 0);
      forall i
        ensures i < n ==> (DoneForGood(w0, ops, i) <==> DoneForGood(w0, prev, i) && !PutBackAt(w0, ops, n))
      {
        if 0 <= i < n {
          EarlierRequests(w0, ops, i);
          NeverBackStep(w0, ops, i + 1);
        }
      }
      if CompletedAt(w0, ops, n) { assert DoneForGood(w0, ops, n); }
      if i :| DoneForGood(w0, prev, i) { assert i < n; }
      if i :| DoneForGood(w0, ops, i) { assert i < n || CompletedAt(w0, ops, n); }
    }
  }

  /** After any run the model has been credited if and only if some approval recorded a success. */
  lemma {:induction false} CreditExactly(w0: World, ops: seq<Op>)
    ensures Run(w0, ops).trust.alpha >= w0.trust.alpha
    ensures Run(w0, ops).trust.alpha > w0.trust.alpha <==> exists i :: CreditedAt(w0, ops, i)
  {
    if ops != [] {
      var n := |ops| - 1;
      CreditExactly(w0, ops[..n]);
      StepTrust(Run(w0, ops[..n]), ops[n]);
      assert CreditedAt(w0, ops, n) <==> Credits(Run(w0, ops[..n]), ops[n]);
      forall i
        ensures i < n ==> (CreditedAt(w0, ops, i) <==> CreditedAt(w0, ops[..n], i))
      {
        EarlierRequests(w0, ops, i);
      }
    }
  }

  lemma ApproveRestCompletions(w: World, op: Op)
    requires op.Approve? && w.result.Some?
    ensures var t, s := w.log, ApproveRest(w, op).0.log;
            && s.completions == t.completions + One(!op.faults.item && w.item.Some?)
            && s.closeFailures >= t.closeFailures && s.approvals >= t.approvals
            && (!op.faults.item ==> s.closeFailures + s.approvals == t.closeFailures + t.approvals + 1)
  {
  }

  lemma RejectRestCompletions(w: World, op: Op)
    requires op.Reject? && w.result.Some?
    ensures var t, s := w.log, RejectRest(w, op).0.log;
            s.completions == t.completions && s.closeFailures >= t.closeFailures && s.approvals == t.approvals
  {
  }

  lemma StepCompletions(w: World, op: Op)
    ensures var t, s := w.log, Step(w, op).0.log;
            && s.completions - t.completions <= (s.closeFailures - t.closeFailures) + (s.approvals - t.approvals)
            && s.completions - t.completions == One(Completes(w, op) && w.item.Some?)
  {
    if Opens(w, op) {
      TrustStageKeeps(w, op);
      var m := TrustOf(w, op).0;
      if PassesTrust(w, op) {
        if op.Approve? { ApproveRestCompletions(m, op); } else { RejectRestCompletions(m, op); }
      }
    }
  }

  /** Completions are paid for by an approval or a failed closing write, and a completion leaves a trace. */
  lemma {:induction false} CompletionsAccounted(w0: World, ops: seq<Op>)
    requires w0.item.Some?
    ensures var t, s := w0.log, Run(w0, ops).log;
            && t.completions <= s.completions
            && s.completions - t.completions <= (s.closeFailures - t.closeFailures) + (s.approvals - t.approvals)
            && ((exists i :: CompletedAt(w0, ops, i)) ==> s.completions > t.completions)
  {
    if ops != [] {
      var n := |ops| - 1;
      CompletionsAccounted(w0, ops[..n]);
      DoneExactly(w0, ops[..n]);
      StepCompletions(Run(w0, ops[..n]), ops[n]);
      if i :| CompletedAt(w0, ops, i) && i < n { EarlierRequests(w0, ops, i); }
    }
  }

  /** A result can end as rejected with its item done: if and only if some approval completed the item
      and nothing put it back since. That takes a failed closing write. */
  lemma RejectedDoneExactly(w0: World, ops: seq<Op>)
    requires Fresh(w0) && w0.item.Some? && !w0.item.value.done
    requires var r := Run(w0, ops).result; r.Some? && r.value.status == Status.Rejected
    ensures Run(w0, ops).item.Some?
    ensures Run(w0, ops).item.value.done <==> exists i :: DoneForGood(w0, ops, i)
    ensures Run(w0, ops).item.value.done ==> Run(w0, ops).log.closeFailures > w0.log.closeFailures
  {
    DoneExactly(w0, ops);
    RunsBalance(w0, ops);
    CompletionsAccounted(w0, ops);
    if i :| DoneForGood(w0, ops, i) { assert CompletedAt(w0, ops, i); }
  }

  /** Such a run: the closing write of the approval failed, and the operator then rejected the
      result as out of scope. */
  lemma RejectedAfterCredit(w0: World)
    requires Fresh(w0) && w0.item.Some?
    ensures var w := Run(w0, [Op.Approve("", "", NO_FAULTS.(close := true)), Op.Reject(Scope, true, "", NO_FAULTS)]);
            && w.result.Some? && w.result.value.status == Status.Rejected
            && w.item.Some? && w.item.value.done && w.trust.alpha == w0.trust.alpha + 1.0
  {
    var ops := [Op.Approve("", "", NO_FAULTS.(close := true)), Op.Reject(Scope, true, "", NO_FAULTS)];
    assert ops[..1] == [ops[0]] && ops[..1][..0] == [];
    assert Run(w0, ops[..1]) == Step(Run(w0, []), ops[0]).0;
  }

  // ---------- retries ----------

  /** What puts the item back: a rejection that opens, passes its trust stage and asks for a requeue that is
      written, for bad timing always, for quality while fewer than three retries are spent. */
  lemma BackInQueueExactly(w: World, op: Op)
    ensures PutsBack(w, op) <==>
            && Opens(w, op) && op.Reject? && op.requeue && w.item.Some? && !op.faults.item
            && (op.kind == Timing || (op.kind == Quality && w.item.value.retries < 3 && PassesTrust(w, op)))
  {
  }

  /** A rejection spends a retry if and only if it puts the item back for a reason other than
      timing; no request ever gives one back. */
  lemma RetriesExactly(w: World, op: Op)
    requires w.item.Some?
    ensures var next := Step(w, op).0;
            next.item.Some? && next.item.value.retries ==
                               w.item.value.retries + One(PutsBack(w, op) && op.kind != Timing)
  {
    StepItem(w, op);
  }

  /** The promise that a timing rejection resets the retries holds exactly when there is nothing to reset. */
  lemma TimingResetsExactly(w: World, op: Op)
    requires w.item.Some? && op.Reject? && op.kind == Timing && op.requeue && Step(w, op).1.Ok?
    ensures PutsBack(w, op) && Step(w, op).0.item.Some? && Step(w, op).0.log.ticks == w.log.ticks
    ensures Step(w, op).0.item.value.retries == 0 <==> w.item.value.retries == 0
  {
  }

  /** A run in which retries stay spent: a quality rejection whose closing write failed, then a
      timing rejection that is accepted. */
  lemma TimingKeepsRetries(w0: World)
    requires Fresh(w0) && w0.item.Some? && w0.item.value.retries < MAX_RETRIES
    ensures var w := Run(w0, [Op.Reject(Quality, true, "", NO_FAULTS.(close := true)),
                              Op.Reject(Timing, true, "", NO_FAULTS)]);
            && w.result.Some? && w.result.value.status == Status.Rejected
            && w.item.Some? && w.item.value.retries == w0.item.value.retries + 1
  {
    var ops := [Op.Reject(Quality, true, "", NO_FAULTS.(close := true)),
                Op.Reject(Timing, true, "", NO_FAULTS)];
    assert ops[..1] == [ops[0]] && ops[..1][..0] == [];
    assert Run(w0, ops[..1]) == Step(Run(w0, []), ops[0]).0;
  }

  // ---------- the answer "failed for good" ----------

  /** When a rejection answers that the item failed for good, that is so if and only if there is an
      item, and it was so already or the write that a no-requeue rejection makes was not lost. */
  lemma FailedPermanentAnswer(w: World, op: Op)
    requires op.Reject? && Step(w, op).1.Ok? && Step(w, op).1.failedPermanent
    ensures var next := Step(w, op).0;
            next.item.Some? && next.item.value.lifecycle == FailedPermanent <==>
            w.item.Some? && (op.requeue || !op.faults.deadLetter || w.item.value.lifecycle == FailedPermanent)
  {
  }

  /** The two ways to get that answer for nothing: there is no item, or the write is lost. */
  lemma FailedPermanentForNothing(w: World)
    requires Opens(w, Op.Reject(Quality, true, "", NO_FAULTS))
    ensures w.item.None? ==> Step(w, Op.Reject(Quality, true, "", NO_FAULTS)).1 == Ok(false, true)
    ensures var lost := Step(w, Op.Reject(Quality, false, "", NO_FAULTS.(deadLetter := true)));
            lost.1 == Ok(false, true) && lost.0.item == w.item
  {
  }
}
