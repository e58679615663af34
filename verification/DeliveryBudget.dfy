/**
  What retries cost in runs where live workers stay within their leases: how many dispatch
  calls an entry gets before it is completed or dead, and how far apart its claims are.
 */
module DeliveryBudget {
  import opened Wrappers
  import opened GoInt
  import opened Outbox
  import opened OutboxProtocol
  import opened Dispatcher

  /** Calls available to an entry with `r` failed marks to go: r+1 in this claim, one less in each later one. */
  function Budget(r: nat): nat {
    if r == 0 then 0 else Budget(r - 1) + r + 1
  }

  lemma {:induction false} BudgetClosedForm(r: nat)
    ensures 2 * Budget(r) == r * (r + 3)
  {
    if r > 0 {
      BudgetClosedForm(r - 1);
    }
  }

  /** The failed marks that make a row dead; a row with MaxAttempts below 1 still gets one. */
  function Quota(r: Row): nat {
    if r.maxAttempts < 1 then 1 else r.maxAttempts
  }

  /** A full budget, one more for each replay, and one full loop for each claim that ended without a mark. */
  function Allowance(m: nat, replays: nat, lost: nat): nat {
    if lost > 0 then Allowance(m, replays, lost - 1) + m + 1
    else if replays > 0 then Allowance(m, replays - 1, 0) + Budget(m)
    else Budget(m)
  }

  lemma {:induction false} AllowanceReplay(m: nat, replays: nat, lost: nat)
    ensures Allowance(m, replays + 1, lost) == Allowance(m, replays, lost) + Budget(m)
  {
    if lost > 0 {
      AllowanceReplay(m, replays, lost - 1);
    }
  }

  lemma {:induction false} AllowanceIsLinear(m: nat, b: nat, replays: nat, lost: nat)
    requires b == Budget(m)
    ensures Allowance(m, replays, lost) == (1 + replays) * b + lost * (m + 1)
  {
    if lost > 0 {
      AllowanceIsLinear(m, b, replays, lost - 1);
      assert lost * (m + 1) == (lost - 1) * (m + 1) + (m + 1);
    } else if replays > 0 {
      AllowanceIsLinear(m, b, replays - 1, 0);
      assert (1 + replays) * b == replays * b + b;
    }
  }

  lemma AllowanceClosedForm(m: nat, replays: nat, lost: nat)
    ensures 2 * Allowance(m, replays, lost) == (1 + replays) * (m * (m + 3)) + 2 * (lost * (m + 1))
  {
    var b := Budget(m);
    BudgetClosedForm(m);
    AllowanceIsLinear(m, b, replays, lost);
    assert 2 * ((1 + replays) * b) == (1 + replays) * (2 * b);
  }

  predicate Live(r: Row) {
    r.status == Pending || r.status == Processing
  }

  /** What a row may still use. */
  function Left(r: Row): nat
    requires r.attempt <= Quota(r)
  {
    if Live(r) then Budget(Quota(r) - r.attempt) else 0
  }

  /** A row is completed exactly when a success was marked, and dead only without a payload or without tries. */
  predicate Settled(r: Row, t: Tally) {
    && (r.status == Completed <==> t.acked)
    && (r.status == Dead ==> !r.payloadDecodes || r.attempt == Quota(r))
  }

  /** `calls` are the dispatch calls of the worker holding the row, not yet paid for by a mark. */
  predicate BudgetOk(r: Row, t: Tally, calls: nat) {
    && Settled(r, t)
    && r.attempt <= Quota(r)
    && (Live(r) ==> r.attempt < Quota(r))
    && t.failedMarks == r.attempt
    && t.dispatches + Left(r) <= Allowance(Quota(r), t.replays, t.lost) + calls
  }

  predicate CallsOk(job: Job) {
    var n := RetriesOf(job.entry);
    match job.phase
    case Sending(k, _) => job.calls == k + 1 && k <= n
    case Sleeping(k, _) => job.calls == k + 1 && k < n
    case Finished(_, _) => job.calls <= n + 1
    case Failing(_, _) => job.calls <= n + 1
    case Poisoned(_) => job.calls == 0 && !job.entry.payloadDecodes
  }

  ghost predicate Unheld(jobs: map<WorkerId, Job>, id: Id) {
    forall w :: w in jobs ==> jobs[w].id != id
  }

  ghost predicate Fits(jobs: map<WorkerId, Job>, id: Id, r: Row, t: Tally) {
    && (Unheld(jobs, id) ==> BudgetOk(r, t, 0))
    && (forall w :: w in jobs && jobs[w].id == id ==> BudgetOk(r, t, jobs[w].calls) && CallsOk(jobs[w]))
  }

  ghost predicate BudgetInv(s: State) {
    forall id :: id in s.rows ==> Fits(s.jobs, id, s.rows[id], TallyOf(s, id))
  }

  // ---------- one row, one mark ----------

  lemma CallsFitRoom(job: Job, r: Row)
    requires CallsOk(job) && SameIdentity(job.entry, r) && job.entry.attempt == r.attempt < Quota(r)
    ensures job.calls <= Quota(r) - r.attempt + 1 <= Budget(Quota(r) - r.attempt)
  {
  }

  lemma MarkPaysCalls(job: Job, r: Row, t: Tally, written: bool, err: string, now: Time)
    requires written ==> ReadyToMark(job)
    requires BudgetOk(r, t, job.calls) && CallsOk(job) && SameIdentity(job.entry, r)
    requires r.status == Processing && job.entry.attempt == r.attempt && (job.phase.Failing? ==> job.phase.read == r)
    ensures BudgetOk(if written then Marked(job, r, err, now) else r, TallyAfterMark(job, t, written), 0)
  {
    CallsFitRoom(job, r);
    LostPays(r, t, job.calls);
  }

  /** A claim that ended without a mark is covered by one more full loop. */
  lemma LostPays(r: Row, t: Tally, calls: nat)
    requires BudgetOk(r, t, calls) && calls <= Quota(r) + 1
    ensures BudgetOk(r, t.(lost := t.lost + 1), 0)
  {
  }

  lemma ReplayRenewsBudget(r: Row, t: Tally, now: Time)
    requires BudgetOk(r, t, 0) && r.status == Dead
    ensures BudgetOk(Replayed(r, now), t.(replays := t.replays + 1, failedMarks := 0, firstClaim := None), 0)
  {
    AllowanceReplay(Quota(r), t.replays, t.lost);
  }

  lemma RespondKeepsCalls(job: Job, o: Outcome, wait: int, now: Time)
    requires CallsOk(job) && job.phase.Sending?
    ensures CallsOk(job.(phase := NextPhase(job, o, wait, now)))
  {
  }

  // ---------- every step ----------

  ghost predicate Before(s: State, step: Step) {
    AlwaysInv(s) && LeaseInv(s) && InLease(s) && BudgetInv(s) && Acts(s, step)
  }

  /** The row a step touches still fits its budget. */
  ghost predicate ActorFits(s: State, step: Step, id: Id)
    requires Acts(s, step)
  {
    && id == RowTouched(s, step) && id in s.rows
    && Fits(JobsAfter(s, step), id, RowAfter(s, step, s.rows[id]), TallyAfter(s, step, TallyOf(s, id)))
  }

  /** The worker that goes on with the row, or has just claimed it, is its only holder. */
  lemma HeldFits(s: State, step: Step, id: Id)
    requires Acts(s, step) && id == RowTouched(s, step) && id in s.rows
    requires exists w :: w in JobsAfter(s, step) && JobsAfter(s, step)[w].id == id
    requires forall w :: w in JobsAfter(s, step) && JobsAfter(s, step)[w].id == id ==>
      BudgetOk(RowAfter(s, step, s.rows[id]), TallyAfter(s, step, TallyOf(s, id)), JobsAfter(s, step)[w].calls) && CallsOk(JobsAfter(s, step)[w])
    ensures ActorFits(s, step, id)
  {
    hide RowAfter, TallyAfter, BudgetOk, CallsOk, Enabled, JobsAfter, RowTouched;
  }

  lemma ClaimFits(s: State, step: Step)
    requires Before(s, step) && step.Claim?
    ensures ActorFits(s, step, step.id)
  {
    hide AlwaysInv, IsClaim;
    var id, jobs := step.id, JobsAfter(s, step);
    ClaimTakesFreeRow(s, step.w, id);
    assert Fits(s.jobs, id, s.rows[id], TallyOf(s, id)) && Unheld(s.jobs, id);
    var opening := Opening(s.rows[id], id, s.clock);
    OpeningWithinBudget(s.rows[id], TallyOf(s, id), id, s.clock);
    assert jobs[step.w] == opening && opening.id == id;
    HeldFits(s, step, id);
  }

  /** A claim starts the first call. */
  lemma OpeningWithinBudget(r: Row, t: Tally, id: Id, now: Time)
    requires BudgetOk(r, t, 0) && Live(r)
    ensures var opening, first := Opening(r, id, now), if t.firstClaim.None? then Some(now) else t.firstClaim;
      && CallsOk(opening)
      && BudgetOk(r.(status := Processing, updatedAt := now), t.(dispatches := t.dispatches + opening.calls, firstClaim := first), opening.calls)
  {
  }

  lemma ReplayFits(s: State, step: Step)
    requires Before(s, step) && step.Replay?
    ensures ActorFits(s, step, step.id)
  {
    var id := step.id;
    forall w | w in s.jobs ensures s.jobs[w].id != id { assert Holds(s, s.jobs[w]); }
    assert Fits(s.jobs, id, s.rows[id], TallyOf(s, id)) && Unheld(s.jobs, id);
    ReplayRenewsBudget(s.rows[id], TallyOf(s, id), s.clock);
  }

  lemma CallsAreFew(s: State, job: Job, r: Row)
    requires JobOk(s, job) && CallsOk(job) && job.id in s.rows && r == s.rows[job.id]
    ensures job.calls <= Quota(r) + 1
  {
  }

  /** After a mark or a crash nobody holds the row. */
  lemma LetGo(s: State, step: Step)
    requires Exclusive(s) && Acts(s, step) && (step.Mark? || step.Crash?)
    ensures Unheld(JobsAfter(s, step), s.jobs[step.w].id)
  {
  }

  lemma LettingGoPays(s: State, step: Step)
    requires Before(s, step) && (step.Mark? || step.Crash?)
    ensures var id := s.jobs[step.w].id;
      id in s.rows && BudgetOk(RowAfter(s, step, s.rows[id]), TallyAfter(s, step, TallyOf(s, id)), 0)
  {
    hide IsClaim, LegalWait, UniquePairs, RowOk, BudgetOk, CallsOk;
    var job := s.jobs[step.w];
    var id := job.id;
    assert Holds(s, job) && JobOk(s, job);
    assert Fits(s.jobs, id, s.rows[id], TallyOf(s, id));
    CallsAreFew(s, job, s.rows[id]);
    if step.Mark? {
      MarkPaysCalls(job, s.rows[id], TallyOf(s, id), step.written, step.err, s.clock);
    } else {
      LostPays(s.rows[id], TallyOf(s, id), job.calls);
    }
  }

  /** A mark or a crash lets go of the row. */
  lemma LettingGoFits(s: State, step: Step)
    requires Before(s, step) && (step.Mark? || step.Crash?)
    ensures ActorFits(s, step, s.jobs[step.w].id)
  {
    LettingGoPays(s, step);
    LetGo(s, step);
    hide Before, Enabled, BudgetOk, CallsOk, RowAfter, TallyAfter, JobsAfter;
  }

  lemma HolderWithinBudget(s: State, w: WorkerId)
    requires LeaseInv(s) && BudgetInv(s) && w in s.jobs
    ensures var job := s.jobs[w]; job.id in s.rows && BudgetOk(s.rows[job.id], TallyOf(s, job.id), job.calls) && CallsOk(job)
  {
    assert Holds(s, s.jobs[w]);
    assert Fits(s.jobs, s.jobs[w].id, s.rows[s.jobs[w].id], TallyOf(s, s.jobs[w].id));
  }

  /** A worker that gets an answer, starts its next call or reads the row for its mark. */
  lemma MovingOnFits(s: State, step: Step)
    requires Before(s, step) && (step.Respond? || step.Wake? || step.ReadRow?)
    ensures ActorFits(s, step, s.jobs[step.w].id)
  {
    hide AlwaysInv, InLease, BudgetInv, BudgetOk, CallsOk, Holds, NextPhase, LegalWait, WaitsAfter, TallyAfter, RowAfter;
    var jobs, id := JobsAfter(s, step), s.jobs[step.w].id;
    HolderWithinBudget(s, step.w);
    NextCalls(s, step);
    OnlyHolder(s, jobs, step.w, jobs[step.w]);
    HeldFits(s, step, id);
  }

  /** The calls counted for the row and for the worker go up together. */
  lemma NextCalls(s: State, step: Step)
    requires Acts(s, step) && (step.Respond? || step.Wake? || step.ReadRow?) && CallsOk(s.jobs[step.w])
    ensures CallsOk(JobsAfter(s, step)[step.w])
    ensures forall r, t :: BudgetOk(r, t, s.jobs[step.w].calls) ==>
      BudgetOk(RowAfter(s, step, r), TallyAfter(s, step, t), JobsAfter(s, step)[step.w].calls)
  {
    if step.Respond? { RespondKeepsCalls(s.jobs[step.w], step.outcome, step.wait, s.clock); }
  }

  /** When the job of one worker moves on, that worker is still the only holder of its row. */
  lemma OnlyHolder(s: State, jobs: map<WorkerId, Job>, w: WorkerId, job: Job)
    requires Exclusive(s) && w in s.jobs && job.id == s.jobs[w].id && jobs == s.jobs[w := job]
    ensures !Unheld(jobs, job.id)
    ensures forall v :: v in jobs && jobs[v].id == job.id ==> v == w
  {
    assert jobs[w] == job;
  }

  lemma ActorKeepsBudget(s: State, step: Step)
    requires Before(s, step)
    ensures ActorFits(s, step, RowTouched(s, step))
  {
    hide ActorFits;
    match step {
      case Claim(_, _) => ClaimFits(s, step);
      case Replay(_) => ReplayFits(s, step);
      case Mark(_, _, _) => LettingGoFits(s, step);
      case Crash(_) => LettingGoFits(s, step);
      case Respond(_, _, _) => MovingOnFits(s, step);
      case Wake(_) => MovingOnFits(s, step);
      case ReadRow(_) => MovingOnFits(s, step);
    }
  }

  lemma OthersKeepBudget(s: State, step: Step, id: Id, r: Row, t: Tally)
    requires Acts(s, step) && id != RowTouched(s, step) && Fits(s.jobs, id, r, t)
    ensures Fits(JobsAfter(s, step), id, r, t)
  {
    var jobs := JobsAfter(s, step);
    if Unheld(jobs, id) {
      forall w | w in s.jobs ensures s.jobs[w].id != id {
        if w in jobs { assert jobs[w].id != id; }
      }
    }
    forall w | w in jobs && jobs[w].id == id ensures w in s.jobs && jobs[w] == s.jobs[w] {
      JobsAfterShape(s, step, w);
    }
  }

  lemma NewRowFits(s: State, id: Id, r: Row)
    requires AlwaysInv(s) && id !in s.rows && IsNewEntry(r, s.clock)
    ensures Fits(s.jobs, id, r, NO_TALLY)
  {
    hide UniquePairs, RowOk, CallsOk;
    forall w | w in s.jobs ensures s.jobs[w].id != id { assert JobOk(s, s.jobs[w]); }
    assert BudgetOk(r, NO_TALLY, 0);
  }

  lemma NewRowsWithinBudget(s: State, step: Step)
    requires AlwaysInv(s) && BudgetInv(s) && Enabled(s, step) && step.Publish?
    ensures BudgetInv(Apply(s, step))
  {
    hide Apply, Enabled, Fits, UniquePairs, RowOk, JobOk, IsNewEntry;
    var t := Apply(s, step);
    PublishAdds(s, step);
    forall id | id in t.rows ensures Fits(t.jobs, id, t.rows[id], TallyOf(t, id)) {
      if id in s.rows {
        assert Fits(s.jobs, id, s.rows[id], TallyOf(s, id));
      } else {
        NewRowFits(s, id, t.rows[id]);
      }
    }
  }

  /** What a step does to the row it touches, to its history and to the jobs is all it does. */
  lemma StepParts(s: State, step: Step)
    requires AlwaysInv(s) && Acts(s, step)
    ensures var t, id := Apply(s, step), RowTouched(s, step);
      && id in s.rows && t.rows == s.rows[id := RowAfter(s, step, s.rows[id])]
      && t.jobs == JobsAfter(s, step) && t.clock == s.clock
      && (forall x :: x in t.rows ==> TallyOf(t, x) == if x == id then TallyAfter(s, step, TallyOf(s, id)) else TallyOf(s, x))
  {
    hide Enabled, RowAfter, JobsAfter, TallyAfter, RowTouched;
    ActorHasRow(s, step);
  }

  lemma ActionKeepsBudget(s: State, step: Step)
    requires Before(s, step)
    ensures BudgetInv(Apply(s, step))
  {
    hide Apply, Enabled, Fits, AlwaysInv, LeaseInv, InLease, RowAfter, JobsAfter, TallyAfter, RowTouched, TallyOf;
    var t := Apply(s, step);
    StepParts(s, step);
    ActorKeepsBudget(s, step);
    forall id | id in t.rows ensures Fits(t.jobs, id, t.rows[id], TallyOf(t, id)) {
      if id != RowTouched(s, step) { OthersKeepBudget(s, step, id, s.rows[id], TallyOf(s, id)); }
    }
  }

  lemma TickKeepsBudget(s: State, step: Step)
    requires BudgetInv(s) && Enabled(s, step) && step.Tick?
    ensures BudgetInv(Apply(s, step))
  {
    hide Enabled, Fits;
    var t := Apply(s, step);
    forall id | id in t.rows ensures Fits(t.jobs, id, t.rows[id], TallyOf(t, id)) {
      assert Fits(s.jobs, id, s.rows[id], TallyOf(s, id));
    }
  }

  lemma BudgetStep(s: State, step: Step)
    requires AlwaysInv(s) && LeaseInv(s) && InLease(s) && BudgetInv(s) && Enabled(s, step)
    ensures BudgetInv(Apply(s, step))
  {
    hide Apply, Enabled, AlwaysInv, LeaseInv, InLease, BudgetInv;
    if step.Publish? {
      NewRowsWithinBudget(s, step);
    } else if step.Tick? {
      TickKeepsBudget(s, step);
    } else {
      ActionKeepsBudget(s, step);
    }
  }

  lemma {:induction false} BudgetRunInv(trace: seq<State>, steps: seq<Step>, j: nat)
    requires LeaseRun(trace, steps) && j < |trace|
    ensures BudgetInv(trace[j])
  {
    hide Apply, AlwaysInv, LeaseInv;
    if j > 0 {
      BudgetRunInv(trace, steps, j - 1);
      LeaseRunInv(trace, steps, j - 1);
      BudgetStep(trace[j - 1], steps[j - 1]);
    }
  }

  /**
    Nothing is lost silently: at any moment a published row is pending or processing, or it is
    completed, which is so exactly when the mark of a success was written, or it is dead, and then its
    payload does not decode or all its tries failed.
   */
  lemma NoSilentLoss(trace: seq<State>, steps: seq<Step>, i: nat, j: nat, id: Id)
    requires LeaseRun(trace, steps) && i <= j < |trace| && id in trace[i].rows
    ensures id in trace[j].rows
    ensures var r, t := trace[j].rows[id], TallyOf(trace[j], id);
      && (r.status == Completed <==> t.acked)
      && (t.acked ==> t.delivered)
      && (r.status == Dead ==> !r.payloadDecodes || t.failedMarks >= r.maxAttempts)
      && (r.status == Pending || r.status == Processing || r.status == Completed || r.status == Dead)
  {
    EveryRun(trace, steps, j);
    assert Persists(trace[i], trace[j]);
    BudgetRunInv(trace, steps, j);
    LeaseRunInv(trace, steps, j);
    var s := trace[j];
    assert Fits(s.jobs, id, s.rows[id], TallyOf(s, id)) && RowOk(s, id);
    if !Unheld(s.jobs, id) {
      var w :| w in s.jobs && s.jobs[w].id == id;
      assert BudgetOk(s.rows[id], TallyOf(s, id), s.jobs[w].calls);
    }
  }

  lemma DispatchesWithinAllowance(s: State, id: Id)
    requires AlwaysInv(s) && LeaseInv(s) && BudgetInv(s) && id in s.rows
    ensures var r, t := s.rows[id], TallyOf(s, id);
      && t.failedMarks == r.attempt <= Quota(r)
      && (Live(r) ==> r.attempt < Quota(r))
      && t.dispatches <= Allowance(Quota(r), t.replays, t.lost)
  {
    assert Fits(s.jobs, id, s.rows[id], TallyOf(s, id));
    if !Unheld(s.jobs, id) {
      var w :| w in s.jobs && s.jobs[w].id == id;
      assert Holds(s, s.jobs[w]) && JobOk(s, s.jobs[w]);
      CallsFitRoom(s.jobs[w], s.rows[id]);
    }
  }

  /**
    Let m be an entry's MaxAttempts, at least 1. It is marked failed at most m times, its attempt
    count never exceeds m, and it gets at most m(m+3)/2 dispatch calls - plus as many for every
    replay, plus m+1 for every claim that a crash or a failed write left without a mark.
   */
  lemma DispatchBudget(trace: seq<State>, steps: seq<Step>, j: nat, id: Id)
    requires LeaseRun(trace, steps) && j < |trace| && id in trace[j].rows
    ensures var r, t := trace[j].rows[id], TallyOf(trace[j], id);
      var m: nat := if r.maxAttempts < 1 then 1 else r.maxAttempts;
      && t.failedMarks == r.attempt <= m
      && (r.status == Pending || r.status == Processing ==> r.attempt < m)
      && 2 * t.dispatches <= (1 + t.replays) * (m * (m + 3)) + 2 * (t.lost * (m + 1))
  {
    BudgetRunInv(trace, steps, j);
    LeaseRunInv(trace, steps, j);
    var s := trace[j];
    DispatchesWithinAllowance(s, id);
    AllowanceClosedForm(Quota(s.rows[id]), TallyOf(s, id).replays, TallyOf(s, id).lost);
  }

  // ---------- spacing of the claims ----------

  /** 2 + 4 + ... + 2^k seconds. */
  function Delay(k: nat): int {
    (Pow2(k + 1) - 2) * SECOND
  }

  predicate Spaced(r: Row, t: Tally) {
    match t.firstClaim
    case None => r.status == Pending && r.attempt == 0
    case Some(f) => r.maxAttempts <= 34 ==>
      && (r.status == Pending ==> r.attempt < r.maxAttempts && r.nextAttemptAt >= f + Delay(r.attempt))
      && (r.status == Processing ==> r.updatedAt >= f + Delay(r.attempt))
  }

  ghost predicate SpacingInv(s: State) {
    forall id :: id in s.rows ==> Spaced(s.rows[id], TallyOf(s, id))
  }

  lemma FailedMarkSpaces(r: Row, t: Tally, err: string, now: Time)
    requires Spaced(r, t) && r.status == Processing && r.updatedAt <= now
    ensures Spaced(FailedMark(r, err, now), t)
  {
    if r.attempt + 1 < r.maxAttempts <= 34 {
      RetryBackoffExactIff(r.attempt + 1);
    }
  }

  /** A worker about to mark holds the row as it claimed it, and does not come before its claim. */
  lemma MarkerHolds(s: State, step: Step)
    requires AlwaysInv(s) && LeaseInv(s) && Acts(s, step) && step.Mark?
    ensures var job := s.jobs[step.w]; job.id in s.rows && HoldsRow(job, s.rows[job.id]) && s.rows[job.id].updatedAt <= s.clock
  {
    assert Holds(s, s.jobs[step.w]) && JobOk(s, s.jobs[step.w]);
  }

  lemma ActorKeepsSpacing(s: State, step: Step)
    requires AlwaysInv(s) && LeaseInv(s) && SpacingInv(s) && Acts(s, step) && RowTouched(s, step) in s.rows
    ensures var id := RowTouched(s, step); Spaced(RowAfter(s, step, s.rows[id]), TallyAfter(s, step, TallyOf(s, id)))
  {
    var id := RowTouched(s, step);
    assert Spaced(s.rows[id], TallyOf(s, id));
    if step.Mark? {
      MarkerHolds(s, step);
      FailedMarkSpaces(s.rows[id], TallyOf(s, id), step.err, s.clock);
    }
    hide AlwaysInv, LeaseInv, SpacingInv, RetryBackoff, Pow2, IsClaim, LegalWait;
  }

  lemma PublishKeepsSpacing(s: State, step: Step)
    requires AlwaysInv(s) && SpacingInv(s) && Enabled(s, step) && step.Publish?
    ensures SpacingInv(Apply(s, step))
  {
    hide Apply, Enabled, AlwaysInv;
    var t := Apply(s, step);
    PublishAdds(s, step);
    forall id | id in t.rows ensures Spaced(t.rows[id], TallyOf(t, id)) {
      if id in s.rows { assert Spaced(s.rows[id], TallyOf(s, id)); } else { Unpublished(s, id); }
    }
  }

  lemma ActionKeepsSpacing(s: State, step: Step)
    requires AlwaysInv(s) && LeaseInv(s) && SpacingInv(s) && Acts(s, step)
    ensures SpacingInv(Apply(s, step))
  {
    hide Apply, Enabled, AlwaysInv, LeaseInv, Spaced, RowAfter, JobsAfter, TallyAfter, RowTouched, TallyOf;
    var t := Apply(s, step);
    StepParts(s, step);
    ActorKeepsSpacing(s, step);
    forall id | id in t.rows ensures Spaced(t.rows[id], TallyOf(t, id)) {
      if id != RowTouched(s, step) { assert Spaced(s.rows[id], TallyOf(s, id)); }
    }
  }

  lemma SpacingStep(s: State, step: Step)
    requires AlwaysInv(s) && LeaseInv(s) && SpacingInv(s) && Enabled(s, step)
    ensures SpacingInv(Apply(s, step))
  {
    hide Enabled, AlwaysInv, LeaseInv, Spaced;
    if step.Publish? {
      PublishKeepsSpacing(s, step);
    } else if step.Tick? {
      var t := Apply(s, step);
      forall id | id in t.rows ensures Spaced(t.rows[id], TallyOf(t, id)) { assert Spaced(s.rows[id], TallyOf(s, id)); }
    } else {
      ActionKeepsSpacing(s, step);
    }
  }

  lemma Unpublished(s: State, id: Id)
    requires AlwaysInv(s) && id !in s.rows
    ensures TallyOf(s, id) == NO_TALLY
  {
  }

  lemma {:induction false} SpacingRunInv(trace: seq<State>, steps: seq<Step>, j: nat)
    requires LeaseRun(trace, steps) && j < |trace|
    ensures SpacingInv(trace[j])
  {
    hide Apply, Enabled, AlwaysInv, LeaseInv, InLease;
    if j > 0 {
      SpacingRunInv(trace, steps, j - 1);
      LeaseRunInv(trace, steps, j - 1);
      SpacingStep(trace[j - 1], steps[j - 1]);
    }
  }

  /**
    With MaxAttempts at most 34, the claim that follows an entry's k-th failed mark comes at
    least 2^(k+1) - 2 seconds after its first claim since it was published or replayed.
   */
  lemma ClaimsAreSpaced(trace: seq<State>, steps: seq<Step>, j: nat, w: WorkerId, id: Id)
    requires LeaseRun(trace, steps) && j < |steps| && steps[j] == Claim(w, id)
    requires id in trace[j].rows && trace[j].rows[id].maxAttempts <= 34
    ensures var t := TallyOf(trace[j], id);
      t.firstClaim.Some? ==> trace[j].clock >= t.firstClaim.value + (Pow2(t.failedMarks + 1) - 2) * SECOND
    ensures var s := trace[j]; NoneOlder(s.rows, EligibleIds(s.rows, s.clock), [id], s.rows[id].createdAt)
  {
    SpacingRunInv(trace, steps, j);
    DispatchBudget(trace, steps, j, id);
    var s := trace[j];
    assert Spaced(s.rows[id], TallyOf(s, id));
    assert Enabled(s, steps[j]) && [id][0] == id;
  }
}
