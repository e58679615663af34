/**
  The webhook outbox as a state machine: any number of workers, one table, one clock.
  A worker claims a row, makes its dispatch calls, writes one mark and lets go; it may
  crash at any point, and nothing but the lease stops another worker from claiming its row.
 */
module OutboxProtocol {
  import opened Wrappers
  import opened GoInt
  import opened Outbox
  import opened Dispatcher

  type WorkerId = nat

  datatype Phase =
    | Sending(k: nat, since: Time)              // dispatch call k (0-based) is in flight
    | Sleeping(k: nat, until: Time)             // waiting after failed call k
    | Finished(success: bool, since: Time)      // the loop is over, the mark not yet written
    | Failing(read: Row, since: Time)           // the failed mark has read the row, not yet updated it
    | Poisoned(since: Time)                     // the payload did not decode

  /** What a live worker holds: the row as it was selected, and how far its loop got. */
  datatype Job = Job(id: Id, entry: Row, claimedAt: Time, phase: Phase, calls: nat)

  /** History of one row. `lost` counts claims that ended without a mark. */
  datatype Tally = Tally(
    dispatches: nat,              // dispatch calls started
    delivered: bool,              // some call returned 2xx
    acked: bool,                  // the mark of a success was written
    failedMarks: nat,             // failed marks since the last replay
    lost: nat,
    replays: nat,
    firstClaim: Option<Time>)     // first claim since publishing or the last replay

  datatype State = State(clock: Time, rows: Rows, jobs: map<WorkerId, Job>, tally: map<Id, Tally>)

  datatype Step =
    | Publish(entries: seq<(Id, Row)>)
    | Claim(w: WorkerId, id: Id)
    | Respond(w: WorkerId, outcome: Outcome, wait: int)
    | Wake(w: WorkerId)
    | ReadRow(w: WorkerId)
    | Mark(w: WorkerId, written: bool, err: string)
    | Crash(w: WorkerId)
    | Replay(id: Id)
    | Tick(d: nat)

  const NO_TALLY := Tally(0, false, false, 0, 0, 0, None)

  function Init(clock: Time): State {
    State(clock, map[], map[], map[])
  }

  function RetriesOf(entry: Row): nat {
    Retries(entry.maxAttempts - entry.attempt)
  }

  /** The worker's loop goes on to wait after this outcome of call k. */
  predicate WaitsAfter(entry: Row, k: nat, o: Outcome) {
    IsRetryable(o) && k < RetriesOf(entry)
  }

  ghost predicate IsNewEntry(r: Row, now: Time) {
    r.status == Pending && r.attempt == 0 && r.nextAttemptAt == r.createdAt == now
  }

  /** The next statement of this worker is the update of its mark. A failed mark reads the row first. */
  predicate ReadyToMark(job: Job) {
    job.phase.Poisoned? || job.phase.Failing? || (job.phase.Finished? && job.phase.success)
  }

  ghost predicate Enabled(s: State, step: Step) {
    match step
    case Publish(entries) =>
      FreshIds(s.rows, entries) && forall e :: e in entries ==> IsNewEntry(e.1, s.clock)
    case Claim(w, id) =>
      w !in s.jobs && id in s.rows && Eligible(s.rows[id], s.clock) && IsClaim(s.rows, s.clock, 1, [id])
    case Respond(w, o, wait) =>
      && w in s.jobs && s.jobs[w].phase.Sending? && o.WellFormed()
      && (WaitsAfter(s.jobs[w].entry, s.jobs[w].phase.k, o) ==> LegalWait(s.jobs[w].phase.k, o, wait))
    case Wake(w) =>
      w in s.jobs && s.jobs[w].phase.Sleeping? && s.jobs[w].phase.until <= s.clock
    case ReadRow(w) =>
      w in s.jobs && s.jobs[w].phase.Finished? && !s.jobs[w].phase.success && s.jobs[w].id in s.rows
    case Mark(w, written, _) =>
      w in s.jobs && (ReadyToMark(s.jobs[w]) || (!written && s.jobs[w].phase.Finished?))
    case Crash(w) =>
      w in s.jobs
    case Replay(id) =>
      id in s.rows && s.rows[id].status == Dead
    case Tick(_) => true
  }

  function Opening(entry: Row, id: Id, now: Time): Job {
    if entry.payloadDecodes then Job(id, entry, now, Sending(0, now), 1) else Job(id, entry, now, Poisoned(now), 0)
  }

  function NextPhase(job: Job, o: Outcome, wait: int, now: Time): Phase
    requires job.phase.Sending?
  {
    if WaitsAfter(job.entry, job.phase.k, o) then Sleeping(job.phase.k, now + wait) else Finished(o.success, now)
  }

  function TallyOf(s: State, id: Id): Tally {
    if id in s.tally then s.tally[id] else NO_TALLY
  }

  /** The row after the mark this job writes. */
  function Marked(job: Job, r: Row, err: string, now: Time): Row
    requires ReadyToMark(job)
  {
    match job.phase
    case Poisoned(_) => DeadMark(r, err, now)
    case Failing(read, _) => FailedWrite(read, r, err, now)
    case Finished(_, _) => CompletedMark(r, now)
  }

  function TallyAfterMark(job: Job, t: Tally, written: bool): Tally {
    if !written then t.(lost := t.lost + 1)
    else
      match job.phase
      case Failing(_, _) => t.(failedMarks := t.failedMarks + 1)
      case Finished(_, _) => t.(acked := true)
      case _ => t
  }

  /** The steps of one worker on one row, and the replay of one row. */
  ghost predicate Acts(s: State, step: Step) {
    Enabled(s, step) && !step.Publish? && !step.Tick?
  }

  /** The step is this worker's. */
  predicate IsBy(step: Step, v: WorkerId) {
    !step.Publish? && !step.Tick? && !step.Replay? && step.w == v
  }

  ghost function RowTouched(s: State, step: Step): Id
    requires Acts(s, step)
  {
    if step.Claim? || step.Replay? then step.id else s.jobs[step.w].id
  }

  /** The row touched, after the step. Marks filter on the id alone. */
  ghost function RowAfter(s: State, step: Step, r: Row): Row
    requires Acts(s, step)
  {
    match step
    case Claim(_, _) => r.(status := Processing, updatedAt := s.clock)
    case Mark(w, true, err) => Marked(s.jobs[w], r, err, s.clock)
    case Replay(_) => Replayed(r, s.clock)
    case _ => r
  }

  ghost function TallyAfter(s: State, step: Step, t: Tally): Tally
    requires Acts(s, step)
  {
    match step
    case Claim(w, id) =>
      t.(dispatches := t.dispatches + Opening(s.rows[id], id, s.clock).calls,
         firstClaim := if t.firstClaim.None? then Some(s.clock) else t.firstClaim)
    case Respond(_, o, _) => t.(delivered := t.delivered || o.success)
    case Wake(_) => t.(dispatches := t.dispatches + 1)
    case ReadRow(_) => t
    case Mark(w, written, _) => TallyAfterMark(s.jobs[w], t, written)
    case Crash(_) => t.(lost := t.lost + 1)
    case Replay(_) => t.(replays := t.replays + 1, failedMarks := 0, firstClaim := None)
  }

  ghost function JobsAfter(s: State, step: Step): map<WorkerId, Job>
    requires Acts(s, step)
  {
    match step
    case Claim(w, id) => s.jobs[w := Opening(s.rows[id], id, s.clock)]
    case Respond(w, o, wait) => s.jobs[w := s.jobs[w].(phase := NextPhase(s.jobs[w], o, wait, s.clock))]
    case Wake(w) => s.jobs[w := s.jobs[w].(phase := Sending(s.jobs[w].phase.k + 1, s.clock), calls := s.jobs[w].calls + 1)]
    case ReadRow(w) => s.jobs[w := s.jobs[w].(phase := Failing(s.rows[s.jobs[w].id], s.jobs[w].phase.since))]
    case Mark(w, _, _) => s.jobs - {w}
    case Crash(w) => s.jobs - {w}
    case Replay(_) => s.jobs
  }

  ghost function Apply(s: State, step: Step): State
    requires Enabled(s, step)
  {
    if step.Publish? then
      var rows := InsertAll(s.rows, step.entries);
      State(s.clock, rows, s.jobs, map id | id in rows :: TallyOf(s, id))
    else if step.Tick? then
      State(s.clock + step.d, s.rows, s.jobs, s.tally)
    else
      var id := RowTouched(s, step);
      var rows := if id in s.rows then s.rows[id := RowAfter(s, step, s.rows[id])] else s.rows;
      State(s.clock, rows, JobsAfter(s, step), s.tally[id := TallyAfter(s, step, TallyOf(s, id))])
  }

  /** The table changes by exactly the repository's operations. */
  lemma StepsAreRepositoryOperations(s: State, step: Step)
    requires Acts(s, step)
    ensures var rows := Apply(s, step).rows;
      match step
      case Claim(w, id) => rows == Claimed(s.rows, [id], s.clock)
      case Mark(w, true, err) => rows == Put(s.rows, s.jobs[w].id, r => Marked(s.jobs[w], r, err, s.clock))
      case Replay(id) => rows == Put(s.rows, id, r => Replayed(r, s.clock))
      case _ => rows == s.rows
  {
    var id := RowTouched(s, step);
    assert step.Claim? ==> id in [id];
    if id in s.rows && s.rows[id] == RowAfter(s, step, s.rows[id]) {
      assert s.rows[id := s.rows[id]] == s.rows;
    }
  }

  // ---------- what one claim comes to ----------

  /** A claim of a row whose payload decodes starts its first call at once. */
  lemma ClaimSends(s: State, w: WorkerId, id: Id)
    requires Enabled(s, Claim(w, id)) && s.rows[id].payloadDecodes
    ensures var t := Apply(s, Claim(w, id));
      && t.rows[id] == s.rows[id].(status := Processing, updatedAt := s.clock)
      && w in t.jobs && t.jobs[w].id == id && t.jobs[w].entry == s.rows[id] && t.jobs[w].claimedAt == s.clock
      && t.jobs[w].phase == Sending(0, s.clock) && t.jobs[w].calls == 1
      && TallyOf(t, id).dispatches == TallyOf(s, id).dispatches + 1
  {
  }

  /** A claim of a row whose payload does not decode makes no call; its mark makes the row dead. */
  lemma PoisonedDies(s: State, w: WorkerId, id: Id, err: string)
    requires Enabled(s, Claim(w, id)) && !s.rows[id].payloadDecodes
    ensures var t := Apply(s, Claim(w, id));
      && TallyOf(t, id).dispatches == TallyOf(s, id).dispatches
      && Enabled(t, Mark(w, true, err))
      && var u := Apply(t, Mark(w, true, err)); id in u.rows && u.rows[id].status == Dead && u.rows[id].lastError == err && w !in u.jobs
  {
  }

  /** After a 2xx the worker's next statement is its mark, and that makes the row completed. */
  lemma SuccessCompletes(s: State, w: WorkerId, o: Outcome, wait: int, err: string)
    requires Enabled(s, Respond(w, o, wait)) && o.success
    ensures var t := Apply(s, Respond(w, o, wait));
      && w in t.jobs && t.jobs[w].phase == Finished(true, s.clock)
      && TallyOf(t, s.jobs[w].id).delivered
      && Enabled(t, Mark(w, true, err))
  {
  }

  /** Whenever that mark is written, whatever others did in between. */
  lemma FinishedCompletes(s: State, w: WorkerId, err: string)
    requires w in s.jobs && s.jobs[w].phase.Finished? && s.jobs[w].phase.success && s.jobs[w].id in s.rows
    ensures Enabled(s, Mark(w, true, err))
    ensures var t, id := Apply(s, Mark(w, true, err)), s.jobs[w].id;
      && id in t.rows && t.rows[id] == s.rows[id].(status := Completed, updatedAt := s.clock)
      && TallyOf(t, id).acked && w !in t.jobs
  {
  }

  /** A call that fails with a 429, a code outside 400..499 or no answer is followed by another while tries are left. */
  lemma FailureRetries(s: State, w: WorkerId, o: Outcome, wait: int)
    requires Enabled(s, Respond(w, o, wait)) && !o.success && (o.statusCode == 429 || o.statusCode < 400 || o.statusCode >= 500)
    requires s.jobs[w].phase.k < s.jobs[w].entry.maxAttempts - s.jobs[w].entry.attempt
    ensures var t, k := Apply(s, Respond(w, o, wait)), s.jobs[w].phase.k;
      && w in t.jobs && t.jobs[w].phase == Sleeping(k, s.clock + wait) && LegalWait(k, o, wait)
  {
  }

  /** When the wait is over the next call starts, and not before. */
  lemma WaitEnds(s: State, w: WorkerId)
    requires w in s.jobs && s.jobs[w].phase.Sleeping?
    ensures Enabled(s, Wake(w)) <==> s.jobs[w].phase.until <= s.clock
    ensures Enabled(s, Wake(w)) ==>
      var t, id := Apply(s, Wake(w)), s.jobs[w].id;
      && w in t.jobs && t.jobs[w].phase == Sending(s.jobs[w].phase.k + 1, s.clock) && t.jobs[w].calls == s.jobs[w].calls + 1
      && TallyOf(t, id).dispatches == TallyOf(s, id).dispatches + 1
  {
  }

  /** Any other failure ends the loop; the mark then reads the row before it updates it. */
  lemma FailureGivesUp(s: State, w: WorkerId, o: Outcome, wait: int)
    requires Enabled(s, Respond(w, o, wait)) && !o.success && s.jobs[w].id in s.rows
    requires (400 <= o.statusCode < 500 && o.statusCode != 429) ||
      s.jobs[w].phase.k >= s.jobs[w].entry.maxAttempts - s.jobs[w].entry.attempt
    ensures var t := Apply(s, Respond(w, o, wait));
      && w in t.jobs && t.jobs[w].phase == Finished(false, s.clock)
      && Enabled(t, ReadRow(w)) && var u := Apply(t, ReadRow(w)); u.rows == s.rows && u.jobs[w].phase == Failing(s.rows[s.jobs[w].id], s.clock)
  {
  }

  /** The failed mark counts one more attempt than the row it read; that was the last one, or the row is pending again later. */
  lemma FailingFails(s: State, w: WorkerId, err: string)
    requires w in s.jobs && s.jobs[w].phase.Failing? && s.jobs[w].id in s.rows
    ensures Enabled(s, Mark(w, true, err))
    ensures var t, id, read := Apply(s, Mark(w, true, err)), s.jobs[w].id, s.jobs[w].phase.read;
      && id in t.rows && w !in t.jobs && t.rows[id].attempt == read.attempt + 1
      && TallyOf(t, id).failedMarks == TallyOf(s, id).failedMarks + 1
      && t.rows[id].status == (if read.attempt + 1 >= read.maxAttempts then Dead else Pending)
      && (t.rows[id].status == Pending && read.attempt + 1 <= 33 ==> t.rows[id].nextAttemptAt == s.clock + Pow2(read.attempt + 1) * SECOND)
  {
    RetryBackoffExactIff(s.jobs[w].phase.read.attempt + 1);
  }

  /** A crash, or a mark that is not written, leaves the row as it is. */
  lemma LostClaimChangesNothing(s: State, step: Step)
    requires Enabled(s, step) && (step.Crash? || (step.Mark? && !step.written)) && s.jobs[step.w].id in s.rows
    ensures var t := Apply(s, step); t.rows == s.rows && step.w !in t.jobs
  {
    StepsAreRepositoryOperations(s, step);
  }

  /** `trace` is a run taking `steps`, from an empty table. */
  ghost predicate IsRun(trace: seq<State>, steps: seq<Step>) {
    && |trace| == |steps| + 1
    && trace[0] == Init(trace[0].clock)
    && forall i :: 0 <= i < |steps| ==> Enabled(trace[i], steps[i]) && trace[i + 1] == Apply(trace[i], steps[i])
  }

  // ---------- every run, crashed and late workers included ----------

  /** The columns no operation changes. */
  predicate SameIdentity(a: Row, b: Row) {
    && a.eventId == b.eventId && a.webhookId == b.webhookId && a.message == b.message && a.payloadDecodes == b.payloadDecodes
    && a.maxAttempts == b.maxAttempts && a.timeoutSeconds == b.timeoutSeconds && a.createdAt == b.createdAt
  }

  ghost predicate JobOk(s: State, job: Job) {
    && job.id in s.rows
    && SameIdentity(job.entry, s.rows[job.id])
    && job.claimedAt <= s.clock
    && (job.phase.Finished? && job.phase.success ==> TallyOf(s, job.id).delivered)
  }

  ghost predicate RowOk(s: State, id: Id)
    requires id in s.rows
  {
    && s.rows[id].status != Failed
    && (s.rows[id].status == Completed ==> TallyOf(s, id).delivered)
  }

  ghost predicate AlwaysInv(s: State) {
    && s.tally.Keys == s.rows.Keys
    && UniquePairs(s.rows)
    && (forall id :: id in s.rows ==> RowOk(s, id))
    && (forall w :: w in s.jobs ==> JobOk(s, s.jobs[w]))
  }

  /** No row disappears or changes identity, and no delivery is forgotten. */
  ghost predicate Persists(s: State, t: State) {
    && s.clock <= t.clock
    && (forall id :: id in s.rows ==> id in t.rows && SameIdentity(s.rows[id], t.rows[id]))
    && (forall id :: id in s.tally && s.tally[id].delivered ==> TallyOf(t, id).delivered)
  }

  /** `t` differs from `s` at most in the row `id`, its history, and the workers' jobs. */
  ghost predicate Touches(s: State, t: State, id: Id) {
    && id in s.rows && s.clock == t.clock
    && t.rows.Keys == s.rows.Keys && (forall x :: x in s.rows && x != id ==> t.rows[x] == s.rows[x])
    && t.tally.Keys == s.rows.Keys && (forall x :: x in s.rows && x != id ==> TallyOf(t, x) == TallyOf(s, x))
    && SameIdentity(s.rows[id], t.rows[id])
    && (TallyOf(s, id).delivered ==> TallyOf(t, id).delivered)
  }

  lemma ActorHasRow(s: State, step: Step)
    requires AlwaysInv(s) && Acts(s, step)
    ensures RowTouched(s, step) in s.rows
  {
    if !step.Claim? && !step.Replay? { assert JobOk(s, s.jobs[step.w]); }
  }

  lemma RowAfterKeepsIdentity(s: State, step: Step, r: Row)
    requires Acts(s, step)
    ensures SameIdentity(r, RowAfter(s, step, r))
    ensures r.status != Failed ==> RowAfter(s, step, r).status != Failed
    ensures RowAfter(s, step, r).status == Completed && r.status != Completed
      ==> step.Mark? && s.jobs[step.w].phase.Finished? && s.jobs[step.w].phase.success
  {
  }

  lemma TallyAfterKeeps(s: State, step: Step, t: Tally)
    requires Acts(s, step)
    ensures t.delivered ==> TallyAfter(s, step, t).delivered
    ensures step.Respond? && step.outcome.success ==> TallyAfter(s, step, t).delivered
  {
  }

  lemma CompletedWasDelivered(s: State, step: Step)
    requires AlwaysInv(s) && Acts(s, step) && RowTouched(s, step) in s.rows
    ensures var id := RowTouched(s, step);
      RowAfter(s, step, s.rows[id]).status == Completed ==> TallyOf(s, id).delivered
  {
    hide RowAfter, UniquePairs, Conflicts;
    var id := RowTouched(s, step);
    RowAfterKeepsIdentity(s, step, s.rows[id]);
    assert RowOk(s, id);
    if step.Mark? { assert JobOk(s, s.jobs[step.w]); }
  }

  lemma StepTouches(s: State, step: Step)
    requires AlwaysInv(s) && Acts(s, step)
    ensures Touches(s, Apply(s, step), RowTouched(s, step))
    ensures RowOk(Apply(s, step), RowTouched(s, step))
  {
    hide Enabled, JobOk, UniquePairs, RowAfter, JobsAfter, TallyAfter, RowTouched, SameIdentity;
    var id := RowTouched(s, step);
    ActorHasRow(s, step);
    RowAfterKeepsIdentity(s, step, s.rows[id]);
    TallyAfterKeeps(s, step, TallyOf(s, id));
    CompletedWasDelivered(s, step);
    assert RowOk(s, id);
  }

  /** A worker's job after a step is its job before, further on, unless the step is its claim. */
  lemma JobsAfterShape(s: State, step: Step, v: WorkerId)
    requires Acts(s, step) && v in JobsAfter(s, step)
    ensures var job := JobsAfter(s, step)[v];
      if step.Claim? && step.w == v then job == Opening(s.rows[step.id], step.id, s.clock)
      else v in s.jobs && job.id == s.jobs[v].id && job.entry == s.jobs[v].entry && job.claimedAt == s.jobs[v].claimedAt
    ensures (step.Mark? || step.Crash?) ==> v != step.w
    ensures !IsBy(step, v) ==> v in s.jobs && JobsAfter(s, step)[v] == s.jobs[v]
    ensures var phase := JobsAfter(s, step)[v].phase;
      phase.Finished? && phase.success ==> (v in s.jobs && phase == s.jobs[v].phase) || (step.Respond? && step.w == v && step.outcome.success)
  {
  }

  lemma StepJobs(s: State, step: Step)
    requires AlwaysInv(s) && Acts(s, step)
    requires Touches(s, Apply(s, step), RowTouched(s, step))
    ensures var t := Apply(s, step); forall v :: v in t.jobs ==> JobOk(t, t.jobs[v])
  {
    hide Enabled, UniquePairs, RowOk, RowAfter, JobsAfter, TallyAfter;
    var t := Apply(s, step);
    forall v | v in t.jobs ensures JobOk(t, t.jobs[v]) {
      JobsAfterShape(s, step, v);
      TallyAfterKeeps(s, step, TallyOf(s, RowTouched(s, step)));
      if v in s.jobs { assert JobOk(s, s.jobs[v]); }
    }
  }

  lemma SameIdentitiesStayUnique(s: Rows, t: Rows)
    requires UniquePairs(s) && t.Keys == s.Keys && forall x :: x in s ==> SameIdentity(s[x], t[x])
    ensures UniquePairs(t)
  {
  }

  lemma TouchedInv(s: State, t: State, id: Id)
    requires AlwaysInv(s) && Touches(s, t, id) && RowOk(t, id)
    requires forall v :: v in t.jobs ==> JobOk(t, t.jobs[v])
    ensures AlwaysInv(t) && Persists(s, t)
  {
    hide JobOk, UniquePairs;
    forall x | x in t.rows ensures RowOk(t, x) && SameIdentity(s.rows[x], t.rows[x]) {
      assert RowOk(s, x);
    }
    SameIdentitiesStayUnique(s.rows, t.rows);
  }

  /** Publishing adds new entries and touches nothing else. */
  lemma PublishAdds(s: State, step: Step)
    requires Enabled(s, step) && step.Publish?
    ensures var t := Apply(s, step);
      && t.clock == s.clock && t.jobs == s.jobs && t.tally.Keys == t.rows.Keys
      && (forall id :: id in s.rows ==> id in t.rows && t.rows[id] == s.rows[id])
      && (forall id :: id in t.rows && id !in s.rows ==> (id, t.rows[id]) in step.entries && IsNewEntry(t.rows[id], s.clock))
      && (forall id :: id in t.rows ==> TallyOf(t, id) == TallyOf(s, id))
      && (UniquePairs(s.rows) ==> UniquePairs(t.rows))
  {
    hide UniquePairs, InsertAll, Conflicts, FreshIds;
    InsertAllKeeps(s.rows, step.entries);
  }

  lemma PublishKeepsInv(s: State, step: Step)
    requires AlwaysInv(s) && Enabled(s, step) && step.Publish?
    ensures AlwaysInv(Apply(s, step)) && Persists(s, Apply(s, step))
  {
    hide Apply, Enabled, UniquePairs;
    var t := Apply(s, step);
    PublishAdds(s, step);
    forall id | id in t.rows ensures RowOk(t, id) {
      if id in s.rows { assert RowOk(s, id); }
    }
    forall w | w in t.jobs ensures JobOk(t, t.jobs[w]) { assert JobOk(s, s.jobs[w]); }
  }

  lemma TickKeepsInv(s: State, step: Step)
    requires AlwaysInv(s) && step.Tick?
    ensures AlwaysInv(Apply(s, step)) && Persists(s, Apply(s, step))
  {
    var t := Apply(s, step);
    forall id | id in t.rows ensures RowOk(t, id) { assert RowOk(s, id); }
    forall w | w in t.jobs ensures JobOk(t, t.jobs[w]) { assert JobOk(s, s.jobs[w]); }
  }

  lemma AlwaysStep(s: State, step: Step)
    requires AlwaysInv(s) && Enabled(s, step)
    ensures AlwaysInv(Apply(s, step)) && Persists(s, Apply(s, step))
  {
    if step.Publish? {
      PublishKeepsInv(s, step);
    } else if step.Tick? {
      TickKeepsInv(s, step);
    } else {
      StepTouches(s, step);
      StepJobs(s, step);
      TouchedInv(s, Apply(s, step), RowTouched(s, step));
    }
  }

  /**
    In every run: no published row disappears or changes identity, (event, webhook) names at most
    one row, a status is never outside pending, processing, completed and dead, and a completed
    row has had a 2xx dispatch.
   */
  lemma {:induction false} EveryRun(trace: seq<State>, steps: seq<Step>, j: nat)
    requires IsRun(trace, steps) && j < |trace|
    ensures AlwaysInv(trace[j])
    ensures forall i :: 0 <= i <= j ==> Persists(trace[i], trace[j])
  {
    PersistsSelf(trace[j]);
    if j == 0 {
      return;
    }
    hide Apply, Enabled, Persists, AlwaysInv;
    EveryRun(trace, steps, j - 1);
    AlwaysStep(trace[j - 1], steps[j - 1]);
    forall i | 0 <= i < j ensures Persists(trace[i], trace[j]) {
      PersistsTransitive(trace[i], trace[j - 1], trace[j]);
    }
  }

  lemma PersistsSelf(s: State)
    ensures Persists(s, s)
  {
  }

  lemma PersistsTransitive(s: State, t: State, u: State)
    requires Persists(s, t) && Persists(t, u)
    ensures Persists(s, u)
  {
    hide TallyOf;
    assert forall id :: id in s.tally && s.tally[id].delivered ==> TallyOf(t, id).delivered;
    DeliveredIsKnown(t);
  }

  lemma DeliveredIsKnown(s: State)
    ensures forall id :: TallyOf(s, id).delivered ==> id in s.tally && s.tally[id].delivered
  {
  }

  /** Publishing again what is already there leaves the table as it is. */
  lemma {:induction false} Republish(rows: Rows, entries: seq<(Id, Row)>)
    requires forall e :: e in entries ==> Conflicts(rows, e.1)
    ensures InsertAll(rows, entries) == rows
    decreases |entries|
  {
    if entries != [] {
      assert entries[0] in entries;
      Republish(rows, entries[1..]);
    }
  }

  /** As long as some row is eligible, an idle worker can claim one: a crashed worker's row is not stuck. */
  lemma ClaimIsPossible(s: State, w: WorkerId, id: Id)
    requires w !in s.jobs && id in s.rows && Eligible(s.rows[id], s.clock)
    ensures exists oldest :: Enabled(s, Claim(w, oldest))
  {
    var eligible := EligibleIds(s.rows, s.clock);
    assert id in eligible;
    var oldest := OldestIn(s.rows, eligible);
    assert [oldest][0] == oldest && NoneOlder(s.rows, eligible, [oldest], s.rows[oldest].createdAt);
    assert Enabled(s, Claim(w, oldest));
  }

  lemma OldestIn(rows: Rows, ids: set<Id>) returns (oldest: Id)
    requires ids != {} && ids <= rows.Keys
    ensures oldest in ids && forall x :: x in ids ==> rows[oldest].createdAt <= rows[x].createdAt
    decreases ids
  {
    oldest :| oldest in ids;
    if ids != {oldest} {
      var other := OldestIn(rows, ids - {oldest});
      if rows[other].createdAt < rows[oldest].createdAt {
        oldest := other;
      }
    }
  }

  // ---------- runs in which every live worker is within its lease ----------

  /** Every live worker is still inside the lease of its claim. */
  ghost predicate InLease(s: State) {
    forall w :: w in s.jobs ==> s.clock <= s.jobs[w].claimedAt + LEASE
  }

  ghost predicate LeaseRun(trace: seq<State>, steps: seq<Step>) {
    IsRun(trace, steps) && forall i :: 0 <= i < |trace| ==> InLease(trace[i])
  }

  /** No two live workers hold the same row. */
  ghost predicate Exclusive(s: State) {
    forall v, w :: v in s.jobs && w in s.jobs && s.jobs[v].id == s.jobs[w].id ==> v == w
  }

  /** A held row is marked processing by the claim of the worker that holds it. */
  ghost predicate HoldsRow(job: Job, r: Row) {
    && r.status == Processing
    && r.updatedAt == job.claimedAt
    && r.attempt == job.entry.attempt
    && (job.phase.Failing? ==> job.phase.read == r)
  }

  ghost predicate Holds(s: State, job: Job) {
    job.id in s.rows && HoldsRow(job, s.rows[job.id])
  }

  ghost predicate LeaseInv(s: State) {
    Exclusive(s) && forall w :: w in s.jobs ==> Holds(s, s.jobs[w])
  }

  /** What is completed stays completed, row unchanged. */
  ghost predicate KeepsCompleted(s: State, t: State) {
    forall id :: id in s.rows && s.rows[id].status == Completed ==> id in t.rows && t.rows[id] == s.rows[id]
  }

  /** Inside the lease a claim takes a row nobody holds. */
  lemma ClaimTakesFreeRow(s: State, w: WorkerId, id: Id)
    requires LeaseInv(s) && InLease(s) && Enabled(s, Claim(w, id))
    ensures forall v :: v in s.jobs ==> s.jobs[v].id != id
  {
    forall v | v in s.jobs ensures s.jobs[v].id != id {
      assert Holds(s, s.jobs[v]);
    }
  }

  /** A step leaves the rows held by workers other than the one that takes it alone. */
  lemma OthersStillHold(s: State, step: Step, v: WorkerId)
    requires AlwaysInv(s) && LeaseInv(s) && InLease(s) && Acts(s, step)
    requires v in s.jobs && !IsBy(step, v)
    ensures s.jobs[v].id != RowTouched(s, step)
  {
    assert Holds(s, s.jobs[v]);
    if step.Claim? { ClaimTakesFreeRow(s, step.w, step.id); }
  }

  /** A worker that goes on with a row, or has just claimed it, holds it. */
  lemma ActorHolds(s: State, step: Step)
    requires LeaseInv(s) && Acts(s, step) && !step.Replay? && step.w in JobsAfter(s, step) && RowTouched(s, step) in s.rows
    ensures var job, id := JobsAfter(s, step)[step.w], RowTouched(s, step); job.id == id && HoldsRow(job, RowAfter(s, step, s.rows[id]))
  {
    if !step.Claim? { assert Holds(s, s.jobs[step.w]); }
  }

  lemma ActionKeepsHolders(s: State, step: Step)
    requires AlwaysInv(s) && LeaseInv(s) && InLease(s) && Acts(s, step)
    ensures LeaseInv(Apply(s, step))
  {
    var t, id := Apply(s, step), RowTouched(s, step);
    StepTouches(s, step);
    hide Enabled, AlwaysInv, RowAfter, TallyAfter, JobsAfter, InLease, HoldsRow, SameIdentity, RowTouched;
    forall v | v in t.jobs ensures Holds(t, t.jobs[v]) && (t.jobs[v].id == id <==> IsBy(step, v)) {
      JobsAfterShape(s, step, v);
      if IsBy(step, v) {
        ActorHolds(s, step);
      } else {
        assert Holds(s, s.jobs[v]);
        OthersStillHold(s, step, v);
      }
    }
    forall v, w | v in t.jobs && w in t.jobs && t.jobs[v].id == t.jobs[w].id ensures v == w {
      JobsAfterShape(s, step, v);
      JobsAfterShape(s, step, w);
    }
  }

  /** Only a row that is eligible, held or dead is touched. */
  lemma ActionKeepsCompleted(s: State, step: Step)
    requires AlwaysInv(s) && LeaseInv(s) && Acts(s, step)
    ensures KeepsCompleted(s, Apply(s, step))
  {
    var id := RowTouched(s, step);
    StepTouches(s, step);
    assert s.rows[id].status != Completed by {
      if !step.Claim? && !step.Replay? { assert Holds(s, s.jobs[step.w]); }
    }
    hide Apply, Enabled, AlwaysInv, LeaseInv, RowTouched;
  }

  lemma LeaseStep(s: State, step: Step)
    requires AlwaysInv(s) && LeaseInv(s) && InLease(s) && Enabled(s, step)
    ensures LeaseInv(Apply(s, step)) && KeepsCompleted(s, Apply(s, step))
  {
    if step.Publish? {
      PublishAdds(s, step);
      hide Apply, Enabled, AlwaysInv, HoldsRow;
      var t := Apply(s, step);
      forall v | v in t.jobs ensures Holds(t, t.jobs[v]) { assert Holds(s, s.jobs[v]); }
    } else if step.Tick? {
      hide Enabled, AlwaysInv, HoldsRow;
      var t := Apply(s, step);
      forall v | v in t.jobs ensures Holds(t, t.jobs[v]) { assert Holds(s, s.jobs[v]); }
    } else {
      hide Apply, Enabled, AlwaysInv, LeaseInv, InLease, KeepsCompleted;
      ActionKeepsHolders(s, step);
      ActionKeepsCompleted(s, step);
    }
  }

  lemma {:induction false} LeaseRunInv(trace: seq<State>, steps: seq<Step>, j: nat)
    requires LeaseRun(trace, steps) && j < |trace|
    ensures AlwaysInv(trace[j]) && LeaseInv(trace[j])
  {
    EveryRun(trace, steps, j);
    if j > 0 {
      LeaseRunInv(trace, steps, j - 1);
      LeaseStep(trace[j - 1], steps[j - 1]);
    }
  }

  /** While live workers stay within their leases, at most one holds an entry and a completed row never changes again. */
  lemma {:induction false} LeaseRunSafe(trace: seq<State>, steps: seq<Step>, i: nat, j: nat)
    requires LeaseRun(trace, steps) && i <= j < |trace|
    ensures Exclusive(trace[j])
    ensures KeepsCompleted(trace[i], trace[j])
    decreases j
  {
    LeaseRunInv(trace, steps, j);
    if i < j {
      LeaseRunSafe(trace, steps, i, j - 1);
      LeaseRunInv(trace, steps, j - 1);
      LeaseStep(trace[j - 1], steps[j - 1]);
    }
  }
}
