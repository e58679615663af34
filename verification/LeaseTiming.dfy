/**
  Why the lease is long enough, and exactly when. In a timed run the clock cannot pass the
  moment a live worker has something to do: a call ends by its timeout, a wait ends when it
  is over, and database work by the time it can take. No assumption is made on when workers
  write their marks; that they do so inside the lease follows from the configuration, if and
  only if the longest possible claim, from its query to its mark, fits in it.
 */
module LeaseTiming {
  import opened Wrappers
  import opened GoInt
  import opened Outbox
  import opened OutboxProtocol
  import opened Dispatcher

  /**
    What an installation is configured with: the (maximum attempts, timeout seconds) of its entries,
    the dispatcher's client timeout and default timeout (0 for none, as in Go), the longest
    Retry-After any endpoint sends (0 for none), and how long a claim's transaction, the checks before
    a call, and the writes after the loop, mark included, can take.
   */
  datatype Site = Site(webhooks: set<(int, int)>, clientTimeout: nat, defaultTimeout: nat, retryAfterMax: nat,
                       claimTime: nat, checkTime: nat, markTime: nat)

  /** The time one HTTP call can take; 0 when nothing bounds it. */
  function CallBound(site: Site, timeoutSeconds: int): nat {
    var timeout := Wrap64(timeoutSeconds * SECOND);
    var context: nat := if timeout > 0 then timeout else site.defaultTimeout;
    if site.clientTimeout == 0 then context
    else if context == 0 then site.clientTimeout
    else if context < site.clientTimeout then context else site.clientTimeout
  }

  /** It is the shorter of the two bounds there are, in nanoseconds; the entry's own timeout goes before the default. */
  lemma CallBoundIsShortest(site: Site, timeoutSeconds: int)
    requires timeoutSeconds * SECOND < TWO_63 && timeoutSeconds * SECOND >= -TWO_63
    ensures var own: nat := if timeoutSeconds > 0 then timeoutSeconds * SECOND else site.defaultTimeout;
      var bound := CallBound(site, timeoutSeconds);
      && (bound == 0 <==> own == 0 && site.clientTimeout == 0)
      && (bound > 0 ==> bound == own || bound == site.clientTimeout)
      && (own > 0 ==> bound <= own) && (site.clientTimeout > 0 ==> bound <= site.clientTimeout)
  {
  }

  /** The time from the start of one dispatch call to its end, when it is bounded. */
  function CallTime(site: Site, timeoutSeconds: int): nat {
    site.checkTime + CallBound(site, timeoutSeconds)
  }

  /** The longest an entry with these limits can be held: its claim, its retry loop, its mark. */
  function LongestHold(site: Site, c: (int, int)): nat {
    site.claimTime + WorstCase(Retries(c.0), CallTime(site, c.1), site.retryAfterMax) + site.markTime
  }

  /** No entry can be held for longer than the lease. */
  predicate FitsLease(site: Site) {
    forall c :: c in site.webhooks ==> 0 < CallBound(site, c.1) && LongestHold(site, c) <= LEASE
  }

  /** The claim comes before the first call. */
  function Lead(site: Site, k: nat): nat {
    if k == 0 then site.claimTime else 0
  }

  /** When call k starts at the latest, counted from the claim; the first one's time includes the claim itself. */
  function StartsBy(site: Site, c: (int, int), k: nat): nat {
    Spent(k, CallTime(site, c.1), site.retryAfterMax) + if k == 0 then 0 else site.claimTime
  }

  /** The last moment at which nothing has happened yet. */
  ghost predicate MayWaitUntil(site: Site, job: Job, time: Time) {
    match job.phase
    case Sending(k, since) =>
      || CallBound(site, job.entry.timeoutSeconds) == 0
      || time <= since + Lead(site, k) + CallTime(site, job.entry.timeoutSeconds)
    case Sleeping(_, until) => time <= until
    case Finished(_, since) => time <= since + site.markTime
    case Failing(_, since) => time <= since + site.markTime
    case Poisoned(since) => time <= since + site.claimTime + site.markTime
  }

  ghost predicate Timely(site: Site, s: State, step: Step) {
    && Enabled(s, step)
    && match step
       case Publish(entries) =>
         forall e :: e in entries ==> (e.1.maxAttempts, e.1.timeoutSeconds) in site.webhooks
       case Respond(_, o, _) => o.retryAfter <= site.retryAfterMax
       case Tick(d) => forall w :: w in s.jobs ==> MayWaitUntil(site, s.jobs[w], s.clock + d)
       case _ => true
  }

  ghost predicate TimedRun(site: Site, trace: seq<State>, steps: seq<Step>) {
    && IsRun(trace, steps)
    && forall i :: 0 <= i < |steps| ==> Timely(site, trace[i], steps[i])
  }

  // ---------- the configuration keeps every worker in its lease ----------

  function Limits(r: Row): (int, int) {
    (r.maxAttempts, r.timeoutSeconds)
  }

  ghost predicate Configured(site: Site, r: Row) {
    Limits(r) in site.webhooks
  }

  /** How far a job can be, given how long ago it claimed its row. */
  ghost predicate OnTime(site: Site, now: Time, job: Job) {
    var n, c := RetriesOf(job.entry), Limits(job.entry);
    var loopEnd := job.claimedAt + site.claimTime + WorstCase(n, CallTime(site, c.1), site.retryAfterMax);
    && Configured(site, job.entry)
    && MayWaitUntil(site, job, now)
    && match job.phase
       case Sending(k, since) => k <= n && since <= job.claimedAt + StartsBy(site, c, k)
       case Sleeping(k, until) => k < n && until <= job.claimedAt + StartsBy(site, c, k + 1)
       case Finished(_, since) => since <= loopEnd
       case Failing(_, since) => since <= loopEnd
       case Poisoned(since) => since == job.claimedAt
  }

  ghost predicate TimingInv(site: Site, s: State) {
    && (forall id :: id in s.rows ==> Configured(site, s.rows[id]))
    && (forall w :: w in s.jobs ==> OnTime(site, s.clock, s.jobs[w]))
  }

  lemma RespondOnTime(site: Site, now: Time, job: Job, o: Outcome, wait: int)
    requires FitsLease(site) && OnTime(site, now, job) && job.phase.Sending?
    requires o.retryAfter <= site.retryAfterMax
    requires WaitsAfter(job.entry, job.phase.k, o) ==> LegalWait(job.phase.k, o, wait)
    ensures OnTime(site, now, job.(phase := NextPhase(job, o, wait, now)))
  {
    var k, n, c, ra := job.phase.k, RetriesOf(job.entry), Limits(job.entry), site.retryAfterMax;
    SpentMonotone(k, n, CallTime(site, c.1), ra);
    if WaitsAfter(job.entry, k, o) {
      LegalWaitBounded(k, o, wait, ra);
    }
  }

  /** The job of the worker that takes a step. */
  lemma ActorStaysOnTime(site: Site, s: State, step: Step)
    requires FitsLease(site) && TimingInv(site, s) && Timely(site, s, step) && Acts(s, step)
    requires !step.Replay? && step.w in JobsAfter(s, step)
    ensures OnTime(site, s.clock, JobsAfter(s, step)[step.w])
  {
    hide FitsLease, CallBound, Spent, WorstCase, IsClaim;
    if step.Claim? {
      assert Configured(site, s.rows[step.id]);
    } else {
      assert OnTime(site, s.clock, s.jobs[step.w]);
      if step.Respond? { RespondOnTime(site, s.clock, s.jobs[step.w], step.outcome, step.wait); }
    }
  }

  lemma ActionOnTime(site: Site, s: State, step: Step)
    requires FitsLease(site) && AlwaysInv(s) && TimingInv(site, s) && Timely(site, s, step) && Acts(s, step)
    ensures TimingInv(site, Apply(s, step))
  {
    hide FitsLease, Timely, Enabled, AlwaysInv, OnTime, JobsAfter, RowAfter, TallyAfter, RowTouched;
    var t := Apply(s, step);
    StepTouches(s, step);
    forall v | v in t.jobs ensures OnTime(site, t.clock, t.jobs[v]) {
      JobsAfterShape(s, step, v);
      if IsBy(step, v) { ActorStaysOnTime(site, s, step); } else { assert OnTime(site, s.clock, s.jobs[v]); }
    }
    forall id | id in t.rows ensures Configured(site, t.rows[id]) {
      assert Configured(site, s.rows[id]);
    }
  }

  lemma TimingStep(site: Site, s: State, step: Step)
    requires FitsLease(site) && AlwaysInv(s) && TimingInv(site, s) && Timely(site, s, step)
    ensures TimingInv(site, Apply(s, step))
  {
    if step.Publish? {
      hide FitsLease, Enabled, AlwaysInv, OnTime, Apply;
      var t := Apply(s, step);
      PublishAdds(s, step);
      forall id | id in t.rows ensures Configured(site, t.rows[id]) {
        if id in s.rows { assert Configured(site, s.rows[id]); }
      }
      forall w | w in t.jobs ensures OnTime(site, t.clock, t.jobs[w]) { assert OnTime(site, s.clock, s.jobs[w]); }
    } else if step.Tick? {
      hide FitsLease, Enabled, AlwaysInv, StartsBy, CallBound, CallTime, WorstCase, Spent;
      var t := Apply(s, step);
      forall w | w in t.jobs ensures OnTime(site, t.clock, t.jobs[w]) { assert OnTime(site, s.clock, s.jobs[w]); }
    } else {
      hide FitsLease, Enabled, AlwaysInv, TimingInv;
      ActionOnTime(site, s, step);
    }
  }

  lemma OnTimeInLease(site: Site, s: State, job: Job)
    requires FitsLease(site) && OnTime(site, s.clock, job)
    ensures s.clock <= job.claimedAt + LEASE
  {
    var n, c, ra := RetriesOf(job.entry), Limits(job.entry), site.retryAfterMax;
    var call := CallTime(site, c.1);
    SpentMonotone(n, Retries(c.0), call, ra);
    match job.phase {
      case Sending(k, _) => SpentMonotone(k, n, call, ra);
      case Sleeping(k, _) => SpentMonotone(k + 1, n, call, ra);
      case _ =>
    }
  }

  lemma {:induction false} TimedRunInv(site: Site, trace: seq<State>, steps: seq<Step>, j: nat)
    requires FitsLease(site) && TimedRun(site, trace, steps) && j < |trace|
    ensures TimingInv(site, trace[j]) && InLease(trace[j])
  {
    if j > 0 {
      TimedRunInv(site, trace, steps, j - 1);
      EveryRun(trace, steps, j - 1);
      TimingStep(site, trace[j - 1], steps[j - 1]);
    }
    forall w | w in trace[j].jobs ensures trace[j].clock <= trace[j].jobs[w].claimedAt + LEASE {
      OnTimeInLease(site, trace[j], trace[j].jobs[w]);
    }
  }

  /** A configuration that fits makes every timed run a run in which leases are respected. */
  lemma FittingRunsRespectLeases(site: Site, trace: seq<State>, steps: seq<Step>)
    requires FitsLease(site) && TimedRun(site, trace, steps)
    ensures LeaseRun(trace, steps)
  {
    forall j | 0 <= j < |trace| ensures InLease(trace[j]) {
      TimedRunInv(site, trace, steps, j);
    }
  }

  /** So in every timed run of a fitting site at most one worker holds an entry, and what is completed stays so. */
  lemma FittingSiteIsSafe(site: Site, trace: seq<State>, steps: seq<Step>, i: nat, j: nat)
    requires FitsLease(site) && TimedRun(site, trace, steps) && i <= j < |trace|
    ensures Exclusive(trace[j]) && KeepsCompleted(trace[i], trace[j])
  {
    FittingRunsRespectLeases(site, trace, steps);
    LeaseRunSafe(trace, steps, i, j);
  }

  // ---------- a configuration that does not fit breaks exclusivity ----------

  const ROW_ID: Id := "row"

  ghost function NewRow(c: (int, int)): Row {
    Row("event", "webhook", Message("type", "tenant", "url", "secret", "payload"), true, Pending, 0, c.0, c.1, 0, "", 0, 0)
  }

  /** Worker 0 claimed the only row at time 0 and is in `phase`. */
  ghost function Alone(c: (int, int), clock: Time, phase: Phase, calls: nat): State {
    State(clock, map[ROW_ID := NewRow(c).(status := Processing)],
          map[0 := Job(ROW_ID, NewRow(c), 0, phase, calls)],
          map[ROW_ID := NO_TALLY.(dispatches := calls, firstClaim := Some(0))])
  }

  /** A timed run that ends in `last`. */
  ghost predicate Reaches(site: Site, last: State) {
    exists trace, steps :: TimedRun(site, trace, steps) && trace[|trace| - 1] == last
  }

  lemma TimelyIsEnabled(site: Site, s: State, step: Step)
    requires Timely(site, s, step)
    ensures Enabled(s, step)
  {
  }

  lemma Extend(site: Site, s: State, step: Step)
    requires Reaches(site, s) && Timely(site, s, step)
    ensures Reaches(site, Apply(s, step))
  {
    hide Timely, Apply, Enabled;
    TimelyIsEnabled(site, s, step);
    var trace, steps :| TimedRun(site, trace, steps) && trace[|trace| - 1] == s;
    var t := Apply(s, step);
    assert TimedRun(site, trace + [t], steps + [step]);
    assert (trace + [t])[|trace + [t]| - 1] == t;
  }

  lemma PublishRow(site: Site, c: (int, int))
    requires c in site.webhooks
    ensures Reaches(site, State(0, map[ROW_ID := NewRow(c)], map[], map[ROW_ID := NO_TALLY]))
  {
    var s := Init(0);
    assert TimedRun(site, [s], []) && [s][|[s]| - 1] == s;
    var publish := Publish([(ROW_ID, NewRow(c))]);
    Extend(site, s, publish);
    assert publish.entries[1..] == [];
    assert InsertAll(map[ROW_ID := NewRow(c)], []) == map[ROW_ID := NewRow(c)];
    assert Apply(s, publish).tally == map[ROW_ID := NO_TALLY];
  }

  lemma StartAlone(site: Site, c: (int, int))
    requires c in site.webhooks
    ensures Reaches(site, Alone(c, 0, Sending(0, 0), 1))
  {
    PublishRow(site, c);
    var s := State(0, map[ROW_ID := NewRow(c)], map[], map[ROW_ID := NO_TALLY]);
    var claim := Claim(0, ROW_ID);
    assert IsClaim(s.rows, 0, 1, [ROW_ID]);
    Extend(site, s, claim);
    assert Apply(s, claim) == Alone(c, 0, Sending(0, 0), 1);
  }

  lemma AloneTick(site: Site, c: (int, int), clock: Time, phase: Phase, calls: nat, d: nat)
    requires Reaches(site, Alone(c, clock, phase, calls))
    requires MayWaitUntil(site, Job(ROW_ID, NewRow(c), 0, phase, calls), clock + d)
    ensures Reaches(site, Alone(c, clock + d, phase, calls))
  {
    var s := Alone(c, clock, phase, calls);
    Extend(site, s, Tick(d));
    assert Apply(s, Tick(d)) == Alone(c, clock + d, phase, calls);
  }

  /** Once the clock can get past the lease while worker 0 still holds the row, worker 1 claims it too. */
  lemma SecondClaim(site: Site, c: (int, int), clock: Time, phase: Phase, calls: nat)
    requires Reaches(site, Alone(c, clock, phase, calls))
    requires 0 <= clock <= LEASE
    requires MayWaitUntil(site, Alone(c, clock, phase, calls).jobs[0], LEASE + 1)
    ensures exists last :: Reaches(site, last) && !Exclusive(last)
  {
    AloneTick(site, c, clock, phase, calls, LEASE + 1 - clock);
    var t := Alone(c, LEASE + 1, phase, calls);
    var claim := Claim(1, ROW_ID);
    assert IsClaim(t.rows, t.clock, 1, [ROW_ID]);
    Extend(site, t, claim);
    var u := Apply(t, claim);
    assert u.jobs[0].id == u.jobs[1].id;
  }

  /** The slowest endpoint: every call runs into its timeout and every wait is as long as it can be. */
  ghost function SlowOutcome(site: Site, k: nat): Outcome {
    if site.retryAfterMax > 0 && site.retryAfterMax >= LongestWait(k, 0) then Outcome(false, 429, NoError, site.retryAfterMax)
    else Outcome(false, 503, NoError, 0)
  }

  lemma SlowOutcomeRetries(site: Site, k: nat)
    ensures var o := SlowOutcome(site, k); o.WellFormed() && IsRetryable(o) && !o.success && o.retryAfter <= site.retryAfterMax
  {
  }

  lemma SlowWaitIsLegal(site: Site, k: nat)
    requires k <= 33
    ensures LegalWait(k, SlowOutcome(site, k), LongestWait(k, site.retryAfterMax))
  {
    BackoffBaseSeconds(k);
  }

  /** Call k runs into its timeout; the loop starts its longest wait, or is over. */
  lemma SlowCall(site: Site, c: (int, int), k: nat, now: Time, end: Time)
    requires CallBound(site, c.1) > 0 && k <= Retries(c.0) && (k < Retries(c.0) ==> k <= 33)
    requires end == now + Lead(site, k) + CallTime(site, c.1)
    requires Reaches(site, Alone(c, now, Sending(k, now), k + 1))
    ensures var next := if k < Retries(c.0) then Sleeping(k, end + LongestWait(k, site.retryAfterMax)) else Finished(false, end);
      Reaches(site, Alone(c, end, next, k + 1))
  {
    hide LegalWait, Reaches, CallBound, SlowOutcome, LongestWait;
    var o, wait := SlowOutcome(site, k), LongestWait(k, site.retryAfterMax);
    SlowOutcomeRetries(site, k);
    if k < Retries(c.0) { SlowWaitIsLegal(site, k); }
    AloneTick(site, c, now, Sending(k, now), k + 1, end - now);
    var s := Alone(c, end, Sending(k, now), k + 1);
    Extend(site, s, Respond(0, o, wait));
    var next := if k < Retries(c.0) then Sleeping(k, end + wait) else Finished(false, end);
    assert Apply(s, Respond(0, o, wait)) == Alone(c, end, next, k + 1);
  }

  /** The wait after call k passes and call k+1 starts. */
  lemma SlowWait(site: Site, c: (int, int), k: nat, now: Time, wait: nat)
    requires Reaches(site, Alone(c, now, Sleeping(k, now + wait), k + 1))
    ensures Reaches(site, Alone(c, now + wait, Sending(k + 1, now + wait), k + 2))
  {
    hide Reaches;
    AloneTick(site, c, now, Sleeping(k, now + wait), k + 1, wait);
    var t := Alone(c, now + wait, Sleeping(k, now + wait), k + 1);
    Extend(site, t, Wake(0));
    assert Apply(t, Wake(0)) == Alone(c, now + wait, Sending(k + 1, now + wait), k + 2);
  }

  lemma {:induction false} Overrun(site: Site, c: (int, int), k: nat, now: Time)
    requires c in site.webhooks && CallBound(site, c.1) > 0 && LEASE < LongestHold(site, c)
    requires k <= Retries(c.0) && now == StartsBy(site, c, k) <= LEASE
    requires Reaches(site, Alone(c, now, Sending(k, now), k + 1))
    ensures exists last :: Reaches(site, last) && !Exclusive(last)
    decreases Retries(c.0) - k
  {
    hide Reaches, Exclusive, CallBound;
    var end := now + Lead(site, k) + CallTime(site, c.1);
    if end > LEASE {
      SecondClaim(site, c, now, Sending(k, now), k + 1);
    } else {
      if k >= 14 { FourteenWaits(k, CallTime(site, c.1), site.retryAfterMax); }
      SlowCall(site, c, k, now, end);
      var wait := LongestWait(k, site.retryAfterMax);
      if k == Retries(c.0) {
        SecondClaim(site, c, end, Finished(false, end), k + 1);
      } else if end + wait > LEASE {
        SecondClaim(site, c, end, Sleeping(k, end + wait), k + 1);
      } else {
        SlowWait(site, c, k, end, wait);
        Overrun(site, c, k + 1, end + wait);
      }
    }
  }

  lemma MisfitBreaksExclusivity(site: Site)
    requires !FitsLease(site)
    ensures exists last :: Reaches(site, last) && !Exclusive(last)
  {
    hide Reaches, Exclusive;
    var c :| c in site.webhooks && !(0 < CallBound(site, c.1) && LongestHold(site, c) <= LEASE);
    StartAlone(site, c);
    if CallBound(site, c.1) == 0 {
      SecondClaim(site, c, 0, Sending(0, 0), 1);
    } else {
      Overrun(site, c, 0, 0);
    }
  }

  // ---------- the theorem ----------

  /** At most one live worker holds an entry in every timed run, if and only if no entry can be held for longer than the lease. */
  lemma ExclusiveIffFitsLease(site: Site)
    ensures FitsLease(site) <==> forall last :: Reaches(site, last) ==> Exclusive(last)
  {
    if FitsLease(site) {
      forall last | Reaches(site, last) ensures Exclusive(last) {
        var trace, steps :| TimedRun(site, trace, steps) && trace[|trace| - 1] == last;
        FittingSiteIsSafe(site, trace, steps, 0, |trace| - 1);
      }
    } else {
      MisfitBreaksExclusivity(site);
    }
  }

  /** What the rule of thumb asks of M attempts with a timeout of t seconds. */
  predicate EnoughTime(site: Site, m: int, t: int) {
    m >= 0 && t >= 1 && site.claimTime + (m + 1) * (t * SECOND + site.checkTime) + m * (30 * SECOND) + site.markTime <= 300 * SECOND
  }

  lemma SlowerCallsTakeLonger(m: nat, call: nat, most: nat, wait: nat)
    requires call <= most
    ensures m * (call + wait) + call <= (m + 1) * most + m * wait
  {
    assert m * (call + wait) == m * call + m * wait;
    assert m * call <= m * most;
  }

  lemma OneOfMany(m: nat, most: nat, wait: nat)
    ensures most <= (m + 1) * most + m * wait
  {
    assert (m + 1) * most == m * most + most;
    assert m * most >= 0 && m * wait >= 0;
  }

  lemma EnoughTimeFits(site: Site, m: nat, t: nat)
    requires site.retryAfterMax == 0 && EnoughTime(site, m, t)
    ensures 0 < CallBound(site, t) && LongestHold(site, (m, t)) <= LEASE
  {
    hide Wrap64, Spent;
    var call, most := CallTime(site, t), t * SECOND + site.checkTime;
    OneOfMany(m, most, MAX_BACKOFF);
    assert IsInt64(t * SECOND);
    SpentWithoutRetryAfter(m, call);
    SlowerCallsTakeLonger(m, call, most, MAX_BACKOFF);
  }

  /**
    The rule of thumb: with no Retry-After, (M+1) timeouts with their checks, M waits of 30 s, the claim and
    the mark within five minutes are enough.
   */
  lemma RuleOfThumb(site: Site)
    requires site.retryAfterMax == 0
    requires forall c :: c in site.webhooks ==> EnoughTime(site, c.0, c.1)
    ensures FitsLease(site)
  {
    forall c | c in site.webhooks ensures 0 < CallBound(site, c.1) && LongestHold(site, c) <= LEASE {
      EnoughTimeFits(site, c.0, c.1);
    }
  }

  /** One webhook that retries at all and an endpoint free to send any Retry-After: exclusivity is lost. */
  lemma UncappedRetryAfterBreaksExclusivity(site: Site, c: (int, int))
    requires c in site.webhooks && c.0 >= 1 && site.retryAfterMax > LEASE
    ensures exists last :: Reaches(site, last) && !Exclusive(last)
  {
    var call := CallTime(site, c.1);
    SpentMonotone(1, Retries(c.0), call, site.retryAfterMax);
    assert Spent(1, call, site.retryAfterMax) == Spent(0, call, site.retryAfterMax) + call + LongestWait(0, site.retryAfterMax);
    assert !FitsLease(site);
    MisfitBreaksExclusivity(site);
  }
}
