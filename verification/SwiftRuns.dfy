/**
  Any number of MutateJSON and ConsumeJSON calls on one key, interleaved step by step with
  each other and with arbitrary other writes. Every run is equivalent to running the calls
  that committed alone, one at a time, in the order in which they committed.
 */
module SwiftRuns {
  import opened Wrappers
  import opened SwiftStore
  import opened SwiftJson

  type CallId = nat

  /** A write that took effect: by a call, or by anybody else. */
  datatype Event<!T> = Commit(call: CallId, program: Program<T>) | Other(value: Value)

  datatype Stage<+T> =
    | Reading(round: nat)
    | Trying(round: nat, at: nat, read: Value, put: Value, value: T)   // `at`: events when the value was read
    | Returned(reply: Reply<T>)

  /** `start`: events when the call began. */
  datatype Call<!T> = Call(program: Program<T>, start: nat, stage: Stage<T>)

  datatype State<!T> = State(value: Value, log: seq<Event<T>>, calls: map<CallId, Call<T>>)

  datatype Step<!T> =
    | Begin(c: CallId, program: Program<T>)
    | Get(c: CallId)
    | Put(c: CallId)
    | StoreFails(c: CallId)
    | StoreConflicts(c: CallId)      // all eight tries of the store's own loop were disturbed
    | Write(value: Value)

  ghost predicate Enabled<T>(s: State<T>, step: Step<T>) {
    match step
    case Begin(c, _) => c !in s.calls
    case Get(c) => c in s.calls && s.calls[c].stage.Reading?
    case Put(c) => c in s.calls && s.calls[c].stage.Trying?
    case StoreFails(c) => c in s.calls && !s.calls[c].stage.Returned?
    case StoreConflicts(c) =>
      c in s.calls && s.calls[c].stage.Trying? && |s.log| >= s.calls[c].stage.at + 8
    case Write(_) => true
  }

  ghost function AfterGet<T>(codec: Codec<T>, s: State<T>, call: Call<T>): Stage<T>
    requires call.stage.Reading?
  {
    match Decide(codec, call.program, s.value)
    case Answer(reply) => Returned(reply)
    case Attempt(put, value) => Trying(call.stage.round, |s.log|, s.value, put, value)
  }

  /** After losing a race: another round, unless that was the last. */
  ghost function AfterLoss<T>(call: Call<T>): Stage<T>
    requires call.stage.Trying?
  {
    if call.stage.round + 1 < MAX_RETRIES then Reading(call.stage.round + 1) else Returned(CASConflict(false))
  }

  ghost function Apply<T>(codec: Codec<T>, s: State<T>, step: Step<T>): State<T>
    requires Enabled(s, step)
  {
    match step
    case Begin(c, program) => s.(calls := s.calls[c := Call(program, |s.log|, Reading(0))])
    case Get(c) => s.(calls := s.calls[c := s.calls[c].(stage := AfterGet(codec, s, s.calls[c]))])
    case Put(c) =>
      var call := s.calls[c];
      if s.value == call.stage.read then
        State(call.stage.put, s.log + [Commit(c, call.program)], s.calls[c := call.(stage := Returned(Committed(call.stage.value)))])
      else s.(calls := s.calls[c := call.(stage := AfterLoss(call))])
    case StoreFails(c) => s.(calls := s.calls[c := s.calls[c].(stage := Returned(Failed))])
    case StoreConflicts(c) => s.(calls := s.calls[c := s.calls[c].(stage := Returned(CASConflict(true)))])
    case Write(v) => s.(value := v, log := s.log + [Other(v)])
  }

  ghost predicate IsRun<T>(codec: Codec<T>, init: Value, trace: seq<State<T>>, steps: seq<Step<T>>) {
    && |trace| == |steps| + 1
    && trace[0] == State(init, [], map[])
    && forall i :: 0 <= i < |steps| ==> Enabled(trace[i], steps[i]) && trace[i + 1] == Apply(codec, trace[i], steps[i])
  }

  // ---------- the serial history ----------

  /** The value after an event: a call's program runs alone on the value before. */
  ghost function Effect<T>(codec: Codec<T>, e: Event<T>, v: Value): Value {
    match e
    case Other(w) => w
    case Commit(_, program) => RunAlone(codec, program, v).0
  }

  /** The value after the first n events, one at a time. */
  ghost function Serial<T>(codec: Codec<T>, init: Value, log: seq<Event<T>>, n: nat): Value
    requires n <= |log|
  {
    if n == 0 then init else Effect(codec, log[n - 1], Serial(codec, init, log, n - 1))
  }

  /** How many of the first n events changed the value. */
  ghost function ChangesIn<T>(codec: Codec<T>, init: Value, log: seq<Event<T>>, n: nat): nat
    requires n <= |log|
  {
    if n == 0 then 0
    else
      var changed := Serial(codec, init, log, n) != Serial(codec, init, log, n - 1);
      ChangesIn(codec, init, log, n - 1) + if changed then 1 else 0
  }

  lemma {:induction false} AppendKeepsHistory<T>(codec: Codec<T>, init: Value, log: seq<Event<T>>, e: Event<T>, n: nat)
    requires n <= |log|
    ensures Serial(codec, init, log + [e], n) == Serial(codec, init, log, n)
    ensures ChangesIn(codec, init, log + [e], n) == ChangesIn(codec, init, log, n)
  {
    if n > 0 {
      AppendKeepsHistory(codec, init, log, e, n - 1);
    }
  }

  lemma {:induction false} DifferentMeansChanged<T>(codec: Codec<T>, init: Value, log: seq<Event<T>>, a: nat, b: nat)
    requires a <= b <= |log|
    ensures ChangesIn(codec, init, log, a) <= ChangesIn(codec, init, log, b) <= ChangesIn(codec, init, log, a) + b - a
    ensures Serial(codec, init, log, a) != Serial(codec, init, log, b)
      ==> ChangesIn(codec, init, log, a) < ChangesIn(codec, init, log, b)
  {
    if a < b {
      DifferentMeansChanged(codec, init, log, a, b - 1);
    }
  }

  // ---------- the invariant ----------

  /** The event at k is this call's commit, of the value it reports, decided on the value stored just before. */
  ghost predicate CommitsAt<T>(codec: Codec<T>, init: Value, s: State<T>, c: CallId, k: nat, value: T)
    requires c in s.calls
  {
    && s.calls[c].start <= k < |s.log|
    && s.log[k] == Commit(c, s.calls[c].program)
    && exists put :: Decide(codec, s.calls[c].program, Serial(codec, init, s.log, k)) == Attempt(put, value)
  }

  /** The call's reply is its answer to the value after n events, and these are not before it began. */
  ghost predicate AnswersAt<T>(codec: Codec<T>, init: Value, s: State<T>, c: CallId, n: nat)
    requires c in s.calls
  {
    && s.calls[c].start <= n <= |s.log|
    && s.calls[c].stage.Returned?
    && Decide(codec, s.calls[c].program, Serial(codec, init, s.log, n)) == Answer(s.calls[c].stage.reply)
  }

  ghost predicate NoCommit<T>(log: seq<Event<T>>, c: CallId) {
    forall k :: 0 <= k < |log| && log[k].Commit? ==> log[k].call != c
  }

  ghost predicate CallOk<T>(codec: Codec<T>, init: Value, s: State<T>, c: CallId)
    requires c in s.calls
  {
    var call := s.calls[c];
    && call.start <= |s.log|
    && match call.stage
       case Reading(round) =>
         && NoCommit(s.log, c) && round < MAX_RETRIES
         && ChangesIn(codec, init, s.log, |s.log|) >= ChangesIn(codec, init, s.log, call.start) + round
       case Trying(round, at, read, put, value) =>
         && NoCommit(s.log, c) && round < MAX_RETRIES
         && call.start <= at <= |s.log|
         && read == Serial(codec, init, s.log, at)
         && Decide(codec, call.program, read) == Attempt(put, value)
         && ChangesIn(codec, init, s.log, at) >= ChangesIn(codec, init, s.log, call.start) + round
       case Returned(Committed(value)) =>
         exists k :: CommitsAt(codec, init, s, c, k, value)
           && forall j :: 0 <= j < |s.log| && s.log[j].Commit? && s.log[j].call == c ==> j == k
       case Returned(CASConflict(byStore)) =>
         && NoCommit(s.log, c)
         && |s.log| >= call.start + 8
         && (byStore || ChangesIn(codec, init, s.log, |s.log|) >= ChangesIn(codec, init, s.log, call.start) + 8)
       case Returned(Kept(_)) =>
         NoCommit(s.log, c) && exists n :: AnswersAt(codec, init, s, c, n)
       case Returned(Failed) => NoCommit(s.log, c)
  }

  ghost predicate LogOk<T>(codec: Codec<T>, init: Value, s: State<T>) {
    && s.value == Serial(codec, init, s.log, |s.log|)
    && forall k :: 0 <= k < |s.log| && s.log[k].Commit? ==>
         s.log[k].call in s.calls && Decide(codec, s.log[k].program, Serial(codec, init, s.log, k)).Attempt?
  }

  ghost predicate Inv<T>(codec: Codec<T>, init: Value, s: State<T>) {
    LogOk(codec, init, s) && forall c :: c in s.calls ==> CallOk(codec, init, s, c)
  }

  /** An event that is not the call's own leaves everything known about it as it was. */
  lemma OthersEvent<T>(codec: Codec<T>, init: Value, s: State<T>, e: Event<T>, t: State<T>, c: CallId)
    requires c in s.calls && CallOk(codec, init, s, c)
    requires t.log == s.log + [e] && c in t.calls && t.calls[c] == s.calls[c]
    requires e.Commit? ==> e.call != c
    ensures CallOk(codec, init, t, c)
  {
    hide Decide, Serial, ChangesIn;
    var call := s.calls[c];
    AppendKeepsHistory(codec, init, s.log, e, |s.log|);
    AppendKeepsHistory(codec, init, s.log, e, call.start);
    DifferentMeansChanged(codec, init, t.log, |s.log|, |t.log|);
    match call.stage {
      case Trying(_, at, _, _, _) => AppendKeepsHistory(codec, init, s.log, e, at);
      case Returned(Committed(value)) =>
        var k :| CommitsAt(codec, init, s, c, k, value)
          && forall j :: 0 <= j < |s.log| && s.log[j].Commit? && s.log[j].call == c ==> j == k;
        AppendKeepsHistory(codec, init, s.log, e, k);
        assert CommitsAt(codec, init, t, c, k, value);
      case Returned(Kept(_)) =>
        var n :| AnswersAt(codec, init, s, c, n);
        AppendKeepsHistory(codec, init, s.log, e, n);
        assert AnswersAt(codec, init, t, c, n);
      case _ =>
    }
  }

  lemma LogGrows<T>(codec: Codec<T>, init: Value, s: State<T>, e: Event<T>, t: State<T>)
    requires LogOk(codec, init, s) && t.log == s.log + [e] && s.calls.Keys <= t.calls.Keys
    requires t.value == Effect(codec, e, s.value)
    requires e.Commit? ==> e.call in t.calls && Decide(codec, e.program, s.value).Attempt?
    ensures LogOk(codec, init, t)
  {
    AppendKeepsHistory(codec, init, s.log, e, |s.log|);
    forall k | 0 <= k < |t.log| && t.log[k].Commit?
      ensures t.log[k].call in t.calls && Decide(codec, t.log[k].program, Serial(codec, init, t.log, k)).Attempt?
    {
      AppendKeepsHistory(codec, init, s.log, e, k);
    }
  }

  lemma SuccessfulPut<T>(codec: Codec<T>, init: Value, s: State<T>, c: CallId)
    requires Inv(codec, init, s) && c in s.calls && s.calls[c].stage.Trying? && s.value == s.calls[c].stage.read
    ensures Inv(codec, init, Apply(codec, s, Put(c)))
  {
    var t, call := Apply(codec, s, Put(c)), s.calls[c];
    var e := Commit(c, call.program);
    assert CallOk(codec, init, s, c);
    LogGrows(codec, init, s, e, t);
    forall d | d in t.calls ensures CallOk(codec, init, t, d) {
      if d != c {
        OthersEvent(codec, init, s, e, t, d);
      } else {
        AppendKeepsHistory(codec, init, s.log, e, |s.log|);
        assert CommitsAt(codec, init, t, c, |s.log|, call.stage.value);
      }
    }
  }

  lemma LostRace<T>(codec: Codec<T>, init: Value, s: State<T>, c: CallId)
    requires Inv(codec, init, s) && c in s.calls && s.calls[c].stage.Trying? && s.value != s.calls[c].stage.read
    ensures Inv(codec, init, Apply(codec, s, Put(c)))
  {
    hide Decide, Serial, ChangesIn;
    var t := Apply(codec, s, Put(c));
    assert CallOk(codec, init, s, c);
    DifferentMeansChanged(codec, init, s.log, s.calls[c].stage.at, |s.log|);
    DifferentMeansChanged(codec, init, s.log, s.calls[c].start, |s.log|);
    assert CallOk(codec, init, t, c);
    KeepsOthers(codec, init, s, t, c);
  }

  /** A step that writes nothing and moves only call c. */
  lemma KeepsOthers<T>(codec: Codec<T>, init: Value, s: State<T>, t: State<T>, c: CallId)
    requires Inv(codec, init, s) && t.log == s.log && t.value == s.value && c in t.calls
    requires t.calls == s.calls[c := t.calls[c]]
    requires CallOk(codec, init, t, c)
    ensures Inv(codec, init, t)
  {
    forall d | d in t.calls ensures CallOk(codec, init, t, d) {
      if d != c { SameCall(codec, init, s, t, d); }
    }
  }

  lemma SameCall<T>(codec: Codec<T>, init: Value, s: State<T>, t: State<T>, d: CallId)
    requires t.log == s.log && d in s.calls && d in t.calls && t.calls[d] == s.calls[d]
    requires CallOk(codec, init, s, d)
    ensures CallOk(codec, init, t, d)
  {
    if s.calls[d].stage.Returned? && s.calls[d].stage.reply.Committed? {
      var value := s.calls[d].stage.reply.value;
      var k :| CommitsAt(codec, init, s, d, k, value)
        && forall j :: 0 <= j < |s.log| && s.log[j].Commit? && s.log[j].call == d ==> j == k;
      assert CommitsAt(codec, init, t, d, k, value);
    } else if s.calls[d].stage.Returned? && s.calls[d].stage.reply.Kept? {
      var n :| AnswersAt(codec, init, s, d, n);
      assert AnswersAt(codec, init, t, d, n);
    }
  }

  /** What a get answers is never a commit or a conflict. */
  lemma AnswersWithoutWriting<T>(codec: Codec<T>, program: Program<T>, read: Value)
    ensures match Decide(codec, program, read)
      case Answer(reply) => reply.Kept? || reply.Failed?
      case Attempt(_, _) => true
  {
  }

  lemma GetKeepsInv<T>(codec: Codec<T>, init: Value, s: State<T>, c: CallId)
    requires Inv(codec, init, s) && Enabled(s, Get(c))
    ensures Inv(codec, init, Apply(codec, s, Get(c)))
  {
    hide Decide, Serial, ChangesIn;
    var t := Apply(codec, s, Get(c));
    assert CallOk(codec, init, s, c);
    AnswersWithoutWriting(codec, s.calls[c].program, s.value);
    if t.calls[c].stage.Returned? {
      assert AnswersAt(codec, init, t, c, |s.log|);
    }
    assert CallOk(codec, init, t, c);
    KeepsOthers(codec, init, s, t, c);
  }

  /** A call that begins, or is let down by the store. */
  lemma QuietStepKeepsInv<T>(codec: Codec<T>, init: Value, s: State<T>, step: Step<T>)
    requires Inv(codec, init, s) && Enabled(s, step) && (step.Begin? || step.StoreFails? || step.StoreConflicts?)
    ensures Inv(codec, init, Apply(codec, s, step))
  {
    hide Decide, Serial, ChangesIn;
    var t, c := Apply(codec, s, step), step.c;
    if !step.Begin? { assert CallOk(codec, init, s, c); }
    assert CallOk(codec, init, t, c);
    KeepsOthers(codec, init, s, t, c);
  }

  lemma WriteKeepsInv<T>(codec: Codec<T>, init: Value, s: State<T>, v: Value)
    requires Inv(codec, init, s)
    ensures Inv(codec, init, Apply(codec, s, Write(v)))
  {
    hide CallOk;
    var t := Apply(codec, s, Write(v));
    LogGrows(codec, init, s, Other(v), t);
    forall d | d in t.calls ensures CallOk(codec, init, t, d) { OthersEvent(codec, init, s, Other(v), t, d); }
  }

  lemma InvStep<T>(codec: Codec<T>, init: Value, s: State<T>, step: Step<T>)
    requires Inv(codec, init, s) && Enabled(s, step)
    ensures Inv(codec, init, Apply(codec, s, step))
  {
    hide Inv, Apply;
    match step
    case Get(c) => GetKeepsInv(codec, init, s, c);
    case Put(c) =>
      if s.value == s.calls[c].stage.read { SuccessfulPut(codec, init, s, c); } else { LostRace(codec, init, s, c); }
    case Write(v) => WriteKeepsInv(codec, init, s, v);
    case _ => QuietStepKeepsInv(codec, init, s, step);
  }

  lemma {:induction false} RunInv<T>(codec: Codec<T>, init: Value, trace: seq<State<T>>, steps: seq<Step<T>>, j: nat)
    requires IsRun(codec, init, trace, steps) && j < |trace|
    ensures Inv(codec, init, trace[j])
  {
    if j > 0 {
      RunInv(codec, init, trace, steps, j - 1);
      InvStep(codec, init, trace[j - 1], steps[j - 1]);
    }
  }

  // ---------- the theorems ----------

  /**
    Serializability. At any point of any run the stored value is what results from running the
    committed calls alone, one at a time, in commit order among the other writes; a call that
    reports success has exactly one commit, of the value it reports, decided on the value stored
    just before; any other call has none; one that answers without writing answers a value the key
    had since it began; and a conflict is reported only if others wrote at least eight times since
    then, changing the value each time unless it was the store that gave up.
   */
  lemma Serializable<T>(codec: Codec<T>, init: Value, trace: seq<State<T>>, steps: seq<Step<T>>, j: nat)
    requires IsRun(codec, init, trace, steps) && j < |trace|
    ensures var s := trace[j];
      && s.value == Serial(codec, init, s.log, |s.log|)
      && forall c :: c in s.calls ==>
           match s.calls[c].stage
           case Returned(Committed(value)) =>
             exists k :: CommitsAt(codec, init, s, c, k, value)
               && forall i :: 0 <= i < |s.log| && s.log[i].Commit? && s.log[i].call == c ==> i == k
           case Returned(CASConflict(byStore)) =>
             && NoCommit(s.log, c)
             && |s.log| >= s.calls[c].start + 8
             && (byStore || ChangesIn(codec, init, s.log, |s.log|) >= ChangesIn(codec, init, s.log, s.calls[c].start) + 8)
           case Returned(Kept(_)) =>
             NoCommit(s.log, c) && exists n :: AnswersAt(codec, init, s, c, n)
           case _ => NoCommit(s.log, c)
  {
    RunInv(codec, init, trace, steps, j);
    var s := trace[j];
    assert forall c :: c in s.calls ==> CallOk(codec, init, s, c);
  }

  /**
    The same in terms of callbacks. The winner's event turned the value before it into the value after it, as
    its callback said to on that very value; one that answers without writing was given a value the key had
    since it began. In particular a consumer wins only what its callback accepted.
   */
  lemma WinnersObeyCallbacks<T>(codec: Codec<T>, init: Value, trace: seq<State<T>>, steps: seq<Step<T>>, j: nat, c: CallId)
    requires IsRun(codec, init, trace, steps) && j < |trace| && c in trace[j].calls
    ensures var s := trace[j]; var call := s.calls[c];
      match call.stage
      case Returned(Committed(value)) =>
        exists k :: call.start <= k < |s.log| && s.log[k] == Commit(c, call.program)
          && Performs(codec, call.program, Serial(codec, init, s.log, k), Serial(codec, init, s.log, k + 1), value)
      case Returned(Kept(current)) =>
        exists n :: call.start <= n <= |s.log| && Passes(codec, call.program, Serial(codec, init, s.log, n), current)
      case _ => true
  {
    hide Decide, Performs, Passes;
    Serializable(codec, init, trace, steps, j);
    var s := trace[j];
    var call := s.calls[c];
    match call.stage {
      case Returned(Committed(value)) =>
        var k: nat :| CommitsAt(codec, init, s, c, k, value);
        DecideMeans(codec, call.program, Serial(codec, init, s.log, k));
        assert Performs(codec, call.program, Serial(codec, init, s.log, k), Serial(codec, init, s.log, k + 1), value);
      case Returned(Kept(current)) =>
        var n :| AnswersAt(codec, init, s, c, n);
        DecideMeans(codec, call.program, Serial(codec, init, s.log, n));
        assert Passes(codec, call.program, Serial(codec, init, s.log, n), current);
      case _ =>
    }
  }

  /** Calls that consumed the key among the first n events. */
  ghost function Consumed<T>(log: seq<Event<T>>, n: nat): nat
    requires n <= |log|
  {
    if n == 0 then 0
    else Consumed(log, n - 1) + if log[n - 1].Commit? && log[n - 1].program.Consume? then 1 else 0
  }

  /** Events among the first n that gave the key a value. */
  ghost function Writes<T>(codec: Codec<T>, init: Value, log: seq<Event<T>>, n: nat): nat
    requires n <= |log|
  {
    if n == 0 then 0
    else Writes(codec, init, log, n - 1) + if Serial(codec, init, log, n).Some? then 1 else 0
  }

  lemma {:induction false} ConsumedWasWritten<T>(codec: Codec<T>, init: Value, s: State<T>, n: nat)
    requires LogOk(codec, init, s) && n <= |s.log|
    ensures Consumed(s.log, n) + (if Serial(codec, init, s.log, n).Some? then 1 else 0)
      <= Writes(codec, init, s.log, n) + (if init.Some? then 1 else 0)
  {
    if n > 0 {
      ConsumedWasWritten(codec, init, s, n - 1);
      var e := s.log[n - 1];
      if e.Commit? && e.program.Consume? {
        assert Decide(codec, e.program, Serial(codec, init, s.log, n - 1)).Attempt?;
      }
    }
  }

  /** Never more consumers win than values were written; a token set once is consumed at most once. */
  lemma ConsumedAtMostOnce<T>(codec: Codec<T>, init: Value, trace: seq<State<T>>, steps: seq<Step<T>>, j: nat)
    requires IsRun(codec, init, trace, steps) && j < |trace|
    ensures var log := trace[j].log;
      Consumed(log, |log|) <= Writes(codec, init, log, |log|) + if init.Some? then 1 else 0
  {
    RunInv(codec, init, trace, steps, j);
    ConsumedWasWritten(codec, init, trace[j], |trace[j].log|);
  }
}
