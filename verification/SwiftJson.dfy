/**
  MutateJSON and ConsumeJSON: bounded loops that read a value, decide, and write or delete
  only if the value is still the one they read. They call the Badger or Redis operations, which
  are loops themselves, with arbitrary writes of others between and during any two of them.
 */
module SwiftJson {
  import opened Wrappers
  import opened SwiftStore

  /** JSON marshalling and unmarshalling; both may fail. */
  datatype Codec<!T> = Codec(encode: T -> Option<Bytes>, decode: Bytes -> Option<T>)

  /** What a mutate callback answers: an error, "leave it", or a new value. */
  datatype Verdict<+T> = Fail | Decline | Store(value: T)

  /** A call: a mutation, or a consumption whose callback may err (None) or decline (Some(false)). */
  datatype Program<!T> =
    | Mutate(fn: Option<T> -> Verdict<T>)
    | Consume(pick: T -> Option<bool>)

  /**
    `Kept` is a nil error with nothing written; its value is what the caller gets, if anything. The caller
    cannot tell a conflict the store reported, after its own eight tries, from one of eight lost rounds.
   */
  datatype Reply<+T> = Committed(value: T) | Kept(current: Option<T>) | Failed | CASConflict(byStore: bool)

  /** What a call does with the value it read. `put` is None for a delete. */
  datatype Move<+T> = Answer(reply: Reply<T>) | Attempt(put: Value, value: T)

  function Decide<T>(codec: Codec<T>, program: Program<T>, read: Value): Move<T> {
    match program
    case Mutate(fn) =>
      (match read
       case None => DecideStore(codec, fn(None), None)
       case Some(data) =>
         match codec.decode(data)
         case None => Answer(Failed)
         case Some(current) => DecideStore(codec, fn(Some(current)), Some(current)))
    case Consume(pick) =>
      match read
      case None => Answer(Kept(None))
      case Some(data) =>
        match codec.decode(data)
        case None => Answer(Failed)
        case Some(current) =>
          match pick(current)
          case None => Answer(Failed)
          case Some(false) => Answer(Kept(None))
          case Some(true) => Attempt(None, current)
  }

  function DecideStore<T>(codec: Codec<T>, verdict: Verdict<T>, current: Option<T>): Move<T> {
    match verdict
    case Fail => Answer(Failed)
    case Decline => Answer(Kept(current))
    case Store(newVal) =>
      match codec.encode(newVal)
      case None => Answer(Failed)
      case Some(data) => Attempt(Some(data), newVal)
  }

  /** The value after the call has run alone on `v`, and its reply. */
  function RunAlone<T>(codec: Codec<T>, program: Program<T>, v: Value): (Value, Reply<T>) {
    match Decide(codec, program, v)
    case Answer(reply) => (v, reply)
    case Attempt(put, value) => (put, Committed(value))
  }

  // ---------- what a call does, without Decide ----------

  /** A mutation of the value `read` stores `v`: that is what its function answers, and `put` is its encoding. */
  ghost predicate Stores<T>(codec: Codec<T>, fn: Option<T> -> Verdict<T>, read: Value, put: Value, v: T) {
    && put.Some? && codec.encode(v) == put
    && if read.None? then fn(None) == Store(v)
       else codec.decode(read.value).Some? && fn(codec.decode(read.value)) == Store(v)
  }

  /** A mutation of the value `read` leaves it, and hands its caller what it decodes to. */
  ghost predicate Declines<T>(codec: Codec<T>, fn: Option<T> -> Verdict<T>, read: Value, current: Option<T>) {
    && fn(current) == Decline
    && if read.None? then current == None else current.Some? && codec.decode(read.value) == current
  }

  /** A consumption of the value `read` is accepted: it decodes to `v`, and the callback says yes to that. */
  ghost predicate Accepts<T>(codec: Codec<T>, pick: T -> Option<bool>, read: Value, v: T) {
    read.Some? && codec.decode(read.value) == Some(v) && pick(v) == Some(true)
  }

  /** There is nothing to consume: no value, or one the callback says no to. */
  ghost predicate Leaves<T>(codec: Codec<T>, pick: T -> Option<bool>, read: Value) {
    read.None? || (codec.decode(read.value).Some? && pick(codec.decode(read.value).value) == Some(false))
  }

  /** A call attempts a write, or answers without one, exactly in these cases. */
  lemma MutationMeans<T>(codec: Codec<T>, fn: Option<T> -> Verdict<T>, read: Value)
    ensures forall put, v :: Decide(codec, Mutate(fn), read) == Attempt(put, v) <==> Stores(codec, fn, read, put, v)
    ensures forall c :: Decide(codec, Mutate(fn), read) == Answer(Kept(c)) <==> Declines(codec, fn, read, c)
  {
  }

  lemma ConsumptionMeans<T>(codec: Codec<T>, pick: T -> Option<bool>, read: Value)
    ensures forall put, v :: Decide(codec, Consume(pick), read) == Attempt(put, v) <==> put == None && Accepts(codec, pick, read, v)
    ensures forall c :: Decide(codec, Consume(pick), read) == Answer(Kept(c)) <==> c == None && Leaves(codec, pick, read)
  {
  }

  /** The program's write over `read` is `put`, and its caller gets v. */
  ghost predicate Performs<T>(codec: Codec<T>, program: Program<T>, read: Value, put: Value, v: T) {
    match program
    case Mutate(fn) => Stores(codec, fn, read, put, v)
    case Consume(pick) => Accepts(codec, pick, read, v) && put == None
  }

  /** The program has nothing to write over `read`, and its caller gets `current`. */
  ghost predicate Passes<T>(codec: Codec<T>, program: Program<T>, read: Value, current: Option<T>) {
    match program
    case Mutate(fn) => Declines(codec, fn, read, current)
    case Consume(pick) => Leaves(codec, pick, read) && current == None
  }

  lemma DecideMeans<T>(codec: Codec<T>, program: Program<T>, read: Value)
    ensures forall put, v :: Decide(codec, program, read) == Attempt(put, v) <==> Performs(codec, program, read, put, v)
    ensures forall c :: Decide(codec, program, read) == Answer(Kept(c)) <==> Passes(codec, program, read, c)
  {
    hide Decide, Stores, Declines, Accepts, Leaves;
    match program {
      case Mutate(fn) => MutationMeans(codec, fn, read);
      case Consume(pick) => ConsumptionMeans(codec, pick, read);
    }
  }

  /**
    What the caller of a call may conclude: from a commit, what it wrote over which value; from an answer
    without one, a value that the key had during the call.
   */
  ghost predicate CallerKnows<T>(codec: Codec<T>, program: Program<T>, init: Value, before: seq<Entry>, after: seq<Entry>, r: Reply<T>) {
    && (r.Committed? ==> |after| > |before| && Performs(codec, program, ValueAt(init, after, |after| - 1), after[|after| - 1].value, r.value))
    && (r.Kept? ==> exists n :: |before| <= n <= |after| && Passes(codec, program, ValueAt(init, after, n), r.current))
  }

  lemma EffectIsKnown<T>(codec: Codec<T>, program: Program<T>, init: Value, before: seq<Entry>, after: seq<Entry>, r: Reply<T>)
    requires TookEffect(codec, program, init, before, after, r)
    ensures CallerKnows(codec, program, init, before, after, r)
  {
    hide Decide, Performs, Passes;
    if r.Committed? { DecideMeans(codec, program, ValueAt(init, after, |after| - 1)); }
    if r.Kept? {
      var n :| |before| <= n <= |after| && Decide(codec, program, ValueAt(init, after, n)) == Answer(r);
      DecideMeans(codec, program, ValueAt(init, after, n));
    }
  }

  /** The program can do nothing with `read`: a decoding, its callback or an encoding fails. */
  ghost predicate Breaks<T>(codec: Codec<T>, program: Program<T>, read: Value) {
    || (read.Some? && codec.decode(read.value).None?)
    || match program
       case Mutate(fn) =>
         var verdict := fn(if read.None? then None else codec.decode(read.value));
         verdict.Fail? || (verdict.Store? && codec.encode(verdict.value).None?)
       case Consume(pick) => read.Some? && codec.decode(read.value).Some? && pick(codec.decode(read.value).value).None?
  }

  /** What an undisturbed call does to the value v; of the three cases exactly one can be. */
  ghost predicate DidAlone<T>(codec: Codec<T>, program: Program<T>, v: Value, after: Value, r: Reply<T>) {
    match r
    case Committed(x) => Performs(codec, program, v, after, x)
    case Kept(c) => after == v && Passes(codec, program, v, c)
    case Failed => after == v && Breaks(codec, program, v)
    case CASConflict(_) => false
  }

  lemma AloneIsKnown<T>(codec: Codec<T>, program: Program<T>, v: Value)
    ensures var (after, r) := RunAlone(codec, program, v); DidAlone(codec, program, v, after, r)
  {
  }

  datatype Store = Badger | Redis

  /** What others write before each read, which reads fail, and what surrounds the write of each round. */
  datatype JsonWorld = JsonWorld(beforeGet: nat -> seq<Value>, getFails: nat -> bool, put: nat -> World) {
    ghost predicate Quiet() {
      beforeGet(0) == [] && !getFails(0) && put(0).Quiet()
    }
  }

  /**
    The call, seen from its caller. Committed: its one write replaced the value its callback was
    given, which was the value stored just before. Otherwise it wrote nothing; `Kept` answers
    a value the key had during the call. A conflict means that others wrote at least eight times, and,
    unless the store reported it, that the value changed at least eight times.
   */
  ghost predicate TookEffect<T>(codec: Codec<T>, program: Program<T>, init: Value, before: seq<Entry>, after: seq<Entry>, r: Reply<T>) {
    && before <= after
    && match r
       case Committed(value) =>
         var last := |after| - 1;
         && |before| <= last && AllForeign(after, |before|, last)
         && after[last].mine
         && Decide(codec, program, ValueAt(init, after, last)) == Attempt(after[last].value, value)
       case Kept(_) =>
         && AllForeign(after, |before|, |after|)
         && exists n :: |before| <= n <= |after| && Decide(codec, program, ValueAt(init, after, n)) == Answer(r)
       case Failed => AllForeign(after, |before|, |after|)
       case CASConflict(byStore) =>
         && AllForeign(after, |before|, |after|)
         && |after| >= |before| + 8
         && (byStore || Changes(init, after) >= Changes(init, before) + 8)
  }

  /** A round that ends the call, seen by a caller whose earlier rounds wrote nothing. */
  lemma LaterRound<T>(codec: Codec<T>, program: Program<T>, init: Value, before: seq<Entry>, middle: seq<Entry>, after: seq<Entry>, r: Reply<T>)
    requires before <= middle && AllForeign(middle, |before|, |middle|)
    requires TookEffect(codec, program, init, middle, after, r) && r != CASConflict(false)
    ensures TookEffect(codec, program, init, before, after, r)
  {
    assert forall i :: 0 <= i < |middle| ==> after[i] == middle[i];
    if r.Kept? {
      var n :| |middle| <= n <= |after| && Decide(codec, program, ValueAt(init, after, n)) == Answer(r);
      assert |before| <= n <= |after|;
    }
  }

  /** One round of a call: a reply ends it; None is a lost race, and then somebody changed the value. */
  ghost predicate Round<T>(codec: Codec<T>, program: Program<T>, init: Value, before: seq<Entry>, after: seq<Entry>, r: Option<Reply<T>>) {
    match r
    case Some(reply) => reply != CASConflict(false) && TookEffect(codec, program, init, before, after, reply)
    case None => before <= after && AllForeign(after, |before|, |after|) && Changes(init, after) > Changes(init, before)
  }

  /** Others write, then the value is read; the read may fail. */
  method Get(cell: Cell, others: seq<Value>, fails: bool) returns (read: Option<Value>)
    requires cell.Valid()
    modifies cell
    ensures cell.Valid() && old(cell.log) <= cell.log && AllForeign(cell.log, |old(cell.log)|, |cell.log|)
    ensures read == if fails then None else Some(cell.value)
    ensures others == [] ==> cell.log == old(cell.log) && cell.value == old(cell.value)
  {
    cell.Disturb(others);
    read := if fails then None else Some(cell.value);
  }

  /**
    The store's conditional operation for the value read: SetNX for an absent key, CompareAndDelete to
    remove it, else CompareAndSwap.
   */
  method PutIfUnchanged(store: Store, cell: Cell, read: Value, put: Value, w: World) returns (end: UpdateEnd<bool>)
    requires cell.Valid() && (read.Some? || put.Some?)
    modifies cell
    ensures cell.Valid()
    ensures ConditionalWrite(v => v == read, put, w, cell.init, old(cell.log), cell.log, end)
  {
    hide ConditionalWrite;
    ghost var test;
    if read.None? {
      test := (v: Value) => v.None?;
      match store {
        case Badger => end := BadgerSetNX(cell, put.value, w);
        case Redis => end := RedisSetNX(cell, put.value, w);
      }
    } else if put.None? {
      test := (v: Value) => v.Some? && (v == read || (read == None && v == Some("")));
      match store {
        case Badger => end := BadgerCompareAndDelete(cell, read, w);
        case Redis => end := RedisCompareAndDelete(cell, read, w);
      }
    } else {
      test := v => v == read || (read == None && v == Some(""));
      match store {
        case Badger => end := BadgerCompareAndSwap(cell, read, put.value, w);
        case Redis => end := RedisCompareAndSwap(cell, read, put.value, w);
      }
    }
    SameTest(test, v => v == read, put, w, cell.init, old(cell.log), cell.log, end);
  }

  /** What the outcome of the conditional operation means for the call. */
  function ReplyTo<T>(end: UpdateEnd<bool>, value: T): Option<Reply<T>> {
    match end
    case Done(done) => if done then Some(Committed(value)) else None
    case Conflict => Some(CASConflict(true))
    case Fault => Some(Failed)
  }

  /** A round that read at `middle` and then tried to write. */
  lemma AttemptIsRound<T>(codec: Codec<T>, program: Program<T>, put: Value, value: T, w: World,
                          init: Value, before: seq<Entry>, middle: seq<Entry>, after: seq<Entry>, end: UpdateEnd<bool>)
    requires before <= middle && AllForeign(middle, |before|, |middle|)
    requires var read := ValueAt(init, middle, |middle|);
      && Decide(codec, program, read) == Attempt(put, value)
      && ConditionalWrite(v => v == read, put, w, init, middle, after, end)
    ensures Round(codec, program, init, before, after, ReplyTo(end, value))
  {
    hide Decide;
    var read := ValueAt(init, middle, |middle|);
    assert forall i :: 0 <= i < |middle| ==> after[i] == middle[i];
    if end == Done(false) {
      var n :| |middle| <= n <= |after| && ValueAt(init, after, n) != read;
      assert ValueAt(init, after[..n], n) == ValueAt(init, after, n);
      ChangesBetween(init, before, middle);
      ChangesBetween(init, middle, after[..n]);
      ChangesBetween(init, after[..n], after);
    }
  }

  method MutateRound<T>(store: Store, cell: Cell, codec: Codec<T>, fn: Option<T> -> Verdict<T>, w: JsonWorld, i: nat)
      returns (r: Option<Reply<T>>)
    requires cell.Valid()
    modifies cell
    ensures cell.Valid() && Round(codec, Mutate(fn), cell.init, old(cell.log), cell.log, r)
    ensures i == 0 && w.Quiet() ==> r.Some? && (cell.value, r.value) == RunAlone(codec, Mutate(fn), old(cell.value))
  {
    var got := Get(cell, w.beforeGet(i), w.getFails(i));
    if got.None? {
      return Some(Failed);
    }
    var read := got.value;
    var current: Option<T> := None;
    if read.Some? {
      current := codec.decode(read.value);
      if current.None? {
        return Some(Failed);
      }
    }
    var verdict := fn(current);
    ghost var move := Decide(codec, Mutate(fn), read);
    assert move == DecideStore(codec, verdict, current);
    if verdict.Fail? {
      return Some(Failed);
    }
    if verdict.Decline? {
      assert ValueAt(cell.init, cell.log, |cell.log|) == read;
      return Some(Kept(current));
    }
    var encoded := codec.encode(verdict.value);
    if encoded.None? {
      return Some(Failed);
    }
    assert move == Attempt(encoded, verdict.value);
    ghost var middle := cell.log;
    var end := PutIfUnchanged(store, cell, read, encoded, w.put(i));
    AttemptIsRound(codec, Mutate(fn), encoded, verdict.value, w.put(i), cell.init, old(cell.log), middle, cell.log, end);
    r := ReplyTo(end, verdict.value);
  }

  method MutateJSON<T>(store: Store, cell: Cell, codec: Codec<T>, fn: Option<T> -> Verdict<T>, w: JsonWorld) returns (r: Reply<T>)
    requires cell.Valid()
    modifies cell
    ensures cell.Valid()
    ensures TookEffect(codec, Mutate(fn), cell.init, old(cell.log), cell.log, r)
    ensures CallerKnows(codec, Mutate(fn), cell.init, old(cell.log), cell.log, r)
    ensures w.Quiet() ==> DidAlone(codec, Mutate(fn), old(cell.value), cell.value, r)
  {
    hide Decide, RunAlone, CallerKnows, DidAlone;
    AloneIsKnown(codec, Mutate(fn), cell.value);
    for i := 0 to MAX_RETRIES
      invariant cell.Valid()
      invariant old(cell.log) <= cell.log && AllForeign(cell.log, |old(cell.log)|, |cell.log|)
      invariant Changes(cell.init, cell.log) >= Changes(cell.init, old(cell.log)) + i
      invariant i == 0 ==> cell.value == old(cell.value)
      invariant w.Quiet() ==> i == 0
    {
      ghost var middle := cell.log;
      var reply := MutateRound(store, cell, codec, fn, w, i);
      if reply.Some? {
        LaterRound(codec, Mutate(fn), cell.init, old(cell.log), middle, cell.log, reply.value);
        EffectIsKnown(codec, Mutate(fn), cell.init, old(cell.log), cell.log, reply.value);
        return reply.value;
      }
    }
    ChangesBetween(cell.init, old(cell.log), cell.log);
    EffectIsKnown(codec, Mutate(fn), cell.init, old(cell.log), cell.log, CASConflict(false));
    return CASConflict(false);
  }

  method ConsumeRound<T>(store: Store, cell: Cell, codec: Codec<T>, pick: T -> Option<bool>, w: JsonWorld, i: nat)
      returns (r: Option<Reply<T>>)
    requires cell.Valid()
    modifies cell
    ensures cell.Valid() && Round(codec, Consume(pick), cell.init, old(cell.log), cell.log, r)
    ensures i == 0 && w.Quiet() ==> r.Some? && (cell.value, r.value) == RunAlone(codec, Consume(pick), old(cell.value))
  {
    var got := Get(cell, w.beforeGet(i), w.getFails(i));
    if got.None? {
      return Some(Failed);
    }
    var read := got.value;
    assert ValueAt(cell.init, cell.log, |cell.log|) == read;
    ghost var move := Decide(codec, Consume(pick), read);
    if read.None? {
      return Some(Kept(None));
    }
    var current := codec.decode(read.value);
    if current.None? {
      return Some(Failed);
    }
    var ok := pick(current.value);
    if ok.None? {
      return Some(Failed);
    }
    if !ok.value {
      assert move == Answer(Kept(None));
      return Some(Kept(None));
    }
    assert move == Attempt(None, current.value);
    ghost var middle := cell.log;
    var end := PutIfUnchanged(store, cell, read, None, w.put(i));
    AttemptIsRound(codec, Consume(pick), None, current.value, w.put(i), cell.init, old(cell.log), middle, cell.log, end);
    r := ReplyTo(end, current.value);
  }

  method ConsumeJSON<T>(store: Store, cell: Cell, codec: Codec<T>, pick: T -> Option<bool>, w: JsonWorld) returns (r: Reply<T>)
    requires cell.Valid()
    modifies cell
    ensures cell.Valid()
    ensures TookEffect(codec, Consume(pick), cell.init, old(cell.log), cell.log, r)
    ensures CallerKnows(codec, Consume(pick), cell.init, old(cell.log), cell.log, r)
    ensures w.Quiet() ==> DidAlone(codec, Consume(pick), old(cell.value), cell.value, r)
  {
    hide Decide, RunAlone, CallerKnows, DidAlone;
    AloneIsKnown(codec, Consume(pick), cell.value);
    for i := 0 to MAX_RETRIES
      invariant cell.Valid()
      invariant old(cell.log) <= cell.log && AllForeign(cell.log, |old(cell.log)|, |cell.log|)
      invariant Changes(cell.init, cell.log) >= Changes(cell.init, old(cell.log)) + i
      invariant i == 0 ==> cell.value == old(cell.value)
      invariant w.Quiet() ==> i == 0
    {
      ghost var middle := cell.log;
      var reply := ConsumeRound(store, cell, codec, pick, w, i);
      if reply.Some? {
        LaterRound(codec, Consume(pick), cell.init, old(cell.log), middle, cell.log, reply.value);
        EffectIsKnown(codec, Consume(pick), cell.init, old(cell.log), cell.log, reply.value);
        return reply.value;
      }
    }
    ChangesBetween(cell.init, old(cell.log), cell.log);
    EffectIsKnown(codec, Consume(pick), cell.init, old(cell.log), cell.log, CASConflict(false));
    return CASConflict(false);
  }
}
