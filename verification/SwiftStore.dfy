/**
  One key of the key-value store, and the conditional writes built on it: Badger runs a
  transaction closure again and again until it commits, Redis watches the key and retries
  when it changed. Both come down to the same atomic operations.
 */
module SwiftStore {
  import opened Wrappers
  import opened GoInt
  import opened Decimal

  type Bytes = string
  type Value = Option<Bytes>     // None: the key is absent

  const MAX_RETRIES := 8

  /** One write that took effect: by the call under consideration, or by anybody else. */
  datatype Entry = Entry(mine: bool, value: Value)

  function ValueAt(init: Value, log: seq<Entry>, n: nat): Value
    requires n <= |log|
  {
    if n == 0 then init else log[n - 1].value
  }

  ghost predicate AllForeign(log: seq<Entry>, from: nat, to: nat)
    requires to <= |log|
  {
    forall i :: from <= i < to ==> !log[i].mine
  }

  /** How often the value really changed. */
  ghost function Changes(init: Value, log: seq<Entry>): nat {
    if log == [] then 0
    else
      var n := |log| - 1;
      Changes(init, log[..n]) + if log[n].value != ValueAt(init, log, n) then 1 else 0
  }

  /** Between two moments there are at most as many changes as writes, and at least one if the value differs. */
  lemma {:induction false} ChangesBetween(init: Value, before: seq<Entry>, after: seq<Entry>)
    requires before <= after
    ensures Changes(init, before) <= Changes(init, after) <= Changes(init, before) + |after| - |before|
    ensures ValueAt(init, after, |after|) != ValueAt(init, before, |before|) ==> Changes(init, before) < Changes(init, after)
  {
    if before == after {
      return;
    }
    var n := |after| - 1;
    ChangesBetween(init, before, after[..n]);
  }

  /** Writing the value that is there already changes nothing, however often. */
  lemma {:induction false} RewritesChangeNothing(init: Value, before: seq<Entry>, v: Value, n: nat)
    requires v == ValueAt(init, before, |before|)
    ensures var after := before + Rewrites(v, n);
      ValueAt(init, after, |after|) == v && Changes(init, after) == Changes(init, before)
  {
    var after := before + Rewrites(v, n);
    if n > 0 {
      RewritesChangeNothing(init, before, v, n - 1);
      assert after[..|after| - 1] == before + Rewrites(v, n - 1);
    } else {
      assert after == before;
    }
  }

  function Rewrites(v: Value, n: nat): seq<Entry> {
    seq(n, _ => Entry(false, v))
  }

  /** A key in the store. Every write gives it a new version. */
  class Cell {
    var value: Value
    var version: nat
    ghost const init: Value
    ghost var log: seq<Entry>

    ghost predicate Valid()
      reads this
    {
      version == |log| && value == ValueAt(init, log, |log|)
    }

    constructor (value: Value)
      ensures Valid() && init == value && log == []
    {
      this.value, this.version, this.init, this.log := value, 0, value, [];
    }

    method Write(v: Value)
      requires Valid()
      modifies this
      ensures Valid() && log == old(log) + [Entry(true, v)]
    {
      value, version, log := v, version + 1, log + [Entry(true, v)];
    }

    /** Whatever others write in the meantime. */
    method Disturb(writes: seq<Value>)
      requires Valid()
      modifies this
      ensures Valid() && |log| == |old(log)| + |writes| && old(log) <= log
      ensures AllForeign(log, |old(log)|, |log|)
      ensures writes == [] ==> value == old(value) && log == old(log)
      ensures forall v :: writes == [v] ==> value == v && log == old(log) + [Entry(false, v)]
    {
      for i := 0 to |writes|
        invariant Valid() && |log| == |old(log)| + i && old(log) <= log
        invariant AllForeign(log, |old(log)|, |log|)
        invariant i > 0 ==> log[|old(log)|] == Entry(false, writes[0])
        invariant i == 0 ==> value == old(value)
      {
        value, version, log := writes[i], version + 1, log + [Entry(false, writes[i])];
      }
    }
  }

  // ---------- transactions ----------

  /** What a transaction closure does with the value it reads: its captured result, and its write if any. */
  datatype Txn<+R> = Txn(result: R, write: Option<Value>)

  datatype UpdateEnd<+R> = Done(result: R) | Conflict | Fault

  /** What others do while try i is open, and whether the database fails it for another reason. */
  datatype World = World(others: nat -> seq<Value>, fault: nat -> bool) {
    /** Nothing disturbs the first try. */
    predicate Quiet() {
      others(0) == [] && !fault(0)
    }

    /** Somebody rewrites the value v during every try. */
    ghost predicate Busy(v: Value) {
      forall i: nat :: others(i) == [v] && !fault(i)
    }
  }

  /**
    The call took effect at one moment, as if alone: a writing closure ran on the value its write
    replaced, a non-writing one on a value the key had during the call, and the result reported is that
    run's. An error leaves no write behind, and a conflict takes at least eight writes of others.
   */
  ghost predicate Atomic<R>(body: Value -> Txn<R>, init: Value, before: seq<Entry>, after: seq<Entry>, end: UpdateEnd<R>) {
    && before <= after
    && match end
       case Done(result) =>
         || WroteLast(body, init, before, after, result)
         || (AllForeign(after, |before|, |after|)
             && exists n :: |before| <= n <= |after| && body(ValueAt(init, after, n)) == Txn(result, None))
       case Conflict => AllForeign(after, |before|, |after|) && |after| >= |before| + 8
       case Fault => AllForeign(after, |before|, |after|)
  }

  /** What an undisturbed call does. */
  ghost predicate RanAlone<R>(body: Value -> Txn<R>, init: Value, before: seq<Entry>, after: seq<Entry>, end: UpdateEnd<R>) {
    var txn := body(ValueAt(init, before, |before|));
    end == Done(txn.result) && after == before + if txn.write.Some? then [Entry(true, txn.write.value)] else []
  }

  ghost predicate WroteLast<R>(body: Value -> Txn<R>, init: Value, before: seq<Entry>, after: seq<Entry>, result: R) {
    var last := |after| - 1;
    && |before| <= last
    && AllForeign(after, |before|, last)
    && after[last].mine
    && body(ValueAt(init, after, last)) == Txn(result, Some(after[last].value))
  }

  /** Badger: the closure's result variable is shared by all tries and overwritten by each. */
  method BadgerUpdate<R>(cell: Cell, body: Value -> Txn<R>, zero: R, w: World) returns (end: UpdateEnd<R>)
    requires cell.Valid()
    modifies cell
    ensures cell.Valid()
    ensures Atomic(body, cell.init, old(cell.log), cell.log, end)
    ensures w.Quiet() ==> RanAlone(body, cell.init, old(cell.log), cell.log, end)
    ensures w.Busy(old(cell.value)) && body(old(cell.value)).write.Some? ==>
      end == Conflict && cell.log == old(cell.log) + Rewrites(old(cell.value), 8)
  {
    var captured := zero;
    for i := 0 to MAX_RETRIES
      invariant cell.Valid()
      invariant old(cell.log) <= cell.log && AllForeign(cell.log, |old(cell.log)|, |cell.log|)
      invariant |cell.log| >= |old(cell.log)| + i
      invariant w.Quiet() ==> i == 0 && cell.log == old(cell.log)
      invariant w.Busy(old(cell.value)) && body(old(cell.value)).write.Some? ==>
        cell.value == old(cell.value) && cell.log == old(cell.log) + Rewrites(old(cell.value), i)
    {
      var readVersion, readValue := cell.version, cell.value;
      ghost var n := |cell.log|;
      var txn := body(readValue);
      captured := txn.result;
      cell.Disturb(w.others(i));
      assert ValueAt(cell.init, cell.log, n) == readValue;
      if w.fault(i) {
        return Fault;
      }
      match txn.write {
        case None =>
          return Done(captured);       // a transaction without writes has nothing to conflict
        case Some(v) =>
          if cell.version == readVersion {
            cell.Write(v);
            return Done(captured);
          }
      }
    }
    return Conflict;
  }

  /** Redis: every try has its own flag; EXEC fails when the watched key was written since WATCH. */
  method RedisWatch(cell: Cell, body: Value -> Txn<bool>, w: World) returns (end: UpdateEnd<bool>)
    requires cell.Valid()
    modifies cell
    ensures cell.Valid()
    ensures Atomic(body, cell.init, old(cell.log), cell.log, end)
    ensures w.Quiet() ==> RanAlone(body, cell.init, old(cell.log), cell.log, end)
    ensures w.Busy(old(cell.value)) && body(old(cell.value)).write.Some? ==>
      end == Conflict && cell.log == old(cell.log) + Rewrites(old(cell.value), 8)
  {
    for i := 0 to MAX_RETRIES
      invariant cell.Valid()
      invariant old(cell.log) <= cell.log && AllForeign(cell.log, |old(cell.log)|, |cell.log|)
      invariant |cell.log| >= |old(cell.log)| + i
      invariant w.Quiet() ==> i == 0 && cell.log == old(cell.log)
      invariant w.Busy(old(cell.value)) && body(old(cell.value)).write.Some? ==>
        cell.value == old(cell.value) && cell.log == old(cell.log) + Rewrites(old(cell.value), i)
    {
      var watched := cell.version;
      var current := cell.value;
      ghost var n := |cell.log|;
      var txn := body(current);
      var flag := txn.result;
      cell.Disturb(w.others(i));
      assert ValueAt(cell.init, cell.log, n) == current;
      if w.fault(i) {
        return Fault;
      }
      if txn.write.None? {
        return Done(flag);
      }
      if cell.version == watched {
        cell.Write(txn.write.value);
        return Done(flag);
      }
    }
    return Conflict;
  }

  // ---------- the operations ----------

  /** `bytesEqual`: a nil slice equals an empty one. */
  predicate Matches(current: Bytes, expected: Value) {
    current == if expected.None? then "" else expected.value
  }

  /** A nil `expected` also matches an absent key. */
  function SwapBody(expected: Value, newValue: Bytes): Value -> Txn<bool> {
    (current: Value) =>
      if current.None? then
        if expected.None? then Txn(true, Some(Some(newValue))) else Txn(false, None)
      else if !Matches(current.value, expected) then Txn(false, None)
      else Txn(true, Some(Some(newValue)))
  }

  function DeleteBody(expected: Value): Value -> Txn<bool> {
    (current: Value) =>
      if current.None? then Txn(false, None)
      else if !Matches(current.value, expected) then Txn(false, None)
      else Txn(true, Some(None))
  }

  function SetNXBody(newValue: Bytes): Value -> Txn<bool> {
    (current: Value) => if current.Some? then Txn(false, None) else Txn(true, Some(Some(newValue)))
  }

  /** `current, _ = strconv.ParseInt(...)`: a syntax error counts as 0, a number out of range as the nearest int64. */
  function CurrentCount(current: Value): int {
    match current
    case None => 0
    case Some(text) =>
      match ParseInt(text)
      case Number(n) => n
      case SyntaxError => 0
      case RangeError(clamped) => clamped
  }

  function IncrementBody(): Value -> Txn<int> {
    (current: Value) => var next := Wrap64(CurrentCount(current) + 1); Txn(next, Some(Some(FormatInt(next))))
  }

  /** At some moment of the call the key's value was one on which `test` fails. */
  ghost predicate SawMismatch(init: Value, before: seq<Entry>, after: seq<Entry>, test: Value -> bool) {
    exists n :: |before| <= n <= |after| && !test(ValueAt(init, after, n))
  }

  /**
    A conditional write as its caller sees it: true - the value it replaced passed the test and the
    key now holds `written`; false - the test failed at some moment of the call and nothing was
    written; an error - nothing was written, and a conflict means that others wrote at least eight times.
    Undisturbed, it answers at once.
   */
  ghost predicate ConditionalWrite(test: Value -> bool, written: Value, w: World,
                                   init: Value, before: seq<Entry>, after: seq<Entry>, end: UpdateEnd<bool>) {
    && before <= after
    && (w.Quiet() ==> end == Done(test(ValueAt(init, before, |before|))) && |after| <= |before| + 1)
    && if end == Done(true) then
         var last := |after| - 1;
         && |before| <= last && AllForeign(after, |before|, last)
         && after[last] == Entry(true, written) && test(ValueAt(init, after, last))
       else
         && AllForeign(after, |before|, |after|)
         && (end == Done(false) ==> SawMismatch(init, before, after, test))
         && (end == Conflict ==> |after| >= |before| + 8)
  }

  lemma AtomicIsConditionalWrite(body: Value -> Txn<bool>, test: Value -> bool, written: Value, w: World,
                                 init: Value, before: seq<Entry>, after: seq<Entry>, end: UpdateEnd<bool>)
    requires Atomic(body, init, before, after, end) && (w.Quiet() ==> RanAlone(body, init, before, after, end))
    requires forall v :: body(v) == if test(v) then Txn(true, Some(written)) else Txn(false, None)
    ensures ConditionalWrite(test, written, w, init, before, after, end)
  {
    if end.Done? && !WroteLast(body, init, before, after, end.result) {
      var n :| |before| <= n <= |after| && body(ValueAt(init, after, n)) == Txn(end.result, None);
      assert !test(ValueAt(init, after, n));
    }
  }

  /** Two tests that never differ make the same conditional write. */
  lemma SameTest(test: Value -> bool, other: Value -> bool, written: Value, w: World,
                 init: Value, before: seq<Entry>, after: seq<Entry>, end: UpdateEnd<bool>)
    requires ConditionalWrite(test, written, w, init, before, after, end)
    requires forall v :: test(v) == other(v)
    ensures ConditionalWrite(other, written, w, init, before, after, end)
  {
    if end == Done(false) {
      var n :| |before| <= n <= |after| && !test(ValueAt(init, after, n));
      assert !other(ValueAt(init, after, n));
    }
  }

  method BadgerCompareAndSwap(cell: Cell, expected: Value, newValue: Bytes, w: World) returns (end: UpdateEnd<bool>)
    requires cell.Valid()
    modifies cell
    ensures cell.Valid()
    ensures ConditionalWrite(v => v == expected || (expected == None && v == Some("")), Some(newValue), w, cell.init, old(cell.log), cell.log, end)
  {
    end := BadgerUpdate(cell, SwapBody(expected, newValue), false, w);
    AtomicIsConditionalWrite(SwapBody(expected, newValue), v => v == expected || (expected == None && v == Some("")), Some(newValue), w,
                             cell.init, old(cell.log), cell.log, end);
  }

  method RedisCompareAndSwap(cell: Cell, expected: Value, newValue: Bytes, w: World) returns (end: UpdateEnd<bool>)
    requires cell.Valid()
    modifies cell
    ensures cell.Valid()
    ensures ConditionalWrite(v => v == expected || (expected == None && v == Some("")), Some(newValue), w, cell.init, old(cell.log), cell.log, end)
  {
    end := RedisWatch(cell, SwapBody(expected, newValue), w);
    AtomicIsConditionalWrite(SwapBody(expected, newValue), v => v == expected || (expected == None && v == Some("")), Some(newValue), w,
                             cell.init, old(cell.log), cell.log, end);
  }

  method BadgerCompareAndDelete(cell: Cell, expected: Value, w: World) returns (end: UpdateEnd<bool>)
    requires cell.Valid()
    modifies cell
    ensures cell.Valid()
    ensures ConditionalWrite((v: Value) => v.Some? && (v == expected || (expected == None && v == Some(""))), None, w, cell.init, old(cell.log), cell.log, end)
  {
    end := BadgerUpdate(cell, DeleteBody(expected), false, w);
    AtomicIsConditionalWrite(DeleteBody(expected), (v: Value) => v.Some? && (v == expected || (expected == None && v == Some(""))), None, w,
                             cell.init, old(cell.log), cell.log, end);
  }

  method RedisCompareAndDelete(cell: Cell, expected: Value, w: World) returns (end: UpdateEnd<bool>)
    requires cell.Valid()
    modifies cell
    ensures cell.Valid()
    ensures ConditionalWrite((v: Value) => v.Some? && (v == expected || (expected == None && v == Some(""))), None, w, cell.init, old(cell.log), cell.log, end)
  {
    end := RedisWatch(cell, DeleteBody(expected), w);
    AtomicIsConditionalWrite(DeleteBody(expected), (v: Value) => v.Some? && (v == expected || (expected == None && v == Some(""))), None, w,
                             cell.init, old(cell.log), cell.log, end);
  }

  method BadgerSetNX(cell: Cell, newValue: Bytes, w: World) returns (end: UpdateEnd<bool>)
    requires cell.Valid()
    modifies cell
    ensures cell.Valid()
    ensures ConditionalWrite((v: Value) => v.None?, Some(newValue), w, cell.init, old(cell.log), cell.log, end)
  {
    end := BadgerUpdate(cell, SetNXBody(newValue), false, w);
    AtomicIsConditionalWrite(SetNXBody(newValue), (v: Value) => v.None?, Some(newValue), w,
                             cell.init, old(cell.log), cell.log, end);
  }

  /** One SET NX command. */
  method RedisSetNX(cell: Cell, newValue: Bytes, w: World) returns (end: UpdateEnd<bool>)
    requires cell.Valid()
    modifies cell
    ensures cell.Valid() && !end.Conflict?
    ensures ConditionalWrite((v: Value) => v.None?, Some(newValue), w, cell.init, old(cell.log), cell.log, end)
  {
    cell.Disturb(w.others(0));
    if w.fault(0) {
      return Fault;
    }
    if cell.value.Some? {
      assert ValueAt(cell.init, cell.log, |cell.log|).Some?;
      return Done(false);
    }
    cell.Write(Some(newValue));
    return Done(true);
  }

  /**
    A conflict does not mean that the value changed: it is also what comes of eight writes of the very
    bytes that are there, one during each try.
   */
  method RewritesConflict(cell: Cell, data: Bytes, newValue: Bytes) returns (end: UpdateEnd<bool>)
    requires cell.Valid() && cell.value == Some(data)
    modifies cell
    ensures cell.Valid() && end == Conflict
    ensures cell.log == old(cell.log) + Rewrites(Some(data), 8)
    ensures cell.value == Some(data) && Changes(cell.init, cell.log) == Changes(cell.init, old(cell.log))
  {
    var busy := World(_ => [Some(data)], _ => false);
    end := BadgerUpdate(cell, SwapBody(Some(data), newValue), false, busy);
    RewritesChangeNothing(cell.init, old(cell.log), Some(data), 8);
  }

  lemma IncrementAlwaysWrites(init: Value, before: seq<Entry>, after: seq<Entry>, result: int)
    requires Atomic(IncrementBody(), init, before, after, Done(result))
    ensures WroteLast(IncrementBody(), init, before, after, result)
  {
    assert forall v: Value :: IncrementBody()(v).write != None;
  }

  /** From an absent key or a text that is no number to 1, from the text of n to n+1, from the largest int64 to the least. */
  ghost predicate CountedOn(current: Value, result: int) {
    && (current == None ==> result == 1)
    && (forall n :: IsInt64(n) && current == Some(FormatInt(n)) ==> result == if n == TWO_63 - 1 then -TWO_63 else n + 1)
    && (current.Some? && ParseInt(current.value) == SyntaxError ==> result == 1)
  }

  lemma IncrementCountsOn(current: Value)
    ensures var txn := IncrementBody()(current); CountedOn(current, txn.result) && txn.write == Some(Some(FormatInt(txn.result)))
  {
    hide FormatInt, ParseInt;
    forall n | IsInt64(n) && current == Some(FormatInt(n)) ensures CurrentCount(current) == n { ParseFormat(n); }
  }

  /** A successful increment always writes: the number it returns, one more than the one it replaced. */
  method BadgerIncrement(cell: Cell, w: World) returns (end: UpdateEnd<int>)
    requires cell.Valid()
    modifies cell
    ensures cell.Valid()
    ensures old(cell.log) <= cell.log
    ensures match end
      case Done(result) =>
        && WroteLast(IncrementBody(), cell.init, old(cell.log), cell.log, result)
        && CountedOn(ValueAt(cell.init, cell.log, |cell.log| - 1), result) && cell.value == Some(FormatInt(result))
      case Conflict => AllForeign(cell.log, |old(cell.log)|, |cell.log|) && |cell.log| >= |old(cell.log)| + 8
      case Fault => AllForeign(cell.log, |old(cell.log)|, |cell.log|)
  {
    hide CountedOn, IncrementBody, FormatInt, RanAlone, Rewrites;
    end := BadgerUpdate(cell, IncrementBody(), 0, w);
    if end.Done? {
      IncrementAlwaysWrites(cell.init, old(cell.log), cell.log, end.result);
      IncrementCountsOn(ValueAt(cell.init, cell.log, |cell.log| - 1));
    }
  }

  // ---------- counters ----------

  /** Every write to the key so far was an increment. */
  ghost predicate OnlyIncrements(init: Value, log: seq<Entry>) {
    forall i :: 0 <= i < |log| ==> IncrementBody()(ValueAt(init, log, i)).write == Some(log[i].value)
  }

  /** An increment of the text of n returns n+1 and writes its text. */
  lemma IncrementOf(current: Value, n: nat)
    requires CurrentCount(current) == n < TWO_63 - 1
    ensures IncrementBody()(current) == Txn(n + 1, Some(Some(FormatInt(n + 1))))
    ensures CurrentCount(Some(FormatInt(n + 1))) == n + 1
  {
    hide FormatInt, ParseInt;
    ParseFormat(n + 1);
  }

  lemma {:induction false} CountsUp(log: seq<Entry>, n: nat)
    requires OnlyIncrements(None, log) && n <= |log| < TWO_63 - 1
    ensures CurrentCount(ValueAt(None, log, n)) == n
  {
    hide CurrentCount, IncrementBody, FormatInt;
    if n > 0 {
      CountsUp(log, n - 1);
      IncrementOf(ValueAt(None, log, n - 1), n - 1);
      assert IncrementBody()(ValueAt(None, log, n - 1)).write == Some(log[n - 1].value);
    } else {
      assert CurrentCount(None) == 0 by { NoCount(); }
    }
  }

  lemma NoCount()
    ensures CurrentCount(None) == 0
  {
  }

  /** Successful increments of an absent key return 1, 2, 3, ... in the order in which they commit. */
  lemma IncrementReturnsItsRank(before: seq<Entry>, after: seq<Entry>, result: int)
    requires WroteLast(IncrementBody(), None, before, after, result)
    requires OnlyIncrements(None, after) && |after| < TWO_63 - 1
    ensures result == |after|
  {
    hide CurrentCount, IncrementBody, FormatInt, OnlyIncrements;
    var last: nat := |after| - 1;
    CountsUp(after, last);
    IncrementOf(ValueAt(None, after, last), last);
  }
}
