/**
  The webhook dispatcher: the classification of an outcome, the backoff between
  two calls, the retry loop and the longest time the loop can take.
  All durations are in nanoseconds, as in Go's `time.Duration`.
 */
module Dispatcher {
  import opened GoInt

  const MAX_BACKOFF: nat := 30 * SECOND

  datatype ErrorCode = NoError | Cancelled | OtherError

  /** What one HTTP call came to. `retryAfter` is the parsed Retry-After header, 0 when absent or unusable. */
  datatype Outcome = Outcome(success: bool, statusCode: int, errorCode: ErrorCode, retryAfter: nat) {
    predicate WellFormed() {
      success ==> 200 <= statusCode < 300
    }
  }

  predicate IsRetryable(o: Outcome) {
    if o.success then false
    else if o.statusCode == 429 then true
    else if 400 <= o.statusCode < 500 then false
    else true
  }

  /** The bound the jitter is drawn below; `rand.Int63n` panics unless it is positive. */
  function BackoffBase(attempt: nat): (base: int)
    ensures base <= MAX_BACKOFF
  {
    var shifted := if attempt < 64 then Wrap64(Pow2(attempt)) else 0;
    var base := Wrap64(shifted * SECOND);
    if base > MAX_BACKOFF then MAX_BACKOFF else base
  }

  lemma BackoffOverflows()
    ensures BackoffBase(34) < 0
  {
    Pow2Values();
    var product := 0x4_0000_0000 * SECOND;
    assert TWO_63 <= product < TWO_64;
    assert (product + TWO_63) % TWO_64 == product - TWO_63;
  }

  lemma BackoffExact(attempt: nat)
    requires attempt <= 33
    ensures var exact := Pow2(attempt) * SECOND; BackoffBase(attempt) == if exact > MAX_BACKOFF then MAX_BACKOFF else exact
  {
    hide Wrap64, Pow2;
    Pow2Values();
    Pow2Monotone(attempt, 33);
  }

  /** Up to the 34th retry the base is 1 s, 2 s, 4 s, 8 s, 16 s and then the cap; the 35th overflows and panics. */
  lemma BackoffBaseSeconds(attempt: nat)
    ensures attempt <= 4 ==> BackoffBase(attempt) == Pow2(attempt) * SECOND
    ensures 5 <= attempt <= 33 ==> BackoffBase(attempt) == 30 * SECOND
    ensures attempt == 34 ==> BackoffBase(attempt) < 0
  {
    hide BackoffBase;
    BackoffOverflows();
    if attempt <= 33 {
      BackoffExact(attempt);
      if attempt <= 4 {
        Pow2Monotone(attempt, 4);
        assert Pow2(4) == 16;
      } else {
        Pow2Values();
        Pow2Monotone(5, attempt);
      }
    }
  }

  /** `d` is a wait the loop may make after failed call number `attempt`. */
  predicate LegalWait(attempt: nat, o: Outcome, d: int) {
    && 0 < BackoffBase(attempt)
    && if o.statusCode == 429 && o.retryAfter > 0 then d == o.retryAfter
       else 0 <= d < BackoffBase(attempt)
  }

  /** In seconds, for every call the loop can wait after: a 429 that asks for a wait gets it, any other failure a random one. */
  lemma LegalWaitSeconds(attempt: nat, o: Outcome, d: int)
    requires attempt <= 33
    ensures o.statusCode == 429 && o.retryAfter > 0 ==> (LegalWait(attempt, o, d) <==> d == o.retryAfter)
    ensures o.statusCode != 429 || o.retryAfter == 0 ==>
      (LegalWait(attempt, o, d) <==> 0 <= d < (if attempt <= 4 then Pow2(attempt) else 30) * SECOND)
  {
    BackoffBaseSeconds(attempt);
  }

  function Retries(maxRetries: int): nat {
    if maxRetries < 0 then 0 else maxRetries
  }

  /** The longest wait after failed call `attempt` when no endpoint asks for more than `retryAfterMax`. */
  function LongestWait(attempt: nat, retryAfterMax: nat): (d: nat)
    ensures d >= retryAfterMax
  {
    var jittered := (if attempt <= 4 then Pow2(attempt) * SECOND else MAX_BACKOFF) - 1;
    if jittered >= retryAfterMax then jittered else retryAfterMax
  }

  lemma LegalWaitBounded(attempt: nat, o: Outcome, d: int, retryAfterMax: nat)
    requires LegalWait(attempt, o, d)
    requires o.retryAfter <= retryAfterMax
    ensures 0 <= d <= LongestWait(attempt, retryAfterMax)
  {
    BackoffBaseSeconds(attempt);
  }

  /** Time used by `k` calls and the `k` waits after them, all as long as they can be. */
  function Spent(k: nat, callBound: nat, retryAfterMax: nat): (t: nat) {
    if k == 0 then 0
    else Spent(k - 1, callBound, retryAfterMax) + callBound + LongestWait(k - 1, retryAfterMax)
  }

  /** The longest a loop with `retries` retries can take. */
  function WorstCase(retries: nat, callBound: nat, retryAfterMax: nat): nat {
    Spent(retries, callBound, retryAfterMax) + callBound
  }

  lemma {:induction false} SpentMonotone(j: nat, k: nat, callBound: nat, retryAfterMax: nat)
    requires j <= k
    ensures Spent(j, callBound, retryAfterMax) <= Spent(k, callBound, retryAfterMax)
  {
    if j < k {
      SpentMonotone(j, k - 1, callBound, retryAfterMax);
    }
  }

  /** With no Retry-After, a loop of n retries is shorter than (n+1) calls and n waits of 30 s. */
  lemma {:induction false} SpentWithoutRetryAfter(k: nat, callBound: nat)
    ensures Spent(k, callBound, 0) <= k * (callBound + MAX_BACKOFF)
  {
    if k > 0 {
      SpentWithoutRetryAfter(k - 1, callBound);
      if k - 1 <= 4 { Pow2Monotone(k - 1, 4); assert Pow2(4) == 16; }
      assert LongestWait(k - 1, 0) <= MAX_BACKOFF;
      assert k * (callBound + MAX_BACKOFF) == (k - 1) * (callBound + MAX_BACKOFF) + (callBound + MAX_BACKOFF);
    }
  }

  lemma {:induction false} WaitsAddUp(k: nat, callBound: nat, retryAfterMax: nat)
    requires k >= 5
    ensures Spent(k, callBound, retryAfterMax) >= 31 * SECOND - 5 + (k - 5) * (MAX_BACKOFF - 1)
  {
    if k == 5 {
      assert Pow2(0) == 1 && Pow2(1) == 2 && Pow2(2) == 4 && Pow2(3) == 8 && Pow2(4) == 16;
      assert Spent(2, callBound, retryAfterMax) >= 3 * SECOND - 2;
      assert Spent(4, callBound, retryAfterMax) >= 15 * SECOND - 4;
    } else {
      WaitsAddUp(k - 1, callBound, retryAfterMax);
    }
  }

  /** Fourteen waits alone outlast five minutes, so no loop inside the lease gets near an overflowing exponent. */
  lemma FourteenWaits(k: nat, callBound: nat, retryAfterMax: nat)
    requires k >= 14
    ensures Spent(k, callBound, retryAfterMax) > 300 * SECOND
  {
    SpentMonotone(14, k, callBound, retryAfterMax);
    WaitsAddUp(14, callBound, retryAfterMax);
  }

  // ---------- the retry loop ----------

  /** What surrounds one run of the loop, call by call: the endpoint, the random source and the context. */
  datatype World = World(
    outcome: nat -> Outcome,     // result of call j (0-based)
    callTime: nat -> nat,        // how long call j took
    jitter: nat -> int,          // the value drawn for the wait after call j
    doneBefore: nat -> bool,     // the context is done when call j is about to start
    errAfter: nat -> bool,       // the context is done right after call j
    doneWaiting: nat -> bool     // the context ends the wait after call j
  ) {
    /** The jitter is what `Int63n` may return. */
    ghost predicate Possible() {
      && (forall j: nat :: outcome(j).WellFormed())
      && (forall j: nat :: 0 < BackoffBase(j) ==> 0 <= jitter(j) < BackoffBase(j))
    }

    function Wait(j: nat): int {
      var o := outcome(j);
      if o.statusCode == 429 && o.retryAfter > 0 then o.retryAfter else jitter(j)
    }

    /** Call j is the last one: it settles the matter, or nothing can follow it. */
    predicate LastCall(j: nat, retries: nat) {
      var o := outcome(j);
      || o.success
      || (o.errorCode == Cancelled && errAfter(j))
      || !IsRetryable(o)
      || j == retries
      || BackoffBase(j) <= 0
      || doneWaiting(j)
      || doneBefore(j + 1)
    }
  }

  datatype LoopEnd =
    | Returned(outcome: Outcome)     // the result of the last call
    | ContextDone                    // a synthetic "context cancelled" result
    | Panicked                       // `Int63n` called with a non-positive bound

  /** Before call j nothing has settled the matter yet. */
  ghost predicate StillTrying(w: World, retries: nat, j: nat) {
    && j <= retries
    && !w.doneBefore(0)
    && forall i: nat :: i < j ==> !w.LastCall(i, retries)
  }

  /** How the loop ends when `calls` calls were made. */
  function EndAfter(w: World, retries: nat, calls: nat): LoopEnd {
    if calls == 0 then ContextDone
    else
      var j: nat := calls - 1;
      var o := w.outcome(j);
      if o.success || (o.errorCode == Cancelled && w.errAfter(j)) || !IsRetryable(o) || j == retries then Returned(o)
      else if BackoffBase(j) <= 0 then Panicked
      else ContextDone
  }

  /** The loop made exactly `calls` calls - the last one is the first that settles the matter - and ended so. */
  ghost predicate IsLoop(w: World, retries: nat, end: LoopEnd, calls: nat) {
    && calls <= retries + 1
    && (calls == 0 <==> w.doneBefore(0))
    && (calls > 0 ==> StillTrying(w, retries, calls - 1) && w.LastCall(calls - 1, retries))
    && end == EndAfter(w, retries, calls)
  }

  /** The world and the retry count determine the number of calls and the end. */
  lemma LoopDetermined(w: World, retries: nat, end1: LoopEnd, calls1: nat, end2: LoopEnd, calls2: nat)
    requires IsLoop(w, retries, end1, calls1) && IsLoop(w, retries, end2, calls2)
    ensures calls1 == calls2 && end1 == end2
  {
    if calls1 > 0 && calls2 > 0 {
      assert w.LastCall(calls1 - 1, retries) && w.LastCall(calls2 - 1, retries);
    }
  }

  /** Whatever the retry count, no loop makes a 36th call, and one that panics does so after the 35th. */
  lemma AtMost35Calls(w: World, retries: nat, end: LoopEnd, calls: nat)
    requires IsLoop(w, retries, end, calls)
    ensures calls <= 35
    ensures end == Panicked ==> calls == 35 <= retries
  {
    BackoffBaseSeconds(34);
    assert w.LastCall(34, retries);
    if calls > 0 {
      BackoffBaseSeconds(calls - 1);
    }
  }

  /** Every call is answered 503 at once, nothing is cancelled, and the jitter is always 0. */
  ghost function Unavailable(): World {
    World(_ => Outcome(false, 503, NoError, 0), _ => 0, _ => 0, _ => false, _ => false, _ => false)
  }

  /** The loop can panic exactly when it may retry 35 times or more. */
  lemma PanicsIff(maxRetries: int)
    ensures (exists w: World, calls: nat :: w.Possible() && IsLoop(w, Retries(maxRetries), Panicked, calls)) <==> maxRetries >= 35
  {
    if w: World, calls: nat :| w.Possible() && IsLoop(w, Retries(maxRetries), Panicked, calls) {
      AtMost35Calls(w, Retries(maxRetries), Panicked, calls);
    }
    if maxRetries >= 35 {
      var w := Unavailable();
      forall j: nat | j <= 33 ensures !w.LastCall(j, maxRetries) { BackoffBaseSeconds(j); }
      BackoffBaseSeconds(34);
      assert w.Possible() && IsLoop(w, Retries(maxRetries), Panicked, 35);
    }
  }

  /** Time used by the first `k` calls and the waits after them. */
  function TimeUsed(w: World, k: nat): int {
    if k == 0 then 0 else TimeUsed(w, k - 1) + w.callTime(k - 1) + w.Wait(k - 1)
  }

  lemma {:induction false} TimeUsedBounded(w: World, retries: nat, k: nat, callBound: nat, retryAfterMax: nat)
    requires w.Possible() && StillTrying(w, retries, k)
    requires forall j: nat :: w.callTime(j) <= callBound && w.outcome(j).retryAfter <= retryAfterMax
    ensures TimeUsed(w, k) <= Spent(k, callBound, retryAfterMax)
  {
    if k > 0 {
      TimeUsedBounded(w, retries, k - 1, callBound, retryAfterMax);
      assert !w.LastCall(k - 1, retries);
      LegalWaitBounded(k - 1, w.outcome(k - 1), w.Wait(k - 1), retryAfterMax);
    }
  }

  /** The loop only makes waits it may make. */
  lemma WaitIsLegal(w: World, j: nat)
    requires w.Possible() && 0 < BackoffBase(j)
    ensures LegalWait(j, w.outcome(j), w.Wait(j))
  {
  }

  /** Every call but the last failed with a 429, a code outside 400..499 or no answer, and nothing was cancelled after it. */
  ghost predicate RetriedBefore(w: World, last: nat) {
    forall i: nat :: i < last ==> RetriedAfter(w, i)
  }

  predicate RetriedAfter(w: World, i: nat) {
    var o := w.outcome(i);
    && !o.success && (o.statusCode == 429 || o.statusCode < 400 || o.statusCode >= 500)
    && !(o.errorCode == Cancelled && w.errAfter(i)) && !w.doneWaiting(i) && !w.doneBefore(i + 1)
  }

  /** The loop in status codes, and what each of its ends says about the last call. */
  lemma LoopInStatusCodes(w: World, maxRetries: int, end: LoopEnd, calls: nat)
    requires IsLoop(w, Retries(maxRetries), end, calls)
    ensures calls <= 1 || calls <= maxRetries + 1
    ensures calls == 0 <==> w.doneBefore(0)
    ensures calls > 0 ==> RetriedBefore(w, calls - 1)
    ensures end.Returned? ==> calls > 0 && end.outcome == w.outcome(calls - 1)
    ensures end.Returned? ==>
      var o := end.outcome;
      || o.success || (400 <= o.statusCode < 500 && o.statusCode != 429)
      || (o.errorCode == Cancelled && w.errAfter(calls - 1)) || calls - 1 >= maxRetries
    ensures end.ContextDone? ==> calls == 0 || w.doneWaiting(calls - 1) || w.doneBefore(calls)
    ensures end.Panicked? ==> calls == 35 <= maxRetries
    ensures calls > 0 && (w.outcome(calls - 1).success || calls - 1 >= maxRetries) ==> end.Returned?
    ensures calls > 0 && 400 <= w.outcome(calls - 1).statusCode < 500 && w.outcome(calls - 1).statusCode != 429 ==> end.Returned?
  {
    if calls > 0 {
      forall i: nat | i < calls - 1 ensures RetriedAfter(w, i) { assert !w.LastCall(i, Retries(maxRetries)); }
    }
    AtMost35Calls(w, Retries(maxRetries), end, calls);
    if end.Panicked? { assert w.LastCall(calls - 1, Retries(maxRetries)); }
  }

  /** After a failure that is neither a client error nor cancelled, with retries left, another call follows. */
  lemma AnotherCallFollows(w: World, maxRetries: int, end: LoopEnd, calls: nat, i: nat)
    requires IsLoop(w, Retries(maxRetries), end, calls) && i < calls
    requires var o := w.outcome(i); !o.success && (o.statusCode == 429 || o.statusCode < 400 || o.statusCode >= 500)
    requires i < maxRetries && i < 34
    requires !w.errAfter(i) && !w.doneWaiting(i) && !w.doneBefore(i + 1)
    ensures i + 1 < calls
  {
    BackoffBaseSeconds(i);
  }

  /** However the loop ends after a last call, the time it used is within the worst case. */
  lemma ElapsedBounded(w: World, maxRetries: int, attempts: nat, elapsed: int, callBound: nat, retryAfterMax: nat)
    requires w.Possible() && exists end :: IsLoop(w, Retries(maxRetries), end, attempts)
    requires forall j: nat :: w.callTime(j) <= callBound && w.outcome(j).retryAfter <= retryAfterMax
    requires elapsed == LoopTime(w, Retries(maxRetries), attempts)
    ensures elapsed <= WorstCase(Retries(maxRetries), callBound, retryAfterMax)
  {
    if attempts > 0 {
      var j: nat, n := attempts - 1, Retries(maxRetries);
      TimeUsedBounded(w, n, j, callBound, retryAfterMax);
      SpentMonotone(j, n, callBound, retryAfterMax);
      if EndAfter(w, n, attempts) == ContextDone {
        SpentMonotone(j + 1, n, callBound, retryAfterMax);
        LegalWaitBounded(j, w.outcome(j), w.Wait(j), retryAfterMax);
      }
    }
  }

  /** The time a loop of `attempts` calls took; a wait the context cuts short counts in full. */
  function LoopTime(w: World, retries: nat, attempts: nat): int {
    if attempts == 0 then 0
    else
      var j: nat := attempts - 1;
      TimeUsed(w, j) + w.callTime(j) + if EndAfter(w, retries, attempts) == ContextDone then w.Wait(j) else 0
  }

  /**
    The retry loop. It makes exactly as many calls as it takes to reach the first one that
    settles the matter; the callback sees 1, 2, ... in order. A negative retry count is none.
   */
  method DispatchWithRetry(w: World, maxRetries: int)
      returns (end: LoopEnd, attempts: nat, seen: seq<nat>, elapsed: int)
    ensures IsLoop(w, Retries(maxRetries), end, attempts)
    ensures attempts <= 1 || attempts <= maxRetries + 1
    ensures attempts > 0 ==> RetriedBefore(w, attempts - 1)
    ensures match end
      case Returned(o) =>
        && attempts > 0 && o == w.outcome(attempts - 1)
        && (|| o.success || (400 <= o.statusCode < 500 && o.statusCode != 429)
            || (o.errorCode == Cancelled && w.errAfter(attempts - 1)) || attempts - 1 >= maxRetries)
      case ContextDone => if attempts == 0 then w.doneBefore(0) else w.doneWaiting(attempts - 1) || w.doneBefore(attempts)
      case Panicked => attempts == 35 <= maxRetries
    ensures attempts > 0 && (w.outcome(attempts - 1).success || attempts - 1 >= maxRetries) ==> end.Returned?
    ensures |seen| == attempts && forall i :: 0 <= i < attempts ==> seen[i] == i + 1
    ensures elapsed == LoopTime(w, Retries(maxRetries), attempts)
  {
    hide IsLoop, LoopTime, RetriedBefore;
    end, attempts, seen, elapsed := RetryLoop(w, if maxRetries < 0 then 0 else maxRetries);
    LoopInStatusCodes(w, maxRetries, end, attempts);
  }

  method RetryLoop(w: World, retries: nat)
      returns (end: LoopEnd, attempts: nat, seen: seq<nat>, elapsed: int)
    ensures IsLoop(w, retries, end, attempts)
    ensures |seen| == attempts && forall i :: 0 <= i < attempts ==> seen[i] == i + 1
    ensures elapsed == LoopTime(w, retries, attempts)
  {
    attempts, seen, elapsed := 0, [], 0;
    var last := w.outcome(0);
    var attempt: nat := 0;
    while attempt <= retries
      invariant attempt <= retries + 1
      invariant attempts == attempt
      invariant attempt > 0 ==> StillTrying(w, retries, attempt - 1) && last == w.outcome(attempt - 1)
      invariant 0 < attempt <= retries ==> w.doneBefore(attempt) || StillTrying(w, retries, attempt)
      invariant 0 < attempt && (attempt > retries || w.doneBefore(attempt)) ==> w.LastCall(attempt - 1, retries)
      invariant 0 < attempt ==> EndAfter(w, retries, attempt) == if attempt > retries then Returned(last) else ContextDone
      invariant |seen| == attempt && forall i :: 0 <= i < attempt ==> seen[i] == i + 1
      invariant elapsed == if attempt > retries then LoopTime(w, retries, attempt) else TimeUsed(w, attempt)
      decreases retries + 1 - attempt
    {
      if w.doneBefore(attempt) {
        end := ContextDone;
        return;
      }
      last := w.outcome(attempt);
      elapsed := elapsed + w.callTime(attempt);
      attempts := attempts + 1;
      seen := seen + [attempt + 1];
      if last.success || (last.errorCode == Cancelled && w.errAfter(attempt)) || !IsRetryable(last) {
        end := Returned(last);
        return;
      }
      if attempt < retries {
        if BackoffBase(attempt) <= 0 {
          end := Panicked;
          return;
        }
        elapsed := elapsed + w.Wait(attempt);
        if w.doneWaiting(attempt) {
          end := ContextDone;
          return;
        }
      }
      attempt := attempt + 1;
    }
    end := Returned(last);
  }
}
