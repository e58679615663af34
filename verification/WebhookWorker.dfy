/**
  One worker of the pool: claim a row, run the retry loop for it, write the mark, count;
  and the batch replay of dead letters.
 */
module WebhookWorker {
  import opened Outbox
  import opened Dispatcher
  import P = OutboxProtocol

  const CLAIM_LIMIT := 1
  const DEFAULT_REPLAY_LIMIT := 1000

  /** What processing a claimed row does to it. */
  function Processed(entry: Row, r: Row, end: LoopEnd, decodeError: string, loopError: string, now: Time): Row {
    if !entry.payloadDecodes then DeadMark(r, "invalid payload: " + decodeError, now)
    else if end.Returned? && end.outcome.success then CompletedMark(r, now)
    else FailedMark(r, loopError, now)
  }

  /** Which of the database calls of one claim fail; a failed call changes nothing. */
  datatype Faults = Faults(claim: bool, log: bool, mark: bool)

  /** The entry of the delivery log: its attempt counts the dispatch calls of this claim on top of the failed marks. */
  function LogOf(entry: Row, end: LoopEnd, calls: nat): DeliveryLog {
    DeliveryLog(entry.webhookId, entry.eventId, entry.message, end.Returned? && end.outcome.success, entry.attempt + calls)
  }

  function ReplayedRows(rows: Rows, ids: seq<Id>, now: Time): Rows {
    map id | id in rows :: if id in ids then Replayed(rows[id], now) else rows[id]
  }

  lemma ReplayedNext(rows: Rows, ids: seq<Id>, i: nat, now: Time)
    requires i < |ids| && ids[i] in rows && ids[i] !in ids[..i]
    ensures var before := ReplayedRows(rows, ids[..i], now);
      && ids[i] in before && before[ids[i]] == rows[ids[i]]
      && ReplayedRows(rows, ids[..i + 1], now) == Put(before, ids[i], r => Replayed(r, now))
  {
    assert ids[..i + 1] == ids[..i] + [ids[i]];
  }

  lemma ReplayedEnds(rows: Rows, ids: seq<Id>, now: Time)
    ensures ReplayedRows(rows, ids[..0], now) == rows && ids[..|ids|] == ids
  {
  }

  /** What is listed for a replay is dead, and listed once. */
  lemma DeadToReplay(rows: Rows, ids: seq<Id>)
    requires exists limit :: OldestFirst(rows, DeadIds(rows), limit, ids)
    ensures forall i :: 0 <= i < |ids| ==> ids[i] in rows && rows[ids[i]].status == Dead && ids[i] !in ids[..i]
  {
  }

  /**
    Without cancellation the loop's decision after each call is the machine's: it stops at the
    first call after which the machine's worker does not wait, with that call's result.
   */
  lemma LoopFollowsMachine(w: World, entry: Row, j: nat)
    requires forall i: nat :: !w.doneBefore(i) && !w.errAfter(i) && !w.doneWaiting(i)
    requires StillTrying(w, P.RetriesOf(entry), j) && 0 < BackoffBase(j)
    ensures w.LastCall(j, P.RetriesOf(entry)) <==> !P.WaitsAfter(entry, j, w.outcome(j))
    ensures w.LastCall(j, P.RetriesOf(entry)) ==> EndAfter(w, P.RetriesOf(entry), j + 1) == Returned(w.outcome(j))
    ensures forall i: nat :: i < j ==> P.WaitsAfter(entry, i, w.outcome(i))
  {
    forall i: nat | i < j ensures P.WaitsAfter(entry, i, w.outcome(i)) {
      assert !w.LastCall(i, P.RetriesOf(entry));
    }
  }

  /** The machine's worker at its mark: after its last call, and after reading the row if that call failed. */
  function AtMark(w: World, id: Id, entry: Row, r: Row, calls: nat, now: Time): P.Job
    requires calls > 0
  {
    var sending := P.Job(id, entry, now, P.Sending(calls - 1, now), calls);
    var last := P.NextPhase(sending, w.outcome(calls - 1), 0, now);
    sending.(phase := if last == P.Finished(false, now) then P.Failing(r, now) else last)
  }

  /**
    The mark the worker writes is the machine's: at once for a payload that does not decode, else, without
    cancellation, after the call with which the machine's worker is finished. A loop that panics has no
    mark; it ends at the 35th call, after which the machine's worker can only crash.
   */
  lemma MarkFollowsMachine(w: World, id: Id, entry: Row, r: Row, end: LoopEnd, calls: nat, decodeError: string, loopError: string, now: Time)
    requires forall i: nat :: !w.doneBefore(i) && !w.errAfter(i) && !w.doneWaiting(i)
    requires entry.payloadDecodes ==> IsLoop(w, P.RetriesOf(entry), end, calls)
    ensures var mark := Processed(entry, r, end, decodeError, loopError, now);
      if !entry.payloadDecodes then
        mark == P.Marked(P.Opening(entry, id, now), r, "invalid payload: " + decodeError, now)
      else if end.Panicked? then
        calls == 35 && P.WaitsAfter(entry, 34, w.outcome(34)) && forall o, wait :: !LegalWait(34, o, wait)
      else
        calls > 0 && P.ReadyToMark(AtMark(w, id, entry, r, calls, now))
        && mark == P.Marked(AtMark(w, id, entry, r, calls, now), r, loopError, now)
  {
    if entry.payloadDecodes {
      assert w.LastCall(calls - 1, P.RetriesOf(entry));
      AtMost35Calls(w, P.RetriesOf(entry), end, calls);
      BackoffBaseSeconds(34);
    }
  }

  class WebhookWorker {
    const repo: WebhookRepository
    var successCount: nat
    var failureCount: nat
    var processedCount: nat

    constructor (repo: WebhookRepository)
      ensures this.repo == repo && Balanced()
    {
      this.repo := repo;
      successCount, failureCount, processedCount := 0, 0, 0;
    }

    /** Between entries, every processed entry has been counted as a success or a failure. */
    predicate Balanced()
      reads this
    {
      processedCount == successCount + failureCount
    }

    /**
      Runs one claimed entry to its mark; `now` is the clock when the loop is over, `calls` the number of
      dispatch calls. A mark or log entry that cannot be written changes nothing else. A panic in the
      loop ends the process before any mark.
     */
    method ProcessEntry(id: Id, entry: Row, w: World, decodeError: string, loopError: string, now: Time, faults: Faults)
        returns (end: LoopEnd, calls: nat)
      modifies this, repo`rows, repo`deliveryLogs
      ensures processedCount == old(processedCount) + 1
      ensures entry.payloadDecodes ==> IsLoop(w, P.RetriesOf(entry), end, calls)
      ensures !entry.payloadDecodes ==> calls == 0 && end == ContextDone
      ensures repo.deliveryLogs == old(repo.deliveryLogs)
        + if entry.payloadDecodes && !end.Panicked? && !faults.log then [LogOf(entry, end, calls)] else []
      ensures end.Panicked? ==>
        repo.rows == old(repo.rows) && successCount == old(successCount) && failureCount == old(failureCount)
      ensures !end.Panicked? ==>
        && repo.rows == (if faults.mark then old(repo.rows)
                         else Put(old(repo.rows), id, r => Processed(entry, r, end, decodeError, loopError, now)))
        && (old(Balanced()) ==> Balanced())
        && successCount == old(successCount) + if end.Returned? && end.outcome.success then 1 else 0
      ensures entry.payloadDecodes && calls > 0 ==> RetriedBefore(w, calls - 1)
      ensures calls <= 1 || calls <= entry.maxAttempts - entry.attempt + 1
      ensures !faults.mark && id in old(repo.rows) && !end.Panicked? ==>
        id in repo.rows && OnlyRow(old(repo.rows), repo.rows, id) &&
        var r, r' := old(repo.rows)[id], repo.rows[id];
        && (!entry.payloadDecodes ==> r'.status == Dead && r'.attempt == r.attempt)
        && (entry.payloadDecodes && end.Returned? && end.outcome.success ==> r'.status == Completed && r'.attempt == r.attempt)
        && (entry.payloadDecodes && !(end.Returned? && end.outcome.success) ==>
              r'.attempt == r.attempt + 1 && r'.status == if r.attempt + 1 >= r.maxAttempts then Dead else Pending)
      ensures entry.payloadDecodes && calls > 0 && w.outcome(calls - 1).success ==> end == Returned(w.outcome(calls - 1))
      ensures entry.payloadDecodes && !end.Panicked? && !faults.log ==>
        var log := repo.deliveryLogs[|repo.deliveryLogs| - 1];
        && |repo.deliveryLogs| == |old(repo.deliveryLogs)| + 1 && log.attempt == entry.attempt + calls
        && log.success == (end.Returned? && end.outcome.success) && log.webhookId == entry.webhookId && log.eventId == entry.eventId
    {
      hide IsLoop, RetriedBefore, LoopTime, RetryBackoff, BackoffBase;
      processedCount := processedCount + 1;
      if !entry.payloadDecodes {
        end, calls := ContextDone, 0;
        if !faults.mark {
          repo.MarkOutboxDead(id, "invalid payload: " + decodeError, now);
        }
        failureCount := failureCount + 1;
        return;
      }
      var result, attempts, _, _ := DispatchWithRetry(w, entry.maxAttempts - entry.attempt);
      end, calls := result, attempts;
      if end.Panicked? {
        return;
      }
      if !faults.log {
        repo.CreateDeliveryLog(LogOf(entry, end, calls));
      }
      if end.Returned? && end.outcome.success {
        if !faults.mark {
          repo.MarkOutboxCompleted(id, now);
        }
        successCount := successCount + 1;
        return;
      }
      if !faults.mark {
        var _ := repo.MarkOutboxFailed(id, loopError, now);
      }
      failureCount := failureCount + 1;
    }

    /** Claims one oldest eligible entry, if there is one and the claim's transaction commits, and processes it. */
    method ClaimAndProcess(now: Time, w: World, decodeError: string, loopError: string, later: Time, faults: Faults)
        returns (found: bool, id: Id, end: LoopEnd)
      modifies this, repo`rows, repo`deliveryLogs
      ensures found <==> !faults.claim && EligibleIds(old(repo.rows), now) != {}
      ensures !found ==> repo.rows == old(repo.rows) && processedCount == old(processedCount)
      ensures found ==> IsClaim(old(repo.rows), now, 1, [id]) && id in old(repo.rows)
      ensures found ==>
        var entry, claimed := old(repo.rows)[id], Claimed(old(repo.rows), [id], now);
        && (entry.payloadDecodes ==> exists calls :: IsLoop(w, P.RetriesOf(entry), end, calls))
        && repo.rows == if end.Panicked? || faults.mark then claimed
                        else Put(claimed, id, r => Processed(entry, r, end, decodeError, loopError, later))
      ensures found && !faults.mark && !end.Panicked? ==>
        id in repo.rows && OnlyRow(old(repo.rows), repo.rows, id) &&
        var entry, r := old(repo.rows)[id], repo.rows[id];
        && (!entry.payloadDecodes ==> r.status == Dead)
        && (entry.payloadDecodes && end.Returned? && end.outcome.success ==> r.status == Completed)
        && (entry.payloadDecodes && !(end.Returned? && end.outcome.success) ==>
              r.attempt == entry.attempt + 1 && r.status == if r.attempt >= entry.maxAttempts then Dead else Pending)
      ensures found && (faults.mark || end.Panicked?) ==>
        id in repo.rows && OnlyRow(old(repo.rows), repo.rows, id) && repo.rows[id].status == Processing && repo.rows[id].updatedAt == now
    {
      if faults.claim {
        return false, "", ContextDone;
      }
      var ids, entries := repo.ClaimPendingOutbox(CLAIM_LIMIT, now);
      if |ids| == 0 {
        assert Claimed(old(repo.rows), ids, now) == old(repo.rows);
        return false, "", ContextDone;
      }
      found, id := true, ids[0];
      assert ids == [id];
      var calls;
      end, calls := ProcessEntry(id, entries[0], w, decodeError, loopError, later, faults);
    }

    /** Replays the oldest dead letters, at most `limit` of them, 1000 when no limit is given. */
    method ReplayDeadBatch(limit: int, now: Time) returns (replayed: nat, ids: seq<Id>)
      modifies repo`rows
      ensures OldestFirst(old(repo.rows), DeadIds(old(repo.rows)), if limit <= 0 then 1000 else limit, ids)
      ensures replayed == |ids|
      ensures repo.rows == ReplayedRows(old(repo.rows), ids, now)
      ensures repo.rows.Keys == old(repo.rows).Keys && forall id :: id in repo.rows ==>
        var r := old(repo.rows)[id];
        repo.rows[id] == if id in ids then r.(status := Pending, attempt := 0, nextAttemptAt := now, lastError := "", updatedAt := now) else r
      ensures forall id :: id in ids ==> id in old(repo.rows) && old(repo.rows)[id].status == Dead
    {
      var bound: nat := if limit <= 0 then DEFAULT_REPLAY_LIMIT else limit;
      ids := repo.ListDeadOutbox(bound, 0);
      DeadToReplay(repo.rows, ids);
      ReplayedEnds(repo.rows, ids, now);
      hide OldestFirst, DeadIds;
      replayed := 0;
      for i := 0 to |ids|
        invariant replayed == i
        invariant repo.rows == ReplayedRows(old(repo.rows), ids[..i], now)
      {
        hide ReplayedRows, Put;
        ReplayedNext(old(repo.rows), ids, i, now);
        var ok := repo.ReplayDeadOutbox(ids[i], now);
        if ok {
          replayed := replayed + 1;
        }
      }
    }
  }
}
