/**
  The webhook outbox table: what each repository operation does to the rows, as functions
  on the table's contents, and the repository object that performs them in place.
  Times are nanoseconds on one clock; a database statement takes no time.
 */
module Outbox {
  import opened Wrappers
  import opened GoInt

  type Id = string
  type Time = int

  const LEASE: int := 300 * SECOND

  datatype Status = Pending | Processing | Completed | Failed | Dead

  /** The columns copied from the event and the webhook when an entry is written. */
  datatype Message = Message(eventType: string, tenantId: string, url: string, secret: string, payload: string)

  datatype Row = Row(
    eventId: string,
    webhookId: string,
    message: Message,
    payloadDecodes: bool,       // the stored payload unmarshals into an event
    status: Status,
    attempt: nat,
    maxAttempts: int,
    timeoutSeconds: int,
    nextAttemptAt: Time,
    lastError: string,
    createdAt: Time,
    updatedAt: Time)

  type Rows = map<Id, Row>

  datatype DeliveryLog = DeliveryLog(webhookId: string, eventId: string, message: Message, success: bool, attempt: nat)

  datatype WebhookConfig = WebhookConfig(
    id: string,
    events: Option<seq<string>>,    // None when the stored list is not a JSON string array
    active: bool,
    url: string,
    secret: string,
    retryCount: int,
    timeoutSeconds: int)

  // ---------- publishing ----------

  ghost predicate Subscribed(events: Option<seq<string>>, eventType: string) {
    events.Some? && (eventType in events.value || "*" in events.value)
  }

  method EventMatches(events: Option<seq<string>>, eventType: string) returns (matches: bool)
    ensures matches <==> events.Some? && (eventType in events.value || "*" in events.value)
  {
    if events.None? {
      return false;
    }
    for i := 0 to |events.value|
      invariant forall j :: 0 <= j < i ==> events.value[j] != eventType && events.value[j] != "*"
    {
      if events.value[i] == eventType || events.value[i] == "*" {
        return true;
      }
    }
    return false;
  }

  /** The active webhooks subscribed to an event, in the order in which they are stored. */
  ghost function Selected(configs: seq<WebhookConfig>, eventType: string): seq<WebhookConfig> {
    if configs == [] then []
    else
      var n := |configs| - 1;
      Selected(configs[..n], eventType)
        + if configs[n].active && Subscribed(configs[n].events, eventType) then [configs[n]] else []
  }

  lemma {:induction false} SelectedMembers(configs: seq<WebhookConfig>, eventType: string)
    ensures |Selected(configs, eventType)| <= |configs|
    ensures forall c :: c in Selected(configs, eventType) <==> c in configs && c.active && Subscribed(c.events, eventType)
    ensures forall c :: c in Selected(configs, eventType) ==> multiset(Selected(configs, eventType))[c] == multiset(configs)[c]
  {
    hide Subscribed;
    if configs != [] {
      var n := |configs| - 1;
      assert configs == configs[..n] + [configs[n]];
      SelectedMembers(configs[..n], eventType);
    }
  }

  lemma SelectedNext(configs: seq<WebhookConfig>, i: nat, eventType: string)
    requires i < |configs|
    ensures var c := configs[i];
      Selected(configs[..i + 1], eventType) ==
        Selected(configs[..i], eventType) + if c.active && Subscribed(c.events, eventType) then [c] else []
  {
    assert configs[..i + 1][..i] == configs[..i];
  }

  /** A row for this event and webhook is already there. */
  predicate Conflicts(rows: Rows, r: Row) {
    exists id :: id in rows && rows[id].eventId == r.eventId && rows[id].webhookId == r.webhookId
  }

  /** INSERT ... ON CONFLICT (event_id, webhook_id) DO NOTHING, entry by entry. */
  function InsertAll(rows: Rows, entries: seq<(Id, Row)>): (res: Rows)
    decreases |entries|
  {
    if entries == [] then rows
    else if Conflicts(rows, entries[0].1) then InsertAll(rows, entries[1..])
    else InsertAll(rows[entries[0].0 := entries[0].1], entries[1..])
  }

  ghost predicate FreshIds(rows: Rows, entries: seq<(Id, Row)>) {
    && (forall i :: 0 <= i < |entries| ==> entries[i].0 !in rows)
    && (forall i, j :: 0 <= i < j < |entries| ==> entries[i].0 != entries[j].0)
  }

  /** (event, webhook) names at most one row. */
  ghost predicate UniquePairs(rows: Rows) {
    forall a, b :: a in rows && b in rows && rows[a].eventId == rows[b].eventId && rows[a].webhookId == rows[b].webhookId
      ==> a == b
  }

  /** One entry inserted, unless its (event, webhook) is taken. */
  function InsertOne(rows: Rows, id: Id, r: Row): Rows {
    if Conflicts(rows, r) then rows else rows[id := r]
  }

  lemma InsertOneKeeps(rows: Rows, id: Id, r: Row)
    requires id !in rows
    ensures var res := InsertOne(rows, id, r);
      && (forall x :: x in rows ==> x in res && res[x] == rows[x])
      && (forall x :: x in res && x !in rows ==> (x, res[x]) == (id, r))
      && Conflicts(res, r)
      && (UniquePairs(rows) ==> UniquePairs(res))
  {
    if !Conflicts(rows, r) { assert rows[id := r][id] == r; }
  }

  /** A taken (event, webhook) stays taken while rows are only added. */
  lemma StillConflicts(rows: Rows, res: Rows, r: Row)
    requires Conflicts(rows, r) && forall x :: x in rows ==> x in res && res[x] == rows[x]
    ensures Conflicts(res, r)
  {
    var w :| w in rows && rows[w].eventId == r.eventId && rows[w].webhookId == r.webhookId;
    assert res[w] == rows[w];
  }

  lemma ConflictsMeansServes(rows: Rows, r: Row)
    ensures Conflicts(rows, r) <==> Serves(rows, r.eventId, r.webhookId)
  {
  }

  lemma FreshTail(rows: Rows, entries: seq<(Id, Row)>)
    requires FreshIds(rows, entries) && entries != []
    ensures entries[0].0 !in rows && FreshIds(InsertOne(rows, entries[0].0, entries[0].1), entries[1..])
  {
  }

  /** Some row of the table is for this event and webhook. */
  ghost predicate Serves(rows: Rows, eventId: string, webhookId: string) {
    exists id :: id in rows && rows[id].eventId == eventId && rows[id].webhookId == webhookId
  }

  /** Of two entries for one event and webhook only the first gets in, and only if the pair was free. */
  lemma {:induction false} FreePairIsInserted(rows: Rows, entries: seq<(Id, Row)>, i: nat)
    requires FreshIds(rows, entries) && i < |entries|
    requires !Serves(rows, entries[i].1.eventId, entries[i].1.webhookId)
    requires forall k :: 0 <= k < i ==> entries[k].1.eventId != entries[i].1.eventId || entries[k].1.webhookId != entries[i].1.webhookId
    ensures entries[i].0 in InsertAll(rows, entries) && InsertAll(rows, entries)[entries[i].0] == entries[i].1
    decreases i
  {
    hide FreshIds, UniquePairs;
    var (id, r) := entries[0];
    var next := InsertOne(rows, id, r);
    FreshTail(rows, entries);
    if i == 0 {
      InsertAllKeeps(next, entries[1..]);
    } else {
      FreePairIsInserted(next, entries[1..], i - 1);
    }
  }

  /** Inserting keeps every row that was there, adds only new entries, and serves every entry's (event, webhook) pair. */
  lemma {:induction false} InsertAllKeeps(rows: Rows, entries: seq<(Id, Row)>)
    requires FreshIds(rows, entries)
    ensures var res := InsertAll(rows, entries);
      && (forall id :: id in rows ==> id in res && res[id] == rows[id])
      && (forall id :: id in res && id !in rows ==> (id, res[id]) in entries)
      && (forall e :: e in entries ==> Serves(res, e.1.eventId, e.1.webhookId))
      && (UniquePairs(rows) ==> UniquePairs(res))
    decreases |entries|
  {
    if entries != [] {
      hide Conflicts, UniquePairs, FreshIds, Serves;
      var (id, r) := entries[0];
      var next := InsertOne(rows, id, r);
      FreshTail(rows, entries);
      InsertOneKeeps(rows, id, r);
      InsertAllKeeps(next, entries[1..]);
      StillConflicts(next, InsertAll(rows, entries), r);
      ConflictsMeansServes(InsertAll(rows, entries), r);
      assert forall e :: e in entries ==> e == entries[0] || e in entries[1..];
    }
  }

  const DEFAULT_MAX_ATTEMPTS := 3
  const DEFAULT_TIMEOUT_SECONDS := 10

  /** A zero is stored as the column's default. */
  function OrDefault(value: int, byDefault: int): int {
    if value == 0 then byDefault else value
  }

  /** What is published: the event, and whether its payload will unmarshal. */
  datatype Publication = Publication(eventType: string, eventId: string, tenantId: string, payload: string, decodes: bool)

  /** The pending entry written for a subscribed webhook. */
  function NewEntry(cfg: WebhookConfig, p: Publication, now: Time): Row {
    Row(p.eventId, cfg.id, Message(p.eventType, p.tenantId, cfg.url, cfg.secret, p.payload), p.decodes,
        Pending, 0, OrDefault(cfg.retryCount, DEFAULT_MAX_ATTEMPTS), OrDefault(cfg.timeoutSeconds, DEFAULT_TIMEOUT_SECONDS),
        now, "", now, now)
  }

  /** The entry is pending, eligible at once, untried, and addressed as its webhook is. */
  lemma NewEntryIsReady(cfg: WebhookConfig, p: Publication, now: Time)
    ensures var r := NewEntry(cfg, p, now);
      && r.status == Pending && r.attempt == 0 && r.nextAttemptAt == r.createdAt == r.updatedAt == now && Eligible(r, now)
      && r.eventId == p.eventId && r.webhookId == cfg.id && r.payloadDecodes == p.decodes
      && r.message.url == cfg.url && r.message.secret == cfg.secret
      && r.message.eventType == p.eventType && r.message.tenantId == p.tenantId && r.message.payload == p.payload
      && (cfg.retryCount != 0 ==> r.maxAttempts == cfg.retryCount) && (cfg.retryCount == 0 ==> r.maxAttempts == 3)
      && (cfg.timeoutSeconds != 0 ==> r.timeoutSeconds == cfg.timeoutSeconds) && (cfg.timeoutSeconds == 0 ==> r.timeoutSeconds == 10)
  {
  }

  // ---------- claiming ----------

  predicate Eligible(r: Row, now: Time) {
    || (r.status == Pending && r.nextAttemptAt <= now)
    || (r.status == Processing && r.updatedAt < now - LEASE)
  }

  ghost predicate Distinct(ids: seq<Id>) {
    forall i, j :: 0 <= i < j < |ids| ==> ids[i] != ids[j]
  }

  function EligibleIds(rows: Rows, now: Time): set<Id> {
    set id | id in rows && Eligible(rows[id], now)
  }

  function DeadIds(rows: Rows): set<Id> {
    set id | id in rows && rows[id].status == Dead
  }

  /** No row among `keys` that is not taken is older than `createdAt`. */
  ghost predicate NoneOlder(rows: Rows, keys: set<Id>, taken: seq<Id>, createdAt: Time)
    requires keys <= rows.Keys
  {
    forall id :: id in keys && id !in taken ==> createdAt <= rows[id].createdAt
  }

  /** ORDER BY created_at LIMIT n: the oldest of `keys`, oldest first, as many as there are up to n. */
  ghost predicate OldestFirst(rows: Rows, keys: set<Id>, limit: nat, ids: seq<Id>)
    requires keys <= rows.Keys
  {
    && Distinct(ids)
    && |ids| <= limit
    && (forall i :: 0 <= i < |ids| ==> ids[i] in keys && NoneOlder(rows, keys, ids, rows[ids[i]].createdAt))
    && (forall i, j :: 0 <= i < j < |ids| ==> rows[ids[i]].createdAt <= rows[ids[j]].createdAt)
    && (|ids| < limit ==> forall id :: id in keys ==> id in ids)
  }

  /** ORDER BY created_at LIMIT n OFFSET m: `skipped` are the entries before the page. */
  ghost predicate IsPage(rows: Rows, keys: set<Id>, limit: nat, offset: nat, skipped: seq<Id>, ids: seq<Id>)
    requires keys <= rows.Keys
  {
    && OldestFirst(rows, keys, offset + limit, skipped + ids)
    && |skipped| <= offset
    && (ids != [] ==> |skipped| == offset)
  }

  /** What the claiming query selects. */
  ghost predicate IsClaim(rows: Rows, now: Time, limit: nat, ids: seq<Id>) {
    OldestFirst(rows, EligibleIds(rows, now), limit, ids)
  }

  function Claimed(rows: Rows, ids: seq<Id>, now: Time): Rows {
    map id | id in rows :: if id in ids then rows[id].(status := Processing, updatedAt := now) else rows[id]
  }

  // ---------- marking ----------

  /** `time.Duration(math.Pow(2, n)) * time.Second`: past 2^63 the float converts to the least int64. */
  function RetryBackoff(n: nat): int {
    Wrap64((if n < 63 then Pow2(n) else -TWO_63) * SECOND)
  }

  /** The wait after the n-th failed mark is 2^n seconds exactly up to n = 33; then the product leaves int64. */
  lemma RetryBackoffExactIff(n: nat)
    ensures RetryBackoff(n) == Pow2(n) * SECOND <==> n <= 33
  {
    Pow2Values();
    if n <= 33 {
      Pow2Monotone(n, 33);
    } else {
      Pow2Monotone(34, n);
      assert Pow2(n) * SECOND >= 0x4_0000_0000 * SECOND > TWO_63;
    }
  }

  function CompletedMark(r: Row, now: Time): Row {
    r.(status := Completed, updatedAt := now)
  }

  function DeadMark(r: Row, err: string, now: Time): Row {
    r.(status := Dead, lastError := err, updatedAt := now)
  }

  /** The failed mark's update of `r`, computed from the row `read` before it. */
  function FailedWrite(read: Row, r: Row, err: string, now: Time): Row {
    var next := read.attempt + 1;
    if next >= read.maxAttempts then r.(status := Dead, attempt := next, lastError := err, updatedAt := now)
    else r.(status := Pending, attempt := next, nextAttemptAt := now + RetryBackoff(next), lastError := err, updatedAt := now)
  }

  function FailedMark(r: Row, err: string, now: Time): Row {
    FailedWrite(r, r, err, now)
  }

  function Replayed(r: Row, now: Time): Row {
    r.(status := Pending, attempt := 0, nextAttemptAt := now, lastError := "", updatedAt := now)
  }

  /**
    When a row can be claimed next: after a claim, once its lease has run out; after a failed mark
    that leaves tries, 2^n seconds later; after a replay, at once; completed or dead, never.
   */
  lemma WhenEligible(r: Row, err: string, now: Time, later: Time)
    requires now <= later
    ensures Eligible(r.(status := Processing, updatedAt := now), later) <==> later > now + 300 * SECOND
    ensures Eligible(r.(status := Pending), later) <==> r.nextAttemptAt <= later
    ensures r.attempt + 1 < r.maxAttempts && r.attempt + 1 <= 33 ==>
      (Eligible(FailedMark(r, err, now), later) <==> later >= now + Pow2(r.attempt + 1) * SECOND)
    ensures r.attempt + 1 >= r.maxAttempts ==> !Eligible(FailedMark(r, err, now), later)
    ensures Eligible(Replayed(r, now), later)
    ensures !Eligible(CompletedMark(r, now), later) && !Eligible(DeadMark(r, err, now), later)
  {
    RetryBackoffExactIff(r.attempt + 1);
  }

  /** The two tables differ at most in one row. */
  ghost predicate OnlyRow(before: Rows, after: Rows, id: Id) {
    after.Keys == before.Keys && forall x :: x in before && x != id ==> after[x] == before[x]
  }

  /** UPDATE ... WHERE id = ?: no effect when the row is not there. */
  function Put(rows: Rows, id: Id, f: Row -> Row): Rows {
    if id in rows then rows[id := f(rows[id])] else rows
  }

  // ---------- the repository ----------

  class WebhookRepository {
    var configs: seq<WebhookConfig>
    var rows: Rows
    var deliveryLogs: seq<DeliveryLog>

    constructor (configs: seq<WebhookConfig>)
      ensures this.configs == configs && rows == map[] && deliveryLogs == []
    {
      this.configs := configs;
      rows := map[];
      deliveryLogs := [];
    }

    method CreateDeliveryLog(log: DeliveryLog)
      modifies `deliveryLogs
      ensures deliveryLogs == old(deliveryLogs) + [log]
    {
      deliveryLogs := deliveryLogs + [log];
    }

    method FindActiveByEvent(eventType: string) returns (matched: seq<WebhookConfig>)
      ensures matched == Selected(configs, eventType) && |matched| <= |configs|
      ensures forall c :: c in matched <==> c in configs && c.active && Subscribed(c.events, eventType)
    {
      matched := [];
      SelectedMembers(configs, eventType);
      assert Selected(configs[..0], eventType) == [];
      hide Selected, Subscribed;
      for i := 0 to |configs|
        invariant matched == Selected(configs[..i], eventType)
      {
        SelectedNext(configs, i, eventType);
        if configs[i].active {
          var matches := EventMatches(configs[i].events, eventType);
          if matches {
            matched := matched + [configs[i]];
          }
        }
      }
      assert configs[..|configs|] == configs;
    }

    /** One entry per active webhook subscribed to the event, unless that webhook already has one for it. */
    method CreateOutboxEntries(p: Publication, now: Time, uuids: seq<Id>)
        returns (matched: seq<WebhookConfig>, entries: seq<(Id, Row)>)
      requires |uuids| >= |configs| && Distinct(uuids)
      requires forall i :: 0 <= i < |uuids| ==> uuids[i] !in rows   // UUIDs do not repeat
      modifies `rows
      ensures matched == Selected(configs, p.eventType)
      ensures |entries| == |matched|
      ensures forall i :: 0 <= i < |entries| ==> entries[i].1 == NewEntry(matched[i], p, now)
      ensures FreshIds(old(rows), entries) && rows == InsertAll(old(rows), entries)
      ensures forall i :: 0 <= i < |entries| ==>
        var r, cfg := entries[i].1, matched[i];
        && r.status == Pending && r.attempt == 0 && r.nextAttemptAt == r.createdAt == now
        && r.eventId == p.eventId && r.webhookId == cfg.id && r.payloadDecodes == p.decodes
        && r.message == Message(p.eventType, p.tenantId, cfg.url, cfg.secret, p.payload)
      ensures forall id :: id in old(rows) ==> id in rows && rows[id] == old(rows)[id]
      ensures forall id :: id in rows && id !in old(rows) ==> (id, rows[id]) in entries
      ensures forall i :: 0 <= i < |matched| ==> Serves(rows, p.eventId, matched[i].id)
    {
      matched := FindActiveByEvent(p.eventType);
      entries := [];
      for i := 0 to |matched|
        invariant rows == old(rows)
        invariant |entries| == i
        invariant forall k :: 0 <= k < i ==> entries[k] == (uuids[k], NewEntry(matched[k], p, now))
      {
        entries := entries + [(uuids[i], NewEntry(matched[i], p, now))];
      }
      for i := 0 to |entries|
        invariant InsertAll(rows, entries[i..]) == InsertAll(old(rows), entries)
      {
        assert entries[i..][1..] == entries[i+1..];
        if !Conflicts(rows, entries[i].1) {
          rows := rows[entries[i].0 := entries[i].1];
        }
      }
      InsertAllKeeps(old(rows), entries);
      forall i | 0 <= i < |matched| ensures Serves(rows, p.eventId, matched[i].id) {
        assert entries[i] in entries;
      }
    }

    /** An oldest row among `keys` outside `taken`. */
    method Oldest(keys: set<Id>, taken: seq<Id>) returns (best: Option<Id>)
      requires keys <= rows.Keys
      ensures best.None? ==> forall id :: id in keys ==> id in taken
      ensures best.Some? ==> best.value in keys && best.value !in taken
      ensures best.Some? ==> NoneOlder(rows, keys, taken, rows[best.value].createdAt)
    {
      best := None;
      var left := keys;
      while left != {}
        invariant left <= keys
        invariant best.None? ==> forall id :: id in keys - left ==> id in taken
        invariant best.Some? ==> best.value in keys && best.value !in taken
        invariant best.Some? ==> NoneOlder(rows, keys - left, taken, rows[best.value].createdAt)
        decreases left
      {
        var id :| id in left;
        left := left - {id};
        if id !in taken && (best.None? || rows[id].createdAt < rows[best.value].createdAt) {
          best := Some(id);
        }
      }
    }

    method SelectOldest(keys: set<Id>, limit: nat) returns (ids: seq<Id>)
      requires keys <= rows.Keys
      ensures OldestFirst(rows, keys, limit, ids)
    {
      ids := [];
      var more := true;
      while more && |ids| < limit
        invariant Distinct(ids) && |ids| <= limit
        invariant forall i :: 0 <= i < |ids| ==> ids[i] in keys && NoneOlder(rows, keys, ids, rows[ids[i]].createdAt)
        invariant forall i, j :: 0 <= i < j < |ids| ==> rows[ids[i]].createdAt <= rows[ids[j]].createdAt
        invariant !more ==> forall id :: id in keys ==> id in ids
        decreases more, limit - |ids|
      {
        var best := Oldest(keys, ids);
        match best {
          case None => more := false;
          case Some(id) => ids := ids + [id];
        }
      }
    }

    /** Claims up to `limit` oldest eligible rows; the entries returned are the rows as they were selected. */
    method ClaimPendingOutbox(limit: nat, now: Time) returns (ids: seq<Id>, entries: seq<Row>)
      modifies `rows
      ensures IsClaim(old(rows), now, limit, ids)
      ensures rows == Claimed(old(rows), ids, now)
      ensures forall id :: id in old(rows) && |ids| < limit ==>
        var r := old(rows)[id];
        id in ids <==> (r.status == Pending && r.nextAttemptAt <= now) || (r.status == Processing && r.updatedAt + 300 * SECOND < now)
      ensures forall id :: id in ids ==> id in old(rows)
      ensures forall id :: id in ids ==>
        var r := old(rows)[id];
        (r.status == Pending && r.nextAttemptAt <= now) || (r.status == Processing && r.updatedAt + 300 * SECOND < now)
      ensures rows.Keys == old(rows).Keys && forall id :: id in rows ==>
        rows[id] == if id in ids then old(rows)[id].(status := Processing, updatedAt := now) else old(rows)[id]
      ensures |entries| == |ids| && forall i :: 0 <= i < |ids| ==> entries[i] == old(rows)[ids[i]]
    {
      ids := SelectOldest(EligibleIds(rows, now), limit);
      entries := [];
      for i := 0 to |ids|
        invariant rows == old(rows)
        invariant |entries| == i && forall k :: 0 <= k < i ==> entries[k] == rows[ids[k]]
      {
        entries := entries + [rows[ids[i]]];
      }
      rows := Claimed(rows, ids, now);
    }

    /** The oldest dead letters after the first `offset` of them. */
    method ListDeadOutbox(limit: nat, offset: nat) returns (ids: seq<Id>)
      ensures exists skipped :: IsPage(rows, DeadIds(rows), limit, offset, skipped, ids)
      ensures offset == 0 ==> OldestFirst(rows, DeadIds(rows), limit, ids)
    {
      var all := SelectOldest(DeadIds(rows), offset + limit);
      var cut := if |all| < offset then |all| else offset;
      ids := all[cut..];
      assert all == all[..cut] + ids;
      assert IsPage(rows, DeadIds(rows), limit, offset, all[..cut], ids);
    }

    method MarkOutboxCompleted(id: Id, now: Time)
      modifies `rows
      ensures rows == Put(old(rows), id, r => CompletedMark(r, now))
      ensures OnlyRow(old(rows), rows, id)
      ensures id in rows ==> rows[id] == old(rows)[id].(status := Completed, updatedAt := now)
    {
      if id in rows { rows := rows[id := rows[id].(status := Completed, updatedAt := now)]; }
    }

    method MarkOutboxDead(id: Id, lastError: string, now: Time)
      modifies `rows
      ensures rows == Put(old(rows), id, r => DeadMark(r, lastError, now))
      ensures OnlyRow(old(rows), rows, id)
      ensures id in rows ==> rows[id] == old(rows)[id].(status := Dead, lastError := lastError, updatedAt := now)
    {
      if id in rows { rows := rows[id := rows[id].(status := Dead, lastError := lastError, updatedAt := now)]; }
    }

    /** Fails, changing nothing, exactly when the row is not there. */
    method MarkOutboxFailed(id: Id, lastError: string, now: Time) returns (ok: bool)
      modifies `rows
      ensures ok == (id in old(rows))
      ensures rows == Put(old(rows), id, r => FailedMark(r, lastError, now))
      ensures OnlyRow(old(rows), rows, id)
      ensures ok ==>
        var r, tried := rows[id], old(rows)[id].attempt + 1;
        && r == old(rows)[id].(status := r.status, attempt := tried, nextAttemptAt := r.nextAttemptAt, lastError := lastError, updatedAt := now)
        && (tried >= r.maxAttempts ==> r.status == Dead && r.nextAttemptAt == old(rows)[id].nextAttemptAt)
        && (tried < r.maxAttempts ==> r.status == Pending)
        && (tried < r.maxAttempts && tried <= 33 ==> r.nextAttemptAt == now + Pow2(tried) * SECOND)
    {
      if id !in rows {
        return false;
      }
      var entry := rows[id];
      var nextAttempt := entry.attempt + 1;
      if nextAttempt >= entry.maxAttempts {
        rows := rows[id := entry.(status := Dead, attempt := nextAttempt, lastError := lastError, updatedAt := now)];
        return true;
      }
      var backoff := RetryBackoff(nextAttempt);
      RetryBackoffExactIff(nextAttempt);
      rows := rows[id := entry.(status := Pending, attempt := nextAttempt, nextAttemptAt := now + backoff,
                                lastError := lastError, updatedAt := now)];
      return true;
    }

    /** Reports "not found", changing nothing, unless the row is there and dead. */
    method ReplayDeadOutbox(id: Id, now: Time) returns (ok: bool)
      modifies `rows
      ensures ok == (id in old(rows) && old(rows)[id].status == Dead)
      ensures rows == if ok then Put(old(rows), id, r => Replayed(r, now)) else old(rows)
      ensures OnlyRow(old(rows), rows, id)
      ensures ok ==> rows[id] == old(rows)[id].(status := Pending, attempt := 0, nextAttemptAt := now, lastError := "", updatedAt := now)
    {
      if id !in rows || rows[id].status != Dead {
        return false;
      }
      rows := rows[id := Replayed(rows[id], now)];
      return true;
    }
  }
}
