# QuotaGate core: a verified model

A Dafny model of the parts of QuotaGate in which several steps, several workers or several
functions have to fit together, with proofs of what they keep. `dafny verify dfyconfig.toml`
checks all of it. Components that the source writes as objects updated in place are classes
here, proved against functions on their contents; protocols are state machines over those
same functions.

**Webhook outbox** (`GoInt`, `Dispatcher`, `Outbox`, `WebhookWorker`, `OutboxProtocol`,
`LeaseTiming`, `DeliveryBudget`). Events are published as rows; any number of workers claim rows,
run a retry loop over HTTP and write one mark per claim. Marks filter on the row's id alone, so
only the five-minute lease keeps two workers apart. The chain of results: what each database
operation does to the table; what holds in every run, crashes and late workers included; what
holds while live workers stay within their leases; the exact configurations for which they do,
derived from the dispatcher's timeouts and backoff and the time database work takes; and how many calls an entry gets and how
far apart its claims are.

**Key-value store** (`Decimal`, `SwiftStore`, `SwiftJson`, `SwiftRuns`). Badger's
closure-retry loop and Redis's WATCH loop refine the same conditional writes; `MutateJSON` and
`ConsumeJSON` call them, and are serializable in every interleaving.

**Role registry and grouping index** (`RoleGraph`, `RoleRegistry`, `GroupingIndex`). The
memoised search computes the transitive closure of role inheritance or finds a cycle; the
enforcer's g-rules agree with what a rebuild from the cached inputs would give, exactly as long
as every operation meets a stated condition.

**ABAC rule validator** (`AbacGrammar`, `AbacLexer`, `AbacParser`, `AbacPrint`). The
recogniser accepts exactly the language of a grammar; the lexer splits any text into tokens
without losing a byte and reads back whatever is printed.

**Signature header and identicon** (`Signer`, `Identicon`). Printing and parsing the header
are inverse, and the hash mixer is a bijection.

## Where the code and its comments disagree

The model follows the code.

- The comment on the lease (core/internal/repository/webhook.go:169-171) asks for
  timeout × max_attempts plus the backoff sum; the worker retries `MaxAttempts` times after a
  first call, so one more timeout is needed, and a Retry-After of a 429 is not bounded by any
  setting. `LeaseTiming.ExclusiveIffFitsLease` has the exact condition.
- The grammar in the comment of the ABAC validator has arrays of strings only, never empty, and
  a fixed set of attribute names; the code takes empty arrays, arrays of any primary, and any
  identifier after `Attrs`. An unterminated string is lexed as a string.
- The retry backoff of a failed mark is 2^n seconds only up to n = 33
  (`Outbox.RetryBackoffExactIff`). The dispatcher's own backoff overflows before its 35th retry: a
  loop that may retry 35 times or more can panic, always right after its 35th call
  (`Dispatcher.PanicsIff`, `Dispatcher.AtMost35Calls`); nothing bounds `retry_count`
  (core/internal/service/webhook.go:86-103).
- `ReplayDeadBatch` says that a limit of 0 or less means no limit
  (core/internal/worker/webhook.go:164-169); the code replays 1000.
- `ErrCASConflict` from `MutateJSON` or `ConsumeJSON` can also be the store's own, after eight
  foreign writes that need not change the value (`SwiftStore.RewritesConflict`).
- `ReloadPolicy` restores the g-rules from the cached inputs only if definitions are cached
  (`GroupingIndex.ReloadAgreesIff`). Revoking a role that the inheritance rules also grant, or that
  is cached twice, breaks the agreement (`GroupingIndex.RevokeAgreesIff`), and a reload brings the
  rule back (`GroupingIndex.RevokedRuleReturnsIff`). The lemmas whose names end in `Breaks` give
  the inputs.
- The comment of `filterAssignment` promises a new slice; it shifts the one it is given.

## Model

| member | source | states |
|---|---|---|
| LeaseTiming.ExclusiveIffFitsLease | core/internal/repository/webhook.go:169-222 | With no assumption on when marks are written: at most one live worker holds an entry in every timed run, if and only if the longest possible claim of every webhook - its transaction, every call with its checks to its timeout, the longest waits and Retry-After, the log and mark statements - fits in the lease |
| LeaseTiming.FittingSiteIsSafe | core/internal/worker/webhook.go:224-301 | In every timed run of a fitting configuration the holder of an entry is unique and a completed row never changes again |
| LeaseTiming.TimedRunInv | core/internal/event/dispatcher.go:618-686 | At every moment of such a run each worker is no later than the time its calls and waits so far can take, hence inside its lease |
| LeaseTiming.OnTimeInLease | core/internal/repository/webhook.go:169-172 | A worker that is on time in its loop has not outlived the lease of its claim |
| LeaseTiming.CallBoundIsShortest | core/internal/event/dispatcher.go:446-460 | A call is bounded by the shorter of the client timeout and its own, which goes before the default |
| LeaseTiming.MisfitBreaksExclusivity | core/internal/repository/webhook.go:169-194 | For every configuration that does not fit there is a run, built call by call, in which two live workers hold the same row |
| LeaseTiming.RuleOfThumb | core/internal/event/dispatcher.go:360-367 | With no Retry-After, M+1 timeouts with their checks, M waits of 30 s, the claim and the mark within five minutes suffice |
| LeaseTiming.UncappedRetryAfterBreaksExclusivity | core/internal/event/dispatcher.go:661-666 | A webhook that retries at all loses exclusivity if an endpoint may send a Retry-After longer than the lease |
| OutboxProtocol.EveryRun | core/internal/repository/webhook.go:136-274 | In every run with any crashes and late marks: no published row disappears or changes identity, (event, webhook) names at most one row, no status outside pending/processing/completed/dead, and a completed row has had a 2xx |
| OutboxProtocol.StepsAreRepositoryOperations | core/internal/repository/webhook.go:174-317 | Every step of the protocol changes the table by exactly one repository operation, or not at all |
| OutboxProtocol.ClaimSends | core/internal/worker/webhook.go:226-268 | A claim of a row whose payload decodes marks it processing and starts its first call |
| OutboxProtocol.PoisonedDies | core/internal/worker/webhook.go:252-263 | A claim of a row whose payload does not decode makes no call, and its mark makes the row dead |
| OutboxProtocol.SuccessCompletes | core/internal/worker/webhook.go:289-295 | After a 2xx the completed mark is the next statement of the worker |
| OutboxProtocol.FinishedCompletes | core/internal/worker/webhook.go:289-295 | Whenever that mark is written, whatever happened in between, the row becomes completed |
| OutboxProtocol.FailureRetries | core/internal/event/dispatcher.go:658-682 | A 429, a code outside 400..499 or no answer is followed by a legal wait while tries are left |
| OutboxProtocol.WaitEnds | core/internal/event/dispatcher.go:672-682 | The next call starts when the wait is over, and not before |
| OutboxProtocol.FailureGivesUp | core/internal/worker/webhook.go:297-300 | Any other failure ends the loop, and the failed mark reads the row |
| OutboxProtocol.FailingFails | core/internal/repository/webhook.go:249-274 | The failed mark counts one attempt more than it read; the row is dead at its maximum, and pending again after 2^n seconds below it |
| OutboxProtocol.LostClaimChangesNothing | core/internal/worker/webhook.go:289-300 | A crash, or a mark that is not written, leaves every row as it is |
| OutboxProtocol.ClaimIsPossible | core/internal/repository/webhook.go:174-194 | Whenever some row is eligible, an idle worker can claim one; a crashed worker's row is not stuck |
| OutboxProtocol.Republish | core/internal/repository/webhook.go:163-166 | Publishing what is already there leaves the table as it is |
| OutboxProtocol.ClaimTakesFreeRow | core/internal/repository/webhook.go:172-194 | While leases are respected, a claim only takes a row no live worker holds |
| OutboxProtocol.LeaseStep | core/internal/worker/webhook.go:252-301 | Each step within the leases keeps holders unique, their rows processing with the attempt they read, and completed rows unchanged |
| OutboxProtocol.LeaseRunSafe | core/internal/repository/webhook.go:172-274 | In a whole run within the leases at most one worker holds an entry, and completed rows stay completed, unchanged |
| DeliveryBudget.DispatchBudget | core/internal/repository/webhook.go:249-274 | With m = MaxAttempts (at least 1): attempt equals the failed marks and never exceeds m, a live row has fewer, and calls are at most m(m+3)/2 per life, plus as many per replay, plus m+1 per claim that ended without a mark |
| DeliveryBudget.ClaimsAreSpaced | core/internal/repository/webhook.go:174-273 | For MaxAttempts up to 34, the claim after the k-th failed mark comes at least 2^(k+1)-2 seconds after the first claim, and takes an oldest eligible row |
| DeliveryBudget.NoSilentLoss | core/internal/repository/webhook.go:230-317 | Within the leases a published row is pending or processing, or completed - exactly when the mark of a success was written - or dead, and then its payload does not decode or its whole quota of tries failed |
| DeliveryBudget.BudgetClosedForm | core/internal/worker/webhook.go:265-268 | The calls of one life, r+1 in a claim with r tries left, sum to r(r+3)/2 |
| Outbox.EventMatches | core/internal/repository/webhook.go:319-330 | True exactly when the stored list decodes and contains the event type or `*` |
| Outbox.WebhookRepository.FindActiveByEvent | core/internal/repository/webhook.go:71-86 | Exactly the active webhooks subscribed to the event, in stored order and each as often as it is stored |
| Outbox.SelectedMembers | core/internal/repository/webhook.go:71-86 | A webhook is selected if and only if it is stored, active and subscribed |
| Outbox.WebhookRepository.CreateOutboxEntries | core/internal/repository/webhook.go:136-167 | One pending, untried entry per matched webhook, with that webhook's own URL and secret, the tenant and the payload; every row that was there stays, only these entries are added, and every matched webhook is served |
| Outbox.NewEntryIsReady | core/internal/repository/webhook.go:145-160 | A new entry is pending, eligible at once, untried, addressed as its webhook is, with 3 attempts and 10 s for a zero |
| Outbox.InsertAllKeeps | core/internal/repository/webhook.go:163-166 | Inserting keeps every row, adds only the new entries, leaves a row for every entry's (event, webhook), and keeps the pairs unique |
| Outbox.FreePairIsInserted | core/internal/repository/webhook.go:163-166 | The first entry for an (event, webhook) that was free gets in as it is |
| Outbox.WebhookRepository.ClaimPendingOutbox | core/internal/repository/webhook.go:174-222 | Claims oldest rows that are pending and due or processing for more than 300 s, oldest first, all of them if they are fewer than the limit; exactly those become processing now; returns them as they were |
| Outbox.WebhookRepository.SelectOldest | core/internal/repository/webhook.go:181-194 | The ordered, limited selection: distinct, ascending by creation, none left out is older, short of the limit only if all are in |
| Outbox.WebhookRepository.ListDeadOutbox | core/internal/repository/webhook.go:287-295 | The page of dead letters in order of creation: oldest first, up to the limit, after exactly the first `offset` of them |
| Outbox.WebhookRepository.MarkOutboxCompleted | core/internal/repository/webhook.go:232-237 | The row with this id, whatever its status or owner, becomes completed; no other changes |
| Outbox.WebhookRepository.MarkOutboxDead | core/internal/repository/webhook.go:241-247 | The row with this id becomes dead with the error; no other changes |
| Outbox.WebhookRepository.MarkOutboxFailed | core/internal/repository/webhook.go:249-274 | Fails exactly on a missing row; else adds one attempt, keeps the error and the time, and makes the row dead at its maximum, pending 2^n seconds from now below it (n up to 33); no other column or row changes. In the protocol its read and its update are two steps |
| Outbox.WebhookRepository.ReplayDeadOutbox | core/internal/repository/webhook.go:300-317 | Succeeds exactly on a dead row, which becomes pending now with no attempts and no error; no other column or row changes |
| Outbox.RetryBackoffExactIff | core/internal/repository/webhook.go:265 | The wait after the n-th failed mark is 2^n seconds if and only if n is at most 33 |
| Outbox.WhenEligible | core/internal/repository/webhook.go:174-317 | When a row can be claimed again: after a claim, strictly after 300 s; pending, from its time on; after a failed mark, from 2^n s on; after a replay, at once; completed or dead, never |
| Dispatcher.BackoffBaseSeconds | core/internal/event/dispatcher.go:360-367 | The jitter bound is 1, 2, 4, 8, 16 s and then 30 s up to the 34th retry; at the 35th it is negative |
| Dispatcher.AtMost35Calls | core/internal/event/dispatcher.go:360-367 | Whatever the retry count, no loop makes a 36th call, and one that panics does so right after the 35th |
| Dispatcher.PanicsIff | core/internal/event/dispatcher.go:618-686 | Some outcomes make the loop panic if and only if it may retry 35 times or more |
| Dispatcher.LegalWaitBounded | core/internal/event/dispatcher.go:658-680 | No wait exceeds the larger of its jitter bound and the longest Retry-After |
| Dispatcher.LegalWaitSeconds | core/internal/event/dispatcher.go:658-670 | After a 429 with a Retry-After the wait is that, after any other failure it is random below 1, 2, 4, 8, 16, 30, ... seconds |
| Dispatcher.WaitIsLegal | core/internal/event/dispatcher.go:658-670 | The loop makes only such waits |
| Dispatcher.DispatchWithRetry | core/internal/event/dispatcher.go:618-686 | In status codes: every call before the last failed with a 429, a code outside 400..499 or no answer, uncancelled; the result is a success, a 4xx other than 429, a cancellation or the last allowed call, or the context was done, or 35 calls were made; reports 1, 2, ... in order |
| Dispatcher.LoopInStatusCodes | core/internal/event/dispatcher.go:552-573 | What each end of a loop says about its last call, and that no client error is ever retried |
| Dispatcher.AnotherCallFollows | core/internal/event/dispatcher.go:653-682 | After a 429, a 5xx or no answer, uncancelled and with retries left, another call follows, up to the 35th |
| Dispatcher.LoopDetermined | core/internal/event/dispatcher.go:618-686 | Outcomes, cancellations and retry count determine the number of calls and the end of the loop |
| Dispatcher.ElapsedBounded | core/internal/event/dispatcher.go:618-686 | However the loop ends, its calls and waits take no longer than the worst case the lease is compared with |
| WebhookWorker.LoopFollowsMachine | core/internal/event/dispatcher.go:626-682 | Without cancellation the loop stops exactly where the protocol's worker stops waiting, with that call's result |
| WebhookWorker.MarkFollowsMachine | core/internal/worker/webhook.go:252-301 | The mark the worker writes is the one the protocol's worker writes, for undecodable payloads and for every uncancelled loop that returns; after a loop that panics the protocol's worker has no step left but to crash |
| WebhookWorker.WebhookWorker.ProcessEntry | core/internal/worker/webhook.go:252-301 | An undecodable payload makes the row dead without a call; a success makes it completed; every other end that returns counts one attempt and makes it pending or, at the maximum, dead; one delivery log entry; a log or mark that fails changes nothing else; no other row changes; the counters stay balanced |
| WebhookWorker.WebhookWorker.ClaimAndProcess | core/internal/worker/webhook.go:224-236 | Finds an entry exactly when one is eligible and the claim commits; it is an oldest one, and ends completed, dead or pending as processing says, or stays processing if its mark fails or the loop panics; no other row changes |
| WebhookWorker.WebhookWorker.ReplayDeadBatch | core/internal/worker/webhook.go:166-186 | Replays exactly the oldest dead letters up to the limit, 1000 by default: they become pending with no attempts, no other row changes; returns their number |
| SwiftStore.BadgerUpdate | kex-utils/pkg/kexswiftdb/badger.go:58-70 | After any number of aborted tries the call took effect at one moment: the result is that of the try that committed, its write replaced the value that try read, an error leaves no write; a conflict error takes eight foreign writes; undisturbed, the first try commits |
| SwiftStore.RedisWatch | kex-utils/pkg/kexswiftdb/redis.go:102-145 | The WATCH loop meets the same atomic specification |
| SwiftStore.AtomicIsConditionalWrite | kex-utils/pkg/kexswiftdb/badger.go:211-300 | An atomic test-and-write closure is a conditional write for its caller: true, false and error each say what happened to the key |
| SwiftStore.BadgerCompareAndSwap | kex-utils/pkg/kexswiftdb/badger.go:211-259 | True: the value replaced was the expected one, nil also matching an absent key; false: it differed at some moment and nothing was written; error: nothing was written, and a conflict takes eight foreign writes |
| SwiftStore.RedisCompareAndSwap | kex-utils/pkg/kexswiftdb/redis.go:96-146 | The same contract as Badger's, nil handling included |
| SwiftStore.BadgerCompareAndDelete | kex-utils/pkg/kexswiftdb/badger.go:261-300 | True: the key held the expected value and is gone; false and error: nothing was written, and a conflict takes eight foreign writes, and a conflict takes eight foreign writes |
| SwiftStore.RedisCompareAndDelete | kex-utils/pkg/kexswiftdb/redis.go:148-190 | The same contract as Badger's |
| SwiftStore.BadgerSetNX | kex-utils/pkg/kexswiftdb/badger.go:179-209 | True: the key was absent and now holds the value; false: it was present at some moment |
| SwiftStore.RedisSetNX | kex-utils/pkg/kexswiftdb/redis.go:83-93 | The same contract as Badger's, and never a conflict |
| SwiftStore.RewritesConflict | kex-utils/pkg/kexswiftdb/badger.go:58-70 | A conflict without a change: eight foreign writes of the bytes already there, one during each try |
| SwiftStore.BadgerIncrement | kex-utils/pkg/kexswiftdb/badger.go:141-177 | A success wrote, as decimal text, the number it returns: 1 over an absent key or a text that is no number, n+1 over the text of n, wrapping at the largest int64; an error wrote nothing, and a conflict takes eight foreign writes |
| SwiftStore.CountsUp | kex-utils/pkg/kexswiftdb/badger.go:155-166 | After n increments of an absent key, and nothing else, the key holds n |
| SwiftStore.IncrementReturnsItsRank | kex-utils/pkg/kexswiftdb/badger.go:141-177 | Successful increments of an absent key return 1, 2, 3, ... in commit order |
| Decimal.ParseFormat | kex-utils/pkg/kexswiftdb/redis.go:307-313 | Parsing the decimal text of any int64 gives it back |
| Decimal.ParseDigits | kex-utils/pkg/kexswiftdb/badger.go:155-160 | Digits with or without a sign parse to the number they stand for, or to a range error with the nearest int64 |
| Decimal.FormatPlaces | kex-utils/pkg/kexswiftdb/badger.go:160-166 | Decimal text is one digit for each place, from the highest |
| SwiftJson.MutateJSON | kex-utils/pkg/kexswiftdb/json.go:31-87 | Over the Badger and the Redis operations, under arbitrary interference: success wrote once, the encoding of what the function answered for the value stored just before; a value kept is one the key had and the function declined; a conflict takes eight foreign writes, all changes unless the store's own loop gave up. Undisturbed, exactly one of stored, declined and failed, as the function says |
| SwiftJson.MutateRound | kex-utils/pkg/kexswiftdb/json.go:33-83 | One round either ends the call with such a reply, a conflict of the store included, or was lost because somebody changed the value |
| SwiftJson.PutIfUnchanged | kex-utils/pkg/kexswiftdb/json.go:48-83 | SetNX, CompareAndSwap and CompareAndDelete of either store are one conditional write on the value read |
| SwiftJson.AttemptIsRound | kex-utils/pkg/kexswiftdb/json.go:70-87 | What each outcome of that write means for the call: success, a lost round in which the value changed, a conflict, a failure |
| SwiftJson.ConsumeJSON | kex-utils/pkg/kexswiftdb/json.go:99-133 | The same for reading and deleting: a success deleted a value the callback accepted, and returns it; nothing is deleted that the callback declined |
| SwiftJson.DecideMeans | kex-utils/pkg/kexswiftdb/json.go:33-130 | A call writes or keeps a value exactly when its callback, given the decoded value, says so |
| SwiftJson.EffectIsKnown | kex-utils/pkg/kexswiftdb/json.go:31-133 | That holds of the value just before the write, and of a value the key had during a call that wrote nothing |
| SwiftJson.ConsumeRound | kex-utils/pkg/kexswiftdb/json.go:101-130 | One round of it, absent keys and declined values answered without an error |
| SwiftRuns.Serializable | kex-utils/pkg/kexswiftdb/json.go:31-87 | In every interleaving of any number of calls with other writes, the stored value is that of running the winners alone in commit order; each success has exactly one commit, after its call began, decided on the value just before; all others have none; an answer without a write is to a value the key had during the call; a conflict takes eight foreign writes, all changes unless the store gave up |
| SwiftRuns.WinnersObeyCallbacks | kex-utils/pkg/kexswiftdb/json.go:31-133 | In every interleaving a winner turned the value before its commit into the one after it as its callback said, a consumer wins only what its callback accepted, and an answer without a write is a declined value the key had |
| SwiftRuns.RunInv | kex-utils/pkg/kexswiftdb/json.go:31-133 | The invariant behind it: each call in flight knows a value the key had since it began, and each lost round is a change of the key |
| SwiftRuns.ConsumedAtMostOnce | kex-utils/pkg/kexswiftdb/json.go:89-133 | Winning consumers never outnumber the values given to the key; a token set once is consumed at most once |
| RoleRegistry.Expansion.Expand | core/internal/authz/rolegistry.go:82-116 | Terminates; returns without duplicates exactly the roles reachable over non-empty, non-self parents, or an error only when the graph has a cycle; the memo stays right, closed and disjoint from the current path |
| RoleRegistry.Expansion.Merge | core/internal/authz/rolegistry.go:106-111 | Appends what is not there yet: the union, each once |
| RoleRegistry.Expansion.AllExpandedMeansAcyclic | core/internal/authz/rolegistry.go:82-116 | If every role was expanded without error, the graph has no cycle |
| RoleRegistry.ExpandDomain | core/internal/authz/rolegistry.go:51-71 | Fails if and only if the domain's graph has a cycle; else the sorted rules are exactly role and ancestor pairs |
| RoleRegistry.SortRules | core/internal/authz/rolegistry.go:64-70 | Sorted by child and then parent, with the same rules |
| RoleRegistry.Registry.Load | core/internal/authz/rolegistry.go:33-78 | Said of the definitions: errors if and only if in some domain a chain of listed parents leads from a role to itself, changing nothing; else the rules are exactly the pairs such chains connect, each under its domain, sorted |
| RoleRegistry.InheritsIsReach | core/internal/authz/rolegistry.go:82-116 | Chains of parents listed by last definitions are exactly the paths of the domain graph |
| RoleRegistry.RegistryIsLawful | core/internal/authz/rolegistry.go:50-71 | A registry holds exactly the inheritances of the definitions, sorted by child and then parent |
| RoleRegistry.Registry.BuildGraphs | core/internal/authz/rolegistry.go:35-48 | A role has, in each domain (`*` without a tenant), the parents of its last definition there, and is absent without one; no graph is empty |
| RoleRegistry.LastDefinitionWins | core/internal/authz/rolegistry.go:35-48 | For any prefix of the definitions: the last one of a role in a domain decides its parents |
| RoleRegistry.DefinedByUnique | core/internal/authz/rolegistry.go:35-48 | That property determines the graphs |
| RoleRegistry.RegistryUnique | core/internal/authz/rolegistry.go:50-71 | The definitions alone determine the rule lists, whatever order maps are iterated in |
| RoleRegistry.SortedUnique | core/internal/authz/rolegistry.go:63-70 | Two sorted lists with the same rules are the same list |
| RoleRegistry.StringLessIff | core/internal/authz/rolegistry.go:64-70 | The order is that of the first byte in which two names differ, a proper prefix coming first |
| RoleRegistry.RulesAreTheClosure | core/internal/authz/rolegistry.go:58-61 | Reachability over the emitted rules equals reachability over the direct parents, and every ancestor is one rule away |
| RoleRegistry.Registry.GetInheritanceRules | core/internal/authz/rolegistry.go:124-138 | The system's rules first, then the domain's own, in their sorted order, and no rule of another domain |
| GroupingIndex.FilterAssignment | core/internal/authz/authz.go:608-616 | Removes the first match by shifting inside the given array, which keeps its last element beyond the new length; changes nothing without a match |
| GroupingIndex.Append | core/internal/authz/authz.go:262-267 | Appends in place while the shared array has room, and otherwise leaves it alone |
| GroupingIndex.AssignAgreesIff | core/internal/authz/authz.go:253-271 | Assigning keeps the g-rules equal to inheritance plus cache if and only if it adds nothing or user and role are non-empty |
| GroupingIndex.RevokeAgreesIff | core/internal/authz/authz.go:276-290 | Revoking keeps it if and only if nothing is removed, or the rule is no inheritance rule and cached at most once |
| GroupingIndex.ReloadAgreesIff | core/internal/authz/authz.go:555-563 | From an agreeing index, reloading the policy changes nothing if and only if definitions are cached or there is no g-rule |
| GroupingIndex.RevokedRuleReturnsIff | core/internal/authz/authz.go:276-290 | A reload brings a revoked rule back if and only if it is inherited or was cached more than once |
| GroupingIndex.AuthzManager.AssignUserRole | core/internal/authz/authz.go:253-271 | Reports whether the rule was new; then it is in the enforcer and at the end of the cache, else nothing changes |
| GroupingIndex.AuthzManager.RevokeUserRole | core/internal/authz/authz.go:276-290 | Reports whether the rule was there; then it is gone from the enforcer and once from the cache, which stays in its array; else nothing changes |
| GroupingIndex.AuthzManager.RebuildGroupingRelations | core/internal/authz/authz.go:567-601 | Fails if and only if the definitions are cyclic, changing nothing; else the g-rules are exactly what the definitions, in every domain, and the named assignments grant, and the caller's array becomes the cache |
| GroupingIndex.AuthzManager.ReloadRoleRegistry | core/internal/authz/authz.go:217-248 | The same with new definitions and the cached assignments |
| GroupingIndex.AuthzManager.ReloadPolicy | core/internal/authz/authz.go:555-563 | From any state: without cached definitions every g-rule is gone; with them the g-rules are exactly what those and the cached assignments grant, unless they are cyclic, which no operation caches; a failing load changes nothing |
| GroupingIndex.AgreesMeansGranted | core/internal/authz/authz.go:567-601 | The index agrees exactly when the g-rules are the inheritances of the cached definitions and the named cached assignments |
| GroupingIndex.SequencesAgree | core/internal/authz/authz.go:217-290 | After any sequence of disciplined assignments, revocations, rebuilds, registry reloads and policy reloads the g-rules are exactly what the cached definitions and assignments grant, and with definitions cached another reload changes nothing |
| GroupingIndex.AgreesThroughoutIff | core/internal/authz/authz.go:217-290 | Any sequence of operations at all keeps the agreement throughout if and only if each operation meets its exact condition where it is done |
| GroupingIndex.DuplicateBreaks | core/internal/authz/authz.go:608-616 | An assignment listed twice, rebuilt and revoked once, loses the agreement |
| GroupingIndex.InheritedBreaks | core/internal/authz/authz.go:276-290 | So does revoking a rule that the loaded definitions grant |
| GroupingIndex.NamelessBreaks | core/internal/authz/authz.go:593-595 | So does assigning without a user |
| GroupingIndex.ReloadWithoutDefinitionsBreaks | core/internal/authz/authz.go:555-563 | So does reloading after an assignment when no definitions were ever cached: the assignment is gone |
| AbacGrammar.RecogniserIsExact | core/internal/authz/abac_validator.go:274-384 | The recogniser succeeds leaving `rest` if and only if what it consumed is derivable from the grammar |
| AbacGrammar.SoundExpr | core/internal/authz/abac_validator.go:274-300 | What it accepts is derivable |
| AbacGrammar.CompleteExpr | core/internal/authz/abac_validator.go:274-300 | Every derivable expression is accepted, whatever follows it |
| AbacGrammar.DerivablePrefixUnique | core/internal/authz/abac_validator.go:274-384 | A token sequence has at most one derivable prefix, with one derivation: the grammar is unambiguous |
| AbacGrammar.AttributesAllowed | core/internal/authz/abac_validator.go:326-362 | Attributes are those of sub and obj with ID, Owner, Name, Roles, or any name after Attrs, and no others |
| AbacGrammar.ComparisonsAllowed | core/internal/authz/abac_validator.go:274-300 | Between two values exactly `==`, `!=` and `in` make a rule |
| AbacGrammar.SinglesAllowed | core/internal/authz/abac_validator.go:302-324 | Exactly strings, numbers and truth values stand for themselves, and only `r` starts an attribute |
| AbacGrammar.ArraysAllowed | core/internal/authz/abac_validator.go:364-384 | Arrays hold nothing, one value, or values with commas between |
| AbacLexer.Lexer.NextToken | core/internal/authz/abac_validator.go:91-148 | Returns the token at the front of the remaining text; before the end of input every call advances |
| AbacLexer.Lexer.SkipSpace | core/internal/authz/abac_validator.go:150-157 | Skips exactly the leading space |
| AbacLexer.Lexer.Match | core/internal/authz/abac_validator.go:159-175 | Consumes the text exactly when the input goes on with it; `in` only where no longer word starts |
| AbacLexer.Lexer.MatchWord | core/internal/authz/abac_validator.go:177-191 | Consumes the word exactly when it is a whole word |
| AbacLexer.Lexer.ReadString | core/internal/authz/abac_validator.go:193-215 | Up to the first unescaped quote, a newline or the end of the text |
| AbacLexer.Lexer.ReadNumber | core/internal/authz/abac_validator.go:217-226 | A sign and the longest run of digits and dots |
| AbacLexer.Lexer.ReadIdent | core/internal/authz/abac_validator.go:228-234 | The longest run of word bytes |
| AbacLexer.TokensPartitionText | core/internal/authz/abac_validator.go:91-148 | The consumed bytes of the tokens and the space between them, in order, are the whole input |
| AbacLexer.LexemesAreTokens | core/internal/authz/abac_validator.go:91-148 | Those pieces are the lexer's tokens one by one, none of them empty, with only space in the gaps |
| AbacParser.RuleParser.ParseExpr | core/internal/authz/abac_validator.go:274-300 | With its two-token window the object succeeds and leaves what the recogniser on the token sequence does |
| AbacParser.RuleParser.ParsePrimary | core/internal/authz/abac_validator.go:302-324 | Likewise for primaries |
| AbacParser.RuleParser.ParseAttr | core/internal/authz/abac_validator.go:326-362 | Likewise for attributes |
| AbacParser.RuleParser.ParseArray | core/internal/authz/abac_validator.go:364-384 | Likewise for arrays, the empty one included |
| AbacParser.RuleParser.Advance | core/internal/authz/abac_validator.go:252-255 | Drops exactly the first of the remaining tokens, and stays at the end once there |
| AbacParser.ValidateABACRule | core/internal/authz/abac_validator.go:22-54 | For the text without the Unicode white space around it: blank is accepted; "true", "1==1", "1 == 1" and "r.p == r.p" for the prefix p are rejected in any case of ASCII letters; nothing is accepted that the grammar does not derive; every derivable ASCII text other than the four is accepted |
| AbacParser.TrimSpaceMeans | core/internal/authz/abac_validator.go:22-26 | What is trimmed is exactly the white space at both ends, rune by rune, and the rest neither starts nor ends with any |
| AbacParser.SpaceRunes | core/internal/authz/abac_validator.go:23 | White space is the UTF-8 encoding of the white-space code points |
| AbacParser.ConstantTruthsAreListed | core/internal/authz/abac_validator.go:41-55 | The blacklist compares with the four texts position by position, up to the case of ASCII letters |
| AbacPrint.LexRender | core/internal/authz/abac_validator.go:91-234 | Lexing any separated print of printable tokens gives the tokens back |
| AbacPrint.ScanPrinted | core/internal/authz/abac_validator.go:91-148 | A printed token followed by nothing that extends it is scanned back whole |
| AbacPrint.QuotedIsPrintable | core/internal/authz/abac_validator.go:193-215 | Any text at all, escaped and quoted, is one string token |
| AbacPrint.PrintedRuleAccepted | core/internal/authz/abac_validator.go:22-54 | A printed expression tree, with any separating space inside and any Unicode white space around it, is accepted if and only if it does not read as a listed constant truth; for ASCII text, as one of the four |
| AbacPrint.SymbolTexts | core/internal/authz/abac_validator.go:91-148 | Which token each symbol and keyword is |
| AbacPrint.NamesAreIdentifiers | core/internal/authz/abac_validator.go:228-234 | An ASCII name that is no keyword is one identifier |
| AbacPrint.DigitsAreNumbers | core/internal/authz/abac_validator.go:217-226 | Digits and dots after a digit, with or without a minus sign, are one number |
| AbacPrint.UnclosedIsString | core/internal/authz/abac_validator.go:193-215 | A quote that is never closed takes the rest of the line as a string |
| AbacPrint.OtherBytes | core/internal/authz/abac_validator.go:134-148 | Any other printable ASCII byte is an identifier of its own |
| AbacPrint.SingleSpacesSeparate | core/internal/authz/abac_validator.go:91-234 | One space between tokens always separates them |
| Signer.SignPayload | core/internal/event/signer.go:147-165 | Empty secret is an error; else the hex text of the digest of timestamp, dot and payload, in the header "t=...,version=...", which parses back to exactly these two |
| Signer.ParseSignatureHeader | core/internal/event/signer.go:213-240 | Succeeds with a timestamp and a signature exactly if every part has an `=`, the last `t=` is that int64 number and the last part of the signer's own version is that non-empty signature |
| Signer.SplitIs | core/internal/event/signer.go:215-220 | The parts are comma-free and, with commas between them, make up the header |
| Signer.VerifySignature | core/internal/event/signer.go:176-208 | Accepts if and only if the secret is not empty, the header parses, its time stamp - any int64 - passes the exactly described age check, and its signature is the digest; expired and malformed have exact conditions too |
| Signer.ParsePrinted | core/internal/event/signer.go:213-240 | Parsing a printed header gives exactly its timestamp and signature, and is malformed for any other version |
| Signer.DistanceExactIff | core/internal/event/signer.go:189-193 | The int64 time distance is the true one if and only if that fits |
| Signer.WithinToleranceIff | core/internal/event/signer.go:189-195 | For any int64 time stamp, negative ones included, the computed comparison is that age check: the true distance is within tolerance, or one of the exactly described distances that wrap around |
| Signer.WholeSeconds | core/internal/event/signer.go:193-195 | Comparing in whole seconds is comparing in nanoseconds, except that a tolerance between -1 s and 0 counts as 0 |
| Signer.SignThenVerify | core/internal/event/signer.go:147-208 | The header signed for one payload, verified against a received one: expired exactly when the clock differs by more than the tolerance, else accepted if and only if both payloads have the same digest; another version's signer finds it malformed |
| Signer.HexInjective | core/internal/event/signer.go:155-158 | Different digests have different header texts |
| Signer.HexDigits | core/internal/event/signer.go:155-158 | Every byte is two lower-case hex digits, the high half first |
| Identicon.XorShiftUndone | kex-utils/pkg/kexavatar/identicon.go:226 | The xor-shift by 33 is its own inverse |
| Identicon.MixUndone | kex-utils/pkg/kexavatar/identicon.go:224-232 | The whole mixer is undone from either side |
| Identicon.HashIsABijection | kex-utils/pkg/kexavatar/identicon.go:224-232 | Distinct ids never share a hash, and every word is the hash of some id |
| Identicon.HashSteps | kex-utils/pkg/kexavatar/identicon.go:224-232 | The hash is those five steps on the id as an unsigned word: xor-shift, times one constant modulo 2^64, xor-shift, times the other, xor-shift |
| Identicon.XorShiftBits | kex-utils/pkg/kexavatar/identicon.go:226 | Every bit of the xor-shift is the exclusive or of that bit and the one 33 places up |
| Identicon.PatternSymmetric | kex-utils/pkg/kexavatar/identicon.go:207-217 | For every grid size the pattern is left-right symmetric, every cell is drawn, and each shows the stated bit of the hash |
| Identicon.DrawRow | kex-utils/pkg/kexavatar/identicon.go:208-216 | Draws exactly its row, cell by cell as specified, and no other |
| Identicon.GeneratePattern | kex-utils/pkg/kexavatar/identicon.go:198-220 | Every cell of the grid is that of the specified pattern of the id's hash |

## Left out

Outbox

- Outbox.WebhookRepository.ClaimPendingOutbox: one atomic step, as `FOR UPDATE SKIP LOCKED` makes it; rows another transaction has locked at that moment are not a case, nor is the SQLite path without row locks.
- LeaseTiming.ExclusiveIffFitsLease: stored times are exact to the nanosecond.
- Dispatcher.DispatchWithRetry: one HTTP call is an oracle; building the request, DNS, TLS, redirects, custom backoff functions and the text of errors are not modelled.
- Outbox.RetryBackoffExactIff: a float past 2^63 converts to the value amd64 gives.
- WebhookWorker.WebhookWorker.ProcessEntry: a hard stop of the worker appears in the protocol only as a crash or an unwritten mark.
- Outbox.WebhookRepository.FindActiveByEvent: tenant scoping of the query is not modelled, nor is the unused `claimed_at` column of the outbox.
- Polling intervals, start and stop of the worker, the dead-letter monitor, and the services' direct dispatch without the outbox.
- UUIDs are assumed not to repeat.

Key-value store

- TTL and expiry, `Keys`, `Stats`, `DeleteByPrefix`, and Redis's single-command `Increment`.
- SwiftStore.BadgerUpdate: a fault of the database, a closed store included, is assumed to have written nothing.
- SwiftJson.MutateJSON: callbacks and the JSON codec are functions of their arguments; they may fail, but do not write elsewhere.
- SwiftStore.IncrementReturnsItsRank: for fewer than 2^63 - 1 increments; beyond that the int64 wraps, which `BadgerIncrement` models.

Authorization

- Casbin is a set of g-rules; matching, persistence, policies and the enforcement calls are not modelled. Loading the stored policy is taken to drop every g-rule, as the caching of the inputs presumes.
- Assignments concurrent with a rebuild: the enforcer and the cache are not changed in one critical section, so agreement is stated for operations one at a time.
- GroupingIndex.Append: the new array's spare room is the model's choice.
- `InitRoleRegistry`, a rebuild without assignments, and the synchronisation of instances over events.

ABAC validator

- AbacParser.ValidateABACRule: the texts of errors are not modelled. A text with bytes outside ASCII that folds to a listed one is rejected here as in the code; `ConstantTruthsAreListed` is exact for ASCII text.
- AbacLexer.Lexer.NextToken: works on bytes, classified as the code classifies each byte as a rune below 256.

Signer and avatars

- Signer.VerifySignature: the HMAC is an arbitrary function to non-empty digests; nothing cryptographic is claimed, nor that the comparison takes constant time.
- Colours and rendering of avatars.

Other parts of the repository: tenant scoping through the ORM, the SMTP connection pool, the
message bus, SSO and captcha clients, JWT and encryption wrappers, record-only models and the
frontend.
