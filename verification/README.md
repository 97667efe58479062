# PGApp core, modelled and verified

PGApp serves a message queue, a cache and a configuration centre from PostgreSQL. Its core is
Rust code around SQL statements: `MqStore`, `CacheStore` and `ConfigStore`. This project models
these stores, the deadline loops and the pagers, and proves what they promise over every run.

`dafny verify dfyconfig.toml` checks the whole project.

## How the model is built

Tables are maps and sequences. One SQL statement is one step on them. A store is a class whose
fields are its tables; each method carries the validation and error paths of the source and is
proved to perform the steps that the run-level theorems are about. The queue also carries the run of
all its statements as a ghost field, so these theorems show in the contracts of its methods. Operations made of several
statements are also taken apart, with the statements of other clients in between, guarded by the
row lock, the advisory lock or the unique key that the code relies on.

| files | contents |
|---|---|
| `MqTables`, `MqLedger`, `MqRuns` | statements of the queue, conservation, fencing, leases, metrics |
| `MqBound`, `MqLocking` | bounded redelivery, SKIP LOCKED |
| `MqLives` | rows told by their history: visibility, leases, dead-lettering, accepted tokens |
| `MqHistory`, `MqStore` | what the runs say about the store, the store itself |
| `CacheTable`, `CacheStore`, `CacheRuns` | the plain map behind the table, exact LRU, the store itself, whole sessions |
| `CacheTransactions`, `CacheInvalidation` | interleaved read-modify-write, races with invalidation |
| `ConfigTables`, `ConfigHistory`, `ConfigInterleaving`, `ConfigStore` | releases, drafts and schemas told by the commands, interleaved publishers, the store itself |
| `Polling`, `Paging`, `Text`, `Common` | deadline loops, pagers, decimal text and identifiers, finite sets |

Assumptions, each visible in the model:

- Message ids come from a sequence that never repeats (`MqLedger.FreshIds`). A message is never given the same
  token twice (`MqRuns.FreshTokens`); the token is random text hashed with MD5, and `read_count`
  restarts at 0 on reprocess, so this cannot be derived.
- There is one clock that never goes back, counted in milliseconds; `now()` is fixed within a statement. A claim may
  carry an older `now()` than the tables it meets (`MqRuns` needs only `MqTables.Clocked`).
- Unique keys and column defaults are those of `migrations/0001_cache.sql`, `0002_mq.sql`,
  `0004_config.sql`, `0005_dlq.sql` and `0007_config_schema.sql`.
- Cache limits are positive when given, as `crates/pgapp-core/src/config.rs:201-214` enforces.
- SHA-256, JSON syntax and JSON Schema validation are parameters. The hash is injective only where
  `CacheStoreOps.InjectiveHashNeverCollides` says so.
- A byte string is a sequence of characters, one per byte.

## Where the code falls short of its documentation

- Bounded redelivery. `read` runs two statements, and anything may happen in between. A message at its
  limit is then delivered once more if its lease lapses in the gap, if its holder sets a deadline that passes
  before the claim, or if another read brings it to the limit. `MqBound.LateOverruns`,
  `MqBound.CutShortOverruns` and `MqBound.CrossedOverruns` are such runs, in the last two of which no time passes;
  `MqBound.SplitReadExact` is the exact condition, and `MqBound.ReadCountBounded` the bound when the
  two statements share clock and state.
- Capacity after a write. `enforce_capacity` stops after a sweep that removed anything, so a
  namespace can stay over its limits. `CacheStoreOps.SetLeavesOverLimit` builds a store in which a `set` does that,
  `CacheStoreOps.SweepLeavesOverLimit` is the general case, `CacheStoreOps.WithinLimitsIff` the exact
  condition, on the table before the sweep.
- `docs/dlq.md` says that reprocessing keeps the headers; the INSERT names none. Nothing ever writes
  headers, and `MqLedger.Conservation` includes that every row has the default ones, so nothing is lost.
- Paging the dead-letter queue works exactly when `PGAPP_MAX_BATCH_SIZE` is positive, which the configuration does not
  enforce (`Paging.DlqComplete`, and `Paging.DlqWireComplete` for a client on the wire). The 0 that stands for
  "no more" is sent falsely exactly for a batch size of 0 at offset 0 of a list that is not empty, and for a batch
  size of -1 at offset 1 (`Paging.DlqUnambiguousIff`). The other pagers break only for a page size of 0 and for
  page sizes near or above the largest `i64` (`Paging.ListComplete`, `Paging.ListUnambiguousIff`).
- Reading back what was written. The documented scenario for storing and retrieving is that a get after a set returns the value.
  `set`, `append` and the like keep the last access of a row they overwrite, so a write that exceeds a limit can evict its
  own key. `CacheStoreOps.SetEvictsItsOwnKey` does it from an empty store; `CacheStoreOps.SurvivesIff` is the exact
  condition, carried by the contract of every write (`ReadsBack`). A row newer than all others of its namespace
  is lost only if it is too large by itself (`CacheStoreOps.NewestSurvivesIff`).
- `delete` tells whether a caller could see the key exactly when no expired row of that key was left
  (`CacheStoreOps.CacheStore.Delete`); otherwise it reports true for a missing key, as in
  `CacheStoreOps.DeleteReportsExpired`.
- `set` and `set_nx` take no advisory lock: a row of the same key that they create after a transaction has looked
  makes that transaction fail although alone it would succeed. `CacheTransactions.RepliesAsAloneIff` is the exact condition,
  `CacheTransactions.OvertakenByWriter` names the culprit in every run and `CacheTransactions.OvertakenRun`
  is one.

## Model

| member | source | states |
|---|---|---|
| MqTables.MoveToDlq | crates/pgapp-core/src/mq.rs:241-252 | Deleted rows leave the active table and appear in the dead-letter table under their own key; an existing dead-letter row wins |
| MqLedger.DlqMoveAccounted | crates/pgapp-core/src/mq.rs:622-658 | Moving any set of a queue's messages to the dead-letter table keeps every message in exactly one place, payload and enqueue time unchanged |
| MqLedger.ArchiveAccounted | crates/pgapp-core/src/mq.rs:445-458 | Archiving moves the message: one copy before, one after, nothing else touched |
| MqLedger.RequeueAccounted | crates/pgapp-core/src/mq.rs:332-343 | Reprocessing moves the message back with its id, payload and enqueue time |
| MqLedger.DropAccounted | crates/pgapp-core/src/mq.rs:126-137 | Dropping a queue discards exactly its own unfinished and archived messages, through the cascades |
| MqLedger.StepAccounted | crates/pgapp-core/src/mq.rs:95-658 | Every statement of the store keeps all issued messages accounted for |
| MqLedger.Conservation | crates/pgapp-core/src/mq.rs:117-658 | In every reachable state each issued id is in exactly one of active, dead-lettered, archived, acknowledged, discarded, with queue, payload and enqueue time of its send |
| MqRuns.InsertsNeverCollide | crates/pgapp-core/src/mq.rs:241-252 | In every run ON CONFLICT DO NOTHING swallows no message and neither send nor the explicit-id INSERT of reprocess meets an existing row |
| MqRuns.CompletedAtMostOnce | crates/pgapp-core/src/mq.rs:410-468 | No message id is acknowledged or archived twice in any run, not even across dead-letter and reprocess |
| MqRuns.TokenIsHolders | crates/pgapp-core/src/mq.rs:202-223 | The stored token is always the one of the latest delivery since the last reprocess, and null if there was none |
| MqRuns.Fencing | crates/pgapp-core/src/mq.rs:410-500 | A successful ack, archive or extension carries the token of the latest delivery, under an unexpired lease, and no other delivery ever had that token |
| MqRuns.ExclusiveLease | crates/pgapp-core/src/mq.rs:481-490 | Whatever event set a lease, a delivery or a renewal, the message is handed out again only after that deadline, unless its holder later shortened the lease or it was reprocessed |
| MqRuns.LeasesAreAvailable | crates/pgapp-core/src/mq.rs:207-215 | In every reachable state a leased message has passed its delivery delay |
| MqRuns.MetricsPartition | crates/pgapp-core/src/mq.rs:502-525 | Visible, in-flight and delayed rows are disjoint and add up to the active rows of the queue in every reachable state |
| MqBound.ReadCountBounded | crates/pgapp-core/src/mq.rs:201-223 | With atomic reads every active row of every reachable state has been read at most as often as its queue's limit |
| MqBound.DeliveredAtMostLimitTimes | crates/pgapp-core/src/mq.rs:201-223 | Between a send or reprocess and the next reprocess a message is delivered at most limit times |
| MqBound.ReadSpendsBudget | crates/pgapp-core/src/mq.rs:622-658 | The sum of limit + 1 - read_count over the queue strictly decreases on every read that delivers or dead-letters anything, and stays non-negative |
| MqBound.ClaimKeepsBoundIff | crates/pgapp-core/src/mq.rs:202-223 | A claim keeps the bound if and only if it takes no message that is at its limit |
| MqBound.SplitReadExact | crates/pgapp-core/src/mq.rs:201-223 | In every run, a read whose two statements are separated by any events of any clients keeps the bound if and only if every unlocked row at risk has `quantity` visible rows ahead of it |
| MqBound.VisibleIsAtRisk | crates/pgapp-core/src/mq.rs:201-223 | A row at the limit that the claim can see had its lease lapse since the dead-letter statement, or reset by its holder to a deadline already past, or was brought to the limit by another read meanwhile |
| MqBound.AtRiskIsVisible | crates/pgapp-core/src/mq.rs:201-223 | Each of these three makes a row at the limit visible to the claim |
| MqBound.LateOverruns | crates/pgapp-core/src/mq.rs:201-223 | A legal run in which a lease lapses between the two statements and a message of a limit-one queue is delivered twice |
| MqBound.CutShortOverruns | crates/pgapp-core/src/mq.rs:470-500 | The same without any time passing: the holder gives its lease up in between |
| MqBound.CrossedOverruns | crates/pgapp-core/src/mq.rs:201-223 | The same without any time passing: another whole read comes in between |
| MqLocking.LocksAreExclusive | crates/pgapp-core/src/mq.rs:204-213 | Under every interleaving no row is locked by two reads, and locked rows stay visible rows of their queue until updated |
| MqLocking.UpdateIsClaim | crates/pgapp-core/src/mq.rs:202-223 | Updating picked rows is one atomic claim that skipped what it did not hold |
| MqLocking.ContendedReadsAreAtomic | crates/pgapp-core/src/mq.rs:202-223 | Every interleaving of pick, update and other statements is a legal run of atomic statements with the same tables |
| MqLocking.OverlappingReadsDisjoint | crates/pgapp-core/src/mq.rs:204-213 | Reads that overlap in time return disjoint sets of messages |
| MqLives.RowByHistory | crates/pgapp-core/src/mq.rs:202-223 | Queue, availability, read count and lease of a row follow from the events since its send or reprocess: the delay in seconds, the number of deliveries, the last delivery or renewal |
| MqLives.VisibleIff | crates/pgapp-core/src/mq.rs:174-175 | A message can be seen exactly when its delay has passed, or at once after a reprocess, and the last lease given since is over |
| MqLives.DeadLetteredIff | crates/pgapp-core/src/mq.rs:622-658 | The dead-letter statement takes a message if and only if it can be seen and has been delivered since its send or last reprocess at least as often as the positive limit of its queue |
| MqLives.TokenByHistory | crates/pgapp-core/src/mq.rs:202-223 | The token of a row is that of the last delivery since its arrival, and null if there was none |
| MqLives.EntitledIsAccepted | crates/pgapp-core/src/mq.rs:410-500 | Whoever has the latest delivery of a message that is still active in the queue, under a lease that has not ended, passes the token test |
| MqLives.AcceptedIsEntitled | crates/pgapp-core/src/mq.rs:410-500 | And nobody else does |
| MqHistory.HolderIsLatest | crates/pgapp-core/src/mq.rs:410-500 | Whoever passes the token test holds the latest delivery, the only one with that token, of a message nobody has completed |
| MqHistory.BooksBalance | crates/pgapp-core/src/mq.rs:502-543 | All messages ever sent to a queue are its active, dead, archived, acknowledged and discarded ones, each counted once |
| MqHistory.QueueInNumbers | crates/pgapp-core/src/mq.rs:502-543 | The counts of a queue at any time after any legal history, partitioned and balanced against everything ever sent |
| MqHistory.LegalRead | crates/pgapp-core/src/mq.rs:191-232 | A read in one step continues a legal history and leaves every row within its limit |
| MqStoreOps.ReadSpelledOut | crates/pgapp-core/src/mq.rs:622-658 | The dead-letter statement removes exactly the rows that are neither delayed nor leased and whose read count has reached the positive limit; what the claim then sees is the rest of the undelayed, unleased rows |
| MqStoreOps.MqStore.constructor | crates/pgapp-core/src/mq.rs:83-93 | A store starts with empty tables and an empty history |
| MqStoreOps.MqStore.CreateQueue | crates/pgapp-core/src/mq.rs:95-115 | Fails exactly on a bad name or a disabled transient mode; an existing queue keeps its limit |
| MqStoreOps.MqStore.DropQueue | crates/pgapp-core/src/mq.rs:126-137 | Removes the name and, by cascade, the messages, dead letters and archive of that queue alone |
| MqStoreOps.MqStore.Send | crates/pgapp-core/src/mq.rs:545-569 | Which calls fail and how, nothing changed then; otherwise one new row, field by field, available after the delay, under an id that no row had |
| MqStoreOps.MqStore.SendBatch | crates/pgapp-core/src/mq.rs:150-189 | All or nothing: each payload is stored under its own new id, every other row is untouched, the ids come back in order |
| MqStoreOps.MqStore.DeadLetterDueMessages | crates/pgapp-core/src/mq.rs:622-658 | Moves exactly the rows that are neither delayed nor leased and whose read count has reached the positive limit |
| MqStoreOps.MqStore.ClaimVisible | crates/pgapp-core/src/mq.rs:202-229 | Takes visible unlocked rows, min(quantity, all) of them, none after one left out; each gets the new lease, its token and one more read, every other row is untouched |
| MqStoreOps.MqStore.MoveAndClaim | crates/pgapp-core/src/mq.rs:201-229 | Claims the first of the rows that are neither delayed, leased nor used up |
| MqStoreOps.MqStore.Read | crates/pgapp-core/src/mq.rs:191-232 | Errors change nothing. Otherwise the lowest ids among the undelayed, unleased, unlocked rows below the limit are returned, each leased under its token with one more read; rows at the limit become dead letters, field by field; every other row and dead letter is untouched |
| MqStoreOps.MqStore.Ack | crates/pgapp-core/src/mq.rs:410-434 | True exactly if the history entitles the caller: latest delivery, message still active in the queue, lease not ended; then nobody had completed the message before and the row is gone |
| MqStoreOps.MqStore.Archive | crates/pgapp-core/src/mq.rs:436-468 | True for the same callers, and then the row is in the archive, field by field |
| MqStoreOps.MqStore.SetVisibilityTimeout | crates/pgapp-core/src/mq.rs:470-500 | True for the same callers, and then the lease ends the given seconds from now and nothing else changes |
| MqStoreOps.MqStore.DeadLetter | crates/pgapp-core/src/mq.rs:234-261 | True exactly if the message was active, leased or not, and then its dead letter is new: the ON CONFLICT never applies |
| MqStoreOps.MqStore.ReprocessDlqMessage | crates/pgapp-core/src/mq.rs:325-351 | True exactly if a dead letter existed, and then the message is active again; the explicit id never collides, so only the queue name can be at fault |
| MqStoreOps.MqStore.PurgeQueue | crates/pgapp-core/src/mq.rs:117-124 | Deletes the active rows of the queue and nothing else |
| MqStoreOps.MqStore.PurgeDlq | crates/pgapp-core/src/mq.rs:353-361 | Deletes the dead-letter rows of the queue and returns their number |
| MqStoreOps.MqStore.SweepDlq | crates/pgapp-core/src/mq.rs:363-378 | Leaves exactly the dead letters that are not older than the retention, in days of 86,400,000 milliseconds, or all without a positive retention; returns the number deleted |
| MqStoreOps.MqStore.Measure | crates/pgapp-core/src/mq.rs:502-543 | Visible, in-flight and delayed rows add up to the active ones; with the dead, archived, acknowledged and discarded ones they add up to everything ever sent to the queue |
| CacheTable.ViewIsLookup | crates/pgapp-core/src/cache.rs:252-273 | A lookup by generation, hash and full key hits exactly what the plain map holds for that key, whatever the hash |
| CacheTable.ViewPut | crates/pgapp-core/src/cache.rs:68-102 | Writing a row is a map update, at the cost of one colliding key at most |
| CacheTable.ViewSweep | crates/pgapp-core/src/cache.rs:361-384 | Removing expired rows is invisible to every caller |
| CacheTable.ViewInvalidate | crates/pgapp-core/src/cache.rs:338-357 | Bumping the generation and deleting older rows empties one namespace and changes no other |
| CacheTable.ViewLater | crates/pgapp-core/src/cache.rs:252-273 | What callers see at a later time is what they see now without the items that expire in between |
| CacheTable.SurvivesEvictionIff | crates/pgapp-core/src/cache.rs:471-487 | A row survives the eviction loop if and only if removing all rows older than it is enough |
| CacheTable.ShortestPrefixUnique | crates/pgapp-core/src/cache.rs:471-487 | At most one set of rows is the shortest sufficient prefix in eviction order |
| CacheTable.NextVictim | crates/pgapp-core/src/cache.rs:471-487 | While a limit is exceeded, the least recently used row belongs to every sufficient prefix |
| CacheStoreOps.EnforcedDropsOnly | crates/pgapp-core/src/cache.rs:440-517 | Enforcing the capacity only drops keys of the written namespace |
| CacheStoreOps.DoomedUnique | crates/pgapp-core/src/cache.rs:361-384 | The sweep has no choice if the expired rows make one batch or their expiry times differ |
| CacheStoreOps.WithinLimitsIff | crates/pgapp-core/src/cache.rs:440-517 | On the table before the sweep: the namespace is sure to end within both limits if and only if nothing in the whole cache has expired or it fits without whichever batch the sweep may take; where that batch is unique the outcome is decided by it, and with at most one batch of expired rows it is whether the namespace fits without them |
| CacheStoreOps.SweepLeavesOverLimit | crates/pgapp-core/src/cache.rs:441-444 | A new key in a namespace that holds its number of live keys, while anything has expired, leaves it over the limit |
| CacheStoreOps.SetLeavesOverLimit | crates/pgapp-core/src/cache.rs:441-444 | From an empty store, three calls of set leave a namespace over its key limit |
| CacheStoreOps.WriteThenEnforce | crates/pgapp-core/src/cache.rs:68-105 | A written row and enforced capacity are a map update followed by drops in that namespace; the limits hold or the table did not grow and something had expired |
| CacheStoreOps.SurvivesIff | crates/pgapp-core/src/cache.rs:440-517 | A live row of the written namespace is left if and only if something had expired or it fits together with all rows that are not older |
| CacheStoreOps.ReadBackIff | crates/pgapp-core/src/cache.rs:68-105 | The same as callers see it: exactly when the written key can be read back |
| CacheStoreOps.NewestSurvivesIff | crates/pgapp-core/src/cache.rs:471-487 | The newest row of a namespace is lost only if it exceeds the byte limit by itself |
| CacheStoreOps.SetEvictsItsOwnKey | crates/pgapp-core/src/cache.rs:85-92 | From an empty store, a set that returns Ok and whose key is gone afterwards while a newer key stays |
| CacheStoreOps.DeleteReportsExpired | crates/pgapp-core/src/cache.rs:312-336 | From an empty store, a delete that reports true for a key that no caller could see |
| CacheStoreOps.UnlimitedWriteIsExact | crates/pgapp-core/src/cache.rs:440-517 | Without limits and collisions a write is a map update and nothing else, sweep or no sweep |
| CacheStoreOps.InjectiveHashNeverCollides | crates/pgapp-core/src/validation.rs:72-76 | With an injective hash no key ever takes another key's slot |
| CacheStoreOps.CacheStore.constructor | crates/pgapp-core/src/cache.rs:49-51 | A store starts empty, with positive limits |
| CacheStoreOps.CacheStore.EnsureNamespace | crates/pgapp-core/src/cache.rs:519-531 | Creates the namespace at generation 0 if missing; no caller sees a difference |
| CacheStoreOps.CacheStore.SweepExpired | crates/pgapp-core/src/cache.rs:361-384 | Deletes expired rows, as many as the batch allows or all, none of which expired after one that is left; no caller sees a difference |
| CacheStoreOps.CacheStore.ByteSize | crates/pgapp-core/src/cache.rs:496-506 | The sum of the sizes of the given rows |
| CacheStoreOps.CacheStore.LeastRecentlyUsed | crates/pgapp-core/src/cache.rs:471-487 | No row was used before the victim, and none used at the same time has a lower id |
| CacheStoreOps.CacheStore.EvictUntilWithinLimits | crates/pgapp-core/src/cache.rs:449-514 | The loop ends, and the rows it removed are exactly the shortest prefix in (last_accessed_at, id) order that brings the namespace within both limits; every one of them precedes every row that is left |
| CacheStoreOps.CacheStore.EnforceCapacity | crates/pgapp-core/src/cache.rs:440-517 | A sweep if anything had expired anywhere, else exact eviction in the namespace |
| CacheStoreOps.CacheStore.WriteRow | crates/pgapp-core/src/cache.rs:68-105 | The new table is the old one with the row written and cut to capacity |
| CacheStoreOps.CacheStore.Set | crates/pgapp-core/src/cache.rs:53-107 | A map update, then drops in the namespace only; the exact table; exactly when the value can be read back, and until which millisecond; an overwritten row keeps id and last access |
| CacheStoreOps.CacheStore.ReadForUpdate | crates/pgapp-core/src/cache.rs:704-757 | Returns the unexpired row of exactly this key; deletes it if expired, invisibly |
| CacheStoreOps.CacheStore.Begin | crates/pgapp-core/src/cache.rs:588-591 | What a transaction reads is what the map holds for its key; preparing changes nothing that callers see |
| CacheStoreOps.CacheStore.Save | crates/pgapp-core/src/cache.rs:773-842 | Updating the row that was read or inserting into the free slot gives one exact table, seen as a map update with drops in the namespace |
| CacheStoreOps.CacheStore.Transact | crates/pgapp-core/src/cache.rs:588-620 | Reads what the map holds, writes what is computed from it, or fails and leaves the table as it was; exactly when the value can be read back |
| CacheStoreOps.CacheStore.GetSet | crates/pgapp-core/src/cache.rs:186-225 | Returns the map's old value and stores the new one, visible until its TTL ends; fails only on bad arguments or a hash collision |
| CacheStoreOps.CacheStore.AddInteger | crates/pgapp-core/src/cache.rs:575-624 | The exact sum, in decimal, visible until the TTL ends or, without one, until the previous deadline; fails exactly on bad arguments, a collision, text that is no number or overflow, changing nothing |
| CacheStoreOps.CacheStore.Decrement | crates/pgapp-core/src/cache.rs:119-130 | Adds the negated delta; fails in addition exactly for the smallest i64 |
| CacheStoreOps.CacheStore.Concat | crates/pgapp-core/src/cache.rs:626-676 | Stores the map's value followed by the new one, or the other way round for prepend, or the new one alone; visible until its TTL ends; returns the new length |
| CacheStoreOps.CacheStore.SetNx | crates/pgapp-core/src/cache.rs:132-184 | Creates exactly if no caller could see the key and its slot was free; exactly when the value can be read back, and until which millisecond |
| CacheStoreOps.CacheStore.Get | crates/pgapp-core/src/cache.rs:249-294 | Returns what the map holds for this very key and marks only that row as used |
| CacheStoreOps.CacheStore.Delete | crates/pgapp-core/src/cache.rs:312-336 | Removes the key from the map; the result tells whether a caller could see it if and only if no expired row of it was left |
| CacheStoreOps.CacheStore.InvalidateNamespace | crates/pgapp-core/src/cache.rs:338-359 | Empties the namespace for every caller and deletes all its rows |
| CacheRuns.NeverInvents | crates/pgapp-core/src/cache.rs:53-384 | Over every sequence of operations with time passing in between, whatever the cache shows the plain map with expiry holds, with the same value and expiry |
| CacheRuns.ForgetsOnlyByDrops | crates/pgapp-core/src/cache.rs:440-517 | A key the plain map still holds is missed only because a write to its namespace dropped it and it has not been written since |
| CacheRuns.WithoutDropsExact | crates/pgapp-core/src/cache.rs:53-384 | A session in which no write drops anything is the plain map |
| CacheTransactions.LockWaitsIff | crates/pgapp-core/src/cache.rs:759-771 | A transaction waits for the lock exactly while another one on the same namespace, generation and hash is under way |
| CacheTransactions.ApplySpelledOut | crates/pgapp-core/src/cache.rs:588-676 | What each kind of transaction stores and answers, case by case, for a visible value, none, and a slot taken by another key |
| CacheTransactions.CommitIsAtomic | crates/pgapp-core/src/cache.rs:588-620 | A transaction that replies did what it would have done alone at its commit, one that fails changed nothing, even with writers outside the lock |
| CacheTransactions.CellIsReplay | crates/pgapp-core/src/cache.rs:588-676 | In every legal run, whatever writes the slot, its content is the replay in event order of the replying transactions and all other writes and removals, and each transaction replied what it would have replied at that place |
| CacheTransactions.RepliesAsAloneIff | crates/pgapp-core/src/cache.rs:588-620 | A transaction answers as it would alone at its commit if and only if no row of its key appeared where it had found none; otherwise it fails |
| CacheTransactions.OvertakenByWriter | crates/pgapp-core/src/cache.rs:53-107 | In every run such a failure follows a write to the slot by set or set_nx after the transaction's own purge |
| CacheTransactions.OvertakenRun | crates/pgapp-core/src/cache.rs:588-620 | A legal run in which an increment fails that alone would answer 6 |
| CacheTransactions.EndInLockOrder | crates/pgapp-core/src/cache.rs:759-771 | On every slot and in every stretch of every run transactions end in the order in which they got the lock |
| CacheTransactions.NoLostUpdates | crates/pgapp-core/src/cache.rs:199-221 | In every stretch of a run in which only transactions write the slot, every interleaving gives the replies and the final value of running them one by one in lock order, from what the slot held before |
| CacheTransactions.CountsExactly | crates/pgapp-core/src/cache.rs:592-620 | Counting through stored decimal text, in whatever form, is counting on integers with the i64 range check |
| CacheTransactions.CounterIsExact | crates/pgapp-core/src/cache.rs:592-620 | From any count, any sequence of increments fails exactly where the exact sum leaves i64, and then changes nothing |
| CacheTransactions.PrefixSums | crates/pgapp-core/src/cache.rs:592-620 | Increments without expiry of a counter without expiry return the running sums as long as these fit |
| CacheTransactions.InterleavedIncrements | crates/pgapp-core/src/cache.rs:588-620 | In every stretch of a run in which only increments write the slot, however they interleave, they return the running sums in lock order from what the slot held before, and the last sum stays stored |
| CacheTransactions.InterleavedJoins | crates/pgapp-core/src/cache.rs:640-673 | In every stretch of a run in which only appends write the slot, the value is the old one followed by the appended values in lock order; mirrored for prepends |
| CacheTransactions.InterleavedExchanges | crates/pgapp-core/src/cache.rs:199-221 | In every stretch of a run in which only exchanges write the slot, each returns the value of the one before it in lock order, and the last value stays |
| CacheInvalidation.GenerationsGrow | crates/pgapp-core/src/cache.rs:338-357 | Generations never go down and every invalidation raises them |
| CacheInvalidation.EverythingSound | crates/pgapp-core/src/cache.rs:63-102 | Every row and every pending request carries the generation that was current when its client read it |
| CacheInvalidation.NoStaleRead | crates/pgapp-core/src/cache.rs:252-273 | A read that began after an invalidation only returns values whose writer began after it too, and only for its own key |
| CacheInvalidation.OrphansStayInvisible | crates/pgapp-core/src/cache.rs:252-273 | A row left under an old generation is returned to no read that starts later |
| CacheInvalidation.InvalidateDeletesOrphans | crates/pgapp-core/src/cache.rs:338-357 | The next invalidation deletes such rows |
| Decimal.ParsePrint | crates/pgapp-core/src/cache.rs:697-702 | Parsing the printed text of any i64 gives it back |
| Decimal.ParseIff | crates/pgapp-core/src/cache.rs:697-702 | A value parses to a number if and only if it is an optional sign followed by digits of that value, within i64 |
| Decimal.LeadingZero | crates/pgapp-core/src/cache.rs:697-702 | Leading zeros do not change the number |
| Validation.LockKeyInjective | crates/pgapp-core/src/cache.rs:759-771 | Different (namespace, generation, hash) triples have different lock strings |
| Validation.ValidIdentifierIff | crates/pgapp-core/src/validation.rs:78-107 | An identifier is accepted exactly if it has 1 to 128 characters, all of them ASCII letters, digits, underscores or dashes, and starts with neither a digit nor a dash |
| Validation.IdentifierHasNoColon | crates/pgapp-core/src/validation.rs:78-107 | An accepted identifier contains no colon |
| ConfigTables.RevisionsAreDense | crates/pgapp-core/src/config_center.rs:255-325 | In every reachable state a scope's revisions are exactly 1 to current_revision |
| ConfigTables.ReleasesAreImmutable | crates/pgapp-core/src/config_center.rs:290-314 | A published release stays and never changes |
| ConfigTables.PublishFailsOnlyOnSchema | crates/pgapp-core/src/config_center.rs:255-314 | A publish commits exactly if all drafts satisfy the schema; the unique revision never gets in the way |
| ConfigTables.LatestIsCurrent | crates/pgapp-core/src/config_center.rs:468-493 | The newest release above a known revision is the current one, or there is none |
| ConfigTables.OnlyPublishIsVisible | crates/pgapp-core/src/config_center.rs:327-380 | Draft edits, schema changes, failed publishes and other scopes never alter what get_release returns |
| ConfigTables.SnapshotsAreSound | crates/pgapp-core/src/config_center.rs:255-314 | Every release is the snapshot of the non-deleted drafts at its publish, all valid under the schema of that moment |
| ConfigHistory.SchemaByHistory | crates/pgapp-core/src/config_center.rs:155-176 | The schema of a scope is the last one set, or none |
| ConfigHistory.CommitsIffAccepted | crates/pgapp-core/src/config_center.rs:124-153 | An upsert commits exactly if the schema set last for its scope allows the value |
| ConfigHistory.DraftByHistory | crates/pgapp-core/src/config_center.rs:133-151 | The draft of a key is the value of its last accepted edit, deleted if that was a deletion, and absent if there was none |
| ConfigHistory.ReleaseByHistory | crates/pgapp-core/src/config_center.rs:255-314 | Every release was published by a command and holds a key if and only if its last accepted edit before that command was an upsert, with that upsert's value, all valid under the schema set last |
| ConfigHistory.PublishesIff | crates/pgapp-core/src/config_center.rs:255-314 | A publish adds a release if and only if every value the edits left satisfies the schema set last for the scope |
| ConfigInterleaving.FinishIsAtomic | crates/pgapp-core/src/config_center.rs:595-615 | A transaction that holds its scope row finishes as if it had run in one step |
| ConfigInterleaving.Serializable | crates/pgapp-core/src/config_center.rs:595-615 | Every interleaving has the effect of the finished transactions one at a time in commit order |
| ConfigInterleaving.ImmutableUnderInterleaving | crates/pgapp-core/src/config_center.rs:246-325 | Under every interleaving a published release stays and never changes |
| ConfigInterleaving.OnlyPublishIsVisibleInterleaved | crates/pgapp-core/src/config_center.rs:327-380 | Under every interleaving no event but a committing publish of the scope alters what get_release returns |
| ConfigInterleaving.DenseUnderInterleaving | crates/pgapp-core/src/config_center.rs:246-325 | Under every interleaving a scope's revisions are exactly 1 to current_revision |
| ConfigInterleaving.ReleasesUnderInterleaving | crates/pgapp-core/src/config_center.rs:246-325 | Under every interleaving each release holds exactly what the edits that finished before its publish left, valid under the schema set last before it |
| ConfigStoreOps.ConfigStore.constructor | crates/pgapp-core/src/config_center.rs:89-91 | A store starts with empty tables |
| ConfigStoreOps.ConfigStore.UpsertItem | crates/pgapp-core/src/config_center.rs:124-153 | Fails exactly on bad arguments or a value that violates the schema, changing nothing; otherwise the key has that value and nothing else changes |
| ConfigStoreOps.ConfigStore.DeleteItem | crates/pgapp-core/src/config_center.rs:196-215 | Marks the key deleted, whether or not it existed, and reports true |
| ConfigStoreOps.ConfigStore.SetSchema | crates/pgapp-core/src/config_center.rs:155-176 | Fails exactly on a bad scope, an oversized or malformed schema; otherwise the scope has that schema and keeps its revision |
| ConfigStoreOps.ConfigStore.BuildSnapshot | crates/pgapp-core/src/config_center.rs:276-289 | The loop succeeds exactly if every row satisfies the schema, and then copies all rows |
| ConfigStoreOps.ConfigStore.Publish | crates/pgapp-core/src/config_center.rs:246-325 | Fails exactly on bad arguments or a live draft that the schema does not allow; otherwise the next revision holds every live draft with its value and is at once the latest |
| ConfigStoreOps.ConfigStore.Fetch | crates/pgapp-core/src/config_center.rs:327-380 | A non-positive revision gives the release with the highest revision, another one that release, or not found |
| Polling.ReadWithNotifyOrPoll | crates/pgapp-server/src/lib.rs:1019-1073 | Ends for finitely many notifications; earlier reads leased nothing and the last one's messages are returned; empty only at the deadline; overrun only if LISTEN broke, by at most one interval, apart from the last read itself |
| Polling.ReadWithPoll | crates/pgapp-core/src/mq.rs:380-408 | The same for the polling loop, which may overrun by less than an interval |
| Polling.Watch | crates/pgapp-core/src/config_center.rs:417-466 | Fails exactly on bad arguments; returns the newest release above the known one at the first poll that finds any; unchanged only at the deadline; at most ceil(timeout/interval) + 1 polls, overrunning by less than an interval and the last poll |
| Polling.NewestAtOnce | crates/pgapp-core/src/config_center.rs:441-466 | A call made while a newer release exists returns the newest on its first poll |
| Polling.SessionIncreases | crates/pgapp-core/src/config_center.rs:417-466 | A client that watches with the last revision it received sees strictly increasing revisions |
| Paging.FollowsAll | crates/pgapp-core/src/admin.rs:377-390 | Over a pager that returns windows, following next_offset yields every remaining item once, in order |
| Paging.ListWindows | crates/pgapp-core/src/admin.rs:350-368 | The listing pagers return windows of the capped limit |
| Paging.ListPageSize | crates/pgapp-core/src/config_center.rs:553-593 | A page holds no more items than the limit and no more than the page size |
| Paging.DlqPageSize | crates/pgapp-core/src/mq.rs:610-620 | A page holds no more items than a positive limit and no more than max_batch_size |
| Paging.ListComplete | crates/pgapp-core/src/config_center.rs:553-593 | Following next_offset from 0 lists everything in order if and only if the capped limit is positive and leaves room for the extra row (or the list is empty and the cap 0 or cast to -1) |
| Paging.DlqWindows | crates/pgapp-core/src/mq.rs:263-301 | The dead-letter pager returns windows for every positive batch size |
| Paging.DlqComplete | crates/pgapp-core/src/mq.rs:610-620 | Following next_offset lists the dead-letter queue if and only if max_batch_size is positive, or 0 over an empty queue |
| Paging.ZeroMeansTheEnd | crates/pgapp-server/src/lib.rs:1105 | A pager that returns windows points above its page and below the total, so the sum cannot overflow and 0 on the wire always means the end |
| Paging.ZeroIsAmbiguous | crates/pgapp-server/src/lib.rs:857 | Batch size 0 at offset 0 and batch size -1 at offset 1 both send a 0 with nothing shown |
| Paging.DlqUnambiguousIff | crates/pgapp-server/src/lib.rs:857 | For every batch size, list, limit and offset: the 0 on the wire means the end unless the batch size is 0 at offset 0 of a non-empty list, or -1 at offset 1 |
| Paging.ListUnambiguousIff | crates/pgapp-server/src/lib.rs:1246 | For every page size, list, limit and offset: it means the end unless the page size is 0 on the first page of a non-empty list |
| Paging.DlqWireComplete | crates/pgapp-server/src/lib.rs:835-857 | A client that stops at 0 gets the whole dead-letter queue if and only if max_batch_size is positive, or 0 over an empty queue |
| Paging.ListWireComplete | crates/pgapp-server/src/lib.rs:1092-1105 | A client that stops at 0 gets the whole list exactly when a client that sees the option does |

## Left out

- gRPC handlers, authentication, admin HTTP routes, the React UI, SDKs and generated protobuf code: plumbing over the stores.
- PostgreSQL itself, SQLx, pools, LISTEN/NOTIFY delivery: a notification is only a possible early wake-up.
- SHA-256, MD5, Argon2, JSON parsing and JSON Schema validation: parameters of the model.
- Statistics counters, `access_count`, `updated_at`, `last_read_at`, the oldest-message age of `metrics`, checksums of releases and `published_at`: bookkeeping that nothing reads back.
- The filters and joins of the listings and of `get_draft`, `get_schema`, `get_dlq_message`, `stats`, `mget` and `exists`: plain queries. Paging works on the list a query selects.
- The order of rows in the result of `read`: RETURNING promises none, so the result is a map from ids to rows.
- Crashes and cancellation between the statements of an operation: a claim without its caller is a lease that runs out, like any other.
- Concurrent eviction: the eviction loop of the class runs alone; interleaved with writers only its deletions are modelled, as removals in `CacheTransactions` and `CacheInvalidation`.
- MqStoreOps.MqStore.Read: both statements share one clock and one state here; what happens when they do not is in `MqBound` and `MqLocking`.
- Polling.ReadWithNotifyOrPoll: a completed sleep takes exactly the time asked for, here and in the other loops; the durations of connecting, of reads and polls and between clock readings are arbitrary.
- Polling.Watch: an unchanged result may name a revision above the known one if a publish lands between the two queries of the last poll; the contract says which tables it comes from.
- Text outside ASCII: lengths count characters where the source counts bytes, and only ASCII white space makes a token blank.
- The widths of ids, `read_count`, revisions, generations, sizes and times: unbounded here. Cached counters, page limits and offsets have their 64-bit ranges.
- Parsing the environment into limits: the limits are parameters, and where a theorem depends on their range it says so.
- Client credentials, admin logs and the metrics registry: rows that are written and listed, on which no other operation depends.
