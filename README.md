# mqemitter-realm, modelled in Dafny

`mqemitter-realm` is an MQEmitter that also persists messages to MongoDB
Realm. Its `emit` keeps every message whose topic is configured in an
in-memory buffer. When more than five seconds have passed since the last
flush, and no compaction is in progress, it flushes the whole buffer to the
partition stores. One write transaction goes to each configured index `i`: it
lands on the realm of `partitionValues[i]` and creates one record per buffered
message on `topics[i]`, each passed through `transformers[i]`. A cleanup timer
writes the buffer again every minute without clearing it. An hourly compaction
timer compacts every store whose file has reached the size threshold. While it
does so, it stops the cleanup timer and sets a flag that suppresses the inline
flush. `close` closes every store and is meant to turn later `emit` calls into
errors, but as written it throws before it marks the emitter closed (see
"## Findings"), so `emit` keeps buffering and forwarding. Every message that is
not rejected is forwarded to the base emitter.

The model has six modules:

- `Types` holds messages, payloads (byte sequences), the topic configuration
  and the `Registry`: the three parallel arrays `_topics`, `_partitionValues`
  and `_transformers`. The record type is a type parameter. A transformer is a
  function from a payload to `Option<R>`, where `None` means that the
  transformer or `realm.create` threw.
- `PartitionPool` holds the map of open realms. A realm handle is the number of
  the `new Realm` call that made it. The module also holds the opening loop of
  the constructor and the closing order of `close`.
- `BulkWriter` holds `prepareBulkWrite` and `syncMessages`, both as loops.
  Each is proved against a specification function: `BulkRecords` is a filter
  followed by a map, and `SyncWrites` is a fold over the indices. The fold
  records committed, skipped and aborted indices.
- `Compaction` holds the threshold arithmetic, the partitions that one
  compaction tick compacts, the flags it leaves behind, and
  `shouldCompactOnLaunch`.
- `Emitter` holds the class `RealmEmitter`. Its fields are the registry, the
  pool, the buffer, the timestamp, the flags and three logs: committed
  transactions, forwarded messages and compacted partitions. Its methods are
  the constructor, `Emit`, `Close` (as written) beside `CloseAndLogOut` (as
  intended), and the two timer bodies `CleanupTick` and `CompactionTick`.
- `Scenarios` holds concrete runs that are proved from the method contracts
  alone.

The class invariant `Valid()` says four things:

- only configured topics are buffered;
- the inline drain loses no message and repeats none: the ghost log of
  accepted messages is always the drained ones followed by the buffer, and
  `Emit` states how each of the two logs grows;
- the cleanup timer never runs while the compacting flag is set;
- once the emitter is marked closed, every configured store is closed.

## Model

| member | source | states |
|---|---|---|
| Types.RegistryOf | mqemitter-realm.js:67-71 | The three arrays have the length of the `topics` option, and index `i` carries the name, partition value and transformer of the `i`-th topic entry. |
| PartitionPool.OpenRealms | mqemitter-realm.js:80-84 | The opening loop opens one realm per index, in order, and a repeated partition value overwrites the earlier entry. With no sync configuration, line 82 throws at the first index and nothing is opened. When `new Realm` throws at index `k`, exactly the first `k` are opened. The loop completes if and only if every index was opened. |
| PartitionPool.OpenedPoolShape | mqemitter-realm.js:80-84 | A partition value has a realm exactly when some opened index carries it. Its handle comes from the last such index. |
| PartitionPool.FirstMissing | mqemitter-realm.js:167-169 | Gives the first index whose partition value has no realm, which is where `close` throws, or the count when there is none. All earlier indices have a realm. |
| PartitionPool.DistinctClosedOnce | mqemitter-realm.js:166-170 | With distinct partition values, `close` closes every opened realm exactly once, in opening order. |
| PartitionPool.DuplicateLeaksAndClosesTwice | mqemitter-realm.js:80-84 | Suppose a partition value appears at indices `i < j`. Both indices then close the same realm, and the realm opened at `i` is never closed. |
| BulkWriter.Selected | mqemitter-realm.js:203-204 | Every selected message is on the index's topic. |
| BulkWriter.SelectedMembers | mqemitter-realm.js:203-204 | The messages offered to `create` are exactly the buffered messages whose topic equals the index's topic. |
| BulkWriter.SelectedConcat | mqemitter-realm.js:203-204 | The topic filter distributes over concatenation, so buffer order is kept. |
| BulkWriter.TransformAllAt | mqemitter-realm.js:203-207 | One record is created per selected message. The `k`-th record is the transform of the `k`-th selected message. |
| BulkWriter.BulkRecordsConcat | mqemitter-realm.js:203-207 | Suppose the transaction for a longer buffer succeeds. Then the transactions for both halves succeed, and its records are those of the first half followed by those of the second. |
| BulkWriter.PrepareBulkWrite | mqemitter-realm.js:200-209 | The loop creates exactly `BulkRecords`: the transformed messages on the topic, in buffer order. If any transform or create throws, nothing is created. |
| BulkWriter.SyncMessages | mqemitter-realm.js:211-237 | The loop commits exactly `SyncWrites`, one transaction per index in index order. An index is skipped when its partition has no realm or the whole buffer is empty. An exception ends the loop. |
| BulkWriter.AbortIsFinal | mqemitter-realm.js:219-236 | Once an index throws, no later index writes anything, because the `try` wraps the whole loop. |
| BulkWriter.EmptyBufferWritesNothing | mqemitter-realm.js:222 | An empty buffer opens no transaction at all. |
| BulkWriter.ClosedPoolWritesNothing | mqemitter-realm.js:221-223 | When every configured realm is closed, nothing is committed. |
| BulkWriter.HealthyRun | mqemitter-realm.js:220-232 | When the first `n` writes succeed, the loop over those indices commits exactly `HealthyTxs`, one transaction per index, and does not abort. |
| BulkWriter.HealthySync | mqemitter-realm.js:220-232 | Assume every realm is open, every transform succeeds and the buffer is non-empty. Then index `i` commits one transaction on `partitionValues[i]` holding exactly the records of `topics[i]`, even when that topic has no message. |
| BulkWriter.RewrittenAfterGrowth | mqemitter-realm.js:184-197 | When the buffer is written again after more messages arrive, each index's second transaction starts with all the records of its first. This is the duplication that the undrained cleanup path produces, for records whose primary keys do not clash (the example transformers draw a fresh ObjectID each time, so theirs do not); a clash is not modelled (see "## Left out"). |
| Compaction.EffectiveThreshold | mqemitter-realm.js:65 | An absent or zero option gives 100 MB. Any other value is kept. The result is never zero. |
| Compaction.CompactTargetsMembers | mqemitter-realm.js:87-106 | A tick calls `compact()` on a partition if and only if some index carries it and that index's file size is at least the threshold times 1e6 bytes. |
| Compaction.AllOversizedCompactsEach | mqemitter-realm.js:87-106 | When every file is oversized, every index is compacted once, in index order. |
| Compaction.NoneOversized | mqemitter-realm.js:99 | When no file is oversized, nothing is compacted and neither the flag nor the cleanup timer changes. |
| Compaction.LastCompactionDecides | mqemitter-realm.js:102-113 | The last oversized partition decides the outcome. If its `compact()` returns, the flag ends clear and the cleanup timer is running. If it throws, the flag stays set and the timer stays stopped. |
| Compaction.TimersStayExclusive | mqemitter-realm.js:103-110 | A compaction tick never leaves the compacting flag set while the cleanup timer runs. |
| Compaction.ShouldCompactOnLaunchAsWritten | mqemitter-realm.js:77 | The launch check as written compares the used size in bytes with the threshold in megabytes. It compacts every file that the periodic check would compact, and never a file whose byte count is at most the threshold's number. |
| Compaction.LaunchCheckDisagrees | mqemitter-realm.js:77 | Take a used size above the threshold's number but below the threshold in bytes. The launch check as written compacts it, while the periodic check would not. |
| Compaction.ShouldCompactOnLaunch | mqemitter-realm.js:73-78 | The launch check, with the unit conversion, compacts only files that the periodic check also compacts. It compacts every such file except one exactly at the threshold. |
| Emitter.RealmEmitter.constructor | mqemitter-realm.js:15-125 | Incomplete options leave nothing registered and no timers. Complete options register the topic arrays and the effective threshold, and open the realms. Both timers start only when every realm opened. In every case the buffer starts empty and the timestamp is `now`. |
| Emitter.RealmEmitter.Emit | mqemitter-realm.js:127-164 | When closed, `emit` returns the closed error and changes nothing. Otherwise it always forwards the message. An unregistered topic leaves the buffer, the timestamp and both ghost logs unchanged. A registered one is added to the accepted log. When a flush is due, the buffer plus the message is written, moves to the drained log, and the buffer is reset. When no flush is due, the message is appended and nothing is written or drained. |
| Emitter.RealmEmitter.Capture | mqemitter-realm.js:134-158 | This is the buffering and inline-flush block, with the same cases as `Emit`, including how the accepted and drained logs grow. It keeps the invariant that accepted messages are the drained ones followed by the buffer. |
| Emitter.RealmEmitter.CloseRealms | mqemitter-realm.js:167-170 | The realms of the configured indices are closed in index order, up to the first missing one. When none is missing, every configured realm ends closed. |
| Emitter.RealmEmitter.Close | mqemitter-realm.js:166-180 | `close` as written closes the realms up to the first missing one. It then throws, either at that missing realm or at the logout guard of line 172, so `closed` never changes. |
| Emitter.RealmEmitter.CloseAndLogOut | mqemitter-realm.js:166-180 | `close` as intended, with a helper module that exports the Realm app. The realms are closed as above, and `closed` is set exactly when none was missing. |
| Emitter.RealmEmitter.CleanupTick | mqemitter-realm.js:184-198 | While the cleanup timer runs, a tick writes `SyncWrites` of the current buffer. It does not clear the buffer or touch the timestamp. After a successful close, it writes nothing. |
| Emitter.RealmEmitter.CompactionTick | mqemitter-realm.js:86-116 | The tick compacts exactly `CompactTargets` and leaves the flags at `TimersAfter`. When the constructor did not start the compaction timer, it does nothing. |
| Scenarios.ScenarioWrites | mqemitter-realm.js:211-237 | Take a buffer of `a1 a2 a3 b4 b5 a6` with `a` on P1 and `b` on P2. P1 receives `1 2 3 6` and P2 receives `4 5`. |
| Scenarios.EmitWithoutFlush | mqemitter-realm.js:138-142 | A message on a registered topic is appended and nothing is written when no flush is due, that is while compacting or within five seconds of the last flush. |
| Scenarios.BufferWithinInterval | mqemitter-realm.js:135-142 | Five messages at one-second steps starting from a fresh emitter are all buffered, and none is written. |
| Scenarios.TwoPartitionFlush | mqemitter-realm.js:140-153 | The sixth message, six seconds in, flushes all six messages to their partitions and empties the buffer. |
| Scenarios.CompactionResumesFlushing | mqemitter-realm.js:99-110 | Both files are over a 25 MB threshold and both compactions succeed. Both partitions are then compacted in order, the flag is clear and the cleanup timer runs. |
| Scenarios.UnconfiguredBuffersNothing | mqemitter-realm.js:52 | Without a schema, a message is forwarded but never buffered. |
| Scenarios.EmitAfterClose | mqemitter-realm.js:172 | With `close` as written, both realms end closed but the emitter stays open. A later message is still buffered and forwarded. |
| Scenarios.ClosedRejects | mqemitter-realm.js:130-132 | With the corrected close, after a successful close `emit` returns the closed error and neither buffers nor forwards the message. |
| Scenarios.FailedCompactionSuppressesFlush | mqemitter-realm.js:102-113 | A throwing `compact()` leaves the flag set. A message long after the last flush is then buffered, not written, and the cleanup timer stays stopped. |

## Left out

- Realm itself is not modelled, and neither is `fs.statSync`. The realm's `write`, `create`, `compact`, `close` and `removeAllListeners` are abstract, as are the file sizes:
  - a store is a handle in the pool;
  - a committed transaction is an entry of the `writes` log;
  - file sizes and the outcome of each `compact()` are parameters of `CompactionTick`;
  - whether `new Realm` throws is the constructor's `failAt` parameter.
- `realm.write` is assumed to commit unless its realm is closed or a create throws; a commit that fails on its own is not modelled. `OutcomeAt`, and with it `HealthySync`, `ScenarioWrites` and `TwoPartitionFlush`, rest on that assumption.
- A `statSync` that throws is not modelled. For example, a realm file that is missing on disk escapes the interval callback uncaught.
- Timers are not modelled as such:
  - `setInterval` and `clearInterval` become the tick methods and the `cleanupRunning` and `compactionTimerRunning` flags;
  - the periods appear only as the constants `CleanupIntervalSeconds` and `CompactionIntervalSeconds`, cited by the tick methods;
  - `setImmediate` and the callback are not modelled, and `Emit` returns whether the callback was rejected or handed on.
- `Date.now()` becomes the `now` parameter in whole milliseconds. The floating-point test `elapsed * 0.001 > 5` becomes `elapsed > 5000`, which is exact for integer milliseconds.
- The base MQEmitter, and its fan-out to subscribers, becomes the `forwarded` log.
- The module-level `events.EventEmitter` that dispatches `sync_message` becomes a direct call to `SyncMessages`.
- Logging out the current Realm user in `close` is not modelled: it is network I/O. The guard before it is modelled, because as written it always throws (see "## Findings"). The authentication code is not modelled either.
- `console.log` output is not modelled.
- The schema is reduced to whether it is present. The schema name passed to `create` is not modelled. The constructor stores it in `schemaName`, while `_schemaName` stays `''`.
- A malformed message or topic entry is not modelled. For instance, a `null` message makes the `try` in `emit` catch a TypeError.
- `compactionThreshold` is not modelled as a floating-point number: the threshold is an integer number of megabytes.
- `realm.create` is assumed to succeed or fail regardless of what the store already holds; a primary-key clash when a cleanup tick or a later flush creates a buffered message again is not modelled.
- Transformers are pure functions of the payload. A transformer that depends on hidden state, such as generating a fresh ObjectID, is modelled by its outcome only.
- Calling `RealmEmitter` without `new` is not modelled.
- Timers that outlive `close` keep firing. The model keeps the ticks callable after close: cleanup writes then fail on closed realms, and compaction depends on its `compactOk` parameter.
- Behaviour of the code that the model keeps:
  - the cleanup tick does not drain the buffer;
  - there is one transaction per topic index, not one per partition;
  - an empty transaction is written when the buffer holds messages but none for that topic;
  - one failure aborts the remaining indices;
  - a failed compaction leaves the flag set;
  - `close` does not close every opened realm exactly once when partition values repeat;
  - `close` never marks the emitter closed, so `emit` never rejects;
  - a flush triggered by a message on `a` writes that message too: after `a1 a2 a3 b4 b5` and then `a6` six seconds in, P1 receives four records (`Scenarios.TwoPartitionFlush`).

## Findings

| source | as written | input that shows it | evidently intended | confidence | as-written member | corrected member |
|---|---|---|---|---|---|---|
| mqemitter-realm.js:77 | `usedSize > this._compactionThreshold` compares bytes with megabytes | default threshold 100, used size 101 bytes: compacts on launch although the periodic check (line 99) would not compact until 100,000,000 bytes | `usedSize > this._compactionThreshold * 1e6`, matching the unit used at line 92 | not executed | Compaction.ShouldCompactOnLaunchAsWritten, Compaction.LaunchCheckDisagrees | Compaction.ShouldCompactOnLaunch |
| mqemitter-realm.js:172 | `if (realmUtils.app.currentUser)`, where `realmUtils` is the helper module `./realm` (realm.js:5), which exports only `loginEmailPassword` | any emitter whose realms are all registered, e.g. topics a→P1 and b→P2: `close` closes both realms, then reading `currentUser` of `undefined` throws, so `closed` is never set and a later `emit` is buffered and forwarded instead of rejected | a helper module that exports the Realm `app` (as examples/broker/src/utils/realm.js:5 does), so that `close` logs out a signed-in user and then marks the emitter closed | not executed | Emitter.RealmEmitter.Close, Scenarios.EmitAfterClose | Emitter.RealmEmitter.CloseAndLogOut |
