/**
 * The Realm-backed MQEmitter: an emitter that buffers the messages of its
 * configured topics, flushes them to the partition stores when enough time
 * has passed, re-writes them on every cleanup tick, compacts oversized
 * stores on every compaction tick and always forwards every message to the
 * base emitter unless it is closed.
 *
 * The environment is explicit: `now` is `Date.now()` in milliseconds, the
 * timers are the tick methods, the stores are the `writes` log of committed
 * transactions and the base emitter's delivery is the `forwarded` log.
 */
module Emitter {
  import opened Types
  import opened PartitionPool
  import opened BulkWriter
  import opened Compaction

  /** `_syncInterval`, in seconds. */
  const SyncIntervalSeconds: int := 5

  /** `_cleanupInterval` and `_compactionInterval`: the periods of the two ticks, in seconds. */
  const CleanupIntervalSeconds: int := 60
  const CompactionIntervalSeconds: int := 60 * 60

  /** The message of the error `emit` passes to its callback once closed. */
  const ClosedError: string := "mqemitter is closed"

  /** What `emit` does with its callback: fails it at once, or hands it to the base emitter. */
  datatype EmitResult = Rejected(error: string) | Forwarded

  /**
   * The inline flush test: not compacting, and more than the sync interval
   * elapsed since the last inline flush. For whole milliseconds `d`,
   * `d * 0.001 > 5` holds exactly when `d > 5000`.
   */
  predicate FlushDue(isCompacting: bool, lastSyncTimestamp: int, now: int)
  {
    !isCompacting && now - lastSyncTimestamp > SyncIntervalSeconds * 1000
  }

  /** The constructor's guard `opts && opts.schema && opts.topics`. */
  predicate Configured<R>(opts: Option<Options<R>>)
  {
    opts.Some? && opts.value.hasSchema && opts.value.topics.Some?
  }

  class RealmEmitter<R> {
    var registry: Registry<R>
    /** `_compactionThreshold` in megabytes; never set when the options are incomplete. */
    var compactionThreshold: Option<int>
    var pool: Pool
    var messages: seq<Message>
    var lastSyncTimestamp: int
    var isCompacting: bool
    var cleanupRunning: bool
    var compactionTimerRunning: bool
    var closed: bool

    /** Committed write transactions, across all partition stores, in commit order. */
    var writes: seq<WriteTx<R>>
    /** Messages handed to the base emitter's delivery, in order. */
    var forwarded: seq<Message>
    /** Partition values `compact()` was called on, in order. */
    var compactions: seq<string>

    /** Every message ever appended to the buffer, and those an inline flush drained. */
    ghost var accepted: seq<Message>
    ghost var drained: seq<Message>

    ghost predicate Valid()
      reads this
    {
      && registry.Valid()
      // only messages on configured topics are buffered
      && (forall m :: m in messages ==> m.topic in registry.topics)
      // the inline drain loses and repeats nothing
      && accepted == drained + messages
      // the cleanup timer is stopped while the compacting flag is set
      && Timers(isCompacting, cleanupRunning).Exclusive()
      && (compactionTimerRunning ==> compactionThreshold.Some?)
      && (compactionTimerRunning || closed ==>
            forall i :: 0 <= i < |registry.partitionValues| ==> registry.partitionValues[i] in pool.realms)
      // once closed, every configured store is closed
      && (closed ==> forall i :: 0 <= i < |registry.partitionValues| ==>
            registry.partitionValues[i] in pool.realms && !pool.IsOpen(registry.partitionValues[i]))
    }

    /**
     * `new RealmEmitter(opts)` at time `now`. `failAt` is the index whose
     * `new Realm(config)` throws, if any. Without a sync configuration the
     * assignment to `config.sync.partitionValue` throws at the first index.
     * Either exception is caught by the constructor: the realms opened so
     * far stay, and neither timer is started.
     */
    constructor (opts: Option<Options<R>>, now: int, failAt: Option<nat>)
      ensures Valid()
      ensures messages == [] && lastSyncTimestamp == now && !isCompacting && !closed
      ensures writes == [] && forwarded == [] && compactions == [] && pool.closeLog == []
      ensures accepted == [] && drained == []
      ensures !Configured(opts) ==>
        && registry == Registry([], [], []) && compactionThreshold == None
        && pool.realms == map[] && pool.openCount == 0
        && !cleanupRunning && !compactionTimerRunning
      ensures Configured(opts) ==>
        && registry == RegistryOf(opts.value.topics.value)
        && compactionThreshold == Some(EffectiveThreshold(opts.value.compactionThreshold))
        && pool.openCount == OpenedCount(|registry.partitionValues|, opts.value.realmUser, failAt)
        && pool.realms == OpenedPool(registry.partitionValues, pool.openCount)
        && cleanupRunning == compactionTimerRunning == (pool.openCount == |registry.partitionValues|)
    {
      if Configured(opts) {
        var reg := RegistryOf(opts.value.topics.value);
        var realms, openCount, ok := OpenRealms(reg.partitionValues, opts.value.realmUser, failAt);
        OpenedPoolShape(reg.partitionValues, openCount);
        if ok {
          forall i | 0 <= i < |reg.partitionValues| ensures reg.partitionValues[i] in realms {
            assert exists j :: 0 <= j < openCount && reg.partitionValues[j] == reg.partitionValues[i];
          }
        }
        registry := reg;
        compactionThreshold := Some(EffectiveThreshold(opts.value.compactionThreshold));
        pool := Pool(realms, openCount, []);
        cleanupRunning, compactionTimerRunning := ok, ok;
      } else {
        registry := Registry([], [], []);
        compactionThreshold := None;
        pool := Pool(map[], 0, []);
        cleanupRunning, compactionTimerRunning := false, false;
      }
      messages, lastSyncTimestamp := [], now;
      isCompacting, closed := false, false;
      writes, forwarded, compactions := [], [], [];
      accepted, drained := [], [];
    }

    /**
     * `emit(message, cb)` at time `now`. Once closed, the callback gets the
     * closed error and nothing else happens. Otherwise a message on a
     * configured topic is appended to the buffer and, when a flush is due,
     * the whole buffer (this message included) is synced and the buffer and
     * the timestamp are reset; every message is then forwarded.
     */
    method Emit(msg: Message, now: int) returns (r: EmitResult)
      requires Valid()
      modifies this
      ensures Valid()
      ensures old(closed) ==> r == Rejected(ClosedError) && unchanged(this)
      ensures !old(closed) ==> r == Forwarded && forwarded == old(forwarded) + [msg]
      ensures unchanged(this`registry, this`compactionThreshold, this`pool, this`isCompacting,
                        this`cleanupRunning, this`compactionTimerRunning, this`closed, this`compactions)
      ensures !old(closed) && msg.topic !in registry.topics ==>
        unchanged(this`messages, this`lastSyncTimestamp, this`writes)
      ensures !old(closed) && msg.topic in registry.topics && FlushDue(isCompacting, old(lastSyncTimestamp), now) ==>
        && writes == old(writes) + SyncWrites(registry, pool, old(messages) + [msg])
        && messages == [] && lastSyncTimestamp == now
      ensures !old(closed) && msg.topic in registry.topics && !FlushDue(isCompacting, old(lastSyncTimestamp), now) ==>
        && messages == old(messages) + [msg]
        && unchanged(this`lastSyncTimestamp, this`writes)
      ensures !old(closed) && msg.topic !in registry.topics ==> unchanged(this`accepted, this`drained)
      ensures !old(closed) && msg.topic in registry.topics ==> accepted == old(accepted) + [msg]
      ensures !old(closed) && msg.topic in registry.topics ==>
        drained == old(drained) + (if FlushDue(isCompacting, old(lastSyncTimestamp), now) then old(messages) + [msg] else [])
    {
      if closed {
        return Rejected(ClosedError);
      }
      Capture(msg, now);
      forwarded := forwarded + [msg];
      r := Forwarded;
    }

    /**
     * The `try` block of `emit`: buffering and the inline flush. `syncMessages`
     * catches its own exceptions, so nothing escapes this block.
     */
    method Capture(msg: Message, now: int)
      requires Valid() && !closed
      modifies this`messages, this`lastSyncTimestamp, this`writes, this`accepted, this`drained
      ensures Valid()
      ensures msg.topic !in registry.topics ==> unchanged(this`messages, this`lastSyncTimestamp, this`writes)
      ensures msg.topic in registry.topics && FlushDue(isCompacting, old(lastSyncTimestamp), now) ==>
        && writes == old(writes) + SyncWrites(registry, pool, old(messages) + [msg])
        && messages == [] && lastSyncTimestamp == now
      ensures msg.topic in registry.topics && !FlushDue(isCompacting, old(lastSyncTimestamp), now) ==>
        && messages == old(messages) + [msg]
        && unchanged(this`lastSyncTimestamp, this`writes)
      ensures msg.topic !in registry.topics ==> unchanged(this`accepted, this`drained)
      ensures msg.topic in registry.topics ==> accepted == old(accepted) + [msg]
      ensures msg.topic in registry.topics ==>
        drained == old(drained) + (if FlushDue(isCompacting, old(lastSyncTimestamp), now) then old(messages) + [msg] else [])
    {
      if msg.topic in registry.topics {
        messages := messages + [msg];
        accepted := accepted + [msg];
        if FlushDue(isCompacting, lastSyncTimestamp, now) {
          var txs := SyncMessages(registry, pool, messages);
          writes := writes + txs;
          drained := drained + messages;
          messages := [];
          lastSyncTimestamp := now;
        }
      }
    }

    /**
     * The loop of `close(cb)`: closes the realm registered under each
     * configured index, in order. A missing realm throws out of the loop;
     * `finished` says whether it ran to the end.
     */
    method CloseRealms() returns (finished: bool)
      requires Valid()
      modifies this`pool
      ensures Valid()
      ensures pool.realms == old(pool.realms) && pool.openCount == old(pool.openCount)
      ensures finished <==> FirstMissing(registry.partitionValues, pool.realms) == |registry.partitionValues|
      ensures pool.closeLog == old(pool.closeLog)
        + CloseOrder(registry.partitionValues[..FirstMissing(registry.partitionValues, pool.realms)], pool.realms)
      ensures finished ==> forall i :: 0 <= i < |registry.partitionValues| ==>
        registry.partitionValues[i] in pool.realms && !pool.IsOpen(registry.partitionValues[i])
    {
      var pvs := registry.partitionValues;
      ghost var missing := FirstMissing(pvs, pool.realms);
      for i := 0 to |pvs|
        invariant i <= missing
        invariant pool.realms == old(pool.realms) && pool.openCount == old(pool.openCount)
        invariant pool.closeLog == old(pool.closeLog) + CloseOrder(pvs[..i], pool.realms)
      {
        if pvs[i] !in pool.realms {
          return false;
        }
        assert pvs[..i + 1] == pvs[..i] + [pvs[i]];
        pool := pool.(closeLog := pool.closeLog + [pool.realms[pvs[i]]]);
      }
      assert pvs[..|pvs|] == pvs;
      forall i | 0 <= i < |pvs| ensures !pool.IsOpen(pvs[i]) {
        assert CloseOrder(pvs, pool.realms)[i] == pool.realms[pvs[i]];
      }
      finished := true;
    }

    /**
     * `close(cb)` as written. After the loop, the logout guard reads
     * `currentUser` of `realmUtils.app`, and the helper module `realmUtils`
     * exports no `app`: the read throws, so `closed` is never set and the
     * callback is never scheduled. The exception reaches the caller either
     * from a missing realm inside the loop (`inLoop`) or from the guard.
     */
    method Close() returns (inLoop: bool)
      requires Valid()
      modifies this`pool
      ensures Valid()
      ensures closed == old(closed)
      ensures pool.realms == old(pool.realms) && pool.openCount == old(pool.openCount)
      ensures inLoop <==> FirstMissing(registry.partitionValues, pool.realms) < |registry.partitionValues|
      ensures pool.closeLog == old(pool.closeLog)
        + CloseOrder(registry.partitionValues[..FirstMissing(registry.partitionValues, pool.realms)], pool.realms)
    {
      var finished := CloseRealms();
      inLoop := !finished;
    }

    /**
     * `close(cb)` as evidently intended: a helper module that does export
     * the Realm `app` (as the broker example's own helper does), so the
     * guard only logs out a signed-in user and the emitter is marked closed
     * once every realm was closed.
     */
    method CloseAndLogOut() returns (ok: bool)
      requires Valid()
      modifies this`pool, this`closed
      ensures Valid()
      ensures pool.realms == old(pool.realms) && pool.openCount == old(pool.openCount)
      ensures ok <==> FirstMissing(registry.partitionValues, pool.realms) == |registry.partitionValues|
      ensures pool.closeLog == old(pool.closeLog)
        + CloseOrder(registry.partitionValues[..FirstMissing(registry.partitionValues, pool.realms)], pool.realms)
      ensures closed == (old(closed) || ok)
    {
      ok := CloseRealms();
      if ok {
        closed := true;
      }
    }

    /**
     * One firing of the cleanup timer, every `CleanupIntervalSeconds`: the
     * current buffer is synced as it is, and neither cleared nor timestamped,
     * so the same messages are written again later. After a successful close
     * every write throws.
     */
    method CleanupTick()
      requires Valid()
      modifies this`writes
      ensures Valid()
      ensures unchanged(this`messages, this`lastSyncTimestamp)
      ensures cleanupRunning ==> writes == old(writes) + SyncWrites(registry, pool, messages)
      ensures !cleanupRunning ==> writes == old(writes)
      ensures closed ==> writes == old(writes)
    {
      if cleanupRunning {
        var txs := SyncMessages(registry, pool, messages);
        if closed {
          ClosedPoolWritesNothing(registry, pool, messages, |registry.partitionValues|);
        }
        writes := writes + txs;
      }
    }

    /**
     * One firing of the compaction timer, every `CompactionIntervalSeconds`,
     * given the size of each configured index's realm file and whether its
     * `compact()` returns or throws.
     */
    method CompactionTick(sizes: seq<nat>, compactOk: seq<bool>)
      requires Valid()
      requires |sizes| == |registry.partitionValues| && |compactOk| == |registry.partitionValues|
      modifies this`isCompacting, this`cleanupRunning, this`compactions
      ensures Valid()
      ensures !compactionTimerRunning ==> unchanged(this`isCompacting, this`cleanupRunning, this`compactions)
      ensures compactionTimerRunning ==>
        && compactions == old(compactions)
           + CompactTargets(registry.partitionValues, sizes, compactionThreshold.value, |sizes|)
        && Timers(isCompacting, cleanupRunning)
           == TimersAfter(old(Timers(isCompacting, cleanupRunning)), sizes, compactOk, compactionThreshold.value, |sizes|)
    {
      if !compactionTimerRunning {
        return;
      }
      var megabytes := compactionThreshold.value;
      ghost var start := Timers(isCompacting, cleanupRunning);
      for i := 0 to |sizes|
        invariant compactions == old(compactions) + CompactTargets(registry.partitionValues, sizes, megabytes, i)
        invariant Timers(isCompacting, cleanupRunning) == TimersAfter(start, sizes, compactOk, megabytes, i)
      {
        if sizes[i] >= ThresholdInBytes(megabytes) {
          isCompacting := true;
          cleanupRunning := false;
          compactions := compactions + [registry.partitionValues[i]];
          if compactOk[i] {
            isCompacting := false;
            cleanupRunning := true;
          }
        }
      }
      TimersStayExclusive(start, sizes, compactOk, megabytes, |sizes|);
    }
  }
}
