/**
 * Two runs of the emitter, stated and proved from the method contracts
 * alone: a two-partition flush, and a compaction that hands control back
 * to the flush timers.
 */
module Scenarios {
  import opened Types
  import opened PartitionPool
  import opened BulkWriter
  import opened Compaction
  import opened Emitter

  function Identity(payload: Payload): Option<Payload>
  {
    Some(payload)
  }

  function TwoTopics(): seq<TopicConfig<Payload>>
  {
    [TopicConfig("a", Identity, "P1"), TopicConfig("b", Identity, "P2")]
  }

  /** The payloads of `sel`, in order. */
  function Payloads(sel: seq<Message>): seq<Payload>
  {
    seq(|sel|, k requires 0 <= k < |sel| => sel[k].payload)
  }

  /** The identity transform never throws and keeps every payload. */
  lemma {:induction false} IdentityKeepsPayloads(sel: seq<Message>)
    ensures TransformAll(sel, Identity) == Some(Payloads(sel))
  {
    if sel == [] {
      assert Payloads(sel) == [];
    } else {
      var init, last := sel[..|sel| - 1], sel[|sel| - 1];
      IdentityKeepsPayloads(init);
      var transform: Transform<Payload> := Identity;
      assert transform(last.payload) == Some(last.payload);
      assert Payloads(sel) == Payloads(init) + [last.payload];
    }
  }

  /**
   * A buffer made of a run on `x`, a run on `y` and a run on `x` selects,
   * for `x`, the two outer runs and, for `y`, the middle one.
   */
  lemma SelectedOfRuns(first: seq<Message>, middle: seq<Message>, last: seq<Message>, x: string, y: string)
    requires x != y
    requires forall k :: 0 <= k < |first| ==> first[k].topic == x
    requires forall k :: 0 <= k < |middle| ==> middle[k].topic == y
    requires forall k :: 0 <= k < |last| ==> last[k].topic == x
    ensures Selected(first + middle + last, x) == first + last
    ensures Selected(first + middle + last, y) == middle
  {
    assert Selected(first + middle + last, x) == first + last by {
      SelectedConcat(first + middle, last, x);
      SelectedConcat(first, middle, x);
      SelectedAllOnTopic(first, x);
      SelectedNoneOnTopic(middle, x);
      SelectedAllOnTopic(last, x);
      assert first + [] == first;
    }
    assert Selected(first + middle + last, y) == middle by {
      SelectedConcat(first + middle, last, y);
      SelectedConcat(first, middle, y);
      SelectedNoneOnTopic(first, y);
      SelectedAllOnTopic(middle, y);
      SelectedNoneOnTopic(last, y);
      assert [] + middle + [] == middle;
    }
  }

  /** What one sync of the scenario's buffer commits on a freshly opened pool. */
  lemma ScenarioWrites(reg: Registry<Payload>, pool: Pool, buffer: seq<Message>)
    requires reg == RegistryOf(TwoTopics()) && pool == Pool(OpenedPool(["P1", "P2"], 2), 2, [])
    requires buffer == [Message("a", [1]), Message("a", [2]), Message("a", [3]),
                        Message("b", [4]), Message("b", [5]), Message("a", [6])]
    ensures SyncWrites(reg, pool, buffer) == [WriteTx("P1", [[1], [2], [3], [6]]), WriteTx("P2", [[4], [5]])]
  {
    assert reg.partitionValues == ["P1", "P2"] && reg.topics == ["a", "b"];
    assert reg.transformers == [Identity, Identity];
    assert pool.realms == map["P1" := 0, "P2" := 1];
    var first, middle, last := buffer[..3], buffer[3..5], buffer[5..];
    assert buffer == first + middle + last;
    SelectedOfRuns(first, middle, last, "a", "b");
    IdentityKeepsPayloads(first + last);
    IdentityKeepsPayloads(middle);
    assert first + last == [Message("a", [1]), Message("a", [2]), Message("a", [3]), Message("a", [6])];
    assert Payloads(first + last) == [[1], [2], [3], [6]];
    assert middle == [Message("b", [4]), Message("b", [5])];
    assert Payloads(middle) == [[4], [5]];
    HealthySync(reg, pool, buffer, 2);
  }

  /** The messages of the two-partition run, in arrival order. */
  function FlushRun(): seq<Message>
  {
    [Message("a", [1]), Message("a", [2]), Message("a", [3]),
     Message("b", [4]), Message("b", [5]), Message("a", [6])]
  }

  /**
   * One message on a registered topic when no flush is due (compacting, or
   * within the sync interval of the last flush): it is buffered and nothing
   * is written.
   */
  method EmitWithoutFlush(e: RealmEmitter<Payload>, msg: Message, now: int)
    requires e.Valid() && !e.closed
    requires msg.topic in e.registry.topics && !FlushDue(e.isCompacting, e.lastSyncTimestamp, now)
    modifies e
    ensures e.Valid() && !e.closed
    ensures e.messages == old(e.messages) + [msg]
    ensures unchanged(e`registry, e`pool, e`lastSyncTimestamp, e`writes, e`isCompacting, e`cleanupRunning)
  {
    var r := e.Emit(msg, now);
  }

  /**
   * A fresh emitter on the two topics receives the first five messages of
   * the run within one sync interval: all are buffered, none is written.
   */
  method BufferWithinInterval() returns (e: RealmEmitter<Payload>)
    ensures fresh(e) && e.Valid()
    ensures e.registry == RegistryOf(TwoTopics()) && e.pool == Pool(OpenedPool(["P1", "P2"], 2), 2, [])
    ensures e.messages == FlushRun()[..5] && e.writes == []
    ensures e.lastSyncTimestamp == 0 && !e.isCompacting && !e.closed
  {
    var opts := Options(true, Some(TwoTopics()), true, None);
    e := new RealmEmitter(Some(opts), 0, None);
    assert e.registry.partitionValues == ["P1", "P2"] && e.registry.topics == ["a", "b"];
    var run := FlushRun();
    EmitWithoutFlush(e, run[0], 1000);
    EmitWithoutFlush(e, run[1], 2000);
    EmitWithoutFlush(e, run[2], 3000);
    EmitWithoutFlush(e, run[3], 4000);
    EmitWithoutFlush(e, run[4], 5000);
    assert e.messages == [run[0], run[1], run[2], run[3], run[4]];
  }

  /**
   * Three messages on "a" (partition P1) and two on "b" (partition P2)
   * within one sync interval stay buffered; the first message after the
   * interval, on "a", flushes all six: P1 receives the four "a" payloads
   * and P2 the two "b" payloads, each in arrival order.
   */
  method TwoPartitionFlush() returns (writes: seq<WriteTx<Payload>>, buffered: seq<Message>)
    ensures writes == [WriteTx("P1", [[1], [2], [3], [6]]), WriteTx("P2", [[4], [5]])]
    ensures buffered == []
  {
    var e := BufferWithinInterval();
    var run := FlushRun();
    assert e.registry.topics == ["a", "b"];
    assert e.messages + [run[5]] == run;
    var r := e.Emit(run[5], 6000);
    ScenarioWrites(e.registry, e.pool, run);
    writes, buffered := e.writes, e.messages;
  }

  /**
   * Both partitions above a 25 MB threshold: one compaction tick calls
   * `compact()` once on each, in order, and when both succeed the flag is
   * clear and the cleanup timer runs again.
   */
  method CompactionResumesFlushing() returns (compacted: seq<string>, compacting: bool, cleanup: bool)
    ensures compacted == ["P1", "P2"]
    ensures !compacting && cleanup
  {
    var opts := Options(true, Some(TwoTopics()), true, Some(25));
    var e := new RealmEmitter(Some(opts), 0, None);
    assert e.registry.partitionValues == ["P1", "P2"];
    assert e.compactionThreshold == Some(25);
    var sizes := [30_000_000, 26_000_000];
    e.CompactionTick(sizes, [true, true]);
    AllOversizedCompactsEach(e.registry.partitionValues, sizes, 25, 2);
    LastCompactionDecides(Timers(false, true), sizes, [true, true], 25, 1, 2);
    assert e.registry.partitionValues[..2] == ["P1", "P2"];
    compacted, compacting, cleanup := e.compactions, e.isCompacting, e.cleanupRunning;
  }

  /**
   * Options without a schema: nothing is registered, so a message on any
   * topic is forwarded but never buffered.
   */
  method UnconfiguredBuffersNothing(msg: Message) returns (buffered: seq<Message>, forwarded: seq<Message>)
    ensures buffered == [] && forwarded == [msg]
  {
    var opts := Options(false, Some(TwoTopics()), true, None);
    var e := new RealmEmitter(Some(opts), 0, None);
    var r := e.Emit(msg, 10_000);
    buffered, forwarded := e.messages, e.forwarded;
  }

  /**
   * With the close as written, the emitter stays open after closing both
   * realms: a later message on "a" is still buffered and forwarded, and
   * the realms it will be written to are closed.
   */
  method EmitAfterClose() returns (r: EmitResult, buffered: seq<Message>, forwarded: seq<Message>, open: bool)
    ensures r == Forwarded && buffered == [Message("a", [1])] && forwarded == [Message("a", [1])]
    ensures !open
  {
    var opts := Options(true, Some(TwoTopics()), true, None);
    var e := new RealmEmitter(Some(opts), 0, None);
    assert e.registry.partitionValues == ["P1", "P2"] && e.registry.topics == ["a", "b"];
    assert e.compactionTimerRunning;
    var inLoop := e.Close();
    assert FirstMissing(e.registry.partitionValues, e.pool.realms) == 2;
    assert e.registry.partitionValues[..2] == ["P1", "P2"];
    assert e.pool.closeLog == [e.pool.realms["P1"], e.pool.realms["P2"]];
    open := e.pool.IsOpen("P1");
    r := e.Emit(Message("a", [1]), 1_000);
    buffered, forwarded := e.messages, e.forwarded;
  }

  /**
   * With the corrected close, after a successful close `emit` fails its
   * callback with the closed error and neither buffers nor forwards the
   * message.
   */
  method ClosedRejects() returns (r: EmitResult, buffered: seq<Message>, forwarded: seq<Message>)
    ensures r == Rejected("mqemitter is closed")
    ensures buffered == [] && forwarded == []
  {
    var opts := Options(true, Some(TwoTopics()), true, None);
    var e := new RealmEmitter(Some(opts), 0, None);
    assert e.registry.partitionValues == ["P1", "P2"];
    assert e.compactionTimerRunning;
    var ok := e.CloseAndLogOut();
    assert FirstMissing(e.registry.partitionValues, e.pool.realms) == 2;
    r := e.Emit(Message("a", [1]), 10_000);
    buffered, forwarded := e.messages, e.forwarded;
  }

  /**
   * A `compact()` that throws leaves the compacting flag set: a message
   * long after the last sync is buffered, not flushed, and the cleanup
   * timer stays stopped.
   */
  method FailedCompactionSuppressesFlush() returns (buffered: seq<Message>, writes: seq<WriteTx<Payload>>, cleanup: bool)
    ensures buffered == [Message("a", [1])] && writes == [] && !cleanup
  {
    var opts := Options(true, Some(TwoTopics()), true, Some(25));
    var e := new RealmEmitter(Some(opts), 0, None);
    assert e.registry.partitionValues == ["P1", "P2"] && e.registry.topics == ["a", "b"];
    assert e.compactionThreshold == Some(25);
    var sizes := [30_000_000, 1_000];
    e.CompactionTick(sizes, [false, true]);
    LastCompactionDecides(Timers(false, true), sizes, [false, true], 25, 0, 2);
    assert e.isCompacting && !e.cleanupRunning && e.messages == [];
    EmitWithoutFlush(e, Message("a", [1]), 100_000);
    buffered, writes, cleanup := e.messages, e.writes, e.cleanupRunning;
  }
}
