/**
 * The bulk writer: `prepareBulkWrite` (the records one write transaction
 * creates) and `syncMessages` (one write per configured topic index).
 * The partition stores are abstracted: `syncMessages` returns the
 * transactions it committed, in the order it committed them.
 */
module BulkWriter {
  import opened Types
  import opened PartitionPool

  /** The messages of `buffer` whose topic is `topic`, in buffer order. */
  function Selected(buffer: seq<Message>, topic: string): (sel: seq<Message>)
    ensures forall k :: 0 <= k < |sel| ==> sel[k].topic == topic
  {
    if buffer == [] then []
    else
      var last := buffer[|buffer| - 1];
      Selected(buffer[..|buffer| - 1], topic) + (if last.topic == topic then [last] else [])
  }

  /** A message is selected exactly when it is buffered and on the topic. */
  lemma {:induction false} SelectedMembers(buffer: seq<Message>, topic: string)
    ensures forall m :: m in Selected(buffer, topic) <==> m in buffer && m.topic == topic
  {
    if buffer != [] {
      var init := buffer[..|buffer| - 1];
      SelectedMembers(init, topic);
      assert buffer == init + [buffer[|buffer| - 1]];
    }
  }

  /**
   * Transforms every message of `sel`, in order; `None` as soon as one
   * transform throws.
   */
  function TransformAll<R>(sel: seq<Message>, transform: Transform<R>): Option<seq<R>>
  {
    if sel == [] then Some([])
    else match TransformAll(sel[..|sel| - 1], transform)
      case None => None
      case Some(records) =>
        match transform(sel[|sel| - 1].payload)
        case None => None
        case Some(r) => Some(records + [r])
  }

  /**
   * The records that one `prepareBulkWrite` call creates: one per message on
   * `topic`, transformed, in buffer order; `None` when any transform or
   * create throws, which rolls the whole transaction back.
   */
  function BulkRecords<R>(buffer: seq<Message>, topic: string, transform: Transform<R>): Option<seq<R>>
  {
    TransformAll(Selected(buffer, topic), transform)
  }

  lemma {:induction false} SelectedConcat(a: seq<Message>, b: seq<Message>, topic: string)
    ensures Selected(a + b, topic) == Selected(a, topic) + Selected(b, topic)
    decreases |b|
  {
    if b == [] {
      assert a + b == a;
    } else {
      var b' := b[..|b| - 1];
      assert (a + b)[..|a + b| - 1] == a + b';
      SelectedConcat(a, b', topic);
    }
  }

  /** Filtering keeps a message on the topic and drops any other. */
  lemma SelectedSnoc(buffer: seq<Message>, m: Message, topic: string)
    ensures Selected(buffer + [m], topic)
         == Selected(buffer, topic) + (if m.topic == topic then [m] else [])
  {
    assert (buffer + [m])[..|buffer|] == buffer;
  }

  /** A buffer holding only messages on `topic` is selected whole. */
  lemma {:induction false} SelectedAllOnTopic(buffer: seq<Message>, topic: string)
    requires forall k :: 0 <= k < |buffer| ==> buffer[k].topic == topic
    ensures Selected(buffer, topic) == buffer
  {
    if buffer != [] {
      var init := buffer[..|buffer| - 1];
      SelectedAllOnTopic(init, topic);
      assert init + [buffer[|buffer| - 1]] == buffer;
    }
  }

  /** A buffer holding no message on `topic` selects nothing. */
  lemma {:induction false} SelectedNoneOnTopic(buffer: seq<Message>, topic: string)
    requires forall k :: 0 <= k < |buffer| ==> buffer[k].topic != topic
    ensures Selected(buffer, topic) == []
  {
    if buffer != [] {
      SelectedNoneOnTopic(buffer[..|buffer| - 1], topic);
    }
  }

  /**
   * Transforming a concatenation succeeds only if both halves do, and
   * yields the records of the first half followed by those of the second.
   */
  lemma {:induction false} TransformAllConcat<R>(a: seq<Message>, b: seq<Message>, transform: Transform<R>)
    ensures TransformAll(a + b, transform).Some? ==>
      && TransformAll(a, transform).Some? && TransformAll(b, transform).Some?
      && TransformAll(a + b, transform).value == TransformAll(a, transform).value + TransformAll(b, transform).value
    decreases |b|
  {
    if b == [] {
      assert a + b == a;
    } else {
      var b' := b[..|b| - 1];
      assert (a + b)[..|a + b| - 1] == a + b';
      assert (a + b)[|a + b| - 1] == b[|b| - 1];
      TransformAllConcat(a, b', transform);
    }
  }

  /**
   * Extending the buffer extends each topic's records: the records of
   * `a` come first, unchanged, followed by those of `b`.
   */
  lemma BulkRecordsConcat<R>(a: seq<Message>, b: seq<Message>, topic: string, transform: Transform<R>)
    requires BulkRecords(a + b, topic, transform).Some?
    ensures BulkRecords(a, topic, transform).Some? && BulkRecords(b, topic, transform).Some?
    ensures BulkRecords(a + b, topic, transform).value
         == BulkRecords(a, topic, transform).value + BulkRecords(b, topic, transform).value
  {
    SelectedConcat(a, b, topic);
    TransformAllConcat(Selected(a, topic), Selected(b, topic), transform);
  }

  /** A transaction that throws on a prefix of the buffer throws on the whole buffer. */
  lemma BulkRecordsPrefixFails<R>(buffer: seq<Message>, i: nat, topic: string, transform: Transform<R>)
    requires i <= |buffer| && BulkRecords(buffer[..i], topic, transform).None?
    ensures BulkRecords(buffer, topic, transform).None?
  {
    assert buffer[..i] + buffer[i..] == buffer;
    SelectedConcat(buffer[..i], buffer[i..], topic);
    TransformAllConcat(Selected(buffer[..i], topic), Selected(buffer[i..], topic), transform);
  }

  /**
   * Every created record comes from one selected message: the record at
   * position `k` is the transform of the `k`-th message on the topic.
   */
  lemma {:induction false} TransformAllAt<R>(sel: seq<Message>, transform: Transform<R>, k: nat)
    requires TransformAll(sel, transform).Some? && k < |sel|
    ensures |TransformAll(sel, transform).value| == |sel|
    ensures transform(sel[k].payload) == Some(TransformAll(sel, transform).value[k])
  {
    var init := sel[..|sel| - 1];
    if k < |init| {
      TransformAllAt(init, transform, k);
    } else if init != [] {
      TransformAllAt(init, transform, 0);
    }
  }

  /** One more message: the records grow by its transform when it is on the topic. */
  lemma BulkRecordsStep<R>(buffer: seq<Message>, i: nat, topic: string, transform: Transform<R>, records: seq<R>)
    requires i < |buffer| && BulkRecords(buffer[..i], topic, transform) == Some(records)
    ensures buffer[i].topic != topic ==> BulkRecords(buffer[..i + 1], topic, transform) == Some(records)
    ensures buffer[i].topic == topic && transform(buffer[i].payload).None? ==>
      BulkRecords(buffer[..i + 1], topic, transform) == None
    ensures buffer[i].topic == topic && transform(buffer[i].payload).Some? ==>
      BulkRecords(buffer[..i + 1], topic, transform) == Some(records + [transform(buffer[i].payload).value])
  {
    var record := transform(buffer[i].payload);
    assert buffer[..i + 1] == buffer[..i] + [buffer[i]];
    SelectedSnoc(buffer[..i], buffer[i], topic);
    var sel := Selected(buffer[..i + 1], topic);
    if buffer[i].topic == topic {
      assert sel[..|sel| - 1] == Selected(buffer[..i], topic);
    } else {
      assert sel == Selected(buffer[..i], topic);
    }
  }

  /**
   * `prepareBulkWrite`: walks the buffer and creates one record for every
   * message on `topic`. A throwing transform ends the walk and, through the
   * enclosing `realm.write`, cancels the transaction.
   */
  method PrepareBulkWrite<R>(buffer: seq<Message>, topic: string, transform: Transform<R>)
    returns (created: Option<seq<R>>)
    ensures created == BulkRecords(buffer, topic, transform)
  {
    var records: seq<R> := [];
    for i := 0 to |buffer|
      invariant BulkRecords(buffer[..i], topic, transform) == Some(records)
    {
      BulkRecordsStep(buffer, i, topic, transform, records);
      if buffer[i].topic == topic {
        var record := transform(buffer[i].payload);
        if record.None? {
          BulkRecordsPrefixFails(buffer, i + 1, topic, transform);
          return None;
        }
        records := records + [record.value];
      }
    }
    assert buffer[..|buffer|] == buffer;
    return Some(records);
  }

  /** What happens at index `i` of the `syncMessages` loop. */
  datatype IndexOutcome<R> = Skipped | Committed(tx: WriteTx<R>) | Threw

  /**
   * Index `i` writes only when a realm is registered under
   * `partitionValues[i]` and the whole buffer is non-empty. The write throws
   * when that realm is closed or when a transform or create throws.
   */
  function OutcomeAt<R>(reg: Registry<R>, pool: Pool, buffer: seq<Message>, i: nat): IndexOutcome<R>
    requires reg.Valid() && i < |reg.partitionValues|
  {
    var key := reg.partitionValues[i];
    if key !in pool.realms || |buffer| == 0 then Skipped
    else if !pool.IsOpen(key) then Threw
    else match BulkRecords(buffer, reg.topics[i], reg.transformers[i])
      case None => Threw
      case Some(records) => Committed(WriteTx(key, records))
  }

  /** The state of the `syncMessages` loop: transactions so far, and whether one threw. */
  datatype SyncRun<R> = SyncRun(txs: seq<WriteTx<R>>, aborted: bool)

  /** The loop after the indices below `n`; the `try` around it makes a throw final. */
  function SyncUpTo<R>(reg: Registry<R>, pool: Pool, buffer: seq<Message>, n: nat): SyncRun<R>
    requires reg.Valid() && n <= |reg.partitionValues|
  {
    if n == 0 then SyncRun([], false)
    else
      var prev := SyncUpTo(reg, pool, buffer, n - 1);
      if prev.aborted then prev
      else match OutcomeAt(reg, pool, buffer, n - 1)
        case Skipped => prev
        case Committed(tx) => SyncRun(prev.txs + [tx], false)
        case Threw => SyncRun(prev.txs, true)
  }

  /** The transactions one `syncMessages` call commits. */
  function SyncWrites<R>(reg: Registry<R>, pool: Pool, buffer: seq<Message>): seq<WriteTx<R>>
    requires reg.Valid()
  {
    SyncUpTo(reg, pool, buffer, |reg.partitionValues|).txs
  }

  /** One exception ends the loop: no later index writes anything. */
  lemma {:induction false} AbortIsFinal<R>(reg: Registry<R>, pool: Pool, buffer: seq<Message>, n: nat, m: nat)
    requires reg.Valid() && n <= m <= |reg.partitionValues|
    requires SyncUpTo(reg, pool, buffer, n).aborted
    ensures SyncUpTo(reg, pool, buffer, m) == SyncUpTo(reg, pool, buffer, n)
    decreases m
  {
    if m > n {
      AbortIsFinal(reg, pool, buffer, n, m - 1);
    }
  }

  /**
   * `syncMessages`: for each index, a write on the realm of
   * `partitionValues[i]` creating the buffered messages on `topics[i]`.
   */
  method SyncMessages<R>(reg: Registry<R>, pool: Pool, buffer: seq<Message>)
    returns (txs: seq<WriteTx<R>>)
    requires reg.Valid()
    ensures txs == SyncWrites(reg, pool, buffer)
  {
    txs := [];
    var n := |reg.partitionValues|;
    for i := 0 to n
      invariant SyncUpTo(reg, pool, buffer, i) == SyncRun(txs, false)
    {
      var key := reg.partitionValues[i];
      if key in pool.realms && |buffer| > 0 {
        var records: Option<seq<R>> := None;
        if pool.IsOpen(key) {
          records := PrepareBulkWrite(buffer, reg.topics[i], reg.transformers[i]);
        }
        if records.None? {
          assert OutcomeAt(reg, pool, buffer, i) == Threw;
          assert SyncUpTo(reg, pool, buffer, i + 1) == SyncRun(txs, true);
          AbortIsFinal(reg, pool, buffer, i + 1, n);
          return;
        }
        assert OutcomeAt(reg, pool, buffer, i) == Committed(WriteTx(key, records.value));
        txs := txs + [WriteTx(key, records.value)];
      } else {
        assert OutcomeAt(reg, pool, buffer, i) == Skipped;
      }
    }
  }

  /** An empty buffer writes nothing, not even an empty transaction. */
  lemma {:induction false} EmptyBufferWritesNothing<R>(reg: Registry<R>, pool: Pool, n: nat)
    requires reg.Valid() && n <= |reg.partitionValues|
    ensures SyncUpTo(reg, pool, [], n) == SyncRun([], false)
  {
    if n > 0 {
      EmptyBufferWritesNothing(reg, pool, n - 1);
    }
  }

  /** When every configured realm is closed, every write throws and nothing is committed. */
  lemma {:induction false} ClosedPoolWritesNothing<R>(reg: Registry<R>, pool: Pool, buffer: seq<Message>, n: nat)
    requires reg.Valid() && n <= |reg.partitionValues|
    requires forall i :: 0 <= i < |reg.partitionValues| && reg.partitionValues[i] in pool.realms ==>
      !pool.IsOpen(reg.partitionValues[i])
    ensures SyncUpTo(reg, pool, buffer, n).txs == []
  {
    if n > 0 {
      ClosedPoolWritesNothing(reg, pool, buffer, n - 1);
    }
  }

  /** Every configured realm is registered and open. */
  ghost predicate HealthyPool<R>(reg: Registry<R>, pool: Pool)
    requires reg.Valid()
  {
    forall i :: 0 <= i < |reg.partitionValues| ==>
      reg.partitionValues[i] in pool.realms && pool.IsOpen(reg.partitionValues[i])
  }

  /** Every transform succeeds on every buffered message it is given. */
  ghost predicate TransformsSucceed<R>(reg: Registry<R>, buffer: seq<Message>)
    requires reg.Valid()
  {
    forall i :: 0 <= i < |reg.topics| ==> BulkRecords(buffer, reg.topics[i], reg.transformers[i]).Some?
  }

  /** The transaction index `i` commits when its write succeeds. */
  function CommittedTx<R>(reg: Registry<R>, buffer: seq<Message>, i: nat): WriteTx<R>
    requires reg.Valid() && i < |reg.partitionValues|
  {
    var records := BulkRecords(buffer, reg.topics[i], reg.transformers[i]);
    WriteTx(reg.partitionValues[i], if records.Some? then records.value else [])
  }

  /** The transactions of the first `n` indices when every write succeeds. */
  function HealthyTxs<R>(reg: Registry<R>, buffer: seq<Message>, n: nat): seq<WriteTx<R>>
    requires reg.Valid() && n <= |reg.partitionValues|
  {
    seq(n, i requires 0 <= i < n => CommittedTx(reg, buffer, i))
  }

  /** Index `i`'s write succeeds: its realm is registered and open, and every transform succeeds. */
  predicate WriteSucceeds<R>(reg: Registry<R>, pool: Pool, buffer: seq<Message>, i: nat)
    requires reg.Valid() && i < |reg.partitionValues|
  {
    && reg.partitionValues[i] in pool.realms && pool.IsOpen(reg.partitionValues[i])
    && BulkRecords(buffer, reg.topics[i], reg.transformers[i]).Some?
  }

  /** A successful write at index `k` extends a healthy run by its transaction. */
  lemma CommitStep<R>(reg: Registry<R>, pool: Pool, buffer: seq<Message>, n: nat, k: nat)
    requires reg.Valid() && k < n <= |reg.partitionValues| && |buffer| > 0
    requires forall i :: 0 <= i < n ==> WriteSucceeds(reg, pool, buffer, i)
    requires SyncUpTo(reg, pool, buffer, k) == SyncRun(HealthyTxs(reg, buffer, k), false)
    ensures SyncUpTo(reg, pool, buffer, k + 1) == SyncRun(HealthyTxs(reg, buffer, k + 1), false)
  {
    assert WriteSucceeds(reg, pool, buffer, k);
    assert OutcomeAt(reg, pool, buffer, k) == Committed(CommittedTx(reg, buffer, k));
    HealthyTxsSnoc(reg, buffer, k);
  }

  lemma HealthyTxsSnoc<R>(reg: Registry<R>, buffer: seq<Message>, k: nat)
    requires reg.Valid() && k < |reg.partitionValues|
    ensures HealthyTxs(reg, buffer, k + 1) == HealthyTxs(reg, buffer, k) + [CommittedTx(reg, buffer, k)]
  {
    var longer, shorter := HealthyTxs(reg, buffer, k + 1), HealthyTxs(reg, buffer, k);
    forall i | 0 <= i < k + 1
      ensures longer[i] == (shorter + [CommittedTx(reg, buffer, k)])[i]
    {
      if i < k {
        assert shorter[i] == CommittedTx(reg, buffer, i);
      }
    }
  }

  /** When the first `n` writes succeed, the loop commits `HealthyTxs` and does not abort. */
  lemma HealthyRun<R>(reg: Registry<R>, pool: Pool, buffer: seq<Message>, n: nat)
    requires reg.Valid() && n <= |reg.partitionValues| && |buffer| > 0
    requires forall i :: 0 <= i < n ==> WriteSucceeds(reg, pool, buffer, i)
    ensures SyncUpTo(reg, pool, buffer, n) == SyncRun(HealthyTxs(reg, buffer, n), false)
  {
    for k := 0 to n
      invariant SyncUpTo(reg, pool, buffer, k) == SyncRun(HealthyTxs(reg, buffer, k), false)
    {
      CommitStep(reg, pool, buffer, n, k);
    }
  }

  /**
   * Without failures, a non-empty buffer yields exactly one transaction per
   * index `i`, on `partitionValues[i]`, holding the records of `topics[i]`
   * in buffer order; it is written even when it holds no record.
   */
  lemma {:induction false} HealthySync<R>(reg: Registry<R>, pool: Pool, buffer: seq<Message>, n: nat)
    requires reg.Valid() && n <= |reg.partitionValues|
    requires HealthyPool(reg, pool) && TransformsSucceed(reg, buffer) && |buffer| > 0
    ensures var run := SyncUpTo(reg, pool, buffer, n);
      && !run.aborted && |run.txs| == n
      && forall i :: 0 <= i < n ==>
           run.txs[i].partition == reg.partitionValues[i]
           && Some(run.txs[i].records) == BulkRecords(buffer, reg.topics[i], reg.transformers[i])
  {
    forall i | 0 <= i < n
      ensures WriteSucceeds(reg, pool, buffer, i)
    {
    }
    HealthyRun(reg, pool, buffer, n);
    forall i | 0 <= i < n
      ensures BulkRecords(buffer, reg.topics[i], reg.transformers[i]).Some?
    {
    }
  }

  /**
   * A buffer written once and written again after more messages arrived
   * (a cleanup tick followed by an inline flush, say): each index's second
   * transaction repeats all records of its first one.
   */
  lemma RewrittenAfterGrowth<R>(reg: Registry<R>, pool: Pool, buffer: seq<Message>, more: seq<Message>)
    requires reg.Valid()
    requires HealthyPool(reg, pool) && TransformsSucceed(reg, buffer + more) && |buffer| > 0
    ensures TransformsSucceed(reg, buffer)
    ensures |SyncWrites(reg, pool, buffer)| == |SyncWrites(reg, pool, buffer + more)| == |reg.partitionValues|
    ensures forall i :: 0 <= i < |reg.partitionValues| ==>
      SyncWrites(reg, pool, buffer)[i].records <= SyncWrites(reg, pool, buffer + more)[i].records
  {
    var n := |reg.partitionValues|;
    forall i | 0 <= i < n
      ensures BulkRecords(buffer, reg.topics[i], reg.transformers[i]).Some?
      ensures BulkRecords(buffer, reg.topics[i], reg.transformers[i]).value
           <= BulkRecords(buffer + more, reg.topics[i], reg.transformers[i]).value
    {
      BulkRecordsConcat(buffer, more, reg.topics[i], reg.transformers[i]);
    }
    HealthySync(reg, pool, buffer, n);
    HealthySync(reg, pool, buffer + more, n);
  }
}
