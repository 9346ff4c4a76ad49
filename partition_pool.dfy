/**
 * The pool of partition stores (`_realms`): the constructor opens one realm
 * per configured index and `close` closes the realm registered under each
 * index. A realm handle is the number of the `new Realm` call that made it.
 */
module PartitionPool {
  import opened Types

  /**
   * `realms` maps a partition value to the handle stored under it,
   * `openCount` counts the realms ever opened and `closeLog` lists, in order, every
   * handle `close()` was called on.
   */
  datatype Pool = Pool(realms: map<string, nat>, openCount: nat, closeLog: seq<nat>)
  {
    predicate IsOpen(key: string)
      requires key in realms
    {
      realms[key] !in closeLog
    }
  }

  /** The pool after the first `n` iterations of the opening loop: a later index overwrites an earlier one. */
  function OpenedPool(partitionValues: seq<string>, n: nat): map<string, nat>
    requires n <= |partitionValues|
  {
    if n == 0 then map[]
    else OpenedPool(partitionValues, n - 1)[partitionValues[n - 1] := n - 1]
  }

  /**
   * How many realms the opening loop opens: none when there is no sync
   * configuration (assigning `config.sync.partitionValue` throws at the
   * first index), and none from the index whose `new Realm` throws.
   */
  function OpenedCount(count: nat, withSync: bool, failAt: Option<nat>): nat
  {
    if count == 0 then 0
    else if !withSync then 0
    else if failAt.Some? && failAt.value < count then failAt.value
    else count
  }

  /**
   * Each opened partition value is registered under the handle of its
   * LAST opening, and nothing else is registered.
   */
  lemma {:induction false} OpenedPoolShape(partitionValues: seq<string>, n: nat)
    requires n <= |partitionValues|
    ensures forall key :: key in OpenedPool(partitionValues, n) <==>
      exists j :: 0 <= j < n && partitionValues[j] == key
    ensures forall key :: key in OpenedPool(partitionValues, n) ==>
      var h := OpenedPool(partitionValues, n)[key];
      h < n && partitionValues[h] == key &&
      forall j :: h < j < n ==> partitionValues[j] != key
  {
    if n > 0 {
      OpenedPoolShape(partitionValues, n - 1);
    }
  }

  /** The constructor's opening loop. */
  method OpenRealms(partitionValues: seq<string>, withSync: bool, failAt: Option<nat>)
    returns (realms: map<string, nat>, openCount: nat, ok: bool)
    ensures openCount == OpenedCount(|partitionValues|, withSync, failAt)
    ensures realms == OpenedPool(partitionValues, openCount)
    ensures ok <==> openCount == |partitionValues|
  {
    realms, openCount := map[], 0;
    for i := 0 to |partitionValues|
      invariant openCount == i && realms == OpenedPool(partitionValues, i)
      invariant withSync || i == 0
      invariant failAt.Some? ==> i <= failAt.value
    {
      if !withSync || failAt == Some(i) {
        return realms, openCount, false;
      }
      realms := realms[partitionValues[i] := openCount];
      openCount := openCount + 1;
    }
    ok := true;
  }

  /** The handles `close` closes, one per configured index, duplicates included. */
  function CloseOrder(partitionValues: seq<string>, realms: map<string, nat>): seq<nat>
    requires forall i :: 0 <= i < |partitionValues| ==> partitionValues[i] in realms
  {
    seq(|partitionValues|, i requires 0 <= i < |partitionValues| => realms[partitionValues[i]])
  }

  /** The first index with no realm registered (where `close` throws), or the count. */
  function FirstMissing(partitionValues: seq<string>, realms: map<string, nat>): (k: nat)
    ensures k <= |partitionValues|
    ensures forall i :: 0 <= i < k ==> partitionValues[i] in realms
    ensures k < |partitionValues| ==> partitionValues[k] !in realms
  {
    if partitionValues == [] then 0
    else if partitionValues[0] !in realms then 0
    else 1 + FirstMissing(partitionValues[1..], realms)
  }

  /**
   * With distinct partition values every opened realm is closed exactly
   * once, in opening order.
   */
  lemma DistinctClosedOnce(partitionValues: seq<string>)
    requires forall i, j :: 0 <= i < j < |partitionValues| ==> partitionValues[i] != partitionValues[j]
    ensures forall i :: 0 <= i < |partitionValues| ==> partitionValues[i] in OpenedPool(partitionValues, |partitionValues|)
    ensures CloseOrder(partitionValues, OpenedPool(partitionValues, |partitionValues|))
         == seq(|partitionValues|, i => i)
  {
    var n := |partitionValues|;
    OpenedPoolShape(partitionValues, n);
    var pool := OpenedPool(partitionValues, n);
    forall i | 0 <= i < n
      ensures partitionValues[i] in pool && pool[partitionValues[i]] == i
    {
      assert exists j :: 0 <= j < n && partitionValues[j] == partitionValues[i];
    }
  }

  /**
   * A duplicated partition value opens two realms but keeps only the later
   * one: the earlier handle is never closed, the later one is closed twice.
   */
  lemma DuplicateLeaksAndClosesTwice(partitionValues: seq<string>, i: nat, j: nat)
    requires i < j < |partitionValues| && partitionValues[i] == partitionValues[j]
    ensures forall k :: 0 <= k < |partitionValues| ==> partitionValues[k] in OpenedPool(partitionValues, |partitionValues|)
    ensures CloseOrder(partitionValues, OpenedPool(partitionValues, |partitionValues|))[i]
         == CloseOrder(partitionValues, OpenedPool(partitionValues, |partitionValues|))[j]
    ensures i !in CloseOrder(partitionValues, OpenedPool(partitionValues, |partitionValues|))
  {
    var n := |partitionValues|;
    OpenedPoolShape(partitionValues, n);
    var pool := OpenedPool(partitionValues, n);
    forall k | 0 <= k < n ensures partitionValues[k] in pool {
      assert exists j' :: 0 <= j' < n && partitionValues[j'] == partitionValues[k];
    }
    var order := CloseOrder(partitionValues, pool);
    forall k | 0 <= k < n ensures order[k] != i {
      var key := partitionValues[k];
      assert pool[key] < j ==> partitionValues[j] != key;
    }
  }
}
