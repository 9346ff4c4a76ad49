/**
 * The compaction monitor: the size threshold, which partitions a
 * compaction tick compacts, and what the tick leaves in the
 * `_isCompacting` flag and the cleanup timer.
 */
module Compaction {
  import opened Types

  /** The threshold used when the option is absent or zero, in megabytes. */
  const DefaultCompactionThreshold: int := 100

  /** The `1e6` factor of the conversion from megabytes to bytes. */
  const BytesPerMegabyte: int := 1_000_000

  /** `opts.compactionThreshold || 100`: an absent or zero option falls back to the default. */
  function EffectiveThreshold(option: Option<int>): (megabytes: int)
    ensures megabytes != 0
    ensures megabytes == DefaultCompactionThreshold || option == Some(megabytes)
    ensures option.Some? && option.value != 0 ==> megabytes == option.value
  {
    if option.None? || option.value == 0 then DefaultCompactionThreshold else option.value
  }

  /** `thresholdInBytes`. */
  function ThresholdInBytes(megabytes: int): int
  {
    megabytes * BytesPerMegabyte
  }

  /** The tick's test on one partition's file size. */
  predicate NeedsCompaction(sizeInBytes: nat, megabytes: int)
  {
    sizeInBytes >= ThresholdInBytes(megabytes)
  }

  /** The partitions the tick calls `compact()` on, one call per oversized index, in index order. */
  function CompactTargets(partitionValues: seq<string>, sizes: seq<nat>, megabytes: int, n: nat): seq<string>
    requires n <= |partitionValues| && n <= |sizes|
  {
    if n == 0 then []
    else
      CompactTargets(partitionValues, sizes, megabytes, n - 1)
      + (if NeedsCompaction(sizes[n - 1], megabytes) then [partitionValues[n - 1]] else [])
  }

  /** The `_isCompacting` flag and whether the cleanup timer is scheduled. */
  datatype Timers = Timers(isCompacting: bool, cleanupRunning: bool)
  {
    /** The periodic flush never runs while the compacting flag is set. */
    predicate Exclusive() {
      isCompacting ==> !cleanupRunning
    }
  }

  /**
   * The flags after the first `n` partitions: each compaction sets the flag
   * and stops the cleanup timer; only a compaction that does not throw
   * clears the flag and restarts the timer.
   */
  function TimersAfter(start: Timers, sizes: seq<nat>, compactOk: seq<bool>, megabytes: int, n: nat): Timers
    requires n <= |sizes| && n <= |compactOk|
  {
    if n == 0 then start
    else if !NeedsCompaction(sizes[n - 1], megabytes) then TimersAfter(start, sizes, compactOk, megabytes, n - 1)
    else if compactOk[n - 1] then Timers(false, true)
    else Timers(true, false)
  }

  /** A partition is compacted exactly when its size reaches the threshold. */
  lemma {:induction false} CompactTargetsMembers(partitionValues: seq<string>, sizes: seq<nat>, megabytes: int, n: nat)
    requires n <= |partitionValues| && n <= |sizes|
    ensures |CompactTargets(partitionValues, sizes, megabytes, n)| <= n
    ensures forall key :: key in CompactTargets(partitionValues, sizes, megabytes, n) <==>
      exists i :: 0 <= i < n && partitionValues[i] == key && NeedsCompaction(sizes[i], megabytes)
  {
    if n > 0 {
      CompactTargetsMembers(partitionValues, sizes, megabytes, n - 1);
    }
  }

  /** When every partition is oversized, every index is compacted once, in order. */
  lemma {:induction false} AllOversizedCompactsEach(partitionValues: seq<string>, sizes: seq<nat>, megabytes: int, n: nat)
    requires n <= |partitionValues| && n <= |sizes|
    requires forall i :: 0 <= i < n ==> NeedsCompaction(sizes[i], megabytes)
    ensures CompactTargets(partitionValues, sizes, megabytes, n) == partitionValues[..n]
  {
    if n > 0 {
      AllOversizedCompactsEach(partitionValues, sizes, megabytes, n - 1);
      assert partitionValues[..n] == partitionValues[..n - 1] + [partitionValues[n - 1]];
    }
  }

  /** A tick on which no partition is oversized compacts nothing and touches no flag. */
  lemma {:induction false} NoneOversized(partitionValues: seq<string>, sizes: seq<nat>, compactOk: seq<bool>,
                                         start: Timers, megabytes: int, n: nat)
    requires n <= |partitionValues| && n <= |sizes| && n <= |compactOk|
    requires forall i :: 0 <= i < n ==> !NeedsCompaction(sizes[i], megabytes)
    ensures CompactTargets(partitionValues, sizes, megabytes, n) == []
    ensures TimersAfter(start, sizes, compactOk, megabytes, n) == start
  {
    if n > 0 {
      NoneOversized(partitionValues, sizes, compactOk, start, megabytes, n - 1);
    }
  }

  /**
   * The last oversized partition decides the flags: a successful compaction
   * leaves the flag clear and the cleanup timer running; a failed one leaves
   * the flag set and the timer stopped, whatever happened before it.
   */
  lemma {:induction false} LastCompactionDecides(start: Timers, sizes: seq<nat>, compactOk: seq<bool>,
                                                 megabytes: int, j: nat, n: nat)
    requires j < n <= |sizes| && n <= |compactOk|
    requires NeedsCompaction(sizes[j], megabytes)
    requires forall i :: j < i < n ==> !NeedsCompaction(sizes[i], megabytes)
    ensures TimersAfter(start, sizes, compactOk, megabytes, n)
         == if compactOk[j] then Timers(false, true) else Timers(true, false)
  {
    if n > j + 1 {
      LastCompactionDecides(start, sizes, compactOk, megabytes, j, n - 1);
    }
  }

  /** A tick never sets the compacting flag while leaving the cleanup timer running. */
  lemma {:induction false} TimersStayExclusive(start: Timers, sizes: seq<nat>, compactOk: seq<bool>, megabytes: int, n: nat)
    requires n <= |sizes| && n <= |compactOk|
    requires start.Exclusive()
    ensures TimersAfter(start, sizes, compactOk, megabytes, n).Exclusive()
  {
    if n > 0 {
      TimersStayExclusive(start, sizes, compactOk, megabytes, n - 1);
    }
  }

  /**
   * `shouldCompactOnLaunch` as written: the used size, in bytes, is compared
   * with the threshold, in megabytes, without conversion.
   */
  function ShouldCompactOnLaunchAsWritten(megabytes: int, totalBytes: nat, usedBytes: nat): (compact: bool)
    ensures 0 < megabytes && NeedsCompaction(usedBytes, megabytes) ==> compact
    ensures usedBytes <= megabytes ==> !compact
  {
    usedBytes > megabytes
  }

  /**
   * As written, a file a few bytes over the threshold's NUMBER is compacted
   * on launch while the periodic check, which converts to bytes, leaves it
   * alone: with the default threshold, a 101-byte file.
   */
  lemma LaunchCheckDisagrees(megabytes: int, totalBytes: nat, usedBytes: nat)
    requires 0 < megabytes < usedBytes < ThresholdInBytes(megabytes)
    ensures ShouldCompactOnLaunchAsWritten(megabytes, totalBytes, usedBytes)
    ensures !NeedsCompaction(usedBytes, megabytes)
  {
  }

  /** `shouldCompactOnLaunch` with the threshold converted to bytes. */
  function ShouldCompactOnLaunch(megabytes: int, totalBytes: nat, usedBytes: nat): (compact: bool)
    ensures compact ==> NeedsCompaction(usedBytes, megabytes)
    ensures NeedsCompaction(usedBytes, megabytes) && usedBytes != ThresholdInBytes(megabytes) ==> compact
  {
    usedBytes > ThresholdInBytes(megabytes)
  }
}
