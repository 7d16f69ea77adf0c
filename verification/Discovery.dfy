/**
 Partition discovery in DirectVolume.cpp: how many partition events a disk is still
 waiting for. The build counts down (`Counter`); the code it replaced cleared bits of a
 mask (`Mask`). Both are here, with the lemma that they become ready at the same event.
 */
module Discovery {

  const MAX_PARTITIONS := 32

  // mPartMinors: the minor number recorded for each partition, or a negative number.
  type Minors = s: seq<int> | |s| == MAX_PARTITIONS witness seq(MAX_PARTITIONS, _ => -1)

  function NoMinors(): Minors {
    seq(MAX_PARTITIONS, _ => -1)
  }

  // How many of the first n entries are recorded
  function RecordedUpto(minors: Minors, n: nat): nat
    requires n <= MAX_PARTITIONS
  {
    if n == 0 then 0
    else RecordedUpto(minors, n - 1) + (if minors[n - 1] >= 0 then 1 else 0)
  }

  function Recorded(minors: Minors): nat {
    RecordedUpto(minors, MAX_PARTITIONS)
  }

  // The partitions a disk announcing nparts is waited for
  function Expected(nparts: nat): nat {
    if nparts <= MAX_PARTITIONS then nparts else MAX_PARTITIONS
  }

  function Remaining(nparts: nat, minors: Minors): nat {
    if Recorded(minors) < Expected(nparts) then Expected(nparts) - Recorded(minors) else 0
  }

  datatype Counter = Counter(minors: Minors, pending: nat)

  // One accepted partition event, as in handlePartitionAdded: number 32 is accepted but
  // has no slot, a slot is filled once, and the counter stops at 0.
  function Record(c: Counter, part: int, minor: int): Counter
    requires 1 <= part <= MAX_PARTITIONS
  {
    if part >= MAX_PARTITIONS then c
    else if c.minors[part - 1] < 0 then
      Counter(c.minors[part - 1 := minor], if c.pending == 0 then 0 else c.pending - 1)
    else c
  }

  lemma {:induction false} RecordingAddsOne(minors: Minors, k: nat, minor: int, n: nat)
    requires k < MAX_PARTITIONS && minors[k] < 0 && minor >= 0 && n <= MAX_PARTITIONS
    ensures RecordedUpto(minors[k := minor], n) == RecordedUpto(minors, n) + (if k < n then 1 else 0)
  {
    if n > 0 { RecordingAddsOne(minors, k, minor, n - 1); }
  }

  lemma {:induction false} NothingRecorded(minors: Minors, n: nat)
    requires n <= MAX_PARTITIONS && forall i :: 0 <= i < MAX_PARTITIONS ==> minors[i] < 0
    ensures RecordedUpto(minors, n) == 0
  {
    if n > 0 { NothingRecorded(minors, n - 1); }
  }

  // The counter is always what is still missing, whatever the order, the repeats or part
  // numbers above the announced count.
  lemma RecordKeepsTheCount(nparts: nat, c: Counter, part: int, minor: int)
    requires 1 <= part <= MAX_PARTITIONS && minor >= 0
    requires c.pending == Remaining(nparts, c.minors)
    ensures Record(c, part, minor).pending == Remaining(nparts, Record(c, part, minor).minors)
  {
    if part < MAX_PARTITIONS && c.minors[part - 1] < 0 {
      RecordingAddsOne(c.minors, part - 1, minor, MAX_PARTITIONS);
    }
  }

  function RecordAll(c: Counter, parts: seq<int>, minors: seq<int>): Counter
    requires |parts| == |minors| && forall i :: 0 <= i < |parts| ==> 1 <= parts[i] <= MAX_PARTITIONS
  {
    if parts == [] then c
    else
      var n := |parts| - 1;
      Record(RecordAll(c, parts[..n], minors[..n]), parts[n], minors[n])
  }

  lemma {:induction false} RecordAllFills(c: Counter, parts: seq<int>, minors: seq<int>, nparts: nat)
    requires |parts| == |minors| && c == Counter(NoMinors(), Expected(nparts))
    requires forall i :: 0 <= i < |parts| ==> 1 <= parts[i] <= MAX_PARTITIONS && minors[i] >= 0
    ensures var r := RecordAll(c, parts, minors);
            && r.pending == Remaining(nparts, r.minors)
            && (forall k :: 0 <= k < MAX_PARTITIONS ==>
                  (r.minors[k] >= 0 <==> k + 1 < MAX_PARTITIONS && k + 1 in parts))
  {
    if parts == [] {
      NothingRecorded(NoMinors(), MAX_PARTITIONS);
    } else {
      var n := |parts| - 1;
      RecordAllFills(c, parts[..n], minors[..n], nparts);
      var before := RecordAll(c, parts[..n], minors[..n]);
      RecordKeepsTheCount(nparts, before, parts[n], minors[n]);
      assert parts == parts[..n] + [parts[n]];
    }
  }

  lemma {:induction false} FirstRecorded(minors: Minors, n: nat, m: nat)
    requires n <= MAX_PARTITIONS
    requires forall i :: 0 <= i < n ==> (minors[i] >= 0 <==> i < m)
    ensures RecordedUpto(minors, n) == if n <= m then n else m
  {
    if n > 0 { FirstRecorded(minors, n - 1, m); }
  }

  // A disk whose partitions 1..nparts are all reported becomes ready exactly when it has
  // fewer than 32 of them: number 32 is never recorded.
  lemma AllReportedIsReadyIff(nparts: nat, parts: seq<int>, minors: seq<int>)
    requires 1 <= nparts && |parts| == |minors|
    requires forall i :: 0 <= i < |parts| ==> 1 <= parts[i] <= Expected(nparts) && minors[i] >= 0
    requires forall p :: 1 <= p <= Expected(nparts) ==> p in parts
    ensures RecordAll(Counter(NoMinors(), Expected(nparts)), parts, minors).pending == 0 <==> nparts < MAX_PARTITIONS
  {
    var r := RecordAll(Counter(NoMinors(), Expected(nparts)), parts, minors);
    RecordAllFills(Counter(NoMinors(), Expected(nparts)), parts, minors, nparts);
    var m := if nparts < MAX_PARTITIONS then nparts else MAX_PARTITIONS - 1;
    forall k | 0 <= k < MAX_PARTITIONS ensures r.minors[k] >= 0 <==> k < m {
      if k < m { assert k + 1 in parts; }
    }
    FirstRecorded(r.minors, MAX_PARTITIONS, m);
  }

  // ---------- The mask the counter replaced ----------

  // The unsigned word, as the set of its bit positions that are 1
  type Mask = set<nat>

  // partmask |= 1 << i, for i in 1..nparts
  function PartMask(nparts: nat): (m: Mask)
    ensures forall i :: i in m <==> 1 <= i <= nparts
    ensures |m| == nparts
  {
    if nparts == 0 then {} else PartMask(nparts - 1) + {nparts}
  }

  // mask &= ~(1 << part), for each event in turn
  function ClearAll(mask: Mask, parts: seq<int>): Mask
    requires forall i :: 0 <= i < |parts| ==> parts[i] >= 0
  {
    if parts == [] then mask
    else ClearAll(mask, parts[..|parts| - 1]) - {parts[|parts| - 1]}
  }

  // For a disk of at most 31 partitions and any sequence of its part numbers, the counter
  // is the number of bits left in the mask and the slots tell which: both forms become
  // ready at the same event.
  lemma {:induction false} CounterRefinesMask(nparts: nat, parts: seq<int>, minors: seq<int>)
    requires nparts < MAX_PARTITIONS && |parts| == |minors|
    requires forall i :: 0 <= i < |parts| ==> 1 <= parts[i] <= nparts && minors[i] >= 0
    ensures var c := RecordAll(Counter(NoMinors(), Expected(nparts)), parts, minors);
            var mask := ClearAll(PartMask(nparts), parts);
            && c.pending == |mask|
            && (c.pending == 0 <==> mask == {})
            && (forall k :: 0 <= k < nparts ==> (c.minors[k] < 0 <==> k + 1 in mask))
  {
    if parts != [] {
      var n := |parts| - 1;
      CounterRefinesMask(nparts, parts[..n], minors[..n]);
      var before := ClearAll(PartMask(nparts), parts[..n]);
      var k := parts[n] - 1;
      assert k + 1 in before ==> |before - {parts[n]}| == |before| - 1;
      assert k + 1 !in before ==> before - {parts[n]} == before;
    }
  }
}
