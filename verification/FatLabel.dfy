/**
 Reading the volume label from the root directory of a FAT32 filesystem
 (readRootEntryLabel in utils.c): the geometry in the code's integer widths, the walk along
 the cluster chain of the root directory, and when it ends. See "FAT: General Overview of
 On-Disk Format", version 1.03, sections "FAT Data Structure" and "FAT Directory
 Structure". A read either fails or delivers all its bytes.
 */
module FatLabel {
  import opened Basics

  type byte = b: int | 0 <= b < 256
  type u16 = n: int | 0 <= n < 0x1_0000

  // Division as in C
  function Quotient(a: int, b: int): int
    requires b > 0
  {
    if a >= 0 then a / b else -(-a / b)
  }

  datatype Device = Device(at: int -> byte, fails: int -> bool)

  // The fields of the boot sector that are used
  datatype Boot = Boot(
    sectorSize: u16, sectorsPerCluster: byte, reserved: u16, fats: byte, dirEntries: u16,
    sectors: u32, fat16Length: u16, fat32Length: u32, rootCluster: u32)

  function ClusterSize(b: Boot): nat { b.sectorSize * b.sectorsPerCluster }

  function FatStart(b: Boot): nat { b.reserved * b.sectorSize }

  // (reserved + fats * fatLength) * size, in int
  function FatEnd(reserved: u16, fats: byte, fatLength: int, size: u16): int {
    I32(I32(reserved + I32(fats * fatLength)) * size)
  }

  function DataStart(b: Boot): int
    requires b.sectorSize > 0
  {
    var fatLength := if b.fat16Length != 0 then b.fat16Length else I32(b.fat32Length);
    FatEnd(b.reserved, b.fats, fatLength, b.sectorSize)
    + (b.dirEntries * 32 + b.sectorSize - 1) / b.sectorSize * b.sectorSize
  }

  function DataSize(b: Boot): int
    requires b.sectorSize > 0
  {
    b.sectors * b.sectorSize - DataStart(b)
  }

  // num_cluster: the clusters that fit the data area, and two, in u32
  function NumCluster(data: int, size: nat): u32
    requires size > 0
  {
    U32(U32(Quotient(data, size)) + 2)
  }

  // What the walk needs
  datatype Geometry = Geometry(dataStart: int, clusterSize: nat, fatStart: nat, numCluster: u32)

  function GeometryOf(b: Boot): Geometry
    requires b.sectorSize > 0 && b.sectorsPerCluster > 0
  {
    Geometry(DataStart(b), ClusterSize(b), FatStart(b), NumCluster(DataSize(b), ClusterSize(b)))
  }

  // CLUSTER_START
  function ClusterStart(g: Geometry, cluster: u32): int {
    g.dataStart + U32(U32(cluster - 2) * g.clusterSize)
  }

  // ---- Directory entries

  datatype Verdict = Nothing | Failed | Label(text: seq<byte>)

  // Up to n bytes, and not beyond a NUL
  function Text(d: Device, at: int, n: nat): (s: seq<byte>)
    ensures |s| <= n && forall k :: 0 <= k < |s| ==> s[k] == d.at(at + k) != 0
    ensures |s| < n ==> d.at(at + |s|) == 0
    decreases n
  {
    if n == 0 || d.at(at) == 0 then [] else [d.at(at)] + Text(d, at + 1, n - 1)
  }

  function Entry(d: Device, at: int): Verdict {
    if d.fails(at + 11) then Failed
    else if d.at(at + 11) != 0x08 then Nothing
    else if d.fails(at + 8) || d.fails(at) then Failed
    else if d.at(at) == 0xE5 || d.at(at) == 0 then Nothing
    else Label(Text(d, at, 8) + Text(d, at + 8, 3))
  }

  // The entries from number i on, of those that start within the cluster
  function Scan(d: Device, start: int, size: nat, i: nat): Verdict
    decreases if i * 32 < size then size - i * 32 else 0
  {
    if i * 32 >= size then Nothing
    else match Entry(d, start + 32 * i)
         case Nothing => Scan(d, start, size, i + 1)
         case v => v
  }

  // A cluster answers with its first entry that is a live label or cannot be read; `first`
  // is its number, or lies beyond the cluster if there is none.
  lemma {:induction false} ScanFindsTheFirst(d: Device, start: int, size: nat, i: nat) returns (first: nat)
    ensures i <= first && forall k :: i <= k < first ==> Entry(d, start + 32 * k) == Nothing
    ensures first * 32 >= size ==> Scan(d, start, size, i) == Nothing
    ensures first * 32 < size ==> Scan(d, start, size, i) == Entry(d, start + 32 * first) != Nothing
    decreases if i * 32 < size then size - i * 32 else 0
  {
    first := i;
    if i * 32 < size && Entry(d, start + 32 * i) == Nothing {
      first := ScanFindsTheFirst(d, start, size, i + 1);
    }
  }

  // ---- The chain

  function FatEntry(d: Device, at: int): u32 {
    d.at(at) + 0x100 * d.at(at + 1) + 0x1_0000 * d.at(at + 2) + 0x100_0000 * d.at(at + 3)
  }

  function FatOffset(g: Geometry, cluster: u32): int {
    U32(g.fatStart + U32(cluster * 4))
  }

  // The low 24 bits
  function Mask(v: u32): u32 { v % 0x100_0000 }

  function Next(d: Device, g: Geometry, cluster: u32): u32 {
    Mask(FatEntry(d, FatOffset(g, cluster)))
  }

  predicate InChain(g: Geometry, cluster: u32) {
    cluster != 0 && cluster < g.numCluster
  }

  function Inside(d: Device, g: Geometry, cluster: u32): Verdict {
    Scan(d, ClusterStart(g, cluster), g.clusterSize, 0)
  }

  // The walk does not go beyond this cluster, and why.
  predicate Ends(d: Device, g: Geometry, cluster: u32) {
    !InChain(g, cluster) || Inside(d, g, cluster) != Nothing || d.fails(FatOffset(g, cluster))
  }

  function Answer(d: Device, g: Geometry, cluster: u32): Verdict {
    if !InChain(g, cluster) then Nothing
    else if Inside(d, g, cluster) != Nothing then Inside(d, g, cluster)
    else Failed
  }

  // ---- Walks in general

  // How to go on, and where not to
  datatype Route = Route(next: u32 -> u32, ends: u32 -> bool, bound: nat)

  function RouteOf(d: Device, g: Geometry): Route {
    Route((c: u32) => Next(d, g, c), (c: u32) => Ends(d, g, c), g.numCluster)
  }

  // The walk goes on from numbers 1 to bound - 1 only.
  ghost predicate Bounded(w: Route) {
    forall c: u32 :: !w.ends(c) ==> 1 <= c < w.bound
  }

  // The cluster reached after k reads of the FAT
  function At(w: Route, root: u32, k: nat): u32 {
    if k == 0 then root else w.next(At(w, root, k - 1))
  }

  predicate EndsAt(w: Route, root: u32, k: nat) {
    && w.ends(At(w, root, k))
    && forall j :: 0 <= j < k ==> !w.ends(At(w, root, j))
  }

  ghost predicate Terminates(w: Route, root: u32) {
    exists k: nat :: w.ends(At(w, root, k))
  }

  // ---- When the walk ends

  // A cluster is visited twice before anything ends the walk.
  ghost predicate Cycles(w: Route, root: u32) {
    exists i: nat, j: nat :: Cycle(w, root, i, j)
  }

  predicate Cycle(w: Route, root: u32, i: nat, j: nat) {
    && i < j && At(w, root, i) == At(w, root, j)
    && forall k :: 0 <= k < j ==> !w.ends(At(w, root, k))
  }

  lemma {:induction false} CycleRepeats(w: Route, root: u32, i: nat, j: nat, k: nat)
    requires Cycle(w, root, i, j) && k >= i
    ensures At(w, root, k + (j - i)) == At(w, root, k)
  {
    if k > i {
      CycleRepeats(w, root, i, j, k - 1);
    }
  }

  lemma {:induction false} CycleNeverEnds(w: Route, root: u32, i: nat, j: nat, k: nat)
    requires Cycle(w, root, i, j)
    ensures !w.ends(At(w, root, k))
  {
    if k >= j {
      CycleRepeats(w, root, i, j, k - (j - i));
      CycleNeverEnds(w, root, i, j, k - (j - i));
    }
  }

  function Values(f: nat -> nat, n: nat): set<nat> {
    set i | 0 <= i < n :: f(i)
  }

  lemma {:induction false} DistinctValues(f: nat -> nat, n: nat)
    requires forall i, j :: 0 <= i < j < n ==> f(i) != f(j)
    ensures |Values(f, n)| == n
  {
    if n > 0 {
      DistinctValues(f, n - 1);
      assert Values(f, n) == Values(f, n - 1) + {f(n - 1)};
      assert f(n - 1) !in Values(f, n - 1);
    } else {
      assert Values(f, n) == {};
    }
  }

  lemma {:induction false} SmallSet(s: set<nat>, bound: nat)
    requires forall x :: x in s ==> 1 <= x <= bound
    ensures |s| <= bound
  {
    if bound == 0 {
      assert s == {};
    } else {
      SmallSet(s - {bound}, bound - 1);
    }
  }

  // A walk that has not ended after numCluster clusters has been somewhere twice.
  lemma LongWalksCycle(w: Route, root: u32)
    requires w.bound > 0 && Bounded(w)
    requires forall k :: 0 <= k < w.bound ==> !w.ends(At(w, root, k))
    ensures exists i: nat, j: nat :: j < w.bound && Cycle(w, root, i, j)
  {
    var f: nat -> nat := k => At(w, root, k);
    var n := w.bound;
    if forall i, j :: 0 <= i < j < n ==> f(i) != f(j) {
      DistinctValues(f, n);
      SmallSet(Values(f, n), n - 1);
    } else {
      var i: nat, j: nat :| 0 <= i < j < n && f(i) == f(j);
      assert Cycle(w, root, i, j);
    }
  }

  lemma {:induction false} FirstEnd(w: Route, root: u32, k: nat) returns (first: nat)
    requires w.ends(At(w, root, k))
    ensures first <= k && EndsAt(w, root, first)
  {
    if j: nat :| j < k && w.ends(At(w, root, j)) {
      first := FirstEnd(w, root, j);
    } else {
      first := k;
    }
  }

  // The walk ends exactly on chains it does not enter twice, and then after fewer reads of
  // the FAT than there are cluster numbers.
  lemma TerminatesIff(w: Route, root: u32)
    requires Bounded(w)
    ensures Terminates(w, root) <==> !Cycles(w, root)
    ensures Terminates(w, root) ==> exists k: nat :: EndsAt(w, root, k) && (k < w.bound || k == 0)
  {
    if Terminates(w, root) {
      var k: nat :| w.ends(At(w, root, k));
      if i: nat, j: nat :| Cycle(w, root, i, j) {
        CycleNeverEnds(w, root, i, j, k);
      }
      var first := FirstEnd(w, root, k);
      if first >= w.bound && first > 0 {
        assert w.bound > 0 by { assert !w.ends(At(w, root, 0)); }
        LongWalksCycle(w, root);
      }
    } else {
      assert !w.ends(At(w, root, 0));
      forall k | 0 <= k < w.bound ensures !w.ends(At(w, root, k)) {
      }
      LongWalksCycle(w, root);
    }
  }

  // ---- The reading itself

  method ScanCluster(d: Device, start: int, size: nat) returns (v: Verdict)
    ensures v == Scan(d, start, size, 0)
  {
    var offset := start;
    var i := 0;
    while i * 32 < size
      invariant offset == start + 32 * i
      invariant Scan(d, start, size, 0) == Scan(d, start, size, i)
      decreases size - i * 32
    {
      v := Entry(d, offset);
      if v != Nothing {
        return v;
      }
      i, offset := i + 1, offset + 32;
    }
    return Nothing;
  }

  // On a chain with a cycle and no label the code does not come back; see TerminatesIff.
  method Walk(d: Device, g: Geometry, root: u32) returns (v: Verdict)
    requires Terminates(RouteOf(d, g), root)
    ensures exists k: nat :: EndsAt(RouteOf(d, g), root, k) && (k < g.numCluster || k == 0)
                        && v == Answer(d, g, At(RouteOf(d, g), root, k))
  {
    ghost var hops;
    v, hops := WalkAlong(d, g, root, RouteOf(d, g));
  }

  ghost predicate Matches(w: Route, d: Device, g: Geometry) {
    w.bound == g.numCluster && forall c: u32 :: MatchesAt(w, d, g, c)
  }

  ghost predicate MatchesAt(w: Route, d: Device, g: Geometry, c: u32) {
    w.ends(c) == Ends(d, g, c) && w.next(c) == Next(d, g, c)
  }

  method WalkAlong(d: Device, g: Geometry, root: u32, ghost w: Route) returns (v: Verdict, ghost hops: nat)
    requires Matches(w, d, g) && Bounded(w) && Terminates(w, root)
    ensures EndsAt(w, root, hops) && (hops < w.bound || hops == 0)
    ensures v == Answer(d, g, At(w, root, hops))
  {
    TerminatesIff(w, root);
    ghost var last: nat :| EndsAt(w, root, last) && (last < w.bound || last == 0);
    hops := 0;
    var cluster := root;
    while InChain(g, cluster)
      invariant hops <= last && cluster == At(w, root, hops)
      decreases last - hops
    {
      var done, found, next := VisitAlong(d, g, cluster, w);
      if done {
        return found, hops;
      }
      NotYet(w, root, hops, last);
      cluster := next;
      hops := hops + 1;
    }
    EndsOutside(d, g, cluster, w);
    return Nothing, hops;
  }

  lemma EndsOutside(d: Device, g: Geometry, cluster: u32, w: Route)
    requires Matches(w, d, g) && !InChain(g, cluster)
    ensures w.ends(cluster) && Answer(d, g, cluster) == Nothing
  {
    assert MatchesAt(w, d, g, cluster);
  }

  method VisitAlong(d: Device, g: Geometry, cluster: u32, ghost w: Route) returns (done: bool, v: Verdict, next: u32)
    requires InChain(g, cluster) && Matches(w, d, g)
    ensures done == w.ends(cluster)
    ensures if done then v == Answer(d, g, cluster) else next == w.next(cluster)
  {
    assert MatchesAt(w, d, g, cluster);
    done, v, next := Visit(d, g, cluster);
  }

  lemma NotYet(w: Route, root: u32, hops: nat, last: nat)
    requires EndsAt(w, root, last) && hops <= last && !w.ends(At(w, root, hops))
    ensures hops < last
  {
  }

  // One cluster: its entries, then its entry in the FAT
  method Visit(d: Device, g: Geometry, cluster: u32) returns (done: bool, v: Verdict, next: u32)
    requires InChain(g, cluster)
    ensures done == Ends(d, g, cluster)
    ensures if done then v == Answer(d, g, cluster) else next == Next(d, g, cluster)
  {
    next := 0;
    v := ScanCluster(d, ClusterStart(g, cluster), g.clusterSize);
    if v != Nothing {
      return true, v, 0;
    }
    if d.fails(FatOffset(g, cluster)) {
      return true, Failed, 0;
    }
    return false, Nothing, Next(d, g, cluster);
  }

  datatype Outcome = DividesByZero | Done(v: Verdict)

  predicate PowerOfTwo(n: nat) {
    n == 1 || (n > 0 && n % 2 == 0 && PowerOfTwo(n / 2))
  }

  // What is walked is a FAT32 filesystem with a root directory.
  predicate HasChain(b: Boot) {
    b.fat16Length == 0 && b.fat32Length != 0 && b.rootCluster != 0
  }

  // readRootEntryLabel, with the boot sector read
  method ReadRootEntryLabel(b: Boot, d: Device) returns (o: Outcome)
    requires PowerOfTwo(b.sectorSize) && b.sectorsPerCluster > 0 && HasChain(b) ==>
               Terminates(RouteOf(d, GeometryOf(b)), b.rootCluster)
    ensures !PowerOfTwo(b.sectorSize) ==> o == Done(Nothing)
    ensures PowerOfTwo(b.sectorSize) ==> (o == DividesByZero <==> b.sectorsPerCluster == 0)
    ensures PowerOfTwo(b.sectorSize) && b.sectorsPerCluster > 0 && !HasChain(b) ==> o == Done(Nothing)
    ensures PowerOfTwo(b.sectorSize) && b.sectorsPerCluster > 0 && HasChain(b) ==>
              var g := GeometryOf(b); var w := RouteOf(d, g);
              exists k: nat :: EndsAt(w, b.rootCluster, k) && o == Done(Answer(d, g, At(w, b.rootCluster, k)))
  {
    if !PowerOfTwo(b.sectorSize) {
      return Done(Nothing);
    }
    if b.sectorsPerCluster == 0 {
      return DividesByZero;
    }
    if b.fat16Length == 0 && b.fat32Length != 0 && b.rootCluster != 0 {
      var v := Walk(d, GeometryOf(b), b.rootCluster);
      return Done(v);
    }
    return Done(Nothing);
  }

  // The number of the cluster reached after k reads of the FAT
  function ClusterAt(d: Device, g: Geometry, root: u32, k: nat): u32 {
    At(RouteOf(d, g), root, k)
  }

  // The answer in full. Every entry of every cluster before the last was passed over, and in
  // the last one every entry before number `first`; that entry is the label or cannot be
  // read, or it lies beyond the cluster and the FAT cannot be read, or the chain has ended.
  lemma AnswerIsTheFirst(d: Device, g: Geometry, root: u32, k: nat) returns (first: nat)
    requires EndsAt(RouteOf(d, g), root, k)
    ensures forall j, i: nat :: 0 <= j < k && i * 32 < g.clusterSize ==> EntryAt(d, g, root, j, i) == Nothing
    ensures forall i: nat :: i < first ==> EntryAt(d, g, root, k, i) == Nothing
    ensures var last := ClusterAt(d, g, root, k);
            if !InChain(g, last) then Answer(d, g, last) == Nothing
            else if first * 32 < g.clusterSize then Answer(d, g, last) == EntryAt(d, g, root, k, first) != Nothing
            else Answer(d, g, last) == Failed && d.fails(FatOffset(g, last))
  {
    forall j, i: nat | 0 <= j < k && i * 32 < g.clusterSize ensures EntryAt(d, g, root, j, i) == Nothing {
      PassedOver(d, g, root, k, j, i);
    }
    LastEnds(d, g, root, k);
    first := LastCluster(d, g, ClusterAt(d, g, root, k));
  }

  lemma LastCluster(d: Device, g: Geometry, last: u32) returns (first: nat)
    requires Ends(d, g, last)
    ensures forall i: nat :: i < first ==> Entry(d, ClusterStart(g, last) + 32 * i) == Nothing
    ensures if !InChain(g, last) then Answer(d, g, last) == Nothing
            else if first * 32 < g.clusterSize
            then Answer(d, g, last) == Entry(d, ClusterStart(g, last) + 32 * first) != Nothing
            else Answer(d, g, last) == Failed && d.fails(FatOffset(g, last))
  {
    first := ScanFindsTheFirst(d, ClusterStart(g, last), g.clusterSize, 0);
  }

  // Entry i of the cluster after j reads of the FAT
  function EntryAt(d: Device, g: Geometry, root: u32, j: nat, i: nat): Verdict {
    Entry(d, ClusterStart(g, ClusterAt(d, g, root, j)) + 32 * i)
  }

  lemma PassedOver(d: Device, g: Geometry, root: u32, k: nat, j: nat, i: nat)
    requires EndsAt(RouteOf(d, g), root, k) && j < k && i * 32 < g.clusterSize
    ensures EntryAt(d, g, root, j, i) == Nothing
  {
    var cluster := ClusterAt(d, g, root, j);
    assert !RouteOf(d, g).ends(cluster);
    var first := ScanFindsTheFirst(d, ClusterStart(g, cluster), g.clusterSize, 0);
  }

  lemma LastEnds(d: Device, g: Geometry, root: u32, k: nat)
    requires EndsAt(RouteOf(d, g), root, k)
    ensures Ends(d, g, ClusterAt(d, g, root, k))
  {
    assert RouteOf(d, g).ends(ClusterAt(d, g, root, k));
  }

  // ---- Filesystems laid out by the format

  function EntryAddress(fatStart: nat, cluster: u32): int {
    fatStart + 4 * cluster
  }

  // The bytes that make up the entry of the FAT for a link, low byte first
  predicate Links(d: Device, fatStart: nat, from: u32, link: u32) {
    var at := EntryAddress(fatStart, from);
    && d.at(at) == link % 0x100
    && d.at(at + 1) == link / 0x100 % 0x100
    && d.at(at + 2) == link / 0x1_0000 % 0x100
    && d.at(at + 3) == link / 0x100_0000
  }

  lemma LinkIsRead(d: Device, g: Geometry, from: u32, link: u32)
    requires Links(d, g.fatStart, from, link) && EntryAddress(g.fatStart, from) < 0x1_0000_0000
    ensures FatOffset(g, from) == EntryAddress(g.fatStart, from) && Next(d, g, from) == link % 0x100_0000
  {
    Bytes(link);
  }

  lemma Bytes(x: u32)
    ensures x == x % 0x100 + 0x100 * (x / 0x100 % 0x100) + 0x1_0000 * (x / 0x1_0000 % 0x100)
                 + 0x100_0000 * (x / 0x100_0000)
  {
    var a, b, c := x / 0x100, x / 0x1_0000, x / 0x100_0000;
    assert x == 0x100 * a + x % 0x100;
    assert a / 0x100 == b && a == 0x100 * b + a % 0x100;
    assert b / 0x100 == c && b == 0x100 * c + b % 0x100;
  }

  // A chain of clusters, each linked to the next by its entry of the FAT
  predicate LaidOut(d: Device, g: Geometry, chain: seq<u32>) {
    forall k :: 0 <= k < |chain| - 1 ==> Linked(d, g, chain, k)
  }

  predicate Linked(d: Device, g: Geometry, chain: seq<u32>, k: nat)
    requires k < |chain| - 1
  {
    && EntryAddress(g.fatStart, chain[k]) < 0x1_0000_0000 && chain[k + 1] < 0x100_0000
    && Links(d, g.fatStart, chain[k], chain[k + 1])
  }

  lemma {:induction false} ChainIsFollowed(d: Device, g: Geometry, chain: seq<u32>, k: nat)
    requires LaidOut(d, g, chain) && k < |chain|
    ensures ClusterAt(d, g, chain[0], k) == chain[k]
  {
    if k > 0 {
      ChainIsFollowed(d, g, chain, k - 1);
      NextInChain(d, g, chain, k - 1);
      OneStep(d, g, chain[0], k);
    }
  }

  lemma NextInChain(d: Device, g: Geometry, chain: seq<u32>, k: nat)
    requires k < |chain| - 1 && Linked(d, g, chain, k)
    ensures Next(d, g, chain[k]) == chain[k + 1] && FatOffset(g, chain[k]) == EntryAddress(g.fatStart, chain[k])
  {
    LinkIsRead(d, g, chain[k], chain[k + 1]);
  }

  lemma OneStep(d: Device, g: Geometry, root: u32, k: nat)
    requires k > 0
    ensures ClusterAt(d, g, root, k) == Next(d, g, ClusterAt(d, g, root, k - 1))
  {
  }

  // A volume label of eleven bytes, none of them NUL, in a directory entry of 32
  predicate LabelEntry(d: Device, at: int, text: seq<byte>) {
    && |text| == 11 && 0 !in text && text[0] != 0xE5
    && (forall k :: 0 <= k < 11 ==> d.at(at + k) == text[k]) && d.at(at + 11) == 0x08
    && !d.fails(at) && !d.fails(at + 8) && !d.fails(at + 11)
  }

  // An entry of another kind, or one that is free or was deleted
  predicate OtherEntry(d: Device, at: int) {
    && !d.fails(at) && !d.fails(at + 8) && !d.fails(at + 11)
    && (d.at(at + 11) != 0x08 || d.at(at) == 0xE5 || d.at(at) == 0)
  }

  lemma EntriesAreTold(d: Device, at: int, text: seq<byte>)
    ensures LabelEntry(d, at, text) ==> Entry(d, at) == Label(text)
    ensures OtherEntry(d, at) ==> Entry(d, at) == Nothing
  {
    if LabelEntry(d, at, text) {
      TextIs(d, at, text[..8]);
      TextIs(d, at + 8, text[8..]);
      assert text[..8] + text[8..] == text;
    }
  }

  lemma {:induction false} TextIs(d: Device, at: int, text: seq<byte>)
    requires 0 !in text && forall k :: 0 <= k < |text| ==> d.at(at + k) == text[k]
    ensures Text(d, at, |text|) == text
    decreases |text|
  {
    if text != [] {
      assert d.at(at + 0) == text[0] && text[0] in text;
      assert 0 !in text[1..] by { assert forall x :: x in text[1..] ==> x in text; }
      assert forall k :: 0 <= k < |text| - 1 ==> d.at(at + 1 + k) == text[1..][k];
      TextIs(d, at + 1, text[1..]);
    }
  }

  // All entries of a cluster are other ones, and its entry of the FAT can be read.
  ghost predicate Unlabelled(d: Device, g: Geometry, cluster: u32) {
    && InChain(g, cluster) && !d.fails(EntryAddress(g.fatStart, cluster))
    && forall e: nat :: e * 32 < g.clusterSize ==> OtherEntry(d, ClusterStart(g, cluster) + 32 * e)
  }

  // Entry i is the first that is not.
  ghost predicate LabelledAt(d: Device, g: Geometry, cluster: u32, i: nat, text: seq<byte>) {
    && InChain(g, cluster) && i * 32 < g.clusterSize
    && (forall e: nat :: e < i ==> OtherEntry(d, ClusterStart(g, cluster) + 32 * e))
    && LabelEntry(d, ClusterStart(g, cluster) + 32 * i, text)
  }

  // On a directory laid out like that the label is found, in whichever cluster of the chain
  // and whichever entry it is.
  lemma LabelIsFound(d: Device, g: Geometry, chain: seq<u32>, k: nat, i: nat, text: seq<byte>)
    requires LaidOut(d, g, chain) && k < |chain| && LabelledAt(d, g, chain[k], i, text)
    requires forall j :: 0 <= j < k ==> Unlabelled(d, g, chain[j])
    ensures EndsAt(RouteOf(d, g), chain[0], k) && Answer(d, g, ClusterAt(d, g, chain[0], k)) == Label(text)
  {
    var w := RouteOf(d, g);
    forall j | 0 <= j < k ensures !w.ends(At(w, chain[0], j)) {
      ChainIsFollowed(d, g, chain, j);
      assert Linked(d, g, chain, j) && Unlabelled(d, g, chain[j]);
      NextInChain(d, g, chain, j);
      GoesOn(d, g, chain[j]);
    }
    ChainIsFollowed(d, g, chain, k);
    StopsWith(d, g, chain[k], i, text);
  }

  lemma GoesOn(d: Device, g: Geometry, cluster: u32)
    requires Unlabelled(d, g, cluster) && FatOffset(g, cluster) == EntryAddress(g.fatStart, cluster)
    ensures !Ends(d, g, cluster)
  {
    var first := ScanFindsTheFirst(d, ClusterStart(g, cluster), g.clusterSize, 0);
    EntriesAreTold(d, ClusterStart(g, cluster) + 32 * first, []);
  }

  lemma StopsWith(d: Device, g: Geometry, cluster: u32, i: nat, text: seq<byte>)
    requires LabelledAt(d, g, cluster, i, text)
    ensures Ends(d, g, cluster) && Answer(d, g, cluster) == Label(text)
  {
    FoundAt(d, ClusterStart(g, cluster), g.clusterSize, i, text);
  }

  lemma FoundAt(d: Device, start: int, size: nat, i: nat, text: seq<byte>)
    requires i * 32 < size && LabelEntry(d, start + 32 * i, text)
    requires forall e: nat :: e < i ==> OtherEntry(d, start + 32 * e)
    ensures Scan(d, start, size, 0) == Label(text)
  {
    EntriesAreTold(d, start + 32 * i, text);
    forall e: nat | e < i ensures Entry(d, start + 32 * e) == Nothing {
      EntriesAreTold(d, start + 32 * e, text);
    }
    var first := ScanFindsTheFirst(d, start, size, 0);
  }

  // ---- Where the reads go

  // The end of the FATs, behind which the root directory and then the data area start, is
  // computed as the format says exactly if it is below 2^31.
  lemma FatEndIsRightIff(reserved: u16, fats: byte, length: u32, size: u16)
    ensures FatEnd(reserved, fats, I32(length), size) == (reserved + fats * length) * size
            <==> (reserved + fats * length) * size < 0x8000_0000
  {
    var end, total := FatEnd(reserved, fats, I32(length), size), (reserved + fats * length) * size;
    assert total >= 0 by {
      Product(reserved + fats * length, size);
    }
    assert end == I32(total) by {
      FatEndIsWrapped(reserved, fats, length, size);
    }
    RightIff(end, total);
  }

  lemma Product(a: nat, b: nat)
    ensures a * b >= 0
  {
  }

  lemma RightIff(end: int, total: nat)
    requires end == I32(total)
    ensures end == total <==> total < 0x8000_0000
  {
  }

  lemma FatEndIsWrapped(reserved: u16, fats: byte, length: u32, size: u16)
    ensures FatEnd(reserved, fats, I32(length), size) == I32((reserved + fats * length) * size)
  {
    var product, sum := fats * I32(length), reserved + fats * length;
    TimesWrapped(fats, length);
    PlusWrapped(reserved, product);
    PlusSame(reserved, product, fats * length);
    SameWord(reserved + I32(product), sum);
    TimesWrapped(size, sum);
    SameWord(size * I32(sum), size * sum);
    assert sum * size == size * sum && I32(sum) * size == size * I32(sum);
  }

  lemma SameWord(x: int, y: int)
    requires U32(x) == U32(y)
    ensures I32(x) == I32(y)
  {
  }

  lemma PlusSame(a: int, x: int, y: int)
    requires U32(x) == U32(y)
    ensures U32(a + x) == U32(a + y)
  {
    var m := (x - y) / 0x1_0000_0000;
    assert x == y + m * 0x1_0000_0000;
    Shift(a + y, m);
  }

  lemma Shift(y: int, m: int)
    ensures U32(y + m * 0x1_0000_0000) == U32(y)
  {
  }

  lemma TimesWrapped(a: int, x: int)
    ensures U32(a * I32(x)) == U32(a * x)
  {
    var m := (x - I32(x)) / 0x1_0000_0000;
    assert x == I32(x) + m * 0x1_0000_0000;
    assert a * x == a * I32(x) + (a * m) * 0x1_0000_0000;
    Shift(a * I32(x), a * m);
  }

  lemma PlusWrapped(a: int, x: int)
    ensures U32(a + I32(x)) == U32(a + x)
  {
    var m := (x - I32(x)) / 0x1_0000_0000;
    assert x == I32(x) + m * 0x1_0000_0000;
    Shift(a + I32(x), m);
  }

  // The geometry of a FAT32 filesystem whose FATs end below 2^31 and whose data area is under
  // 2^32 bytes: reserved sectors, FATs, root directory rounded up to sectors, clusters.
  lemma GeometryIs(b: Boot)
    requires b.sectorSize > 0 && b.sectorsPerCluster > 0 && b.fat16Length == 0 && ClusterSize(b) >= 32
    requires (b.reserved + b.fats * b.fat32Length) * b.sectorSize < 0x8000_0000 && 0 <= DataSize(b) < 0x1_0000_0000
    ensures var g := GeometryOf(b);
            && g.clusterSize == b.sectorSize * b.sectorsPerCluster && g.fatStart == b.reserved * b.sectorSize
            && (var root := g.dataStart - (b.reserved + b.fats * b.fat32Length) * b.sectorSize;
                b.dirEntries * 32 <= root < b.dirEntries * 32 + b.sectorSize && root % b.sectorSize == 0)
            && g.numCluster == (b.sectors * b.sectorSize - g.dataStart) / g.clusterSize + 2
  {
    FatEndIsRightIff(b.reserved, b.fats, b.fat32Length, b.sectorSize);
    RoundedUp(b.dirEntries * 32, b.sectorSize);
    CountIsRight(DataSize(b), ClusterSize(b));
  }

  lemma Split(x: nat, b: nat)
    requires b > 0
    ensures x == b * (x / b) + x % b
  {
  }

  lemma RoundedUp(x: nat, size: nat)
    requires size > 0
    ensures var r := (x + size - 1) / size * size; x <= r < x + size && r % size == 0
  {
    var q := (x + size - 1) / size;
    Split(x + size - 1, size);
    Multiple(q, size);
    assert q * size == size * q;
  }

  lemma {:induction false} Multiple(q: nat, size: nat)
    requires size > 0
    ensures q * size % size == 0
  {
    if q > 0 {
      Multiple(q - 1, size);
      assert q * size == (q - 1) * size + size;
      AddOne((q - 1) * size, size);
    }
  }

  lemma AddOne(x: nat, size: nat)
    requires size > 0 && x % size == 0
    ensures (x + size) % size == 0
  {
    Split(x, size);
    assert x + size == size * (x / size + 1);
    Unique(x + size, size, x / size + 1, 0);
  }

  lemma Unique(x: nat, size: nat, q: nat, r: nat)
    requires size > 0 && x == size * q + r && r < size
    ensures x % size == r
  {
    Split(x, size);
    var q', r' := x / size, x % size;
    if q' > q {
      Scale(q + 1, q', size);
    } else if q > q' {
      Scale(q' + 1, q, size);
    }
  }

  // With a data area under 2^32 bytes the number of clusters does not wrap around.
  lemma CountIsRight(data: nat, size: nat)
    requires size >= 32 && data < 0x1_0000_0000
    ensures NumCluster(data, size) == data / size + 2
  {
    Fits(data, size, data / size);
  }

  // Then a cluster of the chain lies within the data area exactly if it is not number 1.
  lemma ClusterIsInsideIff(g: Geometry, data: nat, cluster: u32)
    requires 32 <= g.clusterSize < 0x100_0000 && data < 0x1_0000_0000 && g.numCluster == data / g.clusterSize + 2
    requires InChain(g, cluster)
    ensures var start := ClusterStart(g, cluster);
            && (cluster >= 2 <==> g.dataStart <= start && start + g.clusterSize <= g.dataStart + data)
            && (cluster >= 2 ==> start == g.dataStart + (cluster - 2) * g.clusterSize)
  {
    var n := data / g.clusterSize;
    Fits(data, g.clusterSize, n);
    if cluster >= 2 {
      FromTwo(data, g.clusterSize, n, cluster);
    } else {
      BackOne(g.clusterSize);
    }
  }

  // And so do all its entries, in whole, when its size is a multiple of theirs.
  lemma EntriesAreInside(g: Geometry, data: nat, cluster: u32, i: nat)
    requires 32 <= g.clusterSize < 0x100_0000 && data < 0x1_0000_0000 && g.numCluster == data / g.clusterSize + 2
    requires InChain(g, cluster) && cluster >= 2 && g.clusterSize % 32 == 0 && i * 32 < g.clusterSize
    ensures var entry := ClusterStart(g, cluster) + 32 * i;
            g.dataStart <= entry && entry + 32 <= g.dataStart + data
  {
    ClusterIsInsideIff(g, data, cluster);
  }

  lemma FromTwo(data: nat, size: nat, n: nat, cluster: u32)
    requires n * size <= data < 0x1_0000_0000 && 2 <= cluster < n + 2
    ensures U32(U32(cluster - 2) * size) == (cluster - 2) * size
    ensures (cluster - 2) * size + size <= data
  {
    Scale(cluster - 1, n, size);
    assert (cluster - 1) * size == (cluster - 2) * size + size;
  }

  lemma Fits(data: nat, size: nat, n: nat)
    requires size >= 32 && n == data / size && data < 0x1_0000_0000
    ensures n * size <= data && n < 0x1_0000_0000 - 2
  {
  }

  lemma Scale(a: nat, n: nat, size: nat)
    requires a <= n
    ensures a * size <= n * size
  {
  }

  lemma BackOne(size: nat)
    requires 0 < size < 0x1_0000_0000
    ensures U32(U32(1 - 2) * size) == 0x1_0000_0000 - size
  {
    assert (0x1_0000_0000 - 1) * size == 0x1_0000_0000 * (size - 1) + (0x1_0000_0000 - size);
  }

  // Each of the eight end marks of a FAT32 chain ends the walk, exactly up to this many
  // cluster numbers: the code keeps 24 bits of an entry, not 28.
  lemma EndMarksEndIff(g: Geometry)
    ensures (forall v: u32 :: 0x0fff_fff8 <= v <= 0x0fff_ffff ==> !InChain(g, Mask(v))) <==> g.numCluster <= 0xff_fff8
  {
    if g.numCluster <= 0xff_fff8 {
      forall v: u32 | 0x0fff_fff8 <= v <= 0x0fff_ffff ensures !InChain(g, Mask(v)) {
        assert Mask(v) == v - 0x0f00_0000;
      }
    } else {
      var v: u32 := 0x0fff_fff8;
      assert Mask(v) == 0xff_fff8 && InChain(g, Mask(v));
    }
  }

  // A link to a cluster of such a filesystem is followed to it, whatever the four reserved
  // bits of the entry hold.
  lemma LinksAreKept(g: Geometry, link: u32, reserved: nat)
    requires g.numCluster <= 0xff_fff8 && link < g.numCluster && reserved < 16
    ensures Mask(U32(reserved * 0x1000_0000 + link)) == link
  {
  }
}
