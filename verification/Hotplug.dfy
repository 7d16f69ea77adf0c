/**
 What hot-plug events and volume commands do to a disk volume (DirectVolume.cpp, with the
 state part of Volume.cpp), and to the manager's mass-storage bookkeeping
 (VolumeManager.cpp), as step functions. Events are handled one after the other; what
 devices, filesystems and the kernel answer comes with the event.

 Not covered by these steps: optical drives, dm-crypt volumes whose device numbers are
 replaced, and a disk none of whose partitions has a size.
 */
module Hotplug {
  import opened Basics
  import opened Discovery

  // `announced` remembers the NPARTS of the last disk event; no code reads it.
  datatype Vol = Vol(
    major: int, minor: int, minors: Minors, numParts: nat, pending: nat,
    state: VState, retry: bool, partIdx: int, announced: nat)

  // Why initMountpoint says yes or no; `primary` is the first partition with a size.
  datatype Init = Ready(primary: nat) | NoNode(primary: nat) | Unreadable(primary: nat)

  datatype MountResult = MountOk | MountFailed | MountRefused
  datatype UnmountResult = UnmountOk | StillMounted | MediaLost

  datatype Event =
    | DiskAdded(major: nat, minor: nat, nparts: Option<nat>, internalNand: bool, init: Init)
    | PartAdded(major: nat, minor: nat, partn: Option<int>, init: Init, mount: MountResult)
    | DiskChanged(major: nat, minor: nat, nparts: Option<nat>, readable: bool, init: Init)
    | PartRemoved(major: nat, minor: nat, wasMounted: bool, unmount: UnmountResult, unshare: bool)
    | DiskRemoved(major: nat, minor: nat, wasMounted: bool, unmount: UnmountResult, unshare: bool, again: bool)
    | MountCmd(mount: MountResult)
    | UnmountCmd(unmount: UnmountResult)
    | ShareCmd(ok: bool)
    | UnshareCmd(ok: bool)
    | FormatCmd(looksMounted: bool)

  const NewVolume := Vol(-1, -1, NoMinors(), 0, 0, NoMedia, false, -1, 0)

  // setState: leaving Pending for anything but Idle forgets a delayed mount.
  function SetState(v: Vol, s: VState): Vol {
    if v.state == s then v
    else v.(state := s, retry := if v.state == Pending && s != Idle then false else v.retry)
  }

  function InitMountpoint(v: Vol, init: Init): (Vol, bool) {
    var w := if v.partIdx == -1 && v.numParts != 0 then v.(partIdx := init.primary + 1) else v;
    match init
    case Ready(_) => (w, true)
    case NoNode(_) => (w, false)
    case Unreadable(_) => (SetState(w, NoMedia), false)
  }

  function IdleIfReady(v: Vol, init: Init): Vol {
    var r := InitMountpoint(v, init);
    if r.1 then SetState(r.0, Idle) else r.0
  }

  // getDeviceNodes fills in the minor number of the chosen partition if it is not recorded.
  function FillNode(v: Vol): Vol {
    if 1 <= v.partIdx <= MAX_PARTITIONS && v.minors[v.partIdx - 1] == -1
    then v.(minors := v.minors[v.partIdx - 1 := v.partIdx])
    else v
  }

  function Mount(v: Vol, r: MountResult): Vol {
    if v.state == NoMedia || r == MountRefused then v
    else if v.state != Idle then (if v.state == Pending then v.(retry := true) else v)
    else SetState(SetState(FillNode(v), Checking), if r == MountOk then Mounted else Idle)
  }

  function Unmount(v: Vol, r: UnmountResult): Vol {
    if v.state != Mounted then v
    else SetState(SetState(v, Unmounting),
                  match r case UnmountOk => Idle case StillMounted => Mounted case MediaLost => NoMedia)
  }

  function Unshare(v: Vol, ok: bool): Vol {
    if v.state == Shared && ok then SetState(v, Idle) else v
  }

  function UnmountUnshare(v: Vol, wasMounted: bool, unmount: UnmountResult, unshare: bool): Vol {
    if v.state !in {Mounted, Shared, Checking} then v
    else if wasMounted then Unmount(v, unmount)
    else if v.state == Shared then Unshare(v, unshare)
    else v
  }

  // The guard of handleBlockEvent for partitions of this disk
  predicate Concerns(v: Vol, major: nat, minor: nat) {
    v.major == major && v.minor <= minor <= v.minor + 15
  }

  // NPARTS of a disk event; 1 when the kernel does not say
  function Announce(v: Vol, nparts: Option<nat>): Vol {
    var n := if nparts.Some? then nparts.value else 1;
    v.(numParts := n, pending := Expected(n), announced := n)
  }

  function Unrecord(v: Vol): Vol {
    v.(minors := NoMinors())
  }

  function AddDisk(v: Vol, ev: Event): Vol
    requires ev.DiskAdded?
  {
    if v.major != -1 || (ev.major == 240 && ev.nparts in {None, Some(0)}) then v
    else
      var w := v.(major := ev.major, minor := ev.minor);
      if w.state == Mounted || w.state == Checking then w
      else
        var x := Announce(w, ev.nparts);
        if x.numParts != 0 then SetState(x, Pending)
        else if ev.internalNand then x
        else IdleIfReady(x, ev.init)
  }

  function RecordPart(v: Vol, part: int, minor: nat): Vol
    requires 1 <= part <= MAX_PARTITIONS
  {
    var c := Record(Counter(v.minors, v.pending), part, minor);
    v.(numParts := if part > v.numParts then part else v.numParts, minors := c.minors, pending := c.pending)
  }

  function AddPart(v: Vol, ev: Event): Vol
    requires ev.PartAdded?
  {
    var part := if ev.partn.Some? then ev.partn.value else 1;
    if !Concerns(v, ev.major, ev.minor) || part > MAX_PARTITIONS || part < 1 then v
    else
      var w := RecordPart(v, part, ev.minor);
      if w.pending != 0 || w.state == Formatting || w.state == Mounted then w
      else
        var x := IdleIfReady(w, ev.init);
        if x.retry then Mount(x.(retry := false), ev.mount) else x
  }

  function ChangeDisk(v: Vol, ev: Event): Vol
    requires ev.DiskChanged?
  {
    if v.major != ev.major || v.minor != ev.minor then v
    else
      var w := Announce(Unrecord(v), ev.nparts);
      if w.state == Formatting then w
      else if w.numParts != 0 then SetState(w, Pending)
      else if w.state != NoMedia then SetState(w, Idle)
      else if !ev.readable then w
      else IdleIfReady(w, ev.init)
  }

  // Every recorded entry becomes -1.
  function Forget(minors: Minors): Minors {
    seq(MAX_PARTITIONS, i requires 0 <= i < MAX_PARTITIONS => if minors[i] < 0 then minors[i] else -1)
  }

  function Detach(v: Vol): Vol {
    v.(minors := Forget(v.minors), partIdx := -1, major := -1, minor := -1, numParts := 0)
  }

  function RemoveDisk(v: Vol, ev: Event): Vol
    requires ev.DiskRemoved?
  {
    if v.major != ev.major || v.minor != ev.minor then v
    else
      var w := Unshare(v, ev.unshare);
      var x := if w.numParts == 0 then UnmountUnshare(w, ev.wasMounted, ev.unmount, ev.again) else w;
      Detach(SetState(x, NoMedia))
  }

  function Step(v: Vol, ev: Event): Vol {
    match ev
    case DiskAdded(_, _, _, _, _) => AddDisk(v, ev)
    case PartAdded(_, _, _, _, _) => AddPart(v, ev)
    case DiskChanged(_, _, _, _, _) => ChangeDisk(v, ev)
    case PartRemoved(major, minor, wasMounted, unmount, unshare) =>
      if Concerns(v, major, minor) then UnmountUnshare(v, wasMounted, unmount, unshare) else v
    case DiskRemoved(_, _, _, _, _, _) => RemoveDisk(v, ev)
    case MountCmd(r) => Mount(v, r)
    case UnmountCmd(r) => Unmount(v, r)
    case ShareCmd(ok) => if v.state == Idle && ok then SetState(v, Shared) else v
    case UnshareCmd(ok) => Unshare(v, ok)
    case FormatCmd(looksMounted) =>
      if v.state != Idle then v
      else if looksMounted then SetState(v, Mounted)
      else SetState(SetState(v, Formatting), Idle)
  }

  // ---------- Partition counting over every run ----------

  predicate AllPartitionsSeen(s: VState) {
    s in {Idle, Checking, Mounted, Unmounting, Shared}
  }

  ghost predicate Sound(v: Vol) {
    && v.state !in {Checking, Unmounting, Formatting}
    && (v.partIdx == -1 || 1 <= v.partIdx <= MAX_PARTITIONS)
    && (AllPartitionsSeen(v.state) ==> v.pending == 0)
    && (v.major != -1 ==> v.pending == Remaining(v.announced, v.minors))
    && (v.major == -1 ==> v.state == NoMedia && forall i :: 0 <= i < MAX_PARTITIONS ==> v.minors[i] < 0)
  }

  // A partition with a size exists when initMountpoint looks for one.
  predicate Sized(ev: Event) {
    (ev.DiskAdded? || ev.PartAdded? || ev.DiskChanged?) ==> ev.init.primary < MAX_PARTITIONS
  }

  lemma FreshDiskIsCounted(v: Vol, n: nat)
    requires forall i :: 0 <= i < MAX_PARTITIONS ==> v.minors[i] < 0
    ensures Expected(n) == Remaining(n, v.minors)
  {
    NothingRecorded(v.minors, MAX_PARTITIONS);
  }

  lemma MountKeepsSound(v: Vol, r: MountResult)
    requires Sound(v)
    ensures Sound(Mount(v, r))
  {
    if v.state == Idle && FillNode(v) != v {
      RecordingAddsOne(v.minors, v.partIdx - 1, v.partIdx, MAX_PARTITIONS);
    }
  }

  lemma AddPartKeepsSound(v: Vol, ev: Event)
    requires Sound(v) && ev.PartAdded? && Sized(ev)
    ensures Sound(AddPart(v, ev))
  {
    var part := if ev.partn.Some? then ev.partn.value else 1;
    if Concerns(v, ev.major, ev.minor) && 1 <= part <= MAX_PARTITIONS {
      RecordKeepsTheCount(v.announced, Counter(v.minors, v.pending), part, ev.minor);
      var w := RecordPart(v, part, ev.minor);
      assert Sound(w);
      if w.pending == 0 && w.state != Mounted {
        var x := IdleIfReady(w, ev.init);
        assert Sound(x);
        if x.retry { MountKeepsSound(x.(retry := false), ev.mount); }
      }
    }
  }

  lemma InitKeepsSound(v: Vol, init: Init)
    requires Sound(v) && v.major != -1 && v.pending == 0 && init.primary < MAX_PARTITIONS
    ensures Sound(IdleIfReady(v, init))
  {
  }

  lemma AddDiskKeepsSound(v: Vol, ev: Event)
    requires Sound(v) && ev.DiskAdded? && Sized(ev)
    ensures Sound(AddDisk(v, ev))
  {
    if v.major == -1 {
      FreshDiskIsCounted(v, if ev.nparts.Some? then ev.nparts.value else 1);
      var w := Announce(v.(major := ev.major, minor := ev.minor), ev.nparts);
      if w.numParts == 0 { InitKeepsSound(w, ev.init); }
    }
  }

  lemma ChangeDiskKeepsSound(v: Vol, ev: Event)
    requires Sound(v) && ev.DiskChanged? && Sized(ev)
    ensures Sound(ChangeDisk(v, ev))
  {
    if v.major == ev.major {
      FreshDiskIsCounted(Unrecord(v), if ev.nparts.Some? then ev.nparts.value else 1);
      var w := Announce(Unrecord(v), ev.nparts);
      if w.numParts == 0 && w.state == NoMedia { InitKeepsSound(w, ev.init); }
    }
  }

  lemma RemoveDiskKeepsSound(v: Vol, ev: Event)
    requires Sound(v) && ev.DiskRemoved?
    ensures Sound(RemoveDisk(v, ev))
  {
  }

  lemma StepKeepsSound(v: Vol, ev: Event)
    requires Sound(v) && Sized(ev)
    ensures Sound(Step(v, ev))
  {
    if ev.DiskAdded? {
      AddDiskKeepsSound(v, ev);
    } else if ev.DiskChanged? {
      ChangeDiskKeepsSound(v, ev);
    } else if ev.DiskRemoved? {
      RemoveDiskKeepsSound(v, ev);
    } else if ev.PartAdded? {
      AddPartKeepsSound(v, ev);
    } else if ev.MountCmd? {
      MountKeepsSound(v, ev.mount);
    }
  }

  function Run(v: Vol, evs: seq<Event>): Vol {
    if evs == [] then v else Step(Run(v, evs[..|evs| - 1]), evs[|evs| - 1])
  }

  // From a new volume, whatever happens: the pending count is the announced partitions not
  // yet recorded, and no volume is offered, mounted or shared before it is zero.
  lemma {:induction false} EveryRunIsSound(evs: seq<Event>)
    requires forall i :: 0 <= i < |evs| ==> Sized(evs[i])
    ensures Sound(Run(NewVolume, evs))
  {
    if evs != [] {
      EveryRunIsSound(evs[..|evs| - 1]);
      StepKeepsSound(Run(NewVolume, evs[..|evs| - 1]), evs[|evs| - 1]);
    }
  }

  // ---------- What each event comes to ----------

  // A disk is taken by a volume without one, unless it is a 240:* disk without partitions;
  // it is waited for if it has partitions, and otherwise offered if its mount point is ready.
  lemma DiskAddedMeans(v: Vol, ev: Event)
    requires Sound(v) && ev.DiskAdded? && Sized(ev)
    ensures var w, n := Step(v, ev), if ev.nparts.Some? then ev.nparts.value else 1;
            if v.major != -1 || (ev.major == 240 && (ev.nparts.None? || n == 0)) then w == v
            else
              && w.major == ev.major && w.minor == ev.minor && w.announced == n && w.numParts == n
              && w.pending == Expected(n) && w.minors == v.minors
              && w.state == (if n > 0 then Pending else if !ev.internalNand && ev.init.Ready? then Idle else NoMedia)
  {
  }

  // A partition within the sixteen minors of the disk is recorded, once, and any other is
  // ignored.
  lemma PartAddedRecords(v: Vol, ev: Event)
    requires ev.PartAdded?
    ensures var w, part := Step(v, ev), if ev.partn.Some? then ev.partn.value else 1;
            if v.major != ev.major || ev.minor < v.minor || ev.minor - v.minor > 15 || part < 1 || part > 32 then w == v
            else
              && w.numParts == (if part > v.numParts then part else v.numParts)
              && (part < 32 ==> w.minors[part - 1] == if v.minors[part - 1] < 0 then ev.minor else v.minors[part - 1])
              && forall k :: 0 <= k < 32 && k != part - 1 ==>
                   w.minors[k] == v.minors[k] || (v.retry && v.minors[k] == -1)
  {
    var part := if ev.partn.Some? then ev.partn.value else 1;
    if Concerns(v, ev.major, ev.minor) && 1 <= part <= 32 {
      var u := RecordPart(v, part, ev.minor);
      InitMeans(u, ev.init);
      MountFills(IdleIfReady(u, ev.init).(retry := false), ev.mount);
    }
  }

  // A mount may fill in the minor number of the chosen partition.
  lemma MountFills(v: Vol, r: MountResult)
    ensures Mount(v, r).numParts == v.numParts
    ensures forall k :: 0 <= k < 32 ==> Mount(v, r).minors[k] == v.minors[k] || v.minors[k] == -1
  {
  }

  // While some are missing nothing moves. With the last of them the volume is offered if its
  // mount point is ready, and mounted if that was asked for meanwhile.
  lemma PartAddedMoves(v: Vol, ev: Event)
    requires Sound(v) && ev.PartAdded? && Sized(ev) && v.major == ev.major && 0 <= ev.minor - v.minor <= 15
    requires 1 <= (if ev.partn.Some? then ev.partn.value else 1) <= 32
    ensures var w := Step(v, ev);
            && w.announced == v.announced && w.pending == Remaining(w.announced, w.minors)
            && (w.pending > 0 || v.state == Mounted ==> w.state == v.state && w.retry == v.retry)
            && (w.pending == 0 && v.state != Mounted && ev.init.Ready? ==>
                  w.state == (if v.retry && ev.mount == MountOk then Mounted else Idle) && !w.retry)
            && (w.pending == 0 && v.state != Mounted && ev.init.Unreadable? ==> w.state == NoMedia)
            && (w.pending == 0 && v.state == Pending && ev.init.NoNode? ==> w.state == Pending)
  {
    AddPartKeepsSound(v, ev);
    var part := if ev.partn.Some? then ev.partn.value else 1;
    var u := RecordPart(v, part, ev.minor);
    RecordKeepsTheCount(v.announced, Counter(v.minors, v.pending), part, ev.minor);
    if u.pending == 0 && u.state != Mounted {
      InitMeans(u, ev.init);
      MountLeavesTheCount(IdleIfReady(u, ev.init).(retry := false), ev.mount);
    }
  }

  lemma InitMeans(v: Vol, init: Init)
    ensures var w := IdleIfReady(v, init);
            && w.pending == v.pending && w.announced == v.announced && w.major == v.major
            && w.minors == v.minors && w.numParts == v.numParts
            && w.state == (match init case Ready(_) => Idle case NoNode(_) => v.state case Unreadable(_) => NoMedia)
            && (!init.Unreadable? ==> w.retry == v.retry)
  {
  }

  lemma MountLeavesTheCount(v: Vol, r: MountResult)
    ensures var w := Mount(v, r);
            && w.pending == v.pending && w.announced == v.announced && w.major == v.major
            && (v.state == Idle ==> w.state == (if r == MountOk then Mounted else Idle) && w.retry == v.retry)
            && (v.state != Idle ==> w.state == v.state)
  {
  }

  // The partitions of a changed disk are counted anew.
  lemma DiskChangedMeans(v: Vol, ev: Event)
    requires Sound(v) && ev.DiskChanged? && Sized(ev)
    ensures var w, n := Step(v, ev), if ev.nparts.Some? then ev.nparts.value else 1;
            if v.major != ev.major || v.minor != ev.minor then w == v
            else
              && w.major == v.major && w.minor == v.minor && w.announced == n && w.numParts == n
              && w.minors == NoMinors() && w.pending == Expected(n)
              && w.state == (if n > 0 then Pending
                             else if v.state == NoMedia && !(ev.readable && ev.init.Ready?) then NoMedia else Idle)
  {
  }

  lemma DiskRemovedMeans(v: Vol, ev: Event)
    requires ev.DiskRemoved?
    ensures var w := Step(v, ev);
            if v.major != ev.major || v.minor != ev.minor then w == v
            else
              && w.state == NoMedia && w.major == w.minor == -1 && w.numParts == 0 && w.partIdx == -1
              && forall k :: 0 <= k < 32 ==> w.minors[k] < 0
  {
  }

  // The mounted partition is unmounted as well as can be, a shared one unshared.
  lemma PartRemovedMeans(v: Vol, ev: Event)
    requires Sound(v) && ev.PartRemoved?
    ensures var w := Step(v, ev);
            && w == v.(state := w.state)
            && w.state == if v.major != ev.major || ev.minor < v.minor || ev.minor - v.minor > 15 then v.state
                          else if v.state == Mounted && ev.wasMounted then
                            (match ev.unmount
                             case UnmountOk => Idle case StillMounted => Mounted case MediaLost => NoMedia)
                          else if v.state == Shared && !ev.wasMounted && ev.unshare then Idle
                          else v.state
  {
  }

  lemma CommandsMean(v: Vol, ev: Event)
    requires Sound(v) && (ev.MountCmd? || ev.UnmountCmd? || ev.ShareCmd? || ev.UnshareCmd? || ev.FormatCmd?)
    ensures var w := Step(v, ev);
            && w.major == v.major && w.numParts == v.numParts && w.pending == v.pending
            && w.state == (match ev
                           case MountCmd(r) => if v.state == Idle && r == MountOk then Mounted else v.state
                           case UnmountCmd(r) =>
                             if v.state != Mounted || r == StillMounted then v.state
                             else if r == UnmountOk then Idle else NoMedia
                           case ShareCmd(ok) => if v.state == Idle && ok then Shared else v.state
                           case UnshareCmd(ok) => if v.state == Shared && ok then Idle else v.state
                           case FormatCmd(mounted) => if v.state == Idle && mounted then Mounted else v.state
                           case _ => v.state)
            // a mount asked for while partitions are missing is remembered
            && (ev.MountCmd? ==> w.retry == (v.retry || (v.state == Pending && ev.mount != MountRefused)))
            // and one that is tried fills in the minor number of the chosen partition
            && (ev.MountCmd? && v.state == Idle && ev.mount != MountRefused && v.partIdx != -1 ==>
                  w.minors == if v.minors[v.partIdx - 1] == -1 then v.minors[v.partIdx - 1 := v.partIdx] else v.minors)
  {
  }

  // ---------- Every partitioned disk is offered ----------

  function PartOf(ev: Event): int
    requires ev.PartAdded?
  {
    if ev.partn.Some? then ev.partn.value else 1
  }

  // An event of one of the n partitions of the disk, its mount point ready
  predicate IsPartOf(ev: Event, disk: Event, n: nat)
    requires disk.DiskAdded?
  {
    && ev.PartAdded? && ev.major == disk.major && 0 <= ev.minor - disk.minor <= 15
    && 1 <= PartOf(ev) <= n && ev.init.Ready? && Sized(ev)
  }

  predicate Seen(evs: seq<Event>, p: int) {
    exists i :: 0 <= i < |evs| && evs[i].PartAdded? && PartOf(evs[i]) == p
  }

  // After a disk of n partitions has come, and events of its partitions in any order, with
  // repeats, the volume is offered exactly if each of them has been seen.
  lemma {:induction false} OfferedWhenAllSeen(v: Vol, disk: Event, n: nat, evs: seq<Event>)
    requires Sound(v) && v.major == -1 && !v.retry
    requires disk.DiskAdded? && disk.nparts == Some(n) && 1 <= n < 32 && Sized(disk)
    requires forall i :: 0 <= i < |evs| ==> IsPartOf(evs[i], disk, n)
    ensures var w := Run(Step(v, disk), evs);
            w.state == if forall p :: 1 <= p <= n ==> Seen(evs, p) then Idle else Pending
  {
    WaitingFor(v, disk, n, evs);
    var w := Run(Step(v, disk), evs);
    FullCount(w.minors, n);
    if forall p :: 1 <= p <= n ==> Seen(evs, p) {
      forall k | 0 <= k < n ensures w.minors[k] >= 0 {
        assert Seen(evs, k + 1);
      }
    } else {
      var p :| 1 <= p <= n && !Seen(evs, p);
      assert w.minors[p - 1] < 0;
    }
  }

  // What is recorded on the way, and that the volume moves with the count
  lemma {:induction false} WaitingFor(v: Vol, disk: Event, n: nat, evs: seq<Event>)
    requires Sound(v) && v.major == -1 && !v.retry
    requires disk.DiskAdded? && disk.nparts == Some(n) && 1 <= n < 32 && Sized(disk)
    requires forall i :: 0 <= i < |evs| ==> IsPartOf(evs[i], disk, n)
    ensures var w := Run(Step(v, disk), evs);
            && Sound(w) && w.major == disk.major && w.minor == disk.minor && !w.retry && w.announced == n
            && w.pending == Remaining(n, w.minors) && w.state == (if w.pending == 0 then Idle else Pending)
            && forall k :: 0 <= k < 32 ==> (w.minors[k] >= 0 <==> Seen(evs, k + 1))
  {
    if evs == [] {
      StepKeepsSound(v, disk);
      DiskAddedMeans(v, disk);
      NothingRecorded(v.minors, MAX_PARTITIONS);
      TakenKeepsRetry(v, disk);
    } else {
      var front, last := evs[..|evs| - 1], evs[|evs| - 1];
      WaitingFor(v, disk, n, front);
      var u := Run(Step(v, disk), front);
      StepKeepsSound(u, last);
      PartAddedRecords(u, last);
      PartAddedMoves(u, last);
      PartAddedKeepsTheDisk(u, last);
      OneMoreRecorded(u.minors, Step(u, last).minors, n);
      forall p | 1 <= p <= 32 ensures Seen(evs, p) <==> Seen(front, p) || PartOf(last) == p {
        SeenOneMore(evs, p);
      }
    }
  }

  lemma SeenOneMore(evs: seq<Event>, p: int)
    requires evs != [] && evs[|evs| - 1].PartAdded?
    ensures Seen(evs, p) <==> Seen(evs[..|evs| - 1], p) || PartOf(evs[|evs| - 1]) == p
  {
    var front := evs[..|evs| - 1];
    if Seen(front, p) {
      var i :| 0 <= i < |front| && front[i].PartAdded? && PartOf(front[i]) == p;
      assert evs[i] == front[i];
    }
    if i :| 0 <= i < |front| && evs[i].PartAdded? && PartOf(evs[i]) == p {
      assert front[i] == evs[i];
    }
  }

  lemma TakenKeepsRetry(v: Vol, ev: Event)
    requires ev.DiskAdded? && v.major == -1 && v.state == NoMedia && !v.retry
    ensures !Step(v, ev).retry
  {
  }

  lemma PartAddedKeepsTheDisk(v: Vol, ev: Event)
    requires ev.PartAdded?
    ensures Step(v, ev).major == v.major && Step(v, ev).minor == v.minor
  {
    var part := PartOf(ev);
    if 1 <= part <= MAX_PARTITIONS {
      OfferKeepsTheDisk(RecordPart(v, part, ev.minor), ev.init);
      MountKeepsTheDisk(IdleIfReady(RecordPart(v, part, ev.minor), ev.init).(retry := false), ev.mount);
    }
  }

  lemma OfferKeepsTheDisk(v: Vol, init: Init)
    ensures IdleIfReady(v, init).major == v.major && IdleIfReady(v, init).minor == v.minor
  {
  }

  lemma MountKeepsTheDisk(v: Vol, r: MountResult)
    ensures Mount(v, r).major == v.major && Mount(v, r).minor == v.minor
  {
  }

  // A count that was 0 stays 0 as long as nothing is forgotten.
  lemma {:induction false} RecordedGrows(a: Minors, b: Minors, n: nat)
    requires n <= 32 && forall k :: 0 <= k < 32 && a[k] >= 0 ==> b[k] >= 0
    ensures RecordedUpto(a, n) <= RecordedUpto(b, n)
  {
    if n > 0 { RecordedGrows(a, b, n - 1); }
  }

  lemma OneMoreRecorded(a: Minors, b: Minors, n: nat)
    requires forall k :: 0 <= k < 32 && a[k] >= 0 ==> b[k] >= 0
    ensures Remaining(n, b) <= Remaining(n, a)
  {
    RecordedGrows(a, b, 32);
  }

  lemma {:induction false} RecordedAtMost(minors: Minors, n: nat)
    requires n <= 32
    ensures RecordedUpto(minors, n) <= n
    ensures RecordedUpto(minors, n) == n <==> forall k :: 0 <= k < n ==> minors[k] >= 0
  {
    if n > 0 { RecordedAtMost(minors, n - 1); }
  }

  lemma {:induction false} NoneBeyond(minors: Minors, n: nat, m: nat)
    requires n <= m <= 32 && forall k :: n <= k < 32 ==> minors[k] < 0
    ensures RecordedUpto(minors, m) == RecordedUpto(minors, n)
  {
    if m > n { NoneBeyond(minors, n, m - 1); }
  }

  lemma FullCount(minors: Minors, n: nat)
    requires n < 32 && forall k :: n <= k < 32 ==> minors[k] < 0
    ensures Remaining(n, minors) == 0 <==> forall k :: 0 <= k < n ==> minors[k] >= 0
  {
    RecordedAtMost(minors, n);
    NoneBeyond(minors, n, 32);
  }

  // ---------- Mass-storage sharing over every run ----------

  // The manager's counter and the kernel tunable it parks while anything is shared
  datatype Ums = Ums(count: int, saved: int, dirtyRatio: int)

  const UMS_DIRTY_RATIO := 5

  // The tail of shareVolume: the first share saves and replaces the tunable.
  function CountShare(m: Ums, readable: bool): Ums {
    if m.count != 0 then m.(count := m.count + 1)
    else if readable then Ums(1, m.dirtyRatio, UMS_DIRTY_RATIO)
    else Ums(1, -1, m.dirtyRatio)
  }

  // The tail of unshareVolume: the last one restores it.
  function CountUnshare(m: Ums, writable: bool): Ums {
    var n := m.(count := m.count - 1);
    if n.count == 0 && n.saved != -1
    then n.(dirtyRatio := if writable then n.saved else n.dirtyRatio, saved := -1)
    else n
  }

  // Whether an event gets an unshareVolume through
  predicate Unshares(v: Vol, ev: Event) {
    && v.state == Shared
    && match ev
       case UnshareCmd(ok) => ok
       case PartRemoved(major, minor, wasMounted, _, ok) => Concerns(v, major, minor) && !wasMounted && ok
       case DiskRemoved(major, minor, wasMounted, _, ok, again) =>
         && v.major == major && v.minor == minor
         && (ok || (v.numParts == 0 && !wasMounted && again))
       case _ => false
  }

  // A system of volumes under one manager
  datatype System = System(vols: seq<Vol>, ums: Ums)

  // What an event for a volume does to the manager's bookkeeping
  function UmsAfter(m: Ums, v: Vol, ev: Event, tunable: bool): Ums {
    if ev.ShareCmd? && ev.ok && v.state == Idle then CountShare(m, tunable)
    else if Unshares(v, ev) then CountUnshare(m, tunable)
    else m
  }

  function SystemStep(s: System, i: nat, ev: Event, tunable: bool): System
    requires i < |s.vols|
  {
    System(s.vols[i := Step(s.vols[i], ev)], UmsAfter(s.ums, s.vols[i], ev, tunable))
  }

  function SharedCount(vols: seq<Vol>): nat {
    if vols == [] then 0
    else SharedCount(vols[..|vols| - 1]) + (if vols[|vols| - 1].state == Shared then 1 else 0)
  }

  // The disk events that take a shared volume out of Shared behind the counter's back: a
  // partition that makes it Idle or NoMedia, a changed disk, and a removed one that no
  // unshareVolume got through to.
  predicate Leaks(v: Vol, ev: Event) {
    && v.state == Shared
    && match ev
       case PartAdded(major, minor, partn, init, _) =>
         var part := if partn.Some? then partn.value else 1;
         Concerns(v, major, minor) && 1 <= part <= MAX_PARTITIONS && !init.NoNode?
       case DiskChanged(major, minor, _, _, _) => v.major == major && v.minor == minor
       case DiskRemoved(major, minor, wasMounted, _, ok, again) =>
         && v.major == major && v.minor == minor
         && !ok && !(v.numParts == 0 && !wasMounted && again)
       case _ => false
  }

  lemma LeaksIff(v: Vol, ev: Event)
    requires Sound(v)
    ensures Leaks(v, ev) <==> v.state == Shared && Step(v, ev).state != Shared && !Unshares(v, ev)
  {
  }

  lemma {:induction false} SharedCountUpdate(vols: seq<Vol>, i: nat, v: Vol)
    requires i < |vols|
    ensures SharedCount(vols[i := v]) + (if vols[i].state == Shared then 1 else 0)
         == SharedCount(vols) + (if v.state == Shared then 1 else 0)
  {
    var n := |vols| - 1;
    if i < n {
      SharedCountUpdate(vols[..n], i, v);
      assert vols[i := v][..n] == vols[..n][i := v];
    } else {
      assert vols[i := v][..n] == vols[..n];
    }
  }

  // The counter is the number of shared volumes plus the leaks so far, and the tunable is
  // parked exactly while the counter is not zero.
  predicate Books(m: Ums, shared: nat, leaks: nat, original: int) {
    && original >= 0
    && m.count == shared + leaks
    && (if m.count == 0 then m.dirtyRatio == original
        else m.dirtyRatio == UMS_DIRTY_RATIO && m.saved == original)
  }

  ghost predicate Accounted(s: System, leaks: nat, original: int) {
    Books(s.ums, SharedCount(s.vols), leaks, original)
  }

  ghost predicate AllSound(vols: seq<Vol>) {
    forall i :: 0 <= i < |vols| ==> Sound(vols[i])
  }

  // How the number of shared volumes moves with an event for one of them
  function SharedAfter(shared: nat, v: Vol, ev: Event): nat {
    if v.state != Shared && Step(v, ev).state == Shared then shared + 1
    else if v.state == Shared && Step(v, ev).state != Shared && shared > 0 then shared - 1
    else shared
  }

  lemma EventKeepsBooks(m: Ums, v: Vol, ev: Event, shared: nat, leaks: nat, original: int)
    requires Sound(v) && Books(m, shared, leaks, original) && (v.state == Shared ==> shared > 0)
    ensures Books(UmsAfter(m, v, ev, true), SharedAfter(shared, v, ev),
                  leaks + (if Leaks(v, ev) then 1 else 0), original)
  {
    SharingChanges(v, ev);
    LeaksIff(v, ev);
  }

  lemma StepKeepsAccounts(s: System, i: nat, ev: Event, leaks: nat, original: int)
    requires i < |s.vols| && Accounted(s, leaks, original) && Sound(s.vols[i])
    ensures Accounted(SystemStep(s, i, ev, true), leaks + (if Leaks(s.vols[i], ev) then 1 else 0), original)
  {
    SharedCountUpdate(s.vols, i, Step(s.vols[i], ev));
    SharedCountUpdate(s.vols, i, s.vols[i].(state := Idle));
    EventKeepsBooks(s.ums, s.vols[i], ev, SharedCount(s.vols), leaks, original);
  }

  // How one event moves a volume into or out of Shared
  lemma SharingChanges(v: Vol, ev: Event)
    ensures Step(v, ev).state == Shared && v.state != Shared ==> ev == ShareCmd(true) && v.state == Idle
    ensures v.state == Idle && ev == ShareCmd(true) ==> Step(v, ev).state == Shared
    ensures Unshares(v, ev) ==> Step(v, ev).state != Shared
  {
  }

  datatype Occurrence = Occurrence(vol: nat, ev: Event)

  function SystemRun(s: System, occ: seq<Occurrence>): System
    requires forall k :: 0 <= k < |occ| ==> occ[k].vol < |s.vols|
    ensures |SystemRun(s, occ).vols| == |s.vols|
  {
    if occ == [] then s
    else
      var n := |occ| - 1;
      SystemStep(SystemRun(s, occ[..n]), occ[n].vol, occ[n].ev, true)
  }

  function LeaksIn(s: System, occ: seq<Occurrence>): nat
    requires forall k :: 0 <= k < |occ| ==> occ[k].vol < |s.vols|
  {
    if occ == [] then 0
    else
      var n := |occ| - 1;
      LeaksIn(s, occ[..n]) + (if Leaks(SystemRun(s, occ[..n]).vols[occ[n].vol], occ[n].ev) then 1 else 0)
  }

  lemma {:induction false} EveryRunIsAccounted(s: System, occ: seq<Occurrence>, original: int)
    requires Accounted(s, 0, original) && AllSound(s.vols)
    requires forall k :: 0 <= k < |occ| ==> occ[k].vol < |s.vols| && Sized(occ[k].ev)
    ensures Accounted(SystemRun(s, occ), LeaksIn(s, occ), original)
    ensures AllSound(SystemRun(s, occ).vols)
  {
    if occ != [] {
      var n := |occ| - 1;
      EveryRunIsAccounted(s, occ[..n], original);
      StepKeepsSound(SystemRun(s, occ[..n]).vols[occ[n].vol], occ[n].ev);
      StepKeepsAccounts(SystemRun(s, occ[..n]), occ[n].vol, occ[n].ev, LeaksIn(s, occ[..n]), original);
    }
  }

  // In every run the count never falls below the number of shared volumes, the tunable is
  // never given back while one of them is shared, and once none is shared it has been
  // given back exactly when no disk event ever hit a shared volume behind the counter's back.
  lemma TunableComesBackIff(s: System, occ: seq<Occurrence>, original: int)
    requires Accounted(s, 0, original) && original != UMS_DIRTY_RATIO && AllSound(s.vols)
    requires forall k :: 0 <= k < |occ| ==> occ[k].vol < |s.vols| && Sized(occ[k].ev)
    ensures var t := SystemRun(s, occ);
            && t.ums.count >= SharedCount(t.vols)
            && (SharedCount(t.vols) > 0 ==> t.ums.dirtyRatio == UMS_DIRTY_RATIO)
            && (SharedCount(t.vols) == 0 ==> (t.ums.dirtyRatio == original <==> LeaksIn(s, occ) == 0))
  {
    EveryRunIsAccounted(s, occ, original);
  }

  // Such an event: one more partition of a shared disk is announced.
  lemma ALeakHappens()
    ensures exists v: Vol, ev: Event :: Sound(v) && Sized(ev) && Leaks(v, ev)
  {
    var v := NewVolume.(major := 8, minor := 0, state := Shared);
    NothingRecorded(NoMinors(), MAX_PARTITIONS);
    assert Sound(v);
    var ev := PartAdded(8, 1, Some(1), Ready(0), MountOk);
    assert Leaks(v, ev);
  }
}
