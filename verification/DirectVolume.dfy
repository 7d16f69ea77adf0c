/**
 The event handlers themselves: DirectVolume with its fields and partition table updated
 in place, and the manager's sharing counter. Every handler keeps the partition count right
 (`Valid`) and the manager's accounts (`Accounts`), and does the step that Hotplug.dfy
 reasons about over whole runs.
 */
module DirectVolumes {
  import opened Basics
  import opened Discovery
  import opened Hotplug

  class VolumeManager {
    var umsSharingCount: int
    var savedDirtyRatio: int
    var dirtyRatio: int  // /proc/sys/vm/dirty_ratio

    constructor (dirtyRatio: int)
      ensures Abs() == Ums(0, -1, dirtyRatio)
    {
      umsSharingCount, savedDirtyRatio := 0, -1;
      this.dirtyRatio := dirtyRatio;
    }

    ghost function Abs(): Ums
      reads this
    {
      Ums(umsSharingCount, savedDirtyRatio, dirtyRatio)
    }

    // The count is that of the shared volumes and of the leaks so far, and the tunable is
    // parked exactly while it is not 0.
    ghost predicate Accounts(shared: nat, leaks: nat, original: int)
      reads this
    {
      Books(Abs(), shared, leaks, original)
    }

    // shareVolume: `ok` is whether the lun file took the device node
    method ShareVolume(v: DirectVolume, ok: bool, tunable: bool) returns (rc: int)
      requires v.Valid()
      modifies this, v
      ensures v.Valid() && v.Abs() == Step(old(v.Abs()), ShareCmd(ok))
      ensures rc == if old(v.state) == Idle && ok then 0 else -1
      ensures rc == 0 ==> v.state == Shared && v.pending == 0
      ensures Abs() == UmsAfter(old(Abs()), old(v.Abs()), ShareCmd(ok), tunable)
      // one shared volume more is accounted for
      ensures forall shared: nat, leaks: nat, original: int ::
                tunable && old(Accounts(shared, leaks, original)) && (old(v.state) == Shared ==> shared > 0) ==>
                  Accounts(if rc == 0 then shared + 1 else shared, leaks, original)
    {
      var ev := ShareCmd(ok);
      StepKeepsSound(v.Abs(), ev);
      v.KeepsBooks(this, ev);
      if v.state == NoMedia || v.state != Idle || !ok {
        return -1;
      }
      v.SetState(Shared);
      umsSharingCount := umsSharingCount + 1;
      if umsSharingCount - 1 == 0 {
        savedDirtyRatio := -1;
        if tunable {
          savedDirtyRatio := dirtyRatio;
          dirtyRatio := UMS_DIRTY_RATIO;
        }
      }
      return 0;
    }

    // unshareVolume
    method UnshareVolume(v: DirectVolume, ok: bool, tunable: bool) returns (rc: int)
      requires v.Valid()
      modifies this, v
      ensures v.Valid() && v.Abs() == Step(old(v.Abs()), UnshareCmd(ok))
      ensures rc == if old(v.state) == Shared && ok then 0 else -1
      ensures rc == 0 ==> v.state == Idle && v.pending == 0
      ensures Abs() == UmsAfter(old(Abs()), old(v.Abs()), UnshareCmd(ok), tunable)
      // one shared volume less is accounted for
      ensures forall shared: nat, leaks: nat, original: int ::
                tunable && old(Accounts(shared, leaks, original)) && (old(v.state) == Shared ==> shared > 0) ==>
                  Accounts(if rc == 0 then shared - 1 else shared, leaks, original)
    {
      var ev := UnshareCmd(ok);
      StepKeepsSound(v.Abs(), ev);
      v.KeepsBooks(this, ev);
      if v.state != Shared || !ok {
        return -1;
      }
      v.SetState(Idle);
      umsSharingCount := umsSharingCount - 1;
      if umsSharingCount == 0 && savedDirtyRatio != -1 {
        if tunable {
          dirtyRatio := savedDirtyRatio;
        }
        savedDirtyRatio := -1;
      }
      return 0;
    }
  }

  class DirectVolume {
    var diskMajor: int
    var diskMinor: int
    const table: array<int>  // mPartMinors
    var diskNumParts: nat
    var pending: nat         // mPendingPartMap
    var state: VState
    var retryMount: bool
    var partIdx: int
    ghost var announced: nat

    predicate Shaped() {
      table.Length == MAX_PARTITIONS
    }

    // The pending count is what is still missing, and no volume is offered before it is 0.
    ghost predicate Valid()
      reads this, table
    {
      Shaped() && Sound(Abs())
    }

    ghost function Abs(): Vol
      reads this, table
      requires Shaped()
    {
      Vol(diskMajor, diskMinor, table[..], diskNumParts, pending, state, retryMount, partIdx, announced)
    }

    constructor ()
      ensures Valid() && fresh(table) && Abs() == NewVolume
    {
      table := new int[MAX_PARTITIONS](_ => -1);
      diskMajor, diskMinor, diskNumParts, pending := -1, -1, 0, 0;
      state, retryMount, partIdx, announced := NoMedia, false, -1, 0;
    }

    // An event for this volume keeps the accounts.
    lemma KeepsBooks(vm: VolumeManager, ev: Event)
      requires Valid()
      ensures forall shared: nat, leaks: nat, original: int ::
                vm.Accounts(shared, leaks, original) && (state == Shared ==> shared > 0) ==>
                  Books(UmsAfter(vm.Abs(), Abs(), ev, true), SharedAfter(shared, Abs(), ev),
                        leaks + (if Leaks(Abs(), ev) then 1 else 0), original)
    {
      forall shared: nat, leaks: nat, original: int |
        vm.Accounts(shared, leaks, original) && (state == Shared ==> shared > 0)
        ensures Books(UmsAfter(vm.Abs(), Abs(), ev, true), SharedAfter(shared, Abs(), ev),
                      leaks + (if Leaks(Abs(), ev) then 1 else 0), original)
      {
        EventKeepsBooks(vm.Abs(), Abs(), ev, shared, leaks, original);
      }
    }

    method SetState(s: VState)
      modifies this`state, this`retryMount
      ensures state == s
      ensures retryMount == if old(state) == Pending && s != Pending && s != Idle then false else old(retryMount)
    {
      if state == s {
        return;
      }
      if state == Pending && s != Idle {
        retryMount := false;
      }
      state := s;
    }

    method InitMountpoint(init: Init) returns (ok: bool)
      requires Shaped()
      modifies this
      ensures announced == old(announced)
      ensures (Abs(), ok) == Hotplug.InitMountpoint(old(Abs()), init)
    {
      if partIdx == -1 && diskNumParts != 0 {
        partIdx := init.primary + 1;
      }
      match init {
        case Ready(_) => ok := true;
        case NoNode(_) => ok := false;
        case Unreadable(_) =>
          SetState(NoMedia);
          ok := false;
      }
    }

    method MountVol(r: MountResult) returns (rc: int)
      requires Shaped()
      modifies this, table
      ensures announced == old(announced)
      ensures Abs() == Mount(old(Abs()), r)
      ensures rc == 0 <==> old(state) == Idle && r == MountOk
    {
      if state == NoMedia || r == MountRefused {
        return -1;
      }
      if state != Idle {
        if state == Pending {
          retryMount := true;
        }
        return -1;
      }
      if 1 <= partIdx <= MAX_PARTITIONS && table[partIdx - 1] == -1 {
        table[partIdx - 1] := partIdx;
      }
      SetState(Checking);
      SetState(if r == MountOk then Mounted else Idle);
      return if r == MountOk then 0 else -1;
    }

    method UnmountVol(r: UnmountResult) returns (rc: int)
      requires Shaped()
      modifies this
      ensures announced == old(announced)
      ensures Abs() == Unmount(old(Abs()), r)
    {
      if state != Mounted {
        return -2;
      }
      SetState(Unmounting);
      match r {
        case UnmountOk => SetState(Idle); return 0;
        case StillMounted => SetState(Mounted); return -1;
        case MediaLost => SetState(NoMedia); return -1;
      }
    }

    // A disk is taken only by a volume that has none. It is waited for if it has partitions,
    // and otherwise offered if its mount point is ready.
    method HandleDiskAdded(ev: Event)
      requires Valid() && ev.DiskAdded? && Sized(ev)
      modifies this
      ensures Valid() && Abs() == Step(old(Abs()), ev)
      ensures var n := if ev.nparts.Some? then ev.nparts.value else 1;
              if old(diskMajor) != -1 || (ev.major == 240 && (ev.nparts.None? || n == 0)) then Abs() == old(Abs())
              else
                && diskMajor == ev.major && diskMinor == ev.minor && announced == n && diskNumParts == n
                && pending == Expected(n)
                && state == (if n > 0 then Pending else if !ev.internalNand && ev.init.Ready? then Idle else NoMedia)
    {
      StepKeepsSound(Abs(), ev);
      DiskAddedMeans(Abs(), ev);
      TakeDisk(ev);
    }

    method TakeDisk(ev: Event)
      requires Shaped() && ev.DiskAdded?
      modifies this
      ensures Abs() == AddDisk(old(Abs()), ev)
    {
      if diskMajor != -1 || (ev.major == 240 && (ev.nparts.None? || ev.nparts.value == 0)) {
        return;
      }
      diskMajor, diskMinor := ev.major, ev.minor;
      if state == Mounted || state == Checking {
        return;
      }
      diskNumParts := if ev.nparts.Some? then ev.nparts.value else 1;
      announced := diskNumParts;
      pending := if diskNumParts <= MAX_PARTITIONS then diskNumParts else MAX_PARTITIONS;
      if diskNumParts == 0 {
        if ev.internalNand {
          return;
        }
        var ok := InitMountpoint(ev.init);
        if ok {
          SetState(Idle);
        }
      } else {
        SetState(Pending);
      }
    }

    method RecordPartition(part: int, minor: nat)
      requires Shaped() && 1 <= part <= MAX_PARTITIONS
      modifies this, table
      ensures Abs() == RecordPart(old(Abs()), part, minor)
    {
      if part > diskNumParts {
        diskNumParts := part;
      }
      if part < MAX_PARTITIONS {
        if table[part - 1] < 0 {
          table[part - 1] := minor;
          if pending != 0 {
            pending := pending - 1;
          }
        }
      }
    }

    // A partition of the disk is recorded once, any other is ignored. While some are missing
    // the volume does not move; with the last of them it is offered if its mount point is
    // ready, and mounted if that was asked for. A shared volume that moves leaks.
    method HandlePartitionAdded(ev: Event)
      requires Valid() && ev.PartAdded? && Sized(ev)
      modifies this, table
      ensures Valid() && Abs() == Step(old(Abs()), ev)
      ensures !OfTheDisk(old(diskMajor), old(diskMinor), ev) ==> Abs() == old(Abs())
      ensures OfTheDisk(old(diskMajor), old(diskMinor), ev) && PartOf(ev) < 32 ==>
                table[PartOf(ev) - 1] == if old(table[..])[PartOf(ev) - 1] < 0 then ev.minor
                                         else old(table[..])[PartOf(ev) - 1]
      ensures OfTheDisk(old(diskMajor), old(diskMinor), ev) ==>
                && announced == old(announced) && pending == Remaining(announced, table[..])
                && (pending > 0 || old(state) == Mounted ==> state == old(state) && retryMount == old(retryMount))
                && (pending == 0 && old(state) != Mounted && ev.init.Ready? ==>
                      !retryMount && state == if old(retryMount) && ev.mount == MountOk then Mounted else Idle)
                && (pending == 0 && old(state) != Mounted && ev.init.Unreadable? ==> state == NoMedia)
      ensures Leaks(old(Abs()), ev) <==> old(state) == Shared && state != Shared
    {
      StepKeepsSound(Abs(), ev);
      PartAddedRecords(Abs(), ev);
      if OfTheDisk(diskMajor, diskMinor, ev) {
        PartAddedMoves(Abs(), ev);
      }
      LeaksIff(Abs(), ev);
      AddPartition(ev);
    }

    // One of the disk's sixteen minors, with a number from 1 to 32
    static predicate OfTheDisk(major: int, minor: int, ev: Event)
      requires ev.PartAdded?
    {
      ev.major == major && 0 <= ev.minor - minor <= 15 && 1 <= PartOf(ev) <= 32
    }

    method AddPartition(ev: Event)
      requires Shaped() && ev.PartAdded?
      modifies this, table
      ensures Abs() == AddPart(old(Abs()), ev)
    {
      if diskMajor != ev.major || diskMinor > ev.minor || diskMinor + 15 < ev.minor {
        return;
      }
      var part := if ev.partn.Some? then ev.partn.value else 1;
      if part > MAX_PARTITIONS || part < 1 {
        return;
      }
      RecordPartition(part, ev.minor);
      if pending == 0 {
        if state != Formatting && state != Mounted {
          var ok := InitMountpoint(ev.init);
          if ok {
            SetState(Idle);
          }
          if retryMount {
            retryMount := false;
            var _ := MountVol(ev.mount);
          }
        }
      }
    }

    // The partitions of a changed disk are counted anew, and the volume waits for them.
    method HandleDiskChanged(ev: Event)
      requires Valid() && ev.DiskChanged? && Sized(ev)
      modifies this, table
      ensures Valid() && Abs() == Step(old(Abs()), ev)
      ensures var n := if ev.nparts.Some? then ev.nparts.value else 1;
              if old(diskMajor) != ev.major || old(diskMinor) != ev.minor then Abs() == old(Abs())
              else
                && diskMajor == old(diskMajor) && diskMinor == old(diskMinor) && announced == n && diskNumParts == n
                && table[..] == NoMinors() && pending == Expected(n)
                && state == (if n > 0 then Pending
                             else if old(state) == NoMedia && !(ev.readable && ev.init.Ready?) then NoMedia else Idle)
      ensures Leaks(old(Abs()), ev) <==> old(state) == Shared && state != Shared
    {
      StepKeepsSound(Abs(), ev);
      DiskChangedMeans(Abs(), ev);
      LeaksIff(Abs(), ev);
      CountAnew(ev);
    }

    method CountAnew(ev: Event)
      requires Shaped() && ev.DiskChanged?
      modifies this, table
      ensures Abs() == ChangeDisk(old(Abs()), ev)
    {
      if ev.major != diskMajor || ev.minor != diskMinor {
        return;
      }
      diskNumParts := if ev.nparts.Some? then ev.nparts.value else 1;
      announced := diskNumParts;
      pending := if diskNumParts <= MAX_PARTITIONS then diskNumParts else MAX_PARTITIONS;
      ClearPartitions();
      if state != Formatting {
        if diskNumParts == 0 {
          if state == NoMedia {
            if !ev.readable {
              return;
            }
            var ok := InitMountpoint(ev.init);
            if ok {
              SetState(Idle);
            }
          } else {
            SetState(Idle);
          }
        } else {
          SetState(Pending);
        }
      }
    }

    method ClearPartitions()
      requires Shaped()
      modifies table
      ensures table[..] == NoMinors()
    {
      for i := 0 to MAX_PARTITIONS
        invariant forall j :: 0 <= j < i ==> table[j] == -1
      {
        table[i] := -1;
      }
    }

    method UnmountUnshare(vm: VolumeManager, wasMounted: bool, unmount: UnmountResult, unshare: bool, tunable: bool)
      requires Valid()
      modifies this, vm
      ensures Valid() && Abs() == Hotplug.UnmountUnshare(old(Abs()), wasMounted, unmount, unshare)
      ensures vm.Abs() == if old(state) == Shared && !wasMounted && unshare
                          then CountUnshare(old(vm.Abs()), tunable) else old(vm.Abs())
    {
      if state != Mounted && state != Shared && state != Checking {
        return;
      }
      if wasMounted {
        var _ := UnmountVol(unmount);
      } else if state == Shared {
        var _ := vm.UnshareVolume(this, unshare, tunable);
      }
    }

    // A shared volume is unshared, a mounted one unmounted; nothing leaks.
    method HandlePartitionRemoved(vm: VolumeManager, ev: Event, tunable: bool)
      requires Valid() && ev.PartRemoved?
      modifies this, vm
      ensures Valid() && Abs() == Step(old(Abs()), ev)
      ensures table[..] == old(table[..]) && pending == old(pending) && diskMajor == old(diskMajor)
      ensures state == if old(diskMajor) != ev.major || !(0 <= ev.minor - old(diskMinor) <= 15) then old(state)
                       else if old(state) == Mounted && ev.wasMounted then
                         (match ev.unmount
                          case UnmountOk => Idle case StillMounted => Mounted case MediaLost => NoMedia)
                       else if old(state) == Shared && !ev.wasMounted && ev.unshare then Idle
                       else old(state)
      ensures vm.Abs() == UmsAfter(old(vm.Abs()), old(Abs()), ev, tunable)
      ensures forall shared: nat, leaks: nat, original: int ::
                tunable && old(vm.Accounts(shared, leaks, original)) && (old(state) == Shared ==> shared > 0) ==>
                  vm.Accounts(SharedAfter(shared, old(Abs()), ev), leaks, original)
    {
      StepKeepsSound(Abs(), ev);
      PartRemovedMeans(Abs(), ev);
      KeepsBooks(vm, ev);
      DropPartition(vm, ev, tunable);
    }

    method DropPartition(vm: VolumeManager, ev: Event, tunable: bool)
      requires Valid() && ev.PartRemoved?
      modifies this, vm
      ensures Abs() == Step(old(Abs()), ev)
      ensures vm.Abs() == UmsAfter(old(vm.Abs()), old(Abs()), ev, tunable)
    {
      if diskMajor != ev.major || diskMinor > ev.minor || diskMinor + 15 < ev.minor {
        return;
      }
      UnmountUnshare(vm, ev.wasMounted, ev.unmount, ev.unshare, tunable);
    }

    // Every recorded entry becomes -1.
    method ForgetPartitions()
      requires Shaped()
      modifies table
      ensures table[..] == Forget(old(table[..]))
    {
      for i := 0 to MAX_PARTITIONS
        modifies table
        invariant forall j :: 0 <= j < i ==> table[j] == if old(table[j]) < 0 then old(table[j]) else -1
        invariant forall j :: i <= j < MAX_PARTITIONS ==> table[j] == old(table[j])
      {
        if table[i] >= 0 {
          table[i] := -1;
        }
      }
      assert table[..] == Forget(old(table[..]));
    }

    // What a disk removal does before the volume loses its medium
    method LetGo(vm: VolumeManager, ev: Event, tunable: bool)
      requires Valid() && ev.DiskRemoved? && diskMajor == ev.major && diskMinor == ev.minor
      modifies this, vm
      ensures Valid()
      ensures var w := Unshare(old(Abs()), ev.unshare);
              Abs() == if w.numParts == 0 then Hotplug.UnmountUnshare(w, ev.wasMounted, ev.unmount, ev.again) else w
      ensures vm.Abs() == if Unshares(old(Abs()), ev) then CountUnshare(old(vm.Abs()), tunable) else old(vm.Abs())
    {
      if state == Shared {
        var _ := vm.UnshareVolume(this, ev.unshare, tunable);
      }
      if diskNumParts == 0 {
        UnmountUnshare(vm, ev.wasMounted, ev.unmount, ev.again, tunable);
      }
    }

    // The volume of the disk ends without medium and without any recorded partition.
    method HandleDiskRemoved(vm: VolumeManager, ev: Event, tunable: bool)
      requires Valid() && ev.DiskRemoved?
      modifies this, table, vm
      ensures Valid() && Abs() == Step(old(Abs()), ev)
      ensures if old(diskMajor) != ev.major || old(diskMinor) != ev.minor then Abs() == old(Abs())
              else
                && state == NoMedia && diskMajor == diskMinor == -1 && diskNumParts == 0 && partIdx == -1
                && forall i :: 0 <= i < MAX_PARTITIONS ==> table[i] < 0
      ensures vm.Abs() == UmsAfter(old(vm.Abs()), old(Abs()), ev, tunable)
      ensures forall shared: nat, leaks: nat, original: int ::
                tunable && old(vm.Accounts(shared, leaks, original)) && (old(state) == Shared ==> shared > 0) ==>
                  vm.Accounts(SharedAfter(shared, old(Abs()), ev),
                              leaks + (if Leaks(old(Abs()), ev) then 1 else 0), original)
    {
      StepKeepsSound(Abs(), ev);
      DiskRemovedMeans(Abs(), ev);
      KeepsBooks(vm, ev);
      DropDisk(vm, ev, tunable);
    }

    method DropDisk(vm: VolumeManager, ev: Event, tunable: bool)
      requires Valid() && ev.DiskRemoved?
      modifies this, table, vm
      ensures Abs() == RemoveDisk(old(Abs()), ev)
      ensures vm.Abs() == UmsAfter(old(vm.Abs()), old(Abs()), ev, tunable)
    {
      if diskMajor != ev.major || diskMinor != ev.minor {
        return;
      }
      LetGo(vm, ev, tunable);
      SetState(NoMedia);
      ForgetPartitions();
      partIdx, diskMajor, diskMinor, diskNumParts := -1, -1, -1, 0;
    }
  }
}
