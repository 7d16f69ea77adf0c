/**
 Mounting and unmounting a volume (Volume.cpp): the raw filesystem of the first usable
 device node, the bind mount of its secure area, the fuse view, and the further nodes as
 sub-mounts; and the way back, with what is rolled back when a step fails.

 Mounts stack: mounting on a mount point that is in use covers what is there, and detaching
 takes off the topmost layer. The sub-mounts lie on the layer of the raw filesystem they
 were mounted over, and detaching that layer (MNT_DETACH) takes them along; a plain umount
 of it is refused while there are any.

 The calls here are serialised; Removal.dfy treats their interleaving with disk removal.
 */
module VolumeMount {
  import opened Basics

  const MAX_MOUNT_PART := 16
  const UNMOUNT_TRIES := 10

  // The layers at the mount points of one volume. For the raw mount point, whose topmost
  // layer is the last, the numbers of the sub-mounts on each; they are numbered from 2.
  datatype Mounts = Mounts(raws: seq<set<nat>>, secure: nat, fuse: nat)

  const NoMounts := Mounts([], 0, 0)

  datatype Vol = Vol(state: VState, retry: bool, kdev: Option<int>, mounts: Mounts)

  // mountPartition: mounted, not usable, or failed its check (which sets the state to Idle)
  datatype PartResult = PartMounted | PartUnusable | PartCheckFailed

  type Tries = nat -> bool

  // What the world answers to one mount request
  datatype MountWorld = MountWorld(
    part: nat -> PartResult,  // per device node, as main part or as sub-part
    secure: bool,             // preparing and binding the secure area
    fuse: bool,               // the fuse service comes up
    stale: Tries,             // the tries at detaching a raw mount that was left over
    detach: bool)             // umount of the raw mount on the way back

  // ... and to one unmount request; `bind` is binding the secure area again
  datatype UnmountWorld = UnmountWorld(sub: nat -> Tries, secure: Tries, fuse: Tries, raw: Tries, bind: bool)

  predicate Detaches(tries: Tries) {
    exists k :: 0 <= k < UNMOUNT_TRIES && tries(k)
  }

  function Capped(n: nat): nat {
    if n > MAX_MOUNT_PART then MAX_MOUNT_PART else n
  }

  // ---- What a mount request finds

  // The main part is the first node from i on that mounts; n if there is none.
  function MainPart(w: MountWorld, i: nat, n: nat): (main: nat)
    requires i <= n
    ensures i <= main <= n && (main < n ==> w.part(main).PartMounted?)
    ensures forall j :: i <= j < main ==> !w.part(j).PartMounted?
    decreases n - i
  {
    if i == n || w.part(i).PartMounted? then i else MainPart(w, i + 1, n)
  }

  // A node after the main part fails its check.
  predicate SubCheckFails(w: MountWorld, n: nat, i: nat) {
    exists j :: i < j < n && w.part(j).PartCheckFailed?
  }

  // How many of the nodes in [from, last) mount
  function CountMounted(w: MountWorld, from: nat, last: nat): (count: nat)
    ensures count <= if from < last then last - from else 0
    decreases last
  {
    if from >= last then 0
    else CountMounted(w, from, last - 1) + (if w.part(last - 1).PartMounted? then 1 else 0)
  }

  // 2..m
  function Numbers(m: nat): (s: set<nat>)
    ensures forall i :: i in s <==> 2 <= i <= m
  {
    if m < 2 then {} else Numbers(m - 1) + {m}
  }

  // The sub-mounts over the main part
  function SubParts(w: MountWorld, n: nat): set<nat> {
    Numbers(1 + CountMounted(w, MainPart(w, 0, n) + 1, n))
  }

  // The mount of n candidate nodes goes through.
  predicate Succeeds(asec: bool, w: MountWorld, n: nat) {
    && MainPart(w, 0, n) < n
    && (asec ==> w.secure)
    && !SubCheckFails(w, n, MainPart(w, 0, n))
  }

  // It is given up only after the other mounts were made.
  predicate GivenUpLate(asec: bool, w: MountWorld, n: nat) {
    && MainPart(w, 0, n) < n
    && (asec ==> w.secure)
    && SubCheckFails(w, n, MainPart(w, 0, n))
  }

  // ---- The mounts after a request

  function Top(m: Mounts): set<nat> {
    if m.raws == [] then {} else m.raws[|m.raws| - 1]
  }

  // Without the topmost raw layer and what lies on it
  function Pop(m: Mounts): Mounts {
    if m.raws == [] then m else m.(raws := m.raws[..|m.raws| - 1])
  }

  function Push(m: Mounts, subs: set<nat>): Mounts {
    m.(raws := m.raws + [subs])
  }

  function WithTop(m: Mounts, subs: set<nat>): Mounts {
    if m.raws == [] then m else m.(raws := m.raws[|m.raws| - 1 := subs])
  }

  function Less(n: nat): nat {
    if n == 0 then 0 else n - 1
  }

  // What mountVol_l finds mounted after it has tried to clear a raw mount that was left over
  function AfterStale(m: Mounts, w: MountWorld): Mounts {
    if Detaches(w.stale) then Pop(m) else m
  }

  // The secure and the fuse mount of a request
  function Beside(asec: bool, m: Mounts, w: MountWorld): Mounts {
    m.(secure := m.secure + (if asec then 1 else 0), fuse := m.fuse + (if w.fuse then 1 else 0))
  }

  function MountsAfter(asec: bool, m: Mounts, w: MountWorld, n: nat): Mounts {
    if MainPart(w, 0, n) == n then m
    else if asec && !w.secure then (if w.detach then m else Push(m, {}))
    else if SubCheckFails(w, n, MainPart(w, 0, n)) && w.detach && SubParts(w, n) == {} then Beside(asec, m, w)
    else Push(Beside(asec, m, w), SubParts(w, n))
  }

  function AfterMount(asec: bool, v: Vol, nodes: seq<int>, w: MountWorld): Vol {
    if v.state != Idle then v.(retry := v.retry || v.state == Pending)
    else
      var n := Capped(|nodes|);
      var m := MountsAfter(asec, AfterStale(v.mounts, w), w, n);
      Vol(if Succeeds(asec, w, n) then Mounted else Idle, v.retry,
          if Succeeds(asec, w, n) || GivenUpLate(asec, w, n) then Some(nodes[MainPart(w, 0, n)]) else v.kdev,
          m)
  }

  predicate MountAnswers0(asec: bool, v: Vol, nodes: seq<int>, w: MountWorld) {
    v.state == Idle && Succeeds(asec, w, Capped(|nodes|))
  }

  // The first sub-mount from number i to n that is held; n + 1 if none is
  function FirstHeld(top: set<nat>, sub: nat -> Tries, i: nat, n: nat): (held: nat)
    requires i <= n + 1
    ensures i <= held <= n + 1 && (held <= n ==> held in top && !Detaches(sub(held)))
    ensures forall j :: i <= j < held && j in top ==> Detaches(sub(j))
    decreases n + 1 - i
  {
    if i == n + 1 || (i in top && !Detaches(sub(i))) then i else FirstHeld(top, sub, i + 1, n)
  }

  // From where the fuse view or the raw filesystem is held
  function Rebound(asec: bool, v: Vol, u: UnmountWorld): Vol {
    if !asec then v else if u.bind then v.(mounts := v.mounts.(secure := v.mounts.secure + 1)) else v.(state := NoMedia)
  }

  // From where the sub-mounts that are looked for are gone
  function AfterSubs(asec: bool, v: Vol, u: UnmountWorld): (Vol, int) {
    if asec && v.mounts.secure > 0 && !Detaches(u.secure) then (v, -1)
    else
      var m1 := if asec then v.mounts.(secure := Less(v.mounts.secure)) else v.mounts;
      if m1.fuse > 0 && !Detaches(u.fuse) then (Rebound(asec, v.(mounts := m1), u), -1)
      else
        var m2 := m1.(fuse := Less(m1.fuse));
        if m2.raws != [] && !Detaches(u.raw) then (Rebound(asec, v.(mounts := m2), u), -1)
        else (v.(state := Idle, kdev := None, mounts := Pop(m2)), 0)
  }

  // The sub-mounts looked for are numbered from 2 to the number of candidate nodes.
  function AfterUnmount(asec: bool, v: Vol, nodes: nat, u: UnmountWorld): (Vol, int) {
    if v.state != Mounted then (v, -2)
    else
      var n := if nodes == 0 then 1 else Capped(nodes);
      var held := FirstHeld(Top(v.mounts), u.sub, 2, n);
      var w := v.(mounts := WithTop(v.mounts, Top(v.mounts) - Numbers(held - 1)));
      if held <= n then (w, -1) else AfterSubs(asec, w, u)
  }

  // ---- What one request does

  // What Mounted stands for
  predicate Consistent(asec: bool, v: Vol) {
    && (v.state == Mounted ==> v.kdev.Some? && v.mounts.raws != [] && (asec ==> v.mounts.secure > 0))
    && (!asec ==> v.mounts.secure == 0)
  }

  // Some mount point carries more than one layer.
  predicate Stacked(m: Mounts) {
    |m.raws| > 1 || m.secure > 1 || m.fuse > 1
  }

  // A mount answering 0 leaves the volume on the first node that mounts, with everything
  // that belongs to it on top: over the layers that were there, less a raw one left over if
  // it could be detached.
  lemma MountIsOnTop(asec: bool, v: Vol, nodes: seq<int>, w: MountWorld)
    requires MountAnswers0(asec, v, nodes, w)
    ensures var n, v' := Capped(|nodes|), AfterMount(asec, v, nodes, w);
            && v'.state == Mounted && v'.kdev == Some(nodes[MainPart(w, 0, n)])
            && v'.mounts.raws != [] && Top(v'.mounts) == SubParts(w, n)
            && (v.mounts.raws == [] || !Detaches(w.stale) ==> Pop(v'.mounts).raws == v.mounts.raws)
            && (v.mounts.raws != [] && Detaches(w.stale) ==> Pop(v'.mounts).raws == Pop(v.mounts).raws)
            && v'.mounts.secure == v.mounts.secure + (if asec then 1 else 0)
            && v'.mounts.fuse == v.mounts.fuse + (if w.fuse then 1 else 0)
  {
    assert Pop(AfterMount(asec, v, nodes, w).mounts).raws == AfterStale(v.mounts, w).raws;
  }

  // The sub-mounts are numbered from 2, as many as there are further nodes that mount.
  lemma SubPartsAre(w: MountWorld, n: nat)
    ensures SubParts(w, n)
            == Numbers(1 + |set j | MainPart(w, 0, n) < j < n && w.part(j).PartMounted?|)
  {
    CountMountedIs(w, MainPart(w, 0, n) + 1, n);
    assert (set j | MainPart(w, 0, n) < j < n && w.part(j).PartMounted?)
        == (set j | MainPart(w, 0, n) + 1 <= j < n && w.part(j).PartMounted?);
  }

  lemma {:induction false} CountMountedIs(w: MountWorld, from: nat, last: nat)
    ensures CountMounted(w, from, last) == |set j | from <= j < last && w.part(j).PartMounted?|
    decreases last
  {
    var all := set j | from <= j < last && w.part(j).PartMounted?;
    if from < last {
      CountMountedIs(w, from, last - 1);
      var front := set j | from <= j < last - 1 && w.part(j).PartMounted?;
      assert all == front + if w.part(last - 1).PartMounted? then {last - 1} else {};
    } else {
      assert all == {};
    }
  }

  // A mount answering -1 mounts nothing, unless a later node fails its check or the raw
  // mount cannot be taken off again.
  lemma FailedMountLeaves(asec: bool, v: Vol, nodes: seq<int>, w: MountWorld)
    requires v.state == Idle && !MountAnswers0(asec, v, nodes, w)
    ensures var n, m, v' := Capped(|nodes|), AfterStale(v.mounts, w), AfterMount(asec, v, nodes, w);
            && v'.state == Idle
            && (v'.mounts == m <==>
                  || MainPart(w, 0, n) == n
                  || (if asec && !w.secure then w.detach
                      else !asec && !w.fuse && w.detach && SubParts(w, n) == {}))
  {
    var m, v' := AfterStale(v.mounts, w), AfterMount(asec, v, nodes, w);
    assert v'.mounts.raws == m.raws || |v'.mounts.raws| == |m.raws| + 1;
  }

  // An unmount answering 0 takes one layer off each mount point, the sub-mounts with the raw
  // one: it leaves no mount exactly if none was stacked.
  lemma UnmountLeavesNoneIff(asec: bool, v: Vol, nodes: nat, u: UnmountWorld)
    requires Consistent(asec, v) && AfterUnmount(asec, v, nodes, u).1 == 0
    ensures AfterUnmount(asec, v, nodes, u).0.mounts == NoMounts <==> !Stacked(v.mounts)
  {
  }

  // An unmount of a mounted volume answers 0 exactly if everything it looks for detaches: the
  // sub-mounts up to the number of nodes, the secure area if there is one, the fuse view and
  // the raw filesystem.
  lemma UnmountAnswers0Iff(asec: bool, v: Vol, nodes: nat, u: UnmountWorld)
    requires Consistent(asec, v)
    ensures AfterUnmount(asec, v, nodes, u).1 == 0 <==>
              && v.state == Mounted
              && (forall i :: 2 <= i <= Capped(nodes) && i in Top(v.mounts) ==> Detaches(u.sub(i)))
              && (asec ==> Detaches(u.secure)) && (v.mounts.fuse > 0 ==> Detaches(u.fuse)) && Detaches(u.raw)
    ensures AfterUnmount(asec, v, nodes, u).1 == -2 <==> v.state != Mounted
    ensures AfterUnmount(asec, v, nodes, u).1 != 0 && v.state != Mounted ==> AfterUnmount(asec, v, nodes, u).0 == v
  {
  }

  // A failing unmount keeps every raw layer, loses at most sub-mounts of the topmost one that
  // it looked for and could detach, and keeps the secure mount or ends in NoMedia.
  lemma FailedUnmountKeeps(asec: bool, v: Vol, nodes: nat, u: UnmountWorld)
    requires Consistent(asec, v) && AfterUnmount(asec, v, nodes, u).1 == -1
    ensures var v' := AfterUnmount(asec, v, nodes, u).0;
            && Consistent(asec, v') && v'.kdev == v.kdev
            && v'.mounts.raws != [] && Pop(v'.mounts).raws == Pop(v.mounts).raws
            && Top(v'.mounts) <= Top(v.mounts)
            && (forall i :: i in Top(v.mounts) - Top(v'.mounts) ==> 2 <= i <= Capped(nodes) && Detaches(u.sub(i)))
            && (v'.state == Mounted || (v'.state == NoMedia && asec && !u.bind))
            && v'.mounts.secure == (if v'.state == Mounted then v.mounts.secure else v.mounts.secure - 1)
  {
    var v' := AfterUnmount(asec, v, nodes, u).0;
    assert Top(v.mounts) - (Top(v.mounts) - Numbers(1)) == {};
  }

  // ---- Whole runs

  // Requests, and disk events that set the state and take no mount off
  datatype Request =
    | Mount(nodes: seq<int>, mountWorld: MountWorld)
    | Unmount(n: nat, unmountWorld: UnmountWorld)
    | DiskEvent(to: VState)

  function After(asec: bool, v: Vol, r: Request): Vol {
    match r
    case Mount(nodes, w) => AfterMount(asec, v, nodes, w)
    case Unmount(n, u) => AfterUnmount(asec, v, n, u).0
    case DiskEvent(to) => if to == Mounted then v else v.(state := to)
  }

  function Run(asec: bool, v: Vol, rs: seq<Request>): Vol {
    if rs == [] then v else After(asec, Run(asec, v, rs[..|rs| - 1]), rs[|rs| - 1])
  }

  // A mount is left behind: nobody will ask for its unmount.
  predicate Behind(v: Vol) {
    v.state != Mounted && v.mounts != NoMounts
  }

  // The condition for a request to leave a mount behind when none was left before
  predicate LeavesBehind(asec: bool, v: Vol, r: Request) {
    match r
    case Mount(nodes, w) =>
      var n := Capped(|nodes|);
      && v.state == Idle && MainPart(w, 0, n) < n
      && if asec && !w.secure then !w.detach
         else SubCheckFails(w, n, MainPart(w, 0, n)) && (asec || w.fuse || !w.detach || SubParts(w, n) != {})
    case Unmount(nodes, u) =>
      && v.state == Mounted && asec && !u.bind
      && (forall i :: i in Top(v.mounts) && 2 <= i <= Capped(nodes) ==> Detaches(u.sub(i)))
      && Detaches(u.secure)
      && ((v.mounts.fuse > 0 && !Detaches(u.fuse)) || !Detaches(u.raw))
    case DiskEvent(to) => v.state == Mounted && to != Mounted
  }

  lemma LeavesBehindIff(asec: bool, v: Vol, r: Request)
    requires Consistent(asec, v) && !Behind(v) && (v.state == Mounted ==> !Stacked(v.mounts))
    ensures Behind(After(asec, v, r)) <==> LeavesBehind(asec, v, r)
    ensures var v' := After(asec, v, r);
            Consistent(asec, v') && (v'.state == Mounted ==> !Stacked(v'.mounts))
  {
    match r
    case Mount(nodes, w) => MountLeavesBehindIff(asec, v, nodes, w);
    case Unmount(n, u) => UnmountLeavesBehindIff(asec, v, n, u);
    case DiskEvent(_) =>
  }

  lemma MountLeavesBehindIff(asec: bool, v: Vol, nodes: seq<int>, w: MountWorld)
    requires Consistent(asec, v) && !Behind(v) && (v.state == Mounted ==> !Stacked(v.mounts))
    ensures var v' := AfterMount(asec, v, nodes, w);
            && (Behind(v') <==> LeavesBehind(asec, v, Mount(nodes, w)))
            && Consistent(asec, v') && (v'.state == Mounted ==> !Stacked(v'.mounts))
  {
    if v.state == Idle {
      if MountAnswers0(asec, v, nodes, w) {
        MountIsOnTop(asec, v, nodes, w);
      } else {
        FailedMountLeaves(asec, v, nodes, w);
      }
    }
  }

  lemma UnmountLeavesBehindIff(asec: bool, v: Vol, n: nat, u: UnmountWorld)
    requires Consistent(asec, v) && !Behind(v) && (v.state == Mounted ==> !Stacked(v.mounts))
    ensures var v' := AfterUnmount(asec, v, n, u).0;
            && (Behind(v') <==> LeavesBehind(asec, v, Unmount(n, u)))
            && Consistent(asec, v') && (v'.state == Mounted ==> !Stacked(v'.mounts))
  {
    var (v', rc) := AfterUnmount(asec, v, n, u);
    if rc == 0 {
      UnmountLeavesNoneIff(asec, v, n, u);
    } else if rc == -1 {
      FailedUnmountKeeps(asec, v, n, u);
    }
  }

  lemma RequestKeepsConsistent(asec: bool, v: Vol, r: Request)
    requires Consistent(asec, v)
    ensures Consistent(asec, After(asec, v, r))
  {
    match r
    case Mount(nodes, w) =>
      if MountAnswers0(asec, v, nodes, w) { MountIsOnTop(asec, v, nodes, w); }
    case Unmount(n, u) =>
      if AfterUnmount(asec, v, n, u).1 == -1 { FailedUnmountKeeps(asec, v, n, u); }
    case DiskEvent(_) =>
  }

  lemma {:induction false} RunIsConsistent(asec: bool, v: Vol, rs: seq<Request>)
    requires Consistent(asec, v)
    ensures Consistent(asec, Run(asec, v, rs))
  {
    if rs != [] {
      RunIsConsistent(asec, v, rs[..|rs| - 1]);
      RequestKeepsConsistent(asec, Run(asec, v, rs[..|rs| - 1]), rs[|rs| - 1]);
    }
  }

  ghost predicate NeverBehind(asec: bool, v: Vol, rs: seq<Request>) {
    forall k :: 0 <= k <= |rs| ==> !Behind(Run(asec, v, rs[..k]))
  }

  // Over every run from a volume without mounts: as long as no request has left a mount
  // behind, an unmount that answers 0 leaves none, whatever the nodes have become.
  lemma {:induction false} CleanRunUnmounts(asec: bool, v: Vol, rs: seq<Request>, n: nat, u: UnmountWorld)
    requires v.state != Mounted && v.mounts == NoMounts && NeverBehind(asec, v, rs)
    ensures var v' := Run(asec, v, rs);
            && Consistent(asec, v') && (v'.state == Mounted ==> !Stacked(v'.mounts))
            && (AfterUnmount(asec, v', n, u).1 == 0 ==> AfterUnmount(asec, v', n, u).0.mounts == NoMounts)
  {
    assert rs[..|rs|] == rs;
    if rs != [] {
      var front := rs[..|rs| - 1];
      assert forall k :: 0 <= k <= |front| ==> front[..k] == rs[..k];
      assert NeverBehind(asec, v, front);
      CleanRunUnmounts(asec, v, front, n, u);
      assert !Behind(Run(asec, v, rs[..|rs| - 1]));
      LeavesBehindIff(asec, Run(asec, v, front), rs[|rs| - 1]);
    }
    if AfterUnmount(asec, Run(asec, v, rs), n, u).1 == 0 {
      UnmountLeavesNoneIff(asec, Run(asec, v, rs), n, u);
    }
  }

  // A mount and then an unmount, if both answer 0, leave no mount.
  predicate PairLeavesNone(asec: bool, v: Vol, nodes: seq<int>, w: MountWorld, later: nat, u: UnmountWorld) {
    MountAnswers0(asec, v, nodes, w) ==>
      var (v', rc) := AfterUnmount(asec, AfterMount(asec, v, nodes, w), later, u);
      rc == 0 ==> v'.mounts == NoMounts
  }

  // And only then: after every run that ends in Idle, every mount and unmount answering 0
  // leave no mount exactly if none is left behind now.
  lemma MountThenUnmountIff(asec: bool, v: Vol, rs: seq<Request>)
    requires Consistent(asec, v) && Run(asec, v, rs).state == Idle
    ensures (forall nodes, w, later, u :: PairLeavesNone(asec, Run(asec, v, rs), nodes, w, later, u))
            <==> !Behind(Run(asec, v, rs))
  {
    RunIsConsistent(asec, v, rs);
    var now := Run(asec, v, rs);
    if Behind(now) {
      BehindStaysBehind(asec, now);
    } else {
      forall nodes, w, later, u ensures PairLeavesNone(asec, now, nodes, w, later, u) {
        if MountAnswers0(asec, now, nodes, w) {
          MountIsOnTop(asec, now, nodes, w);
          var mounted := AfterMount(asec, now, nodes, w);
          if AfterUnmount(asec, mounted, later, u).1 == 0 {
            UnmountLeavesNoneIff(asec, mounted, later, u);
          }
        }
      }
    }
  }

  // A mount over what was left behind, and its unmount, leave it where it was.
  lemma BehindStaysBehind(asec: bool, v: Vol)
    requires v.state == Idle && v.mounts != NoMounts
    ensures exists nodes, w, later, u :: !PairLeavesNone(asec, v, nodes, w, later, u)
  {
    var no, yes: Tries := k => false, k => true;
    var w := MountWorld(k => PartMounted, true, true, no, true);
    var u := UnmountWorld(i => yes, yes, yes, yes, true);
    assert yes(0);
    assert MainPart(w, 0, 1) == 0 && SubParts(w, 1) == {};
    var mounted := AfterMount(asec, v, [0], w);
    assert mounted.mounts.raws == v.mounts.raws + [{}];
    assert WithTop(mounted.mounts, {}) == mounted.mounts;
    var (v', rc) := AfterUnmount(asec, mounted, 1, u);
    assert Pop(mounted.mounts).raws == v.mounts.raws;
    assert rc == 0 && v'.mounts == v.mounts;
    assert !PairLeavesNone(asec, v, [0], w, 1, u);
  }

  // ---- The procedures

  datatype MountPoint = Raw | Secure | Fuse | Sub(i: nat)

  // Something is mounted where a path lookup gets to.
  predicate InUse(m: Mounts, mp: MountPoint) {
    match mp
    case Raw => m.raws != []
    case Secure => m.secure > 0
    case Fuse => m.fuse > 0
    case Sub(i) => i in Top(m)
  }

  // Without the topmost layer there
  function Off(m: Mounts, mp: MountPoint): (m': Mounts)
    ensures !InUse(m, mp) ==> m' == m
  {
    match mp
    case Raw => Pop(m)
    case Secure => m.(secure := Less(m.secure))
    case Fuse => m.(fuse := Less(m.fuse))
    case Sub(i) => if m.raws == [] || i !in Top(m) then m else WithTop(m, Top(m) - {i})
  }

  // isMountpointMounted for a sub-mount: the list of mounts shows covered ones too
  predicate Listed(m: Mounts, i: nat) {
    exists k :: 0 <= k < |m.raws| && i in m.raws[k]
  }

  // What is left of the layers of a mount that gets as far as the fuse view
  lemma LayersAfter(asec: bool, m: Mounts, w: MountWorld, n: nat)
    requires MainPart(w, 0, n) < n && (asec ==> w.secure)
    ensures var all := Push(Beside(asec, m, w), {});
            MountsAfter(asec, m, w, n)
            == if SubCheckFails(w, n, MainPart(w, 0, n)) && w.detach && SubParts(w, n) == {} then Pop(all)
               else WithTop(all, SubParts(w, n))
  {
    var all := Push(Beside(asec, m, w), {});
    assert Pop(all).raws == m.raws;
    assert WithTop(all, SubParts(w, n)).raws == m.raws + [SubParts(w, n)];
  }

  lemma SameTop(m: Mounts)
    ensures WithTop(m, Top(m)) == m && Top(m) - Numbers(1) == Top(m)
  {
    if m.raws != [] {
      assert m.raws[|m.raws| - 1 := Top(m)] == m.raws;
    }
  }

  // What detaching the next sub-mount makes of the top layer
  lemma SubGone(m: Mounts, i: nat)
    requires i >= 1
    ensures var m' := WithTop(m, Top(m) - Numbers(i));
            && (InUse(m', Sub(i + 1)) <==> i + 1 in Top(m))
            && (InUse(m', Sub(i + 1)) ==> Listed(m', i + 1))
            && Off(m', Sub(i + 1)) == WithTop(m, Top(m) - Numbers(i + 1))
  {
    var m' := WithTop(m, Top(m) - Numbers(i));
    assert Top(m) - Numbers(i) - {i + 1} == Top(m) - Numbers(i + 1);
    if i + 1 !in Top(m) {
      assert Top(m) - Numbers(i) == Top(m) - Numbers(i + 1);
    } else if m.raws != [] {
      assert i + 1 in m'.raws[|m'.raws| - 1];
    }
  }

  class Volume {
    const providesAsec: bool
    var state: VState
    var retryMount: bool
    var kdev: Option<int>  // mCurrentlyMountedKdev; None is -1
    var mounts: Mounts

    ghost function Abs(): Vol
      reads this
    {
      Vol(state, retryMount, kdev, mounts)
    }

    ghost predicate Valid()
      reads this
    {
      Consistent(providesAsec, Abs())
    }

    constructor (providesAsec: bool)
      ensures this.providesAsec == providesAsec && Valid() && Abs() == Vol(NoMedia, false, None, NoMounts)
    {
      this.providesAsec := providesAsec;
      state, retryMount, kdev, mounts := NoMedia, false, None, NoMounts;
    }

    // doUnmount: up to ten tries at the topmost layer; where nothing is mounted it is done.
    method DoUnmount(mp: MountPoint, tries: Tries) returns (rc: int)
      modifies this`mounts
      ensures rc == if InUse(old(mounts), mp) && !Detaches(tries) then -1 else 0
      ensures mounts == if rc == 0 then Off(old(mounts), mp) else old(mounts)
    {
      for k := 0 to UNMOUNT_TRIES
        invariant mounts == old(mounts) && (k > 0 ==> InUse(mounts, mp))
        invariant forall j :: 0 <= j < k ==> !tries(j)
      {
        if !InUse(mounts, mp) || tries(k) {
          mounts := Off(mounts, mp);
          return 0;
        }
      }
      return -1;
    }

    // mountVol on the given candidate nodes
    method MountVol(nodes: seq<int>, w: MountWorld) returns (rc: int)
      requires Valid()
      modifies this
      ensures Valid() && Abs() == AfterMount(providesAsec, old(Abs()), nodes, w)
      ensures rc == if MountAnswers0(providesAsec, old(Abs()), nodes, w) then 0 else -1
      ensures retryMount == (old(retryMount) || old(state) == Pending)
      ensures old(state) != Idle ==> state == old(state) && kdev == old(kdev) && mounts == old(mounts)
      ensures old(state) == Idle ==> state == if rc == 0 then Mounted else Idle
      ensures rc == 0 ==>
                && state == Mounted && kdev == Some(nodes[MainPart(w, 0, Capped(|nodes|))])
                && mounts.raws != [] && Top(mounts) == SubParts(w, Capped(|nodes|))
                && (providesAsec ==> mounts.secure == old(mounts.secure) + 1)
    {
      RequestKeepsConsistent(providesAsec, Abs(), Mount(nodes, w));
      if MountAnswers0(providesAsec, Abs(), nodes, w) { MountIsOnTop(providesAsec, Abs(), nodes, w); }
      rc := MountVolL(nodes, w);
    }

    // mountVol_l, without dm-crypt
    method MountVolL(nodes: seq<int>, w: MountWorld) returns (rc: int)
      modifies this
      ensures Abs() == AfterMount(providesAsec, old(Abs()), nodes, w)
      ensures rc == if MountAnswers0(providesAsec, old(Abs()), nodes, w) then 0 else -1
    {
      if state != Idle {
        if state == Pending {
          retryMount := true;
        }
        return -1;
      }
      ClearStale(w);
      rc := MountNodes(nodes, w);
    }

    // A raw mount that is there although the state is Idle is detached, if it can be.
    method ClearStale(w: MountWorld)
      modifies this`mounts
      ensures mounts == AfterStale(old(mounts), w)
    {
      if mounts.raws != [] {
        var _ := DoUnmount(Raw, w.stale);
      }
    }

    method MountNodes(nodes: seq<int>, w: MountWorld) returns (rc: int)
      requires state == Idle
      modifies this`state, this`kdev, this`mounts
      ensures rc == if Succeeds(providesAsec, w, Capped(|nodes|)) then 0 else -1
      ensures state == if rc == 0 then Mounted else Idle
      ensures kdev == if rc == 0 || GivenUpLate(providesAsec, w, Capped(|nodes|))
                      then Some(nodes[MainPart(w, 0, Capped(|nodes|))]) else old(kdev)
      ensures mounts == MountsAfter(providesAsec, old(mounts), w, Capped(|nodes|))
    {
      var n := Capped(|nodes|);
      if n == 0 {
        return -1;
      }
      var i := FindMainPart(w, n);
      if i == n {
        return -1;
      }
      rc := FinishMount(nodes[i], w, i, n);
    }

    // The nodes in turn, until one mounts
    method FindMainPart(w: MountWorld, n: nat) returns (i: nat)
      requires state == Idle
      modifies this`state
      ensures i == MainPart(w, 0, n) && state == if i < n then Checking else Idle
    {
      i := 0;
      while i < n && !w.part(i).PartMounted?
        invariant i <= n && MainPart(w, i, n) == MainPart(w, 0, n)
      {
        state := if w.part(i).PartCheckFailed? then Idle else Checking;
        i := i + 1;
      }
      state := if i < n then Checking else Idle;
    }

    // From the moment the raw filesystem of the main part is mounted
    method FinishMount(node: int, w: MountWorld, i: nat, n: nat) returns (rc: int)
      requires state == Checking && i < n && i == MainPart(w, 0, n)
      modifies this`state, this`kdev, this`mounts
      ensures rc == if Succeeds(providesAsec, w, n) then 0 else -1
      ensures state == if rc == 0 then Mounted else Idle
      ensures kdev == if rc == 0 || GivenUpLate(providesAsec, w, n) then Some(node) else old(kdev)
      ensures mounts == MountsAfter(providesAsec, old(mounts), w, n)
    {
      mounts := Push(mounts, {});
      if providesAsec {
        if !w.secure {
          Umount(w.detach);
          state := Idle;
          return -1;
        }
        mounts := mounts.(secure := mounts.secure + 1);
      }
      LayersAfter(providesAsec, old(mounts), w, n);
      rc := MountRest(node, w, i, n);
    }

    // The fuse view and the further nodes
    method MountRest(node: int, w: MountWorld, i: nat, n: nat) returns (rc: int)
      requires state == Checking && mounts.raws != [] && Top(mounts) == {}
      modifies this`state, this`kdev, this`mounts
      ensures rc == (if SubCheckFails(w, n, i) then -1 else 0) && kdev == Some(node)
      ensures state == if rc == 0 then Mounted else Idle
      ensures var subs := Numbers(1 + CountMounted(w, i + 1, n));
              var m := old(mounts).(fuse := old(mounts).fuse + (if w.fuse then 1 else 0));
              mounts == if rc == -1 && w.detach && subs == {} then Pop(m) else WithTop(m, subs)
    {
      if w.fuse {
        mounts := mounts.(fuse := mounts.fuse + 1);
      }
      kdev := Some(node);
      MountSubParts(w, i + 1, n);
      if state != Checking {
        Umount(w.detach);
        return -1;
      }
      state := Mounted;
      return 0;
    }

    // umount of the raw mount: refused while there are sub-mounts on it
    method Umount(ok: bool)
      requires mounts.raws != []
      modifies this`mounts
      ensures mounts == if ok && Top(old(mounts)) == {} then Pop(old(mounts)) else old(mounts)
    {
      if ok && Top(mounts) == {} {
        mounts := Pop(mounts);
      }
    }

    // The mounting of further nodes over the main part. The state leaves Checking exactly
    // when one of them fails its check.
    method MountSubParts(w: MountWorld, from: nat, n: nat)
      requires state == Checking && mounts.raws != [] && Top(mounts) == {}
      modifies this`mounts, this`state
      ensures mounts == WithTop(old(mounts), Numbers(1 + CountMounted(w, from, n)))
      ensures state == if exists j :: from <= j < n && w.part(j).PartCheckFailed? then Idle else Checking
    {
      var mounted := 1;
      var i := from;
      assert mounts.raws == mounts.raws[|mounts.raws| - 1 := {}];
      while i < n
        invariant from <= i && (i <= n || i == from)
        invariant mounted == 1 + CountMounted(w, from, i)
        invariant mounts == WithTop(old(mounts), Numbers(mounted))
        invariant state == if exists j :: from <= j < i && w.part(j).PartCheckFailed? then Idle else Checking
      {
        match w.part(i) {
          case PartMounted =>
            mounts := WithTop(mounts, Top(mounts) + {mounted + 1});
            mounted := mounted + 1;
          case PartCheckFailed => state := Idle;
          case PartUnusable =>
        }
        i := i + 1;
      }
    }

    // unmountVol; `nodes` is the number of candidates at this moment
    method UnmountVol(nodes: nat, u: UnmountWorld) returns (rc: int)
      requires Valid()
      modifies this`state, this`kdev, this`mounts
      ensures Valid() && (Abs(), rc) == AfterUnmount(providesAsec, old(Abs()), nodes, u)
      ensures rc == 0 <==>
                && old(state) == Mounted
                && (forall i :: 2 <= i <= Capped(nodes) && i in Top(old(mounts)) ==> Detaches(u.sub(i)))
                && (providesAsec ==> Detaches(u.secure))
                && (old(mounts).fuse > 0 ==> Detaches(u.fuse)) && Detaches(u.raw)
      ensures rc == -2 <==> old(state) != Mounted
      ensures rc == -2 ==> Abs() == old(Abs())
      // success: one layer of everything is gone, so all of it if nothing was stacked
      ensures rc == 0 ==> state == Idle && kdev == None && (mounts == NoMounts <==> !Stacked(old(mounts)))
      // failure: the raw mount is there still, and so is the secure area unless binding it
      // again failed too, which ends in NoMedia
      ensures rc == -1 ==>
                && kdev == old(kdev) && mounts.raws != [] && |mounts.raws| == |old(mounts.raws)|
                && (if state == Mounted then mounts.secure == old(mounts.secure) else state == NoMedia && !u.bind)
    {
      RequestKeepsConsistent(providesAsec, Abs(), Unmount(nodes, u));
      UnmountAnswers0Iff(providesAsec, Abs(), nodes, u);
      ghost var after := AfterUnmount(providesAsec, Abs(), nodes, u);
      if after.1 == 0 {
        UnmountLeavesNoneIff(providesAsec, Abs(), nodes, u);
      } else if after.1 == -1 {
        FailedUnmountKeeps(providesAsec, Abs(), nodes, u);
      }
      rc := UnmountVolL(nodes, u);
    }

    // unmountVol_l
    method UnmountVolL(nodes: nat, u: UnmountWorld) returns (rc: int)
      modifies this`state, this`kdev, this`mounts
      ensures (Abs(), rc) == AfterUnmount(providesAsec, old(Abs()), nodes, u)
    {
      if state != Mounted {
        return -2;
      }
      state := Unmounting;
      var gone := UnmountSubParts(if nodes == 0 then 1 else Capped(nodes), u.sub);
      if !gone {
        state := Mounted;
        return -1;
      }
      rc := UnmountRest(u);
    }

    method UnmountSubParts(n: nat, sub: nat -> Tries) returns (ok: bool)
      requires n >= 1
      modifies this`mounts
      ensures var held := FirstHeld(Top(old(mounts)), sub, 2, n);
              ok == (held > n) && mounts == WithTop(old(mounts), Top(old(mounts)) - Numbers(held - 1))
    {
      var i := 1;
      ghost var m, top := mounts, Top(mounts);
      SameTop(m);
      while i < n
        invariant 1 <= i <= n
        invariant mounts == WithTop(m, top - Numbers(i))
        invariant FirstHeld(top, sub, i + 1, n) == FirstHeld(top, sub, 2, n)
      {
        SubGone(m, i);
        if Listed(mounts, i + 1) {
          var rc := DoUnmount(Sub(i + 1), sub(i + 1));
          if rc < 0 {
            return false;
          }
        }
        i := i + 1;
      }
      return true;
    }

    // The secure area, the fuse view and the raw filesystem
    method UnmountRest(u: UnmountWorld) returns (rc: int)
      requires state == Unmounting
      modifies this`state, this`kdev, this`mounts
      ensures (Abs(), rc) == AfterSubs(providesAsec, old(Abs()).(state := Mounted), u)
    {
      if providesAsec {
        var secure := DoUnmount(Secure, u.secure);
        if secure != 0 {
          state := Mounted;
          return -1;
        }
      }
      var fuse := DoUnmount(Fuse, u.fuse);
      if fuse == 0 {
        var raw := DoUnmount(Raw, u.raw);
        if raw == 0 {
          state := Idle;
          kdev := None;
          return 0;
        }
      }
      if providesAsec {
        if !u.bind {
          state := NoMedia;
          return -1;
        }
        mounts := mounts.(secure := mounts.secure + 1);
      }
      state := Mounted;
      return -1;
    }
  }
}
