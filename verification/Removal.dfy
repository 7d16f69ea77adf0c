/**
 Mount and unmount requests racing with the removal of the disk (Volume.cpp,
 DirectVolume.cpp). Any number of client threads each make one call; the netlink thread
 works through a queue of events. A step is one access to what they share: the mutex
 mLock, the flag mRemoving and the volume state. Every interleaving is allowed.
 */
module Removal {
  import opened Basics

  datatype Owner = Net | Client(i: nat)

  // mountVol: lock, test mRemoving, test the state, try k nodes, settle, unlock
  datatype Mount =
    | MWait(n: nat) | MTest(n: nat) | MCheck(n: nat) | MNode(n: nat) | MTry(n: nat)
    | MSubs | MFinish | MSet | MFailTest | MFailSet | MFree(rc: int) | MDone(rc: int)

  // unmountVol: lock, test the state, set Unmounting, unmount, unlock
  datatype Unmount = UWait | UTest | USet | URun | UFree(rc: int) | UDone(rc: int)

  datatype Call = M(m: Mount) | U(u: Unmount)

  // DiskGone(whole) is a disk that has (not) mDiskNumParts == 0.
  datatype Event = DiskGone(whole: bool) | PartGone | DiskBack(to: VState)

  datatype Handler =
    | NNext
    | NOpenWait | NOpen | NOpenFree            // setRemoveState(1)
    | NUms | NUnshare(looked: bool) | NLook    // what must be given up first
    | NIn(u: Unmount)                          // the unmount inside the window
    | NNoMedia
    | NCloseWait | NClose | NCloseFree         // setRemoveState(0)

  // How an unmodelled operation ends
  datatype Choice = Good | Bad | CheckFails | SecureFails

  datatype Memory = Memory(lock: Option<Owner>, removing: bool, st: VState)

  // `gone`: the last disk event handled took the disk away. `straddled`: some client was
  // between the test and the last write of unmountVol when that event set NoMedia.
  datatype Sys = Sys(sh: Memory, net: Handler, queue: seq<Event>, calls: seq<Call>, gone: bool, straddled: bool)

  // ---- Who holds the mutex, who waits for it, who is done

  predicate MHolds(m: Mount) { !m.MWait? && !m.MDone? }

  predicate UHolds(u: Unmount) { !u.UWait? && !u.UDone? }

  predicate Holds(c: Call) {
    match c case M(m) => MHolds(m) case U(u) => UHolds(u)
  }

  predicate NetHolds(net: Handler) {
    net.NOpen? || net.NOpenFree? || net.NClose? || net.NCloseFree? || (net.NIn? && UHolds(net.u))
  }

  predicate Waits(s: Sys, o: Owner)
    requires o.Client? ==> o.i < |s.calls|
  {
    match o
    case Net => s.net.NOpenWait? || s.net.NCloseWait? || s.net == NIn(UWait)
    case Client(i) => (s.calls[i].M? && s.calls[i].m.MWait?) || s.calls[i] == U(UWait)
  }

  predicate Done(s: Sys, o: Owner)
    requires o.Client? ==> o.i < |s.calls|
  {
    match o
    case Net => s.net.NNext? && s.queue == []
    case Client(i) => (s.calls[i].M? && s.calls[i].m.MDone?) || (s.calls[i].U? && s.calls[i].u.UDone?)
  }

  predicate Enabled(s: Sys, o: Owner) {
    && (o.Client? ==> o.i < |s.calls|)
    && !Done(s, o)
    && (Waits(s, o) ==> s.sh.lock == None)
  }

  // ---- The steps

  function MStep(sh: Memory, me: Owner, m: Mount, c: Choice): (Memory, Mount) {
    match m
    case MWait(n) => (sh.(lock := Some(me)), MTest(n))
    case MTest(n) => (sh, if sh.removing then MFree(-1) else MCheck(n))
    case MCheck(n) => (sh, if sh.st == Idle && n > 0 then MNode(n) else MFree(-1))
    case MNode(n) => (sh.(st := Checking), MTry(n))
    case MTry(n) =>
      (match c
       case Good => (sh, MSubs)
       case SecureFails => (sh.(st := Idle), MFree(-1))
       case _ => (if c.CheckFails? then sh.(st := Idle) else sh, if n <= 1 then MFailTest else MNode(n - 1)))
    case MSubs => (if c.CheckFails? then sh.(st := Idle) else sh, MFinish)
    case MFinish => (sh, if sh.st == Checking then MSet else MFree(-1))
    case MSet => (sh.(st := Mounted), MFree(0))
    case MFailTest => (sh, if sh.st == NoMedia then MFree(-1) else MFailSet)
    case MFailSet => (sh.(st := Idle), MFree(-1))
    case MFree(rc) => (sh.(lock := None), MDone(rc))
    case MDone(rc) => (sh, m)
  }

  function UStep(sh: Memory, me: Owner, u: Unmount, c: Choice): (Memory, Unmount) {
    match u
    case UWait => (sh.(lock := Some(me)), UTest)
    case UTest => (sh, if sh.st == Mounted then USet else UFree(-2))
    case USet => (sh.(st := Unmounting), URun)
    case URun =>
      (match c
       case Good => (sh.(st := Idle), UFree(0))
       case Bad => (sh.(st := Mounted), UFree(-1))
       case _ => (sh.(st := NoMedia), UFree(-1)))
    case UFree(rc) => (sh.(lock := None), UDone(rc))
    case UDone(rc) => (sh, u)
  }

  function CallStep(sh: Memory, me: Owner, call: Call, c: Choice): (Memory, Call) {
    match call
    case M(m) => var (sh', m') := MStep(sh, me, m, c); (sh', M(m'))
    case U(u) => var (sh', u') := UStep(sh, me, u, c); (sh', U(u'))
  }

  // After what was in use has been given up
  function Then(e: Event): Handler {
    if e.DiskGone? then NNoMedia else NCloseWait
  }

  // Some client is between the test and the last write of unmountVol.
  predicate Straddles(calls: seq<Call>) {
    exists i :: 0 <= i < |calls| && Unmounts(calls[i])
  }

  predicate Unmounts(c: Call) { c.U? && (c.u.USet? || c.u.URun?) }

  function NetStep(s: Sys, c: Choice): Sys
    requires !Done(s, Net) && s.queue != []
  {
    var e := s.queue[0];
    match s.net
    case NNext =>
      if e.DiskBack? then s.(sh := s.sh.(st := e.to), queue := s.queue[1..], gone := false, straddled := false)
      else s.(net := NOpenWait)
    case NOpenWait => s.(sh := s.sh.(lock := Some(Net)), net := NOpen)
    case NOpen => s.(sh := s.sh.(removing := true), net := NOpenFree)
    case NOpenFree => s.(sh := s.sh.(lock := None), net := if e.DiskGone? then NUms else NLook)
    case NUms =>
      s.(net := if s.sh.st == Shared then NUnshare(false)
                else if e.DiskGone? && e.whole then NLook else Then(e))
    case NUnshare(looked) =>
      s.(sh := if c.Good? then s.sh.(st := Idle) else s.sh,
         net := if !looked && e.DiskGone? && e.whole then NLook else Then(e))
    case NLook =>
      // UnmountUnshare; Good: the device that goes away is the one mounted
      s.(net := if s.sh.st in {Mounted, Shared, Checking} && c.Good? then NIn(UWait)
                else if s.sh.st == Shared then NUnshare(true) else Then(e))
    case NIn(u) =>
      var (sh', u') := UStep(s.sh, Net, u, c);
      s.(sh := sh', net := if u'.UDone? then Then(e) else NIn(u'))
    case NNoMedia =>
      s.(sh := s.sh.(st := NoMedia), net := NCloseWait, gone := true, straddled := Straddles(s.calls))
    case NCloseWait => s.(sh := s.sh.(lock := Some(Net)), net := NClose)
    case NClose => s.(sh := s.sh.(removing := false), net := NCloseFree)
    case NCloseFree => s.(sh := s.sh.(lock := None), net := NNext, queue := s.queue[1..])
  }

  function Step(s: Sys, o: Owner, c: Choice): Sys
    requires Enabled(s, o) && (s.queue == [] ==> s.net.NNext?)
  {
    match o
    case Net => NetStep(s, c)
    case Client(i) =>
      var (sh', call') := CallStep(s.sh, o, s.calls[i], c);
      s.(sh := sh', calls := s.calls[i := call'])
  }

  // ---- The invariant

  // Inside mountVol_l
  predicate InMount(c: Call) {
    c.M? && !c.m.MWait? && !c.m.MTest? && !c.m.MFree? && !c.m.MDone?
  }

  // Inside mountVol_l and beyond its test of the state, or as Unmounts
  predicate WillWrite(c: Call) {
    (InMount(c) && !c.m.MCheck?) || Unmounts(c)
  }

  predicate InWindow(net: Handler) {
    !net.NNext? && !net.NOpenWait? && !net.NOpen? && !net.NCloseFree?
  }

  predicate NetWillWrite(net: Handler) {
    net.NUnshare? || net == NIn(USet) || net == NIn(URun)
  }

  ghost predicate Inv(s: Sys) {
    && (s.queue == [] ==> s.net.NNext?)
    && (!s.net.NNext? ==> !s.queue[0].DiskBack?)
    && (s.net.NNoMedia? ==> s.queue[0].DiskGone?)
    && (s.net.NIn? ==> !s.net.u.UDone?)
    // the mutex
    && (NetHolds(s.net) <==> s.sh.lock == Some(Net))
    && (forall i :: 0 <= i < |s.calls| ==> (Holds(s.calls[i]) <==> s.sh.lock == Some(Client(i))))
    && (s.sh.lock.Some? && s.sh.lock.value.Client? ==> s.sh.lock.value.i < |s.calls|)
    // the window
    && (s.sh.removing <==> InWindow(s.net))
    && (s.sh.removing ==> forall i :: 0 <= i < |s.calls| ==> !InMount(s.calls[i]))
    // the disk stays away
    && (s.gone && !s.straddled ==> Away(s))
  }

  ghost predicate Away(s: Sys) {
    && s.sh.st == NoMedia
    && !NetWillWrite(s.net)
    && forall i :: 0 <= i < |s.calls| ==> !WillWrite(s.calls[i])
  }

  lemma InvStep(s: Sys, o: Owner, c: Choice)
    requires Inv(s) && Enabled(s, o)
    ensures Inv(Step(s, o, c))
  {
    match o
    case Net => NetKeepsInv(s, c);
    case Client(i) => ClientKeepsInv(s, i, c);
  }

  lemma NetKeepsInv(s: Sys, c: Choice)
    requires Inv(s) && Enabled(s, Net)
    ensures Inv(Step(s, Net, c))
  {
    if s.net.NIn? {
      UnmountInWindowKeepsInv(s, c);
    } else if s.net.NNoMedia? {
      NoMediaKeepsInv(s, c);
    } else if s.net.NNext? || s.net.NUms? || s.net.NUnshare? || s.net.NLook? {
      LooksKeepInv(s, c);
    } else {
      WindowKeepsInv(s, c);
    }
  }

  lemma NoMediaKeepsInv(s: Sys, c: Choice)
    requires Inv(s) && Enabled(s, Net) && s.net.NNoMedia?
    ensures Inv(Step(s, Net, c))
  {
    if !Straddles(s.calls) {
      forall i | 0 <= i < |s.calls| ensures !WillWrite(s.calls[i]) {
        assert !InMount(s.calls[i]);
      }
    }
  }

  lemma LooksKeepInv(s: Sys, c: Choice)
    requires Inv(s) && Enabled(s, Net) && (s.net.NNext? || s.net.NUms? || s.net.NUnshare? || s.net.NLook?)
    ensures Inv(Step(s, Net, c))
  {
  }

  // Opening and closing the window
  lemma WindowKeepsInv(s: Sys, c: Choice)
    requires Inv(s) && Enabled(s, Net)
    requires s.net.NOpenWait? || s.net.NOpen? || s.net.NOpenFree?
             || s.net.NCloseWait? || s.net.NClose? || s.net.NCloseFree?
    ensures Inv(Step(s, Net, c))
  {
  }

  lemma UnmountInWindowKeepsInv(s: Sys, c: Choice)
    requires Inv(s) && Enabled(s, Net) && s.net.NIn?
    ensures Inv(Step(s, Net, c))
  {
  }

  lemma ClientKeepsInv(s: Sys, i: nat, c: Choice)
    requires Inv(s) && Enabled(s, Client(i))
    ensures Inv(Step(s, Client(i), c))
  {
    if s.calls[i].M? {
      MountKeepsInv(s, i, c);
    } else {
      UnmountKeepsInv(s, i, c);
    }
  }

  lemma MountKeepsInv(s: Sys, i: nat, c: Choice)
    requires Inv(s) && Enabled(s, Client(i)) && s.calls[i].M?
    ensures Inv(Step(s, Client(i), c))
  {
    var s' := Step(s, Client(i), c);
    assert s'.net == s.net && forall j :: 0 <= j < |s.calls| && j != i ==> s'.calls[j] == s.calls[j];
  }

  lemma UnmountKeepsInv(s: Sys, i: nat, c: Choice)
    requires Inv(s) && Enabled(s, Client(i)) && s.calls[i].U?
    ensures Inv(Step(s, Client(i), c))
  {
    var s' := Step(s, Client(i), c);
    assert s'.net == s.net && forall j :: 0 <= j < |s.calls| && j != i ==> s'.calls[j] == s.calls[j];
  }

  // ---- Runs

  datatype Move = Move(who: Owner, how: Choice)

  // A schedule is possible from s: each move is of an owner that is enabled by then.
  predicate Possible(s: Sys, moves: seq<Move>)
    requires s.queue == [] ==> s.net.NNext?
    decreases |moves|
  {
    moves == [] || (
      && Enabled(s, moves[0].who)
      && var s' := Step(s, moves[0].who, moves[0].how);
         (s'.queue == [] ==> s'.net.NNext?) && Possible(s', moves[1..]))
  }

  function After(s: Sys, moves: seq<Move>): Sys
    requires (s.queue == [] ==> s.net.NNext?) && Possible(s, moves)
    decreases |moves|
  {
    if moves == [] then s else After(Step(s, moves[0].who, moves[0].how), moves[1..])
  }

  // Nobody has started.
  predicate Initial(s: Sys) {
    && s.net.NNext? && s.sh.lock == None && !s.sh.removing && !s.gone && !s.straddled
    && forall i :: 0 <= i < |s.calls| ==> (s.calls[i].M? && s.calls[i].m.MWait?) || s.calls[i] == U(UWait)
  }

  lemma {:induction false} InvAlways(s: Sys, moves: seq<Move>)
    requires Inv(s) && Possible(s, moves)
    ensures Inv(After(s, moves))
    decreases |moves|
  {
    if moves != [] {
      InvStep(s, moves[0].who, moves[0].how);
      InvAlways(Step(s, moves[0].who, moves[0].how), moves[1..]);
    }
  }

  // While the netlink thread is between setRemoveState(1) and setRemoveState(0) no client
  // executes mountVol_l.
  lemma NoMountInTheWindow(s: Sys, moves: seq<Move>, i: nat)
    requires Initial(s) && Possible(s, moves) && i < |s.calls|
    ensures |After(s, moves).calls| == |s.calls|
    ensures InWindow(After(s, moves).net) ==> !InMount(After(s, moves).calls[i])
  {
    InvAlways(s, moves);
    CallsStay(s, moves);
  }

  lemma {:induction false} CallsStay(s: Sys, moves: seq<Move>)
    requires (s.queue == [] ==> s.net.NNext?) && Possible(s, moves)
    ensures |After(s, moves).calls| == |s.calls|
    decreases |moves|
  {
    if moves != [] {
      CallsStay(Step(s, moves[0].who, moves[0].how), moves[1..]);
    }
  }

  // ---- No deadlock, and every run ends

  // Somebody can move until everybody is done.
  lemma SomebodyCanMove(s: Sys, o: Owner) returns (mover: Owner)
    requires Inv(s) && (o.Client? ==> o.i < |s.calls|) && !Done(s, o)
    ensures Enabled(s, mover)
  {
    mover := if s.sh.lock.Some? then s.sh.lock.value else o;
  }

  function MRank(m: Mount): nat {
    match m
    case MWait(n) => 2 * n + 9 case MTest(n) => 2 * n + 8 case MCheck(n) => 2 * n + 7
    case MNode(n) => 2 * n + 6 case MTry(n) => 2 * n + 5
    case MSubs => 4 case MFinish => 3 case MFailTest => 3 case MSet => 2 case MFailSet => 2
    case MFree(_) => 1 case MDone(_) => 0
  }

  function URank(u: Unmount): nat {
    match u
    case UWait => 5 case UTest => 4 case USet => 3 case URun => 2 case UFree(_) => 1 case UDone(_) => 0
  }

  function CallRank(c: Call): nat {
    match c case M(m) => MRank(m) case U(u) => URank(u)
  }

  function NetRank(net: Handler): nat {
    match net
    case NNext => 20
    case NOpenWait => 16 case NOpen => 15 case NOpenFree => 14
    case NUms => 13 case NUnshare(looked) => if looked then 5 else 12 case NLook => 11
    case NIn(u) => 5 + URank(u)
    case NNoMedia => 4 case NCloseWait => 3 case NClose => 2 case NCloseFree => 1
  }

  function Sum(calls: seq<Call>): nat {
    if calls == [] then 0 else CallRank(calls[0]) + Sum(calls[1..])
  }

  // Steps that are left at most
  function Work(s: Sys): nat {
    Sum(s.calls) + if s.queue == [] then 0 else NetRank(s.net) + 20 * (|s.queue| - 1)
  }

  lemma {:induction false} SumUpdate(calls: seq<Call>, i: nat, c: Call)
    requires i < |calls|
    ensures Sum(calls[i := c]) == Sum(calls) - CallRank(calls[i]) + CallRank(c)
  {
    if i == 0 {
      assert calls[i := c][1..] == calls[1..];
    } else {
      assert calls[i := c][1..] == calls[1..][i - 1 := c];
      SumUpdate(calls[1..], i - 1, c);
    }
  }

  lemma MRankFalls(sh: Memory, me: Owner, m: Mount, c: Choice)
    requires !m.MDone?
    ensures MRank(MStep(sh, me, m, c).1) < MRank(m)
  {
  }

  lemma URankFalls(sh: Memory, me: Owner, u: Unmount, c: Choice)
    requires !u.UDone?
    ensures URank(UStep(sh, me, u, c).1) < URank(u)
  {
  }

  lemma CallRankFalls(s: Sys, i: nat, c: Choice)
    requires Enabled(s, Client(i))
    ensures CallRank(CallStep(s.sh, Client(i), s.calls[i], c).1) < CallRank(s.calls[i])
  {
    match s.calls[i]
    case M(m) => MRankFalls(s.sh, Client(i), m, c);
    case U(u) => URankFalls(s.sh, Client(i), u, c);
  }

  lemma NetRankFalls(s: Sys, c: Choice)
    requires Inv(s) && Enabled(s, Net)
    ensures Work(Step(s, Net, c)) < Work(s)
  {
    var s' := Step(s, Net, c);
    assert s'.calls == s.calls;
    if s.net.NIn? {
      URankFalls(s.sh, Net, s.net.u, c);
      InWindowFalls(s, c);
    } else if s.net.NNext? || s.net.NCloseFree? {
      EventTaken(s, c);
    } else if s.net.NUms? || s.net.NUnshare? || s.net.NLook? {
      LooksFall(s, c);
    } else {
      WindowFalls(s, c);
    }
  }

  lemma EventTaken(s: Sys, c: Choice)
    requires Inv(s) && Enabled(s, Net) && (s.net.NNext? || s.net.NCloseFree?)
    ensures var s' := Step(s, Net, c);
            (s'.net == NOpenWait && s.net.NNext? && s'.queue == s.queue) || (s'.net.NNext? && s'.queue == s.queue[1..])
  {
  }

  lemma LooksFall(s: Sys, c: Choice)
    requires Inv(s) && Enabled(s, Net) && (s.net.NUms? || s.net.NUnshare? || s.net.NLook?)
    ensures NetRank(Step(s, Net, c).net) < NetRank(s.net) && Step(s, Net, c).queue == s.queue
  {
  }

  lemma WindowFalls(s: Sys, c: Choice)
    requires Inv(s) && Enabled(s, Net)
    requires s.net.NOpenWait? || s.net.NOpen? || s.net.NOpenFree?
             || s.net.NNoMedia? || s.net.NCloseWait? || s.net.NClose?
    ensures NetRank(Step(s, Net, c).net) < NetRank(s.net) && Step(s, Net, c).queue == s.queue
  {
  }

  lemma InWindowFalls(s: Sys, c: Choice)
    requires Inv(s) && Enabled(s, Net) && s.net.NIn?
    requires URank(UStep(s.sh, Net, s.net.u, c).1) < URank(s.net.u)
    ensures NetRank(Step(s, Net, c).net) < NetRank(s.net) && Step(s, Net, c).queue == s.queue
  {
  }

  lemma StepIsProgress(s: Sys, o: Owner, c: Choice)
    requires Inv(s) && Enabled(s, o)
    ensures Work(Step(s, o, c)) < Work(s)
  {
    match o
    case Net => NetRankFalls(s, c);
    case Client(i) =>
      CallRankFalls(s, i, c);
      SumUpdate(s.calls, i, CallStep(s.sh, o, s.calls[i], c).1);
  }

  // No run is longer than Work(s); one that cannot go on has answered every client and
  // handled every event, with the mutex free and the window closed.
  lemma {:induction false} EveryRunEnds(s: Sys, moves: seq<Move>)
    requires Inv(s) && Possible(s, moves)
    ensures |moves| + Work(After(s, moves)) <= Work(s)
    ensures (forall o :: !Enabled(After(s, moves), o)) ==>
              && (forall o: Owner :: (o.Client? ==> o.i < |After(s, moves).calls|) ==> Done(After(s, moves), o))
              && After(s, moves).sh.lock == None && !After(s, moves).sh.removing
    decreases |moves|
  {
    if moves != [] {
      var next := Step(s, moves[0].who, moves[0].how);
      InvStep(s, moves[0].who, moves[0].how);
      StepIsProgress(s, moves[0].who, moves[0].how);
      EveryRunEnds(next, moves[1..]);
    } else if forall o :: !Enabled(s, o) {
      forall o: Owner | o.Client? ==> o.i < |s.calls| ensures Done(s, o) {
        if !Done(s, o) {
          var mover := SomebodyCanMove(s, o);
        }
      }
      assert Done(s, Net) && !InWindow(s.net);
    }
  }

  // ---- What a removal leaves behind

  predicate Succeeding(c: Call) {
    c.M? && (c.m == MFree(0) || c.m == MDone(0))
  }

  predicate MountsOnly(calls: seq<Call>) {
    forall i :: 0 <= i < |calls| ==> calls[i].M?
  }

  // Over every run with mounts and removals the volume has no media from each removal of
  // the disk until a disk is put back.
  lemma {:induction false} GoneMeansNoMedia(s: Sys, moves: seq<Move>)
    requires Inv(s) && MountsOnly(s.calls) && !s.straddled && Possible(s, moves)
    ensures After(s, moves).gone ==> After(s, moves).sh.st == NoMedia
    ensures MountsOnly(After(s, moves).calls) && !After(s, moves).straddled
    decreases |moves|
  {
    if moves != [] {
      InvStep(s, moves[0].who, moves[0].how);
      GoneMeansNoMedia(Step(s, moves[0].who, moves[0].how), moves[1..]);
    }
  }

  // And as long as none is put back, no mount succeeds that had not succeeded before.
  lemma {:induction false} NoMountWhileGone(s: Sys, moves: seq<Move>, i: nat)
    requires Inv(s) && MountsOnly(s.calls) && s.gone && !s.straddled && Possible(s, moves)
    requires i < |s.calls| && forall e :: e in s.queue ==> !e.DiskBack?
    ensures |After(s, moves).calls| == |s.calls|
    ensures Succeeding(After(s, moves).calls[i]) ==> Succeeding(s.calls[i])
    decreases |moves|
  {
    if moves != [] {
      InvStep(s, moves[0].who, moves[0].how);
      NoSuccessWhileGone(s, moves[0].who, moves[0].how, i);
      NoMountWhileGone(Step(s, moves[0].who, moves[0].how), moves[1..], i);
    }
  }

  lemma NoSuccessWhileGone(s: Sys, o: Owner, c: Choice, i: nat)
    requires Inv(s) && MountsOnly(s.calls) && s.gone && !s.straddled && Enabled(s, o)
    requires i < |s.calls| && forall e :: e in s.queue ==> !e.DiskBack?
    ensures var s' := Step(s, o, c);
            && s'.gone && !s'.straddled && MountsOnly(s'.calls) && |s'.calls| == |s.calls|
            && (forall e :: e in s'.queue ==> !e.DiskBack?)
            && (Succeeding(s'.calls[i]) ==> Succeeding(s.calls[i]))
  {
  }

  lemma {:induction false} StaysAway(s: Sys, moves: seq<Move>)
    requires Inv(s) && s.gone && !s.straddled && Possible(s, moves) && forall e :: e in s.queue ==> !e.DiskBack?
    ensures After(s, moves).sh.st == NoMedia
    decreases |moves|
  {
    if moves != [] {
      InvStep(s, moves[0].who, moves[0].how);
      StaysAway(Step(s, moves[0].who, moves[0].how), moves[1..]);
    }
  }

  // With clients that unmount it may fail, even with no disk put back: after the handler
  // of a removal has set NoMedia, another state can follow exactly if an unmount was
  // between its test and its last write at that moment.
  lemma NoMediaHoldsUnlessStraddled(s: Sys)
    requires Inv(s) && s.net.NNoMedia? && forall e :: e in s.queue ==> !e.DiskBack?
    ensures (exists moves :: Possible(Step(s, Net, Good), moves) && After(Step(s, Net, Good), moves).sh.st != NoMedia)
            <==> Straddles(s.calls)
  {
    var s1 := Step(s, Net, Good);
    InvStep(s, Net, Good);
    if Straddles(s.calls) {
      var i :| 0 <= i < |s.calls| && Unmounts(s.calls[i]);
      var moves := UnmountGoesOn(s1, i);
    } else {
      forall moves | Possible(s1, moves) ensures After(s1, moves).sh.st == NoMedia {
        StaysAway(s1, moves);
      }
    }
  }

  lemma Prepend(s: Sys, m: Move, rest: seq<Move>)
    requires Inv(s) && Enabled(s, m.who) && Inv(Step(s, m.who, m.how)) && Possible(Step(s, m.who, m.how), rest)
    ensures Possible(s, [m] + rest) && After(s, [m] + rest) == After(Step(s, m.who, m.how), rest)
  {
    assert ([m] + rest)[1..] == rest;
  }

  lemma {:induction false} UnmountGoesOn(s: Sys, i: nat) returns (moves: seq<Move>)
    requires Inv(s) && i < |s.calls| && Unmounts(s.calls[i])
    ensures Possible(s, moves) && After(s, moves).sh.st == Idle
    decreases URank(s.calls[i].u)
  {
    var next := Step(s, Client(i), Good);
    InvStep(s, Client(i), Good);
    if s.calls[i].u.USet? {
      moves := UnmountGoesOn(next, i);
    } else {
      moves := [];
    }
    Prepend(s, Move(Client(i), Good), moves);
    moves := [Move(Client(i), Good)] + moves;
  }

  // ---- What each request comes to when nobody is in its way

  // A mount that will answer -1 without another access but the release of the mutex
  predicate Refused(c: Call) {
    c.M? && (c.m == MFree(-1) || c.m == MDone(-1))
  }

  // In every run a mount gets beyond its tests only outside the window and in state Idle: a
  // shared, mounted or missing volume is refused, and nothing is written for it.
  lemma OnlyIdleIsMounted(s: Sys, i: nat, c: Choice)
    requires Inv(s) && Enabled(s, Client(i)) && s.calls[i].M?
    ensures var s', m := Step(s, Client(i), c), s.calls[i].m;
            && (m.MTest? ==> (Refused(s'.calls[i]) <==> s.sh.removing) && s'.sh == s.sh)
            && (m.MCheck? ==> (Refused(s'.calls[i]) <==> s.sh.st != Idle || m.n == 0) && s'.sh == s.sh)
            && (Refused(s.calls[i]) ==> Refused(s'.calls[i]) && s'.sh.st == s.sh.st)
            && (!Refused(s.calls[i]) && !Refused(s'.calls[i]) && (m.MTest? || m.MCheck?) ==> InMount(s'.calls[i]))
  {
  }

  // An unmount gets beyond its test only in state Mounted.
  lemma OnlyMountedIsUnmounted(s: Sys, i: nat, c: Choice)
    requires Inv(s) && Enabled(s, Client(i)) && s.calls[i] == U(UTest)
    ensures Step(s, Client(i), c).calls[i] == U(if s.sh.st == Mounted then USet else UFree(-2))
    ensures Step(s, Client(i), c).sh == s.sh
  {
  }

  predicate OnItsWay(s: Sys, m: Mount) {
    match m
    case MWait(n) => n > 0 && s.sh.st == Idle && !s.sh.removing && s.sh.lock == None
    case MTest(n) => n > 0 && s.sh.st == Idle && !s.sh.removing
    case MCheck(n) => n > 0 && s.sh.st == Idle
    case MNode(n) => n > 0
    case MTry(n) => s.sh.st == Checking
    case MSubs => s.sh.st == Checking
    case MFinish => s.sh.st == Checking
    case MSet => true
    case MFree(rc) => rc == 0 && s.sh.st == Mounted
    case MDone(rc) => rc == 0 && s.sh.st == Mounted && s.sh.lock == None
    case _ => false
  }

  // A mount of an Idle volume with a node that mounts answers 0 and leaves it Mounted, the
  // mutex free.
  lemma {:induction false} MountGoesThrough(s: Sys, i: nat) returns (moves: seq<Move>)
    requires Inv(s) && i < |s.calls| && s.calls[i].M? && OnItsWay(s, s.calls[i].m)
    ensures Possible(s, moves)
    ensures var t := After(s, moves);
            && t.calls == s.calls[i := M(MDone(0))] && t.sh.st == Mounted && t.sh.lock == None && t.net == s.net
    decreases MRank(s.calls[i].m)
  {
    moves := [];
    if s.calls[i].m.MDone? {
      assert s.calls == s.calls[i := M(MDone(0))];
    } else {
      InvStep(s, Client(i), Good);
      MRankFalls(s.sh, Client(i), s.calls[i].m, Good);
      moves := MountGoesThrough(Step(s, Client(i), Good), i);
      Prepend(s, Move(Client(i), Good), moves);
      moves := [Move(Client(i), Good)] + moves;
    }
  }

  predicate OnItsWayOut(s: Sys, u: Unmount) {
    match u
    case UWait => s.sh.st == Mounted && s.sh.lock == None
    case UTest => s.sh.st == Mounted
    case UFree(rc) => rc == 0 && s.sh.st == Idle
    case UDone(rc) => rc == 0 && s.sh.st == Idle && s.sh.lock == None
    case _ => true
  }

  lemma {:induction false} UnmountGoesThrough(s: Sys, i: nat) returns (moves: seq<Move>)
    requires Inv(s) && i < |s.calls| && s.calls[i].U? && OnItsWayOut(s, s.calls[i].u)
    ensures Possible(s, moves)
    ensures var t := After(s, moves);
            && t.calls == s.calls[i := U(UDone(0))] && t.sh.st == Idle && t.sh.lock == None && t.net == s.net
    decreases URank(s.calls[i].u)
  {
    moves := [];
    if s.calls[i].u.UDone? {
      assert s.calls == s.calls[i := U(UDone(0))];
    } else {
      InvStep(s, Client(i), Good);
      URankFalls(s.sh, Client(i), s.calls[i].u, Good);
      moves := UnmountGoesThrough(Step(s, Client(i), Good), i);
      Prepend(s, Move(Client(i), Good), moves);
      moves := [Move(Client(i), Good)] + moves;
    }
  }

  // The handler is not yet past what it unmounts, or past NoMedia.
  predicate BeforeNoMedia(net: Handler) {
    !net.NCloseWait? && !net.NClose? && !net.NCloseFree?
  }

  predicate WillUnmount(s: Sys) {
    match s.net
    case NNext => s.sh.st == Mounted
    case NOpenWait => s.sh.st == Mounted
    case NOpen => s.sh.st == Mounted
    case NOpenFree => s.sh.st == Mounted
    case NLook => s.sh.st == Mounted
    case NIn(u) => OnItsWayOut(s, u) || (u.UWait? && s.sh.st == Mounted)
    case _ => false
  }

  // The handler of a removal, with the mutex free or its own, gets through with the window
  // closed: the volume of a removed disk is in NoMedia, and a mounted partition that goes
  // away is unmounted.
  lemma {:induction false} RemovalGoesThrough(s: Sys) returns (moves: seq<Move>)
    requires Inv(s) && s.queue != [] && !s.queue[0].DiskBack? && (s.sh.lock == None || s.sh.lock == Some(Net))
    ensures Possible(s, moves)
    ensures var t := After(s, moves);
            && t.net.NNext? && t.queue == s.queue[1..] && !t.sh.removing && t.sh.lock == None && t.calls == s.calls
            && (s.queue[0].DiskGone? && BeforeNoMedia(s.net) ==> t.sh.st == NoMedia && t.gone)
            && (!BeforeNoMedia(s.net) ==> t.sh.st == s.sh.st && t.gone == s.gone)
            && (s.queue[0].PartGone? && WillUnmount(s) ==> t.sh.st == Idle)
    decreases NetRank(s.net)
  {
    NetRankFallsHere(s, Good);
    var next := Step(s, Net, Good);
    InvStep(s, Net, Good);
    RemovalStep(s);
    moves := [];
    if !s.net.NCloseFree? {
      moves := RemovalGoesThrough(next);
    }
    Prepend(s, Move(Net, Good), moves);
    moves := [Move(Net, Good)] + moves;
  }

  // A shared volume whose partition goes away is unshared.
  lemma SharedIsUnshared(s: Sys)
    requires Inv(s) && s.net.NLook? && s.sh.st == Shared && s.queue[0].PartGone?
    ensures var t := Step(s, Net, Bad);
            Enabled(t, Net) && Step(t, Net, Good).sh.st == Idle && Step(t, Net, Good).net == NCloseWait
  {
  }

  lemma RemovalStep(s: Sys)
    requires Inv(s) && s.queue != [] && !s.queue[0].DiskBack? && (s.sh.lock == None || s.sh.lock == Some(Net))
    ensures var t := Step(s, Net, Good);
            && t.calls == s.calls && (t.sh.lock == None || t.sh.lock == Some(Net))
            && (s.net.NCloseFree? ==> t.net.NNext? && t.queue == s.queue[1..] && t.sh.lock == None && !t.sh.removing)
            && (!BeforeNoMedia(s.net) ==> t.sh.st == s.sh.st && t.gone == s.gone)
            && (!BeforeNoMedia(s.net) && !s.net.NCloseFree? ==> !BeforeNoMedia(t.net))
            && (s.queue[0].DiskGone? && BeforeNoMedia(s.net) ==>
                  BeforeNoMedia(t.net) || (t.sh.st == NoMedia && t.gone))
            && (s.queue[0].PartGone? && WillUnmount(s) ==>
                  WillUnmount(t) || (!BeforeNoMedia(t.net) && t.sh.st == Idle))
  {
  }

  lemma NetRankFallsHere(s: Sys, c: Choice)
    requires Inv(s) && Enabled(s, Net) && s.queue != [] && !s.queue[0].DiskBack?
    ensures !s.net.NCloseFree? ==>
              NetRank(Step(s, Net, c).net) < NetRank(s.net) && Step(s, Net, c).queue == s.queue
  {
    if s.net.NIn? {
      URankFalls(s.sh, Net, s.net.u, c);
      InWindowFalls(s, c);
    } else if s.net.NUms? || s.net.NUnshare? || s.net.NLook? {
      LooksFall(s, c);
    } else if !s.net.NNext? && !s.net.NCloseFree? {
      WindowFalls(s, c);
    }
  }
}
