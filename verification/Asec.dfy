/**
 Secure containers (VolumeManager.cpp): the list of active containers against the image
 files, loop devices, dm devices and mounts that make them up. ASEC containers are known
 by id, OBB images by path. Loop devices are named by a hash of the id, taken to be
 injective, so the model names loop devices, dm devices and mount points by the id itself;
 multisets, because nothing in the kernel forbids a second loop device or mount of one
 name. Retries and their sleeps are answers of the world.
 */
module Asec {
  import opened Basics

  const UNMOUNT_RETRIES := 5
  const MIN_SECTORS := 1024 * 1024 / 512

  datatype Dir = Internal | External

  datatype Kind = ASEC | OBB

  datatype Container = Container(id: string, kind: Kind)

  datatype FsType = Ext4 | Fat | Invalid

  // A volume the manager knows: its label and the mount point that apps see
  datatype Known = Known(fuse: string, name: string)

  // The call that fails, if any. The three Late ones fail after having done their work in
  // part: an image file created but not sized, a loop device bound but not named, a dm
  // device created but without a table.
  // Content stands for the superblock, the filesystem, its mount point and its mount, whose
  // failures are handled alike.
  datatype Fault = Nothing | Image | LateImage | Hash | Loop | LateLoop | Dm | LateDm | Content

  predicate Late(f: Fault) { f.LateImage? || f.LateLoop? || f.LateDm? }

  // ---- Names

  predicate Plain(c: char) {
    c == '_' || c == '-' || 'a' <= c <= 'z' || 'A' <= c <= 'Z' || '0' <= c <= '9'
  }

  predicate Legal(id: string) {
    && id != "" && id[0] != '.' && id[|id| - 1] != '.'
    && (forall i :: 0 <= i < |id| ==> Plain(id[i]) || id[i] == '.')
    && (forall i :: 0 < i < |id| ==> !(id[i - 1] == '.' && id[i] == '.'))
  }

  // isLegalAsecId
  method IsLegalAsecId(id: string) returns (legal: bool)
    ensures legal <==> Legal(id)
  {
    if |id| == 0 {
      return false;
    }
    if id[0] == '.' || id[|id| - 1] == '.' {
      return false;
    }
    for i := 0 to |id|
      invariant forall j :: 0 <= j < i ==> Plain(id[j]) || id[j] == '.'
      invariant forall j :: 0 < j < i ==> !(id[j - 1] == '.' && id[j] == '.')
    {
      if id[i] == '.' {
        if id[i - 1] == '.' {
          return false;
        }
      } else if !Plain(id[i]) {
        return false;
      }
    }
    return true;
  }

  predicate Prefix(a: string, b: string) {
    |a| <= |b| && b[..|a|] == a
  }

  predicate Absolute(path: string) {
    path != "" && path[0] == '/'
  }

  // getVolumeForFile: the first volume whose mount point begins the path
  function VolumeForFile(volumes: seq<Known>, path: string): (v: Option<nat>)
    ensures v.Some? ==> v.value < |volumes| && Prefix(volumes[v.value].fuse, path)
    ensures forall i :: 0 <= i < (if v.Some? then v.value else |volumes|) ==> !Prefix(volumes[i].fuse, path)
  {
    if volumes == [] then None
    else if Prefix(volumes[0].fuse, path) then Some(0)
    else match VolumeForFile(volumes[1..], path) case None => None case Some(i) => Some(i + 1)
  }

  // ---- The list of active containers

  function Ids(cs: seq<Container>): multiset<string> {
    if cs == [] then multiset{} else multiset{cs[0].id} + Ids(cs[1..])
  }

  // Without the first entry of that id
  function Erase(cs: seq<Container>, id: string): seq<Container> {
    if cs == [] then [] else if cs[0].id == id then cs[1..] else [cs[0]] + Erase(cs[1..], id)
  }

  // Without the entries of these ids
  function Without(cs: seq<Container>, ids: set<string>): seq<Container> {
    if cs == [] then [] else if cs[0].id in ids then Without(cs[1..], ids) else [cs[0]] + Without(cs[1..], ids)
  }

  predicate NoDuplicates(cs: seq<Container>) {
    forall i, j :: 0 <= i < j < |cs| ==> cs[i].id != cs[j].id
  }

  lemma {:induction false} IdsAppend(cs: seq<Container>, c: Container)
    ensures Ids(cs + [c]) == Ids(cs) + multiset{c.id}
  {
    if cs != [] {
      IdsAppend(cs[1..], c);
      assert (cs + [c])[1..] == cs[1..] + [c];
    }
  }

  lemma {:induction false} IdsOf(cs: seq<Container>, id: string)
    ensures id in Ids(cs) <==> exists i :: 0 <= i < |cs| && cs[i].id == id
  {
    if cs != [] {
      IdsOf(cs[1..], id);
      if id in Ids(cs[1..]) {
        var i :| 0 <= i < |cs[1..]| && cs[1..][i].id == id;
        assert cs[i + 1].id == id;
      }
      if i :| 0 <= i < |cs| && cs[i].id == id && i > 0 {
        assert cs[1..][i - 1].id == id;
      }
    }
  }

  lemma {:induction false} EraseTakesOne(cs: seq<Container>, id: string)
    ensures Ids(Erase(cs, id)) == Ids(cs) - multiset{id}
  {
    if cs != [] { EraseTakesOne(cs[1..], id); }
  }

  lemma {:induction false} EraseIsWithout(cs: seq<Container>, id: string)
    requires NoDuplicates(cs)
    ensures Erase(cs, id) == Without(cs, {id})
  {
    if cs != [] {
      EraseIsWithout(cs[1..], id);
      if cs[0].id == id { WithoutNone(cs[1..], {id}); }
    }
  }

  lemma {:induction false} WithoutKeepsNoDuplicates(cs: seq<Container>, ids: set<string>)
    requires NoDuplicates(cs)
    ensures NoDuplicates(Without(cs, ids))
  {
    if cs != [] {
      var rest := Without(cs[1..], ids);
      WithoutKeepsNoDuplicates(cs[1..], ids);
      forall i | 0 <= i < |rest| ensures rest[i].id != cs[0].id {
        InWithout(cs[1..], ids, rest[i]);
      }
    }
  }

  lemma {:induction false} WithoutNone(cs: seq<Container>, ids: set<string>)
    requires forall i :: 0 <= i < |cs| ==> cs[i].id !in ids
    ensures Without(cs, ids) == cs
  {
    if cs != [] { WithoutNone(cs[1..], ids); }
  }

  lemma {:induction false} WithoutTwice(cs: seq<Container>, a: set<string>, b: set<string>)
    ensures Without(Without(cs, a), b) == Without(cs, a + b)
  {
    if cs != [] {
      WithoutTwice(cs[1..], a, b);
      if cs[0].id !in a {
        assert Without(cs, a)[1..] == Without(cs[1..], a);
      }
    }
  }

  lemma {:induction false} InWithout(cs: seq<Container>, ids: set<string>, c: Container)
    ensures c in Without(cs, ids) <==> c in cs && c.id !in ids
  {
    if cs != [] { InWithout(cs[1..], ids, c); }
  }

  predicate Detaches(tries: nat -> bool) {
    exists k :: 0 <= k < UNMOUNT_RETRIES && tries(k)
  }

  lemma AppendIsFresh(cs: seq<Container>, c: Container)
    ensures Ids(cs + [c]) == Ids(cs) + multiset{c.id}
    ensures NoDuplicates(cs + [c]) <==> NoDuplicates(cs) && c.id !in Ids(cs)
  {
    IdsAppend(cs, c);
    IdsOf(cs, c.id);
    assert forall i :: 0 <= i < |cs| ==> (cs + [c])[i] == cs[i];
    assert (cs + [c])[|cs|] == c;
    if c.id in Ids(cs) {
      var i :| 0 <= i < |cs| && cs[i].id == c.id;
      assert (cs + [c])[i].id == (cs + [c])[|cs|].id;
    }
  }

  lemma {:induction false} NoDuplicatesCounts(cs: seq<Container>, id: string)
    requires NoDuplicates(cs)
    ensures Ids(cs)[id] <= 1
  {
    if cs != [] {
      NoDuplicatesCounts(cs[1..], id);
      IdsOf(cs[1..], cs[0].id);
    }
  }

  // No ASEC id is the path of an image.
  lemma LegalIsNotAbsolute(id: string)
    requires Legal(id)
    ensures !Absolute(id)
  {
  }

  // ---- The state, and what an operation makes of it

  datatype File = File(dir: Dir, id: string)

  datatype State = State(
    active: seq<Container>, files: set<File>, loops: multiset<string>, dms: set<string>, mounts: multiset<string>)

  // findAsec: the internal directory hides the external one
  function FindAsec(files: set<File>, id: string): (dir: Option<Dir>)
    ensures dir == Some(Internal) <==> Legal(id) && File(Internal, id) in files
    ensures dir == Some(External) <==> Legal(id) && File(Internal, id) !in files && File(External, id) in files
  {
    if !Legal(id) then None
    else if File(Internal, id) in files then Some(Internal)
    else if File(External, id) in files then Some(External)
    else None
  }

  // The list has no duplicates and names exactly what is mounted, each with its loop
  // device; only what is mounted has a dm device.
  predicate Coherent(s: State) {
    && NoDuplicates(s.active)
    && s.loops == Ids(s.active) && s.mounts == Ids(s.active)
    && (forall id :: id in s.dms ==> id in s.mounts)
    && (forall c :: c in s.active ==> if c.kind == ASEC then Legal(c.id) else Absolute(c.id))
  }

  // ... and every ASEC in the list has its image file.
  predicate Valid(s: State) {
    Coherent(s) && forall c :: c in s.active && c.kind == ASEC ==> FindAsec(s.files, c.id).Some?
  }

  // A container more, mounted over a loop device and, with a key, a dm device
  function Activated(s: State, c: Container, key: bool): State {
    s.(active := s.active + [c],
       loops := s.loops + multiset{c.id},
       dms := if key then s.dms + {c.id} else s.dms,
       mounts := s.mounts + multiset{c.id})
  }

  // What a call that fails late leaves behind
  function Litter(s: State, file: File, f: Fault): State {
    if f.LateImage? then s.(files := s.files + {file}) else BindLitter(s, file.id, f)
  }

  function BindLitter(s: State, id: string, f: Fault): State {
    if f.LateLoop? then s.(loops := s.loops + multiset{""})
    else if f.LateDm? then s.(dms := s.dms + {id})
    else s
  }

  function Deactivated(s: State, id: string): State {
    s.(active := Erase(s.active, id),
       loops := s.loops - multiset{id},
       dms := s.dms - {id},
       mounts := s.mounts - multiset{id})
  }

  lemma AddRemove<T>(s: set<T>, x: T)
    requires x !in s
    ensures s + {x} - {x} == s
  {
  }

  lemma PlusMinus(m: multiset<string>, x: string)
    ensures m + multiset{x} - multiset{x} == m
  {
  }

  // A further container keeps the books exactly if its id is not active.
  lemma ActivatedIsCoherentIff(s: State, c: Container, key: bool)
    requires Coherent(s) && if c.kind == ASEC then Legal(c.id) else Absolute(c.id)
    ensures Coherent(Activated(s, c, key)) <==> c.id !in Ids(s.active)
  {
    AppendIsFresh(s.active, c);
  }

  // The id of an active container is that of an ASEC with a file or the path of an OBB:
  // a legal id without a file is not active.
  lemma FilelessIsInactive(s: State, id: string)
    requires Valid(s) && Legal(id) && FindAsec(s.files, id).None?
    ensures id !in Ids(s.active) && id !in s.loops && id !in s.dms && id !in s.mounts
  {
    IdsOf(s.active, id);
    LegalIsNotAbsolute(id);
  }

  lemma DeactivatedIsCoherent(s: State, id: string)
    requires Coherent(s)
    ensures Coherent(Deactivated(s, id)) && Deactivated(s, id).active == Without(s.active, {id})
    ensures id !in Ids(Deactivated(s, id).active)
    ensures var s' := Deactivated(s, id); id !in s'.mounts && id !in s'.loops && id !in s'.dms
    ensures forall c: Container :: c.id != id ==> (c in Deactivated(s, id).active <==> c in s.active)
    ensures Valid(s) ==> Valid(Deactivated(s, id))
  {
    var s' := Deactivated(s, id);
    EraseTakesOne(s.active, id);
    EraseIsWithout(s.active, id);
    WithoutKeepsNoDuplicates(s.active, {id});
    NoDuplicatesCounts(s.active, id);
    forall c ensures c in s'.active <==> c in s.active && c.id != id {
      InWithout(s.active, {id}, c);
    }
  }

  class VolumeManager {
    const volumes: seq<Known>
    var active: seq<Container>  // mActiveContainers
    var files: set<File>
    var loops: multiset<string>
    var dms: set<string>
    var mounts: multiset<string>

    function S(): State
      reads this
    {
      State(active, files, loops, dms, mounts)
    }

    constructor (volumes: seq<Known>, files: set<File>)
      ensures Valid(S()) && this.volumes == volumes && S() == State([], files, multiset{}, {}, multiset{})
    {
      this.volumes, this.files := volumes, files;
      active, loops, dms, mounts := [], multiset{}, {}, multiset{};
    }

    // ---- Creating

    // createAsec with a filesystem. Failing restores everything, but for the late faults.
    method CreateAsec(id: string, sectors: nat, fs: FsType, key: bool, dir: Dir, f: Fault) returns (rc: int)
      modifies this
      ensures rc == if Creatable(volumes, old(files), id, sectors, fs) && CanMake(old(S()), id, key, f) then 0 else -1
      ensures rc == 0 ==> S() == Activated(old(S()), Container(id, ASEC), key).(files := old(files) + {File(dir, id)})
      ensures rc == 0 ==> File(dir, id) in files && id in loops && id in mounts && (key ==> id in dms)
      ensures rc == -1 ==>
                S() == if Creatable(volumes, old(files), id, sectors, fs) then Litter(old(S()), File(dir, id), f)
                       else old(S())
    {
      var ok := MayCreate(id, sectors, fs);
      if !ok {
        return -1;
      }
      rc := MakeContainer(id, key, dir, f);
    }

    method MayCreate(id: string, sectors: nat, fs: FsType) returns (ok: bool)
      ensures ok == Creatable(volumes, files, id, sectors, fs)
    {
      var legal := IsLegalAsecId(id);
      if !legal || fs.Invalid? || sectors < MIN_SECTORS {
        return false;
      }
      for i := 0 to |volumes|
        invariant forall j :: 0 <= j < i ==> volumes[j].name != id
      {
        if volumes[i].name == id {
          return false;
        }
      }
      return FindAsec(files, id).None?;
    }

    // From the image file on
    method MakeContainer(id: string, key: bool, dir: Dir, f: Fault) returns (rc: int)
      requires File(dir, id) !in files
      modifies this
      ensures rc == if CanMake(old(S()), id, key, f) then 0 else -1
      ensures rc == 0 ==> S() == Activated(old(S()), Container(id, ASEC), key).(files := old(files) + {File(dir, id)})
      ensures rc == -1 ==> S() == Litter(old(S()), File(dir, id), f)
    {
      AddRemove(files, File(dir, id));
      if f.Image? {
        return -1;
      }
      files := files + {File(dir, id)};
      if f.LateImage? {
        return -1;
      }
      rc := BindAndMap(id, key, f);
      if rc != 0 {
        files := files - {File(dir, id)};
        return;
      }
      if f.Content? {
        TakeDown(id, key, dir, old(S()));
        return -1;
      }
      mounts := mounts + multiset{id};
      active := active + [Container(id, ASEC)];
    }

    // What every later failure takes down again
    method TakeDown(id: string, key: bool, dir: Dir, ghost before: State)
      requires File(dir, id) !in before.files && (key ==> id !in before.dms)
      requires S() == before.(files := before.files + {File(dir, id)}, loops := before.loops + multiset{id},
                              dms := if key then before.dms + {id} else before.dms)
      modifies this`files, this`loops, this`dms
      ensures S() == before
    {
      if key {
        dms := dms - {id};
      }
      loops := loops - multiset{id};
      files := files - {File(dir, id)};
    }

    // The loop device and the dm device of a new container
    method BindAndMap(id: string, key: bool, f: Fault) returns (rc: int)
      modifies this`loops, this`dms
      ensures rc == if Binds(old(dms), id, key, f) then 0 else -1
      ensures rc == 0 ==> loops == old(loops) + multiset{id} && dms == if key then old(dms) + {id} else old(dms)
      ensures rc == -1 ==> S() == BindLitter(old(S()), id, f)
    {
      if f.Hash? || f.Loop? {
        return -1;
      }
      if f.LateLoop? {
        loops := loops + multiset{""};
        return -1;
      }
      loops := loops + multiset{id};
      if key {
        rc := Map(id, f);
        if rc != 0 {
          loops := loops - multiset{id};
          PlusMinus(old(loops), id);
        }
        return;
      }
      return 0;
    }

    // Devmapper::create
    method Map(id: string, f: Fault) returns (rc: int)
      modifies this`dms
      ensures rc == if f.Dm? || f.LateDm? || id in old(dms) then -1 else 0
      ensures dms == if rc == 0 || f.LateDm? then old(dms) + {id} else old(dms)
    {
      if f.Dm? || f.LateDm? || id in dms {
        if f.LateDm? {
          dms := dms + {id};
        }
        return -1;
      }
      dms := dms + {id};
      return 0;
    }

    // ---- Mounting

    // From the look for a loop device on, which mountAsec and mountObb have in common. A
    // loop or dm device of the name is used if there is one. Image: the size or the
    // superblock cannot be read or is wrong.
    method MountImage(c: Container, key: bool, f: Fault) returns (rc: int)
      modifies this
      ensures rc == if BindsImage(old(S()), c.id, key, f) && !f.Content? then 0 else -1
      ensures rc == 0 ==> S() == Activated(old(S()), c, key).(
                                   loops := if c.id in old(loops) then old(loops) else old(loops) + multiset{c.id})
      ensures rc == -1 && c.id !in old(loops) && c.id !in old(dms) ==> S() == BindLitter(old(S()), c.id, f)
      ensures rc == -1 ==> active == old(active) && files == old(files) && mounts == old(mounts)
    {
      ghost var before := S();
      rc := BindImage(c.id, key, f);
      if rc != 0 {
        return;
      }
      if f.Content? {
        Unbind(c.id, key, before);
        return -1;
      }
      mounts := mounts + multiset{c.id};
      active := active + [c];
    }

    method Unbind(id: string, key: bool, ghost before: State)
      requires id !in before.loops ==> loops == before.loops + multiset{id}
      requires id !in before.dms ==> dms == if key then before.dms + {id} else before.dms
      modifies this`loops, this`dms
      ensures id !in before.loops && id !in before.dms ==> loops == before.loops && dms == before.dms
    {
      if key {
        dms := dms - {id};
      }
      loops := loops - multiset{id};
    }

    method BindImage(id: string, key: bool, f: Fault) returns (rc: int)
      modifies this`loops, this`dms
      ensures rc == if BindsImage(old(S()), id, key, f) then 0 else -1
      ensures rc == 0 ==>
                && loops == (if id in old(loops) then old(loops) else old(loops) + multiset{id})
                && dms == if key then old(dms) + {id} else old(dms)
      ensures rc == -1 && id !in old(loops) && id !in old(dms) ==> S() == BindLitter(old(S()), id, f)
    {
      if id !in loops {
        if f.Loop? || f.LateLoop? {
          if f.LateLoop? {
            loops := loops + multiset{""};
          }
          return -1;
        }
        loops := loops + multiset{id};
        PlusMinus(old(loops), id);
      }
      if f.Image? {
        loops := loops - multiset{id};
        return -1;
      }
      if key && id !in dms {
        if f.Dm? || f.LateDm? {
          if f.LateDm? {
            dms := dms + {id};
          }
          loops := loops - multiset{id};
          return -1;
        }
        dms := dms + {id};
      }
      return 0;
    }

    // mountAsec and mountObb: a failure leaves no loop or dm device of that name
    method MountAsec(id: string, key: bool, f: Fault) returns (rc: int)
      requires Coherent(S())
      modifies this
      ensures rc == if old(MayMountAsec(S(), id)) && CanMount(key, f) then 0 else -1
      ensures rc == 0 ==> S() == Activated(old(S()), Container(id, ASEC), key)
      ensures rc == 0 ==> FindAsec(files, id).Some? && id in loops && id in mounts && (key ==> id in dms)
      ensures rc == -1 && !Late(f) ==> S() == old(S())
      ensures rc == -1 ==> S() == if old(MayMountAsec(S(), id)) then BindLitter(old(S()), id, f) else old(S())
    {
      if FindAsec(files, id).None? || id in mounts || f.Hash? {
        return -1;
      }
      rc := MountImage(Container(id, ASEC), key, f);
    }

    method MountObb(path: string, key: bool, f: Fault) returns (rc: int)
      requires Coherent(S())
      modifies this
      ensures rc == if path !in old(mounts) && CanMount(key, f) then 0 else -1
      ensures rc == 0 ==> S() == Activated(old(S()), Container(path, OBB), key)
      ensures rc == 0 ==> path in loops && path in mounts && (key ==> path in dms)
      ensures rc == -1 && !Late(f) ==> S() == old(S())
      ensures rc == -1 ==> S() == if path !in old(mounts) then BindLitter(old(S()), path, f) else old(S())
    {
      if path in mounts || f.Hash? {
        return -1;
      }
      rc := MountImage(Container(path, OBB), key, f);
    }

    // ---- Unmounting

    method EraseFirst(id: string)
      modifies this`active
      ensures active == Erase(old(active), id)
    {
      var i := 0;
      while i < |active| && active[i].id != id
        invariant i <= |active|
        invariant active[..i] + Erase(active[i..], id) == Erase(active, id)
      {
        assert active[i..][1..] == active[i + 1..];
        i := i + 1;
      }
      if i < |active| {
        active := active[..i] + active[i + 1..];
      }
    }

    method UnmountLoopImage(id: string, tries: nat -> bool) returns (rc: int)
      modifies this
      ensures rc == if id in old(mounts) && Detaches(tries) then 0 else -1
      ensures S() == if rc == 0 then Deactivated(old(S()), id) else old(S())
    {
      if id !in mounts {
        return -1;
      }
      var ok := Detach(tries);
      if !ok {
        return -1;
      }
      TakeOff(id);
      return 0;
    }

    method TakeOff(id: string)
      modifies this
      ensures active == Erase(old(active), id) && files == old(files)
      ensures loops == old(loops) - multiset{id} && dms == old(dms) - {id} && mounts == old(mounts) - multiset{id}
    {
      EraseFirst(id);
      Release(id);
    }

    method Detach(tries: nat -> bool) returns (ok: bool)
      ensures ok <==> Detaches(tries)
    {
      for k := 0 to UNMOUNT_RETRIES
        invariant forall j :: 0 <= j < k ==> !tries(j)
      {
        if tries(k) {
          return true;
        }
      }
      return false;
    }

    // The mount, the dm device and the loop device, of those that are there
    method Release(id: string)
      modifies this`loops, this`dms, this`mounts
      ensures loops == old(loops) - multiset{id} && dms == old(dms) - {id} && mounts == old(mounts) - multiset{id}
    {
      ReleaseLoop(id);
      mounts := mounts - multiset{id};
      dms := dms - {id};
    }

    method ReleaseLoop(id: string)
      modifies this`loops
      ensures loops == old(loops) - multiset{id}
    {
      if id in loops {
        loops := loops - multiset{id};
      }
    }

    method UnmountAsec(id: string, tries: nat -> bool) returns (rc: int)
      modifies this
      ensures rc == if FindAsec(old(files), id).Some? && id in old(mounts) && Detaches(tries) then 0 else -1
      ensures S() == if rc == 0 then Deactivated(old(S()), id) else old(S())
    {
      if FindAsec(files, id).None? {
        return -1;
      }
      rc := UnmountLoopImage(id, tries);
    }

    // The image that FindAsec names is the one to go.
    method DestroyAsec(id: string, tries: nat -> bool, unlinks: bool) returns (rc: int)
      modifies this
      ensures rc == match FindAsec(old(files), id)
                    case None => -1
                    case Some(dir) => if (id in old(mounts) ==> Detaches(tries)) && unlinks then 0 else -1
      ensures rc == 0 ==> S() == Destroyed(old(S()), id)
      // a failed unlink comes after the unmount
      ensures rc == -1 ==> S() == if FindAsec(old(files), id).Some? && id in old(mounts) && Detaches(tries)
                                  then Deactivated(old(S()), id) else old(S())
    {
      if FindAsec(files, id).None? {
        return -1;
      }
      if id in mounts {
        rc := UnmountAsec(id, tries);
        if rc != 0 {
          return -1;
        }
      }
      if !unlinks {
        return -1;
      }
      files := files - {File(FindAsec(files, id).value, id)};
      return 0;
    }

    // ---- Cleaning up after a volume

    // Of the list as it is: the ASECs that are not found or found in the external
    // directory, and the images on the volume.
    method Collect(v: nat) returns (asecs: seq<string>, obbs: seq<string>)
      requires v < |volumes|
      ensures asecs == Pick(active, ASEC, files, volumes, v)
      ensures obbs == Pick(active, OBB, files, volumes, v)
    {
      asecs, obbs := [], [];
      for i := 0 to |active|
        invariant Pick(active, ASEC, files, volumes, v) == asecs + Pick(active[i..], ASEC, files, volumes, v)
        invariant Pick(active, OBB, files, volumes, v) == obbs + Pick(active[i..], OBB, files, volumes, v)
      {
        var c := active[i];
        var inAsecs, inObbs := CollectOne(c, v);
        PickFrom(active, i, ASEC, asecs, files, volumes, v);
        PickFrom(active, i, OBB, obbs, files, volumes, v);
        asecs, obbs := asecs + (if inAsecs then [c.id] else []), obbs + (if inObbs then [c.id] else []);
      }
    }

    method CollectOne(c: Container, v: nat) returns (inAsecs: bool, inObbs: bool)
      ensures inAsecs == (c.kind == ASEC && Doomed(c, files, volumes, v))
      ensures inObbs == (c.kind == OBB && Doomed(c, files, volumes, v))
    {
      match c.kind {
        case ASEC => return FindAsec(files, c.id) != Some(Internal), false;
        case OBB => return false, VolumeForFile(volumes, c.id) == Some(v);
      }
    }

    method UnmountAll(ids: seq<string>, kind: Kind, tries: string -> nat -> bool) returns (rc: int)
      requires Coherent(S()) && forall a, b :: 0 <= a < b < |ids| ==> ids[a] != ids[b]
      requires forall id :: id in ids ==> id in Ids(active)
      modifies this
      ensures S() == DeactivatedAll(old(S()), Gone(old(files), kind, ids, tries))
      ensures rc == if AllUnmount(old(files), kind, ids, tries) then 0 else -1
    {
      rc := 0;
      NoneDeactivated(S());
      ghost var before := S();
      for k := 0 to |ids|
        invariant S() == DeactivatedAll(before, Gone(before.files, kind, ids[..k], tries))
        invariant rc == if AllUnmount(before.files, kind, ids[..k], tries) then 0 else -1
      {
        ghost var gone := Gone(before.files, kind, ids[..k], tries);
        GoneIsAmong(before.files, kind, ids[..k], tries);
        OneMoreGone(before.files, kind, ids, k, tries);
        var failed := UnmountOne(ids[k], kind, tries, before, gone);
        if failed != 0 {
          rc := -1;
        }
      }
      assert ids[..|ids|] == ids;
    }

    method UnmountOne(id: string, kind: Kind, tries: string -> nat -> bool,
                      ghost before: State, ghost gone: set<string>)
      returns (rc: int)
      requires Coherent(before) && S() == DeactivatedAll(before, gone) && id in Ids(before.active) && id !in gone
      modifies this
      ensures rc == if CanUnmount(before.files, kind, id, tries) then 0 else -1
      ensures S() == DeactivatedAll(before, if rc == 0 then gone + {id} else gone)
    {
      IdsWithout(before.active, gone, id);
      OneMoreDeactivated(before, gone, id);
      if kind == ASEC {
        rc := UnmountAsec(id, tries(id));
      } else {
        rc := UnmountLoopImage(id, tries(id));
      }
    }

    // cleanupAsec: what hangs on the volume and unmounts is gone, nothing else is.
    method CleanupAsec(v: nat, tries: string -> nat -> bool) returns (rc: int)
      requires Coherent(S()) && v < |volumes|
      modifies this
      ensures S() == DeactivatedAll(old(S()), Leaving(old(S()), volumes, v, tries))
      ensures rc == if AllLeave(old(S()), volumes, v, tries) then 0 else -1
    {
      AsecsAddUp(S(), volumes, v, tries);
      AllAddUp(S(), volumes, v, tries);
      var asecs, obbs := Collect(v);
      var first := UnmountAll(asecs, ASEC, tries);
      var second := UnmountAll(obbs, OBB, tries);
      return if first == 0 then second else -1;
    }

    // Any sequence of requests, none of whose calls fails half-way
    method Serve(requests: seq<Request>)
      requires Valid(S()) && forall r :: r in requests ==> Proper(r, |volumes|)
      modifies this
      ensures Valid(S())
    {
      for k := 0 to |requests|
        invariant Valid(S())
      {
        ServeOne(requests[k]);
      }
    }

    method ServeOne(r: Request)
      requires Valid(S()) && Proper(r, |volumes|)
      modifies this
      ensures Valid(S())
    {
      ghost var s := S();
      match r {
        case Create(id, sectors, fs, key, dir, f) =>
          CreatedIsValid(s, id, key, dir);
          var _ := CreateAsec(id, sectors, fs, key, dir, f);
        case MountA(id, key, f) =>
          MountedIsValid(s, Container(id, ASEC), key);
          var _ := MountAsec(id, key, f);
        case MountO(path, key, f) =>
          MountedIsValid(s, Container(path, OBB), key);
          var _ := MountObb(path, key, f);
        case UnmountA(id, tries) =>
          DeactivatedIsCoherent(s, id);
          var _ := UnmountAsec(id, tries);
        case UnmountO(path, tries) =>
          DeactivatedIsCoherent(s, path);
          var _ := UnmountLoopImage(path, tries);
        case Destroy(id, tries, unlinks) =>
          DestroyedIsValid(s, id);
          var _ := DestroyAsec(id, tries, unlinks);
        case Cleanup(v, tries) =>
          DeactivatedAllIsValid(s, Leaving(s, volumes, v, tries));
          var _ := CleanupAsec(v, tries);
      }
    }
  }

  datatype Request =
    | Create(id: string, sectors: nat, fs: FsType, key: bool, dir: Dir, f: Fault)
    | MountA(id: string, key: bool, f: Fault)
    | MountO(path: string, key: bool, f: Fault)
    | UnmountA(id: string, tries: nat -> bool)
    | UnmountO(path: string, tries: nat -> bool)
    | Destroy(id: string, tries: nat -> bool, unlinks: bool)
    | Cleanup(v: nat, all: string -> nat -> bool)

  predicate Proper(r: Request, n: nat) {
    match r
    case Create(_, _, _, _, _, f) => !Late(f)
    case MountA(_, _, f) => !Late(f)
    case MountO(path, _, f) => !Late(f) && Absolute(path)
    case UnmountO(path, _) => Absolute(path)
    case Cleanup(v, _) => v < n
    case _ => true
  }

  predicate BindsImage(s: State, id: string, key: bool, f: Fault) {
    && (id !in s.loops ==> !f.Loop? && !f.LateLoop?)
    && (key && id !in s.dms ==> !f.Dm? && !f.LateDm?)
    && !f.Image?
  }

  // The checks before anything is made
  predicate Creatable(volumes: seq<Known>, files: set<File>, id: string, sectors: nat, fs: FsType) {
    && Legal(id) && !fs.Invalid? && sectors >= MIN_SECTORS
    && (forall v :: v in volumes ==> v.name != id)
    && FindAsec(files, id).None?
  }

  // A dm device is asked for only with a key, and refused when one of that name exists.
  predicate Binds(dms: set<string>, id: string, key: bool, f: Fault) {
    && !f.Hash? && !f.Loop? && !f.LateLoop?
    && (key ==> !f.Dm? && !f.LateDm? && id !in dms)
  }

  predicate CanMake(s: State, id: string, key: bool, f: Fault) {
    !f.Image? && !f.LateImage? && Binds(s.dms, id, key, f) && !f.Content?
  }

  predicate MayMountAsec(s: State, id: string) {
    FindAsec(s.files, id).Some? && id !in s.mounts
  }

  predicate CanMount(key: bool, f: Fault) {
    !f.Image? && Binds({}, "", key, f) && !f.Content?
  }

  function Destroyed(s: State, id: string): State
    requires FindAsec(s.files, id).Some?
  {
    (if id in s.mounts then Deactivated(s, id) else s).(
      files := s.files - {File(FindAsec(s.files, id).value, id)})
  }

  // ---- Cleaning up after a volume

  // What hangs on volume v: an ASEC unless its image is in the internal directory, and an
  // image file on the volume
  predicate Doomed(c: Container, files: set<File>, volumes: seq<Known>, v: nat) {
    match c.kind
    case ASEC => FindAsec(files, c.id) != Some(Internal)
    case OBB => VolumeForFile(volumes, c.id) == Some(v)
  }

  function Pick(cs: seq<Container>, kind: Kind, files: set<File>, volumes: seq<Known>, v: nat): seq<string> {
    if cs == [] then []
    else (if cs[0].kind == kind && Doomed(cs[0], files, volumes, v) then [cs[0].id] else [])
         + Pick(cs[1..], kind, files, volumes, v)
  }

  lemma PickFrom(cs: seq<Container>, i: nat, kind: Kind, picked: seq<string>, files: set<File>, volumes: seq<Known>,
                 v: nat)
    requires i < |cs|
    ensures var one := if cs[i].kind == kind && Doomed(cs[i], files, volumes, v) then [cs[i].id] else [];
            picked + Pick(cs[i..], kind, files, volumes, v)
            == (picked + one) + Pick(cs[i + 1..], kind, files, volumes, v)
  {
    assert cs[i..][1..] == cs[i + 1..];
  }

  predicate CanUnmount(files: set<File>, kind: Kind, id: string, tries: string -> nat -> bool) {
    (kind == ASEC ==> FindAsec(files, id).Some?) && Detaches(tries(id))
  }

  predicate AllUnmount(files: set<File>, kind: Kind, ids: seq<string>, tries: string -> nat -> bool) {
    forall k :: 0 <= k < |ids| ==> CanUnmount(files, kind, ids[k], tries)
  }

  // Those of the ids that unmount
  function Gone(files: set<File>, kind: Kind, ids: seq<string>, tries: string -> nat -> bool): set<string> {
    if ids == [] then {}
    else
      var last := ids[|ids| - 1];
      var gone := Gone(files, kind, ids[..|ids| - 1], tries);
      if CanUnmount(files, kind, last, tries) then gone + {last} else gone
  }

  lemma {:induction false} GoneIsAmong(files: set<File>, kind: Kind, ids: seq<string>, tries: string -> nat -> bool)
    ensures forall id :: id in Gone(files, kind, ids, tries) <==> id in ids && CanUnmount(files, kind, id, tries)
  {
    if ids != [] {
      GoneIsAmong(files, kind, ids[..|ids| - 1], tries);
      assert ids == ids[..|ids| - 1] + [ids[|ids| - 1]];
    }
  }

  lemma OneMoreGone(files: set<File>, kind: Kind, ids: seq<string>, k: nat, tries: string -> nat -> bool)
    requires k < |ids|
    ensures var gone := Gone(files, kind, ids[..k], tries);
            Gone(files, kind, ids[..k + 1], tries)
            == if CanUnmount(files, kind, ids[k], tries) then gone + {ids[k]} else gone
    ensures AllUnmount(files, kind, ids[..k + 1], tries)
            <==> AllUnmount(files, kind, ids[..k], tries) && CanUnmount(files, kind, ids[k], tries)
  {
    var last := ids[..k + 1];
    assert last[..k] == ids[..k] && last[k] == ids[k];
    assert forall j :: 0 <= j < k ==> last[j] == ids[..k][j];
  }

  function DeactivatedAll(s: State, gone: set<string>): State {
    s.(active := Without(s.active, gone), loops := Ids(Without(s.active, gone)), dms := s.dms - gone,
       mounts := Ids(Without(s.active, gone)))
  }

  lemma NoneDeactivated(s: State)
    requires Coherent(s)
    ensures DeactivatedAll(s, {}) == s
  {
    WithoutNone(s.active, {});
  }

  lemma OneMoreDeactivated(s: State, gone: set<string>, id: string)
    requires Coherent(s)
    ensures Coherent(DeactivatedAll(s, gone))
    ensures Deactivated(DeactivatedAll(s, gone), id) == DeactivatedAll(s, gone + {id})
  {
    var s1 := DeactivatedAll(s, gone);
    WithoutKeepsNoDuplicates(s.active, gone);
    forall d | d in s1.dms ensures d in s1.mounts {
      IdsWithout(s.active, gone, d);
    }
    forall c | c in s1.active ensures c in s.active {
      InWithout(s.active, gone, c);
    }
    DeactivatedIsCoherent(s1, id);
    WithoutTwice(s.active, gone, {id});
    assert s.dms - gone - {id} == s.dms - (gone + {id});
  }

  lemma {:induction false} IdsWithout(cs: seq<Container>, gone: set<string>, id: string)
    ensures id in Ids(Without(cs, gone)) <==> id in Ids(cs) && id !in gone
  {
    if cs != [] {
      IdsWithout(cs[1..], gone, id);
    }
  }

  // The ids that cleaning up after volume v takes out
  function Leaving(s: State, volumes: seq<Known>, v: nat, tries: string -> nat -> bool): set<string> {
    set c | c in s.active && Doomed(c, s.files, volumes, v) && CanUnmount(s.files, c.kind, c.id, tries) :: c.id
  }

  predicate AllLeave(s: State, volumes: seq<Known>, v: nat, tries: string -> nat -> bool) {
    forall c :: c in s.active && Doomed(c, s.files, volumes, v) ==> CanUnmount(s.files, c.kind, c.id, tries)
  }

  lemma TwiceDeactivated(s: State, a: set<string>, b: set<string>)
    ensures DeactivatedAll(DeactivatedAll(s, a), b) == DeactivatedAll(s, a + b)
  {
    WithoutTwice(s.active, a, b);
    assert s.dms - a - b == s.dms - (a + b);
  }

  lemma {:induction false} PickOf(cs: seq<Container>, kind: Kind, files: set<File>, volumes: seq<Known>, v: nat,
                                  id: string)
    ensures id in Pick(cs, kind, files, volumes, v)
            <==> Container(id, kind) in cs && Doomed(Container(id, kind), files, volumes, v)
  {
    if cs != [] {
      PickOf(cs[1..], kind, files, volumes, v, id);
    }
  }

  lemma {:induction false} PickIsDistinct(cs: seq<Container>, kind: Kind, files: set<File>, volumes: seq<Known>, v: nat)
    requires NoDuplicates(cs)
    ensures var ids := Pick(cs, kind, files, volumes, v); forall a, b :: 0 <= a < b < |ids| ==> ids[a] != ids[b]
  {
    if cs != [] {
      PickIsDistinct(cs[1..], kind, files, volumes, v);
      PickOf(cs[1..], kind, files, volumes, v, cs[0].id);
    }
  }

  lemma PickIsDoomed(s: State, kind: Kind, volumes: seq<Known>, v: nat)
    requires Coherent(s)
    ensures var ids := Pick(s.active, kind, s.files, volumes, v);
            && (forall a, b :: 0 <= a < b < |ids| ==> ids[a] != ids[b])
            && (forall id :: id in ids <==>
                  Container(id, kind) in s.active && Doomed(Container(id, kind), s.files, volumes, v))
            && (forall id :: id in ids ==> id in Ids(s.active))
  {
    var ids := Pick(s.active, kind, s.files, volumes, v);
    PickIsDistinct(s.active, kind, s.files, volumes, v);
    forall id
      ensures id in ids <==> Container(id, kind) in s.active && Doomed(Container(id, kind), s.files, volumes, v)
    {
      PickOf(s.active, kind, s.files, volumes, v, id);
    }
    forall id | id in ids ensures id in Ids(s.active) {
      IdsOf(s.active, id);
      var i :| 0 <= i < |s.active| && s.active[i] == Container(id, kind);
      assert s.active[i].id == id;
    }
  }

  // Unmounting the ASECs leaves every image that was collected in the list.
  lemma ImagesStay(s: State, asecs: seq<string>, obbs: seq<string>, gone: set<string>, volumes: seq<Known>, v: nat)
    requires Coherent(s)
    requires asecs == Pick(s.active, ASEC, s.files, volumes, v) && obbs == Pick(s.active, OBB, s.files, volumes, v)
    requires forall id :: id in gone ==> id in asecs
    ensures Coherent(DeactivatedAll(s, gone))
    ensures forall id :: id in obbs ==> id in Ids(DeactivatedAll(s, gone).active)
  {
    OneMoreDeactivated(s, gone, "");
    PickIsDoomed(s, ASEC, volumes, v);
    PickIsDoomed(s, OBB, volumes, v);
    forall id | id in obbs ensures id in Ids(DeactivatedAll(s, gone).active) {
      if id in gone {
        LegalIsNotAbsolute(id);
        assert false;
      }
      IdsWithout(s.active, gone, id);
    }
  }

  // Of the ASECs collected, those that unmount; of the images too
  function AsecsGone(s: State, volumes: seq<Known>, v: nat, tries: string -> nat -> bool): set<string> {
    Gone(s.files, ASEC, Pick(s.active, ASEC, s.files, volumes, v), tries)
  }

  function ImagesGone(s: State, volumes: seq<Known>, v: nat, tries: string -> nat -> bool): set<string> {
    Gone(s.files, OBB, Pick(s.active, OBB, s.files, volumes, v), tries)
  }

  lemma AsecsAddUp(s: State, volumes: seq<Known>, v: nat, tries: string -> nat -> bool)
    requires Coherent(s)
    ensures var ids := Pick(s.active, ASEC, s.files, volumes, v);
            (forall a, b :: 0 <= a < b < |ids| ==> ids[a] != ids[b]) && forall id :: id in ids ==> id in Ids(s.active)
    ensures var ids := Pick(s.active, OBB, s.files, volumes, v);
            var s1 := DeactivatedAll(s, AsecsGone(s, volumes, v, tries));
            && (forall a, b :: 0 <= a < b < |ids| ==> ids[a] != ids[b])
            && Coherent(s1) && forall id :: id in ids ==> id in Ids(s1.active)
  {
    PickIsDoomed(s, ASEC, volumes, v);
    PickIsDoomed(s, OBB, volumes, v);
    var asecs, obbs := Pick(s.active, ASEC, s.files, volumes, v), Pick(s.active, OBB, s.files, volumes, v);
    GoneIsAmong(s.files, ASEC, asecs, tries);
    ImagesStay(s, asecs, obbs, AsecsGone(s, volumes, v, tries), volumes, v);
  }

  lemma AllAddUp(s: State, volumes: seq<Known>, v: nat, tries: string -> nat -> bool)
    requires Coherent(s)
    ensures DeactivatedAll(DeactivatedAll(s, AsecsGone(s, volumes, v, tries)), ImagesGone(s, volumes, v, tries))
            == DeactivatedAll(s, Leaving(s, volumes, v, tries))
    ensures AllLeave(s, volumes, v, tries)
            <==> && AllUnmount(s.files, ASEC, Pick(s.active, ASEC, s.files, volumes, v), tries)
                 && AllUnmount(s.files, OBB, Pick(s.active, OBB, s.files, volumes, v), tries)
  {
    TwiceDeactivated(s, AsecsGone(s, volumes, v, tries), ImagesGone(s, volumes, v, tries));
    LeavingAddsUp(s, volumes, v, tries);
    PickIsDoomed(s, ASEC, volumes, v);
    PickIsDoomed(s, OBB, volumes, v);
    var asecs, obbs := Pick(s.active, ASEC, s.files, volumes, v), Pick(s.active, OBB, s.files, volumes, v);
    if AllLeave(s, volumes, v, tries) {
      assert forall k :: 0 <= k < |asecs| ==> asecs[k] in asecs;
      assert forall k :: 0 <= k < |obbs| ==> obbs[k] in obbs;
    } else {
      var c :| c in s.active && Doomed(c, s.files, volumes, v) && !CanUnmount(s.files, c.kind, c.id, tries);
      var ids := if c.kind == ASEC then asecs else obbs;
      assert c.id in ids;
    }
  }

  lemma LeavingAddsUp(s: State, volumes: seq<Known>, v: nat, tries: string -> nat -> bool)
    requires Coherent(s)
    ensures AsecsGone(s, volumes, v, tries) + ImagesGone(s, volumes, v, tries) == Leaving(s, volumes, v, tries)
  {
    PickIsDoomed(s, ASEC, volumes, v);
    PickIsDoomed(s, OBB, volumes, v);
    GoneIsAmong(s.files, ASEC, Pick(s.active, ASEC, s.files, volumes, v), tries);
    GoneIsAmong(s.files, OBB, Pick(s.active, OBB, s.files, volumes, v), tries);
  }

  // ---- What the operations keep

  lemma CreatedIsValid(s: State, id: string, key: bool, dir: Dir)
    requires Valid(s)
    ensures Legal(id) && FindAsec(s.files, id).None? ==>
              Valid(Activated(s, Container(id, ASEC), key).(files := s.files + {File(dir, id)}))
  {
    if Legal(id) && FindAsec(s.files, id).None? {
      FilelessIsInactive(s, id);
      ActivatedIsCoherentIff(s, Container(id, ASEC), key);
      var made := Activated(s, Container(id, ASEC), key);
      ChangedFiles(made, s.files + {File(dir, id)}, File(dir, id));
    }
  }

  lemma ChangedFiles(s: State, files: set<File>, file: File)
    requires Coherent(s)
    requires forall c :: c in s.active && c.kind == ASEC && c.id != file.id ==> FindAsec(s.files, c.id).Some?
    requires s.files - {file} <= files && (file in files || file.id !in Ids(s.active))
    ensures Valid(s.(files := files))
  {
    forall c | c in s.active && c.kind == ASEC ensures FindAsec(files, c.id).Some? {
      IdsOf(s.active, file.id);
      var i :| 0 <= i < |s.active| && s.active[i] == c;
      assert s.active[i].id == c.id;
      if c.id != file.id {
        var own := File(FindAsec(s.files, c.id).value, c.id);
        assert own in s.files - {file} && own in files;
      } else {
        match file.dir {
          case Internal => assert File(Internal, c.id) == file;
          case External => assert File(External, c.id) == file;
        }
      }
    }
  }

  lemma MountedIsValid(s: State, c: Container, key: bool)
    requires Valid(s)
    ensures c.id !in s.mounts && (if c.kind == ASEC then FindAsec(s.files, c.id).Some? else Absolute(c.id)) ==>
              Valid(Activated(s, c, key))
  {
    if c.id !in s.mounts && (if c.kind == ASEC then Legal(c.id) else Absolute(c.id)) {
      ActivatedIsCoherentIff(s, c, key);
    }
  }

  lemma DestroyedIsValid(s: State, id: string)
    requires Valid(s)
    ensures Valid(Deactivated(s, id))
    ensures FindAsec(s.files, id).Some? ==>
              var t := Destroyed(s, id);
              && Valid(t) && id !in t.mounts && id !in t.loops && id !in t.dms && id !in Ids(t.active)
              && (File(Internal, id) in s.files ==> t.files == s.files - {File(Internal, id)})
              && (File(Internal, id) !in s.files ==> t.files == s.files - {File(External, id)})
  {
    DeactivatedIsCoherent(s, id);
    if FindAsec(s.files, id).Some? {
      var file := File(FindAsec(s.files, id).value, id);
      var unmounted := if id in s.mounts then Deactivated(s, id) else s;
      ChangedFiles(unmounted, s.files - {file}, file);
    }
  }

  lemma DeactivatedAllIsValid(s: State, gone: set<string>)
    requires Coherent(s)
    ensures Coherent(DeactivatedAll(s, gone)) && (Valid(s) ==> Valid(DeactivatedAll(s, gone)))
  {
    OneMoreDeactivated(s, gone, "");
    forall c | c in Without(s.active, gone) ensures c in s.active {
      InWithout(s.active, gone, c);
    }
  }

  // Cleaning up: exactly the containers that do not hang on the volume stay active, and
  // mounted over their loop devices, when it answers 0; in any case they do.
  lemma CleanupLeavesTheRest(s: State, volumes: seq<Known>, v: nat, tries: string -> nat -> bool, c: Container)
    requires Coherent(s) && c in s.active
    ensures var s' := DeactivatedAll(s, Leaving(s, volumes, v, tries));
            && (c in s'.active <==> !(Doomed(c, s.files, volumes, v) && CanUnmount(s.files, c.kind, c.id, tries)))
            && (c in s'.active <==> c.id in s'.mounts) && (c in s'.active <==> c.id in s'.loops)
            && (AllLeave(s, volumes, v, tries) ==> (c in s'.active <==> !Doomed(c, s.files, volumes, v)))
  {
    var gone := Leaving(s, volumes, v, tries);
    InWithout(s.active, gone, c);
    IdsWithout(s.active, gone, c.id);
    IdsOf(s.active, c.id);
    var i :| 0 <= i < |s.active| && s.active[i] == c;
    assert s.active[i].id == c.id;
  }

  // The same on files and paths. An ASEC goes if its only image is in the external directory
  // and it detaches, an image file if volume v is the first whose mount point begins its
  // path and it detaches; the answer is 0 if no other that should go is left.
  lemma CleanupOnFiles(s: State, volumes: seq<Known>, v: nat, tries: string -> nat -> bool, c: Container)
    requires Coherent(s) && c in s.active && v < |volumes|
    ensures var s' := DeactivatedAll(s, Leaving(s, volumes, v, tries));
            c in s'.active <==>
              match c.kind
              case ASEC => File(Internal, c.id) in s.files || File(External, c.id) !in s.files || !Detaches(tries(c.id))
              case OBB => !FirstOn(volumes, v, c.id) || !Detaches(tries(c.id))
    ensures AllLeave(s, volumes, v, tries) ==>
              match c.kind
              case ASEC => File(Internal, c.id) in s.files || (File(External, c.id) in s.files && Detaches(tries(c.id)))
              case OBB => FirstOn(volumes, v, c.id) ==> Detaches(tries(c.id))
  {
    CleanupLeavesTheRest(s, volumes, v, tries, c);
  }

  predicate FirstOn(volumes: seq<Known>, v: nat, path: string)
    requires v < |volumes|
  {
    Prefix(volumes[v].fuse, path) && forall i :: 0 <= i < v ==> !Prefix(volumes[i].fuse, path)
  }

  // An ASEC whose image has vanished is never cleaned up; and a request to create it anew
  // without a key is granted, if its arguments are good, and breaks the books.
  lemma LostImage(s: State, volumes: seq<Known>, v: nat, tries: string -> nat -> bool,
                  id: string, sectors: nat, fs: FsType)
    requires Coherent(s) && Container(id, ASEC) in s.active && FindAsec(s.files, id).None?
    ensures !AllLeave(s, volumes, v, tries)
    ensures Container(id, ASEC) in DeactivatedAll(s, Leaving(s, volumes, v, tries)).active
    ensures !fs.Invalid? && sectors >= MIN_SECTORS && (forall v :: v in volumes ==> v.name != id) ==>
              Creatable(volumes, s.files, id, sectors, fs) && CanMake(s, id, false, Nothing)
    ensures forall key :: !Coherent(Activated(s, Container(id, ASEC), key))
  {
    CleanupLeavesTheRest(s, volumes, v, tries, Container(id, ASEC));
    assert Doomed(Container(id, ASEC), s.files, volumes, v);
    IdsOf(s.active, id);
    var i :| 0 <= i < |s.active| && s.active[i] == Container(id, ASEC);
    assert s.active[i].id == id;
    forall key ensures !Coherent(Activated(s, Container(id, ASEC), key)) {
      ActivatedIsCoherentIff(s, Container(id, ASEC), key);
    }
  }
}
