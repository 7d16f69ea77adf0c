/**
 The table of loop devices (Loop.cpp): creating binds the first device that is not in use,
 looking up finds the first one of a name, and together they act on a multiset of names.
 */
module LoopDevices {
  import opened Basics

  const LOOP_MAX := 4096

  // A device may lack its node in /dev/block, or its status may not be readable.
  datatype Slot = NoNode | Free | Bound(name: string, file: string) | Broken

  // The outcome of the system calls of one create
  datatype World = World(node: bool, file: bool, bind: bool)

  type Table = s: seq<Slot> | |s| == LOOP_MAX witness seq(LOOP_MAX, _ => NoNode)

  predicate Usable(s: Slot) { s.Free? || s.NoNode? }

  // Device i is the first for which the search for a name stops.
  predicate StopsAt(t: seq<Slot>, name: string, i: nat) {
    && i < |t| && (t[i].Broken? || (t[i].Bound? && t[i].name == name))
    && forall j :: 0 <= j < i ==> !t[j].Broken? && !(t[j].Bound? && t[j].name == name)
  }

  // Device i is the first that creating does not find in use.
  predicate FirstUnbound(t: seq<Slot>, i: nat) {
    && i < |t| && !t[i].Bound?
    && forall j :: 0 <= j < i ==> t[j].Bound?
  }

  function Names(t: seq<Slot>): multiset<string> {
    if t == [] then multiset{}
    else Names(t[..|t| - 1]) + NameOf(t[|t| - 1])
  }

  function NameOf(s: Slot): multiset<string> {
    if s.Bound? then multiset{s.name} else multiset{}
  }

  lemma {:induction false} NamesUpdate(t: seq<Slot>, i: nat, s: Slot)
    requires i < |t|
    ensures Names(t[i := s]) + NameOf(t[i]) == Names(t) + NameOf(s)
  {
    var n := |t| - 1;
    assert Names(t) == Names(t[..n]) + NameOf(t[n]);
    assert Names(t[i := s]) == Names(t[i := s][..n]) + NameOf(t[i := s][n]);
    if i == n {
      assert t[i := s][..n] == t[..n];
      Swap(Names(t[..n]), Names(t[..n]), NameOf(s), NameOf(s), NameOf(t[i]));
    } else {
      assert t[i := s][..n] == t[..n][i := s];
      NamesUpdate(t[..n], i, s);
      Swap(Names(t[..n]), Names(t[..n][i := s]), NameOf(t[i]), NameOf(s), NameOf(t[n]));
    }
  }

  lemma Swap(before: multiset<string>, after: multiset<string>, gone: multiset<string>, added: multiset<string>,
             rest: multiset<string>)
    requires after + gone == before + added
    ensures (after + rest) + gone == (before + rest) + added
  {
    assert (after + rest) + gone == (after + gone) + rest;
    assert (before + added) + rest == (before + rest) + added;
  }

  lemma {:induction false} NamesOf(t: seq<Slot>, name: string)
    ensures name in Names(t) <==> exists i :: 0 <= i < |t| && t[i].Bound? && t[i].name == name
  {
    if t != [] {
      var n := |t| - 1;
      NamesOf(t[..n], name);
      if i :| 0 <= i < |t| && t[i].Bound? && t[i].name == name && i < n {
        assert t[..n][i] == t[i];
      }
      if name in Names(t[..n]) {
        var i :| 0 <= i < |t[..n]| && t[..n][i].Bound? && t[..n][i].name == name;
        assert t[i] == t[..n][i];
      }
    }
  }

  class Loop {
    var slots: Table

    // lookupActive: a device without a node is passed over; one whose status cannot be
    // read ends the search.
    method LookupActive(name: string) returns (found: Option<nat>)
      ensures found.Some? ==> StopsAt(slots, name, found.value) && slots[found.value].Bound?
      ensures found.None? ==> (forall i :: 0 <= i < LOOP_MAX ==> !(slots[i].Bound? && slots[i].name == name))
                              || exists i: nat :: StopsAt(slots, name, i) && slots[i].Broken?
    {
      for i := 0 to LOOP_MAX
        invariant forall j :: 0 <= j < i ==> !slots[j].Broken? && !(slots[j].Bound? && slots[j].name == name)
      {
        if slots[i].Broken? {
          assert StopsAt(slots, name, i);
          return None;
        }
        if slots[i].Bound? && slots[i].name == name {
          return Some(i);
        }
      }
      return None;
    }

    // create, its last call (naming the device) going through. The node that is made for
    // the search stays.
    method Create(name: string, file: string, w: World) returns (rc: int, device: nat)
      modifies this
      ensures rc == 0 ==> FirstUnbound(old(slots), device) && Usable(old(slots)[device])
                          && slots == old(slots)[device := Bound(name, file)]
      ensures rc == 0 ==> Names(slots) == Names(old(slots)) + multiset{name}
      ensures rc != 0 ==> Names(slots) == Names(old(slots))
      ensures rc == 0 <==> w.file && w.bind && exists i: nat ::
                FirstUnbound(old(slots), i) && (old(slots)[i].Free? || (old(slots)[i].NoNode? && w.node))
    {
      device := 0;
      while device < LOOP_MAX && slots[device].Bound?
        invariant device <= LOOP_MAX
        invariant forall j :: 0 <= j < device ==> slots[j].Bound?
      {
        device := device + 1;
      }
      if device == LOOP_MAX {
        return -1, device;
      }
      assert FirstUnbound(slots, device);
      assert forall i: nat :: FirstUnbound(slots, i) ==> i == device;
      if slots[device].Broken? || (slots[device].NoNode? && !w.node) {
        return -1, device;
      }
      var found := BindAt(device, name, file, w);
      return if found then 0 else -1, device;
    }

    method BindAt(i: nat, name: string, file: string, w: World) returns (ok: bool)
      requires i < LOOP_MAX && Usable(slots[i])
      modifies this
      ensures ok == (w.file && w.bind)
      ensures slots == old(slots)[i := if ok then Bound(name, file) else Free]
      ensures Names(slots) == Names(old(slots)) + if ok then multiset{name} else multiset{}
    {
      var slot := if w.file && w.bind then Bound(name, file) else Free;
      NamesUpdate(slots, i, slot);
      slots := slots[i := slot];
      return slot.Bound?;
    }

    // destroyByDevice
    method DestroyByDevice(i: nat) returns (rc: int)
      requires i < LOOP_MAX
      modifies this
      ensures rc == if old(slots)[i].Bound? then 0 else -1
      ensures slots == if rc == 0 then old(slots)[i := Free] else old(slots)
      ensures rc == 0 ==> Names(slots) == Names(old(slots)) - multiset{old(slots)[i].name}
    {
      if !slots[i].Bound? {
        return -1;
      }
      NamesUpdate(slots, i, Free);
      slots := slots[i := Free];
      assert Names(slots) + multiset{old(slots)[i].name} == Names(old(slots));
      return 0;
    }
  }

  // A device that was just created under a name not in use is the one the name leads to.
  lemma CreatedIsFound(t: Table, i: nat, name: string, file: string, j: nat)
    requires FirstUnbound(t, i) && name !in Names(t)
    ensures StopsAt(t[i := Bound(name, file)], name, j) <==> j == i
  {
    NamesOf(t, name);
    var t' := t[i := Bound(name, file)];
    assert t'[i] == Bound(name, file);
    assert forall k :: 0 <= k < i ==> t'[k] == t[k];
  }

  // If the name is in use already, its older device hides the new one exactly if it comes
  // earlier in the table.
  lemma CreatedIsFoundIff(t: Table, i: nat, name: string, file: string)
    requires FirstUnbound(t, i)
    ensures StopsAt(t[i := Bound(name, file)], name, i)
            <==> forall j :: 0 <= j < i ==> t[j].name != name
  {
    var t' := t[i := Bound(name, file)];
    assert forall j :: 0 <= j < i ==> t'[j] == t[j];
  }
}
