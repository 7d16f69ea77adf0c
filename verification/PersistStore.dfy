/**
 The two-copy store of cryptfs.c: the persistent table is saved by writing it to the
 copy that is not in use and then erasing the other one; a load takes the first valid
 copy. A power cut may fall before the write, between write and erase, or after both.

 A load seeks with 64-bit offsets. A save seeks to the copies it writes with `lseek`, whose
 offset is a signed 32-bit number in this build, so the store works for copies below 2^31.
 */
module PersistStore {
  import opened Basics
  import opened PersistTable
  import opened Metadata

  // Which footer versions are taken to carry a table. The code asks for 1.1 exactly;
  // the comment above struct crypt_persist_entry says 1.1 or higher.
  datatype Guard = ExactlyOneOne | OneOneOrHigher

  predicate Supports(g: Guard, f: Footer) {
    match g
    case ExactlyOneOne => f.major == 1 && f.minor == 1
    case OneOneOrHigher => f.major == 1 && f.minor >= 1
  }

  // What a load finds: the first valid copy, or a new empty table.
  function Visible(d: Disk, f: Footer): (t: Table)
    ensures d.At(f.persist0).Stored? ==> d.At(f.persist0) == Stored(t)
    ensures d.At(f.persist0).Blank? && d.At(f.persist1).Stored? ==> d.At(f.persist1) == Stored(t)
    ensures d.At(f.persist0).Blank? && d.At(f.persist1).Blank? ==> t == []
  {
    if d.At(f.persist0).Stored? then d.At(f.persist0).table
    else if d.At(f.persist1).Stored? then d.At(f.persist1).table
    else []
  }

  // Where a save writes and what it then erases: the first copy if it is valid is the one
  // in use.
  function Targets(d: Disk, f: Footer): (nat, nat) {
    if d.At(f.persist0).Stored? then (f.persist1, f.persist0) else (f.persist0, f.persist1)
  }

  // lseek to this offset: negative when it refuses, otherwise where it ends up
  function Seek(offset: nat): int { I32(offset) }

  // The writes of one save, in order, as far as its seeks let it get
  function SaveWrites(d: Disk, f: Footer, t: Table): seq<Write> {
    var (to, from) := Targets(d, f);
    if Seek(to) < 0 then []
    else if Seek(from) < 0 then [PutCopy(Seek(to), Stored(t))]
    else [PutCopy(Seek(to), Stored(t)), PutCopy(Seek(from), Blank)]
  }

  // A save with no failing read or write answers 0 exactly if both seeks go through.
  predicate SeeksGoThrough(f: Footer) {
    Seek(f.persist0) >= 0 && Seek(f.persist1) >= 0
  }

  predicate InReach(f: Footer) {
    f.persist0 < 0x8000_0000 && f.persist1 < 0x8000_0000
  }

  // ---------- Copies beyond the reach of a save ----------

  // The save answers 0 and the next load sees its table.
  predicate SavedAndSeen(d: Disk, f: Footer, t: Table) {
    SeeksGoThrough(f) && Visible(ApplyAll(d, SaveWrites(d, f, t)), f) == t
  }

  // A finished save is what the next load sees, for every disk and table, exactly if both
  // copies are below 2^31.
  lemma SaveIsSeenIff(f: Footer)
    requires f.persist0 != f.persist1
    ensures (forall d: Disk, t: Table :: SavedAndSeen(d, f, t)) <==> InReach(f)
  {
    if InReach(f) {
      forall d: Disk, t: Table ensures SavedAndSeen(d, f, t) {
        SeekInReach(f);
        UnrollApplyAll(d, SaveWrites(d, f, t));
      }
    } else if SeeksGoThrough(f) {
      var d, t := LostSave(f);
      assert !SavedAndSeen(d, f, t);
    } else {
      assert !SavedAndSeen(Disk(f, map[]), f, []);
    }
  }

  lemma SeekInReach(f: Footer)
    requires InReach(f)
    ensures Seek(f.persist0) == f.persist0 && Seek(f.persist1) == f.persist1
  {
  }

  // A save that answers 0 and is not seen
  lemma LostSave(f: Footer) returns (d: Disk, t: Table)
    requires f.persist0 != f.persist1 && !InReach(f) && SeeksGoThrough(f)
    ensures Visible(ApplyAll(d, SaveWrites(d, f, t)), f) != t
  {
    t := [Entry("", "")];
    d := Disk(f, if f.persist0 >= 0x8000_0000 then map[] else map[f.persist0 := Stored([])]);
    UnrollApplyAll(d, SaveWrites(d, f, t));
    SeekWraps(f.persist0);
    SeekWraps(f.persist1);
  }

  // A seek beyond 2^31 that is not refused ends up somewhere else, below it.
  lemma SeekWraps(offset: nat)
    ensures Seek(offset) >= 0 ==> Seek(offset) < 0x8000_0000
    ensures Seek(offset) == offset <==> offset < 0x8000_0000
  {
  }

  // On a device of 0x800020 sectors, just over 4 GiB, a save answers 0, changes nothing a
  // load looks at, and writes into the encrypted filesystem.
  lemma LargeDeviceLosesTheSave(d: Disk, params: ScryptParams, key: Bytes, salt: Bytes, t: Table)
    ensures var f := FreshFooter(0x80_0020, true, FooterLocation(0x80_0020), params, key, salt);
            && Validate(f) && SeeksGoThrough(f)
            && Visible(ApplyAll(d, SaveWrites(d, f, t)), f) == Visible(d, f)
            && |SaveWrites(d, f, t)| == 2
            && (forall w :: w in SaveWrites(d, f, t) ==> w.PutCopy? && w.offset + f.persistSize <= f.fsSize * 512)
  {
    var f := FreshFooter(0x80_0020, true, FooterLocation(0x80_0020), params, key, salt);
    assert f.persist0 == 0x1_0000_1000 && f.persist1 == 0x1_0000_2000;
    assert Seek(f.persist0) == 0x1000 && Seek(f.persist1) == 0x2000;
    UnrollApplyAll(d, SaveWrites(d, f, t));
    WrapSmall(f.persist0 + f.persistSize);
    WrapSmall(f.persist1 + f.persistSize);
    WrapSmall(f.persist0 - FOOTER_TO_PERSIST);
    WrapSmall(f.persist1 + f.persistSize - (f.persist0 - FOOTER_TO_PERSIST));
  }

  // ---------- One save, cut anywhere ----------

  // From any state of the two copies, both valid included: a save cut after k writes
  // leaves the table visible before or the table being saved; a finished save leaves
  // exactly the new one.
  lemma SaveIsAtomic(d: Disk, f: Footer, t: Table, k: nat)
    requires f.persist0 != f.persist1 && InReach(f)
    ensures var d' := ApplyAll(d, Upto(SaveWrites(d, f, t), k));
            && d'.footer == d.footer
            && (Visible(d', f) == Visible(d, f) || Visible(d', f) == t)
            && (k == 0 ==> Visible(d', f) == Visible(d, f))
            && (k >= 2 ==> Visible(d', f) == t && !(d'.At(f.persist0).Stored? && d'.At(f.persist1).Stored?))
  {
    SeekInReach(f);
    UnrollApplyAll(d, Upto(SaveWrites(d, f, t), k));
  }

  // ---------- Histories of saves, each cut somewhere ----------

  datatype Attempt = Attempt(table: Table, power: nat)

  // The disk after a history of saves, each with the power it was given; two writes finish one.
  function SaveAll(d: Disk, f: Footer, history: seq<Attempt>): Disk {
    if history == [] then d
    else
      var a := history[|history| - 1];
      var before := SaveAll(d, f, history[..|history| - 1]);
      ApplyAll(before, Upto(SaveWrites(before, f, a.table), a.power))
  }

  // The abstract store is one register whose unfinished writes may or may not take hold.
  ghost function Outcomes(v: Table, history: seq<Attempt>): iset<Table> {
    if history == [] then iset{v}
    else
      var a := history[|history| - 1];
      if a.power >= 2 then iset{a.table}
      else if a.power == 0 then Outcomes(v, history[..|history| - 1])
      else Outcomes(v, history[..|history| - 1]) + iset{a.table}
  }

  lemma {:induction false} StoreIsACrashSafeRegister(d: Disk, f: Footer, history: seq<Attempt>)
    requires f.persist0 != f.persist1 && InReach(f)
    ensures Visible(SaveAll(d, f, history), f) in Outcomes(Visible(d, f), history)
    ensures SaveAll(d, f, history).footer == d.footer
  {
    if history != [] {
      var a, front := history[|history| - 1], history[..|history| - 1];
      StoreIsACrashSafeRegister(d, f, front);
      SaveIsAtomic(SaveAll(d, f, front), f, a.table, a.power);
    }
  }

  // ---------- The guard ----------

  // Reading a footer upgrades it to 1.2, so the guard as coded refuses every footer it
  // is ever shown, and the documented one accepts every one.
  lemma GuardDecides(g: Guard, d: Disk, off: nat, params: ScryptParams)
    requires Readable(d)
    ensures Supports(g, FooterRead(d, off, params)) <==> g == OneOneOrHigher
  {
    ReadSettles(d, off, params, params);
  }

  // ---------- The procedures ----------

  // Which of the input/output calls of one save report success
  datatype SaveIo = SaveIo(read: bool, write: bool, erase: bool)

  class Store {
    const dev: Device
    const off: nat
    const params: ScryptParams
    const guard: Guard
    const encrypted: bool        // ro.crypto.state is "encrypted"
    var cache: Option<Table>     // persist_data

    constructor (dev: Device, off: nat, params: ScryptParams, guard: Guard, encrypted: bool)
      ensures cache == None && this.dev == dev && this.off == off && this.params == params
      ensures this.guard == guard && this.encrypted == encrypted
    {
      this.dev, this.off, this.params, this.guard, this.encrypted := dev, off, params, guard, encrypted;
      cache := None;
    }

    // The disk once its footer has been read, and upgraded if it was old
    ghost function Settled(): Disk
      reads dev
    {
      ApplyAll(dev.disk, Upto(ReadWrites(dev.disk, off, params), dev.power))
    }

    ghost function FooterNow(): Footer
      reads dev
    {
      FooterRead(dev.disk, off, params)
    }

    // The table there is after a load: the one in memory, a new one if the device is not
    // encrypted, the visible one on disk if it can be read, or none
    ghost function TableNow(readOk: bool): Option<Table>
      reads this`cache, dev
    {
      if cache.Some? then cache
      else if !encrypted then Some([])
      else if Readable(dev.disk) && Accepts(guard, FooterNow()) && readOk then Some(Visible(Settled(), FooterNow()))
      else None
    }

    // What a read of the footer does not change
    lemma FooterStays()
      ensures Readable(Settled()) == Readable(dev.disk)
      ensures FooterRead(Settled(), off, params) == FooterNow()
    {
      UnrollApplyAll(dev.disk, Upto(ReadWrites(dev.disk, off, params), dev.power));
    }

    // load_persistent_data
    method Load(readOk: bool) returns (rc: int)
      modifies this`cache, dev
      ensures cache == old(TableNow(readOk)) && rc == if cache.Some? then 0 else -1
      ensures old(cache).Some? ==> rc == 0 && cache == old(cache) && dev.disk == old(dev.disk)
      ensures old(cache).None? && !encrypted ==> rc == 0 && cache == Some([]) && dev.disk == old(dev.disk)
      ensures old(cache).None? && encrypted ==>
                && (rc == 0 <==> Readable(old(dev.disk)) && Accepts(guard, old(FooterNow())) && readOk)
                && cache == (if rc == 0 then Some(Visible(old(Settled()), old(FooterNow()))) else None)
                && dev.disk == old(Settled())
      ensures dev.power == Left(old(dev.power), if old(cache).None? && encrypted
                                                then |old(ReadWrites(dev.disk, off, params))| else 0)
    {
      if cache.Some? {
        return 0;
      }
      if !encrypted {
        cache := Some([]);
        return 0;
      }
      var got, f := GetCryptFtrAndKey(dev, off, params);
      if got != 0 || !Supports(guard, f) || !Validate(f) || !readOk {
        return -1;
      }
      var found := false;
      var pdata: Table := [];
      var offsets := [f.persist0, f.persist1];
      for i := 0 to 2
        invariant !found && forall j :: 0 <= j < i ==> dev.disk.At(offsets[j]).Blank?
        invariant dev.disk == old(Settled())
      {
        var copy := dev.disk.At(offsets[i]);
        if copy.Stored? {
          found, pdata := true, copy.table;
          assert i == 0 || (i == 1 && dev.disk.At(offsets[0]).Blank?);
          break;
        }
      }
      if !found {
        pdata := [];
        assert dev.disk.At(offsets[0]).Blank? && dev.disk.At(offsets[1]).Blank?;
      }
      cache := Some(pdata);
      return 0;
    }

    // save_persistent_data
    method Save(io: SaveIo) returns (rc: int)
      modifies dev
      ensures rc == 0 || rc == -1
      ensures rc == 0 <==> cache.Some? && Readable(old(dev.disk)) && Accepts(guard, old(FooterNow()))
                           && io.read && io.write && io.erase && SeeksGoThrough(old(FooterNow()))
      ensures dev.disk == ApplyAll(old(dev.disk), Upto(old(SaveCall(io)), old(dev.power)))
    {
      if cache.None? {
        return -1;
      }
      ghost var d0, power := dev.disk, dev.power;
      ghost var xs := ReadWrites(d0, off, params);
      ghost var settled := ApplyAll(d0, xs);
      ghost var all := SaveCall(io);
      var got, f := GetCryptFtrAndKey(dev, off, params);
      if got != 0 || !Supports(guard, f) || !Validate(f) || !io.read {
        return -1;
      }
      var writeOffset, eraseOffset;
      if dev.disk.At(f.persist0).Stored? {
        writeOffset, eraseOffset := f.persist1, f.persist0;
      } else {
        writeOffset, eraseOffset := f.persist0, f.persist1;
      }
      assert all == xs + all[|xs|..];
      CutCall(d0, xs, all[|xs|..], power);
      if Seek(writeOffset) < 0 || !io.write {
        if power >= |xs| {
          assert dev.disk == settled && all[|xs|..] == [];
        }
        return -1;
      }
      dev.Do(PutCopy(Seek(writeOffset), Stored(cache.value)));
      var erased := Seek(eraseOffset) >= 0 && io.erase;
      if erased {
        dev.Do(PutCopy(Seek(eraseOffset), Blank));
      }
      UnrollApplyAll(settled, Upto(all[|xs|..], Left(power, |xs|)));
      return if erased then 0 else -1;
    }

    // cryptfs_getfield: 0 found, -1 not set, -2 no table
    method GetField(name: CString, len: nat, readOk: bool) returns (rc: int, value: CString)
      requires len > 0
      modifies this`cache, dev
      ensures cache == old(TableNow(readOk))
      ensures old(cache).Some? ==> dev.disk == old(dev.disk)
      ensures old(cache).None? && encrypted && guard == ExactlyOneOne ==> rc == -2
      ensures match cache
              case None => rc == -2
              case Some(t) =>
                match Get(t, name)
                case Some(v) => rc == 0 && value == Cut(v, len)
                case None => rc == -1
    {
      rc, value := -2, "";
      if cache.None? {
        if Readable(dev.disk) { GuardDecides(guard, dev.disk, off, params); }
        var _ := Load(readOk);
        if cache.None? {
          return;
        }
      }
      match Get(cache.value, name) {
        case Some(v) => rc, value := 0, Cut(v, len);
        case None => rc := -1;
      }
    }

    // The field can be put into the table t.
    ghost predicate Puts(t: Table, name: CString, value: CString)
      reads dev
    {
      (encrypted ==> Readable(dev.disk)) && Put(t, name, value, Room()).Some?
    }

    ghost function Room(): nat
      reads dev
    {
      MaxEntries(if encrypted then FooterNow().persistSize else PERSIST_DATA_SIZE)
    }

    // cryptfs_setfield. A failed save is reported, but the field stays set in memory.
    method SetField(name: CString, value: CString, readOk: bool, io: SaveIo) returns (rc: int)
      modifies this`cache, dev
      // the answer, whether the table was in memory or not
      ensures rc == if old(TableNow(readOk)).Some? && old(Puts(TableNow(readOk).value, name, value))
                       && (encrypted ==> Accepts(guard, old(FooterNow())) && io.read && io.write && io.erase
                                         && SeeksGoThrough(old(FooterNow()))) then 0 else -1
      ensures encrypted && guard == ExactlyOneOne ==> rc == -1
      // the table in memory after it
      ensures cache == if old(TableNow(readOk)).Some? && old(Puts(TableNow(readOk).value, name, value))
                       then Put(old(TableNow(readOk)).value, name, value, old(Room())) else old(TableNow(readOk))
      // as a map: the field reads back cut, and no other has changed
      ensures rc == 0 && |name| < KEY_MAX ==>
                && Get(cache.value, name) == Some(Cut(value, VALUE_MAX))
                && forall other: CString :: other != name ==>
                     Get(cache.value, other) == Get(old(TableNow(readOk)).value, other)
      // success on an encrypted device, with the copies in reach: what a later boot loads is
      // the table in memory
      ensures rc == 0 && encrypted && old(dev.power) >= 2
              && UpToDate(old(dev.disk)) && InReach(old(dev.disk).footer) ==>
                && dev.disk.footer == old(dev.disk).footer
                && Visible(dev.disk, dev.disk.footer) == cache.value
    {
      if Readable(dev.disk) { GuardDecides(guard, dev.disk, off, params); }
      FooterStays();
      ghost var t0 := TableNow(readOk);
      if cache.None? {
        var _ := Load(readOk);
        if cache.None? {
          return -1;
        }
      }
      rc := PutAndSave(name, value, io);
      if rc == 0 && |name| < KEY_MAX {
        forall other: CString ensures Get(cache.value, name) == Some(Cut(value, VALUE_MAX))
                                      && (other != name ==> Get(cache.value, other) == Get(t0.value, other)) {
          PutIsRead(t0.value, name, value, old(Room()), other);
        }
      }
    }

    // With the table in memory
    method PutAndSave(name: CString, value: CString, io: SaveIo) returns (rc: int)
      requires cache.Some?
      modifies this`cache, dev
      ensures rc == if old(Puts(cache.value, name, value))
                       && (encrypted ==> Accepts(guard, old(FooterNow())) && io.read && io.write && io.erase
                                         && SeeksGoThrough(old(FooterNow()))) then 0 else -1
      ensures cache == if old(Puts(cache.value, name, value))
                       then Put(old(cache).value, name, value, old(Room())) else old(cache)
      ensures rc == 0 && encrypted && old(dev.power) >= 2
              && UpToDate(old(dev.disk)) && InReach(old(dev.disk).footer) ==>
                && dev.disk.footer == old(dev.disk).footer
                && Visible(dev.disk, dev.disk.footer) == cache.value
    {
      FooterStays();
      var dsize: u32 := PERSIST_DATA_SIZE;
      if encrypted {
        var got, f := GetCryptFtrAndKey(dev, off, params);
        if got != 0 {
          return -1;
        }
        dsize := f.persistSize;
      }
      var t := Put(cache.value, name, value, MaxEntries(dsize));
      if t.None? {
        return -1;
      }
      cache := t;
      if encrypted {
        ghost var call := SaveCall(io);
        ghost var d := dev.disk;
        var saved := Save(io);
        if saved != 0 {
          return -1;
        }
        if UpToDate(old(dev.disk)) && old(dev.power) >= 2 && InReach(old(dev.disk).footer) {
          assert d == old(dev.disk) && call == SaveWrites(d, d.footer, cache.value);
          SaveIsAtomic(d, d.footer, cache.value, old(dev.power));
          assert dev.disk == ApplyAll(d, Upto(call, old(dev.power)));
        }
      }
      return 0;
    }

    // A field that was set is read back, also by the first calls after a boot.
    method SetThenGet(name: CString, value: CString, len: nat, readOk: bool, io: SaveIo)
      returns (put: int, got: int, read: CString)
      requires len > 0
      modifies this`cache, dev
      ensures put == 0 && |name| < KEY_MAX ==> got == 0 && read == Cut(Cut(value, VALUE_MAX), len)
      ensures old(cache).None? && !encrypted ==> put == 0
    {
      put := SetField(name, value, readOk, io);
      got, read := GetField(name, len, readOk);
    }

    // Every write one call of Save issues when it is not cut
    ghost function SaveCall(io: SaveIo): seq<Write>
      reads this`cache, dev
    {
      if cache.None? then []
      else
        var xs := ReadWrites(dev.disk, off, params);
        if Readable(dev.disk) && Accepts(guard, FooterNow()) && io.read
        then xs + Upto(SaveWrites(ApplyAll(dev.disk, xs), FooterNow(), cache.value),
                          if !io.write then 0 else if !io.erase then 1 else 2)
        else xs
    }
  }

  predicate UpToDate(d: Disk) {
    Readable(d) && d.footer.minor >= CURRENT_MINOR
  }

  predicate Accepts(g: Guard, f: Footer) {
    Supports(g, f) && Validate(f)
  }

  // A call cut somewhere: either its first part is cut, or only its second.
  lemma CutCall(d: Disk, xs: seq<Write>, ys: seq<Write>, power: nat)
    ensures power < |xs| ==> ApplyAll(d, Upto(xs + ys, power)) == ApplyAll(d, Upto(xs, power))
    ensures power >= |xs| ==>
              ApplyAll(d, Upto(xs + ys, power)) == ApplyAll(ApplyAll(d, xs), Upto(ys, Left(power, |xs|)))
  {
    if power < |xs| {
      assert (xs + ys)[..power] == xs[..power];
    } else {
      ApplyBoth(d, xs, Upto(ys, power - |xs|));
      assert Upto(xs + ys, power) == xs + Upto(ys, power - |xs|);
    }
  }

  // As coded, a save never touches a table copy: all it can do is upgrade the footer.
  lemma SaveAsCodedWritesNoTable(s: Store, io: SaveIo)
    requires s.guard == ExactlyOneOne
    ensures s.cache.Some? ==> s.SaveCall(io) == ReadWrites(s.dev.disk, s.off, s.params)
  {
    if Readable(s.dev.disk) {
      GuardDecides(s.guard, s.dev.disk, s.off, s.params);
    }
  }

  // With the documented guard and a settled footer, a save is the writes of SaveWrites; with
  // the copies in reach they are the two of the crash-safe register.
  lemma SaveAsDocumented(s: Store)
    requires s.guard == OneOneOrHigher && s.cache.Some?
    requires Readable(s.dev.disk) && s.dev.disk.footer.minor >= CURRENT_MINOR
    requires Validate(s.dev.disk.footer)
    ensures s.SaveCall(SaveIo(true, true, true)) == SaveWrites(s.dev.disk, s.dev.disk.footer, s.cache.value)
    ensures InReach(s.dev.disk.footer) ==>
              var (to, from) := Targets(s.dev.disk, s.dev.disk.footer);
              s.SaveCall(SaveIo(true, true, true)) == [PutCopy(to, Stored(s.cache.value)), PutCopy(from, Blank)]
  {
    assert ReadWrites(s.dev.disk, s.off, s.params) == [];
    if InReach(s.dev.disk.footer) { SeekInReach(s.dev.disk.footer); }
  }
}
