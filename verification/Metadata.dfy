/**
 The crypto footer of cryptfs.c and the 16 KiB metadata area it opens: its layout, the
 version upgrade done while reading it, and what survives a power cut at any write.

 The area is addressed by absolute byte offsets. `LayoutIsDisjoint` is what makes it
 sound to keep the footer and each table copy as separate slots of `Disk`.
 */
module Metadata {
  import opened Basics
  import opened PersistTable

  const MAGIC := 0xD0B5B1C4
  const CURRENT_MAJOR := 1
  const CURRENT_MINOR := 2
  const FOOTER_OFFSET := 0x4000
  const FOOTER_TO_PERSIST := 0x1000
  const FOOTER_BYTES := 192  // sizeof(struct crypt_mnt_ftr)
  const KDF_PBKDF2 := 1
  const KDF_SCRYPT := 2
  const MNT_KEY_UNENCRYPTED: bv32 := 0x1
  const ENCRYPTION_IN_PROGRESS: bv32 := 0x2
  const TWO_TO_THE_64 := 0x1_0000_0000_0000_0000

  datatype ScryptParams = ScryptParams(n: nat, r: nat, p: nat)

  type Bytes = seq<nat>

  datatype Footer = Footer(
    magic: nat, major: nat, minor: nat, flags: bv32, fsSize: nat, failedCount: u32,
    masterKey: Bytes, salt: Bytes,
    persist0: nat, persist1: nat, persistSize: u32,
    kdfType: nat, params: ScryptParams)

  // A table copy is valid when it carries the magic number; all zeros do not.
  datatype Copy = Blank | Stored(table: Table)

  datatype Disk = Disk(footer: Footer, copies: map<nat, Copy>) {
    function At(offset: nat): Copy {
      if offset in copies then copies[offset] else Blank
    }
  }

  // ---------- Writes and power cuts ----------

  datatype Write = PutFooter(f: Footer) | PutCopy(offset: nat, c: Copy)

  function Apply(d: Disk, w: Write): Disk {
    match w
    case PutFooter(f) => d.(footer := f)
    case PutCopy(o, c) => d.(copies := d.copies[o := c])
  }

  function ApplyAll(d: Disk, ws: seq<Write>): Disk
    decreases |ws|
  {
    if ws == [] then d else ApplyAll(Apply(d, ws[0]), ws[1..])
  }

  function Upto(ws: seq<Write>, power: nat): (r: seq<Write>)
  {
    if power < |ws| then ws[..power] else ws
  }

  function Left(power: nat, used: nat): nat {
    if used < power then power - used else 0
  }

  lemma {:induction false} ApplyBoth(d: Disk, xs: seq<Write>, ys: seq<Write>)
    ensures ApplyAll(d, xs + ys) == ApplyAll(ApplyAll(d, xs), ys)
    decreases |xs|
  {
    if xs == [] {
      assert xs + ys == ys;
    } else {
      assert (xs + ys)[0] == xs[0] && (xs + ys)[1..] == xs[1..] + ys;
      ApplyBoth(Apply(d, xs[0]), xs[1..], ys);
    }
  }

  // The device holding the metadata. Each write spends one unit of power; a write
  // issued after the power is gone changes nothing.
  class Device {
    var disk: Disk
    var power: nat

    constructor (d: Disk, p: nat)
      ensures disk == d && power == p
    {
      disk, power := d, p;
    }

    method Do(w: Write)
      modifies this
      ensures disk == if old(power) > 0 then Apply(old(disk), w) else old(disk)
      ensures power == Left(old(power), 1)
    {
      if power > 0 {
        disk, power := Apply(disk, w), power - 1;
      }
    }
  }

  // ---------- Layout ----------

  predicate Apart(a: nat, aSize: nat, b: nat, bSize: nat) {
    a + aSize <= b || b + bSize <= a
  }

  // Where the footer of a device of nrSec sectors starts, when the key is kept in it
  function FooterLocation(nrSec: nat): nat
    requires nrSec >= FOOTER_OFFSET / 512
  {
    nrSec * 512 - FOOTER_OFFSET
  }

  // The size of the encrypted filesystem, in sectors
  function FsSize(nrSec: nat, keyInFooter: bool): nat
    requires keyInFooter ==> nrSec >= FOOTER_OFFSET / 512
  {
    if keyInFooter then nrSec - FOOTER_OFFSET / 512 else nrSec
  }

  // cryptfs_init_crypt_mnt_ftr and the fields cryptfs_enable then fills in
  function FreshFooter(nrSec: nat, keyInFooter: bool, off: nat, params: ScryptParams,
                       key: Bytes, salt: Bytes): Footer
    requires keyInFooter ==> nrSec >= FOOTER_OFFSET / 512
  {
    Footer(MAGIC, CURRENT_MAJOR, CURRENT_MINOR, ENCRYPTION_IN_PROGRESS, FsSize(nrSec, keyInFooter), 0,
           key, salt, off + FOOTER_TO_PERSIST, off + FOOTER_TO_PERSIST + PERSIST_DATA_SIZE,
           PERSIST_DATA_SIZE, KDF_SCRYPT, params)
  }

  // For a footer written by cryptfs_enable, and for one upgraded from 1.0: the encrypted
  // range, the footer and both table copies are pairwise disjoint and inside the device,
  // the range ends where the footer starts, and the layout passes validation.
  lemma LayoutIsDisjoint(nrSec: nat, f: Footer, before: Footer, params: ScryptParams, key: Bytes, salt: Bytes)
    requires FOOTER_OFFSET / 512 <= nrSec && nrSec * 512 < TWO_TO_THE_64
    requires before.major == 1 && before.minor == 0
    requires var off := FooterLocation(nrSec);
             f == FreshFooter(nrSec, true, off, params, key, salt) || f == Upgraded(before, off, params)
    ensures var off, enc, size := FooterLocation(nrSec), FsSize(nrSec, true) * 512, f.persistSize;
            && enc == off == nrSec * 512 - 0x4000 && Apart(0, enc, off, FOOTER_BYTES)
            && Apart(0, enc, f.persist0, size) && Apart(0, enc, f.persist1, size)
            && Apart(off, FOOTER_BYTES, f.persist0, size) && Apart(off, FOOTER_BYTES, f.persist1, size)
            && Apart(f.persist0, size, f.persist1, size)
            && f.persist1 + size <= nrSec * 512
            && Validate(f)
  {
    var off := FooterLocation(nrSec);
    WrapSmall(f.persist0 + f.persistSize);
    WrapSmall(f.persist1 + f.persistSize);
    WrapSmall(f.persist0 - FOOTER_TO_PERSIST);
    WrapSmall(f.persist1 + f.persistSize - off);
  }

  lemma WrapSmall(x: int)
    ensures 0 <= x < TWO_TO_THE_64 ==> x % TWO_TO_THE_64 == x
  {
  }

  // validate_persistent_data_storage, in 64-bit unsigned arithmetic
  predicate Validate(f: Footer) {
    && (f.persist0 + f.persistSize) % TWO_TO_THE_64 <= f.persist1
    && f.persist0 < f.persist1
    && ((f.persist1 + f.persistSize) % TWO_TO_THE_64
        - (f.persist0 - FOOTER_TO_PERSIST) % TWO_TO_THE_64) % TWO_TO_THE_64 <= FOOTER_OFFSET
  }

  // An accepted footer has disjoint copies exactly when the first copy does not run
  // over the end of the 64-bit offset space.
  lemma ValidateKeepsCopiesApart(f: Footer)
    requires f.persist0 < TWO_TO_THE_64 && f.persist1 < TWO_TO_THE_64
    requires f.persistSize < TWO_TO_THE_32 && Validate(f)
    ensures Apart(f.persist0, f.persistSize, f.persist1, f.persistSize)
            <==> f.persist0 + f.persistSize < TWO_TO_THE_64
  {
    if f.persist0 + f.persistSize >= TWO_TO_THE_64 {
      assert f.persist0 + f.persistSize > f.persist1;
    }
  }

  // Where nothing wraps around, the accepted layouts are those whose copies follow each other
  // and end within 16 KiB from the start of the footer.
  lemma ValidateIs(f: Footer)
    requires FOOTER_TO_PERSIST <= f.persist0 && f.persist0 + f.persistSize < TWO_TO_THE_64
    requires f.persist1 + f.persistSize < TWO_TO_THE_64
    ensures Validate(f) <==>
              && f.persist0 < f.persist1 && f.persist0 + f.persistSize <= f.persist1
              && f.persist1 + f.persistSize <= f.persist0 - 0x1000 + 0x4000
  {
    WrapSmall(f.persist0 + f.persistSize);
    WrapSmall(f.persist1 + f.persistSize);
    WrapSmall(f.persist0 - FOOTER_TO_PERSIST);
    if f.persist0 < f.persist1 {
      WrapSmall(f.persist1 + f.persistSize - (f.persist0 - FOOTER_TO_PERSIST));
    }
  }

  // The wrap-around does happen to an accepted footer.
  lemma ValidateAcceptsAnOverlap()
    ensures exists f: Footer ::
              && f.persist0 < TWO_TO_THE_64 && f.persist1 < TWO_TO_THE_64 && Validate(f)
              && !Apart(f.persist0, f.persistSize, f.persist1, f.persistSize)
  {
    var f := Footer(MAGIC, 1, 2, 0, 0, 0, [], [],
                    TWO_TO_THE_64 - 0x1000, TWO_TO_THE_64 - 0x800, 0x1000, KDF_SCRYPT, ScryptParams(15, 3, 1));
    assert (f.persist0 + f.persistSize) % TWO_TO_THE_64 == 0;
    assert (f.persist1 + f.persistSize) % TWO_TO_THE_64 == 0x800;
    assert (f.persist0 - FOOTER_TO_PERSIST) % TWO_TO_THE_64 == TWO_TO_THE_64 - 0x2000;
    assert (0x800 - (TWO_TO_THE_64 - 0x2000)) % TWO_TO_THE_64 == 0x2800;
    assert Validate(f);
  }

  // ---------- The version upgrade ----------

  function Upgraded(f: Footer, off: nat, params: ScryptParams): Footer {
    var f1 := if f.major == 1 && f.minor == 0
              then f.(persistSize := PERSIST_DATA_SIZE,
                      persist0 := off + FOOTER_TO_PERSIST,
                      persist1 := off + FOOTER_TO_PERSIST + PERSIST_DATA_SIZE,
                      minor := 1)
              else f;
    if f1.major == 1 && f1.minor != 0
    then f1.(kdfType := KDF_PBKDF2, params := params, minor := 2)
    else f1
  }

  // The writes of upgrade_crypt_ftr, in order
  function UpgradeWrites(f: Footer, off: nat, params: ScryptParams): seq<Write> {
    var g := Upgraded(f, off, params);
    (if f.major == 1 && f.minor == 0
     then [PutCopy(off + FOOTER_TO_PERSIST, Blank),
           PutCopy(off + FOOTER_TO_PERSIST + PERSIST_DATA_SIZE, Stored([]))]
     else [])
    + (if f.major != g.major || f.minor != g.minor then [PutFooter(g)] else [])
  }

  // What a reader of the footer must do first: the writes get_crypt_ftr_and_key issues.
  function ReadWrites(d: Disk, off: nat, params: ScryptParams): seq<Write> {
    if d.footer.magic == MAGIC && d.footer.major == CURRENT_MAJOR && d.footer.minor < CURRENT_MINOR
    then UpgradeWrites(d.footer, off, params)
    else []
  }

  // The footer a successful read returns.
  function FooterRead(d: Disk, off: nat, params: ScryptParams): Footer {
    if d.footer.minor < CURRENT_MINOR then Upgraded(d.footer, off, params) else d.footer
  }

  predicate Readable(d: Disk) {
    d.footer.magic == MAGIC && d.footer.major == CURRENT_MAJOR
  }

  method UpgradeCryptFtr(dev: Device, f: Footer, off: nat, params: ScryptParams) returns (g: Footer)
    modifies dev
    ensures g == Upgraded(f, off, params)
    ensures dev.disk == ApplyAll(old(dev.disk), Upto(UpgradeWrites(f, off, params), old(dev.power)))
    ensures dev.power == Left(old(dev.power), |UpgradeWrites(f, off, params)|)
  {
    g := f;
    ghost var ws := UpgradeWrites(f, off, params);
    if g.major == 1 && g.minor == 0 {
      var pdataOffset := off + FOOTER_TO_PERSIST;
      dev.Do(PutCopy(pdataOffset, Blank));
      dev.Do(PutCopy(pdataOffset + PERSIST_DATA_SIZE, Stored([])));
      g := g.(persistSize := PERSIST_DATA_SIZE, persist0 := pdataOffset,
              persist1 := pdataOffset + PERSIST_DATA_SIZE, minor := 1);
    }
    if g.major == 1 && g.minor != 0 {
      g := g.(kdfType := KDF_PBKDF2, params := params, minor := 2);
    }
    if f.major != g.major || f.minor != g.minor {
      dev.Do(PutFooter(g));
    }
    UnrollApplyAll(old(dev.disk), Upto(ws, old(dev.power)));
  }

  lemma UnrollApplyAll(d: Disk, ws: seq<Write>)
    requires |ws| <= 3
    ensures |ws| == 0 ==> ApplyAll(d, ws) == d
    ensures |ws| == 1 ==> ApplyAll(d, ws) == Apply(d, ws[0])
    ensures |ws| == 2 ==> ApplyAll(d, ws) == Apply(Apply(d, ws[0]), ws[1])
    ensures |ws| == 3 ==> ApplyAll(d, ws) == Apply(Apply(Apply(d, ws[0]), ws[1]), ws[2])
    decreases |ws|
  {
    if |ws| == 2 {
      assert ApplyAll(Apply(d, ws[0]), ws[1..]) == Apply(Apply(d, ws[0]), ws[1]);
    } else if |ws| == 3 {
      UnrollApplyAll(Apply(d, ws[0]), ws[1..]);
    }
  }

  // get_crypt_ftr_and_key
  method GetCryptFtrAndKey(dev: Device, off: nat, params: ScryptParams) returns (rc: int, f: Footer)
    modifies dev
    ensures rc == 0 || rc == -1
    ensures rc == 0 <==> Readable(old(dev.disk))
    ensures rc == 0 ==> f == FooterRead(old(dev.disk), off, params)
    ensures dev.disk == ApplyAll(old(dev.disk), Upto(ReadWrites(old(dev.disk), off, params), old(dev.power)))
    ensures dev.power == Left(old(dev.power), |ReadWrites(old(dev.disk), off, params)|)
  {
    f := dev.disk.footer;
    if f.magic != MAGIC || f.major != CURRENT_MAJOR {
      return -1, f;
    }
    if f.minor < CURRENT_MINOR {
      f := UpgradeCryptFtr(dev, f, off, params);
    }
    rc := 0;
  }

  // Every footer a read returns is at version 1.2 or later, and a second read of the
  // disk it leaves changes nothing and returns the same footer.
  lemma ReadSettles(d: Disk, off: nat, params: ScryptParams, later: ScryptParams)
    requires Readable(d)
    ensures FooterRead(d, off, params).minor >= CURRENT_MINOR
    ensures var d' := ApplyAll(d, ReadWrites(d, off, params));
            && d'.footer == FooterRead(d, off, params)
            && ReadWrites(d', off, later) == []
            && FooterRead(d', off, later) == FooterRead(d, off, params)
  {
    UnrollApplyAll(d, ReadWrites(d, off, params));
  }

  // An upgrade cut at any write and run again ends in the disk of an uncut upgrade.
  lemma UpgradeSurvivesPowerCuts(d: Disk, off: nat, params: ScryptParams, power: nat)
    ensures var full := ReadWrites(d, off, params);
            var cut := ApplyAll(d, Upto(full, power));
            ApplyAll(cut, ReadWrites(cut, off, params)) == ApplyAll(d, full)
  {
    var full := ReadWrites(d, off, params);
    var part := Upto(full, power);
    var cut := ApplyAll(d, part);
    var again := ReadWrites(cut, off, params);
    UnrollApplyAll(d, full);
    UnrollApplyAll(d, part);
    UnrollApplyAll(cut, again);
    var goal := ApplyAll(d, full);
    if part != full {
      assert cut.footer == d.footer && again == full;
      assert ApplyAll(cut, again).copies == goal.copies;
    }
  }

  // Upgrading a 1.0 footer gives a layout the validation accepts, with an empty table.
  lemma UpgradeFromOneZero(d: Disk, off: nat, params: ScryptParams)
    requires Readable(d) && d.footer.minor == 0 && off + FOOTER_OFFSET < TWO_TO_THE_64
    ensures var d' := ApplyAll(d, ReadWrites(d, off, params));
            && d'.footer.minor == 2 && Validate(d'.footer)
            && d'.footer.kdfType == KDF_PBKDF2
            && d'.footer.masterKey == d.footer.masterKey && d'.footer.salt == d.footer.salt
            && d'.At(d'.footer.persist0) == Blank
            && d'.At(d'.footer.persist1) == Stored([])
  {
    UnrollApplyAll(d, ReadWrites(d, off, params));
    var f := Upgraded(d.footer, off, params);
    assert (f.persist0 + f.persistSize) % TWO_TO_THE_64 == f.persist1;
    assert (f.persist1 + f.persistSize) % TWO_TO_THE_64 == off + 0x3000;
    assert (f.persist0 - FOOTER_TO_PERSIST) % TWO_TO_THE_64 == off;
  }

  // What a read makes of each older footer: 1.0 gets a layout, both get PBKDF2 and the
  // device's parameters, and the rest of the footer and, from 1.1 on, the table copies stay.
  lemma UpgradeKeepsTheRest(d: Disk, off: nat, params: ScryptParams)
    requires Readable(d)
    ensures var f, d' := d.footer, ApplyAll(d, ReadWrites(d, off, params));
            && (f.minor >= 2 ==> d' == d)
            && (f.minor == 1 ==> d' == d.(footer := f.(minor := 2, kdfType := KDF_PBKDF2, params := params)))
            && (f.minor == 0 ==>
                  d'.footer == f.(minor := 2, kdfType := KDF_PBKDF2, params := params, persistSize := 0x1000,
                                  persist0 := off + 0x1000, persist1 := off + 0x2000))
            && (f.minor == 0 ==> forall o :: o != off + 0x1000 && o != off + 0x2000 ==> d'.At(o) == d.At(o))
  {
    UnrollApplyAll(d, ReadWrites(d, off, params));
  }
}
