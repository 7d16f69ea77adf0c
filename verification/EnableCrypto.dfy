/**
 cryptfs_enable "inplace" as a protocol over power cuts: the footer is put with the
 in-progress flag, the data partition and then every encryptable volume vold manages are
 encrypted in place, and only after that is the footer put again with the flag cleared.
 What the next boot is told (`CryptoComplete`) is compared with what is on the disks.
 */
module EnableCrypto {
  import opened Basics
  import opened PersistTable
  import opened Metadata
  import opened InPlace
  import KeyLifecycle
  import Progress

  const VOL_NONREMOVABLE: bv32 := 0x1
  const VOL_ENCRYPTABLE: bv32 := 0x2

  predicate ShouldEncrypt(flags: bv32) {
    flags & (VOL_ENCRYPTABLE | VOL_NONREMOVABLE) == VOL_ENCRYPTABLE | VOL_NONREMOVABLE
  }

  // Both bits and no other are asked for.
  lemma ShouldEncryptIff(flags: bv32)
    ensures ShouldEncrypt(flags) <==> flags & VOL_ENCRYPTABLE != 0 && flags & VOL_NONREMOVABLE != 0
  {
  }

  datatype VolumeInfo = VolumeInfo(flags: bv32, dev: array<Content>)

  // When each device fails: it opens or not, and the first failing transfer.
  datatype DeviceFault = DeviceFault(devicesOpen: bool, transfer: nat)

  datatype Faults = Faults(put1: bool, put2: bool, main: DeviceFault, volume: nat -> DeviceFault)

  predicate ReadableFooter(c: Content) {
    c.FooterSector? && KeyLifecycle.CanRead(c.footer)
  }

  // do_crypto_complete at the next boot, from the content of the footer sector. Without a
  // readable footer and with a key kept in a file, the code asks whether a file of the
  // literal name "key_loc" exists, not the key file.
  function CryptoComplete(encryptedState: bool, c: Content, keyInFile: bool, literalExists: bool): int {
    if !encryptedState then 1
    else if !ReadableFooter(c) then (if keyInFile && !literalExists then 1 else -1)
    else if c.footer.flags & ENCRYPTION_IN_PROGRESS != 0 then -2
    else 0
  }

  // ---------- The result code of the volume loop ----------

  // Each encryptable volume overwrites the result of the one before it.
  function FinalRc(rc: int, flags: seq<bv32>, results: seq<int>): int
    requires |flags| == |results|
  {
    if flags == [] then rc
    else
      var n := |flags| - 1;
      if ShouldEncrypt(flags[n]) then results[n] else FinalRc(rc, flags[..n], results[..n])
  }

  ghost predicate AllSucceeded(flags: seq<bv32>, results: seq<int>)
    requires |flags| == |results|
  {
    forall i :: 0 <= i < |flags| && ShouldEncrypt(flags[i]) ==> results[i] == 0
  }

  ghost predicate AtMostOne(flags: seq<bv32>) {
    forall i, j :: 0 <= i < j < |flags| ==> !(ShouldEncrypt(flags[i]) && ShouldEncrypt(flags[j]))
  }

  lemma {:induction false} FinalRcIsTheLast(rc: int, flags: seq<bv32>, results: seq<int>, last: nat)
    requires |flags| == |results| && last < |flags| && ShouldEncrypt(flags[last])
    requires forall i :: last < i < |flags| ==> !ShouldEncrypt(flags[i])
    ensures FinalRc(rc, flags, results) == results[last]
    decreases |flags|
  {
    var n := |flags| - 1;
    if last < n {
      FinalRcIsTheLast(rc, flags[..n], results[..n], last);
    }
  }

  // A zero result can be trusted, whatever the volumes do, exactly when at most one of
  // them is to be encrypted.
  lemma ResultIsTrustworthyIff(flags: seq<bv32>)
    ensures (forall results: seq<int> :: |results| == |flags| && FinalRc(0, flags, results) == 0
                                         ==> AllSucceeded(flags, results))
            <==> AtMostOne(flags)
  {
    if AtMostOne(flags) {
      forall results: seq<int> | |results| == |flags| && FinalRc(0, flags, results) == 0
        ensures AllSucceeded(flags, results)
      {
        forall i | 0 <= i < |flags| && ShouldEncrypt(flags[i]) ensures results[i] == 0 {
          FinalRcIsTheLast(0, flags, results, i);
        }
      }
    } else {
      var i, j :| 0 <= i < j < |flags| && ShouldEncrypt(flags[i]) && ShouldEncrypt(flags[j]);
      var results := seq(|flags|, k requires 0 <= k < |flags| => if k == i then -1 else 0);
      var last := LastEncryptable(flags, j);
      FinalRcIsTheLast(0, flags, results, last);
      assert !AllSucceeded(flags, results) by { assert results[i] == -1; }
    }
  }

  lemma {:induction false} LastEncryptable(flags: seq<bv32>, j: nat) returns (last: nat)
    requires j < |flags| && ShouldEncrypt(flags[j])
    ensures j <= last < |flags| && ShouldEncrypt(flags[last])
    ensures forall i :: last < i < |flags| ==> !ShouldEncrypt(flags[i])
    decreases |flags| - j
  {
    if i :| j < i < |flags| && ShouldEncrypt(flags[i]) {
      last := LastEncryptable(flags, i);
    } else {
      last := j;
    }
  }

  // ---------- The volumes ----------

  ghost predicate Distinct(vols: seq<VolumeInfo>) {
    forall i, j :: 0 <= i < j < |vols| ==> vols[i].dev != vols[j].dev
  }

  ghost function Devices(vols: seq<VolumeInfo>): set<object> {
    set i | 0 <= i < |vols| :: vols[i].dev
  }

  function FlagsOf(vols: seq<VolumeInfo>): seq<bv32> {
    seq(|vols|, i requires 0 <= i < |vols| => vols[i].flags)
  }

  // The sectors of the volumes to encrypt
  function TotalSize(vols: seq<VolumeInfo>): nat {
    if vols == [] then 0
    else
      var v := vols[|vols| - 1];
      TotalSize(vols[..|vols| - 1]) + (if ShouldEncrypt(v.flags) then v.dev.Length else 0)
  }

  // The sectors counted as done after the volumes gave these results
  function DoneAfter(done: nat, vols: seq<VolumeInfo>, results: seq<int>): nat
    requires |vols| == |results|
  {
    if vols == [] then done
    else
      var n := |vols| - 1;
      DoneAfter(done, vols[..n], results[..n])
      + (if ShouldEncrypt(vols[n].flags) && results[n] == 0 then vols[n].dev.Length else 0)
  }

  lemma {:induction false} DoneReachesTotal(done: nat, vols: seq<VolumeInfo>, results: seq<int>)
    requires |vols| == |results| && AllSucceeded(FlagsOf(vols), results)
    ensures DoneAfter(done, vols, results) == done + TotalSize(vols)
  {
    if vols != [] {
      var n := |vols| - 1;
      forall i | 0 <= i < n && ShouldEncrypt(FlagsOf(vols[..n])[i]) ensures results[..n][i] == 0 {
        assert FlagsOf(vols)[i] == vols[i].flags;
      }
      DoneReachesTotal(done, vols[..n], results[..n]);
      assert FlagsOf(vols)[n] == vols[n].flags;
    }
  }

  // The sizes of the volumes to encrypt, in order
  function Sizes(vols: seq<VolumeInfo>): seq<nat> {
    if vols == [] then []
    else
      var v := vols[|vols| - 1];
      Sizes(vols[..|vols| - 1]) + (if ShouldEncrypt(v.flags) then [v.dev.Length] else [])
  }

  lemma {:induction false} SizesAddUp(vols: seq<VolumeInfo>)
    ensures Progress.Sum(Sizes(vols)) == TotalSize(vols)
  {
    if vols != [] {
      var front, v := vols[..|vols| - 1], vols[|vols| - 1];
      SizesAddUp(front);
      if ShouldEncrypt(v.flags) {
        Progress.SumAppend(Sizes(front), v.dev.Length);
      } else {
        assert Sizes(vols) == Sizes(front);
      }
    }
  }

  // The result, the count and the percentages after these volumes gave these results. The
  // percentages are those of the volumes one after the other while every volume succeeds.
  ghost predicate Booked(vols: seq<VolumeInfo>, results: seq<int>, rc: int, done0: nat, done: nat, pct: seq<nat>,
                         tot: nat)
    requires Progress.OnePct(tot) > 0
  {
    && |vols| == |results|
    && rc == FinalRc(0, FlagsOf(vols), results)
    && done == DoneAfter(done0, vols, results)
    && (AllSucceeded(FlagsOf(vols), results) ==> pct == Progress.AllReports(Sizes(vols), done0, tot))
  }

  lemma OneMoreBooked(vols: seq<VolumeInfo>, results: seq<int>, rc: int, done0: nat, done: nat, pct: seq<nat>, tot: nat,
                      v: VolumeInfo, r: int, more: seq<nat>)
    requires Progress.OnePct(tot) > 0 && Booked(vols, results, rc, done0, done, pct, tot)
    requires ShouldEncrypt(v.flags) && r == 0 ==>
               more == Reports(0, Progress.Blocks(v.dev.Length), Progress.Blocks(done), Progress.OnePct(tot), 0)
    requires !ShouldEncrypt(v.flags) ==> more == []
    ensures Booked(vols + [v], results + [r], if ShouldEncrypt(v.flags) then r else rc, done0,
                   if ShouldEncrypt(v.flags) && r == 0 then done + v.dev.Length else done, pct + more, tot)
  {
    var n, all, flags := |vols|, vols + [v], FlagsOf(vols + [v]);
    assert all[..n] == vols && all[n] == v && (results + [r])[..n] == results && (results + [r])[n] == r;
    assert flags[..n] == FlagsOf(vols) && flags[n] == v.flags;
    if AllSucceeded(flags, results + [r]) {
      assert forall i :: 0 <= i < n ==> FlagsOf(vols)[i] == flags[i] && results[i] == (results + [r])[i];
      assert AllSucceeded(FlagsOf(vols), results);
      DoneReachesTotal(done0, vols, results);
      SizesAddUp(vols);
      if ShouldEncrypt(v.flags) {
        assert r == 0;
        assert Sizes(all) == Sizes(vols) + [v.dev.Length];
        Progress.ReportsAppend(Sizes(vols), v.dev.Length, done0, tot);
      } else {
        assert Sizes(all) == Sizes(vols) && pct + more == pct;
      }
    }
  }

  // A device of which w sectors are to be written: a prefix of k is encrypted, which is all
  // of them if there is power left.
  ghost predicate Covered(now: seq<Content>, was: seq<Content>, enc: Cipher, k: nat, w: nat, powered: bool) {
    k <= w <= |was| && now == Encrypted(was, enc, k) && (powered ==> k == w)
  }

  // What the encryption of a volume answers, and how much of it is written; nothing of one
  // that is not for encryption
  function ResultOf(v: VolumeInfo, f: DeviceFault): int {
    if ShouldEncrypt(v.flags) && !Succeeds(v.dev.Length, f.devicesOpen, f.transfer) then -1 else 0
  }

  function WrittenTo(v: VolumeInfo, f: DeviceFault): (n: nat)
    ensures n <= v.dev.Length
  {
    if ShouldEncrypt(v.flags) then Written(v.dev.Length, f.devicesOpen, f.transfer) else 0
  }

  function WrittenBy(vols: seq<VolumeInfo>, faults: nat -> DeviceFault): nat {
    if vols == [] then 0
    else WrittenBy(vols[..|vols| - 1], faults) + WrittenTo(vols[|vols| - 1], faults(|vols| - 1))
  }

  lemma WrittenByOneMore(vols: seq<VolumeInfo>, i: nat, faults: nat -> DeviceFault)
    requires i < |vols|
    ensures WrittenBy(vols[..i + 1], faults) == WrittenBy(vols[..i], faults) + WrittenTo(vols[i], faults(i))
  {
    assert vols[..i + 1][..i] == vols[..i];
  }

  lemma LeftTwice(power: nat, a: nat, b: nat)
    ensures Left(Left(power, a), b) == Left(power, a + b)
  {
  }

  // On contents: the first i devices have been through their encryption, the others are as
  // they were.
  ghost predicate CoveredUpto(vols: seq<VolumeInfo>, i: nat, now: seq<seq<Content>>, was: seq<seq<Content>>,
                              enc: Cipher, faults: nat -> DeviceFault, ks: seq<nat>, results: seq<int>, powered: bool)
    requires i <= |vols| == |was| == |now|
  {
    && |ks| == |results| == i
    && (forall j :: 0 <= j < i ==> results[j] == ResultOf(vols[j], faults(j)))
    && (forall j :: 0 <= j < i ==> Covered(now[j], was[j], enc, ks[j], WrittenTo(vols[j], faults(j)), powered))
    && (forall j :: i <= j < |vols| ==> now[j] == was[j])
  }

  lemma OneMoreCovered(vols: seq<VolumeInfo>, i: nat, now: seq<seq<Content>>, was: seq<seq<Content>>, enc: Cipher,
                       faults: nat -> DeviceFault, ks: seq<nat>, results: seq<int>, powered: bool,
                       now': seq<Content>, k: nat, powered': bool)
    requires i < |vols| == |was| == |now| && (powered' ==> powered)
    requires CoveredUpto(vols, i, now, was, enc, faults, ks, results, powered)
    requires Covered(now', was[i], enc, k, WrittenTo(vols[i], faults(i)), powered')
    ensures CoveredUpto(vols, i + 1, now[i := now'], was, enc, faults, ks + [k],
                        results + [ResultOf(vols[i], faults(i))], powered')
  {
    forall j | 0 <= j < i
      ensures Covered(now[i := now'][j], was[j], enc, (ks + [k])[j], WrittenTo(vols[j], faults(j)), powered')
    {
      assert Covered(now[j], was[j], enc, ks[j], WrittenTo(vols[j], faults(j)), powered);
    }
  }

  method EncryptVolumes(vols: seq<VolumeInfo>, enc: Cipher, done: nat, tot: nat,
                        faults: nat -> DeviceFault, power: Power)
    returns (rc: int, done': nat, pct: seq<nat>, ghost results: seq<int>, ghost ks: seq<nat>)
    requires Distinct(vols) && tot / SECTORS_PER_BUF / 100 > 0
    modifies Devices(vols), power
    ensures Booked(vols, results, rc, done, done', pct, tot)
    ensures CoveredUpto(vols, |vols|, Contents(vols), old(Contents(vols)), enc, faults, ks, results, power.left > 0)
    ensures power.left == Left(old(power.left), WrittenBy(vols, faults))
    ensures rc == 0 || rc == -1
  {
    rc, done', pct, results, ks := 0, done, [], [], [];
    ghost var was := Contents(vols);
    for i := 0 to |vols|
      invariant Booked(vols[..i], results, rc, done, done', pct, tot)
      invariant CoveredUpto(vols, i, Contents(vols), was, enc, faults, ks, results, power.left > 0)
      invariant power.left == Left(old(power.left), WrittenBy(vols[..i], faults))
      invariant rc == 0 || rc == -1
    {
      WrittenByOneMore(vols, i, faults);
      LeftTwice(old(power.left), WrittenBy(vols[..i], faults), WrittenTo(vols[i], faults(i)));
      rc, done', pct, results, ks :=
        EncryptNext(vols, i, enc, rc, done, done', pct, tot, faults, power, was, results, ks);
    }
    assert vols[..|vols|] == vols;
  }

  ghost function Contents(vols: seq<VolumeInfo>): seq<seq<Content>>
    reads Devices(vols)
  {
    seq(|vols|, i requires 0 <= i < |vols| reads Devices(vols) => vols[i].dev[..])
  }

  // One turn of the loop
  method EncryptNext(vols: seq<VolumeInfo>, i: nat, enc: Cipher, rc0: int, ghost done0: nat, done: nat, pct0: seq<nat>,
                     tot: nat, faults: nat -> DeviceFault, power: Power,
                     ghost was: seq<seq<Content>>, ghost results0: seq<int>, ghost ks0: seq<nat>)
    returns (rc: int, done': nat, pct: seq<nat>, ghost results: seq<int>, ghost ks: seq<nat>)
    requires Distinct(vols) && tot / SECTORS_PER_BUF / 100 > 0
    requires i < |vols| == |was| && (rc0 == 0 || rc0 == -1)
    requires Booked(vols[..i], results0, rc0, done0, done, pct0, tot)
    requires CoveredUpto(vols, i, Contents(vols), was, enc, faults, ks0, results0, power.left > 0)
    modifies Devices(vols), power
    ensures Booked(vols[..i + 1], results, rc, done0, done', pct, tot) && (rc == 0 || rc == -1)
    ensures CoveredUpto(vols, i + 1, Contents(vols), was, enc, faults, ks, results, power.left > 0)
    ensures power.left == Left(old(power.left), WrittenTo(vols[i], faults(i)))
  {
    assert vols[i].dev in Devices(vols);
    ghost var now, powered := Contents(vols), power.left > 0;
    var more;
    ghost var r, k;
    rc, done', more, r, k := EncryptOne(vols[i], enc, rc0, done, tot, faults(i), power);
    assert vols[..i + 1] == vols[..i] + [vols[i]];
    OneMoreBooked(vols[..i], results0, rc0, done0, done, pct0, tot, vols[i], r, more);
    results, ks, pct := results0 + [r], ks0 + [k], pct0 + more;
    assert Contents(vols) == now[i := vols[i].dev[..]];
    OneMoreCovered(vols, i, now, was, enc, faults, ks0, results0, powered, vols[i].dev[..], k, power.left > 0);
  }

  // One volume of the loop; r is what its encryption answered, 0 if it is not for encryption.
  method EncryptOne(vol: VolumeInfo, enc: Cipher, rc0: int, done: nat, tot: nat, f: DeviceFault, power: Power)
    returns (rc: int, done': nat, pct: seq<nat>, ghost r: int, ghost k: nat)
    requires tot / SECTORS_PER_BUF / 100 > 0
    modifies vol.dev, power
    ensures ShouldEncrypt(vol.flags) && r == 0 ==>
              pct == Reports(0, Progress.Blocks(vol.dev.Length), Progress.Blocks(done), Progress.OnePct(tot), 0)
    ensures !ShouldEncrypt(vol.flags) ==> pct == []
    ensures rc == (if ShouldEncrypt(vol.flags) then r else rc0) && r == ResultOf(vol, f)
    ensures done' == if ShouldEncrypt(vol.flags) && r == 0 then done + vol.dev.Length else done
    ensures Covered(vol.dev[..], old(vol.dev[..]), enc, k, WrittenTo(vol, f), power.left > 0)
    ensures power.left == Left(old(power.left), WrittenTo(vol, f))
  {
    rc, done', pct, r, k := rc0, done, [], 0, 0;
    if ShouldEncrypt(vol.flags) {
      rc, done', pct, k := EnableInplace(vol.dev, enc, vol.dev.Length, done, tot, f.devicesOpen, f.transfer, power);
      r := rc;
    }
  }

  // ---------- The whole procedure ----------

  // Where the footer sector is: on the data partition itself, or at the start of its own
  // metadata device.
  function FooterAt(nrSec: nat, keyInFooter: bool): nat
    requires keyInFooter ==> FOOTER_SECTORS <= nrSec
  {
    if keyInFooter then nrSec - FOOTER_SECTORS else 0
  }

  method PutSector(meta: array<Content>, at: nat, c: Content, ok: bool, power: Power)
    requires at < meta.Length
    modifies meta, power
    ensures forall i :: 0 <= i < meta.Length ==>
              meta[i] == if ok && old(power.left) > 0 && i == at then c else old(meta[i])
    ensures power.left == Left(old(power.left), if ok then 1 else 0)
  {
    if ok && power.left > 0 {
      meta[at] := c;
      power.left := power.left - 1;
    }
  }

  // A result of 0 for at most one volume to encrypt
  lemma ZeroMeansAll(vols: seq<VolumeInfo>, results: seq<int>, done0: nat, done: nat, pct: seq<nat>, tot: nat)
    requires Progress.OnePct(tot) > 0 && Booked(vols, results, 0, done0, done, pct, tot) && AtMostOne(FlagsOf(vols))
    ensures forall i :: 0 <= i < |vols| && ShouldEncrypt(vols[i].flags) ==> results[i] == 0
    ensures done == done0 + TotalSize(vols) && pct == Progress.AllReports(Sizes(vols), done0, tot)
  {
    ResultIsTrustworthyIff(FlagsOf(vols));
    DoneReachesTotal(done0, vols, results);
    assert forall i :: 0 <= i < |vols| ==> FlagsOf(vols)[i] == vols[i].flags;
  }

  predicate IsLast(vols: seq<VolumeInfo>, i: nat) {
    && i < |vols| && ShouldEncrypt(vols[i].flags)
    && forall j :: i < j < |vols| ==> !ShouldEncrypt(vols[j].flags)
  }

  // The last volume to encrypt, if there is one, is encrypted without a failure.
  predicate LastGoesThrough(vols: seq<VolumeInfo>, faults: nat -> DeviceFault) {
    forall i :: 0 <= i < |vols| && IsLast(vols, i) ==>
      Succeeds(vols[i].dev.Length, faults(i).devicesOpen, faults(i).transfer)
  }

  lemma LastDecides(vols: seq<VolumeInfo>, results: seq<int>, faults: nat -> DeviceFault)
    requires |results| == |vols| && forall j :: 0 <= j < |vols| ==> results[j] == ResultOf(vols[j], faults(j))
    ensures FinalRc(0, FlagsOf(vols), results) == if LastGoesThrough(vols, faults) then 0 else -1
  {
    var flags := FlagsOf(vols);
    assert forall j :: 0 <= j < |vols| ==> flags[j] == vols[j].flags;
    if j :| 0 <= j < |vols| && ShouldEncrypt(vols[j].flags) {
      var last := LastEncryptable(flags, j);
      FinalRcIsTheLast(0, flags, results, last);
      assert IsLast(vols, last);
      assert forall i: nat :: IsLast(vols, i) ==> i == last;
    } else {
      NoneDecides(flags, results);
    }
  }

  lemma {:induction false} NoneDecides(flags: seq<bv32>, results: seq<int>)
    requires |flags| == |results| && forall j :: 0 <= j < |flags| ==> !ShouldEncrypt(flags[j])
    ensures FinalRc(0, flags, results) == 0
  {
    if flags != [] {
      NoneDecides(flags[..|flags| - 1], results[..|flags| - 1]);
    }
  }

  // On contents: every volume to encrypt is encrypted as far as its transfers go.
  ghost predicate Finished(vols: seq<VolumeInfo>, faults: nat -> DeviceFault, enc: Cipher,
                           was: seq<seq<Content>>, now: seq<seq<Content>>)
    requires |vols| == |was| == |now|
  {
    forall i :: 0 <= i < |vols| ==>
      WrittenTo(vols[i], faults(i)) <= |was[i]| && now[i] == Encrypted(was[i], enc, WrittenTo(vols[i], faults(i)))
  }

  // What the result of the loop stands for
  method EncryptAll(vols: seq<VolumeInfo>, enc: Cipher, done0: nat, tot: nat, faults: nat -> DeviceFault, power: Power)
    returns (rc: int, done: nat, pct: seq<nat>)
    requires Distinct(vols) && Progress.OnePct(tot) > 0
    modifies Devices(vols), power
    ensures rc == if LastGoesThrough(vols, faults) then 0 else -1
    ensures power.left == Left(old(power.left), WrittenBy(vols, faults))
    ensures power.left > 0 ==> Finished(vols, faults, enc, old(Contents(vols)), Contents(vols))
    ensures rc == 0 && AtMostOne(FlagsOf(vols)) ==>
              done == done0 + TotalSize(vols) && pct == Progress.AllReports(Sizes(vols), done0, tot)
  {
    ghost var results, ks;
    rc, done, pct, results, ks := EncryptVolumes(vols, enc, done0, tot, faults, power);
    LastDecides(vols, results, faults);
    if rc == 0 && AtMostOne(FlagsOf(vols)) {
      ZeroMeansAll(vols, results, done0, done, pct, tot);
    }
  }

  // Everything that decides the result goes through: the partition, then the last volume.
  predicate GoesThrough(size: nat, vols: seq<VolumeInfo>, faults: Faults) {
    Succeeds(size, faults.main.devicesOpen, faults.main.transfer) && LastGoesThrough(vols, faults.volume)
  }

  // The sectors written in all, with power enough: the volumes only if the partition succeeds
  function SectorsWritten(size: nat, vols: seq<VolumeInfo>, faults: Faults): nat {
    Written(size, faults.main.devicesOpen, faults.main.transfer)
    + if Succeeds(size, faults.main.devicesOpen, faults.main.transfer) then WrittenBy(vols, faults.volume) else 0
  }

  // All percentages of the partition and the volumes, and the 100 of success: within 198, and
  // never falling from 79200 sectors on
  ghost predicate Complete(pct: seq<nat>, size: nat, vols: seq<VolumeInfo>, tot: nat)
    requires Progress.OnePct(tot) > 0
  {
    && pct == Progress.AllReports([size] + Sizes(vols), 0, tot) + [100]
    && Progress.Within(pct, 0, 198) && (tot >= 79200 ==> Progress.NonDecreasing(pct))
  }

  lemma PublishedInAll(size: nat, vols: seq<VolumeInfo>, tot: nat)
    requires Progress.OnePct(tot) > 0 && tot == size + TotalSize(vols)
    ensures Complete(Reports(0, Progress.Blocks(size), Progress.Blocks(0), Progress.OnePct(tot), 0)
                     + Progress.AllReports(Sizes(vols), size, tot) + [100], size, vols, tot)
  {
    assert ([size] + Sizes(vols))[1..] == Sizes(vols);
    SizesAddUp(vols);
    Progress.HundredAtTheEnd([size] + Sizes(vols), tot);
  }

  // The data partition first; the volumes only if that succeeded.
  method EncryptDevices(main: array<Content>, vols: seq<VolumeInfo>, enc: Cipher, size: nat, tot: nat,
                        faults: Faults, power: Power)
    returns (rc: int, done: nat, pct: seq<nat>)
    requires Distinct(vols) && main !in Devices(vols)
    requires size <= main.Length && Progress.OnePct(tot) > 0 && tot == size + TotalSize(vols)
    modifies main, Devices(vols), power
    ensures rc == if GoesThrough(size, vols, faults) then 0 else -1
    ensures main[..] == Encrypted(old(main[..]), enc,
                                  Min(Written(size, faults.main.devicesOpen, faults.main.transfer), old(power.left)))
    ensures power.left == Left(old(power.left), SectorsWritten(size, vols, faults))
    ensures rc == 0 && power.left > 0 ==> Finished(vols, faults.volume, enc, old(Contents(vols)), Contents(vols))
    ensures !Succeeds(size, faults.main.devicesOpen, faults.main.transfer) ==> Contents(vols) == old(Contents(vols))
    ensures rc == 0 && AtMostOne(FlagsOf(vols)) ==> done == tot && Complete(pct, size, vols, tot)
  {
    ghost var k;
    rc, done, pct, k := EnableInplace(main, enc, size, 0, tot, faults.main.devicesOpen, faults.main.transfer, power);
    ghost var m := main[..];
    assert Contents(vols) == old(Contents(vols));
    if rc == 0 {
      assert pct == Reports(0, Progress.Blocks(size), Progress.Blocks(0), Progress.OnePct(tot), 0);
      LeftTwice(old(power.left), size, WrittenBy(vols, faults.volume));
      var more;
      rc, done, more := EncryptAll(vols, enc, done, tot, faults.volume, power);
      assert main[..] == m;
      pct := pct + more;
      if rc == 0 {
        PublishedInAll(size, vols, tot);
        pct := pct + [100];
      }
    }
  }

  // The filesystem leaves room for the footer.
  predicate LeavesRoom(nrSec: nat, keyInFooter: bool, fsSizeSec: nat) {
    !keyInFooter || fsSizeSec + FOOTER_SECTORS <= nrSec
  }

  // The footer is put for the first time, with the flag.
  predicate Flagged(nrSec: nat, keyInFooter: bool, fsSizeSec: nat, faults: Faults, power: nat) {
    LeavesRoom(nrSec, keyInFooter, fsSizeSec) && faults.put1 && power > 0
  }

  // It is put again without: everything goes through and there is power for every sector
  // before it and for itself.
  predicate Cleared(nrSec: nat, keyInFooter: bool, fsSizeSec: nat, vols: seq<VolumeInfo>, faults: Faults, power: nat)
    requires keyInFooter ==> FOOTER_SECTORS <= nrSec
  {
    var size := FsSize(nrSec, keyInFooter);
    && LeavesRoom(nrSec, keyInFooter, fsSizeSec) && GoesThrough(size, vols, faults)
    && faults.put2 && power > (if faults.put1 then 1 else 0) + SectorsWritten(size, vols, faults)
  }

  // cryptfs_enable("inplace", passwd) from the point where /data is unmounted; fsSizeSec is
  // what the ext4 superblock says. The save of the persistent table in between refuses a
  // 1.2 footer and writes nothing.
  //
  // For every amount of power: the next boot is answered 0 exactly when the final footer
  // got through, -2 exactly when the first one did and the final one did not, and otherwise
  // what a device without a footer is answered. In the first case the data partition, and
  // every encryptable volume if there is at most one, is encrypted in full, once, under the
  // key the footer opens to.
  method Enable(main: array<Content>, meta: array<Content>, keyInFooter: bool, fsSizeSec: nat,
                vols: seq<VolumeInfo>, suite: KeyLifecycle.Suite, cipherOf: Bytes -> Cipher,
                passwd: string, key: Bytes, salt: Bytes, prop: ScryptParams, faults: Faults, power: Power,
                ghost literalExists: bool)
    returns (rc: int, done: nat, pct: seq<nat>)
    requires KeyLifecycle.Lawful(suite)
    requires FOOTER_SECTORS <= main.Length && 0 < meta.Length && (keyInFooter <==> meta == main)
    requires Distinct(vols) && main !in Devices(vols) && meta !in Devices(vols)
    requires Progress.OnePct(FsSize(main.Length, keyInFooter) + TotalSize(vols)) > 0
    requires !ReadableFooter(meta[FooterAt(main.Length, keyInFooter)])
    modifies main, meta, Devices(vols), power
    ensures rc == if LeavesRoom(main.Length, keyInFooter, fsSizeSec)
                     && GoesThrough(FsSize(main.Length, keyInFooter), vols, faults) then 0 else -1
    ensures CryptoComplete(true, meta[FooterAt(main.Length, keyInFooter)], !keyInFooter, literalExists)
            == if Cleared(main.Length, keyInFooter, fsSizeSec, vols, faults, old(power.left)) then 0
               else if Flagged(main.Length, keyInFooter, fsSizeSec, faults, old(power.left)) then -2
               else if keyInFooter || literalExists then -1 else 1
    // a footer that is there opens to the key of the cipher, with no failure counted
    ensures var c := meta[FooterAt(main.Length, keyInFooter)];
            ReadableFooter(c) ==>
              && KeyLifecycle.Unwrap(suite, c.footer, passwd) == key
              && c.footer.fsSize == FsSize(main.Length, keyInFooter) && c.footer.failedCount == 0
    // the data partition: a prefix is encrypted, the rest untouched, the footer apart from both
    ensures var k := EncryptedPrefix(main.Length, keyInFooter, fsSizeSec, faults, old(power.left));
            forall i :: 0 <= i < main.Length && !(keyInFooter && i == FooterAt(main.Length, true)) ==>
              main[i] == if i < k then cipherOf(key)(i, old(main[i])) else old(main[i])
    ensures Cleared(main.Length, keyInFooter, fsSizeSec, vols, faults, old(power.left)) ==>
              && EncryptedPrefix(main.Length, keyInFooter, fsSizeSec, faults, old(power.left))
                 == FsSize(main.Length, keyInFooter)
              && forall i :: 0 <= i < |vols| ==>
                   vols[i].dev[..] == Encrypted(old(vols[i].dev[..]), cipherOf(key),
                                                WrittenTo(vols[i], faults.volume(i)))
    ensures Cleared(main.Length, keyInFooter, fsSizeSec, vols, faults, old(power.left)) && AtMostOne(FlagsOf(vols)) ==>
              forall i :: 0 <= i < |vols| && ShouldEncrypt(vols[i].flags) ==>
                vols[i].dev[..] == Encrypted(old(vols[i].dev[..]), cipherOf(key), vols[i].dev.Length)
    ensures rc == 0 && AtMostOne(FlagsOf(vols)) ==>
              var tot := FsSize(main.Length, keyInFooter) + TotalSize(vols);
              done == tot && Complete(pct, FsSize(main.Length, keyInFooter), vols, tot)
  {
    rc, done, pct := -1, 0, [];
    var nrSec := main.Length;
    if keyInFooter && fsSizeSec > nrSec - FOOTER_SECTORS {
      return;
    }
    var at := FooterAt(nrSec, keyInFooter);
    var ftr := NewFooter(suite, nrSec, keyInFooter, at * 512, prop, salt, passwd, key);
    NewFooterAnswers(suite, nrSec, keyInFooter, at * 512, prop, salt, passwd, key);
    var tot := ftr.fsSize + TotalSize(vols);
    SucceedingVolumes(vols, faults.volume);
    PrefixIsAll(nrSec, keyInFooter, fsSizeSec, vols, faults, power.left);
    var enc := cipherOf(KeyLifecycle.Unwrap(suite, ftr, passwd));
    rc, done, pct := EncryptBetweenFooters(main, meta, at, ftr, vols, enc, tot, faults, power);
  }

  // The footer of a new encryption, and with the flag cleared
  function NewFooter(suite: KeyLifecycle.Suite, nrSec: nat, keyInFooter: bool, off: nat, prop: ScryptParams,
                     salt: Bytes, passwd: string, key: Bytes): Footer
    requires keyInFooter ==> FOOTER_SECTORS <= nrSec
  {
    KeyLifecycle.Wrap(suite, FreshFooter(nrSec, keyInFooter, off, prop, [], salt), passwd, key, prop)
  }

  function Unflagged(f: Footer): Footer {
    f.(flags := f.flags & !ENCRYPTION_IN_PROGRESS)
  }

  lemma NewFooterAnswers(suite: KeyLifecycle.Suite, nrSec: nat, keyInFooter: bool, off: nat, prop: ScryptParams,
                         salt: Bytes, passwd: string, key: Bytes)
    requires KeyLifecycle.Lawful(suite) && (keyInFooter ==> FOOTER_SECTORS <= nrSec)
    ensures var f := NewFooter(suite, nrSec, keyInFooter, off, prop, salt, passwd, key);
            && (forall inFile, there :: CryptoComplete(true, FooterSector(f), inFile, there) == -2)
            && (forall inFile, there :: CryptoComplete(true, FooterSector(Unflagged(f)), inFile, there) == 0)
            && KeyLifecycle.Unwrap(suite, f, passwd) == key && KeyLifecycle.Unwrap(suite, Unflagged(f), passwd) == key
            && f.fsSize == FsSize(nrSec, keyInFooter) && f.failedCount == 0
  {
    var wrapping := suite.scrypt(passwd, salt, prop);
    assert suite.dec(wrapping, suite.enc(wrapping, key)) == key;
  }

  // The footer with the flag, the encryption, and if it succeeds the footer without
  method EncryptBetweenFooters(main: array<Content>, meta: array<Content>, at: nat, ftr: Footer, vols: seq<VolumeInfo>,
                               enc: Cipher, tot: nat, faults: Faults, power: Power)
    returns (rc: int, done: nat, pct: seq<nat>)
    requires Distinct(vols) && main !in Devices(vols) && meta !in Devices(vols)
    requires at < meta.Length && ftr.fsSize <= main.Length && (meta == main ==> ftr.fsSize <= at)
    requires Progress.OnePct(tot) > 0 && tot == ftr.fsSize + TotalSize(vols)
    modifies main, meta, Devices(vols), power
    ensures rc == if GoesThrough(ftr.fsSize, vols, faults) then 0 else -1
    ensures meta[at] == if rc == 0 && faults.put2 && PowerLeft(old(power.left), ftr.fsSize, vols, faults) > 0
                        then FooterSector(Unflagged(ftr))
                        else if faults.put1 && old(power.left) > 0 then FooterSector(ftr)
                        else old(meta[at])
    ensures var k := Min(Written(ftr.fsSize, faults.main.devicesOpen, faults.main.transfer),
                         Left(old(power.left), if faults.put1 then 1 else 0));
            forall i :: 0 <= i < main.Length && !(meta == main && i == at) ==>
              main[i] == if i < k then enc(i, old(main[i])) else old(main[i])
    ensures rc == 0 && PowerLeft(old(power.left), ftr.fsSize, vols, faults) > 0 ==>
              Finished(vols, faults.volume, enc, old(Contents(vols)), Contents(vols))
    ensures rc == 0 && AtMostOne(FlagsOf(vols)) ==> done == tot && Complete(pct, ftr.fsSize, vols, tot)
  {
    PutSector(meta, at, FooterSector(ftr), faults.put1, power);
    rc, done, pct := EncryptAndClear(main, meta, at, ftr, vols, enc, tot, faults, power);
  }

  // After the first put
  method EncryptAndClear(main: array<Content>, meta: array<Content>, at: nat, ftr: Footer, vols: seq<VolumeInfo>,
                         enc: Cipher, tot: nat, faults: Faults, power: Power)
    returns (rc: int, done: nat, pct: seq<nat>)
    requires Distinct(vols) && main !in Devices(vols) && meta !in Devices(vols)
    requires at < meta.Length && ftr.fsSize <= main.Length && (meta == main ==> ftr.fsSize <= at)
    requires Progress.OnePct(tot) > 0 && tot == ftr.fsSize + TotalSize(vols)
    modifies main, meta, Devices(vols), power
    ensures rc == if GoesThrough(ftr.fsSize, vols, faults) then 0 else -1
    ensures var left := Left(old(power.left), SectorsWritten(ftr.fsSize, vols, faults));
            && meta[at] == (if rc == 0 && faults.put2 && left > 0 then FooterSector(Unflagged(ftr)) else old(meta[at]))
            && (rc == 0 && left > 0 ==> Finished(vols, faults.volume, enc, old(Contents(vols)), Contents(vols)))
    ensures var k := Min(Written(ftr.fsSize, faults.main.devicesOpen, faults.main.transfer), old(power.left));
            forall i :: 0 <= i < main.Length && !(meta == main && i == at) ==>
              main[i] == if i < k then enc(i, old(main[i])) else old(main[i])
    ensures rc == 0 && AtMostOne(FlagsOf(vols)) ==> done == tot && Complete(pct, ftr.fsSize, vols, tot)
  {
    rc, done, pct := EncryptDevices(main, vols, enc, ftr.fsSize, tot, faults, power);
    assert forall i :: 0 <= i < main.Length ==> main[i] == main[..][i];
    if rc == 0 {
      PutSector(meta, at, FooterSector(Unflagged(ftr)), faults.put2, power);
    }
  }

  // What is left for the last put of the footer
  function PowerLeft(power: nat, size: nat, vols: seq<VolumeInfo>, faults: Faults): nat {
    Left(Left(power, if faults.put1 then 1 else 0), SectorsWritten(size, vols, faults))
  }

  lemma PrefixIsAll(nrSec: nat, keyInFooter: bool, fsSizeSec: nat, vols: seq<VolumeInfo>, faults: Faults, power: nat)
    requires keyInFooter ==> FOOTER_SECTORS <= nrSec
    ensures Cleared(nrSec, keyInFooter, fsSizeSec, vols, faults, power) ==>
              EncryptedPrefix(nrSec, keyInFooter, fsSizeSec, faults, power) == FsSize(nrSec, keyInFooter)
  {
    if Cleared(nrSec, keyInFooter, fsSizeSec, vols, faults, power) {
      assert Written(FsSize(nrSec, keyInFooter), true, faults.main.transfer) == FsSize(nrSec, keyInFooter);
    }
  }

  // The sectors of the partition that end up encrypted
  function EncryptedPrefix(nrSec: nat, keyInFooter: bool, fsSizeSec: nat, faults: Faults, power: nat): nat
    requires keyInFooter ==> FOOTER_SECTORS <= nrSec
  {
    if !LeavesRoom(nrSec, keyInFooter, fsSizeSec) then 0
    else Min(Written(FsSize(nrSec, keyInFooter), faults.main.devicesOpen, faults.main.transfer),
             Left(power, if faults.put1 then 1 else 0))
  }

  lemma SucceedingVolumes(vols: seq<VolumeInfo>, faults: nat -> DeviceFault)
    ensures LastGoesThrough(vols, faults) && AtMostOne(FlagsOf(vols)) ==>
              forall i :: 0 <= i < |vols| && ShouldEncrypt(vols[i].flags) ==>
                WrittenTo(vols[i], faults(i)) == vols[i].dev.Length
  {
    if LastGoesThrough(vols, faults) && AtMostOne(FlagsOf(vols)) {
      forall i: nat | i < |vols| && ShouldEncrypt(vols[i].flags)
        ensures WrittenTo(vols[i], faults(i)) == vols[i].dev.Length
      {
        assert forall j :: 0 <= j < |vols| ==> FlagsOf(vols)[j] == vols[j].flags;
        assert IsLast(vols, i);
        if vols[i].dev.Length > 0 { WrittenIsAllIff(vols[i].dev.Length, faults(i).devicesOpen, faults(i).transfer); }
      }
    }
  }
}
