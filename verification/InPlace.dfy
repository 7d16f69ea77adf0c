/**
 In-place encryption (cryptfs_enable_inplace and the part of cryptfs_enable around it):
 plaintext is read from a raw device and written back through a dm-crypt mapping that
 starts at sector 0 of the same device, so reads and writes hit the same sectors. The
 footer on the device carries an "in progress" flag from before the first sector is
 written until after the last one.

 A power cut is modelled by `Power`: each sector written to any device spends one unit,
 and a write issued when none is left is lost. A contract that holds for every initial
 amount of power therefore speaks about a cut between any two sector writes.
 */
module InPlace {
  import opened Basics
  import opened PersistTable
  import opened Metadata

  const SECTORS_PER_BUF := 8  // CRYPT_INPLACE_BUFSIZE / 512
  const FOOTER_SECTORS := 32  // CRYPT_FOOTER_OFFSET / 512

  // What a sector holds. The footer fits the front of one sector.
  datatype Content = Raw(bytes: Bytes) | FooterSector(footer: Footer)

  // The cipher of the mapping: sector number (which gives the IV) and plaintext.
  type Cipher = (nat, Content) -> Content

  class Power {
    var left: nat

    constructor (n: nat)
      ensures left == n
    {
      left := n;
    }
  }

  // The device content with sectors [0, k) each encrypted once and the rest as it was.
  function Encrypted(was: seq<Content>, enc: Cipher, k: nat): (now: seq<Content>)
    requires k <= |was|
    ensures |now| == |was|
    ensures forall i :: 0 <= i < k ==> now[i] == enc(i, was[i])
    ensures forall i :: k <= i < |was| ==> now[i] == was[i]
  {
    seq(|was|, i requires 0 <= i < |was| => if i < k then enc(i, was[i]) else was[i])
  }

  // A write of sectors through the mapping, which passes sector i of the crypto device to
  // sector i of the device below.
  method WriteThrough(dev: array<Content>, enc: Cipher, at: nat, buf: seq<Content>, power: Power)
    requires at + |buf| <= dev.Length
    modifies dev, power
    ensures var n := if old(power.left) < |buf| then old(power.left) else |buf|;
            && power.left == old(power.left) - n
            && (forall i :: 0 <= i < dev.Length ==>
                  dev[i] == if at <= i < at + n then enc(i, buf[i - at]) else old(dev[i]))
  {
    for k := 0 to |buf|
      invariant var n := if old(power.left) < k then old(power.left) else k;
                && power.left == old(power.left) - n
                && (forall i :: 0 <= i < dev.Length ==>
                      dev[i] == if at <= i < at + n then enc(i, buf[i - at]) else old(dev[i]))
    {
      if power.left > 0 {
        dev[at + k] := enc(at + k, buf[k]);
        power.left := power.left - 1;
      }
    }
  }

  function Min(a: nat, b: nat): nat {
    if a < b then a else b
  }

  // The percentages published while blocks i..n are processed: each new one that exceeds
  // the last published, counted on the blocks of earlier volumes as well.
  function Reports(i: nat, n: nat, base: nat, onePct: nat, cur: nat): seq<nat>
    requires i <= n && onePct > 0
    decreases n - i
  {
    if i == n then []
    else
      var pct := (i + base) / onePct;
      if pct > cur then [pct] + Reports(i + 1, n, base, onePct, pct)
      else Reports(i + 1, n, base, onePct, cur)
  }

  // How many writes it takes, each after a read: blocks while there is a whole one, then
  // single sectors
  function Writes(size: nat): nat {
    if size == 0 then 0
    else if size < SECTORS_PER_BUF then 1 + Writes(size - 1)
    else 1 + Writes(size - SECTORS_PER_BUF)
  }

  // The sectors that the first `writes` of them cover
  function Reached(size: nat, writes: nat): (n: nat)
    ensures n <= size && (n == size <==> writes >= Writes(size))
  {
    if size == 0 || writes == 0 then 0
    else if size < SECTORS_PER_BUF then 1 + Reached(size - 1, writes - 1)
    else SECTORS_PER_BUF + Reached(size - SECTORS_PER_BUF, writes - 1)
  }

  // It goes through: the devices open and the first transfer to fail lies beyond the last.
  predicate Succeeds(size: nat, devicesOpen: bool, fault: nat) {
    devicesOpen && 2 * Writes(size) <= fault
  }

  // The sectors written before the first transfer that fails, with power enough
  function Written(size: nat, devicesOpen: bool, fault: nat): (n: nat)
    ensures n <= size
  {
    if devicesOpen then Reached(size, fault / 2) else 0
  }

  // All sectors are written exactly if it goes through.
  lemma WrittenIsAllIff(size: nat, devicesOpen: bool, fault: nat)
    requires size > 0
    ensures Written(size, devicesOpen, fault) == size <==> Succeeds(size, devicesOpen, fault)
  {
  }

  // Of a size of so many whole blocks and a rest
  lemma {:induction false} WritesAre(blocks: nat, rest: nat)
    requires rest < SECTORS_PER_BUF
    ensures Writes(SECTORS_PER_BUF * blocks + rest) == blocks + rest
    decreases blocks, rest
  {
    if blocks > 0 {
      WritesAre(blocks - 1, rest);
    } else if rest > 0 {
      WritesAre(0, rest - 1);
    }
  }

  lemma {:induction false} ReachedIs(blocks: nat, rest: nat, writes: nat)
    requires rest < SECTORS_PER_BUF && writes <= blocks + rest
    ensures Reached(SECTORS_PER_BUF * blocks + rest, writes)
            == if writes <= blocks then SECTORS_PER_BUF * writes else SECTORS_PER_BUF * blocks + (writes - blocks)
    decreases writes
  {
    if writes > 0 && blocks > 0 {
      ReachedIs(blocks - 1, rest, writes - 1);
    } else if writes > 0 {
      ReachedIs(0, rest - 1, writes - 1);
    }
  }

  // The i-th write is the one that fails to come.
  lemma StopsAt(blocks: nat, rest: nat, fault: nat, i: nat)
    requires rest < SECTORS_PER_BUF && i < blocks + rest && (fault == 2 * i || fault == 2 * i + 1)
    ensures var size := SECTORS_PER_BUF * blocks + rest;
            && !Succeeds(size, true, fault)
            && Written(size, true, fault)
               == if i <= blocks then SECTORS_PER_BUF * i else SECTORS_PER_BUF * blocks + (i - blocks)
  {
    WritesAre(blocks, rest);
    ReachedIs(blocks, rest, i);
  }

  lemma NeverStops(blocks: nat, rest: nat, fault: nat)
    requires rest < SECTORS_PER_BUF && 2 * blocks + 2 * rest <= fault
    ensures var size := SECTORS_PER_BUF * blocks + rest;
            Succeeds(size, true, fault) && Written(size, true, fault) == size
  {
    WritesAre(blocks, rest);
  }

  // cryptfs_enable_inplace. Transfer number `fault` (counted from 0) is the first to fail;
  // a transfer moves all its sectors or fails. `k` counts the sectors really encrypted.
  method EnableInplace(dev: array<Content>, enc: Cipher, size: nat, done: nat, tot: nat,
                       devicesOpen: bool, fault: nat, power: Power)
    returns (rc: int, done': nat, pct: seq<nat>, ghost k: nat)
    requires size <= dev.Length
    requires size >= SECTORS_PER_BUF ==> tot / SECTORS_PER_BUF / 100 > 0
    modifies dev, power
    ensures k == Min(Written(size, devicesOpen, fault), old(power.left))
    ensures dev[..] == Encrypted(old(dev[..]), enc, k)
    ensures power.left == old(power.left) - k
    ensures rc == 0 ==> k == size || power.left == 0
    ensures rc == if Succeeds(size, devicesOpen, fault) then 0 else -1
    ensures done' == if rc == 0 then done + size else done
    ensures rc == 0 && size >= SECTORS_PER_BUF ==>
              pct == Reports(0, size / SECTORS_PER_BUF, done / SECTORS_PER_BUF, tot / SECTORS_PER_BUF / 100, 0)
    ensures rc == 0 && size < SECTORS_PER_BUF ==> pct == []
  {
    rc, done', pct, k := -1, done, [], 0;
    ghost var was, p0 := dev[..], power.left;
    assert dev[..] == Encrypted(was, enc, 0);
    if !devicesOpen {
      return;
    }
    var numblocks, remainder := size / SECTORS_PER_BUF, size % SECTORS_PER_BUF;
    assert size == SECTORS_PER_BUF * numblocks + remainder;
    var pos;
    ghost var w;
    var onePct := if numblocks == 0 then 1 else tot / SECTORS_PER_BUF / 100;  // used for blocks only
    rc, pct, pos, w, k := EncryptBlocks(dev, enc, numblocks, done / SECTORS_PER_BUF, onePct, fault, power);
    if rc != 0 {
      StopsAt(numblocks, remainder, fault, w);
      return;
    }
    rc, w, k := EncryptRest(dev, enc, numblocks, remainder, pos, fault, power, was, p0);
    if rc != 0 {
      StopsAt(numblocks, remainder, fault, numblocks + w);
      return;
    }
    NeverStops(numblocks, remainder, fault);
    done' := done + size;
  }

  // The whole blocks, of which w are written; both file positions end at pos.
  method EncryptBlocks(dev: array<Content>, enc: Cipher, numblocks: nat, blocksDone: nat, onePct: nat, fault: nat,
                       power: Power)
    returns (rc: int, pct: seq<nat>, pos: nat, ghost w: nat, ghost k: nat)
    requires SECTORS_PER_BUF * numblocks <= dev.Length && onePct > 0
    modifies dev, power
    ensures rc == if 2 * numblocks <= fault then 0 else -1
    ensures if rc == 0 then w == numblocks else w < numblocks && 2 * w <= fault < 2 * w + 2
    ensures k == Min(SECTORS_PER_BUF * w, old(power.left))
    ensures k <= dev.Length && dev[..] == Encrypted(old(dev[..]), enc, k) && power.left == old(power.left) - k
    ensures rc == 0 ==> pos == SECTORS_PER_BUF * numblocks && pct == Reports(0, numblocks, blocksDone, onePct, 0)
  {
    rc, pct, w, k := 0, [], 0, 0;
    ghost var was, p0 := dev[..], power.left;
    assert dev[..] == Encrypted(was, enc, 0);
    ghost var all := Reports(0, numblocks, blocksDone, onePct, 0);
    var curPct := 0;
    pos := 0;
    for i := 0 to numblocks
      invariant rc == 0 && w == i && 2 * i <= fault && pos == SECTORS_PER_BUF * i
      invariant k == Min(pos, p0) && power.left == p0 - k
      invariant dev[..] == Encrypted(was, enc, k)
      invariant pct + Reports(i, numblocks, blocksDone, onePct, curPct) == all
    {
      curPct, pct := Report(i, numblocks, blocksDone, onePct, curPct, pct);
      rc, pos, k := OneBlock(dev, enc, i, pos, fault, power, was, k, p0);
      if rc != 0 {
        return;
      }
      w := w + 1;
    }
  }

  // One block, both files at the same position
  method OneBlock(dev: array<Content>, enc: Cipher, i: nat, pos: nat, fault: nat, power: Power,
                  ghost was: seq<Content>, ghost k: nat, ghost p0: nat)
    returns (rc: int, pos': nat, ghost k': nat)
    requires pos == SECTORS_PER_BUF * i && pos + SECTORS_PER_BUF <= dev.Length == |was| && 2 * i <= fault
    requires k == Min(pos, p0) && power.left == p0 - k && dev[..] == Encrypted(was, enc, k)
    modifies dev, power
    ensures rc == if 2 * i + 2 <= fault then 0 else -1
    ensures pos' == if rc == 0 then pos + SECTORS_PER_BUF else pos
    ensures k' == Min(pos', p0) && power.left == p0 - k' && dev[..] == Encrypted(was, enc, k')
  {
    var readPos, writePos, transfers;
    rc, readPos, writePos, transfers, k' :=
      Transfer(dev, enc, SECTORS_PER_BUF, pos, pos, 2 * i, fault, power, was, k);
    pos' := if rc == 0 then readPos else pos;
  }

  // One percentage is published if it is a new one.
  method Report(i: nat, ghost n: nat, blocksDone: nat, onePct: nat, cur: nat, pct: seq<nat>)
    returns (cur': nat, pct': seq<nat>)
    requires i < n && onePct > 0
    ensures pct' + Reports(i + 1, n, blocksDone, onePct, cur') == pct + Reports(i, n, blocksDone, onePct, cur)
  {
    cur', pct' := cur, pct;
    var newPct := (i + blocksDone) / onePct;
    if newPct > cur {
      cur', pct' := newPct, pct + [newPct];
    }
  }

  // The sectors that are left over, one by one
  method EncryptRest(dev: array<Content>, enc: Cipher, numblocks: nat, remainder: nat, pos: nat, fault: nat,
                     power: Power, ghost was: seq<Content>, ghost p0: nat)
    returns (rc: int, ghost w: nat, ghost k: nat)
    requires pos == SECTORS_PER_BUF * numblocks && pos + remainder <= dev.Length == |was| && 2 * numblocks <= fault
    requires power.left == p0 - Min(pos, p0) && dev[..] == Encrypted(was, enc, Min(pos, p0))
    modifies dev, power
    ensures rc == if 2 * numblocks + 2 * remainder <= fault then 0 else -1
    ensures if rc == 0 then w == remainder else w < remainder && 2 * (numblocks + w) <= fault < 2 * (numblocks + w) + 2
    ensures k == Min(pos + w, p0)
    ensures k <= dev.Length && dev[..] == Encrypted(was, enc, k) && power.left == p0 - k
  {
    rc, w, k := 0, 0, Min(pos, p0);
    var readPos, writePos, transfers := pos, pos, 2 * numblocks;
    for i := 0 to remainder
      invariant rc == 0 && w == i && readPos == writePos == pos + i
      invariant transfers == 2 * numblocks + 2 * i <= fault
      invariant k == Min(writePos, p0) && power.left == p0 - k
      invariant dev[..] == Encrypted(was, enc, k)
    {
      rc, readPos, writePos, transfers, k :=
        Transfer(dev, enc, 1, readPos, writePos, transfers, fault, power, was, k);
      if rc != 0 {
        return;
      }
      w := w + 1;
    }
  }

  // Read n sectors of the raw device at its file position, write them to the crypto device
  // at its own.
  method Transfer(dev: array<Content>, enc: Cipher, n: nat, readPos: nat, writePos: nat,
                  transfers: nat, fault: nat, power: Power, ghost was: seq<Content>, ghost k: nat)
    returns (rc: int, readPos': nat, writePos': nat, transfers': nat, ghost k': nat)
    requires readPos == writePos && writePos + n <= dev.Length == |was|
    requires k == Min(writePos, power.left + k) && dev[..] == Encrypted(was, enc, k)
    modifies dev, power
    ensures k' <= writePos + n && dev[..] == Encrypted(was, enc, k')
    ensures power.left + k' == old(power.left) + k
    ensures rc == 0 || rc == -1
    ensures rc == 0 <==> transfers + 2 <= fault || fault < transfers
    ensures rc == 0 ==> readPos' == readPos + n && writePos' == writePos + n && transfers' == transfers + 2
    ensures rc == 0 ==> k' == Min(writePos', power.left + k')
    ensures rc == -1 ==> k' == k
  {
    rc, readPos', writePos', transfers', k' := -1, readPos, writePos, transfers, k;
    if transfers == fault {
      return;
    }
    var buf := dev[readPos..readPos + n];
    readPos' := readPos + n;
    if transfers + 1 == fault {
      return;
    }
    WriteThrough(dev, enc, writePos, buf, power);
    writePos' := writePos + n;
    transfers' := transfers + 2;
    rc := 0;
    k' := k + (old(power.left) - power.left);
  }
}
