/**
 The progress percentages cryptfs_enable publishes while it encrypts its volumes one
 after the other. The comment at the end of the volume loop says that the loop itself
 never publishes 100; that holds only when the number of 4 KiB blocks is a multiple of 100.
 */
module Progress {
  import opened InPlace

  function Blocks(sectors: nat): nat {
    sectors / SECTORS_PER_BUF
  }

  // The one percent of a total, in blocks
  function OnePct(tot: nat): nat {
    Blocks(tot) / 100
  }

  // What is published while volumes of these sizes are encrypted, after `done` sectors.
  function AllReports(sizes: seq<nat>, done: nat, tot: nat): seq<nat>
    requires OnePct(tot) > 0
    decreases |sizes|
  {
    if sizes == [] then []
    else Reports(0, Blocks(sizes[0]), Blocks(done), OnePct(tot), 0) + AllReports(sizes[1..], done + sizes[0], tot)
  }

  function Sum(sizes: seq<nat>): nat
    decreases |sizes|
  {
    if sizes == [] then 0 else sizes[0] + Sum(sizes[1..])
  }

  lemma {:induction false} SumAppend(sizes: seq<nat>, x: nat)
    ensures Sum(sizes + [x]) == Sum(sizes) + x
    decreases |sizes|
  {
    if sizes != [] {
      SumAppend(sizes[1..], x);
      assert (sizes + [x])[1..] == sizes[1..] + [x];
    }
  }

  // One volume more publishes its run at the end.
  lemma {:induction false} ReportsAppend(sizes: seq<nat>, x: nat, done: nat, tot: nat)
    requires OnePct(tot) > 0
    ensures AllReports(sizes + [x], done, tot)
            == AllReports(sizes, done, tot) + Reports(0, Blocks(x), Blocks(done + Sum(sizes)), OnePct(tot), 0)
    decreases |sizes|
  {
    if sizes == [] {
      assert ([] + [x])[1..] == [];
    } else {
      ReportsAppend(sizes[1..], x, done + sizes[0], tot);
      assert (sizes + [x])[1..] == sizes[1..] + [x];
    }
  }

  ghost predicate NonDecreasing(s: seq<nat>) {
    forall i, j :: 0 <= i <= j < |s| ==> s[i] <= s[j]
  }

  ghost predicate Within(s: seq<nat>, lo: nat, hi: nat) {
    forall i :: 0 <= i < |s| ==> lo <= s[i] <= hi
  }

  lemma MulKeepsOrder(x: nat, y: nat, q: nat)
    ensures x <= y ==> x * q <= y * q
  {
    if x <= y {
      assert y * q == x * q + (y - x) * q;
    }
  }

  lemma DivBelow(a: nat, q: nat, c: nat)
    requires q > 0 && a < (c + 1) * q
    ensures a / q <= c
  {
    MulKeepsOrder(c + 1, a / q, q);
  }

  lemma DivAtLeast(a: nat, q: nat, c: nat)
    requires q > 0 && c * q <= a
    ensures c <= a / q
  {
    MulKeepsOrder(a / q + 1, c, q);
  }

  lemma DivMonotone(a: nat, b: nat, q: nat)
    requires a <= b && q > 0
    ensures a / q <= b / q
  {
    DivAtLeast(b, q, a / q);
  }

  // One volume publishes an increasing run between its first and its last block.
  lemma {:induction false} ReportsRise(i: nat, n: nat, base: nat, q: nat, cur: nat)
    requires i < n && q > 0
    ensures NonDecreasing(Reports(i, n, base, q, cur))
    ensures Within(Reports(i, n, base, q, cur), (i + base) / q, (n - 1 + base) / q)
    ensures Within(Reports(i, n, base, q, cur), cur, (n - 1 + base) / q)
    decreases n - i
  {
    var pct := (i + base) / q;
    DivMonotone(i + base, n - 1 + base, q);
    if i + 1 < n {
      DivMonotone(i + base, i + 1 + base, q);
      ReportsRise(i + 1, n, base, q, if pct > cur then pct else cur);
    }
  }

  // The last block of a volume has its percentage published (unless it is 0).
  lemma {:induction false} LastBlockIsReported(i: nat, n: nat, base: nat, q: nat, cur: nat)
    requires i < n && q > 0 && cur < (n - 1 + base) / q
    ensures (n - 1 + base) / q in Reports(i, n, base, q, cur)
    decreases n - i
  {
    if i + 1 < n {
      var pct := (i + base) / q;
      var cur' := if pct > cur then pct else cur;
      if cur' < (n - 1 + base) / q {
        LastBlockIsReported(i + 1, n, base, q, cur');
      } else {
        DivMonotone(i + base, n - 1 + base, q);
      }
    }
  }

  // Over all volumes: never falling, and never past the percentage of the last block.
  lemma {:induction false} AllReportsRise(sizes: seq<nat>, done: nat, tot: nat)
    requires OnePct(tot) > 0 && done + Sum(sizes) == tot
    ensures NonDecreasing(AllReports(sizes, done, tot))
    ensures Within(AllReports(sizes, done, tot), Blocks(done) / OnePct(tot), (Blocks(tot) - 1) / OnePct(tot))
    decreases |sizes|
  {
    if sizes != [] {
      var q, n, base := OnePct(tot), Blocks(sizes[0]), Blocks(done);
      var here, later := Reports(0, n, base, q, 0), AllReports(sizes[1..], done + sizes[0], tot);
      AllReportsRise(sizes[1..], done + sizes[0], tot);
      DivMonotone(base, Blocks(done + sizes[0]), q);
      if n > 0 {
        ReportsRise(0, n, base, q, 0);
        assert base + n <= Blocks(done + sizes[0]) <= Blocks(tot);
        DivMonotone(n - 1 + base, Blocks(done + sizes[0]), q);
        DivMonotone(n - 1 + base, Blocks(tot) - 1, q);
      }
    }
  }

  // The published value never falls and never exceeds 198; from 79200 sectors on it never
  // exceeds 100.
  lemma ProgressIsBounded(sizes: seq<nat>, tot: nat)
    requires Blocks(tot) >= 100 && Sum(sizes) == tot
    ensures NonDecreasing(AllReports(sizes, 0, tot))
    ensures Within(AllReports(sizes, 0, tot), 0, 198)
    ensures tot >= 79200 ==> Within(AllReports(sizes, 0, tot), 0, 100)
  {
    var q, n := OnePct(tot), Blocks(tot);
    AllReportsRise(sizes, 0, tot);
    assert n == 100 * q + n % 100;
    assert 198 * q + q == 199 * q && 100 * q + q == 101 * q;
    DivBelow(n - 1, q, 198);
    if tot >= 79200 {
      assert q >= 99;
      DivBelow(n - 1, q, 100);
    }
  }

  // With the 100 that success adds, it still never falls from 79200 sectors on.
  lemma HundredAtTheEnd(sizes: seq<nat>, tot: nat)
    requires Blocks(tot) >= 100 && Sum(sizes) == tot
    ensures Within(AllReports(sizes, 0, tot) + [100], 0, 198)
    ensures tot >= 79200 ==> NonDecreasing(AllReports(sizes, 0, tot) + [100])
  {
    ProgressIsBounded(sizes, tot);
  }

  // How far the blocks of the volumes reach, each counted from the sectors done before it.
  // This is all of them but for what is lost where a size is no multiple of a block.
  function Reach(sizes: seq<nat>, done: nat): nat
    decreases |sizes|
  {
    if sizes == [] then 0
    else
      var here := if Blocks(sizes[0]) == 0 then 0 else Blocks(done) + Blocks(sizes[0]);
      var later := Reach(sizes[1..], done + sizes[0]);
      if here > later then here else later
  }

  ghost predicate Below(s: seq<nat>, c: nat) {
    forall i :: 0 <= i < |s| ==> s[i] < c
  }

  lemma VolumeIsBelowIff(n: nat, base: nat, q: nat, c: nat)
    requires q > 0 && c > 0
    ensures Below(Reports(0, n, base, q, 0), c) <==> n == 0 || base + n <= c * q
  {
    if n > 0 {
      var all, top := Reports(0, n, base, q, 0), (n - 1 + base) / q;
      ReportsRise(0, n, base, q, 0);
      if base + n <= c * q {
        DivBelow(n - 1 + base, q, c - 1);
      } else {
        DivAtLeast(n - 1 + base, q, c);
        LastBlockIsReported(0, n, base, q, 0);
        var i :| 0 <= i < |all| && all[i] == top;
      }
    }
  }

  lemma BelowBoth(a: seq<nat>, b: seq<nat>, c: nat)
    ensures Below(a + b, c) <==> Below(a, c) && Below(b, c)
  {
    if Below(a + b, c) {
      assert forall i :: 0 <= i < |a| ==> a[i] == (a + b)[i];
      assert forall i :: 0 <= i < |b| ==> b[i] == (a + b)[|a| + i];
    }
  }

  lemma {:induction false} ReportsBelowIff(sizes: seq<nat>, done: nat, tot: nat, c: nat)
    requires OnePct(tot) > 0 && c > 0
    ensures Below(AllReports(sizes, done, tot), c) <==> Reach(sizes, done) <= c * OnePct(tot)
    decreases |sizes|
  {
    if sizes != [] {
      var here := Reports(0, Blocks(sizes[0]), Blocks(done), OnePct(tot), 0);
      var later := AllReports(sizes[1..], done + sizes[0], tot);
      VolumeIsBelowIff(Blocks(sizes[0]), Blocks(done), OnePct(tot), c);
      ReportsBelowIff(sizes[1..], done + sizes[0], tot, c);
      BelowBoth(here, later, c);
    }
  }

  ghost predicate WholeBlocks(sizes: seq<nat>) {
    forall i :: 0 <= i < |sizes| ==> sizes[i] % SECTORS_PER_BUF == 0
  }

  lemma {:induction false} ReachIsTheTotal(sizes: seq<nat>, done: nat)
    requires WholeBlocks(sizes) && done % SECTORS_PER_BUF == 0
    ensures Reach(sizes, done) == if Sum(sizes) == 0 then 0 else Blocks(done + Sum(sizes))
    decreases |sizes|
  {
    if sizes != [] {
      WholeSum(sizes[1..]);
      BlocksAdd(done, sizes[0]);
      ReachIsTheTotal(sizes[1..], done + sizes[0]);
      ReachStep(done, sizes[0], Sum(sizes[1..]));
    }
  }

  lemma ReachStep(done: nat, size: nat, rest: nat)
    requires done % SECTORS_PER_BUF == 0 && size % SECTORS_PER_BUF == 0 && rest % SECTORS_PER_BUF == 0
    ensures Blocks(size) == 0 <==> size == 0
    ensures Blocks(done + size) == Blocks(done) + Blocks(size) <= Blocks(done + size + rest)
    ensures rest == 0 ==> done + size + rest == done + size
  {
    BlocksAdd(done, size);
    BlocksAdd(done + size, rest);
  }

  lemma BlocksAdd(a: nat, b: nat)
    requires a % SECTORS_PER_BUF == 0 && b % SECTORS_PER_BUF == 0
    ensures Blocks(a + b) == Blocks(a) + Blocks(b) && (Blocks(b) == 0 <==> b == 0)
    ensures (a + b) % SECTORS_PER_BUF == 0
  {
  }

  lemma {:induction false} WholeSum(sizes: seq<nat>)
    requires WholeBlocks(sizes)
    ensures Sum(sizes) % SECTORS_PER_BUF == 0
    decreases |sizes|
  {
    if sizes != [] {
      WholeSum(sizes[1..]);
      BlocksAdd(sizes[0], Sum(sizes[1..]));
    }
  }

  // Over all volumes the loops stay below 100 exactly when their blocks reach no further
  // than 100 times the one percent; for volumes of whole blocks, and so in particular for a
  // single one, when the number of blocks is a multiple of 100.
  lemma NeverHundredIff(sizes: seq<nat>, tot: nat)
    requires Blocks(tot) >= 100 && Sum(sizes) == tot
    ensures Below(AllReports(sizes, 0, tot), 100) <==> Reach(sizes, 0) <= 100 * OnePct(tot)
    ensures WholeBlocks(sizes) || |sizes| == 1 ==>
              (Below(AllReports(sizes, 0, tot), 100) <==> Blocks(tot) % 100 == 0)
  {
    ReportsBelowIff(sizes, 0, tot, 100);
    Hundredths(Blocks(tot));
    if WholeBlocks(sizes) {
      ReachIsTheTotal(sizes, 0);
    } else if |sizes| == 1 {
      assert sizes[0] == Sum(sizes[1..]) + sizes[0] == tot;
    }
  }

  lemma Hundredths(n: nat)
    ensures n <= 100 * (n / 100) <==> n % 100 == 0
  {
  }

  // Below 800 sectors the one percent is zero and the first block divides by it.
  lemma DividesByZeroIff(tot: nat)
    ensures OnePct(tot) == 0 <==> tot < 800
  {
  }
}
