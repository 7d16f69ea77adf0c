/**
 The table of persistent fields kept in memory by cryptfs.c: a header followed by a
 counted array of fixed-size key and value strings, searched from the front and only
 ever updated in place or extended at the end.

 `Put` and `Get` are the value-level specification; the class is the array the source
 mutates. Seen from outside the table is a bounded map, but only for keys that fit
 their field: a longer key is stored cut and is then never found again.
 */
module PersistTable {
  import opened Basics

  const KEY_MAX := 32    // PROPERTY_KEY_MAX, with the terminating NUL
  const VALUE_MAX := 92  // PROPERTY_VALUE_MAX, with the terminating NUL
  const HEADER_BYTES := 128
  const ENTRY_BYTES := 124
  const PERSIST_DATA_SIZE := 0x1000

  type CString = s: string | '\0' !in s witness ""

  datatype Entry = Entry(key: CString, val: CString)

  type Table = seq<Entry>

  // strlcpy into a field of n bytes
  function Cut(s: CString, n: nat): (r: CString)
    requires n > 0
  {
    if |s| < n then s else s[..n - 1]
  }

  // strncmp(a, b, n) == 0
  predicate SameUpTo(a: CString, b: CString, n: nat) {
    if |a| < n || |b| < n then a == b else a[..n] == b[..n]
  }

  // The number of entries a table of dsize bytes has room for, in unsigned arithmetic.
  function MaxEntries(dsize: nat): nat
    requires dsize < TWO_TO_THE_32
  {
    ((dsize - HEADER_BYTES) % TWO_TO_THE_32) / ENTRY_BYTES
  }

  // The first entry that matches, or the length of the table.
  function Find(t: Table, key: CString): (i: nat)
    ensures i <= |t|
    ensures i < |t| ==> SameUpTo(t[i].key, key, KEY_MAX)
    ensures forall j :: 0 <= j < i ==> !SameUpTo(t[j].key, key, KEY_MAX)
  {
    if t == [] || SameUpTo(t[0].key, key, KEY_MAX) then 0 else 1 + Find(t[1..], key)
  }

  function Get(t: Table, key: CString): Option<CString> {
    var i := Find(t, key);
    if i < |t| then Some(t[i].val) else None
  }

  // None stands for the error return.
  function Put(t: Table, key: CString, val: CString, max: nat): Option<Table> {
    var i := Find(t, key);
    if i < |t| then Some(t[i := t[i].(val := Cut(val, VALUE_MAX))])
    else if |t| < max then Some(t + [Entry(Cut(key, KEY_MAX), Cut(val, VALUE_MAX))])
    else None
  }

  // Every stored string leaves room for its NUL, and no key occurs twice.
  ghost predicate WellFormed(t: Table) {
    && (forall i :: 0 <= i < |t| ==> |t[i].key| < KEY_MAX && |t[i].val| < VALUE_MAX)
    && (forall i, j :: 0 <= i < j < |t| ==> t[i].key != t[j].key)
  }

  // Each entry is in the map, and each key of the map is in an entry.
  ghost predicate Reads(t: Table, m: map<CString, CString>) {
    forall i :: 0 <= i < |t| ==> t[i].key in m && m[t[i].key] == t[i].val
  }

  ghost predicate Covers(t: Table, m: map<CString, CString>) {
    forall k :: k in m ==> exists i :: 0 <= i < |t| && t[i].key == k
  }

  // Table t stands for map m.
  ghost predicate Represents(t: Table, m: map<CString, CString>) {
    |m| == |t| && Reads(t, m) && Covers(t, m)
  }

  // ---------- Refinement of a bounded map ----------

  lemma FindIsExact(t: Table, m: map<CString, CString>, key: CString)
    requires WellFormed(t) && Represents(t, m)
    ensures |key| < KEY_MAX ==> (Find(t, key) < |t| <==> key in m)
    ensures Find(t, key) < |t| ==> t[Find(t, key)].key == key
    ensures |key| >= KEY_MAX ==> Find(t, key) == |t|
  {
    if |key| < KEY_MAX && key in m {
      var i :| 0 <= i < |t| && t[i].key == key;
      assert SameUpTo(t[i].key, key, KEY_MAX);
    }
  }

  lemma GetReadsTheMap(t: Table, m: map<CString, CString>, key: CString)
    requires WellFormed(t) && Represents(t, m)
    ensures |key| < KEY_MAX ==> Get(t, key) == if key in m then Some(m[key]) else None
    ensures |key| >= KEY_MAX ==> Get(t, key) == None
  {
    FindIsExact(t, m, key);
  }

  lemma ReplaceKeepsTheMap(t: Table, m: map<CString, CString>, i: nat, v: CString)
    requires WellFormed(t) && Represents(t, m) && i < |t| && |v| < VALUE_MAX
    ensures var t' := t[i := t[i].(val := v)];
            WellFormed(t') && Represents(t', m[t[i].key := v])
  {
    ReplacedCount(m, t[i].key, v);
    ReplacedValues(t, m, i, v);
    ReplacedKeys(t, m, i, v);
    ReplacedIsWellFormed(t, i, v);
  }

  lemma ReplacedCount(m: map<CString, CString>, k: CString, v: CString)
    requires k in m
    ensures m[k := v].Keys == m.Keys && |m[k := v]| == |m|
  {
    var m' := m[k := v];
    assert m'.Keys == m.Keys;
    assert |m'| == |m'.Keys| && |m| == |m.Keys|;
  }

  lemma ReplacedIsWellFormed(t: Table, i: nat, v: CString)
    requires WellFormed(t) && i < |t| && |v| < VALUE_MAX
    ensures WellFormed(t[i := t[i].(val := v)])
  {
  }

  lemma ReplacedValues(t: Table, m: map<CString, CString>, i: nat, v: CString)
    requires WellFormed(t) && Reads(t, m) && i < |t|
    ensures Reads(t[i := t[i].(val := v)], m[t[i].key := v])
  {
    assert forall j :: 0 <= j < |t| && j != i ==> t[j].key != t[i].key;
  }

  lemma ReplacedKeys(t: Table, m: map<CString, CString>, i: nat, v: CString)
    requires Covers(t, m) && i < |t| && t[i].key in m
    ensures Covers(t[i := t[i].(val := v)], m[t[i].key := v])
  {
    var t', m' := t[i := t[i].(val := v)], m[t[i].key := v];
    assert forall j :: 0 <= j < |t| ==> t'[j].key == t[j].key;
    forall k | k in m' ensures exists j :: 0 <= j < |t'| && t'[j].key == k {
      assert k in m;
      var j :| 0 <= j < |t| && t[j].key == k;
      assert t'[j].key == k;
    }
  }

  lemma AppendExtendsTheMap(t: Table, m: map<CString, CString>, e: Entry)
    requires WellFormed(t) && Represents(t, m)
    requires e.key !in m && |e.key| < KEY_MAX && |e.val| < VALUE_MAX
    ensures WellFormed(t + [e]) && Represents(t + [e], m[e.key := e.val])
  {
    AppendedIsWellFormed(t, m, e);
    AppendedValues(t, m, e);
    AppendedKeys(t, m, e);
    AppendedCount(m, e.key, e.val);
  }

  lemma AppendedCount(m: map<CString, CString>, k: CString, v: CString)
    requires k !in m
    ensures |m[k := v]| == |m| + 1
  {
    var m' := m[k := v];
    assert m'.Keys == m.Keys + {k};
    assert |m'| == |m'.Keys| && |m| == |m.Keys|;
  }

  lemma AppendedIsWellFormed(t: Table, m: map<CString, CString>, e: Entry)
    requires WellFormed(t) && Reads(t, m)
    requires e.key !in m && |e.key| < KEY_MAX && |e.val| < VALUE_MAX
    ensures WellFormed(t + [e])
  {
    assert forall i :: 0 <= i < |t| ==> t[i].key in m;
  }

  lemma AppendedValues(t: Table, m: map<CString, CString>, e: Entry)
    requires Reads(t, m) && e.key !in m
    ensures Reads(t + [e], m[e.key := e.val])
  {
    assert forall i :: 0 <= i < |t| ==> t[i].key in m;
  }

  lemma AppendedKeys(t: Table, m: map<CString, CString>, e: Entry)
    requires Covers(t, m)
    ensures Covers(t + [e], m[e.key := e.val])
  {
    var t', m' := t + [e], m[e.key := e.val];
    forall k | k in m' ensures exists i :: 0 <= i < |t'| && t'[i].key == k {
      if k == e.key {
        assert t'[|t|].key == k;
      } else {
        var i :| 0 <= i < |t| && t[i].key == k;
        assert t'[i].key == k;
      }
    }
  }

  // Setting a field of a key that fits is a map update, and fails exactly for a new key
  // on a full table.
  lemma PutUpdatesTheMap(t: Table, m: map<CString, CString>, key: CString, val: CString, max: nat)
    requires WellFormed(t) && Represents(t, m) && |t| <= max && |key| < KEY_MAX
    ensures Put(t, key, val, max).None? <==> key !in m && |m| == max
    ensures Put(t, key, val, max).Some? ==>
              var t' := Put(t, key, val, max).value;
              WellFormed(t') && |t'| <= max && Represents(t', m[key := Cut(val, VALUE_MAX)])
  {
    FindIsExact(t, m, key);
    var i := Find(t, key);
    if i < |t| {
      ReplaceKeepsTheMap(t, m, i, Cut(val, VALUE_MAX));
    } else {
      AppendExtendsTheMap(t, m, Entry(key, Cut(val, VALUE_MAX)));
    }
  }

  // get after set gives back the (cut) value exactly when the key fits its field.
  lemma GetAfterPut(t: Table, m: map<CString, CString>, key: CString, val: CString, max: nat)
    requires WellFormed(t) && Represents(t, m) && |t| <= max && Put(t, key, val, max).Some?
    ensures Get(Put(t, key, val, max).value, key) == Some(Cut(val, VALUE_MAX)) <==> |key| < KEY_MAX
  {
    var t' := Put(t, key, val, max).value;
    FindIsExact(t, m, key);
    if |key| < KEY_MAX {
      PutUpdatesTheMap(t, m, key, val, max);
      GetReadsTheMap(t', m[key := Cut(val, VALUE_MAX)], key);
    } else {
      assert forall i :: 0 <= i < |t'| ==> |t'[i].key| < KEY_MAX;
    }
  }

  // Two settings of one long key leave two entries with the same stored key.
  lemma LongKeyIsStoredTwice(key: CString, v: CString, w: CString)
    requires |key| >= KEY_MAX
    ensures var t1 := Put([], key, v, 2).value;
            var t2 := Put(t1, key, w, 2);
            && t2.Some? && |t2.value| == 2
            && t2.value[0].key == t2.value[1].key == key[..KEY_MAX - 1]
            && !WellFormed(t2.value)
  {
    var t1 := Put([], key, v, 2).value;
    assert t1 == [Entry(Cut(key, KEY_MAX), Cut(v, VALUE_MAX))];
    assert Find(t1, key) == 1;
  }

  // A whole history of settings and the bounded map it stands for.
  datatype Setting = Setting(key: CString, val: CString)

  function PutAll(t: Table, history: seq<Setting>, max: nat): Table {
    if history == [] then t
    else
      var s := history[|history| - 1];
      var before := PutAll(t, history[..|history| - 1], max);
      match Put(before, s.key, s.val, max)
      case Some(t') => t'
      case None => before
  }

  ghost function MapAll(m: map<CString, CString>, history: seq<Setting>, max: nat): map<CString, CString> {
    if history == [] then m
    else
      var s := history[|history| - 1];
      var before := MapAll(m, history[..|history| - 1], max);
      if s.key !in before && |before| == max then before else before[s.key := Cut(s.val, VALUE_MAX)]
  }

  lemma {:induction false} HistoryRefinesTheMap(t: Table, m: map<CString, CString>, history: seq<Setting>, max: nat)
    requires WellFormed(t) && Represents(t, m) && |t| <= max
    requires forall i :: 0 <= i < |history| ==> |history[i].key| < KEY_MAX
    ensures var t' := PutAll(t, history, max);
            WellFormed(t') && |t'| <= max && Represents(t', MapAll(m, history, max))
  {
    if history != [] {
      var s, front := history[|history| - 1], history[..|history| - 1];
      HistoryRefinesTheMap(t, m, front, max);
      PutUpdatesTheMap(PutAll(t, front, max), MapAll(m, front, max), s.key, s.val, max);
    }
  }

  // Every table the capacity admits lies inside its dsize bytes, exactly when the bytes
  // hold the header: below that the unsigned subtraction wraps to an enormous capacity.
  lemma TableFitsItsBytes(dsize: nat)
    requires dsize < TWO_TO_THE_32
    ensures (forall n: nat :: n <= MaxEntries(dsize) ==> HEADER_BYTES + n * ENTRY_BYTES <= dsize)
            <==> HEADER_BYTES <= dsize
    ensures HEADER_BYTES <= dsize ==> HEADER_BYTES + (MaxEntries(dsize) + 1) * ENTRY_BYTES > dsize
    ensures MaxEntries(PERSIST_DATA_SIZE) == 32
  {
    if dsize < HEADER_BYTES {
      assert (dsize - HEADER_BYTES) % TWO_TO_THE_32 == dsize - HEADER_BYTES + TWO_TO_THE_32;
      assert MaxEntries(dsize) >= 1;
      assert !(HEADER_BYTES + MaxEntries(dsize) * ENTRY_BYTES <= dsize);
    }
  }

  // ---------- Reading what was set ----------

  // Setting a key that fits is read back cut to its field, and changes no other key;
  // whatever the table holds.
  lemma PutIsRead(t: Table, key: CString, val: CString, max: nat, other: CString)
    requires |key| < KEY_MAX && Put(t, key, val, max).Some?
    ensures var t' := Put(t, key, val, max).value;
            && Get(t', key) == Some(Cut(val, VALUE_MAX))
            && (other != key ==> Get(t', other) == Get(t, other))
  {
    var t', i := Put(t, key, val, max).value, Find(t, key);
    assert forall j :: 0 <= j < |t| ==> t'[j].key == t[j].key;
    if i < |t| {
      assert t'[i].key == key;
    } else {
      assert t'[|t|].key == key;
    }
    SameFound(t, t', key);
    if other != key {
      assert !SameUpTo(key, other, KEY_MAX);
      SameFound(t, t', other);
    }
  }

  // A key is found at the same place after the table has grown at its end.
  lemma SameFound(t: Table, t': Table, key: CString)
    requires |t| <= |t'| && forall j :: 0 <= j < |t| ==> t'[j].key == t[j].key
    ensures Find(t, key) < |t| ==> Find(t', key) == Find(t, key)
    ensures Find(t, key) == |t| ==> Find(t', key) >= |t|
  {
  }

  // ---------- The array in memory ----------

  class PersistData {
    var entries: array<Entry>  // the allocated entry slots
    var valid: nat             // persist_valid_entries

    ghost predicate Valid()
      reads this
    {
      valid <= entries.Length
    }

    ghost function Contents(): Table
      reads this, entries
      requires Valid()
    {
      entries[..valid]
    }

    // An empty table in dsize bytes of memory
    constructor (dsize: nat)
      requires HEADER_BYTES <= dsize
      ensures Valid() && fresh(entries) && Contents() == []
      ensures entries.Length == (dsize - HEADER_BYTES) / ENTRY_BYTES
    {
      entries := new Entry[(dsize - HEADER_BYTES) / ENTRY_BYTES](_ => Entry("", ""));
      valid := 0;
    }

    // persist_get_key: rc is 0 when found and -1 otherwise
    method GetKey(fieldname: CString) returns (rc: int, value: CString)
      requires Valid()
      ensures rc == 0 || rc == -1
      ensures Get(Contents(), fieldname) == if rc == 0 then Some(value) else None
    {
      rc, value := -1, "";
      for i := 0 to valid
        invariant forall j :: 0 <= j < i ==> !SameUpTo(entries[j].key, fieldname, KEY_MAX)
      {
        if SameUpTo(entries[i].key, fieldname, KEY_MAX) {
          assert Find(Contents(), fieldname) == i;
          return 0, entries[i].val;
        }
      }
      assert Find(Contents(), fieldname) == valid;
    }

    // persist_set_key: dsize is the size of the copy on disk, or the compiled-in size
    method SetKey(fieldname: CString, value: CString, dsize: nat) returns (rc: int)
      requires Valid() && dsize < TWO_TO_THE_32
      requires MaxEntries(dsize) <= entries.Length
      modifies this, entries
      ensures Valid() && entries == old(entries)
      ensures rc == 0 <==> Put(old(Contents()), fieldname, value, MaxEntries(dsize)).Some?
      ensures rc == 0 || rc == -1
      ensures Contents() == match Put(old(Contents()), fieldname, value, MaxEntries(dsize))
                            case Some(t) => t
                            case None => old(Contents())
    {
      var max := MaxEntries(dsize);
      var num := valid;
      for i := 0 to num
        invariant valid == num && Contents() == old(Contents())
        invariant forall j :: 0 <= j < i ==> !SameUpTo(entries[j].key, fieldname, KEY_MAX)
      {
        if SameUpTo(entries[i].key, fieldname, KEY_MAX) {
          assert Find(Contents(), fieldname) == i;
          entries[i] := entries[i].(val := Cut(value, VALUE_MAX));
          return 0;
        }
      }
      assert Find(Contents(), fieldname) == num;
      if valid < max {
        entries[num] := Entry(Cut(fieldname, KEY_MAX), Cut(value, VALUE_MAX));
        valid := valid + 1;
        return 0;
      }
      return -1;
    }
  }
}
