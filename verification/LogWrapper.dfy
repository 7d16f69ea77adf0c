/**
 The output splitter of logwrapper.c: bytes read from a child's terminal are cut
 into log lines through one fixed buffer whose unprocessed tail is slid to the front.

 `LogOf` is the log of the whole byte stream at once; `Cuts` says where the stored bytes are
 cut; `Parent` is the buffered loop, proved to log exactly `LogOf` of the stream for every way
 the reads can chop it.
 */
module LogWrapper {

  const BUFFER_SIZE := 4096
  // The longest run of bytes the buffer can hold beside its terminating NUL
  const LINE_MAX := BUFFER_SIZE - 1

  // One cut of the stream: the stored bytes, and whether a newline ended them.
  datatype Cut = Cut(text: string, newline: bool)

  // What "%s" prints of a buffer: everything before the first NUL.
  function CString(s: string): (r: string)
    ensures |r| <= |s| && r == s[..|r|] && '\0' !in r
    ensures |r| < |s| ==> s[|r|] == '\0'
  {
    if s == [] || s[0] == '\0' then [] else [s[0]] + CString(s[1..])
  }

  // A carriage return is stored as NUL; every other byte is stored as it is.
  function Stored(c: char): char {
    if c == '\r' then '\0' else c
  }

  function StoredAll(s: string): string {
    seq(|s|, i requires 0 <= i < |s| => Stored(s[i]))
  }

  // A chunk that needs no further rewriting once it lies in the buffer.
  predicate Clean(s: string) {
    '\r' !in s && '\n' !in s
  }

  // Where a stream is cut when `pending` is already waiting for its newline.
  function Cuts(s: string, pending: string): seq<Cut>
    requires |pending| <= LINE_MAX
    decreases |s|, |pending|
  {
    if |pending| == LINE_MAX then [Cut(pending, false)] + Cuts(s, "")
    else if s == [] then (if pending == [] then [] else [Cut(pending, false)])
    else if s[0] == '\n' then [Cut(pending, true)] + Cuts(s[1..], "")
    else Cuts(s[1..], pending + [Stored(s[0])])
  }

  // The log lines of a list of cuts.
  function Logged(cs: seq<Cut>): seq<string> {
    seq(|cs|, i requires 0 <= i < |cs| => CString(cs[i].text))
  }

  // The stored stream that a list of cuts came from.
  function Flatten(cs: seq<Cut>): string {
    if cs == [] then []
    else cs[0].text + (if cs[0].newline then "\n" else "") + Flatten(cs[1..])
  }

  // The shape of a proper list of cuts, with no reference to how it is found:
  // no newline inside a cut, a cut without a newline is full or is the last one.
  ghost predicate WellCut(cs: seq<Cut>) {
    forall i :: 0 <= i < |cs| ==>
      && Clean(cs[i].text)
      && |cs[i].text| <= LINE_MAX
      && (cs[i].newline ==> |cs[i].text| < LINE_MAX)
      && (!cs[i].newline ==> cs[i].text != [] && (i < |cs| - 1 ==> |cs[i].text| == LINE_MAX))
  }

  // ---------- The cuts lose nothing and are the only proper ones ----------

  lemma StoredSplit(s: string)
    requires s != []
    ensures StoredAll(s) == [Stored(s[0])] + StoredAll(s[1..])
  {
  }

  lemma WellCutCons(c: Cut, cs: seq<Cut>)
    requires Clean(c.text) && |c.text| <= LINE_MAX && WellCut(cs)
    requires if c.newline then |c.text| < LINE_MAX else |c.text| == LINE_MAX
    ensures WellCut([c] + cs)
  {
    var all := [c] + cs;
    forall i | 0 <= i < |all|
      ensures Clean(all[i].text) && |all[i].text| <= LINE_MAX
      ensures all[i].newline ==> |all[i].text| < LINE_MAX
      ensures !all[i].newline ==> all[i].text != [] && (i < |all| - 1 ==> |all[i].text| == LINE_MAX)
    {
      if i > 0 { assert all[i] == cs[i - 1]; }
    }
  }

  lemma {:induction false} CutsLoseNothing(s: string, pending: string)
    requires |pending| <= LINE_MAX && Clean(pending)
    ensures Flatten(Cuts(s, pending)) == pending + StoredAll(s)
    ensures WellCut(Cuts(s, pending))
    decreases |s|, |pending|
  {
    if |pending| == LINE_MAX {
      CutsLoseNothing(s, "");
      WellCutCons(Cut(pending, false), Cuts(s, ""));
      FlattenCons(Cut(pending, false), Cuts(s, ""));
    } else if s == [] {
      assert Flatten([]) == "";
    } else if s[0] == '\n' {
      StoredSplit(s);
      CutsLoseNothing(s[1..], "");
      WellCutCons(Cut(pending, true), Cuts(s[1..], ""));
      FlattenCons(Cut(pending, true), Cuts(s[1..], ""));
    } else {
      StoredSplit(s);
      CutsLoseNothing(s[1..], pending + [Stored(s[0])]);
    }
  }

  lemma FlattenCons(c: Cut, cs: seq<Cut>)
    ensures Flatten([c] + cs) == c.text + (if c.newline then "\n" else "") + Flatten(cs)
  {
    assert ([c] + cs)[1..] == cs;
  }

  // Feeding clean bytes only makes the waiting text longer.
  lemma {:induction false} CutsFeed(s: string, t: string, pending: string)
    requires Clean(s) && |pending| + |s| <= LINE_MAX
    ensures Cuts(s + t, pending) == Cuts(t, pending + s)
    decreases |s|
  {
    if s == [] {
      assert s + t == t && pending + s == pending;
    } else {
      assert (s + t)[0] == s[0] && (s + t)[1..] == s[1..] + t;
      assert s[0] in s && Stored(s[0]) == s[0];
      assert forall c :: c in s[1..] ==> c in s;
      CutsFeed(s[1..], t, pending + [s[0]]);
      assert pending + [s[0]] + s[1..] == pending + s;
    }
  }

  // Reference definition: a proper list of cuts is determined by the text it flattens
  // to, so `Cuts` is the only answer whatever reads produced the stream.
  lemma {:induction false} CutsAreUnique(cs: seq<Cut>)
    requires WellCut(cs)
    ensures Cuts(Flatten(cs), "") == cs
    decreases |cs|
  {
    if cs != [] {
      var c, rest := cs[0], cs[1..];
      assert WellCut(rest) by {
        forall i | 0 <= i < |rest| ensures rest[i] == cs[i + 1] {}
      }
      CutsAreUnique(rest);
      NextCut(c, Flatten(rest));
      assert cs == [c] + rest;
    }
  }

  lemma NextCut(c: Cut, after: string)
    requires Clean(c.text) && |c.text| <= LINE_MAX && (c.newline ==> |c.text| < LINE_MAX)
    requires !c.newline ==> c.text != [] && (|c.text| == LINE_MAX || after == "")
    ensures Cuts(c.text + (if c.newline then "\n" else "") + after, "") == [c] + Cuts(after, "")
  {
    var tail := (if c.newline then "\n" else "") + after;
    assert c.text + (if c.newline then "\n" else "") + after == c.text + tail;
    CutsFeed(c.text, tail, "");
    assert "" + c.text == c.text;
    CutNow(c, after);
  }

  // A text that waits is cut at a newline, when it is full, or at the end of the stream.
  lemma CutNow(c: Cut, after: string)
    requires |c.text| <= LINE_MAX && (c.newline ==> |c.text| < LINE_MAX)
    requires !c.newline ==> c.text != [] && (|c.text| == LINE_MAX || after == "")
    ensures Cuts((if c.newline then "\n" else "") + after, c.text) == [c] + Cuts(after, "")
  {
    var tail := (if c.newline then "\n" else "") + after;
    if c.newline {
      assert tail[0] == '\n' && tail[1..] == after;
    } else {
      assert tail == after;
    }
  }

  // ---------- The log on the bytes of the stream ----------

  // What is shown of a line: its bytes before the first return or NUL.
  function Shown(line: string): (r: string)
    ensures |r| <= |line| && r == line[..|r|] && '\r' !in r && '\0' !in r
    ensures |r| < |line| ==> line[|r|] == '\r' || line[|r|] == '\0'
  {
    if line == [] || line[0] == '\r' || line[0] == '\0' then [] else [line[0]] + Shown(line[1..])
  }

  // Where the first line of a stream ends: at its newline, after LINE_MAX bytes, or with it
  function LineEnd(s: string, max: nat): (n: nat)
    ensures n <= |s| && n <= max && '\n' !in s[..n]
    ensures n < |s| && n < max ==> s[n] == '\n'
    decreases max
  {
    if s == [] || max == 0 || s[0] == '\n' then 0 else 1 + LineEnd(s[1..], max - 1)
  }

  // What follows the first line: a newline that ends it is skipped; one right behind a line
  // that was full ends an empty line.
  function Rest(s: string): (r: string)
    requires s != []
    ensures |r| < |s|
  {
    var n := LineEnd(s, LINE_MAX);
    if n < |s| && n < LINE_MAX then s[n + 1..] else s[n..]
  }

  // The log of a stream: of each line the part that is shown
  function LogOf(s: string): (log: seq<string>)
    ensures s == [] <==> log == []
  {
    if s == [] then [] else [Shown(s[..LineEnd(s, LINE_MAX)])] + LogOf(Rest(s))
  }

  // A stream of one line, not longer than the buffer holds, with its newline or without
  lemma OneLine(s: string)
    requires s != [] && '\n' !in s && |s| <= LINE_MAX
    ensures LogOf(s) == [Shown(s)]
    ensures |s| < LINE_MAX ==> LogOf(s + "\n") == [Shown(s)]
  {
    WholeLine(s, LINE_MAX);
    FirstAndLast(s, |s|);
    assert s[..|s|] == s;
    if |s| < LINE_MAX {
      var t := s + "\n";
      WholeLine(t, LINE_MAX);
      FirstAndLast(t, |s|);
      assert t[..|s|] == s;
    }
  }

  lemma FirstAndLast(s: string, n: nat)
    requires s != [] && n == LineEnd(s, LINE_MAX) && (n == |s| || (n == |s| - 1 && n < LINE_MAX))
    ensures LogOf(s) == [Shown(s[..n])]
  {
    assert Rest(s) == "";
  }

  lemma {:induction false} WholeLine(s: string, max: nat)
    ensures '\n' !in s && |s| <= max ==> LineEnd(s, max) == |s|
    ensures s != [] && '\n' !in s[..|s| - 1] && |s| - 1 <= max && s[|s| - 1] == '\n' ==> LineEnd(s, max) == |s| - 1
  {
  }

  lemma {:induction false} ShownIsPrinted(s: string)
    ensures CString(StoredAll(s)) == Shown(s)
  {
    if s != [] {
      StoredSplit(s);
      ShownIsPrinted(s[1..]);
    }
  }

  // Bytes without a newline only make the waiting text longer.
  lemma {:induction false} CutsWait(s: string, t: string, pending: string)
    requires '\n' !in s && |pending| + |s| <= LINE_MAX
    ensures Cuts(s + t, pending) == Cuts(t, pending + StoredAll(s))
    decreases |s|
  {
    if s == [] {
      assert s + t == t && pending + StoredAll(s) == pending;
    } else {
      assert (s + t)[0] == s[0] && (s + t)[1..] == s[1..] + t && s[0] in s;
      StoredSplit(s);
      CutsWait(s[1..], t, pending + [Stored(s[0])]);
      assert pending + [Stored(s[0])] + StoredAll(s[1..]) == pending + StoredAll(s);
    }
  }

  // The log of the cuts is that reference.
  lemma {:induction false} LogIsTheReference(s: string)
    ensures Logged(Cuts(s, "")) == LogOf(s)
  {
    if s == [] {
      assert Cuts(s, "") == [];
    } else {
      var n := LineEnd(s, LINE_MAX);
      var newline := n < |s| && n < LINE_MAX;
      var rest := Rest(s);
      FirstCut(s, n);
      ShownIsPrinted(s[..n]);
      LoggedCons(Cut(StoredAll(s[..n]), newline), Cuts(rest, ""));
      LogIsTheReference(rest);
    }
  }

  lemma FirstCut(s: string, n: nat)
    requires s != [] && n == LineEnd(s, LINE_MAX)
    ensures var newline := n < |s| && n < LINE_MAX;
            Cuts(s, "") == [Cut(StoredAll(s[..n]), newline)] + Cuts(Rest(s), "")
  {
    var newline := n < |s| && n < LINE_MAX;
    Apart(s, n, newline);
    LineThenRest(s[..n], newline, Rest(s));
  }

  lemma Apart(s: string, n: nat, newline: bool)
    requires n <= |s| && (newline ==> n < |s| && s[n] == '\n')
    ensures s[..n] + (if newline then "\n" else "") + s[if newline then n + 1 else n..] == s
  {
  }

  lemma LineThenRest(line: string, newline: bool, rest: string)
    requires '\n' !in line && |line| <= LINE_MAX && (newline ==> |line| < LINE_MAX)
    requires !newline ==> line != [] && (|line| == LINE_MAX || rest == "")
    ensures Cuts(line + (if newline then "\n" else "") + rest, "") == [Cut(StoredAll(line), newline)] + Cuts(rest, "")
  {
    var tail := (if newline then "\n" else "") + rest;
    assert line + (if newline then "\n" else "") + rest == line + tail;
    CutsWait(line, tail, "");
    assert "" + StoredAll(line) == StoredAll(line);
    CutNow(Cut(StoredAll(line), newline), rest);
  }

  lemma LoggedCons(c: Cut, cs: seq<Cut>)
    ensures Logged([c] + cs) == [CString(c.text)] + Logged(cs)
  {
  }

  // ---------- The buffered loop ----------

  // Printing a NUL-terminated piece of the buffer prints the piece up to its own first NUL.
  lemma {:induction false} CStringStops(s: string, n: nat)
    requires n < |s| && s[n] == '\0'
    ensures CString(s) == CString(s[..n])
    decreases n
  {
    if n > 0 && s[0] != '\0' {
      CStringStops(s[1..], n - 1);
      assert s[..n][1..] == s[1..][..n - 1];
    }
  }

  lemma LogPiece(buffer: array<char>, a: nat, b: nat)
    requires a <= b < buffer.Length && buffer[b] == '\0'
    ensures CString(buffer[a..]) == CString(buffer[a..b])
  {
    CStringStops(buffer[a..], b - a);
    assert buffer[a..][..b - a] == buffer[a..b];
  }

  lemma LoggedAppend(xs: seq<Cut>, c: Cut)
    ensures Logged(xs + [c]) == Logged(xs) + [CString(c.text)]
  {
  }

  // One turn of the line loop, on values: the byte at the front either ends the waiting
  // text or joins it.
  lemma CutsStep(done: seq<Cut>, c: char, rest: string, pending: string)
    requires |pending| < LINE_MAX
    ensures c == '\n' ==>
              done + Cuts([c] + rest, pending) == (done + [Cut(pending, true)]) + Cuts(rest, "")
    ensures c != '\n' ==>
              done + Cuts([c] + rest, pending) == done + Cuts(rest, pending + [Stored(c)])
  {
    assert ([c] + rest)[1..] == rest;
  }

  // The inner line loop: everything in buffer[..sz] is cut at its newlines.
  method SplitLines(buffer: array<char>, sz: nat, ghost rest: string, ghost done: seq<Cut>)
    returns (a: nat, b: nat, lines: seq<string>, ghost done': seq<Cut>)
    requires buffer.Length == BUFFER_SIZE && sz <= LINE_MAX
    modifies buffer
    ensures a <= b == sz && Clean(buffer[a..b])
    ensures Logged(done') == Logged(done) + lines
    ensures done' + Cuts(rest, buffer[a..b]) == done + Cuts(old(buffer[..sz]) + rest, "")
  {
    a, b, lines, done' := 0, 0, [], done;
    ghost var todo := buffer[..sz] + rest;
    ghost var goal := done + Cuts(todo, "");
    while b < sz
      invariant 0 <= a <= b <= sz && Clean(buffer[a..b])
      invariant todo == buffer[b..sz] + rest
      invariant Logged(done') == Logged(done) + lines
      invariant done' + Cuts(todo, buffer[a..b]) == goal
    {
      ghost var more := buffer[b + 1..sz] + rest;
      NextByte(buffer, b, sz, rest);
      var line;
      a, line, done' := OneByte(buffer, a, b, sz, more, done');
      lines := lines + line;
      b := b + 1;
      todo := more;
    }
    assert todo == rest;
  }

  lemma NextByte(buffer: array<char>, b: nat, sz: nat, rest: string)
    requires b < sz <= buffer.Length
    ensures buffer[b..sz] + rest == [buffer[b]] + (buffer[b + 1..sz] + rest)
  {
  }

  // One turn of the line loop: at most one line is logged, and the bytes beyond stay.
  method OneByte(buffer: array<char>, a: nat, b: nat, sz: nat, ghost more: string, ghost done: seq<Cut>)
    returns (a': nat, lines: seq<string>, ghost done': seq<Cut>)
    requires buffer.Length == BUFFER_SIZE && a <= b < sz <= LINE_MAX && Clean(buffer[a..b])
    modifies buffer
    ensures a' <= b + 1 && Clean(buffer[a'..b + 1])
    ensures buffer[b + 1..sz] == old(buffer[b + 1..sz])
    ensures Logged(done') == Logged(done) + lines
    ensures done' + Cuts(more, buffer[a'..b + 1]) == done + Cuts([old(buffer[b])] + more, old(buffer[a..b]))
  {
    a', lines, done' := a, [], done;
    ghost var c, pending := buffer[b], buffer[a..b];
    CutsStep(done, c, more, pending);
    if buffer[b] == '\n' {
      lines := LogLine(buffer, a, b);
      LoggedAppend(done, Cut(pending, true));
      done' := done + [Cut(pending, true)];
      a' := b + 1;
    } else {
      if buffer[b] == '\r' {
        buffer[b] := '\0';
      }
      assert buffer[a..b + 1] == pending + [Stored(c)];
    }
  }

  // The text from a to b is terminated and printed.
  method LogLine(buffer: array<char>, a: nat, b: nat) returns (lines: seq<string>)
    requires a <= b < buffer.Length
    modifies buffer
    ensures lines == [CString(old(buffer[a..b]))]
    ensures forall i :: 0 <= i < buffer.Length && i != b ==> buffer[i] == old(buffer[i])
  {
    buffer[b] := '\0';
    LogPiece(buffer, a, b);
    assert buffer[a..b] == old(buffer[a..b]);
    lines := [CString(buffer[a..])];
  }

  // What follows the line loop: a full buffer is flushed, a tail is slid to the front.
  method KeepOrFlush(buffer: array<char>, a: nat, b: nat, ghost rest: string, ghost done: seq<Cut>)
    returns (a': nat, b': nat, lines: seq<string>, ghost done': seq<Cut>)
    requires buffer.Length == BUFFER_SIZE && a <= b <= LINE_MAX && Clean(buffer[a..b])
    modifies buffer
    ensures a' == 0 && b' < LINE_MAX && Clean(buffer[..b'])
    ensures Logged(done') == Logged(done) + lines
    ensures done' + Cuts(rest, buffer[..b']) == done + Cuts(rest, old(buffer[a..b]))
  {
    a', b', lines, done' := a, b, [], done;
    if a == 0 && b == BUFFER_SIZE - 1 {
      ghost var full := Cut(buffer[a..b], false);
      assert Cuts(rest, full.text) == [full] + Cuts(rest, "");
      lines := LogLine(buffer, a, b);
      LoggedAppend(done, full);
      done' := done + [full];
      b' := 0;
    } else if a != b {
      a', b' := KeepLeftOvers(buffer, a, b);
    } else {
      a', b' := 0, 0;
      assert buffer[..0] == buffer[a..b];
    }
  }

  // Reads whatever the terminal delivers, in pieces of any size from 1 up to the free
  // space, and logs line by line. `log` depends on the stream alone.
  method Parent(stream: string) returns (log: seq<string>)
    ensures log == LogOf(stream)
  {
    LogIsTheReference(stream);
    var buffer := new char[BUFFER_SIZE](_ => '\0');
    var a, b, pos := 0, 0, 0;
    ghost var done: seq<Cut> := [];
    log := [];
    assert stream[0..] == stream && buffer[..0] == "";
    while pos < |stream|
      invariant a == 0 && 0 <= b < LINE_MAX && pos <= |stream|
      invariant Clean(buffer[..b])
      invariant log == Logged(done)
      invariant done + Cuts(stream[pos..], buffer[..b]) == Cuts(stream, "")
      decreases |stream| - pos
    {
      // read(): any size from 1 up to the free space
      var sz :| 1 <= sz <= LINE_MAX - b && sz <= |stream| - pos;
      var lines;
      b, lines, done := OneRead(buffer, b, stream, pos, sz, done);
      pos := pos + sz;
      log := log + lines;
    }
    if a != b {
      ghost var last := Cut(buffer[a..b], false);
      var line := LogLine(buffer, a, b);
      log := log + line;
      LoggedAppend(done, last);
    }
  }

  // One read and what is done about it
  method OneRead(buffer: array<char>, b: nat, stream: string, pos: nat, sz: nat, ghost done: seq<Cut>)
    returns (b': nat, lines: seq<string>, ghost done': seq<Cut>)
    requires buffer.Length == BUFFER_SIZE && b + sz <= LINE_MAX && pos + sz <= |stream|
    requires Clean(buffer[..b])
    modifies buffer
    ensures b' < LINE_MAX && Clean(buffer[..b'])
    ensures Logged(done') == Logged(done) + lines
    ensures done' + Cuts(stream[pos + sz..], buffer[..b']) == done + Cuts(stream[pos..], old(buffer[..b]))
  {
    Deliver(buffer, b, stream, pos, sz);
    var a, end, split := 0, 0, [];
    a, end, split, done' := SplitLines(buffer, b + sz, stream[pos + sz..], done);
    a, b', lines, done' := KeepOrFlush(buffer, a, end, stream[pos + sz..], done');
    lines := split + lines;
  }

  // The bytes of one read() land behind the `b` bytes that are waiting.
  method Deliver(buffer: array<char>, b: nat, stream: string, pos: nat, sz: nat)
    requires buffer.Length == BUFFER_SIZE && b + sz <= LINE_MAX && pos + sz <= |stream|
    requires Clean(buffer[..b])
    modifies buffer
    ensures Cuts(buffer[..b + sz] + stream[pos + sz..], "") == Cuts(stream[pos..], old(buffer[..b]))
  {
    forall k | 0 <= k < sz {
      buffer[b + k] := stream[pos + k];
    }
    ghost var left := old(buffer[..b]);
    assert buffer[..b + sz] + stream[pos + sz..] == left + stream[pos..];
    CutsFeed(left, stream[pos..], "");
    assert "" + left == left;
  }

  // memmove of the unprocessed tail to the front
  method KeepLeftOvers(buffer: array<char>, a: nat, b: nat) returns (a': nat, b': nat)
    requires a <= b <= buffer.Length
    modifies buffer
    ensures a' == 0 && b' == b - a && buffer[..b'] == old(buffer[a..b])
  {
    b' := b - a;
    forall k | 0 <= k < b' {
      buffer[k] := buffer[a + k];
    }
    a' := 0;
  }
}
