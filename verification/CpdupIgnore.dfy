/** How cpdup reads the file with names to ignore (ScanDir in cpdup.c): through a buffer of 8192 bytes, keeping
    an unfinished line from one read to the next, on this host or through hc_read. */
module CpdupIgnore {
  import opened CpdupWire
  import CpdupDir
  import CpdupFile
  import CpdupList

  const GETBUFSIZE: nat := 8192
  /** The longest line that the buffer holds. */
  const LONGEST: nat := 8191
  const NEWLINE: Byte := 10

  // ----- lines

  /** The first newline is at n, or there is none and n is the length. */
  predicate LineEnds(s: Bytes, n: nat) {
    n <= |s| && (n < |s| ==> s[n] == NEWLINE) && forall i :: 0 <= i < n ==> s[i] != NEWLINE
  }

  /** The length of the first line. */
  function LineLen(s: Bytes): (n: nat)
    ensures n <= |s| && LineEnds(s, n)
  {
    if s == [] || s[0] == NEWLINE then 0 else 1 + LineLen(s[1..])
  }

  lemma LineLenIs(s: Bytes, n: nat)
    requires n <= |s| && (n < |s| ==> s[n] == NEWLINE) && forall i :: 0 <= i < n ==> s[i] != NEWLINE
    ensures LineLen(s) == n
  {
  }

  /** The lines of a file; the last need not end in a newline. */
  function Lines(s: Bytes): seq<Bytes>
    decreases |s|
  {
    var n := LineLen(s);
    if n < |s| then [s[..n]] + Lines(s[n + 1..]) else if s == [] then [] else [s]
  }

  /** What becomes of them: a line that fills the buffer is cut, and ends the reading. */
  function Taken(s: Bytes): seq<Bytes>
    decreases |s|
  {
    var n := LineLen(s);
    if n >= LONGEST then [s[..LONGEST]]
    else if n < |s| then [s[..n]] + Taken(s[n + 1..])
    else if s == [] then [] else [s]
  }

  /** The lines that have ended, and what stands behind them. */
  function Ended(s: Bytes): seq<Bytes>
    decreases |s|
  {
    var n := LineLen(s);
    if n < |s| then [s[..n]] + Ended(s[n + 1..]) else []
  }

  function Open(s: Bytes): (r: Bytes)
    ensures |r| <= |s| && NEWLINE !in r
    decreases |s|
  {
    var n := LineLen(s);
    if n < |s| then Open(s[n + 1..]) else s
  }

  /** No line fills the buffer, except that the last may just do so. */
  predicate Fitting(ls: seq<Bytes>) {
    forall i :: 0 <= i < |ls| ==> |ls[i]| < LONGEST || (i == |ls| - 1 && |ls[i]| == LONGEST)
  }

  /** All lines are shorter than the buffer. */
  predicate Short(file: Bytes) {
    forall i :: 0 <= i < |Lines(file)| ==> |Lines(file)[i]| < LONGEST
  }

  lemma FittingCons(l: Bytes, ls: seq<Bytes>)
    ensures Fitting([l] + ls) <==> (|l| < LONGEST && Fitting(ls)) || (|l| == LONGEST && ls == [])
  {
    var all := [l] + ls;
    assert forall i :: 0 <= i < |ls| ==> ls[i] == all[i + 1];
    assert all[0] == l;
  }

  lemma LinesNone(s: Bytes)
    ensures Lines(s) == [] <==> s == []
  {
  }

  /** The names are the lines of the file, exactly when no line fills the buffer; a last line of just that
      length does no harm. */
  lemma {:induction false} TakenLines(s: Bytes)
    ensures Taken(s) == Lines(s) <==> Fitting(Lines(s))
    decreases |s|
  {
    hide LineLen, LineEnds, Fitting;
    var n := LineLen(s);
    if n < |s| {
      FittingCons(s[..n], Lines(s[n + 1..]));
      LinesNone(s[n + 1..]);
      if n < LONGEST {
        TakenLines(s[n + 1..]);
        SameTail(s[..n], Taken(s[n + 1..]), Lines(s[n + 1..]));
      } else {
        assert Lines(s)[0] == s[..n] && Taken(s)[0] == s[..LONGEST];
        if n == LONGEST && Lines(s[n + 1..]) != [] {
          assert |Lines(s)| > 1;
        }
      }
    } else if s == [] {
      FittingNone();
    } else {
      FittingCons(s, []);
      FittingNone();
      assert [s] + [] == [s];
      if n >= LONGEST {
        assert Taken(s)[0] == s[..LONGEST] && Lines(s)[0] == s;
        assert |s| == LONGEST ==> s[..LONGEST] == s;
      }
    }
  }

  /** Lines end in newlines, which are no part of them; an empty line is a line, nothing behind the last newline is none. */
  lemma LinesLaw(l: Bytes, rest: Bytes)
    requires 10 !in l
    ensures Lines(l + [10] + rest) == [l] + Lines(rest)
    ensures Lines(l) == if l == [] then [] else [l]
  {
    var s := l + [10] + rest;
    LineLenIs(s, |l|);
    LineLenIs(l, |l|);
    assert s[..|l|] == l && s[|l| + 1..] == rest;
  }

  lemma FittingNone()
    ensures Fitting([])
  {
  }

  lemma SameTail(l: Bytes, a: seq<Bytes>, b: seq<Bytes>)
    ensures [l] + a == [l] + b <==> a == b
  {
    if [l] + a == [l] + b {
      assert a == ([l] + a)[1..] && b == ([l] + b)[1..];
    }
  }

  /** A file that does not: a full line, its newline, and another line. */
  lemma LongLine(l: Bytes, m: Bytes)
    requires |l| == LONGEST && NEWLINE !in l && m != [] && NEWLINE !in m
    ensures Lines(l + [NEWLINE] + m) == [l, m] && Taken(l + [NEWLINE] + m) == [l]
  {
    var s := l + [NEWLINE] + m;
    LineLenIs(s, |l|);
    LineLenIs(m, |m|);
    assert s[..|l|] == l && s[|l| + 1..] == m;
  }

  // ----- what a read adds

  lemma HeadLine(t: Bytes, rest: Bytes)
    requires LineLen(t) < |t|
    ensures var n := LineLen(t);
            LineLen(t + rest) == n && (t + rest)[..n] == t[..n] && (t + rest)[n + 1..] == t[n + 1..] + rest
  {
    LineLenIs(t + rest, LineLen(t));
  }

  lemma LinesHead(s: Bytes, n: nat, l: Bytes, later: Bytes)
    requires n == LineLen(s) < |s| && l == s[..n] && later == s[n + 1..]
    ensures Lines(s) == [l] + Lines(later)
  {
    hide LineLen, LineEnds;
  }

  lemma TakenHead(s: Bytes, n: nat, l: Bytes, later: Bytes)
    requires n == LineLen(s) < |s| && l == s[..n] && later == s[n + 1..] && n < LONGEST
    ensures Taken(s) == [l] + Taken(later)
  {
    hide LineLen, LineEnds;
  }

  lemma EndedHead(s: Bytes, n: nat, l: Bytes, later: Bytes)
    requires n == LineLen(s) < |s| && l == s[..n] && later == s[n + 1..]
    ensures Ended(s) == [l] + Ended(later)
  {
    hide LineLen, LineEnds;
  }

  lemma OpenHead(s: Bytes, n: nat, later: Bytes)
    requires n == LineLen(s) < |s| && later == s[n + 1..]
    ensures Open(s) == Open(later)
  {
    hide LineLen, LineEnds;
  }

  lemma LinesLast(s: Bytes)
    requires LineLen(s) == |s|
    ensures Ended(s) == [] && Open(s) == s
  {
  }

  lemma Regroup(l: Bytes, a: seq<Bytes>, b: seq<Bytes>)
    ensures ([l] + a) + b == [l] + (a + b) && [] + b == b
  {
  }

  lemma Associative(a: seq<Bytes>, b: seq<Bytes>, c: seq<Bytes>)
    ensures a + (b + c) == (a + b) + c
  {
  }

  lemma {:induction false} LinesSplit(t: Bytes, rest: Bytes)
    ensures Lines(t + rest) == Ended(t) + Lines(Open(t) + rest)
    ensures |t| <= LONGEST ==> Taken(t + rest) == Ended(t) + Taken(Open(t) + rest)
    decreases |t|
  {
    hide LineLen, LineEnds, Lines, Taken, Ended, Open;
    var n := LineLen(t);
    if n < |t| {
      var l, later := t[..n], t[n + 1..];
      HeadLine(t, rest);
      EndedHead(t, n, l, later);
      OpenHead(t, n, later);
      LinesHead(t + rest, n, l, later + rest);
      if n < LONGEST {
        TakenHead(t + rest, n, l, later + rest);
      }
      LinesSplit(later, rest);
      Regroup(l, Ended(later), Lines(Open(later) + rest));
      Regroup(l, Ended(later), Taken(Open(later) + rest));
    } else {
      LinesLast(t);
      Regroup([], [], Lines(t + rest));
      Regroup([], [], Taken(t + rest));
    }
  }

  // ----- the code

  /** Neither a newline nor a NUL is among the first n bytes, and behind them one of the two. */
  predicate StopsAt(s: Bytes, n: nat, b: Byte) {
    n < |s| && s[n] == b && forall k :: 0 <= k < n ==> s[k] != NEWLINE && s[k] != 0
  }

  /** strchr from position from: a newline before the NUL, which is at used or before. */
  method FindNewline(buf: array<Byte>, from: nat, used: nat) returns (found: bool, i: nat)
    requires from <= used < buf.Length && buf[used] == 0
    ensures from <= i <= used && StopsAt(buf[from..used + 1], i - from, if found then NEWLINE else 0)
  {
    i := from;
    while buf[i] != 0 && buf[i] != NEWLINE
      invariant from <= i <= used && forall k :: from <= k < i ==> buf[k] != NEWLINE && buf[k] != 0
      decreases used - i
    {
      i := i + 1;
    }
    found := buf[i] == NEWLINE;
  }

  function CStr(s: Bytes): Bytes {
    CpdupDir.CString(s)
  }

  lemma {:induction false} CStrIs(s: Bytes, n: nat)
    requires n < |s| && s[n] == 0 && forall k :: 0 <= k < n ==> s[k] != 0
    ensures CStr(s) == s[..n]
  {
    if n > 0 {
      CStrIs(s[1..], n - 1);
    }
  }

  lemma {:induction false} CStrPast(s: Bytes, n: nat)
    requires n <= |s| && forall k :: 0 <= k < n ==> s[k] != 0
    ensures CStr(s) == s[..n] + CStr(s[n..])
  {
    if n == 0 {
      assert s[0..] == s;
    } else {
      CStrPast(s[1..], n - 1);
      assert s[1..][n - 1..] == s[n..];
    }
  }

  /** bcopy to the front of the buffer */
  method MoveFront(buf: array<Byte>, from: nat, n: nat)
    requires from + n <= buf.Length
    modifies buf
    ensures buf[..n] == old(buf[from..from + n])
  {
    for i := 0 to n
      invariant buf[..i] == old(buf[from..from + i]) && forall j :: i <= j < buf.Length ==> buf[j] == old(buf[j])
    {
      buf[i] := buf[from + i];
      assert buf[..i + 1] == buf[..i] + [buf[i]];
    }
  }

  lemma LineFound(s: Bytes, n: nat)
    requires n < |s| && s[n] == NEWLINE && forall k :: 0 <= k < n ==> s[k] != NEWLINE && s[k] != 0
    ensures Ended(CStr(s)) == [s[..n]] + Ended(CStr(s[n + 1..])) && Open(CStr(s)) == Open(CStr(s[n + 1..]))
  {
    hide LineLen, CStr;
    CStrPast(s, n + 1);
    var t, u := CStr(s), CStr(s[n + 1..]);
    assert t == s[..n + 1] + u;
    LineLenIs(t, n);
    assert t[..n] == s[..n] && t[n + 1..] == u;
  }

  lemma LineOpen(s: Bytes, n: nat)
    requires n < |s| && s[n] == 0 && forall k :: 0 <= k < n ==> s[k] != NEWLINE && s[k] != 0
    ensures Ended(CStr(s)) == [] && Open(CStr(s)) == s[..n]
  {
    hide LineLen, CStr;
    CStrIs(s, n);
    LineLenIs(s[..n], n);
  }

  lemma {:induction false} CStrEnd(s: Bytes)
    ensures CStr(s + [0]) == CStr(s)
  {
    if s != [] && s[0] != 0 {
      assert (s + [0])[1..] == s[1..] + [0];
      CStrEnd(s[1..]);
    }
  }

  lemma {:induction false} CStrWhole(s: Bytes)
    requires 0 !in s
    ensures CStr(s) == s
  {
    if s != [] {
      CStrWhole(s[1..]);
    }
  }

  /** From the lines found so far, and s, what has not been searched, to those of t. */
  ghost predicate Searched(names: seq<Bytes>, s: Bytes, t: Bytes) {
    names + Ended(CStr(s)) == Ended(t) && Open(CStr(s)) == Open(t)
  }

  lemma SearchedNext(names: seq<Bytes>, s: Bytes, n: nat, t: Bytes)
    requires Searched(names, s, t) && StopsAt(s, n, NEWLINE)
    ensures Searched(names + [s[..n]], s[n + 1..], t)
  {
    hide Ended, Open, CStr;
    LineFound(s, n);
    Associative(names, [s[..n]], Ended(CStr(s[n + 1..])));
  }

  lemma SearchedAll(names: seq<Bytes>, s: Bytes, n: nat, t: Bytes)
    requires Searched(names, s, t) && StopsAt(s, n, 0)
    ensures names == Ended(t) && s[..n] == Open(t)
  {
    hide Ended, Open, CStr;
    LineOpen(s, n);
    assert names + [] == names;
  }

  lemma SearchedNone(s: Bytes)
    ensures Searched([], s + [0], CStr(s))
  {
    CStrEnd(s);
  }

  lemma Sliced(s: Bytes, i: nat, j: nat, k: nat)
    requires i <= j <= k <= |s|
    ensures s[i..k][..j - i] == s[i..j]
  {
  }

  lemma StopsBefore(s: Bytes, n: nat, b: Byte)
    requires StopsAt(s, n, b)
    ensures n < |s| && s[n] == b
  {
  }

  /** The rest of a turn of the loop: the lines that have ended become names, and what stands behind them moves to
      the front. */
  method TakeLines(buf: array<Byte>, used: nat) returns (names: seq<Bytes>, left: nat)
    requires used < buf.Length
    modifies buf
    ensures var t := CStr(old(buf[..used])); names == Ended(t) && left == |Open(t)| <= used && buf[..left] == Open(t)
  {
    hide CStr, Ended, Open, Searched, StopsAt;
    ghost var t := CStr(buf[..used]);
    SearchedNone(buf[..used]);
    buf[used] := 0;
    assert buf[0..used + 1] == old(buf[..used]) + [0];
    var next := 0;
    names := [];
    var found, nl := FindNewline(buf, next, used);
    while found
      invariant 0 <= next <= nl <= used && buf[used] == 0
      invariant StopsAt(buf[next..used + 1], nl - next, if found then NEWLINE else 0)
      invariant Searched(names, buf[next..used + 1], t)
      decreases used - next
    {
      ghost var s := buf[next..used + 1];
      SearchedNext(names, s, nl - next, t);
      StopsBefore(s, nl - next, NEWLINE);
      assert nl < used;
      Sliced(buf[..], next, nl, used + 1);
      names := names + [buf[next..nl]];
      ghost var later := s[nl - next + 1..];
      buf[nl] := 0;
      next := nl + 1;
      assert buf[next..used + 1] == later;
      found, nl := FindNewline(buf, next, used);
    }
    ghost var s := buf[next..used + 1];
    SearchedAll(names, s, nl - next, t);
    Sliced(buf[..], next, nl, used + 1);
    left := nl - next;
    MoveFront(buf, next, left);
  }

  /** What is left to come of the lines and of the names of a file. */
  ghost predicate Progress(names: seq<Bytes>, s: Bytes, file: Bytes) {
    names + Lines(s) == Lines(file) && names + Taken(s) == Taken(file)
  }

  lemma ProgressMore(names: seq<Bytes>, t: Bytes, rest: Bytes, file: Bytes)
    requires |t| <= LONGEST && Progress(names, t + rest, file)
    ensures Progress(names + Ended(t), Open(t) + rest, file)
  {
    hide Lines, Taken, Ended, Open;
    LinesSplit(t, rest);
    Associative(names, Ended(t), Lines(Open(t) + rest));
    Associative(names, Ended(t), Taken(Open(t) + rest));
  }

  /** The buffer is full, or the file is at its end. */
  lemma ProgressEnd(names: seq<Bytes>, t: Bytes, rest: Bytes, file: Bytes)
    requires NEWLINE !in t && |t| <= LONGEST && Progress(names, t + rest, file) && (|t| == LONGEST || rest == [])
    ensures Taken(file) == names + (if t == [] then [] else [t])
    ensures |t| == LONGEST ==> exists i :: 0 <= i < |Lines(file)| && |Lines(file)[i]| >= LONGEST
  {
    var s := t + rest;
    var n := LineLen(s);
    assert n >= |t|;
    if |t| == LONGEST {
      assert s[..LONGEST] == t;
      assert Lines(s) != [] && |Lines(s)[0]| == n;
      assert Lines(file)[|names|] == Lines(s)[0];
    } else {
      assert s == t;
    }
  }

  /** Bytes stored behind the first used bytes. */
  method Store(buf: array<Byte>, used: nat, data: Bytes)
    requires used + |data| <= buf.Length
    modifies buf
    ensures buf[..used + |data|] == old(buf[..used]) + data
  {
    for i := 0 to |data|
      invariant buf[..used + i] == old(buf[..used]) + data[..i]
    {
      buf[used + i] := data[i];
      assert buf[..used + i + 1] == buf[..used + i] + [data[i]];
    }
  }

  /** A turn of the loop, when data have been read. */
  method TakeRead(buf: array<Byte>, used: nat, data: Bytes) returns (names: seq<Bytes>, left: nat)
    requires buf.Length == GETBUFSIZE && used + |data| <= LONGEST
    modifies buf
    ensures var t := CStr(old(buf[..used]) + data); names == Ended(t) && left == |Open(t)| <= LONGEST && buf[..left] == Open(t)
  {
    Store(buf, used, data);
    names, left := TakeLines(buf, used + |data|);
  }

  /** Between reads: the names so far, the unfinished line, and the position in the file. */
  ghost predicate State(names: seq<Bytes>, open: Bytes, file: Bytes, pos: nat) {
    pos <= |file| && |open| <= LONGEST
    && (0 !in file ==> 0 !in open && NEWLINE !in open && Progress(names, open + file[pos..], file))
  }

  lemma StateStart(file: Bytes)
    ensures State([], [], file, 0)
  {
    hide Progress;
    ProgressStart(file);
    assert [] + file[0..] == file;
  }

  lemma StateNext(names: seq<Bytes>, open: Bytes, file: Bytes, pos: nat, n: nat)
    requires State(names, open, file, pos) && pos + n <= |file| && |open| + n <= LONGEST
    ensures var t := CStr(open + file[pos..pos + n]);
            |Open(t)| <= LONGEST ==> State(names + Ended(t), Open(t), file, pos + n)
  {
    hide Progress, CStr, Ended, Open;
    if 0 !in file {
      var t := open + file[pos..pos + n];
      assert t + file[pos + n..] == open + file[pos..];
      CStrWhole(t);
      ProgressMore(names, t, file[pos + n..], file);
      OpenPart(t);
    }
  }

  lemma StateEnd(names: seq<Bytes>, open: Bytes, file: Bytes, pos: nat)
    requires State(names, open, file, pos) && (|open| == LONGEST || pos == |file|)
    ensures 0 !in file ==> Taken(file) == names + (if open == [] then [] else [open])
    ensures 0 !in file && Short(file) ==> |open| < LONGEST && Taken(file) == Lines(file)
  {
    hide Lines, Taken, Progress;
    if 0 !in file {
      ProgressEnd(names, open, file[pos..], file);
      if Short(file) {
        TakenLines(file);
      }
    }
  }

  /** The loop on a file of this host, whose reads return any part of what is asked for. */
  method ScanFile(file: Bytes) returns (names: seq<Bytes>)
    ensures 0 !in file ==> names == Taken(file)
  {
    hide Taken, Ended, Open, CStr, State;
    var buf := new Byte[GETBUFSIZE];
    var used: nat, pos: nat := 0, 0;
    names := [];
    StateStart(file);
    assert buf[..used] == [];
    while true
      invariant used <= LONGEST && pos <= |file| && fresh(buf) && State(names, buf[..used], file, pos)
      decreases |file| - pos
    {
      var bytes := GETBUFSIZE - used - 1;
      var nread: nat :| nread <= bytes && nread <= |file| - pos && (nread == 0 <==> bytes == 0 || pos == |file|);
      if nread == 0 {
        break;
      }
      StateNext(names, buf[..used], file, pos, nread);
      var more;
      more, used := TakeRead(buf, used, file[pos..pos + nread]);
      names, pos := names + more, pos + nread;
    }
    StateEnd(names, buf[..used], file, pos);
    assert names + [] == names;
    if used > 0 {
      names := names + [buf[..used]];
    }
  }

  lemma ProgressStart(file: Bytes)
    ensures Progress([], file, file)
  {
  }

  lemma {:induction false} OpenPart(t: Bytes)
    ensures forall b :: b in Open(t) ==> b in t
    decreases |t|
  {
    if LineLen(t) < |t| {
      OpenPart(t[LineLen(t) + 1..]);
    }
  }

  // ----- through hc_read

  /** The largest file that a remote scan is sure to read. */
  const REMOTE: nat := 65496

  lemma InnerNever(total: nat, stop: nat)
    requires total <= REMOTE
    ensures !CpdupFile.Inner(total, stop)
  {
  }

  /** Behind the first 32768 bytes, the next request ends where it should not. */
  lemma InnerSoon(total: nat, stop: nat)
    requires total > REMOTE && CpdupFile.CHUNK < stop <= CpdupFile.CHUNK + LONGEST
    ensures CpdupFile.Inner(total, stop)
  {
  }

  /** Where the scan of a regular file stands: it has not come far, or is about to fail. */
  predicate Doomed(total: nat, pos: nat) {
    total > REMOTE && (pos <= CpdupFile.CHUNK || CpdupFile.Inner(total, pos))
  }

  /** Where the scan of a file of another host stands. */
  ghost predicate Course(chunks: seq<Bytes>, pos: nat) {
    CpdupFile.Regular(chunks) && |CpdupFile.Content(chunks)| > REMOTE ==> Doomed(|CpdupFile.Content(chunks)|, pos)
  }

  lemma CourseAt(chunks: seq<Bytes>, pos: nat)
    requires CpdupFile.Chunks(chunks) && CpdupFile.Regular(chunks) && pos <= |CpdupFile.Content(chunks)|
    ensures var total := |CpdupFile.Content(chunks)|;
            CpdupFile.Bad(CpdupFile.Packets(chunks)[1..], total - pos) <==> CpdupFile.Inner(total, pos)
  {
    hide CpdupFile.Bad, CpdupFile.Inner, CpdupFile.Spoils, CpdupFile.Content, CpdupFile.Packets;
    CpdupFile.BadSpoils(chunks, pos);
    CpdupFile.RegularSpoils(chunks, pos);
  }

  lemma CourseFails(chunks: seq<Bytes>, pos: nat)
    requires CpdupFile.Chunks(chunks) && pos <= |CpdupFile.Content(chunks)|
    requires CpdupFile.Bad(CpdupFile.Packets(chunks)[1..], |CpdupFile.Content(chunks)| - pos)
    ensures CpdupFile.Regular(chunks) ==> |CpdupFile.Content(chunks)| > REMOTE
  {
    hide CpdupFile.Bad, CpdupFile.Content, CpdupFile.Packets;
    if CpdupFile.Regular(chunks) && |CpdupFile.Content(chunks)| <= REMOTE {
      CourseAt(chunks, pos);
      InnerNever(|CpdupFile.Content(chunks)|, pos);
    }
  }

  lemma CourseNext(chunks: seq<Bytes>, pos: nat, pos': nat)
    requires CpdupFile.Chunks(chunks) && pos <= |CpdupFile.Content(chunks)| && Course(chunks, pos)
    requires !CpdupFile.Bad(CpdupFile.Packets(chunks)[1..], |CpdupFile.Content(chunks)| - pos)
    requires pos <= pos' <= pos + LONGEST
    ensures Course(chunks, pos')
  {
    hide CpdupFile.Bad, CpdupFile.Content, CpdupFile.Packets, CpdupFile.Inner;
    if CpdupFile.Regular(chunks) && |CpdupFile.Content(chunks)| > REMOTE {
      CourseAt(chunks, pos);
      if pos' > CpdupFile.CHUNK {
        InnerSoon(|CpdupFile.Content(chunks)|, pos');
      }
    }
  }

  lemma CourseEnd(chunks: seq<Bytes>)
    requires Course(chunks, |CpdupFile.Content(chunks)|) && CpdupFile.Regular(chunks)
    ensures |CpdupFile.Content(chunks)| <= REMOTE
  {
  }

  lemma CourseStart(chunks: seq<Bytes>)
    ensures Course(chunks, 0)
  {
  }

  /** The loop on a file of another host.  The names are the lines of every regular file of at most 65496 bytes
      without long lines; on longer ones the scan fails. */
  method ScanRemote(chunks: seq<Bytes>) returns (ok: bool, names: seq<Bytes>)
    requires CpdupFile.Chunks(chunks)
    ensures ok && 0 !in CpdupFile.Content(chunks) ==> names == Taken(CpdupFile.Content(chunks))
    ensures CpdupFile.Regular(chunks) && |CpdupFile.Content(chunks)| <= REMOTE ==> ok
    ensures CpdupFile.Regular(chunks) && 0 !in CpdupFile.Content(chunks) && Short(CpdupFile.Content(chunks)) ==>
      (ok <==> |CpdupFile.Content(chunks)| <= REMOTE) && (ok ==> names == Lines(CpdupFile.Content(chunks)))
  {
    hide Lines, Taken, Ended, Open, CStr, State, Course, Short, CpdupFile.Content, CpdupFile.Between, CpdupFile.Packets,
      CpdupFile.Regular, CpdupFile.Bad, CpdupFile.Chunks;
    var r := CpdupFile.Open(chunks);
    ghost var file, parts, pos: nat := CpdupFile.Content(chunks), CpdupFile.Packets(chunks)[1..], 0;
    var buf := new Byte[GETBUFSIZE];
    var used: nat := 0;
    ok, names := true, [];
    StateStart(file);
    CourseStart(chunks);
    assert buf[..used] == [];
    while true
      invariant used <= LONGEST && pos <= |file| && fresh(buf) && fresh(r) && ok
      invariant CpdupFile.Between(r, parts, file, pos) && State(names, buf[..used], file, pos) && Course(chunks, pos)
      decreases |file| - pos
    {
      var bytes := GETBUFSIZE - used - 1;
      var data;
      ok, data := CpdupFile.Request(r, bytes, parts, file, pos);
      if !ok {
        CourseFails(chunks, pos);
        return;
      }
      if data == [] {
        break;
      }
      StateNext(names, buf[..used], file, pos, |data|);
      CourseNext(chunks, pos, pos + |data|);
      var more;
      more, used := TakeRead(buf, used, data);
      names, pos := names + more, pos + |data|;
    }
    StateEnd(names, buf[..used], file, pos);
    assert names + [] == names;
    if pos == |file| && CpdupFile.Regular(chunks) {
      CourseEnd(chunks);
    }
    if used > 0 {
      names := names + [buf[..used]];
    }
  }

  // ----- and what is then ignored

  function NameOf(b: Bytes): CpdupList.Name {
    seq(|b|, i requires 0 <= i < |b| => b[i] as bv8)
  }

  function NamesOf(ls: seq<Bytes>): (r: seq<CpdupList.Name>)
    ensures |r| == |ls|
  {
    seq(|ls|, i requires 0 <= i < |ls| => NameOf(ls[i]))
  }

  lemma NameByte(l: Bytes, i: nat)
    requires i < |l| && l[i] in {42, 63, 123, 125, 91, 93, 124}
    ensures i < |NameOf(l)| && NameOf(l)[i] in {42, 63, 123, 125, 91, 93, 124}
  {
  }

  lemma NameListed(ls: seq<Bytes>, l: Bytes)
    requires l in ls
    ensures NameOf(l) in NamesOf(ls)
  {
    var i :| 0 <= i < |ls| && ls[i] == l;
    assert NamesOf(ls)[i] == NameOf(l);
  }

  /** Two directories of this host, the first with the file cpfile of names to ignore: a pattern on a line of
      the file protects what it matches, unless a line fills the buffer. */
  method CompareIgnoring(fnmatch: (CpdupList.Name, CpdupList.Name) -> bool, cpfile: CpdupList.Name, file: Bytes,
                         sources: seq<CpdupList.Name>, targets: seq<CpdupList.Name>)
    returns (copied: seq<CpdupList.Name>, removed: seq<CpdupList.Name>)
    ensures 0 !in file ==> var ignores := [cpfile] + NamesOf(Taken(file));
      forall x :: x in removed <==>
        x in targets && x !in sources && !CpdupList.Ignored(ignores, CpdupList.Shash, fnmatch, x)
    ensures 0 !in file ==> var ignores := [cpfile] + NamesOf(Taken(file));
      forall x :: x in copied <==> x in sources && !CpdupList.Ignored(ignores, CpdupList.Shash, fnmatch, x)
    ensures 0 !in file && Fitting(Lines(file)) ==>
      forall l, x, i :: l in Lines(file) && 0 <= i < |l| && l[i] in {42, 63, 123, 125, 91, 93, 124} && fnmatch(NameOf(l), x) ==>
        x !in copied && x !in removed
    ensures 0 !in file && Fitting(Lines(file)) ==>
      forall l :: l in Lines(file) ==> NameOf(l) !in copied && NameOf(l) !in removed
  {
    hide Lines, Taken, Fitting, NameOf, NamesOf, CpdupList.Ignored, CpdupList.Shash;
    var names := ScanFile(file);
    var ignores := [cpfile] + NamesOf(names);
    copied, removed := CpdupList.CompareDirs(fnmatch, ignores, sources, targets);
    if 0 !in file && Fitting(Lines(file)) {
      TakenLines(file);
      forall l | l in Lines(file)
        ensures NameOf(l) in ignores
      {
        NameListed(names, l);
      }
      forall l, x, i | l in Lines(file) && 0 <= i < |l| && l[i] in {42, 63, 123, 125, 91, 93, 124} && fnmatch(NameOf(l), x)
        ensures x !in copied && x !in removed
      {
        NameByte(l, i);
      }
    }
  }
}
