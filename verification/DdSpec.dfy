/** What the conversions of dd make of a whole input. */
module DdSpec {
  type Byte = b: nat | b < 256
  type Bytes = seq<Byte>

  const NEWLINE: Byte := 10
  const SPACE: Byte := 32

  /** ctab: a table of 256 bytes, or none. */
  datatype Table = NoTable | Tab(tab: Bytes)

  predicate GoodTable(t: Table) {
    t.Tab? ==> |t.tab| == 256
  }

  function Tr(t: Table, b: Byte): Byte
    requires GoodTable(t)
  {
    if t.Tab? then t.tab[b] else b
  }

  function Map(t: Table, s: Bytes): (r: Bytes)
    requires GoodTable(t)
    ensures |r| == |s|
  {
    seq(|s|, i requires 0 <= i < |s| => Tr(t, s[i]))
  }

  function Spaces(t: Table, n: nat): (r: Bytes)
    requires GoodTable(t)
    ensures |r| == n
  {
    seq(n, _ => Tr(t, SPACE))
  }

  lemma MapConcat(t: Table, a: Bytes, b: Bytes)
    requires GoodTable(t)
    ensures Map(t, a + b) == Map(t, a) + Map(t, b)
  {
  }

  // ----- block

  /** The first newline is at n, or there is none and n is the length. */
  predicate LineEnds(s: Bytes, n: nat) {
    n <= |s| && (n < |s| ==> s[n] == NEWLINE) && forall i :: 0 <= i < n ==> s[i] != NEWLINE
  }

  /** The place of the first newline, |s| if there is none. */
  function Line(s: Bytes): (n: nat)
    ensures n <= |s| && LineEnds(s, n)
  {
    if s == [] || s[0] == NEWLINE then 0 else 1 + Line(s[1..])
  }

  lemma LineIs(s: Bytes, n: nat)
    requires n <= |s| && (n < |s| ==> s[n] == NEWLINE) && forall i :: 0 <= i < n ==> s[i] != NEWLINE
    ensures Line(s) == n
  {
  }

  predicate Unended(s: Bytes) {
    NEWLINE !in s
  }

  /** A line cut or padded to cbsz bytes. */
  function Record(t: Table, cbsz: nat, line: Bytes): (r: Bytes)
    requires GoodTable(t)
    ensures |r| == cbsz
  {
    if |line| >= cbsz then Map(t, line[..cbsz]) else Map(t, line) + Spaces(t, cbsz - |line|)
  }

  /** A line without newline at the end of the input; a short one is not translated. */
  function LastRecord(t: Table, cbsz: nat, line: Bytes): Bytes
    requires GoodTable(t)
  {
    if line == [] then []
    else if |line| >= cbsz then Map(t, line[..cbsz])
    else line + Spaces(t, cbsz - |line|)
  }

  /** conv=block */
  function Blocked(t: Table, cbsz: nat, s: Bytes): Bytes
    requires GoodTable(t)
    decreases |s|
  {
    var n := Line(s);
    if n < |s| then Record(t, cbsz, s[..n]) + Blocked(t, cbsz, s[n + 1..]) else LastRecord(t, cbsz, s)
  }

  /** The output yet to come when the rest of a cut line is yet to be skipped. */
  function Rest(t: Table, cbsz: nat, s: Bytes): Bytes
    requires GoodTable(t)
  {
    if Line(s) < |s| then Blocked(t, cbsz, s[Line(s) + 1..]) else []
  }

  /** A line that ends before cbsz bytes. */
  lemma BlockedLine(t: Table, cbsz: nat, line: Bytes, s: Bytes)
    requires GoodTable(t) && NEWLINE !in line
    ensures Blocked(t, cbsz, line + [NEWLINE] + s) == Record(t, cbsz, line) + Blocked(t, cbsz, s)
  {
    hide Line, Record;
    LineEnd(line, s);
  }

  /** cbsz bytes without newline. */
  lemma BlockedCut(t: Table, cbsz: nat, line: Bytes, s: Bytes)
    requires GoodTable(t) && NEWLINE !in line && |line| == cbsz >= 1
    ensures Blocked(t, cbsz, line + s) == Record(t, cbsz, line) + Rest(t, cbsz, s)
  {
    hide Record, LastRecord, Line, Map, LineEnds, Blocked;
    var x, n := line + s, Line(s);
    LineSkip(line, s);
    BlockedUnfold(t, cbsz, x);
    RecordFull(t, cbsz, line);
    if n < |s| {
      RecordCut(t, cbsz, line, s[..n]);
      assert x[cbsz + n + 1..] == s[n + 1..] && x[..cbsz + n] == line + s[..n];
    } else {
      LastCut(t, cbsz, line, s);
    }
  }

  lemma LastCut(t: Table, cbsz: nat, line: Bytes, more: Bytes)
    requires GoodTable(t) && |line| == cbsz >= 1
    ensures LastRecord(t, cbsz, line + more) == Map(t, line)
  {
    assert (line + more)[..cbsz] == line;
  }

  lemma RecordFull(t: Table, cbsz: nat, line: Bytes)
    requires GoodTable(t) && |line| == cbsz
    ensures Record(t, cbsz, line) == Map(t, line)
  {
    assert line[..cbsz] == line;
  }

  lemma RecordCut(t: Table, cbsz: nat, line: Bytes, more: Bytes)
    requires GoodTable(t) && |line| == cbsz
    ensures Record(t, cbsz, line + more) == Map(t, line)
  {
    assert (line + more)[..cbsz] == line;
  }

  lemma LineSkip(junk: Bytes, s: Bytes)
    requires NEWLINE !in junk
    ensures Line(junk + s) == |junk| + Line(s)
  {
    LineIs(junk + s, |junk| + Line(s));
  }

  lemma LineEnd(line: Bytes, s: Bytes)
    requires NEWLINE !in line
    ensures var x := line + [NEWLINE] + s; Line(x) == |line| && x[..|line|] == line && x[|line| + 1..] == s
  {
    LineIs(line + [NEWLINE] + s, |line|);
  }

  /** The bytes of a record: a line in front, spaces behind it, translated all of them. */
  lemma BlockedLaw(t: Table, cbsz: nat, line: Bytes, s: Bytes) returns (head: Bytes)
    requires GoodTable(t) && 10 !in line
    ensures Blocked(t, cbsz, line + [10] + s) == head + Blocked(t, cbsz, s) && |head| == cbsz
    ensures forall i :: 0 <= i < cbsz && i < |line| ==> head[i] == if t.Tab? then t.tab[line[i]] else line[i]
    ensures forall i :: 0 <= i < cbsz && i >= |line| ==> head[i] == if t.Tab? then t.tab[32] else 32
  {
    hide Blocked;
    head := Record(t, cbsz, line);
    BlockedLine(t, cbsz, line, s);
  }

  /** Those of the last record when the input does not end in a newline: a line that fills no record is not translated,
      and no bytes at all make no record. */
  lemma BlockedEnd(t: Table, cbsz: nat, line: Bytes)
    requires GoodTable(t) && 10 !in line
    ensures line == [] ==> Blocked(t, cbsz, line) == []
    ensures line != [] ==> |Blocked(t, cbsz, line)| == cbsz
    ensures forall i :: 0 <= i < cbsz && i < |line| ==>
      Blocked(t, cbsz, line)[i] == if t.Tab? && |line| >= cbsz then t.tab[line[i]] else line[i]
    ensures forall i :: 0 <= i < cbsz && 0 < |line| <= i ==> Blocked(t, cbsz, line)[i] == if t.Tab? then t.tab[32] else 32
  {
    hide Blocked, Line;
    LineIs(line, |line|);
    BlockedUnfold(t, cbsz, line);
  }

  // ----- truncated records

  /** The records that block counts as truncated.  The set ends holds, for every read, how many
      bytes are yet to be read when it returns. */
  function Cuts(cbsz: nat, s: Bytes, ends: set<nat>): nat
    decreases |s|
  {
    var n := Line(s);
    if n < |s| then (if n > cbsz || (n == cbsz && |s| - n in ends) then 1 else 0) + Cuts(cbsz, s[n + 1..], ends)
    else if s == [] then 0
    else 1
  }

  /** The records yet to be counted then. */
  function CutsRest(cbsz: nat, s: Bytes, ends: set<nat>): nat {
    if Line(s) < |s| then Cuts(cbsz, s[Line(s) + 1..], ends) else 0
  }

  lemma CutsLine(cbsz: nat, line: Bytes, s: Bytes, ends: set<nat>)
    requires NEWLINE !in line && |line| < cbsz
    ensures Cuts(cbsz, line + [NEWLINE] + s, ends) == Cuts(cbsz, s, ends)
  {
    hide Line;
    LineEnd(line, s);
  }

  lemma CutsCut(cbsz: nat, line: Bytes, s: Bytes, ends: set<nat>)
    requires NEWLINE !in line && |line| == cbsz >= 1
    ensures Cuts(cbsz, line + s, ends)
         == (if s == [] || s[0] != NEWLINE || |s| in ends then 1 else 0) + CutsRest(cbsz, s, ends)
  {
    hide Line;
    LineSkip(line, s);
    if Line(s) < |s| {
      assert (line + s)[cbsz + Line(s) + 1..] == s[Line(s) + 1..];
    }
  }

  /** The lines that are longer than a record. */
  function Longs(cbsz: nat, s: Bytes): nat
    decreases |s|
  {
    var n := Line(s);
    (if n > cbsz then 1 else 0) + (if n < |s| then Longs(cbsz, s[n + 1..]) else 0)
  }

  /** The lines that just fill a record and whose newline is the first byte of a read. */
  function Splits(cbsz: nat, s: Bytes, ends: set<nat>): nat
    decreases |s|
  {
    var n := Line(s);
    if n < |s| then (if n == cbsz && |s| - n in ends then 1 else 0) + Splits(cbsz, s[n + 1..], ends) else 0
  }

  /** The count is that of the lines that lose bytes, exactly when no line that fills a record is
      parted from its newline by a read, and no line at the end of the input lacks its newline without
      losing bytes. */
  lemma {:induction false} CutsCount(cbsz: nat, s: Bytes, ends: set<nat>)
    ensures Cuts(cbsz, s, ends) == Longs(cbsz, s) + Splits(cbsz, s, ends) + (if 0 < |Tail(s)| <= cbsz then 1 else 0)
    decreases |s|
  {
    hide Line;
    var n := Line(s);
    if n < |s| {
      CutsCount(cbsz, s[n + 1..], ends);
    }
  }

  /** A line too long is one, a line that just fits is none, a line without newline is one. */
  lemma CutsSample(ends: set<nat>)
    requires 1 !in ends
    ensures Cuts(1, [65, 66, 10], ends) == 1 && Cuts(2, [65, 66, 10], ends) == 0 && Cuts(2, [65], ends) == 1
  {
    LineIs([65, 66, 10], 2);
    LineIs([65], 1);
    assert [65, 66, 10][3..] == [];
  }

  /** One input, read at once and in two parts. */
  lemma CutsVary()
    ensures Cuts(1, [65, NEWLINE], {2, 0}) == 0 && Cuts(1, [65, NEWLINE], {2, 1, 0}) == 1
  {
    LineIs([65, NEWLINE], 1);
    assert [65, NEWLINE][2..] == [];
  }

  // ----- what is yet to come

  /** The bytes behind the last newline. */
  function Tail(s: Bytes): Bytes
    decreases |s|
  {
    if Line(s) < |s| then Tail(s[Line(s) + 1..]) else s
  }

  /** The record that block_close makes. */
  function LastOf(t: Table, cbsz: nat, s: Bytes): (r: Bytes)
    requires GoodTable(t)
    ensures r == [] || |r| == cbsz
  {
    var tail := Tail(s);
    if tail == [] || |tail| >= cbsz then [] else tail + Spaces(t, cbsz - |tail|)
  }

  predicate EndsIn(all: Bytes, last: Bytes) {
    |last| <= |all| && last == all[|all| - |last|..]
  }

  /** It stands at the end of the output. */
  lemma {:induction false} BlockedLast(t: Table, cbsz: nat, s: Bytes)
    requires GoodTable(t)
    ensures EndsIn(Blocked(t, cbsz, s), LastOf(t, cbsz, s))
    decreases |s|
  {
    hide Record, LastRecord, Line, Blocked, LastOf, EndsIn, LineEnds;
    if Line(s) < |s| {
      var n, rest := Line(s), s[Line(s) + 1..];
      BlockedLast(t, cbsz, rest);
      BlockedUnfold(t, cbsz, s);
      LastUnfold(t, cbsz, s);
      EndsInMore(Record(t, cbsz, s[..n]), Blocked(t, cbsz, rest), LastOf(t, cbsz, rest));
    } else {
      BlockedUnfold(t, cbsz, s);
      LastEndsIn(t, cbsz, s);
    }
  }

  lemma BlockedUnfold(t: Table, cbsz: nat, s: Bytes)
    requires GoodTable(t)
    ensures Blocked(t, cbsz, s) == if Line(s) < |s| then Record(t, cbsz, s[..Line(s)]) + Blocked(t, cbsz, s[Line(s) + 1..])
                                   else LastRecord(t, cbsz, s)
  {
    hide Record, LastRecord, Line, LineEnds;
  }

  lemma LastUnfold(t: Table, cbsz: nat, s: Bytes)
    requires GoodTable(t) && Line(s) < |s|
    ensures LastOf(t, cbsz, s) == LastOf(t, cbsz, s[Line(s) + 1..])
  {
    hide Line, LineEnds, Spaces;
  }

  lemma EndsInMore(a: Bytes, b: Bytes, last: Bytes)
    requires EndsIn(b, last)
    ensures EndsIn(a + b, last)
  {
    assert (a + b)[|a + b| - |last|..] == b[|b| - |last|..];
  }

  lemma LastEndsIn(t: Table, cbsz: nat, s: Bytes)
    requires GoodTable(t) && Line(s) == |s|
    ensures EndsIn(LastRecord(t, cbsz, s), LastOf(t, cbsz, s))
  {
    hide Line, LineEnds, Spaces, Map;
    assert Tail(s) == s;
  }

  /** Output, truncated records, and the part of the output that block_close makes. */
  datatype Due = Due(bytes: Bytes, cuts: nat, last: Bytes)

  /** What the input s is yet to give; skip tells that the rest of a cut line is yet to be skipped. */
  function Owed(t: Table, cbsz: nat, skip: bool, s: Bytes, ends: set<nat>): Due
    requires GoodTable(t)
  {
    if !skip then Due(Blocked(t, cbsz, s), Cuts(cbsz, s, ends), LastOf(t, cbsz, s))
    else if Line(s) < |s| then
      var s' := s[Line(s) + 1..];
      Due(Blocked(t, cbsz, s'), Cuts(cbsz, s', ends), LastOf(t, cbsz, s'))
    else Due([], 0, [])
  }

  /** The same, together with what has been given. */
  function Given(bytes: Bytes, cuts: nat, d: Due): Due {
    Due(bytes + d.bytes, cuts + d.cuts, d.last)
  }

  lemma GivenTwice(a: Bytes, m: nat, b: Bytes, n: nat, d: Due)
    ensures Given(a, m, Given(b, n, d)) == Given(a + b, m + n, d)
  {
    assert (a + b) + d.bytes == a + (b + d.bytes);
  }

  lemma OwedLine(t: Table, cbsz: nat, line: Bytes, s: Bytes, ends: set<nat>)
    requires GoodTable(t) && NEWLINE !in line && |line| < cbsz
    ensures Owed(t, cbsz, false, line + [NEWLINE] + s, ends) == Given(Record(t, cbsz, line), 0, Owed(t, cbsz, false, s, ends))
  {
    hide Blocked, Cuts, Record, Line;
    BlockedLine(t, cbsz, line, s);
    CutsLine(cbsz, line, s, ends);
    LineEnd(line, s);
  }

  /** What is owed while the rest of a line is skipped. */
  lemma OwedSkips(t: Table, cbsz: nat, s: Bytes, ends: set<nat>)
    requires GoodTable(t)
    ensures var d := Owed(t, cbsz, true, s, ends);
            d.bytes == Rest(t, cbsz, s) && d.cuts == CutsRest(cbsz, s, ends)
    ensures Line(s) == |s| ==> Owed(t, cbsz, true, s, ends).last == []
    ensures Line(s) < |s| ==> Owed(t, cbsz, true, s, ends).last == LastOf(t, cbsz, s)
  {
    hide Blocked, Cuts, Line;
  }

  lemma OwedCut(t: Table, cbsz: nat, line: Bytes, s: Bytes, ends: set<nat>)
    requires GoodTable(t) && NEWLINE !in line && |line| == cbsz >= 1
    ensures Owed(t, cbsz, false, line + s, ends)
         == Given(Record(t, cbsz, line), if s == [] || s[0] != NEWLINE || |s| in ends then 1 else 0, Owed(t, cbsz, true, s, ends))
  {
    hide Blocked, Cuts, Record, Line, Rest, CutsRest;
    BlockedCut(t, cbsz, line, s);
    CutsCut(cbsz, line, s, ends);
    OwedSkips(t, cbsz, s, ends);
    LineSkip(line, s);
    if Line(s) < |s| {
      assert (line + s)[cbsz + Line(s) + 1..] == s[Line(s) + 1..];
    }
  }

  lemma OwedSkip(t: Table, cbsz: nat, junk: Bytes, s: Bytes, ends: set<nat>)
    requires GoodTable(t) && NEWLINE !in junk
    ensures Owed(t, cbsz, true, junk + s, ends) == Owed(t, cbsz, true, s, ends)
    ensures Owed(t, cbsz, true, junk + [NEWLINE] + s, ends) == Owed(t, cbsz, false, s, ends)
  {
    hide Blocked, Cuts, LastOf, Line;
    LineSkip(junk, s);
    if Line(s) < |s| {
      assert (junk + s)[|junk| + Line(s) + 1..] == s[Line(s) + 1..];
    }
    LineEnd(junk, s);
  }

  lemma OwedLast(t: Table, cbsz: nat, skip: bool, s: Bytes, ends: set<nat>)
    requires GoodTable(t) && Unended(s) && |s| < cbsz && (skip ==> s == [])
    ensures var last := if s == [] then [] else s + Spaces(t, cbsz - |s|);
            Owed(t, cbsz, skip, s, ends) == Due(last, if s == [] then 0 else 1, last)
  {
    LineIs(s, |s|);
  }

  // ----- where reads end

  /** The last read has left more bytes to be read, and none before it ended in the data behind the
      first cbsz - 1 bytes. */
  predicate Clear(ends: set<nat>, more: nat, data: nat, cbsz: nat) {
    more in ends && forall e :: e in ends ==> e <= more || e > data + more - cbsz
  }

  lemma ClearLess(ends: set<nat>, more: nat, data: nat, data': nat, cbsz: nat)
    requires Clear(ends, more, data, cbsz) && data' <= data
    ensures Clear(ends, more, data', cbsz)
  {
  }

  /** A chunk read behind less than a record. */
  lemma ClearRead(ends: set<nat>, more: nat, chunk: nat, data: nat, cbsz: nat)
    requires Clear(ends, more, chunk, 1) && data < cbsz
    ensures Clear(ends, more, data + chunk, cbsz)
  {
  }

  // ----- whole output blocks

  predicate Whole(n: nat, obs: nat) {
    obs >= 1 && n % obs == 0
  }

  /** conv=osync: s and as many bytes b as fill its last block. */
  function Filled(obs: nat, b: Byte, s: Bytes): Bytes
    requires obs >= 1
  {
    if |s| % obs == 0 then s else s + seq(obs - |s| % obs, _ => b)
  }

  lemma Product(obs: nat, d: int)
    ensures d >= 1 ==> obs * d >= obs
    ensures d <= -1 ==> obs * d + obs <= 0
  {
  }

  lemma ModMore(n: nat, obs: nat)
    requires obs >= 1
    ensures (n + obs) % obs == n % obs
  {
    var d := (n + obs) / obs - n / obs - 1;
    assert obs * d == n % obs - (n + obs) % obs;
    Product(obs, d);
  }

  lemma WholeMore(n: nat, obs: nat)
    requires Whole(n, obs)
    ensures Whole(n + obs, obs)
  {
    ModMore(n, obs);
  }

  lemma {:induction false} Remainder(n: nat, obs: nat, r: nat)
    requires Whole(n, obs) && r < obs
    ensures (n + r) % obs == r
  {
    if n >= obs {
      ModMore(n - obs, obs);
      Remainder(n - obs, obs, r);
      ModMore(n - obs + r, obs);
    }
  }

  /** Whole blocks and less than one more. */
  lemma FilledBlock(obs: nat, b: Byte, whole: Bytes, part: Bytes)
    requires Whole(|whole|, obs) && |part| <= obs
    ensures Filled(obs, b, whole + part) == whole + part + (if part == [] then [] else seq(obs - |part|, _ => b))
  {
    if |part| < obs {
      Remainder(|whole|, obs, |part|);
    } else {
      WholeMore(|whole|, obs);
    }
  }

  /** The output comes first, bytes b behind it, to the end of the block it ends in. */
  lemma FilledLaw(obs: nat, b: Byte, s: Bytes)
    requires obs >= 1
    ensures var r := Filled(obs, b, s); s <= r && |r| % obs == 0 && |r| < |s| + obs && forall i :: |s| <= i < |r| ==> r[i] == b
  {
    var m := |s| % obs;
    WholePart(|s|, obs);
    WholeMore(|s| - m, obs);
  }

  /** How much of the last block is full when the last part of the output is made. */
  function Begun(obs: nat, all: Bytes, last: Bytes): nat
    requires obs >= 1 && |last| <= |all|
  {
    (|all| - |last|) % obs
  }

  /** What unblock writes under conv=osync of the output all, whose part last is made when the input has
      ended: the last block is filled, unless last runs over its end. */
  function OsyncLines(obs: nat, all: Bytes, last: Bytes): Bytes
    requires obs >= 1 && |last| <= |all|
  {
    if Begun(obs, all, last) + |last| <= obs then Filled(obs, SPACE, all) else all
  }

  /** The last block is full exactly when last does not run over its end, or happens to end where a block
      ends. */
  lemma OsyncLinesRight(obs: nat, all: Bytes, last: Bytes)
    requires obs >= 1 && |last| <= |all|
    ensures OsyncLines(obs, all, last) == Filled(obs, SPACE, all)
       <==> Begun(obs, all, last) + |last| <= obs || |all| % obs == 0
  {
  }

  /** dd_close fills the last block at dbp, which block_close has left at the start of the last
      record: the record is written over, and the bytes that were in the buffer behind it stay. */
  function Overwritten(last: Bytes, stale: Bytes): Bytes {
    Spaces(NoTable, |stale|) + (last + stale)[|stale|..]
  }

  /** Those bytes, k of them: the end of the block written before, or of mem, what the buffer held at first. */
  function Stale(mem: Bytes, written: Bytes, k: nat): (r: Bytes)
    requires k <= |mem|
    ensures |r| == k
  {
    (mem + written)[|mem| + |written| - k..]
  }

  /** What block writes under conv=osync, whose last record is damaged when it leaves room in the block. */
  function OsyncRecords(obs: nat, mem: Bytes, all: Bytes, last: Bytes): Bytes
    requires obs >= 1 && |last| <= |all| && |mem| == obs
  {
    var r, body := Begun(obs, all, last), all[..|all| - |last|];
    if last == [] then Filled(obs, SPACE, all)
    else if r + |last| >= obs then all
    else body + Overwritten(last, Stale(mem, body[..|body| - r], obs - r - |last|))
  }

  /** The bytes that are written over, and the last bytes of the block, are spaces. */
  predicate Blank(last: Bytes, stale: Bytes) {
    && (forall i :: 0 <= i < |last| && i < |stale| ==> last[i] == SPACE)
    && (forall j :: 0 <= j < |stale| && |stale| - |last| <= j ==> stale[j] == SPACE)
  }

  lemma OverwrittenAt(last: Bytes, stale: Bytes, i: nat)
    requires i < |last| + |stale|
    ensures |Overwritten(last, stale)| == |last| + |stale|
    ensures Overwritten(last, stale)[i] == if i < |stale| then SPACE else (last + stale)[i]
  {
  }

  /** That fills the block as it should exactly when it replaces spaces by spaces, and what is
      left in the buffer is spaces. */
  lemma OverwrittenRight(last: Bytes, stale: Bytes)
    requires last != []
    ensures Overwritten(last, stale) == last + Spaces(NoTable, |stale|) <==> Blank(last, stale)
  {
    hide Overwritten;
    var k := |stale|;
    var a, b := Overwritten(last, stale), last + Spaces(NoTable, k);
    OverwrittenAt(last, stale, 0);
    forall i: nat | i < |last| + k
      ensures a[i] == if i < k then SPACE else (last + stale)[i]
    {
      OverwrittenAt(last, stale, i);
    }
    if a == b {
      forall i | 0 <= i < |last| && i < k
        ensures last[i] == SPACE
      {
        assert a[i] == b[i];
      }
      forall j | 0 <= j < k && k - |last| <= j
        ensures stale[j] == SPACE
      {
        assert a[|last| + j] == b[|last| + j];
      }
    }
  }

  /** For whole blocks, the rest of the output and a last record that leaves room for stale. */
  lemma FilledRight(obs: nat, whole: Bytes, part: Bytes, last: Bytes, stale: Bytes)
    requires Whole(|whole|, obs) && last != [] && |part| + |last| + |stale| == obs
    ensures whole + part + Overwritten(last, stale) == Filled(obs, SPACE, whole + part + last) <==> Blank(last, stale)
  {
    hide Overwritten, Filled, Blank, Whole;
    OverwrittenRight(last, stale);
    assert whole + part + last == whole + (part + last);
    FilledBlock(obs, SPACE, whole, part + last);
    assert seq(obs - |part + last|, _ => SPACE) == Spaces(NoTable, |stale|);
    assert (whole + part) + (last + Spaces(NoTable, |stale|)) == whole + (part + last) + Spaces(NoTable, |stale|);
    SameHead(whole + part, Overwritten(last, stale), last + Spaces(NoTable, |stale|));
  }

  lemma {:induction false} WholePart(n: nat, obs: nat)
    requires obs >= 1
    ensures n % obs <= n && Whole(n - n % obs, obs)
  {
    WholeNone(obs);
    hide Whole;
    if n >= obs {
      var m := n - obs;
      WholePart(m, obs);
      ModMore(m, obs);
      assert n == m + obs && n % obs == m % obs;
      WholeMore(m - m % obs, obs);
      assert n - n % obs == m - m % obs + obs;
    } else {
      Remainder(0, obs, n);
    }
  }

  lemma WholeNone(obs: nat)
    requires obs >= 1
    ensures Whole(0, obs)
  {
  }

  /** When the last block is right: there is no last record, or it ends where a block ends, or it leaves room
      and both the bytes written over and the end of the block before are spaces. */
  predicate RecordHarmless(obs: nat, mem: Bytes, all: Bytes, last: Bytes)
    requires obs >= 1 && |last| <= |all| && |mem| == obs
  {
    var r, body := Begun(obs, all, last), all[..|all| - |last|];
    || last == []
    || (r + |last| >= obs && |all| % obs == 0)
    || (r + |last| < obs && Blank(last, Stale(mem, body[..|body| - r], obs - r - |last|)))
  }

  lemma OsyncRecordsRight(obs: nat, mem: Bytes, all: Bytes, last: Bytes)
    requires obs >= 1 && EndsIn(all, last) && |mem| == obs
    ensures OsyncRecords(obs, mem, all, last) == Filled(obs, SPACE, all) <==> RecordHarmless(obs, mem, all, last)
  {
    hide Overwritten, Blank, Whole, Stale;
    var r, body := Begun(obs, all, last), all[..|all| - |last|];
    WholePart(|body|, obs);
    if last != [] && r + |last| < obs {
      hide Filled;
      var whole, part := body[..|body| - r], body[|body| - r..];
      assert body == whole + part && all == whole + part + last;
      FilledRight(obs, whole, part, last, Stale(mem, whole, obs - r - |last|));
      OsyncRest(obs, mem, all, last);
    }
  }

  lemma OsyncRest(obs: nat, mem: Bytes, all: Bytes, last: Bytes)
    requires obs >= 1 && last != [] && |last| <= |all| && |mem| == obs && Begun(obs, all, last) + |last| < obs
    ensures |all| % obs != 0
  {
    var n, r := |all| - |last|, Begun(obs, all, last);
    WholePart(n, obs);
    Remainder(n - r, obs, r + |last|);
  }

  /** A last record that leaves room is lost, whatever the buffer holds, when one of the bytes written over is
      not a space. */
  lemma OsyncLoses(obs: nat, mem: Bytes, all: Bytes, last: Bytes, i: nat)
    requires obs >= 1 && EndsIn(all, last) && |mem| == obs
    requires i < |last| && Begun(obs, all, last) + |last| + i < obs && last[i] != SPACE
    ensures OsyncRecords(obs, mem, all, last) != Filled(obs, SPACE, all)
  {
    hide Filled, Stale;
    OsyncRecordsRight(obs, mem, all, last);
  }

  /** The letter A without newline, in records of two and blocks of three. */
  lemma OsyncLosesLine(mem: Bytes, ends: set<nat>)
    requires |mem| == 3
    ensures Owed(NoTable, 2, false, [65], ends) == Due([65, SPACE], 1, [65, SPACE])
    ensures var w := OsyncRecords(3, mem, [65, SPACE], [65, SPACE]);
            w != Filled(3, SPACE, [65, SPACE]) && w[..2] == [SPACE, SPACE]
  {
    hide Filled, Stale;
    OwedLast(NoTable, 2, false, [65], ends);
    assert [65] + Spaces(NoTable, 1) == [65, SPACE];
    OsyncLoses(3, mem, [65, SPACE], [65, SPACE], 0);
    assert [65, SPACE][..0] == [];
    var stale := Stale(mem, [], 1);
    assert OsyncRecords(3, mem, [65, SPACE], [65, SPACE]) == Overwritten([65, SPACE], stale);
    OverwrittenAt([65, SPACE], stale, 0);
    OverwrittenAt([65, SPACE], stale, 1);
  }

  /** The same line in records of three and blocks of two, and the line AB in unblock: the last block is not
      filled. */
  lemma OsyncRunsOver(mem: Bytes, ends: set<nat>)
    requires |mem| == 2
    ensures Owed(NoTable, 3, false, [65], ends) == Due([65, SPACE, SPACE], 1, [65, SPACE, SPACE])
    ensures |OsyncRecords(2, mem, [65, SPACE, SPACE], [65, SPACE, SPACE])| == 3
    ensures OwedLines(3, [65, 66]) == Due([65, 66, NEWLINE], 0, [65, 66, NEWLINE])
    ensures |OsyncLines(2, [65, 66, NEWLINE], [65, 66, NEWLINE])| == 3
  {
    OwedLast(NoTable, 3, false, [65], ends);
    assert [65] + Spaces(NoTable, 2) == [65, SPACE, SPACE];
    StrippedIs([65, 66], 2);
  }

  /** In the first block of the output it is wrong for some contents of the buffer in any case. */
  lemma OsyncMayFail(obs: nat, all: Bytes, last: Bytes) returns (mem: Bytes)
    requires last != [] && EndsIn(all, last) && |all| < obs
    ensures |mem| == obs && OsyncRecords(obs, mem, all, last) != Filled(obs, SPACE, all)
  {
    hide Filled, OsyncRecords, Stale, Begun;
    mem := seq(obs, _ => 0);
    OsyncRecordsRight(obs, mem, all, last);
    BegunFirst(obs, all, last);
    var k := obs - |all|;
    assert all[..|all| - |last|][..0] == [];
    StaleZero(mem, k);
  }

  /** What a caller can know before the call: there is no last record, or it ends where a block ends, or it
      leaves room behind at least one whole block, and the bytes written over and the end of that block
      are spaces. */
  predicate Harmless(obs: nat, all: Bytes, last: Bytes)
    requires obs >= 1 && |last| <= |all|
  {
    var r, body := Begun(obs, all, last), all[..|all| - |last|];
    || last == []
    || (r + |last| >= obs && |all| % obs == 0)
    || (r + |last| < obs && |body| - r >= obs && Blank(last, body[|body| - obs + |last|..|body| - r]))
  }

  lemma StaleWritten(mem: Bytes, written: Bytes, k: nat)
    requires k <= |mem| && k <= |written|
    ensures Stale(mem, written, k) == written[|written| - k..]
  {
  }

  /** Exactly then the last block is right whatever the buffer holds. */
  lemma OsyncAlways(obs: nat, all: Bytes, last: Bytes)
    requires obs >= 1 && EndsIn(all, last)
    ensures Harmless(obs, all, last)
       <==> forall mem: Bytes :: |mem| == obs ==> OsyncRecords(obs, mem, all, last) == Filled(obs, SPACE, all)
  {
    hide Filled, OsyncRecords, Stale, Whole, Blank;
    var r, body := Begun(obs, all, last), all[..|all| - |last|];
    var first := |all| < obs && last != [];
    BeginsEarly(obs, all, last);
    if first {
      var mem := OsyncMayFail(obs, all, last);
    }
    forall mem: Bytes | |mem| == obs && !first
      ensures OsyncRecords(obs, mem, all, last) == Filled(obs, SPACE, all) <==> Harmless(obs, all, last)
    {
      OsyncRecordsRight(obs, mem, all, last);
      if last != [] && r + |last| < obs {
        var written, k := body[..|body| - r], obs - r - |last|;
        StaleWritten(mem, written, k);
        assert written[|written| - k..] == body[|body| - obs + |last|..|body| - r];
      }
    }
    var zero: Bytes := seq(obs, _ => 0);
    assert |zero| == obs;
  }

  /** A record that leaves room stands in the first block, or behind a whole one. */
  lemma BeginsEarly(obs: nat, all: Bytes, last: Bytes)
    requires obs >= 1 && |last| <= |all|
    ensures var r, n := Begun(obs, all, last), |all| - |last|;
            && r <= n && (last != [] && |all| < obs ==> r == n && |all| % obs != 0)
            && (r + |last| < obs && |all| >= obs ==> n - r >= obs)
  {
    var n := |all| - |last|;
    WholePart(n, obs);
    if last != [] && |all| < obs {
      BegunFirst(obs, all, last);
    }
    if n < obs {
      Remainder(0, obs, n);
    } else if n - n % obs < obs {
      WholeSmall(n - n % obs, obs);
    }
  }

  lemma WholeSmall(n: nat, obs: nat)
    requires Whole(n, obs) && n < obs
    ensures n == 0
  {
    Remainder(0, obs, n);
  }

  lemma BegunFirst(obs: nat, all: Bytes, last: Bytes)
    requires last != [] && |last| <= |all| < obs
    ensures Begun(obs, all, last) == |all| - |last| && |all| % obs != 0
  {
    Remainder(0, obs, |all| - |last|);
    Remainder(0, obs, |all|);
  }

  lemma StaleZero(mem: Bytes, k: nat)
    requires 1 <= k <= |mem| && forall i :: 0 <= i < |mem| ==> mem[i] == 0
    ensures Stale(mem, [], k)[k - 1] == 0
  {
    assert mem + [] == mem;
  }

  // ----- unblock

  /** s without its trailing spaces. */
  function Stripped(s: Bytes): (r: Bytes)
    ensures |r| <= |s| && r == s[..|r|]
    ensures r != [] ==> r[|r| - 1] != SPACE
    ensures forall i :: |r| <= i < |s| ==> s[i] == SPACE
  {
    if s == [] then [] else if s[|s| - 1] == SPACE then Stripped(s[..|s| - 1]) else s
  }

  lemma StrippedIs(s: Bytes, n: nat)
    requires n <= |s| && (n > 0 ==> s[n - 1] != SPACE) && forall i :: n <= i < |s| ==> s[i] == SPACE
    ensures Stripped(s) == s[..n]
  {
  }

  /** conv=unblock, once the bytes are translated */
  function Unblocked(cbsz: nat, s: Bytes): Bytes
    requires cbsz >= 1
    decreases |s|
  {
    if s == [] then []
    else if |s| < cbsz then Stripped(s) + [NEWLINE]
    else Stripped(s[..cbsz]) + [NEWLINE] + Unblocked(cbsz, s[cbsz..])
  }

  /** The line that unblock_close makes. */
  function UnblockedLast(cbsz: nat, s: Bytes): Bytes
    requires cbsz >= 1
    decreases |s|
  {
    if s == [] then [] else if |s| < cbsz then Stripped(s) + [NEWLINE] else UnblockedLast(cbsz, s[cbsz..])
  }

  function OwedLines(cbsz: nat, s: Bytes): Due
    requires cbsz >= 1
  {
    Due(Unblocked(cbsz, s), 0, UnblockedLast(cbsz, s))
  }

  lemma OwedLinesMore(cbsz: nat, r: Bytes, s: Bytes)
    requires |r| == cbsz >= 1
    ensures OwedLines(cbsz, r + s) == Given(Stripped(r) + [NEWLINE], 0, OwedLines(cbsz, s))
  {
    UnblockedMore(cbsz, r, s);
    assert (r + s)[cbsz..] == s;
  }

  lemma UnblockedMore(cbsz: nat, r: Bytes, s: Bytes)
    requires |r| == cbsz >= 1
    ensures Unblocked(cbsz, r + s) == Stripped(r) + [NEWLINE] + Unblocked(cbsz, s)
  {
    assert (r + s)[..cbsz] == r && (r + s)[cbsz..] == s;
  }

  /** A record, whose bytes from n on are spaces and whose byte before them is none, becomes a line of n bytes. */
  lemma UnblockedLaw(cbsz: nat, r: Bytes, s: Bytes, n: nat)
    requires 0 < |r| <= cbsz && (|r| < cbsz ==> s == []) && n <= |r|
    requires (n > 0 ==> r[n - 1] != 32) && forall i :: n <= i < |r| ==> r[i] == 32
    ensures Unblocked(cbsz, r + s) == r[..n] + [10] + Unblocked(cbsz, s) && Unblocked(cbsz, []) == []
  {
    StrippedIs(r, n);
    if |r| == cbsz {
      UnblockedMore(cbsz, r, s);
    } else {
      assert r + s == r;
    }
  }

  // ----- block and unblock

  /** Text that blocking keeps: every line ends in a newline, has at most cbsz bytes and no
      trailing space. */
  predicate Regular(cbsz: nat, s: Bytes)
    decreases |s|
  {
    s == [] || (
      var n := Line(s);
      n < |s| && n <= cbsz && Stripped(s[..n]) == s[..n] && Regular(cbsz, s[n + 1..]))
  }

  lemma MapNone(s: Bytes)
    ensures Map(NoTable, s) == s
  {
  }

  lemma RecordShort(cbsz: nat, line: Bytes)
    requires |line| <= cbsz
    ensures Record(NoTable, cbsz, line) == line + Spaces(NoTable, cbsz - |line|)
  {
    MapNone(line);
    if |line| == cbsz {
      RecordFull(NoTable, cbsz, line);
    }
  }

  lemma RecordStripped(cbsz: nat, line: Bytes)
    requires |line| <= cbsz && Stripped(line) == line
    ensures Stripped(Record(NoTable, cbsz, line)) == line
  {
    hide Record, Map;
    RecordShort(cbsz, line);
    StrippedIs(Record(NoTable, cbsz, line), |line|);
  }

  lemma {:induction false} RegularKept(cbsz: nat, s: Bytes)
    requires cbsz >= 1 && Regular(cbsz, s)
    ensures Unblocked(cbsz, Blocked(NoTable, cbsz, s)) == s
    decreases |s|
  {
    hide Unblocked, Record, Stripped, Line;
    if s == [] {
      UnblockedNone(cbsz);
    } else {
      var n := Line(s);
      RecordStripped(cbsz, s[..n]);
      RegularKept(cbsz, s[n + 1..]);
      UnblockedMore(cbsz, Record(NoTable, cbsz, s[..n]), Blocked(NoTable, cbsz, s[n + 1..]));
      assert s == s[..n] + [NEWLINE] + s[n + 1..];
    }
  }

  lemma UnblockedNone(cbsz: nat)
    requires cbsz >= 1
    ensures Unblocked(cbsz, []) == []
  {
  }

  lemma RegularCons(cbsz: nat, line: Bytes, s: Bytes)
    requires |line| <= cbsz && Stripped(line) == line && NEWLINE !in line && Regular(cbsz, s)
    ensures Regular(cbsz, line + [NEWLINE] + s)
  {
    hide Line, Stripped;
    LineEnd(line, s);
  }

  lemma {:induction false} UnblockedRegular(cbsz: nat, s: Bytes)
    requires cbsz >= 1 && NEWLINE !in s
    ensures Regular(cbsz, Unblocked(cbsz, s))
    decreases |s|
  {
    hide Regular, Line;
    if s == [] {
      RegularNone(cbsz);
    } else if |s| < cbsz {
      StrippedTwice(s);
      RegularNone(cbsz);
      RegularCons(cbsz, Stripped(s), []);
      assert Stripped(s) + [NEWLINE] + [] == Stripped(s) + [NEWLINE];
    } else {
      StrippedTwice(s[..cbsz]);
      UnblockedRegular(cbsz, s[cbsz..]);
      RegularCons(cbsz, Stripped(s[..cbsz]), Unblocked(cbsz, s[cbsz..]));
    }
  }

  lemma RegularNone(cbsz: nat)
    ensures Regular(cbsz, [])
  {
  }

  lemma StrippedTwice(s: Bytes)
    ensures Stripped(Stripped(s)) == Stripped(s)
  {
  }

  lemma RecordPlain(cbsz: nat, line: Bytes)
    requires NEWLINE !in line
    ensures NEWLINE !in Record(NoTable, cbsz, line) && NEWLINE !in LastRecord(NoTable, cbsz, line)
  {
  }

  lemma {:induction false} BlockedPlain(cbsz: nat, s: Bytes)
    ensures NEWLINE !in Blocked(NoTable, cbsz, s)
    decreases |s|
  {
    hide Record, LastRecord;
    var n := Line(s);
    RecordPlain(cbsz, s[..n]);
    if n < |s| {
      BlockedPlain(cbsz, s[n + 1..]);
    } else {
      assert s[..n] == s;
    }
  }

  /** Unblocking undoes blocking for regular text, and for no other. */
  lemma RoundTrip(cbsz: nat, s: Bytes)
    requires cbsz >= 1
    ensures Unblocked(cbsz, Blocked(NoTable, cbsz, s)) == s <==> Regular(cbsz, s)
  {
    if Regular(cbsz, s) {
      RegularKept(cbsz, s);
    } else {
      BlockedPlain(cbsz, s);
      UnblockedRegular(cbsz, Blocked(NoTable, cbsz, s));
    }
  }

  // ----- block with a table

  lemma RecordMapped(t: Table, cbsz: nat, line: Bytes)
    requires GoodTable(t)
    ensures Record(t, cbsz, line) == Map(t, Record(NoTable, cbsz, line))
  {
  }

  lemma LastMapped(t: Table, cbsz: nat, line: Bytes)
    requires GoodTable(t)
    ensures LastRecord(t, cbsz, line) == Map(t, LastRecord(NoTable, cbsz, line))
       <==> |line| >= cbsz || Map(t, line) == line
  {
    var a, b := LastRecord(t, cbsz, line), Map(t, LastRecord(NoTable, cbsz, line));
    if |line| < cbsz && line != [] {
      assert a[..|line|] == line && b[..|line|] == Map(t, line);
      assert a[|line|..] == b[|line|..];
      assert a == a[..|line|] + a[|line|..] && b == b[..|line|] + b[|line|..];
    }
  }

  /** Blocking and translating at once is blocking and then translating, unless the input
      ends in a short line without newline that the table changes: block_close copies that
      line untranslated. */
  lemma {:induction false} BlockedMapped(t: Table, cbsz: nat, s: Bytes)
    requires GoodTable(t)
    ensures Blocked(t, cbsz, s) == Map(t, Blocked(NoTable, cbsz, s))
       <==> |Tail(s)| >= cbsz || Map(t, Tail(s)) == Tail(s)
    decreases |s|
  {
    hide Record, LastRecord, Map;
    var n := Line(s);
    if n < |s| {
      var a, b := Record(NoTable, cbsz, s[..n]), Blocked(NoTable, cbsz, s[n + 1..]);
      BlockedMapped(t, cbsz, s[n + 1..]);
      RecordMapped(t, cbsz, s[..n]);
      MapConcat(t, a, b);
      SameHead(Map(t, a), Blocked(t, cbsz, s[n + 1..]), Map(t, b));
    } else {
      LastMapped(t, cbsz, s);
    }
  }

  lemma SameHead(a: Bytes, b: Bytes, c: Bytes)
    ensures a + b == a + c <==> b == c
  {
    if a + b == a + c {
      assert b == (a + b)[|a|..] && c == (a + c)[|a|..];
    }
  }

  /** An input on which the order matters: one byte, translated, in records of two. */
  lemma LastUntranslated(t: Table, b: Byte)
    requires GoodTable(t) && b != NEWLINE && Tr(t, b) != b
    ensures Blocked(t, 2, [b])[0] == b && Blocked(t, 2, [b]) != Map(t, Blocked(NoTable, 2, [b]))
  {
    LineIs([b], 1);
    assert Map(t, [b])[0] != b;
    BlockedMapped(t, 2, [b]);
  }
}
