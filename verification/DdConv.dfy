/** The buffers and conversion functions of dd (dd.c, conv.c).  Pointers are indices into
    the buffer, so that no access leaves it.  Reads deliver chunks of any size from 1 to
    ibs, and a write may take any part of what it is given. */
module DdConv {
  import opened DdSpec

  // ----- copying within and between buffers

  lemma SplitAt(a: array<Byte>, i: nat, j: nat, k: nat)
    requires i <= j <= k <= a.Length
    ensures a[i..k] == a[i..j] + a[j..k]
  {
  }

  lemma Associative(a: Bytes, b: Bytes, c: Bytes)
    ensures (a + b) + c == a + (b + c)
  {
  }

  /** The two buffers agree from position i on. */
  ghost predicate SameFrom(a: Bytes, b: Bytes, i: nat) {
    |a| == |b| && forall j :: i <= j < |a| ==> a[j] == b[j]
  }

  lemma SameFromTrans(a: Bytes, b: Bytes, c: Bytes, i: nat, j: nat)
    requires SameFrom(a, b, i) && SameFrom(b, c, j)
    ensures SameFrom(a, c, if i < j then j else i)
  {
  }

  lemma SameFromSlice(a: Bytes, b: Bytes, i: nat, j: nat, k: nat)
    requires SameFrom(a, b, i) && i <= j
    ensures |a| == |b| && (j <= k <= |a| ==> a[j..k] == b[j..k])
  {
  }

  lemma SameFromSelf(a: Bytes, i: nat)
    ensures SameFrom(a, a, i)
  {
  }

  /** From position p on, the buffer holds what it held in the block written before, or at first. */
  ghost predicate Echoes(mem: Bytes, written: Bytes, obs: nat, p: nat, buf: Bytes) {
    |mem| == obs && (p <= obs <= |buf| ==> buf[p..obs] == (mem + written)[|written| + p..])
  }

  lemma EchoesSame(mem: Bytes, written: Bytes, obs: nat, p: nat, a: Bytes, b: Bytes, i: nat)
    requires Echoes(mem, written, obs, p, b) && SameFrom(a, b, i) && i <= p
    ensures Echoes(mem, written, obs, p, a)
  {
    hide SameFrom;
    SameFromSlice(a, b, i, p, obs);
  }

  /** memmove to the front of the buffer */
  method ShiftBytes(db: array<Byte>, from: nat, n: nat)
    requires from + n <= db.Length
    modifies db
    ensures db[..n] == old(db[from..from + n]) && SameFrom(db[..], old(db[..]), n)
  {
    for i := 0 to n
      invariant db[..i] == old(db[from..from + i]) && forall j :: i <= j < db.Length ==> db[j] == old(db[j])
    {
      db[i] := db[from + i];
      assert db[..i + 1] == db[..i] + [db[i]];
    }
  }

  /** memset, behind the first to bytes */
  method FillBytes(dst: array<Byte>, to: nat, b: Byte, n: nat)
    requires to + n <= dst.Length
    modifies dst
    ensures dst[..to + n] == old(dst[..to]) + seq(n, _ => b) && SameFrom(dst[..], old(dst[..]), to + n)
  {
    for i := 0 to n
      invariant dst[..to + i] == old(dst[..to]) + seq(i, _ => b)
      invariant forall j :: to + i <= j < dst.Length ==> dst[j] == old(dst[j])
    {
      dst[to + i] := b;
      assert dst[..to + i + 1] == dst[..to + i] + [b];
    }
  }

  /** Bytes stored behind the first to bytes */
  method StoreBytes(dst: array<Byte>, to: nat, s: Bytes)
    requires to + |s| <= dst.Length
    modifies dst
    ensures dst[..to + |s|] == old(dst[..to]) + s && SameFrom(dst[..], old(dst[..]), to + |s|)
  {
    for i := 0 to |s|
      invariant dst[..to + i] == old(dst[..to]) + s[..i]
      invariant forall j :: to + i <= j < dst.Length ==> dst[j] == old(dst[j])
    {
      dst[to + i] := s[i];
      assert dst[..to + i + 1] == dst[..to + i] + [s[i]];
    }
  }

  method TranslateBytes(db: array<Byte>, from: nat, to: nat, t: Table)
    requires from <= to <= db.Length && GoodTable(t)
    modifies db
    ensures db[..from] == old(db[..from]) && db[from..to] == Map(t, old(db[from..to]))
  {
    if t.Tab? {
      for i := from to to
        invariant forall j :: from <= j < i ==> db[j] == Tr(t, old(db[j]))
        invariant forall j :: 0 <= j < from || i <= j < db.Length ==> db[j] == old(db[j])
      {
        db[i] := t.tab[db[i]];
      }
    }
  }

  // ----- output

  /** The record out, what has been written, and the counts bytes and trunc of st.  A signal
      interrupts a write before it takes anything; signals tells how often that is yet to happen. */
  class Output {
    const db: array<Byte>
    const dbsz: nat
    var dbp: nat
    var dbcnt: nat
    var written: Bytes
    var bytes: nat
    var trunc: nat
    var signals: nat
    /** What the first dbsz bytes of the buffer held at the beginning. */
    ghost const mem: Bytes

    /** Only whole blocks have been written. */
    ghost predicate Sound()
      reads `written, `bytes
    {
      bytes == |written| && Whole(|written|, dbsz)
    }

    /** The buffer holds less than one output block. */
    ghost predicate Valid()
      reads this, db
    {
      1 <= dbsz <= db.Length && dbp == dbcnt < dbsz && Sound()
    }

    /** All output so far. */
    ghost function All(): Bytes
      requires dbcnt <= db.Length
      reads `written, `dbcnt, db
    {
      written + db[..dbcnt]
    }

    constructor (db: array<Byte>, dbsz: nat, signals: nat)
      requires 1 <= dbsz <= db.Length
      ensures Valid() && All() == [] && written == [] && trunc == 0 && this.db == db && this.dbsz == dbsz
      ensures mem == db[..dbsz] && dbp == 0
    {
      this.db, this.dbsz, mem := db, dbsz, db[..dbsz];
      dbp, dbcnt, written, bytes, trunc, this.signals := 0, 0, [], 0, 0, signals;
    }

    /** Behind a record of cbsz bytes at dbp, the buffer holds what it held in the block written before. */
    ghost predicate Echo(cbsz: nat)
      reads `dbp, `written, db
    {
      Echoes(mem, written, dbsz, dbp + cbsz, db[..])
    }

    /** The inner loop of dd_out: n bytes at outp, in as many writes as it takes. */
    method WriteBlock(outp: nat, n: nat)
      requires 1 <= n && outp + n <= db.Length && bytes == |written|
      modifies this`written, this`bytes, this`signals
      ensures written == old(written) + db[outp..outp + n] && bytes == |written|
    {
      var p, cnt := outp, n;
      while cnt > 0
        invariant outp <= p && 0 <= cnt && p + cnt == outp + n && bytes == |written|
        invariant written == old(written) + db[outp..p]
        decreases cnt, signals
      {
        var nw: nat :| nw <= cnt && (nw == 0 ==> signals > 0);
        if nw == 0 {
          signals := signals - 1;
        }
        written, bytes := written + db[p..p + nw], bytes + nw;
        assert db[outp..p + nw] == db[outp..p] + db[p..p + nw];
        p, cnt := p + nw, cnt - nw;
      }
    }

    /** The outer loop of dd_out. */
    method WriteBlocks() returns (outp: nat)
      requires 1 <= dbsz && dbcnt <= db.Length && Sound()
      modifies this`dbcnt, this`written, this`bytes, this`signals
      ensures outp + dbcnt == old(dbcnt) && dbcnt < dbsz && Sound()
      ensures written == old(written) + db[..outp] && (dbsz <= old(dbcnt) < 2 * dbsz ==> outp == dbsz)
    {
      hide Whole;
      outp := 0;
      while dbcnt >= dbsz
        invariant outp + dbcnt == old(dbcnt) && Sound()
        invariant written == old(written) + db[..outp] && (old(dbcnt) < 2 * dbsz ==> outp == 0 || outp == dbsz)
      {
        WholeMore(|written|, dbsz);
        WriteBlock(outp, dbsz);
        assert db[..outp + dbsz] == db[..outp] + db[outp..outp + dbsz];
        outp, dbcnt := outp + dbsz, dbcnt - dbsz;
      }
    }

    /** dd_out without force: whole blocks are written, the rest moves to the front. */
    method FlushBlocks()
      requires 1 <= dbsz <= dbcnt == dbp <= db.Length && Sound()
      modifies this`dbp, this`dbcnt, this`written, this`bytes, this`signals, db
      ensures Valid() && All() == old(All()) && dbcnt <= old(dbcnt)
      ensures SameFrom(db[..], old(db[..]), dbcnt) && (old(dbcnt) < 2 * dbsz ==> written == old(written + db[..dbsz]))
    {
      hide Whole, SameFrom;
      ghost var all, w := db[..dbcnt], written;
      var outp := WriteBlocks();
      ghost var first, rest := db[..outp], db[outp..dbp];
      SplitAt(db, 0, outp, dbp);
      ShiftBytes(db, dbp - dbcnt, dbcnt);
      dbp := dbcnt;
      assert db[..dbcnt] == rest;
      Associative(w, first, rest);
    }

    /** What the conversion functions do when they have added to the output. */
    method FlushIfFull()
      requires 1 <= dbsz && dbcnt == dbp <= db.Length && dbsz <= db.Length && Sound()
      modifies this`dbp, this`dbcnt, this`written, this`bytes, this`signals, db
      ensures Valid() && All() == old(All()) && SameFrom(db[..], old(db[..]), dbcnt)
      ensures old(dbcnt) < dbsz ==> dbcnt == old(dbcnt) && written == old(written)
      ensures dbsz <= old(dbcnt) < 2 * dbsz ==> written == old(written + db[..dbsz])
    {
      hide Whole, SameFrom;
      if dbcnt >= dbsz {
        FlushBlocks();
      } else {
        SameFromSelf(db[..], dbcnt);
      }
    }

    /** dd_out with force: everything is written. */
    method FlushAll()
      requires 0 < dbcnt <= db.Length && bytes == |written|
      modifies this`dbp, this`dbcnt, this`written, this`bytes, this`signals
      ensures dbcnt == 0 && written == old(All()) && bytes == |written|
    {
      WriteBlock(0, dbcnt);
      dbcnt := 0;
      dbp := 0;
    }

    /** The part of dd_close for conv=osync: b from dbp on, as many as the last block lacks. */
    method Fill(b: Byte)
      requires dbp <= dbcnt && 1 <= dbsz <= db.Length
      modifies this`dbcnt, db
      ensures !(0 < old(dbcnt) < dbsz) ==> dbcnt == old(dbcnt) && db[..] == old(db[..])
      ensures 0 < old(dbcnt) < dbsz ==> dbcnt == dbsz
      ensures 0 < old(dbcnt) < dbsz ==>
        db[..dbsz] == old(db[..dbp]) + seq(dbsz - old(dbcnt), _ => b) + old(db[dbp + (dbsz - dbcnt)..dbsz])
    {
      if 0 < dbcnt < dbsz {
        ghost var was, k := db[..], dbsz - dbcnt;
        FillBytes(db, dbp, b, dbsz - dbcnt);
        dbcnt := dbsz;
        SameFromSlice(db[..], was, dbp + k, dbp + k, dbsz);
        SplitAt(db, 0, dbp + k, dbsz);
      }
    }

    /** dd_close, behind the close functions */
    method Close(osync: bool, b: Byte)
      requires dbp <= dbcnt <= db.Length && 1 <= dbsz <= db.Length && bytes == |written|
      modifies this`dbp, this`dbcnt, this`written, this`bytes, this`signals, db
      ensures dbcnt == 0 && bytes == |written|
      ensures !osync || old(dbcnt) == 0 || old(dbcnt) >= dbsz ==> written == old(All())
      ensures osync && 0 < old(dbcnt) < dbsz ==>
        written == old(written + db[..dbp]) + seq(dbsz - old(dbcnt), _ => b) + old(db[dbp + (dbsz - dbcnt)..dbsz])
    {
      if osync {
        Fill(b);
      }
      if dbcnt > 0 {
        FlushAll();
      }
    }

    /** dd_close when dbp stands behind the output. */
    method CloseFilled(osync: bool, b: Byte)
      requires dbp == dbcnt <= db.Length && 1 <= dbsz <= db.Length && Sound()
      modifies this`dbp, this`dbcnt, this`written, this`bytes, this`signals, db
      ensures bytes == |written|
      ensures written == if osync && old(dbcnt) <= dbsz then Filled(dbsz, b, old(All())) else old(All())
    {
      hide Filled, Whole;
      if osync && dbcnt <= dbsz {
        FilledBlock(dbsz, b, written, db[..dbcnt]);
        if dbcnt > 0 {
          assert db[dbp + (dbsz - dbcnt)..dbsz] == [];
        }
      }
      Close(osync, b);
    }
  }

  // ----- input

  /** The record in. */
  class Input {
    const db: array<Byte>
    const dbsz: nat
    var dbp: nat
    var dbcnt: nat
    var dbrcnt: nat

    ghost predicate Valid()
      reads this
    {
      dbcnt <= dbp <= db.Length && dbrcnt <= dbcnt
    }

    /** The bytes not yet converted. */
    ghost function Data(): Bytes
      requires dbcnt <= dbp <= db.Length
      reads this, db
    {
      db[dbp - dbcnt..dbp]
    }

    /** The bytes left by earlier calls, and those last read. */
    ghost function Kept(): Bytes
      requires Valid()
      reads this, db
    {
      db[dbp - dbcnt..dbp - dbrcnt]
    }

    ghost function New(): Bytes
      requires Valid()
      reads this, db
    {
      db[dbp - dbrcnt..dbp]
    }

    constructor (db: array<Byte>, dbsz: nat)
      ensures this.db == db && this.dbsz == dbsz && dbp == dbcnt == dbrcnt == 0
    {
      this.db, this.dbsz, dbp, dbcnt, dbrcnt := db, dbsz, 0, 0, 0;
    }

    /** One read of dd_in. */
    method Read(chunk: Bytes)
      requires dbp == dbcnt && dbcnt + |chunk| <= db.Length
      modifies this`dbp, this`dbcnt, this`dbrcnt, db
      ensures Valid() && dbp == dbcnt == old(dbcnt) + |chunk| && dbrcnt == |chunk|
      ensures Kept() == old(Data()) && New() == chunk && Data() == old(Data()) + chunk
    {
      ghost var was := db[..dbp];
      StoreBytes(db, dbp, chunk);
      assert db[..dbp] == db[..dbp + |chunk|][..dbp] == was;
      assert db[dbp..dbp + |chunk|] == db[..dbp + |chunk|][dbp..] == chunk;
      dbcnt, dbrcnt := dbcnt + |chunk|, |chunk|;
      dbp := dbp + dbrcnt;
      SplitAt(db, dbp - dbcnt, dbp - dbrcnt, dbp);
    }

    /** The bytes not yet converted move to the front of the buffer. */
    method Reassemble()
      requires dbcnt <= dbp <= db.Length
      modifies this`dbp, this`dbrcnt, db
      ensures Valid() && dbp == dbcnt && Data() == old(Data())
    {
      ghost var data := Data();
      ShiftBytes(db, dbp - dbcnt, dbcnt);
      dbp, dbrcnt := dbcnt, 0;
      assert Data() == db[..dbcnt] == data;
    }

    /** Translation in place of the bytes last read. */
    method Translate(t: Table)
      requires Valid() && GoodTable(t)
      modifies db
      ensures Data() == old(Kept()) + Map(t, old(New()))
    {
      hide Map;
      ghost var was := db[..dbp - dbrcnt];
      TranslateBytes(db, dbp - dbrcnt, dbp, t);
      SplitAt(db, dbp - dbcnt, dbp - dbrcnt, dbp);
      assert db[dbp - dbcnt..dbp - dbrcnt] == db[..dbp - dbrcnt][dbp - dbcnt..] == was[dbp - dbcnt..];
    }
  }

  // ----- def

  function Flat(chunks: seq<Bytes>): Bytes {
    if chunks == [] then [] else chunks[0] + Flat(chunks[1..])
  }

  /** What read returns until the end of the input. */
  predicate Chunks(chunks: seq<Bytes>, ibs: nat) {
    forall i :: 0 <= i < |chunks| ==> 1 <= |chunks[i]| <= ibs
  }

  /** Between calls of def: one buffer serves for input and output. */
  ghost predicate Shared(inp: Input, out: Output)
    reads inp, out, out.db
  {
    && inp.db == out.db && out.Valid() && inp.dbp == inp.dbcnt == out.dbcnt
    && inp.db.Length == out.dbsz + inp.dbsz - 1
  }

  method Def(inp: Input, out: Output, t: Table)
    requires inp.Valid() && inp.db == out.db && inp.dbp == inp.dbcnt && GoodTable(t)
    requires out.Sound() && 1 <= out.dbsz && 1 <= inp.dbsz && inp.db.Length == out.dbsz + inp.dbsz - 1
    modifies inp, out, inp.db
    ensures Shared(inp, out)
    ensures out.All() == old(out.written + (inp.Kept() + Map(t, inp.New())))
  {
    hide Map, GoodTable;
    inp.Translate(t);
    out.dbp, out.dbcnt := inp.dbp, inp.dbcnt;
    assert out.db[..out.dbcnt] == inp.Data();
    if inp.dbcnt >= out.dbsz {
      out.FlushBlocks();
      inp.dbp, inp.dbcnt := out.dbp, out.dbcnt;
    }
  }

  lemma FlatDone(chunks: seq<Bytes>, t: Table)
    requires GoodTable(t)
    ensures Flat(chunks[|chunks|..]) == [] && Map(t, []) == []
  {
  }

  /** One turn of dd_in. */
  method ReadDef(inp: Input, out: Output, t: Table, chunk: Bytes)
    requires Shared(inp, out) && GoodTable(t) && 1 <= |chunk| <= inp.dbsz
    modifies inp, out, inp.db
    ensures Shared(inp, out) && out.All() == old(out.All()) + Map(t, chunk)
  {
    assert inp.Data() == out.db[..out.dbcnt];
    inp.Read(chunk);
    Def(inp, out, t);
  }

  lemma FlatMore(chunks: seq<Bytes>, i: nat)
    requires i < |chunks|
    ensures Flat(chunks[i..]) == chunks[i] + Flat(chunks[i + 1..])
  {
    assert chunks[i..][1..] == chunks[i + 1..];
  }

  lemma MapLaw(t: Table, s: Bytes)
    requires GoodTable(t)
    ensures |Map(t, s)| == |s| && forall i :: 0 <= i < |s| ==> Map(t, s)[i] == if t.Tab? then t.tab[s[i]] else s[i]
  {
  }

  /** dd without record conversion: whatever the sizes of buffers, reads and writes, the
      output is the translated input, filled up to whole blocks with conv=osync. */
  method RunDef(t: Table, ibs: nat, obs: nat, osync: bool, signals: nat, chunks: seq<Bytes>) returns (out: Output)
    requires GoodTable(t) && ibs >= 1 && obs >= 1 && Chunks(chunks, ibs)
    ensures out.written == (if osync then Filled(obs, 0, Map(t, Flat(chunks))) else Map(t, Flat(chunks)))
    ensures out.bytes == |out.written|
    ensures |Flat(chunks)| <= |out.written| && (!osync ==> |out.written| == |Flat(chunks)|)
    ensures forall i :: 0 <= i < |Flat(chunks)| ==>
      out.written[i] == if t.Tab? then t.tab[Flat(chunks)[i]] else Flat(chunks)[i]
    ensures osync ==> |out.written| % obs == 0 && |out.written| < |Flat(chunks)| + obs
    ensures forall i :: |Flat(chunks)| <= i < |out.written| ==> out.written[i] == 0
  {
    hide Flat, Map, Filled, Whole;
    MapLaw(t, Flat(chunks));
    FilledLaw(obs, 0, Map(t, Flat(chunks)));
    var db := new Byte[obs + ibs - 1];
    var inp := new Input(db, ibs);
    out := new Output(db, obs, signals);
    ghost var goal := Map(t, Flat(chunks));
    assert chunks[0..] == chunks && out.All() + goal == goal;
    for i := 0 to |chunks|
      invariant fresh(inp) && fresh(out) && fresh(db) && inp.db == db && Shared(inp, out) && out.dbsz == obs
      invariant out.All() + Map(t, Flat(chunks[i..])) == goal
    {
      FlatMore(chunks, i);
      MapConcat(t, chunks[i], Flat(chunks[i + 1..]));
      ReadDef(inp, out, t, chunks[i]);
    }
    FlatDone(chunks, t);
    assert out.All() + [] == out.All();
    out.CloseFilled(osync, 0);
  }

  // ----- unblock

  /** The buffers of setup for record conversion. */
  ghost predicate Separate(inp: Input, out: Output, cbsz: nat)
    reads inp, out, out.db
  {
    && inp.db != out.db && inp.Valid() && out.Valid() && 1 <= cbsz && 1 <= inp.dbsz
    && inp.db.Length == (if inp.dbsz > cbsz then inp.dbsz else cbsz) + cbsz && out.db.Length == out.dbsz + cbsz
  }

  /** Between calls of a conversion function: less than a record is left. */
  ghost predicate Between(inp: Input, out: Output, cbsz: nat)
    reads inp, out, out.db
  {
    Separate(inp, out, cbsz) && inp.dbp == inp.dbcnt < cbsz
  }

  /** setup */
  method Setup(cbsz: nat, ibs: nat, obs: nat, signals: nat, mem: Bytes) returns (inp: Input, out: Output)
    requires cbsz >= 1 && ibs >= 1 && obs >= 1 && |mem| == obs + cbsz
    ensures fresh(inp) && fresh(out) && fresh(inp.db) && fresh(out.db) && inp.dbsz == ibs && out.dbsz == obs
    ensures Between(inp, out, cbsz) && inp.Data() == [] && out.All() == [] && out.trunc == 0
    ensures out.Echo(cbsz) && out.mem == mem[..obs]
  {
    var indb := new Byte[(if ibs > cbsz then ibs else cbsz) + cbsz];
    var outdb := new Byte[obs + cbsz](i requires 0 <= i < |mem| => mem[i]);
    assert outdb[..] == mem;
    inp := new Input(indb, ibs);
    out := new Output(outdb, obs, signals);
    assert out.mem == mem[..obs];
    if cbsz <= obs {
      assert out.mem + [] == mem[..obs] && outdb[cbsz..obs] == mem[..obs][cbsz..];
    }
  }

  /** The number of bytes before the trailing spaces. */
  method Trim(db: array<Byte>, from: nat, n: nat) returns (cnt: nat)
    requires from + n <= db.Length
    ensures cnt <= n && db[from..from + cnt] == Stripped(db[from..from + n])
  {
    ghost var rec := db[from..from + n];
    cnt := n;
    while cnt > 0 && db[from + cnt - 1] == SPACE
      invariant cnt <= n && forall i :: cnt <= i < n ==> rec[i] == SPACE
    {
      cnt := cnt - 1;
    }
    StrippedIs(rec, cnt);
  }

  /** n bytes of the input at from, without trailing spaces, and a newline. */
  method PutStripped(inp: Input, out: Output, from: nat, n: nat)
    requires inp.db != out.db && from + n <= inp.db.Length && out.dbp == out.dbcnt && out.dbcnt + n < out.db.Length
    modifies out`dbp, out`dbcnt, out.db
    ensures out.dbp == out.dbcnt <= old(out.dbcnt) + n + 1
    ensures out.All() == old(out.All()) + (Stripped(inp.db[from..from + n]) + [NEWLINE])
  {
    hide Stripped;
    var cnt := Trim(inp.db, from, n);
    StoreBytes(out.db, out.dbp, inp.db[from..from + cnt]);
    out.dbp, out.dbcnt := out.dbp + cnt, out.dbcnt + cnt;
    StoreBytes(out.db, out.dbp, [NEWLINE]);
    out.dbp, out.dbcnt := out.dbp + 1, out.dbcnt + 1;
  }

  /** One turn of the loop of unblock. */
  method UnblockRecord(inp: Input, out: Output, cbsz: nat, ghost more: Bytes)
    requires Separate(inp, out, cbsz) && inp.dbrcnt == 0 && inp.dbcnt >= cbsz
    modifies inp`dbcnt, out, out.db
    ensures Separate(inp, out, cbsz) && inp.dbcnt == old(inp.dbcnt) - cbsz
    ensures Given(out.All(), 0, OwedLines(cbsz, inp.Data() + more)) == old(Given(out.All(), 0, OwedLines(cbsz, inp.Data() + more)))
  {
    hide OwedLines, Stripped, Output.Sound, Given, SameFrom, Output.All;
    ghost var data, all := inp.Data(), out.All();
    var p := inp.dbp - inp.dbcnt;
    ghost var rec := inp.db[p..p + cbsz];
    PutStripped(inp, out, p, cbsz);
    out.FlushIfFull();
    inp.dbcnt := inp.dbcnt - cbsz;
    assert data + more == rec + (inp.Data() + more);
    OwedLinesMore(cbsz, rec, inp.Data() + more);
    GivenTwice(all, 0, Stripped(rec) + [NEWLINE], 0, OwedLines(cbsz, inp.Data() + more));
  }

  /** The loop of unblock. */
  method UnblockRecords(inp: Input, out: Output, cbsz: nat, ghost more: Bytes)
    requires Separate(inp, out, cbsz)
    modifies inp`dbcnt, inp`dbrcnt, out, out.db
    ensures Separate(inp, out, cbsz) && inp.dbcnt < cbsz
    ensures Given(out.All(), 0, OwedLines(cbsz, inp.Data() + more)) == old(Given(out.All(), 0, OwedLines(cbsz, inp.Data() + more)))
  {
    hide OwedLines;
    inp.dbrcnt := 0;
    while inp.dbcnt >= cbsz
      invariant Separate(inp, out, cbsz) && inp.dbrcnt == 0
      invariant Given(out.All(), 0, OwedLines(cbsz, inp.Data() + more)) == old(Given(out.All(), 0, OwedLines(cbsz, inp.Data() + more)))
    {
      UnblockRecord(inp, out, cbsz, more);
    }
  }

  method Unblock(inp: Input, out: Output, t: Table, cbsz: nat, ghost more: Bytes)
    requires Separate(inp, out, cbsz) && GoodTable(t) && inp.dbp == inp.dbcnt
    modifies inp, inp.db, out, out.db
    ensures Between(inp, out, cbsz)
    ensures Given(out.All(), 0, OwedLines(cbsz, inp.Data() + more))
         == old(Given(out.All(), 0, OwedLines(cbsz, (inp.Kept() + Map(t, inp.New())) + more)))
  {
    hide OwedLines, Map, Given, Output.All, Output.Sound, Input.Data, Input.Kept, Input.New;
    inp.Translate(t);
    UnblockRecords(inp, out, cbsz, more);
    inp.Reassemble();
  }

  /** One turn of dd_in. */
  method ReadUnblock(inp: Input, out: Output, t: Table, cbsz: nat, chunk: Bytes, ghost more: Bytes)
    requires Between(inp, out, cbsz) && GoodTable(t) && 1 <= |chunk| <= inp.dbsz
    modifies inp, inp.db, out, out.db
    ensures Between(inp, out, cbsz)
    ensures Given(out.All(), 0, OwedLines(cbsz, inp.Data() + more))
         == old(Given(out.All(), 0, OwedLines(cbsz, inp.Data() + (Map(t, chunk) + more))))
  {
    hide OwedLines, Map;
    ghost var data := inp.Data();
    assert data + (Map(t, chunk) + more) == (data + Map(t, chunk)) + more;
    inp.Read(chunk);
    Unblock(inp, out, t, cbsz, more);
  }

  /** dd conv=unblock */
  method RunUnblock(t: Table, cbsz: nat, ibs: nat, obs: nat, osync: bool, signals: nat, mem: Bytes, chunks: seq<Bytes>)
    returns (out: Output)
    requires GoodTable(t) && cbsz >= 1 && ibs >= 1 && obs >= 1 && Chunks(chunks, ibs) && |mem| == obs + cbsz
    ensures out.bytes == |out.written|
    ensures !osync ==> out.written == Unblocked(cbsz, Map(t, Flat(chunks)))
    ensures osync ==> var Due(all, _, last) := OwedLines(cbsz, Map(t, Flat(chunks)));
      && |last| <= |all| && out.written == OsyncLines(obs, all, last)
      && (out.written == Filled(obs, SPACE, all) <==> Begun(obs, all, last) + |last| <= obs || |all| % obs == 0)
  {
    hide OwedLines, Map, Flat, Filled, Begun, OsyncLines;
    var inp;
    inp, out := Setup(cbsz, ibs, obs, signals, mem);
    ghost var goal := OwedLines(cbsz, Map(t, Flat(chunks)));
    assert chunks[0..] == chunks;
    assert inp.Data() + Map(t, Flat(chunks)) == Map(t, Flat(chunks)) && out.All() + goal.bytes == goal.bytes;
    for i := 0 to |chunks|
      invariant fresh(inp) && fresh(out) && fresh(inp.db) && fresh(out.db) && Between(inp, out, cbsz) && out.dbsz == obs
      invariant Given(out.All(), 0, OwedLines(cbsz, inp.Data() + Map(t, Flat(chunks[i..])))) == goal
    {
      FlatMore(chunks, i);
      MapConcat(t, chunks[i], Flat(chunks[i + 1..]));
      ReadUnblock(inp, out, t, cbsz, chunks[i], Map(t, Flat(chunks[i + 1..])));
    }
    FlatDone(chunks, t);
    assert inp.Data() + [] == inp.Data();
    CloseUnblock(inp, out, cbsz, osync);
    OwedLinesAre(cbsz, Map(t, Flat(chunks)));
    if osync {
      OsyncLinesRight(obs, goal.bytes, goal.last);
    }
  }

  lemma OwedLinesAre(cbsz: nat, s: Bytes)
    requires cbsz >= 1
    ensures OwedLines(cbsz, s).bytes == Unblocked(cbsz, s)
  {
  }

  lemma OwedLinesLast(cbsz: nat, s: Bytes)
    requires cbsz >= 1 && |s| < cbsz
    ensures var last := if s == [] then [] else Stripped(s) + [NEWLINE]; OwedLines(cbsz, s) == Due(last, 0, last)
  {
  }

  /** unblock_close and dd_close */
  method CloseUnblock(inp: Input, out: Output, cbsz: nat, osync: bool)
    requires Between(inp, out, cbsz)
    modifies inp, out, out.db
    ensures out.bytes == |out.written|
    ensures var Due(all, _, last) := old(Given(out.All(), 0, OwedLines(cbsz, inp.Data())));
            && (!osync ==> out.written == all)
            && (osync ==> |last| <= |all| && out.written == OsyncLines(out.dbsz, all, last))
  {
    hide OwedLines, Filled, Whole, Stripped, OsyncLines;
    OwedLinesLast(cbsz, inp.Data());
    Residue(out);
    ghost var was, r, last := out.All(), out.dbcnt, OwedLines(cbsz, inp.Data()).last;
    if inp.dbcnt > 0 {
      assert inp.Data() == inp.db[0..0 + inp.dbcnt];
      PutStripped(inp, out, 0, inp.dbcnt);
    }
    assert out.All() == was + last && out.dbcnt == r + |last|;
    LateIs(out.dbsz, was, last);
    out.CloseFilled(osync, SPACE);
  }

  lemma LateIs(obs: nat, was: Bytes, last: Bytes)
    requires obs >= 1
    ensures OsyncLines(obs, was + last, last)
         == if |was| % obs + |last| <= obs then Filled(obs, SPACE, was + last) else was + last
  {
    hide Filled;
    assert |was + last| - |last| == |was|;
  }

  /** The size of the output tells how full the last block is. */
  lemma Residue(out: Output)
    requires out.Valid()
    ensures |out.All()| % out.dbsz == out.dbcnt
  {
    Remainder(|out.written|, out.dbsz, out.dbcnt);
  }

  // ----- block

  /** The loops that skip to a newline among n bytes: how many bytes are left, the newline
      included. */
  method Skip(db: array<Byte>, from: nat, n: nat) returns (cnt: nat)
    requires from + n <= db.Length
    ensures cnt <= n && NEWLINE !in db[from..from + n - cnt]
    ensures cnt > 0 ==> db[from + n - cnt] == NEWLINE
  {
    cnt := n;
    while cnt > 0 && db[from + n - cnt] != NEWLINE
      invariant cnt <= n && NEWLINE !in db[from..from + n - cnt]
    {
      assert db[from..from + n - cnt + 1] == db[from..from + n - cnt] + [db[from + n - cnt]];
      cnt := cnt - 1;
    }
  }

  /** The loops that copy a line to the output buffer, up to maxlen bytes or a newline. */
  method CopyLine(inp: Input, out: Output, t: Table, p: nat, maxlen: nat) returns (cnt: nat, newline: bool)
    requires inp.db != out.db && GoodTable(t) && p + maxlen <= inp.db.Length && out.dbp + maxlen <= out.db.Length
    modifies out.db
    ensures cnt <= maxlen && out.db[..out.dbp + cnt] == old(out.db[..out.dbp]) + Map(t, inp.db[p..p + cnt])
    ensures Unended(inp.db[p..p + cnt]) && newline == (cnt < maxlen)
    ensures newline ==> inp.db[p + cnt] == NEWLINE
    ensures SameFrom(out.db[..], old(out.db[..]), out.dbp + cnt)
  {
    hide Map, Unended, Copied, SameFrom;
    cnt, newline := 0, false;
    CopyNone(t);
    assert inp.db[p..p + cnt] == [];
    CopiedNone(out.db[..], out.dbp);
    ghost var was := out.db[..];
    while cnt < maxlen && !newline
      invariant cnt <= maxlen && Unended(inp.db[p..p + cnt])
      invariant Copied(out.db[..], was, out.dbp, Map(t, inp.db[p..p + cnt]))
      invariant newline ==> cnt < maxlen && inp.db[p + cnt] == NEWLINE
      decreases !newline, maxlen - cnt
    {
      var ch := inp.db[p + cnt];
      if ch == NEWLINE {
        newline := true;
      } else {
        SplitAt(inp.db, p, p + cnt, p + cnt + 1);
        CopyMore(t, inp.db[p..p + cnt], ch);
        ghost var mid := out.db[..];
        StoreBytes(out.db, out.dbp + cnt, [Tr(t, ch)]);
        CopiedMore(mid, out.db[..], was, out.dbp, Map(t, inp.db[p..p + cnt]), Tr(t, ch));
        cnt := cnt + 1;
      }
    }
    CopiedIs(out.db[..], was, out.dbp, Map(t, inp.db[p..p + cnt]));
  }

  /** The bytes rec have been stored at p. */
  ghost predicate Copied(buf: Bytes, was: Bytes, p: nat, rec: Bytes) {
    |buf| == |was| && p + |rec| <= |buf| && buf[..p + |rec|] == was[..p] + rec && SameFrom(buf, was, p + |rec|)
  }

  lemma CopiedNone(buf: Bytes, p: nat)
    requires p <= |buf|
    ensures Copied(buf, buf, p, [])
  {
  }

  lemma CopiedMore(mid: Bytes, buf: Bytes, was: Bytes, p: nat, rec: Bytes, b: Byte)
    requires Copied(mid, was, p, rec) && p + |rec| < |mid| == |buf|
    requires buf[..p + |rec| + 1] == mid[..p + |rec|] + [b] && SameFrom(buf, mid, p + |rec| + 1)
    ensures Copied(buf, was, p, rec + [b])
  {
    Associative(was[..p], rec, [b]);
    SameFromTrans(buf, mid, was, p + |rec| + 1, p + |rec|);
  }

  lemma CopiedIs(buf: Bytes, was: Bytes, p: nat, rec: Bytes)
    requires Copied(buf, was, p, rec)
    ensures |buf| == |was| && p + |rec| <= |buf| && buf[..p + |rec|] == was[..p] + rec && SameFrom(buf, was, p + |rec|)
  {
  }

  lemma CopyNone(t: Table)
    requires GoodTable(t)
    ensures Map(t, []) == [] && Unended([])
  {
  }

  lemma CopyMore(t: Table, s: Bytes, ch: Byte)
    requires GoodTable(t) && Unended(s) && ch != NEWLINE
    ensures Map(t, s + [ch]) == Map(t, s) + [Tr(t, ch)] && Unended(s + [ch])
  {
  }

  /** The record behind the output becomes part of it. */
  method PutRecord(out: Output, cbsz: nat, ghost done: Bytes, ghost rec: Bytes)
    requires out.Valid() && 1 <= cbsz == |rec| && out.db.Length == out.dbsz + cbsz
    requires out.db[..out.dbp + cbsz] == done + rec && out.Echo(cbsz)
    modifies out`dbp, out`dbcnt, out`written, out`bytes, out`signals, out.db
    ensures out.Valid() && out.All() == old(out.written + done) + rec && out.Echo(cbsz)
  {
    hide Whole, SameFrom, Echoes;
    assert out.written + (done + rec) == (out.written + done) + rec;
    ghost var p, was, w := out.dbp, out.db[..], out.written;
    out.dbp := out.dbp + cbsz;
    out.dbcnt := out.dbcnt + cbsz;
    out.FlushIfFull();
    EchoNext(out.mem, w, was, out.dbsz, p, cbsz, out.dbp, out.written);
    EchoesSame(out.mem, out.written, out.dbsz, out.dbp + cbsz, out.db[..], was, out.dbp);
  }

  /** The buffer before a record is put at p, and after. */
  lemma EchoNext(mem: Bytes, w: Bytes, buf: Bytes, obs: nat, p: nat, cbsz: nat, p': nat, w': Bytes)
    requires Echoes(mem, w, obs, p + cbsz, buf) && p < obs <= |buf|
    requires (p + cbsz < obs && p' == p + cbsz && w' == w) || (p + cbsz >= obs && (cbsz < obs ==> w' == w + buf[..obs]))
    ensures Echoes(mem, w', obs, p' + cbsz, buf)
  {
    if p' + cbsz <= obs {
      if p + cbsz < obs {
        assert buf[p' + cbsz..obs] == buf[p + cbsz..obs][cbsz..];
        assert (mem + w)[|w| + p' + cbsz..] == (mem + w)[|w| + p + cbsz..][cbsz..];
      } else if cbsz < obs {
        assert mem + w' == (mem + w) + buf[..obs];
        assert (mem + w')[|w'| + p' + cbsz..] == buf[..obs][p' + cbsz..] == buf[p' + cbsz..obs];
      } else {
        assert buf[p' + cbsz..obs] == [] && (mem + w')[|w'| + p' + cbsz..] == [];
      }
    }
  }

  /** Padding: the line behind the output becomes a record. */
  method PadRecord(out: Output, t: Table, cbsz: nat, cnt: nat, ghost done: Bytes, ghost line: Bytes)
    requires out.Valid() && cnt == |line| < cbsz && out.db.Length == out.dbsz + cbsz && GoodTable(t)
    requires out.db[..out.dbp + cnt] == done + Map(t, line) && out.Echo(cbsz)
    modifies out.db
    ensures out.db[..out.dbp + cbsz] == done + Record(t, cbsz, line) && out.Echo(cbsz)
  {
    hide Map, Spaces, Whole, SameFrom, Echoes;
    SpacesAre(t, cbsz - cnt);
    FillBytes(out.db, out.dbp + cnt, Tr(t, SPACE), cbsz - cnt);
    EchoesSame(out.mem, out.written, out.dbsz, out.dbp + cbsz, out.db[..], old(out.db[..]), out.dbp + cbsz);
    assert (done + Map(t, line)) + Spaces(t, cbsz - cnt) == done + (Map(t, line) + Spaces(t, cbsz - cnt));
  }

  /** What has been given, and what the bytes not yet converted and those not yet read, more, are
      to give. */
  ghost function Total(inp: Input, out: Output, t: Table, cbsz: nat, skip: bool, more: Bytes, ends: set<nat>): Due
    requires GoodTable(t) && inp.dbcnt <= inp.dbp <= inp.db.Length && out.dbcnt <= out.db.Length
    reads inp, inp.db, out, out.db
  {
    Given(out.All(), out.trunc, Owed(t, cbsz, skip, inp.Data() + more, ends))
  }

  /** A line of less than cbsz bytes: it is padded. */
  method EndLine(inp: Input, out: Output, t: Table, cbsz: nat, cnt: nat, ghost done: Bytes, ghost more: Bytes,
                 ghost ends: set<nat>)
    requires Separate(inp, out, cbsz) && out.Echo(cbsz) && GoodTable(t) && cnt < inp.dbcnt && cnt < cbsz
    requires var line := inp.db[inp.dbp - inp.dbcnt..inp.dbp - inp.dbcnt + cnt];
             out.db[..out.dbp + cnt] == done + Map(t, line) && NEWLINE !in line
    requires inp.db[inp.dbp - inp.dbcnt + cnt] == NEWLINE
    modifies inp`dbcnt, out, out.db
    ensures inp.dbcnt < old(inp.dbcnt) && out.Valid() && out.Echo(cbsz)
    ensures Total(inp, out, t, cbsz, false, more, ends)
         == old(Given(out.written + done, out.trunc, Owed(t, cbsz, false, inp.Data() + more, ends)))
  {
    hide Map, Owed, Record, Output.Sound, Output.Echo;
    ghost var line := inp.db[inp.dbp - inp.dbcnt..inp.dbp - inp.dbcnt + cnt];
    ghost var data, w := inp.Data(), out.written + done;
    inp.dbcnt := inp.dbcnt - cnt - 1;
    assert data + more == line + [NEWLINE] + (inp.Data() + more);
    OwedLine(t, cbsz, line, inp.Data() + more, ends);
    GivenTwice(w, out.trunc, Record(t, cbsz, line), 0, Owed(t, cbsz, false, inp.Data() + more, ends));
    PadRecord(out, t, cbsz, cnt, done, line);
    PutRecord(out, cbsz, done, Record(t, cbsz, line));
  }

  /** The rest of a cut line is skipped, as far as it has been read. */
  method SkipCut(inp: Input, t: Table, cbsz: nat, ghost more: Bytes, ghost ends: set<nat>) returns (skip: bool)
    requires inp.dbcnt <= inp.dbp <= inp.db.Length && GoodTable(t)
    modifies inp`dbcnt
    ensures inp.dbcnt <= old(inp.dbcnt) && (skip ==> inp.dbcnt == 0)
    ensures Owed(t, cbsz, skip, inp.Data() + more, ends) == old(Owed(t, cbsz, true, inp.Data() + more, ends))
  {
    hide Owed;
    var left := Skip(inp.db, inp.dbp - inp.dbcnt, inp.dbcnt);
    ghost var junk, data := inp.db[inp.dbp - inp.dbcnt..inp.dbp - left], inp.Data();
    skip := left == 0;
    inp.dbcnt := if skip then 0 else left - 1;
    if skip {
      assert data + more == junk + (inp.Data() + more);
    } else {
      assert data + more == junk + [NEWLINE] + (inp.Data() + more);
    }
    OwedSkip(t, cbsz, junk, inp.Data() + more, ends);
  }

  /** Is a line of cbsz bytes cut?  The answer is also yes when nothing has been read behind it. */
  method CountCut(inp: Input, out: Output, cbsz: nat, ghost more: Bytes, ghost ends: set<nat>)
    requires inp.dbcnt <= inp.dbp <= inp.db.Length && Clear(ends, |more|, inp.dbcnt + cbsz, cbsz)
    modifies out`trunc
    ensures var s := inp.Data() + more;
            out.trunc == old(out.trunc) + (if s == [] || s[0] != NEWLINE || |s| in ends then 1 else 0)
  {
    if inp.dbcnt == 0 || inp.db[inp.dbp - inp.dbcnt] != NEWLINE {
      out.trunc := out.trunc + 1;
    }
  }

  /** A line of cbsz bytes or more. */
  method CutLine(inp: Input, out: Output, t: Table, cbsz: nat, ghost done: Bytes, ghost more: Bytes, ghost ends: set<nat>)
    returns (skip: bool)
    requires Separate(inp, out, cbsz) && out.Echo(cbsz) && GoodTable(t) && cbsz <= inp.dbcnt
    requires Clear(ends, |more|, inp.dbcnt, cbsz)
    requires var line := inp.db[inp.dbp - inp.dbcnt..inp.dbp - inp.dbcnt + cbsz];
             out.db[..out.dbp + cbsz] == done + Map(t, line) && NEWLINE !in line
    modifies inp`dbcnt, out, out.db
    ensures inp.dbcnt < old(inp.dbcnt) && out.Valid() && out.Echo(cbsz) && (skip ==> inp.dbcnt == 0)
    ensures Total(inp, out, t, cbsz, skip, more, ends)
         == old(Given(out.written + done, out.trunc, Owed(t, cbsz, false, inp.Data() + more, ends)))
  {
    hide Map, Owed, Record, Clear, Output.Sound, Output.Echo, Given;
    ghost var line := inp.db[inp.dbp - inp.dbcnt..inp.dbp - inp.dbcnt + cbsz];
    ghost var data, w, n := inp.Data(), out.written + done, out.trunc;
    RecordFull(t, cbsz, line);
    inp.dbcnt := inp.dbcnt - cbsz;
    SplitAt(inp.db, inp.dbp - inp.dbcnt - cbsz, inp.dbp - inp.dbcnt, inp.dbp);
    Associative(line, inp.Data(), more);
    ghost var owed := Owed(t, cbsz, true, inp.Data() + more, ends);
    OwedCut(t, cbsz, line, inp.Data() + more, ends);
    CountCut(inp, out, cbsz, more, ends);
    GivenTwice(w, n, Record(t, cbsz, line), out.trunc - n, owed);
    skip := SkipCut(inp, t, cbsz, more, ends);
    PutRecord(out, cbsz, done, Record(t, cbsz, line));
  }

  /** One turn of the loop of block; wait tells that the line is short and has not ended. */
  method BlockRecord(inp: Input, out: Output, t: Table, cbsz: nat, ghost more: Bytes, ghost ends: set<nat>)
    returns (skip: bool, wait: bool)
    requires Separate(inp, out, cbsz) && out.Echo(cbsz) && GoodTable(t) && inp.dbcnt > 0 && Clear(ends, |more|, inp.dbcnt, cbsz)
    modifies inp`dbcnt, out, out.db
    ensures out.Valid() && out.Echo(cbsz) && (skip ==> inp.dbcnt == 0) && inp.dbcnt <= old(inp.dbcnt)
    ensures if wait then inp.dbcnt < cbsz && !skip && Unended(inp.Data()) else inp.dbcnt < old(inp.dbcnt)
    ensures Total(inp, out, t, cbsz, skip, more, ends) == old(Total(inp, out, t, cbsz, false, more, ends))
  {
    hide Map, Owed, Clear, Whole, Echoes, Given, SameFrom;
    var maxlen := if cbsz < inp.dbcnt then cbsz else inp.dbcnt;
    ghost var done, was := out.db[..out.dbp], out.db[..];
    var cnt, newline := CopyLine(inp, out, t, inp.dbp - inp.dbcnt, maxlen);
    EchoesSame(out.mem, out.written, out.dbsz, out.dbp + cbsz, out.db[..], was, out.dbp + cnt);
    skip, wait := false, !newline && inp.dbcnt < cbsz;
    if wait {
      assert out.db[..out.dbp] == out.db[..out.dbp + cnt][..out.dbp] == done;
    } else if cnt < cbsz {
      EndLine(inp, out, t, cbsz, cnt, done, more, ends);
    } else {
      skip := CutLine(inp, out, t, cbsz, done, more, ends);
    }
  }

  /** The loop of block. */
  method BlockRecords(inp: Input, out: Output, t: Table, cbsz: nat, ghost more: Bytes, ghost ends: set<nat>)
    returns (skip: bool)
    requires Separate(inp, out, cbsz) && out.Echo(cbsz) && GoodTable(t) && Clear(ends, |more|, inp.dbcnt, cbsz)
    modifies inp`dbcnt, inp`dbrcnt, out, out.db
    ensures Separate(inp, out, cbsz) && out.Echo(cbsz) && inp.dbcnt < cbsz && (skip ==> inp.dbcnt == 0) && Unended(inp.Data())
    ensures Total(inp, out, t, cbsz, skip, more, ends) == old(Total(inp, out, t, cbsz, false, more, ends))
  {
    hide Owed, Given, Clear, Whole;
    var wait := false;
    skip := false;
    inp.dbrcnt := 0;
    ghost var n, goal := inp.dbcnt, Total(inp, out, t, cbsz, false, more, ends);
    while inp.dbcnt > 0 && !wait
      invariant Separate(inp, out, cbsz) && out.Echo(cbsz) && (skip ==> inp.dbcnt == 0) && inp.dbcnt <= n
      invariant wait ==> inp.dbcnt < cbsz && Unended(inp.Data())
      invariant inp.dbrcnt == 0 && Total(inp, out, t, cbsz, skip, more, ends) == goal
      decreases !wait, inp.dbcnt
    {
      ClearLess(ends, |more|, n, inp.dbcnt, cbsz);
      skip, wait := BlockRecord(inp, out, t, cbsz, more, ends);
    }
  }

  /** Between calls of block: a line that has not ended, or skip: a cut line whose rest is yet
      to come. */
  ghost predicate Waiting(inp: Input, out: Output, cbsz: nat, skip: bool)
    reads inp, inp.db, out, out.db
  {
    Between(inp, out, cbsz) && out.Echo(cbsz) && (skip ==> inp.dbcnt == 0) && Unended(inp.Data())
  }

  /** block before its last statement; intrunc is its static variable. */
  method BlockData(inp: Input, out: Output, t: Table, cbsz: nat, intrunc: bool, ghost more: Bytes, ghost ends: set<nat>)
    returns (skip: bool)
    requires Separate(inp, out, cbsz) && out.Echo(cbsz) && GoodTable(t) && inp.dbp == inp.dbcnt && (intrunc ==> inp.dbrcnt == inp.dbcnt)
    requires Clear(ends, |more|, inp.dbcnt, cbsz)
    modifies inp`dbcnt, inp`dbrcnt, out, out.db
    ensures Separate(inp, out, cbsz) && out.Echo(cbsz) && inp.dbcnt < cbsz && (skip ==> inp.dbcnt == 0) && Unended(inp.Data())
    ensures Total(inp, out, t, cbsz, skip, more, ends) == old(Total(inp, out, t, cbsz, intrunc, more, ends))
  {
    hide Owed, Clear, Given, Unended, GoodTable, Output.Sound, Output.Echo, Output.All;
    inp.dbrcnt := 0;
    ghost var n := inp.dbcnt;
    if intrunc {
      skip := SkipCut(inp, t, cbsz, more, ends);
      if skip {
        UnendedNone();
        assert inp.Data() == [];
        return;
      }
    }
    ClearLess(ends, |more|, n, inp.dbcnt, cbsz);
    skip := BlockRecords(inp, out, t, cbsz, more, ends);
  }

  method Block(inp: Input, out: Output, t: Table, cbsz: nat, intrunc: bool, ghost more: Bytes, ghost ends: set<nat>)
    returns (skip: bool)
    requires Separate(inp, out, cbsz) && out.Echo(cbsz) && GoodTable(t) && inp.dbp == inp.dbcnt && (intrunc ==> inp.dbrcnt == inp.dbcnt)
    requires Clear(ends, |more|, inp.dbcnt, cbsz)
    modifies inp, inp.db, out, out.db
    ensures Waiting(inp, out, cbsz, skip)
    ensures Total(inp, out, t, cbsz, skip, more, ends) == old(Total(inp, out, t, cbsz, intrunc, more, ends))
  {
    hide Owed, Unended, Clear, Whole, Given;
    skip := BlockData(inp, out, t, cbsz, intrunc, more, ends);
    Settle(inp, out, cbsz, skip);
  }

  /** The last statements of block */
  method Settle(inp: Input, out: Output, cbsz: nat, ghost skip: bool)
    requires Separate(inp, out, cbsz) && out.Echo(cbsz) && inp.dbcnt < cbsz && (skip ==> inp.dbcnt == 0) && Unended(inp.Data())
    modifies inp`dbp, inp`dbrcnt, inp.db
    ensures Waiting(inp, out, cbsz, skip) && inp.Data() == old(inp.Data()) && out.All() == old(out.All())
  {
    hide Unended, Output.Sound, Output.All, Input.Data;
    inp.Reassemble();
  }

  lemma DataSize(inp: Input)
    requires inp.dbcnt <= inp.dbp <= inp.db.Length
    ensures |inp.Data()| == inp.dbcnt
  {
  }

  /** One turn of dd_in. */
  method ReadBlock(inp: Input, out: Output, t: Table, cbsz: nat, intrunc: bool, chunk: Bytes, ghost more: Bytes,
                   ghost ends: set<nat>)
    returns (skip: bool)
    requires Waiting(inp, out, cbsz, intrunc) && GoodTable(t) && 1 <= |chunk| <= inp.dbsz
    requires Clear(ends, |more|, |chunk|, 1)
    modifies inp, inp.db, out, out.db
    ensures Waiting(inp, out, cbsz, skip)
    ensures Total(inp, out, t, cbsz, skip, more, ends) == old(Total(inp, out, t, cbsz, intrunc, chunk + more, ends))
  {
    hide Owed, Clear, Given, Unended, Output.Echo, Output.Sound, Output.All, Input.Data, Input.Kept, Input.New;
    ghost var data := inp.Data();
    DataSize(inp);
    assert data + (chunk + more) == (data + chunk) + more;
    ClearRead(ends, |more|, |chunk|, |data|, cbsz);
    inp.Read(chunk);
    skip := Block(inp, out, t, cbsz, intrunc, more, ends);
  }

  /** How many bytes are yet to be read, before the first read and after each. */
  ghost function Ends(chunks: seq<Bytes>): set<nat> {
    set i | 0 <= i <= |chunks| :: |Flat(chunks[i..])|
  }

  lemma {:induction false} FlatLess(chunks: seq<Bytes>, i: nat, j: nat)
    requires i <= j <= |chunks|
    ensures |Flat(chunks[j..])| <= |Flat(chunks[i..])|
    decreases j - i
  {
    if i < j {
      FlatMore(chunks, i);
      FlatLess(chunks, i + 1, j);
    }
  }

  lemma EndsClear(chunks: seq<Bytes>, i: nat)
    requires i < |chunks|
    ensures Clear(Ends(chunks), |Flat(chunks[i + 1..])|, |chunks[i]|, 1)
  {
    FlatMore(chunks, i);
    forall e | e in Ends(chunks)
      ensures e <= |Flat(chunks[i + 1..])| || e >= |Flat(chunks[i..])|
    {
      var k :| 0 <= k <= |chunks| && e == |Flat(chunks[k..])|;
      if k <= i {
        FlatLess(chunks, k, i);
      } else {
        FlatLess(chunks, i + 1, k);
      }
    }
  }

  /** The loop of dd_in */
  method ReadBlocks(inp: Input, out: Output, t: Table, cbsz: nat, chunks: seq<Bytes>) returns (intrunc: bool)
    requires Waiting(inp, out, cbsz, false) && GoodTable(t) && Chunks(chunks, inp.dbsz)
    modifies inp, inp.db, out, out.db
    ensures Waiting(inp, out, cbsz, intrunc)
    ensures Total(inp, out, t, cbsz, intrunc, [], Ends(chunks)) == old(Total(inp, out, t, cbsz, false, Flat(chunks), Ends(chunks)))
  {
    hide Total, Flat, Clear, Ends, Output.Echo, Unended;
    ghost var ends := Ends(chunks);
    intrunc := false;
    assert chunks[0..] == chunks;
    for i := 0 to |chunks|
      invariant Waiting(inp, out, cbsz, intrunc)
      invariant Total(inp, out, t, cbsz, intrunc, Flat(chunks[i..]), ends) == old(Total(inp, out, t, cbsz, false, Flat(chunks), ends))
    {
      FlatMore(chunks, i);
      EndsClear(chunks, i);
      intrunc := ReadBlock(inp, out, t, cbsz, intrunc, chunks[i], Flat(chunks[i + 1..]), ends);
    }
    FlatDone(chunks, t);
  }

  lemma TotalStart(inp: Input, out: Output, t: Table, cbsz: nat, s: Bytes, ends: set<nat>)
    requires GoodTable(t) && inp.dbcnt <= inp.dbp <= inp.db.Length && out.dbcnt <= out.db.Length
    requires inp.Data() == [] && out.All() == [] && out.trunc == 0
    ensures Total(inp, out, t, cbsz, false, s, ends) == Owed(t, cbsz, false, s, ends)
  {
    hide Owed;
    assert [] + s == s && [] + Owed(t, cbsz, false, s, ends).bytes == Owed(t, cbsz, false, s, ends).bytes;
  }

  /** dd conv=block: the output, and the number of records it counts as truncated. */
  method RunBlock(t: Table, cbsz: nat, ibs: nat, obs: nat, osync: bool, signals: nat, mem: Bytes, chunks: seq<Bytes>)
    returns (out: Output)
    requires GoodTable(t) && cbsz >= 1 && ibs >= 1 && obs >= 1 && Chunks(chunks, ibs) && |mem| == obs + cbsz
    ensures out.bytes == |out.written| && out.trunc == Cuts(cbsz, Flat(chunks), Ends(chunks))
    ensures !osync ==> out.written == Blocked(t, cbsz, Flat(chunks))
    ensures osync ==> var Due(all, _, last) := Owed(t, cbsz, false, Flat(chunks), Ends(chunks));
      && |last| <= |all| && out.written == OsyncRecords(obs, mem[..obs], all, last)
      && (out.written == Filled(obs, SPACE, all) <==> RecordHarmless(obs, mem[..obs], all, last))
      && (Harmless(obs, all, last) ==> out.written == Filled(obs, SPACE, all))
  {
    hide Total, Owed, Flat, Unended, Ends, OsyncRecords, Whole, Filled, RecordHarmless, Harmless, Echoes,
      Blocked, Cuts;
    var inp;
    inp, out := Setup(cbsz, ibs, obs, signals, mem);
    UnendedNone();
    ghost var ends := Ends(chunks);
    TotalStart(inp, out, t, cbsz, Flat(chunks), ends);
    var intrunc := ReadBlocks(inp, out, t, cbsz, chunks);
    CloseBlock(inp, out, t, cbsz, intrunc, osync, ends);
    OwedIs(t, cbsz, Flat(chunks), ends, obs, mem[..obs]);
  }

  lemma OwedIs(t: Table, cbsz: nat, s: Bytes, ends: set<nat>, obs: nat, mem: Bytes)
    requires GoodTable(t) && obs >= 1 && |mem| == obs
    ensures var Due(all, n, last) := Owed(t, cbsz, false, s, ends);
            && all == Blocked(t, cbsz, s) && n == Cuts(cbsz, s, ends) && |last| <= |all|
            && (OsyncRecords(obs, mem, all, last) == Filled(obs, SPACE, all) <==> RecordHarmless(obs, mem, all, last))
            && (Harmless(obs, all, last) ==> OsyncRecords(obs, mem, all, last) == Filled(obs, SPACE, all))
  {
    hide Blocked, Cuts, LastOf, OsyncRecords, Filled, RecordHarmless, Harmless;
    BlockedLast(t, cbsz, s);
    OsyncAlways(obs, Blocked(t, cbsz, s), LastOf(t, cbsz, s));
    OsyncRecordsRight(obs, mem, Blocked(t, cbsz, s), LastOf(t, cbsz, s));
  }

  lemma UnendedNone()
    ensures Unended([])
  {
  }

  lemma SpacesAre(t: Table, n: nat)
    requires GoodTable(t)
    ensures Spaces(t, n) == seq(n, _ => Tr(t, SPACE))
  {
  }

  lemma Regroup(a: Bytes, b: Bytes, c: Bytes, d: Bytes)
    ensures a + ((b + c) + d) == (a + b) + (c + d)
  {
  }

  /** The rest of the input and padding, behind the output; dbp is not adjusted. */
  method PutLast(out: Output, t: Table, cbsz: nat, data: Bytes)
    requires out.Valid() && |data| <= cbsz && out.db.Length == out.dbsz + cbsz && GoodTable(t) && out.Echo(cbsz)
    modifies out`dbcnt, out.db
    ensures out.dbcnt == old(out.dbcnt) + cbsz && out.All() == old(out.All()) + (data + Spaces(t, cbsz - |data|))
    ensures out.db[..out.dbp] == old(out.db[..out.dbp]) && out.db[out.dbp..out.dbcnt] == data + Spaces(t, cbsz - |data|)
    ensures out.Echo(cbsz)
  {
    hide Spaces, Whole, SameFrom, Echoes;
    ghost var done := out.db[..out.dbp];
    SpacesAre(t, cbsz - |data|);
    StoreBytes(out.db, out.dbp, data);
    ghost var mid := out.db[..];
    FillBytes(out.db, out.dbp + |data|, Tr(t, SPACE), cbsz - |data|);
    out.dbcnt := out.dbcnt + cbsz;
    SameFromTrans(out.db[..], mid, old(out.db[..]), out.dbp + cbsz, out.dbp + |data|);
    EchoesSame(out.mem, out.written, out.dbsz, out.dbp + cbsz, out.db[..], old(out.db[..]), out.dbp + cbsz);
    Regroup(out.written, done, data, Spaces(t, cbsz - |data|));
    Regroup([], done, data, Spaces(t, cbsz - |data|));
    assert out.db[..out.dbcnt] == done + (data + Spaces(t, cbsz - |data|));
    assert out.db[..out.dbp] == out.db[..out.dbcnt][..out.dbp];
    assert out.db[out.dbp..out.dbcnt] == out.db[..out.dbcnt][out.dbp..];
  }

  /** dd_close with the last record of block behind dbp. */
  method CloseRecord(out: Output, osync: bool, ghost last: Bytes)
    requires out.dbp < out.dbsz && out.dbcnt == out.dbp + |last| <= out.db.Length && out.dbsz <= out.db.Length
    requires out.Sound() && last != [] && out.db[out.dbp..out.dbcnt] == last && out.Echo(|last|)
    modifies out, out.db
    ensures out.bytes == |out.written| && out.trunc == old(out.trunc) && (!osync ==> out.written == old(out.All()))
    ensures osync ==> |last| <= |old(out.All())| && out.written == OsyncRecords(out.dbsz, out.mem, old(out.All()), last)
  {
    hide Filled, Whole, Overwritten, OsyncRecords;
    ghost var whole, part := out.written, out.db[..out.dbp];
    assert out.All() == whole + part + last by {
      SplitAt(out.db, 0, out.dbp, out.dbcnt);
    }
    OsyncParts(out.dbsz, out.mem, whole, part, last);
    if out.dbcnt < out.dbsz {
      ghost var stale := out.db[out.dbcnt..out.dbsz];
      OverwrittenIs(out.db, out.dbp, last, stale, out.dbsz);
      Associative(whole + part, seq(|stale|, _ => SPACE), out.db[out.dbp + |stale|..out.dbsz]);
    }
    out.Close(osync, SPACE);
  }

  /** OsyncRecords, for whole blocks, the rest of the output and a last record. */
  lemma OsyncParts(obs: nat, mem: Bytes, whole: Bytes, part: Bytes, last: Bytes)
    requires Whole(|whole|, obs) && |part| < obs && |mem| == obs && last != []
    ensures OsyncRecords(obs, mem, whole + part + last, last)
         == if |part| + |last| >= obs then whole + part + last
            else whole + part + Overwritten(last, (mem + whole)[|whole| + |part| + |last|..])
  {
    hide Filled, Overwritten, Whole;
    var all := whole + part + last;
    assert |all| - |last| == |whole| + |part| && all[..|whole| + |part|] == whole + part;
    assert (whole + part)[..|whole|] == whole;
    Remainder(|whole|, obs, |part|);
  }

  lemma OverwrittenIs(db: array<Byte>, r: nat, last: Bytes, stale: Bytes, obs: nat)
    requires r + |last| + |stale| == obs <= db.Length
    requires db[r..r + |last|] == last && db[r + |last|..obs] == stale
    ensures seq(|stale|, _ => SPACE) + db[r + |stale|..obs] == Overwritten(last, stale)
  {
    assert last + stale == db[r..obs];
    assert db[r..obs][|stale|..] == db[r + |stale|..obs];
    SpacesAre(NoTable, |stale|);
  }

  lemma TotalLast(inp: Input, out: Output, t: Table, cbsz: nat, skip: bool, ends: set<nat>) returns (last: Bytes, n: nat)
    requires Waiting(inp, out, cbsz, skip) && GoodTable(t)
    ensures last == (if inp.dbcnt == 0 then [] else inp.Data() + Spaces(t, cbsz - inp.dbcnt))
    ensures n == if inp.dbcnt == 0 then 0 else 1
    ensures Total(inp, out, t, cbsz, skip, [], ends) == Due(out.All() + last, out.trunc + n, last)
    ensures out.All() + [] == out.All()
  {
    hide Owed;
    assert inp.Data() + [] == inp.Data();
    OwedLast(t, cbsz, skip, inp.Data(), ends);
    last, n := Owed(t, cbsz, skip, inp.Data(), ends).last, if inp.dbcnt == 0 then 0 else 1;
  }

  /** block_close and dd_close: what is left is a line that has not ended. */
  method CloseBlock(inp: Input, out: Output, t: Table, cbsz: nat, intrunc: bool, osync: bool, ghost ends: set<nat>)
    requires Waiting(inp, out, cbsz, intrunc) && GoodTable(t)
    modifies inp, out, out.db
    ensures var Due(all, n, last) := old(Total(inp, out, t, cbsz, intrunc, [], ends));
            && out.bytes == |out.written| && out.trunc == n
            && (!osync ==> out.written == all)
            && |out.mem| == out.dbsz
            && (osync ==> |last| <= |all| && out.written == OsyncRecords(out.dbsz, out.mem, all, last))
  {
    hide Owed, Spaces, Unended, Filled, OsyncRecords, Output.Echo, Output.Sound, Output.All, Input.Data, Echoes;
    DataIs(inp);
    ghost var last, n := TotalLast(inp, out, t, cbsz, intrunc, ends);
    EchoSize(out, cbsz);
    hide Total;
    if inp.dbcnt > 0 {
      out.trunc := out.trunc + 1;
      PutLast(out, t, cbsz, inp.db[inp.dbp - inp.dbcnt..inp.dbp]);
        CloseRecord(out, osync, last);
    } else {
      OsyncNone(out.dbsz, out.mem, out.All());
      out.CloseFilled(osync, SPACE);
    }
  }

  lemma DataIs(inp: Input)
    requires inp.dbcnt <= inp.dbp <= inp.db.Length
    ensures inp.Data() == inp.db[inp.dbp - inp.dbcnt..inp.dbp]
  {
  }

  lemma EchoSize(out: Output, cbsz: nat)
    requires out.Echo(cbsz)
    ensures |out.mem| == out.dbsz
  {
  }

  lemma OsyncNone(obs: nat, mem: Bytes, all: Bytes)
    requires obs >= 1 && |mem| == obs
    ensures OsyncRecords(obs, mem, all, []) == Filled(obs, SPACE, all)
  {
    hide Filled;
  }

  // ----- there and back

  /** Reads that deliver s in pieces of any size up to ibs. */
  method Split(s: Bytes, ibs: nat) returns (chunks: seq<Bytes>)
    requires ibs >= 1
    ensures Chunks(chunks, ibs) && Flat(chunks) == s
  {
    hide Flat;
    chunks := [];
    var rest := s;
    FlatDone([], NoTable);
    while rest != []
      invariant Chunks(chunks, ibs) && Flat(chunks) + rest == s
    {
      var n: nat :| 1 <= n <= ibs && n <= |rest|;
      FlatSnoc(chunks, rest[..n]);
      assert rest == rest[..n] + rest[n..];
      assert (Flat(chunks) + rest[..n]) + rest[n..] == Flat(chunks) + (rest[..n] + rest[n..]);
      chunks, rest := chunks + [rest[..n]], rest[n..];
    }
  }

  lemma {:induction false} FlatSnoc(chunks: seq<Bytes>, c: Bytes)
    ensures Flat(chunks + [c]) == Flat(chunks) + c
  {
    if chunks == [] {
      assert chunks + [c] == [c] && [c][1..] == [];
    } else {
      assert (chunks + [c])[1..] == chunks[1..] + [c];
      FlatSnoc(chunks[1..], c);
    }
  }

  /** dd conv=block and dd conv=unblock, with any block sizes in either pass. */
  method BlockThenUnblock(cbsz: nat, text: Bytes, ibs: nat, obs: nat, ibs': nat, obs': nat) returns (back: Bytes)
    requires cbsz >= 1 && ibs >= 1 && obs >= 1 && ibs' >= 1 && obs' >= 1
    ensures back == text <==> Regular(cbsz, text)
  {
    hide Blocked, Unblocked, Regular, Map;
    var chunks := Split(text, ibs);
    var blocked := RunBlock(NoTable, cbsz, ibs, obs, false, 0, seq(obs + cbsz, _ => 0), chunks);
    chunks := Split(blocked.written, ibs');
    var out := RunUnblock(NoTable, cbsz, ibs', obs', false, 0, seq(obs' + cbsz, _ => 0), chunks);
    back := out.written;
    MapNone(blocked.written);
    RoundTrip(cbsz, text);
  }
}
