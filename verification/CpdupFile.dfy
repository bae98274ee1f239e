/** The reply to HC_READFILE (hcproto.c): rc_readfile sends a file in leaves, and hc_read gets it
    back in requests of any size.  Between requests the offset in the current leaf is kept in
    the field magic of the packet header, which the next packet overwrites. */
module CpdupFile {
  import opened CpdupWire
  import CpdupDir

  const LC_DATA: nat := 0x0f25
  /** The size of the buffer of rc_readfile. */
  const CHUNK: nat := 32768

  // ----- data

  /** The data of leaves. */
  function Data(ls: seq<Leaf>): Bytes {
    if ls == [] then [] else ls[0].data + Data(ls[1..])
  }

  lemma {:induction false} DataConcat(a: seq<Leaf>, b: seq<Leaf>)
    ensures Data(a + b) == Data(a) + Data(b)
  {
    if a == [] {
      assert a + b == b;
    } else {
      assert (a + b)[1..] == a[1..] + b;
      DataConcat(a[1..], b);
    }
  }

  function DataLeaves(chunks: seq<Bytes>): (r: seq<Leaf>)
    ensures |r| == |chunks|
  {
    seq(|chunks|, i requires 0 <= i < |chunks| => Leaf(LC_DATA, chunks[i]))
  }

  predicate AllData(ls: seq<Leaf>) {
    forall i :: 0 <= i < |ls| ==> ls[i].id == LC_DATA
  }

  /** A file that is read in these chunks. */
  function Content(chunks: seq<Bytes>): Bytes {
    if chunks == [] then [] else chunks[0] + Content(chunks[1..])
  }

  lemma {:induction false} ContentData(chunks: seq<Bytes>)
    ensures Data(DataLeaves(chunks)) == Content(chunks)
  {
    if chunks != [] {
      assert DataLeaves(chunks)[1..] == DataLeaves(chunks[1..]);
      ContentData(chunks[1..]);
    }
  }

  lemma DataMore(chunks: seq<Bytes>, data: Bytes)
    ensures DataLeaves(chunks + [data]) == DataLeaves(chunks) + [Leaf(LC_DATA, data)] && DataLeaves([]) == []
  {
  }

  // ----- the slave

  /** What the reads of rc_readfile return before the last, which returns nothing. */
  predicate Chunks(chunks: seq<Bytes>) {
    forall i :: 0 <= i < |chunks| ==> 1 <= |chunks[i]| <= CHUNK
  }

  /** The packets that are complete, and the leaves and the end of the one being filled. */
  datatype Fill = Fill(parts: seq<seq<Leaf>>, leaves: seq<Leaf>, windex: nat)

  /** The test of hcc_check_space fails for data behind position at: a packet is begun with them. */
  predicate Opens(at: nat, data: Bytes) {
    !Sender.Room(at, 1, |data|)
  }

  function Filled(f: Fill, data: Bytes): Fill {
    var l := Leaf(LC_DATA, data);
    if Opens(f.windex, data) then Fill(f.parts + [f.leaves], [l], HEAD + Align(LEAF + |data|))
    else Fill(f.parts, f.leaves + [l], f.windex + Align(LEAF + |data|))
  }

  /** The packets after these reads. */
  function Filling(chunks: seq<Bytes>): Fill {
    if chunks == [] then Fill([], [], HEAD) else Filled(Filling(chunks[..|chunks| - 1]), chunks[|chunks| - 1])
  }

  /** How rc_readfile splits a file into packets. */
  function Packets(chunks: seq<Bytes>): (r: seq<seq<Leaf>>)
    ensures r != []
  {
    var f := Filling(chunks + [[]]);
    f.parts + [f.leaves]
  }

  lemma FillingMore(chunks: seq<Bytes>, data: Bytes)
    ensures Filling(chunks + [data]) == Filled(Filling(chunks), data)
  {
    assert (chunks + [data])[..|chunks|] == chunks;
  }

  /** One turn of the loop of rc_readfile */
  method SendData(s: Sender, data: Bytes)
    requires s.Valid() && s.windex < HC_BUFSIZE && |data| <= CHUNK && NoneEmpty(s.parts)
    modifies s, s.wbuf
    ensures s.Valid() && s.Sent() == old(s.Sent()) + [Leaf(LC_DATA, data)] && s.windex < HC_BUFSIZE && CpdupDir.Full(s)
    ensures Fill(s.parts, s.leaves, s.windex) == Filled(old(Fill(s.parts, s.leaves, s.windex)), data)
  {
    s.CheckSpace(1, |data|);
    CpdupDir.IdFits(LC_DATA);
    AlignSum(LEAF, |data|);
    s.LeafData(LC_DATA, data);
  }

  lemma NoneYet(parts: seq<seq<Leaf>>)
    requires parts == []
    ensures NoneEmpty(parts)
  {
  }

  /** rc_readfile: every read becomes a leaf, the empty one at the end of the file included. */
  method ReadFile(chunks: seq<Bytes>) returns (s: Sender)
    requires Chunks(chunks)
    ensures fresh(s) && Reply(s.wire, s.parts) && Concat(s.parts) == DataLeaves(chunks + [[]])
    ensures s.parts == Packets(chunks)
  {
    hide DataLeaves, Reply, Concat, Sender.Valid, NoneEmpty, Filled;
    s := new Sender();
    NoneYet(s.parts);
    DataMore([], []);
    assert chunks[..0] == [];
    for i := 0 to |chunks|
      invariant fresh(s) && fresh(s.wbuf) && s.Valid() && s.windex < HC_BUFSIZE && NoneEmpty(s.parts)
      invariant s.Sent() == DataLeaves(chunks[..i]) && Fill(s.parts, s.leaves, s.windex) == Filling(chunks[..i])
    {
      SendData(s, chunks[i]);
      DataMore(chunks[..i], chunks[i]);
      FillingMore(chunks[..i], chunks[i]);
      assert chunks[..i + 1] == chunks[..i] + [chunks[i]];
    }
    assert chunks[..|chunks|] == chunks;
    SendData(s, []);
    DataMore(chunks, []);
    FillingMore(chunks, []);
    CpdupDir.SendLast(s);
  }

  // ----- where a request must not end

  /** With left bytes to come, a request ends inside the first leaf of one of these packets. */
  ghost predicate Bad(parts: seq<seq<Leaf>>, left: nat)
    decreases |parts|
  {
    parts != [] && (
      || (parts[0] != [] && |Data(Concat(parts))| - |parts[0][0].data| < left < |Data(Concat(parts))|)
      || Bad(parts[1..], left))
  }

  lemma {:induction false} BadBelow(parts: seq<seq<Leaf>>, left: nat)
    requires Bad(parts, left)
    ensures left < |Data(Concat(parts))|
    decreases |parts|
  {
    if Bad(parts[1..], left) {
      BadBelow(parts[1..], left);
      DataConcat(parts[0], Concat(parts[1..]));
    }
  }

  /** What a packet that is read adds. */
  lemma {:induction false} UpcomingBad(leaves: seq<Leaf>, parts: seq<seq<Leaf>>, left: nat)
    ensures var (ls, ps) := Upcoming(leaves, parts);
            && |ps| <= |parts| && (|ps| == |parts| ==> ps == parts && ls == leaves)
            && (|ps| < |parts| && ls != [] ==>
                 var total := |Data(ls + Concat(ps))|;
                 Bad(parts, left) <==> total - |ls[0].data| < left < total || Bad(ps, left))
    decreases |parts|
  {
    if leaves == [] && parts != [] {
      UpcomingBad(parts[0], parts[1..], left);
    }
  }

  lemma {:induction false} UpcomingTotal(leaves: seq<Leaf>, parts: seq<seq<Leaf>>)
    ensures var (ls, ps) := Upcoming(leaves, parts);
            ls != [] ==> |Data(leaves + Concat(parts))| >= |ls[0].data| + |Data(Concat(ps))|
  {
    UpcomingKeeps(leaves, parts);
    var (ls, ps) := Upcoming(leaves, parts);
    if ls != [] {
      DataConcat(ls, Concat(ps));
    }
  }

  // ----- the master

  /** The field magic is an offset in the current leaf, or 0. */
  ghost predicate Ready(r: Receiver)
    reads r
  {
    && r.Valid() && AllData(r.Left())
    && (r.magic == 0 || (r.windex != 0 && r.magic < |r.last.data|))
  }

  /** It is the magic number of a packet with an offset added to it. */
  ghost predicate Spoilt(r: Receiver)
    reads r
  {
    r.Valid() && r.windex != 0 && r.magic > |r.last.data|
  }

  /** The bytes yet to be delivered. */
  ghost function Rest(r: Receiver): Bytes
    requires Ready(r)
    reads r
  {
    (if r.magic == 0 then [] else r.last.data[r.magic..]) + Data(r.Left())
  }

  /** The packets yet to be read spoil the same requests. */
  ghost predicate SameBad(parts: seq<seq<Leaf>>, parts': seq<seq<Leaf>>, left: nat) {
    forall m: nat :: m <= left ==> (Bad(parts, m) <==> Bad(parts', m))
  }

  /** A turn of the loop of hc_read when magic is not 0: the current leaf goes on.  When it is not
      ok, bcopy is called with a negative size. */
  method Resume(r: Receiver, bytes: nat) returns (ok: bool, data: Bytes)
    requires (Ready(r) || Spoilt(r)) && r.magic != 0 && bytes > 0
    modifies r`magic
    ensures ok == old(Ready(r))
    ensures ok ==> Ready(r) && old(Rest(r)) == data + Rest(r) && 0 < |data| <= bytes
  {
    hide Holds, Following, LeafAt, AllData, Data;
    var offset := r.magic;
    var l := r.Current();
    var x := |l.data| - offset;
    if x > bytes {
      x := bytes;
      r.magic := r.magic + x;
    } else {
      r.magic := 0;
    }
    if x < 0 {
      return false, [];
    }
    ok, data := true, l.data[offset..offset + x];
    assert l.data[offset..] == data + l.data[offset + x..];
  }

  lemma LeafSmall(r: Receiver)
    requires r.Valid() && r.windex != 0
    ensures |r.last.data| < HCMAGIC
  {
  }

  lemma AllDataTail(ls: seq<Leaf>, l: Leaf, rest: seq<Leaf>)
    requires AllData(ls) && ls == [l] + rest
    ensures AllData(rest) && Data(ls) == l.data + Data(rest)
  {
    assert ls[0] == l && ls[1..] == rest;
    assert forall i :: 0 <= i < |rest| ==> rest[i] == ls[i + 1];
  }

  /** How the packets read on the way to the leaf ls[0] decide whether a request that takes n bytes of it
      is spoilt. */
  lemma TakeBad(leaves: seq<Leaf>, parts: seq<seq<Leaf>>, n: nat)
    requires var (ls, ps) := Upcoming(leaves, parts); ls != [] && n <= |ls[0].data|
    ensures var (ls, ps) := Upcoming(leaves, parts); var total := |Data(leaves + Concat(parts))|;
            && |ps| <= |parts| && n <= total && (|ps| == |parts| ==> SameBad(parts, ps, total))
            && (Bad(parts, total - n) <==> |ps| < |parts| && 0 < n < |ls[0].data|)
  {
    hide Upcoming, Bad;
    var (ls, ps) := Upcoming(leaves, parts);
    var total := |Data(leaves + Concat(parts))|;
    UpcomingTotal(leaves, parts);
    UpcomingKeeps(leaves, parts);
    UpcomingBad(leaves, parts, total - n);
    if Bad(ps, total - n) {
      BadBelow(ps, total - n);
    }
  }

  lemma TakeSame(leaves: seq<Leaf>, parts: seq<seq<Leaf>>)
    requires Upcoming(leaves, parts).0 != []
    ensures var (ls, ps) := Upcoming(leaves, parts); var total := |Data(leaves + Concat(parts))|;
            total >= |ls[0].data| && SameBad(parts, ps, total - |ls[0].data|)
  {
    hide Upcoming, Bad;
    var (ls, ps) := Upcoming(leaves, parts);
    var total := |Data(leaves + Concat(parts))|;
    UpcomingTotal(leaves, parts);
    UpcomingKeeps(leaves, parts);
    forall m: nat | m <= total - |ls[0].data|
      ensures Bad(parts, m) <==> Bad(ps, m)
    {
      UpcomingBad(leaves, parts, m);
    }
  }

  lemma SameBadLess(parts: seq<seq<Leaf>>, parts': seq<seq<Leaf>>, n: nat, m: nat)
    requires SameBad(parts, parts', n) && m <= n
    ensures SameBad(parts, parts', m)
  {
  }

  lemma DataNone()
    ensures Data([]) == []
  {
  }

  /** A turn when magic is 0: the next leaf is taken.  When it is the first of a packet that had to be
      read, and the request ends inside it, the offset is lost. */
  method Next(r: Receiver, bytes: nat) returns (found: bool, data: Bytes)
    requires Ready(r) && r.magic == 0 && bytes > 0
    modifies r
    ensures |data| <= bytes && data <= old(Rest(r))
    ensures !found ==> Ready(r) && old(Rest(r)) == data == Rest(r) == [] && r.parts == old(r.parts)
    ensures found ==> if Bad(old(r.parts), |old(Rest(r))| - |data|) then Spoilt(r) && |data| == bytes else
                      && Ready(r) && old(Rest(r)) == data + Rest(r)
                      && SameBad(old(r.parts), r.parts, |Rest(r)|) && |r.Left()| < old(|r.Left()|)
  {
    hide Receiver.Valid, AllData, Data, Bad, Upcoming, SameBad;
    ghost var leaves, parts, all := r.leaves, r.parts, r.Left();
    assert [] + Data(all) == Data(all);
    var l;
    found, l := r.NextChainedItem();
    if !found {
      UpcomingKeeps(leaves, parts);
      DataNone();
      return false, [];
    }
    AllDataTail(all, l, r.Left());
    TakeSame(leaves, parts);
    LeafSmall(r);
    var x := |l.data|;
    if x > bytes {
      x := bytes;
      r.magic := r.magic + x;
    } else {
      r.magic := 0;
    }
    TakeBad(leaves, parts, x);
    data := l.data[..x];
    assert l.data == data + l.data[x..];
    if x < |l.data| && r.magic == x {
      SameBadLess(parts, r.parts, |Data(all)|, |Data(all)| - x);
    }
  }

  lemma SameBadTrans(a: seq<seq<Leaf>>, b: seq<seq<Leaf>>, c: seq<seq<Leaf>>, n: nat, m: nat)
    requires SameBad(a, b, n) && SameBad(b, c, m) && m <= n
    ensures SameBad(a, c, m)
  {
  }

  /** Where reading goes on, no request has ended inside the first leaf of a packet yet to be read. */
  lemma ReadyNotBad(r: Receiver)
    requires Ready(r)
    ensures !Bad(r.parts, |Rest(r)|) && SameBad(r.parts, r.parts, |Rest(r)|)
  {
    DataConcat(r.leaves, Concat(r.parts));
    if Bad(r.parts, |Rest(r)|) {
      BadBelow(r.parts, |Rest(r)|);
    }
  }

  function Least(a: nat, b: nat): nat {
    if a < b then a else b
  }

  /** From data, the bytes got so far, to the rest of what was to come; or the request has ended where it
      should not. */
  ghost predicate Progress(parts: seq<seq<Leaf>>, rest: Bytes, r: Receiver, data: Bytes, n: nat)
    reads r
  {
    if Ready(r) then rest == data + Rest(r) && SameBad(parts, r.parts, |Rest(r)|)
    else Spoilt(r) && n == 0 && data <= rest && Bad(parts, |rest| - |data|)
  }

  /** A turn of the loop of hc_read. */
  method Turn(r: Receiver, bytes: nat, ghost parts: seq<seq<Leaf>>, ghost rest: Bytes, ghost data: Bytes)
    returns (ok: bool, more: bool, d: Bytes)
    requires bytes > 0 && (Ready(r) || Spoilt(r)) && (Ready(r) ==> Progress(parts, rest, r, data, bytes))
    modifies r
    ensures ok == old(Ready(r))
    ensures ok ==> |d| <= bytes && Progress(parts, rest, r, data + d, bytes - |d|)
    ensures ok && more ==> |d| > 0 || |r.Left()| < old(|r.Left()|)
    ensures ok && !more ==> d == [] && Ready(r) && Rest(r) == []
  {
    hide Receiver.Valid, AllData, Data, Bad, SameBad, Rest;
    ghost var mid, was := r.parts, if Ready(r) then Rest(r) else [];
    if r.magic != 0 {
      ok, d := Resume(r, bytes);
      more := true;
      if ok {
        SameBadLess(parts, r.parts, |was|, |Rest(r)|);
        assert rest == (data + d) + Rest(r);
      }
    } else {
      more, d := Next(r, bytes);
      ok := true;
      if more && Bad(mid, |was| - |d|) {
        SameBadAt(parts, mid, |was|, |was| - |d|);
        assert rest == data + d + was[|d|..];
        SpoiltOnly(r);
      } else if more {
        SameBadTrans(parts, mid, r.parts, |was|, |Rest(r)|);
        assert rest == (data + d) + Rest(r);
      } else {
        assert data + d == data;
      }
    }
  }

  lemma SpoiltOnly(r: Receiver)
    requires Spoilt(r)
    ensures !Ready(r)
  {
  }

  /** hc_read on a file that was opened with HC_READFILE: the next bytes, as many as asked for if
      there are so many.  When the request ends inside the first leaf of a packet it has read, the
      next request fails. */
  method HcRead(r: Receiver, bytes: nat) returns (ok: bool, data: Bytes)
    requires Ready(r) || Spoilt(r)
    modifies r
    ensures old(Spoilt(r)) ==> ok == (bytes == 0) && data == [] && (ok ==> Spoilt(r))
    ensures old(Ready(r)) ==> var rest := old(Rest(r)); var n := Least(bytes, |rest|);
      && ok && data == rest[..n]
      && if Bad(old(r.parts), |rest| - n) then Spoilt(r)
         else Ready(r) && Rest(r) == rest[n..] && SameBad(old(r.parts), r.parts, |rest| - n)
  {
    hide Receiver.Valid, AllData, Data, Bad, SameBad, Ready, Spoilt, Rest;
    ok, data := true, [];
    var n: nat := bytes;
    ghost var ready, parts := Ready(r), r.parts;
    ghost var rest := if ready then Rest(r) else [];
    if ready {
      ReadyNotBad(r);
      assert [] + rest == rest;
    }
    if Spoilt(r) {
      SpoiltOnly(r);
    }
    var more := true;
    while n > 0 && more
      invariant ok && |data| + n == bytes
      invariant if ready then Progress(parts, rest, r, data, n) else Spoilt(r) && data == []
      invariant !more ==> Ready(r) && Rest(r) == []
      decreases more, n, |r.Left()|
    {
      var d;
      if Spoilt(r) {
        SpoiltOnly(r);
      }
      ok, more, d := Turn(r, n, parts, rest, data);
      if !ok {
        return false, [];
      }
      data, n := data + d, n - |d|;
    }
    if Spoilt(r) {
      SpoiltOnly(r);
    }
    if ready {
      assert rest[..|data|] == data;
    }
    if Ready(r) {
      ReadyNotBad(r);
      SameBadAt(parts, r.parts, |Rest(r)|, |Rest(r)|);
      assert rest[|data|..] == Rest(r);
    }
  }

  lemma SameBadAt(parts: seq<seq<Leaf>>, parts': seq<seq<Leaf>>, n: nat, m: nat)
    requires SameBad(parts, parts', n) && m <= n
    ensures Bad(parts, m) <==> Bad(parts', m)
  {
  }

  // ----- the same, seen from the file

  /** Read j begins a packet other than the first, and stop lies inside what it has read. */
  ghost predicate SpoilsAt(chunks: seq<Bytes>, j: nat, stop: nat)
    requires j < |chunks|
  {
    Opens(Filling(chunks[..j]).windex, chunks[j]) && 0 < stop - |Content(chunks[..j])| < |chunks[j]|
  }

  ghost predicate Spoils(chunks: seq<Bytes>, stop: nat) {
    exists j :: 0 <= j < |chunks| && SpoilsAt(chunks, j, stop)
  }

  /** Bad, counted from the front: stop lies inside the first leaf of one of these packets, the first of which
      begins at start. */
  ghost predicate Inside(parts: seq<seq<Leaf>>, start: nat, stop: nat)
    decreases |parts|
  {
    parts != [] && (
      || (parts[0] != [] && 0 < stop - start < |parts[0][0].data|)
      || Inside(parts[1..], start + |Data(parts[0])|, stop))
  }

  lemma {:induction false} BadInside(parts: seq<seq<Leaf>>, start: nat, left: nat)
    requires left <= |Data(Concat(parts))|
    ensures Bad(parts, left) <==> Inside(parts, start, start + |Data(Concat(parts))| - left)
    decreases |parts|
  {
    if parts != [] {
      DataConcat(parts[0], Concat(parts[1..]));
      var rest := |Data(Concat(parts[1..]))|;
      if left <= rest {
        BadInside(parts[1..], start + |Data(parts[0])|, left);
      } else {
        if Bad(parts[1..], left) {
          BadBelow(parts[1..], left);
        }
        if Inside(parts[1..], start + |Data(parts[0])|, start + |Data(Concat(parts))| - left) {
          InsideAbove(parts[1..], start + |Data(parts[0])|, start + |Data(Concat(parts))| - left);
        }
      }
    }
  }

  lemma {:induction false} InsideAbove(parts: seq<seq<Leaf>>, start: nat, stop: nat)
    requires Inside(parts, start, stop)
    ensures stop > start
    decreases |parts|
  {
    if Inside(parts[1..], start + |Data(parts[0])|, stop) {
      InsideAbove(parts[1..], start + |Data(parts[0])|, stop);
    }
  }

  lemma {:induction false} InsideMore(parts: seq<seq<Leaf>>, p: seq<Leaf>, start: nat, stop: nat)
    ensures Inside(parts + [p], start, stop)
       <==> Inside(parts, start, stop) || (p != [] && 0 < stop - start - |Data(Concat(parts))| < |p[0].data|)
    decreases |parts|
  {
    if parts == [] {
      assert parts + [p] == [p] && [p][1..] == [];
    } else {
      assert (parts + [p])[1..] == parts[1..] + [p];
      InsideMore(parts[1..], p, start + |Data(parts[0])|, stop);
      DataConcat(parts[0], Concat(parts[1..]));
    }
  }

  /** The packets of a state of rc_readfile but the first. */
  function Later(f: Fill): seq<seq<Leaf>> {
    if f.parts == [] then [] else f.parts[1..] + [f.leaves]
  }

  ghost predicate InsideFill(f: Fill, stop: nat) {
    f.parts != [] && Inside(Later(f), |Data(f.parts[0])|, stop)
  }

  function Sent(f: Fill): Bytes {
    Data(Concat(f.parts) + f.leaves)
  }

  lemma {:induction false} ContentMore(chunks: seq<Bytes>, data: Bytes)
    ensures Content(chunks + [data]) == Content(chunks) + data
  {
    if chunks == [] {
      assert chunks + [data] == [data] && [data][1..] == [];
    } else {
      assert (chunks + [data])[1..] == chunks[1..] + [data];
      ContentMore(chunks[1..], data);
    }
  }

  lemma SentMore(f: Fill, data: Bytes)
    ensures Sent(Filled(f, data)) == Sent(f) + data
  {
    var l := Leaf(LC_DATA, data);
    assert Data([l]) == data + Data([]) == data;
    DataConcat(Concat(f.parts) + f.leaves, [l]);
    if Opens(f.windex, data) {
      ConcatMore(f.parts, f.leaves);
    } else {
      assert Concat(f.parts) + (f.leaves + [l]) == (Concat(f.parts) + f.leaves) + [l];
    }
  }

  /** A leaf behind others changes nothing; one that begins a packet adds what lies inside it. */
  lemma InsideFilled(f: Fill, data: Bytes, stop: nat)
    requires f.leaves != [] || (f.parts == [] && !Opens(f.windex, data))
    ensures InsideFill(Filled(f, data), stop)
       <==> InsideFill(f, stop) || (Opens(f.windex, data) && 0 < stop - |Sent(f)| < |data|)
  {
    hide Inside, Data, Opens;
    var f', l := Filled(f, data), Leaf(LC_DATA, data);
    SentSplit(f);
    if Opens(f.windex, data) {
      if f.parts == [] {
        InsideMore([], [l], |Data(f.leaves)|, stop);
        InsideNone(|Data(f.leaves)|, stop);
        assert f'.parts == [f.leaves] && Later(f') == [] + [[l]];
        ConcatNone(f);
      } else {
        assert f'.parts[1..] == f.parts[1..] + [f.leaves];
        InsideMore(Later(f), [l], |Data(f.parts[0])|, stop);
      }
    } else if f.parts != [] {
      InsideMore(f.parts[1..], f.leaves, |Data(f.parts[0])|, stop);
      InsideMore(f.parts[1..], f.leaves + [l], |Data(f.parts[0])|, stop);
      assert (f.leaves + [l])[0] == f.leaves[0];
    }
  }

  lemma InsideNone(start: nat, stop: nat)
    ensures !Inside([], start, stop) && Concat([]) == [] && Data([]) == []
  {
  }

  lemma ConcatNone(f: Fill)
    requires f.parts == []
    ensures Sent(f) == Data(f.leaves)
  {
    assert Concat(f.parts) + f.leaves == f.leaves;
  }

  lemma SentSplit(f: Fill)
    ensures f.parts != [] ==> |Sent(f)| == |Data(f.parts[0])| + |Data(Concat(Later(f)))|
  {
    if f.parts != [] {
      ConcatMore(f.parts[1..], f.leaves);
      assert Concat(f.parts) + f.leaves == f.parts[0] + (Concat(f.parts[1..]) + f.leaves);
      DataConcat(f.parts[0], Concat(Later(f)));
    }
  }

  lemma FirstFits(data: Bytes)
    requires |data| <= CHUNK
    ensures !Opens(HEAD, data)
  {
  }

  lemma SpoilsMore(chunks: seq<Bytes>, data: Bytes, stop: nat)
    ensures Spoils(chunks + [data], stop)
       <==> Spoils(chunks, stop) || (Opens(Filling(chunks).windex, data) && 0 < stop - |Content(chunks)| < |data|)
  {
    hide Filling, Content, Opens;
    var all, n := chunks + [data], |chunks|;
    assert all[..n] == chunks && all[n] == data;
    forall j | 0 <= j < n
      ensures SpoilsAt(all, j, stop) <==> SpoilsAt(chunks, j, stop)
    {
      assert all[..j] == chunks[..j] && all[j] == chunks[j];
    }
    if Spoils(chunks, stop) {
      var j :| 0 <= j < n && SpoilsAt(chunks, j, stop);
      assert SpoilsAt(all, j, stop);
    }
    if Opens(Filling(chunks).windex, data) && 0 < stop - |Content(chunks)| < |data| {
      assert SpoilsAt(all, n, stop);
    }
  }

  lemma {:induction false} FillingSpoils(chunks: seq<Bytes>, stop: nat)
    requires forall i :: 0 <= i < |chunks| ==> |chunks[i]| <= CHUNK
    ensures var f := Filling(chunks);
            && Sent(f) == Content(chunks) && (chunks == [] <==> f.leaves == []) && (chunks == [] ==> f.parts == [])
            && (InsideFill(f, stop) <==> Spoils(chunks, stop))
  {
    hide Inside, Opens, Spoils;
    if chunks == [] {
      SpoilsNone(stop);
    } else {
      var init, data := chunks[..|chunks| - 1], chunks[|chunks| - 1];
      assert chunks == init + [data];
      FillingSpoils(init, stop);
      if init == [] {
        FirstFits(data);
      }
      InsideFilled(Filling(init), data, stop);
      SentMore(Filling(init), data);
      ContentMore(init, data);
      SpoilsMore(init, data, stop);
    }
  }

  lemma SpoilsNone(stop: nat)
    ensures !Spoils([], stop)
  {
  }

  /** The requests that the packets of a file spoil. */
  lemma BadSpoils(chunks: seq<Bytes>, stop: nat)
    requires Chunks(chunks) && stop <= |Content(chunks)|
    ensures Bad(Packets(chunks)[1..], |Content(chunks)| - stop) <==> Spoils(chunks, stop)
  {
    hide Inside, Bad, Spoils, Filling;
    var all := chunks + [[]];
    var f, total := Filling(all), |Content(chunks)|;
    FillingSpoils(all, stop);
    ContentMore(chunks, []);
    SpoilsMore(chunks, [], stop);
    assert Packets(chunks)[1..] == Later(f);
    SentSplit(f);
    if f.parts == [] {
      BadNone(total - stop);
    } else if total - stop <= |Data(Concat(Later(f)))| {
      BadInside(Later(f), |Data(f.parts[0])|, total - stop);
    } else {
      if Bad(Later(f), total - stop) {
        BadBelow(Later(f), total - stop);
      }
      if InsideFill(f, stop) {
        InsideAbove(Later(f), |Data(f.parts[0])|, stop);
      }
    }
  }

  // ----- a file, from end to end

  function Sum(sizes: seq<nat>): nat {
    if sizes == [] then 0 else Sum(sizes[..|sizes| - 1]) + sizes[|sizes| - 1]
  }

  lemma SumMore(sizes: seq<nat>, i: nat)
    requires i < |sizes|
    ensures Sum(sizes[..i + 1]) == Sum(sizes[..i]) + sizes[i]
  {
    assert sizes[..i + 1][..i] == sizes[..i];
  }

  /** Where the first i requests end, in a file of total bytes. */
  function Stop(sizes: seq<nat>, i: nat, total: nat): (r: nat)
    requires i <= |sizes|
    ensures r <= total
  {
    Least(Sum(sizes[..i]), total)
  }

  /** Request i is not empty, and those before it end where they should not. */
  ghost predicate Breaks(chunks: seq<Bytes>, sizes: seq<nat>, i: nat)
    requires i < |sizes|
  {
    sizes[i] > 0 && Spoils(chunks, Stop(sizes, i, |Content(chunks)|))
  }

  /** What request i is to get. */
  function Part(content: Bytes, sizes: seq<nat>, i: nat): Bytes
    requires i < |sizes|
  {
    SumMore(sizes, i);
    content[Stop(sizes, i, |content|)..Stop(sizes, i + 1, |content|)]
  }

  /** Between requests: all is well, or the last one ended where it should not. */
  ghost predicate Between(r: Receiver, parts: seq<seq<Leaf>>, content: Bytes, stop: nat)
    requires stop <= |content|
    reads r
  {
    if Bad(parts, |content| - stop) then Spoilt(r)
    else Ready(r) && Rest(r) == content[stop..] && SameBad(parts, r.parts, |content| - stop)
  }

  /** A request. */
  method Request(r: Receiver, bytes: nat, ghost parts: seq<seq<Leaf>>, ghost content: Bytes, ghost stop: nat)
    returns (ok: bool, data: Bytes)
    requires stop <= |content| && Between(r, parts, content, stop)
    modifies r
    ensures ok == !(bytes > 0 && Bad(parts, |content| - stop))
    ensures ok ==> var stop' := Least(stop + bytes, |content|);
                   data == content[stop..stop'] && Between(r, parts, content, stop')
  {
    hide Receiver.Valid, AllData, Data, Bad, SameBad, Ready, Spoilt, Rest;
    ghost var mid, stop' := r.parts, Least(stop + bytes, |content|);
    if Spoilt(r) {
      SpoiltOnly(r);
    }
    Sliced(content, stop, stop');
    ok, data := HcRead(r, bytes);
    if !Bad(parts, |content| - stop) {
      assert |content[stop..]| == |content| - stop && Least(bytes, |content| - stop) == stop' - stop;
      assert data == content[stop..stop'];
      SameBadAt(parts, mid, |content| - stop, |content| - stop');
      if !Bad(mid, |content| - stop') {
        SameBadTrans(parts, mid, r.parts, |content| - stop, |content| - stop');
      }
    }
  }

  lemma Sliced(s: Bytes, i: nat, j: nat)
    requires i <= j <= |s|
    ensures s[i..][..j - i] == s[i..j] && s[i..][j - i..] == s[j..]
  {
  }

  /** A file on the slave, as the master reads it with requests of these sizes.  Each gets its part of
      the file, up to the first request behind one that ended inside the first leaf of a later packet;
      that one fails, and if there is none, all is got. */
  method FetchFile(chunks: seq<Bytes>, sizes: seq<nat>) returns (got: seq<Bytes>, ok: bool)
    requires Chunks(chunks)
    ensures ok <==> forall i :: 0 <= i < |sizes| ==> !Breaks(chunks, sizes, i)
    ensures if ok then |got| == |sizes| else |got| < |sizes| && Breaks(chunks, sizes, |got|)
    ensures forall i :: 0 <= i < |got| ==> got[i] == Part(Content(chunks), sizes, i)
  {
    hide Content, Bad, Receiver.Valid, Between, Stop, Spoils;
    var r := Open(chunks);
    ghost var content, parts := Content(chunks), Packets(chunks)[1..];
    StopNone(sizes, |content|);
    got, ok := [], true;
    var i := 0;
    while i < |sizes|
      invariant fresh(r) && 0 <= i <= |sizes| && |got| == i && ok
      invariant Between(r, parts, content, Stop(sizes, i, |content|))
      invariant forall j :: 0 <= j < i ==> !Breaks(chunks, sizes, j) && got[j] == Part(content, sizes, j)
    {
      StopMore(sizes, i, content);
      BadSpoils(chunks, Stop(sizes, i, |content|));
      var data;
      ok, data := Request(r, sizes[i], parts, content, Stop(sizes, i, |content|));
      if !ok {
        assert Breaks(chunks, sizes, i);
        return;
      }
      got := got + [data];
      i := i + 1;
    }
  }

  /** hc_open */
  method Open(chunks: seq<Bytes>) returns (r: Receiver)
    requires Chunks(chunks)
    ensures fresh(r) && Between(r, Packets(chunks)[1..], Content(chunks), 0)
  {
    hide DataLeaves, Content, Between, Packets;
    var s := ReadFile(chunks);
    r := new Receiver(s.wire, s.parts);
    r.magic := 0;
    OpenReady(r, chunks, Content(chunks));
  }

  lemma StopNone(sizes: seq<nat>, total: nat)
    ensures Stop(sizes, 0, total) == 0
  {
  }

  lemma StopMore(sizes: seq<nat>, i: nat, content: Bytes)
    requires i < |sizes|
    ensures var stop := Stop(sizes, i, |content|); var stop' := Stop(sizes, i + 1, |content|);
            stop <= stop' == Least(stop + sizes[i], |content|) && Part(content, sizes, i) == content[stop..stop']
  {
    SumMore(sizes, i);
  }

  lemma OpenReady(r: Receiver, chunks: seq<Bytes>, content: Bytes)
    requires r.Valid() && r.magic == 0 && r.Left() == DataLeaves(chunks + [[]]) && content == Content(chunks)
    ensures Between(r, r.parts, content, 0)
  {
    hide Content, Data, Receiver.Valid;
    ContentData(chunks + [[]]);
    ContentLast(chunks);
    assert [] + content == content == content[0..];
    ReadyNotBad(r);
  }

  lemma {:induction false} ContentLast(chunks: seq<Bytes>)
    ensures Content(chunks + [[]]) == Content(chunks)
  {
    if chunks == [] {
      assert chunks + [[]] == [[]];
      assert Content([[]]) == [] + Content([]);
    } else {
      assert (chunks + [[]])[1..] == chunks[1..] + [[]];
      ContentLast(chunks[1..]);
    }
  }

  lemma BadNone(left: nat)
    ensures !Bad([], left)
  {
  }

  // ----- which requests are safe

  lemma {:induction false} ContentOrder(chunks: seq<Bytes>, i: nat, j: nat)
    requires i <= j <= |chunks|
    ensures |Content(chunks[..i])| + (if i < j then |chunks[i]| else 0) <= |Content(chunks[..j])|
    decreases j - i
  {
    if i < j {
      assert chunks[..j] == chunks[..j - 1] + [chunks[j - 1]];
      ContentMore(chunks[..j - 1], chunks[j - 1]);
      ContentOrder(chunks, i, j - 1);
    }
  }

  /** A request that ends where a read of rc_readfile ended does no harm. */
  lemma BoundaryFine(chunks: seq<Bytes>, k: nat)
    requires k <= |chunks|
    ensures !Spoils(chunks, |Content(chunks[..k])|)
  {
    hide Content, Opens;
    forall j | 0 <= j < |chunks|
      ensures !SpoilsAt(chunks, j, |Content(chunks[..k])|)
    {
      if j < k {
        ContentOrder(chunks, j, k);
      } else {
        ContentOrder(chunks, k, j);
      }
    }
  }

  /** All reads but the last fill the buffer, as they do on a regular file. */
  predicate Regular(chunks: seq<Bytes>) {
    Chunks(chunks) && forall i :: 0 <= i < |chunks| - 1 ==> |chunks[i]| == CHUNK
  }

  lemma {:induction false} RegularStart(chunks: seq<Bytes>, k: nat)
    requires Regular(chunks) && k < |chunks|
    ensures |Content(chunks[..k])| == CHUNK * k
  {
    if k > 0 {
      RegularStart(chunks, k - 1);
      assert chunks[..k] == chunks[..k - 1] + [chunks[k - 1]];
      ContentMore(chunks[..k - 1], chunks[k - 1]);
    }
  }

  lemma RegularTotal(chunks: seq<Bytes>)
    requires Regular(chunks) && chunks != []
    ensures |Content(chunks)| == CHUNK * (|chunks| - 1) + |chunks[|chunks| - 1]|
  {
    var n := |chunks| - 1;
    RegularStart(chunks, n);
    assert chunks == chunks[..n] + [chunks[n]];
    ContentMore(chunks[..n], chunks[n]);
  }

  /** Where the packet ends that one full read has begun. */
  const FULL: nat := 32792

  /** So many bytes fit behind it. */
  const SHARED: nat := 32728

  lemma OpensWhen(data: Bytes)
    ensures Opens(FULL, data) <==> |data| > SHARED
  {
  }

  lemma {:induction false} RegularWindex(chunks: seq<Bytes>, k: nat)
    requires Regular(chunks) && k < |chunks|
    ensures Filling(chunks[..k]).windex == if k == 0 then HEAD else FULL
  {
    if k > 0 {
      RegularWindex(chunks, k - 1);
      var data := chunks[k - 1];
      assert chunks[..k] == chunks[..k - 1] + [data];
      FillingMore(chunks[..k - 1], data);
      FirstFits(data);
      OpensWhen(data);
    }
  }

  lemma RegularAt(chunks: seq<Bytes>, j: nat, stop: nat)
    requires Regular(chunks) && j < |chunks|
    ensures SpoilsAt(chunks, j, stop) <==> j > 0 && |chunks[j]| > SHARED && 0 < stop - CHUNK * j < |chunks[j]|
  {
    hide Content, Filling;
    RegularWindex(chunks, j);
    RegularStart(chunks, j);
    FirstFits(chunks[j]);
    OpensWhen(chunks[j]);
  }

  /** In a regular file of total bytes, a request must not end inside a read other than the first, unless
      that is the last and so short that it shares a packet with the one before. */
  predicate Inner(total: nat, stop: nat) {
    CHUNK < stop < total && stop % CHUNK != 0 && (stop < total - total % CHUNK || total % CHUNK > SHARED)
  }

  /** Which requests fail, from the size of the file and of the requests alone. */
  lemma RegularSpoils(chunks: seq<Bytes>, stop: nat)
    requires Regular(chunks)
    ensures Spoils(chunks, stop) <==> Inner(|Content(chunks)|, stop)
  {
    hide Content, SpoilsAt;
    if chunks == [] {
      SpoilsNone(stop);
      ContentNone();
    } else {
      RegularTotal(chunks);
      var total, n := |Content(chunks)|, |chunks| - 1;
      if Spoils(chunks, stop) {
        var j :| 0 <= j < |chunks| && SpoilsAt(chunks, j, stop);
        RegularAt(chunks, j, stop);
        InnerAt(total, stop, n, j, |chunks[n]|, |chunks[j]|);
      }
      if Inner(total, stop) {
        var j := stop / CHUNK;
        InnerFrom(total, stop, n, |chunks[n]|);
        RegularAt(chunks, j, stop);
        assert SpoilsAt(chunks, j, stop);
      }
    }
  }

  lemma ContentNone()
    ensures Content([]) == []
  {
  }

  lemma InnerAt(total: nat, stop: nat, n: nat, j: nat, last: nat, len: nat)
    requires total == CHUNK * n + last && 1 <= last <= CHUNK && 0 < j <= n && len == (if j < n then CHUNK else last)
    requires len > SHARED && 0 < stop - CHUNK * j < len
    ensures Inner(total, stop)
  {
  }

  lemma InnerFrom(total: nat, stop: nat, n: nat, last: nat)
    requires total == CHUNK * n + last && 1 <= last <= CHUNK && Inner(total, stop)
    ensures var j := stop / CHUNK; var len := if j < n then CHUNK else last;
            0 < j <= n && len > SHARED && 0 < stop - CHUNK * j < len
  {
  }

  lemma {:induction false} SumWhole(sizes: seq<nat>)
    requires forall i :: 0 <= i < |sizes| ==> sizes[i] % CHUNK == 0
    ensures Sum(sizes) % CHUNK == 0
  {
    if sizes != [] {
      SumWhole(sizes[..|sizes| - 1]);
    }
  }

  /** Requests of whole chunks, such as the 65536 bytes that cpdup asks for when it copies, are safe on
      every regular file. */
  lemma WholeRequests(chunks: seq<Bytes>, sizes: seq<nat>, i: nat)
    requires Regular(chunks) && i < |sizes| && forall j :: 0 <= j < |sizes| ==> sizes[j] % CHUNK == 0
    ensures !Breaks(chunks, sizes, i)
  {
    SumWhole(sizes[..i]);
    RegularSpoils(chunks, Stop(sizes, i, |Content(chunks)|));
  }

  /** Two full reads go out in two packets, the second with the empty leaf at the end of the file. */
  lemma TwoPackets(a: Bytes, b: Bytes)
    requires |a| == |b| == CHUNK
    ensures Packets([a, b]) == [[Leaf(LC_DATA, a)], [Leaf(LC_DATA, b), Leaf(LC_DATA, [])]]
  {
    hide Filling, Opens;
    var x, y, z := Leaf(LC_DATA, a), Leaf(LC_DATA, b), Leaf(LC_DATA, []);
    assert [] + [a] == [a] && [a] + [b] == [a, b];
    assert Filling([]) == Fill([], [], HEAD) by {
      FillingNone();
    }
    FillingMore([], a);
    FirstFits(a);
    assert Filling([a]) == Fill([], [x], FULL);
    FillingMore([a], b);
    OpensWhen(b);
    assert Filling([a, b]) == Fill([[x]], [y], FULL);
    FillingMore([a, b], []);
    OpensWhen([]);
    assert Filling([a, b] + [[]]).parts == [[x]] && Filling([a, b] + [[]]).leaves == [y, z];
  }

  lemma FillingNone()
    ensures Filling([]) == Fill([], [], HEAD)
  {
  }

  /** Others are not: requests of 8191 bytes, which is what cpdup begins with on a remote .cpignore, end inside
      the second packet of such a file, and the sixth fails. */
  lemma SmallRequests(a: Bytes, b: Bytes)
    requires |a| == |b| == CHUNK
    ensures Breaks([a, b], [8191, 8191, 8191, 8191, 8191, 8191], 5)
  {
    hide Content, Spoils;
    var sizes: seq<nat> := [8191, 8191, 8191, 8191, 8191, 8191];
    SumMore(sizes, 0);
    SumMore(sizes, 1);
    SumMore(sizes, 2);
    SumMore(sizes, 3);
    SumMore(sizes, 4);
    assert sizes[..0] == [];
    RegularTotal([a, b]);
    RegularSpoils([a, b], 40955);
  }
}
