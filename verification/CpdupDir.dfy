/** The reply to HC_SCANDIR (hcproto.c): what the slave finds in a directory is what the master
    gets, however it is split into packets. */
module CpdupDir {
  import opened CpdupWire

  datatype Option<+T> = None | Some(value: T)

  const LC_PATH1: nat := 0x0310
  const MAXNAMLEN: nat := 255
  const STAT_MAX_NUM_ENTRIES: nat := 18
  const FIELDS: nat := 15

  /** LC_DEV, LC_INO, LC_MODE, LC_NLINK, LC_UID, LC_GID, LC_RDEV, LC_ATIME, LC_MTIME, LC_CTIME,
      LC_FILESIZE, LC_FILEBLKS, LC_BLKSIZE, LC_FSMID, LC_FILEFLAGS: the order of
      rc_encode_stat */
  const IDS: seq<nat> := [0x0117, 0x0218, 0x0113, 0x0119, 0x011a, 0x011b, 0x011c, 0x021d, 0x021e, 0x021f,
                          0x0220, 0x0221, 0x0127, 0x0223, 0x0222]

  /** The size of a number of type LCF_INT32 or LCF_INT64. */
  function Width(id: nat): nat {
    if id < 0x0200 then 4 else 8
  }

  /** The fields of struct stat, in the same order; st_flags has 32 bits. */
  type Stat = seq<nat>

  predicate GoodStat(st: Stat) {
    && |st| == FIELDS && Fits(st[FIELDS - 1], 4)
    && forall i :: 0 <= i < FIELDS ==> Fits(st[i], Width(IDS[i]))
  }

  /** A name found by readdir, and what lstat says of it, if it succeeds. */
  datatype Entry = Entry(name: Bytes, stat: Option<Stat>)

  predicate GoodEntry(e: Entry) {
    0 < |e.name| <= MAXNAMLEN && 0 !in e.name && (e.stat.Some? ==> GoodStat(e.stat.value))
  }

  /** "." and ".." */
  predicate IsDots(name: Bytes) {
    name == [46] || name == [46, 46]
  }

  function StatLeaf(st: Stat, i: nat): Leaf
    requires i < |st| && i < FIELDS
  {
    Leaf(IDS[i], Enc(st[i], Width(IDS[i])))
  }

  function StatLeaves(st: Stat, n: nat): (r: seq<Leaf>)
    requires n <= |st| && n <= FIELDS
    ensures |r| == n
  {
    seq(n, i requires 0 <= i < n => StatLeaf(st, i))
  }

  function EntryLeaves(e: Entry): seq<Leaf>
    requires GoodEntry(e)
  {
    (if e.stat.Some? then StatLeaves(e.stat.value, FIELDS) else []) + [Leaf(LC_PATH1, e.name + [0])]
  }

  predicate GoodEntries(es: seq<Entry>) {
    forall i :: 0 <= i < |es| ==> GoodEntry(es[i])
  }

  function Leaves(es: seq<Entry>): seq<Leaf>
    requires GoodEntries(es)
  {
    if es == [] then [] else EntryLeaves(es[0]) + Leaves(es[1..])
  }

  /** The leaves of an entry: fifteen numbers, if it has a stat, by the ids of hcproto.h, and its name. */
  lemma EntryLaw(e: Entry)
    requires GoodEntry(e)
    ensures e.stat.None? ==> EntryLeaves(e) == [Leaf(0x0310, e.name + [0])]
    ensures e.stat.Some? ==> var st := e.stat.value; EntryLeaves(e) == [
        Leaf(0x0117, Enc(st[0], 4)), Leaf(0x0218, Enc(st[1], 8)), Leaf(0x0113, Enc(st[2], 4)), Leaf(0x0119, Enc(st[3], 4)),
        Leaf(0x011a, Enc(st[4], 4)), Leaf(0x011b, Enc(st[5], 4)), Leaf(0x011c, Enc(st[6], 4)), Leaf(0x021d, Enc(st[7], 8)),
        Leaf(0x021e, Enc(st[8], 8)), Leaf(0x021f, Enc(st[9], 8)), Leaf(0x0220, Enc(st[10], 8)), Leaf(0x0221, Enc(st[11], 8)),
        Leaf(0x0127, Enc(st[12], 4)), Leaf(0x0223, Enc(st[13], 8)), Leaf(0x0222, Enc(st[14], 8)), Leaf(0x0310, e.name + [0])]
  {
    hide Enc, Fits;
  }

  lemma {:induction false} LeavesMore(es: seq<Entry>, e: Entry)
    requires GoodEntries(es) && GoodEntry(e)
    ensures Leaves(es + [e]) == Leaves(es) + EntryLeaves(e)
  {
    if es == [] {
      assert es + [e] == [e] && [e][1..] == [];
      assert EntryLeaves(e) + [] == EntryLeaves(e);
    } else {
      assert (es + [e])[1..] == es[1..] + [e];
      LeavesMore(es[1..], e);
    }
  }

  lemma IdFits(id: nat)
    requires id < 65536
    ensures Fits(id, 2)
  {
    SmallFits(id);
  }

  // ----- the slave

  /** hcc_leaf_int32 or hcc_leaf_int64: 16 bytes in either case */
  method SendNumber(s: Sender, st: Stat, i: nat)
    requires s.Valid() && i < FIELDS == |st| && s.windex + 16 < HC_BUFSIZE
    modifies s.wbuf, s`windex, s`leaves
    ensures s.Valid() && s.Sent() == old(s.Sent()) + [StatLeaf(st, i)] && s.windex == old(s.windex) + 16
  {
    hide Fits;
    IdFits(IDS[i]);
    s.LeafData(IDS[i], Enc(st[i], Width(IDS[i])));
  }

  /** rc_encode_stat: 15 leaves of 16 bytes */
  method EncodeStat(s: Sender, st: Stat)
    requires s.Valid() && GoodStat(st) && s.windex + 16 * FIELDS < HC_BUFSIZE
    modifies s.wbuf, s`windex, s`leaves
    ensures s.Valid() && s.Sent() == old(s.Sent()) + StatLeaves(st, FIELDS)
    ensures s.windex == old(s.windex) + 16 * FIELDS
  {
    hide Fits, StatLeaf, Enc;
    for i := 0 to FIELDS
      invariant s.Valid() && s.windex == old(s.windex) + 16 * i
      invariant s.Sent() == old(s.Sent()) + StatLeaves(st, i)
    {
      SendNumber(s, st, i);
      assert StatLeaves(st, i + 1) == StatLeaves(st, i) + [StatLeaf(st, i)];
    }
  }

  /** No packet is empty, the one being filled included. */
  ghost predicate Full(s: Sender)
    reads s
  {
    NoneEmpty(s.parts) && s.leaves != []
  }

  /** One turn of the loop of rc_scandir; check_space has made enough room. */
  method SendEntry(s: Sender, e: Entry)
    requires s.Valid() && GoodEntry(e) && s.windex < HC_BUFSIZE && NoneEmpty(s.parts)
    modifies s, s.wbuf
    ensures s.Valid() && s.Sent() == old(s.Sent()) + EntryLeaves(e) && s.windex < HC_BUFSIZE && Full(s)
  {
    hide GoodStat;
    var len := |e.name|;
    s.CheckSpace(STAT_MAX_NUM_ENTRIES, (STAT_MAX_NUM_ENTRIES - 1) * 8 + len + 1);
    if e.stat.Some? {
      EncodeStat(s, e.stat.value);
    }
    IdFits(LC_PATH1);
    s.LeafData(LC_PATH1, e.name + [0]);
  }

  /** What rc_scandir passes on. */
  function Listed(found: seq<Entry>): (r: seq<Entry>)
    ensures GoodEntries(found) ==> GoodEntries(r)
  {
    if found == [] then []
    else if IsDots(found[|found| - 1].name) then Listed(found[..|found| - 1])
    else Listed(found[..|found| - 1]) + [found[|found| - 1]]
  }

  /** The i-th entry of es is found[at[i]]: entries are passed on in the order in which they are found, each of them once,
      and only those named "." and ".." are left out. */
  ghost predicate Selected(found: seq<Entry>, es: seq<Entry>, at: seq<nat>) {
    && |at| == |es|
    && (forall i, j :: 0 <= i < j < |at| ==> at[i] < at[j])
    && (forall i :: 0 <= i < |at| ==> at[i] < |found| && es[i] == found[at[i]])
    && (forall k :: 0 <= k < |found| ==> (k in at <==> found[k].name != [46] && found[k].name != [46, 46]))
  }

  lemma {:induction false} ListedSelected(found: seq<Entry>) returns (at: seq<nat>)
    ensures Selected(found, Listed(found), at)
  {
    at := [];
    if found != [] {
      var n := |found| - 1;
      at := ListedSelected(found[..n]);
      SelectedMore(found, Listed(found[..n]), at);
      if !IsDots(found[n].name) {
        at := at + [n];
      }
    }
  }

  lemma SelectedMore(found: seq<Entry>, es: seq<Entry>, at: seq<nat>)
    requires found != [] && Selected(found[..|found| - 1], es, at)
    ensures var n := |found| - 1;
      if IsDots(found[n].name) then Selected(found, es, at) else Selected(found, es + [found[n]], at + [n])
  {
    var n := |found| - 1;
    assert n !in at;
    assert forall k :: 0 <= k < n ==> found[..n][k] == found[k];
  }

  lemma SelectedMembers(found: seq<Entry>, es: seq<Entry>, at: seq<nat>)
    requires Selected(found, es, at)
    ensures forall e :: e in es <==> e in found && e.name != [46] && e.name != [46, 46]
  {
    forall e | e in es
      ensures e in found && e.name != [46] && e.name != [46, 46]
    {
      var i :| 0 <= i < |es| && es[i] == e;
      assert at[i] in at && found[at[i]] == e;
    }
    forall e | e in found && e.name != [46] && e.name != [46, 46]
      ensures e in es
    {
      var k :| 0 <= k < |found| && found[k] == e;
      var i :| 0 <= i < |at| && at[i] == k;
      assert es[i] == e;
    }
  }

  /** rc_scandir, followed by hcc_finish_reply; no assertion on sizes fails. */
  method ScanDir(found: seq<Entry>) returns (s: Sender, ghost es: seq<Entry>, ghost at: seq<nat>)
    requires GoodEntries(found)
    ensures fresh(s) && Reply(s.wire, s.parts)
    ensures Selected(found, es, at) && GoodEntries(es) && Concat(s.parts) == Leaves(es)
  {
    hide GoodEntry, EntryLeaves, Selected;
    es := Listed(found);
    at := ListedSelected(found);
    s := new Sender();
    for i := 0 to |found|
      invariant fresh(s) && fresh(s.wbuf) && s.Valid() && s.windex < HC_BUFSIZE && (s.wire == [] || Full(s))
      invariant s.Sent() == Leaves(Listed(found[..i]))
    {
      assert found[..i + 1][..i] == found[..i];
      if !IsDots(found[i].name) {
        SendEntry(s, found[i]);
        LeavesMore(Listed(found[..i]), found[i]);
      }
    }
    assert found[..|found|] == found;
    SendLast(s);
  }

  method SendLast(s: Sender)
    requires s.Valid() && s.windex < HC_BUFSIZE && (s.wire == [] || Full(s))
    modifies s
    ensures Reply(s.wire, s.parts) && Concat(s.parts) == old(s.Sent()) && s.parts == old(s.parts) + [old(s.leaves)]
  {
    ghost var wire, parts := s.wire, s.parts;
    ConcatMore(parts, s.leaves);
    s.Finish(false);
    ReplyDone(wire, parts, s.wire[|wire|], s.leaves);
  }

  // ----- the master

  /** The field that a leaf sets in hc_decode_stat_item, FIELDS if none. */
  function FieldOf(id: nat, i: nat): (r: nat)
    requires i <= FIELDS
    ensures i <= r <= FIELDS && (r < FIELDS ==> IDS[r] == id)
    decreases FIELDS - i
  {
    if i == FIELDS || IDS[i] == id then i else FieldOf(id, i + 1)
  }

  lemma IdsDiffer(i: nat, k: nat)
    requires i < k < FIELDS
    ensures IDS[i] != IDS[k]
  {
  }

  lemma {:induction false} FieldFound(i: nat, k: nat)
    requires i <= k < FIELDS
    ensures FieldOf(IDS[k], i) == k
    decreases FIELDS - i
  {
    if i < k {
      IdsDiffer(i, k);
      FieldFound(i + 1, k);
    }
  }

  /** hc_decode_stat_item; st_flags takes the low 32 bits. */
  function DecodeItem(st: Stat, l: Leaf): Stat
    requires |st| == FIELDS
  {
    var i := FieldOf(l.id, 0);
    if i == FIELDS then st
    else if i == FIELDS - 1 then st[i := Dec(l.data) % 0x1_0000_0000]
    else st[i := Dec(l.data)]
  }

  lemma Fits32(v: nat)
    requires Fits(v, 4)
    ensures v < 0x1_0000_0000
  {
    assert Fits(v / 256, 3) && Fits(v / 256 / 256, 2) && Fits(v / 256 / 256 / 256, 1);
    assert Fits(v / 256 / 256 / 256 / 256, 0);
  }

  lemma DecodeNumber(st: Stat, want: Stat, k: nat)
    requires |st| == FIELDS && GoodStat(want) && k < FIELDS
    ensures DecodeItem(st, StatLeaf(want, k)) == st[k := want[k]]
  {
    hide Fits, Enc, Dec;
    FieldFound(0, k);
    DecEnc(want[k], Width(IDS[k]));
    if k == FIELDS - 1 {
      Fits32(want[k]);
    }
  }

  /** A C string: the bytes before the first NUL. */
  function CString(s: Bytes): Bytes {
    if s == [] || s[0] == 0 then [] else [s[0]] + CString(s[1..])
  }

  lemma {:induction false} CStringOf(name: Bytes)
    requires 0 !in name
    ensures CString(name + [0]) == name
  {
    if name != [] {
      assert (name + [0])[1..] == name[1..] + [0];
      CStringOf(name[1..]);
    }
  }

  /** strlcpy into d_name */
  function Name(data: Bytes): Bytes {
    var s := CString(data);
    if |s| > MAXNAMLEN then s[..MAXNAMLEN] else s
  }

  const ZEROSTAT: Stat := [0, 0, 0, 0, 0, 0, 0, 0, 0, 0, 0, 0, 0, 0, 0]

  /** The stat after the first k leaves of an entry. */
  function Partial(st: Stat, k: nat): (r: Stat)
    requires |st| == FIELDS && k <= FIELDS
    ensures |r| == FIELDS
  {
    st[..k] + ZEROSTAT[k..]
  }

  lemma PartialMore(st: Stat, k: nat)
    requires |st| == FIELDS && k < FIELDS
    ensures Partial(st, k)[k := st[k]] == Partial(st, k + 1)
  {
  }

  lemma DecodeMore(want: Stat, k: nat)
    requires GoodStat(want) && k < FIELDS
    ensures DecodeItem(Partial(want, k), StatLeaf(want, k)) == Partial(want, k + 1)
  {
    DecodeNumber(Partial(want, k), want, k);
    PartialMore(want, k);
  }

  method NextLeaf(r: Receiver, ghost ls: seq<Leaf>, ghost tail: seq<Leaf>, ghost k: nat) returns (found: bool, l: Leaf)
    requires r.Valid() && k <= |ls| && r.Left() == ls[k..] + tail && (ls == [] ==> tail == [])
    requires ls != [] ==> k < |ls|
    modifies r
    ensures r.Valid() && found == (ls != [])
    ensures if found then l == ls[k] && r.Left() == ls[k + 1..] + tail else r.Left() == []
  {
    hide Receiver.Valid, Receiver.Left, Upcoming;
    found, l := r.NextChainedItem();
    if ls != [] {
      assert ls[k..] + tail == [ls[k]] + (ls[k + 1..] + tail);
      SameHead(l, r.Left(), ls[k], ls[k + 1..] + tail);
    }
  }

  /** hc_readdir: the next entry, or no name at the end of the directory. */
  method Readdir(r: Receiver, ghost es: seq<Entry>) returns (name: Bytes, stat: Option<Stat>)
    requires r.Valid() && GoodEntries(es) && r.Left() == Leaves(es)
    modifies r
    ensures r.Valid()
    ensures es == [] ==> name == [] && r.Left() == []
    ensures es != [] ==> Entry(name, stat) == es[0] && r.Left() == Leaves(es[1..])
  {
    hide Fits, GoodStat, DecodeItem, Partial, Name, StatLeaf, EntryLeaves, Leaves, GoodEntry, Receiver.Valid, Receiver.Left;
    LeavesCons(es);
    ghost var ls := if es == [] then [] else EntryLeaves(es[0]);
    ghost var tail := if es == [] then [] else Leaves(es[1..]);
    ghost var k := 0;
    var st, statOk := ZEROSTAT, false;
    ghost var want := if es != [] && es[0].stat.Some? then es[0].stat.value else ZEROSTAT;
    if es != [] {
      StatSize(es[0]);
    }
    PartialNone(want);
    assert ls[0..] + tail == Leaves(es);
    name := [];
    while true
      invariant r.Valid() && 0 <= k <= |ls| && (es != [] ==> k < |ls|) && r.Left() == ls[k..] + tail
      invariant |st| == FIELDS && st == Partial(want, k) && statOk == (k > 0)
      decreases |ls| - k
    {
      var found, l := NextLeaf(r, ls, tail, k);
      if !found {
        break;
      }
      EntryLeafId(es[0], k);
      if l.id == LC_PATH1 {
        name := Name(l.data);
        assert ls[k + 1..] == [];
        NameOf(es[0]);
        break;
      }
      statOk := true;
      st := DecodeItem(st, l);
      DecodeMore(want, k);
      k := k + 1;
    }
    PartialAll(want);
    stat := if statOk then Some(st) else None;
  }

  /** A directory on the slave, as the master reads it. */
  method ListDir(found: seq<Entry>) returns (es: seq<Entry>, ghost at: seq<nat>)
    requires GoodEntries(found)
    ensures forall e :: e in es <==> e in found && e.name != [46] && e.name != [46, 46]
    ensures Selected(found, es, at)
  {
    hide GoodEntry, EntryLeaves, Leaves, Receiver.Valid, Receiver.Left, Selected;
    var s;
    ghost var all, k := [], 0;
    s, all, at := ScanDir(found);
    SelectedMembers(found, all, at);
    var r := new Receiver(s.wire, s.parts);
    es := [];
    assert all[0..] == all && all[..0] == [];
    while true
      invariant fresh(r) && r.Valid() && 0 <= k <= |all| && es == all[..k] && r.Left() == Leaves(all[k..])
      decreases |all| - k
    {
      var name, stat := Readdir(r, all[k..]);
      if name == [] {
        if k < |all| {
          EntryNamed(all[k]);
        }
        break;
      }
      assert all[k..][1..] == all[k + 1..] && all[..k + 1] == all[..k] + [all[k]];
      es := es + [Entry(name, stat)];
      k := k + 1;
    }
    assert es == all;
  }

  lemma EntryNamed(e: Entry)
    requires GoodEntry(e)
    ensures e.name != []
  {
  }

  lemma LeavesCons(es: seq<Entry>)
    requires GoodEntries(es)
    ensures es == [] ==> Leaves(es) == []
    ensures es != [] ==> Leaves(es) == EntryLeaves(es[0]) + Leaves(es[1..])
  {
  }

  lemma NameOf(e: Entry)
    requires GoodEntry(e)
    ensures Name(e.name + [0]) == e.name
  {
    CStringOf(e.name);
  }

  lemma SameHead(l: Leaf, ls: seq<Leaf>, m: Leaf, ms: seq<Leaf>)
    requires [l] + ls == [m] + ms
    ensures l == m && ls == ms
  {
    assert l == ([l] + ls)[0] && ls == ([l] + ls)[1..] && m == ([m] + ms)[0] && ms == ([m] + ms)[1..];
  }

  lemma StatSize(e: Entry)
    requires GoodEntry(e)
    ensures e.stat.Some? ==> GoodStat(e.stat.value)
    ensures |EntryLeaves(e)| == (if e.stat.Some? then FIELDS + 1 else 1)
    ensures e.stat.Some? ==> |e.stat.value| == FIELDS
  {
  }

  lemma PartialNone(st: Stat)
    requires |st| == FIELDS
    ensures Partial(st, 0) == ZEROSTAT
  {
  }

  lemma PartialAll(st: Stat)
    requires |st| == FIELDS
    ensures Partial(st, FIELDS) == st
  {
  }

  lemma EntryLeafId(e: Entry, k: nat)
    requires GoodEntry(e) && k < |EntryLeaves(e)|
    ensures EntryLeaves(e)[k].id == LC_PATH1 <==> k == |EntryLeaves(e)| - 1
    ensures k < |EntryLeaves(e)| - 1 ==> e.stat.Some? && k < FIELDS && EntryLeaves(e)[k] == StatLeaf(e.stat.value, k)
    ensures k == |EntryLeaves(e)| - 1 ==> EntryLeaves(e)[k].data == e.name + [0]
  {
  }
}
