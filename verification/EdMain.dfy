/** main.c: the commands that delete, move, copy and join lines, and the marks. */
module EdMain {
  import opened EdLinks
  import opened EdHistory
  import opened EdTypes
  import EdSubst
  import opened EdSpec
  import opened EdState
  import opened EdBuf
  import opened EdGlobal

  /** The ring without the lines from..to, and those lines. */
  ghost function Cut(r: seq<Id>, from: nat, to: nat): seq<Id>
    requires 1 <= from <= to < |r|
  {
    r[..from] + r[to + 1..]
  }

  lemma CutIns(r: seq<Id>, from: nat, to: nat)
    requires 1 <= from <= to < |r|
    ensures Ins(Cut(r, from, to), from - 1, r[from..to + 1]) == r
    ensures Cut(r, from, to)[Succ(from - 1, |Cut(r, from, to)|)] == r[Succ(to, |r|)]
  {
  }

  lemma CutCovers(r: seq<Id>, from: nat, to: nat)
    requires 1 <= from <= to < |r|
    ensures forall x :: x in r ==> x in Cut(r, from, to) || x in r[from..to + 1]
  {
    forall x | x in r
      ensures x in Cut(r, from, to) || x in r[from..to + 1]
    {
      var i :| 0 <= i < |r| && r[i] == x;
      if i < from {
        assert Cut(r, from, to)[i] == x;
      } else if i <= to {
        assert r[from..to + 1][i - from] == x;
      } else {
        assert Cut(r, from, to)[i - (to - from + 1)] == x;
      }
    }
  }

  /** The view after the lines from..to were cut out and recorded. */
  ghost function RecordDel(v: View, from: nat, to: nat): View
    requires 1 <= from <= to < |v.ring|
  {
    var del := EdHistory.Undo(UDEL, v.ring[from], v.ring[to]);
    var z := Cut(v.ring, from, to);
    v.(ring := z, steps := v.steps + [One(del, z, from - 1, v.ring[from..to + 1])], hist := v.hist + [z])
  }

  lemma HistoryDel(l: Links, us: seq<EdHistory.Undo>, v: View, from: nat, to: nat)
    requires History(l, us, v.steps, v.hist, v.ring) && 1 <= from <= to < |v.ring| && Ring(l, v.ring)
    ensures var p, n := v.ring[from - 1], v.ring[Succ(to, |v.ring|)];
            && Allocated(l, p) && Allocated(l, n)
            && var l', v' := Reque(l, p, n), RecordDel(v, from, to);
            && Ring(l', v'.ring)
            && History(l', us + [EdHistory.Undo(UDEL, v.ring[from], v.ring[to])], v'.steps, v'.hist, v'.ring)
  {
    var r, z, m := v.ring, Cut(v.ring, from, to), v.ring[from..to + 1];
    var s := One(EdHistory.Undo(UDEL, r[from], r[to]), z, from - 1, m);
    CutIns(r, from, to);
    assert At(l, r, from - 1) && At(l, r, Succ(to, |r|));
    RemoveLinks(l, z, from - 1, m);
    InsKeeps(z, from - 1, m);
    var l' := Reque(l, r[from - 1], r[Succ(to, |r|)]);
    forall x | x in z
      ensures x in l.forw
    {
      RingAllocated(l, r, x);
    }
    HistoryPush(l, l', us, v.steps, v.hist, r, s);
  }

  /** gone leaves the active list, if a global command is running. */
  ghost predicate Unset(e: Ed, e': Ed, gone: seq<Id>) {
    && e'.isglobal == e.isglobal && e'.activePtr == e.activePtr
    && (e.isglobal ==>
          e'.activeList == Nulled(e.activeList, gone) && (e'.activeNdx < |e'.activeList| || e'.activeNdx == 0))
  }

  lemma UnsetPending(e: Ed, e': Ed, gone: seq<Id>)
    requires Unset(e, e', gone) && e.isglobal && e.activePtr <= |e.activeList|
    ensures Pending(e'.activeList[e'.activePtr..]) == Without(Pending(e.activeList[e.activePtr..]), gone)
  {
    PendingNulled(e.activeList[e.activePtr..], gone);
    assert e'.activeList[e.activePtr..] == Nulled(e.activeList[e.activePtr..], gone);
  }

  lemma UnsetActiveOk(e: Ed, e': Ed, gone: seq<Id>, r: seq<Id>, r': seq<Id>)
    requires ActiveOk(e, r) && Unset(e, e', gone) && forall x :: x in r ==> x in r' || x in gone
    ensures ActiveOk(e', r')
  {
    if e.isglobal {
      OnceNulled(e.activeList, gone);
    }
  }

  /** e' is e after delete_lines. */
  ghost predicate Deleted(e: Ed, v: View, e': Ed, from: nat, to: nat)
    requires 1 <= from <= to < |v.ring| && e.addrLast == |v.ring| - 1
  {
    && e' == e.(mem := e.mem.(links := Reque(e.mem.links, v.ring[from - 1], v.ring[Succ(to, |v.ring|)])),
                cache := Cache(v.ring[from - 1], from - 1),
                ustack := e.ustack + [EdHistory.Undo(UDEL, v.ring[from], v.ring[to])],
                addrLast := e.addrLast - (to - from + 1), currentAddr := from - 1,
                activeList := e'.activeList, activeNdx := e'.activeNdx)
    && Unset(e, e', v.ring[from..to + 1])
  }

  lemma DeletedValid(e: Ed, v: View, e': Ed, from: nat, to: nat)
    requires Valid(e, v) && 1 <= from <= to <= e.addrLast && Deleted(e, v, e', from, to)
    ensures Valid(e', RecordDel(v, from, to))
  {
    HistoryDel(e.mem.links, e.ustack, v, from, to);
    NodesRelinked(e.mem, e'.mem.links, v.text, e.sb.file);
    CutCovers(v.ring, from, to);
    UnsetActiveOk(e, e', v.ring[from..to + 1], v.ring, Cut(v.ring, from, to));
  }

  lemma CutLines(r: seq<Id>, text: map<Id, string>, from: nat, to: nat)
    requires 1 <= from <= to < |r|
    ensures var lines := LinesOf(r, text);
            && LinesOf(Cut(r, from, to), text) == lines[..from - 1] + lines[to..]
            && Ids(lines[from - 1..to]) == r[from..to + 1]
  {
    var lines := LinesOf(r, text);
    var cut, rest, ids := LinesOf(Cut(r, from, to), text), lines[..from - 1] + lines[to..], Ids(lines[from - 1..to]);
    assert |cut| == |rest| && forall i :: 0 <= i < |cut| ==> cut[i] == rest[i];
    assert |ids| == to - from + 1 && forall i :: 0 <= i < |ids| ==> ids[i] == r[from + i];
  }

  lemma DeletedAbs(e: Ed, v: View, e': Ed, from: nat, to: nat)
    requires AbsOk(e, v) && e.addrLast == |v.ring| - 1
    requires 1 <= from <= to <= e.addrLast && Deleted(e, v, e', from, to)
    requires AbsOk(e', RecordDel(v, from, to))
    ensures Abs(e', RecordDel(v, from, to)) == DeleteRange(Abs(e, v), from, to)
  {
    CutLines(v.ring, v.text, from, to);
    if e.isglobal {
      UnsetPending(e, e', v.ring[from..to + 1]);
    }
  }

  /** delete_lines, as code: the lookup of the line before the range comes last, so that
      the cache still names a linked node. */
  method UnlinkLines(e: Ed, ghost v: View, from: nat, to: nat) returns (e': Ed)
    requires RingOk(e, v) && ActiveOk(e, v.ring) && 1 <= from <= to <= e.addrLast
    ensures Deleted(e, v, e', from, to)
  {
    e' := PushUndo(e, v, UDEL, from, to);
    var n, p;
    e', n := Lookup(e', v, IncMod(to, e.addrLast));
    e', p := Lookup(e', v, from - 1);
    assert At(e.mem.links, v.ring, from - 1) && At(e.mem.links, v.ring, Succ(to, |v.ring|));
    if e'.isglobal {
      e' := UnsetActive(e', v.ring, e'.mem.links.forw[p], n, from, to + 1);
    }
    e' := Requeue(e', p, n);
    e' := e'.(addrLast := e.addrLast - (to - from + 1), currentAddr := from - 1);
  }

  method DeleteLines(e: Ed, ghost v: View, from: nat, to: nat) returns (e': Ed, ghost v': View)
    requires Valid(e, v) && 1 <= from <= to <= e.addrLast
    ensures Valid(e', v') && Abs(e', v') == DeleteRange(Abs(e, v), from, to) && e'.isglobal == e.isglobal
  {
    e' := UnlinkLines(e, v, from, to);
    DeletedValid(e, v, e', from, to);
    DeletedAbs(e, v, e', from, to);
    v' := RecordDel(v, from, to);
  }

  // ----- move_lines

  /** Where the line addr stands once the lines from..to are cut out. */
  function Dest(from: nat, to: nat, addr: nat): nat
    requires from <= to && (addr < from || to < addr)
  {
    if addr < from then addr else addr - (to - from + 1)
  }

  /** The ring after the lines from..to moved behind addr. */
  ghost function Moved(r: seq<Id>, from: nat, to: nat, addr: nat): seq<Id>
    requires 1 <= from <= to < |r| && addr < |r| && (addr < from - 1 || to < addr)
  {
    Ins(Cut(r, from, to), Dest(from, to, addr), r[from..to + 1])
  }

  ghost function MoveStep(r: seq<Id>, from: nat, to: nat, addr: nat): Step
    requires 1 <= from <= to < |r| && addr < |r| && (addr < from - 1 || to < addr)
  {
    Two(EdHistory.Undo(UMOV, r[from - 1], r[Succ(to, |r|)]), EdHistory.Undo(UMOV, r[addr], r[Succ(addr, |r|)]),
        Cut(r, from, to), from - 1, Dest(from, to, addr), r[from..to + 1])
  }

  ghost function RecordMove(v: View, from: nat, to: nat, addr: nat): View
    requires 1 <= from <= to < |v.ring| && addr < |v.ring| && (addr < from - 1 || to < addr)
  {
    var r' := Moved(v.ring, from, to, addr);
    v.(ring := r', steps := v.steps + [MoveStep(v.ring, from, to, addr)], hist := v.hist + [r'])
  }

  /** The REQUEs of move_lines. */
  function MovedLinks(l: Links, b1: Id, a1: Id, b2: Id, a2: Id, h: Id, t: Id): Links {
    Reque(Reque(Reque(l, b2, h), t, a2), b1, a1)
  }

  lemma DestAt(r: seq<Id>, from: nat, to: nat, addr: nat)
    requires 1 <= from <= to < |r| && addr < |r| && (addr < from - 1 || to < addr)
    ensures var z, d := Cut(r, from, to), Dest(from, to, addr);
            && d < |z| && d != from - 1 && z[d] == r[addr] && z[Succ(d, |z|)] == r[Succ(addr, |r|)]
            && z[from - 1] == r[from - 1] && z[Succ(from - 1, |z|)] == r[Succ(to, |r|)]
  {
  }

  lemma MovedShape(r: seq<Id>, from: nat, to: nat, addr: nat)
    requires Shape(r) && 1 <= from <= to < |r| && addr < |r| && (addr < from - 1 || to < addr)
    ensures Shape(Moved(r, from, to, addr))
  {
    CutIns(r, from, to);
    InsShape(Cut(r, from, to), from - 1, r[from..to + 1]);
    InsFresh(Cut(r, from, to), Dest(from, to, addr), r[from..to + 1]);
  }

  lemma MoveStepOk(r: seq<Id>, from: nat, to: nat, addr: nat)
    requires Shape(r) && 1 <= from <= to < |r| && addr < |r| && (addr < from - 1 || to < addr)
    ensures var s := MoveStep(r, from, to, addr);
            StepOk(s) && Before(s) == r && After(s) == Moved(r, from, to, addr)
  {
    hide Shape, Ins;
    CutIns(r, from, to);
    DestAt(r, from, to, addr);
    MovedShape(r, from, to, addr);
  }

  lemma MovedSame(r: seq<Id>, from: nat, to: nat, addr: nat)
    requires 1 <= from <= to < |r| && addr < |r| && (addr < from - 1 || to < addr)
    ensures forall x :: x in r <==> x in Moved(r, from, to, addr)
  {
    var z, m, r' := Cut(r, from, to), r[from..to + 1], Moved(r, from, to, addr);
    var d := Dest(from, to, addr);
    CutCovers(r, from, to);
    InsKeeps(z, d, m);
    forall j | 0 <= j < |m|
      ensures m[j] in r'
    {
      assert r'[d + 1 + j] == m[j];
    }
  }

  lemma RingShape(l: Links, r: seq<Id>)
    requires Ring(l, r)
    ensures Shape(r)
  {
  }

  lemma MovedRing(l: Links, r: seq<Id>, from: nat, to: nat, addr: nat)
    requires Ring(l, r) && 1 <= from <= to < |r| && addr < |r| && (addr < from - 1 || to < addr)
    ensures var l' := MovedLinks(l, r[from - 1], r[Succ(to, |r|)], r[addr], r[Succ(addr, |r|)], r[from], r[to]);
            && Ring(l', Moved(r, from, to, addr)) && SameOutside(l, l', Moved(r, from, to, addr))
  {
    hide Shape, Ring, SameOutside, Ins;
    var z, d, m := Cut(r, from, to), Dest(from, to, addr), r[from..to + 1];
    RingShape(l, r);
    assert Ins(z, from - 1, m) == r by {
      CutIns(r, from, to);
    }
    assert Shape(Ins(z, d, m)) by {
      MovedShape(r, from, to, addr);
    }
    DestAt(r, from, to, addr);
    assert m[0] == r[from] && m[|m| - 1] == r[to];
    MoveLinks(l, z, from - 1, d, m);
  }

  lemma MovedKeys(l: Links, r: seq<Id>, from: nat, to: nat, addr: nat)
    requires Ring(l, r) && 1 <= from <= to < |r| && addr < |r| && (addr < from - 1 || to < addr)
    ensures var l' := MovedLinks(l, r[from - 1], r[Succ(to, |r|)], r[addr], r[Succ(addr, |r|)], r[from], r[to]);
            l'.forw.Keys == l.forw.Keys && l'.back.Keys == l.back.Keys
  {
    assert At(l, r, from - 1) && At(l, r, Succ(to, |r|)) && At(l, r, addr) && At(l, r, Succ(addr, |r|));
    assert At(l, r, from) && At(l, r, to);
  }

  lemma HistoryMove(l: Links, us: seq<EdHistory.Undo>, v: View, from: nat, to: nat, addr: nat)
    requires History(l, us, v.steps, v.hist, v.ring) && Ring(l, v.ring)
    requires 1 <= from <= to < |v.ring| && addr < |v.ring| && (addr < from - 1 || to < addr)
    ensures var r, v' := v.ring, RecordMove(v, from, to, addr);
            var l' := MovedLinks(l, r[from - 1], r[Succ(to, |r|)], r[addr], r[Succ(addr, |r|)], r[from], r[to]);
            History(l', us + Entries(MoveStep(r, from, to, addr)), v'.steps, v'.hist, v'.ring)
  {
    var r := v.ring;
    var l' := MovedLinks(l, r[from - 1], r[Succ(to, |r|)], r[addr], r[Succ(addr, |r|)], r[from], r[to]);
    MoveStepOk(r, from, to, addr);
    MovedRing(l, r, from, to, addr);
    MovedKeys(l, r, from, to, addr);
    MovedSame(r, from, to, addr);
    forall x | x in r
      ensures x in l.forw
    {
      RingAllocated(l, r, x);
    }
    HistoryPush(l, l', us, v.steps, v.hist, r, MoveStep(r, from, to, addr));
  }

  /** e after move_lines, but for the active list. */
  ghost function MovedEd(e: Ed, r: seq<Id>, from: nat, to: nat, addr: nat): Ed
    requires 1 <= from <= to < |r| && addr < |r| && (addr < from - 1 || to < addr)
  {
    var on := if addr < from then addr else from - 1;
    var l' := MovedLinks(e.mem.links, r[from - 1], r[Succ(to, |r|)], r[addr], r[Succ(addr, |r|)], r[from], r[to]);
    e.(mem := e.mem.(links := l'), cache := Cache(r[on], on),
       ustack := e.ustack + Entries(MoveStep(r, from, to, addr)),
       currentAddr := if addr < from then addr + (to - from + 1) else addr)
  }

  ghost predicate MovedTo(e: Ed, v: View, e': Ed, from: nat, to: nat, addr: nat)
    requires 1 <= from <= to < |v.ring| && addr < |v.ring| && (addr < from - 1 || to < addr)
  {
    && e' == MovedEd(e, v.ring, from, to, addr).(activeList := e'.activeList, activeNdx := e'.activeNdx)
    && Unset(e, e', v.ring[from..to + 1])
  }

  lemma MovedValid(e: Ed, v: View, e': Ed, from: nat, to: nat, addr: nat)
    requires Valid(e, v) && 1 <= from <= to <= e.addrLast && addr <= e.addrLast && (addr < from - 1 || to < addr)
    requires MovedTo(e, v, e', from, to, addr)
    ensures Valid(e', RecordMove(v, from, to, addr))
  {
    HistoryMove(e.mem.links, e.ustack, v, from, to, addr);
    MovedRing(e.mem.links, v.ring, from, to, addr);
    MovedKeys(e.mem.links, v.ring, from, to, addr);
    NodesRelinked(e.mem, e'.mem.links, v.text, e.sb.file);
    MovedSame(v.ring, from, to, addr);
    UnsetActiveOk(e, e', v.ring[from..to + 1], v.ring, Moved(v.ring, from, to, addr));
  }

  lemma NamedSlice(r: seq<Id>, text: map<Id, string>, from: nat, to: nat)
    requires 1 <= from <= to < |r|
    ensures Named(r[from..to + 1], text) == LinesOf(r, text)[from - 1..to]
  {
    var a, b := Named(r[from..to + 1], text), LinesOf(r, text)[from - 1..to];
    forall i | 0 <= i < to + 1 - from
      ensures a[i] == b[i]
    {
      assert r[from..to + 1][i] == r[from + i] == r[1..][from - 1 + i];
      assert LinesOf(r, text)[from - 1 + i] == b[i];
    }
  }

  lemma MoveSeqCut(lines: seq<Line>, from: nat, to: nat, addr: nat)
    requires 1 <= from <= to <= |lines| && addr <= |lines| && (addr < from - 1 || to < addr)
    ensures var cut, d := lines[..from - 1] + lines[to..], Dest(from, to, addr);
            d <= |cut| && MoveSeq(lines, from, to, addr) == cut[..d] + lines[from - 1..to] + cut[d..]
  {
    var cut, d := lines[..from - 1] + lines[to..], Dest(from, to, addr);
    if addr < from {
      assert cut[..d] == lines[..addr];
      assert cut[d..] == lines[addr..from - 1] + lines[to..];
    } else {
      assert cut[..d] == lines[..from - 1] + lines[to..addr];
      assert cut[d..] == lines[addr..];
    }
  }

  /** The lines after a move, as the reference editor has them. */
  lemma MovedLines(r: seq<Id>, text: map<Id, string>, from: nat, to: nat, addr: nat)
    requires 1 <= from <= to < |r| && addr < |r| && (addr < from - 1 || to < addr)
    ensures LinesOf(Moved(r, from, to, addr), text) == MoveSeq(LinesOf(r, text), from, to, addr)
  {
    var z, m, d := Cut(r, from, to), r[from..to + 1], Dest(from, to, addr);
    var lines, cut := LinesOf(r, text), LinesOf(z, text);
    assert cut == lines[..from - 1] + lines[to..] by {
      CutLines(r, text, from, to);
    }
    assert LinesOf(Moved(r, from, to, addr), text) == cut[..d] + lines[from - 1..to] + cut[d..] by {
      LinesIns(z, d, m, text);
      NamedSlice(r, text, from, to);
    }
    MoveSeqCut(lines, from, to, addr);
  }

  lemma LinesSize(r: seq<Id>, text: map<Id, string>)
    requires r != []
    ensures |LinesOf(r, text)| == |r| - 1
  {
  }

  lemma MovedAbs(e: Ed, v: View, e': Ed, from: nat, to: nat, addr: nat)
    requires AbsOk(e, v) && e.addrLast == |v.ring| - 1
    requires 1 <= from <= to <= e.addrLast && addr <= e.addrLast && (addr < from - 1 || to < addr)
    requires MovedTo(e, v, e', from, to, addr) && AbsOk(e', RecordMove(v, from, to, addr))
    ensures Abs(e', RecordMove(v, from, to, addr)) == MoveRange(Abs(e, v), from, to, addr)
  {
    hide LinesOf, Named, MoveSeq, Pending, Without, Ids, Moved;
    LinesSize(v.ring, v.text);
    MovedLines(v.ring, v.text, from, to, addr);
    assert Ids(LinesOf(v.ring, v.text)[from - 1..to]) == v.ring[from..to + 1] by {
      CutLines(v.ring, v.text, from, to);
    }
    if e.isglobal {
      UnsetPending(e, e', v.ring[from..to + 1]);
    }
  }

  lemma MovedAround(r: seq<Id>, from: nat, to: nat, addr: nat)
    requires 1 <= from <= to < |r| && addr < |r| && (addr < from - 1 || to < addr) && Shape(r)
    ensures var r', d, k := Moved(r, from, to, addr), Dest(from, to, addr), to - from + 1;
            && d + 1 + k <= |r'| && r'[d] == r[addr] && r'[d + 1..d + 1 + k] == r[from..to + 1]
            && r[Succ(addr, |r|)] == (if d + 1 + k == |r'| then HEAD else r'[d + 1 + k])
  {
    DestAt(r, from, to, addr);
    InsIndex(Cut(r, from, to), Dest(from, to, addr), r[from..to + 1]);
  }

  /** The three REQUEs of move_lines. */
  method Transfer(e: Ed, b1: Id, a1: Id, b2: Id) returns (e': Ed, a2: Id)
    requires var l := e.mem.links;
             && Allocated(l, b1) && Allocated(l, a1) && Allocated(l, b2) && Allocated(l, l.forw[b2])
             && Allocated(l, l.forw[b1]) && Allocated(l, l.back[a1]) && a1 != l.forw[b1]
    ensures var l := e.mem.links;
            && a2 == l.forw[b2]
            && e' == e.(mem := e.mem.(links := MovedLinks(l, b1, a1, b2, a2, l.forw[b1], l.back[a1])))
  {
    a2 := e.mem.links.forw[b2];
    e' := Requeue(e, b2, e.mem.links.forw[b1]);
    e' := Requeue(e', e'.mem.links.back[a1], a2);
    e' := Requeue(e', b1, a1);
  }

  /** The pair of entries that records a move. */
  method PushMove(e: Ed, ghost v: View, from: nat, to: nat, addr: nat) returns (e': Ed)
    requires RingOk(e, v)
    requires 1 <= from <= to <= e.addrLast && addr <= e.addrLast && (addr < from - 1 || to < addr)
    ensures RingOk(e', v)
    ensures e' == e.(cache := e'.cache, ustack := e.ustack + Entries(MoveStep(v.ring, from, to, addr)))
  {
    e' := PushUndo(e, v, UMOV, from - 1, IncMod(to, e.addrLast));
    e' := PushUndo(e', v, UMOV, addr, IncMod(addr, e.addrLast));
    assert e'.ustack == e.ustack + Entries(MoveStep(v.ring, from, to, addr));
  }

  /** The lookups of move_lines.  The earlier of the two places comes last, so that the
      cache still names the right node afterwards. */
  method MoveEnds(e: Ed, ghost v: View, from: nat, to: nat, addr: nat) returns (e': Ed, b1: Id, a1: Id, b2: Id)
    requires RingOk(e, v)
    requires 1 <= from <= to <= e.addrLast && addr <= e.addrLast && (addr < from - 1 || to < addr)
    ensures b1 == v.ring[from - 1] && a1 == v.ring[Succ(to, |v.ring|)] && b2 == v.ring[addr]
    ensures var on := if addr < from then addr else from - 1; e' == e.(cache := Cache(v.ring[on], on))
  {
    e', a1 := Lookup(e, v, IncMod(to, e.addrLast));
    if addr < from {
      e', b1 := Lookup(e', v, from - 1);
      e', b2 := Lookup(e', v, addr);
    } else {
      e', b2 := Lookup(e', v, addr);
      e', b1 := Lookup(e', v, from - 1);
    }
  }

  lemma MoveNeighbours(l: Links, r: seq<Id>, from: nat, to: nat, addr: nat)
    requires Ring(l, r) && 1 <= from <= to < |r| && addr < |r| && (addr < from - 1 || to < addr)
    ensures var b1, a1, b2, a2 := r[from - 1], r[Succ(to, |r|)], r[addr], r[Succ(addr, |r|)];
            && Allocated(l, b1) && Allocated(l, a1) && Allocated(l, b2) && Allocated(l, a2)
            && Allocated(l, r[from]) && Allocated(l, r[to]) && a1 != r[from]
            && l.forw[b1] == r[from] && l.back[a1] == r[to] && l.forw[b2] == a2
  {
    assert At(l, r, from - 1) && At(l, r, addr) && At(l, r, from) && At(l, r, to);
    assert At(l, r, Succ(to, |r|)) && At(l, r, Succ(addr, |r|));
    Differ(r, Succ(to, |r|), from);
  }

  /** move_lines, as code, up to the active list. */
  method RelinkLines(e: Ed, ghost v: View, from: nat, to: nat, addr: nat) returns (e': Ed, b2: Id, a2: Id)
    requires RingOk(e, v)
    requires 1 <= from <= to <= e.addrLast && addr <= e.addrLast && (addr < from - 1 || to < addr)
    ensures e' == MovedEd(e, v.ring, from, to, addr)
    ensures b2 == v.ring[addr] && a2 == v.ring[Succ(addr, |v.ring|)]
  {
    e' := PushMove(e, v, from, to, addr);
    var a1, b1;
    e', b1, a1, b2 := MoveEnds(e', v, from, to, addr);
    MoveNeighbours(e.mem.links, v.ring, from, to, addr);
    e', a2 := Transfer(e', b1, a1, b2);
    e' := e'.(currentAddr := addr + if addr < from then to - from + 1 else 0);
  }

  /** unset_active_nodes on the lines just moved. */
  method UnsetMoved(e: Ed, ghost r: seq<Id>, from: nat, to: nat, addr: nat, b2: Id, a2: Id) returns (e': Ed)
    requires Shape(r) && 1 <= from <= to < |r| && addr < |r| && (addr < from - 1 || to < addr)
    requires Ring(e.mem.links, Moved(r, from, to, addr)) && b2 == r[addr] && a2 == r[Succ(addr, |r|)]
    requires Once(e.activeList) && (e.activeNdx < |e.activeList| || e.activeNdx == 0)
    ensures e' == e.(activeList := Nulled(e.activeList, r[from..to + 1]), activeNdx := e'.activeNdx)
    ensures e'.activeNdx < |e'.activeList| || e'.activeNdx == 0
  {
    ghost var r', d := Moved(r, from, to, addr), Dest(from, to, addr);
    MovedAround(r, from, to, addr);
    assert At(e.mem.links, r', d);
    e' := UnsetActive(e, r', e.mem.links.forw[b2], a2, d + 1, d + 1 + (to - from + 1));
  }

  /** move_lines, as code. */
  method MoveNodes(e: Ed, ghost v: View, from: nat, to: nat, addr: nat) returns (e': Ed)
    requires RingOk(e, v) && ActiveOk(e, v.ring)
    requires 1 <= from <= to <= e.addrLast && addr <= e.addrLast && (addr < from - 1 || to < addr)
    ensures MovedTo(e, v, e', from, to, addr)
  {
    var b2, a2;
    e', b2, a2 := RelinkLines(e, v, from, to, addr);
    if e'.isglobal {
      MovedRing(e.mem.links, v.ring, from, to, addr);
      e' := UnsetMoved(e', v.ring, from, to, addr, b2, a2);
    }
  }

  /** move_lines */
  method MoveLines(e: Ed, ghost v: View, from: nat, to: nat, addr: nat) returns (e': Ed, ghost v': View)
    requires Valid(e, v) && 1 <= from <= to <= e.addrLast && addr <= e.addrLast && !(from <= addr < to)
    ensures Valid(e', v') && Abs(e', v') == MoveRange(Abs(e, v), from, to, addr) && e'.isglobal == e.isglobal
  {
    if addr == from - 1 || addr == to {
      e' := StayLines(e, v, from, to);
      StayedAbs(e, v, e', from, to, addr);
      v' := v;
    } else {
      e' := MoveNodes(e, v, from, to, addr);
      MovedValid(e, v, e', from, to, addr);
      MovedAbs(e, v, e', from, to, addr);
      v' := RecordMove(v, from, to, addr);
    }
  }

  /** move_lines when the lines are already where they should be: they only leave the
      active list. */
  method StayLines(e: Ed, ghost v: View, from: nat, to: nat) returns (e': Ed)
    requires Valid(e, v) && 1 <= from <= to <= e.addrLast
    ensures Valid(e', v) && Unset(e, e', v.ring[from..to + 1])
    ensures e' == e.(cache := e'.cache, currentAddr := to, activeList := e'.activeList, activeNdx := e'.activeNdx)
  {
    var a2, b2;
    e', a2 := Lookup(e, v, IncMod(to, e.addrLast));
    e', b2 := Lookup(e', v, from - 1);
    e' := e'.(currentAddr := to);
    if e'.isglobal {
      assert At(e.mem.links, v.ring, from - 1);
      e' := UnsetActive(e', v.ring, e'.mem.links.forw[b2], a2, from, to + 1);
    }
    UnsetActiveOk(e, e', v.ring[from..to + 1], v.ring, v.ring);
  }

  lemma StayedAbs(e: Ed, v: View, e': Ed, from: nat, to: nat, addr: nat)
    requires AbsOk(e, v) && AbsOk(e', v) && e.addrLast == |v.ring| - 1
    requires 1 <= from <= to <= e.addrLast && (addr == from - 1 || addr == to)
    requires Unset(e, e', v.ring[from..to + 1])
    requires e' == e.(cache := e'.cache, currentAddr := to, activeList := e'.activeList, activeNdx := e'.activeNdx)
    ensures Abs(e', v) == MoveRange(Abs(e, v), from, to, addr)
  {
    var lines := LinesOf(v.ring, v.text);
    assert MoveSeq(lines, from, to, addr) == lines;
    assert Ids(lines[from - 1..to]) == v.ring[from..to + 1] by {
      CutLines(v.ring, v.text, from, to);
    }
    if e.isglobal {
      UnsetPending(e, e', v.ring[from..to + 1]);
    }
  }

  // ----- copy_lines

  /** The undo entry of the copies: the first one pushes it, the others become its tail. */
  method TrackCopy(e: Ed, ghost v: View, lp: Id, k: nat, ghost us: seq<EdHistory.Undo>, ghost n: Id) returns (e': Ed)
    requires RingOk(e, v) && e.ustack == WithAdd(us, n, k) && v.ring[e.currentAddr] == lp == n + k
    ensures RingOk(e', v) && e' == e.(cache := e'.cache, ustack := WithAdd(us, n, k + 1))
  {
    WithAddMore(us, n, k);
    if k != 0 {
      var top := |e.ustack| - 1;
      e' := e.(ustack := e.ustack[top := e.ustack[top].(t := lp)]);
    } else {
      e' := PushUndo(e, v, UADD, e.currentAddr, e.currentAddr);
    }
  }

  /** One pass of the inner loop: duplicate a node, link the copy in and track it. */
  method CopyNext(e: Ed, ghost v: View, e1: Ed, ghost v1: View, np: Id, ghost texts: seq<string>, i: nat)
    returns (e': Ed, ghost v': View)
    requires RingOk(e, v) && RingOk(e1, v1) && NodesOk(e1, v1)
    requires Growing(e, v, e1, v1, texts, i) && i < |texts| && np in v1.text && v1.text[np] == texts[i]
    ensures RingOk(e', v') && NodesOk(e', v') && Growing(e, v, e', v', texts, i + 1)
  {
    var lp;
    e', v', lp := DupLineNode(e1, v1, np);
    e', v' := LinkStored(e1, v1, e', v', lp, v1.text[np]);
    ghost var e2 := e';
    assert v'.ring[e'.currentAddr] == lp;
    e' := TrackCopy(e', v', lp, i, e.ustack, e.mem.next);
    GrowingMore(e, v, e1, v1, e2, v', e', texts, i);
  }

  /** texts[j] is the text of the line from + j. */
  ghost predicate SourceAt(v: View, from: nat, texts: seq<string>, j: nat) {
    && j < |texts| && from + j < |v.ring| && v.ring[from + j] in v.text
    && texts[j] == v.text[v.ring[from + j]]
  }

  ghost predicate Sources(v: View, from: nat, texts: seq<string>) {
    forall j {:trigger SourceAt(v, from, texts, j)} :: 0 <= j < |texts| ==> SourceAt(v, from, texts, j)
  }

  lemma SourcesOf(e: Ed, v: View, from: nat, to: nat)
    requires RingOk(e, v) && NodesOk(e, v) && 1 <= from <= to <= e.addrLast
    ensures Sources(v, from, Texts(LinesOf(v.ring, v.text)[from - 1..to]))
  {
    var texts := Texts(LinesOf(v.ring, v.text)[from - 1..to]);
    forall j | 0 <= j < |texts|
      ensures SourceAt(v, from, texts, j)
    {
      assert At(e.mem.links, v.ring, from + j);
      Differ(v.ring, 0, from + j);
    }
  }

  /** While copies are made, the lines to be copied keep their texts, */
  lemma SourceText(e: Ed, v: View, e1: Ed, v1: View, from: nat, texts: seq<string>, i: nat, j: nat)
    requires NodesOk(e, v) && Sources(v, from, texts) && j < |texts| && Growing(e, v, e1, v1, texts, i)
    ensures from + j < |v.ring|
    ensures var np := v.ring[from + j]; np in v1.text && v1.text[np] == texts[j]
  {
    assert SourceAt(v, from, texts, j);
    var np := v.ring[from + j];
    assert Below(e.mem.links, e.mem.next, np) && SameText(v.text, v1.text, np);
  }

  /** and each still leads to the next one, unless the copies stand between them. */
  lemma SourceForw(e: Ed, v: View, e1: Ed, v1: View, texts: seq<string>, i: nat, p: nat)
    requires RingOk(e, v) && RingOk(e1, v1) && Growing(e, v, e1, v1, texts, i) && p <= e.addrLast
    ensures Allocated(e1.mem.links, v.ring[p])
    ensures p < e.addrLast && p != e.currentAddr ==> e1.mem.links.forw[v.ring[p]] == v.ring[p + 1]
  {
    hide Shape, Ins, Range;
    InsIndex(v.ring, e.currentAddr, Range(e.mem.next, i));
    assert At(e1.mem.links, v1.ring, if p <= e.currentAddr then p else p + i);
  }

  /** One pass of the inner loop: the j-th line is copied, and the pointer moves on. */
  method CopyStep(e: Ed, ghost v: View, e1: Ed, ghost v1: View, ghost from: nat, ghost texts: seq<string>, lp: Id, j: nat)
    returns (e': Ed, ghost v': View, lp': Id)
    requires RingOk(e, v) && NodesOk(e, v) && from + |texts| <= |v.ring| && Sources(v, from, texts)
    requires RingOk(e1, v1) && NodesOk(e1, v1) && Growing(e, v, e1, v1, texts, j)
    requires j < |texts| && lp == v.ring[from + j]
    ensures RingOk(e', v') && NodesOk(e', v') && Growing(e, v, e', v', texts, j + 1)
    ensures j + 1 < |texts| && from + j != e.currentAddr ==> lp' == v.ring[from + j + 1]
  {
    SourceText(e, v, e1, v1, from, texts, j, j);
    e', v' := CopyNext(e, v, e1, v1, lp, texts, j);
    SourceForw(e, v, e', v', texts, j + 1, from + j);
    lp' := e'.mem.links.forw[lp];
  }

  /** The inner loop: the copies numbered i up to n, np being the node of the i-th line. */
  method CopyRun(e: Ed, ghost v: View, e1: Ed, ghost v1: View, ghost from: nat, ghost texts: seq<string>,
                 np: Id, i: nat, n: nat)
    returns (e': Ed, ghost v': View)
    requires RingOk(e, v) && NodesOk(e, v) && from + |texts| <= |v.ring| && Sources(v, from, texts)
    requires RingOk(e1, v1) && NodesOk(e1, v1) && Growing(e, v, e1, v1, texts, i)
    requires i <= n <= |texts| && (i < n ==> np == v.ring[from + i])
    requires !(from + i <= e.currentAddr < from + n - 1)
    ensures RingOk(e', v') && NodesOk(e', v') && Growing(e, v, e', v', texts, n)
  {
    hide *;
    e', v' := e1, v1;
    var lp, j := np, i;
    while j < n
      invariant i <= j <= n && RingOk(e', v') && NodesOk(e', v') && Growing(e, v, e', v', texts, j)
      invariant j < n ==> lp == v.ring[from + j]
    {
      e', v', lp := CopyStep(e, v, e', v', from, texts, lp, j);
      j := j + 1;
    }
  }

  lemma BehindCopies(e: Ed, v: View, e1: Ed, v1: View, texts: seq<string>, i: nat)
    requires RingOk(e, v) && RingOk(e1, v1) && Growing(e, v, e1, v1, texts, i) && e.currentAddr < e.addrLast
    ensures e1.currentAddr < e1.addrLast && v1.ring[e1.currentAddr + 1] == v.ring[e.currentAddr + 1]
  {
    InsIndex(v.ring, e.currentAddr, Range(e.mem.next, i));
  }

  /** copy_lines, as code.  When addr lies inside the range, the lines up to addr are
      copied first, and the lines behind it are found again behind their copies. */
  method CopyNodes(e: Ed, ghost v: View, from: nat, to: nat, addr: nat, ghost texts: seq<string>)
    returns (e': Ed, ghost v': View)
    requires RingOk(e, v) && NodesOk(e, v) && 1 <= from <= to <= e.addrLast && addr <= e.addrLast
    requires Sources(v, from, texts) && |texts| == to - from + 1
    ensures RingOk(e', v') && NodesOk(e', v')
    ensures Growing(e.(currentAddr := addr, cache := Cache(v.ring[from], from)), v, e', v', texts, |texts|)
  {
    hide Growing, Sources, Ring, Nodes, AllBelow;
    var np;
    e', np := Lookup(e, v, from);
    e', v' := e'.(currentAddr := addr), v;
    var e0 := e';
    // the outer loop runs once, or twice when addr splits the range
    var n := if from <= addr < to then addr - from + 1 else to - from + 1;
    GrowingStart(e0, v, texts);
    e', v' := CopyRun(e0, v, e', v', from, texts, np, 0, n);
    if n < to - from + 1 {
      BehindCopies(e0, v, e', v', texts, n);
    }
    var e1;
    e1, np := Lookup(e', v', e'.currentAddr + 1);
    GrowingCache(e0, v, e', v', texts, n, e1);
    e', v' := CopyRun(e0, v, e1, v', from, texts, np, n, to - from + 1);
  }

  lemma GrowingCache(e: Ed, v: View, e1: Ed, v1: View, texts: seq<string>, k: nat, e2: Ed)
    requires RingOk(e1, v1) && NodesOk(e1, v1) && Growing(e, v, e1, v1, texts, k) && e2 == e1.(cache := e2.cache)
    requires e2.cache.on <= e1.addrLast && e2.cache.lp == v1.ring[e2.cache.on]
    ensures RingOk(e2, v1) && NodesOk(e2, v1) && Growing(e, v, e2, v1, texts, k)
  {
  }

  lemma GotoValid(e: Ed, v: View, addr: nat, cache: Cache)
    requires Valid(e, v) && addr <= e.addrLast && cache.on <= e.addrLast && cache.lp == v.ring[cache.on]
    ensures Valid(e.(currentAddr := addr, cache := cache), v)
    ensures Abs(e.(currentAddr := addr, cache := cache), v) == Goto(Abs(e, v), addr)
  {
  }

  /** copy_lines */
  method CopyLines(e: Ed, ghost v: View, from: nat, to: nat, addr: nat) returns (e': Ed, ghost v': View)
    requires Valid(e, v) && 1 <= from <= to <= e.addrLast && addr <= e.addrLast
    ensures Valid(e', v') && Abs(e', v') == CopyRange(Abs(e, v), from, to, addr) && e'.isglobal == e.isglobal
  {
    ghost var texts := Texts(LinesOf(v.ring, v.text)[from - 1..to]);
    ghost var e0 := e.(currentAddr := addr, cache := Cache(v.ring[from], from));
    SourcesOf(e, v, from, to);
    GotoValid(e, v, addr, Cache(v.ring[from], from));
    e', v' := CopyNodes(e, v, from, to, addr, texts);
    GrowingValid(e0, v, e', v', texts, |texts|);
    GrowingAbs(e0, v, e', v', texts, |texts|);
    assert texts[..|texts|] == texts;
    v' := RecordAdd(e0, v, v', |texts|);
  }

  // ----- append_lines and join_lines

  /** append_lines: the lines read are put behind line n. */
  method AppendLines(e: Ed, ghost v: View, n: nat, texts: seq<string>) returns (ok: bool, e': Ed, ghost v': View)
    requires Valid(e, v) && n <= e.addrLast
    ensures Valid(e', v') && (Abs(e', v'), ok) == Put(Goto(Abs(e, v), n), texts) && e'.isglobal == e.isglobal
  {
    GotoValid(e, v, n, e.cache);
    ok, e', v' := PutLines(e.(currentAddr := n), v, texts);
  }

  lemma {:induction false} ConcatAppend(texts: seq<string>, t: string)
    ensures Concat(texts + [t]) == Concat(texts) + t
  {
    if texts != [] {
      assert (texts + [t])[1..] == texts[1..] + [t];
      ConcatAppend(texts[1..], t);
    }
  }

  /** Reading moves the stream and the cache, and nothing else. */
  lemma ReadValid(e: Ed, v: View, e': Ed)
    requires Valid(e, v) && e' == e.(cache := e'.cache, sb := e'.sb)
    requires ScratchOk(e'.sb) && e'.sb.file == e.sb.file
    requires e'.cache.on <= e.addrLast && e'.cache.lp == v.ring[e'.cache.on]
    ensures Valid(e', v) && Abs(e', v) == Abs(e, v)
  {
  }

  /** Reading a line of the buffer by its number. */
  method ReadLine(e: Ed, ghost v: View, n: nat) returns (e': Ed, lp: Id, s: string)
    requires Valid(e, v) && 1 <= n <= e.addrLast
    ensures Valid(e', v) && Abs(e', v) == Abs(e, v) && e'.mem == e.mem && e'.addrLast == e.addrLast
    ensures e'.isglobal == e.isglobal && e'.currentAddr == e.currentAddr
    ensures lp == v.ring[n] && s == LinesOf(v.ring, v.text)[n - 1].text
  {
    e', lp := Lookup(e, v, n);
    assert At(e.mem.links, v.ring, n);
    Differ(v.ring, 0, n);
    var r, sb := GetSbufLine(e', v, lp);
    e', s := e'.(sb := sb), r.value;
    ReadValid(e, v, e');
  }

  /** The text that join_lines collects: the loop follows the links from the first line of
      the range to the node behind it. */
  method JoinText(e: Ed, ghost v: View, from: nat, to: nat) returns (e': Ed, s: string)
    requires Valid(e, v) && 1 <= from <= to <= e.addrLast
    ensures Valid(e', v) && Abs(e', v) == Abs(e, v) && e'.addrLast == e.addrLast && e'.isglobal == e.isglobal
    ensures s == Concat(Texts(LinesOf(v.ring, v.text)[from - 1..to]))
  {
    var ep, bp;
    e', ep := Lookup(e, v, IncMod(to, e.addrLast));
    e', bp := Lookup(e', v, from);
    var sb;
    sb, s := CollectText(e', v, from, to, bp, ep);
    e' := e'.(sb := sb);
    ReadValid(e, v, e');
  }

  lemma LineText(v: View, i: nat)
    requires 1 <= i < |v.ring| && v.ring[i] in v.text
    ensures i <= |LinesOf(v.ring, v.text)| && LinesOf(v.ring, v.text)[i - 1].text == v.text[v.ring[i]]
  {
  }

  lemma ConcatNone(lines: seq<Line>, from: nat)
    requires 1 <= from <= |lines|
    ensures Concat(Texts(lines[from - 1..from - 1])) == ""
  {
  }

  lemma ConcatMore(lines: seq<Line>, from: nat, i: nat)
    requires 1 <= from <= i <= |lines|
    ensures Concat(Texts(lines[from - 1..i])) == Concat(Texts(lines[from - 1..i - 1])) + lines[i - 1].text
  {
    assert Texts(lines[from - 1..i]) == Texts(lines[from - 1..i - 1]) + [lines[i - 1].text];
    ConcatAppend(Texts(lines[from - 1..i - 1]), lines[i - 1].text);
  }

  /** The loop of join_lines. */
  method CollectText(e: Ed, ghost v: View, ghost from: nat, ghost to: nat, bp: Id, ep: Id) returns (sb: Scratch, s: string)
    requires RingOk(e, v) && NodesOk(e, v) && 1 <= from <= to <= e.addrLast
    requires bp == v.ring[from] && ep == v.ring[Succ(to, |v.ring|)]
    ensures ScratchOk(sb) && sb.file == e.sb.file
    ensures s == Concat(Texts(LinesOf(v.ring, v.text)[from - 1..to]))
  {
    hide LinesOf, Texts, Concat;
    ghost var lines, i := LinesOf(v.ring, v.text), from;
    LinesSize(v.ring, v.text);
    ConcatNone(lines, from);
    var lp := bp;
    sb, s := e.sb, "";
    while lp != ep
      invariant from <= i <= to + 1 && lp == (if i == |v.ring| then HEAD else v.ring[i])
      invariant ScratchOk(sb) && sb.file == e.sb.file
      invariant s == Concat(Texts(lines[from - 1..i - 1]))
      decreases 1 + to - i
    {
      Differ(v.ring, if i == |v.ring| then 0 else i, Succ(to, |v.ring|));
      Differ(v.ring, 0, i);
      assert At(e.mem.links, v.ring, i);
      var t;
      t, sb := GetSbufLine(e.(sb := sb), v, lp);
      LineText(v, i);
      ConcatMore(lines, from, i);
      s := s + t.value;
      lp := e.mem.links.forw[lp];
      i := i + 1;
    }
    Differ(v.ring, if i == |v.ring| then 0 else i, Succ(to, |v.ring|));
  }

  /** join_lines */
  method JoinLines(e: Ed, ghost v: View, from: nat, to: nat) returns (ok: bool, e': Ed, ghost v': View)
    requires Valid(e, v) && 1 <= from <= to <= e.addrLast
    ensures Valid(e', v') && (Abs(e', v'), ok) == JoinRange(Abs(e, v), from, to) && e'.isglobal == e.isglobal
  {
    var s;
    e', s := JoinText(e, v, from, to);
    e', v' := DeleteLines(e', v, from, to);
    ok, e', v' := PutLines(e', v', [s]);
  }

  // ----- search_and_replace

  /** One pass of search_and_replace takes st to st': the line behind the current one is
      replaced by what f makes of it. */
  ghost predicate Replaced(st: State, f: string -> Sub, sub: Sub, ok: bool, st': State)
    requires st.now.cur < |st.now.lines|
  {
    match st.now
    case Buf(lines, cur) =>
      && sub == f(lines[cur].text)
      && if sub.NewLines? then (st', ok) == Put(DeleteRange(st, cur + 1, cur + 1), [sub.first] + sub.rest)
         else st' == Goto(st, cur + 1)
  }

  lemma SubstStep(st: State, n: nat, f: string -> Sub, xa: nat, subs: nat, g: bool, sub: Sub, ok: bool, st': State)
    requires n != 0 && st.now.cur + n <= |st.now.lines| && Replaced(st, f, sub, ok, st')
    ensures sub.SubError? || (sub.NewLines? && !ok) ==> SubstLines(st, n, f, xa, subs, g) == (st', false)
    ensures sub.NoMatch? || (sub.NewLines? && ok) ==>
      && st'.now.cur + (n - 1) <= |st'.now.lines| && |st.now.lines| <= |st'.now.lines|
      && SubstLines(st, n, f, xa, subs, g) ==
         if sub.NoMatch? then SubstLines(st', n - 1, f, xa, subs, g)
         else SubstLines(st', n - 1, f, st'.now.cur, subs + 1, g)
  {
    hide Without, Ids, Fit;
  }

  lemma CurrentLine(e: Ed, v: View)
    requires Valid(e, v) && e.currentAddr < e.addrLast
    ensures Abs(e, v).now == Buf(LinesOf(v.ring, v.text), e.currentAddr) && e.currentAddr < |LinesOf(v.ring, v.text)|
    ensures e.cache.on <= e.addrLast == |v.ring| - 1 && e.cache.lp == v.ring[e.cache.on]
    ensures InRange(Goto(Abs(e, v), e.currentAddr + 1).now, e.currentAddr + 1, e.currentAddr + 1)
  {
  }

  lemma ReplacedIs(st: State, how: EdSubst.How, s: string, sub: Sub, ok: bool, st': State)
    requires st.now.cur < |st.now.lines| && s == st.now.lines[st.now.cur].text
    requires sub == EdSubst.Substituted(how.pat, how.tmpl, how.kth, how.g, s)
    requires var st1, cur := Goto(st, st.now.cur + 1), st.now.cur + 1;
             if sub.NewLines? then (st', ok) == Put(DeleteRange(st1, cur, cur), [sub.first] + sub.rest) else st' == st1
    ensures Replaced(st, EdSubst.Replacer(how), sub, ok, st')
  {
    hide Put, Without, EdSubst.Substituted;
  }

  method ReplaceNext(e: Ed, ghost v: View, how: EdSubst.How) returns (sub: Sub, ok: bool, e': Ed, ghost v': View)
    requires Valid(e, v) && e.currentAddr < e.addrLast
    ensures Valid(e', v') && e'.isglobal == e.isglobal
    ensures e.currentAddr < |LinesOf(v.ring, v.text)| && Replaced(Abs(e, v), EdSubst.Replacer(how), sub, ok, Abs(e', v'))
  {
    hide *;
    var cur := e.currentAddr + 1;
    CurrentLine(e, v);
    GotoValid(e, v, cur, e.cache);
    e', v', ok := e.(currentAddr := cur), v, true;
    var lp, s;
    e', lp, s := ReadLine(e', v', cur);
    sub := EdSubst.Substitute(how.pat, how.tmpl, how.kth, how.g, s);
    if sub.NewLines? {
      e', v' := DeleteLines(e', v', cur, cur);
      ok, e', v' := PutLines(e', v', [sub.first] + sub.rest);
    }
    ReplacedIs(Abs(e, v), how, s, sub, ok, Abs(e', v'));
  }

  /** What is left of search_and_replace when n lines remain. */
  ghost predicate Remaining(e: Ed, v: View, n: nat, f: string -> Sub, xa: nat, subs: nat, goal: (State, bool)) {
    match v
    case View(ring, _, _, text) =>
      && AbsOk(e, v) && e.currentAddr + n <= |LinesOf(ring, text)| && xa <= |LinesOf(ring, text)|
      && SubstLines(Abs(e, v), n, f, xa, subs, e.isglobal) == goal
  }

  method ReplaceStep(e: Ed, ghost v: View, n: nat, how: EdSubst.How, xa: nat, subs: nat, ghost goal: (State, bool))
    returns (done: bool, e': Ed, ghost v': View, xa': nat, subs': nat)
    requires Valid(e, v) && n != 0 && Remaining(e, v, n, EdSubst.Replacer(how), xa, subs, goal)
    ensures Valid(e', v') && e'.isglobal == e.isglobal
    ensures if done then (Abs(e', v'), false) == goal else Remaining(e', v', n - 1, EdSubst.Replacer(how), xa', subs', goal)
  {
    hide EdSubst.Replacer;
    var sub, ok;
    sub, ok, e', v' := ReplaceNext(e, v, how);
    SubstStep(Abs(e, v), n, EdSubst.Replacer(how), xa, subs, e.isglobal, sub, ok, Abs(e', v'));
    done := sub.SubError? || (sub.NewLines? && !ok);
    xa', subs' := if sub.NewLines? then e'.currentAddr else xa, if sub.NewLines? then subs + 1 else subs;
  }

  /** The loop of search_and_replace over the next n lines. */
  method ReplaceEach(e: Ed, ghost v: View, n: nat, how: EdSubst.How, xa0: nat, ghost goal: (State, bool))
    returns (done: bool, e': Ed, ghost v': View, xa: nat, subs: nat)
    requires Valid(e, v) && Remaining(e, v, n, EdSubst.Replacer(how), xa0, 0, goal)
    ensures Valid(e', v') && e'.isglobal == e.isglobal
    ensures if done then (Abs(e', v'), false) == goal else Remaining(e', v', 0, EdSubst.Replacer(how), xa, subs, goal)
  {
    hide *;
    var k := n;
    e', v', xa, subs, done := e, v, xa0, 0, false;
    while k != 0
      invariant Valid(e', v') && e'.isglobal == e.isglobal && Remaining(e', v', k, EdSubst.Replacer(how), xa, subs, goal)
      decreases k
    {
      done, e', v', xa, subs := ReplaceStep(e', v', k, how, xa, subs, goal);
      if done {
        return;
      }
      k := k - 1;
    }
  }

  lemma RemainingDone(e: Ed, v: View, f: string -> Sub, xa: nat, subs: nat, goal: (State, bool))
    requires Valid(e, v) && Remaining(e, v, 0, f, xa, subs, goal)
    ensures xa <= e.addrLast && (Goto(Abs(e, v), xa), subs != 0 || e.isglobal) == goal
  {
  }

  lemma RemainingAll(e: Ed, v: View, n: nat, f: string -> Sub, xa: nat)
    requires Valid(e, v) && e.currentAddr + n <= e.addrLast && xa <= e.addrLast
    ensures e.currentAddr + n <= |LinesOf(v.ring, v.text)|
    ensures Remaining(e, v, n, f, xa, 0, SubstLines(Abs(e, v), n, f, xa, 0, e.isglobal))
  {
    hide SubstLines;
  }

  /** search_and_replace, which calls substitute_matching_text on every line. */
  method SearchReplace(e: Ed, ghost v: View, from: nat, to: nat, how: EdSubst.How) returns (ok: bool, e': Ed, ghost v': View)
    requires Valid(e, v) && 1 <= from <= to <= e.addrLast
    ensures Valid(e', v') && e'.isglobal == e.isglobal
    ensures (Abs(e', v'), ok) ==
            SubstLines(Goto(Abs(e, v), from - 1), to - from + 1, EdSubst.Replacer(how), e.currentAddr, 0, e.isglobal)
  {
    hide SubstLines, EdSubst.Replacer;
    ghost var f := EdSubst.Replacer(how);
    GotoValid(e, v, from - 1, e.cache);
    e' := e.(currentAddr := from - 1);
    RemainingAll(e', v, to - from + 1, f, e.currentAddr);
    var done, xa, subs;
    done, e', v', xa, subs := ReplaceEach(e', v, to - from + 1, how, e.currentAddr,
      SubstLines(Abs(e', v), to - from + 1, f, e.currentAddr, 0, e.isglobal));
    ok := !done && (subs != 0 || e'.isglobal);
    if !done {
      RemainingDone(e', v', f, xa, subs, SubstLines(Goto(Abs(e, v), from - 1), to - from + 1, f, e.currentAddr, 0, e.isglobal));
      GotoValid(e', v', xa, e'.cache);
      e' := e'.(currentAddr := xa);
    }
  }
}
