/** buf.c: looking nodes up, and storing and linking new lines. */
module EdBuf {
  import opened EdLinks
  import opened EdHistory
  import opened EdTypes
  import opened EdSpec
  import opened EdState

  /** get_addressed_line_node.  One past the last line is the last line. */
  method GetAddressed(e: Ed, ghost v: View, n: nat) returns (lp: Id, cache: Cache, ghost hops: nat)
    requires RingOk(e, v) && n <= e.addrLast + 1
    ensures cache.on == (if n <= e.addrLast then n else e.addrLast) && cache.lp == lp == v.ring[cache.on]
    ensures n <= e.addrLast ==> hops <= (e.addrLast + 1) / 2
  {
    var links := e.mem.links;
    var on: nat := e.cache.on;
    lp := e.cache.lp;
    hops := 0;
    if n > on {
      if n <= (on + e.addrLast) / 2 {
        while on < n
          invariant on <= n && lp == v.ring[on] && hops == on - e.cache.on
        {
          assert At(links, v.ring, on);
          lp, on, hops := links.forw[lp], on + 1, hops + 1;
        }
      } else {
        assert At(links, v.ring, 0);
        lp, on, hops := links.back[HEAD], e.addrLast, 1;
        while on > n
          invariant on <= e.addrLast && lp == v.ring[on] && hops == 1 + e.addrLast - on
          invariant on >= n || on == e.addrLast
        {
          assert At(links, v.ring, on);
          lp, on, hops := links.back[lp], on - 1, hops + 1;
        }
      }
    } else if n >= on / 2 {
      while on > n
        invariant n <= on <= e.addrLast && lp == v.ring[on] && hops == e.cache.on - on
      {
        assert At(links, v.ring, on);
        lp, on, hops := links.back[lp], on - 1, hops + 1;
      }
    } else {
      lp, on := HEAD, 0;
      while on < n
        invariant on <= n && lp == v.ring[on] && hops == on
      {
        assert At(links, v.ring, on);
        lp, on, hops := links.forw[lp], on + 1, hops + 1;
      }
    }
    cache := Cache(lp, on);
  }

  /** A lookup for its node and its effect on the cache. */
  method Lookup(e: Ed, ghost v: View, n: nat) returns (e': Ed, lp: Id)
    requires RingOk(e, v) && n <= e.addrLast + 1
    ensures var on := if n <= e.addrLast then n else e.addrLast;
            lp == v.ring[on] && e' == e.(cache := Cache(lp, on))
  {
    var node, cache, _ := GetAddressed(e, v, n);
    e', lp := e.(cache := cache), node;
  }

  /** get_line_node_addr inverts it on the ring; a node off the ring is an error,
      except that an empty buffer answers 0. */
  method GetLineNodeAddr(e: Ed, ghost v: View, lp: Ptr) returns (r: Option<nat>)
    requires RingOk(e, v)
    ensures lp.To? && lp.id in v.ring ==> r.Some? && r.value <= e.addrLast && v.ring[r.value] == lp.id
    ensures lp.Null? || lp.id !in v.ring ==> r == if e.addrLast == 0 then Some(0) else None
  {
    var cp, n := HEAD, 0;
    var wrapped := false;
    while To(cp) != lp && !wrapped
      invariant n <= e.addrLast && cp == (if wrapped then HEAD else v.ring[n])
      invariant wrapped ==> n == e.addrLast
      invariant forall i :: 0 <= i < n ==> To(v.ring[i]) != lp
      invariant wrapped ==> To(v.ring[n]) != lp
      decreases e.addrLast - n, !wrapped
    {
      assert At(e.mem.links, v.ring, n);
      Differ(v.ring, 0, Succ(n, |v.ring|));
      cp := e.mem.links.forw[cp];
      if cp == HEAD {
        wrapped := true;
      } else {
        n := n + 1;
      }
    }
    if n != 0 && cp == HEAD {
      return None;
    }
    return Some(n);
  }

  /** push_undo_stack: the tail is looked up before the head. */
  method PushUndo(e: Ed, ghost v: View, kind: Kind, from: nat, to: nat) returns (e': Ed)
    requires RingOk(e, v) && from <= e.addrLast && to <= e.addrLast
    ensures e' == e.(cache := Cache(v.ring[from], from),
                     ustack := e.ustack + [EdHistory.Undo(kind, v.ring[from], v.ring[to])])
  {
    var h, t;
    e', t := Lookup(e, v, to);
    e', h := Lookup(e', v, from);
    e' := e'.(ustack := e.ustack + [EdHistory.Undo(kind, h, t)]);
  }

  /** The REQUE macro; both nodes must be live memory. */
  method Requeue(e: Ed, pred: Id, succ: Id) returns (e': Ed)
    requires Allocated(e.mem.links, pred) && Allocated(e.mem.links, succ)
    ensures e' == e.(mem := e.mem.(links := Reque(e.mem.links, pred, succ)))
  {
    e' := e.(mem := e.mem.(links := Reque(e.mem.links, pred, succ)));
  }

  /** malloc of a line_t for a stored text; its links hold whatever the memory held. */
  method NewNode(mem: Mem, p: Place) returns (mem': Mem, lp: Id)
    ensures lp == mem.next && Grown(mem, mem', p)
  {
    lp := mem.next;
    var junkForw: Id, junkBack: Id := *, *;
    var links := Links(mem.links.forw[lp := junkForw], mem.links.back[lp := junkBack]);
    mem' := Mem(links, mem.place[lp := p], lp + 1);
  }

  /** add_line_node: INSQUE behind the current line. */
  method AddLineNode(e: Ed, ghost v: View, lp: Id) returns (e': Ed, ghost v': View)
    requires RingOk(e, v) && Allocated(e.mem.links, lp) && lp !in v.ring
    ensures v' == v.(ring := Ins(v.ring, e.currentAddr, [lp])) && RingOk(e', v')
    ensures e' == e.(mem := e.mem.(links := e'.mem.links), cache := e'.cache,
                     addrLast := e.addrLast + 1, currentAddr := e.currentAddr + 1)
    ensures SameOutside(e.mem.links, e'.mem.links, v'.ring)
    ensures e'.mem.links.forw.Keys == e.mem.links.forw.Keys && e'.mem.links.back.Keys == e.mem.links.back.Keys
  {
    var cp;
    e', cp := Lookup(e, v, e.currentAddr);
    ghost var l, z, at := e.mem.links, v.ring, e.currentAddr;
    assert At(l, z, at) && At(l, z, Succ(at, |z|));
    assert l.forw[cp] == z[Succ(at, |z|)];
    InsFresh(z, at, [lp]);
    InsertLinks(l, z, at, [lp]);
    RequeCommute(l, cp, lp, lp, l.forw[cp]);
    e' := Requeue(e', lp, e'.mem.links.forw[cp]);
    e' := Requeue(e', cp, lp);
    e' := e'.(addrLast := e.addrLast + 1, currentAddr := e.currentAddr + 1);
    v' := v.(ring := Ins(z, at, [lp]));
  }

  /** The file half of put_sbuf_line: forced to the end of the scratch file, the text is
      written at the position of the stream, and its place is returned. */
  method WriteText(sb: Scratch, txt: string) returns (sb': Scratch, p: Place)
    requires ScratchOk(sb)
    ensures ScratchOk(sb') && sb.file <= sb'.file
    ensures p.seek + p.len <= |sb'.file| && sb'.file[p.seek..p.seek + p.len] == txt
  {
    sb' := sb;
    if sb'.seekWrite {
      sb' := sb'.(pos := |sb'.file|, sfseek := |sb'.file|, seekWrite := false);
    }
    var Scratch(file, pos, sfseek, seekWrite) := sb';
    p := Place(sfseek, |txt|);
    file := file[..pos] + txt + (if pos + |txt| <= |file| then file[pos + |txt|..] else []);
    sb' := Scratch(file, pos + |txt|, sfseek + |txt|, seekWrite);
  }

  /** get_sbuf_line: read the text of a node back. */
  method GetSbufLine(e: Ed, ghost v: View, lp: Id) returns (s: Option<string>, sb: Scratch)
    requires NodesOk(e, v) && lp in e.mem.links.forw
    ensures ScratchOk(sb) && sb.file == e.sb.file
    ensures s == if lp == HEAD then None else Some(v.text[lp])
  {
    sb := e.sb;
    if lp == HEAD {
      return None, sb;
    }
    assert TextAt(sb.file, e.mem.place, v.text, lp);
    var Place(seek, len) := e.mem.place[lp];
    sb := sb.(seekWrite := true);
    if sb.sfseek != seek {
      sb := sb.(sfseek := seek, pos := seek);
    }
    s := Some(sb.file[sb.pos..sb.pos + len]);
    sb := sb.(pos := sb.pos + len, sfseek := sb.sfseek + len);
  }

  /** The first half of put_sbuf_line: a node for a text stored at the end of the
      scratch file. */
  method StoreLine(e: Ed, ghost v: View, txt: string) returns (e': Ed, ghost v': View, lp: Id)
    requires RingOk(e, v) && NodesOk(e, v)
    ensures e' == e.(mem := e'.mem, sb := e'.sb) && v' == v.(text := v.text[lp := txt])
    ensures RingOk(e', v') && NodesOk(e', v')
    ensures lp == e.mem.next && lp !in v.ring && exists p :: Grown(e.mem, e'.mem, p)
  {
    var sb, p := WriteText(e.sb, txt);
    var mem;
    mem, lp := NewNode(e.mem, p);
    NodesGrow(e.mem, mem, v.text, e.sb.file, sb.file, p);
    NewNodeOffRing(e.mem.links, mem.links, v.ring, lp);
    e' := e.(mem := mem, sb := sb);
    v' := v.(text := v.text[lp := txt]);
  }

  /** dup_line_node: a second node for the same stored text. */
  method DupLineNode(e: Ed, ghost v: View, np: Id) returns (e': Ed, ghost v': View, lp: Id)
    requires RingOk(e, v) && NodesOk(e, v) && np in v.text
    ensures e' == e.(mem := e'.mem) && v' == v.(text := v.text[lp := v.text[np]])
    ensures RingOk(e', v') && NodesOk(e', v')
    ensures lp == e.mem.next && lp !in v.ring && exists p :: Grown(e.mem, e'.mem, p)
  {
    assert TextAt(e.sb.file, e.mem.place, v.text, np);
    var mem;
    mem, lp := NewNode(e.mem, e.mem.place[np]);
    NodesGrow(e.mem, mem, v.text, e.sb.file, e.sb.file, e.mem.place[np]);
    NewNodeOffRing(e.mem.links, mem.links, v.ring, lp);
    e' := e.(mem := mem);
    v' := v.(text := v.text[lp := v.text[np]]);
  }

  /** From e to e', one new line with the text txt was linked in behind the current one. */
  ghost predicate Added(e: Ed, v: View, e': Ed, v': View, txt: string)
    requires e.currentAddr < |v.ring|
  {
    var lp := e.mem.next;
    && v' == v.(ring := Ins(v.ring, e.currentAddr, [lp]), text := v.text[lp := txt])
    && e' == e.(mem := e'.mem, sb := e'.sb, cache := e'.cache, ustack := e'.ustack,
                addrLast := e.addrLast + 1, currentAddr := e.currentAddr + 1)
    && e'.mem.next == lp + 1
    && e'.mem.links.forw.Keys == e.mem.links.forw.Keys + {lp}
    && SameOutside(e.mem.links, e'.mem.links, v'.ring)
  }

  /** A stored node is linked in. */
  method LinkStored(e0: Ed, ghost v0: View, e: Ed, ghost v: View, lp: Id, ghost txt: string)
    returns (e': Ed, ghost v': View)
    requires RingOk(e, v) && NodesOk(e, v) && e.currentAddr < |v0.ring|
    requires e == e0.(mem := e.mem, sb := e.sb) && v == v0.(text := v0.text[lp := txt])
    requires lp == e0.mem.next && lp !in v0.ring && exists p :: Grown(e0.mem, e.mem, p)
    ensures RingOk(e', v') && NodesOk(e', v') && Added(e0, v0, e', v', txt) && e'.ustack == e.ustack
  {
    e', v' := AddLineNode(e, v, lp);
    NodesRelinked(e.mem, e'.mem.links, v.text, e.sb.file);
    assert v'.ring[e.currentAddr + 1] == lp;
    SameTrans(e0.mem.links, e.mem.links, e'.mem.links, [lp], v'.ring);
  }

  /** put_sbuf_line: store the text and link its node in behind the current line.
      (The node is taken only once the length is known to be legal.) */
  method PutSbufLine(e: Ed, ghost v: View, txt: string) returns (ok: bool, e': Ed, ghost v': View)
    requires RingOk(e, v) && NodesOk(e, v)
    ensures ok <==> |txt| < LINECHARS
    ensures RingOk(e', v') && NodesOk(e', v')
    ensures if ok then Added(e, v, e', v', txt) && e'.ustack == e.ustack else e' == e && v' == v
  {
    ok, e', v' := |txt| < LINECHARS, e, v;
    if ok {
      var lp;
      e', v', lp := StoreLine(e, v, txt);
      e', v' := LinkStored(e, v, e', v', lp, txt);
    }
  }

  /** The undo entry of new lines: the first one pushes it, the others move its tail. */
  method TrackAdd(e: Ed, ghost v: View, up: bool, ghost us: seq<EdHistory.Undo>, ghost n: Id, ghost k: nat) returns (e': Ed)
    requires RingOk(e, v) && e.ustack == WithAdd(us, n, k) && (up <==> k != 0) && v.ring[e.currentAddr] == n + k
    ensures RingOk(e', v) && e' == e.(cache := e'.cache, ustack := WithAdd(us, n, k + 1))
  {
    WithAddMore(us, n, k);
    if up {
      var t;
      e', t := Lookup(e, v, e.currentAddr);
      var top := |e.ustack| - 1;
      e' := e'.(ustack := e.ustack[top := e.ustack[top].(t := t)]);
    } else {
      e' := PushUndo(e, v, UADD, e.currentAddr, e.currentAddr);
    }
  }

  /** k new lines with the first k of texts are linked in behind the current one of e, and
      recorded in one undo entry. */
  ghost predicate Growing(e: Ed, v: View, e': Ed, v': View, texts: seq<string>, k: nat) {
    match v
    case View(ring, steps, hist, text) =>
    && v' == View(v'.ring, steps, hist, v'.text)
    && e' == e.(mem := e'.mem, sb := e'.sb, cache := e'.cache, ustack := WithAdd(e.ustack, e.mem.next, k),
                addrLast := e.addrLast + k, currentAddr := e.currentAddr + k)
    && e'.mem.next == e.mem.next + k
    && Grew(e.mem.links, e'.mem.links, ring, v'.ring, e.currentAddr, e.mem.next, k)
    && Extends(text, v'.text, e.mem.next, texts, k)
    && (k == 0 ==> e'.mem == e.mem && v' == v)
  }

  lemma GrowingStart(e: Ed, v: View, texts: seq<string>)
    requires RingOk(e, v) && NodesOk(e, v)
    ensures Growing(e, v, e, v, texts, 0)
  {
    assert Ins(v.ring, e.currentAddr, Range(e.mem.next, 0)) == v.ring;
  }

  lemma GrowingMore(e: Ed, v: View, e1: Ed, v1: View, e2: Ed, v2: View, e': Ed, texts: seq<string>, k: nat)
    requires RingOk(e, v) && Growing(e, v, e1, v1, texts, k) && k < |texts|
    requires Added(e1, v1, e2, v2, texts[k]) && e2.ustack == e1.ustack
    requires e' == e2.(cache := e'.cache, ustack := WithAdd(e.ustack, e.mem.next, k + 1))
    ensures Growing(e, v, e', v2, texts, k + 1)
  {
    assert |v1.ring| == |v.ring| + k;
    GrewMore(e.mem.links, e1.mem.links, e2.mem.links, v.ring, v1.ring, e.currentAddr, e.mem.next, k);
    ExtendsMore(v.text, v1.text, e.mem.next, texts, k);
  }

  /** One pass of that loop: put a line and track it. */
  method PutNext(e: Ed, ghost v: View, e1: Ed, ghost v1: View, texts: seq<string>, i: nat)
    returns (ok: bool, e': Ed, ghost v': View)
    requires RingOk(e, v) && RingOk(e1, v1) && NodesOk(e1, v1)
    requires Growing(e, v, e1, v1, texts, i) && i < |texts|
    ensures RingOk(e', v') && NodesOk(e', v')
    ensures ok <==> |texts[i]| < LINECHARS
    ensures if ok then Growing(e, v, e', v', texts, i + 1) else e' == e1 && v' == v1
  {
    ok, e', v' := PutSbufLine(e1, v1, texts[i]);
    if ok {
      ghost var e2 := e';
      assert v'.ring[e'.currentAddr] == e.mem.next + i;
      e' := TrackAdd(e', v', i != 0, e.ustack, e.mem.next, i);
      GrowingMore(e, v, e1, v1, e2, v', e', texts, i);
    }
  }

  /** The loop of append_lines, join_lines and search_and_replace: each line is put, and
      tracked by one undo entry; a line that is too long ends it. */
  method PutEach(e: Ed, ghost v: View, texts: seq<string>) returns (ok: bool, e': Ed, ghost v': View, ghost k: nat)
    requires RingOk(e, v) && NodesOk(e, v)
    ensures RingOk(e', v') && NodesOk(e', v')
    ensures Growing(e, v, e', v', texts, k) && texts[..k] == Fit(texts) && (ok <==> k == |texts|)
  {
    ok, e', v', k := true, e, v, 0;
    var i := 0;
    GrowingStart(e, v, texts);
    while i < |texts| && ok
      invariant RingOk(e', v') && NodesOk(e', v')
      invariant k == i && FitTo(texts, i) && Growing(e, v, e', v', texts, i)
      invariant !ok ==> i < |texts| && |texts[i]| >= LINECHARS
      decreases |texts| - i, ok
    {
      ok, e', v' := PutNext(e, v, e', v', texts, i);
      if ok {
        FitToMore(texts, i);
        i, k := i + 1, k + 1;
      }
    }
    FitSteps(texts, i);
  }

  /** The view once the entry for k new lines counts as recorded. */
  ghost function RecordAdd(e: Ed, v: View, v': View, k: nat): View {
    if k == 0 then v'
    else
      var add := EdHistory.Undo(UADD, e.mem.next, e.mem.next + k - 1);
      v'.(steps := v.steps + [One(add, v.ring, e.currentAddr, Range(e.mem.next, k))],
          hist := v.hist + [v'.ring])
  }

  lemma MarksKept(mark: seq<Ptr>, markno: nat, text: map<Id, string>, text': map<Id, string>)
    requires MarksOk(mark, markno, text) && text.Keys <= text'.Keys
    ensures MarksOk(mark, markno, text')
  {
  }

  lemma ActiveKept(e: Ed, e': Ed, r: seq<Id>, r': seq<Id>)
    requires ActiveOk(e, r) && (forall x :: x in r ==> x in r')
    requires e'.isglobal == e.isglobal && e'.activeList == e.activeList
    requires e'.activePtr == e.activePtr && e'.activeNdx == e.activeNdx
    ensures ActiveOk(e', r')
  {
  }

  lemma InsKeeps(z: seq<Id>, at: nat, m: seq<Id>)
    requires at < |z|
    ensures forall x :: x in z ==> x in Ins(z, at, m)
  {
    forall x | x in z
      ensures x in Ins(z, at, m)
    {
      var i :| 0 <= i < |z| && z[i] == x;
      assert Ins(z, at, m)[if i <= at then i else i + |m|] == x;
    }
  }

  lemma HistorySome(l: Links, us: seq<EdHistory.Undo>, steps: seq<Step>, hist: seq<seq<Id>>, ring: seq<Id>)
    requires History(l, us, steps, hist, ring)
    ensures hist != []
  {
  }

  lemma GrowingUndo(e: Ed, v: View, e': Ed, v': View, texts: seq<string>, k: nat)
    requires UndoOk(e, v) && Growing(e, v, e', v', texts, k) && Ring(e'.mem.links, v'.ring)
    requires AllBelow(e.mem.links, e.mem.next)
    ensures UndoOk(e', RecordAdd(e, v, v', k))
    ensures RecordAdd(e, v, v', k).hist != [] && RecordAdd(e, v, v', k).hist[0] == v.hist[0]
  {
    hide Ring, History, Extends, Grew;
    HistorySome(e.mem.links, e.ustack, v.steps, v.hist, v.ring);
    if k != 0 {
      HistoryAdd(e.mem.links, e'.mem.links, e.ustack, v.steps, v.hist, v.ring, v'.ring, e.currentAddr, e.mem.next, k);
    }
  }

  lemma GrowingLines(e: Ed, v: View, e': Ed, v': View, texts: seq<string>, k: nat)
    requires Valid(e, v) && Growing(e, v, e', v', texts, k)
    ensures LinesOf(v.hist[0], v'.text) == LinesOf(v.hist[0], v.text)
    ensures v'.ring != [] && LinesOf(v'.ring, v'.text)
         == LinesOf(v.ring, v.text)[..e.currentAddr] + Fresh(texts[..k], e.mem.next) + LinesOf(v.ring, v.text)[e.currentAddr..]
  {
    OnRingOld(e.mem.links, e.mem.next, e.ustack, v.steps, v.hist, v.ring);
    LinesPut(v.ring, e.currentAddr, v.text, v'.text, e.mem.next, texts, k);
    LinesPut(v.hist[0], 0, v.text, v'.text, e.mem.next, texts, k);
  }

  lemma GrowingRest(e: Ed, v: View, e': Ed, v': View, texts: seq<string>, k: nat)
    requires Valid(e, v) && Growing(e, v, e', v', texts, k)
    ensures ActiveOk(e', v'.ring) && MarksOk(e.mark, e.markno, v'.text)
  {
    InsKeeps(v.ring, e.currentAddr, Range(e.mem.next, k));
    ActiveKept(e, e', v.ring, v'.ring);
    forall x: Id | x in v.text
      ensures x in v'.text
    {
      assert Below(e.mem.links, e.mem.next, x) && SameText(v.text, v'.text, x);
    }
    MarksKept(e.mark, e.markno, v.text, v'.text);
  }

  lemma GrowingValid(e: Ed, v: View, e': Ed, v': View, texts: seq<string>, k: nat)
    requires Valid(e, v) && Growing(e, v, e', v', texts, k) && RingOk(e', v') && NodesOk(e', v')
    ensures Valid(e', RecordAdd(e, v, v', k))
  {
    GrowingUndo(e, v, e', v', texts, k);
    GrowingRest(e, v, e', v', texts, k);
  }

  /** New lines, linked and recorded, are new lines in the reference editor. */
  lemma GrowingAbs(e: Ed, v: View, e': Ed, v': View, texts: seq<string>, k: nat)
    requires Valid(e, v) && Growing(e, v, e', v', texts, k) && AbsOk(e', RecordAdd(e, v, v', k))
    ensures Abs(e', RecordAdd(e, v, v', k)) == InsertLines(Abs(e, v), Fresh(texts[..k], e.mem.next))
  {
    GrowingLines(e, v, e', v', texts, k);
    assert RecordAdd(e, v, v', k).hist[0] == v.hist[0];
  }

  /** New lines behind the current one. */
  method PutLines(e: Ed, ghost v: View, texts: seq<string>) returns (ok: bool, e': Ed, ghost v': View)
    requires Valid(e, v)
    ensures Valid(e', v') && (Abs(e', v'), ok) == Put(Abs(e, v), texts) && e'.isglobal == e.isglobal
  {
    ghost var k;
    ok, e', v', k := PutEach(e, v, texts);
    GrowingValid(e, v, e', v', texts, k);
    GrowingAbs(e, v, e', v', texts, k);
    v' := RecordAdd(e, v, v', k);
  }
}
