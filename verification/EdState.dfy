/** The variables of `ed`: linked nodes, the address cache, the undo stack, the
    global-active list, marks and the scratch file; what they stand for; and how they
    read as a state of the reference editor. */
module EdState {
  import opened EdLinks
  import opened EdHistory
  import opened EdTypes
  import opened EdSpec

  datatype Ptr = Null | To(id: Id)

  // ----- what the data structures mean

  /** Nodes as lines. */
  ghost function Named(m: seq<Id>, text: map<Id, string>): seq<Line> {
    seq(|m|, i requires 0 <= i < |m| => Line(m[i], if m[i] in text then text[m[i]] else ""))
  }

  /** The lines of a ring: all its nodes but the sentinel. */
  ghost function LinesOf(r: seq<Id>, text: map<Id, string>): seq<Line> {
    if r == [] then [] else Named(r[1..], text)
  }

  lemma LinesIns(z: seq<Id>, at: nat, m: seq<Id>, text: map<Id, string>)
    requires at < |z|
    ensures LinesOf(Ins(z, at, m), text)
         == LinesOf(z, text)[..at] + Named(m, text) + LinesOf(z, text)[at..]
  {
    hide Named;
    var a, b := z[1..][..at], z[1..][at..];
    assert Ins(z, at, m)[1..] == a + m + b;
    NamedConcat(a + m, b, text);
    NamedConcat(a, m, text);
    NamedCut(z[1..], at, text);
  }

  lemma NamedConcat(a: seq<Id>, b: seq<Id>, text: map<Id, string>)
    ensures Named(a + b, text) == Named(a, text) + Named(b, text)
  {
  }

  lemma NamedCut(a: seq<Id>, k: nat, text: map<Id, string>)
    requires k <= |a|
    ensures |Named(a, text)| == |a|
    ensures Named(a[..k], text) == Named(a, text)[..k] && Named(a[k..], text) == Named(a, text)[k..]
  {
  }

  lemma LinesSame(r: seq<Id>, text: map<Id, string>, text': map<Id, string>)
    requires r != []
    requires forall i {:trigger r[i]} :: 0 <= i < |r| ==> SameText(text, text', r[i])
    ensures LinesOf(r, text') == LinesOf(r, text)
  {
  }

  /** The ids an active list still holds. */
  function Pending(s: seq<Ptr>): seq<Id> {
    if s == [] then []
    else if s[0].Null? then Pending(s[1..])
    else [s[0].id] + Pending(s[1..])
  }

  function Nulled(s: seq<Ptr>, gone: seq<Id>): seq<Ptr> {
    seq(|s|, i requires 0 <= i < |s| => if s[i].To? && s[i].id in gone then Null else s[i])
  }

  /** The marks as the reference editor has them. */
  function MarksOf(s: seq<Ptr>): (r: Marks)
    ensures |r| == |s|
  {
    seq(|s|, i requires 0 <= i < |s| => if s[i].To? then Some(s[i].id) else None)
  }

  /** The number of marks in use. */
  function Used(s: seq<Ptr>): nat {
    if s == [] then 0 else Used(s[..|s| - 1]) + (if s[|s| - 1].To? then 1 else 0)
  }

  lemma {:induction false} PendingNulled(s: seq<Ptr>, gone: seq<Id>)
    ensures Pending(Nulled(s, gone)) == Without(Pending(s), gone)
  {
    if s != [] {
      PendingNulled(s[1..], gone);
      assert Nulled(s, gone)[1..] == Nulled(s[1..], gone);
    }
  }

  /** No pointer occurs twice. */
  ghost predicate Once(s: seq<Ptr>) {
    forall i, j :: 0 <= i < j < |s| && s[i].To? ==> s[i] != s[j]
  }

  /** The static variables lp and on of get_addressed_line_node. */
  datatype Cache = Cache(lp: Id, on: nat)

  /** seek and len of a line_t. */
  datatype Place = Place(seek: nat, len: nat)

  /** All allocated line_t; next is the number of the node allocated next. */
  datatype Mem = Mem(links: Links, place: map<Id, Place>, next: Id)

  /** The scratch file, the position of its stream, and ed's two variables about it. */
  datatype Scratch = Scratch(file: string, pos: nat, sfseek: int, seekWrite: bool)

  /** sfseek is the position of the stream, and writing starts at the end of the file. */
  ghost predicate ScratchOk(sb: Scratch) {
    sb.pos <= |sb.file| && sb.sfseek == sb.pos && (!sb.seekWrite ==> sb.pos == |sb.file|)
  }

  /** The text of x lies in the scratch file where its node says. */
  ghost predicate TextAt(file: string, place: map<Id, Place>, text: map<Id, string>, x: Id)
    requires x in place && x in text
  {
    var Place(seek, len) := place[x];
    seek + len <= |file| && text[x] == file[seek..seek + len]
  }

  /** Allocated nodes, their numbers and their texts. */
  ghost predicate Nodes(mem: Mem, text: map<Id, string>, file: string) {
    && mem.links.back.Keys == mem.links.forw.Keys && HEAD in mem.links.forw
    && text.Keys == mem.links.forw.Keys - {HEAD} && mem.place.Keys == text.Keys
    && AllBelow(mem.links, mem.next)
    && (forall x: Id {:trigger TextAt(file, mem.place, text, x)} :: x in text ==> TextAt(file, mem.place, text, x))
  }

  /** mem' is mem with one more node, for a piece of the file. */
  ghost predicate Grown(mem: Mem, mem': Mem, p: Place) {
    && mem'.links.forw.Keys == mem.links.forw.Keys + {mem.next}
    && mem'.links.back.Keys == mem.links.back.Keys + {mem.next}
    && mem'.place == mem.place[mem.next := p] && mem'.next == mem.next + 1
    && SameOutside(mem.links, mem'.links, [mem.next])
  }

  /** A new node for a piece of a file that has at most grown: no stored text changes. */
  lemma NodesGrow(mem: Mem, mem': Mem, text: map<Id, string>, file: string, file': string, p: Place)
    requires Nodes(mem, text, file) && Grown(mem, mem', p)
    requires file <= file' && p.seek + p.len <= |file'|
    ensures Nodes(mem', text[mem.next := file'[p.seek..p.seek + p.len]], file')
  {
    var text' := text[mem.next := file'[p.seek..p.seek + p.len]];
    assert Below(mem.links, mem.next, mem.next);
    forall x: Id
      ensures Below(mem'.links, mem'.next, x)
    {
      assert Below(mem.links, mem.next, x);
    }
    forall x | x in text'
      ensures TextAt(file', mem'.place, text', x)
    {
      if x != mem.next {
        assert TextAt(file, mem.place, text, x);
        var Place(seek, len) := mem.place[x];
        assert file'[seek..seek + len] == file'[..|file|][seek..seek + len];
      }
    }
  }

  /** Relinking allocated nodes neither allocates nor frees. */
  lemma NodesRelinked(mem: Mem, l: Links, text: map<Id, string>, file: string)
    requires Nodes(mem, text, file) && l.forw.Keys == mem.links.forw.Keys && l.back.Keys == mem.links.back.Keys
    ensures Nodes(mem.(links := l), text, file)
  {
    var mem' := mem.(links := l);
    forall x: Id
      ensures Below(l, mem.next, x)
    {
      assert Below(mem.links, mem.next, x);
    }
    forall x | x in text
      ensures TextAt(file, mem'.place, text, x)
    {
      assert TextAt(file, mem.place, text, x);
    }
  }

  /** The numbers of k nodes allocated in a row. */
  ghost function Range(n: Id, k: nat): seq<Id> {
    seq(k, i requires 0 <= i < k => n + i)
  }

  ghost predicate SameText(text: map<Id, string>, text': map<Id, string>, x: Id) {
    (x in text <==> x in text') && (x in text ==> text'[x] == text[x])
  }

  ghost predicate NewText(text: map<Id, string>, next: Id, texts: seq<string>, j: nat) {
    j < |texts| && next + j in text && text[next + j] == texts[j]
  }

  /** text' extends text by the first k of texts, for new nodes. */
  ghost predicate Extends(text: map<Id, string>, text': map<Id, string>, next: Id, texts: seq<string>, k: nat) {
    && k <= |texts|
    && (forall x: Id {:trigger SameText(text, text', x)} :: x < next ==> SameText(text, text', x))
    && (forall j {:trigger NewText(text', next, texts, j)} :: 0 <= j < k ==> NewText(text', next, texts, j))
  }

  lemma ExtendsMore(text: map<Id, string>, text': map<Id, string>, next: Id, texts: seq<string>, k: nat)
    requires Extends(text, text', next, texts, k) && k < |texts|
    ensures Extends(text, text'[next + k := texts[k]], next, texts, k + 1)
  {
    var text2 := text'[next + k := texts[k]];
    forall x: Id | x < next
      ensures SameText(text, text2, x)
    {
      assert SameText(text, text', x);
    }
    forall j | 0 <= j <= k
      ensures NewText(text2, next, texts, j)
    {
      assert j < k ==> NewText(text', next, texts, j);
    }
  }

  lemma NamedNew(text: map<Id, string>, text': map<Id, string>, next: Id, texts: seq<string>, k: nat)
    requires Extends(text, text', next, texts, k)
    ensures Named(Range(next, k), text') == Fresh(texts[..k], next)
  {
    forall j | 0 <= j < k
      ensures Named(Range(next, k), text')[j] == Fresh(texts[..k], next)[j]
    {
      assert NewText(text', next, texts, j);
    }
  }

  /** What inserting new lines does to the lines of the buffer, and to those of an older
      ring. */
  lemma LinesPut(z: seq<Id>, at: nat, text: map<Id, string>, text': map<Id, string>, next: Id, texts: seq<string>, k: nat)
    requires at < |z| && (forall x :: x in z ==> x < next) && Extends(text, text', next, texts, k)
    ensures LinesOf(z, text') == LinesOf(z, text)
    ensures LinesOf(Ins(z, at, Range(next, k)), text')
         == LinesOf(z, text)[..at] + Fresh(texts[..k], next) + LinesOf(z, text)[at..]
  {
    forall i | 0 <= i < |z|
      ensures SameText(text, text', z[i])
    {
      assert z[i] in z;
    }
    LinesSame(z, text, text');
    LinesIns(z, at, Range(next, k), text');
    NamedNew(text, text', next, texts, k);
  }

  predicate NewKey(l: Links, l': Links, n: Id, k: nat, x: Id) {
    x in l'.forw <==> x in l.forw || n <= x < n + k
  }

  /** k new nodes, numbered from n, were linked in behind position at of the ring z. */
  ghost predicate Grew(l: Links, l': Links, z: seq<Id>, r: seq<Id>, at: nat, n: Id, k: nat) {
    && at < |z| && r == Ins(z, at, Range(n, k)) && SameOutside(l, l', r)
    && (forall x: Id {:trigger NewKey(l, l', n, k, x)} :: NewKey(l, l', n, k, x))
  }

  lemma GrewMore(l: Links, l1: Links, l2: Links, z: seq<Id>, r: seq<Id>, at: nat, n: Id, k: nat)
    requires Grew(l, l1, z, r, at, n, k) && |r| == |z| + k
    requires SameOutside(l1, l2, Ins(r, at + k, [n + k])) && l2.forw.Keys == l1.forw.Keys + {n + k}
    ensures Grew(l, l2, z, Ins(r, at + k, [n + k]), at, n, k + 1)
  {
    InsIns(z, at, Range(n, k), [n + k]);
    assert Range(n, k) + [n + k] == Range(n, k + 1);
    SameTrans(l, l1, l2, r, Ins(r, at + k, [n + k]));
    var k' := k + 1;
    forall x: Id
      ensures NewKey(l, l2, n, k', x)
    {
      assert NewKey(l, l1, n, k, x);
    }
  }

  /** The stack with the UADD entry for k new nodes, if there are any. */
  function WithAdd(us: seq<EdHistory.Undo>, n: Id, k: nat): seq<EdHistory.Undo> {
    if k == 0 then us else us + [EdHistory.Undo(UADD, n, n + k - 1)]
  }

  lemma WithAddMore(us: seq<EdHistory.Undo>, n: Id, k: nat)
    ensures var w := WithAdd(us, n, k);
            WithAdd(us, n, k + 1) ==
            if k == 0 then w + [EdHistory.Undo(UADD, n, n)]
            else w[|w| - 1 := w[|w| - 1].(t := n + k)]
  {
  }

  ghost predicate FitTo(texts: seq<string>, k: nat) {
    k <= |texts| && forall j :: 0 <= j < k ==> |texts[j]| < LINECHARS
  }

  lemma FitToMore(texts: seq<string>, k: nat)
    requires FitTo(texts, k) && k < |texts| && |texts[k]| < LINECHARS
    ensures FitTo(texts, k + 1)
  {
  }

  lemma {:induction false} FitSteps(texts: seq<string>, k: nat)
    requires FitTo(texts, k) && (k == |texts| || |texts[k]| >= LINECHARS)
    ensures Fit(texts) == texts[..k]
  {
    if k != 0 {
      FitSteps(texts[1..], k - 1);
      assert texts[..k] == [texts[0]] + texts[1..][..k - 1];
    }
  }

  /** Recording new lines. */
  lemma GrewMembers(l: Links, l': Links, z: seq<Id>, r: seq<Id>, at: nat, n: Id, k: nat, x: Id)
    requires Ring(l', r) && Grew(l, l', z, r, at, n, k) && AllBelow(l, n)
    ensures x in r ==> x in z || n <= x < n + k
    ensures x in l'.forw <==> x in l.forw || n <= x < n + k
    ensures x in l.forw ==> x < n
    ensures x in r ==> x in l'.forw
    ensures n <= x < n + k ==> x in r
  {
    hide Shape, At;
    assert NewKey(l, l', n, k, x) && Below(l, n, x);
    if x in r {
      RingAllocated(l', r, x);
    }
    if n <= x < n + k {
      assert r[at + 1 + (x - n)] == x;
    }
  }

  lemma HistoryAdd(l: Links, l': Links, us: seq<EdHistory.Undo>, steps: seq<Step>, hist: seq<seq<Id>>,
                   z: seq<Id>, r: seq<Id>, at: nat, n: Id, k: nat)
    requires History(l, us, steps, hist, z) && Ring(l', r) && Grew(l, l', z, r, at, n, k)
    requires k != 0 && AllBelow(l, n)
    ensures var s := One(EdHistory.Undo(UADD, n, n + k - 1), z, at, Range(n, k));
            History(l', WithAdd(us, n, k), steps + [s], hist + [r], r)
  {
    hide Recorded, Linked;
    var s := One(EdHistory.Undo(UADD, n, n + k - 1), z, at, Range(n, k));
    forall x: Id
      ensures x in r && x !in z ==> x !in l.forw
      ensures x in l'.forw <==> x in l.forw || x in r
    {
      GrewMembers(l, l', z, r, at, n, k, x);
    }
    HistoryPush(l, l', us, steps, hist, z, s);
  }

  lemma OnRingOld(l: Links, next: Id, us: seq<EdHistory.Undo>, steps: seq<Step>, hist: seq<seq<Id>>, r: seq<Id>)
    requires History(l, us, steps, hist, r) && AllBelow(l, next)
    ensures hist[0] != [] && r != [] && forall x :: x in hist[0] || x in r ==> x < next
  {
    assert Shape(hist[0]) && Shape(hist[|steps|]);
    forall x | x in hist[0] || x in r
      ensures x < next
    {
      assert InSome(hist, x) by {
        assert x in hist[0] || x in hist[|steps|];
      }
      assert Owned(l, hist, x) && Below(l, next, x);
    }
  }

  lemma NewNodeOffRing(l: Links, l': Links, r: seq<Id>, lp: Id)
    requires Ring(l, r) && AllBelow(l, lp) && SameOutside(l, l', [lp])
    ensures lp !in r && Ring(l', r)
  {
    assert Below(l, lp, lp);
    if lp in r {
      RingAllocated(l, r, lp);
    }
    RingKept(l, l', r, [lp]);
  }

  // ----- the state of the editor

  /** The static and global variables of ed. */
  datatype Ed = Ed(
    mem: Mem, sb: Scratch, addrLast: nat, currentAddr: nat, cache: Cache, isglobal: bool,
    ustack: seq<EdHistory.Undo>, uCurrentAddr: int, uAddrLast: int,
    mark: seq<Ptr>, markno: nat,
    activeList: seq<Ptr>, activePtr: nat, activeNdx: nat)

  /** What the variables stand for: the nodes of the ring in order, the way back to the
      state that undo restores, and the text of every node. */
  datatype View = View(ring: seq<Id>, steps: seq<Step>, hist: seq<seq<Id>>, text: map<Id, string>)

  ghost predicate RingOk(e: Ed, v: View) {
    match v
    case View(ring, _, _, _) =>
      && Ring(e.mem.links, ring)
      && e.addrLast == |ring| - 1 && e.currentAddr <= e.addrLast
      && e.cache.on <= e.addrLast && e.cache.lp == ring[e.cache.on]
  }

  ghost predicate NodesOk(e: Ed, v: View) {
    match v
    case View(_, _, _, text) => Nodes(e.mem, text, e.sb.file) && ScratchOk(e.sb)
  }

  ghost predicate UndoOk(e: Ed, v: View) {
    && History(e.mem.links, e.ustack, v.steps, v.hist, v.ring)
    && (e.uCurrentAddr == -1 <==> e.uAddrLast == -1)
    && (e.uCurrentAddr != -1 ==> e.uAddrLast == |v.hist[0]| - 1 && 0 <= e.uCurrentAddr <= e.uAddrLast)
  }

  ghost predicate MarksOk(mark: seq<Ptr>, markno: nat, text: map<Id, string>) {
    && |mark| == MAXMARK && markno == Used(mark)
    && (forall i :: 0 <= i < MAXMARK && mark[i].To? ==> mark[i].id in text)
  }

  ghost predicate ActiveOk(e: Ed, ring: seq<Id>) {
    e.isglobal ==>
      && Once(e.activeList) && e.activePtr <= |e.activeList|
      && (e.activeNdx < |e.activeList| || e.activeNdx == 0)
      && (forall i :: 0 <= i < |e.activeList| && e.activeList[i].To? ==>
            e.activeList[i].id in ring && e.activeList[i].id != HEAD)
  }

  ghost predicate AbsOk(e: Ed, v: View) {
    && v.ring != [] && v.hist != [] && v.hist[0] != []
    && (e.isglobal ==> e.activePtr <= |e.activeList|) && e.uCurrentAddr >= -1
  }

  ghost predicate Valid(e: Ed, v: View) {
    match v
    case View(ring, _, _, text) =>
      && AbsOk(e, v) && RingOk(e, v) && NodesOk(e, v) && UndoOk(e, v)
      && MarksOk(e.mark, e.markno, text) && ActiveOk(e, ring)
  }

  /** The reference editor's view of the state. */
  ghost function Abs(e: Ed, v: View): State {
    State(
      Buf(LinesOf(v.ring, v.text), e.currentAddr),
      if e.uCurrentAddr < 0 || v.hist == [] then None else Some(Buf(LinesOf(v.hist[0], v.text), e.uCurrentAddr)),
      e.mem.next,
      if e.isglobal && e.activePtr <= |e.activeList| then Pending(e.activeList[e.activePtr..]) else [],
      MarksOf(e.mark))
  }
}
