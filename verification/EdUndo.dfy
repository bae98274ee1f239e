/** undo.c: undoing and forgetting; and the marks, which forgetting has to clear. */
module EdUndo {
  import opened EdLinks
  import opened EdHistory
  import opened EdTypes
  import opened EdSpec
  import opened EdState
  import opened EdBuf
  import opened EdGlobal

  // ----- pop_undo_stack

  lemma {:induction false} FlatConcat(a: seq<Step>, b: seq<Step>)
    ensures Flat(a + b) == Flat(a) + Flat(b)
  {
    hide Flat, Entries;
    if b == [] {
      FlatNone();
      assert a + b == a;
    } else {
      var n := |b| - 1;
      assert (a + b)[..|a| + n] == a + b[..n] && (a + b)[|a| + n] == b[n];
      FlatConcat(a, b[..n]);
      FlatLast(a + b);
      FlatLast(b);
      assert Flat(a) + (Flat(b[..n]) + Entries(b[n])) == (Flat(a) + Flat(b[..n])) + Entries(b[n]);
    }
  }

  lemma FlatLast(a: seq<Step>)
    requires a != []
    ensures Flat(a) == Flat(a[..|a| - 1]) + Entries(a[|a| - 1])
  {
  }

  lemma FlatNone()
    ensures Flat([]) == []
  {
  }

  lemma FlatAround(low: seq<Step>, s: Step, high: seq<Step>)
    ensures Flat(low + ([s] + high)) == Flat(low) + Entries(s) + Flat(high)
  {
    FlatConcat(low, [s] + high);
    FlatCons(s, high);
  }

  /** The steps when the undo loop has come down to k. */
  function Halfway(steps: seq<Step>, k: nat): seq<Step>
    requires k <= |steps|
  {
    steps[..k] + FlippedAll(steps)[k..]
  }

  /** One pass of the loop finds the entries of step k - 1 on top of those still to do, and
      flips the lower one. */
  lemma FlatHalfway(steps: seq<Step>, k: nat)
    requires 0 < k <= |steps|
    ensures var us, n, es := Flat(Halfway(steps, k)), |Flat(steps[..k - 1])|, Entries(steps[k - 1]);
            && n + |es| == |Flat(steps[..k])| <= |us|
            && us[n..n + |es|] == es
            && Flat(Halfway(steps, k - 1)) == us[n := es[0].(kind := Flip(es[0].kind))]
  {
    hide Flat;
    FlatNone();
    var s, f := steps[k - 1], Flipped(steps[k - 1]);
    var low, high := steps[..k - 1], FlippedAll(steps)[k..];
    assert steps[..k] == low + ([s] + []);
    assert Halfway(steps, k) == low + ([s] + high);
    assert Halfway(steps, k - 1) == low + ([f] + high);
    FlatAround(low, s, []);
    FlatAround(low, s, high);
    FlatAround(low, f, high);
  }

  /** USWAP over the upper half of the stack. */
  method ReverseStack(us: seq<EdHistory.Undo>) returns (r: seq<EdHistory.Undo>)
    ensures r == Reversed(us)
  {
    r := us;
    var n := |us|;
    while n > (|us| + 1) / 2
      invariant (|us| + 1) / 2 <= n <= |us| == |r|
      invariant forall i {:trigger r[i]} :: 0 <= i < |us| ==>
        r[i] == if n <= i || i < |us| - n then us[|us| - 1 - i] else us[i]
    {
      n := n - 1;
      r := r[n := r[|us| - 1 - n]][|us| - 1 - n := r[n]];
    }
    assert forall i :: 0 <= i < |us| ==> r[i] == Reversed(us)[i];
  }

  /** e' is e with other links between the same nodes. */
  ghost predicate Relinked(e: Ed, e': Ed) {
    && e' == e.(mem := e.mem.(links := e'.mem.links))
    && e'.mem.links.forw.Keys == e.mem.links.forw.Keys && e'.mem.links.back.Keys == e.mem.links.back.Keys
  }

  /** case UADD */
  method UndoAddEntry(e: Ed, ghost v: View, u: EdHistory.Undo, ghost p: nat) returns (e': Ed)
    requires Recorded(v.steps, v.hist) && 0 < p <= |v.steps| && Linked(e.mem.links, v.hist, p)
    requires Leads(v.steps, v.hist, p - 1) && v.steps[p - 1].One? && v.steps[p - 1].e == u && u.kind == UADD
    ensures Linked(e'.mem.links, v.hist, p - 1) && Relinked(e, e')
  {
    hide Recorded, Leads, Linked;
    UndoAdd(e.mem.links, v.steps, v.hist, p);
    e' := Requeue(e, e.mem.links.back[u.h], e.mem.links.forw[u.t]);
  }

  /** case UDEL */
  method UndoDelEntry(e: Ed, ghost v: View, u: EdHistory.Undo, ghost p: nat) returns (e': Ed)
    requires Recorded(v.steps, v.hist) && 0 < p <= |v.steps| && Linked(e.mem.links, v.hist, p)
    requires Leads(v.steps, v.hist, p - 1) && v.steps[p - 1].One? && v.steps[p - 1].e == u && u.kind == UDEL
    ensures Linked(e'.mem.links, v.hist, p - 1) && Relinked(e, e')
  {
    hide Recorded, Leads, Linked;
    UndoDel(e.mem.links, v.steps, v.hist, p);
    e' := Requeue(e, e.mem.links.back[u.h], u.h);
    e' := Requeue(e', u.t, e'.mem.links.forw[u.t]);
  }

  /** case UMOV and VMOV: low lies below u on the stack. */
  method UndoMoveEntry(e: Ed, ghost v: View, low: EdHistory.Undo, u: EdHistory.Undo, ghost p: nat) returns (e': Ed)
    requires Recorded(v.steps, v.hist) && 0 < p <= |v.steps| && Linked(e.mem.links, v.hist, p)
    requires Leads(v.steps, v.hist, p - 1) && v.steps[p - 1].Two? && v.steps[p - 1].e0 == low && v.steps[p - 1].e1 == u
    ensures Linked(e'.mem.links, v.hist, p - 1) && Relinked(e, e')
  {
    hide Recorded, Leads, Linked;
    UndoMove(e.mem.links, v.steps, v.hist, p);
    e' := Requeue(e, low.h, e.mem.links.forw[u.h]);
    e' := Requeue(e', e'.mem.links.back[u.t], low.t);
    e' := Requeue(e', u.h, u.t);
  }

  lemma TopEntry(steps: seq<Step>, hist: seq<seq<Id>>, p: nat)
    requires Recorded(steps, hist) && 0 < p <= |steps|
    ensures Leads(steps, hist, p - 1)
    ensures match steps[p - 1]
            case One(e, _, _, _) => e.kind == UADD || e.kind == UDEL
            case Two(_, e1, _, _, _, _) => e1.kind == UMOV || e1.kind == VMOV
  {
    assert Leads(steps, hist, p - 1);
  }

  /** The body of the undo loop: it undoes the entries of step p - 1 and flips the lower one. */
  method UndoEntry(e: Ed, ghost v: View, n: nat, ghost p: nat) returns (e': Ed, n': nat)
    requires Recorded(v.steps, v.hist) && 0 < p <= |v.steps| && Linked(e.mem.links, v.hist, p)
    requires e.ustack == Flat(Halfway(v.steps, p)) && n == |Flat(v.steps[..p])|
    ensures Linked(e'.mem.links, v.hist, p - 1)
    ensures e'.ustack == Flat(Halfway(v.steps, p - 1)) && n' == |Flat(v.steps[..p - 1])|
    ensures Relinked(e.(ustack := e'.ustack), e')
  {
    hide Recorded, Leads, Linked, Flat;
    FlatHalfway(v.steps, p);
    TopEntry(v.steps, v.hist, p);
    ghost var es := Entries(v.steps[p - 1]);
    var u := e.ustack[n - 1];
    assert u == e.ustack[n - |es|..n][|es| - 1] && es[0] == e.ustack[n - |es|..n][0];
    if u.kind == UADD {
      e' := UndoAddEntry(e, v, u, p);
      n' := n - 1;
    } else if u.kind == UDEL {
      e' := UndoDelEntry(e, v, u, p);
      n' := n - 1;
    } else {
      e' := UndoMoveEntry(e, v, e.ustack[n - 2], u, p);
      n' := n - 2;
    }
    var low := e.ustack[n'];
    e' := e'.(ustack := e.ustack[n' := low.(kind := Flip(low.kind))]);
  }

  /** The undo loop. */
  method UndoAll(e: Ed, ghost v: View) returns (e': Ed)
    requires Recorded(v.steps, v.hist) && Linked(e.mem.links, v.hist, |v.steps|) && e.ustack == Flat(v.steps)
    ensures Linked(e'.mem.links, v.hist, 0) && e'.ustack == Flat(FlippedAll(v.steps))
    ensures Relinked(e.(ustack := e'.ustack), e')
  {
    hide Recorded, Leads, Linked, Flat;
    FlatNone();
    e' := e;
    var n := |e.ustack|;
    ghost var p: nat := |v.steps|;
    assert Halfway(v.steps, p) == v.steps && v.steps[..p] == v.steps;
    while n > 0
      invariant p <= |v.steps| && Linked(e'.mem.links, v.hist, p)
      invariant e'.ustack == Flat(Halfway(v.steps, p)) && n == |Flat(v.steps[..p])|
      invariant Relinked(e.(ustack := e'.ustack), e')
      decreases p
    {
      e', n := UndoEntry(e', v, n, p);
      p := p - 1;
    }
    FlatEmpty(v.steps[..p]);
    assert Halfway(v.steps, 0) == FlippedAll(v.steps);
  }

  lemma FlatEmpty(steps: seq<Step>)
    ensures Flat(steps) == [] ==> steps == []
  {
  }

  /** The view after undo: the history reversed. */
  ghost function Turned(v: View): View
    requires v.hist != []
  {
    View(v.hist[0], MirrorAll(v.steps), Reversed(v.hist), v.text)
  }

  lemma TurnedOwned(l: Links, l': Links, v: View)
    requires l'.forw.Keys == l.forw.Keys && forall x: Id {:trigger Owned(l, v.hist, x)} :: Owned(l, v.hist, x)
    ensures forall x: Id {:trigger Owned(l', Reversed(v.hist), x)} :: Owned(l', Reversed(v.hist), x)
  {
    var h' := Reversed(v.hist);
    forall x: Id
      ensures Owned(l', h', x)
    {
      assert Owned(l, v.hist, x);
      if InSome(v.hist, x) {
        var k :| 0 <= k < |v.hist| && x in v.hist[k];
        assert x in h'[|h'| - 1 - k];
      }
      if InSome(h', x) {
        var k :| 0 <= k < |h'| && x in h'[k];
        assert x in v.hist[|h'| - 1 - k];
      }
    }
  }

  /** Undone links and the reversed stack are a history again. */
  lemma TurnedHistory(l: Links, l': Links, us: seq<EdHistory.Undo>, us': seq<EdHistory.Undo>, v: View)
    requires History(l, us, v.steps, v.hist, v.ring) && Linked(l', v.hist, 0) && l'.forw.Keys == l.forw.Keys
    requires us' == Reversed(Flat(FlippedAll(v.steps)))
    ensures var v' := Turned(v); History(l', us', v'.steps, v'.hist, v'.ring) && Ring(l', v'.ring)
  {
    ReverseFlat(v.steps);
    Turn(l', v.steps, v.hist);
    TurnedOwned(l, l', v);
    assert Shape(v.hist[0]);
    PresentIsRing(l', v.hist, 0);
  }

  /** pop_undo_stack, as code. */
  method UndoNodes(e: Ed, ghost v: View) returns (e': Ed)
    requires RingOk(e, v) && UndoOk(e, v) && e.uCurrentAddr != -1
    ensures Linked(e'.mem.links, v.hist, 0) && e'.ustack == Reversed(Flat(FlippedAll(v.steps)))
    ensures Relinked(e.(ustack := e'.ustack, cache := Cache(HEAD, 0), currentAddr := e.uCurrentAddr,
      addrLast := e.uAddrLast, uCurrentAddr := e.currentAddr, uAddrLast := e.addrLast,
      activeList := if e.isglobal then [] else e.activeList, activePtr := if e.isglobal then 0 else e.activePtr,
      activeNdx := if e.isglobal then 0 else e.activeNdx), e')
  {
    var oCurrentAddr, oAddrLast := e.currentAddr, e.addrLast;
    var head;
    e', head := Lookup(e, v, 0);
    e' := UndoAll(e', v);
    var us := ReverseStack(e'.ustack);
    e' := e'.(ustack := us);
    if e'.isglobal {
      e' := e'.(activeList := [], activePtr := 0, activeNdx := 0);
    }
    e' := e'.(currentAddr := e'.uCurrentAddr, uCurrentAddr := oCurrentAddr);
    e' := e'.(addrLast := e'.uAddrLast, uAddrLast := oAddrLast);
  }

  lemma UndoneValid(e: Ed, v: View, e': Ed)
    requires Valid(e, v) && e.uCurrentAddr != -1
    requires Linked(e'.mem.links, v.hist, 0) && e'.ustack == Reversed(Flat(FlippedAll(v.steps)))
    requires Relinked(e.(ustack := e'.ustack, cache := Cache(HEAD, 0), currentAddr := e.uCurrentAddr,
      addrLast := e.uAddrLast, uCurrentAddr := e.currentAddr, uAddrLast := e.addrLast,
      activeList := e'.activeList, activePtr := e'.activePtr, activeNdx := e'.activeNdx), e')
    requires e.isglobal ==> e'.activeList == [] && e'.activePtr == 0 && e'.activeNdx == 0
    ensures Valid(e', Turned(v)) && Abs(e', Turned(v)) == Undone(Abs(e, v)).0
  {
    TurnedHistory(e.mem.links, e'.mem.links, e.ustack, e'.ustack, v);
    NodesRelinked(e.mem, e'.mem.links, v.text, e.sb.file);
    hide Flat, Recorded, Linked, Nodes, Ring, Named;
    assert Reversed(v.hist)[0] == v.hist[|v.steps|];
  }

  /** pop_undo_stack: the saved buffer and the present one change places. */
  method PopUndo(e: Ed, ghost v: View) returns (ok: bool, e': Ed, ghost v': View)
    requires Valid(e, v)
    ensures Valid(e', v') && (Abs(e', v'), ok) == Undone(Abs(e, v)) && e'.isglobal == e.isglobal
    ensures ok ==> v'.ring == v.hist[0] && v'.hist[0] == v.ring
  {
    if e.uCurrentAddr == -1 || e.uAddrLast == -1 {
      return false, e, v;
    }
    e' := UndoNodes(e, v);
    UndoneValid(e, v, e');
    ok, v' := true, Turned(v);
  }

  // ----- marks

  lemma {:induction false} UsedZero(s: seq<Ptr>)
    requires Used(s) == 0
    ensures forall i :: 0 <= i < |s| ==> s[i].Null?
  {
    if s != [] {
      UsedZero(s[..|s| - 1]);
    }
  }

  lemma {:induction false} UsedUpdate(s: seq<Ptr>, i: nat, p: Ptr)
    requires i < |s|
    ensures Used(s[i := p]) == Used(s) - (if s[i].To? then 1 else 0) + (if p.To? then 1 else 0)
  {
    var n := |s| - 1;
    if i == n {
      assert s[i := p][..n] == s[..n];
    } else {
      assert s[i := p][..n] == s[..n][i := p];
      UsedUpdate(s[..n], i, p);
    }
  }

  /** mark_line_node: c is the mark's letter. */
  method MarkLine(mark: seq<Ptr>, markno: nat, lp: Id, c: char) returns (ok: bool, mark': seq<Ptr>, markno': nat)
    requires |mark| == MAXMARK && markno == Used(mark)
    ensures ok <==> 'a' <= c <= 'z'
    ensures mark' == (if ok then mark[c as int - 'a' as int := To(lp)] else mark) && markno' == Used(mark')
  {
    ok, mark', markno' := 'a' <= c <= 'z', mark, markno;
    if ok {
      var i := c as int - 'a' as int;
      if mark[i].Null? {
        markno' := markno' + 1;
      }
      UsedUpdate(mark, i, To(lp));
      mark' := mark[i := To(lp)];
    }
  }

  /** unmark_line_node: the loop stops early once no mark is left. */
  method Unmark(mark: seq<Ptr>, markno: nat, lp: Id) returns (mark': seq<Ptr>, markno': nat)
    requires markno == Used(mark)
    ensures mark' == Nulled(mark, [lp]) && markno' == Used(mark')
  {
    mark', markno' := mark, markno;
    var i := 0;
    while markno' != 0 && i < |mark|
      invariant i <= |mark| == |mark'| && markno' == Used(mark')
      invariant forall j {:trigger mark'[j]} :: 0 <= j < |mark| ==>
        mark'[j] == if j < i && mark[j] == To(lp) then Null else mark[j]
    {
      if mark'[i] == To(lp) {
        UsedUpdate(mark', i, Null);
        mark' := mark'[i := Null];
        markno' := markno' - 1;
      }
      i := i + 1;
    }
    if markno' == 0 {
      UsedZero(mark');
    }
    assert forall j :: 0 <= j < |mark| ==> mark'[j] == Nulled(mark, [lp])[j];
  }
}
