/** undo.c: clear_undo_stack, which frees the nodes that only undo could bring back. */
module EdClear {
  import opened EdLinks
  import opened EdHistory
  import opened EdTypes
  import opened EdSpec
  import opened EdState
  import opened EdBuf
  import opened EdUndo

  function DropLinks(l: Links, gone: seq<Id>): Links {
    var s := set x | x in gone;
    Links(l.forw - s, l.back - s)
  }

  /** The memory after free() of the nodes gone. */
  function Drop(mem: Mem, gone: seq<Id>): Mem {
    Mem(DropLinks(mem.links, gone), mem.place - (set x | x in gone), mem.next)
  }

  /** free() of one node, which has to be allocated. */
  method Free(mem: Mem, lp: Id) returns (mem': Mem)
    requires Allocated(mem.links, lp)
    ensures mem' == Drop(mem, [lp])
  {
    var s := {lp};
    assert s == set x | x in [lp];
    mem' := Mem(Links(mem.links.forw - s, mem.links.back - s), mem.place - s, mem.next);
  }

  lemma DropTwice(mem: Mem, a: seq<Id>, b: seq<Id>)
    ensures Drop(Drop(mem, a), b) == Drop(mem, a + b)
  {
    var sa, sb := set x | x in a, set x | x in b;
    assert (set x | x in a + b) == sa + sb;
  }

  lemma DropNone(mem: Mem)
    ensures Drop(mem, []) == mem
  {
  }

  lemma NulledNone(s: seq<Ptr>)
    ensures Nulled(s, []) == s
  {
  }

  lemma ChainKept(l: Links, gone: seq<Id>, m: seq<Id>)
    requires Chain(l, m) && m != [] && forall j :: 0 <= j < |m| ==> m[j] !in gone
    ensures Chain(DropLinks(l, gone), m)
    ensures DropLinks(l, gone).forw[m[|m| - 1]] == l.forw[m[|m| - 1]]
  {
  }

  /** The inner loop of clear_undo_stack: the run m is unmarked and freed, node by node. */
  method FreeRun(mem: Mem, mark: seq<Ptr>, markno: nat, h: Id, t: Id, ghost m: seq<Id>)
    returns (mem': Mem, mark': seq<Ptr>, markno': nat)
    requires m != [] && h == m[0] && t == m[|m| - 1] && Distinct(m) && Chain(mem.links, m)
    requires mem.links.forw[t] !in m && markno == Used(mark)
    ensures mem' == Drop(mem, m) && mark' == Nulled(mark, m) && markno' == Used(mark')
  {
    mem', mark', markno' := mem, mark, markno;
    var ep, lp := mem.links.forw[t], h;
    ghost var i := 0;
    DropNone(mem);
    NulledNone(mark);
    assert m[..0] == [];
    while lp != ep
      invariant i <= |m| && lp == (if i < |m| then m[i] else ep)
      invariant mem' == Drop(mem, m[..i]) && mark' == Nulled(mark, m[..i]) && markno' == Used(mark')
      decreases |m| - i
    {
      NotBefore(m, i);
      mark', markno' := Unmark(mark', markno', lp);
      var tl := mem'.links.forw[lp];
      mem' := Free(mem', lp);
      DropTwice(mem, m[..i], [lp]);
      EdGlobal.NulledTwice(mark, m[..i], [lp]);
      assert m[..i + 1] == m[..i] + [lp];
      lp := tl;
      i := i + 1;
    }
    assert m[..|m|] == m;
  }

  lemma NotBefore(m: seq<Id>, i: nat)
    requires Distinct(m) && i < |m|
    ensures m[i] !in m[..i]
  {
    forall j | 0 <= j < i
      ensures m[..i][j] != m[i]
    {
      Differ(m, j, i);
    }
  }

  /** What leaves the ring between times k and k + 1 is the run of a UDEL entry. */
  lemma StepFrees(steps: seq<Step>, hist: seq<seq<Id>>, k: nat, x: Id)
    requires Recorded(steps, hist) && k < |steps|
    ensures x in hist[k] && x !in hist[k + 1] <==>
            steps[k].One? && steps[k].e.kind == UDEL && x in steps[k].m
  {
    assert Leads(steps, hist, k);
    var s := steps[k];
    match s
    case One(e, z, at, m) =>
      InsShape(z, at, m);
      InsMembers(z, at, m, x);
    case Two(_, _, z, from, to, m) =>
      InsMembers(z, from, m, x);
      InsMembers(z, to, m, x);
  }

  lemma InsMembers(z: seq<Id>, at: nat, m: seq<Id>, x: Id)
    requires at < |z|
    ensures x in Ins(z, at, m) <==> x in z || x in m
  {
    var r := Ins(z, at, m);
    InsIndex(z, at, m);
    if x in z {
      var i :| 0 <= i < |z| && z[i] == x;
      assert r[if i <= at then i else i + |m|] == x;
    }
    if x in m {
      var j :| 0 <= j < |m| && m[j] == x;
      assert r[at + 1 + j] == x;
    }
  }

  // ----- the outer loop

  /** Once the entries from step k on are done, exactly the nodes they own are freed. */
  ghost predicate GoneAt(l: Links, hist: seq<seq<Id>>, k: nat, gone: seq<Id>, x: Id)
    requires k < |hist|
  {
    x in gone <==> x in l.forw && !Alive(hist, k, x)
  }

  ghost predicate Clearing(l: Links, hist: seq<seq<Id>>, k: nat, gone: seq<Id>) {
    && k < |hist| && Distinct(gone)
    && (forall x: Id {:trigger GoneAt(l, hist, k, gone, x)} :: GoneAt(l, hist, k, gone, x))
  }

  /** The nodes that clearing step k frees. */
  function Frees(s: Step): seq<Id> {
    if s.One? && s.e.kind == UDEL then s.m else []
  }

  lemma {:induction false} LastOn(hist: seq<seq<Id>>, j: nat, x: Id) returns (k: nat)
    requires j + 1 < |hist| && x in hist[j] && x !in hist[|hist| - 1]
    ensures j <= k && k + 1 < |hist| && x in hist[k] && x !in hist[k + 1]
    decreases |hist| - j
  {
    if x in hist[j + 1] {
      k := LastOn(hist, j + 1, x);
    } else {
      k := j;
    }
  }

  /** The entry at step k owns x. */
  predicate Owns(steps: seq<Step>, k: nat, x: Id) {
    k < |steps| && x in Frees(steps[k])
  }

  /** A node leaves the ring with its owner and stays away. */
  lemma OwnsUntil(steps: seq<Step>, hist: seq<seq<Id>>, k: nat, x: Id)
    requires Recorded(steps, hist) && Owns(steps, k, x)
    ensures x in hist[k] && forall i :: k < i < |hist| ==> x !in hist[i]
  {
    StepFrees(steps, hist, k, x);
    assert x !in hist[k + 1];
  }

  /** Every allocated node off the ring is owned by exactly one entry of the undo stack, a
      deletion, and nothing else is owned: no node is forgotten and none is freed twice. */
  lemma OwnedOnce(l: Links, us: seq<EdHistory.Undo>, steps: seq<Step>, hist: seq<seq<Id>>, ring: seq<Id>, x: Id)
    requires History(l, us, steps, hist, ring)
    ensures x in l.forw && x !in ring <==> exists k: nat :: Owns(steps, k, x)
    ensures forall j: nat, k: nat :: Owns(steps, j, x) && Owns(steps, k, x) ==> j == k
  {
    hide Linked, Leads, Shape, Interval, Owns;
    assert Owned(l, hist, x);
    forall k: nat | Owns(steps, k, x)
      ensures k < |steps| && x in hist[k] && forall i :: k < i < |hist| ==> x !in hist[i]
    {
      OwnsUntil(steps, hist, k, x);
      OwnsBound(steps, k, x);
    }
    if x in l.forw && x !in ring {
      var j :| 0 <= j < |hist| && x in hist[j];
      var k := LastOn(hist, j, x);
      OwnsLast(steps, hist, k, x);
    }
    if k: nat :| Owns(steps, k, x) {
      assert x in hist[k] && InSome(hist, x);
    }
  }

  lemma OwnsBound(steps: seq<Step>, k: nat, x: Id)
    requires Owns(steps, k, x)
    ensures k < |steps|
  {
  }

  lemma OwnsLast(steps: seq<Step>, hist: seq<seq<Id>>, k: nat, x: Id)
    requires Recorded(steps, hist) && k < |steps| && x in hist[k] && x !in hist[k + 1]
    ensures Owns(steps, k, x)
  {
    StepFrees(steps, hist, k, x);
  }

  lemma ClearingStart(l: Links, us: seq<EdHistory.Undo>, v: View)
    requires History(l, us, v.steps, v.hist, v.ring)
    ensures Clearing(l, v.hist, |v.steps|, [])
  {
    forall x: Id
      ensures GoneAt(l, v.hist, |v.steps|, [], x)
    {
      assert Owned(l, v.hist, x);
      AliveAtTop(v.hist, x);
    }
  }

  lemma DistinctConcat(a: seq<Id>, b: seq<Id>)
    requires Distinct(a) && Distinct(b) && forall j :: 0 <= j < |b| ==> b[j] !in a
    ensures Distinct(a + b)
  {
    var c := a + b;
    forall i, j | 0 <= i < j < |c|
      ensures Apart(c, i, j)
    {
      if j < |a| {
        Differ(a, i, j);
      } else if |a| <= i {
        Differ(b, i - |a|, j - |a|);
      } else {
        assert c[i] == a[i] && c[j] == b[j - |a|];
      }
    }
  }

  /** The run of a UDEL entry is still allocated, and is freed only once. */
  lemma FreesNew(l: Links, us: seq<EdHistory.Undo>, v: View, k: nat, gone: seq<Id>)
    requires History(l, us, v.steps, v.hist, v.ring) && k < |v.steps| && Clearing(l, v.hist, k + 1, gone)
    ensures Distinct(Frees(v.steps[k])) && forall j :: 0 <= j < |Frees(v.steps[k])| ==> Frees(v.steps[k])[j] !in gone
  {
    assert Leads(v.steps, v.hist, k);
    var m := Frees(v.steps[k]);
    if m != [] {
      InsShape(v.steps[k].z, v.steps[k].at, m);
    }
    forall j | 0 <= j < |m|
      ensures m[j] !in gone
    {
      StepFrees(v.steps, v.hist, k, m[j]);
      AliveStep(v.hist, k, m[j]);
      assert GoneAt(l, v.hist, k + 1, gone, m[j]);
    }
  }

  lemma ClearingStep(l: Links, us: seq<EdHistory.Undo>, v: View, k: nat, gone: seq<Id>)
    requires History(l, us, v.steps, v.hist, v.ring) && k < |v.steps| && Clearing(l, v.hist, k + 1, gone)
    ensures Clearing(l, v.hist, k, gone + Frees(v.steps[k]))
  {
    var m := Frees(v.steps[k]);
    FreesNew(l, us, v, k, gone);
    DistinctConcat(gone, m);
    var gone' := gone + m;
    forall x: Id
      ensures GoneAt(l, v.hist, k, gone', x)
    {
      StepFrees(v.steps, v.hist, k, x);
      AliveStep(v.hist, k, x);
      assert GoneAt(l, v.hist, k + 1, gone, x);
      assert Owned(l, v.hist, x);
      if x in v.hist[k] {
        assert InSome(v.hist, x);
      }
    }
  }

  lemma RunReady(l: Links, us: seq<EdHistory.Undo>, v: View, k: nat, gone: seq<Id>)
    requires History(l, us, v.steps, v.hist, v.ring) && k < |v.steps| && Clearing(l, v.hist, k + 1, gone)
    requires v.steps[k].One? && v.steps[k].e.kind == UDEL
    ensures var s, l' := v.steps[k], DropLinks(l, gone);
            && s.m != [] && s.e.h == s.m[0] && s.e.t == s.m[|s.m| - 1] && Distinct(s.m)
            && Chain(l', s.m) && l'.forw[s.e.t] !in s.m
  {
    assert Leads(v.steps, v.hist, k);
    FreesNew(l, us, v, k, gone);
    DetachedRun(l, v.steps, v.hist, |v.steps|, k);
    var One(e, z, at, m) := v.steps[k];
    InsShape(z, at, m);
    ChainKept(l, gone, m);
  }

  /** The stack still to be cleared: the entries of the first k steps, and, between the two
      entries of a move, the lower one of step k. */
  ghost predicate Unpopped(us: seq<EdHistory.Undo>, n: nat, steps: seq<Step>, k: nat, mid: bool) {
    && n <= |us| && k <= |steps| && (mid ==> k < |steps| && steps[k].Two?)
    && us[..n] == Flat(steps[..k]) + (if mid then [steps[k].e0] else [])
  }

  /** Popping one entry. */
  lemma Popped(us: seq<EdHistory.Undo>, n: nat, steps: seq<Step>, k: nat, mid: bool)
    requires Unpopped(us, n, steps, k, mid) && n != 0
    ensures if mid then k < |steps| && steps[k].Two? && us[n - 1] == steps[k].e0 && Unpopped(us, n - 1, steps, k, false)
            else && k != 0 && us[n - 1] == Entries(steps[k - 1])[|Entries(steps[k - 1])| - 1]
                 && Unpopped(us, n - 1, steps, k - 1, steps[k - 1].Two?)
  {
    assert us[n - 1] == us[..n][n - 1] && us[..n - 1] == us[..n][..n - 1];
    if !mid {
      assert steps[..k][..k - 1] == steps[..k - 1];
    }
  }

  lemma {:induction false} KindOfStep(steps: seq<Step>, hist: seq<seq<Id>>, k: nat)
    requires Recorded(steps, hist) && k < |steps|
    ensures match steps[k]
            case One(e, _, _, _) => e.kind == UADD || e.kind == UDEL
            case Two(e0, e1, _, _, _, _) => e0.kind != UDEL && e1.kind != UDEL
  {
    assert Leads(steps, hist, k);
  }

  /** One pass of the outer loop over the UDEL entry of step k. */
  method ClearRun(e: Ed, ghost v: View, mem: Mem, mark: seq<Ptr>, markno: nat, u: EdHistory.Undo, ghost k: nat, ghost gone: seq<Id>)
    returns (mem': Mem, mark': seq<Ptr>, markno': nat, ghost gone': seq<Id>)
    requires History(e.mem.links, e.ustack, v.steps, v.hist, v.ring) && k < |v.steps|
    requires Clearing(e.mem.links, v.hist, k + 1, gone)
    requires mem == Drop(e.mem, gone) && mark == Nulled(e.mark, gone) && markno == Used(mark)
    requires v.steps[k].One? && u == v.steps[k].e && u.kind == UDEL
    ensures Clearing(e.mem.links, v.hist, k, gone')
    ensures mem' == Drop(e.mem, gone') && mark' == Nulled(e.mark, gone') && markno' == Used(mark')
  {
    ClearingStep(e.mem.links, e.ustack, v, k, gone);
    RunReady(e.mem.links, e.ustack, v, k, gone);
    DropTwice(e.mem, gone, v.steps[k].m);
    EdGlobal.NulledTwice(e.mark, gone, v.steps[k].m);
    mem', mark', markno' := FreeRun(mem, mark, markno, u.h, u.t, v.steps[k].m);
    gone' := gone + v.steps[k].m;
  }

  /** A pass over any other entry frees nothing. */
  lemma ClearNothing(l: Links, us: seq<EdHistory.Undo>, v: View, k: nat, gone: seq<Id>)
    requires History(l, us, v.steps, v.hist, v.ring) && k < |v.steps| && Clearing(l, v.hist, k + 1, gone)
    requires v.steps[k].One? ==> v.steps[k].e.kind != UDEL
    ensures Clearing(l, v.hist, k, gone)
  {
    ClearingStep(l, us, v, k, gone);
    assert gone + [] == gone;
  }

  /** The outer loop of clear_undo_stack: gone lists the nodes in the order they are freed. */
  method ClearEntries(e: Ed, ghost v: View) returns (mem: Mem, mark: seq<Ptr>, markno: nat, ghost gone: seq<Id>)
    requires History(e.mem.links, e.ustack, v.steps, v.hist, v.ring) && e.markno == Used(e.mark)
    ensures Clearing(e.mem.links, v.hist, 0, gone)
    ensures mem == Drop(e.mem, gone) && mark == Nulled(e.mark, gone) && markno == Used(mark)
  {
    hide Clearing, Drop, Nulled, Used, Unpopped, Linked, Flat;
    mem, mark, markno, gone := e.mem, e.mark, e.markno, [];
    DropNone(mem);
    NulledNone(mark);
    HistorySize(e.mem.links, e.ustack, v);
    UnpoppedStart(e.ustack, v.steps);
    ClearingStart(e.mem.links, e.ustack, v);
    var n: nat := |e.ustack|;
    ghost var k: nat, mid := |v.steps|, false;
    while n != 0
      invariant Unpopped(e.ustack, n, v.steps, k, mid) && k < |v.hist| && Clearing(e.mem.links, v.hist, k, gone)
      invariant mem == Drop(e.mem, gone) && mark == Nulled(e.mark, gone) && markno == Used(mark)
      decreases n
    {
      Popped(e.ustack, n, v.steps, k, mid);
      n := n - 1;
      var u := e.ustack[n];
      KindOfStep(v.steps, v.hist, if mid then k else k - 1);
      if u.kind == UDEL {
        mem, mark, markno, gone := ClearRun(e, v, mem, mark, markno, u, k - 1, gone);
        k := k - 1;
      } else if mid {
        mid := false;
      } else {
        ClearNothing(e.mem.links, e.ustack, v, k - 1, gone);
        k, mid := k - 1, v.steps[k - 1].Two?;
      }
    }
    Emptied(e.ustack, v.steps, k, mid);
  }

  lemma UnpoppedStart(us: seq<EdHistory.Undo>, steps: seq<Step>)
    requires us == Flat(steps)
    ensures Unpopped(us, |us|, steps, |steps|, false)
  {
    assert us[..|us|] == us && steps[..|steps|] == steps;
  }

  lemma HistorySize(l: Links, us: seq<EdHistory.Undo>, v: View)
    requires History(l, us, v.steps, v.hist, v.ring)
    ensures us == Flat(v.steps) && |v.hist| == |v.steps| + 1
  {
  }

  lemma Emptied(us: seq<EdHistory.Undo>, steps: seq<Step>, k: nat, mid: bool)
    requires Unpopped(us, 0, steps, k, mid)
    ensures k == 0
  {
    FlatEmpty(steps[..k]);
  }

  /** The view after clearing: nothing to undo, and only the lines of the buffer left. */
  ghost function Settled(v: View, gone: seq<Id>): View {
    View(v.ring, [], [v.ring], v.text - (set x | x in gone))
  }

  /** gone is exactly what is allocated but not on the ring. */
  ghost predicate OffRing(l: Links, ring: seq<Id>, gone: seq<Id>, x: Id) {
    x in gone <==> x in l.forw && x !in ring
  }

  lemma ClearedAll(l: Links, us: seq<EdHistory.Undo>, v: View, gone: seq<Id>)
    requires History(l, us, v.steps, v.hist, v.ring) && Clearing(l, v.hist, 0, gone)
    ensures Distinct(gone)
    ensures forall x: Id {:trigger OffRing(l, v.ring, gone, x)} :: OffRing(l, v.ring, gone, x)
  {
    forall x: Id
      ensures OffRing(l, v.ring, gone, x)
    {
      assert GoneAt(l, v.hist, 0, gone, x);
    }
  }

  lemma SettledRing(l: Links, ring: seq<Id>, gone: seq<Id>)
    requires Ring(l, ring) && forall x: Id {:trigger OffRing(l, ring, gone, x)} :: OffRing(l, ring, gone, x)
    ensures Ring(DropLinks(l, gone), ring)
  {
    forall i | 0 <= i < |ring|
      ensures At(DropLinks(l, gone), ring, i)
    {
      assert At(l, ring, i) && OffRing(l, ring, gone, ring[i]) && ring[i] in ring;
    }
  }

  lemma SettledHistory(l: Links, ring: seq<Id>, gone: seq<Id>)
    requires Ring(l, ring) && forall x: Id {:trigger OffRing(l, ring, gone, x)} :: OffRing(l, ring, gone, x)
    ensures History(DropLinks(l, gone), [], [], [ring], ring)
  {
    var l', hist := DropLinks(l, gone), [ring];
    SettledRing(l, ring, gone);
    forall k, i | 0 <= k < |hist| && 0 <= i < |hist[k]|
      ensures At(l', hist[k], i)
    {
      assert At(l', ring, i);
    }
    forall x: Id
      ensures Owned(l', hist, x)
    {
      assert OffRing(l, ring, gone, x);
      if x in ring {
        RingAllocated(l, ring, x);
        assert x in hist[0];
      }
    }
  }

  lemma SettledNodes(mem: Mem, text: map<Id, string>, file: string, gone: seq<Id>)
    requires Nodes(mem, text, file) && HEAD !in gone
    ensures Nodes(Drop(mem, gone), text - (set x | x in gone), file)
  {
    var mem', text' := Drop(mem, gone), text - (set x | x in gone);
    forall x: Id
      ensures Below(mem'.links, mem'.next, x)
    {
      assert Below(mem.links, mem.next, x);
    }
    forall x | x in text'
      ensures TextAt(file, mem'.place, text', x)
    {
      assert TextAt(file, mem.place, text, x);
    }
  }

  /** e' is e after clear_undo_stack has freed gone. */
  ghost predicate ClearedTo(e: Ed, e': Ed, gone: seq<Id>) {
    && e' == e.(mem := Drop(e.mem, gone), mark := Nulled(e.mark, gone), markno := e'.markno, ustack := [],
                uCurrentAddr := e.currentAddr, uAddrLast := e.addrLast)
    && e'.markno == Used(e'.mark)
  }

  lemma ClearedValid(e: Ed, v: View, e': Ed, gone: seq<Id>)
    requires Valid(e, v) && ClearedTo(e, e', gone)
    requires forall x: Id {:trigger OffRing(e.mem.links, v.ring, gone, x)} :: OffRing(e.mem.links, v.ring, gone, x)
    ensures Valid(e', Settled(v, gone))
  {
    hide Recorded, Linked, Nodes, Flat;
    SettledRing(e.mem.links, v.ring, gone);
    SettledHistory(e.mem.links, v.ring, gone);
    assert OffRing(e.mem.links, v.ring, gone, HEAD) && v.ring[0] in v.ring;
    SettledNodes(e.mem, v.text, e.sb.file, gone);
  }

  /** A mark is left if and only if its line is in the buffer. */
  lemma ClearedMarks(e: Ed, v: View, gone: seq<Id>)
    requires MarksOk(e.mark, e.markno, v.text) && Nodes(e.mem, v.text, e.sb.file) && Ring(e.mem.links, v.ring)
    requires forall x: Id {:trigger OffRing(e.mem.links, v.ring, gone, x)} :: OffRing(e.mem.links, v.ring, gone, x)
    ensures MarksOf(Nulled(e.mark, gone)) == MarksIn(MarksOf(e.mark), LinesOf(v.ring, v.text))
  {
    var marks, ids := MarksOf(e.mark), Ids(LinesOf(v.ring, v.text));
    IdsOfRing(v.ring, v.text);
    forall i | 0 <= i < |e.mark| && e.mark[i].To?
      ensures e.mark[i].id in gone <==> e.mark[i].id !in ids
    {
      var x := e.mark[i].id;
      assert OffRing(e.mem.links, v.ring, gone, x);
      NodesOnly(e.mem, v.text, e.sb.file, x);
      assert v.ring == [v.ring[0]] + v.ring[1..];
    }
  }

  lemma NodesOnly(mem: Mem, text: map<Id, string>, file: string, x: Id)
    requires Nodes(mem, text, file) && x in text
    ensures x in mem.links.forw && x != HEAD
  {
  }

  lemma IdsOfRing(r: seq<Id>, text: map<Id, string>)
    requires r != []
    ensures Ids(LinesOf(r, text)) == r[1..]
  {
  }

  lemma ClearedAbs(e: Ed, v: View, e': Ed, gone: seq<Id>)
    requires AbsOk(e, v) && ClearedTo(e, e', gone) && AbsOk(e', Settled(v, gone))
    requires MarksOf(e'.mark) == MarksIn(MarksOf(e.mark), LinesOf(v.ring, v.text))
    requires forall x: Id {:trigger OffRing(e.mem.links, v.ring, gone, x)} :: OffRing(e.mem.links, v.ring, gone, x)
    ensures Abs(e', Settled(v, gone)) == Save(Abs(e, v), false)
  {
    var text' := Settled(v, gone).text;
    forall i | 0 <= i < |v.ring|
      ensures SameText(v.text, text', v.ring[i])
    {
      assert OffRing(e.mem.links, v.ring, gone, v.ring[i]) && v.ring[i] in v.ring;
    }
    LinesSame(v.ring, v.text, text');
  }

  /** clear_undo_stack: every detached node is freed, once, and no other one. */
  method ClearUndo(e: Ed, ghost v: View) returns (e': Ed, ghost v': View, ghost gone: seq<Id>)
    requires Valid(e, v)
    ensures Valid(e', v') && Abs(e', v') == Save(Abs(e, v), false) && e'.isglobal == e.isglobal
    ensures e'.activeList == e.activeList && e'.activePtr == e.activePtr && v'.ring == v.ring
    ensures e'.mem == Drop(e.mem, gone) && Distinct(gone)
    ensures forall x :: x in gone <==> x in e.mem.links.forw && x !in v.ring
  {
    var mem, mark, markno;
    mem, mark, markno, gone := ClearEntries(e, v);
    e' := e.(mem := mem, mark := mark, markno := markno, ustack := [], uCurrentAddr := e.currentAddr, uAddrLast := e.addrLast);
    ClearedAll(e.mem.links, e.ustack, v, gone);
    ClearedValid(e, v, e', gone);
    ClearedMarks(e, v, gone);
    ClearedAbs(e, v, e', gone);
    v' := Settled(v, gone);
    forall x: Id
      ensures x in gone <==> x in e.mem.links.forw && x !in v.ring
    {
      assert OffRing(e.mem.links, v.ring, gone, x);
    }
  }
}
