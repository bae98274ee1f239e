/** The line ring of `ed`: nodes are identified by numbers, `forw` and `back` are the
    `q_forw` and `q_back` fields of every allocated node, and `REQUE` is the only
    primitive that changes them.  A ring is described by the sequence of its nodes,
    the sentinel `buffer_head` first. */
module EdLinks {

  type Id = nat

  /** The sentinel `buffer_head`. */
  const HEAD: Id := 0

  datatype Links = Links(forw: map<Id, Id>, back: map<Id, Id>)

  predicate Allocated(l: Links, x: Id) {
    x in l.forw && x in l.back
  }

  /** Every allocated node has a number below next. */
  predicate Below(l: Links, next: Id, x: Id) {
    x in l.forw ==> x < next
  }

  ghost predicate AllBelow(l: Links, next: Id) {
    forall x: Id {:trigger Below(l, next, x)} :: Below(l, next, x)
  }

  /** REQUE: link pred before succ.  (The editor's methods prove both allocated.) */
  function Reque(l: Links, pred: Id, succ: Id): Links {
    Links(l.forw[pred := succ], l.back[succ := pred])
  }

  /** INC_MOD and DEC_MOD on the positions of a ring of n nodes. */
  function Succ(i: nat, n: nat): nat
    requires i < n
  {
    if i + 1 == n then 0 else i + 1
  }

  function Pred(i: nat, n: nat): nat
    requires i < n
  {
    if i == 0 then n - 1 else i - 1
  }

  /** The i-th node of r carries, in l, the pointers it has on the ring r. */
  predicate At(l: Links, r: seq<Id>, i: nat)
    requires i < |r|
  {
    && Allocated(l, r[i])
    && l.forw[r[i]] == r[Succ(i, |r|)]
    && l.back[r[i]] == r[Pred(i, |r|)]
  }

  predicate Apart(r: seq<Id>, i: nat, j: nat)
    requires i < |r| && j < |r|
  {
    r[i] != r[j]
  }

  ghost predicate Distinct(r: seq<Id>) {
    forall i, j {:trigger Apart(r, i, j)} :: 0 <= i < j < |r| ==> Apart(r, i, j)
  }

  lemma Differ(r: seq<Id>, i: nat, j: nat)
    requires Distinct(r) && i < |r| && j < |r|
    ensures r[i] == r[j] <==> i == j
  {
    if i < j {
      assert Apart(r, i, j);
    } else if j < i {
      assert Apart(r, j, i);
    }
  }

  /** r is a ring in shape: the sentinel followed by different nodes. */
  ghost predicate Shape(r: seq<Id>) {
    r != [] && r[0] == HEAD && Distinct(r)
  }

  /** l links exactly r into a circular doubly linked list. */
  ghost predicate Ring(l: Links, r: seq<Id>) {
    Shape(r) && forall i :: 0 <= i < |r| ==> At(l, r, i)
  }

  /** The ring z with the nodes m spliced in behind position at. */
  function Ins(z: seq<Id>, at: nat, m: seq<Id>): seq<Id>
    requires at < |z|
  {
    z[..at + 1] + m + z[at + 1..]
  }

  /** The inner pointers of a run of nodes. */
  ghost predicate Chain(l: Links, m: seq<Id>) {
    && (forall j :: 0 <= j < |m| ==> Allocated(l, m[j]))
    && (forall j :: 0 < j < |m| ==> l.forw[m[j - 1]] == m[j] && l.back[m[j]] == m[j - 1])
  }

  /** x carries the same pointers in l and l'. */
  predicate SameAt(l: Links, l': Links, x: Id) {
    && (x in l.forw <==> x in l'.forw) && (x in l.back <==> x in l'.back)
    && (x in l.forw ==> l'.forw[x] == l.forw[x]) && (x in l.back ==> l'.back[x] == l.back[x])
  }

  /** l' differs from l at most in nodes of r. */
  ghost predicate SameOutside(l: Links, l': Links, r: seq<Id>) {
    forall x: Id {:trigger SameAt(l, l', x)} :: x !in r ==> SameAt(l, l', x)
  }

  lemma RequeSame(l: Links, pred: Id, succ: Id, r: seq<Id>)
    requires pred in r && succ in r
    ensures SameOutside(l, Reque(l, pred, succ), r)
  {
  }

  lemma SameTrans(l: Links, l1: Links, l2: Links, r1: seq<Id>, r2: seq<Id>)
    requires SameOutside(l, l1, r1) && SameOutside(l1, l2, r2)
    requires forall x :: x in r1 ==> x in r2
    ensures SameOutside(l, l2, r2)
  {
    forall x | x !in r2
      ensures SameAt(l, l2, x)
    {
      assert SameAt(l, l1, x) && SameAt(l1, l2, x);
    }
  }

  lemma RequeCommute(l: Links, p: Id, s: Id, p': Id, s': Id)
    requires p != p' && s != s'
    ensures Reque(Reque(l, p, s), p', s') == Reque(Reque(l, p', s'), p, s)
  {
  }

  /** A ring none of whose nodes is touched stays a ring. */
  lemma RingKept(l: Links, l': Links, r: seq<Id>, other: seq<Id>)
    requires Ring(l, r) && SameOutside(l, l', other) && forall x :: x in r ==> x !in other
    ensures Ring(l', r)
  {
    forall i | 0 <= i < |r|
      ensures At(l', r, i)
    {
      assert At(l, r, i) && r[i] in r && SameAt(l, l', r[i]);
    }
  }

  lemma RingAllocated(l: Links, r: seq<Id>, x: Id)
    requires Ring(l, r) && x in r
    ensures Allocated(l, x)
  {
    var i :| 0 <= i < |r| && r[i] == x;
    assert At(l, r, i);
  }

  /** Where the nodes of a spliced ring come from. */
  lemma InsIndex(z: seq<Id>, at: nat, m: seq<Id>)
    requires at < |z|
    ensures |Ins(z, at, m)| == |z| + |m|
    ensures forall i :: 0 <= i <= at ==> Ins(z, at, m)[i] == z[i]
    ensures forall i :: at < i <= at + |m| ==> Ins(z, at, m)[i] == m[i - at - 1]
    ensures forall i :: at + |m| < i < |z| + |m| ==> Ins(z, at, m)[i] == z[i - |m|]
  {
  }

  lemma InsShape(z: seq<Id>, at: nat, m: seq<Id>)
    requires at < |z| && Shape(Ins(z, at, m))
    ensures Shape(z) && Distinct(m)
    ensures forall j :: 0 <= j < |m| ==> m[j] !in z
  {
    var r := Ins(z, at, m);
    InsIndex(z, at, m);
    forall i, j | 0 <= i < j < |z|
      ensures Apart(z, i, j)
    {
      Differ(r, if i <= at then i else i + |m|, if j <= at then j else j + |m|);
    }
    forall i, j | 0 <= i < j < |m|
      ensures Apart(m, i, j)
    {
      Differ(r, at + 1 + i, at + 1 + j);
    }
    forall j, i | 0 <= j < |m| && 0 <= i < |z|
      ensures m[j] != z[i]
    {
      Differ(r, at + 1 + j, if i <= at then i else i + |m|);
    }
  }

  lemma InsFresh(z: seq<Id>, at: nat, m: seq<Id>)
    requires at < |z| && Shape(z) && Distinct(m) && forall j :: 0 <= j < |m| ==> m[j] !in z
    ensures Shape(Ins(z, at, m))
  {
    var r := Ins(z, at, m);
    InsIndex(z, at, m);
    forall i, j | 0 <= i < j < |r|
      ensures Apart(r, i, j)
    {
      var zi, zj := if i <= at then i else i - |m|, if j <= at then j else j - |m|;
      if !(at < i <= at + |m|) && !(at < j <= at + |m|) {
        Differ(z, zi, zj);
      } else if at < i && j <= at + |m| {
        Differ(m, i - at - 1, j - at - 1);
      }
    }
  }

  /** Splicing twice in a row is splicing the longer run. */
  lemma InsIns(z: seq<Id>, at: nat, m: seq<Id>, m': seq<Id>)
    requires at < |z|
    ensures |Ins(z, at, m)| == |z| + |m|
    ensures Ins(Ins(z, at, m), at + |m|, m') == Ins(z, at, m + m')
  {
  }

  /** The two REQUEs that splice m in behind position at. */
  function Spliced(l: Links, z: seq<Id>, at: nat, m: seq<Id>): Links
    requires at < |z| && m != []
  {
    Reque(Reque(l, z[at], m[0]), m[|m| - 1], z[Succ(at, |z|)])
  }

  lemma SplicedOld(l: Links, z: seq<Id>, at: nat, m: seq<Id>, i: nat)
    requires Ring(l, z) && at < |z| && m != [] && Shape(Ins(z, at, m)) && i < |z|
    ensures |Ins(z, at, m)| == |z| + |m|
    ensures At(Spliced(l, z, at, m), Ins(z, at, m), if i <= at then i else i + |m|)
  {
    hide Shape, Ins;
    InsIndex(z, at, m);
    InsShape(z, at, m);
    assert At(l, z, i);
    assert z[i] != m[0] && z[i] != m[|m| - 1];
    Differ(z, i, at);
    Differ(z, i, Succ(at, |z|));
  }

  lemma SplicedNew(l: Links, z: seq<Id>, at: nat, m: seq<Id>, j: nat)
    requires Ring(l, z) && at < |z| && m != [] && Chain(l, m) && Shape(Ins(z, at, m)) && j < |m|
    ensures |Ins(z, at, m)| == |z| + |m|
    ensures At(Spliced(l, z, at, m), Ins(z, at, m), at + 1 + j)
  {
    InsIndex(z, at, m);
    InsShape(z, at, m);
    assert m[j] != z[at] && m[j] != z[Succ(at, |z|)];
    Differ(m, j, 0);
    Differ(m, j, |m| - 1);
    assert 0 < j ==> l.back[m[j]] == m[j - 1];
    assert j + 1 < |m| ==> l.forw[m[j]] == m[j + 1];
  }

  lemma SplicedSame(l: Links, z: seq<Id>, at: nat, m: seq<Id>)
    requires at < |z| && m != []
    ensures SameOutside(l, Spliced(l, z, at, m), Ins(z, at, m))
  {
    var r, l1 := Ins(z, at, m), Reque(l, z[at], m[0]);
    assert r[at] == z[at] && r[at + 1] == m[0] && r[at + |m|] == m[|m| - 1];
    assert r[Succ(at + |m|, |r|)] == z[Succ(at, |z|)];
    RequeSame(l, z[at], m[0], r);
    RequeSame(l1, m[|m| - 1], z[Succ(at, |z|)], r);
    SameTrans(l, l1, Spliced(l, z, at, m), r, r);
  }

  /** Splicing a chain in with two REQUEs yields the longer ring. */
  lemma InsertLinks(l: Links, z: seq<Id>, at: nat, m: seq<Id>)
    requires Ring(l, z) && at < |z| && m != [] && Chain(l, m) && Shape(Ins(z, at, m))
    ensures Ring(Spliced(l, z, at, m), Ins(z, at, m))
    ensures SameOutside(l, Spliced(l, z, at, m), Ins(z, at, m))
  {
    var r, l' := Ins(z, at, m), Spliced(l, z, at, m);
    forall i | 0 <= i < |r|
      ensures At(l', r, i)
    {
      if i <= at {
        SplicedOld(l, z, at, m, i);
      } else if i <= at + |m| {
        SplicedNew(l, z, at, m, i - at - 1);
      } else {
        SplicedOld(l, z, at, m, i - |m|);
      }
    }
    SplicedSame(l, z, at, m);
  }

  /** Bypassing a run with one REQUE yields the shorter ring. */
  lemma RemoveLinks(l: Links, z: seq<Id>, at: nat, m: seq<Id>)
    requires at < |z| && Ring(l, Ins(z, at, m)) && m != []
    ensures var l' := Reque(l, z[at], z[Succ(at, |z|)]);
            Ring(l', z) && SameOutside(l, l', z)
  {
    var r := Ins(z, at, m);
    var l' := Reque(l, z[at], z[Succ(at, |z|)]);
    InsIndex(z, at, m);
    InsShape(z, at, m);
    forall i | 0 <= i < |z|
      ensures At(l', z, i)
    {
      Differ(z, i, at);
      Differ(z, i, Succ(at, |z|));
      if i <= at {
        assert At(l, r, i);
      } else {
        assert At(l, r, i + |m|);
      }
    }
  }

  /** The run itself keeps its inner pointers as long as its own nodes are left alone. */
  lemma RunIsChain(l: Links, z: seq<Id>, at: nat, m: seq<Id>)
    requires at < |z|
    requires forall j :: at < j <= at + |m| ==> At(l, Ins(z, at, m), j)
    ensures Chain(l, m)
  {
    var r := Ins(z, at, m);
    InsIndex(z, at, m);
    forall j | 0 <= j < |m|
      ensures Allocated(l, m[j])
    {
      assert At(l, r, at + 1 + j);
    }
    forall j | 0 < j < |m|
      ensures l.forw[m[j - 1]] == m[j] && l.back[m[j]] == m[j - 1]
    {
      assert At(l, r, at + 1 + j);
      assert At(l, r, at + j);
    }
  }

  /** A run moved with the three REQUEs of move_lines. */
  lemma MoveLinks(l: Links, z: seq<Id>, from: nat, to: nat, m: seq<Id>)
    requires from < |z| && to < |z| && from != to && m != []
    requires Ring(l, Ins(z, from, m)) && Shape(Ins(z, to, m))
    ensures var b1, a1, b2, a2 := z[from], z[Succ(from, |z|)], z[to], z[Succ(to, |z|)];
            var l' := Reque(Reque(Reque(l, b2, m[0]), m[|m| - 1], a2), b1, a1);
            Ring(l', Ins(z, to, m)) && SameOutside(l, l', Ins(z, to, m))
  {
    var b1, a1, b2, a2 := z[from], z[Succ(from, |z|)], z[to], z[Succ(to, |z|)];
    var l1 := Reque(l, b1, a1);
    RemoveLinks(l, z, from, m);
    RunIsChain(l, z, from, m);
    InsShape(z, to, m);
    InsertLinks(l1, z, to, m);
    Differ(z, from, to);
    Differ(z, Succ(from, |z|), Succ(to, |z|));
    RequeCommute(Reque(l, b2, m[0]), m[|m| - 1], a2, b1, a1);
    RequeCommute(l, b2, m[0], b1, a1);
  }

  // ----- the REQUEs of pop_undo_stack, with the neighbours read from the nodes themselves

  lemma UndoAddLinks(l: Links, z: seq<Id>, at: nat, m: seq<Id>)
    requires at < |z| && m != [] && Ring(l, Ins(z, at, m))
    ensures var h, t := m[0], m[|m| - 1];
            && Allocated(l, h) && Allocated(l, t)
            && Allocated(l, l.back[h]) && Allocated(l, l.forw[t])
            && var l' := Reque(l, l.back[h], l.forw[t]);
               Ring(l', z) && SameOutside(l, l', z)
  {
    var r := Ins(z, at, m);
    InsIndex(z, at, m);
    assert At(l, r, at) && At(l, r, at + 1) && At(l, r, at + |m|);
    assert At(l, r, Succ(at + |m|, |r|));
    assert l.back[m[0]] == z[at] && l.forw[m[|m| - 1]] == z[Succ(at, |z|)];
    RemoveLinks(l, z, at, m);
  }

  lemma UndoDelLinks(l: Links, z: seq<Id>, at: nat, m: seq<Id>)
    requires Ring(l, z) && at < |z| && m != [] && Chain(l, m) && Shape(Ins(z, at, m))
    requires l.back[m[0]] == z[at] && l.forw[m[|m| - 1]] == z[Succ(at, |z|)]
    ensures var h, t := m[0], m[|m| - 1];
            && Allocated(l, h) && Allocated(l, t) && Allocated(l, l.back[h])
            && var l1 := Reque(l, l.back[h], h);
            && Allocated(l1, t) && Allocated(l1, l1.forw[t])
            && var l' := Reque(l1, t, l1.forw[t]);
               Ring(l', Ins(z, at, m)) && SameOutside(l, l', Ins(z, at, m))
  {
    assert At(l, z, at) && At(l, z, Succ(at, |z|));
    InsShape(z, at, m);
    assert m[|m| - 1] != z[at];
    InsertLinks(l, z, at, m);
  }

  /** The nodes at which pop_undo_stack cuts out a moved run. */
  lemma UndoMoveEnds(l: Links, z: seq<Id>, to: nat, m: seq<Id>)
    requires to < |z| && m != [] && Ring(l, Ins(z, to, m))
    ensures Allocated(l, z[to]) && l.forw[z[to]] == m[0] && Allocated(l, m[0]) && Allocated(l, m[|m| - 1])
    ensures var a2 := z[Succ(to, |z|)]; Allocated(l, a2) && l.back[a2] == m[|m| - 1] && a2 != m[0]
  {
    var r := Ins(z, to, m);
    InsIndex(z, to, m);
    InsShape(z, to, m);
    assert At(l, r, to) && At(l, r, to + 1) && At(l, r, to + |m|) && At(l, r, Succ(to + |m|, |r|));
  }

  lemma InsAllocated(l: Links, z: seq<Id>, to: nat, m: seq<Id>, i: nat)
    requires to < |z| && i < |z| && Ring(l, Ins(z, to, m))
    ensures Allocated(l, z[i])
  {
    var r := Ins(z, to, m);
    var j := if i <= to then i else i + |m|;
    assert r[j] == z[i];
    assert At(l, r, j);
  }

  lemma UndoMoveLinks(l: Links, z: seq<Id>, from: nat, to: nat, m: seq<Id>)
    requires from < |z| && to < |z| && from != to && m != []
    requires Ring(l, Ins(z, to, m)) && Shape(Ins(z, from, m))
    ensures var b1, a1, b2, a2 := z[from], z[Succ(from, |z|)], z[to], z[Succ(to, |z|)];
            && Allocated(l, b1) && Allocated(l, a1) && Allocated(l, b2) && Allocated(l, a2)
            && Allocated(l, l.forw[b2])
            && var l1 := Reque(l, b1, l.forw[b2]);
            && Allocated(l1, a2) && Allocated(l1, l1.back[a2])
            && var l' := Reque(Reque(l1, l1.back[a2], a1), b2, a2);
               Ring(l', Ins(z, from, m)) && SameOutside(l, l', Ins(z, from, m))
  {
    hide Ring, Shape, SameOutside, Ins;
    UndoMoveEnds(l, z, to, m);
    InsAllocated(l, z, to, m, from);
    InsAllocated(l, z, to, m, Succ(from, |z|));
    MoveLinks(l, z, to, from, m);
  }
}
