/** glbl.c: the list of lines that a global command has yet to visit. */
module EdGlobal {
  import opened EdLinks
  import opened EdTypes
  import opened EdSpec
  import opened EdState

  /** INC_MOD(l, k) */
  function IncMod(l: nat, k: int): nat {
    if l + 1 > k then 0 else l + 1
  }

  /** The positions seen in i steps of a cyclic walk from start through n places. */
  predicate Seen(start: nat, i: nat, n: nat, j: nat) {
    start <= j < start + i || j + n < start + i
  }

  /** The inner loop of unset_active_nodes. */
  method UnsetOne(list: seq<Ptr>, ndx: nat, lp: Id) returns (list': seq<Ptr>, ndx': nat)
    requires Once(list) && (ndx < |list| || ndx == 0)
    ensures list' == Nulled(list, [lp]) && (ndx' < |list'| || ndx' == 0)
  {
    list', ndx' := list, ndx;
    var i := 0;
    while i < |list|
      invariant i <= |list| && list' == list
      invariant |list| != 0 ==> ndx' == if ndx + i < |list| then ndx + i else ndx + i - |list|
      invariant |list| == 0 ==> ndx' == 0
      invariant forall j :: 0 <= j < |list| && Seen(ndx, i, |list|, j) ==> list[j] != To(lp)
    {
      if list'[ndx'] == To(lp) {
        list' := list'[ndx' := Null];
        ndx' := IncMod(ndx', |list| - 1);
        return;
      }
      ndx' := IncMod(ndx', |list| - 1);
      i := i + 1;
    }
    assert forall j :: 0 <= j < |list| ==> Seen(ndx, i, |list|, j);
  }

  lemma NulledTwice(s: seq<Ptr>, a: seq<Id>, b: seq<Id>)
    ensures Nulled(Nulled(s, a), b) == Nulled(s, a + b)
  {
  }

  lemma OnceNulled(s: seq<Ptr>, a: seq<Id>)
    requires Once(s)
    ensures Once(Nulled(s, a))
  {
  }

  /** unset_active_nodes: the nodes at positions a..b of the ring leave the active list. */
  method UnsetActive(e: Ed, ghost ring: seq<Id>, np: Id, mp: Id, ghost a: nat, ghost b: nat) returns (e': Ed)
    requires Ring(e.mem.links, ring) && Once(e.activeList) && (e.activeNdx < |e.activeList| || e.activeNdx == 0)
    requires a < b <= |ring| && np == ring[a] && mp == (if b == |ring| then HEAD else ring[b]) && 0 < a
    ensures e' == e.(activeList := Nulled(e.activeList, ring[a..b]), activeNdx := e'.activeNdx)
    ensures e'.activeNdx < |e'.activeList| || e'.activeNdx == 0
  {
    e' := e;
    var lp := np;
    ghost var i := a;
    assert Nulled(e.activeList, ring[a..a]) == e.activeList;
    while lp != mp
      invariant a <= i <= b && lp == (if i == |ring| then HEAD else ring[i])
      invariant e' == e.(activeList := Nulled(e.activeList, ring[a..i]), activeNdx := e'.activeNdx)
      invariant e'.activeNdx < |e'.activeList| || e'.activeNdx == 0
      decreases b - i
    {
      Differ(ring, if i == |ring| then 0 else i, if b == |ring| then 0 else b);
      OnceNulled(e.activeList, ring[a..i]);
      var list, ndx := UnsetOne(e'.activeList, e'.activeNdx, lp);
      NulledTwice(e.activeList, ring[a..i], [lp]);
      assert ring[a..i + 1] == ring[a..i] + [lp];
      e' := e'.(activeList := list, activeNdx := ndx);
      assert At(e.mem.links, ring, i);
      lp := e.mem.links.forw[lp];
      i := i + 1;
    }
    Differ(ring, if i == |ring| then 0 else i, if b == |ring| then 0 else b);
  }
}
