/** The undo stack of `ed`.  The stack itself only holds end nodes; what makes it work
    is that every detached node keeps the pointers it had when it was last linked.
    A history is the sequence of rings between the state that `u` would restore
    (index 0) and the present one; `Linked` says that each node ever on one of these
    rings points as it does on the ring nearest in time to the present. */
module EdHistory {
  import opened EdLinks

  datatype Kind = UADD | UDEL | UMOV | VMOV

  /** type ^= 1 */
  function Flip(k: Kind): Kind {
    match k
    case UADD => UDEL
    case UDEL => UADD
    case UMOV => VMOV
    case VMOV => UMOV
  }

  datatype Undo = Undo(kind: Kind, h: Id, t: Id)

  /** What one entry (or a pair of adjacent move entries) of the stack records:
      the run m, absent from or present behind position at of z; or moved from behind
      z[from] to behind z[to]. */
  datatype Step =
    | One(e: Undo, z: seq<Id>, at: nat, m: seq<Id>)
    | Two(e0: Undo, e1: Undo, z: seq<Id>, from: nat, to: nat, m: seq<Id>)

  ghost predicate StepOk(s: Step) {
    match s
    case One(e, z, at, m) =>
      && at < |z| && m != [] && Shape(Ins(z, at, m))
      && (e.kind == UADD || e.kind == UDEL) && e.h == m[0] && e.t == m[|m| - 1]
    case Two(e0, e1, z, from, to, m) =>
      && from < |z| && to < |z| && from != to && m != []
      && Shape(Ins(z, from, m)) && Shape(Ins(z, to, m))
      && (e0.kind == UMOV || e0.kind == VMOV) && (e1.kind == UMOV || e1.kind == VMOV)
      && e0.h == z[from] && e0.t == z[Succ(from, |z|)]
      && e1.h == z[to] && e1.t == z[Succ(to, |z|)]
  }

  ghost function Before(s: Step): seq<Id>
    requires StepOk(s)
  {
    match s
    case One(e, z, at, m) => if e.kind == UADD then z else Ins(z, at, m)
    case Two(_, _, z, from, _, m) => Ins(z, from, m)
  }

  ghost function After(s: Step): seq<Id>
    requires StepOk(s)
  {
    match s
    case One(e, z, at, m) => if e.kind == UADD then Ins(z, at, m) else z
    case Two(_, _, z, _, to, m) => Ins(z, to, m)
  }

  // ----- the stack that represents a sequence of steps

  function Entries(s: Step): seq<Undo> {
    match s
    case One(e, _, _, _) => [e]
    case Two(e0, e1, _, _, _, _) => [e0, e1]
  }

  function Flat(steps: seq<Step>): seq<Undo> {
    if steps == [] then [] else Flat(steps[..|steps| - 1]) + Entries(steps[|steps| - 1])
  }

  /** A step as the undo loop leaves it: the loop flips the type of the lower entry. */
  function Flipped(s: Step): Step {
    match s
    case One(e, z, at, m) => One(e.(kind := Flip(e.kind)), z, at, m)
    case Two(e0, e1, z, from, to, m) => Two(e0.(kind := Flip(e0.kind)), e1, z, from, to, m)
  }

  /** The step seen backwards: what redoing it has to undo. */
  function Mirror(s: Step): Step {
    match s
    case One(e, z, at, m) => One(e.(kind := Flip(e.kind)), z, at, m)
    case Two(e0, e1, z, from, to, m) => Two(e1, e0.(kind := Flip(e0.kind)), z, to, from, m)
  }

  function Reversed<T>(s: seq<T>): seq<T> {
    seq(|s|, i requires 0 <= i < |s| => s[|s| - 1 - i])
  }

  function FlippedAll(steps: seq<Step>): seq<Step> {
    seq(|steps|, i requires 0 <= i < |steps| => Flipped(steps[i]))
  }

  function MirrorAll(steps: seq<Step>): seq<Step> {
    seq(|steps|, i requires 0 <= i < |steps| => Mirror(steps[|steps| - 1 - i]))
  }

  lemma MirrorSwaps(s: Step)
    requires StepOk(s)
    ensures StepOk(Mirror(s)) && Before(Mirror(s)) == After(s) && After(Mirror(s)) == Before(s)
  {
  }

  lemma {:induction false} FlatCons(s: Step, steps: seq<Step>)
    ensures Flat([s] + steps) == Entries(s) + Flat(steps)
  {
    var all := [s] + steps;
    if steps == [] {
      assert all[..0] == [];
    } else {
      assert all[..|all| - 1] == [s] + steps[..|steps| - 1];
      FlatCons(s, steps[..|steps| - 1]);
    }
  }

  lemma ReversedConcat<T>(a: seq<T>, b: seq<T>)
    ensures Reversed(a + b) == Reversed(b) + Reversed(a)
  {
  }

  /** Reversing the whole flipped array reverses the steps, pairs included: the undo
      stack has become the redo stack. */
  lemma {:induction false} ReverseFlat(steps: seq<Step>)
    ensures Reversed(Flat(FlippedAll(steps))) == Flat(MirrorAll(steps))
  {
    if steps != [] {
      var n := |steps| - 1;
      var f, m := FlippedAll(steps), MirrorAll(steps);
      assert f[..n] == FlippedAll(steps[..n]);
      assert m == [Mirror(steps[n])] + MirrorAll(steps[..n]);
      ReverseFlat(steps[..n]);
      FlatCons(Mirror(steps[n]), MirrorAll(steps[..n]));
      ReversedConcat(Flat(f[..n]), Entries(f[n]));
      assert Reversed(Entries(f[n])) == Entries(Mirror(steps[n]));
    }
  }

  // ----- histories

  /** Once gone from the ring, a node does not come back later in the history. */
  ghost predicate Interval(hist: seq<seq<Id>>) {
    forall i, j, k, x {:trigger x in hist[i], x in hist[j], x in hist[k]} ::
      0 <= i <= j <= k < |hist| && x in hist[i] && x in hist[k] ==> x in hist[j]
  }

  /** Seen from time p, time k is the nearest one at which x is on the ring. */
  ghost predicate Nearest(hist: seq<seq<Id>>, p: nat, k: nat, x: Id)
    requires k < |hist|
  {
    || k == p
    || (k < p && k + 1 < |hist| && x !in hist[k + 1])
    || (k > p && x !in hist[k - 1])
  }

  ghost predicate Linked(l: Links, hist: seq<seq<Id>>, p: nat) {
    forall k, i {:trigger At(l, hist[k], i)} ::
      0 <= k < |hist| && 0 <= i < |hist[k]| && Nearest(hist, p, k, hist[k][i]) ==>
      At(l, hist[k], i)
  }

  /** Step k leads from ring k to ring k + 1. */
  ghost predicate Leads(steps: seq<Step>, hist: seq<seq<Id>>, k: nat)
    requires k < |steps| && |hist| == |steps| + 1
  {
    StepOk(steps[k]) && Before(steps[k]) == hist[k] && After(steps[k]) == hist[k + 1]
  }

  ghost predicate Recorded(steps: seq<Step>, hist: seq<seq<Id>>) {
    && |hist| == |steps| + 1
    && (forall k {:trigger Leads(steps, hist, k)} :: 0 <= k < |steps| ==> Leads(steps, hist, k))
    && (forall k {:trigger Shape(hist[k])} :: 0 <= k < |hist| ==> Shape(hist[k]))
    && Interval(hist)
  }

  /** Linked, except possibly for the ring at time q. */
  ghost predicate LinkedBut(l: Links, hist: seq<seq<Id>>, p: nat, q: nat) {
    forall k, i {:trigger At(l, hist[k], i)} ::
      0 <= k < |hist| && k != q && 0 <= i < |hist[k]| && Nearest(hist, p, k, hist[k][i]) ==>
      At(l, hist[k], i)
  }

  /** Changing the present: enough that the new present is linked and that nothing
      outside it was touched. */
  lemma Travel(l: Links, l': Links, hist: seq<seq<Id>>, p: nat, q: nat)
    requires p < |hist| && q < |hist| && (q == p + 1 || p == q + 1)
    requires Interval(hist) && LinkedBut(l, hist, p, q)
    requires Ring(l', hist[q]) && SameOutside(l, l', hist[q])
    ensures Linked(l', hist, q)
  {
    forall k, i | 0 <= k < |hist| && 0 <= i < |hist[k]| && Nearest(hist, q, k, hist[k][i])
      ensures At(l', hist[k], i)
    {
      var x := hist[k][i];
      assert x in hist[k];
      if k != q {
        assert x !in hist[q];
        assert Nearest(hist, p, k, x);
        assert At(l, hist[k], i);
        assert SameAt(l, l', x);
      }
    }
  }

  lemma PresentIsRing(l: Links, hist: seq<seq<Id>>, p: nat)
    requires p < |hist| && Shape(hist[p]) && Linked(l, hist, p)
    ensures Ring(l, hist[p])
  {
    forall i | 0 <= i < |hist[p]|
      ensures At(l, hist[p], i)
    {
      assert Nearest(hist, p, p, hist[p][i]);
    }
  }

  /** A recorded command moves the present one ring further. */
  lemma Push(l: Links, l': Links, steps: seq<Step>, hist: seq<seq<Id>>, s: Step)
    requires Recorded(steps, hist) && Linked(l, hist, |steps|)
    requires StepOk(s) && Before(s) == hist[|steps|] && Shape(After(s))
    requires forall x, k :: 0 <= k < |hist| && x in After(s) && x in hist[k] ==> x in hist[|steps|]
    requires Ring(l', After(s)) && SameOutside(l, l', After(s))
    ensures Recorded(steps + [s], hist + [After(s)])
    ensures Linked(l', hist + [After(s)], |steps| + 1)
  {
    var n, hist' := |steps|, hist + [After(s)];
    forall k | 0 <= k <= n
      ensures Leads(steps + [s], hist', k)
    {
      assert k < n ==> Leads(steps, hist, k);
    }
    assert Interval(hist') by {
      forall i, j, k, x | 0 <= i <= j <= k < |hist'| && x in hist'[i] && x in hist'[k]
        ensures x in hist'[j]
      {
        if j < k == n + 1 {
          assert x in hist[n];
        }
      }
    }
    assert LinkedBut(l, hist', n, n + 1) by {
      forall k, i | 0 <= k < |hist'| && k != n + 1 && 0 <= i < |hist'[k]| && Nearest(hist', n, k, hist'[k][i])
        ensures At(l, hist'[k], i)
      {
        assert Nearest(hist, n, k, hist[k][i]);
        assert At(l, hist[k], i);
      }
    }
    Travel(l, l', hist', n, n + 1);
  }

  // ----- undoing one step

  lemma UndoAdd(l: Links, steps: seq<Step>, hist: seq<seq<Id>>, p: nat)
    requires Recorded(steps, hist) && 0 < p <= |steps| && Linked(l, hist, p)
    requires Leads(steps, hist, p - 1) && steps[p - 1].One? && steps[p - 1].e.kind == UADD
    ensures var e := steps[p - 1].e;
            && Allocated(l, e.h) && Allocated(l, e.t)
            && Allocated(l, l.back[e.h]) && Allocated(l, l.forw[e.t])
            && Linked(Reque(l, l.back[e.h], l.forw[e.t]), hist, p - 1)
  {
    var One(e, z, at, m) := steps[p - 1];
    PresentIsRing(l, hist, p);
    UndoAddLinks(l, z, at, m);
    Travel(l, Reque(l, l.back[e.h], l.forw[e.t]), hist, p, p - 1);
  }

  /** The run of a UDEL entry still points into the ring it was cut out of. */
  lemma DetachedRun(l: Links, steps: seq<Step>, hist: seq<seq<Id>>, p: nat, k: nat)
    requires Recorded(steps, hist) && k < p <= |steps| && Linked(l, hist, p)
    requires Leads(steps, hist, k) && steps[k].One? && steps[k].e.kind == UDEL
    ensures var One(e, z, at, m) := steps[k];
            && Chain(l, m) && l.back[m[0]] == z[at] && l.forw[m[|m| - 1]] == z[Succ(at, |z|)]
  {
    var One(e, z, at, m) := steps[k];
    var r := Ins(z, at, m);
    assert hist[k] == r && hist[k + 1] == z;
    InsIndex(z, at, m);
    InsShape(z, at, m);
    forall j | at < j <= at + |m|
      ensures At(l, r, j)
    {
      assert r[j] == m[j - at - 1];
      assert Nearest(hist, p, k, hist[k][j]);
    }
    RunIsChain(l, z, at, m);
    assert At(l, r, at + 1) && At(l, r, at + |m|);
  }

  lemma UndoDel(l: Links, steps: seq<Step>, hist: seq<seq<Id>>, p: nat)
    requires Recorded(steps, hist) && 0 < p <= |steps| && Linked(l, hist, p)
    requires Leads(steps, hist, p - 1) && steps[p - 1].One? && steps[p - 1].e.kind == UDEL
    ensures var e := steps[p - 1].e;
            && Allocated(l, e.h) && Allocated(l, e.t) && Allocated(l, l.back[e.h])
            && var l1 := Reque(l, l.back[e.h], e.h);
            && Allocated(l1, e.t) && Allocated(l1, l1.forw[e.t])
            && Linked(Reque(l1, e.t, l1.forw[e.t]), hist, p - 1)
  {
    var One(e, z, at, m) := steps[p - 1];
    PresentIsRing(l, hist, p);
    DetachedRun(l, steps, hist, p, p - 1);
    UndoDelLinks(l, z, at, m);
    var l1 := Reque(l, l.back[e.h], e.h);
    Travel(l, Reque(l1, e.t, l1.forw[e.t]), hist, p, p - 1);
  }

  lemma UndoMove(l: Links, steps: seq<Step>, hist: seq<seq<Id>>, p: nat)
    requires Recorded(steps, hist) && 0 < p <= |steps| && Linked(l, hist, p)
    requires Leads(steps, hist, p - 1) && steps[p - 1].Two?
    ensures var e0, e1 := steps[p - 1].e0, steps[p - 1].e1;
            && Allocated(l, e0.h) && Allocated(l, e0.t) && Allocated(l, e1.h) && Allocated(l, e1.t)
            && Allocated(l, l.forw[e1.h])
            && var l1 := Reque(l, e0.h, l.forw[e1.h]);
            && Allocated(l1, e1.t) && Allocated(l1, l1.back[e1.t])
            && Linked(Reque(Reque(l1, l1.back[e1.t], e0.t), e1.h, e1.t), hist, p - 1)
  {
    var Two(e0, e1, z, from, to, m) := steps[p - 1];
    PresentIsRing(l, hist, p);
    UndoMoveLinks(l, z, from, to, m);
    var l1 := Reque(l, e0.h, l.forw[e1.h]);
    Travel(l, Reque(Reque(l1, l1.back[e1.t], e0.t), e1.h, e1.t), hist, p, p - 1);
  }

  lemma TurnRecorded(steps: seq<Step>, hist: seq<seq<Id>>)
    requires Recorded(steps, hist)
    ensures Recorded(MirrorAll(steps), Reversed(hist))
  {
    hide StepOk, Before, After, Mirror, Shape, Interval;
    var s', h', n := MirrorAll(steps), Reversed(hist), |steps|;
    forall k | 0 <= k < n
      ensures Leads(s', h', k)
    {
      assert Leads(steps, hist, n - 1 - k);
      MirrorSwaps(steps[n - 1 - k]);
    }
    forall k | 0 <= k < |h'|
      ensures Shape(h'[k])
    {
      assert Shape(hist[n - k]);
    }
    TurnInterval(hist);
  }

  lemma TurnInterval(hist: seq<seq<Id>>)
    requires Interval(hist)
    ensures Interval(Reversed(hist))
  {
    var h', n := Reversed(hist), |hist| - 1;
    forall i, j, k, x | 0 <= i <= j <= k < |h'| && x in h'[i] && x in h'[k]
      ensures x in h'[j]
    {
      assert x in hist[n - i] && x in hist[n - k];
      assert x in hist[n - j];
    }
  }

  /** After the loop the present is the oldest ring; reversing stack and history makes
      it the newest one again. */
  lemma Turn(l: Links, steps: seq<Step>, hist: seq<seq<Id>>)
    requires Recorded(steps, hist) && Linked(l, hist, 0)
    ensures Recorded(MirrorAll(steps), Reversed(hist))
    ensures Linked(l, Reversed(hist), |steps|)
  {
    hide Leads, Shape, Interval, At, MirrorAll;
    TurnRecorded(steps, hist);
    var h', n := Reversed(hist), |steps|;
    forall k, i | 0 <= k < |h'| && 0 <= i < |h'[k]| && Nearest(h', n, k, h'[k][i])
      ensures At(l, h'[k], i)
    {
      assert Nearest(hist, 0, n - k, hist[n - k][i]);
      assert At(l, hist[n - k], i);
    }
  }

  // ----- who owns a node

  ghost predicate InSome(hist: seq<seq<Id>>, x: Id) {
    exists k :: 0 <= k < |hist| && x in hist[k]
  }

  /** Allocated while the entries below k still await clearing: on the present ring, or
      on an older ring and not recorded at or above k. */
  ghost predicate Alive(hist: seq<seq<Id>>, k: nat, x: Id)
    requires k < |hist|
  {
    || x in hist[|hist| - 1]
    || (x !in hist[k] && InSome(hist[..k], x))
  }

  /** Entry k owns exactly the nodes that left the ring with it. */
  lemma AliveStep(hist: seq<seq<Id>>, k: nat, x: Id)
    requires k + 1 < |hist| && Interval(hist)
    ensures Alive(hist, k + 1, x) <==> Alive(hist, k, x) || (x in hist[k] && x !in hist[k + 1])
    ensures !(Alive(hist, k, x) && x in hist[k] && x !in hist[k + 1])
  {
    if x in hist[k] && x !in hist[k + 1] {
      assert x !in hist[|hist| - 1];
    }
    if InSome(hist[..k], x) {
      var j :| 0 <= j < k && x in hist[..k][j];
      assert x in hist[..k + 1][j] && x in hist[j];
    }
    if x in hist[k] {
      assert x in hist[..k + 1][k];
    }
    if InSome(hist[..k + 1], x) && x !in hist[k] {
      var j :| 0 <= j < k + 1 && x in hist[..k + 1][j];
      assert x in hist[..k][j];
    }
  }

  lemma AliveAtTop(hist: seq<seq<Id>>, x: Id)
    requires hist != []
    ensures Alive(hist, |hist| - 1, x) <==> InSome(hist, x)
  {
    var n := |hist| - 1;
    if InSome(hist, x) && x !in hist[n] {
      var j :| 0 <= j < |hist| && x in hist[j];
      assert x in hist[..n][j];
    }
    if InSome(hist[..n], x) {
      var j :| 0 <= j < n && x in hist[..n][j];
      assert x in hist[j];
    }
  }

  // ----- the whole undo state

  ghost predicate Owned(l: Links, hist: seq<seq<Id>>, x: Id) {
    x in l.forw <==> InSome(hist, x)
  }

  /** The stack records the way back from ring to the saved ring hist[0], l holds every
      link it needs, and the allocated nodes are those of the history. */
  ghost predicate History(l: Links, ustack: seq<Undo>, steps: seq<Step>, hist: seq<seq<Id>>, ring: seq<Id>) {
    && ustack == Flat(steps) && Recorded(steps, hist)
    && hist[|steps|] == ring && Linked(l, hist, |steps|)
    && (forall x: Id {:trigger Owned(l, hist, x)} :: Owned(l, hist, x))
  }

  /** The common part of recording a command: l' links the new ring. */
  lemma HistoryPush(l: Links, l': Links, ustack: seq<Undo>, steps: seq<Step>, hist: seq<seq<Id>>, ring: seq<Id>, s: Step)
    requires History(l, ustack, steps, hist, ring)
    requires StepOk(s) && Before(s) == ring && Ring(l', After(s)) && SameOutside(l, l', After(s))
    requires forall x :: x in After(s) && x !in ring ==> x !in l.forw
    requires forall x :: x in l'.forw <==> x in l.forw || x in After(s)
    ensures History(l', ustack + Entries(s), steps + [s], hist + [After(s)], After(s))
  {
    var r' := After(s);
    forall x, k | 0 <= k < |hist| && x in r' && x in hist[k]
      ensures x in hist[|steps|]
    {
      assert InSome(hist, x) && Owned(l, hist, x);
    }
    Push(l, l', steps, hist, s);
    assert (steps + [s])[..|steps|] == steps;
    var hist' := hist + [r'];
    forall x: Id
      ensures Owned(l', hist', x)
    {
      assert Owned(l, hist, x);
      if InSome(hist, x) {
        var k :| 0 <= k < |hist| && x in hist[k];
        assert x in hist'[k];
      }
      if x in r' {
        assert x in hist'[|hist|];
      }
      if InSome(hist', x) && x !in r' {
        var k :| 0 <= k < |hist'| && x in hist'[k];
        assert x in hist[k];
      }
    }
  }
}
