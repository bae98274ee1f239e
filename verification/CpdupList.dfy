/** The list of names with which cpdup compares two directories (cpdup.c): AddList, IterateList,
    shash, and the part of DoCopy that decides what to copy and what to remove. */
module CpdupList {

  type Name = seq<bv8>

  const HSIZE: nat := 8192

  /** no_Value: 0 for the source, 1 for names and patterns to ignore, 3 for the target. */
  datatype Node = Node(name: Name, value: int)

  // ----- shash

  /** One of * ? { } [ ] | */
  predicate Wild(c: bv8) {
    c == 42 || c == 63 || c == 123 || c == 125 || c == 91 || c == 93 || c == 124
  }

  /** Shifts and extensions of signed numbers: the sign bit fills the high bits. */
  function Char(c: bv8): bv32 {
    ((c as bv32) ^ 0x80) - 0x80
  }

  function Shift16(v: bv32): bv32 {
    ((v >> 16) ^ 0x8000) - 0x8000
  }

  function Shift23(v: bv32): bv32 {
    ((v >> 23) ^ 0x100) - 0x100
  }

  function Mix(hv: bv32, c: bv8): bv32 {
    (hv << 5) ^ Char(c) ^ Shift23(hv)
  }

  function Mask(hv: bv32): bv13 {
    ((Shift16(hv) ^ hv) & 0x1fff) as bv13
  }

  function Fold(s: Name, hv: bv32): bv13 {
    if s == [] then Mask(hv) else if Wild(s[0]) then 0 else Fold(s[1..], Mix(hv, s[0]))
  }

  function Shash(s: Name): (h: nat)
    ensures h < HSIZE
  {
    Fold(s, 0xa4fb_3255) as nat
  }

  /** The seven characters for which shash gives up. */
  lemma WildIs(c: bv8)
    ensures Wild(c) <==> c in {42, 63, 123, 125, 91, 93, 124}
  {
  }

  lemma {:induction false} FoldWild(s: Name, i: nat, hv: bv32)
    requires i < |s| && Wild(s[i])
    ensures Fold(s, hv) == 0
  {
    hide Mix, Mask, Wild;
    if !Wild(s[0]) {
      FoldWild(s[1..], i - 1, Mix(hv, s[0]));
    }
  }

  /** A name with one of * ? { } [ ] | goes to bucket 0, where patterns are looked for. */
  lemma ShashWild(s: Name, i: nat)
    requires i < |s| && s[i] in {42, 63, 123, 125, 91, 93, 124}
    ensures Shash(s) == 0
  {
    hide Fold, Wild;
    WildIs(s[i]);
    FoldWild(s, i, 0xa4fb_3255);
  }

  /** Other names go elsewhere: the empty one, and a. */
  lemma ShashOthers()
    ensures Shash([]) == 5806 && Shash([97]) == 5393
  {
    assert !Wild(97) && [97 as bv8][1..] == [];
    assert Fold([97], 0xa4fb_3255) == Fold([], Mix(0xa4fb_3255, 97));
  }

  // ----- the list

  /** The names of a hash chain: those with this hash, the newest first. */
  function Bucket(nodes: seq<Node>, hash: Name -> nat, h: nat): seq<Node> {
    if nodes == [] then []
    else if hash(nodes[0].name) == h then [nodes[0]] + Bucket(nodes[1..], hash, h)
    else Bucket(nodes[1..], hash, h)
  }

  lemma {:induction false} BucketHas(nodes: seq<Node>, hash: Name -> nat, h: nat, x: Node)
    ensures x in Bucket(nodes, hash, h) <==> x in nodes && hash(x.name) == h
  {
    if nodes != [] {
      BucketHas(nodes[1..], hash, h, x);
    }
  }

  ghost function ValueOf(nodes: seq<Node>, name: Name): (v: int)
    requires Has(nodes, name)
    ensures Node(name, v) in nodes
  {
    var x :| x in nodes && x.name == name;
    assert x == Node(name, x.value);
    x.value
  }

  lemma OneValue(nodes: seq<Node>, name: Name, v: int)
    requires Node(name, v) in nodes && forall i, j :: 0 <= i < j < |nodes| ==> nodes[i].name != nodes[j].name
    ensures Has(nodes, name) && ValueOf(nodes, name) == v
  {
  }

  /** A name is refused for a node in bucket 0 or for one that is called so. */
  lemma FirstMatched(nodes: seq<Node>, hash: Name -> nat, fnmatch: (Name, Name) -> bool, name: Name, n: int)
    ensures var chain := Bucket(nodes, hash, 0);
            Refused(nodes, hash, fnmatch, name, n) <==> FirstAt(chain, fnmatch, name, n) < |chain| || Has(nodes, name)
  {
    var chain := Bucket(nodes, hash, 0);
    var i := FirstAt(chain, fnmatch, name, n);
    if i < |chain| {
      BucketHas(nodes, hash, 0, chain[i]);
    }
    if n != 1 && Matched(nodes, hash, fnmatch, name) {
      var x :| x in nodes && x.value == 1 && hash(x.name) == 0 && fnmatch(x.name, name);
      BucketHas(nodes, hash, 0, x);
    }
  }

  ghost predicate Has(nodes: seq<Node>, name: Name) {
    exists x :: x in nodes && x.name == name
  }

  /** In bucket 0, a node that forbids the name: it is called so, or is a pattern to ignore that
      matches. */
  predicate Forbids(x: Node, fnmatch: (Name, Name) -> bool, name: Name, n: int) {
    name == x.name || (n != 1 && x.value == 1 && fnmatch(x.name, name))
  }

  /** The position of the first such node, |chain| if there is none. */
  function FirstAt(chain: seq<Node>, fnmatch: (Name, Name) -> bool, name: Name, n: int): (i: nat)
    ensures i <= |chain| && (i < |chain| ==> Forbids(chain[i], fnmatch, name, n))
    ensures forall j :: 0 <= j < i ==> !Forbids(chain[j], fnmatch, name, n)
  {
    if chain == [] || Forbids(chain[0], fnmatch, name, n) then 0 else 1 + FirstAt(chain[1..], fnmatch, name, n)
  }

  /** A pattern to ignore matches the name. */
  ghost predicate Matched(nodes: seq<Node>, hash: Name -> nat, fnmatch: (Name, Name) -> bool, name: Name) {
    exists x :: x in nodes && x.value == 1 && hash(x.name) == 0 && fnmatch(x.name, name)
  }

  /** AddList does not add the name. */
  ghost predicate Refused(nodes: seq<Node>, hash: Name -> nat, fnmatch: (Name, Name) -> bool, name: Name, n: int) {
    Has(nodes, name) || (n != 1 && Matched(nodes, hash, fnmatch, name))
  }

  /** The list li_Node, the newest node first, and the chains li_Hash.  The hash function and
      fnmatch may be any. */
  class List {
    const hash: Name -> nat
    const fnmatch: (Name, Name) -> bool
    var nodes: seq<Node>
    var chains: seq<seq<Node>>

    ghost predicate Valid()
      reads this
    {
      && |chains| == HSIZE && (forall s :: hash(s) < HSIZE)
      && (forall h :: 0 <= h < HSIZE ==> chains[h] == Bucket(nodes, hash, h))
      && (forall i, j :: 0 <= i < j < |nodes| ==> nodes[i].name != nodes[j].name)
    }

    /** InitList */
    constructor (hash: Name -> nat, fnmatch: (Name, Name) -> bool)
      requires forall s :: hash(s) < HSIZE
      ensures Valid() && nodes == [] && this.hash == hash && this.fnmatch == fnmatch
    {
      this.hash, this.fnmatch := hash, fnmatch;
      nodes, chains := [], seq(HSIZE, _ => []);
    }

    /** The two loops of AddList: is there a node that forbids the name? */
    method Find(name: Name, n: int) returns (found: bool, value: int)
      requires Valid()
      ensures found == Refused(nodes, hash, fnmatch, name, n)
      ensures found ==>
        var chain := Bucket(nodes, hash, 0); var i := FirstAt(chain, fnmatch, name, n);
        if i < |chain| then value == chain[i].value else Node(name, value) in nodes
    {
      var chain := chains[0];
      for i := 0 to |chain|
        invariant forall j :: 0 <= j < i ==> !Forbids(chain[j], fnmatch, name, n)
      {
        if name == chain[i].name || (n != 1 && chain[i].value == 1 && fnmatch(chain[i].name, name)) {
          assert FirstAt(chain, fnmatch, name, n) == i;
          BucketHas(nodes, hash, 0, chain[i]);
          return true, chain[i].value;
        }
      }
      var chain1 := chains[hash(name)];
      for i := 0 to |chain1|
        invariant forall j :: 0 <= j < i ==> name != chain1[j].name
      {
        if name == chain1[i].name {
          BucketHas(nodes, hash, hash(name), chain1[i]);
          assert chain1[i] == Node(name, chain1[i].value);
          return true, chain1[i].value;
        }
      }
      forall x | x in nodes
        ensures x.name != name && !(n != 1 && x.value == 1 && hash(x.name) == 0 && fnmatch(x.name, name))
      {
        BucketHas(nodes, hash, 0, x);
        BucketHas(nodes, hash, hash(name), x);
      }
      return false, 0;
    }

    method AddList(name: Name, n: int) returns (value: int)
      requires Valid()
      modifies this`nodes, this`chains
      ensures Valid()
      ensures nodes == Added(old(nodes), hash, fnmatch, name, n)
      ensures value ==
        var was := old(nodes); var chain := Bucket(was, hash, 0); var i := FirstAt(chain, fnmatch, name, n);
        if i < |chain| then chain[i].value else if Has(was, name) then ValueOf(was, name) else n
    {
      var found, v := Find(name, n);
      FirstMatched(nodes, hash, fnmatch, name, n);
      if found {
        if FirstAt(chains[0], fnmatch, name, n) == |chains[0]| {
          OneValue(nodes, name, v);
        }
        return v;
      }
      var hv, node := hash(name), Node(name, n);
      ghost var was := nodes;
      nodes := [node] + nodes;
      chains := chains[hv := [node] + chains[hv]];
      assert nodes[1..] == was;
      value := n;
    }

    /** IterateList: the next node with value n from position i on, |nodes| if there is none. */
    method IterateList(i: nat, n: int) returns (j: nat)
      requires i <= |nodes|
      ensures i <= j <= |nodes| && (j < |nodes| ==> nodes[j].value == n)
      ensures forall k :: i <= k < j ==> nodes[k].value != n
    {
      j := i;
      while j < |nodes| && nodes[j].value != n
        invariant i <= j <= |nodes| && forall k :: i <= k < j ==> nodes[k].value != n
      {
        j := j + 1;
      }
    }

    /** The loops of DoCopy over the nodes with one value. */
    method Collect(n: int) returns (names: seq<Name>)
      requires Valid()
      ensures forall x :: x in names <==> Node(x, n) in nodes
      ensures forall i, j :: 0 <= i < j < |names| ==> names[i] != names[j]
    {
      names := [];
      var i := IterateList(0, n);
      while i < |nodes|
        invariant i <= |nodes| && (i < |nodes| ==> nodes[i].value == n)
        invariant forall x :: x in names <==> Node(x, n) in nodes[..i]
        invariant forall j, k :: 0 <= j < k < |names| ==> names[j] != names[k]
      {
        ghost var was, p := names, i;
        assert Node(nodes[i].name, n) !in nodes[..i];
        names := names + [nodes[i].name];
        i := IterateList(i + 1, n);
        assert nodes[..p + 1] == nodes[..p] + [nodes[p]];
        assert nodes[..i] == nodes[..p + 1] + nodes[p + 1..i];
        assert forall x :: Node(x, n) !in nodes[p + 1..i];
      }
    }
  }

  // ----- two directories

  /** What .cpignore says of a name: it is listed, or a pattern in bucket 0 matches it. */
  ghost predicate Ignored(ignores: seq<Name>, hash: Name -> nat, fnmatch: (Name, Name) -> bool, name: Name) {
    name in ignores || exists p :: p in ignores && hash(p) == 0 && fnmatch(p, name)
  }

  /** The nodes of the list once these names have been added, in this order. */
  ghost predicate Holds(nodes: seq<Node>, hash: Name -> nat, fnmatch: (Name, Name) -> bool,
                        ignores: seq<Name>, sources: seq<Name>, targets: seq<Name>)
  {
    forall x: Name, v: int {:trigger Node(x, v) in nodes} :: Node(x, v) in nodes <==>
      || (v == 1 && x in ignores)
      || (v == 0 && x in sources && !Ignored(ignores, hash, fnmatch, x))
      || (v == 3 && x in targets && x !in sources && !Ignored(ignores, hash, fnmatch, x))
  }

  /** With the names to ignore in the list, AddList refuses what it has and what is ignored. */
  lemma RefusedIs(nodes: seq<Node>, hash: Name -> nat, fnmatch: (Name, Name) -> bool,
                  ignores: seq<Name>, sources: seq<Name>, targets: seq<Name>, name: Name, n: int)
    requires Holds(nodes, hash, fnmatch, ignores, sources, targets) && n != 1
    ensures Refused(nodes, hash, fnmatch, name, n)
       <==> name in sources || name in targets || Ignored(ignores, hash, fnmatch, name)
  {
    var ignored := Ignored(ignores, hash, fnmatch, name);
    if Has(nodes, name) {
      var x :| x in nodes && x.name == name;
      assert Node(name, x.value) in nodes;
    }
    if Matched(nodes, hash, fnmatch, name) {
      var x :| x in nodes && x.value == 1 && hash(x.name) == 0 && fnmatch(x.name, name);
      assert Node(x.name, 1) in nodes;
    }
    if name in ignores {
      assert Node(name, 1) in nodes;
    } else if ignored {
      var p :| p in ignores && hash(p) == 0 && fnmatch(p, name);
      assert Node(p, 1) in nodes;
    } else if name in sources {
      assert Node(name, 0) in nodes;
    } else if name in targets {
      assert Node(name, 3) in nodes;
    }
  }

  lemma RefusedPattern(nodes: seq<Node>, hash: Name -> nat, fnmatch: (Name, Name) -> bool, ignores: seq<Name>, name: Name)
    requires Holds(nodes, hash, fnmatch, ignores, [], [])
    ensures Refused(nodes, hash, fnmatch, name, 1) <==> name in ignores
  {
    if Has(nodes, name) {
      var x :| x in nodes && x.name == name;
      assert Node(name, x.value) in nodes;
    }
    if name in ignores {
      assert Node(name, 1) in nodes;
    }
  }

  /** The nodes after AddList. */
  ghost function Added(nodes: seq<Node>, hash: Name -> nat, fnmatch: (Name, Name) -> bool, name: Name, n: int): seq<Node> {
    if Refused(nodes, hash, fnmatch, name, n) then nodes else [Node(name, n)] + nodes
  }

  lemma IgnoreAdded(nodes: seq<Node>, hash: Name -> nat, fnmatch: (Name, Name) -> bool, ignores: seq<Name>, name: Name)
    requires Holds(nodes, hash, fnmatch, ignores, [], [])
    ensures Holds(Added(nodes, hash, fnmatch, name, 1), hash, fnmatch, ignores + [name], [], [])
  {
    hide Refused, Ignored;
    RefusedPattern(nodes, hash, fnmatch, ignores, name);
  }

  lemma SourceAdded(nodes: seq<Node>, hash: Name -> nat, fnmatch: (Name, Name) -> bool,
                    ignores: seq<Name>, sources: seq<Name>, name: Name)
    requires Holds(nodes, hash, fnmatch, ignores, sources, [])
    ensures Holds(Added(nodes, hash, fnmatch, name, 0), hash, fnmatch, ignores, sources + [name], [])
  {
    hide Refused, Ignored;
    RefusedIs(nodes, hash, fnmatch, ignores, sources, [], name, 0);
  }

  lemma TargetAdded(nodes: seq<Node>, hash: Name -> nat, fnmatch: (Name, Name) -> bool,
                    ignores: seq<Name>, sources: seq<Name>, targets: seq<Name>, name: Name)
    requires Holds(nodes, hash, fnmatch, ignores, sources, targets)
    ensures Holds(Added(nodes, hash, fnmatch, name, 3), hash, fnmatch, ignores, sources, targets + [name])
  {
    hide Refused, Ignored;
    RefusedIs(nodes, hash, fnmatch, ignores, sources, targets, name, 3);
  }

  lemma HoldsNone(hash: Name -> nat, fnmatch: (Name, Name) -> bool)
    ensures Holds([], hash, fnmatch, [], [], [])
  {
  }

  method AddIgnores(l: List, ignores: seq<Name>)
    requires l.Valid() && l.nodes == []
    modifies l
    ensures l.Valid() && Holds(l.nodes, l.hash, l.fnmatch, ignores, [], [])
  {
    hide *;
    assert ignores[..0] == [];
    HoldsNone(l.hash, l.fnmatch);
    for i := 0 to |ignores|
      invariant l.Valid() && Holds(l.nodes, l.hash, l.fnmatch, ignores[..i], [], [])
    {
      IgnoreAdded(l.nodes, l.hash, l.fnmatch, ignores[..i], ignores[i]);
      var v := l.AddList(ignores[i], 1);
      assert ignores[..i + 1] == ignores[..i] + [ignores[i]];
    }
    assert ignores[..|ignores|] == ignores;
  }

  method AddSources(l: List, ignores: seq<Name>, sources: seq<Name>)
    requires l.Valid() && Holds(l.nodes, l.hash, l.fnmatch, ignores, [], [])
    modifies l
    ensures l.Valid() && Holds(l.nodes, l.hash, l.fnmatch, ignores, sources, [])
  {
    hide *;
    assert sources[..0] == [];
    for i := 0 to |sources|
      invariant l.Valid() && Holds(l.nodes, l.hash, l.fnmatch, ignores, sources[..i], [])
    {
      SourceAdded(l.nodes, l.hash, l.fnmatch, ignores, sources[..i], sources[i]);
      var v := l.AddList(sources[i], 0);
      assert sources[..i + 1] == sources[..i] + [sources[i]];
    }
    assert sources[..|sources|] == sources;
  }

  method AddTargets(l: List, ignores: seq<Name>, sources: seq<Name>, targets: seq<Name>)
    requires l.Valid() && Holds(l.nodes, l.hash, l.fnmatch, ignores, sources, [])
    modifies l
    ensures l.Valid() && Holds(l.nodes, l.hash, l.fnmatch, ignores, sources, targets)
  {
    hide *;
    assert targets[..0] == [];
    for i := 0 to |targets|
      invariant l.Valid() && Holds(l.nodes, l.hash, l.fnmatch, ignores, sources, targets[..i])
    {
      TargetAdded(l.nodes, l.hash, l.fnmatch, ignores, sources, targets[..i], targets[i]);
      var v := l.AddList(targets[i], 3);
      assert targets[..i + 1] == targets[..i] + [targets[i]];
    }
    assert targets[..|targets|] == targets;
  }

  /** The directory part of DoCopy: what is copied, and what is removed from the target. */
  method Compare(hash: Name -> nat, fnmatch: (Name, Name) -> bool, ignores: seq<Name>, sources: seq<Name>, targets: seq<Name>)
    returns (copied: seq<Name>, removed: seq<Name>)
    requires forall s :: hash(s) < HSIZE
    ensures forall x :: x in copied <==> x in sources && !Ignored(ignores, hash, fnmatch, x)
    ensures forall x :: x in removed <==> x in targets && x !in sources && !Ignored(ignores, hash, fnmatch, x)
    ensures forall i, j :: 0 <= i < j < |copied| ==> copied[i] != copied[j]
    ensures forall i, j :: 0 <= i < j < |removed| ==> removed[i] != removed[j]
  {
    hide Ignored;
    var l := new List(hash, fnmatch);
    AddIgnores(l, ignores);
    AddSources(l, ignores, sources);
    copied := l.Collect(0);
    AddTargets(l, ignores, sources, targets);
    removed := l.Collect(3);
  }

  /** No pattern matches the name. */
  ghost predicate Unmatched(ignores: seq<Name>, fnmatch: (Name, Name) -> bool, name: Name) {
    forall p :: p in ignores ==> !fnmatch(p, name)
  }

  /** With the hash function of cpdup: what a pattern with a wildcard matches is neither copied nor
      removed. */
  method CompareDirs(fnmatch: (Name, Name) -> bool, ignores: seq<Name>, sources: seq<Name>, targets: seq<Name>)
    returns (copied: seq<Name>, removed: seq<Name>)
    ensures forall x :: x in copied <==> x in sources && !Ignored(ignores, Shash, fnmatch, x)
    ensures forall x :: x in removed <==> x in targets && x !in sources && !Ignored(ignores, Shash, fnmatch, x)
    ensures forall p, x, i :: p in ignores && 0 <= i < |p| && p[i] in {42, 63, 123, 125, 91, 93, 124} && fnmatch(p, x) ==>
      x !in copied && x !in removed
    ensures forall x :: x in ignores ==> x !in copied && x !in removed
    ensures forall x :: x in sources && x !in ignores && Unmatched(ignores, fnmatch, x) ==> x in copied && x !in removed
    ensures forall x :: x in targets && x !in sources && x !in ignores && Unmatched(ignores, fnmatch, x) ==> x in removed
    ensures forall i, j :: 0 <= i < j < |copied| ==> copied[i] != copied[j]
    ensures forall i, j :: 0 <= i < j < |removed| ==> removed[i] != removed[j]
  {
    copied, removed := Compare(Shash, fnmatch, ignores, sources, targets);
    forall p, x, i | p in ignores && 0 <= i < |p| && p[i] in {42, 63, 123, 125, 91, 93, 124} && fnmatch(p, x)
      ensures Ignored(ignores, Shash, fnmatch, x)
    {
      ShashWild(p, i);
    }
  }
}
