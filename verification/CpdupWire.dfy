/** The packets of the cpdup protocol (hclink.c, hcproto.c): a reply is a list of leaves,
    split over packets that say whether another one follows.  Both ends have the same byte
    order. */
module CpdupWire {
  type Byte = b: nat | b < 256
  type Bytes = seq<Byte>

  const HC_BUFSIZE: nat := 65536
  const HCMAGIC: nat := 0x4843_5052
  /** sizeof(struct HCHead) and sizeof(struct HCLeaf) */
  const HEAD: nat := 16
  const LEAF: nat := 8

  /** HCC_ALIGN */
  function Align(n: nat): (r: nat)
    ensures n <= r < n + 8 && r % 8 == 0
  {
    (n + 7) / 8 * 8
  }

  lemma AlignSum(a: nat, b: nat)
    requires a % 8 == 0
    ensures Align(a + b) == a + Align(b)
  {
  }

  // ----- numbers

  /** v as n bytes, the low one first */
  function Enc(v: nat, n: nat): (r: Bytes)
    ensures |r| == n
  {
    if n == 0 then [] else [v % 256] + Enc(v / 256, n - 1)
  }

  function Dec(s: Bytes): nat {
    if s == [] then 0 else s[0] + 256 * Dec(s[1..])
  }

  /** v fits into n bytes. */
  predicate Fits(v: nat, n: nat) {
    if n == 0 then v == 0 else Fits(v / 256, n - 1)
  }

  lemma {:induction false} DecEnc(v: nat, n: nat)
    requires Fits(v, n)
    ensures Dec(Enc(v, n)) == v
  {
    if n > 0 {
      DecEnc(v / 256, n - 1);
    }
  }

  lemma SmallFits(v: nat)
    requires v < 65536
    ensures Fits(v, 2) && Fits(v, 4)
  {
    assert Fits(v / 256 / 256, 0) && Fits(0, 2);
  }

  // ----- leaves in a buffer

  datatype Leaf = Leaf(id: nat, data: Bytes)

  function Size(l: Leaf): nat {
    LEAF + |l.data|
  }

  predicate GoodLeaf(l: Leaf) {
    Fits(l.id, 2) && Size(l) < HC_BUFSIZE
  }

  /** struct HCLeaf and the data behind it */
  function LeafBytes(l: Leaf): (r: Bytes)
    ensures |r| == Size(l)
  {
    Enc(l.id, 2) + Enc(0, 2) + Enc(Size(l), 4) + l.data
  }

  predicate LeafAt(buf: Bytes, p: nat, l: Leaf) {
    GoodLeaf(l) && p + Size(l) <= |buf| && buf[p..p + Size(l)] == LeafBytes(l)
  }

  /** The bytes from..to of the buffer are these leaves. */
  predicate Holds(buf: Bytes, from: nat, to: nat, ls: seq<Leaf>)
    decreases |ls|
  {
    if ls == [] then from == to
    else
      LeafAt(buf, from, ls[0]) && Holds(buf, from + Align(Size(ls[0])), to, ls[1..])
  }

  lemma {:induction false} HoldsOrder(buf: Bytes, from: nat, to: nat, ls: seq<Leaf>)
    requires Holds(buf, from, to, ls)
    ensures from <= to && (ls != [] ==> from + Align(Size(ls[0])) <= to)
    decreases |ls|
  {
    if ls != [] {
      HoldsOrder(buf, from + Align(Size(ls[0])), to, ls[1..]);
    }
  }

  lemma LeafAtSame(buf: Bytes, buf': Bytes, p: nat, l: Leaf, to: nat)
    requires LeafAt(buf, p, l) && p + Size(l) <= to <= |buf| && to <= |buf'| && buf[..to] == buf'[..to]
    ensures LeafAt(buf', p, l)
  {
    assert buf'[p..p + Size(l)] == buf'[..to][p..p + Size(l)] == buf[..to][p..p + Size(l)] == buf[p..p + Size(l)];
  }

  /** Only the bytes before to matter. */
  lemma {:induction false} HoldsSame(buf: Bytes, buf': Bytes, from: nat, to: nat, ls: seq<Leaf>)
    requires Holds(buf, from, to, ls) && to <= |buf| && to <= |buf'| && buf[..to] == buf'[..to]
    ensures Holds(buf', from, to, ls)
    decreases |ls|
  {
    hide LeafAt;
    if ls != [] {
      HoldsOrder(buf, from, to, ls);
      LeafAtSame(buf, buf', from, ls[0], to);
      HoldsSame(buf, buf', from + Align(Size(ls[0])), to, ls[1..]);
    }
  }

  lemma {:induction false} HoldsMore(buf: Bytes, from: nat, to: nat, ls: seq<Leaf>, l: Leaf)
    requires Holds(buf, from, to, ls) && LeafAt(buf, to, l)
    ensures Holds(buf, from, to + Align(Size(l)), ls + [l])
    decreases |ls|
  {
    hide LeafAt;
    if ls == [] {
      assert Holds(buf, to + Align(Size(l)), to + Align(Size(l)), []);
      assert (ls + [l])[1..] == [];
    } else {
      HoldsMore(buf, from + Align(Size(ls[0])), to, ls[1..], l);
      assert (ls + [l])[1..] == ls[1..] + [l];
    }
  }

  /** Numbers have their low byte first. */
  lemma NumberLaw(v: nat, n: nat)
    requires Fits(v, n) && (n == 2 || n == 4)
    ensures n == 2 ==> Enc(v, n)[0] + 0x100 * (Enc(v, n)[1] as int) == v
    ensures n == 4 ==>
      Enc(v, n)[0] + 0x100 * (Enc(v, n)[1] as int) + 0x1_0000 * (Enc(v, n)[2] as int) + 0x100_0000 * (Enc(v, n)[3] as int) == v
  {
    var v1, v2 := v / 256, v / 256 / 256;
    assert Enc(v, n) == [v % 256] + Enc(v1, n - 1) && Enc(v1, n - 1) == [v1 % 256] + Enc(v2, n - 2);
    assert Fits(v1, n - 1) && Fits(v2, n - 2);
    if n == 4 {
      NumberLaw(v2, 2);
    }
  }

  lemma LeafPart(l: Leaf)
    requires GoodLeaf(l)
    ensures var b, id := LeafBytes(l), Enc(l.id, 2); b[0] == id[0] && b[1] == id[1] && b[2] == b[3] == 0
    ensures LeafBytes(l)[4..8] == Enc(8 + |l.data|, 4) && LeafBytes(l)[8..] == l.data
  {
    assert Enc(0, 2) == [0, 0];
  }

  lemma HoldsFirst(buf: Bytes, from: nat, to: nat, ls: seq<Leaf>)
    requires Holds(buf, from, to, ls) && ls != []
    ensures LeafAt(buf, from, ls[0]) && Holds(buf, from + Align(Size(ls[0])), to, ls[1..])
  {
  }

  lemma LeafCopied(buf: Bytes, from: nat, b: Bytes)
    requires |b| >= 8 && from + |b| <= |buf| && buf[from..from + |b|] == b
    ensures buf[from] == b[0] && buf[from + 1] == b[1] && buf[from + 2] == b[2] && buf[from + 3] == b[3]
    ensures buf[from + 4] == b[4..8][0] && buf[from + 5] == b[4..8][1] && buf[from + 6] == b[4..8][2] && buf[from + 7] == b[4..8][3]
    ensures buf[from + 8..from + |b|] == b[8..]
  {
    var s := buf[from..from + |b|];
    assert forall i :: 0 <= i < |s| ==> s[i] == buf[from + i];
    assert buf[from + 8..from + |b|] == s[8..];
  }

  /** The bytes of a leaf: id, two bytes zero, size, data; the next leaf begins at the next multiple of eight. */
  lemma LeafLaw(buf: Bytes, from: nat, to: nat, ls: seq<Leaf>)
    requires Holds(buf, from, to, ls) && ls != []
    ensures from + 8 + |ls[0].data| <= |buf| && buf[from + 8..from + 8 + |ls[0].data|] == ls[0].data
    ensures buf[from] + 0x100 * (buf[from + 1] as int) == ls[0].id && buf[from + 2] == buf[from + 3] == 0
    ensures buf[from + 4] + 0x100 * (buf[from + 5] as int) + 0x1_0000 * (buf[from + 6] as int)
      + 0x100_0000 * (buf[from + 7] as int) == 8 + |ls[0].data|
    ensures Holds(buf, from + (8 + |ls[0].data| + 7) / 8 * 8, to, ls[1..])
  {
    hide Enc, Dec, Fits, LeafBytes, Holds;
    var l := ls[0];
    HoldsFirst(buf, from, to, ls);
    SmallFits(Size(l));
    NumberLaw(l.id, 2);
    NumberLaw(Size(l), 4);
    LeafPart(l);
    LeafCopied(buf, from, LeafBytes(l));
  }

  // ----- packets

  /** A packet: HCF_CONTINUE, head->bytes, and all its bytes. */
  datatype Packet = Packet(cont: bool, bytes: nat, buf: Bytes)

  ghost predicate PacketOk(p: Packet, ls: seq<Leaf>) {
    HEAD <= p.bytes < HC_BUFSIZE && |p.buf| == p.bytes && Holds(p.buf, HEAD, p.bytes, ls)
  }

  function Concat(parts: seq<seq<Leaf>>): seq<Leaf> {
    if parts == [] then [] else parts[0] + Concat(parts[1..])
  }

  lemma {:induction false} ConcatMore(parts: seq<seq<Leaf>>, ls: seq<Leaf>)
    ensures Concat(parts + [ls]) == Concat(parts) + ls
  {
    if parts == [] {
      assert parts + [ls] == [ls];
      assert Concat([ls]) == ls + Concat([]);
    } else {
      assert (parts + [ls])[1..] == parts[1..] + [ls];
      ConcatMore(parts[1..], ls);
    }
  }

  /** Packets that announce another one. */
  ghost predicate Continued(wire: seq<Packet>, parts: seq<seq<Leaf>>) {
    && |wire| == |parts|
    && forall i {:trigger wire[i]} :: 0 <= i < |wire| ==> PacketOk(wire[i], parts[i]) && wire[i].cont
  }

  /** The packets behind another one: only the last announces no other, and none is empty. */
  ghost predicate Following(wire: seq<Packet>, parts: seq<seq<Leaf>>) {
    && |wire| == |parts|
    && forall i {:trigger wire[i]} :: 0 <= i < |wire| ==>
         PacketOk(wire[i], parts[i]) && wire[i].cont == (i + 1 < |wire|) && parts[i] != []
  }

  /** A whole reply; its first packet may be empty. */
  ghost predicate Reply(wire: seq<Packet>, parts: seq<seq<Leaf>>) {
    && |wire| == |parts| > 0 && PacketOk(wire[0], parts[0]) && wire[0].cont == (|wire| > 1)
    && Following(wire[1..], parts[1..])
  }

  lemma FollowingTail(wire: seq<Packet>, parts: seq<seq<Leaf>>)
    requires Following(wire, parts) && wire != []
    ensures Following(wire[1..], parts[1..]) && PacketOk(wire[0], parts[0]) && wire[0].cont == (|wire| > 1) && parts[0] != []
  {
    assert wire[0].cont == (1 < |wire|);
    forall i {:trigger wire[1..][i]} | 0 <= i < |wire[1..]|
      ensures PacketOk(wire[1..][i], parts[1..][i]) && wire[1..][i].cont == (i + 1 < |wire[1..]|) && parts[1..][i] != []
    {
      assert wire[1..][i] == wire[i + 1];
    }
  }

  ghost predicate NoneEmpty(parts: seq<seq<Leaf>>) {
    forall i :: 0 <= i < |parts| ==> parts[i] != []
  }

  /** Packets that announce another, and a last one. */
  lemma ReplyDone(wire: seq<Packet>, parts: seq<seq<Leaf>>, p: Packet, ls: seq<Leaf>)
    requires Continued(wire, parts) && NoneEmpty(parts) && PacketOk(p, ls) && !p.cont && (wire != [] ==> ls != [])
    ensures Reply(wire + [p], parts + [ls])
  {
    var w, q := wire + [p], parts + [ls];
    assert w[0].cont == (|w| > 1) && PacketOk(w[0], q[0]);
    forall i {:trigger w[1..][i]} | 0 <= i < |w[1..]|
      ensures PacketOk(w[1..][i], q[1..][i]) && w[1..][i].cont == (i + 1 < |w[1..]|) && q[1..][i] != []
    {
      assert w[1..][i] == w[i + 1] && q[1..][i] == q[i + 1];
      if i + 1 < |wire| {
        assert w[i + 1] == wire[i + 1];
      }
    }
  }

  // ----- the sender

  class Sender {
    const wbuf: array<Byte>
    var windex: nat
    var wire: seq<Packet>
    ghost var parts: seq<seq<Leaf>>
    ghost var leaves: seq<Leaf>

    ghost predicate Valid()
      reads this, wbuf
    {
      && wbuf.Length == HC_BUFSIZE && HEAD <= windex <= HC_BUFSIZE && windex % 8 == 0
      && Holds(wbuf[..], HEAD, windex, leaves) && Continued(wire, parts)
    }

    /** All leaves of the reply so far. */
    ghost function Sent(): seq<Leaf>
      reads this
    {
      Concat(parts) + leaves
    }

    /** hcc_start_reply */
    constructor ()
      ensures Valid() && fresh(wbuf) && Sent() == [] && windex == HEAD && wire == [] && parts == [] && leaves == []
    {
      wbuf := new Byte[HC_BUFSIZE];
      windex, wire, parts, leaves := HEAD, [], [], [];
    }

    method Store(s: Bytes)
      requires windex + |s| <= wbuf.Length
      modifies wbuf
      ensures wbuf[..windex] == old(wbuf[..windex]) && wbuf[windex..windex + |s|] == s
    {
      for i := 0 to |s|
        invariant wbuf[..windex] == old(wbuf[..windex]) && wbuf[windex..windex + i] == s[..i]
      {
        wbuf[windex + i] := s[i];
      }
    }

    /** hcc_leaf_data; the precondition is its assertion. */
    method LeafData(id: nat, data: Bytes)
      requires Valid() && Fits(id, 2) && windex + LEAF + |data| < HC_BUFSIZE
      modifies wbuf, this`windex, this`leaves
      ensures Valid() && Sent() == old(Sent()) + [Leaf(id, data)] && leaves == old(leaves) + [Leaf(id, data)]
      ensures windex == old(windex) + Align(LEAF + |data|)
    {
      hide Align, Holds, Continued, LeafBytes;
      var l := Leaf(id, data);
      ghost var was := wbuf[..];
      Store(LeafBytes(l));
      assert wbuf[..][..windex] == was[..windex];
      LeafStored(was, wbuf[..], windex, leaves, l);
      AlignSum(windex, Size(l));
      AlignTop(windex, Size(l));
      windex := Align(windex + Size(l));
      leaves := leaves + [l];
    }

    /** hcc_finish_reply: the packet goes out with all its bytes. */
    method Finish(cont: bool)
      requires Valid() && windex < HC_BUFSIZE
      modifies this`wire, this`parts
      ensures wire == old(wire) + [Packet(cont, windex, wbuf[..windex])] && parts == old(parts) + [leaves]
      ensures PacketOk(wire[|wire| - 1], leaves)
    {
      AlignSum(windex, 0);
      var aligned := Align(windex);
      wire, parts := wire + [Packet(cont, windex, wbuf[..aligned])], parts + [leaves];
      HoldsSame(wbuf[..], wbuf[..windex], HEAD, windex, leaves);
    }

    /** Do n leaves with size bytes of data fit behind position at? */
    static predicate Room(at: nat, n: nat, size: nat) {
      at + Align(size) + n * LEAF < HC_BUFSIZE
    }

    /** hcc_check_space: nothing happens when there is room; otherwise the packet goes out and an empty
        one is begun, so that there is room if there is any in an empty packet. */
    method CheckSpace(n: nat, size: nat)
      requires Valid() && windex < HC_BUFSIZE
      modifies this`windex, this`wire, this`parts, this`leaves
      ensures Valid() && Sent() == old(Sent()) && windex < HC_BUFSIZE
      ensures if Room(old(windex), n, size)
              then windex == old(windex) && wire == old(wire) && parts == old(parts) && leaves == old(leaves)
              else windex == HEAD && |wire| == |old(wire)| + 1 && parts == old(parts) + [old(leaves)] && leaves == []
      ensures Room(HEAD, n, size) ==> Room(windex, n, size) && (NoneEmpty(old(parts)) ==> NoneEmpty(parts))
    {
      hide Align, Holds, Concat, Continued, PacketOk;
      if Align(size) + n * LEAF >= HC_BUFSIZE - windex {
        if windex != HEAD {
          HoldsNone(wbuf[..], HEAD, windex, leaves);
        }
        ghost var w, q, all := wire, parts, leaves;
        ConcatMore(q, all);
        Finish(true);
        ContinuedMore(w, q, wire[|w|], all);
        windex, leaves := HEAD, [];
        HoldsEmpty(wbuf[..], HEAD);
        assert Sent() == Concat(q) + all;
      }
    }
  }

  lemma LeafStored(was: Bytes, buf: Bytes, to: nat, ls: seq<Leaf>, l: Leaf)
    requires Holds(was, HEAD, to, ls) && to <= |was| && to + Size(l) <= |buf| && buf[..to] == was[..to]
    requires GoodLeaf(l) && buf[to..to + Size(l)] == LeafBytes(l)
    ensures Holds(buf, HEAD, to + Align(Size(l)), ls + [l])
  {
    HoldsSame(was, buf, HEAD, to, ls);
    HoldsMore(buf, HEAD, to, ls, l);
  }

  lemma ContinuedMore(wire: seq<Packet>, parts: seq<seq<Leaf>>, p: Packet, ls: seq<Leaf>)
    requires Continued(wire, parts) && PacketOk(p, ls) && p.cont
    ensures Continued(wire + [p], parts + [ls])
  {
  }

  lemma AlignTop(a: nat, b: nat)
    requires a % 8 == 0 && a + b < HC_BUFSIZE
    ensures Align(a + b) <= HC_BUFSIZE
  {
  }

  lemma HoldsNone(buf: Bytes, from: nat, to: nat, ls: seq<Leaf>)
    requires Holds(buf, from, to, ls) && from != to
    ensures ls != []
  {
  }

  lemma HoldsEmpty(buf: Bytes, from: nat)
    ensures Holds(buf, from, from, [])
  {
  }

  // ----- the receiver

  /** rbuf with the current packet and its field magic, windex (0 before the first leaf), and the
      packets that are still to be read. */
  class Receiver {
    var head: Packet
    var magic: nat
    var windex: nat
    var wire: seq<Packet>
    ghost var parts: seq<seq<Leaf>>
    ghost var last: Leaf
    ghost var leaves: seq<Leaf>

    ghost predicate Valid()
      reads `head, `windex, `wire, `parts, `last, `leaves
    {
      && HEAD <= head.bytes < HC_BUFSIZE && |head.buf| == head.bytes
      && Holds(head.buf, if windex == 0 then HEAD else windex + Align(Size(last)), head.bytes, leaves)
      && (windex != 0 ==> LeafAt(head.buf, windex, last))
      && head.cont == (|wire| > 0) && Following(wire, parts)
    }

    /** The leaves yet to be delivered. */
    ghost function Left(): seq<Leaf>
      reads `parts, `leaves
    {
      leaves + Concat(parts)
    }

    /** hcc_finish_command, when the first packet of the reply has arrived */
    constructor (wire: seq<Packet>, ghost parts: seq<seq<Leaf>>)
      requires Reply(wire, parts)
      ensures Valid() && Left() == Concat(parts) && this.parts == parts[1..] && magic == HCMAGIC
    {
      head, windex, this.wire, magic := wire[0], 0, wire[1..], HCMAGIC;
      this.parts, leaves, last := parts[1..], parts[0], Leaf(0, []);
    }

    /** The next leaf of the packet is at p, 0 if there is none. */
    ghost predicate Found(p: nat)
      reads this
    {
      && (p == 0 <==> leaves == [])
      && (p != 0 ==> LeafAt(head.buf, p, leaves[0]) && Holds(head.buf, p + Align(Size(leaves[0])), head.bytes, leaves[1..]))
    }

    /** hcc_nextitem: the next leaf of the packet behind the one at item, none if 0; its three
        assertions hold. */
    method NextItem(item: nat) returns (p: nat)
      requires Valid() && item == windex
      ensures Found(p)
    {
      hide Align, Following, LeafAt;
      p := HEAD;
      if item != 0 {
        LeafHeader(head.buf, item, last);
        LeafInside(head.buf, item, last);
        p := item + Align(Dec(head.buf[item + 4..item + 8]));
      }
      HoldsOrder(head.buf, p, head.bytes, leaves);
      if p == head.bytes {
        HoldsEnd(head.buf, p, leaves);
        return 0;
      }
      assert leaves != [];
      LeafInside(head.buf, p, leaves[0]);
      assert head.bytes >= p + LEAF;
      LeafHeader(head.buf, p, leaves[0]);
      var bytes := Dec(head.buf[p + 4..p + 8]);
      assert head.bytes >= p + bytes && LEAF <= bytes < HC_BUFSIZE;
    }

    /** hcc_read_command: a packet arrives and overwrites the one before. */
    method ReadCommand()
      requires Valid() && wire != []
      modifies this
      ensures Valid() && windex == 0 && magic == HCMAGIC
      ensures old(parts) != [] && leaves == old(parts)[0] != [] && parts == old(parts)[1..] && wire == old(wire)[1..]
    {
      FollowingTail(wire, parts);
      head, wire, magic := wire[0], wire[1..], HCMAGIC;
      leaves, parts := parts[0], parts[1..];
      windex := 0;
    }

    /** hcc_currentchaineditem, the last leaf delivered */
    method Current() returns (l: Leaf)
      requires Valid() && windex != 0
      ensures l == last
    {
      hide Holds, Following, LeafAt;
      LeafHeader(head.buf, windex, last);
      LeafInside(head.buf, windex, last);
      l := Leaf(Dec(head.buf[windex..windex + 2]), head.buf[windex + LEAF..windex + Dec(head.buf[windex + 4..windex + 8])]);
    }

    /** The leaf at p becomes the current one. */
    method Take(p: nat) returns (l: Leaf)
      requires Valid() && p != 0 && Found(p)
      modifies this`windex, this`last, this`leaves
      ensures Valid() && windex != 0 && old(leaves) != [] && last == l == old(leaves)[0] && leaves == old(leaves)[1..]
    {
      hide Holds, Following, LeafAt;
      windex := p;
      last, leaves := leaves[0], leaves[1..];
      l := Current();
    }

    /** Packets are read until one has a leaf. */
    method Advance() returns (p: nat)
      requires Valid()
      modifies this
      ensures Valid() && Found(p) && (leaves, parts) == Upcoming(old(leaves), old(parts))
      ensures magic == if |parts| == |old(parts)| then old(magic) else HCMAGIC
      ensures p == 0 ==> |parts| == |old(parts)|
    {
      hide Holds, LeafAt, Following;
      p := NextItem(windex);
      while p == 0
        invariant Valid() && Upcoming(leaves, parts) == Upcoming(old(leaves), old(parts)) && |parts| <= |old(parts)|
        invariant magic == if |parts| == |old(parts)| then old(magic) else HCMAGIC
        invariant Found(p) && (p == 0 ==> |parts| == |old(parts)|)
        decreases |wire|
      {
        if !head.cont {
          FollowingNone(wire, parts);
          return 0;
        }
        ReadCommand();
        p := NextItem(0);
      }
    }

    /** hcc_nextchaineditem: the leaves come in order, whatever packets they are in; then, and
        ever after, there is none. */
    method NextChainedItem() returns (found: bool, l: Leaf)
      requires Valid()
      modifies this
      ensures Valid() && found == (old(Left()) != [])
      ensures if found then [l] + Left() == old(Left()) else Left() == []
      ensures var (ls, ps) := Upcoming(old(leaves), old(parts));
              && found == (ls != []) && parts == ps && leaves == (if found then ls[1..] else [])
              && (found ==> windex != 0 && last == l == ls[0])
              && magic == (if |ps| == |old(parts)| then old(magic) else HCMAGIC) && (!found ==> |ps| == |old(parts)|)
    {
      hide Holds, LeafAt, Following, Upcoming, Receiver.Valid;
      UpcomingKeeps(leaves, parts);
      var p := Advance();
      found := p != 0;
      if found {
        l := Take(p);
      } else {
        l := Leaf(0, []);
      }
    }
  }

  /** The packets that are read until one has a leaf: what is left of the last of them, and the
      packets behind it. */
  ghost function Upcoming(leaves: seq<Leaf>, parts: seq<seq<Leaf>>): (seq<Leaf>, seq<seq<Leaf>>)
    decreases |parts|
  {
    if leaves != [] || parts == [] then (leaves, parts) else Upcoming(parts[0], parts[1..])
  }

  lemma {:induction false} UpcomingKeeps(leaves: seq<Leaf>, parts: seq<seq<Leaf>>)
    ensures var (ls, ps) := Upcoming(leaves, parts);
            ls + Concat(ps) == leaves + Concat(parts) && (ls == [] ==> ps == []) && |ps| <= |parts|
    decreases |parts|
  {
    if leaves == [] && parts != [] {
      UpcomingKeeps(parts[0], parts[1..]);
    }
  }

  lemma SliceOf(buf: Bytes, p: nat, n: nat, i: nat, j: nat)
    requires i <= j <= n && p + n <= |buf|
    ensures buf[p..p + n][i..j] == buf[p + i..p + j]
  {
    var a, b := buf[p..p + n][i..j], buf[p + i..p + j];
    forall k | 0 <= k < j - i
      ensures a[k] == b[k]
    {
      assert buf[p..p + n][i + k] == buf[p + (i + k)];
    }
  }

  lemma LeafParts(l: Leaf)
    ensures var b := LeafBytes(l); b[..2] == Enc(l.id, 2) && b[4..8] == Enc(Size(l), 4) && b[LEAF..] == l.data
  {
    hide Enc;
    var x, y, z := Enc(l.id, 2), Enc(0, 2), Enc(Size(l), 4);
    assert |x| == |y| == 2 && |z| == 4;
    assert (x + y + z + l.data)[..2] == x;
    assert (x + y + z + l.data)[4..8] == z;
    assert (x + y + z + l.data)[8..] == l.data;
  }

  /** The fields of struct HCLeaf, read back. */
  lemma LeafHeader(buf: Bytes, p: nat, l: Leaf)
    requires LeafAt(buf, p, l)
    ensures Dec(buf[p..p + 2]) == l.id && Dec(buf[p + 4..p + 8]) == Size(l)
    ensures buf[p + LEAF..p + Size(l)] == l.data
  {
    hide Enc, Dec, Fits;
    var b := buf[p..p + Size(l)];
    LeafParts(l);
    SliceOf(buf, p, Size(l), 0, 2);
    SliceOf(buf, p, Size(l), 4, 8);
    SliceOf(buf, p, Size(l), LEAF, Size(l));
    assert b[..2] == b[0..2] && b[LEAF..] == b[LEAF..Size(l)];
    SmallFits(Size(l));
    DecEnc(l.id, 2);
    DecEnc(Size(l), 4);
  }

  lemma LeafInside(buf: Bytes, p: nat, l: Leaf)
    requires LeafAt(buf, p, l)
    ensures p + LEAF <= p + Size(l) <= |buf| && Size(l) < HC_BUFSIZE
  {
  }

  lemma FollowingNone(wire: seq<Packet>, parts: seq<seq<Leaf>>)
    requires Following(wire, parts) && wire == []
    ensures parts == [] && Concat(parts) == []
  {
  }

  lemma HoldsEnd(buf: Bytes, to: nat, ls: seq<Leaf>)
    requires Holds(buf, to, to, ls)
    ensures ls == []
  {
    HoldsOrder(buf, to, to, ls);
  }
}
