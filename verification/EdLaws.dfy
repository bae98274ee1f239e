/** What the reference editor promises its users: undo brings back what a command found, a
    global command visits selected lines only, each once and untouched, and a substitution
    replaces every line of its range by its image. */
module EdLaws {
  import opened EdLinks
  import opened EdTypes
  import EdSubst
  import opened EdSpec

  // ----- undo

  /** Every command that changes the buffer is undone by u, and u undoes itself. */
  lemma UndoRestores(st: State, cmd: Cmd)
    requires Ok(st) && Legal(st.now, cmd) && Edits(cmd)
    ensures var st' := Exec(st, cmd, false).0;
            var (undone, ok) := Exec(st', Undo, false);
            ok && undone.now == st.now && Exec(undone, Undo, false).0.now == st'.now
  {
    var st' := Exec(st, cmd, false).0;
    assert st'.saved == Some(st.now);
  }

  /** No command of the list is u. */
  ghost predicate NoUndo(prog: Prog) {
    forall i, b, m :: 0 <= i < |prog| ==> !prog[i](b, m).Undo?
  }

  lemma {:induction false} RunListSaved(st: State, prog: Prog)
    requires Ok(st) && NoUndo(prog)
    ensures RunList(st, prog).0.saved == st.saved
    decreases |prog|
  {
    if prog != [] {
      var (st', ok) := Exec(st, prog[0](st.now, st.marks), true);
      assert !prog[0](st.now, st.marks).Undo?;
      assert forall i, b, m :: 0 <= i < |prog[1..]| ==> !prog[1..][i](b, m).Undo?;
      RunListSaved(st', prog[1..]);
    }
  }

  lemma {:induction false} VisitSaved(st: State, prog: Prog)
    requires Ok(st) && NoUndo(prog)
    ensures Visit(st, prog).0.saved == st.saved
    decreases |st.active|
  {
    if st.active != [] {
      match AddrOf(st.now.lines, st.active[0])
      case None =>
      case Some(addr) =>
        var st1 := Goto(st, addr).(active := st.active[1..]);
        RunListSaved(st1, prog);
        VisitSaved(RunList(st1, prog).0, prog);
    }
  }

  /** One u takes back a whole global command, however many lines it visited and whether or
      not it failed on the way. */
  lemma GlobalUndone(st: State, from: int, to: int, sel: string -> bool, prog: Prog)
    requires Ok(st) && InRange(st.now, from, to) && NoUndo(prog)
    ensures var st' := Global(st, from, to, sel, prog).0;
            var (undone, ok) := Exec(st', Undo, false);
            ok && undone.now == st.now && Exec(undone, Undo, false).0.now == st'.now
  {
    VisitSaved(Save(st, false).(active := Selected(st.now.lines[from - 1..to], sel)), prog);
  }

  // ----- identities of lines

  ghost predicate Unique(ls: seq<Line>, next: Id) {
    && (forall i :: 0 <= i < |ls| ==> ls[i].id < next)
    && (forall i, j :: 0 <= i < j < |ls| ==> ls[i].id != ls[j].id)
  }

  /** No two lines of the buffer share an id, and no future line will. */
  ghost predicate Numbered(st: State) {
    Unique(st.now.lines, st.next) && (st.saved.Some? ==> Unique(st.saved.value.lines, st.next))
  }

  /** Nor does an id stand for one line in the buffer and for another in the saved copy. */
  ghost predicate Named(st: State) {
    && Numbered(st)
    && (st.saved.Some? ==> forall l, m :: l in st.now.lines && m in st.saved.value.lines && l.id == m.id ==> l == m)
  }

  lemma UniqueLater(ls: seq<Line>, next: Id, next': Id)
    requires Unique(ls, next) && next <= next'
    ensures Unique(ls, next')
  {
    forall i | 0 <= i < |ls|
      ensures ls[i].id < next'
    {
      assert ls[i].id < next;
    }
  }

  lemma PutNumbered(st: State, texts: seq<string>)
    requires Numbered(st) && st.now.cur <= |st.now.lines|
    ensures Numbered(Put(st, texts).0) && Put(st, texts).0.next >= st.next
  {
    InsertNumbered(st, Fit(texts));
  }

  lemma InsertNumbered(st: State, texts: seq<string>)
    requires Numbered(st) && st.now.cur <= |st.now.lines|
    ensures var r := InsertLines(st, Fresh(texts, st.next)); Numbered(r) && r.next >= st.next
  {
    var ls := Fresh(texts, st.next);
    var r := InsertLines(st, ls);
    if st.saved.Some? {
      UniqueLater(st.saved.value.lines, st.next, r.next);
    }
  }

  lemma DeleteNumbered(st: State, from: nat, to: nat)
    requires Numbered(st) && InRange(st.now, from, to)
    ensures Numbered(DeleteRange(st, from, to))
  {
  }

  /** Where the i-th line comes from when the lines p..q and q..r change places. */
  function Source(i: nat, p: nat, q: nat, r: nat): nat
    requires p <= q <= r
  {
    if i < p || r <= i then i else if i < p + (r - q) then i + (q - p) else i - (r - q)
  }

  lemma UniqueSwap(ls: seq<Line>, next: Id, p: nat, q: nat, r: nat)
    requires Unique(ls, next) && p <= q <= r <= |ls|
    ensures Unique(ls[..p] + ls[q..r] + ls[p..q] + ls[r..], next)
  {
    var ls' := ls[..p] + ls[q..r] + ls[p..q] + ls[r..];
    assert |ls'| == |ls|;
    forall i | 0 <= i < |ls|
      ensures ls'[i] == ls[Source(i, p, q, r)]
    {
    }
  }

  lemma MoveNumbered(st: State, from: nat, to: nat, addr: nat)
    requires Numbered(st) && InRange(st.now, from, to) && addr <= |st.now.lines| && !(from <= addr < to)
    ensures Numbered(MoveRange(st, from, to, addr))
  {
    hide Unique, Ids, Without;
    if addr < from {
      UniqueSwap(st.now.lines, st.next, addr, from - 1, to);
    } else {
      UniqueSwap(st.now.lines, st.next, from - 1, to, addr);
    }
  }

  /** A line and the lines a substitution puts in its place. */
  function Swap(st: State, texts: seq<string>): (r: (State, bool))
    requires st.now.cur < |st.now.lines|
    ensures r.0.now.cur <= |r.0.now.lines| && r.0.now.lines[r.0.now.cur..] == st.now.lines[st.now.cur + 1..]
    ensures r.0.active == Without(st.active, [st.now.lines[st.now.cur].id])
  {
    assert Ids(st.now.lines[st.now.cur..st.now.cur + 1]) == [st.now.lines[st.now.cur].id];
    Put(DeleteRange(st, st.now.cur + 1, st.now.cur + 1), texts)
  }

  lemma SwapNumbered(st: State, texts: seq<string>)
    requires Numbered(st) && st.now.cur < |st.now.lines|
    ensures Numbered(Swap(st, texts).0)
  {
    hide Unique;
    var cur := st.now.cur + 1;
    DeleteNumbered(st, cur, cur);
    PutNumbered(DeleteRange(st, cur, cur), texts);
  }

  /** One turn of search_and_replace. */
  lemma SubstNext(st: State, n: nat, f: string -> Sub, xa: nat, subs: nat, g: bool)
    requires 0 < n && st.now.cur + n <= |st.now.lines|
    ensures SubstLines(st, n, f, xa, subs, g) ==
      match f(st.now.lines[st.now.cur].text)
      case SubError => (Goto(st, st.now.cur + 1), false)
      case NoMatch => SubstLines(Goto(st, st.now.cur + 1), n - 1, f, xa, subs, g)
      case NewLines(first, rest) =>
        var (st', ok) := Swap(st, [first] + rest);
        if ok then SubstLines(st', n - 1, f, st'.now.cur, subs + 1, g) else (st', false)
  {
    hide DeleteRange, Put;
  }

  lemma {:induction false} SubstNumbered(st: State, n: nat, f: string -> Sub, xa: nat, subs: nat, g: bool)
    requires Numbered(st) && st.now.cur + n <= |st.now.lines|
    ensures Numbered(SubstLines(st, n, f, xa, subs, g).0)
    decreases n
  {
    hide Unique, DeleteRange, Put;
    if n > 0 {
      match f(st.now.lines[st.now.cur].text)
      case SubError =>
      case NoMatch => SubstNumbered(Goto(st, st.now.cur + 1), n - 1, f, xa, subs, g);
      case NewLines(first, rest) =>
        SwapNumbered(st, [first] + rest);
        var (st', ok) := Swap(st, [first] + rest);
        if ok {
          SubstNumbered(st', n - 1, f, st'.now.cur, subs + 1, g);
        }
    }
  }

  lemma EditNumbered(st: State, cmd: Cmd, g: bool)
    requires Numbered(st) && Legal(st.now, cmd) && Edits(cmd) && st.now.cur <= |st.now.lines|
    ensures Numbered(Edit(st, cmd, g).0)
  {
    hide Unique, Without, Ids, SubstLines, MoveSeq;
    match cmd
    case Append(addr, texts) => PutNumbered(Goto(st, addr), texts);
    case Insert(addr, texts) => PutNumbered(Goto(st, addr - 1), texts);
    case Change(from, to, texts) =>
      DeleteNumbered(st, from, to);
      PutNumbered(DeleteRange(st, from, to), texts);
    case Delete(from, to) => DeleteNumbered(st, from, to);
    case Join(from, to) =>
      if from != to {
        DeleteNumbered(st, from, to);
        PutNumbered(DeleteRange(st, from, to), [Concat(Texts(st.now.lines[from - 1..to]))]);
      }
    case Move(from, to, addr) => MoveNumbered(st, from, to, addr);
    case Copy(from, to, addr) => InsertNumbered(Goto(st, addr), Texts(st.now.lines[from - 1..to]));
    case Subst(from, to, how) => SubstNumbered(Goto(st, from - 1), to - from + 1, EdSubst.Replacer(how), st.now.cur, 0, g);
  }

  // ----- what a command leaves of the lines yet to be visited

  /** s is t with some elements left out. */
  predicate Subseq(s: seq<Id>, t: seq<Id>)
    decreases |t|
  {
    s == [] || (t != [] && (if s[0] == t[0] then Subseq(s[1..], t[1..]) else Subseq(s, t[1..])))
  }

  lemma {:induction false} SubseqIn(s: seq<Id>, t: seq<Id>)
    requires Subseq(s, t)
    ensures forall x :: x in s ==> x in t
    decreases |t|
  {
    if s != [] {
      if s[0] == t[0] {
        SubseqIn(s[1..], t[1..]);
        assert s == [s[0]] + s[1..];
      } else {
        SubseqIn(s, t[1..]);
      }
    }
  }

  lemma {:induction false} SubseqSame(s: seq<Id>)
    ensures Subseq(s, s)
  {
    if s != [] {
      SubseqSame(s[1..]);
    }
  }

  lemma {:induction false} SubseqTail(s: seq<Id>, t: seq<Id>)
    requires s != [] && Subseq(s, t)
    ensures Subseq(s[1..], t)
    decreases |t|
  {
    if s[0] == t[0] {
      if s[1..] != [] {
        if s[1] == t[0] {
          SubseqTail(s[1..], t[1..]);
        }
      }
    } else {
      SubseqTail(s, t[1..]);
      if s[1..] != [] && s[1] == t[0] {
        SubseqTail(s[1..], t[1..]);
      }
    }
  }

  lemma {:induction false} SubseqTrans(s: seq<Id>, t: seq<Id>, u: seq<Id>)
    requires Subseq(s, t) && Subseq(t, u)
    ensures Subseq(s, u)
    decreases |u|
  {
    if s != [] {
      if t[0] != u[0] {
        SubseqTrans(s, t, u[1..]);
        if s[0] == u[0] {
          SubseqTail(s, u[1..]);
        }
      } else if s[0] == t[0] {
        SubseqTrans(s[1..], t[1..], u[1..]);
      } else {
        SubseqTrans(s, t[1..], u[1..]);
      }
    }
  }

  lemma {:induction false} WithoutSubseq(s: seq<Id>, gone: seq<Id>)
    ensures Subseq(Without(s, gone), s)
    ensures forall x :: x in Without(s, gone) ==> x in s && x !in gone
  {
    if s != [] {
      WithoutSubseq(s[1..], gone);
      if s[0] in gone && Without(s, gone) != [] && Without(s, gone)[0] == s[0] {
        assert false;
      }
    }
  }

  /** From st to st' the lines yet to be visited only get fewer, those that remain are still
      in the buffer, and what is in the buffer under their ids was there before. */
  ghost predicate Stays(st: State, st': State) {
    && st.next <= st'.next && Subseq(st'.active, st.active)
    && (forall l :: l in st.now.lines && l.id in st'.active ==> l in st'.now.lines)
    && (forall l :: l in st'.now.lines && l.id in st'.active ==> l in st.now.lines || l.id >= st.next)
  }

  /** The same, for a change that brings back no line. */
  ghost predicate Follows(st: State, st': State) {
    && st.next <= st'.next && Subseq(st'.active, st.active)
    && (forall l :: l in st.now.lines && l.id in st'.active ==> l in st'.now.lines)
    && (forall l :: l in st'.now.lines ==> l in st.now.lines || l.id >= st.next)
  }

  lemma FollowsSame(st: State)
    ensures Follows(st, st)
  {
    SubseqSame(st.active);
  }

  lemma FollowsTrans(st: State, st1: State, st2: State)
    requires Follows(st, st1) && Follows(st1, st2)
    ensures Follows(st, st2)
  {
    SubseqTrans(st2.active, st1.active, st.active);
    SubseqIn(st2.active, st1.active);
  }

  lemma StaysSame(st: State)
    ensures Stays(st, st)
  {
    SubseqSame(st.active);
  }

  lemma StaysTrans(st: State, st1: State, st2: State)
    requires Stays(st, st1) && Stays(st1, st2)
    ensures Stays(st, st2)
  {
    SubseqTrans(st2.active, st1.active, st.active);
    SubseqIn(st2.active, st1.active);
  }

  lemma InsertFollows(st: State, texts: seq<string>)
    requires st.now.cur <= |st.now.lines|
    ensures Follows(st, InsertLines(st, Fresh(texts, st.next)))
  {
    SubseqSame(st.active);
    var Buf(lines, cur) := st.now;
    assert lines == lines[..cur] + lines[cur..];
  }

  lemma PutFollows(st: State, texts: seq<string>)
    requires st.now.cur <= |st.now.lines|
    ensures Follows(st, Put(st, texts).0)
  {
    InsertFollows(st, Fit(texts));
  }

  lemma IdsIn(ls: seq<Line>, l: Line)
    requires l in ls
    ensures l.id in Ids(ls)
  {
    var i :| 0 <= i < |ls| && ls[i] == l;
    assert Ids(ls)[i] == l.id;
  }

  lemma DeleteFollows(st: State, from: nat, to: nat)
    requires InRange(st.now, from, to)
    ensures Follows(st, DeleteRange(st, from, to))
  {
    var lines := st.now.lines;
    var block := lines[from - 1..to];
    WithoutSubseq(st.active, Ids(block));
    assert lines == lines[..from - 1] + block + lines[to..];
    forall l | l in block
      ensures l.id in Ids(block)
    {
      IdsIn(block, l);
    }
  }

  lemma MoveFollows(st: State, from: nat, to: nat, addr: nat)
    requires InRange(st.now, from, to) && addr <= |st.now.lines| && !(from <= addr < to)
    ensures Follows(st, MoveRange(st, from, to, addr))
  {
    var lines := st.now.lines;
    WithoutSubseq(st.active, Ids(lines[from - 1..to]));
    if addr < from {
      assert lines == lines[..addr] + lines[addr..from - 1] + lines[from - 1..to] + lines[to..];
    } else {
      assert lines == lines[..from - 1] + lines[from - 1..to] + lines[to..addr] + lines[addr..];
    }
  }

  lemma ReplaceFollows(st: State, from: nat, to: nat, texts: seq<string>)
    requires InRange(st.now, from, to)
    ensures Follows(st, Put(DeleteRange(st, from, to), texts).0)
  {
    hide Follows;
    DeleteFollows(st, from, to);
    PutFollows(DeleteRange(st, from, to), texts);
    FollowsTrans(st, DeleteRange(st, from, to), Put(DeleteRange(st, from, to), texts).0);
  }

  lemma SwapFollows(st: State, texts: seq<string>)
    requires st.now.cur < |st.now.lines|
    ensures Follows(st, Swap(st, texts).0)
  {
    ReplaceFollows(st, st.now.cur + 1, st.now.cur + 1, texts);
  }

  lemma {:induction false} SubstFollows(st: State, n: nat, f: string -> Sub, xa: nat, subs: nat, g: bool)
    requires st.now.cur + n <= |st.now.lines|
    ensures Follows(st, SubstLines(st, n, f, xa, subs, g).0)
    decreases n
  {
    hide Subseq, DeleteRange, Put;
    FollowsSame(st);
    if n > 0 {
      match f(st.now.lines[st.now.cur].text)
      case SubError =>
      case NoMatch => SubstFollows(Goto(st, st.now.cur + 1), n - 1, f, xa, subs, g);
      case NewLines(first, rest) =>
        SwapFollows(st, [first] + rest);
        var (st', ok) := Swap(st, [first] + rest);
        if ok {
          SubstFollows(st', n - 1, f, st'.now.cur, subs + 1, g);
          FollowsTrans(st, st', SubstLines(st, n, f, xa, subs, g).0);
        }
    }
  }

  lemma EditFollows(st: State, cmd: Cmd, g: bool)
    requires Legal(st.now, cmd) && Edits(cmd) && st.now.cur <= |st.now.lines|
    ensures Follows(st, Edit(st, cmd, g).0)
  {
    hide Subseq, Put, DeleteRange, InsertLines, SubstLines, MoveRange;
    FollowsSame(st);
    match cmd
    case Append(addr, texts) => PutFollows(Goto(st, addr), texts);
    case Insert(addr, texts) => PutFollows(Goto(st, addr - 1), texts);
    case Change(from, to, texts) => ReplaceFollows(st, from, to, texts);
    case Delete(from, to) => DeleteFollows(st, from, to);
    case Join(from, to) =>
      if from != to {
        ReplaceFollows(st, from, to, [Concat(Texts(st.now.lines[from - 1..to]))]);
      }
    case Move(from, to, addr) => MoveFollows(st, from, to, addr);
    case Copy(from, to, addr) => InsertFollows(Goto(st, addr), Texts(st.now.lines[from - 1..to]));
    case Subst(from, to, how) => SubstFollows(Goto(st, from - 1), to - from + 1, EdSubst.Replacer(how), st.now.cur, 0, g);
  }

  /** Ids stay unique through every command, undo included. */
  lemma ExecNamed(st: State, cmd: Cmd, g: bool)
    requires Named(st) && Ok(st)
    ensures Named(Exec(st, cmd, g).0)
  {
    hide Edit, Unique, Subseq;
    if Legal(st.now, cmd) && Edits(cmd) {
      SaveNamed(st, g);
      EditNumbered(Save(st, g), cmd, g);
      EditFollows(Save(st, g), cmd, g);
      FollowsNamed(Save(st, g), Edit(Save(st, g), cmd, g).0);
    }
  }

  lemma SaveNamed(st: State, g: bool)
    requires Named(st)
    ensures Named(Save(st, g))
  {
    forall l, m | l in st.now.lines && m in st.now.lines && l.id == m.id
      ensures l == m
    {
      SameLine(st.now.lines, st.next, l, m);
    }
  }

  lemma FollowsNamed(st: State, st': State)
    requires Named(st) && Numbered(st') && Follows(st, st') && st'.saved == st.saved
    ensures Named(st')
  {
  }

  lemma {:induction false} RunListNamed(st: State, prog: Prog)
    requires Named(st) && Ok(st)
    ensures Named(RunList(st, prog).0)
    decreases |prog|
  {
    if prog != [] {
      ExecNamed(st, prog[0](st.now, st.marks), true);
      RunListNamed(Exec(st, prog[0](st.now, st.marks), true).0, prog[1..]);
    }
  }

  lemma {:induction false} VisitNamed(st: State, prog: Prog)
    requires Named(st) && Ok(st)
    ensures Named(Visit(st, prog).0)
    decreases |st.active|
  {
    if st.active != [] {
      match AddrOf(st.now.lines, st.active[0])
      case None =>
      case Some(addr) =>
        var st1 := Goto(st, addr).(active := st.active[1..]);
        RunListNamed(st1, prog);
        VisitNamed(RunList(st1, prog).0, prog);
    }
  }

  lemma TopNamed(st: State, top: TopCmd)
    requires Named(st) && Ok(st)
    ensures Named(Top(st, top).0)
  {
    match top {
      case Do(cmd) => ExecNamed(st, cmd, false);
      case ForEach(from, to, sel, prog) =>
        if InRange(st.now, from, to) {
          VisitNamed(Save(st, false).(active := Selected(st.now.lines[from - 1..to], sel)), prog);
        }
    }
  }

  lemma {:induction false} SessionNamed(st: State, script: Script, tty: bool)
    requires Named(st) && Ok(st)
    ensures Named(Session(st, script, tty))
    decreases |script|
  {
    if script != [] {
      var top := script[0](st.now, st.marks);
      TopNamed(st, top);
      SessionNamed(Top(st, top).0, script[1..], tty);
    }
  }

  /** In every state a script can reach, ids name lines. */
  lemma ReachableNamed(script: Script, tty: bool)
    ensures Named(Session(EMPTY, script, tty))
  {
    SessionNamed(EMPTY, script, tty);
  }

  lemma SameLine(ls: seq<Line>, next: Id, l: Line, m: Line)
    requires Unique(ls, next) && l in ls && m in ls && l.id == m.id
    ensures l == m
  {
  }

  /** Holds of every command, undo included. */
  lemma ExecStays(st: State, cmd: Cmd)
    requires Ok(st)
    ensures Stays(st, Exec(st, cmd, true).0)
  {
    hide Edit;
    SubseqSame(st.active);
    if Legal(st.now, cmd) && Edits(cmd) {
      EditFollows(st, cmd, true);
    }
  }

  lemma {:induction false} RunListStays(st: State, prog: Prog)
    requires Ok(st)
    ensures Stays(st, RunList(st, prog).0)
    decreases |prog|
  {
    hide Stays, Exec;
    if prog == [] {
      StaysSame(st);
    } else {
      ExecStays(st, prog[0](st.now, st.marks));
      var (st', ok) := Exec(st, prog[0](st.now, st.marks), true);
      if ok {
        RunListStays(st', prog[1..]);
        StaysTrans(st, st', RunList(st', prog[1..]).0);
      }
    }
  }

  // ----- which lines a global command visits

  lemma {:induction false} WithoutNone(s: seq<Id>)
    ensures Without(s, []) == s
  {
    if s != [] {
      WithoutNone(s[1..]);
    }
  }

  lemma {:induction false} WithoutAll(s: seq<Id>, gone: seq<Id>)
    requires forall x :: x in s ==> x in gone
    ensures Without(s, gone) == []
  {
    if s != [] {
      WithoutAll(s[1..], gone);
    }
  }

  lemma {:induction false} WithoutTwice(s: seq<Id>, gone: seq<Id>, more: seq<Id>)
    ensures Without(Without(s, gone), more) == Without(s, gone + more)
  {
    if s != [] {
      WithoutTwice(s[1..], gone, more);
    }
  }

  lemma {:induction false} WithoutIn(s: seq<Id>, gone: seq<Id>, x: Id)
    ensures x in Without(s, gone) <==> x in s && x !in gone
  {
    if s != [] {
      WithoutIn(s[1..], gone, x);
    }
  }

  /** Does the substitution change a line? */
  function Hits(f: string -> Sub): string -> bool {
    t => f(t).NewLines?
  }

  /** The lines that a command deletes, moves or replaces; u touches whatever is left. */
  function Touched(st: State, cmd: Cmd): seq<Id> {
    if !Legal(st.now, cmd) then []
    else
      match cmd
      case Change(from, to, _) => Ids(st.now.lines[from - 1..to])
      case Delete(from, to) => Ids(st.now.lines[from - 1..to])
      case Join(from, to) => if from == to then [] else Ids(st.now.lines[from - 1..to])
      case Move(from, to, _) => Ids(st.now.lines[from - 1..to])
      case Subst(from, to, how) => Selected(st.now.lines[from - 1..to], Hits(EdSubst.Replacer(how)))
      case Undo => st.active
      case _ => []
  }

  lemma {:induction false} SubstActive(st: State, n: nat, f: string -> Sub, xa: nat, subs: nat, range: seq<Line>)
    requires st.now.cur + n <= |st.now.lines| && SubstLines(st, n, f, xa, subs, true).1
    requires range == st.now.lines[st.now.cur..st.now.cur + n]
    ensures SubstLines(st, n, f, xa, subs, true).0.active == Without(st.active, Selected(range, Hits(f)))
    decreases n
  {
    hide SubstLines, Swap, Without, Selected, Hits;
    if n == 0 {
      SubstNone(st, f, xa, subs, range);
    } else {
      var line, tail := range[0], range[1..];
      assert range == [line] + tail;
      SelectedHits(line, tail, f);
      SubstNext(st, n, f, xa, subs, true);
      match f(line.text)
      case NoMatch => SubstActive(Goto(st, st.now.cur + 1), n - 1, f, xa, subs, tail);
      case NewLines(first, rest) =>
        var (st', _) := Swap(st, [first] + rest);
        var c: nat := st'.now.cur;
        assert st'.now.lines[c..c + (n - 1)] == st'.now.lines[c..][..n - 1] == tail;
        SubstActive(st', n - 1, f, c, subs + 1, tail);
        WithoutTwice(st.active, [line.id], Selected(tail, Hits(f)));
    }
  }

  lemma SubstNone(st: State, f: string -> Sub, xa: nat, subs: nat, range: seq<Line>)
    requires range == [] && st.now.cur <= |st.now.lines|
    ensures SubstLines(st, 0, f, xa, subs, true).0.active == Without(st.active, Selected(range, Hits(f)))
  {
    WithoutNone(st.active);
  }

  lemma SelectedHits(line: Line, tail: seq<Line>, f: string -> Sub)
    ensures Selected([line] + tail, Hits(f)) == if f(line.text).NewLines? then [line.id] + Selected(tail, Hits(f)) else Selected(tail, Hits(f))
  {
    assert ([line] + tail)[1..] == tail;
    assert [] + Selected(tail, Hits(f)) == Selected(tail, Hits(f));
  }

  lemma EditActive(st: State, cmd: Cmd)
    requires Legal(st.now, cmd) && Edits(cmd) && st.now.cur <= |st.now.lines| && Edit(st, cmd, true).1
    ensures Edit(st, cmd, true).0.active == Without(st.active, Touched(st, cmd))
  {
    hide Without, Ids, SubstLines;
    WithoutNone(st.active);
    if cmd.Subst? {
      SubstActive(Goto(st, cmd.from - 1), cmd.to - cmd.from + 1, EdSubst.Replacer(cmd.how), st.now.cur, 0, st.now.lines[cmd.from - 1..cmd.to]);
    }
  }

  /** A command that succeeds takes from the lines yet to be visited exactly those it
      touches. */
  lemma ExecActive(st: State, cmd: Cmd)
    requires Ok(st) && Exec(st, cmd, true).1
    ensures Exec(st, cmd, true).0.active == Without(st.active, Touched(st, cmd))
  {
    hide Edit;
    if cmd.Undo? {
      WithoutAll(st.active, st.active);
    } else if cmd.Mark? {
      WithoutNone(st.active);
    } else {
      EditActive(st, cmd);
    }
  }

  /** All the lines that a run of the command list touches. */
  function TouchedBy(st: State, prog: Prog): seq<Id>
    requires Ok(st)
    decreases |prog|
  {
    if prog == [] then []
    else
      var cmd := prog[0](st.now, st.marks);
      Touched(st, cmd) + TouchedBy(Exec(st, cmd, true).0, prog[1..])
  }

  lemma {:induction false} RunListActive(st: State, prog: Prog)
    requires Ok(st) && RunList(st, prog).1
    ensures RunList(st, prog).0.active == Without(st.active, TouchedBy(st, prog))
    decreases |prog|
  {
    hide Exec, Touched;
    if prog == [] {
      WithoutNone(st.active);
    } else {
      var cmd := prog[0](st.now, st.marks);
      var st' := Exec(st, cmd, true).0;
      ExecActive(st, cmd);
      RunListActive(st', prog[1..]);
      WithoutTwice(st.active, Touched(st, cmd), TouchedBy(st', prog[1..]));
    }
  }

  ghost predicate Once(s: seq<Id>) {
    forall i, j :: 0 <= i < j < |s| ==> s[i] != s[j]
  }

  /** The state in which the command list starts on the next line. */
  function Start(st: State): (r: State)
    requires Ok(st) && st.active != []
    ensures Ok(r) && r.active == st.active[1..] && r.next == st.next && r.now.lines == st.now.lines
  {
    match AddrOf(st.now.lines, st.active[0])
    case None => st.(active := st.active[1..])
    case Some(addr) => Goto(st, addr).(active := st.active[1..])
  }

  /** The states in which the command list starts, one for each visit. */
  function Visits(st: State, prog: Prog): (r: seq<State>)
    requires Ok(st)
    ensures forall k :: 0 <= k < |r| ==> Ok(r[k])
    decreases |st.active|
  {
    if st.active == [] then []
    else
      var (st', ok) := RunList(Start(st), prog);
      [Start(st)] + (if ok then Visits(st', prog) else [])
  }

  /** Every line yet to be visited is in the buffer. */
  ghost predicate Anchored(st: State) {
    forall x :: x in st.active ==> x < st.next && exists l :: l in st.now.lines && l.id == x
  }

  lemma StaysAnchored(st: State, st': State)
    requires Anchored(st) && Stays(st, st')
    ensures Anchored(st')
  {
    SubseqIn(st'.active, st.active);
    forall x | x in st'.active
      ensures x < st'.next && exists l :: l in st'.now.lines && l.id == x
    {
      var l :| l in st.now.lines && l.id == x;
      assert l in st'.now.lines;
    }
  }

  /** At a visit, the current line is the line x, just as it was in st0. */
  ghost predicate VisitsLine(st0: State, at: State, x: Id) {
    && 1 <= at.now.cur <= |at.now.lines| && at.now.lines[at.now.cur - 1].id == x
    && at.now.lines[at.now.cur - 1] in st0.now.lines
  }

  lemma StartFound(st: State)
    requires Ok(st) && Anchored(st) && st.active != []
    ensures AddrOf(st.now.lines, st.active[0]).Some?
  {
    var x := st.active[0];
    assert x in st.active;
    var l :| l in st.now.lines && l.id == x;
    var i :| 0 <= i < |st.now.lines| && st.now.lines[i] == l;
  }

  lemma StartVisits(st0: State, st: State)
    requires Ok(st) && Anchored(st0) && Stays(st0, st) && st.active != []
    ensures AddrOf(st.now.lines, st.active[0]).Some? && VisitsLine(st0, Start(st), st.active[0])
    ensures Stays(st0, Start(st))
  {
    hide Subseq, Anchored, AddrOf;
    StaysAnchored(st0, st);
    StartFound(st);
    var x := st.active[0];
    var addr := AddrOf(st.now.lines, x).value;
    var l := st.now.lines[addr - 1];
    assert l in st.now.lines && x in st.active;
    SubseqTail(st.active, st0.active);
    assert l in st0.now.lines by {
      AnchoredBelow(st0, st);
    }
  }

  lemma AnchoredBelow(st0: State, st: State)
    requires Anchored(st0) && Stays(st0, st)
    ensures forall x :: x in st.active ==> x < st0.next
  {
    SubseqIn(st.active, st0.active);
  }

  /** One turn of exec_global. */
  lemma VisitStep(st0: State, st: State, prog: Prog)
    requires Ok(st) && Anchored(st0) && Stays(st0, st) && st.active != []
    ensures VisitsLine(st0, Start(st), st.active[0])
    ensures var (st', ok) := RunList(Start(st), prog); var (r, okAll, visited) := Visit(st, prog);
            && Stays(st0, st') && Subseq(st'.active, st.active[1..]) && okAll == (ok && Visit(st', prog).1)
            && visited == [st.active[0]] + (if ok then Visit(st', prog).2 else [])
            && (ok ==> st'.active == Without(st.active[1..], TouchedBy(Start(st), prog)))
  {
    hide Stays, Anchored, VisitsLine, RunList, TouchedBy, Without, AddrOf, Subseq;
    StartVisits(st0, st);
    var st1 := Start(st);
    var (st', ok) := RunList(st1, prog);
    RunListStays(st1, prog);
    StaysTrans(st0, st1, st');
    StaysSubseq(st1, st');
    if ok {
      RunListActive(st1, prog);
    }
  }

  lemma StaysSubseq(st: State, st': State)
    requires Stays(st, st')
    ensures Subseq(st'.active, st.active)
  {
  }

  /** Visits tells the story of Visit: the lines visited are a part of the active ones, in
      their order, and each is found in the buffer with the text it had in st0. */
  lemma {:induction false} VisitsLines(st0: State, st: State, prog: Prog)
    requires Ok(st) && Anchored(st0) && Stays(st0, st)
    ensures |Visits(st, prog)| == |Visit(st, prog).2|
    ensures Subseq(Visit(st, prog).2, st.active)
    ensures forall k :: 0 <= k < |Visits(st, prog)| ==> VisitsLine(st0, Visits(st, prog)[k], Visit(st, prog).2[k])
    decreases |st.active|
  {
    hide Stays, Anchored, VisitsLine, RunList, Start, TouchedBy;
    if st.active != [] {
      VisitStep(st0, st, prog);
      var (st', ok) := RunList(Start(st), prog);
      if ok {
        VisitsLines(st0, st', prog);
        SubseqTrans(Visit(st', prog).2, st'.active, st.active[1..]);
      }
    }
  }

  /** A visited line has not been touched at an earlier visit. */
  lemma {:induction false} VisitsUntouched(st0: State, st: State, prog: Prog, j: nat, k: nat)
    requires Ok(st) && Anchored(st0) && Stays(st0, st) && j < k < |Visits(st, prog)|
    ensures |Visits(st, prog)| == |Visit(st, prog).2|
    ensures Visit(st, prog).2[k] !in TouchedBy(Visits(st, prog)[j], prog)
    decreases |st.active|
  {
    hide Stays, Anchored, VisitsLine, RunList, TouchedBy, Visit, Start, Subseq;
    VisitsLines(st0, st, prog);
    VisitStep(st0, st, prog);
    var st' := RunList(Start(st), prog).0;
    if j == 0 {
      VisitsLines(st0, st', prog);
      var x := Visit(st', prog).2[k - 1];
      SubseqIn(Visit(st', prog).2, st'.active);
      WithoutIn(st.active[1..], TouchedBy(Start(st), prog), x);
    } else {
      VisitsUntouched(st0, st', prog, j - 1, k - 1);
    }
  }

  /** A command run at one of the visits touches x. */
  ghost predicate TouchedIn(vs: seq<State>, prog: Prog, x: Id) {
    exists v :: v in vs && Ok(v) && x in TouchedBy(v, prog)
  }

  /** When the command list never fails, every active line is visited, unless a command
      touched it first. */
  lemma {:induction false} VisitsAll(st0: State, st: State, prog: Prog, x: Id)
    requires Ok(st) && Anchored(st0) && Stays(st0, st) && Visit(st, prog).1 && x in st.active
    ensures x in Visit(st, prog).2 || TouchedIn(Visits(st, prog), prog, x)
    decreases |st.active|
  {
    hide Stays, Anchored, VisitsLine, RunList, TouchedBy, Visit, Start, Subseq, Without;
    VisitStep(st0, st, prog);
    if x != st.active[0] {
      var st' := RunList(Start(st), prog).0;
      WithoutIn(st.active[1..], TouchedBy(Start(st), prog), x);
      if x in st'.active {
        VisitsAll(st0, st', prog, x);
      } else {
        assert Start(st) in Visits(st, prog);
      }
    }
  }

  lemma {:induction false} SelectedFrom(ls: seq<Line>, sel: string -> bool, x: Id)
    requires x in Selected(ls, sel)
    ensures exists l :: l in ls && l.id == x && sel(l.text)
  {
    if x !in Selected(ls[1..], sel) {
      assert ls[0] in ls;
    } else {
      SelectedFrom(ls[1..], sel, x);
    }
  }

  lemma {:induction false} SelectedOnce(ls: seq<Line>, sel: string -> bool, next: Id)
    requires Unique(ls, next)
    ensures Once(Selected(ls, sel))
  {
    if ls != [] {
      SelectedOnce(ls[1..], sel, next);
      if ls[0].id in Selected(ls[1..], sel) {
        SelectedFrom(ls[1..], sel, ls[0].id);
      }
    }
  }

  lemma {:induction false} SubseqOnce(s: seq<Id>, t: seq<Id>)
    requires Subseq(s, t) && Once(t)
    ensures Once(s)
    decreases |t|
  {
    if s != [] {
      if s[0] == t[0] {
        SubseqOnce(s[1..], t[1..]);
        SubseqIn(s[1..], t[1..]);
        assert t[0] !in t[1..];
        assert forall j :: 0 < j < |s| ==> s[j] == s[1..][j - 1];
      } else {
        SubseqOnce(s, t[1..]);
      }
    }
  }

  /** The state in which a global command starts to visit lines. */
  function Begin(st: State, from: int, to: int, sel: string -> bool): (r: State)
    requires Ok(st) && InRange(st.now, from, to)
    ensures Ok(r)
  {
    Save(st, false).(active := Selected(st.now.lines[from - 1..to], sel))
  }

  lemma BeginAnchored(st: State, from: int, to: int, sel: string -> bool)
    requires Ok(st) && Named(st) && InRange(st.now, from, to)
    ensures Anchored(Begin(st, from, to, sel))
  {
    var range := st.now.lines[from - 1..to];
    forall x | x in Selected(range, sel)
      ensures x < st.next && exists l :: l in st.now.lines && l.id == x
    {
      SelectedFrom(range, sel, x);
      var l :| l in range && l.id == x;
      assert l in st.now.lines;
    }
  }

  /** A global command visits selected lines in order, each at most once.  When it comes to
      a line, the line is still in the buffer, its text still matches, and no command run on
      an earlier line has touched it. */
  lemma GlobalVisits(st: State, from: int, to: int, sel: string -> bool, prog: Prog, k: nat)
    requires Ok(st) && Named(st) && InRange(st.now, from, to)
    requires k < |Global(st, from, to, sel, prog).2|
    ensures var visited := Global(st, from, to, sel, prog).2; var vs := Visits(Begin(st, from, to, sel), prog);
            && Subseq(visited, Selected(st.now.lines[from - 1..to], sel))
            && (forall i, j :: 0 <= i < j < |visited| ==> visited[i] != visited[j])
            && |vs| == |visited| && VisitsLine(st, vs[k], visited[k])
            && sel(vs[k].now.lines[vs[k].now.cur - 1].text)
            && forall j :: 0 <= j < k ==> visited[k] !in TouchedBy(vs[j], prog)
  {
    hide Subseq, Visit, Visits, TouchedBy, Selected, Stays;
    var b := Begin(st, from, to, sel);
    var range := st.now.lines[from - 1..to];
    BeginAnchored(st, from, to, sel);
    StaysSame(b);
    VisitsLines(b, b, prog);
    var visited := Visit(b, prog).2;
    var vs := Visits(b, prog);
    forall j | 0 <= j < k
      ensures visited[k] !in TouchedBy(vs[j], prog)
    {
      VisitsUntouched(b, b, prog, j, k);
    }
    assert VisitsLine(b, vs[k], visited[k]);
    SelectedOnce(range, sel, st.next);
    SubseqOnce(visited, b.active);
    SubseqIn(visited, b.active);
    SelectedFrom(range, sel, visited[k]);
    var l :| l in range && l.id == visited[k] && sel(l.text);
    SameLine(st.now.lines, st.next, l, vs[k].now.lines[vs[k].now.cur - 1]);
  }

  /** A global command that does not fail leaves out no selected line, except those that a
      command run on another line touched. */
  lemma GlobalVisitsAll(st: State, from: int, to: int, sel: string -> bool, prog: Prog, x: Id)
    requires Ok(st) && Named(st) && InRange(st.now, from, to) && Global(st, from, to, sel, prog).1
    requires x in Selected(st.now.lines[from - 1..to], sel)
    ensures var vs := Visits(Begin(st, from, to, sel), prog);
            x in Global(st, from, to, sel, prog).2 || TouchedIn(vs, prog, x)
  {
    hide Visit, Visits, TouchedBy, Selected, Stays;
    var b := Begin(st, from, to, sel);
    BeginAnchored(st, from, to, sel);
    StaysSame(b);
    VisitsAll(b, b, prog, x);
  }

  // ----- marks

  /** Is m the only line that b has under its id? */
  ghost predicate OnlyIn(b: Buf, l: Line) {
    forall m :: m in b.lines && m.id == l.id ==> m == l
  }

  /** The id of l stands for l, in the buffer, in the saved copy and in all lines to come. */
  ghost predicate Only(st: State, l: Line) {
    l.id < st.next && OnlyIn(st.now, l) && (st.saved.Some? ==> OnlyIn(st.saved.value, l))
  }

  lemma NamedOnly(st: State, l: Line)
    requires Named(st) && l in st.now.lines
    ensures Only(st, l)
  {
    forall m | m in st.now.lines && m.id == l.id
      ensures m == l
    {
      SameLine(st.now.lines, st.next, l, m);
    }
  }

  /** The command sets the i-th mark. */
  predicate Sets(cmd: Cmd, i: nat) {
    cmd.Mark? && MarkChar(cmd.c) && MarkNo(cmd.c) == i
  }

  lemma ExecBears(st: State, cmd: Cmd, g: bool, l: Line, i: nat)
    requires Ok(st) && Only(st, l) && i < MAXMARK && !Sets(cmd, i)
    ensures var r := Exec(st, cmd, g).0;
            && Only(r, l) && r.next >= st.next
            && r.marks[i] == if !g && Legal(st.now, cmd) && Edits(cmd) then MarksIn(st.marks, st.now.lines)[i] else st.marks[i]
  {
    hide Edit, MarksIn, Subseq;
    if Legal(st.now, cmd) && Edits(cmd) {
      EditFollows(Save(st, g), cmd, g);
    }
  }

  /** No command of the list sets the i-th mark. */
  ghost predicate Spares(prog: Prog, i: nat) {
    forall k, b, m :: 0 <= k < |prog| ==> !Sets(prog[k](b, m), i)
  }

  lemma {:induction false} RunListBears(st: State, prog: Prog, l: Line, i: nat)
    requires Ok(st) && Only(st, l) && i < MAXMARK && Spares(prog, i)
    ensures var r := RunList(st, prog).0; Only(r, l) && r.marks[i] == st.marks[i]
    decreases |prog|
  {
    hide Only, Exec, Sets;
    if prog != [] {
      var cmd := prog[0](st.now, st.marks);
      ExecBears(st, cmd, true, l, i);
      assert forall k, b, m :: 0 <= k < |prog[1..]| ==> !Sets(prog[1..][k](b, m), i);
      RunListBears(Exec(st, cmd, true).0, prog[1..], l, i);
    }
  }

  lemma {:induction false} VisitBears(st: State, prog: Prog, l: Line, i: nat)
    requires Ok(st) && Only(st, l) && i < MAXMARK && Spares(prog, i)
    ensures var r := Visit(st, prog).0; Only(r, l) && r.marks[i] == st.marks[i]
    decreases |st.active|
  {
    hide OnlyIn, RunList, Spares;
    if st.active != [] {
      match AddrOf(st.now.lines, st.active[0])
      case None =>
      case Some(addr) =>
        var st1 := Goto(st, addr).(active := st.active[1..]);
        GotoOnly(st, addr, l);
        RunListBears(st1, prog, l, i);
        VisitBears(RunList(st1, prog).0, prog, l, i);
    }
  }

  lemma GotoOnly(st: State, addr: nat, l: Line)
    requires OnlyIn(st.now, l)
    ensures OnlyIn(Goto(st, addr).now, l)
  {
  }

  /** The command is one before which the undo stack is cleared. */
  predicate Clears(b: Buf, top: TopCmd) {
    match top
    case Do(cmd) => Legal(b, cmd) && Edits(cmd)
    case ForEach(from, to, _, _) => InRange(b, from, to)
  }

  ghost predicate SparesTop(top: TopCmd, i: nat) {
    match top
    case Do(cmd) => !Sets(cmd, i)
    case ForEach(_, _, _, prog) => Spares(prog, i)
  }

  lemma TopBears(st: State, top: TopCmd, l: Line, i: nat)
    requires Ok(st) && Only(st, l) && i < MAXMARK && SparesTop(top, i)
    ensures var r := Top(st, top).0;
            && Only(r, l)
            && r.marks[i] == if Clears(st.now, top) then MarksIn(st.marks, st.now.lines)[i] else st.marks[i]
  {
    hide Exec, Visit, OnlyIn;
    match top {
      case Do(cmd) => ExecBears(st, cmd, false, l, i);
      case ForEach(from, to, sel, prog) =>
        if InRange(st.now, from, to) {
          VisitBears(Save(st, false).(active := Selected(st.now.lines[from - 1..to], sel)), prog, l, i);
        }
    }
  }

  /** No command of the script sets the i-th mark. */
  ghost predicate SparesAll(script: Script, i: nat) {
    forall k, b, m :: 0 <= k < |script| ==> SparesTop(script[k](b, m), i)
  }

  /** Whenever the session clears the undo stack, x is in the buffer. */
  predicate Held(st: State, script: Script, tty: bool, x: Id)
    requires Ok(st)
    decreases |script|
  {
    script == [] ||
    var top := script[0](st.now, st.marks);
    var (st', ok) := Top(st, top);
    && (Clears(st.now, top) ==> x in Ids(st.now.lines))
    && (ok || tty ==> Held(st', script[1..], tty, x))
  }

  lemma MarksInAt(marks: Marks, ls: seq<Line>, i: nat)
    requires i < |marks|
    ensures MarksIn(marks, ls)[i] == if marks[i].Some? && marks[i].value in Ids(ls) then marks[i] else None
  {
  }

  lemma {:induction false} SessionBears(st: State, script: Script, tty: bool, l: Line, i: nat)
    requires Ok(st) && Only(st, l) && i < MAXMARK && SparesAll(script, i) && st.marks[i] in {Some(l.id), None}
    ensures var r := Session(st, script, tty);
            Only(r, l) && r.marks[i] == if Held(st, script, tty, l.id) then st.marks[i] else None
    decreases |script|
  {
    hide Only, Top, SparesTop, MarksIn, Clears, Ids;
    if script != [] {
      var top := script[0](st.now, st.marks);
      TopBears(st, top, l, i);
      MarksInAt(st.marks, st.now.lines, i);
      assert forall k, b, m :: 0 <= k < |script[1..]| ==> SparesTop(script[1..][k](b, m), i);
      SessionBears(Top(st, top).0, script[1..], tty, l, i);
    }
  }

  /** A mark leads to its line wherever the line goes, and never to another.  As long as the mark is
      not set again, it leads there whenever the line is in the buffer, after moves and after u has
      brought the line back; it is lost exactly when the undo stack was cleared while the
      line was out of the buffer, and then for good. */
  lemma SessionMark(st: State, script: Script, tty: bool, l: Line, c: char)
    requires Ok(st) && Named(st) && l in st.now.lines && MarkChar(c) && st.marks[MarkNo(c)] == Some(l.id)
    requires SparesAll(script, MarkNo(c))
    ensures var r := Session(st, script, tty);
            match MarkAddr(r.now, r.marks, c)
            case None => r.now.lines != [] && (l !in r.now.lines || !Held(st, script, tty, l.id))
            case Some(a) => r.now.lines == [] || (1 <= a <= |r.now.lines| && r.now.lines[a - 1] == l && Held(st, script, tty, l.id))
  {
    hide SparesAll, Held, Session;
    NamedOnly(st, l);
    SessionBears(st, script, tty, l, MarkNo(c));
    var r := Session(st, script, tty);
    if r.marks[MarkNo(c)].Some? {
      LineFound(r.now, l);
    }
  }

  lemma LineFound(b: Buf, l: Line)
    requires OnlyIn(b, l)
    ensures match AddrOf(b.lines, l.id)
            case None => l !in b.lines
            case Some(a) => b.lines[a - 1] == l
  {
  }

  lemma MarksInLead(b: Buf, marks: Marks, c: char)
    requires |marks| == MAXMARK
    ensures MarkAddr(b, MarksIn(marks, b.lines), c) == MarkAddr(b, marks, c)
  {
    if MarkChar(c) && marks[MarkNo(c)].Some? {
      var x := marks[MarkNo(c)].value;
      MarksInAt(marks, b.lines, MarkNo(c));
      AddrIds(b.lines, x);
    }
  }

  lemma AddrIds(ls: seq<Line>, x: Id)
    ensures AddrOf(ls, x).Some? <==> x in Ids(ls)
  {
    match AddrOf(ls, x)
    case None =>
    case Some(a) => assert Ids(ls)[a - 1] == x;
  }

  /** Undoing a command gives every mark the address it had before the command. */
  lemma UndoRestoresMarks(st: State, cmd: Cmd, c: char)
    requires Ok(st) && Legal(st.now, cmd) && Edits(cmd)
    ensures var undone := Exec(Exec(st, cmd, false).0, Undo, false).0;
            MarkAddr(undone.now, undone.marks, c) == MarkAddr(st.now, st.marks, c)
  {
    hide MarksIn, MarkAddr, Edit;
    MarksInLead(st.now, st.marks, c);
  }

  /** No command of the list sets a mark. */
  ghost predicate NoMark(prog: Prog) {
    forall i, b, m :: 0 <= i < |prog| ==> !prog[i](b, m).Mark?
  }

  lemma {:induction false} RunListMarks(st: State, prog: Prog)
    requires Ok(st) && NoMark(prog)
    ensures RunList(st, prog).0.marks == st.marks
    decreases |prog|
  {
    hide Edit, Marked;
    if prog != [] {
      assert !prog[0](st.now, st.marks).Mark?;
      assert forall i, b, m :: 0 <= i < |prog[1..]| ==> !prog[1..][i](b, m).Mark?;
      RunListMarks(Exec(st, prog[0](st.now, st.marks), true).0, prog[1..]);
    }
  }

  lemma {:induction false} VisitMarks(st: State, prog: Prog)
    requires Ok(st) && NoMark(prog)
    ensures Visit(st, prog).0.marks == st.marks
    decreases |st.active|
  {
    if st.active != [] {
      match AddrOf(st.now.lines, st.active[0])
      case None =>
      case Some(addr) =>
        var st1 := Goto(st, addr).(active := st.active[1..]);
        RunListMarks(st1, prog);
        VisitMarks(RunList(st1, prog).0, prog);
    }
  }

  /** So does undoing a global command. */
  lemma GlobalUndoneMarks(st: State, from: int, to: int, sel: string -> bool, prog: Prog, c: char)
    requires Ok(st) && InRange(st.now, from, to) && NoUndo(prog) && NoMark(prog)
    ensures var undone := Exec(Global(st, from, to, sel, prog).0, Undo, false).0;
            MarkAddr(undone.now, undone.marks, c) == MarkAddr(st.now, st.marks, c)
  {
    hide MarksIn, MarkAddr, Visit, NoMark;
    GlobalUndone(st, from, to, sel, prog);
    VisitMarks(Save(st, false).(active := Selected(st.now.lines[from - 1..to], sel)), prog);
    MarksInLead(st.now, st.marks, c);
  }

  /** Where the lines only change places, a mark stays on its line. */
  lemma MarkKept(b: Buf, b': Buf, marks: Marks, c: char, next: Id)
    requires |marks| == MAXMARK && Unique(b.lines, next) && forall l :: l in b'.lines <==> l in b.lines
    ensures match MarkAddr(b, marks, c)
            case None => MarkAddr(b', marks, c).None?
            case Some(a) =>
              && MarkAddr(b', marks, c).Some?
              && (a > 0 ==> var a' := MarkAddr(b', marks, c).value;
                            a <= |b.lines| && 1 <= a' <= |b'.lines| && b'.lines[a' - 1] == b.lines[a - 1])
  {
    hide AddrOf, Unique;
    assert b'.lines != [] ==> b'.lines[0] in b.lines;
    assert b.lines != [] ==> b.lines[0] in b'.lines;
    if MarkChar(c) && marks[MarkNo(c)].Some? {
      var x := marks[MarkNo(c)].value;
      match AddrOf(b.lines, x)
      case None => assert forall l :: l in b.lines ==> l.id != x;
      case Some(a) =>
        var l := b.lines[a - 1];
        assert l in b.lines && l in b'.lines;
        forall m | m in b'.lines && m.id == l.id
          ensures m == l
        {
          SameLine(b.lines, next, l, m);
        }
        LineFound(b', l);
    }
  }

  /** A moved line takes its mark with it, and so does every line that makes room. */
  lemma MoveMark(st: State, from: nat, to: nat, addr: nat, c: char)
    requires Ok(st) && Named(st) && Legal(st.now, Move(from, to, addr))
    ensures var r := Exec(st, Move(from, to, addr), false).0;
            match MarkAddr(st.now, st.marks, c)
            case None => MarkAddr(r.now, r.marks, c).None?
            case Some(a) =>
              && MarkAddr(r.now, r.marks, c).Some?
              && (a > 0 ==> var a' := MarkAddr(r.now, r.marks, c).value;
                            1 <= a' <= |r.now.lines| && r.now.lines[a' - 1] == st.now.lines[a - 1])
  {
    hide MarksIn, MarkAddr, MoveSeq, Unique;
    MovedLines(st.now.lines, from, to, addr);
    MarksInLead(st.now, st.marks, c);
    MarkKept(st.now, Exec(st, Move(from, to, addr), false).0.now, MarksIn(st.marks, st.now.lines), c, st.next);
  }

  lemma MovedLines(lines: seq<Line>, from: nat, to: nat, addr: nat)
    requires 1 <= from <= to <= |lines| && addr <= |lines| && !(from <= addr < to)
    ensures forall l :: l in MoveSeq(lines, from, to, addr) <==> l in lines
  {
    if addr < from {
      assert lines == lines[..addr] + lines[addr..from - 1] + lines[from - 1..to] + lines[to..];
    } else {
      assert lines == lines[..from - 1] + lines[from - 1..to] + lines[to..addr] + lines[addr..];
    }
  }

  // ----- substitution

  /** The texts a substitution puts in the place of one. */
  function Image(f: string -> Sub, text: string): seq<string> {
    match f(text)
    case SubError => []
    case NoMatch => [text]
    case NewLines(first, rest) => [first] + rest
  }

  /** A line at which a substitution fails: substitute_matching_text refuses it, or a line that
      would replace it is too long. */
  predicate Broken(f: string -> Sub, text: string) {
    f(text).SubError? || (f(text).NewLines? && Fit(Image(f, text)) != Image(f, text))
  }

  /** How many texts precede the first at which the substitution fails. */
  function Sound(f: string -> Sub, texts: seq<string>): (k: nat)
    ensures k <= |texts| && (k < |texts| ==> Broken(f, texts[k]))
    ensures forall i :: 0 <= i < k ==> !Broken(f, texts[i])
  {
    if texts == [] || Broken(f, texts[0]) then 0 else 1 + Sound(f, texts[1..])
  }

  /** What is left of a text at which the substitution fails. */
  function Remains(f: string -> Sub, text: string): seq<string> {
    if f(text).SubError? then [text] else Fit(Image(f, text))
  }

  /** What is left from there on. */
  function Halted(f: string -> Sub, texts: seq<string>): seq<string> {
    if texts == [] then [] else Remains(f, texts[0]) + texts[1..]
  }

  /** What a substitution makes of texts. */
  function Results(f: string -> Sub, texts: seq<string>): seq<string> {
    var k := Sound(f, texts);
    Images(f, texts[..k]) + Halted(f, texts[k..])
  }

  function Images(f: string -> Sub, texts: seq<string>): seq<string> {
    if texts == [] then [] else Image(f, texts[0]) + Images(f, texts[1..])
  }

  lemma TextsConcat(a: seq<Line>, b: seq<Line>)
    ensures Texts(a + b) == Texts(a) + Texts(b)
  {
  }

  lemma TextsFresh(texts: seq<string>, next: Id)
    ensures Texts(Fresh(texts, next)) == texts
  {
  }

  lemma SwapTexts(st: State, texts: seq<string>)
    requires st.now.cur < |st.now.lines|
    ensures var (r, ok) := Swap(st, texts);
            && ok == (Fit(texts) == texts) && r.now.cur == st.now.cur + |Fit(texts)|
            && Texts(r.now.lines[..r.now.cur]) == Texts(st.now.lines[..st.now.cur]) + Fit(texts)
  {
    hide Without, Ids, Texts;
    var Buf(lines, cur) := st.now;
    var (r, ok) := Swap(st, texts);
    var put := Fresh(Fit(texts), st.next);
    assert r.now.lines == (lines[..cur] + lines[cur + 1..])[..cur] + put + lines[cur + 1..];
    assert r.now.lines[..r.now.cur] == lines[..cur] + put;
    TextsConcat(lines[..cur], put);
    TextsFresh(Fit(texts), st.next);
  }

  lemma SoundCons(f: string -> Sub, text: string, texts: seq<string>)
    ensures Sound(f, [text] + texts) == if Broken(f, text) then 0 else 1 + Sound(f, texts)
  {
    hide Broken;
    assert ([text] + texts)[0] == text && ([text] + texts)[1..] == texts;
  }

  lemma ResultsBroken(f: string -> Sub, text: string, texts: seq<string>)
    requires Broken(f, text)
    ensures Results(f, [text] + texts) == Remains(f, text) + texts
  {
    hide Broken, Remains, Images, Sound;
    SoundCons(f, text, texts);
    ResultsNone(f, []);
    var all := [text] + texts;
    assert all[..0] == [] && all[0..] == all && all[1..] == texts;
  }

  lemma ResultsSound(f: string -> Sub, text: string, texts: seq<string>)
    requires !Broken(f, text)
    ensures Results(f, [text] + texts) == Image(f, text) + Results(f, texts)
  {
    hide Broken, Image, Halted, Images, Sound;
    SoundCons(f, text, texts);
    var all, k := [text] + texts, Sound(f, texts);
    assert all[..k + 1] == [text] + texts[..k] && all[k + 1..] == texts[k..];
    ImagesCons(f, text, texts[..k]);
  }

  lemma ImagesCons(f: string -> Sub, text: string, texts: seq<string>)
    ensures Images(f, [text] + texts) == Image(f, text) + Images(f, texts)
  {
    assert ([text] + texts)[1..] == texts;
  }

  /** The state behind the next line. */
  function Passed(st: State, f: string -> Sub): State
    requires st.now.cur < |st.now.lines|
  {
    match f(st.now.lines[st.now.cur].text)
    case NewLines(first, rest) => Swap(st, [first] + rest).0
    case _ => Goto(st, st.now.cur + 1)
  }

  lemma PassedTexts(st: State, f: string -> Sub, line: Line, rest: seq<Line>)
    requires st.now.cur < |st.now.lines| && st.now.lines[st.now.cur..] == [line] + rest
    ensures var r := Passed(st, f).now;
            && r.cur <= |r.lines| && r.lines[r.cur..] == rest
            && Texts(r.lines[..r.cur]) == Texts(st.now.lines[..st.now.cur])
             + (if Broken(f, line.text) then Remains(f, line.text) else Image(f, line.text))
  {
    hide Texts, Swap, Fit;
    var Buf(lines, cur) := st.now;
    assert lines[cur] == line && lines[cur + 1..] == rest;
    if f(line.text).NewLines? {
      SwapTexts(st, Image(f, line.text));
    } else {
      assert lines[..cur + 1] == lines[..cur] + [line];
      TextsSnoc(lines[..cur], line);
    }
  }

  lemma PassedSubst(st: State, n: nat, f: string -> Sub, xa: nat, subs: nat, g: bool)
    requires 0 < n && st.now.cur + n <= |st.now.lines|
    ensures var st', text := Passed(st, f), st.now.lines[st.now.cur].text;
            && st'.now.cur + (n - 1) <= |st'.now.lines|
            && SubstLines(st, n, f, xa, subs, g) ==
               if Broken(f, text) then (st', false)
               else if f(text).NewLines? then SubstLines(st', n - 1, f, st'.now.cur, subs + 1, g)
               else SubstLines(st', n - 1, f, xa, subs, g)
  {
    hide SubstLines, Texts, Fit;
    var text := st.now.lines[st.now.cur].text;
    SubstNext(st, n, f, xa, subs, g);
    if f(text).NewLines? {
      SwapTexts(st, Image(f, text));
    }
  }

  lemma SelectedMore(line: Line, tail: seq<Line>, f: string -> Sub)
    ensures Selected([line] + tail, Hits(f)) != [] <==> f(line.text).NewLines? || Selected(tail, Hits(f)) != []
  {
    SelectedHits(line, tail, f);
  }

  /** search_and_replace examines every line of its range once, the lines it puts in
      excluded, and replaces it by its image, up to the first line at which it fails; the lines
      around the range stay. */
  lemma {:induction false} SubstImages(st: State, n: nat, f: string -> Sub, xa: nat, subs: nat, g: bool,
                                       range: seq<Line>, post: seq<Line>)
    requires st.now.cur + n <= |st.now.lines| && |range| == n && st.now.lines[st.now.cur..] == range + post
    ensures var (r, ok) := SubstLines(st, n, f, xa, subs, g);
            && Texts(r.now.lines) == Texts(st.now.lines[..st.now.cur]) + Results(f, Texts(range)) + Texts(post)
            && ok == (Sound(f, Texts(range)) == n && (subs != 0 || g || Selected(range, Hits(f)) != []))
    decreases n
  {
    hide SubstLines, Broken, Texts, Results, Hits, Selected, Image, Passed, Sound, Remains;
    var Buf(lines, cur) := st.now;
    if n == 0 {
      SubstEnds(st, f, xa, subs, g);
      assert lines == lines[..cur] + post;
      TextsConcat(lines[..cur], post);
      ResultsNone(f, range);
    } else {
      var line, tail := range[0], range[1..];
      assert range == [line] + tail && lines[cur..] == [line] + (tail + post) && lines[cur] == line;
      TextsCons(line, tail);
      SoundCons(f, line.text, Texts(tail));
      SelectedMore(line, tail, f);
      PassedTexts(st, f, line, tail + post);
      PassedSubst(st, n, f, xa, subs, g);
      var st' := Passed(st, f);
      if Broken(f, line.text) {
        ResultsBroken(f, line.text, Texts(tail));
        assert st'.now.lines == st'.now.lines[..st'.now.cur] + (tail + post);
        TextsConcat(st'.now.lines[..st'.now.cur], tail + post);
        TextsConcat(tail, post);
      } else if f(line.text).NewLines? {
        ResultsSound(f, line.text, Texts(tail));
        SubstImages(st', n - 1, f, st'.now.cur, subs + 1, g, tail, post);
      } else {
        ResultsSound(f, line.text, Texts(tail));
        SubstImages(st', n - 1, f, xa, subs, g, tail, post);
      }
    }
  }

  lemma SubstEnds(st: State, f: string -> Sub, xa: nat, subs: nat, g: bool)
    requires st.now.cur <= |st.now.lines|
    ensures SubstLines(st, 0, f, xa, subs, g) == (Goto(st, xa), subs != 0 || g)
  {
  }

  lemma ResultsNone(f: string -> Sub, range: seq<Line>)
    requires range == []
    ensures Images(f, []) == [] && Results(f, Texts(range)) == [] && Sound(f, Texts(range)) == 0 && Selected(range, Hits(f)) == []
  {
  }

  lemma TextsCons(line: Line, ls: seq<Line>)
    ensures Texts([line] + ls) == [line.text] + Texts(ls)
  {
  }

  lemma TextsSnoc(ls: seq<Line>, line: Line)
    ensures Texts(ls + [line]) == Texts(ls) + [line.text]
  {
  }

  /** The scan of a line on which the pattern matches. */
  function ScanOf(how: EdSubst.How, text: string): EdSubst.Scan
    requires how.pat.exec(text, false).Some?
  {
    EdSubst.ScanFrom(how.pat, how.tmpl, text, how.pat.exec(text, false).value, how.kth, 1, how.g)
  }

  /** The lines are what the substitution promises for text: text itself where there are too few
      matches, and otherwise the lines of text with the chosen matches replaced. */
  ghost predicate Means(how: EdSubst.How, text: string, lines: seq<string>) {
    if how.pat.exec(text, false).None? || |ScanOf(how, text).segs| < how.kth then lines == [text]
    else
      var s := ScanOf(how, text);
      && EdSubst.Original(s.segs) + s.tail == text
      && (forall i :: 0 <= i < |s.segs| ==> (s.segs[i].chosen <==> how.kth == 0 || i + 1 == how.kth))
      && lines != [] && EdSubst.Joined(lines) == EdSubst.Rendered(s.segs) + s.tail
      && (forall i :: 0 <= i < |lines| ==> '\n' !in lines[i])
  }

  /** A substitution fails on a line when the flag g meets an empty match before the end, or when
      a line it makes is too long. */
  ghost predicate Fails(how: EdSubst.How, text: string) {
    how.pat.exec(text, false).Some? &&
    var s := ScanOf(how, text);
    || (how.g && s.stuck && s.tail != "")
    || (|s.segs| >= how.kth && exists l :: l in EdSubst.Lines(EdSubst.Rendered(s.segs) + s.tail) && |l| >= LINECHARS)
  }

  lemma {:induction false} FitAll(texts: seq<string>)
    ensures Fit(texts) == texts <==> forall t :: t in texts ==> |t| < LINECHARS
  {
    if texts != [] {
      FitAll(texts[1..]);
      assert texts == [texts[0]] + texts[1..];
      if |texts[0]| < LINECHARS && Fit(texts) == texts {
        assert Fit(texts[1..]) == Fit(texts)[1..];
      }
    }
  }

  lemma ReplacerImage(how: EdSubst.How, text: string)
    requires !EdSubst.Replacer(how)(text).SubError?
    ensures Means(how, text, Image(EdSubst.Replacer(how), text))
    ensures EdSubst.Replacer(how)(text).NewLines? <==> how.pat.exec(text, false).Some? && |ScanOf(how, text).segs| >= how.kth
    ensures EdSubst.Replacer(how)(text).NewLines? ==>
            var s := ScanOf(how, text); Image(EdSubst.Replacer(how), text) == EdSubst.Lines(EdSubst.Rendered(s.segs) + s.tail)
  {
    hide EdSubst.ScanFrom, EdSubst.Lines, EdSubst.Joined, EdSubst.Rendered, EdSubst.Original, EdSubst.Changed;
    if how.pat.exec(text, false).Some? {
      EdSubst.SubstitutedMeans(how.pat, how.tmpl, how.kth, how.g, text);
      var s := ScanOf(how, text);
      var lines := EdSubst.Lines(EdSubst.Rendered(s.segs) + s.tail);
      EdSubst.JoinedLines(EdSubst.Rendered(s.segs) + s.tail);
      assert [lines[0]] + lines[1..] == lines;
    }
  }

  lemma ReplacerFails(how: EdSubst.How, text: string)
    ensures Broken(EdSubst.Replacer(how), text) <==> Fails(how, text)
  {
    hide EdSubst.ScanFrom, EdSubst.Lines, EdSubst.Joined, EdSubst.Rendered, EdSubst.Original, EdSubst.Changed, Fit, Means;
    if how.pat.exec(text, false).Some? {
      EdSubst.SubstitutedMeans(how.pat, how.tmpl, how.kth, how.g, text);
    }
    if !EdSubst.Replacer(how)(text).SubError? {
      ReplacerImage(how, text);
      FitAll(Image(EdSubst.Replacer(how), text));
    }
  }

  /** Does the substitution change some of the texts? */
  ghost predicate Matches(how: EdSubst.How, texts: seq<string>) {
    exists t :: t in texts && how.pat.exec(t, false).Some? && |ScanOf(how, t).segs| >= how.kth
  }

  /** The whole substitute command, outside of a global one, for all patterns, templates, counts and
      flags.  It succeeds exactly when it fails on no line and changes at least one.  The lines
      before the first on which it fails are replaced as the template says, the lines behind it
      stay. */
  lemma SubstCommand(st: State, from: nat, to: nat, how: EdSubst.How)
    requires Ok(st) && InRange(st.now, from, to)
    ensures var lines := st.now.lines; var (r, ok) := Exec(st, Subst(from, to, how), false);
            var f := EdSubst.Replacer(how); var texts := Texts(lines[from - 1..to]); var k := Sound(f, texts);
            && Texts(r.now.lines) == Texts(lines[..from - 1]) + Results(f, texts) + Texts(lines[to..])
            && (k < |texts| ==> Fails(how, texts[k]))
            && (forall i :: 0 <= i < k ==> !Fails(how, texts[i]) && Means(how, texts[i], Image(f, texts[i])))
            && (ok <==> (forall t :: t in texts ==> !Fails(how, t)) && Matches(how, texts))
  {
    hide SubstLines, Images, Broken, Results, Fails, Means, Image, ScanOf;
    var lines, f := st.now.lines, EdSubst.Replacer(how);
    var range := lines[from - 1..to];
    var texts := Texts(range);
    var k := Sound(f, texts);
    assert lines[from - 1..] == range + lines[to..];
    SubstImages(Goto(Save(st, false), from - 1), to - from + 1, f, st.now.cur, 0, false, range, lines[to..]);
    forall i | 0 <= i < |texts|
      ensures Broken(f, texts[i]) <==> Fails(how, texts[i])
      ensures !Broken(f, texts[i]) ==> Means(how, texts[i], Image(f, texts[i]))
    {
      ReplacerFails(how, texts[i]);
      if !Broken(f, texts[i]) {
        UnbrokenImage(how, texts[i]);
      }
    }
    if k == |texts| {
      MatchesSome(how, range);
    }
  }

  lemma UnbrokenImage(how: EdSubst.How, text: string)
    requires !Broken(EdSubst.Replacer(how), text)
    ensures Means(how, text, Image(EdSubst.Replacer(how), text))
  {
    hide Means;
    ReplacerImage(how, text);
  }

  lemma MatchesSome(how: EdSubst.How, range: seq<Line>)
    requires Sound(EdSubst.Replacer(how), Texts(range)) == |range|
    ensures Selected(range, Hits(EdSubst.Replacer(how))) != [] <==> Matches(how, Texts(range))
  {
    hide Means, ScanOf, Selected;
    var f := EdSubst.Replacer(how);
    SelectedSome(range, Hits(f));
    forall i | 0 <= i < |range|
      ensures f(range[i].text).NewLines? <==> how.pat.exec(range[i].text, false).Some? && |ScanOf(how, range[i].text).segs| >= how.kth
    {
      assert Texts(range)[i] == range[i].text;
      ReplacerImage(how, range[i].text);
    }
    assert forall i :: 0 <= i < |range| ==> Texts(range)[i] == range[i].text && range[i] in range;
  }

  lemma {:induction false} SelectedSome(ls: seq<Line>, sel: string -> bool)
    ensures Selected(ls, sel) != [] <==> exists l :: l in ls && sel(l.text)
  {
    if ls != [] {
      SelectedSome(ls[1..], sel);
      assert ls == [ls[0]] + ls[1..];
    }
  }
}
