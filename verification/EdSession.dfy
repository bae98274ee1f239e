/** exec_command and exec_global over the linked buffer, proved against the reference
    editor; and the editor as an object that runs whole scripts. */
module EdSession {
  import opened EdLinks
  import opened EdHistory
  import opened EdTypes
  import EdSubst
  import opened EdSpec
  import opened EdState
  import opened EdBuf
  import opened EdGlobal
  import opened EdMain
  import opened EdUndo
  import opened EdClear

  lemma AbsSize(e: Ed, v: View)
    requires Valid(e, v)
    ensures |Abs(e, v).now.lines| == e.addrLast && Abs(e, v).now.cur == e.currentAddr <= e.addrLast
    ensures Ok(Abs(e, v)) && |v.ring| == e.addrLast + 1 && e.cache.on <= e.addrLast && e.cache.lp == v.ring[e.cache.on]
  {
    assert Shape(v.hist[0]);
  }

  /** clear_undo_stack unless a global command is running. */
  method SaveUndo(e: Ed, ghost v: View) returns (e': Ed, ghost v': View)
    requires Valid(e, v)
    ensures Valid(e', v') && Abs(e', v') == Save(Abs(e, v), e.isglobal) && e'.isglobal == e.isglobal
  {
    if e.isglobal {
      e', v' := e, v;
    } else {
      ghost var gone;
      e', v', gone := ClearUndo(e, v);
    }
  }

  /** The case of exec_command for d. */
  method DeleteCommand(e: Ed, ghost v: View, from: nat, to: nat) returns (e': Ed, ghost v': View)
    requires Valid(e, v) && 1 <= from <= to <= e.addrLast && InRange(Abs(e, v).now, from, to)
    ensures Valid(e', v') && Abs(e', v') == DeleteAndStep(Abs(e, v), from, to) && e'.isglobal == e.isglobal
  {
    hide Valid, Abs;
    e', v' := DeleteLines(e, v, from, to);
    AbsSize(e', v');
    var addr := IncMod(e'.currentAddr, e'.addrLast);
    if addr != 0 {
      GotoValid(e', v', addr, e'.cache);
      e' := e'.(currentAddr := addr);
    }
  }

  /** The cases of exec_command for a, i and c. */
  method AppendCommand(e: Ed, ghost v: View, cmd: Cmd) returns (ok: bool, e': Ed, ghost v': View)
    requires Valid(e, v) && Legal(Abs(e, v).now, cmd) && Ok(Abs(e, v)) && (cmd.Append? || cmd.Insert? || cmd.Change?)
    ensures Valid(e', v') && (Abs(e', v'), ok) == Edit(Abs(e, v), cmd, e.isglobal) && e'.isglobal == e.isglobal
  {
    hide Valid, Abs, Put, DeleteRange, SubstLines;
    AbsSize(e, v);
    if cmd.Append? {
      ok, e', v' := AppendLines(e, v, cmd.addr, cmd.texts);
    } else if cmd.Insert? {
      ok, e', v' := AppendLines(e, v, cmd.addr - 1, cmd.texts);
    } else {
      e', v' := DeleteLines(e, v, cmd.from, cmd.to);
      ok, e', v' := PutLines(e', v', cmd.texts);
    }
  }

  /** exec_command, once the addresses are checked and the undo stack is clear. */
  method EditCommand(e: Ed, ghost v: View, cmd: Cmd) returns (ok: bool, e': Ed, ghost v': View)
    requires Valid(e, v) && Legal(Abs(e, v).now, cmd) && Edits(cmd) && Ok(Abs(e, v))
    ensures Valid(e', v') && (Abs(e', v'), ok) == Edit(Abs(e, v), cmd, e.isglobal) && e'.isglobal == e.isglobal
  {
    hide Valid, Abs, Put, DeleteRange, JoinRange, MoveRange, CopyRange, SubstLines, DeleteAndStep;
    AbsSize(e, v);
    ok, e', v' := true, e, v;
    match cmd {
      case Delete(from, to) =>
        e', v' := DeleteCommand(e, v, from, to);
      case Join(from, to) =>
        if from != to {
          ok, e', v' := JoinLines(e, v, from, to);
        }
      case Move(from, to, addr) =>
        e', v' := MoveLines(e, v, from, to, addr);
      case Copy(from, to, addr) =>
        e', v' := CopyLines(e, v, from, to, addr);
      case Subst(from, to, how) =>
        ok, e', v' := SearchReplace(e, v, from, to, how);
      case _ =>
        ok, e', v' := AppendCommand(e, v, cmd);
    }
  }

  /** The address checks, which read addr_last. */
  method LegalCommand(e: Ed, ghost v: View, cmd: Cmd) returns (ok: bool)
    requires Valid(e, v)
    ensures ok == Legal(Abs(e, v).now, cmd)
  {
    hide Valid, Abs;
    AbsSize(e, v);
    match cmd
    case Append(addr, _) => ok := 0 <= addr <= e.addrLast;
    case Insert(addr, _) => ok := 1 <= addr <= e.addrLast;
    case Change(from, to, _) => ok := 1 <= from <= to <= e.addrLast;
    case Delete(from, to) => ok := 1 <= from <= to <= e.addrLast;
    case Join(from, to) => ok := 1 <= from <= to <= e.addrLast;
    case Move(from, to, addr) => ok := 1 <= from <= to <= e.addrLast && 0 <= addr <= e.addrLast && !(from <= addr < to);
    case Copy(from, to, addr) => ok := 1 <= from <= to <= e.addrLast && 0 <= addr <= e.addrLast;
    case Subst(from, to, _) => ok := 1 <= from <= to <= e.addrLast;
    case Mark(addr, _) => ok := 1 <= addr <= e.addrLast;
    case Undo => ok := true;
  }

  lemma MarkedValid(e: Ed, v: View, n: nat, i: nat, markno: nat, cache: Cache)
    requires Valid(e, v) && 1 <= n <= e.addrLast && i < MAXMARK && cache.on <= e.addrLast && cache.lp == v.ring[cache.on]
    requires markno == Used(e.mark[i := To(v.ring[n])])
    ensures var e' := e.(mark := e.mark[i := To(v.ring[n])], markno := markno, cache := cache);
            && Valid(e', v)
            && Abs(e', v) == Abs(e, v).(marks := Abs(e, v).marks[i := Some(Abs(e, v).now.lines[n - 1].id)])
  {
    hide Recorded, Linked, Pending;
    assert At(e.mem.links, v.ring, n);
    Differ(v.ring, 0, n);
    var mark' := e.mark[i := To(v.ring[n])];
    assert MarksOf(mark') == MarksOf(e.mark)[i := Some(v.ring[n])];
  }

  /** The case of exec_command for k. */
  method MarkCommand(e: Ed, ghost v: View, addr: nat, c: char) returns (ok: bool, e': Ed)
    requires Valid(e, v) && 1 <= addr <= e.addrLast
    ensures Ok(Abs(e, v)) && addr <= |Abs(e, v).now.lines|
    ensures Valid(e', v) && (Abs(e', v), ok) == Marked(Abs(e, v), addr, c) && e'.isglobal == e.isglobal
  {
    hide UndoOk, ActiveOk, Pending, LinesOf;
    var lp, mark, markno;
    AbsSize(e, v);
    e', lp := Lookup(e, v, addr);
    ok, mark, markno := MarkLine(e.mark, e.markno, lp, c);
    if ok {
      MarkedValid(e, v, addr, MarkNo(c), markno, e'.cache);
      e' := e'.(mark := mark, markno := markno);
    } else {
      ReadValid(e, v, e');
    }
  }

  /** exec_command: on the linked ring, every command does what the reference editor says. */
  method ExecCommand(e: Ed, ghost v: View, cmd: Cmd) returns (ok: bool, e': Ed, ghost v': View)
    requires Valid(e, v)
    ensures Ok(Abs(e, v))
    ensures Valid(e', v') && (Abs(e', v'), ok) == Exec(Abs(e, v), cmd, e.isglobal) && e'.isglobal == e.isglobal
  {
    hide Valid, Abs, Edit, Legal;
    AbsSize(e, v);
    e', v' := e, v;
    ok := LegalCommand(e, v, cmd);
    if ok {
      if cmd.Undo? {
        ok, e', v' := PopUndo(e, v);
      } else if cmd.Mark? {
        LegalMark(Abs(e, v).now, cmd);
        ok, e' := MarkCommand(e, v, cmd.addr, cmd.c);
      } else {
        e', v' := SaveUndo(e, v);
        LegalSaved(Abs(e, v), cmd, e.isglobal);
        ok, e', v' := EditCommand(e', v', cmd);
      }
    }
  }

  lemma LegalMark(b: Buf, cmd: Cmd)
    requires Legal(b, cmd) && cmd.Mark?
    ensures 1 <= cmd.addr <= |b.lines|
  {
  }

  lemma LegalSaved(st: State, cmd: Cmd, g: bool)
    requires Legal(st.now, cmd) && Ok(st)
    ensures Legal(Save(st, g).now, cmd) && Ok(Save(st, g))
  {
  }

  // ----- command lists

  /** All of the buffer and the marks, for a command that computes its addresses from them. */
  method Snapshot(e: Ed, ghost v: View) returns (e': Ed, b: Buf, marks: Marks)
    requires Valid(e, v)
    ensures Valid(e', v) && Abs(e', v) == Abs(e, v) && e'.isglobal == e.isglobal
    ensures b == Abs(e, v).now && marks == Abs(e, v).marks
  {
    hide Valid, Abs, LinesOf;
    AbsSize(e, v);
    e' := e;
    var lines: seq<Line>, n := [], 0;
    while n < e.addrLast
      invariant n <= e.addrLast == e'.addrLast && Valid(e', v) && Abs(e', v) == Abs(e, v)
      invariant e'.isglobal == e.isglobal && e'.currentAddr == e.currentAddr
      invariant lines == Abs(e, v).now.lines[..n]
    {
      var lp, s;
      e', lp, s := ReadLine(e', v, n + 1);
      LineAt(e, v, n + 1);
      lines := lines + [Line(lp, s)];
      n := n + 1;
    }
    b, marks := Buf(lines, e.currentAddr), MarksOf(e.mark);
    AbsMarks(e, v);
  }

  lemma AbsMarks(e: Ed, v: View)
    ensures Abs(e, v).marks == MarksOf(e.mark)
  {
  }

  lemma LineAt(e: Ed, v: View, n: nat)
    requires Valid(e, v) && 1 <= n <= e.addrLast
    ensures n <= |Abs(e, v).now.lines| && Abs(e, v).now.lines == LinesOf(v.ring, v.text) && n < |v.ring|
    ensures Abs(e, v).now.lines[n - 1].id == v.ring[n]
  {
  }

  predicate Hit(b: Buf, sel: string -> bool, i: int) {
    1 <= i <= |b.lines| && sel(b.lines[i - 1].text)
  }

  /** No line is hit on the way from the current one, round the end of the buffer if need be, to
      line n. */
  ghost predicate NoneBefore(b: Buf, sel: string -> bool, forward: bool, n: nat) {
    if forward then
      if n > b.cur then forall i {:trigger Hit(b, sel, i)} :: b.cur < i < n ==> !Hit(b, sel, i)
      else forall i {:trigger Hit(b, sel, i)} :: i > b.cur || i < n ==> !Hit(b, sel, i)
    else
      if n < b.cur then forall i {:trigger Hit(b, sel, i)} :: n < i < b.cur ==> !Hit(b, sel, i)
      else forall i {:trigger Hit(b, sel, i)} :: i < b.cur || i > n ==> !Hit(b, sel, i)
  }

  /** Forwards the lines behind the current one come first, then those from line 1 on; backwards the lines before it,
      then those from the end. */
  lemma SearchNearest(b: Buf, sel: string -> bool, forward: bool, n: nat, j: int)
    requires NoneBefore(b, sel, forward, n) && 1 <= n <= |b.lines| && 1 <= j <= |b.lines| && sel(b.lines[j - 1].text)
    ensures forward ==> if n > b.cur then j <= b.cur || n <= j else n <= j <= b.cur
    ensures !forward ==> if n < b.cur then j >= b.cur || j <= n else b.cur <= j <= n
  {
    assert Hit(b, sel, j);
  }

  /** DEC_MOD(l, k) */
  function DecMod(l: nat, k: nat): nat {
    if l == 0 then k else l - 1
  }

  /** The search has come to line n, with nothing hit; turned: it has gone round the end. */
  ghost predicate Walked(b: Buf, sel: string -> bool, forward: bool, turned: bool, n: nat) {
    if forward then
      if turned then n < b.cur && forall i {:trigger Hit(b, sel, i)} :: i > b.cur || i <= n ==> !Hit(b, sel, i)
      else n >= b.cur && forall i {:trigger Hit(b, sel, i)} :: b.cur < i <= n ==> !Hit(b, sel, i)
    else
      if turned then n > b.cur && forall i {:trigger Hit(b, sel, i)} :: i < b.cur || i >= n ==> !Hit(b, sel, i)
      else n <= b.cur && forall i {:trigger Hit(b, sel, i)} :: n <= i < b.cur ==> !Hit(b, sel, i)
  }

  function NextAddr(forward: bool, n: nat, last: nat): nat {
    if forward then IncMod(n, last) else DecMod(n, last)
  }

  ghost predicate Turns(forward: bool, n: nat, last: nat) {
    if forward then n == last else n == 0
  }

  lemma WalkFound(b: Buf, sel: string -> bool, forward: bool, turned: bool, n: nat)
    requires n <= |b.lines| && Walked(b, sel, forward, turned, n) && Hit(b, sel, NextAddr(forward, n, |b.lines|))
    ensures NoneBefore(b, sel, forward, NextAddr(forward, n, |b.lines|))
  {
  }

  lemma WalkMore(b: Buf, sel: string -> bool, forward: bool, turned: bool, n: nat)
    requires n <= |b.lines| && b.cur <= |b.lines| && Walked(b, sel, forward, turned, n)
    requires !Hit(b, sel, NextAddr(forward, n, |b.lines|))
    ensures var n', t := NextAddr(forward, n, |b.lines|), turned || Turns(forward, n, |b.lines|);
            if n' == b.cur then forall i {:trigger Hit(b, sel, i)} :: !Hit(b, sel, i) else Walked(b, sel, forward, t, n')
  {
  }

  /** get_matching_node_addr: the nearest line in the asked direction that the pattern matches,
      the current one last of all; an error only if there is none. */
  method MatchingAddr(e: Ed, ghost v: View, sel: string -> bool, forward: bool) returns (e': Ed, r: Option<nat>)
    requires Valid(e, v)
    ensures Valid(e', v) && Abs(e', v) == Abs(e, v) && e'.isglobal == e.isglobal
    ensures var b := Abs(e, v).now;
            if r.None? then forall i {:trigger Hit(b, sel, i)} :: !Hit(b, sel, i)
            else Hit(b, sel, r.value) && NoneBefore(b, sel, forward, r.value)
  {
    hide Valid, Abs, LinesOf, NoneBefore;
    AbsSize(e, v);
    e' := e;
    ghost var b := Abs(e, v).now;
    var n: nat, last: nat, cur: nat := e.currentAddr, e.addrLast, e.currentAddr;
    ghost var turned := false;
    while true
      invariant Valid(e', v) && Abs(e', v) == Abs(e, v) && e'.isglobal == e.isglobal && e'.addrLast == last
      invariant n <= last && Walked(b, sel, forward, turned, n)
      decreases !turned, if forward then last - n else n
    {
      ghost var p := n;
      n := NextAddr(forward, n, last);
      if n != 0 {
        var lp, s;
        LineAt(e', v, n);
        e', lp, s := ReadLine(e', v, n);
        if sel(s) {
          WalkFound(b, sel, forward, turned, p);
          return e', Some(n);
        }
      }
      WalkMore(b, sel, forward, turned, p);
      if n == cur {
        return e', None;
      }
      turned := turned || Turns(forward, p, last);
    }
  }

  /** get_marked_node_addr: the address that the reference editor gives the mark. */
  method MarkedAddr(e: Ed, ghost v: View, c: char) returns (r: Option<nat>)
    requires Valid(e, v)
    ensures Ok(Abs(e, v)) && r == MarkAddr(Abs(e, v).now, Abs(e, v).marks, c)
  {
    hide Recorded, Linked, Nodes, Named;
    AbsSize(e, v);
    if !('a' <= c <= 'z') {
      return None;
    }
    var m := e.mark[c as int - 'a' as int];
    r := GetLineNodeAddr(e, v, m);
    if m.To? {
      NodesOnly(e.mem, v.text, e.sb.file, m.id);
    }
    MarkFound(e, v, m, r);
  }

  lemma MarkFound(e: Ed, v: View, m: Ptr, r: Option<nat>)
    requires Valid(e, v) && (m.To? ==> m.id != HEAD)
    requires m.To? && m.id in v.ring ==> r.Some? && r.value <= e.addrLast && v.ring[r.value] == m.id
    requires m.Null? || m.id !in v.ring ==> r == if e.addrLast == 0 then Some(0) else None
    ensures var lines := Abs(e, v).now.lines;
            r == if lines == [] then Some(0) else if m.Null? then None else AddrOf(lines, m.id)
  {
    hide Recorded, Linked, Nodes, Named, AddrOf;
    var lines := Abs(e, v).now.lines;
    RingDistinct(e, v);
    AbsSize(e, v);
    IdsOfRing(v.ring, v.text);
    if m.To? && m.id in v.ring {
      ActiveFound(e, v, r.value);
    } else if m.To? && lines != [] && AddrOf(lines, m.id).Some? {
      LineAt(e, v, AddrOf(lines, m.id).value);
    }
  }

  /** The inner loop of exec_global: the commands of a list, up to the first that fails. */
  method RunCommands(e: Ed, ghost v: View, prog: Prog) returns (ok: bool, e': Ed, ghost v': View)
    requires Valid(e, v) && e.isglobal
    ensures Ok(Abs(e, v))
    ensures Valid(e', v') && (Abs(e', v'), ok) == RunList(Abs(e, v), prog) && e'.isglobal
  {
    hide Valid, Abs, Exec;
    AbsSize(e, v);
    e', v', ok := e, v, true;
    var i := 0;
    assert prog[0..] == prog;
    while i < |prog|
      invariant i <= |prog| && Valid(e', v') && e'.isglobal && Ok(Abs(e', v'))
      invariant RunList(Abs(e', v'), prog[i..]) == RunList(Abs(e, v), prog)
    {
      var b, marks;
      e', b, marks := Snapshot(e', v');
      assert prog[i..][0] == prog[i] && prog[i..][1..] == prog[i + 1..];
      ok, e', v' := ExecCommand(e', v', prog[i](b, marks));
      if !ok {
        return;
      }
      AbsSize(e', v');
      i := i + 1;
    }
  }

  // ----- global commands

  /** next_active_node: skip what was unset; Null when nothing is left. */
  method NextActive(list: seq<Ptr>, ptr: nat) returns (p: Ptr, ptr': nat)
    requires ptr <= |list|
    ensures ptr <= ptr' <= |list|
    ensures var todo := Pending(list[ptr..]);
            if p.Null? then todo == [] && ptr' == |list|
            else todo == [p.id] + Pending(list[ptr'..]) && p in list
  {
    ptr' := ptr;
    while ptr' < |list| && list[ptr'].Null?
      invariant ptr <= ptr' <= |list| && Pending(list[ptr'..]) == Pending(list[ptr..])
    {
      assert list[ptr'..][1..] == list[ptr' + 1..];
      ptr' := ptr' + 1;
    }
    if ptr' < |list| {
      assert list[ptr'..][1..] == list[ptr' + 1..];
      p := list[ptr'];
      ptr' := ptr' + 1;
    } else {
      p := Null;
    }
  }

  lemma SelectedAppend(ls: seq<Line>, l: Line, sel: string -> bool)
    ensures Selected(ls + [l], sel) == Selected(ls, sel) + if sel(l.text) then [l.id] else []
  {
    if ls != [] {
      assert (ls + [l])[1..] == ls[1..] + [l];
      SelectedAppend(ls[1..], l, sel);
    }
  }

  lemma {:induction false} PendingAppend(s: seq<Ptr>, x: Id)
    ensures Pending(s + [To(x)]) == Pending(s) + [x]
  {
    if s != [] {
      assert (s + [To(x)])[1..] == s[1..] + [To(x)];
      PendingAppend(s[1..], x);
    }
  }

  /** list holds lines from the positions from..n of the ring. */
  ghost predicate Built(list: seq<Ptr>, ring: seq<Id>, from: nat, n: nat) {
    && Once(list) && from <= n <= |ring|
    && (forall i :: 0 <= i < |list| ==> list[i].To? && list[i].id in ring[from..n])
  }

  lemma BuiltMore(list: seq<Ptr>, ring: seq<Id>, from: nat, n: nat)
    requires Built(list, ring, from, n) && Distinct(ring) && n < |ring|
    ensures Built(list, ring, from, n + 1) && Built(list + [To(ring[n])], ring, from, n + 1)
  {
    assert ring[from..n + 1] == ring[from..n] + [ring[n]];
    forall x | x in ring[from..n]
      ensures x != ring[n]
    {
      var j :| 0 <= j < n - from && ring[from..n][j] == x;
      Differ(ring, from + j, n);
    }
  }

  /** build_active_list over the lines from..to. */
  method BuildActive(e: Ed, ghost v: View, from: nat, to: nat, sel: string -> bool) returns (e': Ed, list: seq<Ptr>)
    requires Valid(e, v) && 1 <= from <= to <= e.addrLast
    ensures Valid(e', v) && Abs(e', v) == Abs(e, v) && e'.isglobal == e.isglobal
    ensures Built(list, v.ring, from, to + 1)
    ensures Pending(list) == Selected(LinesOf(v.ring, v.text)[from - 1..to], sel)
  {
    hide Valid, Abs, LinesOf, Selected, Pending, Built;
    AbsSize(e, v);
    PendingNone();
    BuiltNone(v.ring, from);
    var lp;
    e', lp := FirstLine(e, v, from);
    list := [];
    ghost var lines := LinesOf(v.ring, v.text);
    SelectedNone(sel);
    LineAt(e, v, from);
    RingDistinct(e, v);
    var n := from;
    assert lines[from - 1..from - 1] == [];
    while n <= to
      invariant from <= n <= to + 1 && e'.addrLast == e.addrLast && (n <= to ==> lp == v.ring[n])
      invariant Valid(e', v) && Abs(e', v) == Abs(e, v) && e'.isglobal == e.isglobal
      invariant Built(list, v.ring, from, n) && n - 1 <= |lines|
      invariant Pending(list) == Selected(lines[from - 1..n - 1], sel)
    {
      var s, next;
      LineAt(e', v, n);
      e', s, next := TextAndNext(e', v, lp, n);
      SelectedAppend(lines[from - 1..n - 1], lines[n - 1], sel);
      assert lines[from - 1..n] == lines[from - 1..n - 1] + [lines[n - 1]];
      BuiltMore(list, v.ring, from, n);
      if sel(s) {
        PendingAppend(list, lp);
        list := list + [To(lp)];
      }
      lp, n := next, n + 1;
    }
  }

  method FirstLine(e: Ed, ghost v: View, n: nat) returns (e': Ed, lp: Id)
    requires Valid(e, v) && 1 <= n <= e.addrLast
    ensures Valid(e', v) && Abs(e', v) == Abs(e, v) && e'.isglobal == e.isglobal && e'.addrLast == e.addrLast
    ensures n < |v.ring| && lp == v.ring[n]
  {
    e', lp := Lookup(e, v, n);
    ReadValid(e, v, e');
  }

  /** The text of the node lp, which is line n, and the node behind it. */
  method TextAndNext(e: Ed, ghost v: View, lp: Id, ghost n: nat) returns (e': Ed, s: string, next: Id)
    requires Valid(e, v) && 1 <= n <= e.addrLast && n < |v.ring| && lp == v.ring[n]
    ensures Valid(e', v) && Abs(e', v) == Abs(e, v) && e'.isglobal == e.isglobal && e'.addrLast == e.addrLast
    ensures n <= |LinesOf(v.ring, v.text)| && s == LinesOf(v.ring, v.text)[n - 1].text
    ensures n < e.addrLast ==> n + 1 < |v.ring| && next == v.ring[n + 1]
  {
    assert At(e.mem.links, v.ring, n);
    Differ(v.ring, 0, n);
    var r, sb := GetSbufLine(e, v, lp);
    e', s, next := e.(sb := sb), r.value, e.mem.links.forw[lp];
    ReadValid(e, v, e');
  }

  lemma BuiltNone(ring: seq<Id>, from: nat)
    requires from < |ring|
    ensures Built([], ring, from, from)
  {
  }

  lemma PendingNone()
    ensures Pending([]) == []
  {
  }

  lemma SelectedNone(sel: string -> bool)
    ensures Selected([], sel) == []
  {
  }

  lemma RingDistinct(e: Ed, v: View)
    requires Valid(e, v)
    ensures Distinct(v.ring) && v.ring != [] && v.ring[0] == HEAD
  {
  }

  lemma AddrOfAt(ls: seq<Line>, x: Id, n: nat)
    requires 1 <= n <= |ls| && ls[n - 1].id == x && forall i :: 0 <= i < n - 1 ==> ls[i].id != x
    ensures AddrOf(ls, x) == Some(n)
  {
    if n != 1 {
      AddrOfAt(ls[1..], x, n - 1);
    }
  }

  /** An active line is found in the buffer. */
  lemma ActiveFound(e: Ed, v: View, addr: nat)
    requires Valid(e, v) && 1 <= addr <= e.addrLast
    ensures AddrOf(Abs(e, v).now.lines, v.ring[addr]) == Some(addr)
  {
    forall i | 0 <= i < addr - 1
      ensures Abs(e, v).now.lines[i].id != v.ring[addr]
    {
      Differ(v.ring, i + 1, addr);
    }
    AddrOfAt(Abs(e, v).now.lines, v.ring[addr], addr);
  }

  lemma AdvanceValid(e: Ed, v: View, ptr: nat, addr: nat)
    requires Valid(e, v) && e.isglobal && e.activePtr <= ptr <= |e.activeList| && addr <= e.addrLast
    ensures Valid(e.(activePtr := ptr, currentAddr := addr), v)
    ensures Abs(e.(activePtr := ptr, currentAddr := addr), v)
         == Goto(Abs(e, v), addr).(active := Pending(e.activeList[ptr..]))
  {
    hide Recorded, Linked, Nodes, Ring, Pending, Named;
  }

  /** What next_active_node and get_line_node_addr do together. */
  method NextLine(e: Ed, ghost v: View) returns (done: bool, e': Ed, ghost x: Id)
    requires Valid(e, v) && e.isglobal
    ensures Valid(e', v) && e'.isglobal
    ensures var st := Abs(e, v);
            if done then st.active == [] && Abs(e', v) == st
            else && st.active != [] && x == st.active[0] && AddrOf(st.now.lines, x).Some?
                 && Abs(e', v) == Goto(st, AddrOf(st.now.lines, x).value).(active := st.active[1..])
  {
    var p, ptr := NextActive(e.activeList, e.activePtr);
    done := p.Null?;
    if done {
      AdvanceValid(e, v, ptr, e.currentAddr);
      e', x := e.(activePtr := ptr), HEAD;
      PendingNone();
    } else {
      x := p.id;
      var r := GetLineNodeAddr(e, v, p);
      Differ(v.ring, 0, r.value);
      ActiveFound(e, v, r.value);
      AdvanceValid(e, v, ptr, r.value);
      e' := e.(activePtr := ptr, currentAddr := r.value);
    }
  }

  /** exec_global: it visits the lines that the reference editor visits, and does to the
      buffer what the reference editor does. */
  method VisitLines(e: Ed, ghost v: View, prog: Prog) returns (ok: bool, e': Ed, ghost v': View, ghost visited: seq<Id>)
    requires Valid(e, v) && e.isglobal
    ensures Ok(Abs(e, v))
    ensures Valid(e', v') && e'.isglobal && (Abs(e', v'), ok, visited) == Visit(Abs(e, v), prog)
  {
    hide Valid, Abs, RunList, AddrOf;
    AbsSize(e, v);
    ghost var goal := Visit(Abs(e, v), prog);
    e', v', visited := e, v, [];
    assert [] + goal.2 == goal.2;
    while true
      invariant Valid(e', v') && e'.isglobal && Ok(Abs(e', v'))
      invariant var r := Visit(Abs(e', v'), prog); (r.0, r.1, visited + r.2) == goal
      decreases |Abs(e', v').active|
    {
      var done;
      ghost var x, st := HEAD, Abs(e', v');
      done, e', x := NextLine(e', v');
      if done {
        ok := true;
        assert visited + [] == visited;
        return;
      }
      ok, e', v' := RunCommands(e', v', prog);
      ghost var tail := if ok then Visit(Abs(e', v'), prog).2 else [];
      assert visited + ([x] + tail) == (visited + [x]) + tail;
      visited := visited + [x];
      if !ok {
        return;
      }
    }
  }

  lemma StartValid(e: Ed, v: View, list: seq<Ptr>, from: nat, to: nat)
    requires Valid(e, v) && !e.isglobal && 1 <= from <= to <= e.addrLast && Built(list, v.ring, from, to + 1)
    ensures var e' := e.(activeList := list, activePtr := 0, activeNdx := 0, isglobal := true);
            Valid(e', v) && Abs(e', v) == Abs(e, v).(active := Pending(list))
  {
    hide Recorded, Linked, Nodes, Pending, Named;
    forall i | 0 <= i < |list|
      ensures list[i].id in v.ring && list[i].id != HEAD
    {
      var j :| 0 <= j < to + 1 - from && v.ring[from..to + 1][j] == list[i].id;
      Differ(v.ring, 0, from + j);
    }
    assert list[0..] == list;
  }

  lemma StopValid(e: Ed, v: View)
    requires Valid(e, v)
    ensures Valid(e.(isglobal := false), v) && Abs(e.(isglobal := false), v) == Abs(e, v).(active := [])
  {
    hide Recorded, Linked, Nodes, Ring, Pending, Named;
  }

  /** The cases of exec_command for g and v. */
  method GlobalCommand(e: Ed, ghost v: View, from: int, to: int, sel: string -> bool, prog: Prog)
    returns (ok: bool, e': Ed, ghost v': View, ghost visited: seq<Id>)
    requires Valid(e, v) && !e.isglobal
    ensures Ok(Abs(e, v))
    ensures Valid(e', v') && !e'.isglobal && (Abs(e', v'), ok, visited) == Global(Abs(e, v), from, to, sel, prog)
  {
    hide Valid, Abs, Visit, Selected, Pending, Drop;
    AbsSize(e, v);
    ok, e', v', visited := 1 <= from <= to <= e.addrLast, e, v, [];
    if ok {
      var list;
      e', list := BuildActive(e, v, from, to, sel);
      LineAt(e, v, from);
      AbsSize(e', v);
      StartValid(e', v, list, from, to);
      e' := e'.(activeList := list, activePtr := 0, activeNdx := 0, isglobal := true);
      ghost var gone;
      e', v', gone := ClearUndo(e', v);
      ok, e', v', visited := VisitLines(e', v', prog);
      StopValid(e', v');
      e' := e'.(isglobal := false);
    }
  }

  lemma {:induction false} UsedNone(s: seq<Ptr>)
    requires forall i :: 0 <= i < |s| ==> s[i].Null?
    ensures Used(s) == 0
  {
    if s != [] {
      UsedNone(s[..|s| - 1]);
    }
  }

  lemma InitialValid(e: Ed, v: View)
    requires v == View([HEAD], [], [[HEAD]], map[])
    requires e == Ed(Mem(Links(map[HEAD := HEAD], map[HEAD := HEAD]), map[], 1), Scratch("", 0, 0, false), 0, 0,
                     Cache(HEAD, 0), false, [], -1, -1, seq(MAXMARK, _ => Null), 0, [], 0, 0)
    ensures Valid(e, v) && Abs(e, v) == EMPTY
  {
    UsedNone(e.mark);
  }

  /** The editor of a session. */
  class Editor {
    var e: Ed
    ghost var v: View

    ghost predicate Ready()
      reads this
    {
      Valid(e, v) && !e.isglobal && Ok(Abs(e, v))
    }

    ghost function State(): State
      reads this
    {
      Abs(e, v)
    }

    /** init_buffers */
    constructor ()
      ensures Ready() && State() == EMPTY
    {
      var marks := seq(MAXMARK, _ => Null);
      var links := Links(map[HEAD := HEAD], map[HEAD := HEAD]);
      e := Ed(Mem(links, map[], 1), Scratch("", 0, 0, false), 0, 0, Cache(HEAD, 0), false,
              [], -1, -1, marks, 0, [], 0, 0);
      v := View([HEAD], [], [[HEAD]], map[]);
      new;
      InitialValid(e, v);
    }

    /** One turn of the main loop. */
    method Obey(top: TopCmd) returns (ok: bool)
      requires Ready()
      modifies this
      ensures Ready() && (State(), ok) == Top(old(State()), top)
    {
      var e', v' := e, v;
      match top {
        case Do(cmd) =>
          ok, e', v' := ExecCommand(e, v, cmd);
        case ForEach(from, to, sel, prog) =>
          ghost var visited;
          ok, e', v', visited := GlobalCommand(e, v, from, to, sel, prog);
      }
      AbsSize(e', v');
      e, v := e', v';
    }

    /** The main loop: for every script, the linked editor ends where the reference editor
        does. */
    method Run(script: Script, tty: bool)
      requires Ready()
      modifies this
      ensures Ready() && State() == Session(old(State()), script, tty)
    {
      var i := 0;
      assert script[0..] == script;
      while i < |script|
        invariant i <= |script| && Ready()
        invariant Session(State(), script[i..], tty) == Session(old(State()), script, tty)
      {
        assert script[i..][0] == script[i] && script[i..][1..] == script[i + 1..];
        var e', b, marks := Snapshot(e, v);
        e := e';
        var ok := Obey(script[i](b, marks));
        if !ok && !tty {
          return;
        }
        i := i + 1;
      }
    }
  }
}
