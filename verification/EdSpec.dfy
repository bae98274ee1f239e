/** A reference editor: a list of lines, the current line, and one saved copy of both.
    Undo exchanges the copy with the present; every other command is a list operation.
    There are no links, no cache, no stack and no scratch file. */
module EdSpec {
  import opened EdLinks
  import opened EdTypes
  import EdSubst

  /** The id names a line through edits that do not change it. */
  datatype Line = Line(id: Id, text: string)

  /** cur is current_addr: 0 or the 1-based number of a line. */
  datatype Buf = Buf(lines: seq<Line>, cur: nat)

  const MAXMARK: nat := 26

  /** The marks a to z, each on a line or not set. */
  type Marks = seq<Option<Id>>

  /** active: the lines a running global command has yet to visit. */
  datatype State = State(now: Buf, saved: Option<Buf>, next: Id, active: seq<Id>, marks: Marks)

  datatype Cmd =
    | Append(addr: int, texts: seq<string>)
    | Insert(addr: int, texts: seq<string>)
    | Change(from: int, to: int, texts: seq<string>)
    | Delete(from: int, to: int)
    | Join(from: int, to: int)
    | Move(from: int, to: int, addr: int)
    | Copy(from: int, to: int, addr: int)
    | Subst(from: int, to: int, how: EdSubst.How)
    | Mark(addr: int, c: char)
    | Undo

  /** LINECHARS: longer lines are refused by put_sbuf_line. */
  const LINECHARS: nat := 0x7fff_ffff

  function Ids(ls: seq<Line>): seq<Id> {
    seq(|ls|, i requires 0 <= i < |ls| => ls[i].id)
  }

  function Without(s: seq<Id>, gone: seq<Id>): (r: seq<Id>)
    ensures |r| <= |s|
  {
    if s == [] then []
    else if s[0] in gone then Without(s[1..], gone)
    else [s[0]] + Without(s[1..], gone)
  }

  function Fresh(texts: seq<string>, next: Id): seq<Line> {
    seq(|texts|, i requires 0 <= i < |texts| => Line(next + i, texts[i]))
  }

  function Texts(ls: seq<Line>): seq<string> {
    seq(|ls|, i requires 0 <= i < |ls| => ls[i].text)
  }

  function Concat(texts: seq<string>): string {
    if texts == [] then "" else texts[0] + Concat(texts[1..])
  }

  /** The texts before the first one that is too long. */
  function Fit(texts: seq<string>): (r: seq<string>)
    ensures r <= texts
  {
    if texts == [] || |texts[0]| >= LINECHARS then [] else [texts[0]] + Fit(texts[1..])
  }

  predicate InRange(b: Buf, from: int, to: int) {
    1 <= from <= to <= |b.lines|
  }

  /** The current address of r lies in the buffer; saved copy, active lines and marks come from st. */
  predicate Keeps(st: State, r: State) {
    r.now.cur <= |r.now.lines| && r.saved == st.saved && |r.active| <= |st.active| && r.marks == st.marks
  }

  /** Lines inserted behind the current one, which becomes the last of them. */
  function InsertLines(st: State, ls: seq<Line>): (r: State)
    requires st.now.cur <= |st.now.lines|
    ensures Keeps(st, r)
  {
    var Buf(lines, cur) := st.now;
    st.(now := Buf(lines[..cur] + ls + lines[cur..], cur + |ls|), next := st.next + |ls|)
  }

  function Put(st: State, texts: seq<string>): (r: (State, bool))
    requires st.now.cur <= |st.now.lines|
    ensures Keeps(st, r.0)
  {
    (InsertLines(st, Fresh(Fit(texts), st.next)), Fit(texts) == texts)
  }

  function Goto(st: State, cur: nat): State {
    st.(now := st.now.(cur := cur))
  }

  function DeleteRange(st: State, from: nat, to: nat): (r: State)
    requires InRange(st.now, from, to)
    ensures Keeps(st, r)
  {
    var lines := st.now.lines;
    st.(now := Buf(lines[..from - 1] + lines[to..], from - 1), active := Without(st.active, Ids(lines[from - 1..to])))
  }

  function JoinRange(st: State, from: nat, to: nat): (r: (State, bool))
    requires InRange(st.now, from, to)
    ensures Keeps(st, r.0)
  {
    var text := Concat(Texts(st.now.lines[from - 1..to]));
    Put(DeleteRange(st, from, to), [text])
  }

  /** The lines from..to moved behind line addr. */
  function MoveSeq(lines: seq<Line>, from: nat, to: nat, addr: nat): (r: seq<Line>)
    requires 1 <= from <= to <= |lines| && addr <= |lines| && !(from <= addr < to)
    ensures |r| == |lines|
  {
    var block := lines[from - 1..to];
    if addr < from then lines[..addr] + block + lines[addr..from - 1] + lines[to..]
    else lines[..from - 1] + lines[to..addr] + block + lines[addr..]
  }

  function MoveRange(st: State, from: nat, to: nat, addr: nat): (r: State)
    requires InRange(st.now, from, to) && addr <= |st.now.lines| && !(from <= addr < to)
    ensures Keeps(st, r)
  {
    var lines := st.now.lines;
    var cur := if addr < from then addr + (to - from + 1) else addr;
    st.(now := Buf(MoveSeq(lines, from, to, addr), cur), active := Without(st.active, Ids(lines[from - 1..to])))
  }

  function CopyRange(st: State, from: nat, to: nat, addr: nat): (r: State)
    requires InRange(st.now, from, to) && addr <= |st.now.lines|
    ensures Keeps(st, r)
  {
    InsertLines(Goto(st, addr), Fresh(Texts(st.now.lines[from - 1..to]), st.next))
  }

  /** search_and_replace over the next n lines; xa is where the last change ended, subs
      how many lines changed. */
  function SubstLines(st: State, n: nat, f: string -> Sub, xa: nat, subs: nat, g: bool): (r: (State, bool))
    requires st.now.cur + n <= |st.now.lines|
    ensures xa <= |st.now.lines| ==> Keeps(st, r.0)
    decreases n
  {
    if n == 0 then (Goto(st, xa), subs != 0 || g)
    else
      var cur := st.now.cur + 1;
      match f(st.now.lines[cur - 1].text)
      case SubError => (Goto(st, cur), false)
      case NoMatch => SubstLines(Goto(st, cur), n - 1, f, xa, subs, g)
      case NewLines(first, rest) =>
        var (st', ok) := Put(DeleteRange(st, cur, cur), [first] + rest);
        if ok then SubstLines(st', n - 1, f, st'.now.cur, subs + 1, g) else (st', false)
  }

  /** The marks of lines that are in the buffer. */
  function MarksIn(marks: Marks, ls: seq<Line>): (r: Marks)
    ensures |r| == |marks|
  {
    seq(|marks|, i requires 0 <= i < |marks| => if marks[i].Some? && marks[i].value in Ids(ls) then marks[i] else None)
  }

  /** clear_undo_stack, skipped inside a global command: the marks of lines that only undo could
      bring back are forgotten. */
  function Save(st: State, g: bool): State {
    if g then st else st.(saved := Some(st.now), marks := MarksIn(st.marks, st.now.lines))
  }

  predicate MarkChar(c: char) {
    'a' <= c <= 'z'
  }

  function MarkNo(c: char): (i: nat)
    requires MarkChar(c)
    ensures i < MAXMARK
  {
    c as int - 'a' as int
  }

  /** mark_line_node */
  function Marked(st: State, addr: nat, c: char): (State, bool)
    requires 1 <= addr <= |st.now.lines| && |st.marks| == MAXMARK
  {
    if MarkChar(c) then (st.(marks := st.marks[MarkNo(c) := Some(st.now.lines[addr - 1].id)]), true) else (st, false)
  }

  /** get_marked_node_addr: in an empty buffer every mark leads to address 0. */
  function MarkAddr(b: Buf, marks: Marks, c: char): Option<nat>
    requires |marks| == MAXMARK
  {
    if !MarkChar(c) then None
    else if b.lines == [] then Some(0)
    else if marks[MarkNo(c)].None? then None
    else AddrOf(b.lines, marks[MarkNo(c)].value)
  }

  function Undone(st: State): (State, bool) {
    match st.saved
    case None => (st, false)
    case Some(b) => (st.(now := b, saved := Some(st.now), active := []), true)
  }

  predicate Ok(st: State) {
    && st.now.cur <= |st.now.lines| && |st.marks| == MAXMARK
    && (st.saved.Some? ==> st.saved.value.cur <= |st.saved.value.lines|)
  }

  /** The address checks of exec_command. */
  predicate Legal(b: Buf, cmd: Cmd) {
    match cmd
    case Append(addr, _) => 0 <= addr <= |b.lines|
    case Insert(addr, _) => 1 <= addr <= |b.lines|
    case Change(from, to, _) => InRange(b, from, to)
    case Delete(from, to) => InRange(b, from, to)
    case Join(from, to) => InRange(b, from, to)
    case Move(from, to, addr) => InRange(b, from, to) && 0 <= addr <= |b.lines| && !(from <= addr < to)
    case Copy(from, to, addr) => InRange(b, from, to) && 0 <= addr <= |b.lines|
    case Subst(from, to, _) => InRange(b, from, to)
    case Mark(addr, _) => 1 <= addr <= |b.lines|
    case Undo => true
  }

  /** The commands that clear the undo stack and change the buffer. */
  predicate Edits(cmd: Cmd) {
    !cmd.Undo? && !cmd.Mark?
  }

  /** What d leaves: the line behind the deleted ones is current, if there is one. */
  function DeleteAndStep(st: State, from: nat, to: nat): (r: State)
    requires InRange(st.now, from, to)
    ensures Keeps(st, r)
  {
    var st' := DeleteRange(st, from, to);
    if from <= |st'.now.lines| then Goto(st', from) else st'
  }

  /** The commands that change the buffer, once the undo stack is clear. */
  function Edit(st: State, cmd: Cmd, g: bool): (r: (State, bool))
    requires Legal(st.now, cmd) && Edits(cmd) && st.now.cur <= |st.now.lines|
    ensures Keeps(st, r.0)
  {
    match cmd
    case Append(addr, texts) => Put(Goto(st, addr), texts)
    case Insert(addr, texts) => Put(Goto(st, addr - 1), texts)
    case Change(from, to, texts) => Put(DeleteRange(st, from, to), texts)
    case Delete(from, to) => (DeleteAndStep(st, from, to), true)
    case Join(from, to) => if from == to then (st, true) else JoinRange(st, from, to)
    case Move(from, to, addr) => (MoveRange(st, from, to, addr), true)
    case Copy(from, to, addr) => (CopyRange(st, from, to, addr), true)
    case Subst(from, to, how) =>
      SubstLines(Goto(st, from - 1), to - from + 1, EdSubst.Replacer(how), st.now.cur, 0, g)
  }

  /** exec_command on commands with resolved addresses; the flag is its status.  Whatever
      the command, the current address stays in the buffer, and a running global command
      gets no further lines to visit. */
  function Exec(st: State, cmd: Cmd, g: bool): (r: (State, bool))
    requires Ok(st)
    ensures Ok(r.0) && |r.0.active| <= |st.active|
  {
    if !Legal(st.now, cmd) then (st, false)
    else if cmd.Undo? then Undone(st)
    else if cmd.Mark? then Marked(st, cmd.addr, cmd.c)
    else Edit(Save(st, g), cmd, g)
  }

  // ----- global commands

  /** The lines that build_active_list selects. */
  function Selected(ls: seq<Line>, sel: string -> bool): seq<Id> {
    if ls == [] then []
    else (if sel(ls[0].text) then [ls[0].id] else []) + Selected(ls[1..], sel)
  }

  /** The number of the line x, if it is in the buffer. */
  function AddrOf(ls: seq<Line>, x: Id): (r: Option<nat>)
    ensures r.Some? ==> 1 <= r.value <= |ls| && ls[r.value - 1].id == x
    ensures r.None? ==> forall i :: 0 <= i < |ls| ==> ls[i].id != x
  {
    if ls == [] then None
    else if ls[0].id == x then Some(1)
    else
      match AddrOf(ls[1..], x)
      case None => None
      case Some(n) => Some(n + 1)
  }

  /** A command list; each command resolves its addresses in the buffer and the marks it finds. */
  type Prog = seq<(Buf, Marks) -> Cmd>

  function RunList(st: State, prog: Prog): (r: (State, bool))
    requires Ok(st)
    ensures Ok(r.0) && |r.0.active| <= |st.active|
    decreases |prog|
  {
    if prog == [] then (st, true)
    else
      var (st', ok) := Exec(st, prog[0](st.now, st.marks), true);
      if ok then RunList(st', prog[1..]) else (st', false)
  }

  /** exec_global: the next active line becomes the current one and the command list runs;
      the third component lists the lines visited. */
  function Visit(st: State, prog: Prog): (r: (State, bool, seq<Id>))
    requires Ok(st)
    ensures Ok(r.0)
    decreases |st.active|
  {
    if st.active == [] then (st, true, [])
    else
      var x := st.active[0];
      match AddrOf(st.now.lines, x)
      case None => (st, false, [x])
      case Some(addr) =>
        var (st', ok) := RunList(Goto(st, addr).(active := st.active[1..]), prog);
        if !ok then (st', false, [x])
        else
          var (st2, ok2, rest) := Visit(st', prog);
          (st2, ok2, [x] + rest)
  }

  /** The commands g and v. */
  function Global(st: State, from: int, to: int, sel: string -> bool, prog: Prog): (r: (State, bool, seq<Id>))
    requires Ok(st)
    ensures Ok(r.0)
  {
    if !InRange(st.now, from, to) then (st, false, [])
    else
      var (st', ok, visited) := Visit(Save(st, false).(active := Selected(st.now.lines[from - 1..to], sel)), prog);
      (st'.(active := []), ok, visited)
  }

  // ----- whole sessions

  datatype TopCmd = Do(cmd: Cmd) | ForEach(from: int, to: int, sel: string -> bool, prog: Prog)

  /** A script; each command resolves its addresses in the buffer and the marks it finds. */
  type Script = seq<(Buf, Marks) -> TopCmd>

  /** The editor at start. */
  const EMPTY: State := State(Buf([], 0), None, 1, [], NOMARKS)

  const NOMARKS: Marks := [None, None, None, None, None, None, None, None, None, None, None, None, None,
                           None, None, None, None, None, None, None, None, None, None, None, None, None]

  function Top(st: State, top: TopCmd): (r: (State, bool))
    requires Ok(st)
    ensures Ok(r.0)
  {
    match top
    case Do(cmd) => Exec(st, cmd, false)
    case ForEach(from, to, sel, prog) =>
      var (st', ok, _) := Global(st, from, to, sel, prog);
      (st', ok)
  }

  /** The main loop.  A command that fails ends the session, unless it comes from a terminal. */
  function Session(st: State, script: Script, tty: bool): (r: State)
    requires Ok(st)
    ensures Ok(r)
    decreases |script|
  {
    if script == [] then st
    else
      var (st', ok) := Top(st, script[0](st.now, st.marks));
      if ok || tty then Session(st', script[1..], tty) else st'
  }
}
