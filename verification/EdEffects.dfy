/** What each command of the reference editor leaves, line by line: stated over the lines that it found and their
    numbers, without the functions that compute it. */
module EdEffects {
  import opened EdLinks
  import opened EdTypes
  import EdSubst
  import opened EdSpec
  import opened EdLaws

  // ----- a, i, c, d, j, t

  /** From was to b: the lines up to at and behind rest stay, and texts stand between them, up to the first that
      is too long for put_sbuf_line; the last line put is current. */
  predicate Between(was: seq<Line>, b: Buf, at: int, rest: int, texts: seq<string>)
    requires 0 <= at <= rest <= |was|
  {
    var k := |b.lines| - at - (|was| - rest);
    && 0 <= k <= |texts| && b.cur == at + k
    && b.lines[..at] == was[..at] && b.lines[at + k..] == was[rest..]
    && (forall i :: 0 <= i < k ==> b.lines[at + i].text == texts[i] && |texts[i]| < 0x7fff_ffff)
    && (k < |texts| ==> |texts[k]| >= 0x7fff_ffff)
  }

  predicate AllShort(texts: seq<string>) {
    forall i :: 0 <= i < |texts| ==> |texts[i]| < 0x7fff_ffff
  }

  lemma {:induction false} FitIs(texts: seq<string>)
    ensures var k := |Fit(texts)|;
            && k <= |texts| && Fit(texts) == texts[..k] && (k < |texts| ==> |texts[k]| >= 0x7fff_ffff)
            && (forall i :: 0 <= i < k ==> |texts[i]| < 0x7fff_ffff) && (Fit(texts) == texts <==> AllShort(texts))
  {
    if texts != [] && |texts[0]| < LINECHARS {
      FitIs(texts[1..]);
      assert texts == [texts[0]] + texts[1..];
      assert forall i :: 0 <= i < |texts| - 1 ==> texts[1..][i] == texts[i + 1];
    }
  }

  lemma PutBetween(st: State, was: seq<Line>, at: int, rest: int, texts: seq<string>)
    requires 0 <= at <= rest <= |was| && st.now == Buf(was[..at] + was[rest..], at)
    ensures var (r, ok) := Put(st, texts); Between(was, r.now, at, rest, texts) && (ok <==> AllShort(texts))
  {
    hide Fit;
    FitIs(texts);
    var put := Fresh(Fit(texts), st.next);
    var r := Put(st, texts).0.now;
    assert (was[..at] + was[rest..])[..at] == was[..at] && (was[..at] + was[rest..])[at..] == was[rest..];
    assert r.lines == was[..at] + put + was[rest..];
    forall i | 0 <= i < |put|
      ensures r.lines[at + i].text == texts[i]
    {
      assert r.lines[at + i] == put[i];
    }
  }

  lemma SavedNow(st: State, g: bool)
    ensures Save(st, g).now == st.now
  {
  }

  /** a puts texts behind line addr, which may be 0. */
  lemma AppendLaw(st: State, addr: int, texts: seq<string>, g: bool)
    requires Ok(st)
    ensures var (r, ok) := Exec(st, Append(addr, texts), g);
            if 0 <= addr <= |st.now.lines|
            then Between(st.now.lines, r.now, addr, addr, texts) && (ok <==> AllShort(texts))
            else r == st && !ok
  {
    hide Put, Between;
    if 0 <= addr <= |st.now.lines| {
      SavedNow(st, g);
      assert st.now.lines[..addr] + st.now.lines[addr..] == st.now.lines;
      PutBetween(Goto(Save(st, g), addr), st.now.lines, addr, addr, texts);
    }
  }

  /** i puts them before line addr, which may not be 0. */
  lemma InsertLaw(st: State, addr: int, texts: seq<string>, g: bool)
    requires Ok(st)
    ensures var (r, ok) := Exec(st, Insert(addr, texts), g);
            if 1 <= addr <= |st.now.lines|
            then Between(st.now.lines, r.now, addr - 1, addr - 1, texts) && (ok <==> AllShort(texts))
            else r == st && !ok
  {
    hide Put, Between;
    if 1 <= addr <= |st.now.lines| {
      SavedNow(st, g);
      assert st.now.lines[..addr - 1] + st.now.lines[addr - 1..] == st.now.lines;
      PutBetween(Goto(Save(st, g), addr - 1), st.now.lines, addr - 1, addr - 1, texts);
    }
  }

  /** c puts them in the place of the lines from..to. */
  lemma ChangeLaw(st: State, from: int, to: int, texts: seq<string>, g: bool)
    requires Ok(st)
    ensures var (r, ok) := Exec(st, Change(from, to, texts), g);
            if 1 <= from <= to <= |st.now.lines|
            then Between(st.now.lines, r.now, from - 1, to, texts) && (ok <==> AllShort(texts))
            else r == st && !ok
  {
    hide Put, Between, Without;
    if 1 <= from <= to <= |st.now.lines| {
      SavedNow(st, g);
      PutBetween(DeleteRange(Save(st, g), from, to), st.now.lines, from - 1, to, texts);
    }
  }

  /** d takes the lines from..to out; the line behind them is current, or the last line if there is none. */
  lemma DeleteLaw(st: State, from: int, to: int, g: bool)
    requires Ok(st)
    ensures var (r, ok) := Exec(st, Delete(from, to), g); var lines := st.now.lines;
            if 1 <= from <= to <= |lines|
            then ok && r.now.lines == lines[..from - 1] + lines[to..] && r.now.cur == if to < |lines| then from else from - 1
            else r == st && !ok
  {
    hide Without;
  }

  /** The texts of the lines from..to, one after the other. */
  ghost predicate Joins(lines: seq<Line>, from: int, to: int, text: string)
    requires 1 <= from <= to <= |lines|
    decreases |lines| - from
  {
    var first := lines[from - 1].text;
    if from == to then text == first
    else |first| <= |text| && text[..|first|] == first && Joins(lines, from + 1, to, text[|first|..])
  }

  lemma {:induction false} ConcatJoins(lines: seq<Line>, from: int, to: int)
    requires 1 <= from <= to <= |lines|
    ensures Joins(lines, from, to, Concat(Texts(lines[from - 1..to])))
    decreases |lines| - from
  {
    var ts := Texts(lines[from - 1..to]);
    assert ts[0] == lines[from - 1].text;
    if from == to {
      assert ts[1..] == [];
    } else {
      assert ts[1..] == Texts(lines[from..to]);
      ConcatJoins(lines, from + 1, to);
      var text := Concat(ts);
      assert text[..|ts[0]|] == ts[0] && text[|ts[0]|..] == Concat(ts[1..]);
    }
  }

  /** j puts one line with all their text in the place of the lines from..to; of one line it leaves everything. */
  lemma JoinLaw(st: State, from: int, to: int, g: bool) returns (text: string)
    requires Ok(st)
    ensures var (r, ok) := Exec(st, Join(from, to), g);
            if !(1 <= from <= to <= |st.now.lines|) then r == st && !ok
            else if from == to then r.now == st.now && ok
            else
              && Joins(st.now.lines, from, to, text) && Between(st.now.lines, r.now, from - 1, to, [text])
              && (ok <==> |text| < 0x7fff_ffff)
  {
    hide Put, Between, Without, Concat, Joins, Texts;
    text := "";
    if 1 <= from < to <= |st.now.lines| {
      SavedNow(st, g);
      text := Concat(Texts(st.now.lines[from - 1..to]));
      ConcatJoins(st.now.lines, from, to);
      PutBetween(DeleteRange(Save(st, g), from, to), st.now.lines, from - 1, to, [text]);
      assert AllShort([text]) <==> |[text][0]| < 0x7fff_ffff;
    }
  }

  predicate SameTexts(a: seq<Line>, b: seq<Line>) {
    |a| == |b| && forall i :: 0 <= i < |a| ==> a[i].text == b[i].text
  }

  /** t puts a copy of the lines from..to behind line addr, which may lie among them. */
  lemma CopyLaw(st: State, from: int, to: int, addr: int, g: bool)
    requires Ok(st)
    ensures var (r, ok) := Exec(st, Copy(from, to, addr), g); var lines, now := st.now.lines, r.now.lines;
            if 1 <= from <= to <= |lines| && 0 <= addr <= |lines|
            then
              var k := to - from + 1;
              && ok && |now| == |lines| + k && r.now.cur == addr + k
              && now[..addr] == lines[..addr] && now[addr + k..] == lines[addr..]
              && SameTexts(now[addr..addr + k], lines[from - 1..to])
            else r == st && !ok
  {
    var lines := st.now.lines;
    if 1 <= from <= to <= |lines| && 0 <= addr <= |lines| {
      SavedNow(st, g);
      var put := Fresh(Texts(lines[from - 1..to]), Save(st, g).next);
      var now := Exec(st, Copy(from, to, addr), g).0.now.lines;
      assert now == lines[..addr] + put + lines[addr..];
      assert now[addr..addr + |put|] == put;
    }
  }

  // ----- m

  /** m puts the lines from..to behind line addr in one piece, in their order, and all other lines keep theirs; the
      last of them is current.  Behind its own last line a block stays where it is. */
  lemma MoveLaw(st: State, from: int, to: int, addr: int, g: bool)
    requires Ok(st)
    ensures var (r, ok) := Exec(st, Move(from, to, addr), g); var lines, now := st.now.lines, r.now.lines;
            if 1 <= from <= to <= |lines| && 0 <= addr <= |lines| && !(from <= addr < to)
            then
              var k := to - from + 1; var p := if addr < from then addr else addr - k;
              && ok && r.now.cur == p + k && Carried(lines, now, from, to, p)
              && (addr == 0 ==> p == 0) && (addr == to ==> now == lines)
              && (0 < addr != to ==> p > 0 && now[p - 1] == lines[addr - 1])
            else r == st && !ok
  {
    hide Without, Ids, MoveSeq, Carried;
    var lines := st.now.lines;
    if 1 <= from <= to <= |lines| && 0 <= addr <= |lines| && !(from <= addr < to) {
      SavedNow(st, g);
      if addr < from {
        MoveUp(lines, from, to, addr);
      } else {
        MoveDown(lines, from, to, addr);
      }
    }
  }

  /** The lines now are was with the block from..to taken out and put at p. */
  predicate Carried(was: seq<Line>, now: seq<Line>, from: int, to: int, p: int)
    requires 1 <= from <= to <= |was| && 0 <= p <= |was| - (to - from + 1)
  {
    var k := to - from + 1;
    && |now| == |was| && now[p..p + k] == was[from - 1..to] && now[..p] + now[p + k..] == was[..from - 1] + was[to..]
  }

  lemma MoveUp(lines: seq<Line>, from: nat, to: nat, addr: nat)
    requires 1 <= from <= to <= |lines| && addr < from
    ensures var now := MoveSeq(lines, from, to, addr);
            Carried(lines, now, from, to, addr) && (addr > 0 ==> now[addr - 1] == lines[addr - 1])
  {
    var now, k := MoveSeq(lines, from, to, addr), to - from + 1;
    assert now[..addr] == lines[..addr];
    assert now[addr..addr + k] == lines[from - 1..to];
    assert now[addr + k..] == lines[addr..from - 1] + lines[to..];
    assert lines[..addr] + lines[addr..from - 1] == lines[..from - 1];
    assert addr > 0 ==> now[addr - 1] == now[..addr][addr - 1];
  }

  lemma MoveDown(lines: seq<Line>, from: nat, to: nat, addr: nat)
    requires 1 <= from <= to <= addr <= |lines|
    ensures var now, p := MoveSeq(lines, from, to, addr), addr - (to - from + 1);
            Carried(lines, now, from, to, p) && (if addr == to then now == lines else now[p - 1] == lines[addr - 1])
  {
    hide Carried;
    var a, b, c, d := lines[..from - 1], lines[from - 1..to], lines[to..addr], lines[addr..];
    assert lines[to..] == c + d;
    Rotated(a, b, c, d);
    assert lines == a + b + c + d;
    assert c != [] ==> c[|c| - 1] == lines[addr - 1];
    CarriedIs(lines, a + c + b + d, from, to, |a| + |c|);
  }

  lemma CarriedIs(was: seq<Line>, now: seq<Line>, from: int, to: int, p: int)
    requires 1 <= from <= to <= |was| && 0 <= p <= |was| - (to - from + 1) && |now| == |was|
    requires now[p..p + (to - from + 1)] == was[from - 1..to] && now[..p] + now[p + (to - from + 1)..] == was[..from - 1] + was[to..]
    ensures Carried(was, now, from, to, p)
  {
  }

  lemma Rotated(a: seq<Line>, b: seq<Line>, c: seq<Line>, d: seq<Line>)
    ensures var now, p := a + c + b + d, |a| + |c|;
            && now[p..p + |b|] == b && now[..p] + now[p + |b|..] == a + (c + d)
            && (c == [] ==> now == a + b + c + d) && (c != [] ==> now[p - 1] == c[|c| - 1])
  {
    var now, p := a + c + b + d, |a| + |c|;
    assert now[..p] == a + c && now[p + |b|..] == d;
    assert c != [] ==> now[..p][p - 1] == c[|c| - 1];
  }

  // ----- k, u

  /** k marks line addr, and no other mark changes; only the letters a to z are marks. */
  lemma MarkLaw(st: State, addr: int, c: char, d: char, g: bool)
    requires Ok(st) && Named(st)
    ensures var (r, ok) := Exec(st, Mark(addr, c), g);
            if 1 <= addr <= |st.now.lines| && 'a' <= c <= 'z'
            then
              && ok && r.now == st.now && MarkAddr(r.now, r.marks, c) == Some(addr)
              && (d != c ==> MarkAddr(r.now, r.marks, d) == MarkAddr(st.now, st.marks, d))
            else r == st && !ok
  {
    if 1 <= addr <= |st.now.lines| && MarkChar(c) {
      hide Unique;
      var l := st.now.lines[addr - 1];
      var a := AddrOf(st.now.lines, l.id);
      assert l == st.now.lines[addr - 1];
      OneAddr(st.now.lines, st.next, a.value, addr);
    }
  }

  lemma OneAddr(ls: seq<Line>, next: Id, a: int, b: int)
    requires Unique(ls, next) && 1 <= a <= |ls| && 1 <= b <= |ls| && ls[a - 1].id == ls[b - 1].id
    ensures a == b
  {
  }

  /** In an empty buffer every letter leads to address 0. */
  lemma MarkEmpty(b: Buf, marks: Marks, c: char)
    requires |marks| == MAXMARK && b.lines == []
    ensures MarkAddr(b, marks, c) == if 'a' <= c <= 'z' then Some(0) else None
  {
  }

  /** u exchanges the buffer and the saved copy, and fails when nothing has been saved. */
  lemma UndoLaw(st: State, g: bool)
    requires Ok(st)
    ensures var (r, ok) := Exec(st, Undo, g);
            if st.saved.None? then r == st && !ok else ok && r.now == st.saved.value && r.saved == Some(st.now) && r.active == []
  {
  }

  // ----- s

  /** The substitution changes none of the lines. */
  predicate Quiet(f: string -> Sub, ls: seq<Line>) {
    forall i :: 0 <= i < |ls| ==> !f(ls[i].text).NewLines?
  }

  lemma {:induction false} SubstQuiet(st: State, n: nat, f: string -> Sub, xa: nat, subs: nat, g: bool, range: seq<Line>)
    requires st.now.cur + n <= |st.now.lines| && range == st.now.lines[st.now.cur..st.now.cur + n]
    requires Quiet(f, range) && SubstLines(st, n, f, xa, subs, g).1
    ensures SubstLines(st, n, f, xa, subs, g).0.now == Buf(st.now.lines, xa)
    decreases n
  {
    if n > 0 {
      assert range[0] == st.now.lines[st.now.cur];
      SubstNext(st, n, f, xa, subs, g);
      SubstQuiet(Goto(st, st.now.cur + 1), n - 1, f, xa, subs, g, range[1..]);
    }
  }

  lemma TextsSize(ls: seq<Line>)
    ensures |Texts(ls)| == |ls|
  {
  }

  /** Behind the next line. */
  lemma PassedLine(st: State, n: nat, f: string -> Sub, range: seq<Line>)
    requires 0 < n && st.now.cur + n <= |st.now.lines| && range == st.now.lines[st.now.cur..st.now.cur + n]
    requires !Broken(f, range[0].text)
    ensures var st' := Passed(st, f);
            && st'.now.cur == st.now.cur + |Image(f, range[0].text)| && st'.now.cur + (n - 1) <= |st'.now.lines|
            && st'.now.lines[st'.now.cur..st'.now.cur + (n - 1)] == range[1..]
  {
    hide Texts, Passed, Broken, Image;
    var Buf(lines, cur) := st.now;
    assert lines[cur..] == [range[0]] + lines[cur + 1..];
    PassedTexts(st, f, range[0], lines[cur + 1..]);
    var r := Passed(st, f).now;
    TextsSize(r.lines[..r.cur]);
    TextsSize(lines[..cur]);
    assert r.lines[r.cur..r.cur + (n - 1)] == r.lines[r.cur..][..n - 1] == lines[cur + 1..][..n - 1];
    assert range[1..] == lines[cur + 1..][..n - 1];
  }

  lemma ImagesNothing(f: string -> Sub)
    ensures Images(f, Texts([])) == []
  {
  }

  /** Line j of the range is the last that changes. */
  predicate LastHit(f: string -> Sub, range: seq<Line>, j: nat) {
    j < |range| && f(range[j].text).NewLines? && Quiet(f, range[j + 1..])
  }

  lemma LastHitTail(f: string -> Sub, range: seq<Line>, j: nat)
    requires LastHit(f, range, j)
    ensures j < |range| && range[..j + 1] == [range[0]] + range[1..][..j]
    ensures if j == 0 then f(range[0].text).NewLines? && Quiet(f, range[1..]) else LastHit(f, range[1..], j - 1)
  {
    hide Quiet;
    assert range[1..][j..] == range[j + 1..];
  }

  lemma {:induction false} SubstLast(st: State, n: nat, f: string -> Sub, xa: nat, subs: nat, g: bool, range: seq<Line>, j: nat)
    requires st.now.cur + n <= |st.now.lines| && range == st.now.lines[st.now.cur..st.now.cur + n]
    requires LastHit(f, range, j) && SubstLines(st, n, f, xa, subs, g).1
    ensures SubstLines(st, n, f, xa, subs, g).0.now.cur == st.now.cur + |Images(f, Texts(range[..j + 1]))|
    decreases n
  {
    hide SubstLines, Broken, Passed, Image, Texts, Images, Quiet, LastHit;
    LastHitTail(f, range, j);
    var line, tail := range[0], range[1..];
    assert line == st.now.lines[st.now.cur];
    PassedSubst(st, n, f, xa, subs, g);
    PassedLine(st, n, f, range);
    TextsCons(line, tail[..j]);
    ImagesCons(f, line.text, Texts(tail[..j]));
    var st' := Passed(st, f);
    if j == 0 {
      assert tail[..0] == [];
      ImagesNothing(f);
      SubstQuiet(st', n - 1, f, st'.now.cur, subs + 1, g, tail);
    } else {
      if f(line.text).NewLines? {
        SubstLast(st', n - 1, f, st'.now.cur, subs + 1, g, tail, j - 1);
      } else {
        SubstLast(st', n - 1, f, xa, subs, g, tail, j - 1);
      }
    }
  }

  lemma SubstExec(st: State, from: int, to: int, how: EdSubst.How, g: bool)
    requires Ok(st)
    ensures Exec(st, Subst(from, to, how), g)
         == if 1 <= from <= to <= |st.now.lines|
            then SubstLines(Goto(Save(st, g), from - 1), to - from + 1, EdSubst.Replacer(how), st.now.cur, 0, g)
            else (st, false)
  {
    hide SubstLines;
  }

  /** After s the last line put in for the last line that changed is current; under g and v, where s need not change
      anything, the current line stays if none did. */
  lemma SubstCurrent(st: State, from: int, to: int, how: EdSubst.How, g: bool, j: nat)
    requires Ok(st) && Exec(st, Subst(from, to, how), g).1
    ensures 1 <= from <= to <= |st.now.lines|
    ensures var f, range := EdSubst.Replacer(how), st.now.lines[from - 1..to]; var r := Exec(st, Subst(from, to, how), g).0;
            && (LastHit(f, range, j) ==> r.now.cur == from - 1 + |Images(f, Texts(range[..j + 1]))|)
            && (Quiet(f, range) ==> r.now == st.now)
  {
    hide SubstLines, Quiet, Texts, Images, Exec, EdSubst.Replacer, LastHit;
    SubstExec(st, from, to, how, g);
    var f, range, st1 := EdSubst.Replacer(how), st.now.lines[from - 1..to], Goto(Save(st, g), from - 1);
    SavedNow(st, g);
    if LastHit(f, range, j) {
      SubstLast(st1, to - from + 1, f, st.now.cur, 0, g, range, j);
    }
    if Quiet(f, range) {
      SubstQuiet(st1, to - from + 1, f, st.now.cur, 0, g, range);
    }
  }

  /** s refuses every range that is not in the buffer. */
  lemma SubstRefused(st: State, from: int, to: int, how: EdSubst.How, g: bool)
    requires Ok(st) && !(1 <= from <= to <= |st.now.lines|)
    ensures Exec(st, Subst(from, to, how), g) == (st, false)
  {
  }

  // ----- the lines that g and v have yet to visit

  /** A line of the range has the id x. */
  predicate At(lines: seq<Line>, from: int, to: int, x: Id) {
    exists i :: 0 <= i < |lines| && from - 1 <= i < to && lines[i].id == x
  }

  predicate HitAt(lines: seq<Line>, from: int, to: int, f: string -> Sub, x: Id) {
    exists i :: 0 <= i < |lines| && from - 1 <= i < to && lines[i].id == x && f(lines[i].text).NewLines?
  }

  lemma IdsAt(lines: seq<Line>, from: int, to: int, x: Id)
    requires 1 <= from <= to <= |lines|
    ensures x in Ids(lines[from - 1..to]) <==> At(lines, from, to, x)
  {
    var block := lines[from - 1..to];
    if x in Ids(block) {
      var i :| 0 <= i < |block| && Ids(block)[i] == x;
      assert lines[from - 1 + i].id == x;
    }
    if At(lines, from, to, x) {
      var i :| 0 <= i < |lines| && from - 1 <= i < to && lines[i].id == x;
      assert Ids(block)[i - (from - 1)] == x;
    }
  }

  lemma {:induction false} SelectedHas(ls: seq<Line>, sel: string -> bool, i: nat)
    requires i < |ls| && sel(ls[i].text)
    ensures ls[i].id in Selected(ls, sel)
  {
    if i > 0 {
      SelectedHas(ls[1..], sel, i - 1);
    }
  }

  lemma HitsAt(lines: seq<Line>, from: int, to: int, f: string -> Sub, x: Id)
    requires 1 <= from <= to <= |lines|
    ensures x in Selected(lines[from - 1..to], Hits(f)) <==> HitAt(lines, from, to, f, x)
  {
    hide Selected;
    var block := lines[from - 1..to];
    if x in Selected(block, Hits(f)) {
      SelectedFrom(block, Hits(f), x);
      var l :| l in block && l.id == x && Hits(f)(l.text);
      var i :| 0 <= i < |block| && block[i] == l;
      assert lines[from - 1 + i] == l;
    }
    if HitAt(lines, from, to, f, x) {
      var i :| 0 <= i < |lines| && from - 1 <= i < to && lines[i].id == x && f(lines[i].text).NewLines?;
      assert block[i - (from - 1)] == lines[i];
      SelectedHas(block, Hits(f), i - (from - 1));
    }
  }

  /** The line x is one that the command, which is legal, deletes, moves or replaces. */
  predicate Affected(lines: seq<Line>, cmd: Cmd, x: Id) {
    match cmd
    case Change(from, to, _) => At(lines, from, to, x)
    case Delete(from, to) => At(lines, from, to, x)
    case Join(from, to) => from < to && At(lines, from, to, x)
    case Move(from, to, _) => At(lines, from, to, x)
    case Subst(from, to, how) => HitAt(lines, from, to, EdSubst.Replacer(how), x)
    case _ => false
  }

  lemma TouchedLaw(st: State, cmd: Cmd, x: Id)
    requires Legal(st.now, cmd) && !cmd.Undo?
    ensures x in Touched(st, cmd) <==> Affected(st.now.lines, cmd, x)
  {
    hide Ids, Selected, Hits, At, HitAt;
    match cmd
    case Change(from, to, _) => IdsAt(st.now.lines, from, to, x);
    case Delete(from, to) => IdsAt(st.now.lines, from, to, x);
    case Join(from, to) => IdsAt(st.now.lines, from, to, x);
    case Move(from, to, _) => IdsAt(st.now.lines, from, to, x);
    case Subst(from, to, how) => HitsAt(st.now.lines, from, to, EdSubst.Replacer(how), x);
    case _ =>
  }

  /** A command in a command list that succeeds takes off the list of lines to be visited exactly those that it
      deletes, moves or replaces; u takes off all. */
  lemma ActiveLaw(st: State, cmd: Cmd, x: Id)
    requires Ok(st) && Exec(st, cmd, true).1
    ensures x in Exec(st, cmd, true).0.active <==> x in st.active && !cmd.Undo? && !Affected(st.now.lines, cmd, x)
  {
    hide Exec, Touched, Affected, Edit;
    ExecActive(st, cmd);
    WithoutIn(st.active, Touched(st, cmd), x);
    if cmd.Undo? {
      TouchedUndo(st);
    } else {
      ExecLegal(st, cmd);
      TouchedLaw(st, cmd, x);
    }
  }

  lemma TouchedUndo(st: State)
    ensures Touched(st, Undo) == st.active
  {
  }

  lemma ExecLegal(st: State, cmd: Cmd)
    requires Ok(st) && Exec(st, cmd, true).1
    ensures Legal(st.now, cmd)
  {
  }

  // ----- command lists, global commands and sessions

  /** A command list obeys its commands in order, and stops at the first that fails. */
  lemma {:induction false} RunListLaw(st: State, prog: Prog, more: Prog)
    requires Ok(st)
    ensures RunList(st, []) == (st, true)
    ensures |prog| == 1 ==> RunList(st, prog) == Exec(st, prog[0](st.now, st.marks), true)
    ensures var (r, ok) := RunList(st, prog); RunList(st, prog + more) == if ok then RunList(r, more) else (r, false)
    decreases |prog|
  {
    hide Exec;
    if prog == [] {
      assert prog + more == more;
    } else {
      var (st', ok) := Exec(st, prog[0](st.now, st.marks), true);
      assert (prog + more)[0] == prog[0] && (prog + more)[1..] == prog[1..] + more;
      if ok {
        RunListLaw(st', prog[1..], more);
      }
    }
  }

  /** At a terminal a session obeys its commands in order; elsewhere it ends at the first that fails. */
  lemma {:induction false} SessionLaw(st: State, script: Script, more: Script)
    requires Ok(st)
    ensures Session(st, [], false) == Session(st, [], true) == st
    ensures Session(st, script + more, true) == Session(Session(st, script, true), more, true)
    ensures script != [] ==>
      var (r, ok) := Top(st, script[0](st.now, st.marks));
      && Session(st, script, true) == Session(r, script[1..], true)
      && Session(st, script, false) == if ok then Session(r, script[1..], false) else r
    decreases |script|
  {
    hide Top;
    if script == [] {
      assert script + more == more;
    } else {
      var st' := Top(st, script[0](st.now, st.marks)).0;
      assert (script + more)[0] == script[0] && (script + more)[1..] == script[1..] + more;
      SessionLaw(st', script[1..], more);
    }
  }

  /** But for the current line and the list of lines to be visited, the states are the same. */
  predicate SameText(a: State, b: State) {
    a.now.lines == b.now.lines && a.saved == b.saved && a.next == b.next && a.marks == b.marks
  }

  lemma StartSame(st: State)
    requires Ok(st) && st.active != []
    ensures SameText(st, Start(st))
  {
  }

  /** Each visit starts from what the visit before has left, and the last leaves the result. */
  lemma {:induction false} VisitsChain(st0: State, st: State, prog: Prog)
    requires Ok(st) && Anchored(st0) && Stays(st0, st)
    ensures var vs := Visits(st, prog); var (r, ok, _) := Visit(st, prog);
            if vs == [] then r == st && ok
            else SameText(st, vs[0]) && (r, ok) == RunList(vs[|vs| - 1], prog)
    ensures var vs := Visits(st, prog); forall k {:trigger vs[k]} :: 0 <= k < |vs| - 1 ==>
            RunList(vs[k], prog).1 && SameText(RunList(vs[k], prog).0, vs[k + 1])
    decreases |st.active|
  {
    hide Stays, Anchored, RunList, TouchedBy, SameText, VisitsLine, Subseq, Without;
    if st.active != [] {
      StartSame(st);
      VisitStep(st0, st, prog);
      VisitNext(st0, st, prog);
      var (st', ok) := RunList(Start(st), prog);
      if ok {
        VisitsChain(st0, st', prog);
        var vs, vs' := Visits(st, prog), Visits(st', prog);
        assert vs == [Start(st)] + vs';
        forall k {:trigger vs[k]} | 0 <= k < |vs| - 1
          ensures RunList(vs[k], prog).1 && SameText(RunList(vs[k], prog).0, vs[k + 1])
        {
          if k > 0 {
            assert vs[k] == vs'[k - 1] && vs[k + 1] == vs'[k];
          }
        }
      }
    }
  }

  lemma VisitNext(st0: State, st: State, prog: Prog)
    requires Ok(st) && Anchored(st0) && Stays(st0, st) && st.active != []
    ensures var (st', ok) := RunList(Start(st), prog); var (r, okAll, _) := Visit(st, prog);
            (r, okAll) == if ok then (Visit(st', prog).0, Visit(st', prog).1) else (st', false)
  {
    hide Stays, Anchored, RunList, AddrOf;
    StartVisits(st0, st);
  }

  /** A global command from one visit to the next: the first starts from the buffer as it was, each other from what
      the one before has left, and the last leaves the result; it fails exactly when the last does. */
  lemma GlobalChain(st: State, from: int, to: int, sel: string -> bool, prog: Prog)
    requires Ok(st) && Named(st)
    ensures !(1 <= from <= to <= |st.now.lines|) ==> Global(st, from, to, sel, prog) == (st, false, [])
    ensures 1 <= from <= to <= |st.now.lines| ==>
      var vs := Visits(Begin(st, from, to, sel), prog); var (r, ok, _) := Global(st, from, to, sel, prog);
      && (vs == [] ==> r.now == st.now && ok)
      && (vs != [] ==> vs[0].now.lines == st.now.lines && RunList(vs[|vs| - 1], prog) == (r.(active := RunList(vs[|vs| - 1], prog).0.active), ok))
      && forall k {:trigger vs[k]} :: 0 <= k < |vs| - 1 ==> RunList(vs[k], prog).1 && SameText(RunList(vs[k], prog).0, vs[k + 1])
  {
    hide Visit, Visits, RunList, Selected, Stays;
    if 1 <= from <= to <= |st.now.lines| {
      var b := Begin(st, from, to, sel);
      BeginAnchored(st, from, to, sel);
      StaysSame(b);
      VisitsChain(b, b, prog);
    }
  }

  /** What is visited is a line of the range that matches. */
  lemma GlobalSelects(st: State, from: int, to: int, sel: string -> bool, prog: Prog, k: nat) returns (i: int)
    requires Ok(st) && Named(st) && InRange(st.now, from, to) && k < |Global(st, from, to, sel, prog).2|
    ensures from <= i <= to && st.now.lines[i - 1].id == Global(st, from, to, sel, prog).2[k] && sel(st.now.lines[i - 1].text)
  {
    hide Visit, Visits, Selected, Stays, TouchedBy, Subseq, Unique, VisitsLine;
    var block, visited := st.now.lines[from - 1..to], Global(st, from, to, sel, prog).2;
    GlobalVisits(st, from, to, sel, prog, k);
    SubseqIn(visited, Selected(block, sel));
    SelectedFrom(block, sel, visited[k]);
    var l :| l in block && l.id == visited[k] && sel(l.text);
    var j :| 0 <= j < |block| && block[j] == l;
    i := from + j;
  }

  /** Every matching line of the range is visited, or deleted, moved or replaced by a command before. */
  lemma GlobalReaches(st: State, from: int, to: int, sel: string -> bool, prog: Prog, i: int)
    requires Ok(st) && Named(st) && InRange(st.now, from, to) && Global(st, from, to, sel, prog).1
    requires from <= i <= to && sel(st.now.lines[i - 1].text)
    ensures var x := st.now.lines[i - 1].id; var vs := Visits(Begin(st, from, to, sel), prog);
            x in Global(st, from, to, sel, prog).2 || TouchedIn(vs, prog, x)
  {
    hide Visit, Visits, Selected, Stays, TouchedBy;
    var block := st.now.lines[from - 1..to];
    assert block[i - from] == st.now.lines[i - 1];
    SelectedHas(block, sel, i - from);
    GlobalVisitsAll(st, from, to, sel, prog, st.now.lines[i - 1].id);
  }

  /** x stands before y in s. */
  ghost predicate Precedes(s: seq<Id>, x: Id, y: Id) {
    exists i, j :: 0 <= i < j < |s| && s[i] == x && s[j] == y
  }

  lemma {:induction false} SubseqPrecedes(s: seq<Id>, t: seq<Id>, x: Id, y: Id)
    requires Subseq(s, t) && Precedes(s, x, y)
    ensures Precedes(t, x, y)
    decreases |t|
  {
    var i, j :| 0 <= i < j < |s| && s[i] == x && s[j] == y;
    if s[0] != t[0] {
      SubseqPrecedes(s, t[1..], x, y);
      PrecedesMore(t, x, y);
    } else if i > 0 {
      assert s[1..][i - 1] == x && s[1..][j - 1] == y;
      SubseqPrecedes(s[1..], t[1..], x, y);
      PrecedesMore(t, x, y);
    } else {
      assert y in s[1..] by {
        assert s[1..][j - 1] == y;
      }
      SubseqIn(s[1..], t[1..]);
      var k :| 0 <= k < |t[1..]| && t[1..][k] == y;
      assert t[0] == x && t[k + 1] == y;
    }
  }

  lemma PrecedesMore(t: seq<Id>, x: Id, y: Id)
    requires t != [] && Precedes(t[1..], x, y)
    ensures Precedes(t, x, y)
  {
    var i, j :| 0 <= i < j < |t[1..]| && t[1..][i] == x && t[1..][j] == y;
    assert t[i + 1] == x && t[j + 1] == y;
  }

  lemma {:induction false} SelectedSubseq(ls: seq<Line>, sel: string -> bool)
    ensures Subseq(Selected(ls, sel), Ids(ls))
  {
    if ls != [] {
      SelectedSubseq(ls[1..], sel);
      assert Ids(ls)[1..] == Ids(ls[1..]);
      if !sel(ls[0].text) {
        assert [] + Selected(ls[1..], sel) == Selected(ls[1..], sel);
        SubseqWider(Selected(ls[1..], sel), Ids(ls));
      }
    }
  }

  lemma SubseqWider(s: seq<Id>, t: seq<Id>)
    requires t != [] && Subseq(s, t[1..])
    ensures Subseq(s, t)
  {
    if s != [] && s[0] == t[0] {
      SubseqTail(s, t[1..]);
    }
  }

  /** Lines are visited in the order in which they stand when the command begins. */
  lemma GlobalInOrder(st: State, from: int, to: int, sel: string -> bool, prog: Prog, i: nat, j: nat, a: int, b: int)
    requires Ok(st) && Named(st) && InRange(st.now, from, to) && i < j < |Global(st, from, to, sel, prog).2|
    requires 1 <= a <= |st.now.lines| && st.now.lines[a - 1].id == Global(st, from, to, sel, prog).2[i]
    requires 1 <= b <= |st.now.lines| && st.now.lines[b - 1].id == Global(st, from, to, sel, prog).2[j]
    ensures from <= a < b <= to
  {
    hide Visit, Visits, Selected, Stays, TouchedBy, Subseq, Unique;
    var lines, visited := st.now.lines, Global(st, from, to, sel, prog).2;
    var block := lines[from - 1..to];
    GlobalVisits(st, from, to, sel, prog, i);
    SelectedSubseq(block, sel);
    SubseqTrans(visited, Selected(block, sel), Ids(block));
    assert Precedes(visited, visited[i], visited[j]);
    SubseqPrecedes(visited, Ids(block), visited[i], visited[j]);
    var p, q :| 0 <= p < q < |Ids(block)| && Ids(block)[p] == visited[i] && Ids(block)[q] == visited[j];
    OneAddr(lines, st.next, from + p, a);
    OneAddr(lines, st.next, from + q, b);
  }
}
