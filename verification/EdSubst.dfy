/** substitute_matching_text and apply_subst_template of sub.c.  The regular expression
    library is a function from a text to the offsets it stores. */
module EdSubst {
  import opened EdTypes

  /** SE_MAX: the number of offsets regexec stores. */
  const SE_MAX: nat := 30

  /** A matched part of a text; a group that takes no part in a match has offsets -1. */
  datatype Span = Span(so: int, eo: int)

  /** A compiled pattern; the flag of exec is REG_NOTBOL. */
  datatype Pattern = Pattern(nsub: nat, exec: (string, bool) -> Option<seq<Span>>)

  predicate Within(s: Span, text: string) {
    0 <= s.so <= s.eo <= |text|
  }

  /** What regexec promises about the offsets it stores. */
  predicate GoodMatch(rm: seq<Span>, text: string) {
    && |rm| == SE_MAX && Within(rm[0], text)
    && forall i :: 0 <= i < SE_MAX ==> Within(rm[i], text) || rm[i] == Span(-1, -1)
  }

  ghost predicate Bounded(pat: Pattern) {
    forall text, notbol :: pat.exec(text, notbol).Some? ==> GoodMatch(pat.exec(text, notbol).value, text)
  }

  /** A pattern whose matches lie in the text. */
  type Matcher = pat: Pattern | Bounded(pat) witness Pattern(0, (text, notbol) => None)

  /** The arguments of a substitute command: pattern, template, count, and the flag g. */
  datatype How = How(pat: Matcher, tmpl: string, kth: nat, g: bool)

  // ----- templates

  /** A template is made of literal characters and references to matched parts. */
  datatype Piece = Lit(c: char) | Ref(n: nat)

  /** The piece at offset i; extract_subst_template stores no template that ends in a backslash. */
  function PieceAt(tmpl: string, i: nat, nsub: nat): (p: Piece)
    requires i < |tmpl|
    ensures p.Ref? ==> p.n <= 9
  {
    if tmpl[i] == '&' then Ref(0)
    else if tmpl[i] != '\\' then Lit(tmpl[i])
    else
      var c := if i + 1 < |tmpl| then tmpl[i + 1] else '\0';
      if '1' <= c <= '9' && (c - '0') as nat <= nsub then Ref((c - '0') as nat) else Lit(c)
  }

  function Pieces(tmpl: string, i: nat, nsub: nat): (r: seq<Piece>)
    ensures forall p :: p in r && p.Ref? ==> p.n <= 9
    decreases |tmpl| - i
  {
    if i >= |tmpl| then []
    else [PieceAt(tmpl, i, nsub)] + Pieces(tmpl, if tmpl[i] == '\\' then i + 2 else i + 1, nsub)
  }

  function Part(text: string, s: Span): string
    requires Within(s, text) || s == Span(-1, -1)
  {
    if s.so < 0 then "" else text[s.so..s.eo]
  }

  function Filled(p: Piece, text: string, rm: seq<Span>): string
    requires GoodMatch(rm, text) && (p.Ref? ==> p.n <= 9)
  {
    match p
    case Lit(c) => [c]
    case Ref(n) => Part(text, rm[n])
  }

  function Filling(ps: seq<Piece>, text: string, rm: seq<Span>): string
    requires GoodMatch(rm, text) && forall p :: p in ps && p.Ref? ==> p.n <= 9
  {
    if ps == [] then [] else Filled(ps[0], text, rm) + Filling(ps[1..], text, rm)
  }

  /** What stands for a match. */
  function Expansion(tmpl: string, nsub: nat, text: string, rm: seq<Span>): string
    requires GoodMatch(rm, text)
  {
    Filling(Pieces(tmpl, 0, nsub), text, rm)
  }

  // What a template stands for, character by character.

  lemma PieceBehind(p: string, t: string, i: nat, nsub: nat)
    requires i < |t|
    ensures PieceAt(p + t, |p| + i, nsub) == PieceAt(t, i, nsub)
  {
    assert (p + t)[|p| + i] == t[i];
    assert i + 1 < |t| ==> (p + t)[|p| + i + 1] == t[i + 1];
  }

  lemma {:induction false} PiecesBehind(p: string, t: string, i: nat, nsub: nat)
    ensures Pieces(p + t, |p| + i, nsub) == Pieces(t, i, nsub)
    decreases |t| - i
  {
    hide PieceAt;
    if i < |t| {
      assert (p + t)[|p| + i] == t[i];
      PieceBehind(p, t, i, nsub);
      PiecesBehind(p, t, if t[i] == '\\' then i + 2 else i + 1, nsub);
    }
  }

  /** The empty template stands for nothing. */
  lemma TemplateEmpty(nsub: nat, text: string, rm: seq<Span>)
    requires GoodMatch(rm, text)
    ensures Expansion("", nsub, text, rm) == ""
  {
  }

  lemma FillingCons(p: Piece, ps: seq<Piece>, text: string, rm: seq<Span>)
    requires GoodMatch(rm, text) && (p.Ref? ==> p.n <= 9) && forall q :: q in ps && q.Ref? ==> q.n <= 9
    ensures Filling([p] + ps, text, rm) == Filled(p, text, rm) + Filling(ps, text, rm)
  {
    assert ([p] + ps)[1..] == ps;
  }

  /** An ampersand stands for the whole match. */
  lemma TemplateMatch(t: string, nsub: nat, text: string, rm: seq<Span>)
    requires GoodMatch(rm, text)
    ensures Expansion("&" + t, nsub, text, rm) == text[rm[0].so..rm[0].eo] + Expansion(t, nsub, text, rm)
  {
    hide Filling;
    PiecesBehind("&", t, 0, nsub);
    assert Pieces("&" + t, 0, nsub) == [Ref(0)] + Pieces(t, 0, nsub);
    FillingCons(Ref(0), Pieces(t, 0, nsub), text, rm);
  }

  /** A plain character stands for itself. */
  lemma TemplateChar(c: char, t: string, nsub: nat, text: string, rm: seq<Span>)
    requires GoodMatch(rm, text) && c != '&' && c != '\\'
    ensures Expansion([c] + t, nsub, text, rm) == [c] + Expansion(t, nsub, text, rm)
  {
    hide Filling;
    PiecesBehind([c], t, 0, nsub);
    assert Pieces([c] + t, 0, nsub) == [Lit(c)] + Pieces(t, 0, nsub);
    FillingCons(Lit(c), Pieces(t, 0, nsub), text, rm);
  }

  /** A backslash and a digit d, from 1 up to the number of groups, stand for what group d has matched, which is
      nothing if it took no part; before any other character, a digit beyond the groups included, the backslash
      is dropped. */
  lemma TemplateEscape(c: char, t: string, nsub: nat, text: string, rm: seq<Span>)
    requires GoodMatch(rm, text)
    ensures '1' <= c <= '9' && c as int - 48 <= nsub ==>
      var s := rm[c as int - 48];
      Expansion(['\\', c] + t, nsub, text, rm) == (if s.so < 0 then "" else text[s.so..s.eo]) + Expansion(t, nsub, text, rm)
    ensures !('1' <= c <= '9' && c as int - 48 <= nsub) ==>
      Expansion(['\\', c] + t, nsub, text, rm) == [c] + Expansion(t, nsub, text, rm)
  {
    hide Filling;
    var tmpl := ['\\', c] + t;
    PiecesBehind(['\\', c], t, 0, nsub);
    assert tmpl[0] == '\\' && tmpl[1] == c;
    var p := PieceAt(tmpl, 0, nsub);
    assert Pieces(tmpl, 0, nsub) == [p] + Pieces(t, 0, nsub);
    FillingCons(p, Pieces(t, 0, nsub), text, rm);
  }

  method CopyPart(text: string, s: Span, out: string) returns (out': string)
    requires Within(s, text) || s == Span(-1, -1)
    ensures out' == out + Part(text, s)
  {
    var j, k := s.so, s.eo;
    out' := out;
    while j < k
      invariant s.so <= j <= k || j == k == -1
      invariant out' == out + (if s.so < 0 then "" else text[s.so..j])
    {
      out' := out' + [text[j]];
      j := j + 1;
    }
  }

  lemma FillingMore(tmpl: string, i: nat, nsub: nat, text: string, rm: seq<Span>)
    requires GoodMatch(rm, text) && i < |tmpl|
    ensures Filling(Pieces(tmpl, i, nsub), text, rm) == Filled(PieceAt(tmpl, i, nsub), text, rm)
         + Filling(Pieces(tmpl, if tmpl[i] == '\\' then i + 2 else i + 1, nsub), text, rm)
  {
  }

  /** apply_subst_template */
  method ApplyTemplate(tmpl: string, nsub: nat, text: string, rm: seq<Span>, out: string) returns (out': string)
    requires GoodMatch(rm, text)
    ensures out' == out + Expansion(tmpl, nsub, text, rm)
  {
    hide Filling, Pieces, Part;
    out' := out;
    var i: nat := 0;
    while i < |tmpl|
      invariant out' + Filling(Pieces(tmpl, i, nsub), text, rm) == out + Expansion(tmpl, nsub, text, rm)
    {
      FillingMore(tmpl, i, nsub, text, rm);
      if tmpl[i] == '&' {
        out' := CopyPart(text, rm[0], out');
      } else if tmpl[i] == '\\' {
        i := i + 1;
        var c := if i < |tmpl| then tmpl[i] else '\0';
        if '1' <= c <= '9' && (c - '0') as nat <= nsub {
          out' := CopyPart(text, rm[(c - '0') as nat], out');
        } else {
          out' := out' + [c];
        }
      } else {
        out' := out' + [tmpl[i]];
      }
      i := i + 1;
    }
    assert Filling(Pieces(tmpl, i, nsub), text, rm) == [] by {
      FillingDone(tmpl, i, nsub, text, rm);
    }
  }

  lemma FillingDone(tmpl: string, i: nat, nsub: nat, text: string, rm: seq<Span>)
    requires GoodMatch(rm, text) && i >= |tmpl|
    ensures Filling(Pieces(tmpl, i, nsub), text, rm) == []
  {
  }

  // ----- one line

  /** A match and what precedes it; sub is what would stand for it. */
  datatype Seg = Seg(gap: string, hit: string, sub: string, chosen: bool)

  /** The matches found from left to right, the text behind the last, and whether that match
      ended where it was looked for. */
  datatype Scan = Scan(segs: seq<Seg>, tail: string, stuck: bool)

  function Segment(tmpl: string, nsub: nat, text: string, rm: seq<Span>, chosen: bool): Seg
    requires GoodMatch(rm, text)
  {
    Seg(text[..rm[0].so], text[rm[0].so..rm[0].eo], Expansion(tmpl, nsub, text, rm), chosen)
  }

  /** Is the n-th match replaced? */
  predicate Chosen(kth: nat, n: nat) {
    kth == 0 || n == kth
  }

  /** The search behind the n-th match, which ended at eo: it goes on until a match has been
      replaced, and with the flag g as long as matches are not empty. */
  function Next(pat: Pattern, rest: string, kth: nat, n: nat, g: bool, eo: nat): Option<seq<Span>> {
    if rest != "" && (!(kth == 0 || n >= kth) || (g && eo > 0)) then pat.exec(rest, true) else None
  }

  /** All matches from the n-th on, which regexec has found in text. */
  function ScanFrom(pat: Pattern, tmpl: string, text: string, rm: seq<Span>, kth: nat, n: nat, g: bool): Scan
    requires Bounded(pat) && GoodMatch(rm, text)
    decreases |text|, if kth > n then kth - n else 0
  {
    var seg := Segment(tmpl, pat.nsub, text, rm, Chosen(kth, n));
    var eo := rm[0].eo;
    match Next(pat, text[eo..], kth, n, g, eo)
    case None => Scan([seg], text[eo..], eo == 0)
    case Some(rm') =>
      var s := ScanFrom(pat, tmpl, text[eo..], rm', kth, n + 1, g);
      s.(segs := [seg] + s.segs)
  }

  function Rendered(segs: seq<Seg>): string {
    if segs == [] then "" else segs[0].gap + (if segs[0].chosen then segs[0].sub else segs[0].hit) + Rendered(segs[1..])
  }

  function Original(segs: seq<Seg>): string {
    if segs == [] then "" else segs[0].gap + segs[0].hit + Original(segs[1..])
  }

  function Changed(segs: seq<Seg>): bool {
    segs != [] && (segs[0].chosen || Changed(segs[1..]))
  }

  /** r with p in front of its first line. */
  function Glue(p: string, r: seq<string>): (r': seq<string>)
    requires r != []
    ensures r' != []
  {
    [p + r[0]] + r[1..]
  }

  /** The lines of a text, each ended by a newline but the last. */
  function Lines(text: string): (r: seq<string>)
    ensures r != []
  {
    if text == "" then [""]
    else
      var r := Lines(text[1..]);
      if text[0] == '\n' then [""] + r else Glue([text[0]], r)
  }

  /** What a substitution makes of one line. */
  function Outcome(s: Scan, g: bool): Sub {
    if s.tail != "" && s.stuck && g then SubError
    else if !Changed(s.segs) then NoMatch
    else
      var lines := Lines(Rendered(s.segs) + s.tail);
      NewLines(lines[0], lines[1..])
  }

  function Substituted(pat: Pattern, tmpl: string, kth: nat, g: bool, text: string): Sub
    requires Bounded(pat)
  {
    match pat.exec(text, false)
    case None => NoMatch
    case Some(rm) => Outcome(ScanFrom(pat, tmpl, text, rm, kth, 1, g), g)
  }

  lemma {:induction false} RenderedConcat(a: seq<Seg>, b: seq<Seg>)
    ensures Rendered(a + b) == Rendered(a) + Rendered(b)
    ensures Changed(a + b) == (Changed(a) || Changed(b))
  {
    if a == [] {
      assert a + b == b;
    } else {
      assert (a + b)[1..] == a[1..] + b;
      RenderedConcat(a[1..], b);
    }
  }

  lemma GlueGlue(p: string, q: string, r: seq<string>)
    requires r != []
    ensures Glue(p, Glue(q, r)) == Glue(p + q, r) && Glue("", r) == r
  {
    assert p + (q + r[0]) == (p + q) + r[0] && "" + r[0] == r[0];
  }

  /** The loop of search_and_replace that stores rbuf line by line. */
  method SplitLines(buf: string) returns (lines: seq<string>)
    ensures lines == Lines(buf)
  {
    hide Glue;
    lines := [];
    var i, start := 0, 0;
    assert buf[0..] == buf;
    GlueGlue("", "", Lines(buf));
    assert [] + Lines(buf) == Lines(buf);
    while i < |buf|
      invariant start <= i <= |buf|
      invariant Lines(buf) == lines + Glue(buf[start..i], Lines(buf[i..]))
    {
      assert buf[i..][1..] == buf[i + 1..];
      var rest := Lines(buf[i + 1..]);
      if buf[i] == '\n' {
        assert Glue(buf[start..i], [""] + rest) == [buf[start..i]] + rest by {
          GlueFirst(buf[start..i], rest);
        }
        assert lines + ([buf[start..i]] + rest) == (lines + [buf[start..i]]) + rest;
        lines := lines + [buf[start..i]];
        start := i + 1;
        assert buf[start..i + 1] == "";
        GlueGlue("", "", rest);
      } else {
        GlueGlue(buf[start..i], [buf[i]], rest);
        assert buf[start..i + 1] == buf[start..i] + [buf[i]];
      }
      i := i + 1;
    }
    GlueFirst(buf[start..], []);
    assert [""] + [] == [""] && buf[start..i] == buf[start..] && buf[i..] == "";
    lines := lines + [buf[start..]];
  }

  lemma GlueFirst(p: string, r: seq<string>)
    ensures Glue(p, [""] + r) == [p] + r
  {
    assert p + "" == p;
  }

  lemma RenderedOne(seg: Seg)
    ensures Rendered([seg]) == seg.gap + (if seg.chosen then seg.sub else seg.hit)
    ensures Changed([seg]) == seg.chosen
  {
  }

  /** substitute_matching_text, and the splitting of its result into lines. */
  method Substitute(pat: Pattern, tmpl: string, kth: nat, g: bool, line: string) returns (r: Sub)
    requires Bounded(pat)
    ensures r == Substituted(pat, tmpl, kth, g, line)
  {
    hide ScanFrom, Rendered, Changed, Expansion, Lines, GoodMatch, Segment;
    var txt, buf, changed, matchno: nat := line, "", false, 0;
    var found := pat.exec(line, false);
    if found.None? {
      return NoMatch;
    }
    var rm := found.value;
    MatchBounds(rm, line);
    ghost var goal := ScanFrom(pat, tmpl, line, rm, kth, 1, g);
    ghost var n: nat, segs := 1, [];
    var eo := rm[0].eo;
    assert [] + goal.segs == goal.segs;
    RenderedNone();
    while found.Some?
      invariant n >= 1 && (found.Some? ==> found.value == rm && GoodMatch(rm, txt))
      invariant kth == 0 || matchno == n - 1
      invariant changed == Changed(segs) == (n > 1 && (kth == 0 || n > kth))
      invariant buf == Rendered(segs)
      invariant found.Some? ==>
          var s := ScanFrom(pat, tmpl, txt, rm, kth, n, g); goal == s.(segs := segs + s.segs)
      invariant found.None? ==> goal == Scan(segs, txt, eo == 0)
      decreases found.Some?, |txt|, if kth > n then kth - n else 0
    {
      MatchBounds(rm, txt);
      var so := rm[0].so;
      eo := rm[0].eo;
      ghost var seg := Segment(tmpl, pat.nsub, txt, rm, Chosen(kth, n));
      ScanStep(pat, tmpl, txt, rm, kth, n, g, segs);
      RenderedConcat(segs, [seg]);
      RenderedOne(seg);
      SegmentIs(tmpl, pat.nsub, txt, rm, Chosen(kth, n));
      var take := kth == 0;
      if !take {
        matchno := matchno + 1;
        take := kth == matchno;
      }
      if take {
        changed := true;
        buf := ApplyTemplate(tmpl, pat.nsub, txt, rm, buf + txt[..so]);
      } else {
        assert txt[..eo] == txt[..so] + txt[so..eo];
        buf := buf + txt[..eo];
      }
      txt := txt[eo..];
      segs := segs + [seg];
      if txt != "" && (!changed || (g && eo != 0)) {
        found := pat.exec(txt, true);
        if found.Some? {
          rm := found.value;
        }
      } else {
        found := None;
      }
      n := n + 1;
    }
    if txt != "" && eo == 0 && g {
      return SubError;
    }
    if !changed {
      return NoMatch;
    }
    var lines := SplitLines(buf + txt);
    return NewLines(lines[0], lines[1..]);
  }

  lemma MatchBounds(rm: seq<Span>, text: string)
    requires GoodMatch(rm, text)
    ensures |rm| == SE_MAX && 0 <= rm[0].so <= rm[0].eo <= |text|
  {
  }

  lemma SegmentIs(tmpl: string, nsub: nat, text: string, rm: seq<Span>, chosen: bool)
    requires GoodMatch(rm, text)
    ensures Segment(tmpl, nsub, text, rm, chosen)
         == Seg(text[..rm[0].so], text[rm[0].so..rm[0].eo], Expansion(tmpl, nsub, text, rm), chosen)
  {
  }

  lemma RenderedNone()
    ensures Rendered([]) == "" && !Changed([])
  {
  }

  lemma ScanStep(pat: Pattern, tmpl: string, text: string, rm: seq<Span>, kth: nat, n: nat, g: bool, segs: seq<Seg>)
    requires Bounded(pat) && GoodMatch(rm, text)
    ensures var seg := Segment(tmpl, pat.nsub, text, rm, Chosen(kth, n)); var eo := rm[0].eo;
            var s := ScanFrom(pat, tmpl, text, rm, kth, n, g);
            match Next(pat, text[eo..], kth, n, g, eo)
            case None => s.(segs := segs + s.segs) == Scan(segs + [seg], text[eo..], eo == 0)
            case Some(rm') =>
              && GoodMatch(rm', text[eo..])
              && var s' := ScanFrom(pat, tmpl, text[eo..], rm', kth, n + 1, g);
                 s.(segs := segs + s.segs) == s'.(segs := (segs + [seg]) + s'.segs)
  {
    hide Segment;
    var seg := Segment(tmpl, pat.nsub, text, rm, Chosen(kth, n));
    var eo := rm[0].eo;
    match Next(pat, text[eo..], kth, n, g, eo)
    case None =>
    case Some(rm') =>
      var s' := ScanFrom(pat, tmpl, text[eo..], rm', kth, n + 1, g);
      assert segs + ([seg] + s'.segs) == (segs + [seg]) + s'.segs;
  }

  // ----- what a substitution means

  /** A scan neither loses nor invents text. */
  lemma {:induction false} ScanKeeps(pat: Pattern, tmpl: string, text: string, rm: seq<Span>, kth: nat, n: nat, g: bool)
    requires Bounded(pat) && GoodMatch(rm, text)
    ensures var s := ScanFrom(pat, tmpl, text, rm, kth, n, g); Original(s.segs) + s.tail == text
    decreases |text|, if kth > n then kth - n else 0
  {
    hide Expansion;
    var so, eo := rm[0].so, rm[0].eo;
    assert text == text[..so] + text[so..eo] + text[eo..];
    match Next(pat, text[eo..], kth, n, g, eo)
    case None =>
    case Some(rm') => ScanKeeps(pat, tmpl, text[eo..], rm', kth, n + 1, g);
  }

  /** Which matches are replaced: with a count k the k-th, without one every match found.
      Without the flag g the search ends at the first replaced match. */
  lemma {:induction false} ScanChooses(pat: Pattern, tmpl: string, text: string, rm: seq<Span>, kth: nat, n: nat, g: bool,
                                       i: nat)
    requires Bounded(pat) && GoodMatch(rm, text) && i < |ScanFrom(pat, tmpl, text, rm, kth, n, g).segs|
    ensures var segs := ScanFrom(pat, tmpl, text, rm, kth, n, g).segs;
            && (segs[i].chosen <==> kth == 0 || n + i == kth)
            && (!g && i + 1 < |segs| ==> n + i < kth)
    decreases |text|, if kth > n then kth - n else 0
  {
    hide Expansion;
    var eo := rm[0].eo;
    match Next(pat, text[eo..], kth, n, g, eo)
    case None =>
    case Some(rm') =>
      if i > 0 {
        ScanChooses(pat, tmpl, text[eo..], rm', kth, n + 1, g, i - 1);
      }
  }

  /** Each match is the one regexec finds in the text behind the match before it. */
  lemma {:induction false} ScanMatches(pat: Pattern, tmpl: string, text: string, rm: seq<Span>, kth: nat, n: nat, g: bool,
                                       i: nat)
    requires Bounded(pat) && GoodMatch(rm, text) && 0 < i < |ScanFrom(pat, tmpl, text, rm, kth, n, g).segs|
    ensures var segs := ScanFrom(pat, tmpl, text, rm, kth, n, g).segs; var done := |Original(segs[..i])|;
            && done <= |text| && pat.exec(text[done..], true).Some?
            && segs[i] == Segment(tmpl, pat.nsub, text[done..], pat.exec(text[done..], true).value, segs[i].chosen)
    decreases |text|, if kth > n then kth - n else 0
  {
    hide Original, ScanFrom, Segment, Bounded, GoodMatch, Next;
    MatchBounds(rm, text);
    var segs := ScanFrom(pat, tmpl, text, rm, kth, n, g).segs;
    var eo := rm[0].eo;
    ScanHead(pat, tmpl, text, rm, kth, n, g);
    ScanTail(pat, tmpl, text, rm, kth, n, g);
    match Next(pat, text[eo..], kth, n, g, eo)
    case None =>
    case Some(rm') =>
      var later := segs[1..];
      assert segs[..i] == [segs[0]] + later[..i - 1];
      OriginalCons(segs[0], later[..i - 1]);
      if i == 1 {
        ScanHead(pat, tmpl, text[eo..], rm', kth, n + 1, g);
        assert later[..0] == [];
        OriginalNone();
      } else {
        ScanMatches(pat, tmpl, text[eo..], rm', kth, n + 1, g, i - 1);
        var d := |Original(later[..i - 1])|;
        assert text[eo..][d..] == text[eo + d..];
      }
  }

  lemma ScanHead(pat: Pattern, tmpl: string, text: string, rm: seq<Span>, kth: nat, n: nat, g: bool)
    requires Bounded(pat) && GoodMatch(rm, text)
    ensures var segs := ScanFrom(pat, tmpl, text, rm, kth, n, g).segs;
            && segs != [] && segs[0] == Segment(tmpl, pat.nsub, text, rm, Chosen(kth, n))
            && segs[0].chosen == Chosen(kth, n) && |segs[0].gap + segs[0].hit| == rm[0].eo
  {
    hide Expansion;
  }

  lemma ScanTail(pat: Pattern, tmpl: string, text: string, rm: seq<Span>, kth: nat, n: nat, g: bool)
    requires Bounded(pat) && GoodMatch(rm, text)
    ensures var segs := ScanFrom(pat, tmpl, text, rm, kth, n, g).segs; var rest := text[rm[0].eo..];
            match Next(pat, rest, kth, n, g, rm[0].eo)
            case None => |segs| == 1
            case Some(rm') =>
              && pat.exec(rest, true) == Some(rm') && GoodMatch(rm', rest) && (|rest| < |text| || n < kth)
              && segs != [] && segs[1..] == ScanFrom(pat, tmpl, rest, rm', kth, n + 1, g).segs
  {
    hide Segment;
  }

  lemma OriginalNone()
    ensures Original([]) == ""
  {
  }

  lemma OriginalCons(seg: Seg, segs: seq<Seg>)
    ensures Original([seg] + segs) == seg.gap + seg.hit + Original(segs)
  {
  }

  /** The search stops short of a further match only when a match has been replaced and the
      flag g is off, or when it cannot go on past an empty match. */
  lemma {:induction false} ScanEnds(pat: Pattern, tmpl: string, text: string, rm: seq<Span>, kth: nat, n: nat, g: bool)
    requires Bounded(pat) && GoodMatch(rm, text)
    ensures var s := ScanFrom(pat, tmpl, text, rm, kth, n, g);
            || s.tail == "" || pat.exec(s.tail, true).None?
            || ((kth == 0 || n + |s.segs| > kth) && (!g || s.stuck))
    decreases |text|, if kth > n then kth - n else 0
  {
    hide Expansion;
    var eo := rm[0].eo;
    match Next(pat, text[eo..], kth, n, g, eo)
    case None =>
    case Some(rm') => ScanEnds(pat, tmpl, text[eo..], rm', kth, n + 1, g);
  }

  lemma {:induction false} ChangedSome(segs: seq<Seg>)
    ensures Changed(segs) <==> exists i :: 0 <= i < |segs| && segs[i].chosen
  {
    if segs != [] {
      ChangedSome(segs[1..]);
      if Changed(segs[1..]) {
        var i :| 0 <= i < |segs[1..]| && segs[1..][i].chosen;
        assert segs[i + 1].chosen;
      }
      if i :| 0 < i < |segs| && segs[i].chosen {
        assert segs[1..][i - 1].chosen;
      }
    }
  }

  function Joined(lines: seq<string>): string
    requires lines != []
  {
    if |lines| == 1 then lines[0] else lines[0] + "\n" + Joined(lines[1..])
  }

  lemma {:induction false} JoinedLines(text: string)
    ensures Joined(Lines(text)) == text
    ensures forall i :: 0 <= i < |Lines(text)| ==> '\n' !in Lines(text)[i]
  {
    if text != "" {
      JoinedLines(text[1..]);
      var r := Lines(text[1..]);
      assert text == [text[0]] + text[1..];
      if text[0] == '\n' {
        assert Lines(text)[1..] == r;
      } else {
        assert Lines(text)[0] == [text[0]] + r[0] && Lines(text)[1..] == r[1..];
      }
    }
  }

  /** A substitution on one line, for all patterns, templates, counts and flags.  The line is
      cut into gaps, matches and a tail; the matches that count are replaced by what the
      template makes of them and nothing else changes; the result is stored as lines. */
  lemma SubstitutedMeans(pat: Pattern, tmpl: string, kth: nat, g: bool, text: string)
    requires Bounded(pat) && pat.exec(text, false).Some?
    ensures var s := ScanFrom(pat, tmpl, text, pat.exec(text, false).value, kth, 1, g);
            var r := Substituted(pat, tmpl, kth, g, text);
            && Original(s.segs) + s.tail == text
            && (forall i :: 0 <= i < |s.segs| ==> (s.segs[i].chosen <==> kth == 0 || i + 1 == kth))
            && (r.SubError? <==> g && s.stuck && s.tail != "")
            && (r.NoMatch? ==> |s.segs| < kth)
            && (r.NewLines? ==> |s.segs| >= kth && Joined([r.first] + r.rest) == Rendered(s.segs) + s.tail)
            && (r.NewLines? && g ==> s.tail == "" || pat.exec(s.tail, true).None?)
  {
    hide ScanFrom, Lines, Joined, Rendered, Original, Changed;
    var rm := pat.exec(text, false).value;
    var s := ScanFrom(pat, tmpl, text, rm, kth, 1, g);
    ScanKeeps(pat, tmpl, text, rm, kth, 1, g);
    ScanEnds(pat, tmpl, text, rm, kth, 1, g);
    assert s.segs != [] by {
      ScanSome(pat, tmpl, text, rm, kth, 1, g);
    }
    forall i | 0 <= i < |s.segs|
      ensures s.segs[i].chosen <==> kth == 0 || i + 1 == kth
    {
      ScanChooses(pat, tmpl, text, rm, kth, 1, g, i);
    }
    ChangedSome(s.segs);
    assert kth > 0 && |s.segs| >= kth ==> s.segs[kth - 1].chosen;
    assert kth == 0 ==> s.segs[0].chosen;
    var lines := Lines(Rendered(s.segs) + s.tail);
    JoinedLines(Rendered(s.segs) + s.tail);
    assert [lines[0]] + lines[1..] == lines;
  }

  lemma ScanSome(pat: Pattern, tmpl: string, text: string, rm: seq<Span>, kth: nat, n: nat, g: bool)
    requires Bounded(pat) && GoodMatch(rm, text)
    ensures ScanFrom(pat, tmpl, text, rm, kth, n, g).segs != []
  {
  }

  /** The plain form, without count and flag: the first match is replaced. */
  lemma SubstitutedFirst(pat: Pattern, tmpl: string, text: string)
    requires Bounded(pat) && pat.exec(text, false).Some?
    ensures var rm := pat.exec(text, false).value; var r := Substituted(pat, tmpl, 0, false, text);
            r.NewLines? && Joined([r.first] + r.rest)
                        == text[..rm[0].so] + Expansion(tmpl, pat.nsub, text, rm) + text[rm[0].eo..]
  {
    hide Expansion, Lines, Joined;
    var rm := pat.exec(text, false).value;
    SubstitutedMeans(pat, tmpl, 0, false, text);
    var seg := Segment(tmpl, pat.nsub, text, rm, true);
    RenderedOne(seg);
  }

  lemma {:induction false} RenderedSame(segs: seq<Seg>)
    requires forall i :: 0 <= i < |segs| ==> !segs[i].chosen
    ensures Rendered(segs) == Original(segs)
  {
    if segs != [] {
      RenderedSame(segs[1..]);
    }
  }

  lemma {:induction false} OriginalConcat(a: seq<Seg>, b: seq<Seg>)
    ensures Original(a + b) == Original(a) + Original(b)
  {
    if a == [] {
      assert a + b == b;
    } else {
      assert (a + b)[1..] == a[1..] + b;
      OriginalConcat(a[1..], b);
    }
  }

  /** Where the last of the matches was looked for, and what was found there. */
  lemma LastMatch(pat: Pattern, tmpl: string, text: string, rm: seq<Span>, kth: nat, segs: seq<Seg>)
    returns (at: nat, rm': seq<Span>)
    requires Bounded(pat) && GoodMatch(rm, text) && segs == ScanFrom(pat, tmpl, text, rm, kth, 1, false).segs && |segs| == kth > 0
    ensures at <= |text| && GoodMatch(rm', text[at..]) && Original(segs[..kth - 1]) == text[..at]
    ensures if kth == 1 then at == 0 && rm' == rm else pat.exec(text[at..], true) == Some(rm')
    ensures segs[kth - 1] == Segment(tmpl, pat.nsub, text[at..], rm', segs[kth - 1].chosen)
  {
    hide ScanFrom, Segment, Original, GoodMatch;
    ScanKeeps(pat, tmpl, text, rm, kth, 1, false);
    var tail := ScanFrom(pat, tmpl, text, rm, kth, 1, false).tail;
    at := |Original(segs[..kth - 1])|;
    assert segs == segs[..kth - 1] + segs[kth - 1..];
    OriginalConcat(segs[..kth - 1], segs[kth - 1..]);
    assert Original(segs) + tail == text;
    assert text[..at] == Original(segs[..kth - 1]);
    if kth == 1 {
      ScanHead(pat, tmpl, text, rm, kth, 1, false);
      assert segs[..0] == [];
      OriginalNone();
      assert text[0..] == text;
      rm' := rm;
    } else {
      ScanMatches(pat, tmpl, text, rm, kth, 1, false, kth - 1);
      rm' := pat.exec(text[at..], true).value;
    }
  }

  /** With a count k and without g: the text before and behind the k-th match stays, matches before it included. */
  lemma SubstitutedNth(pat: Pattern, tmpl: string, kth: nat, text: string) returns (at: nat, rm: seq<Span>)
    requires Bounded(pat) && kth > 0 && Substituted(pat, tmpl, kth, false, text).NewLines?
    ensures at <= |text| && GoodMatch(rm, text[at..])
    ensures pat.exec(text[at..], kth > 1) == Some(rm) && (kth == 1 ==> at == 0)
    ensures var r := Substituted(pat, tmpl, kth, false, text);
            Joined([r.first] + r.rest) ==
            text[..at + rm[0].so] + Expansion(tmpl, pat.nsub, text[at..], rm) + text[at + rm[0].eo..]
  {
    hide ScanFrom, Joined, Rendered, Original, Changed, Lines, Expansion, GoodMatch, Bounded;
    MatchGood(pat, text);
    var rm0 := pat.exec(text, false).value;
    var s := ScanFrom(pat, tmpl, text, rm0, kth, 1, false);
    SubstitutedMeans(pat, tmpl, kth, false, text);
    assert |s.segs| >= kth;
    ScanStops(pat, tmpl, text, rm0, kth);
    at, rm := LastMatch(pat, tmpl, text, rm0, kth, s.segs);
    assert kth == 1 ==> text[at..] == text;
    var init, last := s.segs[..kth - 1], s.segs[kth - 1];
    assert s.segs == init + [last];
    RenderedConcat(init, [last]);
    RenderedOne(last);
    RenderedSame(init);
    OriginalConcat(init, [last]);
    MatchBounds(rm, text[at..]);
    SegmentIs(tmpl, pat.nsub, text[at..], rm, true);
    TailIs(pat, tmpl, kth, text, init, last, s.tail, at, rm);
    assert text[at..][..rm[0].so] == text[at..at + rm[0].so];
    assert text[..at] + text[at..at + rm[0].so] == text[..at + rm[0].so];
  }

  lemma MatchGood(pat: Pattern, text: string)
    requires Bounded(pat) && pat.exec(text, false).Some?
    ensures GoodMatch(pat.exec(text, false).value, text)
  {
  }

  lemma ScanStops(pat: Pattern, tmpl: string, text: string, rm: seq<Span>, kth: nat)
    requires Bounded(pat) && GoodMatch(rm, text) && kth > 0
    ensures |ScanFrom(pat, tmpl, text, rm, kth, 1, false).segs| <= kth
  {
    hide ScanFrom;
    if |ScanFrom(pat, tmpl, text, rm, kth, 1, false).segs| > kth {
      ScanChooses(pat, tmpl, text, rm, kth, 1, false, kth - 1);
    }
  }

  lemma TailIs(pat: Pattern, tmpl: string, kth: nat, text: string, init: seq<Seg>, last: Seg, tail: string, at: nat, rm: seq<Span>)
    requires at <= |text| && GoodMatch(rm, text[at..]) && last == Segment(tmpl, pat.nsub, text[at..], rm, last.chosen)
    requires Original(init) == text[..at] && Original(init + [last]) + tail == text
    ensures tail == text[at + rm[0].eo..]
  {
    hide Expansion;
    OriginalConcat(init, [last]);
    var m := rm[0];
    assert Original([last]) == last.gap + last.hit;
    assert |Original(init + [last])| == at + m.eo;
    assert tail == text[|Original(init + [last])|..];
  }

  /** A reference for the flag g without a count: every match is replaced, from left to right. */
  function ReplacedAll(pat: Pattern, tmpl: string, text: string, notbol: bool): string
    requires Bounded(pat)
    decreases |text|
  {
    match pat.exec(text, notbol)
    case None => text
    case Some(rm) =>
      var rest := text[rm[0].eo..];
      text[..rm[0].so] + Expansion(tmpl, pat.nsub, text, rm)
      + (if rest == "" || rm[0].eo == 0 then rest else ReplacedAll(pat, tmpl, rest, true))
  }

  lemma ExecGood(pat: Pattern, text: string, notbol: bool)
    requires Bounded(pat) && pat.exec(text, notbol).Some?
    ensures GoodMatch(pat.exec(text, notbol).value, text)
  {
  }

  lemma ReplacedUnfold(pat: Pattern, tmpl: string, text: string, notbol: bool, rm: seq<Span>)
    requires Bounded(pat) && pat.exec(text, notbol) == Some(rm) && GoodMatch(rm, text)
    ensures ReplacedAll(pat, tmpl, text, notbol) == text[..rm[0].so] + Expansion(tmpl, pat.nsub, text, rm) +
      (if text[rm[0].eo..] == "" || rm[0].eo == 0 then text[rm[0].eo..] else ReplacedAll(pat, tmpl, text[rm[0].eo..], true))
  {
    hide Expansion;
  }

  lemma ReplacedNone(pat: Pattern, tmpl: string, text: string, notbol: bool)
    requires Bounded(pat)
    ensures pat.exec(text, notbol) == None ==> ReplacedAll(pat, tmpl, text, notbol) == text
  {
    hide Expansion;
  }

  lemma ScanUnfold(pat: Pattern, tmpl: string, text: string, rm: seq<Span>, kth: nat, n: nat, g: bool)
    requires Bounded(pat) && GoodMatch(rm, text)
    ensures var seg, eo := Segment(tmpl, pat.nsub, text, rm, Chosen(kth, n)), rm[0].eo; var s := ScanFrom(pat, tmpl, text, rm, kth, n, g);
      match Next(pat, text[eo..], kth, n, g, eo)
      case None => s.segs == [seg] && s.tail == text[eo..]
      case Some(rm') => GoodMatch(rm', text[eo..]) && var s' := ScanFrom(pat, tmpl, text[eo..], rm', kth, n + 1, g);
        s.segs == [seg] + s'.segs && s.tail == s'.tail
  {
    hide Segment;
  }

  lemma {:induction false} ScanAll(pat: Pattern, tmpl: string, text: string, rm: seq<Span>, n: nat, notbol: bool)
    requires Bounded(pat) && pat.exec(text, notbol) == Some(rm)
    ensures GoodMatch(rm, text)
    ensures var s := ScanFrom(pat, tmpl, text, rm, 0, n, true); Rendered(s.segs) + s.tail == ReplacedAll(pat, tmpl, text, notbol)
    decreases |text|
  {
    hide Expansion, Segment, Rendered, ScanFrom, ReplacedAll, Bounded;
    ExecGood(pat, text, notbol);
    ReplacedUnfold(pat, tmpl, text, notbol, rm);
    ScanUnfold(pat, tmpl, text, rm, 0, n, true);
    var eo := rm[0].eo;
    var seg := Segment(tmpl, pat.nsub, text, rm, Chosen(0, n));
    SegmentIs(tmpl, pat.nsub, text, rm, Chosen(0, n));
    RenderedOne(seg);
    match Next(pat, text[eo..], 0, n, true, eo)
    case None =>
      ReplacedNone(pat, tmpl, text[eo..], true);
    case Some(rm') =>
      ScanAll(pat, tmpl, text[eo..], rm', n + 1, true);
      var s' := ScanFrom(pat, tmpl, text[eo..], rm', 0, n + 1, true);
      RenderedConcat([seg], s'.segs);
      assert Rendered([seg]) + Rendered(s'.segs) + s'.tail == Rendered([seg]) + (Rendered(s'.segs) + s'.tail);
  }

  /** The flag g, without a count. */
  lemma SubstitutedAll(pat: Pattern, tmpl: string, text: string)
    requires Bounded(pat) && Substituted(pat, tmpl, 0, true, text).NewLines?
    ensures var r := Substituted(pat, tmpl, 0, true, text); Joined([r.first] + r.rest) == ReplacedAll(pat, tmpl, text, false)
  {
    hide ScanFrom, Joined, Rendered, Original, Changed, Lines, ReplacedAll;
    SubstitutedMeans(pat, tmpl, 0, true, text);
    ScanAll(pat, tmpl, text, pat.exec(text, false).value, 1, false);
  }

  /** What a substitute command does to each line. */
  function Replacer(how: How): string -> Sub {
    text => Substituted(how.pat, how.tmpl, how.kth, how.g, text)
  }
}
