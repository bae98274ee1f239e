/** The checksum caches of cpdup (md5.c, fsmid.c, and fextract of misc.c): a printer and a
    parser of lines that hold a code, the length of a name, and the name. */
module CpdupCache {

  // ----- numbers

  function Digit(d: nat): char
    requires d < 16
  {
    "0123456789abcdef"[d]
  }

  /** The value of a digit, 16 for other characters. */
  function Value(c: char): (v: nat)
    ensures v <= 16
  {
    if '0' <= c <= '9' then (c - '0') as nat
    else if 'a' <= c <= 'f' then 10 + (c - 'a') as nat
    else if 'A' <= c <= 'F' then 10 + (c - 'A') as nat
    else 16
  }

  /** The number that the digits at the start of s form. */
  function Number(s: string, base: nat, acc: nat): nat {
    if s == "" || Value(s[0]) >= base then acc else Number(s[1..], base, acc * base + Value(s[0]))
  }

  /** The format %zu */
  function Decimal(n: nat): (s: string)
    ensures s != "" && forall c :: c in s ==> '0' <= c <= '9'
  {
    if n < 10 then [Digit(n)] else Decimal(n / 10) + [Digit(n % 10)]
  }

  /** strtol with base 0: blanks, a sign, and a prefix that tells the base */
  function Strtol(s: string): int {
    if s == "" then 0
    else if s[0] == ' ' || '\t' <= s[0] <= '\r' then Strtol(s[1..])
    else if s[0] == '-' then -(Unsigned(s[1..]) as int)
    else if s[0] == '+' then Unsigned(s[1..])
    else Unsigned(s)
  }

  function Unsigned(s: string): nat {
    if |s| >= 3 && s[0] == '0' && (s[1] == 'x' || s[1] == 'X') && Value(s[2]) < 16 then Number(s[2..], 16, 0)
    else if s != "" && s[0] == '0' then Number(s, 8, 0)
    else Number(s, 10, 0)
  }

  lemma {:induction false} NumberMore(s: string, c: char, base: nat, acc: nat)
    requires (forall d :: d in s ==> Value(d) < base) && Value(c) < base
    ensures Number(s + [c], base, acc) == Number(s, base, acc) * base + Value(c)
    decreases |s|
  {
    if s == "" {
      assert s + [c] == [c] && [c][1..] == "";
    } else {
      assert (s + [c])[1..] == s[1..] + [c];
      NumberMore(s[1..], c, base, acc * base + Value(s[0]));
    }
  }

  lemma DigitValue(d: nat)
    requires d < 16
    ensures Value(Digit(d)) == d
  {
  }

  lemma DigitAlone(d: nat)
    requires d < 10
    ensures Number([Digit(d)], 10, 0) == d
  {
    DigitValue(d);
    assert [Digit(d)][1..] == "";
  }

  lemma NumberNone()
    ensures Number("", 16, 0) == 0
  {
  }

  lemma DecimalDigits(n: nat)
    ensures forall d :: d in Decimal(n) ==> Value(d) < 10
  {
    hide Decimal;
  }

  lemma {:induction false} DecimalValue(n: nat)
    ensures Number(Decimal(n), 10, 0) == n
  {
    hide Number, Value, Digit;
    if n < 10 {
      DigitAlone(n);
    } else {
      DecimalValue(n / 10);
      DigitValue(n % 10);
      DecimalDigits(n / 10);
      NumberMore(Decimal(n / 10), Digit(n % 10), 10, 0);
    }
  }

  lemma {:induction false} DecimalFirst(n: nat)
    requires n > 0
    ensures Decimal(n)[0] != '0'
  {
    if n >= 10 {
      DecimalFirst(n / 10);
      assert Decimal(n)[0] == Decimal(n / 10)[0];
    }
  }

  /** strtol reads what %zu has printed. */
  lemma StrtolDecimal(n: nat)
    ensures Strtol(Decimal(n)) == n
  {
    var s := Decimal(n);
    assert s[0] in s;
    DecimalValue(n);
    if n == 0 {
      assert s == "0" && s[1..] == "";
      assert Unsigned(s) == Number(s, 8, 0) == Number(s[1..], 8, 0) == 0;
    } else {
      DecimalFirst(n);
    }
  }

  lemma TwoDigits(a: char, b: char, base: nat)
    requires Value(a) < base && Value(b) < base
    ensures Number([a, b], base, 0) == Value(a) * base + Value(b)
  {
    hide Value;
    assert [a, b][1..] == [b] && [b][1..] == "";
    assert Number([a, b], base, 0) == Number([b], base, Value(a)) == Number("", base, Value(a) * base + Value(b));
  }

  /** The notations of C, and the format %zu. */
  lemma Notations()
    ensures Decimal(42) == "42" && Strtol("42") == 42 && Strtol("0x1F") == 31 && Strtol("017") == 15 && Strtol("-19") == -19
  {
    hide Number;
    assert "0x1F"[2..] == ['1', 'F'] && "-19"[1..] == ['1', '9'] && "017"[1..] == ['1', '7'];
    TwoDigits('4', '2', 10);
    TwoDigits('1', 'F', 16);
    TwoDigits('1', '9', 10);
    TwoDigits('1', '7', 8);
    Octal("17");
    assert ['0'] + "17" == "017";
  }

  lemma Octal(s: string)
    ensures Number(['0'] + s, 8, 0) == Number(s, 8, 0)
  {
    assert (['0'] + s)[1..] == s;
  }

  // ----- C strings and integers

  /** The characters before the first NUL. */
  function CString(s: string): (r: string)
    ensures r <= s && '\0' !in r
  {
    if s == "" || s[0] == '\0' then "" else [s[0]] + CString(s[1..])
  }

  lemma {:induction false} CStringWhole(s: string)
    requires '\0' !in s
    ensures CString(s) == s
  {
    if s != "" {
      CStringWhole(s[1..]);
    }
  }

  const LONG_MAX: int := 0x7fff_ffff_ffff_ffff

  /** The range of strtol */
  function ToLong(v: int): int {
    if v > LONG_MAX then LONG_MAX else if v < -LONG_MAX - 1 then -LONG_MAX - 1 else v
  }

  /** A long assigned to an int */
  function ToInt(v: int): (r: int)
    ensures -0x8000_0000 <= r < 0x8000_0000
  {
    (v + 0x8000_0000) % 0x1_0000_0000 - 0x8000_0000
  }

  /** nlen */
  function Length(s: string): int {
    ToInt(ToLong(Strtol(CString(s))))
  }

  /** A length read back from what %zu has printed. */
  lemma LengthDecimal(n: nat)
    ensures Length(Decimal(n)) == ToInt(ToLong(n))
    ensures Length(Decimal(n)) == n <==> n < 0x8000_0000
    ensures Length(Decimal(n)) <= n
  {
    StrtolDecimal(n);
    CStringWhole(Decimal(n));
  }

  // ----- lines

  datatype Entry = Entry(code: string, name: string)

  predicate Ends(c: char) {
    c == ' ' || c == '\n'
  }

  predicate Plain(s: string) {
    forall c :: c in s ==> !Ends(c)
  }

  /** The length of the word at the start of s. */
  function WordLen(s: string): (n: nat)
    ensures n <= |s| && (n < |s| ==> Ends(s[n])) && forall i :: 0 <= i < n ==> !Ends(s[i])
  {
    if s == "" || Ends(s[0]) then 0
    else 1 + WordLen(s[1..])
  }

  /** The length of the text that fextract takes: n characters, or a word if n is negative. */
  function TextLen(s: string, n: int): (k: nat)
    ensures k <= |s|
  {
    if n < 0 then WordLen(s) else if n <= |s| then n else |s|
  }

  function DropSpace(s: string): string {
    if s != "" && s[0] == ' ' then s[1..] else s
  }

  /** The rest of a line, and its newline, are skipped. */
  function NextLine(s: string): (r: string)
    ensures |r| <= |s| && (s != "" ==> |r| < |s|)
  {
    if s == "" then "" else if s[0] == '\n' then s[1..] else NextLine(s[1..])
  }

  /** One turn of the loop of md5_cache, on what is left of the file: an entry, and the rest. */
  function ParseOne(s: string): (r: (Entry, string))
    ensures s != "" ==> |r.1| < |s|
  {
    var k := WordLen(s);
    var s1 := DropSpace(s[k..]);
    var k1 := WordLen(s1);
    var s2 := DropSpace(s1[k1..]);
    var k2 := TextLen(s2, Length(s1[..k1]));
    (Entry(CString(s[..k]), CString(s2[..k2])), NextLine(s2[k2..]))
  }

  function Parse(s: string): seq<Entry>
    decreases |s|
  {
    if s == "" then [] else [ParseOne(s).0] + Parse(ParseOne(s).1)
  }

  /** The format "%s %zu %s\n" */
  function PrintOne(e: Entry): string {
    e.code + " " + Decimal(|e.name|) + " " + e.name + "\n"
  }

  function Print(es: seq<Entry>): string {
    if es == [] then "" else PrintOne(es[0]) + Print(es[1..])
  }

  /** A line as it is on disk. */
  lemma FileSample()
    ensures Print([Entry("d41d", "a b")]) == "d41d 3 a b\n"
  {
    var es := [Entry("d41d", "a b")];
    assert es[1..] == [] && Print(es) == PrintOne(es[0]) + "";
    assert Decimal(3) == "3";
  }

  lemma WordIs(w: string, s: string)
    requires Plain(w) && s != "" && Ends(s[0])
    ensures WordLen(w + s) == |w| && (w + s)[..|w|] == w && (w + s)[|w|..] == s
  {
    assert forall i :: 0 <= i < |w| ==> (w + s)[i] == w[i] && !Ends(w[i]);
    assert Ends((w + s)[|w|]);
  }

  lemma DecimalPlain(n: nat)
    ensures Plain(Decimal(n))
  {
  }

  /** What a node holds: C strings, the code without blanks. */
  predicate Good(e: Entry) {
    Plain(e.code) && '\0' !in e.code && '\0' !in e.name
  }

  const INT_MAX: int := 0x7fff_ffff

  /** The first length of a word at which imax no longer fits into an int. */
  const WORD_MAX: nat := 0x7fff_ffc0

  /** fextract can count what it takes of s. */
  predicate Countable(s: string, n: int) {
    if n < 0 then WordLen(s) < WORD_MAX else n < INT_MAX
  }

  /** The three calls of one turn of the loop of md5_cache can. */
  predicate CountableOne(s: string) {
    var k := WordLen(s);
    var s1 := DropSpace(s[k..]);
    var k1 := WordLen(s1);
    Countable(s, -1) && Countable(s1, -1) && Countable(DropSpace(s1[k1..]), Length(s1[..k1]))
  }

  predicate CountableAll(s: string)
    decreases |s|
  {
    s == "" || (CountableOne(s) && CountableAll(ParseOne(s).1))
  }

  /** Code and length of the name can be counted by ints. */
  predicate Sized(e: Entry) {
    |e.code| < WORD_MAX && |e.name| < INT_MAX
  }

  /** What is read behind a printed length. */
  lemma TextBack(name: string, rest: string)
    ensures var s := name + ("\n" + rest); var n := Length(Decimal(|name|)); var k := TextLen(s, n);
            && (Countable(s, n) && k == |name| <==> |name| < INT_MAX) && (Countable(s, n) && k != |name| ==> k < |name|)
  {
    hide Length, Decimal;
    LengthDecimal(|name|);
    var s := name + ("\n" + rest);
    if Length(Decimal(|name|)) < 0 {
      if Plain(name) {
        WordIs(name, "\n" + rest);
      } else {
        WordShort(name, "\n" + rest);
      }
    }
  }

  lemma WordShort(w: string, s: string)
    requires !Plain(w)
    ensures WordLen(w + s) < |w|
  {
    var c :| c in w && Ends(c);
    var i :| 0 <= i < |w| && w[i] == c;
    assert Ends((w + s)[i]);
  }

  /** The steps of the parser on a printed line. */
  lemma PrintedParts(e: Entry, rest: string)
    requires Good(e)
    ensures var s := PrintOne(e) + rest; var k := WordLen(s);
            && k == |e.code| && s[..k] == e.code
            && var s1 := DropSpace(s[k..]); var k1 := WordLen(s1);
            && s1[..k1] == Decimal(|e.name|) && k1 == |Decimal(|e.name|)|
            && DropSpace(s1[k1..]) == e.name + ("\n" + rest)
  {
    hide WordLen, Decimal, Plain;
    var len := Decimal(|e.name|);
    var s2 := e.name + ("\n" + rest);
    var s1 := len + (" " + s2);
    assert PrintOne(e) + rest == e.code + (" " + s1);
    WordIs(e.code, " " + s1);
    assert DropSpace(" " + s1) == s1;
    DecimalPlain(|e.name|);
    WordIs(len, " " + s2);
    assert DropSpace(" " + s2) == s2;
  }

  /** A length is printed in few digits. */
  lemma {:induction false} DecimalLength(n: nat)
    ensures |Decimal(n)| <= 1 + n / 10
  {
    if n >= 10 {
      DecimalLength(n / 10);
    }
  }

  /** The name may hold anything but NUL, newlines and spaces included: its length precedes it. */
  lemma ParsePrintOne(e: Entry, rest: string)
    requires Good(e)
    ensures CountableOne(PrintOne(e) + rest) && ParseOne(PrintOne(e) + rest).0.name == e.name <==> Sized(e)
    ensures Sized(e) ==> ParseOne(PrintOne(e) + rest) == (e, rest)
  {
    hide WordLen, Decimal, Length, Plain, TextLen, PrintOne;
    PrintedParts(e, rest);
    TextBack(e.name, rest);
    CStringWhole(e.code);
    DecimalLength(|e.name|);
    var s2 := e.name + ("\n" + rest);
    if Sized(e) {
      assert s2[..|e.name|] == e.name && s2[|e.name|..] == "\n" + rest;
      CStringWhole(e.name);
      assert NextLine("\n" + rest) == rest;
    }
  }

  ghost predicate AllGood(es: seq<Entry>) {
    forall i :: 0 <= i < |es| ==> Good(es[i])
  }

  ghost predicate AllSized(es: seq<Entry>) {
    forall i :: 0 <= i < |es| ==> Sized(es[i])
  }

  ghost predicate SameNames(es: seq<Entry>, fs: seq<Entry>) {
    |es| == |fs| && forall i :: 0 <= i < |es| ==> es[i].name == fs[i].name
  }

  /** A cache file reads back as the entries it was written from, in order, exactly when ints can count their
      codes and names; not even the names come back otherwise. */
  lemma {:induction false} ParsePrint(es: seq<Entry>)
    requires AllGood(es)
    ensures CountableAll(Print(es)) && SameNames(Parse(Print(es)), es) <==> AllSized(es)
    ensures AllSized(es) ==> Parse(Print(es)) == es
  {
    hide ParseOne, PrintOne, Good, Sized, CountableOne;
    if es != [] {
      var rest := Print(es[1..]);
      ParsePrintOne(es[0], rest);
      PrintSome(es[0]);
      var s := Print(es);
      assert s == PrintOne(es[0]) + rest && s != "";
      assert Parse(s) == [ParseOne(s).0] + Parse(ParseOne(s).1);
      if Sized(es[0]) {
        ParsePrint(es[1..]);
        assert es == [es[0]] + es[1..];
        SameNamesCons(es[0], Parse(rest), es[1..]);
      } else if SameNames(Parse(s), es) {
        assert Parse(s)[0].name == es[0].name;
      }
    }
  }

  lemma SameNamesCons(e: Entry, es: seq<Entry>, fs: seq<Entry>)
    ensures SameNames([e] + es, [e] + fs) <==> SameNames(es, fs)
  {
    var a, b := [e] + es, [e] + fs;
    if SameNames(a, b) {
      forall i | 0 <= i < |es|
        ensures es[i].name == fs[i].name
      {
        assert a[i + 1].name == b[i + 1].name;
      }
    }
  }

  lemma PrintSome(e: Entry)
    ensures PrintOne(e) != ""
  {
  }

  lemma PlainPrefix(s: string, r: string)
    requires Plain(s) && r <= s
    ensures Plain(r)
  {
    assert forall i :: 0 <= i < |r| ==> r[i] == s[i];
  }

  lemma ParseOneGood(s: string)
    ensures Good(ParseOne(s).0) && (CountableOne(s) ==> Sized(ParseOne(s).0))
  {
    var k := WordLen(s);
    PlainPrefix(s[..k], CString(s[..k]));
  }

  lemma {:induction false} ParseGood(s: string)
    ensures AllGood(Parse(s)) && (CountableAll(s) ==> AllSized(Parse(s)))
    decreases |s|
  {
    hide ParseOne, Good, Sized, CountableOne;
    if s != "" {
      ParseOneGood(s);
      ParseGood(ParseOne(s).1);
    }
  }

  /** Whatever a file holds, damaged lines included: its entries, written and read again, are the same exactly
      when ints can count them, as they can for every file that can be read. */
  lemma ParseAgain(s: string)
    ensures var es := Parse(s);
            && (CountableAll(Print(es)) && Parse(Print(es)) == es <==> AllSized(es))
            && (CountableAll(s) ==> AllSized(es))
  {
    hide CountableAll, Parse, Print, Good, Sized;
    ParseGood(s);
    ParsePrint(Parse(s));
  }

  /** A file cannot, however short it is, when a length is 2 to the 31 less 1, whose buffer has a size that is no
      int. */
  lemma NotCountable(code: string, rest: string)
    requires Plain(code)
    ensures !CountableAll(code + " " + Decimal(0x7fff_ffff) + " " + rest)
  {
    hide WordLen, Decimal, Length, Plain;
    var len := Decimal(0x7fff_ffff);
    var s1 := len + (" " + rest);
    var s := code + (" " + s1);
    assert code + " " + len + " " + rest == s;
    WordIs(code, " " + s1);
    assert DropSpace(" " + s1) == s1;
    DecimalPlain(0x7fff_ffff);
    WordIs(len, " " + rest);
    LengthDecimal(0x7fff_ffff);
  }

  // ----- the code

  /** fextract: n characters or a word from position p of the file, which is where the
      character in *pc stands; the buffer s has imax characters and grows in time, so that the NUL
      behind the text fits too.  It is not ok when imax would exceed an int. */
  method Fextract(f: string, p: nat, n: int, skipSpace: bool) returns (ok: bool, s: string, p': nat, imax: nat)
    requires p <= |f| && n <= INT_MAX
    ensures p' <= |f| && ok == Countable(f[p..], n)
    ensures ok ==> s == f[p..][..TextLen(f[p..], n)] && |s| < imax <= INT_MAX
    ensures ok ==> var r := f[p..][TextLen(f[p..], n)..]; f[p'..] == if skipSpace then DropSpace(r) else r
  {
    hide WordLen, Ends;
    var left := n;
    ok, s, p', imax := true, "", p, 64;
    if n >= 0 {
      if n == INT_MAX {
        return false, "", p, 0;
      }
      imax := n + 1;
    }
    while p' < |f| && left != 0 && !(left < 0 && Ends(f[p']))
      invariant p <= p' <= |f| && s == f[p..p'] && |s| < imax <= INT_MAX && (n < 0 ==> imax % 64 == 0 && imax <= WORD_MAX)
      invariant if n < 0 then left == n && Plain(s) else left >= 0 && left + |s| == n && imax == n + 1
      decreases |f| - p'
    {
      s := s + [f[p']];
      if |s| == imax {
        if imax > INT_MAX - 64 {
          WordLong(f[p..], s);
          return false, "", p, 0;
        }
        imax := imax + 64;
      }
      if left > 0 {
        left := left - 1;
      }
      p' := p' + 1;
    }
    ghost var r := f[p..];
    assert r[..|s|] == s && r[|s|..] == f[p'..];
    assert |s| == TextLen(r, n) by {
      if n < 0 {
        WordAt(r, |s|);
      }
    }
    if skipSpace && p' < |f| && f[p'] == ' ' {
      p' := p' + 1;
    }
  }

  lemma WordLong(r: string, s: string)
    requires s <= r && Plain(s) && |s| == WORD_MAX
    ensures WordLen(r) >= WORD_MAX
  {
    assert forall i :: 0 <= i < |s| ==> r[i] == s[i] && !Ends(s[i]);
  }

  lemma WordAt(r: string, k: nat)
    requires k <= |r| && Plain(r[..k]) && (k < |r| ==> Ends(r[k]))
    ensures WordLen(r) == k
  {
    assert forall i :: 0 <= i < k ==> r[i] == r[..k][i] && !Ends(r[i]);
  }

  /** The loop that looks for the end of a line, and the fgetc behind it. */
  method SkipLine(f: string, p: nat) returns (p': nat)
    requires p <= |f|
    ensures p' <= |f| && f[p'..] == NextLine(f[p..])
  {
    p' := p;
    while p' < |f| && f[p'] != '\n'
      invariant p <= p' <= |f| && NextLine(f[p'..]) == NextLine(f[p..])
    {
      assert f[p'..][1..] == f[p' + 1..];
      p' := p' + 1;
    }
    if p' < |f| {
      assert f[p'..][1..] == f[p' + 1..];
      p' := p' + 1;
    }
  }

  /** A node of MD5Base; md_Code may be missing. */
  datatype Node = Node(name: string, code: string, hasCode: bool, accessed: bool)

  /** The nodes that md5_flush writes. */
  function Written(nodes: seq<Node>): seq<Entry> {
    if nodes == [] then []
    else
      var n := nodes[|nodes| - 1];
      Written(nodes[..|nodes| - 1]) + (if n.accessed && n.hasCode then [Entry(n.code, n.name)] else [])
  }

  /** The i-th entry is of nodes[at[i]]: the nodes that were looked at and have a code, each of them once, in order. */
  ghost predicate Kept(nodes: seq<Node>, es: seq<Entry>, at: seq<nat>) {
    && |at| == |es|
    && (forall i, j :: 0 <= i < j < |at| ==> at[i] < at[j])
    && (forall i :: 0 <= i < |at| ==> at[i] < |nodes| && es[i] == Entry(nodes[at[i]].code, nodes[at[i]].name))
    && (forall k :: 0 <= k < |nodes| ==> (k in at <==> nodes[k].accessed && nodes[k].hasCode))
  }

  lemma {:induction false} WrittenKept(nodes: seq<Node>) returns (at: seq<nat>)
    ensures Kept(nodes, Written(nodes), at)
  {
    at := [];
    if nodes != [] {
      var n := |nodes| - 1;
      at := WrittenKept(nodes[..n]);
      KeptMore(nodes, Written(nodes[..n]), at);
      assert Written(nodes[..n]) + [] == Written(nodes[..n]);
      if nodes[n].accessed && nodes[n].hasCode {
        at := at + [n];
      }
    }
  }

  lemma KeptMore(nodes: seq<Node>, es: seq<Entry>, at: seq<nat>)
    requires nodes != [] && Kept(nodes[..|nodes| - 1], es, at)
    ensures var n := |nodes| - 1; var node := nodes[n];
      if node.accessed && node.hasCode then Kept(nodes, es + [Entry(node.code, node.name)], at + [n]) else Kept(nodes, es, at)
  {
    var n := |nodes| - 1;
    assert n !in at;
    assert forall k :: 0 <= k < n ==> nodes[..n][k] == nodes[k];
  }

  function Loaded(es: seq<Entry>): (r: seq<Node>)
    ensures |r| == |es|
  {
    seq(|es|, i requires 0 <= i < |es| => Node(es[i].name, es[i].code, true, true))
  }

  lemma {:induction false} PrintMore(es: seq<Entry>, e: Entry)
    ensures Print(es + [e]) == Print(es) + PrintOne(e)
  {
    if es == [] {
      assert es + [e] == [e] && [e][1..] == [] && PrintOne(e) + "" == PrintOne(e);
    } else {
      assert (es + [e])[1..] == es[1..] + [e];
      PrintMore(es[1..], e);
    }
  }

  class Cache {
    var nodes: seq<Node>
    var dirty: bool

    constructor ()
      ensures nodes == [] && !dirty
    {
      nodes, dirty := [], false;
    }

    /** md5_flush: a dirty cache is written; the list is empty afterwards. */
    method Flush(before: string) returns (file: string)
      modifies this
      ensures file == if old(dirty) then Print(Written(old(nodes))) else before
      ensures exists at :: Kept(old(nodes), Written(old(nodes)), at)
      ensures nodes == [] && !dirty
    {
      ghost var at := WrittenKept(nodes);
      file := before;
      if dirty {
        file := "";
        for i := 0 to |nodes|
          invariant nodes == old(nodes) && file == Print(Written(nodes[..i]))
        {
          var node := nodes[i];
          assert nodes[..i + 1][..i] == nodes[..i];
          if node.accessed && node.hasCode {
            PrintMore(Written(nodes[..i]), Entry(node.code, node.name));
            file := file + PrintOne(Entry(node.code, node.name));
          } else {
            assert Written(nodes[..i]) + [] == Written(nodes[..i]);
          }
        }
        assert nodes[..|nodes|] == nodes;
      }
      nodes, dirty := [], false;
    }

    /** The loop of md5_cache that reads a file, whatever is in it. */
    method Load(f: string) returns (ok: bool)
      modifies this`nodes
      ensures ok == CountableAll(f) && (ok ==> nodes == Loaded(Parse(f)))
    {
      hide ParseOne, CountableOne;
      nodes := [];
      ghost var es := [];
      var p := 0;
      assert f[0..] == f;
      while p < |f|
        invariant p <= |f| && nodes == Loaded(es) && es + Parse(f[p..]) == Parse(f)
        invariant CountableAll(f[p..]) == CountableAll(f)
        decreases |f| - p
      {
        var one, code, name, p' := LoadOne(f, p);
        if !one {
          return false;
        }
        assert |f[p'..]| < |f[p..]|;
        assert es + ([Entry(code, name)] + Parse(f[p'..])) == (es + [Entry(code, name)]) + Parse(f[p'..]);
        es := es + [Entry(code, name)];
        nodes := nodes + [Node(name, code, true, true)];
        p := p';
      }
      ok := true;
    }
  }

  method LoadOne(f: string, p: nat) returns (ok: bool, code: string, name: string, p': nat)
    requires p < |f|
    ensures p' <= |f| && ok == CountableOne(f[p..]) && (ok ==> (Entry(code, name), f[p'..]) == ParseOne(f[p..]))
  {
    hide WordLen, Length, NextLine, DropSpace, CString, Countable;
    var len, imax;
    name, len := "", "";
    ok, code, p', imax := Fextract(f, p, -1, true);
    if ok {
      ok, len, p', imax := Fextract(f, p', -1, true);
    }
    if ok {
      LengthInt(len);
      ok, name, p', imax := Fextract(f, p', Length(len), false);
    }
    if ok {
      p' := SkipLine(f, p');
    }
    code, name := CString(code), CString(name);
  }

  lemma LengthInt(s: string)
    ensures Length(s) <= INT_MAX
  {
  }

  lemma LoadedSame(es: seq<Entry>, fs: seq<Entry>)
    ensures Loaded(es) == Loaded(fs) <==> es == fs
  {
    if Loaded(es) == Loaded(fs) {
      assert |es| == |fs|;
      forall i | 0 <= i < |es|
        ensures es[i] == fs[i]
      {
        assert Loaded(es)[i] == Loaded(fs)[i];
      }
    }
  }

  /** A dirty cache is written and read back: the same nodes, in order, without those that
      were not looked at or have no code. */
  method FlushThenLoad(c: Cache, before: string) returns (ok: bool)
    requires c.dirty && AllGood(Written(c.nodes))
    modifies c
    ensures ok && c.nodes == Loaded(old(Written(c.nodes))) <==> AllSized(old(Written(c.nodes)))
  {
    hide Parse, Print, Good, Sized, CountableAll;
    ghost var es := Written(c.nodes);
    var file := c.Flush(before);
    ParsePrint(es);
    ok := c.Load(file);
    LoadedSame(Parse(Print(es)), es);
  }

  // ----- numbers as codes

  /** The format %016jx, for n digits */
  function Hex(v: nat, n: nat): (s: string)
    ensures |s| == n && forall c :: c in s ==> Value(c) < 16 && !Ends(c) && c != '\0'
  {
    if n == 0 then "" else Hex(v / 16, n - 1) + [Digit(v % 16)]
  }

  /** v fits into n hexadecimal digits. */
  predicate HexFits(v: nat, n: nat) {
    if n == 0 then v == 0 else HexFits(v / 16, n - 1)
  }

  lemma HexSample()
    ensures Hex(0x1a, 2) == "1a"
  {
    hide Value, Ends;
    assert Hex(1, 0) == "" && Hex(1, 1) == Hex(0, 0) + [Digit(1)];
  }

  /** fsmid_cache: strtoull with base 16 reads back every code of 64 bits. */
  lemma {:induction false} HexValue(v: nat, n: nat)
    requires HexFits(v, n)
    ensures Number(Hex(v, n), 16, 0) == v
  {
    hide Number, Value;
    if n == 0 {
      NumberNone();
    } else {
      HexValue(v / 16, n - 1);
      DigitValue(v % 16);
      NumberMore(Hex(v / 16, n - 1), Digit(v % 16), 16, 0);
    }
  }

  datatype Fsmid = Fsmid(code: nat, name: string)

  function FsmidEntries(ns: seq<Fsmid>): (r: seq<Entry>)
    ensures |r| == |ns|
  {
    seq(|ns|, i requires 0 <= i < |ns| => Entry(Hex(ns[i].code, 16), ns[i].name))
  }

  function FsmidNodes(es: seq<Entry>): (r: seq<Fsmid>)
    ensures |r| == |es|
  {
    seq(|es|, i requires 0 <= i < |es| => Fsmid(Number(es[i].code, 16, 0), es[i].name))
  }

  /** An FSMID cache file reads back as the codes and names it was written from, exactly when ints can count the
      names. */
  lemma FsmidRoundTrip(ns: seq<Fsmid>)
    requires forall i :: 0 <= i < |ns| ==> HexFits(ns[i].code, 16) && '\0' !in ns[i].name
    ensures var file := Print(FsmidEntries(ns));
            CountableAll(file) && FsmidNodes(Parse(file)) == ns <==> AllSized(FsmidEntries(ns))
  {
    hide Parse, Print, HexFits, Number, CountableAll;
    var es := FsmidEntries(ns);
    var back := Parse(Print(es));
    assert AllGood(es);
    ParsePrint(es);
    forall i | 0 <= i < |ns|
      ensures FsmidNodes(es)[i] == ns[i]
    {
      HexValue(ns[i].code, 16);
    }
    if FsmidNodes(back) == ns {
      forall i | 0 <= i < |es|
        ensures back[i].name == es[i].name
      {
        assert FsmidNodes(back)[i].name == ns[i].name;
      }
    }
  }
}
