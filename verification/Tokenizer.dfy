/** Command lines: words separated by blanks, bare or in quotes. */
module TokenRules {
  import opened Wrappers

  datatype Style = Bare | Quoted(mark: char)

  /** A line: words with the blanks before each of them, and the blanks at the end. */
  datatype Line = End(tail: string) | Word(gap: string, style: Style, text: string, rest: Line)

  const BLANKS: set<char> := {' ', '\t', '\n'}
  const QUOTES: set<char> := {'\'', '\"'}

  /** The length of the longest prefix inside, or outside, of `cs`. */
  function While(s: string, cs: set<char>, inside: bool): (n: nat)
    ensures n <= |s| && (forall k :: 0 <= k < n ==> (s[k] in cs) == inside)
    ensures n < |s| ==> (s[n] in cs) != inside
  {
    if s == "" || (s[0] in cs) != inside then 0 else 1 + While(s[1..], cs, inside)
  }

  /** The prefix is determined by its property. */
  lemma WhileOf(a: string, b: string, cs: set<char>, inside: bool)
    requires forall k :: 0 <= k < |a| ==> (a[k] in cs) == inside
    requires b != "" ==> (b[0] in cs) != inside
    ensures While(a + b, cs, inside) == |a| && (a + b)[..|a|] == a && (a + b)[|a|..] == b
  {
    var s, n := a + b, While(a + b, cs, inside);
    assert forall k :: 0 <= k < |a| ==> s[k] == a[k];
    assert |a| < |s| ==> s[|a|] == b[0];
    assert n < |s| ==> (s[n] in cs) != inside;
  }

  predicate AllIn(s: string, cs: set<char>) {
    forall c :: c in s ==> c in cs
  }

  predicate NoneIn(s: string, cs: set<char>) {
    forall c :: c in s ==> c !in cs
  }

  /** A text that can be shown in a style. */
  ghost predicate WellShown(style: Style, text: string) {
    match style
    case Quoted(q) => q in QUOTES && q !in text
    case Bare => text != "" && text[0] !in QUOTES && NoneIn(text, BLANKS)
  }

  /** What lines look like in print: only after a quoted word may the next one follow at once. */
  ghost predicate WellFormed(l: Line) {
    match l
    case End(tail) => AllIn(tail, BLANKS)
    case Word(gap, style, text, rest) =>
      && AllIn(gap, BLANKS) && WellShown(style, text) && WellFormed(rest)
      && (style.Bare? && rest.Word? ==> rest.gap != "")
  }

  function Shown(style: Style, text: string): string {
    match style
    case Bare => text
    case Quoted(q) => [q] + text + [q]
  }

  function Print(l: Line): string {
    match l
    case End(tail) => tail
    case Word(gap, style, text, rest) => gap + (Shown(style, text) + Print(rest))
  }

  function Texts(l: Line): seq<string> {
    match l
    case End(_) => []
    case Word(_, _, text, rest) => [text] + Texts(rest)
  }

  /** The first word of a string; `more` is what comes after it. */
  datatype First = NoWord | Unclosed | First(gap: string, style: Style, text: string, more: string)

  /** The word at the start of `t`. */
  function WordAt(gap: string, t: string): (f: First)
    requires t != "" && t[0] !in BLANKS
    ensures f.First? ==> |f.more| < |t|
  {
    if t[0] in QUOTES then
      var k := While(t[1..], {t[0]}, false);
      if k == |t[1..]| then Unclosed else First(gap, Quoted(t[0]), t[1..k + 1], t[k + 2..])
    else
      var k := While(t, BLANKS, false);
      First(gap, Bare, t[..k], t[k..])
  }

  function FirstOf(s: string): (f: First)
    ensures f.First? ==> |f.more| < |s|
  {
    var g := While(s, BLANKS, true);
    if g == |s| then NoWord else WordAt(s[..g], s[g..])
  }

  function Put(f: First, rest: Option<Line>): Option<Line>
    requires f.First?
  {
    match rest
    case None => None
    case Some(l) => Some(Word(f.gap, f.style, f.text, l))
  }

  /** Reading a line; None if a quote is not closed. */
  function Read(s: string): Option<Line>
    decreases |s|
  {
    match FirstOf(s)
    case NoWord => Some(End(s))
    case Unclosed => None
    case First(_, _, _, more) => Put(FirstOf(s), Read(more))
  }

  /** The words alone; None if a quote is not closed. */
  function Words(s: string): Option<seq<string>>
    decreases |s|
  {
    match FirstOf(s)
    case NoWord => Some([])
    case Unclosed => None
    case First(_, _, text, more) => Before([text], Words(more))
  }

  /** The words are the texts of the line that is read. */
  lemma {:induction false} WordsOfRead(s: string)
    ensures Words(s) == match Read(s) case None => None case Some(l) => Some(Texts(l))
    decreases |s|
  {
    var f := FirstOf(s);
    if f.First? {
      WordsOfRead(f.more);
    }
    hide FirstOf;
  }

  lemma WordAtSplits(gap: string, t: string)
    requires t != "" && t[0] !in BLANKS
    ensures var f := WordAt(gap, t);
            f.First? ==> && f.gap == gap && t == Shown(f.style, f.text) + f.more
                         && WellShown(f.style, f.text) && (f.style.Bare? && f.more != "" ==> f.more[0] in BLANKS)
  {
    if t[0] in QUOTES {
      var k := While(t[1..], {t[0]}, false);
      if k < |t[1..]| {
        assert t[k + 1] == t[0];
        assert t == [t[0]] + t[1..k + 1] + [t[0]] + t[k + 2..];
      }
    } else {
      var k := While(t, BLANKS, false);
      assert t == t[..k] + t[k..];
    }
  }

  /** Whatever is read prints as it was, and has the form of a line. */
  lemma {:induction false} PrintOfRead(s: string)
    ensures Read(s).Some? ==> WellFormed(Read(s).value) && Print(Read(s).value) == s
    ensures s != "" && s[0] in BLANKS && Read(s).Some? && Read(s).value.Word? ==> Read(s).value.gap != ""
    decreases |s|
  {
    var g := While(s, BLANKS, true);
    assert s == s[..g] + s[g..];
    if g < |s| {
      WordAtSplits(s[..g], s[g..]);
      var f := FirstOf(s);
      if f.First? {
        PrintOfRead(f.more);
        hide WordAt, Shown, WellShown;
        assert s == f.gap + (Shown(f.style, f.text) + f.more);
      }
    }
  }

  lemma WordAtShown(gap: string, style: Style, text: string, more: string)
    requires WellShown(style, text) && (style.Bare? && more != "" ==> more[0] in BLANKS)
    ensures var t := Shown(style, text) + more;
            t != "" && t[0] !in BLANKS && WordAt(gap, t) == First(gap, style, text, more)
  {
    var t := Shown(style, text) + more;
    match style
    case Bare =>
      assert t[0] == text[0] && text[0] in text;
      WhileOf(text, more, BLANKS, false);
    case Quoted(q) =>
      assert t[1..] == text + ([q] + more);
      WhileOf(text, [q] + more, {q}, false);
      assert t[|text| + 2..] == more;
  }

  /** A word that is shown properly is the first one of what follows. */
  lemma FirstOfShown(gap: string, style: Style, text: string, more: string)
    requires AllIn(gap, BLANKS) && WellShown(style, text) && (style.Bare? && more != "" ==> more[0] in BLANKS)
    ensures FirstOf(gap + (Shown(style, text) + more)) == First(gap, style, text, more)
  {
    WordAtShown(gap, style, text, more);
    hide WordAt, WellShown, Shown;
    WhileOf(gap, Shown(style, text) + more, BLANKS, true);
  }

  lemma NoWordIn(tail: string)
    requires AllIn(tail, BLANKS)
    ensures FirstOf(tail) == NoWord
  {
    assert tail + "" == tail;
    WhileOf(tail, "", BLANKS, true);
  }

  /** A printed line is read back as it was. */
  lemma {:induction false} ReadOfPrint(l: Line)
    requires WellFormed(l)
    ensures Read(Print(l)) == Some(l)
  {
    match l
    case End(tail) =>
      NoWordIn(tail);
    case Word(gap, style, text, rest) =>
      ReadOfPrint(rest);
      if style.Bare? {
        PrintStarts(rest);
      }
      FirstOfShown(gap, style, text, Print(rest));
      hide FirstOf, Shown;
  }

  lemma PrintStarts(l: Line)
    requires WellFormed(l) && (l.Word? ==> l.gap != "")
    ensures Print(l) != "" ==> Print(l)[0] in BLANKS
  {
    var first := if l.Word? then l.gap else l.tail;
    assert first != "" ==> first[0] in first;
  }

  /** Reading and printing are inverse to each other: the lines that can be read are exactly those
      that are printed from some line, and it is that line that is read. */
  lemma ReadIffPrinted(s: string, l: Line)
    ensures Read(s) == Some(l) <==> WellFormed(l) && Print(l) == s
  {
    PrintOfRead(s);
    hide Read, Print;
    if WellFormed(l) {
      ReadOfPrint(l);
    }
  }

  /** A blank in front makes no difference to the word after it. */
  lemma FirstOfSkip(t: string)
    requires t != "" && t[0] in BLANKS
    ensures var f, f' := FirstOf(t), FirstOf(t[1..]);
            && (f.NoWord? <==> f'.NoWord?) && (f.Unclosed? <==> f'.Unclosed?)
            && (f.First? ==> f.text == f'.text && f.more == f'.more)
  {
    var g := While(t[1..], BLANKS, true);
    assert While(t, BLANKS, true) == g + 1 && t[g + 1..] == t[1..][g..];
  }

  /** Blanks in front make no difference to the words. */
  lemma SkipBlank(t: string)
    requires t != "" && t[0] in BLANKS
    ensures Words(t) == Words(t[1..])
  {
    FirstOfSkip(t);
    hide FirstOf;
  }

  lemma WordsFirst(t: string, f: First)
    requires FirstOf(t) == f && f.First?
    ensures Words(t) == Before([f.text], Words(f.more))
  {
    hide FirstOf;
  }

  /** Reading has come to `p` and has found the words `done`. */
  ghost predicate Ahead(s: string, p: nat, done: seq<string>) {
    p <= |s| && Words(s) == Before(done, Words(s[p..]))
  }

  lemma AheadStart(s: string)
    ensures Ahead(s, 0, [])
  {
    assert s[0..] == s;
    assert Words(s).Some? ==> [] + Words(s).value == Words(s).value;
  }

  lemma AheadBlank(s: string, p: nat, done: seq<string>)
    requires Ahead(s, p, done) && p < |s| && s[p] in BLANKS
    ensures Ahead(s, p + 1, done)
  {
    assert s[p..][1..] == s[p + 1..];
    SkipBlank(s[p..]);
    hide Words;
  }

  lemma AheadEnd(s: string, done: seq<string>)
    requires Ahead(s, |s|, done)
    ensures Words(s) == Some(done)
  {
    assert Words(s[|s|..]) == Some([]);
    hide Words;
    assert done + [] == done;
  }

  lemma AheadWord(s: string, p: nat, done: seq<string>, style: Style, text: string, next: nat)
    requires Ahead(s, p, done) && p < next <= |s| && s[p..] == Shown(style, text) + s[next..]
    requires WellShown(style, text) && (style.Bare? && next < |s| ==> s[next] in BLANKS)
    ensures Ahead(s, next, done + [text])
  {
    FirstOfShown("", style, text, s[next..]);
    assert "" + s[p..] == s[p..];
    hide FirstOf, Shown, WellShown, Words;
    WordsFirst(s[p..], First("", style, text, s[next..]));
    BeforeBefore(done, [text], Words(s[next..]));
  }

  /** A bare word from `p` to `e`. */
  lemma AheadBare(s: string, p: nat, done: seq<string>, e: nat)
    requires Ahead(s, p, done) && p < |s| && s[p] !in QUOTES && p < e <= |s|
    requires (forall k :: p <= k < e ==> s[k] !in BLANKS) && (e < |s| ==> s[e] in BLANKS)
    ensures Ahead(s, e, done + [s[p..e]])
  {
    hide Ahead;
    assert s[p..] == s[p..e] + s[e..];
    AheadWord(s, p, done, Bare, s[p..e], e);
  }

  /** A quoted word with its marks at `p` and `e`. */
  lemma AheadQuoted(s: string, p: nat, done: seq<string>, e: nat)
    requires Ahead(s, p, done) && p < e < |s| && s[p] in QUOTES && s[e] == s[p]
    requires forall k :: p < k < e ==> s[k] != s[p]
    ensures Ahead(s, e + 1, done + [s[p + 1..e]])
  {
    hide Ahead;
    assert s[p..] == [s[p]] + s[p + 1..e] + [s[e]] + s[e + 1..];
    AheadWord(s, p, done, Quoted(s[p]), s[p + 1..e], e + 1);
  }

  /** A line with each kind of blank and quote; a word may follow a closing quote at once. */
  lemma WordsExample()
    ensures Words("ca -in 'a b'\t\"c\"d\n") == Some(["ca", "-in", "a b", "c", "d"])
  {
    hide Read, Words, Print, WellFormed, Texts;
    var l := ExampleLine();
    var line, words := "ca -in 'a b'\t\"c\"d\n", ["ca", "-in", "a b", "c", "d"];
    ReadOfPrint(l);
    WordsOfRead(line);
    assert Words(line) == Some(words);
  }

  lemma EndOfLine() returns (l: Line)
    ensures WellFormed(l) && Print(l) == " 'a b'\t\"c\"d\n" && Texts(l) == ["a b", "c", "d"] && l.Word? && l.gap != ""
  {
    hide *;
    LastBlank();
    ShownExamples();
    l := OneMoreWord(End("\n"), "", Bare, "d", "\n", []);
    l := OneMoreWord(l, "\t", Quoted('\"'), "c", "d\n", ["d"]);
    l := OneMoreWord(l, " ", Quoted('\''), "a b", "\t\"c\"d\n", ["c", "d"]);
  }

  lemma ExampleLine() returns (l: Line)
    ensures WellFormed(l) && Print(l) == "ca -in 'a b'\t\"c\"d\n" && Texts(l) == ["ca", "-in", "a b", "c", "d"]
  {
    hide *;
    l := EndOfLine();
    ShownExamples();
    l := OneMoreWord(l, " ", Bare, "-in", " 'a b'\t\"c\"d\n", ["a b", "c", "d"]);
    l := OneMoreWord(l, "", Bare, "ca", " -in 'a b'\t\"c\"d\n", ["-in", "a b", "c", "d"]);
  }

  lemma ShownExamples()
    ensures AllIn("", BLANKS) && AllIn(" ", BLANKS) && AllIn("\t", BLANKS)
    ensures WellShown(Bare, "ca") && WellShown(Bare, "-in") && WellShown(Bare, "d")
    ensures WellShown(Quoted('\"'), "c") && WellShown(Quoted('\''), "a b")
    ensures Shown(Bare, "ca") == "ca" && Shown(Bare, "-in") == "-in" && Shown(Bare, "d") == "d"
    ensures Shown(Quoted('\"'), "c") == "\"c\"" && Shown(Quoted('\''), "a b") == "'a b'"
  {
  }

  lemma LastBlank()
    ensures WellFormed(End("\n")) && Print(End("\n")) == "\n" && Texts(End("\n")) == []
  {
  }

  /** A word in front of a line. */
  lemma OneMoreWord(l: Line, gap: string, style: Style, text: string, s: string, ts: seq<string>) returns (w: Line)
    requires WellFormed(l) && Print(l) == s && Texts(l) == ts && AllIn(gap, BLANKS) && WellShown(style, text)
    requires style.Bare? && l.Word? ==> l.gap != ""
    ensures w == Word(gap, style, text, l) && WellFormed(w)
    ensures Print(w) == gap + (Shown(style, text) + s) && Texts(w) == [text] + ts
  {
    w := Word(gap, style, text, l);
  }

  /** A quote that is not closed. */
  lemma UnclosedExample()
    ensures Words("'a") == None
  {
    var s := "'a";
    assert s[0] == '\'' && s[1..] == "a" && s[0..] == s;
  }

  lemma FirstUnclosed(t: string)
    requires t != "" && t[0] in QUOTES && t[0] !in t[1..]
    ensures FirstOf(t) == Unclosed
  {
    assert While(t, BLANKS, true) == 0 && t[0..] == t;
  }

  lemma AheadUnclosed(s: string, p: nat, done: seq<string>)
    requires Ahead(s, p, done) && p < |s| && s[p] in QUOTES
    requires forall k :: p < k < |s| ==> s[k] != s[p]
    ensures Words(s) == None
  {
    FirstUnclosed(s[p..]);
    hide FirstOf;
  }
}

/** chopup_args: the words are cut out of the line by writing NULs into it. */
module Tokenizer {
  import opened CStrings
  import opened TokenRules
  import opened Wrappers

  const NULL: int := -1
  const GROWTH: nat := 20

  /** The words stand at the offsets of the slots, below `limit`. */
  ghost predicate Cut(buf: array<char>, data: seq<int>, words: seq<string>, limit: nat)
    reads buf
  {
    |words| <= |data| && forall k :: 0 <= k < |words| ==> StringAt(buf[..], data[k], words[k], limit)
  }

  /** One more word may be cut; the other slots do not matter, nor does a later limit. */
  lemma CutMore(buf: array<char>, data: seq<int>, words: seq<string>, limit: nat, data': seq<int>, w: string,
                later: nat)
    requires Cut(buf, data, words, limit) && limit <= later <= buf.Length
    requires |words| < |data'| && (forall k :: 0 <= k < |words| ==> data'[k] == data[k])
    requires StringAt(buf[..], data'[|words|], w, later)
    ensures Cut(buf, data', words + [w], later)
  {
    forall k | 0 <= k < |words|
      ensures StringAt(buf[..], data'[k], words[k], later)
    {
      assert StringAt(buf[..], data[k], words[k], limit);
    }
    hide StringAt;
  }

  lemma CutKept(buf: array<char>, data: seq<int>, words: seq<string>, limit: nat, data': seq<int>, later: nat)
    requires Cut(buf, data, words, limit) && data <= data' && limit <= later <= buf.Length
    ensures Cut(buf, data', words, later)
  {
  }

  /** The buffer holds the C string `s` from `p` on. */
  ghost predicate Rest(buf: array<char>, s: string, p: nat)
    reads buf
  {
    && p <= |s| < buf.Length && buf[|s|] == NUL
    && forall k :: p <= k < |s| ==> buf[k] == s[k] && s[k] != NUL
  }

  /** The only changes since the buffer was `b` are NULs within the line. */
  ghost predicate Cleared(b: seq<char>, buf: array<char>, n: nat)
    reads buf
  {
    buf.Length == |b| && forall k :: 0 <= k < |b| ==> buf[k] == b[k] || (k < n && buf[k] == NUL)
  }

  lemma RestLater(buf: array<char>, s: string, p: nat)
    requires Rest(buf, s, p) && p < |s|
    ensures Rest(buf, s, p + 1) && buf[p] == s[p]
  {
  }

  method SkipBlanks(buf: array<char>, ghost s: string, from: nat, ghost done: seq<string>) returns (p: nat)
    requires Rest(buf, s, from) && Ahead(s, from, done)
    ensures from <= p <= |s| && Ahead(s, p, done) && (p < |s| ==> s[p] !in BLANKS)
  {
    hide Ahead;
    p := from;
    while buf[p] != NUL && (buf[p] == ' ' || buf[p] == '\t' || buf[p] == '\n')
      invariant from <= p <= |s| && Ahead(s, p, done)
      decreases |s| - p
    {
      AheadBlank(s, p, done);
      p := p + 1;
    }
  }

  /** Scan for the closing quote of the word whose opening quote is at `from`. */
  method ScanQuoted(buf: array<char>, ghost s: string, from: nat, ghost done: seq<string>)
    returns (e: nat, ghost w: string)
    requires Rest(buf, s, from) && Ahead(s, from, done) && from < |s| && s[from] in QUOTES
    ensures from < e <= |s| < buf.Length && (buf[e] == NUL <==> e == |s|)
    ensures w == s[from + 1..e]
    ensures if e < |s| then Ahead(s, e + 1, done + [w]) else Words(s) == None
  {
    hide Ahead, Words;
    var mark := buf[from];
    e := from + 1;
    while buf[e] != NUL && buf[e] != mark
      invariant from < e <= |s| && forall k :: from < k < e ==> s[k] != mark
      decreases |s| - e
    {
      e := e + 1;
    }
    w := s[from + 1..e];
    if e < |s| {
      AheadQuoted(s, from, done, e);
    } else {
      AheadUnclosed(s, from, done);
    }
  }

  /** Scan for the end of a bare word. */
  method ScanBare(buf: array<char>, ghost s: string, from: nat) returns (e: nat)
    requires Rest(buf, s, from)
    ensures from <= e <= |s| && (forall k :: from <= k < e ==> s[k] !in BLANKS) && (e < |s| ==> s[e] in BLANKS)
  {
    e := from;
    while buf[e] != NUL && buf[e] != ' ' && buf[e] != '\t' && buf[e] != '\n'
      invariant from <= e <= |s| && forall k :: from <= k < e ==> s[k] !in BLANKS
      decreases |s| - e
    {
      e := e + 1;
    }
  }

  /** A NUL at `e` makes a C string of what starts at `from`, and disturbs no word before it. */
  method Terminate(buf: array<char>, ghost s: string, from: nat, e: nat, ghost line: seq<char>,
                   ghost data: seq<int>, ghost done: seq<string>, ghost limit: nat)
    requires from <= e <= |s| && Rest(buf, s, from) && Cleared(line, buf, |s|)
    requires limit <= from && Cut(buf, data, done, limit)
    modifies buf
    ensures StringAt(buf[..], from, s[from..e], e + 1) && Cleared(line, buf, |s|)
    ensures Cut(buf, data, done, limit) && (e < |s| ==> Rest(buf, s, e + 1))
  {
    buf[e] := NUL;
    forall k | 0 <= k < |done|
      ensures StringAt(buf[..], data[k], done[k], limit)
    {
      assert old(StringAt(buf[..], data[k], done[k], limit));
    }
  }

  /** A quoted word is cut out. `inside` is false when the scan runs past the end of the line,
      which is what happens after a quote that is not closed. */
  method CutQuoted(buf: array<char>, ghost s: string, from: nat, ghost line: seq<char>,
                   ghost data: seq<int>, ghost done: seq<string>, ghost limit: nat)
    returns (inside: bool, p: nat, ghost w: string)
    requires from < |s| && s[from] in QUOTES && Rest(buf, s, from) && Cleared(line, buf, |s|)
    requires Ahead(s, from, done) && limit <= from && Cut(buf, data, done, limit)
    modifies buf
    ensures !inside ==> Words(s) == None
    ensures inside ==> from < p <= |s| && Rest(buf, s, p) && Ahead(s, p, done + [w])
    ensures inside ==> StringAt(buf[..], from + 1, w, p)
    ensures Cleared(line, buf, |s|) && Cut(buf, data, done, limit)
  {
    hide *;
    RestLater(buf, s, from);
    p, w := ScanQuoted(buf, s, from, done);
    inside := buf[p] != NUL;
    Terminate(buf, s, from + 1, p, line, data, done, limit);
    p := p + 1;
  }

  /** A bare word is cut out. */
  method CutBare(buf: array<char>, ghost s: string, from: nat, ghost line: seq<char>,
                 ghost data: seq<int>, ghost done: seq<string>, ghost limit: nat)
    returns (p: nat, ghost w: string, ghost limit': nat)
    requires from < |s| && s[from] !in BLANKS && s[from] !in QUOTES && Rest(buf, s, from) && Cleared(line, buf, |s|)
    requires Ahead(s, from, done) && limit <= from && Cut(buf, data, done, limit)
    modifies buf
    ensures from < p <= |s| && Ahead(s, p, done + [w]) && Rest(buf, s, p)
    ensures (p < |s| ==> limit' <= p) && limit' <= buf.Length && StringAt(buf[..], from, w, limit') && limit <= limit'
    ensures Cleared(line, buf, |s|) && Cut(buf, data, done, limit)
  {
    hide Ahead, Cut;
    p := ScanBare(buf, s, from);
    AheadBare(s, from, done, p);
    w, limit' := s[from..p], p + 1;
    if buf[p] == NUL {
      p := p - 1;
    } else {
      AheadBlank(s, p, done + [w]);
      Terminate(buf, s, from, p, line, data, done, limit);
    }
    p := p + 1;
  }

  /** The size of an array of `c` slots that has come to hold `n` words. */
  function Slots(c: nat, n: nat): (r: nat)
    ensures n <= r
    decreases n - c
  {
    if n <= c then c else Slots(c + GROWTH, n)
  }

  lemma NoSlots(c: nat)
    ensures Slots(c, 0) == c
  {
  }

  lemma {:induction false} SlotsStep(c: nat, n: nat)
    ensures Slots(c, n + 1) == if n < Slots(c, n) then Slots(c, n) else Slots(c, n) + GROWTH
    decreases n - c
  {
    if n > c {
      SlotsStep(c + GROWTH, n);
    }
  }

  ghost predicate Unused(data: seq<int>, from: nat) {
    forall k :: from <= k < |data| ==> data[k] == NULL
  }

  class Args {
    var count: nat
    var data: seq<int>

    constructor ()
      ensures count == 0 && data == []
    {
      count, data := 0, [];
    }

    /** A slot for one more word: the array grows when it is full. */
    method Room(num: nat)
      requires count == |data| > 0 && num <= count
      modifies this
      ensures num < count == |data| && count == if num < old(count) then old(count) else old(count) + 20
      ensures old(data) <= data && forall k :: old(count) <= k < count ==> data[k] == NULL
    {
      if num >= count {
        count := count + GROWTH;
        data := data + seq(GROWTH, _ => NULL);
      }
    }

    /** The words `done` are cut out of the line, and the scan has come to `p`. */
    ghost predicate Progress(buf: array<char>, s: string, p: nat, done: seq<string>, limit: nat)
      reads this, buf
    {
      && Rest(buf, s, p) && Ahead(s, p, done) && Cut(buf, data, done, limit)
      && |done| <= count == |data| && count > 0 && Unused(data, |done|)
      && limit <= buf.Length && (p < |s| ==> limit <= p)
    }

    lemma NothingYet(buf: array<char>, s: string)
      requires Rest(buf, s, 0) && count == |data| > 0 && Unused(data, 0)
      ensures Progress(buf, s, 0, [], 0)
    {
      AheadStart(s);
    }

    lemma AllDone(buf: array<char>, s: string, done: seq<string>, limit: nat)
      requires Progress(buf, s, |s|, done, limit)
      ensures Words(s) == Some(done)
      ensures Holds(buf, done)
    {
      AheadEnd(s, done);
      CutKept(buf, data, done, limit, data, buf.Length);
    }

    method NextStart(buf: array<char>, ghost s: string, from: nat, ghost done: seq<string>, ghost limit: nat)
      returns (p: nat)
      requires Progress(buf, s, from, done, limit)
      ensures from <= p <= |s| < buf.Length && Progress(buf, s, p, done, limit)
      ensures p < |s| ==> s[p] !in BLANKS && buf[p] != NUL
      ensures p == |s| ==> buf[p] == NUL
    {
      p := SkipBlanks(buf, s, from, done);
    }

    /** The slots hold exactly these words, which stand in the buffer as C strings. */
    ghost predicate Holds(buf: array<char>, words: seq<string>)
      reads this, buf
    {
      && Cut(buf, data, words, buf.Length)
      && count == |data| && Unused(data, |words|)
    }

    /** One round of the loop, at the start of a word; `line` is the buffer as it was in the beginning. */
    method NextWord(buf: array<char>, ghost s: string, from: nat, num: nat, ghost done: seq<string>, ghost limit: nat,
                    ghost line: seq<char>)
      returns (inside: bool, p: nat, ghost w: string, ghost limit': nat)
      requires from < |s| && s[from] !in BLANKS && num == |done| && Progress(buf, s, from, done, limit)
      requires Cleared(line, buf, |s|)
      modifies this, buf
      ensures count == if num < old(count) then old(count) else old(count) + GROWTH
      ensures !inside ==> Words(s) == None
      ensures inside ==> from < p <= |s| && Progress(buf, s, p, done + [w], limit')
      ensures Cleared(line, buf, |s|)
    {
      hide Ahead, Cut, Words, Cleared, StringAt;
      Room(num);
      CutKept(buf, old(data), done, limit, data, limit);
      ghost var slots := data;
      data := data[num := from];
      if buf[from] == '\'' || buf[from] == '\"' {
        data := data[num := data[num] + 1];
        inside, p, w := CutQuoted(buf, s, from, line, slots, done, limit);
        limit' := p;
      } else {
        inside := true;
        p, w, limit' := CutBare(buf, s, from, line, slots, done, limit);
      }
      if inside {
        CutMore(buf, slots, done, limit, data, w, limit');
      }
    }

    /** The slots are allocated on first use, and emptied. */
    method Reset()
      requires count == |data|
      modifies this
      ensures count == |data| > 0 && Unused(data, 0)
      ensures count == if old(count) == 0 then GROWTH else old(count)
    {
      if count == 0 {
        count := GROWTH;
      }
      data := seq(count, _ => NULL);
    }

    /** chopup_args, up to the end of its loop over the words. */
    method Chopup(buf: array<char>, ghost s: string) returns (inside: bool, argc: nat)
      requires Rest(buf, s, 0) && count == |data|
      modifies this, buf
      ensures inside <==> Words(s).Some?
      ensures inside ==> argc == |Words(s).value| && Holds(buf, Words(s).value)
      ensures count == Slots(if old(count) == 0 then 20 else old(count), argc)
      ensures Cleared(old(buf[..]), buf, |s|)
    {
      Reset();
      NothingYet(buf, s);
      hide *;
      inside, argc := CutWords(buf, s, buf[..]);
    }

    method CutWords(buf: array<char>, ghost s: string, ghost line: seq<char>) returns (inside: bool, argc: nat)
      requires Progress(buf, s, 0, [], 0) && Cleared(line, buf, |s|)
      modifies this, buf
      ensures inside <==> Words(s).Some?
      ensures inside ==> argc == |Words(s).value| && Holds(buf, Words(s).value)
      ensures count == Slots(old(count), argc) && Cleared(line, buf, |s|)
    {
      hide *;
      NoSlots(count);
      argc, inside := 0, true;
      var p := 0;
      ghost var done: seq<string>, limit: nat := [], 0;
      while true
        invariant p <= |s| && argc == |done| && Progress(buf, s, p, done, limit)
        invariant count == Slots(old(count), argc) && Cleared(line, buf, |s|)
        decreases |s| - p
      {
        p := NextStart(buf, s, p, done, limit);
        if buf[p] == NUL {
          break;
        }
        SlotsStep(old(count), argc);
        ghost var w;
        argc := argc + 1;
        inside, p, w, limit := NextWord(buf, s, p, argc - 1, done, limit, line);
        if !inside {
          return;
        }
        done := done + [w];
      }
      AllDone(buf, s, done, limit);
    }
  }
}
