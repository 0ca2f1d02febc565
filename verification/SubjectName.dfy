/** The subject-name syntax `/type0=value0/type1=value1+type2=value2...`, a backslash taking the
    special meaning from the character after it. */
module SubjectRules {

  import opened Wrappers

  /** One element; `multi` says that it joins the relative distinguished name before it. */
  datatype Element = Element(kind: string, value: string, multi: bool)

  /** A field is free of escapes and ends before the first bare delimiter, where `rest` starts. */
  datatype Scan = Scan(text: string, rest: string) | Dangling

  const KIND_ENDS: set<char> := {'='}

  function ValueEnds(multirdn: bool): set<char> {
    if multirdn then {'/', '+'} else {'/'}
  }

  function After(text: string, f: Scan): Scan {
    match f
    case Dangling => Dangling
    case Scan(t, rest) => Scan(text + t, rest)
  }

  ghost function Field(s: string, ends: set<char>): (f: Scan)
    ensures f.Scan? ==> |f.text| + |f.rest| <= |s| && (f.rest != "" ==> f.rest[0] in ends)
  {
    if s == "" || s[0] in ends then Scan("", s)
    else if s[0] != '\\' then After([s[0]], Field(s[1..], ends))
    else if |s| == 1 then Dangling
    else After([s[1]], Field(s[2..], ends))
  }

  /** The elements of a subject without its leading slash; `multi` is the flag of the first. */
  ghost function Elements(s: string, multirdn: bool, multi: bool): Option<seq<Element>>
    decreases |s|
  {
    if s == "" then Some([])
    else
      match Field(s, KIND_ENDS)
      case Dangling => None
      case Scan(kind, r) =>
        if |r| <= 1 then None
        else
          match Field(r[1..], ValueEnds(multirdn))
          case Dangling => None
          case Scan(value, rest) =>
            var e := Element(kind, value, multi);
            if rest == "" then Some([e]) else Before([e], Elements(rest[1..], multirdn, rest[0] == '+'))
  }

  /** The whole syntax. */
  ghost function Parsed(s: string, multirdn: bool): Option<seq<Element>> {
    if s == "" || s[0] != '/' then None else Elements(s[1..], multirdn, false)
  }

  const SPECIAL: set<char> := {'\\', '=', '/', '+'}

  /** A character as it is printed. */
  function Mark(c: char): (r: string)
    ensures r != ""
  {
    if c in SPECIAL then ['\\', c] else [c]
  }

  function Escaped(t: string): (r: string)
    ensures r == "" <==> t == ""
  {
    if t == "" then "" else Mark(t[0]) + Escaped(t[1..])
  }

  function Printed(e: Element): string {
    Escaped(e.kind) + "=" + Escaped(e.value)
  }

  /** The elements after the first slash. */
  function Joined(es: seq<Element>): string {
    if es == [] then ""
    else if |es| == 1 then Printed(es[0])
    else Printed(es[0]) + (if es[1].multi then "+" else "/") + Joined(es[1..])
  }

  function Print(es: seq<Element>): string {
    "/" + Joined(es)
  }

  lemma AfterAfter(a: string, b: string, f: Scan)
    ensures After(a, After(b, f)) == After(a + b, f)
  {
    if f.Scan? {
      assert a + (b + f.text) == a + b + f.text;
    }
  }

  /** A field undoes the escapes. */
  lemma {:induction false} FieldOfEscaped(t: string, rest: string, ends: set<char>)
    requires ends <= SPECIAL - {'\\'} && (rest == "" || rest[0] in ends)
    ensures Field(Escaped(t) + rest, ends) == Scan(t, rest)
  {
    hide Field, Mark, SPECIAL;
    if t == "" {
      FieldEnds(rest, ends);
      assert Escaped(t) + rest == rest;
    } else {
      FieldOfEscaped(t[1..], rest, ends);
      FieldStep(t[0], Escaped(t[1..]) + rest, ends);
      assert [t[0]] + t[1..] == t;
      assert Escaped(t) + rest == Mark(t[0]) + (Escaped(t[1..]) + rest);
    }
  }

  lemma FieldEnds(rest: string, ends: set<char>)
    requires rest == "" || rest[0] in ends
    ensures Field(rest, ends) == Scan("", rest)
  {
  }

  lemma FieldStep(c: char, s: string, ends: set<char>)
    requires ends <= SPECIAL - {'\\'}
    ensures Field(Mark(c) + s, ends) == After([c], Field(s, ends))
  {
    assert (Mark(c) + s)[|Mark(c)|..] == s;
  }

  /** One element in front of more. */
  lemma FirstElement(s: string, e: Element, tail: string, more: string, m: bool)
    requires s != "" && Field(s, KIND_ENDS) == Scan(e.kind, "=" + tail)
    requires Field(tail, ValueEnds(m)) == Scan(e.value, more)
    ensures Elements(s, m, e.multi) ==
            if tail == "" then None
            else if more == "" then Some([e])
            else Before([e], Elements(more[1..], m, more[0] == '+'))
  {
    hide Field;
    assert ("=" + tail)[1..] == tail;
  }

  lemma PrintedElement(e: Element, more: string, m: bool)
    requires more != "" ==> more[0] in ValueEnds(m)
    ensures Elements(Printed(e) + more, m, e.multi) ==
            if e.value == "" && more == "" then None
            else if more == "" then Some([e])
            else Before([e], Elements(more[1..], m, more[0] == '+'))
  {
    hide Field, Elements, Escaped;
    var tail := Escaped(e.value) + more;
    assert Printed(e) + more == Escaped(e.kind) + ("=" + tail);
    FieldOfEscaped(e.kind, "=" + tail, KIND_ENDS);
    FieldOfEscaped(e.value, more, ValueEnds(m));
    FirstElement(Printed(e) + more, e, tail, more, m);
  }

  ghost predicate Flagged(es: seq<Element>) {
    exists k :: 0 <= k < |es| && es[k].multi
  }

  /** Printed elements come back, unless the last value is empty. */
  lemma {:induction false} RoundTripFrom(es: seq<Element>, m: bool)
    requires es != [] && (m || !Flagged(es))
    ensures Elements(Joined(es), m, es[0].multi) == if es[|es| - 1].value == "" then None else Some(es)
  {
    hide Elements, Printed;
    if |es| == 1 {
      assert Printed(es[0]) + "" == Joined(es) && [es[0]] == es;
      PrintedElement(es[0], "", m);
    } else {
      var more := (if es[1].multi then "+" else "/") + Joined(es[1..]);
      assert Joined(es) == Printed(es[0]) + more;
      assert more[1..] == Joined(es[1..]);
      assert es[1].multi ==> Flagged(es);
      assert Flagged(es[1..]) ==> Flagged(es) by {
        assert forall k :: 0 <= k < |es[1..]| ==> es[1..][k] == es[k + 1];
      }
      PrintedElement(es[0], more, m);
      RoundTripFrom(es[1..], m);
      assert [es[0]] + es[1..] == es;
    }
  }

  /** The flags of whatever was parsed. */
  lemma {:induction false} ParsedFlags(s: string, m: bool, multi: bool)
    requires m || !multi
    ensures var r := Elements(s, m, multi);
            r.Some? ==> (m || !Flagged(r.value)) && (r.value != [] ==> r.value[0].multi == multi)
    decreases |s|
  {
    hide Field;
    if Elements(s, m, multi).Some? && s != "" {
      var kind := Field(s, KIND_ENDS);
      var value := Field(kind.rest[1..], ValueEnds(m));
      if value.rest != "" {
        assert value.rest[0] == '+' ==> m;
        ParsedFlags(value.rest[1..], m, value.rest[0] == '+');
      }
    }
  }

  /** The parser undoes the printer exactly for the lists without a flag on the first element, with
      a non-empty last value and, where multi-valued names are off, without any flag. */
  lemma RoundTrip(es: seq<Element>, m: bool)
    ensures Parsed(Print(es), m) == Some(es) <==>
            es == [] || (!es[0].multi && es[|es| - 1].value != "" && (m || !Flagged(es)))
  {
    assert Print(es)[1..] == Joined(es);
    ParsedFlags(Joined(es), m, false);
    hide Elements, Joined;
    if es != [] && (m || !Flagged(es)) {
      RoundTripFrom(es, m);
    }
  }

  /** Scanning from `from` has come to `i` and has collected `text`. */
  ghost predicate Scanned(s: string, ends: set<char>, from: nat, i: nat, text: string) {
    from <= i <= |s| && Field(s[from..], ends) == After(text, Field(s[i..], ends))
  }

  lemma ScanStart(s: string, ends: set<char>, from: nat)
    requires from <= |s|
    ensures Scanned(s, ends, from, from, "")
  {
  }

  lemma ScanStep(s: string, ends: set<char>, from: nat, i: nat, text: string)
    requires Scanned(s, ends, from, i, text) && i < |s| && s[i] !in ends
    ensures s[i] != '\\' ==> Scanned(s, ends, from, i + 1, text + [s[i]])
    ensures s[i] == '\\' && i + 1 < |s| ==> Scanned(s, ends, from, i + 2, text + [s[i + 1]])
    ensures s[i] == '\\' && i + 1 == |s| ==> Field(s[from..], ends) == Dangling
  {
    assert s[i..][1..] == s[i + 1..];
    if s[i] != '\\' {
      AfterAfter(text, [s[i]], Field(s[i + 1..], ends));
    } else if i + 1 < |s| {
      assert s[i..][2..] == s[i + 2..] && s[i..][1] == s[i + 1];
      AfterAfter(text, [s[i + 1]], Field(s[i + 2..], ends));
    }
  }

  lemma ScanEnd(s: string, ends: set<char>, from: nat, i: nat, text: string)
    requires Scanned(s, ends, from, i, text) && (i < |s| ==> s[i] in ends)
    ensures Field(s[from..], ends) == Scan(text, s[i..])
  {
  }

  /** Parsing has come to `i` with the elements `es`, and the next element has the flag `multi`. */
  ghost predicate Parsing(s: string, m: bool, i: nat, multi: bool, es: seq<Element>) {
    i <= |s| && Parsed(s, m) == Before(es, Elements(s[i..], m, multi))
  }

  lemma ParseStart(s: string, m: bool)
    requires s != "" && s[0] == '/'
    ensures Parsing(s, m, 1, false, [])
  {
    hide Elements;
    var r := Elements(s[1..], m, false);
    assert r.Some? ==> [] + r.value == r.value;
  }

  lemma ParseEnd(s: string, m: bool, multi: bool, es: seq<Element>)
    requires Parsing(s, m, |s|, multi, es)
    ensures Parsed(s, m) == Some(es)
  {
    hide Parsed;
    assert s[|s|..] == "" && es + [] == es;
  }

  lemma KindFails(s: string, m: bool, i: nat, multi: bool, es: seq<Element>)
    requires Parsing(s, m, i, multi, es) && i < |s|
    requires var f := Field(s[i..], KIND_ENDS); f.Dangling? || |f.rest| <= 1
    ensures Parsed(s, m) == None
  {
    hide Field, Parsed;
  }

  lemma ValueFails(s: string, m: bool, i: nat, multi: bool, es: seq<Element>, kind: string, j: nat)
    requires Parsing(s, m, i, multi, es) && i < j < |s| && Field(s[i..], KIND_ENDS) == Scan(kind, s[j - 1..])
    requires Field(s[j..], ValueEnds(m)) == Dangling
    ensures Parsed(s, m) == None
  {
    hide Field, Parsed;
    assert s[j - 1..][1..] == s[j..];
  }

  lemma ParseStep(s: string, m: bool, i: nat, multi: bool, es: seq<Element>, kind: string, j: nat, value: string,
                  end: nat)
    requires Parsing(s, m, i, multi, es) && i < j < |s| && j <= end <= |s|
    requires Field(s[i..], KIND_ENDS) == Scan(kind, s[j - 1..]) && Field(s[j..], ValueEnds(m)) == Scan(value, s[end..])
    ensures end < |s| ==> Parsing(s, m, end + 1, s[end] == '+', es + [Element(kind, value, multi)])
    ensures end == |s| ==> Parsing(s, m, end, false, es + [Element(kind, value, multi)])
  {
    hide Field, Parsed;
    assert s[j - 1..][1..] == s[j..];
    var e := Element(kind, value, multi);
    if end < |s| {
      assert s[end..][1..] == s[end + 1..];
      BeforeBefore(es, [e], Elements(s[end + 1..], m, s[end] == '+'));
    } else {
      assert Elements(s[end..], m, false) == Some([]) && [e] + [] == [e];
      BeforeBefore(es, [e], Some([]));
    }
  }

  /** A subject with each of the special characters. */
  lemma SubjectExample()
    ensures Parsed("/C=DE+O=a\\/b/\\+=\\=\\\\", true) ==
            Some([Element("C", "DE", false), Element("O", "a/b", true), Element("+", "=\\", false)])
  {
    var es := [Element("C", "DE", false), Element("O", "a/b", true), Element("+", "=\\", false)];
    hide Parsed, Escaped;
    EscapedExamples();
    assert Printed(es[0]) == "C=DE" && Printed(es[1]) == "O=a\\/b" && Printed(es[2]) == "\\+=\\=\\\\";
    assert es[1..] == [es[1], es[2]] && es[1..][1..] == [es[2]];
    assert Joined([es[2]]) == Printed(es[2]);
    assert Joined([es[1], es[2]]) == Printed(es[1]) + "/" + Printed(es[2]);
    assert Joined(es) == Printed(es[0]) + "+" + (Printed(es[1]) + "/" + Printed(es[2]));
    assert Print(es) == "/C=DE+O=a\\/b/\\+=\\=\\\\";
    RoundTrip(es, true);
  }

  /** What is refused: a subject without its slash, a type without a value, an empty value at the end and
      a backslash with nothing behind it. Where multi-valued names are off, a plus sign is a character. */
  lemma RefusedExamples(m: bool)
    ensures Parsed("C=D", m) == None && Parsed("/C", m) == None && Parsed("/C=", m) == None
    ensures Parsed("/C=\\", m) == None && Parsed("", m) == None
    ensures Parsed("/C=+D", false) == Some([Element("C", "+D", false)])
  {
    hide Field, Elements;
    FieldAt('C', "");
    FieldAt('C', "=");
    FieldAt('C', "=\\");
    FieldAt('C', "=+D");
    DanglingField(m);
    PlusField();
    ElementsOf("C", m, false);
    ElementsOf("C=", m, false);
    ElementsOf("C=\\", m, false);
    ElementsOf("C=+D", false, false);
    assert "/C"[1..] == "C" && "/C="[1..] == "C=" && "/C=\\"[1..] == "C=\\" && "/C=+D"[1..] == "C=+D";
    assert "=\\"[1..] == "\\" && "=+D"[1..] == "+D";
    assert "C" == ['C'] + "" && "C=" == ['C'] + "=" && "C=\\" == ['C'] + "=\\" && "C=+D" == ['C'] + "=+D";
  }

  lemma ElementsOf(s: string, multirdn: bool, multi: bool)
    requires s != ""
    ensures var f := Field(s, KIND_ENDS);
            && (f.Dangling? || |f.rest| <= 1 ==> Elements(s, multirdn, multi) == None)
            && (f.Scan? && |f.rest| > 1 ==>
                  var g := Field(f.rest[1..], ValueEnds(multirdn));
                  && (g.Dangling? ==> Elements(s, multirdn, multi) == None)
                  && (g.Scan? && g.rest == "" ==>
                        Elements(s, multirdn, multi) == Some([Element(f.text, g.text, multi)])))
  {
  }

  lemma FieldAt(c: char, r: string)
    requires c != '=' && c != '\\' && (r == "" || r[0] == '=')
    ensures Field([c] + r, KIND_ENDS) == Scan([c], r)
  {
    assert ([c] + r)[1..] == r;
    assert Field(r, KIND_ENDS) == Scan("", r);
  }

  lemma DanglingField(m: bool)
    ensures Field("\\", ValueEnds(m)) == Dangling
  {
  }

  lemma PlusField()
    ensures Field("+D", ValueEnds(false)) == Scan("+D", "")
  {
    assert "+D"[1..] == "D" && "D"[1..] == "";
    assert Field("", ValueEnds(false)) == Scan("", "");
    assert Field("D", ValueEnds(false)) == Scan("D", "");
  }

  lemma EscapedExamples()
    ensures Escaped("C") == "C" && Escaped("DE") == "DE" && Escaped("O") == "O" && Escaped("a/b") == "a\\/b"
    ensures Escaped("+") == "\\+" && Escaped("=\\") == "\\=\\\\"
  {
    EscapedTwo('D', 'E');
    EscapedTwo('=', '\\');
    EscapedTwo('/', 'b');
    EscapedStep("C");
    EscapedStep("O");
    EscapedStep("+");
    EscapedStep("a/b");
    assert "a/b"[1..] == ['/', 'b'] && Escaped("") == "";
    assert "DE" == ['D', 'E'] && "=\\" == ['=', '\\'];
  }

  lemma EscapedStep(t: string)
    requires t != ""
    ensures Escaped(t) == Mark(t[0]) + Escaped(t[1..])
  {
  }

  lemma EscapedTwo(a: char, b: char)
    ensures Escaped([a, b]) == Mark(a) + Mark(b)
  {
    EscapedStep([a, b]);
    EscapedStep([b]);
    assert [a, b][1..] == [b] && [b][1..] == "" && Escaped("") == "";
  }

  /** An entry of the X509 name; `place` is 0 for a new distinguished name, -1 to join the one before. */
  datatype Attribute = Attribute(nid: nat, value: string, place: int)

  const NID_UNDEF: nat := 0

  /** Elements of unknown type or without a value are skipped. */
  function AttributeOf(e: Element, nidOf: string -> nat): seq<Attribute> {
    if nidOf(e.kind) == NID_UNDEF || e.value == "" then []
    else [Attribute(nidOf(e.kind), e.value, if e.multi then -1 else 0)]
  }

  function Attributes(es: seq<Element>, nidOf: string -> nat): seq<Attribute> {
    if es == [] then []
    else Attributes(es[..|es| - 1], nidOf) + AttributeOf(es[|es| - 1], nidOf)
  }

  lemma AttributesStep(es: seq<Element>, i: nat, nidOf: string -> nat)
    requires i <= |es|
    ensures i == 0 ==> Attributes(es[..i], nidOf) == []
    ensures i < |es| ==> Attributes(es[..i + 1], nidOf) == Attributes(es[..i], nidOf) + AttributeOf(es[i], nidOf)
  {
    if i < |es| {
      assert es[..i + 1][..i] == es[..i];
    }
  }

  /** Nothing is skipped if every type is known and every value is there. */
  lemma {:induction false} AttributesAll(es: seq<Element>, nidOf: string -> nat)
    requires forall e :: e in es ==> nidOf(e.kind) != NID_UNDEF && e.value != ""
    ensures var r := Attributes(es, nidOf);
            && |r| == |es|
            && forall k :: 0 <= k < |es| ==>
                 r[k] == Attribute(nidOf(es[k].kind), es[k].value, if es[k].multi then -1 else 0)
  {
    AttributesExact(es, nidOf);
    AllUsable(es, nidOf);
    hide Attributes, Usable;
  }

  lemma {:induction false} AllUsable(es: seq<Element>, nidOf: string -> nat)
    requires forall e :: e in es ==> nidOf(e.kind) != NID_UNDEF && e.value != ""
    ensures Usable(es, nidOf) == es
  {
    if es != [] {
      AllUsable(es[..|es| - 1], nidOf);
      assert es == es[..|es| - 1] + [es[|es| - 1]];
    }
  }

  /** The elements of known type that have a value, in their order. */
  function Usable(es: seq<Element>, nidOf: string -> nat): seq<Element> {
    if es == [] then []
    else
      var e := es[|es| - 1];
      Usable(es[..|es| - 1], nidOf) + if nidOf(e.kind) != 0 && e.value != "" then [e] else []
  }

  /** The entries of elements, one by one. */
  predicate EntryEach(u: seq<Element>, r: seq<Attribute>, nidOf: string -> nat) {
    |r| == |u| && forall k :: 0 <= k < |u| ==>
                    r[k] == Attribute(nidOf(u[k].kind), u[k].value, if u[k].multi then -1 else 0)
  }

  lemma EntryMore(u: seq<Element>, r: seq<Attribute>, nidOf: string -> nat, e: Element)
    requires EntryEach(u, r, nidOf)
    ensures var usable := nidOf(e.kind) != 0 && e.value != "";
            EntryEach(u + if usable then [e] else [], r + AttributeOf(e, nidOf), nidOf)
  {
    if nidOf(e.kind) == 0 || e.value == "" {
      assert u + [] == u && r + [] == r;
    }
  }

  /** Exactly these elements become entries. */
  lemma {:induction false} AttributesExact(es: seq<Element>, nidOf: string -> nat)
    ensures EntryEach(Usable(es, nidOf), Attributes(es, nidOf), nidOf)
  {
    hide EntryEach, AttributeOf;
    if es == [] {
      NoEntries(nidOf);
    } else {
      var n := |es| - 1;
      AttributesExact(es[..n], nidOf);
      EntryMore(Usable(es[..n], nidOf), Attributes(es[..n], nidOf), nidOf, es[n]);
    }
  }

  lemma NoEntries(nidOf: string -> nat)
    ensures EntryEach([], [], nidOf)
  {
  }

  /** None is skipped besides, and none is doubled. */
  lemma {:induction false} UsableCount(es: seq<Element>, nidOf: string -> nat, e: Element)
    ensures multiset(Usable(es, nidOf))[e] == if nidOf(e.kind) != 0 && e.value != "" then multiset(es)[e] else 0
  {
    if es != [] {
      var n := |es| - 1;
      UsableCount(es[..n], nidOf, e);
      CountMore(es[..n], es[n], e);
      assert es == es[..n] + [es[n]];
      var last := nidOf(es[n].kind) != 0 && es[n].value != "";
      assert Usable(es, nidOf) == Usable(es[..n], nidOf) + if last then [es[n]] else [];
      CountMore(Usable(es[..n], nidOf), es[n], e);
      assert !last ==> Usable(es[..n], nidOf) + [] == Usable(es[..n], nidOf);
      hide Usable;
    }
  }

  lemma CountMore(es: seq<Element>, last: Element, e: Element)
    ensures multiset(es + [last])[e] == multiset(es)[e] + if last == e then 1 else 0
  {
  }

  /** Fields are made of characters of the string. */
  lemma {:induction false} FieldChars(s: string, ends: set<char>, c: char)
    requires c !in s
    ensures var f := Field(s, ends); f.Scan? ==> c !in f.text && c !in f.rest
    decreases |s|
  {
    if s != "" && s[0] !in ends {
      assert s[0] in s && forall d :: d in s[1..] ==> d in s;
      if s[0] != '\\' {
        FieldChars(s[1..], ends, c);
      } else if |s| > 1 {
        assert s[1] in s && forall d :: d in s[2..] ==> d in s;
        FieldChars(s[2..], ends, c);
      }
    }
  }

  lemma {:induction false} ElementsChars(s: string, m: bool, multi: bool, c: char)
    requires c !in s
    ensures var r := Elements(s, m, multi);
            r.Some? ==> forall e :: e in r.value ==> c !in e.kind && c !in e.value
    decreases |s|
  {
    if Elements(s, m, multi).Some? && s != "" {
      FieldChars(s, KIND_ENDS, c);
      var kind := Field(s, KIND_ENDS);
      FieldChars(kind.rest[1..], ValueEnds(m), c);
      var value := Field(kind.rest[1..], ValueEnds(m));
      if value.rest != "" {
        ElementsChars(value.rest[1..], m, value.rest[0] == '+', c);
      }
      hide Field;
    }
  }

  /** The printer adds nothing but the special characters. */
  lemma {:induction false} EscapedChars(t: string, c: char)
    requires c !in t && c !in SPECIAL
    ensures c !in Escaped(t)
  {
    if t != "" {
      assert t[0] in t && forall d :: d in t[1..] ==> d in t;
      EscapedChars(t[1..], c);
    }
  }

  lemma {:induction false} PrintChars(es: seq<Element>, c: char)
    requires c !in SPECIAL && forall e :: e in es ==> c !in e.kind && c !in e.value
    ensures c !in Print(es)
  {
    if es != [] {
      EscapedChars(es[0].kind, c);
      EscapedChars(es[0].value, c);
      PrintChars(es[1..], c);
      assert forall d :: d in Joined(es[1..]) ==> d in Print(es[1..]);
      hide Escaped;
    }
  }
}

/** The loops of parse_name over their exactly sized buffers. */
module SubjectName {
  import opened CStrings
  import opened SubjectRules
  import opened Wrappers

  /** A copied piece, not yet terminated. */
  ghost predicate Copied(buf: array<char>, off: nat, t: string, bp: nat)
    reads buf
  {
    && off + |t| == bp <= buf.Length
    && (forall k :: 0 <= k < |t| ==> buf[off + k] == t[k])
  }

  /** The loop that collects a type; `sp` and `bp` are the cursors of the source and of the copy.
      It also ends without complaint at the end of the string. */
  method CopyKind(s: string, from: nat, buf: array<char>, off: nat)
    returns (ok: bool, sp: nat, bp: nat, ghost text: string)
    requires off < from <= |s| < buf.Length
    modifies buf
    ensures forall k :: 0 <= k < off ==> buf[k] == old(buf[k])
    ensures !ok ==> Field(s[from..], KIND_ENDS) == Dangling
    ensures ok ==> bp < sp <= |s|
    ensures ok && sp < |s| ==>
              Field(s[from..], KIND_ENDS) == Scan(text, s[sp - 1..]) && StringAt(buf[..], off, text, bp)
    ensures ok && sp == |s| ==> var f := Field(s[from..], KIND_ENDS); f.Scan? && |f.rest| <= 1
  {
    hide Scanned, Field;
    sp, bp, text := from, off, "";
    ScanStart(s, KIND_ENDS, from);
    while sp < |s|
      invariant bp < sp <= |s| && Copied(buf, off, text, bp)
      invariant forall k :: 0 <= k < off ==> buf[k] == old(buf[k])
      invariant Scanned(s, KIND_ENDS, from, sp, text)
    {
      if s[sp] == '=' {
        ScanEnd(s, KIND_ENDS, from, sp, text);
        buf[bp] := NUL;
        sp, bp := sp + 1, bp + 1;
        return true, sp, bp, text;
      }
      ScanStep(s, KIND_ENDS, from, sp, text);
      if s[sp] == '\\' {
        sp := sp + 1;
        if sp == |s| {
          return false, sp, bp, text;
        }
      }
      text := text + [s[sp]];
      buf[bp] := s[sp];
      sp, bp := sp + 1, bp + 1;
    }
    ScanEnd(s, KIND_ENDS, from, sp, text);
    ok := true;
  }

  /** The loop that collects a value, with the NUL written after it. It may set the flag of the
      next element in `mval`. */
  method CopyValue(s: string, from: nat, buf: array<char>, off: nat, multirdn: bool, mval: array<int>, next: nat)
    returns (ok: bool, sp: nat, bp: nat, ghost text: string, ghost end: nat)
    requires off < from < |s| < buf.Length && 2 * next <= from && |s| / 2 < mval.Length
    modifies buf, mval
    ensures forall k :: 0 <= k < off ==> buf[k] == old(buf[k])
    ensures forall k :: 0 <= k < mval.Length && k != next ==> mval[k] == old(mval[k])
    ensures !ok ==> Field(s[from..], ValueEnds(multirdn)) == Dangling
    ensures ok ==> bp <= sp <= |s| && end <= |s| && StringAt(buf[..], off, text, bp)
    ensures ok ==> Field(s[from..], ValueEnds(multirdn)) == Scan(text, s[end..])
    ensures ok && end < |s| ==> sp == end + 1 && bp < sp && mval[next] == if s[end] == '+' then -1 else 0
    ensures ok && end == |s| ==> sp == end
  {
    hide Scanned, Field;
    sp, bp, text, end := from, off, "", |s|;
    ScanStart(s, ValueEnds(multirdn), from);
    while sp < |s|
      invariant bp < sp <= |s| && Copied(buf, off, text, bp) && from <= sp
      invariant forall k :: 0 <= k < off ==> buf[k] == old(buf[k])
      invariant Scanned(s, ValueEnds(multirdn), from, sp, text) && end == |s|
      invariant forall k :: 0 <= k < mval.Length ==> mval[k] == old(mval[k])
    {
      if s[sp] == '/' {
        end, sp := sp, sp + 1;
        mval[next] := 0;
        break;
      } else if s[sp] == '+' && multirdn {
        end, sp := sp, sp + 1;
        mval[next] := -1;
        break;
      }
      ScanStep(s, ValueEnds(multirdn), from, sp, text);
      if s[sp] == '\\' {
        sp := sp + 1;
        if sp == |s| {
          return false, sp, bp, text, end;
        }
      }
      text := text + [s[sp]];
      buf[bp] := s[sp];
      sp, bp := sp + 1, bp + 1;
    }
    ScanEnd(s, ValueEnds(multirdn), from, end, text);
    buf[bp] := NUL;
    bp := bp + 1;
    ok := true;
  }

  /** The arrays of parse_name hold the elements `es`, their strings below `limit`. */
  ghost predicate Stored(b: seq<char>, kinds: seq<nat>, values: seq<nat>, mval: seq<int>, es: seq<Element>,
                         limit: nat) {
    && |es| <= |kinds| && |es| <= |values| && |es| <= |mval|
    && forall k :: 0 <= k < |es| ==>
         && StringAt(b, kinds[k], es[k].kind, limit)
         && StringAt(b, values[k], es[k].value, limit)
         && mval[k] == if es[k].multi then -1 else 0
  }

  /** Elements below `limit` survive writes beyond them, and one more may be stored. */
  lemma StoredMore(b: seq<char>, kinds: seq<nat>, values: seq<nat>, mval: seq<int>, es: seq<Element>, limit: nat,
                   b': seq<char>, kinds': seq<nat>, values': seq<nat>, mval': seq<int>, e: Element, later: nat)
    requires Stored(b, kinds, values, mval, es, limit) && limit <= |b| <= |b'|
    requires limit <= later <= |b'| && b'[..limit] == b[..limit]
    requires |es| < |kinds'| && |es| < |values'| && |es| < |mval'|
    requires kinds'[..|es|] == kinds[..|es|] && values'[..|es|] == values[..|es|] && mval'[..|es|] == mval[..|es|]
    requires StringAt(b', kinds'[|es|], e.kind, later) && StringAt(b', values'[|es|], e.value, later)
    requires mval'[|es|] == if e.multi then -1 else 0
    ensures Stored(b', kinds', values', mval', es + [e], later)
  {
    forall k | 0 <= k < |es|
      ensures StringAt(b', kinds'[k], es[k].kind, later) && StringAt(b', values'[k], es[k].value, later)
      ensures mval'[k] == if es[k].multi then -1 else 0
    {
      assert kinds'[k] == kinds'[..|es|][k] && values'[k] == values'[..|es|][k] && mval'[k] == mval'[..|es|][k];
      StringKept(b, b', kinds[k], es[k].kind, limit, later);
      StringKept(b, b', values[k], es[k].value, limit, later);
    }
    hide StringAt;
  }

  lemma StringKept(b: seq<char>, b': seq<char>, off: nat, t: string, limit: nat, later: nat)
    requires StringAt(b, off, t, limit) && limit <= later <= |b'| && b'[..limit] == b[..limit]
    ensures StringAt(b', off, t, later)
  {
    assert forall k :: 0 <= k < limit ==> b'[..limit][k] == b'[k] && b[..limit][k] == b[k];
  }

  /** One round of the loop over the elements. */
  method CopyElement(s: string, from: nat, off: nat, multirdn: bool, ne_num: nat, ghost multi: bool,
                     ghost es: seq<Element>,
                     buf: array<char>, kinds: array<nat>, values: array<nat>, mval: array<int>)
    returns (ok: bool, sp: nat, bp: nat, ghost e: Element, ghost next: bool)
    requires off < from < |s| && 2 * ne_num < from && ne_num == |es|
    requires buf.Length == |s| + 1 && kinds.Length == values.Length == mval.Length == buf.Length / 2 + 1
    requires kinds != values
    requires Parsing(s, multirdn, from, multi, es) && Stored(buf[..], kinds[..], values[..], mval[..], es, off)
    requires mval[ne_num] == if multi then -1 else 0
    modifies buf, kinds, values, mval
    ensures !ok ==> Parsed(s, multirdn) == None
    ensures ok ==> bp <= sp <= |s| && 2 * (ne_num + 1) <= sp && from < sp
    ensures ok && sp < |s| ==> bp < sp && 2 * (ne_num + 1) < sp && mval[ne_num + 1] == if next then -1 else 0
    ensures ok ==>
              Parsing(s, multirdn, sp, next, es + [e]) && Stored(buf[..], kinds[..], values[..], mval[..], es + [e], bp)
  {
    hide Parsing, Stored, Field, Parsed;
    ghost var kind, value, end;
    next, e := false, Element("", "", false);
    kinds[ne_num] := off;
    ok, sp, bp, kind := CopyKind(s, from, buf, off);
    if !ok || sp == |s| {
      KindFails(s, multirdn, from, multi, es);
      return false, sp, bp, e, next;
    }
    values[ne_num] := bp;
    ghost var j := sp;
    ok, sp, bp, value, end := CopyValue(s, sp, buf, bp, multirdn, mval, ne_num + 1);
    if !ok {
      ValueFails(s, multirdn, from, multi, es, kind, j);
      return false, sp, bp, e, next;
    }
    e, next := Element(kind, value, multi), end < |s| && s[end] == '+';
    ParseStep(s, multirdn, from, multi, es, kind, j, value, end);
    StoredMore(old(buf[..]), old(kinds[..]), old(values[..]), old(mval[..]), es, off,
               buf[..], kinds[..], values[..], mval[..], e, bp);
  }

  /** parse_name up to the end of the string. */
  method Collect(s: string, multirdn: bool, buf: array<char>, kinds: array<nat>, values: array<nat>, mval: array<int>)
    returns (ok: bool, ne_num: nat, ghost es: seq<Element>, ghost limit: nat)
    requires buf.Length == |s| + 1 && kinds.Length == values.Length == mval.Length == buf.Length / 2 + 1
    requires kinds != values
    modifies buf, kinds, values, mval
    ensures ok <==> Parsed(s, multirdn).Some?
    ensures ok ==> Parsed(s, multirdn) == Some(es) && ne_num == |es|
    ensures ok ==> Stored(buf[..], kinds[..], values[..], mval[..], es, limit)
  {
    if |s| == 0 || s[0] != '/' {
      return false, 0, [], 0;
    }
    var sp: nat, bp: nat := 1, 0;
    ne_num, es, limit := 0, [], 0;
    mval[ne_num] := 0;
    ghost var multi := false;
    ParseStart(s, multirdn);
    assert Stored(buf[..], kinds[..], values[..], mval[..], es, bp);
    hide Parsed, Parsing, Stored;
    while sp < |s|
      invariant bp <= sp <= |s| && ne_num == |es| && 2 * ne_num <= sp
      invariant sp < |s| ==> bp < sp && 2 * ne_num < sp && mval[ne_num] == if multi then -1 else 0
      invariant Parsing(s, multirdn, sp, multi, es)
      invariant Stored(buf[..], kinds[..], values[..], mval[..], es, bp)
      decreases |s| - sp
    {
      ghost var e;
      ok, sp, bp, e, multi := CopyElement(s, sp, bp, multirdn, ne_num, multi, es, buf, kinds, values, mval);
      if !ok {
        return;
      }
      es, ne_num := es + [e], ne_num + 1;
    }
    ParseEnd(s, multirdn, multi, es);
    ok, limit := true, bp;
  }

  /** parse_name: the attributes of the name, in order. */
  method ParseName(subject: string, nidOf: string -> nat, multirdn: bool) returns (n: Option<seq<Attribute>>)
    requires NUL !in subject
    ensures n == match Parsed(subject, multirdn)
                 case None => None
                 case Some(es) => Some(Attributes(es, nidOf))
  {
    var buflen := |subject| + 1;
    var buf := new char[buflen];
    var max_ne := buflen / 2 + 1;
    var kinds, values, mval := new nat[max_ne], new nat[max_ne], new int[max_ne];
    var ok, ne_num, es, limit := Collect(subject, multirdn, buf, kinds, values, mval);
    if !ok {
      return None;
    }
    NoNul(subject, multirdn);
    hide Parsed, Stored;
    var entries := AddEntries(buf, kinds, values, mval, ne_num, es, limit, nidOf);
    n := Some(entries);
  }

  /** The loop that adds the entries to the name. */
  method AddEntries(buf: array<char>, kinds: array<nat>, values: array<nat>, mval: array<int>, ne_num: nat,
                    ghost es: seq<Element>, ghost limit: nat, nidOf: string -> nat)
    returns (entries: seq<Attribute>)
    requires Stored(buf[..], kinds[..], values[..], mval[..], es, limit) && ne_num == |es|
    requires forall k :: 0 <= k < |es| ==> NUL !in es[k].kind && NUL !in es[k].value
    ensures entries == Attributes(es, nidOf)
  {
    hide Attributes, AttributeOf, Stored;
    entries := [];
    AttributesStep(es, 0, nidOf);
    for i := 0 to ne_num
      invariant entries == Attributes(es[..i], nidOf)
    {
      AttributesStep(es, i, nidOf);
      var more := ReadElement(buf, kinds, values, mval, i, es, limit, nidOf);
      entries := entries + more;
    }
    assert es[..|es|] == es;
  }

  /** The name entry of one element, none if it is skipped. */
  method ReadElement(buf: array<char>, kinds: array<nat>, values: array<nat>, mval: array<int>, i: nat,
                     ghost es: seq<Element>, ghost limit: nat, nidOf: string -> nat)
    returns (more: seq<Attribute>)
    requires Stored(buf[..], kinds[..], values[..], mval[..], es, limit) && i < |es|
    requires NUL !in es[i].kind && NUL !in es[i].value
    ensures more == AttributeOf(es[i], nidOf)
  {
    hide StringAt;
    assert i < kinds.Length && i < values.Length && i < mval.Length;
    var kind := ReadString(buf, kinds[i], es[i].kind, limit);
    if nidOf(kind) == NID_UNDEF {
      return [];
    }
    var value := ReadString(buf, values[i], es[i].value, limit);
    if value == "" {
      return [];
    }
    more := [Attribute(nidOf(kind), value, mval[i])];
  }

  lemma NoNul(s: string, m: bool)
    requires NUL !in s && Parsed(s, m).Some?
    ensures forall k :: 0 <= k < |Parsed(s, m).value| ==>
              NUL !in Parsed(s, m).value[k].kind && NUL !in Parsed(s, m).value[k].value
  {
    ElementsChars(s[1..], m, false, NUL);
  }

  /** What was printed comes out of parse_name as it went in, for known types and non-empty values. */
  method Reparse(es: seq<Element>, nidOf: string -> nat, m: bool) returns (n: Option<seq<Attribute>>)
    requires forall e :: e in es ==> NUL !in e.kind && NUL !in e.value && nidOf(e.kind) != NID_UNDEF && e.value != ""
    requires es != [] ==> !es[0].multi
    requires m || !Flagged(es)
    ensures n.Some? && |n.value| == |es|
    ensures forall k :: 0 <= k < |es| ==>
              n.value[k] == Attribute(nidOf(es[k].kind), es[k].value, if es[k].multi then -1 else 0)
  {
    PrintChars(es, NUL);
    RoundTrip(es, m);
    AttributesAll(es, nidOf);
    hide Parsed, Print, Attributes;
    n := ParseName(Print(es), nidOf, m);
  }
}
