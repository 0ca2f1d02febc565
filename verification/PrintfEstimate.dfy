/** The size that mod_sc_vprintf reserves for a format, and what the format prints. */
module PrintfRules {
  import opened NumberRules
  import opened Wrappers

  /** An argument: a whole number (or anything else without a case of its own), a string, or a floating
      number, which is given by the text that the conversion makes of it without a width. */
  datatype Arg = Value(v: int) | Text(s: string) | Real(text: string)

  const LONG_ROOM: nat := 21
  const POINTER_ROOM: nat := 20
  const SPARE: nat := 64

  function TextLength(args: seq<Arg>): nat {
    if args != [] && args[0].Text? then |args[0].s| else 0
  }

  function Tail(args: seq<Arg>): seq<Arg> {
    if args == [] then [] else args[1..]
  }

  function SkipToLetter(s: string): (t: string)
    ensures |t| <= |s| && (t != "" ==> 'a' <= t[0] <= 'z')
  {
    if s == "" || 'a' <= s[0] <= 'z' then s else SkipToLetter(s[1..])
  }

  /** What a conversion adds; None if it has no argument. */
  function Room(c: char, big: bool, args: seq<Arg>): Option<nat> {
    if c in {'c', 'C'} then Some(4)
    else if c in {'d', 'i', 'u', 'o', 'x', 'X'} then Some(LONG_ROOM)
    else if c in {'a', 'A', 'e', 'E', 'f', 'g', 'G'} then Some(if big then 128 else 64)
    else if c in {'s', 'S'} then Some(TextLength(args))
    else if c == 'p' then Some(POINTER_ROOM)
    else None
  }

  function Plus(n: nat, r: Option<nat>): Option<nat> {
    match r
    case None => None
    case Some(m) => Some(n + m)
  }

  /** What the scan adds for the rest of a format; None if it runs past the end, as it does after
      an `l` at the end of the format. */
  function Need(s: string, args: seq<Arg>): Option<nat>
    decreases |s|, 0
  {
    if s == "" then Some(0)
    else if s[0] != '%' then Need(s[1..], args)
    else if |s| > 1 && s[1] == '%' then Need(s[2..], args)
    else
      var t := SkipToLetter(s[1..]);
      if t == "" then Some(0) else Conversion(t, false, args)
  }

  /** From a conversion character on. */
  function Conversion(t: string, big: bool, args: seq<Arg>): Option<nat>
    decreases |t|, 1
  {
    if t == "" then None
    else if t[0] == 'l' then Conversion(t[1..], true, args)
    else
      match Room(t[0], big, args)
      case None => Need(t[1..], args)
      case Some(n) => Plus(n, Need(t[1..], Tail(args)))
  }

  /** The pieces of a format: plain text, a percent sign, a conversion with a minimum width (none if
      it is zero), and `%hd` and `%X`, of which the scan takes no account. */
  datatype Piece =
    | Plain(c: char)
    | Percent
    | Directive(width: nat, big: bool, conv: char, arg: Arg)
    | Short(v: int)
    | Capital(v: int)

  const TWO_TO_64: int := 0x1_0000_0000_0000_0000

  /** The longest texts of floating conversions other than %f, which has no bound below its range. */
  predicate RealOk(conv: char, big: bool, t: string) {
    || conv == 'f'
    || (conv == 'e' && |t| <= if big then 15 else 14)
    || (conv == 'g' && |t| <= if big then 14 else 13)
    || (conv == 'a' && |t| <= if big then 27 else 24)
  }

  /** The conversions, with arguments in their range. */
  predicate PieceOk(p: Piece) {
    match p
    case Plain(c) => c != '%'
    case Percent => true
    case Short(v) => -0x8000 <= v < 0x8000
    case Capital(v) => 0 <= v < 0x1_0000_0000
    case Directive(_, big, conv, Real(t)) => RealOk(conv, big, t)
    case Directive(_, big, conv, Value(v)) =>
      || (conv == 'c' && !big && 0 <= v < 0x100)
      || (conv in {'d', 'i'} && LONG_MIN <= v <= LONG_MAX)
      || (conv in {'u', 'o', 'x'} && 0 <= v < TWO_TO_64)
      || (conv == 'p' && !big && 0 <= v < TWO_TO_64)
    case Directive(_, big, conv, Text(_)) => conv == 's' && !big
  }

  function Long(big: bool): string {
    if big then "l" else ""
  }

  function WidthText(width: nat): string {
    if width == 0 then "" else Digits(width, 10)
  }

  function Format(p: Piece): (s: string)
    ensures |s| > 0
  {
    match p
    case Plain(c) => [c]
    case Percent => "%%"
    case Directive(width, big, conv, _) => "%" + WidthText(width) + Long(big) + [conv]
    case Short(_) => "%hd"
    case Capital(_) => "%X"
  }

  function ArgsOf(p: Piece): seq<Arg> {
    match p
    case Plain(_) => []
    case Percent => []
    case Directive(_, _, _, a) => [a]
    case Short(v) => [Value(v)]
    case Capital(v) => [Value(v)]
  }

  /** What a conversion prints without a width, up to the case of hexadecimal digits. */
  function Bare(conv: char, a: Arg): string {
    match a
    case Text(s) => s
    case Real(t) => t
    case Value(v) =>
      if conv in {'d', 'i'} then Decimal(v)
      else if v < 0 then ""
      else if conv == 'c' then if v < 0x100 then [v as char] else ""
      else if conv == 'u' then Digits(v, 10)
      else if conv == 'o' then Digits(v, 8)
      else if conv == 'x' then Digits(v, 16)
      else "0x" + Digits(v, 16)
  }

  /** Text with blanks in front, if it is shorter than the width. */
  function Padded(width: nat, t: string): (s: string)
    ensures |s| == if |t| < width then width else |t|
  {
    if |t| < width then seq(width - |t|, _ => ' ') + t else t
  }

  function Output(p: Piece): string {
    match p
    case Plain(c) => [c]
    case Percent => "%"
    case Directive(width, _, conv, a) => Padded(width, Bare(conv, a))
    case Short(v) => Decimal(v)
    case Capital(v) => if v < 0 then "" else Digits(v, 16)
  }

  function Formats(ps: seq<Piece>): string {
    if ps == [] then "" else Format(ps[0]) + Formats(ps[1..])
  }

  function Args(ps: seq<Piece>): seq<Arg> {
    if ps == [] then [] else ArgsOf(ps[0]) + Args(ps[1..])
  }

  function Outputs(ps: seq<Piece>): string {
    if ps == [] then "" else Output(ps[0]) + Outputs(ps[1..])
  }

  /** What the scan adds for one piece. */
  function RoomOf(p: Piece): nat {
    match p
    case Plain(_) => 0
    case Percent => 0
    case Short(_) => 0
    case Capital(_) => 0
    case Directive(_, big, conv, a) => match Room(conv, big, [a]) case None => 0 case Some(n) => n
  }

  /** The reserved size exceeds what is printed. */
  predicate Suffices(ps: seq<Piece>) {
    var need := Need(Formats(ps), Args(ps));
    need.Some? && |Outputs(ps)| < |Formats(ps)| + SPARE + need.value
  }

  /** A piece prints no more than its own text in the format and its room together. */
  predicate Fitting(p: Piece) {
    |Output(p)| <= |Format(p)| + RoomOf(p)
  }

  /** What may stand between a percent sign and a conversion: no small letter. */
  predicate Letterless(f: string) {
    forall c :: c in f ==> !('a' <= c <= 'z')
  }

  predicate Flags(f: string) {
    Letterless(f) && (f != "" ==> f[0] != '%')
  }

  /** Flags and widths are skipped on the way to the conversion. */
  lemma {:induction false} SkipFlags(w: string, t: string)
    requires Letterless(w) && t != "" && 'a' <= t[0] <= 'z'
    ensures SkipToLetter(w + t) == t
  {
    if w == "" {
      assert w + t == t;
    } else {
      assert w[0] in w && (w + t)[1..] == w[1..] + t;
      assert forall c :: c in w[1..] ==> c in w;
      SkipFlags(w[1..], t);
    }
  }

  lemma ConversionStep(conv: char, big: bool, a: Arg, s: string, args: seq<Arg>)
    requires 'a' <= conv <= 'z' && conv != 'l' && Room(conv, big, [a]).Some?
    ensures var t := Long(big) + [conv] + s;
            Conversion(t, false, [a] + args) == Plus(Room(conv, big, [a]).value, Need(s, args))
  {
    var t := [conv] + s;
    assert Tail([a] + args) == args && t[1..] == s;
    assert Room(conv, big, [a] + args) == Room(conv, big, [a]);
    assert Conversion(t, big, [a] + args) == Plus(Room(conv, big, [a]).value, Need(s, args));
    if big {
      var u := "l" + t;
      assert Long(big) + [conv] + s == u && u[1..] == t;
      assert Conversion(u, false, [a] + args) == Conversion(t, true, [a] + args);
    } else {
      assert Long(big) + [conv] + s == t;
    }
  }

  lemma NeedDirective(w: string, t: string, args: seq<Arg>)
    requires Flags(w) && t != "" && 'a' <= t[0] <= 'z'
    ensures Need("%" + (w + t), args) == Conversion(t, false, args)
  {
    var s := "%" + (w + t);
    SkipFlags(w, t);
    assert s[1..] == w + t;
    assert s[1] == if w == "" then t[0] else w[0];
    hide Conversion, SkipToLetter;
  }

  lemma NeedPlain(c: char, s: string, args: seq<Arg>)
    ensures c != '%' ==> Need([c] + s, args) == Need(s, args)
    ensures Need("%%" + s, args) == Need(s, args)
  {
    assert ([c] + s)[1..] == s && ("%%" + s)[2..] == s;
  }

  lemma NeedCounted(width: nat, big: bool, conv: char, a: Arg, s: string, args: seq<Arg>)
    requires 'a' <= conv <= 'z' && conv != 'l' && Room(conv, big, [a]).Some?
    ensures var f := "%" + WidthText(width) + Long(big) + [conv];
            Need(f + s, [a] + args) == Plus(Room(conv, big, [a]).value, Need(s, args))
  {
    hide Need, Conversion, Room;
    var w, t := WidthText(width), Long(big) + [conv] + s;
    assert Flags(w) by {
      assert w != "" ==> w[0] in w;
    }
    NeedDirective(w, t, [a] + args);
    ConversionStep(conv, big, a, s, args);
    assert "%" + w + Long(big) + [conv] + s == "%" + (w + t);
  }

  lemma NeedPiece(p: Piece, s: string, args: seq<Arg>)
    requires PieceOk(p) && !p.Short? && !p.Capital?
    ensures Need(Format(p) + s, ArgsOf(p) + args) == Plus(RoomOf(p), Need(s, args))
  {
    hide Need, Conversion, WidthText;
    assert [] + args == args;
    match p
    case Plain(c) => NeedPlain(c, s, args);
    case Percent => NeedPlain('%', s, args);
    case Directive(width, big, conv, a) =>
      assert 'a' <= conv <= 'z' && conv != 'l' && Room(conv, big, [a]).Some?;
      NeedCounted(width, big, conv, a, s, args);
  }

  /** The scan stops at the `h`, finds nothing to add and takes the `d` for plain text. */
  lemma NeedShort(s: string, args: seq<Arg>)
    ensures Need("%hd" + s, args) == Need(s, args)
  {
    var t := "hd" + s;
    assert "%hd" + s == "%" + ("" + t) && t[1..] == ['d'] + s;
    NeedDirective("", t, args);
    assert Conversion(t, false, args) == Need(t[1..], args);
    NeedPlain('d', s, args);
    hide Need, Conversion;
  }

  /** Capital letters are skipped on the way to a conversion, so that only one of `%X` is left: its text. */
  lemma {:induction false} NeedCapitals(k: nat, args: seq<Arg>)
    ensures Need(Formats(Copies(Capital(0), k)), args) == Some(0)
  {
    var s := Formats(Copies(Capital(0), k));
    if k > 0 {
      CapitalsSkipped(k);
      CapitalsStart(k);
      assert Need(s, args) == Some(0);
    }
  }

  lemma CapitalsStart(k: nat)
    requires k > 0
    ensures var s := Formats(Copies(Capital(0), k)); |s| >= 2 && s[0] == '%' && s[1] == 'X'
  {
    assert Copies(Capital(0), k)[0] == Capital(0);
  }

  lemma {:induction false} CapitalsSkipped(k: nat)
    ensures SkipToLetter(Formats(Copies(Capital(0), k))) == ""
    ensures k > 0 ==> SkipToLetter(Formats(Copies(Capital(0), k))[1..]) == ""
  {
    if k > 0 {
      CapitalsSkipped(k - 1);
      var ps, rest := Copies(Capital(0), k), Copies(Capital(0), k - 1);
      assert ps[1..] == rest && ps[0] == Capital(0);
      var s := Formats(ps);
      assert s == "%X" + Formats(rest) && s[1..][1..] == Formats(rest);
    }
  }

  /** All capitals have one format. */
  lemma {:induction false} SameCapitals(v: int, k: nat)
    ensures Formats(Copies(Capital(v), k)) == Formats(Copies(Capital(0), k))
  {
    if k > 0 {
      SameCapitals(v, k - 1);
      assert Copies(Capital(v), k)[1..] == Copies(Capital(v), k - 1);
      assert Copies(Capital(0), k)[1..] == Copies(Capital(0), k - 1);
    }
  }

  /** Without a width every conversion but %f keeps to its text and its room. */
  lemma BareFits(p: Piece)
    requires PieceOk(p) && p.Directive?
    ensures p.conv != 'f' ==> |Bare(p.conv, p.arg)| <= 2 + RoomOf(p)
  {
    PowTwo64();
    PowTen();
    hide Digits, Pow;
    if p.arg.Value? {
      var v := p.arg.v;
      DigitsBound(if v < 0 then -v else v, 10, 20);
      DigitsBound(if v < 0 then -v else v, 8, 22);
      DigitsBound(if v < 0 then -v else v, 16, 16);
    }
  }

  lemma PowTwo64()
    ensures Pow(8, 22) >= TWO_TO_64 && Pow(10, 20) >= TWO_TO_64 && Pow(16, 16) == TWO_TO_64
  {
    PowTen();
    PowSixteen();
    assert Pow(8, 6) == 0x4_0000 && Pow(8, 11) == 0x2_0000_0000 && Pow(8, 16) == 0x1_0000_0000_0000;
    assert Pow(8, 22) == 0x4_0000_0000_0000_0000;
  }

  /** What a conversion may print: its width is within its text and its room, for %f the number is, and
      `%hd` and `%X` print no more than three and two characters. */
  predicate Within(p: Piece) {
    match p
    case Plain(_) => true
    case Percent => true
    case Short(v) => -100 < v < 1000
    case Capital(v) => v < 0x100
    case Directive(width, big, conv, arg) =>
      var room := if arg.Text? then |arg.s| else if arg.Real? then (if big then 128 else 64)
                  else if conv == 'c' then 4 else if conv == 'p' then 20 else 21;
      width <= |Format(p)| + room && (arg.Real? && conv == 'f' ==> |arg.text| <= |Format(p)| + room)
  }

  /** The rule for one piece. */
  lemma PieceFits(p: Piece)
    requires PieceOk(p)
    ensures Fitting(p) <==> Within(p)
  {
    match p
    case Plain(_) =>
    case Percent =>
    case Short(v) => ThreeCharacters(v);
    case Capital(v) => TwoDigits(v);
    case Directive(_, _, _, _) =>
      BareFits(p);
      RoomIs(p);
      hide RoomOf, WidthText;
  }

  lemma RoomIs(p: Piece)
    requires PieceOk(p) && p.Directive?
    ensures RoomOf(p) == if p.arg.Text? then |p.arg.s| else if p.arg.Real? then (if p.big then 128 else 64)
                         else if p.conv == 'c' then 4 else if p.conv == 'p' then 20 else 21
  {
  }

  lemma TwoDigits(v: nat)
    ensures |Digits(v, 16)| <= 2 <==> v < 0x100
  {
    assert Pow(16, 2) == 0x100;
    if v < 0x100 {
      DigitsBound(v, 16, 2);
    } else {
      DigitsLonger(v, 16, 2);
    }
    hide Digits, Pow;
  }

  lemma ThreeCharacters(v: int)
    ensures |Decimal(v)| <= 3 <==> -100 < v < 1000
  {
    var n := if v < 0 then -v else v;
    assert Pow(10, 2) == 100 && Pow(10, 3) == 1000;
    if n < 100 {
      DigitsBound(n, 10, 2);
    } else if n < 1000 {
      DigitsBound(n, 10, 3);
      DigitsLonger(n, 10, 2);
    } else {
      DigitsLonger(n, 10, 3);
    }
    hide Digits, Pow;
  }

  /** For formats of fitting pieces the scan stays inside, and the reserved size exceeds what is printed. */
  lemma {:induction false} EstimateSuffices(ps: seq<Piece>)
    requires forall p :: p in ps ==> PieceOk(p) && !p.Short? && !p.Capital? && Fitting(p)
    ensures Suffices(ps)
  {
    if ps != [] {
      EstimateSuffices(ps[1..]);
      NeedPiece(ps[0], Formats(ps[1..]), Args(ps[1..]));
      assert Fitting(ps[0]);
      hide Need, Format, ArgsOf, Output, RoomOf, PieceOk;
    }
  }

  function Copies(p: Piece, k: nat): (ps: seq<Piece>)
    ensures forall q :: q in ps ==> q == p
  {
    if k == 0 then [] else [p] + Copies(p, k - 1)
  }

  /** Everything about a repeated piece grows with the number of its copies. */
  lemma {:induction false} CopiesGrow(p: Piece, k: nat, args: seq<Arg>)
    requires PieceOk(p)
    ensures var ps := Copies(p, k);
            && |Formats(ps)| == k * |Format(p)| && |Outputs(ps)| == k * |Output(p)|
            && Need(Formats(ps), if p.Short? || p.Capital? then args else Args(ps)) == Some(k * RoomOf(p))
  {
    if k > 0 {
      var ps, rest := Copies(p, k), Copies(p, k - 1);
      CopiesGrow(p, k - 1, args);
      assert ps == [p] + rest && ps[1..] == rest;
      if p.Short? {
        NeedShort(Formats(rest), args);
      } else if p.Capital? {
        NeedCapitals(k, args);
        SameCapitals(p.v, k);
      } else {
        NeedPiece(p, Formats(rest), Args(rest));
      }
      OneMore(k, |Format(p)|);
      OneMore(k, |Output(p)|);
      OneMore(k, RoomOf(p));
      hide Need, Format, ArgsOf, Output, RoomOf, PieceOk;
    }
  }

  lemma OneMore(k: nat, n: nat)
    requires k > 0
    ensures k * n == n + (k - 1) * n
  {
  }

  lemma CopiesSuffice(p: Piece, k: nat)
    requires PieceOk(p)
    ensures Suffices(Copies(p, k)) <==> k * |Output(p)| < k * |Format(p)| + SPARE + k * RoomOf(p)
  {
    CopiesGrow(p, k, Args(Copies(p, k)));
    hide Need, Format, Output, RoomOf, Copies, Formats, Outputs, PieceOk;
  }

  lemma Slope(k: nat, p: nat, f: nat, r: nat)
    ensures p <= f + r ==> k * p <= k * f + k * r
    ensures p > f + r ==> 64 * p >= 64 * f + 64 + 64 * r
  {
    assert k * (f + r) == k * f + k * r;
    if p <= f + r {
      MulOrder(k, p, f + r);
    }
  }

  /** A format may repeat a piece as often as it likes exactly if the piece fits. */
  lemma RepeatExact(p: Piece)
    requires PieceOk(p)
    ensures (forall k: nat :: Suffices(Copies(p, k))) <==> Fitting(p)
  {
    forall k: nat
      ensures Fitting(p) ==> Suffices(Copies(p, k))
    {
      CopiesSuffice(p, k);
      Slope(k, |Output(p)|, |Format(p)|, RoomOf(p));
      hide Suffices, Copies, Format, Output, RoomOf;
    }
    CopiesSuffice(p, 64);
    Slope(64, |Output(p)|, |Format(p)|, RoomOf(p));
    hide Suffices, Copies, Format, Output, RoomOf;
    assert !Fitting(p) ==> !Suffices(Copies(p, 64));
  }

  /** The formats over some conversions and plain text are all safe exactly if each of these fits,
      which is a matter of the widths alone. */
  lemma EstimateExact(pieces: set<Piece>)
    requires forall p :: p in pieces ==> PieceOk(p) && !p.Short? && !p.Capital?
    ensures (forall ps: seq<Piece> :: (forall p :: p in ps ==> p in pieces) ==> Suffices(ps)) <==>
            (forall p :: p in pieces ==> Within(p))
  {
    hide Suffices, Fitting, Format, RoomOf, PieceOk, Within;
    forall p | p in pieces
      ensures Fitting(p) <==> Within(p)
    {
      PieceFits(p);
    }
    forall ps: seq<Piece> | (forall p :: p in ps ==> p in pieces) && (forall p :: p in ps ==> Fitting(p))
      ensures Suffices(ps)
    {
      EstimateSuffices(ps);
    }
    forall p | p in pieces && !Fitting(p)
      ensures exists ps: seq<Piece> :: (forall q :: q in ps ==> q in pieces) && !Suffices(ps)
    {
      RepeatExact(p);
      var k: nat :| !Suffices(Copies(p, k));
    }
  }

  /** A width that is not counted: this conversion alone prints more than is reserved. */
  lemma WidthExample(v: int)
    requires LONG_MIN <= v <= LONG_MAX
    ensures var p := Directive(99, false, 'd', Value(v)); Format(p) == "%99d" && |Output(p)| == 99 && !Suffices([p])
  {
    var p := Directive(99, false, 'd', Value(v));
    assert Digits(99, 10) == "99" by {
      assert Digits(9, 10) == "9";
    }
    BareFits(p);
    CopiesSuffice(p, 1);
    assert Copies(p, 1) == [p] + Copies(p, 0) && Copies(p, 0) == [] && [p] + [] == [p];
    assert Format(p) == "%" + "99" + "" + ['d'];
    hide Bare, Suffices, Copies, Digits;
  }

  /** What the scan adds for single conversions: nothing for those that it does not know, and for capitals,
      which it takes for flags. */
  lemma RoomTable(a: Arg, t: string)
    ensures Need("%c", [a]) == Some(4) && Need("%p", [a]) == Some(20) && Need("%s", [Text(t)]) == Some(|t|)
    ensures Need("%d", [a]) == Some(21) && Need("%i", [a]) == Some(21) && Need("%u", [a]) == Some(21)
    ensures Need("%o", [a]) == Some(21) && Need("%x", [a]) == Some(21) && Need("%ld", [a]) == Some(21)
    ensures Need("%a", [a]) == Some(64) && Need("%e", [a]) == Some(64)
    ensures Need("%f", [a]) == Some(64) && Need("%g", [a]) == Some(64)
    ensures Need("%la", [a]) == Some(128) && Need("%le", [a]) == Some(128)
    ensures Need("%lf", [a]) == Some(128) && Need("%lg", [a]) == Some(128)
    ensures Need("%n", [a]) == Some(0) && Need("%X", [a]) == Some(0) && Need("%%", [a]) == Some(0)
  {
    NeedSingle('c', false, a);
    NeedSingle('p', false, a);
    NeedSingle('s', false, Text(t));
    NeedSingle('d', false, a);
    NeedSingle('i', false, a);
    NeedSingle('u', false, a);
    NeedSingle('o', false, a);
    NeedSingle('x', false, a);
    NeedSingle('d', true, a);
    NeedSingle('a', false, a);
    NeedSingle('e', false, a);
    NeedSingle('f', false, a);
    NeedSingle('g', false, a);
    NeedSingle('a', true, a);
    NeedSingle('e', true, a);
    NeedSingle('f', true, a);
    NeedSingle('g', true, a);
    NeedUnknown(a);
    hide Need;
  }

  lemma NeedSingle(conv: char, big: bool, a: Arg)
    requires 'a' <= conv <= 'z' && conv != 'l' && Room(conv, big, [a]).Some?
    ensures Need("%" + Long(big) + [conv], [a]) == Room(conv, big, [a])
    ensures big ==> "%" + Long(big) + [conv] == ['%', 'l', conv]
    ensures !big ==> "%" + Long(big) + [conv] == ['%', conv]
  {
    NeedCounted(0, big, conv, a, "", []);
    assert "%" + WidthText(0) + Long(big) + [conv] + "" == "%" + Long(big) + [conv];
    assert [a] + [] == [a] && Need("", []) == Some(0);
    hide Need, Room;
  }

  lemma NeedUnknown(a: Arg)
    ensures Need("%n", [a]) == Some(0) && Need("%X", [a]) == Some(0) && Need("%%", [a]) == Some(0)
  {
    assert "%n"[1..] == "n" && "n"[1..] == "" && "%X"[1..] == "X" && "X"[1..] == "" && "%%"[2..] == "";
    assert Need("", [a]) == Some(0);
    assert SkipToLetter("") == "" && SkipToLetter("X") == "" && SkipToLetter("n") == "n";
    assert Conversion("n", false, [a]) == Need("", [a]);
  }

  /** Eleven capital hexadecimal numbers of eight digits print more than is reserved. */
  lemma CapitalExample()
    ensures var p := Capital(0xFFFF_FFFF);
            |Output(p)| == 8 && Format(p) == "%X" && !Suffices(Copies(p, 11)) && Suffices(Copies(p, 10))
  {
    EightDigits();
    CopiesSuffice(Capital(0xFFFF_FFFF), 10);
    CopiesSuffice(Capital(0xFFFF_FFFF), 11);
    hide Suffices, Copies, Digits;
  }

  lemma EightDigits()
    ensures |Digits(0xFFFF_FFFF, 16)| == 8
  {
    assert Pow(16, 4) == 0x1_0000;
    assert Pow(16, 7) == 0x1000_0000 && Pow(16, 8) == 0x1_0000_0000;
    DigitsBound(0xFFFF_FFFF, 16, 8);
    DigitsLonger(0xFFFF_FFFF, 16, 7);
    hide Digits, Pow;
  }

  /** A large number, printed in full, is longer than what is reserved for it. */
  lemma RealExample(t: string)
    requires |t| == 130
    ensures var p := Directive(0, false, 'f', Real(t)); Format(p) == "%f" && !Suffices([p])
    ensures Suffices([Directive(0, false, 'f', Real(t[1..]))])
  {
    OneCopy(Directive(0, false, 'f', Real(t)));
    OneCopy(Directive(0, false, 'f', Real(t[1..])));
    assert Format(Directive(0, false, 'f', Real(t))) == "%" + "" + "" + ['f'];
    hide Suffices;
  }

  lemma OneCopy(p: Piece)
    requires PieceOk(p)
    ensures Suffices([p]) <==> |Output(p)| < |Format(p)| + 64 + RoomOf(p)
  {
    hide Suffices, Copies, Output, Format, RoomOf, PieceOk;
    CopiesSuffice(p, 1);
    OneOf(p);
  }

  lemma OneOf(p: Piece)
    ensures Copies(p, 1) == [p]
  {
    assert Copies(p, 0) == [] && [p] + [] == [p];
  }

  /** Twenty-two short integers of six characters print more than is reserved. */
  lemma ShortExample()
    ensures |Output(Short(-0x8000))| == 6 && Format(Short(-0x8000)) == "%hd" && !Suffices(Copies(Short(-0x8000), 22))
    ensures Suffices(Copies(Short(-0x8000), 21))
  {
    SixCharacters();
    CopiesSuffice(Short(-0x8000), 21);
    CopiesSuffice(Short(-0x8000), 22);
    hide Suffices, Copies;
  }

  lemma SixCharacters()
    ensures |Decimal(-0x8000)| == 6
  {
    assert Digits(3, 10) == "3" && Digits(32, 10) == "32" && Digits(327, 10) == "327" && Digits(3276, 10) == "3276";
    assert Digits(32768, 10) == "32768";
  }

  /** The `l`s that a string starts with. */
  function Els(t: string): (n: nat)
    ensures n <= |t| && (n < |t| ==> t[n] != 'l') && forall k :: 0 <= k < n ==> t[k] == 'l'
  {
    if t == "" || t[0] != 'l' then 0 else 1 + Els(t[1..])
  }

  predicate OnlyEls(l: string) {
    forall c :: c in l ==> c == 'l'
  }

  /** A conversion is complete if a character follows its flags and its `l`s. */
  predicate IsDirective(x: string, f: string, l: string, c: char) {
    x == "%" + (f + (l + [c])) && Flags(f) && OnlyEls(l) && c != 'l' && (l == "" ==> 'a' <= c <= 'z')
  }

  /** One item of a format: a plain character, a percent sign or a complete conversion. */
  ghost predicate Item(x: string) {
    || (|x| == 1 && x[0] != '%') || x == "%%"
    || exists f, l, c :: IsDirective(x, f, l, c)
  }

  predicate IsOpen(x: string, f: string, l: string) {
    x == "%" + (f + l) && Flags(f) && l != "" && OnlyEls(l)
  }

  /** A conversion that ends in its `l`s. */
  ghost predicate OpenEnd(x: string) {
    exists f, l :: IsOpen(x, f, l)
  }

  function Concat(items: seq<string>): string {
    if items == [] then "" else items[0] + Concat(items[1..])
  }

  /** A format that is items and then an open end. */
  ghost predicate EndsOpen(s: string, items: seq<string>, tail: string) {
    s == Concat(items) + tail && (forall x :: x in items ==> Item(x)) && OpenEnd(tail)
  }

  lemma {:induction false} ConversionEls(l: string, u: string, big: bool, args: seq<Arg>)
    requires OnlyEls(l)
    ensures Conversion(l + u, big, args) == Conversion(u, big || l != "", args)
    decreases |l|
  {
    if l == "" {
      assert l + u == u;
    } else {
      assert l[0] in l && (l + u)[1..] == l[1..] + u && forall c :: c in l[1..] ==> c in l;
      ConversionEls(l[1..], u, true, args);
      hide Need;
    }
  }

  lemma NeedOpen(x: string, args: seq<Arg>)
    requires OpenEnd(x)
    ensures Need(x, args) == None
  {
    var f, l :| IsOpen(x, f, l);
    assert l[0] in l && l + "" == l;
    NeedDirective(f, l, args);
    ConversionEls(l, "", false, args);
    hide Need;
  }

  /** After an item the scan goes on with what follows, with some of the arguments. */
  lemma NeedItem(x: string, rest: string, args: seq<Arg>)
    requires Item(x)
    ensures exists more: seq<Arg> :: Need(x + rest, args) == None <==> Need(rest, more) == None
  {
    if |x| == 1 && x[0] != '%' {
      assert x == [x[0]];
      NeedPlain(x[0], rest, args);
    } else if x == "%%" {
      NeedPlain('%', rest, args);
    } else {
      var f, l, c :| IsDirective(x, f, l, c);
      var u := [c] + rest;
      assert x + rest == "%" + (f + (l + u)) && (l != "" ==> l[0] in l);
      NeedDirective(f, l + u, args);
      ConversionEls(l, u, false, args);
      assert u[1..] == rest;
      AfterConversion(u, l != "", args);
      hide Need, Conversion, Room;
    }
  }

  lemma AfterConversion(u: string, big: bool, args: seq<Arg>)
    requires u != "" && u[0] != 'l'
    ensures Conversion(u, big, args) == None <==>
            Need(u[1..], if Room(u[0], big, args).Some? then Tail(args) else args) == None
  {
    hide Need, Room;
  }

  lemma {:induction false} OpenRunsPast(items: seq<string>, tail: string, args: seq<Arg>)
    requires (forall x :: x in items ==> Item(x)) && OpenEnd(tail)
    ensures Need(Concat(items) + tail, args) == None
  {
    hide Need, Item, OpenEnd;
    if items == [] {
      assert Concat(items) + tail == tail;
      NeedOpen(tail, args);
    } else {
      var rest := Concat(items[1..]) + tail;
      assert Concat(items) + tail == items[0] + rest;
      NeedItem(items[0], rest, args);
      var more: seq<Arg> :| Need(items[0] + rest, args) == None <==> Need(rest, more) == None;
      OpenRunsPast(items[1..], tail, more);
    }
  }

  lemma {:induction false} SkipSplits(s: string)
    ensures var n := |s| - |SkipToLetter(s)|; Letterless(s[..n]) && s[n..] == SkipToLetter(s)
  {
    if s != "" && !('a' <= s[0] <= 'z') {
      SkipSplits(s[1..]);
      var n := |s| - |SkipToLetter(s)|;
      assert s[..n] == [s[0]] + s[1..][..n - 1] && s[n..] == s[1..][n - 1..];
    }
  }

  lemma EndsOpenMore(x: string, s: string, items: seq<string>, tail: string)
    requires Item(x) && EndsOpen(s, items, tail)
    ensures EndsOpen(x + s, [x] + items, tail)
  {
    hide Item, OpenEnd;
    assert ([x] + items)[1..] == items;
    assert x + (Concat(items) + tail) == x + Concat(items) + tail;
  }

  /** The start of a string that runs past its end is an item, or all of it an open end. */
  lemma {:induction false} RunsPastOpen(s: string, args: seq<Arg>) returns (items: seq<string>, tail: string)
    requires Need(s, args) == None
    ensures EndsOpen(s, items, tail)
    decreases |s|
  {
    var x, more := FirstItem(s, args);
    hide Need, Item, OpenEnd;
    if x == s && OpenEnd(s) {
      items, tail := [], s;
      assert Concat(items) + tail == s;
    } else {
      items, tail := RunsPastOpen(s[|x|..], more);
      EndsOpenMore(x, s[|x|..], items, tail);
      assert x + s[|x|..] == s;
      items := [x] + items;
    }
  }

  lemma FirstItem(s: string, args: seq<Arg>) returns (x: string, more: seq<Arg>)
    requires Need(s, args) == None
    ensures x != "" && x <= s
    ensures (x == s && OpenEnd(s)) || (Item(x) && Need(s[|x|..], more) == None)
  {
    more := args;
    if s[0] != '%' {
      x := s[..1];
    } else if |s| > 1 && s[1] == '%' {
      x := s[..2];
      assert x == "%%";
    } else {
      x, more := FirstConversion(s, args);
    }
  }

  lemma FirstConversion(s: string, args: seq<Arg>) returns (x: string, more: seq<Arg>)
    requires Need(s, args) == None && s != "" && s[0] == '%' && (|s| > 1 ==> s[1] != '%')
    ensures x != "" && x <= s
    ensures (x == s && OpenEnd(s)) || (Item(x) && Need(s[|x|..], more) == None)
  {
    var f, l, u := SplitConversion(s, args);
    hide Need, Conversion, Room;
    ConversionEls(l, u, false, args);
    if u == "" {
      x, more := s, args;
      assert f + (l + u) == f + l;
      assert IsOpen(s, f, l);
    } else {
      x, more := "%" + (f + (l + [u[0]])), if Room(u[0], l != "", args).Some? then Tail(args) else args;
      assert IsDirective(x, f, l, u[0]);
      AfterConversion(u, l != "", args);
      CutConversion(f, l, u);
    }
  }

  lemma CutConversion(f: string, l: string, u: string)
    requires u != ""
    ensures var x, s := "%" + (f + (l + [u[0]])), "%" + (f + (l + u)); x <= s && s[|x|..] == u[1..]
  {
    assert u == [u[0]] + u[1..];
    assert "%" + (f + (l + u)) == "%" + (f + (l + [u[0]])) + u[1..];
  }

  lemma SplitConversion(s: string, args: seq<Arg>) returns (f: string, l: string, u: string)
    requires Need(s, args) == None && s != "" && s[0] == '%' && (|s| > 1 ==> s[1] != '%')
    ensures s == "%" + (f + (l + u)) && Flags(f) && OnlyEls(l) && Conversion(l + u, false, args) == None
    ensures (u == "" ==> l != "") && (u != "" ==> u[0] != 'l') && (l == "" && u != "" ==> 'a' <= u[0] <= 'z')
  {
    hide Need, SkipToLetter, Conversion, Letterless;
    var t := SkipToLetter(s[1..]);
    AtPercent(s, args);
    SkipSplits(s[1..]);
    f, l, u := s[1..][..|s| - 1 - |t|], t[..Els(t)], t[Els(t)..];
    assert t == l + u;
    assert s[1..] == f + t;
    assert f != "" ==> f[0] == s[1];
  }

  lemma AtPercent(s: string, args: seq<Arg>)
    requires Need(s, args) == None && s != "" && s[0] == '%' && (|s| > 1 ==> s[1] != '%')
    ensures var t := SkipToLetter(s[1..]);
            t != "" && 'a' <= t[0] <= 'z' && Conversion(t, false, args) == None
  {
  }

  /** The scan runs past the end of a format exactly if the format ends in a conversion that is open
      behind its `l`s, whatever the arguments are. */
  lemma RunsPastIff(s: string, args: seq<Arg>)
    ensures Need(s, args) == None <==> exists items, tail :: EndsOpen(s, items, tail)
  {
    hide Need;
    if Need(s, args) == None {
      var items, tail := RunsPastOpen(s, args);
    }
    forall items, tail | EndsOpen(s, items, tail)
      ensures Need(s, args) == None
    {
      OpenRunsPast(items, tail, args);
    }
  }

  /** The shortest format that is read past its end. */
  lemma RunsPastExample(args: seq<Arg>)
    ensures Need("%l", args) == None
  {
    assert "%" + ("" + "l") == "%l" && IsOpen("%l", "", "l");
    NeedOpen("%l", args);
  }

  /** The scan has come to `i` of the format and `a` of the arguments and has added `n`. */
  ghost predicate Scanned(fmt: string, args: seq<Arg>, i: nat, a: nat, n: nat) {
    i <= |fmt| && a <= |args| && Need(fmt, args) == Plus(n, Need(fmt[i..], args[a..]))
  }

  /** The same in the middle of a conversion. */
  ghost predicate Converting(fmt: string, args: seq<Arg>, i: nat, a: nat, n: nat, big: bool) {
    i <= |fmt| && a <= |args| && Need(fmt, args) == Plus(n, Conversion(fmt[i..], big, args[a..]))
  }

  lemma ScanStart(fmt: string, args: seq<Arg>)
    ensures Scanned(fmt, args, 0, 0, 0)
  {
    assert fmt[0..] == fmt && args[0..] == args;
    hide Need;
  }

  lemma ScanEnd(fmt: string, args: seq<Arg>, a: nat, n: nat)
    requires Scanned(fmt, args, |fmt|, a, n)
    ensures Need(fmt, args) == Some(n)
  {
    assert Need(fmt[|fmt|..], args[a..]) == Some(0);
    hide Need;
  }

  lemma ScanPlain(fmt: string, args: seq<Arg>, i: nat, a: nat, n: nat)
    requires Scanned(fmt, args, i, a, n) && i < |fmt|
    ensures fmt[i] != '%' ==> Scanned(fmt, args, i + 1, a, n)
    ensures fmt[i] == '%' && i + 1 < |fmt| && fmt[i + 1] == '%' ==> Scanned(fmt, args, i + 2, a, n)
  {
    assert fmt[i..][1..] == fmt[i + 1..];
    if fmt[i] != '%' {
      assert Need(fmt[i..], args[a..]) == Need(fmt[i + 1..], args[a..]);
    } else if i + 1 < |fmt| && fmt[i + 1] == '%' {
      assert fmt[i..][2..] == fmt[i + 2..];
      assert Need(fmt[i..], args[a..]) == Need(fmt[i + 2..], args[a..]);
    }
    hide Need;
  }

  lemma ScanPercent(fmt: string, args: seq<Arg>, i: nat, a: nat, n: nat, j: nat)
    requires Scanned(fmt, args, i, a, n) && i < j <= |fmt| && fmt[i] == '%' && (i + 1 < |fmt| ==> fmt[i + 1] != '%')
    requires SkipToLetter(fmt[i + 1..]) == fmt[j..]
    ensures j == |fmt| ==> Need(fmt, args) == Some(n)
    ensures j < |fmt| ==> Converting(fmt, args, j, a, n, false)
  {
    assert fmt[i..][1..] == fmt[i + 1..];
    assert Need(fmt[i..], args[a..]) == if fmt[j..] == "" then Some(0) else Conversion(fmt[j..], false, args[a..]);
    hide Need, Conversion, SkipToLetter;
  }

  lemma ConvertLong(fmt: string, args: seq<Arg>, i: nat, a: nat, n: nat, big: bool)
    requires Converting(fmt, args, i, a, n, big) && i < |fmt| && fmt[i] == 'l'
    ensures Converting(fmt, args, i + 1, a, n, true)
  {
    assert fmt[i..][1..] == fmt[i + 1..];
    assert Conversion(fmt[i..], big, args[a..]) == Conversion(fmt[i + 1..], true, args[a..]);
    hide Conversion, Need;
  }

  lemma ConvertPast(fmt: string, args: seq<Arg>, a: nat, n: nat, big: bool)
    requires Converting(fmt, args, |fmt|, a, n, big)
    ensures Need(fmt, args) == None
  {
    assert Conversion(fmt[|fmt|..], big, args[a..]) == None;
    hide Conversion, Need;
  }

  function Next(args: seq<Arg>, a: nat): nat {
    if a < |args| then a + 1 else a
  }

  lemma ConvertEnd(fmt: string, args: seq<Arg>, i: nat, a: nat, n: nat, big: bool)
    requires Converting(fmt, args, i, a, n, big) && i < |fmt| && fmt[i] != 'l'
    ensures var r := Room(fmt[i], big, args[a..]);
            match r
            case None => Scanned(fmt, args, i + 1, a, n)
            case Some(m) => Scanned(fmt, args, i + 1, Next(args, a), n + m)
  {
    assert fmt[i..][1..] == fmt[i + 1..];
    assert Tail(args[a..]) == args[Next(args, a)..];
    var r := Room(fmt[i], big, args[a..]);
    assert Conversion(fmt[i..], big, args[a..]) ==
           match r
           case None => Need(fmt[i + 1..], args[a..])
           case Some(m) => Plus(m, Need(fmt[i + 1..], Tail(args[a..])));
    hide Conversion, Need, Room;
  }
}

/** The scan of mod_sc_vprintf. */
module PrintfEstimate {
  import opened PrintfRules
  import opened Wrappers

  /** The loop over what stands before a conversion letter. */
  method NextLetter(fmt: string, from: nat) returns (s: nat)
    requires from <= |fmt|
    ensures from <= s <= |fmt| && SkipToLetter(fmt[from..]) == fmt[s..]
    ensures s < |fmt| ==> 'a' <= fmt[s] <= 'z'
  {
    s := from;
    while s < |fmt| && (fmt[s] < 'a' || fmt[s] > 'z')
      invariant from <= s <= |fmt| && SkipToLetter(fmt[from..]) == SkipToLetter(fmt[s..])
    {
      assert fmt[s..][1..] == fmt[s + 1..];
      s := s + 1;
    }
  }

  /** What stands after a percent sign and its flags: sizes, and the conversion. */
  method Convert(fmt: string, args: seq<Arg>, from: nat, a: nat, ghost n: nat)
    returns (inside: bool, s: nat, more: nat, next: nat)
    requires Converting(fmt, args, from, a, n, false)
    ensures !inside ==> Need(fmt, args) == None
    ensures inside ==> from < s && Scanned(fmt, args, s, next, n + more)
  {
    hide Converting, Scanned, Need, Room;
    Bounds(fmt, args, from, a, n);
    s := from;
    var isbig := false;
    while s < |fmt| && fmt[s] == 'l'
      invariant from <= s <= |fmt| && Converting(fmt, args, s, a, n, isbig)
    {
      ConvertLong(fmt, args, s, a, n, isbig);
      isbig, s := true, s + 1;
    }
    if s == |fmt| {
      ConvertPast(fmt, args, a, n, isbig);
      return false, s, 0, a;
    }
    ConvertEnd(fmt, args, s, a, n, isbig);
    var r := Room(fmt[s], isbig, args[a..]);
    inside, s := true, s + 1;
    match r
    case None => more, next := 0, a;
    case Some(m) => more, next := m, Next(args, a);
  }

  lemma Bounds(fmt: string, args: seq<Arg>, i: nat, a: nat, n: nat)
    ensures Converting(fmt, args, i, a, n, false) ==> i <= |fmt| && a <= |args|
    ensures Scanned(fmt, args, i, a, n) ==> i <= |fmt| && a <= |args|
  {
    hide Need, Conversion;
  }

  /** The scan over the format. `inside` is false when it runs past the end of the format. */
  method Estimate(fmt: string, args: seq<Arg>) returns (inside: bool, size: nat)
    ensures inside <==> Need(fmt, args).Some?
    ensures !inside <==> exists items, tail :: EndsOpen(fmt, items, tail)
    ensures inside ==> size == |fmt| + SPARE + Need(fmt, args).value
  {
    ScanStart(fmt, args);
    RunsPastIff(fmt, args);
    hide EndsOpen, Converting, Scanned, Need, Conversion, SkipToLetter;
    inside, size := true, |fmt| + SPARE;
    var s, a := 0, 0;
    ghost var n: nat := 0;
    while s < |fmt|
      invariant s <= |fmt| && Scanned(fmt, args, s, a, n) && size == |fmt| + SPARE + n
      decreases |fmt| - s
    {
      ScanPlain(fmt, args, s, a, n);
      if fmt[s] != '%' {
        s := s + 1;
        continue;
      }
      if s + 1 < |fmt| && fmt[s + 1] == '%' {
        s := s + 2;
        continue;
      }
      var j := NextLetter(fmt, s + 1);
      ScanPercent(fmt, args, s, a, n, j);
      if j == |fmt| {
        return;
      }
      var more, next;
      inside, s, more, next := Convert(fmt, args, j, a, n);
      if !inside {
        return;
      }
      Bounds(fmt, args, s, next, n + more);
      size, a, n := size + more, next, n + more;
    }
    ScanEnd(fmt, args, a, n);
  }
}
