/** Text that is written part by part into a buffer of fixed size. */
module RenderRules {

  /** A part, and the room that is demanded before it is written. */
  datatype Part = Part(guard: nat, text: string)

  /** What is written to a buffer of `size` bytes that holds `out` already. */
  function Filled(out: string, parts: seq<Part>, size: nat): string
    decreases |parts|
  {
    if parts == [] || |out| + parts[0].guard >= size then out
    else Filled(out + parts[0].text, parts[1..], size)
  }

  lemma FilledStep(out: string, parts: seq<Part>, size: nat, next: string)
    requires parts != [] && |out| + parts[0].guard < size && next == out + parts[0].text
    ensures Filled(out, parts, size) == Filled(next, parts[1..], size)
  {
  }

  /** The text without a bound. */
  function Whole(parts: seq<Part>): string {
    if parts == [] then "" else parts[0].text + Whole(parts[1..])
  }

  ghost predicate Fits(parts: seq<Part>) {
    forall p :: p in parts ==> |p.text| <= p.guard
  }

  /** The output is a prefix of the whole text. */
  lemma {:induction false} FilledPrefix(out: string, parts: seq<Part>, size: nat)
    ensures Filled(out, parts, size) <= out + Whole(parts)
    decreases |parts|
  {
    if parts != [] && |out| + parts[0].guard < size {
      FilledPrefix(out + parts[0].text, parts[1..], size);
      assert out + parts[0].text + Whole(parts[1..]) == out + (parts[0].text + Whole(parts[1..]));
    }
  }

  /** Parts that keep within their guards never fill the buffer, so that there is room for a NUL. */
  lemma {:induction false} FilledInside(out: string, parts: seq<Part>, size: nat)
    requires Fits(parts) && |out| < size
    ensures |Filled(out, parts, size)| < size
    decreases |parts|
  {
    if parts != [] && |out| + parts[0].guard < size {
      assert parts[0] in parts;
      FilledInside(out + parts[0].text, parts[1..], size);
    }
  }

  /** A buffer that is larger than the text by the largest guard takes all of it. */
  lemma {:induction false} FilledAll(out: string, parts: seq<Part>, size: nat, most: nat)
    requires (forall p :: p in parts ==> p.guard <= most) && |out| + |Whole(parts)| + most < size
    ensures Filled(out, parts, size) == out + Whole(parts)
    decreases |parts|
  {
    if parts != [] {
      assert parts[0] in parts;
      FilledAll(out + parts[0].text, parts[1..], size, most);
      assert out + parts[0].text + Whole(parts[1..]) == out + (parts[0].text + Whole(parts[1..]));
    }
  }

  /** A larger buffer only adds to the output. */
  lemma {:induction false} FilledGrows(out: string, parts: seq<Part>, size: nat, larger: nat)
    requires size <= larger
    ensures Filled(out, parts, size) <= Filled(out, parts, larger)
    decreases |parts|
  {
    if parts != [] && |out| + parts[0].guard < larger {
      if |out| + parts[0].guard < size {
        FilledGrows(out + parts[0].text, parts[1..], size, larger);
      } else {
        FilledExtends(out + parts[0].text, parts[1..], larger);
        assert out <= out + parts[0].text;
      }
    }
  }

  lemma {:induction false} FilledExtends(out: string, parts: seq<Part>, size: nat)
    ensures out <= Filled(out, parts, size)
    decreases |parts|
  {
    if parts != [] && |out| + parts[0].guard < size {
      FilledExtends(out + parts[0].text, parts[1..], size);
    }
  }

  /** The guard of a part protects every buffer exactly if the text keeps within it. */
  lemma GuardExact(out: string, p: Part)
    ensures (forall size: nat :: |out| < size ==> |Filled(out, [p], size)| < size) <==> |p.text| <= p.guard
  {
    var tight: nat := |out| + p.guard + 1;
    assert Filled(out, [p], tight) == out + p.text by {
      assert [p][1..] == [];
      assert Filled(out + p.text, [], tight) == out + p.text;
    }
    if |p.text| <= p.guard {
      forall size: nat | |out| < size
        ensures |Filled(out, [p], size)| < size
      {
        FilledInside(out, [p], size);
      }
    } else {
      assert |out| < tight && |Filled(out, [p], tight)| >= tight;
    }
  }

  /** The length of the first `i` texts. */
  function Sum(parts: seq<Part>, i: nat): nat
    requires i <= |parts|
  {
    if i == 0 then 0 else Sum(parts, i - 1) + |parts[i - 1].text|
  }

  lemma {:induction false} SumFront(parts: seq<Part>, i: nat)
    requires i < |parts|
    ensures Sum(parts, i + 1) == |parts[0].text| + Sum(parts[1..], i)
  {
    if i > 0 {
      SumFront(parts, i - 1);
    } else {
      assert Sum(parts, 1) == Sum(parts, 0) + |parts[0].text|;
    }
  }

  /** The guard of part `i` lets it through, behind `n` bytes and the parts before it. */
  predicate Passes(parts: seq<Part>, i: nat, n: nat, size: nat)
    requires i < |parts|
  {
    n + Sum(parts, i) + parts[i].guard < size
  }

  lemma PassesFront(parts: seq<Part>, i: nat, n: nat, size: nat)
    requires i + 1 < |parts|
    ensures Passes(parts, i + 1, n, size) <==> Passes(parts[1..], i, n + |parts[0].text|, size)
  {
    SumFront(parts, i);
  }

  /** Where the guards let the first `i` parts through, they are written. */
  lemma {:induction false} FilledReaches(out: string, parts: seq<Part>, size: nat, i: nat)
    requires i <= |parts| && forall j :: 0 <= j < i ==> Passes(parts, j, |out|, size)
    ensures |Filled(out, parts, size)| >= |out| + Sum(parts, i)
    decreases i
  {
    if i == 0 {
      FilledExtends(out, parts, size);
    } else {
      assert Passes(parts, 0, |out|, size);
      SumFront(parts, i - 1);
      hide Sum;
      forall j | 0 <= j < i - 1
        ensures Passes(parts[1..], j, |out + parts[0].text|, size)
      {
        PassesFront(parts, j, |out|, size);
      }
      hide Passes;
      FilledReaches(out + parts[0].text, parts[1..], size, i - 1);
    }
  }

  /** A part beyond its guard overflows a buffer that lets everything before it through. */
  lemma PartOverflows(parts: seq<Part>, i: nat, size: nat)
    requires i < |parts| && |parts[i].text| > parts[i].guard && size == Sum(parts, i) + parts[i].guard + 1
    requires forall j :: 0 <= j < i ==> Passes(parts, j, 0, size)
    ensures |Filled("", parts, size)| >= size
  {
    SumNext(parts, i);
    assert Passes(parts, i, 0, size);
    hide Filled, Sum, Passes;
    FilledReaches("", parts, size, i + 1);
  }

  lemma SumNext(parts: seq<Part>, i: nat)
    requires i < |parts|
    ensures Sum(parts, i + 1) == Sum(parts, i) + |parts[i].text|
  {
  }
}

/** The parts of the text that describes a socket. */
module SocketText {
  import opened NumberRules
  import opened BluetoothRules
  import opened RenderRules

  datatype Domain = Inet | Inet6 | Unix | Bth | OtherDomain(n: int)
  datatype Kind = Stream | Dgram | Raw | OtherKind(n: int)

  const IPPROTO_ICMP: int := 1
  const IPPROTO_TCP: int := 6
  const IPPROTO_UDP: int := 17
  const BTPROTO_L2CAP: int := 0
  const BTPROTO_RFCOMM: int := 3
  const SOCKADDR_SIZE_MAX: nat := 128

  type Word = v: int | 0 <= v < 0x1_0000

  /** A socket address under all the views that its bytes have; only the length is common to them. */
  datatype Addr = Addr(l: nat, ip: seq<Byte>, port: Word, words: seq<Word>, path: string, ba: seq<Byte>)

  datatype Sock = Sock(handle: int, domain: Domain, kind: Kind, proto: int, local: Addr, remote: Addr)

  const INVALID_SOCKET: int := -1

  /** A field is a name or a number. */
  datatype Field = Name(text: string) | Number(v: int)

  function FieldText(f: Field): string {
    match f
    case Name(t) => t
    case Number(v) => ItoaText(v, 10)
  }

  function IdField(s: Sock): Field {
    if s.handle != INVALID_SOCKET then Number(s.handle) else Name("NONE")
  }

  function DomainField(s: Sock): Field {
    match s.domain
    case Inet => Name("INET")
    case Inet6 => Name("INET6")
    case Unix => Name("UNIX")
    case Bth => Name("BTH")
    case OtherDomain(n) => Number(n)
  }

  function KindField(s: Sock): Field {
    match s.kind
    case Stream => Name("STREAM")
    case Dgram => Name("DGRAM")
    case Raw => Name("RAW")
    case OtherKind(n) => Number(n)
  }

  function ProtoField(s: Sock): Field {
    if s.domain.Inet? || s.domain.Inet6? then
      if s.proto == IPPROTO_TCP then Name("TCP")
      else if s.proto == IPPROTO_UDP then Name("UDP")
      else if s.proto == IPPROTO_ICMP then Name("ICMP")
      else Number(s.proto)
    else if s.domain.Bth? then
      if s.proto == BTPROTO_RFCOMM then Name("RFCOMM")
      else if s.proto == BTPROTO_L2CAP then Name("L2CAP")
      else Number(s.proto)
    else Number(s.proto)
  }

  /** The format %04x. */
  function Hex4(w: Word): (s: string)
    ensures |s| == 4
  {
    [LowerHex(w / 0x1000), LowerHex(w / 0x100 % 16), LowerHex(w / 16 % 16), LowerHex(w % 16)]
  }

  function LowerHex(d: nat): char
    requires d < 16
  {
    ((if d < 10 then '0' as int else 'a' as int - 10) + d) as char
  }

  function Ip4Text(a: Addr): string
    requires |a.ip| == 4
  {
    Digits(a.ip[0], 10) + "." + Digits(a.ip[1], 10) + "." + Digits(a.ip[2], 10) + "." + Digits(a.ip[3], 10) +
        ":" + Digits(a.port, 10)
  }

  function Words(ws: seq<Word>): (s: string)
    ensures |s| == if ws == [] then 0 else 5 * |ws| - 1
  {
    if ws == [] then "" else if |ws| == 1 then Hex4(ws[0]) else Hex4(ws[0]) + ":" + Words(ws[1..])
  }

  function Ip6Text(a: Addr): string {
    "[" + Words(a.words) + "]:" + Digits(a.port, 10)
  }

  /** The parts for one address, none if it is not set or the domain has no text for it. */
  function AddrParts(domain: Domain, a: Addr, tag: string): seq<Part>
    requires WellSized(a)
  {
    if a.l == 0 then []
    else
      match domain
      case Inet => [Part(|tag| + 21, tag + Ip4Text(a))]
      case Inet6 => [Part(|tag| + 47, tag + Ip6Text(a))]
      case Unix => [Part(|tag|, tag), Part(SOCKADDR_SIZE_MAX, a.path)]
      case Bth => [Part(|tag|, tag), Part(17, ToText(a.ba))]
      case OtherDomain(_) => []
  }

  predicate WellSized(a: Addr) {
    |a.ip| == 4 && |a.words| == 8 && |a.ba| == BYTES && |a.path| <= SOCKADDR_SIZE_MAX
  }

  function HeadParts(s: Sock): seq<Part> {
    [Part(10, "SOCKET(ID="), Part(5, FieldText(IdField(s))),
     Part(8, ";DOMAIN="), Part(5, FieldText(DomainField(s))),
     Part(6, ";TYPE="), Part(6, FieldText(KindField(s))),
     Part(7, ";PROTO="), Part(6, FieldText(ProtoField(s)))]
  }

  /** The whole text, and the room that each part of it is given. */
  function Parts(s: Sock): seq<Part>
    requires WellSized(s.local) && WellSized(s.remote)
  {
    HeadParts(s) + AddrParts(s.domain, s.local, ";LOCAL=") + AddrParts(s.domain, s.remote, ";REMOTE=") + [Part(1, ")")]
  }

  /** The text without a bound. */
  lemma WholeText(s: Sock)
    requires WellSized(s.local) && WellSized(s.remote)
    ensures Whole(Parts(s)) ==
            "SOCKET(ID=" + FieldText(IdField(s)) + ";DOMAIN=" + FieldText(DomainField(s)) + ";TYPE=" +
            FieldText(KindField(s)) + ";PROTO=" + FieldText(ProtoField(s)) +
            Whole(AddrParts(s.domain, s.local, ";LOCAL=")) + Whole(AddrParts(s.domain, s.remote, ";REMOTE=")) + ")"
  {
    hide FieldText, AddrParts, HeadParts, IdField, DomainField, KindField, ProtoField, Whole;
    var h, a, b := HeadParts(s), AddrParts(s.domain, s.local, ";LOCAL="), AddrParts(s.domain, s.remote, ";REMOTE=");
    WholeBoth(h + a + b, [Part(1, ")")]);
    WholeBoth(h + a, b);
    WholeBoth(h, a);
    WholeHead(s);
    WholeOne(Part(1, ")"));
  }

  lemma WholeOne(p: Part)
    ensures Whole([p]) == p.text
  {
    assert [p][1..] == [];
    assert Whole([]) == "";
  }

  lemma WholeMore(p: Part, parts: seq<Part>)
    ensures Whole([p] + parts) == p.text + Whole(parts)
  {
    assert ([p] + parts)[1..] == parts;
  }

  lemma {:induction false} WholeBoth(a: seq<Part>, b: seq<Part>)
    ensures Whole(a + b) == Whole(a) + Whole(b)
  {
    if a == [] {
      assert a + b == b;
    } else {
      WholeBoth(a[1..], b);
      assert (a + b)[1..] == a[1..] + b;
      assert a[0].text + (Whole(a[1..]) + Whole(b)) == a[0].text + Whole(a[1..]) + Whole(b);
    }
  }

  lemma WholeHead(s: Sock)
    ensures Whole(HeadParts(s)) ==
            "SOCKET(ID=" + FieldText(IdField(s)) + ";DOMAIN=" + FieldText(DomainField(s)) + ";TYPE=" +
            FieldText(KindField(s)) + ";PROTO=" + FieldText(ProtoField(s))
  {
    hide FieldText, IdField, DomainField, KindField, ProtoField, Whole;
    WholeFour(Part(10, "SOCKET(ID="), Part(5, FieldText(IdField(s))),
              Part(8, ";DOMAIN="), Part(5, FieldText(DomainField(s))));
    WholeFour(Part(6, ";TYPE="), Part(6, FieldText(KindField(s))),
              Part(7, ";PROTO="), Part(6, FieldText(ProtoField(s))));
    var a := [Part(10, "SOCKET(ID="), Part(5, FieldText(IdField(s))),
              Part(8, ";DOMAIN="), Part(5, FieldText(DomainField(s)))];
    var b := [Part(6, ";TYPE="), Part(6, FieldText(KindField(s))),
              Part(7, ";PROTO="), Part(6, FieldText(ProtoField(s)))];
    WholeBoth(a, b);
    assert a + b == HeadParts(s);
    Regrouped(Whole(a), ";TYPE=", FieldText(KindField(s)), ";PROTO=", FieldText(ProtoField(s)));
  }

  lemma Regrouped(x: string, a: string, b: string, c: string, d: string)
    ensures x + (a + b + c + d) == x + a + b + c + d
  {
  }

  lemma WholeFour(a: Part, b: Part, c: Part, d: Part)
    ensures Whole([a, b, c, d]) == a.text + b.text + c.text + d.text
  {
    hide Whole;
    assert [a, b, c, d] == [a] + ([b] + ([c] + [d]));
    WholeMore(a, [b] + ([c] + [d]));
    WholeMore(b, [c] + [d]);
    WholeMore(c, [d]);
    WholeOne(d);
  }

  /** The names that are printed, and the numbers where there is no name. */
  lemma FieldNames(s: Sock)
    ensures FieldText(IdField(s)) == if s.handle == -1 then "NONE" else ItoaText(s.handle, 10)
    ensures FieldText(DomainField(s)) ==
            match s.domain
            case Inet => "INET"
            case Inet6 => "INET6"
            case Unix => "UNIX"
            case Bth => "BTH"
            case OtherDomain(n) => ItoaText(n, 10)
    ensures FieldText(KindField(s)) ==
            match s.kind
            case Stream => "STREAM"
            case Dgram => "DGRAM"
            case Raw => "RAW"
            case OtherKind(n) => ItoaText(n, 10)
    ensures var ip := s.domain.Inet? || s.domain.Inet6?;
            FieldText(ProtoField(s)) ==
            if ip && s.proto == 6 then "TCP" else if ip && s.proto == 17 then "UDP"
            else if ip && s.proto == 1 then "ICMP"
            else if s.domain.Bth? && s.proto == 3 then "RFCOMM" else if s.domain.Bth? && s.proto == 0 then "L2CAP"
            else ItoaText(s.proto, 10)
  {
    hide ItoaText;
  }

  /** The addresses: the bytes of the first kind in decimal, the words of the second in hexadecimal, and
      the port; a path; or the bytes of a Bluetooth address. */
  lemma AddrText(domain: Domain, a: Addr, tag: string)
    requires WellSized(a)
    ensures a.l == 0 || domain.OtherDomain? ==> Whole(AddrParts(domain, a, tag)) == ""
    ensures a.l > 0 && domain.Inet? ==>
              Whole(AddrParts(domain, a, tag)) ==
              tag + (Digits(a.ip[0], 10) + "." + Digits(a.ip[1], 10) + "." + Digits(a.ip[2], 10) + "." +
                     Digits(a.ip[3], 10) + ":" + Digits(a.port, 10))
    ensures a.l > 0 && domain.Inet6? ==>
              Whole(AddrParts(domain, a, tag)) == tag + ("[" + Words(a.words) + "]:" + Digits(a.port, 10))
    ensures a.l > 0 && domain.Unix? ==> Whole(AddrParts(domain, a, tag)) == tag + a.path
    ensures a.l > 0 && domain.Bth? ==> Whole(AddrParts(domain, a, tag)) == tag + ToText(a.ba)
  {
    hide Digits, Words, ToText, Whole;
    assert Whole([]) == "" by {
      WholeNone();
    }
    WholeOne(Part(|tag| + 21, tag + Ip4Text(a)));
    WholeOne(Part(|tag| + 47, tag + Ip6Text(a)));
    WholeTwo(Part(|tag|, tag), Part(SOCKADDR_SIZE_MAX, a.path));
    WholeTwo(Part(|tag|, tag), Part(17, ToText(a.ba)));
  }

  lemma WholeNone()
    ensures Whole([]) == ""
  {
  }

  lemma WholeTwo(a: Part, b: Part)
    ensures Whole([a, b]) == a.text + b.text
  {
    hide Whole;
    assert [a, b] == [a] + [b];
    WholeMore(a, [b]);
    WholeOne(b);
  }

  lemma WordsMore(ws: seq<Word>)
    requires ws != []
    ensures |Words(ws)| == 5 * |ws| - 1
    ensures Words(ws) == if |ws| == 1 then Hex4(ws[0]) else Hex4(ws[0]) + ":" + Words(ws[1..])
  {
    hide Hex4;
  }

  lemma SliceBehind(p: string, t: string, i: nat, j: nat)
    requires i <= j <= |t|
    ensures (p + t)[|p| + i..|p| + j] == t[i..j]
  {
  }

  /** The words in their order, four digits each. */
  lemma {:induction false} WordsAt(ws: seq<Word>, k: nat)
    requires k < |ws|
    ensures 5 * k + 4 <= |Words(ws)| && Words(ws)[5 * k..5 * k + 4] == Hex4(ws[k])
  {
    hide Hex4, Words;
    WordsMore(ws);
    if k > 0 {
      WordsMore(ws[1..]);
      WordsAt(ws[1..], k - 1);
      SliceBehind(Hex4(ws[0]) + ":", Words(ws[1..]), 5 * (k - 1), 5 * (k - 1) + 4);
    }
  }

  /** Four digits denote their word. */
  lemma Hex4Value(w: Word)
    ensures Value(Hex4(w), 16) == w
  {
    hide Value, DigitOf, LowerHex;
    var s := Hex4(w);
    ValueOfOne(s[0], 16);
    ValueAppend([s[0]], s[1], 16);
    ValueAppend([s[0]] + [s[1]], s[2], 16);
    ValueAppend([s[0]] + [s[1]] + [s[2]], s[3], 16);
    assert s == [s[0]] + [s[1]] + [s[2]] + [s[3]];
    LowerBack(w / 0x1000);
    LowerBack(w / 0x100 % 16);
    LowerBack(w / 16 % 16);
    LowerBack(w % 16);
    Nibbles(w);
  }

  lemma Nibbles(w: Word)
    ensures ((w / 0x1000 * 16 + w / 0x100 % 16) * 16 + w / 16 % 16) * 16 + w % 16 == w
  {
  }

  lemma LowerBack(d: nat)
    requires d < 16
    ensures DigitOf(LowerHex(d)) == d
  {
  }

  /** What the guards presume, in numbers: the longest are of five or six characters. (The minimum of a
      long is an exception, since it is printed wrong.) */
  lemma SmallNumbersAre(s: Sock)
    requires forall f :: f in [IdField(s), DomainField(s), KindField(s), ProtoField(s)] && f.Number? ==>
               LONG_MIN < f.v <= LONG_MAX
    ensures SmallNumbers(s) <==>
            && (s.handle != -1 ==> -10000 < s.handle < 100000)
            && (s.domain.OtherDomain? ==> -10000 < s.domain.n < 100000)
            && (s.kind.OtherKind? ==> -100000 < s.kind.n < 1000000)
            && (ProtoField(s).Number? ==> -100000 < s.proto < 1000000)
  {
    hide ItoaText;
    assert IdField(s) in [IdField(s), DomainField(s), KindField(s), ProtoField(s)];
    assert DomainField(s) in [IdField(s), DomainField(s), KindField(s), ProtoField(s)];
    assert KindField(s) in [IdField(s), DomainField(s), KindField(s), ProtoField(s)];
    assert ProtoField(s) in [IdField(s), DomainField(s), KindField(s), ProtoField(s)];
    ItoaLength(s.handle);
    ItoaLength(s.proto);
    if s.domain.OtherDomain? {
      ItoaLength(s.domain.n);
    }
    if s.kind.OtherKind? {
      ItoaLength(s.kind.n);
    }
  }

  lemma ItoaLength(v: int)
    ensures v != LONG_MIN ==> (|ItoaText(v, 10)| <= 5 <==> -10000 < v < 100000)
    ensures v != LONG_MIN ==> (|ItoaText(v, 10)| <= 6 <==> -100000 < v < 1000000)
  {
    PowTen();
    PowSmall();
    var n := if v < 0 then -v else v;
    DigitsCount(n, 4);
    DigitsCount(n, 5);
    DigitsCount(n, 6);
    hide Digits, Pow;
  }

  lemma PowSmall()
    ensures Pow(10, 4) == 10000
  {
  }

  lemma DigitsCount(n: nat, k: nat)
    requires k > 0
    ensures |Digits(n, 10)| <= k <==> n < Pow(10, k)
  {
    if n < Pow(10, k) {
      DigitsBound(n, 10, k);
    } else {
      DigitsLonger(n, 10, k);
    }
    hide Digits, Pow;
  }

  /** What the guards presume of the numbers that are printed raw. */
  predicate SmallNumbers(s: Sock) {
    && |FieldText(IdField(s))| <= 5 && |FieldText(DomainField(s))| <= 5
    && |FieldText(KindField(s))| <= 6 && |FieldText(ProtoField(s))| <= 6
  }

  lemma OctetDigits(n: nat)
    ensures n < 0x100 ==> |Digits(n, 10)| <= 3
    ensures n < 0x1_0000 ==> |Digits(n, 10)| <= 5
  {
    PowTen();
    if n < 0x100 {
      assert Pow(10, 3) == 1000;
      DigitsBound(n, 10, 3);
    } else if n < 0x1_0000 {
      DigitsBound(n, 10, 5);
    }
  }

  lemma AddrFits(domain: Domain, a: Addr, tag: string)
    requires WellSized(a)
    ensures Fits(AddrParts(domain, a, tag))
  {
    OctetDigits(a.ip[0]);
    OctetDigits(a.ip[1]);
    OctetDigits(a.ip[2]);
    OctetDigits(a.ip[3]);
    OctetDigits(a.port);
    hide Digits, Words, ToText;
  }

  /** All parts keep within their guards exactly if the raw numbers are as small as presumed. */
  lemma PartsFit(s: Sock)
    requires WellSized(s.local) && WellSized(s.remote)
    ensures Fits(Parts(s)) <==> SmallNumbers(s)
  {
    hide AddrParts, HeadParts, SmallNumbers, Fits;
    AddrFits(s.domain, s.local, ";LOCAL=");
    AddrFits(s.domain, s.remote, ";REMOTE=");
    HeadFits(s);
    var h, a, b := HeadParts(s), AddrParts(s.domain, s.local, ";LOCAL="), AddrParts(s.domain, s.remote, ";REMOTE=");
    FitsBoth(h, a);
    FitsBoth(h + a, b);
    FitsBoth(h + a + b, [Part(1, ")")]);
    assert Fits([Part(1, ")")]) by {
      LastFits();
    }
  }

  lemma LastFits()
    ensures Fits([Part(1, ")")])
  {
  }

  lemma FitsBoth(a: seq<Part>, b: seq<Part>)
    ensures Fits(a + b) <==> Fits(a) && Fits(b)
  {
    assert forall p :: p in a + b <==> p in a || p in b;
  }

  lemma HeadFits(s: Sock)
    ensures Fits(HeadParts(s)) <==> SmallNumbers(s)
  {
    hide FieldText;
    var h := HeadParts(s);
    assert h[1] in h && h[3] in h && h[5] in h && h[7] in h;
  }

  /** The places of the raw numbers, and the lengths before them. */
  lemma HeadLengths(s: Sock)
    requires WellSized(s.local) && WellSized(s.remote)
    ensures var all, h := Parts(s), HeadParts(s);
            && |all| > 8 && (forall i :: 0 <= i < 8 ==> all[i] == h[i])
            && Sum(all, 0) == 0 && Sum(all, 1) == 10 && Sum(all, 2) == 10 + |h[1].text|
               && Sum(all, 3) == Sum(all, 2) + 8
            && Sum(all, 4) == Sum(all, 3) + |h[3].text| && Sum(all, 5) == Sum(all, 4) + 6
            && Sum(all, 6) == Sum(all, 5) + |h[5].text| && Sum(all, 7) == Sum(all, 6) + 7
  {
    hide AddrParts, FieldText;
    var all := Parts(s);
    assert Sum(all, 1) == Sum(all, 0) + |all[0].text| && Sum(all, 2) == Sum(all, 1) + |all[1].text|;
    assert Sum(all, 3) == Sum(all, 2) + |all[2].text| && Sum(all, 4) == Sum(all, 3) + |all[3].text|;
    assert Sum(all, 5) == Sum(all, 4) + |all[4].text| && Sum(all, 6) == Sum(all, 5) + |all[5].text|;
    assert Sum(all, 7) == Sum(all, 6) + |all[6].text|;
  }

  /** Every buffer holds the text with its NUL exactly if the raw numbers are as small as presumed. */
  lemma SafeIffSmall(s: Sock)
    requires WellSized(s.local) && WellSized(s.remote)
    ensures (forall size: nat :: size >= 1 ==> |Filled("", Parts(s), size)| < size) <==> SmallNumbers(s)
  {
    hide Filled, Parts, SmallNumbers;
    var all := Parts(s);
    PartsFit(s);
    if SmallNumbers(s) {
      forall size: nat | size >= 1
        ensures |Filled("", all, size)| < size
      {
        FilledInside("", all, size);
      }
    } else {
      var size := LargeOverflows(s);
      assert size >= 1 && |Filled("", all, size)| >= size;
    }
  }

  /** A size for which a number that is too large is written behind the buffer. */
  lemma LargeOverflows(s: Sock) returns (size: nat)
    requires WellSized(s.local) && WellSized(s.remote) && !SmallNumbers(s)
    ensures size >= 1 && |Filled("", Parts(s), size)| >= size
  {
    hide Filled, Sum, AddrParts, FieldText, Parts;
    var all := Parts(s);
    HeadLengths(s);
    var i := if |all[1].text| > 5 then 1 else if |all[3].text| > 5 then 3 else if |all[5].text| > 6 then 5 else 7;
    size := Sum(all, i) + all[i].guard + 1;
    assert forall j :: 0 <= j < i ==> Passes(all, j, 0, size);
    PartOverflows(all, i, size);
  }

  /** How much of a text there is in buffers of all sizes: each part is written where it has its room. */
  lemma CutExample(s: Sock, size: nat)
    requires s.handle == 5 && s.domain == Inet && s.kind == Stream && s.proto == 6
    requires WellSized(s.local) && WellSized(s.remote) && s.local.l == 0 && s.remote.l == 0
    ensures |Filled("", Parts(s), size)| ==
            if size <= 10 then 0 else if size <= 15 then 10 else if size <= 19 then 11 else if size <= 24 then 19
            else if size <= 29 then 23 else if size <= 35 then 29 else if size <= 42 then 35 else if size <= 48 then 42
            else 46
  {
    hide Filled, ItoaText;
    FieldNames(s);
    OneDigit();
    var all := Parts(s);
    assert all == HeadParts(s) + [Part(1, ")")];
    hide Parts, HeadParts, FieldText;
    CutSteps(all, size);
  }

  lemma OneDigit()
    ensures |ItoaText(5, 10)| == 1
  {
  }

  lemma CutSteps(all: seq<Part>, size: nat)
    requires |all| == 9 && all[0].guard == 10 == |all[0].text| && all[1].guard == 5 && |all[1].text| == 1
    requires all[2].guard == 8 == |all[2].text| && all[3].guard == 5 && |all[3].text| == 4
    requires all[4].guard == 6 == |all[4].text| && all[5].guard == 6 == |all[5].text|
    requires all[6].guard == 7 == |all[6].text| && all[7].guard == 6 && |all[7].text| == 3
    requires all[8].guard == 1 == |all[8].text|
    ensures |Filled("", all, size)| ==
            if size <= 10 then 0 else if size <= 15 then 10 else if size <= 19 then 11 else if size <= 24 then 19
            else if size <= 29 then 23 else if size <= 35 then 29 else if size <= 42 then 35 else if size <= 48 then 42
            else 46
  {
    hide Filled;
    var i, out := CutAt(all, size);
    assert |out| == Before(i) && (i > 0 ==> Limit(i - 1) < size) && (i > 7 ==> Limit(7) < size);
  }

  /** The part before which the example stops. */
  lemma CutAt(all: seq<Part>, size: nat) returns (i: nat, out: string)
    requires |all| == 9 && forall k :: 0 <= k < 9 ==> PartAt(all[k], k)
    ensures i <= 9 && |out| == Before(i) && Filled("", all, size) == out
    ensures (forall k :: 0 <= k < i ==> Limit(k) < size) && (i < 9 ==> size <= Limit(i))
  {
    hide Filled, Before, Limit;
    out, i := "", 0;
    BeforeStart();
    assert all[0..] == all;
    while i < 9 && |out| + all[i].guard < size
      invariant 0 <= i <= 9 && Filled("", all, size) == Filled(out, all[i..], size)
      invariant |out| == Before(i) && forall k :: 0 <= k < i ==> Limit(k) < size
      decreases 9 - i
    {
      assert PartAt(all[i], i);
      FilledOne(out, all[i..], size);
      assert all[i..][1..] == all[i + 1..];
      out := out + all[i].text;
      i := i + 1;
    }
    assert i < 9 ==> PartAt(all[i], i);
    FilledEnd(out, all[i..], size);
  }

  predicate PartAt(p: Part, k: nat) {
    Before(k) + p.guard == Limit(k) && Before(k) + |p.text| == Before(k + 1)
  }

  lemma BeforeStart()
    ensures Before(0) == 0
  {
  }

  /** The lengths before the parts of the example, and the sizes that stop before them. */
  function Before(i: nat): nat {
    if i == 0 then 0 else if i == 1 then 10 else if i == 2 then 11 else if i == 3 then 19 else if i == 4 then 23
    else if i == 5 then 29 else if i == 6 then 35 else if i == 7 then 42 else if i == 8 then 45 else 46
  }

  function Limit(i: nat): nat {
    if i == 0 then 10 else if i == 1 then 15 else if i == 2 then 19 else if i == 3 then 24 else if i == 4 then 29
    else if i == 5 then 35 else if i == 6 then 42 else if i == 7 then 48 else 46
  }

  lemma FilledOne(out: string, parts: seq<Part>, size: nat)
    requires parts != [] && |out| + parts[0].guard < size
    ensures Filled(out, parts, size) == Filled(out + parts[0].text, parts[1..], size)
  {
  }

  lemma FilledEnd(out: string, parts: seq<Part>, size: nat)
    requires parts == [] || |out| + parts[0].guard >= size
    ensures Filled(out, parts, size) == out
  {
  }

  /** The room that an address is given, with its label. */
  lemma AddrCut(out: string, a: Addr, size: nat)
    requires WellSized(a) && a.l > 0
    ensures var t := AddrParts(Inet, a, ";LOCAL=");
            Filled(out, t, size) == if |out| + 28 < size then out + Whole(t) else out
    ensures var t := AddrParts(Inet, a, ";REMOTE=");
            Filled(out, t, size) == if |out| + 29 < size then out + Whole(t) else out
    ensures var t := AddrParts(Inet6, a, ";LOCAL=");
            Filled(out, t, size) == if |out| + 54 < size then out + Whole(t) else out
    ensures var t := AddrParts(Inet6, a, ";REMOTE=");
            Filled(out, t, size) == if |out| + 55 < size then out + Whole(t) else out
    ensures Filled(out, AddrParts(Unix, a, ";LOCAL="), size) ==
            if |out| + 7 >= size then out
            else if |out| + 7 + 128 >= size then out + ";LOCAL=" else out + ";LOCAL=" + a.path
    ensures Filled(out, AddrParts(Bth, a, ";LOCAL="), size) ==
            if |out| + 7 >= size then out
            else if |out| + 7 + 17 >= size then out + ";LOCAL=" else out + ";LOCAL=" + ToText(a.ba)
  {
    hide Ip4Text, Ip6Text, ToText, Filled, Whole;
    CutOne(out, 28, ";LOCAL=" + Ip4Text(a), size);
    CutOne(out, 29, ";REMOTE=" + Ip4Text(a), size);
    CutOne(out, 54, ";LOCAL=" + Ip6Text(a), size);
    CutOne(out, 55, ";REMOTE=" + Ip6Text(a), size);
    CutTwo(out, ";LOCAL=", 128, a.path, size);
    CutTwo(out, ";LOCAL=", 17, ToText(a.ba), size);
  }

  lemma CutOne(out: string, guard: nat, t: string, size: nat)
    ensures Whole([Part(guard, t)]) == t
    ensures Filled(out, [Part(guard, t)], size) == if |out| + guard < size then out + t else out
  {
    WholeOne(Part(guard, t));
    assert [Part(guard, t)][1..] == [];
    assert Filled(out + t, [], size) == out + t;
  }

  lemma CutTwo(out: string, tag: string, guard: nat, t: string, size: nat)
    ensures Filled(out, [Part(|tag|, tag), Part(guard, t)], size) ==
            if |out| + |tag| >= size then out
            else if |out| + |tag| + guard >= size then out + tag else out + tag + t
  {
    var parts := [Part(|tag|, tag), Part(guard, t)];
    assert parts[1..] == [Part(guard, t)];
    CutOne(out + tag, guard, t, size);
  }

  /** A descriptor of six digits overflows a buffer of 16 bytes. */
  lemma OverflowAt16(s: Sock)
    requires WellSized(s.local) && WellSized(s.remote) && s.handle == 100000
    ensures |Filled("", Parts(s), 16)| == 16
  {
    hide Parts, HeadParts, FieldText, Filled, ItoaText;
    SixDigits();
    HeadParts16(s);
    var all := Parts(s);
    FilledStep("", all, 16, "SOCKET(ID=");
    FilledStep("SOCKET(ID=", all[1..], 16, "SOCKET(ID=100000");
    FilledStops("SOCKET(ID=100000", all[1..][1..], 16);
  }

  lemma FilledStops(out: string, parts: seq<Part>, size: nat)
    requires |out| >= size
    ensures Filled(out, parts, size) == out
  {
  }

  lemma HeadParts16(s: Sock)
    requires WellSized(s.local) && WellSized(s.remote) && s.handle == 100000 && ItoaText(100000, 10) == "100000"
    ensures |Parts(s)| > 2 && Parts(s)[0] == Part(10, "SOCKET(ID=") && Parts(s)[1] == Part(5, "100000")
  {
    hide AddrParts, DomainField, KindField, ProtoField, ItoaText;
  }

  lemma SixDigits()
    ensures ItoaText(100000, 10) == "100000"
  {
    assert Digits(1, 10) == "1" && Digits(10, 10) == "10" && Digits(100, 10) == "100";
    assert Digits(1000, 10) == "1000" && Digits(10000, 10) == "10000" && Digits(100000, 10) == "100000";
  }
}

/** mod_sc_to_string. */
module Rendering {
  import opened CStrings
  import opened NumberRules
  import opened RenderRules
  import opened SocketText
  import BluetoothRules
  import Numbers

  /** The C string in memory is `out`, and the memory behind it is as it was in `before`. */
  ghost predicate Shown(str: array<char>, out: string, before: seq<char>)
    reads str
  {
    && |out| < str.Length == |before| && str[|out|] == NUL
    && (forall k :: 0 <= k < |out| ==> str[k] == out[k])
    && (forall k :: |out| < k < str.Length ==> str[k] == before[k])
  }

  /** my_strcpy to the end of what is there. */
  method Strcpy(str: array<char>, s1: nat, src: string, ghost out: string, ghost before: seq<char>) returns (end: nat)
    requires |out| == s1 && s1 + |src| < str.Length == |before|
    requires forall k :: 0 <= k < s1 ==> str[k] == out[k]
    requires forall k :: s1 < k < str.Length ==> str[k] == before[k]
    modifies str
    ensures end == s1 + |src| && Shown(str, out + src, before)
  {
    end := s1;
    while end < s1 + |src|
      invariant s1 <= end <= s1 + |src|
      invariant forall k :: 0 <= k < s1 ==> str[k] == out[k]
      invariant forall k :: s1 <= k < end ==> str[k] == src[k - s1]
      invariant forall k :: end <= k < str.Length && s1 < k ==> str[k] == before[k]
    {
      str[end] := src[end - s1];
      end := end + 1;
    }
    str[end] := NUL;
  }

  lemma ShownChars(str: array<char>, out: string, before: seq<char>)
    requires Shown(str, out, before)
    ensures |out| < str.Length == |before| && forall k :: 0 <= k < |out| ==> str[k] == out[k]
    ensures forall k :: |out| < k < str.Length ==> str[k] == before[k]
  {
  }

  /** A name or a number is written to the end of what is there. */
  method Put(str: array<char>, s1: nat, f: Field, ghost out: string, ghost before: seq<char>) returns (end: nat)
    requires |out| == s1 && s1 + |FieldText(f)| < str.Length && Shown(str, out, before)
    requires f.Number? ==> LONG_MIN <= f.v <= LONG_MAX
    modifies str
    ensures end == s1 + |FieldText(f)| && Shown(str, out + FieldText(f), before)
  {
    hide Shown, ItoaText;
    match f
    case Name(t) =>
      ShownChars(str, out, before);
      end := Strcpy(str, s1, t, out, before);
    case Number(v) =>
      end := PutNumber(str, s1, v, out, before);
  }

  method PutNumber(str: array<char>, s1: nat, v: int, ghost out: string, ghost before: seq<char>) returns (end: nat)
    requires |out| == s1 && s1 + |ItoaText(v, 10)| < str.Length && Shown(str, out, before)
    requires LONG_MIN <= v <= LONG_MAX
    modifies str
    ensures end == s1 + |ItoaText(v, 10)| && Shown(str, out + ItoaText(v, 10), before)
  {
    hide ItoaText;
    ScratchSuffices(10);
    end := Numbers.Itoa(str, s1, v, 10);
  }

  /** The text has come to `out`, and the parts `rest` are still to be written. */
  ghost predicate Progress(str: array<char>, s1: nat, size: nat, out: string, rest: seq<Part>, all: seq<Part>,
                           before: seq<char>)
    reads str
  {
    && |out| == s1 && Shown(str, out, before)
    && Filled("", all, size) == Filled(out, rest, size) && |Filled("", all, size)| < str.Length
  }

  /** The text has come to its end. */
  ghost predicate Finished(str: array<char>, s1: nat, size: nat, all: seq<Part>, before: seq<char>)
    reads str
  {
    && |Filled("", all, size)| == s1 && Shown(str, Filled("", all, size), before)
  }

  /** One part, if there is room for its guard. */
  method Step(str: array<char>, s1: nat, size: nat, guard: nat, f: Field,
              ghost out: string, ghost rest: seq<Part>, ghost all: seq<Part>, ghost before: seq<char>)
    returns (more: bool, end: nat)
    requires Progress(str, s1, size, out, rest, all, before) && rest != [] && rest[0] == Part(guard, FieldText(f))
    requires f.Number? ==> LONG_MIN <= f.v <= LONG_MAX
    modifies str
    ensures more ==> Progress(str, end, size, out + FieldText(f), rest[1..], all, before)
    ensures !more ==> Finished(str, end, size, all, before)
  {
    hide FieldText;
    if s1 + guard >= size {
      return false, s1;
    }
    FilledExtends(out + FieldText(f), rest[1..], size);
    end := Put(str, s1, f, out, before);
    more := true;
  }

  /** A label and a value, each with its own guard. */
  method PutField(str: array<char>, s1: nat, size: nat, tag: string, guard: nat, f: Field,
                  ghost out: string, ghost rest: seq<Part>, ghost all: seq<Part>, ghost before: seq<char>)
    returns (more: bool, end: nat, ghost out': string)
    requires Progress(str, s1, size, out, [Part(|tag|, tag), Part(guard, FieldText(f))] + rest, all, before)
    requires f.Number? ==> LONG_MIN <= f.v <= LONG_MAX
    modifies str
    ensures more ==> Progress(str, end, size, out', rest, all, before)
    ensures !more ==> Finished(str, end, size, all, before)
  {
    ghost var parts := [Part(|tag|, tag), Part(guard, FieldText(f))] + rest;
    assert parts[1..] == [Part(guard, FieldText(f))] + rest && parts[1..][1..] == rest;
    hide Progress, Finished, FieldText;
    out' := out;
    assert FieldText(Name(tag)) == tag by {
      NameText(tag);
    }
    more, end := Step(str, s1, size, |tag|, Name(tag), out, parts, all, before);
    if more {
      more, end := Step(str, end, size, guard, f, out + tag, parts[1..], all, before);
      out' := out + tag + FieldText(f);
    }
  }

  lemma NameText(t: string)
    ensures FieldText(Name(t)) == t
  {
  }

  /** An address, in the form of the domain. */
  method PutAddr(str: array<char>, s1: nat, size: nat, domain: Domain, a: Addr, tag: string,
                 ghost out: string, ghost rest: seq<Part>, ghost all: seq<Part>, ghost before: seq<char>)
    returns (more: bool, end: nat, ghost out': string)
    requires WellSized(a) && Progress(str, s1, size, out, AddrParts(domain, a, tag) + rest, all, before)
    modifies str
    ensures more ==> Progress(str, end, size, out', rest, all, before)
    ensures !more ==> Finished(str, end, size, all, before)
  {
    hide Progress, Finished, FieldText, Ip4Text, Ip6Text, BluetoothRules.ToText;
    NameText(tag + Ip4Text(a));
    NameText(tag + Ip6Text(a));
    NameText(a.path);
    NameText(BluetoothRules.ToText(a.ba));
    more, end, out' := true, s1, out;
    ghost var parts := AddrParts(domain, a, tag) + rest;
    if a.l != 0 {
      match domain
      case Inet =>
        assert parts[1..] == rest;
        more, end := Step(str, s1, size, |tag| + 21, Name(tag + Ip4Text(a)), out, parts, all, before);
        out' := out + (tag + Ip4Text(a));
      case Inet6 =>
        assert parts[1..] == rest;
        more, end := Step(str, s1, size, |tag| + 47, Name(tag + Ip6Text(a)), out, parts, all, before);
        out' := out + (tag + Ip6Text(a));
      case Unix =>
        more, end, out' := PutField(str, s1, size, tag, SOCKADDR_SIZE_MAX, Name(a.path), out, rest, all, before);
      case Bth =>
        more, end, out' := PutField(str, s1, size, tag, 17, Name(BluetoothRules.ToText(a.ba)), out, rest, all, before);
      case OtherDomain(_) =>
        assert parts == rest;
    } else {
      assert parts == rest;
    }
  }

  /** The numbers of a socket are longs. */
  predicate Longs(s: Sock) {
    forall f :: f in [IdField(s), DomainField(s), KindField(s), ProtoField(s)] && f.Number? ==>
      LONG_MIN <= f.v <= LONG_MAX
  }

  /** mod_sc_to_string in a buffer of `size` bytes that lies in the memory `str`: the text of the
      parts as far as their guards let it, its NUL exactly at the size that is reported, and not a
      byte written behind that. With numbers as small as the guards presume it ends in the buffer. */
  method ToString(s: Sock, str: array<char>, size: nat) returns (end: nat)
    requires 1 <= size <= str.Length && WellSized(s.local) && WellSized(s.remote) && Longs(s)
    requires |Filled("", Parts(s), size)| < str.Length
    modifies str
    ensures end == |Filled("", Parts(s), size)| && Shown(str, Filled("", Parts(s), size), old(str[..]))
    ensures SmallNumbers(s) ==> end < size
  {
    ghost var all, before := Parts(s), str[..];
    SafeIffSmall(s);
    if 10 >= size {
      str[0] := NUL;
      return 0;
    }
    FirstFits(all, size);
    end := PutAll(s, str, size, before);
  }

  lemma FirstFits(all: seq<Part>, size: nat)
    requires all != [] && all[0].guard < size
    ensures |all[0].text| <= |Filled("", all, size)|
  {
    FilledExtends("" + all[0].text, all[1..], size);
  }

  /** The parts one after the other; any guard may be the end. */
  method PutAll(s: Sock, str: array<char>, size: nat, ghost before: seq<char>) returns (end: nat)
    requires 10 < size && WellSized(s.local) && WellSized(s.remote) && Longs(s) && before == str[..]
    requires 10 <= |Filled("", Parts(s), size)| < str.Length
    modifies str
    ensures Finished(str, end, size, Parts(s), before)
  {
    ghost var all := Parts(s);
    end := Strcpy(str, 0, "SOCKET(ID=", "", before);
    ghost var local, remote := AddrParts(s.domain, s.local, ";LOCAL="), AddrParts(s.domain, s.remote, ";REMOTE=");
    ghost var close := [Part(1, ")")];
    Begun(str, end, size, s, before);
    PartsAre(s);
    hide *;
    var more;
    ghost var out := "SOCKET(ID=";
    more, end := Step(str, end, size, 5, IdField(s), out, all[1..], all, before);
    if !more {
      return;
    }
    out := out + FieldText(IdField(s));
    more, end, out := PutField(str, end, size, ";DOMAIN=", 5, DomainField(s), out, all[4..], all, before);
    if !more {
      return;
    }
    more, end, out := PutField(str, end, size, ";TYPE=", 6, KindField(s), out, all[6..], all, before);
    if !more {
      return;
    }
    more, end, out := PutField(str, end, size, ";PROTO=", 6, ProtoField(s), out, all[8..], all, before);
    if !more {
      return;
    }
    more, end, out := PutAddr(str, end, size, s.domain, s.local, ";LOCAL=", out, remote + close, all, before);
    if !more {
      return;
    }
    more, end, out := PutAddr(str, end, size, s.domain, s.remote, ";REMOTE=", out, close, all, before);
    if !more {
      return;
    }
    NameText(")");
    more, end := Step(str, end, size, 1, Name(")"), out, close, all, before);
    if more {
      LastPart(str, end, size, out + FieldText(Name(")")), close, all, before);
    }
  }

  lemma LastPart(str: array<char>, end: nat, size: nat, out: string, close: seq<Part>, all: seq<Part>,
                 before: seq<char>)
    requires |close| == 1 && Progress(str, end, size, out, close[1..], all, before)
    ensures Finished(str, end, size, all, before)
  {
  }

  /** The parts by their places. */
  lemma PartsAre(s: Sock)
    requires WellSized(s.local) && WellSized(s.remote)
    ensures var all := Parts(s);
            var local, remote := AddrParts(s.domain, s.local, ";LOCAL="), AddrParts(s.domain, s.remote, ";REMOTE=");
            && |all| >= 9 && all[1] == Part(5, FieldText(IdField(s))) && all[1..][1..] == all[2..]
            && all[2..] == [Part(|";DOMAIN="|, ";DOMAIN="), Part(5, FieldText(DomainField(s)))] + all[4..]
            && all[4..] == [Part(|";TYPE="|, ";TYPE="), Part(6, FieldText(KindField(s)))] + all[6..]
            && all[6..] == [Part(|";PROTO="|, ";PROTO="), Part(6, FieldText(ProtoField(s)))] + all[8..]
            && all[8..] == local + (remote + [Part(1, ")")])
  {
    hide FieldText, AddrParts, IdField, DomainField, KindField, ProtoField;
  }

  lemma Begun(str: array<char>, end: nat, size: nat, s: Sock, before: seq<char>)
    requires WellSized(s.local) && WellSized(s.remote) && |Filled("", Parts(s), size)| < str.Length
    requires end == 10 < size && Shown(str, "" + "SOCKET(ID=", before)
    ensures Progress(str, end, size, "SOCKET(ID=", Parts(s)[1..], Parts(s), before)
  {
    hide AddrParts, FieldText;
    assert "" + "SOCKET(ID=" == "SOCKET(ID=";
    assert Parts(s)[0] == Part(10, "SOCKET(ID=");
  }

  /** Six digits of a descriptor in a buffer of 16 bytes: the NUL is written behind it. */
  method OverflowExample(s: Sock, str: array<char>) returns (end: nat)
    requires WellSized(s.local) && WellSized(s.remote) && Longs(s) && s.handle == 100000 && str.Length == 17
    modifies str
    ensures end == 16 && str[16] == NUL
  {
    OverflowAt16(s);
    hide Filled, Parts, SmallNumbers;
    end := ToString(s, str, 16);
  }
}
