/** Bluetooth addresses as text: six bytes in hexadecimal, the last one first. */
module BluetoothRules {
  import opened CStrings
  import opened NumberRules
  import opened Wrappers

  const BYTES: nat := 6

  /** Bytes with colons between them. */
  function Joined(bs: seq<Byte>): (s: string)
    requires bs != []
    ensures |s| == 3 * |bs| - 1
  {
    if |bs| == 1 then HexByte(bs[0]) else HexByte(bs[0]) + ":" + Joined(bs[1..])
  }

  /** my_ba2str. */
  function ToText(b: seq<Byte>): (s: string)
    requires |b| == BYTES
    ensures |s| == 17
  {
    Joined([b[5], b[4], b[3], b[2], b[1], b[0]])
  }

  predicate IsSpace(c: char) {
    c == ' ' || 9 <= c as int <= 13
  }

  /** The number of hexadecimal digits that `s` starts with. */
  function HexLength(s: string): (n: nat)
    ensures n <= |s|
  {
    if s == "" || !IsHex(s[0]) then 0 else 1 + HexLength(s[1..])
  }

  /** The number that `s` starts with, after 0x if there is a digit after it. */
  function Magnitude(s: string): nat {
    var t := if |s| >= 3 && s[0] == '0' && s[1] in {'x', 'X'} && IsHex(s[2]) then s[2..] else s;
    Value(t[..HexLength(t)], 16)
  }

  function Clamp(v: int): int {
    if v < LONG_MIN then LONG_MIN else if v > LONG_MAX then LONG_MAX else v
  }

  /** strtol(s, NULL, 16). */
  function StrToL(s: string): int {
    if s == "" then 0
    else if IsSpace(s[0]) then StrToL(s[1..])
    else if s[0] == '-' then Clamp(-(Magnitude(s[1..]) as int))
    else if s[0] == '+' then Clamp(Magnitude(s[1..]))
    else Clamp(Magnitude(s))
  }

  /** The cast to an unsigned byte. */
  function ByteOf(v: int): Byte {
    v % 256
  }

  function Colon(s: string): (c: nat)
    ensures c <= |s|
  {
    IndexOf(s, ':')
  }

  const NO_MORE: string := "00:00:00:00:00"

  /** What is read after the next colon; zeros if there is none. */
  function Next(s: string): string {
    if Colon(s) < |s| then s[Colon(s) + 1..] else NO_MORE
  }

  /** The first `n` fields of a text. */
  function Fields(s: string, n: nat): (f: seq<Byte>)
    ensures |f| == n
    decreases n
  {
    if n == 0 then [] else [ByteOf(StrToL(s))] + Fields(Next(s), n - 1)
  }

  /** A field of two digits, with more fields behind it or none. */
  lemma FieldOfByte(v: Byte, more: string)
    ensures var s := HexByte(v) + ":" + more; ByteOf(StrToL(s)) == v && Next(s) == more
    ensures ByteOf(StrToL(HexByte(v))) == v
  {
    hide Value, HexByte, StrToL, Next;
    var h := HexByte(v);
    ByteValue(v);
    TwoDigits(h, ":" + more);
    TwoDigits(h, "");
    assert h + (":" + more) == h + ":" + more && h + "" == h;
    ColonAfterTwo(h, more);
  }

  lemma ByteValue(v: Byte)
    ensures var h := HexByte(v); |h| == 2 && IsHex(h[0]) && IsHex(h[1]) && Value(h, 16) == v
  {
    ValueOfByte("", v);
    assert "" + HexByte(v) == HexByte(v);
    hide Value;
  }

  lemma ColonAfterTwo(h: string, more: string)
    requires |h| == 2 && IsHex(h[0]) && IsHex(h[1])
    ensures Next(h + ":" + more) == more
  {
    var s := h + ":" + more;
    assert s[0] == h[0] && s[1] == h[1] && s[2] == ':';
    FirstAt(s, ':', 2);
    assert s[3..] == more;
  }

  lemma TwoDigits(h: string, t: string)
    requires |h| == 2 && IsHex(h[0]) && IsHex(h[1]) && (t == "" || t[0] == ':')
    ensures StrToL(h + t) == Clamp(Value(h, 16))
  {
    var s := h + t;
    assert s[0] == h[0] && s[1] == h[1] && s[1..][0] == h[1] && s[1..][1..] == t;
    assert HexLength(t) == 0 && HexLength(s[1..]) == 1 && HexLength(s) == 2;
    assert s[..2] == h;
    hide Value;
  }

  /** For a null pointer, zeros are read. */
  function TextOf(str: Option<string>): string {
    if str.Some? then str.value else "00:00:00:00:00:00"
  }

  /** The bytes as my_str2ba stores them. */
  function FromText(str: Option<string>): (b: seq<Byte>)
    ensures |b| == BYTES
  {
    var f := Fields(TextOf(str), BYTES);
    [f[5], f[4], f[3], f[2], f[1], f[0]]
  }

  lemma FieldsStep(s: string, n: nat)
    requires n > 0
    ensures Fields(s, n) == [ByteOf(StrToL(s))] + Fields(Next(s), n - 1)
  {
  }

  lemma JoinedStep(bs: seq<Byte>)
    requires bs != []
    ensures Joined(bs) == if |bs| == 1 then HexByte(bs[0]) else HexByte(bs[0]) + ":" + Joined(bs[1..])
    ensures bs == [bs[0]] + bs[1..]
  {
    hide HexByte;
  }

  lemma {:induction false} FieldsOfJoined(bs: seq<Byte>)
    requires bs != []
    ensures Fields(Joined(bs), |bs|) == bs
  {
    hide *;
    FieldOfByte(bs[0], if |bs| == 1 then "" else Joined(bs[1..]));
    FieldsStep(Joined(bs), |bs|);
    JoinedStep(bs);
    if |bs| > 1 {
      FieldsOfJoined(bs[1..]);
    }
  }

  lemma FromTextIs(str: Option<string>, b: seq<Byte>)
    requires |b| == BYTES
    requires Fields(TextOf(str), BYTES) == [b[5], b[4], b[3], b[2], b[1], b[0]]
    ensures FromText(str) == b
  {
    hide Fields, TextOf;
  }

  /** Reading inverts printing for every address. */
  lemma RoundTrip(b: seq<Byte>)
    requires |b| == BYTES
    ensures FromText(Some(ToText(b))) == b
  {
    hide Joined, Fields, StrToL, HexByte;
    FieldsOfJoined([b[5], b[4], b[3], b[2], b[1], b[0]]);
    FromTextIs(Some(ToText(b)), b);
  }

  /** An address as it is printed: the last byte first. */
  lemma ToTextIs(b: seq<Byte>)
    requires |b| == BYTES
    ensures ToText(b) == HexByte(b[5]) + ":" + HexByte(b[4]) + ":" + HexByte(b[3]) + ":" + HexByte(b[2]) + ":" +
                         HexByte(b[1]) + ":" + HexByte(b[0])
  {
    hide HexByte, Joined;
    JoinedMore(b[5], [b[4], b[3], b[2], b[1], b[0]]);
    JoinedMore(b[4], [b[3], b[2], b[1], b[0]]);
    JoinedMore(b[3], [b[2], b[1], b[0]]);
    JoinedMore(b[2], [b[1], b[0]]);
    JoinedMore(b[1], [b[0]]);
    JoinedStep([b[0]]);
    assert [b[5], b[4], b[3], b[2], b[1], b[0]] == [b[5]] + [b[4], b[3], b[2], b[1], b[0]];
    assert [b[4], b[3], b[2], b[1], b[0]] == [b[4]] + [b[3], b[2], b[1], b[0]];
    assert [b[3], b[2], b[1], b[0]] == [b[3]] + [b[2], b[1], b[0]];
    assert [b[2], b[1], b[0]] == [b[2]] + [b[1], b[0]] && [b[1], b[0]] == [b[1]] + [b[0]];
  }

  /** What else strtol reads: blanks and a sign in front, a prefix if there is a digit behind it, and no
      further than the digits go. */
  lemma StrToLExamples()
    ensures StrToL("") == 0 && StrToL("g1") == 0 && StrToL("0xg") == 0
    ensures StrToL("7g") == 7 && StrToL(" 7") == 7 && StrToL("\t7") == 7 && StrToL("+7") == 7
    ensures StrToL("-1") == -1 && ByteOf(-1) == 255 && ByteOf(0x1FF) == 255
    ensures StrToL("0x7") == 7 && StrToL("0X7") == 7
  {
    hide Value;
    ValueOfOne('7', 16);
    ValueOfOne('0', 16);
    ValueOfOne('1', 16);
    ValueNone(16);
    MagnitudeExamples();
    assert " 7"[1..] == "7" && "\t7"[1..] == "7" && "+7"[1..] == "7" && "-1"[1..] == "1";
  }

  lemma MagnitudeExamples()
    ensures Magnitude("g1") == 0 && Magnitude("0xg") == 0 && Magnitude("7g") == 7 && Magnitude("7") == 7
    ensures Magnitude("1") == 1 && Magnitude("0x7") == 7 && Magnitude("0X7") == 7
  {
    hide Value;
    ValueOfOne('7', 16);
    ValueOfOne('0', 16);
    ValueOfOne('1', 16);
    ValueNone(16);
    assert "0x7"[2..] == "7" && "0X7"[2..] == "7" && "7"[1..] == "" && "1"[1..] == "" && "7g"[1..] == "g";
    assert "0xg"[1..] == "xg";
    assert HexLength("") == 0 && HexLength("g") == 0 && HexLength("xg") == 0 && HexLength("g1") == 0;
    assert HexLength("7") == 1 && HexLength("1") == 1 && HexLength("7g") == 1 && HexLength("0xg") == 1;
    assert "7"[..1] == ['7'] && "1"[..1] == ['1'] && "7g"[..1] == ['7'] && "0xg"[..1] == ['0'] && "g1"[..0] == [];
  }

  /** `n` pairs of hexadecimal digits, in any case, with colons between them. */
  predicate Pairs(s: string, n: nat) {
    n > 0 && |s| == 3 * n - 1 && IsHex(s[0]) && IsHex(s[1]) && (n > 1 ==> s[2] == ':' && Pairs(s[3..], n - 1))
  }

  function Upper(s: string): (r: string)
    ensures |r| == |s|
  {
    seq(|s|, i requires 0 <= i < |s| => if 'a' <= s[i] <= 'z' then (s[i] as int - 32) as char else s[i])
  }

  lemma FieldOfPair(h: string, more: string)
    requires |h| == 2 && IsHex(h[0]) && IsHex(h[1])
    ensures var s := h + ":" + more; HexByte(ByteOf(StrToL(s))) == Upper(h) && Next(s) == more
    ensures HexByte(ByteOf(StrToL(h))) == Upper(h)
  {
    hide Value, StrToL, Next, HexByte, Upper, Clamp, ByteOf, IsHex;
    TwoDigits(h, ":" + more);
    TwoDigits(h, "");
    assert h + (":" + more) == h + ":" + more && h + "" == h;
    ColonAfterTwo(h, more);
    PairValue(h);
    SmallByte(Value(h, 16));
  }

  lemma SmallByte(v: int)
    ensures 0 <= v < 256 ==> ByteOf(Clamp(v)) == v
  {
  }

  lemma PairValue(h: string)
    requires |h| == 2 && IsHex(h[0]) && IsHex(h[1])
    ensures 0 <= Value(h, 16) < 256 && HexByte(Value(h, 16)) == Upper(h)
  {
    hide Value, DigitOf, DigitChar, IsHex, Upper, HexByte;
    ValueOfPair(h);
    DigitAgain(h[0]);
    DigitAgain(h[1]);
    ByteOfDigits(DigitOf(h[0]), DigitOf(h[1]));
    UpperPair(h);
  }

  lemma ValueOfPair(h: string)
    requires |h| == 2
    ensures Value(h, 16) == DigitOf(h[0]) * 16 + DigitOf(h[1])
  {
    hide Value, DigitOf;
    ValueOfOne(h[0], 16);
    ValueAppend([h[0]], h[1], 16);
    assert h == [h[0]] + [h[1]];
  }

  lemma ByteOfDigits(a: nat, b: nat)
    requires a < 16 && b < 16
    ensures HexByte(a * 16 + b) == [DigitChar(a), DigitChar(b)]
  {
    assert (a * 16 + b) / 16 == a && (a * 16 + b) % 16 == b;
    hide DigitChar;
  }

  lemma UpperPair(h: string)
    requires |h| == 2
    ensures Upper(h) == [if 'a' <= h[0] <= 'z' then (h[0] as int - 32) as char else h[0],
                         if 'a' <= h[1] <= 'z' then (h[1] as int - 32) as char else h[1]]
  {
  }

  lemma DigitAgain(c: char)
    requires IsHex(c)
    ensures DigitOf(c) < 16 && DigitChar(DigitOf(c)) == if 'a' <= c <= 'z' then (c as int - 32) as char else c
  {
  }

  lemma {:induction false} JoinedOfFields(s: string, n: nat)
    requires Pairs(s, n)
    ensures Joined(Fields(s, n)) == Upper(s)
    decreases n
  {
    hide *;
    FirstPair(s, n);
    if n == 1 {
      JoinedStep(Fields(s, n));
    } else {
      JoinedOfFields(s[3..], n - 1);
      JoinedMore(ByteOf(StrToL(s)), Fields(s[3..], n - 1));
      UpperParts(s[..2], s[3..]);
    }
  }

  lemma FirstPair(s: string, n: nat)
    requires Pairs(s, n)
    ensures n > 0 && |s| >= 2
    ensures n == 1 ==> Fields(s, n) == [ByteOf(StrToL(s))] && HexByte(ByteOf(StrToL(s))) == Upper(s)
    ensures n > 1 ==>
              && |s| > 3 && s == s[..2] + ":" + s[3..] && Pairs(s[3..], n - 1)
              && Fields(s, n) == [ByteOf(StrToL(s))] + Fields(s[3..], n - 1)
              && HexByte(ByteOf(StrToL(s))) == Upper(s[..2])
  {
    hide HexByte, StrToL, Next, ByteOf, IsHex, Upper;
    var h := s[..2];
    FieldOfPair(h, if n > 1 then s[3..] else "");
    FieldsStep(s, n);
    if n > 1 {
      assert s == h + ":" + s[3..];
    } else {
      assert s == h;
    }
  }

  lemma JoinedMore(v: Byte, more: seq<Byte>)
    requires more != []
    ensures Joined([v] + more) == HexByte(v) + ":" + Joined(more)
  {
    hide HexByte;
    assert ([v] + more)[1..] == more;
  }

  lemma UpperParts(h: string, more: string)
    ensures Upper(h + ":" + more) == Upper(h) + ":" + Upper(more)
  {
  }

  /** Printing inverts reading, up to the case of the digits, for every text of six pairs. */
  lemma ReadThenPrinted(s: string)
    requires Pairs(s, BYTES)
    ensures ToText(FromText(Some(s))) == Upper(s)
  {
    hide Joined, Fields, Upper, Pairs;
    JoinedOfFields(s, BYTES);
    var f := Fields(s, BYTES);
    assert f == [f[0], f[1], f[2], f[3], f[4], f[5]];
  }

  function Colons(s: string): nat {
    if s == "" then 0 else (if s[0] == ':' then 1 else 0) + Colons(s[1..])
  }

  lemma {:induction false} ColonsAfter(s: string)
    ensures if Colon(s) < |s| then Colons(s) == 1 + Colons(s[Colon(s) + 1..]) else Colons(s) == 0
  {
    if s != "" && s[0] != ':' {
      ColonsAfter(s[1..]);
      if Colon(s) < |s| {
        assert s[1..][Colon(s)..] == s[Colon(s) + 1..];
      }
    }
  }

  /** Text whose fields are all 00. */
  predicate ZeroText(s: string) {
    s == "00" || (|s| >= 3 && s[..3] == "00:" && ZeroText(s[3..]))
  }

  lemma NoMoreIsZero()
    ensures ZeroText(NO_MORE)
  {
    assert NO_MORE[3..] == "00:00:00:00" && "00:00:00:00"[3..] == "00:00:00" && "00:00:00"[3..] == "00:00"
           && "00:00"[3..] == "00";
    assert ZeroText("00:00") && ZeroText("00:00:00") && ZeroText("00:00:00:00");
  }

  lemma ZeroField(s: string)
    requires ZeroText(s)
    ensures ByteOf(StrToL(s)) == 0 && ZeroText(Next(s))
  {
    hide Next, ByteOf, StrToL, HexByte;
    FieldOfByte(0, if s == "00" then "" else s[3..]);
    ZeroByte();
    if s == "00" {
      NextOfZero();
      NoMoreIsZero();
    } else {
      assert s == "00" + ":" + s[3..];
    }
  }

  lemma ZeroByte()
    ensures HexByte(0) == "00"
  {
  }

  lemma NextOfZero()
    ensures Next("00") == NO_MORE
  {
    assert "00"[1..] == "0" && "0"[1..] == "";
    assert Colon("") == 0 && Colon("0") == 1 && Colon("00") == 2;
  }

  lemma {:induction false} ZeroFields(s: string, n: nat, k: nat)
    requires ZeroText(s) && k < n
    ensures Fields(s, n)[k] == 0
    decreases n
  {
    hide *;
    ZeroField(s);
    FieldsStep(s, n);
    if k > 0 {
      ZeroFields(Next(s), n - 1, k - 1);
    }
  }

  lemma AfterColon(s: string)
    ensures Colon(s) < |s| ==> Colons(Next(s)) + 1 == Colons(s)
    ensures Colon(s) >= |s| ==> ZeroText(Next(s))
  {
    hide Colon, Colons, ZeroText;
    ColonsAfter(s);
    NoMoreIsZero();
  }

  /** The fields that a text lacks are zero. */
  lemma {:induction false} MissingIsZero(s: string, n: nat, k: nat)
    requires Colons(s) < k < n
    ensures Fields(s, n)[k] == 0
    decreases n
  {
    hide StrToL, ZeroText, Fields, Colon, Colons, Next, ByteOf;
    AfterColon(s);
    FieldsStep(s, n);
    if Colon(s) < |s| {
      MissingIsZero(Next(s), n - 1, k - 1);
    } else {
      ZeroFields(Next(s), n - 1, k - 1);
    }
  }
}

/** my_str2ba. */
module Bluetooth {
  import opened NumberRules
  import opened BluetoothRules
  import opened Wrappers

  /** strchr for the colon; -1 if there is none. */
  method Strchr(s: string) returns (p: int)
    ensures p == if Colon(s) == |s| then -1 else Colon(s)
  {
    p := 0;
    while p < |s| && s[p] != ':'
      invariant 0 <= p <= |s| && Colon(s) == p + Colon(s[p..])
    {
      p := p + 1;
    }
    if p == |s| {
      p := -1;
    }
  }

  method StrToBa(str: Option<string>, b: array<Byte>)
    requires b.Length == BYTES
    modifies b
    ensures b[..] == FromText(str)
  {
    hide StrToL, Next, Fields, ByteOf, TextOf, FromText;
    var ptr := TextOf(str);
    ghost var f := Fields(ptr, BYTES);
    assert f[0..] == f;
    for i := 0 to BYTES
      invariant i < BYTES ==> Fields(ptr, BYTES - i) == f[i..]
      invariant forall k :: 0 <= k < i ==> b[5 - k] == f[k]
    {
      FieldsStep(ptr, BYTES - i);
      b[5 - i] := ByteOf(StrToL(ptr));
      assert f[i..][0] == f[i] && f[i..][1..] == f[i + 1..];
      if i != 5 {
        ptr := Rest(ptr);
      }
    }
    assert b[5 - 0] == f[0] && b[5 - 1] == f[1] && b[5 - 2] == f[2] && b[5 - 3] == f[3] && b[5 - 4] == f[4]
           && b[5 - 5] == f[5];
    assert f == [b[5], b[4], b[3], b[2], b[1], b[0]];
    FromTextIs(str, b[..]);
  }

  /** The step to the next field. */
  method Rest(s: string) returns (ptr: string)
    ensures ptr == Next(s)
  {
    var p := Strchr(s);
    ptr := if p < 0 then ":00:00:00:00:00" else s[p..];
    ptr := ptr[1..];
  }
}
