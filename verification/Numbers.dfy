/** Numbers in positional notation. */
module NumberRules {
  const LONG_MAX: int := 0x7FFF_FFFF_FFFF_FFFF
  const LONG_MIN: int := -0x8000_0000_0000_0000

  function Pow(b: nat, k: nat): (r: nat)
    ensures b > 0 ==> r > 0
  {
    if k == 0 then 1 else b * Pow(b, k - 1)
  }

  /** The digit of a value below 16. */
  function DigitChar(d: nat): (c: char)
    requires d < 16
    ensures '0' <= c <= '9' || 'A' <= c <= 'F'
  {
    ((if d < 10 then '0' as int else 'A' as int - 10) + d) as char
  }

  function DigitOf(c: char): nat {
    if '0' <= c <= '9' then c as int - '0' as int
    else if 'A' <= c <= 'F' then c as int - 'A' as int + 10
    else if 'a' <= c <= 'f' then c as int - 'a' as int + 10
    else 0
  }

  function Quot(n: nat, b: nat): (q: nat)
    requires b > 0
    ensures n < b ==> q == 0
    ensures 2 <= b <= n ==> 0 < q < n
    ensures q <= n
  {
    Divided(n, b);
    n / b
  }

  function Rem(n: nat, b: nat): (r: nat)
    requires b > 0
    ensures r < b && (n < b ==> r == n)
  {
    n % b
  }

  lemma Divided(n: nat, b: nat)
    requires b > 0
    ensures n / b * b + n % b == n && n / b <= n
    ensures n < b ==> n / b == 0
    ensures 2 <= b <= n ==> 0 < n / b < n
  {
    if 2 <= b <= n {
      DivSmaller(n, b);
    }
  }

  /** The digits of a number, at least one. */
  function Digits(n: nat, b: nat): (s: string)
    requires 2 <= b <= 16
    ensures |s| > 0 && forall c :: c in s ==> '0' <= c <= '9' || 'A' <= c <= 'F'
    decreases n
  {
    if n < b then [DigitChar(n)] else Digits(Quot(n, b), b) + [DigitChar(Rem(n, b))]
  }

  function Value(s: string, b: nat): nat {
    if s == "" then 0 else Value(s[..|s| - 1], b) * b + DigitOf(s[|s| - 1])
  }

  lemma DigitBack(d: nat)
    requires d < 16
    ensures DigitOf(DigitChar(d)) == d
  {
  }

  lemma ValueAppend(s: string, c: char, b: nat)
    ensures Value(s + [c], b) == Value(s, b) * b + DigitOf(c)
  {
    assert (s + [c])[..|s|] == s;
  }

  lemma DivSmaller(n: nat, b: nat)
    requires 2 <= b <= n
    ensures n / b < n
  {
    MulOrder(n, 2, b);
    DivBound(n, b, n);
  }

  lemma ValueOfMore(n: nat, b: nat)
    requires 2 <= b <= 16 && b <= n && Value(Digits(Quot(n, b), b), b) == Quot(n, b)
    ensures Value(Digits(n, b), b) == n
  {
    var q, r := Quot(n, b), Rem(n, b);
    assert Digits(n, b) == Digits(q, b) + [DigitChar(r)];
    ValueAppend(Digits(q, b), DigitChar(r), b);
    DigitBack(r);
    Divided(n, b);
    hide Digits, Value, DigitOf, DigitChar;
  }

  /** The value of the digits is the number. */
  lemma {:induction false} ValueOfDigits(n: nat, b: nat)
    requires 2 <= b <= 16
    ensures Value(Digits(n, b), b) == n
    decreases n
  {
    hide Quot, Rem;
    if n < b {
      ValueAppend("", DigitChar(n), b);
      DigitBack(n);
      assert "" + [DigitChar(n)] == Digits(n, b);
    } else {
      ValueOfDigits(Quot(n, b), b);
      ValueOfMore(n, b);
    }
  }

  /** A number below a power of the base has no more digits than that. */
  lemma {:induction false} DigitsBound(n: nat, b: nat, k: nat)
    requires 2 <= b <= 16 && n < Pow(b, k) && k > 0
    ensures |Digits(n, b)| <= k
    decreases k
  {
    if n >= b {
      assert k > 1 by {
        assert Pow(b, 1) == b * Pow(b, 0);
      }
      DivBound(n, b, Pow(b, k - 1));
      DigitsBound(Quot(n, b), b, k - 1);
    }
  }

  /** A number from a power of the base on has more digits than that. */
  lemma {:induction false} DigitsLonger(n: nat, b: nat, k: nat)
    requires 2 <= b <= 16 && n >= Pow(b, k)
    ensures |Digits(n, b)| > k
    decreases k
  {
    if k > 0 {
      QuotAtLeast(n, b, Pow(b, k - 1));
      DigitsLonger(Quot(n, b), b, k - 1);
    }
  }

  lemma QuotAtLeast(n: nat, b: nat, m: nat)
    requires b > 0 && n >= b * m
    ensures Quot(n, b) >= m && (m > 0 ==> n >= b)
  {
    Divided(n, b);
    var q := n / b;
    assert b * (q + 1) == q * b + b;
    if q < m {
      MulOrder(b, q + 1, m);
    }
    if m > 0 {
      MulOrder(b, 1, m);
    }
  }

  lemma DivBound(n: nat, b: nat, m: nat)
    requires b > 0 && n < b * m
    ensures n / b < m
  {
    if n / b >= m {
      MulOrder(b, m, n / b);
    }
  }

  lemma MulOrder(b: nat, m: nat, q: nat)
    requires m <= q
    ensures b * m <= b * q
  {
  }

  /** The text of an integer in base 10. */
  function Decimal(v: int): string {
    if v < 0 then "-" + Digits(-v, 10) else Digits(v, 10)
  }

  /** What a signed number in some base stands for. */
  function Parsed(s: string, b: nat): int {
    if s != "" && s[0] == '-' then -(Value(s[1..], b) as int) else Value(s, b)
  }

  lemma ParsedDigits(n: nat, b: nat)
    requires 2 <= b <= 16
    ensures Parsed(Digits(n, b), b) == n && Parsed("-" + Digits(n, b), b) == -(n as int)
  {
    hide Digits, Value;
    ValueOfDigits(n, b);
    var d := Digits(n, b);
    assert d[0] in d;
    assert ("-" + d)[1..] == d;
  }

  /** `-value` and the remainders of C in two's complement: the minimum is its own negative. */
  function Negated(v: int): int {
    if v == LONG_MIN then LONG_MIN else -v
  }

  function CDiv(a: int, b: nat): int
    requires b > 0
  {
    if a >= 0 then Quot(a, b) else -(Quot(-a, b) as int)
  }

  function CMod(a: int, b: nat): int
    requires b > 0
  {
    if a >= 0 then Rem(a, b) else -(Rem(-a, b) as int)
  }

  function Reversed(s: string): string {
    if s == "" then "" else Reversed(s[1..]) + [s[0]]
  }

  lemma {:induction false} ReversedAt(s: string, k: nat)
    ensures |Reversed(s)| == |s| && (k < |s| ==> Reversed(s)[k] == s[|s| - 1 - k])
  {
    if s != "" {
      ReversedAt(s[1..], if k < |s| - 1 then k else 0);
    }
  }

  lemma ReversedAppend(s: string, c: char)
    ensures Reversed(s + [c]) == [c] + Reversed(s)
  {
    if s == "" {
      assert "" + [c] == [c];
    } else {
      assert (s + [c])[1..] == s[1..] + [c];
      ReversedAppend(s[1..], c);
    }
  }

  /** The bases whose digits my_itoa prints as such. */
  predicate RadixOk(b: nat) {
    2 <= b <= 10 || b == 16
  }

  /** The one character that comes of the minimum of a long, whose negative is itself: the remainder
      of the one round that is done is negative. */
  function EdgeChar(radix: nat): (c: char)
    requires RadixOk(radix)
    ensures c <= '0'
  {
    if radix == 16 then '0' else ('0' as int - Rem(-LONG_MIN, radix)) as char
  }

  /** What my_itoa prints. The minimum comes out wrong, and in base 16 there is never a sign. */
  function ItoaText(v: int, radix: nat): string
    requires RadixOk(radix)
  {
    if v == LONG_MIN then if radix == 16 then "0" else ['-', EdgeChar(radix)]
    else if radix == 16 then Digits(if v < 0 then -v else v, 16)
    else if v < 0 then "-" + Digits(-v, radix)
    else Digits(v, radix)
  }

  /** The text is read back as the argument exactly if that is not the minimum nor, in base 16,
      negative. */
  lemma ItoaParsesBack(v: int, radix: nat)
    requires LONG_MIN <= v <= LONG_MAX && RadixOk(radix)
    ensures Parsed(ItoaText(v, radix), radix) == v <==> v != LONG_MIN && (radix == 16 ==> v >= 0)
  {
    hide Value, EdgeChar, Digits, Parsed;
    if v == LONG_MIN {
      EdgeValue(EdgeChar(radix), radix);
    } else {
      ParsedDigits(if v < 0 then -v else v, radix);
    }
  }

  lemma EdgeValue(c: char, b: nat)
    requires c <= '0'
    ensures Parsed(['-', c], b) == 0 && Parsed(['0'], b) == 0
  {
    hide Value;
    assert ['-', c][1..] == [c];
    ValueOfOne(c, b);
    ValueOfOne('0', b);
  }

  lemma ValueOfOne(c: char, b: nat)
    ensures Value([c], b) == DigitOf(c)
  {
    hide Value;
    ValueNone(b);
    ValueAppend([], c, b);
    assert [] + [c] == [c];
  }

  lemma ValueNone(b: nat)
    ensures Value([], b) == 0
  {
  }

  /** The size of the scratch array of my_itoa. */
  const SCRATCH: nat := 21

  /** The text of every long has room in the scratch array exactly from base 9 on. */
  lemma ScratchSuffices(b: nat)
    requires RadixOk(b)
    ensures (forall v :: LONG_MIN <= v <= LONG_MAX ==> |ItoaText(v, b)| <= SCRATCH) <==> b >= 9
  {
    hide Digits, Pow, EdgeChar;
    if b >= 9 {
      forall v | LONG_MIN < v <= LONG_MAX
        ensures |ItoaText(v, b)| <= SCRATCH
      {
        LongDigits(if v < 0 then -v else v, b);
      }
    } else {
      LongestDigits(b);
      assert |ItoaText(-LONG_MAX, b)| > SCRATCH;
    }
  }

  lemma LongDigits(n: nat, b: nat)
    requires n <= LONG_MAX && 9 <= b <= 16
    ensures |Digits(n, b)| <= 20
  {
    PowGrows(9, b, 20);
    PowNine();
    DigitsBound(n, b, 20);
  }

  lemma LongestDigits(b: nat)
    requires 2 <= b <= 8
    ensures |Digits(LONG_MAX, b)| >= 21
  {
    PowGrows(b, 8, 20);
    PowEight();
    DigitsLonger(LONG_MAX, b, 20);
  }

  lemma PowNine()
    ensures Pow(9, 20) == 12157665459056928801
  {
    assert Pow(9, 5) == 59049 && Pow(9, 10) == 3486784401 && Pow(9, 15) == 205891132094649;
  }

  lemma PowEight()
    ensures Pow(8, 20) == 0x1000_0000_0000_0000
  {
    assert Pow(8, 5) == 0x8000 && Pow(8, 10) == 0x4000_0000 && Pow(8, 15) == 0x2000_0000_0000;
  }

  lemma {:induction false} PowGrows(a: nat, b: nat, k: nat)
    requires a <= b
    ensures Pow(a, k) <= Pow(b, k)
  {
    if k > 0 {
      PowGrows(a, b, k - 1);
      MulOrder(a, Pow(a, k - 1), Pow(b, k - 1));
      MulOrder(Pow(b, k - 1), a, b);
    }
  }

  lemma PowTen()
    ensures Pow(10, 5) == 100000 && Pow(10, 6) == 1000000 && Pow(10, 19) == 10000000000000000000
    ensures Pow(10, 20) == 100000000000000000000
  {
    assert Pow(10, 5) == 100000;
    assert Pow(10, 10) == 10000000000;
    assert Pow(10, 15) == 1000000000000000;
  }

  lemma PowSixteen()
    ensures Pow(16, 16) == 0x1_0000_0000_0000_0000
  {
    assert Pow(16, 8) == 0x1_0000_0000;
  }

  predicate IsHex(c: char) {
    '0' <= c <= '9' || 'A' <= c <= 'F' || 'a' <= c <= 'f'
  }

  type Byte = v: int | 0 <= v < 256

  /** The two digits of a byte. */
  function HexByte(v: Byte): (s: string)
    ensures |s| == 2 && IsHex(s[0]) && IsHex(s[1])
  {
    [DigitChar(v / 16), DigitChar(v % 16)]
  }

  lemma ValueOfByte(s: string, v: Byte)
    ensures Value(s + HexByte(v), 16) == Value(s, 16) * 256 + v
  {
    var a, b := DigitChar(v / 16), DigitChar(v % 16);
    assert s + HexByte(v) == s + [a] + [b];
    ValueAppend(s + [a], b, 16);
    ValueAppend(s, a, 16);
    DigitBack(v / 16);
    DigitBack(v % 16);
    hide Value, DigitChar, DigitOf;
  }
}

/** my_itoa. */
module Numbers {
  import opened NumberRules

  const HEXTAB: string := "0123456789ABCDEF"

  /** `t` holds the last digits of `n`, the last one first, and `value` has the rest. */
  ghost predicate Peeled(n: nat, b: nat, value: nat, t: string)
    requires 2 <= b <= 16
  {
    && |Reversed(t)| == |t|
    && Digits(n, b) == if value > 0 || t == "" then Digits(value, b) + Reversed(t) else Reversed(t)
  }

  lemma PeelStart(n: nat, b: nat)
    requires 2 <= b <= 16
    ensures Peeled(n, b, n, "")
  {
    assert Digits(n, b) + "" == Digits(n, b);
  }

  lemma PeelStep(n: nat, b: nat, value: nat, t: string)
    requires 2 <= b <= 16 && Peeled(n, b, value, t) && (value > 0 || t == "")
    ensures |t| < |Digits(n, b)| && Peeled(n, b, Quot(value, b), t + [DigitChar(Rem(value, b))])
  {
    hide Quot, Rem;
    var c := DigitChar(Rem(value, b));
    ReversedAppend(t, c);
    if value >= b {
      var more := Digits(Quot(value, b), b);
      assert Digits(value, b) == more + [c];
      hide Digits, DigitChar, Reversed;
      assert more + [c] + Reversed(t) == more + ([c] + Reversed(t));
    }
  }

  /** The digit that one round of the loop prints. */
  method Round(value: int, radix: nat) returns (c: char)
    requires RadixOk(radix) && (0 <= value <= LONG_MAX || value == LONG_MIN)
    ensures c == if value >= 0 then DigitChar(Rem(value, radix)) else EdgeChar(radix)
  {
    c := if radix == 16 then HEXTAB[CMod(value, 16)] else ('0' as int + CMod(value, radix)) as char;
  }

  /** What the loop prints, the first digit first. */
  function Unsigned(v: int, radix: nat): string
    requires RadixOk(radix) && (0 <= v <= LONG_MAX || v == LONG_MIN)
  {
    if v >= 0 then Digits(v, radix) else [EdgeChar(radix)]
  }

  /** The digits of a value, the last one first. */
  method Backwards(value0: int, radix: nat, tmp: array<char>) returns (ret: nat, ghost t: string)
    requires RadixOk(radix) && (0 <= value0 <= LONG_MAX || value0 == LONG_MIN)
    requires |Unsigned(value0, radix)| <= SCRATCH == tmp.Length
    modifies tmp
    ensures ret == |t| == |Unsigned(value0, radix)| && Reversed(t) == Unsigned(value0, radix)
    ensures forall k :: 0 <= k < ret ==> tmp[k] == t[k]
  {
    if value0 >= 0 {
      PeelStart(value0, radix);
    }
    ReversedOne(EdgeChar(radix));
    hide Peeled, Digits, DigitChar, EdgeChar, Reversed, Quot, Rem;
    var value := value0;
    ret, t := 0, "";
    var more := true;
    while more
      invariant ret == |t| <= |Unsigned(value0, radix)| && (more ==> value == LONG_MIN || 0 <= value <= LONG_MAX)
      invariant value0 >= 0 ==>
                  0 <= value <= LONG_MAX && |t| <= |Digits(value0, radix)| && (more <==> value > 0 || t == "")
      invariant value0 >= 0 ==> Peeled(value0, radix, value, t)
      invariant value0 < 0 ==> if more then t == "" && value == value0 else t == Unsigned(value0, radix)
      invariant !more ==> t != "" && value <= 0
      invariant forall k :: 0 <= k < ret ==> tmp[k] == t[k]
      decreases more, value
    {
      if value0 >= 0 {
        PeelStep(value0, radix, value, t);
      }
      var c := Round(value, radix);
      tmp[ret] := c;
      t, ret := t + [c], ret + 1;
      value := CDiv(value, radix);
      more := value > 0;
    }
    if value0 >= 0 {
      PeelEnd(value0, radix, t);
    }
  }

  lemma ReversedOne(c: char)
    ensures Reversed([c]) == [c]
  {
  }

  lemma PeelEnd(n: nat, b: nat, t: string)
    requires 2 <= b <= 16 && t != "" && Peeled(n, b, 0, t)
    ensures Digits(n, b) == Reversed(t) && |Digits(n, b)| == |t|
  {
  }

  lemma SignFirst(v: int, radix: nat, t: string)
    requires LONG_MIN <= v <= LONG_MAX && RadixOk(radix)
    requires Reversed(t) == Unsigned(if v < 0 then Negated(v) else v, radix)
    ensures Reversed(if radix != 16 && v < 0 then t + ['-'] else t) == ItoaText(v, radix)
  {
    ReversedAppend(t, '-');
    hide Digits;
  }

  /** my_itoa, writing to `str` from `at` on; `end` is where its NUL is. */
  method Itoa(str: array<char>, at: nat, value: int, radix: nat) returns (end: nat)
    requires LONG_MIN <= value <= LONG_MAX && RadixOk(radix) && |ItoaText(value, radix)| <= SCRATCH
    requires at + |ItoaText(value, radix)| < str.Length
    modifies str
    ensures end == at + |ItoaText(value, radix)| && str[end] == '\0'
    ensures forall k :: 0 <= k < at || end < k < str.Length ==> str[k] == old(str[k])
    ensures forall k :: 0 <= k < |ItoaText(value, radix)| ==> str[at + k] == ItoaText(value, radix)[k]
  {
    var tmp := new char[SCRATCH];
    var v, neg := value, false;
    if v < 0 {
      v, neg := Negated(v), true;
    }
    var ret, t := Backwards(v, radix, tmp);
    SignFirst(value, radix, t);
    if radix != 16 && neg {
      tmp[ret] := '-';
      ret, t := ret + 1, t + ['-'];
    }
    end := CopyBack(str, at, tmp, ret, t);
  }

  /** The loop that copies the scratch array, last byte first. */
  method CopyBack(str: array<char>, at: nat, tmp: array<char>, ret: nat, ghost t: string) returns (end: nat)
    requires str != tmp && ret == |t| <= tmp.Length && at + |Reversed(t)| < str.Length
    requires forall k :: 0 <= k < ret ==> tmp[k] == t[k]
    modifies str
    ensures end == at + |Reversed(t)| && str[end] == '\0'
    ensures forall k :: 0 <= k < at || end < k < str.Length ==> str[k] == old(str[k])
    ensures forall k :: 0 <= k < |Reversed(t)| ==> str[at + k] == Reversed(t)[k]
  {
    ghost var r := Reversed(t);
    ReversedLength(t);
    hide Reversed;
    var i := ret;
    end := at;
    while i > 0
      invariant 0 <= i <= ret && end == at + (ret - i)
      invariant forall k :: 0 <= k < at || at + ret < k < str.Length ==> str[k] == old(str[k])
      invariant forall k :: 0 <= k < ret - i ==> str[at + k] == r[k]
    {
      ReversedAt(t, ret - i);
      i := i - 1;
      str[end] := tmp[i];
      end := end + 1;
    }
    str[end] := '\0';
  }

  lemma ReversedLength(t: string)
    ensures |Reversed(t)| == |t|
  {
    ReversedAt(t, 0);
  }
}
