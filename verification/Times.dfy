/** The two ASN.1 time syntaxes, and the strings that the clock is printed to. */
module TimeRules {
  import opened CStrings

  predicate IsDigit(c: char) {
    '0' <= c <= '9'
  }

  function DigitValue(c: char): int {
    c as int - '0' as int
  }

  /** Two digits at `o` make a number in a range. */
  predicate InRange(s: string, o: nat, lo: int, hi: int) {
    && IsDigit(At(s, o)) && IsDigit(At(s, o + 1))
    && lo <= DigitValue(At(s, o)) * 10 + DigitValue(At(s, o + 1)) <= hi
  }

  const SIGNS: set<char> := {'+', '-'}

  /** From `o` on there is nothing but a time zone, if that. */
  predicate ZoneOk(s: string, o: nat) {
    if At(s, o) == 'Z' then o + 1 == |s|
    else if At(s, o) in SIGNS then o + 5 == |s| && InRange(s, o + 1, 0, 12) && InRange(s, o + 3, 0, 59)
    else o == |s|
  }

  /** UTCTime: YYMMDDhhmm[ss], and a zone. */
  predicate UtcValid(s: string) {
    && |s| >= 11
    && InRange(s, 0, 0, 99) && InRange(s, 2, 1, 12) && InRange(s, 4, 1, 31) && InRange(s, 6, 0, 23)
       && InRange(s, 8, 0, 59)
    && if At(s, 10) == 'Z' || At(s, 10) in SIGNS then ZoneOk(s, 10) else InRange(s, 10, 0, 59) && ZoneOk(s, 12)
  }

  /** The end of the digits that start at `o`. */
  function DigitsEnd(s: string, o: nat): (e: nat)
    ensures o <= e && (o <= |s| ==> e <= |s|) && forall k :: o <= k < e ==> IsDigit(At(s, k))
    decreases |s| - o
  {
    if o < |s| && IsDigit(s[o]) then DigitsEnd(s, o + 1) else o
  }

  /** A fraction of a second, if any, and the zone. */
  predicate FractionOk(s: string, o: nat) {
    if At(s, o) == '.' then DigitsEnd(s, o + 1) > o + 1 && ZoneOk(s, DigitsEnd(s, o + 1))
    else ZoneOk(s, o)
  }

  /** GeneralizedTime: YYYYMMDDhhmm[ss[.f]], and a zone. */
  predicate GeneralizedValid(s: string) {
    && |s| >= 13
    && InRange(s, 0, 0, 99) && InRange(s, 2, 0, 99) && InRange(s, 4, 1, 12)
    && InRange(s, 6, 1, 31) && InRange(s, 8, 0, 23) && InRange(s, 10, 0, 59)
    && if At(s, 12) == 'Z' || At(s, 12) in SIGNS then FractionOk(s, 12) else InRange(s, 12, 0, 59) && FractionOk(s, 14)
  }

  datatype Clock = Clock(year: nat, month: nat, day: nat, hour: nat, minute: nat, second: nat)

  predicate ValidClock(c: Clock) {
    && c.year < 10000 && 1 <= c.month <= 12 && 1 <= c.day <= 31
    && c.hour < 24 && c.minute < 60 && c.second < 60
  }

  function Digit(d: nat): char
    requires d < 10
  {
    ('0' as int + d) as char
  }

  /** The format %02d. */
  function Two(n: nat): (s: string)
    requires n < 100
    ensures |s| == 2 && InRange(s, 0, n, n)
  {
    [Digit(n / 10), Digit(n % 10)]
  }

  function MonthOn(c: Clock): (s: string)
    requires ValidClock(c)
    ensures |s| == 11
  {
    Two(c.month) + Two(c.day) + Two(c.hour) + Two(c.minute) + Two(c.second) + "Z"
  }

  function UtcString(c: Clock): string
    requires ValidClock(c)
  {
    Two(c.year % 100) + MonthOn(c)
  }

  /** The time as it goes into certificates and revocation records: UTCTime from 1950 to 2049. */
  function TimeString(c: Clock): string
    requires ValidClock(c)
  {
    if 1950 <= c.year < 2050 then UtcString(c) else Two(c.year / 100) + UtcString(c)
  }

  /** The pairs of a printed UTCTime, and of what follows `p`. */
  lemma UtcStringPairs(c: Clock, p: string)
    requires ValidClock(c)
    ensures var s, n := p + UtcString(c), |p|;
            && |s| == n + 13 && s[n + 12] == 'Z' && IsDigit(s[n + 10]) && IsDigit(s[n + 8])
            && InRange(s, n, c.year % 100, c.year % 100) && InRange(s, n + 2, c.month, c.month)
            && InRange(s, n + 4, c.day, c.day) && InRange(s, n + 6, c.hour, c.hour)
            && InRange(s, n + 8, c.minute, c.minute) && InRange(s, n + 10, c.second, c.second)
  {
    var t := UtcString(c);
    var s := p + t;
    assert forall k :: 0 <= k < 13 ==> s[|p| + k] == t[k];
  }

  /** The syntax from `n` on that a printed UTCTime has. */
  predicate Printed(s: string, n: nat) {
    && |s| == n + 13 && s[n + 12] == 'Z' && IsDigit(s[n + 10]) && IsDigit(s[n + 8])
    && InRange(s, n, 0, 99) && InRange(s, n + 2, 1, 12) && InRange(s, n + 4, 1, 31)
    && InRange(s, n + 6, 0, 23) && InRange(s, n + 8, 0, 59) && InRange(s, n + 10, 0, 59)
  }

  lemma UtcStringPrinted(c: Clock, p: string)
    requires ValidClock(c)
    ensures Printed(p + UtcString(c), |p|)
  {
    UtcStringPairs(c, p);
    hide UtcString, At, IsDigit;
  }

  lemma PrintedUtc(s: string)
    requires Printed(s, 0)
    ensures UtcValid(s)
  {
    hide InRange;
  }

  lemma PrintedGeneralized(s: string)
    requires Printed(s, 2) && InRange(s, 0, 0, 99)
    ensures GeneralizedValid(s) && !UtcValid(s)
  {
    hide InRange;
    assert At(s, 10) == s[10] && At(s, 12) == s[12] && At(s, 14) == 'Z';
  }

  /** The zones: none, Z, or an offset of at most twelve hours and 59 minutes. */
  lemma ZoneIs(p: string, sign: char, h: nat, m: nat)
    requires sign in SIGNS && h < 100 && m < 100
    ensures ZoneOk(p, |p|) && ZoneOk(p + "Z", |p|)
    ensures ZoneOk(p + ([sign] + Two(h) + Two(m)), |p|) <==> h <= 12 && m <= 59
  {
    hide InRange;
    var s := p + ([sign] + Two(h) + Two(m));
    PairOf(s, |p| + 1, h, 12);
    PairOf(s, |p| + 3, m, 59);
    assert s[|p|] == sign && (p + "Z")[|p|] == 'Z';
  }

  lemma PairOf(s: string, o: nat, n: nat, hi: nat)
    requires o + 2 <= |s| && n < 100 && s[o] == Two(n)[0] && s[o + 1] == Two(n)[1]
    ensures InRange(s, o, 0, hi) <==> n <= hi
  {
  }

  /** The fractions: none, or a point and at least one digit. */
  lemma FractionIs(p: string, digits: string)
    requires forall k :: 0 <= k < |digits| ==> IsDigit(digits[k])
    ensures FractionOk(p, |p|) && FractionOk(p + "Z", |p|)
    ensures FractionOk(p + ("." + digits + "Z"), |p|) <==> digits != ""
  {
    hide FractionOk;
    NoFraction(p);
    var s, e := p + ("." + digits + "Z"), |p| + 1 + |digits|;
    assert s[|p|] == '.' && s[e] == 'Z' && |s| == e + 1;
    assert forall k :: |p| + 1 <= k < e ==> s[k] == digits[k - |p| - 1];
    FractionAt(s, |p|, e);
  }

  lemma NoFraction(p: string)
    ensures FractionOk(p, |p|) && FractionOk(p + "Z", |p|)
  {
    hide ZoneOk, FractionOk;
    NoZone(p);
    FractionPlain(p, |p|);
    LastZ(p + "Z", |p|);
    FractionPlain(p + "Z", |p|);
  }

  lemma NoZone(p: string)
    ensures ZoneOk(p, |p|)
  {
  }

  lemma FractionPlain(s: string, o: nat)
    requires At(s, o) != '.' && ZoneOk(s, o)
    ensures FractionOk(s, o)
  {
    hide ZoneOk, DigitsEnd;
  }

  lemma FractionAt(s: string, o: nat, e: nat)
    requires o < e && |s| == e + 1 && s[o] == '.' && s[e] == 'Z' && forall k :: o < k < e ==> IsDigit(s[k])
    ensures FractionOk(s, o) <==> e > o + 1
  {
    hide DigitsEnd, ZoneOk, IsDigit;
    LastZ(s, e);
    DigitsEndAt(s, o + 1, e);
  }

  lemma LastZ(s: string, e: nat)
    requires |s| == e + 1 && s[e] == 'Z'
    ensures ZoneOk(s, e) && !IsDigit(s[e])
  {
  }

  lemma {:induction false} DigitsEndAt(s: string, o: nat, e: nat)
    requires o <= e < |s| && (forall k :: o <= k < e ==> IsDigit(s[k])) && !IsDigit(s[e])
    ensures DigitsEnd(s, o) == e
    decreases e - o
  {
    if o < e {
      DigitsEndAt(s, o + 1, e);
    }
  }

  /** UTCTime is what a printed time is exactly in the years from 1950 to 2049; in the others it
      is GeneralizedTime. */
  lemma TimeStringValid(c: Clock)
    requires ValidClock(c)
    ensures UtcValid(TimeString(c)) <==> 1950 <= c.year < 2050
    ensures !(1950 <= c.year < 2050) ==> GeneralizedValid(TimeString(c))
  {
    if 1950 <= c.year < 2050 {
      UtcStringPrinted(c, "");
      assert "" + UtcString(c) == UtcString(c);
      hide UtcString, Printed, UtcValid;
      PrintedUtc(UtcString(c));
    } else {
      UtcStringPrinted(c, Two(c.year / 100));
      YearFirst(c);
      hide UtcString, Printed, UtcValid, GeneralizedValid, InRange;
      PrintedGeneralized(TimeString(c));
    }
  }

  lemma YearFirst(c: Clock)
    requires ValidClock(c)
    ensures InRange(Two(c.year / 100) + UtcString(c), 0, 0, 99)
  {
  }
}

/** ASN1_UTCTIME_check and ASN1_GENERALIZEDTIME_check. */
module Times {
  import opened CStrings
  import opened TimeRules

  const UTC_MIN: seq<int> := [0, 1, 1, 0, 0, 0, 0, 0]
  const UTC_MAX: seq<int> := [99, 12, 31, 23, 59, 59, 12, 59]
  const GEN_MIN: seq<int> := [0, 0, 1, 1, 0, 0, 0, 0, 0]
  const GEN_MAX: seq<int> := [99, 99, 12, 31, 23, 59, 59, 12, 59]

  /** Two digits and their range, as both loops check them. */
  method CheckPair(s: string, o: nat, lo: int, hi: int) returns (ok: bool)
    ensures ok <==> InRange(s, o, lo, hi)
    ensures ok ==> o + 2 <= |s|
  {
    if At(s, o) < '0' || At(s, o) > '9' {
      return false;
    }
    var n := DigitValue(At(s, o));
    if At(s, o + 1) < '0' || At(s, o + 1) > '9' {
      return false;
    }
    n := n * 10 + DigitValue(At(s, o + 1));
    ok := lo <= n <= hi;
  }

  /** What may follow the last pair. */
  method CheckZone(s: string, o0: nat, min: seq<int>, max: seq<int>) returns (ok: bool)
    requires min == [0, 0] && max == [12, 59] && o0 <= |s|
    ensures ok <==> ZoneOk(s, o0)
  {
    var o := o0;
    if At(s, o) == 'Z' {
      o := o + 1;
    } else if At(s, o) == '+' || At(s, o) == '-' {
      o := o + 1;
      if o + 4 > |s| {
        return false;
      }
      for i := 0 to 2
        invariant o == o0 + 1 + 2 * i
        invariant i > 0 ==> InRange(s, o0 + 1, 0, 12)
        invariant i > 1 ==> InRange(s, o0 + 3, 0, 59)
      {
        ok := CheckPair(s, o, min[i], max[i]);
        if !ok {
          return;
        }
        o := o + 2;
      }
    }
    ok := o == |s|;
  }

  ghost predicate Pairs(s: string, n: nat, min: seq<int>, max: seq<int>)
    requires n <= |min| && n <= |max|
  {
    forall k :: 0 <= k < n ==> InRange(s, 2 * k, min[k], max[k])
  }

  lemma UtcPairs(s: string)
    ensures UtcValid(s) <==>
            (&& |s| >= 11 && Pairs(s, 5, UTC_MIN, UTC_MAX)
             && if At(s, 10) == 'Z' || At(s, 10) in SIGNS then ZoneOk(s, 10)
                else Pairs(s, 6, UTC_MIN, UTC_MAX) && ZoneOk(s, 12))
  {
    assert forall k :: 0 <= k < 6 ==> UTC_MIN[k] == [0, 1, 1, 0, 0, 0][k] && UTC_MAX[k] == [99, 12, 31, 23, 59, 59][k];
    if Pairs(s, 5, UTC_MIN, UTC_MAX) {
      assert InRange(s, 2 * 0, UTC_MIN[0], UTC_MAX[0]) && InRange(s, 2 * 1, UTC_MIN[1], UTC_MAX[1]);
      assert InRange(s, 2 * 2, UTC_MIN[2], UTC_MAX[2]) && InRange(s, 2 * 3, UTC_MIN[3], UTC_MAX[3]);
      assert InRange(s, 2 * 4, UTC_MIN[4], UTC_MAX[4]);
    }
    if Pairs(s, 6, UTC_MIN, UTC_MAX) {
      assert InRange(s, 2 * 5, UTC_MIN[5], UTC_MAX[5]);
    }
  }

  lemma GenPairs(s: string)
    ensures GeneralizedValid(s) <==>
            (&& |s| >= 13 && Pairs(s, 6, GEN_MIN, GEN_MAX)
             && if At(s, 12) == 'Z' || At(s, 12) in SIGNS then FractionOk(s, 12)
                else Pairs(s, 7, GEN_MIN, GEN_MAX) && FractionOk(s, 14))
  {
    assert forall k :: 0 <= k < 7 ==>
             GEN_MIN[k] == [0, 0, 1, 1, 0, 0, 0][k] && GEN_MAX[k] == [99, 99, 12, 31, 23, 59, 59][k];
    if Pairs(s, 6, GEN_MIN, GEN_MAX) {
      assert InRange(s, 2 * 0, GEN_MIN[0], GEN_MAX[0]) && InRange(s, 2 * 1, GEN_MIN[1], GEN_MAX[1]);
      assert InRange(s, 2 * 2, GEN_MIN[2], GEN_MAX[2]) && InRange(s, 2 * 3, GEN_MIN[3], GEN_MAX[3]);
      assert InRange(s, 2 * 4, GEN_MIN[4], GEN_MAX[4]) && InRange(s, 2 * 5, GEN_MIN[5], GEN_MAX[5]);
    }
    if Pairs(s, 7, GEN_MIN, GEN_MAX) {
      assert InRange(s, 2 * 6, GEN_MIN[6], GEN_MAX[6]);
    }
  }

  method UtcTimeCheck(s: string) returns (ok: bool)
    ensures ok <==> UtcValid(s)
  {
    UtcPairs(s);
    hide UtcValid, ZoneOk, InRange;
    if |s| < 11 {
      return false;
    }
    var o, i := 0, 0;
    while i < 6
      invariant 0 <= i <= 6 && o == 2 * i && o <= |s|
      invariant Pairs(s, i, UTC_MIN, UTC_MAX)
      invariant i == 6 ==> At(s, 10) != 'Z' && At(s, 10) !in SIGNS
    {
      if i == 5 && (At(s, o) == 'Z' || At(s, o) == '+' || At(s, o) == '-') {
        break;
      }
      ok := CheckPair(s, o, UTC_MIN[i], UTC_MAX[i]);
      if !ok {
        return;
      }
      o, i := o + 2, i + 1;
    }
    ok := CheckZone(s, o, UTC_MIN[6..], UTC_MAX[6..]);
  }

  method GeneralizedTimeCheck(s: string) returns (ok: bool)
    ensures ok <==> GeneralizedValid(s)
  {
    GenPairs(s);
    hide GeneralizedValid, FractionOk, ZoneOk, InRange;
    if |s| < 13 {
      return false;
    }
    var o, i := 0, 0;
    while i < 7
      invariant 0 <= i <= 7 && o == 2 * i && o <= |s|
      invariant Pairs(s, i, GEN_MIN, GEN_MAX)
      invariant i == 7 ==> At(s, 12) != 'Z' && At(s, 12) !in SIGNS
    {
      if i == 6 && (At(s, o) == 'Z' || At(s, o) == '+' || At(s, o) == '-') {
        break;
      }
      ok := CheckPair(s, o, GEN_MIN[i], GEN_MAX[i]);
      if !ok {
        return;
      }
      o, i := o + 2, i + 1;
    }
    ok := CheckFraction(s, o);
  }

  method CheckFraction(s: string, o0: nat) returns (ok: bool)
    requires o0 <= |s|
    ensures ok <==> FractionOk(s, o0)
  {
    var o := o0;
    if At(s, o) == '.' {
      o := o + 1;
      while '0' <= At(s, o) <= '9' && o <= |s|
        invariant o0 < o <= |s| && DigitsEnd(s, o0 + 1) == DigitsEnd(s, o)
        decreases |s| - o
      {
        o := o + 1;
      }
      if o == o0 + 1 {
        return false;
      }
    }
    ok := CheckZone(s, o, GEN_MIN[7..], GEN_MAX[7..]);
  }
}
