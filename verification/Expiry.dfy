/** The order of two-digit-year times, by the century rule of section 4.1.2.5.1 of RFC 5280. */
module ExpiryRules {
  import opened CStrings
  import opened TimeRules

  /** strcmp(a, b) <= 0. */
  predicate StrLeq(a: string, b: string) {
    a == "" || (b != "" && (a[0] < b[0] || (a[0] == b[0] && StrLeq(a[1..], b[1..]))))
  }

  /** strncmp(s, "49", 2) <= 0. */
  predicate Until49(s: string) {
    StrLeq(if |s| <= 2 then s else s[..2], "49")
  }

  /** The comparison of do_updatedb: the century first, then the text. */
  predicate Expired(exp: string, now: string) {
    if Until49(exp) == Until49(now) then StrLeq(exp, now) else !Until49(exp) && Until49(now)
  }

  /** The form that certificates must have: YYMMDDhhmmssZ. */
  predicate WellFormed(s: string) {
    |s| == 13 && UtcValid(s) && s[12] == 'Z' && At(s, 10) != 'Z' && At(s, 10) !in SIGNS
  }

  function Pair(s: string, o: nat): int
    requires o + 2 <= |s|
  {
    DigitValue(s[o]) * 10 + DigitValue(s[o + 1])
  }

  /** The instant of a time; years from 50 on are of the twentieth century. */
  function ClockOf(s: string): Clock
    requires WellFormed(s)
  {
    Clock(if Pair(s, 0) >= 50 then 1900 + Pair(s, 0) else 2000 + Pair(s, 0),
          Pair(s, 2), Pair(s, 4), Pair(s, 6), Pair(s, 8), Pair(s, 10))
  }

  /** The first instant is at or before the second. */
  predicate NotAfter(a: Clock, b: Clock) {
    a.year < b.year || (a.year == b.year &&
    (a.month < b.month || (a.month == b.month &&
    (a.day < b.day || (a.day == b.day &&
    (a.hour < b.hour || (a.hour == b.hour &&
    (a.minute < b.minute || (a.minute == b.minute && a.second <= b.second)))))))))
  }

  /** Comparing text from a pair of digits on is comparing the pair first. */
  lemma StrLeqPair(a: string, b: string, o: nat)
    requires o + 2 <= |a| && o + 2 <= |b| && InRange(a, o, 0, 99) && InRange(b, o, 0, 99)
    ensures StrLeq(a[o..], b[o..]) <==>
            Pair(a, o) < Pair(b, o) || (Pair(a, o) == Pair(b, o) && StrLeq(a[o + 2..], b[o + 2..]))
  {
    assert a[o..][1..] == a[o + 1..] && b[o..][1..] == b[o + 1..];
    assert a[o + 1..][1..] == a[o + 2..] && b[o + 1..][1..] == b[o + 2..];
  }

  lemma StrLeqTwo(a: string, b: string)
    requires |a| == |b| == 2
    ensures StrLeq(a, b) <==> a[0] < b[0] || (a[0] == b[0] && a[1] <= b[1])
  {
    assert StrLeq(a[1..], b[1..]) <==> a[1] <= b[1] by {
      assert a[1..][1..] == "" && b[1..][1..] == "";
    }
  }

  lemma Until49Is(s: string)
    requires WellFormed(s)
    ensures Until49(s) <==> Pair(s, 0) < 50
  {
    StrLeqTwo(s[..2], "49");
    hide StrLeq;
  }

  /** For well-formed times the database's comparison is the chronological one. */
  lemma ExpiredIffNotAfter(exp: string, now: string)
    requires WellFormed(exp) && WellFormed(now)
    ensures Expired(exp, now) <==> NotAfter(ClockOf(exp), ClockOf(now))
  {
    Until49Is(exp);
    Until49Is(now);
    assert exp[0..] == exp && now[0..] == now;
    forall o | o in {0, 2, 4, 6, 8, 10}
      ensures StrLeq(exp[o..], now[o..]) <==>
              Pair(exp, o) < Pair(now, o) || (Pair(exp, o) == Pair(now, o) && StrLeq(exp[o + 2..], now[o + 2..]))
    {
      StrLeqPair(exp, now, o);
    }
    assert exp[12..] == "Z" && now[12..] == "Z";
    assert StrLeq("Z", "Z");
    hide StrLeq, Until49, UtcValid;
  }

  lemma PairIs(s: string, o: nat, n: int)
    requires InRange(s, o, n, n) && o + 2 <= |s|
    ensures Pair(s, o) == n
  {
  }

  lemma PrintedWellFormed(s: string)
    requires Printed(s, 0)
    ensures WellFormed(s)
  {
    PrintedUtc(s);
    hide UtcValid, InRange;
    assert At(s, 10) == s[10];
  }

  /** The instant that two digits for the year stand for. */
  function Windowed(c: Clock): Clock {
    c.(year := 1950 + (c.year + 50) % 100)
  }

  lemma ClockOfPairs(s: string, c: Clock)
    requires WellFormed(s) && InRange(s, 0, c.year % 100, c.year % 100)
    requires InRange(s, 2, c.month, c.month) && InRange(s, 4, c.day, c.day) && InRange(s, 6, c.hour, c.hour)
    requires InRange(s, 8, c.minute, c.minute) && InRange(s, 10, c.second, c.second)
    ensures ClockOf(s) == Windowed(c)
  {
    hide InRange, UtcValid, Pair;
    WindowedYear(c.year);
    PairIs(s, 0, c.year % 100);
    PairIs(s, 2, c.month);
    PairIs(s, 4, c.day);
    PairIs(s, 6, c.hour);
    PairIs(s, 8, c.minute);
    PairIs(s, 10, c.second);
  }

  lemma WindowedYear(y: nat)
    ensures 1950 + (y + 50) % 100 == if y % 100 >= 50 then 1900 + y % 100 else 2000 + y % 100
  {
  }

  /** The clock as do_updatedb prints it is well-formed, and stands for the instant of the years 1950
      to 2049 that has the same last two digits. */
  lemma NowWellFormed(c: Clock)
    requires ValidClock(c)
    ensures WellFormed(UtcString(c)) && ClockOf(UtcString(c)) == Windowed(c)
    ensures Windowed(c) == c <==> 1950 <= c.year < 2050
  {
    hide UtcString, InRange, WellFormed, Printed;
    var s := UtcString(c);
    assert "" + s == s;
    UtcStringPrinted(c, "");
    UtcStringPairs(c, "");
    PrintedWellFormed(s);
    ClockOfPairs(s, c);
  }

  /** The seconds may be missing. */
  lemma ShortTime(c: Clock)
    requires ValidClock(c)
    ensures UtcValid(UtcString(c)[..10] + "Z") && GeneralizedValid(Two(c.year / 100) + UtcString(c)[..10] + "Z")
  {
    hide UtcString, InRange;
    var p := Two(c.year / 100);
    UtcStringPairs(c, "");
    assert "" + UtcString(c) == UtcString(c);
    var s, t := UtcString(c)[..10] + "Z", p + UtcString(c)[..10] + "Z";
    SamePairs(UtcString(c), s, 0);
    SamePairs(UtcString(c), t, 2);
    CenturyFirst(p, UtcString(c)[..10] + "Z", c.year / 100);
    assert t == p + (UtcString(c)[..10] + "Z");
    InWider(s, c, 0);
    InWider(t, c, 2);
  }

  lemma SamePairs(a: string, b: string, n: nat)
    requires |a| >= 10 && |b| >= n + 10 && b[n..n + 10] == a[..10]
    ensures forall o, x, y :: 0 <= o <= 8 ==> (InRange(a, o, x, y) <==> InRange(b, n + o, x, y))
  {
    assert forall k :: 0 <= k < 10 ==> b[n + k] == b[n..n + 10][k] == a[k];
  }

  lemma InWider(s: string, c: Clock, n: nat)
    requires ValidClock(c) && InRange(s, n, c.year % 100, c.year % 100) && InRange(s, n + 2, c.month, c.month)
    requires InRange(s, n + 4, c.day, c.day) && InRange(s, n + 6, c.hour, c.hour)
    requires InRange(s, n + 8, c.minute, c.minute)
    ensures InRange(s, n, 0, 99) && InRange(s, n + 2, 1, 12) && InRange(s, n + 4, 1, 31)
    ensures InRange(s, n + 6, 0, 23) && InRange(s, n + 8, 0, 59)
  {
  }

  /** The form of the printed times of other years: YYYYMMDDhhmmssZ. */
  predicate LongForm(s: string) {
    |s| == 15 && GeneralizedValid(s) && s[14] == 'Z' && s[12] != 'Z' && s[12] !in SIGNS
  }

  function LongClock(s: string): Clock
    requires LongForm(s)
  {
    Clock(Pair(s, 0) * 100 + Pair(s, 2), Pair(s, 4), Pair(s, 6), Pair(s, 8), Pair(s, 10), Pair(s, 12))
  }

  lemma LongPairs(s: string)
    requires LongForm(s)
    ensures InRange(s, 0, 0, 99) && InRange(s, 2, 0, 99) && InRange(s, 4, 1, 12) && InRange(s, 6, 1, 31)
    ensures InRange(s, 8, 0, 23) && InRange(s, 10, 0, 59) && InRange(s, 12, 0, 59)
  {
  }

  lemma LongPrinted(s: string)
    requires Printed(s, 2) && InRange(s, 0, 0, 99)
    ensures LongForm(s)
  {
    hide GeneralizedValid, UtcValid, InRange;
    PrintedGeneralized(s);
    DigitAt(s);
  }

  lemma DigitAt(s: string)
    requires Printed(s, 2)
    ensures s[12] != 'Z' && s[12] !in SIGNS && |s| == 15 && s[14] == 'Z'
  {
  }

  /** The time that is written denotes the clock, in either form. */
  lemma TimeStringDenotes(c: Clock)
    requires ValidClock(c)
    ensures 1950 <= c.year < 2050 ==> WellFormed(TimeString(c)) && ClockOf(TimeString(c)) == c
    ensures !(1950 <= c.year < 2050) ==> LongForm(TimeString(c)) && LongClock(TimeString(c)) == c
  {
    hide UtcString, WellFormed, ClockOf, Windowed, LongForm, InRange, Printed;
    if 1950 <= c.year < 2050 {
      NowWellFormed(c);
    } else {
      var p := Two(c.year / 100);
      var s := p + UtcString(c);
      UtcStringPrinted(c, p);
      UtcStringPairs(c, p);
      CenturyFirst(p, UtcString(c), c.year / 100);
      LongPrinted(s);
      LongClockIs(s, c);
    }
  }

  lemma CenturyFirst(p: string, t: string, n: nat)
    requires n < 100 && p == Two(n)
    ensures InRange(p + t, 0, n, n) && InRange(p + t, 0, 0, 99)
  {
  }

  lemma LongClockIs(s: string, c: Clock)
    requires LongForm(s) && InRange(s, 0, c.year / 100, c.year / 100) && InRange(s, 2, c.year % 100, c.year % 100)
    requires InRange(s, 4, c.month, c.month) && InRange(s, 6, c.day, c.day) && InRange(s, 8, c.hour, c.hour)
    requires InRange(s, 10, c.minute, c.minute) && InRange(s, 12, c.second, c.second)
    ensures LongClock(s) == c
  {
    PairIs(s, 0, c.year / 100);
    PairIs(s, 2, c.year % 100);
    PairIs(s, 4, c.month);
    PairIs(s, 6, c.day);
    PairIs(s, 8, c.hour);
    PairIs(s, 10, c.minute);
    PairIs(s, 12, c.second);
    hide InRange, Pair;
  }

  lemma TwoOfPair(s: string, o: nat)
    requires o + 2 <= |s| && InRange(s, o, 0, 99)
    ensures 0 <= Pair(s, o) < 100 && Two(Pair(s, o)) == s[o..o + 2]
  {
    var a, b := DigitValue(s[o]), DigitValue(s[o + 1]);
    assert At(s, o) == s[o] && At(s, o + 1) == s[o + 1];
    assert (a * 10 + b) / 10 == a && (a * 10 + b) % 10 == b;
  }

  lemma PairBounds(s: string, o: nat, lo: nat, hi: nat)
    requires o + 2 <= |s| && InRange(s, o, lo, hi) && hi <= 99
    ensures lo <= Pair(s, o) <= hi && Two(Pair(s, o)) == s[o..o + 2]
  {
    TwoOfPair(s, o);
  }

  /** Every well-formed time is the printed form of a clock, the one it denotes. */
  lemma WellFormedIsPrinted(s: string)
    requires WellFormed(s)
    ensures ValidClock(ClockOf(s)) && 1950 <= ClockOf(s).year < 2050 && TimeString(ClockOf(s)) == s
  {
    hide InRange, UtcValid, Two, Pair;
    ShortPairs(s);
    YearDigits(Pair(s, 0));
    PairBounds(s, 0, 0, 99);
    PairBounds(s, 2, 1, 12);
    PairBounds(s, 4, 1, 31);
    PairBounds(s, 6, 0, 23);
    PairBounds(s, 8, 0, 59);
    PairBounds(s, 10, 0, 59);
    assert s[12..] == "Z";
    Pieces(s);
  }

  lemma Pieces(s: string)
    requires |s| == 13
    ensures s == s[0..2] + (s[2..4] + s[4..6] + s[6..8] + s[8..10] + s[10..12] + s[12..])
  {
  }

  lemma YearDigits(p: int)
    ensures 0 <= p < 100 ==> (1900 + p) % 100 == p && (2000 + p) % 100 == p
  {
  }

  lemma ShortPairs(s: string)
    requires WellFormed(s)
    ensures InRange(s, 0, 0, 99) && InRange(s, 2, 1, 12) && InRange(s, 4, 1, 31)
    ensures InRange(s, 6, 0, 23) && InRange(s, 8, 0, 59) && InRange(s, 10, 0, 59)
  {
  }

  /** So is every long one, as far as its year is one of those that are printed long. */
  lemma LongFormIsPrinted(s: string)
    requires LongForm(s)
    ensures var c := LongClock(s);
            ValidClock(c) && Two(c.year / 100) + UtcString(c) == s
            && (!(1950 <= c.year < 2050) ==> TimeString(c) == s)
  {
    hide InRange, GeneralizedValid, Two, Pair;
    LongPairs(s);
    PairBounds(s, 0, 0, 99);
    PairBounds(s, 2, 0, 99);
    PairBounds(s, 4, 1, 12);
    PairBounds(s, 6, 1, 31);
    PairBounds(s, 8, 0, 23);
    PairBounds(s, 10, 0, 59);
    PairBounds(s, 12, 0, 59);
    var y := Pair(s, 0) * 100 + Pair(s, 2);
    assert y / 100 == Pair(s, 0) && y % 100 == Pair(s, 2);
    assert s[14..] == "Z";
    assert s == s[0..2] + (s[2..4] + (s[4..6] + s[6..8] + s[8..10] + s[10..12] + s[12..14] + s[14..]));
  }
}
