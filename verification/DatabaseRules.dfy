/** The rows of the CA's database, and what may become of them. */
module DatabaseRules {
  import opened CStrings
  import opened Wrappers
  import opened TimeRules
  import opened RevocationRules
  import opened ExpiryRules
  import opened SerialRules

  const VALID: char := 'V'
  const REVOKED: char := 'R'
  const EXPIRED: char := 'E'

  /** A row; a revocation date that is not there is null in memory and empty in the file. */
  datatype Row = Row(kind: char, exp: string, rev: Option<string>, serial: string, file: string, name: string)

  function RevDate(r: Row): string {
    if r.rev.Some? then r.rev.value else ""
  }

  /** A revocation date was written by a revocation. */
  ghost predicate Recorded(rev: string, isOid: string -> bool) {
    exists t, arg, time :: Record(t, arg, time, isOid) == Some(rev) && ',' !in time && time != ""
  }

  /** What holds of each row that the program writes. */
  ghost predicate RowValid(r: Row, isOid: string -> bool) {
    && r.kind in {VALID, REVOKED, EXPIRED}
    && SerialOk(r.serial)
    && (RevDate(r) != "" <==> r.kind == REVOKED)
    && (r.kind == REVOKED ==> Recorded(RevDate(r), isOid))
  }

  ghost predicate RowsValid(rows: seq<Row>, isOid: string -> bool) {
    forall i :: 0 <= i < |rows| ==> RowValid(rows[i], isOid)
  }

  /** No two rows have the same serial number. */
  ghost predicate SerialsUnique(rows: seq<Row>) {
    forall i, j :: 0 <= i < j < |rows| ==> Key(rows[i].serial) != Key(rows[j].serial)
  }

  /** The rows in the index of names: all valid ones, and those that were when they came in. */
  ghost predicate NamesUnique(rows: seq<Row>, listed: set<nat>) {
    && (forall i :: 0 <= i < |rows| && rows[i].kind == VALID ==> i in listed)
    && (forall i :: i in listed ==> i < |rows|)
    && (forall i, j :: i in listed && j in listed && i < j ==> rows[i].name != rows[j].name)
  }

  lemma SerialAdded(rows: seq<Row>, r: Row)
    requires SerialsUnique(rows) && Position(rows, Key(r.serial)) == |rows|
    ensures SerialsUnique(rows + [r])
  {
    var key := Key(r.serial);
    assert forall i :: 0 <= i < |rows| ==> Key(rows[i].serial) != key;
    hide Key, Position;
    forall i, j | 0 <= i < j < |rows| + 1
      ensures Key((rows + [r])[i].serial) != Key((rows + [r])[j].serial)
    {
    }
  }

  lemma NameAdded(rows: seq<Row>, r: Row, listed: set<nat>)
    requires NamesUnique(rows, listed)
    ensures NameFree(rows, listed, r.name) ==> NamesUnique(rows + [r], listed + {|rows|})
    ensures r.kind != VALID ==> NamesUnique(rows + [r], listed)
  {
  }

  lemma ValidAdded(rows: seq<Row>, r: Row, isOid: string -> bool)
    requires RowsValid(rows, isOid) && RowValid(r, isOid)
    ensures RowsValid(rows + [r], isOid) && Evolved(rows, rows + [r])
  {
    hide RowValid;
  }

  lemma RowAdded(rows: seq<Row>, r: Row, listed: set<nat>, isOid: string -> bool)
    requires RowsValid(rows, isOid) && SerialsUnique(rows) && RowValid(r, isOid)
    requires Position(rows, Key(r.serial)) == |rows|
    ensures RowsValid(rows + [r], isOid) && SerialsUnique(rows + [r])
    ensures NamesUnique(rows, listed) && NameFree(rows, listed, r.name) ==> NamesUnique(rows + [r], listed + {|rows|})
    ensures NamesUnique(rows, listed) && r.kind != VALID ==> NamesUnique(rows + [r], listed)
    ensures Evolved(rows, rows + [r])
  {
    hide *;
    SerialAdded(rows, r);
    ValidAdded(rows, r, isOid);
    if NamesUnique(rows, listed) {
      NameAdded(rows, r, listed);
    }
  }

  /** Rows that take steps keep what holds of the database. */
  lemma RowsStepped(rows: seq<Row>, rows': seq<Row>, listed: set<nat>, isOid: string -> bool)
    requires RowsValid(rows, isOid) && SerialsUnique(rows) && RowsValid(rows', isOid)
    requires |rows'| == |rows| && Evolved(rows, rows')
    ensures SerialsUnique(rows')
    ensures NamesUnique(rows, listed) ==> NamesUnique(rows', listed)
  {
    assert forall i :: 0 <= i < |rows| ==> Step(rows[i], rows'[i]);
    hide RowValid, Key;
  }

  /** What may become of a row: nothing, expiry of a valid one, revocation of one not yet revoked. */
  predicate Step(a: Row, b: Row) {
    || b == a
    || (a.kind == VALID && b == a.(kind := EXPIRED))
    || (a.kind != REVOKED && b.rev.Some? && b == a.(kind := REVOKED, rev := b.rev))
  }

  /** What may become of the database: rows take steps, and new ones are added at the end. */
  ghost predicate Evolved(a: seq<Row>, b: seq<Row>) {
    |a| <= |b| && forall i :: 0 <= i < |a| ==> Step(a[i], b[i])
  }

  lemma EvolvedTwice(a: seq<Row>, b: seq<Row>, c: seq<Row>)
    requires Evolved(a, b) && Evolved(b, c)
    ensures Evolved(a, c)
  {
    forall i | 0 <= i < |a|
      ensures Step(a[i], c[i])
    {
      assert Step(a[i], b[i]) && Step(b[i], c[i]);
    }
  }

  /** The row with a key, the number of rows if there is none. */
  function Position(rows: seq<Row>, key: string): (p: nat)
    ensures p <= |rows| && (p < |rows| ==> Key(rows[p].serial) == key)
    ensures forall i :: 0 <= i < p ==> Key(rows[i].serial) != key
  {
    if rows == [] || Key(rows[0].serial) == key then 0 else 1 + Position(rows[1..], key)
  }

  ghost predicate NameFree(rows: seq<Row>, listed: set<nat>, name: string) {
    forall i :: i in listed && i < |rows| ==> rows[i].name != name
  }

  function NewRow(serial: int, exp: string, name: string): Row {
    Row(VALID, exp, None, SerialText(serial), "unknown", name)
  }

  lemma NewRowValid(serial: int, exp: string, name: string, isOid: string -> bool)
    ensures RowValid(NewRow(serial, exp, name), isOid)
  {
    SerialTextOk(serial);
  }

  /** Revocation as one step: it adds a certificate that the database does not know, and fails for
      a name that differs, a row that is revoked already and an argument that makes no record. */
  ghost function AfterRevoke(rows: seq<Row>, nameFree: bool, serial: int, exp: string, name: string,
                             record: Option<string>): (bool, seq<Row>)
  {
    var p := Position(rows, Key(SerialText(serial)));
    if p == |rows| && !nameFree then (false, rows)
    else
      var known := if p == |rows| then rows + [NewRow(serial, exp, name)] else rows;
      if known[p].name != name || known[p].kind == REVOKED || record == None then (false, known)
      else (true, known[p := known[p].(kind := REVOKED, rev := record)])
  }

  /** A revocation takes one permitted step at one row, or adds a row, or both to the added one. */
  lemma AfterRevokeEvolves(rows: seq<Row>, nameFree: bool, serial: int, exp: string, name: string,
                           record: Option<string>)
    ensures var after := AfterRevoke(rows, nameFree, serial, exp, name, record).1;
            var p := Position(rows, Key(SerialText(serial)));
            && Evolved(rows, after) && |after| <= |rows| + 1 && (|after| > |rows| ==> p == |rows|)
            && forall i :: 0 <= i < |rows| && i != p ==> after[i] == rows[i]
  {
    hide Position;
  }

  /** Once revoked, a certificate stays so: a second revocation changes nothing. */
  lemma RevokeOnce(rows: seq<Row>, nameFree: bool, serial: int, exp: string, name: string, record: Option<string>,
                   again: Option<string>)
    requires AfterRevoke(rows, nameFree, serial, exp, name, record).0
    ensures var after := AfterRevoke(rows, nameFree, serial, exp, name, record).1;
            forall free: bool :: AfterRevoke(after, free, serial, exp, name, again) == (false, after)
  {
    var key := Key(SerialText(serial));
    var p := Position(rows, key);
    var after := AfterRevoke(rows, nameFree, serial, exp, name, record).1;
    assert Key(after[p].serial) == key && forall i :: 0 <= i < p ==> after[i] == rows[i];
    assert forall i :: 0 <= i < p ==> Key(after[i].serial) != key;
    hide Position;
  }

  /** Expiry of one row. */
  function Aged(r: Row, now: string): Row {
    if r.kind == VALID && Expired(r.exp, now) then r.(kind := EXPIRED) else r
  }

  /** What the program demands of a row when it loads the database. */
  predicate RowLoads(r: Row, isOid: string -> bool) {
    && (r.kind != REVOKED ==> RevDate(r) == "")
    && (r.kind == REVOKED ==> Unpacked(RevDate(r), isOid).Some?)
    && UtcValid(r.exp) && SerialOk(r.serial)
  }

  ghost predicate Loads(rows: seq<Row>, unique: bool, isOid: string -> bool) {
    && (forall i :: 0 <= i < |rows| ==> RowLoads(rows[i], isOid))
    && SerialsUnique(rows)
    && (unique ==> forall i, j :: 0 <= i < j < |rows| && rows[i].kind == VALID && rows[j].kind == VALID ==>
          rows[i].name != rows[j].name)
  }

  /** The rows as they come back from the file. */
  function Written(rows: seq<Row>): (w: seq<Row>)
    ensures |w| == |rows| && forall i :: 0 <= i < |w| ==> w[i] == rows[i].(rev := Some(RevDate(rows[i])))
  {
    seq(|rows|, i requires 0 <= i < |rows| => rows[i].(rev := Some(RevDate(rows[i]))))
  }

  /** The dates of a row are in the syntax of UTCTime. */
  predicate DatesOk(r: Row) {
    UtcValid(r.exp) && (r.kind == REVOKED ==> UtcValid(RevDate(r)[..Comma(RevDate(r))]))
  }

  ghost predicate AllDatesOk(rows: seq<Row>) {
    forall i :: 0 <= i < |rows| ==> DatesOk(rows[i])
  }

  /** A recorded date can be read back if its time is a UTCTime. */
  lemma RecordedUnpacks(rev: string, isOid: string -> bool)
    requires Recorded(rev, isOid)
    ensures Unpacked(rev, isOid).Some? <==> UtcValid(rev[..Comma(rev)])
  {
    var t, arg, time :| Record(t, arg, time, isOid) == Some(rev) && ',' !in time && time != "";
    RoundTrip(t, arg, time, isOid);
    RecordStarts(t, arg, time, isOid);
    hide Record, Unpacked, UtcValid, Meant;
  }

  lemma RecordStarts(t: RevType, arg: string, time: string, isOid: string -> bool)
    requires Record(t, arg, time, isOid).Some? && ',' !in time
    ensures var rev := Record(t, arg, time, isOid).value; rev[..Comma(rev)] == time
  {
    var rev := Record(t, arg, time, isOid).value;
    if t == RevNone {
      CommaOf(time, "");
    } else {
      var more := rev[|time| + 1..];
      assert rev == time + "," + more;
      CommaOf(time, more);
    }
  }

  /** The program accepts what it wrote itself exactly if every date is in the syntax of UTCTime. */
  lemma OwnDatabaseLoads(rows: seq<Row>, listed: set<nat>, unique: bool, isOid: string -> bool)
    requires RowsValid(rows, isOid) && SerialsUnique(rows) && (unique ==> NamesUnique(rows, listed))
    ensures Loads(Written(rows), unique, isOid) <==> AllDatesOk(rows)
  {
    var w := Written(rows);
    forall i | 0 <= i < |rows|
      ensures RowLoads(w[i], isOid) <==> DatesOk(rows[i])
    {
      assert RowValid(rows[i], isOid) && RevDate(w[i]) == RevDate(rows[i]);
      if rows[i].kind == REVOKED {
        RecordedUnpacks(RevDate(rows[i]), isOid);
      }
      hide Unpacked, UtcValid, Recorded, SerialOk;
    }
    hide RowLoads, DatesOk, RowValid;
    assert SerialsUnique(w);
    if unique {
      forall i, j | 0 <= i < j < |rows| && w[i].kind == VALID && w[j].kind == VALID
        ensures w[i].name != w[j].name
      {
        assert rows[i].kind == VALID && rows[j].kind == VALID;
      }
    }
  }

  lemma RowRevoked(rows: seq<Row>, i: nat, t: RevType, arg: string, now: Clock, isOid: string -> bool)
    requires RowsValid(rows, isOid) && i < |rows| && rows[i].kind != REVOKED && ValidClock(now)
    requires Record(t, arg, TimeString(now), isOid).Some?
    ensures var rows' := rows[i := rows[i].(kind := REVOKED, rev := Record(t, arg, TimeString(now), isOid))];
            RowsValid(rows', isOid) && Evolved(rows, rows')
  {
    NoCommaInTime(now);
    var rev := Record(t, arg, TimeString(now), isOid).value;
    assert |TimeString(now)| > 0 && |rev| > 0;
    assert Recorded(rev, isOid);
    hide Record, Recorded, SerialOk;
  }

  lemma PositionAppended(rows: seq<Row>, r: Row)
    requires Position(rows, Key(r.serial)) == |rows|
    ensures Position(rows + [r], Key(r.serial)) == |rows|
  {
    var key := Key(r.serial);
    assert forall i :: 0 <= i < |rows| ==> Key(rows[i].serial) != key;
    assert forall i :: 0 <= i < |rows| ==> Key((rows + [r])[i].serial) != key;
    assert (rows + [r])[|rows|] == r;
    hide Key, Position;
  }

  /** After the insertion the revocation goes on as if the certificate had always been known. */
  lemma RevokeAgain(rows: seq<Row>, r: Row, serial: int, exp: string, name: string, record: Option<string>)
    requires Position(rows, Key(SerialText(serial))) == |rows| && r == NewRow(serial, exp, name)
    ensures Position(rows + [r], Key(SerialText(serial))) == |rows|
    ensures forall free: bool ::
              AfterRevoke(rows + [r], free, serial, exp, name, record) ==
                  AfterRevoke(rows, true, serial, exp, name, record)
  {
    PositionAppended(rows, r);
    hide Position, Key, SerialText;
    var known := rows + [r];
    assert known[|rows|] == r;
  }

  /** Expiry takes steps only. */
  lemma RowsAged(rows: seq<Row>, rows': seq<Row>, now: string, isOid: string -> bool)
    requires RowsValid(rows, isOid) && |rows'| == |rows|
    requires forall i :: 0 <= i < |rows| ==> rows'[i] == Aged(rows[i], now)
    ensures RowsValid(rows', isOid) && Evolved(rows, rows')
  {
    hide Expired, Recorded, SerialOk;
    forall i | 0 <= i < |rows|
      ensures RowValid(rows'[i], isOid)
    {
      assert RowValid(rows[i], isOid);
    }
  }

  /** Expiry marking: a valid row with a well-formed time expires exactly if its instant is at or
      before now, as two digits for the year say it. */
  lemma AgedChronologically(r: Row, now: Clock)
    requires ValidClock(now) && WellFormed(r.exp) && r.kind == VALID
    ensures Aged(r, UtcString(now)).kind == EXPIRED <==> NotAfter(ClockOf(r.exp), Windowed(now))
    ensures 1950 <= now.year < 2050 ==> Windowed(now) == now
  {
    hide Expired, WellFormed, UtcString, NotAfter;
    NowWellFormed(now);
    ExpiredIffNotAfter(r.exp, UtcString(now));
  }

  /** The last instant that a certificate can name with two digits for its year. */
  function Last(): (c: Clock)
    ensures ValidClock(c)
  {
    Clock(2049, 12, 31, 23, 59, 59)
  }

  /** A valid row expires exactly if its time has come. */
  ghost predicate AgesRight(exp: string, now: Clock)
    requires ValidClock(now)
  {
    WellFormed(exp) ==>
      (Aged(Row(VALID, exp, None, "", "", ""), UtcString(now)).kind == EXPIRED <==> NotAfter(ClockOf(exp), now))
  }

  /** When expiry marking is chronological for every well-formed time: in the years 1950 to 2049, and
      later in the last second of each century that two digits make. */
  lemma AgingExact(now: Clock)
    requires ValidClock(now)
    ensures (forall exp: string :: AgesRight(exp, now)) <==>
            1950 <= now.year < 2050 || (2050 <= now.year && Windowed(now) == Last())
  {
    hide AgesRight, UtcString, WellFormed, ClockOf, NotAfter, Windowed, Last, ValidClock;
    NowWellFormed(now);
    EndOfCentury(now);
    forall exp: string | 1950 <= now.year < 2050 || (2050 <= now.year && Windowed(now) == Last())
      ensures AgesRight(exp, now)
    {
      AgesRightIs(exp, now);
      if WellFormed(exp) {
        BeforeLast(exp);
        LateClock(ClockOf(exp), now);
      }
    }
    if now.year < 1950 {
      AgesRightIs(UtcString(now), now);
      LateClock(Windowed(now), now);
    } else if 2050 <= now.year && Windowed(now) != Last() {
      NowWellFormed(Last());
      AgesRightIs(UtcString(Last()), now);
      LateClock(Last(), now);
    }
  }

  lemma AgesRightIs(exp: string, now: Clock)
    requires ValidClock(now)
    ensures AgesRight(exp, now) <==>
            (WellFormed(exp) ==> (NotAfter(ClockOf(exp), Windowed(now)) <==> NotAfter(ClockOf(exp), now)))
  {
    hide Aged, UtcString, WellFormed, ClockOf, NotAfter;
    if WellFormed(exp) {
      AgedChronologically(Row(VALID, exp, None, "", "", ""), now);
    }
  }

  /** How an instant of 1950 to 2049 compares with the clock and with what two digits make of it. */
  lemma LateClock(c: Clock, now: Clock)
    requires ValidClock(now)
    ensures c.year < 2050 <= now.year ==> NotAfter(c, now)
    ensures c.year < 2050 <= now.year && Windowed(now) == Last() && NotAfter(c, Last()) ==> NotAfter(c, Windowed(now))
    ensures now.year < 1950 ==> NotAfter(Windowed(now), Windowed(now)) && !NotAfter(Windowed(now), now)
    ensures 2050 <= now.year && Windowed(now) != Last() ==> NotAfter(Last(), now) && !NotAfter(Last(), Windowed(now))
    ensures Windowed(Last()) == Last()
  {
  }

  lemma BeforeLast(exp: string)
    requires WellFormed(exp)
    ensures ClockOf(exp).year < 2050 && NotAfter(ClockOf(exp), Last())
  {
    hide UtcValid;
    PairsInRange(exp);
  }

  lemma PairsInRange(exp: string)
    requires WellFormed(exp)
    ensures 0 <= Pair(exp, 0) < 100 && Pair(exp, 2) <= 12 && Pair(exp, 4) <= 31 && Pair(exp, 6) < 24
    ensures Pair(exp, 8) < 60 && Pair(exp, 10) < 60
  {
  }

  lemma EndOfCentury(now: Clock)
    ensures Last().year < 2050 && (now.year == 2050 ==> Windowed(now) != Last())
  {
  }

  /** From 2050 on no certificate of this century expires until its two digits come round: one of 2049
      is valid in 2050. */
  lemma AgingExample()
    ensures var now := Clock(2050, 1, 1, 0, 0, 0);
            NotAfter(Last(), now) && Aged(NewRow(1, UtcString(Last()), "/CN=a"), UtcString(now)).kind == VALID
  {
    hide UtcString, SerialText, NotAfter, Expired, WellFormed, ClockOf, Windowed, Last;
    NowWellFormed(Last());
    var now := Clock(2050, 1, 1, 0, 0, 0);
    AgedChronologically(NewRow(1, UtcString(Last()), "/CN=a"), now);
    LateClock(Last(), now);
    EndOfCentury(now);
  }

  lemma EvolvedReflexive(rows: seq<Row>)
    ensures Evolved(rows, rows)
  {
  }
}
