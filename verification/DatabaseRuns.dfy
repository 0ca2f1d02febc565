/** What a run of the program's operations makes of its database. */
module DatabaseRuns {
  import opened CStrings
  import opened Wrappers
  import opened TimeRules
  import opened RevocationRules
  import opened ExpiryRules
  import opened SerialRules
  import opened DatabaseRules

  /** lh_strhash, of which only this matters: a name that is not there, or empty, has the hash zero. */
  type NameHash = h: string -> nat | h("") == 0 witness _ => 0

  /** Whether subjects must be unique; the object identifiers; and the hash of the name index. */
  datatype Setting = Setting(unique: bool, isOid: string -> bool, hash: NameHash)

  /** The rows, and which of them are in the index of names. */
  datatype State = State(rows: seq<Row>, listed: set<nat>)

  ghost predicate StateValid(d: State, c: Setting) {
    && RowsValid(d.rows, c.isOid) && SerialsUnique(d.rows)
    && if c.unique then NamesUnique(d.rows, d.listed) else d.listed == {}
  }

  /** The operations of the program. */
  datatype Command =
    | Issuing(serial: int, notAfter: string, name: string)
    | Revoking(serial: int, name: string, notAfter: string, t: RevType, arg: string, now: Clock)
    | Expiring(now: Clock)

  predicate CommandOk(c: Command) {
    match c
    case Issuing(_, _, _) => true
    case Revoking(_, _, _, _, arg, now) => ValidClock(now) && NUL !in arg
    case Expiring(now) => ValidClock(now)
  }

  /** No name in the index has the hash of a name that is not there. */
  ghost predicate NoneHashesToNull(d: State, c: Setting) {
    forall i :: i in d.listed && i < |d.rows| ==> c.hash(d.rows[i].name) != 0
  }

  /** The search for a name that is not set yet compares no row with it. */
  ghost predicate SearchSafe(d: State, c: Setting) {
    c.unique ==> NoneHashesToNull(d, c)
  }

  ghost predicate Accepted(d: State, c: Setting, serial: int, name: string) {
    Position(d.rows, Key(SerialText(serial))) == |d.rows| && (c.unique ==> NameFree(d.rows, d.listed, name))
  }

  /** A new row at the end. */
  function Added(d: State, c: Setting, r: Row): State {
    State(d.rows + [r], if c.unique then d.listed + {|d.rows|} else d.listed)
  }

  /** A revocation, in terms of the rows. */
  ghost function Revoked(d: State, c: Setting, cmd: Command): (bool, seq<Row>)
    requires cmd.Revoking? && CommandOk(cmd)
  {
    AfterRevoke(d.rows, c.unique ==> NameFree(d.rows, d.listed, cmd.name), cmd.serial, cmd.notAfter, cmd.name,
                Record(cmd.t, cmd.arg, TimeString(cmd.now), c.isOid))
  }

  function AllAged(rows: seq<Row>, now: string): (r: seq<Row>)
    ensures |r| == |rows| && forall i :: 0 <= i < |r| ==> r[i] == Aged(rows[i], now)
  {
    seq(|rows|, i requires 0 <= i < |rows| => Aged(rows[i], now))
  }

  /** The database after an operation that runs to its end. */
  ghost function Effect(d: State, c: Setting, cmd: Command): State
    requires CommandOk(cmd)
  {
    match cmd
    case Issuing(serial, notAfter, name) =>
      if Accepted(d, c, serial, name) then Added(d, c, NewRow(serial, notAfter, name)) else d
    case Revoking(_, _, _, _, _, _) =>
      var rows := Revoked(d, c, cmd).1;
      State(rows, if |rows| > |d.rows| then Added(d, c, rows[|d.rows|]).listed else d.listed)
    case Expiring(now) => State(AllAged(d.rows, UtcString(now)), d.listed)
  }

  /** An operation that does not compare a name with null. */
  ghost predicate Safe(d: State, c: Setting, cmd: Command) {
    cmd.Issuing? ==> SearchSafe(d, c)
  }

  ghost predicate CommandsOk(cmds: seq<Command>) {
    forall cmd :: cmd in cmds ==> CommandOk(cmd)
  }

  /** A run, as far as it goes. */
  ghost function Effects(d: State, c: Setting, cmds: seq<Command>): State
    requires CommandsOk(cmds)
    decreases |cmds|
  {
    if cmds == [] || !Safe(d, c, cmds[0]) then d else Effects(Effect(d, c, cmds[0]), c, cmds[1..])
  }

  /** All operations of a run are safe. */
  ghost predicate AllSafe(d: State, c: Setting, cmds: seq<Command>)
    requires CommandsOk(cmds)
    decreases |cmds|
  {
    cmds == [] || (Safe(d, c, cmds[0]) && AllSafe(Effect(d, c, cmds[0]), c, cmds[1..]))
  }

  /** The times that an operation brings into the database are printed as UTCTime. */
  ghost predicate Dated(d: State, c: Setting, cmd: Command)
    requires CommandOk(cmd)
  {
    match cmd
    case Issuing(serial, notAfter, name) => Accepted(d, c, serial, name) ==> UtcValid(notAfter)
    case Revoking(_, _, notAfter, _, _, now) =>
      var (ok, rows) := Revoked(d, c, cmd);
      (|rows| > |d.rows| ==> UtcValid(notAfter)) && (ok ==> 1950 <= now.year < 2050)
    case Expiring(_) => true
  }

  /** So are those of a run. */
  ghost predicate AllDated(d: State, c: Setting, cmds: seq<Command>)
    requires CommandsOk(cmds)
    decreases |cmds|
  {
    cmds == [] || !Safe(d, c, cmds[0]) ||
    (Dated(d, c, cmds[0]) && AllDated(Effect(d, c, cmds[0]), c, cmds[1..]))
  }

  lemma AddedDates(rows: seq<Row>, serial: int, exp: string, name: string)
    ensures AllDatesOk(rows + [NewRow(serial, exp, name)]) <==> AllDatesOk(rows) && UtcValid(exp)
  {
    hide UtcValid, SerialText, DatesOk;
    var r := NewRow(serial, exp, name);
    assert (rows + [r])[|rows|] == r;
    assert forall i :: 0 <= i < |rows| ==> (rows + [r])[i] == rows[i];
    NewDates(serial, exp, name);
  }

  lemma NewDates(serial: int, exp: string, name: string)
    ensures DatesOk(NewRow(serial, exp, name)) <==> UtcValid(exp)
  {
    hide UtcValid, SerialText;
  }

  /** Revocation at one place of the rows. */
  lemma RevokedDates(rows: seq<Row>, p: nat, t: RevType, arg: string, now: Clock, isOid: string -> bool)
    requires p < |rows| && rows[p].kind != REVOKED && ValidClock(now)
    requires Record(t, arg, TimeString(now), isOid).Some?
    ensures var rows' := rows[p := rows[p].(kind := REVOKED, rev := Record(t, arg, TimeString(now), isOid))];
            AllDatesOk(rows') <==> AllDatesOk(rows) && 1950 <= now.year < 2050
  {
    hide UtcValid, Record, TimeString;
    TimeStringValid(now);
    NoCommaInTime(now);
    RecordStarts(t, arg, TimeString(now), isOid);
    var rows' := rows[p := rows[p].(kind := REVOKED, rev := Record(t, arg, TimeString(now), isOid))];
    assert AllDatesOk(rows) ==> DatesOk(rows[p]);
    assert AllDatesOk(rows') ==> DatesOk(rows'[p]);
    assert forall i :: 0 <= i < |rows| && i != p ==> rows'[i] == rows[i];
  }

  lemma RevocationDates(d: State, c: Setting, cmd: Command)
    requires CommandOk(cmd) && cmd.Revoking?
    ensures AllDatesOk(Revoked(d, c, cmd).1) <==> AllDatesOk(d.rows) && Dated(d, c, cmd)
  {
    hide UtcValid, Record, TimeString, Position, NameFree, AllDatesOk, NewRow, Key, SerialText;
    var p := Position(d.rows, Key(SerialText(cmd.serial)));
    var record := Record(cmd.t, cmd.arg, TimeString(cmd.now), c.isOid);
    var r := NewRow(cmd.serial, cmd.notAfter, cmd.name);
    AddedDates(d.rows, cmd.serial, cmd.notAfter, cmd.name);
    var known := if p == |d.rows| then d.rows + [r] else d.rows;
    if record.Some? && known[p].kind != REVOKED {
      RevokedDates(known, p, cmd.t, cmd.arg, cmd.now, c.isOid);
    }
  }

  lemma AgedDates(rows: seq<Row>, now: string)
    ensures AllDatesOk(AllAged(rows, now)) <==> AllDatesOk(rows)
  {
    hide UtcValid, Expired;
    var rows' := AllAged(rows, now);
    assert forall i :: 0 <= i < |rows| ==> (DatesOk(rows'[i]) <==> DatesOk(rows[i]));
    hide DatesOk;
  }

  /** The dates stay in time exactly if they were, and what the operation brings is. */
  lemma EffectDates(d: State, c: Setting, cmd: Command)
    requires CommandOk(cmd)
    ensures AllDatesOk(Effect(d, c, cmd).rows) <==> AllDatesOk(d.rows) && Dated(d, c, cmd)
  {
    hide AllDatesOk, Revoked, Accepted, UtcValid, NewRow, UtcString;
    match cmd
    case Issuing(serial, notAfter, name) => AddedDates(d.rows, serial, notAfter, name);
    case Revoking(_, _, _, _, _, _) => RevocationDates(d, c, cmd);
    case Expiring(now) => AgedDates(d.rows, UtcString(now));
  }

  /** A run leaves all dates in time exactly if they were, and what each operation that took effect
      brought is. */
  lemma {:induction false} EffectsDates(d: State, c: Setting, cmds: seq<Command>)
    requires CommandsOk(cmds)
    ensures AllDatesOk(Effects(d, c, cmds).rows) <==> AllDatesOk(d.rows) && AllDated(d, c, cmds)
    decreases |cmds|
  {
    hide AllDatesOk, Effect, Safe, Dated, CommandOk;
    if cmds != [] && Safe(d, c, cmds[0]) {
      EffectDates(d, c, cmds[0]);
      EffectsDates(Effect(d, c, cmds[0]), c, cmds[1..]);
    }
  }

  /** The times of a command are printed as UTCTime, whatever becomes of it. */
  predicate InTime(c: Command) {
    match c
    case Issuing(_, notAfter, _) => UtcValid(notAfter)
    case Revoking(_, _, notAfter, _, _, now) => UtcValid(notAfter) && 1950 <= now.year < 2050
    case Expiring(_) => true
  }

  lemma {:induction false} InTimeDated(d: State, c: Setting, cmds: seq<Command>)
    requires CommandsOk(cmds) && forall cmd :: cmd in cmds ==> InTime(cmd)
    ensures AllDated(d, c, cmds)
    decreases |cmds|
  {
    if cmds != [] && Safe(d, c, cmds[0]) {
      assert InTime(cmds[0]);
      hide UtcValid, Effect, Safe, Revoked, Accepted, CommandOk;
      InTimeDated(Effect(d, c, cmds[0]), c, cmds[1..]);
    }
  }

  /** The name of a command, if it has one, is not hashed to zero. */
  predicate Hashed(cmd: Command, c: Setting) {
    !cmd.Expiring? ==> c.hash(cmd.name) != 0
  }

  lemma EffectHashed(d: State, c: Setting, cmd: Command)
    requires CommandOk(cmd) && Hashed(cmd, c) && NoneHashesToNull(d, c)
    ensures NoneHashesToNull(Effect(d, c, cmd), c)
  {
    hide UtcString, Expired, Record, TimeString, SerialText, NameFree, Accepted;
    if cmd.Revoking? {
      EffectNames(d, c, cmd);
      hide Revoked;
    }
  }

  lemma EffectNames(d: State, c: Setting, cmd: Command)
    requires CommandOk(cmd) && cmd.Revoking?
    ensures var rows := Revoked(d, c, cmd).1;
            && |d.rows| <= |rows| && (forall i :: 0 <= i < |d.rows| ==> rows[i].name == d.rows[i].name)
            && forall i :: |d.rows| <= i < |rows| ==> rows[i].name == cmd.name
  {
    hide Record, TimeString, SerialText, NameFree, Position, Key;
  }

  /** Runs that meet no name with the hash zero, as the empty one has it, are safe. */
  lemma {:induction false} HashedSafe(d: State, c: Setting, cmds: seq<Command>)
    requires CommandsOk(cmds) && NoneHashesToNull(d, c) && forall cmd :: cmd in cmds ==> Hashed(cmd, c)
    ensures AllSafe(d, c, cmds)
    decreases |cmds|
  {
    hide Effect, CommandOk;
    if cmds != [] {
      assert Hashed(cmds[0], c);
      EffectHashed(d, c, cmds[0]);
      hide Hashed, NoneHashesToNull;
      HashedSafe(Effect(d, c, cmds[0]), c, cmds[1..]);
    }
  }

  lemma RevokedEvolves(d: State, c: Setting, cmd: Command)
    requires CommandOk(cmd) && cmd.Revoking?
    ensures Evolved(d.rows, Revoked(d, c, cmd).1)
    ensures var rows := Revoked(d, c, cmd).1; |d.rows| <= |rows| <= |d.rows| + 1
  {
    hide AfterRevoke, Record, Position, NameFree;
    AfterRevokeEvolves(d.rows, c.unique ==> NameFree(d.rows, d.listed, cmd.name), cmd.serial, cmd.notAfter, cmd.name,
                       Record(cmd.t, cmd.arg, TimeString(cmd.now), c.isOid));
  }

  lemma AgedEvolves(rows: seq<Row>, rows': seq<Row>, now: string)
    requires |rows'| == |rows| && forall i :: 0 <= i < |rows| ==> rows'[i] == Aged(rows[i], now)
    ensures Evolved(rows, rows') && rows' == AllAged(rows, now)
  {
    hide Expired;
  }

  /** `k` operations of a run have led to the database `d`, and the others are still to come. */
  ghost predicate Ahead(d0: State, c: Setting, cmds: seq<Command>, k: nat, d: State) {
    && k <= |cmds| && CommandsOk(cmds) && CommandsOk(cmds[k..])
    && Effects(d0, c, cmds) == Effects(d, c, cmds[k..])
    && (AllSafe(d0, c, cmds) <==> AllSafe(d, c, cmds[k..]))
  }

  lemma WholeRun(d: State, c: Setting, cmds: seq<Command>)
    requires CommandsOk(cmds)
    ensures Ahead(d, c, cmds, 0, d)
  {
    assert cmds[0..] == cmds;
  }

  lemma RunStep(d0: State, c: Setting, cmds: seq<Command>, k: nat, d: State)
    requires k < |cmds| && Ahead(d0, c, cmds, k, d)
    ensures CommandOk(cmds[k])
    ensures Safe(d, c, cmds[k]) ==> Ahead(d0, c, cmds, k + 1, Effect(d, c, cmds[k]))
    ensures !Safe(d, c, cmds[k]) ==> Effects(d0, c, cmds) == d && !AllSafe(d0, c, cmds)
  {
    hide Effect, Safe, CommandOk;
    assert cmds[k..][1..] == cmds[k + 1..] && cmds[k..][0] == cmds[k];
  }

  lemma RunDone(d0: State, c: Setting, cmds: seq<Command>, d: State)
    requires Ahead(d0, c, cmds, |cmds|, d)
    ensures Effects(d0, c, cmds) == d && AllSafe(d0, c, cmds)
  {
  }

  /** A revocation of a certificate that the database knows. */
  lemma RevokedKnown(d: State, c: Setting, cmd: Command)
    requires CommandOk(cmd) && cmd.Revoking? && Position(d.rows, Key(SerialText(cmd.serial))) < |d.rows|
    ensures var p := Position(d.rows, Key(SerialText(cmd.serial)));
            var record := Record(cmd.t, cmd.arg, TimeString(cmd.now), c.isOid);
            Revoked(d, c, cmd) ==
            if d.rows[p].name == cmd.name && d.rows[p].kind != REVOKED && record.Some?
            then (true, d.rows[p := d.rows[p].(kind := REVOKED, rev := record)]) else (false, d.rows)
  {
    hide Record, TimeString, Position, Key, SerialText, NameFree;
  }

  /** Of one that it does not know: the same as if it were inserted first. */
  lemma RevokedUnknown(d: State, c: Setting, cmd: Command)
    requires CommandOk(cmd) && cmd.Revoking? && Position(d.rows, Key(SerialText(cmd.serial))) == |d.rows|
    ensures var r := NewRow(cmd.serial, cmd.notAfter, cmd.name);
            if c.unique && !NameFree(d.rows, d.listed, cmd.name) then Revoked(d, c, cmd) == (false, d.rows)
            else Revoked(d, c, cmd) == Revoked(Added(d, c, r), c, cmd) && |Revoked(d, c, cmd).1| == |d.rows| + 1
                 && Position(d.rows + [r], Key(SerialText(cmd.serial))) == |d.rows|
  {
    hide Record, TimeString, Position, Key, SerialText, NameFree;
    var r := NewRow(cmd.serial, cmd.notAfter, cmd.name);
    RevokeAgain(d.rows, r, cmd.serial, cmd.notAfter, cmd.name, Record(cmd.t, cmd.arg, TimeString(cmd.now), c.isOid));
  }

  /** The revocation date that is written: what it says of the revocation, and that its time is now. */
  lemma RevokedDenotes(d: State, c: Setting, cmd: Command)
    requires CommandOk(cmd) && cmd.Revoking? && Revoked(d, c, cmd).0
    ensures var rows, p := Revoked(d, c, cmd).1, Position(d.rows, Key(SerialText(cmd.serial)));
            p < |rows| && rows[p].kind == REVOKED && DatedNow(RevDate(rows[p]), cmd, c)
  {
    hide Record, TimeString, Position, Key, SerialText, NameFree, DatedNow;
    RecordedNow(cmd, c);
  }

  lemma RevokedIff(d: State, c: Setting, cmd: Command)
    requires CommandOk(cmd) && cmd.Revoking?
    ensures var p := Position(d.rows, Key(SerialText(cmd.serial)));
            Revoked(d, c, cmd).0 <==>
            Record(cmd.t, cmd.arg, TimeString(cmd.now), c.isOid).Some?
            && if p < |d.rows| then d.rows[p].name == cmd.name && d.rows[p].kind != 'R'
               else c.unique ==> NameFree(d.rows, d.listed, cmd.name)
  {
    hide Record, TimeString, Position, Key, SerialText, NameFree;
  }

  /** A record of a revocation is dated by the clock. */
  predicate DatedNow(rev: string, cmd: Command, c: Setting)
    requires CommandOk(cmd) && cmd.Revoking?
  {
    var time := rev[..Comma(rev)];
    if 1950 <= cmd.now.year < 2050 then
      && WellFormed(time) && ClockOf(time) == cmd.now
      && Unpacked(rev, c.isOid) == Some(Meant(cmd.t, cmd.arg, time))
    else LongForm(time) && LongClock(time) == cmd.now && Unpacked(rev, c.isOid) == None
  }

  lemma RecordedNow(cmd: Command, c: Setting)
    requires CommandOk(cmd) && cmd.Revoking?
    ensures var record := Record(cmd.t, cmd.arg, TimeString(cmd.now), c.isOid);
            record.Some? ==> DatedNow(record.value, cmd, c)
  {
    hide Record, TimeString, Unpacked, Meant, WellFormed, LongForm, ClockOf, LongClock;
    var time := TimeString(cmd.now);
    TimeStringDenotes(cmd.now);
    NoCommaInTime(cmd.now);
    if Record(cmd.t, cmd.arg, time, c.isOid).Some? {
      RecordStarts(cmd.t, cmd.arg, time, c.isOid);
      ClockRoundTrip(cmd.t, cmd.arg, cmd.now, c.isOid);
    }
  }
}
