/** The database of the CA in memory: issuing, revoking, expiry and the checks at loading. */
module CaDatabase {
  import opened CStrings
  import opened Wrappers
  import opened TimeRules
  import opened RevocationRules
  import opened ExpiryRules
  import NumberRules
  import opened SerialRules
  import opened DatabaseRules
  import opened DatabaseRuns
  import Revocation
  import Times

  class Database {
    var rows: seq<Row>
    /** The rows in the index of names, which exists only where subjects must be unique. */
    var listed: set<nat>
    const unique: bool
    const isOid: string -> bool
    const hash: NameHash

    ghost predicate Valid()
      reads this
    {
      && RowsValid(rows, isOid) && SerialsUnique(rows)
      && if unique then NamesUnique(rows, listed) else listed == {}
    }

    /** The database as a value, and what it is set to. */
    ghost function Value(): State
      reads this
    {
      State(rows, listed)
    }

    ghost function Settings(): Setting {
      Setting(unique, isOid, hash)
    }

    constructor (unique: bool, isOid: string -> bool, hash: NameHash)
      ensures Valid() && Value() == State([], {}) && Settings() == Setting(unique, isOid, hash)
    {
      this.unique, this.isOid, this.hash := unique, isOid, hash;
      rows, listed := [], {};
    }

    /** TXT_DB_get_by_index for the serial number; -1 if there is no such row. */
    method BySerial(serial: string) returns (i: int)
      ensures i == if Position(rows, Key(serial)) == |rows| then -1 else Position(rows, Key(serial))
    {
      i := 0;
      while i < |rows| && Key(rows[i].serial) != Key(serial)
        invariant 0 <= i <= |rows| && forall k :: 0 <= k < i ==> Key(rows[k].serial) != Key(serial)
      {
        i := i + 1;
      }
      assert i < |rows| ==> Key(rows[i].serial) == Key(serial);
      ghost var p := Position(rows, Key(serial));
      assert p < |rows| ==> Key(rows[p].serial) == Key(serial);
      if i == |rows| {
        i := -1;
      }
    }

    /** TXT_DB_get_by_index for the name. */
    method ByName(name: string) returns (found: bool)
      ensures found <==> !NameFree(rows, listed, name)
    {
      for i := 0 to |rows|
        invariant forall k :: 0 <= k < i && k in listed ==> rows[k].name != name
      {
        if i in listed && rows[i].name == name {
          return true;
        }
      }
      found := false;
    }

    /** TXT_DB_insert: both indices are asked first. */
    method Insert(r: Row) returns (ok: bool)
      requires Valid() && RowValid(r, isOid)
      modifies this
      ensures Valid()
      ensures ok <==> Position(old(rows), Key(r.serial)) == |old(rows)| &&
                      (unique && r.kind == VALID ==> NameFree(old(rows), old(listed), r.name))
      ensures rows == if ok then old(rows) + [r] else old(rows)
      ensures listed == if ok && unique && r.kind == VALID then old(listed) + {|old(rows)|} else old(listed)
    {
      var i := BySerial(r.serial);
      if i >= 0 {
        return false;
      }
      RowAdded(rows, r, listed, isOid);
      hide RowValid, RowsValid, SerialsUnique, NamesUnique, Key, NameFree;
      if unique && r.kind == VALID {
        var clash := ByName(r.name);
        if clash {
          return false;
        }
        listed := listed + {|rows|};
      }
      rows := rows + [r];
      ok := true;
    }

    /** TXT_DB_get_by_index for a name that is not set yet: its hash is zero, and the comparison is with
        null at the first indexed row whose name has that hash. */
    method ByNoName() returns (safe: bool)
      requires unique
      ensures safe <==> NoneHashesToNull(Value(), Settings())
    {
      for i := 0 to |rows|
        invariant forall k :: 0 <= k < i && k in listed ==> hash(rows[k].name) != 0
      {
        if i in listed && hash(rows[i].name) == 0 {
          return false;
        }
      }
      safe := true;
    }

    /** The end of do_body: a certificate goes into the database unless its serial number, or its
        name where it has to be unique, is taken. `safe` is false where a name is compared with
        null; the source gets no further then. */
    method Issue(serial: int, notAfter: string, name: string) returns (safe: bool, ok: int)
      requires Valid()
      modifies this
      ensures Valid() && Evolved(old(rows), rows) && ok in {1, -1}
      ensures safe <==> !(unique && exists i :: i in old(listed) && i < |old(rows)| && hash(old(rows)[i].name) == 0)
      ensures ok == 1 <==> safe && Position(old(rows), Key(SerialText(serial))) == |old(rows)| &&
                           (unique ==> NameFree(old(rows), old(listed), name))
      ensures rows == if ok == 1 then old(rows) + [Row('V', notAfter, None, SerialText(serial), "unknown", name)]
                      else old(rows)
      ensures Value() == if !safe then old(Value())
                         else Effect(old(Value()), Settings(), Issuing(serial, notAfter, name))
    {
      hide RowValid, RowsValid, SerialsUnique, NamesUnique, Key, SerialText, Position, NameFree;
      var text := SerialText(serial);
      safe, ok := true, -1;
      EvolvedReflexive(rows);
      if unique {
        safe := ByNoName();
        if !safe {
          return;
        }
      }
      var i := BySerial(text);
      if i >= 0 {
        return;
      }
      NewRowValid(serial, notAfter, name, isOid);
      ValidAdded(rows, NewRow(serial, notAfter, name), isOid);
      var inserted := Insert(NewRow(serial, notAfter, name));
      if inserted {
        ok := 1;
      }
    }

    /** do_revoke. A certificate that the database does not know is inserted, and the call begins
        again; the second time it is there. */
    method Revoke(serial: int, name: string, notAfter: string, t: RevType, arg: string, now: Clock) returns (ok: int)
      requires Valid() && ValidClock(now) && NUL !in arg
      modifies this
      ensures Valid() && ok in {1, -1}
      ensures (ok == 1, rows) == Revoked(old(Value()), Settings(), Revoking(serial, name, notAfter, t, arg, now))
      // it succeeds exactly for a row with that name that is not revoked yet, or for a new one
      ensures var p := Position(old(rows), Key(SerialText(serial)));
              ok == 1 <==> Record(t, arg, TimeString(now), isOid).Some?
                           && if p < |old(rows)| then old(rows)[p].name == name && old(rows)[p].kind != 'R'
                              else unique ==> NameFree(old(rows), old(listed), name)
      // the row of the certificate is revoked, and its date says when: now
      ensures ok == 1 ==>
                var p := Position(old(rows), Key(SerialText(serial)));
                && p < |rows| && rows[p].kind == 'R' && rows[p].name == name
                && DatedNow(RevDate(rows[p]), Revoking(serial, name, notAfter, t, arg, now), Settings())
      ensures listed == if unique && |rows| > |old(rows)| then old(listed) + {|old(rows)|} else old(listed)
      decreases |rows| == Position(rows, Key(SerialText(serial)))
    {
      hide RowValid, RowsValid, SerialsUnique, NamesUnique, Key, SerialText, NameFree, Record, Position, Revoked;
      ghost var cmd := Revoking(serial, name, notAfter, t, arg, now);
      RevokedIff(Value(), Settings(), cmd);
      if Revoked(Value(), Settings(), cmd).0 {
        RevokedDenotes(Value(), Settings(), cmd);
      }
      var text := SerialText(serial);
      var i := BySerial(text);
      if i < 0 {
        NewRowValid(serial, notAfter, name, isOid);
        RevokedUnknown(Value(), Settings(), cmd);
        var inserted := Insert(NewRow(serial, notAfter, name));
        if !inserted {
          return -1;
        }
        ok := Revoke(serial, name, notAfter, t, arg, now);
      } else {
        RevokedKnown(Value(), Settings(), cmd);
        ok := RevokeKnown(i, serial, name, t, arg, now);
      }
    }

    /** The rest of do_revoke, for a row that is there. */
    method RevokeKnown(i: nat, serial: int, name: string, t: RevType, arg: string, now: Clock) returns (ok: int)
      requires Valid() && ValidClock(now) && NUL !in arg && i < |rows|
      modifies this`rows
      ensures Valid() && ok in {1, -1}
      ensures var record := Record(t, arg, TimeString(now), isOid);
              && (ok == 1 <==> old(rows)[i].name == name && old(rows)[i].kind != REVOKED && record.Some?)
              && rows == if ok == 1 then old(rows)[i := old(rows)[i].(kind := REVOKED, rev := record)] else old(rows)
    {
      if rows[i].name != name {
        return -1;
      }
      if rows[i].kind == REVOKED {
        return -1;
      }
      NoCommaInTime(now);
      hide RowsValid, SerialsUnique, NamesUnique, Key;
      var revStr := Revocation.MakeRevocationStr(t, arg, TimeString(now), isOid);
      if revStr == null {
        return -1;
      }
      ghost var record := Record(t, arg, TimeString(now), isOid);
      var rev := Revocation.ReadText(revStr, 0, record.value);
      RowRevoked(rows, i, t, arg, now, isOid);
      RowsStepped(rows, rows[i := rows[i].(kind := REVOKED, rev := Some(rev))], listed, isOid);
      rows := rows[i := rows[i].(kind := REVOKED, rev := Some(rev))];
      ok := 1;
    }

    /** The body of the loop of do_updatedb. */
    method AgeRow(i: nat, a: string) returns (done: bool)
      requires i < |rows|
      modifies this`rows
      ensures rows == old(rows)[i := Aged(old(rows)[i], a)]
      ensures done <==> rows[i] != old(rows)[i]
    {
      hide Until49, StrLeq;
      done := false;
      if rows[i].kind == VALID {
        var dbY2k, aY2k := Until49(rows[i].exp), Until49(a);
        if dbY2k == aY2k {
          done := StrLeq(rows[i].exp, a);
        } else {
          done := !dbY2k && aY2k;
        }
      }
      if done {
        rows := rows[i := rows[i].(kind := EXPIRED)];
      }
    }

    /** do_updatedb: valid rows whose time has come expire; the number of them is returned. */
    method UpdateDb(now: Clock) returns (cnt: nat)
      requires Valid() && ValidClock(now)
      modifies this`rows
      ensures Valid() && |rows| == |old(rows)|
      ensures forall i :: 0 <= i < |rows| ==> rows[i] == Aged(old(rows)[i], UtcString(now))
      ensures cnt == |set i | 0 <= i < |rows| && rows[i] != old(rows)[i]|
    {
      hide RowsValid, SerialsUnique, NamesUnique, Aged;
      cnt := AgeRows(UtcString(now));
      RowsAged(old(rows), rows, UtcString(now), isOid);
      RowsStepped(old(rows), rows, listed, isOid);
    }

    /** The loop of do_updatedb. */
    method AgeRows(a: string) returns (cnt: nat)
      modifies this`rows
      ensures |rows| == |old(rows)| && forall i :: 0 <= i < |rows| ==> rows[i] == Aged(old(rows)[i], a)
      ensures cnt == |set i | 0 <= i < |rows| && rows[i] != old(rows)[i]|
    {
      hide Aged;
      cnt := 0;
      ghost var changed: set<int> := {};
      for i := 0 to |rows|
        invariant |rows| == |old(rows)| && cnt == |changed|
        invariant forall k :: 0 <= k < i ==> rows[k] == Aged(old(rows)[k], a)
        invariant forall k :: i <= k < |rows| ==> rows[k] == old(rows)[k]
        invariant forall k :: k in changed <==> 0 <= k < |rows| && rows[k] != old(rows)[k]
      {
        var done := AgeRow(i, a);
        if done {
          cnt, changed := cnt + 1, changed + {i};
        }
      }
      assert changed == set i | 0 <= i < |rows| && rows[i] != old(rows)[i];
    }

    /** One operation of the program on its database. */
    method Perform(cmd: Command) returns (safe: bool)
      requires Valid() && CommandOk(cmd)
      modifies this
      ensures Valid() && Evolved(old(rows), rows) && (safe <==> Safe(old(Value()), Settings(), cmd))
      ensures Value() == if safe then Effect(old(Value()), Settings(), cmd) else old(Value())
    {
      hide RowsValid, SerialsUnique, NamesUnique, NameFree, Key, SerialText, RowValid, Position, Evolved, Revoked;
      safe := true;
      match cmd
      case Issuing(serial, notAfter, name) =>
        var ok;
        safe, ok := Issue(serial, notAfter, name);
      case Revoking(serial, name, notAfter, t, arg, now) =>
        RevokedEvolves(Value(), Settings(), cmd);
        var ok := Revoke(serial, name, notAfter, t, arg, now);
      case Expiring(now) =>
        var cnt := UpdateDb(now);
        AgedEvolves(old(rows), rows, UtcString(now));
    }

    /** A run of the program, which ends where a name is compared with null. It keeps serial numbers
        unique, revocation dates with revoked rows and revoked rows as they are; and the database can
        be loaded again exactly if all dates were in time and each operation that took effect brought
        such ones. */
    method Run(cmds: seq<Command>) returns (safe: bool)
      requires Valid() && CommandsOk(cmds)
      modifies this
      ensures Valid() && Evolved(old(rows), rows) && (safe <==> AllSafe(old(Value()), Settings(), cmds))
      ensures Value() == Effects(old(Value()), Settings(), cmds)
      ensures Loads(Written(rows), unique, isOid) <==> AllDatesOk(old(rows)) && AllDated(old(Value()), Settings(), cmds)
      ensures AllDatesOk(old(rows)) && (forall c :: c in cmds ==> InTime(c)) ==> Loads(Written(rows), unique, isOid)
    {
      hide Loads, AllDatesOk, AllDated, Effects, AllSafe, CommandsOk, InTime, Evolved;
      hide RowsValid, SerialsUnique, NamesUnique;
      EffectsDates(Value(), Settings(), cmds);
      if forall c :: c in cmds ==> InTime(c) {
        InTimeDated(Value(), Settings(), cmds);
      }
      safe := RunAll(cmds);
      ValidLoads();
    }

    lemma ValidLoads()
      requires Valid()
      ensures Loads(Written(rows), unique, isOid) <==> AllDatesOk(Value().rows)
    {
      hide RowsValid, SerialsUnique, NamesUnique, Loads, AllDatesOk;
      OwnDatabaseLoads(rows, listed, unique, isOid);
    }

    /** One operation after the other. */
    method RunAll(cmds: seq<Command>) returns (safe: bool)
      requires Valid() && CommandsOk(cmds)
      modifies this
      ensures Valid() && Evolved(old(rows), rows) && (safe <==> AllSafe(old(Value()), Settings(), cmds))
      ensures Value() == Effects(old(Value()), Settings(), cmds)
    {
      hide *;
      EvolvedReflexive(rows);
      WholeRun(Value(), Settings(), cmds);
      for k := 0 to |cmds|
        invariant Valid() && Evolved(old(rows), rows) && Ahead(old(Value()), Settings(), cmds, k, Value())
      {
        ghost var d, before := Value(), rows;
        RunStep(old(Value()), Settings(), cmds, k, d);
        safe := Perform(cmds[k]);
        EvolvedTwice(old(rows), before, rows);
        if !safe {
          return;
        }
      }
      RunDone(old(Value()), Settings(), cmds, Value());
      safe := true;
    }

    /** A database with an empty name, in which the next certificate is compared with null. */
    static method EmptyNameExample(isOid: string -> bool, hash: NameHash) returns (d: Database, first: int, safe: bool)
      ensures fresh(d) && d.Valid() && first == 1 && !safe
    {
      hide RowsValid, SerialsUnique, NamesUnique, Key, SerialText, UtcString;
      d := new Database(true, isOid, hash);
      var fine;
      fine, first := d.Issue(1, "490101000000Z", "");
      assert 0 in d.listed && d.rows[0].name == "";
      var second;
      safe, second := d.Issue(2, "490101000000Z", "/CN=a");
    }
  }

  /** The serial number check of the loading loop. */
  method CheckSerial(s: string) returns (ok: bool)
    ensures ok <==> SerialOk(s)
    ensures ok <==> var t := if s != "" && s[0] == '-' then s[1..] else s;
                    && |t| % 2 == 0 && |t| >= 2
                    && forall k :: 0 <= k < |t| ==> '0' <= t[k] <= '9' || 'A' <= t[k] <= 'F' || 'a' <= t[k] <= 'f'
  {
    var p, j := 0, |s|;
    if At(s, 0) == '-' {
      p, j := p + 1, j - 1;
    }
    assert Unsigned(s) == s[p..];
    if j % 2 == 1 || j < 2 {
      return false;
    }
    ghost var start := p;
    while p < |s|
      invariant start <= p <= |s| && forall k :: start <= k < p ==> NumberRules.IsHex(s[k])
    {
      if !NumberRules.IsHex(s[p]) {
        assert Unsigned(s)[p - start] == s[p];
        return false;
      }
      p := p + 1;
    }
    ok := true;
  }

  /** The loop over the rows when the database has been read. */
  method CheckRows(rows: seq<Row>, isOid: string -> bool) returns (ok: bool)
    requires forall i :: 0 <= i < |rows| ==> NUL !in RevDate(rows[i])
    ensures ok <==> forall i :: 0 <= i < |rows| ==> RowLoads(rows[i], isOid)
    ensures ok <==> forall i :: 0 <= i < |rows| ==>
                      && (rows[i].kind != 'R' ==> RevDate(rows[i]) == "")
                      && (rows[i].kind == 'R' ==> Unpacked(RevDate(rows[i]), isOid).Some?)
                      && UtcValid(rows[i].exp) && SerialOk(rows[i].serial)
  {
    hide UtcValid, SerialOk, Unpacked;
    for i := 0 to |rows|
      invariant forall k :: 0 <= k < i ==> RowLoads(rows[k], isOid)
    {
      if rows[i].kind != REVOKED && RevDate(rows[i]) != "" {
        return false;
      }
      if rows[i].kind == REVOKED {
        var info := Revocation.UnpackRevinfo(RevDate(rows[i]), isOid);
        if info == None {
          return false;
        }
      }
      ok := Times.UtcTimeCheck(rows[i].exp);
      if !ok {
        return;
      }
      ok := CheckSerial(rows[i].serial);
      if !ok {
        return;
      }
    }
    ok := true;
  }
}
