/** Revocation records: `time[,reason[,extra]]`. */
module RevocationRules {
  import opened CStrings
  import opened Wrappers
  import opened TimeRules

  datatype RevType = RevNone | RevCrlReason | RevHold | RevKeyCompromise | RevCaCompromise

  const REASONS: seq<string> := [
    "unspecified", "keyCompromise", "CACompromise", "affiliationChanged", "superseded",
    "cessationOfOperation", "certificateHold", "removeFromCRL",
    "holdInstruction", "keyTime", "CAkeyTime"
  ]

  const CRL_REASONS: nat := 8
  const HOLD: nat := 8
  const KEY_TIME: nat := 9
  const CA_KEY_TIME: nat := 10

  const NO_REASON: int := -1

  function Lower(c: char): char {
    if 'A' <= c <= 'Z' then (c as int + 32) as char else c
  }

  /** strcasecmp finds no difference. */
  predicate SameIgnoringCase(a: string, b: string) {
    |a| == |b| && forall k :: 0 <= k < |a| ==> Lower(a[k]) == Lower(b[k])
  }

  /** The first of the first `n` reasons that matches; `n` if none does. */
  function Index(s: string, i: nat, n: nat): (r: nat)
    requires i <= n <= |REASONS|
    ensures i <= r <= n && (forall k :: i <= k < r ==> !SameIgnoringCase(s, REASONS[k]))
    ensures r < n ==> SameIgnoringCase(s, REASONS[r])
    decreases n - i
  {
    if i == n || SameIgnoringCase(s, REASONS[i]) then i else Index(s, i + 1, n)
  }

  lemma SameTransitive(a: string, b: string, c: string)
    requires SameIgnoringCase(a, b) && SameIgnoringCase(a, c)
    ensures SameIgnoringCase(b, c)
  {
    forall k | 0 <= k < |b|
      ensures Lower(b[k]) == Lower(c[k])
    {
      assert Lower(a[k]) == Lower(b[k]) && Lower(a[k]) == Lower(c[k]);
    }
  }

  /** No two reasons are the same but for case. */
  lemma ReasonsDiffer(i: nat, j: nat)
    requires i < j < |REASONS|
    ensures !SameIgnoringCase(REASONS[i], REASONS[j])
  {
    if |REASONS[i]| == |REASONS[j]| {
      assert (i == 1 && j == 7) || (i == 6 && j == 8);
      assert Lower(REASONS[i][0]) != Lower(REASONS[j][0]);
    }
  }

  /** A string that matches a reason is found under that reason's number. */
  lemma IndexIs(s: string, r: nat, n: nat)
    requires r < n <= |REASONS| && SameIgnoringCase(s, REASONS[r])
    ensures Index(s, 0, n) == r
  {
    var i := Index(s, 0, n);
    if i < r {
      ReasonsDiffer(i, r);
      SameTransitive(s, REASONS[i], REASONS[r]);
    }
  }

  /** What is known of a revocation: the reason is a code of section 5.3.1 of RFC 5280. */
  datatype RevInfo = RevInfo(time: string, reason: int, hold: Option<string>, compromise: Option<string>)

  /** The codes of section 5.3.1 of RFC 5280; the value 7 is not used there. */
  const KEY_COMPROMISE: int := 1
  const CA_COMPROMISE: int := 2
  const CERTIFICATE_HOLD: int := 6
  const REMOVE_FROM_CRL: int := 8

  /** The record of a revocation at `time`; None if the argument is not valid. */
  function Record(t: RevType, arg: string, time: string, isOid: string -> bool): Option<string> {
    match t
    case RevNone => Some(time)
    case RevCrlReason =>
      var i := Index(arg, 0, CRL_REASONS);
      if i == CRL_REASONS then None else Some(time + "," + REASONS[i])
    case RevHold => if isOid(arg) then Some(time + "," + REASONS[HOLD] + "," + arg) else None
    case RevKeyCompromise => if GeneralizedValid(arg) then Some(time + "," + REASONS[KEY_TIME] + "," + arg) else None
    case RevCaCompromise => if GeneralizedValid(arg) then Some(time + "," + REASONS[CA_KEY_TIME] + "," + arg) else None
  }

  /** What the record is to mean. */
  function Meant(t: RevType, arg: string, time: string): RevInfo {
    match t
    case RevNone => RevInfo(time, NO_REASON, None, None)
    case RevCrlReason =>
      var i := Index(arg, 0, CRL_REASONS);
      RevInfo(time, if i == 7 then REMOVE_FROM_CRL else i, None, None)
    case RevHold => RevInfo(time, CERTIFICATE_HOLD, Some(arg), None)
    case RevKeyCompromise => RevInfo(time, KEY_COMPROMISE, None, Some(arg))
    case RevCaCompromise => RevInfo(time, CA_COMPROMISE, None, Some(arg))
  }

  /** The first comma of a string, its length if there is none. */
  function Comma(s: string): (c: nat)
    ensures c <= |s| && (forall k :: 0 <= k < c ==> s[k] != ',') && (c < |s| ==> s[c] == ',')
  {
    IndexOf(s, ',')
  }

  function Classified(time: string, i: nat, arg: Option<string>, isOid: string -> bool): Option<RevInfo> {
    if i == |REASONS| then None
    else if i == 7 then Some(RevInfo(time, REMOVE_FROM_CRL, None, None))
    else if i == HOLD then
      if arg.Some? && isOid(arg.value) then Some(RevInfo(time, CERTIFICATE_HOLD, arg, None)) else None
    else if i == KEY_TIME || i == CA_KEY_TIME then
      if arg.Some? && GeneralizedValid(arg.value)
      then Some(RevInfo(time, if i == KEY_TIME then KEY_COMPROMISE else CA_COMPROMISE, None, arg)) else None
    else Some(RevInfo(time, i, None, None))
  }

  /** What a record says; None if it is malformed. */
  function Unpacked(s: string, isOid: string -> bool): Option<RevInfo> {
    var c := Comma(s);
    if !UtcValid(s[..c]) then None
    else if c == |s| then Some(RevInfo(s, NO_REASON, None, None))
    else
      var rest := s[c + 1..];
      var d := Comma(rest);
      Classified(s[..c], Index(rest[..d], 0, |REASONS|), if d == |rest| then None else Some(rest[d + 1..]), isOid)
  }

  lemma CommaOf(a: string, b: string)
    requires ',' !in a
    ensures Comma(a + "," + b) == |a| && Comma(a) == |a|
    ensures (a + "," + b)[..|a|] == a && (a + "," + b)[|a| + 1..] == b && a[..|a|] == a
  {
    var s := a + "," + b;
    assert s[|a|] == ',' && forall k :: 0 <= k < |a| ==> s[k] == a[k] && a[k] in a;
  }

  lemma NoCommaInReasons(i: nat)
    requires i < |REASONS|
    ensures ',' !in REASONS[i]
  {
  }

  lemma UnpackedReason(time: string, i: nat, isOid: string -> bool)
    requires ',' !in time && i < |REASONS|
    ensures Unpacked(time + "," + REASONS[i], isOid) ==
            if UtcValid(time) then Classified(time, i, None, isOid) else None
  {
    CommaOf(time, REASONS[i]);
    NoCommaInReasons(i);
    CommaOf(REASONS[i], "");
    IndexIs(REASONS[i], i, |REASONS|);
    hide Comma, Index, UtcValid, Classified;
  }

  lemma UnpackedExtra(time: string, i: nat, arg: string, isOid: string -> bool)
    requires ',' !in time && i < |REASONS|
    ensures Unpacked(time + "," + REASONS[i] + "," + arg, isOid) ==
            if UtcValid(time) then Classified(time, i, Some(arg), isOid) else None
  {
    var rest := REASONS[i] + "," + arg;
    assert time + "," + REASONS[i] + "," + arg == time + "," + rest;
    CommaOf(time, rest);
    NoCommaInReasons(i);
    CommaOf(REASONS[i], arg);
    IndexIs(REASONS[i], i, |REASONS|);
    hide Comma, Index, UtcValid, Classified;
  }

  lemma UnpackedTime(time: string, isOid: string -> bool)
    requires ',' !in time
    ensures Unpacked(time, isOid) == if UtcValid(time) then Some(RevInfo(time, NO_REASON, None, None)) else None
  {
    CommaOf(time, "");
    hide UtcValid;
  }

  /** The records as text. */
  lemma RecordsWritten(time: string, arg: string, isOid: string -> bool)
    ensures Record(RevNone, arg, time, isOid) == Some(time)
    ensures isOid(arg) ==> Record(RevHold, arg, time, isOid) == Some(time + "," + "holdInstruction" + "," + arg)
    ensures GeneralizedValid(arg) ==>
              && Record(RevKeyCompromise, arg, time, isOid) == Some(time + "," + "keyTime" + "," + arg)
              && Record(RevCaCompromise, arg, time, isOid) == Some(time + "," + "CAkeyTime" + "," + arg)
    ensures !isOid(arg) ==> Record(RevHold, arg, time, isOid) == None
    ensures !GeneralizedValid(arg) ==>
              Record(RevKeyCompromise, arg, time, isOid) == None && Record(RevCaCompromise, arg, time, isOid) == None
  {
    hide GeneralizedValid, Index;
  }

  /** A reason is given by one of eight names in any case, and written as it is spelled here. */
  lemma ReasonWritten(time: string, arg: string, name: string, isOid: string -> bool)
    requires name in {"unspecified", "keyCompromise", "CACompromise", "affiliationChanged", "superseded",
                      "cessationOfOperation", "certificateHold", "removeFromCRL"} && SameIgnoringCase(arg, name)
    ensures Record(RevCrlReason, arg, time, isOid) == Some(time + "," + name)
  {
    hide Index, SameIgnoringCase;
    var i := if name == "unspecified" then 0 else if name == "keyCompromise" then 1
             else if name == "CACompromise" then 2 else if name == "affiliationChanged" then 3
             else if name == "superseded" then 4 else if name == "cessationOfOperation" then 5
             else if name == "certificateHold" then 6 else 7;
    assert REASONS[i] == name;
    IndexIs(arg, i, CRL_REASONS);
  }

  /** The reasons by their names, with the codes of section 5.3.1 of RFC 5280; without one there is no
      code. */
  lemma ReasonsRead(time: string, isOid: string -> bool)
    requires UtcValid(time) && ',' !in time
    ensures Unpacked(time, isOid) == Some(RevInfo(time, -1, None, None))
    ensures Unpacked(time + "," + "unspecified", isOid) == Some(RevInfo(time, 0, None, None))
    ensures Unpacked(time + "," + "keyCompromise", isOid) == Some(RevInfo(time, 1, None, None))
    ensures Unpacked(time + "," + "CACompromise", isOid) == Some(RevInfo(time, 2, None, None))
    ensures Unpacked(time + "," + "affiliationChanged", isOid) == Some(RevInfo(time, 3, None, None))
    ensures Unpacked(time + "," + "superseded", isOid) == Some(RevInfo(time, 4, None, None))
    ensures Unpacked(time + "," + "cessationOfOperation", isOid) == Some(RevInfo(time, 5, None, None))
    ensures Unpacked(time + "," + "certificateHold", isOid) == Some(RevInfo(time, 6, None, None))
    ensures Unpacked(time + "," + "removeFromCRL", isOid) == Some(RevInfo(time, 8, None, None))
  {
    hide Unpacked, UtcValid, Index;
    UnpackedTime(time, isOid);
    UnpackedReason(time, 0, isOid);
    UnpackedReason(time, 1, isOid);
    UnpackedReason(time, 2, isOid);
    UnpackedReason(time, 3, isOid);
    UnpackedReason(time, 4, isOid);
    UnpackedReason(time, 5, isOid);
    UnpackedReason(time, 6, isOid);
    UnpackedReason(time, 7, isOid);
  }

  /** What is refused: other names, reasons that lack their argument, and a time that is none. */
  lemma RecordsRefused(time: string, name: string, isOid: string -> bool)
    requires ',' !in time && ',' !in name
    ensures !UtcValid(time) ==> Unpacked(time + "," + name, isOid) == None && Unpacked(time, isOid) == None
    ensures (forall i :: 0 <= i < |REASONS| ==> !SameIgnoringCase(name, REASONS[i])) ==>
              Unpacked(time + "," + name, isOid) == None
    ensures Unpacked(time + "," + "holdInstruction", isOid) == None
    ensures Unpacked(time + "," + "keyTime", isOid) == None && Unpacked(time + "," + "CAkeyTime", isOid) == None
  {
    hide UtcValid, Index, SameIgnoringCase;
    UnpackedReason(time, 8, isOid);
    UnpackedReason(time, 9, isOid);
    UnpackedReason(time, 10, isOid);
    CommaOf(time, name);
    CommaOf(name, "");
    CommaOf(time, "");
    hide Comma;
  }

  /** Names are read in any case. */
  lemma ReasonInAnyCase(time: string, name: string, i: nat, isOid: string -> bool)
    requires UtcValid(time) && ',' !in time && ',' !in name && i < |REASONS| && SameIgnoringCase(name, REASONS[i])
    ensures Unpacked(time + "," + name, isOid) == Unpacked(time + "," + REASONS[i], isOid)
  {
    hide UtcValid, Index, SameIgnoringCase, Classified;
    IndexIs(name, i, |REASONS|);
    UnpackedReason(time, i, isOid);
    CommaOf(time, name);
    CommaOf(name, "");
    hide Comma;
  }

  lemma CaseExample()
    ensures SameIgnoringCase("SuperSeded", "superseded") && !SameIgnoringCase("superseeded", "superseded")
    ensures !SameIgnoringCase("superzeded", "superseded")
  {
    assert Lower("superzeded"[5]) != Lower("superseded"[5]);
  }

  /** The reasons with an argument: hold with an object identifier, the others with a time. */
  lemma ExtrasRead(time: string, arg: string, isOid: string -> bool)
    requires UtcValid(time) && ',' !in time
    ensures Unpacked(time + "," + "holdInstruction" + "," + arg, isOid) ==
            if isOid(arg) then Some(RevInfo(time, 6, Some(arg), None)) else None
    ensures Unpacked(time + "," + "keyTime" + "," + arg, isOid) ==
            if GeneralizedValid(arg) then Some(RevInfo(time, 1, None, Some(arg))) else None
    ensures Unpacked(time + "," + "CAkeyTime" + "," + arg, isOid) ==
            if GeneralizedValid(arg) then Some(RevInfo(time, 2, None, Some(arg))) else None
  {
    hide Unpacked, UtcValid, GeneralizedValid, Index;
    UnpackedExtra(time, 8, arg, isOid);
    UnpackedExtra(time, 9, arg, isOid);
    UnpackedExtra(time, 10, arg, isOid);
  }

  /** A record says what was meant exactly if its time is in the syntax of UTCTime; otherwise it
      cannot be read back at all. Commas in the argument do no harm. */
  lemma RoundTrip(t: RevType, arg: string, time: string, isOid: string -> bool)
    requires Record(t, arg, time, isOid).Some? && ',' !in time
    ensures Unpacked(Record(t, arg, time, isOid).value, isOid) ==
            if UtcValid(time) then Some(Meant(t, arg, time)) else None
  {
    hide Unpacked, Comma, Index, UtcValid, GeneralizedValid;
    match t
    case RevNone => UnpackedTime(time, isOid);
    case RevCrlReason => UnpackedReason(time, Index(arg, 0, CRL_REASONS), isOid);
    case RevHold => UnpackedExtra(time, HOLD, arg, isOid);
    case RevKeyCompromise => UnpackedExtra(time, KEY_TIME, arg, isOid);
    case RevCaCompromise => UnpackedExtra(time, CA_KEY_TIME, arg, isOid);
  }

  /** For a record made by the clock: it can be read back exactly in the years from 1950 to 2049. */
  lemma ClockRoundTrip(t: RevType, arg: string, c: Clock, isOid: string -> bool)
    requires ValidClock(c) && Record(t, arg, TimeString(c), isOid).Some?
    ensures Unpacked(Record(t, arg, TimeString(c), isOid).value, isOid) ==
            if 1950 <= c.year < 2050 then Some(Meant(t, arg, TimeString(c))) else None
  {
    TimeStringValid(c);
    NoCommaInTime(c);
    RoundTrip(t, arg, TimeString(c), isOid);
    hide UtcValid, Record, Unpacked;
  }

  lemma NoCommaInTime(c: Clock)
    requires ValidClock(c)
    ensures ',' !in TimeString(c) && NUL !in TimeString(c)
  {
  }
}

/** make_revocation_str and unpack_revinfo. */
module Revocation {
  import opened CStrings
  import opened Wrappers
  import opened TimeRules
  import opened RevocationRules
  import Times

  /** The buffer holds the C string `s` at `off`. */
  ghost predicate TextAt(buf: array<char>, off: nat, s: string)
    reads buf
  {
    NUL !in s && StringAt(buf[..], off, s, buf.Length)
  }

  /** As much of a string as has room. */
  function Truncated(s: string, room: nat): (t: string)
    ensures t <= s && |t| == if |s| <= room then |s| else room
  {
    if |s| <= room then s else s[..room]
  }

  /** BUF_strlcpy to `off`, where `size` bytes are left: the copy is cut off if it does not fit. */
  method Strlcpy(dst: array<char>, off: nat, src: string, size: nat) returns (l: nat)
    requires off + size <= dst.Length && size > 0 && NUL !in src
    modifies dst
    ensures TextAt(dst, off, Truncated(src, size - 1)) && l == |src|
    ensures forall k :: 0 <= k < off ==> dst[k] == old(dst[k])
  {
    l := 0;
    while l + 1 < size && l < |src|
      invariant l <= |src| && l < size
      invariant forall k :: 0 <= k < off ==> dst[k] == old(dst[k])
      invariant forall k :: 0 <= k < l ==> dst[off + k] == src[k]
    {
      dst[off + l] := src[l];
      l := l + 1;
    }
    dst[off + l] := NUL;
    assert forall k :: 0 <= k < |src| ==> src[k] in src;
    l := |src|;
  }

  /** BUF_strlcat to the string `d` in the buffer. */
  method Strlcat(dst: array<char>, ghost d: string, src: string, size: nat) returns (l: nat)
    requires TextAt(dst, 0, d) && |d| < size <= dst.Length && NUL !in src
    modifies dst
    ensures TextAt(dst, 0, d + Truncated(src, size - 1 - |d|)) && l == |d| + |src|
  {
    var n := 0;
    while dst[n] != NUL
      invariant n <= |d| && (n < |d| ==> dst[0 + n] == d[n])
      decreases |d| - n
    {
      n := n + 1;
    }
    assert forall k :: 0 <= k < |d| ==> dst[0 + k] == d[k] && d[k] != NUL;
    l := Strlcpy(dst, n, src, size - n);
    l := n + l;
    Joined(dst, d, Truncated(src, size - 1 - n));
  }

  lemma Joined(dst: array<char>, d: string, t: string)
    requires TextAt(dst, |d|, t) && forall k :: 0 <= k < |d| ==> dst[k] == d[k] && d[k] != NUL
    ensures TextAt(dst, 0, d + t)
  {
    forall k | 0 <= k < |d + t|
      ensures dst[0 + k] == (d + t)[k] && (d + t)[k] != NUL
    {
      assert k >= |d| ==> dst[|d| + (k - |d|)] == t[k - |d|];
    }
  }

  /** A part that fits is appended whole. */
  method Append(dst: array<char>, ghost d: string, src: string) returns (l: nat)
    requires TextAt(dst, 0, d) && |d| + |src| < dst.Length && NUL !in src
    modifies dst
    ensures TextAt(dst, 0, d + src)
  {
    l := Strlcat(dst, d, src, dst.Length);
  }

  /** The loop over the names of the reasons. */
  method FindReason(s: string, n: nat) returns (i: nat)
    requires n <= |REASONS|
    ensures i == Index(s, 0, n)
  {
    i := 0;
    while i < n
      invariant i <= n && Index(s, 0, n) == Index(s, i, n)
    {
      if SameIgnoringCase(s, REASONS[i]) {
        return;
      }
      i := i + 1;
    }
  }

  /** make_revocation_str at the time `revtm`: null for a bad argument, else a buffer that the record
      fills to the last byte. */
  method MakeRevocationStr(t: RevType, arg: string, revtm: string, isOid: string -> bool) returns (str: array?<char>)
    requires NUL !in arg && NUL !in revtm
    ensures str == null <==> Record(t, arg, revtm, isOid) == None
    ensures str != null ==> var r := Record(t, arg, revtm, isOid).value;
                            fresh(str) && str.Length == |r| + 1 && TextAt(str, 0, r)
  {
    var reason, other: Option<string> := None, None;
    match t {
      case RevNone =>
      case RevCrlReason =>
        var i := FindReason(arg, CRL_REASONS);
        if i == CRL_REASONS {
          return null;
        }
        reason := Some(REASONS[i]);
      case RevHold =>
        if !isOid(arg) {
          return null;
        }
        reason, other := Some("holdInstruction"), Some(arg);
      case RevKeyCompromise =>
        var ok := Times.GeneralizedTimeCheck(arg);
        if !ok {
          return null;
        }
        reason, other := Some("keyTime"), Some(arg);
      case RevCaCompromise =>
        var ok := Times.GeneralizedTimeCheck(arg);
        if !ok {
          return null;
        }
        reason, other := Some("CAkeyTime"), Some(arg);
    }
    NoNulInReasons();
    hide Index, GeneralizedValid;
    str := Write(revtm, reason, other);
    TextIs(revtm, reason, other);
  }

  lemma NoNulInReasons()
    ensures forall i :: 0 <= i < |REASONS| ==> NUL !in REASONS[i]
    ensures REASONS[HOLD] == "holdInstruction" && REASONS[KEY_TIME] == "keyTime" && REASONS[CA_KEY_TIME] == "CAkeyTime"
  {
  }

  /** The record, with the commas between its parts. */
  function Text(revtm: string, reason: Option<string>, other: Option<string>): string {
    revtm + (if reason.Some? then "," + reason.value else "") + (if other.Some? then "," + other.value else "")
  }

  lemma TextIs(revtm: string, reason: Option<string>, other: Option<string>)
    ensures reason == None && other == None ==> Text(revtm, reason, other) == revtm
    ensures reason.Some? && other == None ==> Text(revtm, reason, other) == revtm + "," + reason.value
    ensures reason.Some? && other.Some? ==> Text(revtm, reason, other) == revtm + "," + reason.value + "," + other.value
  {
    if reason.Some? {
      assert revtm + ("," + reason.value) == revtm + "," + reason.value;
      if other.Some? {
        var r := revtm + "," + reason.value;
        assert r + ("," + other.value) == r + "," + other.value;
      }
    }
  }

  method Write(revtm: string, reason: Option<string>, other: Option<string>) returns (str: array<char>)
    requires NUL !in revtm && (reason.Some? ==> NUL !in reason.value) && (other.Some? ==> NUL !in other.value)
    ensures fresh(str) && str.Length == |Text(revtm, reason, other)| + 1 && TextAt(str, 0, Text(revtm, reason, other))
  {
    var i := |revtm| + 1;
    if reason.Some? {
      i := i + |reason.value| + 1;
    }
    if other.Some? {
      i := i + |other.value| + 1;
    }
    str := new char[i];
    var l := Strlcpy(str, 0, revtm, i);
    ghost var d := revtm;
    assert revtm[..|revtm|] == revtm;
    hide TextAt;
    if reason.Some? {
      l := Append(str, d, ",");
      d := d + ",";
      l := Append(str, d, reason.value);
      d := d + reason.value;
      assert d == revtm + ("," + reason.value);
    }
    if other.Some? {
      ghost var before := d;
      l := Append(str, d, ",");
      d := d + ",";
      l := Append(str, d, other.value);
      d := d + other.value;
      assert d == before + ("," + other.value);
    }
    assert d == Text(revtm, reason, other);
  }

  /** strchr for the comma; -1 if there is none. */
  method Strchr(buf: array<char>, off: nat, ghost s: string) returns (p: int)
    requires TextAt(buf, off, s)
    ensures p == if Comma(s) == |s| then -1 else off + Comma(s)
  {
    var n := 0;
    while buf[off + n] != NUL && buf[off + n] != ','
      invariant n <= |s| && (n < |s| ==> buf[off + n] == s[n] && s[n] != NUL)
      invariant forall k :: 0 <= k < n ==> s[k] != ','
      decreases |s| - n
    {
      n := n + 1;
    }
    assert n < |s| ==> s[n] == ',';
    assert Comma(s) == n by {
      CommaUnique(s, n);
    }
    p := if buf[off + n] == NUL then -1 else off + n;
  }

  lemma CommaUnique(s: string, n: nat)
    requires n <= |s| && (forall k :: 0 <= k < n ==> s[k] != ',') && (n < |s| ==> s[n] == ',')
    ensures Comma(s) == n
  {
    FirstAt(s, ',', n);
  }

  method ReadText(buf: array<char>, off: nat, ghost s: string) returns (r: string)
    requires TextAt(buf, off, s)
    ensures r == s
  {
    r := ReadString(buf, off, s, buf.Length);
  }

  /** A NUL in the place of a comma makes two strings of one. */
  method Cut(buf: array<char>, p: nat, ghost off: nat, ghost a: string, ghost b: string)
    requires TextAt(buf, off, a + "," + b) && p == off + |a|
    modifies buf
    ensures TextAt(buf, off, a) && TextAt(buf, p + 1, b)
    ensures forall k :: 0 <= k < off ==> buf[k] == old(buf[k])
  {
    ghost var s := a + "," + b;
    assert forall k :: 0 <= k < |a| ==> s[k] == a[k];
    assert forall k :: 0 <= k < |b| ==> s[|a| + 1 + k] == b[k] && buf[off + (|a| + 1 + k)] == s[|a| + 1 + k];
    buf[p] := NUL;
    assert forall k :: 0 <= k < |b| ==> buf[p + 1 + k] == b[k];
  }

  lemma CommaWithin(s: string)
    ensures Comma(s) <= |s|
  {
  }

  lemma CommaSplits(s: string)
    requires Comma(s) < |s|
    ensures s == s[..Comma(s)] + "," + s[Comma(s) + 1..]
  {
    assert s[Comma(s)] == ',';
    hide Comma;
    SplitAt(s, Comma(s));
  }

  lemma SplitAt(s: string, c: nat)
    requires c < |s|
    ensures s == s[..c] + [s[c]] + s[c + 1..]
  {
  }

  /** What follows the time. */
  method SplitRest(tmp: array<char>, off: nat, ghost rest: string, ghost time: string)
    returns (reason: string, arg: Option<string>)
    requires TextAt(tmp, 0, time) && |time| < off && TextAt(tmp, off, rest)
    modifies tmp
    ensures TextAt(tmp, 0, time)
    ensures reason == rest[..Comma(rest)]
    ensures arg == if Comma(rest) == |rest| then None else Some(rest[Comma(rest) + 1..])
  {
    arg := None;
    var p := Strchr(tmp, off, rest);
    ghost var d := Comma(rest);
    if p >= 0 {
      CommaSplits(rest);
      hide Comma;
      Cut(tmp, p, off, rest[..d], rest[d + 1..]);
      assert forall k :: 0 <= k < |time| ==> tmp[0 + k] == time[k];
      hide TextAt;
      var a := ReadText(tmp, p + 1, rest[d + 1..]);
      arg := Some(a);
    }
    hide Comma, TextAt;
    assert rest[..|rest|] == rest;
    reason := ReadText(tmp, off, rest[..d]);
  }

  /** The parts of a record, from a copy that is cut in place. */
  method Split(str: string) returns (time: string, reason: Option<string>, arg: Option<string>)
    requires NUL !in str
    ensures time == str[..Comma(str)]
    ensures Comma(str) == |str| ==> reason == None && arg == None
    ensures Comma(str) < |str| ==>
              var rest := str[Comma(str) + 1..];
              && reason == Some(rest[..Comma(rest)])
              && arg == if Comma(rest) == |rest| then None else Some(rest[Comma(rest) + 1..])
  {
    hide Comma, TextAt;
    var tmp := Duplicate(str);
    reason, arg := None, None;
    var p := Strchr(tmp, 0, str);
    CommaWithin(str);
    if p >= 0 {
      CommaSplits(str);
      ghost var c := Comma(str);
      Cut(tmp, p, 0, str[..c], str[c + 1..]);
      var t;
      t, arg := SplitRest(tmp, p + 1, str[c + 1..], str[..c]);
      reason := Some(t);
    }
    assert str[..|str|] == str;
    time := ReadText(tmp, 0, str[..Comma(str)]);
  }

  /** BUF_strdup. */
  method Duplicate(str: string) returns (tmp: array<char>)
    requires NUL !in str
    ensures fresh(tmp) && TextAt(tmp, 0, str)
  {
    tmp := new char[|str| + 1](i => At(str, i));
    assert forall k :: 0 <= k < |str| ==> str[k] in str;
  }

  /** unpack_revinfo, for a caller that wants everything. */
  method UnpackRevinfo(str: string, isOid: string -> bool) returns (r: Option<RevInfo>)
    requires NUL !in str
    ensures r == Unpacked(str, isOid)
  {
    var rtime, reason, arg := Split(str);
    var ok := Times.UtcTimeCheck(rtime);
    hide Comma, UtcValid, GeneralizedValid, Index;
    if !ok {
      return None;
    }
    assert str[..|str|] == str;
    if reason == None {
      return Some(RevInfo(rtime, NO_REASON, None, None));
    }
    var reasonCode := FindReason(reason.value, |REASONS|);
    if reasonCode == |REASONS| {
      return None;
    }
    if reasonCode == 7 {
      r := Some(RevInfo(rtime, REMOVE_FROM_CRL, None, None));
    } else if reasonCode == HOLD {
      if arg == None || !isOid(arg.value) {
        return None;
      }
      r := Some(RevInfo(rtime, CERTIFICATE_HOLD, arg, None));
    } else if reasonCode == KEY_TIME || reasonCode == CA_KEY_TIME {
      if arg == None {
        return None;
      }
      ok := Times.GeneralizedTimeCheck(arg.value);
      if !ok {
        return None;
      }
      r := Some(RevInfo(rtime, if reasonCode == KEY_TIME then KEY_COMPROMISE else CA_COMPROMISE, None, arg));
    } else {
      r := Some(RevInfo(rtime, reasonCode, None, None));
    }
  }
}
