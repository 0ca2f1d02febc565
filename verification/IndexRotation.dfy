/** Files that are renamed by system calls which the environment may refuse. */
module FileSystem {
  import opened Wrappers

  type Files = map<string, string>

  function Get(f: Files, name: string): Option<string> {
    if name in f then Some(f[name]) else None
  }

  function Moved(f: Files, from: string, to: string): Files
    requires from in f
  {
    if from == to then f else f[to := f[from]] - {from}
  }

  lemma GetMoved(f: Files, from: string, to: string, x: string)
    requires from in f
    ensures Get(Moved(f, from, to), x) ==
            if x == to then Get(f, from) else if x == from then None else Get(f, x)
  {
  }

  datatype Stat = Found | Missing | Error

  /** The files, the number of system calls so far, and the files after each call that changed them. */
  datatype Trace = Trace(files: Files, calls: nat, seen: seq<Files>)

  function Works(t: Trace, refused: nat -> bool, from: string): bool {
    !refused(t.calls) && from in t.files
  }

  function Renamed(t: Trace, refused: nat -> bool, from: string, to: string): (r: Trace)
    ensures !Works(t, refused, from) ==> r == t.(calls := t.calls + 1)
  {
    if !Works(t, refused, from) then t.(calls := t.calls + 1)
    else
      var f := Moved(t.files, from, to);
      Trace(f, t.calls + 1, t.seen + [f])
  }

  class Disk {
    var t: Trace
    /** The calls that fail for a reason of their own, counted from the start of time. */
    const refused: nat -> bool

    constructor (f: Files, r: nat -> bool)
      ensures t == Trace(f, 0, []) && refused == r
    {
      t, refused := Trace(f, 0, []), r;
    }

    /** stat: `Missing` stands for ENOENT and ENOTDIR. */
    method Stat(name: string) returns (r: Stat)
      modifies this
      ensures t == old(t).(calls := old(t).calls + 1)
      ensures r == if refused(old(t).calls) then Error else if name in t.files then Found else Missing
    {
      r := if refused(t.calls) then Error else if name in t.files then Found else Missing;
      t := t.(calls := t.calls + 1);
    }

    /** rename: an existing target is replaced. */
    method Rename(from: string, to: string) returns (ok: bool)
      modifies this
      ensures ok == Works(old(t), refused, from) && t == Renamed(old(t), refused, from, to)
    {
      ok := Works(t, refused, from);
      t := Renamed(t, refused, from, to);
    }
  }
}

/** The six names of rotate_index, and what its calls are to achieve. */
module RotationRules {
  import opened Wrappers
  import opened FileSystem

  const BSIZE: nat := 256

  /** The names for a database `db` and the suffixes of the new and of the old files. */
  datatype Names = Names(db: string, dbNew: string, dbOld: string, attr: string, attrNew: string, attrOld: string)

  function NamesOf(db: string, n: string, o: string): Names {
    Names(db, db + "." + n, db + "." + o, db + ".attr", db + ".attr." + n, db + ".attr." + o)
  }

  predicate Distinct(m: Names) {
    && m.db !in {m.dbNew, m.dbOld, m.attr, m.attrNew, m.attrOld}
    && m.dbNew !in {m.dbOld, m.attr, m.attrNew, m.attrOld}
    && m.dbOld !in {m.attr, m.attrNew, m.attrOld}
    && m.attr !in {m.attrNew, m.attrOld}
    && m.attrNew != m.attrOld
  }

  lemma SamePrefix(p: string, a: string, b: string)
    ensures p + a == p + b <==> a == b
  {
    if p + a == p + b {
      assert a == (p + a)[|p|..] == (p + b)[|p|..] == b;
    }
  }

  lemma SameSuffixes(db: string, a: string, b: string)
    ensures db + "." + a == db + "." + b <==> a == b
  {
    SamePrefix(db + ".", a, b);
  }

  lemma SameAttrSuffixes(db: string, a: string, b: string)
    ensures db + ".attr." + a == db + "." + b <==> "attr." + a == b
    ensures db + ".attr." + a == db + ".attr." + b <==> a == b
    ensures db + ".attr" == db + "." + b <==> b == "attr"
  {
    assert db + ".attr." + a == db + "." + ("attr." + a) && db + ".attr" == db + "." + "attr";
    SameSuffixes(db, "attr." + a, b);
    SamePrefix(db + ".attr.", a, b);
    SameSuffixes(db, "attr", b);
  }

  /** No name that is made with one suffix is one that is made with the other, or the attribute file. */
  predicate Apart(n: string, o: string) {
    n != o && n != "attr" && o != "attr" && o != "attr." + n && n != "attr." + o
  }

  /** The suffixes for which no two of the names clash. */
  lemma DistinctIff(db: string, n: string, o: string)
    ensures Distinct(NamesOf(db, n, o)) <==> Apart(n, o)
  {
    SameSuffixes(db, n, o);
    SameAttrSuffixes(db, n, o);
    SameAttrSuffixes(db, o, n);
    var m := NamesOf(db, n, o);
    assert |m.db| < |m.dbNew| && |m.db| < |m.dbOld| && |m.db| < |m.attr| && |m.attr| < |m.attrNew|
           && |m.attr| < |m.attrOld|;
    assert |m.dbNew| < |m.attrNew| && |m.dbOld| < |m.attrOld|;
  }

  /** How the replacement of one file by its successor ends. */
  datatype Outcome = Untried | Done | StatFailed | BackupFailed | InstallFailed

  /** `failed` is, of a failure, the number of calls up to the one that failed. */
  datatype SwapResult = SwapResult(end: Outcome, failed: nat, t: Trace)
  datatype RotateResult = RotateResult(db: Outcome, attr: Outcome, failed: nat, t: Trace)

  /** One file `live` makes way for `next` and is kept as `old`. */
  function Swapped(t: Trace, refused: nat -> bool, live: string, next: string, backup: string): SwapResult {
    var t0 := t.(calls := t.calls + 1);
    if refused(t.calls) then SwapResult(StatFailed, t0.calls, t0)
    else if live in t.files && !Works(t0, refused, live) then
      SwapResult(BackupFailed, t0.calls + 1, t0.(calls := t0.calls + 1))
    else
      var t1 := if live in t.files then Renamed(t0, refused, live, backup) else t0;
      var t2 := Renamed(t1, refused, next, live);
      if Works(t1, refused, next) then SwapResult(Done, 0, t2)
      else SwapResult(InstallFailed, t2.calls, Renamed(t2, refused, backup, live))
  }

  /** Both files in turn; the undo of the first does not look at its own success. */
  function Rotated(t: Trace, refused: nat -> bool, m: Names): RotateResult {
    var a := Swapped(t, refused, m.db, m.dbNew, m.dbOld);
    if a.end != Done then RotateResult(a.end, Untried, a.failed, a.t)
    else
      var b := Swapped(a.t, refused, m.attr, m.attrNew, m.attrOld);
      if b.end == Done || b.end == StatFailed then RotateResult(Done, b.end, b.failed, b.t)
      else
        var u := Renamed(b.t, refused, m.db, m.dbNew);
        RotateResult(Done, b.end, b.failed, Renamed(u, refused, m.dbOld, m.db))
  }

  /** What a successful swap leaves under `x`. */
  function Installed(f: Files, live: string, next: string, backup: string, x: string): Option<string> {
    if x == live then Get(f, next)
    else if x == next then None
    else if x == backup && live in f then Get(f, live)
    else Get(f, x)
  }

  /** The swap succeeds with exactly these files, or fails and, if its undo works, leaves all but
      the backup as they were. Only where there was no live file may a stale backup take its place. */
  lemma SwapEnds(t: Trace, refused: nat -> bool, live: string, next: string, backup: string)
    requires live != next && live != backup && next != backup
    ensures var r := Swapped(t, refused, live, next, backup);
            && (r.end == Done ==>
                  next in t.files && forall x :: Get(r.t.files, x) == Installed(t.files, live, next, backup, x))
            && (r.end == StatFailed || r.end == BackupFailed ==> r.t.files == t.files)
            && (r.end == BackupFailed ==> live in t.files)
            && (r.end == InstallFailed && !refused(r.failed) ==>
                  && (forall x :: x != live && x != backup ==> Get(r.t.files, x) == Get(t.files, x))
                  && Get(r.t.files, live) == (if live in t.files then Get(t.files, live) else Get(t.files, backup))
                  && Get(r.t.files, backup) == None)
  {
  }

  function InstalledBoth(f: Files, m: Names, x: string): Option<string> {
    if x in {m.attr, m.attrNew, m.attrOld} then Installed(f, m.attr, m.attrNew, m.attrOld, x)
    else Installed(f, m.db, m.dbNew, m.dbOld, x)
  }

  predicate Succeeds(r: RotateResult) {
    r.db == Done && r.attr == Done
  }

  /** Success installs both new files, keeps both old ones as backups and touches nothing else. */
  lemma RotateSucceeds(t: Trace, refused: nat -> bool, m: Names)
    requires Distinct(m)
    ensures var r := Rotated(t, refused, m);
            Succeeds(r) ==> forall x :: Get(r.t.files, x) == InstalledBoth(t.files, m, x)
  {
    SwapEnds(t, refused, m.db, m.dbNew, m.dbOld);
    var a := Swapped(t, refused, m.db, m.dbNew, m.dbOld);
    SwapEnds(a.t, refused, m.attr, m.attrNew, m.attrOld);
    hide Swapped;
    assert a.end == Done ==> (m.attr in a.t.files <==> m.attr in t.files) by {
      assert Get(a.t.files, m.attr) ==
             if a.end == Done then Installed(t.files, m.db, m.dbNew, m.dbOld, m.attr) else Get(a.t.files, m.attr);
    }
  }

  /** The four live and new files are as they were. */
  ghost predicate Restored(f: Files, g: Files, m: Names) {
    forall x :: x in {m.db, m.dbNew, m.attr, m.attrNew} ==> Get(g, x) == Get(f, x)
  }

  /** The rollback restores the files unless the second stat failed, or a stale backup stood where
      there was no live file to come back. */
  predicate CanRestore(f: Files, r: RotateResult, m: Names) {
    && (r.db == InstallFailed || r.attr == BackupFailed || r.attr == InstallFailed ==> m.db in f || m.dbOld !in f)
    && (r.attr == InstallFailed ==> m.attr in f || m.attrOld !in f)
    && (r.db == Done ==> r.attr != StatFailed)
  }

  predicate UndoWorks(r: RotateResult, refused: nat -> bool) {
    forall k :: r.failed <= k < r.t.calls ==> !refused(k)
  }

  /** The first half fails and undoes itself. */
  lemma DbFails(t: Trace, refused: nat -> bool, m: Names)
    requires Distinct(m)
    ensures var r := Rotated(t, refused, m);
            r.db != Done && UndoWorks(r, refused) ==>
              && (Restored(t.files, r.t.files, m) <==> CanRestore(t.files, r, m))
              && Others(t.files, r.t.files, m)
  {
    var a := Swapped(t, refused, m.db, m.dbNew, m.dbOld);
    SwapEnds(t, refused, m.db, m.dbNew, m.dbOld);
    if a.end == InstallFailed {
      assert a.t.calls == a.failed + 1;
    }
    hide Swapped;
  }

  ghost predicate Others(f: Files, g: Files, m: Names) {
    forall x :: x !in {m.db, m.dbNew, m.dbOld, m.attr, m.attrNew, m.attrOld} ==> Get(g, x) == Get(f, x)
  }

  /** The two renames that undo the first half, when they are not refused. */
  lemma DbUndone(t: Trace, refused: nat -> bool, m: Names)
    requires Distinct(m) && m.db in t.files && !refused(t.calls) && !refused(t.calls + 1)
    ensures var u := Renamed(Renamed(t, refused, m.db, m.dbNew), refused, m.dbOld, m.db);
            && u.calls == t.calls + 2
            && Get(u.files, m.db) == Get(t.files, m.dbOld)
            && Get(u.files, m.dbNew) == Get(t.files, m.db)
            && forall x :: x !in {m.db, m.dbNew, m.dbOld} ==> Get(u.files, x) == Get(t.files, x)
  {
  }

  /** The second half has failed and undone itself; the first one is undone after it. */
  lemma BackOut(f: Files, g: Files, b: SwapResult, refused: nat -> bool, m: Names)
    requires Distinct(m) && m.dbNew in f && forall x :: Get(g, x) == Installed(f, m.db, m.dbNew, m.dbOld, x)
    requires b.end == BackupFailed || b.end == InstallFailed
    requires b.end == BackupFailed ==> b.t.files == g
    requires b.end == InstallFailed ==>
               && (forall x :: x != m.attr && x != m.attrOld ==> Get(b.t.files, x) == Get(g, x))
               && Get(b.t.files, m.attr) == (if m.attr in g then Get(g, m.attr) else Get(g, m.attrOld))
    requires !refused(b.t.calls) && !refused(b.t.calls + 1)
    ensures var v := Renamed(Renamed(b.t, refused, m.db, m.dbNew), refused, m.dbOld, m.db);
            && v.calls == b.t.calls + 2 && Others(f, v.files, m)
            && (Restored(f, v.files, m) <==>
                  (m.db in f || m.dbOld !in f) && (b.end == InstallFailed ==> m.attr in f || m.attrOld !in f))
  {
    assert Get(g, m.db) == Get(f, m.dbNew) && Get(b.t.files, m.db) == Get(g, m.db);
    assert Get(g, m.attr) == Get(f, m.attr) && Get(g, m.attrOld) == Get(f, m.attrOld);
    assert Get(b.t.files, m.dbOld) == Get(g, m.dbOld);
    DbUndone(b.t, refused, m);
    hide Renamed;
  }

  /** The second half fails; the first is undone unless it was its stat that failed. */
  lemma AttrFails(t: Trace, refused: nat -> bool, m: Names)
    requires Distinct(m)
    ensures var r := Rotated(t, refused, m);
            r.db == Done && r.attr != Done && UndoWorks(r, refused) ==>
              && (Restored(t.files, r.t.files, m) <==> CanRestore(t.files, r, m))
              && Others(t.files, r.t.files, m)
  {
    var a := Swapped(t, refused, m.db, m.dbNew, m.dbOld);
    SwapEnds(t, refused, m.db, m.dbNew, m.dbOld);
    var b := Swapped(a.t, refused, m.attr, m.attrNew, m.attrOld);
    SwapEnds(a.t, refused, m.attr, m.attrNew, m.attrOld);
    StatCalls(a.t, refused, m.attr, m.attrNew, m.attrOld);
    FailureCalls(a.t, refused, m.attr, m.attrNew, m.attrOld);
    var r := Rotated(t, refused, m);
    hide Swapped;
    if a.end == Done && b.end != Done && UndoWorks(r, refused) {
      if b.end == StatFailed {
        StatFails(t.files, a.t.files, m);
      } else {
        assert r.failed == b.failed && r.t.calls == b.t.calls + 2;
        BackOut(t.files, a.t.files, b, refused, m);
      }
      hide Renamed, Installed, Get, Restored, Others;
    }
  }

  lemma StatFails(f: Files, g: Files, m: Names)
    requires Distinct(m) && m.dbNew in f && forall x :: Get(g, x) == Installed(f, m.db, m.dbNew, m.dbOld, x)
    ensures !Restored(f, g, m) && Others(f, g, m)
  {
    assert Get(g, m.dbNew) == None;
  }

  lemma FailureCalls(t: Trace, refused: nat -> bool, live: string, next: string, backup: string)
    ensures var r := Swapped(t, refused, live, next, backup);
            && t.calls < r.t.calls
            && (r.end == StatFailed || r.end == BackupFailed ==> r.t.calls == r.failed)
            && (r.end == InstallFailed ==> r.t.calls == r.failed + 1)
  {
  }

  /** Failure with a working undo: exactly when the rollback restores the files. */
  lemma RotateFails(t: Trace, refused: nat -> bool, m: Names)
    requires Distinct(m)
    ensures var r := Rotated(t, refused, m);
            !Succeeds(r) && UndoWorks(r, refused) ==>
              && (Restored(t.files, r.t.files, m) <==> CanRestore(t.files, r, m))
              && Others(t.files, r.t.files, m)
  {
    DbFails(t, refused, m);
    AttrFails(t, refused, m);
    hide Restored, CanRestore, Others, UndoWorks;
  }

  /** The content that `a` had in `f` is, in `g`, under `a` or `b`. */
  ghost predicate Kept(f: Files, g: Files, a: string, b: string) {
    a in f ==> Get(g, a) == Get(f, a) || Get(g, b) == Get(f, a)
  }

  /** In every state of a swap both contents exist, and other files are not touched. */
  ghost predicate SwapSafe(f: Files, g: Files, live: string, next: string, backup: string) {
    && Kept(f, g, live, backup) && Kept(f, g, next, live)
    && forall x :: x !in {live, next, backup} ==> Get(g, x) == Get(f, x)
  }

  /** The states a swap can go through, in terms of the files. */
  lemma SwapSteps(f: Files, live: string, next: string, backup: string)
    requires live != next && live != backup && next != backup
    ensures var g := if live in f then Moved(f, live, backup) else f;
            && SwapSafe(f, f, live, next, backup) && SwapSafe(f, g, live, next, backup)
            && (next in g ==> SwapSafe(f, Moved(g, next, live), live, next, backup))
            && (backup in g ==> SwapSafe(f, Moved(g, backup, live), live, next, backup))
  {
  }

  lemma SwapStates(t: Trace, refused: nat -> bool, live: string, next: string, backup: string)
    requires live != next && live != backup && next != backup
    ensures var r := Swapped(t, refused, live, next, backup);
            && |t.seen| <= |r.t.seen| && SwapSafe(t.files, r.t.files, live, next, backup)
            && (forall i :: 0 <= i < |t.seen| ==> r.t.seen[i] == t.seen[i])
            && forall i :: |t.seen| <= i < |r.t.seen| ==> SwapSafe(t.files, r.t.seen[i], live, next, backup)
  {
    hide SwapSafe, Moved;
    SwapSteps(t.files, live, next, backup);
  }

  /** What must not be lost in any state of a rotation: the old contents ever, the new ones as long
      as no undo is refused. */
  ghost predicate Safe(f: Files, g: Files, m: Names, undoWorks: bool) {
    && Kept(f, g, m.db, m.dbOld) && Kept(f, g, m.attr, m.attrOld)
    && (undoWorks ==> Kept(f, g, m.dbNew, m.db) && Kept(f, g, m.attrNew, m.attr))
  }

  lemma DbUndoneStates(f: Files, t: Trace, refused: nat -> bool, m: Names, undoWorks: bool)
    requires Distinct(m) && Safe(f, t.files, m, undoWorks)
    requires m.dbNew in f && Get(t.files, m.db) == Get(f, m.dbNew)
    requires m.db in f ==> Get(t.files, m.dbOld) == Get(f, m.db)
    requires undoWorks ==> !refused(t.calls)
    ensures var u := Renamed(t, refused, m.db, m.dbNew);
            var v := Renamed(u, refused, m.dbOld, m.db);
            && Safe(f, u.files, m, undoWorks) && Safe(f, v.files, m, undoWorks)
            && |t.seen| <= |v.seen|
            && (forall i :: 0 <= i < |t.seen| ==> v.seen[i] == t.seen[i])
            && forall i :: |t.seen| <= i < |v.seen| ==> v.seen[i] == u.files || v.seen[i] == v.files
  {
    GetMoved(t.files, m.db, m.dbNew, m.db);
  }

  /** A state of the first swap is safe. */
  lemma FirstSafe(f: Files, g: Files, m: Names, undoWorks: bool)
    requires Distinct(m) && SwapSafe(f, g, m.db, m.dbNew, m.dbOld)
    ensures Safe(f, g, m, undoWorks)
  {
  }

  /** A state of the second swap is safe if it started after the first had succeeded. */
  lemma SecondSafe(f: Files, a: Files, g: Files, m: Names, undoWorks: bool)
    requires Distinct(m) && SwapSafe(a, g, m.attr, m.attrNew, m.attrOld)
    requires forall x :: Get(a, x) == Installed(f, m.db, m.dbNew, m.dbOld, x)
    ensures Safe(f, g, m, undoWorks)
    ensures Get(g, m.db) == Get(f, m.dbNew) && (m.db in f ==> Get(g, m.dbOld) == Get(f, m.db))
  {
    assert m.attr in f ==> Get(a, m.attr) == Get(f, m.attr);
    assert m.attrNew in f ==> Get(a, m.attrNew) == Get(f, m.attrNew);
  }

  /** No state of a rotation, whatever fails, loses a file that was live, nor a new one unless an
      undo is refused. */
  lemma RotateSafe(t: Trace, refused: nat -> bool, m: Names)
    requires Distinct(m)
    ensures var r := Rotated(t, refused, m);
            forall i :: |t.seen| <= i < |r.t.seen| ==> Safe(t.files, r.t.seen[i], m, UndoWorks(r, refused))
  {
    var r := Rotated(t, refused, m);
    var works := UndoWorks(r, refused);
    var a := Swapped(t, refused, m.db, m.dbNew, m.dbOld);
    SwapStates(t, refused, m.db, m.dbNew, m.dbOld);
    SwapEnds(t, refused, m.db, m.dbNew, m.dbOld);
    forall i | |t.seen| <= i < |a.t.seen|
      ensures Safe(t.files, a.t.seen[i], m, works)
    {
      FirstSafe(t.files, a.t.seen[i], m, works);
    }
    hide Safe, SwapSafe, Swapped;
    if a.end == Done {
      RotateSafeAttr(t.files, |t.seen|, a.t, refused, m, works, r);
    }
  }

  lemma RotateSafeAttr(f: Files, n: nat, a: Trace, refused: nat -> bool, m: Names, works: bool, r: RotateResult)
    requires Distinct(m) && m.dbNew in f && forall x :: Get(a.files, x) == Installed(f, m.db, m.dbNew, m.dbOld, x)
    requires forall i :: n <= i < |a.seen| ==> Safe(f, a.seen[i], m, works)
    requires var b := Swapped(a, refused, m.attr, m.attrNew, m.attrOld);
             var u := Renamed(b.t, refused, m.db, m.dbNew);
             if b.end == Done || b.end == StatFailed then r.t == b.t
             else r.t == Renamed(u, refused, m.dbOld, m.db) && (works ==> !refused(b.t.calls))
    ensures forall i :: n <= i < |r.t.seen| ==> Safe(f, r.t.seen[i], m, works)
  {
    var b := Swapped(a, refused, m.attr, m.attrNew, m.attrOld);
    SwapStates(a, refused, m.attr, m.attrNew, m.attrOld);
    hide Swapped, Installed, Renamed;
    forall i | |a.seen| <= i < |b.t.seen|
      ensures Safe(f, b.t.seen[i], m, works)
    {
      SecondSafe(f, a.files, b.t.seen[i], m, works);
    }
    SecondSafe(f, a.files, b.t.files, m, works);
    hide Safe, SwapSafe;
    if b.end != Done && b.end != StatFailed {
      DbUndoneStates(f, b.t, refused, m, works);
    }
  }

  lemma SwapSucceedsIff(t: Trace, refused: nat -> bool, live: string, next: string, backup: string)
    requires live != next && live != backup && next != backup
    ensures var r, n := Swapped(t, refused, live, next, backup), if live in t.files then 3 else 2;
            && (r.end == Done <==> next in t.files && forall k :: t.calls <= k < t.calls + n ==> !refused(k))
            && (r.end == Done ==> r.t.calls == t.calls + n)
  {
    hide Moved;
    if live in t.files {
      GetMoved(t.files, live, backup, next);
    }
  }

  /** A rotation succeeds exactly if both new files exist and none of its calls is refused. */
  lemma RotateSucceedsIff(t: Trace, refused: nat -> bool, m: Names)
    requires Distinct(m)
    ensures var n := 4 + (if m.db in t.files then 1 else 0) + (if m.attr in t.files then 1 else 0);
            Succeeds(Rotated(t, refused, m)) <==>
            m.dbNew in t.files && m.attrNew in t.files && forall k :: t.calls <= k < t.calls + n ==> !refused(k)
  {
    var a := Swapped(t, refused, m.db, m.dbNew, m.dbOld);
    SwapSucceedsIff(t, refused, m.db, m.dbNew, m.dbOld);
    SwapSucceedsIff(a.t, refused, m.attr, m.attrNew, m.attrOld);
    SwapEnds(t, refused, m.db, m.dbNew, m.dbOld);
    hide Swapped;
    if a.end == Done {
      assert Get(a.t.files, m.attr) == Get(t.files, m.attr) && Get(a.t.files, m.attrNew) == Get(t.files, m.attrNew);
    }
  }

  /** The number of the second stat, if the first half succeeds. */
  function SecondStat(t: Trace, m: Names): nat {
    t.calls + if m.db in t.files then 3 else 2
  }

  /** If the rotation fails and its undo works, the four files are as they were. */
  ghost predicate Restores(t: Trace, refused: nat -> bool, m: Names) {
    var r := Rotated(t, refused, m);
    !Succeeds(r) && UndoWorks(r, refused) ==> Restored(t.files, r.t.files, m)
  }

  /** No stale backup can take the place of a live file that is not there. */
  predicate NoneStale(f: Files, m: Names) {
    (m.db in f || m.dbOld !in f) && (m.dbNew in f ==> m.attr in f || m.attrOld !in f)
  }

  /** How the run got as far as its outcome says. */
  lemma OutcomeCalls(t: Trace, refused: nat -> bool, m: Names)
    requires Distinct(m)
    ensures var r := Rotated(t, refused, m);
            && (r.db == Done ==> m.dbNew in t.files)
            && (r.db == Done && r.attr == StatFailed ==> refused(SecondStat(t, m)))
            && (r.attr != Untried ==> r.db == Done)
  {
    SwapSucceedsIff(t, refused, m.db, m.dbNew, m.dbOld);
    var a := Swapped(t, refused, m.db, m.dbNew, m.dbOld);
    StatCalls(a.t, refused, m.attr, m.attrNew, m.attrOld);
    hide Swapped;
  }

  lemma StatCalls(t: Trace, refused: nat -> bool, live: string, next: string, backup: string)
    ensures Swapped(t, refused, live, next, backup).end == StatFailed <==> refused(t.calls)
    ensures Swapped(t, refused, live, next, backup).end != Untried
  {
  }

  /** All calls but one work. */
  function Only(k: nat): nat -> bool {
    j => j == k
  }

  /** The only refused call is an installation. */
  lemma InstallRefused(t: Trace, live: string, next: string, backup: string)
    requires live != next && live != backup && next != backup && live !in t.files
    ensures var r := Swapped(t, Only(t.calls + 1), live, next, backup);
            r.end == InstallFailed && r.failed == t.calls + 2 && r.t.calls == t.calls + 3
  {
  }

  /** A stale backup takes the place of the database, if the installation is refused. */
  lemma StaleDb(t: Trace, m: Names)
    requires Distinct(m) && m.db !in t.files && m.dbOld in t.files
    ensures !Restores(t, Only(t.calls + 1), m)
  {
    InstallRefused(t, m.db, m.dbNew, m.dbOld);
    RotateFails(t, Only(t.calls + 1), m);
    hide Swapped, Restored;
  }

  /** The first half succeeds if no call before the second stat is refused. */
  lemma FirstHalf(t: Trace, k: nat, m: Names)
    requires Distinct(m) && m.dbNew in t.files && SecondStat(t, m) <= k
    ensures var a := Swapped(t, Only(k), m.db, m.dbNew, m.dbOld);
            && a.end == Done && a.t.calls == SecondStat(t, m)
            && (m.attr in a.t.files <==> m.attr in t.files)
  {
    SwapSucceedsIff(t, Only(k), m.db, m.dbNew, m.dbOld);
    SwapEnds(t, Only(k), m.db, m.dbNew, m.dbOld);
    var a := Swapped(t, Only(k), m.db, m.dbNew, m.dbOld);
    hide Swapped;
    assert Get(a.t.files, m.attr) == Get(t.files, m.attr);
  }

  lemma StaleAttr(t: Trace, m: Names)
    requires Distinct(m) && m.dbNew in t.files && m.attr !in t.files && m.attrOld in t.files
    ensures !Restores(t, Only(SecondStat(t, m) + 1), m)
  {
    var k := SecondStat(t, m) + 1;
    FirstHalf(t, k, m);
    var a := Swapped(t, Only(k), m.db, m.dbNew, m.dbOld);
    InstallRefused(a.t, m.attr, m.attrNew, m.attrOld);
    RotateFails(t, Only(k), m);
    hide Swapped, Restored, SecondStat;
  }

  lemma NoUndo(t: Trace, m: Names)
    requires Distinct(m) && m.dbNew in t.files
    ensures !Restores(t, Only(SecondStat(t, m)), m)
  {
    var k := SecondStat(t, m);
    FirstHalf(t, k, m);
    var a := Swapped(t, Only(k), m.db, m.dbNew, m.dbOld);
    StatCalls(a.t, Only(k), m.attr, m.attrNew, m.attrOld);
    FailureCalls(a.t, Only(k), m.attr, m.attrNew, m.attrOld);
    RotateFails(t, Only(k), m);
    hide Swapped, Restored, SecondStat;
  }

  /** For which files every failure restores them, whatever calls are refused, if only the second
      stat is answered: exactly if no stale backup can come back. */
  lemma RestoresIff(t: Trace, m: Names)
    requires Distinct(m)
    ensures (forall refused: nat -> bool :: !refused(SecondStat(t, m)) ==> Restores(t, refused, m)) <==>
            NoneStale(t.files, m)
  {
    hide Restores;
    forall refused: nat -> bool | NoneStale(t.files, m) && !refused(SecondStat(t, m))
      ensures Restores(t, refused, m)
    {
      RestoresAnswered(t, refused, m);
    }
    if m.db !in t.files && m.dbOld in t.files {
      StaleDb(t, m);
    } else if !NoneStale(t.files, m) {
      StaleAttr(t, m);
    }
  }

  lemma RestoresAnswered(t: Trace, refused: nat -> bool, m: Names)
    requires Distinct(m) && NoneStale(t.files, m) && (m.dbNew in t.files ==> !refused(SecondStat(t, m)))
    ensures Restores(t, refused, m)
  {
    OutcomeCalls(t, refused, m);
    RotateFails(t, refused, m);
    hide Rotated, Restored, SecondStat;
  }

  /** The same if the second stat may fail too: there must be no new database to begin with. */
  lemma RestoresAlwaysIff(t: Trace, m: Names)
    requires Distinct(m)
    ensures (forall refused: nat -> bool :: Restores(t, refused, m)) <==> NoneStale(t.files, m) && m.dbNew !in t.files
  {
    hide Restores;
    forall refused: nat -> bool | NoneStale(t.files, m) && m.dbNew !in t.files
      ensures Restores(t, refused, m)
    {
      RestoresAnswered(t, refused, m);
    }
    RestoresIff(t, m);
    if m.dbNew in t.files {
      NoUndo(t, m);
    }
  }

  /** The usual case: both live files are there, and the second stat is answered. */
  lemma LiveFilesRestored(t: Trace, refused: nat -> bool, m: Names)
    requires Distinct(m) && m.db in t.files && m.attr in t.files && !refused(t.calls + 3)
    ensures Restores(t, refused, m)
  {
    RestoresAnswered(t, refused, m);
  }

  /** All four files are there, only the second stat is refused, and the new database stays installed. */
  lemma SecondStatExample()
    ensures var m := NamesOf("index", "new", "old");
            var f := map[m.db := "1", m.dbNew := "2", m.attr := "3", m.attrNew := "4"];
            var r := Rotated(Trace(f, 0, []), Only(3), m);
            !Succeeds(r) && UndoWorks(r, Only(3)) && Get(r.t.files, m.db) == Some("2")
                && Get(r.t.files, m.attr) == Some("3")
  {
    var m := NamesOf("index", "new", "old");
    DistinctIff("index", "new", "old");
    var f := map[m.db := "1", m.dbNew := "2", m.attr := "3", m.attrNew := "4"];
    var t := Trace(f, 0, []);
    FirstHalf(t, 3, m);
    var a := Swapped(t, Only(3), m.db, m.dbNew, m.dbOld);
    SwapEnds(t, Only(3), m.db, m.dbNew, m.dbOld);
    StatCalls(a.t, Only(3), m.attr, m.attrNew, m.attrOld);
    SwapEnds(a.t, Only(3), m.attr, m.attrNew, m.attrOld);
    FailureCalls(a.t, Only(3), m.attr, m.attrNew, m.attrOld);
    hide Swapped, NamesOf;
    assert Get(a.t.files, m.db) == Some("2") && Get(a.t.files, m.attr) == Some("3");
  }

  /** A call that fails, is undone, and leaves a stale backup in the place of the live file. */
  lemma StaleBackupExample()
    ensures var m := NamesOf("index", "new", "old");
            var r := Rotated(Trace(map[m.dbOld := "stale"], 0, []), (_: nat) => false, m);
            !Succeeds(r) && UndoWorks(r, (_: nat) => false) && Get(r.t.files, m.db) == Some("stale")
  {
    DistinctIff("index", "new", "old");
  }
}

/** rotate_serial and rotate_index. */
module IndexRotation {
  import opened Wrappers
  import opened FileSystem
  import opened RotationRules

  /** The calls of rotate_serial. */
  method ReplaceFile(d: Disk, serialfile: string, buf0: string, buf1: string) returns (ok: bool)
    modifies d
    ensures var r := Swapped(old(d.t), d.refused, serialfile, buf0, buf1); ok == (r.end == Done) && d.t == r.t
  {
    hide Moved;
    var sb := d.Stat(serialfile);
    if sb == Stat.Error {
      return false;
    } else if sb == Found {
      ok := d.Rename(serialfile, buf1);
      if !ok {
        return;
      }
    }
    ok := d.Rename(buf0, serialfile);
    if !ok {
      var undone := d.Rename(buf1, serialfile);
    }
  }

  /** rotate_serial: the names, and the calls. */
  method RotateSerial(d: Disk, serialfile: string, newSuffix: string, oldSuffix: string) returns (ok: bool)
    modifies d
    ensures |serialfile| + Max(|oldSuffix|, |newSuffix|) + 1 >= 256 ==> !ok && d.t == old(d.t)
    ensures |serialfile| + Max(|oldSuffix|, |newSuffix|) + 1 < 256 ==>
              var next, backup := serialfile + "." + newSuffix, serialfile + "." + oldSuffix;
              var r := Swapped(old(d.t), d.refused, serialfile, next, backup);
              ok == (r.end == Done) && d.t == r.t
    // success exactly if the new file is there and no call is refused
    ensures |serialfile| + Max(|oldSuffix|, |newSuffix|) + 1 < 256 && newSuffix != oldSuffix ==>
              var calls := if serialfile in old(d.t.files) then 3 else 2;
              ok <==> serialfile + "." + newSuffix in old(d.t.files)
                      && forall k :: old(d.t.calls) <= k < old(d.t.calls) + calls ==> !d.refused(k)
    // which replaces the live one, and that becomes the backup
    ensures ok && newSuffix != oldSuffix ==>
              && Get(d.t.files, serialfile) == Get(old(d.t.files), serialfile + "." + newSuffix)
              && (serialfile in old(d.t.files) ==>
                    Get(d.t.files, serialfile + "." + oldSuffix) == Get(old(d.t.files), serialfile))
  {
    hide Swapped;
    var i := |serialfile| + |oldSuffix|;
    var j := |serialfile| + |newSuffix|;
    if i > j {
      j := i;
    }
    if j + 1 >= BSIZE {
      return false;
    }
    var buf0 := serialfile + "." + newSuffix;
    var buf1 := serialfile + "." + oldSuffix;
    if newSuffix != oldSuffix {
      SerialReplaced(d.t, d.refused, serialfile, newSuffix, oldSuffix);
    }
    ok := ReplaceFile(d, serialfile, buf0, buf1);
  }

  /** What the calls come to, on the names that are made of the suffixes. */
  lemma SerialReplaced(t: Trace, refused: nat -> bool, live: string, n: string, o: string)
    requires n != o
    ensures var next, backup := live + "." + n, live + "." + o;
            var r, calls := Swapped(t, refused, live, next, backup), if live in t.files then 3 else 2;
            && (r.end == Done <==> next in t.files && forall k :: t.calls <= k < t.calls + calls ==> !refused(k))
            && (r.end == Done ==> Replaced(t.files, r.t.files, live, next, backup))
  {
    hide Swapped;
    SameSuffixes(live, n, o);
    SwapSucceedsIff(t, refused, live, live + "." + n, live + "." + o);
    SwapEnds(t, refused, live, live + "." + n, live + "." + o);
    var r := Swapped(t, refused, live, live + "." + n, live + "." + o);
    if r.end == Done {
      ReplacedIs(t.files, r.t.files, live, live + "." + n, live + "." + o);
    }
  }

  /** The calls of rotate_index. */
  method RotateFiles(d: Disk, dbfile: string, buf0: string, buf1: string, buf4: string, buf2: string, buf3: string)
    returns (ok: bool)
    modifies d
    ensures var r := Rotated(old(d.t), d.refused, Names(dbfile, buf0, buf1, buf4, buf2, buf3));
            ok == Succeeds(r) && d.t == r.t
  {
    hide Renamed, Works;
    var sb := d.Stat(dbfile);
    if sb == Stat.Error {
      return false;
    } else if sb == Found {
      ok := d.Rename(dbfile, buf1);
      if !ok {
        return;
      }
    }
    ok := d.Rename(buf0, dbfile);
    if !ok {
      var undone := d.Rename(buf1, dbfile);
      return;
    }
    sb := d.Stat(buf4);
    if sb == Stat.Error {
      return false;
    } else if sb == Found {
      ok := d.Rename(buf4, buf3);
      if !ok {
        var undone := d.Rename(dbfile, buf0);
        undone := d.Rename(buf1, dbfile);
        return;
      }
    }
    ok := d.Rename(buf2, buf4);
    if !ok {
      var undone := d.Rename(buf3, buf4);
      undone := d.Rename(dbfile, buf0);
      undone := d.Rename(buf1, dbfile);
    }
  }

  /** rotate_index: the names, and the calls. */
  method RotateIndex(d: Disk, dbfile: string, newSuffix: string, oldSuffix: string) returns (ok: bool)
    modifies d
    ensures |dbfile| + Max(|oldSuffix|, |newSuffix|) + 6 >= 256 ==> !ok && d.t == old(d.t)
    ensures |dbfile| + Max(|oldSuffix|, |newSuffix|) + 6 < 256 ==>
              var m := Names(dbfile, dbfile + "." + newSuffix, dbfile + "." + oldSuffix,
                             dbfile + ".attr", dbfile + ".attr." + newSuffix, dbfile + ".attr." + oldSuffix);
              var r := Rotated(old(d.t), d.refused, m);
              ok == Succeeds(r) && d.t == r.t
    // success exactly if both new files are there and no call is refused
    ensures |dbfile| + Max(|oldSuffix|, |newSuffix|) + 6 < 256 && Apart(newSuffix, oldSuffix) ==>
              var f := old(d.t.files);
              var calls := 4 + (if dbfile in f then 1 else 0) + (if dbfile + ".attr" in f then 1 else 0);
              ok <==> dbfile + "." + newSuffix in f && dbfile + ".attr." + newSuffix in f
                      && forall k :: old(d.t.calls) <= k < old(d.t.calls) + calls ==> !d.refused(k)
    // which replace the live ones, and these become the backups
    ensures ok && Apart(newSuffix, oldSuffix) ==>
              && Get(d.t.files, dbfile) == Get(old(d.t.files), dbfile + "." + newSuffix)
              && (dbfile in old(d.t.files) ==>
                    Get(d.t.files, dbfile + "." + oldSuffix) == Get(old(d.t.files), dbfile))
    ensures ok && Apart(newSuffix, oldSuffix) ==>
              && Get(d.t.files, dbfile + ".attr") == Get(old(d.t.files), dbfile + ".attr." + newSuffix)
              && (dbfile + ".attr" in old(d.t.files) ==>
                    Get(d.t.files, dbfile + ".attr." + oldSuffix) == Get(old(d.t.files), dbfile + ".attr"))
  {
    hide Rotated, Succeeds;
    var i := |dbfile| + |oldSuffix|;
    var j := |dbfile| + |newSuffix|;
    if i > j {
      j := i;
    }
    if j + 6 >= BSIZE {
      return false;
    }
    var buf4 := dbfile + ".attr";
    var buf2 := dbfile + ".attr." + newSuffix;
    var buf0 := dbfile + "." + newSuffix;
    var buf1 := dbfile + "." + oldSuffix;
    var buf3 := dbfile + ".attr." + oldSuffix;
    if Apart(newSuffix, oldSuffix) {
      IndexReplaced(d.t, d.refused, dbfile, newSuffix, oldSuffix);
    }
    ok := RotateFiles(d, dbfile, buf0, buf1, buf4, buf2, buf3);
  }

  /** The file `next` has taken the place of `live`, and that, if it was there, has become `backup`. */
  ghost predicate Replaced(f: Files, g: Files, live: string, next: string, backup: string) {
    && next in f && live in g && g[live] == f[next] && next !in g
    && (live in f ==> backup in g && g[backup] == f[live])
    && (live !in f ==> Get(g, backup) == Get(f, backup))
  }

  lemma IndexReplaced(t: Trace, refused: nat -> bool, db: string, n: string, o: string)
    requires Apart(n, o)
    ensures var m := Names(db, db + "." + n, db + "." + o, db + ".attr", db + ".attr." + n, db + ".attr." + o);
            var r := Rotated(t, refused, m);
            var calls := 4 + (if m.db in t.files then 1 else 0) + (if m.attr in t.files then 1 else 0);
            && (Succeeds(r) <==> m.dbNew in t.files && m.attrNew in t.files
                                 && forall k :: t.calls <= k < t.calls + calls ==> !refused(k))
            && (Succeeds(r) ==> Replaced(t.files, r.t.files, m.db, m.dbNew, m.dbOld)
                                && Replaced(t.files, r.t.files, m.attr, m.attrNew, m.attrOld))
  {
    hide Rotated, Succeeds;
    DistinctIff(db, n, o);
    var m := NamesOf(db, n, o);
    RotateSucceedsIff(t, refused, m);
    RotateSucceeds(t, refused, m);
    var g := Rotated(t, refused, m).t.files;
    if Succeeds(Rotated(t, refused, m)) {
      ReplacedIs(t.files, g, m.db, m.dbNew, m.dbOld);
      ReplacedIs(t.files, g, m.attr, m.attrNew, m.attrOld);
    }
  }

  lemma ReplacedIs(f: Files, g: Files, live: string, next: string, backup: string)
    requires live != next && live != backup && next != backup && next in f
    requires forall x :: x in {live, next, backup} ==> Get(g, x) == Installed(f, live, next, backup, x)
    ensures Replaced(f, g, live, next, backup)
  {
    assert Get(g, live) == Installed(f, live, next, backup, live);
    assert Get(g, next) == Installed(f, live, next, backup, next);
    assert Get(g, backup) == Installed(f, live, next, backup, backup);
  }
}
