/** The separator matcher of read_packet: on a mismatch it goes back to the start of the separator
    without looking at the mismatching character again. */
module Matcher {

  /** One character, `m` separator characters being matched. */
  function Step(sep: string, m: nat, c: char): (m': nat)
    requires m < |sep|
    ensures m' <= |sep|
  {
    if c == sep[m] then m + 1 else 0
  }

  /** The matcher after all of `s`; once the separator is complete it stays complete. */
  ghost function State(sep: string, s: string): (m: nat)
    ensures m <= |sep|
  {
    if s == [] then 0
    else
      var m := State(sep, s[..|s| - 1]);
      if m == |sep| then m else Step(sep, m, s[|s| - 1])
  }

  lemma StateNext(sep: string, s: string, c: char)
    ensures State(sep, s + [c]) == if State(sep, s) == |sep| then |sep| else Step(sep, State(sep, s), c)
  {
    assert (s + [c])[..|s|] == s;
  }

  /** The separator is completed by the last character of `s` and not before. */
  ghost predicate Completes(sep: string, s: string) {
    0 < |s| && State(sep, s) == |sep| && State(sep, s[..|s| - 1]) < |sep|
  }

  /** `s` ends with the first `m` characters of `sep`. */
  ghost predicate EndsWith(s: string, sep: string, m: nat) {
    m <= |s| && m <= |sep| && forall j :: 0 <= j < m ==> sep[j] == s[|s| - m + j]
  }

  /** `s` contains `sep` at index `at`. */
  ghost predicate OccursAt(sep: string, s: string, at: int) {
    0 <= at && at + |sep| <= |s| && s[at..at + |sep|] == sep
  }

  /** A complete state never goes away. */
  lemma {:induction false} Absorbing(sep: string, s: string, t: string)
    requires State(sep, s) == |sep|
    ensures State(sep, s + t) == |sep|
  {
    if t == [] {
      assert s + t == s;
    } else {
      Absorbing(sep, s, t[..|t| - 1]);
      StateNext(sep, s + t[..|t| - 1], t[|t| - 1]);
      assert s + t == (s + t[..|t| - 1]) + [t[|t| - 1]];
    }
  }

  lemma StaysComplete(sep: string, s: string, c: nat, d: nat)
    requires c <= d <= |s| && State(sep, s[..c]) == |sep|
    ensures State(sep, s[..d]) == |sep|
  {
    hide State;
    Absorbing(sep, s[..c], s[c..d]);
    assert s[..c] + s[c..d] == s[..d];
  }

  /** The separator is completed once: two prefixes completing it are the same. */
  lemma CompletesOnce(sep: string, s: string, c: nat, d: nat)
    requires c < d <= |s| && Completes(sep, s[..d])
    ensures State(sep, s[..c]) < |sep|
  {
    hide State;
    if State(sep, s[..c]) == |sep| {
      assert s[..d][..|s[..d]| - 1] == s[..d - 1];
      StaysComplete(sep, s, c, d - 1);
    }
  }

  /** The matcher invariant: the last m scanned characters are the first m of the separator. */
  lemma {:induction false} Scanned(sep: string, s: string)
    requires s == [] || State(sep, s[..|s| - 1]) < |sep|
    ensures EndsWith(s, sep, State(sep, s))
  {
    if s != [] {
      var t := s[..|s| - 1];
      var m := State(sep, t);
      Scanned(sep, t);
      if s[|s| - 1] == sep[m] {
        forall j | 0 <= j < m + 1
          ensures sep[j] == s[|s| - (m + 1) + j]
        {
          assert j < m ==> sep[j] == t[|t| - m + j];
        }
      }
    }
  }

  /** Soundness, for every separator and stream: where the matcher stops, the separator stands. */
  lemma Sound(sep: string, s: string)
    requires Completes(sep, s)
    ensures OccursAt(sep, s, |s| - |sep|)
  {
    Scanned(sep, s);
    hide State;
    var at := |s| - |sep|;
    assert forall j :: 0 <= j < |sep| ==> s[at..at + |sep|][j] == sep[j];
  }

  ghost predicate Repeated(sep: string) {
    forall i :: 0 <= i < |sep| ==> sep[i] == sep[0]
  }

  /** The matcher stops at the end of the first occurrence of the separator, if there is one. */
  ghost predicate FindsFirst(sep: string, s: string) {
    forall at :: OccursAt(sep, s, at) ==> State(sep, s[..at + |sep|]) == |sep|
  }

  /** Inside a run of the repeated character the matcher counts at least the run. */
  lemma {:induction false} RepeatedRun(sep: string, s: string, at: nat, k: nat)
    requires sep != [] && Repeated(sep) && k <= |sep| && at + k <= |s|
    requires forall i :: at <= i < at + k ==> s[i] == sep[0]
    ensures k <= State(sep, s[..at + k])
  {
    if k > 0 {
      RepeatedRun(sep, s, at, k - 1);
      assert s[..at + k] == s[..at + k - 1] + [s[at + k - 1]];
      StateNext(sep, s[..at + k - 1], s[at + k - 1]);
    }
  }

  /** A separator of one repeated character is always found at its first occurrence. */
  lemma RepeatedFound(sep: string, s: string)
    requires sep != [] && Repeated(sep)
    ensures FindsFirst(sep, s)
  {
    forall at | OccursAt(sep, s, at)
      ensures State(sep, s[..at + |sep|]) == |sep|
    {
      assert forall i :: at <= i < at + |sep| ==> s[i] == s[at..at + |sep|][i - at];
      RepeatedRun(sep, s, at, |sep|);
    }
  }

  /** Scanning a prefix of the separator from the initial state matches it. */
  lemma {:induction false} OwnPrefix(sep: string, k: nat)
    requires k <= |sep|
    ensures State(sep, sep[..k]) == k
  {
    if k > 0 {
      OwnPrefix(sep, k - 1);
      assert sep[..k] == sep[..k - 1] + [sep[k - 1]];
      StateNext(sep, sep[..k - 1], sep[k - 1]);
    }
  }

  /** Fewer characters than the separator has cannot complete it after a reset. */
  lemma {:induction false} TooShort(sep: string, s: string, t: string)
    requires State(sep, s) == 0 && |t| < |sep|
    ensures State(sep, s + t) <= |t|
  {
    if t == [] {
      assert s + t == s;
    } else {
      TooShort(sep, s, t[..|t| - 1]);
      StateNext(sep, s + t[..|t| - 1], t[|t| - 1]);
      assert s + t == (s + t[..|t| - 1]) + [t[|t| - 1]];
    }
  }

  /** For any other separator there is a stream in which it is missed. */
  lemma MissedStream(sep: string) returns (s: string)
    requires !Repeated(sep)
    ensures !FindsFirst(sep, s) && OccursAt(sep, s, |s| - |sep|) && State(sep, s) < |sep|
  {
    hide State;
    var m :| 0 <= m < |sep| && sep[m] != sep[0];
    // the first character of the separator, where another one was due, starts an occurrence
    s := sep[..m] + sep;
    var p := sep[..m] + [sep[0]];
    OwnPrefix(sep, m);
    StateNext(sep, sep[..m], sep[0]);
    TooShort(sep, p, sep[1..]);
    assert s == p + sep[1..];
    assert s[..|s|] == s && OccursAt(sep, s, m);
  }

  /** read_packet finds the first occurrence in every stream exactly for the separators made of one
      repeated character. */
  lemma FindsFirstIff(sep: string)
    requires sep != []
    ensures (forall s :: FindsFirst(sep, s)) <==> Repeated(sep)
  {
    if Repeated(sep) {
      forall s ensures FindsFirst(sep, s) { RepeatedFound(sep, s); }
    } else {
      var s := MissedStream(sep);
    }
  }

  /** The separator after such a payload is completed by its last character. */
  lemma FrameCompletes(sep: string, p: string)
    requires sep != [] && sep[0] !in p
    ensures Completes(sep, p + sep)
  {
    hide State;
    var k := |sep| - 1;
    PayloadThenSeparator(sep, p, |sep|);
    PayloadThenSeparator(sep, p, k);
    assert sep[..|sep|] == sep && (p + sep)[..|p + sep| - 1] == p + sep[..k];
  }

  /** Nothing starts while the first character of the separator is absent. */
  lemma {:induction false} Quiet(sep: string, p: string)
    requires sep != [] && sep[0] !in p
    ensures State(sep, p) == 0
  {
    if p != [] {
      Quiet(sep, p[..|p| - 1]);
      assert p[|p| - 1] in p;
    }
  }

  /** After a payload without the first separator character, the separator is matched as it comes. */
  lemma {:induction false} PayloadThenSeparator(sep: string, p: string, k: nat)
    requires sep != [] && sep[0] !in p && k <= |sep|
    ensures State(sep, p + sep[..k]) == k
  {
    if k == 0 {
      Quiet(sep, p);
      assert p + sep[..0] == p;
    } else {
      PayloadThenSeparator(sep, p, k - 1);
      assert p + sep[..k] == (p + sep[..k - 1]) + [sep[k - 1]];
      StateNext(sep, p + sep[..k - 1], sep[k - 1]);
    }
  }
}
