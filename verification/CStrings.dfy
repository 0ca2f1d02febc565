/** C strings: a string ends before its first NUL. */
module CStrings {
  const NUL: char := '\0'

  /** A C string has a NUL after its last character. */
  function At(s: string, o: nat): char {
    if o < |s| then s[o] else NUL
  }

  /** The C string at `off`, whose NUL lies before `limit`, is `t`. */
  ghost predicate StringAt(b: seq<char>, off: int, t: string, limit: nat) {
    && 0 <= off && off + |t| < limit <= |b|
    && (forall k :: 0 <= k < |t| ==> b[off + k] == t[k])
    && b[off + |t|] == NUL
  }

  /** The place of the first `c` in a string, its length if there is none. */
  function IndexOf(s: string, c: char): (n: nat)
    ensures n <= |s| && (forall k :: 0 <= k < n ==> s[k] != c) && (n < |s| ==> s[n] == c)
  {
    if s == "" || s[0] == c then 0 else 1 + IndexOf(s[1..], c)
  }

  lemma FirstAt(s: string, c: char, n: nat)
    requires n <= |s| && (forall k :: 0 <= k < n ==> s[k] != c) && (n < |s| ==> s[n] == c)
    ensures IndexOf(s, c) == n
  {
    var i := IndexOf(s, c);
    assert i < |s| ==> s[i] == c;
    assert n < |s| ==> s[n] == c;
  }

  /** A C string read from its place. */
  method ReadString(buf: array<char>, off: nat, ghost t: string, ghost limit: nat) returns (r: string)
    requires NUL !in t && StringAt(buf[..], off, t, limit)
    ensures r == t
  {
    var n := 0;
    while buf[off + n] != NUL
      invariant n <= |t| && (n < |t| ==> t[n] in t && buf[off + n] == t[n])
      decreases |t| - n
    {
      n := n + 1;
    }
    r := buf[off..off + n];
  }
}
