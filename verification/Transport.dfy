/** The byte transports under the framing readers: what a kernel socket and an SSL connection may
    answer, and the contract `Allowed` of a stream that can be peeked. */
module Transport {

  /** What one recv-like call reports. `Got(data)` is success with at least one byte. */
  datatype Status = Got(data: seq<char>) | WouldBlock | Closed | Broken

  /** The number of bytes a call delivered. */
  function Length(st: Status): nat { if st.Got? then |st.data| else 0 }

  /** The readers work in steps of this many bytes. */
  const CHUNK: nat := 1024

  function Min(a: nat, b: nat): nat { if a <= b then a else b }

  /** The peekable-stream contract: `s` is every byte still to be delivered, `window` how many of
      them are known to be at hand, primes are the values after the call. */
  ghost predicate Allowed(s: seq<char>, window: nat, len: nat, peek: bool, st: Status, s': seq<char>, window': nat)
  {
    match st
    case Got(data) =>
      && 0 < |data| <= len && Min(len, window) <= |data| && data <= s
      && s' == (if peek then s else s[|data|..])
      && window' == (if peek then if window < |data| then |data| else window
                     else if window < |data| then 0 else window - |data|)
    case _ => s' == s && window' == window && (window == 0 || len == 0)
  }

  /** A call served from the window alone, as a peek and as a read; `n` may be zero if `len` is. */
  lemma AllowedWithin(kept: seq<char>, unread: seq<char>, len: nat)
    requires 0 < |kept|
    ensures var n := Min(|kept|, len); var st := if n == 0 then WouldBlock else Got(kept[..n]);
            && Allowed(kept + unread, |kept|, len, true, st, kept + unread, |kept|)
            && Allowed(kept + unread, |kept|, len, false, st, (kept + unread)[n..], |kept| - n)
  {
  }

  /** A call that found the window empty and got nothing from the connection. */
  lemma AllowedNothing(s: seq<char>, len: nat, peek: bool, st: Status)
    requires !st.Got?
    ensures Allowed(s, 0, len, peek, st, s, 0)
  {
  }

  /** A call served first from the window and then from the connection, as a peek and as a read. */
  lemma AllowedBeyond(kept: seq<char>, unread: seq<char>, len: nat, data: seq<char>, rest: seq<char>)
    requires unread == data + rest && 0 < |data| && |kept| + |data| <= len
    ensures Allowed(kept + unread, |kept|, len, true, Got(kept + data), kept + unread, |kept + data|)
    ensures Allowed(kept + unread, |kept|, len, false, Got(kept + data), rest, 0)
  {
    assert kept + unread == (kept + data) + rest;
  }

  /** A peek followed by a read of no more than was peeked: the read cannot fail and delivers
      exactly the bytes asked for, which are the first ones the peek showed. */
  lemma PeekThenRead(s: seq<char>, w: nat, len: nat, data: seq<char>, s1: seq<char>, w1: nat,
                     k: nat, st: Status, s2: seq<char>, w2: nat)
    requires Allowed(s, w, len, true, Got(data), s1, w1)
    requires 0 < k <= |data| && Allowed(s1, w1, k, false, st, s2, w2)
    ensures st == Got(data[..k]) && data[..k] + s2 == s
  {
    assert st.data == s[..k] == data[..k];
  }

  /** The first `k` characters, or all of them. */
  ghost function Part(s: seq<char>, k: nat): (r: seq<char>)
    ensures k <= |s| ==> r == s[..k]
  {
    s[..Min(k, |s|)]
  }

  /** The Copy macro: `t` written over the buffer `b` from index `off` on. */
  function Overwrite(b: seq<char>, off: nat, t: seq<char>): (r: seq<char>)
    requires off + |t| <= |b|
    ensures |r| == |b| && r[off..off + |t|] == t && b[..off] + t <= r
    ensures forall i :: off + |t| <= i < |b| ==> r[i] == b[i]
  {
    b[..off] + t + b[off + |t|..]
  }

  /** A buffer that is at least `m` characters long now, and has its old contents from there on. */
  ghost predicate Grown(b: seq<char>, m: nat, b': seq<char>) {
    && |b'| == (if |b| < m then m else |b|)
    && forall i :: m <= i < |b| ==> b'[i] == b[i]
  }

  /** realloc to a larger size: the old contents come first, the rest is arbitrary. */
  method Renew(b: seq<char>, size: nat) returns (r: seq<char>)
    requires |b| <= size
    ensures |r| == size && r[..|b|] == b
  {
    var junk: char :| true;
    r := b + seq(size - |b|, _ => junk);
  }

  /** The outside world below the socket: bytes the peer sent (or will send) and that the layer
      above has not taken.  Its methods choose their results freely within the stated limits. */
  class Wire {
    const eager: bool     // the peer is ahead of the reader: a call gets all it asks for that there is
    var bytes: seq<char>
    var pending: nat      // bytes the SSL layer has already decrypted
    var avail: nat        // bytes a kernel peek has shown to be queued
    ghost var answer: Status  // what the last call reported

    ghost predicate Valid()
      reads this
    {
      pending <= |bytes| && avail <= |bytes| && (eager ==> pending == |bytes|)
    }

    constructor (sent: seq<char>, eager: bool)
      ensures Valid() && bytes == sent && avail == 0 && this.eager == eager
    {
      this.eager := eager;
      bytes, pending, avail, answer := sent, if eager then |sent| else 0, 0, WouldBlock;
    }

    /** recv(2) on a stream socket. */
    method KernelRecv(len: nat, peek: bool) returns (st: Status)
      requires Valid()
      modifies this
      ensures Valid() && answer == st && Allowed(old(bytes), old(avail), len, peek, st, bytes, avail)
      ensures eager ==> Length(st) == Min(len, |old(bytes)|)
    {
      var whim: nat :| whim <= 2;
      if len == 0 || |bytes| == 0 || (avail == 0 && whim == 0 && !eager) {
        st := if whim == 0 then WouldBlock else if whim == 1 then Closed else Broken;
        answer := st;
        return;
      }
      assert 0 < Min(len, |bytes|) && Min(len, avail) <= Min(len, |bytes|);
      var n: nat :| 0 < n <= len && n <= |bytes| && Min(len, avail) <= n && (eager ==> n == Min(len, |bytes|));
      st := Got(bytes[..n]);
      answer := st;
      if peek {
        avail := if avail < n then n else avail;
      } else {
        bytes := bytes[n..];
        avail := if avail < n then 0 else avail - n;
        pending := if eager then |bytes| else 0;
      }
    }

    /** SSL_read: a prefix of the remaining plaintext, at least one byte of it when SSL_pending is
        positive; otherwise WouldBlock stands for SSL_ERROR_WANT_READ and Broken for any other error. */
    method SslRead(len: nat) returns (st: Status)
      requires Valid()
      modifies this
      ensures Valid() && answer == st && avail == 0
      ensures st == WouldBlock || st == Broken || st.Got?
      ensures old(pending) > 0 && len > 0 ==> st.Got?
      ensures st.Got? ==> 0 < |st.data| <= len && old(bytes) == st.data + bytes
      ensures !st.Got? ==> bytes == old(bytes)
      ensures eager ==> Length(st) == Min(len, |old(bytes)|)
    {
      avail := 0;
      var whim: nat :| whim <= 2;
      if len == 0 || |bytes| == 0 || (pending == 0 && whim <= 1) {
        st := if whim == 0 then WouldBlock else Broken;
        answer := st;
        return;
      }
      var n: nat :| 0 < n <= len && n <= |bytes| && (eager ==> n == Min(len, |bytes|));
      st := Got(bytes[..n]);
      answer := st;
      bytes := bytes[n..];
      var decrypted: nat :| decrypted <= |bytes|;
      pending := if eager then |bytes| else decrypted;
    }
  }
}
