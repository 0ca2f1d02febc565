/** The two steps both readers are made of: peek a chunk into the line buffer, and consume what was
    scanned of it. */
module LineBuffer {
  import opened Transport
  import opened SocketModel

  /** Grow the line buffer so that it takes a chunk at `pos`, and peek one into it. */
  method PeekChunk(s: Socket, pos: nat) returns (st: Status)
    requires s.Valid() && pos <= |s.buffer|
    modifies s, s.wire
    ensures s.Valid() && s.Stream() == old(s.Stream()) && s.answer == st
    ensures Grown(old(s.buffer), pos + CHUNK, s.buffer) && old(s.buffer)[..pos] <= s.buffer
    ensures st.Got? ==> 0 < |st.data| <= CHUNK && st.data <= s.Stream() && |st.data| <= s.Window()
                        && s.buffer[pos..pos + |st.data|] == st.data
    ensures forall i :: pos + Length(st) <= i < |old(s.buffer)| ==> s.buffer[i] == old(s.buffer[i])
    ensures s.Eager() ==> Length(st) == Min(CHUNK, |s.Stream()|)
  {
    if |s.buffer| < pos + CHUNK {
      s.buffer := Renew(s.buffer, pos + CHUNK);
    }
    st := s.Recv(CHUNK, true);
    if st.Got? {
      s.buffer := Overwrite(s.buffer, pos, st.data);
    }
  }

  /** The read that removes `k` characters, of which at least min(k, window) were peeked before.
      Characters that have no room in the line buffer are not stored (`fits` is then false). */
  method Consume(s: Socket, pos: nat, k: nat) returns (n: nat, ghost fits: bool)
    requires s.Valid() && 0 < k && 0 < s.Window() && pos <= |s.buffer|
    modifies s, s.wire
    ensures s.Valid() && |s.buffer| == old(|s.buffer|) && s.answer.Got?
    ensures Min(k, old(s.Window())) <= n <= k && n <= |old(s.Stream())| && s.Stream() == old(s.Stream())[n..]
    ensures s.Eager() ==> n == Min(k, |old(s.Stream())|)
    ensures fits <==> pos + n <= |s.buffer|
    ensures old(s.buffer)[..pos] + old(s.Stream())[..Min(n, |s.buffer| - pos)] <= s.buffer
    ensures forall i :: pos + n <= i < |s.buffer| ==> s.buffer[i] == old(s.buffer[i])
  {
    var st := s.Recv(k, false);
    n := |st.data|;
    fits := pos + n <= |s.buffer|;
    s.buffer := Overwrite(s.buffer, pos, st.data[..Min(n, |s.buffer| - pos)]);
  }

  /** Store a terminating NUL behind the line. */
  method Terminate(s: Socket, ghost line: string, n: nat)
    requires s.Valid() && n < |s.buffer| && line <= s.buffer && |line| == n
    modifies s`buffer
    ensures s.Valid() && s.Stream() == old(s.Stream()) && |s.buffer| == old(|s.buffer|)
    ensures line + ['\0'] <= s.buffer
  {
    s.buffer := s.buffer[n := '\0'];
  }
}
