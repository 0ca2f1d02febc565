/** read_packet: both copies of the source (plain and SSL) over one socket model. */
module PacketReader {
  import opened Transport
  import opened SocketModel
  import opened LineBuffer
  import opened Matcher
  import opened PacketRules

  /** The scanning loop: `m` separator characters are matched when it starts and `m'` when it ends
      without a result, after `done` and the `r` characters of the chunk at `pos`. */
  method ScanPacket(sep: string, limit: nat, buffer: seq<char>, pos: nat, r: nat, m: nat, ghost done: string)
    returns (t: Turn, m': nat)
    requires sep != [] && 0 < r && pos + r <= |buffer| && |done| == pos <= limit
    requires m == State(sep, done) < |sep|
    ensures (t == Chunk(r) && pos + r <= limit && m' == State(sep, done + buffer[pos..pos + r]) < |sep|)
         || (t.Hit? && t.i <= r && pos + t.i <= limit && Completes(sep, done + buffer[pos..pos + t.i]))
         || (t.AtLimit? && t.i < r && pos + t.i == limit && State(sep, done + buffer[pos..pos + t.i]) < |sep|)
  {
    var i := 0;
    m' := m;
    assert done + buffer[pos..pos] == done;
    while i < r
      invariant i <= r && pos + i <= limit && m' == State(sep, done + buffer[pos..pos + i]) < |sep|
    {
      if pos + i == limit {
        return AtLimit(i), m';
      }
      ghost var scanned := done + buffer[pos..pos + i];
      var c := buffer[pos + i];
      assert done + buffer[pos..pos + (i + 1)] == scanned + [c];
      StateNext(sep, scanned, c);
      i := i + 1;
      m' := Step(sep, m', c);
      if m' == |sep| {
        assert (scanned + [c])[..|scanned + [c]| - 1] == scanned;
        return Hit(i), m';
      }
    }
    t := Chunk(r);
  }

  /** Remove the characters of a turn from the stream, all of them peeked before. */
  method TakeScanned(s: Socket, pos: nat, t: Turn, ghost done: string)
    requires s.Valid() && done <= s.buffer && |done| == pos && pos + CHUNK <= |s.buffer|
    requires Taken(t) <= s.Window() && Taken(t) <= CHUNK && Taken(t) <= |s.Stream()| && (t.AtLimit? ==> t.i < CHUNK)
    modifies s, s.wire
    ensures s.Valid() && s.Stream() == old(s.Stream())[Taken(t)..] && |s.buffer| == old(|s.buffer|)
    ensures done + Part(old(s.Stream()), Taken(t)) <= s.buffer
    ensures t.AtLimit? ==> s.buffer[pos + t.i] == '\0'
    ensures old(s.answer.Got?) ==> s.answer.Got?
  {
    hide Socket.Stream, Part;
    var k := Taken(t);
    if t.AtLimit? {
      s.buffer := s.buffer[pos + k := '\0'];
    }
    assert s.buffer[..pos] == done;
    if k > 0 {
      var got, _ := Consume(s, pos, k);
      assert done + old(s.Stream())[..k] <= s.buffer;
    }
  }

  /** What the scan of `r` peeked characters says about the stream. */
  lemma ScannedTurn(sep: string, limit: nat, done: string, buffer: string, r: nat, left: string, t: Turn, m': nat)
    requires var pos := |done|;
             && pos <= limit && 0 < r <= CHUNK && r <= |left| && pos + r <= |buffer|
                && buffer[pos..pos + r] == left[..r]
             && (|| (t == Chunk(r) && pos + r <= limit && m' == State(sep, done + buffer[pos..pos + r]) < |sep|)
                 || (t.Hit? && t.i <= r && pos + t.i <= limit && Completes(sep, done + buffer[pos..pos + t.i]))
                 || (t.AtLimit? && t.i < r && pos + t.i == limit && State(sep, done + buffer[pos..pos + t.i]) < |sep|))
    ensures Taken(t) <= r && TurnResult(sep, limit, done, left, t, left[Taken(t)..])
    ensures t.Chunk? ==> m' == State(sep, done + Part(left, t.r))
  {
    hide State, Completes;
    var k := Taken(t);
    assert buffer[|done|..|done| + k] == buffer[|done|..|done| + r][..k] == left[..k];
  }

  lemma NothingScanned(sep: string, limit: nat, done: string, left: string, t: Turn)
    requires t.NoData? && |done| <= limit && State(sep, done) < |sep|
    ensures TurnResult(sep, limit, done, left, t, left) && done + Part(left, 0) == done
  {
    assert done + left[..0] == done;
    hide State;
  }

  /** One turn of the loop of read_packet, when the line buffer starts with `done`. */
  method ReadChunk(s: Socket, sep: string, limit: nat, pos: nat, m: nat, ghost done: string)
    returns (t: Turn, m': nat)
    requires s.Valid() && done <= s.buffer && |done| == pos <= limit
    requires sep != [] && m == State(sep, done) < |sep|
    modifies s, s.wire
    ensures s.Valid() && TurnResult(sep, limit, done, old(s.Stream()), t, s.Stream()) && Taken(t) <= CHUNK
    ensures t.Chunk? ==> m' == State(sep, done + Part(old(s.Stream()), t.r))
    ensures if t.NoData? then !s.answer.Got? && t.wouldBlock == (s.answer == WouldBlock) else s.answer.Got?
    ensures s.Eager() && EndingOf(t) == Short && t != Chunk(CHUNK) ==> s.Stream() == []
    ensures pos + CHUNK <= |s.buffer| && done + Part(old(s.Stream()), Taken(t)) <= s.buffer
    ensures t.AtLimit? ==> t.i < CHUNK && s.buffer[pos + t.i] == '\0'
  {
    hide Socket.Stream, Socket.Valid, State, Part, TurnResult, Completes;
    ghost var left := s.Stream();
    assert s.buffer[..pos] == done;
    m' := m;
    var st := PeekChunk(s, pos);
    if !st.Got? {
      t := NoData(st == WouldBlock);
      NothingScanned(sep, limit, done, left, t);
      return;
    }
    var r := |st.data|;
    t, m' := ScanPacket(sep, limit, s.buffer, pos, r, m, done);
    ScannedTurn(sep, limit, done, s.buffer, r, left, t, m');
    TakeScanned(s, pos, t, done);
  }

  /** The loop of read_packet: full chunks are consumed one after the other; it stops with the first
      turn of another kind, or after a short chunk. */
  method ReadChunks(s: Socket, sep: string, limit: nat)
    returns (pos: nat, t: Turn, ghost done: string, ghost left: string)
    requires s.Valid() && sep != []
    modifies s, s.wire
    ensures s.Valid() && old(s.Stream()) == done + left && |done| == pos
    ensures TurnResult(sep, limit, done, left, t, s.Stream()) && Taken(t) <= CHUNK && t != Chunk(CHUNK)
    ensures if t.NoData? then !s.answer.Got? && t.wouldBlock == (s.answer == WouldBlock) else s.answer.Got?
    ensures s.Eager() && EndingOf(t) == Short ==> s.Stream() == []
    ensures pos + CHUNK <= |s.buffer| && done + Part(left, Taken(t)) <= s.buffer
    ensures t.AtLimit? ==> t.i < CHUNK && s.buffer[pos + t.i] == '\0'
  {
    hide *;
    var m := 0;
    pos, done, left := 0, [], s.Stream();
    ghost var all := s.Stream();
    NothingRead(sep);
    t, m := ReadChunk(s, sep, limit, 0, m, done);
    ReadingStart(sep, limit, all, t, s.Stream(), m, s.buffer, s.Eager());
    while t == Chunk(CHUNK)
      invariant s.Valid() && |done| == pos
      invariant Reading(sep, limit, all, done, left, t, s.Stream(), m, s.buffer, s.Eager())
      invariant if t.NoData? then !s.answer.Got? && t.wouldBlock == (s.answer == WouldBlock) else s.answer.Got?
      decreases |left|
    {
      ReadingNext(sep, limit, all, done, left, t, s.Stream(), m, s.buffer, s.Eager());
      done, pos, left := done + Part(left, CHUNK), pos + CHUNK, s.Stream();
      t, m := ReadChunk(s, sep, limit, pos, m, done);
      ReadingAgain(sep, limit, all, done, left, t, s.Stream(), m, s.buffer, s.Eager());
    }
    ReadingEnd(sep, limit, all, done, left, t, s.Stream(), m, s.buffer, s.Eager());
  }

  /** After a turn at `|done|`: what was read, and what is left. */
  ghost predicate Reading(sep: string, limit: nat, all: string, done: string, left: string, t: Turn, left': string,
                          m: nat, b: string, eager: bool)
  {
    && all == done + left && TurnResult(sep, limit, done, left, t, left') && Taken(t) <= CHUNK
    && (t.Chunk? ==> m == State(sep, done + Part(left, t.r)))
    && (eager && EndingOf(t) == Short && t != Chunk(CHUNK) ==> left' == [])
    && |done| + CHUNK <= |b| && done + Part(left, Taken(t)) <= b
    && (t.AtLimit? ==> t.i < CHUNK && b[|done| + t.i] == '\0')
  }

  lemma NothingRead(sep: string)
    ensures State(sep, []) == 0
  {
  }

  lemma ReadingStart(sep: string, limit: nat, all: string, t: Turn, left': string, m: nat, b: string, eager: bool)
    requires TurnResult(sep, limit, [], all, t, left') && Taken(t) <= CHUNK
    requires t.Chunk? ==> m == State(sep, [] + Part(all, t.r))
    requires eager && EndingOf(t) == Short && t != Chunk(CHUNK) ==> left' == []
    requires CHUNK <= |b| && [] + Part(all, Taken(t)) <= b && (t.AtLimit? ==> t.i < CHUNK && b[t.i] == '\0')
    ensures Reading(sep, limit, all, [], all, t, left', m, b, eager)
  {
    hide TurnResult, State, Part;
    assert [] + all == all;
  }

  lemma ReadingAgain(sep: string, limit: nat, all: string, done: string, left: string, t: Turn, left': string,
                     m: nat, b: string, eager: bool)
    requires all == done + left && TurnResult(sep, limit, done, left, t, left') && Taken(t) <= CHUNK
    requires t.Chunk? ==> m == State(sep, done + Part(left, t.r))
    requires eager && EndingOf(t) == Short && t != Chunk(CHUNK) ==> left' == []
    requires |done| + CHUNK <= |b| && done + Part(left, Taken(t)) <= b
    requires t.AtLimit? ==> t.i < CHUNK && b[|done| + t.i] == '\0'
    ensures Reading(sep, limit, all, done, left, t, left', m, b, eager)
  {
    hide TurnResult, State, Part;
  }

  lemma ReadingNext(sep: string, limit: nat, all: string, done: string, left: string, t: Turn, left': string,
                    m: nat, b: string, eager: bool)
    requires Reading(sep, limit, all, done, left, t, left', m, b, eager) && t == Chunk(CHUNK)
    ensures var more := done + Part(left, CHUNK);
            && |more| == |done| + CHUNK <= limit && more <= b && all == more + left' && |left'| < |left|
            && m == State(sep, more) < |sep|
  {
    hide TurnResult, State, Part;
    ChunkAfter(sep, limit, all, done, left, t, left');
  }

  lemma ReadingEnd(sep: string, limit: nat, all: string, done: string, left: string, t: Turn, left': string,
                   m: nat, b: string, eager: bool)
    requires Reading(sep, limit, all, done, left, t, left', m, b, eager) && t != Chunk(CHUNK)
    ensures all == done + left && TurnResult(sep, limit, done, left, t, left') && Taken(t) <= CHUNK
    ensures eager && EndingOf(t) == Short ==> left' == []
    ensures |done| + CHUNK <= |b| && done + Part(left, Taken(t)) <= b
    ensures t.AtLimit? ==> t.i < CHUNK && b[|done| + t.i] == '\0'
  {
    hide TurnResult, State, Part;
  }

  /** The body of read_packet, for a separator. */
  method ReadOnce(s: Socket, sep: string, max: nat) returns (ok: bool, n: nat, ghost tail: nat, ghost e: Ending)
    requires s.Valid() && sep != []
    modifies s, s.wire
    ensures s.Valid() && PacketRun(sep, max, old(s.Stream()), s.Stream(), s.buffer, s.Eager(),
                                   s.answer == Closed || s.answer == Broken, ok, n, tail, e)
  {
    hide *;
    ghost var all := s.Stream();
    var limit := Limit(max);
    var pos, t, done, left := ReadChunks(s, sep, limit);
    TakenOf(t);
    n, tail, e := pos + Taken(t), 0, EndingOf(t);
    if t.Hit? {
      HitDone(sep, max, all, done, left, t, s.Stream(), s.buffer);
      HitRun(sep, max, all, s.Stream(), s.buffer, s.Eager(), n - |sep|);
      return true, n - |sep|, |sep|, Found;
    }
    StopDone(sep, max, all, done, left, t, s.Stream(), s.buffer);
    ok := !t.NoData? || pos > 0 || t.wouldBlock;
    // only the SSL copy returns the packet so far without a terminating NUL when it would block
    if ok && !t.AtLimit? && !(s.tls && t.NoData? && t.wouldBlock) {
      Terminate(s, all[..n], n);
    }
    StopRun(sep, max, all, s.Stream(), s.buffer, s.Eager(), s.answer == Closed || s.answer == Broken, ok, n, e);
  }

  /** read_packet: `n` is the reported length and `ok` the return code (false with nothing removed
      for an empty separator and for an error before the first character).  `tail` characters of
      separator were removed after the packet, which ended as `e` says. */
  method ReadPacket(s: Socket, sep: string, max: nat)
    returns (ok: bool, n: nat, ghost tail: nat, ghost e: Ending)
    requires s.Valid()
    modifies s, s.wire
    ensures s.Valid()
    // it fails exactly for an empty separator, or if the connection ends or breaks before the first character
    ensures !ok <==> sep == [] || (n == 0 && tail == 0 && (s.answer == Closed || s.answer == Broken))
    ensures !ok ==> s.Stream() == old(s.Stream()) && e == Short
    ensures ok ==> PacketResult(sep, Limit(max), old(s.Stream()), n, tail, e)
    ensures ok ==> old(s.Stream())[..n] <= s.buffer
    ensures ok ==> s.Stream() == old(s.Stream())[n + tail..]
    ensures e == Short && s.Eager() && sep != [] ==> s.Stream() == []
    // what the maximum means: it is met exactly if the separator is not found before it
    ensures ok && max != 0 ==> n + tail <= max && (e == Full ==> n == max)
    ensures ok && e == Full ==> n == (if max == 0 then 0xFFFF_FFFF_FFFF_FFFF else max) && n < |old(s.Stream())|
    ensures ok && e == Short && s.Eager() ==> n == |old(s.Stream())|
    ensures s.Eager() && sep != [] && old(s.Stream()) != [] ==> ok && n + tail > 0
    ensures ok && e == Full ==> n < |s.buffer| && s.buffer[n] == '\0'
  {
    hide *;
    if sep == [] {
      return false, 0, 0, Short;
    }
    ok, n, tail, e := ReadOnce(s, sep, max);
    PacketRunIs(sep, max, old(s.Stream()), s.Stream(), s.buffer, s.Eager(),
                s.answer == Closed || s.answer == Broken, ok, n, tail, e);
  }
}
