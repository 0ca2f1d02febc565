/** readline: both copies of the source (plain and SSL) over one socket model. */
module LineReader {
  import opened Transport
  import opened SocketModel
  import opened Wrappers

  import opened LineBuffer
  import opened LineRules

  /** The first character of buffer[pos..pos + r] that ends a line, or r. */
  method ScanLine(buffer: seq<char>, pos: nat, r: nat) returns (i: nat)
    requires pos + r <= |buffer|
    ensures i <= r && forall j :: pos <= j < pos + i ==> !IsEol(buffer[j])
    ensures i < r ==> IsEol(buffer[pos + i])
  {
    i := 0;
    while i < r
      invariant i <= r
      invariant forall j :: pos <= j < pos + i ==> !IsEol(buffer[j])
    {
      if IsEol(buffer[pos + i]) {
        return;
      }
      i := i + 1;
    }
  }

  /** The newline branch of readline: the terminator is character `i` of the `r` peeked ones. */
  method TakeLine(s: Socket, pos: nat, i: nat, r: nat, beyond: char)
    returns (t: Turn, ghost fits: bool, ghost behind: bool)
    requires s.Valid() && i < r <= CHUNK && pos + CHUNK <= |s.buffer| && r <= s.Window() && r <= |s.Stream()|
    requires s.buffer[pos..pos + r] == s.Stream()[..r] && EolFree(s.Stream(), i) && IsEol(s.Stream()[i])
    modifies s, s.wire
    ensures s.Valid() && |s.buffer| == old(|s.buffer|) && s.answer.Got?
    ensures t.Line? && t.i == i && t.r == r && i < t.got <= |old(s.Stream())|
    ensures TurnResult(old(s.Stream()), t, s.Stream())
    ensures old(s.buffer)[..pos] + Part(old(s.Stream()), Min(t.got, |s.buffer| - pos)) <= s.buffer
    ensures fits <==> pos + t.got <= |s.buffer|
    ensures behind <==> IsCrLf(old(s.Stream())[i]) && pos + i + 1 >= |s.buffer|
    ensures !fits ==> i + 1 == r && t.got == i + 2 && t.look == beyond
    ensures i + 1 == r ==> t.look == At(old(s.buffer), pos + r, beyond)
    ensures s.Eager() ==> t.got == Min(i + Swallows(old(s.Stream())[i], t.look), |old(s.Stream())|)
  {
    hide Socket.Stream;
    ghost var left := s.Stream();
    assert s.buffer[pos + i] == s.buffer[pos..pos + r][i] == left[i];
    var ch := s.buffer[pos + i];
    s.buffer := s.buffer[pos + i := '\0'];
    // the source guards the pair test by i < r, which always holds here
    var look := At(s.buffer, pos + i + 1, beyond);
    behind := IsCrLf(ch) && pos + i + 1 >= |s.buffer|;
    var got;
    got, fits := Consume(s, pos, i + Swallows(ch, look));
    t := Line(i, r, got, look);
  }

  /** The part of a turn after a peek of `r` characters. */
  method TakePeeked(s: Socket, pos: nat, r: nat, beyond: char, ghost done: seq<char>, ghost b: seq<char>)
    returns (t: Turn, ghost u: Use)
    requires s.Valid() && done <= s.buffer && |done| == pos
    requires Grown(b, pos + CHUNK, s.buffer) && pos + CHUNK <= |s.buffer|
    requires forall i :: pos + r <= i < |b| ==> s.buffer[i] == b[i]
    requires 0 < r <= CHUNK && r <= s.Window() && r <= |s.Stream()| && s.buffer[pos..pos + r] == s.Stream()[..r]
    requires s.Eager() ==> r == Min(CHUNK, |s.Stream()|)
    modifies s, s.wire
    ensures s.Valid() && TurnResult(old(s.Stream()), t, s.Stream()) && (t.Line? || t == Chunk(r)) && s.answer.Got?
    ensures u == Use(b, beyond, s.Eager(), s.buffer, u.fits, u.behind)
    ensures Stored(u, pos, old(s.Stream()), t) && Holds(s.buffer, done + Part(old(s.Stream()), Taken(t)))
  {
    hide Socket.Stream, Socket.Eager, Socket.Valid, Part, TurnResult, Stored, Holds, EolFree, IsEol;
    hide Grown, At, Swallows, IsCrLf;
    ghost var left, peeked := s.Stream(), s.buffer;
    assert peeked[..pos] == done;
    var i := ScanLine(s.buffer, pos, r);
    ScannedLine(peeked, pos, left, i, r);
    if i < r {
      ghost var fits, behind;
      t, fits, behind := TakeLine(s, pos, i, r, beyond);
      u := Use(b, beyond, s.Eager(), s.buffer, fits, behind);
      LineTurn(u, done, left, t, peeked);
    } else {
      var got, _ := Consume(s, pos, r);
      t, u := Chunk(r), Use(b, beyond, s.Eager(), s.buffer, true, false);
      ChunkTurn(u, done, left, r, peeked);
    }
  }

  /** One turn of the loop of readline, when the line buffer starts with `done`. */
  method ReadChunk(s: Socket, pos: nat, beyond: char, ghost done: seq<char>) returns (t: Turn, ghost u: Use)
    requires s.Valid() && done <= s.buffer && |done| == pos
    modifies s, s.wire
    ensures s.Valid() && TurnResult(old(s.Stream()), t, s.Stream())
    ensures if t.NoData? then !s.answer.Got? && t.wouldBlock == (s.answer == WouldBlock) else s.answer.Got?
    ensures s.Eager() && !t.Line? && t != Chunk(CHUNK) ==> s.Stream() == []
    ensures u == Use(old(s.buffer), beyond, s.Eager(), s.buffer, u.fits, u.behind)
    ensures Stored(u, pos, old(s.Stream()), t) && Holds(s.buffer, done + Part(old(s.Stream()), Taken(t)))
  {
    hide Socket.Stream, Socket.Eager, Socket.Valid, Part, TurnResult, Stored, Holds;
    ghost var left, b := s.Stream(), s.buffer;
    assert b[..pos] == done;
    var st := PeekChunk(s, pos);
    if st.Got? {
      t, u := TakePeeked(s, pos, |st.data|, beyond, done, b);
      ShortTurn(left, t, s.Stream());
    } else {
      t, u := NoData(st == WouldBlock), Use(b, beyond, s.Eager(), s.buffer, true, false);
      NoDataTurn(u, done, left, t);
    }
  }

  /** The loop of readline: full chunks without a terminator are consumed one after the other; it
      stops with the first turn of another kind, or after a short chunk. */
  method ReadChunks(s: Socket, beyond: char)
    returns (pos: nat, t: Turn, ghost done: seq<char>, ghost left: seq<char>, ghost u: Use)
    requires s.Valid()
    modifies s, s.wire
    ensures s.Valid() && old(s.Stream()) == done + left && |done| == pos && EolFree(done, pos) && Aligned(pos)
    ensures TurnResult(left, t, s.Stream()) && t != Chunk(CHUNK)
    ensures if t.NoData? then !s.answer.Got? && t.wouldBlock == (s.answer == WouldBlock) else s.answer.Got?
    ensures s.Eager() && !t.Line? ==> s.Stream() == []
    ensures u == Use(old(s.buffer), beyond, s.Eager(), s.buffer, u.fits, u.behind)
    ensures Stored(u, pos, left, t) && Holds(s.buffer, done + Part(left, Taken(t)))
  {
    hide TurnResult, LineResult, Part, Socket.Stream, Stored, Aligned;
    pos, done, left := 0, [], s.Stream();
    t, u := ReadChunk(s, 0, beyond, done);
    AlignedNext(0);
    while t == Chunk(CHUNK)
      invariant s.Valid() && old(s.Stream()) == done + left && |done| == pos && EolFree(done, pos) && Aligned(pos)
      invariant TurnResult(left, t, s.Stream())
      invariant if t.NoData? then !s.answer.Got? && t.wouldBlock == (s.answer == WouldBlock) else s.answer.Got?
      invariant u == Use(old(s.buffer), beyond, s.Eager(), s.buffer, u.fits, u.behind)
      invariant Stored(u, pos, left, t) && Holds(s.buffer, done + Part(left, Taken(t)))
      invariant s.Eager() && !t.Line? && t != Chunk(CHUNK) ==> s.Stream() == []
      decreases |left|
    {
      LineAfter(old(s.Stream()), done, left, t, s.Stream(), beyond);
      NextTurn(u, done, left);
      ghost var before, all := u, left;
      done, left := done + Part(left, CHUNK), s.Stream();
      t, u := ReadChunk(s, pos + CHUNK, beyond, done);
      StoredAfter(before, u, pos, all, left, t);
      u := u.(before := before.before);
      AlignedNext(pos);
      pos := pos + CHUNK;
    }
  }

  /** The body of readline. */
  method ReadOnce(s: Socket, beyond: char)
    returns (ok: bool, n: nat, ghost tail: nat, ghost seen: nat, ghost look: char, ghost u: Use)
    requires s.Valid()
    modifies s, s.wire
    ensures s.Valid() && u == Use(old(s.buffer), beyond, s.Eager(), s.buffer, u.fits, u.behind)
    ensures LineRun(old(s.Stream()), s.Stream(), u, s.answer == Closed || s.answer == Broken, ok, n, tail, seen, look)
  {
    hide *;
    ghost var all := s.Stream();
    var pos, t, done, left, use := ReadChunks(s, beyond);
    u, n := use, pos + Kept(t);
    KeptOf(t);
    if t.Line? {
      LineRunDone(all, done, left, t, s.Stream(), u);
      return true, n, t.got - t.i, pos + t.r, t.look, u;
    }
    ok := t.Chunk? || pos > 0 || t.wouldBlock;
    ChunkRunDone(all, done, left, t, s.Stream(), u, s.answer == Closed || s.answer == Broken);
    // only the SSL copy returns the line so far without a terminating NUL when it would block
    if ok && !(s.tls && t.NoData? && t.wouldBlock) {
      Terminate(s, all[..n], n);
      LineRunAfter(all, s.Stream(), u, s.answer == Closed || s.answer == Broken, ok, n, s.buffer);
      u := u.(after := s.buffer);
    }
    tail, seen, look := 0, n, beyond;
  }

  /** readline. `beyond` is whatever the memory past the line buffer holds; `n` is the reported
      length, `ok` the return code.  The ghost results describe the run: `tail` characters were
      swallowed after the line, `seen` were peeked at, `look` stood behind the terminator, `fits`
      says that every character read was stored inside the line buffer, and `behind` that the pair
      test looked behind it. */
  method Readline(s: Socket, beyond: char)
    returns (ok: bool, n: nat, ghost tail: nat, ghost seen: nat, ghost look: char, ghost fits: bool, ghost behind: bool)
    requires s.Valid()
    modifies s, s.wire
    ensures s.Valid()
    // it fails exactly if the connection ends or breaks before the first character
    ensures !ok <==> n == 0 && tail == 0 && (s.answer == Closed || s.answer == Broken)
    ensures !ok ==> s.Stream() == old(s.Stream())
    ensures ok ==> LineResult(old(s.Stream()), n, tail, seen, look)
    ensures ok ==> s.Stream() == old(s.Stream())[n + tail..]
    ensures ok && tail == 0 && s.Eager() ==> s.Stream() == []
    ensures s.Eager() && old(s.Stream()) != [] ==> ok && n + tail > 0
    // the line buffer: its size, what is stored in it, whether that has room, and what is looked at
    ensures |s.buffer| == Max(old(|s.buffer|), Chunks(n))
    ensures n <= |s.buffer| && (ok ==> Holds(s.buffer, old(s.Stream())[..n + tail]))
    ensures fits <==> (ok ==> n + tail <= |s.buffer|)
    ensures !fits ==> ok && tail == 2 && n + 1 == seen && look == beyond
    ensures behind <==> ok && tail > 0 && LooksBehind(old(s.Stream()), old(s.buffer))
    ensures tail > 0 && n + 1 == seen && (n + 1 < |old(s.buffer)| || n + 1 == |s.buffer|) ==>
              look == At(old(s.buffer), n + 1, beyond)
    // if the calls get the data there is, everything follows from stream and buffer before the call
    ensures s.Eager() && LineLength(old(s.Stream())) < |old(s.Stream())| ==>
              ok && n == LineLength(old(s.Stream())) && tail == TailOf(old(s.Stream()), old(s.buffer), beyond)
    ensures s.Eager() ==> (fits <==> !Overruns(old(s.Stream()), old(s.buffer), beyond))
    ensures s.Eager() ==> (behind <==> LooksBehind(old(s.Stream()), old(s.buffer)))
  {
    hide *;
    ghost var u;
    ok, n, tail, seen, look, u := ReadOnce(s, beyond);
    fits, behind := u.fits, u.behind;
    LineRunIs(old(s.Stream()), s.Stream(), u, s.answer == Closed || s.answer == Broken, ok, n, tail, seen, look);
  }

  /** A letter lost in a run of two calls: the line feed behind the first line, which ends with a
      chunk, is still in the line buffer when the second one is read. */
  method LostLetterExample(beyond: char) returns (s: Socket, first: string, second: string)
    ensures fresh(s) && s.Valid() && s.wire.eager && s.Stream() == []
    ensures first == Letters(1024) && second == Letters(1023)
    ensures Sent() == first + "\n" + second + "\rX"
  {
    hide *;
    ChunkIs();
    var w := new Wire(Sent(), true);
    s := new Socket(w, false, true);
    FirstLine(beyond);
    var _, n, _, _, _, _, _ := Readline(s, beyond);
    first := s.buffer[..n];
    FirstHeld(s.buffer);
    SecondLine(s.buffer, beyond);
    var _, m, _, _, _, _, _ := Readline(s, beyond);
    second := s.buffer[..m];
    SecondHeld(s.buffer);
  }

  /** A letter read into the memory behind the line buffer, which holds a line feed there. */
  method OverrunExample() returns (s: Socket, line: string, ghost fits: bool)
    ensures fresh(s) && s.Valid() && s.wire.eager && s.Stream() == []
    ensures line == Letters(1023) && !fits
  {
    hide *;
    ChunkIs();
    var w := new Wire(Rest(), true);
    s := new Socket(w, false, true);
    OverrunningLine();
    var _, n, _, _, _, inside, _ := Readline(s, '\n');
    line, fits := s.buffer[..n], inside;
    SecondHeld(s.buffer);
  }

  lemma ChunkIs()
    ensures CHUNK == 1024
  {
  }

  function Letters(n: nat): string {
    seq(n, _ => 'a')
  }

  function Sent(): string {
    Letters(CHUNK) + "\n" + Rest()
  }

  function Rest(): string {
    Letters(CHUNK - 1) + "\rX"
  }

  lemma FirstLine(beyond: char)
    ensures LineLength(Sent()) == CHUNK && TailOf(Sent(), [], beyond) == 1
    ensures Sent()[CHUNK + 1..] == Rest() && |Sent()| == 2 * CHUNK + 2
  {
    LineLengthIs(Sent(), CHUNK);
    assert Sent()[CHUNK] == '\n' && Sent()[CHUNK + 1] == 'a';
    hide LineLength;
  }

  lemma FirstHeld(b: seq<char>)
    requires Holds(b, Sent()[..CHUNK + 1]) && |b| > CHUNK
    ensures b[..CHUNK] == Letters(CHUNK) && b[CHUNK] == '\n'
  {
  }

  lemma RestIs()
    ensures Letters(CHUNK - 1) <= Rest() && |Rest()| == CHUNK + 1 && Rest()[CHUNK - 1] == '\r'
  {
  }

  lemma RestEnds()
    ensures LineLength(Rest()) == CHUNK - 1 && |Rest()| == CHUNK + 1 && Rest()[CHUNK - 1] == '\r' && AtChunkEnd(Rest())
  {
    hide Rest, Letters, LineLength;
    RestIs();
    LineLengthIs(Rest(), CHUNK - 1);
  }

  lemma SecondLine(b: seq<char>, beyond: char)
    requires |b| > CHUNK && b[CHUNK] == '\n'
    ensures LineLength(Rest()) == CHUNK - 1 && TailOf(Rest(), b, beyond) == 2 && |Rest()| == CHUNK + 1
  {
    RestEnds();
    hide LineLength, Rest, AtChunkEnd;
  }

  lemma OverrunningLine()
    ensures LineLength(Rest()) == CHUNK - 1 && TailOf(Rest(), [], '\n') == 2 && |Rest()| == CHUNK + 1
    ensures Overruns(Rest(), [], '\n')
  {
    RestEnds();
    hide LineLength, Rest, AtChunkEnd;
  }

  lemma SecondHeld(b: seq<char>)
    requires Holds(b, Rest()[..CHUNK + 1]) && |b| >= CHUNK - 1
    ensures b[..CHUNK - 1] == Letters(CHUNK - 1)
    ensures Sent() == Letters(CHUNK) + "\n" + b[..CHUNK - 1] + "\rX"
  {
  }

  lemma LineLengthIs(s: string, n: nat)
    requires Letters(n) <= s && n < |s| && IsEol(s[n])
    ensures LineLength(s) == n
  {
    assert EolFree(s, n) by {
      assert forall i :: 0 <= i < n ==> s[i] == Letters(n)[i];
    }
    LineLengthUnique(s, n);
  }
}
