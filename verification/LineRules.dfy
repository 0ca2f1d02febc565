/** What a line is, and what readline may report about one; no state here. */
module LineRules {
  import opened Transport
  import opened Wrappers

  predicate IsEol(c: char) { c == '\n' || c == '\r' || c == '\0' }

  predicate IsCrLf(c: char) { c == '\n' || c == '\r' }

  /** The character that completes a CR/LF or LF/CR pair. */
  function Other(c: char): char { if c == '\r' then '\n' else '\r' }

  /** How many characters readline asks to remove at a terminator `c` with `look` behind it. */
  function Swallows(c: char, look: char): nat {
    if IsCrLf(c) && look == Other(c) then 2 else 1
  }

  /** The first `n` characters of `s` hold no CR, LF or NUL. */
  ghost predicate EolFree(s: seq<char>, n: nat) {
    n <= |s| && forall i :: 0 <= i < n ==> !IsEol(s[i])
  }

  /** What a scan of `r` peeked characters at `pos` of the buffer says about the stream. */
  lemma ScannedLine(b: seq<char>, pos: nat, s: seq<char>, i: nat, r: nat)
    requires i <= r <= |s| && pos + r <= |b| && b[pos..pos + r] == s[..r]
    requires forall j :: pos <= j < pos + i ==> !IsEol(b[j])
    ensures EolFree(s, i) && (i < r ==> b[pos + i] == s[i])
  {
    assert forall j :: 0 <= j < r ==> b[pos + j] == b[pos..pos + r][j] == s[j];
  }

  /** The length of the longest prefix of `s` without CR, LF and NUL. */
  ghost function LineLength(s: seq<char>): (n: nat)
    ensures EolFree(s, n)
    ensures n < |s| ==> IsEol(s[n])
  {
    if s == [] || IsEol(s[0]) then 0 else 1 + LineLength(s[1..])
  }

  lemma LineLengthUnique(s: seq<char>, n: nat)
    requires EolFree(s, n)
    ensures n <= LineLength(s)
    ensures n < |s| && IsEol(s[n]) ==> n == LineLength(s)
  {
  }

  /** What one turn of the loop of readline comes to: no data, a chunk of `r` characters without a
      terminator, or a terminator at index `i` of such a chunk, with `got` characters removed. */
  datatype Turn = NoData(wouldBlock: bool) | Chunk(r: nat) | Line(i: nat, r: nat, got: nat, look: char)

  /** The characters a turn adds to the line. */
  function Kept(t: Turn): nat {
    match t
    case NoData(_) => 0
    case Chunk(r) => r
    case Line(i, _, _, _) => i
  }

  lemma KeptOf(t: Turn)
    ensures Kept(t) == if t.NoData? then 0 else if t.Chunk? then t.r else t.i
  {
  }

  /** The characters a turn takes from the stream. */
  function Taken(t: Turn): nat {
    match t
    case NoData(_) => 0
    case Chunk(r) => r
    case Line(_, _, got, _) => got
  }

  /** The effect of a turn on the stream. */
  ghost predicate TurnResult(left: seq<char>, t: Turn, left': seq<char>) {
    Kept(t) <= CHUNK && EolFree(left, Kept(t)) &&
    match t
    case NoData(_) => left' == left
    case Chunk(r) => 0 < r && left' == left[r..]
    case Line(i, r, got, look) =>
      && i < r <= |left| && i < got <= |left| && left' == left[got..] && IsEol(left[i])
      && (i + 1 < r ==> look == left[i + 1])
      && (got == i + Swallows(left[i], look) || (got == i + 1 == r))
  }

  /** What a successful readline may report on the stream `s`: a line of `n` characters, with `tail`
      more swallowed, after peeking at `seen` characters; `look` is what stood behind the terminator
      in the line buffer when the pair test was made. */
  ghost predicate LineResult(s: seq<char>, n: nat, tail: nat, seen: nat, look: char) {
    && n <= seen <= |s| && n + tail <= |s| && EolFree(s, n)
    && if tail == 0 then n == seen
       else
         && n < seen && IsEol(s[n])
         && (n + 1 < seen ==> look == s[n + 1])
         && (tail == Swallows(s[n], look) || (tail == 1 && n + 1 == seen))
  }

  /** A turn after `done` characters of the line, seen on the whole stream. */
  lemma LineAfter(all: seq<char>, done: seq<char>, left: seq<char>, t: Turn, left': seq<char>, look: char)
    requires all == done + left && EolFree(done, |done|) && TurnResult(left, t, left')
    ensures var line := done + Part(left, Kept(t));
            && |line| == |done| + Kept(t) && EolFree(line, |line|) && line == all[..|line|]
            && (!t.Line? ==> all == line + left' && LineResult(all, |line|, 0, |line|, look))
            && Kept(t) <= CHUNK
            && (t.Line? ==> all[|done| + t.got..] == left' && t.i < t.got
                            && LineResult(all, |line|, t.got - t.i, |done| + t.r, t.look))
  {
  }

  /** A completed line is the longest prefix without CR, LF and NUL, wherever the peeks were cut. */
  lemma CompletedLine(s: seq<char>, n: nat, tail: nat, seen: nat, look: char)
    requires LineResult(s, n, tail, seen, look)
    ensures tail > 0 ==> n == LineLength(s) < |s|
    ensures tail == 0 ==> n <= LineLength(s)
    ensures forall i :: 0 <= i < n ==> s[i] != '\n' && s[i] != '\r' && s[i] != '\0'
    ensures tail > 0 ==> s[n] == '\n' || s[n] == '\r' || s[n] == '\0'
  {
    LineLengthUnique(s, n);
  }

  /** A buffer starts with `line`, as far as it has room. */
  ghost predicate Holds(b: seq<char>, line: seq<char>) {
    if |line| <= |b| then line <= b else b <= line
  }

  lemma HoldsAll(b: seq<char>, line: seq<char>)
    requires Holds(b, line) && |line| <= |b|
    ensures line <= b
  {
  }

  lemma HoldsWhole(b: seq<char>, line: seq<char>)
    requires line <= b
    ensures Holds(b, line)
  {
  }

  /** What a read at `pos` leaves in the buffer. */
  lemma HoldsAfter(b: seq<char>, done: seq<char>, left: seq<char>, n: nat)
    requires |done| <= |b| && n <= |left| && done + Part(left, Min(n, |b| - |done|)) <= b
    ensures Holds(b, done + Part(left, n))
  {
    assert left[..n][..Min(n, |b| - |done|)] == left[..Min(n, |b| - |done|)];
  }

  /** The character at `i` of a buffer; behind its end, what the memory there holds. */
  function At(b: seq<char>, i: nat, beyond: char): char {
    if i < |b| then b[i] else beyond
  }

  /** What readline does in its line buffer: its contents before and after, what the memory behind it
      holds, whether the calls get the data there is, whether all that is read `fits` in it, and
      whether the pair test looked `behind` it. */
  datatype Use = Use(before: seq<char>, beyond: char, eager: bool, after: seq<char>, fits: bool, behind: bool)

  /** The effect of a turn at `pos` on the line buffer. */
  ghost predicate Stored(u: Use, pos: nat, left: seq<char>, t: Turn) {
    && |u.after| == Max(|u.before|, pos + CHUNK)
    && (!t.Line? ==> Grown(u.before, pos + CHUNK, u.after) && !u.behind)
    && (u.fits <==> pos + Taken(t) <= |u.after|)
    && (!u.fits ==> t.Line? && t.i + 1 == t.r && t.got == t.i + 2 && t.look == u.beyond)
    && (t.Line? ==> TurnStored(u, pos, left, t))
  }

  /** The same at a terminator. */
  ghost predicate TurnStored(u: Use, pos: nat, left: seq<char>, t: Turn)
    requires t.Line?
  {
    && t.i < t.r <= CHUNK && t.r <= |left|
    && (u.behind <==> IsCrLf(left[t.i]) && pos + t.i + 1 >= |u.after|)
    && (t.i + 1 == t.r && (t.r == CHUNK || pos + t.r < |u.before|) ==> t.look == At(u.before, pos + t.r, u.beyond))
    && (u.eager ==> t.r == Min(CHUNK, |left|) && t.got == Min(t.i + Swallows(left[t.i], t.look), |left|))
  }

  lemma NoDataTurn(u: Use, done: seq<char>, left: seq<char>, t: Turn)
    requires t.NoData? && Grown(u.before, |done| + CHUNK, u.after) && done <= u.after && u.fits && !u.behind
    ensures TurnResult(left, t, left) && Stored(u, |done|, left, t)
    ensures Holds(u.after, done + Part(left, Taken(t)))
  {
    assert done + Part(left, 0) == done;
  }

  lemma ChunkTurn(u: Use, done: seq<char>, left: seq<char>, r: nat, peeked: seq<char>)
    requires 0 < r <= CHUNK && EolFree(left, r) && Grown(u.before, |done| + CHUNK, peeked) && u.fits && !u.behind
    requires |u.after| == |peeked| && forall i :: |done| + r <= i < |u.after| ==> u.after[i] == peeked[i]
    requires done + left[..r] <= u.after
    ensures TurnResult(left, Chunk(r), left[r..]) && Stored(u, |done|, left, Chunk(r))
    ensures Holds(u.after, done + Part(left, r))
  {
  }

  lemma LineTurn(u: Use, done: seq<char>, left: seq<char>, t: Turn, peeked: seq<char>)
    requires Grown(u.before, |done| + CHUNK, peeked) && |u.after| == |peeked|
    requires t.Line? && t.i < t.r <= CHUNK && t.r <= |left| && t.i < t.got <= |left|
    requires forall i :: |done| + t.r <= i < |u.before| ==> peeked[i] == u.before[i]
    requires u.fits <==> |done| + t.got <= |u.after|
    requires u.behind <==> IsCrLf(left[t.i]) && |done| + t.i + 1 >= |u.after|
    requires !u.fits ==> t.i + 1 == t.r && t.got == t.i + 2 && t.look == u.beyond
    requires t.i + 1 == t.r ==> t.look == At(peeked, |done| + t.r, u.beyond)
    requires u.eager ==> t.r == Min(CHUNK, |left|) && t.got == Min(t.i + Swallows(left[t.i], t.look), |left|)
    requires done + Part(left, Min(t.got, |u.after| - |done|)) <= u.after
    ensures Stored(u, |done|, left, t)
    ensures Holds(u.after, done + Part(left, t.got))
  {
    hide Swallows, Part;
    HoldsAfter(u.after, done, left, t.got);
  }

  /** A short chunk that was all there is. */
  lemma ShortTurn(left: seq<char>, t: Turn, left': seq<char>)
    requires TurnResult(left, t, left')
    ensures t.Chunk? && t.r == |left| ==> left' == []
  {
  }

  /** After a full chunk the line so far is at the start of the buffer. */
  lemma NextTurn(u: Use, done: seq<char>, left: seq<char>)
    requires Stored(u, |done|, left, Chunk(CHUNK)) && Holds(u.after, done + Part(left, CHUNK))
    ensures done + Part(left, CHUNK) <= u.after
  {
  }

  /** Two turns, the first of which was a full chunk. */
  lemma StoredAfter(u: Use, v: Use, pos: nat, all: seq<char>, left: seq<char>, t: Turn)
    requires Stored(u, pos, all, Chunk(CHUNK)) && Stored(v, pos + CHUNK, left, t) && v.before == u.after
    requires v.beyond == u.beyond && v.eager == u.eager
    ensures Stored(v.(before := u.before), pos + CHUNK, left, t)
  {
  }

  /** The least size of the line buffer that readline needs for a line of `n` characters. */
  function Chunks(n: nat): (size: nat)
    ensures n < size <= n + CHUNK
  {
    n - n % CHUNK + CHUNK
  }

  /** A line feed or carriage return at the very end of a chunk, with more behind it in the stream. */
  ghost predicate AtChunkEnd(s: seq<char>) {
    var n := LineLength(s);
    n + 1 < |s| && IsCrLf(s[n]) && n % CHUNK == CHUNK - 1
  }

  /** How many characters readline swallows after the line, if its calls get the data there is: at
      the end of a chunk the character tested is one of the buffer, and otherwise the next one. */
  ghost function TailOf(s: seq<char>, b: seq<char>, beyond: char): nat
    requires LineLength(s) < |s|
  {
    var n := LineLength(s);
    if n + 1 == |s| then 1
    else Swallows(s[n], if AtChunkEnd(s) then At(b, n + 1, beyond) else s[n + 1])
  }

  /** Readline writes behind its buffer: the line ends with a chunk and with the buffer, and the
      memory there happens to hold the other half of a pair. */
  ghost predicate Overruns(s: seq<char>, b: seq<char>, beyond: char) {
    AtChunkEnd(s) && |b| <= LineLength(s) + 1 && beyond == Other(s[LineLength(s)])
  }

  /** Readline reads behind its buffer: a carriage return or line feed ends the line, a chunk and the
      buffer, whatever comes after it. */
  ghost predicate LooksBehind(s: seq<char>, b: seq<char>) {
    var n := LineLength(s);
    n < |s| && IsCrLf(s[n]) && n % CHUNK == CHUNK - 1 && |b| <= n + 1
  }

  /** A whole number of chunks. */
  predicate Aligned(pos: nat) {
    pos % CHUNK == 0
  }

  lemma AlignedNext(pos: nat)
    ensures Aligned(0) && (Aligned(pos) ==> Aligned(pos + CHUNK))
  {
  }

  lemma InChunk(pos: nat, i: nat)
    requires Aligned(pos) && i < CHUNK
    ensures (pos + i) % CHUNK == i && Chunks(pos + i) == pos + CHUNK
  {
  }

  /** What the loop of readline leaves in the line buffer, put together. */
  lemma LineStored(s: seq<char>, done: seq<char>, left: seq<char>, t: Turn, left': seq<char>, u: Use)
    requires s == done + left && EolFree(done, |done|) && Aligned(|done|)
    requires TurnResult(left, t, left') && t != Chunk(CHUNK) && Stored(u, |done|, left, t)
    ensures var n := |done| + Kept(t);
            && |u.after| == Max(|u.before|, Chunks(n))
            && (u.fits <==> |done| + Taken(t) <= |u.after|)
            && (!u.fits ==> t.Line? && t.i + 1 == t.r && t.got == t.i + 2 && t.look == u.beyond)
  {
    hide LineLength, IsEol, Aligned, Chunks, TurnStored;
    assert Kept(t) < CHUNK by {
      KeptLess(u, |done|, left, t, left');
    }
    InChunk(|done|, Kept(t));
  }

  lemma LineHeld(s: seq<char>, done: seq<char>, left: seq<char>, t: Turn, left': seq<char>, b: seq<char>)
    requires s == done + left && TurnResult(left, t, left') && Holds(b, done + Part(left, Taken(t)))
    ensures |done| + Taken(t) <= |s| && Holds(b, s[..|done| + Taken(t)])
  {
    hide Holds;
    assert done + Part(left, Taken(t)) == s[..|done| + Taken(t)];
  }

  lemma KeptLess(u: Use, pos: nat, left: seq<char>, t: Turn, left': seq<char>)
    requires TurnResult(left, t, left') && t != Chunk(CHUNK) && Stored(u, pos, left, t)
    ensures Kept(t) < CHUNK
  {
  }

  lemma TailIs(s: seq<char>, i: nat, got: nat, look: char, b: seq<char>, beyond: char)
    requires LineLength(s) < |s| && LineLength(s) % CHUNK == i
    requires var n := LineLength(s);
             && (if i + 1 == CHUNK then look == At(b, n + 1, beyond) else n + 1 < |s| ==> look == s[n + 1])
             && got == Min(i + Swallows(s[n], look), i + |s| - n)
    ensures got == i + TailOf(s, b, beyond)
  {
    hide LineLength, At;
  }

  /** When the characters read leave the line buffer. */
  lemma OverrunIff(s: seq<char>, b: seq<char>, beyond: char)
    requires LineLength(s) < |s|
    ensures var n := LineLength(s);
            n + TailOf(s, b, beyond) > Max(|b|, Chunks(n)) <==> Overruns(s, b, beyond)
  {
    hide LineLength;
  }

  /** When the pair test looks behind the line buffer: at a carriage return or line feed that is the
      last character in it. */
  lemma LooksBehindIff(s: seq<char>, b: seq<char>)
    requires LineLength(s) < |s|
    ensures var n := LineLength(s);
            IsCrLf(s[n]) && n + 1 >= Max(|b|, Chunks(n)) <==> LooksBehind(s, b)
  {
    hide LineLength;
  }

  /** The terminator on the whole stream. */
  lemma LinePlace(s: seq<char>, done: seq<char>, left: seq<char>, t: Turn, left': seq<char>)
    requires s == done + left && EolFree(done, |done|) && t.Line? && TurnResult(left, t, left')
    ensures t.r <= |left| && t.i < |left|
    ensures var n := |done| + t.i;
            n == LineLength(s) < |s| && s[n] == left[t.i] && (t.i + 1 < t.r ==> n + 1 < |s| && t.look == s[n + 1])
  {
    LineLengthUnique(s, |done| + t.i);
    hide LineLength;
  }

  lemma StoredLine(u: Use, pos: nat, left: seq<char>, t: Turn)
    requires t.Line? && Stored(u, pos, left, t)
    ensures t.i < t.r <= CHUNK && t.r <= |left| && |u.after| == Max(|u.before|, pos + CHUNK)
    ensures u.fits <==> pos + t.got <= |u.after|
    ensures u.behind <==> IsCrLf(left[t.i]) && pos + t.i + 1 >= |u.after|
    ensures t.i + 1 == t.r && (t.r == CHUNK || pos + t.r < |u.before|) ==> t.look == At(u.before, pos + t.r, u.beyond)
    ensures u.eager ==> t.r == Min(CHUNK, |left|) && t.got == Min(t.i + Swallows(left[t.i], t.look), |left|)
  {
  }

  /** If the calls get the data there is, everything follows from stream and buffer. */
  lemma LineTail(s: seq<char>, done: seq<char>, left: seq<char>, t: Turn, left': seq<char>, u: Use)
    requires s == done + left && EolFree(done, |done|) && Aligned(|done|) && t.Line?
    requires TurnResult(left, t, left') && Stored(u, |done|, left, t) && u.eager
    ensures |done| + t.i == LineLength(s) < |s| && t.got == t.i + TailOf(s, u.before, u.beyond)
    ensures u.fits <==> !Overruns(s, u.before, u.beyond)
  {
    hide Stored, TurnResult, EolFree, IsEol, LineLength, Aligned, Chunks, Swallows, TailOf, Overruns, At;
    LinePlace(s, done, left, t, left');
    StoredLine(u, |done|, left, t);
    InChunk(|done|, t.i);
    TailIs(s, t.i, t.got, t.look, u.before, u.beyond);
    OverrunIff(s, u.before, u.beyond);
  }

  /** Where the pair test looked, for any calls. */
  lemma LineLook(s: seq<char>, done: seq<char>, left: seq<char>, t: Turn, left': seq<char>, u: Use)
    requires s == done + left && EolFree(done, |done|) && Aligned(|done|) && t.Line?
    requires TurnResult(left, t, left') && Stored(u, |done|, left, t)
    ensures u.behind <==> LooksBehind(s, u.before)
    ensures var n := |done| + t.i;
            t.i + 1 == t.r && (n + 1 < |u.before| || n + 1 == |u.after|) ==> t.look == At(u.before, n + 1, u.beyond)
  {
    hide Stored, TurnResult, EolFree, IsEol, LineLength, Aligned, Chunks, Swallows, LooksBehind, At;
    LinePlace(s, done, left, t, left');
    StoredLine(u, |done|, left, t);
    InChunk(|done|, t.i);
    LooksBehindIff(s, u.before);
  }

  /** A stream that ran out without a line end. */
  lemma NoLineEnd(s: seq<char>, b: seq<char>, beyond: char)
    requires EolFree(s, |s|)
    ensures LineLength(s) == |s| && !Overruns(s, b, beyond) && !LooksBehind(s, b)
  {
    LineLengthUnique(s, |s|);
  }

  /** What is left behind a line without one. */
  lemma ChunkAfter(s: seq<char>, done: seq<char>, left: seq<char>, t: Turn, left': seq<char>, u: Use)
    requires s == done + left && EolFree(done, |done|) && TurnResult(left, t, left') && !t.Line?
    ensures var n := |done| + Kept(t);
            && n <= |s| && left' == s[n..] && LineResult(s, n, 0, n, u.beyond)
            && (left' == [] ==> LineLength(s) == |s| && !Overruns(s, u.before, u.beyond) && !LooksBehind(s, u.before))
  {
    hide TurnResult, LineResult, LineLength, Overruns, LooksBehind, EolFree;
    LineAfter(s, done, left, t, left', u.beyond);
    LineAndLeft(s, done + Part(left, Kept(t)), left', u);
  }

  lemma LineAndLeft(s: seq<char>, line: seq<char>, left: seq<char>, u: Use)
    requires s == line + left && EolFree(line, |line|)
    ensures left == s[|line|..]
    ensures left == [] ==> LineLength(s) == |s| && !Overruns(s, u.before, u.beyond) && !LooksBehind(s, u.before)
  {
    if left == [] {
      assert s == line;
      NoLineEnd(line, u.before, u.beyond);
    }
    hide EolFree, LineLength, Overruns, LooksBehind;
  }

  /** The end of readline at a terminator. */
  lemma LineDone(s: seq<char>, done: seq<char>, left: seq<char>, t: Turn, left': seq<char>, u: Use)
    requires s == done + left && EolFree(done, |done|) && Aligned(|done|) && t.Line?
    requires TurnResult(left, t, left') && Stored(u, |done|, left, t)
    requires Holds(u.after, done + Part(left, Taken(t)))
    ensures t.i < t.got
    ensures var n, tail, seen := |done| + t.i, t.got - t.i, |done| + t.r;
            && LineResult(s, n, tail, seen, t.look) && n + tail <= |s| && left' == s[n + tail..]
            && n <= |u.after| == Max(|u.before|, Chunks(n)) && Holds(u.after, s[..n + tail])
            && (u.fits <==> n + tail <= |u.after|)
            && (!u.fits ==> tail == 2 && n + 1 == seen && t.look == u.beyond)
            && (u.behind <==> LooksBehind(s, u.before))
            && (n + 1 == seen && (n + 1 < |u.before| || n + 1 == |u.after|) ==> t.look == At(u.before, n + 1, u.beyond))
            && (u.eager ==> n == LineLength(s) < |s| && tail == TailOf(s, u.before, u.beyond)
                            && u.fits == !Overruns(s, u.before, u.beyond))
  {
    hide TurnResult, Stored, EolFree, IsEol, LineLength, Chunks, TailOf, Overruns, Holds, LineResult, Part, Aligned;
    hide LooksBehind, At;
    LineAfter(s, done, left, t, left', u.beyond);
    LineStored(s, done, left, t, left', u);
    LineHeld(s, done, left, t, left', u.after);
    LineLook(s, done, left, t, left', u);
    if u.eager {
      LineTail(s, done, left, t, left', u);
    }
  }

  /** The end of readline without one. */
  lemma ChunkDone(s: seq<char>, done: seq<char>, left: seq<char>, t: Turn, left': seq<char>, u: Use)
    requires s == done + left && EolFree(done, |done|) && Aligned(|done|) && !t.Line? && t != Chunk(CHUNK)
    requires TurnResult(left, t, left') && Stored(u, |done|, left, t)
    requires Holds(u.after, done + Part(left, Taken(t)))
    ensures var n := |done| + Kept(t);
            && LineResult(s, n, 0, n, u.beyond) && n <= |s| && left' == s[n..] && u.fits && !u.behind
            && n < |u.after| == Max(|u.before|, Chunks(n)) && s[..n] <= u.after && Holds(u.after, s[..n])
            && (left' == [] ==> LineLength(s) == |s| && !Overruns(s, u.before, u.beyond) && !LooksBehind(s, u.before))
  {
    hide TurnResult, Stored, EolFree, LineLength, Chunks, Overruns, LineResult, Part, Aligned, Holds, LooksBehind;
    ChunkAfter(s, done, left, t, left', u);
    LineStored(s, done, left, t, left', u);
    NotBehind(u, |done|, left, t);
    LineHeld(s, done, left, t, left', u.after);
    HoldsAll(u.after, s[..|done| + Kept(t)]);
  }

  lemma NotBehind(u: Use, pos: nat, left: seq<char>, t: Turn)
    requires !t.Line? && Stored(u, pos, left, t)
    ensures !u.behind
  {
  }

  /** What readline may come to: `left` is the stream after the call, and `failed` says that the last
      call on the connection found it closed or broken. */
  ghost predicate LineRun(s: seq<char>, left: seq<char>, u: Use, failed: bool,
                          ok: bool, n: nat, tail: nat, seen: nat, look: char)
  {
    && (!ok <==> n == 0 && tail == 0 && failed)
    && n + tail <= |s| && left == s[n + tail..]
    && LineResult(s, n, tail, seen, look)
    && (tail == 0 && u.eager ==> left == [])
    && n <= |u.after| == Max(|u.before|, Chunks(n))
    && (ok ==> Holds(u.after, s[..n + tail]))
    && (u.fits <==> n + tail <= |u.after|)
    && (!u.fits ==> tail == 2 && n + 1 == seen && look == u.beyond)
    && (u.behind <==> tail > 0 && LooksBehind(s, u.before))
    && (tail > 0 && n + 1 == seen && (n + 1 < |u.before| || n + 1 == |u.after|) ==>
          look == At(u.before, n + 1, u.beyond))
    && (tail > 0 && u.eager ==> n == LineLength(s) < |s| && tail == TailOf(s, u.before, u.beyond)
                                && u.fits == !Overruns(s, u.before, u.beyond))
    && (left == [] && tail == 0 ==>
          LineLength(s) == |s| && !Overruns(s, u.before, u.beyond) && !LooksBehind(s, u.before))
  }

  /** A run that ended at a terminator. */
  lemma LineRunDone(s: seq<char>, done: seq<char>, left: seq<char>, t: Turn, left': seq<char>, u: Use)
    requires s == done + left && EolFree(done, |done|) && Aligned(|done|) && t.Line?
    requires TurnResult(left, t, left') && Stored(u, |done|, left, t)
    requires Holds(u.after, done + Part(left, Taken(t)))
    ensures t.i < t.got
    ensures LineRun(s, left', u, false, true, |done| + t.i, t.got - t.i, |done| + t.r, t.look)
  {
    hide TurnResult, Stored, EolFree, LineLength, Chunks, TailOf, Overruns, Holds, LineResult, Part, Aligned;
    hide LooksBehind, At, Max;
    LineDone(s, done, left, t, left', u);
  }

  /** One that ended without one; `after` is the buffer with its NUL, if that is written. */
  lemma ChunkRunDone(s: seq<char>, done: seq<char>, left: seq<char>, t: Turn, left': seq<char>, u: Use, failed: bool)
    requires s == done + left && EolFree(done, |done|) && Aligned(|done|) && !t.Line? && t != Chunk(CHUNK)
    requires TurnResult(left, t, left') && Stored(u, |done|, left, t)
    requires Holds(u.after, done + Part(left, Taken(t))) && (u.eager ==> left' == [])
    requires failed <==> t.NoData? && !t.wouldBlock
    ensures var n := |done| + Kept(t);
            && n <= |s| && n < |u.after| && s[..n] <= u.after
            && LineRun(s, left', u, failed, t.Chunk? || |done| > 0 || t.wouldBlock, n, 0, n, u.beyond)
  {
    hide Stored, EolFree, LineLength, Chunks, TailOf, Overruns, Holds, LineResult, Part, Aligned;
    hide LooksBehind, At, Max;
    ChunkDone(s, done, left, t, left', u);
  }

  lemma LineRunAfter(s: seq<char>, left: seq<char>, u: Use, failed: bool, ok: bool, n: nat, b: seq<char>)
    requires LineRun(s, left, u, failed, ok, n, 0, n, u.beyond) && |b| == |u.after| && n <= |s| && s[..n] <= b
    ensures LineRun(s, left, u.(after := b), failed, ok, n, 0, n, u.beyond)
  {
    hide EolFree, LineLength, Chunks, TailOf, Overruns, LineResult, LooksBehind, At;
  }

  /** What the contract of readline says of such a run. */
  lemma LineRunIs(s: seq<char>, left: seq<char>, u: Use, failed: bool,
                  ok: bool, n: nat, tail: nat, seen: nat, look: char)
    requires LineRun(s, left, u, failed, ok, n, tail, seen, look)
    ensures !ok <==> n == 0 && tail == 0 && failed
    ensures !ok ==> left == s
    ensures ok ==> LineResult(s, n, tail, seen, look)
    ensures n + tail <= |s| && left == s[n + tail..]
    ensures ok && tail == 0 && u.eager ==> left == []
    ensures u.eager && s != [] ==> ok && n + tail > 0
    ensures |u.after| == Max(|u.before|, Chunks(n))
    ensures n <= |u.after| && (ok ==> Holds(u.after, s[..n + tail]))
    ensures u.fits <==> (ok ==> n + tail <= |u.after|)
    ensures !u.fits ==> ok && tail == 2 && n + 1 == seen && look == u.beyond
    ensures u.behind <==> ok && tail > 0 && LooksBehind(s, u.before)
    ensures tail > 0 && n + 1 == seen && (n + 1 < |u.before| || n + 1 == |u.after|) ==>
              look == At(u.before, n + 1, u.beyond)
    ensures u.eager && LineLength(s) < |s| ==> ok && n == LineLength(s) && tail == TailOf(s, u.before, u.beyond)
    ensures u.eager ==> (u.fits <==> !Overruns(s, u.before, u.beyond))
    ensures u.eager ==> (u.behind <==> LooksBehind(s, u.before))
  {
    hide EolFree, LineLength, Chunks, TailOf, Overruns, LineResult, LooksBehind, At, Holds;
    assert s[0..] == s;
  }

  /** What the pair test is for: a pair is swallowed exactly if there is one. */
  ghost predicate PairCorrect(s: seq<char>, tail: nat)
    requires LineLength(s) < |s|
  {
    var n := LineLength(s);
    tail == if n + 1 < |s| && ((s[n] == '\r' && s[n + 1] == '\n') || (s[n] == '\n' && s[n + 1] == '\r')) then 2 else 1
  }

  /** When readline, with calls that get the data there is, swallows what it should: always, except
      at the end of a chunk if the character tested and the one in the stream differ in
      whether they complete a pair. */
  lemma PairRule(s: seq<char>, b: seq<char>, beyond: char)
    requires LineLength(s) < |s|
    ensures PairCorrect(s, TailOf(s, b, beyond)) <==>
            !(AtChunkEnd(s) && var n := LineLength(s);
                               (At(b, n + 1, beyond) == Other(s[n])) != (s[n + 1] == Other(s[n])))
  {
    hide LineLength;
  }

  /** The same for calls that cut the data anyhow, as to the characters that are lost: for a given
      line end, number of peeked characters and character tested, one of another kind is swallowed
      exactly if the one tested was not peeked, completes a pair, and another is waiting there. */
  lemma LossRule(s: seq<char>, n: nat, seen: nat, look: char)
    requires n == LineLength(s) < seen <= |s|
    requires n + 1 < seen ==> look == s[n + 1]
    ensures (exists tail: nat :: LineResult(s, n, tail, seen, look) && tail == 2 &&
                                 !(IsCrLf(s[n]) && s[n + 1] == Other(s[n])))
       <==> n + 1 == seen < |s| && IsCrLf(s[n]) && look == Other(s[n]) && s[seen] != Other(s[n])
  {
    if n + 1 == seen < |s| && IsCrLf(s[n]) && look == Other(s[n]) && s[seen] != Other(s[n]) {
      assert LineResult(s, n, 2, seen, look);
    }
  }

  /** The rule the guard of the pair test was meant to express: the second character is taken only
      if it was peeked.  readline follows it whenever the character tested does not mislead. */
  lemma AsIntended(s: seq<char>, n: nat, tail: nat, seen: nat, look: char)
    requires LineResult(s, n, tail, seen, look) && 0 < tail
    requires n + 1 < seen || look != Other(s[n])
    ensures tail == if n + 1 < seen && IsCrLf(s[n]) && s[n + 1] == Other(s[n]) then 2 else 1
  {
  }
}
