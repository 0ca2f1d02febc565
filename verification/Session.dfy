/** Whole runs of a client over one socket: nothing is lost, and framed packets come back. */
module Session {
  import opened Transport
  import opened SocketModel
  import opened LineRules
  import opened LineReader
  import opened Matcher
  import opened PacketRules
  import opened PacketReader

  /** The reading calls of the module. */
  datatype Op = ReadLine | ReadPack(sep: string, max: nat) | Recv(len: nat)

  /** What a call returned and what it swallowed behind that. */
  datatype Event = Event(ok: bool, payload: string, tail: string)

  /** What the events of a call can look like. */
  ghost predicate EventOf(op: Op, e: Event) {
    && (!e.ok ==> e.payload == "" && e.tail == "")
    && match op
       case ReadLine => EolFree(e.payload, |e.payload|) && |e.tail| <= 2 && (e.tail != "" ==> IsEol(e.tail[0]))
       case ReadPack(sep, max) => (e.tail == "" || e.tail == sep) && (max != 0 ==> |e.payload| + |e.tail| <= max)
       case Recv(len) => e.tail == "" && |e.payload| <= len
  }

  /** The bytes a run took from the stream. */
  ghost function Consumed(log: seq<Event>): string {
    if log == [] then "" else Consumed(log[..|log| - 1]) + log[|log| - 1].payload + log[|log| - 1].tail
  }

  /** A successful readline as an event. */
  lemma LineEvent(all: string, n: nat, tail: nat, seen: nat, look: char, b: string, left: string)
    requires LineResult(all, n, tail, seen, look) && left == all[n + tail..] && Holds(b, all[..n + tail]) && n <= |b|
    ensures n + tail <= |all|
    ensures EventOf(ReadLine, Event(true, b[..n], all[n..n + tail])) && all == b[..n] + all[n..n + tail] + left
  {
    assert b[..n] == all[..n];
  }

  method PerformLine(s: Socket, beyond: char) returns (payload: string, ghost e: Event)
    requires s.Valid()
    modifies s, s.wire
    ensures s.Valid() && EventOf(ReadLine, e) && payload == e.payload
    ensures !e.ok <==> e.payload == "" && e.tail == "" && (s.answer == Closed || s.answer == Broken)
    ensures s.Eager() && old(s.Stream()) != [] ==> e.ok && |e.payload| + |e.tail| > 0
    ensures old(s.Stream()) == e.payload + e.tail + s.Stream()
  {
    hide *;
    ghost var all := s.Stream();
    var ok, n, tail, seen, look, fits, behind := Readline(s, beyond);
    payload, e := "", Event(false, "", "");
    if ok {
      LineEvent(all, n, tail, seen, look, s.buffer, s.Stream());
      payload := s.buffer[..n];
      e := Event(ok, payload, all[n..n + tail]);
    } else {
      Nothing(ReadLine);
    }
  }

  lemma Nothing(op: Op)
    ensures EventOf(op, Event(false, "", ""))
  {
  }

  /** A call that asks for something. */
  predicate Wants(op: Op) {
    match op
    case ReadLine => true
    case ReadPack(sep, _) => sep != ""
    case Recv(len) => len > 0
  }

  /** One call. */
  method Perform(s: Socket, op: Op, beyond: char) returns (payload: string, ghost e: Event)
    requires s.Valid()
    modifies s, s.wire
    ensures s.Valid() && EventOf(op, e) && payload == e.payload
    ensures old(s.Stream()) == e.payload + e.tail + s.Stream()
    // it fails exactly if the connection does, and otherwise gets something of what is at hand
    ensures !e.ok <==> (op.ReadPack? && op.sep == "")
                       || (e.payload == "" && e.tail == "" && (s.answer == Closed || s.answer == Broken))
    ensures s.Eager() && old(s.Stream()) != [] && Wants(op) ==> e.ok && |e.payload| + |e.tail| > 0
    ensures op.Recv? && s.Eager() ==> |e.payload| == Min(op.len, |old(s.Stream())|)
  {
    hide Socket.Stream, Completes, State;
    ghost var all := s.Stream();
    match op
    case ReadLine =>
      payload, e := PerformLine(s, beyond);
    case ReadPack(sep, max) =>
      var ok, n, tail, ending := ReadPacket(s, sep, max);
      payload, e := "", Event(ok, "", "");
      if ok {
        payload := s.buffer[..n];
        e := Event(ok, payload, all[n..n + tail]);
        assert payload == all[..n];
      }
    case Recv(len) =>
      var st := s.Recv(len, false);
      payload, e := "", Event(st == WouldBlock, "", "");
      if st.Got? {
        payload := st.data;
        e := Event(true, payload, "");
      }
  }

  /** The results and events of the first `k` calls, which took from the stream `all` what is not in
      `left`. */
  ghost predicate Logged(ops: seq<Op>, k: nat, out: seq<string>, log: seq<Event>, all: string, left: string) {
    && |out| == |log| == k <= |ops| && all == Consumed(log) + left
    && forall i :: 0 <= i < k ==> EventOf(ops[i], log[i]) && out[i] == log[i].payload
  }

  lemma NothingLogged(ops: seq<Op>, all: string)
    ensures Logged(ops, 0, [], [], all, all)
  {
  }

  lemma LoggedMore(ops: seq<Op>, k: nat, out: seq<string>, log: seq<Event>, all: string, left: string,
                   e: Event, left': string)
    requires k < |ops| && Logged(ops, k, out, log, all, left) && EventOf(ops[k], e)
    requires left == e.payload + e.tail + left'
    ensures Logged(ops, k + 1, out + [e.payload], log + [e], all, left')
  {
    hide EventOf;
    assert (log + [e])[..|log|] == log;
    assert Consumed(log + [e]) == Consumed(log) + e.payload + e.tail;
  }

  lemma LoggedAll(ops: seq<Op>, out: seq<string>, log: seq<Event>, all: string, left: string)
    requires Logged(ops, |ops|, out, log, all, left)
    ensures |out| == |log| == |ops| && all == Consumed(log) + left
    ensures forall i :: 0 <= i < |ops| ==> EventOf(ops[i], log[i]) && out[i] == log[i].payload
  {
    hide EventOf, Consumed;
  }

  /** Conservation: whatever a client calls, in whatever order, and however the transport cuts or
      fails, the stream is what the calls returned and swallowed, in order, and then what is left.
      `beyond(k)` is what stands behind the line buffer at call `k`. */
  method Run(s: Socket, ops: seq<Op>, beyond: nat -> char) returns (out: seq<string>, ghost log: seq<Event>)
    requires s.Valid()
    modifies s, s.wire
    ensures s.Valid() && |log| == |out| == |ops|
    ensures forall i :: 0 <= i < |ops| ==> EventOf(ops[i], log[i]) && out[i] == log[i].payload
    ensures old(s.Stream()) == Consumed(log) + s.Stream()
  {
    hide Socket.Stream, Socket.Valid, EventOf, Consumed, Logged;
    out, log := [], [];
    NothingLogged(ops, s.Stream());
    for k := 0 to |ops|
      invariant s.Valid() && Logged(ops, k, out, log, old(s.Stream()), s.Stream())
    {
      ghost var left := s.Stream();
      var payload, e := Perform(s, ops[k], beyond(k));
      LoggedMore(ops, k, out, log, old(s.Stream()), left, e, s.Stream());
      out, log := out + [payload], log + [e];
    }
    LoggedAll(ops, out, log, old(s.Stream()), s.Stream());
  }

  /** The wire image of a list of payloads. */
  function Frames(sep: string, ps: seq<string>): string {
    if ps == [] then "" else ps[0] + sep + Frames(sep, ps[1..])
  }

  ghost predicate Framable(sep: string, max: nat, p: string) {
    sep != [] && sep[0] !in p && |p| + |sep| <= if max == 0 then 0xFFFF_FFFF_FFFF_FFFF else max
  }

  /** One framed packet is read back. */
  method ReadFramed(s: Socket, sep: string, max: nat, ghost p: string, ghost rest: string) returns (got: string)
    requires s.Valid() && s.Eager() && Framable(sep, max, p) && s.Stream() == p + sep + rest
    modifies s, s.wire
    ensures s.Valid() && got == p && s.Stream() == rest
  {
    hide Socket.Stream, Completes, State;
    ghost var all := s.Stream();
    assert p + sep <= all && all[|p| + |sep|..] == rest;
    var ok, n, tail, e := ReadPacket(s, sep, max);
    assert tail == 0 ==> all == all[..n] + s.Stream();
    Framed(sep, Limit(max), all, p, n, tail, e);
    got := s.buffer[..n];
  }

  /** Framing round trip: payloads without the first separator character, written one after the
      other with the separator, come back in order, if the calls get the data there is. */
  method ReadFrames(s: Socket, sep: string, max: nat, count: nat, ghost ps: seq<string>, ghost rest: string)
    returns (got: seq<string>)
    requires s.Valid() && s.Eager() && |ps| == count && s.Stream() == Frames(sep, ps) + rest
    requires forall p :: p in ps ==> Framable(sep, max, p)
    modifies s, s.wire
    ensures s.Valid() && got == ps && s.Stream() == rest
  {
    hide Socket.Stream, Framable;
    got := [];
    for i := 0 to count
      invariant s.Valid() && got == ps[..i] && s.Stream() == Frames(sep, ps[i..]) + rest
    {
      assert ps[i] in ps && ps[i..][1..] == ps[i + 1..];
      var p := ReadFramed(s, sep, max, ps[i], Frames(sep, ps[i + 1..]) + rest);
      got := got + [p];
    }
  }
}
