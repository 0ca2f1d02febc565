/** What read_packet may report about a stream; no state here. */
module PacketRules {
  import opened Transport
  import opened Matcher

  const SIZE_MAX: nat := 0xFFFF_FFFF_FFFF_FFFF

  /** The value `max` stands for: zero means no limit but that of size_t. */
  function Limit(max: nat): nat { if max == 0 then SIZE_MAX else max }

  /** How a packet ended: at the separator, at the size limit, or for want of data. */
  datatype Ending = Found | Full | Short

  /** What one turn of the loop of read_packet comes to: no data, a chunk of `r` characters that was
      consumed whole, the separator completed by character `i - 1` of it, or the size limit at `i`. */
  datatype Turn = NoData(wouldBlock: bool) | Chunk(r: nat) | Hit(i: nat) | AtLimit(i: nat)

  /** The characters a turn removes from the stream. */
  function Taken(t: Turn): nat {
    match t
    case NoData(_) => 0
    case Chunk(r) => r
    case Hit(i) => i
    case AtLimit(i) => i
  }

  /** The effect of a turn after `done`, the part of the packet stored by earlier turns. */
  ghost predicate TurnResult(sep: string, limit: nat, done: string, left: string, t: Turn, left': string) {
    var k := Taken(t);
    && k <= CHUNK && k <= |left| && left' == left[k..]
    && |done| + k <= limit
    && (if t.Hit? then Completes(sep, done + left[..k]) else State(sep, done + left[..k]) < |sep|)
    && (t.AtLimit? ==> |done| + k == limit && k < |left|)
    && (t.Chunk? ==> 0 < k)
  }

  /** What a successful read_packet may report on the stream `s`: `n` characters of payload, and
      `tail` characters of separator removed after it. */
  ghost predicate PacketResult(sep: string, limit: nat, s: string, n: nat, tail: nat, e: Ending) {
    && n + tail <= |s| && n + tail <= limit
    && match e
       case Found => tail == |sep| && Completes(sep, s[..n + tail]) && OccursAt(sep, s, n)
       case Full => tail == 0 && n == limit && n < |s| && State(sep, s[..n]) < |sep|
       case Short => tail == 0 && State(sep, s[..n]) < |sep|
  }

  /** The ending of a packet whose last turn is `t`. */
  function EndingOf(t: Turn): Ending {
    if t.Hit? then Found else if t.AtLimit? then Full else Short
  }

  lemma PacketAfter(sep: string, limit: nat, all: string, done: string, left: string, t: Turn, left': string)
    requires all == done + left && TurnResult(sep, limit, done, left, t, left')
    ensures var packet := done + Part(left, Taken(t));
            && |packet| == |done| + Taken(t) && packet == all[..|packet|] && all == packet + left'
               && left' == all[|packet|..]
            && (t.Hit? ==> |sep| <= |packet| && PacketResult(sep, limit, all, |packet| - |sep|, |sep|, Found))
            && (!t.Hit? ==> PacketResult(sep, limit, all, |packet|, 0, EndingOf(t)))
  {
    hide State;
    var packet := done + Part(left, Taken(t));
    assert all[..|packet|] == packet;
    if t.Hit? {
      Sound(sep, packet);
      assert packet[|packet| - |sep|..|packet|] == all[|packet| - |sep|..|packet|];
    }
  }

  lemma TakenOf(t: Turn)
    ensures Taken(t) == if t.NoData? then 0 else if t.Chunk? then t.r else t.i
    ensures EndingOf(t) == if t.Hit? then Found else if t.AtLimit? then Full else Short
  {
  }

  /** The end of read_packet at a separator. */
  lemma HitDone(sep: string, max: nat, all: string, done: string, left: string, t: Turn, left': string, b: string)
    requires all == done + left && TurnResult(sep, Limit(max), done, left, t, left') && t.Hit? && sep != []
    requires done + Part(left, Taken(t)) <= b
    ensures |sep| <= |done| + t.i && |done| + t.i <= |all|
    ensures var n := |done| + t.i - |sep|;
            && PacketResult(sep, Limit(max), all, n, |sep|, Found) && left' == all[n + |sep|..] && all[..n] <= b
            && (max != 0 ==> n + |sep| <= max)
  {
    hide State, Completes, TurnResult;
    PacketAfter(sep, Limit(max), all, done, left, t, left');
    var packet := done + Part(left, Taken(t));
    assert all[..|packet| - |sep|] == packet[..|packet| - |sep|];
  }

  /** Its end without one. */
  lemma StopDone(sep: string, max: nat, all: string, done: string, left: string, t: Turn, left': string, b: string)
    requires all == done + left && TurnResult(sep, Limit(max), done, left, t, left') && !t.Hit?
    requires |done| + CHUNK <= |b| && Taken(t) <= CHUNK && t != Chunk(CHUNK) && done + Part(left, Taken(t)) <= b
    requires t.AtLimit? ==> t.i < CHUNK
    ensures |done| + Taken(t) <= |all| && |done| + Taken(t) < |b|
    ensures var n := |done| + Taken(t);
            && PacketResult(sep, Limit(max), all, n, 0, EndingOf(t)) && left' == all[n..] && all[..n] <= b
            && (max != 0 ==> n <= max)
            && (t.AtLimit? ==> n == (if max == 0 then 0xFFFF_FFFF_FFFF_FFFF else max) && 0 < n < |all|)
            && (left' == [] ==> n == |all|)
            && (t.NoData? ==> n == |done| && left' == left) && (t.Chunk? ==> n > 0)
  {
    hide State, Completes;
    PacketAfter(sep, Limit(max), all, done, left, t, left');
    var packet := done + Part(left, Taken(t));
    assert all[..|packet|] == packet;
  }

  /** What read_packet may come to with a separator: `left` is the stream after the call, `b` the buffer,
      and `failed` says that the last call on the connection found it closed or broken. */
  ghost predicate PacketRun(sep: string, max: nat, s: string, left: string, b: string, eager: bool, failed: bool,
                            ok: bool, n: nat, tail: nat, e: Ending)
  {
    && (!ok <==> n == 0 && tail == 0 && failed) && (!ok ==> e == Short)
    && n + tail <= |s| && left == s[n + tail..] && PacketResult(sep, Limit(max), s, n, tail, e)
    && (ok ==> n <= |b| && s[..n] <= b) && (max != 0 ==> n + tail <= max)
    && (e == Full ==> n == (if max == 0 then 0xFFFF_FFFF_FFFF_FFFF else max) && n < |s| && n < |b| && b[n] == '\0')
    && (e == Short && eager ==> left == [] && tail == 0)
  }

  lemma HitRun(sep: string, max: nat, s: string, left: string, b: string, eager: bool, n: nat)
    requires n + |sep| <= |s| && left == s[n + |sep|..] && PacketResult(sep, Limit(max), s, n, |sep|, Found)
    requires s[..n] <= b && (max != 0 ==> n + |sep| <= max) && sep != []
    ensures PacketRun(sep, max, s, left, b, eager, false, true, n, |sep|, Found)
  {
    hide PacketResult;
  }

  lemma StopRun(sep: string, max: nat, s: string, left: string, b: string, eager: bool, failed: bool,
                ok: bool, n: nat, e: Ending)
    requires n <= |s| && left == s[n..] && PacketResult(sep, Limit(max), s, n, 0, e) && (!ok <==> n == 0 && failed)
    requires (!ok ==> e == Short) && s[..n] <= b && (max != 0 ==> n <= max) && e != Found
    requires e == Full ==> n == (if max == 0 then 0xFFFF_FFFF_FFFF_FFFF else max) && n < |s| && n < |b| && b[n] == '\0'
    requires e == Short && eager ==> left == []
    ensures PacketRun(sep, max, s, left, b, eager, failed, ok, n, 0, e)
  {
    hide PacketResult;
  }

  /** What the contract of read_packet says of such a run. */
  lemma PacketRunIs(sep: string, max: nat, s: string, left: string, b: string, eager: bool, failed: bool,
                    ok: bool, n: nat, tail: nat, e: Ending)
    requires PacketRun(sep, max, s, left, b, eager, failed, ok, n, tail, e)
    ensures !ok <==> n == 0 && tail == 0 && failed
    ensures !ok ==> left == s && e == Short
    ensures PacketResult(sep, Limit(max), s, n, tail, e)
    ensures n + tail <= |s| && left == s[n + tail..]
    ensures ok ==> n <= |b| && s[..n] <= b
    ensures e == Short && eager ==> left == [] && n == |s|
    ensures ok && max != 0 ==> n + tail <= max && (e == Full ==> n == max)
    ensures ok && e == Full ==> n == (if max == 0 then 0xFFFF_FFFF_FFFF_FFFF else max) && n < |s|
    ensures eager && s != [] && sep != [] ==> ok && n + tail > 0
    ensures ok && e == Full ==> n < |b| && b[n] == '\0'
  {
    assert s[0..] == s;
    hide State, Completes, OccursAt;
  }

  /** After a whole chunk the loop goes on as it began. */
  lemma ChunkAfter(sep: string, limit: nat, all: string, done: string, left: string, t: Turn, left': string)
    requires all == done + left && TurnResult(sep, limit, done, left, t, left') && t.Chunk?
    ensures |done| + t.r <= limit && State(sep, done + Part(left, t.r)) < |sep|
    ensures |Part(left, t.r)| == t.r && all == (done + Part(left, t.r)) + left' && |left'| < |left|
  {
    hide State;
  }

  /** Two runs that both end at the separator agree, wherever their peeks were cut. */
  lemma FoundOnce(sep: string, limit: nat, s: string, n: nat, n': nat)
    requires PacketResult(sep, limit, s, n, |sep|, Found) && PacketResult(sep, limit, s, n', |sep|, Found)
    ensures n == n'
  {
    hide State;
    if n < n' {
      CompletesOnce(sep, s, n + |sep|, n' + |sep|);
    } else if n' < n {
      CompletesOnce(sep, s, n' + |sep|, n + |sep|);
    }
  }

  /** With a separator of one repeated character the payload ends at the first occurrence. */
  lemma EarliestFound(sep: string, limit: nat, s: string, n: nat, at: int)
    requires sep != [] && Repeated(sep) && PacketResult(sep, limit, s, n, |sep|, Found) && OccursAt(sep, s, at)
    ensures n <= at
  {
    hide State;
    RepeatedFound(sep, s);
    if at < n {
      CompletesOnce(sep, s, at + |sep|, n + |sep|);
    }
  }

  /** A framed payload without the first separator character, within the size limit: whatever
      read_packet reports with all its data at hand, it is that payload. */
  lemma Framed(sep: string, limit: nat, s: string, p: string, n: nat, tail: nat, e: Ending)
    requires sep != [] && sep[0] !in p && p + sep <= s && |p| + |sep| <= limit
    requires PacketResult(sep, limit, s, n, tail, e) && (e == Short ==> n == |s|)
    ensures e == Found && n == |p| && s[..n] == p
  {
    hide State;
    var c := |p| + |sep|;
    FrameCompletes(sep, p);
    assert s[..c] == p + sep;
    if e == Found {
      assert s[|p|..c] == sep;
      FoundOnce(sep, limit, s, n, |p|);
    } else {
      StaysComplete(sep, s, c, n);
    }
  }
}
