/** A socket of the module: plain, or SSL with the receive buffer that imitates MSG_PEEK. */
module SocketModel {
  import opened Transport

  class Socket {
    const wire: Wire
    const tls: bool
    const connected: bool      // the SSL state exists (always true on a plain socket)
    var rcvbuf: seq<char>      // growing buffer: bytes peeked from the SSL connection but not yet read
    var rcvbuf_pos: nat        // how many there are
    var buffer: seq<char>      // growing line buffer of readline and read_packet
    ghost var answer: Status   // what the last receive reported

    ghost predicate Valid()
      reads this`rcvbuf, this`rcvbuf_pos, wire
    {
      && wire.Valid()
      && rcvbuf_pos <= |rcvbuf|
      && (tls ==> wire.avail == 0)
      && (!tls ==> rcvbuf_pos == 0 && connected)
    }

    /** Every byte still to be delivered: what is buffered, then what is unread below. */
    ghost function Stream(): (s: seq<char>)
      requires Valid()
      reads this`rcvbuf, this`rcvbuf_pos, wire
    {
      rcvbuf[..rcvbuf_pos] + wire.bytes
    }

    /** The bytes certain to be delivered by the next call. */
    ghost function Window(): (w: nat)
      requires Valid()
      reads this`rcvbuf, this`rcvbuf_pos, wire
      ensures w <= |Stream()|
    {
      if !tls then wire.avail else if connected then rcvbuf_pos else 0
    }

    /** Nothing stands between a call and the data it wants. */
    predicate Eager() { connected && wire.eager }

    constructor (w: Wire, tls: bool, connected: bool)
      requires w.Valid() && w.avail == 0 && (tls || connected)
      ensures Valid() && wire == w && this.tls == tls && this.connected == connected
      ensures Stream() == w.bytes && Window() == 0 && buffer == [] && Eager() == (connected && w.eager)
    {
      wire, this.tls, this.connected := w, tls, connected;
      rcvbuf, rcvbuf_pos, buffer, answer := [], 0, [], WouldBlock;
    }

    /** The peek that goes beyond `rcvbuf`: grow it and append what SSL_read gives. */
    method Append(rest: nat) returns (st: Status)
      requires Valid() && tls
      modifies this`rcvbuf, this`rcvbuf_pos, wire
      ensures Valid() && Stream() == old(Stream())
      ensures st == WouldBlock || st == Broken || st.Got?
      ensures old(wire.pending) > 0 && rest > 0 ==> st.Got?
      ensures wire.answer == st
      ensures st.Got? ==> 0 < |st.data| <= rest && st.data <= old(wire.bytes)
                          && rcvbuf[..rcvbuf_pos] == old(rcvbuf[..rcvbuf_pos]) + st.data
      ensures !st.Got? ==> rcvbuf_pos == old(rcvbuf_pos)
      ensures wire.eager ==> Length(st) == Min(rest, |old(wire.bytes)|)
    {
      ghost var kept, unread := rcvbuf[..rcvbuf_pos], wire.bytes;
      if |rcvbuf| < rest + rcvbuf_pos {
        rcvbuf := Renew(rcvbuf, rest + rcvbuf_pos);
        assert rcvbuf[..rcvbuf_pos] == kept;
      }
      st := wire.SslRead(rest);
      if st.Got? {
        rcvbuf := Overwrite(rcvbuf, rcvbuf_pos, st.data);
        rcvbuf_pos := rcvbuf_pos + |st.data|;
        assert kept + unread == (kept + st.data) + wire.bytes;
      }
    }

    /** The read from `rcvbuf`: drop its first `k` bytes and move the rest down. */
    method Discard(k: nat)
      requires Valid() && tls && k <= rcvbuf_pos
      modifies this`rcvbuf_pos, this`rcvbuf
      ensures Valid() && rcvbuf_pos == old(rcvbuf_pos) - k && Stream() == old(Stream())[k..]
    {
      ghost var kept := rcvbuf[..rcvbuf_pos];
      rcvbuf_pos := rcvbuf_pos - k;
      rcvbuf := Overwrite(rcvbuf, 0, rcvbuf[k..k + rcvbuf_pos]);
      assert rcvbuf[..rcvbuf_pos] == kept[k..];
    }

    /** mod_sc_ssl_recv. What the source copies to the caller's buffer is the data of the result;
        `len2` counts the bytes of it that come from `rcvbuf`. */
    method SslRecv(len: nat, peek: bool) returns (st: Status)
      requires Valid() && tls
      modifies this`rcvbuf, this`rcvbuf_pos, wire
      ensures Valid()
      ensures Allowed(old(Stream()), old(Window()), len, peek, st, Stream(), Window())
      ensures Eager() ==> Length(st) == Min(len, |old(Stream())|)
      // what an earlier peek fetched is read back without touching the connection
      ensures connected && 0 < len <= old(rcvbuf_pos) ==> st.Got? && |st.data| == len && wire.bytes == old(wire.bytes)
      ensures !connected ==> st == Broken
      // where it fails, it fails as the connection does
      ensures connected && !st.Got? && len > 0 ==> st == wire.answer
    {
      hide Allowed;
      ghost var kept, unread := rcvbuf[..rcvbuf_pos], wire.bytes;
      if !connected {
        AllowedNothing(Stream(), len, peek, Broken);
        return Broken;
      }
      var len2, first := 0, [];
      if rcvbuf_pos > 0 {
        len2 := Min(rcvbuf_pos, len);
        first := rcvbuf[..len2];
        if !peek {
          Discard(len2);
        }
        if len - len2 == 0 || wire.pending == 0 {
          AllowedWithin(kept, unread, len);
          assert first == kept[..len2];
          return if len2 > 0 then Got(first) else WouldBlock;
        }
      }
      assert first == kept;
      if peek {
        st := Append(len - len2);
        if st.Got? {
          AllowedBeyond(first, unread, len, st.data, unread[|st.data|..]);
          return Got(first + st.data);
        }
      } else {
        st := wire.SslRead(len - len2);
        if st.Got? {
          AllowedBeyond(first, unread, len, st.data, wire.bytes);
          assert Stream() == wire.bytes;
          return Got(first + st.data);
        }
      }
      AllowedNothing(Stream(), len, peek, st);
    }

    /** The recv of either kind of socket. */
    method Recv(len: nat, peek: bool) returns (st: Status)
      requires Valid()
      modifies this`rcvbuf, this`rcvbuf_pos, this`answer, wire
      ensures Valid() && answer == st
      ensures Allowed(old(Stream()), old(Window()), len, peek, st, Stream(), Window())
      ensures Eager() ==> Length(st) == Min(len, |old(Stream())|)
      ensures !st.Got? && len > 0 ==> st == if connected then wire.answer else Broken
    {
      if tls {
        st := SslRecv(len, peek);
      } else {
        assert Stream() == wire.bytes;
        st := wire.KernelRecv(len, peek);
        assert Stream() == wire.bytes;
      }
      answer := st;
    }
  }
}
