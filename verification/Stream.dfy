/** Receiving frames from a socket (ws_read_full and ws_recv in src/abs_ws.c). The network is the
    sequence of bytes still to come, handed over in chunks of arbitrary size. */
module Stream {
  import opened Common
  import opened Numerals
  import opened Frames

  const WS_MAX_FRAME := 0x100_0000

  datatype Reply = Nothing | Failure(message: string) | Text(s: seq<Byte>)

  class Socket {
    /** The bytes the peer has sent and recv has not delivered; after them the connection ends. */
    var incoming: seq<Byte>

    constructor (incoming: seq<Byte>)
      ensures this.incoming == incoming
    {
      this.incoming := incoming;
    }

    /** recv: any non-empty part of what is left, at most want bytes; 0 at the end. */
    method Recv(buf: array<Byte>, off: nat, want: nat) returns (n: nat)
      requires 0 < want && off + want <= buf.Length
      modifies this, buf
      ensures n <= want && n <= |old(incoming)| && (n == 0 <==> old(incoming) == [])
      ensures incoming == old(incoming)[n..]
      ensures buf[..] == Written(old(buf[..]), off, old(incoming)[..n])
    {
      if incoming == [] {
        return 0;
      }
      n :| 1 <= n <= want && n <= |incoming|;
      WriteBytes(buf, off, incoming[..n]);
      incoming := incoming[n..];
    }
  }

  /** ws_read_full: exactly the next len bytes, or -1 if the stream ends before. */
  method ReadFull(fd: Socket, buf: array<Byte>, len: nat) returns (r: int)
    requires len <= buf.Length
    modifies fd, buf
    ensures if len <= |old(fd.incoming)|
            then r == len && fd.incoming == old(fd.incoming)[len..] && buf[..len] == old(fd.incoming)[..len]
            else r == -1 && fd.incoming == []
  {
    ghost var s := fd.incoming;
    var got := 0;
    while got < len
      invariant got <= len && got <= |s| && fd.incoming == s[got..] && buf[..got] == s[..got]
    {
      var n := fd.Recv(buf, got, len - got);
      if n == 0 {
        return -1;
      }
      assert s[got..][..n] == s[got..got + n] && s[..got + n] == s[..got] + s[got..got + n];
      assert s[got..][n..] == s[got + n..];
      got := got + n;
    }
    return got;
  }

  /** The C string in a buffer: what precedes the first NUL. */
  function CStr(data: seq<Byte>): (r: seq<Byte>)
    ensures |r| <= |data|
  {
    if data == [] || data[0] == 0 then [] else [data[0]] + CStr(data[1..])
  }

  lemma {:induction false} CStrExactly(data: seq<Byte>)
    ensures CStr(data) == data <==> 0 !in data
    ensures CStr(data) <= data && 0 !in CStr(data) && (|CStr(data)| < |data| ==> data[|CStr(data)|] == 0)
  {
    if data == [] {
    } else {
      CStrExactly(data[1..]);
      if data[0] != 0 {
        assert data == [data[0]] + data[1..];
        assert CStr(data)[1..] == CStr(data[1..]);
      }
    }
  }

  // ---------------------------------------------------------------- one frame

  /** What ws_recv returns for a stream and what it leaves of it. */
  datatype Received = Received(reply: Reply, rest: seq<Byte>)

  function Receive(b: seq<Byte>, oom: bool): Received {
    var h := ReadHeader(b);
    if h.Short? then Received(Nothing, [])
    else if h.len > WS_MAX_FRAME then Received(Failure("ws_recv frame too large"), b[h.size..])
    else if oom then Received(Failure("Out of memory"), b[h.size..])
    else if |b| < h.size + h.len then Received(Nothing, [])
    else Received(Text(CStr(WithKey(b[h.size..h.size + h.len], h.key))), b[h.size + h.len..])
  }

  /** The header part of ws_recv: two bytes, the extended length, the key. */
  method RecvHeader(fd: Socket) returns (h: Header)
    modifies fd
    ensures h == ReadHeader(old(fd.incoming))
    ensures fd.incoming == if h.Short? then [] else old(fd.incoming)[h.size..]
  {
    ghost var b := fd.incoming;
    var hdr := new Byte[2](_ => 0);
    var ok := ReadFull(fd, hdr, 2);
    if ok < 0 {
      return Short;
    }
    var b1 := hdr[1];
    assert hdr[..2][1] == b1 == b[1];
    var extra := LengthBytes(b1);
    var len: nat := b1 % 128;
    if extra > 0 {
      var ext := new Byte[8](_ => 0);
      ok := ReadFull(fd, ext, extra);
      if ok < 0 {
        return Short;
      }
      len := ReadBig(ext, 0, extra);
      assert ext[0..extra] == ext[..extra] == b[2..][..extra] == b[2..2 + extra];
    }
    assert fd.incoming == b[2 + extra..];
    if b1 < 128 {
      return Header(len, None, 2 + extra);
    }
    var mask := new Byte[4](_ => 0);
    ok := ReadFull(fd, mask, 4);
    if ok < 0 {
      return Short;
    }
    assert mask[..4] == b[2 + extra..][..4] == b[2 + extra..2 + extra + 4];
    assert b[2 + extra..][4..] == b[2 + extra + 4..];
    h := Header(len, Some(mask[..4]), 2 + extra + 4);
  }

  /** Unmasking in place. */
  method Unmask(data: array<Byte>, len: nat, key: Key)
    requires len <= data.Length
    modifies data
    ensures data[..len] == WithKey(old(data[..len]), key)
  {
    if key.Some? {
      for i := 0 to len
        invariant data[..i] == Masked(old(data[..len]), key.value)[..i]
        invariant data[i..len] == old(data[..len])[i..]
      {
        assert data[i] == data[i..len][0] == old(data[..len])[i];
        ghost var rest := data[i..len];
        data[i] := Xor(data[i], key.value[i % 4]);
        assert data[..i + 1] == data[..i] + [Masked(old(data[..len]), key.value)[i]];
        assert data[i + 1..len] == rest[1..];
      }
    }
  }

  /** ws_recv; oom says that the payload buffer cannot be allocated. */
  method WsRecv(fd: Socket, oom: bool) returns (r: Reply)
    modifies fd
    ensures Received(r, fd.incoming) == Receive(old(fd.incoming), oom)
  {
    ghost var b := fd.incoming;
    var h := RecvHeader(fd);
    if h.Short? {
      return Nothing;
    }
    if h.len > WS_MAX_FRAME {
      return Failure("ws_recv frame too large");
    }
    if oom {
      return Failure("Out of memory");
    }
    var data := new Byte[h.len + 1](_ => 0);
    if h.len > 0 {
      var ok := ReadFull(fd, data, h.len);
      if ok < 0 {
        return Nothing;
      }
    }
    assert data[..h.len] == b[h.size..h.size + h.len] && fd.incoming == b[h.size + h.len..];
    Unmask(data, h.len, h.key);
    r := Text(CStr(data[..h.len]));
  }

  // ---------------------------------------------------------------- streams of frames

  /** The next frame of a stream is returned as the string its payload holds, up to a NUL, and
      exactly the frame is consumed. */
  lemma ReceiveFrame(payload: seq<Byte>, key: Key, rest: seq<Byte>)
    requires |payload| <= 16 * 1024 * 1024
    ensures Receive(Frame(payload, key) + rest, false) == Received(Text(CStr(payload)), rest)
    ensures Receive(Frame(payload, key) + rest, false).reply == Text(payload) <==> 0 !in payload
  {
    TakeFrame(payload, key, rest);
    WithKeyTwice(payload, key);
    CStrExactly(payload);
  }

  /** A stream that ends inside a frame gives nothing. */
  lemma ReceiveCutFrame(payload: seq<Byte>, key: Key, k: nat)
    requires |payload| <= 16 * 1024 * 1024 && k < |Frame(payload, key)|
    ensures Receive(Frame(payload, key)[..k], false) == Received(Nothing, [])
  {
    CutFrame(payload, key, k);
  }

  /** An oversized frame is refused after its header; its payload stays in the stream. */
  lemma ReceiveOversized(payload: seq<Byte>, key: Key, rest: seq<Byte>, oom: bool)
    requires 16 * 1024 * 1024 < |payload| < 0x1_0000_0000_0000_0000
    ensures Receive(Frame(payload, key) + rest, oom)
            == Received(Failure("ws_recv frame too large"), WithKey(payload, key) + rest)
  {
    TakeFrame(payload, key, rest);
  }

  /** Without memory for the payload that stays in the stream too. */
  lemma ReceiveWithoutMemory(payload: seq<Byte>, key: Key, rest: seq<Byte>)
    requires |payload| <= 16 * 1024 * 1024
    ensures Receive(Frame(payload, key) + rest, true)
            == Received(Failure("Out of memory"), WithKey(payload, key) + rest)
  {
    TakeFrame(payload, key, rest);
  }

  datatype Message = Message(payload: seq<Byte>, key: Key)

  /** Messages ws_recv can deliver whole. */
  ghost predicate Deliverable(ms: seq<Message>) {
    forall i :: 0 <= i < |ms| ==> |ms[i].payload| <= 16 * 1024 * 1024 && 0 !in ms[i].payload
  }

  /** The messages as frames, one after the other. */
  ghost function Encoded(ms: seq<Message>): seq<Byte>
    requires Deliverable(ms)
  {
    if ms == [] then [] else Frame(ms[0].payload, ms[0].key) + Encoded(ms[1..])
  }

  /** What is still in the stream when the first i messages have been received. */
  ghost function Remaining(ms: seq<Message>, i: nat, rest: seq<Byte>): seq<Byte>
    requires Deliverable(ms) && i <= |ms|
  {
    Encoded(ms[i..]) + rest
  }

  lemma RemainingStep(ms: seq<Message>, i: nat, rest: seq<Byte>)
    requires Deliverable(ms) && i < |ms|
    ensures Receive(Remaining(ms, i, rest), false) == Received(Text(ms[i].payload), Remaining(ms, i + 1, rest))
  {
    var f, tail := Frame(ms[i].payload, ms[i].key), Encoded(ms[i + 1..]) + rest;
    assert ms[i..][1..] == ms[i + 1..];
    assert Encoded(ms[i..]) + rest == f + tail;
    ReceiveFrame(ms[i].payload, ms[i].key, tail);
  }

  method ReceiveOne(fd: Socket, ghost ms: seq<Message>, ghost i: nat, ghost rest: seq<Byte>) returns (r: Reply)
    requires Deliverable(ms) && i < |ms| && fd.incoming == Remaining(ms, i, rest)
    modifies fd
    ensures r == Text(ms[i].payload) && fd.incoming == Remaining(ms, i + 1, rest)
  {
    RemainingStep(ms, i, rest);
    r := WsRecv(fd, false);
  }

  /** However the stream is chopped into chunks, the calls of ws_recv return the messages in order. */
  method ReceiveAll(fd: Socket, ghost ms: seq<Message>, n: nat, ghost rest: seq<Byte>) returns (rs: seq<Reply>)
    requires Deliverable(ms) && n == |ms| && fd.incoming == Encoded(ms) + rest
    modifies fd
    ensures |rs| == n && forall i :: 0 <= i < n ==> rs[i] == Text(ms[i].payload)
    ensures fd.incoming == rest
  {
    rs := [];
    assert ms[0..] == ms;
    for i := 0 to n
      invariant |rs| == i && forall j :: 0 <= j < i ==> rs[j] == Text(ms[j].payload)
      invariant fd.incoming == Remaining(ms, i, rest)
    {
      var r := ReceiveOne(fd, ms, i, rest);
      rs := rs + [r];
    }
    assert ms[n..] == [];
  }
}
