/**
 The byte stream over Noise (crates/td-net/src/noise.rs): chunked writes, reads of any size with a leftover
 buffer, and length-prefixed frames on top.

 TCP together with the two cipher states is a queue of messages, which arrive unchanged and in order; a reader
 that finds the queue empty sees the connection closed.
 */
module Noise {
  import opened Wrappers
  import opened Bytes

  const MAX_NOISE_MSG: nat := 65535
  const TAG_LEN: nat := 16
  const MAX_PLAIN: nat := MAX_NOISE_MSG - TAG_LEN - 4
  const MAX_FRAME: nat := 16 * 1024 * 1024
  const TWO_32: nat := 0x1_0000_0000

  type Octets = seq<Byte>

  datatype NoiseError = TooLarge | Closed

  function Chunks(data: Octets): seq<Octets>
    decreases |data|
  {
    if data == [] then []
    else if |data| <= MAX_PLAIN then [data]
    else [data[..MAX_PLAIN]] + Chunks(data[MAX_PLAIN..])
  }

  /** The bytes of the messages before the first empty one, at which a reader stops. */
  function Readable(messages: seq<Octets>): Octets {
    if messages == [] || messages[0] == [] then [] else messages[0] + Readable(messages[1..])
  }

  /** What the queue holds after a reader has stopped. */
  function AfterStop(messages: seq<Octets>): seq<Octets> {
    if messages == [] then [] else if messages[0] == [] then messages[1..] else AfterStop(messages[1..])
  }

  ghost predicate NoneEmpty(messages: seq<Octets>) {
    forall i | 0 <= i < |messages| :: messages[i] != []
  }

  lemma {:induction false} ChunksAreWhole(data: Octets)
    ensures Readable(Chunks(data)) == data && NoneEmpty(Chunks(data))
    ensures forall i | 0 <= i < |Chunks(data)| :: |Chunks(data)[i]| + 16 + 4 <= 65535
    ensures |Chunks(data)| == (|data| + 65514) / 65515
    decreases |data|
  {
    if |data| > MAX_PLAIN {
      ChunksAreWhole(data[MAX_PLAIN..]);
      assert data == data[..MAX_PLAIN] + data[MAX_PLAIN..];
      assert Chunks(data)[1..] == Chunks(data[MAX_PLAIN..]);
    } else if data != [] {
      assert Readable([data]) == data + Readable([data][1..]);
    }
  }

  lemma {:induction false} ReadableOfMore(messages: seq<Octets>, more: seq<Octets>)
    requires NoneEmpty(messages)
    ensures Readable(messages + more) == Readable(messages) + Readable(more)
    ensures NoneEmpty(more) ==> NoneEmpty(messages + more)
  {
    if messages == [] {
      assert messages + more == more;
    } else {
      ReadableOfMore(messages[1..], more);
      assert (messages + more)[1..] == messages[1..] + more;
    }
  }

  lemma {:induction false} ChunksSnoc(data: Octets, off: nat, end: nat)
    requires off < |data| && end == (if off + MAX_PLAIN < |data| then off + MAX_PLAIN else |data|)
    ensures Chunks(data[off..]) == [data[off..end]] + Chunks(data[end..])
  {
    assert data[off..][..end - off] == data[off..end];
    assert data[off..][end - off..] == data[end..];
    if end == |data| {
      assert data[off..end] == data[off..];
    }
  }

  /** One direction of a connection. The ghost field records all bytes written, in order. */
  class Pipe {
    var messages: seq<Octets>
    ghost var sent: Octets

    constructor ()
      ensures messages == [] && sent == []
    {
      messages, sent := [], [];
    }
  }

  /** A reader that has lost and invented nothing: what it took, and what it can still take, is what was sent. */
  ghost predicate InStep(sent: Octets, received: Octets, rest: Octets, messages: seq<Octets>) {
    NoneEmpty(messages) && sent == received + rest + Readable(messages)
  }

  /** Writes keep the reader at the other end in step, wherever it stands in the stream. */
  lemma WriteKeepsInStep(sent: Octets, received: Octets, rest: Octets, messages: seq<Octets>, data: Octets)
    requires InStep(sent, received, rest, messages)
    ensures InStep(sent + data, received, rest, messages + Chunks(data))
  {
    ChunksAreWhole(data);
    ReadableOfMore(messages, Chunks(data));
  }

  lemma Regroup(before: Octets, leftover: Octets, n: nat, tail: Octets)
    requires n <= |leftover|
    ensures before + leftover[..n] + (leftover[n..] + tail) == before + (leftover + tail)
  {
  }

  lemma TakeDrop(a: Octets, b: Octets)
    ensures (a + b)[..|a|] == a && (a + b)[|a|..] == b
  {
  }

  lemma ReadKeepsInStep(sent: Octets, received: Octets, rest: Octets, messages: seq<Octets>,
                        got: Octets, rest': Octets, messages': seq<Octets>)
    requires InStep(sent, received, rest, messages)
    requires NoneEmpty(messages) ==> NoneEmpty(messages')
    requires got + (rest' + Readable(messages')) == rest + Readable(messages)
    ensures InStep(sent, received + got, rest', messages')
    ensures NoneEmpty(messages)
  {
    assert sent == received + (rest + Readable(messages));
    assert received + got + rest' + Readable(messages') == received + (got + (rest' + Readable(messages')));
  }

  // ----- Frames -----

  function BigEndian(n: nat): Octets
    requires n < TWO_32
  {
    [n / 0x100_0000, n / 0x1_0000 % 0x100, n / 0x100 % 0x100, n % 0x100]
  }

  function FromBigEndian(b: Octets): nat
    requires |b| == 4
  {
    (b[0] as nat) * 0x100_0000 + (b[1] as nat) * 0x1_0000 + (b[2] as nat) * 0x100 + b[3]
  }

  /** The length is cut to 32 bits; the writer has no limit of its own. */
  function Frame(body: Octets): Octets {
    BigEndian(|body| % TWO_32) + body
  }

  function Frames(bodies: seq<Octets>): Octets {
    if bodies == [] then [] else Frame(bodies[0]) + Frames(bodies[1..])
  }

  /** The bodies that a reader gets out of a stream before its first error. */
  function Parsed(stream: Octets): seq<Octets>
    decreases |stream|
  {
    if |stream| < 4 then [] else
    var len := FromBigEndian(stream[..4]);
    if len > MAX_FRAME || len > |stream| - 4 then [] else [stream[4..4 + len]] + Parsed(stream[4 + len..])
  }

  lemma ParsedStep(stream: Octets)
    ensures Parsed(stream) ==
              if |stream| < 4 then [] else
              var len := FromBigEndian(stream[..4]);
              if len > MAX_FRAME || len > |stream| - 4 then [] else [stream[4..4 + len]] + Parsed(stream[4 + len..])
  {
  }

  lemma BigEndianRoundTrip(n: nat)
    requires n < TWO_32
    ensures |BigEndian(n)| == 4 && FromBigEndian(BigEndian(n)) == n
  {
  }

  /** The length stands in network order, most significant byte first. */
  lemma NetworkOrder(n: nat)
    requires n < TWO_32
    ensures var b := BigEndian(n); (((b[0] as nat) * 256 + b[1]) * 256 + b[2]) * 256 + b[3] == n
    ensures n < 256 ==> BigEndian(n) == [0, 0, 0, n]
  {
  }

  lemma HeaderOf(body: Octets, rest: Octets)
    ensures var s := Frame(body) + rest; |s| >= 4 && FromBigEndian(s[..4]) == |body| % TWO_32 && s[4..] == body + rest
  {
    var n := |body| % TWO_32;
    BigEndianRoundTrip(n);
    var s := Frame(body) + rest;
    assert s == BigEndian(n) + (body + rest);
    assert s[..4] == BigEndian(n);
  }

  lemma {:induction false} FrameComesBack(body: Octets, rest: Octets)
    requires |body| <= MAX_FRAME
    ensures Parsed(Frame(body) + rest) == [body] + Parsed(rest)
  {
    HeaderOf(body, rest);
    hide Frame, BigEndian, FromBigEndian;
    var s := Frame(body) + rest;
    assert s[4..4 + |body|] == s[4..][..|body|] == body;
    assert s[4 + |body|..] == s[4..][|body|..] == rest;
  }

  lemma {:induction false} ParsedBodiesFit(stream: Octets)
    ensures forall i | 0 <= i < |Parsed(stream)| :: |Parsed(stream)[i]| <= MAX_FRAME
    decreases |stream|
  {
    if |stream| >= 4 {
      var len := FromBigEndian(stream[..4]);
      if len <= MAX_FRAME && len <= |stream| - 4 {
        ParsedBodiesFit(stream[4 + len..]);
      }
    }
  }

  ghost predicate AllFit(bodies: seq<Octets>) {
    forall i | 0 <= i < |bodies| :: |bodies[i]| <= 16_777_216
  }

  lemma {:induction false} GoodFramesComeBack(good: seq<Octets>, rest: Octets)
    requires AllFit(good)
    ensures Parsed(Frames(good) + rest) == good + Parsed(rest)
  {
    if good == [] {
      assert Frames(good) + rest == rest;
    } else {
      GoodFramesComeBack(good[1..], rest);
      FrameComesBack(good[0], Frames(good[1..]) + rest);
      assert Frames(good) + rest == Frame(good[0]) + (Frames(good[1..]) + rest);
      assert good == [good[0]] + good[1..];
    }
  }

  /** What the writer of these bodies puts into the pipe. */
  function Written(bodies: seq<Octets>): seq<Octets> {
    if bodies == [] then [] else Chunks(Frame(bodies[0])) + Written(bodies[1..])
  }

  lemma {:induction false} WrittenIsFrames(bodies: seq<Octets>)
    ensures NoneEmpty(Written(bodies)) && Readable(Written(bodies)) == Frames(bodies)
  {
    if bodies != [] {
      WrittenIsFrames(bodies[1..]);
      ChunksAreWhole(Frame(bodies[0]));
      ReadableOfMore(Chunks(Frame(bodies[0])), Written(bodies[1..]));
    }
  }

  /** A sequence of bodies comes back unchanged through frames, chunks and reads exactly if each fits in a frame. */
  lemma {:induction false} FramedRoundTrip(bodies: seq<Octets>)
    ensures Parsed(Readable(Written(bodies))) == bodies <==> AllFit(bodies)
  {
    WrittenIsFrames(bodies);
    ParsedBodiesFit(Frames(bodies));
    if AllFit(bodies) {
      GoodFramesComeBack(bodies, []);
      assert Frames(bodies) + [] == Frames(bodies);
    }
  }

  /** At the first body above the limit the reader stops, and what was sent after it is lost too. */
  lemma {:induction false} OversizeStopsReader(good: seq<Octets>, big: Octets, rest: Octets)
    requires AllFit(good) && 16_777_216 < |big| < 0x1_0000_0000
    ensures Parsed(Frames(good) + Frame(big) + rest) == good
  {
    hide Frame, Frames, BigEndian, FromBigEndian;
    GoodFramesComeBack(good, Frame(big) + rest);
    HeaderOf(big, rest);
    assert Parsed(Frame(big) + rest) == [];
    assert Frames(good) + Frame(big) + rest == Frames(good) + (Frame(big) + rest);
  }

  class NoiseStream {
    const incoming: Pipe
    const outgoing: Pipe
    var readBuf: Octets
    var readPos: nat
    ghost var received: Octets

    ghost predicate Valid()
      reads this
    {
      readPos <= |readBuf| && incoming != outgoing
    }

    constructor (incoming: Pipe, outgoing: Pipe)
      requires incoming != outgoing
      ensures this.incoming == incoming && this.outgoing == outgoing
      ensures Valid() && Rest() == [] && received == []
    {
      this.incoming, this.outgoing := incoming, outgoing;
      readBuf, readPos, received := [], 0, [];
    }

    function Rest(): Octets
      requires readPos <= |readBuf|
      reads this
    {
      readBuf[readPos..]
    }

    /** The bytes that reads can return without meeting the end or an empty message. */
    function Available(): Octets
      requires readPos <= |readBuf|
      reads this, incoming
    {
      Rest() + Readable(incoming.messages)
    }

    ghost predicate Following()
      requires readPos <= |readBuf|
      reads this, incoming
    {
      InStep(incoming.sent, received, Rest(), incoming.messages)
    }

    method WriteMsg(payload: Octets) returns (r: Result<(), NoiseError>)
      modifies outgoing
      ensures r == if |payload| + 16 > 65535 then Err(TooLarge) else Ok(())
      ensures r.Ok? ==> outgoing.messages == old(outgoing.messages) + [payload]
      ensures r.Ok? ==> outgoing.sent == old(outgoing.sent) + payload
      ensures r.Err? ==> unchanged(outgoing)
    {
      if |payload| + TAG_LEN > MAX_NOISE_MSG {
        return Err(TooLarge);
      }
      outgoing.messages := outgoing.messages + [payload];
      outgoing.sent := outgoing.sent + payload;
      return Ok(());
    }

    method ReadMsg() returns (r: Result<Octets, NoiseError>)
      modifies incoming`messages
      ensures old(incoming.messages) == [] ==> r == Err(Closed) && incoming.messages == []
      ensures old(incoming.messages) != [] ==>
                r == Ok(old(incoming.messages)[0]) && incoming.messages == old(incoming.messages)[1..]
    {
      if incoming.messages == [] {
        return Err(Closed);
      }
      r := Ok(incoming.messages[0]);
      incoming.messages := incoming.messages[1..];
    }

    /** Never fails on size: the chunks leave four bytes to spare. */
    method WriteAll(data: Octets) returns (r: Result<(), NoiseError>)
      modifies outgoing
      ensures r == Ok(())
      ensures outgoing.messages == old(outgoing.messages) + Chunks(data)
      ensures outgoing.sent == old(outgoing.sent) + data
    {
      var off := 0;
      while off < |data|
        invariant off <= |data|
        invariant outgoing.messages + Chunks(data[off..]) == old(outgoing.messages) + Chunks(data)
        invariant outgoing.sent == old(outgoing.sent) + data[..off]
      {
        var end := if off + MAX_PLAIN < |data| then off + MAX_PLAIN else |data|;
        ChunksSnoc(data, off, end);
        assert data[..end] == data[..off] + data[off..end];
        r := WriteMsg(data[off..end]);
        if r.Err? {
          return r;
        }
        off := end;
      }
      assert data[..off] == data;
      return Ok(());
    }

    /** Copies leftover bytes into the buffer. */
    method TakeLeftover(buf: array<Byte>, at: nat) returns (n: nat)
      requires readPos < |readBuf| && at < buf.Length
      modifies this`readPos, buf
      ensures 0 < n && at + n <= buf.Length && readPos <= |readBuf|
      ensures buf[..at + n] + Available() == old(buf[..at]) + old(Available())
    {
      hide Readable;
      ghost var before, leftover := buf[..at], Rest();
      n := if |readBuf| - readPos < buf.Length - at then |readBuf| - readPos else buf.Length - at;
      forall i | 0 <= i < n {
        buf[at + i] := readBuf[readPos + i];
      }
      readPos := readPos + n;
      assert buf[..at + n] == before + leftover[..n] && Rest() == leftover[n..];
      Regroup(before, leftover, n, Readable(incoming.messages));
    }

    /** Replaces the used-up buffer by the next message. */
    method Refill() returns (r: Result<(), NoiseError>)
      requires readPos == |readBuf|
      modifies this`readBuf, this`readPos, incoming`messages
      ensures readPos <= |readBuf|
      ensures r.Ok? ==> Available() == old(Available()) && |incoming.messages| < |old(incoming.messages)|
      ensures r.Ok? ==> AfterStop(incoming.messages) == old(AfterStop(incoming.messages))
      ensures NoneEmpty(old(incoming.messages)) ==> NoneEmpty(incoming.messages)
      ensures r.Err? ==> r == Err(Closed) && old(Available()) == []
      ensures r.Err? ==> Rest() == [] && incoming.messages == old(AfterStop(incoming.messages))
    {
      var msg := ReadMsg();
      if msg.Err? {
        return Err(msg.error);
      }
      readBuf, readPos := msg.value, 0;
      if readBuf == [] {
        return Err(Closed);
      }
      return Ok(());
    }

    /** The loop of `ReadExact`. */
    method Fill(buf: array<Byte>) returns (r: Result<(), NoiseError>)
      requires readPos <= |readBuf|
      modifies this`readBuf, this`readPos, incoming`messages, buf
      ensures readPos <= |readBuf|
      ensures r.Ok? ==> old(Available()) == buf[..] + Available()
      ensures r.Ok? ==> AfterStop(incoming.messages) == old(AfterStop(incoming.messages))
      ensures NoneEmpty(old(incoming.messages)) ==> NoneEmpty(incoming.messages)
      ensures r == Ok(()) || (r == Err(Closed) && |old(Available())| < buf.Length)
      ensures r.Err? ==> buf[..|old(Available())|] == old(Available())
      ensures r.Err? ==> Rest() == [] && incoming.messages == old(AfterStop(incoming.messages))
    {
      hide *;
      var filled: nat := 0;
      ghost var all := Available();
      while filled < buf.Length
        invariant filled <= buf.Length && readPos <= |readBuf|
        invariant buf[..filled] + Available() == all
        invariant AfterStop(incoming.messages) == old(AfterStop(incoming.messages))
        invariant NoneEmpty(old(incoming.messages)) ==> NoneEmpty(incoming.messages)
        decreases |incoming.messages|, buf.Length - filled
      {
        if readPos < |readBuf| {
          var n := TakeLeftover(buf, filled);
          filled := filled + n;
        } else {
          r := Refill();
          if r.Err? {
            assert buf[..filled] == all;
            return;
          }
        }
      }
      assert buf[..filled] == buf[..];
      return Ok(());
    }

    /**
     Fills the buffer with the next bytes of the stream, whatever the boundaries of chunks and earlier reads,
     if there are enough of them. Otherwise takes all there are and stops past the empty message or the end.
     */
    method ReadExact(buf: array<Byte>) returns (r: Result<(), NoiseError>)
      requires Valid()
      modifies this, incoming`messages, buf
      ensures Valid()
      ensures r == if buf.Length <= |old(Available())| then Ok(()) else Err(Closed)
      ensures r.Ok? ==> buf[..] == old(Available())[..buf.Length] && Available() == old(Available())[buf.Length..]
      ensures r.Ok? ==> AfterStop(incoming.messages) == old(AfterStop(incoming.messages))
      ensures r.Err? ==> buf[..|old(Available())|] == old(Available())
      ensures r.Err? ==> Rest() == [] && incoming.messages == old(AfterStop(incoming.messages))
      ensures r.Ok? ==> received == old(received) + buf[..]
      ensures r.Ok? && old(Following()) ==> Following()
    {
      hide Readable, AfterStop, NoneEmpty, InStep;
      ghost var rest, messages := Rest(), incoming.messages;
      r := Fill(buf);
      if r.Ok? {
        TakeDrop(buf[..], Available());
        received := received + buf[..];
        if InStep(incoming.sent, old(received), rest, messages) {
          ReadKeepsInStep(incoming.sent, old(received), rest, messages, buf[..], Rest(), incoming.messages);
        }
      }
    }

    method WriteFrame(body: Octets) returns (r: Result<(), NoiseError>)
      modifies outgoing
      ensures r == Ok(())
      ensures outgoing.messages == old(outgoing.messages) + Chunks(Frame(body))
      ensures outgoing.sent == old(outgoing.sent) + Frame(body)
    {
      r := WriteAll(BigEndian(|body| % TWO_32) + body);
    }

    method ReadFrame() returns (r: Result<Octets, NoiseError>)
      requires Valid()
      modifies this, incoming`messages
      ensures Valid()
      ensures var s := old(Available());
              if |s| < 4 then r == Err(Closed)
              else var len := FromBigEndian(s[..4]);
                if len > MAX_FRAME then r == Err(TooLarge) && Available() == s[4..]
                else if len > |s| - 4 then r == Err(Closed)
                else r == Ok(s[4..4 + len]) && Available() == s[4 + len..]
      ensures r.Ok? && old(Following()) ==> Following()
    {
      hide Readable, InStep, NoneEmpty, AfterStop;
      ghost var s := Available();
      var lenBuf := new Byte[4];
      var got := ReadExact(lenBuf);
      if got.Err? {
        return Err(got.error);
      }
      assert lenBuf[..] == s[..4] && Available() == s[4..];
      var len := FromBigEndian(lenBuf[..]);
      if len > MAX_FRAME {
        return Err(TooLarge);
      }
      var body := new Byte[len];
      got := ReadExact(body);
      if got.Err? {
        return Err(got.error);
      }
      assert s[4..][..len] == s[4..4 + len] && s[4..][len..] == s[4 + len..];
      return Ok(body[..]);
    }

    /** The read loop of a connection: frames until the first error. */
    method ReadFrames() returns (bodies: seq<Octets>)
      requires Valid()
      modifies this, incoming`messages
      ensures Valid()
      ensures bodies == Parsed(old(Available()))
    {
      hide Readable, InStep, NoneEmpty, AfterStop, Parsed, FromBigEndian;
      bodies := [];
      ghost var stream := Available();
      while true
        invariant Valid() && bodies + Parsed(Available()) == Parsed(stream)
        decreases |Available()|
      {
        ghost var left := Available();
        var r := ReadFrame();
        ParsedStep(left);
        if r.Err? {
          return;
        }
        assert bodies + Parsed(left) == bodies + [r.value] + Parsed(Available());
        bodies := bodies + [r.value];
      }
    }
  }
}
