/** The message format of `imsg.rs`: header, framing of the byte stream, and sending. */
module Imsg {
  import opened Bytes
  import opened Kernel

  const HEADER_LENGTH: nat := 16
  const BUFFER_LENGTH: nat := 0xffff
  const RESERVED: u32 := 10

  datatype Header = Header(id: u32, length: u16, flags: u16, peerId: u32, pid: i32)

  function NewHeader(id: u32, pid: i32): Header {
    Header(id, HEADER_LENGTH, 0, 0, pid)
  }

  function ConnectHeader(peer: nat, pid: i32): Header {
    NewHeader(1, pid).(peerId := peer % 0x1_0000_0000)
  }

  // ---- The header as bytes ----

  function EncodeHeader(h: Header): (b: seq<byte>)
    ensures |b| == HEADER_LENGTH
  {
    ToBytes(h.id, 4) + ToBytes(h.length, 2) + ToBytes(h.flags, 2) + ToBytes(h.peerId, 4) + IntToBytes(h.pid)
  }

  function DecodeHeader(b: seq<byte>): Header
    requires |b| == HEADER_LENGTH
  {
    Widths();
    ToFromBytes(b[..4]);
    ToFromBytes(b[4..6]);
    ToFromBytes(b[6..8]);
    ToFromBytes(b[8..12]);
    Header(FromBytes(b[..4]), FromBytes(b[4..6]), FromBytes(b[6..8]), FromBytes(b[8..12]), IntFromBytes(b[12..]))
  }

  lemma HeaderRoundTrip(h: Header)
    ensures DecodeHeader(EncodeHeader(h)) == h
  {
    var b := EncodeHeader(h);
    assert b[..4] == ToBytes(h.id, 4) && b[4..6] == ToBytes(h.length, 2) && b[6..8] == ToBytes(h.flags, 2);
    assert b[8..12] == ToBytes(h.peerId, 4) && b[12..] == IntToBytes(h.pid);
    Widths();
    FromToBytes(h.id, 4);
    FromToBytes(h.length, 2);
    FromToBytes(h.flags, 2);
    FromToBytes(h.peerId, 4);
    IntRoundTrip(h.pid);
  }

  /** Every sixteen bytes are some header: the receiver's copy cannot fail. */
  lemma HeaderBytesRoundTrip(b: seq<byte>)
    requires |b| == HEADER_LENGTH
    ensures EncodeHeader(DecodeHeader(b)) == b
  {
    ToFromBytes(b[..4]);
    ToFromBytes(b[4..6]);
    ToFromBytes(b[6..8]);
    ToFromBytes(b[8..12]);
    IntBytesRoundTrip(b[12..]);
    assert b == b[..4] + b[4..6] + b[6..8] + b[8..12] + b[12..];
  }

  /** Little-endian fields without padding, in the order of the C struct. */
  lemma HeaderLayout(h: Header)
    ensures var b := EncodeHeader(h);
      && (forall i :: 0 <= i < 4 ==> b[i] == h.id / Pow256(i) % 256)
      && (forall i :: 0 <= i < 2 ==> b[4 + i] == h.length / Pow256(i) % 256)
      && (forall i :: 0 <= i < 2 ==> b[6 + i] == h.flags / Pow256(i) % 256)
      && (forall i :: 0 <= i < 4 ==> b[8 + i] == h.peerId / Pow256(i) % 256)
      && (forall i :: 0 <= i < 4 ==> b[12 + i] == (h.pid % 0x1_0000_0000) / Pow256(i) % 256)
  {
    var b := EncodeHeader(h);
    forall i | 0 <= i < 4
      ensures b[i] == h.id / Pow256(i) % 256 && b[8 + i] == h.peerId / Pow256(i) % 256
      ensures b[12 + i] == (h.pid % 0x1_0000_0000) / Pow256(i) % 256
    {
      ByteAt(h.id, 4, i);
      ByteAt(h.peerId, 4, i);
      ByteAt(Unsigned(h.pid), 4, i);
    }
    forall i | 0 <= i < 2
      ensures b[4 + i] == h.length / Pow256(i) % 256 && b[6 + i] == h.flags / Pow256(i) % 256
    {
      ByteAt(h.length, 2, i);
      ByteAt(h.flags, 2, i);
    }
  }

  // ---- Splitting frames off a buffer ----

  datatype Cut = Cut(header: Header, frame: seq<byte>, rest: seq<byte>)

  /** The check at the top of the receive loop, and `split_to`. */
  function Split(buf: seq<byte>): (r: Option<Cut>)
    ensures r.Some? ==> buf == r.value.frame + r.value.rest
  {
    if |buf| < HEADER_LENGTH then None
    else
      var header := DecodeHeader(buf[..HEADER_LENGTH]);
      if |buf| < header.length then None
      else Some(Cut(header, buf[..header.length], buf[header.length..]))
  }

  /** A byte string whose own header gives its length. */
  predicate IsFrame(f: seq<byte>) {
    HEADER_LENGTH <= |f| && DecodeHeader(f[..HEADER_LENGTH]).length == |f|
  }

  ghost predicate AreFrames(fs: seq<seq<byte>>) {
    forall i :: 0 <= i < |fs| ==> IsFrame(fs[i])
  }

  function Frame(h: Header, payload: seq<byte>): seq<byte> {
    EncodeHeader(h) + payload
  }

  /** However much of the stream has arrived, only its first frame can be split off, whole. */
  lemma SplitStream(buf: seq<byte>, unread: seq<byte>, f: seq<byte>, tail: seq<byte>)
    requires IsFrame(f) && buf + unread == f + tail
    ensures |buf| < |f| ==> Split(buf) == None
    ensures |f| <= |buf| ==> Split(buf) == Some(Cut(DecodeHeader(f[..HEADER_LENGTH]), f, buf[|f|..]))
    ensures |f| <= |buf| ==> buf[|f|..] + unread == tail
  {
    if HEADER_LENGTH <= |buf| {
      assert buf[..HEADER_LENGTH] == (buf + unread)[..HEADER_LENGTH] == f[..HEADER_LENGTH];
    }
    if |f| <= |buf| {
      assert buf[..|f|] == (buf + unread)[..|f|] == f;
      assert buf[|f|..] + unread == (buf + unread)[|f|..] == tail;
    }
  }

  /** With nothing to split off, the buffer is shorter than the largest message. */
  lemma IncompleteIsShort(buf: seq<byte>)
    requires Split(buf) == None
    ensures |buf| < BUFFER_LENGTH
  {
  }

  // ---- The payload ----

  /** The serializer: partial both ways. */
  datatype Codec<!T> = Codec(encode: T -> Option<seq<byte>>, decode: seq<byte> -> Option<T>)

  ghost predicate Lawful<T(!new)>(codec: Codec<T>) {
    forall x :: codec.encode(x).Some? ==> codec.decode(codec.encode(x).value) == Some(x)
  }

  /** What the receiver deserializes once a frame has been split off. */
  function PayloadOf(frame: seq<byte>): seq<byte> {
    if HEADER_LENGTH < |frame| then frame[HEADER_LENGTH..] else []
  }

  // ---- Sending ----

  datatype SendResult = Sent | Reserved | Closed | Unserializable | TooLong | IoError | ShortMessage

  /** The outcome of a send, and the segment it leaves on the stream if any. */
  datatype Sending = Sending(result: SendResult, segment: Option<Segment<i32>>)

  function Prepare(h: Header, pid: i32, data: seq<byte>): Option<Header> {
    var total := |data| + h.length;
    if total < 0x1_0000 then Some(h.(pid := pid, length := total)) else None
  }

  function FdList<F>(fd: Option<F>): (fds: seq<F>)
    ensures |fds| <= 1
  {
    if fd.Some? then [fd.value] else []
  }

  /** `send_message_internal`; `answer` is what `sendmsg` reports: an error, or a byte count. */
  function Send(shutdown: bool, h: Header, data: Option<seq<byte>>, fd: Option<i32>, pid: i32, answer: Option<nat>)
    : (r: Sending)
    requires data.Some? && answer.Some? ==> 0 < answer.value <= HEADER_LENGTH + |data.value|
  {
    if shutdown then Sending(Closed, None)
    else if data.None? then Sending(Unserializable, None)
    else
      match Prepare(h, pid, data.value)
      case None => Sending(TooLong, None)
      case Some(header) =>
        if answer.None? then Sending(IoError, None)
        else
          var segment := Segment(Frame(header, data.value)[..answer.value], FdList(fd));
          Sending(if answer.value == header.length then Sent else ShortMessage, Some(segment))
  }

  predicate Fits(h: Header, data: Option<seq<byte>>) {
    data.Some? && |data.value| + h.length < 0x1_0000
  }

  /**
   * Which error comes first, and that nothing reaches the stream unless the kernel reports bytes
   * written: only a send on an open handler, of a payload that serializes and fits, can succeed.
   */
  lemma SendOutcomes(shutdown: bool, h: Header, data: Option<seq<byte>>, fd: Option<i32>, pid: i32, answer: Option<nat>)
    requires data.Some? && answer.Some? ==> 0 < answer.value <= HEADER_LENGTH + |data.value|
    ensures var r := Send(shutdown, h, data, fd, pid, answer);
      && (r.result == Closed <==> shutdown)
      && (r.result == Unserializable <==> !shutdown && data.None?)
      && (r.result == TooLong <==> !shutdown && data.Some? && !Fits(h, data))
      && (r.result == IoError <==> !shutdown && Fits(h, data) && answer.None?)
      && (r.result in {Sent, ShortMessage} <==> !shutdown && Fits(h, data) && answer.Some?)
      && (r.result == Sent ==> answer == Some(|data.value| + h.length))
      && (r.segment.Some? <==> !shutdown && Fits(h, data) && answer.Some?)
      && (r.segment.Some? ==> |r.segment.value.bytes| == answer.value && r.segment.value.fds == FdList(fd))
  {
  }

  /**
   * A send that starts from a header whose length field is at least 16 succeeds exactly when
   * that field was 16 and the kernel took everything; it then has put one whole frame on the
   * stream, with the sender's pid, the true length, and all else as given.
   */
  lemma SentIffWholeFrame(h: Header, data: seq<byte>, fd: Option<i32>, pid: i32, count: nat)
    requires h.length >= HEADER_LENGTH && 0 < count <= HEADER_LENGTH + |data|
    ensures var r := Send(false, h, Some(data), fd, pid, Some(count));
      && (r.result == Sent <==>
            h.length == HEADER_LENGTH && HEADER_LENGTH + |data| < 0x1_0000 && count == HEADER_LENGTH + |data|)
      && (r.result == Sent ==>
            var whole := Frame(h.(pid := pid, length := HEADER_LENGTH + |data|), data);
            r.segment == Some(Segment(whole, FdList(fd))) && IsFrame(whole))
  {
    var r := Send(false, h, Some(data), fd, pid, Some(count));
    if r.result == Sent {
      var h' := h.(pid := pid, length := HEADER_LENGTH + |data|);
      assert Prepare(h, pid, data) == Some(h');
      assert Frame(h', data)[..count] == Frame(h', data);
      FrameIsFrame(h', data);
    }
  }

  /**
   * On any other outcome the receiver loses track: what a send leaves on the stream is a frame
   * exactly when the send succeeded, having written a whole header.
   */
  lemma FrameIffSent(h: Header, data: seq<byte>, fd: Option<i32>, pid: i32, count: nat)
    requires 0 < count <= HEADER_LENGTH + |data|
    ensures var r := Send(false, h, Some(data), fd, pid, Some(count));
      && (r.segment.Some? ==>
            (IsFrame(r.segment.value.bytes) <==> r.result == Sent && HEADER_LENGTH <= count))
      && (r.segment.Some? && HEADER_LENGTH <= h.length ==>
            (IsFrame(r.segment.value.bytes) <==> r.result == Sent))
  {
    var r := Send(false, h, Some(data), fd, pid, Some(count));
    if r.segment.Some? && HEADER_LENGTH <= count {
      var header := Prepare(h, pid, data).value;
      assert r.segment.value.bytes[..HEADER_LENGTH] == EncodeHeader(header);
      HeaderRoundTrip(header);
    }
  }

  /**
   * Why the length field must start at 16: from a smaller one, `Ok` is returned exactly when
   * the kernel cut the message short by the difference.
   */
  lemma SmallerLengthFieldSendsAPart(h: Header, data: seq<byte>, fd: Option<i32>, pid: i32, count: nat)
    requires h.length < HEADER_LENGTH && 0 < count <= HEADER_LENGTH + |data| < 0x1_0000
    ensures var r := Send(false, h, Some(data), fd, pid, Some(count));
      && (r.result == Sent <==> count == HEADER_LENGTH + |data| - (HEADER_LENGTH - h.length))
      && (r.result == Sent ==> |r.segment.value.bytes| < HEADER_LENGTH + |data|)
  {
  }

  lemma FrameIsFrame(h: Header, payload: seq<byte>)
    requires h.length == HEADER_LENGTH + |payload|
    ensures IsFrame(Frame(h, payload))
    ensures Split(Frame(h, payload)) == Some(Cut(h, Frame(h, payload), []))
  {
    var f := Frame(h, payload);
    assert f[..HEADER_LENGTH] == EncodeHeader(h);
    HeaderRoundTrip(h);
    assert f[..|f|] == f && f[|f|..] == [];
  }

  /** What was sent is what the other side decodes. */
  lemma SendReceiveRoundTrip<T(!new)>(codec: Codec<T>, x: T, h: Header, fd: Option<i32>, pid: i32, count: nat)
    requires Lawful(codec) && codec.encode(x).Some? && h.length >= HEADER_LENGTH
    requires 0 < count <= HEADER_LENGTH + |codec.encode(x).value|
    requires Send(false, h, codec.encode(x), fd, pid, Some(count)).result == Sent
    ensures var cut := Split(Send(false, h, codec.encode(x), fd, pid, Some(count)).segment.value.bytes);
      && cut.Some? && cut.value.rest == []
      && cut.value.header == h.(pid := pid, length := HEADER_LENGTH + |codec.encode(x).value|)
      && codec.decode(PayloadOf(cut.value.frame)) == Some(x)
  {
    var data := codec.encode(x).value;
    SentIffWholeFrame(h, data, fd, pid, count);
    var h' := h.(pid := pid, length := HEADER_LENGTH + |data|);
    FrameIsFrame(h', data);
    assert Frame(h', data)[HEADER_LENGTH..] == data;
  }

  /** What `Message::new` and `Message::connect` put into a header, as the other side gets it. */
  lemma NewMessageArrives<T(!new)>(codec: Codec<T>, x: T, id: u32, peer: u32, fd: Option<i32>, creator: i32, pid: i32)
    requires Lawful(codec) && codec.encode(x).Some? && HEADER_LENGTH + |codec.encode(x).value| < 0x1_0000
    ensures var data := codec.encode(x).value;
      var plain := Send(false, NewHeader(id, creator), Some(data), fd, pid, Some(HEADER_LENGTH + |data|));
      var connect := Send(false, ConnectHeader(peer, creator), Some(data), fd, pid, Some(HEADER_LENGTH + |data|));
      && plain.result == Sent && connect.result == Sent
      && Arrives(codec, plain.segment.value.bytes, Header(id, HEADER_LENGTH + |data|, 0, 0, pid), x)
      && Arrives(codec, connect.segment.value.bytes, Header(1, HEADER_LENGTH + |data|, 0, peer, pid), x)
  {
    var data := codec.encode(x).value;
    var count := HEADER_LENGTH + |data|;
    SentIffWholeFrame(NewHeader(id, creator), data, fd, pid, count);
    SentIffWholeFrame(ConnectHeader(peer, creator), data, fd, pid, count);
    SendReceiveRoundTrip(codec, x, NewHeader(id, creator), fd, pid, count);
    SendReceiveRoundTrip(codec, x, ConnectHeader(peer, creator), fd, pid, count);
  }

  /** These bytes are one message with this header and payload. */
  ghost predicate Arrives<T>(codec: Codec<T>, bytes: seq<byte>, h: Header, x: T) {
    var cut := Split(bytes);
    cut.Some? && cut.value.rest == [] && cut.value.header == h && codec.decode(PayloadOf(cut.value.frame)) == Some(x)
  }

  /** A fresh header is what its creator would send with an empty payload. */
  lemma NewHeaderIsComplete(id: u32, pid: i32)
    ensures Prepare(NewHeader(id, pid), pid, []) == Some(NewHeader(id, pid))
    ensures NewHeader(id, pid).flags == 0 && NewHeader(id, pid).peerId == 0
  {
  }

  /**
   * Sending a received header back (the example services do) works exactly for messages that
   * carried no payload.  Otherwise the length field accumulates: the send reports a short
   * message although every byte was written, and what it wrote is not a frame.
   */
  lemma EchoIffUnitPayload(received: Cut, data: seq<byte>, fd: Option<i32>, pid: i32)
    requires IsFrame(received.frame) && received.header == DecodeHeader(received.frame[..HEADER_LENGTH])
    requires |data| + received.header.length < 0x1_0000
    ensures var r := Send(false, received.header, Some(data), fd, pid, Some(HEADER_LENGTH + |data|));
      && (r.result == Sent <==> PayloadOf(received.frame) == [])
      && r.segment.Some?
      && (IsFrame(r.segment.value.bytes) <==> PayloadOf(received.frame) == [])
      && (PayloadOf(received.frame) == [] && data == [] ==>
            Split(r.segment.value.bytes) == Some(Cut(received.header.(pid := pid), r.segment.value.bytes, [])))
  {
    var count := HEADER_LENGTH + |data|;
    SentIffWholeFrame(received.header, data, fd, pid, count);
    var h' := Prepare(received.header, pid, data).value;
    var f := Frame(h', data);
    assert f[..count] == f && f[..HEADER_LENGTH] == EncodeHeader(h');
    HeaderRoundTrip(h');
    if data == [] && PayloadOf(received.frame) == [] {
      FrameIsFrame(h', data);
    }
  }

  /** A message without payload, sent back by a service that answers with the header it got. */
  function Echo(received: Cut, pid: i32): Option<Cut> {
    var r := Send(false, received.header, Some([]), None, pid, Some(HEADER_LENGTH));
    if r.result == Sent then Split(r.segment.value.bytes) else None
  }

  function Echoes(received: Cut, pids: seq<i32>): Option<Cut>
    decreases |pids|
  {
    if pids == [] then Some(received)
    else
      match Echo(received, pids[0])
      case None => None
      case Some(answer) => Echoes(answer, pids[1..])
  }

  ghost predicate IsUnit(received: Cut) {
    && IsFrame(received.frame) && received.header == DecodeHeader(received.frame[..HEADER_LENGTH])
    && PayloadOf(received.frame) == []
  }

  lemma EchoOnce(received: Cut, pid: i32)
    requires IsUnit(received)
    ensures var next := Echo(received, pid);
      next.Some? && IsUnit(next.value) && next.value.header == received.header.(pid := pid)
  {
    EchoIffUnitPayload(received, [], None, pid);
    var bytes := Send(false, received.header, Some([]), None, pid, Some(HEADER_LENGTH)).segment.value.bytes;
    assert |bytes| == HEADER_LENGTH;
  }

  lemma EchoesStep(received: Cut, pids: seq<i32>, answer: Cut)
    requires pids != [] && Echo(received, pids[0]) == Some(answer)
    ensures Echoes(received, pids) == Echoes(answer, pids[1..])
  {
  }

  /** It can go back and forth forever: only the pid changes. */
  lemma {:induction false} EchoesForever(received: Cut, pids: seq<i32>)
    requires IsUnit(received)
    ensures var last := Echoes(received, pids);
      && last.Some? && IsUnit(last.value)
      && last.value.header == received.header.(pid := if pids == [] then received.header.pid else pids[|pids| - 1])
    decreases |pids|
  {
    if pids != [] {
      EchoOnce(received, pids[0]);
      var answer := Echo(received, pids[0]).value;
      EchoesStep(received, pids, answer);
      EchoesForever(answer, pids[1..]);
    }
  }
}
