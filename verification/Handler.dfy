/** The `imsg` handler object: both directions of a socket pair, and the read buffer. */
module Handler {
  import opened Bytes
  import opened Kernel
  import opened Imsg
  import opened Receivers
  import Drift
  import Schedules
  import Ancillary
  import ControlBuffer

  const CONTROL_LENGTH: nat := 128

  /** One direction of a socket pair. */
  class Stream {
    var segments: seq<Segment<i32>>

    constructor ()
      ensures segments == []
    {
      segments := [];
    }
  }

  /** What the environment does while a receive waits: segments arrive, then the read reports. */
  datatype Await =
    | Ready(arrived: seq<Segment<i32>>, size: nat)
    | EndOfStream
    | ReadError

  datatype Received<T> =
    | Message(header: Header, fd: Option<i32>, value: T)
    | NoMoreMessages
    | HandlerClosed
    | ReadFailed
    | Undecodable
    | Dropped  // the future was dropped at the await

  ghost predicate Deliverable(segments: seq<Segment<i32>>) {
    forall i :: 0 <= i < |segments| ==> segments[i].bytes != [] && |segments[i].fds| <= MAX_FDS
  }

  ghost predicate Bounded(queue: seq<Segment<i32>>) {
    forall i :: 0 <= i < |queue| ==> |queue[i].fds| <= MAX_FDS
  }

  ghost function Arrivals(segments: seq<Segment<i32>>): seq<Event<i32>> {
    if segments == [] then [] else Arrivals(segments[..|segments| - 1]) + [Arrive(segments[|segments| - 1])]
  }

  lemma {:induction false} ArrivalsRun(s: Net<i32>, segments: seq<Segment<i32>>)
    requires Live(s.queue) && Deliverable(segments)
    ensures Run(s, Arrivals(segments)) == Some(s.(sent := s.sent + segments, queue := s.queue + segments))
  {
    if segments == [] {
      assert s.sent + segments == s.sent && s.queue + segments == s.queue;
    } else {
      var init, last := segments[..|segments| - 1], segments[|segments| - 1];
      ArrivalsRun(s, init);
      Drift.RunStep(s, Arrivals(init), Arrive(last));
      assert segments == init + [last];
      Assoc(s.sent, init, [last]);
      Assoc(s.queue, init, [last]);
    }
  }

  lemma BoundedAfterTake(queue: seq<Segment<i32>>, n: nat)
    requires Live(queue) && 0 < n <= Reach(queue) && Bounded(queue)
    ensures |Take(queue, n).fds| <= MAX_FDS && Bounded(Take(queue, n).rest)
  {
    var last := TakeShape(queue, n);
    var rest := Take(queue, n).rest;
    forall i | 0 <= i < |rest| ensures |rest[i].fds| <= MAX_FDS {
      if rest == queue[last + 1..] {
        assert rest[i] == queue[last + 1 + i];
      } else if rest == queue[last..] {
        assert rest[i] == queue[last + i];
      } else if i > 0 {
        assert rest[i] == rest[1..][i - 1] == queue[last + 1 + (i - 1)];
      }
    }
  }

  class Handler {
    const input: Stream
    const output: Stream
    var shutdown: bool
    var readBuffer: seq<byte>
    ghost var net: Net<i32>  // the receiving side, as a state of the step system

    ghost predicate Valid()
      reads this, input
    {
      && net.queue == input.segments && net.buf == readBuffer
      && Live(net.queue) && Bounded(net.queue)
    }

    constructor (input: Stream, output: Stream, ghost receivers: nat)
      requires input.segments == []
      ensures Valid() && this.input == input && this.output == output && !shutdown
      ensures net == Start(receivers)
    {
      this.input, this.output := input, output;
      shutdown, readBuffer := false, [];
      net := Start(receivers);
    }

    // ---- Sending ----

    /** `send_message`: the reserved ids are for the library. */
    method SendMessage(message: Header, fd: Option<i32>, data: Option<seq<byte>>, pid: i32, answer: Option<nat>)
      returns (r: SendResult)
      requires data.Some? && answer.Some? ==> 0 < answer.value <= HEADER_LENGTH + |data.value|
      modifies output
      ensures r == Reserved <==> message.id < 10
      ensures r == Reserved ==> output.segments == old(output.segments)
      ensures message.id >= 10 ==>
        var sending := Send(shutdown, message, data, fd, pid, answer);
        r == sending.result && output.segments == old(output.segments) + FdList(sending.segment)
    {
      if message.id < RESERVED {
        return Reserved;
      }
      r := SendMessageInternal(message, fd, data, pid, answer);
    }

    /** `send_message_internal`: the descriptor travels through a control buffer of 128 bytes. */
    method SendMessageInternal(message: Header, fd: Option<i32>, data: Option<seq<byte>>, pid: i32, answer: Option<nat>)
      returns (r: SendResult)
      requires data.Some? && answer.Some? ==> 0 < answer.value <= HEADER_LENGTH + |data.value|
      modifies output
      ensures var sending := Send(shutdown, message, data, fd, pid, answer);
        r == sending.result && output.segments == old(output.segments) + FdList(sending.segment)
      ensures r == Sent ==> !shutdown && Fits(message, data) && answer.Some?
      ensures shutdown || !Fits(message, data) || answer.None? ==> output.segments == old(output.segments)
    {
      if shutdown {
        return Closed;
      }
      if data.None? {
        return Unserializable;
      }
      var length := |data.value| + message.length;
      if length >= 0x1_0000 {
        return TooLong;
      }
      var header := message.(pid := pid, length := length);
      var bytes := EncodeHeader(header) + data.value;

      var buffer := new byte[CONTROL_LENGTH](_ => 0);
      var ancillary := new ControlBuffer.SocketAncillary(Ancillary.LINUX, buffer);
      if fd.Some? {
        // One descriptor always fits, so the source's error return for a full buffer is dead.
        var added := ancillary.AddFds([fd.value]);
        assert added;
      }
      if answer.None? {
        return IoError;
      }
      var attached := KernelAttaches(ancillary, fd);
      output.segments := output.segments + [Segment(bytes[..answer.value], attached)];
      if answer.value != length {
        return ShortMessage;
      }
      r := Sent;
    }

    // ---- Receiving ----

    /** The await in the receive loop, once the read reports data (or still nothing, if none came). */
    method ReadOnce(t: nat, fdResult: Option<i32>, arrived: seq<Segment<i32>>, size: nat)
      returns (fdResult': Option<i32>, ghost events: seq<Event<i32>>)
      requires Valid() && Deliverable(arrived) && Split(readBuffer) == None
      requires t < |net.tasks| && net.tasks[t] == Waiting(fdResult)
      modifies this`readBuffer, this`net, input
      ensures Valid() && Run(old(net), events) == Some(net)
      ensures net == AfterRead(old(net), t, arrived, size)
      ensures net.tasks[t] == Waiting(fdResult')
    {
      input.segments := input.segments + arrived;
      events := Arrivals(arrived);
      ArrivalsRun(net, arrived);
      net := net.(sent := net.sent + arrived, queue := net.queue + arrived);
      fdResult' := fdResult;

      if Fill(input.segments, BUFFER_LENGTH) == 0 {
        return;
      }
      var length := ReadSize(input.segments, size);
      var read := Take(input.segments, length);
      BoundedAfterTake(input.segments, length);
      TakeConserves(input.segments, length);
      input.segments := read.rest;
      readBuffer := readBuffer + read.bytes;
      var fds := ReceiveControl(read.fds);
      var surplus;
      fdResult', surplus := KeepFirst(fdResult, fds);

      Drift.RunStep(old(net), events, Poll(t, length, true));
      events := events + [Poll(t, length, true)];
      net := ReadMore(net, t, length);
    }

    /** `recv_message`, as receive future t, until it returns or is dropped, having used some awaits. */
    method RecvMessage<T>(codec: Codec<T>, t: nat, awaits: seq<Await>)
      returns (r: Received<T>, ghost events: seq<Event<i32>>, ghost used: nat)
      requires Valid() && t < |net.tasks| && net.tasks[t].Idle? && AllDeliverable(awaits)
      modifies this`readBuffer, this`net, input
      ensures Valid() && Run(old(net), events) == Some(net)
      ensures t < |net.tasks| && net.tasks[t].Idle?
      ensures shutdown <==> r.HandlerClosed?
      ensures shutdown ==> used == 0 && net == old(net)
      ensures !shutdown ==> ReceiveOutcome(codec, old(net), t, awaits, used, net, r)
      ensures used <= |awaits| && net.sent == old(net.sent) + ArrivedIn(awaits, used)
      ensures r.Dropped? ==> used == |awaits|
      ensures r.NoMoreMessages? ==> used < |awaits| && awaits[used].EndOfStream?
      ensures r.ReadFailed? ==> used < |awaits| && awaits[used].ReadError?
    {
      events, used := [], 0;
      if shutdown {
        return HandlerClosed, events, used;
      }
      ghost var start := net;
      ghost var more;
      net := net.(tasks := net.tasks[t := Waiting(None)]);
      var complete, message, received, fdResult, next;
      complete, message, received, fdResult, next, more := AwaitMessage(t, awaits, start);
      used := next;

      if !complete {
        EndsWithout(codec, start, t, awaits, next, net);
        RunAround(start, t, more, net, Abandon(t));
        events, net := [Begin(t)] + more + [Abandon(t)], GivenUp(net, t);
        return if next == |awaits| then Dropped else if awaits[next].EndOfStream? then NoMoreMessages else ReadFailed,
               events, used;
      }
      ghost var cut := Cut(message, received, readBuffer[message.length..]);
      readBuffer := readBuffer[message.length..];
      var payload := if HEADER_LENGTH < message.length then received[HEADER_LENGTH..message.length] else [];
      var value := codec.decode(payload);
      assert payload == PayloadOf(received);
      EndsWith(codec, start, t, awaits, next, net, cut);
      RunAround(start, t, more, net, Poll(t, 0, value.Some?));
      events := [Begin(t)] + more + [Poll(t, 0, value.Some?)];
      net := Complete(net, t, cut, value.Some?);
      r := if value.Some? then Message(message, fdResult, value.value) else Undecodable;
    }

    /** The loop of `recv_message`: until there is a complete message, or the socket has no more. */
    method AwaitMessage(t: nat, awaits: seq<Await>, ghost start: Net<i32>)
      returns (complete: bool, message: Header, received: seq<byte>, fdResult: Option<i32>, next: nat,
               ghost events: seq<Event<i32>>)
      requires Valid() && Waited(start, t, awaits, 0, net)
      modifies this`readBuffer, this`net, input
      ensures Valid() && Run(old(net), events) == Some(net)
      ensures Waited(start, t, awaits, next, net)
      ensures t < |net.tasks| && net.tasks[t] == Waiting(fdResult)
      ensures complete ==> IsComplete(message, received)
      ensures !complete ==> Split(readBuffer) == None && (next < |awaits| ==> !awaits[next].Ready?)
    {
      events, next, fdResult := [], 0, None;
      complete, message, received := TakeComplete();
      while !complete
        invariant Valid() && next <= |awaits|
        invariant Run(old(net), events) == Some(net)
        invariant Waited(start, t, awaits, next, net)
        invariant t < |net.tasks| && net.tasks[t] == Waiting(fdResult)
        invariant complete ==> IsComplete(message, received)
        invariant !complete ==> Split(readBuffer) == None
        decreases |awaits| - next, !complete
      {
        if next == |awaits| || !awaits[next].Ready? {
          return;
        }
        AnotherAwait(start, t, awaits, next, net);
        ghost var more;
        fdResult, more := ReadOnce(t, fdResult, awaits[next].arrived, awaits[next].size);
        RunAppend(old(net), events, more);
        events := events + more;
        next := next + 1;
        complete, message, received := TakeComplete();
      }
    }

    ghost predicate IsComplete(message: Header, received: seq<byte>)
      reads this
    {
      && |received| == message.length <= |readBuffer|
      && Split(readBuffer) == Some(Cut(message, received, readBuffer[message.length..]))
    }

    /** The look at the buffer at the top of the loop. */
    method TakeComplete() returns (complete: bool, message: Header, received: seq<byte>)
      ensures complete ==> IsComplete(message, received)
      ensures !complete ==> Split(readBuffer) == None
    {
      complete, message, received := false, Header(0, 0, 0, 0, 0), [];
      if HEADER_LENGTH <= |readBuffer| {
        message := DecodeHeader(readBuffer[..HEADER_LENGTH]);
        if message.length <= |readBuffer| {
          complete, received := true, readBuffer[..message.length];
        }
      }
    }
  }

  ghost predicate AllDeliverable(awaits: seq<Await>) {
    forall i :: 0 <= i < |awaits| && awaits[i].Ready? ==> Deliverable(awaits[i].arrived)
  }

  /** The read is as large as asked for, within what the kernel has and the buffer holds. */
  function ReadSize(queue: seq<Segment<i32>>, size: nat): (n: nat)
    ensures n <= Fill(queue, BUFFER_LENGTH)
    ensures Fill(queue, BUFFER_LENGTH) > 0 ==> n > 0
  {
    if size == 0 || Fill(queue, BUFFER_LENGTH) < size then Fill(queue, BUFFER_LENGTH) else size
  }

  /** The system after one await: the arrivals, and a read if there is anything to read. */
  ghost function AfterRead(s: Net<i32>, t: nat, arrived: seq<Segment<i32>>, size: nat): (r: Net<i32>)
    requires Waits(s, t) && Live(s.queue) && Deliverable(arrived)
    ensures Waits(r, t) && Live(r.queue)
  {
    var a := s.(sent := s.sent + arrived, queue := s.queue + arrived);
    if Fill(a.queue, BUFFER_LENGTH) == 0 then a
    else
      TakeConserves(a.queue, ReadSize(a.queue, size));
      ReadMore(a, t, ReadSize(a.queue, size))
  }

  /** An await after which anything is in the socket has read some of it, and what it has read is in order. */
  lemma AwaitReads(s: Net<i32>, t: nat, arrived: seq<Segment<i32>>, size: nat)
    requires Waits(s, t) && Live(s.queue) && Deliverable(arrived)
    ensures var r := AfterRead(s, t, arrived, size);
      && r.sent == s.sent + arrived && r.done == s.done && s.buf <= r.buf
      && r.buf + Data(r.queue) == s.buf + Data(s.queue + arrived)
      && (s.queue + arrived != [] ==> |s.buf| < |r.buf|)
  {
    var queue := s.queue + arrived;
    if queue != [] {
      LiveReach(queue);
      var n := ReadSize(queue, size);
      TakeConserves(queue, n);
      Assoc(s.buf, Take(queue, n).bytes, Data(Take(queue, n).rest));
    }
  }

  /** The reader's share of an empty socket: a message that arrives in one piece is complete at once. */
  lemma OneReadIsEnough(s: Net<i32>, t: nat, segment: Segment<i32>)
    requires Waits(s, t) && s.queue == [] && s.buf == [] && IsFrame(segment.bytes) && |segment.fds| <= MAX_FDS
    ensures var r := AfterRead(s, t, [segment], 0);
      && Split(r.buf) == Some(Cut(DecodeHeader(segment.bytes[..HEADER_LENGTH]), segment.bytes, []))
      && r.tasks[t].fd == Keep(s.tasks[t].fd, segment.fds)
  {
    var queue := [segment];
    assert s.queue + [segment] == queue && queue[1..] == [];
    assert |segment.bytes| == DecodeHeader(segment.bytes[..HEADER_LENGTH]).length <= BUFFER_LENGTH;
    assert Reach(queue) == |segment.bytes|;
    assert Fill(queue, BUFFER_LENGTH) == |segment.bytes|;
    assert AfterRead(s, t, [segment], 0).buf == segment.bytes;
    Schedules.SplitWhole(segment.bytes);
  }

  /** Receive t after its first awaits. */
  ghost function AfterAwaits(s: Net<i32>, t: nat, awaits: seq<Await>, used: nat): (r: Net<i32>)
    requires t < |s.tasks| && Live(s.queue) && AllDeliverable(awaits)
    requires used <= |awaits| && forall i :: 0 <= i < used ==> awaits[i].Ready?
    ensures Waits(r, t) && Live(r.queue)
  {
    if used == 0 then s.(tasks := s.tasks[t := Waiting(None)])
    else AfterRead(AfterAwaits(s, t, awaits, used - 1), t, awaits[used - 1].arrived, awaits[used - 1].size)
  }

  ghost function ArrivedIn(awaits: seq<Await>, used: nat): seq<Segment<i32>>
    requires used <= |awaits|
  {
    if used == 0 then []
    else ArrivedIn(awaits, used - 1) + if awaits[used - 1].Ready? then awaits[used - 1].arrived else []
  }

  lemma {:induction false} AwaitsSent(s: Net<i32>, t: nat, awaits: seq<Await>, used: nat)
    requires t < |s.tasks| && Live(s.queue) && AllDeliverable(awaits)
    requires used <= |awaits| && forall i :: 0 <= i < used ==> awaits[i].Ready?
    ensures AfterAwaits(s, t, awaits, used).sent == s.sent + ArrivedIn(awaits, used)
    ensures AfterAwaits(s, t, awaits, used).done == s.done
  {
    if used == 0 {
      assert s.sent + [] == s.sent;
    } else {
      AwaitsSent(s, t, awaits, used - 1);
      Assoc(s.sent, ArrivedIn(awaits, used - 1), awaits[used - 1].arrived);
    }
  }

  /** The awaits were needed: none of them started with a complete message in the buffer. */
  ghost predicate WaitedFor(s: Net<i32>, t: nat, awaits: seq<Await>, used: nat)
    requires t < |s.tasks| && Live(s.queue) && AllDeliverable(awaits)
  {
    && used <= |awaits| && (forall i :: 0 <= i < used ==> awaits[i].Ready?)
    && forall i :: 0 <= i < used ==> Split(AfterAwaits(s, t, awaits, i).buf) == None
  }

  ghost function GivenUp(s: Net<i32>, t: nat): Net<i32>
    requires Waits(s, t)
  {
    s.(tasks := s.tasks[t := Idle], closed := s.closed + FdList(s.tasks[t].fd))
  }

  /**
   * How a receive ends after `used` awaits: with the first complete message, as soon as there is
   * one, and otherwise as the next await says, or dropped if there is none.
   */
  ghost predicate ReceiveOutcome<T>(codec: Codec<T>, s: Net<i32>, t: nat, awaits: seq<Await>, used: nat,
                                    next: Net<i32>, r: Received<T>)
    requires t < |s.tasks| && Live(s.queue) && AllDeliverable(awaits)
  {
    && WaitedFor(s, t, awaits, used)
    && var last := AfterAwaits(s, t, awaits, used);
      match Split(last.buf)
      case Some(cut) => next == Complete(last, t, cut, r.Message?) && Decoded(codec, cut, last.tasks[t].fd, r)
      case None =>
        && next == GivenUp(last, t)
        && (r.Dropped? <==> used == |awaits|)
        && (r.NoMoreMessages? <==> used < |awaits| && awaits[used].EndOfStream?)
        && (r.ReadFailed? <==> used < |awaits| && awaits[used].ReadError?)
        && (r.Dropped? || r.NoMoreMessages? || r.ReadFailed?)
  }

  /** The message with the descriptor that was picked up, or an error if its payload does not decode. */
  ghost predicate Decoded<T>(codec: Codec<T>, cut: Cut, fd: Option<i32>, r: Received<T>) {
    match codec.decode(PayloadOf(cut.frame))
    case Some(x) => r == Message(cut.header, fd, x)
    case None => r.Undecodable?
  }

  /** Receive t is waiting, having needed the first awaits. */
  ghost predicate Waited(s: Net<i32>, t: nat, awaits: seq<Await>, used: nat, now: Net<i32>) {
    && t < |s.tasks| && Live(s.queue) && AllDeliverable(awaits)
    && WaitedFor(s, t, awaits, used) && now == AfterAwaits(s, t, awaits, used)
  }

  lemma AnotherAwait(s: Net<i32>, t: nat, awaits: seq<Await>, used: nat, now: Net<i32>)
    requires Waited(s, t, awaits, used, now)
    requires used < |awaits| && awaits[used].Ready? && Split(now.buf) == None
    ensures Waits(now, t) && Live(now.queue) && Deliverable(awaits[used].arrived)
    ensures Waited(s, t, awaits, used + 1, AfterRead(now, t, awaits[used].arrived, awaits[used].size))
  {
  }

  lemma EndsWithout<T>(codec: Codec<T>, s: Net<i32>, t: nat, awaits: seq<Await>, used: nat, now: Net<i32>)
    requires Waited(s, t, awaits, used, now)
    requires Split(now.buf) == None && (used < |awaits| ==> !awaits[used].Ready?)
    ensures now.sent == s.sent + ArrivedIn(awaits, used) && Waits(now, t)
    ensures ReceiveOutcome(codec, s, t, awaits, used, GivenUp(now, t),
      if used == |awaits| then Dropped else if awaits[used].EndOfStream? then NoMoreMessages else ReadFailed)
  {
    AwaitsSent(s, t, awaits, used);
  }

  lemma EndsWith<T>(codec: Codec<T>, s: Net<i32>, t: nat, awaits: seq<Await>, used: nat, now: Net<i32>, cut: Cut)
    requires Waited(s, t, awaits, used, now) && Split(now.buf) == Some(cut)
    ensures now.sent == s.sent + ArrivedIn(awaits, used) && Waits(now, t)
    ensures var value := codec.decode(PayloadOf(cut.frame));
      ReceiveOutcome(codec, s, t, awaits, used, Complete(now, t, cut, value.Some?),
        if value.Some? then Message(cut.header, now.tasks[t].fd, value.value) else Undecodable)
  {
    AwaitsSent(s, t, awaits, used);
  }

  /** A run from before a receive begins to after its last step. */
  lemma RunAround(s: Net<i32>, t: nat, more: seq<Event<i32>>, now: Net<i32>, last: Event<i32>)
    requires Live(s.queue) && t < |s.tasks| && s.tasks[t].Idle?
    requires Run(s.(tasks := s.tasks[t := Waiting(None)]), more) == Some(now)
    ensures Run(s, [Begin(t)] + more + [last]) == Next(now, last)
  {
    assert ([Begin(t)] + more)[1..] == more;
    Drift.RunStep(s, [Begin(t)] + more, last);
  }

  /** A receive that finds the socket empty and then gets a message in one piece returns it. */
  lemma ReceivesWhatArrives<T>(codec: Codec<T>, s: Net<i32>, t: nat, segment: Segment<i32>, awaits: seq<Await>,
                               used: nat, next: Net<i32>, r: Received<T>)
    requires t < |s.tasks| && s.queue == [] && s.buf == [] && AllDeliverable(awaits)
    requires IsFrame(segment.bytes) && |segment.fds| <= MAX_FDS
    requires awaits != [] && awaits[0] == Ready([segment], 0)
    requires ReceiveOutcome(codec, s, t, awaits, used, next, r)
    ensures used == 1 && next.buf == [] && next.queue == []
    ensures Decoded(codec, Cut(DecodeHeader(segment.bytes[..HEADER_LENGTH]), segment.bytes, []), Keep(None, segment.fds), r)
  {
    var s0 := AfterAwaits(s, t, awaits, 0);
    OneReadIsEnough(s0, t, segment);
    assert AfterAwaits(s, t, awaits, 1) == AfterRead(s0, t, [segment], 0);
    assert Split(s0.buf) == None;
  }

  /** What the kernel finds in the control buffer handed to `sendmsg`. */
  method KernelAttaches(ancillary: ControlBuffer.SocketAncillary, ghost fd: Option<i32>) returns (fds: seq<i32>)
    requires ancillary.Valid()
    requires ancillary.contents == if fd.Some? then [ControlBuffer.RightsOf([fd.value])] else []
    ensures fds == FdList(fd)
  {
    var it := ancillary.GetMessages();
    ghost var items := it.remaining;
    fds := ControlBuffer.CollectRights(it);
    if fd.Some? {
      RightsAlone([fd.value]);
    }
  }

  /** The control buffer has room for 28 descriptors, and no more. */
  lemma RoomForDescriptors(n: nat)
    ensures Ancillary.CmsgSpace(Ancillary.LINUX, 4 * n) <= CONTROL_LENGTH <==> n <= MAX_FDS
    ensures CONTROL_LENGTH == 128 && MAX_FDS == 28
  {
    Ancillary.LinuxSpace(4 * n);
  }

  lemma RightsAlone(fds: seq<i32>)
    ensures ControlBuffer.AllRights(Ancillary.ItemsOf([ControlBuffer.RightsOf(fds)])) == fds
  {
    var m := ControlBuffer.RightsOf(fds);
    ControlBuffer.TypedRoundTrip(fds, []);
    assert [m][1..] == [];
    var item := Ancillary.ItemOf(m);
    assert Ancillary.ItemsOf([m]) == [item];
    assert [item][1..] == [];
  }

  /** The kernel's control data for a read, as the receive loop parses it. */
  method ReceiveControl(delivered: seq<i32>) returns (fds: seq<i32>)
    requires |delivered| <= MAX_FDS
    ensures fds == delivered
  {
    var buffer := new byte[CONTROL_LENGTH](_ => 0);
    var ancillary := new ControlBuffer.SocketAncillary(Ancillary.LINUX, buffer);
    if delivered != [] {
      Ancillary.AlignRoundsUp(Ancillary.LINUX, 4 * |delivered|);
      var fits := ancillary.AddFds(delivered);
      assert fits;
      RightsAlone(delivered);
    }
    var it := ancillary.GetMessages();
    fds := ControlBuffer.CollectRights(it);
  }

  /** The inner loop over received descriptors: one is kept, the others are dropped, hence closed. */
  method KeepFirst(fdResult: Option<i32>, fds: seq<i32>) returns (kept: Option<i32>, closed: seq<i32>)
    ensures kept == Keep(fdResult, fds)
    ensures closed == Surplus(fdResult, fds)
    ensures FdList(kept) + closed == FdList(fdResult) + fds
    ensures kept == None <==> fdResult == None && fds == []
  {
    kept, closed := fdResult, [];
    for i := 0 to |fds|
      invariant kept == Keep(fdResult, fds[..i])
      invariant closed == Surplus(fdResult, fds[..i])
    {
      assert fds[..i + 1] == fds[..i] + [fds[i]];
      if kept.None? {
        kept := Some(fds[i]);
      } else {
        closed := closed + [fds[i]];
      }
    }
    assert fds[..|fds|] == fds;
  }
}
