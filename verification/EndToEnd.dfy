/**
 * The handshake over the wire: the same parent and children, but every message is a frame on a
 * byte stream, read by the receive loop of `imsg.rs`.  It refines the handshake over queues.
 */
module EndToEnd {
  import opened Bytes
  import opened Derive
  import opened Kernel
  import Imsg
  import R = Receivers
  import opened Handshake
  import Liveness
  import Schedules
  import Pairing

  type Line = R.Net<End>

  /** `full`: the kernel's reads go as far as the barrier rule and the buffer allow. */
  datatype Wire = Wire(
    full: bool,
    pending: set<Pair>, phase: Phase, made: map<Pair, nat>, open: set<End>,
    lines: seq<Line>,   // the parent's stream to each child, and the child's receive state
    kids: seq<Kid>)

  function StartWire(m: Matrix, full: bool): Wire
    requires Square(m)
  {
    var s := Start(m);
    Wire(full, s.pending, s.phase, s.made, s.open, seq(|m|, a => R.Start(1)), s.kids)
  }

  function ConnectSegment(peer: nat, end: End, pid: i32): Segment<End> {
    Segment(Imsg.Frame(Imsg.ConnectHeader(peer, pid), []), [end])
  }

  datatype WireEvent =
    | WirePick(pair: Pair, socket: nat)
    | WireSendLeft(pid: i32)
    | WireSendRight(pid: i32)
    | WireChild(child: nat, step: R.Event<End>)
    | WireOrdinary(child: nat, segment: Segment<End>)

  function Deliver(w: Wire, a: nat, segment: Segment<End>): (r: Option<seq<Line>>)
  {
    if a < |w.lines| && Live(w.lines[a].queue) then
      match R.Next(w.lines[a], R.Arrive(segment))
      case Some(line) => Some(w.lines[a := line])
      case None => None
    else None
  }

  /** What the child's pattern looks at in a completed receive. */
  function Delivered(d: R.Delivery<End>): Packet {
    Packet(d.header.id, d.header.peerId, d.fd)
  }

  /** A whole message, with its descriptor if any. */
  predicate IsMessage(segment: Segment<End>) {
    Imsg.IsFrame(segment.bytes) && |segment.fds| <= 1
  }

  /**
   * What the parent's program may leave on a stream: messages that are not the library's, and
   * parts of messages, where the kernel cut a send short.
   */
  predicate IsOrdinary(segment: Segment<End>) {
    Imsg.IsFrame(segment.bytes) ==> Imsg.DecodeHeader(segment.bytes[..Imsg.HEADER_LENGTH]).id >= RESERVED
  }

  /** A step of the child's receive loop: it never gives up, and decodes the unit payload. */
  predicate ChildStep(full: bool, line: Line, e: R.Event<End>) {
    && (e.Begin? || (e.Poll? && e.ok))
    && (full && e.Poll? && Imsg.Split(line.buf) == None ==> e.size == Fill(line.queue, Imsg.BUFFER_LENGTH))
  }

  function WireNext(w: Wire, e: WireEvent): Option<Wire> {
    match e
    case WirePick(p, socket) =>
      if w.phase == Between && p in w.pending && socket !in w.made.Values then
        Some(w.(pending := w.pending - {p}, phase := Created(p, socket), made := w.made[p := socket],
                open := w.open + {End(socket, Left), End(socket, Right)}))
      else None
    case WireSendLeft(pid) =>
      if !w.phase.Created? then None
      else
        var (p, socket) := (w.phase.pair, w.phase.socket);
        (match Deliver(w, p.0, ConnectSegment(p.1, End(socket, Left), pid))
         case Some(lines) => Some(w.(phase := HalfSent(p, socket), lines := lines))
         case None => None)
    case WireSendRight(pid) =>
      if !w.phase.HalfSent? then None
      else
        var (p, socket) := (w.phase.pair, w.phase.socket);
        (match Deliver(w, p.1, ConnectSegment(p.0, End(socket, Right), pid))
         case Some(lines) =>
           Some(w.(phase := Between, lines := lines, open := w.open - {End(socket, Left), End(socket, Right)}))
         case None => None)
    case WireChild(a, step) =>
      if 1 <= a < |w.lines| && a < |w.kids| && Listens(w.kids[a])
         && Live(w.lines[a].queue) && ChildStep(w.full, w.lines[a], step) then
        (match R.Next(w.lines[a], step)
         case Some(line) =>
           Some(w.(lines := w.lines[a := line],
                   kids := if |line.done| > |w.lines[a].done| then
                             w.kids[a := Accept(w.kids[a], Delivered(line.done[|line.done| - 1]))]
                           else w.kids))
         case None => None)
      else None
    case WireOrdinary(a, segment) =>
      if w.pending == {} && w.phase == Between && 1 <= a && IsOrdinary(segment) then
        (match Deliver(w, a, segment)
         case Some(lines) => Some(w.(lines := lines))
         case None => None)
      else None
  }

  // ---- The queue a line stands for ----

  /** A child that listens never gets to see what is not a message: any ordinary packet will do. */
  function PacketOf(segment: Segment<End>): Packet {
    if IsMessage(segment) then
      var h := Imsg.DecodeHeader(segment.bytes[..Imsg.HEADER_LENGTH]);
      Packet(h.id, h.peerId, if segment.fds == [] then None else Some(segment.fds[0]))
    else Packet(RESERVED, 0, None)
  }

  lemma ConnectSegmentIsConnect(peer: nat, end: End, pid: i32)
    requires peer < 0x1_0000_0000
    ensures IsMessage(ConnectSegment(peer, end, pid))
    ensures PacketOf(ConnectSegment(peer, end, pid)) == ConnectPacket(peer, end)
  {
    var h := Imsg.ConnectHeader(peer, pid);
    Imsg.FrameIsFrame(h, []);
    Imsg.HeaderRoundTrip(h);
    assert Imsg.Frame(h, [])[..Imsg.HEADER_LENGTH] == Imsg.EncodeHeader(h);
  }

  function Packets(segments: seq<Segment<End>>): (q: seq<Packet>)
    ensures |q| == |segments|
  {
    seq(|segments|, i requires 0 <= i < |segments| => PacketOf(segments[i]))
  }

  /** Read alone so far: nothing is buffered, or exactly the next message with its descriptor. */
  ghost predicate InSync(line: Line) {
    && |line.tasks| == 1
    && (Pairing.Aligned(line) || (Pairing.Loaded(line) && line.tasks[0].Waiting?))
  }

  /** Nothing received yet; if part of the stream has been read, so has the first descriptor. */
  ghost predicate AtFirst(line: Line) {
    && |line.tasks| == 1 && line.done == []
    && (Pairing.Aligned(line) || Begun(line))
  }

  ghost predicate Begun(line: Line)
    requires |line.tasks| == 1
  {
    && line.sent != [] && line.tasks[0] == R.Waiting(Pairing.Own(line.sent, 0))
    && line.buf + Data(line.queue) == Data(line.sent)
  }

  ghost predicate Sound(full: bool, line: Line) {
    if full then InSync(line) else AtFirst(line)
  }

  ghost predicate LineOk(full: bool, line: Line, kid: Kid) {
    && Live(line.queue) && |line.done| <= |line.sent|
    && (Listens(kid) ==> Sound(full, line))
  }

  ghost predicate LinesOk(w: Wire) {
    |w.lines| == |w.kids| && forall a :: 0 <= a < |w.lines| ==> LineOk(w.full, w.lines[a], w.kids[a])
  }

  /** Sent and not yet received. */
  ghost function QueueOf(line: Line): seq<Packet>
    requires |line.done| <= |line.sent|
  {
    Packets(line.sent[|line.done|..])
  }

  ghost function Queues(w: Wire): seq<seq<Packet>>
    requires LinesOk(w)
  {
    seq(|w.lines|, a requires 0 <= a < |w.lines| => QueueOf(w.lines[a]))
  }

  ghost function Abstract(w: Wire): Sys
    requires LinesOk(w)
  {
    Sys(w.pending, w.phase, w.made, w.open, Queues(w), w.kids)
  }

  ghost predicate OneAtMost(m: Matrix)
    requires Square(m)
  {
    forall a :: 1 <= a < |m| ==> |WaitSet(m, a)| <= 1
  }

  /** With reads of any size, only a child that waits for a single connect is safe. */
  ghost predicate Survives(m: Matrix, full: bool)
    requires Square(m)
  {
    full || OneAtMost(m)
  }

  ghost predicate Workable(m: Matrix, full: bool) {
    Handshakable(m) && |m| <= 0x1_0000_0000 && Survives(m, full)
  }

  ghost predicate WireInv(m: Matrix, w: Wire)
    requires Square(m)
  {
    LinesOk(w) && Inv(m, Abstract(w))
  }

  // ---- Lines ----

  lemma ArriveSound(full: bool, line: Line, segment: Segment<End>)
    requires Sound(full, line)
    ensures Sound(full, line.(sent := line.sent + [segment], queue := line.queue + [segment]))
  {
    var sent, d := line.sent + [segment], |line.done|;
    if Pairing.Aligned(line) {
      assert sent[d..] == line.sent[d..] + [segment];
    } else if full {
      assert sent[d + 1..] == line.sent[d + 1..] + [segment];
      assert sent[d] == line.sent[d];
    } else {
      DataAppend(line.queue, [segment]);
      DataAppend(line.sent, [segment]);
      Assoc(line.buf, Data(line.queue), Data([segment]));
    }
  }

  lemma ArriveOnLine(full: bool, line: Line, kid: Kid, segment: Segment<End>)
    requires LineOk(full, line, kid) && segment.bytes != [] && |segment.fds| <= R.MAX_FDS
    ensures var next := R.Next(line, R.Arrive(segment));
      && next.Some? && LineOk(full, next.value, kid)
      && QueueOf(next.value) == QueueOf(line) + [PacketOf(segment)]
  {
    var d := |line.done|;
    assert (line.sent + [segment])[d..] == line.sent[d..] + [segment];
    if Listens(kid) {
      ArriveSound(full, line, segment);
    }
  }

  /** The line before and after a step of the receive loop: at most the next message was returned. */
  ghost predicate Advances(line: Line, next: Line) {
    && Live(next.queue) && next.sent == line.sent
    && (next.done == line.done ||
        (|next.done| == |line.done| + 1 <= |line.sent|
         && Delivered(next.done[|line.done|]) == PacketOf(line.sent[|line.done|])))
  }

  /** The next segment, if there is one, is a message with a descriptor. */
  ghost predicate NextIsBarrier(line: Line) {
    |line.done| < |line.sent| ==> IsMessage(line.sent[|line.done|]) && line.sent[|line.done|].fds != []
  }

  ghost predicate Pollable(full: bool, line: Line, e: R.Event<End>) {
    && Live(line.queue) && Sound(full, line) && NextIsBarrier(line)
    && ChildStep(full, line, e) && R.Next(line, e).Some?
  }

  /** Receiving a message whose descriptor makes it a barrier: it is read, and returned, alone. */
  lemma PollFull(line: Line, e: R.Event<End>)
    requires Pollable(true, line, e)
    ensures Advances(line, R.Next(line, e).value) && InSync(R.Next(line, e).value)
  {
    var d := |line.done|;
    R.StepKeepsLive(line, e);
    Schedules.SplitWhole(line.buf);
    if e.Poll? && Pairing.Aligned(line) {
      Pairing.BarrierRead(line.queue);
      assert line.sent[d..][1..] == line.sent[d + 1..];
      EmptyLeft(line.sent[d].bytes);
    }
  }

  /** What completes is the first message. */
  lemma FirstFrame(line: Line)
    requires |line.tasks| == 1 && Begun(line) && IsMessage(line.sent[0])
    ensures var f := line.sent[0].bytes;
      Imsg.Split(line.buf) == if |line.buf| < |f| then None
        else Some(Imsg.Cut(Imsg.DecodeHeader(f[..Imsg.HEADER_LENGTH]), f, line.buf[|f|..]))
    ensures line.queue == [] ==> |line.buf| >= |line.sent[0].bytes|
  {
    Imsg.SplitStream(line.buf, Data(line.queue), line.sent[0].bytes, Data(line.sent[1..]));
  }

  lemma ShortRead(line: Line, e: R.Event<End>)
    requires Pollable(false, line, e) && e.Poll? && Imsg.Split(line.buf) == None
    ensures |R.Next(line, e).value.tasks| == 1 && Begun(R.Next(line, e).value)
  {
    var read := Take(line.queue, e.size);
    TakeConserves(line.queue, e.size);
    Assoc(line.buf, read.bytes, Data(read.rest));
    if Pairing.Aligned(line) {
      assert line.sent[0..] == line.sent;
      EmptyLeft(read.bytes);
      EmptyLeft(Data(line.queue));
    }
  }

  lemma PollShort(line: Line, e: R.Event<End>)
    requires Pollable(false, line, e)
    ensures Advances(line, R.Next(line, e).value)
    ensures R.Next(line, e).value.done == line.done ==> AtFirst(R.Next(line, e).value)
  {
    R.StepKeepsLive(line, e);
    if e.Poll? {
      if Imsg.Split(line.buf) == None {
        ShortRead(line, e);
      } else {
        FirstFrame(line);
      }
    }
  }

  // ---- Refinement ----

  lemma UpdateLine(w: Wire, a: nat, line: Line, kid: Kid)
    requires LinesOk(w) && a < |w.lines| && LineOk(w.full, line, kid)
    ensures var w' := w.(lines := w.lines[a := line], kids := w.kids[a := kid]);
      LinesOk(w') && Queues(w') == Queues(w)[a := QueueOf(line)]
  {
  }

  lemma DeliverRefines(w: Wire, a: nat, segment: Segment<End>)
    requires LinesOk(w) && a < |w.lines| && segment.bytes != [] && |segment.fds| <= R.MAX_FDS
    ensures var lines := Deliver(w, a, segment);
      && lines.Some? && LinesOk(w.(lines := lines.value))
      && Queues(w.(lines := lines.value)) == Push(Queues(w), a, PacketOf(segment))
  {
    ArriveOnLine(w.full, w.lines[a], w.kids[a], segment);
    UpdateLine(w, a, Deliver(w, a, segment).value[a], w.kids[a]);
    assert w.kids[a := w.kids[a]] == w.kids;
  }

  lemma ConnectRefines(w: Wire, a: nat, peer: nat, end: End, pid: i32)
    requires LinesOk(w) && a < |w.lines| && peer < 0x1_0000_0000
    ensures var lines := Deliver(w, a, ConnectSegment(peer, end, pid));
      && lines.Some? && LinesOk(w.(lines := lines.value))
      && Queues(w.(lines := lines.value)) == Push(Queues(w), a, ConnectPacket(peer, end))
  {
    ConnectSegmentIsConnect(peer, end, pid);
    DeliverRefines(w, a, ConnectSegment(peer, end, pid));
  }

  lemma InHandIsSmall(m: Matrix, w: Wire)
    requires Workable(m, w.full) && WireInv(m, w) && w.phase != Between
    ensures w.phase.pair.0 < |w.lines| && w.phase.pair.1 < |w.lines| <= 0x1_0000_0000
  {
    assert w.phase.pair in Pairs(m);
  }

  lemma SendLeftRefines(w: Wire, pid: i32)
    requires LinesOk(w) && WireNext(w, WireSendLeft(pid)).Some? && w.phase.pair.1 < 0x1_0000_0000
    ensures var w' := WireNext(w, WireSendLeft(pid)).value;
      LinesOk(w') && Next(Abstract(w), SendLeft) == Some(Abstract(w'))
  {
    ConnectRefines(w, w.phase.pair.0, w.phase.pair.1, End(w.phase.socket, Left), pid);
  }

  lemma SendRightRefines(w: Wire, pid: i32)
    requires LinesOk(w) && WireNext(w, WireSendRight(pid)).Some? && w.phase.pair.0 < 0x1_0000_0000
    ensures var w' := WireNext(w, WireSendRight(pid)).value;
      LinesOk(w') && Next(Abstract(w), SendRight) == Some(Abstract(w'))
  {
    ConnectRefines(w, w.phase.pair.1, w.phase.pair.0, End(w.phase.socket, Right), pid);
  }

  lemma KidOnLine(m: Matrix, w: Wire, a: nat)
    requires Workable(m, w.full) && WireInv(m, w) && 1 <= a < |m|
    ensures KidOk(a, WaitSet(m, a), Unsent(Abstract(w), a), Queues(w)[a], w.kids[a], w.made, ParentDone(Abstract(w)))
    ensures Queues(w)[a] == QueueOf(w.lines[a])
  {
    var s := Abstract(w);
    assert KidOk(a, WaitSet(m, a), Unsent(s, a), s.queues[a], s.kids[a], s.made, ParentDone(s));
  }

  lemma HeadOfQueue(line: Line)
    requires |line.done| < |line.sent|
    ensures QueueOf(line) != [] && QueueOf(line)[0] == PacketOf(line.sent[|line.done|])
  {
    assert line.sent[|line.done|..][0] == line.sent[|line.done|];
  }

  lemma ConnectHasEnd(a: nat, row: set<nat>, unsent: set<nat>, q: seq<Packet>, kid: Kid, made: map<Pair, nat>, done: bool)
    requires KidOk(a, row, unsent, q, kid, made, done) && q != [] && Listens(kid)
    ensures q[0].fd.Some?
  {
    KidAccepts(a, row, unsent, q, kid, made, done);
  }

  lemma ListeningHead(m: Matrix, w: Wire, a: nat)
    requires Workable(m, w.full) && WireInv(m, w) && 1 <= a < |m| && Listens(w.kids[a]) && Queues(w)[a] != []
    ensures Queues(w)[a][0].fd.Some?
  {
    var s := Abstract(w);
    KidOnLine(m, w, a);
    ConnectHasEnd(a, WaitSet(m, a), Unsent(s, a), Queues(w)[a], w.kids[a], w.made, ParentDone(s));
  }

  lemma CanReceive(s: Sys, a: nat)
    requires 1 <= a < |s.queues| && a < |s.kids| && s.queues[a] != [] && Listens(s.kids[a])
    ensures Next(s, Recv(a)).Some?
  {
  }

  /** While a child listens, the next message on its line is a connect with a descriptor. */
  lemma NextIsConnect(m: Matrix, w: Wire, a: nat)
    requires Workable(m, w.full) && WireInv(m, w) && 1 <= a < |m| && Listens(w.kids[a])
    requires |w.lines[a].done| < |w.lines[a].sent|
    ensures NextIsBarrier(w.lines[a])
    ensures Next(Abstract(w), Recv(a)).Some?
    ensures Queues(w)[a][0] == PacketOf(w.lines[a].sent[|w.lines[a].done|])
  {
    HeadOfQueue(w.lines[a]);
    assert Queues(w)[a] == QueueOf(w.lines[a]);
    ListeningHead(m, w, a);
    CanReceive(Abstract(w), a);
  }

  lemma TailOfQueue(line: Line, next: Line)
    requires next.sent == line.sent && |line.done| < |line.sent|
    requires |next.done| == |line.done| + 1
    ensures QueueOf(line) == [PacketOf(line.sent[|line.done|])] + QueueOf(next)
  {
    assert line.sent[|line.done|..][1..] == line.sent[|line.done| + 1..];
  }

  /** After its only connect a child stops listening. */
  lemma OnlyConnect(m: Matrix, w: Wire, a: nat)
    requires Workable(m, w.full) && WireInv(m, w) && 1 <= a < |m| && Listens(w.kids[a])
    requires |w.lines[a].done| < |w.lines[a].sent| && !w.full
    ensures Accept(w.kids[a], PacketOf(w.lines[a].sent[|w.lines[a].done|])).wait == {}
  {
    var q := Queues(w)[a];
    NextIsConnect(m, w, a);
    KidOnLine(m, w, a);
    KidAccepts(a, WaitSet(m, a), Unsent(Abstract(w), a), q, w.kids[a], w.made, ParentDone(Abstract(w)));
    Subset(w.kids[a].wait, WaitSet(m, a));
    Subset({q[0].peerId}, w.kids[a].wait);
  }

  /** A subset is not larger, and if it is not smaller either, it is the whole. */
  lemma {:induction false} Subset<T>(a: set<T>, b: set<T>)
    requires a <= b
    ensures |a| <= |b| && (|a| == |b| ==> a == b)
    decreases |a|
  {
    if x :| x in a {
      Subset(a - {x}, b - {x});
      assert a == a - {x} + {x} && b == b - {x} + {x};
    }
  }

  lemma PollLine(m: Matrix, w: Wire, a: nat, step: R.Event<End>)
    requires Workable(m, w.full) && WireInv(m, w) && WireNext(w, WireChild(a, step)).Some?
    ensures var line, next := w.lines[a], R.Next(w.lines[a], step).value;
      Advances(line, next) && (if w.full then InSync(next) else next.done == line.done ==> AtFirst(next))
  {
    var line := w.lines[a];
    if |line.done| < |line.sent| {
      NextIsConnect(m, w, a);
    }
    if w.full {
      PollFull(line, step);
    } else {
      PollShort(line, step);
    }
  }

  /** What a wire step of a child does, as an update of its line and its state. */
  lemma ChildUpdates(w: Wire, a: nat, step: R.Event<End>)
    requires WireNext(w, WireChild(a, step)).Some?
    ensures var w', next := WireNext(w, WireChild(a, step)).value, R.Next(w.lines[a], step).value;
      && w'.lines[a] == next && w' == w.(lines := w.lines[a := next], kids := w.kids[a := w'.kids[a]])
      && (w'.kids[a] ==
            if |next.done| > |w.lines[a].done| then Accept(w.kids[a], Delivered(next.done[|next.done| - 1]))
            else w.kids[a])
  {
    assert w.kids[a := w.kids[a]] == w.kids;
  }

  /** One step of a child's receive loop keeps its line in order. */
  lemma ChildOnLine(m: Matrix, w: Wire, a: nat, step: R.Event<End>)
    requires Workable(m, w.full) && WireInv(m, w) && WireNext(w, WireChild(a, step)).Some?
    ensures var w' := WireNext(w, WireChild(a, step)).value;
      var line, next := w.lines[a], w'.lines[a];
      && w' == w.(lines := w.lines[a := next], kids := w.kids[a := w'.kids[a]])
      && LineOk(w.full, next, w'.kids[a]) && next.sent == line.sent
      && (next.done == line.done ==> w'.kids[a] == w.kids[a])
      && (next.done != line.done ==>
            |next.done| == |line.done| + 1 <= |line.sent|
            && w'.kids[a] == Accept(w.kids[a], PacketOf(line.sent[|line.done|])))
  {
    var line, next := w.lines[a], R.Next(w.lines[a], step).value;
    PollLine(m, w, a, step);
    ChildUpdates(w, a, step);
    assert LineOk(w.full, line, w.kids[a]);
    if next.done != line.done && !w.full {
      OnlyConnect(m, w, a);
    }
  }

  lemma ReceiptRefines(m: Matrix, w: Wire, a: nat, next: Line)
    requires Workable(m, w.full) && WireInv(m, w) && 1 <= a < |m| && Listens(w.kids[a])
    requires next.sent == w.lines[a].sent && |next.done| == |w.lines[a].done| + 1 <= |next.sent|
    ensures Next(Abstract(w), Recv(a))
         == Some(Abstract(w).(queues := Queues(w)[a := QueueOf(next)],
                              kids := w.kids[a := Accept(w.kids[a], PacketOf(next.sent[|w.lines[a].done|]))]))
  {
    NextIsConnect(m, w, a);
    TailOfQueue(w.lines[a], next);
    assert Queues(w)[a] == QueueOf(w.lines[a]);
    assert QueueOf(next) == Queues(w)[a][1..];
  }

  /** A completed receive is one step of the queue system, any other step of the loop is none. */
  lemma ChildRefines(m: Matrix, w: Wire, a: nat, step: R.Event<End>)
    requires Workable(m, w.full) && WireInv(m, w) && WireNext(w, WireChild(a, step)).Some?
    ensures var w' := WireNext(w, WireChild(a, step)).value;
      && LinesOk(w')
      && (w'.lines[a].done == w.lines[a].done ==> Abstract(w') == Abstract(w))
      && (w'.lines[a].done != w.lines[a].done ==> Next(Abstract(w), Recv(a)) == Some(Abstract(w')))
  {
    var w' := WireNext(w, WireChild(a, step)).value;
    var next := w'.lines[a];
    ChildOnLine(m, w, a, step);
    UpdateLine(w, a, next, w'.kids[a]);
    if next.done == w.lines[a].done {
      assert Queues(w)[a] == QueueOf(w.lines[a]);
      assert Queues(w') == Queues(w);
    } else {
      ReceiptRefines(m, w, a, next);
    }
  }

  lemma PickRefines(w: Wire, p: Pair, socket: nat)
    requires LinesOk(w) && WireNext(w, WirePick(p, socket)).Some?
    ensures var w' := WireNext(w, WirePick(p, socket)).value;
      LinesOk(w') && Next(Abstract(w), Pick(p, socket)) == Some(Abstract(w'))
  {
    assert Queues(WireNext(w, WirePick(p, socket)).value) == Queues(w);
  }

  lemma OrdinaryRefines(w: Wire, a: nat, segment: Segment<End>)
    requires LinesOk(w) && WireNext(w, WireOrdinary(a, segment)).Some?
    ensures var w' := WireNext(w, WireOrdinary(a, segment)).value;
      LinesOk(w') && Next(Abstract(w), Ordinary(a, PacketOf(segment))) == Some(Abstract(w'))
  {
    DeliverRefines(w, a, segment);
  }

  /** The queue step a wire step stands for, if any. */
  function Meaning(w: Wire, e: WireEvent): Option<Event> {
    match e
    case WirePick(p, socket) => Some(Pick(p, socket))
    case WireSendLeft(_) => Some(SendLeft)
    case WireSendRight(_) => Some(SendRight)
    case WireChild(a, step) => if step.Poll? && a < |w.lines| && Imsg.Split(w.lines[a].buf).Some? then Some(Recv(a)) else None
    case WireOrdinary(a, segment) => Some(Ordinary(a, PacketOf(segment)))
  }

  /** A line's completed receives grow when a poll finds a message, and at no other step. */
  lemma PollCompletes(line: Line, step: R.Event<End>)
    requires Live(line.queue) && R.Next(line, step).Some?
    ensures R.Next(line, step).value.done != line.done <==> step.Poll? && Imsg.Split(line.buf).Some?
  {
    if step.Poll? && Imsg.Split(line.buf).Some? {
      assert |R.Next(line, step).value.done| == |line.done| + 1;
    }
  }

  lemma ChildMeans(m: Matrix, w: Wire, a: nat, step: R.Event<End>)
    requires Workable(m, w.full) && WireInv(m, w) && WireNext(w, WireChild(a, step)).Some?
    ensures var w', e := WireNext(w, WireChild(a, step)).value, Meaning(w, WireChild(a, step));
      && LinesOk(w')
      && (e == None ==> Abstract(w') == Abstract(w))
      && (e.Some? ==> e.value == Recv(a) && Next(Abstract(w), Recv(a)) == Some(Abstract(w')))
  {
    PollCompletes(w.lines[a], step);
    ChildRefines(m, w, a, step);
  }

  lemma StepMeans(m: Matrix, w: Wire, e: WireEvent)
    requires Workable(m, w.full) && WireInv(m, w) && WireNext(w, e).Some?
    ensures LinesOk(WireNext(w, e).value)
    ensures Meaning(w, e) == None ==> Abstract(WireNext(w, e).value) == Abstract(w)
    ensures Meaning(w, e).Some? ==> Next(Abstract(w), Meaning(w, e).value) == Some(Abstract(WireNext(w, e).value))
  {
    match e
    case WirePick(p, socket) => PickRefines(w, p, socket);
    case WireSendLeft(pid) =>
      InHandIsSmall(m, w);
      SendLeftRefines(w, pid);
    case WireSendRight(pid) =>
      InHandIsSmall(m, w);
      SendRightRefines(w, pid);
    case WireChild(a, step) => ChildMeans(m, w, a, step);
    case WireOrdinary(a, segment) => OrdinaryRefines(w, a, segment);
  }

  /** Every step over the wire is a step over queues, or none. */
  lemma StepRefines(m: Matrix, w: Wire, e: WireEvent)
    requires Workable(m, w.full) && WireInv(m, w) && WireNext(w, e).Some?
    ensures WireInv(m, WireNext(w, e).value) && WireNext(w, e).value.full == w.full
    ensures Meaning(w, e) == None ==> Abstract(WireNext(w, e).value) == Abstract(w)
    ensures Meaning(w, e).Some? ==> Next(Abstract(w), Meaning(w, e).value) == Some(Abstract(WireNext(w, e).value))
  {
    StepMeans(m, w, e);
    if Meaning(w, e).Some? {
      StepKeepsInv(m, Abstract(w), Meaning(w, e).value);
    }
  }

  function WireRun(w: Wire, events: seq<WireEvent>): Option<Wire>
    decreases |events|
  {
    if events == [] then Some(w)
    else
      match WireNext(w, events[0])
      case None => None
      case Some(next) => WireRun(next, events[1..])
  }

  lemma RunCons(s: Sys, e: Event, es: seq<Event>)
    requires Next(s, e).Some?
    ensures Run(s, [e] + es) == Run(Next(s, e).value, es)
  {
    assert ([e] + es)[1..] == es;
  }

  lemma {:induction false} RunRefines(m: Matrix, w: Wire, events: seq<WireEvent>) returns (es: seq<Event>)
    requires Workable(m, w.full) && WireInv(m, w) && WireRun(w, events).Some?
    ensures WireInv(m, WireRun(w, events).value) && WireRun(w, events).value.full == w.full
    ensures Run(Abstract(w), es) == Some(Abstract(WireRun(w, events).value))
    decreases |events|
  {
    if events == [] {
      es := [];
    } else {
      StepRefines(m, w, events[0]);
      es := RunRefines(m, WireNext(w, events[0]).value, events[1..]);
      if Meaning(w, events[0]).Some? {
        RunCons(Abstract(w), Meaning(w, events[0]).value, es);
        es := [Meaning(w, events[0]).value] + es;
      }
    }
  }

  lemma StartRefines(m: Matrix, full: bool)
    requires Workable(m, full)
    ensures WireInv(m, StartWire(m, full)) && Abstract(StartWire(m, full)) == Start(m)
  {
    var w := StartWire(m, full);
    forall a | 0 <= a < |w.lines| ensures LineOk(full, w.lines[a], w.kids[a]) && QueueOf(w.lines[a]) == [] {
      assert w.lines[a] == R.Start<End>(1);
    }
    assert Queues(w) == Start(m).queues;
    StartOk(m);
  }

  /**
   * The handshake over byte streams behaves like the handshake over queues of messages with
   * their descriptors, whatever ordinary messages follow the connects: with full reads always,
   * with reads of any size if no child waits for more than one connect.
   */
  lemma WireHandshakeRefinesQueues(m: Matrix, full: bool, events: seq<WireEvent>) returns (es: seq<Event>)
    requires Workable(m, full) && WireRun(StartWire(m, full), events).Some?
    ensures var w := WireRun(StartWire(m, full), events).value;
      && LinesOk(w)
      && Run(Start(m), es) == Some(Abstract(w))
      && forall a :: 1 <= a < |w.kids| ==> !w.kids[a].panicked
  {
    StartRefines(m, full);
    es := RunRefines(m, StartWire(m, full), events);
    var w := WireRun(StartWire(m, full), events).value;
    forall a | 1 <= a < |w.kids| ensures !w.kids[a].panicked {
      Liveness.WaitSetIsQueuedOrUnsent(m, es, a);
    }
  }

  // ---- The end state over the wire ----

  ghost predicate WireFinished(w: Wire) {
    w.pending == {} && w.phase == Between && forall a :: 1 <= a < |w.kids| ==> w.kids[a].wait == {}
  }

  /**
   * Where the wire handshake ends, ordinary messages or not: children a and b hold opposite ends
   * of one socket pair if the matrix connects them and nothing otherwise, and the parent holds
   * no end.
   */
  lemma WireEndState(m: Matrix, full: bool, events: seq<WireEvent>, a: nat, b: nat)
    requires Workable(m, full) && WireRun(StartWire(m, full), events).Some?
    requires WireFinished(WireRun(StartWire(m, full), events).value)
    requires 1 <= a < |m| && 1 <= b < |m|
    ensures var w := WireRun(StartWire(m, full), events).value;
      && |w.kids| == |m| && w.open == {}
      && (b in w.kids[a].handlers <==> m[a][b])
      && (m[a][b] ==> a in w.kids[b].handlers && w.kids[b].handlers[a] == w.kids[a].handlers[b].Other())
  {
    var es := WireHandshakeRefinesQueues(m, full, events);
    Liveness.EndState(m, es, a, b);
  }

  /** Over the wire, too, different pairs of children do not share a socket. */
  lemma WireSocketsAreDistinct(m: Matrix, full: bool, events: seq<WireEvent>, a: nat, b: nat, c: nat, d: nat)
    requires Workable(m, full) && WireRun(StartWire(m, full), events).Some?
    requires WireFinished(WireRun(StartWire(m, full), events).value)
    requires 1 <= a < |m| && 1 <= b < |m| && 1 <= c < |m| && 1 <= d < |m| && m[a][b] && m[c][d]
    ensures var kids := WireRun(StartWire(m, full), events).value.kids;
      && |kids| == |m| && b in kids[a].handlers && d in kids[c].handlers
      && (kids[a].handlers[b].socket == kids[c].handlers[d].socket ==> Ordered(a, b) == Ordered(c, d))
  {
    var es := WireHandshakeRefinesQueues(m, full, events);
    Liveness.SocketsAreDistinct(m, es, a, b, c, d);
  }
}
