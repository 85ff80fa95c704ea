/** What reads shorter than they could be do to the handshake over the wire. */
module ShortReads {
  import opened Bytes
  import opened Derive
  import opened Kernel
  import Imsg
  import R = Receivers
  import opened Handshake
  import Liveness
  import Schedules
  import opened EndToEnd

  ghost predicate NeverPanics(m: Matrix, full: bool)
    requires Square(m)
  {
    forall events: seq<WireEvent> :: WireRun(StartWire(m, full), events).Some? ==>
      forall a :: 1 <= a < |WireRun(StartWire(m, full), events).value.kids| ==>
        !WireRun(StartWire(m, full), events).value.kids[a].panicked
  }

  // ---- The lines of a run ----

  lemma {:induction false} WireRunStep(w: Wire, events: seq<WireEvent>, e: WireEvent)
    requires WireRun(w, events).Some?
    ensures WireRun(w, events + [e]) == WireNext(WireRun(w, events).value, e)
    decreases |events|
  {
    if events == [] {
      EmptyLeft([e]);
      assert [e][1..] == [];
    } else {
      HeadTail(events, [e]);
      WireRunStep(WireNext(w, events[0]).value, events[1..], e);
    }
  }

  /** A run of the wire system with reads of any size that ends in w. */
  ghost predicate Reaches(m: Matrix, events: seq<WireEvent>, w: Wire)
    requires Square(m)
  {
    && WireRun(StartWire(m, false), events) == Some(w)
    && !w.full && |w.lines| == |w.kids| == |m| && forall a :: 0 <= a < |w.lines| ==> Live(w.lines[a].queue)
  }

  lemma WireKeepsLive(w: Wire, e: WireEvent)
    requires WireNext(w, e).Some? && |w.lines| == |w.kids|
    requires forall a :: 0 <= a < |w.lines| ==> Live(w.lines[a].queue)
    ensures var next := WireNext(w, e).value;
      && next.full == w.full && |next.lines| == |w.lines| == |next.kids|
      && forall a :: 0 <= a < |next.lines| ==> Live(next.lines[a].queue)
  {
    if e.WireChild? {
      R.StepKeepsLive(w.lines[e.child], e.step);
    }
  }

  lemma Go(m: Matrix, events: seq<WireEvent>, w: Wire, e: WireEvent) returns (events': seq<WireEvent>, next: Wire)
    requires Square(m) && Reaches(m, events, w) && WireNext(w, e).Some?
    ensures Reaches(m, events', next) && next == WireNext(w, e).value
  {
    WireRunStep(StartWire(m, false), events, e);
    events', next := events + [e], WireNext(w, e).value;
    WireKeepsLive(w, e);
  }

  function Arrived(line: Line, segment: Segment<End>): Line {
    line.(sent := line.sent + [segment], queue := line.queue + [segment])
  }

  /** The parent connects one pair, and nobody else moves. */
  lemma ConnectPair(m: Matrix, events: seq<WireEvent>, w: Wire, p: Pair)
    returns (events': seq<WireEvent>, next: Wire, socket: nat)
    requires Square(m) && Reaches(m, events, w) && w.phase == Between && p in w.pending && p.0 < p.1 < |m|
    ensures Reaches(m, events', next) && next.phase == Between && next.pending == w.pending - {p}
    ensures next.kids == w.kids
    ensures next.lines == w.lines[p.0 := Arrived(w.lines[p.0], ConnectSegment(p.1, End(socket, Left), 0))]
                                 [p.1 := Arrived(w.lines[p.1], ConnectSegment(p.0, End(socket, Right), 0))]
  {
    socket := Liveness.Above(w.made.Values);
    events', next := Go(m, events, w, WirePick(p, socket));
    events', next := Go(m, events', next, WireSendLeft(0));
    events', next := Go(m, events', next, WireSendRight(0));
  }

  lemma Connect(m: Matrix, events: seq<WireEvent>, w: Wire, a: nat, b: nat)
    returns (events': seq<WireEvent>, next: Wire, end: End)
    requires Square(m) && Reaches(m, events, w) && w.phase == Between && Ordered(a, b) in w.pending
    requires a < |m| && b < |m| && a != b
    ensures Reaches(m, events', next) && next.phase == Between && next.pending == w.pending - {Ordered(a, b)}
    ensures next.kids == w.kids && next.lines[a] == Arrived(w.lines[a], ConnectSegment(b, end, 0))
  {
    var socket;
    events', next, socket := ConnectPair(m, events, w, Ordered(a, b));
    end := End(socket, if a < b then Left else Right);
  }

  // ---- The child's two receives ----

  /** A step of child a, which is about to see `line` become `next`. */
  lemma ChildGo(m: Matrix, events: seq<WireEvent>, w: Wire, a: nat, step: R.Event<End>, next: Line)
    returns (events': seq<WireEvent>, w': Wire)
    requires Square(m) && Reaches(m, events, w) && 1 <= a < |m| && Listens(w.kids[a])
    requires (step.Begin? || (step.Poll? && step.ok)) && R.Next(w.lines[a], step) == Some(next)
    ensures Reaches(m, events', w') && w'.lines[a] == next
    ensures w'.kids[a] == if |next.done| > |w.lines[a].done|
                          then Accept(w.kids[a], Delivered(next.done[|next.done| - 1])) else w.kids[a]
  {
    events', w' := Go(m, events, w, WireChild(a, step));
  }

  /** A read of one byte takes the descriptor of the first message; one more message's worth, that of the next. */
  lemma ReadAcross(m: Matrix, events: seq<WireEvent>, w: Wire, a: nat, x: Segment<End>, y: Segment<End>)
    returns (events': seq<WireEvent>, w': Wire)
    requires Square(m) && Reaches(m, events, w) && 1 <= a < |m| && Listens(w.kids[a])
    requires Imsg.IsFrame(x.bytes) && Imsg.IsFrame(y.bytes) && |x.fds| == 1 && |y.fds| == 1
    requires w.lines[a] == R.Net([x, y], [x, y], [], [R.Idle], [], [])
    ensures Reaches(m, events', w') && w'.kids[a] == w.kids[a]
    ensures w'.lines[a] == R.Net([x, y], [Segment(y.bytes[1..], [])], x.bytes + y.bytes[..1],
                                 [R.Waiting(Some(x.fds[0]))], [], y.fds)
  {
    var l0 := w.lines[a];
    var l1 := l0.(tasks := [R.Waiting(None)]);
    assert l0.tasks[0 := R.Waiting(None)] == l1.tasks;
    events', w' := ChildGo(m, events, w, a, R.Begin(0), l1);

    var l2: Line := R.Net([x, y], [Segment(x.bytes[1..], []), y], x.bytes[..1], [R.Waiting(Some(x.fds[0]))], [], []);
    FirstByteOf(x, y);
    events', w' := ChildGo(m, events', w', a, R.Poll(0, 1, true), l2);

    var l3: Line := R.Net([x, y], [Segment(y.bytes[1..], [])], x.bytes + y.bytes[..1],
                          [R.Waiting(Some(x.fds[0]))], [], y.fds);
    RestAndOneByte(x, y);
    events', w' := ChildGo(m, events', w', a, R.Poll(0, |x.bytes|, true), l3);
  }

  lemma FirstByteOf(x: Segment<End>, y: Segment<End>)
    requires Imsg.IsFrame(x.bytes) && Imsg.IsFrame(y.bytes) && |x.fds| == 1
    ensures R.Next(R.Net([x, y], [x, y], [], [R.Waiting(None)], [], []), R.Poll(0, 1, true))
         == Some(R.Net([x, y], [Segment(x.bytes[1..], []), y], x.bytes[..1], [R.Waiting(Some(x.fds[0]))], [], []))
  {
    var l: Line := R.Net([x, y], [x, y], [], [R.Waiting(None)], [], []);
    assert [x, y][1..] == [y];
    assert Take([x, y], 1) == Read(x.bytes[..1], x.fds, [Segment(x.bytes[1..], []), y]);
    EmptyLeft(x.bytes[..1]);
    assert R.Surplus(None, x.fds) == [] && [] + R.Surplus(None, x.fds) == [];
    assert l.tasks[0 := R.Waiting(Some(x.fds[0]))] == [R.Waiting(Some(x.fds[0]))];
    assert R.Next(l, R.Poll(0, 1, true)) == Some(R.ReadMore(l, 0, 1));
  }

  lemma RestAndOneByte(x: Segment<End>, y: Segment<End>)
    requires Imsg.IsFrame(x.bytes) && Imsg.IsFrame(y.bytes) && |x.fds| == 1 && y.fds != []
    ensures R.Next(R.Net([x, y], [Segment(x.bytes[1..], []), y], x.bytes[..1], [R.Waiting(Some(x.fds[0]))], [], []),
                   R.Poll(0, |x.bytes|, true))
         == Some(R.Net([x, y], [Segment(y.bytes[1..], [])], x.bytes + y.bytes[..1],
                       [R.Waiting(Some(x.fds[0]))], [], y.fds))
  {
    var rest: Segment<End> := Segment(x.bytes[1..], []);
    var tasks := [R.Waiting(Some(x.fds[0]))];
    TakeAcross(x, y);
    assert tasks[0 := R.Waiting(Some(x.fds[0]))] == tasks;
    EmptyLeft(y.fds);
    var l: Line := R.Net([x, y], [rest, y], x.bytes[..1], tasks, [], []);
    assert R.Next(l, R.Poll(0, |x.bytes|, true)) == Some(R.ReadMore(l, 0, |x.bytes|));
  }

  /** The first message is returned with its descriptor; the second one's has been closed. */
  lemma ReturnFirst(m: Matrix, events: seq<WireEvent>, w: Wire, a: nat, x: Segment<End>, y: Segment<End>)
    returns (events': seq<WireEvent>, w': Wire)
    requires Square(m) && Reaches(m, events, w) && 1 <= a < |m| && Listens(w.kids[a])
    requires Imsg.IsFrame(x.bytes) && Imsg.IsFrame(y.bytes) && |x.fds| == 1
    requires w.lines[a] == R.Net([x, y], [Segment(y.bytes[1..], [])], x.bytes + y.bytes[..1],
                                 [R.Waiting(Some(x.fds[0]))], [], y.fds)
    ensures Reaches(m, events', w') && w'.kids[a] == Accept(w.kids[a], PacketOf(x))
    ensures var line := w'.lines[a];
      && line.buf == y.bytes[..1] && line.queue == [Segment(y.bytes[1..], [])] && line.tasks == [R.Idle]
  {
    var line := w.lines[a];
    Imsg.SplitStream(line.buf, [], x.bytes, y.bytes[..1]);
    assert line.buf + [] == line.buf && line.buf[|x.bytes|..] == y.bytes[..1];
    var next := R.Complete(line, 0, Imsg.Split(line.buf).value, true);
    events', w' := ChildGo(m, events, w, a, R.Poll(0, 0, true), next);
  }

  lemma ReturnSecond(m: Matrix, events: seq<WireEvent>, w: Wire, a: nat, b: seq<byte>)
    returns (events': seq<WireEvent>, w': Wire)
    requires Square(m) && Reaches(m, events, w) && 1 <= a < |m| && Listens(w.kids[a]) && Imsg.IsFrame(b)
    requires var line := w.lines[a];
      line.buf == b[..1] && line.queue == [Segment(b[1..], [])] && line.tasks == [R.Idle]
    ensures Reaches(m, events', w') && w'.kids[a].panicked
  {
    var l0 := w.lines[a];
    var l1 := l0.(tasks := [R.Waiting(None)]);
    assert l0.tasks[0 := R.Waiting(None)] == l1.tasks;
    events', w' := ChildGo(m, events, w, a, R.Begin(0), l1);
    assert l1.queue[1..] == [];
    assert b == b[..1] + b[1..];
    var l2 := R.ReadMore(l1, 0, |b| - 1);
    events', w' := ChildGo(m, events', w', a, R.Poll(0, |b| - 1, true), l2);
    Schedules.SplitWhole(b);
    var l3 := R.Complete(l2, 0, Imsg.Split(b).value, true);
    events', w' := ChildGo(m, events', w', a, R.Poll(0, 0, true), l3);
  }

  // ---- The exact condition ----

  lemma TwoOf(s: set<nat>) returns (b: nat, c: nat)
    requires |s| > 1
    ensures b in s && c in s && b != c
  {
    b :| b in s;
    assert |s - {b}| >= 1;
    c :| c in s - {b};
  }

  /** Both connects in the socket of child a before it starts to read. */
  lemma BothQueued(m: Matrix, a: nat, b: nat, c: nat)
    returns (events: seq<WireEvent>, w: Wire, left: End, right: End)
    requires Handshakable(m) && 1 <= a < |m| && b in WaitSet(m, a) && c in WaitSet(m, a) && b != c
    ensures Reaches(m, events, w) && w.kids[a] == Kid(WaitSet(m, a), map[], false)
    ensures var x, y := ConnectSegment(b, left, 0), ConnectSegment(c, right, 0);
      w.lines[a] == R.Net([x, y], [x, y], [], [R.Idle], [], [])
  {
    PairIffFlag(m, a, b);
    PairIffFlag(m, a, c);
    events, w := [], StartWire(m, false);
    assert w.lines[a] == R.Start<End>(1) && w.lines[a].tasks == [R.Idle];
    events, w, left := Connect(m, events, w, a, b);
    events, w, right := Connect(m, events, w, a, c);
    assert w.lines[a].sent == [ConnectSegment(b, left, 0), ConnectSegment(c, right, 0)];
  }

  lemma SomeonePanics(m: Matrix, a: nat) returns (events: seq<WireEvent>, w: Wire)
    requires Handshakable(m) && |m| <= 0x1_0000_0000 && 1 <= a < |m| && |WaitSet(m, a)| > 1
    ensures Reaches(m, events, w) && w.kids[a].panicked
  {
    var b, c := TwoOf(WaitSet(m, a));
    var left, right;
    events, w, left, right := BothQueued(m, a, b, c);
    var x, y := ConnectSegment(b, left, 0), ConnectSegment(c, right, 0);
    ConnectSegmentIsConnect(b, left, 0);
    ConnectSegmentIsConnect(c, right, 0);
    events, w := ReadAcross(m, events, w, a, x, y);
    events, w := ReturnFirst(m, events, w, a, x, y);
    assert c in w.kids[a].wait;
    events, w := ReturnSecond(m, events, w, a, y.bytes);
  }

  /**
   * No run panics a child if and only if the kernel's reads always go as far as they can, or no
   * child waits for more than one connect.
   */
  lemma NeverPanicsIff(m: Matrix, full: bool)
    requires Handshakable(m) && |m| <= 0x1_0000_0000
    ensures NeverPanics(m, full) <==> Survives(m, full)
  {
    if Survives(m, full) {
      forall events: seq<WireEvent> | WireRun(StartWire(m, full), events).Some?
        ensures forall a :: 1 <= a < |WireRun(StartWire(m, full), events).value.kids| ==>
          !WireRun(StartWire(m, full), events).value.kids[a].panicked
      {
        var es := WireHandshakeRefinesQueues(m, full, events);
      }
    } else {
      var a :| 1 <= a < |m| && |WaitSet(m, a)| > 1;
      var events, w := SomeonePanics(m, a);
    }
  }
}
