/**
 * Receiving (`recv_message` in `imsg.rs`), as a step system.  Any number of receive futures
 * share one handler; a step is one iteration of the loop, made under the lock, and a future
 * may be dropped before its first poll or while it waits for the socket.
 */
module Receivers {
  import opened Bytes
  import opened Kernel
  import opened Imsg

  /** As many descriptors as fit the receiver's 128-byte control buffer. */
  const MAX_FDS: nat := 28

  /** A slot for a future: `fd` is its local `fd_result`. */
  datatype Task<F> = Idle | Waiting(fd: Option<F>)

  /** A completed receive: the frame, the descriptor it collected, and whether the payload decoded. */
  datatype Delivery<F> = Delivery(task: nat, header: Header, frame: seq<byte>, fd: Option<F>, ok: bool)

  datatype Net<F> = Net(
    sent: seq<Segment<F>>,      // everything the peer has sent
    queue: seq<Segment<F>>,     // unread, in the kernel
    buf: seq<byte>,             // the handler's read buffer
    tasks: seq<Task<F>>,
    done: seq<Delivery<F>>,
    closed: seq<F>)             // descriptors the receiver has closed

  function Start<F>(slots: nat): Net<F> {
    Net([], [], [], seq(slots, i => Idle), [], [])
  }

  datatype Event<F> =
    | Arrive(segment: Segment<F>)
    | Begin(task: nat)
    | Poll(task: nat, size: nat, ok: bool)
    | Abandon(task: nat)

  /** The first descriptor stays with the future; the rest are closed on the spot. */
  function Keep<F>(current: Option<F>, fds: seq<F>): Option<F> {
    if current.Some? || fds == [] then current else Some(fds[0])
  }

  function Surplus<F>(current: Option<F>, fds: seq<F>): seq<F> {
    if current.Some? || fds == [] then fds else fds[1..]
  }

  /** The future finds a complete message in the buffer. */
  function Complete<F>(s: Net<F>, t: nat, cut: Cut, ok: bool): Net<F>
    requires t < |s.tasks| && s.tasks[t].Waiting?
  {
    var fd := s.tasks[t].fd;
    s.(buf := cut.rest,
       tasks := s.tasks[t := Idle],
       done := s.done + [Delivery(t, cut.header, cut.frame, fd, ok)],
       closed := s.closed + if ok then [] else FdList(fd))
  }

  /** The future reads from the socket. */
  function ReadMore<F>(s: Net<F>, t: nat, size: nat): Net<F>
    requires t < |s.tasks| && s.tasks[t].Waiting?
    requires Live(s.queue) && 0 < size <= Reach(s.queue)
  {
    var r, fd := Take(s.queue, size), s.tasks[t].fd;
    s.(buf := s.buf + r.bytes,
       queue := r.rest,
       tasks := s.tasks[t := Waiting(Keep(fd, r.fds))],
       closed := s.closed + Surplus(fd, r.fds))
  }

  predicate Waits<F>(s: Net<F>, t: nat) {
    t < |s.tasks| && s.tasks[t].Waiting?
  }

  /** Also the way out on end of stream and on a read error: both happen at the same await. */
  predicate Droppable<F>(s: Net<F>, t: nat) {
    Waits(s, t) && (s.tasks[t].fd.None? || Split(s.buf) == None)
  }

  function Next<F>(s: Net<F>, e: Event<F>): Option<Net<F>>
    requires Live(s.queue)
  {
    match e
    case Arrive(segment) =>
      if segment.bytes != [] && |segment.fds| <= MAX_FDS then
        Some(s.(sent := s.sent + [segment], queue := s.queue + [segment]))
      else None
    case Begin(t) =>
      if t < |s.tasks| && s.tasks[t].Idle? then Some(s.(tasks := s.tasks[t := Waiting(None)])) else None
    case Poll(t, size, ok) =>
      if !Waits(s, t) then None
      else (match Split(s.buf)
        case Some(cut) => Some(Complete(s, t, cut, ok))
        case None =>
          if 0 < size <= BUFFER_LENGTH && size <= Reach(s.queue) then Some(ReadMore(s, t, size)) else None)
    case Abandon(t) =>
      if Droppable(s, t) then
        Some(s.(tasks := s.tasks[t := Idle], closed := s.closed + FdList(s.tasks[t].fd)))
      else None
  }

  /**
   * A future can be dropped before its first poll and whenever it waits for the socket; that
   * closes the descriptor it holds and leaves the stream and the buffer to the others.
   */
  lemma DropLosesNothing<F>(s: Net<F>, t: nat)
    requires Live(s.queue) && Waits(s, t)
    ensures s.tasks[t].fd == None || Split(s.buf) == None <==> Next(s, Abandon(t)).Some?
    ensures Next(s, Abandon(t)).Some? ==>
      var next := Next(s, Abandon(t)).value;
      && next.closed == s.closed + FdList(s.tasks[t].fd) && next.tasks[t].Idle?
      && next.buf == s.buf && next.queue == s.queue && next.done == s.done && next.sent == s.sent
  {
  }

  lemma StepKeepsLive<F>(s: Net<F>, e: Event<F>)
    requires Live(s.queue) && Next(s, e).Some?
    ensures Live(Next(s, e).value.queue)
  {
    if e.Poll? && Split(s.buf) == None {
      TakeConserves(s.queue, e.size);
    }
  }

  /** All the events in order, if each is possible when its turn comes. */
  function Run<F>(s: Net<F>, events: seq<Event<F>>): (r: Option<Net<F>>)
    requires Live(s.queue)
    ensures r.Some? ==> Live(r.value.queue)
    decreases |events|
  {
    if events == [] then Some(s)
    else
      match Next(s, events[0])
      case None => None
      case Some(next) => StepKeepsLive(s, events[0]); Run(next, events[1..])
  }

  lemma {:induction false} RunAppend<F>(s: Net<F>, a: seq<Event<F>>, b: seq<Event<F>>)
    requires Live(s.queue) && Run(s, a).Some?
    ensures Run(s, a + b) == Run(Run(s, a).value, b)
    decreases |a|
  {
    if a == [] {
      EmptyLeft(b);
    } else {
      HeadTail(a, b);
      StepKeepsLive(s, a[0]);
      RunAppend(Next(s, a[0]).value, a[1..], b);
    }
  }

  // ---- Bytes ----

  function Frames<F>(done: seq<Delivery<F>>): seq<seq<byte>> {
    if done == [] then [] else Frames(done[..|done| - 1]) + [done[|done| - 1].frame]
  }

  lemma FramesSnoc<F>(done: seq<Delivery<F>>, d: Delivery<F>)
    ensures Frames(done + [d]) == Frames(done) + [d.frame]
  {
    assert (done + [d])[..|done|] == done;
  }

  /** Delivered frames, then the buffer, then what is unread: nothing lost, added or reordered. */
  ghost predicate BytesConserved<F>(s: Net<F>) {
    Flatten(Frames(s.done)) + (s.buf + Data(s.queue)) == Data(s.sent)
  }

  lemma StepConservesBytes<F>(s: Net<F>, e: Event<F>)
    requires Live(s.queue) && Next(s, e).Some? && BytesConserved(s)
    ensures BytesConserved(Next(s, e).value)
  {
    var past := Flatten(Frames(s.done));
    match e
    case Arrive(segment) =>
      DataAppend(s.queue, [segment]);
      DataAppend(s.sent, [segment]);
      Assoc(s.buf, Data(s.queue), Data([segment]));
      Assoc(past, s.buf + Data(s.queue), Data([segment]));
    case Begin(_) =>
    case Abandon(_) =>
    case Poll(t, size, ok) =>
      match Split(s.buf)
      case Some(cut) =>
        FramesSnoc(s.done, Delivery(t, cut.header, cut.frame, s.tasks[t].fd, ok));
        FlattenSnoc(Frames(s.done), cut.frame);
        Assoc(cut.frame, cut.rest, Data(s.queue));
        Assoc(past, cut.frame, cut.rest + Data(s.queue));
      case None =>
        TakeConserves(s.queue, size);
        Assoc(s.buf, Take(s.queue, size).bytes, Data(Take(s.queue, size).rest));
  }

  /** For every chunking, any number of receivers and any cancellations. */
  lemma {:induction false} RunConservesBytes<F>(s: Net<F>, events: seq<Event<F>>)
    requires Live(s.queue) && BytesConserved(s) && Run(s, events).Some?
    ensures BytesConserved(Run(s, events).value)
    decreases |events|
  {
    if events != [] {
      StepKeepsLive(s, events[0]);
      StepConservesBytes(s, events[0]);
      RunConservesBytes(Next(s, events[0]).value, events[1..]);
    }
  }

  // ---- Frames ----

  /** As long as what was sent follows a given succession of frames, so does what is delivered. */
  ghost predicate DeliversInOrder<F>(s: Net<F>, fs: seq<seq<byte>>) {
    Data(s.sent) <= Flatten(fs) ==> |s.done| <= |fs| && Frames(s.done) == fs[..|s.done|]
  }

  lemma CancelLeft<T>(p: seq<T>, a: seq<T>, b: seq<T>)
    requires p + a == p + b
    ensures a == b
  {
    assert (p + a)[|p|..] == a && (p + b)[|p|..] == b;
  }

  lemma SplitFrames(fs: seq<seq<byte>>, d: nat)
    requires d <= |fs|
    ensures Flatten(fs) == Flatten(fs[..d]) + Flatten(fs[d..])
    ensures d < |fs| ==> Flatten(fs[d..]) == fs[d] + Flatten(fs[d + 1..])
    ensures d < |fs| ==> fs[..d + 1] == fs[..d] + [fs[d]]
  {
    assert fs == fs[..d] + fs[d..];
    FlattenAppend(fs[..d], fs[d..]);
    if d < |fs| {
      var tail := fs[d..];
      assert tail[0] == fs[d] && tail[1..] == fs[d + 1..];
    }
  }

  /** What is buffered and unread, continued by what is still to be sent, starts at the next frame. */
  lemma RemainingFrames<F>(s: Net<F>, fs: seq<seq<byte>>, more: seq<byte>)
    requires BytesConserved(s) && Data(s.sent) + more == Flatten(fs)
    requires |s.done| <= |fs| && Frames(s.done) == fs[..|s.done|]
    ensures s.buf + (Data(s.queue) + more) == Flatten(fs[|s.done|..])
  {
    var past, rest := Flatten(Frames(s.done)), Flatten(fs[|s.done|..]);
    SplitFrames(fs, |s.done|);
    Assoc(past, s.buf + Data(s.queue), more);
    CancelLeft(past, (s.buf + Data(s.queue)) + more, rest);
    Assoc(s.buf, Data(s.queue), more);
  }

  /** Whatever can be split off is the next frame. */
  lemma SplitIsNextFrame<F>(s: Net<F>, fs: seq<seq<byte>>, more: seq<byte>)
    requires BytesConserved(s) && AreFrames(fs) && Data(s.sent) + more == Flatten(fs)
    requires |s.done| <= |fs| && Frames(s.done) == fs[..|s.done|] && Split(s.buf).Some?
    ensures |s.done| < |fs| && Split(s.buf).value.frame == fs[|s.done|]
  {
    var d := |s.done|;
    RemainingFrames(s, fs, more);
    SplitFrames(fs, d);
    assert Flatten(fs[d..]) != [];
    SplitStream(s.buf, Data(s.queue) + more, fs[d], Flatten(fs[d + 1..]));
  }

  lemma CompleteDeliversInOrder<F>(s: Net<F>, t: nat, ok: bool, fs: seq<seq<byte>>, more: seq<byte>)
    requires BytesConserved(s) && AreFrames(fs) && Data(s.sent) + more == Flatten(fs)
    requires |s.done| <= |fs| && Frames(s.done) == fs[..|s.done|]
    requires Waits(s, t) && Split(s.buf).Some?
    ensures var next := Complete(s, t, Split(s.buf).value, ok);
      |next.done| == |s.done| + 1 <= |fs| && Frames(next.done) == fs[..|next.done|]
  {
    var cut := Split(s.buf).value;
    SplitIsNextFrame(s, fs, more);
    SplitFrames(fs, |s.done|);
    FramesSnoc(s.done, Delivery(t, cut.header, cut.frame, s.tasks[t].fd, ok));
  }

  lemma StepDeliversInOrder<F>(s: Net<F>, e: Event<F>, fs: seq<seq<byte>>)
    requires Live(s.queue) && Next(s, e).Some? && BytesConserved(s) && AreFrames(fs) && DeliversInOrder(s, fs)
    ensures DeliversInOrder(Next(s, e).value, fs)
  {
    var next := Next(s, e).value;
    if Data(next.sent) <= Flatten(fs) {
      if e.Arrive? {
        DataAppend(s.sent, [e.segment]);
      } else if e.Poll? && Split(s.buf).Some? {
        var more := Flatten(fs)[|Data(s.sent)|..];
        assert Data(s.sent) + more == Flatten(fs);
        CompleteDeliversInOrder(s, e.task, e.ok, fs, more);
      }
    }
  }

  /**
   * Each frame goes to exactly one completed receive, in the order sent and unaltered,
   * whatever the sizes of the segments and reads, the number of receivers, the cancellations
   * and the payloads that failed to decode on the way.
   */
  lemma {:induction false} RunDeliversInOrder<F>(s: Net<F>, events: seq<Event<F>>, fs: seq<seq<byte>>)
    requires Live(s.queue) && BytesConserved(s) && AreFrames(fs) && DeliversInOrder(s, fs)
    requires Run(s, events).Some?
    ensures DeliversInOrder(Run(s, events).value, fs)
    decreases |events|
  {
    if events != [] {
      StepKeepsLive(s, events[0]);
      StepConservesBytes(s, events[0]);
      StepDeliversInOrder(s, events[0], fs);
      RunDeliversInOrder(Next(s, events[0]).value, events[1..], fs);
    }
  }

  /** From the start, for any number of receivers. */
  lemma EveryRunDelivers<F>(slots: nat, events: seq<Event<F>>, fs: seq<seq<byte>>)
    requires AreFrames(fs) && Run(Start<F>(slots), events).Some?
    requires Data(Run(Start<F>(slots), events).value.sent) <= Flatten(fs)
    ensures var s := Run(Start<F>(slots), events).value;
      && |s.done| <= |fs| && Frames(s.done) == fs[..|s.done|]
      && Flatten(Frames(s.done)) + (s.buf + Data(s.queue)) == Data(s.sent)
  {
    RunConservesBytes(Start<F>(slots), events);
    RunDeliversInOrder(Start<F>(slots), events, fs);
  }

  // ---- The read buffer ----

  const BUFFER_LIMIT: nat := 131069

  /** Twice the message limit is never reached, whatever the headers say. */
  lemma {:induction false} RunBoundsBuffer<F>(s: Net<F>, events: seq<Event<F>>)
    requires Live(s.queue) && |s.buf| <= BUFFER_LIMIT && Run(s, events).Some?
    ensures |Run(s, events).value.buf| <= BUFFER_LIMIT
    ensures Split(Run(s, events).value.buf) == None ==> |Run(s, events).value.buf| < BUFFER_LENGTH
    decreases |events|
  {
    if events == [] {
      if Split(s.buf) == None {
        IncompleteIsShort(s.buf);
      }
    } else {
      StepKeepsLive(s, events[0]);
      if Split(s.buf) == None {
        IncompleteIsShort(s.buf);
      }
      RunBoundsBuffer(Next(s, events[0]).value, events[1..]);
    }
  }
}
