/**
 * When every message comes with its own descriptor (`recv_message` in `imsg.rs`): one receiver,
 * one `sendmsg` per message and at most one descriptor each.  The answer is exact, for reads
 * that go as far as they can and for reads of any size, with cancelled receives and without.
 */
module Pairing {
  import opened Bytes
  import opened Kernel
  import opened Imsg
  import opened Receivers
  import opened Drift
  import opened Schedules

  ghost predicate Sendable<F>(msgs: seq<Segment<F>>) {
    WholeMessages(msgs) && forall i :: 0 <= i < |msgs| ==> |msgs[i].fds| <= 1
  }

  function Own<F>(msgs: seq<Segment<F>>, j: nat): Option<F> {
    if j < |msgs| && msgs[j].fds != [] then Some(msgs[j].fds[0]) else None
  }

  /** Completed receives got exactly what was sent with their message. */
  ghost predicate Paired<F>(msgs: seq<Segment<F>>, s: Net<F>) {
    forall j :: 0 <= j < |s.done| ==> s.done[j].fd == Own(msgs, j)
  }

  /** Whatever the arrival times and the polls. */
  ghost predicate AlwaysPaired<F(!new)>(r: Regime, msgs: seq<Segment<F>>) {
    forall events: seq<Event<F>> :: Schedule(r, 1, msgs, events) ==> Paired(msgs, Run(Start<F>(1), events).value)
  }

  /** A message without a descriptor, unless of maximal length, is not followed by any with one. */
  ghost predicate DescriptorsFirst<F>(msgs: seq<Segment<F>>) {
    forall i, q :: 0 <= i < q < |msgs| && msgs[i].fds == [] && |msgs[i].bytes| < BUFFER_LENGTH ==> msgs[q].fds == []
  }

  ghost predicate NoneFrom<F>(msgs: seq<Segment<F>>, first: nat) {
    forall i :: first <= i < |msgs| ==> msgs[i].fds == []
  }

  /** The messages that are safe to send, by what kernel and receiver do. */
  ghost predicate Safe<F>(r: Regime, msgs: seq<Segment<F>>) {
    if r.full then DescriptorsFirst(msgs) else NoneFrom(msgs, if r.cancels then 0 else 1)
  }

  // ---- Enough ----

  /** Nothing buffered: the next read starts at the next message. */
  ghost predicate Aligned<F>(s: Net<F>)
    requires |s.tasks| == 1
  {
    && s.buf == [] && |s.done| <= |s.sent|
    && s.queue == s.sent[|s.done|..]
    && s.tasks[0] in {Idle, Waiting(None)}
  }

  /** The next message has been read, it alone, and the receiver holds its descriptor. */
  ghost predicate Loaded<F>(s: Net<F>)
    requires |s.tasks| == 1
  {
    && |s.done| < |s.sent|
    && s.buf == s.sent[|s.done|].bytes
    && s.queue == s.sent[|s.done| + 1..]
    && (s.tasks[0] == Waiting(Own(s.sent, |s.done|)) || (s.tasks[0].Idle? && Own(s.sent, |s.done|) == None))
  }

  /** No descriptors from here on. */
  ghost predicate Bare<F>(msgs: seq<Segment<F>>, s: Net<F>)
    requires |s.tasks| == 1
  {
    && (forall i :: |s.done| <= i < |msgs| ==> msgs[i].fds == [])
    && s.tasks[0] in {Idle, Waiting(None)}
  }

  ghost predicate InStep<F>(msgs: seq<Segment<F>>, s: Net<F>, c: nat) {
    && Tracking(s, c, BytesOf(msgs))
    && s.sent <= msgs
    && Paired(msgs, s)
    && Phase(msgs, s)
  }

  ghost predicate Phase<F>(msgs: seq<Segment<F>>, s: Net<F>)
    requires |s.tasks| == 1
  {
    Aligned(s) || Loaded(s) || Bare(msgs, s)
  }

  lemma CompletePairs<F>(msgs: seq<Segment<F>>, s: Net<F>, cut: Cut, ok: bool)
    requires Paired(msgs, s) && Waits(s, 0)
    requires s.tasks[0].fd == Own(msgs, |s.done|)
    ensures Paired(msgs, Complete(s, 0, cut, ok))
  {
    var next := Complete(s, 0, cut, ok);
    forall j | 0 <= j < |next.done| ensures next.done[j].fd == Own(msgs, j) {
      if j < |s.done| {
        assert next.done[j] == s.done[j];
      }
    }
  }

  /** Reading from the start of a message whose segment is a barrier or fills the read exactly. */
  lemma BarrierRead<F>(queue: seq<Segment<F>>)
    requires Live(queue) && queue != [] && |queue[0].bytes| <= BUFFER_LENGTH
    requires queue[0].fds != [] || |queue[0].bytes| == BUFFER_LENGTH
    ensures Fill(queue, BUFFER_LENGTH) == |queue[0].bytes|
    ensures Take(queue, |queue[0].bytes|) == Read(queue[0].bytes, queue[0].fds, queue[1..])
  {
  }

  lemma AlignedRead<F>(msgs: seq<Segment<F>>, s: Net<F>, c: nat)
    requires Sendable(msgs) && DescriptorsFirst(msgs)
    requires InStep(msgs, s, c) && Aligned(s) && Waits(s, 0)
    requires 0 < Fill(s.queue, BUFFER_LENGTH)
    ensures var next := ReadMore(s, 0, Fill(s.queue, BUFFER_LENGTH)); Loaded(next) || Bare(msgs, next)
  {
    var d, size := |s.done|, Fill(s.queue, BUFFER_LENGTH);
    var next := ReadMore(s, 0, size);
    assert s.queue != [] && s.queue[0] == s.sent[d] == msgs[d];
    if msgs[d].fds != [] || |msgs[d].bytes| == BUFFER_LENGTH {
      BarrierRead(s.queue);
      assert s.sent[d..][1..] == s.sent[d + 1..];
      assert next.buf == msgs[d].bytes;
    } else {
      BareRead(msgs, s, c, size);
    }
  }

  lemma BareRead<F>(msgs: seq<Segment<F>>, s: Net<F>, c: nat, size: nat)
    requires InStep(msgs, s, c) && Waits(s, 0) && s.tasks[0].fd == None
    requires forall i :: |s.done| <= i < |msgs| ==> msgs[i].fds == []
    requires 0 < size <= Reach(s.queue)
    ensures Bare(msgs, ReadMore(s, 0, size))
  {
    PrefixDelivers(s, c, BytesOf(msgs));
    DeliveredAreConsumed(s, c);
    var i, _ := ReadConsumes(s, 0, size, c);
    assert s.sent[i] == msgs[i];
  }

  lemma ArrivePhase<F>(msgs: seq<Segment<F>>, s: Net<F>, segment: Segment<F>)
    requires |s.tasks| == 1 && Phase(msgs, s)
    ensures Phase(msgs, s.(sent := s.sent + [segment], queue := s.queue + [segment]))
  {
    var d, sent := |s.done|, s.sent + [segment];
    if Aligned(s) {
      assert sent[d..] == s.sent[d..] + [segment];
    } else if Loaded(s) {
      assert sent[d + 1..] == s.sent[d + 1..] + [segment];
      assert sent[d] == s.sent[d];
    }
  }

  lemma CompletePhase<F>(msgs: seq<Segment<F>>, s: Net<F>, cut: Cut, ok: bool)
    requires |s.tasks| == 1 && WholeMessages(s.sent) && Waits(s, 0) && s.sent <= msgs
    requires Phase(msgs, s) && Paired(msgs, s) && Split(s.buf) == Some(cut)
    ensures var next := Complete(s, 0, cut, ok); Phase(msgs, next) && Paired(msgs, next)
  {
    if Loaded(s) {
      SplitWhole(s.buf);
    }
    CompletePairs(msgs, s, cut, ok);
  }

  lemma ReadPhase<F>(msgs: seq<Segment<F>>, s: Net<F>, c: nat, size: nat)
    requires Sendable(msgs) && DescriptorsFirst(msgs) && InStep(msgs, s, c)
    requires Waits(s, 0) && Split(s.buf) == None && size == Fill(s.queue, BUFFER_LENGTH) > 0
    ensures Phase(msgs, ReadMore(s, 0, size))
  {
    PrefixDelivers(s, c, BytesOf(msgs));
    SplitWhole(s.buf);
    if Bare(msgs, s) {
      BareRead(msgs, s, c, size);
    } else {
      AlignedRead(msgs, s, c);
    }
  }

  lemma BeginPhase<F>(msgs: seq<Segment<F>>, s: Net<F>)
    requires |s.tasks| == 1 && Phase(msgs, s) && s.tasks[0].Idle?
    ensures Phase(msgs, s.(tasks := s.tasks[0 := Waiting(None)]))
  {
  }

  lemma AbandonPhase<F>(msgs: seq<Segment<F>>, s: Net<F>)
    requires |s.tasks| == 1 && WholeMessages(s.sent) && Phase(msgs, s) && Droppable(s, 0)
    ensures Phase(msgs, s.(tasks := s.tasks[0 := Idle], closed := s.closed + FdList(s.tasks[0].fd)))
  {
    if Loaded(s) {
      SplitWhole(s.buf);
    }
  }

  lemma PollPhase<F>(msgs: seq<Segment<F>>, s: Net<F>, size: nat, ok: bool, c: nat)
    requires Sendable(msgs) && DescriptorsFirst(msgs) && InStep(msgs, s, c)
    requires Next(s, Poll(0, size, ok)).Some? && (Split(s.buf) == None ==> size == Fill(s.queue, BUFFER_LENGTH))
    ensures var next := Next(s, Poll(0, size, ok)).value; Phase(msgs, next) && Paired(msgs, next)
  {
    match Split(s.buf)
    case Some(cut) =>
      PrefixDelivers(s, c, BytesOf(msgs));
      CompletePhase(msgs, s, cut, ok);
    case None => ReadPhase(msgs, s, c, size);
  }

  lemma QuietPhase<F>(msgs: seq<Segment<F>>, s: Net<F>, e: Event<F>)
    requires Live(s.queue) && |s.tasks| == 1 && WholeMessages(s.sent) && Phase(msgs, s)
    requires Next(s, e).Some? && !e.Poll?
    ensures var next := Next(s, e).value; |next.tasks| == 1 && next.done == s.done && Phase(msgs, next)
  {
    match e
    case Arrive(segment) => ArrivePhase(msgs, s, segment);
    case Begin(t) => BeginPhase(msgs, s);
    case Abandon(t) => AbandonPhase(msgs, s);
  }

  lemma StepPhase<F>(r: Regime, msgs: seq<Segment<F>>, s: Net<F>, e: Event<F>, c: nat)
    requires Sendable(msgs) && DescriptorsFirst(msgs) && InStep(msgs, s, c)
    requires Next(s, e).Some? && r.full && Permits(r, s, e)
    ensures var next := Next(s, e).value; |next.tasks| == 1 && Phase(msgs, next) && Paired(msgs, next)
  {
    if e.Poll? {
      assert e.task == 0;
      PollPhase(msgs, s, e.size, e.ok, c);
    } else {
      PrefixDelivers(s, c, BytesOf(msgs));
      QuietPhase(msgs, s, e);
    }
  }

  lemma StepInStep<F>(r: Regime, msgs: seq<Segment<F>>, s: Net<F>, e: Event<F>, c: nat) returns (c': nat)
    requires Sendable(msgs) && DescriptorsFirst(msgs) && InStep(msgs, s, c)
    requires Next(s, e).Some? && r.full && Permits(r, s, e) && Next(s, e).value.sent <= msgs
    ensures InStep(msgs, Next(s, e).value, c')
  {
    StepPhase(r, msgs, s, e, c);
    assert BytesOf(Next(s, e).value.sent) == BytesOf(msgs)[..|Next(s, e).value.sent|];
    c' := StepTracks(s, e, c, BytesOf(msgs));
  }

  lemma {:induction false} RunInStep<F>(r: Regime, msgs: seq<Segment<F>>, s: Net<F>, events: seq<Event<F>>, c: nat)
    requires Sendable(msgs) && DescriptorsFirst(msgs) && InStep(msgs, s, c)
    requires r.full && Permitted(r, s, events) && Run(s, events).Some? && Run(s, events).value.sent <= msgs
    ensures Paired(msgs, Run(s, events).value)
    decreases |events|
  {
    if events != [] {
      var next := Next(s, events[0]).value;
      StepKeepsLive(s, events[0]);
      SentGrows(next, events[1..]);
      var c' := StepInStep(r, msgs, s, events[0], c);
      RunInStep(r, msgs, next, events[1..], c');
    }
  }

  lemma FullReadsPair<F>(r: Regime, msgs: seq<Segment<F>>, events: seq<Event<F>>)
    requires r.full && Sendable(msgs) && DescriptorsFirst(msgs) && Schedule(r, 1, msgs, events)
    ensures Paired(msgs, Run(Start<F>(1), events).value)
  {
    assert BytesOf(msgs)[..0] == BytesOf<F>([]);
    RunInStep(r, msgs, Start<F>(1), events, 0);
  }

  // ---- Enough for reads of any size ----

  /** Nobody has a descriptor to be paired with. */
  lemma BareMessagesPair<F>(msgs: seq<Segment<F>>, events: seq<Event<F>>)
    requires Sendable(msgs) && NoneFrom(msgs, 0)
    requires Run(Start<F>(1), events).Some? && Run(Start<F>(1), events).value.sent <= msgs
    ensures Paired(msgs, Run(Start<F>(1), events).value)
  {
    var s := Run(Start<F>(1), events).value;
    assert forall i :: 0 <= i < |s.sent| ==> s.sent[i] == msgs[i];
    SingleReceiverIsNeverLate(events);
    forall j | 0 <= j < |s.done| ensures s.done[j].fd == None {
      assert SentNotBefore(s.sent, j, s.done[j].fd);
    }
  }

  ghost predicate Untouched<F>(s: Net<F>)
    requires |s.tasks| == 1
  {
    s.queue == s.sent && s.buf == [] && s.done == [] && s.tasks[0] in {Idle, Waiting(None)}
  }

  /** The only descriptor has been read; the first receive has it, or has returned. */
  ghost predicate Taken<F>(msgs: seq<Segment<F>>, s: Net<F>)
    requires |s.tasks| == 1
  {
    && s.sent != [] && Fds(s.queue) == []
    && (if s.done == [] then s.tasks[0] == Waiting(Own(msgs, 0)) else s.tasks[0] in {Idle, Waiting(None)})
  }

  ghost predicate Lone<F>(msgs: seq<Segment<F>>, s: Net<F>) {
    |s.tasks| == 1 && Live(s.queue) && s.sent <= msgs && Paired(msgs, s) && (Untouched(s) || Taken(msgs, s))
  }

  lemma {:induction false} NoFds<F>(segments: seq<Segment<F>>)
    requires NoneFrom(segments, 0)
    ensures Fds(segments) == []
  {
    if segments != [] {
      NoFds(segments[1..]);
    }
  }

  lemma FirstRead<F>(msgs: seq<Segment<F>>, s: Net<F>, size: nat)
    requires Sendable(msgs) && NoneFrom(msgs, 1) && Lone(msgs, s) && Untouched(s)
    requires Waits(s, 0) && 0 < size <= Reach(s.queue)
    ensures Taken(msgs, ReadMore(s, 0, size))
  {
    NoFds(s.queue[1..]);
    TakeConserves(s.queue, size);
    assert Fds(s.queue) == s.queue[0].fds + [];
    assert s.queue[0] == msgs[0];
  }

  lemma LonePoll<F>(msgs: seq<Segment<F>>, s: Net<F>, size: nat, ok: bool)
    requires Sendable(msgs) && NoneFrom(msgs, 1) && Lone(msgs, s) && Next(s, Poll(0, size, ok)).Some?
    ensures Lone(msgs, Next(s, Poll(0, size, ok)).value)
  {
    StepKeepsLive(s, Poll(0, size, ok));
    match Split(s.buf)
    case Some(cut) => CompletePairs(msgs, s, cut, ok);
    case None =>
      TakeConserves(s.queue, size);
      if Untouched(s) {
        FirstRead(msgs, s, size);
      }
  }

  lemma LoneStep<F>(msgs: seq<Segment<F>>, s: Net<F>, e: Event<F>)
    requires Sendable(msgs) && NoneFrom(msgs, 1) && Lone(msgs, s)
    requires Next(s, e).Some? && Next(s, e).value.sent <= msgs && !e.Abandon?
    ensures Lone(msgs, Next(s, e).value)
  {
    match e
    case Arrive(segment) =>
      FdsAppend(s.queue, [segment]);
      assert segment == Next(s, e).value.sent[|s.sent|] == msgs[|s.sent|];
    case Begin(t) =>
    case Poll(t, size, ok) => LonePoll(msgs, s, size, ok);
  }

  lemma {:induction false} LoneRun<F>(r: Regime, msgs: seq<Segment<F>>, s: Net<F>, events: seq<Event<F>>)
    requires Sendable(msgs) && NoneFrom(msgs, 1) && Lone(msgs, s)
    requires !r.cancels && Permitted(r, s, events) && Run(s, events).Some? && Run(s, events).value.sent <= msgs
    ensures Paired(msgs, Run(s, events).value)
    decreases |events|
  {
    if events != [] {
      var next := Next(s, events[0]).value;
      StepKeepsLive(s, events[0]);
      SentGrows(next, events[1..]);
      LoneStep(msgs, s, events[0]);
      LoneRun(r, msgs, next, events[1..]);
    }
  }

  // ---- Necessary for full reads ----

  /**
   * Between receives, part of message m is already buffered; the rest of it and the messages up
   * to q, the only one of them with a descriptor, are unread.
   */
  ghost predicate Carrying<F>(msgs: seq<Segment<F>>, s: Net<F>, m: nat, q: nat, c: nat) {
    && m < q < |msgs| && c < |msgs[m].bytes|
    && s.sent == msgs[..q + 1] && s.tasks == [Idle] && |s.done| == m
    && s.buf == msgs[m].bytes[..c]
    && s.queue == [Segment(msgs[m].bytes[c..], [])] + msgs[m + 1..q + 1]
  }

  /** The receiver reads past the end of message m, and so takes what comes with the next bytes. */
  lemma ReadPast<F>(msgs: seq<Segment<F>>, m: nat, q: nat, c: nat) returns (more: seq<byte>)
    requires Sendable(msgs) && m < q < |msgs| && c < |msgs[m].bytes|
    requires |msgs[m].bytes| - c < BUFFER_LENGTH
    requires forall k :: m < k < q ==> msgs[k].fds == [] && |msgs[k].bytes| == BUFFER_LENGTH
    requires msgs[q].fds != []
    ensures var queue := [Segment(msgs[m].bytes[c..], [])] + msgs[m + 1..q + 1];
      var size := Fill(queue, BUFFER_LENGTH);
      && Live(queue) && 0 < size
      && Take(queue, size).bytes == msgs[m].bytes[c..] + more
      && (m + 1 == q ==> Take(queue, size).fds == msgs[q].fds)
      && (m + 1 < q ==> 0 < |more| < BUFFER_LENGTH && more == msgs[m + 1].bytes[..|more|])
      && (m + 1 < q ==> Take(queue, size).fds == [])
      && (m + 1 < q ==> Take(queue, size).rest == [Segment(msgs[m + 1].bytes[|more|..], [])] + msgs[m + 2..q + 1])
  {
    var first: Segment<F> := Segment(msgs[m].bytes[c..], []);
    var tail := msgs[m + 1..q + 1];
    var queue := [first] + tail;
    assert queue[1..] == tail && tail[0] == msgs[m + 1];
    assert tail[1..] == msgs[m + 2..q + 1];
    var size := Fill(queue, BUFFER_LENGTH);
    assert Reach(queue) == |first.bytes| + Reach(tail);
    assert size > |first.bytes|;
    more := Take(tail, size - |first.bytes|).bytes;
  }

  /** One receive: complete message m and hand over what has been picked up. */
  lemma ReceiveCarrying<F>(r: Regime, msgs: seq<Segment<F>>, s: Net<F>, m: nat, q: nat, c: nat, events: seq<Event<F>>)
    returns (next: Net<F>, events': seq<Event<F>>, c': nat)
    requires Sendable(msgs) && Carrying(msgs, s, m, q, c) && Leads(r, 1, events, s)
    requires |msgs[m].bytes| - c < BUFFER_LENGTH
    requires forall k :: m < k < q ==> msgs[k].fds == [] && |msgs[k].bytes| == BUFFER_LENGTH
    requires msgs[q].fds != []
    ensures Leads(r, 1, events', next) && next.sent == s.sent && |next.done| == m + 1
    ensures m + 1 == q ==> next.done[m].fd == Own(msgs, q)
    ensures m + 1 < q ==> Carrying(msgs, next, m + 1, q, c') && 0 < c'
  {
    var f := msgs[m].bytes;
    var more := ReadPast(msgs, m, q, c);
    c' := |more|;
    var size := Fill(s.queue, BUFFER_LENGTH);
    assert f == f[..c] + f[c..];
    SplitStream(s.buf, f[c..], f, []);
    assert f + [] == f;

    var s1;
    s1, events' := BeginOne(r, 1, s, 0, events);
    var s2 := ReadMore(s1, 0, size);
    events' := Extend(r, 1, events', s1, Poll(0, size, true), s2);
    Assoc(f[..c], f[c..], more);
    assert s2.buf == f + more;
    SplitStream(s2.buf, [], f, more);
    assert f + more + [] == f + more && s2.buf[|f|..] == more;
    next := Complete(s2, 0, Split(s2.buf).value, true);
    events' := Extend(r, 1, events', s2, Poll(0, 0, true), next);
  }

  /** Carrying on like this, the descriptor of message q comes out with message q - 1. */
  lemma {:induction false} CarryTo<F>(r: Regime, msgs: seq<Segment<F>>, s: Net<F>, m: nat, q: nat, c: nat, events: seq<Event<F>>)
    returns (last: Net<F>, events': seq<Event<F>>)
    requires Sendable(msgs) && Carrying(msgs, s, m, q, c) && Leads(r, 1, events, s)
    requires |msgs[m].bytes| - c < BUFFER_LENGTH
    requires forall k :: m <= k < q ==> msgs[k].fds == []
    requires forall k :: m < k < q ==> |msgs[k].bytes| == BUFFER_LENGTH
    requires msgs[q].fds != []
    ensures Leads(r, 1, events', last) && last.sent <= msgs
    ensures |last.done| == q && last.done[q - 1].fd == Own(msgs, q)
    decreases q - m
  {
    var c';
    last, events', c' := ReceiveCarrying(r, msgs, s, m, q, c, events);
    if m + 1 < q {
      last, events' := CarryTo(r, msgs, last, m + 1, q, c', events');
    }
  }

  /** The closest offending pair has nothing in between that could end the carrying. */
  lemma {:induction false} ClosestGap<F>(msgs: seq<Segment<F>>, i: nat, q: nat) returns (i': nat, q': nat)
    requires i < q < |msgs| && msgs[i].fds == [] && |msgs[i].bytes| < BUFFER_LENGTH && msgs[q].fds != []
    requires Sendable(msgs)
    ensures i' < q' < |msgs| && |msgs[i'].bytes| < BUFFER_LENGTH && msgs[q'].fds != []
    ensures forall k :: i' <= k < q' ==> msgs[k].fds == []
    ensures forall k :: i' < k < q' ==> |msgs[k].bytes| == BUFFER_LENGTH
    decreases q - i
  {
    if k :| i < k < q && msgs[k].fds != [] {
      i', q' := ClosestGap(msgs, i, k);
    } else if k :| i < k < q && |msgs[k].bytes| < BUFFER_LENGTH {
      i', q' := ClosestGap(msgs, k, q);
    } else {
      i', q' := i, q;
    }
  }

  /** Everything before message i received, and messages i to q waiting in the socket. */
  lemma Gather<F>(r: Regime, msgs: seq<Segment<F>>, i: nat, q: nat) returns (s: Net<F>, events: seq<Event<F>>)
    requires Sendable(msgs) && i < q < |msgs| && msgs[i].fds == []
    ensures Leads(r, 1, events, s) && Carrying(msgs, s, i, q, 0)
  {
    s, events := ReceiveFirst(r, 1, msgs, i);
    s, events := ArriveUpTo(r, 1, msgs, s, i, q + 1, events);
    assert msgs[i] == Segment(msgs[i].bytes[0..], []);
    assert msgs[i..q + 1] == [msgs[i]] + msgs[i + 1..q + 1];
    assert s.tasks == [Idle];
  }

  /** A run in which some message is returned with another one's descriptor. */
  lemma Mispaired<F>(r: Regime, msgs: seq<Segment<F>>) returns (events: seq<Event<F>>)
    requires Sendable(msgs) && !DescriptorsFirst(msgs)
    ensures Schedule(r, 1, msgs, events) && !Paired(msgs, Run(Start<F>(1), events).value)
  {
    var i, q :| 0 <= i < q < |msgs| && msgs[i].fds == [] && |msgs[i].bytes| < BUFFER_LENGTH && msgs[q].fds != [];
    i, q := ClosestGap(msgs, i, q);
    var s;
    s, events := Gather(r, msgs, i, q);
    s, events := CarryTo(r, msgs, s, i, q, 0, events);
    assert Own(msgs, q - 1) == None;
  }

  // ---- Necessary for reads of any size ----

  /** The descriptor of a message comes with its first byte. */
  lemma FirstByte<F>(r: Regime, s: Net<F>, x: Segment<F>, events: seq<Event<F>>)
    returns (next: Net<F>, events': seq<Event<F>>)
    requires !r.full && Leads(r, 1, events, s) && s.buf == [] && s.tasks == [Waiting(None)]
    requires s.queue != [] && s.queue[0] == x && IsFrame(x.bytes)
    ensures Leads(r, 1, events', next)
    ensures next == s.(buf := x.bytes[..1], queue := [Segment(x.bytes[1..], [])] + s.queue[1..],
                       tasks := [Waiting(Keep(None, x.fds))], closed := s.closed + Surplus(None, x.fds))
  {
    EmptyLeft(x.bytes[..1]);
    next := ReadMore(s, 0, 1);
    events' := Extend(r, 1, events, s, Poll(0, 1, true), next);
  }

  /** The rest of a message alone in the socket, whose descriptor is gone. */
  lemma ReadRest<F>(r: Regime, s: Net<F>, f: seq<byte>, events: seq<Event<F>>)
    returns (next: Net<F>, events': seq<Event<F>>)
    requires !r.full && Leads(r, 1, events, s) && IsFrame(f)
    requires s.buf == f[..1] && s.queue == [Segment(f[1..], [])] && s.tasks == [Waiting(None)]
    ensures Leads(r, 1, events', next) && next.sent == s.sent
    ensures |next.done| == |s.done| + 1 && next.done[|s.done|].fd == None
  {
    assert s.queue[1..] == [];
    assert f == f[..1] + f[1..];
    next := ReadMore(s, 0, |f| - 1);
    events' := Extend(r, 1, events, s, Poll(0, |f| - 1, true), next);
    next, events' := CompleteOne(r, 1, next, 0, events');
  }

  /** With cancelled receives: the descriptor comes with the first byte, and is closed at once. */
  lemma Cancelled<F>(r: Regime, msgs: seq<Segment<F>>, q: nat) returns (s: Net<F>, events: seq<Event<F>>)
    requires !r.full && r.cancels && Sendable(msgs) && q < |msgs| && msgs[q].fds != []
    ensures Leads(r, 1, events, s) && s.sent <= msgs && |s.done| == q + 1 && s.done[q].fd == None
  {
    var f, fd := msgs[q].bytes, msgs[q].fds[0];
    s, events := ReceiveFirst(r, 1, msgs, q);
    s, events := ArriveOne(r, 1, msgs, s, q, events);
    s, events := BeginOne(r, 1, s, 0, events);
    assert s.queue == [msgs[q]] && s.queue[1..] == [];

    var s1;
    s1, events := FirstByte(r, s, msgs[q], events);
    s := s1.(tasks := s1.tasks[0 := Idle], closed := s1.closed + [fd]);
    events := Extend(r, 1, events, s1, Abandon(0), s);
    s, events := BeginOne(r, 1, s, 0, events);
    s, events := ReadRest(r, s, f, events);
  }

  /** Two messages in the socket, and the receiver a byte into the second before it returns the first. */
  lemma Straddle<F>(r: Regime, msgs: seq<Segment<F>>, q: nat) returns (s: Net<F>, events: seq<Event<F>>)
    requires !r.full && Sendable(msgs) && 1 <= q < |msgs| && msgs[q].fds != []
    ensures Leads(r, 1, events, s) && s.sent == msgs[..q + 1] && |s.done| == q - 1
    ensures s.buf == msgs[q - 1].bytes + msgs[q].bytes[..1] && s.queue == [Segment(msgs[q].bytes[1..], [])]
    ensures s.tasks == [Waiting(if msgs[q - 1].fds == [] then Own(msgs, q) else Own(msgs, q - 1))]
  {
    var x, y := msgs[q - 1], msgs[q];
    var a, b := x.bytes, y.bytes;
    s, events := ReceiveFirst(r, 1, msgs, q - 1);
    s, events := ArriveOne(r, 1, msgs, s, q - 1, events);
    s, events := ArriveOne(r, 1, msgs, s, q, events);
    s, events := BeginOne(r, 1, s, 0, events);
    assert s.queue == [x, y] && s.queue[1..] == [y];

    assert IsFrame(a) && IsFrame(b);
    var s1;
    s1, events := FirstByte(r, s, x, events);
    assert s1.queue == [Segment(a[1..], []), y];
    TakeAcross(x, y);
    s := ReadMore(s1, 0, |a|);
    events := Extend(r, 1, events, s1, Poll(0, |a|, true), s);
  }

  lemma Uncancelled<F>(r: Regime, msgs: seq<Segment<F>>, q: nat) returns (s: Net<F>, events: seq<Event<F>>)
    requires !r.full && Sendable(msgs) && 1 <= q < |msgs| && msgs[q].fds != []
    ensures Leads(r, 1, events, s) && s.sent <= msgs && !Paired(msgs, s)
  {
    var a, b := msgs[q - 1].bytes, msgs[q].bytes;
    s, events := Straddle(r, msgs, q);
    SplitStream(s.buf, [], a, b[..1]);
    assert a + b[..1] + [] == a + b[..1] && s.buf[|a|..] == b[..1];
    var s1 := Complete(s, 0, Split(s.buf).value, true);
    events := Extend(r, 1, events, s, Poll(0, 0, true), s1);
    s := s1;
    if msgs[q - 1].fds == [] {
      assert s.done[q - 1].fd != Own(msgs, q - 1);
    } else {
      s, events := BeginOne(r, 1, s, 0, events);
      s, events := ReadRest(r, s, b, events);
      assert s.done[q].fd != Own(msgs, q);
    }
  }

  lemma ShortReadsMispair<F>(r: Regime, msgs: seq<Segment<F>>) returns (events: seq<Event<F>>)
    requires !r.full && Sendable(msgs) && !Safe(r, msgs)
    ensures Schedule(r, 1, msgs, events) && !Paired(msgs, Run(Start<F>(1), events).value)
  {
    var s;
    if r.cancels {
      var q :| 0 <= q < |msgs| && msgs[q].fds != [];
      s, events := Cancelled(r, msgs, q);
      assert s.done[q].fd != Own(msgs, q);
    } else {
      var q :| 1 <= q < |msgs| && msgs[q].fds != [];
      s, events := Uncancelled(r, msgs, q);
    }
  }

  // ---- The exact condition ----

  /**
   * Every message is returned with its own descriptor on every schedule if and only if: with
   * full reads, no descriptor follows a message without one of less than maximal length; with
   * reads of any size, only the first message has a descriptor, or none if receives may be
   * cancelled.
   */
  lemma PairingIff<F(!new)>(r: Regime, msgs: seq<Segment<F>>)
    requires Sendable(msgs)
    ensures AlwaysPaired(r, msgs) <==> Safe(r, msgs)
  {
    if Safe(r, msgs) {
      forall events: seq<Event<F>> | Schedule(r, 1, msgs, events)
        ensures Paired(msgs, Run(Start<F>(1), events).value)
      {
        if r.full {
          FullReadsPair(r, msgs, events);
        } else if r.cancels {
          BareMessagesPair(msgs, events);
        } else {
          LoneRun(r, msgs, Start<F>(1), events);
        }
      }
    } else if r.full {
      var events := Mispaired(r, msgs);
    } else {
      var events := ShortReadsMispair(r, msgs);
    }
  }

  // ---- The first messages, whatever follows them ----

  /** The first k segments, as far as they have been sent, are whole messages with a descriptor. */
  ghost predicate OneEach<F>(segments: seq<Segment<F>>, k: nat) {
    forall i :: 0 <= i < k && i < |segments| ==> IsFrame(segments[i].bytes) && |segments[i].fds| == 1
  }

  /** This receive returned message j with its own descriptor. */
  ghost predicate Owns<F>(d: Delivery<F>, sent: seq<Segment<F>>, j: nat) {
    j < |sent| && d.frame == sent[j].bytes && d.fd == Own(sent, j)
  }

  ghost predicate Owned<F>(done: seq<Delivery<F>>, sent: seq<Segment<F>>, k: nat) {
    forall j :: 0 <= j < |done| && j < k ==> Owns(done[j], sent, j)
  }

  lemma OwnedGrows<F>(done: seq<Delivery<F>>, sent: seq<Segment<F>>, k: nat, segment: Segment<F>)
    requires Owned(done, sent, k)
    ensures Owned(done, sent + [segment], k)
  {
    forall j | 0 <= j < |done| && j < k ensures Owns(done[j], sent + [segment], j) {
      assert Owns(done[j], sent, j) && (sent + [segment])[j] == sent[j];
    }
  }

  lemma OwnedSnoc<F>(done: seq<Delivery<F>>, sent: seq<Segment<F>>, k: nat, d: Delivery<F>)
    requires Owned(done, sent, k)
    requires |done| < k ==> Owns(d, sent, |done|)
    ensures Owned(done + [d], sent, k)
  {
    forall j | 0 <= j < |done + [d]| && j < k ensures Owns((done + [d])[j], sent, j) {
      if j < |done| {
        assert (done + [d])[j] == done[j];
      }
    }
  }

  ghost predicate Front<F>(s: Net<F>, k: nat) {
    && |s.tasks| == 1 && Owned(s.done, s.sent, k)
    && (|s.done| < k ==> Aligned(s) || (Loaded(s) && s.tasks[0].Waiting?))
  }

  lemma ArriveFront<F>(s: Net<F>, k: nat, segment: Segment<F>)
    requires Front(s, k)
    ensures Front(s.(sent := s.sent + [segment], queue := s.queue + [segment]), k)
  {
    var d, sent := |s.done|, s.sent + [segment];
    OwnedGrows(s.done, s.sent, k, segment);
    if |s.done| < k {
      if Aligned(s) {
        assert sent[d..] == s.sent[d..] + [segment];
      } else {
        assert sent[d + 1..] == s.sent[d + 1..] + [segment];
      }
    }
  }

  lemma CompleteFront<F>(s: Net<F>, k: nat, cut: Cut, ok: bool)
    requires Front(s, k) && OneEach(s.sent, k) && Waits(s, 0) && Split(s.buf) == Some(cut)
    ensures Front(Complete(s, 0, cut, ok), k)
  {
    if |s.done| < k {
      SplitWhole(s.buf);
    }
    OwnedSnoc(s.done, s.sent, k, Delivery(0, cut.header, cut.frame, s.tasks[0].fd, ok));
  }

  lemma ReadFront<F>(s: Net<F>, k: nat, size: nat)
    requires Front(s, k) && OneEach(s.sent, k) && Waits(s, 0) && Live(s.queue)
    requires Split(s.buf) == None && size == Fill(s.queue, BUFFER_LENGTH) > 0
    ensures Front(ReadMore(s, 0, size), k)
  {
    if |s.done| < k {
      SplitWhole(s.buf);
      BarrierRead(s.queue);
      EmptyLeft(s.queue[0].bytes);
      assert s.sent[|s.done|..][1..] == s.sent[|s.done| + 1..];
    }
  }

  lemma AbandonFront<F>(s: Net<F>, k: nat)
    requires Front(s, k) && OneEach(s.sent, k) && Droppable(s, 0)
    ensures Front(s.(tasks := s.tasks[0 := Idle], closed := s.closed + FdList(s.tasks[0].fd)), k)
  {
    if |s.done| < k {
      SplitWhole(s.buf);
    }
  }

  lemma StepFront<F>(r: Regime, s: Net<F>, k: nat, e: Event<F>)
    requires r.full && Live(s.queue) && Front(s, k) && OneEach(s.sent, k) && Permits(r, s, e) && Next(s, e).Some?
    ensures Front(Next(s, e).value, k)
  {
    match e
    case Arrive(segment) => ArriveFront(s, k, segment);
    case Begin(t) =>
    case Abandon(t) => AbandonFront(s, k);
    case Poll(t, size, ok) =>
      match Split(s.buf)
      case Some(cut) => CompleteFront(s, k, cut, ok);
      case None => ReadFront(s, k, size);
  }

  lemma {:induction false} RunFront<F>(r: Regime, s: Net<F>, k: nat, events: seq<Event<F>>)
    requires r.full && Live(s.queue) && Front(s, k) && Permitted(r, s, events) && Run(s, events).Some?
    requires OneEach(Run(s, events).value.sent, k)
    ensures Owned(Run(s, events).value.done, Run(s, events).value.sent, k)
    decreases |events|
  {
    SentGrows(s, events);
    if events != [] {
      var next := Next(s, events[0]).value;
      StepKeepsLive(s, events[0]);
      StepFront(r, s, k, events[0]);
      RunFront(r, next, k, events[1..]);
    }
  }

  /**
   * If the first k messages have a descriptor each, the first k receives return each message
   * with its own, whatever is sent after them: broken frames, any number of descriptors.
   */
  lemma FirstReceives<F>(r: Regime, k: nat, events: seq<Event<F>>)
    requires r.full && Permitted(r, Start<F>(1), events) && Run(Start<F>(1), events).Some?
    requires OneEach(Run(Start<F>(1), events).value.sent, k)
    ensures var s := Run(Start<F>(1), events).value; Owned(s.done, s.sent, k)
  {
    RunFront(r, Start<F>(1), k, events);
  }
}
