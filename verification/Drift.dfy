/** How far a descriptor can drift from the message it was sent with (`imsg.rs`). */
module Drift {
  import opened Bytes
  import opened Kernel
  import opened Imsg
  import opened Receivers

  // ---- Segments that are whole messages ----

  ghost function BytesOf<F>(segments: seq<Segment<F>>): (parts: seq<seq<byte>>)
    ensures |parts| == |segments|
  {
    seq(|segments|, i requires 0 <= i < |segments| => segments[i].bytes)
  }

  lemma {:induction false} DataIsFlatten<F>(segments: seq<Segment<F>>)
    ensures Data(segments) == Flatten(BytesOf(segments))
  {
    if segments != [] {
      assert BytesOf(segments)[1..] == BytesOf(segments[1..]);
      DataIsFlatten(segments[1..]);
    }
  }

  ghost predicate WholeMessages<F>(segments: seq<Segment<F>>) {
    forall i :: 0 <= i < |segments| ==> IsFrame(segments[i].bytes)
  }

  /** Segments consumed completely; at most the next one is split. */
  ghost predicate Consumed<F>(s: Net<F>, c: nat) {
    c + |s.queue| == |s.sent| && Live(s.queue) && Remains(s.queue, s.sent, c)
  }

  lemma ReadConsumes<F>(s: Net<F>, t: nat, size: nat, c: nat) returns (k: nat, c': nat)
    requires Consumed(s, c) && Waits(s, t) && 0 < size <= Reach(s.queue)
    ensures c <= k < |s.sent|
    ensures Take(s.queue, size).fds != [] ==> Take(s.queue, size).fds == s.sent[k].fds
    ensures Consumed(ReadMore(s, t, size), c')
  {
    var rest := Take(s.queue, size).rest;
    TakeConserves(s.queue, size);
    var last := TakeShape(s.queue, size);
    k := c + last;
    assert last > 0 ==> s.queue[last] == s.queue[1..][last - 1] == s.sent[k];
    if rest == s.queue[last + 1..] {
      c' := k + 1;
      assert rest == s.queue[1..][last..] == s.sent[k + 1..];
    } else {
      c' := k;
      if rest == s.queue[last..] {
        assert last > 0 ==> rest == s.queue[1..][last - 1..] == s.sent[k..];
      } else {
        assert rest[1..] == s.queue[1..][last..] == s.sent[k + 1..];
      }
    }
  }

  lemma DataSuffix<F>(segments: seq<Segment<F>>, i: nat, j: nat)
    requires i <= j <= |segments|
    ensures |Data(segments[j..])| <= |Data(segments[i..])|
  {
    assert segments[i..] == segments[i..j] + segments[j..];
    DataAppend(segments[i..j], segments[j..]);
  }

  /** Messages are not delivered before their segment is gone from the queue. */
  lemma DeliveredAreConsumed<F>(s: Net<F>, c: nat)
    requires Consumed(s, c) && BytesConserved(s) && WholeMessages(s.sent) && DeliversInOrder(s, BytesOf(s.sent))
    ensures |s.done| <= c
    ensures s.buf + Data(s.queue) == Data(s.sent[|s.done|..])
  {
    var fs, d := BytesOf(s.sent), |s.done|;
    DataIsFlatten(s.sent);
    assert Data(s.sent) + [] == Flatten(fs);
    RemainingFrames(s, fs, []);
    assert Data(s.queue) + [] == Data(s.queue);
    assert fs[d..] == BytesOf(s.sent[d..]);
    DataIsFlatten(s.sent[d..]);
    if s.queue != [] {
      assert s.queue[1..] == s.sent[c + 1..] by {
        assert s.sent[c..][1..] == s.sent[c + 1..];
      }
      assert |Data(s.queue)| > |Data(s.sent[c + 1..])|;
      if c + 1 <= d {
        DataSuffix(s.sent, c + 1, d);
      }
    }
  }

  // ---- A single receiver ----

  /** The descriptor was sent with message j or a later one. */
  ghost predicate SentNotBefore<F>(sent: seq<Segment<F>>, j: nat, fd: Option<F>) {
    fd.Some? ==> exists k :: j <= k < |sent| && fd.value in sent[k].fds
  }

  ghost predicate NeverLate<F>(s: Net<F>) {
    && |s.tasks| == 1
    && (s.tasks[0].Waiting? ==> SentNotBefore(s.sent, |s.done|, s.tasks[0].fd))
    && forall j :: 0 <= j < |s.done| ==> SentNotBefore(s.sent, j, s.done[j].fd)
  }

  lemma LaterSegments<F>(sent: seq<Segment<F>>, j: nat, fd: Option<F>, segment: Segment<F>)
    requires SentNotBefore(sent, j, fd)
    ensures SentNotBefore(sent + [segment], j, fd)
  {
    if fd.Some? {
      var k :| j <= k < |sent| && fd.value in sent[k].fds;
      assert (sent + [segment])[k] == sent[k];
    }
  }

  lemma ArriveNeverLate<F>(s: Net<F>, segment: Segment<F>, c: nat)
    requires Consumed(s, c) && NeverLate(s) && segment.bytes != []
    ensures var next := s.(sent := s.sent + [segment], queue := s.queue + [segment]);
      Consumed(next, c) && NeverLate(next)
  {
    var sent := s.sent + [segment];
    assert sent[c..] == s.sent[c..] + [segment];
    if s.queue != [] {
      assert sent[c + 1..] == s.sent[c + 1..] + [segment];
      assert (s.queue + [segment])[1..] == s.queue[1..] + [segment];
    }
    if s.tasks[0].Waiting? {
      LaterSegments(s.sent, |s.done|, s.tasks[0].fd, segment);
    }
    forall j | 0 <= j < |s.done| ensures SentNotBefore(sent, j, s.done[j].fd) {
      LaterSegments(s.sent, j, s.done[j].fd, segment);
    }
  }

  lemma ReadNeverLate<F>(s: Net<F>, size: nat, c: nat) returns (c': nat)
    requires Consumed(s, c) && NeverLate(s) && |s.done| <= c
    requires Waits(s, 0) && 0 < size <= Reach(s.queue)
    ensures Consumed(ReadMore(s, 0, size), c') && NeverLate(ReadMore(s, 0, size))
  {
    var k;
    k, c' := ReadConsumes(s, 0, size, c);
    var fds := Take(s.queue, size).fds;
    assert fds != [] ==> fds[0] in s.sent[k].fds;
  }

  lemma CompleteNeverLate<F>(s: Net<F>, cut: Cut, ok: bool)
    requires NeverLate(s) && Waits(s, 0)
    ensures NeverLate(Complete(s, 0, cut, ok))
  {
    var next := Complete(s, 0, cut, ok);
    forall j | 0 <= j < |next.done| ensures SentNotBefore(next.sent, j, next.done[j].fd) {
      if j < |s.done| {
        assert next.done[j] == s.done[j];
      }
    }
  }

  lemma StepNeverLate<F>(s: Net<F>, e: Event<F>, c: nat) returns (c': nat)
    requires Live(s.queue) && Next(s, e).Some?
    requires Consumed(s, c) && BytesConserved(s) && WholeMessages(s.sent) && DeliversInOrder(s, BytesOf(s.sent))
    requires NeverLate(s)
    ensures Consumed(Next(s, e).value, c') && NeverLate(Next(s, e).value)
  {
    c' := c;
    match e
    case Arrive(segment) => ArriveNeverLate(s, segment, c);
    case Begin(t) =>
    case Abandon(t) =>
    case Poll(t, size, ok) =>
      match Split(s.buf)
      case Some(cut) => CompleteNeverLate(s, cut, ok);
      case None =>
        DeliveredAreConsumed(s, c);
        c' := ReadNeverLate(s, size, c);
  }

  /** Where a run of one receiver may start, with the frames the finished run will have sent. */
  ghost predicate Tracking<F>(s: Net<F>, c: nat, fs: seq<seq<byte>>) {
    && Consumed(s, c) && BytesConserved(s) && NeverLate(s)
    && AreFrames(fs) && DeliversInOrder(s, fs)
    && |s.sent| <= |fs| && BytesOf(s.sent) == fs[..|s.sent|]
  }

  lemma PrefixDelivers<F>(s: Net<F>, c: nat, fs: seq<seq<byte>>)
    requires Tracking(s, c, fs)
    ensures WholeMessages(s.sent) && DeliversInOrder(s, BytesOf(s.sent))
  {
    var n := |s.sent|;
    SplitFrames(fs, n);
    DataIsFlatten(s.sent);
    assert Data(s.sent) <= Flatten(fs);
    forall i | 0 <= i < n ensures IsFrame(s.sent[i].bytes) {
      assert s.sent[i].bytes == BytesOf(s.sent)[i] == fs[i];
    }
    var d := |s.done|;
    if d > n {
      // More frames than were sent would be more bytes than were sent.
      FrameCount(fs, n, d);
    }
    assert BytesOf(s.sent)[..d] == fs[..d];
  }

  lemma FrameCount(fs: seq<seq<byte>>, n: nat, d: nat)
    requires AreFrames(fs) && n < d <= |fs|
    ensures |Flatten(fs[..n])| < |Flatten(fs[..d])|
    decreases d
  {
    assert fs[..d] == fs[..d - 1] + [fs[d - 1]];
    FlattenSnoc(fs[..d - 1], fs[d - 1]);
    if n < d - 1 {
      FrameCount(fs, n, d - 1);
    }
  }

  lemma StepTracks<F>(s: Net<F>, e: Event<F>, c: nat, fs: seq<seq<byte>>) returns (c': nat)
    requires Tracking(s, c, fs) && Next(s, e).Some?
    requires |Next(s, e).value.sent| <= |fs|
    requires BytesOf(Next(s, e).value.sent) == fs[..|Next(s, e).value.sent|]
    ensures Tracking(Next(s, e).value, c', fs)
  {
    PrefixDelivers(s, c, fs);
    c' := StepNeverLate(s, e, c);
    StepConservesBytes(s, e);
    StepDeliversInOrder(s, e, fs);
  }

  lemma {:induction false} RunTracks<F>(s: Net<F>, events: seq<Event<F>>, c: nat, fs: seq<seq<byte>>)
    returns (c': nat)
    requires Tracking(s, c, fs) && Run(s, events).Some?
    requires BytesOf(Run(s, events).value.sent) == fs
    ensures Tracking(Run(s, events).value, c', fs)
    decreases |events|
  {
    c' := c;
    if events != [] {
      var next := Next(s, events[0]).value;
      StepKeepsLive(s, events[0]);
      SentGrows(next, events[1..]);
      assert BytesOf(next.sent) == BytesOf(Run(s, events).value.sent)[..|next.sent|];
      c' := StepTracks(s, events[0], c, fs);
      c' := RunTracks(next, events[1..], c', fs);
    }
  }

  lemma {:induction false} SentGrows<F>(s: Net<F>, events: seq<Event<F>>)
    requires Live(s.queue) && Run(s, events).Some?
    ensures s.sent <= Run(s, events).value.sent
    decreases |events|
  {
    if events != [] {
      StepKeepsLive(s, events[0]);
      SentGrows(Next(s, events[0]).value, events[1..]);
    }
  }

  /**
   * With a single receiver a descriptor is never late: whatever receive returns it returns
   * message j, and the descriptor was sent with message j or with one behind it.
   */
  lemma SingleReceiverIsNeverLate<F>(events: seq<Event<F>>)
    requires Run(Start<F>(1), events).Some?
    requires WholeMessages(Run(Start<F>(1), events).value.sent)
    ensures var s := Run(Start<F>(1), events).value;
      && |s.done| <= |s.sent|
      && forall j :: 0 <= j < |s.done| ==>
           s.done[j].frame == s.sent[j].bytes && SentNotBefore(s.sent, j, s.done[j].fd)
  {
    var s := Run(Start<F>(1), events).value;
    var fs := BytesOf(s.sent);
    var c := RunTracks(Start<F>(1), events, 0, fs);
    PrefixDelivers(s, c, fs);
    DeliveredAreConsumed(s, c);
    DataIsFlatten(s.sent);
    forall j | 0 <= j < |s.done| ensures s.done[j].frame == s.sent[j].bytes {
      FrameAt(s.done, j);
      assert Frames(s.done)[j] == fs[j];
    }
  }

  lemma {:induction false} FrameAt<F>(done: seq<Delivery<F>>, j: nat)
    requires j < |done|
    ensures |Frames(done)| == |done| && Frames(done)[j] == done[j].frame
  {
    var init := done[..|done| - 1];
    if init == [] {
      assert Frames(init) == [];
    } else {
      FrameAt(init, if j < |init| then j else 0);
    }
  }

  lemma RunStep<F>(s: Net<F>, events: seq<Event<F>>, e: Event<F>)
    requires Live(s.queue) && Run(s, events).Some?
    ensures Run(s, events + [e]) == Next(Run(s, events).value, e)
  {
    RunAppend(s, events, [e]);
    assert [e][1..] == [];
  }
}
