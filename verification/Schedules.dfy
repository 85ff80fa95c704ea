/** Runs of the receive loop under what the kernel and the callers may or may not do (`imsg.rs`). */
module Schedules {
  import opened Bytes
  import opened Kernel
  import opened Imsg
  import opened Receivers
  import opened Drift

  /**
   * `full`: every read goes as far as the barrier rule and the buffer allow.  `cancels`: a
   * receive may end at its await without a message.
   */
  datatype Regime = Regime(full: bool, cancels: bool)

  ghost predicate Permits<F>(r: Regime, s: Net<F>, e: Event<F>) {
    && (r.full && e.Poll? && Split(s.buf) == None ==> e.size == Fill(s.queue, BUFFER_LENGTH))
    && (e.Abandon? ==> r.cancels)
  }

  ghost predicate Permitted<F>(r: Regime, s: Net<F>, events: seq<Event<F>>)
    requires Live(s.queue)
    decreases |events|
  {
    events == [] ||
    (Permits(r, s, events[0]) && Next(s, events[0]).Some? &&
      (StepKeepsLive(s, events[0]); Permitted(r, Next(s, events[0]).value, events[1..])))
  }

  /** A run of n receivers during which these messages are sent, or the first few of them. */
  ghost predicate Schedule<F>(r: Regime, n: nat, msgs: seq<Segment<F>>, events: seq<Event<F>>) {
    && Permitted(r, Start<F>(n), events)
    && Run(Start<F>(n), events).Some?
    && Run(Start<F>(n), events).value.sent <= msgs
  }

  // ---- Building runs ----

  ghost predicate Leads<F>(r: Regime, n: nat, events: seq<Event<F>>, s: Net<F>) {
    Permitted(r, Start<F>(n), events) && Run(Start<F>(n), events) == Some(s) && Live(s.queue)
  }

  lemma {:induction false} PermittedAppend<F>(r: Regime, s: Net<F>, events: seq<Event<F>>, e: Event<F>)
    requires Live(s.queue) && Permitted(r, s, events) && Run(s, events).Some?
    requires Permits(r, Run(s, events).value, e) && Next(Run(s, events).value, e).Some?
    ensures Permitted(r, s, events + [e])
    decreases |events|
  {
    if events == [] {
      EmptyLeft([e]);
    } else {
      HeadTail(events, [e]);
      StepKeepsLive(s, events[0]);
      PermittedAppend(r, Next(s, events[0]).value, events[1..], e);
    }
  }

  /** One more step, to the state it should lead to. */
  lemma Extend<F>(r: Regime, n: nat, events: seq<Event<F>>, s: Net<F>, e: Event<F>, next: Net<F>)
    returns (events': seq<Event<F>>)
    requires Leads(r, n, events, s) && Permits(r, s, e) && Next(s, e) == Some(next)
    ensures Leads(r, n, events', next)
  {
    events' := events + [e];
    PermittedAppend(r, Start<F>(n), events, e);
    RunStep(Start<F>(n), events, e);
    StepKeepsLive(s, e);
  }

  lemma SplitWhole(f: seq<byte>)
    ensures IsFrame(f) ==> Split(f) == Some(Cut(DecodeHeader(f[..HEADER_LENGTH]), f, []))
  {
    if IsFrame(f) {
      SplitStream(f, [], f, []);
      assert f + [] == f;
    }
  }

  // ---- One message at a time ----

  /** Whole messages, and no more descriptors than the receiver has room for. */
  ghost predicate Plain<F>(msgs: seq<Segment<F>>) {
    WholeMessages(msgs) && forall i :: 0 <= i < |msgs| ==> |msgs[i].fds| <= MAX_FDS
  }

  /** Sent and received one at a time, the first i messages leave nothing behind. */
  ghost predicate Cleared<F>(n: nat, msgs: seq<Segment<F>>, s: Net<F>, i: nat) {
    && i <= |msgs| && s.sent == msgs[..i] && |s.done| == i
    && s.queue == [] && s.buf == [] && s.tasks == Start<F>(n).tasks
  }

  lemma ArriveOne<F>(r: Regime, n: nat, msgs: seq<Segment<F>>, s: Net<F>, i: nat, events: seq<Event<F>>)
    returns (next: Net<F>, events': seq<Event<F>>)
    requires Plain(msgs) && i < |msgs| && s.sent == msgs[..i] && Leads(r, n, events, s)
    ensures Leads(r, n, events', next)
    ensures next == s.(sent := msgs[..i + 1], queue := s.queue + [msgs[i]])
  {
    next := s.(sent := msgs[..i + 1], queue := s.queue + [msgs[i]]);
    assert s.sent + [msgs[i]] == msgs[..i + 1];
    events' := Extend(r, n, events, s, Arrive(msgs[i]), next);
  }

  lemma BeginOne<F>(r: Regime, n: nat, s: Net<F>, t: nat, events: seq<Event<F>>)
    returns (next: Net<F>, events': seq<Event<F>>)
    requires Leads(r, n, events, s) && t < |s.tasks| && s.tasks[t].Idle?
    ensures Leads(r, n, events', next)
    ensures next == s.(tasks := s.tasks[t := Waiting(None)])
  {
    next := s.(tasks := s.tasks[t := Waiting(None)]);
    events' := Extend(r, n, events, s, Begin(t), next);
  }

  /** A message alone in the socket is read whole, by whoever waits. */
  lemma ReadOne<F>(r: Regime, n: nat, s: Net<F>, t: nat, events: seq<Event<F>>)
    returns (next: Net<F>, events': seq<Event<F>>)
    requires Leads(r, n, events, s) && Waits(s, t) && s.buf == [] && |s.queue| == 1 && IsFrame(s.queue[0].bytes)
    ensures Leads(r, n, events', next)
    ensures var x, fd := s.queue[0], s.tasks[t].fd;
      next == s.(buf := x.bytes, queue := [], tasks := s.tasks[t := Waiting(Keep(fd, x.fds))],
                 closed := s.closed + Surplus(fd, x.fds))
  {
    var x := s.queue[0];
    assert s.queue == [x] && s.queue[1..] == [];
    EmptyLeft(x.bytes);
    next := ReadMore(s, t, |x.bytes|);
    events' := Extend(r, n, events, s, Poll(t, |x.bytes|, true), next);
  }

  lemma CompleteOne<F>(r: Regime, n: nat, s: Net<F>, t: nat, events: seq<Event<F>>)
    returns (next: Net<F>, events': seq<Event<F>>)
    requires Leads(r, n, events, s) && Waits(s, t) && IsFrame(s.buf)
    ensures Leads(r, n, events', next)
    ensures next == s.(buf := [], tasks := s.tasks[t := Idle],
      done := s.done + [Delivery(t, DecodeHeader(s.buf[..HEADER_LENGTH]), s.buf, s.tasks[t].fd, true)])
  {
    SplitWhole(s.buf);
    next := Complete(s, t, Split(s.buf).value, true);
    assert s.closed + [] == s.closed;
    events' := Extend(r, n, events, s, Poll(t, 0, true), next);
  }

  lemma ReceiveAlone<F>(r: Regime, n: nat, msgs: seq<Segment<F>>, s: Net<F>, i: nat, events: seq<Event<F>>)
    returns (next: Net<F>, events': seq<Event<F>>)
    requires Plain(msgs) && n >= 1 && Cleared(n, msgs, s, i) && i < |msgs| && Leads(r, n, events, s)
    ensures Cleared(n, msgs, next, i + 1) && Leads(r, n, events', next)
  {
    var s1, s2, s3;
    s1, events' := ArriveOne(r, n, msgs, s, i, events);
    s2, events' := BeginOne(r, n, s1, 0, events');
    s3, events' := ReadOne(r, n, s2, 0, events');
    next, events' := CompleteOne(r, n, s3, 0, events');
    assert next.tasks == s.tasks;
  }

  lemma {:induction false} ReceiveFirst<F>(r: Regime, n: nat, msgs: seq<Segment<F>>, i: nat)
    returns (s: Net<F>, events: seq<Event<F>>)
    requires Plain(msgs) && n >= 1 && i <= |msgs|
    ensures Cleared(n, msgs, s, i) && Leads(r, n, events, s)
  {
    if i == 0 {
      s, events := Start<F>(n), [];
    } else {
      s, events := ReceiveFirst(r, n, msgs, i - 1);
      s, events := ReceiveAlone(r, n, msgs, s, i - 1, events);
    }
  }

  lemma {:induction false} ArriveUpTo<F>(r: Regime, n: nat, msgs: seq<Segment<F>>, s: Net<F>, i: nat, j: nat, events: seq<Event<F>>)
    returns (next: Net<F>, events': seq<Event<F>>)
    requires Plain(msgs) && Cleared(n, msgs, s, i) && i <= j <= |msgs| && Leads(r, n, events, s)
    ensures Leads(r, n, events', next)
    ensures next == s.(sent := msgs[..j], queue := msgs[i..j])
    decreases j
  {
    if i == j {
      next, events' := s, events;
    } else {
      next, events' := ArriveUpTo(r, n, msgs, s, i, j - 1, events);
      next, events' := ArriveOne(r, n, msgs, next, j - 1, events');
      assert msgs[i..j] == msgs[i..j - 1] + [msgs[j - 1]];
    }
  }
}
