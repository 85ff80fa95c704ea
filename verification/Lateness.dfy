/** When a descriptor can be returned with a later message than its own (`recv_message`). */
module Lateness {
  import opened Bytes
  import opened Kernel
  import opened Imsg
  import opened Receivers
  import opened Drift
  import opened Schedules

  /** The receive that returned message j returned a descriptor sent with the earlier message k. */
  ghost predicate LateAt<F>(s: Net<F>, j: nat, k: nat) {
    && k < j < |s.done| && k < |s.sent|
    && s.done[j].ok && s.done[j].fd.Some? && s.done[j].fd.value in s.sent[k].fds
  }

  ghost predicate Late<F>(s: Net<F>) {
    exists j, k :: LateAt(s, j, k)
  }

  ghost predicate CanBeLate<F(!new)>(r: Regime, n: nat, msgs: seq<Segment<F>>) {
    exists events: seq<Event<F>> :: Schedule(r, n, msgs, events) && Late(Run(Start<F>(n), events).value)
  }

  /** No descriptor is sent with two messages. */
  ghost predicate Disjoint<F>(msgs: seq<Segment<F>>) {
    forall i, j, f :: 0 <= i < j < |msgs| && f in msgs[i].fds ==> f !in msgs[j].fds
  }

  ghost predicate OneButTheLastHasOne<F>(msgs: seq<Segment<F>>) {
    exists q :: 0 <= q < |msgs| - 1 && msgs[q].fds != []
  }

  // ---- Necessary ----

  /** With any number of receivers, receive j returns message j. */
  lemma ReturnsMessage<F>(n: nat, events: seq<Event<F>>, j: nat)
    requires Run(Start<F>(n), events).Some? && WholeMessages(Run(Start<F>(n), events).value.sent)
    requires j < |Run(Start<F>(n), events).value.done|
    ensures var s := Run(Start<F>(n), events).value;
      |s.done| <= |s.sent| && s.done[j].frame == s.sent[j].bytes
  {
    var s := Run(Start<F>(n), events).value;
    var fs := BytesOf(s.sent);
    DataIsFlatten(s.sent);
    EveryRunDelivers(n, events, fs);
    FrameAt(s.done, j);
    assert Frames(s.done)[j] == fs[j];
  }

  lemma {:induction false} NobodyReceives<F>(s: Net<F>, events: seq<Event<F>>)
    requires Live(s.queue) && s.tasks == [] && s.done == [] && Run(s, events).Some?
    ensures Run(s, events).value.done == []
    decreases |events|
  {
    if events != [] {
      StepKeepsLive(s, events[0]);
      NobodyReceives(Next(s, events[0]).value, events[1..]);
    }
  }

  lemma LateNeedsTwo<F>(n: nat, msgs: seq<Segment<F>>, events: seq<Event<F>>, j: nat, k: nat)
    requires WholeMessages(msgs) && Disjoint(msgs)
    requires Run(Start<F>(n), events).Some? && Run(Start<F>(n), events).value.sent <= msgs
    requires LateAt(Run(Start<F>(n), events).value, j, k)
    ensures n >= 2 && k < |msgs| - 1 && msgs[k].fds != []
  {
    var s := Run(Start<F>(n), events).value;
    assert forall i :: 0 <= i < |s.sent| ==> s.sent[i] == msgs[i];
    ReturnsMessage(n, events, j);
    if n == 0 {
      NobodyReceives(Start<F>(0), events);
    } else if n == 1 {
      SingleReceiverIsNeverLate(events);
    }
  }

  // ---- Enough ----

  /** The first receiver takes message q with its descriptor off the socket; the second returns it. */
  lemma Overtaken<F>(r: Regime, n: nat, msgs: seq<Segment<F>>, q: nat) returns (s: Net<F>, events: seq<Event<F>>)
    requires n >= 2 && Plain(msgs) && q < |msgs| && msgs[q].fds != []
    ensures Leads(r, n, events, s)
    ensures s.sent == msgs[..q + 1] && |s.done| == q + 1 && s.queue == [] && s.buf == []
    ensures |s.tasks| == n && s.tasks[0] == Waiting(Some(msgs[q].fds[0]))
  {
    s, events := ReceiveFirst(r, n, msgs, q);
    s, events := ArriveOne(r, n, msgs, s, q, events);
    s, events := BeginOne(r, n, s, 0, events);
    s, events := BeginOne(r, n, s, 1, events);
    s, events := ReadOne(r, n, s, 0, events);
    s, events := CompleteOne(r, n, s, 1, events);
  }

  /** The first receiver is left with the descriptor, and returns it with the next message. */
  lemma BecomesLate<F>(r: Regime, n: nat, msgs: seq<Segment<F>>, q: nat) returns (s: Net<F>, events: seq<Event<F>>)
    requires n >= 2 && Plain(msgs) && q < |msgs| - 1 && msgs[q].fds != []
    ensures Leads(r, n, events, s) && s.sent <= msgs && LateAt(s, q + 1, q)
  {
    s, events := Overtaken(r, n, msgs, q);
    s, events := ArriveOne(r, n, msgs, s, q + 1, events);
    s, events := ReadOne(r, n, s, 0, events);
    s, events := CompleteOne(r, n, s, 0, events);
  }

  /**
   * Whatever the read sizes and with or without cancelled receives, some run returns a
   * descriptor with a later message if and only if there are two receivers and a message other
   * than the last has a descriptor.
   */
  lemma LateIff<F(!new)>(r: Regime, n: nat, msgs: seq<Segment<F>>)
    requires Plain(msgs) && Disjoint(msgs)
    ensures CanBeLate(r, n, msgs) <==> n >= 2 && OneButTheLastHasOne(msgs)
  {
    if CanBeLate(r, n, msgs) {
      var events: seq<Event<F>> :| Schedule(r, n, msgs, events) && Late(Run(Start<F>(n), events).value);
      var j, k :| LateAt(Run(Start<F>(n), events).value, j, k);
      LateNeedsTwo(n, msgs, events, j, k);
    }
    if n >= 2 && OneButTheLastHasOne(msgs) {
      var q :| 0 <= q < |msgs| - 1 && msgs[q].fds != [];
      var s, events := BecomesLate(r, n, msgs, q);
      assert Schedule(r, n, msgs, events);
    }
  }
}
