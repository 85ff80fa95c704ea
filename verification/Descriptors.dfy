/** Where descriptors go (`imsg.rs`, `fd.rs`): ownership, and how far they can drift from their message. */
module Descriptors {
  import opened Bytes
  import opened Kernel
  import opened Imsg
  import opened Receivers

  // ---- Conservation ----

  /** How often a descriptor occurs. */
  ghost function Count<F>(f: F, fds: seq<F>): nat {
    if fds == [] then 0 else (if fds[0] == f then 1 else 0) + Count(f, fds[1..])
  }

  lemma {:induction false} CountAppend<F>(f: F, a: seq<F>, b: seq<F>)
    ensures Count(f, a + b) == Count(f, a) + Count(f, b)
  {
    if a == [] {
      EmptyLeft(b);
    } else {
      HeadTail(a, b);
      CountAppend(f, a[1..], b);
    }
  }

  ghost function HeldBy<F>(task: Task<F>): seq<F> {
    if task.Waiting? then FdList(task.fd) else []
  }

  /** Descriptors held by unfinished futures. */
  ghost function CountHeld<F>(f: F, tasks: seq<Task<F>>): nat {
    if tasks == [] then 0 else Count(f, HeldBy(tasks[0])) + CountHeld(f, tasks[1..])
  }

  lemma {:induction false} HeldUpdate<F>(f: F, tasks: seq<Task<F>>, t: nat, task: Task<F>)
    requires t < |tasks|
    ensures CountHeld(f, tasks[t := task]) + Count(f, HeldBy(tasks[t])) == CountHeld(f, tasks) + Count(f, HeldBy(task))
  {
    var updated := tasks[t := task];
    if t == 0 {
      assert updated[1..] == tasks[1..];
    } else {
      assert updated[1..] == tasks[1..][t - 1 := task];
      HeldUpdate(f, tasks[1..], t - 1, task);
    }
  }

  /** Descriptors handed to callers, in the order of the completed receives. */
  ghost function Returned<F>(done: seq<Delivery<F>>): seq<F> {
    if done == [] then []
    else
      var last := done[|done| - 1];
      Returned(done[..|done| - 1]) + if last.ok then FdList(last.fd) else []
  }

  lemma ReturnedSnoc<F>(done: seq<Delivery<F>>, d: Delivery<F>)
    ensures Returned(done + [d]) == Returned(done) + if d.ok then FdList(d.fd) else []
  {
    assert (done + [d])[..|done|] == done;
  }

  /** However often a descriptor was sent, it now is unread, held, returned or closed. */
  ghost predicate FdsConserved<F>(f: F, s: Net<F>) {
    Count(f, Fds(s.sent)) ==
      Count(f, Fds(s.queue)) + CountHeld(f, s.tasks) + Count(f, Returned(s.done)) + Count(f, s.closed)
  }

  lemma KeepAndSurplus<F>(f: F, current: Option<F>, fds: seq<F>)
    ensures Count(f, FdList(current)) + Count(f, fds)
         == Count(f, FdList(Keep(current, fds))) + Count(f, Surplus(current, fds))
  {
  }

  lemma StepConservesFds<F>(f: F, s: Net<F>, e: Event<F>)
    requires Live(s.queue) && Next(s, e).Some? && FdsConserved(f, s)
    ensures FdsConserved(f, Next(s, e).value)
  {
    match e
    case Arrive(segment) =>
      FdsAppend(s.queue, [segment]);
      FdsAppend(s.sent, [segment]);
      CountAppend(f, Fds(s.queue), Fds([segment]));
      CountAppend(f, Fds(s.sent), Fds([segment]));
    case Begin(t) =>
      HeldUpdate(f, s.tasks, t, Waiting(None));
    case Abandon(t) =>
      HeldUpdate(f, s.tasks, t, Idle);
      CountAppend(f, s.closed, FdList(s.tasks[t].fd));
    case Poll(t, size, ok) =>
      var fd := s.tasks[t].fd;
      match Split(s.buf)
      case Some(cut) =>
        HeldUpdate(f, s.tasks, t, Idle);
        ReturnedSnoc(s.done, Delivery(t, cut.header, cut.frame, fd, ok));
        CountAppend(f, Returned(s.done), if ok then FdList(fd) else []);
        CountAppend(f, s.closed, if ok then [] else FdList(fd));
      case None =>
        var r := Take(s.queue, size);
        TakeConserves(s.queue, size);
        CountAppend(f, r.fds, Fds(r.rest));
        KeepAndSurplus(f, fd, r.fds);
        HeldUpdate(f, s.tasks, t, Waiting(Keep(fd, r.fds)));
        CountAppend(f, s.closed, Surplus(fd, r.fds));
  }

  /**
   * Over all runs, with any number of receivers and on every way out of a receive, a received
   * descriptor is returned or closed exactly once.
   */
  lemma {:induction false} RunConservesFds<F>(f: F, s: Net<F>, events: seq<Event<F>>)
    requires Live(s.queue) && FdsConserved(f, s) && Run(s, events).Some?
    ensures FdsConserved(f, Run(s, events).value)
    decreases |events|
  {
    if events != [] {
      StepKeepsLive(s, events[0]);
      StepConservesFds(f, s, events[0]);
      RunConservesFds(f, Next(s, events[0]).value, events[1..]);
    }
  }

  lemma {:induction false} NothingHeld<F>(f: F, tasks: seq<Task<F>>)
    requires forall t :: 0 <= t < |tasks| ==> tasks[t].Idle?
    ensures CountHeld(f, tasks) == 0
  {
    if tasks != [] {
      NothingHeld(f, tasks[1..]);
    }
  }

  lemma EveryRunConservesFds<F>(f: F, slots: nat, events: seq<Event<F>>)
    requires Run(Start<F>(slots), events).Some?
    ensures FdsConserved(f, Run(Start<F>(slots), events).value)
  {
    NothingHeld(f, Start<F>(slots).tasks);
    RunConservesFds(f, Start<F>(slots), events);
  }

  // ---- Sending order, for a single receiver ----

  ghost predicate Subsequence<T>(a: seq<T>, b: seq<T>)
    decreases |b|
  {
    a == [] ||
    (b != [] &&
      ((a[|a| - 1] == b[|b| - 1] && Subsequence(a[..|a| - 1], b[..|b| - 1])) || Subsequence(a, b[..|b| - 1])))
  }

  lemma {:induction false} SubsequenceGrows<T>(a: seq<T>, b: seq<T>, c: seq<T>)
    requires Subsequence(a, b)
    ensures Subsequence(a, b + c)
    decreases |c|
  {
    if c == [] {
      assert b + c == b;
    } else {
      SubsequenceGrows(a, b, c[..|c| - 1]);
      assert (b + c)[..|b + c| - 1] == b + c[..|c| - 1];
    }
  }

  lemma SubsequenceBoth<T>(a: seq<T>, b: seq<T>, x: T)
    requires Subsequence(a, b)
    ensures Subsequence(a + [x], b + [x])
  {
    assert (a + [x])[..|a|] == a && (b + [x])[..|b|] == b;
  }

  lemma {:induction false} SubsequenceShrinks<T>(a: seq<T>, x: T, b: seq<T>)
    requires Subsequence(a + [x], b)
    ensures Subsequence(a, b)
    decreases |b|
  {
    var init := b[..|b| - 1];
    assert (a + [x])[..|a|] == a;
    assert b == init + [b[|b| - 1]];
    if Subsequence(a + [x], init) {
      SubsequenceShrinks(a, x, init);
    }
    SubsequenceGrows(a, init, [b[|b| - 1]]);
  }

  /** `taken` is what the only receiver's reads have taken off the socket so far. */
  ghost predicate ReturnsInOrder<F>(s: Net<F>, taken: seq<F>) {
    && |s.tasks| == 1
    && taken + Fds(s.queue) == Fds(s.sent)
    && Subsequence(Returned(s.done) + HeldBy(s.tasks[0]), taken)
  }

  lemma EmptyRight<T>(a: seq<T>)
    ensures a + [] == a
  {
  }

  lemma ReadReturnsInOrder<F>(s: Net<F>, size: nat, taken: seq<F>)
    requires ReturnsInOrder(s, taken) && Waits(s, 0) && Live(s.queue) && 0 < size <= Reach(s.queue)
    ensures ReturnsInOrder(ReadMore(s, 0, size), taken + Take(s.queue, size).fds)
  {
    var r, fd, past := Take(s.queue, size), s.tasks[0].fd, Returned(s.done);
    TakeConserves(s.queue, size);
    Assoc(taken, r.fds, Fds(r.rest));
    if fd.None? && r.fds != [] {
      var x := r.fds[0];
      EmptyRight(past);
      assert r.fds == [x] + r.fds[1..];
      SubsequenceBoth(past, taken, x);
      SubsequenceGrows(past + [x], taken + [x], r.fds[1..]);
      Assoc(taken, [x], r.fds[1..]);
    } else {
      SubsequenceGrows(past + FdList(fd), taken, r.fds);
    }
  }

  lemma DropReturnsInOrder<F>(s: Net<F>, taken: seq<F>)
    requires ReturnsInOrder(s, taken)
    ensures Subsequence(Returned(s.done), taken)
  {
    var past, held := Returned(s.done), HeldBy(s.tasks[0]);
    if held != [] {
      SubsequenceShrinks(past, held[0], taken);
    } else {
      EmptyRight(past);
    }
  }

  lemma CompleteReturnsInOrder<F>(s: Net<F>, cut: Cut, ok: bool, taken: seq<F>)
    requires ReturnsInOrder(s, taken) && Waits(s, 0)
    ensures ReturnsInOrder(Complete(s, 0, cut, ok), taken)
  {
    DropReturnsInOrder(s, taken);
    ReturnedSnoc(s.done, Delivery(0, cut.header, cut.frame, s.tasks[0].fd, ok));
    EmptyRight(Returned(s.done));
    EmptyRight(Returned(s.done) + FdList(s.tasks[0].fd));
  }

  lemma StepReturnsInOrder<F>(s: Net<F>, e: Event<F>, taken: seq<F>) returns (taken': seq<F>)
    requires Live(s.queue) && Next(s, e).Some? && ReturnsInOrder(s, taken)
    ensures ReturnsInOrder(Next(s, e).value, taken')
  {
    taken' := taken;
    match e
    case Arrive(segment) =>
      FdsAppend(s.queue, [segment]);
      FdsAppend(s.sent, [segment]);
      Assoc(taken, Fds(s.queue), Fds([segment]));
    case Begin(t) =>
      EmptyRight(Returned(s.done));
    case Abandon(t) =>
      DropReturnsInOrder(s, taken);
      EmptyRight(Returned(s.done));
    case Poll(t, size, ok) =>
      match Split(s.buf)
      case Some(cut) =>
        CompleteReturnsInOrder(s, cut, ok, taken);
      case None =>
        taken' := taken + Take(s.queue, size).fds;
        ReadReturnsInOrder(s, size, taken);
  }

  /** A single receiver returns descriptors in the order they were sent. */
  lemma {:induction false} RunReturnsInOrder<F>(s: Net<F>, events: seq<Event<F>>, taken: seq<F>)
    returns (taken': seq<F>)
    requires Live(s.queue) && ReturnsInOrder(s, taken) && Run(s, events).Some?
    ensures ReturnsInOrder(Run(s, events).value, taken')
    decreases |events|
  {
    if events == [] {
      taken' := taken;
    } else {
      StepKeepsLive(s, events[0]);
      taken' := StepReturnsInOrder(s, events[0], taken);
      taken' := RunReturnsInOrder(Next(s, events[0]).value, events[1..], taken');
    }
  }

  /** What has been returned is part of what was sent, in that order. */
  lemma EveryRunReturnsInOrder<F>(events: seq<Event<F>>)
    requires Run(Start<F>(1), events).Some?
    ensures var s := Run(Start<F>(1), events).value; Subsequence(Returned(s.done), Fds(s.sent))
  {
    var taken := RunReturnsInOrder(Start<F>(1), events, []);
    var s := Run(Start<F>(1), events).value;
    DropReturnsInOrder(s, taken);
    SubsequenceGrows(Returned(s.done), taken, Fds(s.queue));
  }
}
