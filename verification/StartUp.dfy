/** The children's own start-up code on what the parent's code has sent them (`process.rs`). */
module StartUp {
  import opened Bytes
  import opened Derive
  import opened Handshake
  import opened Process

  /** The table a process gets from its row of the matrix. */
  ghost predicate IsRow(m: Matrix, a: nat, processes: seq<ProcessInfo>)
    requires Square(m)
  {
    && 1 <= a < |m| == |processes|
    && forall b :: 0 <= b < |m| ==> processes[b].connect == m[a][b]
  }

  function Gots(q: seq<Packet>): (inbox: seq<Inbox>)
    ensures |inbox| == |q|
  {
    seq(|q|, i requires 0 <= i < |q| => Got(q[i]))
  }

  lemma {:induction false} AbsorbAppend(kid: Kid, x: seq<Inbox>, y: seq<Inbox>)
    ensures Absorb(kid, x + y) == Absorb(Absorb(kid, x), y)
    decreases |y|
  {
    if y == [] {
      assert x + y == x;
    } else {
      var init := y[..|y| - 1];
      assert (x + y)[..|x + y| - 1] == x + init;
      AbsorbAppend(kid, x, init);
    }
  }

  lemma AbsorbHead(kid: Kid, p: Packet, rest: seq<Inbox>)
    ensures Absorb(kid, [Got(p)] + rest) == Absorb(Accept(kid, p), rest)
  {
    AbsorbAppend(kid, [Got(p)], rest);
    assert [Got(p)][..0] == [];
  }

  // ---- The step system's child is the child's code ----

  lemma TakenInTurnHead(kid: Kid, p: Packet, rest: seq<Inbox>)
    requires Listens(kid) && TakenInTurn(Accept(kid, p), rest, |rest|)
    ensures TakenInTurn(kid, [Got(p)] + rest, 1 + |rest|)
  {
    var inbox := [Got(p)] + rest;
    forall i | 0 <= i < 1 + |rest| ensures inbox[i].Got? && Listens(Absorb(kid, inbox[..i])) {
      if i > 0 {
        assert inbox[..i] == [Got(p)] + rest[..i - 1];
        AbsorbHead(kid, p, rest[..i - 1]);
      }
    }
  }

  lemma StepAbsorbs(s: Sys, e: Event, a: nat, rest: seq<Packet>)
    requires Next(s, e).Some? && a < |s.kids|
    requires TakenInTurn(Next(s, e).value.kids[a], Gots(rest), |rest|)
    ensures var taken := Takes(s, e, a) + rest;
      && Absorb(s.kids[a], Gots(taken)) == Absorb(Next(s, e).value.kids[a], Gots(rest))
      && TakenInTurn(s.kids[a], Gots(taken), |taken|)
  {
    if e == Recv(a) {
      var p := s.queues[a][0];
      assert Gots([p] + rest) == [Got(p)] + Gots(rest);
      AbsorbHead(s.kids[a], p, Gots(rest));
      TakenInTurnHead(s.kids[a], p, Gots(rest));
    } else {
      EmptyLeft(rest);
    }
  }

  /** In every run, a child is what its code makes of the packets it has taken, each while it listened. */
  lemma {:induction false} KidAbsorbs(s: Sys, events: seq<Event>, a: nat)
    requires Run(s, events).Some? && a < |s.kids|
    ensures |Run(s, events).value.kids| == |s.kids|
    ensures Run(s, events).value.kids[a] == Absorb(s.kids[a], Gots(Taken(s, events, a)))
    ensures TakenInTurn(s.kids[a], Gots(Taken(s, events, a)), |Taken(s, events, a)|)
    decreases |events|
  {
    if events != [] {
      var next := Next(s, events[0]).value;
      KidAbsorbs(next, events[1..], a);
      StepAbsorbs(s, events[0], a, Taken(next, events[1..], a));
    }
  }

  // ---- From a finished parent ----

  /** The invariant while the child works through its queue, once the parent is done. */
  lemma {:induction false} Drains(a: nat, row: set<nat>, q: seq<Packet>, kid: Kid, made: map<Pair, nat>, i: nat)
    requires KidOk(a, row, {}, q, kid, made, true) && i <= |q| && TakenInTurn(kid, Gots(q), i)
    ensures KidOk(a, row, {}, q[i..], Absorb(kid, Gots(q)[..i]), made, true)
  {
    if i == 0 {
      assert q[0..] == q && Gots(q)[..0] == [];
    } else {
      Drains(a, row, q, kid, made, i - 1);
      AbsorbOneMore(kid, Gots(q), i - 1);
      KidAccepts(a, row, {}, q[i - 1..], Absorb(kid, Gots(q)[..i - 1]), made, true);
      assert q[i - 1..][1..] == q[i..];
    }
  }

  /** The inbox of a child that has taken some packets and has others queued, whatever comes then. */
  function InboxOf(taken: seq<Packet>, q: seq<Packet>, rest: seq<Inbox>): seq<Inbox> {
    Gots(taken) + Gots(q) + rest
  }

  lemma InboxPrefix(kid: Kid, taken: seq<Packet>, q: seq<Packet>, rest: seq<Inbox>, i: nat)
    requires i <= |q|
    ensures Absorb(kid, InboxOf(taken, q, rest)[..|taken| + i]) == Absorb(Absorb(kid, Gots(taken)), Gots(q)[..i])
  {
    assert InboxOf(taken, q, rest)[..|taken| + i] == Gots(taken) + Gots(q)[..i];
    AbsorbAppend(kid, Gots(taken), Gots(q)[..i]);
  }

  lemma QueueInTurn(kid: Kid, taken: seq<Packet>, q: seq<Packet>, rest: seq<Inbox>, i: nat)
    requires i <= |q| && TakenInTurn(kid, InboxOf(taken, q, rest), |taken| + i)
    ensures TakenInTurn(Absorb(kid, Gots(taken)), Gots(q), i)
  {
    var inbox := InboxOf(taken, q, rest);
    forall j | 0 <= j < i ensures Gots(q)[j].Got? && Listens(Absorb(Absorb(kid, Gots(taken)), Gots(q)[..j])) {
      InboxPrefix(kid, taken, q, rest, j);
      assert inbox[|taken| + j].Got? && Listens(Absorb(kid, inbox[..|taken| + j]));
    }
  }

  lemma StillListens(kid: Kid, taken: seq<Packet>, q: seq<Packet>, rest: seq<Inbox>, used: nat)
    requires used < |taken| && TakenInTurn(kid, Gots(taken), |taken|)
    ensures InboxOf(taken, q, rest)[used].Got? && Listens(Absorb(kid, InboxOf(taken, q, rest)[..used]))
  {
    assert InboxOf(taken, q, rest)[..used] == Gots(taken)[..used];
    assert InboxOf(taken, q, rest)[used] == Gots(taken)[used];
  }

  /** The child never goes beyond its queue. */
  lemma QueueIsEnough(a: nat, row: set<nat>, kid: Kid, taken: seq<Packet>, q: seq<Packet>, rest: seq<Inbox>,
                      made: map<Pair, nat>, used: nat)
    requires KidOk(a, row, {}, q, Absorb(kid, Gots(taken)), made, true)
    requires TakenInTurn(kid, InboxOf(taken, q, rest), used)
    ensures used <= |taken| + |q|
  {
    if used > |taken| + |q| {
      QueueInTurn(kid, taken, q, rest, |q|);
      InboxPrefix(kid, taken, q, rest, |q|);
      Drains(a, row, q, Absorb(kid, Gots(taken)), made, |q|);
    }
  }

  lemma AlongQueue(a: nat, row: set<nat>, kid: Kid, taken: seq<Packet>, q: seq<Packet>, rest: seq<Inbox>,
                   made: map<Pair, nat>, i: nat)
    requires KidOk(a, row, {}, q, Absorb(kid, Gots(taken)), made, true) && i <= |q|
    requires TakenInTurn(kid, InboxOf(taken, q, rest), |taken| + i)
    ensures KidOk(a, row, {}, q[i..], Absorb(kid, InboxOf(taken, q, rest)[..|taken| + i]), made, true)
  {
    QueueInTurn(kid, taken, q, rest, i);
    InboxPrefix(kid, taken, q, rest, i);
    Drains(a, row, q, Absorb(kid, Gots(taken)), made, i);
  }

  /** Before the end of its queue the child still waits for someone, and takes the next packet. */
  lemma WaitsInQueue(a: nat, row: set<nat>, kid: Kid, taken: seq<Packet>, q: seq<Packet>, rest: seq<Inbox>,
                     made: map<Pair, nat>, used: nat)
    requires KidOk(a, row, {}, q, Absorb(kid, Gots(taken)), made, true)
    requires TakenInTurn(kid, Gots(taken), |taken|)
    requires TakenInTurn(kid, InboxOf(taken, q, rest), used)
    ensures var now := Absorb(kid, InboxOf(taken, q, rest)[..used]);
      && !now.panicked
      && (now.wait != {} ==> used < |InboxOf(taken, q, rest)| && InboxOf(taken, q, rest)[used].Got?)
      && (now.wait == {} ==> now.handlers.Keys == row && forall b :: b in row ==> IsEndFor(made, a, b, now.handlers[b]))
  {
    QueueIsEnough(a, row, kid, taken, q, rest, made, used);
    if used < |taken| {
      StillListens(kid, taken, q, rest, used);
    } else {
      var i := used - |taken|;
      AlongQueue(a, row, kid, taken, q, rest, made, i);
      if i < |q| {
        assert InboxOf(taken, q, rest)[used] == Gots(q)[i];
      } else {
        assert q[i..] == [];
      }
    }
  }

  /** Start-up on such an inbox ends ready, with the whole row. */
  lemma BecomesReady(a: nat, row: set<nat>, processes: seq<ProcessInfo>, taken: seq<Packet>, q: seq<Packet>,
                     rest: seq<Inbox>, made: map<Pair, nat>, r: Startup, peers: seq<Peer>, used: nat)
    returns (handlers: map<nat, End>)
    requires KidOk(a, row, {}, q, Absorb(NewKid(processes), Gots(taken)), made, true)
    requires TakenInTurn(NewKid(processes), Gots(taken), |taken|)
    requires ChildOutcome(processes, InboxOf(taken, q, rest), r, peers, used)
    ensures r == Ready
    ensures TableMatches(processes, peers, handlers) && handlers.Keys == row
    ensures forall b :: b in row ==> IsEndFor(made, a, b, handlers[b])
  {
    WaitsInQueue(a, row, NewKid(processes), taken, q, rest, made, used);
    handlers := Absorb(NewKid(processes), InboxOf(taken, q, rest)[..used]).handlers;
  }

  /** The end of the socket pair for {a, b} that child a has. */
  ghost function EndOf(made: map<Pair, nat>, a: nat, b: nat): End
    requires Ordered(a, b) in made
  {
    End(made[Ordered(a, b)], if a < b then Left else Right)
  }

  /** What using peer b does in child a. */
  ghost predicate PeerIs(m: Matrix, made: map<Pair, nat>, a: nat, b: nat, processes: seq<ProcessInfo>, peer: Peer)
    requires Square(m) && a < |m| && b < |m| == |processes|
  {
    if b == 0 then Deref(peer) == Usable(ParentSocket)
    else if m[a][b] then Ordered(a, b) in made && Deref(peer) == Usable(PeerSocket(EndOf(made, a, b)))
    else Deref(peer) == Unconfigured(processes[b].name)
  }

  lemma RowOfTable(m: Matrix, made: map<Pair, nat>, a: nat, b: nat, processes: seq<ProcessInfo>, peers: seq<Peer>,
                   handlers: map<nat, End>)
    requires Square(m) && IsRow(m, a, processes) && b < |m|
    requires TableMatches(processes, peers, handlers) && handlers.Keys == WaitSet(m, a)
    requires forall c :: c in handlers ==> IsEndFor(made, a, c, handlers[c])
    ensures PeerIs(m, made, a, b, processes, peers[b])
  {
  }

  lemma StreamFromStart(m: Matrix, events: seq<Event>, a: nat)
    requires Square(m) && Run(Start(m), events).Some? && a < |m|
    ensures var s := Run(Start(m), events).value;
      a < |s.queues| && Stream(Start(m), events, a) == Taken(Start(m), events, a) + s.queues[a]
  {
    StreamIsTakenOrQueued(Start(m), events, a);
    EmptyLeft(Stream(Start(m), events, a));
  }

  lemma InboxFromStart(stream: seq<Packet>, taken: seq<Packet>, q: seq<Packet>, rest: seq<Inbox>)
    requires stream == taken + q
    ensures Gots(stream) + rest == InboxOf(taken, q, rest)
  {
    assert Gots(taken + q) == Gots(taken) + Gots(q);
  }

  /** A child of a run in which the parent has finished. */
  lemma ChildOfRun(m: Matrix, events: seq<Event>, a: nat, processes: seq<ProcessInfo>)
    requires Handshakable(m) && Run(Start(m), events).Some? && ParentDone(Run(Start(m), events).value)
    requires IsRow(m, a, processes)
    ensures var s, taken := Run(Start(m), events).value, Taken(Start(m), events, a);
      && |s.queues| == |m| && TakenInTurn(NewKid(processes), Gots(taken), |taken|)
      && KidOk(a, WaitSet(m, a), {}, s.queues[a], Absorb(NewKid(processes), Gots(taken)), s.made, true)
  {
    var s := Run(Start(m), events).value;
    StartOk(m);
    RunKeepsInv(m, Start(m), events);
    KidIsSettling(m, s, a);
    assert Start(m).kids[a] == NewKid(processes) by {
      assert WaitFor(processes) == WaitSet(m, a);
    }
    KidAbsorbs(Start(m), events, a);
  }

  lemma KidIsSettling(m: Matrix, s: Sys, a: nat)
    requires Handshakable(m) && Inv(m, s) && ParentDone(s) && 1 <= a < |m|
    ensures KidOk(a, WaitSet(m, a), {}, s.queues[a], s.kids[a], s.made, true)
  {
    assert KidOk(a, WaitSet(m, a), Unsent(s, a), s.queues[a], s.kids[a], s.made, true);
  }

  /**
   * The whole start-up: once the parent is done, a child whose inbox is all that the parent has
   * sent it, with anything behind it, gets ready, and can use exactly the parent and the peers
   * of its row.
   */
  lemma UsableIffConnected(m: Matrix, events: seq<Event>, a: nat, processes: seq<ProcessInfo>, rest: seq<Inbox>,
                           r: Startup, peers: seq<Peer>, used: nat)
    requires Handshakable(m) && Run(Start(m), events).Some? && ParentDone(Run(Start(m), events).value)
    requires IsRow(m, a, processes)
    requires ChildOutcome(processes, Gots(Stream(Start(m), events, a)) + rest, r, peers, used)
    ensures r == Ready && |peers| == |m|
    ensures forall b :: 0 <= b < |m| ==> PeerIs(m, Run(Start(m), events).value.made, a, b, processes, peers[b])
  {
    ChildOfRun(m, events, a, processes);
    StreamFromStart(m, events, a);
    var made := Run(Start(m), events).value.made;
    var taken, q := Taken(Start(m), events, a), Run(Start(m), events).value.queues[a];
    InboxFromStart(Stream(Start(m), events, a), taken, q, rest);
    var handlers := BecomesReady(a, WaitSet(m, a), processes, taken, q, rest, made, r, peers, used);
    forall b | 0 <= b < |m| ensures PeerIs(m, made, a, b, processes, peers[b]) {
      RowOfTable(m, made, a, b, processes, peers, handlers);
    }
  }

  /** Two connected children get the opposite ends of one socket pair. */
  lemma OppositeEnds(m: Matrix, events: seq<Event>, a: nat, b: nat,
                     processesA: seq<ProcessInfo>, restA: seq<Inbox>, rA: Startup, peersA: seq<Peer>, usedA: nat,
                     processesB: seq<ProcessInfo>, restB: seq<Inbox>, rB: Startup, peersB: seq<Peer>, usedB: nat)
    returns (end: End)
    requires Handshakable(m) && Run(Start(m), events).Some? && ParentDone(Run(Start(m), events).value)
    requires IsRow(m, a, processesA) && IsRow(m, b, processesB) && m[a][b]
    requires ChildOutcome(processesA, Gots(Stream(Start(m), events, a)) + restA, rA, peersA, usedA)
    requires ChildOutcome(processesB, Gots(Stream(Start(m), events, b)) + restB, rB, peersB, usedB)
    ensures |peersA| == |peersB| == |m|
    ensures Deref(peersA[b]) == Usable(PeerSocket(end)) && Deref(peersB[a]) == Usable(PeerSocket(end.Other()))
  {
    UsableIffConnected(m, events, a, processesA, restA, rA, peersA, usedA);
    UsableIffConnected(m, events, b, processesB, restB, rB, peersB, usedB);
    var made := Run(Start(m), events).value.made;
    assert PeerIs(m, made, a, b, processesA, peersA[b]) && PeerIs(m, made, b, a, processesB, peersB[a]);
    end := EndOf(made, a, b);
  }
}
