/** The handshake ends, always and in the right state (`process.rs`). */
module Liveness {
  import opened Bytes
  import opened Derive
  import opened Handshake

  ghost predicate Finished(s: Sys) {
    ParentDone(s) && forall a :: 1 <= a < |s.kids| ==> s.kids[a].wait == {}
  }

  // ---- No deadlock ----

  /** A send blocks while its queue is at capacity. */
  ghost predicate Enabled(s: Sys, e: Event, capacity: nat) {
    && Next(s, e).Some?
    && (e.SendLeft? ==> |s.queues[s.phase.pair.0]| < capacity)
    && (e.SendRight? ==> |s.queues[s.phase.pair.1]| < capacity)
  }

  /** A child with a full queue is still waiting: what the parent sent it are connects. */
  lemma FullQueueIsRead(m: Matrix, s: Sys, a: nat)
    requires Handshakable(m) && Inv(m, s) && 1 <= a < |m|
    requires !ParentDone(s) && s.queues[a] != []
    ensures Next(s, Recv(a)).Some?
  {
    var q, kid := s.queues[a], s.kids[a];
    assert KidOk(a, WaitSet(m, a), Unsent(s, a), q, kid, s.made, false);
    assert IsConnect(q[0]);
    assert q[0].peerId in Queued(q);
  }

  lemma FreshSocket(s: Sys) returns (socket: nat)
    ensures socket !in s.made.Values
  {
    socket := Above(s.made.Values);
  }

  lemma Above(used: set<nat>) returns (n: nat)
    ensures forall u :: u in used ==> u < n
  {
    if used == {} {
      n := 0;
    } else {
      var u :| u in used;
      n := Above(used - {u});
      n := if n <= u then u + 1 else n;
      forall v | v in used ensures v < n {
        assert v == u || v in used - {u};
      }
    }
  }

  lemma ParentOrReader(m: Matrix, s: Sys, capacity: nat) returns (e: Event)
    requires Handshakable(m) && Inv(m, s) && s.phase != Between && capacity >= 1
    ensures !e.Ordinary? && Enabled(s, e, capacity)
  {
    var p := s.phase.pair;
    assert p in Pairs(m);
    var a := if s.phase.Created? then p.0 else p.1;
    if s.queues[a] == [] {
      e := if s.phase.Created? then SendLeft else SendRight;
    } else {
      e := Recv(a);
      FullQueueIsRead(m, s, a);
    }
  }

  lemma WaitingIsServed(m: Matrix, s: Sys, a: nat)
    requires Handshakable(m) && Inv(m, s) && ParentDone(s) && 1 <= a < |m| && s.kids[a].wait != {}
    ensures Next(s, Recv(a)).Some?
  {
    assert KidOk(a, WaitSet(m, a), Unsent(s, a), s.queues[a], s.kids[a], s.made, true);
    var b :| b in s.kids[a].wait;
    assert b in Queued(s.queues[a]);
  }

  /** As long as anyone waits, someone can move, even if a queue holds a single message. */
  lemma NeverStuck(m: Matrix, s: Sys, capacity: nat) returns (e: Event)
    requires Handshakable(m) && Inv(m, s) && !Finished(s) && capacity >= 1
    ensures !e.Ordinary? && Enabled(s, e, capacity)
  {
    if s.phase != Between {
      e := ParentOrReader(m, s, capacity);
    } else if s.pending != {} {
      var p :| p in s.pending;
      var socket := FreshSocket(s);
      e := Pick(p, socket);
    } else {
      var a :| 1 <= a < |s.kids| && s.kids[a].wait != {};
      WaitingIsServed(m, s, a);
      e := Recv(a);
    }
  }

  // ---- Termination ----

  ghost function Connects(q: seq<Packet>): nat {
    if q == [] then 0 else (if IsConnect(q[0]) then 1 else 0) + Connects(q[1..])
  }

  lemma {:induction false} ConnectsSnoc(q: seq<Packet>, p: Packet)
    ensures Connects(q + [p]) == Connects(q) + if IsConnect(p) then 1 else 0
  {
    if q == [] {
      assert [p][1..] == [];
    } else {
      HeadTail(q, [p]);
      ConnectsSnoc(q[1..], p);
    }
  }

  lemma {:induction false} ConnectsIffQueued(q: seq<Packet>)
    ensures Connects(q) == 0 <==> Queued(q) == {}
  {
    if q != [] {
      QueuedTail(q);
      ConnectsIffQueued(q[1..]);
    }
  }

  ghost function Backlog(queues: seq<seq<Packet>>): nat {
    if queues == [] then 0 else Connects(queues[0]) + Backlog(queues[1..])
  }

  lemma {:induction false} BacklogUpdate(queues: seq<seq<Packet>>, a: nat, q: seq<Packet>)
    requires a < |queues|
    ensures Backlog(queues[a := q]) + Connects(queues[a]) == Backlog(queues) + Connects(q)
  {
    var updated := queues[a := q];
    if a == 0 {
      assert updated[1..] == queues[1..];
    } else {
      assert updated[1..] == queues[1..][a - 1 := q];
      BacklogUpdate(queues[1..], a - 1, q);
    }
  }

  lemma {:induction false} NoBacklog(queues: seq<seq<Packet>>)
    ensures Backlog(queues) == 0 <==> forall a :: 0 <= a < |queues| ==> Queued(queues[a]) == {}
  {
    if queues != [] {
      NoBacklog(queues[1..]);
      ConnectsIffQueued(queues[0]);
      assert forall a :: 1 <= a < |queues| ==> queues[a] == queues[1..][a - 1];
      assert forall a :: 0 <= a < |queues[1..]| ==> queues[1..][a] == queues[a + 1];
    }
  }

  /** What is left: five steps for a pair not yet picked. */
  ghost function Work(s: Sys): nat {
    5 * |s.pending| + (match s.phase case Between => 0 case Created(_, _) => 4 case HalfSent(_, _) => 2)
    + Backlog(s.queues)
  }

  lemma PushBacklog(queues: seq<seq<Packet>>, a: nat, p: Packet)
    requires a < |queues|
    ensures Backlog(Push(queues, a, p)) == Backlog(queues) + if IsConnect(p) then 1 else 0
  {
    ConnectsSnoc(queues[a], p);
    BacklogUpdate(queues, a, queues[a] + [p]);
  }

  lemma PopBacklog(queues: seq<seq<Packet>>, a: nat)
    requires a < |queues| && queues[a] != [] && IsConnect(queues[a][0])
    ensures Backlog(queues[a := queues[a][1..]]) + 1 == Backlog(queues)
  {
    BacklogUpdate(queues, a, queues[a][1..]);
  }

  lemma RecvDecreasesWork(m: Matrix, s: Sys, a: nat)
    requires Handshakable(m) && Inv(m, s) && Next(s, Recv(a)).Some?
    ensures Work(Next(s, Recv(a)).value) == Work(s) - 1
  {
    KidAccepts(a, WaitSet(m, a), Unsent(s, a), s.queues[a], s.kids[a], s.made, ParentDone(s));
    PopBacklog(s.queues, a);
  }

  lemma OtherStepsDecreaseWork(s: Sys, e: Event)
    requires !e.Recv? && Next(s, e).Some?
    ensures Work(Next(s, e).value) == if e.Ordinary? then Work(s) else Work(s) - 1
  {
    match e
    case Pick(p, socket) =>
    case SendLeft =>
      PushBacklog(s.queues, s.phase.pair.0, ConnectPacket(s.phase.pair.1, End(s.phase.socket, Left)));
    case SendRight =>
      PushBacklog(s.queues, s.phase.pair.1, ConnectPacket(s.phase.pair.0, End(s.phase.socket, Right)));
    case Ordinary(a, p) =>
      PushBacklog(s.queues, a, p);
  }

  lemma StepDecreasesWork(m: Matrix, s: Sys, e: Event)
    requires Handshakable(m) && Inv(m, s) && Next(s, e).Some?
    ensures Work(Next(s, e).value) == if e.Ordinary? then Work(s) else Work(s) - 1
  {
    if e.Recv? {
      RecvDecreasesWork(m, s, e.child);
    } else {
      OtherStepsDecreaseWork(s, e);
    }
  }

  lemma ChildHasWork(m: Matrix, s: Sys, a: nat)
    requires Handshakable(m) && Inv(m, s) && ParentDone(s) && 0 <= a < |m|
    ensures a == 0 ==> Queued(s.queues[a]) == {}
    ensures a > 0 ==> s.kids[a].wait == Queued(s.queues[a])
  {
    if a > 0 {
      assert KidOk(a, WaitSet(m, a), Unsent(s, a), s.queues[a], s.kids[a], s.made, true);
    }
  }

  lemma ChildrenHaveWork(m: Matrix, s: Sys)
    requires Handshakable(m) && Inv(m, s) && ParentDone(s)
    ensures (forall a :: 1 <= a < |s.kids| ==> s.kids[a].wait == {}) <==> Backlog(s.queues) == 0
  {
    NoBacklog(s.queues);
    forall a | 0 <= a < |m|
      ensures a == 0 ==> Queued(s.queues[a]) == {}
      ensures a > 0 ==> s.kids[a].wait == Queued(s.queues[a])
    {
      ChildHasWork(m, s, a);
    }
  }

  lemma FinishedIffNoWork(m: Matrix, s: Sys)
    requires Handshakable(m) && Inv(m, s)
    ensures Finished(s) <==> Work(s) == 0
  {
    if ParentDone(s) {
      ChildrenHaveWork(m, s);
    }
  }

  ghost function Moves(events: seq<Event>): nat {
    if events == [] then 0 else (if events[0].Ordinary? then 0 else 1) + Moves(events[1..])
  }

  lemma {:induction false} RunDecreasesWork(m: Matrix, s: Sys, events: seq<Event>)
    requires Handshakable(m) && Inv(m, s) && Run(s, events).Some?
    ensures Work(Run(s, events).value) + Moves(events) == Work(s)
    decreases |events|
  {
    if events != [] {
      StepKeepsInv(m, s, events[0]);
      StepDecreasesWork(m, s, events[0]);
      RunDecreasesWork(m, Next(s, events[0]).value, events[1..]);
    }
  }

  lemma {:induction false} EmptyQueues(queues: seq<seq<Packet>>)
    requires forall a :: 0 <= a < |queues| ==> queues[a] == []
    ensures Backlog(queues) == 0
  {
    if queues != [] {
      EmptyQueues(queues[1..]);
    }
  }

  /**
   * Every run takes five handshake steps for each pair or fewer, and has finished exactly when
   * it has taken them all.
   */
  lemma FiveStepsPerPair(m: Matrix, events: seq<Event>)
    requires Handshakable(m) && Run(Start(m), events).Some?
    ensures Moves(events) <= 5 * |Pairs(m)|
    ensures Finished(Run(Start(m), events).value) <==> Moves(events) == 5 * |Pairs(m)|
  {
    StartOk(m);
    EmptyQueues(Start(m).queues);
    RunDecreasesWork(m, Start(m), events);
    RunKeepsInv(m, Start(m), events);
    FinishedIffNoWork(m, Run(Start(m), events).value);
  }

  // ---- The end state ----

  /** In a finished state, child a's table is its row. */
  lemma Settled(m: Matrix, s: Sys, a: nat, b: nat)
    requires Handshakable(m) && Inv(m, s) && Finished(s) && 1 <= a < |m|
    ensures b in s.kids[a].handlers <==> b in WaitSet(m, a)
    ensures b in s.kids[a].handlers ==> IsEndFor(s.made, a, b, s.kids[a].handlers[b])
  {
    assert KidOk(a, WaitSet(m, a), Unsent(s, a), s.queues[a], s.kids[a], s.made, true);
  }

  /**
   * When the handshake has finished, child a has a channel to child b exactly when its row says
   * connected, b then has the opposite end of the same socket pair, and the parent has closed
   * every end it created.
   */
  lemma EndState(m: Matrix, events: seq<Event>, a: nat, b: nat)
    requires Handshakable(m) && Run(Start(m), events).Some? && Finished(Run(Start(m), events).value)
    requires 1 <= a < |m| && 1 <= b < |m|
    ensures var s := Run(Start(m), events).value;
      && |s.kids| == |m| && s.open == {}
      && (b in s.kids[a].handlers <==> m[a][b])
      && (m[a][b] ==> a in s.kids[b].handlers && s.kids[b].handlers[a] == s.kids[a].handlers[b].Other())
  {
    StartOk(m);
    RunKeepsInv(m, Start(m), events);
    Settled(m, Run(Start(m), events).value, a, b);
    Settled(m, Run(Start(m), events).value, b, a);
  }

  /** Different pairs of children do not share a socket. */
  lemma SocketsAreDistinct(m: Matrix, events: seq<Event>, a: nat, b: nat, c: nat, d: nat)
    requires Handshakable(m) && Run(Start(m), events).Some? && Finished(Run(Start(m), events).value)
    requires 1 <= a < |m| && 1 <= b < |m| && 1 <= c < |m| && 1 <= d < |m| && m[a][b] && m[c][d]
    ensures var kids := Run(Start(m), events).value.kids;
      && |kids| == |m| && b in kids[a].handlers && d in kids[c].handlers
      && (kids[a].handlers[b].socket == kids[c].handlers[d].socket ==> Ordered(a, b) == Ordered(c, d))
  {
    StartOk(m);
    RunKeepsInv(m, Start(m), events);
    Settled(m, Run(Start(m), events).value, a, b);
    Settled(m, Run(Start(m), events).value, c, d);
  }

  /**
   * In every reachable state no child has panicked, and what a child waits for is, disjointly,
   * what is queued for it and what is still to be sent.
   */
  lemma WaitSetIsQueuedOrUnsent(m: Matrix, events: seq<Event>, a: nat)
    requires Handshakable(m) && Run(Start(m), events).Some? && 1 <= a < |m|
    ensures var s := Run(Start(m), events).value;
      && |s.kids| == |s.queues| == |m|
      && !s.kids[a].panicked
      && s.kids[a].wait == Queued(s.queues[a]) + Unsent(s, a)
      && Queued(s.queues[a]) !! Unsent(s, a)
  {
    StartOk(m);
    RunKeepsInv(m, Start(m), events);
    var s := Run(Start(m), events).value;
    assert KidOk(a, WaitSet(m, a), Unsent(s, a), s.queues[a], s.kids[a], s.made, ParentDone(s));
  }

  // ---- Self-connections ----

  /** From any reachable state the handshake can be brought to its end. */
  lemma {:induction false} CanFinish(m: Matrix, s: Sys) returns (events: seq<Event>)
    requires Handshakable(m) && Inv(m, s)
    ensures Run(s, events).Some? && Finished(Run(s, events).value)
    decreases Work(s)
  {
    if Finished(s) {
      events := [];
    } else {
      var e := NeverStuck(m, s, 1);
      StepKeepsInv(m, s, e);
      StepDecreasesWork(m, s, e);
      var rest := CanFinish(m, Next(s, e).value);
      events := [e] + rest;
      assert events[1..] == rest;
    }
  }

  /** No connect for a child names that child. */
  ghost predicate NeverOneself(s: Sys) {
    && |s.queues| == |s.kids|
    && (forall p :: p in s.pending ==> p.0 < p.1)
    && (s.phase.Created? || s.phase.HalfSent? ==> s.phase.pair.0 < s.phase.pair.1)
    && forall a, i :: 0 <= a < |s.queues| && 0 <= i < |s.queues[a]| && IsConnect(s.queues[a][i]) ==>
         s.queues[a][i].peerId != a
  }

  lemma SelfStep(s: Sys, e: Event, a: nat)
    requires NeverOneself(s) && Next(s, e).Some? && a < |s.kids| && a in s.kids[a].wait
    ensures var t := Next(s, e).value; NeverOneself(t) && |t.kids| == |s.kids| && a in t.kids[a].wait
  {
    var t := Next(s, e).value;
    if e.Recv? {
      assert forall i :: 0 <= i < |t.queues[e.child]| ==> t.queues[e.child][i] == s.queues[e.child][i + 1];
    }
  }

  lemma {:induction false} SelfRun(s: Sys, events: seq<Event>, a: nat)
    requires NeverOneself(s) && Run(s, events).Some? && a < |s.kids| && a in s.kids[a].wait
    ensures |Run(s, events).value.kids| == |s.kids| && a in Run(s, events).value.kids[a].wait
    decreases |events|
  {
    if events != [] {
      SelfStep(s, events[0], a);
      SelfRun(Next(s, events[0]).value, events[1..], a);
    }
  }

  ghost predicate CanComplete(m: Matrix)
    requires Square(m)
  {
    exists events :: Run(Start(m), events).Some? && Finished(Run(Start(m), events).value)
  }

  /**
   * A child flagged for itself waits forever, since the parent skips the pair: with a symmetric
   * matrix the handshake can complete if and only if no child is connected to itself.
   */
  lemma CompletesIffNoSelf(m: Matrix)
    requires Square(m) && SymmetricMatrix(m)
    ensures CanComplete(m) <==> NoSelf(m)
  {
    if NoSelf(m) {
      StartOk(m);
      var events := CanFinish(m, Start(m));
    } else {
      var a :| 1 <= a < |m| && m[a][a];
      forall events | Run(Start(m), events).Some?
        ensures !Finished(Run(Start(m), events).value)
      {
        SelfRun(Start(m), events, a);
      }
    }
  }

  /** In the programmer's terms: a handshake can complete unless some child lists itself. */
  lemma DerivedHandshakeCompletes(variants: seq<Name>, declared: seq<set<Name>>, rows: Matrix)
    requires IsEnum(variants, declared) && IsDerived(variants, declared, rows)
    ensures CanComplete(rows) <==> forall i :: 1 <= i < |variants| ==> variants[i] !in declared[i]
  {
    DerivedShape(variants, declared, rows);
    CompletesIffNoSelf(rows);
  }

  // ---- Both sides count the same connections ----

  /** The children paired with a, as the parent sees it. */
  ghost function PairedWith(pairs: set<Pair>, n: nat, a: nat): set<nat> {
    set b | 0 <= b < n && a != b && Ordered(a, b) in pairs
  }

  ghost function Degrees(pairs: set<Pair>, n: nat, below: nat): nat {
    if below == 0 then 0 else |PairedWith(pairs, n, below - 1)| + Degrees(pairs, n, below - 1)
  }

  lemma {:induction false} DegreesDrop(pairs: set<Pair>, n: nat, p: Pair, below: nat)
    requires p in pairs && p.0 < p.1 < n && below <= n
    ensures Degrees(pairs, n, below)
         == Degrees(pairs - {p}, n, below) + (if p.0 < below then 1 else 0) + if p.1 < below then 1 else 0
  {
    if below > 0 {
      var a := below - 1;
      var before, after := PairedWith(pairs, n, a), PairedWith(pairs - {p}, n, a);
      DegreesDrop(pairs, n, p, a);
      if a == p.0 {
        assert before == after + {p.1} && p.1 !in after;
      } else if a == p.1 {
        assert before == after + {p.0} && p.0 !in after;
      } else {
        assert before == after;
      }
    }
  }

  lemma {:induction false} NoDegrees(n: nat, below: nat)
    ensures Degrees({}, n, below) == 0
  {
    if below > 0 {
      NoDegrees(n, below - 1);
      assert PairedWith({}, n, below - 1) == {};
    }
  }

  lemma DoubleCount(pairs: set<Pair>, n: nat)
    requires forall p :: p in pairs ==> p.0 < p.1 < n
    ensures Degrees(pairs, n, n) == 2 * |pairs|
    decreases |pairs|
  {
    if pairs == {} {
      NoDegrees(n, n);
    } else {
      var p :| p in pairs;
      DegreesDrop(pairs, n, p, n);
      DoubleCount(pairs - {p}, n);
    }
  }

  ghost function WaitSizes(m: Matrix, below: nat): nat
    requires Square(m) && below <= |m|
  {
    if below <= 1 then 0 else |WaitSet(m, below - 1)| + WaitSizes(m, below - 1)
  }

  lemma {:induction false} WaitSizesAreDegrees(m: Matrix, below: nat)
    requires Handshakable(m) && below <= |m|
    ensures WaitSizes(m, below) == Degrees(Pairs(m), |m|, below)
  {
    if below > 0 {
      var a := below - 1;
      if a > 0 {
        WaitSizesAreDegrees(m, a);
        PairsAreWaitSets(m, a);
      } else {
        assert PairedWith(Pairs(m), |m|, 0) == {};
      }
    }
  }

  /** The children the parent pairs with a are those a waits for. */
  lemma PairsAreWaitSets(m: Matrix, a: nat)
    requires Handshakable(m) && 1 <= a < |m|
    ensures PairedWith(Pairs(m), |m|, a) == WaitSet(m, a)
  {
    forall b ensures b in PairedWith(Pairs(m), |m|, a) <==> b in WaitSet(m, a) {
      if 1 <= b < |m| && a != b {
        PairIffFlag(m, a, b);
      }
    }
  }

  /** Two connects for each pair, and the children expect as many between them. */
  lemma TwicePairsIsSumOfWaitSets(m: Matrix)
    requires Handshakable(m)
    ensures 2 * |Pairs(m)| == WaitSizes(m, |m|)
  {
    WaitSizesAreDegrees(m, |m|);
    DoubleCount(Pairs(m), |m|);
  }
}
