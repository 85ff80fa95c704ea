/**
 * Setting up the channels between children (`process.rs`), as a step system: the parent works
 * through the set of pairs in any order and sends one descriptor to each side in a separate
 * step; each child takes connect messages from its own queue until its wait set is empty.
 */
module Handshake {
  import opened Bytes
  import opened Derive

  type Pair = (nat, nat)

  datatype Side = Left | Right

  datatype End = End(socket: nat, side: Side) {
    function Other(): End { End(socket, if side == Left then Right else Left) }
  }

  /** A message as a child of the parent sees it. */
  datatype Packet = Packet(id: nat, peerId: nat, fd: Option<End>)

  const CONNECT: nat := 1
  const RESERVED: nat := 10

  /** Where the parent is in the body of its loop over the pairs. */
  datatype Phase =
    | Between
    | Created(pair: Pair, socket: nat)
    | HalfSent(pair: Pair, socket: nat)

  datatype Kid = Kid(wait: set<nat>, handlers: map<nat, End>, panicked: bool)

  datatype Sys = Sys(
    pending: set<Pair>,       // pairs the parent has not yet picked
    phase: Phase,
    made: map<Pair, nat>,     // the socket pair made for each pair
    open: set<End>,           // ends in the parent's descriptor table
    queues: seq<seq<Packet>>,
    kids: seq<Kid>)

  // ---- The two sides' readings of the matrix ----

  /** The pairs of `Parent::connect`. */
  function Pairs(m: Matrix): (pairs: set<Pair>)
    requires Square(m)
    ensures forall p :: p in pairs ==> 1 <= p.0 < p.1 < |m|
  {
    set a, b | 1 <= a < |m| && 1 <= b < |m| && m[a][b] && a != b :: Ordered(a, b)
  }

  function Ordered(a: nat, b: nat): Pair {
    if a < b then (a, b) else (b, a)
  }

  /** The initial wait set of `Child::new` in child a. */
  function WaitSet(m: Matrix, a: nat): (peers: set<nat>)
    requires Square(m) && 1 <= a < |m|
    ensures forall b :: b in peers ==> 1 <= b < |m|
  {
    set b | 1 <= b < |m| && m[a][b]
  }

  function Start(m: Matrix): Sys
    requires Square(m)
  {
    Sys(Pairs(m), Between, map[], {}, seq(|m|, a => []),
        seq(|m|, a requires 0 <= a < |m| => Kid(if a == 0 then {} else WaitSet(m, a), map[], false)))
  }

  // ---- Steps ----

  datatype Event =
    | Pick(pair: Pair, socket: nat)
    | SendLeft
    | SendRight
    | Recv(child: nat)
    | Ordinary(child: nat, packet: Packet)  // the parent's program, once `connect` has returned

  function ConnectPacket(peer: nat, end: End): Packet {
    Packet(CONNECT, peer, Some(end))
  }

  function Push(queues: seq<seq<Packet>>, a: nat, p: Packet): seq<seq<Packet>>
    requires a < |queues|
  {
    queues[a := queues[a] + [p]]
  }

  /** One message in the loop of `Child::new`: anything but an awaited connect is a panic. */
  function Accept(kid: Kid, p: Packet): Kid {
    if p.id == CONNECT && p.fd.Some? && p.peerId in kid.wait then
      Kid(kid.wait - {p.peerId}, kid.handlers[p.peerId := p.fd.value], kid.panicked)
    else kid.(panicked := true)
  }

  /** A child panics exactly at what is not a connect, has no descriptor, or is from nobody it waits for. */
  lemma AcceptPanicsIff(kid: Kid, p: Packet)
    requires !kid.panicked
    ensures var next := Accept(kid, p);
      && (next.panicked <==> p.id != 1 || p.fd.None? || p.peerId !in kid.wait)
      && (next.panicked ==> next.wait == kid.wait && next.handlers == kid.handlers)
      && (!next.panicked ==> next.wait + {p.peerId} == kid.wait && p.peerId !in next.wait)
      && (!next.panicked ==> next.handlers == kid.handlers[p.peerId := p.fd.value])
  {
  }

  predicate ParentDone(s: Sys) {
    s.pending == {} && s.phase == Between
  }

  predicate Listens(kid: Kid) {
    kid.wait != {} && !kid.panicked
  }

  function Next(s: Sys, e: Event): Option<Sys> {
    match e
    case Pick(p, socket) =>
      if s.phase == Between && p in s.pending && socket !in s.made.Values then
        Some(s.(pending := s.pending - {p}, phase := Created(p, socket), made := s.made[p := socket],
                open := s.open + {End(socket, Left), End(socket, Right)}))
      else None
    case SendLeft =>
      if s.phase.Created? && s.phase.pair.0 < |s.queues| then
        var (p, socket) := (s.phase.pair, s.phase.socket);
        Some(s.(phase := HalfSent(p, socket),
                queues := Push(s.queues, p.0, ConnectPacket(p.1, End(socket, Left)))))
      else None
    case SendRight =>
      if s.phase.HalfSent? && s.phase.pair.1 < |s.queues| then
        var (p, socket) := (s.phase.pair, s.phase.socket);
        Some(s.(phase := Between,
                queues := Push(s.queues, p.1, ConnectPacket(p.0, End(socket, Right))),
                open := s.open - {End(socket, Left), End(socket, Right)}))
      else None
    case Recv(a) =>
      if 1 <= a < |s.queues| && a < |s.kids| && s.queues[a] != [] && Listens(s.kids[a]) then
        Some(s.(queues := s.queues[a := s.queues[a][1..]], kids := s.kids[a := Accept(s.kids[a], s.queues[a][0])]))
      else None
    case Ordinary(a, p) =>
      if ParentDone(s) && 1 <= a < |s.queues| && p.id >= RESERVED then Some(s.(queues := Push(s.queues, a, p)))
      else None
  }

  function Run(s: Sys, events: seq<Event>): Option<Sys>
    decreases |events|
  {
    if events == [] then Some(s)
    else
      match Next(s, events[0])
      case None => None
      case Some(next) => Run(next, events[1..])
  }

  // ---- One child's share of the invariant ----

  predicate IsConnect(p: Packet) {
    p.id == CONNECT
  }

  /** The peers of the queued connect messages. */
  ghost function Queued(q: seq<Packet>): set<nat> {
    set i | 0 <= i < |q| && IsConnect(q[i]) :: q[i].peerId
  }

  /** The end of the socket for {a, b} that belongs to a. */
  ghost predicate IsEndFor(made: map<Pair, nat>, a: nat, b: nat, e: End) {
    Ordered(a, b) in made && e == End(made[Ordered(a, b)], if a < b then Left else Right)
  }

  ghost predicate QueueOk(a: nat, q: seq<Packet>, made: map<Pair, nat>, done: bool) {
    && (forall i :: 0 <= i < |q| && IsConnect(q[i]) ==> q[i].fd.Some? && IsEndFor(made, a, q[i].peerId, q[i].fd.value))
    && (forall i, j :: 0 <= i < j < |q| && IsConnect(q[i]) && IsConnect(q[j]) ==> q[i].peerId != q[j].peerId)
    && (forall i, j :: 0 <= i < j < |q| && IsConnect(q[j]) ==> IsConnect(q[i]))
    && (forall i :: 0 <= i < |q| && !IsConnect(q[i]) ==> done)
  }

  /**
   * `row` is the initial wait set, `unsent` the peers whose connect has still to be sent: what a
   * child waits for is, disjointly, what is queued and what is unsent.
   */
  ghost predicate KidOk(a: nat, row: set<nat>, unsent: set<nat>, q: seq<Packet>, kid: Kid, made: map<Pair, nat>, done: bool) {
    && !kid.panicked
    && QueueOk(a, q, made, done)
    && kid.wait == unsent + Queued(q) && unsent !! Queued(q)
    && kid.wait <= row && kid.handlers.Keys == row - kid.wait
    && (forall b :: b in kid.handlers ==> IsEndFor(made, a, b, kid.handlers[b]))
    && (done ==> unsent == {})
  }

  lemma QueuedSnoc(q: seq<Packet>, p: Packet)
    ensures Queued(q + [p]) == Queued(q) + if IsConnect(p) then {p.peerId} else {}
  {
    var r := q + [p];
    forall b | b in Queued(q) ensures b in Queued(r) {
      var i :| 0 <= i < |q| && IsConnect(q[i]) && q[i].peerId == b;
      assert r[i] == q[i];
    }
    assert r[|q|] == p;
    forall b | b in Queued(r) ensures b in Queued(q) || (IsConnect(p) && b == p.peerId) {
      var i :| 0 <= i < |r| && IsConnect(r[i]) && r[i].peerId == b;
      assert i < |q| ==> r[i] == q[i];
    }
  }

  lemma QueuedTail(q: seq<Packet>)
    requires q != []
    ensures Queued(q) == Queued(q[1..]) + if IsConnect(q[0]) then {q[0].peerId} else {}
  {
    forall b | b in Queued(q) ensures b in Queued(q[1..]) || (IsConnect(q[0]) && b == q[0].peerId) {
      var i :| 0 <= i < |q| && IsConnect(q[i]) && q[i].peerId == b;
      assert i > 0 ==> q[1..][i - 1] == q[i];
    }
    forall b | b in Queued(q[1..]) ensures b in Queued(q) {
      var i :| 0 <= i < |q[1..]| && IsConnect(q[1..][i]) && q[1..][i].peerId == b;
      assert q[i + 1] == q[1..][i];
    }
  }

  lemma KidGetsConnect(a: nat, row: set<nat>, unsent: set<nat>, q: seq<Packet>, kid: Kid, made: map<Pair, nat>,
                       b: nat, e: End, done: bool)
    requires KidOk(a, row, unsent, q, kid, made, false) && b in unsent && IsEndFor(made, a, b, e)
    requires done ==> unsent == {b}
    ensures KidOk(a, row, unsent - {b}, q + [ConnectPacket(b, e)], kid, made, done)
  {
    QueuedSnoc(q, ConnectPacket(b, e));
    forall i | 0 <= i < |q| && IsConnect(q[i]) ensures q[i].peerId != b {
      assert q[i].peerId in Queued(q);
    }
  }

  lemma KidAccepts(a: nat, row: set<nat>, unsent: set<nat>, q: seq<Packet>, kid: Kid, made: map<Pair, nat>, done: bool)
    requires KidOk(a, row, unsent, q, kid, made, done) && q != [] && Listens(kid)
    ensures IsConnect(q[0])
    ensures KidOk(a, row, unsent, q[1..], Accept(kid, q[0]), made, done)
  {
    QueuedTail(q);
    var w :| w in kid.wait;
    if w in Queued(q) {
      var i :| 0 <= i < |q| && IsConnect(q[i]) && q[i].peerId == w;
    }
    var b := q[0].peerId;
    forall i | 0 <= i < |q[1..]| && IsConnect(q[1..][i]) ensures q[1..][i].peerId != b {
      assert q[1..][i] == q[i + 1];
    }
    assert b !in Queued(q[1..]);
  }

  lemma KidGetsOrdinary(a: nat, row: set<nat>, q: seq<Packet>, kid: Kid, made: map<Pair, nat>, p: Packet)
    requires KidOk(a, row, {}, q, kid, made, true) && !IsConnect(p)
    ensures KidOk(a, row, {}, q + [p], kid, made, true)
  {
    QueuedSnoc(q, p);
  }

  /** A new socket pair changes nothing for the children. */
  lemma KidUnmoved(a: nat, row: set<nat>, unsent: set<nat>, q: seq<Packet>, kid: Kid,
                   made: map<Pair, nat>, made': map<Pair, nat>)
    requires KidOk(a, row, unsent, q, kid, made, false)
    requires forall p :: p in made ==> p in made' && made'[p] == made[p]
    ensures KidOk(a, row, unsent, q, kid, made', false)
  {
  }

  // ---- The system's invariant ----

  /** The peers child a has still to be sent a connect for. */
  ghost function Unsent(s: Sys, a: nat): set<nat> {
    (set p | p in s.pending && p.0 == a :: p.1) + (set p | p in s.pending && p.1 == a :: p.0)
    + match s.phase
      case Between => {}
      case Created(p, _) => if p.0 == a then {p.1} else if p.1 == a then {p.0} else {}
      case HalfSent(p, _) => if p.1 == a then {p.0} else {}
  }

  ghost predicate PhaseOk(m: Matrix, s: Sys)
    requires Square(m)
  {
    match s.phase
    case Between => s.open == {}
    case Created(p, socket) => InHand(m, s, p, socket)
    case HalfSent(p, socket) => InHand(m, s, p, socket)
  }

  /** A pair being connected: the parent has both ends open, and nothing else. */
  ghost predicate InHand(m: Matrix, s: Sys, p: Pair, socket: nat)
    requires Square(m)
  {
    && p in Pairs(m) && p !in s.pending && p in s.made && s.made[p] == socket
    && s.open == {End(socket, Left), End(socket, Right)}
  }

  ghost predicate Injective(made: map<Pair, nat>) {
    forall p, q :: p in made && q in made && made[p] == made[q] ==> p == q
  }

  ghost predicate ParentOk(m: Matrix, s: Sys)
    requires Square(m)
  {
    && |s.queues| == |s.kids| == |m|
    && (|m| >= 1 ==> s.queues[0] == [])
    && s.pending <= Pairs(m) && s.made.Keys == Pairs(m) - s.pending && Injective(s.made)
    && PhaseOk(m, s)
  }

  ghost predicate KidsOk(m: Matrix, s: Sys)
    requires Square(m) && |s.queues| == |s.kids| == |m|
  {
    forall a :: 1 <= a < |m| ==>
      KidOk(a, WaitSet(m, a), Unsent(s, a), s.queues[a], s.kids[a], s.made, ParentDone(s))
  }

  ghost predicate Inv(m: Matrix, s: Sys)
    requires Square(m)
  {
    ParentOk(m, s) && KidsOk(m, s)
  }

  ghost predicate Handshakable(m: Matrix) {
    Square(m) && SymmetricMatrix(m) && NoSelf(m)
  }

  lemma PairIffFlag(m: Matrix, a: nat, b: nat)
    requires Square(m) && SymmetricMatrix(m) && 1 <= a < |m| && 1 <= b < |m| && a != b
    ensures Ordered(a, b) in Pairs(m) <==> b in WaitSet(m, a)
  {
    if Ordered(a, b) in Pairs(m) {
      var x, y :| 1 <= x < |m| && 1 <= y < |m| && m[x][y] && x != y && Ordered(x, y) == Ordered(a, b);
    }
  }

  lemma StartOk(m: Matrix)
    requires Handshakable(m)
    ensures Inv(m, Start(m))
  {
    var s := Start(m);
    forall a | 1 <= a < |m|
      ensures KidOk(a, WaitSet(m, a), Unsent(s, a), s.queues[a], s.kids[a], s.made, ParentDone(s))
    {
      assert Queued([]) == {};
      forall b ensures b in Unsent(s, a) <==> b in WaitSet(m, a) {
        StartUnsent(m, a, b);
      }
      assert Unsent(s, a) == WaitSet(m, a);
    }
  }

  lemma StartUnsent(m: Matrix, a: nat, b: nat)
    requires Handshakable(m) && 1 <= a < |m|
    ensures b in Unsent(Start(m), a) <==> b in WaitSet(m, a)
  {
    var s := Start(m);
    if 1 <= b < |m| && a != b {
      PairIffFlag(m, a, b);
      if b in WaitSet(m, a) {
        assert Ordered(a, b) in s.pending;
      }
    }
  }

  /** Picking a pair moves it from the pending set into the parent's hands. */
  lemma PickUnsent(s: Sys, p: Pair, socket: nat, a: nat)
    requires s.phase == Between && p in s.pending && p.0 < p.1
    ensures Unsent(s.(pending := s.pending - {p}, phase := Created(p, socket)), a) == Unsent(s, a)
  {
    var t := s.(pending := s.pending - {p}, phase := Created(p, socket));
    forall b | b in Unsent(s, a) ensures b in Unsent(t, a) {
      if q :| q in s.pending && q.0 == a && q.1 == b {
        assert q == p || q in t.pending;
      } else {
        var q :| q in s.pending && q.1 == a && q.0 == b;
        assert q == p || q in t.pending;
      }
    }
  }

  lemma StepPick(m: Matrix, s: Sys, p: Pair, socket: nat)
    requires Handshakable(m) && Inv(m, s) && Next(s, Pick(p, socket)).Some?
    ensures Inv(m, Next(s, Pick(p, socket)).value)
  {
    var t := Next(s, Pick(p, socket)).value;
    forall a | 1 <= a < |m|
      ensures KidOk(a, WaitSet(m, a), Unsent(t, a), t.queues[a], t.kids[a], t.made, ParentDone(t))
    {
      PickUnsent(s, p, socket, a);
      KidUnmoved(a, WaitSet(m, a), Unsent(s, a), s.queues[a], s.kids[a], s.made, t.made);
    }
  }

  /** A pair that has been picked is not pending from either side. */
  lemma InHandIsUnsentOnce(m: Matrix, s: Sys, p: Pair, socket: nat)
    requires Square(m) && ParentOk(m, s) && InHand(m, s, p, socket)
    ensures forall q :: q in s.pending ==> !(q.0 == p.0 && q.1 == p.1) && !(q.0 == p.1 && q.1 == p.0)
  {
    forall q | q in s.pending ensures !(q.0 == p.0 && q.1 == p.1) && !(q.0 == p.1 && q.1 == p.0) {
      assert q in Pairs(m);
      assert q != p && q == (q.0, q.1) && p == (p.0, p.1);
    }
  }

  lemma StepSendLeft(m: Matrix, s: Sys)
    requires Handshakable(m) && Inv(m, s) && Next(s, SendLeft).Some?
    ensures Inv(m, Next(s, SendLeft).value)
  {
    var t := Next(s, SendLeft).value;
    var p, socket := s.phase.pair, s.phase.socket;
    InHandIsUnsentOnce(m, s, p, socket);
    forall a | 1 <= a < |m|
      ensures KidOk(a, WaitSet(m, a), Unsent(t, a), t.queues[a], t.kids[a], t.made, ParentDone(t))
    {
      if a == p.0 {
        assert Unsent(t, a) == Unsent(s, a) - {p.1};
        KidGetsConnect(a, WaitSet(m, a), Unsent(s, a), s.queues[a], s.kids[a], s.made, p.1, End(socket, Left), false);
      } else {
        assert Unsent(t, a) == Unsent(s, a);
      }
    }
  }

  lemma StepSendRight(m: Matrix, s: Sys)
    requires Handshakable(m) && Inv(m, s) && Next(s, SendRight).Some?
    ensures Inv(m, Next(s, SendRight).value)
  {
    var t := Next(s, SendRight).value;
    var p, socket := s.phase.pair, s.phase.socket;
    InHandIsUnsentOnce(m, s, p, socket);
    assert t.open == {};
    forall a | 1 <= a < |m|
      ensures KidOk(a, WaitSet(m, a), Unsent(t, a), t.queues[a], t.kids[a], t.made, ParentDone(t))
    {
      if a == p.1 {
        assert Unsent(t, a) == Unsent(s, a) - {p.0};
        assert ParentDone(t) ==> Unsent(s, a) == {p.0};
        KidGetsConnect(a, WaitSet(m, a), Unsent(s, a), s.queues[a], s.kids[a], s.made, p.0, End(socket, Right), ParentDone(t));
      } else {
        assert Unsent(t, a) == Unsent(s, a);
        assert ParentDone(t) ==> Unsent(t, a) == {};
      }
    }
  }

  lemma StepChild(m: Matrix, s: Sys, e: Event)
    requires Handshakable(m) && Inv(m, s) && (e.Recv? || e.Ordinary?) && Next(s, e).Some?
    ensures Inv(m, Next(s, e).value)
  {
    var t := Next(s, e).value;
    forall a | 1 <= a < |m|
      ensures KidOk(a, WaitSet(m, a), Unsent(t, a), t.queues[a], t.kids[a], t.made, ParentDone(t))
    {
      assert Unsent(t, a) == Unsent(s, a);
      if a == e.child {
        if e.Recv? {
          KidAccepts(a, WaitSet(m, a), Unsent(s, a), s.queues[a], s.kids[a], s.made, ParentDone(s));
        } else {
          KidGetsOrdinary(a, WaitSet(m, a), s.queues[a], s.kids[a], s.made, e.packet);
        }
      }
    }
  }

  lemma StepKeepsInv(m: Matrix, s: Sys, e: Event)
    requires Handshakable(m) && Inv(m, s) && Next(s, e).Some?
    ensures Inv(m, Next(s, e).value)
  {
    match e
    case Pick(p, socket) => StepPick(m, s, p, socket);
    case SendLeft => StepSendLeft(m, s);
    case SendRight => StepSendRight(m, s);
    case Recv(_) => StepChild(m, s, e);
    case Ordinary(_, _) => StepChild(m, s, e);
  }

  /** In every reachable state, whatever the order of the pairs and of all the steps. */
  lemma {:induction false} RunKeepsInv(m: Matrix, s: Sys, events: seq<Event>)
    requires Handshakable(m) && Inv(m, s) && Run(s, events).Some?
    ensures Inv(m, Run(s, events).value)
    decreases |events|
  {
    if events != [] {
      StepKeepsInv(m, s, events[0]);
      RunKeepsInv(m, Next(s, events[0]).value, events[1..]);
    }
  }
}
