/** The parent's and the child's start-up code (`process.rs`), proved against the step system. */
module Process {
  import opened Bytes
  import opened Derive
  import opened Handshake
  import Liveness

  const PARENT := "parent"

  datatype ProcessInfo = ProcessInfo(name: string, connect: bool)

  datatype Channel = ParentSocket | ChildSocket(id: nat) | PeerSocket(end: End)

  datatype Peer = Peer(name: string, handler: Option<Channel>)

  /** `Peer::deref`: using a peer without a channel panics. */
  datatype Use = Usable(channel: Channel) | Unconfigured(name: string)

  function Deref(peer: Peer): Use {
    if peer.handler.Some? then Usable(peer.handler.value) else Unconfigured(peer.name)
  }

  // ---- The parent ----

  datatype Launch = PermissionDenied | MissingParent | Children(peers: seq<Peer>)

  /** The peer table of `Parent::new`: a channel for each process that is to be connected. */
  method Spawn(processes: seq<ProcessInfo>, privileged: bool) returns (r: Launch)
    ensures r == PermissionDenied <==> !privileged
    ensures r == MissingParent <==> privileged && (processes == [] || processes[0].name != "parent")
    ensures r.Children? ==> |r.peers| == |processes|
    ensures r.Children? ==> forall i :: 0 <= i < |processes| ==>
      r.peers[i].name == processes[i].name
      && Deref(r.peers[i]) == (if processes[i].connect then Usable(ChildSocket(i)) else Unconfigured(processes[i].name))
  {
    if !privileged {
      return PermissionDenied;
    }
    if processes == [] || processes[0].name != PARENT {
      return MissingParent;
    }
    var children: seq<Peer> := [];
    for i := 0 to |processes|
      invariant |children| == i
      invariant forall k :: 0 <= k < i ==>
        children[k] == Peer(processes[k].name, if processes[k].connect then Some(ChildSocket(k)) else None)
    {
      var p := processes[i];
      if !p.connect {
        children := children + [Peer(p.name, None)];
        continue;
      }
      children := children + [Peer(p.name, Some(ChildSocket(i)))];
    }
    r := Children(children);
  }

  /** The parent while it connects its children. */
  class Parent {
    var streams: seq<seq<Packet>>  // what has been sent to each child
    var open: set<End>             // its descriptors for the children's sockets
    var sockets: nat               // socket pairs created so far
    ghost var sys: Sys

    ghost predicate Valid()
      reads this
    {
      && sys.queues == streams && sys.open == open
      && forall p :: p in sys.made ==> sys.made[p] < sockets
    }

    constructor (m: Matrix)
      requires Square(m)
      ensures Valid() && sys == Start(m)
    {
      streams, open, sockets := seq(|m|, a => []), {}, 0;
      sys := Start(m);
    }

    /** One iteration of the loop in `connect`; both descriptors are dropped at its end. */
    method ConnectPair(p: Pair) returns (ghost events: seq<Event>)
      requires Valid() && sys.phase == Between && p in sys.pending
      requires p.0 < |streams| && p.1 < |streams| && p.0 != p.1
      modifies this
      ensures Valid() && Run(old(sys), events) == Some(sys)
      ensures forall i :: 0 <= i < |events| ==> !events[i].Recv?
      ensures sys.phase == Between && sys.pending == old(sys).pending - {p} && sys.kids == old(sys).kids
      ensures |streams| == |old(streams)| && open == old(open) - {End(old(sockets), Left), End(old(sockets), Right)}
    {
      ghost var s := sys;
      var socket := sockets;
      assert socket !in sys.made.Values;
      sockets := sockets + 1;
      var left, right := End(socket, Left), End(socket, Right);
      open := open + {left, right};
      sys := Next(sys, Pick(p, socket)).value;
      ghost var s1 := sys;

      streams := Push(streams, p.0, ConnectPacket(p.1, left));
      sys := Next(sys, SendLeft).value;
      ghost var s2 := sys;

      streams := Push(streams, p.1, ConnectPacket(p.0, right));
      open := open - {left, right};
      sys := Next(sys, SendRight).value;

      events := [Pick(p, socket), SendLeft, SendRight];
      ThreeSteps(s, s1, s2, sys, events);
    }

    /**
     * `connect`: every pair, in any order.  The result is a run of the step system in which only
     * the parent has moved, and at the end of which it has nothing left to do and nothing open;
     * the streams are what this run has sent.
     */
    method Connect(m: Matrix) returns (ghost events: seq<Event>)
      requires Handshakable(m) && Valid() && sys == Start(m)
      modifies this
      ensures Valid() && Run(Start(m), events) == Some(sys)
      ensures ParentDone(sys) && sys.kids == Start(m).kids && open == {}
      ensures |streams| == |m| && forall a :: 1 <= a < |m| ==>
        Queued(streams[a]) == WaitSet(m, a) && streams[a] == Stream(Start(m), events, a)
    {
      StartOk(m);
      events := [];
      var pairs := Pairs(m);
      while pairs != {}
        invariant Valid() && Run(Start(m), events) == Some(sys) && Inv(m, sys)
        invariant sys.phase == Between && sys.pending == pairs && sys.kids == Start(m).kids
        invariant forall i :: 0 <= i < |events| ==> !events[i].Recv?
        decreases |pairs|
      {
        ghost var start := sys;
        var p :| p in pairs;
        ghost var more := ConnectPair(p);
        RunAppend(Start(m), events, more);
        RunKeepsInv(m, start, more);
        events := events + more;
        pairs := pairs - {p};
      }
      forall a | 1 <= a < |m|
        ensures Queued(streams[a]) == WaitSet(m, a) && streams[a] == Stream(Start(m), events, a)
      {
        AfterConnect(m, events, a);
      }
    }
  }

  lemma AfterConnect(m: Matrix, events: seq<Event>, a: nat)
    requires Handshakable(m) && Run(Start(m), events).Some? && 1 <= a < |m|
    requires forall i :: 0 <= i < |events| ==> !events[i].Recv?
    requires var s := Run(Start(m), events).value; Inv(m, s) && ParentDone(s) && s.kids == Start(m).kids
    ensures var q := Run(Start(m), events).value.queues[a];
      Queued(q) == WaitSet(m, a) && q == Stream(Start(m), events, a)
  {
    var s := Run(Start(m), events).value;
    assert KidOk(a, WaitSet(m, a), Unsent(s, a), s.queues[a], s.kids[a], s.made, true);
    StreamIsTakenOrQueued(Start(m), events, a);
    NothingTaken(Start(m), events, a);
    EmptyLeft(Stream(Start(m), events, a));
    EmptyLeft(s.queues[a]);
  }

  lemma ThreeSteps(s: Sys, s1: Sys, s2: Sys, s3: Sys, events: seq<Event>)
    requires |events| == 3
    requires Next(s, events[0]) == Some(s1) && Next(s1, events[1]) == Some(s2) && Next(s2, events[2]) == Some(s3)
    ensures Run(s, events) == Some(s3)
  {
    assert Run(s2, events[1..][1..]) == Some(s3) by {
      assert events[1..][1..] == [events[2]] && [events[2]][1..] == [];
    }
    assert Run(s1, events[1..]) == Some(s3);
  }

  lemma {:induction false} RunAppend(s: Sys, a: seq<Event>, b: seq<Event>)
    requires Run(s, a).Some?
    ensures Run(s, a + b) == Run(Run(s, a).value, b)
    decreases |a|
  {
    if a == [] {
      EmptyLeft(b);
    } else {
      HeadTail(a, b);
      RunAppend(Next(s, a[0]).value, a[1..], b);
    }
  }

  /** What a step sends to child a, and what child a takes in it. */
  ghost function Sends(s: Sys, e: Event, a: nat): seq<Packet> {
    match e
    case SendLeft =>
      if s.phase.Created? && s.phase.pair.0 == a then [ConnectPacket(s.phase.pair.1, End(s.phase.socket, Left))] else []
    case SendRight =>
      if s.phase.HalfSent? && s.phase.pair.1 == a then [ConnectPacket(s.phase.pair.0, End(s.phase.socket, Right))] else []
    case Ordinary(b, p) => if b == a then [p] else []
    case _ => []
  }

  ghost function Takes(s: Sys, e: Event, a: nat): seq<Packet>
    requires Next(s, e).Some?
  {
    if e == Recv(a) then [s.queues[a][0]] else []
  }

  ghost function Stream(s: Sys, events: seq<Event>, a: nat): seq<Packet>
    requires Run(s, events).Some?
    decreases |events|
  {
    if events == [] then [] else Sends(s, events[0], a) + Stream(Next(s, events[0]).value, events[1..], a)
  }

  ghost function Taken(s: Sys, events: seq<Event>, a: nat): seq<Packet>
    requires Run(s, events).Some?
    decreases |events|
  {
    if events == [] then [] else Takes(s, events[0], a) + Taken(Next(s, events[0]).value, events[1..], a)
  }

  lemma StepOfStream(s: Sys, e: Event, a: nat)
    requires Next(s, e).Some? && a < |s.queues|
    ensures var next := Next(s, e).value;
      |next.queues| == |s.queues| && s.queues[a] + Sends(s, e, a) == Takes(s, e, a) + next.queues[a]
  {
  }

  /** Nothing is lost on the way: what was queued and sent is taken or still queued, in order. */
  lemma {:induction false} StreamIsTakenOrQueued(s: Sys, events: seq<Event>, a: nat)
    requires Run(s, events).Some? && a < |s.queues|
    ensures |Run(s, events).value.queues| == |s.queues|
    ensures s.queues[a] + Stream(s, events, a) == Taken(s, events, a) + Run(s, events).value.queues[a]
    decreases |events|
  {
    if events == [] {
      EmptyLeft(s.queues[a]);
      assert s.queues[a] + [] == s.queues[a];
    } else {
      var e, next := events[0], Next(s, events[0]).value;
      StreamIsTakenOrQueued(next, events[1..], a);
      StepOfStream(s, e, a);
      Assoc(s.queues[a], Sends(s, e, a), Stream(next, events[1..], a));
      Assoc(Takes(s, e, a), next.queues[a], Stream(next, events[1..], a));
      Assoc(Takes(s, e, a), Taken(next, events[1..], a), Run(s, events).value.queues[a]);
    }
  }

  lemma {:induction false} NothingTaken(s: Sys, events: seq<Event>, a: nat)
    requires Run(s, events).Some? && forall i :: 0 <= i < |events| ==> !events[i].Recv?
    ensures Taken(s, events, a) == []
    decreases |events|
  {
    if events != [] {
      NothingTaken(Next(s, events[0]).value, events[1..], a);
    }
  }

  // ---- A child ----

  /** What `recv_message` reports to the child. */
  datatype Inbox = Got(packet: Packet) | EndOfStream | ReadError

  datatype Startup = Ready | StillWaiting | Panicked | Failed

  function WaitFor(processes: seq<ProcessInfo>): (peers: set<nat>)
    ensures forall b :: b in peers ==> 1 <= b < |processes|
  {
    set id | 1 <= id < |processes| && processes[id].connect
  }

  /** The messages a child has taken, folded over the step system's reaction to each. */
  ghost function Absorb(kid: Kid, inbox: seq<Inbox>): Kid {
    if inbox == [] then kid
    else
      var before := Absorb(kid, inbox[..|inbox| - 1]);
      match inbox[|inbox| - 1]
      case Got(p) => Accept(before, p)
      case _ => before
  }

  /** The peer table that goes with a child's state. */
  ghost predicate TableMatches(processes: seq<ProcessInfo>, peers: seq<Peer>, handlers: map<nat, End>) {
    && |peers| == |processes| >= 1
    && peers[0] == Peer(processes[0].name, Some(ParentSocket))
    && forall b :: 1 <= b < |peers| ==>
         peers[b] == Peer(processes[b].name, if b in handlers then Some(PeerSocket(handlers[b])) else None)
  }

  method InitialPeers(processes: seq<ProcessInfo>) returns (peers: seq<Peer>)
    requires |processes| >= 1
    ensures TableMatches(processes, peers, map[])
  {
    peers := [Peer(processes[0].name, Some(ParentSocket))];
    for i := 1 to |processes|
      invariant |peers| == i
      invariant peers[0] == Peer(processes[0].name, Some(ParentSocket))
      invariant forall b :: 1 <= b < i ==> peers[b] == Peer(processes[b].name, None)
    {
      peers := peers + [Peer(processes[i].name, None)];
    }
  }

  /** One message: it must be a connect, with a descriptor, from a peer that is awaited. */
  method TakeConnect(processes: seq<ProcessInfo>, peers: seq<Peer>, waitConnections: set<nat>, p: Packet, ghost kid: Kid)
    returns (ok: bool, peers': seq<Peer>, waitConnections': set<nat>)
    requires kid.wait == waitConnections <= WaitFor(processes) && !kid.panicked
    requires TableMatches(processes, peers, kid.handlers)
    ensures ok <==> !Accept(kid, p).panicked
    ensures ok <==> p.id == 1 && p.fd.Some? && p.peerId in waitConnections
    ensures waitConnections' == Accept(kid, p).wait
    ensures TableMatches(processes, peers', Accept(kid, p).handlers)
  {
    ok, peers', waitConnections' := false, peers, waitConnections;
    if p.id != CONNECT || p.fd.None? {
      return;
    }
    if p.peerId !in waitConnections {
      return;
    }
    ok, waitConnections' := true, waitConnections - {p.peerId};
    peers' := peers[p.peerId := peers[p.peerId].(handler := Some(PeerSocket(p.fd.value)))];
  }

  function NewKid(processes: seq<ProcessInfo>): Kid {
    Kid(WaitFor(processes), map[], false)
  }

  /** How start-up ends, by the first `used` items of the inbox and the one behind them. */
  ghost predicate ChildOutcome(processes: seq<ProcessInfo>, inbox: seq<Inbox>, r: Startup, peers: seq<Peer>, used: nat) {
    && TakenInTurn(NewKid(processes), inbox, used)
    && var kid := Absorb(NewKid(processes), inbox[..used]);
      && TableMatches(processes, peers, kid.handlers)
      && (r == Ready <==> kid.wait == {})
      && (r == StillWaiting <==> Listens(kid) && used == |inbox|)
      && (r == Failed <==> Listens(kid) && used < |inbox| && inbox[used].ReadError?)
      && (r == Panicked <==>
            kid.panicked || (kid.wait != {} && used < |inbox| && inbox[used].EndOfStream?))
  }

  /**
   * `Child::new`: fill the peer table from the parent's messages until nobody is awaited.  It
   * takes `used` items from the inbox, each while it still listens, and its table is that of the
   * step system's child after the same messages.
   */
  method NewChild(processes: seq<ProcessInfo>, inbox: seq<Inbox>) returns (r: Startup, peers: seq<Peer>, used: nat)
    requires |processes| >= 1
    ensures ChildOutcome(processes, inbox, r, peers, used)
  {
    peers := InitialPeers(processes);
    var waitConnections := WaitFor(processes);
    ghost var start := NewKid(processes);
    ghost var kid := start;
    used := 0;
    while waitConnections != {}
      invariant used <= |inbox| && kid == Absorb(start, inbox[..used])
      invariant kid.wait == waitConnections <= WaitFor(processes) && !kid.panicked
      invariant TableMatches(processes, peers, kid.handlers)
      invariant TakenInTurn(start, inbox, used)
      decreases |inbox| - used
    {
      if used == |inbox| {
        return StillWaiting, peers, used;
      }
      var item := inbox[used];
      if item.ReadError? {
        return Failed, peers, used;
      }
      if item.EndOfStream? {
        return Panicked, peers, used;
      }
      AbsorbOneMore(start, inbox, used);
      var ok;
      ok, peers, waitConnections := TakeConnect(processes, peers, waitConnections, item.packet, kid);
      kid := Accept(kid, item.packet);
      used := used + 1;
      if !ok {
        return Panicked, peers, used;
      }
    }
    r := Ready;
  }

  /** Each of the first items is a message, and arrived while the child still listened. */
  ghost predicate TakenInTurn(start: Kid, inbox: seq<Inbox>, used: nat) {
    used <= |inbox| && forall i :: 0 <= i < used ==> inbox[i].Got? && Listens(Absorb(start, inbox[..i]))
  }

  lemma AbsorbOneMore(kid: Kid, inbox: seq<Inbox>, used: nat)
    requires TakenInTurn(kid, inbox, used) && used < |inbox| && inbox[used].Got?
    requires Listens(Absorb(kid, inbox[..used]))
    ensures TakenInTurn(kid, inbox, used + 1)
    ensures Absorb(kid, inbox[..used + 1]) == Accept(Absorb(kid, inbox[..used]), inbox[used].packet)
  {
    assert inbox[..used + 1][..used] == inbox[..used];
  }
}
