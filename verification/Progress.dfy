/** The handshake over the wire makes progress and ends. */
module Progress {
  import opened Bytes
  import opened Derive
  import opened Kernel
  import Imsg
  import R = Receivers
  import opened Handshake
  import Liveness
  import Schedules
  import Pairing
  import opened EndToEnd

  /** A child with a message on its line can go on receiving it. */
  lemma ChildCanMove(m: Matrix, w: Wire, a: nat) returns (e: WireEvent)
    requires Workable(m, w.full) && WireInv(m, w) && 1 <= a < |m|
    requires Listens(w.kids[a]) && Queues(w)[a] != []
    ensures e.WireChild? && WireNext(w, e).Some?
  {
    var line := w.lines[a];
    assert LineOk(w.full, line, w.kids[a]) && |line.done| < |line.sent|;
    NextIsConnect(m, w, a);
    var step := LineCanMove(w.full, line);
    e := WireChild(a, step);
  }

  lemma LineCanMove(full: bool, line: Line) returns (step: R.Event<End>)
    requires NextIsBarrier(line) && Live(line.queue) && Sound(full, line) && |line.done| < |line.sent|
    ensures ChildStep(full, line, step) && R.Next(line, step).Some?
  {
    if line.tasks[0].Idle? {
      step := R.Begin(0);
    } else {
      if Imsg.Split(line.buf) == None {
        UnreadIfIncomplete(full, line);
        LiveReach(line.queue);
      }
      step := R.Poll(0, Fill(line.queue, Imsg.BUFFER_LENGTH), true);
    }
  }

  lemma UnreadIfIncomplete(full: bool, line: Line)
    requires NextIsBarrier(line) && Sound(full, line)
    requires |line.done| < |line.sent| && Imsg.Split(line.buf) == None
    ensures line.queue != []
  {
    Schedules.SplitWhole(line.buf);
    if !full && Begun(line) {
      FirstFrame(line);
    }
  }

  lemma CanDeliver(w: Wire, a: nat, peer: nat, end: End)
    requires a < |w.lines| && Live(w.lines[a].queue)
    ensures Deliver(w, a, ConnectSegment(peer, end, 0)).Some?
  {
  }

  lemma ParentCanSend(w: Wire) returns (e: WireEvent)
    requires LinesOk(w) && w.phase != Between
    requires w.phase.pair.0 < |w.lines| && w.phase.pair.1 < |w.lines|
    ensures !e.WireOrdinary? && WireNext(w, e).Some?
  {
    var p, socket := w.phase.pair, w.phase.socket;
    if w.phase.Created? {
      CanDeliver(w, p.0, p.1, End(socket, Left));
      e := WireSendLeft(0);
    } else {
      CanDeliver(w, p.1, p.0, End(socket, Right));
      e := WireSendRight(0);
    }
  }

  lemma WireNeverStuck(m: Matrix, w: Wire) returns (e: WireEvent)
    requires Workable(m, w.full) && WireInv(m, w) && !Liveness.Finished(Abstract(w))
    ensures !e.WireOrdinary? && WireNext(w, e).Some?
  {
    if w.phase != Between {
      InHandIsSmall(m, w);
      e := ParentCanSend(w);
    } else {
      var step := Liveness.NeverStuck(m, Abstract(w), 1);
      if step.Pick? {
        e := WirePick(step.pair, step.socket);
      } else {
        e := ChildCanMove(m, w, step.child);
      }
    }
  }

  // ---- Termination ----

  /** The steps of one receive: begin, one full read or one for each byte, and complete. */
  function Round(full: bool): (n: nat) {
    if full then 3 else 65537
  }

  /** Steps a line's receive loop has left in its current round. */
  ghost function Slack(full: bool, line: Line): nat {
    if |line.tasks| != 1 || line.tasks[0].Idle? then Round(full) - 1
    else if full then (if line.buf == [] then 1 else 0)
    else if |line.buf| < Imsg.BUFFER_LENGTH then Imsg.BUFFER_LENGTH - |line.buf|
    else 0
  }

  ghost function Slacks(full: bool, lines: seq<Line>): nat {
    if lines == [] then 0 else Slack(full, lines[0]) + Slacks(full, lines[1..])
  }

  lemma {:induction false} SlacksUpdate(full: bool, lines: seq<Line>, a: nat, line: Line)
    requires a < |lines|
    ensures Slacks(full, lines[a := line]) + Slack(full, lines[a]) == Slacks(full, lines) + Slack(full, line)
  {
    var updated := lines[a := line];
    if a == 0 {
      assert updated[1..] == lines[1..];
    } else {
      assert updated[1..] == lines[1..][a - 1 := line];
      SlacksUpdate(full, lines[1..], a - 1, line);
    }
  }

  /** So many rounds. */
  function Rounds(full: bool, n: nat): (steps: nat) {
    if full then 3 * n else 65537 * n
  }

  ghost function WireWork(w: Wire): nat
    requires LinesOk(w)
  {
    Rounds(w.full, Liveness.Work(Abstract(w))) + Slacks(w.full, w.lines)
  }

  /** A receive that completes starts a new round; any other step of the loop takes from its round. */
  lemma LineWorks(full: bool, line: Line, step: R.Event<End>)
    requires Live(line.queue) && Sound(full, line) && ChildStep(full, line, step) && R.Next(line, step).Some?
    requires NextIsBarrier(line)
    ensures var next := R.Next(line, step).value;
      if step.Poll? && Imsg.Split(line.buf).Some? then Slack(full, next) <= Slack(full, line) + Round(full) - 1
      else Slack(full, next) < Slack(full, line)
  {
    if step.Poll? {
      Schedules.SplitWhole(line.buf);
      if Imsg.Split(line.buf) == None {
        Imsg.IncompleteIsShort(line.buf);
        assert |R.Next(line, step).value.buf| == |line.buf| + step.size;
      }
    }
  }

  lemma DeliverySlacks(w: Wire, e: WireEvent)
    requires (e.WireSendLeft? || e.WireSendRight? || e.WireOrdinary?) && WireNext(w, e).Some?
    ensures Slacks(w.full, WireNext(w, e).value.lines) == Slacks(w.full, w.lines)
  {
    var a := if e.WireSendLeft? then w.phase.pair.0 else if e.WireSendRight? then w.phase.pair.1 else e.child;
    SlacksUpdate(w.full, w.lines, a, WireNext(w, e).value.lines[a]);
  }

  lemma ChildSlacks(m: Matrix, w: Wire, a: nat, step: R.Event<End>)
    requires Workable(m, w.full) && WireInv(m, w) && WireNext(w, WireChild(a, step)).Some?
    ensures Slacks(w.full, WireNext(w, WireChild(a, step)).value.lines)
         <= Slacks(w.full, w.lines) + if Meaning(w, WireChild(a, step)).Some? then Round(w.full) - 1 else -1
  {
    if |w.lines[a].done| < |w.lines[a].sent| {
      NextIsConnect(m, w, a);
    }
    LineWorks(w.full, w.lines[a], step);
    SlacksUpdate(w.full, w.lines, a, WireNext(w, WireChild(a, step)).value.lines[a]);
  }

  lemma StepSlacks(m: Matrix, w: Wire, e: WireEvent)
    requires Workable(m, w.full) && WireInv(m, w) && WireNext(w, e).Some?
    ensures var slacks := Slacks(w.full, WireNext(w, e).value.lines);
      if e.WireOrdinary? then slacks == Slacks(w.full, w.lines)
      else slacks <= Slacks(w.full, w.lines) + if Meaning(w, e).Some? then Round(w.full) - 1 else -1
  {
    if e.WireChild? {
      ChildSlacks(m, w, e.child, e.step);
    } else if !e.WirePick? {
      DeliverySlacks(w, e);
    }
  }

  lemma QueueWorks(m: Matrix, w: Wire, e: WireEvent)
    requires Workable(m, w.full) && WireInv(m, w) && WireNext(w, e).Some?
    ensures LinesOk(WireNext(w, e).value)
    ensures Liveness.Work(Abstract(WireNext(w, e).value))
         == Liveness.Work(Abstract(w)) - if Meaning(w, e).Some? && !e.WireOrdinary? then 1 else 0
  {
    StepMeans(m, w, e);
    var step := Meaning(w, e);
    if step.Some? {
      OrdinaryMeansOrdinary(w, e);
      Liveness.StepDecreasesWork(m, Abstract(w), step.value);
    }
  }

  lemma OrdinaryMeansOrdinary(w: Wire, e: WireEvent)
    requires Meaning(w, e).Some?
    ensures Meaning(w, e).value.Ordinary? <==> e.WireOrdinary?
  {
  }

  lemma SameKernel(w: Wire, e: WireEvent)
    requires WireNext(w, e).Some?
    ensures WireNext(w, e).value.full == w.full
  {
  }

  lemma StepWorks(m: Matrix, w: Wire, e: WireEvent)
    requires Workable(m, w.full) && WireInv(m, w) && WireNext(w, e).Some?
    ensures LinesOk(WireNext(w, e).value)
    ensures WireWork(WireNext(w, e).value) + (if e.WireOrdinary? then 0 else 1) <= WireWork(w)
  {
    QueueWorks(m, w, e);
    StepSlacks(m, w, e);
    SameKernel(w, e);
  }

  /** The steps of the handshake itself; the parent's program may send its messages in between. */
  ghost function WireMoves(events: seq<WireEvent>): nat {
    if events == [] then 0 else (if events[0].WireOrdinary? then 0 else 1) + WireMoves(events[1..])
  }

  lemma {:induction false} RunWorks(m: Matrix, w: Wire, events: seq<WireEvent>)
    requires Workable(m, w.full) && WireInv(m, w) && WireRun(w, events).Some?
    ensures LinesOk(WireRun(w, events).value)
    ensures WireWork(WireRun(w, events).value) + WireMoves(events) <= WireWork(w)
    decreases |events|
  {
    if events != [] {
      StepRefines(m, w, events[0]);
      StepWorks(m, w, events[0]);
      RunWorks(m, WireNext(w, events[0]).value, events[1..]);
    }
  }

  lemma {:induction false} IdleSlacks(full: bool, lines: seq<Line>)
    requires forall a :: 0 <= a < |lines| ==> lines[a] == R.Start<End>(1)
    ensures Slacks(full, lines) == (Round(full) - 1) * |lines|
  {
    if lines != [] {
      IdleSlacks(full, lines[1..]);
    }
  }

  lemma StartWork(m: Matrix, full: bool)
    requires Workable(m, full)
    ensures LinesOk(StartWire(m, full))
    ensures WireWork(StartWire(m, full)) == Rounds(full, 5 * |Pairs(m)|) + (Round(full) - 1) * |m|
  {
    StartRefines(m, full);
    var lines := StartWire(m, full).lines;
    IdleSlacks(full, lines);
    assert |lines| == |m|;
    NoWorkQueued(m);
  }

  lemma NoWorkQueued(m: Matrix)
    requires Square(m)
    ensures Liveness.Work(Start(m)) == 5 * |Pairs(m)|
  {
    Liveness.EmptyQueues(Start(m).queues);
  }

  /**
   * The wire handshake ends.  With full reads no run has more than fifteen steps for each pair
   * and two for each process, apart from ordinary messages; with reads of any size, a round
   * has a read for each byte.  A run that cannot be continued has finished.
   */
  lemma WireHandshakeEnds(m: Matrix, full: bool, events: seq<WireEvent>)
    requires Workable(m, full) && WireRun(StartWire(m, full), events).Some?
    ensures WireMoves(events) <= Rounds(full, 5 * |Pairs(m)|) + (Round(full) - 1) * |m|
    ensures full ==> WireMoves(events) <= 15 * |Pairs(m)| + 2 * |m|
    ensures var w := WireRun(StartWire(m, full), events).value;
      (forall e: WireEvent :: e.WireOrdinary? || WireNext(w, e) == None) ==> WireFinished(w)
  {
    StartRefines(m, full);
    StartWork(m, full);
    RunWorks(m, StartWire(m, full), events);
    var es := RunRefines(m, StartWire(m, full), events);
    var w := WireRun(StartWire(m, full), events).value;
    if !Liveness.Finished(Abstract(w)) {
      var e := WireNeverStuck(m, w);
    }
  }
}
