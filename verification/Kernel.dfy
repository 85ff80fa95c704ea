/**
 * The kernel side of one direction of a Unix stream socket: a queue of segments, one per
 * `sendmsg`, each with the descriptors that travel with its first byte.  Descriptors are a
 * barrier (unix(7)): a read may join segments without descriptors in front of one that has
 * them, but it stops at the end of the segment whose descriptors it delivers.
 */
module Kernel {
  import opened Bytes

  datatype Segment<F> = Segment(bytes: seq<byte>, fds: seq<F>)

  datatype Read<F> = Read(bytes: seq<byte>, fds: seq<F>, rest: seq<Segment<F>>)

  predicate Live<F(==)>(queue: seq<Segment<F>>) {
    forall i :: 0 <= i < |queue| ==> queue[i].bytes != []
  }

  function Data<F>(queue: seq<Segment<F>>): seq<byte> {
    if queue == [] then [] else queue[0].bytes + Data(queue[1..])
  }

  function Fds<F>(queue: seq<Segment<F>>): seq<F> {
    if queue == [] then [] else queue[0].fds + Fds(queue[1..])
  }

  /** How many bytes a single read can cover before a barrier or the end of the queue. */
  function Reach<F>(queue: seq<Segment<F>>): (n: nat) {
    if queue == [] then 0
    else |queue[0].bytes| + if queue[0].fds != [] then 0 else Reach(queue[1..])
  }

  /** A read that returns n bytes. */
  function Take<F>(queue: seq<Segment<F>>, n: nat): (r: Read<F>)
    requires Live(queue) && 0 < n <= Reach(queue)
    ensures |r.bytes| == n
  {
    var head := queue[0];
    if n < |head.bytes| then
      Read(head.bytes[..n], head.fds, [Segment(head.bytes[n..], [])] + queue[1..])
    else if n == |head.bytes| then
      Read(head.bytes, head.fds, queue[1..])
    else
      var more := Take(queue[1..], n - |head.bytes|);
      Read(head.bytes + more.bytes, more.fds, more.rest)
  }

  /** A read loses, invents and reorders nothing. */
  lemma {:induction false} TakeConserves<F>(queue: seq<Segment<F>>, n: nat)
    requires Live(queue) && 0 < n <= Reach(queue)
    ensures Live(Take(queue, n).rest)
    ensures Take(queue, n).bytes + Data(Take(queue, n).rest) == Data(queue)
    ensures Take(queue, n).fds + Fds(Take(queue, n).rest) == Fds(queue)
  {
    var head, tail := queue[0], queue[1..];
    if n < |head.bytes| {
      assert Take(queue, n).rest[1..] == tail;
      assert head.bytes == head.bytes[..n] + head.bytes[n..];
      Assoc(head.bytes[..n], head.bytes[n..], Data(tail));
    } else if n > |head.bytes| {
      TakeConserves(tail, n - |head.bytes|);
      var more := Take(tail, n - |head.bytes|);
      Assoc(head.bytes, more.bytes, Data(more.rest));
    }
  }

  /** The kernel fills the caller's buffer as far as the barrier rule lets it. */
  function Fill<F>(queue: seq<Segment<F>>, limit: nat): (n: nat)
    ensures n <= limit && n <= Reach(queue)
    ensures n == limit || n == Reach(queue)
  {
    if Reach(queue) <= limit then Reach(queue) else limit
  }

  lemma {:induction false} DataAppend<F>(a: seq<Segment<F>>, b: seq<Segment<F>>)
    ensures Data(a + b) == Data(a) + Data(b)
  {
    if a == [] {
      EmptyLeft(b);
      EmptyLeft(Data(b));
    } else {
      DataAppend(a[1..], b);
      HeadTail(a, b);
      Assoc(a[0].bytes, Data(a[1..]), Data(b));
    }
  }

  lemma {:induction false} FdsAppend<F>(a: seq<Segment<F>>, b: seq<Segment<F>>)
    ensures Fds(a + b) == Fds(a) + Fds(b)
  {
    if a == [] {
      EmptyLeft(b);
      EmptyLeft(Fds(b));
    } else {
      FdsAppend(a[1..], b);
      HeadTail(a, b);
      Assoc(a[0].fds, Fds(a[1..]), Fds(b));
    }
  }

  lemma {:induction false} LiveReach<F>(queue: seq<Segment<F>>)
    requires Live(queue) && queue != []
    ensures Reach(queue) > 0
  {
    assert queue[0].bytes != [];
  }

  /** A read that goes from the second byte of one segment to the first of the next. */
  lemma TakeAcross<F>(x: Segment<F>, y: Segment<F>)
    requires |x.bytes| >= 2 && |y.bytes| >= 2
    ensures var queue := [Segment(x.bytes[1..], []), y];
      && |x.bytes| <= Reach(queue)
      && Take(queue, |x.bytes|) == Read(x.bytes[1..] + y.bytes[..1], y.fds, [Segment(y.bytes[1..], [])])
    ensures x.bytes[..1] + (x.bytes[1..] + y.bytes[..1]) == x.bytes + y.bytes[..1]
  {
    var rest: Segment<F> := Segment(x.bytes[1..], []);
    assert [rest, y][1..] == [y] && [y][1..] == [];
    assert Take([y], 1) == Read(y.bytes[..1], y.fds, [Segment(y.bytes[1..], [])]);
    assert x.bytes == x.bytes[..1] + x.bytes[1..];
    Assoc(x.bytes[..1], x.bytes[1..], y.bytes[..1]);
  }

  /** Segments only disappear from the front; a split one keeps its tail but not its descriptors. */
  ghost predicate Remains<F>(rest: seq<Segment<F>>, queue: seq<Segment<F>>, gone: nat) {
    gone + |rest| == |queue| &&
    (rest == queue[gone..] ||
     (rest != [] && rest[0].fds == [] && rest[0].bytes != [] && rest[1..] == queue[gone + 1..]))
  }

  /** What a read hands over comes from exactly one segment, the last one it touched. */
  lemma {:induction false} TakeShape<F>(queue: seq<Segment<F>>, n: nat) returns (last: nat)
    requires Live(queue) && 0 < n <= Reach(queue)
    ensures last < |queue|
    ensures Take(queue, n).fds == queue[last].fds
    ensures Remains(Take(queue, n).rest, queue, last) || Take(queue, n).rest == queue[last + 1..]
  {
    var head := queue[0];
    if n <= |head.bytes| {
      last := 0;
      assert n == |head.bytes| || Take(queue, n).rest[1..] == queue[1..];
    } else {
      var inner := TakeShape(queue[1..], n - |head.bytes|);
      last := inner + 1;
      var rest := Take(queue, n).rest;
      assert queue[1..][inner + 1..] == queue[last + 1..];
      assert queue[1..][inner..] == queue[last..];
    }
  }
}
