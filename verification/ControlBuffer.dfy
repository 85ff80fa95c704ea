/** The caller's side of `net/ancillary.rs`: appending in place and iterating. */
module ControlBuffer {
  import opened Bytes
  import opened Ancillary

  const USIZE_LIMIT: int := 0x1_0000_0000_0000_0000

  // ---- The header walk ----

  lemma ZeroedLength(abi: Abi, pre: seq<byte>, space: nat)
    requires abi.Valid() && space >= abi.room
    ensures LenAt(abi, pre + Zeros(space), |pre|) == 0
  {
    assert (pre + Zeros(space))[|pre|..|pre| + abi.lenWidth] == Zeros(abi.lenWidth);
    ZeroBytesAreZero(abi.lenWidth);
  }

  /** A zeroed record behind the layout is where the walk ends, by null or by the same pointer. */
  lemma ZeroedHeaderEndsTheWalk(abi: Abi, pre: seq<byte>, space: nat)
    requires abi.Valid() && space >= abi.room
    ensures NextHeader(abi, pre + Zeros(space), |pre|) == if abi.sticky then Some(|pre|) else None
  {
    ZeroedLength(abi, pre, space);
  }

  lemma SplitLayout(abi: Abi, ms: seq<Control>, i: nat)
    requires abi.Valid() && i < |ms|
    ensures Layout(abi, ms[..i + 1]) == Layout(abi, ms[..i]) + Record(abi, ms[i])
    ensures Layout(abi, ms) == Layout(abi, ms[..i]) + Record(abi, ms[i]) + Layout(abi, ms[i + 1..])
  {
    assert ms == ms[..i + 1] + ms[i + 1..] && ms[..i + 1] == ms[..i] + [ms[i]];
    LayoutAppend(abi, ms[..i + 1], ms[i + 1..]);
    LayoutSnoc(abi, ms[..i], ms[i]);
  }

  /** What follows a laid-out message is a header the walk can step to. */
  lemma TailInvites(abi: Abi, tail: seq<Control>, space: nat)
    requires abi.Valid() && AllFit(abi, tail) && space >= abi.room
    ensures var rest := Layout(abi, tail) + Zeros(space);
      |rest| >= abi.room && Align(abi, LenAt(abi, rest, 0)) <= |rest|
  {
    var head, zeros := Layout(abi, tail), Zeros(space);
    if tail == [] {
      ZeroedLength(abi, [], space);
    } else {
      LayoutInvites(abi, tail);
      SameLength(abi, head, zeros);
    }
  }

  lemma WalkStep(abi: Abi, ms: seq<Control>, i: nat, space: nat)
    requires abi.Valid() && AllFit(abi, ms) && i < |ms| && space >= abi.room
    ensures var buf, at := Layout(abi, ms) + Zeros(space), |Layout(abi, ms[..i])|;
      && at + abi.HeaderSize() <= |buf|
      && NextHeader(abi, buf, at) == Some(|Layout(abi, ms[..i + 1])|)
      && at < |Layout(abi, ms[..i + 1])|
  {
    var pre, tail := Layout(abi, ms[..i]), ms[i + 1..];
    var rest := Layout(abi, tail) + Zeros(space);
    SplitLayout(abi, ms, i);
    TailInvites(abi, tail, space);
    NextOfRecord(abi, pre, ms[i], rest);
    Assoc(pre + Record(abi, ms[i]), Layout(abi, tail), Zeros(space));
  }

  /**
   * The loop of `add_to_ancillary_data` over CMSG_FIRSTHDR and CMSG_NXTHDR.  It ends, and on
   * the offset at which the zeroed record starts.
   */
  method LastHeader(abi: Abi, msg: seq<byte>, ghost contents: seq<Control>, ghost space: nat)
    returns (previous: Option<nat>)
    requires abi.Valid() && AllFit(abi, contents) && space >= abi.room
    requires msg == Layout(abi, contents) + Zeros(space)
    ensures previous == Some(|Layout(abi, contents)|)
  {
    var cmsg := FirstHeader(abi, msg);
    previous := cmsg;
    ghost var i := 0;
    assert contents[..0] == [] && contents[..|contents|] == contents;
    while cmsg.Some?
      invariant previous.Some? && Inside(abi, msg, cmsg)
      invariant cmsg.None? ==> previous == Some(|Layout(abi, contents)|)
      invariant cmsg.Some? ==> i <= |contents| && cmsg.value == |Layout(abi, contents[..i])|
      decreases if cmsg.Some? then |msg| + 1 - cmsg.value else 0
    {
      previous := cmsg;
      if i < |contents| {
        WalkStep(abi, contents, i, space);
      } else {
        ZeroedHeaderEndsTheWalk(abi, Layout(abi, contents), space);
      }
      cmsg := NextHeader(abi, msg, previous.value);
      if cmsg == previous {
        break;
      }
      i := i + 1;
    }
  }

  // ---- Writing a record ----

  ghost function Splice(s: seq<byte>, at: nat, bytes: seq<byte>): (r: seq<byte>)
    requires at + |bytes| <= |s|
    ensures |r| == |s|
  {
    s[..at] + bytes + s[at + |bytes|..]
  }

  lemma SpliceAfter(s: seq<byte>, at: nat, a: seq<byte>, b: seq<byte>)
    requires at + |a| + |b| <= |s|
    ensures Splice(Splice(s, at, a), at + |a|, b) == Splice(s, at, a + b)
  {
  }

  lemma SpliceBefore(s: seq<byte>, at: nat, a: seq<byte>, b: seq<byte>)
    requires at + |a| + |b| <= |s|
    ensures Splice(Splice(s, at + |a|, b), at, a) == Splice(s, at, a + b)
  {
  }

  /** memcpy into the buffer. */
  method Store(buffer: array<byte>, at: nat, bytes: seq<byte>)
    requires at + |bytes| <= buffer.Length
    modifies buffer
    ensures buffer[..] == Splice(old(buffer[..]), at, bytes)
  {
    forall i | 0 <= i < |bytes| {
      buffer[at + i] := bytes[i];
    }
  }

  /** Level, type and length, assigned through the header pointer in the source's order. */
  method WriteHeader(abi: Abi, buffer: array<byte>, at: nat, len: nat, level: i32, kind: i32)
    requires at + abi.HeaderSize() <= buffer.Length
    modifies buffer
    ensures buffer[..] == Splice(old(buffer[..]), at, HeaderBytes(abi, len, level, kind))
  {
    ghost var s := buffer[..];
    Store(buffer, at + abi.lenWidth, IntToBytes(level));
    Store(buffer, at + abi.lenWidth + 4, IntToBytes(kind));
    Store(buffer, at, ToBytes(len, abi.lenWidth));
    SpliceAfter(s, at + abi.lenWidth, IntToBytes(level), IntToBytes(kind));
    SpliceBefore(s, at, ToBytes(len, abi.lenWidth), IntToBytes(level) + IntToBytes(kind));
    Assoc(ToBytes(len, abi.lenWidth), IntToBytes(level), IntToBytes(kind));
  }

  lemma SpliceZeros(pre: seq<byte>, a: seq<byte>, gap: nat, b: seq<byte>, pad: nat, post: seq<byte>)
    ensures var s := pre + Zeros(|a| + gap + |b| + pad) + post;
      Splice(Splice(s, |pre|, a), |pre| + |a| + gap, b) == pre + (a + Zeros(gap) + b + Zeros(pad)) + post
  {
    var s := pre + Zeros(|a| + gap + |b| + pad) + post;
    assert Splice(s, |pre|, a) == pre + a + Zeros(gap + |b| + pad) + post;
  }

  /** Over zeroed bytes, header and data make a complete record. */
  lemma FilledIsRecord(abi: Abi, pre: seq<byte>, m: Control, post: seq<byte>)
    requires abi.Valid()
    ensures var s := pre + Zeros(CmsgSpace(abi, |m.data|)) + post;
      var header := HeaderBytes(abi, CmsgLen(abi, |m.data|), m.level, m.kind);
      Splice(Splice(s, |pre|, header), |pre| + DataStart(abi), m.data) == pre + Record(abi, m) + post
  {
    SpliceZeros(pre, HeaderBytes(abi, CmsgLen(abi, |m.data|), m.level, m.kind),
                DataStart(abi) - abi.HeaderSize(), m.data, Align(abi, |m.data|) - |m.data|, post);
  }

  /** The header fields and the memcpy to CMSG_DATA. */
  method FillRecord(abi: Abi, buffer: array<byte>, at: nat, source: seq<byte>, level: i32, kind: i32,
                    ghost pre: seq<byte>, ghost post: seq<byte>)
    requires abi.Valid() && at == |pre|
    requires buffer[..] == pre + Zeros(CmsgSpace(abi, |source|)) + post
    modifies buffer
    ensures buffer[..] == pre + Record(abi, Control(level, kind, source)) + post
  {
    ghost var s, header := buffer[..], HeaderBytes(abi, CmsgLen(abi, |source|), level, kind);
    assert at + CmsgSpace(abi, |source|) <= |s| == buffer.Length;
    WriteHeader(abi, buffer, at, CmsgLen(abi, |source|), level, kind);
    ghost var s1 := Splice(s, at, header);
    Store(buffer, at + DataStart(abi), source);
    assert buffer[..] == Splice(s1, at + DataStart(abi), source);
    FilledIsRecord(abi, pre, Control(level, kind, source), post);
  }

  /**
   * `add_to_ancillary_data`: zero the new tail, walk to the last header, fill it in.
   * The header found is always the one at the old length, so the source's late
   * `return false` for a null pointer cannot happen.
   */
  method AddToAncillaryData(abi: Abi, buffer: array<byte>, length: nat, source: seq<byte>,
                            level: i32, kind: i32, ghost contents: seq<Control>)
    returns (ok: bool, newLength: nat)
    requires abi.Valid() && AllFit(abi, contents)
    requires length <= buffer.Length < USIZE_LIMIT && buffer[..length] == Layout(abi, contents)
    requires |source| < 0x1_0000_0000 ==> CmsgSpace(abi, |source|) < 0x1_0000_0000
    modifies buffer
    ensures ok <==> |source| < 0x1_0000_0000 && length + CmsgSpace(abi, |source|) <= buffer.Length
    ensures ok ==> newLength == length + CmsgSpace(abi, |source|)
    ensures ok ==> buffer[..newLength] == Layout(abi, contents + [Control(level, kind, source)])
    ensures ok ==> buffer[newLength..] == old(buffer[length + CmsgSpace(abi, |source|)..])
    ensures !ok ==> newLength == length && buffer[..] == old(buffer[..])
  {
    newLength := length;
    if |source| >= 0x1_0000_0000 {
      return false, length;
    }
    var additionalSpace := CmsgSpace(abi, |source|);
    if additionalSpace + length >= USIZE_LIMIT {
      return false, length;
    }
    if additionalSpace + length > buffer.Length {
      return false, length;
    }
    ghost var m := Control(level, kind, source);
    ghost var pre, post := buffer[..length], buffer[length + additionalSpace..];
    Store(buffer, length, Zeros(additionalSpace));
    newLength := length + additionalSpace;
    ghost var zeroed := buffer[..];
    assert zeroed == pre + Zeros(additionalSpace) + post;
    assert buffer[..newLength] == pre + Zeros(additionalSpace);
    var previous := LastHeader(abi, buffer[..newLength], contents, additionalSpace);
    FillRecord(abi, buffer, previous.value, source, level, kind, pre, post);
    LayoutSnoc(abi, contents, m);
    assert buffer[..] == pre + Record(abi, m) + post;
    ok := true;
  }

  /** `SocketAncillary`; `contents` is what has been appended since creation or `clear`. */
  class SocketAncillary {
    const abi: Abi
    const buffer: array<byte>
    var length: nat
    var truncated: bool
    ghost var contents: seq<Control>

    ghost predicate Valid()
      reads this, buffer
    {
      && abi.Valid() && AllFit(abi, contents)
      && length <= buffer.Length < USIZE_LIMIT
      && buffer[..length] == Layout(abi, contents)
    }

    constructor (abi: Abi, buffer: array<byte>)
      requires abi.Valid() && buffer.Length < USIZE_LIMIT
      ensures Valid() && this.abi == abi && this.buffer == buffer
      ensures contents == [] && length == 0 && !truncated
    {
      this.abi, this.buffer := abi, buffer;
      length, truncated, contents := 0, false, [];
    }

    method Add(source: seq<byte>, level: i32, kind: i32) returns (ok: bool)
      requires Valid()
      requires |source| < 0x1_0000_0000 ==> CmsgSpace(abi, |source|) < 0x1_0000_0000
      modifies this, buffer
      ensures Valid() && !truncated
      ensures ok <==> |source| < 0x1_0000_0000 && old(length) + CmsgSpace(abi, |source|) <= buffer.Length
      ensures contents == if ok then old(contents) + [Control(level, kind, source)] else old(contents)
      ensures !ok ==> length == old(length) && buffer[..] == old(buffer[..])
      ensures ok ==> buffer[..old(length)] == old(buffer[..length])
    {
      truncated := false;
      ok, length := AddToAncillaryData(abi, buffer, length, source, level, kind, contents);
      if ok {
        LayoutSnoc(abi, contents, Control(level, kind, source));
        contents := contents + [Control(level, kind, source)];
        assert buffer[..old(length)] == buffer[..length][..old(length)];
      }
    }

    method AddFds(fds: seq<i32>) returns (ok: bool)
      requires Valid() && 4 * |fds| < 0x1_0000_0000 ==> CmsgSpace(abi, 4 * |fds|) < 0x1_0000_0000
      requires Valid()
      modifies this, buffer
      ensures Valid() && !truncated
      ensures ok <==> 4 * |fds| < 0x1_0000_0000 && old(length) + CmsgSpace(abi, 4 * |fds|) <= buffer.Length
      ensures contents == if ok then old(contents) + [RightsOf(fds)] else old(contents)
      ensures !ok ==> length == old(length) && buffer[..] == old(buffer[..])
    {
      FdsRoundTrip(fds);
      ok := Add(FdBytes(fds), SOL_SOCKET, SCM_RIGHTS);
    }

    method AddCreds(creds: seq<Cred>) returns (ok: bool)
      requires Valid() && 12 * |creds| < 0x1_0000_0000 ==> CmsgSpace(abi, 12 * |creds|) < 0x1_0000_0000
      requires Valid()
      modifies this, buffer
      ensures Valid() && !truncated
      ensures ok <==> 12 * |creds| < 0x1_0000_0000 && old(length) + CmsgSpace(abi, 12 * |creds|) <= buffer.Length
      ensures contents == if ok then old(contents) + [CredentialsOf(creds)] else old(contents)
      ensures !ok ==> length == old(length) && buffer[..] == old(buffer[..])
    {
      CredsRoundTrip(creds);
      ok := Add(CredBytes(creds), SOL_SOCKET, SCM_CREDENTIALS);
    }

    method Clear()
      requires Valid()
      modifies this
      ensures Valid() && contents == [] && length == 0 && !truncated
    {
      length, truncated, contents := 0, false, [];
    }

    /** `messages()`: it will yield exactly what was added, in order. */
    method GetMessages() returns (it: Messages)
      requires Valid()
      ensures fresh(it) && it.Valid() && it.abi == abi && it.buffer == buffer[..length]
      ensures it.remaining == ItemsOf(contents)
      ensures WellFormed(abi, it.buffer)
    {
      it := new Messages(abi, buffer[..length]);
      RoundTrip(abi, contents);
    }
  }

  ghost function RightsOf(fds: seq<i32>): Control {
    Control(SOL_SOCKET, SCM_RIGHTS, FdBytes(fds))
  }

  ghost function CredentialsOf(creds: seq<Cred>): Control {
    Control(SOL_SOCKET, SCM_CREDENTIALS, CredBytes(creds))
  }

  /** Adding and parsing back recovers the typed units. */
  lemma TypedRoundTrip(fds: seq<i32>, creds: seq<Cred>)
    ensures ItemOf(RightsOf(fds)).Rights? && FdsOf(ItemOf(RightsOf(fds)).data) == fds
    ensures ItemOf(CredentialsOf(creds)).Credentials? && CredsOf(ItemOf(CredentialsOf(creds)).data) == creds
  {
    FdsRoundTrip(fds);
    CredsRoundTrip(creds);
  }

  // ---- One descriptor to a message, as the library sends them ----

  ghost predicate IsOneFd(m: Control) {
    exists fd :: m == RightsOf([fd])
  }

  ghost predicate OneFdEach(ms: seq<Control>) {
    forall i :: 0 <= i < |ms| ==> IsOneFd(ms[i])
  }

  /** On 64-bit Linux, a short message whose data fills its padding but four bytes. */
  lemma ShortRecord(m: Control)
    requires m.level == 1 && 0 <= m.kind < 0x100 && |m.data| < 0xf0 && |m.data| % 8 == 4
    ensures Record(LINUX, m)
         == [16 + |m.data|, 0, 0, 0, 0, 0, 0, 0, 1, 0, 0, 0, m.kind, 0, 0, 0] + m.data + [0, 0, 0, 0]
  {
    var n := |m.data|;
    LinuxSpace(n);
    AlignRoundsUp(LINUX, n);
    SmallInEightBytes(16 + n);
    SmallInFourBytes(1);
    SmallInFourBytes(m.kind);
    var header := HeaderBytes(LINUX, 16 + n, 1, m.kind);
    assert header == [16 + n, 0, 0, 0, 0, 0, 0, 0, 1, 0, 0, 0, m.kind, 0, 0, 0];
    assert Zeros(0) == [] && Zeros(4) == [0, 0, 0, 0];
    assert header + [] == header;
  }

  /** Level SOL_SOCKET, type SCM_RIGHTS, one descriptor. */
  lemma OneFdRecord(fd: i32)
    ensures Record(LINUX, RightsOf([fd]))
         == [20, 0, 0, 0, 0, 0, 0, 0, 1, 0, 0, 0, 1, 0, 0, 0] + IntToBytes(fd) + [0, 0, 0, 0]
  {
    FdsRoundTrip([fd]);
    assert FdBytes([fd]) == IntToBytes(fd) by {
      assert [fd][1..] == [];
    }
    ShortRecord(RightsOf([fd]));
  }

  /** Level SOL_SOCKET, type SCM_CREDENTIALS, one pid, uid and gid. */
  lemma OneCredRecord(c: Cred)
    ensures Record(LINUX, CredentialsOf([c]))
         == [28, 0, 0, 0, 0, 0, 0, 0, 1, 0, 0, 0, 2, 0, 0, 0]
            + (IntToBytes(c.pid) + ToBytes(c.uid, 4) + ToBytes(c.gid, 4)) + [0, 0, 0, 0]
  {
    CredsRoundTrip([c]);
    assert CredBytes([c]) == CredToBytes(c) by {
      assert [c][1..] == [];
    }
    ShortRecord(CredentialsOf([c]));
  }

  lemma SmallInEightBytes(n: byte)
    ensures ToBytes(n, 8) == [n, 0, 0, 0, 0, 0, 0, 0]
  {
    assert ToBytes(0, 1) == [0];
    assert ToBytes(0, 3) == [0, 0, 0];
    assert ToBytes(0, 5) == [0, 0, 0, 0, 0];
    assert ToBytes(0, 7) == [0, 0, 0, 0, 0, 0, 0];
  }

  lemma SmallInFourBytes(n: byte)
    ensures IntToBytes(n) == [n, 0, 0, 0]
  {
    assert ToBytes(0, 1) == [0];
    assert ToBytes(0, 3) == [0, 0, 0];
  }

  lemma OneFdSize(m: Control)
    requires IsOneFd(m)
    ensures |Record(LINUX, m)| == 24 && Fits(LINUX, m)
  {
    var fd :| m == RightsOf([fd]);
    OneFdRecord(fd);
  }

  lemma {:induction false} OneFdLayout(ms: seq<Control>)
    requires OneFdEach(ms)
    ensures |Layout(LINUX, ms)| == 24 * |ms|
  {
    if ms != [] {
      OneFdSize(ms[0]);
      OneFdLayout(ms[1..]);
    }
  }

  lemma OneFdFits(ms: seq<Control>)
    requires OneFdEach(ms)
    ensures AllFit(LINUX, ms)
  {
    forall i | 0 <= i < |ms| ensures Fits(LINUX, ms[i]) {
      OneFdSize(ms[i]);
    }
  }

  /** They lie 24 bytes apart, where the kernel looks for them, and five fit into 128 bytes. */
  lemma OneFdOffsets(ms: seq<Control>, i: nat)
    requires OneFdEach(ms) && i < |ms|
    ensures |Headers(LINUX, Layout(LINUX, ms))| == |ms| && Headers(LINUX, Layout(LINUX, ms))[i] == 24 * i
    ensures |Layout(LINUX, ms)| <= 128 <==> |ms| <= 5
  {
    OneFdLayout(ms);
    OneFdLayout(ms[..i]);
    OneFdFits(ms);
    HeadersOfLayout(LINUX, ms, i);
  }

  // ---- Iterators ----

  /** `Messages` */
  class Messages {
    const abi: Abi
    const buffer: seq<byte>
    var current: Option<nat>
    ghost var remaining: seq<Item>  // what the iterator has still to yield

    ghost predicate Valid()
      reads this
    {
      && abi.Valid() && Inside(abi, buffer, current)
      && remaining == ItemsFrom(abi, buffer, if current.Some? then After(abi, buffer, current.value)
                                             else FirstHeader(abi, buffer))
    }

    constructor (abi: Abi, buffer: seq<byte>)
      requires abi.Valid()
      ensures Valid() && this.abi == abi && this.buffer == buffer && current == None
      ensures remaining == Items(abi, buffer)
    {
      this.abi, this.buffer, current := abi, buffer, None;
      remaining := Items(abi, buffer);
    }

    method Next() returns (item: Option<Item>)
      requires Valid()
      modifies this
      ensures Valid()
      ensures old(remaining) == [] ==> item == None && remaining == []
      ensures old(remaining) != [] ==> item == Some(old(remaining)[0]) && remaining == old(remaining)[1..]
    {
      var cmsg := if current.Some? then NextHeader(abi, buffer, current.value) else FirstHeader(abi, buffer);
      if cmsg.None? {
        return None;
      }
      if current == cmsg {
        return None;
      }
      current := cmsg;
      item := Some(ItemAt(abi, buffer, cmsg.value));
      remaining := remaining[1..];
    }
  }

  /** `AncillaryDataIter<T>`: `read` is the unaligned read of a T from its `size` bytes. */
  class DataIter<T> {
    const size: nat
    const read: seq<byte> --> T
    var data: seq<byte>

    ghost predicate Valid()
      reads this
    {
      forall b: seq<byte> :: |b| == size ==> read.requires(b)
    }

    constructor (size: nat, read: seq<byte> --> T, data: seq<byte>)
      requires forall b: seq<byte> :: |b| == size ==> read.requires(b)
      ensures Valid() && this.size == size && this.read == read && this.data == data
    {
      this.size, this.read, this.data := size, read, data;
    }

    method Next() returns (unit: Option<T>)
      requires Valid()
      modifies this
      ensures Valid()
      ensures size <= |old(data)| ==> unit == Some(read(old(data)[..size])) && data == old(data)[size..]
      ensures size > |old(data)| ==> unit == None && data == old(data)
    {
      if size <= |data| {
        unit := Some(read(data[..size]));
        data := data[size..];
      } else {
        unit := None;
      }
    }
  }

  /** The descriptors of all SCM_RIGHTS messages in a run of items. */
  function AllRights(items: seq<Item>): seq<i32> {
    if items == [] then []
    else (if items[0].Rights? then FdsOf(items[0].data) else []) + AllRights(items[1..])
  }

  lemma {:induction false} AllRightsAppend(a: seq<Item>, b: seq<Item>)
    ensures AllRights(a + b) == AllRights(a) + AllRights(b)
  {
    if a == [] {
      EmptyLeft(b);
      EmptyLeft(AllRights(b));
    } else {
      AllRightsAppend(a[1..], b);
      HeadTail(a, b);
      Assoc(if a[0].Rights? then FdsOf(a[0].data) else [], AllRights(a[1..]), AllRights(b));
    }
  }

  /** A call of `add_fds` or `add_creds`. */
  datatype Addition = Fds(fds: seq<i32>) | Creds(creds: seq<Cred>)

  ghost function MessagesOf(additions: seq<Addition>): (ms: seq<Control>)
    ensures |ms| == |additions|
  {
    seq(|additions|, i requires 0 <= i < |additions| =>
      if additions[i].Fds? then RightsOf(additions[i].fds) else CredentialsOf(additions[i].creds))
  }

  ghost function FdLists(additions: seq<Addition>): (lists: seq<seq<i32>>)
    ensures |lists| == |additions|
  {
    seq(|additions|, i requires 0 <= i < |additions| => if additions[i].Fds? then additions[i].fds else [])
  }

  /** The receiver gets the descriptors of all additions, in order; credentials contribute none. */
  lemma {:induction false} AllAddedRights(additions: seq<Addition>)
    ensures AllRights(ItemsOf(MessagesOf(additions))) == Flatten(FdLists(additions))
  {
    if additions != [] {
      var tail := additions[1..];
      AllAddedRights(tail);
      assert MessagesOf(additions)[1..] == MessagesOf(tail) && FdLists(additions)[1..] == FdLists(tail);
      if additions[0].Fds? {
        TypedRoundTrip(additions[0].fds, []);
      }
      var item := ItemOf(MessagesOf(additions)[0]);
      AllRightsAppend([item], ItemsOf(MessagesOf(tail)));
      OneItem(item);
    }
  }

  lemma OneItem(item: Item)
    ensures AllRights([item]) == if item.Rights? then FdsOf(item.data) else []
  {
    assert [item][1..] == [];
  }

  /** The descriptors of one SCM_RIGHTS message, unit by unit. */
  method CollectUnits(data: seq<byte>) returns (fds: seq<i32>)
    ensures fds == FdsOf(data)
  {
    var it := new DataIter(4, IntFromBytes, data);
    fds := [];
    while true
      invariant it.Valid() && it.size == 4 && it.read == IntFromBytes && fresh(it)
      invariant fds + FdsOf(it.data) == FdsOf(data)
      decreases |it.data|
    {
      ghost var rest := it.data;
      var unit := it.Next();
      if unit.None? {
        break;
      }
      assert FdsOf(rest) == [unit.value] + FdsOf(it.data);
      Assoc(fds, [unit.value], FdsOf(it.data));
      fds := fds + [unit.value];
    }
  }

  /** `messages().flatten()` narrowed to SCM_RIGHTS, as the receiver consumes it. */
  method CollectRights(it: Messages) returns (fds: seq<i32>)
    requires it.Valid()
    modifies it
    ensures fds == AllRights(old(it.remaining))
  {
    ghost var all := it.remaining;
    fds := [];
    while true
      invariant it.Valid()
      invariant fds + AllRights(it.remaining) == AllRights(all)
      decreases |it.remaining|
    {
      ghost var rest := it.remaining;
      var item := it.Next();
      if item.None? {
        break;
      }
      if item.value.Rights? {
        var units := CollectUnits(item.value.data);
        assert AllRights(rest) == units + AllRights(rest[1..]);
        Assoc(fds, units, AllRights(rest[1..]));
        fds := fds + units;
      } else {
        assert AllRights(rest) == AllRights(rest[1..]);
      }
    }
  }
}
