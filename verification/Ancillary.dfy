/**
 * Control messages (`net/ancillary.rs`): the in-place append into a control buffer, the
 * iterator that parses the same bytes, and the CMSG macros of section 20.3 of RFC 3542
 * that both are written with.  Offsets stand for pointers into the buffer.
 */
module Ancillary {
  import opened Bytes

  const SOL_SOCKET: i32 := 1
  const SCM_RIGHTS: i32 := 1
  const SCM_CREDENTIALS: i32 := 2

  /**
   * What differs between platforms: the width of `cmsg_len`, the alignment, the room
   * CMSG_NXTHDR wants for another header, whether it also checks that the next message
   * fits, and whether it returns the same pointer (`sticky`) or null on a zero length.
   */
  datatype Abi = Abi(lenWidth: nat, align: nat, room: nat, peeks: bool, sticky: bool) {
    function HeaderSize(): (n: nat) { lenWidth + 8 }

    ghost predicate Valid() {
      4 <= lenWidth && 1 <= align && HeaderSize() <= room <= Align(this, HeaderSize())
    }
  }

  /** 64-bit Linux with the GNU C library. */
  const LINUX := Abi(8, 8, 16, true, false)

  // ---- Alignment ----

  /** CMSG_ALIGN, by steps of the alignment. */
  function Align(abi: Abi, n: nat): (r: nat)
    requires abi.align >= 1
    ensures n <= r < n + abi.align
  {
    if n == 0 then 0
    else if n <= abi.align then abi.align
    else abi.align + Align(abi, n - abi.align)
  }

  lemma DivModOf(a: nat, q: nat, r: nat)
    requires r < a
    ensures (q * a + r) % a == r
  {
    var x := q * a + r;
    var d, m := x / a, x % a;
    assert a * (d - q) == r - m;
    if d > q {
      AtLeastOnce(a, d - q);
    } else if d < q {
      AtLeastOnce(a, q - d);
    }
  }

  lemma AtLeastOnce(a: nat, k: nat)
    requires k >= 1
    ensures a * k >= a
  {
    assert a * k == a * (k - 1) + a;
  }

  lemma ModStep(a: nat, n: nat)
    requires 1 <= a <= n
    ensures (n - a) % a == n % a
  {
    var q, r := n / a, n % a;
    assert (q - 1) * a + r == n - a;
    if q >= 1 {
      DivModOf(a, q - 1, r);
    }
  }

  /** It rounds up to a multiple of the alignment. */
  lemma {:induction false} AlignRoundsUp(abi: Abi, n: nat)
    requires abi.align >= 1
    ensures Align(abi, n) == if n % abi.align == 0 then n else n + abi.align - n % abi.align
    decreases n
  {
    if n >= abi.align {
      ModStep(abi.align, n);
      AlignRoundsUp(abi, n - abi.align);
    } else {
      DivModOf(abi.align, 0, n);
    }
  }

  lemma {:induction false} AlignAfter(abi: Abi, x: nat, n: nat)
    requires abi.align >= 1 && Align(abi, x) == x
    ensures Align(abi, x + n) == x + Align(abi, n)
    decreases x
  {
    if x > abi.align {
      AlignAfter(abi, x - abi.align, n);
    }
  }

  lemma {:induction false} AlignIsAligned(abi: Abi, n: nat)
    requires abi.align >= 1
    ensures Align(abi, Align(abi, n)) == Align(abi, n)
    decreases n
  {
    if n > abi.align {
      AlignIsAligned(abi, n - abi.align);
    }
  }

  // ---- CMSG macros ----

  function DataStart(abi: Abi): (n: nat)
    requires abi.Valid()
    ensures n >= abi.HeaderSize()
  {
    Align(abi, abi.HeaderSize())
  }

  /** CMSG_LEN */
  function CmsgLen(abi: Abi, n: nat): (r: nat)
    requires abi.Valid()
  {
    DataStart(abi) + n
  }

  /** CMSG_SPACE */
  function CmsgSpace(abi: Abi, n: nat): (r: nat)
    requires abi.Valid()
    ensures r >= CmsgLen(abi, n)
  {
    DataStart(abi) + Align(abi, n)
  }

  /** The identity the header walk depends on. */
  lemma AlignedLenIsSpace(abi: Abi, n: nat)
    requires abi.Valid()
    ensures Align(abi, CmsgLen(abi, n)) == CmsgSpace(abi, n)
    ensures Align(abi, CmsgSpace(abi, n)) == CmsgSpace(abi, n)
  {
    AlignIsAligned(abi, abi.HeaderSize());
    AlignAfter(abi, DataStart(abi), n);
    AlignIsAligned(abi, CmsgLen(abi, n));
  }

  /** On 64-bit Linux the data follows sixteen bytes of header, and messages are padded to eight. */
  lemma LinuxSpace(n: nat)
    ensures DataStart(LINUX) == 16 && CmsgLen(LINUX, n) == 16 + n
    ensures var space := CmsgSpace(LINUX, n); space % 8 == 0 && 16 + n <= space < 24 + n
  {
    LinuxAlign(n);
    LinuxAlign(16);
  }

  function LenAt(abi: Abi, buf: seq<byte>, at: nat): nat
    requires abi.Valid() && at + abi.HeaderSize() <= |buf|
  {
    FromBytes(buf[at..at + abi.lenWidth])
  }

  function LevelAt(abi: Abi, buf: seq<byte>, at: nat): i32
    requires abi.Valid() && at + abi.HeaderSize() <= |buf|
  {
    IntFromBytes(buf[at + abi.lenWidth..at + abi.lenWidth + 4])
  }

  function KindAt(abi: Abi, buf: seq<byte>, at: nat): i32
    requires abi.Valid() && at + abi.HeaderSize() <= |buf|
  {
    IntFromBytes(buf[at + abi.lenWidth + 4..at + abi.lenWidth + 8])
  }

  /** CMSG_FIRSTHDR */
  function FirstHeader(abi: Abi, buf: seq<byte>): (r: Option<nat>)
    ensures r.Some? ==> r.value + abi.HeaderSize() <= |buf|
  {
    if abi.HeaderSize() <= |buf| then Some(0) else None
  }

  /** CMSG_NXTHDR */
  function NextHeader(abi: Abi, buf: seq<byte>, at: nat): (r: Option<nat>)
    requires abi.Valid() && at + abi.HeaderSize() <= |buf|
    ensures r.Some? ==> at <= r.value && r.value + abi.HeaderSize() <= |buf|
  {
    var len := LenAt(abi, buf, at);
    var next := at + Align(abi, len);
    if !abi.sticky && len < abi.HeaderSize() then None
    else if next + abi.room > |buf| then None
    else if abi.peeks && next + Align(abi, LenAt(abi, buf, next)) > |buf| then None
    else Some(next)
  }

  // ---- The layout of well-formed buffers ----

  datatype Control = Control(level: i32, kind: i32, data: seq<byte>)

  /** The length fits the 32-bit argument and result of CMSG_SPACE. */
  ghost predicate Fits(abi: Abi, m: Control)
    requires abi.Valid()
  {
    CmsgSpace(abi, |m.data|) < 0x1_0000_0000
  }

  ghost predicate AllFit(abi: Abi, ms: seq<Control>)
    requires abi.Valid()
  {
    forall i :: 0 <= i < |ms| ==> Fits(abi, ms[i])
  }

  /** `struct cmsghdr` */
  function HeaderBytes(abi: Abi, len: nat, level: i32, kind: i32): (h: seq<byte>)
    ensures |h| == abi.HeaderSize()
  {
    ToBytes(len, abi.lenWidth) + IntToBytes(level) + IntToBytes(kind)
  }

  /** One message: header, padding, data, padding. */
  ghost function Record(abi: Abi, m: Control): (r: seq<byte>)
    requires abi.Valid()
    ensures |r| == CmsgSpace(abi, |m.data|)
  {
    HeaderBytes(abi, CmsgLen(abi, |m.data|), m.level, m.kind)
    + Zeros(DataStart(abi) - abi.HeaderSize())
    + m.data + Zeros(Align(abi, |m.data|) - |m.data|)
  }

  ghost function Layout(abi: Abi, ms: seq<Control>): seq<byte>
    requires abi.Valid()
  {
    if ms == [] then [] else Record(abi, ms[0]) + Layout(abi, ms[1..])
  }

  lemma {:induction false} LayoutAppend(abi: Abi, a: seq<Control>, b: seq<Control>)
    requires abi.Valid()
    ensures Layout(abi, a + b) == Layout(abi, a) + Layout(abi, b)
  {
    if a == [] {
      EmptyLeft(b);
      EmptyLeft(Layout(abi, b));
    } else {
      LayoutAppend(abi, a[1..], b);
      HeadTail(a, b);
      Assoc(Record(abi, a[0]), Layout(abi, a[1..]), Layout(abi, b));
    }
  }

  lemma LayoutOne(abi: Abi, m: Control)
    requires abi.Valid()
    ensures Layout(abi, [m]) == Record(abi, m)
  {
    assert [m][1..] == [];
  }

  lemma LayoutSnoc(abi: Abi, ms: seq<Control>, m: Control)
    requires abi.Valid()
    ensures Layout(abi, ms + [m]) == Layout(abi, ms) + Record(abi, m)
  {
    LayoutAppend(abi, ms, [m]);
    LayoutOne(abi, m);
  }

  /** The header fields and the data of a record, read back from a buffer around it. */
  lemma FieldsOfRecord(abi: Abi, pre: seq<byte>, m: Control, post: seq<byte>)
    requires abi.Valid() && Fits(abi, m)
    ensures var buf := pre + Record(abi, m) + post;
      && LenAt(abi, buf, |pre|) == CmsgLen(abi, |m.data|)
      && LevelAt(abi, buf, |pre|) == m.level
      && KindAt(abi, buf, |pre|) == m.kind
      && buf[|pre| + DataStart(abi)..|pre| + CmsgLen(abi, |m.data|)] == m.data
  {
    var buf := pre + Record(abi, m) + post;
    var at, w := |pre|, abi.lenWidth;
    var len := CmsgLen(abi, |m.data|);
    assert buf[at..at + w] == ToBytes(len, w);
    assert buf[at + w..at + w + 4] == IntToBytes(m.level);
    assert buf[at + w + 4..at + w + 8] == IntToBytes(m.kind);
    assert buf[at + DataStart(abi)..at + len] == m.data;
    Widths();
    WiderHoldsMore(4, w);
    FromToBytes(len, w);
    IntRoundTrip(m.level);
    IntRoundTrip(m.kind);
  }

  /** CMSG_NXTHDR steps from a record to whatever lies behind it. */
  lemma NextOfRecord(abi: Abi, pre: seq<byte>, m: Control, rest: seq<byte>)
    requires abi.Valid() && Fits(abi, m)
    ensures var buf := pre + Record(abi, m) + rest;
      && (rest == [] ==> NextHeader(abi, buf, |pre|) == None)
      && (abi.room <= |rest| && (abi.peeks ==> Align(abi, LenAt(abi, rest, 0)) <= |rest|) ==>
            NextHeader(abi, buf, |pre|) == Some(|pre| + |Record(abi, m)|))
  {
    FieldsOfRecord(abi, pre, m, rest);
    AlignedLenIsSpace(abi, |m.data|);
    var buf := pre + Record(abi, m) + rest;
    var next := |pre| + |Record(abi, m)|;
    if abi.room <= |rest| {
      assert buf[next..next + abi.lenWidth] == rest[0..0 + abi.lenWidth];
    }
  }

  lemma SameLength(abi: Abi, a: seq<byte>, b: seq<byte>)
    requires abi.Valid() && |a| >= abi.HeaderSize()
    ensures LenAt(abi, a + b, 0) == LenAt(abi, a, 0)
  {
    assert (a + b)[0..0 + abi.lenWidth] == a[0..0 + abi.lenWidth];
  }

  /** A non-empty layout starts with a header that CMSG_NXTHDR accepts. */
  lemma LayoutInvites(abi: Abi, ms: seq<Control>)
    requires abi.Valid() && AllFit(abi, ms) && ms != []
    ensures abi.room <= |Layout(abi, ms)|
    ensures Align(abi, LenAt(abi, Layout(abi, ms), 0)) <= |Layout(abi, ms)|
  {
    var m, rest := ms[0], Layout(abi, ms[1..]);
    assert [] + Record(abi, m) + [] == Record(abi, m);
    FieldsOfRecord(abi, [], m, []);
    SameLength(abi, Record(abi, m), rest);
    AlignedLenIsSpace(abi, |m.data|);
  }

  // ---- Parsing any buffer ----

  datatype Cred = Cred(pid: i32, uid: u32, gid: u32)

  /**
   * A parsed message hands out its data, to be read unit by unit.  OutOfBounds stands for a data
   * slice that would leave the buffer.
   */
  datatype Item =
    | Rights(data: seq<byte>)
    | Credentials(data: seq<byte>)
    | Unknown(level: i32, kind: i32)
    | OutOfBounds

  function FdBytes(fds: seq<i32>): seq<byte> {
    if fds == [] then [] else IntToBytes(fds[0]) + FdBytes(fds[1..])
  }

  function FdsOf(data: seq<byte>): seq<i32> {
    if |data| < 4 then [] else [IntFromBytes(data[..4])] + FdsOf(data[4..])
  }

  function CredToBytes(c: Cred): (b: seq<byte>)
    ensures |b| == 12
  {
    IntToBytes(c.pid) + ToBytes(c.uid, 4) + ToBytes(c.gid, 4)
  }

  function CredFromBytes(b: seq<byte>): Cred
    requires |b| == 12
  {
    Widths();
    ToFromBytes(b[4..8]);
    ToFromBytes(b[8..]);
    Cred(IntFromBytes(b[..4]), FromBytes(b[4..8]), FromBytes(b[8..]))
  }

  function CredBytes(creds: seq<Cred>): seq<byte> {
    if creds == [] then [] else CredToBytes(creds[0]) + CredBytes(creds[1..])
  }

  function CredsOf(data: seq<byte>): seq<Cred> {
    if |data| < 12 then [] else [CredFromBytes(data[..12])] + CredsOf(data[12..])
  }

  lemma {:induction false} FdsRoundTrip(fds: seq<i32>)
    ensures |FdBytes(fds)| == 4 * |fds|
    ensures FdsOf(FdBytes(fds)) == fds
  {
    if fds != [] {
      var b := FdBytes(fds);
      assert b[..4] == IntToBytes(fds[0]) && b[4..] == FdBytes(fds[1..]);
      IntRoundTrip(fds[0]);
      FdsRoundTrip(fds[1..]);
    }
  }

  lemma CredRoundTrip(c: Cred)
    ensures CredFromBytes(CredToBytes(c)) == c
  {
    var b := CredToBytes(c);
    assert b[..4] == IntToBytes(c.pid) && b[4..8] == ToBytes(c.uid, 4) && b[8..] == ToBytes(c.gid, 4);
    Widths();
    IntRoundTrip(c.pid);
    FromToBytes(c.uid, 4);
    FromToBytes(c.gid, 4);
  }

  lemma {:induction false} CredsRoundTrip(creds: seq<Cred>)
    ensures |CredBytes(creds)| == 12 * |creds|
    ensures CredsOf(CredBytes(creds)) == creds
  {
    if creds != [] {
      var b := CredBytes(creds);
      assert b[..12] == CredToBytes(creds[0]) && b[12..] == CredBytes(creds[1..]);
      CredRoundTrip(creds[0]);
      CredsRoundTrip(creds[1..]);
    }
  }

  /** `AncillaryData::try_from_cmsghdr`, by level and type. */
  function Classify(level: i32, kind: i32, data: seq<byte>): Item {
    if level == SOL_SOCKET && kind == SCM_RIGHTS then Rights(data)
    else if level == SOL_SOCKET && kind == SCM_CREDENTIALS then Credentials(data)
    else Unknown(level, kind)
  }

  /** By the constants of the Linux headers. */
  lemma ClassifyByConstants(level: i32, kind: i32, data: seq<byte>)
    ensures var item := Classify(level, kind, data);
      if level == 1 && kind == 1 then item == Rights(data)
      else if level == 1 && kind == 2 then item == Credentials(data)
      else item == Unknown(level, kind)
  {
  }

  function ItemAt(abi: Abi, buf: seq<byte>, at: nat): Item
    requires abi.Valid() && at + abi.HeaderSize() <= |buf|
  {
    var len := LenAt(abi, buf, at);
    if len < CmsgLen(abi, 0) || at + len > |buf| then OutOfBounds
    else Classify(LevelAt(abi, buf, at), KindAt(abi, buf, at), buf[at + DataStart(abi)..at + len])
  }

  /** The header after one: none as well when the platform returns the same pointer. */
  function After(abi: Abi, buf: seq<byte>, at: nat): (r: Option<nat>)
    requires abi.Valid() && at + abi.HeaderSize() <= |buf|
    ensures r.Some? ==> at < r.value && r.value + abi.HeaderSize() <= |buf|
  {
    var next := NextHeader(abi, buf, at);
    if next == Some(at) then None else next
  }

  /**
   * The 64-bit Linux walk in plain numbers: it goes on from a header exactly if the header's
   * length covers it, and at the next multiple of eight there are sixteen more bytes whose
   * length, rounded up, stays inside the buffer.
   */
  lemma LinuxNext(buf: seq<byte>, at: nat, n: nat)
    requires at + 16 <= |buf| && at % 8 == 0
    ensures After(LINUX, buf, at) == Some(n) <==>
      && LenAt(LINUX, buf, at) >= 16 && n % 8 == 0
      && at + LenAt(LINUX, buf, at) <= n < at + LenAt(LINUX, buf, at) + 8
      && n + 16 <= |buf|
      && LenAt(LINUX, buf, n) <= (|buf| - n) / 8 * 8
  {
    var len := LenAt(LINUX, buf, at);
    LinuxAlign(len);
    NextMultiple(at, len, Align(LINUX, len), n);
    if n + 16 <= |buf| {
      var ahead := LenAt(LINUX, buf, n);
      LinuxAlign(ahead);
      MultipleBelow(ahead, Align(LINUX, ahead), |buf| - n);
    }
  }

  lemma LinuxAlign(n: nat)
    ensures Align(LINUX, n) % 8 == 0 && n <= Align(LINUX, n) < n + 8
  {
    AlignRoundsUp(LINUX, n);
  }

  lemma NextMultiple(at: nat, len: nat, r: nat, n: nat)
    requires at % 8 == 0 && r % 8 == 0 && len <= r < len + 8
    ensures n == at + r <==> n % 8 == 0 && at + len <= n < at + len + 8
  {
  }

  lemma MultipleBelow(len: nat, r: nat, space: nat)
    requires r % 8 == 0 && len <= r < len + 8
    ensures r <= space <==> len <= space / 8 * 8
  {
  }

  /** A header position the macros may have returned. */
  predicate Inside(abi: Abi, buf: seq<byte>, at: Option<nat>) {
    at.Some? ==> at.value + abi.HeaderSize() <= |buf|
  }

  /** The headers visited from a position on. */
  function HeadersFrom(abi: Abi, buf: seq<byte>, at: Option<nat>): (h: seq<nat>)
    requires abi.Valid() && Inside(abi, buf, at)
    ensures forall i :: 0 <= i < |h| ==> h[i] + abi.HeaderSize() <= |buf|
    decreases if at.Some? then |buf| - at.value + 1 else 0
  {
    if at.None? then [] else [at.value] + HeadersFrom(abi, buf, After(abi, buf, at.value))
  }

  function Headers(abi: Abi, buf: seq<byte>): seq<nat>
    requires abi.Valid()
  {
    HeadersFrom(abi, buf, FirstHeader(abi, buf))
  }

  function ItemsFrom(abi: Abi, buf: seq<byte>, at: Option<nat>): seq<Item>
    requires abi.Valid() && Inside(abi, buf, at)
    decreases if at.Some? then |buf| - at.value + 1 else 0
  {
    if at.None? then []
    else [ItemAt(abi, buf, at.value)] + ItemsFrom(abi, buf, After(abi, buf, at.value))
  }

  /** Everything `messages()` yields. */
  function Items(abi: Abi, buf: seq<byte>): seq<Item>
    requires abi.Valid()
  {
    ItemsFrom(abi, buf, FirstHeader(abi, buf))
  }

  /** Its length covers its header and does not claim bytes behind the buffer. */
  predicate InBounds(abi: Abi, buf: seq<byte>, at: nat)
    requires abi.Valid() && at + abi.HeaderSize() <= |buf|
  {
    CmsgLen(abi, 0) <= LenAt(abi, buf, at) && at + LenAt(abi, buf, at) <= |buf|
  }

  ghost predicate WellFormed(abi: Abi, buf: seq<byte>)
    requires abi.Valid()
  {
    forall i :: 0 <= i < |Headers(abi, buf)| ==> InBounds(abi, buf, Headers(abi, buf)[i])
  }

  /**
   * On any bytes whatever the walk only moves forward; where CMSG_NXTHDR peeks at the next
   * length, only the first message can claim more bytes than there are.
   */
  lemma {:induction false} HeadersAdvance(abi: Abi, buf: seq<byte>, at: Option<nat>, i: nat, j: nat)
    requires abi.Valid() && Inside(abi, buf, at)
    requires i <= j < |HeadersFrom(abi, buf, at)|
    ensures var h := HeadersFrom(abi, buf, at);
      && at.value <= h[i]
      && (i < j ==> h[i] < h[j])
      && (i < j && abi.peeks ==> h[j] + LenAt(abi, buf, h[j]) <= |buf|)
    decreases if at.Some? then |buf| - at.value + 1 else 0
  {
    var next := After(abi, buf, at.value);
    var h, tail := HeadersFrom(abi, buf, at), HeadersFrom(abi, buf, next);
    if i > 0 {
      HeadersAdvance(abi, buf, next, i - 1, j - 1);
      assert h[i] == tail[i - 1] && h[j] == tail[j - 1];
    } else if j > 0 {
      HeadersAdvance(abi, buf, next, 0, j - 1);
      assert h[j] == tail[j - 1];
    }
  }

  /** Once a header is in bounds, the walk never returns to its bytes. */
  lemma {:induction false} SlicesAreDisjoint(abi: Abi, buf: seq<byte>, at: Option<nat>, i: nat, j: nat)
    requires abi.Valid() && Inside(abi, buf, at)
    requires i < j < |HeadersFrom(abi, buf, at)|
    ensures var h := HeadersFrom(abi, buf, at);
      h[i] + LenAt(abi, buf, h[i]) <= h[j]
    decreases if at.Some? then |buf| - at.value + 1 else 0
  {
    var next := After(abi, buf, at.value);
    var h, tail := HeadersFrom(abi, buf, at), HeadersFrom(abi, buf, next);
    assert h[j] == tail[j - 1];
    if i > 0 {
      SlicesAreDisjoint(abi, buf, next, i - 1, j - 1);
      assert h[i] == tail[i - 1];
    } else {
      HeadersAdvance(abi, buf, next, j - 1, j - 1);
    }
  }

  /** One item per header, in walk order. */
  lemma {:induction false} ItemPerHeader(abi: Abi, buf: seq<byte>, at: Option<nat>)
    requires abi.Valid() && Inside(abi, buf, at)
    ensures var h, items := HeadersFrom(abi, buf, at), ItemsFrom(abi, buf, at);
      |items| == |h| && forall i :: 0 <= i < |h| ==> items[i] == ItemAt(abi, buf, h[i])
    decreases if at.Some? then |buf| - at.value + 1 else 0
  {
    if at.Some? {
      ItemPerHeader(abi, buf, After(abi, buf, at.value));
    }
  }

  lemma WellFormedIffInBounds(abi: Abi, buf: seq<byte>)
    requires abi.Valid()
    ensures WellFormed(abi, buf) <==> OutOfBounds !in Items(abi, buf)
  {
    ItemPerHeader(abi, buf, FirstHeader(abi, buf));
    var h, items := Headers(abi, buf), Items(abi, buf);
    forall i | 0 <= i < |h|
      ensures items[i] == OutOfBounds <==> !InBounds(abi, buf, h[i])
    {
      assert items[i] == ItemAt(abi, buf, h[i]);
    }
  }

  // ---- Round trip ----

  ghost function ItemOf(m: Control): Item {
    Classify(m.level, m.kind, m.data)
  }

  ghost function ItemsOf(ms: seq<Control>): seq<Item> {
    if ms == [] then [] else [ItemOf(ms[0])] + ItemsOf(ms[1..])
  }

  lemma {:induction false} ItemsOfAreInBounds(ms: seq<Control>)
    ensures OutOfBounds !in ItemsOf(ms)
  {
    if ms != [] {
      ItemsOfAreInBounds(ms[1..]);
    }
  }

  /** One step of the iterator over a record. */
  lemma ParseRecord(abi: Abi, pre: seq<byte>, m: Control, rest: seq<byte>)
    requires abi.Valid() && Fits(abi, m)
    requires rest == [] || (abi.room <= |rest| && Align(abi, LenAt(abi, rest, 0)) <= |rest|)
    ensures var buf, at := pre + (Record(abi, m) + rest), |pre|;
      && ItemAt(abi, buf, at) == ItemOf(m)
      && After(abi, buf, at) == (if rest == [] then None else Some(at + |Record(abi, m)|))
  {
    Assoc(pre, Record(abi, m), rest);
    FieldsOfRecord(abi, pre, m, rest);
    NextOfRecord(abi, pre, m, rest);
  }

  lemma SplitSuffix<T>(s: seq<T>, at: nat, a: seq<T>, b: seq<T>)
    requires at <= |s| && s[at..] == a + b
    ensures s == s[..at] + (a + b)
    ensures at + |a| <= |s| && s[at + |a|..] == b
  {
    assert s[at..][|a|..] == b;
  }

  /** The iterator at a record that further laid-out messages follow. */
  lemma RecordThenLayout(abi: Abi, buf: seq<byte>, at: nat, m: Control, tail: seq<Control>)
    requires abi.Valid() && Fits(abi, m) && AllFit(abi, tail)
    requires at <= |buf| && buf == buf[..at] + (Record(abi, m) + Layout(abi, tail))
    ensures Inside(abi, buf, Some(at))
    ensures ItemAt(abi, buf, at) == ItemOf(m)
    ensures After(abi, buf, at) == if tail == [] then None else Some(at + |Record(abi, m)|)
  {
    if tail != [] {
      LayoutInvites(abi, tail);
    }
    ParseRecord(abi, buf[..at], m, Layout(abi, tail));
  }

  /** The iterator at the start of laid-out messages. */
  lemma FirstOfLayout(abi: Abi, buf: seq<byte>, at: nat, m: Control, tail: seq<Control>)
    requires abi.Valid() && Fits(abi, m) && AllFit(abi, tail)
    requires at <= |buf| && buf[at..] == Record(abi, m) + Layout(abi, tail)
    ensures Inside(abi, buf, Some(at)) && ItemAt(abi, buf, at) == ItemOf(m)
    ensures After(abi, buf, at) == if tail == [] then None else Some(at + |Record(abi, m)|)
    ensures at + |Record(abi, m)| <= |buf| && buf[at + |Record(abi, m)|..] == Layout(abi, tail)
  {
    SplitSuffix(buf, at, Record(abi, m), Layout(abi, tail));
    RecordThenLayout(abi, buf, at, m, tail);
  }

  lemma Unfold(abi: Abi, buf: seq<byte>, at: nat, next: Option<nat>, ms: seq<Control>)
    requires abi.Valid() && Inside(abi, buf, Some(at)) && ms != []
    requires ItemAt(abi, buf, at) == ItemOf(ms[0]) && After(abi, buf, at) == next
    requires ItemsFrom(abi, buf, next) == ItemsOf(ms[1..])
    ensures ItemsFrom(abi, buf, Some(at)) == ItemsOf(ms)
  {
  }

  /** Parsing from the start of the messages `ms` yields exactly those messages. */
  lemma {:induction false} ParseLayout(abi: Abi, buf: seq<byte>, at: nat, ms: seq<Control>)
    requires abi.Valid() && AllFit(abi, ms) && ms != []
    requires at <= |buf| && buf[at..] == Layout(abi, ms)
    ensures Inside(abi, buf, Some(at))
    ensures ItemsFrom(abi, buf, Some(at)) == ItemsOf(ms)
    decreases |ms|
  {
    var m, tail := ms[0], ms[1..];
    FirstOfLayout(abi, buf, at, m, tail);
    if tail == [] {
      Unfold(abi, buf, at, None, ms);
    } else {
      var next := at + |Record(abi, m)|;
      ParseLayout(abi, buf, next, tail);
      Unfold(abi, buf, at, Some(next), ms);
    }
  }

  /** Where laid-out messages start. */
  ghost function Starts(abi: Abi, at: nat, ms: seq<Control>): (starts: seq<nat>)
    requires abi.Valid()
    ensures |starts| == |ms|
    decreases |ms|
  {
    if ms == [] then [] else [at] + Starts(abi, at + |Record(abi, ms[0])|, ms[1..])
  }

  lemma {:induction false} StartAt(abi: Abi, at: nat, ms: seq<Control>, i: nat)
    requires abi.Valid() && i < |ms|
    ensures Starts(abi, at, ms)[i] == at + |Layout(abi, ms[..i])|
    decreases |ms|
  {
    if i > 0 {
      assert ms[..i][0] == ms[0] && ms[..i][1..] == ms[1..][..i - 1];
      StartAt(abi, at + |Record(abi, ms[0])|, ms[1..], i - 1);
    }
  }

  lemma UnfoldHeaders(abi: Abi, buf: seq<byte>, at: nat)
    requires abi.Valid() && Inside(abi, buf, Some(at))
    ensures HeadersFrom(abi, buf, Some(at)) == [at] + HeadersFrom(abi, buf, After(abi, buf, at))
  {
  }

  lemma UnfoldStarts(abi: Abi, at: nat, ms: seq<Control>)
    requires abi.Valid() && ms != []
    ensures Starts(abi, at, ms) == [at] + Starts(abi, at + |Record(abi, ms[0])|, ms[1..])
  {
  }

  /** The walk visits each laid-out message where it starts. */
  lemma {:induction false} HeadersFromLayout(abi: Abi, buf: seq<byte>, at: nat, ms: seq<Control>)
    requires abi.Valid() && AllFit(abi, ms) && ms != []
    requires at <= |buf| && buf[at..] == Layout(abi, ms)
    ensures Inside(abi, buf, Some(at)) && HeadersFrom(abi, buf, Some(at)) == Starts(abi, at, ms)
    decreases |ms|
  {
    var m, tail := ms[0], ms[1..];
    var next := at + |Record(abi, m)|;
    FirstOfLayout(abi, buf, at, m, tail);
    HeadersBehind(abi, buf, at, After(abi, buf, at), next, ms, tail) by {
      if tail != [] {
        HeadersFromLayout(abi, buf, next, tail);
      }
    }
  }

  lemma HeadersBehind(abi: Abi, buf: seq<byte>, at: nat, after: Option<nat>, next: nat, ms: seq<Control>, tail: seq<Control>)
    requires abi.Valid() && ms != [] && tail == ms[1..] && next == at + |Record(abi, ms[0])|
    requires Inside(abi, buf, Some(at)) && after == After(abi, buf, at)
    requires tail == [] ==> after == None
    requires tail != [] ==> after == Some(next) && HeadersFrom(abi, buf, after) == Starts(abi, next, tail)
    ensures HeadersFrom(abi, buf, Some(at)) == Starts(abi, at, ms)
  {
    UnfoldHeaders(abi, buf, at);
    UnfoldStarts(abi, at, ms);
  }

  /** Header i is behind the first i messages. */
  lemma HeadersOfLayout(abi: Abi, ms: seq<Control>, i: nat)
    requires abi.Valid() && AllFit(abi, ms) && i < |ms|
    ensures |Headers(abi, Layout(abi, ms))| == |ms|
    ensures Headers(abi, Layout(abi, ms))[i] == |Layout(abi, ms[..i])|
  {
    var buf := Layout(abi, ms);
    assert buf[0..] == buf;
    HeadersFromLayout(abi, buf, 0, ms);
    StartAt(abi, 0, ms, i);
  }

  /** Whatever was laid out is parsed back: same messages, same order, same units. */
  lemma RoundTrip(abi: Abi, ms: seq<Control>)
    requires abi.Valid() && AllFit(abi, ms)
    ensures Items(abi, Layout(abi, ms)) == ItemsOf(ms)
    ensures WellFormed(abi, Layout(abi, ms))
  {
    if ms != [] {
      ParseLayout(abi, Layout(abi, ms), 0, ms);
    }
    ItemsOfAreInBounds(ms);
    WellFormedIffInBounds(abi, Layout(abi, ms));
  }
}
