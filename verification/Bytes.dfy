/** Fixed-width integers, their little-endian byte encoding, and a few facts about sequences. */
module Bytes {
  type byte = x: int | 0 <= x < 0x100
  type u16 = x: int | 0 <= x < 0x1_0000
  type u32 = x: int | 0 <= x < 0x1_0000_0000
  type i32 = x: int | -0x8000_0000 <= x < 0x8000_0000

  datatype Option<+T> = None | Some(value: T)

  function Pow256(width: nat): (p: nat)
    ensures p >= 1
  {
    if width == 0 then 1 else 256 * Pow256(width - 1)
  }

  /** The low `width` bytes of n, least significant first. */
  function ToBytes(n: nat, width: nat): (b: seq<byte>)
    ensures |b| == width
  {
    if width == 0 then [] else [n % 256] + ToBytes(n / 256, width - 1)
  }

  function FromBytes(b: seq<byte>): (n: nat) {
    if b == [] then 0 else b[0] + 256 * FromBytes(b[1..])
  }

  lemma {:induction false} FromToBytes(n: nat, width: nat)
    requires n < Pow256(width)
    ensures FromBytes(ToBytes(n, width)) == n
  {
    if width > 0 {
      FromToBytes(n / 256, width - 1);
      assert ToBytes(n, width)[1..] == ToBytes(n / 256, width - 1);
    }
  }

  lemma {:induction false} ToFromBytes(b: seq<byte>)
    ensures FromBytes(b) < Pow256(|b|)
    ensures ToBytes(FromBytes(b), |b|) == b
  {
    if b != [] {
      ToFromBytes(b[1..]);
      var n := FromBytes(b);
      assert n % 256 == b[0] && n / 256 == FromBytes(b[1..]);
      assert b == [b[0]] + b[1..];
    }
  }

  /** Byte i has weight 256 to the i: little-endian. */
  lemma {:induction false} ByteAt(n: nat, width: nat, i: nat)
    requires i < width
    ensures ToBytes(n, width)[i] == n / Pow256(i) % 256
    decreases width
  {
    if i > 0 {
      ByteAt(n / 256, width - 1, i - 1);
      DivTwice(n, Pow256(i - 1));
    } else {
      assert n / 1 == n;
    }
  }

  lemma DivTwice(n: nat, p: nat)
    requires p >= 1
    ensures n / 256 / p == n / (256 * p)
  {
    var a, r := n / 256, n % 256;
    var q, t := a / p, a % p;
    assert a == q * p + t;
    assert n == q * (256 * p) + (256 * t + r);
    assert 256 * t + r < 256 * p;
    DivOf(256 * p, q, 256 * t + r);
  }

  lemma DivOf(a: nat, q: nat, r: nat)
    requires r < a
    ensures (q * a + r) / a == q
  {
    var x := q * a + r;
    var d, m := x / a, x % a;
    assert a * (d - q) == r - m;
    if d > q {
      Grows(a, d - q);
    } else if d < q {
      Grows(a, q - d);
    }
  }

  lemma Grows(a: nat, k: nat)
    requires k >= 1
    ensures a * k >= a
  {
    assert a * k == a * (k - 1) + a;
  }

  lemma Widths()
    ensures Pow256(2) == 0x1_0000
    ensures Pow256(4) == 0x1_0000_0000
  {
    assert Pow256(1) == 256 * Pow256(0);
    assert Pow256(2) == 256 * Pow256(1);
    assert Pow256(3) == 256 * Pow256(2);
    assert Pow256(4) == 256 * Pow256(3);
  }

  lemma {:induction false} WiderHoldsMore(narrow: nat, wide: nat)
    requires narrow <= wide
    ensures Pow256(narrow) <= Pow256(wide)
  {
    if narrow < wide {
      WiderHoldsMore(narrow, wide - 1);
    }
  }

  /** Two's complement. */
  function Unsigned(x: i32): u32 {
    if x < 0 then x + 0x1_0000_0000 else x
  }

  function Signed(u: u32): i32 {
    if u < 0x8000_0000 then u else u - 0x1_0000_0000
  }

  function IntToBytes(x: i32): (b: seq<byte>)
    ensures |b| == 4
  {
    ToBytes(Unsigned(x), 4)
  }

  function IntFromBytes(b: seq<byte>): i32
    requires |b| == 4
  {
    ToFromBytes(b);
    Widths();
    Signed(FromBytes(b))
  }

  lemma IntRoundTrip(x: i32)
    ensures IntFromBytes(IntToBytes(x)) == x
  {
    Widths();
    FromToBytes(Unsigned(x), 4);
  }

  lemma IntBytesRoundTrip(b: seq<byte>)
    requires |b| == 4
    ensures IntToBytes(IntFromBytes(b)) == b
  {
    Widths();
    ToFromBytes(b);
  }

  lemma Assoc<T>(a: seq<T>, b: seq<T>, c: seq<T>)
    ensures a + (b + c) == (a + b) + c
  {
  }

  lemma HeadTail<T>(a: seq<T>, b: seq<T>)
    requires a != []
    ensures (a + b)[0] == a[0] && (a + b)[1..] == a[1..] + b
  {
  }

  lemma EmptyLeft<T>(b: seq<T>)
    ensures [] + b == b
  {
  }

  function Flatten<T>(parts: seq<seq<T>>): seq<T> {
    if parts == [] then [] else parts[0] + Flatten(parts[1..])
  }

  lemma {:induction false} FlattenAppend<T>(a: seq<seq<T>>, b: seq<seq<T>>)
    ensures Flatten(a + b) == Flatten(a) + Flatten(b)
  {
    if a == [] {
      EmptyLeft(b);
      EmptyLeft(Flatten(b));
    } else {
      FlattenAppend(a[1..], b);
      HeadTail(a, b);
      Assoc(a[0], Flatten(a[1..]), Flatten(b));
    }
  }

  lemma FlattenSnoc<T>(a: seq<seq<T>>, x: seq<T>)
    ensures Flatten(a + [x]) == Flatten(a) + x
  {
    FlattenAppend(a, [x]);
    assert [x][1..] == [];
  }

  function Zeros(n: nat): (z: seq<byte>)
    ensures |z| == n && forall i :: 0 <= i < n ==> z[i] == 0
  {
    seq(n, i => 0)
  }

  lemma {:induction false} ZeroBytesAreZero(n: nat)
    ensures FromBytes(Zeros(n)) == 0
  {
    if n > 0 {
      assert Zeros(n)[1..] == Zeros(n - 1);
      ZeroBytesAreZero(n - 1);
    }
  }
}
