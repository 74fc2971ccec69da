/** Unsigned words as naturals, the C bit operators on them, and most-significant-bit-first bit strings. */
module Bits {

  type byte = x: int | 0 <= x < 256
  type bits = seq<bool>

  function Zeros(n: nat): (s: seq<byte>)
    ensures |s| == n
    ensures forall i :: 0 <= i < n ==> s[i] == 0
  {
    seq(n, _ => 0)
  }

  function Min(a: int, b: int): (m: int)
    ensures m <= a && m <= b && (m == a || m == b)
  {
    if a < b then a else b
  }

  function Pow2(n: nat): (p: nat)
    ensures p >= 1
  {
    if n == 0 then 1 else 2 * Pow2(n - 1)
  }

  /** Storing into a `uint16_t`. */
  function U16(x: int): (r: nat)
    ensures r < 0x1_0000
    ensures 0 <= x < 0x1_0000 ==> r == x
  {
    x % 0x1_0000
  }

  /** Reading a `uint16_t` as an `int16_t`. */
  function S16(x: nat): int
    requires x < 0x1_0000
  {
    if x < 0x8000 then x else x - 0x1_0000
  }

  /** `v >> k`. */
  function Shr(v: nat, k: nat): (r: nat)
    ensures r <= v
  {
    if k == 0 then v else Shr(v / 2, k - 1)
  }

  function BitAnd(a: nat, b: nat): nat {
    if a == 0 || b == 0 then 0
    else 2 * BitAnd(a / 2, b / 2) + (if a % 2 == 1 && b % 2 == 1 then 1 else 0)
  }

  function BitOr(a: nat, b: nat): nat {
    if a == 0 then b else if b == 0 then a
    else 2 * BitOr(a / 2, b / 2) + (if a % 2 == 1 || b % 2 == 1 then 1 else 0)
  }

  function BitXor(a: nat, b: nat): nat {
    if a == 0 then b else if b == 0 then a
    else 2 * BitXor(a / 2, b / 2) + (if a % 2 != b % 2 then 1 else 0)
  }

  /** The low `n` bits of `v`, most significant first. */
  function ToBits(v: nat, n: nat): (s: bits)
    ensures |s| == n
  {
    if n == 0 then [] else ToBits(v / 2, n - 1) + [v % 2 == 1]
  }

  function BitsVal(s: bits): (v: nat)
    ensures v < Pow2(|s|)
  {
    if s == [] then 0
    else 2 * BitsVal(s[..|s| - 1]) + (if s[|s| - 1] then 1 else 0)
  }

  function ByteBits(bs: seq<byte>): (s: bits)
    ensures |s| == 8 * |bs|
  {
    if bs == [] then [] else ToBits(bs[0], 8) + ByteBits(bs[1..])
  }

  /** Bits grouped into bytes, the last byte filled up with zero bits. */
  function Pack(s: bits): (bs: seq<byte>)
    ensures |bs| == (|s| + 7) / 8
    decreases |s|
  {
    if s == [] then []
    else if |s| < 8 then PackLast(s)
    else ByteOf(s[..8]) + Pack(s[8..])
  }

  function PackLast(s: bits): (bs: seq<byte>)
    requires 0 < |s| < 8
    ensures |bs| == 1
  {
    ByteOf(s + Falses(8 - |s|))
  }

  function ByteOf(s: bits): (bs: seq<byte>)
    requires |s| == 8
    ensures |bs| == 1
  {
    assert Pow2(8) == 256;
    [BitsVal(s)]
  }

  function Falses(n: nat): (s: bits)
    ensures |s| == n
    ensures forall i :: 0 <= i < n ==> !s[i]
  {
    seq(n, _ => false)
  }

  // ---------------------------------------------------------------- powers

  lemma {:induction false} Pow2Add(a: nat, b: nat)
    ensures Pow2(a + b) == Pow2(a) * Pow2(b)
  {
    if a > 0 {
      Pow2Add(a - 1, b);
      assert Pow2(a + b) == 2 * Pow2(a - 1 + b);
    }
  }

  lemma {:induction false} Pow2Mono(a: nat, b: nat)
    requires a < b
    ensures 2 * Pow2(a) <= Pow2(b)
  {
    if a + 1 < b {
      Pow2Mono(a, b - 1);
    }
  }

  lemma Pow2Table()
    ensures Pow2(0) == 1 && Pow2(1) == 2 && Pow2(2) == 4 && Pow2(3) == 8
    ensures Pow2(4) == 16 && Pow2(5) == 32 && Pow2(6) == 64 && Pow2(7) == 128
    ensures Pow2(8) == 256 && Pow2(14) == 16384 && Pow2(15) == 32768 && Pow2(16) == 65536
  {
  }

  // ---------------------------------------------------------------- bit strings

  lemma {:induction false} ValToBits(s: bits)
    ensures ToBits(BitsVal(s), |s|) == s
  {
    if s != [] {
      ValToBits(s[..|s| - 1]);
      assert BitsVal(s) / 2 == BitsVal(s[..|s| - 1]);
    }
  }

  lemma BitsValSnoc(s: bits, bit: bool)
    ensures BitsVal(s + [bit]) == 2 * BitsVal(s) + if bit then 1 else 0
  {
    assert (s + [bit])[..|s|] == s;
  }

  lemma {:induction false} ToBitsVal(v: nat, n: nat)
    requires v < Pow2(n)
    ensures BitsVal(ToBits(v, n)) == v
  {
    if n > 0 {
      ToBitsVal(v / 2, n - 1);
      assert ToBits(v, n)[..n - 1] == ToBits(v / 2, n - 1);
    }
  }

  lemma {:induction false} ToBitsSplit(v: nat, n: nat, m: nat)
    ensures ToBits(v, n + m) == ToBits(Shr(v, m), n) + ToBits(v, m)
  {
    if m > 0 {
      ToBitsSplit(v / 2, n, m - 1);
      SplitStep(v, n, m, Shr(v, m));
    }
  }

  lemma SplitStep(v: nat, n: nat, m: nat, high: nat)
    requires m > 0
    requires ToBits(v / 2, n + (m - 1)) == ToBits(high, n) + ToBits(v / 2, m - 1)
    ensures ToBits(v, n + m) == ToBits(high, n) + ToBits(v, m)
  {
    var last := [v % 2 == 1];
    assert n + m - 1 == n + (m - 1);
    calc {
      ToBits(v, n + m);
      ToBits(v / 2, n + (m - 1)) + last;
      (ToBits(high, n) + ToBits(v / 2, m - 1)) + last;
      ToBits(high, n) + (ToBits(v / 2, m - 1) + last);
    }
  }

  lemma MulMono(a: nat, x: int, y: int)
    requires x <= y
    ensures a * x <= a * y
  {
  }

  lemma DivUnique(v: int, d: nat, q: int, r: int)
    requires d > 0 && v == d * q + r && 0 <= r < d
    ensures v / d == q && v % d == r
  {
    var q', r' := v / d, v % d;
    if q' < q {
      MulMono(d, q' + 1, q);
    } else if q < q' {
      MulMono(d, q + 1, q');
    }
  }

  lemma ModHalf(v: nat, m: nat)
    requires m > 0
    ensures v % Pow2(m) % 2 == v % 2 && v % Pow2(m) / 2 == v / 2 % Pow2(m - 1)
  {
    var p := Pow2(m - 1);
    var q, r := v / (2 * p), v % (2 * p);
    assert v == 2 * (p * q) + r;
    DivUnique(v / 2, p, q, r / 2);
  }

  lemma {:induction false} ToBitsMod(v: nat, m: nat, k: nat)
    requires k <= m
    ensures ToBits(v % Pow2(m), k) == ToBits(v, k)
  {
    if k > 0 {
      ModHalf(v, m);
      ToBitsMod(v / 2, m - 1, k - 1);
    }
  }

  lemma {:induction false} ShrMul(high: nat, low: nat, k: nat)
    requires low < Pow2(k)
    ensures Shr(high * Pow2(k) + low, k) == high
  {
    if k > 0 {
      ShrMul(high, low / 2, k - 1);
      MulHalf(high, Pow2(k - 1), low);
    }
  }

  lemma MulHalf(a: nat, p: nat, b: nat)
    ensures (a * (2 * p) + b) / 2 == a * p + b / 2
  {
    assert a * (2 * p) == 2 * (a * p);
  }

  lemma {:induction false} ToBitsZero(n: nat)
    ensures ToBits(0, n) == Falses(n)
  {
    if n > 0 {
      ToBitsZero(n - 1);
    }
  }

  /** Bit `i` of `v`, tested as C does with `v & (1 << i)`. */
  lemma {:induction false} BitAndPow2(v: nat, i: nat)
    ensures (BitAnd(v, Pow2(i)) != 0) == (Shr(v, i) % 2 == 1)
  {
    if v != 0 && i > 0 {
      BitAndPow2(v / 2, i - 1);
    } else if i == 0 {
      assert BitAnd(v / 2, 0) == 0;
    }
  }

  lemma TakeBit(b: nat, a: nat)
    requires 1 <= a
    ensures ToBits(b, a) == [BitAnd(b, Pow2(a - 1)) != 0] + ToBits(b, a - 1)
  {
    ToBitsSplit(b, 1, a - 1);
    BitAndPow2(b, a - 1);
    assert ToBits(Shr(b, a - 1), 1) == ToBits(Shr(b, a - 1) / 2, 0) + [Shr(b, a - 1) % 2 == 1];
  }

  /** Setting a bit below everything already set is addition. */
  lemma {:induction false} BitOrDisjoint(x: nat, k: nat, y: nat)
    requires y < Pow2(k)
    ensures BitOr(x * Pow2(k), y) == x * Pow2(k) + y
  {
    if k == 0 {
      assert y == 0;
    } else {
      var a := x * Pow2(k - 1);
      assert x * Pow2(k) == 2 * a;
      BitOrDisjoint(x, k - 1, y / 2);
      assert (2 * a) / 2 == a;
    }
  }

  lemma {:induction false} ByteBitsAppend(a: seq<byte>, b: seq<byte>)
    ensures ByteBits(a + b) == ByteBits(a) + ByteBits(b)
  {
    if a == [] {
      assert a + b == b;
    } else {
      ByteBitsAppend(a[1..], b);
      assert (a + b)[1..] == a[1..] + b;
    }
  }

  lemma OneByteBits(b: byte)
    ensures ByteBits([b]) == ToBits(b, 8)
  {
    assert ByteBits([b]) == ToBits(b, 8) + ByteBits([]);
  }

  /** Packing inverts unpacking up to the padding, which is at most seven zero bits. */
  lemma {:induction false} UnpackPack(s: bits)
    ensures |s| <= |ByteBits(Pack(s))| <= |s| + 7
    ensures ByteBits(Pack(s)) == s + Falses(|ByteBits(Pack(s))| - |s|)
    decreases |s|
  {
    if 0 < |s| < 8 {
      var t := s + Falses(8 - |s|);
      assert Pack(s) == [BitsVal(t)];
      ValToBits(t);
      assert ByteBits([BitsVal(t)]) == ToBits(BitsVal(t), 8) + ByteBits([]);
    } else if |s| >= 8 {
      UnpackPack(s[8..]);
      ValToBits(s[..8]);
      assert Pack(s)[0] == BitsVal(s[..8]);
      assert Pack(s)[1..] == Pack(s[8..]);
      assert s == s[..8] + s[8..];
    }
  }

  lemma PackByte(b: byte, u: bits, t: bits)
    requires t == ToBits(b, 8) + u
    ensures Pack(t) == [b] + Pack(u)
  {
    assert t[..8] == ToBits(b, 8);
    assert t[8..] == u;
    ToBitsVal(b, 8);
  }

  /** Emitting whole bytes first and the rest later is packing the whole. */
  lemma {:induction false} PackBytes(bs: seq<byte>, s: bits, t: bits)
    requires t == ByteBits(bs) + s
    ensures Pack(t) == bs + Pack(s)
  {
    if bs == [] {
      assert t == s;
    } else {
      var u := t[8..];
      TakeByte(bs, s, t);
      PackBytes(bs[1..], s, u);
      PackByte(bs[0], u, t);
      ConsAppend(bs, Pack(s));
    }
  }

  lemma ConsAppend(bs: seq<byte>, p: seq<byte>)
    requires bs != []
    ensures [bs[0]] + (bs[1..] + p) == bs + p
  {
  }

  lemma TakeByte(bs: seq<byte>, s: bits, t: bits)
    requires bs != [] && t == ByteBits(bs) + s
    ensures t == ToBits(bs[0], 8) + t[8..] && t[8..] == ByteBits(bs[1..]) + s
  {
    hide ToBits;
    var first, rest := ToBits(bs[0], 8), ByteBits(bs[1..]);
    assert ByteBits(bs) == first + rest;
    hide ByteBits;
    SplitFront(first, rest, s, t);
  }

  lemma SplitFront(a: bits, b: bits, c: bits, t: bits)
    requires t == (a + b) + c
    ensures t == a + t[|a|..] && t[|a|..] == b + c
  {
  }

  // ---------------------------------------------------------------- which bit is where

  /** Bit `k` of a field of `n` bits is the one of weight 2^(n-1-k). */
  lemma {:induction false} ToBitsAt(v: nat, n: nat, k: nat)
    requires k < n
    ensures ToBits(v, n)[k] <==> Shr(v, n - 1 - k) % 2 == 1
    decreases n
  {
    if k < n - 1 {
      ToBitsAt(v / 2, n - 1, k);
    }
  }

  /** The most significant bit of each byte comes first. */
  lemma {:induction false} ByteBitsAt(bs: seq<byte>, i: nat, j: nat)
    requires i < |bs| && j < 8
    ensures ByteBits(bs)[8 * i + j] <==> Shr(bs[i], 7 - j) % 2 == 1
    decreases |bs|
  {
    hide ToBits, Shr;
    if i == 0 {
      ToBitsAt(bs[0], 8, j);
    } else {
      ByteBitsAt(bs[1..], i - 1, j);
      assert ByteBits(bs)[8 * i + j] == ByteBits(bs[1..])[8 * (i - 1) + j];
    }
  }
}
