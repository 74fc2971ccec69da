/**
 * CRC-16-CCITT as the frames use it: polynomial x^16 + x^12 + x^5 + 1 (section 2 of ITU-T V.41),
 * initial value 0xFFFF, most significant bit first. The specification feeds a shift register one
 * message bit at a time.
 */
module Crc16 {
  import opened Bits

  const POLY: nat := 0x1021

  function XorBits(a: bits, b: bits): (r: bits)
    requires |a| == |b|
    ensures |r| == |a|
  {
    seq(|a|, i requires 0 <= i < |a| => a[i] != b[i])
  }

  /** One message bit into the register. */
  function StepBit(r: bits, b: bool): (r': bits)
    requires |r| == 16
    ensures |r'| == 16
  {
    var shifted := r[1..] + [false];
    if r[0] != b then XorBits(shifted, ToBits(POLY, 16)) else shifted
  }

  function Register(r: bits, s: bits): (r': bits)
    requires |r| == 16
    ensures |r'| == 16
    decreases |s|
  {
    if s == [] then r else StepBit(Register(r, s[..|s| - 1]), s[|s| - 1])
  }

  function Init(): (r: bits)
    ensures |r| == 16
  {
    seq(16, _ => true)
  }

  /** The checksum of `data`. */
  function Crc(data: seq<byte>): (c: nat)
    ensures c < 0x1_0000
  {
    Pow2Table();
    BitsVal(Register(Init(), ByteBits(data)))
  }

  /** The checksum in the order it is sent, high byte first. */
  function CrcBytes(data: seq<byte>): (r: seq<byte>)
    ensures |r| == 2
  {
    [Crc(data) / 256, Crc(data) % 256]
  }

  /** Two bytes as a 16-bit number, high byte first. */
  function Word(hi: byte, lo: byte): (v: nat)
    ensures v < 0x1_0000
  {
    hi as nat * 256 + lo
  }

  /** A frame is accepted when the register ends at zero after all of it, checksum included. */
  predicate Accepts(frame: seq<byte>) {
    |frame| >= 2 && Register(Init(), ByteBits(frame)) == Falses(16)
  }

  // ---------------------------------------------------------------- words and bit strings

  lemma {:induction false} XorWords(a: nat, b: nat, n: nat)
    ensures ToBits(BitXor(a, b), n) == XorBits(ToBits(a, n), ToBits(b, n))
  {
    if n > 0 {
      XorHalves(a, b);
      XorWords(a / 2, b / 2, n - 1);
      XorSnoc(ToBits(a / 2, n - 1), ToBits(b / 2, n - 1), a % 2 == 1, b % 2 == 1);
    }
  }

  lemma XorHalves(a: nat, b: nat)
    ensures BitXor(a, b) / 2 == BitXor(a / 2, b / 2)
    ensures (BitXor(a, b) % 2 == 1) == ((a % 2 == 1) != (b % 2 == 1))
  {
  }

  lemma XorSnoc(a: bits, b: bits, x: bool, y: bool)
    requires |a| == |b|
    ensures XorBits(a + [x], b + [y]) == XorBits(a, b) + [x != y]
  {
  }

  lemma DropFirst(a: bits, low: bits, c: bits)
    requires |a| == 1 && |c| > 0 && a + low == c + [false]
    ensures low == c[1..] + [false]
  {
    assert (a + low)[1..] == low && (c + [false])[1..] == c[1..] + [false];
  }

  lemma DoubleBits(c: nat)
    ensures ToBits(2 * c, 17) == ToBits(c, 16) + [false]
  {
  }

  lemma ShiftWord(c: nat)
    ensures ToBits(U16(2 * c), 16) == ToBits(c, 16)[1..] + [false]
  {
    hide ToBits, Shr;
    assert Pow2(16) == 0x1_0000 by { Pow2Table(); }
    ToBitsMod(2 * c, 16, 16);
    ToBitsSplit(2 * c, 1, 16);
    DoubleBits(c);
    DropFirst(ToBits(Shr(2 * c, 16), 1), ToBits(2 * c, 16), ToBits(c, 16));
  }

  lemma TopBit(c: nat)
    ensures (BitAnd(c, 0x8000) != 0) == ToBits(c, 16)[0]
  {
    Pow2Table();
    TakeBit(c, 16);
  }

  lemma ShiftedOnce(v: nat, p: nat)
    ensures v * (2 * p) == 2 * (v * p)
  {
  }

  lemma AppendZero(v: nat, k: nat)
    requires k > 0
    ensures Shr(2 * v, k) == Shr(v, k - 1) && ToBits(2 * v, k) == ToBits(v, k - 1) + [false]
  {
    assert 2 * v / 2 == v && 2 * v % 2 == 0;
  }

  lemma {:induction false} ShrPow2(v: nat, k: nat)
    ensures Shr(v * Pow2(k), k) == v && ToBits(v * Pow2(k), k) == Falses(k)
  {
    if k > 0 {
      var half := Pow2(k - 1);
      assert Pow2(k) == 2 * half;
      hide Pow2, Shr, ToBits;
      ShiftedOnce(v, half);
      AppendZero(v * half, k);
      ShrPow2(v, k - 1);
    } else {
      assert v * Pow2(0) == v;
    }
  }

  lemma HighByte(b: byte)
    ensures ToBits(U16(b as nat * 256), 16) == ToBits(b, 8) + Falses(8)
  {
    Pow2Table();
    ShrPow2(b, 8);
    ToBitsSplit(b * 256, 8, 8);
  }

  // ---------------------------------------------------------------- the loops

  /** The byte loop's invariant: the register after `j` bits of the byte, the others still folded in. */
  ghost predicate InByte(crc: nat, r: bits, byteBits: bits, j: nat)
    requires |r| == 16 && |byteBits| == 8 && j <= 8
  {
    crc < 0x1_0000 && ToBits(crc, 16) == XorBits(Register(r, byteBits[..j]), byteBits[j..] + Falses(8 + j))
  }

  lemma RegisterSnoc(r: bits, s: bits, j: nat)
    requires |r| == 16 && j < |s|
    ensures Register(r, s[..j + 1]) == StepBit(Register(r, s[..j]), s[j])
  {
    assert s[..j + 1][..j] == s[..j];
  }

  /** Shifting a word with pending message bits folded in is one register step. */
  lemma StepFolded(r: bits, c: bits, pending: bits, k: nat)
    requires |r| == 16 && |pending| >= 1 && |pending| + k == 16
    requires c == XorBits(r, pending + Falses(k))
    ensures c[0] == (r[0] != pending[0])
    ensures var shifted := c[1..] + [false];
      (if c[0] then XorBits(shifted, ToBits(POLY, 16)) else shifted)
      == XorBits(StepBit(r, pending[0]), pending[1..] + Falses(k + 1))
  {
    hide ToBits;
    var shifted := c[1..] + [false];
    var folded := pending[1..] + Falses(k + 1);
    assert shifted == XorBits(r[1..] + [false], folded);
  }

  lemma {:induction false} XorBound(a: nat, b: nat, n: nat)
    requires a < Pow2(n) && b < Pow2(n)
    ensures BitXor(a, b) < Pow2(n)
  {
    if n > 0 && a > 0 && b > 0 {
      XorBound(a / 2, b / 2, n - 1);
    }
  }

  lemma XorWord(a: nat, b: nat)
    requires a < 0x1_0000 && b < 0x1_0000
    ensures BitXor(a, b) < 0x1_0000
    ensures ToBits(BitXor(a, b), 16) == XorBits(ToBits(a, 16), ToBits(b, 16))
  {
    hide ToBits, BitXor, Pow2;
    assert Pow2(16) == 0x1_0000 by { Pow2Table(); }
    XorBound(a, b, 16);
    XorWords(a, b, 16);
  }

  lemma FoldByte(crc: nat, b: byte, r: bits)
    requires crc < 0x1_0000 && |r| == 16 && ToBits(crc, 16) == r
    ensures InByte(BitXor(crc, U16(b as nat * 256)), r, ToBits(b, 8), 0)
  {
    hide ToBits, BitXor, Pow2;
    XorWord(crc, U16(b as nat * 256));
    HighByte(b);
    assert ToBits(b, 8)[..0] == [] && ToBits(b, 8)[0..] == ToBits(b, 8);
  }

  /** One turn of the bit loop, either branch. */
  lemma ShiftOnce(crc: nat, r: bits, bb: bits, j: nat)
    requires |r| == 16 && |bb| == 8 && j < 8 && InByte(crc, r, bb, j)
    ensures BitAnd(crc, 0x8000) != 0 ==> InByte(BitXor(U16(2 * crc), POLY), r, bb, j + 1)
    ensures BitAnd(crc, 0x8000) == 0 ==> InByte(U16(2 * crc), r, bb, j + 1)
  {
    hide ToBits, BitXor, Pow2, BitAnd, Register, StepBit;
    TopBit(crc);
    ShiftWord(crc);
    XorWord(U16(2 * crc), POLY);
    RegisterSnoc(r, bb, j);
    assert bb[j..][1..] == bb[j + 1..];
    StepFolded(Register(r, bb[..j]), ToBits(crc, 16), bb[j..], 8 + j);
  }

  lemma ByteDone(crc: nat, r: bits, bb: bits)
    requires |r| == 16 && |bb| == 8 && InByte(crc, r, bb, 8)
    ensures crc < 0x1_0000 && ToBits(crc, 16) == Register(r, bb)
  {
    hide ToBits, Register;
    assert bb[..8] == bb;
    assert XorBits(Register(r, bb), [] + Falses(16)) == Register(r, bb);
  }

  lemma {:induction false} RegisterAppend(r: bits, a: bits, b: bits)
    requires |r| == 16
    ensures Register(r, a + b) == Register(Register(r, a), b)
    decreases |b|
  {
    if b == [] {
      assert a + b == a;
    } else {
      assert (a + b)[..|a + b| - 1] == a + b[..|b| - 1];
      RegisterAppend(r, a, b[..|b| - 1]);
    }
  }

  lemma RegisterByte(data: seq<byte>, i: nat)
    requires i < |data|
    ensures Register(Init(), ByteBits(data[..i + 1])) == Register(Register(Init(), ByteBits(data[..i])), ToBits(data[i], 8))
  {
    hide ToBits, Register, ByteBits;
    assert data[..i + 1] == data[..i] + [data[i]];
    ByteBitsAppend(data[..i], [data[i]]);
    OneByteBits(data[i]);
    RegisterAppend(Init(), ByteBits(data[..i]), ToBits(data[i], 8));
  }

  lemma InitWord()
    ensures ToBits(0xFFFF, 16) == Init()
    ensures Register(Init(), ByteBits([])) == Init()
  {
    AllOnes(16);
    Pow2Table();
  }

  lemma {:induction false} AllOnes(n: nat)
    ensures ToBits(Pow2(n) - 1, n) == seq(n, _ => true)
  {
    if n > 0 {
      var half := Pow2(n - 1);
      assert Pow2(n) == 2 * half;
      hide Pow2;
      assert (2 * half - 1) / 2 == half - 1 && (2 * half - 1) % 2 == 1;
      assert ToBits(2 * half - 1, n) == ToBits(half - 1, n - 1) + [true];
      hide ToBits;
      AllOnes(n - 1);
    }
  }

  lemma WordOf(crc: nat, s: bits)
    requires crc < 0x1_0000 && ToBits(crc, 16) == s
    ensures crc == BitsVal(s)
  {
    assert Pow2(16) == 0x1_0000 by { Pow2Table(); }
    ToBitsVal(crc, 16);
  }

  /** crc16_ccitt: whole bytes folded in, eight shifts each, is the bit-serial register. */
  method Crc16Ccitt(data: seq<byte>) returns (crc: nat)
    ensures crc == Crc(data)
  {
    hide ToBits, Register, ByteBits, BitXor, BitAnd, Pow2, BitsVal, InByte;
    crc := 0xFFFF;
    InitWord();
    assert data[..0] == [];
    for i := 0 to |data|
      invariant crc < 0x1_0000
      invariant ToBits(crc, 16) == Register(Init(), ByteBits(data[..i]))
    {
      ghost var r := Register(Init(), ByteBits(data[..i]));
      FoldByte(crc, data[i], r);
      crc := BitXor(crc, U16(data[i] as nat * 256));
      for j := 0 to 8
        invariant InByte(crc, r, ToBits(data[i], 8), j)
      {
        ShiftOnce(crc, r, ToBits(data[i], 8), j);
        if BitAnd(crc, 0x8000) != 0 {
          crc := BitXor(U16(2 * crc), POLY);
        } else {
          crc := U16(2 * crc);
        }
      }
      ByteDone(crc, r, ToBits(data[i], 8));
      RegisterByte(data, i);
    }
    assert data[..|data|] == data;
    WordOf(crc, Register(Init(), ByteBits(data)));
  }

  /** crc16_append: the checksum of the first `dataLen` bytes goes behind them. */
  method Append(buf: array<byte>, dataLen: nat)
    requires dataLen + 2 <= buf.Length
    modifies buf
    ensures buf[..dataLen + 2] == old(buf[..dataLen]) + CrcBytes(old(buf[..dataLen]))
    ensures buf[dataLen + 2..] == old(buf[dataLen + 2..])
  {
    hide Crc;
    var crc := Crc16Ccitt(buf[..dataLen]);
    buf[dataLen] := crc / 256 % 256;
    buf[dataLen + 1] := crc % 256;
  }

  /** crc16_validate. */
  method Validate(buf: seq<byte>) returns (ok: bool)
    ensures ok <==> Accepts(buf)
  {
    hide Accepts, Crc, CrcBytes;
    AcceptsLong(buf);
    if |buf| < 2 {
      return false;
    }
    var dataLen := |buf| - 2;
    var computed := Crc16Ccitt(buf[..dataLen]);
    var received := BitOr(buf[dataLen] as nat * 256, buf[dataLen + 1]);
    WordIsOr(buf[dataLen], buf[dataLen + 1]);
    AcceptsIff(buf);
    ok := computed == received;
  }

  lemma WordIsOr(hi: byte, lo: byte)
    ensures BitOr(hi as nat * 256, lo) == Word(hi, lo)
  {
    assert Pow2(8) == 256;
    BitOrDisjoint(hi, 8, lo);
  }

  lemma BytesOfWord(crc: nat, hi: byte, lo: byte)
    requires crc == Word(hi, lo)
    ensures ByteBits([hi, lo]) == ToBits(crc, 16)
  {
    OneByteBits(hi);
    OneByteBits(lo);
    SplitWord(crc, hi, lo);
    hide ByteBits, ToBits;
    ByteBitsAppend([hi], [lo]);
    assert [hi] + [lo] == [hi, lo];
  }

  lemma SplitWord(crc: nat, hi: byte, lo: byte)
    requires crc == Word(hi, lo)
    ensures ToBits(crc, 16) == ToBits(hi, 8) + ToBits(lo, 8)
  {
    assert Pow2(8) == 256;
    hide ToBits, Shr, Pow2;
    ToBitsSplit(crc, 8, 8);
    ShrMul(hi, lo, 8);
    DivUnique(crc, 256, hi, lo);
    ToBitsMod(crc, 8, 8);
  }

  /** Comparing the checksum, as the code does, is the same as running it through the register. */
  lemma AcceptsIff(frame: seq<byte>)
    requires |frame| >= 2
    ensures var n := |frame| - 2; Accepts(frame) <==> Crc(frame[..n]) == Word(frame[n], frame[n + 1])
  {
    var n := |frame| - 2;
    var r, sent := Register(Init(), ByteBits(frame[..n])), Word(frame[n], frame[n + 1]);
    assert frame == frame[..n] + [frame[n], frame[n + 1]];
    ByteBitsAppend(frame[..n], [frame[n], frame[n + 1]]);
    BytesOfWord(sent, frame[n], frame[n + 1]);
    RegisterAppend(Init(), ByteBits(frame[..n]), ToBits(sent, 16));
    assert Pow2(16) == 0x1_0000 by { Pow2Table(); }
    hide ToBits, ByteBits, Register, BitsVal, Pow2;
    ToBitsVal(sent, 16);
    ValToBits(r);
    if Accepts(frame) {
      ZeroAfter(r, ToBits(sent, 16));
      assert ToBits(sent, 16) + Falses(0) == ToBits(sent, 16);
    }
    if Crc(frame[..n]) == sent {
      ZeroRegister(r);
    }
  }

  lemma AcceptsLong(frame: seq<byte>)
    ensures |frame| < 2 ==> !Accepts(frame)
  {
  }

  // ---------------------------------------------------------------- what the register detects

  /** Undoing steps: from a zero register the message bits come back out at the top. */
  lemma {:induction false} ZeroAfter(r: bits, s: bits)
    requires |r| == 16 && |s| <= 16 && Register(r, s) == Falses(16)
    ensures r == s + Falses(16 - |s|)
    decreases |s|
  {
    if s != [] {
      RegisterAppend(r, s[..1], s[1..]);
      assert s == s[..1] + s[1..];
      OneStep(r, s[0]);
      assert s[..1] == [s[0]];
      var r' := StepBit(r, s[0]);
      ZeroAfter(r', s[1..]);
      UndoStep(r, s[0], s[1..]);
      assert s == [s[0]] + s[1..];
    }
  }

  lemma OneStep(r: bits, b: bool)
    requires |r| == 16
    ensures Register(r, [b]) == StepBit(r, b)
  {
    assert [b][..0] == [];
  }

  lemma LowBit(v: nat, n: nat)
    requires n > 0
    ensures ToBits(v, n)[n - 1] == (v % 2 == 1)
  {
  }

  lemma PolyBits()
    ensures ToBits(POLY, 16)[15]
  {
    hide ToBits;
    LowBit(POLY, 16);
  }

  lemma UndoStep(r: bits, b: bool, rest: bits)
    requires |r| == 16 && |rest| <= 15 && StepBit(r, b) == rest + Falses(16 - |rest|)
    ensures r == [b] + rest + Falses(15 - |rest|)
  {
    PolyBits();
    hide ToBits;
    assert !StepBit(r, b)[15];
    assert r[1..] + [false] == rest + Falses(16 - |rest|);
    assert r == [r[0]] + r[1..];
    assert (r[1..] + [false])[..15] == r[1..];
  }

  lemma {:induction false} ZeroRegister(r: bits)
    requires |r| == 16
    ensures Register(r, r) == Falses(16)
  {
    FeedTop(r, 16);
    assert r[..16] == r && r[16..] == [];
  }

  /** Feeding a register its own top `k` bits shifts them out. */
  lemma {:induction false} FeedTop(r: bits, k: nat)
    requires |r| == 16 && k <= 16
    ensures Register(r, r[..k]) == r[k..] + Falses(k)
  {
    hide ToBits;
    if k > 0 {
      FeedTop(r, k - 1);
      RegisterSnoc(r, r, k - 1);
    }
  }

  lemma XorShift(r: bits, q: bits)
    requires |r| == 16 && |q| == 16
    ensures XorBits(r, q)[1..] + [false] == XorBits(r[1..] + [false], q[1..] + [false])
  {
  }

  lemma StepLinear(r: bits, q: bits, b: bool, c: bool)
    requires |r| == 16 && |q| == 16
    ensures StepBit(XorBits(r, q), b != c) == XorBits(StepBit(r, b), StepBit(q, c))
  {
    hide ToBits;
    XorShift(r, q);
    var poly := ToBits(POLY, 16);
    var x, y := r[1..] + [false], q[1..] + [false];
    assert XorBits(XorBits(x, poly), XorBits(y, poly)) == XorBits(x, y);
    assert XorBits(XorBits(x, poly), y) == XorBits(XorBits(x, y), poly);
    assert XorBits(x, XorBits(y, poly)) == XorBits(XorBits(x, y), poly);
  }

  /** The register is linear in its start value and in the message. */
  lemma {:induction false} RegisterLinear(r: bits, q: bits, s: bits, t: bits)
    requires |r| == 16 && |q| == 16 && |s| == |t|
    ensures Register(XorBits(r, q), XorBits(s, t)) == XorBits(Register(r, s), Register(q, t))
    decreases |s|
  {
    hide StepBit;
    if s != [] {
      var n := |s| - 1;
      assert XorBits(s, t)[..n] == XorBits(s[..n], t[..n]);
      RegisterLinear(r, q, s[..n], t[..n]);
      StepLinear(Register(r, s[..n]), Register(q, t[..n]), s[n], t[n]);
    }
  }

  lemma XorZero(a: bits, b: bits)
    requires |a| == |b|
    ensures XorBits(a, b) == Falses(|a|) <==> a == b
  {
    if XorBits(a, b) == Falses(|a|) {
      forall i | 0 <= i < |a|
        ensures a[i] == b[i]
      {
        assert XorBits(a, b)[i] == (a[i] != b[i]);
      }
    }
  }

  /** The bits in which two frames differ. */
  function Difference(f: seq<byte>, g: seq<byte>): (e: bits)
    requires |f| == |g|
    ensures |e| == 8 * |f|
  {
    XorBits(ByteBits(f), ByteBits(g))
  }

  /** Damage goes unnoticed exactly when the damage pattern itself leaves a zero register at zero. */
  lemma UndetectedIff(f: seq<byte>, g: seq<byte>)
    requires Accepts(f) && |g| == |f|
    ensures Accepts(g) <==> Register(Falses(16), Difference(f, g)) == Falses(16)
  {
    hide ByteBits, Register;
    var r, q := Register(Init(), ByteBits(f)), Register(Init(), ByteBits(g));
    RegisterLinear(Init(), Init(), ByteBits(f), ByteBits(g));
    XorZero(Init(), Init());
    XorZero(r, q);
  }

  lemma {:induction false} ZeroStays(n: nat)
    ensures Register(Falses(16), Falses(n)) == Falses(16)
  {
    hide ToBits;
    if n > 0 {
      assert Falses(n)[..n - 1] == Falses(n - 1);
      ZeroStays(n - 1);
    }
  }

  /** Zeros fed in never turn a register into zero that was not. */
  lemma {:induction false} OnlyZeroVanishes(r: bits, n: nat)
    requires |r| == 16 && Register(r, Falses(n)) == Falses(16)
    ensures r == Falses(16)
  {
    if n > 0 {
      hide StepBit, ToBits;
      assert Falses(n)[..n - 1] == Falses(n - 1);
      var q := Register(r, Falses(n - 1));
      UndoStep(q, false, []);
      assert q == Falses(16);
      OnlyZeroVanishes(r, n - 1);
    }
  }

  lemma {:induction false} ByteBitsInjective(f: seq<byte>, g: seq<byte>)
    requires ByteBits(f) == ByteBits(g)
    ensures f == g
    decreases |f|
  {
    if f != [] {
      FrontByte(f);
      FrontByte(g);
      ByteBitsInjective(f[1..], g[1..]);
      assert f == [f[0]] + f[1..] && g == [g[0]] + g[1..];
    }
  }

  lemma FrontByte(f: seq<byte>)
    requires f != []
    ensures BitsVal(ByteBits(f)[..8]) == f[0] && ByteBits(f)[8..] == ByteBits(f[1..])
  {
    hide ToBits, BitsVal;
    assert ByteBits(f)[..8] == ToBits(f[0], 8);
    assert Pow2(8) == 256;
    ToBitsVal(f[0], 8);
  }

  /** The damage pattern as zeros, sixteen bits that hold all of it, zeros. */
  lemma SplitBurst(e: bits, a: nat)
    requires a + 16 <= |e| && forall i :: 0 <= i < |e| && e[i] ==> a <= i < a + 16
    ensures e == Falses(a) + e[a..a + 16] + Falses(|e| - a - 16)
  {
  }

  lemma BurstLeavesTrace(e: bits, a: nat)
    requires a + 16 <= |e| && (forall i :: 0 <= i < |e| && e[i] ==> a <= i < a + 16)
    requires Register(Falses(16), e) == Falses(16)
    ensures e == Falses(|e|)
  {
    hide Register, StepBit, ToBits;
    var mid, n := e[a..a + 16], |e| - a - 16;
    SplitBurst(e, a);
    RegisterAppend(Falses(16), Falses(a) + mid, Falses(n));
    RegisterAppend(Falses(16), Falses(a), mid);
    ZeroStays(a);
    OnlyZeroVanishes(Register(Falses(16), mid), n);
    ZeroAfter(Falses(16), mid);
    assert mid + Falses(0) == mid;
  }

  /** Any change confined to sixteen consecutive bits of an accepted frame is noticed. */
  lemma BurstDetected(f: seq<byte>, g: seq<byte>, a: nat)
    requires Accepts(f) && |g| == |f| && f != g
    requires forall i :: 0 <= i < 8 * |f| && Difference(f, g)[i] ==> a <= i < a + 16
    ensures !Accepts(g)
  {
    hide Register, ByteBits, StepBit;
    var e := Difference(f, g);
    AcceptsLong(f);
    UndetectedIff(f, g);
    if Accepts(g) {
      BurstLeavesTrace(e, if a + 16 <= |e| then a else |e| - 16);
      XorZero(ByteBits(f), ByteBits(g));
      ByteBitsInjective(f, g);
    }
  }

  /** What is sent is accepted. */
  lemma AppendedAccepted(data: seq<byte>)
    ensures Accepts(data + CrcBytes(data))
  {
    hide Accepts, Crc;
    var f := data + CrcBytes(data);
    assert f[..|f| - 2] == data;
    AcceptsIff(f);
  }

  /** True when an odd number of bits is set. */
  function Odd(s: bits): bool {
    if s == [] then false else Odd(s[..|s| - 1]) != s[|s| - 1]
  }

  lemma {:induction false} OddXor(a: bits, b: bits)
    requires |a| == |b|
    ensures Odd(XorBits(a, b)) == (Odd(a) != Odd(b))
    decreases |a|
  {
    if a != [] {
      var n := |a| - 1;
      assert XorBits(a, b)[..n] == XorBits(a[..n], b[..n]);
      OddXor(a[..n], b[..n]);
    }
  }

  lemma {:induction false} OddFront(s: bits)
    requires s != []
    ensures Odd(s) == (s[0] != Odd(s[1..]))
    decreases |s|
  {
    if |s| == 1 {
      assert s[..0] == [] && s[1..] == [];
    } else {
      var n := |s| - 1;
      OddFront(s[..n]);
      assert s[..n][1..] == s[1..][..n - 1];
    }
  }

  lemma OddPoly()
    ensures Odd(ToBits(POLY, 16))
  {
    hide ToBits, Odd, OddBits;
    OddWord(POLY, 16);
    OddLow(4129, 16);
    OddLow(2064, 15);
    OddLow(1032, 14);
    OddLow(516, 13);
    OddLow(258, 12);
    OddLow(129, 11);
    OddLow(64, 10);
    OddLow(32, 9);
    OddLow(16, 8);
    OddLow(8, 7);
    OddLow(4, 6);
    OddLow(2, 5);
    OddLow(1, 4);
    NoneOdd(3);
  }

  lemma OddLow(v: nat, n: nat)
    requires n > 0
    ensures OddBits(v, n) == (OddBits(v / 2, n - 1) != (v % 2 == 1))
  {
  }

  lemma {:induction false} NoneOdd(n: nat)
    ensures !OddBits(0, n)
  {
    if n > 0 {
      NoneOdd(n - 1);
    }
  }

  /** `Odd` of a word, counted on the number. */
  function OddBits(v: nat, n: nat): bool {
    if n == 0 then false else OddBits(v / 2, n - 1) != (v % 2 == 1)
  }

  lemma {:induction false} OddWord(v: nat, n: nat)
    ensures Odd(ToBits(v, n)) == OddBits(v, n)
  {
    if n > 0 {
      OddWord(v / 2, n - 1);
      assert ToBits(v, n)[..n - 1] == ToBits(v / 2, n - 1);
    }
  }

  lemma OddStep(r: bits, b: bool)
    requires |r| == 16
    ensures Odd(StepBit(r, b)) == (Odd(r) != b)
  {
    OddPoly();
    hide ToBits, Odd;
    OddFront(r);
    OddSnocZero(r[1..]);
    OddXor(r[1..] + [false], ToBits(POLY, 16));
  }

  lemma OddSnocZero(s: bits)
    ensures Odd(s + [false]) == Odd(s)
  {
    assert (s + [false])[..|s|] == s;
  }

  lemma {:induction false} OddRegister(r: bits, s: bits)
    requires |r| == 16
    ensures Odd(Register(r, s)) == (Odd(r) != Odd(s))
    decreases |s|
  {
    if s != [] {
      hide StepBit;
      OddRegister(r, s[..|s| - 1]);
      OddStep(Register(r, s[..|s| - 1]), s[|s| - 1]);
    }
  }

  /** Any odd number of flipped bits, wherever they are, is noticed: x + 1 divides the polynomial. */
  lemma OddErrorsDetected(f: seq<byte>, g: seq<byte>)
    requires Accepts(f) && |g| == |f| && Odd(Difference(f, g))
    ensures !Accepts(g)
  {
    hide Register, ByteBits;
    UndetectedIff(f, g);
    OddRegister(Falses(16), Difference(f, g));
    OddZero(16);
  }

  lemma {:induction false} OddZero(n: nat)
    ensures !Odd(Falses(n))
  {
    if n > 0 {
      assert Falses(n)[..n - 1] == Falses(n - 1);
      OddZero(n - 1);
    }
  }

  // ---------------------------------------------------------------- which polynomial it is

  lemma PolyValue()
    ensures ToBits(POLY, 16) == ToBits(0x1021, 16)
    ensures forall i :: 0 <= i < 16 ==> (ToBits(POLY, 16)[i] <==> i == 3 || i == 10 || i == 15)
  {
    hide ToBits, Shr;
    forall i | 0 <= i < 16
      ensures ToBits(POLY, 16)[i] <==> i == 3 || i == 10 || i == 15
    {
      ToBitsAt(POLY, 16, i);
      PolyShifts(15 - i);
    }
  }

  lemma {:induction false} ShrTwice(v: nat, j: nat, k: nat)
    ensures Shr(v, j + k) == Shr(Shr(v, j), k)
  {
    if j > 0 {
      ShrTwice(v / 2, j - 1, k);
    }
  }

  lemma ShrFive(v: nat)
    ensures Shr(v, 5) == v / 32
  {
    assert Pow2(5) == 32 by { Pow2Table(); }
    hide Shr, Pow2;
    ShrMul(v / 32, v % 32, 5);
  }

  /** The low bits of the polynomial, and of it shifted by five and by ten. */
  lemma LowFive(v: nat, k: nat)
    requires (v == 0x1021 || v == 0x81 || v == 4) && k < 5
    ensures Shr(v, k) % 2 == 1 <==> if v == 4 then k == 2 else k == 0
  {
    assert k == 0 || k == 1 || k == 2 || k == 3 || k == 4;
  }

  lemma PolyShifts(k: nat)
    requires k < 16
    ensures Shr(POLY, k) % 2 == 1 <==> k == 0 || k == 5 || k == 12
  {
    hide Shr;
    ShrFive(0x1021);
    ShrFive(0x81);
    ShrFive(4);
    if k < 5 {
      LowFive(0x1021, k);
    } else if k < 10 {
      ShrTwice(0x1021, 5, k - 5);
      LowFive(0x81, k - 5);
    } else if k < 15 {
      ShrTwice(0x1021, 5, k - 5);
      ShrTwice(0x81, 5, k - 10);
      LowFive(4, k - 10);
    } else {
      ShrTwice(0x1021, 5, 10);
      ShrTwice(0x81, 5, 5);
    }
  }

  /** The terms of x^16 + x^12 + x^5 + 1, highest first. */
  predicate IsPolynomial(e: bits) {
    |e| == 17 && forall i :: 0 <= i < 17 ==> (e[i] <==> i == 0 || i == 4 || i == 11 || i == 16)
  }

  lemma FeedOne()
    ensures Register(Falses(16), [true]) == ToBits(POLY, 16)
  {
    OneStep(Falses(16), true);
    hide ToBits;
    var shifted := Falses(16)[1..] + [false];
    assert shifted == Falses(16);
  }

  /** Of all 17-bit patterns that begin with a one, the register fails to notice just this polynomial. */
  lemma OnlyThePolynomialIsUnseen(e: bits)
    requires |e| == 17 && e[0]
    ensures Register(Falses(16), e) == Falses(16) <==> IsPolynomial(e)
    ensures Register(Falses(16), e) == Falses(16) <==> e[1..] == ToBits(0x1021, 16)
  {
    hide Register, ToBits;
    PolyValue();
    FeedOne();
    var rest := e[1..];
    assert e == [true] + rest;
    RegisterAppend(Falses(16), [true], rest);
    if Register(ToBits(POLY, 16), rest) == Falses(16) {
      ZeroAfter(ToBits(POLY, 16), rest);
      assert ToBits(POLY, 16) == rest + Falses(0) == rest;
    }
    if rest == ToBits(POLY, 16) {
      ZeroRegister(rest);
    }
    assert IsPolynomial(e) <==> rest == ToBits(POLY, 16) by {
      assert forall i :: 0 <= i < 16 ==> rest[i] == e[i + 1];
      assert forall i :: 1 <= i < 17 ==> e[i] == rest[i - 1];
    }
  }

  /**
   * So the burst law is sharp: of the changes to an accepted frame that span 17 bits, exactly those
   * that flip the bits of the polynomial go unnoticed, wherever they are.
   */
  lemma WiderBurstUnseenIff(f: seq<byte>, g: seq<byte>, a: nat, mid: bits, n: nat)
    requires Accepts(f) && |g| == |f| && |mid| == 17 && mid[0]
    requires Difference(f, g) == Falses(a) + mid + Falses(n)
    ensures Accepts(g) <==> IsPolynomial(mid)
  {
    hide Register, Accepts, IsPolynomial, Difference, ToBits;
    UndetectedIff(f, g);
    RegisterAppend(Falses(16), Falses(a) + mid, Falses(n));
    RegisterAppend(Falses(16), Falses(a), mid);
    ZeroStays(a);
    OnlyThePolynomialIsUnseen(mid);
    if Register(Register(Falses(16), mid), Falses(n)) == Falses(16) {
      OnlyZeroVanishes(Register(Falses(16), mid), n);
    }
    ZeroStays(n);
  }

  // ---------------------------------------------------------------- the initial value

  /** The register starts at sixteen ones, which is what no data at all leaves. */
  lemma CrcOfNothing()
    ensures Crc([]) == 0xFFFF && CrcBytes([]) == [0xFF, 0xFF]
  {
    hide ToBits, BitsVal, Register;
    InitWord();
    assert Pow2(16) == 0x1_0000 by { Pow2Table(); }
    hide Pow2;
    ToBitsVal(0xFFFF, 16);
  }
}
