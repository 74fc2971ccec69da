/** The streaming decompressor: sink compressed bytes, poll decompressed ones, stop anywhere and resume. */
module HsDecoder {
  import opened Bits
  import opened Lzss
  import opened Output

  datatype State =
    | TagBit
    | YieldLiteral
    | BackrefIndexMsb
    | BackrefIndexLsb
    | BackrefCountMsb
    | BackrefCountLsb
    | YieldBackref

  datatype SinkRes = SinkOk | SinkFull
  datatype PollRes = PollEmpty | PollMore
  datatype FinishRes = FinishDone | FinishMore

  const NO_BITS: nat := 0xFFFF

  // ---------------------------------------------------------------- the ring

  /** `x & ((1 << w) - 1)` on a two's complement int, so also for negative `x`. */
  function Mask(x: int, w: nat): (r: nat)
    ensures r < Pow2(w)
  {
    x % Pow2(w)
  }

  /** The ring holds the last 2^w bytes of the history, each at its position modulo 2^w. */
  ghost predicate RingHolds(w: nat, win: seq<byte>, h: seq<byte>) {
    && |win| == Pow2(w) <= |h|
    && forall k :: |h| - Pow2(w) <= k < |h| ==> win[Mask(k, w)] == h[k]
  }

  lemma CopyNone(h: seq<byte>, dist: nat)
    requires 1 <= dist <= |h|
    ensures Copy(h, dist, 0) == h
  {
  }

  lemma ZeroRing(w: nat, win: seq<byte>)
    requires |win| == Pow2(w) && forall i :: 0 <= i < |win| ==> win[i] == 0
    ensures RingHolds(w, win, Zeros(Pow2(w)))
  {
  }

  lemma ModShift(x: int, y: int, n: nat)
    requires n > 0 && x % n == y % n && x - n < y <= x
    ensures x == y
  {
    var p, q := x / n, y / n;
    assert x == n * p + x % n && y == n * q + x % n;
    if q < p {
      MulMono(n, q + 1, p);
    } else if p < q {
      MulMono(n, p + 1, q);
    }
  }

  lemma RingPush(w: nat, win: seq<byte>, h: seq<byte>, c: byte)
    requires RingHolds(w, win, h)
    ensures RingHolds(w, win[Mask(|h|, w) := c], h + [c])
  {
    var win', h' := win[Mask(|h|, w) := c], h + [c];
    forall k | |h'| - Pow2(w) <= k < |h'|
      ensures win'[Mask(k, w)] == h'[k]
    {
      if k < |h| && Mask(k, w) == Mask(|h|, w) {
        ModShift(|h|, k, Pow2(w));
      }
    }
  }

  lemma Congruent(a: int, b: int, p: nat, k: int)
    requires p > 0 && a == b + p * k
    ensures a % p == b % p
  {
    DivUnique(a, p, b / p + k, b % p);
  }

  lemma MulAssoc(a: nat, b: nat, c: nat)
    ensures a * (1 + b * c) == a + a * b * c
  {
  }

  /** A 16-bit head index addresses the same ring slot as an unbounded one would. */
  lemma HeadIndexWraps(w: nat, head: nat, n: nat, d: int)
    requires w <= 16 && head == U16(n)
    ensures Mask(head - d, w) == Mask(Pow2(w) + n - d, w)
  {
    var p, c, q := Pow2(w), Pow2(16 - w), n / 0x1_0000;
    assert p * c == 0x1_0000 by {
      Pow2Add(w, 16 - w);
      Pow2Table();
    }
    hide Pow2;
    MulAssoc(p, c, q);
    Congruent(p + n - d, head - d, p, 1 + c * q);
  }

  // ---------------------------------------------------------------- the bits of a token read so far

  /** What the field values say has been read of the current token. */
  ghost predicate FieldsOk(w: nat, l: nat, s: State, index: nat, count: nat) {
    match s
    case BackrefIndexMsb => w > 8
    case BackrefIndexLsb => if w > 8 then index % 256 == 0 && index / 256 < Pow2(w - 8) else index == 0
    case BackrefCountMsb => l > 8 && 1 <= index <= Pow2(w) && count == 0
    case BackrefCountLsb => 1 <= index <= Pow2(w) &&
      if l > 8 then count % 256 == 0 && count / 256 < Pow2(l - 8) else count == 0
    case YieldBackref => 1 <= index <= Pow2(w) && 1 <= count <= Pow2(l)
    case _ => true
  }

  ghost function Partial(w: nat, l: nat, s: State, index: nat, count: nat): bits
    requires FieldsOk(w, l, s, index, count)
  {
    match s
    case TagBit => []
    case YieldLiteral => [true]
    case BackrefIndexMsb => [false]
    case BackrefIndexLsb => [false] + if w > 8 then ToBits(index / 256, w - 8) else []
    case BackrefCountMsb => [false] + ToBits(index - 1, w)
    case BackrefCountLsb => [false] + ToBits(index - 1, w) + if l > 8 then ToBits(count / 256, l - 8) else []
    case YieldBackref => []
  }

  /** What the output will be once the current copy is finished. */
  ghost function AfterCopy(w: nat, l: nat, s: State, index: nat, count: nat, h: seq<byte>): seq<byte>
    requires FieldsOk(w, l, s, index, count) && |h| >= Pow2(w)
  {
    if s == YieldBackref then Copy(h, index, count) else h
  }

  lemma JoinBits(n: nat, high: nat, low: bits)
    requires n >= 8 && |low| == 8
    ensures ToBits(high * 256 + BitsVal(low), n) == ToBits(high, n - 8) + low
  {
    var v := high * 256 + BitsVal(low);
    assert Pow2(8) == 256;
    ShrMul(high, BitsVal(low), 8);
    LowBits(high, low, v);
    hide *;
    ToBitsSplit(v, n - 8, 8);
    assert n - 8 + 8 == n;
  }

  /** Eight more bits below a high part. */
  lemma JoinField(n: nat, high: nat, low: bits)
    requires n >= 8 && |low| == 8 && high < Pow2(n - 8)
    ensures high * 256 + BitsVal(low) < Pow2(n)
    ensures ToBits(high * 256 + BitsVal(low), n) == ToBits(high, n - 8) + low
    ensures BitOr(high * 256, BitsVal(low)) == high * 256 + BitsVal(low)
  {
    assert Pow2(8) == 256 && BitsVal(low) < 256;
    hide *;
    Pow2Add(n - 8, 8);
    assert n - 8 + 8 == n;
    BitOrDisjoint(high, 8, BitsVal(low));
    JoinBits(n, high, low);
  }

  lemma LowBits(high: nat, low: bits, v: nat)
    requires |low| == 8 && v == high * 256 + BitsVal(low)
    ensures ToBits(v, 8) == low
  {
    assert v % Pow2(8) == BitsVal(low) by {
      assert Pow2(8) == 256;
      hide Pow2;
      DivUnique(v, 256, high, BitsVal(low));
    }
    ToBitsMod(v, 8, 8);
    ValToBits(low);
  }

  /** A field is complete once its low bits are there. */
  lemma CompleteField(n: nat, part: nat, low: bits)
    requires |low| == Min(n, 8)
    requires if n > 8 then part % 256 == 0 && part / 256 < Pow2(n - 8) else part == 0
    ensures BitOr(part, BitsVal(low)) < Pow2(n)
    ensures ToBits(BitOr(part, BitsVal(low)), n) == (if n > 8 then ToBits(part / 256, n - 8) else []) + low
  {
    if n > 8 {
      JoinField(n, part / 256, low);
    } else {
      ValToBits(low);
    }
  }

  /** Bits read go from the unread end to the partial token; the whole stream stays the same. */
  lemma MoveBits(total: bits, done: bits, part: bits, rest: bits, c: nat)
    requires total == done + part + rest && c <= |rest|
    ensures total == done + (part + rest[..c]) + rest[c..]
  {
    assert rest == rest[..c] + rest[c..];
  }

  /** The same when the bits read complete a token. */
  lemma FinishBits(total: bits, done: bits, part: bits, rest: bits)
    requires total == done + part + rest
    ensures total == (done + part) + [] + rest
  {
  }

  lemma AppendAssoc(bit: bool, a: bits, b: bits, c: bits)
    ensures ([bit] + a + b) + c == [bit] + a + (b + c)
  {
  }

  /** The high bits of a field, as the decoder stores them: shifted left by eight. */
  lemma HighPart(s: bits)
    requires |s| <= 7
    ensures BitsVal(s) * 256 < 0x1_0000 && BitsVal(s) * 256 / 256 == BitsVal(s) < Pow2(|s|)
    ensures BitsVal(s) * 256 % 256 == 0
    ensures ToBits(BitsVal(s) * 256 / 256, |s|) == s
  {
    ValToBits(s);
    SmallVal(s);
  }

  lemma SmallField(n: nat)
    requires n <= 15
    ensures Pow2(n) <= 0x8000
  {
    hide Pow2;
    Pow2Mono(n, 16);
    Pow2Table();
  }

  lemma OneBit(s: bits)
    requires |s| == 1
    ensures s == [BitsVal(s) != 0]
  {
    assert s[..0] == [];
  }

  /** The state after the distance is read. */
  function CountState(l: nat): State {
    if l > 8 then BackrefCountMsb else BackrefCountLsb
  }

  /** Reading the low part of the distance. */
  lemma IndexComplete(w: nat, l: nat, total: bits, done: bits, index: nat, count: nat, rest: bits)
    requires ValidSizes(w, l) && FieldsOk(w, l, BackrefIndexLsb, index, count) && Min(w, 8) <= |rest|
    requires total == done + Partial(w, l, BackrefIndexLsb, index, count) + rest
    ensures var v := BitOr(index, BitsVal(rest[..Min(w, 8)]));
      && v < 0x8000
      && FieldsOk(w, l, CountState(l), v + 1, 0)
      && total == done + Partial(w, l, CountState(l), v + 1, 0) + rest[Min(w, 8)..]
  {
    var c := Min(w, 8);
    var part := Partial(w, l, BackrefIndexLsb, index, count);
    var v := BitOr(index, BitsVal(rest[..c]));
    CompleteField(w, index, rest[..c]);
    SmallField(w);
    hide ToBits, BitsVal, BitOr, Pow2;
    MoveBits(total, done, part, rest, c);
    ConsAssoc(false, if w > 8 then ToBits(index / 256, w - 8) else [], rest[..c]);
    assert part + rest[..c] == Partial(w, l, CountState(l), v + 1, 0);
  }

  lemma CountBits(w: nat, l: nat, index: nat, count: nat, low: bits)
    requires ValidSizes(w, l) && FieldsOk(w, l, BackrefCountLsb, index, count) && |low| == Min(l, 8)
    ensures var v := BitOr(count, BitsVal(low)); var t := Backref(index, v + 1);
      && v < 0x8000 && FieldsOk(w, l, YieldBackref, index, v + 1)
      && TokenOk(w, l, t)
      && Partial(w, l, BackrefCountLsb, index, count) + low == TokenBits(w, l, t)
  {
    hide ToBits, BitsVal, BitOr, Pow2;
    var v := BitOr(count, BitsVal(low));
    CompleteField(l, count, low);
    SmallField(l);
    var high := if l > 8 then ToBits(count / 256, l - 8) else [];
    AppendAssoc(false, ToBits(index - 1, w), high, low);
    assert ToBits(v, l) == high + low;
    assert Partial(w, l, BackrefCountLsb, index, count) == [false] + ToBits(index - 1, w) + high;
    assert Partial(w, l, BackrefCountLsb, index, count) + low == TokenBits(w, l, Backref(index, v + 1));
  }

  /** Reading the low part of the length, which completes a back-reference. */
  lemma CountComplete(w: nat, l: nat, total: bits, ts: seq<Token>, index: nat, count: nat, rest: bits)
    requires ValidSizes(w, l) && FieldsOk(w, l, BackrefCountLsb, index, count) && Min(l, 8) <= |rest|
    requires TokensOk(w, l, ts)
    requires total == TokensBits(w, l, ts) + Partial(w, l, BackrefCountLsb, index, count) + rest
    ensures var v := BitOr(count, BitsVal(rest[..Min(l, 8)])); var t := Backref(index, v + 1);
      && v < 0x8000 && FieldsOk(w, l, YieldBackref, index, v + 1)
      && TokenOk(w, l, t) && TokensOk(w, l, ts + [t])
      && total == TokensBits(w, l, ts + [t]) + Partial(w, l, YieldBackref, index, v + 1) + rest[Min(l, 8)..]
  {
    hide ToBits, BitsVal, BitOr, Pow2, TokensBits, TokenBits;
    var c := Min(l, 8);
    var part := Partial(w, l, BackrefCountLsb, index, count);
    var t := Backref(index, BitOr(count, BitsVal(rest[..c])) + 1);
    CountBits(w, l, index, count, rest[..c]);
    MoveBits(total, TokensBits(w, l, ts), part, rest, c);
    TokensSnoc(w, l, ts, t);
    FinishBits(total, TokensBits(w, l, ts), part + rest[..c], rest[c..]);
  }

  /** Eight bits after a literal marker make a literal token. */
  lemma LiteralComplete(w: nat, l: nat, total: bits, ts: seq<Token>, rest: bits)
    requires |rest| >= 8 && TokensOk(w, l, ts)
    requires total == TokensBits(w, l, ts) + [true] + rest
    ensures var v := BitsVal(rest[..8]);
      && v < 256 && Mask(v, 8) == v
      && TokensOk(w, l, ts + [Literal(v)])
      && total == TokensBits(w, l, ts + [Literal(v)]) + [] + rest[8..]
  {
    hide BitsVal, ToBits, TokensBits;
    SmallByte(rest[..8]);
    ValToBits(rest[..8]);
    assert Pow2(8) == 256;
    TokensSnoc(w, l, ts, Literal(BitsVal(rest[..8])));
    MoveBits(total, TokensBits(w, l, ts), [true], rest, 8);
    FinishBits(total, TokensBits(w, l, ts), [true] + rest[..8], rest[8..]);
  }

  lemma SinkBits(sunk: seq<byte>, more: seq<byte>, read: bits, current: bits, pending: seq<byte>)
    requires ByteBits(sunk) == read + (current + ByteBits(pending))
    ensures ByteBits(sunk + more) == read + (current + ByteBits(pending + more))
  {
    hide ByteBits;
    ByteBitsAppend(sunk, more);
    ByteBitsAppend(pending, more);
  }

  lemma PrefixTail(z: seq<byte>, e: seq<byte>, r: seq<byte>)
    requires z + e <= r
    ensures e <= r[|z|..]
  {
    assert r[|z|..][..|e|] == (z + e)[|z|..] == e;
  }

  lemma SplitOut(all: seq<byte>, head: seq<byte>, out: seq<byte>)
    requires all == head + out
    ensures all[..|head|] == head && all[|head|..] == out
  {
  }

  /** A copy under way is the last token's, and no more than its length is left of it. */
  predicate CopyOk(ts: seq<Token>, count: nat) {
    ts != [] && ts[|ts| - 1].Backref? && count <= ts[|ts| - 1].len
  }

  /** How many bits a reading state asks for at once. */
  function Need(w: nat, l: nat, s: State): int {
    match s
    case TagBit => 1
    case YieldLiteral => 8
    case BackrefIndexMsb => w - 8
    case BackrefIndexLsb => Min(w, 8)
    case BackrefCountMsb => l - 8
    case BackrefCountLsb => Min(l, 8)
    case YieldBackref => 0
  }

  /** A state that cannot get its bits is in the middle of a token that is not all there. */
  lemma StuckIncomplete(w: nat, l: nat, s: State, index: nat, count: nat, rest: bits)
    requires FieldsOk(w, l, s, index, count) && s != YieldBackref && |rest| < Need(w, l, s)
    ensures ParseToken(w, l, Partial(w, l, s, index, count) + rest) == Incomplete
  {
    hide ToBits, BitsVal, Pow2;
    assert s != TagBit ==> (Partial(w, l, s, index, count) + rest)[0] == (s == YieldLiteral);
  }

  /** The part of the stream decoded into tokens, then the bits of one token that is not all there. */
  lemma DecodeStuck(w: nat, l: nat, ts: seq<Token>, part: bits, rest: bits, stream: bits)
    requires TokensOk(w, l, ts) && stream == TokensBits(w, l, ts) + part + rest
    requires ParseToken(w, l, part + rest) == Incomplete
    ensures Decode(w, l, Zeros(Pow2(w)), stream) == Expand(w, l, Zeros(Pow2(w)), ts)
  {
    hide TokensBits, Expand, Zeros, ParseToken;
    DecodeTokens(w, l, Zeros(Pow2(w)), ts, part + rest);
    assert stream == TokensBits(w, l, ts) + (part + rest);
  }

  // ---------------------------------------------------------------- single bits

  /** `bit_index` when `avail` bits of the current byte are still unread. */
  function BitIndexAt(avail: nat): nat {
    if avail == 0 then 0 else Pow2(avail - 1)
  }

  lemma BitIndexCompare(avail: nat, count: nat)
    requires count >= 1
    ensures BitIndexAt(avail) < Pow2(count - 1) <==> avail < count
  {
    if avail > 0 {
      if avail < count {
        Pow2Mono(avail - 1, count - 1);
      } else if count < avail {
        Pow2Mono(count - 1, avail - 1);
      }
    }
  }

  lemma ValSnoc(s: bits, i: nat)
    requires i < |s|
    ensures BitsVal(s[..i + 1]) == 2 * BitsVal(s[..i]) + if s[i] then 1 else 0
  {
    assert s[..i + 1][..i] == s[..i];
  }

  lemma SmallVal(s: bits)
    requires |s| < 8
    ensures BitsVal(s) < 128
  {
    assert Pow2(7) == 128;
    if |s| < 7 {
      Pow2Mono(|s|, 7);
    }
  }

  lemma SmallByte(s: bits)
    requires |s| <= 8
    ensures BitsVal(s) < 256
  {
    assert Pow2(8) == 256;
    if |s| < 8 {
      Pow2Mono(|s|, 8);
    }
  }

  lemma AccumulateBit(rest: bits, i: nat, bit: bool, after: bits, acc: nat)
    requires i < 8 && i < |rest| && rest[i..] == [bit] + after
    requires acc == BitsVal(rest[..i])
    ensures after == rest[i + 1..]
    ensures BitsVal(rest[..i + 1]) == if bit then BitOr(U16(2 * acc), 0x01) else U16(2 * acc)
  {
    assert rest[i..][0] == rest[i] && rest[i..][1..] == rest[i + 1..];
    ValSnoc(rest, i);
    SmallVal(rest[..i]);
    assert Pow2(1) == 2;
    hide *;
    BitOrDisjoint(acc, 1, 1);
  }

  lemma ConsAssoc(bit: bool, a: bits, b: bits)
    ensures ([bit] + a) + b == [bit] + (a + b)
  {
  }

  lemma HalfIndex(avail: nat)
    requires avail >= 1
    ensures Shr(BitIndexAt(avail), 1) == BitIndexAt(avail - 1)
  {
    assert Shr(BitIndexAt(avail), 1) == Shr(BitIndexAt(avail) / 2, 0);
  }

  class Decoder {
    const w: nat                // window_sz2
    const l: nat                // lookahead_sz2
    const inputBufferSize: nat
    const buffers: array<byte>  // the input buffer, then the expansion window
    var inputSize: nat
    var inputIndex: nat
    var outputCount: nat
    var outputIndex: nat
    var headIndex: nat
    var state: State
    var currentByte: byte
    var bitIndex: nat

    ghost var avail: nat          // unread bits of currentByte
    ghost var sunk: seq<byte>     // every byte accepted since the last reset
    ghost var emitted: seq<byte>  // every byte produced since the last reset
    ghost var tokens: seq<Token>  // the tokens read completely

    ghost predicate InputOk()
      reads `inputSize, `inputIndex, `bitIndex, `avail
    {
      && ValidSizes(w, l) && 1 <= inputBufferSize < 0x1_0000
      && buffers.Length == inputBufferSize + Pow2(w)
      && inputSize <= inputBufferSize
      && (if inputSize == 0 then inputIndex == 0 else inputIndex < inputSize)
      && avail <= 8 && bitIndex == BitIndexAt(avail)
    }

    /** The bits sunk but not read yet. */
    ghost function Rest(): bits
      reads `inputSize, `inputIndex, `bitIndex, `avail, `currentByte, buffers
      requires InputOk()
    {
      ToBits(currentByte, avail) + ByteBits(buffers[inputIndex..inputSize])
    }

    method PullByte()
      requires InputOk() && inputSize != 0 && avail == 0
      modifies `inputSize, `inputIndex, `bitIndex, `avail, `currentByte
      ensures InputOk() && avail == 8
      ensures Rest() == old(Rest())
      ensures inputSize == 0 || inputSize == old(inputSize)
    {
      ghost var pending := buffers[inputIndex..inputSize];
      currentByte := buffers[inputIndex];
      inputIndex := inputIndex + 1;
      assert pending[0] == currentByte && pending[1..] == buffers[inputIndex..inputSize];
      if inputIndex == inputSize {
        inputIndex := 0;
        inputSize := 0;
      }
      assert pending[1..] == buffers[inputIndex..inputSize];
      assert ByteBits(pending) == ToBits(currentByte, 8) + ByteBits(pending[1..]);
      bitIndex, avail := 0x80, 8;
      assert Pow2(7) == 0x80;
    }

    lemma FrontBit()
      requires InputOk() && avail > 0
      ensures bitIndex != 0 && Shr(bitIndex, 1) == BitIndexAt(avail - 1)
      ensures Rest() == [BitAnd(currentByte, bitIndex) != 0] +
        (ToBits(currentByte, avail - 1) + ByteBits(buffers[inputIndex..inputSize]))
    {
      hide ToBits, ByteBits, Pow2, BitAnd, Shr;
      TakeBit(currentByte, avail);
      HalfIndex(avail);
      ConsAssoc(BitAnd(currentByte, bitIndex) != 0, ToBits(currentByte, avail - 1),
        ByteBits(buffers[inputIndex..inputSize]));
    }

    lemma NoBitLeft()
      requires InputOk()
      ensures bitIndex == 0x00 <==> avail == 0
      ensures avail == 0 && Rest() != [] ==> inputSize != 0
    {
    }

    /** One bit off the front; a request that has started never runs out. */
    method NextBit() returns (bit: bool)
      requires InputOk() && Rest() != []
      modifies `inputSize, `inputIndex, `bitIndex, `avail, `currentByte
      ensures InputOk() && avail <= 7
      ensures old(Rest()) == [bit] + Rest()
      ensures inputSize == 0 || inputSize == old(inputSize)
    {
      hide ToBits, ByteBits, Pow2, BitAnd, Shr;
      NoBitLeft();
      if bitIndex == 0x00 {
        PullByte();
      }
      FrontBit();
      bit := BitAnd(currentByte, bitIndex) != 0;
      bitIndex, avail := Shr(bitIndex, 1), avail - 1;
    }

    /** The next `count` bits, or NO_BITS and no change at all when fewer than `count` are there. */
    method GetBits(count: nat) returns (r: nat)
      requires InputOk() && 1 <= count <= 8
      modifies `inputSize, `inputIndex, `bitIndex, `avail, `currentByte
      ensures InputOk() && (old(avail) <= 7 ==> avail <= 7)
      ensures inputSize == 0 || inputSize == old(inputSize)
      ensures r == NO_BITS <==> |old(Rest())| < count
      ensures r == NO_BITS ==> Rest() == old(Rest()) && inputSize == 0
      ensures r != NO_BITS ==> r == BitsVal(old(Rest())[..count]) && Rest() == old(Rest())[count..]
    {
      ghost var rest := Rest();
      BitIndexCompare(avail, count);
      if inputSize == 0 {
        if bitIndex < Pow2(count - 1) {
          return NO_BITS;
        }
      }
      assert |rest| >= count;
      assert rest[..0] == [] && rest[0..] == rest;
      hide BitsVal, ToBits, ByteBits, Pow2, BitOr;
      var accumulator := 0;
      for i := 0 to count
        invariant InputOk() && (old(avail) <= 7 ==> avail <= 7)
        invariant inputSize == 0 || inputSize == old(inputSize)
        invariant accumulator == BitsVal(rest[..i])
        invariant Rest() == rest[i..]
      {
        var bit := NextBit();
        AccumulateBit(rest, i, bit, Rest(), accumulator);
        accumulator := U16(2 * accumulator);
        if bit {
          accumulator := BitOr(accumulator, 0x01);
        }
      }
      r := accumulator;
      SmallByte(rest[..count]);
    }

    // -------------------------------------------------------------- invariant

    ghost predicate StreamOk(s: State)
      reads `inputSize, `inputIndex, `bitIndex, `avail, `currentByte, buffers, `outputIndex, `outputCount, `tokens,
        `sunk
    {
      && InputOk() && avail <= 7
      && FieldsOk(w, l, s, outputIndex, outputCount)
      && TokensOk(w, l, tokens)
      && ByteBits(sunk) == TokensBits(w, l, tokens) + Partial(w, l, s, outputIndex, outputCount) + Rest()
    }

    ghost function History(): (h: seq<byte>)
      reads `emitted
      ensures |h| == Pow2(w) + |emitted|
    {
      Zeros(Pow2(w)) + emitted
    }

    ghost predicate WindowOk()
      reads `headIndex, `emitted, buffers
    {
      && buffers.Length == inputBufferSize + Pow2(w)
      && RingHolds(w, buffers[inputBufferSize..], History())
      && headIndex == U16(|emitted|)
    }

    ghost predicate OutputOk(s: State)
      reads `headIndex, `emitted, buffers, `outputIndex, `outputCount, `tokens
    {
      && WindowOk()
      && FieldsOk(w, l, s, outputIndex, outputCount)
      && TokensOk(w, l, tokens)
      && Expand(w, l, Zeros(Pow2(w)), tokens) == AfterCopy(w, l, s, outputIndex, outputCount, History())
      && (s == YieldBackref ==> CopyOk(tokens, outputCount))
    }

    ghost predicate ValidAt(s: State)
      reads `inputSize, `inputIndex, `bitIndex, `avail, `currentByte, buffers
      reads `headIndex, `emitted, `outputIndex, `outputCount, `tokens, `sunk
    {
      StreamOk(s) && OutputOk(s)
    }

    ghost predicate Valid()
      reads this, buffers
    {
      ValidAt(state)
    }

    // -------------------------------------------------------------- reading states

    method StTagBit() returns (s: State)
      requires ValidAt(TagBit)
      modifies `inputSize, `inputIndex, `bitIndex, `avail, `currentByte, `outputIndex
      ensures ValidAt(s) && (inputSize == 0 || inputSize == old(inputSize))
      ensures s == TagBit <==> |old(Rest())| < 1
      ensures s == TagBit ==> Rest() == old(Rest()) && inputSize == 0
      ensures s != TagBit ==> s != YieldBackref && |Rest()| < |old(Rest())|
    {
      hide ToBits, BitsVal, ByteBits, TokensBits, RingHolds, Expand, Copy, Zeros, Pow2, InputOk, Rest, History,
        WindowOk;
      ghost var rest := Rest();
      var b := GetBits(1);
      if b == NO_BITS {
        return TagBit;
      }
      OneBit(rest[..1]);
      MoveBits(ByteBits(sunk), TokensBits(w, l, tokens), [], rest, 1);
      if b != 0 {
        s := YieldLiteral;
      } else if w > 8 {
        s := BackrefIndexMsb;
      } else {
        outputIndex := 0;
        s := BackrefIndexLsb;
      }
    }

    method StBackrefIndexMsb() returns (s: State)
      requires ValidAt(BackrefIndexMsb)
      modifies `inputSize, `inputIndex, `bitIndex, `avail, `currentByte, `outputIndex
      ensures ValidAt(s) && (inputSize == 0 || inputSize == old(inputSize))
      ensures s == BackrefIndexMsb <==> |old(Rest())| < w - 8
      ensures s == BackrefIndexMsb ==> Rest() == old(Rest()) && inputSize == 0
      ensures s != BackrefIndexMsb ==> s == BackrefIndexLsb && |Rest()| < |old(Rest())|
    {
      hide ToBits, BitsVal, ByteBits, TokensBits, RingHolds, Expand, Copy, Zeros, Pow2, Rest, History, WindowOk, BitOr,
        BitIndexAt, CopyOk, TokensOk;
      ghost var rest := Rest();
      assert 1 <= w - 8 <= 8;
      var b := GetBits(w - 8);
      if b == NO_BITS {
        return BackrefIndexMsb;
      }
      HighPart(rest[..w - 8]);
      MoveBits(ByteBits(sunk), TokensBits(w, l, tokens), [false], rest, w - 8);
      outputIndex := U16(b * 256);
      s := BackrefIndexLsb;
    }

    method StBackrefIndexLsb() returns (s: State)
      requires ValidAt(BackrefIndexLsb)
      modifies `inputSize, `inputIndex, `bitIndex, `avail, `currentByte, `outputIndex, `outputCount
      ensures ValidAt(s) && (inputSize == 0 || inputSize == old(inputSize))
      ensures s == BackrefIndexLsb <==> |old(Rest())| < Min(w, 8)
      ensures s == BackrefIndexLsb ==> Rest() == old(Rest()) && inputSize == 0
      ensures s != BackrefIndexLsb ==> s != YieldBackref && |Rest()| < |old(Rest())|
    {
      hide ToBits, BitsVal, ByteBits, TokensBits, RingHolds, Expand, Copy, Zeros, Pow2, Rest, History, WindowOk,
        BitOr, Partial,
        BitIndexAt, CopyOk, TokensOk;
      ghost var rest := Rest();
      assert ValidSizes(w, l);
      var b := GetBits(if w < 8 then w else 8);
      if b == NO_BITS {
        return BackrefIndexLsb;
      }
      IndexComplete(w, l, ByteBits(sunk), TokensBits(w, l, tokens), outputIndex, outputCount, rest);
      outputIndex := BitOr(outputIndex, b);
      outputIndex := U16(outputIndex + 1);
      outputCount := 0;
      s := CountState(l);
    }

    method StBackrefCountMsb() returns (s: State)
      requires ValidAt(BackrefCountMsb)
      modifies `inputSize, `inputIndex, `bitIndex, `avail, `currentByte, `outputCount
      ensures ValidAt(s) && (inputSize == 0 || inputSize == old(inputSize))
      ensures s == BackrefCountMsb <==> |old(Rest())| < l - 8
      ensures s == BackrefCountMsb ==> Rest() == old(Rest()) && inputSize == 0
      ensures s != BackrefCountMsb ==> s == BackrefCountLsb && |Rest()| < |old(Rest())|
    {
      hide ToBits, BitsVal, ByteBits, TokensBits, RingHolds, Expand, Copy, Zeros, Pow2, Rest, History, WindowOk, BitOr,
        BitIndexAt, CopyOk, TokensOk;
      ghost var rest, part := Rest(), Partial(w, l, BackrefCountMsb, outputIndex, outputCount);
      assert 1 <= l - 8 <= 8;
      var b := GetBits(l - 8);
      if b == NO_BITS {
        return BackrefCountMsb;
      }
      HighPart(rest[..l - 8]);
      MoveBits(ByteBits(sunk), TokensBits(w, l, tokens), part, rest, l - 8);
      outputCount := U16(b * 256);
      s := BackrefCountLsb;
    }

    method StBackrefCountLsb() returns (s: State)
      requires ValidAt(BackrefCountLsb)
      modifies `inputSize, `inputIndex, `bitIndex, `avail, `currentByte, `outputCount, `tokens
      ensures ValidAt(s) && (inputSize == 0 || inputSize == old(inputSize))
      ensures s == BackrefCountLsb <==> |old(Rest())| < Min(l, 8)
      ensures s == BackrefCountLsb ==> Rest() == old(Rest()) && inputSize == 0
      ensures s != BackrefCountLsb ==> s == YieldBackref && |Rest()| < |old(Rest())|
    {
      hide ToBits, BitsVal, ByteBits, TokensBits, RingHolds, Expand, Copy, Zeros, Pow2, Rest, History, WindowOk,
        BitOr, Partial,
        BitIndexAt;
      ghost var rest := Rest();
      assert ValidSizes(w, l);
      var b := GetBits(if l < 8 then l else 8);
      if b == NO_BITS {
        return BackrefCountLsb;
      }
      CountComplete(w, l, ByteBits(sunk), tokens, outputIndex, outputCount, rest);
      outputCount := BitOr(outputCount, b);
      outputCount := U16(outputCount + 1);
      ghost var t := Backref(outputIndex, outputCount);
      ExpandSnoc(w, l, Zeros(Pow2(w)), tokens, t);
      tokens := tokens + [t];
      s := YieldBackref;
    }

    // -------------------------------------------------------------- writing states

    ghost predicate Linked(oi: OutputInfo)
      reads `emitted, oi, oi.buf
    {
      oi.Valid() && oi.buf != buffers && emitted == oi.before + oi.out
    }

    /** One byte into the ring. */
    method Remember(c: byte)
      requires InputOk() && WindowOk()
      modifies `headIndex, `emitted, buffers
      ensures WindowOk()
      ensures emitted == old(emitted) + [c] && History() == old(History()) + [c]
      ensures Rest() == old(Rest())
    {
      hide Pow2, ToBits, ByteBits, Zeros, RingHolds, Mask;
      ghost var h, win := History(), buffers[inputBufferSize..];
      HeadIndexWraps(w, headIndex, |emitted|, 0);
      RingPush(w, win, h, c);
      ghost var input := buffers[inputIndex..inputSize];
      var slot := Mask(headIndex, w);
      buffers[inputBufferSize + slot] := c;
      assert buffers[inputIndex..inputSize] == input;
      assert buffers[inputBufferSize..] == win[slot := c];
      headIndex := U16(headIndex + 1);
      emitted := emitted + [c];
      assert History() == h + [c];
    }

    /** One byte to the caller and to the ring. */
    method PushByte(oi: OutputInfo, c: byte)
      requires InputOk() && WindowOk() && Linked(oi) && oi.CanTakeByte()
      modifies `headIndex, `emitted, buffers, oi`outputSize, oi`out, oi.buf
      ensures WindowOk() && Linked(oi)
      ensures emitted == old(emitted) + [c] && History() == old(History()) + [c]
      ensures oi.outputSize == old(oi.outputSize) + 1
      ensures Rest() == old(Rest())
    {
      hide Pow2, ToBits, ByteBits, Zeros, RingHolds, Mask;
      Remember(c);
      oi.Push(c);
    }

    method StYieldLiteral(oi: OutputInfo) returns (s: State)
      requires ValidAt(YieldLiteral) && Linked(oi)
      modifies `inputSize, `inputIndex, `bitIndex, `avail, `currentByte, `headIndex, `emitted, `tokens, buffers
      modifies oi`outputSize, oi`out, oi.buf
      ensures ValidAt(s) && Linked(oi)
      ensures inputSize == 0 || inputSize == old(inputSize)
      ensures s == TagBit || s == YieldLiteral
      ensures s == TagBit ==> |Rest()| < |old(Rest())|
      ensures s == YieldLiteral ==> Rest() == old(Rest()) && oi.outputSize == old(oi.outputSize)
      ensures s == YieldLiteral && oi.CanTakeByte() ==> |Rest()| < 8 && inputSize == 0
    {
      hide ToBits, BitsVal, ByteBits, TokensBits, RingHolds, Expand, Copy, Zeros, Pow2, Rest, History, WindowOk;
      if oi.CanTakeByte() {
        ghost var rest := Rest();
        var b := GetBits(8);
        if b == NO_BITS {
          return YieldLiteral;
        }
        LiteralComplete(w, l, ByteBits(sunk), tokens, rest);
        var c := Mask(b, 8);
        ExpandSnoc(w, l, Zeros(Pow2(w)), tokens, Literal(c));
        PushByte(oi, c);
        tokens := tokens + [Literal(c)];
        s := TagBit;
      } else {
        s := YieldLiteral;
      }
    }

    /** The byte `d` back from the head of the ring. */
    method LookBack(d: nat) returns (c: byte)
      requires InputOk() && WindowOk() && 1 <= d <= Pow2(w)
      ensures c == History()[|History()| - d]
    {
      hide Pow2, Zeros, Mask;
      HeadIndexWraps(w, headIndex, |emitted|, d);
      ghost var win := buffers[inputBufferSize..];
      assert win[Mask(|History()| - d, w)] == History()[|History()| - d];
      c := buffers[inputBufferSize + Mask(headIndex - d, w)];
    }

    /** The loop of yield_backref: `count` bytes of the copy that is under way. */
    method CopyBytes(oi: OutputInfo, count: nat)
      requires InputOk() && WindowOk() && Linked(oi)
      requires 1 <= outputIndex <= Pow2(w) && count <= outputCount && oi.outputSize + count <= oi.bufSize
      modifies `headIndex, `emitted, buffers, oi`outputSize, oi`out, oi.buf
      ensures InputOk() && WindowOk() && Linked(oi) && Rest() == old(Rest())
      ensures oi.outputSize == old(oi.outputSize) + count
      ensures Copy(History(), outputIndex, outputCount - count) == old(Copy(History(), outputIndex, outputCount))
    {
      hide ToBits, ByteBits, RingHolds, Copy, Zeros, Pow2, Rest, History, WindowOk;
      var negOffset := outputIndex;
      ghost var full := Copy(History(), outputIndex, outputCount);
      for i := 0 to count
        invariant InputOk() && WindowOk() && Linked(oi)
        invariant oi.outputSize == old(oi.outputSize) + i
        invariant Rest() == old(Rest())
        invariant full == Copy(History(), outputIndex, outputCount - i)
      {
        var c := LookBack(negOffset);
        CopyStep(History(), negOffset, outputCount - i);
        PushByte(oi, c);
      }
    }

    method StYieldBackref(oi: OutputInfo) returns (s: State)
      requires ValidAt(YieldBackref) && Linked(oi)
      modifies `headIndex, `emitted, `outputCount, buffers, oi`outputSize, oi`out, oi.buf
      ensures ValidAt(s) && Linked(oi)
      ensures s == TagBit || (s == YieldBackref && !oi.CanTakeByte())
      ensures Rest() == old(Rest())
    {
      hide ToBits, BitsVal, ByteBits, TokensBits, RingHolds, Expand, Copy, Zeros, Pow2, Rest, History, WindowOk,
        TokensOk;
      var count := oi.bufSize - oi.outputSize;
      if count > 0 {
        if outputCount < count {
          count := outputCount;
        }
        CopyBytes(oi, count);
        CopyNone(History(), outputIndex);
        outputCount := outputCount - count;
        if outputCount == 0 {
          return TagBit;
        }
      }
      return YieldBackref;
    }

    // -------------------------------------------------------------- the public calls

    /** Waiting to put out a byte. */
    ghost predicate Blocked()
      reads `state
    {
      state == YieldLiteral || state == YieldBackref
    }

    /** Waiting to put out a byte, or for bits that are not there. */
    ghost predicate Stalled()
      reads `state, `inputSize, `inputIndex, `bitIndex, `avail, `currentByte, buffers
      requires InputOk()
    {
      Blocked() || (|Rest()| < Need(w, l, state) && inputSize == 0)
    }

    /** One turn of the poll loop. */
    method Step(oi: OutputInfo)
      requires Valid() && Linked(oi)
      modifies this, buffers, oi`outputSize, oi`out, oi.buf
      ensures Valid() && Linked(oi) && sunk == old(sunk)
      ensures inputSize == 0 || inputSize == old(inputSize)
      ensures state == old(state) ==>
        (Blocked() && !oi.CanTakeByte()) || (state != YieldBackref && |Rest()| < Need(w, l, state) && inputSize == 0)
      ensures state != old(state) ==> |Rest()| < |old(Rest())| || (|Rest()| == |old(Rest())| && old(state) == YieldBackref)
    {
      hide ToBits, BitsVal, ByteBits, TokensBits, RingHolds, Expand, Copy, Zeros, Pow2, Rest, History, WindowOk,
        Linked, Partial, ValidAt;
      var s;
      match state {
        case TagBit => s := StTagBit();
        case YieldLiteral => s := StYieldLiteral(oi);
        case BackrefIndexMsb => s := StBackrefIndexMsb();
        case BackrefIndexLsb => s := StBackrefIndexLsb();
        case BackrefCountMsb => s := StBackrefCountMsb();
        case BackrefCountLsb => s := StBackrefCountLsb();
        case YieldBackref => s := StYieldBackref(oi);
      }
      state := s;
    }

    /** Everything sunk so far has been decoded; at most one incomplete token is left over. */
    ghost predicate Drained()
      reads `state, `inputSize, `emitted, `sunk
    {
      state != YieldBackref && inputSize == 0 && emitted == Decompress(w, l, sunk)
    }

    lemma DrainedIs()
      ensures Drained() <==> state != YieldBackref && inputSize == 0 && emitted == Decompress(w, l, sunk)
    {
    }

    lemma StuckIsDrained()
      requires Valid() && state != YieldBackref && |Rest()| < Need(w, l, state) && inputSize == 0
      ensures Drained()
    {
      hide ToBits, BitsVal, ByteBits, TokensBits, RingHolds, Expand, Copy, Pow2, Rest, ParseToken, Decode;
      var part := Partial(w, l, state, outputIndex, outputCount);
      StuckIncomplete(w, l, state, outputIndex, outputCount, Rest());
      DecodeStuck(w, l, tokens, part, Rest(), ByteBits(sunk));
    }

    /** At any moment the output so far is a prefix of what has been sunk decodes to. */
    lemma EmittedIsPrefix()
      requires Valid()
      ensures emitted <= Decompress(w, l, sunk)
    {
      hide ToBits, BitsVal, ByteBits, TokensBits, RingHolds, Expand, Copy, Pow2, Rest, ParseToken, Decode;
      var z, all := Zeros(Pow2(w)), Expand(w, l, Zeros(Pow2(w)), tokens);
      var more := Partial(w, l, state, outputIndex, outputCount) + Rest();
      if state == YieldBackref {
        CopyExtends(History(), outputIndex, outputCount);
      }
      assert ByteBits(sunk) == TokensBits(w, l, tokens) + more;
      DecodeTokens(w, l, z, tokens, more);
      DecodeExtends(w, l, all, more);
      PrefixTail(z, emitted, Decode(w, l, z, ByteBits(sunk)));
    }

    /** A copy under way has output still to come. */
    lemma CopyPending()
      requires Valid() && state == YieldBackref
      ensures |emitted| < |Decompress(w, l, sunk)|
    {
      hide ToBits, BitsVal, ByteBits, TokensBits, RingHolds, Expand, Copy, Pow2, Rest, ParseToken, Decode;
      var z, all := Zeros(Pow2(w)), Expand(w, l, Zeros(Pow2(w)), tokens);
      assert ByteBits(sunk) == TokensBits(w, l, tokens) + Rest();
      DecodeTokens(w, l, z, tokens, Rest());
      DecodeExtends(w, l, all, Rest());
    }

    /** Nothing can come of what is drained. */
    lemma StaysDrained()
      requires Valid() && inputSize == 0 && emitted == Decompress(w, l, sunk)
      ensures Drained()
    {
      hide Valid, Decompress;
      if state == YieldBackref {
        CopyPending();
      }
    }

    /** heatshrink_decoder_poll on `out[off..off + size]`. */
    method Poll(outBuf: array<byte>, off: nat, size: nat) returns (res: PollRes, outputSize: nat)
      requires Valid() && off + size <= outBuf.Length && outBuf != buffers
      modifies this, buffers, outBuf
      ensures Valid() && sunk == old(sunk)
      ensures outputSize <= size
      ensures outBuf[..off] == old(outBuf[..off])
      ensures emitted == old(emitted) + outBuf[off..off + outputSize]
      ensures res == PollEmpty ==> outputSize < size && Drained()
      ensures res == PollMore ==> outputSize == size && InputOk() && Stalled()
      ensures inputSize == 0 || inputSize == old(inputSize)
    {
      hide ToBits, BitsVal, ByteBits, TokensBits, RingHolds, Expand, Copy, Zeros, Pow2, Rest, History, Decode;
      var oi := new OutputInfo(outBuf, off, size, emitted);
      assert emitted + [] == emitted;
      while true
        invariant Valid() && InputOk() && Linked(oi) && sunk == old(sunk)
        invariant inputSize == 0 || inputSize == old(inputSize)
        decreases |Rest()|, if state == YieldBackref then 1 else 0
      {
        var inState := state;
        Step(oi);
        if state == inState {
          outputSize := oi.outputSize;
          SplitOut(outBuf[..off + outputSize], oi.head, oi.out);
          if oi.outputSize == size {
            return PollMore, outputSize;
          }
          StuckIsDrained();
          return PollEmpty, outputSize;
        }
      }
    }

    /** heatshrink_decoder_finish: done exactly when no byte is left unread and no copy is pending. */
    method Finish() returns (res: FinishRes)
      requires Valid()
      ensures res == FinishDone <==> state != YieldBackref && inputSize == 0
    {
      match state {
        case TagBit => res := if inputSize == 0 then FinishDone else FinishMore;
        case BackrefIndexLsb => res := if inputSize == 0 then FinishDone else FinishMore;
        case BackrefIndexMsb => res := if inputSize == 0 then FinishDone else FinishMore;
        case BackrefCountLsb => res := if inputSize == 0 then FinishDone else FinishMore;
        case BackrefCountMsb => res := if inputSize == 0 then FinishDone else FinishMore;
        case YieldLiteral => res := if inputSize == 0 then FinishDone else FinishMore;
        case YieldBackref => res := FinishMore;
      }
    }

    /** heatshrink_decoder_sink: as much of `inBuf` as fits. */
    method Sink(inBuf: seq<byte>) returns (res: SinkRes, n: nat)
      requires Valid()
      modifies `inputSize, `sunk, buffers
      ensures Valid() && emitted == old(emitted)
      ensures n == Min(inputBufferSize - old(inputSize), |inBuf|)
      ensures sunk == old(sunk) + inBuf[..n] && inputSize == old(inputSize) + n
      ensures res == SinkFull <==> old(inputSize) == inputBufferSize
    {
      hide ToBits, BitsVal, ByteBits, TokensBits, RingHolds, Expand, Copy, Zeros, Pow2, History, Partial, AfterCopy,
        FieldsOk, TokensOk, CopyOk, BitIndexAt;
      assert inBuf[..0] == [] && sunk + [] == sunk;
      var rem := inputBufferSize - inputSize;
      if rem == 0 {
        return SinkFull, 0;
      }
      n := if rem < |inBuf| then rem else |inBuf|;
      ghost var pending := buffers[inputIndex..inputSize];
      FillInput(inBuf, n);
      inputSize := U16(inputSize + n);
      assert buffers[inputIndex..inputSize] == pending + inBuf[..n];
      SinkBits(sunk, inBuf[..n], TokensBits(w, l, tokens) + Partial(w, l, state, outputIndex, outputCount),
        ToBits(currentByte, avail), pending);
      sunk := sunk + inBuf[..n];
      res := SinkOk;
    }

    /** The memcpy of sink, behind the input already there. */
    method FillInput(inBuf: seq<byte>, n: nat)
      requires inputIndex <= inputSize && n <= |inBuf| && inputSize + n <= inputBufferSize <= buffers.Length
      modifies buffers
      ensures buffers[inputIndex..inputSize + n] == old(buffers[inputIndex..inputSize]) + inBuf[..n]
      ensures buffers[inputBufferSize..] == old(buffers[inputBufferSize..])
    {
      forall i | 0 <= i < n {
        buffers[inputSize + i] := inBuf[i];
      }
    }

    lemma ResetIsValid()
      requires ValidSizes(w, l) && 1 <= inputBufferSize < 0x1_0000 && buffers.Length == inputBufferSize + Pow2(w)
      requires inputSize == 0 && inputIndex == 0 && bitIndex == 0 && avail == 0 && headIndex == 0
      requires sunk == [] && emitted == [] && tokens == []
      requires forall i :: 0 <= i < buffers.Length ==> buffers[i] == 0
      ensures ValidAt(TagBit)
    {
      hide Copy, Pow2, RingHolds, Zeros, TokenBits, Apply;
      assert Zeros(Pow2(w)) + [] == Zeros(Pow2(w));
      ZeroRing(w, buffers[inputBufferSize..]);
      assert buffers[inputIndex..inputSize] == [];
    }

    /** heatshrink_decoder_reset. */
    method Reset()
      requires ValidSizes(w, l) && 1 <= inputBufferSize < 0x1_0000 && buffers.Length == inputBufferSize + Pow2(w)
      modifies this, buffers
      ensures Valid() && sunk == [] && emitted == [] && inputSize == 0 && state == TagBit
    {
      hide Pow2, ValidAt;
      forall i | 0 <= i < buffers.Length {
        buffers[i] := 0;
      }
      state := TagBit;
      inputSize, inputIndex, bitIndex, currentByte := 0, 0, 0x00, 0x00;
      outputCount, outputIndex, headIndex := 0, 0, 0;
      avail, sunk, emitted, tokens := 0, [], [], [];
      ResetIsValid();
    }

    /** heatshrink_decoder_alloc with sizes it accepts. */
    constructor (inputBufferSize: nat, w: nat, l: nat)
      requires ValidSizes(w, l) && 1 <= inputBufferSize < 0x1_0000
      ensures Valid() && fresh(buffers) && sunk == [] && emitted == [] && inputSize == 0
      ensures this.w == w && this.l == l && this.inputBufferSize == inputBufferSize
    {
      this.w, this.l, this.inputBufferSize := w, l, inputBufferSize;
      buffers := new byte[inputBufferSize + Pow2(w)];
      new;
      Reset();
    }
  }
}
