/** The streaming compressor: sink input bytes, poll compressed ones, finish, stop anywhere and resume. */
module HsEncoder {
  import opened Bits
  import opened Lzss
  import opened Output

  datatype State =
    | NotFull
    | Filled
    | Search
    | YieldTagBit
    | YieldLiteral
    | YieldBrIndex
    | YieldBrLength
    | SaveBacklog
    | FlushBits
    | Done

  datatype SinkRes = SinkOk | SinkErrorMisuse
  datatype PollRes = PollEmpty | PollMore | PollErrorMisuse
  datatype FinishRes = FinishDone | FinishMore

  const MATCH_NOT_FOUND: nat := 0xFFFF

  /** The sizes whose buffer positions fit the 16-bit fields; the allocator also lets w = 15 through. */
  predicate EncoderSizes(w: nat, l: nat) {
    4 <= w <= 14 && 3 <= l < w
  }

  lemma SmallWindow(w: nat, l: nat)
    requires EncoderSizes(w, l)
    ensures 8 <= Pow2(l) && 2 * Pow2(l) <= Pow2(w) <= 0x4000
  {
    Pow2Table();
    Pow2Mono(l, w);
    if w < 14 {
      Pow2Mono(w, 14);
    }
    if 3 < l {
      Pow2Mono(3, l);
    }
  }

  // ---------------------------------------------------------------- the bit writer

  /** `current_byte` and `bit_index` hold the bits not yet part of a whole byte. */
  ghost predicate WriterHolds(cur: nat, bitIndex: nat, pend: bits) {
    && |pend| < 8
    && bitIndex == Pow2(7 - |pend|)
    && cur == BitsVal(pend) * Pow2(8 - |pend|)
  }

  /** `current_byte` after one bit, and what it means for the writer. */
  function WithBit(cur: nat, bitIndex: nat, bit: bool): nat {
    if bit then BitOr(cur, bitIndex) else cur
  }

  lemma OrBit(v: nat, k: nat)
    ensures BitOr(v * Pow2(k + 1), Pow2(k)) == (2 * v + 1) * Pow2(k)
  {
    assert Pow2(k + 1) == 2 * Pow2(k);
    hide Pow2, BitOr;
    BitOrDisjoint(v, k + 1, Pow2(k));
    assert v * (2 * Pow2(k)) == 2 * v * Pow2(k);
  }

  lemma ShiftIn(v: nat, k: nat)
    ensures v * Pow2(k + 1) == 2 * v * Pow2(k)
  {
    assert Pow2(k + 1) == 2 * Pow2(k);
  }

  lemma WithBitValue(cur: nat, bitIndex: nat, pend: bits, bit: bool)
    requires WriterHolds(cur, bitIndex, pend)
    ensures WithBit(cur, bitIndex, bit) == BitsVal(pend + [bit]) * Pow2(7 - |pend|)
  {
    hide Pow2, BitOr, BitsVal;
    BitsValSnoc(pend, bit);
    if bit {
      OrBit(BitsVal(pend), 7 - |pend|);
    } else {
      ShiftIn(BitsVal(pend), 7 - |pend|);
    }
  }

  lemma PutBitHolds(cur: nat, bitIndex: nat, pend: bits, bit: bool)
    requires WriterHolds(cur, bitIndex, pend)
    ensures var cur', bi' := WithBit(cur, bitIndex, bit), Shr(bitIndex, 1);
      if |pend| < 7 then bi' != 0 && WriterHolds(cur', bi', pend + [bit])
      else bi' == 0 && cur' == BitsVal(pend + [bit]) < 256
  {
    WithBitValue(cur, bitIndex, pend, bit);
    assert Shr(bitIndex, 1) == Shr(bitIndex / 2, 0);
    assert Pow2(8) == 256;
  }

  lemma EmptyWriter()
    ensures WriterHolds(0x00, 0x80, [])
  {
    assert Pow2(7) == 0x80;
  }

  lemma BelowTop(k: nat)
    requires k < 7
    ensures Pow2(k) < 0x80
  {
    Pow2Mono(k, 7);
    assert Pow2(7) == 0x80;
  }

  lemma AtByteStart(cur: nat, bitIndex: nat, pend: bits)
    requires WriterHolds(cur, bitIndex, pend) && bitIndex == 0x80
    ensures pend == [] && cur == 0x00
  {
    BelowTop(if pend == [] then 0 else 7 - |pend|);
  }

  lemma NotAtByteStart(cur: nat, bitIndex: nat, pend: bits)
    requires WriterHolds(cur, bitIndex, pend) && bitIndex != 0x80
    ensures pend != []
  {
    assert Pow2(7) == 0x80;
  }

  lemma DropDrop<T>(s: seq<T>, a: nat, b: nat)
    requires a + b <= |s|
    ensures s[a..][b..] == s[a + b..]
  {
  }

  /** The chunks of a field are its bits, most significant first. */
  lemma OutgoingChunk(v: nat, n: nat)
    ensures n > 8 ==> ToBits(v, n) == ToBits(Shr(v, n - 8) % 256, 8) + ToBits(v, n - 8)
    ensures n <= 8 ==> ToBits(v % 256, n) == ToBits(v, n)
  {
    assert Pow2(8) == 256;
    hide Pow2, ToBits, Shr;
    if n > 8 {
      ToBitsSplit(v, 8, n - 8);
      ToBitsMod(Shr(v, n - 8), 8, 8);
      assert 8 + (n - 8) == n;
    } else {
      ToBitsMod(v, 8, n);
    }
  }

  lemma PackNone()
    ensures Pack([]) == []
  {
  }

  lemma NoBits(v: nat)
    ensures ToBits(v, 0) == []
  {
  }

  lemma AppendOne(a: bits, bit: bool, rest: bits)
    ensures (a + [bit]) + rest == a + ([bit] + rest)
  {
  }

  lemma AppendTwo(a: bits, b: bits, c: bits)
    ensures (a + b) + c == a + (b + c)
    ensures c == [] ==> a + b + c == a + b
  {
  }

  /** A bit string of eight is a byte. */
  lemma WholeByte(bs: seq<byte>, pend: bits, bit: bool)
    requires |pend| == 7
    ensures BitsVal(pend + [bit]) < 256
    ensures ByteBits(bs + [BitsVal(pend + [bit])]) == ByteBits(bs) + pend + [bit]
  {
    var v := BitsVal(pend + [bit]);
    assert Pow2(8) == 256;
    ValToBits(pend + [bit]);
    OneByteBits(v);
    hide BitsVal, ByteBits, ToBits;
    ByteBitsAppend(bs, [v]);
    assert ByteBits(bs) + (pend + [bit]) == ByteBits(bs) + pend + [bit];
  }

  lemma FalsesSnoc(p: bits, n: nat)
    requires n > 0
    ensures p + Falses(n) == (p + Falses(n - 1)) + [false]
  {
  }

  lemma {:induction false} ValPadded(p: bits, n: nat)
    ensures BitsVal(p + Falses(n)) == BitsVal(p) * Pow2(n)
  {
    hide BitsVal, Falses;
    if n == 0 {
      assert p + Falses(0) == p;
    } else {
      FalsesSnoc(p, n);
      BitsValSnoc(p + Falses(n - 1), false);
      ValPadded(p, n - 1);
      ShiftIn(BitsVal(p), n - 1);
    }
  }

  /** The flushed byte is the padded last byte of the packing. */
  lemma FlushIsPack(cur: nat, bitIndex: nat, pend: bits)
    requires WriterHolds(cur, bitIndex, pend) && pend != []
    ensures cur < 256 && Pack(pend) == [cur]
  {
    ValPadded(pend, 8 - |pend|);
    assert Pow2(8) == 256;
  }

  lemma TagBits()
    ensures ToBits(0x01, 1) == [true] && ToBits(0x00, 1) == [false]
  {
    assert ToBits(0x01, 1) == ToBits(0, 0) + [true];
    assert ToBits(0x00, 1) == ToBits(0, 0) + [false];
  }

  // ---------------------------------------------------------------- the search index

  /** `p` is the latest position before `i` where `v` stands, or -1. */
  ghost predicate IsLatest(buf: seq<byte>, i: nat, v: byte, p: int)
    requires i <= |buf|
  {
    && -1 <= p < i
    && (p >= 0 ==> buf[p] == v)
    && forall k :: p < k < i ==> buf[k] != v
  }

  /** Every entry leads to the previous position of the same byte. */
  ghost predicate IndexHolds(buf: seq<byte>, idx: seq<int>, upTo: nat) {
    && upTo <= |buf| && upTo <= |idx|
    && forall i :: 0 <= i < upTo ==> IsLatest(buf, i, buf[i], idx[i])
  }

  /** The latest position before `i` where `v` stands, or -1. */
  ghost function Latest(buf: seq<byte>, i: nat, v: byte): (p: int)
    requires i <= |buf|
    ensures -1 <= p < i && IsLatest(buf, i, v, p)
  {
    if i == 0 then -1 else if buf[i - 1] == v then i - 1 else Latest(buf, i - 1, v)
  }

  /** A position as an `int16_t` holds it. */
  function Entry(p: int): int
    requires -1 <= p < 0x1_0000
  {
    if p < 0 then -1 else S16(p)
  }

  /** What the indexing loop leaves: entries below its 16-bit end, and whatever was there from then on. */
  ghost predicate Indexes(buf: seq<byte>, was: seq<int>, idx: seq<int>) {
    && |buf| <= |idx| == |was| && |buf| <= 0x1_0000
    && (forall i :: 0 <= i < U16(|buf|) ==> idx[i] == Entry(Latest(buf, i, buf[i])))
    && (forall i :: U16(|buf|) <= i < |idx| ==> idx[i] == was[i])
  }

  /**
   * The loop of do_indexing, over a buffer filled up to `inputOffset + inputSize`, for every size the
   * allocator admits.
   */
  method BuildIndex(data: array<byte>, index: array<int>, inputOffset: nat, inputSize: nat)
    requires inputOffset + inputSize <= data.Length && inputOffset + inputSize <= 0x1_0000
    requires index.Length == data.Length
    modifies index
    ensures Indexes(data[..inputOffset + inputSize], old(index[..]), index[..])
  {
    hide Entry, IsLatest, Latest, S16;
    ghost var buf := data[..inputOffset + inputSize];
    var last := new int[256](_ => -1);
    var end := U16(inputOffset + inputSize);
    NoneLatest(buf);
    for i := 0 to end
      invariant last.Length == 256
      invariant forall v: byte :: last[v] == Entry(Latest(buf, i, v))
      invariant forall k :: 0 <= k < i ==> index[k] == Entry(Latest(buf, k, buf[k]))
      invariant forall k :: i <= k < index.Length ==> index[k] == old(index[k])
    {
      var v := data[i];
      var lv := last[v];
      LatestStep(buf, i, i + 1);
      index[i] := lv;
      last[v] := S16(i);
    }
  }

  lemma NoneLatest(buf: seq<byte>)
    ensures forall v: byte :: Entry(Latest(buf, 0, v)) == -1
  {
  }

  lemma LatestNext(buf: seq<byte>, i: nat, v: byte)
    requires i < |buf|
    ensures Latest(buf, i + 1, v) == if v == buf[i] then i else Latest(buf, i, v)
  {
    assert i + 1 - 1 == i;
  }

  lemma LatestStep(buf: seq<byte>, i: nat, next: nat)
    requires i < |buf| && i < 0x1_0000 && next == i + 1
    ensures forall v: byte :: Latest(buf, next, v) == if v == buf[i] then i else Latest(buf, i, v)
    ensures Entry(i) == S16(i)
  {
    hide Latest, IsLatest;
    forall v: byte
      ensures Latest(buf, next, v) == if v == buf[i] then i else Latest(buf, i, v)
    {
      LatestNext(buf, i, v);
    }
  }

  lemma LatestUnique(buf: seq<byte>, i: nat, v: byte, p: int)
    requires i <= |buf| && IsLatest(buf, i, v, p)
    ensures p == Latest(buf, i, v)
  {
    assert IsLatest(buf, i, v, Latest(buf, i, v));
  }

  /**
   * Exactly when the index is right. Below a full 64 KB it is when no position has its predecessor
   * at 32768 or beyond, which the 16-bit entries turn negative.
   */
  lemma IndexHoldsIff(buf: seq<byte>, was: seq<int>, idx: seq<int>)
    requires Indexes(buf, was, idx) && |buf| < 0x1_0000
    ensures IndexHolds(buf, idx, |buf|) <==> forall i :: 0 <= i < |buf| ==> Latest(buf, i, buf[i]) < 0x8000
  {
    forall i | 0 <= i < |buf|
      ensures IsLatest(buf, i, buf[i], idx[i]) <==> Latest(buf, i, buf[i]) < 0x8000
    {
      var p := Latest(buf, i, buf[i]);
      if IsLatest(buf, i, buf[i], idx[i]) {
        LatestUnique(buf, i, buf[i], idx[i]);
      }
    }
  }

  /** With sizes up to 14 a buffer never gets there, so the index is always right. */
  lemma IndexHoldsSmall(buf: seq<byte>, was: seq<int>, idx: seq<int>)
    requires Indexes(buf, was, idx) && |buf| <= 0x8000
    ensures IndexHolds(buf, idx, |buf|)
  {
    hide Indexes, IndexHolds, IsLatest;
    IndexHoldsIff(buf, was, idx);
  }

  /**
   * At size 15 a full buffer is exactly 64 KB: the 16-bit end of the loop is zero, nothing is written,
   * and the index is right only if its old contents happen to be.
   */
  lemma FullBufferNotIndexed(buf: seq<byte>, was: seq<int>, idx: seq<int>)
    requires Indexes(buf, was, idx) && |buf| == Pow2(15) + Pow2(15) && |idx| == |buf|
    ensures idx == was
    ensures was[0] != -1 ==> !IndexHolds(buf, idx, |buf|)
  {
    Pow2Table();
    assert U16(|buf|) == 0;
    if IndexHolds(buf, idx, |buf|) {
      assert IsLatest(buf, 0, buf[0], idx[0]);
    }
  }

  /** Indexing a full buffer leaves a right index, whatever the bytes and whatever was in the index before. */
  ghost predicate FullBufferIndexed(w: nat) {
    forall buf: seq<byte>, was: seq<int>, idx: seq<int> ::
      |buf| == |idx| == Pow2(w) + Pow2(w) && Indexes(buf, was, idx) ==> IndexHolds(buf, idx, |buf|)
  }

  /** That is so exactly for the sizes up to 14; the allocator also admits 15. */
  lemma IndexFitsIff(w: nat)
    requires 4 <= w <= 15
    ensures FullBufferIndexed(w) <==> w <= 14
  {
    hide Pow2, Indexes, IndexHolds;
    if w == 15 {
      FullBufferFails();
    } else {
      if w < 14 {
        Pow2Mono(w, 14);
      }
      Pow2Table();
      forall buf: seq<byte>, was: seq<int>, idx: seq<int> |
        |buf| == |idx| == Pow2(w) + Pow2(w) && Indexes(buf, was, idx)
        ensures IndexHolds(buf, idx, |buf|)
      {
        IndexHoldsSmall(buf, was, idx);
      }
    }
  }

  lemma FullBufferFails()
    ensures !FullBufferIndexed(15)
  {
    var buf, idx := Zeros(Pow2(15) + Pow2(15)), seq(Pow2(15) + Pow2(15), _ => 0);
    Pow2Table();
    hide Pow2, IndexHolds;
    assert Indexes(buf, idx, idx);
    FullBufferNotIndexed(buf, idx, idx);
  }

  /** A mismatch at offset `k` bounds the match. */
  lemma {:induction false} MatchCut(h: seq<byte>, p: nat, e: nat, m: nat, k: nat)
    requires p < e && e + m <= |h| && k < m && h[p + k] != h[e + k]
    ensures MatchLen(h, p, e, m) <= k
    decreases k
  {
    if k > 0 && h[p] == h[e] {
      MatchCut(h, p + 1, e + 1, m - 1, k - 1);
    }
  }

  /** One candidate: the best so far from `p` up, given the best from `p + 1` up. */
  function Improve(b: Match, p: nat, k: nat): Match {
    if k > b.len then Match(p, k) else b
  }

  lemma BestEmpty(h: seq<byte>, e: nat, m: nat)
    requires e + m <= |h|
    ensures Best(h, e, e, m).len == 0
  {
  }

  lemma BestStep(h: seq<byte>, p: nat, e: nat, m: nat)
    requires p < e && e + m <= |h|
    ensures Best(h, p, e, m) == Improve(Best(h, p + 1, e, m), p, MatchLen(h, p, e, m))
  {
  }

  /** The variables of the search hold `b`; the position means nothing while no match is found. */
  ghost predicate Tracks(b: Match, matchMaxlen: nat, matchIndex: nat) {
    matchMaxlen == b.len && (b.len > 0 ==> matchIndex == b.pos)
  }

  /** The positions from here up have been tried when `pos` is the next candidate. */
  ghost function From(pos: int, start: nat): nat
    requires pos >= -1
  {
    if pos < start then start else pos + 1
  }

  /** Positions skipped by the index hold another byte, so skipping them changes nothing. */
  lemma SkipStep(h: seq<byte>, lo: nat, p: nat, e: nat, m: nat, next: int)
    requires lo <= p <= e && e + m <= |h| && e < |h|
    requires -1 <= next < p && forall k :: next < k < p ==> h[k] != h[e]
    ensures Best(h, From(next, lo), e, m) == Best(h, p, e, m)
  {
    var from := From(next, lo);
    forall k | from <= k < p
      ensures MatchLen(h, k, e, m) <= Best(h, p, e, m).len
    {
    }
    BestUnchanged(h, from, p, e, m);
  }

  /** Once a match of full length is found, nothing further down can beat it. */
  lemma FullMatchWins(h: seq<byte>, lo: nat, p: nat, e: nat, m: nat)
    requires lo <= p <= e && e + m <= |h| && Best(h, p, e, m).len == m
    ensures Best(h, lo, e, m) == Best(h, p, e, m)
  {
    BestUnchanged(h, lo, p, e, m);
  }

  /** What the search finds in the buffer is the next greedy token of the whole input. */
  lemma SearchIsNext(w: nat, l: nat, x: seq<byte>, data: seq<byte>, inputSize: nat, msi: nat)
    requires msi < inputSize <= |x| && data == (Zeros(Pow2(w)) + x)[|x| - inputSize..]
    ensures var b := Best(data, msi, Pow2(w) + msi, Min(Pow2(l), inputSize - msi));
      NextToken(w, l, x, |x| - inputSize + msi) ==
        if b.len > BreakEven(w, l) then Backref(Pow2(w) + msi - b.pos, b.len)
        else Literal(x[|x| - inputSize + msi])
  {
    hide Best, Pow2, BreakEven;
    var h, off := Zeros(Pow2(w)) + x, |x| - inputSize;
    assert data == h[off..off + |data|];
    BestSlice(data, h, off, msi, Pow2(w) + msi, Min(Pow2(l), inputSize - msi));
    assert off + (Pow2(w) + msi) == Pow2(w) + (off + msi);
  }

  // ---------------------------------------------------------------- the invariant, on values

  ghost predicate Writing(s: State) {
    s == YieldTagBit || s == YieldLiteral || s == YieldBrIndex || s == YieldBrLength
  }

  /**
   * The scan: `x` is the input so far, its last `size` bytes are in the buffer and `msi` of those
   * are scanned; the tokens `ts` are finished, `cur` is being written in the writing states, and
   * all of them are the greedy choice.
   */
  ghost predicate Scan(w: nat, l: nat, s: State, x: seq<byte>, size: nat, msi: nat, ml: nat, mp: nat,
    fin: bool, ts: seq<Token>, cur: Token)
  {
    && size <= |x| && msi <= size && |x| - size <= TokensLen(ts)
    && GreedySoFar(w, l, x, ts)
    && (!fin ==> Settled(l, x, ts))
    && TokensLen(ts) + (if Writing(s) && ml == 0 then 1 else 0) == |x| - size + msi
    && (Writing(s) ==>
          && TokensLen(ts) < |x|
          && cur == NextToken(w, l, x, TokensLen(ts))
          && (if ml == 0 then cur == Literal(x[TokensLen(ts)]) else cur == Backref(mp, ml))
          && (!fin ==> TokensLen(ts) + Pow2(l) <= |x|))
    && (match s
        case NotFull => !fin && msi == 0 && size < Pow2(w)
        case SaveBacklog => !fin && size == Pow2(w) && msi + Pow2(l) > size
        case FlushBits => fin && TokensLen(ts) == |x|
        case Done => fin
        case Filled => msi == 0 && (!fin ==> size == Pow2(w))
        case _ => !fin ==> size == Pow2(w))
  }

  /** The bits: `sent` are out, the low `cnt` bits of `out` are queued. */
  ghost predicate Wrote(w: nat, l: nat, s: State, sent: bits, out: nat, cnt: nat, ml: nat, ts: seq<Token>, cur: Token) {
    && TokensOk(w, l, ts)
    && (match s
        case YieldLiteral => ml == 0 && sent == TokensBits(w, l, ts) + [true]
        case YieldBrIndex => ml > 0 && cur.Backref? && cur.dist >= 1 && cnt <= w
          && sent + ToBits(out, cnt) == TokensBits(w, l, ts) + ([false] + ToBits(cur.dist - 1, w))
        case YieldBrLength => ml > 0 && TokenOk(w, l, cur) && cnt <= l
          && sent + ToBits(out, cnt) == TokensBits(w, l, ts) + TokenBits(w, l, cur)
        case Done => true
        case _ => sent == TokensBits(w, l, ts))
  }

  lemma ScanExhausted(w: nat, l: nat, x: seq<byte>, size: nat, msi: nat, ml: nat, mp: nat, fin: bool, ts: seq<Token>,
    cur: Token)
    requires Scan(w, l, Search, x, size, msi, ml, mp, fin, ts, cur)
    requires msi > size - (if fin then 1 else Pow2(l))
    ensures Scan(w, l, if fin then FlushBits else SaveBacklog, x, size, msi, ml, mp, fin, ts, cur)
  {
    hide GreedySoFar, TokensLen, Settled, Pow2, NextToken;
  }

  lemma ScanChosen(w: nat, l: nat, x: seq<byte>, size: nat, msi: nat, ml: nat, mp: nat, fin: bool, ts: seq<Token>,
    cur: Token)
    requires Scan(w, l, Search, x, size, msi, ml, mp, fin, ts, cur)
    requires msi < size && (!fin ==> msi + Pow2(l) <= size)
    ensures var t := NextToken(w, l, x, |x| - size + msi);
      match t
      case Literal(c) => c == x[|x| - size + msi] ==> Scan(w, l, YieldTagBit, x, size, msi + 1, 0, mp, fin, ts, t)
      case Backref(d, k) => Scan(w, l, YieldTagBit, x, size, msi, k, d, fin, ts, t)
  {
    hide GreedySoFar, TokensLen, Settled, Pow2, NextToken;
  }

  lemma Ranks()
    ensures Rank(Filled) > Rank(Search) > Rank(YieldTagBit) > Rank(YieldLiteral) == Rank(YieldBrIndex) > Rank(YieldBrLength)
    ensures Rank(YieldBrLength) > Rank(SaveBacklog) > Rank(NotFull) == Rank(FlushBits)
  {
  }

  lemma WritingStates()
    ensures Writing(YieldTagBit) && Writing(YieldLiteral) && Writing(YieldBrIndex) && Writing(YieldBrLength)
    ensures !Writing(NotFull) && !Writing(Filled) && !Writing(SaveBacklog) && !Writing(FlushBits) && !Writing(Done)
  {
  }

  lemma ScanWriting(w: nat, l: nat, s: State, s': State, x: seq<byte>, size: nat, msi: nat, ml: nat, mp: nat, fin: bool,
    ts: seq<Token>, cur: Token)
    requires Scan(w, l, s, x, size, msi, ml, mp, fin, ts, cur) && Writing(s) && Writing(s')
    ensures Scan(w, l, s', x, size, msi, ml, mp, fin, ts, cur)
  {
    hide GreedySoFar, TokensLen, Settled, Pow2, NextToken;
  }

  lemma ScanFinished(w: nat, l: nat, s: State, x: seq<byte>, size: nat, msi: nat, ml: nat, mp: nat, fin: bool,
    ts: seq<Token>, cur: Token)
    requires Scan(w, l, s, x, size, msi, ml, mp, fin, ts, cur) && Writing(s)
    ensures Scan(w, l, Search, x, size, msi + ml, 0, mp, fin, ts + [cur], cur)
    ensures TokensLen(ts + [cur]) > TokensLen(ts)
  {
    hide Pow2, NextToken, GreedySoFar;
    GreedyPush(w, l, x, ts);
    assert (ts + [cur])[..|ts|] == ts;
  }

  lemma WroteTag(w: nat, l: nat, sent: bits, out: nat, cnt: nat, ml: nat, ts: seq<Token>, cur: Token)
    requires Wrote(w, l, YieldTagBit, sent, out, cnt, ml, ts, cur) && TokenOk(w, l, cur)
    ensures ml == 0 ==> Wrote(w, l, YieldLiteral, sent + [true], out, cnt, ml, ts, cur)
    ensures ml > 0 && cur.Backref? ==> Wrote(w, l, YieldBrIndex, sent + [false], cur.dist - 1, w, ml, ts, cur)
  {
    hide ToBits, TokensBits, Pow2;
    if ml > 0 && cur.Backref? {
      AppendTwo(TokensBits(w, l, ts), [false], ToBits(cur.dist - 1, w));
    }
  }

  lemma WroteOther(w: nat, l: nat, s: State, s': State, sent: bits, out: nat, cnt: nat, ml: nat, ts: seq<Token>,
    cur: Token)
    requires Wrote(w, l, s, sent, out, cnt, ml, ts, cur) && (s == SaveBacklog || s == Filled || s == NotFull)
    requires s' == Search || s' == NotFull || s' == Filled
    ensures Wrote(w, l, s', sent, out, cnt, ml, ts, cur)
  {
    hide TokensBits;
  }

  lemma WroteLiteral(w: nat, l: nat, sent: bits, out: nat, cnt: nat, ml: nat, ts: seq<Token>, cur: Token)
    requires Wrote(w, l, YieldLiteral, sent, out, cnt, ml, ts, cur) && cur.Literal?
    ensures Wrote(w, l, Search, sent + ToBits(cur.c, 8), out, cnt, ml, ts + [cur], cur)
  {
    hide ToBits, TokensBits, Pow2;
    TokensSnoc(w, l, ts, cur);
    AppendTwo(TokensBits(w, l, ts), [true], ToBits(cur.c, 8));
  }

  /** Sending part of the queue changes nothing about what will have been sent. */
  lemma WroteQueue(w: nat, l: nat, s: State, sent: bits, sent': bits, out: nat, cnt: nat, cnt': nat, ml: nat,
    ts: seq<Token>,
    cur: Token)
    requires Wrote(w, l, s, sent, out, cnt, ml, ts, cur) && (s == YieldBrIndex || s == YieldBrLength)
    requires cnt' <= cnt && sent' + ToBits(out, cnt') == sent + ToBits(out, cnt)
    ensures Wrote(w, l, s, sent', out, cnt', ml, ts, cur)
  {
    hide ToBits, TokensBits, TokenBits, Pow2;
  }

  lemma WroteIndex(w: nat, l: nat, sent: bits, out: nat, ml: nat, ts: seq<Token>, cur: Token)
    requires Wrote(w, l, YieldBrIndex, sent, out, 0, ml, ts, cur) && TokenOk(w, l, cur)
    ensures Wrote(w, l, YieldBrLength, sent, cur.len - 1, l, ml, ts, cur)
  {
    NoBits(out);
    hide ToBits, TokensBits, Pow2;
    assert sent + [] == sent;
    AppendTwo(TokensBits(w, l, ts), [false] + ToBits(cur.dist - 1, w), ToBits(cur.len - 1, l));
  }

  lemma WroteLength(w: nat, l: nat, sent: bits, out: nat, ml: nat, ts: seq<Token>, cur: Token)
    requires Wrote(w, l, YieldBrLength, sent, out, 0, ml, ts, cur)
    ensures Wrote(w, l, Search, sent, out, 0, 0, ts + [cur], cur)
  {
    NoBits(out);
    hide ToBits, TokensBits, TokenBits, Pow2;
    assert sent + [] == sent;
    TokensSnoc(w, l, ts, cur);
  }

  lemma ScanIndexed(w: nat, l: nat, x: seq<byte>, size: nat, msi: nat, ml: nat, mp: nat, fin: bool, ts: seq<Token>,
    cur: Token)
    requires Scan(w, l, Filled, x, size, msi, ml, mp, fin, ts, cur)
    ensures Scan(w, l, Search, x, size, msi, ml, mp, fin, ts, cur)
  {
    hide GreedySoFar, TokensLen, Settled, Pow2, NextToken;
  }

  lemma ScanStart(w: nat, l: nat, ml: nat, mp: nat, cur: Token)
    ensures Scan(w, l, NotFull, [], 0, 0, ml, mp, false, [], cur)
  {
  }

  lemma ScanSaved(w: nat, l: nat, x: seq<byte>, size: nat, msi: nat, ml: nat, mp: nat, fin: bool, ts: seq<Token>,
    cur: Token)
    requires Scan(w, l, SaveBacklog, x, size, msi, ml, mp, fin, ts, cur) && Pow2(l) <= Pow2(w)
    ensures Scan(w, l, NotFull, x, size - msi, 0, ml, mp, fin, ts, cur)
  {
    hide GreedySoFar, TokensLen, Settled, Pow2, NextToken;
  }

  lemma ScanSunk(w: nat, l: nat, x: seq<byte>, more: seq<byte>, size: nat, msi: nat, ml: nat, mp: nat, fin: bool,
    ts: seq<Token>,
    cur: Token)
    requires Scan(w, l, NotFull, x, size, msi, ml, mp, fin, ts, cur)
    ensures size + |more| < Pow2(w) ==> Scan(w, l, NotFull, x + more, size + |more|, msi, ml, mp, fin, ts, cur)
    ensures size + |more| == Pow2(w) ==> Scan(w, l, Filled, x + more, size + |more|, msi, ml, mp, fin, ts, cur)
  {
    hide GreedySoFar, TokensLen, Settled, Pow2, NextToken;
    GreedyExtend(w, l, x, more, ts);
  }

  lemma ScanFinishing(w: nat, l: nat, s: State, x: seq<byte>, size: nat, msi: nat, ml: nat, mp: nat, fin: bool,
    ts: seq<Token>,
    cur: Token)
    requires Scan(w, l, s, x, size, msi, ml, mp, fin, ts, cur) && s != SaveBacklog
    ensures Scan(w, l, if s == NotFull then Filled else s, x, size, msi, ml, mp, true, ts, cur)
  {
    hide GreedySoFar, TokensLen, Settled, Pow2, NextToken;
  }

  /** Whatever has been written begins the greedy token stream. */
  lemma SentPrefix(w: nat, l: nat, s: State, x: seq<byte>, size: nat, msi: nat, ml: nat, mp: nat, fin: bool,
    ts: seq<Token>,
    cur: Token, sent: bits, out: nat, cnt: nat)
    requires Scan(w, l, s, x, size, msi, ml, mp, fin, ts, cur) && Wrote(w, l, s, sent, out, cnt, ml, ts, cur)
    requires s != Done
    ensures sent <= TokensBits(w, l, Greedy(w, l, x, 0))
  {
    hide GreedySoFar, TokensLen, Settled, Pow2, NextToken, Greedy, ToBits, TokensBits;
    var ts' := ts;
    if Writing(s) {
      ts' := ts + [cur];
      GreedyPush(w, l, x, ts);
      TokensSnoc(w, l, ts, cur);
      WritingPrefix(w, l, s, ml, ts, cur, sent, out, cnt);
    }
    GreedyPrefix(w, l, x, ts');
    TokensBitsPrefix(w, l, ts', Greedy(w, l, x, TokensLen(ts')));
  }

  lemma WritingPrefix(w: nat, l: nat, s: State, ml: nat, ts: seq<Token>, cur: Token, sent: bits, out: nat, cnt: nat)
    requires Writing(s) && TokenOk(w, l, cur) && (ml == 0 ==> cur.Literal?)
    requires Wrote(w, l, s, sent, out, cnt, ml, ts, cur)
    ensures sent <= TokensBits(w, l, ts) + TokenBits(w, l, cur)
  {
    hide TokensBits, ToBits, Pow2;
    var tb := TokensBits(w, l, ts);
    if s == YieldLiteral {
      AppendTwo(tb, [true], ToBits(cur.c, 8));
    } else if s == YieldBrIndex {
      AppendTwo(tb, [false] + ToBits(cur.dist - 1, w), ToBits(cur.len - 1, l));
      assert sent <= sent + ToBits(out, cnt) <= tb + TokenBits(w, l, cur);
    }
  }

  /** The order of the states within one token. */
  function Rank(s: State): nat {
    match s
    case Filled => 6
    case Search => 5
    case YieldTagBit => 4
    case YieldLiteral => 3
    case YieldBrIndex => 3
    case YieldBrLength => 2
    case SaveBacklog => 1
    case _ => 0
  }

  class Encoder {
    const w: nat              // window_sz2
    const l: nat              // lookahead_sz2
    const buffer: array<byte> // 2^w bytes of window, then up to 2^w bytes of input
    const index: array<int>   // search_index
    var inputSize: nat
    var matchScanIndex: nat
    var matchLength: nat
    var matchPos: nat
    var outgoingBits: nat
    var outgoingBitsCount: nat
    var finishing: bool       // FLAG_IS_FINISHING
    var state: State
    var currentByte: nat
    var bitIndex: nat

    ghost var pend: bits          // bits not yet part of a whole byte
    ghost var sunk: seq<byte>     // every byte accepted since the last reset
    ghost var emitted: seq<byte>  // every byte produced since the last reset
    ghost var tokens: seq<Token>  // the tokens written completely
    ghost var cur: Token          // the token being written

    ghost predicate Shape() {
      && EncoderSizes(w, l)
      && buffer.Length == 2 * Pow2(w) && index.Length == 2 * Pow2(w)
    }

    /** The filled part of the buffer. */
    ghost function Data(): seq<byte>
      reads `inputSize, buffer
      requires Shape() && inputSize <= Pow2(w)
    {
      buffer[..Pow2(w) + inputSize]
    }

    lemma DataAt(i: nat)
      requires Shape() && inputSize <= Pow2(w) && i < |Data()|
      ensures i < buffer.Length && buffer[i] == Data()[i]
    {
    }

    lemma IndexAt(i: nat)
      requires Indexed() && i < |Data()|
      ensures i < index.Length && IsLatest(Data(), i, Data()[i], index[i])
    {
      assert index[..][i] == index[i];
    }

    lemma SearchBounds(start: nat, end: nat, maxlen: nat)
      requires Shape() && inputSize <= Pow2(w)
      requires 1 <= maxlen && end + maxlen <= |Data()| && end == Pow2(w) + start
      ensures start < end < 0x8000 && S16(start) == start
    {
      SmallWindow(w, l);
    }

    ghost predicate Indexed()
      reads `inputSize, buffer, index
    {
      Shape() && inputSize <= Pow2(w) && IndexHolds(Data(), index[..], |Data()|)
    }

    method DoIndexing()
      requires Shape() && inputSize <= Pow2(w)
      modifies index
      ensures Indexed()
    {
      SmallWindow(w, l);
      hide Pow2, Indexes, IndexHolds;
      ghost var was := index[..];
      BuildIndex(buffer, index, Pow2(w), inputSize);
      IndexHoldsSmall(Data(), was, index[..]);
    }

    /** The comparison loop shared by both searches; the first bytes are known to agree. */
    method ExtendMatch(pos: nat, end: nat, maxlen: nat) returns (len: nat)
      requires Shape() && inputSize <= Pow2(w)
      requires pos < end && 1 <= maxlen && end + maxlen <= |Data()| && Data()[pos] == Data()[end]
      ensures len == MatchLen(Data(), pos, end, maxlen)
    {
      hide Pow2;
      ghost var data := Data();
      len := 1;
      while len < maxlen
        invariant 1 <= len <= maxlen
        invariant MatchLen(data, pos, end, maxlen) == len + MatchLen(data, pos + len, end + len, maxlen - len)
      {
        assert buffer[pos + len] == data[pos + len] && buffer[end + len] == data[end + len];
        if buffer[pos + len] != buffer[end + len] {
          break;
        }
        len := len + 1;
      }
    }

    /** What both searches return: the best match in the window, or nothing when it does not pay. */
    ghost predicate Found(start: nat, end: nat, maxlen: nat, r: nat, matchLen: nat)
      reads `inputSize, buffer
      requires Shape() && inputSize <= Pow2(w)
      requires start <= end && end + maxlen <= |Data()|
    {
      var b := Best(Data(), start, end, maxlen);
      if b.len > BreakEven(w, l) then r == end - b.pos && matchLen == b.len
      else r == MATCH_NOT_FOUND
    }

    /** The index is valid for the buffer's contents `data`. */
    ghost predicate IndexedAs(data: seq<byte>)
      reads `inputSize, buffer, index
    {
      Indexed() && Data() == data
    }

    lemma IndexedIs(data: seq<byte>)
      ensures IndexedAs(data) <==> Indexed() && Data() == data
    {
    }

    /** One candidate of the indexed search, which holds the right first byte. */
    method TryIndexed(ghost data: seq<byte>, pos: nat, end: nat, maxlen: nat, matchMaxlen: nat, matchIndex: nat)
      returns (newMaxlen: nat, newIndex: nat)
      requires IndexedAs(data)
      requires pos < end && end + maxlen <= |data| && matchMaxlen < maxlen && data[pos] == data[end]
      requires Tracks(Best(data, pos + 1, end, maxlen), matchMaxlen, matchIndex)
      ensures Tracks(Best(data, pos, end, maxlen), newMaxlen, newIndex)
    {
      hide Pow2, Best, MatchLen, Shape, Data, IndexHolds;
      BestStep(data, pos, end, maxlen);
      newMaxlen, newIndex := matchMaxlen, matchIndex;
      DataAt(pos + matchMaxlen);
      DataAt(end + matchMaxlen);
      if buffer[pos + matchMaxlen] != buffer[end + matchMaxlen] {
        MatchCut(data, pos, end, maxlen, matchMaxlen);
        return;
      }
      var len := ExtendMatch(pos, end, maxlen);
      if len > matchMaxlen {
        newMaxlen := len;
        newIndex := pos;
      }
    }

    /** `index[pos]`: the next candidate down, and nothing between it and `pos` can match. */
    method NextCandidate(ghost data: seq<byte>, pos: nat, ghost start: nat, ghost end: nat, ghost maxlen: nat)
      returns (next: int)
      requires IndexedAs(data) && start <= pos <= end && end < |data| && end + maxlen <= |data|
      requires data[pos] == data[end]
      ensures -1 <= next < pos && (next >= 0 ==> data[next] == data[end])
      ensures Best(data, From(next, start), end, maxlen) == Best(data, pos, end, maxlen)
    {
      hide Pow2, Best, MatchLen, Data, Indexed, IndexHolds, Shape;
      IndexAt(pos);
      next := index[pos];
      SkipStep(data, start, pos, end, maxlen, next);
    }

    /** find_longest_match with HEATSHRINK_USE_INDEX: only positions holding the right first byte are tried. */
    method FindLongestMatch(start: nat, end: nat, maxlen: nat) returns (r: nat, matchLen: nat)
      requires Indexed() && 1 <= maxlen && end + maxlen <= |Data()| && end == Pow2(w) + start
      ensures Found(start, end, maxlen, r, matchLen)
      ensures r != MATCH_NOT_FOUND <==> 8 * Best(Data(), start, end, maxlen).len > 1 + w + l
    {
      SearchBounds(start, end, maxlen);
      hide Pow2, Best, MatchLen, BreakEven, Data, Indexed, IndexedAs, IndexHolds, Shape, Found, S16, U16;
      ghost var data := Data();
      IndexedIs(data);
      BestEmpty(data, end, maxlen);
      var matchMaxlen: nat, matchIndex: nat := 0, MATCH_NOT_FOUND;
      var pos := NextCandidate(data, end, start, end, maxlen);
      while pos - S16(start) >= 0
        invariant IndexedAs(data)
        invariant -1 <= pos < end && (pos >= 0 ==> data[pos] == data[end])
        invariant Tracks(Best(data, From(pos, start), end, maxlen), matchMaxlen, matchIndex)
        invariant matchMaxlen < maxlen
        decreases pos
      {
        matchMaxlen, matchIndex := TryIndexed(data, pos, end, maxlen, matchMaxlen, matchIndex);
        if matchMaxlen == maxlen {
          FullMatchWins(data, start, pos, end, maxlen);
          break;
        }
        pos := NextCandidate(data, pos, start, end, maxlen);
      }
      IndexedIs(data);
      r, matchLen := PayOff(start, end, maxlen, matchIndex, matchMaxlen);
    }

    /** The break-even test at the end of find_longest_match. */
    method PayOff(start: nat, end: nat, maxlen: nat, matchIndex: nat, matchMaxlen: nat) returns (r: nat, matchLen: nat)
      requires Shape() && inputSize <= Pow2(w)
      requires start <= end < 0x8000 && end + maxlen <= |Data()|
      requires Tracks(Best(Data(), start, end, maxlen), matchMaxlen, matchIndex)
      ensures Found(start, end, maxlen, r, matchLen)
      ensures r != MATCH_NOT_FOUND <==> 8 * Best(Data(), start, end, maxlen).len > 1 + w + l
    {
      hide Best, Data, Pow2, Shape;
      var breakEvenPoint := 1 + w + l;
      matchLen := 0;
      if matchMaxlen > breakEvenPoint / 8 {
        matchLen := matchMaxlen;
        return U16(end - matchIndex), matchLen;
      }
      r := MATCH_NOT_FOUND;
    }

    /** One candidate of the plain scan. */
    method TryScanned(pos: nat, end: nat, maxlen: nat, matchMaxlen: nat, matchIndex: nat)
      returns (newMaxlen: nat, newIndex: nat)
      requires Shape() && inputSize <= Pow2(w)
      requires pos < end && end + maxlen <= |Data()| && matchMaxlen < maxlen
      requires Tracks(Best(Data(), pos + 1, end, maxlen), matchMaxlen, matchIndex)
      ensures Tracks(Best(Data(), pos, end, maxlen), newMaxlen, newIndex)
    {
      hide Pow2, Best, MatchLen, Shape, Data;
      BestStep(Data(), pos, end, maxlen);
      newMaxlen, newIndex := matchMaxlen, matchIndex;
      DataAt(pos + matchMaxlen);
      DataAt(end + matchMaxlen);
      DataAt(pos);
      DataAt(end);
      if buffer[pos + matchMaxlen] == buffer[end + matchMaxlen] && buffer[pos] == buffer[end] {
        var len := ExtendMatch(pos, end, maxlen);
        if len > matchMaxlen {
          newMaxlen := len;
          newIndex := pos;
        }
      } else {
        MatchCut(Data(), pos, end, maxlen, if buffer[pos] != buffer[end] then 0 else matchMaxlen);
      }
    }

    /** find_longest_match without the index: every position of the window, nearest first. */
    method ScanLongestMatch(start: nat, end: nat, maxlen: nat) returns (r: nat, matchLen: nat)
      requires Shape() && inputSize <= Pow2(w)
      requires 1 <= maxlen && end + maxlen <= |Data()| && end == Pow2(w) + start
      ensures Found(start, end, maxlen, r, matchLen)
      ensures r != MATCH_NOT_FOUND <==> 8 * Best(Data(), start, end, maxlen).len > 1 + w + l
    {
      SearchBounds(start, end, maxlen);
      hide Pow2, Best, MatchLen, BreakEven, Data, Shape;
      ghost var data := Data();
      BestEmpty(data, end, maxlen);
      var matchMaxlen: nat, matchIndex: nat := 0, MATCH_NOT_FOUND;
      var pos: int := end - 1;
      while pos - S16(start) >= 0
        invariant start - 1 <= pos < end
        invariant Tracks(Best(data, pos + 1, end, maxlen), matchMaxlen, matchIndex)
        invariant matchMaxlen < maxlen
        decreases pos
      {
        matchMaxlen, matchIndex := TryScanned(pos, end, maxlen, matchMaxlen, matchIndex);
        if matchMaxlen == maxlen {
          FullMatchWins(data, start, pos, end, maxlen);
          break;
        }
        pos := pos - 1;
      }
      r, matchLen := PayOff(start, end, maxlen, matchIndex, matchMaxlen);
    }

    // -------------------------------------------------------------- the bit writer

    ghost predicate WriterOk()
      reads `currentByte, `bitIndex, `pend
    {
      WriterHolds(currentByte, bitIndex, pend)
    }

    /** Every bit written so far. */
    ghost function Sent(): bits
      reads `emitted, `pend
    {
      ByteBits(emitted) + pend
    }

    ghost predicate Linked(oi: OutputInfo)
      reads `emitted, oi, oi.buf
    {
      oi.Valid() && oi.buf != buffer && emitted == oi.before + oi.out
    }

    method Emit(oi: OutputInfo, b: byte)
      requires Linked(oi) && oi.CanTakeByte()
      modifies `emitted, oi`outputSize, oi`out, oi.buf
      ensures Linked(oi) && emitted == old(emitted) + [b] && oi.outputSize == old(oi.outputSize) + 1
    {
      oi.Push(b);
      emitted := emitted + [b];
    }

    /** One turn of the loop in push_bits. */
    method PutBit(oi: OutputInfo, bit: bool)
      requires WriterOk() && Linked(oi) && (|pend| == 7 ==> oi.CanTakeByte())
      modifies `currentByte, `bitIndex, `pend, `emitted, oi`outputSize, oi`out, oi.buf
      ensures WriterOk() && Linked(oi)
      ensures Sent() == old(Sent()) + [bit]
      ensures oi.outputSize == old(oi.outputSize) + if old(|pend|) == 7 then 1 else 0
      ensures |pend| == if old(|pend|) == 7 then 0 else old(|pend|) + 1
    {
      hide BitsVal, ByteBits, BitOr, Shr;
      PutBitHolds(currentByte, bitIndex, pend, bit);
      ghost var grown := pend + [bit];
      if bit {
        currentByte := BitOr(currentByte, bitIndex);
      }
      bitIndex := Shr(bitIndex, 1);
      if bitIndex == 0x00 {
        WholeByte(emitted, pend, bit);
        bitIndex := 0x80;
        Emit(oi, currentByte);
        currentByte := 0x00;
        pend := [];
        EmptyWriter();
      } else {
        pend := grown;
      }
    }

    lemma WriterBound()
      requires WriterOk()
      ensures |pend| < 8
    {
    }

    /** The whole-byte fast path of push_bits. */
    method PushWhole(oi: OutputInfo, value: byte)
      requires WriterOk() && Linked(oi) && oi.CanTakeByte() && bitIndex == 0x80
      modifies `emitted, oi`outputSize, oi`out, oi.buf
      ensures Linked(oi) && Sent() == old(Sent()) + ToBits(value, 8)
    {
      AtByteStart(currentByte, bitIndex, pend);
      OneByteBits(value);
      ByteBitsAppend(emitted, [value]);
      hide ByteBits, ToBits, WriterOk;
      Emit(oi, value);
    }

    method PushBits(oi: OutputInfo, count: nat, value: nat)
      requires WriterOk() && Linked(oi) && oi.CanTakeByte()
      requires count <= 8 && value < 256
      modifies `currentByte, `bitIndex, `pend, `emitted, oi`outputSize, oi`out, oi.buf
      ensures WriterOk() && Linked(oi)
      ensures Sent() == old(Sent()) + ToBits(value, count)
    {
      if count == 8 && bitIndex == 0x80 {
        PushWhole(oi, value);
      } else {
        hide ToBits, ByteBits, BitAnd, WriterOk, Linked, Sent, Pow2;
        ghost var o, p := oi.outputSize, |pend|;
        ghost var all := Sent() + ToBits(value, count);
        assert p < 8 by { WriterBound(); }
        for i := count downto 0
          invariant WriterOk() && Linked(oi)
          invariant Sent() + ToBits(value, i) == all
          invariant if p + (count - i) < 8 then oi.outputSize == o && |pend| == p + (count - i)
            else oi.outputSize == o + 1 && |pend| == p + (count - i) - 8
        {
          TakeBit(value, i + 1);
          ghost var before := Sent();
          var bit := BitAnd(value, Pow2(i)) != 0;
          PutBit(oi, bit);
          AppendOne(before, bit, ToBits(value, i));
        }
        NoBits(value);
        assert Sent() + [] == Sent();
      }
    }

    /** At most eight bits of the queued field; the rest stays queued. */
    method PushOutgoingBits(oi: OutputInfo) returns (count: nat)
      requires WriterOk() && Linked(oi) && oi.CanTakeByte()
      modifies `currentByte, `bitIndex, `pend, `emitted, `outgoingBitsCount, oi`outputSize, oi`out, oi.buf
      ensures WriterOk() && Linked(oi)
      ensures count == Min(8, old(outgoingBitsCount)) && outgoingBitsCount == old(outgoingBitsCount) - count
      ensures Sent() + ToBits(outgoingBits, outgoingBitsCount) == old(Sent() + ToBits(outgoingBits, outgoingBitsCount))
    {
      hide ToBits, Shr, WriterOk, Linked, Sent;
      ghost var sent := Sent();
      OutgoingChunk(outgoingBits, outgoingBitsCount);
      var value;
      if outgoingBitsCount > 8 {
        count := 8;
        value := Shr(outgoingBits, outgoingBitsCount - 8) % 256;
      } else {
        count := outgoingBitsCount;
        value := outgoingBits % 256;
      }
      NoBits(outgoingBits);
      if count > 0 {
        PushBits(oi, count, value);
        outgoingBitsCount := outgoingBitsCount - count;
        AppendTwo(sent, ToBits(value, count), ToBits(outgoingBits, outgoingBitsCount));
      }
    }

    // -------------------------------------------------------------- invariant

    /** The buffer is the window before the input position, then the input not yet dropped. */
    ghost predicate BufferOk()
      reads `inputSize, `sunk, buffer
    {
      && Shape() && inputSize <= Pow2(w) && inputSize <= |sunk|
      && Data() == (Zeros(Pow2(w)) + sunk)[|sunk| - inputSize..]
    }

    ghost predicate ScanOk(s: State)
      reads `inputSize, `matchScanIndex, `matchLength, `matchPos, `finishing, `sunk, `tokens, `cur
    {
      Scan(w, l, s, sunk, inputSize, matchScanIndex, matchLength, matchPos, finishing, tokens, cur)
    }

    ghost predicate BitsOk(s: State)
      reads `currentByte, `bitIndex, `pend, `emitted, `outgoingBits, `outgoingBitsCount, `matchLength, `tokens, `cur,
        `sunk
    {
      if s == Done then emitted == Compress(w, l, sunk)
      else WriterOk() && Wrote(w, l, s, Sent(), outgoingBits, outgoingBitsCount, matchLength, tokens, cur)
    }

    /** The two parts of the invariant as statements about values. */
    lemma Unfold(s: State)
      ensures ScanOk(s) == Scan(w, l, s, sunk, inputSize, matchScanIndex, matchLength, matchPos, finishing, tokens, cur)
      ensures s != Done ==> (BitsOk(s) <==>
        WriterOk() && Wrote(w, l, s, Sent(), outgoingBits, outgoingBitsCount, matchLength, tokens, cur))
      ensures BitsOk(Done) <==> emitted == Compress(w, l, sunk)
    {
    }

    ghost predicate ValidAt(s: State)
      reads `inputSize, `matchScanIndex, `matchLength, `matchPos, `finishing, `sunk, `tokens, `cur, buffer, index
      reads `currentByte, `bitIndex, `pend, `emitted, `outgoingBits, `outgoingBitsCount
    {
      BufferOk() && ScanOk(s) && BitsOk(s) && (s == Search || Writing(s) ==> Indexed())
    }

    ghost predicate Valid()
      reads this, buffer, index
    {
      ValidAt(state)
    }

    // -------------------------------------------------------------- the steps

    lemma SearchFacts(m: nat)
      requires BufferOk() && matchScanIndex < inputSize && m == Min(Pow2(l), inputSize - matchScanIndex)
      ensures var b := Best(Data(), matchScanIndex, Pow2(w) + matchScanIndex, m);
        NextToken(w, l, sunk, |sunk| - inputSize + matchScanIndex) ==
          if b.len > BreakEven(w, l) then Backref(Pow2(w) + matchScanIndex - b.pos, b.len)
          else Literal(sunk[|sunk| - inputSize + matchScanIndex])
    {
      hide Pow2, Best, NextToken, BreakEven;
      SearchIsNext(w, l, sunk, Data(), inputSize, matchScanIndex);
    }

    /** What find_longest_match returned becomes the token to write. */
    method RecordMatch(pos: nat, len: nat)
      requires ScanOk(Search) && BitsOk(Search)
      requires matchScanIndex < inputSize <= 0x4000 && inputSize <= |sunk| && (!finishing ==> matchScanIndex + Pow2(l) <= inputSize)
      requires NextToken(w, l, sunk, |sunk| - inputSize + matchScanIndex) ==
        if pos == MATCH_NOT_FOUND then Literal(sunk[|sunk| - inputSize + matchScanIndex]) else Backref(pos, len)
      modifies `matchScanIndex, `matchLength, `matchPos, `cur
      ensures ScanOk(YieldTagBit) && BitsOk(YieldTagBit)
    {
      hide Scan, NextToken, TokensBits, Sent, WriterOk, Pow2;
      ScanChosen(w, l, sunk, inputSize, matchScanIndex, matchLength, matchPos, finishing, tokens, cur);
      cur := NextToken(w, l, sunk, |sunk| - inputSize + matchScanIndex);
      if pos == MATCH_NOT_FOUND {
        matchScanIndex := U16(matchScanIndex + 1);
        matchLength := 0;
      } else {
        matchPos := pos;
        matchLength := len;
      }
    }

    /** The part of st_step_search that looks for a match. */
    method SearchHere(lookaheadSz: nat)
      requires BufferOk() && Indexed() && ScanOk(Search) && BitsOk(Search)
      requires matchScanIndex < inputSize && (!finishing ==> matchScanIndex + Pow2(l) <= inputSize)
      requires lookaheadSz == Pow2(l) <= Pow2(w) <= 0x4000
      modifies `matchScanIndex, `matchLength, `matchPos, `cur
      ensures ScanOk(YieldTagBit) && BitsOk(YieldTagBit)
    {
      hide Pow2, Zeros, Sent, Indexed, Scan, TokensBits, TokenBits, Wrote, ScanOk, BitsOk, NextToken, Best, BreakEven,
        Min;
      var msi := matchScanIndex;
      var end := U16(Pow2(w) + msi);
      var start := U16(end - Pow2(w));
      var maxPossible := lookaheadSz;
      if inputSize - msi < lookaheadSz {
        maxPossible := inputSize - msi;
      }
      assert maxPossible == Min(Pow2(l), inputSize - msi);
      SearchFacts(maxPossible);
      var pos, len := FindLongestMatch(start, end, maxPossible);
      RecordMatch(pos, len);
    }

    method StStepSearch() returns (s: State)
      requires ValidAt(Search)
      modifies `matchScanIndex, `matchLength, `matchPos, `cur
      ensures ValidAt(s)
      ensures s == YieldTagBit || s == FlushBits || s == SaveBacklog
    {
      hide *;
      WritingStates();
      ValidIs(Search);
      SearchBoundsOk();
      var lookaheadSz := U16(Pow2(l));
      var msi := matchScanIndex;
      if msi > inputSize - (if finishing then 1 else lookaheadSz) {
        Exhausted();
        s := if finishing then FlushBits else SaveBacklog;
      } else {
        SearchHere(lookaheadSz);
        s := YieldTagBit;
      }
      ValidIs(s);
    }

    lemma Exhausted()
      requires ScanOk(Search) && BitsOk(Search)
      requires matchScanIndex > inputSize - (if finishing then 1 else Pow2(l))
      ensures ScanOk(if finishing then FlushBits else SaveBacklog)
      ensures BitsOk(if finishing then FlushBits else SaveBacklog)
    {
      hide Scan, TokensBits, Sent, WriterOk, Pow2;
      ScanExhausted(w, l, sunk, inputSize, matchScanIndex, matchLength, matchPos, finishing, tokens, cur);
    }

    lemma SearchBoundsOk()
      requires ValidAt(Search)
      ensures Shape() && inputSize <= Pow2(w) <= 0x4000 && 8 <= Pow2(l) <= Pow2(w) && inputSize <= |sunk|
      ensures |Data()| == Pow2(w) + inputSize && matchScanIndex <= inputSize
    {
      SmallWindow(w, l);
      hide Pow2, GreedySoFar, Wrote, Indexed;
    }

    method StYieldTagBit(oi: OutputInfo) returns (s: State)
      requires Shape() && ScanOk(YieldTagBit) && BitsOk(YieldTagBit) && Linked(oi)
      modifies `currentByte, `bitIndex, `pend, `emitted, `outgoingBits, `outgoingBitsCount, oi`outputSize, oi`out,
        oi.buf
      ensures ScanOk(s) && BitsOk(s) && Linked(oi)
      ensures if old(oi.CanTakeByte()) then s == YieldLiteral || s == YieldBrIndex
        else s == YieldTagBit && oi.outputSize == old(oi.outputSize)
    {
      hide *;
      TagBits();
      WritingStates();
      CurShape(YieldTagBit);
      SmallDist();
      Unfold(YieldTagBit);
      s := YieldTagBit;
      if oi.CanTakeByte() {
        WroteTag(w, l, Sent(), outgoingBits, outgoingBitsCount, matchLength, tokens, cur);
        if matchLength == 0 {
          PushBits(oi, 1, 0x01);
          s := YieldLiteral;
        } else {
          PushBits(oi, 1, 0x00);
          outgoingBits := U16(matchPos - 1);
          outgoingBitsCount := w;
          s := YieldBrIndex;
        }
      }
      ScanWriting(w, l, YieldTagBit, s, sunk, inputSize, matchScanIndex, matchLength, matchPos, finishing, tokens, cur);
      Unfold(s);
    }

    lemma SmallDist()
      requires Shape() && TokenOk(w, l, cur)
      ensures cur.Backref? ==> 1 <= cur.dist <= 0x4000 && 1 <= cur.len <= 0x4000
    {
      SmallWindow(w, l);
    }

    /** The token being written, as the fields say it. */
    lemma CurShape(s: State)
      requires Writing(s) && ScanOk(s)
      ensures TokenOk(w, l, cur) && inputSize <= |sunk| && matchScanIndex <= inputSize
      ensures matchLength > 0 ==> cur == Backref(matchPos, matchLength)
      ensures matchLength == 0 ==> matchScanIndex >= 1 && cur == Literal(sunk[|sunk| - inputSize + matchScanIndex - 1])
    {
      hide GreedySoFar, Settled, Pow2, TokensLen;
    }

    method StYieldLiteral(oi: OutputInfo) returns (s: State)
      requires BufferOk() && ScanOk(YieldLiteral) && BitsOk(YieldLiteral) && Linked(oi)
      modifies `currentByte, `bitIndex, `pend, `emitted, `tokens, oi`outputSize, oi`out, oi.buf
      ensures ScanOk(s) && BitsOk(s) && Linked(oi)
      ensures if old(oi.CanTakeByte()) then s == Search && TokensLen(tokens) > old(TokensLen(tokens))
        else s == YieldLiteral && oi.outputSize == old(oi.outputSize) && tokens == old(tokens)
    {
      hide *;
      WritingStates();
      CurShape(YieldLiteral);
      LiteralFacts();
      Unfold(YieldLiteral);
      if oi.CanTakeByte() {
        WroteLiteral(w, l, Sent(), outgoingBits, outgoingBitsCount, matchLength, tokens, cur);
        ScanFinished(w, l, YieldLiteral, sunk, inputSize, matchScanIndex, matchLength, matchPos, finishing, tokens,
          cur);
        PushLiteralByte(oi);
        tokens := tokens + [cur];
        s := Search;
        Unfold(s);
      } else {
        s := YieldLiteral;
      }
    }

    lemma LiteralFacts()
      requires ScanOk(YieldLiteral) && BitsOk(YieldLiteral)
      ensures matchLength == 0 && cur.Literal? && WriterOk() && 1 <= matchScanIndex <= inputSize
    {
      hide GreedySoFar, Settled, Pow2, TokensLen, NextToken, TokensBits, Sent, WriterOk;
    }

    method PushLiteralByte(oi: OutputInfo)
      requires BufferOk() && 1 <= matchScanIndex <= inputSize && WriterOk() && Linked(oi) && oi.CanTakeByte()
      requires cur == Literal(sunk[|sunk| - inputSize + matchScanIndex - 1])
      modifies `currentByte, `bitIndex, `pend, `emitted, oi`outputSize, oi`out, oi.buf
      ensures WriterOk() && Linked(oi) && Sent() == old(Sent()) + ToBits(cur.c, 8)
    {
      hide *;
      LiteralByte();
      var processedOffset := U16(matchScanIndex - 1);
      var inputOffset := U16(Pow2(w) + processedOffset);
      PushBits(oi, 8, buffer[inputOffset]);
    }

    /** The literal byte is read from where the scan has just passed. */
    lemma LiteralByte()
      requires BufferOk() && 1 <= matchScanIndex <= inputSize
      ensures Pow2(w) + matchScanIndex < 0x1_0000 && Pow2(w) + matchScanIndex - 1 < buffer.Length
      ensures buffer[Pow2(w) + matchScanIndex - 1] == sunk[|sunk| - inputSize + matchScanIndex - 1]
    {
      SmallWindow(w, l);
      hide Pow2;
      assert buffer[Pow2(w) + matchScanIndex - 1] == Data()[Pow2(w) + matchScanIndex - 1];
    }

    method StYieldBrIndex(oi: OutputInfo) returns (s: State)
      requires Shape() && ScanOk(YieldBrIndex) && BitsOk(YieldBrIndex) && Linked(oi)
      modifies `currentByte, `bitIndex, `pend, `emitted, `outgoingBits, `outgoingBitsCount, oi`outputSize, oi`out,
        oi.buf
      ensures ScanOk(s) && BitsOk(s) && Linked(oi)
      ensures s == YieldBrIndex || s == YieldBrLength
      ensures s == YieldBrIndex && old(oi.CanTakeByte()) ==> outgoingBitsCount < old(outgoingBitsCount)
      ensures !old(oi.CanTakeByte()) ==> s == YieldBrIndex && oi.outputSize == old(oi.outputSize)
    {
      hide *;
      WritingStates();
      CurShape(YieldBrIndex);
      BackrefFacts(YieldBrIndex);
      Unfold(YieldBrIndex);
      s := YieldBrIndex;
      if oi.CanTakeByte() {
        ghost var sent, cnt := Sent(), outgoingBitsCount;
        var n := PushOutgoingBits(oi);
        WroteQueue(w, l, YieldBrIndex, sent, Sent(), outgoingBits, cnt, outgoingBitsCount, matchLength, tokens, cur);
        if n == 0 {
          WroteIndex(w, l, Sent(), outgoingBits, matchLength, tokens, cur);
          outgoingBits := U16(matchLength - 1);
          outgoingBitsCount := l;
          s := YieldBrLength;
        }
      }
      ScanWriting(w, l, YieldBrIndex, s, sunk, inputSize, matchScanIndex, matchLength, matchPos, finishing, tokens,
        cur);
      Unfold(s);
    }

    lemma BackrefFacts(s: State)
      requires Shape() && Writing(s) && ScanOk(s) && BitsOk(s) && (s == YieldBrIndex || s == YieldBrLength)
      ensures cur == Backref(matchPos, matchLength) && 1 <= matchLength <= 0x4000 && WriterOk()
    {
      SmallWindow(w, l);
      CurShape(s);
      hide GreedySoFar, Settled, Pow2, TokensLen, NextToken, TokensBits, Sent, WriterOk, ToBits, TokenBits;
    }

    method StYieldBrLength(oi: OutputInfo) returns (s: State)
      requires Shape() && inputSize <= Pow2(w) && ScanOk(YieldBrLength) && BitsOk(YieldBrLength) && Linked(oi)
      modifies `currentByte, `bitIndex, `pend, `emitted, `outgoingBitsCount, `matchScanIndex, `matchLength, `tokens
      modifies oi`outputSize, oi`out, oi.buf
      ensures ScanOk(s) && BitsOk(s) && Linked(oi)
      ensures s == YieldBrLength || (s == Search && TokensLen(tokens) > old(TokensLen(tokens)))
      ensures s == YieldBrLength ==> tokens == old(tokens)
      ensures s == YieldBrLength && old(oi.CanTakeByte()) ==> outgoingBitsCount < old(outgoingBitsCount)
      ensures !old(oi.CanTakeByte()) ==> s == YieldBrLength && oi.outputSize == old(oi.outputSize)
    {
      hide *;
      WritingStates();
      CurShape(YieldBrLength);
      BackrefFacts(YieldBrLength);
      ScanRoom();
      Unfold(YieldBrLength);
      s := YieldBrLength;
      if oi.CanTakeByte() {
        ghost var sent, cnt := Sent(), outgoingBitsCount;
        var n := PushOutgoingBits(oi);
        WroteQueue(w, l, YieldBrLength, sent, Sent(), outgoingBits, cnt, outgoingBitsCount, matchLength, tokens, cur);
        if n == 0 {
          WroteLength(w, l, Sent(), outgoingBits, matchLength, tokens, cur);
          ScanFinished(w, l, YieldBrLength, sunk, inputSize, matchScanIndex, matchLength, matchPos, finishing, tokens,
            cur);
          matchScanIndex := U16(matchScanIndex + matchLength);
          matchLength := 0;
          tokens := tokens + [cur];
          s := Search;
        }
      }
      Unfold(s);
    }

    lemma ScanRoom()
      requires Shape() && inputSize <= Pow2(w) && ScanOk(YieldBrLength) && BitsOk(YieldBrLength)
      ensures matchScanIndex + matchLength < 0x1_0000
    {
      hide *;
      WritingStates();
      CurShape(YieldBrLength);
      BackrefFacts(YieldBrLength);
      BufferBound();
    }

    lemma BufferBound()
      requires Shape()
      ensures Pow2(w) <= 0x4000
    {
      SmallWindow(w, l);
    }

    method StFlushBitBuffer(oi: OutputInfo) returns (s: State)
      requires ScanOk(FlushBits) && BitsOk(FlushBits) && Linked(oi)
      modifies `emitted, oi`outputSize, oi`out, oi.buf
      ensures ScanOk(s) && BitsOk(s) && Linked(oi)
      ensures s == Done || (s == FlushBits && bitIndex != 0x80 && !oi.CanTakeByte())
    {
      hide *;
      FlushFacts();
      Unfold(FlushBits);
      Unfold(Done);
      if bitIndex == 0x80 {
        AtByteStart(currentByte, bitIndex, pend);
        s := Done;
      } else if oi.CanTakeByte() {
        NotAtByteStart(currentByte, bitIndex, pend);
        FlushIsPack(currentByte, bitIndex, pend);
        Emit(oi, currentByte);
        Unfold(Done);
        s := Done;
      } else {
        s := FlushBits;
      }
    }

    /** When the scan is over, what is out plus the padded rest is the whole compressed input. */
    lemma FlushFacts()
      requires ScanOk(FlushBits) && BitsOk(FlushBits)
      ensures WriterHolds(currentByte, bitIndex, pend)
      ensures Compress(w, l, sunk) == emitted + Pack(pend)
      ensures pend == [] ==> Compress(w, l, sunk) == emitted
      ensures ScanOk(Done)
    {
      hide GreedySoFar, Settled, Pow2, TokensLen, TokensBits, Pack, Greedy, TokensOk, ByteBits, NextToken;
      GreedyDone(w, l, sunk, tokens);
      PackBytes(emitted, pend, Sent());
      PackNone();
    }

    method StSaveBacklog()
      requires BufferOk() && ScanOk(SaveBacklog) && BitsOk(SaveBacklog)
      modifies `matchScanIndex, `inputSize, buffer
      ensures BufferOk() && ScanOk(NotFull) && BitsOk(NotFull)
    {
      hide *;
      SaveFacts();
      Unfold(SaveBacklog);
      ScanSaved(w, l, sunk, inputSize, matchScanIndex, matchLength, matchPos, finishing, tokens, cur);
      WroteOther(w, l, SaveBacklog, NotFull, Sent(), outgoingBits, outgoingBitsCount, matchLength, tokens, cur);
      ShiftBuffer();
      Unfold(NotFull);
    }

    /** save_backlog: the scanned bytes become the window. */
    method ShiftBuffer()
      requires BufferOk() && inputSize == Pow2(w) <= 0x4000 && matchScanIndex <= inputSize
      modifies `matchScanIndex, `inputSize, buffer
      ensures BufferOk() && matchScanIndex == 0 && inputSize == old(inputSize - matchScanIndex)
    {
      hide Pow2, Zeros;
      ghost var data, all := Data(), Zeros(Pow2(w)) + sunk;
      var msi := matchScanIndex;
      var rem := U16(Pow2(w) - msi);
      var shiftSz := U16(Pow2(w) + rem);
      forall i | 0 <= i < shiftSz {
        buffer[i] := buffer[Pow2(w) - rem + i];
      }
      matchScanIndex := 0;
      inputSize := U16(inputSize - (Pow2(w) - rem));
      assert Data() == data[msi..];
      DropDrop(all, |sunk| - Pow2(w), msi);
    }

    lemma SaveFacts()
      requires BufferOk() && ScanOk(SaveBacklog)
      ensures inputSize == Pow2(w) <= 0x4000 && matchScanIndex <= inputSize && Pow2(l) <= Pow2(w)
    {
      SmallWindow(w, l);
      hide Pow2, GreedySoFar, TokensLen;
    }

    // -------------------------------------------------------------- the public calls

    lemma ReadyIs()
      ensures Ready() <==> Valid() && state != SaveBacklog
    {
    }

    lemma ValidIs(s: State)
      ensures ValidAt(s) <==> (BufferOk() && ScanOk(s) && BitsOk(s) && (s == Search || Writing(s) ==> Indexed()))
      ensures Valid() <==> ValidAt(state)
    {
    }

    method StFilled()
      requires ValidAt(Filled)
      modifies index
      ensures ValidAt(Search)
    {
      hide *;
      ValidIs(Filled);
      BufferFacts(Filled);
      Unfold(Filled);
      ScanIndexed(w, l, sunk, inputSize, matchScanIndex, matchLength, matchPos, finishing, tokens, cur);
      WroteOther(w, l, Filled, Search, Sent(), outgoingBits, outgoingBitsCount, matchLength, tokens, cur);
      DoIndexing();
      Unfold(Search);
      ValidIs(Search);
    }

    lemma LinkedApart(oi: OutputInfo)
      requires Linked(oi)
      ensures oi.buf != buffer
    {
    }

    /** One turn of the poll loop, in a state that does not end it. */
    method Step(oi: OutputInfo)
      requires Valid() && Linked(oi) && state != NotFull && state != FlushBits && state != Done
      modifies this, buffer, index, oi`outputSize, oi`out, oi.buf
      ensures Valid() && Linked(oi) && sunk == old(sunk) && finishing == old(finishing)
      ensures state == old(state) ==> (Writing(state) && tokens == old(tokens) &&
        if old(oi.CanTakeByte()) then outgoingBitsCount < old(outgoingBitsCount) else oi.outputSize == old(oi.outputSize))
      ensures state != old(state) ==> (TokensLen(tokens) > old(TokensLen(tokens))
        || (tokens == old(tokens) && Rank(state) < Rank(old(state))))
    {
      hide *;
      WritingStates();
      ValidIs(state);
      BufferFacts(state);
      LinkedApart(oi);
      var s;
      match state {
        case Filled =>
          StFilled();
          s := Search;
        case Search =>
          s := StStepSearch();
        case YieldTagBit =>
          s := StYieldTagBit(oi);
        case YieldLiteral =>
          s := StYieldLiteral(oi);
        case YieldBrIndex =>
          s := StYieldBrIndex(oi);
        case YieldBrLength =>
          s := StYieldBrLength(oi);
        case SaveBacklog =>
          StSaveBacklog();
          s := NotFull;
      }
      Ranks();
      ValidIs(s);
      state := s;
      ValidIs(s);
    }

    lemma BufferFacts(s: State)
      requires ValidAt(s)
      ensures Shape() && inputSize <= Pow2(w) <= 0x4000 && inputSize <= |sunk|
    {
      SmallWindow(w, l);
      hide Pow2, Scan, Wrote;
    }

    lemma StateFacts()
      requires Valid()
      ensures TokensLen(tokens) <= |sunk|
      ensures state == NotFull ==> !finishing
      ensures state == FlushBits || state == Done ==> finishing
    {
      hide TokensLen, NextToken, Pow2, Settled, BufferOk, BitsOk, Indexed;
    }

    lemma LinkedFacts(oi: OutputInfo)
      requires Linked(oi)
      ensures oi.outputSize <= oi.bufSize && (oi.CanTakeByte() <==> oi.outputSize < oi.bufSize)
      ensures oi.off + oi.bufSize <= oi.buf.Length && |oi.head| == oi.off
      ensures oi.buf[..oi.off] == oi.head
      ensures emitted == oi.before + oi.buf[oi.off..oi.off + oi.outputSize]
    {
      ghost var all := oi.buf[..oi.off + oi.outputSize];
      assert all[..oi.off] == oi.head && all[oi.off..] == oi.out;
    }

    lemma StartLinked(oi: OutputInfo)
      requires oi.Valid() && oi.buf != buffer && oi.out == [] && oi.before == emitted
      ensures Linked(oi)
    {
    }

    /** The last state of poll, after which it returns whatever happened. */
    method Flush(oi: OutputInfo)
      requires Valid() && Linked(oi) && state == FlushBits
      modifies this, oi`outputSize, oi`out, oi.buf
      ensures Valid() && Linked(oi) && sunk == old(sunk) && finishing == old(finishing)
      ensures state == Done || (state == FlushBits && !oi.CanTakeByte())
    {
      hide *;
      WritingStates();
      ValidIs(FlushBits);
      BufferFacts(FlushBits);
      LinkedApart(oi);
      var s := StFlushBitBuffer(oi);
      ValidIs(s);
      state := s;
      ValidIs(s);
    }

    /** What holds between calls. */
    ghost predicate Ready()
      reads this, buffer, index
    {
      Valid() && state != SaveBacklog
    }

    /** At any moment the output so far begins what the input so far compresses to. */
    lemma EmittedIsPrefix()
      requires Valid()
      ensures emitted <= Compress(w, l, sunk)
      ensures |emitted| <= |Compress(w, l, sunk)|
    {
      hide *;
      ValidIs(state);
      Unfold(state);
      if state != Done {
        SentPrefix(w, l, state, sunk, inputSize, matchScanIndex, matchLength, matchPos, finishing, tokens, cur,
          Sent(), outgoingBits, outgoingBitsCount);
        PackPrefix();
      }
    }

    lemma PackPrefix()
      requires Sent() <= TokensBits(w, l, Greedy(w, l, sunk, 0))
      ensures emitted <= Compress(w, l, sunk)
    {
      hide Greedy, TokensBits, ByteBits, Pack;
      var all := TokensBits(w, l, Greedy(w, l, sunk, 0));
      var more := pend + all[|Sent()|..];
      assert all == ByteBits(emitted) + more;
      PackBytes(emitted, more, all);
    }

    /** heatshrink_encoder_poll on `out[off..off + size]`. */
    method Poll(outBuf: array<byte>, off: nat, size: nat) returns (res: PollRes, outputSize: nat)
      requires Ready() && off + size <= outBuf.Length && outBuf != buffer
      modifies this, buffer, index, outBuf
      ensures Ready() && sunk == old(sunk) && finishing == old(finishing)
      ensures outputSize <= size
      ensures outBuf[..off] == old(outBuf[..off])
      ensures emitted == old(emitted) + outBuf[off..off + outputSize]
      ensures res == PollErrorMisuse <==> size == 0
      ensures res == PollErrorMisuse ==> outputSize == 0 && state == old(state)
      ensures res == PollEmpty ==>
        if finishing then state == Done || (state == FlushBits && outputSize == size) else state == NotFull
      ensures res == PollMore ==> outputSize == size && Writing(state)
      ensures old(state) == NotFull || old(state) == Done ==> state == old(state)
    {
      hide *;
      if size == 0 {
        return PollErrorMisuse, 0;
      }
      var oi := new OutputInfo(outBuf, off, size, emitted);
      StartLinked(oi);
      res := PollLoop(oi);
      LinkedFacts(oi);
      outputSize := oi.outputSize;
    }

    /** The loop of poll. */
    method PollLoop(oi: OutputInfo) returns (res: PollRes)
      requires Ready() && Linked(oi)
      modifies this, buffer, index, oi`outputSize, oi`out, oi.buf
      ensures Ready() && Linked(oi) && sunk == old(sunk) && finishing == old(finishing)
      ensures res != PollErrorMisuse && (res == PollMore ==> !oi.CanTakeByte() && Writing(state))
      ensures res == PollEmpty ==>
        if finishing then state == Done || (state == FlushBits && !oi.CanTakeByte()) else state == NotFull
      ensures old(state) == NotFull || old(state) == Done ==> state == old(state)
    {
      hide *;
      ReadyIs();
      WritingStates();
      res := PollEmpty;
      StateFacts();
      while state != NotFull && state != FlushBits && state != Done
        invariant Valid() && Linked(oi) && sunk == old(sunk) && finishing == old(finishing)
        invariant old(state) == NotFull || old(state) == Done ==> state == old(state)
        invariant TokensLen(tokens) <= |sunk|
        decreases |sunk| - TokensLen(tokens), Rank(state), outgoingBitsCount
      {
        var inState := state;
        LinkedFacts(oi);
        Step(oi);
        LinkedFacts(oi);
        StateFacts();
        if state == inState {
          if oi.outputSize == oi.bufSize {
            ReadyIs();
            return PollMore;
          }
        }
      }
      StateFacts();
      if state == FlushBits {
        Flush(oi);
      }
      ReadyIs();
    }

    /** heatshrink_encoder_sink: as much of `inBuf` as fits, and only before finish and between polls. */
    method Sink(inBuf: seq<byte>) returns (res: SinkRes, n: nat)
      requires Ready()
      modifies this, buffer
      ensures Ready() && emitted == old(emitted) && finishing == old(finishing)
      ensures res == SinkErrorMisuse <==> old(finishing) || old(state) != NotFull
      ensures res == SinkErrorMisuse ==> n == 0 && sunk == old(sunk) && state == old(state)
      ensures res == SinkOk ==> n == Min(Pow2(w) - old(inputSize), |inBuf|)
      ensures res == SinkOk ==> sunk == old(sunk) + inBuf[..n] && inputSize == old(inputSize) + n
      ensures res == SinkOk ==> state == if inputSize == Pow2(w) then Filled else NotFull
    {
      hide *;
      ReadyIs();
      if finishing || state != NotFull {
        return SinkErrorMisuse, 0;
      }
      WritingStates();
      ValidIs(NotFull);
      BufferFacts(NotFull);
      var rem := U16(Pow2(w) - inputSize);
      n := if rem < |inBuf| then rem else |inBuf|;
      Unfold(NotFull);
      ghost var more := inBuf[..n];
      ScanSunk(w, l, sunk, more, inputSize, matchScanIndex, matchLength, matchPos, finishing, tokens, cur);
      WroteOther(w, l, NotFull, Filled, Sent(), outgoingBits, outgoingBitsCount, matchLength, tokens, cur);
      FillBuffer(inBuf, n);
      if n == rem {
        state := Filled;
      }
      Unfold(state);
      ValidIs(state);
      ReadyIs();
      res := SinkOk;
    }

    /** The copy into the buffer, after what is already there. */
    method FillBuffer(inBuf: seq<byte>, n: nat)
      requires BufferOk() && n <= |inBuf| && inputSize + n <= Pow2(w) <= 0x4000
      modifies `inputSize, `sunk, buffer
      ensures BufferOk() && inputSize == old(inputSize) + n && sunk == old(sunk) + inBuf[..n]
    {
      hide Pow2, Zeros;
      ghost var data, all := Data(), Zeros(Pow2(w)) + sunk;
      var writeOffset := U16(Pow2(w) + inputSize);
      forall i | 0 <= i < n {
        buffer[writeOffset + i] := inBuf[i];
      }
      inputSize := U16(inputSize + n);
      sunk := sunk + inBuf[..n];
      assert Data() == data + inBuf[..n];
      assert Zeros(Pow2(w)) + sunk == all + inBuf[..n];
    }

    /** heatshrink_encoder_finish. */
    method Finish() returns (res: FinishRes)
      requires Ready()
      modifies `finishing, `state
      ensures Ready() && finishing
      ensures state == if old(state) == NotFull then Filled else old(state)
      ensures res == FinishDone <==> state == Done
      ensures res == FinishDone ==> emitted == Compress(w, l, sunk)
    {
      hide *;
      ReadyIs();
      WritingStates();
      ValidIs(state);
      Unfold(state);
      ScanFinishing(w, l, state, sunk, inputSize, matchScanIndex, matchLength, matchPos, finishing, tokens, cur);
      finishing := true;
      if state == NotFull {
        WroteOther(w, l, NotFull, Filled, Sent(), outgoingBits, outgoingBitsCount, matchLength, tokens, cur);
        state := Filled;
      }
      Unfold(state);
      ValidIs(state);
      ReadyIs();
      res := if state == Done then FinishDone else FinishMore;
    }

    /** heatshrink_encoder_reset; the index is not touched, it is rebuilt before every search. */
    method Reset()
      requires Shape()
      modifies this, buffer
      ensures Ready() && state == NotFull && !finishing && sunk == [] && emitted == [] && inputSize == 0
    {
      hide *;
      ClearBuffer();
      inputSize, matchScanIndex, matchLength, matchPos := 0, 0, 0, 0;
      state, finishing := NotFull, false;
      bitIndex, currentByte := 0x80, 0x00;
      outgoingBits, outgoingBitsCount := 0x0000, 0;
      pend, sunk, emitted, tokens := [], [], [], [];
      ResetIsValid();
    }

    method ClearBuffer()
      modifies buffer
      ensures forall i :: 0 <= i < buffer.Length ==> buffer[i] == 0
    {
      forall i | 0 <= i < buffer.Length {
        buffer[i] := 0;
      }
    }

    lemma ResetIsValid()
      requires Shape() && inputSize == 0 && matchScanIndex == 0 && state == NotFull && !finishing
      requires bitIndex == 0x80 && currentByte == 0x00
      requires pend == [] && sunk == [] && emitted == [] && tokens == []
      requires forall i :: 0 <= i < buffer.Length ==> buffer[i] == 0
      ensures Ready()
    {
      hide *;
      WritingStates();
      Unfold(NotFull);
      ScanStart(w, l, matchLength, matchPos, cur);
      WriterStart();
      BufferStart();
      ValidIs(NotFull);
      ReadyIs();
    }

    lemma BufferStart()
      requires Shape() && inputSize == 0 && sunk == []
      requires forall i :: 0 <= i < buffer.Length ==> buffer[i] == 0
      ensures BufferOk()
    {
      hide Pow2;
      assert Data() == Zeros(Pow2(w)) + sunk;
    }

    lemma WriterStart()
      requires bitIndex == 0x80 && currentByte == 0x00 && pend == [] && emitted == [] && tokens == []
      ensures WriterOk() && Wrote(w, l, NotFull, Sent(), outgoingBits, outgoingBitsCount, matchLength, tokens, cur)
    {
      EmptyWriter();
    }

    /** heatshrink_encoder_alloc. */
    constructor (w: nat, l: nat)
      requires EncoderSizes(w, l)
      ensures Ready() && fresh(buffer) && fresh(index) && this.w == w && this.l == l
      ensures state == NotFull && !finishing && sunk == [] && emitted == [] && inputSize == 0
    {
      this.w, this.l := w, l;
      buffer := new byte[2 * Pow2(w)];
      index := new int[2 * Pow2(w)];
      new;
      Reset();
    }

    /** An encoder waiting for input has room for some. */
    lemma RoomLeft()
      requires Valid() && state == NotFull
      ensures inputSize < Pow2(w)
    {
      hide Pow2, GreedySoFar, BufferOk, BitsOk, Indexed;
    }

    /** Once the encoder is done, its whole output is a function of its whole input. */
    lemma DoneIsCompressed()
      requires Valid() && state == Done
      ensures emitted == Compress(w, l, sunk)
    {
      hide *;
      ValidIs(Done);
      Unfold(Done);
    }
  }
}
