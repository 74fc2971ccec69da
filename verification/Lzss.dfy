/**
 * The compressed format on its own: tokens, their bits, what a bit string decodes to, and the token
 * sequence a greedy encoder picks. No buffering and no suspension; the two streaming state machines
 * are proved against these functions.
 */
module Lzss {
  import opened Bits

  datatype Token = Literal(c: byte) | Backref(dist: nat, len: nat)

  /** `window_sz2` and `lookahead_sz2` as the allocators admit them. */
  predicate ValidSizes(w: nat, l: nat) {
    4 <= w <= 15 && 3 <= l < w
  }

  predicate TokenOk(w: nat, l: nat, t: Token) {
    t.Backref? ==> 1 <= t.dist <= Pow2(w) && 1 <= t.len <= Pow2(l)
  }

  function TokenLen(t: Token): nat {
    if t.Literal? then 1 else t.len
  }

  // ---------------------------------------------------------------- tokens and bits

  function TokenBits(w: nat, l: nat, t: Token): (s: bits)
    requires TokenOk(w, l, t)
    ensures |s| == if t.Literal? then 9 else 1 + w + l
  {
    match t
    case Literal(c) => [true] + ToBits(c, 8)
    case Backref(d, k) => [false] + ToBits(d - 1, w) + ToBits(k - 1, l)
  }

  ghost predicate TokensOk(w: nat, l: nat, ts: seq<Token>) {
    forall i :: 0 <= i < |ts| ==> TokenOk(w, l, ts[i])
  }

  function TokensBits(w: nat, l: nat, ts: seq<Token>): bits
    requires TokensOk(w, l, ts)
  {
    if ts == [] then []
    else TokensBits(w, l, ts[..|ts| - 1]) + TokenBits(w, l, ts[|ts| - 1])
  }

  lemma TokensSnoc(w: nat, l: nat, ts: seq<Token>, t: Token)
    requires TokensOk(w, l, ts) && TokenOk(w, l, t)
    ensures TokensOk(w, l, ts + [t])
    ensures TokensBits(w, l, ts + [t]) == TokensBits(w, l, ts) + TokenBits(w, l, t)
  {
    assert (ts + [t])[..|ts|] == ts;
  }

  lemma {:induction false} TokensBitsPrefix(w: nat, l: nat, ts: seq<Token>, more: seq<Token>)
    requires TokensOk(w, l, ts + more)
    ensures TokensOk(w, l, ts)
    ensures TokensBits(w, l, ts) <= TokensBits(w, l, ts + more)
    decreases |more|
  {
    assert forall i :: 0 <= i < |ts| ==> ts[i] == (ts + more)[i];
    if more == [] {
      assert ts + more == ts;
    } else {
      var ini := more[..|more| - 1];
      assert (ts + more)[..|ts + more| - 1] == ts + ini;
      TokensBitsPrefix(w, l, ts, ini);
    }
  }

  datatype Parsed = Parsed(tok: Token, rest: bits) | Incomplete

  function ParseToken(w: nat, l: nat, s: bits): (r: Parsed)
    ensures r.Parsed? ==> |r.rest| < |s| && TokenOk(w, l, r.tok)
  {
    if s == [] then Incomplete
    else if s[0] then
      if |s| < 9 then Incomplete
      else Parsed(LiteralOf(s[1..9]), s[9..])
    else if |s| < 1 + w + l then Incomplete
    else Parsed(Backref(BitsVal(s[1..1 + w]) + 1, BitsVal(s[1 + w..1 + w + l]) + 1), s[1 + w + l..])
  }

  function LiteralOf(s: bits): Token
    requires |s| == 8
  {
    assert Pow2(8) == 256;
    Literal(BitsVal(s))
  }

  lemma ParseLiteral(w: nat, l: nat, c: byte, rest: bits)
    ensures ParseToken(w, l, [true] + ToBits(c, 8) + rest) == Parsed(Literal(c), rest)
  {
    var s := [true] + ToBits(c, 8) + rest;
    assert s[1..9] == ToBits(c, 8);
    assert s[9..] == rest;
    ToBitsVal(c, 8);
  }

  lemma ParseFields(w: nat, l: nat, dist: bits, len: bits, rest: bits, s: bits)
    requires |dist| == w && |len| == l
    requires s == [false] + dist + len + rest
    ensures |s| >= 1 + w + l && !s[0]
    ensures s[1..1 + w] == dist && s[1 + w..1 + w + l] == len && s[1 + w + l..] == rest
  {
  }

  lemma ParseBackref(w: nat, l: nat, d: nat, k: nat, rest: bits, s: bits)
    requires 1 <= d <= Pow2(w) && 1 <= k <= Pow2(l)
    requires s == [false] + ToBits(d - 1, w) + ToBits(k - 1, l) + rest
    ensures ParseToken(w, l, s) == Parsed(Backref(d, k), rest)
  {
    hide ToBits, BitsVal, Pow2;
    ParseFields(w, l, ToBits(d - 1, w), ToBits(k - 1, l), rest, s);
    ToBitsVal(d - 1, w);
    ToBitsVal(k - 1, l);
  }

  lemma ParseInverse(w: nat, l: nat, t: Token, rest: bits)
    requires TokenOk(w, l, t)
    ensures ParseToken(w, l, TokenBits(w, l, t) + rest) == Parsed(t, rest)
  {
    match t
    case Literal(c) =>
      ParseLiteral(w, l, c, rest);
    case Backref(d, k) =>
      ParseBackref(w, l, d, k, rest, TokenBits(w, l, t) + rest);
  }

  /**
   * The format: a literal is a one and the byte, a back-reference a zero, then the distance and the
   * length, each less one, in fields of w and l bits.
   */
  lemma TokenFormat(w: nat, l: nat, t: Token)
    requires TokenOk(w, l, t)
    ensures var s := TokenBits(w, l, t);
      match t
      case Literal(c) => |s| == 9 && s[0] && BitsVal(s[1..]) == c
      case Backref(d, k) =>
        |s| == 1 + w + l && !s[0] && BitsVal(s[1..1 + w]) == d - 1 && BitsVal(s[1 + w..]) == k - 1
  {
    hide ToBits, BitsVal, Pow2;
    var s := TokenBits(w, l, t);
    match t
    case Literal(c) =>
      assert Pow2(8) == 256 by { Pow2Table(); }
      ToBitsVal(c, 8);
      assert s[1..] == ToBits(c, 8);
    case Backref(d, k) =>
      ToBitsVal(d - 1, w);
      ToBitsVal(k - 1, l);
      assert s[1..1 + w] == ToBits(d - 1, w) && s[1 + w..] == ToBits(k - 1, l);
  }

  // ---------------------------------------------------------------- decoding

  /** `n` bytes copied one at a time from `dist` back, so a copy may read what it has just written. */
  function Copy(h: seq<byte>, dist: nat, n: nat): (r: seq<byte>)
    requires 1 <= dist <= |h|
    ensures |r| == |h| + n
    decreases n
  {
    if n == 0 then h else Copy(h + [h[|h| - dist]], dist, n - 1)
  }

  function Apply(h: seq<byte>, t: Token): (r: seq<byte>)
    requires t.Backref? ==> 1 <= t.dist <= |h|
    ensures |r| == |h| + TokenLen(t)
  {
    match t
    case Literal(c) => h + [c]
    case Backref(d, k) => Copy(h, d, k)
  }

  function Expand(w: nat, l: nat, h: seq<byte>, ts: seq<Token>): (r: seq<byte>)
    requires TokensOk(w, l, ts) && |h| >= Pow2(w)
    ensures |r| >= |h|
  {
    if ts == [] then h
    else Apply(Expand(w, l, h, ts[..|ts| - 1]), ts[|ts| - 1])
  }

  lemma CopyStep(h: seq<byte>, dist: nat, n: nat)
    requires 1 <= dist <= |h| && n > 0
    ensures Copy(h, dist, n) == Copy(h + [h[|h| - dist]], dist, n - 1)
  {
  }

  lemma {:induction false} CopyExtends(h: seq<byte>, dist: nat, n: nat)
    requires 1 <= dist <= |h|
    ensures h <= Copy(h, dist, n)
    decreases n
  {
    if n > 0 {
      CopyExtends(h + [h[|h| - dist]], dist, n - 1);
    }
  }

  lemma {:induction false} DecodeExtends(w: nat, l: nat, h: seq<byte>, s: bits)
    requires |h| >= Pow2(w)
    ensures h <= Decode(w, l, h, s)
    decreases |s|
  {
    var p := ParseToken(w, l, s);
    if p.Parsed? {
      if p.tok.Backref? {
        CopyExtends(h, p.tok.dist, p.tok.len);
      }
      DecodeExtends(w, l, Apply(h, p.tok), p.rest);
    }
  }

  lemma ExpandSnoc(w: nat, l: nat, h: seq<byte>, ts: seq<Token>, t: Token)
    requires TokensOk(w, l, ts) && TokenOk(w, l, t) && |h| >= Pow2(w)
    ensures TokensOk(w, l, ts + [t])
    ensures Expand(w, l, h, ts + [t]) == Apply(Expand(w, l, h, ts), t)
  {
    assert (ts + [t])[..|ts|] == ts;
  }

  /** The history `h` extended by everything the bits `s` stand for; an incomplete last token is dropped. */
  function Decode(w: nat, l: nat, h: seq<byte>, s: bits): (r: seq<byte>)
    requires |h| >= Pow2(w)
    ensures |r| >= |h|
    decreases |s|
  {
    match ParseToken(w, l, s)
    case Incomplete => h
    case Parsed(t, rest) => Decode(w, l, Apply(h, t), rest)
  }

  function Decompress(w: nat, l: nat, bs: seq<byte>): seq<byte> {
    Decode(w, l, Zeros(Pow2(w)), ByteBits(bs))[Pow2(w)..]
  }

  lemma {:induction false} DecodeTokens(w: nat, l: nat, h: seq<byte>, ts: seq<Token>, rest: bits)
    requires TokensOk(w, l, ts) && |h| >= Pow2(w)
    ensures Decode(w, l, h, TokensBits(w, l, ts) + rest) == Decode(w, l, Expand(w, l, h, ts), rest)
    decreases |ts|
  {
    if ts == [] {
      assert TokensBits(w, l, ts) + rest == rest;
    } else {
      var ini, t := ts[..|ts| - 1], ts[|ts| - 1];
      var more := TokenBits(w, l, t) + rest;
      assert TokensBits(w, l, ts) + rest == TokensBits(w, l, ini) + more;
      DecodeTokens(w, l, h, ini, more);
      ParseInverse(w, l, t, rest);
    }
  }

  /** More bits can only add to what is decoded. */
  lemma {:induction false} DecodeMonotone(w: nat, l: nat, h: seq<byte>, s: bits, more: bits)
    requires |h| >= Pow2(w)
    ensures Decode(w, l, h, s) <= Decode(w, l, h, s + more)
    decreases |s|
  {
    var p := ParseToken(w, l, s);
    if p.Parsed? {
      ParseMore(w, l, s, more);
      DecodeMonotone(w, l, Apply(h, p.tok), p.rest, more);
    } else {
      DecodeExtends(w, l, h, s + more);
    }
  }

  lemma SliceMore(s: bits, more: bits, i: nat, j: nat)
    requires i <= j <= |s|
    ensures (s + more)[i..j] == s[i..j] && (s + more)[j..] == s[j..] + more
  {
  }

  lemma ParseMore(w: nat, l: nat, s: bits, more: bits)
    requires ParseToken(w, l, s).Parsed?
    ensures ParseToken(w, l, s + more) == Parsed(ParseToken(w, l, s).tok, ParseToken(w, l, s).rest + more)
  {
    hide BitsVal, Pow2;
    if s[0] {
      SliceMore(s, more, 1, 9);
    } else {
      SliceMore(s, more, 1, 1 + w);
      SliceMore(s, more, 1 + w, 1 + w + l);
    }
  }

  /** Decoding a beginning of a stream gives a beginning of what the stream decodes to. */
  lemma CompressedPrefix(w: nat, l: nat, bs: seq<byte>, n: nat)
    requires n <= |bs|
    ensures Decompress(w, l, bs[..n]) <= Decompress(w, l, bs)
  {
    hide Decode, ByteBits;
    ByteBitsAppend(bs[..n], bs[n..]);
    assert bs[..n] + bs[n..] == bs;
    DecodeMonotone(w, l, Zeros(Pow2(w)), ByteBits(bs[..n]), ByteBits(bs[n..]));
  }

  // ---------------------------------------------------------------- choosing tokens

  /** How many of the `m` bytes at `e` also stand at `p`. */
  function MatchLen(h: seq<byte>, p: nat, e: nat, m: nat): (k: nat)
    requires p < e && e + m <= |h|
    ensures k <= m
    decreases m
  {
    if m == 0 || h[p] != h[e] then 0 else 1 + MatchLen(h, p + 1, e + 1, m - 1)
  }

  /** `k` bytes agree, and the next one, if there is one, does not. */
  ghost predicate Agree(h: seq<byte>, p: nat, e: nat, m: nat, k: nat)
    requires p < e && e + m <= |h|
  {
    && k <= m
    && h[p..p + k] == h[e..e + k]
    && (k < m ==> h[p + k] != h[e + k])
  }

  lemma ConsSlice(h: seq<byte>, p: nat, k: nat)
    requires p + k < |h|
    ensures h[p..p + (k + 1)] == [h[p]] + h[p + 1..p + 1 + k]
  {
  }

  lemma AgreeCons(h: seq<byte>, p: nat, e: nat, m: nat, k: nat)
    requires p < e && e + m <= |h| && m > 0
    requires h[p] == h[e] && Agree(h, p + 1, e + 1, m - 1, k)
    ensures Agree(h, p, e, m, k + 1)
  {
    ConsSlice(h, p, k);
    ConsSlice(h, e, k);
  }

  lemma {:induction false} MatchLenAgree(h: seq<byte>, p: nat, e: nat, m: nat)
    requires p < e && e + m <= |h|
    ensures Agree(h, p, e, m, MatchLen(h, p, e, m))
    decreases m
  {
    if m > 0 && h[p] == h[e] {
      MatchLenAgree(h, p + 1, e + 1, m - 1);
      AgreeCons(h, p, e, m, MatchLen(h, p + 1, e + 1, m - 1));
    }
  }

  datatype Match = Match(pos: nat, len: nat)

  /** Scanning down from `e - 1` to `lo`, a candidate replaces the best so far only when strictly longer. */
  function Best(h: seq<byte>, lo: nat, e: nat, m: nat): (r: Match)
    requires lo <= e && e + m <= |h|
    ensures r.len <= m
    ensures r.len > 0 ==> lo <= r.pos < e
    decreases e - lo
  {
    if lo == e then Match(e, 0)
    else
      var r := Best(h, lo + 1, e, m);
      var k := MatchLen(h, lo, e, m);
      if k > r.len then Match(lo, k) else r
  }

  /** The scan finds a longest match in the window, and the nearest one of that length. */
  lemma {:induction false} BestIsLongestNearest(h: seq<byte>, lo: nat, e: nat, m: nat)
    requires lo <= e && e + m <= |h|
    ensures var r := Best(h, lo, e, m);
      && (forall p :: lo <= p < e ==> MatchLen(h, p, e, m) <= r.len)
      && (r.len > 0 ==> MatchLen(h, r.pos, e, m) == r.len)
      && (forall p :: lo <= p < e && r.len > 0 && MatchLen(h, p, e, m) == r.len ==> p <= r.pos)
    decreases e - lo
  {
    if lo < e {
      BestIsLongestNearest(h, lo + 1, e, m);
    }
  }

  lemma {:induction false} BestUnchanged(h: seq<byte>, lo: nat, mid: nat, e: nat, m: nat)
    requires lo <= mid <= e && e + m <= |h|
    requires forall p :: lo <= p < mid ==> MatchLen(h, p, e, m) <= Best(h, mid, e, m).len
    ensures Best(h, lo, e, m) == Best(h, mid, e, m)
    decreases mid - lo
  {
    if lo < mid {
      BestUnchanged(h, lo + 1, mid, e, m);
    }
  }

  lemma {:induction false} MatchLenSlice(g: seq<byte>, h: seq<byte>, off: nat, p: nat, e: nat, m: nat)
    requires off + |g| <= |h| && g == h[off..off + |g|]
    requires p < e && e + m <= |g|
    ensures MatchLen(g, p, e, m) == MatchLen(h, off + p, off + e, m)
    decreases m
  {
    if m > 0 && g[p] == g[e] {
      MatchLenSlice(g, h, off, p + 1, e + 1, m - 1);
      assert off + p + 1 == off + (p + 1) && off + e + 1 == off + (e + 1);
    }
  }

  /** The search depends only on the bytes it looks at, not on where they are stored. */
  lemma {:induction false} BestSlice(g: seq<byte>, h: seq<byte>, off: nat, lo: nat, e: nat, m: nat)
    requires off + |g| <= |h| && g == h[off..off + |g|]
    requires lo <= e && e + m <= |g|
    ensures Best(h, off + lo, off + e, m) == Match(off + Best(g, lo, e, m).pos, Best(g, lo, e, m).len)
    decreases e - lo
  {
    if lo < e {
      BestSlice(g, h, off, lo + 1, e, m);
      MatchLenSlice(g, h, off, lo, e, m);
    }
  }

  /** A match is used only when longer than this. */
  function BreakEven(w: nat, l: nat): nat {
    (1 + w + l) / 8
  }

  /** `Best` for input position `i`: the window is the 2^w bytes before it, zeros standing before the input. */
  function Longest(w: nat, l: nat, x: seq<byte>, i: nat): (r: Match)
    requires i < |x|
    ensures r.len <= Min(Pow2(l), |x| - i)
    ensures r.len > 0 ==> i <= r.pos < Pow2(w) + i
  {
    Best(Zeros(Pow2(w)) + x, i, Pow2(w) + i, Min(Pow2(l), |x| - i))
  }

  function NextToken(w: nat, l: nat, x: seq<byte>, i: nat): (t: Token)
    requires i < |x|
    ensures TokenOk(w, l, t) && 1 <= TokenLen(t) <= |x| - i
  {
    var b := Longest(w, l, x, i);
    if b.len > BreakEven(w, l) then Backref(Pow2(w) + i - b.pos, b.len) else Literal(x[i])
  }

  function Greedy(w: nat, l: nat, x: seq<byte>, i: nat): (ts: seq<Token>)
    requires i <= |x|
    ensures TokensOk(w, l, ts)
    decreases |x| - i
  {
    if i == |x| then []
    else
      var t := NextToken(w, l, x, i);
      [t] + Greedy(w, l, x, i + TokenLen(t))
  }

  function Compress(w: nat, l: nat, x: seq<byte>): seq<byte> {
    Pack(TokensBits(w, l, Greedy(w, l, x, 0)))
  }

  // ---------------------------------------------------------------- a greedy run in progress

  function TokensLen(ts: seq<Token>): nat {
    if ts == [] then 0 else TokensLen(ts[..|ts| - 1]) + TokenLen(ts[|ts| - 1])
  }

  /** `ts` are the tokens a greedy encoder of `x` has chosen so far. */
  ghost predicate GreedySoFar(w: nat, l: nat, x: seq<byte>, ts: seq<Token>)
    ensures GreedySoFar(w, l, x, ts) ==> TokensOk(w, l, ts) && TokensLen(ts) <= |x|
    decreases |ts|
  {
    ts == [] ||
    (var ini, t := ts[..|ts| - 1], ts[|ts| - 1];
     && GreedySoFar(w, l, x, ini)
     && TokensLen(ini) < |x|
     && t == NextToken(w, l, x, TokensLen(ini)))
  }

  lemma GreedyPush(w: nat, l: nat, x: seq<byte>, ts: seq<Token>)
    requires GreedySoFar(w, l, x, ts) && TokensLen(ts) < |x|
    ensures var t := NextToken(w, l, x, TokensLen(ts));
      GreedySoFar(w, l, x, ts + [t]) && TokensLen(ts + [t]) == TokensLen(ts) + TokenLen(t)
  {
    var t := NextToken(w, l, x, TokensLen(ts));
    assert (ts + [t])[..|ts|] == ts;
  }

  lemma SnocAppend(ts: seq<Token>, rest: seq<Token>)
    requires ts != []
    ensures ts[..|ts| - 1] + ([ts[|ts| - 1]] + rest) == ts + rest
  {
  }

  lemma {:induction false} GreedyPrefix(w: nat, l: nat, x: seq<byte>, ts: seq<Token>)
    requires GreedySoFar(w, l, x, ts)
    ensures Greedy(w, l, x, 0) == ts + Greedy(w, l, x, TokensLen(ts))
    decreases |ts|
  {
    hide Greedy, NextToken, TokensOk;
    if ts == [] {
      assert [] + Greedy(w, l, x, 0) == Greedy(w, l, x, 0);
    } else {
      var ini := ts[..|ts| - 1];
      GreedyPrefix(w, l, x, ini);
      GreedyOnce(w, l, x, TokensLen(ini));
      SnocAppend(ts, Greedy(w, l, x, TokensLen(ts)));
    }
  }

  lemma GreedyOnce(w: nat, l: nat, x: seq<byte>, i: nat)
    requires i < |x|
    ensures var t := NextToken(w, l, x, i);
      i + TokenLen(t) <= |x| && Greedy(w, l, x, i) == [t] + Greedy(w, l, x, i + TokenLen(t))
  {
    hide NextToken;
  }

  lemma GreedyDone(w: nat, l: nat, x: seq<byte>, ts: seq<Token>)
    requires GreedySoFar(w, l, x, ts) && TokensLen(ts) == |x|
    ensures Greedy(w, l, x, 0) == ts
  {
    GreedyPrefix(w, l, x, ts);
  }

  lemma ExpandLen(w: nat, l: nat, h: seq<byte>, ts: seq<Token>)
    requires TokensOk(w, l, ts) && |h| >= Pow2(w)
    ensures |Expand(w, l, h, ts)| == |h| + TokensLen(ts)
    decreases |ts|
  {
    if ts != [] {
      ExpandLen(w, l, h, ts[..|ts| - 1]);
    }
  }

  /** Every token of `ts` was chosen with a full lookahead in view, so more input cannot change it. */
  ghost predicate Settled(l: nat, x: seq<byte>, ts: seq<Token>) {
    ts != [] ==> TokensLen(ts[..|ts| - 1]) + Pow2(l) <= |x|
  }

  lemma LongestExtend(w: nat, l: nat, x: seq<byte>, y: seq<byte>, i: nat)
    requires i + Pow2(l) <= |x|
    ensures Longest(w, l, x + y, i) == Longest(w, l, x, i)
  {
    var g, h := Zeros(Pow2(w)) + x, Zeros(Pow2(w)) + (x + y);
    hide Best;
    assert g == h[0..0 + |g|];
    BestSlice(g, h, 0, i, Pow2(w) + i, Pow2(l));
  }

  lemma NextTokenExtend(w: nat, l: nat, x: seq<byte>, y: seq<byte>, i: nat)
    requires i + Pow2(l) <= |x|
    ensures NextToken(w, l, x + y, i) == NextToken(w, l, x, i)
  {
    LongestExtend(w, l, x, y, i);
  }

  lemma {:induction false} GreedyExtend(w: nat, l: nat, x: seq<byte>, y: seq<byte>, ts: seq<Token>)
    requires GreedySoFar(w, l, x, ts) && Settled(l, x, ts)
    ensures GreedySoFar(w, l, x + y, ts) && Settled(l, x + y, ts)
    decreases |ts|
  {
    if ts != [] {
      var ini := ts[..|ts| - 1];
      if ini != [] {
        assert TokensLen(ini[..|ini| - 1]) <= TokensLen(ini);
      }
      GreedyExtend(w, l, x, y, ini);
      NextTokenExtend(w, l, x, y, TokensLen(ini));
    }
  }

  // ---------------------------------------------------------------- the format loses nothing

  lemma {:induction false} CopyFollows(h: seq<byte>, e: nat, dist: nat, n: nat)
    requires 1 <= dist <= e && e + n <= |h|
    requires h[e - dist..e - dist + n] == h[e..e + n]
    ensures Copy(h[..e], dist, n) == h[..e + n]
    decreases n
  {
    if n > 0 {
      var from, to := h[e - dist..e - dist + n], h[e..e + n];
      assert from[0] == to[0];
      assert h[..e] + [h[e - dist]] == h[..e + 1];
      assert from[1..] == h[e + 1 - dist..e - dist + n] && to[1..] == h[e + 1..e + n];
      CopyFollows(h, e + 1, dist, n - 1);
    }
  }

  lemma CopyBest(h: seq<byte>, lo: nat, e: nat, m: nat)
    requires lo <= e && e + m <= |h| && Best(h, lo, e, m).len > 0
    ensures var r := Best(h, lo, e, m); Copy(h[..e], e - r.pos, r.len) == h[..e + r.len]
  {
    var r := Best(h, lo, e, m);
    BestIsLongestNearest(h, lo, e, m);
    MatchLenAgree(h, r.pos, e, m);
    CopyFollows(h, e, e - r.pos, r.len);
  }

  lemma ApplyNext(w: nat, l: nat, x: seq<byte>, i: nat, h: seq<byte>)
    requires i < |x| && h == Zeros(Pow2(w)) + x
    ensures var t := NextToken(w, l, x, i);
      Apply(h[..Pow2(w) + i], t) == h[..Pow2(w) + i + TokenLen(t)]
  {
    hide Best, Copy;
    if NextToken(w, l, x, i).Literal? {
      assert h[Pow2(w) + i] == x[i];
    } else {
      CopyBest(h, i, Pow2(w) + i, Min(Pow2(l), |x| - i));
    }
  }

  lemma {:induction false} ExpandGreedy(w: nat, l: nat, x: seq<byte>, ts: seq<Token>, h: seq<byte>)
    requires GreedySoFar(w, l, x, ts) && h == Zeros(Pow2(w)) + x
    ensures Expand(w, l, Zeros(Pow2(w)), ts) == h[..Pow2(w) + TokensLen(ts)]
    decreases |ts|
  {
    hide NextToken, Apply;
    if ts == [] {
      assert h[..Pow2(w)] == Zeros(Pow2(w));
    } else {
      var ini := ts[..|ts| - 1];
      ExpandGreedy(w, l, x, ini, h);
      ApplyNext(w, l, x, TokensLen(ini), h);
    }
  }

  lemma {:induction false} GreedyIsSoFar(w: nat, l: nat, x: seq<byte>, ts: seq<Token>)
    requires GreedySoFar(w, l, x, ts)
    ensures GreedySoFar(w, l, x, Greedy(w, l, x, 0))
    ensures TokensLen(Greedy(w, l, x, 0)) == |x|
    decreases |x| - TokensLen(ts)
  {
    if TokensLen(ts) == |x| {
      GreedyDone(w, l, x, ts);
    } else {
      GreedyPush(w, l, x, ts);
      GreedyIsSoFar(w, l, x, ts + [NextToken(w, l, x, TokensLen(ts))]);
    }
  }

  /** Zero padding shorter than a byte never completes a token: a back-reference needs 1 + 4 + 3 bits. */
  lemma PaddingIsSilent(w: nat, l: nat, n: nat)
    requires ValidSizes(w, l) && n <= 7
    ensures ParseToken(w, l, Falses(n)) == Incomplete
  {
  }

  lemma DecodeGreedy(w: nat, l: nat, x: seq<byte>, n: nat)
    requires ValidSizes(w, l) && n <= 7
    ensures Decode(w, l, Zeros(Pow2(w)), TokensBits(w, l, Greedy(w, l, x, 0)) + Falses(n)) == Zeros(Pow2(w)) + x
  {
    var z, ts := Zeros(Pow2(w)), Greedy(w, l, x, 0);
    GreedyIsSoFar(w, l, x, []);
    ExpandGreedy(w, l, x, ts, z + x);
    DecodeTokens(w, l, z, ts, Falses(n));
    PaddingIsSilent(w, l, n);
  }

  /** Decoding what the greedy encoder produced gives back the input, for every input and every size. */
  lemma RoundTrip(w: nat, l: nat, x: seq<byte>)
    requires ValidSizes(w, l)
    ensures Decompress(w, l, Compress(w, l, x)) == x
  {
    var s := TokensBits(w, l, Greedy(w, l, x, 0));
    UnpackPack(s);
    DecodeGreedy(w, l, x, |ByteBits(Pack(s))| - |s|);
  }

  // ---------------------------------------------------------------- size

  lemma {:induction false} TokensBitsBound(w: nat, l: nat, x: seq<byte>, ts: seq<Token>)
    requires GreedySoFar(w, l, x, ts)
    ensures |TokensBits(w, l, ts)| <= 9 * TokensLen(ts)
    decreases |ts|
  {
    if ts != [] {
      TokensBitsBound(w, l, x, ts[..|ts| - 1]);
      assert ts[|ts| - 1].Backref? ==> 8 * ts[|ts| - 1].len > 1 + w + l;
    }
  }

  /** Nine bits for a byte is the worst case, because a back-reference costs less than the bytes it replaces. */
  lemma CompressBound(w: nat, l: nat, x: seq<byte>)
    ensures |Compress(w, l, x)| <= (9 * |x| + 7) / 8
  {
    GreedyIsSoFar(w, l, x, []);
    TokensBitsBound(w, l, x, Greedy(w, l, x, 0));
  }

  /** What the encoder picks at each position, without mentioning how it searches. */
  lemma GreedyChoice(w: nat, l: nat, x: seq<byte>, i: nat, h: seq<byte>, e: nat, m: nat)
    requires i < |x|
    requires h == Zeros(Pow2(w)) + x && e == Pow2(w) + i && m == Min(Pow2(l), |x| - i)
    ensures match NextToken(w, l, x, i)
      case Backref(d, k) =>
        && 1 <= d <= Pow2(w) && BreakEven(w, l) < k <= m
        && h[e - d..e - d + k] == h[e..e + k]
        && (forall p :: i <= p < e ==> MatchLen(h, p, e, m) <= k)
        && (forall p :: e - d < p < e ==> MatchLen(h, p, e, m) < k)
      case Literal(c) =>
        && c == x[i]
        && (forall p :: i <= p < e ==> MatchLen(h, p, e, m) <= BreakEven(w, l))
  {
    hide Best, MatchLen;
    var b := Best(h, i, e, m);
    assert b == Longest(w, l, x, i);
    BestIsLongestNearest(h, i, e, m);
    if b.len > BreakEven(w, l) {
      MatchLenAgree(h, b.pos, e, m);
    }
  }

  /**
   * Exactly what pays is used: a back-reference when its 1 + w + l bits are fewer than the eight bits
   * for each byte it stands for, and a literal when no match in the window is that long.
   */
  lemma OnlyWhatPays(w: nat, l: nat, x: seq<byte>, i: nat, h: seq<byte>, e: nat, m: nat)
    requires i < |x|
    requires h == Zeros(Pow2(w)) + x && e == Pow2(w) + i && m == Min(Pow2(l), |x| - i)
    ensures match NextToken(w, l, x, i)
      case Backref(d, k) => 8 * k > 1 + w + l
      case Literal(c) => forall p :: i <= p < e ==> 8 * MatchLen(h, p, e, m) <= 1 + w + l
  {
    hide NextToken, MatchLen;
    GreedyChoice(w, l, x, i, h, e, m);
    CostOf(w, l);
  }

  lemma CostOf(w: nat, l: nat)
    ensures forall k: nat :: k > BreakEven(w, l) <==> 8 * k > 1 + w + l
  {
  }

  // ---------------------------------------------------------------- one stream, one reading

  /** The complete tokens of a stream. */
  function ParseAll(w: nat, l: nat, s: bits): seq<Token>
    decreases |s|
  {
    match ParseToken(w, l, s)
    case Incomplete => []
    case Parsed(t, rest) => [t] + ParseAll(w, l, rest)
  }

  lemma {:induction false} ParseAllTokens(w: nat, l: nat, ts: seq<Token>, rest: bits)
    requires TokensOk(w, l, ts)
    ensures ParseAll(w, l, TokensBits(w, l, ts) + rest) == ts + ParseAll(w, l, rest)
    decreases |ts|
  {
    hide ParseToken, TokenBits;
    if ts == [] {
      assert TokensBits(w, l, ts) + rest == rest;
    } else {
      var ini, t := ts[..|ts| - 1], ts[|ts| - 1];
      var more := TokenBits(w, l, t) + rest;
      assert TokensBits(w, l, ts) + rest == TokensBits(w, l, ini) + more;
      ParseAllTokens(w, l, ini, more);
      ParseInverse(w, l, t, rest);
      SnocAppend(ts, ParseAll(w, l, rest));
    }
  }

  /** Tokens read from a beginning of a padded stream are the first of the tokens it was made from. */
  lemma ReadsFirst(w: nat, l: nat, ts: seq<Token>, more: bits, gs: seq<Token>, pad: bits)
    requires ValidSizes(w, l) && TokensOk(w, l, ts) && TokensOk(w, l, gs) && |pad| <= 7 && pad == Falses(|pad|)
    requires TokensBits(w, l, ts) + more == TokensBits(w, l, gs) + pad
    ensures ts <= gs
  {
    hide TokensBits, ParseToken;
    ParseAllTokens(w, l, ts, more);
    ParseAllTokens(w, l, gs, pad);
    PaddingIsSilent(w, l, |pad|);
    assert gs + [] == gs;
  }

  lemma TokensLenGrows(w: nat, l: nat, gs: seq<Token>, i: nat, j: nat)
    requires TokensOk(w, l, gs) && i < j <= |gs|
    ensures TokensLen(gs[..i]) < TokensLen(gs[..j])
    decreases j
  {
    assert gs[..j][..j - 1] == gs[..j - 1];
    if i < j - 1 {
      TokensLenGrows(w, l, gs, i, j - 1);
    }
  }

  /** Two beginnings of one token sequence that stand for equally much text are the same. */
  lemma SamePlace(w: nat, l: nat, ts: seq<Token>, us: seq<Token>, gs: seq<Token>)
    requires TokensOk(w, l, gs) && ts <= gs && us <= gs && TokensLen(ts) == TokensLen(us)
    ensures ts == us
  {
    hide TokensLen, TokensOk;
    assert ts == gs[..|ts|] && us == gs[..|us|];
    if |ts| < |us| {
      TokensLenGrows(w, l, gs, |ts|, |us|);
    } else if |us| < |ts| {
      TokensLenGrows(w, l, gs, |us|, |ts|);
    }
  }
}
