/** When a decoder stops because its output is full, and how much of its input it has read by then. */
module HsStall {
  import opened Bits
  import opened Lzss
  import opened Options
  import Dec = HsDecoder

  function Later(n: nat, b: Option<nat>): Option<nat> {
    if b.Some? then Some(n + b.value) else None
  }

  /**
   * The bits read when the decoder of `s`, with room for `room` bytes, stops in front of a byte it
   * cannot put out: behind a literal's tag bit, or behind a back-reference. None if it never does.
   */
  function BlockBits(w: nat, l: nat, s: bits, room: nat): (r: Option<nat>)
    ensures r.Some? ==> r.value <= |s|
    decreases |s|
  {
    if room == 0 && s != [] && s[0] then Some(1)
    else
      match ParseToken(w, l, s)
      case Incomplete => None
      case Parsed(t, rest) =>
        if TokenLen(t) > room then Some(|s| - |rest|)
        else Later(|s| - |rest|, BlockBits(w, l, rest, room - TokenLen(t)))
  }

  // ---------------------------------------------------------------- the function on longer and shorter streams

  lemma ParseKind(w: nat, l: nat, s: bits)
    requires ParseToken(w, l, s).Parsed?
    ensures s != [] && (s[0] <==> ParseToken(w, l, s).tok.Literal?)
    ensures TokenLen(ParseToken(w, l, s).tok) >= 1
  {
  }

  /** More input behind it changes nothing about where the decoder stops. */
  lemma {:induction false} BlockMore(w: nat, l: nat, s: bits, more: bits, room: nat)
    requires BlockBits(w, l, s, room).Some?
    ensures BlockBits(w, l, s + more, room) == BlockBits(w, l, s, room)
    decreases |s|
  {
    hide ParseToken, TokenLen;
    if room == 0 && s != [] && s[0] {
    } else {
      ParseMore(w, l, s, more);
      ParseKind(w, l, s);
      var t, rest := ParseToken(w, l, s).tok, ParseToken(w, l, s).rest;
      if TokenLen(t) <= room {
        BlockMore(w, l, rest, more, room - TokenLen(t));
      }
    }
  }

  lemma TakeSlices(s: bits, k: nat, i: nat, j: nat)
    requires i <= j <= k <= |s|
    ensures s[..k][i..j] == s[i..j] && s[..k][j..] == s[j..][..k - j]
  {
  }

  lemma ParseLess(w: nat, l: nat, s: bits, k: nat)
    requires ParseToken(w, l, s).Parsed? && |s| - |ParseToken(w, l, s).rest| <= k <= |s|
    ensures var d := |s| - |ParseToken(w, l, s).rest|;
      ParseToken(w, l, s[..k]) == Parsed(ParseToken(w, l, s).tok, ParseToken(w, l, s).rest[..k - d])
  {
    hide BitsVal, Pow2;
    if s[0] {
      TakeSlices(s, k, 1, 9);
    } else {
      TakeSlices(s, k, 1, 1 + w);
      TakeSlices(s, k, 1 + w, 1 + w + l);
    }
  }

  /** Nor does less of it, as long as what is read by then is there. */
  lemma {:induction false} BlockLess(w: nat, l: nat, s: bits, k: nat, room: nat)
    requires BlockBits(w, l, s, room).Some? && BlockBits(w, l, s, room).value <= k <= |s|
    ensures BlockBits(w, l, s[..k], room) == BlockBits(w, l, s, room)
    decreases |s|
  {
    hide ParseToken, TokenLen;
    if room == 0 && s != [] && s[0] {
    } else {
      ParseLess(w, l, s, k);
      ParseKind(w, l, s);
      var t, rest := ParseToken(w, l, s).tok, ParseToken(w, l, s).rest;
      if TokenLen(t) <= room {
        BlockLess(w, l, rest, k - (|s| - |rest|), room - TokenLen(t));
      }
    }
  }

  /** A decoder that stops has filled its room. */
  lemma {:induction false} BlockReaches(w: nat, l: nat, h: seq<byte>, s: bits, room: nat)
    requires |h| >= Pow2(w) && BlockBits(w, l, s, room).Some?
    ensures |Decode(w, l, h, s)| - |h| >= room
    decreases |s|
  {
    hide ParseToken, Pow2;
    if room > 0 || s == [] || !s[0] {
      var t, rest := ParseToken(w, l, s).tok, ParseToken(w, l, s).rest;
      ApplySize(w, l, s, h);
      if TokenLen(t) <= room {
        BlockReaches(w, l, Apply(h, t), rest, room - TokenLen(t));
      }
    }
  }

  lemma ApplySize(w: nat, l: nat, s: bits, h: seq<byte>)
    requires |h| >= Pow2(w) && ParseToken(w, l, s).Parsed?
    ensures var t := ParseToken(w, l, s).tok;
      && (t.Backref? ==> 1 <= t.dist <= |h|) && |Apply(h, t)| == |h| + TokenLen(t)
      && |Decode(w, l, h, s)| >= |h| + TokenLen(t)
  {
  }

  /** And if the room is all it needed, it stops in front of a literal that is not all there. */
  lemma {:induction false} BlockLate(w: nat, l: nat, h: seq<byte>, s: bits, room: nat)
    requires |h| >= Pow2(w) && BlockBits(w, l, s, room).Some? && |Decode(w, l, h, s)| - |h| <= room
    ensures |s| - BlockBits(w, l, s, room).value < 8
    decreases |s|
  {
    hide Pow2, BitsVal;
    if room > 0 || s == [] || !s[0] {
      var t, rest := ParseToken(w, l, s).tok, ParseToken(w, l, s).rest;
      ApplySize(w, l, s, h);
      hide ParseToken;
      BlockLate(w, l, Apply(h, t), rest, room - TokenLen(t));
    } else if |s| >= 9 {
      ApplySize(w, l, s, h);
      ParseKind(w, l, s);
    }
  }

  // ---------------------------------------------------------------- where a stalled decoder is

  lemma LaterTwice(a: nat, b: nat, r: Option<nat>)
    ensures Later(a, Later(b, r)) == Later(a + b, r)
  {
  }

  /** Tokens that fit the room are read completely. */
  lemma {:induction false} BlockTokens(w: nat, l: nat, ts: seq<Token>, rest: bits, room: nat)
    requires TokensOk(w, l, ts) && TokensLen(ts) <= room
    ensures BlockBits(w, l, TokensBits(w, l, ts) + rest, room)
         == Later(|TokensBits(w, l, ts)|, BlockBits(w, l, rest, room - TokensLen(ts)))
    decreases |ts|
  {
    hide ParseToken, TokenBits, BlockBits;
    if ts == [] {
      assert TokensBits(w, l, ts) + rest == rest;
    } else {
      var ini, t := ts[..|ts| - 1], ts[|ts| - 1];
      var more := TokenBits(w, l, t) + rest;
      assert TokensBits(w, l, ts) + rest == TokensBits(w, l, ini) + more;
      BlockTokens(w, l, ini, more, room);
      BlockOne(w, l, t, rest, room - TokensLen(ini));
      LaterTwice(|TokensBits(w, l, ini)|, |TokenBits(w, l, t)|, BlockBits(w, l, rest, room - TokensLen(ts)));
    }
  }

  lemma BlockStep(w: nat, l: nat, s: bits, t: Token, rest: bits, room: nat)
    requires ParseToken(w, l, s) == Parsed(t, rest) && s != [] && (s[0] <==> t.Literal?) && TokenLen(t) >= 1
    ensures TokenLen(t) <= room ==> BlockBits(w, l, s, room) == Later(|s| - |rest|, BlockBits(w, l, rest, room - TokenLen(t)))
    ensures t.Backref? && t.len > room ==> BlockBits(w, l, s, room) == Some(|s| - |rest|)
  {
    hide ParseToken, Later;
  }

  /** One token: read and passed by when it fits, and otherwise where the decoder stops, if it is a copy. */
  lemma BlockOne(w: nat, l: nat, t: Token, rest: bits, room: nat)
    requires TokenOk(w, l, t)
    ensures TokenLen(t) <= room ==>
      BlockBits(w, l, TokenBits(w, l, t) + rest, room)
        == Later(|TokenBits(w, l, t)|, BlockBits(w, l, rest, room - TokenLen(t)))
    ensures t.Backref? && t.len > room ==> BlockBits(w, l, TokenBits(w, l, t) + rest, room) == Some(|TokenBits(w, l, t)|)
  {
    hide ParseToken, TokenBits, BlockBits, TokenOk, TokenLen;
    var s := TokenBits(w, l, t) + rest;
    ParseInverse(w, l, t, rest);
    ParseKind(w, l, s);
    BlockStep(w, l, s, t, rest, room);
    assert |s| - |rest| == |TokenBits(w, l, t)|;
  }

  /** Stopped in front of a literal. */
  lemma AtLiteral(w: nat, l: nat, ts: seq<Token>, rest: bits, stream: bits, n: nat)
    requires TokensOk(w, l, ts) && TokensLen(ts) == n && stream == TokensBits(w, l, ts) + [true] + rest
    ensures BlockBits(w, l, stream, n) == Some(|stream| - |rest|)
  {
    hide TokensBits, ParseToken;
    BlockTokens(w, l, ts, [true] + rest, n);
    assert stream == TokensBits(w, l, ts) + ([true] + rest);
  }

  lemma LastToken(w: nat, l: nat, ts: seq<Token>)
    requires ts != [] && TokensOk(w, l, ts)
    ensures var ini, t := ts[..|ts| - 1], ts[|ts| - 1];
      && TokensOk(w, l, ini) && TokenOk(w, l, t)
      && TokensBits(w, l, ts) == TokensBits(w, l, ini) + TokenBits(w, l, t)
      && TokensLen(ts) == TokensLen(ini) + TokenLen(t)
  {
    hide TokenBits;
  }

  lemma Regroup(all: bits, a: bits, b: bits, c: bits)
    requires all == a + b
    ensures all + c == a + (b + c) && |all + c| - |c| == |a| + |b|
  {
  }

  /** Stopped in a copy. */
  lemma InCopy(w: nat, l: nat, ts: seq<Token>, rest: bits, stream: bits, n: nat, count: nat)
    requires TokensOk(w, l, ts) && TokensLen(ts) == n + count && count >= 1 && Dec.CopyOk(ts, count)
    requires stream == TokensBits(w, l, ts) + rest
    ensures BlockBits(w, l, stream, n) == Some(|stream| - |rest|)
  {
    hide ParseToken, TokenBits, BlockBits, TokensBits, TokensLen, TokensOk, TokenOk;
    LastToken(w, l, ts);
    var ini, t := ts[..|ts| - 1], ts[|ts| - 1];
    BlockOne(w, l, t, rest, n - TokensLen(ini));
    BlockTokens(w, l, ini, TokenBits(w, l, t) + rest, n);
    Regroup(TokensBits(w, l, ts), TokensBits(w, l, ini), TokenBits(w, l, t), rest);
  }

  /** Stopped for lack of bits, before a token or in a back-reference. */
  lemma InToken(w: nat, l: nat, ts: seq<Token>, part: bits, stream: bits, n: nat)
    requires TokensOk(w, l, ts) && TokensLen(ts) == n && stream == TokensBits(w, l, ts) + part
    requires ParseToken(w, l, part) == Incomplete && (part == [] || !part[0])
    ensures BlockBits(w, l, stream, n) == None
  {
    hide TokensBits, ParseToken;
    BlockTokens(w, l, ts, part, n);
  }

  /** The bytes a decoder has taken out of its input buffer. */
  ghost function Pulled(d: Dec.Decoder): int
    reads d, d.buffers
  {
    |d.sunk| - (d.inputSize - d.inputIndex)
  }

  lemma WholeBytes(bitsRead: nat, bytes: nat, avail: nat)
    requires bitsRead + avail == 8 * bytes && avail <= 7
    ensures (bitsRead + 7) / 8 == bytes
  {
  }

  /** Bytes needed for that many bits. */
  function BytesFor(n: nat): nat {
    (n + 7) / 8
  }

  /** The unread bits in terms of the buffer. */
  lemma UnreadBits(d: Dec.Decoder)
    requires d.Valid()
    ensures |d.Rest()| == d.avail + 8 * (d.inputSize - d.inputIndex) && d.avail <= 7
    ensures 0 <= Pulled(d) && Pulled(d) + (d.inputSize - d.inputIndex) == |d.sunk|
    ensures d.inputSize == 0 <==> Pulled(d) == |d.sunk|
    ensures |d.sunk| - d.inputSize <= Pulled(d)
  {
    hide ToBits, TokensBits, Dec.Partial, Dec.RingHolds, Expand, Dec.FieldsOk;
    assert |ByteBits(d.sunk)| == 8 * |d.sunk|;
    assert |ByteBits(d.sunk)| >= |d.Rest()|;
  }

  /** A stalled decoder that has put out `n` bytes is exactly where `BlockBits` says, or has read everything. */
  lemma StalledAt(d: Dec.Decoder)
    requires d.Valid() && d.InputOk() && d.Stalled()
    ensures match BlockBits(d.w, d.l, ByteBits(d.sunk), |d.emitted|)
      case None => d.inputSize == 0
      case Some(c) => c == 8 * |d.sunk| - |d.Rest()|
  {
    hide ToBits, BitsVal, Pow2, Dec.RingHolds, Expand, Copy, ByteBits, TokensBits, BlockBits, Dec.Decoder.Rest;
    var w, l, ts, rest, n := d.w, d.l, d.tokens, d.Rest(), |d.emitted|;
    var part := Dec.Partial(w, l, d.state, d.outputIndex, d.outputCount);
    ExpandLen(w, l, Zeros(Pow2(w)), ts);
    if d.state == Dec.YieldLiteral {
      AtLiteral(w, l, ts, rest, ByteBits(d.sunk), n);
    } else if d.state == Dec.YieldBackref {
      assert part == [];
      assert ByteBits(d.sunk) == TokensBits(w, l, ts) + rest;
      InCopy(w, l, ts, rest, ByteBits(d.sunk), n, d.outputCount);
    } else {
      Dec.StuckIncomplete(w, l, d.state, d.outputIndex, d.outputCount, rest);
      assert ByteBits(d.sunk) == TokensBits(w, l, ts) + (part + rest);
      InToken(w, l, ts, part + rest, ByteBits(d.sunk), n);
    }
  }
}
