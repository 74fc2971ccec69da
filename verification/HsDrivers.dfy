/** Callers of the codec: any sequence of calls at all, and the loops that run it to the end. */
module HsDrivers {
  import opened Bits
  import opened Lzss
  import Enc = HsEncoder
  import Dec = HsDecoder

  datatype EncoderCall = SinkUpTo(n: nat) | PollRoom(room: nat) | FinishInput
  datatype DecoderCall = Feed(n: nat) | Drain(room: nat)

  /** The next bytes a caller offers when it passes at most `n` of what is left. */
  function Offer(x: seq<byte>, taken: nat, n: nat): (r: seq<byte>)
    requires taken <= |x|
    ensures |r| <= n && r <= x[taken..]
  {
    x[taken..][..Min(n, |x| - taken)]
  }

  lemma OfferTaken(x: seq<byte>, taken: nat, n: nat, k: nat)
    requires taken <= |x| && k <= |Offer(x, taken, n)|
    ensures taken + k <= |x| && x[..taken] + Offer(x, taken, n)[..k] == x[..taken + k]
  {
    assert Offer(x, taken, n)[..k] == x[taken..][..k];
  }

  // ---------------------------------------------------------------- what a schedule asks for

  /** What an encoder is asked to take in all. */
  function Offered(calls: seq<EncoderCall>): nat {
    if calls == [] then 0
    else
      var last := calls[|calls| - 1];
      Offered(calls[..|calls| - 1]) + if last.SinkUpTo? then last.n else 0
  }

  /** The output space offered in all. */
  function Space(calls: seq<EncoderCall>): nat {
    if calls == [] then 0
    else
      var last := calls[|calls| - 1];
      Space(calls[..|calls| - 1]) + if last.PollRoom? then last.room else 0
  }

  /**
   * The output space offered by the polls at the end; an encoder not called yet has nothing to put out, so
   * `enough`.
   */
  function RoomAtEnd(calls: seq<EncoderCall>, enough: nat): nat {
    if calls == [] then enough
    else
      match calls[|calls| - 1]
      case PollRoom(room) => RoomAtEnd(calls[..|calls| - 1], enough) + room
      case _ => 0
  }

  /** The sinks of at least one byte, before any finish, that come when enough output space has been offered. */
  function Rounds(calls: seq<EncoderCall>, enough: nat): nat {
    if calls == [] then 0
    else
      var ini, last := calls[..|calls| - 1], calls[|calls| - 1];
      Rounds(ini, enough)
      + if last.SinkUpTo? && last.n >= 1 && RoomAtEnd(ini, enough) >= enough && FinishInput !in ini then 1 else 0
  }

  /** More than `n` bytes can compress to. */
  function Enough(n: nat): nat {
    (9 * n + 7) / 8 + 1
  }

  /** A schedule that gets an encoder through `n` bytes. */
  predicate Completes(calls: seq<EncoderCall>, n: nat) {
    FinishInput in calls && Rounds(calls, Enough(n)) >= n && RoomAtEnd(calls, Enough(n)) >= Enough(n)
  }

  function DrainedAtEnd(calls: seq<DecoderCall>, enough: nat): nat {
    if calls == [] then enough
    else
      match calls[|calls| - 1]
      case Drain(room) => DrainedAtEnd(calls[..|calls| - 1], enough) + room
      case Feed(_) => 0
  }

  function Feeds(calls: seq<DecoderCall>, enough: nat): nat {
    if calls == [] then 0
    else
      var ini, last := calls[..|calls| - 1], calls[|calls| - 1];
      Feeds(ini, enough) + if last.Feed? && last.n >= 1 && DrainedAtEnd(ini, enough) >= enough then 1 else 0
  }

  /** A schedule that gets a decoder through `n` bytes whose decoding is shorter than `enough`. */
  predicate Decodes(calls: seq<DecoderCall>, n: nat, enough: nat) {
    Feeds(calls, enough) >= n && DrainedAtEnd(calls, enough) >= enough
  }

  // ---------------------------------------------------------------- one encoder call

  /** Nothing to put out: waiting for input, or done. */
  ghost predicate Idle(e: Enc.Encoder)
    reads e
  {
    e.state == if e.finishing then Enc.Done else Enc.NotFull
  }

  /** An encoder that has been offered enough output space is idle. */
  ghost predicate Served(e: Enc.Encoder, room: nat)
    reads e
  {
    Idle(e) || |e.emitted| >= room
  }

  lemma ServedIsIdle(e: Enc.Encoder, room: nat, enough: nat)
    requires e.Valid() && Served(e, room) && room >= enough > |Compress(e.w, e.l, e.sunk)|
    ensures Idle(e)
  {
    hide Compress, Enc.Encoder.Valid;
    e.EmittedIsPrefix();
  }

  lemma EnoughIsEnough(w: nat, l: nat, x: seq<byte>, k: nat)
    requires k <= |x|
    ensures |Compress(w, l, x[..k])| < Enough(|x|)
  {
    hide Compress;
    CompressBound(w, l, x[..k]);
  }

  /** One call of a schedule, and what it is sure to do. */
  method EncoderStep(e: Enc.Encoder, x: seq<byte>, call: EncoderCall, ghost room: nat, taken: nat)
    returns (more: seq<byte>, k: nat)
    requires e.Ready() && taken <= |x| && e.sunk == x[..taken] && Served(e, room)
    modifies e, e.buffer, e.index
    ensures e.Ready() && taken + k <= |x| && e.sunk == x[..taken + k]
    ensures e.emitted == old(e.emitted) + more
    ensures e.finishing <==> old(e.finishing) || call == FinishInput
    ensures Served(e, match call case PollRoom(r) => room + r case _ => 0)
    ensures call.PollRoom? ==> |more| <= call.room && k == 0
    ensures call.SinkUpTo? ==> more == [] && k <= call.n
    ensures call == FinishInput ==> more == [] && k == 0
    ensures call.SinkUpTo? && call.n >= 1 && !old(e.finishing) && old(Idle(e)) && taken < |x| ==> k >= 1
  {
    hide Enc.Encoder.Ready, Enc.Encoder.Valid, Pow2, Offer;
    more, k := [], 0;
    match call {
      case SinkUpTo(n) =>
        var offer := Offer(x, taken, n);
        if e.state == Enc.NotFull {
          e.ReadyIs();
          e.RoomLeft();
        }
        if taken < |x| && n >= 1 {
          OfferSome(x, taken, n);
        }
        var res, got := e.Sink(offer);
        if res == Enc.SinkOk {
          OfferTaken(x, taken, n, got);
          k := got;
        }
      case PollRoom(size) =>
        var buf := new byte[size];
        var res, got := e.Poll(buf, 0, size);
        more := buf[0..got];
      case FinishInput =>
        var res := e.Finish();
    }
  }

  /**
   * Any calls in any order, legal or not: what comes out is the beginning of what the bytes taken
   * compress to. The schedule decides how far it gets: finish is remembered, every sink into an
   * encoder that has been polled enough takes something, and enough polls at the end leave the
   * encoder waiting, or done with everything it took.
   */
  method RunEncoder(e: Enc.Encoder, x: seq<byte>, calls: seq<EncoderCall>) returns (out: seq<byte>, taken: nat)
    requires e.Ready() && e.state == Enc.NotFull && !e.finishing && e.sunk == [] && e.emitted == []
    modifies e, e.buffer, e.index
    ensures e.Ready() && taken <= |x| && e.sunk == x[..taken] && e.emitted == out
    ensures out <= Compress(e.w, e.l, x[..taken])
    ensures e.state == Enc.Done ==> out == Compress(e.w, e.l, x[..taken])
    ensures e.finishing <==> FinishInput in calls
    ensures taken <= Offered(calls) && |out| <= Space(calls)
    ensures taken >= Min(|x|, Rounds(calls, Enough(|x|)))
    ensures RoomAtEnd(calls, Enough(|x|)) >= Enough(|x|) ==> Idle(e)
  {
    hide Compress, Enc.Encoder.Ready, Enc.Encoder.Valid, Served, Enough;
    ghost var enough := Enough(|x|);
    out, taken := [], 0;
    assert x[..0] == [] && calls[..0] == [];
    StartServed(e, enough);
    for i := 0 to |calls|
      invariant e.Ready() && taken <= |x| && e.sunk == x[..taken] && e.emitted == out
      invariant e.finishing <==> FinishInput in calls[..i]
      invariant taken <= Offered(calls[..i]) && |out| <= Space(calls[..i])
      invariant taken >= Min(|x|, Rounds(calls[..i], enough))
      invariant Served(e, RoomAtEnd(calls[..i], enough))
    {
      ghost var ini := calls[..i];
      assert calls[..i + 1] == ini + [calls[i]];
      ScheduleSnoc(ini, calls[i], enough);
      e.ReadyIs();
      EnoughIsEnough(e.w, e.l, x, taken);
      if RoomAtEnd(ini, enough) >= enough {
        ServedIsIdle(e, RoomAtEnd(ini, enough), enough);
      }
      var more, k := EncoderStep(e, x, calls[i], RoomAtEnd(ini, enough), taken);
      out := out + more;
      taken := taken + k;
    }
    assert calls[..|calls|] == calls;
    e.ReadyIs();
    e.EmittedIsPrefix();
    EnoughIsEnough(e.w, e.l, x, taken);
    if RoomAtEnd(calls, enough) >= enough {
      ServedIsIdle(e, RoomAtEnd(calls, enough), enough);
    }
    if e.state == Enc.Done {
      e.DoneIsCompressed();
    }
  }

  lemma StartServed(e: Enc.Encoder, room: nat)
    requires Idle(e)
    ensures Served(e, room)
  {
  }

  /** The functions of a schedule, one call further on. */
  lemma ScheduleSnoc(ini: seq<EncoderCall>, call: EncoderCall, enough: nat)
    ensures var calls := ini + [call];
      && (FinishInput in calls <==> FinishInput in ini || call == FinishInput)
      && Offered(calls) == Offered(ini) + (if call.SinkUpTo? then call.n else 0)
      && Space(calls) == Space(ini) + (if call.PollRoom? then call.room else 0)
      && RoomAtEnd(calls, enough) == (match call case PollRoom(r) => RoomAtEnd(ini, enough) + r case _ => 0)
      && Rounds(calls, enough) == Rounds(ini, enough) +
        (if call.SinkUpTo? && call.n >= 1 && RoomAtEnd(ini, enough) >= enough && FinishInput !in ini then 1 else 0)
  {
    assert (ini + [call])[..|ini|] == ini;
  }

  // ---------------------------------------------------------------- one decoder call

  ghost predicate Emptied(d: Dec.Decoder, room: nat)
    reads d
  {
    d.Drained() || |d.emitted| >= room
  }

  lemma EmptiedIsDrained(d: Dec.Decoder, room: nat, enough: nat)
    requires d.Valid() && Emptied(d, room) && room >= enough > |Decompress(d.w, d.l, d.sunk)|
    ensures d.Drained()
  {
    hide Decompress, Dec.Decoder.Valid;
    d.EmittedIsPrefix();
  }

  method DecoderStep(d: Dec.Decoder, y: seq<byte>, call: DecoderCall, ghost room: nat, taken: nat)
    returns (more: seq<byte>, k: nat)
    requires d.Valid() && taken <= |y| && d.sunk == y[..taken] && Emptied(d, room)
    modifies d, d.buffers
    ensures d.Valid() && taken + k <= |y| && d.sunk == y[..taken + k]
    ensures d.emitted == old(d.emitted) + more
    ensures Emptied(d, match call case Drain(r) => room + r case _ => 0)
    ensures call.Drain? ==> |more| <= call.room && k == 0
    ensures call.Feed? ==> more == [] && k <= call.n
    ensures call.Feed? && call.n >= 1 && old(d.Drained()) && taken < |y| ==> k >= 1
  {
    hide Dec.Decoder.Valid, Decompress, Offer, Dec.Decoder.Stalled;
    more, k := [], 0;
    match call {
      case Feed(n) =>
        var offer := Offer(y, taken, n);
        if taken < |y| && n >= 1 {
          OfferSome(y, taken, n);
        }
        BufferNotEmpty(d);
        var res, got := d.Sink(offer);
        OfferTaken(y, taken, n, got);
        k := got;
      case Drain(size) =>
        var buf := new byte[size];
        ghost var all := Decompress(d.w, d.l, d.sunk);
        var res, got := d.Poll(buf, 0, size);
        more := buf[0..got];
        if old(d.Drained()) {
          d.EmittedIsPrefix();
          d.StaysDrained();
        }
    }
  }

  lemma BufferNotEmpty(d: Dec.Decoder)
    requires d.Valid()
    ensures d.inputBufferSize >= 1
  {
  }

  /**
   * Any calls in any order: the output is the beginning of what the bytes taken decode to. Every feed
   * into a decoder that has been drained enough takes something, and enough drains at the end put
   * out all there is.
   */
  method RunDecoder(d: Dec.Decoder, y: seq<byte>, calls: seq<DecoderCall>, ghost enough: nat)
    returns (out: seq<byte>, taken: nat)
    requires d.Valid() && d.sunk == [] && d.emitted == [] && d.inputSize == 0
    requires enough > |Decompress(d.w, d.l, y)|
    modifies d, d.buffers
    ensures d.Valid() && taken <= |y| && d.sunk == y[..taken] && d.emitted == out
    ensures out <= Decompress(d.w, d.l, y[..taken])
    ensures taken >= Min(|y|, Feeds(calls, enough))
    ensures DrainedAtEnd(calls, enough) >= enough ==> d.Drained()
    ensures d.Drained() ==> out == Decompress(d.w, d.l, y[..taken])
  {
    hide Decompress, Dec.Decoder.Valid, Dec.Decoder.Drained, Emptied;
    out, taken := [], 0;
    assert y[..0] == [] && calls[..0] == [];
    NothingYet(d, enough);
    for i := 0 to |calls|
      invariant d.Valid() && taken <= |y| && d.sunk == y[..taken] && d.emitted == out
      invariant taken >= Min(|y|, Feeds(calls[..i], enough))
      invariant Emptied(d, DrainedAtEnd(calls[..i], enough))
    {
      ghost var ini := calls[..i];
      assert calls[..i + 1] == ini + [calls[i]];
      FeedSnoc(ini, calls[i], enough);
      CompressedPrefix(d.w, d.l, y, taken);
      if DrainedAtEnd(ini, enough) >= enough {
        EmptiedIsDrained(d, DrainedAtEnd(ini, enough), enough);
      }
      var more, k := DecoderStep(d, y, calls[i], DrainedAtEnd(ini, enough), taken);
      out := out + more;
      taken := taken + k;
    }
    assert calls[..|calls|] == calls;
    d.EmittedIsPrefix();
    CompressedPrefix(d.w, d.l, y, taken);
    if DrainedAtEnd(calls, enough) >= enough {
      EmptiedIsDrained(d, DrainedAtEnd(calls, enough), enough);
    }
    d.DrainedIs();
  }

  lemma NothingYet(d: Dec.Decoder, room: nat)
    requires d.Valid() && d.sunk == [] && d.emitted == [] && d.inputSize == 0
    ensures Emptied(d, room)
  {
    assert ByteBits([]) == [] && d.emitted == Decompress(d.w, d.l, []);
    d.StaysDrained();
  }

  lemma FeedSnoc(ini: seq<DecoderCall>, call: DecoderCall, enough: nat)
    ensures var calls := ini + [call];
      && DrainedAtEnd(calls, enough) == (match call case Drain(r) => DrainedAtEnd(ini, enough) + r case _ => 0)
      && Feeds(calls, enough) == Feeds(ini, enough) +
        (if call.Feed? && call.n >= 1 && DrainedAtEnd(ini, enough) >= enough then 1 else 0)
  {
    assert (ini + [call])[..|ini|] == ini;
  }

  // ---------------------------------------------------------------- the round trip

  /**
   * The round trip under every schedule on both sides: what the decoder puts out is always a beginning
   * of what the encoder took, and all of it once the encoder is done and the decoder is fed and
   * drained; and schedules that keep polling, finish, and keep feeding and draining get there.
   */
  method RoundTripAnySchedule(e: Enc.Encoder, d: Dec.Decoder, x: seq<byte>,
    encoderCalls: seq<EncoderCall>, decoderCalls: seq<DecoderCall>)
    returns (y: seq<byte>, taken: nat, out: seq<byte>, fed: nat)
    requires e.Ready() && e.state == Enc.NotFull && !e.finishing && e.sunk == [] && e.emitted == []
    requires d.Valid() && d.sunk == [] && d.emitted == [] && d.inputSize == 0
    requires e.w == d.w && e.l == d.l && e.buffer != d.buffers
    modifies e, e.buffer, e.index, d, d.buffers
    ensures e.Ready() && taken <= |x| && e.sunk == x[..taken] && e.emitted == y
    ensures d.Valid() && fed <= |y| && d.sunk == y[..fed] && d.emitted == out
    ensures out <= x[..taken]
    ensures e.state == Enc.Done && fed == |y| && d.Drained() ==> out == x[..taken]
    ensures Completes(encoderCalls, |x|) ==> e.state == Enc.Done && taken == |x| && y == Compress(e.w, e.l, x)
    ensures Completes(encoderCalls, |x|) && Decodes(decoderCalls, Enough(|x|), |x| + 1) ==> out == x
  {
    hide Compress, Decompress, Enc.Encoder.Ready, Enc.Encoder.Valid, Dec.Decoder.Valid, Dec.Decoder.Drained, Rounds,
      RoomAtEnd,
      Feeds, DrainedAtEnd, Enough;
    y, taken := RunEncoder(e, x, encoderCalls);
    SizesOf(d);
    Beginning(d.w, d.l, x[..taken], y, |y|);
    assert y[..|y|] == y;
    out, fed := RunDecoder(d, y, decoderCalls, |x| + 1);
    Beginning(d.w, d.l, x[..taken], y, fed);
    EnoughIsEnough(e.w, e.l, x, taken);
    assert x[..|x|] == x;
  }

  lemma SizesOf(d: Dec.Decoder)
    requires d.Valid()
    ensures ValidSizes(d.w, d.l)
  {
  }

  /** Decoding a beginning of a beginning of the compressed form gives a beginning of the text. */
  lemma Beginning(w: nat, l: nat, x: seq<byte>, y: seq<byte>, fed: nat)
    requires ValidSizes(w, l) && fed <= |y| && y <= Compress(w, l, x)
    ensures Decompress(w, l, y[..fed]) <= x
    ensures fed == |y| && y == Compress(w, l, x) ==> Decompress(w, l, y[..fed]) == x
  {
    hide *;
    var c := Compress(w, l, x);
    RoundTrip(w, l, x);
    assert y[..fed] == c[..fed];
    CompressedPrefix(w, l, c, fed);
    assert c[..|c|] == c;
  }

  // ---------------------------------------------------------------- the two windows

  /** Between tokens, what the encoder has scanned is what the decoder has put out. */
  lemma SameText(w: nat, l: nat, x: seq<byte>, ts: seq<Token>, emitted: seq<byte>)
    requires GreedySoFar(w, l, x, ts) && Expand(w, l, Zeros(Pow2(w)), ts) == Zeros(Pow2(w)) + emitted
    ensures |emitted| == TokensLen(ts) <= |x| && emitted == x[..|emitted|]
  {
    hide Expand, GreedySoFar;
    ExpandGreedy(w, l, x, ts, Zeros(Pow2(w)) + x);
    assert (Zeros(Pow2(w)) + emitted)[Pow2(w)..] == emitted;
    assert (Zeros(Pow2(w)) + x)[..Pow2(w) + TokensLen(ts)][Pow2(w)..] == x[..TokensLen(ts)];
  }

  lemma HeadSlot(w: nat, head: nat, n: nat, k: nat)
    requires w <= 15 && head == U16(n)
    ensures Dec.Mask(head + k, w) == Dec.Mask(n + k, w)
  {
    hide Pow2, U16;
    var back: int := -(k as int);
    Dec.HeadIndexWraps(w, head, n, back);
    Dec.Congruent(Pow2(w) + n + k, n + k, Pow2(w), 1);
  }

  /** The encoder's buffer and the decoder's ring as slices of the same text. */
  lemma SameByte(w: nat, x: seq<byte>, size: nat, msi: nat, data: seq<byte>, win: seq<byte>, head: nat, n: nat, k: nat)
    requires size <= |x| && msi <= size && n == |x| - size + msi && k < Pow2(w)
    requires data == (Zeros(Pow2(w)) + x)[|x| - size..]
    requires Dec.RingHolds(w, win, Zeros(Pow2(w)) + x[..n]) && head == U16(n) && w <= 15
    ensures msi + k < |data| && data[msi + k] == win[Dec.Mask(head + k, w)]
  {
    hide Dec.Mask, Pow2, U16;
    HeadSlot(w, head, n, k);
    var h := Zeros(Pow2(w)) + x[..n];
    assert data[msi + k] == (Zeros(Pow2(w)) + x)[n + k];
    assert h[n + k] == (Zeros(Pow2(w)) + x)[n + k];
  }

  /** A decoder fed a beginning of compressed data has read the first of the greedy tokens, and no others. */
  lemma ReadsGreedy(d: Dec.Decoder, x: seq<byte>)
    requires d.Valid() && d.sunk <= Compress(d.w, d.l, x)
    ensures d.tokens <= Greedy(d.w, d.l, x, 0)
  {
    hide TokensBits, Greedy, Pack, ByteBits, Dec.Partial, Dec.FieldsOk, Dec.RingHolds, Expand, Dec.Decoder.Rest,
      Zeros, Pow2,
      Dec.AfterCopy;
    var gs, c := Greedy(d.w, d.l, x, 0), Compress(d.w, d.l, x);
    UnpackPack(TokensBits(d.w, d.l, gs));
    var pad := Falses(|ByteBits(c)| - |TokensBits(d.w, d.l, gs)|);
    ByteBitsAppend(d.sunk, c[|d.sunk|..]);
    assert c == d.sunk + c[|d.sunk|..];
    var part := Dec.Partial(d.w, d.l, d.state, d.outputIndex, d.outputCount);
    var more := part + d.Rest() + ByteBits(c[|d.sunk|..]);
    assert TokensBits(d.w, d.l, d.tokens) + more == TokensBits(d.w, d.l, gs) + pad;
    ReadsFirst(d.w, d.l, d.tokens, more, gs, pad);
  }

  /** Where the encoder's scan point is in the whole input. */
  ghost function Scanned(e: Enc.Encoder): int
    reads e
  {
    |e.sunk| - e.inputSize + e.matchScanIndex
  }

  /** The encoder between tokens. */
  lemma EncoderPlace(e: Enc.Encoder)
    requires e.Valid() && !Enc.Writing(e.state)
    ensures e.Shape() && e.inputSize <= Pow2(e.w) && e.matchScanIndex <= e.inputSize <= |e.sunk|
    ensures e.Data() == (Zeros(Pow2(e.w)) + e.sunk)[|e.sunk| - e.inputSize..]
    ensures GreedySoFar(e.w, e.l, e.sunk, e.tokens) && TokensLen(e.tokens) == Scanned(e)
  {
    hide GreedySoFar, Settled, Pow2, Enc.Wrote, Enc.IndexHolds, Compress, ByteBits, NextToken;
  }

  /** The decoder between tokens. */
  lemma DecoderPlace(d: Dec.Decoder)
    requires d.Valid() && d.state == Dec.TagBit
    ensures ValidSizes(d.w, d.l) && TokensOk(d.w, d.l, d.tokens)
    ensures d.buffers.Length == d.inputBufferSize + Pow2(d.w) && d.headIndex == U16(|d.emitted|)
    ensures Expand(d.w, d.l, Zeros(Pow2(d.w)), d.tokens) == Zeros(Pow2(d.w)) + d.emitted
    ensures Dec.RingHolds(d.w, d.buffers[d.inputBufferSize..], Zeros(Pow2(d.w)) + d.emitted)
  {
    hide Expand, Pow2, Dec.RingHolds, TokensBits, ByteBits, Dec.Partial, Dec.Decoder.Rest;
  }

  /** At the same place in the text, both sides have handled the same tokens. */
  lemma SameTokens(e: Enc.Encoder, d: Dec.Decoder)
    requires e.Valid() && d.Valid() && e.w == d.w && e.l == d.l && d.sunk <= e.emitted
    requires !Enc.Writing(e.state) && d.state == Dec.TagBit && |d.emitted| == Scanned(e)
    ensures e.tokens == d.tokens
  {
    hide Enc.Encoder.Valid, Dec.Decoder.Valid, Compress, Greedy, GreedySoFar, Expand, Dec.RingHolds, TokensLen, Pow2,
      Enc.Encoder.Data;
    EncoderPlace(e);
    DecoderPlace(d);
    e.EmittedIsPrefix();
    ReadsGreedy(d, e.sunk);
    GreedyPrefix(e.w, e.l, e.sunk, e.tokens);
    ExpandLen(d.w, d.l, Zeros(Pow2(d.w)), d.tokens);
    SamePlace(e.w, e.l, e.tokens, d.tokens, Greedy(e.w, e.l, e.sunk, 0));
  }

  /**
   * Window agreement: between tokens, a decoder fed a beginning of the encoder's output that has put
   * out as much as the encoder has scanned holds in its ring, oldest at the head, the 2^w bytes before
   * the encoder's scan point.
   */
  lemma WindowsAgree(e: Enc.Encoder, d: Dec.Decoder, k: nat)
    requires e.Valid() && d.Valid() && e.w == d.w && e.l == d.l && d.sunk <= e.emitted && k < Pow2(e.w)
    requires !Enc.Writing(e.state) && d.state == Dec.TagBit && |d.emitted| == Scanned(e)
    ensures d.emitted == e.sunk[..|d.emitted|]
    ensures e.buffer[e.matchScanIndex + k] == d.buffers[d.inputBufferSize + Dec.Mask(d.headIndex + k, d.w)]
  {
    hide Enc.Encoder.Valid, Dec.Decoder.Valid, GreedySoFar, Expand, Dec.RingHolds, TokensLen, Pow2, Dec.Mask,
      Enc.Writing;
    SameTokens(e, d);
    EncoderPlace(e);
    DecoderPlace(d);
    SameText(e.w, e.l, e.sunk, e.tokens, d.emitted);
    SameByte(e.w, e.sunk, e.inputSize, e.matchScanIndex, e.Data(), d.buffers[d.inputBufferSize..], d.headIndex,
      |d.emitted|, k);
  }

  // ---------------------------------------------------------------- a schedule that completes

  /** Take a byte, poll, and so on. */
  function Turns(n: nat, room: nat): seq<EncoderCall> {
    if n == 0 then [] else Turns(n - 1, room) + [SinkUpTo(1)] + [PollRoom(room)]
  }

  lemma {:induction false} TurnsRounds(n: nat, room: nat, enough: nat)
    requires room >= enough >= 1
    ensures Rounds(Turns(n, room), enough) == n && RoomAtEnd(Turns(n, room), enough) >= enough
    ensures FinishInput !in Turns(n, room)
    decreases n
  {
    hide Rounds, RoomAtEnd;
    if n > 0 {
      TurnsRounds(n - 1, room, enough);
      ScheduleSnoc(Turns(n - 1, room), SinkUpTo(1), enough);
      ScheduleSnoc(Turns(n - 1, room) + [SinkUpTo(1)], PollRoom(room), enough);
    } else {
      EmptySchedule(enough);
    }
  }

  lemma EmptySchedule(enough: nat)
    ensures Rounds([], enough) == 0 && RoomAtEnd([], enough) == enough
  {
  }

  /** Such a schedule, finished and polled once more, gets an encoder through any input. */
  lemma TurnsComplete(n: nat)
    ensures Completes(Turns(n, Enough(n)) + [FinishInput] + [PollRoom(Enough(n))], n)
  {
    hide Rounds, RoomAtEnd, Turns;
    var enough, turns := Enough(n), Turns(n, Enough(n));
    TurnsRounds(n, enough, enough);
    ScheduleSnoc(turns, FinishInput, enough);
    ScheduleSnoc(turns + [FinishInput], PollRoom(enough), enough);
  }

  /** Feed a byte, drain, and so on. */
  function FeedTurns(n: nat, room: nat): seq<DecoderCall> {
    if n == 0 then [] else FeedTurns(n - 1, room) + [Feed(1)] + [Drain(room)]
  }

  /** Such a schedule gets a decoder through any `n` bytes that decode to fewer than `room`. */
  lemma {:induction false} FeedTurnsDecode(n: nat, room: nat)
    requires room >= 1
    ensures Feeds(FeedTurns(n, room), room) == n && DrainedAtEnd(FeedTurns(n, room), room) >= room
    ensures Decodes(FeedTurns(n, room), n, room)
    decreases n
  {
    if n > 0 {
      hide Feeds, DrainedAtEnd;
      FeedTurnsDecode(n - 1, room);
      FeedSnoc(FeedTurns(n - 1, room), Feed(1), room);
      FeedSnoc(FeedTurns(n - 1, room) + [Feed(1)], Drain(room), room);
    }
  }

  // ---------------------------------------------------------------- running to the end

  /** Poll until the encoder asks for input, with whatever output space each round offers. */
  method PollUntilEmpty(e: Enc.Encoder, room: nat -> nat, start: seq<byte>) returns (out: seq<byte>)
    requires e.Ready() && !e.finishing && e.emitted == start && forall i :: room(i) >= 1
    modifies e, e.buffer, e.index
    ensures e.Ready() && !e.finishing && e.state == Enc.NotFull
    ensures e.sunk == old(e.sunk) && e.emitted == out
  {
    hide *;
    out := start;
    var res, round := Enc.PollMore, 0;
    while res == Enc.PollMore
      invariant e.Ready() && !e.finishing && e.sunk == old(e.sunk) && e.emitted == out
      invariant res != Enc.PollErrorMisuse && (res == Enc.PollEmpty ==> e.state == Enc.NotFull)
      decreases |Compress(e.w, e.l, e.sunk)| - |e.emitted|, if res == Enc.PollMore then 1 else 0
    {
      e.ReadyIs();
      e.EmittedIsPrefix();
      var buf := new byte[room(round)];
      var k;
      res, k := e.Poll(buf, 0, buf.Length);
      out := out + buf[0..k];
      round := round + 1;
      e.ReadyIs();
      e.EmittedIsPrefix();
    }
  }

  /** Finish, then poll as long as finish asks for it. */
  method PollUntilDone(e: Enc.Encoder, room: nat -> nat, start: seq<byte>) returns (out: seq<byte>)
    requires e.Ready() && e.emitted == start && forall i :: room(i) >= 1
    modifies e, e.buffer, e.index
    ensures e.Ready() && e.state == Enc.Done
    ensures e.sunk == old(e.sunk) && e.emitted == out
  {
    hide *;
    out := start;
    var fin := e.Finish();
    var round := 0;
    while fin == Enc.FinishMore
      invariant e.Ready() && e.finishing && e.sunk == old(e.sunk) && e.emitted == out
      invariant fin == Enc.FinishDone <==> e.state == Enc.Done
      decreases |Compress(e.w, e.l, e.sunk)| - |e.emitted|, if fin == Enc.FinishMore then 1 else 0
    {
      e.ReadyIs();
      e.EmittedIsPrefix();
      var buf := new byte[room(round)];
      var res, k := e.Poll(buf, 0, buf.Length);
      out := out + buf[0..k];
      round := round + 1;
      e.ReadyIs();
      e.EmittedIsPrefix();
      fin := e.Finish();
    }
  }

  /** The complete encoding, for any sizes of the pieces passed in and any output space offered. */
  method CompressAll(w: nat, l: nat, x: seq<byte>, piece: nat -> nat, room: nat -> nat) returns (y: seq<byte>)
    requires Enc.EncoderSizes(w, l) && (forall i :: piece(i) >= 1) && (forall i :: room(i) >= 1)
    ensures y == Compress(w, l, x)
  {
    hide *;
    var e := new Enc.Encoder(w, l);
    y := [];
    var taken, round := 0, 0;
    assert x[..0] == [];
    while taken < |x|
      invariant e.Ready() && !e.finishing && e.state == Enc.NotFull
      invariant taken <= |x| && e.sunk == x[..taken] && e.emitted == y
      invariant fresh(e) && fresh(e.buffer) && fresh(e.index)
      decreases |x| - taken
    {
      var offer := Offer(x, taken, piece(round));
      OfferSome(x, taken, piece(round));
      e.ReadyIs();
      e.RoomLeft();
      var res, k := e.Sink(offer);
      OfferTaken(x, taken, piece(round), k);
      taken := taken + k;
      y := PollUntilEmpty(e, room, y);
      round := round + 1;
    }
    y := PollUntilDone(e, room, y);
    e.ReadyIs();
    e.DoneIsCompressed();
    assert x[..taken] == x;
  }

  lemma OfferSome(x: seq<byte>, taken: nat, n: nat)
    requires taken < |x| && n >= 1
    ensures |Offer(x, taken, n)| >= 1
  {
  }

  /** Poll until the decoder has used up its input. */
  method DrainAll(d: Dec.Decoder, room: nat -> nat, start: seq<byte>) returns (out: seq<byte>)
    requires d.Valid() && d.emitted == start && forall i :: room(i) >= 1
    modifies d, d.buffers
    ensures d.Valid() && d.Drained() && d.sunk == old(d.sunk) && d.emitted == out
  {
    hide *;
    out := start;
    var res, round := Dec.PollMore, 0;
    while res == Dec.PollMore
      invariant d.Valid() && d.sunk == old(d.sunk) && d.emitted == out
      invariant res == Dec.PollEmpty ==> d.Drained()
      decreases |Decompress(d.w, d.l, d.sunk)| - |d.emitted|, if res == Dec.PollMore then 1 else 0
    {
      d.EmittedIsPrefix();
      var buf := new byte[room(round)];
      var k;
      res, k := d.Poll(buf, 0, buf.Length);
      out := out + buf[0..k];
      round := round + 1;
      d.EmittedIsPrefix();
    }
  }

  /** The complete decoding, for any pieces and any output space; finish then reports done. */
  method DecompressAll(w: nat, l: nat, inputBufferSize: nat, y: seq<byte>, piece: nat -> nat, room: nat -> nat)
    returns (out: seq<byte>, fin: Dec.FinishRes)
    requires ValidSizes(w, l) && 1 <= inputBufferSize < 0x1_0000
    requires (forall i :: piece(i) >= 1) && (forall i :: room(i) >= 1)
    ensures out == Decompress(w, l, y) && fin == Dec.FinishDone
  {
    hide *;
    var d := new Dec.Decoder(inputBufferSize, w, l);
    out := DrainAll(d, room, []);
    d.DrainedIs();
    var taken, round := 0, 0;
    assert y[..0] == [];
    while taken < |y|
      invariant d.Valid() && d.Drained() && d.inputSize == 0
      invariant taken <= |y| && d.sunk == y[..taken] && d.emitted == out
      invariant fresh(d) && fresh(d.buffers)
      decreases |y| - taken
    {
      var offer := Offer(y, taken, piece(round));
      OfferSome(y, taken, piece(round));
      var res, k := d.Sink(offer);
      OfferTaken(y, taken, piece(round), k);
      taken := taken + k;
      out := DrainAll(d, room, out);
      d.DrainedIs();
      round := round + 1;
    }
    d.DrainedIs();
    fin := d.Finish();
    assert y[..taken] == y;
  }
}
