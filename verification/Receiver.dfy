/** The receiver's path from bytes on the light link to delivered messages. */
module Receiver {
  import opened Bits
  import opened Lzss
  import opened Crc16
  import opened Framing
  import opened Options
  import opened Replay
  import opened HsStall
  import Dec = HsDecoder
  import Sender

  const DECODER_INPUT: nat := 512
  const EXPANDED_SIZE: nat := 32768

  // ---------------------------------------------------------------- reading a frame

  /** From the type byte on, in the order the receiver reads; the end of `s` is where reads time out. */
  method ReadFrame(s: seq<byte>) returns (p: Option<Packet>, used: nat)
    requires s != []
    ensures (p, used) == ReadPacket(s)
  {
    hide Crc;
    var kind := s[0];
    if kind == MSG_TYPE_KEY_ID_ONLY || kind == MSG_TYPE_SST_HS2 || kind == MSG_TYPE_ENCRYPTED || kind == MSG_TYPE_FILE {
      if |s| < 3 {
        return None, |s|;
      }
      var len := s[1] as nat * 256 + s[2];
      if kind == MSG_TYPE_KEY_ID_ONLY {
        if len > 64 {
          return None, 3;
        }
      } else if kind == MSG_TYPE_SST_HS2 {
        if len != SST_HS2_PAYLOAD_SIZE {
          return None, 3;
        }
      } else if len < NONCE_SIZE + TAG_SIZE || len > MAX_MSG_LEN {
        return None, 3;
      }
      if |s| < 5 + len {
        return None, |s|;
      }
      var payload := s[3..3 + len];
      var computed := Crc16Ccitt([kind] + [s[1], s[2]] + payload);
      var received := s[3 + len] as nat * 256 + s[4 + len];
      assert s[..3 + len] == [kind] + [s[1], s[2]] + payload;
      if computed != received {
        return None, 5 + len;
      }
      used := 5 + len;
      if kind == MSG_TYPE_KEY_ID_ONLY {
        p := Some(KeyId(payload));
      } else if kind == MSG_TYPE_SST_HS2 {
        p := Some(HandshakeReply(payload));
      } else {
        var nonce, tag := payload[..NONCE_SIZE], payload[|payload| - TAG_SIZE..];
        p := Some(Data(kind, nonce, payload[NONCE_SIZE..|payload| - TAG_SIZE], tag));
      }
    } else {
      used := 1;
      while used < |s| && used < 16
        invariant 1 <= used <= |s| && used <= 16
      {
        used := used + 1;
      }
      p := None;
    }
  }

  // ---------------------------------------------------------------- expanding a file

  function Decoding(content: seq<byte>): seq<byte> {
    Decompress(Sender.WINDOW_SZ2, Sender.LOOKAHEAD_SZ2, content)
  }

  predicate Fits(content: seq<byte>) {
    |Decoding(content)| < EXPANDED_SIZE
  }

  /** What is written to the file: the decoding, or, when that fills the buffer, its beginning and the terminator. */
  function Expanded(content: seq<byte>): seq<byte> {
    if Fits(content) then Decoding(content) else Decoding(content)[..EXPANDED_SIZE - 1] + [0]
  }

  /** The file is the decoding exactly when that is short enough, or one byte too long and ending in zero. */
  lemma ExpandedIntactIff(content: seq<byte>)
    ensures Expanded(content) == Decoding(content) <==>
      Fits(content) || (|Decoding(content)| == EXPANDED_SIZE && Decoding(content)[EXPANDED_SIZE - 1] == 0)
  {
    var all := Decoding(content);
    if !Fits(content) {
      assert Expanded(content)[EXPANDED_SIZE - 1] == 0;
      if |all| == EXPANDED_SIZE {
        assert all == all[..EXPANDED_SIZE - 1] + [all[EXPANDED_SIZE - 1]];
      }
    }
  }

  lemma TakeMore(s: seq<byte>, n: nat, k: nat)
    requires n + k <= |s|
    ensures s[..n] + s[n..][..k] == s[..n + k]
  {
  }

  lemma DecoderSizes()
    ensures ValidSizes(Sender.WINDOW_SZ2, Sender.LOOKAHEAD_SZ2)
  {
  }

  /** A full output buffer shows that the decoding does not fit. */
  lemma Overflows(content: seq<byte>, taken: nat, got: seq<byte>)
    requires taken <= |content| && |got| == EXPANDED_SIZE
    requires got <= Decompress(Sender.WINDOW_SZ2, Sender.LOOKAHEAD_SZ2, content[..taken])
    ensures !Fits(content) && got <= Decoding(content)
  {
    hide Decompress;
    CompressedPrefix(Sender.WINDOW_SZ2, Sender.LOOKAHEAD_SZ2, content, taken);
  }

  /** Terminating a full buffer costs its last byte. */
  lemma Terminated(content: seq<byte>, got: seq<byte>, out: seq<byte>)
    requires !Fits(content) && |got| == EXPANDED_SIZE && got <= Decoding(content)
    requires out == got[..EXPANDED_SIZE - 1] + [0]
    ensures out == Expanded(content)
  {
    hide Decoding;
  }

  lemma FittingIs(content: seq<byte>, got: seq<byte>)
    requires |got| < EXPANDED_SIZE && got == Decompress(Sender.WINDOW_SZ2, Sender.LOOKAHEAD_SZ2, content)
    ensures got == Expanded(content)
  {
  }

  // ---------------------------------------------------------------- when the expansion loop ends

  /**
   * The bytes the decoder has taken in when it stops in front of the byte that no longer fits; None if it
   * never does.
   */
  function BlocksAfter(content: seq<byte>): (r: Option<nat>)
    ensures r.Some? ==> r.value <= |content|
  {
    var b := BlockBits(Sender.WINDOW_SZ2, Sender.LOOKAHEAD_SZ2, ByteBits(content), EXPANDED_SIZE);
    if b.Some? then Some(BytesFor(b.value)) else None
  }

  /** All the input the decoder can be given when it stops after `p` bytes: its buffer is filled whole. */
  function Limit(p: nat): nat {
    DECODER_INPUT * (p / DECODER_INPUT + 1)
  }

  /** The decoder stops with its input buffer full and more to come. */
  predicate Hangs(content: seq<byte>) {
    BlocksAfter(content).Some? && |content| > Limit(BlocksAfter(content).value)
  }

  lemma BlocksMore(content: seq<byte>, n: nat)
    requires n <= |content| && BlocksAfter(content[..n]).Some?
    ensures BlocksAfter(content) == BlocksAfter(content[..n])
  {
    hide BlockBits, ByteBits;
    assert content == content[..n] + content[n..];
    ByteBitsAppend(content[..n], content[n..]);
    BlockMore(Sender.WINDOW_SZ2, Sender.LOOKAHEAD_SZ2, ByteBits(content[..n]), ByteBits(content[n..]), EXPANDED_SIZE);
  }

  lemma BlocksLess(content: seq<byte>, n: nat)
    requires n <= |content| && BlocksAfter(content).Some? && BlocksAfter(content).value <= n
    ensures BlocksAfter(content[..n]) == BlocksAfter(content)
  {
    hide BlockBits, ByteBits;
    assert content == content[..n] + content[n..];
    ByteBitsAppend(content[..n], content[n..]);
    assert ByteBits(content)[..8 * n] == ByteBits(content[..n]);
    BlockLess(Sender.WINDOW_SZ2, Sender.LOOKAHEAD_SZ2, ByteBits(content), 8 * n, EXPANDED_SIZE);
  }

  /** A decoder that stops has filled the output. */
  lemma BlocksFull(content: seq<byte>)
    requires BlocksAfter(content).Some?
    ensures |Decoding(content)| >= EXPANDED_SIZE
  {
    hide BlockBits, ByteBits, Decode, Pow2;
    BlockReaches(Sender.WINDOW_SZ2, Sender.LOOKAHEAD_SZ2, Zeros(Pow2(Sender.WINDOW_SZ2)), ByteBits(content),
      EXPANDED_SIZE);
  }

  /** The loop ends on everything that decodes to no more than the buffer holds. */
  lemma ShortNeverHangs(content: seq<byte>)
    ensures |Decoding(content)| <= EXPANDED_SIZE ==> !Hangs(content)
  {
    hide BlockBits, ByteBits, Decode, Pow2;
    var z := Zeros(Pow2(Sender.WINDOW_SZ2));
    if BlocksAfter(content).Some? && |Decoding(content)| <= EXPANDED_SIZE {
      BlockLate(Sender.WINDOW_SZ2, Sender.LOOKAHEAD_SZ2, z, ByteBits(content), EXPANDED_SIZE);
      assert BlocksAfter(content) == Some(|content|);
    }
  }

  /** The loop between two turns: `sunk` bytes passed on, `total` put out, `size` in the decoder's buffer. */
  ghost predicate AtTurn(content: seq<byte>, sunk: nat, total: nat, size: nat) {
    && sunk <= |content| && total <= EXPANDED_SIZE
    && (sunk == |content| || (sunk % DECODER_INPUT == 0 && (size == 0 || size == DECODER_INPUT)))
    && (if total < EXPANDED_SIZE then size == 0 && |Decoding(content[..sunk])| < EXPANDED_SIZE
        else
          match BlocksAfter(content[..sunk])
          case None => size == 0
          case Some(p) => (size == 0 <==> p == sunk) && sunk - size <= p)
  }

  /** With the buffer full and more to come, the decoder has stopped for good. */
  lemma FullMeansHangs(content: seq<byte>, sunk: nat, total: nat, size: nat)
    requires AtTurn(content, sunk, total, size) && sunk < |content| && size == DECODER_INPUT
    ensures Hangs(content) && sunk == Limit(BlocksAfter(content).value)
  {
    hide BlocksAfter, Decoding;
    BlocksMore(content, sunk);
    LastBuffer(sunk, BlocksAfter(content).value);
  }

  lemma LastBuffer(sunk: nat, p: nat)
    requires sunk % DECODER_INPUT == 0 && sunk - DECODER_INPUT <= p < sunk
    ensures sunk == Limit(p)
  {
  }

  /** A loop that has got that far on a file that hangs has the buffer full. */
  lemma HangsMeansFull(content: seq<byte>, sunk: nat, total: nat, size: nat)
    requires AtTurn(content, sunk, total, size) && Hangs(content) && sunk == Limit(BlocksAfter(content).value)
    ensures size == DECODER_INPUT
  {
    hide BlocksAfter, Decoding;
    BlocksLess(content, sunk);
    BlocksFull(content[..sunk]);
  }

  lemma BeforeLimit(sunk: nat, p: nat)
    requires sunk % DECODER_INPUT == 0 && sunk < Limit(p)
    ensures sunk + DECODER_INPUT <= Limit(p)
  {
  }

  /** What the poll of a turn leaves behind, as `AtTurn` sees it. */
  lemma Polled(d: Dec.Decoder, content: seq<byte>, sunk: nat, total: nat)
    requires d.Valid() && d.w == Sender.WINDOW_SZ2 && d.l == Sender.LOOKAHEAD_SZ2 && sunk <= |content|
    requires d.sunk == content[..sunk] && |d.emitted| == total <= EXPANDED_SIZE
    requires if total < EXPANDED_SIZE then d.Drained() else d.InputOk() && d.Stalled()
    requires sunk == |content| || (sunk % DECODER_INPUT == 0 && (d.inputSize == 0 || d.inputSize == DECODER_INPUT))
    ensures AtTurn(content, sunk, total, d.inputSize)
  {
    hide BlockBits, Decompress, Dec.Decoder.Valid, Dec.Decoder.InputOk, Dec.Decoder.Stalled, Dec.Decoder.Rest, ByteBits;
    if total == EXPANDED_SIZE {
      StalledAt(d);
      UnreadBits(d);
      var b := BlockBits(d.w, d.l, ByteBits(d.sunk), EXPANDED_SIZE);
      if b.Some? {
        WholeBytes(b.value, Pulled(d), d.avail);
      }
    }
  }

  // ---------------------------------------------------------------- a file that hangs

  /** The longest copy there is, of the byte just before. */
  const RUN: Token := Backref(1, 16)

  function Runs(n: nat): (ts: seq<Token>)
    ensures |ts| == n
  {
    seq(n, _ => RUN)
  }

  /** A file that decodes to 16 n zeros. */
  function RunsFile(n: nat): seq<byte> {
    Pack(TokensBits(Sender.WINDOW_SZ2, Sender.LOOKAHEAD_SZ2, Runs(n)))
  }

  lemma RunOk()
    ensures TokenOk(Sender.WINDOW_SZ2, Sender.LOOKAHEAD_SZ2, RUN) && TokenLen(RUN) == 16
    ensures |TokenBits(Sender.WINDOW_SZ2, Sender.LOOKAHEAD_SZ2, RUN)| == 13
  {
    Pow2Table();
  }

  lemma {:induction false} RunsSize(n: nat)
    ensures TokensOk(Sender.WINDOW_SZ2, Sender.LOOKAHEAD_SZ2, Runs(n)) && TokensLen(Runs(n)) == 16 * n
    ensures |TokensBits(Sender.WINDOW_SZ2, Sender.LOOKAHEAD_SZ2, Runs(n))| == 13 * n
    decreases n
  {
    RunOk();
    hide TokenBits, TokenOk, TokenLen;
    if n > 0 {
      assert Runs(n)[..n - 1] == Runs(n - 1);
      RunsSize(n - 1);
    }
  }

  /** With more than 2048 runs the decoder stops behind the 2049th, at byte 3330. */
  lemma RunsBlock(n: nat, pad: bits)
    requires |pad| < 8 && pad == Falses(|pad|)
    ensures var b := BlockBits(Sender.WINDOW_SZ2, Sender.LOOKAHEAD_SZ2,
                               TokensBits(Sender.WINDOW_SZ2, Sender.LOOKAHEAD_SZ2, Runs(n)) + pad, EXPANDED_SIZE);
      b == if n > 2048 then Some(26637) else None
  {
    var w, l := Sender.WINDOW_SZ2, Sender.LOOKAHEAD_SZ2;
    RunOk();
    RunsSize(n);
    hide TokenBits, TokenOk, TokenLen, TokensBits, ParseToken, BlockBits;
    if n > 2048 {
      var ts := Runs(2049);
      RunsSize(2049);
      RunsSize(n);
      FirstRuns(n, 2049);
      var all := TokensBits(w, l, Runs(n)) + pad;
      RunsStop(all[|TokensBits(w, l, ts)|..]);
      assert all == TokensBits(w, l, ts) + all[|TokensBits(w, l, ts)|..];
    } else {
      BlockTokens(w, l, Runs(n), pad, EXPANDED_SIZE);
      SilentPad(pad, EXPANDED_SIZE - 16 * n);
    }
  }

  lemma FirstRuns(n: nat, k: nat)
    requires k <= n
    ensures TokensBits(Sender.WINDOW_SZ2, Sender.LOOKAHEAD_SZ2, Runs(k)) <= TokensBits(Sender.WINDOW_SZ2, Sender.LOOKAHEAD_SZ2, Runs(n))
    decreases n
  {
    hide TokenBits;
    if k < n {
      assert Runs(n)[..n - 1] == Runs(n - 1);
      FirstRuns(n - 1, k);
    }
  }

  lemma RunsStop(rest: bits)
    ensures BlockBits(Sender.WINDOW_SZ2, Sender.LOOKAHEAD_SZ2,
                      TokensBits(Sender.WINDOW_SZ2, Sender.LOOKAHEAD_SZ2, Runs(2049)) + rest,
                        EXPANDED_SIZE) == Some(26637)
  {
    var w, l, ts := Sender.WINDOW_SZ2, Sender.LOOKAHEAD_SZ2, Runs(2049);
    RunsSize(2049);
    hide TokenBits, TokenOk, TokenLen, TokensBits, TokensOk, TokensLen, ParseToken, BlockBits;
    var stream := TokensBits(w, l, ts) + rest;
    InCopy(w, l, ts, rest, stream, EXPANDED_SIZE, 16);
  }

  lemma SilentPad(pad: bits, room: nat)
    requires |pad| < 8 && pad == Falses(|pad|)
    ensures BlockBits(Sender.WINDOW_SZ2, Sender.LOOKAHEAD_SZ2, pad, room) == None
  {
  }

  lemma RunsBlockAfter(n: nat)
    ensures BlocksAfter(RunsFile(n)) == if n > 2048 then Some(3330) else None
    ensures |RunsFile(n)| == (13 * n + 7) / 8
  {
    hide BlockBits, TokensBits, Pack, ByteBits, Runs;
    RunsSize(n);
    var s := TokensBits(Sender.WINDOW_SZ2, Sender.LOOKAHEAD_SZ2, Runs(n));
    UnpackPack(s);
    RunsBlock(n, Falses(8 * |RunsFile(n)| - |s|));
  }

  /** The receiver hangs on such a file exactly from 2206 runs on, which is from 3585 bytes on. */
  lemma RunsHangIff(n: nat)
    ensures Hangs(RunsFile(n)) <==> n >= 2206
    ensures |RunsFile(n)| == (13 * n + 7) / 8
  {
    hide BlocksAfter, RunsFile;
    RunsBlockAfter(n);
  }

  // ---------------------------------------------------------------- the expansion loop

  /** The do-while loop around poll. */
  method PollInto(d: Dec.Decoder, buf: array<byte>, start: nat) returns (total: nat)
    requires d.Valid() && buf != d.buffers && buf.Length == EXPANDED_SIZE
    requires start <= EXPANDED_SIZE && d.emitted == buf[..start]
    modifies d, d.buffers, buf
    ensures d.Valid() && d.sunk == old(d.sunk)
    ensures start <= total <= EXPANDED_SIZE && d.emitted == buf[..total]
    ensures if total < EXPANDED_SIZE then d.Drained() else d.InputOk() && d.Stalled()
    ensures d.inputSize == 0 || d.inputSize == old(d.inputSize)
  {
    hide *;
    total := start;
    var pres, once := Dec.PollMore, false;
    while !once || (pres == Dec.PollMore && total < EXPANDED_SIZE)
      invariant d.Valid() && d.sunk == old(d.sunk)
      invariant start <= total <= EXPANDED_SIZE && d.emitted == buf[..total]
      invariant once && pres != Dec.PollMore ==> total < EXPANDED_SIZE && d.Drained()
      invariant once && pres == Dec.PollMore ==> total == EXPANDED_SIZE && d.InputOk() && d.Stalled()
      invariant d.inputSize == 0 || d.inputSize == old(d.inputSize)
      decreases !once, EXPANDED_SIZE - total, if pres == Dec.PollMore then 1 else 0
    {
      var p;
      pres, p := d.Poll(buf, total, EXPANDED_SIZE - total);
      assert buf[..total + p] == buf[..total] + buf[total..total + p];
      total := total + p;
      once := true;
    }
  }

  /**
   * The decompression loop, taking at most `rounds` turns. However many it may take, it does not get
   * through a file that hangs; and it gets through every other one, with as many turns as it has bytes.
   */
  method ExpandFile(content: seq<byte>, rounds: nat) returns (out: seq<byte>, finished: bool)
    ensures finished ==> out == Expanded(content) && !Hangs(content)
    ensures !Hangs(content) && rounds >= |content| ==> finished
    ensures |Decoding(content)| <= EXPANDED_SIZE && rounds >= |content| ==> finished
  {
    hide Decompress, Decoding, Fits, Expanded, Dec.Decoder.Valid, Dec.Decoder.Drained, ValidSizes, AtTurn, Hangs,
      NotPast, Dec.Decoder.InputOk, Dec.Decoder.Stalled;
    DecoderSizes();
    StartOfLoop(content);
    ShortNeverHangs(content);
    var d := new Dec.Decoder(DECODER_INPUT, Sender.WINDOW_SZ2, Sender.LOOKAHEAD_SZ2);
    var decompressed := new byte[EXPANDED_SIZE];
    var totalSunk: nat, totalDecomp: nat, turns: nat := 0, 0, 0;
    assert decompressed[..0] == [] && content[..0] == [];
    while totalSunk < |content| && turns < rounds
      invariant d.Valid() && totalSunk <= |content| && d.sunk == content[..totalSunk]
      invariant totalDecomp <= EXPANDED_SIZE && d.emitted == decompressed[..totalDecomp]
      invariant AtTurn(content, totalSunk, totalDecomp, d.inputSize) && d.inputSize <= DECODER_INPUT
      invariant NotPast(content, totalSunk)
      invariant turns <= rounds && (!Hangs(content) ==> turns <= totalSunk)
      decreases rounds - turns
    {
      BeforeSink(content, totalSunk, totalDecomp, d.inputSize, Min(DECODER_INPUT - d.inputSize, |content| - totalSunk));
      var sres, sunk := d.Sink(content[totalSunk..]);
      TakeMore(content, totalSunk, sunk);
      totalSunk := totalSunk + sunk;
      totalDecomp := PollInto(d, decompressed, totalDecomp);
      Polled(d, content, totalSunk, totalDecomp);
      turns := turns + 1;
    }
    if totalSunk < |content| {
      return [], false;
    }
    NotPastEnd(content);
    var fin := d.Finish();
    totalDecomp := PollInto(d, decompressed, totalDecomp);
    d.DrainedIs();
    d.EmittedIsPrefix();
    assert content[..totalSunk] == content;
    ghost var got := decompressed[..totalDecomp];
    if totalDecomp < EXPANDED_SIZE {
      decompressed[totalDecomp] := 0;
      FittingIs(content, got);
    } else {
      Overflows(content, totalSunk, got);
      decompressed[EXPANDED_SIZE - 1] := 0;
      assert decompressed[..totalDecomp] == got[..EXPANDED_SIZE - 1] + [0];
      Terminated(content, got, decompressed[..totalDecomp]);
    }
    out, finished := decompressed[..totalDecomp], true;
  }

  /** A file that hangs never has more of it sunk than fills the buffer the decoder stops in. */
  ghost predicate NotPast(content: seq<byte>, sunk: nat) {
    Hangs(content) ==> sunk <= Limit(BlocksAfter(content).value)
  }

  lemma NotPastEnd(content: seq<byte>)
    requires NotPast(content, |content|)
    ensures !Hangs(content)
  {
    hide BlocksAfter;
  }

  lemma StartOfLoop(content: seq<byte>)
    ensures AtTurn(content, 0, 0, 0) && NotPast(content, 0)
  {
    hide BlocksAfter;
    assert content[..0] == [];
  }

  /** What the sink of a turn takes: a whole buffer, the end of the file, or nothing, and that for ever. */
  lemma BeforeSink(content: seq<byte>, sunk: nat, total: nat, size: nat, n: nat)
    requires AtTurn(content, sunk, total, size) && NotPast(content, sunk) && sunk < |content|
    requires size <= DECODER_INPUT && n == Min(DECODER_INPUT - size, |content| - sunk)
    ensures n == 0 ==> Hangs(content)
    ensures NotPast(content, sunk + n)
    ensures sunk + n == |content| ||
      ((sunk + n) % DECODER_INPUT == 0 && size + n == DECODER_INPUT)
  {
    hide BlocksAfter, Decoding;
    if size == DECODER_INPUT {
      FullMeansHangs(content, sunk, total, size);
    } else if Hangs(content) {
      var p := BlocksAfter(content).value;
      if sunk < Limit(p) {
        BeforeLimit(sunk, p);
      } else {
        HangsMeansFull(content, sunk, total, size);
      }
    }
  }

  // ---------------------------------------------------------------- what a packet does

  datatype Delivery = Text(text: seq<byte>) | File(content: seq<byte>)

  /** The nonces accepted so far, the session key, and everything handed to the user. */
  datatype Rx = Rx(accepted: seq<Nonce>, keyValid: bool, key: seq<byte>, delivered: seq<Delivery>)

  /** The receiver's surroundings: the cipher, and the key the local list or Auth has for a key-id payload. */
  datatype World = World(aead: Sender.Aead, findKey: seq<byte> -> Option<seq<byte>>)

  function Delivered(kind: byte, text: seq<byte>): Delivery {
    if kind == MSG_TYPE_FILE then File(Expanded(text)) else Text(text)
  }

  ghost predicate Seen(rx: Rx, nonce: Nonce) {
    SeenIn(rx.accepted, NONCE_HISTORY_SIZE, NONCE_SIZE, nonce)
  }

  /** The plaintext of a data packet that is new and opens under the current key. */
  ghost function Opened(world: World, rx: Rx, p: Packet): Option<seq<byte>> {
    if p.Data? && !Seen(rx, p.nonce) && rx.keyValid then world.aead.open(rx.key, p.nonce, p.ciphertext, p.tag) else None
  }

  /** The replay check and its bookkeeping come first, so a nonce counts even when nothing can be opened. */
  ghost function Handle(world: World, rx: Rx, p: Packet): Rx {
    match p
    case KeyId(payload) =>
      (match world.findKey(payload)
       case None => rx
       case Some(k) => rx.(keyValid := true, key := k))
    case HandshakeReply(_) => rx
    case Data(kind, nonce, _, _) =>
      if Seen(rx, nonce) then rx
      else
        var text := Opened(world, rx, p);
        Rx(rx.accepted + [nonce], rx.keyValid, rx.key,
           if text.Some? then rx.delivered + [Delivered(kind, text.value)] else rx.delivered)
  }

  ghost function HandleAll(world: World, rx: Rx, ps: seq<Packet>): Rx
    decreases |ps|
  {
    if ps == [] then rx else HandleAll(world, Handle(world, rx, ps[0]), ps[1..])
  }

  /** A file on which the expansion loop never ends. */
  ghost predicate Hanging(world: World, rx: Rx, p: Packet) {
    Opened(world, rx, p).Some? && p.kind == MSG_TYPE_FILE && Hangs(Opened(world, rx, p).value)
  }

  ghost predicate NoneHangs(world: World, rx: Rx, ps: seq<Packet>)
    decreases |ps|
  {
    ps != [] ==> !Hanging(world, rx, ps[0]) && NoneHangs(world, Handle(world, rx, ps[0]), ps[1..])
  }

  /** The preamble state after a whole stream. */
  function EndState(st: nat, s: seq<byte>): (r: nat)
    requires st <= 4
    ensures r <= 4
    decreases |s|
  {
    if s == [] then st
    else if st < 4 then EndState(NextState(st, s[0]), s[1..])
    else EndState(0, s[ReadPacket(s).1..])
  }

  lemma ParseByte(st: nat, s: seq<byte>)
    requires st < 4 && s != []
    ensures Parse(st, s) == Parse(NextState(st, s[0]), s[1..])
    ensures EndState(st, s) == EndState(NextState(st, s[0]), s[1..])
  {
    hide NextState, ReadPacket;
  }

  lemma ParsePacket(s: seq<byte>)
    requires s != []
    ensures var (p, n) := ReadPacket(s);
      && Parse(4, s) == (if p.Some? then [p.value] else []) + Parse(0, s[n..])
      && EndState(4, s) == EndState(0, s[n..])
  {
    hide NextState, ReadPacket;
  }

  lemma ParseNothing(st: nat)
    requires st <= 4
    ensures Parse(st, []) == [] && EndState(st, []) == st
  {
  }

  lemma HandleFirst(world: World, rx: Rx, p: Packet, rest: seq<Packet>)
    ensures HandleAll(world, rx, [p] + rest) == HandleAll(world, Handle(world, rx, p), rest)
    ensures NoneHangs(world, rx, [p] + rest) <==> !Hanging(world, rx, p) && NoneHangs(world, Handle(world, rx, p), rest)
  {
    hide Handle, Hanging;
    assert ([p] + rest)[1..] == rest;
  }

  class Receiver {
    const world: World
    const rwin: ReplayWindow
    var uartState: nat
    var keyValid: bool
    var key: seq<byte>
    var delivered: seq<Delivery>
    var hung: bool  // in an expansion loop that never ends

    ghost predicate Valid()
      reads this, rwin, rwin.buf
    {
      rwin.Valid() && rwin.cap == NONCE_HISTORY_SIZE && rwin.nonceSize == NONCE_SIZE && uartState <= 4
    }

    ghost function State(): Rx
      reads this, rwin
    {
      Rx(rwin.accepted, keyValid, key, delivered)
    }

    constructor (world: World)
      ensures Valid() && State() == Rx([], false, [], []) && uartState == 0 && !hung
      ensures fresh(rwin) && fresh(rwin.buf) && this.world == world
    {
      this.world := world;
      uartState, keyValid, key, delivered, hung := 0, false, [], [], false;
      rwin := new ReplayWindow(NONCE_SIZE, NONCE_HISTORY_SIZE);
    }

    /** One byte of the preamble. */
    method Hunting(b: byte)
      requires uartState < 4
      modifies `uartState
      ensures uartState == NextState(old(uartState), b)
    {
      match uartState {
        case 0 =>
          if b == PREAMBLE[0] {
            uartState := 1;
          }
        case 1 =>
          if b == PREAMBLE[1] {
            uartState := 2;
          } else {
            uartState := if b == PREAMBLE[0] then 1 else 0;
          }
        case 2 =>
          if b == PREAMBLE[2] {
            uartState := 3;
          } else {
            uartState := if b == PREAMBLE[0] then 1 else 0;
          }
        case _ =>
          if b == PREAMBLE[3] {
            uartState := 4;
          } else {
            uartState := if b == PREAMBLE[0] then 1 else 0;
          }
      }
    }

    /** A data packet with a good checksum. */
    method OnData(kind: byte, nonce: seq<byte>, ciphertext: seq<byte>, tag: seq<byte>)
      requires Valid() && !hung
      modifies this`delivered, this`hung, rwin, rwin.buf
      ensures Valid()
      ensures !hung ==> State() == Handle(world, old(State()), Data(kind, nonce, ciphertext, tag))
      ensures hung <==> Hanging(world, old(State()), Data(kind, nonce, ciphertext, tag))
      ensures delivered != old(delivered) ==> keyValid && world.aead.open(key, nonce, ciphertext, tag).Some?
    {
      hide Expanded, Hangs, SeenIn;
      var seen := rwin.Seen(nonce);
      if seen {
        return;
      }
      rwin.Add(nonce);
      if !keyValid {
        return;
      }
      var plain := world.aead.open(key, nonce, ciphertext, tag);
      if plain.Some? {
        if kind == MSG_TYPE_FILE {
          var content, finished := ExpandFile(plain.value, |plain.value|);
          if !finished {
            hung := true;
            return;
          }
          delivered := delivered + [File(content)];
        } else {
          delivered := delivered + [Text(plain.value)];
        }
      }
    }

    method OnPacket(p: Packet)
      requires Valid() && !hung
      modifies this`delivered, this`hung, this`key, this`keyValid, rwin, rwin.buf
      ensures Valid()
      ensures !hung ==> State() == Handle(world, old(State()), p)
      ensures hung <==> Hanging(world, old(State()), p)
    {
      match p {
        case KeyId(payload) =>
          var found := world.findKey(payload);
          if found.Some? {
            key, keyValid := found.value, true;
          }
        case HandshakeReply(_) =>
        case Data(kind, nonce, ciphertext, tag) =>
          OnData(kind, nonce, ciphertext, tag);
      }
    }

    /** The event loop over everything that arrives before the line falls silent. */
    method OnStream(s: seq<byte>)
      requires Valid() && !hung
      modifies this, rwin, rwin.buf
      ensures Valid()
      ensures !hung ==> State() == HandleAll(world, old(State()), Parse(old(uartState), s))
      ensures !hung ==> uartState == EndState(old(uartState), s)
      ensures hung <==> !NoneHangs(world, old(State()), Parse(old(uartState), s))
    {
      hide Parse, EndState, HandleAll, NoneHangs, Handle, Hanging, ReadPacket, NextState, ReplayWindow.Valid;
      var pos := 0;
      assert s[0..] == s;
      while pos < |s|
        invariant pos <= |s| && Valid() && !hung
        invariant HandleAll(world, State(), Parse(uartState, s[pos..])) == HandleAll(world, old(State()), Parse(old(uartState), s))
        invariant EndState(uartState, s[pos..]) == EndState(old(uartState), s)
        invariant NoneHangs(world, old(State()), Parse(old(uartState), s)) <==>
          NoneHangs(world, State(), Parse(uartState, s[pos..]))
      {
        var rest := s[pos..];
        if uartState < 4 {
          ParseByte(uartState, rest);
          assert rest[1..] == s[pos + 1..];
          Hunting(s[pos]);
          pos := pos + 1;
        } else {
          ParsePacket(rest);
          var p, used := ReadFrame(rest);
          assert rest[used..] == s[pos + used..];
          if p.Some? {
            HandleFirst(world, State(), p.value, Parse(0, s[pos + used..]));
            OnPacket(p.value);
            if hung {
              return;
            }
          } else {
            assert [] + Parse(0, s[pos + used..]) == Parse(0, s[pos + used..]);
          }
          uartState := 0;
          pos := pos + used;
        }
      }
      assert s[pos..] == [];
      ParseNothing(uartState);
      NoPackets(world, State());
    }
  }

  lemma NoPackets(world: World, rx: Rx)
    ensures HandleAll(world, rx, []) == rx && NoneHangs(world, rx, [])
  {
  }

  // ---------------------------------------------------------------- what is delivered, and under which key

  /**
   * Something is delivered exactly when a data packet with an unseen nonce opens under the key the
   * receiver holds, and then it is what that opening gives: forged, damaged or foreign packets give nothing.
   */
  lemma DeliversIff(world: World, rx: Rx, p: Packet)
    ensures Handle(world, rx, p).delivered != rx.delivered <==>
      p.Data? && !Seen(rx, p.nonce) && rx.keyValid && world.aead.open(rx.key, p.nonce, p.ciphertext, p.tag).Some?
    ensures Handle(world, rx, p).delivered != rx.delivered ==>
      Handle(world, rx, p).delivered
        == rx.delivered + [Delivered(p.kind, world.aead.open(rx.key, p.nonce, p.ciphertext, p.tag).value)]
  {
    hide SeenIn, Delivered;
  }

  /** The key changes only to one found for the payload of a key-id packet, and one found is always taken. */
  lemma KeyIff(world: World, rx: Rx, p: Packet)
    ensures var rx' := Handle(world, rx, p);
      if p.KeyId? && world.findKey(p.payload).Some? then rx'.keyValid && Some(rx'.key) == world.findKey(p.payload)
      else rx'.keyValid == rx.keyValid && rx'.key == rx.key
  {
    hide SeenIn, Delivered;
  }

  /** A packet of the run, and the state in which the receiver meets it. */
  ghost function At(world: World, rx: Rx, ps: seq<Packet>, j: nat): Rx
    requires j <= |ps|
  {
    HandleAll(world, rx, ps[..j])
  }

  /** Delivery `d` is what packet `j` opens to under the key held when it is met. */
  ghost predicate OpenedAt(world: World, rx: Rx, ps: seq<Packet>, j: nat, d: Delivery)
    requires j < |ps|
  {
    var p, at := ps[j], At(world, rx, ps, j);
    && p.Data? && at.keyValid && !Seen(at, p.nonce)
    && world.aead.open(at.key, p.nonce, p.ciphertext, p.tag).Some?
    && d == Delivered(p.kind, world.aead.open(at.key, p.nonce, p.ciphertext, p.tag).value)
  }

  /** The packets `js`, in this order, are the sources of the deliveries `ds`. */
  ghost predicate Sources(world: World, rx: Rx, ps: seq<Packet>, js: seq<nat>, ds: seq<Delivery>) {
    && |js| == |ds|
    && (forall t, u :: 0 <= t < u < |js| ==> js[t] < js[u])
    && forall t :: 0 <= t < |js| ==> js[t] < |ps| && OpenedAt(world, rx, ps, js[t], ds[t])
  }

  lemma HandleSnoc(world: World, rx: Rx, ps: seq<Packet>, p: Packet)
    ensures HandleAll(world, rx, ps + [p]) == Handle(world, HandleAll(world, rx, ps), p)
    decreases |ps|
  {
    hide Handle;
    if ps == [] {
      assert ps + [p] == [p] && [p][1..] == [];
    } else {
      assert (ps + [p])[1..] == ps[1..] + [p];
      HandleSnoc(world, Handle(world, rx, ps[0]), ps[1..], p);
    }
  }

  lemma OpenedLater(world: World, rx: Rx, ini: seq<Packet>, p: Packet, j: nat, d: Delivery)
    requires j < |ini| && OpenedAt(world, rx, ini, j, d)
    ensures OpenedAt(world, rx, ini + [p], j, d)
  {
    hide HandleAll, Delivered, SeenIn;
    assert (ini + [p])[..j] == ini[..j];
  }

  /**
   * Authenticity of everything delivered: whatever packets arrive, the new deliveries are, one by one
   * and in order, the openings of data packets among them under the key held at that point.
   */
  lemma {:induction false} DeliveriesOpened(world: World, rx: Rx, ps: seq<Packet>) returns (js: seq<nat>)
    ensures rx.delivered <= HandleAll(world, rx, ps).delivered
    ensures Sources(world, rx, ps, js, HandleAll(world, rx, ps).delivered[|rx.delivered|..])
    decreases |ps|
  {
    hide Handle, HandleAll, OpenedAt, Delivered;
    if ps == [] {
      NoPackets(world, rx);
      js := [];
    } else {
      var ini, p := ps[..|ps| - 1], ps[|ps| - 1];
      assert ps == ini + [p];
      js := DeliveriesOpened(world, rx, ini);
      HandleSnoc(world, rx, ini, p);
      var at := HandleAll(world, rx, ini);
      DeliversIff(world, at, p);
      var ds := at.delivered[|rx.delivered|..];
      forall t | 0 <= t < |js|
        ensures OpenedAt(world, rx, ps, js[t], ds[t])
      {
        OpenedLater(world, rx, ini, p, js[t], ds[t]);
      }
      if Handle(world, at, p).delivered != at.delivered {
        var d := Delivered(p.kind, world.aead.open(at.key, p.nonce, p.ciphertext, p.tag).value);
        assert Handle(world, at, p).delivered[|rx.delivered|..] == ds + [d];
        LastOpened(world, rx, ps);
        js := js + [|ini|];
      }
    }
  }

  lemma LastOpened(world: World, rx: Rx, ps: seq<Packet>)
    requires ps != []
    ensures var p, at := ps[|ps| - 1], HandleAll(world, rx, ps[..|ps| - 1]);
      p.Data? && !Seen(at, p.nonce) && at.keyValid && world.aead.open(at.key, p.nonce, p.ciphertext, p.tag).Some? ==>
        OpenedAt(world, rx, ps, |ps| - 1, Delivered(p.kind, world.aead.open(at.key, p.nonce, p.ciphertext, p.tag).value))
  {
    hide HandleAll, Delivered, SeenIn;
  }

  /** The same for any bytes on the link, from a receiver that has just been switched on. */
  lemma AnyStreamAuthentic(world: World, s: seq<byte>) returns (js: seq<nat>)
    ensures var rx := Rx([], false, [], []);
      Sources(world, rx, Parse(0, s), js, HandleAll(world, rx, Parse(0, s)).delivered)
  {
    hide HandleAll, Parse, Sources;
    var rx := Rx([], false, [], []);
    js := DeliveriesOpened(world, rx, Parse(0, s));
    assert HandleAll(world, rx, Parse(0, s)).delivered[0..] == HandleAll(world, rx, Parse(0, s)).delivered;
  }

  // ---------------------------------------------------------------- any stream at all

  /** The nonces of the data packets, in order. */
  function NoncesIn(ps: seq<Packet>): seq<Nonce> {
    if ps == [] then []
    else (if ps[0].Data? then [ps[0].nonce] else []) + NoncesIn(ps[1..])
  }

  lemma RunFirst(acc: seq<Nonce>, cap: nat, size: nat, n: Nonce, rest: seq<Nonce>)
    ensures Run(acc, cap, size, [n] + rest) == Run(if SeenIn(acc, cap, size, n) then acc else acc + [n], cap, size, rest)
  {
    hide SeenIn;
    assert ([n] + rest)[1..] == rest;
  }

  /**
   * What the receiver has accepted is what the replay window lets through, and nothing is delivered without a
   * new nonce.
   */
  lemma {:induction false} AcceptedIsRun(world: World, rx: Rx, ps: seq<Packet>)
    ensures var rx' := HandleAll(world, rx, ps);
      && rx'.accepted == Run(rx.accepted, NONCE_HISTORY_SIZE, NONCE_SIZE, NoncesIn(ps))
      && rx.delivered <= rx'.delivered
      && |rx'.delivered| - |rx.delivered| <= |rx'.accepted| - |rx.accepted|
    decreases |ps|
  {
    hide SeenIn, Delivered;
    if ps != [] {
      AcceptedIsRun(world, Handle(world, rx, ps[0]), ps[1..]);
      if ps[0].Data? {
        RunFirst(rx.accepted, NONCE_HISTORY_SIZE, NONCE_SIZE, ps[0].nonce, NoncesIn(ps[1..]));
      } else {
        assert [] + NoncesIn(ps[1..]) == NoncesIn(ps[1..]);
      }
    }
  }

  /** The receiver remembers exactly the last 64 accepted nonces, and takes twelve zeros for one while there are fewer. */
  lemma SeenIff(rx: Rx, n: Nonce)
    ensures var acc := rx.accepted;
      Seen(rx, n) <==>
        || (exists k :: |acc| - 64 <= k && 0 <= k < |acc| && acc[k] == n)
        || (|acc| < 64 && n == [0, 0, 0, 0, 0, 0, 0, 0, 0, 0, 0, 0])
  {
    assert ZeroNonce(12) == [0, 0, 0, 0, 0, 0, 0, 0, 0, 0, 0, 0];
  }

  /** Whatever bytes arrive, a nonce is accepted again only after 64 others have been. */
  lemma AnyStreamFarApart(world: World, s: seq<byte>, i: nat, j: nat)
    requires var acc := HandleAll(world, Rx([], false, [], []), Parse(0, s)).accepted;
      i < j < |acc| && acc[i] == acc[j]
    ensures j - i - 1 >= NONCE_HISTORY_SIZE
  {
    hide HandleAll, Parse, Run, NoncesIn;
    AcceptedIsRun(world, Rx([], false, [], []), Parse(0, s));
    RepeatsAreFarApart(NONCE_HISTORY_SIZE, NONCE_SIZE, NoncesIn(Parse(0, s)), i, j);
  }

  /** Packets whose nonces are all still remembered do nothing to what is delivered. */
  lemma {:induction false} SeenChangesNothing(world: World, rx: Rx, ps: seq<Packet>)
    requires forall n :: n in NoncesIn(ps) ==> Seen(rx, n)
    ensures HandleAll(world, rx, ps).delivered == rx.delivered && HandleAll(world, rx, ps).accepted == rx.accepted
    decreases |ps|
  {
    hide SeenIn, Delivered;
    if ps != [] {
      var rx' := Handle(world, rx, ps[0]);
      assert ps[0].Data? ==> ps[0].nonce in NoncesIn(ps);
      forall n | n in NoncesIn(ps[1..])
        ensures Seen(rx', n)
      {
        assert n in NoncesIn(ps) && Seen(rx, n);
      }
      SeenChangesNothing(world, rx', ps[1..]);
    }
  }

  /**
   * Recorded packets with new nonces, at most 64 of them, played back right after the original: nothing more
   * is delivered.
   */
  lemma PlaybackIsSilent(world: World, rx: Rx, ps: seq<Packet>)
    requires Distinct(rx.accepted + NoncesIn(ps)) && |NoncesIn(ps)| <= NONCE_HISTORY_SIZE
    requires forall i :: 0 <= i < |NoncesIn(ps)| ==> NoncesIn(ps)[i] != ZeroNonce(NONCE_SIZE)
    ensures var rx' := HandleAll(world, rx, ps);
      && rx'.accepted == rx.accepted + NoncesIn(ps)
      && HandleAll(world, rx', ps).delivered == rx'.delivered
  {
    hide HandleAll, Run, Distinct;
    AcceptedIsRun(world, rx, ps);
    HonestNeverRejected(rx.accepted, NONCE_HISTORY_SIZE, NONCE_SIZE, NoncesIn(ps));
    var rx' := HandleAll(world, rx, ps);
    forall n | n in NoncesIn(ps)
      ensures Seen(rx', n)
    {
      var k :| 0 <= k < |NoncesIn(ps)| && NoncesIn(ps)[k] == n;
      assert rx'.accepted[|rx.accepted| + k] == n;
    }
    SeenChangesNothing(world, rx', ps);
  }
}
