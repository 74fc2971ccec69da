/** The sender's path from a typed message to bytes on the light link. */
module Sender {
  import opened Bits
  import opened Lzss
  import opened Crc16
  import opened Framing
  import opened NonceGen
  import opened Options
  import Enc = HsEncoder
  import KeySlots

  const WINDOW_SZ2: nat := 8
  const LOOKAHEAD_SZ2: nat := 4
  const BUFFER_SIZE: nat := 8192  // message_buffer, compressed_buf and ciphertext

  /** AES-GCM as a pair of functions; the tag is returned beside the ciphertext. */
  datatype Aead = Aead(
    seal: (seq<byte>, seq<byte>, seq<byte>) -> (seq<byte>, seq<byte>),
    open: (seq<byte>, seq<byte>, seq<byte>, seq<byte>) -> Option<seq<byte>>)

  ghost predicate AeadOk(aead: Aead) {
    forall key, nonce, text ::
      && |aead.seal(key, nonce, text).0| == |text|
      && |aead.seal(key, nonce, text).1| == TAG_SIZE
      && aead.open(key, nonce, aead.seal(key, nonce, text).0, aead.seal(key, nonce, text).1) == Some(text)
  }

  /** What one sink call takes from a message: the encoder's buffer holds 2^8 bytes. */
  function FirstSink(m: seq<byte>): (r: seq<byte>)
    ensures |r| == Min(256, |m|)
  {
    m[..Min(256, |m|)]
  }

  /** Type and content of the frame a message becomes; `heapOk` says whether the encoder could be allocated. */
  function Outgoing(m: seq<byte>, heapOk: bool): (byte, seq<byte>) {
    var c := Compress(WINDOW_SZ2, LOOKAHEAD_SZ2, FirstSink(m));
    if |m| > 128 && heapOk && |c| < |m| then (MSG_TYPE_FILE, c) else (MSG_TYPE_ENCRYPTED, m)
  }

  /** The compressed form of one sink's worth never gets near the buffer size. */
  lemma SmallCompressed(m: seq<byte>)
    ensures |Compress(WINDOW_SZ2, LOOKAHEAD_SZ2, FirstSink(m))| <= 288
  {
    CompressBound(WINDOW_SZ2, LOOKAHEAD_SZ2, FirstSink(m));
  }

  lemma SizesOk()
    ensures Enc.EncoderSizes(WINDOW_SZ2, LOOKAHEAD_SZ2) && Pow2(WINDOW_SZ2) == 256
  {
    Pow2Table();
  }

  /** The do-while loop that polls until the encoder waits for more input, or the buffer is full. */
  method PollSunk(e: Enc.Encoder, buf: array<byte>) returns (compSz: nat)
    requires e.Ready() && !e.finishing && e.emitted == [] && buf != e.buffer && buf.Length == BUFFER_SIZE
    modifies e, e.buffer, e.index, buf
    ensures e.Ready() && !e.finishing && e.sunk == old(e.sunk)
    ensures compSz <= BUFFER_SIZE && e.emitted == buf[..compSz]
    ensures compSz < BUFFER_SIZE ==> e.state == Enc.NotFull
  {
    hide *;
    compSz := 0;
    var pres := Enc.PollMore;
    assert buf[..0] == [];
    while pres == Enc.PollMore && compSz < BUFFER_SIZE
      invariant e.Ready() && !e.finishing && e.sunk == old(e.sunk)
      invariant compSz <= BUFFER_SIZE && e.emitted == buf[..compSz]
      invariant pres != Enc.PollErrorMisuse && (pres == Enc.PollEmpty ==> e.state == Enc.NotFull)
      decreases BUFFER_SIZE - compSz, if pres == Enc.PollMore then 1 else 0
    {
      var p;
      pres, p := e.Poll(buf, compSz, BUFFER_SIZE - compSz);
      assert buf[..compSz + p] == buf[..compSz] + buf[compSz..compSz + p];
      compSz := compSz + p;
    }
  }

  /** The auto-compression step: one sink, polls, finish, one more poll. */
  method AutoCompress(m: seq<byte>, heapOk: bool) returns (kind: byte, content: seq<byte>)
    ensures (kind, content) == Outgoing(m, heapOk)
  {
    SizesOk();
    SmallCompressed(m);
    hide Compress, Pow2, Enc.Encoder.Ready, Enc.Encoder.Valid;
    kind, content := MSG_TYPE_ENCRYPTED, m;
    if |m| > 128 && heapOk {
      var e := new Enc.Encoder(WINDOW_SZ2, LOOKAHEAD_SZ2);
      var compressedBuf := new byte[BUFFER_SIZE];
      var sres, sunk := e.Sink(m);
      assert e.sunk == FirstSink(m);
      var compSz := PollSunk(e, compressedBuf);
      e.ReadyIs();
      e.EmittedIsPrefix();
      var fin := e.Finish();
      if fin == Enc.FinishMore {
        var pres, p := e.Poll(compressedBuf, compSz, BUFFER_SIZE - compSz);
        assert compressedBuf[..compSz + p] == compressedBuf[..compSz] + compressedBuf[compSz..compSz + p];
        compSz := compSz + p;
      }
      e.ReadyIs();
      e.EmittedIsPrefix();
      e.DoneIsCompressed();
      assert compressedBuf[..compSz] == Compress(WINDOW_SZ2, LOOKAHEAD_SZ2, FirstSink(m));
      if compSz < |m| {
        if compSz < BUFFER_SIZE {
          content := compressedBuf[..compSz];
          kind := MSG_TYPE_FILE;
        }
      }
    }
  }

  /** A message goes out compressed exactly when it is longer than 128 bytes and its first 256 bytes compress below its length. */
  lemma OutgoingIff(m: seq<byte>, heapOk: bool)
    ensures var c := Compress(8, 4, m[..Min(256, |m|)]);
      Outgoing(m, heapOk) == if |m| >= 129 && heapOk && |c| < |m| then (0x06, c) else (0x02, m)
  {
    hide Compress;
  }

  // ---------------------------------------------------------------- commands and frames

  const CMD_PREFIX: seq<byte> := [0x43, 0x4D, 0x44, 0x3A]                     // "CMD:"
  const SEND_ID: seq<byte> := [0x73, 0x65, 0x6E, 0x64, 0x5F, 0x69, 0x64]      // "send_id"

  function SkipSpaces(s: seq<byte>): seq<byte> {
    if s != [] && s[0] == 0x20 then SkipSpaces(s[1..]) else s
  }

  predicate IsCommand(m: seq<byte>) {
    CMD_PREFIX <= m
  }

  predicate IsSendId(m: seq<byte>) {
    IsCommand(m) && SEND_ID <= SkipSpaces(m[|CMD_PREFIX|..])
  }

  /** is_key_zeroed. */
  predicate KeyZeroed(key: seq<byte>) {
    forall i :: 0 <= i < |key| ==> key[i] == 0
  }

  /** A command that changed the session key: the pair now active and the salt drawn for it. */
  datatype KeyChange = KeyChange(id: seq<byte>, key: seq<byte>, salt: seq<byte>)

  predicate KeyChangeOk(k: KeyChange) {
    |k.id| == KeySlots.SST_KEY_ID_SIZE && |k.key| == KeySlots.SST_KEY_SIZE && |k.salt| == NONCE_SALT_LEN
  }

  /** What decides the sender's next frame: its nonce generator and its active key. */
  datatype PicoState = PicoState(epoch: Epoch, key: seq<byte>, id: seq<byte>)

  ghost predicate PicoOk(p: PicoState) {
    EpochOk(p.epoch) && |p.key| == KeySlots.SST_KEY_SIZE && |p.id| == KeySlots.SST_KEY_ID_SIZE
  }

  /** The nonce generator after one draw, whether or not the counter wraps. */
  ghost function AfterDraw(e: Epoch): (r: Epoch)
    requires e.ctr < COUNTER_END
  {
    if e.ctr + 1 == COUNTER_END then Epoch(e.salt, 0, true) else Epoch(e.salt, e.ctr + 1, e.rebooting)
  }

  /** The packet a message becomes when it is sent with `nonce`. */
  function SentPacket(aead: Aead, key: seq<byte>, nonce: seq<byte>, m: seq<byte>, heapOk: bool): Packet {
    var (kind, content) := Outgoing(m, heapOk);
    var (ciphertext, tag) := aead.seal(key, nonce, content);
    Data(kind, nonce, ciphertext, tag)
  }

  /** Whether a message is sent: not a command, a key is loaded, it fits, and the counter is not used up. */
  predicate Sendable(p: PicoState, m: seq<byte>, heapOk: bool) {
    && !IsCommand(m) && |Outgoing(m, heapOk).1| <= BUFFER_SIZE && !KeyZeroed(p.key)
    && !p.epoch.rebooting && p.epoch.ctr + 1 < COUNTER_END
  }

  /** The bytes one typed line puts on the link. */
  ghost function Emitted(aead: Aead, p: PicoState, m: seq<byte>, heapOk: bool): seq<byte>
    requires AeadOk(aead) && PicoOk(p)
  {
    if p.epoch.rebooting then []
    else if IsSendId(m) then Frame(KeyId(p.id))
    else if Sendable(p, m, heapOk) then
      var packet := SentPacket(aead, p.key, NonceOf(p.epoch.salt, p.epoch.ctr), m, heapOk);
      PayloadFits(aead, p, m, heapOk);
      PREAMBLE + AfterPreamble(TypeByte(packet), Payload(packet))
    else []
  }

  /** The sender after one typed line; `change` is what the command handler did to the key, if anything. */
  ghost function AfterLine(p: PicoState, m: seq<byte>, heapOk: bool, change: Option<KeyChange>): PicoState
    requires p.epoch.ctr < COUNTER_END
  {
    if p.epoch.rebooting || IsSendId(m) then p
    else if IsCommand(m) then
      match change
      case None => p
      case Some(k) => PicoState(Epoch(k.salt, 0, false), k.key, k.id)
    else if |Outgoing(m, heapOk).1| > BUFFER_SIZE || KeyZeroed(p.key) then p
    else p.(epoch := AfterDraw(p.epoch))
  }

  lemma PayloadFits(aead: Aead, p: PicoState, m: seq<byte>, heapOk: bool)
    requires AeadOk(aead) && PicoOk(p) && |Outgoing(m, heapOk).1| <= BUFFER_SIZE
    ensures |Payload(SentPacket(aead, p.key, NonceOf(p.epoch.salt, p.epoch.ctr), m, heapOk))|
         == NONCE_SIZE + |Outgoing(m, heapOk).1| + TAG_SIZE
  {
    hide Outgoing;
  }

  class Pico {
    const aead: Aead
    const gen: Generator
    var sessionKey: seq<byte>
    var sessionKeyId: seq<byte>
    var wire: seq<byte>  // every byte handed to the light transmitter

    ghost predicate Valid()
      reads this, gen
    {
      gen.Valid() && (gen.rebooting ==> gen.msgCounter == 0) && AeadOk(aead)
      && |sessionKey| == KeySlots.SST_KEY_SIZE && |sessionKeyId| == KeySlots.SST_KEY_ID_SIZE
    }

    ghost function State(): PicoState
      reads this, gen
    {
      PicoState(gen.State(), sessionKey, sessionKeyId)
    }

    lemma StateOk()
      requires Valid()
      ensures PicoOk(State()) && AeadOk(aead)
    {
    }

    constructor (aead: Aead, key: seq<byte>, id: seq<byte>, random: seq<byte>)
      requires AeadOk(aead) && |key| == KeySlots.SST_KEY_SIZE && |id| == KeySlots.SST_KEY_ID_SIZE
      requires |random| == NONCE_SALT_LEN
      ensures Valid() && wire == [] && State() == PicoState(Epoch(random, 0, false), key, id)
      ensures fresh(gen) && this.aead == aead
    {
      this.aead, sessionKey, sessionKeyId, wire := aead, key, id, [];
      gen := new Generator(random);
    }

    /** lifi_send_byte. */
    method SendByte(b: byte)
      modifies `wire
      ensures wire == old(wire) + [b]
    {
      wire := wire + [b];
    }

    /** lifi_send_bytes. */
    method SendBytes(src: seq<byte>)
      modifies `wire
      ensures wire == old(wire) + src
    {
      for i := 0 to |src|
        invariant wire == old(wire) + src[..i]
      {
        SendByte(src[i]);
      }
      assert src[..|src|] == src;
    }

    method SendPreamble()
      modifies `wire
      ensures wire == old(wire) + PREAMBLE
    {
      SendByte(PREAMBLE[0]);
      SendByte(PREAMBLE[1]);
      SendByte(PREAMBLE[2]);
      SendByte(PREAMBLE[3]);
    }

    /** The ciphertext goes out in chunks, with a pause after each. */
    method SendChunks(ciphertext: seq<byte>)
      modifies `wire
      ensures wire == old(wire) + ciphertext
    {
      var chunkSize, offset := 256, 0;
      while offset < |ciphertext|
        invariant wire == old(wire) + ciphertext[..Min(offset, |ciphertext|)]
      {
        var chunk := if |ciphertext| - offset > chunkSize then chunkSize else |ciphertext| - offset;
        SendBytes(ciphertext[offset..offset + chunk]);
        assert ciphertext[..offset + chunk] == ciphertext[..offset] + ciphertext[offset..offset + chunk];
        offset := offset + chunkSize;
      }
    }

    /** One data frame. */
    method Transmit(kind: byte, nonce: seq<byte>, ciphertext: seq<byte>, tag: seq<byte>)
      requires |nonce| == NONCE_SIZE && |tag| == TAG_SIZE && |ciphertext| <= BUFFER_SIZE
      modifies `wire
      ensures wire == old(wire) + (PREAMBLE + AfterPreamble(kind, nonce + ciphertext + tag))
    {
      hide Crc;
      var payloadLen := NONCE_SIZE + |ciphertext| + TAG_SIZE;
      var lenBytes: seq<byte> := [payloadLen / 256 % 256, payloadLen % 256];
      var crc := Crc16Ccitt([kind] + lenBytes + nonce + ciphertext + tag);
      var crcBytes: seq<byte> := [crc / 256 % 256, crc % 256];
      SendPreamble();
      SendByte(kind);
      SendBytes(lenBytes);
      SendBytes(nonce);
      SendChunks(ciphertext);
      SendBytes(tag);
      SendBytes(crcBytes);
      FrameShape(old(wire), kind, lenBytes, nonce, ciphertext, tag, crcBytes, crc);
    }

    /** The key-id frame of the send_id command. */
    method SendKeyId()
      requires |sessionKeyId| == KeySlots.SST_KEY_ID_SIZE
      modifies `wire
      ensures wire == old(wire) + Frame(KeyId(sessionKeyId))
    {
      hide Crc;
      var payload := sessionKeyId;
      var lenBytes: seq<byte> := [|payload| / 256 % 256, |payload| % 256];
      var crc := Crc16Ccitt([MSG_TYPE_KEY_ID_ONLY] + lenBytes + payload);
      var crcBytes: seq<byte> := [crc / 256 % 256, crc % 256];
      SendPreamble();
      SendByte(MSG_TYPE_KEY_ID_ONLY);
      SendBytes(lenBytes);
      SendBytes(payload);
      SendBytes(crcBytes);
      var none: seq<byte> := [];
      assert payload + none + none == payload;
      assert [MSG_TYPE_KEY_ID_ONLY] + lenBytes + payload + none + none == [MSG_TYPE_KEY_ID_ONLY] + lenBytes + payload;
      assert wire == old(wire) + PREAMBLE + [MSG_TYPE_KEY_ID_ONLY] + lenBytes + payload + none + none + crcBytes;
      FrameShape(old(wire), MSG_TYPE_KEY_ID_ONLY, lenBytes, payload, none, none, crcBytes, crc);
    }

    /** One typed line, from the command prefix to the last byte of the frame. */
    method Submit(m: seq<byte>, heapOk: bool, change: Option<KeyChange>)
      requires Valid() && (change.Some? ==> KeyChangeOk(change.value))
      modifies this, gen
      ensures Valid()
      ensures wire == old(wire) + Emitted(aead, old(State()), m, heapOk)
      ensures State() == AfterLine(old(State()), m, heapOk, change)
    {
      hide Outgoing, Frame, AfterPreamble, SkipSpaces, KeyZeroed, NonceOf, AeadOk, TypeByte, Payload;
      if gen.rebooting {
        return;
      }
      if IsCommand(m) {
        if IsSendId(m) {
          SendKeyId();
        } else if change.Some? {
          gen.Init(change.value.salt);
          sessionKey, sessionKeyId := change.value.key, change.value.id;
        }
        return;
      }
      var kind, content := AutoCompress(m, heapOk);
      if |content| > BUFFER_SIZE || KeyZeroed(sessionKey) {
        return;
      }
      PayloadFits(aead, State(), m, heapOk);
      var nonce := gen.Generate();
      if gen.rebooting {
        return;
      }
      var sealed := aead.seal(sessionKey, nonce, content);
      SealedSizes(aead, sessionKey, nonce, content);
      Transmit(kind, nonce, sealed.0, sealed.1);
      PacketParts(aead, sessionKey, nonce, m, heapOk);
    }
  }

  lemma SealedSizes(aead: Aead, key: seq<byte>, nonce: seq<byte>, text: seq<byte>)
    requires AeadOk(aead)
    ensures |aead.seal(key, nonce, text).0| == |text| && |aead.seal(key, nonce, text).1| == TAG_SIZE
  {
  }

  lemma PacketParts(aead: Aead, key: seq<byte>, nonce: seq<byte>, m: seq<byte>, heapOk: bool)
    ensures var (kind, content) := Outgoing(m, heapOk);
      var packet := SentPacket(aead, key, nonce, m, heapOk);
      && TypeByte(packet) == kind
      && Payload(packet) == nonce + aead.seal(key, nonce, content).0 + aead.seal(key, nonce, content).1
  {
    hide Outgoing;
  }

  /** The pieces handed to the transmitter, put together. */
  lemma FrameShape(sent: seq<byte>, kind: byte, lenBytes: seq<byte>, a: seq<byte>, b: seq<byte>, c: seq<byte>,
    crcBytes: seq<byte>, crc: nat)
    requires |a + b + c| < 0x1_0000 && lenBytes == [|a + b + c| / 256 % 256, |a + b + c| % 256]
    requires crc == Crc([kind] + lenBytes + a + b + c) && crcBytes == [crc / 256 % 256, crc % 256]
    ensures sent + PREAMBLE + [kind] + lenBytes + a + b + c + crcBytes
         == sent + (PREAMBLE + AfterPreamble(kind, a + b + c))
  {
    hide Crc;
    assert [kind] + lenBytes + a + b + c == Body(kind, a + b + c);
  }

  // ---------------------------------------------------------------- commands in letters, and what keeps the sender silent

  function Ascii(s: string): seq<byte> {
    seq(|s|, i requires 0 <= i < |s| => if s[i] < 128 as char then s[i] as int else 0)
  }

  function Spaces(n: nat): (s: seq<byte>)
    ensures |s| == n
  {
    seq(n, _ => ' ' as int)
  }

  lemma {:induction false} SkipSpacesIs(s: seq<byte>)
    ensures exists n: nat :: n <= |s| && s[..n] == Spaces(n) && SkipSpaces(s) == s[n..]
    ensures SkipSpaces(s) == [] || SkipSpaces(s)[0] != 0x20
    decreases |s|
  {
    if s != [] && s[0] == 0x20 {
      SkipSpacesIs(s[1..]);
      var n: nat :| n <= |s[1..]| && s[1..][..n] == Spaces(n) && SkipSpaces(s[1..]) == s[1..][n..];
      assert s[..n + 1] == [s[0]] + s[1..][..n] == Spaces(n + 1);
      assert s[n + 1..] == s[1..][n..];
    } else {
      assert s[..0] == Spaces(0) && s[0..] == s;
    }
  }

  lemma {:induction false} SkipsSpaces(n: nat, rest: seq<byte>)
    requires rest != [] && rest[0] != 0x20
    ensures SkipSpaces(Spaces(n) + rest) == rest
    decreases n
  {
    if n > 0 {
      assert (Spaces(n) + rest)[1..] == Spaces(n - 1) + rest;
      SkipsSpaces(n - 1, rest);
    } else {
      assert Spaces(0) + rest == rest;
    }
  }

  lemma Letters()
    ensures CMD_PREFIX == Ascii("CMD:") && SEND_ID == Ascii("send_id")
  {
  }

  function SendIdLine(n: nat, rest: seq<byte>): seq<byte> {
    Ascii("CMD:") + Spaces(n) + Ascii("send_id") + rest
  }

  lemma LineParts(n: nat, rest: seq<byte>)
    ensures var m := SendIdLine(n, rest);
      CMD_PREFIX <= m && m[|CMD_PREFIX|..] == Spaces(n) + (SEND_ID + rest)
  {
    Letters();
    hide Ascii, Spaces;
    assert SendIdLine(n, rest) == CMD_PREFIX + (Spaces(n) + (SEND_ID + rest));
  }

  lemma LineFromParts(m: seq<byte>, n: nat)
    requires CMD_PREFIX <= m && n <= |m[|CMD_PREFIX|..]|
    requires m[|CMD_PREFIX|..][..n] == Spaces(n) && SEND_ID <= m[|CMD_PREFIX|..][n..]
    ensures m == SendIdLine(n, m[|CMD_PREFIX|..][n..][|SEND_ID|..])
  {
    Letters();
    hide Ascii, Spaces;
    Rejoin(m, CMD_PREFIX, n, SEND_ID);
  }

  lemma Rejoin(m: seq<byte>, a: seq<byte>, n: nat, b: seq<byte>)
    requires a <= m && n <= |m[|a|..]| && b <= m[|a|..][n..]
    ensures m == a + m[|a|..][..n] + b + m[|a|..][n..][|b|..]
  {
    var after := m[|a|..];
    assert m == a + after && after[n..] == b + after[n..][|b|..];
  }

  /** `send_id` is recognised behind the command prefix and any number of spaces, whatever follows it. */
  lemma SendIdIff(m: seq<byte>)
    ensures IsSendId(m) <==> exists n: nat, rest: seq<byte> :: m == SendIdLine(n, rest)
  {
    hide SendIdLine, SkipSpaces, Spaces;
    if IsSendId(m) {
      var after := m[|CMD_PREFIX|..];
      SkipSpacesIs(after);
      var n: nat :| n <= |after| && after[..n] == Spaces(n) && SkipSpaces(after) == after[n..];
      LineFromParts(m, n);
    }
    if exists n: nat, rest: seq<byte> :: m == SendIdLine(n, rest) {
      var n: nat, rest: seq<byte> :| m == SendIdLine(n, rest);
      LineParts(n, rest);
      SkipsSpaces(n, SEND_ID + rest);
    }
  }

  /** When a message is sent, in numbers: not for a command, nor under a key of zeros, nor at the end of the counter. */
  lemma SendableIff(p: PicoState, m: seq<byte>, heapOk: bool)
    requires |p.key| == 16
    ensures Sendable(p, m, heapOk) <==>
      && !(Ascii("CMD:") <= m)
      && |Outgoing(m, heapOk).1| <= 8192
      && p.key != [0, 0, 0, 0, 0, 0, 0, 0, 0, 0, 0, 0, 0, 0, 0, 0]
      && !p.epoch.rebooting && p.epoch.ctr < 0xFFFF_FFFF
  {
    hide Outgoing, Ascii;
    Letters();
  }

  /** Otherwise nothing but a key-id frame leaves the sender, and without a command no nonce is used up, unless the counter ends. */
  lemma SilentUnlessSendable(aead: Aead, p: PicoState, m: seq<byte>, heapOk: bool, change: Option<KeyChange>)
    requires AeadOk(aead) && PicoOk(p) && !Sendable(p, m, heapOk)
    ensures !IsSendId(m) || p.epoch.rebooting ==> Emitted(aead, p, m, heapOk) == []
    ensures (!IsCommand(m) && p.epoch.ctr < 0xFFFF_FFFF) || p.epoch.rebooting ==> AfterLine(p, m, heapOk, change) == p
  {
    hide Outgoing, SkipSpaces, AeadOk;
  }

  /** A command that changes the key leaves the new pair and a fresh nonce epoch; one that does not, nothing. */
  lemma CommandEffect(p: PicoState, m: seq<byte>, heapOk: bool, change: Option<KeyChange>)
    requires p.epoch.ctr < COUNTER_END && IsCommand(m) && !IsSendId(m) && !p.epoch.rebooting
    ensures var p' := AfterLine(p, m, heapOk, change);
      match change
      case None => p' == p
      case Some(k) =>
        p'.key == k.key && p'.id == k.id && p'.epoch.salt == k.salt && p'.epoch.ctr == 0 && !p'.epoch.rebooting
  {
    hide Outgoing, SkipSpaces;
  }

  /** So the key announced next is the one that messages are sealed under from then on. */
  lemma AnnouncesNewKey(aead: Aead, p: PicoState, m: seq<byte>, heapOk: bool, k: KeyChange, next: seq<byte>)
    requires AeadOk(aead) && PicoOk(p) && KeyChangeOk(k) && IsCommand(m) && !IsSendId(m) && !p.epoch.rebooting
    requires IsSendId(next)
    ensures var p' := AfterLine(p, m, heapOk, Some(k));
      PicoOk(p') && p'.key == k.key && Emitted(aead, p', next, heapOk) == Frame(KeyId(k.id))
  {
    hide Outgoing, SkipSpaces, Frame, AeadOk;
    CommandEffect(p, m, heapOk, Some(k));
  }
}
