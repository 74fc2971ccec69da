/** From the keyboard of the sender to the screen of the receiver. */
module EndToEnd {
  import opened Bits
  import opened Lzss
  import opened Framing
  import opened Replay
  import opened NonceGen
  import opened Options
  import opened Sender
  import opened Receiver

  // ---------------------------------------------------------------- one message

  predicate Compressed(m: seq<byte>, heapOk: bool) {
    Outgoing(m, heapOk).0 == MSG_TYPE_FILE
  }

  /** What the receiver ends up with: the message, or, compressed, only what the one sink call took. */
  function Arrives(m: seq<byte>, heapOk: bool): Delivery {
    if Compressed(m, heapOk) then File(FirstSink(m)) else Text(m)
  }

  function Contents(d: Delivery): seq<byte> {
    match d
    case Text(t) => t
    case File(c) => c
  }

  /** Expanding what was compressed gives back the part of the message that was sunk. */
  lemma Reconstructed(m: seq<byte>)
    ensures var c := Compress(WINDOW_SZ2, LOOKAHEAD_SZ2, FirstSink(m)); !Hangs(c) && Expanded(c) == FirstSink(m)
  {
    hide Compress, Decompress, Hangs;
    ShortNeverHangs(Compress(WINDOW_SZ2, LOOKAHEAD_SZ2, FirstSink(m)));
    RoundTrip(WINDOW_SZ2, LOOKAHEAD_SZ2, FirstSink(m));
  }

  /** Sealing, opening and reconstructing a message leaves what arrives. */
  lemma MessageArrives(m: seq<byte>, heapOk: bool)
    ensures var (kind, content) := Outgoing(m, heapOk);
      && Delivered(kind, content) == Arrives(m, heapOk)
      && (kind == MSG_TYPE_FILE ==> !Hangs(content))
      && (kind == MSG_TYPE_FILE || kind == MSG_TYPE_ENCRYPTED)
  {
    hide Compress, Hangs, Expanded;
    Reconstructed(m);
  }

  /**
   * A message arrives whole exactly when it is at most 256 bytes long, the encoder could not be
   * allocated, or its first 256 bytes do not compress to fewer bytes than the whole message has.
   */
  lemma IntactIff(m: seq<byte>, heapOk: bool)
    ensures Contents(Arrives(m, heapOk)) == m <==>
      |m| <= 256 || !heapOk || |Compress(WINDOW_SZ2, LOOKAHEAD_SZ2, FirstSink(m))| >= |m|
  {
    hide Compress;
    if |m| <= 256 {
      assert m[..|m|] == m;
    }
  }

  /** Otherwise exactly the first 256 bytes arrive; from 289 bytes on that is what always happens. */
  lemma CutTo256(m: seq<byte>, heapOk: bool)
    requires |m| > 256
    ensures Contents(Arrives(m, heapOk)) == m || Contents(Arrives(m, heapOk)) == m[..256]
    ensures |m| > 288 && heapOk ==> Contents(Arrives(m, heapOk)) == m[..256] != m
  {
    hide Compress;
    SmallCompressed(m);
  }

  /** The receiver's length bound lets a frame through exactly when its message was compressed or is short enough. */
  lemma AdmittedIff(m: seq<byte>, heapOk: bool)
    ensures |Outgoing(m, heapOk).1| <= MAX_MSG_LEN - NONCE_SIZE - TAG_SIZE <==>
      Compressed(m, heapOk) || |m| <= MAX_MSG_LEN - NONCE_SIZE - TAG_SIZE
    ensures heapOk ==> |Outgoing(m, heapOk).1| <= MAX_MSG_LEN - NONCE_SIZE - TAG_SIZE
  {
    hide Compress;
    SmallCompressed(m);
  }

  /** A longer frame is dropped right after its length. */
  lemma TooLongIsDropped(kind: byte, payload: seq<byte>, rest: seq<byte>)
    requires kind == MSG_TYPE_ENCRYPTED || kind == MSG_TYPE_FILE
    requires MAX_MSG_LEN < |payload| < 0x1_0000
    ensures ReadPacket(AfterPreamble(kind, payload) + rest) == (None, 3)
  {
    hide Crc16.CrcBytes;
    var s := AfterPreamble(kind, payload) + rest;
    assert s[0] == kind && s[1] == |payload| / 256 && s[2] == |payload| % 256;
  }

  // ---------------------------------------------------------------- a session

  /**
   * One typed line, what the command handler did with it, the noise on the link before its frame, and
   * what arrives of the frame behind its preamble when that is damaged.
   */
  datatype Line = Line(m: seq<byte>, heapOk: bool, change: Option<KeyChange>, noise: seq<byte>, hit: Option<seq<byte>>)

  ghost function Next(p: PicoState, l: Line): PicoState
    requires PicoOk(p)
  {
    AfterLine(p, l.m, l.heapOk, l.change)
  }

  predicate LineOk(l: Line) {
    l.change.Some? ==> KeyChangeOk(l.change.value)
  }

  lemma NextOk(p: PicoState, l: Line)
    requires PicoOk(p) && LineOk(l)
    ensures PicoOk(Next(p, l))
  {
    hide Outgoing, IsSendId, IsCommand;
  }

  /** The packet a line becomes, if any. */
  ghost function LinePacket(aead: Aead, p: PicoState, l: Line): Option<Packet>
    requires PicoOk(p)
  {
    if p.epoch.rebooting then None
    else if IsSendId(l.m) then Some(KeyId(p.id))
    else if Sendable(p, l.m, l.heapOk) then
      Some(SentPacket(aead, p.key, NonceOf(p.epoch.salt, p.epoch.ctr), l.m, l.heapOk))
    else None
  }

  /** The key the receiver holds after a line, when it held `keyed` before. */
  ghost function KeyedAfter(world: World, p: PicoState, keyed: Option<seq<byte>>, l: Line): Option<seq<byte>> {
    if !p.epoch.rebooting && IsSendId(l.m) && l.hit.None? && world.findKey(p.id).Some? then world.findKey(p.id)
    else keyed
  }

  /** Damage to a frame stays within sixteen consecutive bits behind its length. */
  ghost predicate HitOk(q: Packet, l: Line) {
    l.hit.Some? ==> PacketOk(q) && Damaged(q, l.hit.value)
  }

  /** What arrives of the frame of a packet. */
  function LineArrival(q: Packet, l: Line): Arrival {
    Arrival(l.noise, q, if l.hit.Some? then l.hit.value else if PacketOk(q) then Sent(q) else [])
  }

  lemma ArrivalLine(q: Packet, l: Line)
    requires PacketOk(q) && HitOk(q, l) && !Occurs(l.noise)
    ensures ArrivalOk(LineArrival(q, l)) && (Whole(LineArrival(q, l)) <==> l.hit.None?)
  {
    hide PacketOk, Sent, Occurs;
  }

  /**
   * Whenever a message gets through, the receiver holds the sender's key; every frame is within its
   * bound, whether it gets through or is damaged.
   */
  ghost predicate Honest(world: World, p: PicoState, keyed: Option<seq<byte>>, lines: seq<Line>)
    requires PicoOk(p)
    decreases |lines|
  {
    if lines == [] then true
    else
      var l := lines[0];
      && LineOk(l) && !Occurs(l.noise)
      && (Sendable(p, l.m, l.heapOk) && l.hit.None? ==> keyed == Some(p.key))
      && (Sendable(p, l.m, l.heapOk) ==> |Outgoing(l.m, l.heapOk).1| <= MAX_MSG_LEN - NONCE_SIZE - TAG_SIZE)
      && (LinePacket(world.aead, p, l).Some? ==> HitOk(LinePacket(world.aead, p, l).value, l))
      && (NextOk(p, l); Honest(world, Next(p, l), KeyedAfter(world, p, keyed, l), lines[1..]))
  }

  /** The frames on the link, each with the noise before it. */
  ghost function Frames(world: World, p: PicoState, lines: seq<Line>): (r: seq<Arrival>)
    requires PicoOk(p) && forall i :: 0 <= i < |lines| ==> LineOk(lines[i])
    decreases |lines|
  {
    if lines == [] then []
    else
      NextOk(p, lines[0]);
      var packet := LinePacket(world.aead, p, lines[0]);
      (if packet.Some? then [LineArrival(packet.value, lines[0])] else []) + Frames(world, Next(p, lines[0]), lines[1..])
  }

  /** Sent, and not damaged on the way. */
  predicate GetsThrough(p: PicoState, l: Line) {
    Sendable(p, l.m, l.heapOk) && l.hit.None?
  }

  /** What should arrive: every message that is sent and not damaged, in order. */
  ghost function Expected(p: PicoState, lines: seq<Line>): seq<Delivery>
    requires PicoOk(p) && forall i :: 0 <= i < |lines| ==> LineOk(lines[i])
    decreases |lines|
  {
    if lines == [] then []
    else
      NextOk(p, lines[0]);
      (if GetsThrough(p, lines[0]) then [Arrives(lines[0].m, lines[0].heapOk)] else [])
      + Expected(Next(p, lines[0]), lines[1..])
  }

  /** The nonce generator's view of a session. */
  ghost function OpsOf(p: PicoState, lines: seq<Line>): (ops: seq<Op>)
    requires PicoOk(p) && forall i :: 0 <= i < |lines| ==> LineOk(lines[i])
    ensures OpsOk(ops)
    decreases |lines|
  {
    if lines == [] then []
    else
      var l := lines[0];
      NextOk(p, l);
      var rest := OpsOf(Next(p, l), lines[1..]);
      if p.epoch.rebooting || IsSendId(l.m) then rest
      else if IsCommand(l.m) then if l.change.Some? then [Rekey(l.change.value.salt)] + rest else rest
      else if |Outgoing(l.m, l.heapOk).1| > BUFFER_SIZE || KeyZeroed(p.key) then rest
      else [Draw] + rest
  }

  /** The nonces a session uses. */
  ghost function NoncesOf(p: PicoState, lines: seq<Line>): seq<Nonce>
    requires PicoOk(p) && forall i :: 0 <= i < |lines| ==> LineOk(lines[i])
  {
    Trace(p.epoch, OpsOf(p, lines))
  }

  /** Different from each other and from everything accepted so far, and not the zero of an unused slot. */
  ghost predicate Unused(acc: seq<Nonce>, ns: seq<Nonce>) {
    Distinct(ns) && forall i :: 0 <= i < |ns| ==> ns[i] !in acc && ns[i] != ZeroNonce(NONCE_SIZE)
  }

  lemma UnusedIsUnseen(acc: seq<Nonce>, ns: seq<Nonce>)
    requires Unused(acc, ns) && ns != []
    ensures !SeenIn(acc, NONCE_HISTORY_SIZE, NONCE_SIZE, ns[0])
    ensures Unused(acc + [ns[0]], ns[1..])
  {
    forall i | 0 <= i < |ns[1..]|
      ensures ns[1..][i] !in acc + [ns[0]]
    {
      assert ns[0] != ns[i + 1];
    }
  }

  ghost function KeyOf(rx: Rx): Option<seq<byte>> {
    if rx.keyValid then Some(rx.key) else None
  }

  lemma Opens(world: World, key: seq<byte>, nonce: seq<byte>, m: seq<byte>, heapOk: bool)
    requires AeadOk(world.aead)
    ensures var p := SentPacket(world.aead, key, nonce, m, heapOk);
      && p == Data(Outgoing(m, heapOk).0, nonce, p.ciphertext, p.tag)
      && |p.ciphertext| == |Outgoing(m, heapOk).1| && |p.tag| == TAG_SIZE
      && world.aead.open(key, nonce, p.ciphertext, p.tag) == Some(Outgoing(m, heapOk).1)
  {
    hide Outgoing;
  }

  /** One message with a new nonce under the shared key. */
  lemma OneMessage(world: World, rx: Rx, key: seq<byte>, nonce: seq<byte>, m: seq<byte>, heapOk: bool)
    requires AeadOk(world.aead) && KeyOf(rx) == Some(key) && !Seen(rx, nonce)
    ensures var p := SentPacket(world.aead, key, nonce, m, heapOk);
      && !Hanging(world, rx, p)
      && Handle(world, rx, p) == Rx(rx.accepted + [nonce], rx.keyValid, rx.key, rx.delivered + [Arrives(m, heapOk)])
  {
    Opens(world, key, nonce, m, heapOk);
    MessageArrives(m, heapOk);
    hide Outgoing, Hangs, Delivered, Arrives, Seen, SentPacket, AeadOk;
  }

  lemma OpsCons(op: Op, rest: seq<Op>)
    requires OpsOk(rest) && (op.Rekey? ==> |op.salt| == NONCE_SALT_LEN)
    ensures OpsOk([op] + rest)
  {
    forall i | 0 <= i < |[op] + rest| && ([op] + rest)[i].Rekey?
      ensures |([op] + rest)[i].salt| == NONCE_SALT_LEN
    {
      if i > 0 {
        assert ([op] + rest)[i] == rest[i - 1];
      }
    }
  }

  lemma TraceDraw(e: Epoch, rest: seq<Op>)
    requires EpochOk(e) && OpsOk(rest) && OpsOk([Draw] + rest) && !e.rebooting
    ensures Trace(e, [Draw] + rest) ==
      (if Advance(e).rebooting then [] else [NonceOf(e.salt, e.ctr)]) + Trace(Advance(e), rest)
  {
    hide NonceOf, OpsOk, Trace;
    TraceHead(e, [Draw] + rest);
    var ops := [Draw] + rest;
    assert ops[0] == Draw && ops[1..] == rest;
  }

  lemma TraceRekey(e: Epoch, salt: seq<byte>, rest: seq<Op>)
    requires EpochOk(e) && OpsOk(rest) && OpsOk([Rekey(salt)] + rest) && |salt| == NONCE_SALT_LEN
    ensures Trace(e, [Rekey(salt)] + rest) == Trace(Epoch(salt, 0, false), rest)
  {
    hide NonceOf, OpsOk, Trace;
    TraceHead(e, [Rekey(salt)] + rest);
    var ops := [Rekey(salt)] + rest;
    assert ops[0] == Rekey(salt) && ops[1..] == rest;
  }

  /** How one line changes the nonces still to come. */
  lemma NoncesStep(p: PicoState, lines: seq<Line>)
    requires PicoOk(p) && lines != [] && forall i :: 0 <= i < |lines| ==> LineOk(lines[i])
    ensures PicoOk(Next(p, lines[0]))
    ensures NoncesOf(p, lines) ==
      (if Sendable(p, lines[0].m, lines[0].heapOk) then [NonceOf(p.epoch.salt, p.epoch.ctr)] else [])
      + NoncesOf(Next(p, lines[0]), lines[1..])
  {
    hide Outgoing, SkipSpaces, IsCommand, KeyZeroed, Trace, NonceOf;
    var l := lines[0];
    NextOk(p, l);
    var rest := OpsOf(Next(p, l), lines[1..]);
    if p.epoch.rebooting || IsSendId(l.m) {
    } else if IsCommand(l.m) {
      if l.change.Some? {
        OpsCons(Rekey(l.change.value.salt), rest);
        TraceRekey(p.epoch, l.change.value.salt, rest);
      }
    } else {
      OpsCons(Draw, rest);
      TraceDraw(p.epoch, rest);
    }
  }

  /** The receiver's side of one line that sends a message. */
  lemma MessageStep(world: World, p: PicoState, rx: Rx, l: Line, nonces: seq<Nonce>)
    requires AeadOk(world.aead) && PicoOk(p) && Sendable(p, l.m, l.heapOk) && KeyOf(rx) == Some(p.key)
    requires Unused(rx.accepted, [NonceOf(p.epoch.salt, p.epoch.ctr)] + nonces)
    ensures LinePacket(world.aead, p, l).Some?
    ensures var q := LinePacket(world.aead, p, l).value; var rx' := Handle(world, rx, q);
      && !Hanging(world, rx, q)
      && rx'.delivered == rx.delivered + [Arrives(l.m, l.heapOk)]
      && KeyOf(rx') == KeyOf(rx) && Unused(rx'.accepted, nonces)
  {
    hide Outgoing, Handle, Hanging, Unused, SeenIn, Arrives, NonceOf, SkipSpaces, KeyZeroed, SentPacket;
    var n := NonceOf(p.epoch.salt, p.epoch.ctr);
    UnusedIsUnseen(rx.accepted, [n] + nonces);
    assert ([n] + nonces)[1..] == nonces;
    OneMessage(world, rx, p.key, n, l.m, l.heapOk);
  }

  /** The receiver's side of one line that announces the key. */
  lemma AnnounceStep(world: World, p: PicoState, rx: Rx, l: Line)
    requires PicoOk(p) && !p.epoch.rebooting && IsSendId(l.m) && l.hit.None?
    ensures LinePacket(world.aead, p, l) == Some(KeyId(p.id))
    ensures var rx' := Handle(world, rx, KeyId(p.id));
      && !Hanging(world, rx, KeyId(p.id))
      && rx'.delivered == rx.delivered && rx'.accepted == rx.accepted
      && KeyOf(rx') == KeyedAfter(world, p, KeyOf(rx), l)
  {
    hide IsSendId, Outgoing, SeenIn;
  }

  lemma HonestStep(world: World, p: PicoState, keyed: Option<seq<byte>>, lines: seq<Line>)
    requires PicoOk(p) && lines != [] && Honest(world, p, keyed, lines)
    ensures LineOk(lines[0]) && !Occurs(lines[0].noise) && PicoOk(Next(p, lines[0]))
    ensures Honest(world, Next(p, lines[0]), KeyedAfter(world, p, keyed, lines[0]), lines[1..])
    ensures Sendable(p, lines[0].m, lines[0].heapOk) && lines[0].hit.None? ==> keyed == Some(p.key)
    ensures Sendable(p, lines[0].m, lines[0].heapOk) ==>
      |Outgoing(lines[0].m, lines[0].heapOk).1| <= MAX_MSG_LEN - NONCE_SIZE - TAG_SIZE
    ensures LinePacket(world.aead, p, lines[0]).Some? ==> HitOk(LinePacket(world.aead, p, lines[0]).value, lines[0])
  {
    hide Outgoing, IsSendId, IsCommand, Sendable, Next, KeyedAfter, Occurs, HitOk, LinePacket;
    NextOk(p, lines[0]);
  }

  lemma {:induction false} HonestLines(world: World, p: PicoState, keyed: Option<seq<byte>>, lines: seq<Line>)
    requires PicoOk(p) && Honest(world, p, keyed, lines)
    ensures forall i :: 0 <= i < |lines| ==> LineOk(lines[i])
    decreases |lines|
  {
    hide Honest, LineOk, Next, KeyedAfter;
    if lines != [] {
      HonestStep(world, p, keyed, lines);
      HonestLines(world, Next(p, lines[0]), KeyedAfter(world, p, keyed, lines[0]), lines[1..]);
      forall i | 0 <= i < |lines|
        ensures LineOk(lines[i])
      {
        if i > 0 {
          assert lines[i] == lines[1..][i - 1];
        }
      }
    }
  }

  /**
   * What an honest session delivers: every message that is sent and not damaged arrives once, in
   * order, whole or cut as one sink call cuts it; nothing else is delivered and no nonce is taken for
   * a replay.
   */
  lemma {:induction false} SessionDelivers(world: World, p: PicoState, rx: Rx, lines: seq<Line>)
    requires AeadOk(world.aead) && PicoOk(p) && forall i :: 0 <= i < |lines| ==> LineOk(lines[i])
    requires Honest(world, p, KeyOf(rx), lines)
    requires Unused(rx.accepted, NoncesOf(p, lines))
    ensures NoneHangs(world, rx, Intact(Frames(world, p, lines)))
    ensures HandleAll(world, rx, Intact(Frames(world, p, lines))).delivered == rx.delivered + Expected(p, lines)
    decreases |lines|
  {
    hide AeadOk, Outgoing, IsSendId, IsCommand, Sendable, Honest, Unused, NoncesOf, Handle, Hanging, LinePacket,
      Next, Arrives, KeyedAfter, PicoOk, LineOk, NonceOf, NoneHangs, HandleAll, HitOk, LineArrival, Whole, ArrivalOk,
      PacketOk, Occurs;
    if lines == [] {
      NoPackets(world, rx);
      NothingHangs(world, rx);
      assert rx.delivered + [] == rx.delivered;
    } else {
      var l, rest := lines[0], lines[1..];
      HonestStep(world, p, KeyOf(rx), lines);
      NoncesStep(p, lines);
      LineKinds(world.aead, p, l);
      LineBytes(world, p, KeyOf(rx), lines);
      var p' := Next(p, l);
      var q := LinePacket(world.aead, p, l);
      var through := q.Some? && l.hit.None?;
      var rx' := if through then Handle(world, rx, q.value) else rx;
      assert !Sendable(p, l.m, l.heapOk) ==> [] + NoncesOf(p', rest) == NoncesOf(p', rest);
      if !through {
        NotAnnounced(world, p, KeyOf(rx), l);
        LostNonce(p, rx.accepted, NoncesOf(p', rest));
      } else if Sendable(p, l.m, l.heapOk) {
        MessageStep(world, p, rx, l, NoncesOf(p', rest));
        NotAnnounced(world, p, KeyOf(rx), l);
      } else {
        AnnounceStep(world, p, rx, l);
      }
      SessionDelivers(world, p', rx', rest);
      if q.Some? {
        ArrivalLine(q.value, l);
        IntactFirst(LineArrival(q.value, l), Frames(world, p', rest));
        HandleFirst(world, rx, q.value, Intact(Frames(world, p', rest)));
        PacketOf(q.value, l);
      } else {
        assert [] + Frames(world, p', rest) == Frames(world, p', rest);
      }
      DeliveredSplit(rx.delivered, GetsThrough(p, l), Arrives(l.m, l.heapOk), Expected(p', rest));
    }
  }

  lemma PacketOf(q: Packet, l: Line)
    ensures LineArrival(q, l).packet == q && LineArrival(q, l).noise == l.noise
  {
  }

  /** A nonce whose frame is lost leaves the others unused. */
  lemma LostNonce(p: PicoState, acc: seq<Nonce>, ns: seq<Nonce>)
    requires PicoOk(p)
    ensures Unused(acc, [NonceOf(p.epoch.salt, p.epoch.ctr)] + ns) ==> Unused(acc, ns)
  {
    hide NonceOf;
    var all := [NonceOf(p.epoch.salt, p.epoch.ctr)] + ns;
    if Unused(acc, all) {
      assert forall i :: 0 <= i < |ns| ==> ns[i] == all[i + 1];
    }
  }

  lemma NothingHangs(world: World, rx: Rx)
    ensures NoneHangs(world, rx, [])
  {
  }

  lemma LineKinds(aead: Aead, p: PicoState, l: Line)
    requires PicoOk(p)
    ensures Sendable(p, l.m, l.heapOk) ==> LinePacket(aead, p, l).Some?
    ensures LinePacket(aead, p, l).Some? && !Sendable(p, l.m, l.heapOk) ==> !p.epoch.rebooting && IsSendId(l.m)
  {
    hide Outgoing, IsCommand, SkipSpaces;
  }

  lemma NotAnnounced(world: World, p: PicoState, keyed: Option<seq<byte>>, l: Line)
    requires PicoOk(p) && (Sendable(p, l.m, l.heapOk) || LinePacket(world.aead, p, l).None? || l.hit.Some?)
    ensures KeyedAfter(world, p, keyed, l) == keyed
  {
    hide Outgoing, IsCommand, SkipSpaces;
  }

  lemma IntactFirst(item: Arrival, rest: seq<Arrival>)
    ensures Intact([item] + rest) == if Whole(item) then [item.packet] + Intact(rest) else Intact(rest)
  {
    hide Whole;
    assert ([item] + rest)[1..] == rest;
    assert [] + Intact(rest) == Intact(rest);
  }

  lemma DeliveredSplit(before: seq<Delivery>, sent: bool, d: Delivery, more: seq<Delivery>)
    ensures (if sent then before + [d] else before) + more == before + ((if sent then [d] else []) + more)
  {
  }

  // ---------------------------------------------------------------- when a session is honest

  /** No nonce in `acc` carries the salt in use or one still to come. */
  ghost predicate SaltsUnused(acc: seq<Nonce>, e: Epoch, ops: seq<Op>) {
    forall n :: n in acc && |n| == NONCE_SIZE ==> n[..NONCE_SALT_LEN] != e.salt && !SaltAhead(ops, n[..NONCE_SALT_LEN])
  }

  /** New, non-zero salts are all it takes for no nonce to be taken for a replay. */
  lemma NewSaltsUnused(p: PicoState, lines: seq<Line>, acc: seq<Nonce>)
    requires PicoOk(p) && forall i :: 0 <= i < |lines| ==> LineOk(lines[i])
    requires NewSalts(p.epoch, OpsOf(p, lines)) && NonZeroSalts(p.epoch, OpsOf(p, lines))
    requires SaltsUnused(acc, p.epoch, OpsOf(p, lines))
    ensures Unused(acc, NoncesOf(p, lines))
  {
    hide NewSalts, NonZeroSalts, OpsOf, Trace, Later, SaltAhead;
    var e, ops := p.epoch, OpsOf(p, lines);
    NoncesDistinct(e, ops);
    TraceNonZero(e, ops);
    forall i | 0 <= i < |Trace(e, ops)|
      ensures Trace(e, ops)[i] !in acc
    {
      TraceIsLater(e, ops, i);
      LaterSalt(e, ops, Trace(e, ops)[i]);
    }
  }

  lemma LaterSalt(e: Epoch, ops: seq<Op>, n: Nonce)
    requires EpochOk(e) && Later(e, ops, n)
    ensures |n| == NONCE_SIZE && (n[..NONCE_SALT_LEN] == e.salt || SaltAhead(ops, n[..NONCE_SALT_LEN]))
  {
    hide SaltAhead;
    if !SaltAhead(ops, n[..NONCE_SALT_LEN]) {
      var c :| e.ctr <= c < COUNTER_END && n == NonceOf(e.salt, c);
      assert n[..NONCE_SALT_LEN] == e.salt;
    }
  }

  /** A line that is a message the receiver's bound admits and that is not damaged. */
  predicate PlainMessage(l: Line) {
    && !IsCommand(l.m) && l.hit.None?
    && |Outgoing(l.m, l.heapOk).1| <= MAX_MSG_LEN - NONCE_SIZE - TAG_SIZE
  }

  function AllArrive(lines: seq<Line>): seq<Delivery> {
    if lines == [] then [] else [Arrives(lines[0].m, lines[0].heapOk)] + AllArrive(lines[1..])
  }

  /** Messages only, with the key shared and the counter far from its end. */
  lemma {:induction false} MessagesOnly(world: World, p: PicoState, lines: seq<Line>)
    requires PicoOk(p) && !p.epoch.rebooting && !KeyZeroed(p.key) && p.epoch.ctr + |lines| < COUNTER_END
    requires forall i :: 0 <= i < |lines| ==> LineOk(lines[i]) && !Occurs(lines[i].noise)
    requires forall i :: 0 <= i < |lines| ==> PlainMessage(lines[i])
    ensures Honest(world, p, Some(p.key), lines) && Expected(p, lines) == AllArrive(lines)
    ensures NewSalts(p.epoch, OpsOf(p, lines))
    ensures forall i :: 0 <= i < |OpsOf(p, lines)| ==> OpsOf(p, lines)[i] == Draw
    decreases |lines|
  {
    hide Outgoing, SkipSpaces, KeyZeroed, Arrives, Occurs;
    if lines != [] {
      MessagesOnly(world, Next(p, lines[0]), lines[1..]);
    }
  }

  /**
   * The usual start: a receiver just switched on, a sender with a non-zero salt, first the key
   * announced, then messages. Such a session is honest, and every message arrives.
   */
  lemma AnnouncedSession(world: World, p: PicoState, lines: seq<Line>)
    requires PicoOk(p) && !p.epoch.rebooting && !KeyZeroed(p.key) && p.epoch.ctr + |lines| < COUNTER_END
    requires p.epoch.salt != ZeroNonce(NONCE_SALT_LEN) && world.findKey(p.id) == Some(p.key)
    requires forall i :: 0 <= i < |lines| ==> LineOk(lines[i]) && !Occurs(lines[i].noise)
    requires lines != [] && IsSendId(lines[0].m) && lines[0].hit.None?
    requires forall i :: 1 <= i < |lines| ==> PlainMessage(lines[i])
    ensures Honest(world, p, None, lines) && Unused([], NoncesOf(p, lines))
    ensures Expected(p, lines) == AllArrive(lines[1..])
  {
    hide Outgoing, IsSendId, Sendable, KeyZeroed, Arrives, Occurs, PlainMessage, Unused, Next, KeyedAfter, LineOk,
      AllArrive;
    MessagesOnly(world, p, lines[1..]);
    AnnounceNext(world, p, lines[0]);
    assert [] + Expected(p, lines[1..]) == Expected(p, lines[1..]);
    NewSaltsUnused(p, lines, []);
  }

  lemma AnnounceNext(world: World, p: PicoState, l: Line)
    requires PicoOk(p) && !p.epoch.rebooting && IsSendId(l.m) && l.hit.None? && world.findKey(p.id) == Some(p.key)
    ensures Next(p, l) == p && !Sendable(p, l.m, l.heapOk) && KeyedAfter(world, p, None, l) == Some(p.key)
  {
    hide Outgoing, SkipSpaces;
  }

  // ---------------------------------------------------------------- sessions with key changes

  /**
   * A session as it is typed: whatever key is loaded, it is announced before the next message, and the
   * receiver can find every key announced. The pair in use is followed here from the lines alone.
   */
  ghost predicate Scripted(world: World, id: seq<byte>, key: seq<byte>, announced: bool, lines: seq<Line>)
    decreases |lines|
  {
    if lines == [] then true
    else
      var l, rest := lines[0], lines[1..];
      && LineOk(l) && !Occurs(l.noise)
      && if IsSendId(l.m) then
           l.hit.None? && world.findKey(id) == Some(key) && Scripted(world, id, key, true, rest)
         else if !IsCommand(l.m) then announced && PlainMessage(l) && Scripted(world, id, key, true, rest)
         else if l.change.None? then Scripted(world, id, key, announced, rest)
         else !KeyZeroed(l.change.value.key) && Scripted(world, l.change.value.id, l.change.value.key, false, rest)
  }

  /** Every line that is no command, as it should arrive. */
  function MessagesOf(lines: seq<Line>): seq<Delivery> {
    if lines == [] then []
    else
      (if IsCommand(lines[0].m) then [] else [Arrives(lines[0].m, lines[0].heapOk)]) + MessagesOf(lines[1..])
  }

  /** The salts drawn along the way, one for each key change. */
  function SaltsOf(lines: seq<Line>): seq<seq<byte>> {
    if lines == [] then []
    else
      var l := lines[0];
      (if IsCommand(l.m) && !IsSendId(l.m) && l.change.Some? then [l.change.value.salt] else []) + SaltsOf(lines[1..])
  }

  function SaltsIn(ops: seq<Op>): seq<seq<byte>> {
    if ops == [] then [] else (if ops[0].Rekey? then [ops[0].salt] else []) + SaltsIn(ops[1..])
  }

  /** No salt comes twice, and none is zero. */
  ghost predicate GoodSalts(salts: seq<seq<byte>>) {
    && (forall i, j :: 0 <= i < j < |salts| ==> salts[i] != salts[j])
    && forall i :: 0 <= i < |salts| ==> salts[i] != ZeroNonce(NONCE_SALT_LEN)
  }

  lemma SaltIsIn(ops: seq<Op>, i: nat)
    requires i < |ops| && ops[i].Rekey?
    ensures ops[i].salt in SaltsIn(ops)
    decreases |ops|
  {
    if i > 0 {
      SaltIsIn(ops[1..], i - 1);
    }
  }

  lemma GoodTail(first: seq<byte>, second: seq<byte>, rest: seq<seq<byte>>)
    requires GoodSalts([first] + ([second] + rest))
    ensures GoodSalts([first] + rest) && second !in rest && second != first
    ensures second != ZeroNonce(NONCE_SALT_LEN)
  {
    var all, few := [first] + ([second] + rest), [first] + rest;
    assert all[0] == first && all[1] == second;
    forall i | 0 <= i < |few|
      ensures few[i] == all[if i == 0 then 0 else i + 1]
    {
    }
    forall i | 0 <= i < |rest|
      ensures rest[i] != second
    {
      assert all[i + 2] == rest[i];
    }
  }

  lemma {:induction false} GoodSaltsAreNew(e: Epoch, ops: seq<Op>)
    requires GoodSalts([e.salt] + SaltsIn(ops))
    ensures NewSalts(e, ops) && NonZeroSalts(e, ops)
    decreases |ops|
  {
    hide GoodSalts, ZeroNonce;
    FirstGood(e.salt, SaltsIn(ops));
    if ops != [] {
      var rest := ops[1..];
      forall i | 0 <= i < |rest| && rest[i].Rekey?
        ensures rest[i].salt in SaltsIn(rest)
      {
        SaltIsIn(rest, i);
      }
      if ops[0].Rekey? {
        GoodTail(e.salt, ops[0].salt, SaltsIn(rest));
      } else {
        assert [] + SaltsIn(rest) == SaltsIn(rest);
      }
      GoodSaltsAreNew(e, rest);
      AddOp(e, ops);
    }
  }

  lemma FirstGood(first: seq<byte>, rest: seq<seq<byte>>)
    requires GoodSalts([first] + rest)
    ensures first != ZeroNonce(NONCE_SALT_LEN)
  {
    assert ([first] + rest)[0] == first;
  }

  lemma AddOp(e: Epoch, ops: seq<Op>)
    requires ops != [] && NewSalts(e, ops[1..]) && NonZeroSalts(e, ops[1..])
    requires ops[0].Rekey? ==> ops[0].salt != e.salt && ops[0].salt != ZeroNonce(NONCE_SALT_LEN)
    requires ops[0].Rekey? ==> forall i :: 0 <= i < |ops[1..]| && ops[1..][i].Rekey? ==> ops[1..][i].salt != ops[0].salt
    ensures NewSalts(e, ops) && NonZeroSalts(e, ops)
  {
    forall i | 1 <= i < |ops|
      ensures ops[i] == ops[1..][i - 1]
    {
    }
  }

  /** One line of a scripted session: what it leaves, what it adds to the messages and to the salts. */
  lemma ScriptStep(world: World, p: PicoState, announced: bool, lines: seq<Line>)
    requires lines != [] && PicoOk(p) && !p.epoch.rebooting && !KeyZeroed(p.key)
    requires p.epoch.ctr + |lines| < COUNTER_END && Scripted(world, p.id, p.key, announced, lines)
    ensures var l := lines[0]; var p' := Next(p, l);
      && PicoOk(p') && !p'.epoch.rebooting && !KeyZeroed(p'.key) && p'.epoch.ctr + |lines[1..]| < COUNTER_END
      && (Sendable(p, l.m, l.heapOk) <==> !IsCommand(l.m))
      && (Sendable(p, l.m, l.heapOk) ==> announced && PlainMessage(l))
      && (IsSendId(l.m) ==> l.hit.None?)
      && exists now :: Scripted(world, p'.id, p'.key, now, lines[1..])
           && (now ==> if IsSendId(l.m) then world.findKey(p.id) == Some(p'.key) else announced && p'.key == p.key)
  {
    var l := lines[0];
    hide Outgoing, SkipSpaces, KeyZeroed, Occurs;
    NextOk(p, l);
    var p' := Next(p, l);
    if IsSendId(l.m) {
      assert Scripted(world, p'.id, p'.key, true, lines[1..]);
    } else if !IsCommand(l.m) {
      assert Scripted(world, p'.id, p'.key, true, lines[1..]);
    } else if l.change.None? {
      assert Scripted(world, p'.id, p'.key, announced, lines[1..]);
    } else {
      assert Scripted(world, p'.id, p'.key, false, lines[1..]);
    }
  }

  lemma {:induction false} ScriptedIsHonest(world: World, p: PicoState, keyed: Option<seq<byte>>, announced: bool,
    lines: seq<Line>)
    requires PicoOk(p) && !p.epoch.rebooting && !KeyZeroed(p.key) && p.epoch.ctr + |lines| < COUNTER_END
    requires Scripted(world, p.id, p.key, announced, lines) && (announced ==> keyed == Some(p.key))
    requires forall i :: 0 <= i < |lines| ==> LineOk(lines[i])
    ensures Honest(world, p, keyed, lines) && Expected(p, lines) == MessagesOf(lines)
    ensures SaltsIn(OpsOf(p, lines)) == SaltsOf(lines)
    decreases |lines|
  {
    hide Outgoing, IsSendId, IsCommand, Sendable, KeyZeroed, Arrives, Occurs, PlainMessage, Next, KeyedAfter, Scripted,
      LinePacket, HitOk, MessagesOf, SaltsOf, OpsOf, SaltsIn, Expected, Honest;
    if lines == [] {
      EmptySession(world, p, keyed);
    } else {
      var l := lines[0];
      ScriptStep(world, p, announced, lines);
      var p' := Next(p, l);
      var now :| Scripted(world, p'.id, p'.key, now, lines[1..])
        && (now ==> if IsSendId(l.m) then world.findKey(p.id) == Some(p'.key) else announced && p'.key == p.key);
      ScriptKeyed(world, p, keyed, l);
      ScriptedIsHonest(world, p', KeyedAfter(world, p, keyed, l), now, lines[1..]);
      ScriptLine(world, p, keyed, announced, lines);
    }
  }

  lemma EmptySession(world: World, p: PicoState, keyed: Option<seq<byte>>)
    requires PicoOk(p)
    ensures Honest(world, p, keyed, []) && Expected(p, []) == MessagesOf([]) && SaltsIn(OpsOf(p, [])) == SaltsOf([])
  {
  }

  lemma ScriptKeyed(world: World, p: PicoState, keyed: Option<seq<byte>>, l: Line)
    requires !p.epoch.rebooting && (IsSendId(l.m) ==> l.hit.None?)
    ensures KeyedAfter(world, p, keyed, l) ==
      if IsSendId(l.m) && world.findKey(p.id).Some? then world.findKey(p.id) else keyed
  {
    hide IsSendId;
  }

  /** Putting one line in front of a session that is honest from there on. */
  lemma ScriptLine(world: World, p: PicoState, keyed: Option<seq<byte>>, announced: bool, lines: seq<Line>)
    requires lines != [] && PicoOk(p) && !p.epoch.rebooting && !KeyZeroed(p.key) && p.epoch.ctr + |lines| < COUNTER_END
    requires Scripted(world, p.id, p.key, announced, lines) && (announced ==> keyed == Some(p.key))
    requires forall i :: 0 <= i < |lines| ==> LineOk(lines[i])
    requires PicoOk(Next(p, lines[0]))
    requires Honest(world, Next(p, lines[0]), KeyedAfter(world, p, keyed, lines[0]), lines[1..])
    requires Expected(Next(p, lines[0]), lines[1..]) == MessagesOf(lines[1..])
    requires SaltsIn(OpsOf(Next(p, lines[0]), lines[1..])) == SaltsOf(lines[1..])
    ensures Honest(world, p, keyed, lines) && Expected(p, lines) == MessagesOf(lines)
    ensures SaltsIn(OpsOf(p, lines)) == SaltsOf(lines)
  {
    hide Outgoing, SkipSpaces, KeyZeroed, Arrives, Occurs, Next, KeyedAfter;
    ScriptStep(world, p, announced, lines);
    var l, rest := lines[0], OpsOf(Next(p, lines[0]), lines[1..]);
    SaltsCons(Draw, rest);
    if l.change.Some? {
      SaltsCons(Rekey(l.change.value.salt), rest);
    }
  }

  lemma SaltsCons(op: Op, rest: seq<Op>)
    ensures SaltsIn([op] + rest) == (if op.Rekey? then [op.salt] else []) + SaltsIn(rest)
  {
    assert ([op] + rest)[1..] == rest;
  }

  /**
   * A receiver just switched on and a sender with any number of key changes: as long as every key is
   * announced before the next message and no salt comes twice or is zero, every message arrives.
   */
  lemma ScriptedSession(world: World, p: PicoState, lines: seq<Line>)
    requires PicoOk(p) && !p.epoch.rebooting && !KeyZeroed(p.key) && p.epoch.ctr + |lines| < COUNTER_END
    requires Scripted(world, p.id, p.key, false, lines) && GoodSalts([p.epoch.salt] + SaltsOf(lines))
    requires forall i :: 0 <= i < |lines| ==> LineOk(lines[i])
    ensures Honest(world, p, None, lines) && Unused([], NoncesOf(p, lines))
    ensures Expected(p, lines) == MessagesOf(lines)
  {
    hide KeyZeroed, Scripted, Honest, Unused, NoncesOf, Expected, MessagesOf, SaltsIn, SaltsOf, OpsOf, GoodSalts, NewSalts,
      NonZeroSalts;
    ScriptedIsHonest(world, p, None, false, lines);
    GoodSaltsAreNew(p.epoch, OpsOf(p, lines));
    NewSaltsUnused(p, lines, []);
  }

  // ---------------------------------------------------------------- both machines together

  /** The bytes of one line are one frame, or none. */
  lemma LineBytes(world: World, p: PicoState, keyed: Option<seq<byte>>, lines: seq<Line>)
    requires AeadOk(world.aead) && PicoOk(p) && lines != [] && Honest(world, p, keyed, lines)
    ensures var q := LinePacket(world.aead, p, lines[0]); var l := lines[0];
      && (q.None? ==> Emitted(world.aead, p, l.m, l.heapOk) == [])
      && (q.Some? ==> PacketOk(q.value) && Emitted(world.aead, p, l.m, l.heapOk) == Frame(q.value))
  {
    var l := lines[0];
    HonestStep(world, p, keyed, lines);
    Opens(world, p.key, NonceOf(p.epoch.salt, p.epoch.ctr), l.m, l.heapOk);
    KindOk(l.m, l.heapOk);
    hide Outgoing, SkipSpaces, KeyZeroed, AfterPreamble, AeadOk, SentPacket, Honest, Next, KeyedAfter, Occurs,
      IsCommand, Be32;
  }

  lemma KindOk(m: seq<byte>, heapOk: bool)
    ensures Outgoing(m, heapOk).0 == MSG_TYPE_ENCRYPTED || Outgoing(m, heapOk).0 == MSG_TYPE_FILE
  {
    hide Compress;
  }

  ghost predicate ArrivalsOk(rs: seq<Arrival>) {
    forall i :: 0 <= i < |rs| ==> ArrivalOk(rs[i])
  }

  /** Every frame of an honest session is one the receiver can read, or is damaged as allowed. */
  lemma {:induction false} FramesOk(world: World, p: PicoState, keyed: Option<seq<byte>>, lines: seq<Line>)
    requires AeadOk(world.aead) && PicoOk(p) && Honest(world, p, keyed, lines)
    requires forall i :: 0 <= i < |lines| ==> LineOk(lines[i])
    ensures ArrivalsOk(Frames(world, p, lines))
    decreases |lines|
  {
    hide AeadOk, Honest, LinePacket, Next, KeyedAfter, PicoOk, LineOk, PacketOk, Occurs, ArrivalOk, LineArrival,
      HitOk, Whole;
    if lines != [] {
      HonestStep(world, p, keyed, lines);
      LineBytes(world, p, keyed, lines);
      var q := LinePacket(world.aead, p, lines[0]);
      if q.Some? {
        ArrivalLine(q.value, lines[0]);
      }
      FramesOk(world, Next(p, lines[0]), KeyedAfter(world, p, keyed, lines[0]), lines[1..]);
    }
  }

  /** One line more on the air. */
  lemma AirStep(air: seq<byte>, r: Arrival, rest: seq<Arrival>, tail: seq<byte>)
    ensures air + Received([r] + rest, tail) == air + r.noise + (PREAMBLE + r.got) + Received(rest, tail)
  {
    var all := [r] + rest;
    assert all[1..] == rest && all[0] == r;
    assert Received(all, tail) == r.noise + (PREAMBLE + r.got) + Received(rest, tail);
  }

  /** What is on the air so far, and how the rest of the session completes it. */
  ghost predicate OnAir(world: World, p: PicoState, lines: seq<Line>, tail: seq<byte>, air: seq<byte>, all: seq<byte>)
    requires PicoOk(p)
  {
    && (forall i :: 0 <= i < |lines| ==> LineOk(lines[i]))
    && air + Received(Frames(world, p, lines), tail) == all
  }

  /** What one line adds to the air, given the bytes the sender put out for it. */
  function Heard(l: Line, sent: seq<byte>): seq<byte> {
    if sent == [] then []
    else l.noise + if l.hit.Some? then PREAMBLE + l.hit.value else sent
  }

  lemma OnAirStep(world: World, p: PicoState, keyed: Option<seq<byte>>, lines: seq<Line>, tail: seq<byte>,
    air: seq<byte>, all: seq<byte>)
    requires AeadOk(world.aead) && PicoOk(p) && lines != [] && Honest(world, p, keyed, lines)
    requires OnAir(world, p, lines, tail, air, all)
    ensures PicoOk(Next(p, lines[0]))
    ensures var sent := Emitted(world.aead, p, lines[0].m, lines[0].heapOk);
      OnAir(world, Next(p, lines[0]), lines[1..], tail, air + Heard(lines[0], sent), all)
  {
    hide AeadOk, Honest, LinePacket, Next, KeyedAfter, PicoOk, LineOk, PacketOk, Occurs, Emitted, Frame, Sent,
      Received, HitOk,
      Heard, LineArrival;
    var l := lines[0];
    HonestStep(world, p, keyed, lines);
    LineBytes(world, p, keyed, lines);
    var rest := Frames(world, Next(p, l), lines[1..]);
    var q := LinePacket(world.aead, p, l);
    if q.Some? {
      AirStep(air, LineArrival(q.value, l), rest, tail);
      HeardFrame(q.value, l);
      assert air + Heard(l, Frame(q.value)) == air + l.noise + (PREAMBLE + LineArrival(q.value, l).got);
    } else {
      assert [] + rest == rest;
      HeardNothing(l);
      assert air + [] == air;
    }
  }

  lemma HeardFrame(q: Packet, l: Line)
    requires PacketOk(q)
    ensures Heard(l, Frame(q)) == l.noise + (PREAMBLE + LineArrival(q, l).got) && LineArrival(q, l).noise == l.noise
  {
    hide PacketOk, Sent;
  }

  lemma HeardNothing(l: Line)
    ensures Heard(l, []) == []
  {
  }

  lemma OnAirStart(world: World, p: PicoState, lines: seq<Line>, tail: seq<byte>)
    requires PicoOk(p) && (forall i :: 0 <= i < |lines| ==> LineOk(lines[i]))
    ensures OnAir(world, p, lines, tail, [], Received(Frames(world, p, lines), tail))
  {
    hide Received, Frames;
    assert [] + Received(Frames(world, p, lines), tail) == Received(Frames(world, p, lines), tail);
  }

  lemma OnAirEnd(world: World, p: PicoState, tail: seq<byte>, air: seq<byte>, all: seq<byte>)
    requires PicoOk(p) && OnAir(world, p, [], tail, air, all)
    ensures air + tail == all
  {
  }

  /** The receiver's side of a whole session, from the bytes on the link. */
  lemma AirDelivers(world: World, p: PicoState, rx: Rx, lines: seq<Line>, tail: seq<byte>)
    requires AeadOk(world.aead) && PicoOk(p) && forall i :: 0 <= i < |lines| ==> LineOk(lines[i])
    requires Honest(world, p, KeyOf(rx), lines) && Unused(rx.accepted, NoncesOf(p, lines)) && !Occurs(tail)
    ensures var packets := Parse(0, Received(Frames(world, p, lines), tail));
      && NoneHangs(world, rx, packets)
      && HandleAll(world, rx, packets).delivered == rx.delivered + Expected(p, lines)
  {
    hide AeadOk, Honest, NoncesOf, Unused, LineOk, Frames, Parse, Received, NoneHangs, HandleAll, Expected, Occurs,
      PacketOk,
      ArrivalOk, Intact;
    FramesOk(world, p, KeyOf(rx), lines);
    ParseIntact(Frames(world, p, lines), tail);
    SessionDelivers(world, p, rx, lines);
  }

  lemma ChangeOk(l: Line)
    requires LineOk(l)
    ensures l.change.Some? ==> KeyChangeOk(l.change.value)
  {
  }

  /**
   * Sender and receiver run together over a bad link: the bytes the sender puts out, some frames hit
   * by bursts, with noise in which no preamble occurs before each frame and after the last, make the
   * receiver deliver exactly the messages whose frames were not hit, in order, each whole or cut to
   * its first 256 bytes.
   */
  method RunSession(pico: Pico, rx: Receiver, lines: seq<Line>, tail: seq<byte>) returns (air: seq<byte>)
    requires pico.Valid() && rx.Valid() && !rx.hung && rx.uartState == 0 && pico.aead == rx.world.aead
    requires Honest(rx.world, pico.State(), KeyOf(rx.State()), lines)
    requires forall i :: 0 <= i < |lines| ==> LineOk(lines[i])
    requires Unused(rx.State().accepted, NoncesOf(pico.State(), lines)) && !Occurs(tail)
    modifies pico, pico.gen, rx, rx.rwin, rx.rwin.buf
    ensures pico.Valid() && rx.Valid() && !rx.hung
    ensures rx.delivered == old(rx.delivered) + Expected(old(pico.State()), lines)
  {
    hide AeadOk, PicoOk, Honest, LineOk, Unused, NoncesOf, Occurs, Frames, Parse, Received, NoneHangs, HandleAll,
      Expected,
      OnAir, Heard, Receiver.Valid, Pico.State, KeyOf, Emitted, AfterLine, KeyedAfter, PacketOk, KeyChangeOk;
    air := [];
    pico.StateOk();
    ghost var world, p, keyed := rx.world, pico.State(), KeyOf(rx.State());
    AirDelivers(world, p, rx.State(), lines, tail);
    OnAirStart(world, p, lines, tail);
    ghost var all := Received(Frames(world, p, lines), tail);
    assert lines[0..] == lines;
    for i := 0 to |lines|
      invariant pico.Valid() && p == pico.State() && PicoOk(p)
      invariant Honest(world, p, keyed, lines[i..])
      invariant OnAir(world, p, lines[i..], tail, air, all)
      modifies pico, pico.gen
    {
      var l, before := lines[i], |pico.wire|;
      OnAirStep(world, p, keyed, lines[i..], tail, air, all);
      HonestStep(world, p, keyed, lines[i..]);
      ChangeOk(l);
      pico.Submit(l.m, l.heapOk, l.change);
      var sent := pico.wire[before..];
      air := air + Heard(l, sent);
      keyed, p := KeyedAfter(world, p, keyed, l), Next(p, l);
      assert lines[i..][1..] == lines[i + 1..];
    }
    assert lines[|lines|..] == [];
    OnAirEnd(world, p, tail, air, all);
    air := air + tail;
    rx.OnStream(air);
  }
}
