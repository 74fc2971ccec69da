/** Frames on the wire: the preamble hunt, the length-delimited frame and its checksum, both directions. */
module Framing {
  import opened Bits
  import opened Options
  import opened Crc16

  const PREAMBLE: seq<byte> := [0xAB, 0xCD, 0xEF, 0x12]
  const MSG_TYPE_ENCRYPTED: byte := 0x02
  const MSG_TYPE_FILE: byte := 0x06
  const MSG_TYPE_KEY_ID_ONLY: byte := 0x07
  const MSG_TYPE_SST_HS2: byte := 0x09
  const NONCE_SIZE: nat := 12
  const TAG_SIZE: nat := 16
  const MAX_MSG_LEN: nat := 8192
  const SST_HS2_PAYLOAD_SIZE: nat := 80

  // ---------------------------------------------------------------- the preamble hunt

  /** One byte while hunting: advance, or restart, which on AB means at state 1. */
  function NextState(st: nat, b: byte): (r: nat)
    requires st < 4
    ensures r <= 4
  {
    if b == PREAMBLE[st] then st + 1
    else if b == PREAMBLE[0] then 1
    else 0
  }

  /** The state after `s`, staying at 4 once the preamble is complete. */
  function Hunt(s: seq<byte>): (r: nat)
    ensures r <= 4
    decreases |s|
  {
    if s == [] then 0
    else
      var st := Hunt(s[..|s| - 1]);
      if st == 4 then 4 else NextState(st, s[|s| - 1])
  }

  ghost predicate Occurs(s: seq<byte>) {
    exists i :: 0 <= i && OccursAt(s, i)
  }

  predicate OccursAt(s: seq<byte>, i: nat) {
    i + 4 <= |s| && s[i..i + 4] == PREAMBLE
  }

  /** The last `k` bytes are the first `k` of the preamble. */
  predicate EndsWith(s: seq<byte>, k: nat)
    requires k <= 4
  {
    k <= |s| && s[|s| - k..] == PREAMBLE[..k]
  }

  lemma EndsWithSnoc(s: seq<byte>, b: byte, k: nat)
    requires 1 <= k <= 4
    ensures EndsWith(s + [b], k) <==> EndsWith(s, k - 1) && b == PREAMBLE[k - 1]
  {
    var t := s + [b];
    if k <= |t| {
      assert t[|t| - k..] == s[|s| - (k - 1)..] + [b];
      assert PREAMBLE[..k] == PREAMBLE[..k - 1] + [PREAMBLE[k - 1]];
      if EndsWith(t, k) {
        assert t[|t| - k..][..k - 1] == PREAMBLE[..k][..k - 1];
        assert t[|t| - k..][k - 1] == PREAMBLE[..k][k - 1];
      }
    }
  }

  lemma EndsWithLast(s: seq<byte>, k: nat)
    requires 1 <= k <= 4 && EndsWith(s, k)
    ensures s != [] && s[|s| - 1] == PREAMBLE[k - 1]
  {
    assert s[|s| - k..][k - 1] == PREAMBLE[..k][k - 1];
  }

  lemma OccursSnoc(s: seq<byte>, b: byte)
    ensures Occurs(s + [b]) <==> Occurs(s) || EndsWith(s + [b], 4)
  {
    var t := s + [b];
    if Occurs(t) {
      var i :| 0 <= i && OccursAt(t, i);
      if i + 4 <= |s| {
        assert t[i..i + 4] == s[i..i + 4];
        assert OccursAt(s, i);
      } else {
        assert t[i..i + 4] == t[|t| - 4..];
      }
    }
    if Occurs(s) {
      var i :| 0 <= i && OccursAt(s, i);
      assert t[i..i + 4] == s[i..i + 4];
      assert OccursAt(t, i);
    }
    if EndsWith(t, 4) {
      assert t[|t| - 4..] == t[|t| - 4..|t| - 4 + 4];
      assert OccursAt(t, |t| - 4);
    }
  }

  /** What a state below 4 means: the longest beginning of the preamble the input ends with. */
  ghost predicate HuntMeans(s: seq<byte>, st: nat) {
    st < 4 && !Occurs(s) && EndsWith(s, st) && forall k :: st < k < 4 ==> !EndsWith(s, k)
  }

  lemma HuntStep(s: seq<byte>, st: nat, b: byte)
    requires HuntMeans(s, st)
    ensures var r := NextState(st, b); if r == 4 then Occurs(s + [b]) else HuntMeans(s + [b], r)
  {
    hide Occurs, EndsWith;
    var r, t := NextState(st, b), s + [b];
    OccursSnoc(s, b);
    if st > 0 {
      EndsWithLast(s, st);
    }
    forall k | 1 <= k <= 4
      ensures EndsWith(t, k) ==> k == st + 1 || k == 1
      ensures EndsWith(t, k) <==> EndsWith(s, k - 1) && b == PREAMBLE[k - 1]
    {
      EndsWithSnoc(s, b, k);
      if EndsWith(t, k) && 1 < k {
        EndsWithLast(s, k - 1);
      }
    }
    EndsWithNothing(s);
    EndsWithNothing(t);
  }

  lemma EndsWithNothing(s: seq<byte>)
    ensures EndsWith(s, 0)
  {
  }

  /**
   * The automaton is exact: it is at 4 after just those inputs in which the preamble occurs, so it
   * gets there with the last byte of the first occurrence; before that its state is the longest
   * beginning of the preamble it could still complete.
   */
  lemma {:induction false} HuntExact(s: seq<byte>)
    ensures Hunt(s) == 4 <==> Occurs(s)
    ensures Hunt(s) < 4 ==> HuntMeans(s, Hunt(s))
    decreases |s|
  {
    if s != [] {
      var ini, b := s[..|s| - 1], s[|s| - 1];
      assert s == ini + [b];
      HuntExact(ini);
      OccursSnoc(ini, b);
      if Hunt(ini) < 4 {
        HuntStep(ini, Hunt(ini), b);
      }
    }
  }

  lemma NoEarlyPreambleAt(noise: seq<byte>, j: nat, i: nat)
    requires j < 4
    ensures OccursAt(noise + PREAMBLE[..j], i) ==> OccursAt(noise, i)
  {
    var t := noise + PREAMBLE[..j];
    if i + 4 <= |noise| {
      assert t[i..i + 4] == noise[i..i + 4];
    } else if i + 4 <= |t| {
      assert t[i..i + 4][3] == t[i + 3] == PREAMBLE[i + 3 - |noise|];
    }
  }

  /** A beginning of the preamble after clean noise completes nothing. */
  lemma NoEarlyPreamble(noise: seq<byte>, j: nat)
    requires !Occurs(noise) && j < 4
    ensures !Occurs(noise + PREAMBLE[..j])
  {
    forall i | 0 <= i
      ensures !OccursAt(noise + PREAMBLE[..j], i)
    {
      NoEarlyPreambleAt(noise, j, i);
    }
  }

  // ---------------------------------------------------------------- packets

  datatype Packet =
    | KeyId(payload: seq<byte>)
    | HandshakeReply(payload: seq<byte>)
    | Data(kind: byte, nonce: seq<byte>, ciphertext: seq<byte>, tag: seq<byte>)

  /** What the sender can put into a frame and the receiver's bounds let through. */
  predicate PacketOk(p: Packet) {
    match p
    case KeyId(payload) => |payload| <= 64
    case HandshakeReply(payload) => |payload| == SST_HS2_PAYLOAD_SIZE
    case Data(kind, nonce, ciphertext, tag) =>
      && (kind == MSG_TYPE_ENCRYPTED || kind == MSG_TYPE_FILE)
      && |nonce| == NONCE_SIZE && |tag| == TAG_SIZE
      && |ciphertext| <= MAX_MSG_LEN - NONCE_SIZE - TAG_SIZE
  }

  function TypeByte(p: Packet): byte {
    match p
    case KeyId(_) => MSG_TYPE_KEY_ID_ONLY
    case HandshakeReply(_) => MSG_TYPE_SST_HS2
    case Data(kind, _, _, _) => kind
  }

  function Payload(p: Packet): seq<byte> {
    match p
    case KeyId(payload) => payload
    case HandshakeReply(payload) => payload
    case Data(_, nonce, ciphertext, tag) => nonce + ciphertext + tag
  }

  /** Type, big-endian length, payload: what the checksum covers. */
  function Body(kind: byte, payload: seq<byte>): (b: seq<byte>)
    requires |payload| < 0x1_0000
    ensures |b| == 3 + |payload|
  {
    [kind, |payload| / 256, |payload| % 256] + payload
  }

  function AfterPreamble(kind: byte, payload: seq<byte>): (b: seq<byte>)
    requires |payload| < 0x1_0000
    ensures |b| == 5 + |payload|
  {
    Body(kind, payload) + CrcBytes(Body(kind, payload))
  }

  /** What follows the preamble of a packet's frame. */
  function Sent(p: Packet): (b: seq<byte>)
    requires PacketOk(p)
    ensures |b| >= 5
  {
    AfterPreamble(TypeByte(p), Payload(p))
  }

  function Frame(p: Packet): seq<byte>
    requires PacketOk(p)
  {
    PREAMBLE + Sent(p)
  }

  /** The length bound of each type, and how the payload becomes a packet. */
  predicate KnownType(kind: byte) {
    kind == MSG_TYPE_KEY_ID_ONLY || kind == MSG_TYPE_SST_HS2 || kind == MSG_TYPE_ENCRYPTED || kind == MSG_TYPE_FILE
  }

  predicate LengthOk(kind: byte, len: nat)
    requires KnownType(kind)
  {
    if kind == MSG_TYPE_KEY_ID_ONLY then len <= 64
    else if kind == MSG_TYPE_SST_HS2 then len == SST_HS2_PAYLOAD_SIZE
    else NONCE_SIZE + TAG_SIZE <= len <= MAX_MSG_LEN
  }

  function MakePacket(kind: byte, payload: seq<byte>): Packet
    requires KnownType(kind) && LengthOk(kind, |payload|)
  {
    if kind == MSG_TYPE_KEY_ID_ONLY then KeyId(payload)
    else if kind == MSG_TYPE_SST_HS2 then HandshakeReply(payload)
    else Data(kind, payload[..NONCE_SIZE], payload[NONCE_SIZE..|payload| - TAG_SIZE], payload[|payload| - TAG_SIZE..])
  }

  /**
   * From the type byte on: the packet, if one is complete and sound, and how many bytes are used up.
   * A read that the stream cannot satisfy uses up the rest of it.
   */
  function ReadPacket(s: seq<byte>): (r: (Option<Packet>, nat))
    requires s != []
    ensures 1 <= r.1 <= |s|
  {
    if !KnownType(s[0]) then (None, if |s| < 16 then |s| else 16)
    else if |s| < 3 then (None, |s|)
    else
      var len := Word(s[1], s[2]);
      if !LengthOk(s[0], len) then (None, 3)
      else if |s| < 5 + len then (None, |s|)
      else if Crc(s[..3 + len]) != Word(s[3 + len], s[4 + len]) then (None, 5 + len)
      else (Some(MakePacket(s[0], s[3..3 + len])), 5 + len)
  }

  /** Every packet the receiver finds in `s` when it starts in state `st`. */
  function Parse(st: nat, s: seq<byte>): seq<Packet>
    requires st <= 4
    decreases |s|
  {
    if s == [] then []
    else if st < 4 then Parse(NextState(st, s[0]), s[1..])
    else
      var (p, n) := ReadPacket(s);
      (if p.Some? then [p.value] else []) + Parse(0, s[n..])
  }

  // ---------------------------------------------------------------- reading back what was written

  lemma CrcBytesWord(data: seq<byte>)
    ensures Word(CrcBytes(data)[0], CrcBytes(data)[1]) == Crc(data)
  {
    hide Crc;
  }

  lemma ReadBody(kind: byte, payload: seq<byte>, rest: seq<byte>)
    requires KnownType(kind) && |payload| < 0x1_0000 && LengthOk(kind, |payload|)
    ensures ReadPacket(AfterPreamble(kind, payload) + rest) == (Some(MakePacket(kind, payload)), 5 + |payload|)
  {
    hide Crc, CrcBytes, MakePacket, LengthOk, KnownType;
    var body := Body(kind, payload);
    var s := AfterPreamble(kind, payload) + rest;
    var len := |payload|;
    CrcBytesWord(body);
    assert s[..3 + len] == body;
    assert s[3..3 + len] == payload;
    assert s[3 + len] == CrcBytes(body)[0] && s[4 + len] == CrcBytes(body)[1];
    assert s[0] == kind && s[1] == len / 256 && s[2] == len % 256;
  }

  lemma PacketRoundTrip(p: Packet)
    requires PacketOk(p)
    ensures KnownType(TypeByte(p)) && LengthOk(TypeByte(p), |Payload(p)|) && |Payload(p)| < 0x1_0000
    ensures MakePacket(TypeByte(p), Payload(p)) == p
  {
    if p.Data? {
      var payload := Payload(p);
      assert payload[..NONCE_SIZE] == p.nonce;
      assert payload[NONCE_SIZE..|payload| - TAG_SIZE] == p.ciphertext;
      assert payload[|payload| - TAG_SIZE..] == p.tag;
    }
  }

  // ---------------------------------------------------------------- whole streams

  datatype Item = Item(noise: seq<byte>, packet: Packet)

  /** Frames with noise before each of them, and `tail` after the last. */
  function Stream(items: seq<Item>, tail: seq<byte>): seq<byte>
    requires forall i :: 0 <= i < |items| ==> PacketOk(items[i].packet)
  {
    if items == [] then tail
    else items[0].noise + Frame(items[0].packet) + Stream(items[1..], tail)
  }

  function Packets(items: seq<Item>): (ps: seq<Packet>)
    ensures |ps| == |items|
  {
    if items == [] then [] else [items[0].packet] + Packets(items[1..])
  }

  /** As long as the preamble is not complete, the parser's state is the hunt's. */
  lemma {:induction false} ParseHunt(a: seq<byte>, rest: seq<byte>)
    requires a != [] ==> Hunt(a[..|a| - 1]) < 4
    ensures Parse(0, a + rest) == Parse(Hunt(a), rest)
    decreases |a|
  {
    hide ReadPacket, NextState;
    if a == [] {
      assert a + rest == rest;
    } else {
      var ini, b := a[..|a| - 1], a[|a| - 1];
      assert a + rest == ini + ([b] + rest);
      ParseHunt(ini, [b] + rest);
      assert ([b] + rest)[1..] == rest;
    }
  }

  lemma CleanHunt(noise: seq<byte>)
    requires !Occurs(noise)
    ensures Hunt(noise) < 4
    ensures Hunt(noise + PREAMBLE) == 4 && Hunt((noise + PREAMBLE)[..|noise| + 3]) < 4
  {
    hide Hunt;
    HuntExact(noise);
    NoEarlyPreamble(noise, 3);
    assert (noise + PREAMBLE)[..|noise| + 3] == noise + PREAMBLE[..3];
    HuntExact(noise + PREAMBLE[..3]);
    assert OccursAt(noise + PREAMBLE, |noise|);
    HuntExact(noise + PREAMBLE);
  }

  lemma ParseRead(s: seq<byte>, p: Packet, n: nat, rest: seq<byte>)
    requires s != [] && ReadPacket(s) == (Some(p), n) && s[n..] == rest
    ensures Parse(4, s) == [p] + Parse(0, rest)
  {
    hide ReadPacket, NextState;
  }

  lemma FrameParts(noise: seq<byte>, after: seq<byte>, rest: seq<byte>)
    ensures noise + (PREAMBLE + after) + rest == (noise + PREAMBLE) + (after + rest)
    ensures (after + rest)[|after|..] == rest
    ensures (noise + PREAMBLE)[..|noise + PREAMBLE| - 1] == (noise + PREAMBLE)[..|noise| + 3]
  {
  }

  lemma ParseFrame(noise: seq<byte>, p: Packet, rest: seq<byte>)
    requires !Occurs(noise) && PacketOk(p)
    ensures Parse(0, noise + Frame(p) + rest) == [p] + Parse(0, rest)
  {
    hide Parse, ReadPacket, AfterPreamble, Hunt, Occurs, MakePacket, TypeByte, Payload, KnownType, LengthOk, PacketOk;
    PacketRoundTrip(p);
    var kind, payload := TypeByte(p), Payload(p);
    var after := AfterPreamble(kind, payload);
    FrameParts(noise, after, rest);
    CleanHunt(noise);
    ParseHunt(noise + PREAMBLE, after + rest);
    ReadBody(kind, payload, rest);
    ParseRead(after + rest, p, 5 + |payload|, rest);
  }

  lemma ParseNoise(noise: seq<byte>)
    requires !Occurs(noise)
    ensures Parse(0, noise) == []
  {
    hide ReadPacket, NextState, Hunt;
    CleanHunt(noise);
    if noise != [] {
      HuntStays(noise);
    }
    ParseHunt(noise, []);
    assert noise + [] == noise;
  }

  lemma HuntStays(s: seq<byte>)
    requires s != [] && Hunt(s) < 4
    ensures Hunt(s[..|s| - 1]) < 4
  {
  }

  /**
   * Parsing undoes sending: any frames, whatever their payloads contain, with noise in between in
   * which the preamble does not occur, come back as exactly the packets that were sent.
   */
  lemma {:induction false} ParseStream(items: seq<Item>, tail: seq<byte>)
    requires forall i :: 0 <= i < |items| ==> PacketOk(items[i].packet) && !Occurs(items[i].noise)
    requires !Occurs(tail)
    ensures Parse(0, Stream(items, tail)) == Packets(items)
    decreases |items|
  {
    hide Parse, Frame, Occurs, PacketOk;
    if items == [] {
      ParseNoise(tail);
    } else {
      ParseFrame(items[0].noise, items[0].packet, Stream(items[1..], tail));
      ParseStream(items[1..], tail);
    }
  }

  // ---------------------------------------------------------------- damage

  lemma FirstThree(a: seq<byte>, b: seq<byte>)
    requires |a| >= 3 && |b| >= 3 && a[1..3] == b[1..3]
    ensures a[1] == b[1] && a[2] == b[2]
  {
    assert a[1..3][0] == b[1..3][0] && a[1..3][1] == b[1..3][1];
  }

  lemma RejectBody(f: seq<byte>, rest: seq<byte>)
    requires |f| >= 5 && Word(f[1], f[2]) == |f| - 5 && !Accepts(f)
    ensures ReadPacket(f + rest).0 == None
    ensures KnownType(f[0]) && LengthOk(f[0], |f| - 5) ==> ReadPacket(f + rest).1 == |f|
  {
    hide Crc, Accepts, LengthOk, KnownType, MakePacket;
    AcceptsIff(f);
    assert (f + rest)[..|f| - 2] == f[..|f| - 2];
  }

  /** What arrives differs from what was sent, but only within sixteen consecutive bits and not in the length field. */
  ghost predicate Burst(sent: seq<byte>, got: seq<byte>, a: nat) {
    && |got| == |sent| >= 3 && got != sent && got[1..3] == sent[1..3]
    && forall i :: 0 <= i < 8 * |sent| && Difference(sent, got)[i] ==> a <= i < a + 16
  }

  /**
   * A frame so damaged never yields a packet, whichever of its bytes are hit; and when its type byte
   * is one whose length rule it meets, as when the type is intact, exactly the frame is used up.
   */
  lemma DamagedFrameDropped(p: Packet, damaged: seq<byte>, a: nat, rest: seq<byte>)
    requires PacketOk(p) && Burst(Sent(p), damaged, a)
    ensures ReadPacket(damaged + rest).0 == None
    ensures damaged[0] == TypeByte(p) ==> ReadPacket(damaged + rest).1 == |damaged|
  {
    hide Crc, CrcBytes, Accepts, Difference, TypeByte, Payload, PacketOk, LengthOk, KnownType, MakePacket, ReadPacket;
    PacketRoundTrip(p);
    var sent := Sent(p);
    AppendedAccepted(Body(TypeByte(p), Payload(p)));
    BurstDetected(sent, damaged, a);
    FirstThree(sent, damaged);
    RejectBody(damaged, rest);
  }

  /** A frame on the link: the noise before it, and what arrives of it behind an intact preamble. */
  datatype Arrival = Arrival(noise: seq<byte>, packet: Packet, got: seq<byte>)

  predicate Whole(r: Arrival) {
    PacketOk(r.packet) && r.got == Sent(r.packet)
  }

  /** Its type and length are intact, and a burst has hit somewhere behind them. */
  ghost predicate Damaged(p: Packet, got: seq<byte>)
    requires PacketOk(p)
  {
    got != [] && got[0] == TypeByte(p) && exists a :: 0 <= a && Burst(Sent(p), got, a)
  }

  ghost predicate ArrivalOk(r: Arrival) {
    PacketOk(r.packet) && !Occurs(r.noise) && (Whole(r) || Damaged(r.packet, r.got))
  }

  function Received(rs: seq<Arrival>, tail: seq<byte>): seq<byte> {
    if rs == [] then tail else rs[0].noise + (PREAMBLE + rs[0].got) + Received(rs[1..], tail)
  }

  /** The packets of the frames that are not damaged. */
  function Intact(rs: seq<Arrival>): seq<Packet> {
    if rs == [] then [] else (if Whole(rs[0]) then [rs[0].packet] else []) + Intact(rs[1..])
  }

  lemma ParseDrop(s: seq<byte>, n: nat, rest: seq<byte>)
    requires s != [] && ReadPacket(s) == (None, n) && s[n..] == rest
    ensures Parse(4, s) == Parse(0, rest)
  {
    hide ReadPacket, NextState;
    assert [] + Parse(0, rest) == Parse(0, rest);
  }

  /** One damaged frame after clean noise leaves no trace. */
  lemma ParseDamaged(noise: seq<byte>, p: Packet, got: seq<byte>, a: nat, rest: seq<byte>)
    requires !Occurs(noise) && PacketOk(p) && got != [] && got[0] == TypeByte(p)
    requires Burst(Sent(p), got, a)
    ensures Parse(0, noise + (PREAMBLE + got) + rest) == Parse(0, rest)
  {
    hide Parse, ReadPacket, Sent, Hunt, Occurs, TypeByte, Burst, PacketOk;
    FrameParts(noise, got, rest);
    CleanHunt(noise);
    ParseHunt(noise + PREAMBLE, got + rest);
    DamagedFrameDropped(p, got, a, rest);
    ParseDrop(got + rest, |got|, rest);
  }

  /** A stream in which some frames are damaged parses to exactly the intact ones, in order. */
  lemma {:induction false} ParseIntact(rs: seq<Arrival>, tail: seq<byte>)
    requires forall i :: 0 <= i < |rs| ==> ArrivalOk(rs[i])
    requires !Occurs(tail)
    ensures Parse(0, Received(rs, tail)) == Intact(rs)
    decreases |rs|
  {
    hide Parse, Sent, Occurs, PacketOk, Burst, TypeByte;
    if rs == [] {
      ParseNoise(tail);
    } else {
      var r, rest := rs[0], Received(rs[1..], tail);
      assert ArrivalOk(r);
      ParseIntact(rs[1..], tail);
      if Whole(r) {
        ParseFrame(r.noise, r.packet, rest);
      } else {
        var a :| 0 <= a && Burst(Sent(r.packet), r.got, a);
        ParseDamaged(r.noise, r.packet, r.got, a, rest);
        assert [] + Intact(rs[1..]) == Intact(rs[1..]);
      }
    }
  }

  // ---------------------------------------------------------------- the frames in numbers

  /** The type byte of each kind of frame. */
  function TypeNumber(p: Packet): byte {
    match p
    case KeyId(_) => 0x07
    case HandshakeReply(_) => 0x09
    case Data(kind, _, _, _) => if kind == 0x06 then 0x06 else 0x02
  }

  /** A frame byte by byte: preamble, type, length, payload, and the checksum of all but the preamble. */
  lemma FrameBytes(p: Packet)
    requires PacketOk(p)
    ensures var body := match p case KeyId(b) => b case HandshakeReply(b) => b case Data(_, n, c, t) => n + c + t;
      |body| <= 8192 &&
      var covered: seq<byte> := [TypeNumber(p), |body| / 256, |body| % 256] + body;
      Frame(p) == [0xAB, 0xCD, 0xEF, 0x12] + covered + [Crc(covered) / 256, Crc(covered) % 256]
  {
    hide Crc;
  }

  /** What can be framed, in numbers. */
  lemma PacketBounds(p: Packet)
    ensures PacketOk(p) <==>
      match p
      case KeyId(payload) => |payload| <= 64
      case HandshakeReply(payload) => |payload| == 80
      case Data(kind, nonce, ciphertext, tag) =>
        (kind == 0x02 || kind == 0x06) && |nonce| == 12 && |tag| == 16 && |ciphertext| <= 8164
  {
  }

  lemma ReadParts(s: seq<byte>, len: nat)
    requires |s| >= 5 + len && len == Word(s[1], s[2]) && Crc(s[..3 + len]) == Word(s[3 + len], s[4 + len])
    ensures AfterPreamble(s[0], s[3..3 + len]) == s[..5 + len]
  {
    hide Crc;
    var payload := s[3..3 + len];
    assert Body(s[0], payload) == s[..3 + len];
    assert s[..5 + len] == s[..3 + len] + [s[3 + len], s[4 + len]];
  }

  lemma MadePacket(kind: byte, payload: seq<byte>)
    requires KnownType(kind) && LengthOk(kind, |payload|)
    ensures var p := MakePacket(kind, payload); PacketOk(p) && TypeByte(p) == kind && Payload(p) == payload
  {
    if kind != MSG_TYPE_KEY_ID_ONLY && kind != MSG_TYPE_SST_HS2 {
      var n, k := NONCE_SIZE, |payload| - TAG_SIZE;
      assert payload == payload[..n] + payload[n..k] + payload[k..];
    }
  }

  /** The receiver reads a packet exactly when what arrives begins with the very bytes that are sent for it. */
  lemma ReadPacketIff(s: seq<byte>, p: Packet)
    requires s != []
    ensures ReadPacket(s).0 == Some(p) <==> PacketOk(p) && Sent(p) <= s
    ensures ReadPacket(s).0 == Some(p) ==> ReadPacket(s).1 == |Sent(p)|
  {
    hide Crc, AfterPreamble, MakePacket, TypeByte, Payload, KnownType, LengthOk, PacketOk, CrcBytes;
    if ReadPacket(s).0 == Some(p) {
      var len := Word(s[1], s[2]);
      ReadParts(s, len);
      MadePacket(s[0], s[3..3 + len]);
    }
    if PacketOk(p) && Sent(p) <= s {
      PacketRoundTrip(p);
      ReadBody(TypeByte(p), Payload(p), s[|Sent(p)|..]);
      assert s == Sent(p) + s[|Sent(p)|..];
    }
  }

  /** An unknown type costs it and the fifteen bytes after it. */
  lemma UnknownTypeSkipped(s: seq<byte>)
    requires s != [] && s[0] != 0x02 && s[0] != 0x06 && s[0] != 0x07 && s[0] != 0x09
    ensures ReadPacket(s) == (None, Min(16, |s|))
  {
  }

  /** A length out of bounds costs the three bytes up to it. */
  lemma BadLengthSkipped(s: seq<byte>)
    requires |s| >= 3
    requires var len := s[1] as nat * 256 + s[2];
      match s[0]
      case 0x07 => len > 64
      case 0x09 => len != 80
      case _ => (s[0] == 0x02 || s[0] == 0x06) && (len < 28 || len > 8192)
    ensures ReadPacket(s) == (None, 3)
  {
    hide Crc;
  }

  /** A frame that the line breaks off is used up as far as it came. */
  lemma TruncatedFrameDropped(p: Packet, n: nat)
    requires PacketOk(p) && 1 <= n < |Sent(p)|
    ensures ReadPacket(Sent(p)[..n]) == (None, n)
  {
    hide Crc, CrcBytes, MakePacket, LengthOk, KnownType, TypeByte, Payload, PacketOk;
    PacketRoundTrip(p);
    var s, body := Sent(p), Body(TypeByte(p), Payload(p));
    assert s[0] == body[0] && s[1] == body[1] && s[2] == body[2];
  }
}
