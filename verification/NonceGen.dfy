/**
 * The sender's nonces: an eight-byte salt drawn at start-up and at every key change, then a 32-bit
 * counter (the fixed and invocation fields of section 8.2.1 of NIST SP 800-38D).
 */
module NonceGen {
  import opened Bits
  import opened Replay

  const NONCE_SALT_LEN: nat := 8
  const COUNTER_END: nat := 0x1_0000_0000

  /** store_be32. */
  function Be32(v: nat): (r: seq<byte>)
    requires v < COUNTER_END
    ensures |r| == 4
  {
    var v8 := v / 256;
    var v16 := v8 / 256;
    [v16 / 256, v16 % 256, v8 % 256, v % 256]
  }

  /** The bytes of the counter, high byte first. */
  lemma Be32Value(v: nat)
    requires v < COUNTER_END
    ensures v == Be32(v)[0] as nat * 0x100_0000 + Be32(v)[1] as nat * 0x1_0000 + Be32(v)[2] as nat * 0x100 + Be32(v)[3] as nat
  {
  }

  function NonceOf(salt: seq<byte>, ctr: nat): (n: Nonce)
    requires ctr < COUNTER_END
    ensures |n| == |salt| + 4
  {
    salt + Be32(ctr)
  }

  /** Twelve bytes: the salt, then the counter, high byte first. */
  lemma NonceLayout(salt: seq<byte>, ctr: nat)
    requires |salt| == 8 && ctr < COUNTER_END
    ensures var n := NonceOf(salt, ctr);
      && |n| == 12 && n[..8] == salt
      && ctr == n[8] as nat * 0x100_0000 + n[9] as nat * 0x1_0000 + n[10] as nat * 0x100 + n[11] as nat
  {
    Be32Value(ctr);
    var n := NonceOf(salt, ctr);
    assert n[8] == Be32(ctr)[0] && n[9] == Be32(ctr)[1] && n[10] == Be32(ctr)[2] && n[11] == Be32(ctr)[3];
  }

  class Generator {
    var bootSalt: seq<byte>
    var msgCounter: nat
    var rebooting: bool  // pico_reboot has been called and pico_nonce_init has not run since

    ghost predicate Valid()
      reads this
    {
      |bootSalt| == NONCE_SALT_LEN && msgCounter < COUNTER_END
    }

    ghost function State(): Epoch
      reads this
    {
      Epoch(bootSalt, msgCounter, rebooting)
    }

    /** pico_nonce_init; `random` is what the random number generator returned. */
    constructor (random: seq<byte>)
      requires |random| == NONCE_SALT_LEN
      ensures Valid() && State() == Epoch(random, 0, false)
    {
      bootSalt, msgCounter, rebooting := random, 0, false;
    }

    method Init(random: seq<byte>)
      requires |random| == NONCE_SALT_LEN
      modifies this
      ensures Valid() && State() == Epoch(random, 0, false)
    {
      bootSalt := random;
      msgCounter := 0;
      rebooting := false;
    }

    /** pico_nonce_generate. */
    method Generate() returns (out: Nonce)
      requires Valid()
      modifies this
      ensures Valid()
      ensures out == NonceOf(old(bootSalt), old(msgCounter))
      ensures State() == if old(msgCounter) + 1 == COUNTER_END then Epoch(old(bootSalt), 0, true)
        else Epoch(old(bootSalt), old(msgCounter) + 1, old(rebooting))
    {
      var ctr := msgCounter;
      msgCounter := (msgCounter + 1) % COUNTER_END;
      var wrapped := msgCounter == 0;
      if wrapped {
        rebooting := true;
      }
      out := bootSalt + Be32(ctr);
    }
  }

  // ---------------------------------------------------------------- whole runs

  datatype Epoch = Epoch(salt: seq<byte>, ctr: nat, rebooting: bool)
  datatype Op = Draw | Rekey(salt: seq<byte>)

  ghost predicate EpochOk(e: Epoch) {
    |e.salt| == NONCE_SALT_LEN && e.ctr < COUNTER_END && (e.rebooting ==> e.ctr == 0)
  }

  ghost predicate OpsOk(ops: seq<Op>) {
    forall i :: 0 <= i < |ops| && ops[i].Rekey? ==> |ops[i].salt| == NONCE_SALT_LEN
  }

  /** The nonces a run of the sender uses; the draw that wraps reboots it, and it uses none until it starts again. */
  ghost function Trace(e: Epoch, ops: seq<Op>): (ns: seq<Nonce>)
    requires EpochOk(e) && OpsOk(ops)
    decreases |ops|
  {
    if ops == [] then []
    else if ops[0].Rekey? then Trace(Epoch(ops[0].salt, 0, false), ops[1..])
    else if e.rebooting then Trace(e, ops[1..])
    else if Advance(e).rebooting then Trace(Advance(e), ops[1..])
    else [NonceOf(e.salt, e.ctr)] + Trace(Advance(e), ops[1..])
  }

  ghost function Advance(e: Epoch): (r: Epoch)
    requires EpochOk(e) && !e.rebooting
    ensures EpochOk(r)
  {
    if e.ctr + 1 == COUNTER_END then Epoch(e.salt, 0, true) else Epoch(e.salt, e.ctr + 1, e.rebooting)
  }

  lemma TraceHead(e: Epoch, ops: seq<Op>)
    requires EpochOk(e) && OpsOk(ops) && ops != [] && OpsOk(ops[1..])
    ensures ops[0].Rekey? ==> Trace(e, ops) == Trace(Epoch(ops[0].salt, 0, false), ops[1..])
    ensures ops[0].Draw? && !e.rebooting ==>
      Trace(e, ops) == (if Advance(e).rebooting then [] else [NonceOf(e.salt, e.ctr)]) + Trace(Advance(e), ops[1..])
  {
    hide NonceOf, OpsOk, Advance;
    if ops[0].Draw? && !e.rebooting && Advance(e).rebooting {
      assert [] + Trace(Advance(e), ops[1..]) == Trace(Advance(e), ops[1..]);
    }
  }

  /** The draw that reboots is the one of the last 32-bit counter value. */
  lemma RebootsIff(e: Epoch)
    requires EpochOk(e) && !e.rebooting
    ensures Advance(e).rebooting <==> e.ctr == 0xFFFF_FFFF
  {
  }

  /** No salt is drawn twice, neither among the operations nor the one in use. */
  ghost predicate NewSalts(e: Epoch, ops: seq<Op>) {
    && (forall i :: 0 <= i < |ops| && ops[i].Rekey? ==> ops[i].salt != e.salt)
    && (forall i, j :: 0 <= i < j < |ops| && ops[i].Rekey? && ops[j].Rekey? ==> ops[i].salt != ops[j].salt)
  }

  ghost predicate SaltAhead(ops: seq<Op>, salt: seq<byte>) {
    exists i :: 0 <= i < |ops| && ops[i].Rekey? && ops[i].salt == salt
  }

  lemma Be32Injective(a: nat, b: nat)
    requires a < COUNTER_END && b < COUNTER_END && Be32(a) == Be32(b)
    ensures a == b
  {
    assert Be32(a)[0] == Be32(b)[0] && Be32(a)[1] == Be32(b)[1] && Be32(a)[2] == Be32(b)[2] && Be32(a)[3] == Be32(b)[3];
  }

  lemma NonceOfInjective(s: seq<byte>, a: nat, t: seq<byte>, b: nat)
    requires |s| == |t| && a < COUNTER_END && b < COUNTER_END && NonceOf(s, a) == NonceOf(t, b)
    ensures s == t && a == b
  {
    assert NonceOf(s, a)[..|s|] == s && NonceOf(t, b)[..|t|] == t;
    assert NonceOf(s, a)[|s|..] == Be32(a) && NonceOf(t, b)[|t|..] == Be32(b);
    Be32Injective(a, b);
  }

  /** A later nonce carries the current salt with a counter not yet used, or a salt still to come. */
  ghost predicate Later(e: Epoch, ops: seq<Op>, n: Nonce)
    requires EpochOk(e)
  {
    || (exists c :: !e.rebooting && e.ctr <= c < COUNTER_END && n == NonceOf(e.salt, c))
    || (|n| == 12 && SaltAhead(ops, n[..8]))
  }

  lemma {:induction false} TraceIsLater(e: Epoch, ops: seq<Op>, k: nat)
    requires EpochOk(e) && OpsOk(ops) && k < |Trace(e, ops)|
    ensures Later(e, ops, Trace(e, ops)[k])
    decreases |ops|
  {
    var rest, n := ops[1..], Trace(e, ops)[k];
    if ops[0].Rekey? {
      var e' := Epoch(ops[0].salt, 0, false);
      TraceIsLater(e', rest, k);
      if SaltAhead(rest, n[..8]) {
        SaltStaysAhead(ops, n[..8]);
      } else {
        var c :| 0 <= c < COUNTER_END && n == NonceOf(e'.salt, c);
        assert n[..8] == ops[0].salt;
      }
    } else if e.rebooting {
      TraceIsLater(e, rest, k);
      SaltStaysAhead(ops, n[..8]);
    } else if k > 0 || Advance(e).rebooting {
      TraceIsLater(Advance(e), rest, if Advance(e).rebooting then k else k - 1);
      if SaltAhead(rest, n[..8]) {
        SaltStaysAhead(ops, n[..8]);
      }
    }
  }

  lemma SaltStaysAhead(ops: seq<Op>, salt: seq<byte>)
    requires ops != [] && SaltAhead(ops[1..], salt)
    ensures SaltAhead(ops, salt)
  {
    var i :| 0 <= i < |ops[1..]| && ops[1..][i].Rekey? && ops[1..][i].salt == salt;
    assert ops[i + 1].Rekey? && ops[i + 1].salt == salt;
  }

  lemma LaterDiffers(e: Epoch, ops: seq<Op>, n: Nonce)
    requires EpochOk(e) && !e.rebooting && OpsOk(ops) && NewSalts(e, ops)
    requires Later(Advance(e), ops, n)
    ensures n != NonceOf(e.salt, e.ctr)
  {
    var now := NonceOf(e.salt, e.ctr);
    assert now[..8] == e.salt;
    if n == now {
      if !SaltAhead(ops, n[..8]) {
        var c :| Advance(e).ctr <= c < COUNTER_END && n == NonceOf(e.salt, c);
        NonceOfInjective(e.salt, e.ctr, e.salt, c);
      }
    }
  }

  lemma NewSaltsTail(e: Epoch, ops: seq<Op>)
    requires ops != [] && NewSalts(e, ops)
    ensures NewSalts(e, ops[1..])
    ensures ops[0].Rekey? ==> NewSalts(Epoch(ops[0].salt, 0, false), ops[1..])
  {
    forall i | 0 <= i < |ops[1..]|
      ensures ops[1..][i] == ops[i + 1]
    {
    }
  }

  /** As long as no salt is drawn twice, no nonce is ever used twice, up to and across every reboot and key change. */
  lemma {:induction false} NoncesDistinct(e: Epoch, ops: seq<Op>)
    requires EpochOk(e) && OpsOk(ops) && NewSalts(e, ops)
    ensures Distinct(Trace(e, ops))
    decreases |ops|
  {
    if ops != [] {
      NewSaltsTail(e, ops);
      var rest := ops[1..];
      if ops[0].Rekey? {
        NoncesDistinct(Epoch(ops[0].salt, 0, false), rest);
      } else if e.rebooting {
        NoncesDistinct(e, rest);
      } else if Advance(e).rebooting {
        assert NewSalts(Advance(e), rest);
        NoncesDistinct(Advance(e), rest);
      } else {
        var tail := Trace(Advance(e), rest);
        assert NewSalts(Advance(e), rest);
        NoncesDistinct(Advance(e), rest);
        forall k | 0 <= k < |tail|
          ensures tail[k] != NonceOf(e.salt, e.ctr)
        {
          TraceIsLater(Advance(e), rest, k);
          LaterDiffers(e, rest, tail[k]);
        }
      }
    }
  }

  /** Salts other than zero keep every nonce from being the one the empty window takes for a replay. */
  ghost predicate NonZeroSalts(e: Epoch, ops: seq<Op>) {
    && e.salt != ZeroNonce(NONCE_SALT_LEN)
    && forall i :: 0 <= i < |ops| && ops[i].Rekey? ==> ops[i].salt != ZeroNonce(NONCE_SALT_LEN)
  }

  lemma SaltNotZero(salt: seq<byte>, ctr: nat)
    requires |salt| == NONCE_SALT_LEN && ctr < COUNTER_END && salt != ZeroNonce(NONCE_SALT_LEN)
    ensures NonceOf(salt, ctr) != ZeroNonce(12)
  {
    assert exists i :: 0 <= i < 8 && salt[i] != ZeroNonce(8)[i];
    var i :| 0 <= i < 8 && salt[i] != ZeroNonce(8)[i];
    assert NonceOf(salt, ctr)[i] == salt[i] && ZeroNonce(12)[i] == 0;
  }

  lemma {:induction false} TraceNonZero(e: Epoch, ops: seq<Op>)
    requires EpochOk(e) && OpsOk(ops) && NonZeroSalts(e, ops)
    ensures forall k :: 0 <= k < |Trace(e, ops)| ==> Trace(e, ops)[k] != ZeroNonce(12)
    decreases |ops|
  {
    if ops != [] {
      var rest := ops[1..];
      assert forall i :: 0 <= i < |rest| ==> rest[i] == ops[i + 1];
      if ops[0].Rekey? {
        TraceNonZero(Epoch(ops[0].salt, 0, false), rest);
      } else if e.rebooting {
        TraceNonZero(e, rest);
      } else {
        SaltNotZero(e.salt, e.ctr);
        TraceNonZero(Advance(e), rest);
      }
    }
  }

  /**
   * Sender and receiver together: a receiver starting empty accepts every nonce of an honest sender
   * exactly when the zero nonce is not among the first `cap` of them.
   */
  lemma HonestSenderAcceptedIff(e: Epoch, ops: seq<Op>, cap: nat)
    requires EpochOk(e) && OpsOk(ops) && NewSalts(e, ops)
    ensures Run([], cap, 12, Trace(e, ops)) == Trace(e, ops) <==> NoEarlyZero(0, cap, 12, Trace(e, ops))
  {
    hide Run, Trace, NoEarlyZero;
    NoncesDistinct(e, ops);
    assert [] + Trace(e, ops) == Trace(e, ops);
    HonestAcceptedIff([], cap, 12, Trace(e, ops));
  }

  /** So it never rejects one when every salt is non-zero. */
  lemma HonestSenderNeverRejected(e: Epoch, ops: seq<Op>, cap: nat)
    requires EpochOk(e) && OpsOk(ops) && NewSalts(e, ops) && NonZeroSalts(e, ops)
    ensures Run([], cap, 12, Trace(e, ops)) == Trace(e, ops)
  {
    hide Run, Trace;
    HonestSenderAcceptedIff(e, ops, cap);
    TraceNonZero(e, ops);
  }

  /** A salt of zeros gives the zero nonce at counter zero, and only there. */
  lemma ZeroNonceIff(salt: seq<byte>, ctr: nat)
    requires |salt| == NONCE_SALT_LEN && ctr < COUNTER_END
    ensures NonceOf(salt, ctr) == ZeroNonce(12) <==> salt == ZeroNonce(NONCE_SALT_LEN) && ctr == 0
  {
    assert NonceOf(ZeroNonce(NONCE_SALT_LEN), 0) == ZeroNonce(12);
    if NonceOf(salt, ctr) == ZeroNonce(12) {
      NonceOfInjective(salt, ctr, ZeroNonce(NONCE_SALT_LEN), 0);
    }
  }

  /** The failing run: a sender that drew the zero salt has its very first message taken for a replay. */
  lemma ZeroSaltRejected(ops: seq<Op>, cap: nat)
    requires OpsOk(ops) && NewSalts(Epoch(ZeroNonce(NONCE_SALT_LEN), 0, false), ops)
    requires ops != [] && ops[0].Draw? && cap >= 1
    ensures var ns := Trace(Epoch(ZeroNonce(NONCE_SALT_LEN), 0, false), ops); Run([], cap, 12, ns) != ns
  {
    var e := Epoch(ZeroNonce(NONCE_SALT_LEN), 0, false);
    TraceHead(e, ops);
    ZeroNonceIff(e.salt, 0);
    HonestSenderAcceptedIff(e, ops, cap);
    hide Trace, Run, NonceOf;
    assert Trace(e, ops)[0] == ZeroNonce(12);
  }
}
