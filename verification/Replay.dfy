/** The receiver's ring of recent nonces, and what it guarantees over a whole run. */
module Replay {
  import opened Bits

  type Nonce = seq<byte>

  const NONCE_HISTORY_SIZE: nat := 64

  function ZeroNonce(size: nat): (n: Nonce)
    ensures |n| == size
  {
    seq(size, _ => 0)
  }

  /** `n` is among the last `cap` accepted nonces, or matches a slot still at its initial zeros. */
  ghost predicate SeenIn(acc: seq<Nonce>, cap: nat, size: nat, n: Nonce) {
    || (exists k :: |acc| - cap <= k && 0 <= k < |acc| && acc[k] == n)
    || (|acc| < cap && n == ZeroNonce(size))
  }

  function NextSlot(idx: nat, cap: nat): nat
    requires cap >= 1
  {
    (idx + 1) % cap
  }

  lemma NextIndex(idx: nat, cap: nat)
    requires idx < cap
    ensures NextSlot(idx, cap) == if idx + 1 == cap then 0 else idx + 1
  {
  }

  class ReplayWindow {
    const nonceSize: nat
    const cap: nat
    const buf: array<Nonce>
    var idx: nat

    ghost var accepted: seq<Nonce>  // every nonce added since the start, oldest first
    ghost var lapped: nat           // how many of them were added before the current lap of the ring

    ghost predicate Valid()
      reads this, buf
    {
      && 1 <= cap == buf.Length && idx < cap
      && |accepted| == lapped + idx && (lapped == 0 || lapped >= cap)
      && (forall i :: 0 <= i < idx ==> buf[i] == accepted[lapped + i])
      && (forall i :: idx <= i < cap ==>
            buf[i] == if lapped == 0 then ZeroNonce(nonceSize) else accepted[lapped - cap + i])
    }

    constructor (nonceSize: nat, cap: nat)
      requires cap >= 1
      ensures Valid() && accepted == [] && fresh(buf)
      ensures this.cap == cap && this.nonceSize == nonceSize
    {
      this.nonceSize, this.cap, idx := nonceSize, cap, 0;
      buf := new Nonce[cap](_ => ZeroNonce(nonceSize));
      accepted, lapped := [], 0;
    }

    method Seen(n: Nonce) returns (r: bool)
      requires Valid()
      ensures r <==> SeenIn(accepted, cap, nonceSize, n)
    {
      for i := 0 to cap
        invariant forall j :: 0 <= j < i ==> buf[j] != n
      {
        if buf[i] == n {
          if i < idx {
            assert accepted[lapped + i] == n;
          } else if lapped > 0 {
            assert accepted[lapped - cap + i] == n;
          }
          return true;
        }
      }
      forall k | |accepted| - cap <= k && 0 <= k < |accepted|
        ensures accepted[k] != n
      {
        if k >= lapped {
          assert buf[k - lapped] == accepted[k];
        } else {
          assert buf[k - lapped + cap] == accepted[k];
        }
      }
      if |accepted| < cap {
        assert buf[idx] == ZeroNonce(nonceSize);
      }
      return false;
    }

    method Add(n: Nonce)
      requires Valid()
      modifies `idx, `accepted, `lapped, buf
      ensures Valid() && accepted == old(accepted) + [n]
    {
      NextIndex(idx, cap);
      hide NextSlot, ZeroNonce;
      buf[idx] := n;
      accepted := accepted + [n];
      idx := NextSlot(idx, cap);
      if idx == 0 {
        lapped := lapped + cap;
      }
    }
  }

  // ---------------------------------------------------------------- whole runs

  /** The accepted nonces after the nonces `ns` arrive in this order. */
  ghost function Run(acc: seq<Nonce>, cap: nat, size: nat, ns: seq<Nonce>): seq<Nonce>
    decreases |ns|
  {
    if ns == [] then acc
    else Run(if SeenIn(acc, cap, size, ns[0]) then acc else acc + [ns[0]], cap, size, ns[1..])
  }

  /** Every nonce was unseen when it was accepted. */
  ghost predicate AllFresh(acc: seq<Nonce>, cap: nat, size: nat) {
    forall j :: 0 <= j < |acc| ==> !SeenIn(acc[..j], cap, size, acc[j])
  }

  lemma {:induction false} RunKeepsFresh(acc: seq<Nonce>, cap: nat, size: nat, ns: seq<Nonce>)
    requires AllFresh(acc, cap, size)
    ensures AllFresh(Run(acc, cap, size, ns), cap, size)
    decreases |ns|
  {
    if ns != [] {
      if SeenIn(acc, cap, size, ns[0]) {
        RunKeepsFresh(acc, cap, size, ns[1..]);
      } else {
        FreshPush(acc, cap, size, ns[0]);
        RunKeepsFresh(acc + [ns[0]], cap, size, ns[1..]);
      }
    }
  }

  lemma FreshPush(acc: seq<Nonce>, cap: nat, size: nat, n: Nonce)
    requires AllFresh(acc, cap, size) && !SeenIn(acc, cap, size, n)
    ensures AllFresh(acc + [n], cap, size)
  {
    var t := acc + [n];
    forall j | 0 <= j < |t|
      ensures !SeenIn(t[..j], cap, size, t[j])
    {
      assert t[..j] == acc[..j];
      assert acc[..|acc|] == acc;
    }
  }

  /**
   * Over any run from an empty window, two acceptances of the same nonce have at least `cap`
   * acceptances between them.
   */
  lemma RepeatsAreFarApart(cap: nat, size: nat, ns: seq<Nonce>, i: nat, j: nat)
    requires i < j < |Run([], cap, size, ns)|
    requires Run([], cap, size, ns)[i] == Run([], cap, size, ns)[j]
    ensures j - i - 1 >= cap
  {
    var acc := Run([], cap, size, ns);
    RunKeepsFresh([], cap, size, ns);
    assert !SeenIn(acc[..j], cap, size, acc[j]);
    assert acc[..j][i] == acc[j];
  }

  /** The zero nonce is not among the first `cap` acceptances. */
  lemma ZeroComesLate(cap: nat, size: nat, ns: seq<Nonce>, j: nat)
    requires j < |Run([], cap, size, ns)| && Run([], cap, size, ns)[j] == ZeroNonce(size)
    ensures j >= cap
  {
    var acc := Run([], cap, size, ns);
    RunKeepsFresh([], cap, size, ns);
    assert !SeenIn(acc[..j], cap, size, acc[j]);
  }

  ghost predicate Distinct(ns: seq<Nonce>) {
    forall i, j :: 0 <= i < j < |ns| ==> ns[i] != ns[j]
  }

  /** A run accepts at most what arrives. */
  lemma {:induction false} RunLength(acc: seq<Nonce>, cap: nat, size: nat, ns: seq<Nonce>)
    ensures |Run(acc, cap, size, ns)| <= |acc| + |ns|
    decreases |ns|
  {
    hide SeenIn;
    if ns != [] {
      RunLength(if SeenIn(acc, cap, size, ns[0]) then acc else acc + [ns[0]], cap, size, ns[1..]);
    }
  }

  /** No zero nonce arrives while a slot is unused. */
  ghost predicate NoEarlyZero(before: nat, cap: nat, size: nat, ns: seq<Nonce>) {
    forall i :: 0 <= i < |ns| && before + i < cap ==> ns[i] != ZeroNonce(size)
  }

  lemma FirstSeenIff(acc: seq<Nonce>, cap: nat, size: nat, ns: seq<Nonce>)
    requires ns != [] && Distinct(acc + ns)
    ensures SeenIn(acc, cap, size, ns[0]) <==> |acc| < cap && ns[0] == ZeroNonce(size)
  {
    var t := acc + ns;
    forall k | 0 <= k < |acc|
      ensures acc[k] != ns[0]
    {
      assert t[k] != t[|acc|];
    }
  }

  lemma NoEarlyZeroTail(before: nat, cap: nat, size: nat, ns: seq<Nonce>)
    requires ns != []
    ensures NoEarlyZero(before, cap, size, ns) <==>
      !(before < cap && ns[0] == ZeroNonce(size)) && NoEarlyZero(before + 1, cap, size, ns[1..])
  {
    if !(before < cap && ns[0] == ZeroNonce(size)) && NoEarlyZero(before + 1, cap, size, ns[1..]) {
      forall i | 0 <= i < |ns| && before + i < cap
        ensures ns[i] != ZeroNonce(size)
      {
        if i > 0 {
          assert ns[1..][i - 1] == ns[i];
        }
      }
    }
  }

  /**
   * A stream of new, pairwise different nonces is accepted whole exactly when no zero nonce comes while a
   * slot is unused.
   */
  lemma {:induction false} HonestAcceptedIff(acc: seq<Nonce>, cap: nat, size: nat, ns: seq<Nonce>)
    requires Distinct(acc + ns)
    ensures Run(acc, cap, size, ns) == acc + ns <==> NoEarlyZero(|acc|, cap, size, ns)
    decreases |ns|
  {
    hide SeenIn, ZeroNonce, Distinct, NoEarlyZero;
    if ns == [] {
      assert acc + ns == acc;
      NoneEarly(|acc|, cap, size);
    } else {
      FirstSeenIff(acc, cap, size, ns);
      NoEarlyZeroTail(|acc|, cap, size, ns);
      if SeenIn(acc, cap, size, ns[0]) {
        RunLength(acc, cap, size, ns[1..]);
      } else {
        assert (acc + [ns[0]]) + ns[1..] == acc + ns;
        HonestAcceptedIff(acc + [ns[0]], cap, size, ns[1..]);
      }
    }
  }

  lemma NoneEarly(before: nat, cap: nat, size: nat)
    ensures NoEarlyZero(before, cap, size, [])
  {
  }

  /** In particular a stream without the zero nonce is never rejected. */
  lemma HonestNeverRejected(acc: seq<Nonce>, cap: nat, size: nat, ns: seq<Nonce>)
    requires Distinct(acc + ns)
    requires forall i :: 0 <= i < |ns| ==> ns[i] != ZeroNonce(size)
    ensures Run(acc, cap, size, ns) == acc + ns
  {
    hide Run;
    HonestAcceptedIff(acc, cap, size, ns);
  }

  /** The one honest nonce a fresh window mistakes for a replay: the all-zero one, while a slot is unused. */
  lemma ZeroRejectedIff(acc: seq<Nonce>, cap: nat, size: nat)
    requires forall k :: 0 <= k < |acc| ==> acc[k] != ZeroNonce(size)
    ensures SeenIn(acc, cap, size, ZeroNonce(size)) <==> |acc| < cap
  {
  }
}
