/** The two session-key slots in flash, written so that losing power at any step leaves a key to load. */
module KeySlots {
  import opened Bits
  import opened Options

  const SST_KEY_ID_SIZE: nat := 8
  const SST_KEY_SIZE: nat := 16
  const HASH_SIZE: nat := 32
  const FLASH_PAGE_SIZE: nat := 256
  const FLASH_KEY_MAGIC: seq<byte> := [0x53, 0x53, 0x45, 0x53]  // 0x53455353, little-endian
  const BLOCK_SIZE: nat := 60                                   // sizeof(key_flash_block_t)

  datatype Pair = Pair(id: seq<byte>, key: seq<byte>)

  predicate PairOk(p: Pair) {
    |p.id| == SST_KEY_ID_SIZE && |p.key| == SST_KEY_SIZE
  }

  type Hash = seq<byte> -> seq<byte>

  ghost predicate HashOk(hash: Hash) {
    forall s :: |hash(s)| == HASH_SIZE
  }

  /** The page write_key_to_slot stages. */
  function Page(hash: Hash, p: Pair): seq<byte> {
    p.id + p.key + hash(p.id + p.key) + FLASH_KEY_MAGIC + Zeros(FLASH_PAGE_SIZE - BLOCK_SIZE)
  }

  /** read_key_from_slot, with validate_flash_block: magic first, then the hash of id and key. */
  function ReadSlot(hash: Hash, slot: seq<byte>): (r: Option<Pair>)
    requires |slot| == FLASH_PAGE_SIZE
    ensures r.Some? ==> PairOk(r.value)
  {
    if slot[56..60] != FLASH_KEY_MAGIC then None
    else if slot[24..56] != hash(slot[..8] + slot[8..24]) then None
    else Some(Pair(slot[..8], slot[8..24]))
  }

  function Erased(n: nat): (s: seq<byte>)
    ensures |s| == n && forall i :: 0 <= i < n ==> s[i] == 0xFF
  {
    seq(n, _ => 0xFF)
  }

  /** The slot after an erase and `steps` programmed bytes. */
  function Torn(page: seq<byte>, steps: nat): (s: seq<byte>)
    requires |page| == FLASH_PAGE_SIZE
    ensures |s| == FLASH_PAGE_SIZE
  {
    var k := Min(steps, FLASH_PAGE_SIZE);
    page[..k] + Erased(FLASH_PAGE_SIZE - k)
  }

  lemma PageSize(hash: Hash, p: Pair)
    requires HashOk(hash) && PairOk(p)
    ensures |Page(hash, p)| == FLASH_PAGE_SIZE
    ensures ReadSlot(hash, Page(hash, p)) == Some(p)
  {
    var page := Page(hash, p);
    assert |hash(p.id + p.key)| == HASH_SIZE;
    assert page[..8] == p.id && page[8..24] == p.key;
    assert page[24..56] == hash(p.id + p.key) && page[56..60] == FLASH_KEY_MAGIC;
  }

  /** The block as the flash holds it: id, key, the hash of both, the magic number 0x53455353 low byte first, zeros. */
  lemma PageLayout(hash: Hash, p: Pair)
    requires HashOk(hash) && PairOk(p)
    ensures var page := Page(hash, p);
      && |page| == 256 && page[..8] == p.id && page[8..24] == p.key && page[24..56] == hash(p.id + p.key)
      && page[56..60] == [0x53, 0x53, 0x45, 0x53]
      && forall i :: 60 <= i < 256 ==> page[i] == 0
  {
    PageSize(hash, p);
    var page := Page(hash, p);
    assert |hash(p.id + p.key)| == HASH_SIZE;
    assert page[..8] == p.id && page[8..24] == p.key;
    assert page[24..56] == hash(p.id + p.key) && page[56..60] == FLASH_KEY_MAGIC;
  }

  /** A slot holds the block of a pair, whatever follows it. */
  predicate HoldsBlock(hash: Hash, slot: seq<byte>, p: Pair)
    requires |slot| == FLASH_PAGE_SIZE && |Page(hash, p)| == FLASH_PAGE_SIZE
  {
    slot[..BLOCK_SIZE] == Page(hash, p)[..BLOCK_SIZE]
  }

  lemma FourParts(s: seq<byte>, t: seq<byte>)
    requires |s| >= 60 && |t| >= 60
    ensures s[..60] == t[..60] <==>
      s[..8] == t[..8] && s[8..24] == t[8..24] && s[24..56] == t[24..56] && s[56..60] == t[56..60]
  {
    if s[..60] == t[..60] {
      assert s[..8] == s[..60][..8] && s[8..24] == s[..60][8..24] && s[24..56] == s[..60][24..56];
      assert t[..8] == t[..60][..8] && t[8..24] == t[..60][8..24] && t[24..56] == t[..60][24..56];
      assert s[56..60] == s[..60][56..60] && t[56..60] == t[..60][56..60];
    }
    assert s[..60] == s[..8] + s[8..24] + s[24..56] + s[56..60];
    assert t[..60] == t[..8] + t[8..24] + t[24..56] + t[56..60];
  }

  /**
   * A slot reads as a pair exactly when it holds the whole block that is written for that pair: with
   * any bit of the key, the id, the hash or the magic number changed it is another pair's block or none.
   */
  lemma ReadSlotIff(hash: Hash, slot: seq<byte>, p: Pair)
    requires HashOk(hash) && |slot| == FLASH_PAGE_SIZE && PairOk(p)
    ensures |Page(hash, p)| == FLASH_PAGE_SIZE
    ensures ReadSlot(hash, slot) == Some(p) <==> HoldsBlock(hash, slot, p)
  {
    PageLayout(hash, p);
    hide Page;
    FourParts(slot, Page(hash, p));
  }

  /** A write cut short is seen as no key until the whole block is there, and as the new key from then on. */
  lemma TornReads(hash: Hash, p: Pair, steps: nat)
    requires HashOk(hash) && PairOk(p) && |Page(hash, p)| == FLASH_PAGE_SIZE
    ensures ReadSlot(hash, Torn(Page(hash, p), steps)) == if steps < BLOCK_SIZE then None else Some(p)
  {
    var page := Page(hash, p);
    PageSize(hash, p);
    hide Page;
    var t := Torn(page, steps);
    if steps < BLOCK_SIZE {
      assert t[59] == 0xFF;
      assert t[56..60][3] == t[59];
    } else {
      assert t[..8] == page[..8] && t[8..24] == page[8..24] && t[24..56] == page[24..56] && t[56..60] == page[56..60];
    }
  }

  // ---------------------------------------------------------------- the flash as a value

  datatype Flash = Flash(a: seq<byte>, b: seq<byte>)

  predicate FlashOk(f: Flash) {
    |f.a| == FLASH_PAGE_SIZE && |f.b| == FLASH_PAGE_SIZE
  }

  /** load_session_key: slot B first. */
  function Load(hash: Hash, f: Flash): Option<Pair>
    requires FlashOk(f)
  {
    if ReadSlot(hash, f.b).Some? then ReadSlot(hash, f.b) else ReadSlot(hash, f.a)
  }

  /** The slot a write leaves when power lasts for `power` flash steps: the erase, then one per byte. */
  function Written(hash: Hash, slot: seq<byte>, p: Pair, power: nat): seq<byte>
    requires HashOk(hash) && PairOk(p)
    ensures |slot| == FLASH_PAGE_SIZE ==> |Written(hash, slot, p, power)| == FLASH_PAGE_SIZE
  {
    PageSize(hash, p);
    if power == 0 then slot else Torn(Page(hash, p), power - 1)
  }

  /** store_session_key: into B when A holds a key, into A otherwise. */
  function Stored(hash: Hash, f: Flash, p: Pair, power: nat): Flash
    requires FlashOk(f) && HashOk(hash) && PairOk(p)
    ensures FlashOk(Stored(hash, f, p, power))
  {
    if ReadSlot(hash, f.a).Some? then f.(b := Written(hash, f.b, p, power))
    else f.(a := Written(hash, f.a, p, power))
  }

  const WRITE_STEPS: nat := 1 + FLASH_PAGE_SIZE

  /** Wherever a store is cut off, a flash with a key in it still has one, and it is an old one or the new one. */
  lemma StoreNeverLosesTheKey(hash: Hash, f: Flash, p: Pair, power: nat)
    requires HashOk(hash) && PairOk(p) && FlashOk(f)
    ensures var g := Stored(hash, f, p, power);
      && (Load(hash, f).Some? ==> Load(hash, g).Some?)
      && (Load(hash, g).Some? ==>
            Load(hash, g) == Some(p) || Load(hash, g) == ReadSlot(hash, f.a) || Load(hash, g) == ReadSlot(hash, f.b))
  {
    hide Page, ReadSlot, Torn;
    PageSize(hash, p);
    if power > 0 {
      TornReads(hash, p, power - 1);
    }
  }

  /** No pair's block is in the slot. */
  ghost predicate HoldsNone(hash: Hash, slot: seq<byte>)
    requires HashOk(hash) && |slot| == FLASH_PAGE_SIZE
  {
    forall p :: PairOk(p) ==> (PageSize(hash, p); !HoldsBlock(hash, slot, p))
  }

  lemma HoldsNoneIff(hash: Hash, slot: seq<byte>)
    requires HashOk(hash) && |slot| == FLASH_PAGE_SIZE
    ensures ReadSlot(hash, slot).None? <==> HoldsNone(hash, slot)
  {
    hide Page, ReadSlot, HoldsBlock;
    forall p | PairOk(p)
      ensures |Page(hash, p)| == FLASH_PAGE_SIZE && (ReadSlot(hash, slot) == Some(p) <==> HoldsBlock(hash, slot, p))
    {
      ReadSlotIff(hash, slot, p);
    }
  }

  /** Loading gives exactly the pair whose block is in slot B, or, when B holds none, the one whose block is in A. */
  lemma LoadIff(hash: Hash, f: Flash, p: Pair)
    requires HashOk(hash) && FlashOk(f) && PairOk(p)
    ensures |Page(hash, p)| == FLASH_PAGE_SIZE
    ensures Load(hash, f) == Some(p) <==>
      HoldsBlock(hash, f.b, p) || (HoldsNone(hash, f.b) && HoldsBlock(hash, f.a, p))
  {
    hide Page, ReadSlot, HoldsBlock, HoldsNone;
    ReadSlotIff(hash, f.a, p);
    ReadSlotIff(hash, f.b, p);
    HoldsNoneIff(hash, f.b);
  }

  /** What a slot reads as after a write: unchanged, empty while the block is incomplete, then the new pair. */
  function AfterWrite(slot: Option<Pair>, p: Pair, power: nat): Option<Pair> {
    if power == 0 then slot else if power <= BLOCK_SIZE then None else Some(p)
  }

  lemma WrittenReads(hash: Hash, slot: seq<byte>, p: Pair, power: nat)
    requires HashOk(hash) && PairOk(p) && |slot| == FLASH_PAGE_SIZE
    ensures ReadSlot(hash, Written(hash, slot, p, power)) == AfterWrite(ReadSlot(hash, slot), p, power)
  {
    hide Page, ReadSlot, Torn;
    PageSize(hash, p);
    if power > 0 {
      TornReads(hash, p, power - 1);
    }
  }

  /**
   * After a store that ran to its end, loading gives the stored pair exactly when slot A held a key
   * or slot B held none or that very pair; otherwise slot B's older pair hides the new one.
   */
  lemma LoadAfterStoreIff(hash: Hash, f: Flash, p: Pair, power: nat)
    requires HashOk(hash) && PairOk(p) && FlashOk(f) && power >= WRITE_STEPS
    ensures Load(hash, Stored(hash, f, p, power)) == Some(p) <==>
      ReadSlot(hash, f.a).Some? || ReadSlot(hash, f.b).None? || ReadSlot(hash, f.b) == Some(p)
    ensures ReadSlot(hash, f.a).None? && ReadSlot(hash, f.b).Some? ==>
      Load(hash, Stored(hash, f, p, power)) == ReadSlot(hash, f.b)
  {
    hide Page, ReadSlot, Torn;
    PageSize(hash, p);
    TornReads(hash, p, power - 1);
  }

  // ---------------------------------------------------------------- whole runs

  /** Every operation that writes comes with the flash steps after which power fails. */
  datatype Op =
    | Store(p: Pair, power: nat)                 // store_session_key
    | WriteSlot(inA: bool, p: Pair, power: nat)  // pico_write_key_to_slot
    | ClearA
    | ClearB

  ghost predicate OpsOk(ops: seq<Op>) {
    forall i :: 0 <= i < |ops| ==> OpOk(ops[i])
  }

  predicate OpOk(op: Op) {
    op.Store? || op.WriteSlot? ==> PairOk(op.p)
  }

  ghost function NextFlash(hash: Hash, f: Flash, op: Op): (g: Flash)
    requires FlashOk(f) && HashOk(hash) && OpOk(op)
    ensures FlashOk(g)
  {
    match op
    case Store(p, power) => Stored(hash, f, p, power)
    case WriteSlot(inA, p, power) =>
      if inA then f.(a := Written(hash, f.a, p, power)) else f.(b := Written(hash, f.b, p, power))
    case ClearA => f.(a := Erased(FLASH_PAGE_SIZE))
    case ClearB => f.(b := Erased(FLASH_PAGE_SIZE))
  }

  ghost function Run(hash: Hash, f: Flash, ops: seq<Op>): (g: Flash)
    requires FlashOk(f) && HashOk(hash) && OpsOk(ops)
    ensures FlashOk(g)
    decreases |ops|
  {
    if ops == [] then f else Run(hash, NextFlash(hash, f, ops[0]), ops[1..])
  }

  lemma ErasedReads(hash: Hash)
    ensures ReadSlot(hash, Erased(FLASH_PAGE_SIZE)) == None
  {
    assert Erased(FLASH_PAGE_SIZE)[56..60][0] == 0xFF;
  }

  // ---------------------------------------------------------------- what the slots read as

  /** The two slots as their readers see them. */
  datatype Slots = Slots(a: Option<Pair>, b: Option<Pair>)

  function Reads(hash: Hash, f: Flash): Slots
    requires FlashOk(f)
  {
    Slots(ReadSlot(hash, f.a), ReadSlot(hash, f.b))
  }

  function NextSlots(s: Slots, op: Op): Slots {
    match op
    case Store(p, power) =>
      if s.a.Some? then s.(b := AfterWrite(s.b, p, power)) else s.(a := AfterWrite(s.a, p, power))
    case WriteSlot(inA, p, power) =>
      if inA then s.(a := AfterWrite(s.a, p, power)) else s.(b := AfterWrite(s.b, p, power))
    case ClearA => s.(a := None)
    case ClearB => s.(b := None)
  }

  function RunSlots(s: Slots, ops: seq<Op>): Slots
    decreases |ops|
  {
    if ops == [] then s else RunSlots(NextSlots(s, ops[0]), ops[1..])
  }

  lemma NextReads(hash: Hash, f: Flash, op: Op)
    requires FlashOk(f) && HashOk(hash) && OpOk(op)
    ensures Reads(hash, NextFlash(hash, f, op)) == NextSlots(Reads(hash, f), op)
  {
    hide ReadSlot, Written, AfterWrite, Erased;
    ErasedReads(hash);
    if op.Store? || op.WriteSlot? {
      WrittenReads(hash, f.a, op.p, op.power);
      WrittenReads(hash, f.b, op.p, op.power);
    }
  }

  /** Over any run, cut off by power failures or not, the slots read as the operations alone say. */
  lemma {:induction false} RunReads(hash: Hash, f: Flash, ops: seq<Op>)
    requires FlashOk(f) && HashOk(hash) && OpsOk(ops)
    ensures Reads(hash, Run(hash, f, ops)) == RunSlots(Reads(hash, f), ops)
    decreases |ops|
  {
    hide Reads, NextFlash, NextSlots, OpOk;
    if ops != [] {
      assert forall i :: 0 <= i < |ops[1..]| ==> ops[1..][i] == ops[i + 1];
      NextReads(hash, f, ops[0]);
      RunReads(hash, NextFlash(hash, f, ops[0]), ops[1..]);
    }
  }

  /** The pairs whose write got as far as the end of the block. */
  ghost function StoredPairs(ops: seq<Op>): set<Pair> {
    set i | 0 <= i < |ops| && (ops[i].Store? || ops[i].WriteSlot?) && ops[i].power > BLOCK_SIZE :: ops[i].p
  }

  /** A slot holds nothing, or a pair of `known`. */
  ghost predicate Holds(slot: Option<Pair>, known: set<Pair>) {
    slot.None? || slot.value in known
  }

  lemma {:induction false} SlotsOnlyKnown(s: Slots, ops: seq<Op>, known: set<Pair>)
    requires Holds(s.a, known) && Holds(s.b, known) && StoredPairs(ops) <= known
    ensures Holds(RunSlots(s, ops).a, known) && Holds(RunSlots(s, ops).b, known)
    decreases |ops|
  {
    if ops != [] {
      var rest := ops[1..];
      assert forall i :: 0 <= i < |rest| ==> rest[i] == ops[i + 1];
      assert (ops[0].Store? || ops[0].WriteSlot?) && ops[0].power > BLOCK_SIZE ==> ops[0].p in StoredPairs(ops);
      SlotsOnlyKnown(NextSlots(s, ops[0]), rest, known);
    }
  }

  /**
   * Over any run, with power failing at any flash step of any operation, what is loaded is a pair
   * that was in flash at the start or one whose whole block was written.
   */
  lemma LoadsOnlyKnownPairs(hash: Hash, f: Flash, ops: seq<Op>, known: set<Pair>)
    requires FlashOk(f) && HashOk(hash) && OpsOk(ops)
    requires Holds(ReadSlot(hash, f.a), known) && Holds(ReadSlot(hash, f.b), known) && StoredPairs(ops) <= known
    ensures Load(hash, Run(hash, f, ops)).Some? ==> Load(hash, Run(hash, f, ops)).value in known
  {
    hide ReadSlot, Run, RunSlots, StoredPairs;
    RunReads(hash, f, ops);
    SlotsOnlyKnown(Reads(hash, f), ops, known);
  }

  /** A store that completes after any run is loaded back exactly when the operations of the run left room for it. */
  lemma StoreAfterRunIff(hash: Hash, f: Flash, ops: seq<Op>, p: Pair, power: nat)
    requires FlashOk(f) && HashOk(hash) && OpsOk(ops) && PairOk(p) && power >= WRITE_STEPS
    ensures var s := RunSlots(Reads(hash, f), ops);
      Load(hash, Stored(hash, Run(hash, f, ops), p, power)) == Some(p) <==>
        s.a.Some? || s.b.None? || s.b == Some(p)
  {
    hide ReadSlot, Run, RunSlots, Load, Stored;
    RunReads(hash, f, ops);
    LoadAfterStoreIff(hash, Run(hash, f, ops), p, power);
  }

  /** Unlike a store, a direct write can lose the last key: exactly when it is cut short and the other slot is empty. */
  lemma DirectWriteLosesIff(hash: Hash, f: Flash, inA: bool, p: Pair, power: nat)
    requires FlashOk(f) && HashOk(hash) && PairOk(p) && Load(hash, f).Some?
    ensures Load(hash, NextFlash(hash, f, WriteSlot(inA, p, power))).None? <==>
      1 <= power <= BLOCK_SIZE && (if inA then ReadSlot(hash, f.b) else ReadSlot(hash, f.a)).None?
  {
    hide ReadSlot, Written, NextFlash;
    NextReads(hash, f, WriteSlot(inA, p, power));
  }

  // ---------------------------------------------------------------- the order in which slots fill

  /** Slot B is used only behind slot A. */
  predicate InOrder(s: Slots) {
    s.b.Some? ==> s.a.Some?
  }

  /** Emptying slot A, by a clear or a direct write cut short, with a key in B; or a direct write to B alone. */
  predicate BreaksOrder(s: Slots, op: Op) {
    match op
    case Store(_, _) => false
    case WriteSlot(inA, _, power) =>
      if inA then s.b.Some? && 1 <= power <= BLOCK_SIZE else s.a.None? && power > BLOCK_SIZE
    case ClearA => s.b.Some?
    case ClearB => false
  }

  predicate KeepsOrder(s: Slots, ops: seq<Op>)
    decreases |ops|
  {
    ops == [] || (!BreaksOrder(s, ops[0]) && KeepsOrder(NextSlots(s, ops[0]), ops[1..]))
  }

  /** Stores never disturb the order, whenever power fails; the other operations do exactly in these cases. */
  lemma OrderKeptIff(s: Slots, op: Op)
    requires InOrder(s)
    ensures InOrder(NextSlots(s, op)) <==> !BreaksOrder(s, op)
  {
  }

  lemma {:induction false} OrderKept(s: Slots, ops: seq<Op>)
    requires InOrder(s) && KeepsOrder(s, ops)
    ensures InOrder(RunSlots(s, ops))
    decreases |ops|
  {
    hide InOrder, BreaksOrder, NextSlots;
    if ops != [] {
      OrderKeptIff(s, ops[0]);
      OrderKept(NextSlots(s, ops[0]), ops[1..]);
    }
  }

  /** As long as nothing breaks the order, the next store that completes is the one that is loaded. */
  lemma NextStoreIsLoaded(hash: Hash, f: Flash, ops: seq<Op>, p: Pair, power: nat)
    requires FlashOk(f) && HashOk(hash) && OpsOk(ops) && PairOk(p) && power >= WRITE_STEPS
    requires InOrder(Reads(hash, f)) && KeepsOrder(Reads(hash, f), ops)
    ensures Load(hash, Stored(hash, Run(hash, f, ops), p, power)) == Some(p)
  {
    hide Reads, Run, RunSlots, Load, Stored, KeepsOrder;
    OrderKept(Reads(hash, f), ops);
    StoreAfterRunIff(hash, f, ops, p, power);
  }

  /** Slot A is lost: cleared, or overwritten directly with the write cut short. */
  predicate LosesA(op: Op) {
    op.ClearA? || (op.WriteSlot? && op.inA && PairOk(op.p) && 1 <= op.power <= BLOCK_SIZE)
  }

  lemma FirstOp(s: Slots, op: Op, rest: seq<Op>)
    ensures RunSlots(s, [op] + rest) == RunSlots(NextSlots(s, op), rest)
  {
    hide NextSlots;
    assert ([op] + rest)[1..] == rest;
  }

  lemma ThreeOps(s: Slots, a: Op, b: Op, c: Op)
    ensures RunSlots(s, [a, b, c]) == NextSlots(NextSlots(NextSlots(s, a), b), c)
  {
    var s1 := NextSlots(s, a);
    var s2 := NextSlots(s1, b);
    FirstOp(s, a, [b, c]);
    FirstOp(s1, b, [c]);
    FirstOp(s2, c, []);
    assert [a, b, c] == [a] + [b, c] && [b, c] == [b] + [c] && [c] == [c] + [];
    assert RunSlots(NextSlots(s2, c), []) == NextSlots(s2, c);
  }

  /**
   * The failing run: two stores into an empty flash, slot A lost, then a complete store of another pair: it
   * is hidden.
   */
  lemma OlderPairHidesNewer(hash: Hash, p: Pair, q: Pair, r: Pair, lose: Op, power: nat)
    requires HashOk(hash) && PairOk(p) && PairOk(q) && PairOk(r) && q != r
    requires LosesA(lose) && power >= WRITE_STEPS
    ensures var empty := Flash(Erased(FLASH_PAGE_SIZE), Erased(FLASH_PAGE_SIZE));
      var ops := [Store(p, power), Store(q, power), lose];
      && OpsOk(ops)
      && Load(hash, Stored(hash, Run(hash, empty, ops), r, power)) == Some(q) != Some(r)
  {
    var empty := Flash(Erased(FLASH_PAGE_SIZE), Erased(FLASH_PAGE_SIZE));
    var ops := [Store(p, power), Store(q, power), lose];
    hide ReadSlot, Run, RunSlots, Erased, Stored, Load, Page;
    ErasedReads(hash);
    RunReads(hash, empty, ops);
    ThreeOps(Reads(hash, empty), ops[0], ops[1], ops[2]);
    LoadAfterStoreIff(hash, Run(hash, empty, ops), r, power);
  }

  // ---------------------------------------------------------------- the flash the code drives

  class KeyFlash {
    const hash: Hash
    var slotA: seq<byte>
    var slotB: seq<byte>
    var power: nat  // flash steps until power fails; none happens after that

    ghost predicate Valid()
      reads this
    {
      HashOk(hash) && FlashOk(Contents())
    }

    ghost function Contents(): Flash
      reads this
    {
      Flash(slotA, slotB)
    }

    /** flash_range_erase. */
    method Erase(a: bool)
      requires Valid()
      modifies this
      ensures Valid() && power == if old(power) == 0 then 0 else old(power) - 1
      ensures slotA == if a && old(power) > 0 then Erased(FLASH_PAGE_SIZE) else old(slotA)
      ensures slotB == if !a && old(power) > 0 then Erased(FLASH_PAGE_SIZE) else old(slotB)
    {
      if power > 0 {
        power := power - 1;
        if a {
          slotA := Erased(FLASH_PAGE_SIZE);
        } else {
          slotB := Erased(FLASH_PAGE_SIZE);
        }
      }
    }

    /** flash_range_program on an erased slot, byte by byte. */
    method Program(a: bool, page: seq<byte>)
      requires Valid() && |page| == FLASH_PAGE_SIZE
      requires power > 0 ==> (if a then slotA else slotB) == Erased(FLASH_PAGE_SIZE)
      modifies this
      ensures Valid()
      ensures slotA == if a && old(power) > 0 then Torn(page, old(power)) else old(slotA)
      ensures slotB == if !a && old(power) > 0 then Torn(page, old(power)) else old(slotB)
    {
      hide Torn, HashOk;
      ghost var budget := power;
      TornNone(page);
      for k := 0 to FLASH_PAGE_SIZE
        invariant Valid() && power == if budget < k then 0 else budget - k
        invariant slotA == if a && budget > 0 then Torn(page, Min(k, budget)) else old(slotA)
        invariant slotB == if !a && budget > 0 then Torn(page, Min(k, budget)) else old(slotB)
      {
        if power > 0 {
          TornGrows(page, k);
          ProgramByte(a, k, page[k]);
        }
      }
      TornFull(page, budget);
    }

    method ProgramByte(a: bool, k: nat, b: byte)
      requires Valid() && power > 0 && k < FLASH_PAGE_SIZE
      modifies this
      ensures Valid() && power == old(power) - 1
      ensures slotA == if a then old(slotA)[k := b] else old(slotA)
      ensures slotB == if !a then old(slotB)[k := b] else old(slotB)
    {
      hide HashOk;
      power := power - 1;
      if a {
        slotA := slotA[k := b];
      } else {
        slotB := slotB[k := b];
      }
    }

    method WriteKeyToSlot(a: bool, p: Pair)
      requires Valid() && PairOk(p)
      modifies this
      ensures Valid()
      ensures slotA == if a then Written(hash, old(slotA), p, old(power)) else old(slotA)
      ensures slotB == if !a then Written(hash, old(slotB), p, old(power)) else old(slotB)
    {
      hide Page;
      PageSize(hash, p);
      var page := Page(hash, p);
      TornNone(page);
      Erase(a);
      Program(a, page);
    }

    method LoadSessionKey() returns (r: Option<Pair>)
      requires Valid()
      ensures r == Load(hash, Contents())
      ensures r.None? <==> HoldsNone(hash, slotA) && HoldsNone(hash, slotB)
    {
      HoldsNoneIff(hash, slotA);
      HoldsNoneIff(hash, slotB);
      hide ReadSlot, HoldsNone;
      r := ReadSlot(hash, slotB);
      if r.None? {
        r := ReadSlot(hash, slotA);
      }
    }

    method StoreSessionKey(p: Pair)
      requires Valid() && PairOk(p)
      modifies this
      ensures Valid() && Contents() == Stored(hash, old(Contents()), p, old(power))
      ensures if HoldsNone(hash, old(slotA)) then slotB == old(slotB) else slotA == old(slotA)
    {
      HoldsNoneIff(hash, slotA);
      hide ReadSlot, Written, HoldsNone;
      var aValid := ReadSlot(hash, slotA).Some?;
      if aValid {
        WriteKeyToSlot(false, p);
      } else {
        WriteKeyToSlot(true, p);
      }
    }

    /** pico_clear_slot. */
    method ClearSlot(a: bool)
      requires Valid()
      modifies this
      ensures Valid()
      ensures Contents() == if old(power) == 0 then old(Contents())
        else if a then old(Contents()).(a := Erased(FLASH_PAGE_SIZE))
        else old(Contents()).(b := Erased(FLASH_PAGE_SIZE))
    {
      Erase(a);
    }
  }

  lemma TornGrows(page: seq<byte>, k: nat)
    requires |page| == FLASH_PAGE_SIZE && k < FLASH_PAGE_SIZE
    ensures Torn(page, k)[k := page[k]] == Torn(page, k + 1)
  {
  }

  lemma TornFull(page: seq<byte>, steps: nat)
    requires |page| == FLASH_PAGE_SIZE
    ensures Torn(page, Min(FLASH_PAGE_SIZE, steps)) == Torn(page, steps)
  {
  }

  lemma TornNone(page: seq<byte>)
    requires |page| == FLASH_PAGE_SIZE
    ensures Torn(page, 0) == Erased(FLASH_PAGE_SIZE)
  {
  }
}
