/**
 Slab classes, block ids, and one arena: a bump pointer, a free list and a wrapping live counter.

 `held` stands for the block ids that callers were given and have not returned.
 */
module SlabArenas {
  import opened Machine

  datatype SlabClass = AppSmall | AppMedium | AppLarge | Tensor64KB | Tensor256KB | Tensor2MB

  predicate IsTensor(c: SlabClass) {
    c.Tensor64KB? || c.Tensor256KB? || c.Tensor2MB?
  }

  function ClassIndex(c: SlabClass): (i: nat)
    ensures i < 6
  {
    match c
    case AppSmall => 0
    case AppMedium => 1
    case AppLarge => 2
    case Tensor64KB => 3
    case Tensor256KB => 4
    case Tensor2MB => 5
  }

  lemma ClassIndexInjective(a: SlabClass, b: SlabClass)
    requires ClassIndex(a) == ClassIndex(b)
    ensures a == b
  {
    match a
    case AppSmall =>
    case AppMedium =>
    case AppLarge =>
    case Tensor64KB =>
    case Tensor256KB =>
    case Tensor2MB =>
  }

  const MEGASLAB_BYTES: nat := 2 * 1024 * 1024

  const HEADER_BYTES: nat := 64

  const MEGASLAB_PAYLOAD: nat := MEGASLAB_BYTES - HEADER_BYTES

  function SlotBytes(c: SlabClass): nat {
    match c
    case AppSmall => 128
    case AppMedium => 512
    case AppLarge => 4096
    case Tensor64KB => 65536
    case Tensor256KB => 262144
    case Tensor2MB => 2097152
  }

  function Slots(c: SlabClass): (n: nat)
    ensures 0 < n < 65536
  {
    if c.Tensor2MB? then 1 else MEGASLAB_PAYLOAD / SlotBytes(c)
  }

  /** The slots of each class, and the one class whose slot runs past the end of its megaslab. */
  lemma SlotCounts(c: SlabClass)
    ensures Slots(AppSmall) == 16383 && Slots(AppMedium) == 4095 && Slots(AppLarge) == 511
    ensures Slots(Tensor64KB) == 31 && Slots(Tensor256KB) == 7 && Slots(Tensor2MB) == 1
    ensures HEADER_BYTES + Slots(c) * SlotBytes(c) <= MEGASLAB_BYTES <==> !c.Tensor2MB?
  {
  }

  // ---- Block ids ----

  /** A block id is a slab id and a slot index within the slab. */
  datatype BlockId = Block(slab: nat, slot: nat)

  /** As a `u32`: slab id in the upper half-word, slot index in the lower. */
  function Pack(id: BlockId): nat {
    id.slab * 65536 + id.slot
  }

  function Unpack(n: nat): BlockId {
    Block(n / 65536, n % 65536)
  }

  /** On half-words the packing loses nothing and misses nothing. */
  lemma PackRoundTrip(id: BlockId, n: nat)
    requires id.slab < 65536 && id.slot < 65536 && n < 0x1_0000_0000
    ensures Pack(id) < 0x1_0000_0000 && Unpack(Pack(id)) == id
    ensures Pack(Unpack(n)) == n && Unpack(n).slab < 65536 && Unpack(n).slot < 65536
  {
  }

  // ---- One arena ----

  datatype Arena = Arena(slabId: nat, kind: SlabClass, next: nat, free: seq<nat>, cursor: nat, live: nat)

  const MAX_GLOBAL_SLABS: nat := 16384

  ghost predicate ArenaOk(a: Arena) {
    && a.slabId < MAX_GLOBAL_SLABS && a.next <= Slots(a.kind) && a.cursor < Slots(a.kind)
    && (forall k :: 0 <= k < |a.free| ==> a.free[k] < 65536)
    && a.live < 0x1_0000_0000
  }

  predicate IsFull(a: Arena) {
    a.next >= Slots(a.kind) && a.free == []
  }

  function NewArena(slabId: nat, kind: SlabClass): Arena {
    Arena(slabId, kind, 0, [], 0, 0)
  }

  ghost predicate SameArena(a: Arena, a': Arena) {
    a'.slabId == a.slabId && a'.kind == a.kind && ArenaOk(a')
  }

  /** `allocate` of an arena: the most recently freed slot, else the next untouched one. */
  function ArenaAllocate(a: Arena): (r: (Arena, BlockId))
    requires ArenaOk(a) && !IsFull(a)
    ensures SameArena(a, r.0) && r.1.slab == a.slabId && r.1.slot < 65536
  {
    var live := if a.live == 0xFFFF_FFFF then 0 else a.live + 1;
    if a.free != [] then
      var n := |a.free| - 1;
      (a.(free := a.free[..n], live := live), Block(a.slabId, a.free[n]))
    else
      (a.(next := a.next + 1, live := live), Block(a.slabId, a.next))
  }

  /** `deallocate` of the arena that owns the id. */
  function ArenaFree(a: Arena, id: BlockId): (a': Arena)
    requires ArenaOk(a) && id.slot < 65536
    ensures SameArena(a, a') && !IsFull(a')
  {
    a.(free := a.free + [id.slot], live := if a.live == 0 then 0xFFFF_FFFF else a.live - 1)
  }

  /** `recycle_slot`: hand out the slot under the ring cursor, whoever holds it. */
  function ArenaRecycle(a: Arena): (r: (Arena, BlockId))
    requires ArenaOk(a)
    ensures SameArena(a, r.0) && r.1.slab == a.slabId && r.1.slot < 65536
  {
    (a.(cursor := if a.cursor + 1 >= Slots(a.kind) then 0 else a.cursor + 1), Block(a.slabId, a.cursor))
  }

  /** The arena and the ids handed out after `n` recycles in a row. */
  ghost function Recycles(a: Arena, n: nat): (r: (Arena, seq<BlockId>))
    requires ArenaOk(a)
    ensures SameArena(a, r.0) && |r.1| == n
  {
    if n == 0 then (a, [])
    else
      var (before, ids) := Recycles(a, n - 1);
      (ArenaRecycle(before).0, ids + [ArenaRecycle(before).1])
  }

  /** The ring goes on from the cursor and wraps round once. */
  lemma {:induction false} RecyclesRing(a: Arena, n: nat)
    requires ArenaOk(a) && n <= Slots(a.kind)
    ensures var (after, ids) := Recycles(a, n);
            && after == a.(cursor := if a.cursor + n < Slots(a.kind) then a.cursor + n
                                     else a.cursor + n - Slots(a.kind))
            && forall i :: 0 <= i < n ==>
                 ids[i] == Block(a.slabId, if a.cursor + i < Slots(a.kind) then a.cursor + i
                                           else a.cursor + i - Slots(a.kind))
  {
    if n > 0 {
      RecyclesRing(a, n - 1);
    }
  }

  /** As many recycles as there are slots hand out every slot once and leave the arena as it was. */
  lemma RecyclesEverySlot(a: Arena)
    requires ArenaOk(a)
    ensures var (after, ids) := Recycles(a, Slots(a.kind));
            && after == a && |ids| == Slots(a.kind)
            && (forall i, j :: 0 <= i < j < |ids| ==> ids[i] != ids[j])
            && forall slot: nat :: slot < Slots(a.kind) ==> Block(a.slabId, slot) in ids
  {
    var n, ids := Slots(a.kind), Recycles(a, Slots(a.kind)).1;
    RecyclesRing(a, n);
    forall slot: nat | slot < n
      ensures Block(a.slabId, slot) in ids
    {
      assert ids[if slot >= a.cursor then slot - a.cursor else slot + n - a.cursor] == Block(a.slabId, slot);
    }
  }

  // ---- Exactness ----

  /** Each slot below `next` is either held or on the free list, once, and no other slot of the slab is held. */
  ghost predicate Split(slab: nat, next: nat, free: seq<nat>, held: set<BlockId>) {
    && (forall k :: 0 <= k < |free| ==> free[k] < next)
    && (forall j, k :: 0 <= j < k < |free| ==> free[j] != free[k])
    && (forall slot: nat :: slot < next ==> (Block(slab, slot) in held <==> slot !in free))
    && (forall h :: h in held && h.slab == slab ==> h.slot < next)
  }

  /** The arena's bump prefix is split into held and free slots, and its counter counts the held ones. */
  ghost predicate Exact(a: Arena, held: set<BlockId>) {
    Split(a.slabId, a.next, a.free, held) && a.live == a.next - |a.free|
  }

  /** An arena never hands out a held id. */
  lemma AllocateExact(a: Arena, held: set<BlockId>)
    requires ArenaOk(a) && !IsFull(a) && Exact(a, held)
    ensures var r := ArenaAllocate(a); r.1 !in held && Exact(r.0, held + {r.1})
  {
    if a.free != [] {
      PopExact(a, held);
    } else {
      BumpExact(a, held);
    }
  }

  lemma PopExact(a: Arena, held: set<BlockId>)
    requires ArenaOk(a) && a.free != [] && Exact(a, held)
    ensures var r := ArenaAllocate(a); r.1 !in held && Exact(r.0, held + {r.1})
  {
    var n := |a.free| - 1;
    assert a.free == a.free[..n] + [a.free[n]];
    FreeFits(a.free, a.next);
    PopSplit(a.slabId, a.next, a.free[..n], a.free[n], held);
  }

  lemma PopSplit(slab: nat, next: nat, free: seq<nat>, slot: nat, held: set<BlockId>)
    requires Split(slab, next, free + [slot], held)
    ensures Block(slab, slot) !in held && Split(slab, next, free, held + {Block(slab, slot)})
  {
    var all := free + [slot];
    assert all[|free|] == slot && slot in all && slot < next;
    forall k | 0 <= k < |free|
      ensures free[k] < next && free[k] != slot
    {
      assert all[k] == free[k];
    }
    forall j, k | 0 <= j < k < |free|
      ensures free[j] != free[k]
    {
      assert all[j] == free[j] && all[k] == free[k];
    }
  }

  lemma BumpExact(a: Arena, held: set<BlockId>)
    requires ArenaOk(a) && a.free == [] && !IsFull(a) && Exact(a, held)
    ensures var r := ArenaAllocate(a); r.1 !in held && Exact(r.0, held + {r.1})
  {
  }

  /** Distinct numbers below `n` are at most `n`. */
  lemma FreeFits(s: seq<nat>, n: nat)
    requires forall k :: 0 <= k < |s| ==> s[k] < n
    requires forall j, k :: 0 <= j < k < |s| ==> s[j] != s[k]
    ensures |s| <= n
  {
    DistinctSize(s);
    SubsetSize(Values(s), Below(n));
  }

  /** Returning a held id keeps the split. */
  lemma FreeExact(a: Arena, held: set<BlockId>, id: BlockId)
    requires ArenaOk(a) && Exact(a, held) && id in held && id.slab == a.slabId && id.slot < 65536
    ensures Exact(ArenaFree(a, id), held - {id})
  {
    FreeFewer(a, held, id);
  }

  /** While a slot is held the free list does not fill the bump prefix. */
  lemma FreeFewer(a: Arena, held: set<BlockId>, id: BlockId)
    requires ArenaOk(a) && Exact(a, held) && id in held && id.slab == a.slabId
    ensures |a.free| < a.next && id.slot !in a.free
  {
    assert Block(a.slabId, id.slot) == id;
    DistinctBelow(a.free, a.next, id.slot);
  }

  ghost function Below(n: nat): (s: set<nat>)
    ensures |s| == n && forall k: nat :: k in s <==> k < n
  {
    if n == 0 then {} else Below(n - 1) + {n - 1}
  }

  /** Distinct numbers below `n` that miss one of them are fewer than `n`. */
  lemma DistinctBelow(s: seq<nat>, n: nat, missing: nat)
    requires missing < n && missing !in s
    requires forall k :: 0 <= k < |s| ==> s[k] < n
    requires forall j, k :: 0 <= j < k < |s| ==> s[j] != s[k]
    ensures |s| < n
  {
    DistinctSize(s);
    SubsetSize(Values(s) + {missing}, Below(n));
  }

  ghost function Values(s: seq<nat>): set<nat> {
    set v | v in s
  }

  /** An id of another arena does not concern this one. */
  lemma OtherExact(a: Arena, held: set<BlockId>, id: BlockId)
    requires Exact(a, held) && id.slab != a.slabId
    ensures Exact(a, held + {id}) && Exact(a, held - {id})
  {
  }

  /** An arena that counts no allocation holds none. */
  lemma EmptyHoldsNone(a: Arena, held: set<BlockId>, id: BlockId)
    requires ArenaOk(a) && Exact(a, held) && a.live == 0 && id in held
    ensures id.slab != a.slabId
  {
    if id.slab == a.slabId {
      FreeFewer(a, held, id);
    }
  }

  // ---- The counter ----

  ghost function HeldIn(held: set<BlockId>, slab: nat, n: nat): set<BlockId> {
    set h | h in held && h.slab == slab && h.slot < n
  }

  ghost function FreeBelow(free: seq<nat>, n: nat): set<nat> {
    set v | v in free && v < n
  }

  /** The live counter is the number of held ids of the arena. */
  lemma CounterIsHeld(a: Arena, held: set<BlockId>)
    requires ArenaOk(a) && Exact(a, held)
    ensures |set h | h in held && h.slab == a.slabId| == a.live
  {
    HeldBelow(a.slabId, a.free, held, a.next);
    assert HeldIn(held, a.slabId, a.next) == set h | h in held && h.slab == a.slabId;
    DistinctSize(a.free);
    assert FreeBelow(a.free, a.next) == Values(a.free);
  }

  /** Among the first `n` slots, the held ones and the free ones add up. */
  lemma {:induction false} HeldBelow(slab: nat, free: seq<nat>, held: set<BlockId>, n: nat)
    requires forall slot: nat :: slot < n ==> (Block(slab, slot) in held <==> slot !in free)
    ensures |HeldIn(held, slab, n)| + |FreeBelow(free, n)| == n
  {
    if n > 0 {
      HeldBelow(slab, free, held, n - 1);
      HeldStep(slab, held, n);
      FreeStep(free, n);
    } else {
      assert HeldIn(held, slab, 0) == {} && FreeBelow(free, 0) == {};
    }
  }

  lemma HeldStep(slab: nat, held: set<BlockId>, n: nat)
    requires n > 0
    ensures |HeldIn(held, slab, n)| == |HeldIn(held, slab, n - 1)| + if Block(slab, n - 1) in held then 1 else 0
  {
    var id := Block(slab, n - 1);
    if id in held {
      assert HeldIn(held, slab, n) == HeldIn(held, slab, n - 1) + {id};
    } else {
      forall h | h in held && h.slab == slab && h.slot < n
        ensures h.slot < n - 1
      {
        assert h == Block(slab, h.slot);
      }
      assert HeldIn(held, slab, n) == HeldIn(held, slab, n - 1);
    }
  }

  lemma FreeStep(free: seq<nat>, n: nat)
    requires n > 0
    ensures |FreeBelow(free, n)| == |FreeBelow(free, n - 1)| + if n - 1 in free then 1 else 0
  {
    if n - 1 in free {
      assert FreeBelow(free, n) == FreeBelow(free, n - 1) + {n - 1};
    } else {
      assert FreeBelow(free, n) == FreeBelow(free, n - 1);
    }
  }
}
