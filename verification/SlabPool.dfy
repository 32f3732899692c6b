/**
 A core's slab pool: arenas of six classes, the three indices over them, and the quota counters.

 The global registry of slab ids, the clock and the operating system's allocator are parameters of
 the steps that consult them.
 */
module SlabPools {
  import opened Machine
  import opened SlabArenas
  import opened SlabIndices

  /** What growing meets outside the pool: the registry's next slab id, the system allocator, the clock. */
  datatype World = World(slabId: nat, osGrants: bool, now: nat)

  datatype Grown = Grew | Refused | RegistryFull

  datatype Outcome = Given(id: BlockId) | PoolExhausted | Aborted

  const COLD_SECS: nat := 30

  // ---- The quota ----

  /** The hard ceiling of either workload: 95 percent of the megaslabs, rounded down. */
  function HardCeiling(maxMegaslabs: nat): (r: nat)
    ensures 100 * r <= 95 * maxMegaslabs < 100 * r + 100
  {
    maxMegaslabs * 95 / 100
  }

  /**
   A workload can be driven past its ceiling: there is room for the ceiling, one arena of the other workload and
   one more, and the registry has as many ids.
   */
  predicate CanPass(maxMegaslabs: nat) {
    HardCeiling(maxMegaslabs) + 2 <= maxMegaslabs && HardCeiling(maxMegaslabs) + 2 < MAX_GLOBAL_SLABS
  }

  /** That takes 21 megaslabs; the registry stops it from 17245 on. */
  lemma CanPassIff(maxMegaslabs: nat)
    ensures CanPass(maxMegaslabs) <==> 21 <= maxMegaslabs < 17245
  {
  }

  /** Either workload may be past its ceiling, or neither is. */
  predicate WithinQuota(maxMegaslabs: nat, app: nat, tensor: nat) {
    CanPass(maxMegaslabs) || (app <= HardCeiling(maxMegaslabs) && tensor <= HardCeiling(maxMegaslabs))
  }

  /** Growing at the ceiling is possible only in a pool that can be driven past it. */
  lemma PassNeeds(
    arenas: seq<Arena>, lastActive: seq<nat>, issued: nat, app: nat, tensor: nat, maxMegaslabs: nat, kind: SlabClass,
    now: nat)
    requires Accounted(arenas, issued, |lastActive|, app, tensor) && |arenas| < maxMegaslabs
    requires 0 < issued < MAX_GLOBAL_SLABS && SomeCold(arenas, lastActive, kind, now)
    requires (if IsTensor(kind) then tensor else app) >= HardCeiling(maxMegaslabs)
    ensures CanPass(maxMegaslabs)
  {
    CountOfAll(arenas);
    SlabsFit(arenas, issued);
    if CountOf(arenas, !IsTensor(kind)) == 0 {
      NoneCold(arenas, lastActive, kind, now);
    }
  }

  /** A pool has fewer arenas than ids were issued, as id 0 never is. */
  lemma SlabsFit(arenas: seq<Arena>, issued: nat)
    requires AllOk(arenas, issued) && DistinctSlabs(arenas) && issued > 0
    ensures |arenas| < issued
  {
    var ids := seq(|arenas|, i requires 0 <= i < |arenas| => arenas[i].slabId);
    DistinctBelow(ids, issued, 0);
  }

  function SaturatingPred(n: nat): nat {
    if n == 0 then 0 else n - 1
  }

  /** Empty, idle for long, and of the workload opposite to `kind`. */
  predicate Cold(a: Arena, lastActive: nat, kind: SlabClass, now: nat) {
    IsTensor(a.kind) != IsTensor(kind) && a.live == 0 && now - lastActive >= COLD_SECS
  }

  ghost predicate FirstCold(arenas: seq<Arena>, lastActive: seq<nat>, kind: SlabClass, now: nat, k: nat) {
    && k < |arenas| == |lastActive| && Cold(arenas[k], lastActive[k], kind, now)
    && forall j :: 0 <= j < k ==> !Cold(arenas[j], lastActive[j], kind, now)
  }

  /** The first cold arena is gone, with its stamp. */
  ghost predicate WithoutCold(
    before: seq<Arena>, stamps: seq<nat>, after: seq<Arena>, stamps': seq<nat>, kind: SlabClass, now: nat)
  {
    exists k: nat ::
      FirstCold(before, stamps, kind, now, k) && after == Without(before, k) && stamps' == Without(stamps, k)
  }

  // ---- The pool as a value ----

  datatype Pool = Pool(
    arenas: seq<Arena>, stamps: seq<nat>, app: nat, tensor: nat, index: Indices, cursors: seq<nat>, max: nat)
  {
    function Claimed(kind: SlabClass): nat {
      if IsTensor(kind) then tensor else app
    }

    predicate BelowCeiling(kind: SlabClass) {
      Claimed(kind) < HardCeiling(max)
    }

    /** Growing asks the registry for an id: the pool is below its limit and the quota has room, or can make some. */
    predicate Asks(kind: SlabClass, now: nat) {
      |arenas| < max && (BelowCeiling(kind) || SomeCold(arenas, stamps, kind, now))
    }

    /** A new arena takes all that, an id below the registry's end, and memory. */
    ghost predicate CanGrow(kind: SlabClass, world: World) {
      Asks(kind, world.now) && world.slabId < MAX_GLOBAL_SLABS && world.osGrants
    }

    /** The registry has no id left when it is asked. */
    ghost predicate RegistryEnds(kind: SlabClass, world: World) {
      Asks(kind, world.now) && world.slabId >= MAX_GLOBAL_SLABS
    }
  }

  /** Below the ceiling nothing has to give; at the ceiling the first cold arena goes. */
  ghost predicate RoomMade(p: Pool, arenas: seq<Arena>, stamps: seq<nat>, kind: SlabClass, now: nat) {
    if p.BelowCeiling(kind) then arenas == p.arenas && stamps == p.stamps
    else WithoutCold(p.arenas, p.stamps, arenas, stamps, kind, now)
  }

  /** One more claim and one more arena, which is `a` and active, once there was room. */
  ghost predicate GrownBy(p: Pool, q: Pool, a: Arena, kind: SlabClass, now: nat) {
    && |q.arenas| == |q.stamps| > 0 && q.Claimed(kind) == p.Claimed(kind) + 1 && q.cursors == p.cursors
    && var n := |q.arenas| - 1;
       && q.arenas[n] == a && q.stamps[n] == now && RoomMade(p, q.arenas[..n], q.stamps[..n], kind, now)
       && ActiveIs(q.index, ClassIndex(kind), n)
  }

  ghost predicate ActiveIs(x: Indices, c: nat, i: nat) {
    c < |x.active| && x.active[c] == Some(i)
  }

  /** Growth that was tried in vain may still have made room. */
  ghost predicate NotGrown(p: Pool, arenas: seq<Arena>, stamps: seq<nat>, kind: SlabClass, now: nat) {
    if p.Asks(kind, now) then RoomMade(p, arenas, stamps, kind, now) else arenas == p.arenas && stamps == p.stamps
  }

  /**
   Served by the arenas there are: the first of the class with room, which becomes active, else the slot whose turn to
   be recycled it is, else not at all.
   */
  ghost predicate Existing(
    arenas: seq<Arena>, cursors: seq<nat>, q: Pool, kind: SlabClass, r: Outcome, recycled: bool)
  {
    var c := ClassIndex(kind);
    match r
    case Given(id) =>
      if recycled then
        && ClassFull(arenas, kind) && c < |cursors| && IndicesOf(arenas, c) != []
        && RecycledFrom(arenas, q.arenas, c, TurnOf(cursors[c], IndicesOf(arenas, c)), id)
        && q.cursors == cursors[c := NextTurn(cursors[c], |IndicesOf(arenas, c)|)]
      else
        && q.cursors == cursors
        && exists i: nat ::
             FirstRoom(arenas, c, i) && TakenFrom(arenas, q.arenas, i, r) && ActiveIs(q.index, c, i)
    case PoolExhausted => !recycled && q.arenas == arenas && q.cursors == cursors && NoneOf(arenas, kind)
    case Aborted => false
  }

  ghost predicate FellBack(p: Pool, q: Pool, kind: SlabClass, now: nat, r: Outcome, recycled: bool) {
    exists arenas {:trigger NotGrown(p, arenas, q.stamps, kind, now)} ::
      NotGrown(p, arenas, q.stamps, kind, now) && Existing(arenas, p.cursors, q, kind, r, recycled)
  }

  /** What `allocate` does when the active arena has no room: a new arena, else those there are. */
  ghost predicate SlowPath(p: Pool, q: Pool, kind: SlabClass, world: World, r: Outcome, recycled: bool) {
    if p.CanGrow(kind, world) then
      !recycled && r == Given(Block(world.slabId, 0)) && GrownBy(p, q, FirstTaken(world.slabId, kind), kind, world.now)
    else if p.RegistryEnds(kind, world) then
      !recycled && r.Aborted? && RoomMade(p, q.arenas, q.stamps, kind, world.now) && q.cursors == p.cursors
    else
      FellBack(p, q, kind, world.now, r, recycled)
  }

  /** What `allocate` does: the active arena, else a new one, else those there are. */
  ghost predicate Allocated(p: Pool, q: Pool, kind: SlabClass, world: World, r: Outcome, recycled: bool) {
    var c := ClassIndex(kind);
    if ActiveRoom(p.index, p.arenas, c) then
      && !recycled && TakenFrom(p.arenas, q.arenas, p.index.active[c].value, r)
      && q == p.(arenas := q.arenas)
    else
      SlowPath(p, q, kind, world, r, recycled)
  }

  ghost predicate NoneOf(arenas: seq<Arena>, kind: SlabClass) {
    forall i :: 0 <= i < |arenas| ==> arenas[i].kind != kind
  }

  /** Below the pool's limit, and below the ceiling or with an idle arena of the other workload to drop. */
  lemma AsksMeans(p: Pool, kind: SlabClass, now: nat)
    requires |p.stamps| == |p.arenas|
    ensures p.Asks(kind, now) <==>
            && |p.arenas| < p.max
            && (|| (if IsTensor(kind) then p.tensor else p.app) < p.max * 95 / 100
                || exists i :: && 0 <= i < |p.arenas| && IsTensor(p.arenas[i].kind) != IsTensor(kind)
                               && p.arenas[i].live == 0 && now - p.stamps[i] >= 30)
  {
  }

  /**
   An allocation is refused exactly when its class has no arena and cannot get one; it aborts exactly when a new one is
   due and all 16384 slab ids are used up.
   */
  lemma RefusedIff(p: Pool, q: Pool, kind: SlabClass, world: World, r: Outcome, recycled: bool)
    requires Allocated(p, q, kind, world, r, recycled) && Indexed(p.arenas, p.index)
    ensures r.PoolExhausted? <==>
              && (forall i :: 0 <= i < |p.arenas| ==> p.arenas[i].kind != kind)
              && (!p.Asks(kind, world.now) || (world.slabId < 16384 && !world.osGrants))
    ensures r.Aborted? <==>
              !ActiveRoom(p.index, p.arenas, ClassIndex(kind)) && p.Asks(kind, world.now) && world.slabId >= 16384
    ensures r.PoolExhausted? <==> NoneOf(p.arenas, kind) && !p.CanGrow(kind, world) && !p.RegistryEnds(kind, world)
    ensures r.Aborted? <==> !ActiveRoom(p.index, p.arenas, ClassIndex(kind)) && p.RegistryEnds(kind, world)
  {
    var c := ClassIndex(kind);
    assert ActiveOk(p.arenas, p.index.active[c], c);
    if ActiveRoom(p.index, p.arenas, c) {
      ClassIndexInjective(p.arenas[p.index.active[c].value].kind, kind);
    } else if !p.CanGrow(kind, world) && !p.RegistryEnds(kind, world) {
      var arenas :| NotGrown(p, arenas, q.stamps, kind, world.now)
                    && Existing(arenas, p.cursors, q, kind, r, recycled);
      NotGrownClass(p, arenas, q.stamps, kind, world.now);
      ExistingServes(arenas, p.cursors, q, kind, r, recycled);
    }
  }

  /** Making room takes no arena of the class itself. */
  lemma NotGrownClass(p: Pool, arenas: seq<Arena>, stamps: seq<nat>, kind: SlabClass, now: nat)
    requires NotGrown(p, arenas, stamps, kind, now)
    ensures NoneOf(arenas, kind) <==> NoneOf(p.arenas, kind)
  {
    if arenas != p.arenas {
      var k: nat :| FirstCold(p.arenas, p.stamps, kind, now, k) && arenas == Without(p.arenas, k);
      forall i | 0 <= i < |p.arenas| && p.arenas[i].kind == kind
        ensures p.arenas[i] in arenas
      {
        assert arenas[if i < k then i else i - 1] == p.arenas[i];
      }
    }
  }

  lemma ExistingServes(
    arenas: seq<Arena>, cursors: seq<nat>, q: Pool, kind: SlabClass, r: Outcome, recycled: bool)
    requires Existing(arenas, cursors, q, kind, r, recycled)
    ensures r.PoolExhausted? <==> NoneOf(arenas, kind)
  {
    if r.Given? {
      var c := ClassIndex(kind);
      var i: nat := if recycled then TurnOf(cursors[c], IndicesOf(arenas, c))
                    else var j: nat :| FirstRoom(arenas, c, j) && TakenFrom(arenas, q.arenas, j, r); j;
      ClassIndexInjective(arenas[i].kind, kind);
    }
  }

  ghost predicate RecycledFrom(before: seq<Arena>, after: seq<Arena>, c: nat, i: nat, id: BlockId) {
    && i < |before| && ArenaOk(before[i]) && ClassIndex(before[i].kind) == c
    && after == before[i := ArenaRecycle(before[i]).0] && id == ArenaRecycle(before[i]).1
  }

  /** The list entry under a round-robin cursor, and the cursor's next value. */
  function TurnOf(cursor: nat, list: seq<nat>): nat
    requires list != []
  {
    list[cursor % |list|]
  }

  function NextTurn(cursor: nat, n: nat): nat
    requires n > 0
  {
    (cursor % n + 1) % n
  }

  /** The entries taken by `n` turns in a row. */
  ghost function Turns(cursor: nat, list: seq<nat>, n: nat): (r: seq<nat>)
    requires list != []
    ensures |r| == n
    decreases n
  {
    if n == 0 then [] else [TurnOf(cursor, list)] + Turns(NextTurn(cursor, |list|), list, n - 1)
  }

  lemma NextTurnIs(cursor: nat, n: nat)
    requires cursor < n
    ensures cursor % n == cursor && NextTurn(cursor, n) == if cursor + 1 < n then cursor + 1 else 0
  {
  }

  lemma {:induction false} TurnsAt(cursor: nat, list: seq<nat>, n: nat, i: nat)
    requires cursor < |list| && i < n && i < |list|
    ensures Turns(cursor, list, n)[i] == list[if cursor + i < |list| then cursor + i else cursor + i - |list|]
    decreases n
  {
    NextTurnIs(cursor, |list|);
    if i > 0 {
      TurnsAt(NextTurn(cursor, |list|), list, n - 1, i - 1);
    }
  }

  /** From any cursor, as many turns as the list is long take every entry once, in order from the cursor on. */
  lemma TurnsRotate(cursor: nat, list: seq<nat>)
    requires list != []
    ensures var at := cursor % |list|; Turns(cursor, list, |list|) == list[at..] + list[..at]
  {
    var n, at := |list|, cursor % |list|;
    NextTurnIs(at, n);
    assert Turns(cursor, list, n) == Turns(at, list, n);
    forall i | 0 <= i < n
      ensures Turns(at, list, n)[i] == (list[at..] + list[..at])[i]
    {
      TurnsAt(at, list, n, i);
    }
  }

  method FindCold(arenas: seq<Arena>, lastActive: seq<nat>, kind: SlabClass, now: nat) returns (r: Option<nat>)
    requires |lastActive| == |arenas|
    ensures r.Some? ==> r.value < |arenas| && now - lastActive[r.value] >= 30
    ensures r.Some? ==> arenas[r.value].live == 0 && IsTensor(arenas[r.value].kind) != IsTensor(kind)
    ensures r.Some? ==> FirstCold(arenas, lastActive, kind, now, r.value)
    ensures r.None? ==> forall j :: 0 <= j < |arenas| ==> !Cold(arenas[j], lastActive[j], kind, now)
  {
    var k := 0;
    while k < |arenas|
      invariant 0 <= k <= |arenas| && forall j :: 0 <= j < k ==> !Cold(arenas[j], lastActive[j], kind, now)
    {
      if Cold(arenas[k], lastActive[k], kind, now) {
        return Some(k);
      }
      k := k + 1;
    }
    r := None;
  }

  lemma PutAccounted(arenas: seq<Arena>, i: nat, a: Arena, issued: nat, stamps: nat, app: nat, tensor: nat)
    requires i < |arenas| && SameArena(arenas[i], a) && Accounted(arenas, issued, stamps, app, tensor)
    ensures Accounted(arenas[i := a], issued, stamps, app, tensor)
  {
    SameSlabsIndex(arenas, arenas[i := a], 0);
  }

  lemma WithoutAccounted(arenas: seq<Arena>, k: nat, issued: nat, stamps: nat, app: nat, tensor: nat)
    requires k < |arenas| && Accounted(arenas, issued, stamps, app, tensor)
    ensures if IsTensor(arenas[k].kind)
      then tensor > 0 && Accounted(Without(arenas, k), issued, stamps - 1, app, tensor - 1)
      else app > 0 && Accounted(Without(arenas, k), issued, stamps - 1, app - 1, tensor)
  {
    CountOfRemoved(arenas, k, true);
    CountOfRemoved(arenas, k, false);
    WithoutDistinct(arenas, k);
  }

  /** Slab ids are distinct and were issued, and the counters count the arenas. */
  ghost predicate Accounted(arenas: seq<Arena>, issued: nat, stamps: nat, app: nat, tensor: nat) {
    && AllOk(arenas, issued) && DistinctSlabs(arenas) && stamps == |arenas|
    && app == CountOf(arenas, false) && tensor == CountOf(arenas, true)
  }

  class SlabPool {
    var arenas: seq<Arena>
    var index: Indices
    var recycleCursor: seq<nat>
    var claimedApp: nat
    var claimedTensor: nat
    var lastActive: seq<nat>
    /** Every slab id the registry gave this pool is below. */
    ghost var issued: nat
    const maxMegaslabs: nat
    const appCeiling: nat
    const tensorCeiling: nat

    /** All but the indices. */
    ghost predicate Bare()
      reads this
    {
      && Accounted(arenas, issued, |lastActive|, claimedApp, claimedTensor) && issued > 0
      && |arenas| <= maxMegaslabs && |recycleCursor| == 6
      && appCeiling == tensorCeiling == HardCeiling(maxMegaslabs)
      && WithinQuota(maxMegaslabs, claimedApp, claimedTensor)
    }

    /** Indices, quota counters and limits agree with the arenas. */
    ghost predicate Valid()
      reads this
    {
      Bare() && Indexed(arenas, index)
    }

    function State(): Pool
      reads this
    {
      Pool(arenas, lastActive, claimedApp, claimedTensor, index, recycleCursor, maxMegaslabs)
    }

    function Claimed(kind: SlabClass): nat
      reads this
    {
      if IsTensor(kind) then claimedTensor else claimedApp
    }

    function Ceiling(kind: SlabClass): nat {
      if IsTensor(kind) then tensorCeiling else appCeiling
    }

    constructor (maxTotalBytes: nat)
      ensures Valid() && arenas == [] && lastActive == [] && issued == 1 && Clean(arenas, {})
      ensures maxMegaslabs == maxTotalBytes / MEGASLAB_BYTES
    {
      var megaslabs := maxTotalBytes / MEGASLAB_BYTES;
      maxMegaslabs, appCeiling, tensorCeiling := megaslabs, HardCeiling(megaslabs), HardCeiling(megaslabs);
      arenas, lastActive, claimedApp, claimedTensor, issued := [], [], 0, 0, 1;
      index := Indices([None, None, None, None, None, None], [[], [], [], [], [], []], map[]);
      recycleCursor := [0, 0, 0, 0, 0, 0];
    }

    // ---- Arenas in place ----

    /** Put a later state of arena `i` in its place. */
    method Put(i: nat, a: Arena)
      requires Valid() && i < |arenas| && SameArena(arenas[i], a)
      modifies `arenas
      ensures Valid() && arenas == old(arenas)[i := a]
    {
      PutIndexed(arenas, index, i, a);
      PutAccounted(arenas, i, a, issued, |lastActive|, claimedApp, claimedTensor);
      arenas := arenas[i := a];
    }

    /** Take a slot of arena `i`, which has room. */
    method AllocateFrom(i: nat, ghost held: set<BlockId>) returns (id: BlockId)
      requires Valid() && i < |arenas| && !IsFull(arenas[i])
      modifies `arenas
      ensures Valid() && arenas == old(arenas)[i := ArenaAllocate(old(arenas)[i]).0]
      ensures id == ArenaAllocate(old(arenas)[i]).1
      ensures old(Clean(arenas, held)) ==> id !in held && Clean(arenas, held + {id})
    {
      if Clean(arenas, held) {
        AllocateClean(arenas, i, held);
      }
      var r := ArenaAllocate(arenas[i]);
      Put(i, r.0);
      id := r.1;
    }

    /** The next slot of the round robin over the full arenas of a class. */
    method Recycle(c: nat) returns (id: BlockId)
      requires Valid() && c < 6 && index.classArenas[c] != []
      modifies `arenas, `recycleCursor
      ensures Valid() && RecycledFrom(old(arenas), arenas, c, TurnOf(old(recycleCursor)[c], index.classArenas[c]), id)
      ensures recycleCursor == old(recycleCursor)[c := NextTurn(old(recycleCursor)[c], |index.classArenas[c]|)]
    {
      var i, next := TurnOf(recycleCursor[c], index.classArenas[c]), NextTurn(recycleCursor[c], |index.classArenas[c]|);
      assert i in IndicesOf(arenas, c);
      InIndices(arenas, c, i);
      recycleCursor := recycleCursor[c := next];
      var r := ArenaRecycle(arenas[i]);
      Put(i, r.0);
      id := r.1;
      assert RecycledFrom(old(arenas), arenas, c, i, id);
    }

    // ---- Giving arenas back ----

    /** Drop arena `k` and its quota claim, the indices left stale. */
    method Drop(k: nat)
      requires Bare() && k < |arenas|
      modifies `arenas, `lastActive, `claimedApp, `claimedTensor
      ensures Bare() && arenas == Without(old(arenas), k) && lastActive == Without(old(lastActive), k)
      ensures IsTensor(old(arenas)[k].kind) ==> claimedApp == old(claimedApp)
      ensures !IsTensor(old(arenas)[k].kind) ==> claimedTensor == old(claimedTensor)
    {
      WithoutAccounted(arenas, k, issued, |lastActive|, claimedApp, claimedTensor);
      if IsTensor(arenas[k].kind) {
        claimedTensor := SaturatingPred(claimedTensor);
      } else {
        claimedApp := SaturatingPred(claimedApp);
      }
      arenas := Without(arenas, k);
      lastActive := Without(lastActive, k);
    }

    /** Drop the empty arena `k` and rebuild the indices. */
    method Release(k: nat, ghost held: set<BlockId>)
      requires Valid() && k < |arenas| && arenas[k].live == 0
      modifies `arenas, `lastActive, `claimedApp, `claimedTensor, `index
      ensures Valid() && arenas == Without(old(arenas), k) && lastActive == Without(old(lastActive), k)
      ensures IsTensor(old(arenas)[k].kind) ==> claimedApp == old(claimedApp)
      ensures !IsTensor(old(arenas)[k].kind) ==> claimedTensor == old(claimedTensor)
      ensures old(Clean(arenas, held)) ==> Clean(arenas, held)
    {
      if Clean(arenas, held) {
        WithoutClean(arenas, k, held);
      }
      Drop(k);
      index := RebuildIndices(arenas);
    }

    /** `reclaim_cold_arena`: drop the first arena of the other workload that is empty and long idle. */
    method ReclaimCold(kind: SlabClass, now: nat, ghost held: set<BlockId>) returns (done: bool)
      requires Valid()
      modifies `arenas, `lastActive, `claimedApp, `claimedTensor, `index
      ensures Valid()
      ensures done ==> WithoutCold(old(arenas), old(lastActive), arenas, lastActive, kind, now)
      ensures Claimed(kind) == old(Claimed(kind))
      ensures !done ==> unchanged(this) && !SomeCold(arenas, lastActive, kind, now)
      ensures old(Clean(arenas, held)) ==> Clean(arenas, held)
    {
      var opposite := if IsTensor(kind) then claimedApp else claimedTensor;
      if opposite == 0 {
        NoneCold(arenas, lastActive, kind, now);
        return false;
      }
      var candidate := FindCold(arenas, lastActive, kind, now);
      done := candidate.Some?;
      if done {
        Release(candidate.value, held);
      }
    }

    // ---- Growing ----

    /** Make room in the quota for one more arena, by a cold reclamation if the ceiling is reached. */
    method ClaimRoom(kind: SlabClass, now: nat, ghost held: set<BlockId>) returns (ok: bool)
      requires Valid() && |arenas| < maxMegaslabs
      modifies `arenas, `lastActive, `claimedApp, `claimedTensor, `index
      ensures Valid() && |arenas| < maxMegaslabs && Claimed(kind) == old(Claimed(kind))
      ensures ok <==> old(State().Asks(kind, now))
      ensures !ok ==> unchanged(this)
      ensures ok ==> RoomMade(old(State()), arenas, lastActive, kind, now)
      ensures old(Clean(arenas, held)) ==> Clean(arenas, held)
    {
      if Claimed(kind) < Ceiling(kind) {
        return true;
      }
      ok := ReclaimCold(kind, now, held);
    }

    /** Append a fresh arena and make it the active one of its class. */
    method Append(kind: SlabClass, world: World, ghost held: set<BlockId>)
      requires Valid() && |arenas| < maxMegaslabs && issued <= world.slabId < MAX_GLOBAL_SLABS
      requires Claimed(kind) < Ceiling(kind) || CanPass(maxMegaslabs)
      modifies this
      ensures Valid() && issued == world.slabId + 1 && recycleCursor == old(recycleCursor)
      ensures Appends(old(State()), State(), NewArena(world.slabId, kind), kind, world.now)
      ensures old(Clean(arenas, held)) ==> Clean(arenas, held)
    {
      var a := NewArena(world.slabId, kind);
      var more, x := arenas + [a], IndexActive(index, a, |arenas|);
      var app := if IsTensor(kind) then claimedApp else claimedApp + 1;
      var tensor := if IsTensor(kind) then claimedTensor + 1 else claimedTensor;
      AppendIndexed(arenas, index, a, issued);
      AppendAccounted(arenas, a, issued, |lastActive|, claimedApp, claimedTensor);
      if Clean(arenas, held) {
        AppendClean(arenas, a, issued, held);
      }
      Store(more, x, lastActive + [world.now], app, tensor, world.slabId + 1);
    }

    method Store(more: seq<Arena>, x: Indices, stamps: seq<nat>, app: nat, tensor: nat, ghost next: nat)
      modifies `arenas, `index, `lastActive, `claimedApp, `claimedTensor, `issued
      ensures arenas == more && index == x && lastActive == stamps
      ensures claimedApp == app && claimedTensor == tensor && issued == next
    {
      arenas, index, lastActive, claimedApp, claimedTensor := more, x, stamps, app, tensor;
      issued := next;
    }

    /** Take a slab id and its memory, and append the arena. */
    method Obtain(kind: SlabClass, world: World, ghost held: set<BlockId>) returns (r: Grown)
      requires Valid() && |arenas| < maxMegaslabs && issued <= world.slabId
      requires world.slabId < MAX_GLOBAL_SLABS ==> Claimed(kind) < Ceiling(kind) || CanPass(maxMegaslabs)
      modifies this
      ensures Valid() && issued == world.slabId + 1 && recycleCursor == old(recycleCursor)
      ensures r == if world.slabId >= MAX_GLOBAL_SLABS then RegistryFull else if world.osGrants then Grew else Refused
      ensures r.Grew? ==> Appends(old(State()), State(), NewArena(world.slabId, kind), kind, world.now)
      ensures !r.Grew? ==> unchanged(`arenas, `lastActive)
      ensures old(Clean(arenas, held)) ==> Clean(arenas, held)
    {
      if world.slabId >= MAX_GLOBAL_SLABS {
        Skip(world.slabId);
        return RegistryFull;
      }
      if !world.osGrants {
        Skip(world.slabId);
        return Refused;
      }
      Append(kind, world, held);
      r := Grew;
    }

    /** `grow` below the pool limit. */
    method GrowWithin(kind: SlabClass, world: World, ghost held: set<BlockId>) returns (r: Grown)
      requires Valid() && issued <= world.slabId && |arenas| < maxMegaslabs
      modifies this
      ensures Valid() && GrowthIs(old(State()), State(), kind, world, r) && recycleCursor == old(recycleCursor)
      ensures issued == if old(State().Asks(kind, world.now)) then world.slabId + 1 else old(issued)
      ensures old(Clean(arenas, held)) ==> Clean(arenas, held)
    {
      ghost var p := State();
      PassNeedsHere(kind, world);
      var ok := ClaimRoom(kind, world.now, held);
      if !ok {
        return Refused;
      }
      r := ObtainAfter(p, kind, world, held);
    }

    /** Take the memory once there is room in the quota. */
    method ObtainAfter(ghost p: Pool, kind: SlabClass, world: World, ghost held: set<BlockId>) returns (r: Grown)
      requires Valid() && |arenas| < maxMegaslabs && issued <= world.slabId
      requires Claimed(kind) == p.Claimed(kind) && recycleCursor == p.cursors
      requires world.slabId < MAX_GLOBAL_SLABS ==> Claimed(kind) < Ceiling(kind) || CanPass(maxMegaslabs)
      requires p.Asks(kind, world.now) && RoomMade(p, arenas, lastActive, kind, world.now)
      modifies this
      ensures Valid() && GrowthIs(p, State(), kind, world, r)
      ensures issued == world.slabId + 1 && recycleCursor == old(recycleCursor)
      ensures old(Clean(arenas, held)) ==> Clean(arenas, held)
    {
      ghost var mid := State();
      r := Obtain(kind, world, held);
      GrowthFollows(p, mid, State(), kind, world, r);
    }

    lemma PassNeedsHere(kind: SlabClass, world: World)
      requires Valid() && issued <= world.slabId && |arenas| < maxMegaslabs
      ensures world.slabId < MAX_GLOBAL_SLABS && SomeCold(arenas, lastActive, kind, world.now) ==>
        Claimed(kind) < Ceiling(kind) || CanPass(maxMegaslabs)
    {
      var cold := SomeCold(arenas, lastActive, kind, world.now);
      if Claimed(kind) >= Ceiling(kind) && cold && world.slabId < MAX_GLOBAL_SLABS {
        PassNeeds(arenas, lastActive, issued, claimedApp, claimedTensor, maxMegaslabs, kind, world.now);
      }
    }

    /** `grow`: one more arena of the class, within the pool limit and the quota. */
    method Grow(kind: SlabClass, world: World, ghost held: set<BlockId>) returns (r: Grown)
      requires Valid() && issued <= world.slabId
      modifies this
      ensures Valid() && GrowthIs(old(State()), State(), kind, world, r) && recycleCursor == old(recycleCursor)
      ensures issued == if old(State().Asks(kind, world.now)) then world.slabId + 1 else old(issued)
      ensures old(Clean(arenas, held)) ==> Clean(arenas, held)
    {
      if |arenas| >= maxMegaslabs {
        return Refused;
      }
      r := GrowWithin(kind, world, held);
    }

    /** The registry's id is used up even when it or the system then fails. */
    ghost method Skip(slabId: nat)
      requires Valid() && issued <= slabId
      modifies `issued
      ensures Valid() && issued == slabId + 1
    {
      issued := slabId + 1;
    }

    // ---- Allocating ----

    method Activate(c: nat, i: nat)
      requires Valid() && c < 6 && i < |arenas| && ClassIndex(arenas[i].kind) == c
      modifies `index
      ensures Valid() && index == old(index).(active := old(index).active[c := Some(i)])
    {
      index := index.(active := index.active[c := Some(i)]);
    }

    method ServeFrom(i: nat, kind: SlabClass, ghost held: set<BlockId>) returns (r: Outcome)
      requires Valid() && i < |arenas| && arenas[i].kind == kind && !IsFull(arenas[i])
      modifies `arenas
      ensures Valid() && TakenFrom(old(arenas), arenas, i, r) && Served(old(arenas), arenas, kind, held, r, false)
    {
      var id := AllocateFrom(i, held);
      assert arenas[i].slabId == id.slab && arenas[i].kind == kind;
      r := Given(id);
    }

    /** Serve from the arena just appended: its first slot. */
    method ServeNew(kind: SlabClass, ghost slabId: nat, ghost held: set<BlockId>) returns (r: Outcome)
      requires Valid() && arenas != [] && arenas[|arenas| - 1] == NewArena(slabId, kind)
      modifies `arenas
      ensures Valid() && r == Given(Block(slabId, 0)) && Served(old(arenas), arenas, kind, held, r, false)
      ensures arenas == old(arenas)[|old(arenas)| - 1 := FirstTaken(slabId, kind)]
    {
      r := ServeFrom(|arenas| - 1, kind, held);
    }

    /** Try to grow, and serve from the new arena. */
    method GrowAndServe(kind: SlabClass, world: World, ghost held: set<BlockId>) returns (r: Option<Outcome>)
      requires Valid() && issued <= world.slabId
      modifies this
      ensures Valid() && recycleCursor == old(recycleCursor)
      ensures issued == if old(State().Asks(kind, world.now)) then world.slabId + 1 else old(issued)
      ensures r.Some? ==> Served(old(arenas), arenas, kind, held, r.value, false)
      ensures GrewOrNot(old(State()), State(), kind, world, r)
      ensures r.None? && old(Clean(arenas, held)) ==> Clean(arenas, held)
    {
      ghost var p := State();
      var grown := Grow(kind, world, held);
      if grown.Grew? {
        var out := ServeGrown(p, kind, world, held);
        return Some(out);
      }
      return if grown.RegistryFull? then Some(Aborted) else None;
    }

    /** Serve from the arena that the pool `p` just gained. */
    method ServeGrown(ghost p: Pool, kind: SlabClass, world: World, ghost held: set<BlockId>) returns (r: Outcome)
      requires Valid() && GrownBy(p, State(), NewArena(world.slabId, kind), kind, world.now)
      requires Clean(p.arenas, held) ==> Clean(arenas, held)
      modifies `arenas
      ensures Valid() && r == Given(Block(world.slabId, 0)) && Served(p.arenas, arenas, kind, held, r, false)
      ensures GrownBy(p, State(), FirstTaken(world.slabId, kind), kind, world.now)
    {
      ghost var q := State();
      r := ServeNew(kind, world.slabId, held);
      FirstSlotTaken(p, q, State(), kind, world);
      ServedOnward(p.arenas, q.arenas, arenas, kind, held, r, false);
    }

    /** Without growing: an arena of the class with room, else a recycled slot, else nothing. */
    method AllocateExisting(kind: SlabClass, ghost held: set<BlockId>) returns (r: Outcome, ghost recycled: bool)
      requires Valid()
      modifies `arenas, `index, `recycleCursor
      ensures Valid() && Served(old(arenas), arenas, kind, held, r, recycled)
      ensures Existing(old(arenas), old(recycleCursor), State(), kind, r, recycled)
    {
      var c := ClassIndex(kind);
      ListedInRange(arenas, c);
      var room := FindRoom(arenas, index.classArenas[c]);
      if room.Some? {
        FirstListed(arenas, c, room.value);
        r := ServeRoom(kind, room.value, held);
        return r, false;
      }
      AllFull(arenas, kind);
      if index.classArenas[c] != [] {
        r := RecycleTurn(kind, held);
        return r, true;
      }
      return PoolExhausted, false;
    }

    /** Activate the first arena of the class with room, and serve from it. */
    method ServeRoom(kind: SlabClass, i: nat, ghost held: set<BlockId>) returns (r: Outcome)
      requires Valid() && FirstRoom(arenas, ClassIndex(kind), i)
      modifies `arenas, `index
      ensures Valid() && Served(old(arenas), arenas, kind, held, r, false)
      ensures Existing(old(arenas), recycleCursor, State(), kind, r, false)
    {
      ClassIndexInjective(arenas[i].kind, kind);
      Activate(ClassIndex(kind), i);
      r := ServeFrom(i, kind, held);
    }

    method RecycleTurn(kind: SlabClass, ghost held: set<BlockId>) returns (r: Outcome)
      requires Valid() && ClassFull(arenas, kind) && index.classArenas[ClassIndex(kind)] != []
      modifies `arenas, `recycleCursor
      ensures Valid() && Served(old(arenas), arenas, kind, held, r, true)
      ensures Existing(old(arenas), old(recycleCursor), State(), kind, r, true)
    {
      var id := Recycle(ClassIndex(kind));
      RecycledServes(old(arenas), arenas, kind, held, id);
      r := Given(id);
    }

    /**
     `allocate`: the active arena, else a new one, else any with room, else a recycled slot. An id that is
     still held comes back exactly when it was recycled.
     */
    method Allocate(kind: SlabClass, world: World, ghost held: set<BlockId>) returns (r: Outcome, ghost recycled: bool)
      requires Valid() && issued <= world.slabId
      modifies this
      ensures Valid() && Served(old(arenas), arenas, kind, held, r, recycled)
      ensures Allocated(old(State()), State(), kind, world, r, recycled)
      ensures issued == if old(Draws(State(), kind, world.now)) then world.slabId + 1 else old(issued)
    {
      if ActiveRoom(index, arenas, ClassIndex(kind)) {
        r := ServeActive(kind, world, held);
        recycled := false;
      } else {
        r, recycled := AllocatePast(kind, world, held);
      }
    }

    /** When the active arena has no room. */
    method AllocatePast(kind: SlabClass, world: World, ghost held: set<BlockId>)
      returns (r: Outcome, ghost recycled: bool)
      requires Valid() && issued <= world.slabId && !ActiveRoom(index, arenas, ClassIndex(kind))
      modifies this
      ensures Valid() && Served(old(arenas), arenas, kind, held, r, recycled)
      ensures Allocated(old(State()), State(), kind, world, r, recycled)
      ensures issued == if old(Draws(State(), kind, world.now)) then world.slabId + 1 else old(issued)
    {
      ghost var p := State();
      r, recycled := AllocateSlow(kind, world, held);
      SlowIsAllocated(p, State(), kind, world, r, recycled);
    }

    /** The fast path. */
    method ServeActive(kind: SlabClass, ghost world: World, ghost held: set<BlockId>) returns (r: Outcome)
      requires Valid() && ActiveRoom(index, arenas, ClassIndex(kind))
      modifies `arenas
      ensures Valid() && Served(old(arenas), arenas, kind, held, r, false)
      ensures Allocated(old(State()), State(), kind, world, r, false)
      ensures issued == if old(Draws(State(), kind, world.now)) then world.slabId + 1 else old(issued)
    {
      var active := index.active[ClassIndex(kind)].value;
      ClassIndexInjective(arenas[active].kind, kind);
      r := ServeFrom(active, kind, held);
    }

    /** A new arena, else those there are. */
    method AllocateSlow(kind: SlabClass, world: World, ghost held: set<BlockId>)
      returns (r: Outcome, ghost recycled: bool)
      requires Valid() && issued <= world.slabId
      modifies this
      ensures Valid() && Served(old(arenas), arenas, kind, held, r, recycled)
      ensures SlowPath(old(State()), State(), kind, world, r, recycled)
      ensures issued == if old(State().Asks(kind, world.now)) then world.slabId + 1 else old(issued)
    {
      ghost var p := State();
      var served := TryGrow(kind, world, held);
      if served.Some? {
        GrewIsSlowPath(p, State(), kind, world, served);
        return served.value, false;
      }
      r, recycled := FallBack(p, kind, world, held);
    }

    /** The growth path, if the pool is below its limit. */
    method TryGrow(kind: SlabClass, world: World, ghost held: set<BlockId>) returns (r: Option<Outcome>)
      requires Valid() && issued <= world.slabId
      modifies this
      ensures Valid() && recycleCursor == old(recycleCursor)
      ensures issued == if old(State().Asks(kind, world.now)) then world.slabId + 1 else old(issued)
      ensures r.Some? ==> Served(old(arenas), arenas, kind, held, r.value, false)
      ensures GrewOrNot(old(State()), State(), kind, world, r)
      ensures r.None? && old(Clean(arenas, held)) ==> Clean(arenas, held)
    {
      if |arenas| >= maxMegaslabs {
        return None;
      }
      r := GrowAndServe(kind, world, held);
    }

    /** After growth was tried in vain on the pool `p`. */
    method FallBack(ghost p: Pool, kind: SlabClass, world: World, ghost held: set<BlockId>)
      returns (r: Outcome, ghost recycled: bool)
      requires Valid() && recycleCursor == p.cursors
      requires GrewOrNot(p, State(), kind, world, None) && (Clean(p.arenas, held) ==> Clean(arenas, held))
      modifies `arenas, `index, `recycleCursor
      ensures Valid() && Served(p.arenas, arenas, kind, held, r, recycled)
      ensures SlowPath(p, State(), kind, world, r, recycled)
    {
      ghost var mid := State();
      r, recycled := AllocateExisting(kind, held);
      FallsBack(p, mid, State(), kind, world, r, recycled);
      ServedOnward(p.arenas, mid.arenas, arenas, kind, held, r, recycled);
    }

    // ---- Returning slots, the clock, and empty arenas ----

    method FreeAt(i: nat, id: BlockId, ghost held: set<BlockId>)
      requires Valid() && i < |arenas| && arenas[i].slabId == id.slab && id.slot < 65536
      modifies `arenas
      ensures Valid() && FreedAt(old(arenas), arenas, i, id)
      ensures old(Clean(arenas, held)) && id in held ==> Clean(arenas, held - {id})
    {
      if Clean(arenas, held) && id in held {
        FreeClean(arenas, i, held, id);
      }
      Put(i, ArenaFree(arenas[i], id));
    }

    /** `deallocate`: back to the owning arena, which becomes active if the active one is full. */
    method Deallocate(id: BlockId, ghost held: set<BlockId>) returns (ok: bool)
      requires Valid() && id.slot < 65536
      modifies `arenas, `index
      ensures Valid() && (ok <==> Owned(old(arenas), id.slab))
      ensures !ok ==> unchanged(this)
      ensures ok ==> exists i: nat :: FreedAt(old(arenas), arenas, i, id) && index == Reactivated(old(index), arenas, i)
      ensures old(Clean(arenas, held)) && id in held ==> ok && Clean(arenas, held - {id})
    {
      if id.slab !in index.byId {
        return false;
      }
      var i := index.byId[id.slab];
      FreeAt(i, id, held);
      var c := ClassIndex(arenas[i].kind);
      if index.active[c].Some? && IsFull(arenas[index.active[c].value]) {
        Activate(c, i);
      }
      ok := true;
      assert FreedAt(old(arenas), arenas, i, id);
    }

    /** `tick_second`: stamp every arena with live slots. */
    method TickSecond(now: nat)
      requires Valid()
      modifies `lastActive
      ensures Valid() && |lastActive| == |old(lastActive)|
      ensures forall i :: 0 <= i < |arenas| ==> lastActive[i] == if arenas[i].live > 0 then now else old(lastActive)[i]
    {
      for i := 0 to |arenas|
        invariant |lastActive| == |arenas|
        invariant forall k :: 0 <= k < |arenas| ==>
          lastActive[k] == if k < i && arenas[k].live > 0 then now else old(lastActive)[k]
      {
        if arenas[i].live > 0 {
          lastActive := lastActive[i := now];
        }
      }
    }

    /** Drop the empty arena `k`, the indices left stale. */
    method DropEmpty(k: nat, ghost held: set<BlockId>)
      requires Bare() && k < |arenas| && arenas[k].live == 0
      modifies `arenas, `lastActive, `claimedApp, `claimedTensor
      ensures Bare() && arenas == Without(old(arenas), k) && lastActive == Without(old(lastActive), k)
      ensures old(Clean(arenas, held)) ==> Clean(arenas, held)
    {
      if Clean(arenas, held) {
        WithoutClean(arenas, k, held);
      }
      Drop(k);
    }

    /** The loop of `reclaim_empty_arenas`. */
    method SweepEmpty(ghost held: set<BlockId>) returns (reclaimed: nat)
      requires Bare()
      modifies `arenas, `lastActive, `claimedApp, `claimedTensor
      ensures Bare() && arenas == Occupied(old(arenas), old(arenas)) && reclaimed + |arenas| == |old(arenas)|
      ensures lastActive == Occupied(old(arenas), old(lastActive)) && (reclaimed == 0 ==> arenas == old(arenas))
      ensures old(Clean(arenas, held)) ==> Clean(arenas, held)
    {
      reclaimed := 0;
      var i := 0;
      ghost var was, stamps, clean := arenas, lastActive, Clean(arenas, held);
      OccupiedEnds(arenas, arenas);
      OccupiedEnds(arenas, lastActive);
      while i < |arenas|
        invariant 0 <= i <= |arenas| && Bare() && reclaimed + |arenas| == |was|
        invariant reclaimed == 0 ==> arenas == was
        invariant OccupiedFrom(arenas, arenas, i) == Occupied(was, was)
        invariant OccupiedFrom(arenas, lastActive, i) == Occupied(was, stamps)
        invariant clean ==> Clean(arenas, held)
        decreases |arenas| - i
      {
        OccupiedStep(arenas, arenas, i);
        OccupiedStep(arenas, lastActive, i);
        if arenas[i].live == 0 {
          DropEmpty(i, held);
          reclaimed := reclaimed + 1;
        } else {
          i := i + 1;
        }
      }
      OccupiedEnds(arenas, arenas);
      OccupiedEnds(arenas, lastActive);
    }

    /** `reclaim_empty_arenas`: exactly the arenas with a live slot stay, in order, with their stamps. */
    method ReclaimEmpty(ghost held: set<BlockId>) returns (reclaimed: nat)
      requires Valid()
      modifies `arenas, `lastActive, `claimedApp, `claimedTensor, `index
      ensures Valid() && arenas == Occupied(old(arenas), old(arenas)) && reclaimed + |arenas| == |old(arenas)|
      ensures lastActive == Occupied(old(arenas), old(lastActive))
      ensures old(Clean(arenas, held)) ==> Clean(arenas, held)
    {
      reclaimed := SweepEmpty(held);
      if reclaimed > 0 {
        index := RebuildIndices(arenas);
      }
    }
  }

  /** A full active arena hands over to arena `i` of its class. */
  ghost function Reactivated(x: Indices, arenas: seq<Arena>, i: nat): Indices
    requires i < |arenas| && |x.active| == 6
  {
    var c := ClassIndex(arenas[i].kind);
    match x.active[c]
    case Some(a) => if a < |arenas| && IsFull(arenas[a]) then x.(active := x.active[c := Some(i)]) else x
    case None => x
  }

  ghost predicate FreedAt(before: seq<Arena>, after: seq<Arena>, i: nat, id: BlockId) {
    && i < |before| && ArenaOk(before[i]) && before[i].slabId == id.slab && id.slot < 65536
    && after == before[i := ArenaFree(before[i], id)]
  }

  /** What belongs to the arenas that count a live slot. */
  function Occupied<T>(arenas: seq<Arena>, xs: seq<T>): seq<T>
    requires |xs| == |arenas|
  {
    if xs == [] then [] else (if arenas[0].live == 0 then [] else [xs[0]]) + Occupied(arenas[1..], xs[1..])
  }

  /** Reclaiming keeps exactly the arenas that count a live slot. */
  lemma {:induction false} OccupiedAre(arenas: seq<Arena>)
    ensures forall a :: a in Occupied(arenas, arenas) <==> a in arenas && a.live > 0
  {
    if arenas != [] {
      OccupiedAre(arenas[1..]);
    }
  }

  /** The same from position `i` on, all before it. */
  ghost function OccupiedFrom<T>(arenas: seq<Arena>, xs: seq<T>, i: nat): seq<T>
    requires i <= |xs| == |arenas|
  {
    xs[..i] + Occupied(arenas[i..], xs[i..])
  }

  lemma OccupiedEnds<T>(arenas: seq<Arena>, xs: seq<T>)
    requires |xs| == |arenas|
    ensures OccupiedFrom(arenas, xs, 0) == Occupied(arenas, xs) && OccupiedFrom(arenas, xs, |xs|) == xs
  {
    assert arenas[0..] == arenas && xs[0..] == xs;
  }

  lemma OccupiedStep<T>(arenas: seq<Arena>, xs: seq<T>, i: nat)
    requires i < |xs| == |arenas|
    ensures arenas[i].live == 0 ==> OccupiedFrom(Without(arenas, i), Without(xs, i), i) == OccupiedFrom(arenas, xs, i)
    ensures arenas[i].live != 0 ==> OccupiedFrom(arenas, xs, i + 1) == OccupiedFrom(arenas, xs, i)
  {
    assert arenas[i..][1..] == arenas[i + 1..] && xs[i..][1..] == xs[i + 1..];
    assert Without(arenas, i)[i..] == arenas[i + 1..];
    assert Without(xs, i)[i..] == xs[i + 1..] && Without(xs, i)[..i] == xs[..i];
    assert xs[..i + 1] == xs[..i] + [xs[i]];
  }

  /** A new arena after its first slot was taken. */
  function FirstTaken(slabId: nat, kind: SlabClass): Arena {
    Arena(slabId, kind, 1, [], 0, 1)
  }

  /** One more arena behind those there were, and one more claim. */
  ghost predicate Appends(p: Pool, q: Pool, a: Arena, kind: SlabClass, now: nat) {
    && q.arenas == p.arenas + [a] && q.stamps == p.stamps + [now] && q.Claimed(kind) == p.Claimed(kind) + 1
    && q.cursors == p.cursors && ActiveIs(q.index, ClassIndex(kind), |p.arenas|)
  }

  /** What `grow` does, and what it says. */
  ghost predicate GrowthIs(p: Pool, q: Pool, kind: SlabClass, world: World, r: Grown) {
    && (r.Grew? <==> p.CanGrow(kind, world)) && (r.RegistryFull? <==> p.RegistryEnds(kind, world))
    && (if r.Grew? then GrownBy(p, q, NewArena(world.slabId, kind), kind, world.now)
        else NotGrown(p, q.arenas, q.stamps, kind, world.now))
  }

  lemma GrowthFollows(p: Pool, mid: Pool, q: Pool, kind: SlabClass, world: World, r: Grown)
    requires p.Asks(kind, world.now) && RoomMade(p, mid.arenas, mid.stamps, kind, world.now)
    requires |mid.arenas| == |mid.stamps| && mid.Claimed(kind) == p.Claimed(kind) && mid.cursors == p.cursors
    requires r == if world.slabId >= MAX_GLOBAL_SLABS then RegistryFull else if world.osGrants then Grew else Refused
    requires if r.Grew? then Appends(mid, q, NewArena(world.slabId, kind), kind, world.now)
             else q.arenas == mid.arenas && q.stamps == mid.stamps
    ensures GrowthIs(p, q, kind, world, r)
  {
    if r.Grew? {
      assert q.arenas[..|mid.arenas|] == mid.arenas && q.stamps[..|mid.stamps|] == mid.stamps;
    }
  }

  /** The outcome of trying to grow and to serve from the new arena. */
  ghost predicate GrewOrNot(p: Pool, q: Pool, kind: SlabClass, world: World, r: Option<Outcome>) {
    if p.CanGrow(kind, world) then
      r == Some(Given(Block(world.slabId, 0))) && GrownBy(p, q, FirstTaken(world.slabId, kind), kind, world.now)
    else
      && r == (if p.RegistryEnds(kind, world) then Some(Aborted) else None)
      && NotGrown(p, q.arenas, q.stamps, kind, world.now) && q.cursors == p.cursors
  }

  lemma FirstSlotTaken(p: Pool, q: Pool, q': Pool, kind: SlabClass, world: World)
    requires GrownBy(p, q, NewArena(world.slabId, kind), kind, world.now)
    requires q'.arenas == q.arenas[|q.arenas| - 1 := FirstTaken(world.slabId, kind)]
    requires q'.stamps == q.stamps && q'.Claimed(kind) == q.Claimed(kind)
    requires q'.index == q.index && q'.cursors == q.cursors
    ensures GrownBy(p, q', FirstTaken(world.slabId, kind), kind, world.now)
  {
    assert q'.arenas[..|q.arenas| - 1] == q.arenas[..|q.arenas| - 1];
  }

  lemma SlowIsAllocated(p: Pool, q: Pool, kind: SlabClass, world: World, r: Outcome, recycled: bool)
    requires !ActiveRoom(p.index, p.arenas, ClassIndex(kind)) && SlowPath(p, q, kind, world, r, recycled)
    ensures Allocated(p, q, kind, world, r, recycled)
  {
  }

  lemma GrewIsSlowPath(p: Pool, q: Pool, kind: SlabClass, world: World, r: Option<Outcome>)
    requires GrewOrNot(p, q, kind, world, r) && r.Some?
    ensures SlowPath(p, q, kind, world, r.value, false)
  {
  }

  lemma FallsBack(p: Pool, mid: Pool, q: Pool, kind: SlabClass, world: World, r: Outcome, recycled: bool)
    requires !p.CanGrow(kind, world) && !p.RegistryEnds(kind, world)
    requires NotGrown(p, mid.arenas, mid.stamps, kind, world.now) && q.stamps == mid.stamps
    requires Existing(mid.arenas, p.cursors, q, kind, r, recycled)
    ensures SlowPath(p, q, kind, world, r, recycled)
  {
  }

  /** What held before growth was tried in vain holds of the whole allocation. */
  lemma ServedOnward(
    before: seq<Arena>, mid: seq<Arena>, after: seq<Arena>, kind: SlabClass, held: set<BlockId>, r: Outcome,
    recycled: bool)
    requires Clean(before, held) ==> Clean(mid, held)
    requires Served(mid, after, kind, held, r, recycled)
    ensures Served(before, after, kind, held, r, recycled)
  {
  }

  /** `allocate` comes to ask the registry. */
  predicate Draws(p: Pool, kind: SlabClass, now: nat) {
    !ActiveRoom(p.index, p.arenas, ClassIndex(kind)) && p.Asks(kind, now)
  }

  /** Below the ceiling the new arena stands behind all the old ones. */
  lemma GrewBelow(p: Pool, q: Pool, a: Arena, kind: SlabClass, now: nat)
    requires GrownBy(p, q, a, kind, now) && p.BelowCeiling(kind)
    ensures q.arenas == p.arenas + [a] && q.stamps == p.stamps + [now]
  {
    var n := |q.arenas| - 1;
    assert q.arenas == q.arenas[..n] + [a] && q.stamps == q.stamps[..n] + [now];
  }

  /** One slot was taken from arena `i`. */
  ghost predicate TakenFrom(before: seq<Arena>, after: seq<Arena>, i: nat, r: Outcome) {
    && i < |before| && ArenaOk(before[i]) && !IsFull(before[i])
    && after == before[i := ArenaAllocate(before[i]).0] && r == Given(ArenaAllocate(before[i]).1)
  }

  /** The active arena of class `c` has room. */
  predicate ActiveRoom(x: Indices, arenas: seq<Arena>, c: nat) {
    && c < |x.active| && x.active[c].Some? && x.active[c].value < |arenas|
    && !IsFull(arenas[x.active[c].value])
  }

  /** Arena `i` is the first of class `c` with room. */
  ghost predicate FirstRoom(arenas: seq<Arena>, c: nat, i: nat) {
    && i < |arenas| && ClassIndex(arenas[i].kind) == c && !IsFull(arenas[i])
    && forall j :: 0 <= j < i && ClassIndex(arenas[j].kind) == c ==> IsFull(arenas[j])
  }

  /** The class list is in order, so the first entry with room is the first arena with room. */
  lemma {:induction false} FirstListed(arenas: seq<Arena>, c: nat, i: nat)
    requires FirstWithRoom(arenas, IndicesOf(arenas, c), i)
    ensures FirstRoom(arenas, c, i)
  {
    var list := IndicesOf(arenas, c);
    var k :| 0 <= k < |list| && list[k] == i
             && forall j :: 0 <= j < k ==> list[j] < |arenas| && IsFull(arenas[list[j]]);
    InIndices(arenas, c, i);
    forall j | 0 <= j < i && ClassIndex(arenas[j].kind) == c
      ensures IsFull(arenas[j])
    {
      InIndices(arenas, c, j);
      var m :| 0 <= m < |list| && list[m] == j;
      IndicesSorted(arenas, c, k, m);
    }
  }

  lemma {:induction false} IndicesSorted(arenas: seq<Arena>, c: nat, k: nat, m: nat)
    requires k < |IndicesOf(arenas, c)| && m < |IndicesOf(arenas, c)|
    ensures k < m ==> IndicesOf(arenas, c)[k] < IndicesOf(arenas, c)[m]
    decreases |arenas|
  {
    var n := |arenas| - 1;
    var front := IndicesOf(arenas[..n], c);
    if k < m {
      if m < |front| {
        IndicesSorted(arenas[..n], c, k, m);
      } else {
        InIndices(arenas[..n], c, front[k]);
      }
    }
  }

  /** The first entry of the list whose arena has room. */
  ghost predicate FirstWithRoom(arenas: seq<Arena>, list: seq<nat>, i: nat) {
    && i < |arenas| && !IsFull(arenas[i])
    && exists k :: 0 <= k < |list| && list[k] == i
                   && forall j :: 0 <= j < k ==> list[j] < |arenas| && IsFull(arenas[list[j]])
  }

  /** The id lies in an arena of its class. */
  ghost predicate Holds(arenas: seq<Arena>, kind: SlabClass, id: BlockId) {
    exists i :: 0 <= i < |arenas| && arenas[i].slabId == id.slab && arenas[i].kind == kind
  }

  ghost predicate ClassFull(arenas: seq<Arena>, kind: SlabClass) {
    forall i :: 0 <= i < |arenas| && arenas[i].kind == kind ==> IsFull(arenas[i])
  }

  /** What an allocation request did, as its callers see it. */
  ghost predicate Served(
    before: seq<Arena>, after: seq<Arena>, kind: SlabClass, held: set<BlockId>, r: Outcome, recycled: bool)
  {
    && (r.Given? ==> Holds(after, kind, r.id))
    && (recycled ==> r.Given? && ClassFull(after, kind))
    && (r.PoolExhausted? ==> NoneOf(after, kind))
    && (Clean(before, held) ==>
          if r.Given? && !recycled then r.id !in held && Clean(after, held + {r.id})
          else Clean(after, held) && (recycled ==> r.id in held))
  }

  method FindRoom(arenas: seq<Arena>, list: seq<nat>) returns (r: Option<nat>)
    requires forall k :: 0 <= k < |list| ==> list[k] < |arenas|
    ensures r.Some? ==> r.value in list && FirstWithRoom(arenas, list, r.value)
    ensures r.None? ==> forall k :: 0 <= k < |list| ==> IsFull(arenas[list[k]])
  {
    var k := 0;
    while k < |list|
      invariant 0 <= k <= |list| && forall j :: 0 <= j < k ==> IsFull(arenas[list[j]])
    {
      if !IsFull(arenas[list[k]]) {
        return Some(list[k]);
      }
      k := k + 1;
    }
    r := None;
  }

  lemma ListedInRange(arenas: seq<Arena>, c: nat)
    ensures forall k :: 0 <= k < |IndicesOf(arenas, c)| ==> IndicesOf(arenas, c)[k] < |arenas|
  {
    forall k | 0 <= k < |IndicesOf(arenas, c)|
      ensures IndicesOf(arenas, c)[k] < |arenas|
    {
      InIndices(arenas, c, IndicesOf(arenas, c)[k]);
    }
  }

  lemma AllFull(arenas: seq<Arena>, kind: SlabClass)
    requires forall k :: 0 <= k < |IndicesOf(arenas, ClassIndex(kind))| ==>
      IndicesOf(arenas, ClassIndex(kind))[k] < |arenas| && IsFull(arenas[IndicesOf(arenas, ClassIndex(kind))[k]])
    ensures ClassFull(arenas, kind)
    ensures IndicesOf(arenas, ClassIndex(kind)) == [] ==> NoneOf(arenas, kind)
  {
    forall i | 0 <= i < |arenas| && arenas[i].kind == kind
      ensures i in IndicesOf(arenas, ClassIndex(kind))
    {
      InIndices(arenas, ClassIndex(kind), i);
    }
  }

  lemma RecycledServes(before: seq<Arena>, after: seq<Arena>, kind: SlabClass, held: set<BlockId>, id: BlockId)
    requires ClassFull(before, kind) && exists i: nat :: RecycledFrom(before, after, ClassIndex(kind), i, id)
    ensures Served(before, after, kind, held, Given(id), true)
  {
    var i: nat :| RecycledFrom(before, after, ClassIndex(kind), i, id);
    ClassIndexInjective(before[i].kind, kind);
    if Clean(before, held) {
      RecycleClean(before, i, held);
    }
    assert after[i].slabId == id.slab && after[i].kind == kind;
  }

  lemma NoneCold(arenas: seq<Arena>, lastActive: seq<nat>, kind: SlabClass, now: nat)
    requires |lastActive| == |arenas| && CountOf(arenas, !IsTensor(kind)) == 0
    ensures forall j :: 0 <= j < |arenas| ==> !Cold(arenas[j], lastActive[j], kind, now)
  {
    NoneOfWorkload(arenas, !IsTensor(kind));
  }

  lemma {:induction false} NoneOfWorkload(arenas: seq<Arena>, tensor: bool)
    requires CountOf(arenas, tensor) == 0
    ensures forall i :: 0 <= i < |arenas| ==> IsTensor(arenas[i].kind) != tensor
    decreases |arenas|
  {
    if arenas != [] {
      NoneOfWorkload(arenas[..|arenas| - 1], tensor);
    }
  }

  predicate SomeCold(arenas: seq<Arena>, lastActive: seq<nat>, kind: SlabClass, now: nat) {
    |lastActive| == |arenas| && exists j :: 0 <= j < |arenas| && Cold(arenas[j], lastActive[j], kind, now)
  }

  lemma AppendAccounted(arenas: seq<Arena>, a: Arena, issued: nat, stamps: nat, app: nat, tensor: nat)
    requires Accounted(arenas, issued, stamps, app, tensor) && 0 < issued <= a.slabId && ArenaOk(a)
    ensures Accounted(arenas + [a], a.slabId + 1, stamps + 1, if IsTensor(a.kind) then app else app + 1,
                      if IsTensor(a.kind) then tensor + 1 else tensor)
  {
    CountOfMore(arenas, a, true);
    CountOfMore(arenas, a, false);
  }
}
