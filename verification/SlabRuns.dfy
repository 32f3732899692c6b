/**
 Whole runs of a slab pool, and the quota ceiling.
 */
module SlabRuns {
  import opened Machine
  import opened SlabArenas
  import opened SlabIndices
  import opened SlabPools

  /** An allocation comes with the number of ids that other pools took from the registry since the last request. */
  datatype Request =
    | Alloc(kind: SlabClass, skip: nat, osGrants: bool, now: nat)
    | Free(id: BlockId)
    | Tick(now: nat)
    | ReclaimEmpties

  datatype Reply = Got(id: BlockId) | Exhausted | Panicked | Freed(ok: bool) | Ticked | Reclaimed(n: nat)

  /** Slot numbers are half-words. */
  ghost predicate HalfWords(requests: seq<Request>) {
    forall i :: 0 <= i < |requests| && requests[i].Free? ==> requests[i].id.slot < 65536
  }

  /** What an allocation meets when the registry's next id was `next` at the request before. */
  function WorldOf(request: Request, next: nat): World
    requires request.Alloc?
  {
    World(next + request.skip, request.osGrants, request.now)
  }

  /** The registry's next id after a request: one is used up exactly when an allocation asks for it. */
  function NextAfter(p: Pool, request: Request, next: nat): nat {
    match request
    case Alloc(kind, skip, _, now) => next + skip + if Draws(p, kind, now) then 1 else 0
    case _ => next
  }

  function ReplyTo(r: Outcome): Reply {
    match r
    case Given(id) => Got(id)
    case PoolExhausted => Exhausted
    case Aborted => Panicked
  }

  /** What a request does to the pool, and what it is answered. */
  ghost predicate Does(p: Pool, q: Pool, request: Request, next: nat, reply: Reply, recycled: bool) {
    match request
    case Alloc(kind, _, _, _) =>
      && (reply.Got? || reply.Exhausted? || reply.Panicked?)
      && Allocated(p, q, kind, WorldOf(request, next), OutcomeOf(reply), recycled)
    case Free(id) => !recycled && FreesTo(p, q, id, reply)
    case Tick(now) => !recycled && reply == Ticked && StampedAt(p, q.stamps, now) && q == p.(stamps := q.stamps)
    case ReclaimEmpties =>
      && !recycled && |p.stamps| == |p.arenas| >= |q.arenas| && reply == Reclaimed(|p.arenas| - |q.arenas|)
      && q.arenas == Occupied(p.arenas, p.arenas) && q.stamps == Occupied(p.arenas, p.stamps) && q.cursors == p.cursors
  }

  function OutcomeOf(reply: Reply): Outcome
    requires reply.Got? || reply.Exhausted? || reply.Panicked?
  {
    match reply
    case Got(id) => Given(id)
    case Exhausted => PoolExhausted
    case Panicked => Aborted
  }

  ghost predicate FreesTo(p: Pool, q: Pool, id: BlockId, reply: Reply) {
    && reply == Freed(Owned(p.arenas, id.slab)) && |p.index.active| == 6
    && if reply.ok then exists i: nat :: FreedAt(p.arenas, q.arenas, i, id) && q == FreedIn(p, q.arenas, i) else q == p
  }

  /** A full active arena hands over to the one that got a slot back. */
  ghost function FreedIn(p: Pool, arenas: seq<Arena>, i: nat): Pool
    requires i < |arenas| && |p.index.active| == 6
  {
    p.(arenas := arenas, index := Reactivated(p.index, arenas, i))
  }

  ghost predicate StampedAt(p: Pool, stamps: seq<nat>, now: nat) {
    && |stamps| == |p.arenas| == |p.stamps|
    && forall i :: 0 <= i < |stamps| ==> stamps[i] == if p.arenas[i].live > 0 then now else p.stamps[i]
  }

  /** What callers hold after a request. */
  ghost function HeldAfter(held: set<BlockId>, request: Request, reply: Reply): set<BlockId> {
    match request
    case Alloc(_, _, _, _) => if reply.Got? then held + {reply.id} else held
    case Free(id) => held - {id}
    case _ => held
  }

  /**
   A pool within its limits, with slab ids below the registry's next, its counters and indices in order, and within its
   ceilings unless it can pass them.
   */
  ghost predicate Orderly(p: Pool, next: nat) {
    && Indexed(p.arenas, p.index) && AllOk(p.arenas, next) && DistinctSlabs(p.arenas)
    && |p.arenas| == |p.stamps| <= p.max
    && p.app == CountOf(p.arenas, false) && p.tensor == CountOf(p.arenas, true)
    && (!CanPass(p.max) ==> p.app <= HardCeiling(p.max) && p.tensor <= HardCeiling(p.max))
  }

  /** The pool, the registry's next id and what callers hold, between two requests. */
  datatype Moment = Moment(pool: Pool, next: nat, held: set<BlockId>)

  datatype Event = Event(before: Moment, request: Request, reply: Reply, recycled: bool, after: Moment)

  /** Without recycling, and freeing only what is held, nothing held is handed out again. */
  ghost predicate KeepsApart(e: Event) {
    Clean(e.before.pool.arenas, e.before.held) ==>
      && (e.recycled <==> e.reply.Got? && e.reply.id in e.before.held)
      && (Proper(e) ==> Clean(e.after.pool.arenas, e.after.held))
  }

  /** Nothing is recycled, and what is freed is held. */
  ghost predicate Proper(e: Event) {
    !e.recycled && (e.request.Free? ==> e.request.id in e.before.held)
  }

  ghost predicate Happens(e: Event) {
    && Does(e.before.pool, e.after.pool, e.request, e.before.next, e.reply, e.recycled)
    && e.after.next == NextAfter(e.before.pool, e.request, e.before.next)
    && e.after.held == HeldAfter(e.before.held, e.request, e.reply)
    && Orderly(e.before.pool, e.before.next) && Orderly(e.after.pool, e.after.next) && KeepsApart(e)
  }

  /** One request. */
  method Step(pool: SlabPool, request: Request, next: nat, ghost held: set<BlockId>)
    returns (reply: Reply, next': nat, ghost e: Event)
    requires pool.Valid() && pool.issued <= next && (request.Free? ==> request.id.slot < 65536)
    modifies pool
    ensures pool.Valid() && pool.issued <= next' && Happens(e)
    ensures e.before == Moment(old(pool.State()), next, held) && e.request == request && e.reply == reply
    ensures e.after.pool == pool.State() && e.after.next == next'
  {
    ghost var p, recycled := pool.State(), false;
    ValidIsOrderly(pool, next);
    next' := NextAfter(pool.State(), request, next);
    if request.Alloc? {
      reply, recycled := AllocStep(pool, request, next, held);
    } else {
      reply := OtherStep(pool, request, next, held);
    }
    ValidIsOrderly(pool, next');
    e := Event(Moment(p, next, held), request, reply, recycled,
               Moment(pool.State(), next', HeldAfter(held, request, reply)));
  }

  lemma ValidIsOrderly(pool: SlabPool, next: nat)
    requires pool.Valid() && pool.issued <= next
    ensures Orderly(pool.State(), next)
  {
  }

  /** The event of a request on its own. */
  ghost function EventOf(
    p: Pool, q: Pool, request: Request, next: nat, reply: Reply, recycled: bool, held: set<BlockId>): Event
  {
    Event(Moment(p, next, held), request, reply, recycled,
          Moment(q, NextAfter(p, request, next), HeldAfter(held, request, reply)))
  }

  method AllocStep(pool: SlabPool, request: Request, next: nat, ghost held: set<BlockId>)
    returns (reply: Reply, ghost recycled: bool)
    requires pool.Valid() && pool.issued <= next && request.Alloc?
    modifies pool
    ensures pool.Valid() && pool.issued <= NextAfter(old(pool.State()), request, next)
    ensures Does(old(pool.State()), pool.State(), request, next, reply, recycled)
    ensures KeepsApart(EventOf(old(pool.State()), pool.State(), request, next, reply, recycled, held))
  {
    var r;
    r, recycled := pool.Allocate(request.kind, WorldOf(request, next), held);
    reply := ReplyTo(r);
  }

  method OtherStep(pool: SlabPool, request: Request, ghost next: nat, ghost held: set<BlockId>) returns (reply: Reply)
    requires pool.Valid() && !request.Alloc? && (request.Free? ==> request.id.slot < 65536)
    modifies pool
    ensures pool.Valid() && pool.issued == old(pool.issued)
    ensures Does(old(pool.State()), pool.State(), request, next, reply, false)
    ensures KeepsApart(EventOf(old(pool.State()), pool.State(), request, next, reply, false, held))
  {
    match request {
      case Free(id) =>
        reply := FreeStep(pool, id, next, held);
      case Tick(now) =>
        reply := TickStep(pool, now, next, held);
      case ReclaimEmpties =>
        reply := ReclaimStep(pool, next, held);
    }
  }

  method TickStep(pool: SlabPool, now: nat, ghost next: nat, ghost held: set<BlockId>) returns (reply: Reply)
    requires pool.Valid()
    modifies pool
    ensures pool.Valid() && pool.issued == old(pool.issued)
    ensures Does(old(pool.State()), pool.State(), Tick(now), next, reply, false)
    ensures KeepsApart(EventOf(old(pool.State()), pool.State(), Tick(now), next, reply, false, held))
  {
    pool.TickSecond(now);
    reply := Ticked;
  }

  method ReclaimStep(pool: SlabPool, ghost next: nat, ghost held: set<BlockId>) returns (reply: Reply)
    requires pool.Valid()
    modifies pool
    ensures pool.Valid() && pool.issued == old(pool.issued)
    ensures Does(old(pool.State()), pool.State(), ReclaimEmpties, next, reply, false)
    ensures KeepsApart(EventOf(old(pool.State()), pool.State(), ReclaimEmpties, next, reply, false, held))
  {
    var n := pool.ReclaimEmpty(held);
    reply := Reclaimed(n);
  }

  method FreeStep(pool: SlabPool, id: BlockId, ghost next: nat, ghost held: set<BlockId>) returns (reply: Reply)
    requires pool.Valid() && id.slot < 65536
    modifies pool
    ensures pool.Valid() && pool.issued == old(pool.issued)
    ensures Does(old(pool.State()), pool.State(), Free(id), next, reply, false)
    ensures KeepsApart(EventOf(old(pool.State()), pool.State(), Free(id), next, reply, false, held))
  {
    var ok := pool.Deallocate(id, held);
    reply := Freed(ok);
  }

  // ---- Whole runs ----

  /** Events that follow on one another from the moment `start`, all of the kind `good`. */
  ghost predicate Chain(start: Moment, events: seq<Event>, good: Event -> bool) {
    && (forall i :: 0 <= i < |events| ==> good(events[i]))
    && (events != [] ==> events[0].before == start)
    && (forall i {:trigger events[i].before} :: 0 < i < |events| ==> events[i].before == events[i - 1].after)
  }

  ghost function MomentAt(start: Moment, events: seq<Event>, i: nat): Moment
    requires i <= |events|
  {
    if i == 0 then start else events[i - 1].after
  }

  lemma ChainMore(start: Moment, events: seq<Event>, e: Event, good: Event -> bool)
    requires Chain(start, events, good) && good(e) && e.before == MomentAt(start, events, |events|)
    ensures Chain(start, events + [e], good)
  {
  }

  /** `good` is `Happens` as a value, which a loop need not look into. */
  ghost predicate MeansAt(good: Event -> bool, e: Event) {
    good(e) <==> Happens(e)
  }

  ghost predicate Means(good: Event -> bool) {
    forall e {:trigger MeansAt(good, e)} :: MeansAt(good, e)
  }

  lemma MeansHappens() returns (good: Event -> bool)
    ensures Means(good)
  {
    good := e => Happens(e);
    forall e
      ensures MeansAt(good, e)
    {
    }
  }

  lemma ChainOf(start: Moment, events: seq<Event>, good: Event -> bool)
    requires Chain(start, events, good) && Means(good)
    ensures Chain(start, events, Happens)
  {
    forall i | 0 <= i < |events|
      ensures Happens(events[i])
    {
      assert MeansAt(good, events[i]);
    }
  }

  lemma ChainKeepsApart(start: Moment, events: seq<Event>)
    requires Chain(start, events, Happens)
    ensures Chain(start, events, KeepsApart)
  {
    forall i | 0 <= i < |events|
      ensures KeepsApart(events[i])
    {
      assert Happens(events[i]);
    }
  }

  /** The first `n` requests recycle nothing and free only what is held. */
  ghost predicate ProperTo(events: seq<Event>, n: nat) {
    n <= |events| && forall j :: 0 <= j < n ==> Proper(events[j])
  }

  /** After a proper start every arena is split exactly into held and free slots. */
  lemma {:induction false} CleanTo(start: Moment, events: seq<Event>, n: nat)
    requires Chain(start, events, KeepsApart) && Clean(start.pool.arenas, start.held) && ProperTo(events, n)
    ensures Clean(MomentAt(start, events, n).pool.arenas, MomentAt(start, events, n).held)
  {
    if n > 0 {
      CleanTo(start, events, n - 1);
      assert KeepsApart(events[n - 1]) && events[n - 1].before == MomentAt(start, events, n - 1);
    }
  }

  /** After a proper start an id is handed out while it is held exactly when it is recycled. */
  lemma NoAliases(start: Moment, events: seq<Event>, i: nat)
    requires Chain(start, events, Happens) && Clean(start.pool.arenas, start.held)
    requires i < |events| && ProperTo(events, i)
    ensures events[i].recycled <==> events[i].reply.Got? && events[i].reply.id in events[i].before.held
  {
    ChainKeepsApart(start, events);
    CleanTo(start, events, i);
    assert KeepsApart(events[i]) && events[i].before == MomentAt(start, events, i);
  }

  /** No id is ever handed out while it is held, unless recycled, after a proper start. */
  ghost predicate Apart(events: seq<Event>) {
    forall i :: 0 <= i < |events| && ProperTo(events, i) ==>
      (events[i].recycled <==> events[i].reply.Got? && events[i].reply.id in events[i].before.held)
  }

  lemma RunsApart(start: Moment, events: seq<Event>)
    requires Chain(start, events, Happens) && Clean(start.pool.arenas, start.held)
    ensures Apart(events)
  {
    forall i | 0 <= i < |events| && ProperTo(events, i)
      ensures events[i].recycled <==> events[i].reply.Got? && events[i].reply.id in events[i].before.held
    {
      NoAliases(start, events, i);
    }
  }

  /** Every arena's counter is the number of ids held in it. */
  ghost predicate Counted(arenas: seq<Arena>, held: set<BlockId>) {
    forall i :: 0 <= i < |arenas| ==> |set h | h in held && h.slab == arenas[i].slabId| == arenas[i].live
  }

  lemma CountersAreHeld(start: Moment, events: seq<Event>, n: nat)
    requires Chain(start, events, Happens) && Clean(start.pool.arenas, start.held) && ProperTo(events, n)
    requires Orderly(start.pool, start.next)
    ensures Counted(MomentAt(start, events, n).pool.arenas, MomentAt(start, events, n).held)
  {
    var now := MomentAt(start, events, n);
    ChainKeepsApart(start, events);
    CleanTo(start, events, n);
    assert n > 0 ==> Happens(events[n - 1]);
    forall i | 0 <= i < |now.pool.arenas|
      ensures |set h | h in now.held && h.slab == now.pool.arenas[i].slabId| == now.pool.arenas[i].live
    {
      CounterIsHeld(now.pool.arenas[i], now.held);
    }
  }

  /** An allocation is refused exactly when its class has no arena and can get none. */
  lemma RefusedWhen(e: Event)
    requires Happens(e) && e.request.Alloc?
    ensures var p, kind, world := e.before.pool, e.request.kind, WorldOf(e.request, e.before.next);
            && (e.reply.Exhausted? <==>
                  NoneOf(p.arenas, kind) && !p.CanGrow(kind, world) && !p.RegistryEnds(kind, world))
            && (e.reply.Panicked? <==> Draws(p, kind, world.now) && world.slabId >= MAX_GLOBAL_SLABS)
  {
    RefusedIff(e.before.pool, e.after.pool, e.request.kind, WorldOf(e.request, e.before.next), OutcomeOf(e.reply),
               e.recycled);
  }

  /** The answers of a run, and what it answers. */
  ghost predicate Answers(events: seq<Event>, requests: seq<Request>, replies: seq<Reply>) {
    && |events| == |replies| <= |requests|
    && forall i :: 0 <= i < |events| ==> events[i].request == requests[i] && events[i].reply == replies[i]
  }

  /**
   Any run from an empty pool.  Every request has its effect; until the first recycle, and while callers free only
   what they hold, no held id is handed out.  A run stops early only when the registry has no id left for a pool that
   grows.
   */
  method Run(pool: SlabPool, next: nat, requests: seq<Request>)
    returns (replies: seq<Reply>, ghost start: Moment, ghost events: seq<Event>)
    requires pool.Valid() && pool.arenas == [] && pool.issued <= next && HalfWords(requests)
    modifies pool
    ensures pool.Valid() && Answers(events, requests, replies)
    ensures start == Moment(old(pool.State()), next, {}) && Chain(start, events, Happens)
    ensures pool.State() == MomentAt(start, events, |events|).pool && Apart(events)
    ensures forall i :: 0 <= i < |replies| - 1 ==> !replies[i].Panicked?
    ensures |replies| < |requests| ==> replies != [] && replies[|replies| - 1].Panicked?
  {
    start := Moment(pool.State(), next, {});
    ghost var good := MeansHappens();
    replies, events := RunFrom(pool, requests, start, next, good);
    ChainOf(start, events, good);
    RunsApart(start, events);
  }

  /** A run so far: its events follow on one another and answer the requests, and only the last may be a panic. */
  ghost predicate Ran(
    start: Moment, events: seq<Event>, requests: seq<Request>, replies: seq<Reply>, good: Event -> bool)
  {
    && Chain(start, events, good) && Answers(events, requests, replies)
    && forall i :: 0 <= i < |replies| - 1 ==> !replies[i].Panicked?
  }

  lemma RanMore(
    start: Moment, events: seq<Event>, requests: seq<Request>, replies: seq<Reply>, good: Event -> bool, e: Event)
    requires Ran(start, events, requests, replies, good) && |replies| < |requests|
    requires replies != [] ==> !replies[|replies| - 1].Panicked?
    requires good(e) && e.before == MomentAt(start, events, |events|) && e.request == requests[|replies|]
    ensures Ran(start, events + [e], requests, replies + [e.reply], good)
  {
    ChainMore(start, events, e, good);
  }

  /** The same from any pool in order. */
  method RunFrom(pool: SlabPool, requests: seq<Request>, ghost start: Moment, next: nat, ghost good: Event -> bool)
    returns (replies: seq<Reply>, ghost events: seq<Event>)
    requires pool.Valid() && pool.issued <= next && HalfWords(requests) && Means(good)
    requires start.pool == pool.State() && start.next == next
    modifies pool
    ensures pool.Valid() && Ran(start, events, requests, replies, good)
    ensures pool.State() == MomentAt(start, events, |events|).pool
    ensures |replies| < |requests| ==> replies != [] && replies[|replies| - 1].Panicked?
  {
    events, replies := [], [];
    ghost var now := start;
    var id, panicked := next, false;
    while |replies| < |requests| && !panicked
      invariant pool.Valid() && pool.issued <= id && Ran(start, events, requests, replies, good)
      invariant now == MomentAt(start, events, |events|) && now.pool == pool.State() && now.next == id
      invariant panicked <==> replies != [] && replies[|replies| - 1].Panicked?
    {
      ghost var e;
      var reply;
      reply, id, e := GoodStep(pool, requests[|replies|], id, now, good);
      RanMore(start, events, requests, replies, good, e);
      events, replies, now, panicked := events + [e], replies + [reply], e.after, reply.Panicked?;
    }
  }

  method GoodStep(pool: SlabPool, request: Request, next: nat, ghost now: Moment, ghost good: Event -> bool)
    returns (reply: Reply, next': nat, ghost e: Event)
    requires pool.Valid() && pool.issued <= next && (request.Free? ==> request.id.slot < 65536) && Means(good)
    requires now.pool == pool.State() && now.next == next
    modifies pool
    ensures pool.Valid() && pool.issued <= next' && good(e)
    ensures e.before == now && e.request == request && e.reply == reply
    ensures e.after.pool == pool.State() && e.after.next == next'
  {
    reply, next', e := Step(pool, request, next, now.held);
    assert MeansAt(good, e);
  }

  // ---- The quota ceiling ----

  /** `n` tensor arenas, all full, behind one of the application cache that is empty since `start`. */
  ghost predicate ColdThenFull(arenas: seq<Arena>, lastActive: seq<nat>, n: nat, start: nat) {
    && |arenas| == |lastActive| == n + 1 && arenas[0].kind == AppSmall && arenas[0].live == 0 && lastActive[0] == start
    && forall i :: 1 <= i <= n ==> arenas[i].kind == Tensor2MB && IsFull(arenas[i])
  }

  /** A new pool after its first small slot. */
  method OneAppArena(maxTotalBytes: nat, start: nat) returns (pool: SlabPool)
    requires CanPass(maxTotalBytes / MEGASLAB_BYTES)
    ensures fresh(pool) && pool.Valid() && pool.maxMegaslabs == maxTotalBytes / MEGASLAB_BYTES && pool.issued <= 2
    ensures pool.arenas == [FirstTaken(1, AppSmall)] && pool.lastActive == [start]
  {
    pool := new SlabPool(maxTotalBytes);
    ghost var p := pool.State();
    var r, recycled := pool.Allocate(AppSmall, World(1, true, start), {});
    GrewBelow(p, pool.State(), FirstTaken(1, AppSmall), AppSmall, start);
  }

  /** Free that slot: the arena is empty. */
  method EmptyAppArena(pool: SlabPool, start: nat)
    requires pool.Valid() && pool.arenas == [FirstTaken(1, AppSmall)] && pool.lastActive == [start]
    modifies pool
    ensures pool.Valid() && pool.issued == old(pool.issued)
    ensures ColdThenFull(pool.arenas, pool.lastActive, 0, start) && pool.claimedTensor == 0
  {
    assert Owned(pool.arenas, 1) by {
      assert pool.arenas[0].slabId == 1;
    }
    var ok := pool.Deallocate(Block(1, 0), {});
    OneArena(pool.arenas[0]);
  }

  /** One more tensor block below the ceiling: a new arena, full at once. */
  method OneMoreTensor(pool: SlabPool, n: nat, start: nat)
    requires pool.Valid() && CanPass(pool.maxMegaslabs) && ColdThenFull(pool.arenas, pool.lastActive, n, start)
    requires pool.claimedTensor == n < HardCeiling(pool.maxMegaslabs) && pool.issued <= n + 2
    modifies pool
    ensures pool.Valid() && ColdThenFull(pool.arenas, pool.lastActive, n + 1, start)
    ensures pool.claimedTensor == n + 1 && pool.issued <= n + 3
  {
    NoActiveRoom(pool, n, start);
    var world := World(n + 2, true, start);
    ghost var p := pool.State();
    var r, recycled := pool.Allocate(Tensor2MB, world, {});
    GrewBelow(p, pool.State(), FirstTaken(world.slabId, Tensor2MB), Tensor2MB, start);
    OneMoreFull(p.arenas, p.stamps, n, start, world);
  }

  lemma OneMoreFull(arenas: seq<Arena>, stamps: seq<nat>, n: nat, start: nat, world: World)
    requires ColdThenFull(arenas, stamps, n, start)
    ensures ColdThenFull(arenas + [FirstTaken(world.slabId, Tensor2MB)], stamps + [world.now], n + 1, start)
  {
  }

  lemma NoActiveRoom(pool: SlabPool, n: nat, start: nat)
    requires pool.Valid() && ColdThenFull(pool.arenas, pool.lastActive, n, start)
    ensures !ActiveRoom(pool.index, pool.arenas, ClassIndex(Tensor2MB))
  {
    assert ActiveOk(pool.arenas, pool.index.active[5], 5);
  }

  /**
   In every pool that can be driven past it, tensor blocks up to the hard ceiling and, half a minute later, one more
   leave the tensor workload with more megaslabs than its ceiling.
   */
  method CeilingIsPassed(maxTotalBytes: nat, start: nat) returns (pool: SlabPool)
    requires CanPass(maxTotalBytes / MEGASLAB_BYTES)
    ensures pool.Valid() && pool.maxMegaslabs == maxTotalBytes / MEGASLAB_BYTES
    ensures pool.claimedTensor == pool.tensorCeiling + 1
  {
    pool := OneAppArena(maxTotalBytes, start);
    EmptyAppArena(pool, start);
    var n := 0;
    while n < pool.tensorCeiling
      invariant 0 <= n <= pool.tensorCeiling == HardCeiling(pool.maxMegaslabs) && fresh(pool)
      invariant pool.Valid() && ColdThenFull(pool.arenas, pool.lastActive, n, start)
      invariant pool.claimedTensor == n && pool.issued <= n + 2
    {
      OneMoreTensor(pool, n, start);
      n := n + 1;
    }
    NoActiveRoom(pool, n, start);
    assert Cold(pool.arenas[0], pool.lastActive[0], Tensor2MB, start + COLD_SECS);
    var r, recycled := pool.Allocate(Tensor2MB, World(n + 2, true, start + COLD_SECS), {});
  }

  /** A pool of one megaslab or none has a ceiling of zero and never serves anything. */
  lemma OneMegaslabServesNothing(pool: SlabPool, kind: SlabClass, world: World)
    requires pool.Valid() && pool.maxMegaslabs <= 1
    ensures pool.arenas == [] && !pool.State().CanGrow(kind, world)
  {
    CountOfAll(pool.arenas);
  }

  lemma OneArena(a: Arena)
    ensures CountOf([a], true) == if IsTensor(a.kind) then 1 else 0
    ensures CountOf([a], false) == if IsTensor(a.kind) then 0 else 1
  {
    assert [a][..0] == [];
  }
}
