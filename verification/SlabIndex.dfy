/**
 The lists a slab pool keeps over its arenas, how they are rebuilt, and what callers hold.
 */
module SlabIndices {
  import opened Machine
  import opened SlabArenas

  // ---- Indices over a list of arenas ----

  /** The positions of the arenas of class `c`, in order. */
  ghost function IndicesOf(arenas: seq<Arena>, c: nat): seq<nat> {
    if arenas == [] then [] else
      var n := |arenas| - 1;
      IndicesOf(arenas[..n], c) + if ClassIndex(arenas[n].kind) == c then [n] else []
  }

  lemma {:induction false} InIndices(arenas: seq<Arena>, c: nat, i: nat)
    ensures i in IndicesOf(arenas, c) <==> i < |arenas| && ClassIndex(arenas[i].kind) == c
    decreases |arenas|
  {
    if arenas != [] {
      InIndices(arenas[..|arenas| - 1], c, i);
    }
  }

  lemma IndicesOfMore(arenas: seq<Arena>, a: Arena, c: nat)
    ensures IndicesOf(arenas + [a], c) ==
            IndicesOf(arenas, c) + if ClassIndex(a.kind) == c then [|arenas|] else []
  {
    assert (arenas + [a])[..|arenas|] == arenas;
  }

  /** How many arenas serve tensors, or the application cache. */
  ghost function CountOf(arenas: seq<Arena>, tensor: bool): nat {
    if arenas == [] then 0 else
      var n := |arenas| - 1;
      CountOf(arenas[..n], tensor) + if IsTensor(arenas[n].kind) == tensor then 1 else 0
  }

  lemma CountOfMore(arenas: seq<Arena>, a: Arena, tensor: bool)
    ensures CountOf(arenas + [a], tensor) == CountOf(arenas, tensor) + if IsTensor(a.kind) == tensor then 1 else 0
  {
    assert (arenas + [a])[..|arenas|] == arenas;
  }

  lemma {:induction false} CountOfAll(arenas: seq<Arena>)
    ensures CountOf(arenas, true) + CountOf(arenas, false) == |arenas|
    decreases |arenas|
  {
    if arenas != [] {
      CountOfAll(arenas[..|arenas| - 1]);
    }
  }

  lemma {:induction false} CountOfRemoved(arenas: seq<Arena>, k: nat, tensor: bool)
    requires k < |arenas|
    ensures CountOf(Without(arenas, k), tensor) + (if IsTensor(arenas[k].kind) == tensor then 1 else 0)
         == CountOf(arenas, tensor)
    decreases |arenas|
  {
    var n := |arenas| - 1;
    if k == n {
      assert Without(arenas, k) == arenas[..n];
    } else {
      CountOfRemoved(arenas[..n], k, tensor);
      assert Without(arenas, k) == Without(arenas[..n], k) + [arenas[n]];
      CountOfMore(Without(arenas[..n], k), arenas[n], tensor);
    }
  }

  function Without<T>(s: seq<T>, k: nat): (r: seq<T>)
    requires k < |s|
    ensures |r| == |s| - 1
  {
    s[..k] + s[k + 1..]
  }

  /** Same slabs and classes, position by position. */
  ghost predicate SameSlabs(a: seq<Arena>, b: seq<Arena>) {
    |a| == |b| && forall i :: 0 <= i < |a| ==> a[i].slabId == b[i].slabId && a[i].kind == b[i].kind
  }

  lemma {:induction false} SameSlabsIndex(a: seq<Arena>, b: seq<Arena>, c: nat)
    requires SameSlabs(a, b)
    ensures IndicesOf(a, c) == IndicesOf(b, c)
    ensures CountOf(a, true) == CountOf(b, true) && CountOf(a, false) == CountOf(b, false)
    decreases |a|
  {
    if a != [] {
      var n := |a| - 1;
      SameSlabsIndex(a[..n], b[..n], c);
    }
  }

  /** `byId` sends the slab id of each arena to its position, and nothing else anywhere. */
  ghost predicate Inverse(arenas: seq<Arena>, byId: map<nat, nat>) {
    && (forall i :: 0 <= i < |arenas| ==> arenas[i].slabId in byId && byId[arenas[i].slabId] == i)
    && (forall id :: id in byId ==> byId[id] < |arenas| && arenas[byId[id]].slabId == id)
  }

  /** The active arena of class `c` is one of that class, and there is one whenever the class has any. */
  ghost predicate ActiveOk(arenas: seq<Arena>, active: Option<nat>, c: nat) {
    match active
    case Some(i) => i < |arenas| && ClassIndex(arenas[i].kind) == c
    case None => forall i :: 0 <= i < |arenas| ==> ClassIndex(arenas[i].kind) != c
  }

  datatype Indices = Indices(active: seq<Option<nat>>, classArenas: seq<seq<nat>>, byId: map<nat, nat>)

  ghost predicate Indexed(arenas: seq<Arena>, x: Indices) {
    && |x.active| == 6 && |x.classArenas| == 6
    && Inverse(arenas, x.byId)
    && (forall c :: 0 <= c < 6 ==> x.classArenas[c] == IndicesOf(arenas, c))
    && (forall c :: 0 <= c < 6 ==> ActiveOk(arenas, x.active[c], c))
  }

  ghost predicate DistinctSlabs(arenas: seq<Arena>) {
    forall i, j :: 0 <= i < j < |arenas| ==> arenas[i].slabId != arenas[j].slabId
  }

  // ---- Rebuilding the indices ----

  /** The indices of the first `n` arenas; the active arena is only ever a non-full one. */
  ghost predicate IndexedBelow(arenas: seq<Arena>, n: nat, x: Indices)
    requires n <= |arenas|
  {
    && |x.active| == 6 && |x.classArenas| == 6
    && Inverse(arenas[..n], x.byId)
    && (forall c :: 0 <= c < 6 ==> x.classArenas[c] == IndicesOf(arenas[..n], c))
    && (forall c :: 0 <= c < 6 ==> FirstFree(arenas[..n], x.active[c], c))
  }

  /** The first arena of class `c` with room, if there is one. */
  ghost predicate FirstFree(arenas: seq<Arena>, active: Option<nat>, c: nat) {
    match active
    case Some(i) =>
      && i < |arenas| && ClassIndex(arenas[i].kind) == c && !IsFull(arenas[i])
      && forall j :: 0 <= j < i ==> ClassIndex(arenas[j].kind) != c || IsFull(arenas[j])
    case None => forall j :: 0 <= j < |arenas| ==> ClassIndex(arenas[j].kind) != c || IsFull(arenas[j])
  }

  /** One step of the first rebuilding loop. */
  function IndexArena(x: Indices, a: Arena, i: nat): (x': Indices)
    requires |x.active| == 6 && |x.classArenas| == 6
  {
    var c := ClassIndex(a.kind);
    Indices(
      if !IsFull(a) && x.active[c].None? then x.active[c := Some(i)] else x.active,
      x.classArenas[c := x.classArenas[c] + [i]],
      x.byId[a.slabId := i])
  }

  lemma IndexStep(arenas: seq<Arena>, n: nat, x: Indices)
    requires n < |arenas| && DistinctSlabs(arenas) && IndexedBelow(arenas, n, x)
    ensures IndexedBelow(arenas, n + 1, IndexArena(x, arenas[n], n))
  {
    var x' := IndexArena(x, arenas[n], n);
    assert arenas[..n + 1] == arenas[..n] + [arenas[n]];
    forall c | 0 <= c < 6
      ensures x'.classArenas[c] == IndicesOf(arenas[..n + 1], c) && FirstFree(arenas[..n + 1], x'.active[c], c)
    {
      IndicesOfMore(arenas[..n], arenas[n], c);
    }
  }

  /** `rebuild_indices`: a first pass prefers arenas with room, a second settles for any. */
  method RebuildIndices(arenas: seq<Arena>) returns (x: Indices)
    requires DistinctSlabs(arenas)
    ensures Indexed(arenas, x)
    ensures forall c, i :: 0 <= c < 6 && 0 <= i < |arenas| && ClassIndex(arenas[i].kind) == c && !IsFull(arenas[i]) ==>
      FirstFree(arenas, x.active[c], c)
  {
    x := Indices([None, None, None, None, None, None], [[], [], [], [], [], []], map[]);
    for i := 0 to |arenas|
      invariant IndexedBelow(arenas, i, x)
    {
      IndexStep(arenas, i, x);
      x := IndexArena(x, arenas[i], i);
    }
    assert arenas[..|arenas|] == arenas;
    ghost var first := x;
    for i := 0 to |arenas|
      invariant |x.active| == 6 && x.classArenas == first.classArenas && x.byId == first.byId
      invariant forall c :: 0 <= c < 6 ==> SettledBelow(arenas, i, first.active[c], x.active[c], c)
    {
      var c := ClassIndex(arenas[i].kind);
      if x.active[c].None? {
        x := x.(active := x.active[c := Some(i)]);
      }
    }
  }

  /** The second pass fills in only classes whose arenas are all full. */
  ghost predicate SettledBelow(arenas: seq<Arena>, n: nat, first: Option<nat>, active: Option<nat>, c: nat)
    requires n <= |arenas|
  {
    && (first.Some? ==> active == first)
    && (active.Some? && first.None? ==> active.value < n && ClassIndex(arenas[active.value].kind) == c)
    && (active.None? ==> forall i :: 0 <= i < n ==> ClassIndex(arenas[i].kind) != c)
  }

  // ---- What callers hold ----

  ghost predicate Owned(arenas: seq<Arena>, slab: nat) {
    exists i :: 0 <= i < |arenas| && arenas[i].slabId == slab
  }

  /** Every arena is split exactly into held and free slots, and every held id is in some arena. */
  ghost predicate Clean(arenas: seq<Arena>, held: set<BlockId>) {
    && (forall i :: 0 <= i < |arenas| ==> Exact(arenas[i], held))
    && (forall h :: h in held ==> Owned(arenas, h.slab) && h.slot < 65536)
  }

  ghost predicate AllOk(arenas: seq<Arena>, issued: nat) {
    forall i :: 0 <= i < |arenas| ==> ArenaOk(arenas[i]) && 0 < arenas[i].slabId < issued
  }

  /** Replacing an arena by a later state of itself leaves the indices right. */
  lemma PutIndexed(arenas: seq<Arena>, x: Indices, i: nat, a: Arena)
    requires i < |arenas| && SameArena(arenas[i], a) && Indexed(arenas, x)
    ensures Indexed(arenas[i := a], x)
  {
    var after := arenas[i := a];
    forall c | 0 <= c < 6
      ensures x.classArenas[c] == IndicesOf(after, c) && ActiveOk(after, x.active[c], c)
    {
      SameSlabsIndex(arenas, after, c);
    }
  }

  lemma OwnedKept(a: seq<Arena>, b: seq<Arena>, slab: nat)
    requires SameSlabs(a, b) && Owned(a, slab)
    ensures Owned(b, slab)
  {
    var i :| 0 <= i < |a| && a[i].slabId == slab;
    assert b[i].slabId == slab;
  }

  /** An allocation from arena `i` adds an id that nobody held. */
  lemma AllocateClean(arenas: seq<Arena>, i: nat, held: set<BlockId>)
    requires i < |arenas| && DistinctSlabs(arenas) && ArenaOk(arenas[i]) && !IsFull(arenas[i]) && Clean(arenas, held)
    ensures var (a, id) := ArenaAllocate(arenas[i]); id !in held && Clean(arenas[i := a], held + {id})
  {
    var (a, id) := ArenaAllocate(arenas[i]);
    AllocateExact(arenas[i], held);
    var after := arenas[i := a];
    forall j | 0 <= j < |after| && j != i
      ensures Exact(after[j], held + {id})
    {
      OtherExact(arenas[j], held, id);
    }
    assert after[i].slabId == id.slab;
    forall h | h in held
      ensures Owned(after, h.slab)
    {
      OwnedKept(arenas, after, h.slab);
    }
  }

  /** Recycling a full arena hands out an id that is still held, and changes nothing else. */
  lemma RecycleClean(arenas: seq<Arena>, i: nat, held: set<BlockId>)
    requires i < |arenas| && ArenaOk(arenas[i]) && IsFull(arenas[i]) && Clean(arenas, held)
    ensures ArenaRecycle(arenas[i]).1 in held && Clean(arenas[i := ArenaRecycle(arenas[i]).0], held)
  {
    var after := arenas[i := ArenaRecycle(arenas[i]).0];
    assert Exact(arenas[i], held);
    forall h | h in held
      ensures Owned(after, h.slab)
    {
      OwnedKept(arenas, after, h.slab);
    }
  }

  /** Returning a held id to its arena `i`. */
  lemma FreeClean(arenas: seq<Arena>, i: nat, held: set<BlockId>, id: BlockId)
    requires i < |arenas| && DistinctSlabs(arenas) && ArenaOk(arenas[i]) && Clean(arenas, held)
    requires id in held && id.slab == arenas[i].slabId
    ensures Clean(arenas[i := ArenaFree(arenas[i], id)], held - {id})
  {
    var after := arenas[i := ArenaFree(arenas[i], id)];
    FreeExact(arenas[i], held, id);
    forall j | 0 <= j < |after| && j != i
      ensures Exact(after[j], held - {id})
    {
      OtherExact(arenas[j], held, id);
    }
    forall h | h in held - {id}
      ensures Owned(after, h.slab)
    {
      OwnedKept(arenas, after, h.slab);
    }
  }

  /** Dropping an arena whose counter is zero drops no held id. */
  lemma WithoutClean(arenas: seq<Arena>, k: nat, held: set<BlockId>)
    requires k < |arenas| && ArenaOk(arenas[k]) && arenas[k].live == 0 && Clean(arenas, held)
    ensures Clean(Without(arenas, k), held)
    ensures forall h :: h in held ==> h.slab != arenas[k].slabId
  {
    var after := Without(arenas, k);
    forall h | h in held
      ensures h.slab != arenas[k].slabId && Owned(after, h.slab)
    {
      EmptyHoldsNone(arenas[k], held, h);
      var i :| 0 <= i < |arenas| && arenas[i].slabId == h.slab;
      var j := if i < k then i else i - 1;
      assert after[j].slabId == h.slab;
    }
  }

  /** A new arena, with an id no arena ever had, holds nothing yet. */
  lemma AppendClean(arenas: seq<Arena>, a: Arena, issued: nat, held: set<BlockId>)
    requires Clean(arenas, held) && AllOk(arenas, issued) && issued <= a.slabId
    requires a == NewArena(a.slabId, a.kind)
    ensures Clean(arenas + [a], held)
  {
    var after := arenas + [a];
    forall h | h in held
      ensures h.slab != a.slabId && Owned(after, h.slab)
    {
      var i :| 0 <= i < |arenas| && arenas[i].slabId == h.slab;
      assert after[i].slabId == h.slab;
    }
  }

  lemma WithoutDistinct(arenas: seq<Arena>, k: nat)
    requires k < |arenas| && DistinctSlabs(arenas)
    ensures DistinctSlabs(Without(arenas, k))
  {
  }

  /** The indices with one more arena, made the active one of its class. */
  function IndexActive(x: Indices, a: Arena, i: nat): (x': Indices)
    requires |x.active| == 6 && |x.classArenas| == 6
    ensures |x'.active| == 6 && x'.active[ClassIndex(a.kind)] == Some(i)
  {
    var c := ClassIndex(a.kind);
    Indices(x.active[c := Some(i)], x.classArenas[c := x.classArenas[c] + [i]], x.byId[a.slabId := i])
  }

  lemma AppendIndexed(arenas: seq<Arena>, x: Indices, a: Arena, issued: nat)
    requires Indexed(arenas, x) && AllOk(arenas, issued) && issued <= a.slabId
    ensures Indexed(arenas + [a], IndexActive(x, a, |arenas|))
  {
    var after, x' := arenas + [a], IndexActive(x, a, |arenas|);
    forall c | 0 <= c < 6
      ensures x'.classArenas[c] == IndicesOf(after, c) && ActiveOk(after, x'.active[c], c)
    {
      IndicesOfMore(arenas, a, c);
      assert ActiveOk(arenas, x.active[c], c);
    }
    AppendInverse(arenas, x.byId, a, issued);
  }

  lemma AppendInverse(arenas: seq<Arena>, byId: map<nat, nat>, a: Arena, issued: nat)
    requires Inverse(arenas, byId) && AllOk(arenas, issued) && issued <= a.slabId
    ensures Inverse(arenas + [a], byId[a.slabId := |arenas|])
  {
  }
}
