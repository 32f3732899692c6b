/** When an upsert fits, and how compaction and growth on the way preserve the answer. */
module FrameSizing {
  import opened Machine
  import opened OpenAddressing
  import opened FrameModel
  import opened FrameRehash

  datatype FrameError = FrameFull | CorruptFrame
  datatype Result<+T> = Success(value: T) | Failure(error: FrameError)

  /** The bucket count a rebuilt frame would start its doublings from. */
  function Base(f: Frame): (k: nat)
    requires |f.dir| > 0
    ensures k > 0
  {
    if f.dead == 0 then |f.dir| else DefaultK(f.Cap())
  }

  /** Room for the pair once the frame has been compacted and its directory doubled as often as needed. */
  ghost predicate Fits(f: Frame, field: Bytes, value: Bytes)
    requires |f.dir| > 0
  {
    var needed := HEADER_SIZE + LiveBytes(f.dir) + |field| + |value|;
    if field in Pairs(f) then
      |value| <= |Pairs(f)[field]| || needed + BUCKET_SIZE * GrowTo(Base(f), f.live) <= f.Cap()
    else
      needed + BUCKET_SIZE * GrowTo(Base(f), f.live + 1) <= f.Cap()
  }

  ghost function OldSize(f: Frame, field: Bytes): nat {
    if field in Pairs(f) then |field| + |Pairs(f)[field]| else 0
  }

  /** `g` is what upserting into `f` leaves, and `r` what it returns. */
  ghost predicate Upserted(f: Frame, g: Frame, field: Bytes, value: Bytes, r: Result<bool>)
    requires |f.dir| > 0
  {
    && (r.Success? <==> Fits(f, field, value))
    && (r.Failure? ==> r.error.FrameFull? && Pairs(g) == Pairs(f) && LiveBytes(g.dir) == LiveBytes(f.dir))
    && (r.Success? ==>
          && r.value == (field !in Pairs(f))
          && Pairs(g) == Pairs(f)[field := value]
          && LiveBytes(g.dir) == LiveBytes(f.dir) + |field| + |value| - OldSize(f, field))
    && (g.dead == 0 ==> |g.dir| == GrowTo(Base(f), g.live))
    && (f.dead == 0 && field !in Pairs(f) ==> g.dead == 0)
  }

  lemma LiveIsSize(f: Frame, hash: Bytes -> u32)
    requires Ok(f, hash)
    ensures f.live == |Pairs(f)|
  {
    ContentsSize(Cells(f.dir, f.heap));
  }

  lemma BaseWithin(f: Frame, n: nat)
    requires Sized(f) && 10 * n < 7 * |f.dir|
    ensures GrowTo(Base(f), n) <= |f.dir|
  {
    GrowToLeast(Base(f), n, |f.dir|);
  }

  // ---- The retries ----

  /** `c` is a compacted form of `f`. */
  ghost predicate CompactedFrom(f: Frame, c: Frame) {
    && c.Cap() == f.Cap() && c.dead == 0 && c.live == f.live
    && Pairs(c) == Pairs(f) && LiveBytes(c.dir) == LiveBytes(f.dir)
    && |c.dir| == GrowTo(DefaultK(f.Cap()), f.live)
  }

  lemma FitsCompacted(f: Frame, c: Frame, field: Bytes, value: Bytes, k: nat)
    requires |f.dir| > 0 && |c.dir| > 0 && CompactedFrom(f, c) && k > 0 && Base(f) == k
    requires |c.dir| == GrowTo(k, f.live)
    ensures Fits(c, field, value) <==> Fits(f, field, value)
  {
    GrowToThrough(k, f.live, f.live);
    GrowToThrough(k, f.live, f.live + 1);
  }

  lemma ViaCompact(f: Frame, c: Frame, g: Frame, field: Bytes, value: Bytes, r: Result<bool>)
    requires |f.dir| > 0 && f.dead > 0 && CompactedFrom(f, c) && Upserted(c, g, field, value, r)
    requires f.live <= g.live
    ensures Upserted(f, g, field, value, r)
  {
    var k := DefaultK(f.Cap());
    FitsCompacted(f, c, field, value, k);
    GrowToThrough(k, f.live, g.live);
  }

  /** `c` is `f` with its directory doubled. */
  ghost predicate GrownFrom(f: Frame, c: Frame) {
    && c.Cap() == f.Cap() && c.live == f.live && c.dead == f.dead && c.payloadEnd == f.payloadEnd
    && Pairs(c) == Pairs(f) && LiveBytes(c.dir) == LiveBytes(f.dir)
    && |c.dir| == 2 * |f.dir|
  }

  lemma FitsGrown(f: Frame, c: Frame, field: Bytes, value: Bytes)
    requires Sized(f) && Accounted(f) && f.dead == 0 && GrownFrom(f, c) && field !in Pairs(f)
    requires f.payloadEnd + |field| + |value| + BUCKET_SIZE * (2 * |f.dir|) <= f.Cap()
    ensures Fits(c, field, value)
  {
    assert 10 * (c.live + 1) < 7 * |c.dir|;
  }

  lemma FitsBeforeGrown(f: Frame, c: Frame, field: Bytes, value: Bytes)
    requires |f.dir| > 0 && f.dead == 0 && GrownFrom(f, c) && field !in Pairs(f) && 10 * (f.live + 1) >= 7 * |f.dir|
    requires Fits(c, field, value)
    ensures Fits(f, field, value)
  {
  }

  lemma ViaGrow(f: Frame, c: Frame, g: Frame, field: Bytes, value: Bytes, r: Result<bool>)
    requires |f.dir| > 0 && f.dead == 0 && GrownFrom(f, c) && field !in Pairs(f)
    requires 10 * (f.live + 1) >= 7 * |f.dir|
    requires Upserted(c, g, field, value, r) && r.Success? && g.live == f.live + 1
    ensures Upserted(f, g, field, value, r)
  {
  }

  lemma NextBucketCount(f: Frame)
    requires Sized(f) && HEADER_SIZE + BUCKET_SIZE * (2 * |f.dir|) <= f.Cap()
    ensures IsBucketCount(2 * |f.dir|) && 2 * |f.dir| <= 256
  {
  }

  // ---- The direct cases ----

  lemma PresentOverwritten(f: Frame, i: nat, field: Bytes, value: Bytes, hash: Bytes -> u32)
    requires Ok(f, hash) && HoldsAt(Cells(f.dir, f.heap), i, field) && |value| <= f.dir[i].valLen
    ensures var g := Overwritten(f, i, value, hash(field));
            Ok(g, hash) && Upserted(f, g, field, value, Success(false))
  {
    OverwriteOk(f, i, value, hash);
    OverwrittenAccounted(f, i, value, hash(field));
    ContentsAt(Cells(f.dir, f.heap), i);
  }

  lemma PresentRelocated(f: Frame, i: nat, field: Bytes, value: Bytes, hash: Bytes -> u32)
    requires Ok(f, hash) && HoldsAt(Cells(f.dir, f.heap), i, field)
    requires f.payloadEnd + |field| + |value| <= HEADER_SIZE + |f.heap|
    ensures var g := Appended(f, i, field, value, hash(field), false);
            Ok(g, hash) && Upserted(f, g, field, value, Success(false))
  {
    RelocateOk(f, i, value, hash);
    AppendedAccounted(f, i, field, value, hash(field), false);
    ContentsAt(Cells(f.dir, f.heap), i);
    BaseWithin(f, f.live);
  }

  lemma PresentFull(f: Frame, i: nat, field: Bytes, value: Bytes, hash: Bytes -> u32)
    requires Ok(f, hash) && HoldsAt(Cells(f.dir, f.heap), i, field) && f.dead == 0
    requires |value| > f.dir[i].valLen && f.payloadEnd + |field| + |value| > HEADER_SIZE + |f.heap|
    ensures Upserted(f, f, field, value, Failure(FrameFull))
  {
    ContentsAt(Cells(f.dir, f.heap), i);
  }

  lemma MissingFits(f: Frame, field: Bytes, value: Bytes)
    requires Sized(f) && Accounted(f) && field !in Pairs(f) && 10 * (f.live + 1) < 7 * |f.dir|
    requires f.payloadEnd + |field| + |value| <= HEADER_SIZE + |f.heap|
    ensures Fits(f, field, value)
    ensures f.dead == 0 ==> GrowTo(Base(f), f.live + 1) == |f.dir|
  {
    BaseWithin(f, f.live + 1);
  }

  lemma MissingAppended(f: Frame, i: nat, field: Bytes, value: Bytes, hash: Bytes -> u32)
    requires Ok(f, hash) && field != [] && field !in Pairs(f)
    requires f.payloadEnd + |field| + |value| <= HEADER_SIZE + |f.heap| && 10 * (f.live + 1) < 7 * |f.dir|
    requires i < |f.dir| && !IsLive(f.dir[i]) && PathClear(Cells(f.dir, f.heap), hash(field) % |f.dir|, i)
    ensures var g := Appended(f, i, field, value, hash(field), true);
            Ok(g, hash) && Upserted(f, g, field, value, Success(true))
  {
    MissingFits(f, field, value);
    AppendNewOk(f, i, field, value, hash);
    AppendedAccounted(f, i, field, value, hash(field), true);
  }

  /** Neither a larger directory nor the payload fits in a frame without dead bytes. */
  lemma MissingFull(f: Frame, field: Bytes, value: Bytes, hash: Bytes -> u32)
    requires Ok(f, hash) && field !in Pairs(f) && f.dead == 0
    requires if 10 * (f.live + 1) >= 7 * |f.dir|
             then f.payloadEnd + |field| + |value| + BUCKET_SIZE * |f.dir| > HEADER_SIZE + |f.heap|
             else f.payloadEnd + |field| + |value| > HEADER_SIZE + |f.heap|
    ensures Upserted(f, f, field, value, Failure(FrameFull))
  {
  }

  // ---- An empty field ----

  /** What storing an empty field leaves: the old pairs, the field not among them, and one too many in the count. */
  ghost predicate Spoiled(f: Frame, g: Frame) {
    && Pairs(g) == Pairs(f) && [] !in Pairs(g) && g.live == |Pairs(g)| + 1
    && Distinct(Cells(g.dir, g.heap))
  }

  /** A bucket for an empty field reads as empty, so the count of live buckets is off by one. */
  lemma EmptyFieldBreaks(f: Frame, i: nat, value: Bytes, h: u32, hash: Bytes -> u32)
    requires Ok(f, hash) && i < |f.dir| && !IsLive(f.dir[i])
    requires f.payloadEnd + |value| <= HEADER_SIZE + |f.heap|
    ensures var g := Appended(f, i, [], value, h, true); !Ok(g, hash) && Spoiled(f, g)
  {
    var g := Appended(f, i, [], value, h, true);
    var c := Cells(f.dir, f.heap);
    var d := Cells(g.dir, g.heap);
    forall j | 0 <= j < |f.dir| && j != i
      ensures d[j] == c[j]
    {
      CellKept(f.heap, f.payloadEnd - HEADER_SIZE, [] + value, f.dir[j], |f.dir|);
    }
    ContentsUnchanged(c, d);
    LiveIsSize(f, hash);
    NoEmptyField(f);
  }

  lemma NoEmptyField(f: Frame)
    ensures [] !in Pairs(f)
  {
  }

  ghost predicate LiveInHeap(f: Frame) {
    forall i :: 0 <= i < |f.dir| && IsLive(f.dir[i]) ==> InHeap(f.dir[i], HEADER_SIZE + |f.heap|)
  }

  /** The regions it leaves live are where they were. */
  lemma EmptyFieldLeavesHeap(f: Frame, i: nat, value: Bytes, h: u32)
    requires Accounted(f) && i < |f.dir| && HEADER_SIZE + |f.heap| <= MAX_SLOT_CAPACITY
    requires f.payloadEnd + |value| <= HEADER_SIZE + |f.heap|
    ensures var g := Appended(f, i, [], value, h, true);
            |g.heap| == |f.heap| && LiveInHeap(g)
  {
  }

  // ---- Rebuilding from a list of pairs ----

  function SumPairs(ps: seq<(Bytes, Bytes)>): nat {
    if ps == [] then 0 else SumPairs(ps[..|ps| - 1]) + |ps[|ps| - 1].0| + |ps[|ps| - 1].1|
  }

  lemma {:induction false} SumPairsPrefix(ps: seq<(Bytes, Bytes)>, j: nat)
    requires j <= |ps|
    ensures SumPairs(ps[..j]) <= SumPairs(ps)
    decreases |ps|
  {
    if j == |ps| {
      assert ps[..j] == ps;
    } else {
      var rest := ps[..|ps| - 1];
      assert rest[..j] == ps[..j];
      SumPairsPrefix(rest, j);
    }
  }

  lemma {:induction false} SumOfBuckets(heap: Bytes, bs: seq<Bucket>)
    requires forall p :: 0 <= p < |bs| ==> IsLive(bs[p]) && InHeap(bs[p], HEADER_SIZE + |heap|)
    ensures SumPairs(PairsOf(heap, bs)) == LiveBytes(bs)
  {
    if bs != [] {
      SumOfBuckets(heap, bs[..|bs| - 1]);
      assert PairsOf(heap, bs)[..|bs| - 1] == PairsOf(heap, bs[..|bs| - 1]);
    }
  }

  predicate NonEmptyFields(ps: seq<(Bytes, Bytes)>) {
    forall i :: 0 <= i < |ps| ==> ps[i].0 != []
  }

  /** What a frame lists: its map, its size, its payload bytes, no field twice and none empty. */
  lemma ListingFacts(f: Frame, hash: Bytes -> u32)
    requires Accounted(f) && Indexed(f, hash)
    ensures var ps := PairsOf(f.heap, LiveBuckets(f.dir, |f.dir|));
            && MapOfPairs(ps) == Pairs(f) && |ps| == f.live && DistinctKeys(ps)
            && SumPairs(ps) == LiveBytes(f.dir) && NonEmptyFields(ps)
  {
    ListingOf(f, hash);
    SumOfBuckets(f.heap, LiveBuckets(f.dir, |f.dir|));
  }

  /** `g` holds exactly the first `j` pairs, without dead bytes and in the least directory. */
  ghost predicate Rebuilt(g: Frame, ps: seq<(Bytes, Bytes)>, j: nat)
    requires j <= |ps|
  {
    && g.dead == 0 && g.live == j
    && Pairs(g) == MapOfPairs(ps[..j])
    && LiveBytes(g.dir) == SumPairs(ps[..j])
    && |g.dir| == GrowTo(DefaultK(g.Cap()), j)
  }

  /** The bytes a frame needs for `ps`: header, payload and the least directory. */
  function NeededFor(cap: nat, ps: seq<(Bytes, Bytes)>): nat {
    HEADER_SIZE + SumPairs(ps) + BUCKET_SIZE * GrowTo(DefaultK(cap), |ps|)
  }

  lemma NeededMonotone(cap: nat, ps: seq<(Bytes, Bytes)>, j: nat)
    requires j <= |ps|
    ensures NeededFor(cap, ps[..j]) <= NeededFor(cap, ps)
  {
    SumPairsPrefix(ps, j);
    GrowToThrough(DefaultK(cap), j, |ps|);
  }

  lemma RebuiltNew(g: Frame, ps: seq<(Bytes, Bytes)>, j: nat)
    requires j < |ps| && Rebuilt(g, ps, j) && DistinctKeys(ps)
    ensures ps[j].0 !in Pairs(g)
  {
    MapOfPairsKeys(ps[..j], ps[j].0);
  }

  /** The next pair fits exactly when the pairs up to it do. */
  lemma RebuiltFits(g: Frame, ps: seq<(Bytes, Bytes)>, j: nat)
    requires j < |ps| && Rebuilt(g, ps, j) && |g.dir| > 0 && DistinctKeys(ps)
    ensures Fits(g, ps[j].0, ps[j].1) <==> NeededFor(g.Cap(), ps[..j + 1]) <= g.Cap()
  {
    RebuiltNew(g, ps, j);
    assert ps[..j + 1][..j] == ps[..j];
    GrowToThrough(DefaultK(g.Cap()), j, j + 1);
  }

  lemma RebuiltStep(g: Frame, g': Frame, ps: seq<(Bytes, Bytes)>, j: nat, r: Result<bool>)
    requires j < |ps| && Rebuilt(g, ps, j) && |g.dir| > 0 && DistinctKeys(ps) && g'.Cap() == g.Cap()
    requires Upserted(g, g', ps[j].0, ps[j].1, r) && r.Success? && g'.live == j + 1
    ensures Rebuilt(g', ps, j + 1)
  {
    RebuiltNew(g, ps, j);
    PrefixMore(ps, j);
    GrowToThrough(DefaultK(g.Cap()), j, j + 1);
  }

  lemma PrefixMore(ps: seq<(Bytes, Bytes)>, j: nat)
    requires j < |ps|
    ensures MapOfPairs(ps[..j + 1]) == MapOfPairs(ps[..j])[ps[j].0 := ps[j].1]
    ensures SumPairs(ps[..j + 1]) == SumPairs(ps[..j]) + |ps[j].0| + |ps[j].1|
  {
    assert ps[..j + 1][..j] == ps[..j];
  }

  /** Every frame has room for its own pairs, listed in any class at least as large. */
  lemma OwnPairsFit(f: Frame, ps: seq<(Bytes, Bytes)>, hash: Bytes -> u32)
    requires Ok(f, hash) && SumPairs(ps) == LiveBytes(f.dir) && |ps| == f.live
    ensures NeededFor(f.Cap(), ps) <= f.Cap()
  {
    GrowToLeast(DefaultK(f.Cap()), f.live, |f.dir|);
  }
}
