/** Upsert and compaction, which call each other. */
module HashFrameUpsert {
  import opened Machine
  import opened OpenAddressing
  import opened FrameModel
  import opened FrameRehash
  import opened FrameBytes
  import opened FrameSizing
  import opened HashSlotFrame

  /** What an upsert leaves in the slot. */
  ghost predicate Outcome(f: Frame, s: Bytes, field: Bytes, value: Bytes, r: Result<bool>, hash: Bytes -> u32)
    requires |f.dir| > 0
  {
    if field != [] || r.Failure? then
      Holds(s, hash) && Upserted(f, View(s), field, value, r)
    else
      r == Success(true) && Fits(f, [], value) && SpoiledSlot(f, s, hash)
  }

  /**
   A slot in which an empty field was stored: its header is accepted and it is no frame; it lists the old pairs and
   counts one more.
   */
  ghost predicate SpoiledSlot(f: Frame, s: Bytes, hash: Bytes -> u32) {
    HeaderOk(s) && !Holds(s, hash) && Spoiled(f, View(s)) && LiveInHeap(View(s))
  }

  /** Dead bytes of a slot, zero when it is too short to have a header. */
  function DeadIn(s: Bytes): nat {
    if |s| < HEADER_SIZE then 0 else U16Of(s[6..8])
  }

  function KIn(s: Bytes): nat {
    if |s| < HEADER_SIZE then 0 else KOf(s)
  }

  /** `upsert`: true for a new field, false for an update. */
  method Upsert(slot: array<u8>, field: Bytes, value: Bytes, hash: Bytes -> u32) returns (r: Result<bool>)
    requires Sound(slot[..], hash)
    modifies slot
    ensures !old(HeaderOk(slot[..])) ==> r == Failure(CorruptFrame) && slot[..] == old(slot[..])
    ensures old(HeaderOk(slot[..])) ==> Outcome(old(View(slot[..])), slot[..], field, value, r, hash)
    decreases if DeadIn(slot[..]) > 0 then 2 else 0, 512 - KIn(slot[..])
  {
    if !HeaderOk(slot[..]) {
      return Failure(CorruptFrame);
    }
    var f := View(slot[..]);
    var search := UpsertProbe(slot, field, hash);
    match search {
      case Present(i) =>
        r := UpsertPresent(slot, field, value, hash, i);
      case Missing(i, tombstones) =>
        r := UpsertMissing(slot, field, value, hash, i, tombstones);
    }
  }

  /** Case A of `upsert`: bucket `i` holds the field. */
  method UpsertPresent(slot: array<u8>, field: Bytes, value: Bytes, hash: Bytes -> u32, i: nat)
    returns (r: Result<bool>)
    requires Holds(slot[..], hash) && SearchIs(View(slot[..]), field, hash, Present(i))
    modifies slot
    ensures Outcome(old(View(slot[..])), slot[..], field, value, r, hash)
    decreases if DeadIn(slot[..]) > 0 then 2 else 0, 512 - KIn(slot[..]), 1
  {
    var f := View(slot[..]);
    PresentNonEmpty(f, field, i);
    if |value| <= f.dir[i].valLen {
      OverwritePresent(slot, field, value, hash, i);
      return Success(false);
    }
    if f.payloadEnd + |field| + |value| > HEADER_SIZE + |f.heap| {
      if f.dead > 0 {
        r := CompactAndRetry(slot, field, value, hash);
        return;
      }
      PresentFull(f, i, field, value, hash);
      return Failure(FrameFull);
    }
    RelocatePresent(slot, field, value, hash, i);
    return Success(false);
  }

  lemma PresentNonEmpty(f: Frame, field: Bytes, i: nat)
    requires HoldsAt(Cells(f.dir, f.heap), i, field)
    ensures field != [] && IsLive(f.dir[i])
  {
  }

  method OverwritePresent(slot: array<u8>, field: Bytes, value: Bytes, hash: Bytes -> u32, i: nat)
    requires Holds(slot[..], hash) && HoldsAt(Cells(View(slot[..]).dir, View(slot[..]).heap), i, field)
    requires |value| <= View(slot[..]).dir[i].valLen
    modifies slot
    ensures Outcome(old(View(slot[..])), slot[..], field, value, Success(false), hash)
  {
    ghost var f := View(slot[..]);
    PresentNonEmpty(f, field, i);
    PresentOverwritten(f, i, field, value, hash);
    OverwriteValue(slot, i, value, hash(field));
  }

  method RelocatePresent(slot: array<u8>, field: Bytes, value: Bytes, hash: Bytes -> u32, i: nat)
    requires Holds(slot[..], hash) && HoldsAt(Cells(View(slot[..]).dir, View(slot[..]).heap), i, field)
    requires View(slot[..]).payloadEnd + |field| + |value| <= HEADER_SIZE + |View(slot[..]).heap|
    modifies slot
    ensures Outcome(old(View(slot[..])), slot[..], field, value, Success(false), hash)
  {
    ghost var f := View(slot[..]);
    PresentNonEmpty(f, field, i);
    PresentRelocated(f, i, field, value, hash);
    AppendPair(slot, i, field, value, hash(field), false);
  }

  /** Case B of `upsert`: the field is not in the frame. */
  method UpsertMissing(slot: array<u8>, field: Bytes, value: Bytes, hash: Bytes -> u32, i: nat, tombstones: nat)
    returns (r: Result<bool>)
    requires Holds(slot[..], hash) && SearchIs(View(slot[..]), field, hash, Missing(i, tombstones))
    modifies slot
    ensures Outcome(old(View(slot[..])), slot[..], field, value, r, hash)
    decreases if DeadIn(slot[..]) > 0 then 2 else 0, 512 - KIn(slot[..]), 1
  {
    var f := View(slot[..]);
    var k := |f.dir|;
    if (f.live + 1 + tombstones) * 10 >= k * 7 {
      if f.dead > 0 || tombstones > 0 {
        r := CompactAndRetry(slot, field, value, hash);
        return;
      }
      if HEADER_SIZE + |f.heap| >= f.payloadEnd + |field| + |value| + k * BUCKET_SIZE {
        r := GrowAndRetry(slot, field, value, hash);
        return;
      }
      MissingFull(f, field, value, hash);
      return Failure(FrameFull);
    }
    if f.payloadEnd + |field| + |value| > HEADER_SIZE + |f.heap| {
      if f.dead > 0 {
        r := CompactAndRetry(slot, field, value, hash);
        return;
      }
      MissingFull(f, field, value, hash);
      return Failure(FrameFull);
    }
    if field == [] {
      StoreEmptyField(slot, value, hash, i);
    } else {
      MissingAppended(f, i, field, value, hash);
      AppendPair(slot, i, field, value, hash(field), true);
    }
    return Success(true);
  }

  /** The same statements on an empty field. */
  method StoreEmptyField(slot: array<u8>, value: Bytes, hash: Bytes -> u32, i: nat)
    requires Holds(slot[..], hash) && i < KOf(slot[..]) && !IsLive(View(slot[..]).dir[i])
    requires 10 * (View(slot[..]).live + 1) < 7 * KOf(slot[..])
    requires View(slot[..]).payloadEnd + |value| <= HEADER_SIZE + |View(slot[..]).heap|
    modifies slot
    ensures Fits(old(View(slot[..])), [], value) && SpoiledSlot(old(View(slot[..])), slot[..], hash)
  {
    ghost var s := slot[..];
    EmptyFieldFits(View(s), value, hash);
    AppendPair(slot, i, [], value, hash([]), true);
    SpoiledBytes(s, slot[..], i, value, hash);
  }

  lemma EmptyFieldFits(f: Frame, value: Bytes, hash: Bytes -> u32)
    requires Ok(f, hash) && 10 * (f.live + 1) < 7 * |f.dir| && f.payloadEnd + |value| <= HEADER_SIZE + |f.heap|
    ensures Fits(f, [], value)
  {
    NoEmptyField(f);
    MissingFits(f, [], value);
  }

  lemma SpoiledBytes(s: Bytes, t: Bytes, i: nat, value: Bytes, hash: Bytes -> u32)
    requires Holds(s, hash) && i < KOf(s) && !IsLive(View(s).dir[i])
    requires View(s).payloadEnd + |value| <= HEADER_SIZE + |View(s).heap| <= MAX_SLOT_CAPACITY
    requires HasDirectory(t) && View(t) == Appended(View(s), i, [], value, hash([]), true)
    ensures SpoiledSlot(View(s), t, hash)
  {
    EmptyFieldBreaks(View(s), i, value, hash([]), hash);
    EmptyFieldLeavesHeap(View(s), i, value, hash([]));
    HoldsHeader(s, hash);
    HeaderFromView(s, t);
  }

  /** The header check reads the size, the bucket count and the end of the payload. */
  lemma HeaderFromView(s: Bytes, t: Bytes)
    requires HeaderOk(s) && HasDirectory(t) && |View(t).dir| == |View(s).dir| && |View(t).heap| == |View(s).heap|
    requires HEADER_SIZE <= View(t).payloadEnd <= HEADER_SIZE + |View(t).heap|
    ensures HeaderOk(t)
  {
  }

  method CompactAndRetry(slot: array<u8>, field: Bytes, value: Bytes, hash: Bytes -> u32) returns (r: Result<bool>)
    requires Holds(slot[..], hash) && View(slot[..]).dead > 0
    modifies slot
    ensures Outcome(old(View(slot[..])), slot[..], field, value, r, hash)
    decreases 1, 1
  {
    ghost var f := View(slot[..]);
    HoldsHeader(slot[..], hash);
    var compacted := Compact(slot, hash);
    ghost var c := View(slot[..]);
    HoldsHeader(slot[..], hash);
    r := Upsert(slot, field, value, hash);
    OutcomeViaCompact(f, c, slot[..], field, value, r, hash);
  }

  lemma OutcomeViaCompact(f: Frame, c: Frame, s: Bytes, field: Bytes, value: Bytes, r: Result<bool>, hash: Bytes -> u32)
    requires |f.dir| > 0 && f.dead > 0 && Ok(c, hash) && CompactedFrom(f, c) && Outcome(c, s, field, value, r, hash)
    ensures Outcome(f, s, field, value, r, hash)
  {
    if field != [] || r.Failure? {
      UpsertedLive(c, View(s), field, value, r, hash);
      ViaCompact(f, c, View(s), field, value, r);
    } else {
      FitsCompacted(f, c, field, value, DefaultK(f.Cap()));
    }
  }

  lemma UpsertedLive(f: Frame, g: Frame, field: Bytes, value: Bytes, r: Result<bool>, hash: Bytes -> u32)
    requires Ok(f, hash) && Ok(g, hash) && Upserted(f, g, field, value, r)
    ensures g.live == if r.Success? && field !in Pairs(f) then f.live + 1 else f.live
  {
    LiveIsSize(f, hash);
    LiveIsSize(g, hash);
  }

  method GrowAndRetry(slot: array<u8>, field: Bytes, value: Bytes, hash: Bytes -> u32) returns (r: Result<bool>)
    requires Holds(slot[..], hash) && View(slot[..]).dead == 0 && field !in Pairs(View(slot[..]))
    requires 10 * (View(slot[..]).live + 1) >= 7 * KOf(slot[..])
    requires View(slot[..]).payloadEnd + |field| + |value| + BUCKET_SIZE * (2 * KOf(slot[..])) <= slot.Length
    modifies slot
    ensures Outcome(old(View(slot[..])), slot[..], field, value, r, hash)
    decreases 0, 512 - KIn(slot[..]), 0
  {
    ghost var f := View(slot[..]);
    NextBucketCount(f);
    GrowDirectory(slot, 2 * KOf(slot[..]), hash);
    ghost var c := View(slot[..]);
    HoldsHeader(slot[..], hash);
    FitsGrown(f, c, field, value);
    r := Upsert(slot, field, value, hash);
    OutcomeViaGrow(f, c, slot[..], field, value, r, hash);
  }

  lemma OutcomeViaGrow(f: Frame, c: Frame, s: Bytes, field: Bytes, value: Bytes, r: Result<bool>, hash: Bytes -> u32)
    requires |f.dir| > 0 && f.dead == 0 && Ok(f, hash) && Ok(c, hash) && GrownFrom(f, c) && field !in Pairs(f)
    requires 10 * (f.live + 1) >= 7 * |f.dir| && Fits(c, field, value) && Outcome(c, s, field, value, r, hash)
    ensures Outcome(f, s, field, value, r, hash)
  {
    if field != [] || r.Failure? {
      UpsertedLive(c, View(s), field, value, r, hash);
      ViaGrow(f, c, View(s), field, value, r);
    } else {
      FitsBeforeGrown(f, c, field, value);
    }
  }

  /** `iter_pairs`: the live pairs in directory order, for any bytes at all. */
  method IterPairs(slot: array<u8>, ghost hash: Bytes -> u32) returns (ps: seq<(Bytes, Bytes)>)
    ensures ps == Listed(slot[..])
    ensures Holds(slot[..], hash) ==> IsListing(View(slot[..]), ps)
  {
    ListedIs(slot[..], hash);
    if !HeaderOk(slot[..]) || View(slot[..]).live == 0 {
      return [];
    }
    ps := ListBuckets(slot[..]);
  }

  method ListBuckets(s: Bytes) returns (ps: seq<(Bytes, Bytes)>)
    requires HasDirectory(s)
    ensures ps == ListedBelow(s, KOf(s))
  {
    ps := [];
    for i := 0 to KOf(s)
      invariant ps == ListedBelow(s, i)
    {
      var b := ReadBucket(s, i);
      if Lists(s, b) {
        ps := ps + [(FieldIn(s, b), ValueIn(s, b))];
      }
    }
  }

  /** `ps` lists the frame: its map, no field twice, none empty, and no payload byte more or less. */
  ghost predicate IsListing(f: Frame, ps: seq<(Bytes, Bytes)>) {
    && MapOfPairs(ps) == Pairs(f) && |ps| == f.live && DistinctKeys(ps)
    && NonEmptyFields(ps) && SumPairs(ps) == LiveBytes(f.dir)
  }

  lemma ListedIs(s: Bytes, hash: Bytes -> u32)
    ensures Holds(s, hash) ==> IsListing(View(s), Listed(s))
  {
    if Holds(s, hash) {
      HoldsHeader(s, hash);
      ListingFacts(View(s), hash);
      ListedBelowIs(s, KOf(s));
    }
  }

  /** A spoiled slot lists exactly the old pairs, one fewer than it counts. */
  lemma SpoiledLists(f: Frame, s: Bytes, hash: Bytes -> u32)
    requires SpoiledSlot(f, s, hash)
    ensures MapOfPairs(Listed(s)) == Pairs(f) && LiveIn(s) == |Listed(s)| + 1
  {
    var g := View(s);
    var c := Cells(g.dir, g.heap);
    ListedBelowIs(s, KOf(s));
    PairsOfLiveBuckets(g.dir, g.heap, |g.dir|);
    LivePairsAreContents(c, |c|);
    LivePairsCount(c, |c|);
    ContentsSize(c);
  }

  /** `compact`: rebuild the frame from its live pairs. */
  method Compact(slot: array<u8>, hash: Bytes -> u32) returns (r: Result<()>)
    requires Sound(slot[..], hash)
    modifies slot
    ensures !old(HeaderOk(slot[..])) ==> r == Failure(CorruptFrame) && slot[..] == old(slot[..])
    ensures old(HeaderOk(slot[..])) ==>
              r.Success? && Holds(slot[..], hash) && CompactedFrom(old(View(slot[..])), View(slot[..]))
    decreases 1, 0
  {
    if !HeaderOk(slot[..]) {
      return Failure(CorruptFrame);
    }
    Reinsert(slot, hash);
    return Success(());
  }

  method Reinsert(slot: array<u8>, hash: Bytes -> u32)
    requires Holds(slot[..], hash)
    modifies slot
    ensures Holds(slot[..], hash) && CompactedFrom(old(View(slot[..])), View(slot[..]))
    decreases 0, 4096
  {
    ghost var f := View(slot[..]);
    var ps := IterPairs(slot, hash);
    OwnPairsFit(f, ps, hash);
    Rebuild(slot, ps, hash);
    assert ps[..|ps|] == ps;
  }

  /** Reset the frame and upsert the pairs again; the results of the upserts are ignored. */
  method Rebuild(slot: array<u8>, ps: seq<(Bytes, Bytes)>, hash: Bytes -> u32)
    requires 64 <= slot.Length <= MAX_SLOT_CAPACITY && NeededFor(slot.Length, ps) <= slot.Length
    requires DistinctKeys(ps) && NonEmptyFields(ps)
    modifies slot
    ensures Holds(slot[..], hash) && Rebuilt(View(slot[..]), ps, |ps|)
    decreases 0, 2048
  {
    NeededMonotone(slot.Length, ps, 0);
    var ignored := Init(slot, hash);
    var j := 0;
    while j < |ps|
      invariant 0 <= j <= |ps| && Holds(slot[..], hash) && Rebuilt(View(slot[..]), ps, j)
    {
      NeededMonotone(slot.Length, ps, j + 1);
      var r := UpsertNext(slot, ps, j, hash);
      j := j + 1;
    }
  }

  /** Upsert pair `j` of a list into a frame that holds the pairs before it. */
  method UpsertNext(slot: array<u8>, ps: seq<(Bytes, Bytes)>, j: nat, hash: Bytes -> u32) returns (r: Result<bool>)
    requires Holds(slot[..], hash) && j < |ps| && Rebuilt(View(slot[..]), ps, j)
    requires DistinctKeys(ps) && NonEmptyFields(ps)
    modifies slot
    ensures Holds(slot[..], hash)
    ensures r.Success? <==> NeededFor(slot.Length, ps[..j + 1]) <= slot.Length
    ensures r.Success? ==> Rebuilt(View(slot[..]), ps, j + 1)
    ensures r.Failure? ==> r.error.FrameFull?
    decreases 0, 1024
  {
    ghost var g := View(slot[..]);
    HoldsHeader(slot[..], hash);
    RebuiltFits(g, ps, j);
    r := Upsert(slot, ps[j].0, ps[j].1, hash);
    if r.Success? {
      UpsertedLive(g, View(slot[..]), ps[j].0, ps[j].1, r, hash);
      RebuiltNew(g, ps, j);
      RebuiltStep(g, View(slot[..]), ps, j, r);
    }
  }
}
