/** Rebuilding a frame's directory: an empty frame, and moving live buckets into a larger directory. */
module FrameRehash {
  import opened Machine
  import opened OpenAddressing
  import opened FrameModel

  // ---- The live buckets of a directory, in order ----

  function LiveBuckets(dir: seq<Bucket>, n: nat): (bs: seq<Bucket>)
    requires n <= |dir|
    ensures forall p :: 0 <= p < |bs| ==> IsLive(bs[p])
  {
    if n == 0 then []
    else if IsLive(dir[n - 1]) then LiveBuckets(dir, n - 1) + [dir[n - 1]]
    else LiveBuckets(dir, n - 1)
  }

  function PairOf(heap: Bytes, b: Bucket): (Bytes, Bytes) {
    if InHeap(b, HEADER_SIZE + |heap|) then (FieldOf(heap, b), ValueOf(heap, b)) else ([], [])
  }

  function PairsOf(heap: Bytes, bs: seq<Bucket>): (ps: seq<(Bytes, Bytes)>)
    ensures |ps| == |bs|
    ensures forall p :: 0 <= p < |bs| ==> ps[p] == PairOf(heap, bs[p])
  {
    seq(|bs|, p requires 0 <= p < |bs| => PairOf(heap, bs[p]))
  }

  /** Regions of a list of buckets: all below `end`, pairwise apart. */
  ghost predicate ListLaid(bs: seq<Bucket>, end: nat) {
    && (forall p {:trigger bs[p]} :: 0 <= p < |bs| ==> InHeap(bs[p], end))
    && (forall p, q {:trigger Apart(bs[p], bs[q])} :: 0 <= p < q < |bs| ==> Apart(bs[p], bs[q]))
  }

  /** Where in the directory the p-th live bucket sits. */
  lemma {:induction false} LiveBucketAt(dir: seq<Bucket>, n: nat, p: nat) returns (i: nat)
    requires n <= |dir| && p < |LiveBuckets(dir, n)|
    ensures i < n && IsLive(dir[i]) && LiveBuckets(dir, n)[p] == dir[i]
    ensures |LiveBuckets(dir, i)| == p
  {
    if IsLive(dir[n - 1]) && p == |LiveBuckets(dir, n - 1)| {
      i := n - 1;
    } else {
      i := LiveBucketAt(dir, n - 1, p);
    }
  }

  lemma {:induction false} LiveBucketsMonotone(dir: seq<Bucket>, m: nat, n: nat)
    requires m <= n <= |dir|
    ensures |LiveBuckets(dir, m)| <= |LiveBuckets(dir, n)|
  {
    if m < n { LiveBucketsMonotone(dir, m, n - 1); }
  }

  lemma LiveBucketsLaid(dir: seq<Bucket>, end: nat)
    requires Laid(dir, end)
    ensures ListLaid(LiveBuckets(dir, |dir|), end)
  {
    var bs := LiveBuckets(dir, |dir|);
    forall p | 0 <= p < |bs|
      ensures InHeap(bs[p], end)
    {
      var i := LiveBucketAt(dir, |dir|, p);
    }
    forall p, q | 0 <= p < q < |bs|
      ensures Apart(bs[p], bs[q])
    {
      var i := LiveBucketAt(dir, |dir|, p);
      var j := LiveBucketAt(dir, |dir|, q);
      if j <= i { LiveBucketsMonotone(dir, j, i); }
      assert Apart(dir[i], dir[j]);
    }
  }

  lemma {:induction false} LiveBucketsBytes(dir: seq<Bucket>, n: nat)
    requires n <= |dir|
    ensures LiveBytes(LiveBuckets(dir, n)) == LiveBytes(dir[..n])
  {
    if n > 0 {
      LiveBucketsBytes(dir, n - 1);
      assert dir[..n][..n - 1] == dir[..n - 1];
      var bs := LiveBuckets(dir, n);
      assert IsLive(dir[n - 1]) ==> bs[..|bs| - 1] == LiveBuckets(dir, n - 1);
    }
  }

  /** The pairs listed from the buckets are the pairs listed from the ring. */
  lemma {:induction false} PairsOfLiveBuckets(dir: seq<Bucket>, heap: Bytes, n: nat)
    requires n <= |dir|
    requires forall i :: 0 <= i < |dir| && IsLive(dir[i]) ==> InHeap(dir[i], HEADER_SIZE + |heap|)
    ensures PairsOf(heap, LiveBuckets(dir, n)) == LivePairs(Cells(dir, heap), n)
  {
    if n > 0 {
      PairsOfLiveBuckets(dir, heap, n - 1);
    }
  }

  // ---- Placing buckets one by one into an empty directory ----

  /** The first `j` buckets of `bs`, and nothing else, have been placed. */
  ghost predicate Placed(dir: seq<Bucket>, heap: Bytes, bs: seq<Bucket>, j: nat)
    requires j <= |bs|
  {
    && Valid(Cells(dir, heap))
    && Contents(Cells(dir, heap)) == MapOfPairs(PairsOf(heap, bs)[..j])
    && |LiveSlots(Cells(dir, heap))| == j
    && LiveBytes(dir) == LiveBytes(bs[..j])
    && (forall a {:trigger dir[a]} :: 0 <= a < |dir| ==> dir[a] == EMPTY_BUCKET || dir[a] in bs[..j])
  }

  function EmptyDir(k: nat): (dir: seq<Bucket>)
    ensures |dir| == k && forall i :: 0 <= i < k ==> dir[i] == EMPTY_BUCKET
  {
    seq(k, i => EMPTY_BUCKET)
  }

  lemma {:induction false} EmptyDirBytes(dir: seq<Bucket>)
    requires forall i :: 0 <= i < |dir| ==> dir[i] == EMPTY_BUCKET
    ensures LiveBytes(dir) == 0
  {
    if dir != [] { EmptyDirBytes(dir[..|dir| - 1]); }
  }

  lemma PlacedNone(k: nat, heap: Bytes, bs: seq<Bucket>)
    requires k > 0
    ensures Placed(EmptyDir(k), heap, bs, 0)
  {
    EmptyDirBytes(EmptyDir(k));
    assert LiveSlots(Cells(EmptyDir(k), heap)) == {};
    assert Contents(Cells(EmptyDir(k), heap)) == map[];
  }

  lemma PlacedStepCells(dir: seq<Bucket>, heap: Bytes, ps: seq<(Bytes, Bytes)>, j: nat, b: Bucket, i: nat)
    requires Valid(Cells(dir, heap)) && j < |ps| && Contents(Cells(dir, heap)) == MapOfPairs(ps[..j])
    requires IsLive(b) && InHeap(b, HEADER_SIZE + |heap|) && ps[j] == PairOf(heap, b) && DistinctKeys(ps)
    requires i < |dir| && dir[i] == EMPTY_BUCKET && PathClear(Cells(dir, heap), b.hash32 % |dir|, i)
    ensures Valid(Cells(dir[i := b], heap))
    ensures Contents(Cells(dir[i := b], heap)) == MapOfPairs(ps[..j + 1])
    ensures |LiveSlots(Cells(dir[i := b], heap))| == |LiveSlots(Cells(dir, heap))| + 1
  {
    var c := Cells(dir, heap);
    MapOfPairsKeys(ps[..j], ps[j].0);
    assert ps[..j + 1][..j] == ps[..j];
    assert Cells(dir[i := b], heap) == c[i := Live(b.hash32 % |dir|, ps[j].0, ps[j].1)];
    PutNew(c, i, b.hash32 % |dir|, ps[j].0, ps[j].1);
    assert i !in LiveSlots(c);
  }

  lemma PlacedStep(dir: seq<Bucket>, heap: Bytes, bs: seq<Bucket>, j: nat, i: nat)
    requires j < |bs| && Placed(dir, heap, bs, j)
    requires IsLive(bs[j]) && InHeap(bs[j], HEADER_SIZE + |heap|) && DistinctKeys(PairsOf(heap, bs))
    requires i < |dir| && dir[i] == EMPTY_BUCKET && PathClear(Cells(dir, heap), bs[j].hash32 % |dir|, i)
    ensures Placed(dir[i := bs[j]], heap, bs, j + 1)
  {
    PlacedStepCells(dir, heap, PairsOf(heap, bs), j, bs[j], i);
    PlacedStepBytes(dir, bs, j, i);
    PlacedFrom(dir, bs, j, i);
  }

  lemma PlacedStepBytes(dir: seq<Bucket>, bs: seq<Bucket>, j: nat, i: nat)
    requires j < |bs| && i < |dir| && dir[i] == EMPTY_BUCKET && LiveBytes(dir) == LiveBytes(bs[..j])
    ensures LiveBytes(dir[i := bs[j]]) == LiveBytes(bs[..j + 1])
  {
    LiveBytesUpdate(dir, i, bs[j]);
    assert bs[..j + 1][..j] == bs[..j];
  }

  lemma PlacedFrom(dir: seq<Bucket>, bs: seq<Bucket>, j: nat, i: nat)
    requires j < |bs| && i < |dir|
    requires forall a {:trigger dir[a]} :: 0 <= a < |dir| ==> dir[a] == EMPTY_BUCKET || dir[a] in bs[..j]
    ensures forall a {:trigger dir[i := bs[j]][a]} ::
              0 <= a < |dir| ==> dir[i := bs[j]][a] == EMPTY_BUCKET || dir[i := bs[j]][a] in bs[..j + 1]
  {
    assert bs[..j + 1] == bs[..j] + [bs[j]];
  }

  /** A directory with fewer buckets placed than it has slots still has an empty one. */
  lemma PlacedRoom(dir: seq<Bucket>, heap: Bytes, bs: seq<Bucket>, j: nat)
    requires j <= |bs| && Placed(dir, heap, bs, j) && j < |dir|
    requires forall p :: 0 <= p < |bs| ==> IsLive(bs[p]) && InHeap(bs[p], HEADER_SIZE + |heap|)
    ensures exists i :: 0 <= i < |dir| && dir[i] == EMPTY_BUCKET
  {
    var c := Cells(dir, heap);
    SlotCensus(c);
    forall a | 0 <= a < |dir| && dir[a] != EMPTY_BUCKET
      ensures c[a].Live?
    {
      assert dir[a] in bs[..j];
    }
    assert Tombstones(c) == {};
    if EmptySlots(c) != {} {
      var i :| i in EmptySlots(c);
      assert dir[i] == EMPTY_BUCKET;
    }
  }

  /** Placed buckets keep the regions they came with. */
  lemma PlacedLaid(dir: seq<Bucket>, heap: Bytes, bs: seq<Bucket>, end: nat)
    requires Placed(dir, heap, bs, |bs|) && ListLaid(bs, end) && end <= HEADER_SIZE + |heap|
    ensures Laid(dir, end)
  {
    assert bs[..|bs|] == bs;
    forall a, b | 0 <= a < b < |dir| && IsLive(dir[a]) && IsLive(dir[b])
      ensures Apart(dir[a], dir[b])
    {
      PlacedApart(dir, heap, a, b);
      ListApart(bs, end, dir[a], dir[b]);
    }
  }

  lemma ListApart(bs: seq<Bucket>, end: nat, a: Bucket, b: Bucket)
    requires ListLaid(bs, end) && a in bs && b in bs && a != b
    ensures Apart(a, b)
  {
    var p :| 0 <= p < |bs| && bs[p] == a;
    var q :| 0 <= q < |bs| && bs[q] == b;
    assert if p < q then Apart(bs[p], bs[q]) else Apart(bs[q], bs[p]);
  }

  lemma PlacedApart(dir: seq<Bucket>, heap: Bytes, a: nat, b: nat)
    requires Distinct(Cells(dir, heap)) && a < b < |dir| && IsLive(dir[a])
    requires InHeap(dir[a], HEADER_SIZE + |heap|)
    ensures dir[a] != dir[b]
  {
    var c := Cells(dir, heap);
    var field := FieldOf(heap, dir[a]);
    assert HoldsAt(c, a, field);
    assert !HoldsAt(c, b, field);
  }

  // ---- Growing the directory ----

  /** The heap left when `bytes` more bytes go to the directory. */
  function Cut(heap: Bytes, bytes: nat): Bytes
    requires bytes <= |heap|
  {
    heap[..|heap| - bytes]
  }

  lemma PairsOfCut(heap: Bytes, bytes: nat, bs: seq<Bucket>)
    requires bytes <= |heap|
    requires forall p :: 0 <= p < |bs| ==> InHeap(bs[p], HEADER_SIZE + |heap| - bytes)
    ensures PairsOf(Cut(heap, bytes), bs) == PairsOf(heap, bs)
  {
    forall p | 0 <= p < |bs|
      ensures PairOf(Cut(heap, bytes), bs[p]) == PairOf(heap, bs[p])
    {
      CutKeeps(heap, bytes, bs[p]);
    }
  }

  lemma CutKeeps(heap: Bytes, bytes: nat, b: Bucket)
    requires bytes <= |heap| && InHeap(b, HEADER_SIZE + |heap| - bytes)
    ensures FieldOf(Cut(heap, bytes), b) == FieldOf(heap, b)
    ensures ValueOf(Cut(heap, bytes), b) == ValueOf(heap, b)
  {
  }

  /** What a frame lists bucket by bucket: its map, its size, no field twice. */
  lemma ListingOf(f: Frame, hash: Bytes -> u32)
    requires Accounted(f) && Indexed(f, hash)
    ensures var ps := PairsOf(f.heap, LiveBuckets(f.dir, |f.dir|));
            MapOfPairs(ps) == Pairs(f) && |ps| == f.live && DistinctKeys(ps)
    ensures ListLaid(LiveBuckets(f.dir, |f.dir|), f.payloadEnd)
    ensures LiveBytes(LiveBuckets(f.dir, |f.dir|)) == LiveBytes(f.dir)
  {
    var c := Cells(f.dir, f.heap);
    PairsOfLiveBuckets(f.dir, f.heap, |f.dir|);
    LivePairsAreContents(c, |c|);
    LivePairsCount(c, |c|);
    LivePairsDistinct(c, |c|);
    ContentsBelowAll(c);
    assert LiveBelow(c, |c|) == LiveSlots(c);
    LiveBucketsLaid(f.dir, f.payloadEnd);
    LiveBucketsBytes(f.dir, |f.dir|);
    assert f.dir[..|f.dir|] == f.dir;
  }

  lemma {:induction false} LiveBucketsFrom(dir: seq<Bucket>, n: nat, b: Bucket)
    requires n <= |dir| && b in LiveBuckets(dir, n)
    ensures b in dir
  {
    if !(IsLive(dir[n - 1]) && b == dir[n - 1]) {
      LiveBucketsFrom(dir, n - 1, b);
    }
  }

  lemma GrownIndexed(f: Frame, dir: seq<Bucket>, bytes: nat, hash: Bytes -> u32)
    requires Accounted(f) && Indexed(f, hash) && bytes <= |f.heap| && f.payloadEnd <= HEADER_SIZE + |f.heap| - bytes
    requires Placed(dir, Cut(f.heap, bytes), LiveBuckets(f.dir, |f.dir|), |LiveBuckets(f.dir, |f.dir|)|)
    ensures var g := Frame(f.live, f.payloadEnd, f.dead, dir, Cut(f.heap, bytes));
            Indexed(g, hash) && Pairs(g) == Pairs(f)
  {
    var g := Frame(f.live, f.payloadEnd, f.dead, dir, Cut(f.heap, bytes));
    var bs := LiveBuckets(f.dir, |f.dir|);
    ListingOf(f, hash);
    PairsOfCut(f.heap, bytes, bs);
    assert PairsOf(g.heap, bs)[..|bs|] == PairsOf(f.heap, bs);
    assert bs[..|bs|] == bs;
    GrownHashed(f, g, bytes, hash);
    NoTombstonePlaced(dir, bs);
  }

  lemma GrownHashed(f: Frame, g: Frame, bytes: nat, hash: Bytes -> u32)
    requires Hashed(f, hash) && bytes <= |f.heap| && g.heap == Cut(f.heap, bytes)
    requires forall a {:trigger g.dir[a]} ::
               0 <= a < |g.dir| ==> g.dir[a] == EMPTY_BUCKET || g.dir[a] in LiveBuckets(f.dir, |f.dir|)
    ensures Hashed(g, hash)
  {
    forall a | 0 <= a < |g.dir| && IsLive(g.dir[a]) && InHeap(g.dir[a], HEADER_SIZE + |g.heap|)
      ensures g.dir[a].hash32 == hash(FieldOf(g.heap, g.dir[a]))
    {
      LiveBucketsFrom(f.dir, |f.dir|, g.dir[a]);
      CutKeeps(f.heap, bytes, g.dir[a]);
    }
  }

  lemma NoTombstonePlaced(dir: seq<Bucket>, bs: seq<Bucket>)
    requires forall p :: 0 <= p < |bs| ==> IsLive(bs[p])
    requires forall a {:trigger dir[a]} :: 0 <= a < |dir| ==> dir[a] == EMPTY_BUCKET || dir[a] in bs
    ensures forall a :: 0 <= a < |dir| ==> dir[a].fieldLen != TOMBSTONE_FIELD_LEN
  {
  }

  lemma GrownAccounted(f: Frame, dir: seq<Bucket>, bytes: nat, hash: Bytes -> u32)
    requires Accounted(f) && Indexed(f, hash) && bytes <= |f.heap| && f.payloadEnd <= HEADER_SIZE + |f.heap| - bytes
    requires Placed(dir, Cut(f.heap, bytes), LiveBuckets(f.dir, |f.dir|), |LiveBuckets(f.dir, |f.dir|)|)
    ensures Accounted(Frame(f.live, f.payloadEnd, f.dead, dir, Cut(f.heap, bytes)))
  {
    var bs := LiveBuckets(f.dir, |f.dir|);
    ListingOf(f, hash);
    assert bs[..|bs|] == bs;
    PlacedLaid(dir, Cut(f.heap, bytes), bs, f.payloadEnd);
  }

  // ---- The empty frame ----

  function FreshFrame(cap: nat, heap: Bytes): Frame {
    Frame(0, HEADER_SIZE, 0, EmptyDir(DefaultK(cap)), heap)
  }

  lemma FreshOk(cap: nat, heap: Bytes, hash: Bytes -> u32)
    requires 64 <= cap <= MAX_SLOT_CAPACITY && HEADER_SIZE + |heap| + BUCKET_SIZE * DefaultK(cap) == cap
    ensures Ok(FreshFrame(cap, heap), hash) && Tight(FreshFrame(cap, heap))
    ensures Pairs(FreshFrame(cap, heap)) == map[] && FreshFrame(cap, heap).Cap() == cap
    ensures LiveBytes(FreshFrame(cap, heap).dir) == 0
  {
    var k := DefaultK(cap);
    PlacedNone(k, heap, []);
  }
}
