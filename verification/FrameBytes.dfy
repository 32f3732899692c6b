/** The byte layout of a hash frame: how a slot decodes, and what each write to it changes. */
module FrameBytes {
  import opened Machine
  import opened LittleEndian
  import opened FrameModel
  import opened FrameRehash

  // ---- Buckets ----

  function U16Of(b: Bytes): u16
    requires |b| == 2
  {
    LeNatBound(b);
    Pow256Values();
    LeNat(b)
  }

  function U32Of(b: Bytes): u32
    requires |b| == 4
  {
    LeNatBound(b);
    Pow256Values();
    LeNat(b)
  }

  function EncodeBucket(b: Bucket): (r: Bytes)
    ensures |r| == BUCKET_SIZE
  {
    LeBytes(b.hash32, 4) + LeBytes(b.offset, 2) + LeBytes(b.fieldLen, 2) + LeBytes(b.valLen, 2)
  }

  function DecodeBucket(r: Bytes): Bucket
    requires |r| == BUCKET_SIZE
  {
    Bucket(U32Of(r[0..4]), U16Of(r[4..6]), U16Of(r[6..8]), U16Of(r[8..10]))
  }

  lemma BucketRoundTrip(b: Bucket)
    ensures DecodeBucket(EncodeBucket(b)) == b
  {
    var r := EncodeBucket(b);
    Pow256Values();
    LeRoundTrip(b.hash32, 4);
    LeRoundTrip(b.offset, 2);
    LeRoundTrip(b.fieldLen, 2);
    LeRoundTrip(b.valLen, 2);
    assert r[0..4] == LeBytes(b.hash32, 4);
    assert r[4..6] == LeBytes(b.offset, 2);
    assert r[6..8] == LeBytes(b.fieldLen, 2);
    assert r[8..10] == LeBytes(b.valLen, 2);
  }

  lemma {:induction false} ZerosDecodeToZero(b: Bytes)
    requires forall i :: 0 <= i < |b| ==> b[i] == 0
    ensures LeNat(b) == 0
  {
    if b != [] { ZerosDecodeToZero(b[1..]); }
  }

  lemma ZeroBucket(r: Bytes)
    requires |r| == BUCKET_SIZE && forall i :: 0 <= i < |r| ==> r[i] == 0
    ensures DecodeBucket(r) == EMPTY_BUCKET
  {
    ZerosDecodeToZero(r[0..4]);
    ZerosDecodeToZero(r[4..6]);
    ZerosDecodeToZero(r[6..8]);
    ZerosDecodeToZero(r[8..10]);
  }

  // ---- The slot ----

  /** Bucket `i` sits `i + 1` buckets before the end of the slot. */
  function BucketOffset(cap: nat, i: nat): nat
    requires BUCKET_SIZE * (i + 1) <= cap
  {
    cap - BUCKET_SIZE * (i + 1)
  }

  function ReadBucket(s: Bytes, i: nat): Bucket
    requires BUCKET_SIZE * (i + 1) <= |s|
  {
    DecodeBucket(s[BucketOffset(|s|, i)..BucketOffset(|s|, i) + BUCKET_SIZE])
  }

  function KOf(s: Bytes): nat
    requires |s| >= HEADER_SIZE
  {
    U16Of(s[2..4]) + 1
  }

  predicate HasDirectory(s: Bytes) {
    |s| >= HEADER_SIZE && HEADER_SIZE + BUCKET_SIZE * KOf(s) <= |s|
  }

  function ViewDir(s: Bytes, k: nat): (dir: seq<Bucket>)
    requires BUCKET_SIZE * k <= |s|
    ensures |dir| == k
    ensures forall i :: 0 <= i < k ==> dir[i] == ReadBucket(s, i)
  {
    seq(k, i requires 0 <= i < k => ReadBucket(s, i))
  }

  /** The frame a slot decodes to. */
  function View(s: Bytes): (f: Frame)
    requires HasDirectory(s)
    ensures f.Cap() == |s|
  {
    Frame(U16Of(s[0..2]), U16Of(s[4..6]), U16Of(s[6..8]),
          ViewDir(s, KOf(s)), s[HEADER_SIZE..|s| - BUCKET_SIZE * KOf(s)])
  }

  function HeaderBytes(live: u16, mask: u16, payloadEnd: u16, dead: u16): (r: Bytes)
    ensures |r| == HEADER_SIZE
  {
    LeBytes(live, 2) + LeBytes(mask, 2) + LeBytes(payloadEnd, 2) + LeBytes(dead, 2)
  }

  lemma HeaderDecodes(s: Bytes, live: u16, mask: u16, payloadEnd: u16, dead: u16)
    requires |s| >= HEADER_SIZE && s[..HEADER_SIZE] == HeaderBytes(live, mask, payloadEnd, dead)
    ensures U16Of(s[0..2]) == live && U16Of(s[2..4]) == mask
    ensures U16Of(s[4..6]) == payloadEnd && U16Of(s[6..8]) == dead
  {
    var h := HeaderBytes(live, mask, payloadEnd, dead);
    Pow256Values();
    LeRoundTrip(live, 2);
    LeRoundTrip(mask, 2);
    LeRoundTrip(payloadEnd, 2);
    LeRoundTrip(dead, 2);
    assert s[0..2] == h[0..2] == LeBytes(live, 2);
    assert s[2..4] == h[2..4] == LeBytes(mask, 2);
    assert s[4..6] == h[4..6] == LeBytes(payloadEnd, 2);
    assert s[6..8] == h[6..8] == LeBytes(dead, 2);
  }

  // ---- What each write changes ----

  /** Slots that agree on the bytes of a directory of `k` buckets have the same directory. */
  lemma SameDirectory(s: Bytes, t: Bytes, k: nat)
    requires |s| == |t| && BUCKET_SIZE * k <= |s|
    requires forall i :: |s| - BUCKET_SIZE * k <= i < |s| ==> s[i] == t[i]
    ensures ViewDir(s, k) == ViewDir(t, k)
  {
    forall i | 0 <= i < k
      ensures ReadBucket(s, i) == ReadBucket(t, i)
    {
      var o := BucketOffset(|s|, i);
      assert s[o..o + BUCKET_SIZE] == t[o..o + BUCKET_SIZE];
    }
  }

  /** Rewriting the header with the same mask changes the counters only. */
  lemma WriteHeaderView(s: Bytes, live: u16, mask: u16, payloadEnd: u16, dead: u16)
    requires HasDirectory(s) && mask + 1 == KOf(s)
    ensures var t := Splice(s, 0, HeaderBytes(live, mask, payloadEnd, dead));
            HasDirectory(t) && View(t) == View(s).(live := live, payloadEnd := payloadEnd, dead := dead)
  {
    var t := Splice(s, 0, HeaderBytes(live, mask, payloadEnd, dead));
    HeaderDecodes(t, live, mask, payloadEnd, dead);
    SameDirectory(s, t, KOf(s));
    SpliceOutside(s, 0, HeaderBytes(live, mask, payloadEnd, dead), HEADER_SIZE, |s| - BUCKET_SIZE * KOf(s));
  }

  lemma WriteBucketDir(s: Bytes, k: nat, i: nat, b: Bucket)
    requires i < k && BUCKET_SIZE * k <= |s|
    ensures ViewDir(Splice(s, BucketOffset(|s|, i), EncodeBucket(b)), k) == ViewDir(s, k)[i := b]
  {
    var t := Splice(s, BucketOffset(|s|, i), EncodeBucket(b));
    SpliceInside(s, BucketOffset(|s|, i), EncodeBucket(b));
    BucketRoundTrip(b);
    forall j | 0 <= j < k && j != i
      ensures ReadBucket(t, j) == ReadBucket(s, j)
    {
      SpliceOutside(s, BucketOffset(|s|, i), EncodeBucket(b), BucketOffset(|s|, j), BucketOffset(|s|, j) + BUCKET_SIZE);
    }
  }

  /** Rewriting a bucket changes that bucket only. */
  lemma WriteBucketView(s: Bytes, i: nat, b: Bucket)
    requires HasDirectory(s) && i < KOf(s)
    ensures var t := Splice(s, BucketOffset(|s|, i), EncodeBucket(b));
            HasDirectory(t) && View(t) == View(s).(dir := View(s).dir[i := b])
  {
    var t := Splice(s, BucketOffset(|s|, i), EncodeBucket(b));
    WriteBucketDir(s, KOf(s), i, b);
    SameHeader(s, t);
    SpliceOutside(s, BucketOffset(|s|, i), EncodeBucket(b), HEADER_SIZE, |s| - BUCKET_SIZE * KOf(s));
  }

  lemma SameHeader(s: Bytes, t: Bytes)
    requires |s| == |t| && |s| >= HEADER_SIZE && forall i :: 0 <= i < HEADER_SIZE ==> s[i] == t[i]
    ensures U16Of(s[0..2]) == U16Of(t[0..2]) && U16Of(s[2..4]) == U16Of(t[2..4])
    ensures U16Of(s[4..6]) == U16Of(t[4..6]) && U16Of(s[6..8]) == U16Of(t[6..8])
  {
    assert s[0..2] == t[0..2] && s[2..4] == t[2..4] && s[4..6] == t[4..6] && s[6..8] == t[6..8];
  }

  /** Writing between header and directory changes the heap only. */
  lemma WriteHeapView(s: Bytes, at: nat, bytes: Bytes)
    requires HasDirectory(s) && HEADER_SIZE <= at && at + |bytes| <= |s| - BUCKET_SIZE * KOf(s)
    ensures var t := Splice(s, at, bytes);
            HasDirectory(t) && View(t) == View(s).(heap := Splice(View(s).heap, at - HEADER_SIZE, bytes))
  {
    var t := Splice(s, at, bytes);
    SameHeader(s, t);
    SameDirectory(s, t, KOf(s));
  }

  /** Zeroing the tail of the slot and setting the mask gives an empty directory over the shortened heap. */
  lemma ResetDirectoryView(s: Bytes, t: Bytes, live: u16, mask: u16, payloadEnd: u16, dead: u16)
    requires |t| == |s| && HEADER_SIZE + BUCKET_SIZE * (mask + 1) <= |s|
    requires t[..HEADER_SIZE] == HeaderBytes(live, mask, payloadEnd, dead)
    requires forall i :: |s| - BUCKET_SIZE * (mask + 1) <= i < |s| ==> t[i] == 0
    ensures HasDirectory(t) && KOf(t) == mask + 1
    ensures View(t).live == live && View(t).payloadEnd == payloadEnd && View(t).dead == dead
    ensures forall i :: 0 <= i < mask + 1 ==> View(t).dir[i] == EMPTY_BUCKET
  {
    HeaderDecodes(t, live, mask, payloadEnd, dead);
    forall i | 0 <= i < mask + 1
      ensures ReadBucket(t, i) == EMPTY_BUCKET
    {
      ZeroBucket(t[BucketOffset(|t|, i)..BucketOffset(|t|, i) + BUCKET_SIZE]);
    }
  }

  /** The same over a slot that already had a smaller directory: the heap is cut short. */
  lemma GrowDirectoryView(s: Bytes, t: Bytes, nextK: nat)
    requires HasDirectory(s) && |t| == |s| && KOf(s) <= nextK <= 256 && HEADER_SIZE + BUCKET_SIZE * nextK <= |s|
    requires t[..HEADER_SIZE] == HeaderBytes(View(s).live, nextK - 1, View(s).payloadEnd, View(s).dead)
    requires forall i :: |s| - BUCKET_SIZE * nextK <= i < |s| ==> t[i] == 0
    requires forall i :: HEADER_SIZE <= i < |s| - BUCKET_SIZE * nextK ==> t[i] == s[i]
    ensures HasDirectory(t) && BUCKET_SIZE * (nextK - KOf(s)) <= |View(s).heap|
    ensures View(t) == Frame(View(s).live, View(s).payloadEnd, View(s).dead, EmptyDir(nextK),
                             Cut(View(s).heap, BUCKET_SIZE * (nextK - KOf(s))))
  {
    ResetDirectoryView(s, t, View(s).live, nextK - 1, View(s).payloadEnd, View(s).dead);
    assert View(t).heap == Cut(View(s).heap, BUCKET_SIZE * (nextK - KOf(s)));
    assert View(t).dir == EmptyDir(nextK);
  }
}
