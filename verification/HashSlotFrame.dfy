/**
 The in-slot hash frame: a complete hash map inside one byte array, updated in place.

 `hash` is the 32-bit field hash of the original, left as a parameter: everything holds for every
 hash function.
 */
module HashSlotFrame {
  import opened Machine
  import opened LittleEndian
  import opened OpenAddressing
  import opened FrameModel
  import opened FrameRehash
  import opened FrameBytes
  import opened FrameSizing

  /** `read_header` accepts the slot. */
  predicate HeaderOk(s: Bytes) {
    && |s| >= HEADER_SIZE
    && IsPowerOfTwo(KOf(s)) && 4 <= KOf(s) <= 256
    && HasDirectory(s)
    && HEADER_SIZE <= U16Of(s[4..6]) <= |s| - BUCKET_SIZE * KOf(s)
  }

  /** A slot whose header is accepted holds a frame that the operations produced. */
  ghost predicate Sound(s: Bytes, hash: Bytes -> u32) {
    HeaderOk(s) ==> Ok(View(s), hash)
  }

  ghost predicate Holds(s: Bytes, hash: Bytes -> u32) {
    HasDirectory(s) && Ok(View(s), hash)
  }

  lemma BucketCountIsPower(k: nat)
    requires IsBucketCount(k)
    ensures IsPowerOfTwo(k)
  {
    assert IsPowerOfTwo(1) && IsPowerOfTwo(2) && IsPowerOfTwo(4) && IsPowerOfTwo(8);
    assert IsPowerOfTwo(16) && IsPowerOfTwo(32) && IsPowerOfTwo(64) && IsPowerOfTwo(128);
    assert IsPowerOfTwo(256) && IsPowerOfTwo(512);
  }

  lemma HoldsHeader(s: Bytes, hash: Bytes -> u32)
    requires Holds(s, hash)
    ensures HeaderOk(s)
  {
    BucketCountIsPower(KOf(s));
  }

  /** A field read from the slot is the field of the decoded heap. */
  lemma FieldInSlot(s: Bytes, b: Bucket)
    requires HasDirectory(s) && InHeap(b, HEADER_SIZE + |View(s).heap|)
    ensures b.offset + b.fieldLen + b.valLen <= |s|
    ensures s[b.offset..b.offset + b.fieldLen] == FieldOf(View(s).heap, b)
    ensures s[b.offset + b.fieldLen..b.offset + b.fieldLen + b.valLen] == ValueOf(View(s).heap, b)
  {
    var o := b.offset - HEADER_SIZE;
    var end := |s| - BUCKET_SIZE * KOf(s);
    SubSlice(s, HEADER_SIZE, end, o, o + b.fieldLen);
    SubSlice(s, HEADER_SIZE, end, o + b.fieldLen, o + b.fieldLen + b.valLen);
  }

  // ---- Writes ----

  method Store(slot: array<u8>, at: nat, bytes: Bytes)
    requires at + |bytes| <= slot.Length
    modifies slot
    ensures slot[..] == Splice(old(slot[..]), at, bytes)
  {
    forall k | 0 <= k < |bytes| {
      slot[at + k] := bytes[k];
    }
  }

  method WriteHeader(slot: array<u8>, live: u16, mask: u16, payloadEnd: u16, dead: u16)
    requires HasDirectory(slot[..]) && mask + 1 == KOf(slot[..])
    modifies slot
    ensures HasDirectory(slot[..])
    ensures View(slot[..]) == old(View(slot[..])).(live := live, payloadEnd := payloadEnd, dead := dead)
  {
    WriteHeaderView(slot[..], live, mask, payloadEnd, dead);
    Store(slot, 0, HeaderBytes(live, mask, payloadEnd, dead));
  }

  method WriteBucket(slot: array<u8>, i: nat, b: Bucket)
    requires HasDirectory(slot[..]) && i < KOf(slot[..])
    modifies slot
    ensures HasDirectory(slot[..])
    ensures View(slot[..]) == old(View(slot[..])).(dir := old(View(slot[..])).dir[i := b])
  {
    WriteBucketView(slot[..], i, b);
    Store(slot, BucketOffset(slot.Length, i), EncodeBucket(b));
  }

  method WriteHeap(slot: array<u8>, at: nat, bytes: Bytes)
    requires HasDirectory(slot[..]) && HEADER_SIZE <= at && at + |bytes| <= HEADER_SIZE + |View(slot[..]).heap|
    modifies slot
    ensures HasDirectory(slot[..])
    ensures View(slot[..]) == old(View(slot[..])).(heap := Splice(old(View(slot[..])).heap, at - HEADER_SIZE, bytes))
  {
    WriteHeapView(slot[..], at, bytes);
    Store(slot, at, bytes);
  }

  /** `init`: an empty frame, unless the capacity is out of range or too small for its directory. */
  method Init(slot: array<u8>, ghost hash: Bytes -> u32) returns (r: Result<()>)
    modifies slot
    ensures r.Success? <==> 64 <= slot.Length <= MAX_SLOT_CAPACITY
                            && HEADER_SIZE + BUCKET_SIZE * DefaultK(slot.Length) <= slot.Length
    ensures r.Success? <==> 88 <= slot.Length <= 128 || 168 <= slot.Length <= 4096
    ensures r.Failure? ==> r.error == if 64 <= slot.Length <= MAX_SLOT_CAPACITY then FrameFull else CorruptFrame
    ensures r.Success? ==>
              && Holds(slot[..], hash) && Tight(View(slot[..])) && Pairs(View(slot[..])) == map[]
              && View(slot[..]).live == 0 && View(slot[..]).dead == 0 && LiveBytes(View(slot[..]).dir) == 0
              && |View(slot[..]).dir| == DefaultK(slot.Length)
  {
    var cap := slot.Length;
    if cap < 64 || cap > MAX_SLOT_CAPACITY {
      return Failure(CorruptFrame);
    }
    var k := DefaultK(cap);
    Store(slot, 0, HeaderBytes(0, k - 1, HEADER_SIZE, 0));
    var dirBytes := k * BUCKET_SIZE;
    if HEADER_SIZE + dirBytes > cap {
      return Failure(FrameFull);
    }
    forall i | cap - dirBytes <= i < cap {
      slot[i] := 0;
    }
    assert slot[..HEADER_SIZE] == HeaderBytes(0, k - 1, HEADER_SIZE, 0);
    ResetDirectoryView(slot[..], slot[..], 0, k - 1, HEADER_SIZE, 0);
    ghost var f := View(slot[..]);
    assert f == FreshFrame(cap, f.heap);
    FreshOk(cap, f.heap, hash);
    return Success(());
  }

  // ---- Probing ----

  /** The slots at probe distance below `n` from `home` are neither empty nor hold `field`. */
  ghost predicate Scanned(c: seq<Cell<Bytes, Bytes>>, home: nat, n: nat, field: Bytes)
    requires home < |c|
  {
    forall j :: 0 <= j < |c| && RingDistance(home, j, |c|) < n ==> !c[j].Empty? && !HoldsAt(c, j, field)
  }

  lemma ScannedStep(c: seq<Cell<Bytes, Bytes>>, home: nat, n: nat, idx: nat, field: Bytes)
    requires home < |c| && n < |c| && idx == RingStep(home, n, |c|) && Scanned(c, home, n, field)
    requires !c[idx].Empty? && !HoldsAt(c, idx, field)
    ensures Scanned(c, home, n + 1, field)
  {
  }

  lemma ScannedAll(c: seq<Cell<Bytes, Bytes>>, home: nat, field: Bytes)
    requires home < |c| && Scanned(c, home, |c|, field)
    ensures field !in Contents(c)
  {
    assert forall i: nat :: !HoldsAt(c, i, field);
  }

  lemma HomesAreHashes(f: Frame, hash: Bytes -> u32, field: Bytes)
    requires Ok(f, hash)
    ensures HomeOf(Cells(f.dir, f.heap), field, hash(field) % |f.dir|)
  {
  }

  lemma ScannedToGap(f: Frame, hash: Bytes -> u32, n: nat, idx: nat, field: Bytes)
    requires Ok(f, hash) && n < |f.dir| && idx == RingStep(hash(field) % |f.dir|, n, |f.dir|)
    requires Scanned(Cells(f.dir, f.heap), hash(field) % |f.dir|, n, field) && f.dir[idx].fieldLen == 0
    ensures field !in Pairs(f)
  {
    HomesAreHashes(f, hash, field);
    AbsentPastGap(Cells(f.dir, f.heap), field, hash(field) % |f.dir|, idx);
  }

  /** The bucket holds `field`: what the hash and byte comparison of the probe loops decide. */
  predicate BucketHolds(s: Bytes, b: Bucket, field: Bytes, h: u32) {
    && IsLive(b) && b.hash32 == h
    && b.offset + b.fieldLen <= |s| && s[b.offset..b.offset + b.fieldLen] == field
  }

  lemma BucketHoldsIs(s: Bytes, hash: Bytes -> u32, idx: nat, field: Bytes)
    requires Holds(s, hash) && idx < KOf(s)
    ensures BucketHolds(s, View(s).dir[idx], field, hash(field))
            <==> HoldsAt(Cells(View(s).dir, View(s).heap), idx, field)
  {
    LiveWithin(View(s), hash);
    BucketHoldsField(s, hash, idx, field);
  }

  lemma BucketHoldsField(s: Bytes, hash: Bytes -> u32, idx: nat, field: Bytes)
    requires HasDirectory(s) && LiveInHeap(View(s)) && Hashed(View(s), hash) && idx < KOf(s)
    ensures BucketHolds(s, View(s).dir[idx], field, hash(field))
            <==> HoldsAt(Cells(View(s).dir, View(s).heap), idx, field)
  {
    var b := View(s).dir[idx];
    if IsLive(b) {
      FieldInSlot(s, b);
    }
  }

  /** The probe loop of `get` and `delete`. */
  method Find(slot: array<u8>, field: Bytes, hash: Bytes -> u32) returns (r: Option<nat>)
    requires Holds(slot[..], hash)
    ensures r.Some? ==>
              r.value < KOf(slot[..]) && HoldsAt(Cells(View(slot[..]).dir, View(slot[..]).heap), r.value, field)
    ensures r.None? <==> field !in Pairs(View(slot[..]))
  {
    var s := slot[..];
    var h := hash(field);
    var k := KOf(s);
    var home := h % k;
    ghost var c := Cells(View(s).dir, View(s).heap);
    var n := 0;
    while n < k
      invariant 0 <= n <= k && Scanned(c, home, n, field)
    {
      var idx := RingStep(home, n, k);
      var b := ReadBucket(s, idx);
      if b.fieldLen == 0 {
        ScannedToGap(View(s), hash, n, idx, field);
        return None;
      }
      BucketHoldsIs(s, hash, idx, field);
      if BucketHolds(s, b, field, h) {
        ContentsAt(c, idx);
        return Some(idx);
      }
      ScannedStep(c, home, n, idx, field);
      n := n + 1;
    }
    ScannedAll(c, home, field);
    return None;
  }

  // ---- Reading ----

  /** The live count in the header, zero when the header is rejected. */
  function LiveIn(s: Bytes): nat {
    if HeaderOk(s) then View(s).live else 0
  }

  /** `live_count`. */
  method LiveCount(slot: array<u8>, ghost hash: Bytes -> u32) returns (n: nat)
    ensures n == LiveIn(slot[..])
    ensures Holds(slot[..], hash) ==> n == |Pairs(View(slot[..]))|
  {
    LiveInIs(slot[..], hash);
    if !HeaderOk(slot[..]) {
      return 0;
    }
    return View(slot[..]).live;
  }

  lemma LiveInIs(s: Bytes, hash: Bytes -> u32)
    ensures Holds(s, hash) ==> LiveIn(s) == |Pairs(View(s))|
  {
    if Holds(s, hash) {
      HoldsHeader(s, hash);
      LiveIsSize(View(s), hash);
    }
  }

  lemma NoneLive(f: Frame, hash: Bytes -> u32)
    requires Ok(f, hash) && f.live == 0
    ensures Pairs(f) == map[]
  {
    ContentsSize(Cells(f.dir, f.heap));
  }

  /** A bucket gives a pair if it is live and its region lies in the slot. */
  predicate Lists(s: Bytes, b: Bucket) {
    IsLive(b) && b.offset + b.fieldLen + b.valLen <= |s|
  }

  function FieldIn(s: Bytes, b: Bucket): Bytes
    requires Lists(s, b)
  {
    s[b.offset..b.offset + b.fieldLen]
  }

  function ValueIn(s: Bytes, b: Bucket): Bytes
    requires Lists(s, b)
  {
    s[b.offset + b.fieldLen..b.offset + b.fieldLen + b.valLen]
  }

  /** What one bucket means for the probe of `get`: its end, with or without a value, or the next bucket. */
  datatype Turn = Ends(found: Option<Bytes>) | Goes

  function TurnAt(s: Bytes, b: Bucket, field: Bytes, h: u32): Turn {
    if b.fieldLen == 0 then Ends(None)
    else if BucketHolds(s, b, field, h) && Lists(s, b) then Ends(Some(ValueIn(s, b)))
    else Goes
  }

  /** The turns of the probe from `home`, for any bytes with a directory. */
  function Turns(s: Bytes, field: Bytes, h: u32, home: nat): nat -> Turn
    requires HasDirectory(s) && home < KOf(s)
  {
    (n: nat) => if n < KOf(s) then TurnAt(s, ReadBucket(s, RingStep(home, n, KOf(s))), field, h) else Goes
  }

  /** Where a walk of at most `k` turns ends, from turn `n` on. */
  function Walk(turns: nat -> Turn, k: nat, n: nat): Option<Bytes>
    requires n <= k
    decreases k - n
  {
    if n == k then None else match turns(n) case Ends(found) => found case Goes => Walk(turns, k, n + 1)
  }

  /** Turn `n` keeps what `good` says of the turns so far, or ends with `found`. */
  ghost predicate TurnsTo(turns: nat -> Turn, n: nat, good: nat -> bool, found: Option<Bytes>) {
    good(n) ==> if turns(n).Goes? then good(n + 1) else turns(n).found == found
  }

  lemma {:induction false} WalkFinds(turns: nat -> Turn, k: nat, n: nat, good: nat -> bool, found: Option<Bytes>)
    requires n <= k && good(n) && (good(k) ==> found.None?)
    requires forall m :: 0 <= m < k ==> TurnsTo(turns, m, good, found)
    ensures Walk(turns, k, n) == found
    decreases k - n
  {
    if n < k {
      assert TurnsTo(turns, n, good, found);
      if turns(n).Goes? {
        WalkFinds(turns, k, n + 1, good, found);
      }
    }
  }

  /** No bucket holds an empty field. */
  lemma EmptyFieldNotFound(s: Bytes, h: u32, home: nat)
    requires HasDirectory(s) && home < KOf(s)
    ensures Walk(Turns(s, [], h, home), KOf(s), 0).None?
  {
    var turns, good := Turns(s, [], h, home), (n: nat) => true;
    assert forall n :: 0 <= n < KOf(s) ==> TurnsTo(turns, n, good, None);
    WalkFinds(turns, KOf(s), 0, good, None);
  }

  /** In a frame the probe reads the map. */
  lemma WalkIsMap(s: Bytes, field: Bytes, hash: Bytes -> u32)
    requires Holds(s, hash)
    ensures Walk(Turns(s, field, hash(field), hash(field) % KOf(s)), KOf(s), 0) == Lookup(Pairs(View(s)), field)
  {
    var c, home, found := Cells(View(s).dir, View(s).heap), hash(field) % KOf(s), Lookup(Pairs(View(s)), field);
    var turns := Turns(s, field, hash(field), home);
    var good := (n: nat) => Scanned(c, home, n, field);
    if good(KOf(s)) {
      ScannedAll(c, home, field);
    }
    forall n | 0 <= n < KOf(s)
      ensures TurnsTo(turns, n, good, found)
    {
      if good(n) {
        TurnIs(s, field, hash, n);
      }
    }
    WalkFinds(turns, KOf(s), 0, good, found);
  }

  lemma TurnIs(s: Bytes, field: Bytes, hash: Bytes -> u32, n: nat)
    requires Holds(s, hash) && n < KOf(s)
    requires Scanned(Cells(View(s).dir, View(s).heap), hash(field) % KOf(s), n, field)
    ensures var home := hash(field) % KOf(s);
            match TurnAt(s, ReadBucket(s, RingStep(home, n, KOf(s))), field, hash(field))
            case Ends(found) => found == Lookup(Pairs(View(s)), field)
            case Goes => Scanned(Cells(View(s).dir, View(s).heap), home, n + 1, field)
  {
    var idx := RingStep(hash(field) % KOf(s), n, KOf(s));
    var b := View(s).dir[idx];
    assert b == ReadBucket(s, idx);
    BucketHoldsIs(s, hash, idx, field);
    if b.fieldLen == 0 {
      ScannedToGap(View(s), hash, n, idx, field);
    } else if BucketHolds(s, b, field, hash(field)) {
      ValueThere(s, hash, idx, field);
    } else {
      ScannedStep(Cells(View(s).dir, View(s).heap), hash(field) % KOf(s), n, idx, field);
    }
  }

  /** The value behind a field that a bucket holds. */
  lemma ValueThere(s: Bytes, hash: Bytes -> u32, idx: nat, field: Bytes)
    requires Holds(s, hash) && HoldsAt(Cells(View(s).dir, View(s).heap), idx, field)
    ensures idx < KOf(s) && Lists(s, View(s).dir[idx])
    ensures field in Pairs(View(s)) && ValueIn(s, View(s).dir[idx]) == Pairs(View(s))[field]
  {
    LiveWithin(View(s), hash);
    ValueInHeap(s, idx, field);
  }

  lemma LiveWithin(f: Frame, hash: Bytes -> u32)
    requires Ok(f, hash)
    ensures LiveInHeap(f) && Distinct(Cells(f.dir, f.heap))
  {
  }

  lemma ValueInHeap(s: Bytes, idx: nat, field: Bytes)
    requires HasDirectory(s) && LiveInHeap(View(s)) && Distinct(Cells(View(s).dir, View(s).heap))
    requires HoldsAt(Cells(View(s).dir, View(s).heap), idx, field)
    ensures idx < KOf(s) && Lists(s, View(s).dir[idx])
    ensures field in Pairs(View(s)) && ValueIn(s, View(s).dir[idx]) == Pairs(View(s))[field]
  {
    FieldInSlot(s, View(s).dir[idx]);
    ContentsAt(Cells(View(s).dir, View(s).heap), idx);
  }

  function Lookup(m: map<Bytes, Bytes>, field: Bytes): Option<Bytes> {
    if field in m then Some(m[field]) else None
  }

  /** `get` for any bytes at all. */
  function Gets(s: Bytes, field: Bytes, h: u32): Option<Bytes> {
    if LiveIn(s) == 0 then None else Walk(Turns(s, field, h, h % KOf(s)), KOf(s), 0)
  }

  /** In a frame that is the map's value; an empty field is found in no slot. */
  lemma GetsIs(s: Bytes, field: Bytes, hash: Bytes -> u32)
    ensures Sound(s, hash) ==>
              Gets(s, field, hash(field)) == if HeaderOk(s) then Lookup(Pairs(View(s)), field) else None
    ensures field == [] ==> Gets(s, field, hash(field)).None?
  {
    if LiveIn(s) > 0 {
      EmptyFieldNotFound(s, hash([]), hash([]) % KOf(s));
      if Holds(s, hash) {
        WalkIsMap(s, field, hash);
      }
    } else if Holds(s, hash) {
      HoldsHeader(s, hash);
      NoneLive(View(s), hash);
    }
  }

  /** `get`. An empty field is never found, whatever the slot holds. */
  method Get(slot: array<u8>, field: Bytes, hash: Bytes -> u32) returns (r: Option<Bytes>)
    ensures r == Gets(slot[..], field, hash(field))
    ensures !HeaderOk(slot[..]) ==> r.None?
    ensures HeaderOk(slot[..]) && Sound(slot[..], hash) ==>
              r == if field in Pairs(View(slot[..])) then Some(Pairs(View(slot[..]))[field]) else None
    ensures field == [] ==> r.None?
  {
    GetsIs(slot[..], field, hash);
    r := GetLoop(slot[..], field, hash(field));
  }

  method GetLoop(s: Bytes, field: Bytes, h: u32) returns (r: Option<Bytes>)
    ensures r == Gets(s, field, h)
  {
    if !HeaderOk(s) || View(s).live == 0 {
      return None;
    }
    r := ProbeLoop(s, field, h, h % KOf(s));
  }

  method ProbeLoop(s: Bytes, field: Bytes, h: u32, home: nat) returns (r: Option<Bytes>)
    requires HasDirectory(s) && home < KOf(s)
    ensures r == Walk(Turns(s, field, h, home), KOf(s), 0)
  {
    var k := KOf(s);
    var n := 0;
    ghost var turns := Turns(s, field, h, home);
    ghost var goal := Walk(turns, k, n);
    while n < k
      invariant 0 <= n <= k && Walk(turns, k, n) == goal
    {
      var b := ReadBucket(s, RingStep(home, n, k));
      assert turns(n) == TurnAt(s, b, field, h);
      if b.fieldLen == 0 {
        return None;
      }
      if BucketHolds(s, b, field, h) && Lists(s, b) {
        return Some(ValueIn(s, b));
      }
      n := n + 1;
    }
    return None;
  }

  // ---- Listing ----

  /** The pairs of the first `n` buckets that list one. */
  function ListedBelow(s: Bytes, n: nat): seq<(Bytes, Bytes)>
    requires BUCKET_SIZE * n <= |s|
  {
    if n == 0 then [] else
      var b := ReadBucket(s, n - 1);
      ListedBelow(s, n - 1) + if Lists(s, b) then [(FieldIn(s, b), ValueIn(s, b))] else []
  }

  /** What `iter_pairs` yields for any bytes at all. */
  function Listed(s: Bytes): seq<(Bytes, Bytes)> {
    if LiveIn(s) > 0 then ListedBelow(s, KOf(s)) else []
  }

  /** Live regions in the heap are listed as the frame has them. */
  lemma {:induction false} ListedBelowIs(s: Bytes, n: nat)
    requires HasDirectory(s) && n <= KOf(s) && LiveInHeap(View(s))
    ensures ListedBelow(s, n) == PairsOf(View(s).heap, LiveBuckets(View(s).dir, n))
  {
    if n > 0 {
      ListedBelowIs(s, n - 1);
      var b := View(s).dir[n - 1];
      assert ReadBucket(s, n - 1) == b;
      if IsLive(b) {
        GivesItsPair(s, b);
        PairsOfMore(View(s).heap, LiveBuckets(View(s).dir, n - 1), b);
      }
    }
  }

  lemma GivesItsPair(s: Bytes, b: Bucket)
    requires HasDirectory(s) && IsLive(b) && InHeap(b, HEADER_SIZE + |View(s).heap|)
    ensures Lists(s, b) && (FieldIn(s, b), ValueIn(s, b)) == PairOf(View(s).heap, b)
  {
    FieldInSlot(s, b);
  }

  lemma PairsOfMore(heap: Bytes, bs: seq<Bucket>, b: Bucket)
    ensures PairsOf(heap, bs + [b]) == PairsOf(heap, bs) + [PairOf(heap, b)]
  {
  }

  // ---- Deleting ----

  function SaturatingAdd(a: nat, b: nat): u16 {
    if a + b < 0x1_0000 then a + b else 0xFFFF
  }

  /** `delete`: true exactly when the field was present. */
  method Delete(slot: array<u8>, field: Bytes, hash: Bytes -> u32) returns (r: bool)
    requires Sound(slot[..], hash)
    modifies slot
    ensures !old(HeaderOk(slot[..])) ==> !r && slot[..] == old(slot[..])
    ensures old(HeaderOk(slot[..])) ==>
              && Holds(slot[..], hash)
              && r == (field in old(Pairs(View(slot[..]))))
              && Pairs(View(slot[..])) == old(Pairs(View(slot[..]))) - {field}
              && (old(Tight(View(slot[..]))) ==> Tight(View(slot[..])))
  {
    if !HeaderOk(slot[..]) {
      return false;
    }
    ghost var f := View(slot[..]);
    if View(slot[..]).live == 0 {
      NoneLive(f, hash);
      return false;
    }
    var found := Find(slot, field, hash);
    if found.None? {
      return false;
    }
    DeleteAt(slot, found.value, field, hash);
    return true;
  }

  method DeleteAt(slot: array<u8>, idx: nat, ghost field: Bytes, ghost hash: Bytes -> u32)
    requires Holds(slot[..], hash) && HoldsAt(Cells(View(slot[..]).dir, View(slot[..]).heap), idx, field)
    modifies slot
    ensures Holds(slot[..], hash) && View(slot[..]).dead > 0
    ensures Pairs(View(slot[..])) == old(Pairs(View(slot[..]))) - {field}
  {
    ghost var f := View(slot[..]);
    DeleteOk(f, idx, hash);
    var b := ReadBucket(slot[..], idx);
    LiveBytesAtLeast(f.dir, idx);
    var live, mask := View(slot[..]).live, KOf(slot[..]) - 1;
    var payloadEnd, dead := View(slot[..]).payloadEnd, View(slot[..]).dead;
    WriteBucket(slot, idx, TOMBSTONE_BUCKET);
    WriteHeader(slot, live - 1, mask, payloadEnd, SaturatingAdd(dead, b.fieldLen + b.valLen));
    assert View(slot[..]) == Deleted(f, idx);
  }

  // ---- Upsert ----

  /** What the probe of `upsert` finds out. */
  datatype Search = Present(idx: nat) | Missing(available: nat, tombstones: nat)

  ghost predicate SearchIs(f: Frame, field: Bytes, hash: Bytes -> u32, r: Search)
    requires |f.dir| > 0
  {
    var c := Cells(f.dir, f.heap);
    match r
    case Present(idx) => HoldsAt(c, idx, field)
    case Missing(i, tombstones) =>
      && field !in Contents(c)
      && i < |c| && !IsLive(f.dir[i]) && PathClear(c, hash(field) % |c|, i)
      && (tombstones > 0 ==> f.dead > 0)
  }

  lemma PathOfScan(c: seq<Cell<Bytes, Bytes>>, home: nat, n: nat, i: nat, field: Bytes)
    requires home < |c| && i < |c| && Scanned(c, home, n, field) && RingDistance(home, i, |c|) <= n
    ensures PathClear(c, home, i)
  {
  }

  /** A directory under its load bound has a bucket that is not live on every full scan. */
  lemma NotAllLive(f: Frame, hash: Bytes -> u32)
    requires Ok(f, hash)
    ensures exists i :: 0 <= i < |f.dir| && !IsLive(f.dir[i])
  {
    var c := Cells(f.dir, f.heap);
    if forall i :: 0 <= i < |f.dir| ==> IsLive(f.dir[i]) {
      RangeSize(LiveSlots(c), |c|);
    }
  }

  /** `first` is the first bucket that is not live among those at probe distance below `n`, if there is one. */
  ghost predicate FirstAvailable(dir: seq<Bucket>, home: nat, n: nat, first: Option<nat>)
    requires home < |dir|
  {
    match first
    case Some(i) => i < |dir| && !IsLive(dir[i]) && RingDistance(home, i, |dir|) < n
    case None => forall j :: 0 <= j < |dir| && RingDistance(home, j, |dir|) < n ==> IsLive(dir[j])
  }

  lemma SearchAtGap(f: Frame, field: Bytes, hash: Bytes -> u32, n: nat, idx: nat, first: Option<nat>)
    requires Ok(f, hash) && n < |f.dir| && idx == RingStep(hash(field) % |f.dir|, n, |f.dir|)
    requires Scanned(Cells(f.dir, f.heap), hash(field) % |f.dir|, n, field) && f.dir[idx].fieldLen == 0
    requires FirstAvailable(f.dir, hash(field) % |f.dir|, n, first)
    ensures SearchIs(f, field, hash, Missing(if first.Some? then first.value else idx, 0))
  {
    ScannedToGap(f, hash, n, idx, field);
    PathOfScan(Cells(f.dir, f.heap), hash(field) % |f.dir|, n, if first.Some? then first.value else idx, field);
  }

  lemma SearchExhausted(f: Frame, field: Bytes, hash: Bytes -> u32, first: Option<nat>)
    requires Ok(f, hash) && Scanned(Cells(f.dir, f.heap), hash(field) % |f.dir|, |f.dir|, field)
    requires FirstAvailable(f.dir, hash(field) % |f.dir|, |f.dir|, first)
    ensures first.Some? && SearchIs(f, field, hash, Missing(first.value, 0))
  {
    NotAllLive(f, hash);
    ScannedAll(Cells(f.dir, f.heap), hash(field) % |f.dir|, field);
    PathOfScan(Cells(f.dir, f.heap), hash(field) % |f.dir|, |f.dir|, first.value, field);
  }

  lemma FirstAvailableStep(dir: seq<Bucket>, home: nat, n: nat, idx: nat, first: Option<nat>)
    requires home < |dir| && n < |dir| && idx == RingStep(home, n, |dir|) && FirstAvailable(dir, home, n, first)
    ensures FirstAvailable(dir, home, n + 1, if first.None? && !IsLive(dir[idx]) then Some(idx) else first)
  {
  }

  /** What the probe loop knows after `n` buckets that do not hold the field. */
  ghost predicate Scanning(f: Frame, field: Bytes, home: nat, n: nat, first: Option<nat>, tombstones: nat)
    requires home < |f.dir|
  {
    && Scanned(Cells(f.dir, f.heap), home, n, field) && FirstAvailable(f.dir, home, n, first)
    && (tombstones > 0 ==> f.dead > 0)
  }

  lemma ScanningStep(f: Frame, field: Bytes, hash: Bytes -> u32, home: nat, n: nat, first: Option<nat>, tombstones: nat)
    requires Ok(f, hash) && home < |f.dir| && n < |f.dir| && Scanning(f, field, home, n, first, tombstones)
    requires var idx := RingStep(home, n, |f.dir|);
             f.dir[idx].fieldLen != 0 && !HoldsAt(Cells(f.dir, f.heap), idx, field)
    ensures var idx := RingStep(home, n, |f.dir|);
            var dead := f.dir[idx].fieldLen == TOMBSTONE_FIELD_LEN;
            Scanning(f, field, home, n + 1, if first.None? && dead then Some(idx) else first,
                     if dead then tombstones + 1 else tombstones)
  {
    var idx := RingStep(home, n, |f.dir|);
    FirstAvailableStep(f.dir, home, n, idx, first);
    ScannedStep(Cells(f.dir, f.heap), home, n, idx, field);
  }

  /** The probe loop of `upsert`. */
  method UpsertProbe(slot: array<u8>, field: Bytes, hash: Bytes -> u32) returns (r: Search)
    requires Holds(slot[..], hash)
    ensures SearchIs(View(slot[..]), field, hash, r)
  {
    var s := slot[..];
    var h := hash(field);
    var k := KOf(s);
    var home := h % k;
    ghost var f := View(s);
    var first: Option<nat> := None;
    var tombstones := 0;
    var n := 0;
    while n < k
      invariant 0 <= n <= k && 0 <= tombstones
      invariant Scanning(f, field, home, n, first, tombstones)
    {
      var idx := RingStep(home, n, k);
      var b := ReadBucket(s, idx);
      if b.fieldLen == 0 {
        SearchAtGap(f, field, hash, n, idx, first);
        return Missing(if first.Some? then first.value else idx, tombstones);
      }
      BucketHoldsIs(s, hash, idx, field);
      if BucketHolds(s, b, field, h) {
        return Present(idx);
      }
      ScanningStep(f, field, hash, home, n, first, tombstones);
      if b.fieldLen == TOMBSTONE_FIELD_LEN {
        tombstones := tombstones + 1;
        if first.None? { first := Some(idx); }
      }
      n := n + 1;
    }
    SearchExhausted(f, field, hash, first);
    return Missing(first.value, tombstones);
  }

  /** Heap bytes, one bucket and the counters, written in the order of the original. */
  method Commit(slot: array<u8>, at: nat, bytes: Bytes, i: nat, b: Bucket, live: u16, payloadEnd: u16, dead: u16)
    requires HasDirectory(slot[..]) && i < KOf(slot[..])
    requires HEADER_SIZE <= at && at + |bytes| <= HEADER_SIZE + |View(slot[..]).heap|
    modifies slot
    ensures HasDirectory(slot[..])
    ensures View(slot[..]) == Frame(live, payloadEnd, dead, old(View(slot[..])).dir[i := b],
                                    Splice(old(View(slot[..])).heap, at - HEADER_SIZE, bytes))
  {
    var mask := KOf(slot[..]) - 1;
    WriteHeap(slot, at, bytes);
    WriteBucket(slot, i, b);
    WriteHeader(slot, live, mask, payloadEnd, dead);
  }

  lemma CountersFit(f: Frame, i: nat)
    requires Sized(f) && Accounted(f) && i < |f.dir|
    ensures f.live < 256 && HEADER_SIZE <= f.payloadEnd <= HEADER_SIZE + |f.heap| <= MAX_SLOT_CAPACITY
    ensures f.dead + Size(f.dir[i]) <= MAX_SLOT_CAPACITY
  {
    LiveBytesAtLeast(f.dir, i);
  }

  /** Append the pair at the payload end, point bucket `i` at it and count it. */
  method AppendPair(slot: array<u8>, i: nat, field: Bytes, value: Bytes, h: u32, isNew: bool)
    requires HasDirectory(slot[..]) && Sized(View(slot[..])) && Accounted(View(slot[..])) && i < KOf(slot[..])
    requires View(slot[..]).payloadEnd + |field| + |value| <= HEADER_SIZE + |View(slot[..]).heap|
    modifies slot
    ensures HasDirectory(slot[..])
    ensures HEADER_SIZE + |old(View(slot[..])).heap| <= MAX_SLOT_CAPACITY
    ensures View(slot[..]) == Appended(old(View(slot[..])), i, field, value, h, isNew)
  {
    var f := View(slot[..]);
    CountersFit(f, i);
    Commit(slot, f.payloadEnd, field + value, i, Bucket(h, f.payloadEnd, |field|, |value|),
           if isNew then f.live + 1 else f.live, f.payloadEnd + |field| + |value|,
           SaturatingAdd(f.dead, Size(f.dir[i])));
  }

  /** In-place overwrite by a value that is no longer; the slack becomes dead bytes. */
  method OverwriteValue(slot: array<u8>, i: nat, value: Bytes, h: u32)
    requires HasDirectory(slot[..]) && Sized(View(slot[..])) && Accounted(View(slot[..])) && i < KOf(slot[..])
    requires IsLive(View(slot[..]).dir[i]) && |value| <= View(slot[..]).dir[i].valLen
    modifies slot
    ensures HasDirectory(slot[..])
    ensures View(slot[..]) == Overwritten(old(View(slot[..])), i, value, h)
  {
    var f := View(slot[..]);
    var b := f.dir[i];
    CountersFit(f, i);
    RegionWithin(f, i);
    Commit(slot, b.offset + b.fieldLen, value, i, Bucket(h, b.offset, b.fieldLen, |value|),
           f.live, f.payloadEnd, SaturatingAdd(f.dead, b.valLen - |value|));
  }

  lemma RegionWithin(f: Frame, i: nat)
    requires Accounted(f) && i < |f.dir| && IsLive(f.dir[i])
    ensures InHeap(f.dir[i], HEADER_SIZE + |f.heap|)
  {
  }

  // ---- Growing the directory ----

  /** The live buckets, gathered in directory order. */
  method GatherLive(dir: seq<Bucket>) returns (bs: seq<Bucket>)
    ensures bs == LiveBuckets(dir, |dir|)
  {
    bs := [];
    for i := 0 to |dir|
      invariant bs == LiveBuckets(dir, i)
    {
      if IsLive(dir[i]) {
        bs := bs + [dir[i]];
      }
    }
  }

  /** No bucket at probe distance below `n` is empty. */
  ghost predicate NoneEmpty(dir: seq<Bucket>, home: nat, n: nat) {
    forall j :: 0 <= j < |dir| && RingDistance(home, j, |dir|) < n ==> dir[j].fieldLen != 0
  }

  lemma NoneEmptyStep(dir: seq<Bucket>, home: nat, n: nat, e: nat)
    requires home < |dir| && n < |dir| && e < |dir| && NoneEmpty(dir, home, n)
    requires dir[RingStep(home, n, |dir|)].fieldLen != 0 && dir[e].fieldLen == 0
    ensures n + 1 < |dir| && NoneEmpty(dir, home, n + 1)
  {
    assert RingDistance(home, e, |dir|) >= n;
  }

  lemma NoneEmptyPath(dir: seq<Bucket>, heap: Bytes, home: nat, n: nat)
    requires home < |dir| && n < |dir| && NoneEmpty(dir, home, n)
    ensures PathClear(Cells(dir, heap), home, RingStep(home, n, |dir|))
  {
  }

  /** The first empty place on the path from `home`. */
  method FirstEmpty(s: Bytes, home: nat) returns (i: nat)
    requires HasDirectory(s) && home < KOf(s) && exists e :: 0 <= e < KOf(s) && View(s).dir[e].fieldLen == 0
    ensures i < KOf(s) && View(s).dir[i].fieldLen == 0
    ensures PathClear(Cells(View(s).dir, View(s).heap), home, i)
  {
    var k := KOf(s);
    ghost var dir := View(s).dir;
    ghost var e: nat :| e < k && dir[e].fieldLen == 0;
    var n := 0;
    while ReadBucket(s, RingStep(home, n, k)).fieldLen != 0
      invariant 0 <= n < k && NoneEmpty(dir, home, n)
      decreases k - n
    {
      NoneEmptyStep(dir, home, n, e);
      n := n + 1;
    }
    NoneEmptyPath(dir, View(s).heap, home, n);
    i := RingStep(home, n, k);
  }

  /** Write a bucket to the first empty place on its path. */
  method PlaceBucket(slot: array<u8>, b: Bucket) returns (ghost i: nat)
    requires HasDirectory(slot[..]) && exists e :: 0 <= e < KOf(slot[..]) && View(slot[..]).dir[e].fieldLen == 0
    modifies slot
    ensures HasDirectory(slot[..]) && i < |old(View(slot[..])).dir|
    ensures View(slot[..]) == old(View(slot[..])).(dir := old(View(slot[..])).dir[i := b])
    ensures old(View(slot[..])).dir[i].fieldLen == 0
    ensures PathClear(Cells(old(View(slot[..])).dir, old(View(slot[..])).heap),
                      b.hash32 % |old(View(slot[..])).dir|, i)
  {
    var idx := FirstEmpty(slot[..], b.hash32 % KOf(slot[..]));
    i := idx;
    WriteBucket(slot, idx, b);
  }

  /** Zero the directory area of `nextK` buckets and set the mask. */
  method ResetDirectory(slot: array<u8>, nextK: nat)
    requires HasDirectory(slot[..]) && KOf(slot[..]) <= nextK <= 256
    requires HEADER_SIZE + BUCKET_SIZE * nextK <= slot.Length
    modifies slot
    ensures HasDirectory(slot[..]) && BUCKET_SIZE * (nextK - old(KOf(slot[..]))) <= |old(View(slot[..])).heap|
    ensures var f := old(View(slot[..]));
            View(slot[..]) == Frame(f.live, f.payloadEnd, f.dead, EmptyDir(nextK),
                                    Cut(f.heap, BUCKET_SIZE * (nextK - |f.dir|)))
  {
    var f := View(slot[..]);
    var cap := slot.Length;
    var dirStart := cap - nextK * BUCKET_SIZE;
    ghost var s0 := slot[..];
    forall i | dirStart <= i < cap {
      slot[i] := 0;
    }
    Store(slot, 0, HeaderBytes(f.live, nextK - 1, f.payloadEnd, f.dead));
    assert slot[..HEADER_SIZE] == HeaderBytes(f.live, nextK - 1, f.payloadEnd, f.dead);
    GrowDirectoryView(s0, slot[..], nextK);
  }

  /** The rehash loop of `grow_directory`. */
  method PlaceAll(slot: array<u8>, bs: seq<Bucket>)
    requires HasDirectory(slot[..]) && View(slot[..]).dir == EmptyDir(KOf(slot[..])) && |bs| < KOf(slot[..])
    requires forall p :: 0 <= p < |bs| ==> IsLive(bs[p]) && InHeap(bs[p], HEADER_SIZE + |View(slot[..]).heap|)
    requires DistinctKeys(PairsOf(View(slot[..]).heap, bs))
    modifies slot
    ensures HasDirectory(slot[..]) && View(slot[..]) == old(View(slot[..])).(dir := View(slot[..]).dir)
    ensures |View(slot[..]).dir| == |old(View(slot[..])).dir|
    ensures Placed(View(slot[..]).dir, View(slot[..]).heap, bs, |bs|)
  {
    ghost var g := View(slot[..]);
    PlacedNone(KOf(slot[..]), g.heap, bs);
    for j := 0 to |bs|
      invariant HasDirectory(slot[..]) && View(slot[..]) == g.(dir := View(slot[..]).dir)
      invariant |View(slot[..]).dir| == |g.dir|
      invariant Placed(View(slot[..]).dir, g.heap, bs, j)
    {
      PlaceNext(slot, bs, j);
    }
  }

  method PlaceNext(slot: array<u8>, bs: seq<Bucket>, j: nat)
    requires HasDirectory(slot[..]) && j < |bs| < KOf(slot[..])
    requires Placed(View(slot[..]).dir, View(slot[..]).heap, bs, j)
    requires forall p :: 0 <= p < |bs| ==> IsLive(bs[p]) && InHeap(bs[p], HEADER_SIZE + |View(slot[..]).heap|)
    requires DistinctKeys(PairsOf(View(slot[..]).heap, bs))
    modifies slot
    ensures HasDirectory(slot[..]) && View(slot[..]) == old(View(slot[..])).(dir := View(slot[..]).dir)
    ensures |View(slot[..]).dir| == |old(View(slot[..])).dir|
    ensures Placed(View(slot[..]).dir, View(slot[..]).heap, bs, j + 1)
  {
    ghost var g := View(slot[..]);
    PlacedRoom(g.dir, g.heap, bs, j);
    ghost var i := PlaceBucket(slot, bs[j]);
    PlacedEmpties(g.dir, g.heap, bs, j, i);
    PlacedStep(g.dir, g.heap, bs, j, i);
  }

  lemma PlacedEmpties(dir: seq<Bucket>, heap: Bytes, bs: seq<Bucket>, j: nat, e: nat)
    requires j <= |bs| && Placed(dir, heap, bs, j) && forall p :: 0 <= p < |bs| ==> IsLive(bs[p])
    requires e < |dir| && dir[e].fieldLen == 0
    ensures dir[e] == EMPTY_BUCKET
  {
  }

  /** `grow_directory`. */
  method GrowDirectory(slot: array<u8>, nextK: nat, ghost hash: Bytes -> u32)
    requires Holds(slot[..], hash) && IsBucketCount(nextK) && KOf(slot[..]) <= nextK <= 256
    requires View(slot[..]).payloadEnd + BUCKET_SIZE * nextK <= slot.Length
    modifies slot
    ensures Holds(slot[..], hash) && KOf(slot[..]) == nextK
    ensures Pairs(View(slot[..])) == old(Pairs(View(slot[..])))
    ensures var f := old(View(slot[..])); var g := View(slot[..]);
            g.live == f.live && g.payloadEnd == f.payloadEnd && g.dead == f.dead && LiveBytes(g.dir) == LiveBytes(f.dir)
  {
    ghost var f := View(slot[..]);
    var bs := GatherLive(View(slot[..]).dir);
    ListingToPlace(f, nextK, hash);
    ReplaceDirectory(slot, nextK, bs);
    GrownSlot(f, slot[..], hash);
  }

  /** The buckets can be placed in a directory of `nextK` buckets that takes its room from the heap. */
  ghost predicate Placeable(f: Frame, nextK: nat, bs: seq<Bucket>) {
    && |f.dir| <= nextK && |bs| < nextK && BUCKET_SIZE * (nextK - |f.dir|) <= |f.heap|
    && var heap := Cut(f.heap, BUCKET_SIZE * (nextK - |f.dir|));
       && (forall p :: 0 <= p < |bs| ==> IsLive(bs[p]) && InHeap(bs[p], HEADER_SIZE + |heap|))
       && DistinctKeys(PairsOf(heap, bs))
  }

  /** `g` is `f` with a directory of `nextK` buckets in which exactly the buckets `bs` are placed. */
  ghost predicate Replaced(f: Frame, g: Frame, nextK: nat, bs: seq<Bucket>) {
    && |f.dir| <= nextK == |g.dir| && BUCKET_SIZE * (nextK - |f.dir|) <= |f.heap|
    && g == Frame(f.live, f.payloadEnd, f.dead, g.dir, Cut(f.heap, BUCKET_SIZE * (nextK - |f.dir|)))
    && Placed(g.dir, g.heap, bs, |bs|)
  }

  /** Cut the heap back for a directory of `nextK` buckets and place the live ones in it. */
  method ReplaceDirectory(slot: array<u8>, nextK: nat, bs: seq<Bucket>)
    requires HasDirectory(slot[..]) && nextK <= 256 && HEADER_SIZE + BUCKET_SIZE * nextK <= slot.Length
    requires Placeable(View(slot[..]), nextK, bs)
    modifies slot
    ensures HasDirectory(slot[..]) && Replaced(old(View(slot[..])), View(slot[..]), nextK, bs)
  {
    ResetDirectory(slot, nextK);
    PlaceAll(slot, bs);
  }

  lemma ListingToPlace(f: Frame, nextK: nat, hash: Bytes -> u32)
    requires Ok(f, hash) && |f.dir| <= nextK && f.payloadEnd + BUCKET_SIZE * nextK <= f.Cap()
    ensures Placeable(f, nextK, LiveBuckets(f.dir, |f.dir|))
  {
    ListingOf(f, hash);
    PairsOfCut(f.heap, BUCKET_SIZE * (nextK - |f.dir|), LiveBuckets(f.dir, |f.dir|));
  }

  lemma GrownSlot(f: Frame, s: Bytes, hash: Bytes -> u32)
    requires Ok(f, hash) && HasDirectory(s) && IsBucketCount(KOf(s)) && |f.dir| <= KOf(s) <= 256
    requires f.payloadEnd + BUCKET_SIZE * KOf(s) <= f.Cap()
    requires Replaced(f, View(s), KOf(s), LiveBuckets(f.dir, |f.dir|))
    ensures Holds(s, hash) && Pairs(View(s)) == Pairs(f) && LiveBytes(View(s).dir) == LiveBytes(f.dir)
  {
    GrownOk(f, View(s).dir, BUCKET_SIZE * (KOf(s) - |f.dir|), hash);
  }

  lemma GrownOk(f: Frame, dir: seq<Bucket>, bytes: nat, hash: Bytes -> u32)
    requires Ok(f, hash) && IsBucketCount(|dir|) && |f.dir| <= |dir| <= 256
    requires bytes == BUCKET_SIZE * (|dir| - |f.dir|) <= |f.heap| && f.payloadEnd + BUCKET_SIZE * |dir| <= f.Cap()
    requires Placed(dir, Cut(f.heap, bytes), LiveBuckets(f.dir, |f.dir|), |LiveBuckets(f.dir, |f.dir|)|)
    ensures var g := Frame(f.live, f.payloadEnd, f.dead, dir, Cut(f.heap, bytes));
            Ok(g, hash) && Pairs(g) == Pairs(f) && LiveBytes(dir) == LiveBytes(f.dir)
  {
    GrownIndexed(f, dir, bytes, hash);
    GrownAccounted(f, dir, bytes, hash);
    GrownSized(f, dir, bytes);
  }

  lemma GrownSized(f: Frame, dir: seq<Bucket>, bytes: nat)
    requires Sized(f) && IsBucketCount(|dir|) && |f.dir| <= |dir| <= 256
    requires bytes == BUCKET_SIZE * (|dir| - |f.dir|) <= |f.heap|
    ensures Sized(Frame(f.live, f.payloadEnd, f.dead, dir, Cut(f.heap, bytes)))
  {
  }
}
