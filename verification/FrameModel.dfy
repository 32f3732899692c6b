/**
 The in-slot hash frame as decoded values: header counters, a directory of buckets probed by
 linear probing, and a payload heap in which live fields and values sit among dead bytes.
 */
module FrameModel {
  import opened Machine
  import opened LittleEndian
  import opened OpenAddressing

  const HEADER_SIZE: nat := 8
  const BUCKET_SIZE: nat := 10
  const TOMBSTONE_FIELD_LEN: u16 := 0xFFFF
  const MAX_SLOT_CAPACITY: nat := 4096

  datatype Bucket = Bucket(hash32: u32, offset: u16, fieldLen: u16, valLen: u16)

  const EMPTY_BUCKET := Bucket(0, 0, 0, 0)
  const TOMBSTONE_BUCKET := Bucket(0, 0, TOMBSTONE_FIELD_LEN, 0)

  predicate IsLive(b: Bucket) {
    b.fieldLen != 0 && b.fieldLen != TOMBSTONE_FIELD_LEN
  }

  /** Payload bytes a bucket owns. */
  function Size(b: Bucket): nat {
    if IsLive(b) then b.fieldLen + b.valLen else 0
  }

  /** `payloadEnd` and bucket offsets count from the start of the slot; `heap` begins after the header. */
  datatype Frame = Frame(live: nat, payloadEnd: nat, dead: nat, dir: seq<Bucket>, heap: Bytes) {
    function Cap(): nat {
      HEADER_SIZE + |heap| + BUCKET_SIZE * |dir|
    }
  }

  // ---- Bucket counts ----

  function DefaultK(cap: nat): nat {
    if cap <= 128 then 8 else if cap <= 512 then 16 else 32
  }

  predicate IsBucketCount(k: nat) {
    k in {8, 16, 32, 64, 128, 256, 512}
  }

  /** The least doubling of `k` whose 70% load bound leaves room for `n` entries. */
  function GrowTo(k: nat, n: nat): (r: nat)
    requires k > 0
    ensures r >= k && 10 * n < 7 * r
    decreases 10 * n - 7 * k
  {
    if 10 * n < 7 * k then k else GrowTo(2 * k, n)
  }

  lemma {:induction false} GrowToLeast(k: nat, n: nat, bound: nat)
    requires IsBucketCount(k) && IsBucketCount(bound) && k <= bound && 10 * n < 7 * bound
    ensures IsBucketCount(GrowTo(k, n)) && GrowTo(k, n) <= bound
    decreases bound - k
  {
    if 10 * n >= 7 * k {
      GrowToLeast(2 * k, n, bound);
    }
  }

  lemma {:induction false} GrowToThrough(k: nat, m: nat, n: nat)
    requires k > 0 && m <= n
    ensures GrowTo(k, n) == GrowTo(GrowTo(k, m), n)
    ensures GrowTo(k, m) <= GrowTo(k, n)
    decreases 10 * n - 7 * k
  {
    if 10 * m >= 7 * k {
      GrowToThrough(2 * k, m, n);
    }
  }

  // ---- Fields and values in the heap ----

  predicate InHeap(b: Bucket, end: nat) {
    HEADER_SIZE <= b.offset && b.offset + b.fieldLen + b.valLen <= end
  }

  function FieldOf(heap: Bytes, b: Bucket): Bytes
    requires InHeap(b, HEADER_SIZE + |heap|)
  {
    heap[b.offset - HEADER_SIZE..b.offset - HEADER_SIZE + b.fieldLen]
  }

  function ValueOf(heap: Bytes, b: Bucket): Bytes
    requires InHeap(b, HEADER_SIZE + |heap|)
  {
    heap[b.offset - HEADER_SIZE + b.fieldLen..b.offset - HEADER_SIZE + b.fieldLen + b.valLen]
  }

  /** The cell a bucket stands for in a directory of `k` buckets. */
  function CellOf(heap: Bytes, b: Bucket, k: nat): Cell<Bytes, Bytes>
    requires k > 0
  {
    if b.fieldLen == 0 then Empty
    else if b.fieldLen == TOMBSTONE_FIELD_LEN || !InHeap(b, HEADER_SIZE + |heap|) then Tombstone
    else Live(b.hash32 % k, FieldOf(heap, b), ValueOf(heap, b))
  }

  function Cells(dir: seq<Bucket>, heap: Bytes): (c: seq<Cell<Bytes, Bytes>>)
    ensures |c| == |dir|
    ensures forall i :: 0 <= i < |c| ==> c[i] == CellOf(heap, dir[i], |dir|)
  {
    seq(|dir|, i requires 0 <= i < |dir| => CellOf(heap, dir[i], |dir|))
  }

  /** The map from field bytes to value bytes a frame stands for. */
  ghost function Pairs(f: Frame): map<Bytes, Bytes> {
    Contents(Cells(f.dir, f.heap))
  }

  // ---- Payload accounting ----

  function LiveBytes(dir: seq<Bucket>): nat {
    if dir == [] then 0 else LiveBytes(dir[..|dir| - 1]) + Size(dir[|dir| - 1])
  }

  lemma {:induction false} LiveBytesUpdate(dir: seq<Bucket>, i: nat, b: Bucket)
    requires i < |dir|
    ensures LiveBytes(dir[i := b]) == LiveBytes(dir) - Size(dir[i]) + Size(b)
  {
    var n := |dir| - 1;
    if i == n {
      assert dir[i := b][..n] == dir[..n];
    } else {
      LiveBytesUpdate(dir[..n], i, b);
      assert dir[i := b][..n] == dir[..n][i := b];
    }
  }

  lemma {:induction false} LiveBytesAtLeast(dir: seq<Bucket>, i: nat)
    requires i < |dir|
    ensures Size(dir[i]) <= LiveBytes(dir)
  {
    if i < |dir| - 1 {
      LiveBytesAtLeast(dir[..|dir| - 1], i);
    }
  }

  predicate Apart(a: Bucket, b: Bucket) {
    a.offset + a.fieldLen + a.valLen <= b.offset || b.offset + b.fieldLen + b.valLen <= a.offset
  }

  /** Every live region lies below the payload end, and no two meet. */
  predicate Laid(dir: seq<Bucket>, end: nat) {
    && (forall i {:trigger dir[i]} :: 0 <= i < |dir| && IsLive(dir[i]) ==> InHeap(dir[i], end))
    && (forall i, j {:trigger Apart(dir[i], dir[j])} ::
          0 <= i < j < |dir| && IsLive(dir[i]) && IsLive(dir[j]) ==> Apart(dir[i], dir[j]))
  }

  /** Byte conservation: header, live bytes and dead bytes make up the payload, which stops short of the directory. */
  predicate Accounted(f: Frame) {
    && f.payloadEnd == HEADER_SIZE + LiveBytes(f.dir) + f.dead
    && f.payloadEnd <= HEADER_SIZE + |f.heap|
    && Laid(f.dir, f.payloadEnd)
  }

  /** Every live bucket stores the hash of its own field. */
  ghost predicate Hashed(f: Frame, hash: Bytes -> u32) {
    forall i {:trigger f.dir[i]} :: 0 <= i < |f.dir| && IsLive(f.dir[i]) && InHeap(f.dir[i], HEADER_SIZE + |f.heap|)
                                    ==> f.dir[i].hash32 == hash(FieldOf(f.heap, f.dir[i]))
  }

  ghost predicate Indexed(f: Frame, hash: Bytes -> u32) {
    && Hashed(f, hash)
    && Valid(Cells(f.dir, f.heap))
    && f.live == |LiveSlots(Cells(f.dir, f.heap))|
    && (forall i :: 0 <= i < |f.dir| && f.dir[i].fieldLen == TOMBSTONE_FIELD_LEN ==> f.dead > 0)
  }

  predicate Sized(f: Frame) {
    && IsBucketCount(|f.dir|) && |f.dir| <= 256
    && 64 <= f.Cap() <= MAX_SLOT_CAPACITY
    && DefaultK(f.Cap()) <= |f.dir|
    && 10 * f.live < 7 * |f.dir|
  }

  /** A frame without dead bytes uses no more buckets than its entries need. */
  predicate Tight(f: Frame) {
    f.dead == 0 ==> |f.dir| == GrowTo(DefaultK(f.Cap()), f.live)
  }

  /** What every frame reached by init, upsert, delete, growth and compaction satisfies. */
  ghost predicate Ok(f: Frame, hash: Bytes -> u32) {
    Sized(f) && Accounted(f) && Indexed(f, hash)
  }

  // ---- Frame updates ----

  /** Append `field` and `value` at the payload end and point bucket `i` at them. */
  function Appended(f: Frame, i: nat, field: Bytes, value: Bytes, h: u32, isNew: bool): Frame
    requires i < |f.dir| && HEADER_SIZE <= f.payloadEnd && f.payloadEnd + |field| + |value| <= HEADER_SIZE + |f.heap|
    requires HEADER_SIZE + |f.heap| <= MAX_SLOT_CAPACITY
  {
    Frame(
      if isNew then f.live + 1 else f.live,
      f.payloadEnd + |field| + |value|,
      f.dead + Size(f.dir[i]),
      f.dir[i := Bucket(h, f.payloadEnd, |field|, |value|)],
      Splice(f.heap, f.payloadEnd - HEADER_SIZE, field + value))
  }

  /** Overwrite the value of bucket `i` by one that is no longer. */
  function Overwritten(f: Frame, i: nat, value: Bytes, h: u32): Frame
    requires i < |f.dir| && InHeap(f.dir[i], HEADER_SIZE + |f.heap|) && |value| <= f.dir[i].valLen
  {
    var b := f.dir[i];
    Frame(f.live, f.payloadEnd, f.dead + b.valLen - |value|,
          f.dir[i := Bucket(h, b.offset, b.fieldLen, |value|)],
          Splice(f.heap, b.offset - HEADER_SIZE + b.fieldLen, value))
  }

  /** Turn bucket `i` into a tombstone. */
  function Deleted(f: Frame, i: nat): Frame
    requires i < |f.dir| && f.live > 0
  {
    Frame(f.live - 1, f.payloadEnd, f.dead + Size(f.dir[i]), f.dir[i := TOMBSTONE_BUCKET], f.heap)
  }

  // ---- What a heap write leaves alone ----

  lemma CellKept(heap: Bytes, at: nat, bytes: Bytes, b: Bucket, k: nat)
    requires k > 0 && at + |bytes| <= |heap|
    requires IsLive(b) ==>
               && InHeap(b, HEADER_SIZE + |heap|)
               && (b.offset + b.fieldLen + b.valLen <= HEADER_SIZE + at || HEADER_SIZE + at + |bytes| <= b.offset)
    ensures CellOf(Splice(heap, at, bytes), b, k) == CellOf(heap, b, k)
  {
    if IsLive(b) {
      var o := b.offset - HEADER_SIZE;
      SpliceOutside(heap, at, bytes, o, o + b.fieldLen);
      SpliceOutside(heap, at, bytes, o + b.fieldLen, o + b.fieldLen + b.valLen);
    }
  }

  lemma AppendedCells(f: Frame, i: nat, field: Bytes, value: Bytes, h: u32, isNew: bool)
    requires Accounted(f) && HEADER_SIZE + |f.heap| <= MAX_SLOT_CAPACITY && i < |f.dir|
    requires f.payloadEnd + |field| + |value| <= HEADER_SIZE + |f.heap| && field != []
    ensures var g := Appended(f, i, field, value, h, isNew);
            Cells(g.dir, g.heap) == Cells(f.dir, f.heap)[i := Live(h % |f.dir|, field, value)]
  {
    var g := Appended(f, i, field, value, h, isNew);
    var at := f.payloadEnd - HEADER_SIZE;
    SpliceInside(f.heap, at, field + value);
    assert FieldOf(g.heap, g.dir[i]) == (field + value)[..|field|];
    assert ValueOf(g.heap, g.dir[i]) == (field + value)[|field|..];
    forall j | 0 <= j < |f.dir| && j != i
      ensures CellOf(g.heap, g.dir[j], |f.dir|) == CellOf(f.heap, f.dir[j], |f.dir|)
    {
      CellKept(f.heap, at, field + value, f.dir[j], |f.dir|);
    }
  }

  lemma OverwrittenCells(f: Frame, i: nat, value: Bytes, h: u32)
    requires Accounted(f) && i < |f.dir| && IsLive(f.dir[i]) && |value| <= f.dir[i].valLen
    ensures var g := Overwritten(f, i, value, h);
            Cells(g.dir, g.heap) == Cells(f.dir, f.heap)[i := Live(h % |f.dir|, FieldOf(f.heap, f.dir[i]), value)]
  {
    var g := Overwritten(f, i, value, h);
    var b := f.dir[i];
    var at := b.offset - HEADER_SIZE + b.fieldLen;
    SpliceInside(f.heap, at, value);
    SpliceOutside(f.heap, at, value, b.offset - HEADER_SIZE, at);
    forall j | 0 <= j < |f.dir| && j != i
      ensures CellOf(g.heap, g.dir[j], |f.dir|) == CellOf(f.heap, f.dir[j], |f.dir|)
    {
      assert IsLive(f.dir[j]) ==> if i < j then Apart(f.dir[i], f.dir[j]) else Apart(f.dir[j], f.dir[i]);
      CellKept(f.heap, at, value, f.dir[j], |f.dir|);
    }
  }

  // ---- What each update keeps ----

  lemma AppendedAccounted(f: Frame, i: nat, field: Bytes, value: Bytes, h: u32, isNew: bool)
    requires Accounted(f) && HEADER_SIZE + |f.heap| <= MAX_SLOT_CAPACITY && i < |f.dir|
    requires f.payloadEnd + |field| + |value| <= HEADER_SIZE + |f.heap| && field != []
    ensures Accounted(Appended(f, i, field, value, h, isNew))
    ensures LiveBytes(Appended(f, i, field, value, h, isNew).dir)
            == LiveBytes(f.dir) - Size(f.dir[i]) + |field| + |value|
  {
    var g := Appended(f, i, field, value, h, isNew);
    LiveBytesUpdate(f.dir, i, g.dir[i]);
    forall a, b | 0 <= a < b < |g.dir| && IsLive(g.dir[a]) && IsLive(g.dir[b])
      ensures Apart(g.dir[a], g.dir[b])
    {
      if a != i && b != i { assert Apart(f.dir[a], f.dir[b]); }
    }
  }

  lemma OverwrittenAccounted(f: Frame, i: nat, value: Bytes, h: u32)
    requires Accounted(f) && i < |f.dir| && IsLive(f.dir[i]) && |value| <= f.dir[i].valLen
    ensures Accounted(Overwritten(f, i, value, h))
    ensures LiveBytes(Overwritten(f, i, value, h).dir) == LiveBytes(f.dir) - f.dir[i].valLen + |value|
  {
    var g := Overwritten(f, i, value, h);
    LiveBytesUpdate(f.dir, i, g.dir[i]);
    forall a, b | 0 <= a < b < |g.dir| && IsLive(g.dir[a]) && IsLive(g.dir[b])
      ensures Apart(g.dir[a], g.dir[b])
    {
      assert Apart(f.dir[a], f.dir[b]);
    }
  }

  lemma DeletedAccounted(f: Frame, i: nat)
    requires Accounted(f) && i < |f.dir| && IsLive(f.dir[i]) && f.live > 0
    ensures Accounted(Deleted(f, i))
  {
    var g := Deleted(f, i);
    LiveBytesUpdate(f.dir, i, TOMBSTONE_BUCKET);
    forall a, b | 0 <= a < b < |g.dir| && IsLive(g.dir[a]) && IsLive(g.dir[b])
      ensures Apart(g.dir[a], g.dir[b])
    {
      assert Apart(f.dir[a], f.dir[b]);
    }
  }

  lemma AppendNewIndexed(f: Frame, i: nat, field: Bytes, value: Bytes, hash: Bytes -> u32)
    requires Accounted(f) && Indexed(f, hash) && HEADER_SIZE + |f.heap| <= MAX_SLOT_CAPACITY
    requires field != [] && field !in Pairs(f) && f.payloadEnd + |field| + |value| <= HEADER_SIZE + |f.heap|
    requires i < |f.dir| && !IsLive(f.dir[i]) && PathClear(Cells(f.dir, f.heap), hash(field) % |f.dir|, i)
    ensures var g := Appended(f, i, field, value, hash(field), true);
            Indexed(g, hash) && Pairs(g) == Pairs(f)[field := value]
  {
    var g := Appended(f, i, field, value, hash(field), true);
    AppendedCells(f, i, field, value, hash(field), true);
    var c := Cells(f.dir, f.heap);
    PutNew(c, i, hash(field) % |f.dir|, field, value);
    assert i !in LiveSlots(c);
    CellsAgree(f, g, i);
    HashedFromCells(f, g, i, field, hash);
  }

  /** Cells that agree as rings agree bucket by bucket. */
  lemma CellsAgree(f: Frame, g: Frame, i: nat)
    requires |f.dir| == |g.dir| > 0 && i < |f.dir|
    requires Cells(g.dir, g.heap) == Cells(f.dir, f.heap)[i := Cells(g.dir, g.heap)[i]]
    ensures forall j :: 0 <= j < |f.dir| && j != i ==>
                          CellOf(g.heap, g.dir[j], |f.dir|) == CellOf(f.heap, f.dir[j], |f.dir|)
  {
    var c := Cells(f.dir, f.heap);
    var d := Cells(g.dir, g.heap);
    assert forall j :: 0 <= j < |f.dir| && j != i ==> d[j] == c[j];
  }

  lemma AppendNewOk(f: Frame, i: nat, field: Bytes, value: Bytes, hash: Bytes -> u32)
    requires Ok(f, hash) && field != [] && field !in Pairs(f)
    requires f.payloadEnd + |field| + |value| <= HEADER_SIZE + |f.heap| && 10 * (f.live + 1) < 7 * |f.dir|
    requires i < |f.dir| && !IsLive(f.dir[i]) && PathClear(Cells(f.dir, f.heap), hash(field) % |f.dir|, i)
    ensures var g := Appended(f, i, field, value, hash(field), true);
            Ok(g, hash) && Pairs(g) == Pairs(f)[field := value]
  {
    AppendedAccounted(f, i, field, value, hash(field), true);
    AppendNewIndexed(f, i, field, value, hash);
  }

  lemma RelocateIndexed(f: Frame, i: nat, value: Bytes, hash: Bytes -> u32)
    requires Accounted(f) && Indexed(f, hash) && HEADER_SIZE + |f.heap| <= MAX_SLOT_CAPACITY
    requires i < |f.dir| && IsLive(f.dir[i])
    requires var field := FieldOf(f.heap, f.dir[i]); f.payloadEnd + |field| + |value| <= HEADER_SIZE + |f.heap|
    ensures var field := FieldOf(f.heap, f.dir[i]);
            var g := Appended(f, i, field, value, hash(field), false);
            Indexed(g, hash) && Pairs(g) == Pairs(f)[field := value]
  {
    var field := FieldOf(f.heap, f.dir[i]);
    var g := Appended(f, i, field, value, hash(field), false);
    AppendedCells(f, i, field, value, hash(field), false);
    Overwrite(Cells(f.dir, f.heap), i, value);
    CellsAgree(f, g, i);
    AppendedAccounted(f, i, field, value, hash(field), false);
    HashedFromCells(f, g, i, field, hash);
  }

  lemma RelocateOk(f: Frame, i: nat, value: Bytes, hash: Bytes -> u32)
    requires Ok(f, hash) && i < |f.dir| && IsLive(f.dir[i])
    requires var field := FieldOf(f.heap, f.dir[i]); f.payloadEnd + |field| + |value| <= HEADER_SIZE + |f.heap|
    ensures var field := FieldOf(f.heap, f.dir[i]);
            var g := Appended(f, i, field, value, hash(field), false);
            Ok(g, hash) && Pairs(g) == Pairs(f)[field := value]
  {
    var field := FieldOf(f.heap, f.dir[i]);
    AppendedAccounted(f, i, field, value, hash(field), false);
    RelocateIndexed(f, i, value, hash);
  }

  lemma OverwriteIndexed(f: Frame, i: nat, value: Bytes, hash: Bytes -> u32)
    requires Accounted(f) && Indexed(f, hash) && i < |f.dir| && IsLive(f.dir[i]) && |value| <= f.dir[i].valLen
    ensures var field := FieldOf(f.heap, f.dir[i]);
            var g := Overwritten(f, i, value, hash(field));
            Indexed(g, hash) && Pairs(g) == Pairs(f)[field := value]
  {
    var field := FieldOf(f.heap, f.dir[i]);
    var g := Overwritten(f, i, value, hash(field));
    OverwrittenCells(f, i, value, hash(field));
    Overwrite(Cells(f.dir, f.heap), i, value);
    CellsAgree(f, g, i);
    assert Cells(g.dir, g.heap)[i].key == field;
    HashedFromCells(f, g, i, field, hash);
  }

  lemma OverwriteOk(f: Frame, i: nat, value: Bytes, hash: Bytes -> u32)
    requires Ok(f, hash) && i < |f.dir| && IsLive(f.dir[i]) && |value| <= f.dir[i].valLen
    ensures var field := FieldOf(f.heap, f.dir[i]);
            var g := Overwritten(f, i, value, hash(field));
            Ok(g, hash) && Pairs(g) == Pairs(f)[field := value]
  {
    OverwrittenAccounted(f, i, value, hash(FieldOf(f.heap, f.dir[i])));
    OverwriteIndexed(f, i, value, hash);
  }

  lemma DeleteIndexed(f: Frame, i: nat, hash: Bytes -> u32)
    requires Accounted(f) && Indexed(f, hash) && i < |f.dir| && IsLive(f.dir[i])
    ensures f.live > 0 && Indexed(Deleted(f, i), hash)
    ensures Pairs(Deleted(f, i)) == Pairs(f) - {FieldOf(f.heap, f.dir[i])}
  {
    var c := Cells(f.dir, f.heap);
    assert i in LiveSlots(c);
    var g := Deleted(f, i);
    assert Cells(g.dir, g.heap) == c[i := Tombstone];
    Bury(c, i);
  }

  lemma DeleteOk(f: Frame, i: nat, hash: Bytes -> u32)
    requires Ok(f, hash) && i < |f.dir| && IsLive(f.dir[i])
    ensures f.live > 0 && Ok(Deleted(f, i), hash)
    ensures Pairs(Deleted(f, i)) == Pairs(f) - {FieldOf(f.heap, f.dir[i])}
  {
    DeleteIndexed(f, i, hash);
    DeletedAccounted(f, i);
  }

  /** Bucket hashes stay right when one bucket is set to the hash of its field and no other cell changes. */
  lemma HashedFromCells(f: Frame, g: Frame, i: nat, field: Bytes, hash: Bytes -> u32)
    requires Hashed(f, hash) && |g.dir| == |f.dir| > 0 && i < |f.dir| && |g.heap| == |f.heap|
    requires forall j :: 0 <= j < |f.dir| && j != i ==> g.dir[j] == f.dir[j]
    requires forall j :: 0 <= j < |f.dir| && j != i ==>
                           CellOf(g.heap, g.dir[j], |f.dir|) == CellOf(f.heap, f.dir[j], |f.dir|)
    requires IsLive(g.dir[i]) ==> g.dir[i].hash32 == hash(field)
                                  && InHeap(g.dir[i], HEADER_SIZE + |g.heap|) && FieldOf(g.heap, g.dir[i]) == field
    ensures Hashed(g, hash)
  {
    forall j | 0 <= j < |g.dir| && IsLive(g.dir[j]) && InHeap(g.dir[j], HEADER_SIZE + |g.heap|)
      ensures g.dir[j].hash32 == hash(FieldOf(g.heap, g.dir[j]))
    {
      if j != i {
        assert CellOf(g.heap, g.dir[j], |f.dir|).key == CellOf(f.heap, f.dir[j], |f.dir|).key;
      }
    }
  }
}
