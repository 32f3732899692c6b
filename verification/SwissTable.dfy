/**
 The Swiss table as an object updated in place, refining a finite map from 64-bit hash to entry.

 `Outcome.Hangs` stands for a probe loop of the original that never returns.
 */
module SwissTables {
  import opened Machine
  import opened OpenAddressing
  import opened SwissProbe
  import opened SwissCompaction
  import opened SwissReclaim

  const MIN_SHRINK_CAPACITY: nat := 1024

  datatype Outcome<+T> = Done(value: T) | Hangs

  ghost function MapOf(ctrl: seq<u8>, entries: seq<HashEntry>): map<u64, HashEntry>
    requires |ctrl| == |entries|
  {
    Contents(Cells(ctrl, entries))
  }

  /** The load test leaves room for one more entry within the 7/8 bound. */
  lemma LoadAfterInsert(count: nat, capacity: nat)
    requires IsPowerOfTwo(capacity) && capacity >= GROUP_SIZE
    requires count * 8 < capacity * 7
    ensures (count + 1) * 8 <= capacity * 7
  {
    PowerOfTwoByEight(capacity);
    assert capacity == 8 * (capacity / 8);
  }

  // ---- What one write to the arrays does to the map ----

  lemma PutEntry(ctrl: seq<u8>, entries: seq<HashEntry>, slot: nat, e: HashEntry)
    requires WellFormed(ctrl, entries) && slot < |ctrl| && !IsLive(ctrl[slot])
    requires e.keyHash !in MapOf(ctrl, entries)
    requires PathClear(Cells(ctrl, entries), H1(e.keyHash, |ctrl|), slot)
    ensures WellFormed(ctrl[slot := H2(e.keyHash)], entries[slot := e])
    ensures MapOf(ctrl[slot := H2(e.keyHash)], entries[slot := e]) == MapOf(ctrl, entries)[e.keyHash := e]
    ensures |LiveSlots(Cells(ctrl[slot := H2(e.keyHash)], entries[slot := e]))| == |LiveSlots(Cells(ctrl, entries))| + 1
  {
    var c := Cells(ctrl, entries);
    CellsUpdate(ctrl, entries, slot, H2(e.keyHash), e);
    PutNew(c, slot, H1(e.keyHash, |ctrl|), e.keyHash, e);
  }

  /** `d` is `c` with `e` put at a free slot that its own probe path reaches. */
  ghost predicate PlacedOnPath(c: seq<Cell<u64, HashEntry>>, d: seq<Cell<u64, HashEntry>>, e: HashEntry) {
    |c| > 0 && exists slot: nat :: PlacedAt(c, d, e, slot)
  }

  ghost predicate PlacedAt(c: seq<Cell<u64, HashEntry>>, d: seq<Cell<u64, HashEntry>>, e: HashEntry, slot: nat)
    requires |c| > 0
  {
    var home := H1(e.keyHash, |c|);
    slot < |c| && !c[slot].Live? && PathClear(c, home, slot) && d == c[slot := Live(home, e.keyHash, e)]
  }

  lemma ReplaceEntry(ctrl: seq<u8>, entries: seq<HashEntry>, slot: nat, e: HashEntry)
    requires WellFormed(ctrl, entries) && slot < |ctrl| && IsLive(ctrl[slot]) && e.keyHash == entries[slot].keyHash
    ensures e.keyHash in MapOf(ctrl, entries) && MapOf(ctrl, entries)[e.keyHash] == entries[slot]
    ensures WellFormed(ctrl, entries[slot := e])
    ensures MapOf(ctrl, entries[slot := e]) == MapOf(ctrl, entries)[e.keyHash := e]
    ensures |LiveSlots(Cells(ctrl, entries[slot := e]))| == |LiveSlots(Cells(ctrl, entries))|
  {
    var c := Cells(ctrl, entries);
    ContentsAt(c, slot);
    CellsUpdate(ctrl, entries, slot, ctrl[slot], e);
    assert ctrl[slot := ctrl[slot]] == ctrl;
    Overwrite(c, slot, e);
  }

  lemma DeleteEntry(ctrl: seq<u8>, entries: seq<HashEntry>, slot: nat)
    requires WellFormed(ctrl, entries) && slot < |ctrl| && IsLive(ctrl[slot])
    ensures entries[slot].keyHash in MapOf(ctrl, entries)
    ensures MapOf(ctrl, entries)[entries[slot].keyHash] == entries[slot]
    ensures WellFormed(ctrl[slot := CTRL_DELETED], entries)
    ensures MapOf(ctrl[slot := CTRL_DELETED], entries) == MapOf(ctrl, entries) - {entries[slot].keyHash}
    ensures |LiveSlots(Cells(ctrl[slot := CTRL_DELETED], entries))| == |LiveSlots(Cells(ctrl, entries))| - 1
  {
    var c := Cells(ctrl, entries);
    ContentsAt(c, slot);
    CellsUpdate(ctrl, entries, slot, CTRL_DELETED, entries[slot]);
    assert entries[slot := entries[slot]] == entries;
    Bury(c, slot);
  }

  /** The path from home to the first available slot of the group a probe stopped at is clear. */
  lemma PathToAvailable(ctrl: seq<u8>, entries: seq<HashEntry>, home: nat, pos: nat, slot: nat)
    requires |ctrl| == |entries| && home < |ctrl| && pos < |ctrl| && slot < |ctrl|
    requires RingDistance(home, pos, |ctrl|) + RingDistance(pos, slot, |ctrl|) < |ctrl|
    requires forall j: nat :: j < |ctrl| && RingDistance(home, j, |ctrl|) < RingDistance(home, pos, |ctrl|)
                              ==> ctrl[j] != CTRL_EMPTY
    requires forall j: nat :: j < |ctrl| && RingDistance(pos, j, |ctrl|) < RingDistance(pos, slot, |ctrl|)
                              ==> ctrl[j] != CTRL_EMPTY
    ensures PathClear(Cells(ctrl, entries), home, slot)
  {
    var c := Cells(ctrl, entries);
    forall j | 0 <= j < |c| && RingDistance(home, j, |c|) < RingDistance(home, slot, |c|)
      ensures !c[j].Empty?
    {
      assert RingDistance(home, j, |c|) < RingDistance(home, pos, |c|)
             || RingDistance(pos, j, |c|) < RingDistance(pos, slot, |c|);
    }
  }

  lemma EmptyTableIsEmptyMap(capacity: nat, entries: seq<HashEntry>)
    requires capacity >= GROUP_SIZE && capacity % GROUP_SIZE == 0 && |entries| == capacity
    ensures WellFormed(seq(capacity, i => CTRL_EMPTY), entries)
    ensures MapOf(seq(capacity, i => CTRL_EMPTY), entries) == map[]
    ensures LiveSlots(Cells(seq(capacity, i => CTRL_EMPTY), entries)) == {}
    ensures Tombstones(Cells(seq(capacity, i => CTRL_EMPTY), entries)) == {}
  {
  }

  lemma HasEmptyIsEmptySlot(ctrl: seq<u8>, entries: seq<HashEntry>)
    requires |ctrl| == |entries|
    ensures HasEmpty(ctrl) <==> EmptySlots(Cells(ctrl, entries)) != {}
  {
    if HasEmpty(ctrl) {
      var i: nat :| i < |ctrl| && ctrl[i] == CTRL_EMPTY;
      assert i in EmptySlots(Cells(ctrl, entries));
    }
    if EmptySlots(Cells(ctrl, entries)) != {} {
      var i :| i in EmptySlots(Cells(ctrl, entries));
      assert ctrl[i] == CTRL_EMPTY;
    }
  }

  /** Fewer than capacity / 8 tombstones leave an empty slot, whatever the load up to 7/8. */
  lemma FewTombstonesLeaveEmpty(ctrl: seq<u8>, entries: seq<HashEntry>)
    requires |ctrl| == |entries|
    requires |LiveSlots(Cells(ctrl, entries))| * 8 <= |ctrl| * 7
    requires |Tombstones(Cells(ctrl, entries))| * 8 < |ctrl|
    ensures HasEmpty(ctrl)
  {
    SlotCensus(Cells(ctrl, entries));
    HasEmptyIsEmptySlot(ctrl, entries);
  }

  /** The slot an insertion takes in the group its probe stopped at. */
  method TakeAvailable(ctrl: seq<u8>, entries: seq<HashEntry>, hash: u64, pos: nat) returns (slot: nat)
    requires |ctrl| == |entries| && GROUP_SIZE <= |ctrl| && pos < |ctrl|
    requires exists j: nat :: j < |ctrl| && RingDistance(pos, j, |ctrl|) < GROUP_SIZE && ctrl[j] == CTRL_EMPTY
    requires RingDistance(H1(hash, |ctrl|), pos, |ctrl|) + GROUP_SIZE <= |ctrl|
    requires forall j: nat :: j < |ctrl|
                              && RingDistance(H1(hash, |ctrl|), j, |ctrl|) < RingDistance(H1(hash, |ctrl|), pos, |ctrl|)
                              ==> ctrl[j] != CTRL_EMPTY
    ensures slot < |ctrl| && !IsLive(ctrl[slot])
    ensures PathClear(Cells(ctrl, entries), H1(hash, |ctrl|), slot)
  {
    var available := FirstAvailable(ctrl, pos);
    slot := available.value;
    PathToAvailable(ctrl, entries, H1(hash, |ctrl|), pos, slot);
  }

  // ---- Listing ----

  function Snapshots(ctrl: seq<u8>, entries: seq<HashEntry>, n: nat): seq<(u64, TableEntry)>
    requires |ctrl| == |entries| && n <= |ctrl|
  {
    if n == 0 then []
    else if IsLive(ctrl[n - 1]) then
      Snapshots(ctrl, entries, n - 1) + [(entries[n - 1].keyHash, entries[n - 1].Snapshot())]
    else Snapshots(ctrl, entries, n - 1)
  }

  lemma {:induction false} SnapshotsCount(ctrl: seq<u8>, entries: seq<HashEntry>, n: nat)
    requires |ctrl| == |entries| && n <= |ctrl|
    ensures |Snapshots(ctrl, entries, n)| == |LiveBelow(Cells(ctrl, entries), n)|
    ensures n == |ctrl| ==> |Snapshots(ctrl, entries, n)| == |LiveSlots(Cells(ctrl, entries))|
  {
    var c := Cells(ctrl, entries);
    if n > 0 {
      SnapshotsCount(ctrl, entries, n - 1);
      assert LiveBelow(c, n) == if c[n - 1].Live? then LiveBelow(c, n - 1) + {n - 1} else LiveBelow(c, n - 1);
    }
    assert LiveBelow(c, |c|) == LiveSlots(c);
  }

  lemma {:induction false} SnapshotsSound(ctrl: seq<u8>, entries: seq<HashEntry>, n: nat)
    requires WellFormed(ctrl, entries) && n <= |ctrl|
    ensures forall i :: 0 <= i < |Snapshots(ctrl, entries, n)| ==>
                          var p := Snapshots(ctrl, entries, n)[i];
                          p.0 in MapOf(ctrl, entries) && p.1 == MapOf(ctrl, entries)[p.0].Snapshot()
  {
    if n > 0 {
      SnapshotsSound(ctrl, entries, n - 1);
      if IsLive(ctrl[n - 1]) { ContentsAt(Cells(ctrl, entries), n - 1); }
    }
  }

  lemma {:induction false} SnapshotsHold(ctrl: seq<u8>, entries: seq<HashEntry>, n: nat, i: nat)
    requires |ctrl| == |entries| && i < n <= |ctrl| && IsLive(ctrl[i])
    ensures (entries[i].keyHash, entries[i].Snapshot()) in Snapshots(ctrl, entries, n)
  {
    if i < n - 1 {
      SnapshotsHold(ctrl, entries, n - 1, i);
    }
  }

  lemma SnapshotsComplete(ctrl: seq<u8>, entries: seq<HashEntry>)
    requires WellFormed(ctrl, entries)
    ensures forall h :: h in MapOf(ctrl, entries) ==>
                          (h, MapOf(ctrl, entries)[h].Snapshot()) in Snapshots(ctrl, entries, |ctrl|)
  {
    forall h | h in MapOf(ctrl, entries)
      ensures (h, MapOf(ctrl, entries)[h].Snapshot()) in Snapshots(ctrl, entries, |ctrl|)
    {
      SnapshotsHold(ctrl, entries, |ctrl|, SlotOf(Cells(ctrl, entries), h));
    }
  }

  // ---- Rehashing ----

  ghost predicate NoTombstones(ctrl: seq<u8>) {
    forall i :: 0 <= i < |ctrl| ==> ctrl[i] != CTRL_DELETED
  }

  /** Probe of the rehash loop: the first available slot on the path of `hash`. */
  method PlaceFresh(ctrl: seq<u8>, entries: seq<HashEntry>, hash: u64) returns (slot: nat)
    requires |ctrl| == |entries| && |ctrl| >= GROUP_SIZE && |ctrl| % GROUP_SIZE == 0
    requires HasEmpty(ctrl)
    ensures slot < |ctrl| && !IsLive(ctrl[slot])
    ensures PathClear(Cells(ctrl, entries), H1(hash, |ctrl|), slot)
  {
    var home := H1(hash, |ctrl|);
    var pos := home;
    ghost var e: nat :| e < |ctrl| && ctrl[e] == CTRL_EMPTY;
    var n := 0;
    while true
      invariant 0 <= n && GROUP_SIZE * n < |ctrl|
      invariant pos == RingStep(home, GROUP_SIZE * n, |ctrl|)
      invariant forall j: nat :: j < |ctrl| && RingDistance(home, j, |ctrl|) < GROUP_SIZE * n ==> IsLive(ctrl[j])
      decreases |ctrl| - GROUP_SIZE * n
    {
      var available := FirstAvailable(ctrl, pos);
      if available.Some? {
        slot := available.value;
        PathToAvailable(ctrl, entries, home, pos, slot);
        return;
      }
      assert forall j: nat :: j < |ctrl| && GROUP_SIZE * n <= RingDistance(home, j, |ctrl|) < GROUP_SIZE * (n + 1)
                              ==> RingDistance(pos, j, |ctrl|) < GROUP_SIZE;
      assert RingDistance(home, e, |ctrl|) >= GROUP_SIZE * (n + 1);
      pos := RingStep(pos, GROUP_SIZE, |ctrl|);
      n := n + 1;
    }
  }

  /** A ring without tombstones that holds fewer pairs than slots has an empty slot. */
  lemma RoomLeft(ctrl: seq<u8>, entries: seq<HashEntry>)
    requires WellFormed(ctrl, entries) && NoTombstones(ctrl)
    requires |MapOf(ctrl, entries)| < |ctrl|
    ensures HasEmpty(ctrl)
  {
    var c := Cells(ctrl, entries);
    ContentsSize(c);
    SlotCensus(c);
    assert Tombstones(c) == {};
    HasEmptyIsEmptySlot(ctrl, entries);
  }

  /** One entry of the rehash loop. */
  method RehashOne(ctrl: seq<u8>, entries: seq<HashEntry>, entry: HashEntry)
    returns (newCtrl: seq<u8>, newEntries: seq<HashEntry>)
    requires WellFormed(ctrl, entries) && NoTombstones(ctrl)
    requires |MapOf(ctrl, entries)| < |ctrl| && entry.keyHash !in MapOf(ctrl, entries)
    ensures |newCtrl| == |ctrl| && WellFormed(newCtrl, newEntries) && NoTombstones(newCtrl)
    ensures MapOf(newCtrl, newEntries) == MapOf(ctrl, entries)[entry.keyHash := entry]
  {
    RoomLeft(ctrl, entries);
    var slot := PlaceFresh(ctrl, entries, entry.keyHash);
    PutEntry(ctrl, entries, slot, entry);
    newCtrl := ctrl[slot := H2(entry.keyHash)];
    newEntries := entries[slot := entry];
  }

  /** `resize`: rehash every live entry into fresh arrays. */
  method Rehash(ctrl: seq<u8>, entries: seq<HashEntry>, newCapacity: nat)
    returns (newCtrl: seq<u8>, newEntries: seq<HashEntry>)
    requires WellFormed(ctrl, entries)
    requires newCapacity >= GROUP_SIZE && newCapacity % GROUP_SIZE == 0
    requires |LiveSlots(Cells(ctrl, entries))| <= newCapacity
    ensures |newCtrl| == newCapacity
    ensures WellFormed(newCtrl, newEntries) && NoTombstones(newCtrl)
    ensures MapOf(newCtrl, newEntries) == MapOf(ctrl, entries)
    ensures |LiveSlots(Cells(newCtrl, newEntries))| == |LiveSlots(Cells(ctrl, entries))|
    ensures |LiveSlots(Cells(ctrl, entries))| < newCapacity ==> HasEmpty(newCtrl)
  {
    newCtrl, newEntries := RehashAll(ctrl, entries, newCapacity);
    ContentsSize(Cells(ctrl, entries));
    ContentsSize(Cells(newCtrl, newEntries));
    if |LiveSlots(Cells(ctrl, entries))| < newCapacity {
      RoomLeft(newCtrl, newEntries);
    }
  }

  method RehashAll(ctrl: seq<u8>, entries: seq<HashEntry>, newCapacity: nat)
    returns (newCtrl: seq<u8>, newEntries: seq<HashEntry>)
    requires WellFormed(ctrl, entries)
    requires newCapacity >= GROUP_SIZE && newCapacity % GROUP_SIZE == 0
    requires |LiveSlots(Cells(ctrl, entries))| <= newCapacity
    ensures |newCtrl| == newCapacity && WellFormed(newCtrl, newEntries) && NoTombstones(newCtrl)
    ensures MapOf(newCtrl, newEntries) == MapOf(ctrl, entries)
  {
    newCtrl := seq(newCapacity, i => CTRL_EMPTY);
    newEntries := seq(newCapacity, i => DEFAULT_ENTRY);
    EmptyTableIsEmptyMap(newCapacity, newEntries);
    ghost var c := Cells(ctrl, entries);
    ContentsBelowAll(c);
    var idx := 0;
    while idx < |entries|
      invariant 0 <= idx <= |entries|
      invariant |newCtrl| == newCapacity
      invariant WellFormed(newCtrl, newEntries)
      invariant NoTombstones(newCtrl)
      invariant MapOf(newCtrl, newEntries) == ContentsBelow(c, idx)
    {
      ContentsBelowStep(c, idx);
      if IsLive(ctrl[idx]) {
        newCtrl, newEntries := RehashOne(newCtrl, newEntries, entries[idx]);
      }
      idx := idx + 1;
    }
  }

  lemma SweptIsWellFormed(ctrl0: seq<u8>, entries0: seq<HashEntry>, ctrl: seq<u8>, entries: seq<HashEntry>, start: nat)
    requires WellFormed(ctrl0, entries0) && |ctrl| == |entries| == |ctrl0| && start < |ctrl|
    requires Fingerprinted(ctrl, entries)
    requires Cells(ctrl, entries) == Sweep(Cells(ctrl0, entries0), start, GROUP_SIZE)
    ensures WellFormed(ctrl, entries)
    ensures MapOf(ctrl, entries) == MapOf(ctrl0, entries0)
    ensures |LiveSlots(Cells(ctrl, entries))| == |LiveSlots(Cells(ctrl0, entries0))|
    ensures EmptySlots(Cells(ctrl0, entries0)) <= EmptySlots(Cells(ctrl, entries))
    ensures |Tombstones(Cells(ctrl, entries))| <= |Tombstones(Cells(ctrl0, entries0))|
  {
    SweepKeepsMap(Cells(ctrl0, entries0), start, GROUP_SIZE);
  }

  // ---- The table ----

  class SwissTable {
    var ctrl: seq<u8>
    var entries: seq<HashEntry>
    var count: nat
    var capacity: nat
    var compactCursor: nat

    ghost predicate Valid()
      reads this
    {
      && |ctrl| == capacity && IsPowerOfTwo(capacity)
      && WellFormed(ctrl, entries)
      && count == |LiveSlots(Cells(ctrl, entries))|
      && count * 8 <= capacity * 7
      && compactCursor < capacity
    }

    /** The finite map the table stands for. */
    ghost function Model(): map<u64, HashEntry>
      requires |ctrl| == |entries|
      reads this
    {
      MapOf(ctrl, entries)
    }

    /** A probe for an absent hash returns. */
    ghost predicate ProbesEnd()
      reads this
    {
      HasEmpty(ctrl)
    }

    constructor WithCapacity(minCapacity: nat)
      ensures Valid() && Model() == map[] && ProbesEnd()
      ensures forall i :: 0 <= i < capacity ==> ctrl[i] == CTRL_EMPTY
      ensures capacity == if NextPowerOfTwo(minCapacity) > GROUP_SIZE then NextPowerOfTwo(minCapacity) else GROUP_SIZE
      ensures compactCursor == 0
    {
      var cap := NextPowerOfTwo(minCapacity);
      if cap < GROUP_SIZE { cap := GROUP_SIZE; }
      assert IsPowerOfTwo(8) by { assert IsPowerOfTwo(4) && IsPowerOfTwo(2); }
      PowerOfTwoByEight(cap);
      ctrl := seq(cap, i => CTRL_EMPTY);
      entries := seq(cap, i => DEFAULT_ENTRY);
      count, capacity, compactCursor := 0, cap, 0;
      EmptyTableIsEmptyMap(cap, seq(cap, i => DEFAULT_ENTRY));
      new;
      assert ctrl[0] == CTRL_EMPTY;
    }

    /** `count` is the size of the map. */
    lemma CountIsSize()
      requires Valid()
      ensures count == |Model()|
    {
      ContentsSize(Cells(ctrl, entries));
    }

    method Resize(requested: nat)
      requires Valid() && IsPowerOfTwo(requested) && requested >= GROUP_SIZE
      requires count * 8 <= requested * 7
      modifies this
      ensures Valid() && capacity == requested && count == old(count) && Model() == old(Model())
      ensures ProbesEnd() && NoTombstones(ctrl) && compactCursor == 0
    {
      var newCapacity := NextPowerOfTwo(requested);
      NextPowerOfTwoFixed(requested);
      PowerOfTwoByEight(requested);
      var newCtrl, newEntries := Rehash(ctrl, entries, newCapacity);
      ctrl, entries, capacity, compactCursor := newCtrl, newEntries, newCapacity, 0;
    }

    /** `insert_typed`: `Some` of the replaced block id, or `None` for a new key. */
    method InsertTyped(hash: u64, slabBlockId: u32, valueLen: u32, expireAtSecs: u32, valueType: u8)
      returns (r: Outcome<Option<u32>>)
      requires Valid()
      modifies this
      ensures Valid()
      ensures r.Hangs? <==> !old(ProbesEnd()) && hash !in old(Model())
                            && old(count) * 8 < old(capacity) * 7
      ensures r.Hangs? ==> unchanged(this)
      ensures r.Done? ==>
                Model() == old(Model())[hash := HashEntry(hash, slabBlockId, valueLen, expireAtSecs, false, valueType)]
      ensures r.Done? ==> r.value == if hash in old(Model()) then Some(old(Model())[hash].slabBlockId) else None
      ensures r.Done? ==> capacity == if old(count) * 8 >= old(capacity) * 7 then 2 * old(capacity) else old(capacity)
      ensures r == Done(None) && old(count) * 8 < old(capacity) * 7 ==>
                capacity == old(capacity) && compactCursor == old(compactCursor)
                && PlacedOnPath(Cells(old(ctrl), old(entries)), Cells(ctrl, entries),
                                HashEntry(hash, slabBlockId, valueLen, expireAtSecs, false, valueType))
    {
      if count * 8 >= capacity * 7 {
        PowerOfTwoDoubled(capacity);
        Resize(capacity * 2);
      }
      r := InsertProbed(HashEntry(hash, slabBlockId, valueLen, expireAtSecs, false, valueType));
    }

    /** The probe of `insert_typed`, below the load threshold. */
    method InsertProbed(entry: HashEntry) returns (r: Outcome<Option<u32>>)
      requires Valid() && count * 8 < capacity * 7
      modifies this
      ensures Valid()
      ensures r.Hangs? <==> !old(ProbesEnd()) && entry.keyHash !in old(Model())
      ensures r.Hangs? ==> unchanged(this)
      ensures r.Done? ==> Model() == old(Model())[entry.keyHash := entry]
      ensures r.Done? ==>
                r.value == if entry.keyHash in old(Model()) then Some(old(Model())[entry.keyHash].slabBlockId) else None
      ensures capacity == old(capacity) && compactCursor == old(compactCursor)
      ensures r == Done(None) ==> PlacedOnPath(Cells(old(ctrl), old(entries)), Cells(ctrl, entries), entry)
    {
      var hash := entry.keyHash;
      MatchIsContents(ctrl, entries, hash, None);
      var probe := ProbeFor(ctrl, entries, hash, None);
      match probe {
        case Found(idx) =>
          var oldBlockId := entries[idx].slabBlockId;
          ReplaceEntry(ctrl, entries, idx, entry);
          entries := entries[idx := entry];
          return Done(Some(oldBlockId));
        case Vacant(pos) =>
          var slot := TakeAvailable(ctrl, entries, hash, pos);
          InsertAt(slot, entry);
          return Done(None);
        case Spins =>
          return Hangs;
      }
    }

    /** Fill a free slot on the path of a new entry. */
    method InsertAt(slot: nat, entry: HashEntry)
      requires Valid() && count * 8 < capacity * 7
      requires slot < capacity && !IsLive(ctrl[slot]) && entry.keyHash !in Model()
      requires PathClear(Cells(ctrl, entries), H1(entry.keyHash, |ctrl|), slot)
      modifies `ctrl, `entries, `count
      ensures Valid() && capacity == old(capacity)
      ensures Model() == old(Model())[entry.keyHash := entry]
      ensures PlacedOnPath(Cells(old(ctrl), old(entries)), Cells(ctrl, entries), entry)
    {
      PutEntry(ctrl, entries, slot, entry);
      CellsUpdate(ctrl, entries, slot, H2(entry.keyHash), entry);
      LoadAfterInsert(count, capacity);
      ctrl, entries, count := ctrl[slot := H2(entry.keyHash)], entries[slot := entry], count + 1;
      assert PlacedAt(Cells(old(ctrl), old(entries)), Cells(ctrl, entries), entry, slot);
    }

    /** `lookup_checked`: the entry, unless absent or expired at a non-zero `now`. */
    method LookupChecked(hash: u64, now: u32) returns (r: Outcome<Option<HashEntry>>)
      requires Valid()
      modifies this
      ensures Valid() && capacity == old(capacity) && count == old(count)
      ensures r.Hangs? <==> !old(ProbesEnd()) && hash !in old(Model())
      ensures r.Hangs? ==> unchanged(this)
      ensures var hit := hash in old(Model()) && (now == 0 || old(Model())[hash].expireAtSecs == 0
                                                  || now < old(Model())[hash].expireAtSecs);
              if hit then
                r == Done(Some(old(Model())[hash].(accessed := true))) && Model() == old(Model())[hash := r.value.value]
              else
                (r.Done? ==> r.value.None?) && Model() == old(Model())
    {
      MatchIsContents(ctrl, entries, hash, None);
      var probe := ProbeFor(ctrl, entries, hash, None);
      match probe {
        case Found(idx) =>
          var e := entries[idx].(accessed := true);
          ReplaceEntry(ctrl, entries, idx, e);
          if now != 0 && entries[idx].IsExpired(now) {
            return Done(None);
          }
          entries := entries[idx := e];
          return Done(Some(e));
        case Vacant(_) => return Done(None);
        case Spins => return Hangs;
      }
    }

    /** `update_ttl`. */
    method UpdateTtl(hash: u64, expireAtSecs: u32, now: u32) returns (r: Outcome<bool>)
      requires Valid()
      modifies this
      ensures Valid() && capacity == old(capacity) && count == old(count)
      ensures r.Hangs? <==> !old(ProbesEnd()) && hash !in old(Model())
      ensures r.Hangs? ==> unchanged(this)
      ensures var hit := hash in old(Model()) && (now == 0 || old(Model())[hash].expireAtSecs == 0
                                                  || now < old(Model())[hash].expireAtSecs);
              && (r.Done? ==> r.value == hit)
              && Model() == if !hit then old(Model()) else
                            old(Model())[hash := old(Model())[hash].(expireAtSecs := expireAtSecs, accessed := true)]
    {
      MatchIsContents(ctrl, entries, hash, None);
      var probe := ProbeFor(ctrl, entries, hash, None);
      match probe {
        case Found(idx) =>
          var e := entries[idx].(expireAtSecs := expireAtSecs, accessed := true);
          ReplaceEntry(ctrl, entries, idx, e);
          if now != 0 && entries[idx].IsExpired(now) {
            return Done(false);
          }
          entries := entries[idx := e];
          return Done(true);
        case Vacant(_) => return Done(false);
        case Spins => return Hangs;
      }
    }

    /** `persist`: true exactly when a time to live was removed. */
    method Persist(hash: u64, now: u32) returns (r: Outcome<bool>)
      requires Valid()
      modifies this
      ensures Valid() && capacity == old(capacity) && count == old(count)
      ensures r.Hangs? <==> !old(ProbesEnd()) && hash !in old(Model())
      ensures r.Hangs? ==> unchanged(this)
      ensures var hit := hash in old(Model()) && old(Model())[hash].expireAtSecs != 0
                         && (now == 0 || now < old(Model())[hash].expireAtSecs);
              && (r.Done? ==> r.value == hit)
              && Model() == if hit then old(Model())[hash := old(Model())[hash].(expireAtSecs := 0, accessed := true)]
                            else old(Model())
    {
      MatchIsContents(ctrl, entries, hash, None);
      var probe := ProbeFor(ctrl, entries, hash, None);
      match probe {
        case Found(idx) =>
          var e := entries[idx].(expireAtSecs := 0, accessed := true);
          ReplaceEntry(ctrl, entries, idx, e);
          if now != 0 && entries[idx].IsExpired(now) {
            return Done(false);
          }
          if entries[idx].expireAtSecs > 0 {
            entries := entries[idx := e];
            return Done(true);
          }
          return Done(false);
        case Vacant(_) => return Done(false);
        case Spins => return Hangs;
      }
    }

    /** Bury the entry at `idx` and shrink the table when it has become sparse. */
    method RemoveAt(idx: nat) returns (snapshot: TableEntry)
      requires Valid() && idx < capacity && IsLive(ctrl[idx])
      modifies this
      ensures Valid()
      ensures old(entries[idx].keyHash) in old(Model())
      ensures var e := old(Model())[old(entries[idx].keyHash)];
              snapshot == TableEntry(e.slabBlockId, e.valueLen, e.expireAtSecs, e.valueType)
      ensures Model() == old(Model()) - {old(entries[idx].keyHash)}
      ensures capacity == if old(capacity) > 1024 && (old(count) - 1) * 8 < old(capacity)
                          then old(capacity) / 2 else old(capacity)
      ensures capacity == old(capacity) ==>
                && Cells(ctrl, entries) == Cells(old(ctrl), old(entries))[idx := Tombstone]
                && compactCursor == old(compactCursor)
    {
      DeleteEntry(ctrl, entries, idx);
      PowerOfTwoByEight(capacity);
      ctrl := ctrl[idx := CTRL_DELETED];
      count := count - 1;
      snapshot := entries[idx].Snapshot();
      if capacity > MIN_SHRINK_CAPACITY && count * 8 < capacity {
        PowerOfTwoDoubled(capacity);
        Resize(capacity / 2);
      }
    }

    /** `remove`. */
    method Remove(hash: u64) returns (r: Outcome<Option<TableEntry>>)
      requires Valid()
      modifies this
      ensures Valid()
      ensures r.Hangs? <==> !old(ProbesEnd()) && hash !in old(Model())
      ensures r.Hangs? ==> unchanged(this)
      ensures Model() == old(Model()) - {hash}
      ensures r.Done? ==> (r.value.Some? <==> hash in old(Model()))
      ensures r.Done? && hash in old(Model()) ==>
                var e := old(Model())[hash];
                r.value == Some(TableEntry(e.slabBlockId, e.valueLen, e.expireAtSecs, e.valueType))
      ensures hash in old(Model()) && old(capacity) <= MIN_SHRINK_CAPACITY ==>
                capacity == old(capacity) && compactCursor == old(compactCursor)
                && Cells(ctrl, entries) ==
                   Cells(old(ctrl), old(entries))[SlotOf(Cells(old(ctrl), old(entries)), hash) := Tombstone]
    {
      MatchIsContents(ctrl, entries, hash, None);
      var probe := ProbeFor(ctrl, entries, hash, None);
      match probe {
        case Found(idx) =>
          var snapshot := RemoveAt(idx);
          return Done(Some(snapshot));
        case Vacant(_) => return Done(None);
        case Spins => return Hangs;
      }
    }

    /** `remove_if_matching`: removes only an entry that still points at the expected block. */
    method RemoveIfMatching(hash: u64, expected: u32) returns (r: Outcome<Option<TableEntry>>)
      requires Valid()
      modifies this
      ensures Valid()
      ensures r.Hangs? ==> unchanged(this)
      ensures var hit := hash in old(Model()) && old(Model())[hash].slabBlockId == expected;
              && (r.Hangs? <==> !old(ProbesEnd()) && !hit)
              && Model() == (if hit then old(Model()) - {hash} else old(Model()))
              && (r.Done? ==> (r.value.Some? <==> hit))
              && (r.Done? && hit ==>
                    var e := old(Model())[hash];
                    r.value == Some(TableEntry(e.slabBlockId, e.valueLen, e.expireAtSecs, e.valueType)))
    {
      MatchIsContents(ctrl, entries, hash, Some(expected));
      var probe := ProbeFor(ctrl, entries, hash, Some(expected));
      match probe {
        case Found(idx) =>
          var snapshot := RemoveAt(idx);
          return Done(Some(snapshot));
        case Vacant(_) => return Done(None);
        case Spins => return Hangs;
      }
    }

    /** `get_ttl`: -2 for a missing or expired key, -1 for a persistent one, else the seconds left. */
    method GetTtl(hash: u64, now: u32) returns (r: Outcome<int>)
      requires Valid()
      modifies this
      ensures Valid() && capacity == old(capacity) && count == old(count)
      ensures r.Hangs? <==> !old(ProbesEnd()) && hash !in old(Model())
      ensures Model() == if hash in old(Model()) && (now == 0 || old(Model())[hash].expireAtSecs == 0
                                                     || now < old(Model())[hash].expireAtSecs)
                         then old(Model())[hash := old(Model())[hash].(accessed := true)] else old(Model())
      ensures r.Done? ==>
                r.value == if hash !in old(Model()) then -2
                           else if old(Model())[hash].expireAtSecs == 0 then -1
                           else if old(Model())[hash].expireAtSecs <= now then -2
                           else old(Model())[hash].expireAtSecs - now
    {
      var looked := LookupChecked(hash, now);
      match looked {
        case Done(Some(entry)) =>
          if entry.expireAtSecs == 0 {
            return Done(-1);
          } else if entry.expireAtSecs <= now {
            return Done(-2);
          }
          return Done(entry.expireAtSecs - now);
        case Done(None) => return Done(-2);
        case Hangs => return Hangs;
      }
    }

    /** `tombstone_count`. */
    method TombstoneCount() returns (n: nat)
      requires Valid()
      ensures n == |Tombstones(Cells(ctrl, entries))|
      ensures ProbesEnd() <==> n + count < capacity
    {
      n := 0;
      ghost var dead: set<nat> := {};
      for i := 0 to |ctrl|
        invariant dead == set j: nat | j < i && ctrl[j] == CTRL_DELETED
        invariant n == |dead|
      {
        if ctrl[i] == CTRL_DELETED {
          n := n + 1;
          dead := dead + {i};
        }
      }
      assert dead == Tombstones(Cells(ctrl, entries));
      SlotCensus(Cells(ctrl, entries));
      HasEmptyIsEmptySlot(ctrl, entries);
    }

    /** `live_entries`: every pair of the map, once. */
    method LiveEntries() returns (res: seq<(u64, TableEntry)>)
      requires Valid()
      ensures |res| == count
      ensures forall i :: 0 <= i < |res| ==>
                && res[i].0 in Model()
                && var e := Model()[res[i].0];
                   res[i].1 == TableEntry(e.slabBlockId, e.valueLen, e.expireAtSecs, e.valueType)
      ensures forall h :: h in Model() ==> exists i :: 0 <= i < |res| && res[i].0 == h
    {
      res := [];
      for idx := 0 to |entries|
        invariant res == Snapshots(ctrl, entries, idx)
      {
        if IsLive(ctrl[idx]) {
          res := res + [(entries[idx].keyHash, entries[idx].Snapshot())];
        }
      }
      SnapshotsCount(ctrl, entries, |entries|);
      SnapshotsSound(ctrl, entries, |entries|);
      SnapshotsComplete(ctrl, entries);
    }

    /** `clear`: the entries stay in memory behind empty control bytes. */
    method Clear()
      requires Valid()
      modifies this
      ensures Valid() && Model() == map[] && capacity == old(capacity) && ProbesEnd()
    {
      PowerOfTwoByEight(capacity);
      EmptyTableIsEmptyMap(capacity, entries);
      ctrl := seq(capacity, i => CTRL_EMPTY);
      count, compactCursor := 0, 0;
      assert ctrl[0] == CTRL_EMPTY;
    }

    /** `compact_one_group`: the ring after the call is exactly the eight-slot sweep of the ring before. */
    method CompactOneGroup() returns (reclaimed: nat)
      requires Valid()
      modifies this
      ensures Valid() && count == old(count) && capacity == old(capacity)
      ensures Cells(ctrl, entries) == Sweep(Cells(old(ctrl), old(entries)), old(compactCursor), GROUP_SIZE)
      ensures reclaimed == SweepChanges(Cells(old(ctrl), old(entries)), old(compactCursor), GROUP_SIZE)
      ensures reclaimed == |Tombstones(Cells(old(ctrl), old(entries)))| - |Tombstones(Cells(ctrl, entries))|
                           + SweepShifts(Cells(old(ctrl), old(entries)), old(compactCursor), GROUP_SIZE)
      ensures reclaimed == |Tombstones(Cells(old(ctrl), old(entries)))| - |Tombstones(Cells(ctrl, entries))|
              <==> NothingToShift(Cells(old(ctrl), old(entries)), old(compactCursor), GROUP_SIZE)
      ensures compactCursor == RingStep(old(compactCursor), GROUP_SIZE, old(capacity))
      ensures Model() == old(Model())
      ensures |Tombstones(Cells(ctrl, entries))| <= |Tombstones(Cells(old(ctrl), old(entries)))|
      ensures EmptySlots(Cells(old(ctrl), old(entries))) <= EmptySlots(Cells(ctrl, entries))
    {
      var start := compactCursor;
      compactCursor := RingStep(compactCursor, GROUP_SIZE, capacity);
      reclaimed := SweepGroup(start, GROUP_SIZE);
      SweptIsWellFormed(old(ctrl), old(entries), ctrl, entries, start);
      SweepCounts(Cells(old(ctrl), old(entries)), start, GROUP_SIZE);
      ReclaimedIff(Cells(old(ctrl), old(entries)), start, GROUP_SIZE);
    }

    /** The loop of `compact_one_group` over the first `n` slots of the group. */
    method SweepGroup(start: nat, n: nat) returns (reclaimed: nat)
      requires |ctrl| == |entries| == capacity && n <= GROUP_SIZE <= capacity && start < capacity
      requires Fingerprinted(ctrl, entries)
      modifies `ctrl, `entries
      ensures |ctrl| == |entries| == capacity && Fingerprinted(ctrl, entries)
      ensures Cells(ctrl, entries) == Sweep(Cells(old(ctrl), old(entries)), start, n)
      ensures reclaimed == SweepChanges(Cells(old(ctrl), old(entries)), start, n)
    {
      ghost var c0 := Cells(ctrl, entries);
      reclaimed := 0;
      var i := 0;
      while i < n
        invariant 0 <= i <= n
        invariant |ctrl| == |entries| == capacity
        invariant Fingerprinted(ctrl, entries)
        invariant Cells(ctrl, entries) == Sweep(c0, start, i)
        invariant reclaimed == SweepChanges(c0, start, i)
      {
        var did := CompactNext(c0, start, i);
        if did { reclaimed := reclaimed + 1; }
        i := i + 1;
      }
    }

    /** Slot `i` of a sweep whose first `i` slots are done. */
    method CompactNext(ghost c0: Ring, start: nat, i: nat) returns (did: bool)
      requires |ctrl| == |entries| == capacity == |c0| && i < GROUP_SIZE <= capacity && start < capacity
      requires Fingerprinted(ctrl, entries) && Cells(ctrl, entries) == Sweep(c0, start, i)
      modifies `ctrl, `entries
      ensures |ctrl| == |entries| == capacity && Fingerprinted(ctrl, entries)
      ensures Cells(ctrl, entries) == Sweep(c0, start, i + 1)
      ensures SweepChanges(c0, start, i + 1) == SweepChanges(c0, start, i) + if did then 1 else 0
    {
      did := CompactAt(RingStep(start, i, capacity));
    }

    /** One slot of the sweep. */
    method CompactAt(idx: nat) returns (did: bool)
      requires |ctrl| == |entries| == capacity && GROUP_SIZE <= capacity && idx < capacity
      requires Fingerprinted(ctrl, entries)
      modifies `ctrl, `entries
      ensures |ctrl| == |entries| == capacity && Fingerprinted(ctrl, entries)
      ensures Cells(ctrl, entries) == CompactSlot(Cells(old(ctrl), old(entries)), idx)
      ensures did <==> Compacts(Cells(old(ctrl), old(entries)), idx)
    {
      if ctrl[idx] != CTRL_DELETED {
        return false;
      }
      var candidate := FindBackshiftCandidate(ctrl, entries, idx);
      if candidate.Some? {
        var b := candidate.value;
        entries := entries[idx := entries[b]][b := entries[idx]];
        ctrl := ctrl[idx := ctrl[b]][b := CTRL_DELETED];
        return true;
      }
      var clear := ProbeChainClearAfter(ctrl, entries, idx);
      if clear {
        ctrl := ctrl[idx := CTRL_EMPTY];
        return true;
      }
      return false;
    }
  }
}
