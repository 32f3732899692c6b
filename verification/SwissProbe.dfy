/**
 Control bytes, entries and the group probe of the Swiss table.

 Capacities are powers of two, so `x & (capacity - 1)` is `x % capacity`; slot arithmetic is
 written with `RingStep`, which `RingStepIsModulo` shows to be that remainder.
 */
module SwissProbe {
  import opened Machine
  import opened OpenAddressing

  const CTRL_EMPTY: u8 := 0xFF
  const CTRL_DELETED: u8 := 0x80
  const GROUP_SIZE: nat := 8

  datatype HashEntry = HashEntry(
    keyHash: u64,
    slabBlockId: u32,
    valueLen: u32,
    expireAtSecs: u32,
    accessed: bool,
    valueType: u8)
  {
    predicate IsExpired(now: u32) {
      expireAtSecs != 0 && expireAtSecs <= now
    }

    function Snapshot(): TableEntry {
      TableEntry(slabBlockId, valueLen, expireAtSecs, valueType)
    }
  }

  const DEFAULT_ENTRY := HashEntry(0, 0, 0, 0, false, 0)

  datatype TableEntry = TableEntry(slabBlockId: u32, valueLen: u32, expireAtSecs: u32, valueType: u8)

  function H1(hash: u64, capacity: nat): (home: nat)
    requires capacity > 0
    ensures home < capacity
  {
    (hash / 128) % capacity
  }

  function H2(hash: u64): (fingerprint: u8)
    ensures fingerprint < CTRL_DELETED
  {
    hash % 128
  }

  predicate IsLive(ctrl: u8) {
    ctrl != CTRL_EMPTY && ctrl != CTRL_DELETED
  }

  // ---- The ring of cells a pair of arrays stands for ----

  ghost function CellAt(ctrl: u8, e: HashEntry, capacity: nat): Cell<u64, HashEntry>
    requires capacity > 0
  {
    if ctrl == CTRL_EMPTY then Empty
    else if ctrl == CTRL_DELETED then Tombstone
    else Live(H1(e.keyHash, capacity), e.keyHash, e)
  }

  ghost function Cells(ctrl: seq<u8>, entries: seq<HashEntry>): (c: seq<Cell<u64, HashEntry>>)
    requires |ctrl| == |entries|
    ensures |c| == |ctrl|
    ensures forall i :: 0 <= i < |c| ==> c[i] == CellAt(ctrl[i], entries[i], |ctrl|)
  {
    seq(|ctrl|, i requires 0 <= i < |ctrl| => CellAt(ctrl[i], entries[i], |ctrl|))
  }

  /** A control byte is a sentinel or the fingerprint of the entry beside it. */
  ghost predicate Fingerprinted(ctrl: seq<u8>, entries: seq<HashEntry>)
    requires |ctrl| == |entries|
  {
    forall i :: 0 <= i < |ctrl| && IsLive(ctrl[i]) ==> ctrl[i] == H2(entries[i].keyHash)
  }

  ghost predicate WellFormed(ctrl: seq<u8>, entries: seq<HashEntry>) {
    && |ctrl| == |entries| && |ctrl| >= GROUP_SIZE && |ctrl| % GROUP_SIZE == 0
    && Fingerprinted(ctrl, entries)
    && Valid(Cells(ctrl, entries))
  }

  lemma CellsUpdate(ctrl: seq<u8>, entries: seq<HashEntry>, i: nat, x: u8, e: HashEntry)
    requires |ctrl| == |entries| && i < |ctrl|
    ensures Cells(ctrl[i := x], entries[i := e]) == Cells(ctrl, entries)[i := CellAt(x, e, |ctrl|)]
  {
  }

  // ---- What a probe looks for ----

  /** The slot holds `hash` and, when a block id is asked for, that block id. */
  predicate Matches(ctrl: seq<u8>, entries: seq<HashEntry>, slot: nat, hash: u64, wanted: Option<u32>) {
    && slot < |ctrl| && slot < |entries|
    && ctrl[slot] == H2(hash)
    && entries[slot].keyHash == hash
    && (wanted.None? || entries[slot].slabBlockId == wanted.value)
  }

  ghost predicate MatchExists(ctrl: seq<u8>, entries: seq<HashEntry>, hash: u64, wanted: Option<u32>) {
    exists slot: nat :: Matches(ctrl, entries, slot, hash, wanted)
  }

  ghost predicate HasEmpty(ctrl: seq<u8>) {
    exists i :: 0 <= i < |ctrl| && ctrl[i] == CTRL_EMPTY
  }

  /** A match is a live pair of the abstract map, and conversely. */
  lemma MatchIsContents(ctrl: seq<u8>, entries: seq<HashEntry>, hash: u64, wanted: Option<u32>)
    requires WellFormed(ctrl, entries)
    ensures var m := Contents(Cells(ctrl, entries));
            MatchExists(ctrl, entries, hash, wanted)
            <==> hash in m && (wanted.None? || m[hash].slabBlockId == wanted.value)
  {
    var c := Cells(ctrl, entries);
    if slot: nat :| Matches(ctrl, entries, slot, hash, wanted) {
      ContentsAt(c, slot);
    }
    if hash in Contents(c) && (wanted.None? || Contents(c)[hash].slabBlockId == wanted.value) {
      var slot := SlotOf(c, hash);
      assert Matches(ctrl, entries, slot, hash, wanted);
    }
  }

  /** A match lies at a smaller probe distance than any empty slot. */
  lemma MatchBeforeGap(ctrl: seq<u8>, entries: seq<HashEntry>, hash: u64, wanted: Option<u32>, slot: nat, gap: nat)
    requires WellFormed(ctrl, entries) && Matches(ctrl, entries, slot, hash, wanted)
    requires gap < |ctrl| && ctrl[gap] == CTRL_EMPTY
    ensures RingDistance(H1(hash, |ctrl|), slot, |ctrl|) < RingDistance(H1(hash, |ctrl|), gap, |ctrl|)
  {
    var c := Cells(ctrl, entries);
    HeldBeforeGap(c, slot, gap);
  }

  // ---- The probe loop ----

  datatype Probe = Found(slot: nat) | Vacant(pos: nat) | Spins

  /** The group of eight slots from `pos` ends a probe: it holds a match or an empty slot. */
  ghost predicate GroupStops(ctrl: seq<u8>, entries: seq<HashEntry>, pos: nat, hash: u64, wanted: Option<u32>)
    requires GROUP_SIZE <= |ctrl| && pos < |ctrl|
  {
    exists i :: 0 <= i < GROUP_SIZE
                && (ctrl[RingStep(pos, i, |ctrl|)] == CTRL_EMPTY
                    || Matches(ctrl, entries, RingStep(pos, i, |ctrl|), hash, wanted))
  }

  /** Start of the `n`-th group probed from `home`. */
  function GroupPos(home: nat, n: nat, capacity: nat): (pos: nat)
    requires home < capacity && GROUP_SIZE <= capacity
    ensures pos < capacity
  {
    if n == 0 then home else RingStep(GroupPos(home, n - 1, capacity), GROUP_SIZE, capacity)
  }

  lemma {:induction false} GroupPosIs(home: nat, n: nat, capacity: nat)
    requires home < capacity && GROUP_SIZE <= capacity && GROUP_SIZE * n <= capacity
    ensures GroupPos(home, n, capacity) == RingStep(home, GROUP_SIZE * n, capacity)
  {
    if n > 0 {
      GroupPosIs(home, n - 1, capacity);
    }
  }

  /** The groups tile the ring, so some group stops the probe exactly when some slot would. */
  lemma ProbeEndsIff(ctrl: seq<u8>, entries: seq<HashEntry>, hash: u64, wanted: Option<u32>)
    requires WellFormed(ctrl, entries)
    ensures (exists n: nat :: GroupStops(ctrl, entries, GroupPos(H1(hash, |ctrl|), n, |ctrl|), hash, wanted))
            <==> HasEmpty(ctrl) || MatchExists(ctrl, entries, hash, wanted)
    ensures HasEmpty(ctrl) || MatchExists(ctrl, entries, hash, wanted) ==>
              exists n: nat :: n < |ctrl| / GROUP_SIZE
                               && GroupStops(ctrl, entries, GroupPos(H1(hash, |ctrl|), n, |ctrl|), hash, wanted)
  {
    var home := H1(hash, |ctrl|);
    if HasEmpty(ctrl) {
      var e: nat :| e < |ctrl| && ctrl[e] == CTRL_EMPTY;
      SlotIsInGroup(ctrl, entries, home, e, hash, wanted);
    } else if MatchExists(ctrl, entries, hash, wanted) {
      var slot: nat :| Matches(ctrl, entries, slot, hash, wanted);
      SlotIsInGroup(ctrl, entries, home, slot, hash, wanted);
    }
  }

  lemma SlotIsInGroup(ctrl: seq<u8>, entries: seq<HashEntry>, home: nat, slot: nat, hash: u64, wanted: Option<u32>)
    requires GROUP_SIZE <= |ctrl| && |ctrl| % GROUP_SIZE == 0 && home < |ctrl| && slot < |ctrl|
    requires ctrl[slot] == CTRL_EMPTY || Matches(ctrl, entries, slot, hash, wanted)
    ensures exists n: nat :: n < |ctrl| / GROUP_SIZE
                             && GroupStops(ctrl, entries, GroupPos(home, n, |ctrl|), hash, wanted)
  {
    var d := RingDistance(home, slot, |ctrl|);
    var n := d / GROUP_SIZE;
    GroupPosIs(home, n, |ctrl|);
    assert RingStep(GroupPos(home, n, |ctrl|), d % GROUP_SIZE, |ctrl|) == slot;
    assert GroupStops(ctrl, entries, GroupPos(home, n, |ctrl|), hash, wanted);
  }

  /** `Group::match_byte` with the full-hash check: the first matching slot of a group. */
  method MatchInGroup(ctrl: seq<u8>, entries: seq<HashEntry>, pos: nat, hash: u64, wanted: Option<u32>)
    returns (r: Option<nat>)
    requires |ctrl| == |entries| && GROUP_SIZE <= |ctrl| && pos < |ctrl|
    ensures r.Some? ==> Matches(ctrl, entries, r.value, hash, wanted)
                        && RingDistance(pos, r.value, |ctrl|) < GROUP_SIZE
    ensures r.None? ==> forall j: nat :: j < |ctrl| && RingDistance(pos, j, |ctrl|) < GROUP_SIZE
                                         ==> !Matches(ctrl, entries, j, hash, wanted)
  {
    var i := 0;
    while i < GROUP_SIZE
      invariant 0 <= i <= GROUP_SIZE
      invariant forall j: nat :: j < |ctrl| && RingDistance(pos, j, |ctrl|) < i
                                 ==> !Matches(ctrl, entries, j, hash, wanted)
    {
      var idx := RingStep(pos, i, |ctrl|);
      if Matches(ctrl, entries, idx, hash, wanted) {
        return Some(idx);
      }
      i := i + 1;
    }
    return None;
  }

  /** `Group::has_empty`. */
  method GroupHasEmpty(ctrl: seq<u8>, pos: nat) returns (r: bool)
    requires GROUP_SIZE <= |ctrl| && pos < |ctrl|
    ensures r <==> exists j: nat :: j < |ctrl| && RingDistance(pos, j, |ctrl|) < GROUP_SIZE && ctrl[j] == CTRL_EMPTY
  {
    var i := 0;
    while i < GROUP_SIZE
      invariant 0 <= i <= GROUP_SIZE
      invariant forall j: nat :: j < |ctrl| && RingDistance(pos, j, |ctrl|) < i ==> ctrl[j] != CTRL_EMPTY
    {
      var idx := RingStep(pos, i, |ctrl|);
      if ctrl[idx] == CTRL_EMPTY {
        return true;
      }
      i := i + 1;
    }
    return false;
  }

  /** `Group::first_available`: the first empty or deleted slot of a group. */
  method FirstAvailable(ctrl: seq<u8>, pos: nat) returns (r: Option<nat>)
    requires GROUP_SIZE <= |ctrl| && pos < |ctrl|
    ensures r.Some? ==>
              && r.value < |ctrl| && !IsLive(ctrl[r.value])
              && RingDistance(pos, r.value, |ctrl|) < GROUP_SIZE
              && forall j: nat :: j < |ctrl| && RingDistance(pos, j, |ctrl|) < RingDistance(pos, r.value, |ctrl|)
                                  ==> IsLive(ctrl[j])
    ensures r.None? ==> forall j: nat :: j < |ctrl| && RingDistance(pos, j, |ctrl|) < GROUP_SIZE ==> IsLive(ctrl[j])
  {
    var i := 0;
    while i < GROUP_SIZE
      invariant 0 <= i <= GROUP_SIZE
      invariant forall j: nat :: j < |ctrl| && RingDistance(pos, j, |ctrl|) < i ==> IsLive(ctrl[j])
    {
      var idx := RingStep(pos, i, |ctrl|);
      if !IsLive(ctrl[idx]) {
        return Some(idx);
      }
      i := i + 1;
    }
    return None;
  }

  /**
   The probe loop shared by every operation.  The loop of the original has no exit of its own for
   a ring without empty slots; `Spins` is returned once every group has been visited without
   stopping, from where the loop would revisit the same groups for ever.
   */
  method ProbeFor(ctrl: seq<u8>, entries: seq<HashEntry>, hash: u64, wanted: Option<u32>) returns (p: Probe)
    requires WellFormed(ctrl, entries)
    ensures p.Found? ==> Matches(ctrl, entries, p.slot, hash, wanted)
    ensures p.Found? <==> MatchExists(ctrl, entries, hash, wanted)
    ensures p.Spins? <==> !HasEmpty(ctrl) && !MatchExists(ctrl, entries, hash, wanted)
    ensures p.Vacant? ==>
              && p.pos < |ctrl|
              && (exists j: nat :: j < |ctrl| && RingDistance(p.pos, j, |ctrl|) < GROUP_SIZE && ctrl[j] == CTRL_EMPTY)
              && RingDistance(H1(hash, |ctrl|), p.pos, |ctrl|) + GROUP_SIZE <= |ctrl|
              && var home := H1(hash, |ctrl|);
                 forall j: nat :: j < |ctrl| && RingDistance(home, j, |ctrl|) < RingDistance(home, p.pos, |ctrl|)
                                  ==> ctrl[j] != CTRL_EMPTY
  {
    var home := H1(hash, |ctrl|);
    var pos := home;
    var n := 0;
    while n < |ctrl| / GROUP_SIZE
      invariant 0 <= n <= |ctrl| / GROUP_SIZE
      invariant pos == RingStep(home, GROUP_SIZE * n, |ctrl|)
      invariant forall j: nat :: j < |ctrl| && RingDistance(home, j, |ctrl|) < GROUP_SIZE * n
                                 ==> ctrl[j] != CTRL_EMPTY && !Matches(ctrl, entries, j, hash, wanted)
    {
      var found := MatchInGroup(ctrl, entries, pos, hash, wanted);
      if found.Some? {
        return Found(found.value);
      }
      var hasEmpty := GroupHasEmpty(ctrl, pos);
      assert forall j: nat :: j < |ctrl| && GROUP_SIZE * n <= RingDistance(home, j, |ctrl|) < GROUP_SIZE * (n + 1)
                              ==> RingDistance(pos, j, |ctrl|) < GROUP_SIZE;
      if hasEmpty {
        NoMatchPastGroup(ctrl, entries, hash, wanted, pos, GROUP_SIZE * n);
        return Vacant(pos);
      }
      pos := RingStep(pos, GROUP_SIZE, |ctrl|);
      n := n + 1;
    }
    return Spins;
  }

  lemma NoMatchPastGroup(ctrl: seq<u8>, entries: seq<HashEntry>, hash: u64, wanted: Option<u32>, pos: nat, scanned: nat)
    requires WellFormed(ctrl, entries) && scanned + GROUP_SIZE <= |ctrl|
    requires pos == RingStep(H1(hash, |ctrl|), scanned, |ctrl|)
    requires exists j: nat :: j < |ctrl| && RingDistance(pos, j, |ctrl|) < GROUP_SIZE && ctrl[j] == CTRL_EMPTY
    requires forall j: nat :: j < |ctrl| && RingDistance(H1(hash, |ctrl|), j, |ctrl|) < scanned + GROUP_SIZE
                              ==> !Matches(ctrl, entries, j, hash, wanted)
    ensures !MatchExists(ctrl, entries, hash, wanted)
  {
    var gap: nat :| gap < |ctrl| && RingDistance(pos, gap, |ctrl|) < GROUP_SIZE && ctrl[gap] == CTRL_EMPTY;
    assert RingDistance(H1(hash, |ctrl|), gap, |ctrl|) < scanned + GROUP_SIZE;
    forall slot: nat | Matches(ctrl, entries, slot, hash, wanted)
      ensures false
    {
      MatchBeforeGap(ctrl, entries, hash, wanted, slot, gap);
    }
  }
}
