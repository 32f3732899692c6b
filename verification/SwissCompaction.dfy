/**
 Idle-time tombstone compaction of the Swiss table: what one slot of the sweep does to the ring,
 and why no sweep can change the map.
 */
module SwissCompaction {
  import opened Machine
  import opened OpenAddressing
  import opened SwissProbe

  type Ring = c: seq<Cell<u64, HashEntry>> | |c| >= GROUP_SIZE
    witness [Empty, Empty, Empty, Empty, Empty, Empty, Empty, Empty]

  /** Scanning forward from the `i`-th slot after `tomb`: the first live cell that may move back onto it. */
  ghost function BackshiftCandidate(c: Ring, tomb: nat, i: nat): (r: Option<nat>)
    requires tomb < |c|
    ensures r.Some? ==>
              && r.value < |c| && c[r.value].Live?
              && RingDistance(c[r.value].home, tomb, |c|) < RingDistance(c[r.value].home, r.value, |c|)
    decreases c, GROUP_SIZE - i
  {
    if i > GROUP_SIZE then None
    else
      var s := RingStep(tomb, i, |c|);
      match c[s]
      case Empty => None
      case Tombstone => BackshiftCandidate(c, tomb, i + 1)
      case Live(home, _, _) =>
        if RingDistance(home, s, |c|) > RingDistance(home, tomb, |c|) then Some(s)
        else BackshiftCandidate(c, tomb, i + 1)
  }

  /** From the `i`-th slot after `tomb` only tombstones precede the next empty slot. */
  ghost predicate ChainClear(c: Ring, tomb: nat, i: nat)
    requires tomb < |c|
    decreases c, GROUP_SIZE - i
  {
    && i <= GROUP_SIZE
    && match c[RingStep(tomb, i, |c|)]
       case Empty => true
       case Tombstone => ChainClear(c, tomb, i + 1)
       case Live(_, _, _) => false
  }

  /** The sweep changes something at this slot. */
  ghost predicate Compacts(c: Ring, tomb: nat)
    requires tomb < |c|
  {
    c[tomb].Tombstone? && (BackshiftCandidate(c, tomb, 1).Some? || ChainClear(c, tomb, 1))
  }

  /** One slot of the sweep. */
  ghost function CompactSlot(c: Ring, tomb: nat): (d: Ring)
    requires tomb < |c|
    ensures |d| == |c|
  {
    if !c[tomb].Tombstone? then c
    else
      var candidate := BackshiftCandidate(c, tomb, 1);
      if candidate.Some? then c[tomb := c[candidate.value]][candidate.value := Tombstone]
      else if ChainClear(c, tomb, 1) then c[tomb := Empty]
      else c
  }

  /** The first `n` slots of a sweep that starts at `start`. */
  ghost function Sweep(c: Ring, start: nat, n: nat): (d: Ring)
    requires start < |c| && n <= GROUP_SIZE
    ensures |d| == |c|
  {
    if n == 0 then c else CompactSlot(Sweep(c, start, n - 1), RingStep(start, n - 1, |c|))
  }

  /** How many of those slots the sweep changes. */
  ghost function SweepChanges(c: Ring, start: nat, n: nat): (k: nat)
    requires start < |c| && n <= GROUP_SIZE
    ensures k <= n
  {
    if n == 0 then 0
    else
      SweepChanges(c, start, n - 1) + if Compacts(Sweep(c, start, n - 1), RingStep(start, n - 1, |c|)) then 1 else 0
  }

  // ---- What the two scans look for ----

  /** The slot `k` places after `tomb`. */
  ghost function After(c: Ring, tomb: nat, k: nat): (s: nat)
    requires tomb < |c|
    ensures s == (tomb + k) % |c| < |c|
  {
    (tomb + k) % |c|
  }

  /** The live cell `k` places on, with no gap before it, is nearer its home on the tombstone's slot. */
  ghost predicate MayMove(c: Ring, tomb: nat, k: nat)
    requires tomb < |c|
  {
    var s := After(c, tomb, k);
    && (forall j :: 1 <= j < k ==> !c[After(c, tomb, j)].Empty?)
    && c[s].Live? && RingDistance(c[s].home, tomb, |c|) < RingDistance(c[s].home, s, |c|)
  }

  lemma {:induction false} CandidateFrom(c: Ring, tomb: nat, i: nat)
    requires tomb < |c| && 1 <= i <= GROUP_SIZE + 1
    requires forall j :: 1 <= j < i ==> !c[After(c, tomb, j)].Empty?
    ensures BackshiftCandidate(c, tomb, i).None? ==> forall k :: i <= k <= 8 ==> !MayMove(c, tomb, k)
    ensures BackshiftCandidate(c, tomb, i).Some? ==>
              exists k :: i <= k <= 8 && MayMove(c, tomb, k)
                          && BackshiftCandidate(c, tomb, i) == Some(After(c, tomb, k))
                          && forall j :: i <= j < k ==> !MayMove(c, tomb, j)
    decreases GROUP_SIZE + 1 - i
  {
    if i <= GROUP_SIZE {
      RingStepIsModulo(tomb, i, |c|);
      var s := After(c, tomb, i);
      if c[s].Empty? {
        forall k | i < k <= 8
          ensures !MayMove(c, tomb, k)
        {
        }
      } else if BackshiftCandidate(c, tomb, i) == BackshiftCandidate(c, tomb, i + 1) && !MayMove(c, tomb, i) {
        CandidateFrom(c, tomb, i + 1);
      } else {
        assert MayMove(c, tomb, i);
      }
    }
  }

  /** The candidate is the first live cell within eight slots that may move, and there is none only if none may. */
  lemma CandidateIsFirst(c: Ring, tomb: nat)
    requires tomb < |c|
    ensures BackshiftCandidate(c, tomb, 1).None? <==> forall k :: 1 <= k <= 8 ==> !MayMove(c, tomb, k)
    ensures forall k :: 1 <= k <= 8 && MayMove(c, tomb, k) && (forall j :: 1 <= j < k ==> !MayMove(c, tomb, j)) ==>
              BackshiftCandidate(c, tomb, 1) == Some(After(c, tomb, k))
  {
    CandidateFrom(c, tomb, 1);
  }

  /** Only tombstones lie before a gap `k` places on. */
  ghost predicate GapAt(c: Ring, tomb: nat, k: nat)
    requires tomb < |c|
  {
    c[After(c, tomb, k)].Empty? && forall j :: 1 <= j < k ==> c[After(c, tomb, j)].Tombstone?
  }

  lemma {:induction false} ClearFrom(c: Ring, tomb: nat, i: nat)
    requires tomb < |c| && 1 <= i <= GROUP_SIZE + 1
    requires forall j :: 1 <= j < i ==> c[After(c, tomb, j)].Tombstone?
    ensures ChainClear(c, tomb, i) <==> exists k :: i <= k <= 8 && GapAt(c, tomb, k)
    decreases GROUP_SIZE + 1 - i
  {
    if i <= GROUP_SIZE {
      RingStepIsModulo(tomb, i, |c|);
      if c[After(c, tomb, i)].Empty? {
        assert GapAt(c, tomb, i);
      } else if c[After(c, tomb, i)].Tombstone? {
        ClearFrom(c, tomb, i + 1);
      }
    }
  }

  /**
   What one slot of the sweep does: the first cell that may move onto a tombstone within eight slots does and leaves one
   behind; if none may, a tombstone that only tombstones separate from a gap within eight slots becomes empty; nothing
   else changes.
   */
  lemma SlotIsCompacted(c: Ring, tomb: nat)
    requires tomb < |c|
    ensures !c[tomb].Tombstone? ==> CompactSlot(c, tomb) == c
    ensures forall k :: 1 <= k <= 8 && c[tomb].Tombstone? && MayMove(c, tomb, k)
                        && (forall j :: 1 <= j < k ==> !MayMove(c, tomb, j)) ==>
              CompactSlot(c, tomb) == c[tomb := c[After(c, tomb, k)]][After(c, tomb, k) := Tombstone]
    ensures c[tomb].Tombstone? && (forall k :: 1 <= k <= 8 ==> !MayMove(c, tomb, k)) ==>
              CompactSlot(c, tomb) == if exists k :: 1 <= k <= 8 && GapAt(c, tomb, k) then c[tomb := Empty] else c
  {
    CandidateIsFirst(c, tomb);
    ClearFrom(c, tomb, 1);
  }

  /** The slot of the gap a clear chain ends at. */
  lemma {:induction false} ChainClearGap(c: Ring, tomb: nat, i: nat) returns (gap: nat)
    requires tomb < |c| && ChainClear(c, tomb, i)
    requires forall j :: 0 <= j < |c| && RingDistance(tomb, j, |c|) < i ==> c[j].Tombstone?
    requires 1 <= i
    ensures gap < |c| && c[gap].Empty?
    ensures forall j :: 0 <= j < |c| && RingDistance(tomb, j, |c|) < RingDistance(tomb, gap, |c|) ==> c[j].Tombstone?
    decreases c, GROUP_SIZE - i
  {
    var s := RingStep(tomb, i, |c|);
    if c[s].Empty? {
      gap := s;
    } else {
      gap := ChainClearGap(c, tomb, i + 1);
    }
  }

  /** Compacting one slot keeps the map, adds no tombstone and loses no empty slot. */
  lemma CompactSlotKeepsMap(c: Ring, tomb: nat)
    requires Valid(c) && tomb < |c|
    ensures Valid(CompactSlot(c, tomb))
    ensures Contents(CompactSlot(c, tomb)) == Contents(c)
    ensures |LiveSlots(CompactSlot(c, tomb))| == |LiveSlots(c)|
    ensures EmptySlots(c) <= EmptySlots(CompactSlot(c, tomb))
  {
    if c[tomb].Tombstone? {
      var candidate := BackshiftCandidate(c, tomb, 1);
      if candidate.Some? {
        BackShift(c, tomb, candidate.value);
        BackShiftCensus(c, tomb, candidate.value);
      } else if ChainClear(c, tomb, 1) {
        var gap := ChainClearGap(c, tomb, 1);
        ClearTombstone(c, tomb, gap);
        ContentsUnchanged(c, c[tomb := Empty]);
      }
    }
  }

  lemma {:induction false} SweepKeepsMap(c: Ring, start: nat, n: nat)
    requires Valid(c) && start < |c| && n <= GROUP_SIZE
    ensures Valid(Sweep(c, start, n))
    ensures Contents(Sweep(c, start, n)) == Contents(c)
    ensures |LiveSlots(Sweep(c, start, n))| == |LiveSlots(c)|
    ensures EmptySlots(c) <= EmptySlots(Sweep(c, start, n))
    ensures |Tombstones(Sweep(c, start, n))| <= |Tombstones(c)|
  {
    if n > 0 {
      SweepKeepsMap(c, start, n - 1);
      CompactSlotKeepsMap(Sweep(c, start, n - 1), RingStep(start, n - 1, |c|));
    }
    var d := Sweep(c, start, n);
    SlotCensus(c);
    SlotCensus(d);
    SubsetSize(EmptySlots(c), EmptySlots(d));
  }

  /** `find_backshift_candidate`. */
  method FindBackshiftCandidate(ctrl: seq<u8>, entries: seq<HashEntry>, tomb: nat) returns (r: Option<nat>)
    requires |ctrl| == |entries| && GROUP_SIZE <= |ctrl| && tomb < |ctrl|
    ensures r == BackshiftCandidate(Cells(ctrl, entries), tomb, 1)
  {
    var i := 1;
    while i <= GROUP_SIZE
      invariant 1 <= i <= GROUP_SIZE + 1
      invariant BackshiftCandidate(Cells(ctrl, entries), tomb, 1) == BackshiftCandidate(Cells(ctrl, entries), tomb, i)
    {
      var candidate := RingStep(tomb, i, |ctrl|);
      if ctrl[candidate] == CTRL_EMPTY {
        return None;
      }
      if ctrl[candidate] != CTRL_DELETED {
        var naturalHome := H1(entries[candidate].keyHash, |ctrl|);
        if RingDistance(naturalHome, candidate, |ctrl|) > RingDistance(naturalHome, tomb, |ctrl|) {
          return Some(candidate);
        }
      }
      i := i + 1;
    }
    return None;
  }

  /** `probe_chain_clear_after`. */
  method ProbeChainClearAfter(ctrl: seq<u8>, entries: seq<HashEntry>, idx: nat) returns (r: bool)
    requires |ctrl| == |entries| && GROUP_SIZE <= |ctrl| && idx < |ctrl|
    ensures r == ChainClear(Cells(ctrl, entries), idx, 1)
  {
    var i := 1;
    while i <= GROUP_SIZE
      invariant 1 <= i <= GROUP_SIZE + 1
      invariant ChainClear(Cells(ctrl, entries), idx, 1) == ChainClear(Cells(ctrl, entries), idx, i)
    {
      var next := RingStep(idx, i, |ctrl|);
      if ctrl[next] == CTRL_EMPTY {
        return true;
      }
      if ctrl[next] != CTRL_DELETED {
        return false;
      }
      i := i + 1;
    }
    return false;
  }
}
