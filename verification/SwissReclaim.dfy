/**
 What the number returned by the idle compaction counts: the tombstones removed, plus the back-shifts.
 */
module SwissReclaim {
  import opened Machine
  import opened OpenAddressing
  import opened SwissProbe
  import opened SwissCompaction

  /** The sweep moves a live cell back onto this slot. */
  ghost predicate Shifts(c: Ring, tomb: nat)
    requires tomb < |c|
  {
    c[tomb].Tombstone? && BackshiftCandidate(c, tomb, 1).Some?
  }

  /** How many of the first `n` slots of a sweep it back-shifts. */
  ghost function SweepShifts(c: Ring, start: nat, n: nat): (k: nat)
    requires start < |c| && n <= GROUP_SIZE
  {
    if n == 0 then 0
    else SweepShifts(c, start, n - 1) + (if Shifts(Sweep(c, start, n - 1), RingStep(start, n - 1, |c|)) then 1 else 0)
  }

  /** A back-shift leaves the number of tombstones alone; clearing takes one away. */
  lemma CompactSlotCounts(c: Ring, tomb: nat)
    requires tomb < |c|
    ensures |Tombstones(CompactSlot(c, tomb))| + (if Compacts(c, tomb) then 1 else 0)
         == |Tombstones(c)| + (if Shifts(c, tomb) then 1 else 0)
  {
    if Shifts(c, tomb) {
      BackShiftCensus(c, tomb, BackshiftCandidate(c, tomb, 1).value);
    } else if Compacts(c, tomb) {
      assert Tombstones(c[tomb := Empty]) == Tombstones(c) - {tomb};
    }
  }

  /** The number a sweep returns is the tombstones it removed and, on top, its back-shifts. */
  lemma {:induction false} SweepCounts(c: Ring, start: nat, n: nat)
    requires start < |c| && n <= GROUP_SIZE
    ensures SweepChanges(c, start, n) == |Tombstones(c)| - |Tombstones(Sweep(c, start, n))| + SweepShifts(c, start, n)
  {
    if n > 0 {
      SweepCounts(c, start, n - 1);
      CompactSlotCounts(Sweep(c, start, n - 1), RingStep(start, n - 1, |c|));
    }
  }

  // ---- When the number is right ----

  /** Before the sweep, none of its first `n` slots is a tombstone that a live cell may move back onto. */
  ghost predicate NothingToShift(c: Ring, start: nat, n: nat)
    requires start < |c| && n <= GROUP_SIZE
  {
    forall i :: 0 <= i < n ==> !Shifts(c, RingStep(start, i, |c|))
  }

  /** Only tombstones lie between slot `j` and the empty slot `gap`. */
  ghost predicate IsGapAfter(c: Ring, j: nat, gap: nat)
    requires j < |c|
  {
    && gap < |c| && c[gap].Empty?
    && forall x :: 0 <= x < |c| && RingDistance(j, x, |c|) < RingDistance(j, gap, |c|) ==> c[x].Tombstone?
  }

  ghost predicate LeadsToGap(c: Ring, j: nat)
    requires j < |c|
  {
    exists gap: nat :: IsGapAfter(c, j, gap)
  }

  /** `d` is `c` with some tombstones cleared, each of which led to a gap of `c`. */
  ghost predicate Cleared(c: Ring, d: Ring) {
    && |d| == |c|
    && forall j :: 0 <= j < |c| ==> ClearedAt(c, d, j)
  }

  ghost predicate ClearedAt(c: Ring, d: Ring, j: nat)
    requires j < |c| == |d|
  {
    d[j] == c[j] || (c[j].Tombstone? && d[j].Empty? && LeadsToGap(c, j))
  }

  /** From a slot that only tombstones separate from a gap, the scan finds nothing. */
  lemma {:induction false} NothingBeforeGap(c: Ring, tomb: nat, i: nat, gap: nat)
    requires tomb < |c| && 1 <= i <= GROUP_SIZE && IsGapAfter(c, RingStep(tomb, i, |c|), gap)
    ensures BackshiftCandidate(c, tomb, i).None?
    decreases GROUP_SIZE - i
  {
    var s := RingStep(tomb, i, |c|);
    if s != gap {
      GapAfterNext(c, s, gap);
      if i < GROUP_SIZE {
        assert RingStep(tomb, i + 1, |c|) == RingStep(s, 1, |c|);
        NothingBeforeGap(c, tomb, i + 1, gap);
      }
    }
  }

  lemma GapAfterNext(c: Ring, s: nat, gap: nat)
    requires s < |c| && IsGapAfter(c, s, gap) && s != gap
    ensures c[s].Tombstone? && IsGapAfter(c, RingStep(s, 1, |c|), gap)
  {
    var next := RingStep(s, 1, |c|);
    forall x | 0 <= x < |c| && RingDistance(next, x, |c|) < RingDistance(next, gap, |c|)
      ensures c[x].Tombstone?
    {
    }
  }

  /** Clearing such tombstones does not change what may move back onto the others. */
  lemma {:induction false} ClearedSameCandidate(c: Ring, d: Ring, tomb: nat, i: nat)
    requires Cleared(c, d) && tomb < |c| && 1 <= i
    ensures BackshiftCandidate(d, tomb, i) == BackshiftCandidate(c, tomb, i)
    decreases GROUP_SIZE - i
  {
    if i <= GROUP_SIZE {
      var s := RingStep(tomb, i, |c|);
      assert ClearedAt(c, d, s);
      if d[s] == c[s] {
        ClearedSameCandidate(c, d, tomb, i + 1);
      } else {
        var gap: nat :| IsGapAfter(c, s, gap);
        NothingBeforeGap(c, tomb, i, gap);
      }
    }
  }

  /** A slot that leads to a gap of `d` leads to one of `c`. */
  lemma ClearedGap(c: Ring, d: Ring, j: nat, gap: nat)
    requires Cleared(c, d) && j < |c| && IsGapAfter(d, j, gap)
    ensures LeadsToGap(c, j)
  {
    assert ClearedAt(c, d, gap);
    if c[gap].Empty? {
      BeforeGapSame(c, d, j, gap);
      assert IsGapAfter(c, j, gap);
    } else {
      var g2: nat :| IsGapAfter(c, gap, g2);
      FurtherGap(c, d, j, gap, g2);
    }
  }

  lemma BeforeGapSame(c: Ring, d: Ring, j: nat, gap: nat)
    requires Cleared(c, d) && j < |c| && IsGapAfter(d, j, gap)
    ensures forall x :: 0 <= x < |c| && RingDistance(j, x, |c|) < RingDistance(j, gap, |c|) ==> c[x].Tombstone?
  {
    forall x | 0 <= x < |c| && RingDistance(j, x, |c|) < RingDistance(j, gap, |c|)
      ensures c[x].Tombstone?
    {
      assert ClearedAt(c, d, x);
    }
  }

  /** Tombstones up to a tombstone that leads to a gap lead to a gap. */
  lemma FurtherGap(c: Ring, d: Ring, j: nat, mid: nat, gap: nat)
    requires Cleared(c, d) && j < |c| && IsGapAfter(d, j, mid) && c[mid].Tombstone? && IsGapAfter(c, mid, gap)
    ensures LeadsToGap(c, j)
  {
    BeforeGapSame(c, d, j, mid);
    assert RingDistance(j, gap, |c|) >= RingDistance(j, mid, |c|);
    forall x | 0 <= x < |c| && RingDistance(j, x, |c|) < RingDistance(j, gap, |c|)
      ensures c[x].Tombstone?
    {
      if RingDistance(j, x, |c|) >= RingDistance(j, mid, |c|) {
        assert RingDistance(mid, x, |c|) < RingDistance(mid, gap, |c|);
      }
    }
    assert IsGapAfter(c, j, gap);
  }

  /** A sweep without a back-shift only clears, and only the slots it visited. */
  ghost predicate OnlyCleared(c: Ring, start: nat, n: nat)
    requires start < |c| && n <= GROUP_SIZE
  {
    && Cleared(c, Sweep(c, start, n))
    && forall i :: n <= i < GROUP_SIZE ==> Sweep(c, start, n)[RingStep(start, i, |c|)] == c[RingStep(start, i, |c|)]
  }

  /** One more slot: it back-shifts iff it would have before the sweep, and otherwise only clears. */
  lemma OnlyClearedStep(c: Ring, start: nat, n: nat)
    requires start < |c| && n < GROUP_SIZE && OnlyCleared(c, start, n)
    ensures Shifts(Sweep(c, start, n), RingStep(start, n, |c|)) <==> Shifts(c, RingStep(start, n, |c|))
    ensures !Shifts(c, RingStep(start, n, |c|)) ==> OnlyCleared(c, start, n + 1)
  {
    var d, idx := Sweep(c, start, n), RingStep(start, n, |c|);
    ClearedSameCandidate(c, d, idx, 1);
    if !Shifts(c, idx) && Compacts(d, idx) {
      var gap := ChainClearGap(d, idx, 1);
      assert IsGapAfter(d, idx, gap);
      ClearedGap(c, d, idx, gap);
      var e := d[idx := Empty];
      assert e == Sweep(c, start, n + 1);
      forall j | 0 <= j < |c|
        ensures ClearedAt(c, e, j)
      {
        assert ClearedAt(c, d, j);
      }
      assert Cleared(c, e);
    }
  }

  /** The sweep back-shifts nowhere exactly when, before it, there was nothing to shift. */
  lemma {:induction false} ShiftsForeseen(c: Ring, start: nat, n: nat)
    requires start < |c| && n <= GROUP_SIZE
    ensures SweepShifts(c, start, n) == 0 <==> NothingToShift(c, start, n)
    ensures SweepShifts(c, start, n) == 0 ==> OnlyCleared(c, start, n)
  {
    if n > 0 {
      ShiftsForeseen(c, start, n - 1);
      if SweepShifts(c, start, n - 1) == 0 {
        OnlyClearedStep(c, start, n - 1);
      }
    } else {
      assert Cleared(c, c);
    }
  }

  /** The promised number of reclaimed tombstones is returned exactly when there is nothing to shift. */
  lemma ReclaimedIff(c: Ring, start: nat, n: nat)
    requires start < |c| && n <= GROUP_SIZE
    ensures SweepChanges(c, start, n) == |Tombstones(c)| - |Tombstones(Sweep(c, start, n))|
            <==> NothingToShift(c, start, n)
    ensures SweepChanges(c, start, n) >= |Tombstones(c)| - |Tombstones(Sweep(c, start, n))|
  {
    SweepCounts(c, start, n);
    ShiftsForeseen(c, start, n);
  }

  /** A tombstone at home 0 before an entry that it displaced. */
  ghost function Displaced(e: HashEntry): Ring {
    [Tombstone, Live(0, e.keyHash, e), Empty, Empty, Empty, Empty, Empty, Empty]
  }

  /** There one tombstone goes and two are reported. */
  lemma ReclaimedTwiceForOne(e: HashEntry)
    ensures var c := Displaced(e);
            && Valid(c) && !NothingToShift(c, 0, GROUP_SIZE) && SweepChanges(c, 0, GROUP_SIZE) == 2
            && |Tombstones(c)| == 1 && |Tombstones(Sweep(c, 0, GROUP_SIZE))| == 0
  {
    var c := Displaced(e);
    assert BackshiftCandidate(c, 0, 1) == Some(1) && Shifts(c, RingStep(0, 0, 8));
    var d: Ring := c[0 := c[1]][1 := Tombstone];
    assert Sweep(c, 0, 0) == c && Sweep(c, 0, 1) == d;
    assert BackshiftCandidate(d, 1, 1) == None && ChainClear(d, 1, 1);
    assert Tombstones(c) == {0};
    assert Tombstones(d[1 := Empty]) == {};
    NothingLeft(c, 0, 2, GROUP_SIZE);
  }

  /** A sweep past its last tombstone changes nothing more. */
  lemma {:induction false} NothingLeft(c: Ring, start: nat, m: nat, n: nat)
    requires start < |c| && m <= n <= GROUP_SIZE && Tombstones(Sweep(c, start, m)) == {}
    ensures Sweep(c, start, n) == Sweep(c, start, m) && SweepChanges(c, start, n) == SweepChanges(c, start, m)
    decreases n
  {
    if m < n {
      NothingLeft(c, start, m, n - 1);
      var d, idx := Sweep(c, start, n - 1), RingStep(start, n - 1, |c|);
      assert idx !in Tombstones(d);
    }
  }
}
