/**
 Open addressing with linear probing over a ring of cells, independent of how the cells are
 stored.  Both the Swiss table and the in-slot hash frame are such rings; what each of their
 operations keeps is proved here once.
 */
module OpenAddressing {

  datatype Cell<K, V> = Empty | Tombstone | Live(home: nat, key: K, value: V)

  /** Number of forward steps from slot `from` to slot `to` on a ring of `capacity` slots. */
  function RingDistance(from: nat, to: nat, capacity: nat): (d: int)
    ensures from < capacity && to < capacity ==> 0 <= d < capacity
  {
    if to >= from then to - from else capacity - from + to
  }

  /** The slot `steps` forward steps after `from`. */
  function RingStep(from: nat, steps: nat, capacity: nat): (slot: nat)
    requires from < capacity && steps <= capacity
    ensures slot < capacity
    ensures steps < capacity ==> RingDistance(from, slot, capacity) == steps
  {
    if from + steps < capacity then from + steps else from + steps - capacity
  }

  lemma RingStepIsModulo(from: nat, steps: nat, capacity: nat)
    requires from < capacity && steps <= capacity
    ensures RingStep(from, steps, capacity) == (from + steps) % capacity
  {
    RemainderIs(from + steps, if from + steps < capacity then 0 else 1, capacity);
  }

  lemma RemainderIs(x: nat, q: nat, m: nat)
    requires m > 0 && q * m <= x < q * m + m
    ensures x % m == x - q * m
  {
    QuotientUnique(x / m, x % m, q, x - q * m, m);
  }

  lemma QuotientUnique(d: nat, r: nat, e: nat, s: nat, m: nat)
    requires r < m && s < m && d * m + r == e * m + s
    ensures d == e && r == s
  {
    var diff: int := d - e;
    assert diff * m == d * m - e * m;
    assert diff >= 1 ==> diff * m >= m;
    assert diff <= -1 ==> diff * m + m <= 0;
  }

  /** No slot strictly before `slot` on the probe path from `home` is empty. */
  ghost predicate PathClear<K, V>(c: seq<Cell<K, V>>, home: nat, slot: nat)
    requires home < |c| && slot < |c|
  {
    forall j :: 0 <= j < |c| && RingDistance(home, j, |c|) < RingDistance(home, slot, |c|) ==> !c[j].Empty?
  }

  ghost predicate HomesInRange<K, V>(c: seq<Cell<K, V>>) {
    forall i {:trigger c[i].home} :: 0 <= i < |c| && c[i].Live? ==> c[i].home < |c|
  }

  ghost predicate Reachable<K, V>(c: seq<Cell<K, V>>)
    requires HomesInRange(c)
  {
    forall i {:trigger PathClear(c, c[i].home, i)} :: 0 <= i < |c| && c[i].Live? ==> PathClear(c, c[i].home, i)
  }

  ghost predicate Distinct<K, V>(c: seq<Cell<K, V>>) {
    forall i, j {:trigger c[i].key, c[j].key} ::
      0 <= i < |c| && 0 <= j < |c| && c[i].Live? && c[j].Live? && c[i].key == c[j].key ==> i == j
  }

  ghost predicate Valid<K, V>(c: seq<Cell<K, V>>) {
    HomesInRange(c) && Reachable(c) && Distinct(c)
  }

  ghost predicate HoldsAt<K, V>(c: seq<Cell<K, V>>, i: nat, k: K) {
    i < |c| && c[i].Live? && c[i].key == k
  }

  /** Every live cell holding `k` was hashed to `home`. */
  ghost predicate HomeOf<K, V>(c: seq<Cell<K, V>>, k: K, home: nat) {
    forall i: nat :: HoldsAt(c, i, k) ==> c[i].home == home
  }

  ghost function LiveSlots<K, V>(c: seq<Cell<K, V>>): set<nat> {
    set i: nat | 0 <= i < |c| && c[i].Live?
  }

  ghost function Tombstones<K, V>(c: seq<Cell<K, V>>): set<nat> {
    set i: nat | 0 <= i < |c| && c[i].Tombstone?
  }

  ghost function EmptySlots<K, V>(c: seq<Cell<K, V>>): set<nat> {
    set i: nat | 0 <= i < |c| && c[i].Empty?
  }

  ghost function Keys<K, V>(c: seq<Cell<K, V>>): set<K> {
    set i: nat | 0 <= i < |c| && c[i].Live? :: c[i].key
  }

  ghost function SlotOf<K, V>(c: seq<Cell<K, V>>, k: K): (i: nat)
    requires k in Keys(c)
    ensures HoldsAt(c, i, k)
  {
    var i: nat :| 0 <= i < |c| && c[i].Live? && c[i].key == k;
    i
  }

  /** The finite map a ring of cells stands for. */
  ghost function Contents<K, V>(c: seq<Cell<K, V>>): map<K, V> {
    map k | k in Keys(c) :: c[SlotOf(c, k)].value
  }

  // ---- What the map is ----

  lemma ContentsAt<K, V>(c: seq<Cell<K, V>>, i: nat)
    requires Distinct(c) && i < |c| && c[i].Live?
    ensures c[i].key in Contents(c) && Contents(c)[c[i].key] == c[i].value
  {
    assert HoldsAt(c, i, c[i].key);
  }

  /** A map that holds exactly the live cells is the contents. */
  lemma ContentsUnique<K, V>(c: seq<Cell<K, V>>, m: map<K, V>)
    requires Distinct(c)
    requires forall i :: 0 <= i < |c| && c[i].Live? ==> c[i].key in m && m[c[i].key] == c[i].value
    requires forall k :: k in m ==> k in Keys(c)
    ensures Contents(c) == m
  {
    assert Contents(c).Keys == m.Keys;
    forall k | k in m
      ensures Contents(c)[k] == m[k]
    {
      var i := SlotOf(c, k);
      ContentsAt(c, i);
    }
  }

  /** A live cell lies at a smaller probe distance than any empty slot. */
  lemma HeldBeforeGap<K, V>(c: seq<Cell<K, V>>, i: nat, gap: nat)
    requires Valid(c) && i < |c| && gap < |c| && c[i].Live? && c[gap].Empty?
    ensures RingDistance(c[i].home, i, |c|) < RingDistance(c[i].home, gap, |c|)
  {
    assert PathClear(c, c[i].home, i);
  }

  /** A search that met an empty slot and no cell holding `k` up to it has proved `k` absent. */
  lemma AbsentPastGap<K, V>(c: seq<Cell<K, V>>, k: K, home: nat, gap: nat)
    requires Valid(c) && home < |c| && gap < |c| && c[gap].Empty?
    requires HomeOf(c, k, home)
    requires forall j :: 0 <= j < |c| && RingDistance(home, j, |c|) < RingDistance(home, gap, |c|) ==> !HoldsAt(c, j, k)
    ensures k !in Contents(c)
  {
    forall i: nat | HoldsAt(c, i, k)
      ensures false
    {
      HeldBeforeGap(c, i, gap);
    }
  }

  // ---- What each update keeps ----

  /** Paths stay clear when no slot becomes empty and every live cell of `d` sat on a clear path of `c`. */
  lemma KeepPaths<K, V>(c: seq<Cell<K, V>>, d: seq<Cell<K, V>>)
    requires |d| == |c| && HomesInRange(d)
    requires forall i :: 0 <= i < |c| && d[i].Empty? ==> c[i].Empty?
    requires forall i :: 0 <= i < |d| && d[i].Live? ==> PathClear(c, d[i].home, i)
    ensures Reachable(d)
  {
    forall i | 0 <= i < |d| && d[i].Live?
      ensures PathClear(d, d[i].home, i)
    {
      assert PathClear(c, d[i].home, i);
    }
  }

  /** Removing or overwriting one pair keeps every other pair. */
  lemma OthersKept<K, V>(c: seq<Cell<K, V>>, d: seq<Cell<K, V>>, slot: nat, k: K)
    requires |d| == |c| && slot < |c| && Distinct(c) && Distinct(d)
    requires forall i :: 0 <= i < |c| && i != slot ==> d[i] == c[i]
    requires c[slot].Live? ==> c[slot].key == k
    requires d[slot].Live? ==> d[slot].key == k
    ensures Contents(d) - {k} == Contents(c) - {k}
  {
    forall q | q in Contents(c) && q != k
      ensures q in Contents(d) && Contents(d)[q] == Contents(c)[q]
    {
      var i := SlotOf(c, q);
      ContentsAt(d, i);
    }
    forall q | q in Contents(d) && q != k
      ensures q in Contents(c)
    {
      var i := SlotOf(d, q);
      ContentsAt(c, i);
    }
  }

  lemma PutNewIsDistinct<K, V>(c: seq<Cell<K, V>>, slot: nat, home: nat, k: K, v: V)
    requires Distinct(c) && slot < |c| && k !in Contents(c)
    ensures Distinct(c[slot := Live(home, k, v)])
  {
    forall i | 0 <= i < |c| && c[i].Live?
      ensures c[i].key != k
    {
      ContentsAt(c, i);
    }
  }

  lemma PutNew<K, V>(c: seq<Cell<K, V>>, slot: nat, home: nat, k: K, v: V)
    requires Valid(c) && slot < |c| && home < |c| && !c[slot].Live?
    requires k !in Contents(c) && PathClear(c, home, slot)
    ensures Valid(c[slot := Live(home, k, v)])
    ensures Contents(c[slot := Live(home, k, v)]) == Contents(c)[k := v]
    ensures LiveSlots(c[slot := Live(home, k, v)]) == LiveSlots(c) + {slot}
  {
    var d := c[slot := Live(home, k, v)];
    KeepPaths(c, d);
    PutNewIsDistinct(c, slot, home, k, v);
    OthersKept(c, d, slot, k);
    ContentsAt(d, slot);
    SameButFor(Contents(d), Contents(c), k, v);
  }

  lemma SameButFor<K, V>(m: map<K, V>, n: map<K, V>, k: K, v: V)
    requires m - {k} == n - {k} && k in m && m[k] == v
    ensures m == n[k := v]
  {
    forall q | q != k
      ensures q in m <==> q in n
      ensures q in m ==> m[q] == n[q]
    {
      assert q in m <==> q in m - {k};
      assert q in n <==> q in n - {k};
      if q in m { assert m[q] == (m - {k})[q]; }
    }
  }

  lemma Overwrite<K, V>(c: seq<Cell<K, V>>, slot: nat, v: V)
    requires Valid(c) && slot < |c| && c[slot].Live?
    ensures Valid(c[slot := c[slot].(value := v)])
    ensures Contents(c[slot := c[slot].(value := v)]) == Contents(c)[c[slot].key := v]
    ensures LiveSlots(c[slot := c[slot].(value := v)]) == LiveSlots(c)
  {
    var d := c[slot := c[slot].(value := v)];
    KeepPaths(c, d);
    OthersKept(c, d, slot, c[slot].key);
    ContentsAt(d, slot);
    SameButFor(Contents(d), Contents(c), c[slot].key, v);
  }

  lemma Bury<K, V>(c: seq<Cell<K, V>>, slot: nat)
    requires Valid(c) && slot < |c| && c[slot].Live?
    ensures Valid(c[slot := Tombstone])
    ensures Contents(c[slot := Tombstone]) == Contents(c) - {c[slot].key}
    ensures LiveSlots(c[slot := Tombstone]) == LiveSlots(c) - {slot}
  {
    var d := c[slot := Tombstone];
    KeepPaths(c, d);
    OthersKept(c, d, slot, c[slot].key);
    var k := c[slot].key;
    assert forall i: nat :: !HoldsAt(d, i, k);
    assert Contents(d) - {k} == Contents(d);
  }

  /** Moving a live cell back onto a tombstone that lies on its own probe path. */
  lemma BackShift<K, V>(c: seq<Cell<K, V>>, tomb: nat, slot: nat)
    requires Valid(c) && tomb < |c| && slot < |c| && c[tomb].Tombstone? && c[slot].Live?
    requires RingDistance(c[slot].home, tomb, |c|) < RingDistance(c[slot].home, slot, |c|)
    ensures Valid(c[tomb := c[slot]][slot := Tombstone])
    ensures Contents(c[tomb := c[slot]][slot := Tombstone]) == Contents(c)
  {
    var b := c[slot := Tombstone];
    Bury(c, slot);
    var cell := c[slot];
    ContentsAt(c, slot);
    assert PathClear(c, cell.home, slot);
    assert PathClear(b, cell.home, tomb);
    PutNew(b, tomb, cell.home, cell.key, cell.value);
    SameButFor(Contents(c), Contents(b), cell.key, cell.value);
    assert c[tomb := cell][slot := Tombstone] == b[tomb := cell];
  }

  lemma BackShiftCensus<K, V>(c: seq<Cell<K, V>>, tomb: nat, slot: nat)
    requires tomb < |c| && slot < |c| && c[tomb].Tombstone? && c[slot].Live?
    ensures |LiveSlots(c[tomb := c[slot]][slot := Tombstone])| == |LiveSlots(c)|
    ensures |Tombstones(c[tomb := c[slot]][slot := Tombstone])| == |Tombstones(c)|
    ensures EmptySlots(c[tomb := c[slot]][slot := Tombstone]) == EmptySlots(c)
  {
    var d := c[tomb := c[slot]][slot := Tombstone];
    assert LiveSlots(d) == LiveSlots(c) - {slot} + {tomb};
    assert Tombstones(d) == Tombstones(c) - {tomb} + {slot};
  }

  /** A tombstone followed by nothing but tombstones up to an empty slot may become empty. */
  lemma ClearTombstone<K, V>(c: seq<Cell<K, V>>, tomb: nat, gap: nat)
    requires Valid(c) && tomb < |c| && gap < |c| && c[tomb].Tombstone? && c[gap].Empty?
    requires forall j :: 0 <= j < |c| && RingDistance(tomb, j, |c|) < RingDistance(tomb, gap, |c|) ==> c[j].Tombstone?
    ensures Valid(c[tomb := Empty])
    ensures Contents(c[tomb := Empty]) == Contents(c)
  {
    var d := c[tomb := Empty];
    forall i | 0 <= i < |d| && d[i].Live?
      ensures PathClear(d, d[i].home, i)
    {
      NotBehindTombstone(c, tomb, gap, i);
    }
    ContentsUnchanged(c, d);
  }

  /** Were the tombstone on the path to `i`, the gap behind it would be as well. */
  lemma NotBehindTombstone<K, V>(c: seq<Cell<K, V>>, tomb: nat, gap: nat, i: nat)
    requires Valid(c) && tomb < |c| && gap < |c| && c[gap].Empty? && i < |c| && c[i].Live?
    requires forall j :: 0 <= j < |c| && RingDistance(tomb, j, |c|) < RingDistance(tomb, gap, |c|) ==> c[j].Tombstone?
    ensures PathClear(c, c[i].home, i)
    ensures RingDistance(c[i].home, tomb, |c|) >= RingDistance(c[i].home, i, |c|)
  {
    assert PathClear(c, c[i].home, i);
    assert RingDistance(tomb, i, |c|) >= RingDistance(tomb, gap, |c|);
  }

  lemma ContentsUnchanged<K, V>(c: seq<Cell<K, V>>, d: seq<Cell<K, V>>)
    requires |c| == |d| && Distinct(c)
    requires forall i :: 0 <= i < |c| ==> d[i] == c[i] || (!c[i].Live? && !d[i].Live?)
    ensures Contents(d) == Contents(c)
    ensures LiveSlots(d) == LiveSlots(c)
  {
    forall i | 0 <= i < |d| && d[i].Live?
      ensures d[i].key in Contents(c) && Contents(c)[d[i].key] == d[i].value
    {
      ContentsAt(c, i);
    }
    forall k | k in Contents(c)
      ensures k in Keys(d)
    {
      assert HoldsAt(d, SlotOf(c, k), k);
    }
    ContentsUnique(d, Contents(c));
  }

  // ---- Counting ----

  ghost function LiveBelow<K, V>(c: seq<Cell<K, V>>, n: nat): set<nat>
    requires n <= |c|
  {
    set i: nat | 0 <= i < n && c[i].Live?
  }

  ghost function KeysBelow<K, V>(c: seq<Cell<K, V>>, n: nat): set<K>
    requires n <= |c|
  {
    set i: nat | 0 <= i < n && c[i].Live? :: c[i].key
  }

  lemma LiveBelowStep<K, V>(c: seq<Cell<K, V>>, n: nat)
    requires n < |c|
    ensures |LiveBelow(c, n + 1)| == |LiveBelow(c, n)| + if c[n].Live? then 1 else 0
    ensures |LiveBelow(c, n + 1)| <= |LiveSlots(c)|
  {
    assert LiveBelow(c, n + 1) == if c[n].Live? then LiveBelow(c, n) + {n} else LiveBelow(c, n);
    assert LiveSlots(c) == LiveBelow(c, n + 1) + (LiveSlots(c) - LiveBelow(c, n + 1));
  }

  lemma KeysBelowStep<K, V>(c: seq<Cell<K, V>>, n: nat)
    requires Distinct(c) && n < |c|
    ensures c[n].Live? ==> c[n].key !in KeysBelow(c, n)
    ensures KeysBelow(c, n + 1) == KeysBelow(c, n) + if c[n].Live? then {c[n].key} else {}
  {
  }

  lemma {:induction false} CountBelow<K, V>(c: seq<Cell<K, V>>, n: nat)
    requires Distinct(c) && n <= |c|
    ensures |KeysBelow(c, n)| == |LiveBelow(c, n)|
  {
    if n == 0 {
      assert LiveBelow(c, n) == {} && KeysBelow(c, n) == {};
    } else {
      CountBelow(c, n - 1);
      LiveBelowStep(c, n - 1);
      KeysBelowStep(c, n - 1);
    }
  }

  /** The map has one pair per live slot. */
  lemma ContentsSize<K, V>(c: seq<Cell<K, V>>)
    requires Distinct(c)
    ensures |Contents(c)| == |LiveSlots(c)|
  {
    CountBelow(c, |c|);
    assert LiveBelow(c, |c|) == LiveSlots(c);
    assert KeysBelow(c, |c|) == Contents(c).Keys;
  }

  /** The pairs of the first `n` slots. */
  ghost function ContentsBelow<K, V>(c: seq<Cell<K, V>>, n: nat): map<K, V>
    requires n <= |c|
  {
    map k | k in KeysBelow(c, n) :: c[SlotOf(c, k)].value
  }

  lemma ContentsBelowStep<K, V>(c: seq<Cell<K, V>>, n: nat)
    requires Distinct(c) && n < |c|
    ensures !c[n].Live? ==> ContentsBelow(c, n + 1) == ContentsBelow(c, n)
    ensures c[n].Live? ==>
              && c[n].key !in ContentsBelow(c, n)
              && ContentsBelow(c, n + 1) == ContentsBelow(c, n)[c[n].key := c[n].value]
              && |ContentsBelow(c, n)| < |LiveSlots(c)|
  {
    KeysBelowStep(c, n);
    if c[n].Live? {
      assert HoldsAt(c, n, c[n].key);
      ContentsBelowSize(c, n);
      LiveBelowStep(c, n);
    }
  }

  lemma ContentsBelowSize<K, V>(c: seq<Cell<K, V>>, n: nat)
    requires Distinct(c) && n <= |c|
    ensures |ContentsBelow(c, n)| == |LiveBelow(c, n)|
  {
    CountBelow(c, n);
    assert ContentsBelow(c, n).Keys == KeysBelow(c, n);
  }

  lemma ContentsBelowAll<K, V>(c: seq<Cell<K, V>>)
    ensures ContentsBelow(c, 0) == map[]
    ensures ContentsBelow(c, |c|) == Contents(c)
  {
    assert KeysBelow(c, |c|) == Keys(c);
  }

  // ---- Listing ----

  /** A list of pairs read as a map, later pairs overriding earlier ones. */
  function MapOfPairs<K, V>(ps: seq<(K, V)>): map<K, V> {
    if ps == [] then map[]
    else MapOfPairs(ps[..|ps| - 1])[ps[|ps| - 1].0 := ps[|ps| - 1].1]
  }

  /** The pairs of the first `n` slots in slot order. */
  function LivePairs<K, V>(c: seq<Cell<K, V>>, n: nat): (ps: seq<(K, V)>)
    requires n <= |c|
  {
    if n == 0 then []
    else if c[n - 1].Live? then LivePairs(c, n - 1) + [(c[n - 1].key, c[n - 1].value)]
    else LivePairs(c, n - 1)
  }

  /** The list read as a map is the contents. */
  lemma {:induction false} LivePairsAreContents<K, V>(c: seq<Cell<K, V>>, n: nat)
    requires Distinct(c) && n <= |c|
    ensures MapOfPairs(LivePairs(c, n)) == ContentsBelow(c, n)
  {
    if n > 0 {
      LivePairsAreContents(c, n - 1);
      ContentsBelowStep(c, n - 1);
      assert c[n - 1].Live? ==> LivePairs(c, n)[..|LivePairs(c, n)| - 1] == LivePairs(c, n - 1);
    }
  }

  lemma {:induction false} LivePairsCount<K, V>(c: seq<Cell<K, V>>, n: nat)
    requires n <= |c|
    ensures |LivePairs(c, n)| == |LiveBelow(c, n)|
  {
    if n == 0 {
      assert LiveBelow(c, 0) == {};
    } else {
      LivePairsCount(c, n - 1);
      LiveBelowStep(c, n - 1);
    }
  }

  /** The list names no key twice. */
  lemma {:induction false} LivePairsDistinct<K, V>(c: seq<Cell<K, V>>, n: nat)
    requires Distinct(c) && n <= |c|
    ensures DistinctKeys(LivePairs(c, n))
    ensures forall i :: 0 <= i < |LivePairs(c, n)| ==> LivePairs(c, n)[i].0 in KeysBelow(c, n)
  {
    if n > 0 {
      LivePairsDistinct(c, n - 1);
      KeysBelowStep(c, n - 1);
    }
  }

  predicate DistinctKeys<K(==), V>(ps: seq<(K, V)>) {
    forall i, j {:trigger ps[i].0, ps[j].0} :: 0 <= i < j < |ps| ==> ps[i].0 != ps[j].0
  }

  lemma {:induction false} MapOfPairsKeys<K, V>(ps: seq<(K, V)>, k: K)
    ensures k in MapOfPairs(ps) <==> exists i :: 0 <= i < |ps| && ps[i].0 == k
  {
    if ps != [] {
      MapOfPairsKeys(ps[..|ps| - 1], k);
      if k in MapOfPairs(ps) && k != ps[|ps| - 1].0 {
        var i :| 0 <= i < |ps[..|ps| - 1]| && ps[..|ps| - 1][i].0 == k;
        assert ps[i].0 == k;
      }
    }
  }

  lemma {:induction false} RangeSize(s: set<nat>, n: nat)
    requires forall i :: i in s <==> 0 <= i < n
    ensures |s| == n
  {
    if n == 0 {
      assert s == {};
    } else {
      RangeSize(s - {n - 1}, n - 1);
    }
  }

  /** Every slot is live, dead or empty. */
  lemma SlotCensus<K, V>(c: seq<Cell<K, V>>)
    ensures |LiveSlots(c)| + |Tombstones(c)| + |EmptySlots(c)| == |c|
  {
    var all := LiveSlots(c) + Tombstones(c) + EmptySlots(c);
    assert LiveSlots(c) !! Tombstones(c);
    assert LiveSlots(c) + Tombstones(c) !! EmptySlots(c);
    RangeSize(all, |c|);
  }
}
