/** Whole runs of a Swiss table against runs of a plain map. */
module SwissRuns {
  import opened Machine
  import opened OpenAddressing
  import opened SwissProbe
  import opened SwissCompaction
  import opened SwissReclaim
  import opened SwissTables

  datatype Op =
    | Insert(entry: HashEntry)
    | Lookup(hash: u64, now: u32)
    | UpdateTtl(hash: u64, expireAtSecs: u32, now: u32)
    | Persist(hash: u64, now: u32)
    | Remove(hash: u64)
    | RemoveIfMatching(hash: u64, expected: u32)
    | Compact
    | Clear

  datatype Reply = Replaced(previous: Option<u32>) | Hit(found: Option<HashEntry>) | Flag(yes: bool)
                 | Removed(entry: Option<TableEntry>) | Unit

  type Map = map<u64, HashEntry>

  predicate Fresh(m: Map, hash: u64, now: u32) {
    hash in m && (now == 0 || m[hash].expireAtSecs == 0 || now < m[hash].expireAtSecs)
  }

  /** One operation on a plain map. */
  function Apply(m: Map, op: Op): (Map, Reply) {
    match op
    case Insert(e) =>
      (m[e.keyHash := e.(accessed := false)],
       Replaced(if e.keyHash in m then Some(m[e.keyHash].slabBlockId) else None))
    case Lookup(h, now) =>
      if Fresh(m, h, now) then (m[h := m[h].(accessed := true)], Hit(Some(m[h].(accessed := true)))) else (m, Hit(None))
    case UpdateTtl(h, at, now) =>
      if Fresh(m, h, now) then (m[h := m[h].(expireAtSecs := at, accessed := true)], Flag(true)) else (m, Flag(false))
    case Persist(h, now) =>
      if Fresh(m, h, now) && m[h].expireAtSecs > 0
      then (m[h := m[h].(expireAtSecs := 0, accessed := true)], Flag(true)) else (m, Flag(false))
    case Remove(h) => (m - {h}, Removed(if h in m then Some(m[h].Snapshot()) else None))
    case RemoveIfMatching(h, expected) =>
      if h in m && m[h].slabBlockId == expected then (m - {h}, Removed(Some(m[h].Snapshot()))) else (m, Removed(None))
    case Compact => (m, Unit)
    case Clear => (map[], Unit)
  }

  function ApplyAll(m: Map, ops: seq<Op>): Map {
    if ops == [] then m else Apply(ApplyAll(m, ops[..|ops| - 1]), ops[|ops| - 1]).0
  }

  // ---- What the map's replies say of the operations before them ----

  /** The operation neither writes nor removes the key. */
  predicate Spares(op: Op, hash: u64) {
    match op
    case Insert(e) => e.keyHash != hash
    case Lookup(_, _) => true
    case UpdateTtl(h, _, _) => h != hash
    case Persist(h, _) => h != hash
    case Remove(h) => h != hash
    case RemoveIfMatching(h, _) => h != hash
    case Compact => true
    case Clear => false
  }

  /** Operations that spare a key leave its entry, up to the accessed mark. */
  lemma {:induction false} SparedKey(m0: Map, ops: seq<Op>, i: nat, hash: u64)
    requires i <= |ops| && forall j :: i <= j < |ops| ==> Spares(ops[j], hash)
    ensures hash in ApplyAll(m0, ops) <==> hash in ApplyAll(m0, ops[..i])
    ensures hash in ApplyAll(m0, ops) ==>
              ApplyAll(m0, ops)[hash].(accessed := false) == ApplyAll(m0, ops[..i])[hash].(accessed := false)
    decreases |ops|
  {
    if i == |ops| {
      assert ops[..i] == ops;
    } else {
      var n := |ops| - 1;
      SparedKey(m0, ops[..n], i, hash);
      assert ops[..n][..i] == ops[..i] && Spares(ops[n], hash);
    }
  }

  /**
   A lookup finds what was last inserted under the key, field by field, unless its time is over; a persistent entry is
   found at every time.
   */
  lemma LastInsertIsFound(m0: Map, ops: seq<Op>, i: nat, hash: u64, now: u32)
    requires i < |ops| && ops[i].Insert? && ops[i].entry.keyHash == hash
    requires forall j :: i < j < |ops| ==> Spares(ops[j], hash)
    ensures var e := ops[i].entry;
            Apply(ApplyAll(m0, ops), Lookup(hash, now)).1 ==
            if now == 0 || e.expireAtSecs == 0 || now < e.expireAtSecs
            then Hit(Some(HashEntry(hash, e.slabBlockId, e.valueLen, e.expireAtSecs, true, e.valueType)))
            else Hit(None)
  {
    SparedKey(m0, ops, i + 1, hash);
    assert ops[..i + 1][..i] == ops[..i];
  }

  /** A key removed, or cleared away with all others, and not inserted since is not found. */
  lemma RemovedIsGone(m0: Map, ops: seq<Op>, i: nat, hash: u64, now: u32)
    requires i < |ops| && (ops[i] == Remove(hash) || ops[i] == Clear)
    requires forall j :: i < j < |ops| ==> Spares(ops[j], hash)
    ensures Apply(ApplyAll(m0, ops), Lookup(hash, now)).1 == Hit(None)
  {
    SparedKey(m0, ops, i + 1, hash);
    assert ops[..i + 1][..i] == ops[..i];
  }

  /** An expiry set on a present key is the one that counts from then on; one taken away never counts. */
  lemma TtlIsSeen(m: Map, hash: u64, at: u32, now: u32, later: u32)
    requires hash in m && (now == 0 || m[hash].expireAtSecs == 0 || now < m[hash].expireAtSecs)
    ensures var (after, reply) := Apply(m, UpdateTtl(hash, at, now));
            && reply == Flag(true)
            && (Apply(after, Lookup(hash, later)).1 == Hit(None) <==> later != 0 && at != 0 && at <= later)
    ensures var (after, reply) := Apply(m, Persist(hash, now));
            && reply == Flag(m[hash].expireAtSecs != 0)
            && Apply(after, Lookup(hash, later)).1 != Hit(None)
  {
  }

  /** What the operation probes for is not in the map. */
  predicate ProbesInVain(m: Map, op: Op) {
    match op
    case Insert(e) => e.keyHash !in m
    case Lookup(h, _) => h !in m
    case UpdateTtl(h, _, _) => h !in m
    case Persist(h, _) => h !in m
    case Remove(h) => h !in m
    case RemoveIfMatching(h, expected) => !(h in m && m[h].slabBlockId == expected)
    case Compact => false
    case Clear => false
  }

  /** The operation's probe never returns: its target is missing, no EMPTY byte is left, and no growth comes first. */
  ghost predicate NeverReturns(t: SwissTable, op: Op)
    reads t
    requires |t.ctrl| == |t.entries|
  {
    && !t.ProbesEnd() && ProbesInVain(t.Model(), op)
    && (op.Insert? ==> t.count * 8 < t.capacity * 7)
  }

  /** One operation: the plain map's, or a probe that never returns and changes nothing. */
  method Step(t: SwissTable, op: Op) returns (r: Outcome<Reply>)
    requires t.Valid()
    modifies t
    ensures t.Valid()
    ensures r.Hangs? <==> old(NeverReturns(t, op))
    ensures r.Hangs? ==> unchanged(t)
    ensures r.Done? ==> (t.Model(), r.value) == Apply(old(t.Model()), op)
  {
    match op {
      case Insert(e) =>
        var x := t.InsertTyped(e.keyHash, e.slabBlockId, e.valueLen, e.expireAtSecs, e.valueType);
        r := if x.Done? then Done(Replaced(x.value)) else Hangs;
      case Lookup(h, now) =>
        var x := t.LookupChecked(h, now);
        r := if x.Done? then Done(Hit(x.value)) else Hangs;
      case UpdateTtl(h, at, now) =>
        var x := t.UpdateTtl(h, at, now);
        r := if x.Done? then Done(Flag(x.value)) else Hangs;
      case Persist(h, now) =>
        var x := t.Persist(h, now);
        r := if x.Done? then Done(Flag(x.value)) else Hangs;
      case _ =>
        r := RemovingStep(t, op);
    }
  }

  /** The operations that take entries away, or move them. */
  method RemovingStep(t: SwissTable, op: Op) returns (r: Outcome<Reply>)
    requires t.Valid() && (op.Remove? || op.RemoveIfMatching? || op.Compact? || op.Clear?)
    modifies t
    ensures t.Valid()
    ensures r.Hangs? <==> old(NeverReturns(t, op))
    ensures r.Hangs? ==> unchanged(t)
    ensures r.Done? ==> (t.Model(), r.value) == Apply(old(t.Model()), op)
  {
    match op {
      case Remove(h) =>
        var x := t.Remove(h);
        r := if x.Done? then Done(Removed(x.value)) else Hangs;
      case RemoveIfMatching(h, expected) =>
        var x := t.RemoveIfMatching(h, expected);
        r := if x.Done? then Done(Removed(x.value)) else Hangs;
      case Compact =>
        var n := t.CompactOneGroup();
        r := Done(Unit);
      case Clear =>
        t.Clear();
        r := Done(Unit);
    }
  }

  /** Every reply is the plain map's. */
  ghost predicate Replied(m0: Map, ops: seq<Op>, replies: seq<Reply>) {
    |replies| <= |ops| && forall i :: 0 <= i < |replies| ==> RepliesAt(m0, ops, i, replies[i])
  }

  ghost predicate RepliesAt(m0: Map, ops: seq<Op>, i: nat, reply: Reply)
    requires i < |ops|
  {
    reply == Apply(ApplyAll(m0, ops[..i]), ops[i]).1
  }

  lemma ApplyNext(m0: Map, ops: seq<Op>, n: nat)
    requires n < |ops|
    ensures ApplyAll(m0, ops[..n + 1]) == Apply(ApplyAll(m0, ops[..n]), ops[n]).0
  {
    assert ops[..n + 1][..n] == ops[..n];
  }

  /**
   Any run of operations: up to the first probe that never returns, the table holds exactly what a
   plain map would and every reply is the plain map's reply. A run stops early only in a table without
   an EMPTY byte.
   */
  method RunAll(t: SwissTable, ops: seq<Op>) returns (replies: seq<Reply>)
    requires t.Valid()
    modifies t
    ensures t.Valid() && |replies| <= |ops|
    ensures t.Model() == ApplyAll(old(t.Model()), ops[..|replies|])
    ensures Replied(old(t.Model()), ops, replies)
    ensures |replies| < |ops| ==> NeverReturns(t, ops[|replies|])
    ensures t.count == |t.Model()|
  {
    ghost var m0 := t.Model();
    replies := [];
    for i := 0 to |ops|
      invariant t.Valid() && |replies| == i
      invariant t.Model() == ApplyAll(m0, ops[..i]) && Replied(m0, ops, replies)
    {
      var r := Step(t, ops[i]);
      if r.Hangs? {
        t.CountIsSize();
        return;
      }
      ApplyNext(m0, ops, i);
      assert RepliesAt(m0, ops, i, r.value);
      replies := replies + [r.value];
    }
    t.CountIsSize();
  }

  /**
   A table that has only ever seen eight insertions, each removed again, can be left without an
   empty control byte although it holds nothing: from then on every lookup spins.
   */
  method TombstonesExhaustTable() returns (t: SwissTable)
    ensures fresh(t) && t.Valid() && t.Model() == map[] && t.capacity == GROUP_SIZE && !t.ProbesEnd()
  {
    t := new SwissTable.WithCapacity(GROUP_SIZE);
    assert t.capacity == GROUP_SIZE by { NextPowerOfTwoFixed(GROUP_SIZE); }
    var n := 0;
    while n < GROUP_SIZE
      invariant 0 <= n <= GROUP_SIZE
      invariant fresh(t) && t.Valid() && t.Model() == map[] && t.capacity == GROUP_SIZE
      invariant forall i :: 0 <= i < n ==> t.ctrl[i] == CTRL_DELETED
      invariant forall i :: n <= i < GROUP_SIZE ==> t.ctrl[i] == CTRL_EMPTY
    {
      InsertThenRemove(t, n);
      n := n + 1;
    }
  }

  method InsertThenRemove(t: SwissTable, home: nat)
    requires t.Valid() && t.Model() == map[] && t.capacity == GROUP_SIZE && home < GROUP_SIZE
    requires t.ctrl[home] == CTRL_EMPTY
    modifies t
    ensures t.Valid() && t.Model() == map[] && t.capacity == GROUP_SIZE
    ensures t.ctrl == old(t.ctrl)[home := CTRL_DELETED]
  {
    t.CountIsSize();
    ghost var c := Cells(t.ctrl, t.entries);
    var hash: u64 := 128 * home;
    assert H1(hash, GROUP_SIZE) == home;
    var inserted := t.InsertTyped(hash, 0, 0, 0, 0);
    ghost var d := Cells(t.ctrl, t.entries);
    var removed := t.Remove(hash);
  }

  /** A ring of eight whose first `n` cells are live and whose others are empty. */
  ghost predicate FilledTo(c: seq<Cell<u64, HashEntry>>, n: nat) {
    |c| == GROUP_SIZE && forall i :: 0 <= i < GROUP_SIZE ==> if i < n then c[i].Live? else c[i].Empty?
  }

  /** In such a ring a new entry with home 0 goes to slot `n`. */
  lemma NextAfterFilled(c: seq<Cell<u64, HashEntry>>, d: seq<Cell<u64, HashEntry>>, e: HashEntry, n: nat)
    requires FilledTo(c, n) && n < GROUP_SIZE && H1(e.keyHash, GROUP_SIZE) == 0 && PlacedOnPath(c, d, e)
    ensures d == c[n := Live(0, e.keyHash, e)] && FilledTo(d, n + 1)
  {
    var slot: nat :| PlacedAt(c, d, e, slot);
    assert RingDistance(0, n, GROUP_SIZE) == n && RingDistance(0, slot, GROUP_SIZE) == slot;
  }

  /** Insert a new hash with home 0 into such a ring. */
  method InsertNext(t: SwissTable, hash: u64, n: nat)
    requires t.Valid() && t.capacity == GROUP_SIZE && n < 7 && FilledTo(Cells(t.ctrl, t.entries), n)
    requires hash !in t.Model() && H1(hash, GROUP_SIZE) == 0 && t.count == n
    modifies t
    ensures t.Valid() && t.capacity == GROUP_SIZE && t.compactCursor == old(t.compactCursor)
    ensures t.Model() == old(t.Model())[hash := HashEntry(hash, 0, 0, 0, false, 0)]
    ensures FilledTo(Cells(t.ctrl, t.entries), n + 1)
    ensures Cells(t.ctrl, t.entries) ==
            Cells(old(t.ctrl), old(t.entries))[n := Live(0, hash, HashEntry(hash, 0, 0, 0, false, 0))]
  {
    assert Cells(t.ctrl, t.entries)[n].Empty?;
    var r := t.InsertTyped(hash, 0, 0, 0, 0);
    NextAfterFilled(Cells(old(t.ctrl), old(t.entries)), Cells(t.ctrl, t.entries),
                    HashEntry(hash, 0, 0, 0, false, 0), n);
  }

  /** A new table after two insertions with home 0: the second is displaced to slot 1. */
  method TwoAtHomeZero() returns (t: SwissTable)
    ensures fresh(t) && t.Valid() && t.capacity == GROUP_SIZE && t.compactCursor == 0 && 0 in t.Model()
    ensures FilledTo(Cells(t.ctrl, t.entries), 2) && Cells(t.ctrl, t.entries)[0].key == 0
    ensures exists e: HashEntry :: Cells(t.ctrl, t.entries)[1] == Live(0, e.keyHash, e)
  {
    t := new SwissTable.WithCapacity(GROUP_SIZE);
    NextPowerOfTwoFixed(GROUP_SIZE);
    t.CountIsSize();
    assert H1(0, GROUP_SIZE) == 0 && H1(1, GROUP_SIZE) == 0;
    InsertNext(t, 0, 0);
    t.CountIsSize();
    InsertNext(t, 1, 1);
  }

  /** And after the removal of the first. */
  method TombstoneBeforeDisplaced() returns (t: SwissTable)
    ensures fresh(t) && t.Valid() && t.capacity == GROUP_SIZE && t.compactCursor == 0
    ensures exists e :: Cells(t.ctrl, t.entries) == Displaced(e)
  {
    t := TwoAtHomeZero();
    ghost var d := Cells(t.ctrl, t.entries);
    ghost var e: HashEntry :| d[1] == Live(0, e.keyHash, e);
    SlotZero(d, 0);
    DisplacedIs(d, e);
    var removed := t.Remove(0);
  }

  lemma DisplacedIs(d: seq<Cell<u64, HashEntry>>, e: HashEntry)
    requires FilledTo(d, 2) && d[1] == Live(0, e.keyHash, e)
    ensures d[0 := Tombstone] == Displaced(e)
  {
  }

  lemma SlotZero(d: seq<Cell<u64, HashEntry>>, hash: u64)
    requires |d| > 0 && Valid(d) && d[0].Live? && d[0].key == hash
    ensures hash in Contents(d) && SlotOf(d, hash) == 0
  {
    ContentsAt(d, 0);
  }

  /** Compacting that table removes its one tombstone and returns two. */
  method CompactionOvercounts(t: SwissTable) returns (reclaimed: nat)
    requires t.Valid() && t.capacity == GROUP_SIZE && t.compactCursor == 0
    requires exists e :: Cells(t.ctrl, t.entries) == Displaced(e)
    modifies t
    ensures t.Valid() && reclaimed == 2
    ensures |Tombstones(Cells(old(t.ctrl), old(t.entries)))| == 1 && |Tombstones(Cells(t.ctrl, t.entries))| == 0
  {
    ghost var e :| Cells(t.ctrl, t.entries) == Displaced(e);
    ReclaimedTwiceForOne(e);
    reclaimed := t.CompactOneGroup();
  }
}
