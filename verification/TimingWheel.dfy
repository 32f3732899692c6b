/**
 The hashed timing wheel: 3600 one-second buckets under a moving tick.

 `pending` records, in scheduling order, each entry with the tick it was scheduled at and the tick at
 which the code will drain it.
 */
module TimingWheels {
  import opened Machine

  const WHEEL_BUCKETS: nat := 3600
  const U32_MAX: nat := 0xFFFF_FFFF

  datatype Entry = Entry(keyHash: nat, block: nat, expireAt: nat)

  datatype Scheduled = Scheduled(entry: Entry, at: nat, due: nat)

  /** The tick at which an entry scheduled at `tick` comes out. */
  function DueTick(expireAt: nat, tick: nat): nat {
    if expireAt <= tick then tick
    else if expireAt - tick < WHEEL_BUCKETS then expireAt
    else tick + WHEEL_BUCKETS - 1
  }

  /** Never late; early exactly for lifetimes of an hour and more, which come out a second before the hour is over. */
  lemma DueTickBounds(expireAt: nat, tick: nat)
    ensures tick <= DueTick(expireAt, tick) < tick + WHEEL_BUCKETS
    ensures tick <= expireAt < tick + 3600 ==> DueTick(expireAt, tick) == expireAt
    ensures tick + 3600 <= expireAt ==> DueTick(expireAt, tick) == tick + 3599
    ensures DueTick(expireAt, tick) <= if expireAt > tick then expireAt else tick
    ensures DueTick(expireAt, tick) < expireAt <==> expireAt >= tick + WHEEL_BUCKETS
  {
  }

  /** The bucket of a tick. */
  function SlotOf(tick: nat): (b: nat)
    ensures b < WHEEL_BUCKETS
  {
    tick % WHEEL_BUCKETS
  }

  // ---- What is pending ----

  ghost function Bucket(p: seq<Scheduled>, b: nat): seq<Entry> {
    if p == [] then [] else
      Bucket(p[..|p| - 1], b) + (var s := p[|p| - 1]; if SlotOf(s.due) == b then [s.entry] else [])
  }

  ghost function DueAt(p: seq<Scheduled>, t: nat): seq<Scheduled> {
    if p == [] then [] else
      DueAt(p[..|p| - 1], t) + (var s := p[|p| - 1]; if s.due == t then [s] else [])
  }

  /** What is due at `t` or later, in scheduling order. */
  ghost function From(p: seq<Scheduled>, t: nat): seq<Scheduled> {
    if p == [] then [] else
      From(p[..|p| - 1], t) + (var s := p[|p| - 1]; if s.due >= t then [s] else [])
  }

  /** What is due in `a <= tick < b`: tick by tick, and in scheduling order within a tick. */
  ghost function Between(p: seq<Scheduled>, a: nat, b: nat): seq<Scheduled>
    decreases b
  {
    if b <= a then [] else Between(p, a, b - 1) + DueAt(p, b - 1)
  }

  ghost function Entries(p: seq<Scheduled>): seq<Entry> {
    if p == [] then [] else Entries(p[..|p| - 1]) + [p[|p| - 1].entry]
  }

  /** All due within one turn of the wheel. */
  ghost predicate Within(p: seq<Scheduled>, tick: nat) {
    forall i :: 0 <= i < |p| ==> tick <= p[i].due < tick + WHEEL_BUCKETS
  }

  /** The due tick is the one the code chose when the entry was scheduled. */
  ghost predicate Dated(s: Scheduled) {
    s.due == DueTick(s.entry.expireAt, s.at)
  }

  ghost predicate AllDated(p: seq<Scheduled>, tick: nat) {
    forall i :: 0 <= i < |p| ==> Dated(p[i]) && p[i].at <= tick
  }

  /** Each bucket holds, in order, the pending entries of its residue. */
  ghost predicate Stored(buckets: seq<seq<Entry>>, p: seq<Scheduled>) {
    |buckets| == WHEEL_BUCKETS && forall b :: 0 <= b < WHEEL_BUCKETS ==> buckets[b] == Bucket(p, b)
  }

  lemma SameResidue(due: nat, t: nat)
    requires t <= due < t + WHEEL_BUCKETS
    ensures SlotOf(due) == SlotOf(t) <==> due == t
  {
  }

  /** What appending one scheduled entry does to each of these. */
  lemma Appended(p: seq<Scheduled>, s: Scheduled, t: nat)
    ensures From(p + [s], t) == if s.due >= t then From(p, t) + [s] else From(p, t)
    ensures DueAt(p + [s], t) == if s.due == t then DueAt(p, t) + [s] else DueAt(p, t)
    ensures Entries(p + [s]) == Entries(p) + [s.entry]
    ensures Bucket(p + [s], t) == Bucket(p, t) + if SlotOf(s.due) == t then [s.entry] else []
  {
    assert (p + [s])[..|p|] == p;
  }

  lemma {:induction false} EntriesAt(p: seq<Scheduled>)
    ensures |Entries(p)| == |p| && forall i :: 0 <= i < |p| ==> Entries(p)[i] == p[i].entry
  {
    if p != [] {
      EntriesAt(p[..|p| - 1]);
    }
  }

  lemma EntriesJoin(p: seq<Scheduled>, q: seq<Scheduled>)
    ensures Entries(p + q) == Entries(p) + Entries(q)
  {
    EntriesAt(p);
    EntriesAt(q);
    EntriesAt(p + q);
  }

  /** In a window of one turn, a bucket holds the entries of one tick. */
  lemma {:induction false} BucketIsDue(p: seq<Scheduled>, t: nat)
    requires Within(p, t)
    ensures Bucket(p, SlotOf(t)) == Entries(DueAt(p, t))
    decreases |p|
  {
    if p != [] {
      var q, s := p[..|p| - 1], p[|p| - 1];
      assert p == q + [s];
      BucketIsDue(q, t);
      SameResidue(s.due, t);
      Appended(q, s, t);
      Appended(DueAt(q, t), s, t);
    }
  }

  /** Draining one tick empties its bucket and leaves the others. */
  lemma {:induction false} BucketAfter(p: seq<Scheduled>, t: nat, b: nat)
    requires Within(p, t) && b < WHEEL_BUCKETS
    ensures Bucket(From(p, t + 1), b) == if b == SlotOf(t) then [] else Bucket(p, b)
    decreases |p|
  {
    if p != [] {
      var q, s := p[..|p| - 1], p[|p| - 1];
      assert p == q + [s];
      BucketAfter(q, t, b);
      BucketAfterStep(q, s, t, b);
    }
  }

  lemma {:induction false} BucketAfterStep(q: seq<Scheduled>, s: Scheduled, t: nat, b: nat)
    requires t <= s.due < t + WHEEL_BUCKETS && b < WHEEL_BUCKETS
    requires Bucket(From(q, t + 1), b) == if b == SlotOf(t) then [] else Bucket(q, b)
    ensures Bucket(From(q + [s], t + 1), b) == if b == SlotOf(t) then [] else Bucket(q + [s], b)
  {
    SameResidue(s.due, t);
    Appended(q, s, t + 1);
    Appended(q, s, b);
    Appended(From(q, t + 1), s, b);
  }

  lemma {:induction false} FromFrom(p: seq<Scheduled>, a: nat, b: nat)
    requires a <= b
    ensures From(From(p, a), b) == From(p, b) && DueAt(From(p, a), b) == DueAt(p, b)
    decreases |p|
  {
    if p != [] {
      var q, s := p[..|p| - 1], p[|p| - 1];
      assert p == q + [s];
      FromFrom(q, a, b);
      Appended(q, s, a);
      Appended(q, s, b);
      Appended(From(q, a), s, b);
    }
  }

  /** What stays was there, and is due late enough. */
  lemma {:induction false} FromIsPart(p: seq<Scheduled>, t: nat)
    ensures forall i :: 0 <= i < |From(p, t)| ==> From(p, t)[i] in p && t <= From(p, t)[i].due
    decreases |p|
  {
    if p != [] {
      FromIsPart(p[..|p| - 1], t);
    }
  }

  lemma {:induction false} FromAll(p: seq<Scheduled>, t: nat)
    requires forall i :: 0 <= i < |p| ==> t <= p[i].due
    ensures From(p, t) == p
    decreases |p|
  {
    if p != [] {
      FromAll(p[..|p| - 1], t);
    }
  }

  /** What stays after tick `t` is still dated, and due within the next turn. */
  lemma FromStays(p: seq<Scheduled>, t: nat)
    requires Within(p, t) && AllDated(p, t)
    ensures Within(From(p, t + 1), t + 1) && AllDated(From(p, t + 1), t)
  {
    FromIsPart(p, t + 1);
    var q := From(p, t + 1);
    forall i | 0 <= i < |q|
      ensures t + 1 <= q[i].due < t + 1 + WHEEL_BUCKETS && Dated(q[i]) && q[i].at <= t
    {
      var k :| 0 <= k < |p| && p[k] == q[i];
    }
  }

  // ---- Conservation ----

  lemma Joined(x: seq<Scheduled>, y: seq<Scheduled>)
    ensures multiset(x + y) == multiset(x) + multiset(y)
  {
  }

  /** Splitting off one tick. */
  lemma {:induction false} SplitTick(p: seq<Scheduled>, t: nat)
    ensures multiset(From(p, t)) == multiset(DueAt(p, t)) + multiset(From(p, t + 1))
    decreases |p|
  {
    if p != [] {
      var q, s := p[..|p| - 1], p[|p| - 1];
      SplitTick(q, t);
      Joined(From(q, t), [s]);
      Joined(DueAt(q, t), [s]);
      Joined(From(q, t + 1), [s]);
    }
  }

  /** What is drained up to `b` and what stays make up what was pending. */
  ghost predicate Conserved(p: seq<Scheduled>, a: nat, b: nat) {
    multiset(Between(p, a, b)) + multiset(From(p, b)) == multiset(p)
  }

  /** Nothing is lost or doubled. */
  lemma Conservation(p: seq<Scheduled>, a: nat, b: nat)
    requires a <= b && forall i :: 0 <= i < |p| ==> a <= p[i].due
    ensures Conserved(p, a, b)
  {
    FromAll(p, a);
    var t := a;
    while t < b
      invariant a <= t <= b && Conserved(p, a, t)
    {
      ConservedStep(p, a, t);
      t := t + 1;
    }
  }

  lemma ConservedStep(p: seq<Scheduled>, a: nat, b: nat)
    requires a <= b && Conserved(p, a, b)
    ensures Conserved(p, a, b + 1)
  {
    SplitTick(p, b);
    Joined(Between(p, a, b), DueAt(p, b));
  }

  /** All that comes out was pending and is due in the drained ticks. */
  lemma {:induction false} BetweenIsDue(p: seq<Scheduled>, a: nat, b: nat, s: Scheduled)
    requires s in Between(p, a, b)
    ensures s in p && a <= s.due < b
    decreases b
  {
    if s in DueAt(p, b - 1) {
      DueAtIsDue(p, b - 1, s);
    } else {
      BetweenIsDue(p, a, b - 1, s);
    }
  }

  /** It comes out in order of the due tick. */
  lemma {:induction false} BetweenInOrder(p: seq<Scheduled>, a: nat, b: nat, i: nat, j: nat)
    requires i < j < |Between(p, a, b)|
    ensures Between(p, a, b)[i].due <= Between(p, a, b)[j].due
    decreases b
  {
    var n := |Between(p, a, b - 1)|;
    if j < n {
      BetweenInOrder(p, a, b - 1, i, j);
    } else {
      DueAtIsDue(p, b - 1, DueAt(p, b - 1)[j - n]);
      BetweenIsDue(p, a, b, Between(p, a, b)[i]);
    }
  }

  lemma {:induction false} DueAtIsDue(p: seq<Scheduled>, t: nat, s: Scheduled)
    requires s in DueAt(p, t)
    ensures s in p && s.due == t
    decreases |p|
  {
    if s in DueAt(p[..|p| - 1], t) {
      DueAtIsDue(p[..|p| - 1], t, s);
    }
  }

  // ---- Draining ----

  /** From pending `p` at tick `start`, what is due before `t` went from the wheel to the output. */
  ghost predicate DrainedTo(
    p: seq<Scheduled>, start: nat, t: nat, out: seq<Entry>, out': seq<Entry>, pending: seq<Scheduled>)
  {
    out' == out + Entries(Between(p, start, t)) && pending == From(p, t)
  }

  lemma NoneBefore(p: seq<Scheduled>, start: nat, t: nat, out: seq<Entry>)
    requires Within(p, start) && t <= start
    ensures DrainedTo(p, start, t, out, out, p)
  {
    FromAll(p, t);
  }

  lemma NextTick(p: seq<Scheduled>, start: nat, t: nat, out: seq<Entry>, out': seq<Entry>)
    requires start <= t && DrainedTo(p, start, t, out, out', From(p, t))
    ensures DrainedTo(p, start, t + 1, out, out' + Entries(DueAt(From(p, t), t)), From(From(p, t), t + 1))
  {
    FromFrom(p, t, t);
    FromFrom(p, t, t + 1);
    EntriesJoin(Between(p, start, t), DueAt(p, t));
  }

  // ---- The wheel ----

  class TimingWheel {
    var buckets: seq<seq<Entry>>
    var tick: nat
    ghost var pending: seq<Scheduled>

    /** What is pending was scheduled before now, is due within one turn, and is stored in its buckets. */
    ghost predicate Valid()
      reads this
    {
      tick <= U32_MAX && Within(pending, tick) && AllDated(pending, tick) && Stored(buckets, pending)
    }

    constructor (start: nat)
      requires start <= U32_MAX
      ensures Valid() && tick == start && pending == []
    {
      buckets := seq(WHEEL_BUCKETS, i => []);
      tick := start;
      pending := [];
    }

    /** `schedule`: the entry will come out at its due tick. */
    method Schedule(keyHash: nat, block: nat, expireAt: nat)
      requires Valid()
      modifies this
      ensures Valid() && tick == old(tick)
      ensures pending == old(pending) + [Scheduled(Entry(keyHash, block, expireAt), tick, DueTick(expireAt, tick))]
    {
      var entry := Entry(keyHash, block, expireAt);
      var target;
      if expireAt <= tick {
        target := SlotOf(tick);
      } else if expireAt - tick < WHEEL_BUCKETS {
        target := SlotOf(expireAt);
      } else {
        target := SlotOf(tick + WHEEL_BUCKETS - 1);
      }
      ghost var s := Scheduled(entry, tick, DueTick(expireAt, tick));
      forall b | 0 <= b < WHEEL_BUCKETS
        ensures Bucket(pending + [s], b) == Bucket(pending, b) + if b == target then [entry] else []
      {
        Appended(pending, s, b);
      }
      buckets := buckets[target := buckets[target] + [entry]];
      pending := pending + [s];
    }

    /** Empty the bucket under the tick. */
    method DrainBucket(out: seq<Entry>) returns (out': seq<Entry>)
      requires Valid()
      modifies `buckets, `pending
      ensures Valid() && Within(pending, tick + 1)
      ensures out' == out + Entries(DueAt(old(pending), tick)) && pending == From(old(pending), tick + 1)
    {
      var b := SlotOf(tick);
      BucketIsDue(pending, tick);
      out' := out + buckets[b];
      BucketsAfter(buckets, buckets[b := []], pending, tick);
      FromStays(pending, tick);
      buckets := buckets[b := []];
      pending := From(pending, tick + 1);
    }

    /** The same, as a step of a drain that began at tick `start` with `p` pending. */
    method DrainNext(ghost p: seq<Scheduled>, ghost start: nat, ghost before: seq<Entry>, out: seq<Entry>)
      returns (out': seq<Entry>)
      requires Valid() && start <= tick && DrainedTo(p, start, tick, before, out, pending)
      modifies `buckets, `pending
      ensures Valid() && Within(pending, tick + 1) && DrainedTo(p, start, tick + 1, before, out', pending)
    {
      NextTick(p, start, tick, before, out);
      out' := DrainBucket(out);
    }

    /** Drain the bucket and move the tick, unless that is the last `u32`. */
    method Turn(ghost p: seq<Scheduled>, ghost start: nat, ghost before: seq<Entry>, out: seq<Entry>)
      returns (out': seq<Entry>, overflows: bool)
      requires Valid() && start <= tick && DrainedTo(p, start, tick, before, out, pending)
      modifies this
      ensures Valid() && (overflows <==> old(tick) == U32_MAX) && tick == if overflows then U32_MAX else old(tick) + 1
      ensures DrainedTo(p, start, old(tick) + 1, before, out', pending)
    {
      out' := DrainNext(p, start, before, out);
      overflows := tick == U32_MAX;
      if !overflows {
        tick := tick + 1;
      }
    }

    /**
     `advance_expired_entries`: exactly the entries due by `now` come out, in order of their due tick. At the
     last second of `u32` the tick overflows before the loop can end.
     */
    method Advance(now: nat, out: seq<Entry>) returns (out': seq<Entry>, overflows: bool)
      requires Valid() && now <= U32_MAX
      modifies this
      ensures Valid() && (overflows <==> now == U32_MAX)
      ensures DrainedTo(old(pending), old(tick), now + 1, out, out', pending)
      ensures !overflows ==> tick == if old(tick) <= now then now + 1 else old(tick)
    {
      if tick > now {
        NoneBefore(pending, tick, now + 1, out);
        return out, false;
      }
      NoneBefore(pending, tick, tick, out);
      ghost var p, start, goal := pending, tick, DrainGoal(pending, tick, out);
      assert GoalAt(goal, p, start, out, tick, out, pending);
      out', overflows := AdvanceLoop(now, p, start, out, goal);
      assert GoalAt(goal, p, start, out, now + 1, out', pending);
    }

    /** The loop, with what it drains to as a value. */
    method AdvanceLoop(now: nat, ghost p: seq<Scheduled>, ghost start: nat, out: seq<Entry>, ghost goal: Goal)
      returns (out': seq<Entry>, overflows: bool)
      requires Valid() && start == tick <= now <= U32_MAX && goal(tick, out, pending) && IsGoal(goal, p, start, out)
      modifies this
      ensures Valid() && goal(now + 1, out', pending)
      ensures (overflows <==> now == U32_MAX) && (!overflows ==> tick == now + 1)
    {
      out', overflows := out, false;
      while tick <= now
        invariant Valid() && start <= tick <= now + 1 && !overflows && goal(tick, out', pending)
        decreases now + 1 - tick
      {
        out', overflows := TurnTo(p, start, out, out', goal);
        if overflows {
          return;
        }
      }
    }

    method TurnTo(ghost p: seq<Scheduled>, ghost start: nat, ghost before: seq<Entry>, out: seq<Entry>,
                  ghost goal: Goal)
      returns (out': seq<Entry>, overflows: bool)
      requires Valid() && start <= tick && goal(tick, out, pending) && IsGoal(goal, p, start, before)
      modifies this
      ensures Valid() && (overflows <==> old(tick) == U32_MAX) && tick == if overflows then U32_MAX else old(tick) + 1
      ensures goal(old(tick) + 1, out', pending)
    {
      assert GoalAt(goal, p, start, before, tick, out, pending);
      out', overflows := Turn(p, start, before, out);
      assert GoalAt(goal, p, start, before, old(tick) + 1, out', pending);
    }
  }

  type Goal = (nat, seq<Entry>, seq<Scheduled>) -> bool

  ghost predicate GoalAt(
    goal: Goal, p: seq<Scheduled>, start: nat, out: seq<Entry>, t: nat, out': seq<Entry>, pending: seq<Scheduled>)
  {
    goal(t, out', pending) <==> DrainedTo(p, start, t, out, out', pending)
  }

  ghost predicate IsGoal(goal: Goal, p: seq<Scheduled>, start: nat, out: seq<Entry>) {
    forall t, out', pending {:trigger GoalAt(goal, p, start, out, t, out', pending)} ::
      GoalAt(goal, p, start, out, t, out', pending)
  }

  ghost function DrainGoal(p: seq<Scheduled>, start: nat, out: seq<Entry>): (goal: Goal)
    ensures IsGoal(goal, p, start, out)
  {
    (t: nat, out': seq<Entry>, pending: seq<Scheduled>) => DrainedTo(p, start, t, out, out', pending)
  }

  lemma BucketsAfter(before: seq<seq<Entry>>, after: seq<seq<Entry>>, p: seq<Scheduled>, t: nat)
    requires Within(p, t) && Stored(before, p) && after == before[SlotOf(t) := []]
    ensures Stored(after, From(p, t + 1))
  {
    forall b | 0 <= b < WHEEL_BUCKETS
      ensures after[b] == Bucket(From(p, t + 1), b)
    {
      BucketAfter(p, t, b);
    }
  }

  // ---- Whole runs ----

  datatype Op = Add(keyHash: nat, block: nat, expireAt: nat) | To(now: nat)

  /** A scheduling that came out: by which operation, and the tick before and the time of that advance. */
  datatype Drained = Drained(what: Scheduled, op: nat, tickBefore: nat, now: nat)

  /** Where a run stands: the tick, what is pending, and what came out. */
  datatype Course = Course(tick: nat, pending: seq<Scheduled>, log: seq<Drained>)

  ghost function Logged(p: seq<Scheduled>, op: nat, tickBefore: nat, now: nat): (log: seq<Drained>)
    ensures |log| == |p| && forall i :: 0 <= i < |p| ==> log[i] == Drained(p[i], op, tickBefore, now)
  {
    seq(|p|, i requires 0 <= i < |p| => Drained(p[i], op, tickBefore, now))
  }

  ghost function SchedulingOf(op: Op, tick: nat): Scheduled
    requires op.Add?
  {
    Scheduled(Entry(op.keyHash, op.block, op.expireAt), tick, DueTick(op.expireAt, tick))
  }

  /** The tick after an advance to `now`. */
  function TickAfter(tick: nat, now: nat): nat {
    if tick <= now then now + 1 else tick
  }

  ghost function Next(c: Course, op: Op, i: nat): Course {
    match op
    case Add(_, _, _) => c.(pending := c.pending + [SchedulingOf(op, c.tick)])
    case To(now) =>
      Course(TickAfter(c.tick, now), From(c.pending, now + 1),
             c.log + Logged(Between(c.pending, c.tick, now + 1), i, c.tick, now))
  }

  /** The course of a run from an empty wheel at tick `start`. */
  ghost function CourseOf(start: nat, ops: seq<Op>): Course {
    if ops == [] then Course(start, [], []) else
    Next(CourseOf(start, ops[..|ops| - 1]), ops[|ops| - 1], |ops| - 1)
  }

  /** What a run schedules, in order. */
  ghost function Schedulings(start: nat, ops: seq<Op>): seq<Scheduled> {
    if ops == [] then [] else
    var n := |ops| - 1;
    Schedulings(start, ops[..n]) + if ops[n].Add? then [SchedulingOf(ops[n], CourseOf(start, ops[..n]).tick)] else []
  }

  /** The schedulings of a log. */
  ghost function Whats(log: seq<Drained>): (p: seq<Scheduled>)
    ensures |p| == |log| && forall i :: 0 <= i < |p| ==> p[i] == log[i].what
  {
    seq(|log|, i requires 0 <= i < |log| => log[i].what)
  }

  lemma WhatsJoin(log: seq<Drained>, p: seq<Scheduled>, op: nat, tickBefore: nat, now: nat)
    ensures Whats(log + Logged(p, op, tickBefore, now)) == Whats(log) + p
  {
  }

  lemma CourseMore(start: nat, ops: seq<Op>, i: nat)
    requires i < |ops|
    ensures CourseOf(start, ops[..i + 1]) == Next(CourseOf(start, ops[..i]), ops[i], i)
  {
    assert ops[..i + 1][..i] == ops[..i];
  }

  /** Every operation that adds schedules one more, of its own entry at the tick of that moment; no other does. */
  lemma {:induction false} SchedulingsAt(start: nat, ops: seq<Op>, i: nat)
    requires i < |ops|
    ensures var k := |Schedulings(start, ops[..i])|;
            && |Schedulings(start, ops[..i + 1])| == k + (if ops[i].Add? then 1 else 0)
            && (ops[i].Add? ==>
                  && k < |Schedulings(start, ops)|
                  && Schedulings(start, ops)[k].entry == Entry(ops[i].keyHash, ops[i].block, ops[i].expireAt)
                  && Schedulings(start, ops)[k].at == CourseOf(start, ops[..i]).tick)
    decreases |ops|
  {
    var n := |ops| - 1;
    if i < n {
      SchedulingsAt(start, ops[..n], i);
      assert ops[..n][..i] == ops[..i] && ops[..n][..i + 1] == ops[..i + 1];
    } else {
      assert ops[..i + 1] == ops;
    }
  }

  // ---- What every course keeps ----

  lemma StaysDated(p: seq<Scheduled>, tick: nat, now: nat)
    requires Within(p, tick) && AllDated(p, tick)
    ensures Within(From(p, now + 1), TickAfter(tick, now)) && AllDated(From(p, now + 1), TickAfter(tick, now))
  {
    FromIsPart(p, now + 1);
    var q := From(p, now + 1);
    forall i | 0 <= i < |q|
      ensures TickAfter(tick, now) <= q[i].due < TickAfter(tick, now) + WHEEL_BUCKETS && Dated(q[i]) && q[i].at <= tick
    {
      var k :| 0 <= k < |p| && p[k] == q[i];
    }
  }

  ghost predicate InOrder(c: Course) {
    Within(c.pending, c.tick) && AllDated(c.pending, c.tick)
  }

  lemma NextInOrder(c: Course, op: Op, i: nat)
    requires InOrder(c)
    ensures InOrder(Next(c, op, i))
  {
    match op
    case Add(_, _, e) => DueTickBounds(e, c.tick);
    case To(now) => StaysDated(c.pending, c.tick, now);
  }

  lemma {:induction false} CourseInOrder(start: nat, ops: seq<Op>)
    ensures InOrder(CourseOf(start, ops))
  {
    if ops != [] {
      CourseInOrder(start, ops[..|ops| - 1]);
      NextInOrder(CourseOf(start, ops[..|ops| - 1]), ops[|ops| - 1], |ops| - 1);
    }
  }

  /** Every scheduling of `all` has come out once or is still pending. */
  ghost predicate Balanced(all: seq<Scheduled>, c: Course) {
    multiset(all) == multiset(Whats(c.log)) + multiset(c.pending)
  }

  lemma AddBalances(all: seq<Scheduled>, c: Course, op: Op, i: nat)
    requires Balanced(all, c) && op.Add?
    ensures Balanced(all + [SchedulingOf(op, c.tick)], Next(c, op, i))
  {
    Joined(all, [SchedulingOf(op, c.tick)]);
    Joined(c.pending, [SchedulingOf(op, c.tick)]);
  }

  lemma ToBalances(all: seq<Scheduled>, c: Course, op: Op, i: nat)
    requires Balanced(all, c) && op.To? && InOrder(c)
    ensures Balanced(all, Next(c, op, i))
  {
    var came := ToMoves(c, op, i);
    Carried(all, Whats(c.log), c.pending, came, Next(c, op, i).pending);
  }

  /** An advance moves what comes out from the pending to the end of the log. */
  lemma ToMoves(c: Course, op: Op, i: nat) returns (came: seq<Scheduled>)
    requires op.To? && InOrder(c)
    ensures Whats(Next(c, op, i).log) == Whats(c.log) + came
    ensures multiset(came) + multiset(Next(c, op, i).pending) == multiset(c.pending)
  {
    came := Between(c.pending, c.tick, op.now + 1);
    WhatsJoin(c.log, came, i, c.tick, op.now);
    MovedOver(c.pending, c.tick, op.now);
  }

  lemma Carried(
    all: seq<Scheduled>, out: seq<Scheduled>, p: seq<Scheduled>, came: seq<Scheduled>, stays: seq<Scheduled>)
    requires multiset(all) == multiset(out) + multiset(p) && multiset(came) + multiset(stays) == multiset(p)
    ensures multiset(all) == multiset(out + came) + multiset(stays)
  {
    Joined(out, came);
  }

  /** Nothing is lost or doubled. */
  lemma {:induction false} CourseBalances(start: nat, ops: seq<Op>)
    ensures Balanced(Schedulings(start, ops), CourseOf(start, ops))
  {
    if ops != [] {
      var n := |ops| - 1;
      CourseBalances(start, ops[..n]);
      CourseInOrder(start, ops[..n]);
      if ops[n].Add? {
        AddBalances(Schedulings(start, ops[..n]), CourseOf(start, ops[..n]), ops[n], n);
      } else {
        ToBalances(Schedulings(start, ops[..n]), CourseOf(start, ops[..n]), ops[n], n);
      }
    }
  }

  /**
   Drained in time: by the first advance that reaches its due tick, which is never later than its expiry or, if
   that was past, the tick it was scheduled at; and not before its expiry if its lifetime was under an hour, else not
   before the last second of that hour.
   */
  ghost predicate InTime(d: Drained, ops: seq<Op>) {
    var s := d.what;
    && Dated(s) && s.at <= d.tickBefore <= s.due <= d.now
    && s.due <= (if s.entry.expireAt > s.at then s.entry.expireAt else s.at)
    && (s.entry.expireAt < s.at + 3600 ==> s.entry.expireAt <= d.now)
    && (s.at + 3600 <= s.entry.expireAt ==> s.at + 3599 <= d.now)
    && d.op < |ops| && ops[d.op] == To(d.now)
    && forall i :: 0 <= i < d.op && ops[i].To? ==> ops[i].now < d.tickBefore
  }

  ghost predicate AllInTime(log: seq<Drained>, ops: seq<Op>) {
    forall i :: 0 <= i < |log| ==> InTime(log[i], ops)
  }

  /** The tick is past every time advanced to. */
  lemma {:induction false} TickIsPast(start: nat, ops: seq<Op>, i: nat)
    requires i < |ops| && ops[i].To?
    ensures ops[i].now < CourseOf(start, ops).tick
  {
    if i < |ops| - 1 {
      TickIsPast(start, ops[..|ops| - 1], i);
    }
  }

  /** What came out came out in time. */
  lemma {:induction false} CourseInTime(start: nat, ops: seq<Op>)
    ensures AllInTime(CourseOf(start, ops).log, ops)
  {
    if ops != [] {
      var n := |ops| - 1;
      var before := ops[..n];
      var c := CourseOf(start, before);
      CourseInTime(start, before);
      forall i | 0 <= i < |c.log|
        ensures InTime(c.log[i], ops)
      {
        InTimeLater(c.log[i], ops, n);
      }
      if ops[n].To? {
        CourseInOrder(start, before);
        forall s | s in Between(c.pending, c.tick, ops[n].now + 1)
          ensures InTime(Drained(s, n, c.tick, ops[n].now), ops)
        {
          BetweenIsDue(c.pending, c.tick, ops[n].now + 1, s);
          DrainedInTime(start, ops, s);
        }
      }
    }
  }

  lemma InTimeLater(d: Drained, ops: seq<Op>, n: nat)
    requires n <= |ops| && InTime(d, ops[..n])
    ensures InTime(d, ops)
  {
    forall i | 0 <= i < d.op && ops[i].To?
      ensures ops[i].now < d.tickBefore
    {
      assert ops[..n][i] == ops[i];
    }
  }

  lemma DrainedInTime(start: nat, ops: seq<Op>, s: Scheduled)
    requires ops != [] && ops[|ops| - 1].To? && Dated(s)
    requires var tick := CourseOf(start, ops[..|ops| - 1]).tick; s.at <= tick <= s.due <= ops[|ops| - 1].now
    ensures InTime(Drained(s, |ops| - 1, CourseOf(start, ops[..|ops| - 1]).tick, ops[|ops| - 1].now), ops)
  {
    var n := |ops| - 1;
    DueTickBounds(s.entry.expireAt, s.at);
    forall i | 0 <= i < n && ops[i].To?
      ensures ops[i].now < CourseOf(start, ops[..n]).tick
    {
      TickIsPast(start, ops[..n], i);
    }
  }

  /** What is pending is due after every time advanced to. */
  lemma PendingIsLater(start: nat, ops: seq<Op>, i: nat, s: Scheduled)
    requires i < |ops| && ops[i].To? && s in CourseOf(start, ops).pending
    ensures ops[i].now < s.due
  {
    TickIsPast(start, ops, i);
    CourseInOrder(start, ops);
  }

  /** Also when the wheel is already past `now`. */
  lemma MovedOver(p: seq<Scheduled>, start: nat, now: nat)
    requires Within(p, start)
    ensures multiset(Between(p, start, now + 1)) + multiset(From(p, now + 1)) == multiset(p)
  {
    if now + 1 <= start {
      FromAll(p, now + 1);
    } else {
      Conservation(p, start, now + 1);
    }
  }

  // ---- Running the wheel ----

  /** One operation follows the course. */
  method Step(wheel: TimingWheel, op: Op, out: seq<Entry>, ghost c: Course, ghost i: nat) returns (out': seq<Entry>)
    requires wheel.Valid() && wheel.tick == c.tick && wheel.pending == c.pending && out == Entries(Whats(c.log))
    requires op.To? ==> op.now < U32_MAX
    modifies wheel
    ensures wheel.Valid() && wheel.tick == Next(c, op, i).tick && wheel.pending == Next(c, op, i).pending
    ensures out' == Entries(Whats(Next(c, op, i).log))
    ensures old(wheel.tick) <= wheel.tick && (op.To? ==> op.now < wheel.tick)
  {
    out' := out;
    match op {
      case Add(h, b, e) =>
        wheel.Schedule(h, b, e);
      case To(now) =>
        ghost var came := Between(c.pending, c.tick, now + 1);
        var overflows;
        out', overflows := wheel.Advance(now, out);
        WhatsJoin(c.log, came, i, c.tick, now);
        EntriesJoin(Whats(c.log), came);
    }
  }

  /**
   Over every run each scheduling has come out exactly once, in time, or is still pending and due after every time
   advanced to. A run stops early only at an advance to the last second of `u32`.
   */
  method Run(wheel: TimingWheel, ops: seq<Op>) returns (n: nat, out: seq<Entry>, ghost c: Course)
    requires wheel.Valid() && wheel.pending == []
    requires forall i :: 0 <= i < |ops| && ops[i].To? ==> ops[i].now <= U32_MAX
    modifies wheel
    ensures n <= |ops| && (n < |ops| ==> ops[n] == To(U32_MAX)) && wheel.Valid()
    ensures c == CourseOf(old(wheel.tick), ops[..n])
    ensures wheel.tick == c.tick && wheel.pending == c.pending
    ensures |out| == |c.log| && forall i :: 0 <= i < |out| ==> out[i] == c.log[i].what.entry
    ensures Balanced(Schedulings(old(wheel.tick), ops[..n]), c) && AllInTime(c.log, ops[..n])
    ensures forall i, s :: 0 <= i < n && ops[i].To? && s in wheel.pending ==> ops[i].now < s.due
  {
    ghost var start := wheel.tick;
    n, out, c := 0, [], CourseOf(start, []);
    while n < |ops| && ops[n] != To(U32_MAX)
      invariant 0 <= n <= |ops| && wheel.Valid() && c == CourseOf(start, ops[..n])
      invariant wheel.tick == c.tick && wheel.pending == c.pending && out == Entries(Whats(c.log))
    {
      CourseMore(start, ops, n);
      out := Step(wheel, ops[n], out, c, n);
      c := Next(c, ops[n], n);
      n := n + 1;
    }
    CourseBalances(start, ops[..n]);
    CourseInTime(start, ops[..n]);
    EntriesAt(Whats(c.log));
    forall i, s | 0 <= i < n && ops[i].To? && s in wheel.pending
      ensures ops[i].now < s.due
    {
      PendingIsLater(start, ops[..n], i, s);
    }
  }

  /** A lifetime of two hours, scheduled at tick 0, is drained in second 3599 and no sooner. */
  method LongLifetimeComesEarly() returns (before: seq<Entry>, out: seq<Entry>)
    ensures before == [] && out == [Entry(0, 0, 7200)]
  {
    var wheel := new TimingWheel(0);
    wheel.Schedule(0, 0, 7200);
    ghost var s := wheel.pending[0];
    assert wheel.pending == [s];
    var overflows;
    before, overflows := wheel.Advance(3598, []);
    NothingBefore(s, 0, 3599);
    FromAll([s], 3599);
    out, overflows := wheel.Advance(3599, []);
    OnlyDue(s, 3599);
  }

  lemma OnlyDue(s: Scheduled, now: nat)
    requires s.due == now
    ensures Between([s], now, now + 1) == [s] && Entries([s]) == [s.entry]
  {
    assert [s] == [] + [s];
    Appended([], s, now);
    NothingBefore(s, now, now);
  }

  lemma {:induction false} NothingBefore(s: Scheduled, a: nat, t: nat)
    requires t <= s.due
    ensures Between([s], a, t) == [] && Entries([]) == []
    decreases t
  {
    if a < t {
      NothingBefore(s, a, t - 1);
      assert [s] == [] + [s];
      Appended([], s, t - 1);
    }
  }
}
