/**
 The shared-memory single-producer single-consumer ring as a two-party step protocol.

 Every atomic load, the slot write, the slot read and every fetch-add is its own step, and the
 steps of the two sides interleave freely under sequential consistency.  `head` and `tail` are the
 wrapping 32-bit counters of the original; `pushed` and `popped` record what each side completed.
 */
module ShmRing {
  import opened Machine
  import OA = OpenAddressing

  const WORD: nat := 0x1_0000_0000

  function WrappingSub(a: u32, b: u32): u32 {
    (a - b) % WORD
  }

  function WrappingInc(a: u32): u32 {
    (a + 1) % WORD
  }

  /** Where the producer is inside `push`. */
  datatype Producer<V> =
    | Idle
    | HeadLoaded(v: V, h: u32)      // has_space: head loaded
    | HasSpace(v: V)                // has_space: returned true
    | SlotChosen(v: V, idx: nat)    // head loaded again, about to write
    | SlotWritten(v: V)             // about to bump head

  /** Where the consumer is inside `try_pop`. */
  datatype Consumer<V> =
    | Idle
    | HeadLoaded(h: u32)            // has_data: head loaded
    | HasData                       // has_data: returned true
    | SlotChosen(idx: nat)          // tail loaded again, about to read
    | SlotRead(v: V)                // about to bump tail

  datatype Ring<V> = Ring(
    capacity: nat,
    head: u32,
    tail: u32,
    slots: seq<V>,
    producer: Producer<V>,
    consumer: Consumer<V>,
    pushed: seq<V>,
    popped: seq<V>)

  /** `ShmChannel::create` accepts the capacity. */
  predicate ValidCapacity(capacity: nat) {
    IsPowerOfTwo(capacity) && capacity < WORD
  }

  function Init<V>(capacity: nat, slots: seq<V>): Ring<V> {
    Ring(capacity, 0, 0, slots, Producer.Idle, Consumer.Idle, [], [])
  }

  datatype Step<V> = StartPush(v: V) | ProducerStep | StartPop | ConsumerStep

  predicate HasSpaceTest(h: u32, t: u32, capacity: nat) {
    WrappingSub(h, t) < capacity
  }

  function ProducerNext<V>(r: Ring<V>): Ring<V>
    requires r.capacity > 0
  {
    match r.producer
    case Idle => r
    case HeadLoaded(v, h) =>
      if HasSpaceTest(h, r.tail, r.capacity) then r.(producer := Producer.HasSpace(v))
      else r.(producer := Producer.Idle)  // RingFull
    case HasSpace(v) => r.(producer := Producer.SlotChosen(v, r.head % r.capacity))
    case SlotChosen(v, idx) =>
      if idx < |r.slots| then r.(slots := r.slots[idx := v], producer := Producer.SlotWritten(v)) else r
    case SlotWritten(v) => r.(head := WrappingInc(r.head), producer := Producer.Idle, pushed := r.pushed + [v])
  }

  function ConsumerNext<V>(r: Ring<V>): Ring<V>
    requires r.capacity > 0
  {
    match r.consumer
    case Idle => r
    case HeadLoaded(h) =>
      if h != r.tail then r.(consumer := Consumer.HasData)
      else r.(consumer := Consumer.Idle)  // RingEmpty
    case HasData => r.(consumer := Consumer.SlotChosen(r.tail % r.capacity))
    case SlotChosen(idx) =>
      if idx < |r.slots| then r.(consumer := Consumer.SlotRead(r.slots[idx])) else r
    case SlotRead(v) => r.(tail := WrappingInc(r.tail), consumer := Consumer.Idle, popped := r.popped + [v])
  }

  function Next<V>(r: Ring<V>, step: Step<V>): Ring<V>
    requires r.capacity > 0
  {
    match step
    case StartPush(v) => if r.producer.Idle? then r.(producer := Producer.HeadLoaded(v, r.head)) else r
    case ProducerStep => ProducerNext(r)
    case StartPop => if r.consumer.Idle? then r.(consumer := Consumer.HeadLoaded(r.head)) else r
    case ConsumerStep => ConsumerNext(r)
  }

  function Exec<V>(r: Ring<V>, steps: seq<Step<V>>): (r': Ring<V>)
    requires r.capacity > 0
    ensures r'.capacity == r.capacity
  {
    if steps == [] then r else Next(Exec(r, steps[..|steps| - 1]), steps[|steps| - 1])
  }

  // ---- Arithmetic ----

  lemma {:induction false} PowersDivide(a: nat, b: nat)
    requires IsPowerOfTwo(a) && IsPowerOfTwo(b) && a <= b
    ensures exists q: nat :: q * a == b
  {
    if a == 1 {
      assert b * 1 == b;
    } else {
      PowersDivide(a / 2, b / 2);
      var q: nat :| q * (a / 2) == b / 2;
      assert q * a == 2 * (q * (a / 2));
    }
  }

  lemma {:induction false} PowerOfTwoTo(n: nat)
    requires IsPowerOfTwo(n)
    ensures IsPowerOfTwo(0x10000 * n)
  {
    var a := n;
    var m := 1;
    while m < 0x10000
      invariant IsPowerOfTwo(a) && a == m * n && m >= 1
      invariant m in {1, 2, 4, 8, 16, 32, 64, 128, 256, 512, 1024, 2048, 4096, 8192, 16384, 32768, 65536}
    {
      PowerOfTwoDoubled(a);
      a := 2 * a;
      m := 2 * m;
    }
  }

  /** Wrapping at 2^32 does not disturb slot indices, because the capacity divides 2^32. */
  lemma IndexSurvivesWrap(x: nat, capacity: nat)
    requires ValidCapacity(capacity)
    ensures (x % WORD) % capacity == x % capacity
  {
    PowerOfTwoTo(1);
    PowerOfTwoTo(0x10000);
    PowersDivide(capacity, WORD);
    var q: nat :| q * capacity == WORD;
    var d, w := x / WORD, x % WORD;
    var e, f := w / capacity, w % capacity;
    assert x == d * WORD + w && w == e * capacity + f;
    assert d * WORD == (d * q) * capacity;
    assert x == (d * q + e) * capacity + f;
    OA.RemainderIs(x, d * q + e, capacity);
  }

  /** Indices less than a lap apart use different slots. */
  lemma SlotsDiffer(i: nat, j: nat, capacity: nat)
    requires capacity > 0 && i < j < i + capacity
    ensures i % capacity != j % capacity
  {
    var a, b := i / capacity, j / capacity;
    NoSmallMultiple(b - a, capacity, j - i);
    assert (b - a) * capacity == b * capacity - a * capacity;
  }

  lemma NoSmallMultiple(q: int, m: nat, x: int)
    requires 0 < x < m
    ensures q * m != x
  {
    if q >= 1 {
      assert q * m >= m;
    } else {
      assert q * m <= 0;
    }
  }

  /** The wrapped difference of two counters less than 2^32 apart is their difference. */
  lemma WrappedDifference(x: nat, y: nat)
    requires y <= x < y + WORD
    ensures WrappingSub(x % WORD, y % WORD) == x - y
  {
  }

  /** Counters less than 2^32 apart are equal as words only if they are equal. */
  lemma SameWord(x: nat, y: nat)
    requires y <= x < y + WORD
    ensures x % WORD == y % WORD <==> x == y
  {
    WrappedDifference(x, y);
  }

  // ---- The invariant ----

  ghost predicate ProducerInv<V>(r: Ring<V>) {
    match r.producer
    case Idle => true
    case HeadLoaded(_, h) => h == r.head
    case HasSpace(_) => |r.pushed| < |r.popped| + r.capacity
    case SlotChosen(_, idx) => |r.pushed| < |r.popped| + r.capacity && r.capacity > 0 && idx == |r.pushed| % r.capacity
    case SlotWritten(v) =>
      && |r.pushed| < |r.popped| + r.capacity && r.capacity > 0 && |r.slots| == r.capacity
      && r.slots[|r.pushed| % r.capacity] == v
  }

  ghost predicate ConsumerInv<V>(r: Ring<V>) {
    match r.consumer
    case Idle => true
    case HeadLoaded(h) => exists n: nat :: |r.popped| <= n <= |r.pushed| && h == n % WORD
    case HasData => |r.popped| < |r.pushed|
    case SlotChosen(idx) => |r.popped| < |r.pushed| && r.capacity > 0 && idx == |r.popped| % r.capacity
    case SlotRead(v) => |r.popped| < |r.pushed| && v == r.pushed[|r.popped|]
  }

  /** The window between the counters holds exactly the pushed values not yet popped. */
  ghost predicate Window<V>(r: Ring<V>)
    requires r.capacity > 0
  {
    && |r.slots| == r.capacity
    && |r.popped| <= |r.pushed| <= |r.popped| + r.capacity
    && r.popped <= r.pushed
    && forall i {:trigger r.pushed[i]} :: |r.popped| <= i < |r.pushed| ==> r.slots[i % r.capacity] == r.pushed[i]
  }

  ghost predicate Inv<V>(r: Ring<V>) {
    && ValidCapacity(r.capacity)
    && r.head == |r.pushed| % WORD && r.tail == |r.popped| % WORD
    && Window(r) && ProducerInv(r) && ConsumerInv(r)
  }

  // ---- Preservation ----

  lemma ProducerKeepsInv<V>(r: Ring<V>)
    requires Inv(r)
    ensures Inv(ProducerNext(r))
  {
    match r.producer
    case Idle =>
    case HeadLoaded(v, h) =>
      WrappedDifference(|r.pushed|, |r.popped|);
    case HasSpace(v) =>
      IndexSurvivesWrap(|r.pushed|, r.capacity);
    case SlotChosen(v, idx) =>
      WriteKeepsWindow(r, v);
    case SlotWritten(v) =>
      BumpHeadKeepsInv(r, v);
  }

  /** The slot about to be written lies outside the window. */
  lemma WriteKeepsWindow<V>(r: Ring<V>, v: V)
    requires r.capacity > 0 && Window(r) && |r.pushed| < |r.popped| + r.capacity
    ensures Window(r.(slots := r.slots[|r.pushed| % r.capacity := v]))
  {
    forall i | |r.popped| <= i < |r.pushed|
      ensures i % r.capacity != |r.pushed| % r.capacity
    {
      SlotsDiffer(i, |r.pushed|, r.capacity);
    }
  }

  /** Both counters stay the histories' lengths modulo 2^32. */
  lemma BumpWraps(n: nat)
    ensures WrappingInc(n % WORD) == (n + 1) % WORD
  {
  }

  lemma BumpHeadKeepsInv<V>(r: Ring<V>, v: V)
    requires Inv(r) && r.producer == Producer.SlotWritten(v)
    ensures Inv(ProducerNext(r))
  {
    BumpWraps(|r.pushed|);
    PushKeepsWindow(r, v);
    PushKeepsConsumer(r, v);
  }

  lemma PushKeepsWindow<V>(r: Ring<V>, v: V)
    requires r.capacity > 0 && Window(r) && |r.pushed| < |r.popped| + r.capacity
    requires r.slots[|r.pushed| % r.capacity] == v
    ensures Window(r.(pushed := r.pushed + [v]))
  {
    var r' := r.(pushed := r.pushed + [v]);
    forall i | |r'.popped| <= i < |r'.pushed|
      ensures r'.slots[i % r'.capacity] == r'.pushed[i]
    {
      assert i < |r.pushed| ==> r'.pushed[i] == r.pushed[i];
    }
  }

  lemma PushKeepsConsumer<V>(r: Ring<V>, v: V)
    requires ConsumerInv(r)
    ensures ConsumerInv(r.(pushed := r.pushed + [v]))
  {
  }

  lemma ConsumerKeepsInv<V>(r: Ring<V>)
    requires Inv(r)
    ensures Inv(ConsumerNext(r))
  {
    match r.consumer
    case Idle =>
    case HeadLoaded(h) =>
    case HasData =>
      IndexSurvivesWrap(|r.popped|, r.capacity);
    case SlotChosen(idx) =>
      ReadGetsOldest(r);
    case SlotRead(v) =>
      BumpWraps(|r.popped|);
      PopKeepsWindow(r, v);
  }

  lemma ReadGetsOldest<V>(r: Ring<V>)
    requires r.capacity > 0 && Window(r) && |r.popped| < |r.pushed|
    ensures r.slots[|r.popped| % r.capacity] == r.pushed[|r.popped|]
  {
    var v := r.pushed[|r.popped|];
  }

  lemma PopKeepsWindow<V>(r: Ring<V>, v: V)
    requires r.capacity > 0 && Window(r) && |r.popped| < |r.pushed| && v == r.pushed[|r.popped|]
    ensures Window(r.(popped := r.popped + [v]))
    ensures ProducerInv(r) ==> ProducerInv(r.(popped := r.popped + [v]))
  {
    assert r.popped + [v] == r.pushed[..|r.popped| + 1];
  }

  lemma NextKeepsInv<V>(r: Ring<V>, step: Step<V>)
    requires Inv(r)
    ensures Inv(Next(r, step))
  {
    match step
    case StartPush(v) =>
    case ProducerStep => ProducerKeepsInv(r);
    case StartPop => assert r.head == |r.pushed| % WORD;
    case ConsumerStep => ConsumerKeepsInv(r);
  }

  /** The invariant holds after every interleaving. */
  lemma {:induction false} ExecKeepsInv<V>(r: Ring<V>, steps: seq<Step<V>>)
    requires Inv(r)
    ensures Inv(Exec(r, steps))
  {
    if steps != [] {
      ExecKeepsInv(r, steps[..|steps| - 1]);
      NextKeepsInv(Exec(r, steps[..|steps| - 1]), steps[|steps| - 1]);
    }
  }

  lemma InitInv<V>(capacity: nat, slots: seq<V>)
    requires ValidCapacity(capacity) && |slots| == capacity
    ensures Inv(Init(capacity, slots))
  {
  }

  // ---- What every interleaving guarantees ----

  lemma Reachable<V>(capacity: nat, slots: seq<V>, steps: seq<Step<V>>)
    requires ValidCapacity(capacity) && |slots| == capacity
    ensures Inv(Exec(Init(capacity, slots), steps))
  {
    InitInv(capacity, slots);
    ExecKeepsInv(Init(capacity, slots), steps);
  }

  /** The consumer sees the producer's sequence in order, nothing lost, doubled or torn, at most a lap behind. */
  lemma FifoOverEveryRun<V>(capacity: nat, slots: seq<V>, steps: seq<Step<V>>)
    requires ValidCapacity(capacity) && |slots| == capacity
    ensures var r := Exec(Init(capacity, slots), steps);
            r.popped <= r.pushed && |r.pushed| - |r.popped| <= capacity
  {
    Reachable(capacity, slots, steps);
  }

  /** A write and a read in flight never touch the same slot. */
  lemma NeverSameSlot<V>(capacity: nat, slots: seq<V>, steps: seq<Step<V>>)
    requires ValidCapacity(capacity) && |slots| == capacity
    ensures var r := Exec(Init(capacity, slots), steps);
            r.producer.SlotChosen? && r.consumer.SlotChosen? ==>
              r.producer.idx != r.consumer.idx && r.producer.idx < capacity && r.consumer.idx < capacity
  {
    Reachable(capacity, slots, steps);
    var r := Exec(Init(capacity, slots), steps);
    if r.producer.SlotChosen? && r.consumer.SlotChosen? {
      SlotsDiffer(|r.popped|, |r.pushed|, capacity);
    }
  }

  // ---- Calls that look twice ----

  /** The step is one of the producer's own. */
  predicate ByProducer<V>(step: Step<V>) {
    step.StartPush? || step.ProducerStep?
  }

  /** A side that takes no step keeps its counter, its history and its place. */
  lemma {:induction false} StandsStill<V>(r: Ring<V>, steps: seq<Step<V>>)
    requires r.capacity > 0
    ensures var r' := Exec(r, steps);
            && ((forall i :: 0 <= i < |steps| ==> !ByProducer(steps[i])) ==>
                  r'.head == r.head && r'.pushed == r.pushed && r'.producer == r.producer)
            && ((forall i :: 0 <= i < |steps| ==> ByProducer(steps[i])) ==>
                  r'.tail == r.tail && r'.popped == r.popped && r'.consumer == r.consumer)
  {
    if steps != [] {
      StandsStill(r, steps[..|steps| - 1]);
      assert forall i :: 0 <= i < |steps| - 1 ==> steps[..|steps| - 1][i] == steps[i];
    }
  }

  lemma {:induction false} HistoriesGrow<V>(r: Ring<V>, steps: seq<Step<V>>)
    requires r.capacity > 0
    ensures var r' := Exec(r, steps); r.pushed <= r'.pushed && r.popped <= r'.popped
  {
    if steps != [] {
      HistoriesGrow(r, steps[..|steps| - 1]);
    }
  }

  /**
   A push whose head is loaded is refused exactly when `capacity` values are pending at its load of the tail.  A pop is
   refused exactly when nothing was pending at its load of the head, however much is pushed before its load of the tail.
   */
  lemma RefusalsAreRight<V>(capacity: nat, slots: seq<V>, before: seq<Step<V>>, between: seq<Step<V>>)
    requires ValidCapacity(capacity) && |slots| == capacity
    ensures var r := Exec(Init(capacity, slots), before);
            r.producer.HeadLoaded? ==> (ProducerNext(r).producer.Idle? <==> |r.pushed| - |r.popped| == capacity)
    ensures var r := Exec(Init(capacity, slots), before);
            r.consumer.Idle? && (forall i :: 0 <= i < |between| ==> ByProducer(between[i])) ==>
              var looked := Exec(Next(r, StartPop), between);
              looked.consumer.HeadLoaded? && (ConsumerNext(looked).consumer.Idle? <==> |r.pushed| == |r.popped|)
  {
    Reachable(capacity, slots, before);
    var r := Exec(Init(capacity, slots), before);
    PushRefusal(r);
    if r.consumer.Idle? {
      PopRefusal(r, between);
    }
  }

  lemma PushRefusal<V>(r: Ring<V>)
    requires Inv(r)
    ensures r.producer.HeadLoaded? ==> (ProducerNext(r).producer.Idle? <==> |r.pushed| - |r.popped| == r.capacity)
  {
    WrappedDifference(|r.pushed|, |r.popped|);
  }

  lemma PopRefusal<V>(r: Ring<V>, between: seq<Step<V>>)
    requires Inv(r) && r.consumer.Idle?
    ensures (forall i :: 0 <= i < |between| ==> ByProducer(between[i])) ==>
              var looked := Exec(Next(r, StartPop), between);
              looked.consumer.HeadLoaded? && (ConsumerNext(looked).consumer.Idle? <==> |r.pushed| == |r.popped|)
  {
    SameWord(|r.pushed|, |r.popped|);
    StandsStill(Next(r, StartPop), between);
  }

  /** `pending`: the head is loaded in one state and the tail in a later one. */
  function Pending<V>(first: Ring<V>, second: Ring<V>): u32 {
    WrappingSub(first.head, second.tail)
  }

  /**
   Called by the producer, `pending` is the count at its second load; called by the consumer, the count at its first.
   Called by anyone else it is the difference of the two counts it loaded exactly when the consumer has not passed the
   loaded head, and short of a lap of 2^32 only then within the capacity.
   */
  lemma PendingOverEveryRun<V>(capacity: nat, slots: seq<V>, before: seq<Step<V>>, between: seq<Step<V>>)
    requires ValidCapacity(capacity) && |slots| == capacity
    ensures var first := Exec(Init(capacity, slots), before);
            var second := Exec(first, between);
            var n := Pending(first, second);
            && ((forall i :: 0 <= i < |between| ==> !ByProducer(between[i])) ==>
                  n == |second.pushed| - |second.popped| <= capacity)
            && ((forall i :: 0 <= i < |between| ==> ByProducer(between[i])) ==>
                  n == |first.pushed| - |first.popped| <= capacity)
            && (n == |first.pushed| - |second.popped| <==> |second.popped| <= |first.pushed|)
            && (|second.popped| <= |first.pushed| ==> n <= capacity)
            && (|first.pushed| < |second.popped| < |first.pushed| + WORD - capacity ==> n > capacity)
  {
    var first := Exec(Init(capacity, slots), before);
    var second := Exec(first, between);
    Reachable(capacity, slots, before);
    ExecKeepsInv(first, between);
    StandsStill(first, between);
    HistoriesGrow(first, between);
    PendingIs(first, second);
  }

  /** The wrapped difference of counts of which the second is ahead by less than 2^32. */
  lemma WrappedBack(x: nat, y: nat)
    requires x < y < x + WORD
    ensures WrappingSub(x % WORD, y % WORD) == x + WORD - y
  {
    assert (x + WORD) % WORD == x % WORD;
    WrappedDifference(x + WORD, y);
  }

  lemma PendingIs<V>(first: Ring<V>, second: Ring<V>)
    requires first.head == |first.pushed| % WORD && second.tail == |second.popped| % WORD
    requires first.capacity < WORD && |first.pushed| <= |second.popped| + first.capacity
    ensures |second.popped| <= |first.pushed| ==> Pending(first, second) == |first.pushed| - |second.popped|
    ensures |first.pushed| < |second.popped| < |first.pushed| + WORD ==>
              Pending(first, second) == |first.pushed| + WORD - |second.popped|
  {
    if |second.popped| <= |first.pushed| {
      WrappedDifference(|first.pushed|, |second.popped|);
    } else if |second.popped| < |first.pushed| + WORD {
      WrappedBack(|first.pushed|, |second.popped|);
    }
  }

  // ---- An onlooker that gets more than the capacity ----

  lemma {:induction false} ExecJoin<V>(r: Ring<V>, a: seq<Step<V>>, b: seq<Step<V>>)
    requires r.capacity > 0
    ensures Exec(r, a + b) == Exec(Exec(r, a), b)
  {
    if b == [] {
      assert a + b == a;
    } else {
      ExecJoin(r, a, b[..|b| - 1]);
      assert (a + b)[..|a + b| - 1] == a + b[..|b| - 1];
    }
  }

  function PushSteps<V>(v: V): seq<Step<V>> {
    [StartPush(v), ProducerStep, ProducerStep, ProducerStep, ProducerStep]
  }

  function PopSteps<V>(): seq<Step<V>> {
    [StartPop, ConsumerStep, ConsumerStep, ConsumerStep, ConsumerStep]
  }

  lemma ExecFive<V>(r: Ring<V>, s: seq<Step<V>>)
    requires r.capacity > 0 && |s| == 5
    ensures Exec(r, s) == Next(Next(Next(Next(Next(r, s[0]), s[1]), s[2]), s[3]), s[4])
  {
    assert s[..4][..3] == s[..3] && s[..3][..2] == s[..2] && s[..2][..1] == s[..1] && s[..1][..0] == [];
    assert Exec(r, s[..1]) == Next(r, s[0]);
    assert Exec(r, s[..2]) == Next(Next(r, s[0]), s[1]);
    assert Exec(r, s[..3]) == Next(Exec(r, s[..2]), s[2]);
    assert Exec(r, s[..4]) == Next(Exec(r, s[..3]), s[3]);
  }

  /** After any run, a push taken to its end adds its value unless the ring is full. */
  lemma PushCompletes<V>(capacity: nat, slots: seq<V>, before: seq<Step<V>>, v: V)
    requires ValidCapacity(capacity) && |slots| == capacity
    ensures var r := Exec(Init(capacity, slots), before);
            r.producer.Idle? ==>
              var after := Exec(r, PushSteps(v));
              && after.producer.Idle? && after.popped == r.popped
              && after.pushed == if |r.pushed| - |r.popped| < capacity then r.pushed + [v] else r.pushed
  {
    var r := Exec(Init(capacity, slots), before);
    Reachable(capacity, slots, before);
    WrappedDifference(|r.pushed|, |r.popped|);
    if r.producer.Idle? {
      ExecFive(r, PushSteps(v));
    }
  }

  lemma PopEnds<V>(r: Ring<V>)
    requires Inv(r) && r.consumer.Idle?
    ensures var after := Exec(r, PopSteps());
            && after.consumer.Idle? && after.pushed == r.pushed
            && |after.popped| == |r.popped| + if |r.popped| < |r.pushed| then 1 else 0
  {
    SameWord(|r.pushed|, |r.popped|);
    ExecFive(r, PopSteps());
    assert |r.slots| == r.capacity && r.tail % r.capacity < r.capacity;
  }

  /** After any run, a pop taken to its end takes the oldest value not popped, if there is one. */
  lemma PopCompletes<V>(capacity: nat, slots: seq<V>, before: seq<Step<V>>)
    requires ValidCapacity(capacity) && |slots| == capacity
    ensures var r := Exec(Init(capacity, slots), before);
            r.consumer.Idle? ==>
              var after := Exec(r, PopSteps());
              && after.consumer.Idle? && after.pushed == r.pushed
              && after.popped == if |r.popped| < |r.pushed| then r.popped + [r.pushed[|r.popped|]] else r.popped
  {
    var r := Exec(Init(capacity, slots), before);
    Reachable(capacity, slots, before);
    if r.consumer.Idle? {
      PopEnds(r);
      var after := Exec(r, PopSteps());
      ExecKeepsInv(r, PopSteps());
      assert after.popped == r.pushed[..|after.popped|] && r.popped == r.pushed[..|r.popped|];
    }
  }

  /** One push and one pop between the two loads on an empty ring: `pending` returns 2^32 - 1. */
  lemma OnlookerMayWrap<V>(capacity: nat, slots: seq<V>, v: V)
    requires ValidCapacity(capacity) && |slots| == capacity
    ensures var first := Init(capacity, slots);
            var second := Exec(first, PushSteps(v) + PopSteps());
            second.popped == [v] && Pending(first, second) == WORD - 1 > capacity
  {
    var first := Init(capacity, slots);
    ExecFive(first, PushSteps(v));
    ExecFive(Exec(first, PushSteps(v)), PopSteps());
    ExecJoin(first, PushSteps(v), PopSteps());
  }
}
