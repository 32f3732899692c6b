/** Whole runs on a frame's byte slot against runs on a plain map. */
module FrameRuns {
  import opened Machine
  import opened OpenAddressing
  import opened FrameModel
  import opened FrameBytes
  import opened FrameSizing
  import opened HashSlotFrame
  import opened HashFrameUpsert

  datatype Op = Put(field: Bytes, value: Bytes) | Drop(field: Bytes) | Read(field: Bytes) | Count | Squeeze

  datatype Reply =
    | Stored(isNew: bool) | Refused | Dropped(was: bool) | Got(value: Option<Bytes>) | Counted(n: nat) | Unit

  type Map = map<Bytes, Bytes>

  /** The map after an operation that got this reply. */
  function After(m: Map, op: Op, reply: Reply): Map {
    match op
    case Put(field, value) => if reply.Stored? then m[field := value] else m
    case Drop(field) => m - {field}
    case _ => m
  }

  /** The reply of a frame with the map `m`; a put is refused exactly when the pair does not fit. */
  ghost predicate Right(m: Map, fits: bool, op: Op, reply: Reply) {
    match op
    case Put(field, _) => reply == if fits then Stored(field !in m) else Refused
    case Drop(field) => reply == Dropped(field in m)
    case Read(field) => reply == Got(if field in m then Some(m[field]) else None)
    case Count => reply == Counted(|m|)
    case Squeeze => reply == Unit
  }

  ghost predicate HasRoom(f: Frame, op: Op) {
    op.Put? && |f.dir| > 0 && Fits(f, op.field, op.value)
  }

  /** The one operation that breaks a frame: putting an empty field for which there is room. */
  ghost predicate Spoils(f: Frame, op: Op) {
    HasRoom(f, op) && op.field == []
  }

  /** A step that keeps the frame intact. */
  ghost predicate Good(f: Frame, g: Frame, op: Op, reply: Reply) {
    !Spoils(f, op) && Right(Pairs(f), HasRoom(f, op), op, reply) && Pairs(g) == After(Pairs(f), op, reply)
  }

  /** The frames before each operation and after the last: all intact, each reply right, each step the map's. */
  ghost predicate Trace(frames: seq<Frame>, ops: seq<Op>, replies: seq<Reply>, hash: Bytes -> u32) {
    && |replies| <= |ops| && |frames| == |replies| + 1
    && (forall i :: 0 <= i < |frames| ==> Ok(frames[i], hash))
    && forall i {:trigger replies[i]} :: 0 <= i < |replies| ==> Good(frames[i], frames[i + 1], ops[i], replies[i])
  }

  /** The slot holds the last of the frames. */
  ghost predicate Running(s: Bytes, frames: seq<Frame>, ops: seq<Op>, replies: seq<Reply>, hash: Bytes -> u32) {
    Trace(frames, ops, replies, hash) && Holds(s, hash) && View(s) == frames[|replies|]
  }

  lemma RunningStep(
    s: Bytes, t: Bytes, frames: seq<Frame>, ops: seq<Op>, replies: seq<Reply>, reply: Reply, hash: Bytes -> u32)
    requires Running(s, frames, ops, replies, hash) && |replies| < |ops|
    requires Holds(t, hash) && Good(View(s), View(t), ops[|replies|], reply)
    ensures Running(t, frames + [View(t)], ops, replies + [reply], hash)
  {
  }

  /** One operation on the slot. */
  method Step(slot: array<u8>, op: Op, hash: Bytes -> u32) returns (reply: Reply)
    requires Holds(slot[..], hash)
    modifies slot
    ensures old(Spoils(View(slot[..]), op)) ==>
              reply == Stored(true) && SpoiledSlot(old(View(slot[..])), slot[..], hash)
    ensures !old(Spoils(View(slot[..]), op)) ==>
              Holds(slot[..], hash) && Good(old(View(slot[..])), View(slot[..]), op, reply)
  {
    match op {
      case Put(field, value) =>
        reply := PutStep(slot, field, value, hash);
      case Drop(field) =>
        reply := DropStep(slot, field, hash);
      case Read(field) =>
        HoldsHeader(slot[..], hash);
        var v := Get(slot, field, hash);
        reply := Got(v);
      case Count =>
        var n := LiveCount(slot, hash);
        reply := Counted(n);
      case Squeeze =>
        HoldsHeader(slot[..], hash);
        var compacted := Compact(slot, hash);
        reply := Unit;
    }
  }

  method PutStep(slot: array<u8>, field: Bytes, value: Bytes, hash: Bytes -> u32) returns (reply: Reply)
    requires Holds(slot[..], hash)
    modifies slot
    ensures old(Spoils(View(slot[..]), Put(field, value))) ==>
              reply == Stored(true) && SpoiledSlot(old(View(slot[..])), slot[..], hash)
    ensures !old(Spoils(View(slot[..]), Put(field, value))) ==>
              Holds(slot[..], hash) && Good(old(View(slot[..])), View(slot[..]), Put(field, value), reply)
  {
    HoldsHeader(slot[..], hash);
    var r := Upsert(slot, field, value, hash);
    reply := if r.Success? then Stored(r.value) else Refused;
  }

  method DropStep(slot: array<u8>, field: Bytes, hash: Bytes -> u32) returns (reply: Reply)
    requires Holds(slot[..], hash)
    modifies slot
    ensures Holds(slot[..], hash) && Good(old(View(slot[..])), View(slot[..]), Drop(field), reply)
  {
    HoldsHeader(slot[..], hash);
    var was := Delete(slot, field, hash);
    reply := Dropped(was);
  }

  /** A run from the first of the frames on: to the end of it, or up to the operation that spoils the slot. */
  ghost predicate Ran(s: Bytes, frames: seq<Frame>, ops: seq<Op>, replies: seq<Reply>, hash: Bytes -> u32) {
    && Trace(frames, ops, replies, hash)
    && (|replies| == |ops| ==> Holds(s, hash) && View(s) == frames[|ops|])
    && (|replies| < |ops| ==> Spoils(frames[|replies|], ops[|replies|]) && SpoiledSlot(frames[|replies|], s, hash))
  }

  /**
   Over every run from a fresh frame the bytes stand for the map of what was put and not dropped, and every answer is
   that map's, up to the first empty field for which there is room.  A put is refused exactly when the pair does not
   fit what the frame holds.
   */
  method Run(slot: array<u8>, ops: seq<Op>, hash: Bytes -> u32)
    returns (ready: bool, replies: seq<Reply>, ghost frames: seq<Frame>)
    modifies slot
    ensures ready ==> Ran(slot[..], frames, ops, replies, hash) && Pairs(frames[0]) == map[]
    ensures ready <==> 88 <= slot.Length <= 128 || 168 <= slot.Length <= 4096
  {
    var init := Init(slot, hash);
    ready, replies, frames := init.Success?, [], [];
    if ready {
      replies, frames := RunFrom(slot, ops, hash);
    }
  }

  /** A run from any frame. */
  method RunFrom(slot: array<u8>, ops: seq<Op>, hash: Bytes -> u32)
    returns (replies: seq<Reply>, ghost frames: seq<Frame>)
    requires Holds(slot[..], hash)
    modifies slot
    ensures Ran(slot[..], frames, ops, replies, hash) && frames[0] == old(View(slot[..]))
  {
    replies, frames := [], [View(slot[..])];
    while |replies| < |ops|
      invariant Running(slot[..], frames, ops, replies, hash) && frames[0] == old(View(slot[..]))
    {
      ghost var s := slot[..];
      var op := ops[|replies|];
      var reply := Step(slot, op, hash);
      if op.Put? && op.field == [] && reply.Stored? {
        return;
      }
      RunningStep(s, slot[..], frames, ops, replies, reply, hash);
      frames := frames + [View(slot[..])];
      replies := replies + [reply];
    }
  }

  // ---- What a read sees ----

  /** No operation strictly between the two drops the field or stores it. */
  ghost predicate LeftAlone(ops: seq<Op>, replies: seq<Reply>, i: nat, j: nat, field: Bytes)
    requires j <= |replies| <= |ops|
  {
    forall k :: i < k < j ==> !(ops[k].Drop? && ops[k].field == field)
                              && !(ops[k].Put? && ops[k].field == field && replies[k].Stored?)
  }

  /** The two maps agree on the field. */
  ghost predicate SameAt(m: Map, m': Map, field: Bytes) {
    (field in m' <==> field in m) && (field in m ==> m'[field] == m[field])
  }

  lemma KeptStep(m: Map, op: Op, reply: Reply, field: Bytes)
    requires !(op.Drop? && op.field == field) && !(op.Put? && op.field == field && reply.Stored?)
    ensures SameAt(m, After(m, op, reply), field)
  {
  }

  /** The maps before each operation and after the last. */
  ghost predicate Maps(ms: seq<Map>, ops: seq<Op>, replies: seq<Reply>) {
    && |ms| == |replies| + 1 && |replies| <= |ops|
    && forall k {:trigger replies[k]} :: 0 <= k < |replies| ==> ms[k + 1] == After(ms[k], ops[k], replies[k])
  }

  /** A field left alone keeps its value, or its absence. */
  lemma {:induction false} FieldKept(
    ms: seq<Map>, ops: seq<Op>, replies: seq<Reply>, i: nat, j: nat, field: Bytes)
    requires Maps(ms, ops, replies) && i < j <= |replies| && LeftAlone(ops, replies, i, j, field)
    ensures SameAt(ms[i + 1], ms[j], field)
    decreases j
  {
    if j > i + 1 {
      FieldKept(ms, ops, replies, i, j - 1, field);
      KeptStep(ms[j - 1], ops[j - 1], replies[j - 1], field);
      assert ms[j] == After(ms[j - 1], ops[j - 1], replies[j - 1]);
    }
  }

  lemma TraceMaps(frames: seq<Frame>, ops: seq<Op>, replies: seq<Reply>, hash: Bytes -> u32) returns (ms: seq<Map>)
    requires Trace(frames, ops, replies, hash)
    ensures Maps(ms, ops, replies)
    ensures forall k :: 0 <= k < |frames| ==> ms[k] == Pairs(frames[k])
  {
    ms := seq(|frames|, k requires 0 <= k < |frames| => Pairs(frames[k]));
    forall k | 0 <= k < |replies|
      ensures ms[k + 1] == After(ms[k], ops[k], replies[k])
    {
      assert Good(frames[k], frames[k + 1], ops[k], replies[k]);
    }
  }

  /** In a run a read answers with the last value stored for its field, if the field was not dropped since. */
  lemma ReadSeesLastPut(
    frames: seq<Frame>, ops: seq<Op>, replies: seq<Reply>, hash: Bytes -> u32, i: nat, j: nat, field: Bytes)
    requires Trace(frames, ops, replies, hash) && i < j < |replies| && LeftAlone(ops, replies, i, j, field)
    requires ops[j] == Read(field)
    ensures ops[i].Put? && ops[i].field == field && replies[i].Stored? ==> replies[j] == Got(Some(ops[i].value))
    ensures ops[i] == Drop(field) ==> replies[j] == Got(None)
  {
    var ms := TraceMaps(frames, ops, replies, hash);
    assert ms[i + 1] == After(ms[i], ops[i], replies[i]);
    assert Good(frames[j], frames[j + 1], ops[j], replies[j]);
    FieldKept(ms, ops, replies, i, j, field);
  }

  /** A fresh slot takes a first pair exactly when it leaves room beside header and directory: 40 bytes of 128. */
  method FirstPair(slot: array<u8>, field: Bytes, value: Bytes, hash: Bytes -> u32) returns (r: Result<bool>)
    requires slot.Length in {128, 512, 4096}
    modifies slot
    ensures slot.Length == 128 ==> (r.Success? <==> |field| + |value| <= 40)
    ensures slot.Length == 512 ==> (r.Success? <==> |field| + |value| <= 344)
    ensures slot.Length == 4096 ==> (r.Success? <==> |field| + |value| <= 3768)
    ensures r.Success? ==> r.value
    ensures r.Success? && field != [] ==> Holds(slot[..], hash) && Pairs(View(slot[..])) == map[field := value]
  {
    var _ := Init(slot, hash);
    HoldsHeader(slot[..], hash);
    r := Upsert(slot, field, value, hash);
  }

  /** An empty field put into a fresh 128-byte slot: it counts as stored, and nothing will ever read it. */
  method EmptyFieldIsLost(slot: array<u8>, value: Bytes, hash: Bytes -> u32)
    returns (r: Result<bool>, n: nat, ps: seq<(Bytes, Bytes)>, got: Option<Bytes>)
    requires slot.Length == 128 && HEADER_SIZE + 8 * BUCKET_SIZE + |value| <= 128
    modifies slot
    ensures r == Success(true) && n == 1 && ps == [] && got == None && !Holds(slot[..], hash)
  {
    var init := Init(slot, hash);
    ghost var f := View(slot[..]);
    HoldsHeader(slot[..], hash);
    r := Upsert(slot, [], value, hash);
    SpoiledLists(f, slot[..], hash);
    n := LiveCount(slot, hash);
    ps := IterPairs(slot, hash);
    got := Get(slot, [], hash);
  }
}
