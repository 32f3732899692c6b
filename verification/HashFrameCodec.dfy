/** The logical pair list of a hash frame: writing it out and rebuilding a frame from it. */
module HashFrameCodec {
  import opened Machine
  import opened LittleEndian
  import opened OpenAddressing
  import opened FrameModel
  import opened FrameRehash
  import opened FrameBytes
  import opened FrameSizing
  import opened HashSlotFrame
  import opened HashFrameUpsert

  type Pair = (Bytes, Bytes)

  /** Reads one item off the front of some bytes, if they hold a whole one. */
  type ItemReader = Bytes -> Option<(Pair, Bytes)>

  // ---- Format ----

  function Item(p: Pair): Bytes {
    LeBytes(|p.0|, 2) + p.0 + LeBytes(|p.1|, 2) + p.1
  }

  function WriteAll(write: Pair -> Bytes, ps: seq<Pair>): Bytes {
    if ps == [] then [] else write(ps[0]) + WriteAll(write, ps[1..])
  }

  /** `[count: u16] { [field_len: u16][field][val_len: u16][val] } x count`. */
  function EncodeList(ps: seq<Pair>): Bytes {
    LeBytes(|ps|, 2) + WriteAll(Item, ps)
  }

  /** One item and the bytes after it, or nothing if the bytes end inside it. */
  function ParseItem(s: Bytes): (r: Option<(Pair, Bytes)>)
    ensures r.Some? ==> |r.value.1| < |s|
  {
    if |s| < 2 then None else
    var fLen := U16Of(s[..2]);
    if |s| < 2 + fLen + 2 then None else
    var vLen := U16Of(s[2 + fLen..2 + fLen + 2]);
    if |s| < 2 + fLen + 2 + vLen then None else
    Some(((s[2..2 + fLen], s[2 + fLen + 2..2 + fLen + 2 + vLen]), s[2 + fLen + 2 + vLen..]))
  }

  /** The items read before the count is reached or the bytes run out. */
  function ReadItems(read: ItemReader, s: Bytes, count: nat): (ps: seq<Pair>)
    ensures |ps| <= count
    decreases count
  {
    if count == 0 then []
    else match read(s)
      case None => []
      case Some((p, rest)) => [p] + ReadItems(read, rest, count - 1)
  }

  predicate Encodable(ps: seq<Pair>) {
    |ps| < 0x1_0000 && forall i :: 0 <= i < |ps| ==> |ps[i].0| < 0x1_0000 && |ps[i].1| < 0x1_0000
  }

  lemma ParseItemEncoded(p: Pair, rest: Bytes)
    requires |p.0| < 0x1_0000 && |p.1| < 0x1_0000
    ensures ParseItem(Item(p) + rest) == Some((p, rest))
  {
    var s := Item(p) + rest;
    var n := |p.0|;
    Pow256Values();
    LeRoundTrip(|p.0|, 2);
    LeRoundTrip(|p.1|, 2);
    assert s[..2] == LeBytes(|p.0|, 2);
    assert s[2..2 + n] == p.0;
    assert s[2 + n..2 + n + 2] == LeBytes(|p.1|, 2);
    assert s[2 + n + 2..2 + n + 2 + |p.1|] == p.1;
    assert s[2 + n + 2 + |p.1|..] == rest;
  }

  /** Reading back a written list gives the list, whatever follows it. */
  lemma {:induction false} ReadWritten(write: Pair -> Bytes, read: ItemReader, ps: seq<Pair>, rest: Bytes)
    requires forall i, tail {:trigger write(ps[i]) + tail} :: 0 <= i < |ps| ==>
               read(write(ps[i]) + tail) == Some((ps[i], tail))
    ensures ReadItems(read, WriteAll(write, ps) + rest, |ps|) == ps
  {
    if ps == [] {
    } else {
      var tail := WriteAll(write, ps[1..]) + rest;
      assert WriteAll(write, ps) + rest == write(ps[0]) + tail;
      forall i, t | 0 <= i < |ps[1..]|
        ensures read(write(ps[1..][i]) + t) == Some((ps[1..][i], t))
      {
        assert ps[1..][i] == ps[i + 1];
        assert read(write(ps[i + 1]) + t) == Some((ps[i + 1], t));
      }
      ReadWritten(write, read, ps[1..], rest);
      assert read(write(ps[0]) + tail) == Some((ps[0], tail));
    }
  }

  lemma ParseListEncoded(ps: seq<Pair>)
    requires Encodable(ps)
    ensures |EncodeList(ps)| >= 2 && U16Of(EncodeList(ps)[..2]) == |ps|
    ensures ReadItems(ParseItem, EncodeList(ps)[2..], |ps|) == ps
  {
    Pow256Values();
    LeRoundTrip(|ps|, 2);
    assert EncodeList(ps)[..2] == LeBytes(|ps|, 2);
    forall i, tail | 0 <= i < |ps|
      ensures ParseItem(Item(ps[i]) + tail) == Some((ps[i], tail))
    {
      ParseItemEncoded(ps[i], tail);
    }
    ReadWritten(Item, ParseItem, ps, []);
    assert EncodeList(ps)[2..] == WriteAll(Item, ps) + [];
  }

  // ---- Writing ----

  lemma {:induction false} WriteAllAppend(write: Pair -> Bytes, ps: seq<Pair>, p: Pair)
    ensures WriteAll(write, ps + [p]) == WriteAll(write, ps) + write(p)
  {
    if ps == [] {
      assert [p][1..] == [];
    } else {
      WriteAllAppend(write, ps[1..], p);
      assert (ps + [p])[1..] == ps[1..] + [p];
    }
  }

  method WriteItems(write: Pair -> Bytes, ps: seq<Pair>) returns (out: Bytes)
    ensures out == WriteAll(write, ps)
  {
    out := [];
    for i := 0 to |ps|
      invariant out == WriteAll(write, ps[..i])
    {
      WriteAllAppend(write, ps[..i], ps[i]);
      assert ps[..i + 1] == ps[..i] + [ps[i]];
      out := out + write(ps[i]);
    }
    assert ps[..|ps|] == ps;
  }

  /** `encode_pairs`, without the bytes already in the output buffer: the count and what the slot lists. */
  method EncodePairs(slot: array<u8>, ghost hash: Bytes -> u32) returns (out: Bytes)
    ensures out == LeBytes(LiveIn(slot[..]), 2) + WriteAll(Item, Listed(slot[..]))
    ensures !HeaderOk(slot[..]) ==> out == EncodeList([])
    ensures Holds(slot[..], hash) ==> IsListing(View(slot[..]), Listed(slot[..])) && out == EncodeList(Listed(slot[..]))
  {
    ListedIs(slot[..], hash);
    CountIsListed(slot[..], hash);
    var live := LiveCount(slot, hash);
    var ps := IterPairs(slot, hash);
    var items := WriteItems(Item, ps);
    out := LeBytes(live, 2) + items;
  }

  lemma CountIsListed(s: Bytes, hash: Bytes -> u32)
    ensures Holds(s, hash) ==> LiveIn(s) == |Listed(s)|
  {
    if Holds(s, hash) {
      HoldsHeader(s, hash);
      ListedIs(s, hash);
    }
  }

  lemma {:induction false} SumPairsBounds(ps: seq<Pair>, i: nat)
    requires i < |ps|
    ensures |ps[i].0| + |ps[i].1| <= SumPairs(ps)
  {
    if i < |ps| - 1 {
      SumPairsBounds(ps[..|ps| - 1], i);
    }
  }

  lemma ListingEncodable(f: Frame, ps: seq<Pair>, hash: Bytes -> u32)
    requires Ok(f, hash) && IsListing(f, ps)
    ensures Encodable(ps)
  {
    forall i | 0 <= i < |ps|
      ensures |ps[i].0| < 0x1_0000 && |ps[i].1| < 0x1_0000
    {
      SumPairsBounds(ps, i);
    }
  }

  // ---- Rebuilding ----

  /** The pairs an encoded list holds, and whether it holds as many as it announces. */
  function ListedIn(encoded: Bytes): seq<Pair> {
    if |encoded| < 2 then [] else ReadItems(ParseItem, encoded[2..], U16Of(encoded[..2]))
  }

  predicate Complete(encoded: Bytes) {
    |encoded| >= 2 && |ListedIn(encoded)| == U16Of(encoded[..2])
  }

  /** The index of the first pair with an empty field, or the length if there is none. */
  function FirstEmpty(ps: seq<Pair>): (e: nat)
    ensures e <= |ps| && NonEmptyFields(ps[..e]) && (e < |ps| ==> ps[e].0 == [])
  {
    if ps == [] || ps[0].0 == [] then 0 else
    assert ps[1..][..FirstEmpty(ps[1..])] == ps[1..FirstEmpty(ps[1..]) + 1];
    FirstEmpty(ps[1..]) + 1
  }

  /** The pairs up to and including the first with an empty field. */
  function Reached(ps: seq<Pair>): seq<Pair> {
    if FirstEmpty(ps) < |ps| then ps[..FirstEmpty(ps) + 1] else ps
  }

  /** How a build ends: with a result, or at a pair whose empty field was stored and spoiled the frame. */
  datatype Build = Finished(result: Result<()>) | Spoiling(at: nat) {
    predicate Built() { Finished? && result.Success? }
  }

  /** The frame that was to hold `m` is damaged: its header is accepted, it lists `m` and counts one pair more. */
  ghost predicate SpoiledFrom(s: Bytes, m: map<Bytes, Bytes>, hash: Bytes -> u32) {
    HeaderOk(s) && !Holds(s, hash) && MapOfPairs(Listed(s)) == m && LiveIn(s) == |Listed(s)| + 1
  }

  /**
   `build_from_pairs`: the frame is reset and every listed pair upserted in turn, later pairs
   overriding earlier ones.  With distinct fields no upsert is refused exactly when the pairs, the header
   and the least directory fit the slot.
   */
  method BuildFromPairs(slot: array<u8>, encoded: Bytes, hash: Bytes -> u32) returns (r: Build)
    modifies slot
    ensures var ps := ListedIn(encoded); BuildIs(slot[..], Complete(encoded), ps, FirstEmpty(ps), Reached(ps), r, hash)
  {
    if |encoded| < 2 {
      return Finished(Failure(CorruptFrame));
    }
    ghost var ps := ListedIn(encoded);
    ghost var e, cut := FirstEmpty(ps), Reached(ps);
    CutIs(ps);
    NeededMonotone(slot.Length, cut, 0);
    var init := Init(slot, hash);
    if init.Failure? {
      return Finished(init);
    }
    BuildingStart(slot[..], cut, hash);
    ghost var tails := ReadChain(ParseItem, encoded[2..], U16Of(encoded[..2]));
    r := BuildAll(slot, encoded[2..], U16Of(encoded[..2]), ParseItem, ps, e, cut, tails, hash);
    BuildEnded(slot[..], ps, e, cut, U16Of(encoded[..2]), r, hash);
  }

  /**
   A build succeeds only with the whole list in the slot.  It leaves the frame spoiled only at the first empty field.
   With distinct fields up to there, it does one or the other exactly when everything up to there fits.
   Whatever the fields, a build that fails in a slot that can hold a frame leaves the pairs before the one it failed at.
   */
  ghost predicate BuildIs(s: Bytes, complete: bool, ps: seq<Pair>, e: nat, cut: seq<Pair>, r: Build, hash: Bytes -> u32)
    requires e <= |ps|
  {
    && (r.Built() ==> complete && e == |ps| && Holds(s, hash) && Pairs(View(s)) == MapOfPairs(ps))
    && (r.Spoiling? ==> r.at == e < |ps| && SpoiledFrom(s, MapOfPairs(ps[..e]), hash))
    && ((complete || e < |ps|) && DistinctKeys(cut) ==>
          (r.Built() || r.Spoiling? <==> 64 <= |s| <= MAX_SLOT_CAPACITY && NeededFor(|s|, cut) <= |s|))
    && (!r.Built() && !r.Spoiling? ==>
          Unusable(|s|) || (ps == [] && !complete && r.result.error.CorruptFrame?)
          || Stopped(s, complete, ps, r.result.error, hash))
  }

  ghost predicate Stopped(s: Bytes, complete: bool, ps: seq<Pair>, error: FrameError, hash: Bytes -> u32) {
    exists j :: StoppedAt(s, complete, ps, j, error, hash)
  }

  /** No frame can be laid out in a slot of this length. */
  predicate Unusable(cap: nat) {
    !(64 <= cap <= MAX_SLOT_CAPACITY) || HEADER_SIZE + BUCKET_SIZE * DefaultK(cap) > cap
  }

  /** There is no room for the pair in a frame of that size that holds `m`. */
  ghost predicate TooFull(cap: nat, m: map<Bytes, Bytes>, p: Pair, hash: Bytes -> u32) {
    exists f :: Ok(f, hash) && f.Cap() == cap && Pairs(f) == m && !Fits(f, p.0, p.1)
  }

  /** The build failed at item `j`, with the pairs before it in the slot: the item is cut short, or does not fit. */
  ghost predicate StoppedAt(s: Bytes, complete: bool, ps: seq<Pair>, j: nat, error: FrameError, hash: Bytes -> u32) {
    && j <= |ps| && Holds(s, hash) && Pairs(View(s)) == MapOfPairs(ps[..j])
    && if j == |ps| then !complete && error.CorruptFrame?
       else error.FrameFull? && TooFull(|s|, MapOfPairs(ps[..j]), ps[j], hash)
  }

  lemma BuildEnded(s: Bytes, ps: seq<Pair>, e: nat, cut: seq<Pair>, count: nat, r: Build, hash: Bytes -> u32)
    requires 64 <= |s| <= MAX_SLOT_CAPACITY && CutAt(ps, e, cut) && BuiltAll(s, ps, e, cut, count, r, hash)
    ensures BuildIs(s, |ps| == count, ps, e, cut, r, hash)
  {
    if r.Built() {
      BuildingDone(s, ps, hash);
    }
  }

  lemma BuildingStart(s: Bytes, ps: seq<Pair>, hash: Bytes -> u32)
    requires Holds(s, hash) && Pairs(View(s)) == map[] && View(s).live == 0 && View(s).dead == 0
    requires LiveBytes(View(s).dir) == 0 && |View(s).dir| == DefaultK(|s|)
    ensures Building(s, ps, 0, hash)
  {
    assert ps[..0] == [];
  }

  /** How far a build has come, as a value; the loop need not look inside. */
  type Progress = (Bytes, nat) -> bool

  ghost predicate Tracks(good: Progress, ps: seq<Pair>, hash: Bytes -> u32) {
    forall s, j {:trigger TracksAt(good, ps, hash, s, j)} :: TracksAt(good, ps, hash, s, j)
  }

  ghost predicate TracksAt(good: Progress, ps: seq<Pair>, hash: Bytes -> u32, s: Bytes, j: nat) {
    good(s, j) <==> j <= |ps| && Building(s, ps, j, hash)
  }

  lemma MakeProgress(ps: seq<Pair>, hash: Bytes -> u32) returns (good: Progress)
    ensures Tracks(good, ps, hash)
  {
    good := (s: Bytes, j: nat) => j <= |ps| && Building(s, ps, j, hash);
    forall s, j
      ensures TracksAt(good, ps, hash, s, j)
    {
    }
  }

  /** `e` is the first pair of the list with an empty field and `cut` the list up to it. */
  ghost predicate CutAt(ps: seq<Pair>, e: nat, cut: seq<Pair>) {
    && e <= |ps| && NonEmptyFields(ps[..e])
    && (if e < |ps| then ps[e].0 == [] && cut == ps[..e + 1] else cut == ps)
  }

  lemma CutIs(ps: seq<Pair>)
    ensures CutAt(ps, FirstEmpty(ps), Reached(ps))
  {
  }

  lemma CutEnds(ps: seq<Pair>, e: nat, cut: seq<Pair>, j: nat)
    requires CutAt(ps, e, cut) && j <= e && j < |ps| && ps[j].0 == []
    ensures j == e && cut[..j] == ps[..j] && cut[..j + 1] == cut
  {
  }

  lemma CutBefore(ps: seq<Pair>, e: nat, cut: seq<Pair>, j: nat)
    requires CutAt(ps, e, cut) && j <= e
    ensures j <= |cut| && cut[..j] == ps[..j]
  {
  }

  lemma CutAgrees(ps: seq<Pair>, e: nat, cut: seq<Pair>, j: nat)
    requires CutAt(ps, e, cut) && j <= e && j < |ps|
    ensures j < |cut| && cut[j] == ps[j]
  {
  }

  /** Why a build fails: the bytes end too early, or the frame is full. */
  ghost predicate Refuses(cap: nat, ps: seq<Pair>, e: nat, cut: seq<Pair>, count: nat) {
    (e == |ps| && |ps| < count) || !DistinctKeys(cut) || NeededFor(cap, cut) > cap
  }

  ghost predicate SpoiledAt(s: Bytes, ps: seq<Pair>, e: nat, cut: seq<Pair>, hash: Bytes -> u32) {
    && e < |ps| && SpoiledFrom(s, MapOfPairs(ps[..e]), hash)
    && (DistinctKeys(cut) ==> NeededFor(|s|, cut) <= |s|)
  }

  ghost predicate BuiltAll(s: Bytes, ps: seq<Pair>, e: nat, cut: seq<Pair>, count: nat, r: Build, hash: Bytes -> u32) {
    && (r.Built() ==> |ps| == count && e == |ps| && cut == ps && Building(s, ps, |ps|, hash))
    && (r.Spoiling? ==> r.at == e && SpoiledAt(s, ps, e, cut, hash))
    && (!r.Built() && !r.Spoiling? ==>
          Refuses(|s|, ps, e, cut, count) && Stopped(s, |ps| == count, ps, r.result.error, hash))
  }

  /** From a fresh frame to one that holds the whole list. */
  method BuildAll(slot: array<u8>, encoded: Bytes, count: nat, read: ItemReader,
                  ghost ps: seq<Pair>, ghost e: nat, ghost cut: seq<Pair>, ghost tails: seq<Bytes>, hash: Bytes -> u32)
    returns (r: Build)
    requires |ps| <= count && Chain(read, ps, tails, count) && tails[0] == encoded && CutAt(ps, e, cut)
    requires Building(slot[..], cut, 0, hash)
    modifies slot
    ensures BuiltAll(slot[..], ps, e, cut, count, r, hash)
  {
    ghost var good := MakeProgress(cut, hash);
    assert TracksAt(good, cut, hash, slot[..], 0);
    r := UpsertAll(slot, encoded, count, read, ps, e, cut, tails, good, hash);
    if r.Built() {
      assert TracksAt(good, cut, hash, slot[..], |ps|);
    }
  }

  /** The loop of `build_from_pairs` over a fresh frame. */
  method UpsertAll(slot: array<u8>, encoded: Bytes, count: nat, read: ItemReader,
                   ghost ps: seq<Pair>, ghost e: nat, ghost cut: seq<Pair>, ghost tails: seq<Bytes>,
                   ghost good: Progress, hash: Bytes -> u32)
    returns (r: Build)
    requires |ps| <= count && Chain(read, ps, tails, count) && tails[0] == encoded && CutAt(ps, e, cut)
    requires Tracks(good, cut, hash) && good(slot[..], 0)
    modifies slot
    ensures r.Built() ==> |ps| == count && e == |ps| && good(slot[..], |ps|)
    ensures !r.Built() && !r.Spoiling? ==> Refuses(slot.Length, ps, e, cut, count)
    ensures !r.Built() && !r.Spoiling? ==> Stopped(slot[..], |ps| == count, ps, r.result.error, hash)
    ensures r.Spoiling? ==> r.at == e && SpoiledAt(slot[..], ps, e, cut, hash)
  {
    var rest := encoded;
    var j := 0;
    while j < count
      invariant 0 <= j <= e && rest == tails[j] && good(slot[..], j)
    {
      var step := BuildStep(slot, rest, count, read, ps, e, cut, tails, good, j, hash);
      match step {
        case Failure(error) => return Finished(Failure(error));
        case Success(None) => return Spoiling(j);
        case Success(Some(next)) => rest := next;
      }
      j := j + 1;
    }
    return Finished(Success(()));
  }

  /** One round of the loop: read an item, upsert it; nothing is left to follow once the frame is spoiled. */
  method BuildStep(slot: array<u8>, rest: Bytes, ghost count: nat, read: ItemReader,
                   ghost ps: seq<Pair>, ghost e: nat, ghost cut: seq<Pair>, ghost tails: seq<Bytes>,
                   ghost good: Progress, ghost j: nat, hash: Bytes -> u32)
    returns (r: Result<Option<Bytes>>)
    requires CutAt(ps, e, cut) && j <= e && j < count && Chain(read, ps, tails, count) && rest == tails[j]
    requires Tracks(good, cut, hash) && good(slot[..], j)
    modifies slot
    ensures r.Success? && r.value.Some? ==> j < e && r.value.value == tails[j + 1] && good(slot[..], j + 1)
    ensures r.Success? && r.value.None? ==> j == e && SpoiledAt(slot[..], ps, e, cut, hash)
    ensures r.Failure? ==> Refuses(slot.Length, ps, e, cut, count)
    ensures r.Failure? ==> StoppedAt(slot[..], |ps| == count, ps, j, r.error, hash)
  {
    var item := read(rest);
    assert TracksAt(good, cut, hash, slot[..], j);
    CutBefore(ps, e, cut, j);
    if item.None? {
      return Failure(CorruptFrame);
    }
    var (p, next) := item.value;
    CutAgrees(ps, e, cut, j);
    var u := UpsertListed(slot, p, cut, j, hash);
    if u.Failure? {
      return Failure(u.error);
    }
    if p.0 == [] {
      CutEnds(ps, e, cut, j);
      return Success(None);
    }
    assert TracksAt(good, cut, hash, slot[..], j + 1);
    return Success(Some(next));
  }

  /** `tails[j]` is what is left to read before pair `j`; reading stops at the count or at a broken item. */
  ghost predicate Chain(read: ItemReader, ps: seq<Pair>, tails: seq<Bytes>, count: nat) {
    && |tails| == |ps| + 1 && |ps| <= count
    && (forall j {:trigger tails[j]} :: 0 <= j < |ps| ==> read(tails[j]) == Some((ps[j], tails[j + 1])))
    && (|ps| < count ==> read(tails[|ps|]).None?)
  }

  lemma {:induction false} ReadChain(read: ItemReader, s: Bytes, count: nat) returns (tails: seq<Bytes>)
    ensures Chain(read, ReadItems(read, s, count), tails, count) && tails[0] == s
    decreases count
  {
    if count == 0 || read(s).None? {
      tails := [s];
    } else {
      var rest := ReadChain(read, read(s).value.1, count - 1);
      tails := [s] + rest;
    }
  }

  /** The first `j` pairs of the list have been upserted. */
  ghost predicate Building(s: Bytes, ps: seq<Pair>, j: nat, hash: Bytes -> u32)
    requires j <= |ps|
  {
    && Holds(s, hash) && Pairs(View(s)) == MapOfPairs(ps[..j])
    && (DistinctKeys(ps) ==> Rebuilt(View(s), ps, j))
  }

  lemma BuildingDone(s: Bytes, ps: seq<Pair>, hash: Bytes -> u32)
    requires Building(s, ps, |ps|, hash)
    ensures Pairs(View(s)) == MapOfPairs(ps)
    ensures DistinctKeys(ps) ==> NeededFor(|s|, ps) <= |s|
  {
    assert ps[..|ps|] == ps;
    if DistinctKeys(ps) {
      OwnPairsFit(View(s), ps, hash);
    }
  }

  /** Upsert pair `j` of a list, which may name a field again. */
  method UpsertListed(slot: array<u8>, p: Pair, ghost ps: seq<Pair>, ghost j: nat, hash: Bytes -> u32)
    returns (r: Result<bool>)
    requires j < |ps| && ps[j] == p && Building(slot[..], ps, j, hash)
    modifies slot
    ensures r.Success? && p.0 != [] ==> Building(slot[..], ps, j + 1, hash)
    ensures r.Success? && p.0 == [] ==> SpoiledFrom(slot[..], MapOfPairs(ps[..j]), hash)
    ensures DistinctKeys(ps) ==> (r.Success? <==> NeededFor(slot.Length, ps[..j + 1]) <= slot.Length)
    ensures DistinctKeys(ps) && r.Failure? ==> NeededFor(slot.Length, ps) > slot.Length
    ensures r.Failure? ==> Holds(slot[..], hash) && Pairs(View(slot[..])) == MapOfPairs(ps[..j]) && r.error.FrameFull?
                           && TooFull(slot.Length, MapOfPairs(ps[..j]), p, hash)
  {
    ghost var g := View(slot[..]);
    HoldsHeader(slot[..], hash);
    r := Upsert(slot, p.0, p.1, hash);
    if DistinctKeys(ps) {
      RebuiltFits(g, ps, j);
      NeededMonotone(slot.Length, ps, j + 1);
    }
    if r.Success? {
      if p.0 == [] {
        SpoiledLists(g, slot[..], hash);
      } else {
        BuildingStep(g, slot[..], ps, j, r, hash);
      }
    }
  }

  lemma BuildingStep(g: Frame, s: Bytes, ps: seq<Pair>, j: nat, r: Result<bool>, hash: Bytes -> u32)
    requires j < |ps| && Ok(g, hash) && Pairs(g) == MapOfPairs(ps[..j]) && g.Cap() == |s|
    requires DistinctKeys(ps) ==> Rebuilt(g, ps, j)
    requires Holds(s, hash) && r.Success? && Upserted(g, View(s), ps[j].0, ps[j].1, r)
    ensures Building(s, ps, j + 1, hash)
  {
    assert ps[..j + 1][..j] == ps[..j];
    if DistinctKeys(ps) {
      RebuiltNew(g, ps, j);
      UpsertedLive(g, View(s), ps[j].0, ps[j].1, r, hash);
      RebuiltStep(g, View(s), ps, j, r);
    }
  }

  // ---- Round trip between slab classes ----

  predicate IsSlabClass(cap: nat) {
    cap == 128 || cap == 512 || cap == 4096
  }

  lemma LargerClassFits(f: Frame, ps: seq<Pair>, cap: nat, hash: Bytes -> u32)
    requires Ok(f, hash) && IsListing(f, ps) && IsSlabClass(f.Cap()) && IsSlabClass(cap) && f.Cap() <= cap
    ensures NeededFor(cap, ps) <= cap
  {
    var k := DefaultK(cap);
    if k <= |f.dir| {
      GrowToLeast(k, f.live, |f.dir|);
    }
  }

  lemma NoneEmpty(ps: seq<Pair>)
    requires NonEmptyFields(ps)
    ensures FirstEmpty(ps) == |ps| && Reached(ps) == ps
  {
  }

  /** A frame written out and rebuilt in an equal or larger slab class is the same map. */
  method EncodeThenBuild(source: array<u8>, target: array<u8>, hash: Bytes -> u32) returns (r: Build)
    requires Holds(source[..], hash) && source != target
    requires IsSlabClass(source.Length) && IsSlabClass(target.Length) && source.Length <= target.Length
    modifies target
    ensures r.Built() && Holds(target[..], hash)
    ensures Pairs(View(target[..])) == Pairs(View(source[..]))
  {
    var out := EncodePairs(source, hash);
    ghost var f := View(source[..]);
    ghost var ps := Listed(source[..]);
    ListingEncodable(f, ps, hash);
    ParseListEncoded(ps);
    NoneEmpty(ps);
    LargerClassFits(f, ps, target.Length, hash);
    r := BuildFromPairs(target, out, hash);
  }
}
