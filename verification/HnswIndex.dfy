/** The vector index: keyed nodes over the layered graph, and the search that filters what the beam finds. */
module HnswIndices {
  import opened Machine
  import opened HnswSearch
  import opened HnswGraphs

  /** A stored entry; its vector is known only through distances. */
  datatype Node = Node(key: Bytes, payload: Option<Bytes>, expireAt: u32)

  datatype VectorError = EmptyKey | DimensionMismatch | InvalidTopK | InvalidThreshold

  datatype Hit = Hit(key: Bytes, similarity: real, payload: Option<Bytes>)

  function Liveness(nodes: seq<Option<Node>>): (live: seq<bool>)
    ensures |live| == |nodes| && forall i :: 0 <= i < |nodes| ==> live[i] == nodes[i].Some?
  {
    seq(|nodes|, i requires 0 <= i < |nodes| => nodes[i].Some?)
  }

  /** Seconds at which an entry expires, in wrapping arithmetic; 0 is never. */
  function ExpireAt(ttl: Option<u32>, now: u32): (at: u32)
    ensures ttl.None? ==> at == 0
    ensures ttl.Some? && now == 0 ==> at == ttl.value
    ensures ttl.Some? && now > 0 ==> at == now + ttl.value || at == now + ttl.value - 0x1_0000_0000
  {
    match ttl
    case None => 0
    case Some(s) => if now > 0 then (now + s) % 0x1_0000_0000 else s
  }

  predicate Expired(n: Node, now: u32)
    ensures Expired(n, now) <==> !(n.expireAt == 0 || now == 0 || now < n.expireAt)
  {
    n.expireAt > 0 && now > 0 && now >= n.expireAt
  }

  // ---- Keys ----

  predicate StoredAt(nodes: seq<Option<Node>>, id: nat, key: Bytes) {
    id < |nodes| && nodes[id].Some? && nodes[id].value.key == key
  }

  /** The key map names the node of each key, and every node that is left is named. */
  ghost predicate Keyed(nodes: seq<Option<Node>>, keyMap: map<Bytes, nat>) {
    && (forall k :: k in keyMap ==> StoredAt(nodes, keyMap[k], k))
    && (forall i :: 0 <= i < |nodes| && nodes[i].Some? ==>
          nodes[i].value.key in keyMap && keyMap[nodes[i].value.key] == i)
  }

  /** What the index holds. */
  ghost function Entries(nodes: seq<Option<Node>>, keyMap: map<Bytes, nat>): map<Bytes, Node>
    requires Keyed(nodes, keyMap)
  {
    map k | k in keyMap :: nodes[keyMap[k]].value
  }

  lemma KeyAdded(nodes: seq<Option<Node>>, keyMap: map<Bytes, nat>, n: Node)
    requires Keyed(nodes, keyMap) && n.key !in keyMap
    ensures Keyed(nodes + [Some(n)], keyMap[n.key := |nodes|])
    ensures Entries(nodes + [Some(n)], keyMap[n.key := |nodes|]) == Entries(nodes, keyMap)[n.key := n]
    ensures Liveness(nodes + [Some(n)]) == Liveness(nodes) + [true]
  {
  }

  lemma KeyUpdated(nodes: seq<Option<Node>>, keyMap: map<Bytes, nat>, n: Node)
    requires Keyed(nodes, keyMap) && n.key in keyMap
    ensures var after := nodes[keyMap[n.key] := Some(n)];
            Keyed(after, keyMap) && Entries(after, keyMap) == Entries(nodes, keyMap)[n.key := n]
            && Liveness(after) == Liveness(nodes)
  {
  }

  lemma KeyDropped(nodes: seq<Option<Node>>, keyMap: map<Bytes, nat>, key: Bytes)
    requires Keyed(nodes, keyMap) && key in keyMap
    ensures var after := nodes[keyMap[key] := None];
            Keyed(after, keyMap - {key}) && Entries(after, keyMap - {key}) == Entries(nodes, keyMap) - {key}
            && Liveness(after) == Liveness(nodes)[keyMap[key] := false]
  {
  }

  // ---- Filtering what the beam found ----

  /** What a search asks of a node beyond its distance. */
  datatype Wanted = Wanted(similarity: real -> real, threshold: real, now: u32)

  predicate Qualifies(nodes: seq<Option<Node>>, dist: Distance, want: Wanted, id: nat) {
    && id < |nodes| && nodes[id].Some? && !Expired(nodes[id].value, want.now)
    && want.similarity(dist(id)) >= want.threshold
  }

  function HitOf(nodes: seq<Option<Node>>, dist: Distance, want: Wanted, id: nat): Hit
    requires Qualifies(nodes, dist, want, id)
  {
    Hit(nodes[id].value.key, want.similarity(dist(id)), nodes[id].value.payload)
  }

  /** Nearer is at least as similar: true of all three metrics. */
  ghost predicate Falling(similarity: real -> real) {
    forall x, y :: x <= y ==> similarity(x) >= similarity(y)
  }

  /** `chosen` are the qualifying members of `beam`, each once and nearest first. */
  ghost predicate Chosen(nodes: seq<Option<Node>>, dist: Distance, want: Wanted, beam: seq<nat>, chosen: seq<nat>) {
    && (forall i :: 0 <= i < |chosen| ==> chosen[i] in beam && Qualifies(nodes, dist, want, chosen[i]))
    && (forall v :: v in beam && Qualifies(nodes, dist, want, v) ==> v in chosen)
    && (forall i, j :: 0 <= i < j < |chosen| ==> chosen[i] != chosen[j] && dist(chosen[i]) <= dist(chosen[j]))
  }

  method Filter(nodes: seq<Option<Node>>, dist: Distance, want: Wanted, beam: seq<nat>) returns (chosen: seq<nat>)
    requires forall i, j :: 0 <= i < j < |beam| ==> beam[i] != beam[j] && dist(beam[i]) <= dist(beam[j])
    ensures Chosen(nodes, dist, want, beam, chosen)
  {
    chosen := [];
    for i := 0 to |beam|
      invariant Chosen(nodes, dist, want, beam[..i], chosen)
    {
      if Qualifies(nodes, dist, want, beam[i]) {
        chosen := chosen + [beam[i]];
      }
      assert beam[..i + 1] == beam[..i] + [beam[i]];
    }
    assert beam[..|beam|] == beam;
  }

  /** A list of hits for `chosen`, cut at `topK`. */
  ghost predicate HitsOf(
    nodes: seq<Option<Node>>, dist: Distance, want: Wanted, topK: nat, chosen: seq<nat>, hits: seq<Hit>)
  {
    && |hits| == (if |chosen| < topK then |chosen| else topK)
    && forall i :: 0 <= i < |hits| ==>
         Qualifies(nodes, dist, want, chosen[i]) && hits[i] == HitOf(nodes, dist, want, chosen[i])
  }

  ghost predicate HitIn(nodes: seq<Option<Node>>, dist: Distance, want: Wanted, beam: seq<nat>, hit: Hit) {
    exists v :: v in beam && Qualifies(nodes, dist, want, v) && hit == HitOf(nodes, dist, want, v)
  }

  /**
   What a search returns of the nodes its beam found: entries that are there, unexpired and similar enough, each key
   once, the most similar first; and one that qualifies is left out only for `topK` at least as similar ones.
   */
  ghost predicate TopHits(
    nodes: seq<Option<Node>>, dist: Distance, want: Wanted, topK: nat, beam: seq<nat>, hits: seq<Hit>)
  {
    && |hits| <= topK
    && (forall i :: 0 <= i < |hits| ==> HitIn(nodes, dist, want, beam, hits[i]))
    && (forall i, j :: 0 <= i < j < |hits| ==> hits[i].key != hits[j].key && hits[i].similarity >= hits[j].similarity)
    && (forall v :: v in beam && Qualifies(nodes, dist, want, v) ==>
          HitOf(nodes, dist, want, v) in hits
          || (|hits| == topK && forall i :: 0 <= i < |hits| ==> hits[i].similarity >= want.similarity(dist(v))))
  }

  lemma HitsAreTop(
    nodes: seq<Option<Node>>, keyMap: map<Bytes, nat>, dist: Distance, want: Wanted, topK: nat, beam: seq<nat>,
    chosen: seq<nat>, hits: seq<Hit>)
    requires Keyed(nodes, keyMap) && Falling(want.similarity)
    requires Chosen(nodes, dist, want, beam, chosen) && HitsOf(nodes, dist, want, topK, chosen, hits)
    ensures TopHits(nodes, dist, want, topK, beam, hits)
  {
    forall v | v in beam && Qualifies(nodes, dist, want, v)
      ensures HitOf(nodes, dist, want, v) in hits
              || (|hits| == topK && forall i :: 0 <= i < |hits| ==> hits[i].similarity >= want.similarity(dist(v)))
    {
      var j :| 0 <= j < |chosen| && chosen[j] == v;
      if j < |hits| {
        assert hits[j] == HitOf(nodes, dist, want, v);
      }
    }
    forall i, j | 0 <= i < j < |hits|
      ensures hits[i].key != hits[j].key && hits[i].similarity >= hits[j].similarity
    {
      KeysDiffer(nodes, keyMap, chosen[i], chosen[j]);
    }
  }

  lemma KeysDiffer(nodes: seq<Option<Node>>, keyMap: map<Bytes, nat>, a: nat, b: nat)
    requires Keyed(nodes, keyMap) && a < |nodes| && b < |nodes| && nodes[a].Some? && nodes[b].Some? && a != b
    ensures nodes[a].value.key != nodes[b].value.key
  {
  }

  // ---- The index ----

  /** The entry point after a node of that level was added: the highest, and the first among equals. */
  function EntryAfter(entry: Option<(nat, nat)>, node: nat, level: nat): Option<(nat, nat)> {
    if entry.None? || level > entry.value.1 then Some((node, level)) else entry
  }

  class HnswIndex {
    var layers: seq<Layer>
    var levels: seq<nat>
    var nodes: seq<Option<Node>>
    var keyMap: map<Bytes, nat>
    var entry: Option<(nat, nat)>
    const dim: nat
    const m: nat
    const efConstruction: nat
    const efSearch: nat

    /** The entry point sits on the highest layer; every layer has its shape; keys and nodes agree. */
    ghost predicate Valid()
      reads this
    {
      && m >= 2 && Shaped(layers, levels, Liveness(nodes), m) && Keyed(nodes, keyMap)
      && (entry.None? ==> layers == [] && levels == [])
      && (entry.Some? ==> entry.value.0 < |levels| && entry.value.1 + 1 == |layers|
                          && levels[entry.value.0] == entry.value.1)
    }

    /** The entries by key. */
    ghost function Contents(): map<Bytes, Node>
      requires Valid()
      reads this
    {
      Entries(nodes, keyMap)
    }

    constructor (dim: nat, m: nat, efConstruction: nat, efSearch: nat)
      ensures Valid() && entry.None? && Contents() == map[]
      ensures this.dim == dim && this.m == (if m < 2 then 2 else m)
      ensures this.efConstruction == efConstruction && this.efSearch == efSearch
    {
      this.dim, this.m, this.efConstruction, this.efSearch := dim, if m < 2 then 2 else m, efConstruction, efSearch;
      layers, levels, nodes, keyMap, entry := [], [], [], map[], None;
    }

    /** `delete`: the entry goes, the links stay. */
    method Delete(key: Bytes) returns (was: bool)
      requires Valid()
      modifies `nodes, `keyMap
      ensures Valid() && was == (key in old(Contents())) && Contents() == old(Contents()) - {key}
      ensures !was ==> nodes == old(nodes)
      ensures was ==> nodes == old(nodes)[old(keyMap)[key] := None]
    {
      if key !in keyMap {
        return false;
      }
      var id := keyMap[key];
      DeadOk(layers, levels, Liveness(nodes), id, m);
      KeyDropped(nodes, keyMap, key);
      nodes, keyMap := nodes[id := None], keyMap - {key};
      return true;
    }

    /** `insert` of a vector of the given length, whose level, if it needs a node, is drawn as `level`. */
    method Insert(key: Bytes, length: nat, payload: Option<Bytes>, ttl: Option<u32>, now: u32,
                  level: nat, dist: Distance, near: Pairwise)
      returns (error: Option<VectorError>)
      requires Valid()
      modifies this
      ensures Valid()
      ensures error == if key == [] then Some(EmptyKey) else if length != dim then Some(DimensionMismatch) else None
      ensures error.Some? ==> unchanged(this)
      ensures error.None? ==> Contents() == old(Contents())[key := Node(key, payload, ExpireAt(ttl, now))]
      ensures error.None? && key in old(keyMap) ==>
                unchanged(`layers, `levels, `keyMap, `entry) && |nodes| == |old(nodes)|
      ensures error.None? && key !in old(keyMap) ==>
                && nodes == old(nodes) + [Some(Node(key, payload, ExpireAt(ttl, now)))]
                && levels == old(levels) + [level]
                && InsertedInto(old(layers), layers, dist, efConstruction, near, Liveness(old(nodes)), m, |old(nodes)|,
                                level)
                && entry == EntryAfter(old(entry), |old(nodes)|, level)
      ensures error.None? && key !in old(keyMap) ==>
                forall l :: 0 <= l < |old(layers)| && l <= level ==>
                  WellLinked(old(layers)[l], layers[l], dist, efConstruction, near, if l == 0 then 2 * m else m,
                             |old(nodes)|)
    {
      if key == [] {
        return Some(EmptyKey);
      }
      if length != dim {
        return Some(DimensionMismatch);
      }
      var node := Node(key, payload, ExpireAt(ttl, now));
      if key in keyMap {
        KeyUpdated(nodes, keyMap, node);
        nodes := nodes[keyMap[key] := Some(node)];
        return None;
      }
      InsertNode(node, level, dist, near);
      return None;
    }

    /**
     A new node enters layers 0 to `level`, linked in those that existed, and becomes the entry point if it is higher
     than all others.
     */
    method InsertNode(node: Node, level: nat, dist: Distance, near: Pairwise)
      requires Valid() && node.key !in keyMap
      modifies this
      ensures Valid() && Contents() == old(Contents())[node.key := node]
      ensures nodes == old(nodes) + [Some(node)] && levels == old(levels) + [level]
      ensures InsertedInto(old(layers), layers, dist, efConstruction, near, Liveness(old(nodes)), m, |old(nodes)|,
                           level)
      ensures entry == EntryAfter(old(entry), |old(nodes)|, level)
      ensures forall l :: 0 <= l < |old(layers)| && l <= level ==>
                WellLinked(old(layers)[l], layers[l], dist, efConstruction, near, if l == 0 then 2 * m else m,
                           |old(nodes)|)
    {
      ghost var layers0, levels0, nodes0 := layers, levels, nodes;
      PlaceNode(node, level, dist, near);
      KeyAdded(nodes0, old(keyMap), node);
      InsertedWellLinked(layers0, levels0, Liveness(nodes0), layers, dist, efConstruction, near, m, level);
    }

    method PlaceNode(node: Node, level: nat, dist: Distance, near: Pairwise)
      requires Valid() && node.key !in keyMap
      modifies this
      ensures Valid() && Contents() == old(Contents())[node.key := node]
      ensures nodes == old(nodes) + [Some(node)] && levels == old(levels) + [level]
      ensures InsertedInto(old(layers), layers, dist, efConstruction, near, Liveness(old(nodes)), m, |old(nodes)|,
                           level)
      ensures entry == EntryAfter(old(entry), |old(nodes)|, level)
    {
      var live := Liveness(nodes);
      var padded := Pad(layers, level, levels, live, m);
      var linked, start: int := padded, -1;
      if entry.Some? {
        var (top, topLevel) := entry.value;
        linked, start := LinkFrom(padded, dist, near, live, levels, efConstruction, m, top, topLevel, level);
      }
      var after := EnterAlone(linked, |levels|, start + 1, level);
      InsertedOk(padded, linked, after, levels, live, m, near, dist, efConstruction, level, start);
      KeyAdded(nodes, keyMap, node);
      if entry.None? || level > entry.value.1 {
        entry := Some((|levels|, level));
      }
      layers, levels, nodes, keyMap := after, levels + [level], nodes + [Some(node)], keyMap[node.key := |nodes|];
    }

    /**
     `search`: the nodes of the beam that are left, unexpired and similar enough, the most similar first.  The list is
     in that order already, so the stable sort at the end of the original changes nothing.
     */
    method Search(length: nat, topK: nat, ef: Option<nat>, want: Wanted, dist: Distance)
      returns (error: Option<VectorError>, hits: seq<Hit>, ghost beam: seq<nat>, ghost start: nat)
      requires Valid() && Falling(want.similarity)
      ensures error == if topK == 0 then Some(InvalidTopK) else
                       if !(-1.0 <= want.threshold <= 1.0) then Some(InvalidThreshold) else
                       if length != dim then Some(DimensionMismatch) else None
      ensures error.Some? || entry.None? ==> hits == []
      ensures error.None? && entry.Some? ==>
                && |layers| > 0
                && (var width := if ef.Some? then ef.value else efSearch;
                    Answers(layers[0], dist, start, if width < topK then topK else width, beam))
                && dist(beam[0]) <= dist(entry.value.0) && LocalMinimum(layers[0], dist, beam[0])
                && TopHits(nodes, dist, want, topK, beam, hits)
    {
      error, hits, beam, start := None, [], [], 0;
      if topK == 0 {
        error := Some(InvalidTopK);
      } else if !(-1.0 <= want.threshold <= 1.0) {
        error := Some(InvalidThreshold);
      } else if length != dim {
        error := Some(DimensionMismatch);
      } else if entry.Some? {
        var found;
        found, start := Beam(layers, dist, entry.value.0, entry.value.1, if ef.Some? then ef.value else efSearch, topK);
        var chosen := Filter(nodes, dist, want, found);
        hits := Hits(nodes, dist, want, topK, chosen);
        HitsAreTop(nodes, keyMap, dist, want, topK, found, chosen, hits);
        beam := found;
      }
    }
  }

  method Hits(nodes: seq<Option<Node>>, dist: Distance, want: Wanted, topK: nat, chosen: seq<nat>)
    returns (hits: seq<Hit>)
    requires forall i :: 0 <= i < |chosen| ==> Qualifies(nodes, dist, want, chosen[i])
    ensures HitsOf(nodes, dist, want, topK, chosen, hits)
  {
    hits := seq(|chosen|, i requires 0 <= i < |chosen| => HitOf(nodes, dist, want, chosen[i]));
    if |hits| > topK {
      hits := hits[..topK];
    }
  }

  // ---- What a caller sees ----

  /** A hit is an entry of the index: a deleted key is never found, a found one has its stored payload. */
  lemma HitsAreEntries(
    nodes: seq<Option<Node>>, keyMap: map<Bytes, nat>, dist: Distance, want: Wanted, topK: nat, beam: seq<nat>,
    hits: seq<Hit>, i: nat)
    requires Keyed(nodes, keyMap) && TopHits(nodes, dist, want, topK, beam, hits) && i < |hits|
    ensures hits[i].key in Entries(nodes, keyMap)
    ensures var n := Entries(nodes, keyMap)[hits[i].key];
            && n.payload == hits[i].payload && hits[i].similarity >= want.threshold
            && (n.expireAt == 0 || want.now == 0 || want.now < n.expireAt)
  {
    assert HitIn(nodes, dist, want, beam, hits[i]);
    var v :| v in beam && Qualifies(nodes, dist, want, v) && hits[i] == HitOf(nodes, dist, want, v);
  }

  /** A node of the beam that is there, in time and similar enough is a hit, or `topK` hits are at least as similar. */
  lemma NoHitIsMissing(
    nodes: seq<Option<Node>>, dist: Distance, want: Wanted, topK: nat, beam: seq<nat>, hits: seq<Hit>, v: nat)
    requires TopHits(nodes, dist, want, topK, beam, hits)
    requires v in beam && v < |nodes| && nodes[v].Some? && want.similarity(dist(v)) >= want.threshold
    requires var n := nodes[v].value; n.expireAt == 0 || want.now == 0 || want.now < n.expireAt
    ensures || Hit(nodes[v].value.key, want.similarity(dist(v)), nodes[v].value.payload) in hits
            || (|hits| == topK && forall i :: 0 <= i < |hits| ==> hits[i].similarity >= want.similarity(dist(v)))
  {
    assert Qualifies(nodes, dist, want, v);
  }
}
