/**
 Building the layered proximity graph: linking a new node into a layer, and the shape every run of
 inserts and deletes keeps.
 */
module HnswGraphs {
  import opened Machine
  import opened HnswSearch

  /** Distance between two stored vectors. */
  type Pairwise = nat -> Distance

  /** The node still has its vector. */
  predicate IsLive(live: seq<bool>, u: nat) {
    u < |live| && live[u]
  }

  ghost predicate ListOk(ids: set<nat>, u: nat, list: seq<nat>) {
    && (forall i :: 0 <= i < |list| ==> list[i] in ids && list[i] != u)
    && (forall i, j :: 0 <= i < j < |list| ==> list[i] != list[j])
  }

  /** Links stay inside the layer, lead to other nodes, and are not repeated. */
  ghost predicate Closed(g: Layer) {
    forall u :: u in g ==> ListOk(g.Keys, u, g[u])
  }

  /** `list` holds what it held and `id`, or only the `mMax` of them that are nearest by `dist`. */
  ghost predicate Nearest(dist: Distance, mMax: nat, all: set<nat>, list: seq<nat>) {
    || Ids(list) == all
    || (&& |list| == mMax && Ids(list) <= all
        && forall v :: v in all && v !in list ==> NoCloser(dist, v, Ids(list)))
  }

  // ---- Linking one node into one layer ----

  /** The closest `mMax` search results, the new node itself left out. */
  method Select(results: seq<nat>, node: nat, mMax: nat) returns (selected: seq<nat>)
    requires forall i, j :: 0 <= i < j < |results| ==> results[i] != results[j]
    ensures |selected| <= mMax && ListOk(Ids(results), node, selected)
    ensures node !in results ==> |selected| == (if |results| < mMax then |results| else mMax) && selected <= results
  {
    selected := [];
    var i := 0;
    while i < |results| && |selected| < mMax
      invariant 0 <= i <= |results| && |selected| <= mMax
      invariant ListOk(Ids(results[..i]), node, selected)
      invariant node !in results ==> selected == results[..i]
    {
      if results[i] != node {
        selected := selected + [results[i]];
      }
      i := i + 1;
    }
    assert Ids(results[..i]) <= Ids(results);
  }

  /** Add `id` to a list of links, and keep the `mMax` nearest when the list's owner has its vector. */
  method BackLink(dist: Distance, live: bool, mMax: nat, list: seq<nat>, id: nat) returns (list': seq<nat>)
    requires forall i, j :: 0 <= i < j < |list| ==> list[i] != list[j]
    ensures forall i, j :: 0 <= i < j < |list'| ==> list'[i] != list'[j]
    ensures live && (id !in list || |list| <= mMax) ==> |list'| <= mMax
    ensures Nearest(dist, mMax, Ids(list) + {id}, list') && Ids(list') <= Ids(list) + {id}
    ensures id !in list && (!live || |list| < mMax) ==> list' == list + [id]
  {
    list' := list;
    if id !in list {
      list' := list + [id];
      if |list'| > mMax && live {
        var ranked := Rank(dist, set v | v in list');
        Truncated(dist, mMax, list', ranked);
        list' := ranked[..mMax];
      }
      assert Ids(list + [id]) == Ids(list) + {id};
    } else {
      assert Ids(list) + {id} == Ids(list);
    }
  }

  lemma Truncated(dist: Distance, mMax: nat, list: seq<nat>, ranked: seq<nat>)
    requires forall i, j :: 0 <= i < j < |list| ==> list[i] != list[j]
    requires Ranked(dist, ranked, Ids(list)) && |ranked| == |Ids(list)| && mMax < |list|
    ensures mMax <= |ranked| && Nearest(dist, mMax, Ids(list), ranked[..mMax]) && Ids(ranked[..mMax]) <= Ids(list)
  {
    DistinctSize(list);
    forall v | v in Ids(list) && v !in ranked[..mMax]
      ensures NoCloser(dist, v, Ids(ranked[..mMax]))
    {
      var j :| 0 <= j < |ranked| && ranked[j] == v;
      assert forall i :: 0 <= i < mMax ==> ranked[..mMax][i] == ranked[i] && ranked[i] in ranked[..mMax];
      forall x | x in ranked[..mMax]
        ensures dist(x) <= dist(v)
      {
        var i :| 0 <= i < mMax && ranked[i] == x;
      }
    }
  }

  /** What linking `node` to `selected` does to a layer: the first `i` back-links are written. */
  ghost predicate LinkedInto(
    g: Layer, g': Layer, near: Pairwise, live: seq<bool>, mMax: nat, node: nat, selected: seq<nat>, i: nat)
    requires i <= |selected|
  {
    && g'.Keys == g.Keys + {node} && g'[node] == selected
    && forall u :: u in g && u != node ==>
         if u in selected[..i] then Relinked(near(u), IsLive(live, u), mMax, node, g[u], g'[u]) else g'[u] == g[u]
  }

  ghost predicate Relinked(dist: Distance, live: bool, mMax: nat, node: nat, list: seq<nat>, list': seq<nat>) {
    Nearest(dist, mMax, Ids(list) + {node}, list') && (live ==> |list'| <= mMax)
  }

  /** Write the new node's links, then a back-link into each of its neighbours. */
  method Connect(g: Layer, near: Pairwise, live: seq<bool>, mMax: nat, node: nat, selected: seq<nat>)
    returns (g': Layer)
    requires Closed(g) && node !in g && ListOk(g.Keys, node, selected)
    ensures Closed(g') && LinkedInto(g, g', near, live, mMax, node, selected, |selected|)
  {
    g' := g[node := selected];
    var i := 0;
    FreshNode(g, node, selected);
    while i < |selected|
      invariant 0 <= i <= |selected| && Closed(g')
      invariant LinkedInto(g, g', near, live, mMax, node, selected, i)
    {
      var nbr := selected[i];
      NotYetLinked(g, g', near, live, mMax, node, selected, i);
      var list := BackLink(near(nbr), IsLive(live, nbr), mMax, g'[nbr], node);
      LinkStep(g, g', near, live, mMax, node, selected, i, list);
      g' := g'[nbr := list];
      i := i + 1;
    }
  }

  lemma FreshNode(g: Layer, node: nat, selected: seq<nat>)
    requires Closed(g) && node !in g && ListOk(g.Keys, node, selected)
    ensures Closed(g[node := selected])
  {
  }

  lemma NotYetLinked(
    g: Layer, g': Layer, near: Pairwise, live: seq<bool>, mMax: nat, node: nat, selected: seq<nat>, i: nat)
    requires Closed(g) && Closed(g') && node !in g && ListOk(g.Keys, node, selected) && i < |selected|
    requires LinkedInto(g, g', near, live, mMax, node, selected, i)
    ensures selected[i] in g && g'[selected[i]] == g[selected[i]] && node !in g[selected[i]]
    ensures ListOk(g.Keys, selected[i], g[selected[i]])
  {
    assert selected[i] !in selected[..i];
  }

  lemma LinkStep(
    g: Layer, g': Layer, near: Pairwise, live: seq<bool>, mMax: nat, node: nat, selected: seq<nat>, i: nat,
    list: seq<nat>)
    requires Closed(g) && Closed(g') && node !in g && ListOk(g.Keys, node, selected) && i < |selected|
    requires LinkedInto(g, g', near, live, mMax, node, selected, i)
    requires selected[i] in g
    requires Relinked(near(selected[i]), IsLive(live, selected[i]), mMax, node, g[selected[i]], list)
    requires ListOk(g.Keys, selected[i], g[selected[i]]) && Ids(list) <= Ids(g[selected[i]]) + {node}
    requires forall i, j :: 0 <= i < j < |list| ==> list[i] != list[j]
    ensures Closed(g'[selected[i] := list])
    ensures LinkedInto(g, g'[selected[i] := list], near, live, mMax, node, selected, i + 1)
  {
    var nbr := selected[i];
    var g2 := g'[nbr := list];
    assert g2.Keys == g'.Keys;
    assert selected[..i + 1] == selected[..i] + [nbr];
    forall k | 0 <= k < |list|
      ensures list[k] in g2.Keys && list[k] != nbr
    {
      assert list[k] in Ids(list);
    }
    assert ListOk(g2.Keys, nbr, list);
  }

  // ---- One insertion ----

  /** The layer with a new node in it, linked to the first results of a beam search from `ep`. */
  ghost predicate LinkedBySearch(
    g: Layer, g': Layer, dist: Distance, ep: nat, ef: nat, near: Pairwise, live: seq<bool>, mMax: nat, node: nat,
    results: seq<nat>, selected: seq<nat>)
  {
    && ep in g && Answers(g, dist, ep, if ef == 0 then 1 else ef, results)
    && |selected| == (if |results| < mMax then |results| else mMax) && selected <= results
    && LinkedInto(g, g', near, live, mMax, node, selected, |selected|)
  }

  ghost predicate Grown(
    g: Layer, g': Layer, dist: Distance, ef: nat, near: Pairwise, live: seq<bool>, mMax: nat, node: nat)
  {
    exists ep, results, selected :: LinkedBySearch(g, g', dist, ep, ef, near, live, mMax, node, results, selected)
  }

  /**
   What a new node's links are: some, at most `mMax`, to nodes of the layer; a node found by a search that is not among
   them is no closer than `mMax` that are; and each of them links back, or keeps `mMax` links to nodes at least as near.
   */
  ghost predicate WellLinked(
    g: Layer, g': Layer, dist: Distance, ef: nat, near: Pairwise, mMax: nat, node: nat)
  {
    && node in g' && 0 < |g'[node]| <= mMax
    && (forall v :: v in g'[node] ==>
          && v in g && v in g'
          && (node in g'[v] || (|g'[v]| == mMax && forall x :: x in g'[v] ==> near(v)(x) <= near(v)(node))))
    && FoundIn(g, dist, if ef == 0 then 1 else ef, mMax, g'[node])
  }

  /** The list is the closest part of what some search of that width finds in the layer. */
  ghost predicate FoundIn(g: Layer, dist: Distance, width: nat, mMax: nat, list: seq<nat>) {
    exists ep, results :: FoundBy(g, dist, width, mMax, list, ep, results)
  }

  ghost predicate FoundBy(
    g: Layer, dist: Distance, width: nat, mMax: nat, list: seq<nat>, ep: nat, results: seq<nat>)
  {
    && ep in g && Answers(g, dist, ep, width, results)
    && (forall v :: v in list ==> v in results)
    && (forall v :: v in results && v !in list ==> |list| == mMax && forall x :: x in list ==> dist(x) <= dist(v))
  }

  lemma GrownIsWellLinked(
    g: Layer, g': Layer, dist: Distance, ef: nat, near: Pairwise, live: seq<bool>, mMax: nat, node: nat)
    requires Closed(g') && node !in g && mMax > 0 && Grown(g, g', dist, ef, near, live, mMax, node)
    ensures WellLinked(g, g', dist, ef, near, mMax, node)
  {
    var ep, results, selected :| LinkedBySearch(g, g', dist, ep, ef, near, live, mMax, node, results, selected);
    LinksBack(g, g', near, live, mMax, node, selected);
    forall v | v in results && v !in selected
      ensures |selected| == mMax && forall x :: x in selected ==> dist(x) <= dist(v)
    {
      LeftOut(dist, results, selected, v);
    }
    assert FoundBy(g, dist, if ef == 0 then 1 else ef, mMax, selected, ep, results);
  }

  lemma LeftOut(dist: Distance, results: seq<nat>, selected: seq<nat>, v: nat)
    requires Ranked(dist, results, Ids(results)) && selected <= results && v in results && v !in selected
    ensures |selected| < |results| && forall x :: x in selected ==> dist(x) <= dist(v)
  {
    var j :| 0 <= j < |results| && results[j] == v;
    forall x | x in selected
      ensures dist(x) <= dist(v)
    {
      var i :| 0 <= i < |selected| && selected[i] == x;
      assert results[i] == x;
    }
  }

  lemma LinksBack(
    g: Layer, g': Layer, near: Pairwise, live: seq<bool>, mMax: nat, node: nat, selected: seq<nat>)
    requires Closed(g') && node !in g && LinkedInto(g, g', near, live, mMax, node, selected, |selected|)
    ensures forall v :: v in selected ==>
              && v in g && v in g'
              && (node in g'[v] || (|g'[v]| == mMax && forall x :: x in g'[v] ==> near(v)(x) <= near(v)(node)))
  {
    assert selected[..|selected|] == selected;
    forall v | v in selected
      ensures v in g && v in g'
      ensures node in g'[v] || (|g'[v]| == mMax && forall x :: x in g'[v] ==> near(v)(x) <= near(v)(node))
    {
      assert ListOk(g'.Keys, node, g'[node]);
      assert Relinked(near(v), IsLive(live, v), mMax, node, g[v], g'[v]);
      assert node in Ids(g[v]) + {node};
    }
  }

  /** Find the neighbours of the new node in one layer by a beam search from `ep`, and link it. */
  method LinkLayer(
    g: Layer, dist: Distance, near: Pairwise, live: seq<bool>, ep: nat, ef: nat, mMax: nat, node: nat)
    returns (g': Layer, next: nat)
    requires Closed(g) && ep in g && node !in g
    ensures Closed(g') && Grown(g, g', dist, ef, near, live, mMax, node)
    ensures next in g && dist(next) <= dist(ep) && LocalMinimum(g, dist, next)
  {
    var results := SearchLayer(g, dist, ep, ef);
    var width := if ef == 0 then 1 else ef;
    ResultsInside(g, dist, ep, width, results);
    NearestIsLocalMinimum(g, dist, ep, width, results);
    var selected := Select(results, node, mMax);
    g' := Connect(g, near, live, mMax, node, selected);
    assert LinkedBySearch(g, g', dist, ep, ef, near, live, mMax, node, results, selected);
    next := results[0];
  }

  lemma ClosedInside(g: Layer)
    requires Closed(g)
    ensures LinksInside(g)
  {
  }

  lemma ResultsInside(g: Layer, dist: Distance, ep: nat, k: nat, results: seq<nat>)
    requires Closed(g) && ep in g && Answers(g, dist, ep, k, results)
    ensures Ids(results) <= g.Keys
  {
    ClosedInside(g);
    forall i | 0 <= i < |results|
      ensures results[i] in g
    {
      ReachableInside(g, ep, results[i]);
    }
  }

  function Cap(m: nat, l: nat): nat {
    if l == 0 then 2 * m else m
  }

  /** Link the new node into layers `start` down to 0, each search entered at the best result above. */
  method LinkDown(
    layers: seq<Layer>, dist: Distance, near: Pairwise, live: seq<bool>, ep: nat, ef: nat, m: nat, node: nat,
    start: nat)
    returns (layers': seq<Layer>)
    requires start < |layers| && Nested(layers) && ep in layers[start]
    requires forall l :: 0 <= l <= start ==> Closed(layers[l]) && node !in layers[l]
    ensures |layers'| == |layers| && layers'[start + 1..] == layers[start + 1..]
    ensures forall l :: 0 <= l <= start ==>
      Closed(layers'[l]) && Grown(layers[l], layers'[l], dist, ef, near, live, Cap(m, l), node)
  {
    layers' := layers;
    var cur, l := ep, start + 1;
    while l > 0
      invariant 0 <= l <= start + 1 && |layers'| == |layers| && layers'[start + 1..] == layers[start + 1..]
      invariant forall k :: 0 <= k < l ==> layers'[k] == layers[k]
      invariant forall k :: l <= k <= start ==>
        Closed(layers'[k]) && Grown(layers[k], layers'[k], dist, ef, near, live, Cap(m, k), node)
      invariant l > 0 ==> cur in layers[l - 1]
    {
      l := l - 1;
      var g, next := LinkLayer(layers'[l], dist, near, live, cur, ef, Cap(m, l), node);
      layers' := layers'[l := g];
      cur := next;
    }
  }

  /** Enter the new node without links in layers `from` to `to`. */
  method EnterAlone(layers: seq<Layer>, node: nat, from: nat, to: nat) returns (layers': seq<Layer>)
    requires to < |layers|
    ensures |layers'| == |layers|
    ensures forall l :: 0 <= l < |layers| ==>
      layers'[l] == if from <= l <= to then layers[l][node := []] else layers[l]
  {
    layers' := layers;
    var l := from;
    while l <= to
      invariant from <= l && (l <= to + 1 || l == from) && |layers'| == |layers|
      invariant forall k :: 0 <= k < |layers| ==>
        layers'[k] == if from <= k < l && k <= to then layers[k][node := []] else layers[k]
    {
      var g: Layer := layers'[l][node := []];
      layers' := layers'[l := g];
      l := l + 1;
    }
  }

  // ---- The shape of the graph ----

  /** Layer `l` holds exactly the nodes drawn to level `l` or higher, and live nodes keep to the degree bound. */
  ghost predicate LayerOk(g: Layer, l: nat, levels: seq<nat>, live: seq<bool>, mMax: nat)
    requires |live| == |levels|
  {
    && (forall u: nat :: u in g <==> u < |levels| && levels[u] >= l)
    && Closed(g)
    && (forall u :: u in g && live[u] ==> |g[u]| <= mMax)
  }

  ghost predicate Shaped(layers: seq<Layer>, levels: seq<nat>, live: seq<bool>, m: nat) {
    && |live| == |levels|
    && (forall u :: 0 <= u < |levels| ==> levels[u] < |layers|)
    && (forall l :: 0 <= l < |layers| ==> LayerOk(layers[l], l, levels, live, Cap(m, l)))
  }

  lemma ShapedNested(layers: seq<Layer>, levels: seq<nat>, live: seq<bool>, m: nat)
    requires Shaped(layers, levels, live, m)
    ensures Nested(layers)
  {
    forall l | 0 <= l < |layers|
      ensures LinksInside(layers[l])
    {
      ClosedInside(layers[l]);
    }
  }

  lemma GrownOk(
    g: Layer, g': Layer, l: nat, levels: seq<nat>, live: seq<bool>, mMax: nat, near: Pairwise, dist: Distance, ef: nat,
    level: nat)
    requires |live| == |levels| && LayerOk(g, l, levels, live, mMax) && l <= level
    requires Closed(g') && Grown(g, g', dist, ef, near, live, mMax, |levels|)
    ensures LayerOk(g', l, levels + [level], live + [true], mMax)
  {
    var ep, results, selected :| LinkedBySearch(g, g', dist, ep, ef, near, live, mMax, |levels|, results, selected);
    LinkedOk(g, g', l, levels, live, mMax, near, level, selected);
  }

  lemma LinkedOk(
    g: Layer, g': Layer, l: nat, levels: seq<nat>, live: seq<bool>, mMax: nat, near: Pairwise, level: nat,
    selected: seq<nat>)
    requires |live| == |levels| && LayerOk(g, l, levels, live, mMax) && l <= level && |selected| <= mMax
    requires Closed(g') && LinkedInto(g, g', near, live, mMax, |levels|, selected, |selected|)
    ensures LayerOk(g', l, levels + [level], live + [true], mMax)
  {
    forall u | u in g' && (live + [true])[u]
      ensures |g'[u]| <= mMax
    {
      if u != |levels| {
        assert u in g;
      }
    }
  }

  lemma AboveOk(g: Layer, l: nat, levels: seq<nat>, live: seq<bool>, mMax: nat, level: nat)
    requires |live| == |levels| && LayerOk(g, l, levels, live, mMax)
    ensures l > level ==> LayerOk(g, l, levels + [level], live + [true], mMax)
    ensures l <= level && (forall u :: 0 <= u < |levels| ==> levels[u] < l) ==>
      LayerOk(g[|levels| := []], l, levels + [level], live + [true], mMax)
  {
    if l <= level && (forall u :: 0 <= u < |levels| ==> levels[u] < l) {
      FreshNode(g, |levels|, []);
    }
  }

  /** Layers added on top of the highest are empty, as no node has been drawn to them. */
  lemma PaddedOk(layers: seq<Layer>, padded: seq<Layer>, levels: seq<nat>, live: seq<bool>, m: nat)
    requires Shaped(layers, levels, live, m) && layers <= padded
    requires forall l :: |layers| <= l < |padded| ==> padded[l] == map[]
    ensures Shaped(padded, levels, live, m)
  {
    forall l | 0 <= l < |padded|
      ensures LayerOk(padded[l], l, levels, live, Cap(m, l))
    {
      if l < |layers| {
        assert padded[l] == layers[l];
      }
    }
  }

  /** After one insertion every layer has the shape again. */
  lemma InsertedOk(
    layers: seq<Layer>, linked: seq<Layer>, after: seq<Layer>, levels: seq<nat>, live: seq<bool>, m: nat,
    near: Pairwise, dist: Distance, ef: nat, level: nat, start: int)
    requires Shaped(layers, levels, live, m) && |linked| == |layers| == |after| && level < |layers|
    requires -1 <= start <= level
    requires forall l :: 0 <= l <= start ==>
      Closed(linked[l]) && Grown(layers[l], linked[l], dist, ef, near, live, Cap(m, l), |levels|)
    requires forall l :: start < l < |layers| ==> linked[l] == layers[l]
    requires forall l :: 0 <= l < |layers| ==>
      after[l] == if start < l <= level then linked[l][|levels| := []] else linked[l]
    requires start < level ==> forall u :: 0 <= u < |levels| ==> levels[u] <= start
    ensures Shaped(after, levels + [level], live + [true], m)
  {
    forall l | 0 <= l < |after|
      ensures LayerOk(after[l], l, levels + [level], live + [true], Cap(m, l))
    {
      if l <= start {
        GrownOk(layers[l], linked[l], l, levels, live, Cap(m, l), near, dist, ef, level);
      } else {
        AboveOk(layers[l], l, levels, live, Cap(m, l), level);
      }
    }
  }

  /** Add empty layers up to `level`. */
  method Pad(layers: seq<Layer>, level: nat, ghost levels: seq<nat>, ghost live: seq<bool>, ghost m: nat)
    returns (padded: seq<Layer>)
    requires Shaped(layers, levels, live, m)
    ensures layers <= padded && |padded| == (if |layers| <= level then level + 1 else |layers|)
    ensures Shaped(padded, levels, live, m)
  {
    padded := layers;
    if |layers| <= level {
      padded := layers + seq(level + 1 - |layers|, i => map[]);
    }
    PaddedOk(layers, padded, levels, live, m);
  }

  /** Descend to the new node's level, then link it in every existing layer at or below it. */
  method LinkFrom(
    layers: seq<Layer>, dist: Distance, near: Pairwise, live: seq<bool>, levels: seq<nat>, ef: nat, m: nat,
    ep: nat, top: nat, level: nat)
    returns (linked: seq<Layer>, start: nat)
    requires Shaped(layers, levels, live, m) && ep < |levels| && levels[ep] == top
    ensures start == (if top < level then top else level) && |linked| == |layers|
    ensures forall l :: 0 <= l <= start ==>
      Closed(linked[l]) && Grown(layers[l], linked[l], dist, ef, near, live, Cap(m, l), |levels|)
    ensures forall l :: start < l < |layers| ==> linked[l] == layers[l]
  {
    ShapedNested(layers, levels, live, m);
    assert LayerOk(layers[top], top, levels, live, Cap(m, top));
    var cur := DescendLayers(layers, dist, ep, top, level);
    start := if top < level then top else level;
    linked := LinkDown(layers, dist, near, live, cur, ef, m, |levels|, start);
    assert forall l :: start < l < |layers| ==> linked[l] == linked[start + 1..][l - start - 1];
  }

  /** What an insertion does to the layers there were. */
  ghost predicate InsertedInto(
    layers: seq<Layer>, after: seq<Layer>, dist: Distance, ef: nat, near: Pairwise, live: seq<bool>, m: nat, node: nat,
    level: nat)
  {
    && |after| == (if |layers| <= level then level + 1 else |layers|)
    && forall l :: 0 <= l < |layers| ==>
         if l <= level then Grown(layers[l], after[l], dist, ef, near, live, Cap(m, l), node) else after[l] == layers[l]
  }

  /** Every existing layer up to the level of a new node is well linked. */
  lemma InsertedWellLinked(
    layers: seq<Layer>, levels: seq<nat>, live: seq<bool>, after: seq<Layer>, dist: Distance, ef: nat, near: Pairwise,
    m: nat, level: nat)
    requires Shaped(layers, levels, live, m) && m > 0
    requires Shaped(after, levels + [level], live + [true], m)
    requires InsertedInto(layers, after, dist, ef, near, live, m, |levels|, level)
    ensures forall l :: 0 <= l < |layers| && l <= level ==>
              WellLinked(layers[l], after[l], dist, ef, near, if l == 0 then 2 * m else m, |levels|)
  {
    forall l | 0 <= l < |layers| && l <= level
      ensures WellLinked(layers[l], after[l], dist, ef, near, if l == 0 then 2 * m else m, |levels|)
    {
      assert LayerOk(layers[l], l, levels, live, Cap(m, l));
      assert LayerOk(after[l], l, levels + [level], live + [true], Cap(m, l));
      GrownIsWellLinked(layers[l], after[l], dist, ef, near, live, Cap(m, l), |levels|);
    }
  }

  lemma DeadOk(layers: seq<Layer>, levels: seq<nat>, live: seq<bool>, node: nat, m: nat)
    requires Shaped(layers, levels, live, m) && node < |live|
    ensures Shaped(layers, levels, live[node := false], m)
  {
    forall l | 0 <= l < |layers|
      ensures LayerOk(layers[l], l, levels, live[node := false], Cap(m, l))
    {
      assert LayerOk(layers[l], l, levels, live, Cap(m, l));
    }
  }
}
