/**
 The beam search over one layer of the proximity graph, and the greedy descent between layers.

 A layer maps node ids to neighbour lists. The distance of a node to the query is an arbitrary
 function into a total order; the two heaps are sets from which any extreme element may be popped.
 */
module HnswSearch {
  type Layer = map<nat, seq<nat>>
  type Distance = nat -> real

  predicate Neighbour(g: Layer, u: nat, v: nat) {
    u in g && v in g[u]
  }

  /** `v` is at least as far away as everything in `s`. */
  predicate NoCloser(dist: Distance, v: nat, s: set<nat>) {
    forall x :: x in s ==> dist(x) <= dist(v)
  }

  predicate NoFarther(dist: Distance, v: nat, s: set<nat>) {
    forall x :: x in s ==> dist(v) <= dist(x)
  }

  lemma {:induction false} FurthestExists(dist: Distance, s: set<nat>)
    requires s != {}
    ensures exists v :: v in s && NoCloser(dist, v, s)
    decreases |s|
  {
    var a :| a in s;
    if s == {a} {
      assert NoCloser(dist, a, s);
    } else {
      FurthestExists(dist, s - {a});
      var b :| b in s - {a} && NoCloser(dist, b, s - {a});
      assert NoCloser(dist, if dist(a) <= dist(b) then b else a, s);
    }
  }

  lemma NearestExists(dist: Distance, s: set<nat>)
    requires s != {}
    ensures exists v :: v in s && NoFarther(dist, v, s)
  {
    var away: Distance := (n: nat) => -dist(n);
    FurthestExists(away, s);
    var v :| v in s && NoCloser(away, v, s);
    assert forall x :: x in s ==> away(x) <= away(v);
  }

  // ---- The beam ----

  /** What the beam keeps of the visited nodes: at most `k`, and a node is dropped only for `k` that are no farther. */
  ghost predicate BestOf(dist: Distance, k: nat, visited: set<nat>, w: set<nat>) {
    && w != {} && w <= visited && |w| <= k
    && (forall v :: v in visited && v !in w ==> |w| == k && NoCloser(dist, v, w))
  }

  ghost predicate Expanded(g: Layer, u: nat, visited: set<nat>) {
    forall v :: Neighbour(g, u, v) ==> v in visited
  }

  /** Kept nodes whose neighbours are not all visited are still candidates, except `cur`, which is being expanded. */
  ghost predicate Pending(g: Layer, visited: set<nat>, candidates: set<nat>, w: set<nat>, cur: set<nat>) {
    && candidates <= visited
    && forall u :: u in w ==> u in candidates || u in cur || Expanded(g, u, visited)
  }

  /** The number of results the search keeps. */
  function Width(ef: nat): nat {
    if ef == 0 then 1 else ef
  }

  /** Pop a furthest element of the results. */
  method PopFurthest(dist: Distance, w: set<nat>) returns (w': set<nat>, ghost out: nat)
    requires w != {}
    ensures out in w && NoCloser(dist, out, w) && w' == w - {out}
  {
    FurthestExists(dist, w);
    var f :| f in w && NoCloser(dist, f, w);
    w', out := w - {f}, f;
  }

  /** Offer one neighbour to the beam. */
  method Offer(dist: Distance, ef: nat, visited: set<nat>, candidates: set<nat>, w: set<nat>, nbr: nat)
    returns (visited': set<nat>, candidates': set<nat>, w': set<nat>)
    requires BestOf(dist, Width(ef), visited, w)
    ensures visited' == visited + {nbr} && BestOf(dist, Width(ef), visited', w')
    ensures nbr in visited ==> candidates' == candidates && w' == w
    ensures candidates <= candidates' <= candidates + {nbr}
    ensures w' <= w + ({nbr} * candidates')
  {
    visited', candidates', w' := visited, candidates, w;
    if nbr !in visited {
      visited' := visited + {nbr};
      FurthestExists(dist, w);
      var furthest :| furthest in w && NoCloser(dist, furthest, w);
      if dist(nbr) < dist(furthest) || |w| < ef {
        candidates' := candidates + {nbr};
        w' := w + {nbr};
        if |w'| > ef {
          ghost var out;
          w', out := PopFurthest(dist, w');
          BeamKept(dist, Width(ef), visited, w, nbr, out);
        }
      }
    } else {
      assert visited + {nbr} == visited;
    }
  }

  /** Replacing a furthest result by a closer node keeps the best of what was visited. */
  lemma BeamKept(dist: Distance, k: nat, visited: set<nat>, w: set<nat>, nbr: nat, out: nat)
    requires BestOf(dist, k, visited, w) && nbr !in visited && |w| == k
    requires out in w + {nbr} && NoCloser(dist, out, w + {nbr})
    requires exists f :: f in w && dist(nbr) < dist(f)
    ensures BestOf(dist, k, visited + {nbr}, w + {nbr} - {out})
  {
    var w' := w + {nbr} - {out};
    assert nbr in w';
    forall v | v in visited + {nbr} && v !in w'
      ensures NoCloser(dist, v, w')
    {
      if v != out {
        assert v in visited && v !in w && NoCloser(dist, v, w);
        var f :| f in w && dist(nbr) < dist(f);
        assert dist(f) <= dist(v);
      }
    }
  }

  /** Expand one popped candidate: offer each of its neighbours in list order. */
  method Expand(g: Layer, dist: Distance, ef: nat, visited: set<nat>, candidates: set<nat>, w: set<nat>, c: nat)
    returns (visited': set<nat>, candidates': set<nat>, w': set<nat>)
    requires BestOf(dist, Width(ef), visited, w) && Pending(g, visited, candidates, w, {c}) && c in visited
    ensures BestOf(dist, Width(ef), visited', w') && Pending(g, visited', candidates', w', {})
    ensures visited <= visited' && (visited' == visited ==> candidates' == candidates)
    ensures forall v :: v in visited' && v !in visited ==> Neighbour(g, c, v)
  {
    visited', candidates', w' := visited, candidates, w;
    if c in g {
      var i := 0;
      while i < |g[c]|
        invariant 0 <= i <= |g[c]|
        invariant BestOf(dist, Width(ef), visited', w') && Pending(g, visited', candidates', w', {c})
        invariant visited <= visited' && (visited' == visited ==> candidates' == candidates)
        invariant forall v :: v in visited' && v !in visited ==> Neighbour(g, c, v)
        invariant forall j :: 0 <= j < i ==> g[c][j] in visited'
      {
        visited', candidates', w' := Offer(dist, ef, visited', candidates', w', g[c][i]);
        i := i + 1;
      }
    }
    assert Expanded(g, c, visited');
  }

  // ---- The search ----

  /** Every id the search can meet. */
  ghost function Universe(g: Layer, ep: nat): set<nat> {
    {ep} + set u, i | u in g && 0 <= i < |g[u]| :: g[u][i]
  }

  ghost function Ids(results: seq<nat>): set<nat> {
    set v | v in results
  }

  /** The kept nodes in order of distance. */
  ghost predicate Ranked(dist: Distance, results: seq<nat>, w: set<nat>) {
    && (forall i :: 0 <= i < |results| ==> results[i] in w)
    && (forall v :: v in w ==> v in results)
    && (forall i, j :: 0 <= i < j < |results| ==> results[i] != results[j] && dist(results[i]) <= dist(results[j]))
  }

  /** `results.sort()`: any order by distance. */
  method Rank(dist: Distance, w: set<nat>) returns (results: seq<nat>)
    ensures Ranked(dist, results, w) && |results| == |w|
  {
    results := [];
    var left := w;
    while left != {}
      invariant left <= w && Ranked(dist, results, w - left) && |results| + |left| == |w|
      invariant forall x, y :: x in w - left && y in left ==> dist(x) <= dist(y)
      decreases |left|
    {
      NearestExists(dist, left);
      var v :| v in left && NoFarther(dist, v, left);
      results := results + [v];
      left := left - {v};
    }
    assert w - left == w;
  }

  /** A chain of neighbour steps. */
  ghost predicate Walk(g: Layer, path: seq<nat>) {
    path != [] && forall i :: 0 < i < |path| ==> Neighbour(g, path[i - 1], path[i])
  }

  ghost predicate Reaches(g: Layer, ep: nat, v: nat) {
    exists path :: Walk(g, path) && path[0] == ep && path[|path| - 1] == v
  }

  lemma ReachesOne(g: Layer, ep: nat)
    ensures Reaches(g, ep, ep)
  {
    assert Walk(g, [ep]);
  }

  lemma ReachesNext(g: Layer, ep: nat, u: nat, v: nat)
    requires Reaches(g, ep, u) && Neighbour(g, u, v)
    ensures Reaches(g, ep, v)
  {
    var path :| Walk(g, path) && path[0] == ep && path[|path| - 1] == u;
    var longer := path + [v];
    assert Walk(g, longer) && longer[0] == ep && longer[|longer| - 1] == v;
  }

  /** A set closed under neighbours holds every node reachable from its members. */
  lemma {:induction false} ClosedHoldsReachable(g: Layer, s: set<nat>, path: seq<nat>)
    requires Walk(g, path) && path[0] in s && (forall u :: u in s ==> Expanded(g, u, s))
    ensures path[|path| - 1] in s
    decreases |path|
  {
    if |path| > 1 {
      assert Neighbour(g, path[0], path[1]) && Expanded(g, path[0], s);
      assert forall i :: 0 < i < |path| - 1 ==> path[1..][i - 1] == path[i] && path[1..][i] == path[i + 1];
      ClosedHoldsReachable(g, s, path[1..]);
    }
  }

  /**
   What a caller of the search may rely on: the results are distinct and in order, at most `k`, and
   a neighbour of a result is a result too unless `k` nodes at least as close were kept.
   */
  ghost predicate Answers(g: Layer, dist: Distance, ep: nat, k: nat, results: seq<nat>) {
    && 0 < |results| <= k
    && Ranked(dist, results, Ids(results))
    && (forall i :: 0 <= i < |results| ==> Reaches(g, ep, results[i]))
    && (forall v :: v == ep || (exists u :: u in results && Neighbour(g, u, v)) ==>
          v in results || (|results| == k && NoCloser(dist, v, Ids(results))))
  }

  ghost predicate AllReached(g: Layer, ep: nat, visited: set<nat>) {
    forall v :: v in visited ==> Reaches(g, ep, v)
  }

  /** `search_layer`. */
  method SearchLayer(g: Layer, dist: Distance, ep: nat, ef: nat) returns (results: seq<nat>)
    ensures Answers(g, dist, ep, if ef == 0 then 1 else ef, results)
  {
    var visited, candidates, w := {ep}, {ep}, {ep};
    ReachesOne(g, ep);
    while candidates != {}
      invariant visited <= Universe(g, ep) && AllReached(g, ep, visited) && ep in visited
      invariant BestOf(dist, Width(ef), visited, w) && Pending(g, visited, candidates, w, {})
      decreases |Universe(g, ep) - visited|, |candidates|
    {
      NearestExists(dist, candidates);
      var c :| c in candidates && NoFarther(dist, c, candidates);
      FurthestExists(dist, w);
      var furthest :| furthest in w && NoCloser(dist, furthest, w);
      if dist(c) > dist(furthest) {
        AllExpanded(g, dist, visited, candidates, w, c, furthest);
        break;
      }
      Popped(g, visited, candidates, w, c);
      candidates := candidates - {c};
      ghost var before := visited;
      visited, candidates, w := Expand(g, dist, ef, visited, candidates, w, c);
      VisitedGrows(g, ep, before, visited, c);
    }
    results := Rank(dist, w);
    Concluded(g, dist, ep, Width(ef), visited, w, results);
  }

  /** Once the nearest candidate is farther than every result, no result is waiting to be expanded. */
  lemma AllExpanded(
    g: Layer, dist: Distance, visited: set<nat>, candidates: set<nat>, w: set<nat>, c: nat, furthest: nat)
    requires Pending(g, visited, candidates, w, {}) && NoFarther(dist, c, candidates)
    requires NoCloser(dist, furthest, w) && dist(c) > dist(furthest)
    ensures Pending(g, visited, {}, w, {})
  {
    forall u | u in w
      ensures Expanded(g, u, visited)
    {
      assert dist(u) <= dist(furthest);
    }
  }

  lemma Popped(g: Layer, visited: set<nat>, candidates: set<nat>, w: set<nat>, c: nat)
    requires Pending(g, visited, candidates, w, {}) && c in candidates
    ensures Pending(g, visited, candidates - {c}, w, {c}) && |candidates - {c}| < |candidates|
  {
  }

  lemma VisitedGrows(g: Layer, ep: nat, before: set<nat>, after: set<nat>, c: nat)
    requires before <= after && before <= Universe(g, ep) && AllReached(g, ep, before) && c in before
    requires forall v :: v in after && v !in before ==> Neighbour(g, c, v)
    ensures after <= Universe(g, ep) && AllReached(g, ep, after)
    ensures after != before ==> |Universe(g, ep) - after| < |Universe(g, ep) - before|
  {
    forall v | v in after && v !in before
      ensures v in Universe(g, ep) && Reaches(g, ep, v)
    {
      ReachesNext(g, ep, c, v);
    }
    if after != before {
      var v :| v in after && v !in before;
      Smaller(Universe(g, ep) - after, Universe(g, ep) - before, v);
    }
  }

  lemma Smaller(a: set<nat>, b: set<nat>, v: nat)
    requires a <= b && v in b && v !in a
    ensures |a| < |b|
  {
    assert b == a + (b - a) && v in b - a;
  }

  lemma Concluded(g: Layer, dist: Distance, ep: nat, k: nat, visited: set<nat>, w: set<nat>, results: seq<nat>)
    requires BestOf(dist, k, visited, w) && Pending(g, visited, {}, w, {}) && AllReached(g, ep, visited)
    requires ep in visited && Ranked(dist, results, w) && |results| == |w|
    ensures Answers(g, dist, ep, k, results)
  {
    assert Ids(results) == w;
  }

  // ---- Consequences ----

  /** The first result is a local minimum of the graph and no farther than the entry point. */
  lemma NearestIsLocalMinimum(g: Layer, dist: Distance, ep: nat, k: nat, results: seq<nat>)
    requires Answers(g, dist, ep, k, results)
    ensures dist(results[0]) <= dist(ep) && LocalMinimum(g, dist, results[0])
  {
    forall v | v == ep || Neighbour(g, results[0], v)
      ensures dist(results[0]) <= dist(v)
    {
      if v !in results {
        assert NoCloser(dist, v, Ids(results));
        assert results[0] in Ids(results);
      }
    }
  }

  /** Results stay inside a layer that its links do not leave. */
  lemma ReachableInside(g: Layer, ep: nat, v: nat)
    requires Reaches(g, ep, v) && ep in g && LinksInside(g)
    ensures v in g
  {
    var path :| Walk(g, path) && path[0] == ep && path[|path| - 1] == v;
    assert forall u :: u in g.Keys ==> Expanded(g, u, g.Keys);
    ClosedHoldsReachable(g, g.Keys, path);
  }

  ghost predicate LinksInside(g: Layer) {
    forall u, v :: Neighbour(g, u, v) ==> v in g
  }

  /** Each layer's links stay inside it, and its nodes are also in every layer below. */
  ghost predicate Nested(layers: seq<Layer>) {
    && (forall l :: 0 <= l < |layers| ==> LinksInside(layers[l]))
    && (forall k, l, u :: 0 <= k <= l < |layers| && u in layers[l] ==> u in layers[k])
  }

  /** A search that comes back with fewer results than it may keep has found every reachable node. */
  lemma ShortAnswerIsComplete(g: Layer, dist: Distance, ep: nat, k: nat, results: seq<nat>, v: nat)
    requires Answers(g, dist, ep, k, results) && |results| < k
    ensures v in results <==> Reaches(g, ep, v)
  {
    if Reaches(g, ep, v) {
      var path :| Walk(g, path) && path[0] == ep && path[|path| - 1] == v;
      ClosedHoldsReachable(g, Ids(results), path);
    }
  }

  // ---- Greedy descent ----

  /** `cur` has no strictly closer neighbour. */
  ghost predicate LocalMinimum(g: Layer, dist: Distance, cur: nat) {
    forall v :: Neighbour(g, cur, v) ==> dist(cur) <= dist(v)
  }

  /** One pass over the neighbours of `start`, moving to each that improves on the best so far. */
  method Sweep(g: Layer, dist: Distance, start: nat) returns (cur: nat, changed: bool)
    ensures changed ==> Neighbour(g, start, cur) && dist(cur) < dist(start)
    ensures !changed ==> cur == start && LocalMinimum(g, dist, cur)
    ensures forall v :: Neighbour(g, start, v) ==> dist(cur) <= dist(v)
  {
    cur, changed := start, false;
    if start in g {
      for i := 0 to |g[start]|
        invariant changed ==> Neighbour(g, start, cur) && dist(cur) < dist(start)
        invariant !changed ==> cur == start
        invariant forall j :: 0 <= j < i ==> dist(cur) <= dist(g[start][j])
      {
        var d := dist(g[start][i]);
        if d < dist(cur) {
          cur, changed := g[start][i], true;
        }
      }
    }
  }

  /** The ids that a descent standing at `cur` can still move to. */
  ghost function CloserThan(g: Layer, dist: Distance, ep: nat, cur: nat): set<nat> {
    set v | v in Universe(g, ep) && dist(v) < dist(cur)
  }

  /** The greedy loop of one layer: it ends, at a local minimum that is reachable and no farther. */
  method Descend(g: Layer, dist: Distance, ep: nat) returns (cur: nat)
    ensures LocalMinimum(g, dist, cur) && Reaches(g, ep, cur) && dist(cur) <= dist(ep)
  {
    cur := ep;
    var changed := true;
    ReachesOne(g, ep);
    while changed
      invariant cur in Universe(g, ep) && Reaches(g, ep, cur) && dist(cur) <= dist(ep)
      invariant !changed ==> LocalMinimum(g, dist, cur)
      decreases |CloserThan(g, dist, ep, cur)|, changed
    {
      ghost var from := cur;
      cur, changed := Sweep(g, dist, cur);
      if changed {
        ReachesNext(g, ep, from, cur);
        Smaller(CloserThan(g, dist, ep, cur), CloserThan(g, dist, ep, from), cur);
      }
    }
  }

  /** The greedy phase: layers `top` down to `bottom + 1`, each entered where the one above ended. */
  method DescendLayers(layers: seq<Layer>, dist: Distance, ep: nat, top: nat, bottom: nat) returns (cur: nat)
    requires top < |layers|
    ensures dist(cur) <= dist(ep)
    ensures bottom < top ==> LocalMinimum(layers[bottom + 1], dist, cur)
    ensures bottom >= top ==> cur == ep
    ensures Nested(layers) && ep in layers[top] ==> cur in layers[if bottom < top then bottom else top]
  {
    cur := ep;
    var l := top;
    while l > bottom
      invariant l <= top && dist(cur) <= dist(ep)
      invariant bottom <= l || l == top
      invariant l < top ==> LocalMinimum(layers[l + 1], dist, cur)
      invariant l == top ==> cur == ep
      invariant Nested(layers) && ep in layers[top] ==> cur in layers[l]
    {
      ghost var from := cur;
      cur := Descend(layers[l], dist, cur);
      if Nested(layers) && ep in layers[top] {
        ReachableInside(layers[l], from, cur);
      }
      l := l - 1;
    }
  }

  /** The width of the beam: never less than the results asked for. */
  function BeamWidth(ef: nat, topK: nat): nat {
    if ef < topK then topK else ef
  }

  /** The two phases of `search`: greedy through the upper layers, then the beam on layer 0. */
  method Beam(layers: seq<Layer>, dist: Distance, ep: nat, top: nat, ef: nat, topK: nat)
    returns (results: seq<nat>, ghost entry: nat)
    requires top < |layers| && topK > 0
    ensures Answers(layers[0], dist, entry, if ef < topK then topK else ef, results)
    ensures dist(results[0]) <= dist(ep) && LocalMinimum(layers[0], dist, results[0])
  {
    var cur := DescendLayers(layers, dist, ep, top, 0);
    results := SearchLayer(layers[0], dist, cur, BeamWidth(ef, topK));
    NearestIsLocalMinimum(layers[0], dist, cur, BeamWidth(ef, topK), results);
    entry := cur;
  }
}
