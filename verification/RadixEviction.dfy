/**
 Eviction from the radix tree: the search for the oldest unpinned leaf, its removal, and what any
 number of evictions leaves alone. Also the tree as the object that holds the root and its node count.
 */
module RadixEviction {
  import opened Machine
  import opened RadixTokens
  import opened RadixTrees

  // ---- The search ----

  /** Unpinned, childless, and holding a slab. */
  predicate Candidate(t: Tree) {
    t.pins == 0 && t.childCount == 0 && t.slab.Some?
  }

  datatype Victim = Victim(stamp: nat, route: Route)

  function Older(best: Option<Victim>, v: Victim): Option<Victim> {
    if best.None? || v.stamp < best.value.stamp then Some(v) else best
  }

  /** `find_lru_leaf_parent` over the first `n` children: each child, then what is below it. */
  function Oldest(t: Tree, n: nat): Option<Victim>
    requires n <= |t.children|
    decreases t, n
  {
    if n == 0 then None
    else
      var c := t.children[n - 1];
      var best := Oldest(t, n - 1);
      var self := if Candidate(c) then Older(best, Victim(c.stamp, [n - 1])) else best;
      match Oldest(c, |c.children|)
      case Some(v) => Older(self, Victim(v.stamp, [n - 1] + v.route))
      case None => self
  }

  /** `v` is a candidate below `t` among the first `n` children. */
  ghost predicate IsCandidate(t: Tree, n: nat, v: Victim) {
    && v.route != [] && v.route[0] < n && HasRoute(t, v.route)
    && Sub(t, v.route).pins == 0 && Sub(t, v.route).childCount == 0 && Sub(t, v.route).slab.Some?
    && Sub(t, v.route).stamp == v.stamp
  }

  lemma {:induction false} OldestIsCandidate(t: Tree, n: nat)
    requires n <= |t.children|
    ensures Oldest(t, n).Some? ==> IsCandidate(t, n, Oldest(t, n).value)
    decreases t, n
  {
    if n > 0 {
      var c := t.children[n - 1];
      OldestIsCandidate(t, n - 1);
      OldestIsCandidate(c, |c.children|);
      var deep := Oldest(c, |c.children|);
      if deep.Some? {
        var route := [n - 1] + deep.value.route;
        assert route[1..] == deep.value.route;
        assert Sub(t, route) == Sub(c, deep.value.route);
      }
      assert [n - 1][1..] == [];
    }
  }

  /** No candidate is older than the one found, and one is found if there is any. */
  lemma {:induction false} OldestCovers(t: Tree, n: nat, v: Victim)
    requires n <= |t.children| && IsCandidate(t, n, v)
    ensures Oldest(t, n).Some? && Oldest(t, n).value.stamp <= v.stamp
    decreases t, n
  {
    var c := t.children[n - 1];
    if v.route[0] < n - 1 {
      OldestCovers(t, n - 1, v);
    } else {
      var rest := v.route[1..];
      assert HasRoute(c, rest) && Sub(t, v.route) == Sub(c, rest);
      if rest != [] {
        OldestCovers(c, |c.children|, Victim(v.stamp, rest));
      } else {
        assert Candidate(c) && c.stamp == v.stamp;
      }
    }
  }

  // ---- The removal ----

  /** `swap_remove`. */
  function SwapRemove(s: seq<Tree>, i: nat): (r: seq<Tree>)
    requires i < |s|
    ensures |r| == |s| - 1
    ensures forall j :: 0 <= j < |r| ==> r[j] == if j == i then s[|s| - 1] else s[j]
  {
    s[i := s[|s| - 1]][..|s| - 1]
  }

  function DropChild(t: Tree, i: nat): Tree
    requires i < |t.children| && t.childCount > 0
  {
    t.(children := SwapRemove(t.children, i), childCount := t.childCount - 1)
  }

  lemma DropApart(t: Tree, i: nat)
    requires Apart(t.children) && i < |t.children| && t.childCount > 0
    ensures Apart(DropChild(t, i).children)
  {
  }

  /** A dropped child takes with it the paths through it, and no other. */
  lemma DropChildAt(t: Tree, i: nat, path: seq<Block>)
    requires Apart(t.children) && i < |t.children| && t.childCount > 0
    ensures InfoAt(DropChild(t, i), path) ==
            if path != [] && path[0] == t.children[i].tokens then None else InfoAt(t, path)
  {
    DropApart(t, i);
    if path != [] && path[0] != [] {
      DropFind(t, i, path[0][0]);
    }
  }

  /** After dropping child `i`, every other child is still found by its first token. */
  lemma DropFind(t: Tree, i: nat, first: nat)
    requires Apart(t.children) && i < |t.children| && t.childCount > 0
    ensures var before, after := FindChild(t.children, first), FindChild(DropChild(t, i).children, first);
            if before == Some(i) || before.None? then after.None?
            else after.Some? && DropChild(t, i).children[after.value] == t.children[before.value]
  {
    DropApart(t, i);
    var before, rest := FindChild(t.children, first), DropChild(t, i).children;
    if before.Some? && before.value != i {
      var j := if before.value == |t.children| - 1 then i else before.value;
      assert rest[j] == t.children[before.value];
      FindUnique(rest, j);
    }
  }

  /** Take out the node at the end of a route. */
  function Remove(t: Tree, route: Route): (r: Tree)
    requires Wf(t) && route != [] && HasRoute(t, route)
    ensures r.tokens == t.tokens && InfoOf(r) == InfoOf(t)
    decreases |route|
  {
    if |route| == 1 then DropChild(t, route[0])
    else SetChild(t, route[0], Remove(t.children[route[0]], route[1..]))
  }

  /** Removing a childless node takes its own path out of the tree, and nothing else. */
  lemma {:induction false} RemoveAt(t: Tree, route: Route, path: seq<Block>)
    requires Wf(t) && route != [] && HasRoute(t, route) && Sub(t, route).children == []
    ensures InfoAt(Remove(t, route), path) == if path == Labels(t, route) then None else InfoAt(t, path)
    decreases |route|
  {
    var i, c := route[0], t.children[route[0]];
    FindUnique(t.children, i);
    if |route| == 1 {
      assert route[1..] == [];
      DropChildAt(t, i, path);
      if path != [] && path[0] == c.tokens && path[1..] != [] {
        EmptyAt(c, path[1..]);
      }
      assert path != [] ==> path == [path[0]] + path[1..];
    } else {
      var below := Remove(c, route[1..]);
      SetChildAt(t, i, below, path);
      if path != [] {
        RemoveAt(c, route[1..], path[1..]);
        assert path == [path[0]] + path[1..];
        assert Labels(t, route)[1..] == Labels(c, route[1..]);
      }
    }
  }

  lemma {:induction false} RemoveWf(t: Tree, route: Route)
    requires Wf(t) && route != [] && HasRoute(t, route)
    ensures Wf(Remove(t, route))
    decreases |route|
  {
    if |route| == 1 {
      DropApart(t, route[0]);
    } else {
      RemoveWf(t.children[route[0]], route[1..]);
      SetChildWf(t, route[0], Remove(t.children[route[0]], route[1..]));
    }
  }

  lemma {:induction false} SizeDrop(before: Tree, after: Tree, n: nat, i: nat)
    requires n <= |before.children| && n <= |after.children| && i < |before.children|
    requires forall j :: 0 <= j < n && j != i ==> after.children[j] == before.children[j]
    ensures SizeBelow(after, n) + (if i < n then Size(before.children[i]) else 0)
         == SizeBelow(before, n) + (if i < n then Size(after.children[i]) else 0)
    decreases n
  {
    if n > 0 {
      SizeDrop(before, after, n - 1, i);
    }
  }

  /** Removing a childless node removes one node. */
  lemma {:induction false} RemoveSize(t: Tree, route: Route)
    requires Wf(t) && route != [] && HasRoute(t, route) && Sub(t, route).children == []
    ensures Size(Remove(t, route)) + 1 == Size(t)
    decreases |route|
  {
    var i, c, n := route[0], t.children[route[0]], |t.children| - 1;
    if |route| == 1 {
      assert route[1..] == [] && Sub(t, route) == c && Size(c) == 1;
      SizeDrop(t, DropChild(t, i), n, i);
      assert SizeBelow(t, n + 1) == SizeBelow(t, n) + Size(t.children[n]);
      assert Size(DropChild(t, i)) == 1 + SizeBelow(DropChild(t, i), n);
    } else {
      RemoveSize(c, route[1..]);
      SizeSet(t, i, Remove(c, route[1..]), |t.children|);
    }
  }

  // ---- Eviction ----

  /** `evict_lru` on the tree: nothing, or the tree without the oldest candidate, and its slab. */
  function Evict(t: Tree): (r: Option<(Tree, Option<nat>)>)
    requires Wf(t)
  {
    match Oldest(t, |t.children|)
    case None => None
    case Some(v) =>
      OldestIsCandidate(t, |t.children|);
      Some((Remove(t, v.route), SlabAt(t, v.route)))
  }

  function SlabAt(t: Tree, route: Route): (s: Option<nat>)
    requires HasRoute(t, route)
    ensures s == Sub(t, route).slab
    decreases |route|
  {
    if route == [] then t.slab else SlabAt(t.children[route[0]], route[1..])
  }

  /** What one eviction did: it took out the childless, unpinned node at `route`, and no other such node is older. */
  ghost predicate EvictedAt(t: Tree, after: Tree, slab: Option<nat>, route: Route)
    requires Wf(t)
  {
    && route != [] && HasRoute(t, route) && slab == Sub(t, route).slab
    && Sub(t, route).pins == 0 && Sub(t, route).childCount == 0 && Sub(t, route).slab.Some?
    && after == Remove(t, route)
    && (forall v {:trigger IsCandidate(t, |t.children|, v)} ::
          IsCandidate(t, |t.children|, v) ==> Sub(t, route).stamp <= v.stamp)
  }

  lemma EvictIsOldest(t: Tree)
    requires Wf(t)
    ensures Evict(t).Some? ==>
              EvictedAt(t, Evict(t).value.0, Evict(t).value.1, Oldest(t, |t.children|).value.route)
    ensures Evict(t).None? ==> forall v :: !IsCandidate(t, |t.children|, v)
  {
    var n := |t.children|;
    OldestIsCandidate(t, n);
    forall v | IsCandidate(t, n, v)
      ensures Oldest(t, n).Some? && Oldest(t, n).value.stamp <= v.stamp
    {
      OldestCovers(t, n, v);
    }
  }

  lemma {:induction false} SubWf(t: Tree, route: Route)
    requires Wf(t) && HasRoute(t, route)
    ensures Wf(Sub(t, route))
    decreases |route|
  {
    if route != [] {
      SubWf(t.children[route[0]], route[1..]);
    }
  }

  /** Pinned, or created without a slab: no candidate for eviction, with or without children. */
  predicate Unevictable(i: Info) {
    i.pins > 0 || i.slab.None?
  }

  /** One eviction keeps the shape and removes one node, which is none of those, and leaves all others as they were. */
  lemma EvictKeeps(t: Tree, path: seq<Block>)
    requires Wf(t) && Evict(t).Some?
    ensures var after := Evict(t).value.0;
            && Wf(after) && Size(after) + 1 == Size(t)
            && (InfoAt(after, path).Some? ==> InfoAt(after, path) == InfoAt(t, path))
            && (InfoAt(t, path).Some? && Unevictable(InfoAt(t, path).value) ==> InfoAt(after, path).Some?)
  {
    OldestIsCandidate(t, |t.children|);
    var route := Oldest(t, |t.children|).value.route;
    SubWf(t, route);
    RemoveWf(t, route);
    RemoveSize(t, route);
    RemoveAt(t, route, path);
    LabelsLead(t, route);
  }

  /** Any number of evictions in a row, ending early when nothing is left to evict. */
  ghost function Evictions(t: Tree, n: nat): (r: Tree)
    requires Wf(t)
    ensures Wf(r)
    decreases n
  {
    if n == 0 || Evict(t).None? then t
    else
      EvictKeeps(t, []);
      Evictions(Evict(t).value.0, n - 1)
  }

  /** Evictions change nothing of what they leave. */
  lemma {:induction false} EvictionsOnlyRemove(t: Tree, n: nat, path: seq<Block>)
    requires Wf(t) && InfoAt(Evictions(t, n), path).Some?
    ensures InfoAt(Evictions(t, n), path) == InfoAt(t, path)
    decreases n
  {
    if n > 0 && Evict(t).Some? {
      EvictKeeps(t, path);
      EvictionsOnlyRemove(Evict(t).value.0, n - 1, path);
    }
  }

  /** No sequence of evictions removes or changes a pinned node or one without a slab, or removes its ancestors. */
  lemma {:induction false} PinnedSurvives(t: Tree, n: nat, path: seq<Block>)
    requires Wf(t) && InfoAt(t, path).Some? && Unevictable(InfoAt(t, path).value)
    ensures InfoAt(Evictions(t, n), path) == InfoAt(t, path)
    ensures forall k :: 0 <= k <= |path| ==> At(Evictions(t, n), path[..k]).Some?
    decreases n
  {
    if n > 0 && Evict(t).Some? {
      EvictKeeps(t, path);
      PinnedSurvives(Evict(t).value.0, n - 1, path);
    } else {
      forall k | 0 <= k <= |path|
        ensures At(t, path[..k]).Some?
      {
        AncestorsThere(t, path, k);
      }
    }
  }

  // ---- Evicting until there is nothing left to evict ----

  lemma {:induction false} EvictionsEnd(t: Tree, n: nat)
    requires Wf(t) && Size(t) <= n
    ensures Evict(Evictions(t, n)).None?
    decreases n
  {
    if Evict(t).Some? {
      EvictKeeps(t, []);
      EvictionsEnd(Evict(t).value.0, n - 1);
    }
  }

  /** When nothing can be evicted, every node leads down to an unevictable one. */
  lemma {:induction false} LeadsToUnevictable(t: Tree, path: seq<Block>) returns (deeper: seq<Block>)
    requires Wf(t) && Evict(t).None? && path != [] && At(t, path).Some?
    ensures path <= deeper && InfoAt(t, deeper).Some? && Unevictable(InfoAt(t, deeper).value)
    decreases At(t, path).value
  {
    var u := At(t, path).value;
    deeper := path;
    if !Unevictable(InfoOf(u)) {
      var route := RouteTo(t, path);
      SubWf(t, route);
      if u.children == [] {
        OldestCovers(t, |t.children|, Victim(u.stamp, route));
        assert false;
      }
      AtChild(t, path, 0);
      deeper := LeadsToUnevictable(t, path + [u.children[0].tokens]);
    }
  }

  /** Evicting as long as possible leaves below the root exactly the unevictable nodes and their ancestors. */
  lemma EvictedOut(t: Tree, path: seq<Block>)
    requires Wf(t) && path != []
    ensures InfoAt(Evictions(t, Size(t)), path).Some? <==>
            exists deeper :: path <= deeper && InfoAt(t, deeper).Some? && Unevictable(InfoAt(t, deeper).value)
  {
    var left := Evictions(t, Size(t));
    EvictionsEnd(t, Size(t));
    if InfoAt(left, path).Some? {
      var deeper := LeadsToUnevictable(left, path);
      EvictionsOnlyRemove(t, Size(t), deeper);
    }
    forall deeper | path <= deeper && InfoAt(t, deeper).Some? && Unevictable(InfoAt(t, deeper).value)
      ensures InfoAt(left, path).Some?
    {
      PinnedSurvives(t, Size(t), deeper);
      assert deeper[..|path|] == path;
    }
  }

  // ---- Counting candidates ----

  /** `count_evictable` below a node: the candidates among the first `n` children and all below them. */
  function CountEvictable(t: Tree, n: nat): nat
    requires n <= |t.children|
    decreases t, n
  {
    if n == 0 then 0
    else
      var c := t.children[n - 1];
      CountEvictable(t, n - 1) + (if Candidate(c) then 1 else 0) + CountEvictable(c, |c.children|)
  }

  /** A route, through the first `n` children, to an unpinned childless node with a slab. */
  ghost predicate ToCandidate(t: Tree, n: nat, route: Route) {
    && route != [] && route[0] < n && HasRoute(t, route)
    && Sub(t, route).pins == 0 && Sub(t, route).childCount == 0 && Sub(t, route).slab.Some?
  }

  lemma ToCandidateStep(t: Tree, n: nat, route: Route)
    requires 0 < n <= |t.children|
    ensures var c := t.children[n - 1];
            ToCandidate(t, n, route) <==>
            || ToCandidate(t, n - 1, route) || (route == [n - 1] && Candidate(c))
            || (route != [] && route[0] == n - 1 && ToCandidate(c, |c.children|, route[1..]))
  {
    if route != [] && route[0] == n - 1 {
      var c, rest := t.children[n - 1], route[1..];
      assert HasRoute(t, route) <==> HasRoute(c, rest);
      if rest == [] {
        assert route == [n - 1] && Sub(t, route) == c;
      } else {
        assert HasRoute(c, rest) ==> rest[0] < |c.children| && Sub(t, route) == Sub(c, rest);
      }
    }
  }

  /** The count is the number of those routes. */
  lemma {:induction false} CountsCandidates(t: Tree, n: nat) returns (routes: set<Route>)
    requires n <= |t.children|
    ensures |routes| == CountEvictable(t, n)
    ensures forall route :: route in routes <==> ToCandidate(t, n, route)
    decreases t, n
  {
    if n == 0 {
      routes := {};
    } else {
      var c := t.children[n - 1];
      var before := CountsCandidates(t, n - 1);
      var below := CountsCandidates(c, |c.children|);
      routes := Combined(t, n, before, below);
    }
  }

  lemma Combined(t: Tree, n: nat, before: set<Route>, below: set<Route>) returns (routes: set<Route>)
    requires 0 < n <= |t.children|
    requires forall route :: route in before <==> ToCandidate(t, n - 1, route)
    requires var c := t.children[n - 1]; forall route :: route in below <==> ToCandidate(c, |c.children|, route)
    ensures |routes| == |before| + (if Candidate(t.children[n - 1]) then 1 else 0) + |below|
    ensures forall route :: route in routes <==> ToCandidate(t, n, route)
  {
    var own: set<Route> := if Candidate(t.children[n - 1]) then {[n - 1]} else {};
    var deeper := set route | route in below :: [n - 1] + route;
    routes := before + own + deeper;
    forall route
      ensures route in routes <==> ToCandidate(t, n, route)
      ensures route in deeper ==> route !in before && route !in own
    {
      Extended(n - 1, below, route);
      ToCandidateStep(t, n, route);
    }
    SameNumber(n - 1, below, deeper);
    assert before !! own;
  }

  lemma Extended(i: nat, below: set<Route>, route: Route)
    ensures route in (set r | r in below :: [i] + r) <==> route != [] && route[0] == i && route[1..] in below
  {
    if route != [] && route[0] == i && route[1..] in below {
      assert route == [i] + route[1..];
    }
    forall r | r in below && route == [i] + r
      ensures route[1..] == r
    {
    }
  }

  lemma {:induction false} SameNumber(i: nat, below: set<Route>, deeper: set<Route>)
    requires deeper == set r | r in below :: [i] + r
    ensures |deeper| == |below|
    decreases below
  {
    if below != {} {
      var r :| r in below;
      var rest := below - {r};
      SameNumber(i, rest, set q | q in rest :: [i] + q);
      forall route
        ensures route in deeper - {[i] + r} <==> route in (set q | q in rest :: [i] + q)
      {
        Extended(i, below, route);
        Extended(i, rest, route);
        assert route != [] ==> route == [route[0]] + route[1..];
        assert ([i] + r)[1..] == r;
      }
      assert deeper - {[i] + r} == set q | q in rest :: [i] + q;
    }
  }

  /** Eviction is refused exactly when the count is zero. */
  lemma {:induction false} EvictableIffCounted(t: Tree, n: nat)
    requires n <= |t.children|
    ensures Oldest(t, n).None? <==> CountEvictable(t, n) == 0
    decreases t, n
  {
    if n > 0 {
      EvictableIffCounted(t, n - 1);
      EvictableIffCounted(t.children[n - 1], |t.children[n - 1].children|);
    }
  }

  // ---- What eviction leaves spelled ----

  /** The tree spells what it did, but for what the route spelled. */
  ghost predicate Unspelled(t: Tree, after: Tree, route: Route)
    requires HasRoute(t, route)
  {
    forall s :: Holds(after, s) <==> Holds(t, s) && s != Joined(Labels(t, route))
  }

  lemma {:induction false} RemoveCut(t: Tree, route: Route)
    requires Wf(t) && Cut(t) && route != [] && HasRoute(t, route)
    ensures Cut(Remove(t, route))
    decreases |route|
  {
    if |route| > 1 {
      RemoveCut(t.children[route[0]], route[1..]);
    }
  }

  lemma EvictSpells(t: Tree)
    requires Wf(t) && Cut(t) && Evict(t).Some?
    ensures Cut(Evict(t).value.0)
    ensures var route := Oldest(t, |t.children|).value.route;
            HasRoute(t, route) && Unspelled(t, Evict(t).value.0, route)
  {
    EvictIsOldest(t);
    var after, route := Evict(t).value.0, Oldest(t, |t.children|).value.route;
    SubWf(t, route);
    RemoveWf(t, route);
    RemoveCut(t, route);
    LabelsCut(t, route);
    CutOnce(Labels(t, route));
    forall s
      ensures Holds(after, s) <==> Holds(t, s) && s != Joined(Labels(t, route))
    {
      HoldsIff(t, s);
      HoldsIff(after, s);
      RemoveAt(t, route, Blocks(s));
    }
  }

  // ---- The tree as an object ----

  /** Exactly the longest prefix of the query is pinned and stamped. */
  ghost predicate LookedUp(t: Tree, after: Tree, blocks: seq<Block>, now: nat) {
    forall path ::
      InfoAt(after, path) == Touched(InfoAt(t, path), OnPath(path, blocks, Depth(t, blocks)), now)
  }

  lemma LookupIs(t: Tree, blocks: seq<Block>, now: nat)
    requires Wf(t)
    ensures LookedUp(t, Lookup(t, blocks, now).tree, blocks, now)
  {
    forall path
      ensures InfoAt(Lookup(t, blocks, now).tree, path) ==
              Touched(InfoAt(t, path), OnPath(path, blocks, Depth(t, blocks)), now)
    {
      LookupPins(t, blocks, now, path);
    }
  }

  /** A lookup answers for the route that spells what it matched. */
  lemma LookupFinds(t: Tree, tokens: seq<nat>, now: nat) returns (hit: Route)
    requires Wf(t) && Cut(t)
    ensures var r := Lookup(t, Blocks(tokens), now);
            && r.matched <= |tokens| && (exists k :: tokens[..r.matched] == FirstBlocks(tokens, k))
            && (forall j :: Holds(t, FirstBlocks(tokens, j)) ==> |FirstBlocks(tokens, j)| <= r.matched)
            && (r.matched == |tokens| <==> Holds(t, tokens))
            && HasRoute(t, hit) && Joined(Labels(t, hit)) == tokens[..r.matched]
            && r.ids == SlabsOf(t, hit) && PinnedAlong(t, r.tree, hit, now)
  {
    var k := LookupSpells(t, tokens, now);
    hit := LookupRoute(t, Blocks(tokens), now);
    BlocksUpTo(tokens, Depth(t, Blocks(tokens)));
    LookupCounts(t, Blocks(tokens), now);
    assert FirstBlocks(tokens, |tokens|) == tokens;
    assert tokens[..|tokens|] == tokens;
  }

  datatype Answer = Found(matched: nat, ids: seq<nat>) | EmptySequence

  class RadixTree {
    var root: Tree
    var nodeCount: nat

    ghost predicate Valid()
      reads this
    {
      Wf(root) && Cut(root) && nodeCount == Size(root)
    }

    constructor ()
      ensures Valid() && root.children == []
    {
      root := Root();
      nodeCount := 1;
    }

    /** `lookup`: the longest run of whole blocks of the query that the tree spells, pinned. */
    method LookupTokens(tokens: seq<nat>, now: nat) returns (r: Answer)
      requires Valid()
      modifies `root
      ensures Valid() && (r.EmptySequence? <==> tokens == [])
      ensures tokens == [] ==> root == old(root)
      ensures r.Found? ==> r.matched <= |tokens| && exists k :: tokens[..r.matched] == FirstBlocks(tokens, k)
      ensures r.Found? ==>
                forall j :: Holds(old(root), FirstBlocks(tokens, j)) ==> |FirstBlocks(tokens, j)| <= r.matched
      ensures r.Found? ==> exists hit ::
                && HasRoute(old(root), hit) && Joined(Labels(old(root), hit)) == tokens[..r.matched]
                && r.ids == SlabsOf(old(root), hit) && PinnedAlong(old(root), root, hit, now)
      ensures r.Found? ==> (r.matched == |tokens| <==> Holds(old(root), tokens))
      ensures LookedUp(old(root), root, Blocks(tokens), now)
    {
      if tokens == [] {
        assert LookedUp(root, root, [], now);
        return EmptySequence;
      }
      var hit := Lookup(root, Blocks(tokens), now);
      LookupSize(root, Blocks(tokens), now);
      LookupWf(root, Blocks(tokens), now);
      LookupCut(root, Blocks(tokens), now);
      LookupIs(root, Blocks(tokens), now);
      ghost var route := LookupFinds(root, tokens, now);
      root := hit.tree;
      r := Found(hit.matched, hit.ids);
    }

    /** `insert`: the query's path, as far as nothing collides with it. */
    method InsertTokens(tokens: seq<nat>, ids: seq<nat>, now: nat) returns (r: Option<nat>)
      requires Valid()
      modifies this
      ensures Valid() && (r.None? <==> tokens == [])
      ensures r.Some? ==> nodeCount == old(nodeCount) + r.value
      ensures r.None? ==> root == old(root)
      ensures r.Some? ==> exists k :: Stored(old(root), root, tokens, k)
      ensures r.Some? ==> forall path :: InfoAt(root, path) == Inserted(old(root), Blocks(tokens), ids, now, path)
    {
      if tokens == [] {
        return None;
      }
      var grown := Insert(root, Blocks(tokens), ids, now);
      InsertWf(root, Blocks(tokens), ids, now);
      InsertCut(root, Blocks(tokens), ids, now);
      InsertCounts(root, Blocks(tokens), ids, now);
      ghost var k := InsertSpells(root, tokens, ids, now);
      assert Stored(root, grown.tree, tokens, k);
      forall path
        ensures InfoAt(grown.tree, path) == Inserted(root, Blocks(tokens), ids, now, path)
      {
        InsertAt(root, Blocks(tokens), ids, now, path);
      }
      root := grown.tree;
      nodeCount := nodeCount + grown.inserted;
      r := Some(grown.inserted);
    }

    /** `evict_lru`: refused exactly when there is no candidate. */
    method EvictLru() returns (r: Option<Option<nat>>)
      requires Valid()
      modifies this
      ensures Valid()
      ensures r.None? ==> root == old(root) && forall v :: !IsCandidate(root, |root.children|, v)
      ensures r.Some? ==>
                exists route :: EvictedAt(old(root), root, r.value, route) && Unspelled(old(root), root, route)
    {
      EvictIsOldest(root);
      match Evict(root) {
        case None => return None;
        case Some(out) =>
          EvictKeeps(root, []);
          EvictSpells(root);
          ghost var route := Oldest(root, |root.children|).value.route;
          assert EvictedAt(root, out.0, out.1, route);
          root := out.0;
          nodeCount := nodeCount - 1;
          return Some(out.1);
      }
    }
  }

  lemma {:induction false} LookupSize(t: Tree, blocks: seq<Block>, now: nat)
    ensures Size(Lookup(t, blocks, now).tree) == Size(t)
    decreases |blocks|
  {
    if blocks != [] && Child(t, blocks[0]).Some? {
      var i := Child(t, blocks[0]).value;
      var c := t.children[i];
      var c1 := c.(pins := c.pins + 1, stamp := now);
      LookupSize(c1, blocks[1..], now);
      SizeSame(c, c1, |c.children|);
      SizeSet(t, i, Lookup(c1, blocks[1..], now).tree, |t.children|);
    }
  }

  // ---- Lookups after insertions ----

  lemma BuiltFinds(empty: Tree, built: Tree, a: seq<nat>, b: seq<nat>, r: Answer)
    requires empty.children == [] && if b == [] then built == empty else exists k :: Stored(empty, built, b, k)
    requires r.Found? ==> r.matched <= |a| && exists hit :: Spells(built, hit, a[..r.matched])
    requires r.Found? ==> forall k :: Holds(built, FirstBlocks(a, k)) ==> |FirstBlocks(a, k)| <= r.matched
    ensures r.Found? ==> a[..r.matched] <= b
    ensures r.Found? ==> forall k :: FirstBlocks(a, k) == FirstBlocks(b, k) ==> |FirstBlocks(a, k)| <= r.matched
  {
    forall s
      ensures Holds(built, s) <==> exists j :: s == FirstBlocks(b, j)
    {
      if b == [] {
        EmptyHolds(empty, s);
        assert FirstBlocks(b, 0) == [];
      } else {
        var k :| Stored(empty, built, b, k);
        OnlyStored(empty, built, b, k, s);
      }
    }
    assert r.Found? ==> Holds(built, a[..r.matched]);
  }

  /** Inserted into an empty tree, `b` is found by `a` in the whole blocks they have in common, and no further. */
  method LookupAfterInsert(a: seq<nat>, b: seq<nat>, ids: seq<nat>, now: nat, later: nat) returns (r: Answer)
    ensures r.EmptySequence? <==> a == []
    ensures r.Found? ==> r.matched <= |a| && a[..r.matched] <= b
    ensures r.Found? ==> forall k :: FirstBlocks(a, k) == FirstBlocks(b, k) ==> |FirstBlocks(a, k)| <= r.matched
  {
    var tree := new RadixTree();
    ghost var empty := tree.root;
    var _ := tree.InsertTokens(b, ids, now);
    ghost var built := tree.root;
    r := tree.LookupTokens(a, later);
    if r.Found? {
      ghost var hit :| HasRoute(built, hit) && Joined(Labels(built, hit)) == a[..r.matched];
      assert Spells(built, hit, a[..r.matched]);
    }
    BuiltFinds(empty, built, a, b, r);
  }
}
