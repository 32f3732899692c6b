/**
 The radix tree seen through token sequences: which sequences its paths spell, which of them a lookup finds,
 and which an insertion adds. A path is a route, the positions of children from the root down.
 */
module RadixTokens {
  import opened Machine
  import opened RadixTrees

  /** Positions of children, from the root down. */
  type Route = seq<nat>

  ghost predicate HasRoute(t: Tree, route: Route)
    decreases |route|
  {
    route == [] || (route[0] < |t.children| && HasRoute(t.children[route[0]], route[1..]))
  }

  ghost function Sub(t: Tree, route: Route): Tree
    requires HasRoute(t, route)
    decreases |route|
  {
    if route == [] then t else Sub(t.children[route[0]], route[1..])
  }

  /** The blocks along a route. */
  ghost function Labels(t: Tree, route: Route): seq<Block>
    requires HasRoute(t, route)
    decreases |route|
  {
    if route == [] then [] else [t.children[route[0]].tokens] + Labels(t.children[route[0]], route[1..])
  }

  lemma {:induction false} LabelsLead(t: Tree, route: Route)
    requires Wf(t) && HasRoute(t, route)
    ensures At(t, Labels(t, route)) == Some(Sub(t, route))
    decreases |route|
  {
    if route != [] {
      FindUnique(t.children, route[0]);
      LabelsLead(t.children[route[0]], route[1..]);
      assert Labels(t, route)[1..] == Labels(t.children[route[0]], route[1..]);
    }
  }

  lemma {:induction false} RouteTo(t: Tree, path: seq<Block>) returns (route: Route)
    requires At(t, path).Some?
    ensures |route| == |path| && HasRoute(t, route) && Sub(t, route) == At(t, path).value && Labels(t, route) == path
    decreases |path|
  {
    if path == [] {
      route := [];
    } else {
      var i := Child(t, path[0]).value;
      var rest := RouteTo(t.children[i], path[1..]);
      route := [i] + rest;
      assert route[1..] == rest;
      assert path == [path[0]] + path[1..];
    }
  }

  lemma {:induction false} AtChild(t: Tree, path: seq<Block>, i: nat)
    requires Wf(t) && At(t, path).Some? && i < |At(t, path).value.children|
    ensures At(t, path + [At(t, path).value.children[i].tokens]) == Some(At(t, path).value.children[i])
    decreases |path|
  {
    var more := path + [At(t, path).value.children[i].tokens];
    if path == [] {
      FindUnique(t.children, i);
      assert more[1..] == [];
    } else {
      AtChild(t.children[Child(t, path[0]).value], path[1..], i);
      assert more[0] == path[0] && more[1..] == path[1..] + [At(t, path).value.children[i].tokens];
    }
  }

  // ---- What the tree spells ----

  /** Every block has one to sixteen tokens, and one with fewer has nothing below it. */
  ghost predicate Cut(t: Tree) {
    forall i :: 0 <= i < |t.children| ==>
      && 0 < |t.children[i].tokens| <= 16
      && (|t.children[i].tokens| < 16 ==> t.children[i].children == [])
      && Cut(t.children[i])
  }

  /** The route's blocks, joined, are the tokens. */
  ghost predicate Spells(t: Tree, route: Route, tokens: seq<nat>) {
    HasRoute(t, route) && Joined(Labels(t, route)) == tokens
  }

  /** Some path of the tree spells the tokens. */
  ghost predicate Holds(t: Tree, tokens: seq<nat>) {
    exists route :: Spells(t, route, tokens)
  }

  lemma {:induction false} LabelsCut(t: Tree, route: Route)
    requires Cut(t) && HasRoute(t, route)
    ensures WellCut(Labels(t, route)) && |Labels(t, route)| == |route|
    decreases |route|
  {
    if route != [] {
      LabelsCut(t.children[route[0]], route[1..]);
    }
  }

  /** A sequence is spelled exactly when its blocks lead to a node. */
  lemma HoldsIff(t: Tree, tokens: seq<nat>)
    requires Wf(t) && Cut(t)
    ensures Holds(t, tokens) <==> At(t, Blocks(tokens)).Some?
  {
    forall route | Spells(t, route, tokens)
      ensures At(t, Blocks(tokens)).Some?
    {
      LabelsCut(t, route);
      CutOnce(Labels(t, route));
      LabelsLead(t, route);
    }
    if At(t, Blocks(tokens)).Some? {
      var route := RouteTo(t, Blocks(tokens));
      assert Spells(t, route, tokens);
    }
  }

  /** The tokens of the first `k` blocks of a query: all of it, if it has no more. */
  function FirstBlocks(tokens: seq<nat>, k: nat): (r: seq<nat>)
    ensures r == if 16 * k <= |tokens| then tokens[..16 * k] else tokens
  {
    tokens[..if 16 * k <= |tokens| then 16 * k else |tokens|]
  }

  lemma {:induction false} JoinedLength(blocks: seq<Block>, k: nat)
    requires WellCut(blocks) && k <= |blocks|
    ensures |Joined(blocks[..k])| == if 16 * k <= |Joined(blocks)| then 16 * k else |Joined(blocks)|
    decreases k
  {
    if k == 0 {
      assert blocks[..0] == [];
    } else {
      assert blocks[..k][1..] == blocks[1..][..k - 1];
      JoinedLength(blocks[1..], k - 1);
      if |blocks| > 1 {
        assert |blocks[0]| == 16;
      } else {
        assert blocks[1..] == [];
      }
    }
  }

  lemma BlocksUpTo(tokens: seq<nat>, k: nat)
    requires k <= |Blocks(tokens)|
    ensures Joined(Blocks(tokens)[..k]) == FirstBlocks(tokens, k)
    ensures Blocks(FirstBlocks(tokens, k)) == Blocks(tokens)[..k]
  {
    JoinedSplit(Blocks(tokens), k);
    CutOnce(Blocks(tokens)[..k]);
    JoinedLength(Blocks(tokens), k);
  }

  lemma BlocksCount(tokens: seq<nat>, k: nat)
    ensures k < |Blocks(tokens)| <==> 16 * k < |tokens|
  {
    var blocks := Blocks(tokens);
    var all := |blocks|;
    assert blocks[..all] == blocks;
    JoinedLength(blocks, all);
    if k < all {
      JoinedLength(blocks, k);
      JoinedPrefix(blocks, k);
    }
  }

  /** Beyond its last block, a query has no more. */
  lemma Capped(tokens: seq<nat>, j: nat) returns (k: nat)
    ensures k <= j && k <= |Blocks(tokens)| && FirstBlocks(tokens, j) == FirstBlocks(tokens, k)
  {
    k := if j <= |Blocks(tokens)| then j else |Blocks(tokens)|;
    BlocksCount(tokens, k);
  }

  // ---- What a lookup finds ----

  /** The slabs met along a route. */
  ghost function SlabsOf(t: Tree, route: Route): seq<nat>
    requires HasRoute(t, route)
    decreases |route|
  {
    if route == [] then []
    else
      var c := t.children[route[0]];
      (if c.slab.Some? then [c.slab.value] else []) + SlabsOf(c, route[1..])
  }

  /** The tree keeps its form and content, with one pin more and the time on the nodes of the route, and on no other. */
  ghost predicate PinnedAlong(t: Tree, after: Tree, hit: Route, now: nat) {
    forall route ::
      && (HasRoute(after, route) <==> HasRoute(t, route))
      && (HasRoute(t, route) ==> NodePinned(Sub(t, route), Sub(after, route), route != [] && route <= hit, now))
  }

  ghost predicate NodePinned(node: Tree, after: Tree, on: bool, now: nat) {
    && after.tokens == node.tokens && after.slab == node.slab && after.childCount == node.childCount
    && after.pins == (if on then node.pins + 1 else node.pins)
    && after.stamp == (if on then now else node.stamp)
  }

  lemma {:induction false} LookupRoute(t: Tree, blocks: seq<Block>, now: nat) returns (hit: Route)
    ensures HasRoute(t, hit) && Labels(t, hit) == blocks[..Depth(t, blocks)]
    ensures Lookup(t, blocks, now).ids == SlabsOf(t, hit)
    ensures PinnedAlong(t, Lookup(t, blocks, now).tree, hit, now)
    decreases |blocks|
  {
    if blocks == [] || Child(t, blocks[0]).None? {
      hit := [];
    } else {
      var i := Child(t, blocks[0]).value;
      var c := t.children[i];
      var c1 := c.(pins := c.pins + 1, stamp := now);
      var below := LookupRoute(c1, blocks[1..], now);
      SameRoute(c, c1, below);
      SameBelow(c, c1, blocks[1..], []);
      hit := [i] + below;
      assert hit[1..] == below;
      assert blocks[..Depth(t, blocks)] == [blocks[0]] + blocks[1..][..Depth(c, blocks[1..])];
      PinnedDown(t, i, Lookup(c1, blocks[1..], now).tree, below, now);
    }
  }

  lemma SameRoute(c: Tree, c1: Tree, route: Route)
    requires c1.children == c.children
    ensures HasRoute(c1, route) == HasRoute(c, route)
    ensures HasRoute(c, route) ==> Labels(c1, route) == Labels(c, route) && SlabsOf(c1, route) == SlabsOf(c, route)
    ensures HasRoute(c, route) && route != [] ==> Sub(c1, route) == Sub(c, route)
  {
  }

  /** Pinning a child and along a route below it pins along the route through it. */
  lemma PinnedDown(t: Tree, i: nat, below: Tree, hit: Route, now: nat)
    requires i < |t.children|
    requires var c := t.children[i]; PinnedAlong(c.(pins := c.pins + 1, stamp := now), below, hit, now)
    ensures PinnedAlong(t, SetChild(t, i, below), [i] + hit, now)
  {
    var c, after := t.children[i], SetChild(t, i, below);
    var c1 := c.(pins := c.pins + 1, stamp := now);
    forall route
      ensures HasRoute(after, route) <==> HasRoute(t, route)
      ensures HasRoute(t, route) ==>
                NodePinned(Sub(t, route), Sub(after, route), route != [] && route <= [i] + hit, now)
    {
      if route != [] && route[0] == i {
        var rest := route[1..];
        SameRoute(c, c1, rest);
        assert HasRoute(below, rest) <==> HasRoute(c1, rest);
        assert route == [i] + rest;
        assert route <= [i] + hit <==> rest <= hit by {
          assert ([i] + hit)[1..] == hit;
        }
      }
    }
  }

  /** A lookup matches the longest run of whole blocks of the query that the tree spells. */
  lemma LookupSpells(t: Tree, tokens: seq<nat>, now: nat) returns (k: nat)
    requires Wf(t) && Cut(t)
    ensures var m := Lookup(t, Blocks(tokens), now).matched;
            && m <= |tokens| && tokens[..m] == FirstBlocks(tokens, k) && Holds(t, tokens[..m])
            && forall j :: Holds(t, FirstBlocks(tokens, j)) ==> |FirstBlocks(tokens, j)| <= m
  {
    var blocks := Blocks(tokens);
    k := Depth(t, blocks);
    var m := Lookup(t, blocks, now).matched;
    LookupCounts(t, blocks, now);
    BlocksUpTo(tokens, k);
    DepthIsLongest(t, blocks, k);
    HoldsIff(t, FirstBlocks(tokens, k));
    forall j | Holds(t, FirstBlocks(tokens, j))
      ensures |FirstBlocks(tokens, j)| <= m
    {
      var i := Capped(tokens, j);
      BlocksUpTo(tokens, i);
      HoldsIff(t, FirstBlocks(tokens, i));
      DepthIsLongest(t, blocks, i);
    }
  }

  // ---- What an insertion adds ----

  /** The tree spells a sequence that agrees with the query on the first `m` tokens and the one after them. */
  ghost predicate Rival(t: Tree, tokens: seq<nat>, m: nat, s: seq<nat>) {
    Holds(t, s) && m < |tokens| && m < |s| && s[..m + 1] == tokens[..m + 1]
  }

  /** Block `k` of the query is not in the tree, but something that begins with its first token is. */
  ghost predicate Blocked(t: Tree, tokens: seq<nat>, k: nat) {
    16 * k < |tokens| && !Holds(t, FirstBlocks(tokens, k + 1)) && exists s :: Rival(t, tokens, 16 * k, s)
  }

  lemma FirstOf(blocks: seq<Block>, k: nat)
    requires k < |blocks| && blocks[k] != []
    ensures var m := |Joined(blocks[..k])|; m < |Joined(blocks)| && Joined(blocks)[m] == blocks[k][0]
  {
    JoinedSplit(blocks, k);
    assert blocks[k..][0] == blocks[k];
  }

  lemma {:induction false} AtNext(t: Tree, blocks: seq<Block>, k: nat)
    requires k < |blocks|
    ensures At(t, blocks[..k + 1]).Some? <==>
            At(t, blocks[..k]).Some? && Child(At(t, blocks[..k]).value, blocks[k]).Some?
    decreases k
  {
    var path := blocks[..k + 1];
    assert path[0] == blocks[0] && path[1..] == blocks[1..][..k];
    if k == 0 {
      assert blocks[..0] == [] && path[1..] == [];
    } else if Child(t, blocks[0]).Some? {
      AtNext(t.children[Child(t, blocks[0]).value], blocks[1..], k - 1);
      assert blocks[..k][0] == blocks[0] && blocks[..k][1..] == blocks[1..][..k - 1];
    } else {
      assert blocks[..k][0] == blocks[0];
    }
  }

  /** A path that goes on from the first `k` blocks with a block of its own. */
  lemma Branches(blocks: seq<Block>, k: nat, block: Block)
    requires k < |blocks| && blocks[k] != [] && block != [] && block[0] == blocks[k][0]
    ensures var m, s := |Joined(blocks[..k])|, Joined(blocks[..k] + [block]);
            m < |s| && m < |Joined(blocks)| && s[..m + 1] == Joined(blocks)[..m + 1]
  {
    var path := blocks[..k] + [block];
    assert path[..k] == blocks[..k];
    FirstOf(path, k);
    FirstOf(blocks, k);
    JoinedSplit(path, k);
    JoinedSplit(blocks, k);
  }

  lemma BlockedBy(t: Tree, tokens: seq<nat>, k: nat, m: nat) returns (s: seq<nat>)
    requires Wf(t) && Collides(t, Blocks(tokens), k) && m == |Joined(Blocks(tokens)[..k])|
    ensures Rival(t, tokens, m, s)
  {
    var start := Blocks(tokens)[..k];
    var node := At(t, start).value;
    var i := FindChild(node.children, Blocks(tokens)[k][0]).value;
    var path := start + [node.children[i].tokens];
    AtChild(t, start, i);
    var route := RouteTo(t, path);
    s := Joined(path);
    assert Spells(t, route, s);
    Branches(Blocks(tokens), k, node.children[i].tokens);
  }

  lemma ShorterStart(s: seq<nat>, tokens: seq<nat>, m: nat)
    requires m < |tokens| && m < |s| && s[..m + 1] == tokens[..m + 1]
    ensures s[..m] == tokens[..m] && s[m] == tokens[m]
  {
    assert s[..m] == s[..m + 1][..m] && tokens[..m] == tokens[..m + 1][..m];
    assert s[m] == s[..m + 1][m] && tokens[m] == tokens[..m + 1][m];
  }

  /** Two queries that agree on a number of whole blocks and one token more have those blocks in common. */
  lemma SameStart(tokens: seq<nat>, s: seq<nat>, k: nat)
    requires 16 * k < |tokens| && 16 * k < |s| && s[..16 * k + 1] == tokens[..16 * k + 1]
    ensures k < |Blocks(tokens)| && k < |Blocks(s)| && Blocks(s)[..k] == Blocks(tokens)[..k]
    ensures Blocks(s)[k][0] == Blocks(tokens)[k][0]
  {
    ShorterStart(s, tokens, 16 * k);
    FirstToken(tokens, k);
    FirstToken(s, k);
  }

  lemma FirstToken(tokens: seq<nat>, k: nat)
    requires 16 * k < |tokens|
    ensures k < |Blocks(tokens)| && Blocks(tokens)[k][0] == tokens[16 * k]
    ensures Blocks(tokens)[..k] == Blocks(tokens[..16 * k])
  {
    BlocksCount(tokens, k);
    BlocksUpTo(tokens, k);
    FirstOf(Blocks(tokens), k);
  }

  lemma CollidesBy(t: Tree, blocks: seq<Block>, other: seq<Block>, k: nat)
    requires k < |blocks| && k < |other| && blocks[k] != [] && other[k] != []
    requires other[..k] == blocks[..k] && other[k][0] == blocks[k][0]
    requires At(t, other).Some? && At(t, blocks[..k + 1]).None?
    ensures Collides(t, blocks, k)
  {
    AncestorsThere(t, other, k + 1);
    AtNext(t, other, k);
    AtNext(t, blocks, k);
  }

  lemma NextBlock(t: Tree, tokens: seq<nat>, k: nat)
    requires Wf(t) && Cut(t) && 16 * k < |tokens|
    ensures k < |Blocks(tokens)| && |Joined(Blocks(tokens)[..k])| == 16 * k
    ensures Holds(t, FirstBlocks(tokens, k + 1)) <==> At(t, Blocks(tokens)[..k + 1]).Some?
  {
    BlocksCount(tokens, k);
    BlocksUpTo(tokens, k);
    BlocksUpTo(tokens, k + 1);
    HoldsIff(t, FirstBlocks(tokens, k + 1));
  }

  lemma BlockedCollides(t: Tree, tokens: seq<nat>, k: nat, s: seq<nat>)
    requires Wf(t) && Cut(t) && Rival(t, tokens, 16 * k, s) && !Holds(t, FirstBlocks(tokens, k + 1))
    ensures Collides(t, Blocks(tokens), k)
  {
    NextBlock(t, tokens, k);
    SameStart(tokens, s, k);
    HoldsIff(t, s);
    CollidesBy(t, Blocks(tokens), Blocks(s), k);
  }

  lemma CollidesBlocked(t: Tree, tokens: seq<nat>, k: nat)
    requires Wf(t) && Cut(t) && 16 * k < |tokens| && Collides(t, Blocks(tokens), k)
    ensures Blocked(t, tokens, k)
  {
    NextBlock(t, tokens, k);
    AtNext(t, Blocks(tokens), k);
    var s := BlockedBy(t, tokens, k, 16 * k);
  }

  /** A query is blocked exactly where its blocks collide. */
  lemma BlockedIff(t: Tree, tokens: seq<nat>, k: nat)
    requires Wf(t) && Cut(t) && 16 * k < |tokens|
    ensures Blocked(t, tokens, k) <==> Collides(t, Blocks(tokens), k)
  {
    if Collides(t, Blocks(tokens), k) {
      CollidesBlocked(t, tokens, k);
    } else if Blocked(t, tokens, k) {
      var s :| Rival(t, tokens, 16 * k, s);
      BlockedCollides(t, tokens, k, s);
    }
  }

  lemma {:induction false} LookupCut(t: Tree, blocks: seq<Block>, now: nat)
    requires Cut(t)
    ensures Cut(Lookup(t, blocks, now).tree)
    ensures t.children == [] ==> Lookup(t, blocks, now).tree.children == []
    decreases |blocks|
  {
    if blocks != [] && Child(t, blocks[0]).Some? {
      var c := t.children[Child(t, blocks[0]).value];
      LookupCut(c.(pins := c.pins + 1, stamp := now), blocks[1..], now);
    }
  }

  lemma {:induction false} InsertCut(t: Tree, blocks: seq<Block>, ids: seq<nat>, now: nat)
    requires Cut(t) && WellCut(blocks)
    ensures Cut(Insert(t, blocks, ids, now).tree)
    decreases |blocks|
  {
    if blocks != [] {
      var f := FindChild(t.children, blocks[0][0]);
      if f.None? {
        InsertCut(NewNode(blocks[0], ids, now), blocks[1..], if ids == [] then [] else ids[1..], now);
      } else if t.children[f.value].tokens == blocks[0] {
        InsertCut(t.children[f.value].(stamp := now), blocks[1..], ids, now);
      }
    }
  }

  /** The nodes on the first `k` blocks of a query are spelled by its first blocks, up to `k`. */
  lemma OnPathIff(s: seq<nat>, tokens: seq<nat>, k: nat)
    requires k <= |Blocks(tokens)|
    ensures OnPath(Blocks(s), Blocks(tokens), k) <==>
            s != [] && exists j :: 0 <= j <= k && s == FirstBlocks(tokens, j)
  {
    var blocks := Blocks(tokens);
    if OnPath(Blocks(s), blocks, k) {
      var j := |Blocks(s)|;
      assert Blocks(s) == blocks[..j];
      BlocksUpTo(tokens, j);
    }
    forall j | 0 <= j <= k && s == FirstBlocks(tokens, j) && s != []
      ensures OnPath(Blocks(s), blocks, k)
    {
      BlocksUpTo(tokens, j);
    }
  }

  lemma InsertHolds(t: Tree, tokens: seq<nat>, ids: seq<nat>, now: nat, s: seq<nat>)
    requires Wf(t) && Cut(t)
    ensures Holds(Insert(t, Blocks(tokens), ids, now).tree, s) <==>
            Holds(t, s) || exists j :: 0 <= j <= Placed(t, Blocks(tokens)) && s == FirstBlocks(tokens, j)
  {
    var blocks := Blocks(tokens);
    var k, after := Placed(t, blocks), Insert(t, blocks, ids, now).tree;
    InsertWf(t, blocks, ids, now);
    InsertCut(t, blocks, ids, now);
    HoldsIff(t, s);
    HoldsIff(after, s);
    InsertAt(t, blocks, ids, now, Blocks(s));
    OnPathIff(s, tokens, k);
    if OnPath(Blocks(s), blocks, k) {
      assert Blocks(s) == blocks[..|Blocks(s)|];
      DepthIsLongest(t, blocks, |Blocks(s)|);
    }
  }

  /** Insertion adds the query's blocks up to the first one that is blocked, and nothing else. */
  lemma InsertSpells(t: Tree, tokens: seq<nat>, ids: seq<nat>, now: nat) returns (k: nat)
    requires Wf(t) && Cut(t)
    ensures 16 * k < |tokens| ==> Blocked(t, tokens, k)
    ensures forall j: nat :: j < k ==> !Blocked(t, tokens, j)
    ensures forall s :: Holds(Insert(t, Blocks(tokens), ids, now).tree, s) <==>
                        Holds(t, s) || exists j :: 0 <= j <= k && s == FirstBlocks(tokens, j)
  {
    k := Placed(t, Blocks(tokens));
    forall j: nat | 16 * j < |tokens|
      ensures Blocked(t, tokens, j) <==> j == k
    {
      BlockedIff(t, tokens, j);
      CollidesThere(t, Blocks(tokens), j);
      BlocksCount(tokens, j);
    }
    forall s
      ensures Holds(Insert(t, Blocks(tokens), ids, now).tree, s) <==>
              Holds(t, s) || exists j :: 0 <= j <= k && s == FirstBlocks(tokens, j)
    {
      InsertHolds(t, tokens, ids, now, s);
    }
  }

  /** The query is in the tree up to block `k`, the first that was blocked, and nothing else has changed. */
  ghost predicate Stored(t: Tree, after: Tree, tokens: seq<nat>, k: nat) {
    && (16 * k < |tokens| ==> Blocked(t, tokens, k))
    && (forall j: nat :: j < k ==> !Blocked(t, tokens, j))
    && forall s :: Holds(after, s) <==> Holds(t, s) || exists j :: 0 <= j <= k && s == FirstBlocks(tokens, j)
  }

  /** A tree without children spells the empty sequence only. */
  lemma EmptyHolds(t: Tree, s: seq<nat>)
    requires t.children == []
    ensures Holds(t, s) <==> s == []
  {
    assert Spells(t, [], []);
  }

  /** What an empty tree holds after one insertion: the query's first blocks, and nothing else. */
  lemma OnlyStored(t: Tree, after: Tree, tokens: seq<nat>, k: nat, s: seq<nat>)
    requires t.children == [] && Stored(t, after, tokens, k)
    ensures Holds(after, s) <==> exists j :: s == FirstBlocks(tokens, j)
  {
    EmptyHolds(t, s);
    assert FirstBlocks(tokens, 0) == [];
    if 16 * k < |tokens| {
      var other :| Rival(t, tokens, 16 * k, other);
      EmptyHolds(t, other);
      assert false;
    }
    forall j: nat | s == FirstBlocks(tokens, j) && j > k
      ensures s == FirstBlocks(tokens, k)
    {
    }
  }
}
