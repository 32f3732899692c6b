/**
 The radix prefix tree over token blocks: lookup with pinning, and insertion. Nodes are values; the walk
 along a path is recursion on the tree.
 */
module RadixTrees {
  import opened Machine

  const TOKENS_PER_BLOCK: nat := 16

  type Block = seq<nat>

  datatype Tree = Node(tokens: Block, slab: Option<nat>, pins: nat, stamp: nat, childCount: nat, children: seq<Tree>)

  /** What a node holds besides its place in the tree. */
  datatype Info = Info(slab: Option<nat>, pins: nat, stamp: nat)

  function InfoOf(t: Tree): Info {
    Info(t.slab, t.pins, t.stamp)
  }

  /** The tokens of a path of blocks. */
  ghost function Joined(blocks: seq<Block>): seq<nat> {
    if blocks == [] then [] else blocks[0] + Joined(blocks[1..])
  }

  /** Sixteen tokens to a block, and fewer only in the last. */
  ghost predicate WellCut(blocks: seq<Block>) {
    forall i :: 0 <= i < |blocks| ==> 0 < |blocks[i]| <= 16 && (i + 1 < |blocks| ==> |blocks[i]| == 16)
  }

  /** The query cut into blocks: joined they are the query, and all but the last have sixteen tokens. */
  function Blocks(tokens: seq<nat>): (r: seq<Block>)
    ensures Joined(r) == tokens
    ensures forall i :: 0 <= i < |r| ==> 0 < |r[i]| <= 16 && (i + 1 < |r| ==> |r[i]| == 16)
    decreases |tokens|
  {
    if tokens == [] then []
    else if |tokens| <= TOKENS_PER_BLOCK then
      assert [tokens][1..] == [];
      [tokens]
    else
      var first, rest := tokens[..TOKENS_PER_BLOCK], Blocks(tokens[TOKENS_PER_BLOCK..]);
      assert ([first] + rest)[1..] == rest;
      [first] + rest
  }

  /** There is one way to cut a query. */
  lemma {:induction false} CutOnce(blocks: seq<Block>)
    requires WellCut(blocks)
    ensures Blocks(Joined(blocks)) == blocks
    decreases |blocks|
  {
    if |blocks| == 1 {
      assert blocks[1..] == [] && Joined(blocks) == blocks[0] && blocks == [blocks[0]];
    } else if blocks != [] {
      var rest := blocks[1..];
      CutOnce(rest);
      assert rest != [] && Joined(rest) != [] by {
        assert rest[0] != [];
      }
      assert Joined(blocks)[..16] == blocks[0] && Joined(blocks)[16..] == Joined(rest);
      assert blocks == [blocks[0]] + rest;
    }
  }

  lemma {:induction false} JoinedSplit(blocks: seq<Block>, k: nat)
    requires k <= |blocks|
    ensures Joined(blocks) == Joined(blocks[..k]) + Joined(blocks[k..])
    decreases k
  {
    if k == 0 {
      assert blocks[..0] == [] && blocks[0..] == blocks;
    } else {
      JoinedSplit(blocks[1..], k - 1);
      assert blocks[..k][1..] == blocks[1..][..k - 1] && blocks[1..][k - 1..] == blocks[k..];
    }
  }

  // ---- Children ----

  predicate StartsWith(t: Tree, first: nat) {
    t.tokens != [] && t.tokens[0] == first
  }

  /** `find_child`: the first child whose block begins with the token. */
  function FindChild(children: seq<Tree>, first: nat): (r: Option<nat>)
    ensures r.Some? ==> r.value < |children| && StartsWith(children[r.value], first)
    ensures r.None? ==> forall i :: 0 <= i < |children| ==> !StartsWith(children[i], first)
    decreases |children|
  {
    if children == [] then None
    else if StartsWith(children[0], first) then Some(0)
    else
      match FindChild(children[1..], first)
      case Some(i) => Some(i + 1)
      case None =>
        assert forall i :: 0 < i < |children| ==> children[i] == children[1..][i - 1];
        None
  }

  /** No two siblings begin with the same token, and none is empty. */
  ghost predicate Apart(children: seq<Tree>) {
    && (forall i :: 0 <= i < |children| ==> children[i].tokens != [])
    && (forall i, j :: 0 <= i < j < |children| ==> children[i].tokens[0] != children[j].tokens[0])
  }

  lemma FindUnique(children: seq<Tree>, i: nat)
    requires Apart(children) && i < |children|
    ensures FindChild(children, children[i].tokens[0]) == Some(i)
  {
  }

  /** Siblings are apart and counted, all the way down. */
  ghost predicate Wf(t: Tree) {
    Apart(t.children) && t.childCount == |t.children| && forall i :: 0 <= i < |t.children| ==> Wf(t.children[i])
  }

  /** The child reached by a block. */
  function Child(t: Tree, block: Block): Option<nat> {
    if block == [] then None
    else
      match FindChild(t.children, block[0])
      case Some(i) => if t.children[i].tokens == block then Some(i) else None
      case None => None
  }

  /** The node at the end of a path of blocks. */
  function At(t: Tree, path: seq<Block>): Option<Tree>
    decreases |path|
  {
    if path == [] then Some(t)
    else
      match Child(t, path[0])
      case Some(i) => At(t.children[i], path[1..])
      case None => None
  }

  ghost function InfoAt(t: Tree, path: seq<Block>): Option<Info> {
    match At(t, path)
    case Some(n) => Some(InfoOf(n))
    case None => None
  }

  /** A node's ancestors are there with it. */
  lemma {:induction false} AncestorsThere(t: Tree, path: seq<Block>, k: nat)
    requires At(t, path).Some? && k <= |path|
    ensures At(t, path[..k]).Some?
    decreases |path|
  {
    if k > 0 {
      assert path[..k][0] == path[0] && path[..k][1..] == path[1..][..k - 1];
      AncestorsThere(t.children[Child(t, path[0]).value], path[1..], k - 1);
    }
  }

  // ---- Changing one child ----

  function SetChild(t: Tree, i: nat, c: Tree): Tree
    requires i < |t.children|
  {
    t.(children := t.children[i := c])
  }

  /** A changed child is seen on the paths through it, and on no other. */
  lemma SetChildAt(t: Tree, i: nat, c: Tree, path: seq<Block>)
    requires Apart(t.children) && i < |t.children| && c.tokens == t.children[i].tokens
    ensures InfoAt(SetChild(t, i, c), path) ==
            if path != [] && path[0] == c.tokens then InfoAt(c, path[1..]) else InfoAt(t, path)
  {
    if path != [] && path[0] != [] {
      SetChildFind(t, i, c, path[0][0]);
      FindUnique(t.children, i);
    }
  }

  lemma SetChildFind(t: Tree, i: nat, c: Tree, first: nat)
    requires Apart(t.children) && i < |t.children| && c.tokens == t.children[i].tokens
    ensures Apart(SetChild(t, i, c).children)
    ensures FindChild(SetChild(t, i, c).children, first) == FindChild(t.children, first)
  {
    var after := SetChild(t, i, c).children;
    var f := FindChild(t.children, first);
    if f.Some? {
      FindUnique(after, f.value);
    }
  }

  lemma SetChildWf(t: Tree, i: nat, c: Tree)
    requires Wf(t) && i < |t.children| && c.tokens == t.children[i].tokens && Wf(c)
    ensures Wf(SetChild(t, i, c))
  {
    SetChildFind(t, i, c, 0);
  }

  // ---- Lookup ----

  /** How many blocks of the query lie on a path from the node. */
  function Depth(t: Tree, blocks: seq<Block>): (k: nat)
    ensures k <= |blocks|
    decreases |blocks|
  {
    if blocks == [] then 0
    else
      match Child(t, blocks[0])
      case Some(i) => 1 + Depth(t.children[i], blocks[1..])
      case None => 0
  }

  /** It is the longest prefix in the tree. */
  lemma {:induction false} DepthIsLongest(t: Tree, blocks: seq<Block>, k: nat)
    requires k <= |blocks|
    ensures At(t, blocks[..k]).Some? <==> k <= Depth(t, blocks)
    decreases |blocks|
  {
    if k > 0 {
      assert blocks[..k][0] == blocks[0] && blocks[..k][1..] == blocks[1..][..k - 1];
      var i := Child(t, blocks[0]);
      if i.Some? {
        DepthIsLongest(t.children[i.value], blocks[1..], k - 1);
      }
    }
  }

  datatype Hit = Hit(tree: Tree, matched: nat, ids: seq<nat>)

  /** `lookup`: pin and stamp every node of the longest matching path. */
  function Lookup(t: Tree, blocks: seq<Block>, now: nat): (r: Hit)
    ensures r.tree.tokens == t.tokens && InfoOf(r.tree) == InfoOf(t)
    decreases |blocks|
  {
    if blocks == [] then Hit(t, 0, [])
    else
      match Child(t, blocks[0])
      case None => Hit(t, 0, [])
      case Some(i) =>
        var c := t.children[i];
        var below := Lookup(c.(pins := c.pins + 1, stamp := now), blocks[1..], now);
        Hit(SetChild(t, i, below.tree), |c.tokens| + below.matched,
            (if c.slab.Some? then [c.slab.value] else []) + below.ids)
  }

  /** A nonempty prefix of the first `k` blocks. */
  ghost predicate OnPath(path: seq<Block>, blocks: seq<Block>, k: nat)
    requires k <= |blocks|
  {
    path != [] && path <= blocks[..k]
  }

  function Pinned(i: Info, now: nat): Info {
    i.(pins := i.pins + 1, stamp := now)
  }

  /** What a lookup leaves of a node: pinned and stamped if on the path. */
  function Touched(i: Option<Info>, on: bool, now: nat): Option<Info> {
    if on && i.Some? then Some(Pinned(i.value, now)) else i
  }

  lemma {:induction false} LookupWf(t: Tree, blocks: seq<Block>, now: nat)
    requires Wf(t)
    ensures Wf(Lookup(t, blocks, now).tree)
    decreases |blocks|
  {
    if blocks != [] && Child(t, blocks[0]).Some? {
      var i := Child(t, blocks[0]).value;
      var c := t.children[i];
      var c1 := c.(pins := c.pins + 1, stamp := now);
      LookupWf(c1, blocks[1..], now);
      SetChildWf(t, i, Lookup(c1, blocks[1..], now).tree);
    }
  }

  /** Exactly the nodes of the longest matching path are pinned; nothing else in the tree changes. */
  lemma {:induction false} LookupPins(t: Tree, blocks: seq<Block>, now: nat, path: seq<Block>)
    requires Wf(t)
    ensures InfoAt(Lookup(t, blocks, now).tree, path) ==
            Touched(InfoAt(t, path), OnPath(path, blocks, Depth(t, blocks)), now)
    decreases |blocks|
  {
    if blocks == [] || Child(t, blocks[0]).None? {
      assert Lookup(t, blocks, now).tree == t && !OnPath(path, blocks, 0);
    } else {
      var i := Child(t, blocks[0]).value;
      var c := t.children[i];
      var c1 := c.(pins := c.pins + 1, stamp := now);
      if path != [] {
        LookupPins(c1, blocks[1..], now, path[1..]);
        SameBelow(c, c1, blocks[1..], path[1..]);
      }
      LookupUnfolds(t, blocks, now, i);
      LookupStep(t, i, Lookup(c1, blocks[1..], now).tree, blocks, now, path);
    }
  }

  lemma LookupUnfolds(t: Tree, blocks: seq<Block>, now: nat, i: nat)
    requires blocks != [] && Child(t, blocks[0]) == Some(i)
    ensures var c := t.children[i];
            Lookup(t, blocks, now).tree ==
            SetChild(t, i, Lookup(c.(pins := c.pins + 1, stamp := now), blocks[1..], now).tree)
    ensures Depth(t, blocks) == 1 + Depth(t.children[i], blocks[1..])
  {
  }

  lemma LookupStep(t: Tree, i: nat, below: Tree, blocks: seq<Block>, now: nat, path: seq<Block>)
    requires Apart(t.children) && blocks != [] && Child(t, blocks[0]) == Some(i)
    requires below.tokens == t.children[i].tokens && InfoOf(below) == Pinned(InfoOf(t.children[i]), now)
    requires path != [] && path[1..] != [] ==>
      InfoAt(below, path[1..]) ==
      Touched(InfoAt(t.children[i], path[1..]), OnPath(path[1..], blocks[1..], Depth(t.children[i], blocks[1..])), now)
    ensures InfoAt(SetChild(t, i, below), path) ==
            Touched(InfoAt(t, path), OnPath(path, blocks, 1 + Depth(t.children[i], blocks[1..])), now)
  {
    var k := Depth(t.children[i], blocks[1..]);
    SetChildAt(t, i, below, path);
    PathStep(path, blocks, k);
    if path != [] && path[0] == blocks[0] {
      assert InfoAt(t, path) == InfoAt(t.children[i], path[1..]);
      if path[1..] == [] {
        assert OnPath(path, blocks, k + 1) && InfoAt(below, []) == Some(InfoOf(below));
      } else {
        assert OnPath(path, blocks, k + 1) <==> OnPath(path[1..], blocks[1..], k);
      }
    } else {
      assert !OnPath(path, blocks, k + 1);
    }
  }

  /** A node's own pins and stamp do not show below it. */
  lemma {:induction false} SameBelow(c: Tree, c1: Tree, blocks: seq<Block>, path: seq<Block>)
    requires c1.children == c.children
    ensures Depth(c1, blocks) == Depth(c, blocks)
    ensures path != [] ==> InfoAt(c1, path) == InfoAt(c, path)
  {
  }

  lemma PathStep(path: seq<Block>, blocks: seq<Block>, k: nat)
    requires blocks != [] && k < |blocks|
    ensures OnPath(path, blocks, k + 1) <==>
            path != [] && path[0] == blocks[0] && (path[1..] == [] || OnPath(path[1..], blocks[1..], k))
  {
    if path != [] && path[0] == blocks[0] && (path[1..] == [] || OnPath(path[1..], blocks[1..], k)) {
      assert path == [path[0]] + path[1..];
      assert blocks[..k + 1] == [blocks[0]] + blocks[1..][..k];
    }
    if OnPath(path, blocks, k + 1) {
      assert blocks[1..][..k] == blocks[..k + 1][1..];
      assert path[1..] <= blocks[..k + 1][1..];
    }
  }

  /** Leaving out blocks leaves out tokens. */
  lemma JoinedPrefix(blocks: seq<Block>, k: nat)
    requires k < |blocks| && forall i :: 0 <= i < |blocks| ==> blocks[i] != []
    ensures |Joined(blocks[..k])| < |Joined(blocks)|
  {
    JoinedSplit(blocks, k);
    assert blocks[k..][0] != [];
  }

  /** `is_full_hit`: as many tokens match as were asked for exactly when every block is in the tree. */
  lemma FullHitIff(t: Tree, tokens: seq<nat>, now: nat)
    ensures var blocks := Blocks(tokens);
            Lookup(t, blocks, now).matched == |tokens| <==> Depth(t, blocks) == |blocks|
  {
    var blocks := Blocks(tokens);
    LookupCounts(t, blocks, now);
    if Depth(t, blocks) < |blocks| {
      JoinedPrefix(blocks, Depth(t, blocks));
    } else {
      assert blocks[..|blocks|] == blocks;
    }
  }

  /** The matched tokens are those of the longest prefix. */
  lemma {:induction false} LookupCounts(t: Tree, blocks: seq<Block>, now: nat)
    ensures Lookup(t, blocks, now).matched == |Joined(blocks[..Depth(t, blocks)])|
    decreases |blocks|
  {
    if blocks != [] && Child(t, blocks[0]).Some? {
      var c := t.children[Child(t, blocks[0]).value];
      var c1 := c.(pins := c.pins + 1, stamp := now);
      LookupCounts(c1, blocks[1..], now);
      SameBelow(c, c1, blocks[1..], []);
      var k := Depth(c, blocks[1..]);
      assert blocks[..k + 1][1..] == blocks[1..][..k];
    }
  }

  /** The slab of the node at the end of a path, if there are both. */
  ghost function SlabOn(t: Tree, path: seq<Block>): seq<nat> {
    match InfoAt(t, path)
    case Some(i) => if i.slab.Some? then [i.slab.value] else []
    case None => []
  }

  /** The slabs of the nodes met by the first `k` blocks, in order. */
  ghost function SlabsAlong(t: Tree, blocks: seq<Block>, k: nat): seq<nat>
    requires k <= |blocks|
  {
    if k == 0 then [] else SlabsAlong(t, blocks, k - 1) + SlabOn(t, blocks[..k])
  }

  lemma {:induction false} SlabsBelow(t: Tree, blocks: seq<Block>, i: nat, k: nat)
    requires blocks != [] && Child(t, blocks[0]) == Some(i) && k < |blocks|
    ensures SlabsAlong(t, blocks, k + 1) == SlabOn(t, blocks[..1]) + SlabsAlong(t.children[i], blocks[1..], k)
    decreases k
  {
    if k > 0 {
      SlabsBelow(t, blocks, i, k - 1);
      assert blocks[..k + 1][0] == blocks[0] && blocks[..k + 1][1..] == blocks[1..][..k];
      assert SlabOn(t, blocks[..k + 1]) == SlabOn(t.children[i], blocks[1..][..k]);
    } else {
      assert SlabsAlong(t, blocks, 0) == [];
    }
  }

  /** The returned ids are the slabs of the matched nodes, in path order. */
  lemma {:induction false} LookupIds(t: Tree, blocks: seq<Block>, now: nat)
    ensures Lookup(t, blocks, now).ids == SlabsAlong(t, blocks, Depth(t, blocks))
    decreases |blocks|
  {
    if blocks != [] && Child(t, blocks[0]).Some? {
      var i := Child(t, blocks[0]).value;
      var c := t.children[i];
      var c1 := c.(pins := c.pins + 1, stamp := now);
      var k := Depth(c, blocks[1..]);
      LookupIds(c1, blocks[1..], now);
      SameBelow(c, c1, blocks[1..], []);
      SameSlabs(c, c1, blocks[1..], k);
      SlabsBelow(t, blocks, i, k);
      FirstNode(t, blocks, i);
      assert Lookup(t, blocks, now).ids == SlabOn(t, blocks[..1]) + Lookup(c1, blocks[1..], now).ids;
    }
  }

  lemma {:induction false} FirstNode(t: Tree, blocks: seq<Block>, i: nat)
    requires blocks != [] && Child(t, blocks[0]) == Some(i)
    ensures At(t, blocks[..1]) == Some(t.children[i])
  {
    var first := blocks[..1];
    assert first[0] == blocks[0] && first[1..] == [];
    assert At(t.children[i], first[1..]) == Some(t.children[i]);
  }

  lemma {:induction false} SameSlabs(c: Tree, c1: Tree, blocks: seq<Block>, k: nat)
    requires c1.children == c.children && k <= |blocks|
    ensures SlabsAlong(c1, blocks, k) == SlabsAlong(c, blocks, k)
    decreases k
  {
    if k > 0 {
      SameSlabs(c, c1, blocks, k - 1);
      SameBelow(c, c1, blocks, blocks[..k]);
    }
  }

  // ---- Insertion ----

  datatype Grown = Grown(tree: Tree, inserted: nat)

  /** The block's node, new, with the next of the caller's slab ids if one is left. */
  function NewNode(block: Block, ids: seq<nat>, now: nat): Tree {
    Node(block, if ids == [] then None else Some(ids[0]), 0, now, 0, [])
  }

  function AddChild(t: Tree, c: Tree): Tree {
    t.(children := t.children + [c], childCount := t.childCount + 1)
  }

  /** `insert`: follow matching children, create missing ones, stop where a child diverges inside its block. */
  function Insert(t: Tree, blocks: seq<Block>, ids: seq<nat>, now: nat): (r: Grown)
    requires forall i :: 0 <= i < |blocks| ==> blocks[i] != []
    ensures r.tree.tokens == t.tokens && InfoOf(r.tree) == InfoOf(t)
    decreases |blocks|
  {
    if blocks == [] then Grown(t, 0)
    else
      match FindChild(t.children, blocks[0][0])
      case Some(i) =>
        var c := t.children[i];
        if c.tokens == blocks[0] then
          var below := Insert(c.(stamp := now), blocks[1..], ids, now);
          Grown(SetChild(t, i, below.tree), below.inserted)
        else Grown(t, 0)
      case None =>
        var below := Insert(NewNode(blocks[0], ids, now), blocks[1..], if ids == [] then [] else ids[1..], now);
        Grown(AddChild(t, below.tree), 1 + below.inserted)
  }

  /** How many blocks of the query are in the tree after inserting it. */
  function Placed(t: Tree, blocks: seq<Block>): (k: nat)
    requires forall i :: 0 <= i < |blocks| ==> blocks[i] != []
    ensures Depth(t, blocks) <= k <= |blocks|
    decreases |blocks|
  {
    if blocks == [] then 0
    else
      match FindChild(t.children, blocks[0][0])
      case Some(i) => if t.children[i].tokens == blocks[0] then 1 + Placed(t.children[i], blocks[1..]) else 0
      case None => |blocks|
  }

  /** Somewhere along the query the tree has a child that begins like the next block and is not it. */
  ghost predicate Collides(t: Tree, blocks: seq<Block>, k: nat) {
    && k < |blocks| && blocks[k] != [] && At(t, blocks[..k]).Some?
    && var n := At(t, blocks[..k]).value;
       FindChild(n.children, blocks[k][0]).Some? && Child(n, blocks[k]).None?
  }

  /** Insertion stops where the query collides, and nowhere else. */
  lemma {:induction false} CollidesThere(t: Tree, blocks: seq<Block>, k: nat)
    requires forall i :: 0 <= i < |blocks| ==> blocks[i] != []
    ensures Collides(t, blocks, k) <==> k == Placed(t, blocks) && k < |blocks|
    decreases |blocks|
  {
    if blocks != [] {
      var f := FindChild(t.children, blocks[0][0]);
      assert blocks[..0] == [];
      if 0 < k < |blocks| {
        assert blocks[..k][0] == blocks[0] && blocks[..k][1..] == blocks[1..][..k - 1];
        if f.Some? && t.children[f.value].tokens == blocks[0] {
          CollidesThere(t.children[f.value], blocks[1..], k - 1);
        }
      }
    }
  }

  /** The whole query is stored exactly when nothing collides with it. */
  lemma PlacedUnlessCollision(t: Tree, blocks: seq<Block>)
    requires forall i :: 0 <= i < |blocks| ==> blocks[i] != []
    ensures Placed(t, blocks) == |blocks| <==> forall k: nat :: !Collides(t, blocks, k)
  {
    forall k: nat
      ensures Collides(t, blocks, k) <==> k == Placed(t, blocks) && k < |blocks|
    {
      CollidesThere(t, blocks, k);
    }
    assert Placed(t, blocks) < |blocks| ==> Collides(t, blocks, Placed(t, blocks));
  }

  /** What insertion leaves of the node at the end of a path: stamped if it was met, fresh if it was created. */
  ghost function Inserted(t: Tree, blocks: seq<Block>, ids: seq<nat>, now: nat, path: seq<Block>): Option<Info>
    requires forall i :: 0 <= i < |blocks| ==> blocks[i] != []
  {
    if !OnPath(path, blocks, Placed(t, blocks)) then InfoAt(t, path)
    else if |path| <= Depth(t, blocks) then
      match InfoAt(t, path)
      case Some(i) => Some(i.(stamp := now))
      case None => None
    else
      var j := |path| - 1 - Depth(t, blocks);
      Some(Info(if j < |ids| then Some(ids[j]) else None, 0, now))
  }

  /**
   Insertion changes the tree exactly on the query's path. The caller's slab ids go to the created nodes in
   order, the first id to the first created node.
   */
  lemma {:induction false} InsertAt(t: Tree, blocks: seq<Block>, ids: seq<nat>, now: nat, path: seq<Block>)
    requires Wf(t) && forall i :: 0 <= i < |blocks| ==> blocks[i] != []
    ensures InfoAt(Insert(t, blocks, ids, now).tree, path) == Inserted(t, blocks, ids, now, path)
    decreases |blocks|
  {
    if blocks == [] {
      assert !OnPath(path, blocks, 0);
    } else {
      var f := FindChild(t.children, blocks[0][0]);
      if f.None? {
        var rest := if ids == [] then [] else ids[1..];
        if path != [] {
          InsertAt(NewNode(blocks[0], ids, now), blocks[1..], rest, now, path[1..]);
        }
        CreateStep(t, Insert(NewNode(blocks[0], ids, now), blocks[1..], rest, now).tree, blocks, ids, now, path);
      } else if t.children[f.value].tokens != blocks[0] {
        assert !OnPath(path, blocks, 0);
      } else {
        var c := t.children[f.value];
        var c1 := c.(stamp := now);
        if path != [] {
          InsertAt(c1, blocks[1..], ids, now, path[1..]);
          SameInserted(c, c1, blocks[1..], ids, now, path[1..]);
        }
        MeetStep(t, f.value, Insert(c1, blocks[1..], ids, now).tree, blocks, ids, now, path);
      }
    }
  }

  lemma {:induction false} SameInserted(
    c: Tree, c1: Tree, blocks: seq<Block>, ids: seq<nat>, now: nat, path: seq<Block>)
    requires c1.children == c.children && forall i :: 0 <= i < |blocks| ==> blocks[i] != []
    ensures Placed(c1, blocks) == Placed(c, blocks) && Depth(c1, blocks) == Depth(c, blocks)
    ensures path != [] ==> Inserted(c1, blocks, ids, now, path) == Inserted(c, blocks, ids, now, path)
  {
    SameBelow(c, c1, blocks, path);
    SamePlaced(c, c1, blocks);
  }

  lemma {:induction false} SamePlaced(c: Tree, c1: Tree, blocks: seq<Block>)
    requires c1.children == c.children && forall i :: 0 <= i < |blocks| ==> blocks[i] != []
    ensures Placed(c1, blocks) == Placed(c, blocks)
  {
  }

  /** The query goes on through an existing child. */
  lemma MeetStep(t: Tree, i: nat, below: Tree, blocks: seq<Block>, ids: seq<nat>, now: nat, path: seq<Block>)
    requires Apart(t.children) && blocks != [] && forall i :: 0 <= i < |blocks| ==> blocks[i] != []
    requires FindChild(t.children, blocks[0][0]) == Some(i) && t.children[i].tokens == blocks[0] == below.tokens
    requires InfoOf(below) == InfoOf(t.children[i]).(stamp := now)
    requires path != [] && path[1..] != [] ==>
      InfoAt(below, path[1..]) == Inserted(t.children[i], blocks[1..], ids, now, path[1..])
    ensures InfoAt(SetChild(t, i, below), path) == Inserted(t, blocks, ids, now, path)
  {
    SetChildAt(t, i, below, path);
    PathStep(path, blocks, Placed(t.children[i], blocks[1..]));
    if path != [] && path[0] == blocks[0] {
      assert InfoAt(t, path) == InfoAt(t.children[i], path[1..]);
      if path[1..] == [] {
        assert |path| == 1 && InfoAt(below, []) == Some(InfoOf(below));
      }
    }
  }

  /** The query goes on through a created child. */
  lemma CreateStep(t: Tree, below: Tree, blocks: seq<Block>, ids: seq<nat>, now: nat, path: seq<Block>)
    requires Apart(t.children) && blocks != [] && forall i :: 0 <= i < |blocks| ==> blocks[i] != []
    requires FindChild(t.children, blocks[0][0]).None? && below.tokens == blocks[0]
    requires InfoOf(below) == InfoOf(NewNode(blocks[0], ids, now))
    requires path != [] && path[1..] != [] ==>
      InfoAt(below, path[1..]) ==
      Inserted(NewNode(blocks[0], ids, now), blocks[1..], if ids == [] then [] else ids[1..], now, path[1..])
    ensures InfoAt(AddChild(t, below), path) == Inserted(t, blocks, ids, now, path)
  {
    AddChildAt(t, below, path);
    var made := NewNode(blocks[0], ids, now);
    EmptyDepth(made, blocks[1..]);
    PathStep(path, blocks, |blocks| - 1);
    if path != [] && path[0] == blocks[0] {
      if path[1..] == [] {
        assert |path| == 1 && InfoAt(below, []) == Some(InfoOf(below));
      } else {
        EmptyAt(made, path[1..]);
        assert InfoAt(t, path).None?;
      }
    }
  }

  lemma {:induction false} EmptyDepth(t: Tree, blocks: seq<Block>)
    requires t.children == [] && forall i :: 0 <= i < |blocks| ==> blocks[i] != []
    ensures Depth(t, blocks) == 0 && Placed(t, blocks) == |blocks|
  {
  }

  lemma {:induction false} EmptyAt(t: Tree, path: seq<Block>)
    requires t.children == [] && path != []
    ensures InfoAt(t, path).None?
  {
  }

  /** An added child is seen on the paths through it, and on no other. */
  lemma AddChildAt(t: Tree, c: Tree, path: seq<Block>)
    requires Apart(t.children) && c.tokens != [] && FindChild(t.children, c.tokens[0]).None?
    ensures Apart(AddChild(t, c).children)
    ensures InfoAt(AddChild(t, c), path) ==
            if path != [] && path[0] == c.tokens then InfoAt(c, path[1..]) else InfoAt(t, path)
  {
    var after := AddChild(t, c).children;
    assert Apart(after);
    FindUnique(after, |t.children|);
    if path != [] && path[0] != [] && path[0][0] != c.tokens[0] {
      var f := FindChild(t.children, path[0][0]);
      if f.Some? {
        FindUnique(after, f.value);
      }
    }
  }

  /** A query looked up after its insertion matches as far as it was placed: fully, unless it collides. */
  lemma {:induction false} InsertThenLookup(t: Tree, blocks: seq<Block>, ids: seq<nat>, now: nat)
    requires Wf(t) && forall i :: 0 <= i < |blocks| ==> blocks[i] != []
    ensures Depth(Insert(t, blocks, ids, now).tree, blocks) == Placed(t, blocks)
    ensures Depth(Insert(t, blocks, ids, now).tree, blocks) == |blocks| <==> forall k: nat :: !Collides(t, blocks, k)
  {
    PlacedIsDepth(t, blocks, ids, now);
    PlacedUnlessCollision(t, blocks);
  }

  lemma {:induction false} PlacedIsDepth(t: Tree, blocks: seq<Block>, ids: seq<nat>, now: nat)
    requires Wf(t) && forall i :: 0 <= i < |blocks| ==> blocks[i] != []
    ensures Depth(Insert(t, blocks, ids, now).tree, blocks) == Placed(t, blocks)
  {
    var after, m := Insert(t, blocks, ids, now).tree, Placed(t, blocks);
    DepthIsLongest(after, blocks, m);
    InsertedPrefix(t, blocks, ids, now, m);
    if m < |blocks| {
      DepthIsLongest(after, blocks, m + 1);
      InsertedPrefix(t, blocks, ids, now, m + 1);
    }
  }

  lemma {:induction false} InsertedPrefix(t: Tree, blocks: seq<Block>, ids: seq<nat>, now: nat, k: nat)
    requires Wf(t) && k <= |blocks| && forall i :: 0 <= i < |blocks| ==> blocks[i] != []
    ensures At(Insert(t, blocks, ids, now).tree, blocks[..k]).Some? <==> k <= Placed(t, blocks)
  {
    InsertAt(t, blocks, ids, now, blocks[..k]);
    DepthIsLongest(t, blocks, k);
    assert k > 0 ==> (OnPath(blocks[..k], blocks, Placed(t, blocks)) <==> k <= Placed(t, blocks));
  }

  lemma {:induction false} InsertWf(t: Tree, blocks: seq<Block>, ids: seq<nat>, now: nat)
    requires Wf(t) && forall i :: 0 <= i < |blocks| ==> blocks[i] != []
    ensures Wf(Insert(t, blocks, ids, now).tree)
    decreases |blocks|
  {
    if blocks != [] {
      var f := FindChild(t.children, blocks[0][0]);
      if f.None? {
        var rest := if ids == [] then [] else ids[1..];
        InsertWf(NewNode(blocks[0], ids, now), blocks[1..], rest, now);
        AddChildWf(t, Insert(NewNode(blocks[0], ids, now), blocks[1..], rest, now).tree);
      } else if t.children[f.value].tokens == blocks[0] {
        var c1 := t.children[f.value].(stamp := now);
        InsertWf(c1, blocks[1..], ids, now);
        SetChildWf(t, f.value, Insert(c1, blocks[1..], ids, now).tree);
      }
    }
  }

  lemma AddChildWf(t: Tree, c: Tree)
    requires Wf(t) && Wf(c) && c.tokens != [] && FindChild(t.children, c.tokens[0]).None?
    ensures Wf(AddChild(t, c))
  {
    AddChildAt(t, c, []);
  }

  // ---- Which ids the created nodes get ----

  /** The created nodes are those of the blocks placed beyond the ones already there. */
  lemma {:induction false} InsertedCount(t: Tree, blocks: seq<Block>, ids: seq<nat>, now: nat)
    requires forall i :: 0 <= i < |blocks| ==> blocks[i] != []
    ensures Insert(t, blocks, ids, now).inserted == Placed(t, blocks) - Depth(t, blocks)
    decreases |blocks|
  {
    if blocks != [] {
      var f := FindChild(t.children, blocks[0][0]);
      if f.None? {
        var made, rest := NewNode(blocks[0], ids, now), if ids == [] then [] else ids[1..];
        InsertedCount(made, blocks[1..], rest, now);
        EmptyDepth(made, blocks[1..]);
      } else if t.children[f.value].tokens == blocks[0] {
        var c := t.children[f.value];
        InsertedCount(c.(stamp := now), blocks[1..], ids, now);
        SameBelow(c, c.(stamp := now), blocks[1..], []);
        SamePlaced(c, c.(stamp := now), blocks[1..]);
      }
    }
  }

  /** The slab of block `k` after an insertion. */
  ghost function SlabAfter(t: Tree, blocks: seq<Block>, ids: seq<nat>, now: nat, k: nat): Option<nat>
    requires k < |blocks| && forall i :: 0 <= i < |blocks| ==> blocks[i] != []
  {
    match InfoAt(Insert(t, blocks, ids, now).tree, blocks[..k + 1])
    case Some(i) => i.slab
    case None => None
  }

  function IdAt(ids: seq<nat>, j: nat): Option<nat> {
    if j < |ids| then Some(ids[j]) else None
  }

  /** Block `k`, if it was created, carries the id that lies as far from the first as it does from the first created. */
  lemma {:induction false} CreatedSlab(t: Tree, blocks: seq<Block>, ids: seq<nat>, now: nat, k: nat)
    requires Wf(t) && forall i :: 0 <= i < |blocks| ==> blocks[i] != []
    requires Depth(t, blocks) <= k < Placed(t, blocks)
    ensures SlabAfter(t, blocks, ids, now, k) == IdAt(ids, k - Depth(t, blocks))
  {
    InsertAt(t, blocks, ids, now, blocks[..k + 1]);
    assert OnPath(blocks[..k + 1], blocks, Placed(t, blocks));
  }

  /** Every created block `k` carries `ids[k]`, or none if there is no such id. */
  ghost predicate IdsByBlock(t: Tree, blocks: seq<Block>, ids: seq<nat>, now: nat)
    requires forall i :: 0 <= i < |blocks| ==> blocks[i] != []
  {
    forall k :: Depth(t, blocks) <= k < Placed(t, blocks) ==> SlabAfter(t, blocks, ids, now, k) == IdAt(ids, k)
  }

  /**
   With distinct ids, id `i` goes to block `i` exactly when no block of the query was there before, or none was
   created, or there are no ids at all.
   */
  lemma {:induction false} IdsByBlockIff(t: Tree, blocks: seq<Block>, ids: seq<nat>, now: nat)
    requires Wf(t) && forall i :: 0 <= i < |blocks| ==> blocks[i] != []
    requires forall i, j :: 0 <= i < j < |ids| ==> ids[i] != ids[j]
    ensures IdsByBlock(t, blocks, ids, now) <==>
            Depth(t, blocks) == 0 || Placed(t, blocks) == Depth(t, blocks) || ids == []
  {
    var d := Depth(t, blocks);
    forall k | d <= k < Placed(t, blocks)
      ensures SlabAfter(t, blocks, ids, now, k) == IdAt(ids, k - d)
    {
      CreatedSlab(t, blocks, ids, now, k);
    }
    if d > 0 && Placed(t, blocks) > d && ids != [] {
      CreatedSlab(t, blocks, ids, now, d);
      assert IdAt(ids, d) != IdAt(ids, 0);
    } else {
      forall k | d <= k < Placed(t, blocks)
        ensures IdAt(ids, k - d) == IdAt(ids, k)
      {
      }
    }
  }

  /** Every created node gets an id exactly when there are as many ids as blocks placed that were not there before. */
  lemma {:induction false} AllCreatedGetIdsIff(t: Tree, blocks: seq<Block>, ids: seq<nat>, now: nat)
    requires Wf(t) && forall i :: 0 <= i < |blocks| ==> blocks[i] != []
    ensures (forall k :: Depth(t, blocks) <= k < Placed(t, blocks) ==> SlabAfter(t, blocks, ids, now, k).Some?) <==>
            |ids| >= Placed(t, blocks) - Depth(t, blocks)
  {
    var d, m := Depth(t, blocks), Placed(t, blocks);
    forall k | d <= k < m
      ensures SlabAfter(t, blocks, ids, now, k) == IdAt(ids, k - d)
    {
      CreatedSlab(t, blocks, ids, now, k);
    }
    if |ids| < m - d {
      assert SlabAfter(t, blocks, ids, now, d + |ids|).None?;
    }
  }

  function Root(): Tree {
    Node([], None, 0, 0, 0, [])
  }

  /**
   Sixteen tokens, then thirty-two with the same first block: the second block carries the first of the ids given,
   and with no ids it is created without a slab.
   */
  lemma {:induction false} SecondBlockTakesFirstId(tokens: seq<nat>, a: nat, b: nat, c: nat, now: nat)
    requires |tokens| == 32 && b != c
    ensures var t := Insert(Root(), Blocks(tokens[..16]), [a], now).tree;
            var blocks := Blocks(tokens);
            && |blocks| == 2 && Insert(t, blocks, [b, c], now).inserted == 1
            && SlabAfter(t, blocks, [b, c], now, 1) == Some(b) && !IdsByBlock(t, blocks, [b, c], now)
            && SlabAfter(t, blocks, [], now, 1) == None
  {
    var first, second := tokens[..16], tokens[16..];
    assert Blocks(first) == [first] && Blocks(tokens) == [first, second];
    var t := Insert(Root(), [first], [a], now).tree;
    InsertWf(Root(), [first], [a], now);
    OneBlock(first, a, now);
    TwoBlocks(t, first, second);
    var blocks := [first, second];
    InsertedCount(t, blocks, [b, c], now);
    CreatedSlab(t, blocks, [b, c], now, 1);
    CreatedSlab(t, blocks, [], now, 1);
    IdsByBlockIff(t, blocks, [b, c], now);
  }

  lemma OneBlock(first: Block, a: nat, now: nat)
    requires first != []
    ensures Insert(Root(), [first], [a], now).tree.children == [Node(first, Some(a), 0, now, 0, [])]
  {
    assert Root().children == [];
    assert [first][1..] == [];
    assert Insert(NewNode(first, [a], now), [], [], now).tree == NewNode(first, [a], now);
  }

  lemma TwoBlocks(t: Tree, first: Block, second: Block)
    requires first != [] && second != [] && |t.children| == 1
    requires t.children[0].tokens == first && t.children[0].children == []
    ensures Depth(t, [first, second]) == 1 && Placed(t, [first, second]) == 2
  {
    var blocks := [first, second];
    assert FindChild(t.children, first[0]) == Some(0);
    assert blocks[1..] == [second];
    EmptyDepth(t.children[0], [second]);
  }

  // ---- Node count ----

  ghost function Size(t: Tree): nat {
    1 + SizeBelow(t, |t.children|)
  }

  ghost function SizeBelow(t: Tree, n: nat): nat
    requires n <= |t.children|
    decreases t, n
  {
    if n == 0 then 0 else SizeBelow(t, n - 1) + 1 + SizeBelow(t.children[n - 1], |t.children[n - 1].children|)
  }

  lemma {:induction false} SizeSet(t: Tree, i: nat, c: Tree, n: nat)
    requires i < |t.children| && n <= |t.children|
    ensures SizeBelow(SetChild(t, i, c), n) == SizeBelow(t, n) + if i < n then Size(c) - Size(t.children[i]) else 0
    decreases n
  {
    if n > 0 {
      SizeSet(t, i, c, n - 1);
    }
  }

  lemma {:induction false} SizeAdd(t: Tree, c: Tree, n: nat)
    requires n <= |t.children|
    ensures SizeBelow(AddChild(t, c), n) == SizeBelow(t, n)
    decreases n
  {
    if n > 0 {
      SizeAdd(t, c, n - 1);
    }
  }

  /** The insertion counter is the number of nodes the tree gained. */
  lemma {:induction false} InsertCounts(t: Tree, blocks: seq<Block>, ids: seq<nat>, now: nat)
    requires forall i :: 0 <= i < |blocks| ==> blocks[i] != []
    ensures var r := Insert(t, blocks, ids, now); Size(r.tree) == Size(t) + r.inserted
    decreases |blocks|
  {
    if blocks != [] {
      var f := FindChild(t.children, blocks[0][0]);
      if f.None? {
        var rest := if ids == [] then [] else ids[1..];
        var made := NewNode(blocks[0], ids, now);
        InsertCounts(made, blocks[1..], rest, now);
        SizeAdd(t, Insert(made, blocks[1..], rest, now).tree, |t.children|);
      } else if t.children[f.value].tokens == blocks[0] {
        var c := t.children[f.value];
        InsertCounts(c.(stamp := now), blocks[1..], ids, now);
        SizeSet(t, f.value, Insert(c.(stamp := now), blocks[1..], ids, now).tree, |t.children|);
        SizeStamp(c, now);
      }
    }
  }

  lemma SizeStamp(c: Tree, now: nat)
    ensures Size(c.(stamp := now)) == Size(c)
  {
    SizeSame(c, c.(stamp := now), |c.children|);
  }

  lemma {:induction false} SizeSame(c: Tree, d: Tree, n: nat)
    requires c.children == d.children && n <= |c.children|
    ensures SizeBelow(c, n) == SizeBelow(d, n)
    decreases n
  {
    if n > 0 {
      SizeSame(c, d, n - 1);
    }
  }
}
