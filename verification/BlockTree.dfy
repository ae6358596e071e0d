/** A growing tree of blocks and the node that serves it: the ground truth behind the canonicality checks. */
module BlockTree {
  import opened Anchors
  import opened Wire
  import opened Wrappers

  /** `hash` is the block hash `/v2/info` names a tip by; the map key is the index block hash. */
  datatype Block = Block(parent: BlockId, height: nat, hash: BlockId, bytes: Bytes)

  type Tree = map<BlockId, Block>

  predicate ParentBelow(tree: Tree, id: BlockId) {
    id in tree && tree[id].height > 0 ==> tree[id].parent in tree && tree[tree[id].parent].height + 1 == tree[id].height
  }

  predicate Identified(tree: Tree, a: BlockId, b: BlockId) {
    a in tree && b in tree && tree[a].bytes == tree[b].bytes ==> a == b
  }

  /** Parents are present one height below, and serialized blocks are non-empty and identify their block. */
  ghost predicate WellFormed(tree: Tree) {
    && (forall id :: id in tree ==> tree[id].bytes != [])
    && (forall id {:trigger ParentBelow(tree, id)} :: ParentBelow(tree, id))
    && (forall a, b {:trigger Identified(tree, a, b)} :: Identified(tree, a, b))
  }

  ghost predicate Grown(before: Tree, after: Tree) {
    forall id :: id in before ==> id in after && after[id] == before[id]
  }

  /** The block of a height on the branch that ends in `tip`. */
  function AncestorAt(tree: Tree, tip: BlockId, height: int): Option<BlockId>
    decreases if tip in tree then tree[tip].height else 0
  {
    if tip !in tree || height < 0 || height > tree[tip].height then None
    else if height == tree[tip].height then Some(tip)
    else if tree[tip].parent in tree && tree[tree[tip].parent].height < tree[tip].height then
      AncestorAt(tree, tree[tip].parent, height)
    else None
  }

  /** `a` is `tip` or one of its ancestors. */
  ghost predicate IsAncestor(tree: Tree, a: BlockId, tip: BlockId) {
    a in tree && AncestorAt(tree, tip, tree[a].height) == Some(a)
  }

  /** A walk along parent links, newest block first. */
  ghost predicate IsPath(tree: Tree, path: seq<BlockId>) {
    && |path| > 0
    && (forall i :: 0 <= i < |path| ==> path[i] in tree)
    && (forall i :: 0 <= i < |path| - 1 ==> tree[path[i]].height > 0 && tree[path[i]].parent == path[i + 1])
  }

  lemma {:induction false} PathToAncestor(tree: Tree, a: BlockId, tip: BlockId) returns (path: seq<BlockId>)
    requires WellFormed(tree) && IsAncestor(tree, a, tip)
    ensures Connects(tree, path, tip, a)
    decreases if tip in tree then tree[tip].height else 0
  {
    if tip == a {
      path := [tip];
    } else {
      AncestorIsNoHigher(tree, a, tip);
      assert ParentBelow(tree, tip);
      var rest := PathToAncestor(tree, a, tree[tip].parent);
      path := [tip] + rest;
    }
  }

  lemma {:induction false} PathEndsAtAncestor(tree: Tree, path: seq<BlockId>)
    requires WellFormed(tree) && IsPath(tree, path)
    ensures IsAncestor(tree, path[|path| - 1], path[0])
  {
    if |path| > 1 {
      var rest := path[1..];
      assert ParentBelow(tree, path[0]);
      PathEndsAtAncestor(tree, rest);
      AncestorIsNoHigher(tree, path[|path| - 1], path[1]);
    }
  }

  ghost predicate Connects(tree: Tree, path: seq<BlockId>, tip: BlockId, a: BlockId) {
    IsPath(tree, path) && path[0] == tip && path[|path| - 1] == a
  }

  /** Ancestry by height is exactly reachability along parent links. */
  lemma AncestorIsReachable(tree: Tree, a: BlockId, tip: BlockId)
    requires WellFormed(tree)
    ensures IsAncestor(tree, a, tip) <==> exists path :: Connects(tree, path, tip, a)
  {
    if IsAncestor(tree, a, tip) {
      var path := PathToAncestor(tree, a, tip);
    }
    if path :| Connects(tree, path, tip, a) {
      PathEndsAtAncestor(tree, path);
    }
  }

  lemma {:induction false} AncestorIsNoHigher(tree: Tree, a: BlockId, tip: BlockId)
    requires IsAncestor(tree, a, tip)
    ensures tip in tree && tree[a].height <= tree[tip].height
  {
  }

  lemma {:induction false} AncestorAtHasHeight(tree: Tree, tip: BlockId, height: int)
    requires WellFormed(tree)
    ensures tip in tree && 0 <= height <= tree[tip].height <==> AncestorAt(tree, tip, height).Some?
    ensures var a := AncestorAt(tree, tip, height); a.Some? ==> a.value in tree && tree[a.value].height == height
    decreases if tip in tree then tree[tip].height else 0
  {
    if tip in tree && 0 <= height < tree[tip].height {
      assert ParentBelow(tree, tip);
      AncestorAtHasHeight(tree, tree[tip].parent, height);
    }
  }

  /** Blocks that arrive later never change a branch that is already there. */
  lemma {:induction false} AncestryIsStable(before: Tree, after: Tree, tip: BlockId, height: int)
    requires WellFormed(before) && Grown(before, after) && tip in before
    ensures AncestorAt(after, tip, height) == AncestorAt(before, tip, height)
    decreases before[tip].height
  {
    if 0 <= height < before[tip].height {
      assert ParentBelow(before, tip);
      AncestryIsStable(before, after, before[tip].parent, height);
    }
  }

  lemma {:induction false} AncestryComposes(tree: Tree, a: BlockId, b: BlockId, tip: BlockId)
    requires WellFormed(tree) && IsAncestor(tree, a, b) && IsAncestor(tree, b, tip)
    ensures IsAncestor(tree, a, tip)
    decreases if tip in tree then tree[tip].height else 0
  {
    AncestorIsNoHigher(tree, b, tip);
    AncestorIsNoHigher(tree, a, b);
    if tip != b {
      assert ParentBelow(tree, tip);
      AncestryComposes(tree, a, b, tree[tip].parent);
    }
  }

  // ---------------------------------------------------------------------------------------------
  // The node
  // ---------------------------------------------------------------------------------------------

  /** A node at one moment: the blocks it holds, its tip, and the Bitcoin facts it reports beside it. */
  datatype Moment = Moment(tree: Tree, tip: BlockId, burnBlockHeight: nat, rewardCycle: nat)

  /** Moments in time order: blocks are only added, while the tip may move anywhere between any two. */
  ghost predicate IsHistory(h: seq<Moment>) {
    && (forall i :: 0 <= i < |h| ==> WellFormed(h[i].tree) && h[i].tip in h[i].tree)
    && (forall i, j :: 0 <= i <= j < |h| ==> Grown(h[i].tree, h[j].tree))
  }

  datatype Read<+T> = Got(value: T) | NotFound | Failed

  function TipHeight(m: Moment): nat
    requires m.tip in m.tree
  {
    m.tree[m.tip].height
  }

  ghost predicate ServesInfo(m: Moment, r: Read<NodeInfo>) {
    m.tip in m.tree && (r.Got? ==>
      && (r.value.stacksTip.Some? ==> r.value.stacksTip.value == m.tree[m.tip].hash)
      && r.value.stacksTipHeight == TipHeight(m) && r.value.burnBlockHeight == m.burnBlockHeight)
  }

  ghost predicate ServesTenure(m: Moment, r: Read<TenureInfo>) {
    m.tip in m.tree && (r.Got? ==> r.value == TenureInfo(m.tip, TipHeight(m), m.rewardCycle))
  }

  /** A block by its id: the held bytes, or 404 exactly when it is not held, or a failed read. */
  ghost predicate ServesById(m: Moment, id: BlockId, r: Read<Bytes>) {
    && (r.Got? ==> id in m.tree && r.value == m.tree[id].bytes)
    && (r.NotFound? ==> id !in m.tree)
  }

  /** The block of a height on the branch of a given tip. */
  ghost predicate ServesAtHeight(m: Moment, height: int, tip: BlockId, r: Read<Bytes>) {
    var a := AncestorAt(m.tree, tip, height);
    && (r.Got? ==> a.Some? && a.value in m.tree && r.value == m.tree[a.value].bytes)
    && (r.NotFound? ==> a.None?)
  }

  /** Equal bytes identify a block across moments. */
  lemma BytesIdentify(h: seq<Moment>, i: nat, a: BlockId, j: nat, b: BlockId)
    requires IsHistory(h) && i < |h| && j < |h| && a in h[i].tree && b in h[j].tree
    ensures h[i].tree[a].bytes == h[j].tree[b].bytes <==> a == b
  {
    var last := if i < j then j else i;
    assert Grown(h[i].tree, h[last].tree) && Grown(h[j].tree, h[last].tree);
    assert Identified(h[last].tree, a, b);
  }
}
