/**
 * The single-leaf inclusion proof: the siblings met on the walk from one
 * leaf to the root, detached from the tree as plain values and checked by
 * folding them, bottom first, onto the leaf hash.
 */
module SingleProof {
  import opened Wrappers
  import opened Hasher
  import opened Positions
  import opened Levels
  import opened Tree
  import opened LeafToRoot
  import opened VerifyResult

  /** Going up one level then j more is going up j + 1 levels. */
  lemma {:induction false} AncestorShift(i: nat, j: nat)
    ensures Ancestor(i / 2, j) == Ancestor(i, j + 1)
  {
    if j > 0 {
      AncestorShift(i, j - 1);
    }
  }

  /**
   * `nodes[j]` is the sibling of the ancestor, j levels above (level, index),
   * of that position: it sits at level + j, at the flipped ancestor index.
   */
  ghost predicate BranchAt<T>(tree: MerkleTree<T>, level: nat, index: nat, nodes: seq<Node<T>>)
  {
    forall j :: 0 <= j < |nodes| ==>
      && nodes[j].Valid() && nodes[j].tree == tree
      && nodes[j].Position() == NodePosition(level + j, Flip(Ancestor(index, j)))
  }

  /** A branch from the parent position, preceded by the sibling, is a branch from the node. */
  lemma BranchCons<T>(tree: MerkleTree<T>, level: nat, index: nat, s: Node<T>, rest: seq<Node<T>>)
    requires s.Valid() && s.tree == tree && s.Position() == NodePosition(level, Flip(index))
    requires BranchAt(tree, level + 1, index / 2, rest)
    ensures BranchAt(tree, level, index, [s] + rest)
  {
    forall j | 1 <= j < |rest| + 1
      ensures ([s] + rest)[j].Position() == NodePosition(level + j, Flip(Ancestor(index, j)))
    {
      AncestorShift(index, j - 1);
      assert ([s] + rest)[j] == rest[j - 1];
    }
  }

  /**
   * The siblings of `node` and of each of its ancestors below the root,
   * bottom first: the j-th one sits j levels up, at the flipped index of the
   * ancestor there.
   */
  function SiblingBranch<T>(node: Node<T>): (r: seq<Node<T>>)
    requires node.Valid()
    ensures |r| == node.tree.LevelCount() - 1 - node.Position().level
    ensures BranchAt(node.tree, node.Position().level, node.Position().index, r)
    decreases node.tree.LevelCount() - node.Position().level
  {
    match node.Sibling()
    case None => []
    case Some(s) =>
      var p := node.Parent().value;
      var rest := SiblingBranch(p);
      assert p.Position() == NodePosition(node.Position().level + 1, node.Position().index / 2);
      BranchCons(node.tree, node.Position().level, node.Position().index, s, rest);
      [s] + rest
  }

  /** The stored values of a sequence of node views, in order. */
  function Hashes<T>(nodes: seq<Node<T>>): (r: seq<T>)
    requires forall j :: 0 <= j < |nodes| ==> nodes[j].Valid()
    ensures |r| == |nodes|
    ensures forall j :: 0 <= j < |r| ==> r[j] == nodes[j].Hash()
  {
    if |nodes| == 0 then [] else [nodes[0].Hash()] + Hashes(nodes[1..])
  }

  /** `SingleProofNodes`: the proof still bound to the tree, as node views. */
  datatype SingleProofNodes<!T> = SingleProofNodes(leaf: Node<T>, branch: seq<Node<T>>) {

    /** A leaf view and exactly its sibling branch. */
    ghost predicate Valid()
    {
      leaf.Valid() && leaf.Position().level == 0 && branch == SiblingBranch(leaf)
    }

    /**
     * `into_values`: the leaf's index in level 0 and the branch's stored
     * values, bottom first; nothing tied to the tree remains.
     */
    function IntoValues(): (r: SingleProofHashes<T>)
      requires Valid()
      ensures r.leafIndexInLevel == leaf.absIndex == leaf.Position().index
      ensures |r.branch| == |branch| == leaf.tree.LevelCount() - 1
      ensures r.branch == Hashes(branch)
    {
      var p := leaf.Position();
      assert AbsIndex(leaf.tree.Size(), p) == p.index;
      SingleProofHashes(p.index, Hashes(branch))
    }
  }

  /**
   * `SingleProofHashes`: the detached proof, a leaf index and the sibling
   * hashes bottom first; `leaf_index_in_level` and `into_hashes` are its two
   * fields.
   */
  datatype SingleProofHashes<!T> = SingleProofHashes(leafIndexInLevel: nat, branch: seq<T>)

  /**
   * `from_tree_leaf`: IterStartIndexOutOfRange(index, leaf count) when the
   * index is not a leaf, otherwise the leaf's view and its sibling branch,
   * one sibling per level below the root.
   */
  function FromTreeLeaf<T>(tree: MerkleTree<T>, leafIndex: nat): (r: Result<SingleProofNodes<T>, AccessError>)
    requires tree.Valid()
    ensures r.Failure? <==> leafIndex >= tree.LeafCount()
    ensures r.Failure? ==> r.error == IterStartIndexOutOfRange(leafIndex, tree.LeafCount())
    ensures r.Success? ==> r.value.Valid() && r.value.leaf.tree == tree
    ensures r.Success? ==> r.value.leaf.Position() == NodePosition(0, leafIndex)
    ensures r.Success? ==> |r.value.branch| == tree.LevelCount() - 1
  {
    match tree.NodeFromBottom(0, leafIndex)
    case None => Failure(IterStartIndexOutOfRange(leafIndex, tree.LeafCount()))
    case Some(leaf) => Success(SingleProofNodes(leaf, SiblingBranch(leaf)))
  }

  /** `from_leaf_index_and_branch`: rebuilds the verifier from the two detached fields. */
  function FromLeafIndexAndBranch<T>(leafIndex: nat, branch: seq<T>): (r: SingleProofHashes<T>)
    ensures r.leafIndexInLevel == leafIndex && r.branch == branch
  {
    SingleProofHashes(leafIndex, branch)
  }

  /**
   * Climbs from `current` at index `index`: each sibling is hashed on the
   * right of an even index and on the left of an odd one, and the index halves.
   */
  function FoldBranch<T>(h: PairHasher<T>, current: T, index: nat, branch: seq<T>): T
    decreases |branch|
  {
    if |branch| == 0 then current
    else
      var next := if index % 2 == 0 then h.hashPair(current, branch[0]) else h.hashPair(branch[0], current);
      FoldBranch(h, next, index / 2, branch[1..])
  }

  /**
   * Folding one more sibling climbs one more level from where the shorter
   * fold ended: the sibling goes on the right when the node's index at that
   * level is even and on the left when it is odd.
   */
  lemma {:induction false} FoldBranchSnoc<T>(h: PairHasher<T>, current: T, index: nat, branch: seq<T>, s: T)
    ensures var acc := FoldBranch(h, current, index, branch);
            FoldBranch(h, current, index, branch + [s])
              == if Ancestor(index, |branch|) % 2 == 0 then h.hashPair(acc, s) else h.hashPair(s, acc)
    decreases |branch|
  {
    if |branch| > 0 {
      var next := if index % 2 == 0 then h.hashPair(current, branch[0]) else h.hashPair(branch[0], current);
      assert (branch + [s])[1..] == branch[1..] + [s];
      FoldBranchSnoc(h, next, index / 2, branch[1..], s);
      AncestorShift(index, |branch| - 1);
    }
  }

  /**
   * `verify`: a decisive fail when the leaf index does not fit a tree of
   * |branch| + 1 levels, otherwise a decisive pass exactly when the fold of
   * the branch onto the leaf hash is the claimed root.
   */
  function Verify<T(==)>(h: PairHasher<T>, proof: SingleProofHashes<T>, leaf: T, root: T): (r: ProofVerifyResult)
    ensures r == PassedDecisively <==>
              proof.leafIndexInLevel < Pow2(|proof.branch|) &&
              FoldBranch(h, leaf, proof.leafIndexInLevel, proof.branch) == root
  {
    if proof.leafIndexInLevel >= Pow2(|proof.branch|) then Failed
    else if FoldBranch(h, leaf, proof.leafIndexInLevel, proof.branch) == root then PassedDecisively
    else Failed
  }

  /**
   * Folding a node's sibling branch onto its stored value reproduces the
   * tree's root: each step recomputes the parent from its two children.
   */
  lemma {:induction false} FoldReachesRoot<T>(node: Node<T>)
    requires node.Valid()
    ensures FoldBranch(node.tree.hasher, node.Hash(), node.Position().index, Hashes(SiblingBranch(node))) == node.tree.Root()
    decreases node.tree.LevelCount() - node.Position().level
  {
    var tree := node.tree;
    var branch := SiblingBranch(node);
    if node.IsRoot() {
      LevelShape(tree.LeafCount(), tree.LevelCount() - 1);
      assert branch == [];
    } else {
      ParentIsPairOfChildren(node);
      var p := node.Parent().value;
      assert p.Position().index == node.Position().index / 2;
      assert branch == [node.Sibling().value] + SiblingBranch(p);
      assert Hashes(branch)[1..] == Hashes(SiblingBranch(p));
      FoldReachesRoot(p);
    }
  }

  /**
   * For a leaf view: detaching its proof, rebuilding the verifier from the
   * detached fields and verifying the leaf's stored value against the root
   * is a decisive pass.
   */
  lemma LeafProofPasses<T>(leaf: Node<T>)
    requires leaf.Valid() && leaf.Position().level == 0
    ensures var values := SingleProofNodes(leaf, SiblingBranch(leaf)).IntoValues();
            Verify(leaf.tree.hasher, FromLeafIndexAndBranch(values.leafIndexInLevel, values.branch), leaf.Hash(), leaf.tree.Root())
              == PassedDecisively
  {
    var tree, p := leaf.tree, leaf.Position();
    var values := SingleProofNodes(leaf, SiblingBranch(leaf)).IntoValues();
    var rebuilt := FromLeafIndexAndBranch(values.leafIndexInLevel, values.branch);
    assert rebuilt == values && values.leafIndexInLevel == p.index;
    assert values.branch == Hashes(SiblingBranch(leaf));
    LevelBandEnds(tree.Size());
    assert p.index < Pow2(|values.branch|);
    FoldReachesRoot(leaf);
    assert FoldBranch(tree.hasher, leaf.Hash(), p.index, values.branch) == tree.Root();
  }

  /**
   * The round trip: for every leaf index of the tree, building the proof,
   * detaching it, rebuilding the verifier from the detached fields and
   * verifying the true leaf hash against the true root is a decisive pass;
   * the rebuilt verifier keeps the index and a branch of LevelCount - 1
   * hashes.
   */
  lemma SingleProofRoundTrip<T>(tree: MerkleTree<T>, leafIndex: nat)
    requires tree.Valid() && leafIndex < tree.LeafCount()
    ensures FromTreeLeaf(tree, leafIndex).Success?
    ensures var values := FromTreeLeaf(tree, leafIndex).value.IntoValues();
            var rebuilt := FromLeafIndexAndBranch(values.leafIndexInLevel, values.branch);
            && rebuilt.leafIndexInLevel == leafIndex
            && |rebuilt.branch| == tree.LevelCount() - 1
            && Verify(tree.hasher, rebuilt, tree.Leaves()[leafIndex], tree.Root()) == PassedDecisively
  {
    var leaf := FromTreeLeaf(tree, leafIndex).value.leaf;
    assert leaf.Hash() == tree.Leaves()[leafIndex];
    LeafProofPasses(leaf);
  }

  /**
   * Four leaves, proof for leaf 2: the branch is [leaf 3, hashPair(leaf 0,
   * leaf 1)] and the rebuilt proof passes for leaf 2 against the root.
   */
  lemma FourLeafSingleProof<T>(h: PairHasher<T>, l0: T, l1: T, l2: T, l3: T)
    ensures Build(h, [l0, l1, l2, l3]).Success?
    ensures var tree := Build(h, [l0, l1, l2, l3]).value;
            && FromTreeLeaf(tree, 2).Success?
            && var values := FromTreeLeaf(tree, 2).value.IntoValues();
               && values.leafIndexInLevel == 2
               && values.branch == [l3, h.hashPair(l0, l1)]
               && Verify(h, FromLeafIndexAndBranch(values.leafIndexInLevel, values.branch), l2, tree.Root()) == PassedDecisively
  {
    FourLeafRoot(h, l0, l1, l2, l3);
    var tree := Build(h, [l0, l1, l2, l3]).value;
    assert NextPow2(4) == 4;
    assert tree.Leaves() == [l0, l1, l2, l3];
    assert tree.LevelCount() == 3 by { Pow2IsPow2(2); }
    SingleProofRoundTrip(tree, 2);
    var proof := FromTreeLeaf(tree, 2).value;
    var values := proof.IntoValues();
    assert Ancestor(2, 1) == 1;
    assert values.branch[0] == l3;
    assert values.branch[1] == h.hashPair(l0, l1);
  }
}
