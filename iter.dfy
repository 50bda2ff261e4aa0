/**
 * Walking from a leaf up to the root: the positions visited, and the
 * iterator object that yields the node at each of them in turn.
 */
module LeafToRoot {
  import opened Wrappers
  import opened Positions
  import opened Tree

  /** The index at `level` of the ancestor of leaf `leaf`: halved once per level. */
  function Ancestor(leaf: nat, level: nat): nat
  {
    if level == 0 then leaf else Ancestor(leaf, level - 1) / 2
  }

  /**
   * Every step of the walk from a leaf stays inside the tree, and the walk
   * reaches index 0 exactly at the top level, where the root is.
   */
  lemma {:induction false} AncestorInRange<T>(tree: MerkleTree<T>, leaf: nat, level: nat)
    requires tree.Valid() && leaf < tree.LeafCount() && level < tree.LevelCount()
    ensures ValidPosition(tree.Size(), NodePosition(level, Ancestor(leaf, level)))
    ensures level == tree.LevelCount() - 1 ==> Ancestor(leaf, level) == 0
  {
    var n := tree.LeafCount();
    LevelShape(n, level);
    if level > 0 {
      AncestorInRange(tree, leaf, level - 1);
      LevelShape(n, level - 1);
      SizeStep(n, level - 1);
    }
  }

  /** `node` is the ancestor of leaf `leaf` at `level` in `tree`. */
  ghost predicate OnPath<T>(tree: MerkleTree<T>, leaf: nat, level: nat, node: Node<T>)
  {
    node.Valid() && node.tree == tree && node.Position() == NodePosition(level, Ancestor(leaf, level))
  }

  /** Halving `level` times is dividing by 2^level: the index of the walk at each level. */
  lemma {:induction false} AncestorIsShift(leaf: nat, level: nat)
    ensures Ancestor(leaf, level) == leaf / Pow2(level)
  {
    if level > 0 {
      AncestorIsShift(leaf, level - 1);
      HalfOfQuotient(leaf, Pow2(level - 1));
    }
  }

  /**
   * Level `level` of a tree with n leaves holds n / 2^level nodes: the
   * bound that `node_value_from_bottom` checks the index against.
   */
  lemma {:induction false} LevelSizeIsQuotient(n: nat, level: nat)
    ensures LevelSize(n, level) == n / Pow2(level)
  {
    if level > 0 {
      LevelSizeIsQuotient(n, level - 1);
      SizeStep(n, level - 1);
      HalfOfQuotient(n, Pow2(level - 1));
    }
  }

  /** Dividing by d and then by 2 is dividing by 2d. */
  lemma HalfOfQuotient(a: nat, d: nat)
    requires d >= 1
    ensures (a / d) / 2 == a / (2 * d)
  {
    var q, r := a / d, a % d;
    var q2, s := q / 2, q % 2;
    Regroup(d, q2, s, r);
    QuotientUnique(a, 2 * d, q2, d * s + r);
  }

  /** d(2x + s) + r regrouped by 2d, with a remainder below 2d when s <= 1 and r < d. */
  lemma Regroup(d: nat, x: nat, s: nat, r: nat)
    requires s <= 1 && r < d
    ensures d * (2 * x + s) + r == (2 * d) * x + (d * s + r)
    ensures d * s + r < 2 * d
  {
    if s == 1 {
      assert d * s == d;
    }
  }

  /** A quotient is determined by any division with a remainder below the divisor. */
  lemma QuotientUnique(a: nat, d: nat, q: nat, r: nat)
    requires d >= 1 && a == d * q + r && r < d
    ensures a / d == q
  {
    var q', r' := a / d, a % d;
    assert d * q' + r' == d * q + r;
    if q' < q {
      MultipleGap(d, q', q);
      assert false;
    } else if q' > q {
      MultipleGap(d, q, q');
      assert false;
    }
  }

  /** Distinct multiples of d lie at least d apart. */
  lemma {:induction false} MultipleGap(d: nat, x: nat, y: nat)
    requires x < y
    ensures d * x + d <= d * y
    decreases y - x
  {
    assert d * (y - 1) + d == d * y;
    if x < y - 1 {
      MultipleGap(d, x, y - 1);
    }
  }

  /**
   * The node the walk yields at `level` holds the value that
   * `node_value_from_bottom(level, leaf / 2^level)` reads.
   */
  lemma IterHashMatchesBottom<T>(tree: MerkleTree<T>, leaf: nat, level: nat, node: Node<T>)
    requires OnPath(tree, leaf, level, node)
    ensures tree.NodeValueFromBottom(level, leaf / Pow2(level)) == Some(node.Hash())
  {
    AncestorIsShift(leaf, level);
    LevelShape(tree.LeafCount(), level);
  }

  /** Consecutive steps of the walk are a node and its parent. */
  lemma PathFollowsParents<T>(tree: MerkleTree<T>, leaf: nat, level: nat, x: Node<T>, y: Node<T>)
    requires OnPath(tree, leaf, level, x) && OnPath(tree, leaf, level + 1, y)
    ensures !x.IsRoot() && x.Parent() == Some(y)
  {
    var p := x.Parent().value;
    AbsIndexInjective(tree.Size(), p.Position(), y.Position());
  }

  /** A walk prefix extended by the next ancestor is still a walk prefix. */
  lemma ExtendPath<T>(tree: MerkleTree<T>, leaf: nat, nodes: seq<Node<T>>, next: Node<T>)
    requires forall j :: 0 <= j < |nodes| ==> OnPath(tree, leaf, j, nodes[j])
    requires OnPath(tree, leaf, |nodes|, next)
    ensures forall j :: 0 <= j < |nodes| + 1 ==> OnPath(tree, leaf, j, (nodes + [next])[j])
  {
  }

  /**
   * `iter_from_leaf_to_root`'s iterator: holds the node it will yield next,
   * or nothing once the root has been yielded.
   */
  class LeafToRootIter<T> {
    const tree: MerkleTree<T>
    var current: Option<Node<T>>
    /** The leaf the walk started from. */
    ghost const leaf: nat
    /** How many nodes `Next` has yielded so far. */
    ghost var yielded: nat

    /**
     * While nodes remain, the next one is the ancestor of `leaf` at level
     * `yielded`; once all `LevelCount()` levels are yielded nothing remains.
     */
    ghost predicate Valid()
      reads this
    {
      && tree.Valid() && leaf < tree.LeafCount() && yielded <= tree.LevelCount()
      && (current.Some? <==> yielded < tree.LevelCount())
      && (current.Some? ==> OnPath(tree, leaf, yielded, current.value))
    }

    /** Starts at leaf `start`, nothing yielded yet. */
    constructor (t: MerkleTree<T>, start: nat)
      requires t.Valid() && start < t.LeafCount()
      ensures Valid() && tree == t && leaf == start && yielded == 0
    {
      var first := t.NodeFromBottom(0, start);
      tree := t;
      leaf := start;
      yielded := 0;
      current := first;
    }

    /**
     * `next`: yields the ancestor of the start leaf one level further up each
     * call — the leaf itself first and the root last — and None afterwards.
     */
    method Next() returns (r: Option<Node<T>>)
      requires Valid()
      modifies this
      ensures Valid()
      ensures old(yielded) < tree.LevelCount() ==>
                r.Some? && OnPath(tree, leaf, old(yielded), r.value) && yielded == old(yielded) + 1
      ensures old(yielded) == tree.LevelCount() ==> r.None? && yielded == old(yielded)
    {
      r := current;
      if current.Some? {
        var node := current.value;
        current := node.Parent();
        yielded := yielded + 1;
        if current.Some? {
          AncestorInRange(tree, leaf, yielded);
        }
      }
    }
  }

  /**
   * `iter_from_leaf_to_root`: IterStartIndexOutOfRange(index, leaf count)
   * for an index that is not a leaf, otherwise a fresh iterator at that leaf.
   */
  method IterFromLeafToRoot<T>(tree: MerkleTree<T>, leafIndex: nat) returns (r: Result<LeafToRootIter<T>, AccessError>)
    requires tree.Valid()
    ensures r.Failure? <==> leafIndex >= tree.LeafCount()
    ensures r.Failure? ==> r.error == IterStartIndexOutOfRange(leafIndex, tree.LeafCount())
    ensures r.Success? ==> fresh(r.value) && r.value.Valid()
    ensures r.Success? ==> r.value.tree == tree && r.value.leaf == leafIndex && r.value.yielded == 0
  {
    if leafIndex >= tree.LeafCount() {
      return Failure(IterStartIndexOutOfRange(leafIndex, tree.LeafCount()));
    }
    var it := new LeafToRootIter(tree, leafIndex);
    return Success(it);
  }

  /** Calls `Next` until it yields None and returns what it yielded, in order. */
  method Drain<T>(it: LeafToRootIter<T>) returns (nodes: seq<Node<T>>)
    requires it.Valid() && it.yielded == 0
    modifies it
    ensures it.Valid() && it.yielded == it.tree.LevelCount() && |nodes| == it.tree.LevelCount()
    ensures forall j :: 0 <= j < |nodes| ==> OnPath(it.tree, it.leaf, j, nodes[j])
  {
    nodes := [];
    var next := it.Next();
    while next.Some?
      invariant it.Valid()
      invariant next.Some? ==> |nodes| + 1 == it.yielded && OnPath(it.tree, it.leaf, |nodes|, next.value)
      invariant next.None? ==> |nodes| == it.yielded == it.tree.LevelCount()
      invariant forall j :: 0 <= j < |nodes| ==> OnPath(it.tree, it.leaf, j, nodes[j])
      decreases it.tree.LevelCount() - |nodes|
    {
      ExtendPath(it.tree, it.leaf, nodes, next.value);
      nodes := nodes + [next.value];
      next := it.Next();
    }
  }

  /**
   * Drains the iterator from `leafIndex`: one node per level, the leaf first
   * and the root last, each the ancestor of the leaf at its level.
   */
  method CollectFromLeafToRoot<T>(tree: MerkleTree<T>, leafIndex: nat) returns (r: Result<seq<Node<T>>, AccessError>)
    requires tree.Valid()
    ensures r.Failure? <==> leafIndex >= tree.LeafCount()
    ensures r.Failure? ==> r.error == IterStartIndexOutOfRange(leafIndex, tree.LeafCount())
    ensures r.Success? ==> |r.value| == tree.LevelCount()
    ensures r.Success? ==> forall j :: 0 <= j < |r.value| ==> OnPath(tree, leafIndex, j, r.value[j])
    ensures r.Success? ==> r.value[|r.value| - 1].Valid() && r.value[|r.value| - 1].IsRoot()
  {
    var res := IterFromLeafToRoot(tree, leafIndex);
    if res.Failure? {
      return Failure(res.error);
    }
    var nodes := Drain(res.value);
    ghost var top := nodes[|nodes| - 1];
    assert OnPath(tree, leafIndex, |nodes| - 1, top);
    assert top.IsRoot();
    return Success(nodes);
  }
}
