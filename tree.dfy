/**
 * The Merkle tree: one flat buffer of node values, level 0 (the leaves)
 * first and the root last, built once from a leaf sequence and read-only
 * afterwards.  Node views are (tree, absolute index) handles.
 */
module Tree {
  import opened Wrappers
  import opened Hasher
  import opened Positions
  import opened Levels

  /** The construction error: an empty leaf sequence (carries its length, 0). */
  datatype FormError = TooSmall(count: nat)

  /** A caller-supplied leaf index outside [0, leafCount). */
  datatype AccessError =
    | IterStartIndexOutOfRange(index: nat, leafCount: nat)
    | LeafIndexOutOfRange(index: nat, leafCount: nat)

  datatype MerkleTree<!T> = MerkleTree(hasher: PairHasher<T>, nodes: seq<T>) {

    /**
     * The buffer has 2L - 1 nodes for a power of two L, and it is exactly
     * the bottom-first layout of the levels folded from its first L nodes.
     */
    ghost predicate Valid()
    {
      IsTreeSize(|nodes|) && nodes == Layout(hasher, nodes[..Positions.LeafCount(|nodes|)])
    }

    /** `total_node_count`: a full tree, one less than a power of two. */
    function Size(): (r: TreeSize)
      requires Valid()
      ensures r == |nodes| && IsPow2(r + 1)
    {
      |nodes|
    }

    /** `leaf_count` */
    function LeafCount(): (r: nat)
      requires Valid()
      ensures IsPow2(r) && |nodes| == 2 * r - 1
    {
      Positions.LeafCount(Size())
    }

    /** `level_count` */
    function LevelCount(): (r: nat)
      requires Valid()
      ensures r >= 1 && Pow2(r - 1) == LeafCount()
      ensures r == Log2(LeafCount()) + 1
    {
      Positions.LevelCount(Size())
    }

    /** Level 0: the supplied leaves followed by their padding. */
    function Leaves(): (r: seq<T>)
      requires Valid()
      ensures |r| == LeafCount()
    {
      nodes[..LeafCount()]
    }

    /** `root`: the last node of the buffer, the single node of the top level. */
    function Root(): (r: T)
      requires Valid()
      ensures |Level(hasher, Leaves(), LevelCount() - 1)| == 1
      ensures r == Level(hasher, Leaves(), LevelCount() - 1)[0]
    {
      LayoutTop(hasher, Leaves());
      nodes[|nodes| - 1]
    }

    /** The stored value at a position of the tree. */
    function ValueAt(p: NodePosition): (r: T)
      requires Valid() && ValidPosition(Size(), p)
      ensures r == Level(hasher, Leaves(), p.level)[p.index]
    {
      LayoutAt(hasher, Leaves(), p.level, p.index);
      nodes[AbsIndex(Size(), p)]
    }

    /** `node_value_from_bottom`: the value at (level, index), or None out of range. */
    function NodeValueFromBottom(level: nat, index: nat): (r: Option<T>)
      requires Valid()
      ensures r.Some? <==> level < LevelCount() && index < LevelSize(LeafCount(), level)
      ensures r.Some? ==> r.value == Level(hasher, Leaves(), level)[index]
    {
      match FromPosition(Size(), level, index)
      case None => None
      case Some(p) => Some(ValueAt(p))
    }

    /** `node_from_bottom`: the node view at (level, index), or None out of range. */
    function NodeFromBottom(level: nat, index: nat): (r: Option<Node<T>>)
      requires Valid()
      ensures r.Some? <==> level < LevelCount() && index < LevelSize(LeafCount(), level)
      ensures r.Some? ==> r.value.Valid() && r.value.tree == this
      ensures r.Some? ==> r.value.Position() == NodePosition(level, index)
      ensures r.Some? ==> r.value.absIndex == LevelStart(LeafCount(), level) + index
    {
      match FromPosition(Size(), level, index)
      case None => None
      case Some(p) =>
        var node := Node(this, AbsIndex(Size(), p));
        AbsIndexInjective(Size(), node.Position(), p);
        Some(node)
    }
  }

  /** A non-owning view of one node: the tree and the node's absolute index. */
  datatype Node<!T> = Node(tree: MerkleTree<T>, absIndex: nat) {

    ghost predicate Valid()
    {
      tree.Valid() && absIndex < |tree.nodes|
    }

    /** The (level, index-in-level) of this node. */
    function Position(): (p: NodePosition)
      requires Valid()
      ensures ValidPosition(tree.Size(), p) && AbsIndex(tree.Size(), p) == absIndex
    {
      FromAbsIndex(tree.Size(), absIndex).value
    }

    /** `hash`: the stored value. */
    function Hash(): (r: T)
      requires Valid()
      ensures r == Level(tree.hasher, tree.Leaves(), Position().level)[Position().index]
    {
      tree.ValueAt(Position())
    }

    /** This node is the root: the top level, the last slot of the buffer. */
    predicate IsRoot()
      requires Valid()
    {
      Position().level == tree.LevelCount() - 1
    }

    /**
     * `sibling`: the other node of this node's pair, whose absolute index
     * flips parity (even + 1, odd - 1); the root has none.
     */
    function Sibling(): (r: Option<Node<T>>)
      requires Valid()
      ensures r.None? <==> IsRoot()
      ensures r.Some? ==> r.value.Valid() && r.value.tree == tree
      ensures r.Some? ==> r.value.absIndex == Flip(absIndex)
      ensures r.Some? ==> r.value.Position() == NodePosition(Position().level, Flip(Position().index))
    {
      match SiblingOf(tree.Size(), Position())
      case None => None
      case Some(q) =>
        var s := Node(tree, AbsIndex(tree.Size(), q));
        AbsIndexInjective(tree.Size(), s.Position(), q);
        Some(s)
    }

    /** `parent`: the node at (level + 1, index / 2); the root has none. */
    function Parent(): (r: Option<Node<T>>)
      requires Valid()
      ensures r.None? <==> IsRoot()
      ensures r.Some? ==> r.value.Valid() && r.value.tree == tree
      ensures r.Some? ==> r.value.Position().level == Position().level + 1
      ensures r.Some? ==> 2 * r.value.Position().index <= Position().index <= 2 * r.value.Position().index + 1
    {
      match ParentOf(tree.Size(), Position())
      case None => None
      case Some(q) =>
        var s := Node(tree, AbsIndex(tree.Size(), q));
        AbsIndexInjective(tree.Size(), s.Position(), q);
        Some(s)
    }
  }

  /** The root is the node at (level_count - 1, 0), in the last slot of the buffer. */
  lemma RootIsTopNode<T>(tree: MerkleTree<T>)
    requires tree.Valid()
    ensures tree.NodeValueFromBottom(tree.LevelCount() - 1, 0) == Some(tree.Root())
    ensures tree.NodeFromBottom(tree.LevelCount() - 1, 0).Some?
    ensures tree.NodeFromBottom(tree.LevelCount() - 1, 0).value.absIndex == |tree.nodes| - 1
    ensures tree.NodeFromBottom(tree.LevelCount() - 1, 0).value.IsRoot()
  {
    LevelShape(tree.LeafCount(), tree.LevelCount() - 1);
  }

  /**
   * Every node below the root is one operand of its parent's hashPair: the
   * left operand when its index is even, the right one when it is odd, with
   * its sibling as the other operand.
   */
  lemma ParentIsPairOfChildren<T>(node: Node<T>)
    requires node.Valid() && !node.IsRoot()
    ensures node.Sibling().Some? && node.Parent().Some?
    ensures var i := node.Position().index;
            var s := node.Sibling().value.Hash();
            node.Parent().value.Hash() ==
              if i % 2 == 0 then node.tree.hasher.hashPair(node.Hash(), s)
              else node.tree.hasher.hashPair(s, node.Hash())
  {
    var p := node.Position();
    var sibling, parent := node.Sibling().value, node.Parent().value;
    assert parent.Position() == NodePosition(p.level + 1, p.index / 2);
    PairHashes(node, sibling, parent);
  }

  /** The stored values of a node, its sibling and its parent obey the pairing rule. */
  lemma PairHashes<T>(x: Node<T>, s: Node<T>, y: Node<T>)
    requires x.Valid() && s.Valid() && y.Valid() && s.tree == x.tree && y.tree == x.tree
    requires s.Position() == NodePosition(x.Position().level, Flip(x.Position().index))
    requires y.Position() == NodePosition(x.Position().level + 1, x.Position().index / 2)
    ensures var i := x.Position().index;
            y.Hash() == if i % 2 == 0 then x.tree.hasher.hashPair(x.Hash(), s.Hash())
                        else x.tree.hasher.hashPair(s.Hash(), x.Hash())
  {
    var p := x.Position();
    PairOfChildren(x.tree.hasher, x.tree.Leaves(), p.level, p.index);
  }

  // -----------------------------------------------------------------------
  // Construction

  /**
   * `from_leaves` as a value: TooSmall(0) for no leaves; otherwise the layout
   * of the levels folded from the leaves padded to the next power of two.
   */
  function Build<T>(h: PairHasher<T>, leaves: seq<T>): (r: Result<MerkleTree<T>, FormError>)
    ensures r.Failure? <==> |leaves| == 0
    ensures r.Failure? ==> r.error == TooSmall(0)
    ensures r.Success? ==> r.value.Valid() && r.value.hasher == h
    ensures r.Success? ==> r.value.LeafCount() == NextPow2(|leaves|)
    ensures r.Success? ==> r.value.Leaves() == PadLevel(h, leaves, NextPow2(|leaves|))
  {
    if |leaves| == 0 then
      Failure(TooSmall(0))
    else
      var base := PadLevel(h, leaves, NextPow2(|leaves|));
      LayoutBase(h, base);
      Success(MerkleTree(h, Layout(h, base)))
  }

  /**
   * `from_leaves`: fills one flat buffer level by level. Level 0 gets the
   * leaves and then the padding chain; each further level is computed from
   * the one below it, pair by pair, left to right, until one node is left.
   */
  method FromLeaves<T>(h: PairHasher<T>, leaves: seq<T>) returns (r: Result<MerkleTree<T>, FormError>)
    ensures r == Build(h, leaves)
  {
    if |leaves| == 0 {
      return Failure(TooSmall(0));
    }
    var leafCount := NextPow2(|leaves|);
    var size := 2 * leafCount - 1;
    var first := leaves[0];
    var buf := new T[size](_ => first);
    FillLevelZero(h, leaves, buf, leafCount);

    FoldAll(h, buf, leafCount);
    r := Success(MerkleTree(h, buf[..]));
  }

  /**
   * Folds level 0, held in buf[..leafCount], upward: each pass writes the
   * level above the last one written until the single root is in place.
   */
  method FoldAll<T>(h: PairHasher<T>, buf: array<T>, leafCount: nat)
    requires IsPow2(leafCount) && buf.Length == 2 * leafCount - 1
    modifies buf
    ensures buf[..] == Layout(h, old(buf[..leafCount]))
  {
    ghost var base := buf[..leafCount];
    ghost var done: seq<T> := [];
    ghost var cur := base;
    ghost var all := Layout(h, base);
    assert done + Layout(h, cur) == all;
    var start, width := 0, leafCount;
    while width > 1
      invariant IsPow2(width) && |cur| == width && |done| == start
      invariant start + 2 * width - 1 == buf.Length
      invariant buf[..start + width] == done + cur
      invariant done + Layout(h, cur) == all
      decreases width
    {
      HalvePow2(width);
      FoldLevel(h, buf, start, width, done, cur);
      LayoutStep(h, done, cur, all);
      done, cur := done + cur, PairUp(h, cur);
      start, width := start + width, width / 2;
    }
    assert buf[..] == buf[..start + width];
  }

  /** A power of two above 1 is even and its half is a power of two. */
  lemma HalvePow2(w: nat)
    requires IsPow2(w) && w > 1
    ensures IsPow2(w / 2) && w == 2 * (w / 2)
  {
  }

  /** Folding one more level keeps "what is written, then the layout of the rest". */
  lemma LayoutStep<T>(h: PairHasher<T>, done: seq<T>, cur: seq<T>, all: seq<T>)
    requires |cur| > 1 && done + Layout(h, cur) == all
    ensures (done + cur) + Layout(h, PairUp(h, cur)) == all
  {
    assert Layout(h, cur) == cur + Layout(h, PairUp(h, cur));
  }

  /** Writes level 0 into buf[..target]: the leaves, then the padding chain. */
  method FillLevelZero<T>(h: PairHasher<T>, leaves: seq<T>, buf: array<T>, target: nat)
    requires 1 <= |leaves| <= target <= buf.Length
    modifies buf
    ensures buf[..target] == PadLevel(h, leaves, target)
    ensures buf[target..] == old(buf[target..])
  {
    var n := |leaves|;
    for i := 0 to n
      invariant buf[..i] == leaves[..i]
      invariant buf[target..] == old(buf[target..])
    {
      buf[i] := leaves[i];
    }
    for i := n to target
      invariant buf[..i] == PadLevel(h, leaves, i)
      invariant buf[target..] == old(buf[target..])
    {
      PadLevelExtend(h, leaves, i);
      buf[i] := h.hashSingle(buf[i - 1]);
    }
  }

  /**
   * Computes the level above buf[start..start + width] into the slots right
   * after it, leaving everything before and after those slots untouched.
   */
  method FoldLevel<T>(h: PairHasher<T>, buf: array<T>, start: nat, width: nat, ghost below: seq<T>, ghost cur: seq<T>)
    requires |below| == start && |cur| == width && start + width + width / 2 <= buf.Length
    requires buf[..start + width] == below + cur
    modifies buf
    ensures buf[..start + width + width / 2] == below + cur + PairUp(h, cur)
    ensures buf[start + width + width / 2..] == old(buf[start + width + width / 2..])
  {
    var next, half := start + width, width / 2;
    for j := 0 to half
      invariant buf[..next] == below + cur
      invariant buf[next + half..] == old(buf[next + half..])
      invariant forall k :: 0 <= k < j ==> buf[next + k] == h.hashPair(cur[2 * k], cur[2 * k + 1])
    {
      assert buf[start + 2 * j] == buf[..next][start + 2 * j] == cur[2 * j];
      assert buf[start + 2 * j + 1] == buf[..next][start + 2 * j + 1] == cur[2 * j + 1];
      buf[next + j] := h.hashPair(buf[start + 2 * j], buf[start + 2 * j + 1]);
    }
    Appended(buf[..], below + cur, PairUp(h, cur));
  }

  /** A prefix `x` of `b` followed, element by element, by `y` makes `x + y` a prefix. */
  lemma Appended<T>(b: seq<T>, x: seq<T>, y: seq<T>)
    requires |x| + |y| <= |b| && b[..|x|] == x
    requires forall k :: 0 <= k < |y| ==> b[|x| + k] == y[k]
    ensures b[..|x| + |y|] == x + y
  {
    forall k | 0 <= k < |x| + |y|
      ensures b[..|x| + |y|][k] == (x + y)[k]
    {
      if k >= |x| {
        assert b[|x| + (k - |x|)] == y[k - |x|];
      }
    }
  }

  /**
   * For N >= 1 leaves the tree has 2 * NextPow2(N) - 1 nodes; level 0 starts
   * with the N leaves; the first pad is hashSingle of the last leaf and every
   * later pad is hashSingle of the pad before it.
   */
  lemma BuildPadsLeaves<T>(h: PairHasher<T>, leaves: seq<T>)
    requires |leaves| >= 1
    ensures Build(h, leaves).Success?
    ensures var t := Build(h, leaves).value;
            && |t.nodes| == 2 * NextPow2(|leaves|) - 1
            && t.Leaves()[..|leaves|] == leaves
            && (|leaves| < t.LeafCount() ==> t.Leaves()[|leaves|] == h.hashSingle(leaves[|leaves| - 1]))
            && (forall i :: |leaves| < i < t.LeafCount() ==> t.Leaves()[i] == h.hashSingle(t.Leaves()[i - 1]))
  {
    var t := Build(h, leaves).value;
    if |leaves| < t.LeafCount() {
      assert t.Leaves()[|leaves| - 1] == t.Leaves()[..|leaves|][|leaves| - 1];
    }
  }

  // -----------------------------------------------------------------------
  // The roots of small trees

  lemma RootOfTwo<T>(h: PairHasher<T>, base: seq<T>)
    requires |base| == 2
    ensures Level(h, base, 1) == [h.hashPair(base[0], base[1])]
  {
  }

  lemma RootOfFour<T>(h: PairHasher<T>, base: seq<T>)
    requires |base| == 4
    ensures Level(h, base, 2) ==
      [h.hashPair(h.hashPair(base[0], base[1]), h.hashPair(base[2], base[3]))]
  {
    var l1 := PairUp(h, base);
    assert l1 == [h.hashPair(base[0], base[1]), h.hashPair(base[2], base[3])];
    RootOfTwo(h, l1);
  }

  lemma RootOfEight<T>(h: PairHasher<T>, base: seq<T>)
    requires |base| == 8
    ensures Level(h, base, 3) ==
      [h.hashPair(
        h.hashPair(h.hashPair(base[0], base[1]), h.hashPair(base[2], base[3])),
        h.hashPair(h.hashPair(base[4], base[5]), h.hashPair(base[6], base[7])))]
  {
    var l1 := PairUp(h, base);
    assert l1 == [h.hashPair(base[0], base[1]), h.hashPair(base[2], base[3]),
                  h.hashPair(base[4], base[5]), h.hashPair(base[6], base[7])];
    RootOfFour(h, l1);
  }

  /** One leaf: the leaf is the root. */
  lemma OneLeafRoot<T>(h: PairHasher<T>, v: T)
    ensures Build(h, [v]).Success?
    ensures Build(h, [v]).value.nodes == [v]
    ensures Build(h, [v]).value.Root() == v
  {
    assert NextPow2(1) == 1;
  }

  /** Two leaves: root == hashPair(v1, v2). */
  lemma TwoLeafRoot<T>(h: PairHasher<T>, v1: T, v2: T)
    ensures Build(h, [v1, v2]).Success?
    ensures Build(h, [v1, v2]).value.Root() == h.hashPair(v1, v2)
  {
    assert NextPow2(2) == 2;
    var t := Build(h, [v1, v2]).value;
    assert t.LevelCount() == 2 by { Pow2IsPow2(1); }
    RootOfTwo(h, t.Leaves());
  }

  /** Four leaves: root == hashPair(hashPair(v1, v2), hashPair(v3, v4)). */
  lemma FourLeafRoot<T>(h: PairHasher<T>, v1: T, v2: T, v3: T, v4: T)
    ensures Build(h, [v1, v2, v3, v4]).Success?
    ensures Build(h, [v1, v2, v3, v4]).value.Root() ==
      h.hashPair(h.hashPair(v1, v2), h.hashPair(v3, v4))
  {
    assert NextPow2(4) == 4;
    var t := Build(h, [v1, v2, v3, v4]).value;
    assert t.LevelCount() == 3 by { Pow2IsPow2(2); }
    RootOfFour(h, t.Leaves());
  }

  /** Eight leaves: the left-to-right fold of three rounds of hashPair. */
  lemma EightLeafRoot<T>(h: PairHasher<T>, v1: T, v2: T, v3: T, v4: T, v5: T, v6: T, v7: T, v8: T)
    ensures Build(h, [v1, v2, v3, v4, v5, v6, v7, v8]).Success?
    ensures Build(h, [v1, v2, v3, v4, v5, v6, v7, v8]).value.Root() ==
      h.hashPair(
        h.hashPair(h.hashPair(v1, v2), h.hashPair(v3, v4)),
        h.hashPair(h.hashPair(v5, v6), h.hashPair(v7, v8)))
  {
    assert NextPow2(8) == 8;
    var t := Build(h, [v1, v2, v3, v4, v5, v6, v7, v8]).value;
    assert t.LevelCount() == 4 by { Pow2IsPow2(3); }
    RootOfEight(h, t.Leaves());
  }

  /** Three leaves: the fourth leaf is hashSingle(v3). */
  lemma ThreeLeafRoot<T>(h: PairHasher<T>, v1: T, v2: T, v3: T)
    ensures Build(h, [v1, v2, v3]).Success?
    ensures Build(h, [v1, v2, v3]).value.Root() ==
      h.hashPair(h.hashPair(v1, v2), h.hashPair(v3, h.hashSingle(v3)))
  {
    assert NextPow2(3) == 4;
    var t := Build(h, [v1, v2, v3]).value;
    BuildPadsLeaves(h, [v1, v2, v3]);
    assert t.Leaves() == [v1, v2, v3, h.hashSingle(v3)] by {
      assert t.Leaves()[..3] == [v1, v2, v3];
    }
    assert t.LevelCount() == 3 by { Pow2IsPow2(2); }
    RootOfFour(h, t.Leaves());
  }

  /** Five leaves: pads v6 = hashSingle(v5), v7 = hashSingle(v6), v8 = hashSingle(v7). */
  lemma FiveLeafRoot<T>(h: PairHasher<T>, v1: T, v2: T, v3: T, v4: T, v5: T)
    ensures Build(h, [v1, v2, v3, v4, v5]).Success?
    ensures var v6 := h.hashSingle(v5);
            var v7 := h.hashSingle(v6);
            var v8 := h.hashSingle(v7);
            Build(h, [v1, v2, v3, v4, v5]).value.Root() ==
              h.hashPair(
                h.hashPair(h.hashPair(v1, v2), h.hashPair(v3, v4)),
                h.hashPair(h.hashPair(v5, v6), h.hashPair(v7, v8)))
  {
    assert NextPow2(5) == 8;
    var t := Build(h, [v1, v2, v3, v4, v5]).value;
    BuildPadsLeaves(h, [v1, v2, v3, v4, v5]);
    var v6 := h.hashSingle(v5);
    var v7 := h.hashSingle(v6);
    var v8 := h.hashSingle(v7);
    var l := t.Leaves();
    assert l[..5] == [v1, v2, v3, v4, v5];
    assert l[4] == v5 && l[5] == v6 && l[6] == v7 && l[7] == v8;
    assert l == [v1, v2, v3, v4, v5, v6, v7, v8];
    assert t.LevelCount() == 4 by { Pow2IsPow2(3); }
    RootOfEight(h, t.Leaves());
  }

  /**
   * hashPair is used with the left operand first, and the model relies on
   * nothing more: with an order-sensitive hasher, swapping two leaves
   * changes the root.
   */
  lemma SwappedLeavesChangeRoot()
    ensures var h := PairHasher((x: int) => x + 1, (a: int, b: int) => 2 * a + b);
            Build(h, [0, 1]).value.Root() != Build(h, [1, 0]).value.Root()
  {
    var h := PairHasher((x: int) => x + 1, (a: int, b: int) => 2 * a + b);
    TwoLeafRoot(h, 0, 1);
    TwoLeafRoot(h, 1, 0);
  }
}
