/**
 * The multi-leaf inclusion proof: the smallest set of positioned node values
 * from which the root can be recomputed together with several leaves,
 * detached from the tree, and checked by resolving known positions upward
 * one level at a time.
 */
module MultiProof {
  import opened Wrappers
  import opened Hasher
  import opened Positions
  import opened Levels
  import opened Tree
  import opened VerifyResult

  // -----------------------------------------------------------------------
  // Which positions are known at each level, and which values must be sent

  /** The indices, one level up, of the parents of the nodes at `known`. */
  function Parents(known: set<nat>): (r: set<nat>)
    ensures forall i :: i in known ==> i / 2 in r
    ensures forall q :: q in r ==> exists i :: i in known && i / 2 == q
  {
    set i | i in known :: i / 2
  }

  /**
   * The indices at `level` that a verifier holding the leaves `leaves` can
   * compute: the leaves themselves at level 0, then their ancestors.
   */
  function KnownAt(leaves: set<nat>, level: nat): set<nat>
  {
    if level == 0 then leaves else Parents(KnownAt(leaves, level - 1))
  }

  /**
   * The siblings of known nodes that are not known themselves: exactly the
   * values a verifier is missing at one level.
   */
  function MissingSiblings(known: set<nat>): (r: set<nat>)
    ensures forall j :: j in r <==> Flip(j) in known && j !in known
  {
    var r := set i | i in known && Flip(i) !in known :: Flip(i);
    assert forall j :: Flip(j) in known && j !in known ==> Flip(Flip(j)) == j;
    r
  }

  /**
   * The positions `from_tree_leaves` puts in the proof for levels
   * [level, top): at each level, the missing siblings of the known nodes.
   */
  function ProofPositionsFrom(leaves: set<nat>, level: nat, top: nat): (r: set<NodePosition>)
    ensures forall p :: p in r <==> level <= p.level < top && p.index in MissingSiblings(KnownAt(leaves, p.level))
    decreases top - level
  {
    if level >= top then {}
    else
      (set j | j in MissingSiblings(KnownAt(leaves, level)) :: NodePosition(level, j))
        + ProofPositionsFrom(leaves, level + 1, top)
  }

  /**
   * In a tree of n = 2^k leaves, the known indices stay inside their level
   * up to the top.
   */
  lemma {:induction false} KnownInRange(n: nat, leaves: set<nat>, level: nat)
    requires IsPow2(n) && level <= Log2(n)
    requires forall i :: i in leaves ==> i < n
    ensures forall i :: i in KnownAt(leaves, level) ==> i < LevelSize(n, level)
  {
    if level > 0 {
      KnownInRange(n, leaves, level - 1);
      LevelShape(n, level - 1);
      SizeStep(n, level - 1);
    }
  }

  /** Some leaf known means some node known at every level. */
  lemma {:induction false} KnownNonEmpty(leaves: set<nat>, level: nat)
    requires leaves != {}
    ensures KnownAt(leaves, level) != {}
  {
    if level > 0 {
      KnownNonEmpty(leaves, level - 1);
      var i :| i in KnownAt(leaves, level - 1);
      assert i / 2 in KnownAt(leaves, level);
    }
  }

  /** Every proof position lies on a level below the root and inside that level. */
  lemma ProofPositionsInRange(n: nat, leaves: set<nat>)
    requires IsPow2(n)
    requires forall i :: i in leaves ==> i < n
    ensures forall p :: p in ProofPositionsFrom(leaves, 0, Log2(n)) ==>
              p.level < Log2(n) && p.index < LevelSize(n, p.level)
  {
    forall p | p in ProofPositionsFrom(leaves, 0, Log2(n))
      ensures p.index < LevelSize(n, p.level)
    {
      KnownInRange(n, leaves, p.level);
      LevelShape(n, p.level);
    }
  }

  // -----------------------------------------------------------------------
  // Building and detaching

  /**
   * `MultiProofNodes`: the proof still bound to the tree: the target leaf
   * indices and the positions of the node values it carries.
   */
  datatype MultiProofNodes<!T> = MultiProofNodes(tree: MerkleTree<T>, leafIndices: set<nat>, proofPositions: set<NodePosition>) {

    ghost predicate Valid()
    {
      && tree.Valid()
      && (forall i :: i in leafIndices ==> i < tree.LeafCount())
      && proofPositions == ProofPositionsFrom(leafIndices, 0, tree.LevelCount() - 1)
      && (forall p :: p in proofPositions ==> ValidPosition(tree.Size(), p))
    }

    /**
     * `into_values`: the tree's leaf count and the proof positions with the
     * tree's values at them; nothing tied to the tree remains.
     */
    function IntoValues(): (r: MultiProofHashes<T>)
      requires Valid()
      ensures r.treeLeafCount == tree.LeafCount()
      ensures r.nodes.Keys == proofPositions
      ensures forall p :: p in r.nodes ==> r.nodes[p] == tree.ValueAt(p)
    {
      MultiProofHashes(tree.LeafCount(), map p | p in proofPositions :: tree.ValueAt(p))
    }
  }

  /**
   * `MultiProofHashes`: the detached proof; `tree_leaf_count` and `nodes`
   * are its two fields.
   */
  datatype MultiProofHashes<T> = MultiProofHashes(treeLeafCount: nat, nodes: map<NodePosition, T>)

  /** `from_leaf_count_and_nodes`: rebuilds the verifier from the two detached fields. */
  function FromLeafCountAndNodes<T>(leafCount: nat, nodes: map<NodePosition, T>): (r: MultiProofHashes<T>)
    ensures r.treeLeafCount == leafCount && r.nodes == nodes
  {
    MultiProofHashes(leafCount, nodes)
  }

  /** The first place in `indices` holding a value >= bound, if any. */
  function FirstOutOfRange(indices: seq<nat>, bound: nat): (r: Option<nat>)
    ensures r.None? <==> forall k :: 0 <= k < |indices| ==> indices[k] < bound
    ensures r.Some? ==> r.value < |indices| && indices[r.value] >= bound
    ensures r.Some? ==> forall m :: 0 <= m < r.value ==> indices[m] < bound
  {
    if |indices| == 0 then None
    else if indices[0] >= bound then Some(0)
    else
      match FirstOutOfRange(indices[1..], bound)
      case None => None
      case Some(k) => Some(k + 1)
  }

  /**
   * `from_tree_leaves`: LeafIndexOutOfRange(index, leaf count) for the first
   * index that is not a leaf; otherwise the distinct target indices and the
   * missing-sibling positions of every level below the root.
   */
  function FromTreeLeaves<T>(tree: MerkleTree<T>, indices: seq<nat>): (r: Result<MultiProofNodes<T>, AccessError>)
    requires tree.Valid()
    ensures r.Failure? <==> exists k :: 0 <= k < |indices| && indices[k] >= tree.LeafCount()
    ensures r.Failure? ==>
              exists k :: && 0 <= k < |indices| && indices[k] >= tree.LeafCount()
                          && r.error == LeafIndexOutOfRange(indices[k], tree.LeafCount())
                          && forall m :: 0 <= m < k ==> indices[m] < tree.LeafCount()
    ensures r.Success? ==> r.value.Valid() && r.value.tree == tree
    ensures r.Success? ==> r.value.leafIndices == set i | i in indices
  {
    match FirstOutOfRange(indices, tree.LeafCount())
    case Some(k) => Failure(LeafIndexOutOfRange(indices[k], tree.LeafCount()))
    case None =>
      var leaves := set i | i in indices;
      ProofPositionsInRange(tree.LeafCount(), leaves);
      Success(MultiProofNodes(tree, leaves, ProofPositionsFrom(leaves, 0, tree.LevelCount() - 1)))
  }

  // -----------------------------------------------------------------------
  // Verifying

  /** Detached proof data or leaf maps that do not describe a tree. */
  datatype MultiProofVerifyError =
    | InvalidTreeLeafCount(count: nat)
    | NoLeavesToVerify
    | LeafOutsideTree(leafCount: nat)
    | ProofNodeOutsideTree(leafCount: nat)

  /**
   * The input checks of `verify`, in order: a leaf count that is a power of
   * two, at least one leaf, every leaf index below the leaf count, and every
   * proof position on a level below the root and inside that level.
   */
  function InputError<T>(proof: MultiProofHashes<T>, leaves: map<nat, T>): (r: Option<MultiProofVerifyError>)
    ensures r.None? <==>
              && IsPow2(proof.treeLeafCount) && leaves.Keys != {}
              && (forall i :: i in leaves ==> i < proof.treeLeafCount)
              && (forall p :: p in proof.nodes ==>
                    p.level < Log2(proof.treeLeafCount) && p.index < LevelSize(proof.treeLeafCount, p.level))
    ensures !IsPow2(proof.treeLeafCount) ==> r == Some(InvalidTreeLeafCount(proof.treeLeafCount))
    ensures IsPow2(proof.treeLeafCount) && leaves.Keys == {} ==> r == Some(NoLeavesToVerify)
    ensures IsPow2(proof.treeLeafCount) && leaves.Keys != {} && (exists i :: i in leaves && i >= proof.treeLeafCount) ==>
              r == Some(LeafOutsideTree(proof.treeLeafCount))
  {
    var count := proof.treeLeafCount;
    if !IsPow2(count) then Some(InvalidTreeLeafCount(count))
    else if leaves.Keys == {} then Some(NoLeavesToVerify)
    else if exists i :: i in leaves && i >= count then Some(LeafOutsideTree(count))
    else if exists p :: p in proof.nodes && !(p.level < Log2(count) && p.index < LevelSize(count, p.level)) then
      Some(ProofNodeOutsideTree(count))
    else None
  }

  /**
   * The starting map of known values: the proof nodes at their positions
   * and the supplied leaves at level 0, a leaf winning over a proof node.
   */
  function Seed<T>(proof: MultiProofHashes<T>, leaves: map<nat, T>): (r: map<NodePosition, T>)
    ensures forall i :: i in leaves ==> NodePosition(0, i) in r && r[NodePosition(0, i)] == leaves[i]
    ensures forall p :: p in r ==> p in proof.nodes || (p.level == 0 && p.index in leaves)
    ensures forall p :: p in proof.nodes ==> p in r
    ensures forall p :: p in proof.nodes && !(p.level == 0 && p.index in leaves) ==> r[p] == proof.nodes[p]
  {
    proof.nodes + map i | i in leaves :: NodePosition(0, i) := leaves[i]
  }

  /**
   * The values computable at `level + 1` from `known`: the hashPair of the
   * two children, wherever both are known.
   */
  function Derived<T>(h: PairHasher<T>, known: map<NodePosition, T>, leafCount: nat, level: nat): (r: map<NodePosition, T>)
    ensures forall p :: p in r <==>
              p in Slots(leafCount, level + 1) && LeftChild(p) in known && RightChild(p) in known
    ensures forall p :: p in r ==> r[p] == h.hashPair(known[LeftChild(p)], known[RightChild(p)])
  {
    map p | p in Slots(leafCount, level + 1) && LeftChild(p) in known && RightChild(p) in known
      :: h.hashPair(known[LeftChild(p)], known[RightChild(p)])
  }

  /** The positions of `level` in a tree of `leafCount` leaves. */
  function Slots(leafCount: nat, level: nat): (r: set<NodePosition>)
    ensures forall p :: p in r <==> p.level == level && p.index < LevelSize(leafCount, level)
  {
    var r := set q | 0 <= q < LevelSize(leafCount, level) :: NodePosition(level, q);
    assert forall p: NodePosition :: p.level == level && p.index < LevelSize(leafCount, level) ==> p == NodePosition(level, p.index);
    r
  }

  /** The left child of a node: index 2i one level down. */
  function LeftChild(p: NodePosition): NodePosition
    requires p.level >= 1
  {
    NodePosition(p.level - 1, 2 * p.index)
  }

  /** The right child of a node: index 2i + 1 one level down. */
  function RightChild(p: NodePosition): NodePosition
    requires p.level >= 1
  {
    NodePosition(p.level - 1, 2 * p.index + 1)
  }

  /** One round of resolution: `known` with the level above `level` filled in where possible. */
  function Step<T>(h: PairHasher<T>, known: map<NodePosition, T>, leafCount: nat, level: nat): (r: map<NodePosition, T>)
    ensures known.Keys <= r.Keys
  {
    known + Derived(h, known, leafCount, level)
  }

  /**
   * What one round changes: the only new positions are slots of level + 1
   * whose two children are known, each holding the hashPair of its
   * children, and no value on another level changes.
   */
  lemma StepShape<T>(h: PairHasher<T>, known: map<NodePosition, T>, leafCount: nat, level: nat)
    ensures var r := Step(h, known, leafCount, level);
            forall p :: p in r && p !in known ==>
              && p in Slots(leafCount, level + 1) && LeftChild(p) in known && RightChild(p) in known
              && r[p] == h.hashPair(known[LeftChild(p)], known[RightChild(p)])
    ensures var r := Step(h, known, leafCount, level);
            forall p :: p in known && p.level != level + 1 ==> r[p] == known[p]
  {
  }

  /** The rounds of resolution for levels [level, top), from the bottom up. */
  function Resolve<T>(h: PairHasher<T>, known: map<NodePosition, T>, leafCount: nat, level: nat, top: nat): (r: map<NodePosition, T>)
    ensures known.Keys <= r.Keys
    decreases top - level
  {
    if level >= top then known else Resolve(h, Step(h, known, leafCount, level), leafCount, level + 1, top)
  }

  /**
   * What `verify` answers: an input error, or a decisive pass when the root
   * position resolves to the claimed root and a decisive fail otherwise
   * (including when the data leaves a gap and the root never resolves).
   */
  function VerifyOutcome<T(==)>(h: PairHasher<T>, proof: MultiProofHashes<T>, leaves: map<nat, T>, root: T): (r: Result<ProofVerifyResult, MultiProofVerifyError>)
    ensures r.Failure? <==> InputError(proof, leaves).Some?
    ensures r.Failure? ==> Some(r.error) == InputError(proof, leaves)
  {
    match InputError(proof, leaves)
    case Some(e) => Failure(e)
    case None =>
      var top := Log2(proof.treeLeafCount);
      var resolved := Resolve(h, Seed(proof, leaves), proof.treeLeafCount, 0, top);
      var rootAt := NodePosition(top, 0);
      if rootAt in resolved && resolved[rootAt] == root then Success(PassedDecisively) else Success(Failed)
  }

  /** Runs the rounds of resolution for levels [0, top) over a map of known values. */
  method ResolveUpward<T>(h: PairHasher<T>, seed: map<NodePosition, T>, leafCount: nat, top: nat)
    returns (known: map<NodePosition, T>)
    ensures known == Resolve(h, seed, leafCount, 0, top)
  {
    known := seed;
    var level := 0;
    while level < top
      invariant level <= top
      invariant Resolve(h, known, leafCount, level, top) == Resolve(h, seed, leafCount, 0, top)
    {
      known := Step(h, known, leafCount, level);
      level := level + 1;
    }
  }

  /**
   * `verify`: checks the inputs, seeds a map of known values, and extends it
   * one level per round until the root level is reached, then compares the
   * value at the root position with the claimed root.
   */
  method Verify<T(==)>(h: PairHasher<T>, proof: MultiProofHashes<T>, leaves: map<nat, T>, root: T)
    returns (r: Result<ProofVerifyResult, MultiProofVerifyError>)
    ensures r == VerifyOutcome(h, proof, leaves, root)
  {
    var err := InputError(proof, leaves);
    if err.Some? {
      return Failure(err.value);
    }
    var count := proof.treeLeafCount;
    var top := Log2(count);
    var known := ResolveUpward(h, Seed(proof, leaves), count, top);
    var rootAt := NodePosition(top, 0);
    if rootAt in known && known[rootAt] == root {
      r := Success(PassedDecisively);
    } else {
      r := Success(Failed);
    }
  }

  // -----------------------------------------------------------------------
  // Completeness

  /**
   * Every known value is the value the levels over `base` hold at its
   * position (so every position is inside its level).
   */
  ghost predicate Consistent<T>(h: PairHasher<T>, base: seq<T>, known: map<NodePosition, T>)
  {
    forall p :: p in known ==>
      p.index < LevelSize(|base|, p.level) && known[p] == Level(h, base, p.level)[p.index]
  }

  /** A node one level up is the hashPair of its two children, left first. */
  lemma ParentValue<T>(h: PairHasher<T>, base: seq<T>, level: nat, q: nat)
    requires 2 * q + 1 < LevelSize(|base|, level)
    ensures q < LevelSize(|base|, level + 1)
    ensures Level(h, base, level + 1)[q] == h.hashPair(Level(h, base, level)[2 * q], Level(h, base, level)[2 * q + 1])
  {
    SizeStep(|base|, level);
    LevelStep(h, base, level);
  }

  /** A round of resolution only ever adds the tree's own values. */
  lemma StepConsistent<T>(h: PairHasher<T>, base: seq<T>, known: map<NodePosition, T>, level: nat)
    requires Consistent(h, base, known)
    ensures Consistent(h, base, Step(h, known, |base|, level))
  {
    var derived := Derived(h, known, |base|, level);
    var step := Step(h, known, |base|, level);
    forall p | p in step
      ensures p.index < LevelSize(|base|, p.level) && step[p] == Level(h, base, p.level)[p.index]
    {
      if p in derived {
        DerivedValue(h, base, known, level, p);
      }
    }
  }

  /** A derived value is the tree's own value at its position, when its children are. */
  lemma DerivedValue<T>(h: PairHasher<T>, base: seq<T>, known: map<NodePosition, T>, level: nat, p: NodePosition)
    requires Consistent(h, base, known)
    requires p in Derived(h, known, |base|, level)
    ensures p.index < LevelSize(|base|, p.level)
    ensures Derived(h, known, |base|, level)[p] == Level(h, base, p.level)[p.index]
  {
    var q := p.index;
    var l, r := LeftChild(p), RightChild(p);
    assert p.level == level + 1 && l == NodePosition(level, 2 * q) && r == NodePosition(level, 2 * q + 1);
    assert l in known && r in known;
    assert 2 * q + 1 < LevelSize(|base|, level) && known[r] == Level(h, base, level)[2 * q + 1];
    assert known[l] == Level(h, base, level)[2 * q];
    ParentValue(h, base, level, q);
  }

  lemma {:induction false} ResolveConsistent<T>(h: PairHasher<T>, base: seq<T>, known: map<NodePosition, T>, level: nat, top: nat)
    requires Consistent(h, base, known)
    ensures Consistent(h, base, Resolve(h, known, |base|, level, top))
    decreases top - level
  {
    if level < top {
      StepConsistent(h, base, known, level);
      ResolveConsistent(h, base, Step(h, known, |base|, level), level + 1, top);
    }
  }

  /**
   * One round at `level` resolves every index known one level up, when every
   * index known at `level` and each of their missing siblings is present.
   */
  lemma StepCovers<T>(h: PairHasher<T>, n: nat, leaves: set<nat>, known: map<NodePosition, T>, level: nat)
    requires IsPow2(n) && level < Log2(n)
    requires forall i :: i in leaves ==> i < n
    requires forall i :: i in KnownAt(leaves, level) ==> NodePosition(level, i) in known
    requires forall j :: j in MissingSiblings(KnownAt(leaves, level)) ==> NodePosition(level, j) in known
    ensures forall q :: q in Parents(KnownAt(leaves, level)) ==> NodePosition(level + 1, q) in Step(h, known, n, level)
  {
    KnownInRange(n, leaves, level);
    var below := KnownAt(leaves, level);
    forall q | q in Parents(below)
      ensures NodePosition(level + 1, q) in Step(h, known, n, level)
    {
      var i :| i in below && i / 2 == q;
      assert NodePosition(level, Flip(i)) in known by {
        if Flip(i) !in below {
          assert Flip(i) in MissingSiblings(below);
        }
      }
      PairResolves(h, n, known, level, i);
    }
  }

  /** A known node whose sibling is known too gets its parent resolved in one round. */
  lemma PairResolves<T>(h: PairHasher<T>, n: nat, known: map<NodePosition, T>, level: nat, i: nat)
    requires IsPow2(n) && level < Log2(n) && i < LevelSize(n, level)
    requires NodePosition(level, i) in known && NodePosition(level, Flip(i)) in known
    ensures NodePosition(level + 1, i / 2) in Step(h, known, n, level)
  {
    LevelShape(n, level);
    SizeStep(n, level);
    var p := NodePosition(level + 1, i / 2);
    assert LeftChild(p) in known && RightChild(p) in known by {
      if i % 2 == 0 {
        assert LeftChild(p) == NodePosition(level, i) && RightChild(p) == NodePosition(level, Flip(i));
      } else {
        assert LeftChild(p) == NodePosition(level, Flip(i)) && RightChild(p) == NodePosition(level, i);
      }
    }
    assert p in Derived(h, known, n, level);
  }

  /**
   * A map holding the proof positions of levels [level, top) holds the
   * missing siblings at `level`, and the proof positions from level + 1 up.
   */
  lemma ProofPositionsSplit<T>(leaves: set<nat>, level: nat, top: nat, known: map<NodePosition, T>)
    requires level < top
    requires forall p :: p in ProofPositionsFrom(leaves, level, top) ==> p in known
    ensures forall j :: j in MissingSiblings(KnownAt(leaves, level)) ==> NodePosition(level, j) in known
    ensures forall p :: p in ProofPositionsFrom(leaves, level + 1, top) ==> p in known
  {
    forall j | j in MissingSiblings(KnownAt(leaves, level))
      ensures NodePosition(level, j) in known
    {
      assert NodePosition(level, j) in ProofPositionsFrom(leaves, level, top);
    }
  }

  /**
   * Resolving levels [level, top) from a map holding every index known at
   * `level` and every proof position from `level` up resolves every index
   * known at `top`.
   */
  lemma {:induction false} ResolveCovers<T>(h: PairHasher<T>, n: nat, leaves: set<nat>, known: map<NodePosition, T>, level: nat)
    requires IsPow2(n) && level <= Log2(n)
    requires forall i :: i in leaves ==> i < n
    requires forall i :: i in KnownAt(leaves, level) ==> NodePosition(level, i) in known
    requires forall p :: p in ProofPositionsFrom(leaves, level, Log2(n)) ==> p in known
    ensures forall i :: i in KnownAt(leaves, Log2(n)) ==> NodePosition(Log2(n), i) in Resolve(h, known, n, level, Log2(n))
    decreases Log2(n) - level
  {
    if level < Log2(n) {
      CoversStep(h, n, leaves, known, level, level + 1);
      ResolveCovers(h, n, leaves, Step(h, known, n, level), level + 1);
      CoversThroughStep(h, n, leaves, known, level);
    } else {
      CoversAtTop(h, n, leaves, known, level);
    }
  }

  /** At the top level there is nothing left to resolve: what is known stays known. */
  lemma CoversAtTop<T>(h: PairHasher<T>, n: nat, leaves: set<nat>, known: map<NodePosition, T>, level: nat)
    requires IsPow2(n) && level == Log2(n)
    requires forall i :: i in KnownAt(leaves, level) ==> NodePosition(level, i) in known
    ensures forall i :: i in KnownAt(leaves, Log2(n)) ==> NodePosition(Log2(n), i) in Resolve(h, known, n, level, Log2(n))
  {
  }

  /** What resolving after one round reaches at the top, resolving from `level` reaches too. */
  lemma CoversThroughStep<T>(h: PairHasher<T>, n: nat, leaves: set<nat>, known: map<NodePosition, T>, level: nat)
    requires IsPow2(n) && level < Log2(n)
    requires forall i :: i in KnownAt(leaves, Log2(n)) ==>
               NodePosition(Log2(n), i) in Resolve(h, Step(h, known, n, level), n, level + 1, Log2(n))
    ensures forall i :: i in KnownAt(leaves, Log2(n)) ==> NodePosition(Log2(n), i) in Resolve(h, known, n, level, Log2(n))
  {
  }

  /** One round keeps the hypotheses of ResolveCovers, one level up. */
  lemma CoversStep<T>(h: PairHasher<T>, n: nat, leaves: set<nat>, known: map<NodePosition, T>, level: nat, up: nat)
    requires IsPow2(n) && level < Log2(n) && up == level + 1
    requires forall i :: i in leaves ==> i < n
    requires forall i :: i in KnownAt(leaves, level) ==> NodePosition(level, i) in known
    requires forall p :: p in ProofPositionsFrom(leaves, level, Log2(n)) ==> p in known
    ensures forall i :: i in KnownAt(leaves, up) ==> NodePosition(up, i) in Step(h, known, n, level)
    ensures forall p :: p in ProofPositionsFrom(leaves, up, Log2(n)) ==> p in Step(h, known, n, level)
  {
    ProofPositionsSplit(leaves, level, Log2(n), known);
    StepCovers(h, n, leaves, known, level);
  }

  /**
   * Completeness over the levels of `base`: a seed holding the true values
   * of a non-empty set of leaves and of all their missing siblings resolves
   * the root position, after Log2(|base|) rounds, to the top node.
   */
  lemma ResolveReachesRoot<T>(h: PairHasher<T>, base: seq<T>, leaves: set<nat>, seed: map<NodePosition, T>)
    requires IsPow2(|base|) && leaves != {}
    requires forall i :: i in leaves ==> i < |base|
    requires forall i :: i in leaves ==> NodePosition(0, i) in seed
    requires forall p :: p in ProofPositionsFrom(leaves, 0, Log2(|base|)) ==> p in seed
    requires Consistent(h, base, seed)
    ensures var top := Log2(|base|);
            var resolved := Resolve(h, seed, |base|, 0, top);
            && |Level(h, base, top)| == 1
            && NodePosition(top, 0) in resolved
            && resolved[NodePosition(top, 0)] == Level(h, base, top)[0]
  {
    var n, top := |base|, Log2(|base|);
    ResolveConsistent(h, base, seed, 0, top);
    ResolveCovers(h, n, leaves, seed, 0);
    LevelShape(n, top);
    KnownNonEmpty(leaves, top);
    KnownInRange(n, leaves, top);
    LevelShape(n, top);
    var i :| i in KnownAt(leaves, top);
    assert i == 0;
  }

  /**
   * Completeness stated on detached data: a proof holding the true values
   * at exactly the missing-sibling positions of a non-empty set of leaves,
   * verified with the true values of those leaves, passes against the top
   * node of the levels over `base`.
   */
  lemma VerifyComplete<T>(h: PairHasher<T>, base: seq<T>, leaves: set<nat>, proof: MultiProofHashes<T>, leafValues: map<nat, T>)
    requires IsPow2(|base|) && leaves != {}
    requires forall i :: i in leaves ==> i < |base|
    requires proof.treeLeafCount == |base|
    requires proof.nodes.Keys == ProofPositionsFrom(leaves, 0, Log2(|base|))
    requires forall p :: p in proof.nodes ==>
               p.index < LevelSize(|base|, p.level) && proof.nodes[p] == Level(h, base, p.level)[p.index]
    requires leafValues.Keys == leaves
    requires forall i :: i in leafValues ==> leafValues[i] == base[i]
    ensures |Level(h, base, Log2(|base|))| == 1
    ensures VerifyOutcome(h, proof, leafValues, Level(h, base, Log2(|base|))[0]) == Success(PassedDecisively)
  {
    var n := |base|;
    LevelShape(n, Log2(n));
    ProofPositionsInRange(n, leaves);
    assert InputError(proof, leafValues).None?;
    var seed := Seed(proof, leafValues);
    assert Consistent(h, base, seed) by {
      forall p | p in seed
        ensures p.index < LevelSize(n, p.level) && seed[p] == Level(h, base, p.level)[p.index]
      {
        if p.level == 0 && p.index in leafValues {
          assert seed[p] == base[p.index];
        }
      }
    }
    ResolveReachesRoot(h, base, leaves, seed);
  }

  /** The detached proof values are the tree's own values at positions inside their levels. */
  lemma DetachedValues<T>(proof: MultiProofNodes<T>)
    requires proof.Valid()
    ensures var values := proof.IntoValues();
            forall p :: p in values.nodes ==>
              && p.index < LevelSize(values.treeLeafCount, p.level)
              && values.nodes[p] == Level(proof.tree.hasher, proof.tree.Leaves(), p.level)[p.index]
  {
    var values := proof.IntoValues();
    forall p | p in values.nodes
      ensures p.index < LevelSize(values.treeLeafCount, p.level)
    {
      assert ValidPosition(proof.tree.Size(), p);
    }
  }

  /**
   * Completeness of the multi-leaf proof: for any non-empty list of leaf
   * indices of the tree, building the proof, detaching it, rebuilding the
   * verifier from the detached fields and verifying the true leaf values
   * against the true root is a decisive pass.
   */
  lemma MultiProofRoundTrip<T>(tree: MerkleTree<T>, indices: seq<nat>)
    requires tree.Valid() && |indices| >= 1
    requires forall k :: 0 <= k < |indices| ==> indices[k] < tree.LeafCount()
    ensures FromTreeLeaves(tree, indices).Success?
    ensures var values := FromTreeLeaves(tree, indices).value.IntoValues();
            var rebuilt := FromLeafCountAndNodes(values.treeLeafCount, values.nodes);
            var leafValues := LeafValuesAt(tree.Leaves(), indices);
            && rebuilt.treeLeafCount == tree.LeafCount()
            && VerifyOutcome(tree.hasher, rebuilt, leafValues, tree.Root()) == Success(PassedDecisively)
  {
    var proof := FromTreeLeaves(tree, indices).value;
    var leafValues := LeafValuesAt(tree.Leaves(), indices);
    assert indices[0] in proof.leafIndices;
    var values := proof.IntoValues();
    var rebuilt := FromLeafCountAndNodes(values.treeLeafCount, values.nodes);
    assert rebuilt == values;
    DetachedProofPasses(tree, proof, leafValues);
    assert VerifyOutcome(tree.hasher, rebuilt, leafValues, tree.Root()) == Success(PassedDecisively);
  }

  /** The values of `leaves` at the given indices, keyed by index. */
  function LeafValuesAt<T>(leaves: seq<T>, indices: seq<nat>): (r: map<nat, T>)
    requires forall k :: 0 <= k < |indices| ==> indices[k] < |leaves|
    ensures r.Keys == set i | i in indices
    ensures forall i :: i in r ==> r[i] == leaves[i]
  {
    map i | i in indices :: leaves[i]
  }

  /**
   * A proof bound to a tree, once detached, passes decisively for the
   * tree's own values at its target leaves against the tree's root.
   */
  lemma DetachedProofPasses<T>(tree: MerkleTree<T>, proof: MultiProofNodes<T>, leafValues: map<nat, T>)
    requires proof.Valid() && proof.tree == tree && proof.leafIndices != {}
    requires leafValues.Keys == proof.leafIndices
    requires forall i :: i in leafValues ==> leafValues[i] == tree.Leaves()[i]
    ensures VerifyOutcome(tree.hasher, proof.IntoValues(), leafValues, tree.Root()) == Success(PassedDecisively)
  {
    var h, base, values, root := tree.hasher, tree.Leaves(), proof.IntoValues(), tree.Root();
    assert Log2(|base|) == tree.LevelCount() - 1;
    assert root == Level(h, base, Log2(|base|))[0];
    DetachedValues(proof);
    VerifyComplete(h, base, proof.leafIndices, values, leafValues);
  }


  /**
   * Four leaves, targets 1 and 3: the proof carries leaf 0 and leaf 2 and
   * nothing above level 0, since both level-1 nodes are then computable.
   */
  lemma FourLeafProofPositions()
    ensures ProofPositionsFrom({1, 3}, 0, 2) == {NodePosition(0, 0), NodePosition(0, 2)}
  {
    assert MissingSiblings({1, 3}) == {0, 2} by {
      assert Flip(1) == 0 && Flip(3) == 2;
    }
    assert KnownAt({1, 3}, 1) == {0, 1} by {
      assert 1 / 2 == 0 && 3 / 2 == 1;
    }
    assert MissingSiblings({0, 1}) == {} by {
      forall j | j in MissingSiblings({0, 1})
        ensures false
      {
      }
    }
  }

  /**
   * In any tree of four leaves, the proof for the leaf list [1, 3] detaches
   * to leaf 0 at (0, 0) and leaf 2 at (0, 2).
   */
  lemma TwoTargetsDetach<T>(tree: MerkleTree<T>)
    requires tree.Valid() && tree.LeafCount() == 4
    ensures FromTreeLeaves(tree, [1, 3]).Success?
    ensures var values := FromTreeLeaves(tree, [1, 3]).value.IntoValues();
            && values.treeLeafCount == 4
            && values.nodes == map[NodePosition(0, 0) := tree.Leaves()[0], NodePosition(0, 2) := tree.Leaves()[2]]
  {
    var leaves := tree.Leaves();
    assert tree.LevelCount() - 1 == 2 by { assert Log2(4) == 2; }
    var indices: seq<nat> := [1, 3];
    assert forall k :: 0 <= k < |indices| ==> indices[k] < 4;
    var proof := FromTreeLeaves(tree, indices).value;
    assert proof.leafIndices == {1, 3};
    FourLeafProofPositions();
    var values := proof.IntoValues();
    assert values.nodes.Keys == {NodePosition(0, 0), NodePosition(0, 2)};
    assert values.nodes[NodePosition(0, 0)] == Level(tree.hasher, leaves, 0)[0];
    assert values.nodes[NodePosition(0, 2)] == Level(tree.hasher, leaves, 0)[2];
    TwoEntries(values.nodes, NodePosition(0, 0), NodePosition(0, 2), leaves[0], leaves[2]);
  }

  /**
   * In any tree of four leaves, verifying leaves 1 and 3 with the detached
   * proof for [1, 3] against the root is a decisive pass.
   */
  lemma TwoTargetsOfFour<T>(tree: MerkleTree<T>)
    requires tree.Valid() && tree.LeafCount() == 4
    ensures FromTreeLeaves(tree, [1, 3]).Success?
    ensures var values := FromTreeLeaves(tree, [1, 3]).value.IntoValues();
            var leaves := tree.Leaves();
            VerifyOutcome(tree.hasher, FromLeafCountAndNodes(values.treeLeafCount, values.nodes), map[1 := leaves[1], 3 := leaves[3]], tree.Root())
              == Success(PassedDecisively)
  {
    var leaves := tree.Leaves();
    assert tree.LevelCount() - 1 == Log2(4);
    var indices: seq<nat> := [1, 3];
    assert forall k :: 0 <= k < |indices| ==> indices[k] < 4;
    var proof := FromTreeLeaves(tree, indices).value;
    assert proof.leafIndices == {1, 3};
    DetachedValues(proof);
    var values := proof.IntoValues();
    assert FromLeafCountAndNodes(values.treeLeafCount, values.nodes) == values;
    VerifyComplete(tree.hasher, leaves, {1, 3}, values, map[1 := leaves[1], 3 := leaves[3]]);
  }

  /** A map with exactly two keys is the display of its two entries. */
  lemma TwoEntries<K, V>(m: map<K, V>, a: K, b: K, x: V, y: V)
    requires m.Keys == {a, b} && m[a] == x && m[b] == y
    ensures m == map[a := x, b := y]
  {
    var d := map[a := x, b := y];
    assert m.Keys == d.Keys;
    forall k | k in m
      ensures m[k] == d[k]
    {
    }
  }

  /**
   * Four leaves, proof for the leaf list [1, 3]: the detached proof is
   * {(0, 0): leaf 0, (0, 2): leaf 2} for a tree of four leaves, and
   * verifying leaves 1 and 3 with it against the root is a decisive pass.
   */
  lemma FourLeafMultiProof<T>(h: PairHasher<T>, l0: T, l1: T, l2: T, l3: T)
    ensures Build(h, [l0, l1, l2, l3]).Success?
    ensures var tree := Build(h, [l0, l1, l2, l3]).value;
            && FromTreeLeaves(tree, [1, 3]).Success?
            && var values := FromTreeLeaves(tree, [1, 3]).value.IntoValues();
               && values.treeLeafCount == 4
               && values.nodes == map[NodePosition(0, 0) := l0, NodePosition(0, 2) := l2]
               && VerifyOutcome(h, FromLeafCountAndNodes(values.treeLeafCount, values.nodes), map[1 := l1, 3 := l3], tree.Root())
                  == Success(PassedDecisively)
  {
    var tree := Build(h, [l0, l1, l2, l3]).value;
    assert NextPow2(4) == 4;
    assert tree.Leaves() == [l0, l1, l2, l3];
    TwoTargetsDetach(tree);
    TwoTargetsOfFour(tree);
  }

  /**
   * Input errors come first: a leaf count that is not a power of two, then
   * an empty leaf map.
   */
  lemma VerifyRejectsBadInput<T>(h: PairHasher<T>, nodes: map<NodePosition, T>, leaves: map<nat, T>, root: T)
    ensures VerifyOutcome(h, MultiProofHashes(6, nodes), leaves, root) == Failure(InvalidTreeLeafCount(6))
    ensures VerifyOutcome(h, MultiProofHashes(4, nodes), map[], root) == Failure(NoLeavesToVerify)
  {
    assert !IsPow2(6) by { assert !IsPow2(3); }
    assert IsPow2(4) by { assert IsPow2(2); }
  }

  /**
   * A gap is a decisive fail, not an error: two leaves, leaf 0 supplied and
   * no proof node for its sibling, so the root position never resolves.
   */
  lemma GapFailsDecisively<T>(h: PairHasher<T>, x: T, root: T)
    ensures VerifyOutcome(h, MultiProofHashes(2, map[]), map[0 := x], root) == Success(Failed)
  {
    var proof: MultiProofHashes<T> := MultiProofHashes(2, map[]);
    var leaves := map[0 := x];
    assert IsPow2(2) && Log2(2) == 1;
    assert 0 in leaves.Keys;
    assert forall i :: i in leaves ==> i == 0;
    assert InputError(proof, leaves).None?;
    var seed := Seed(proof, leaves);
    assert seed.Keys == {NodePosition(0, 0)};
    assert NodePosition(1, 0) !in Derived(h, seed, 2, 0) by {
      assert RightChild(NodePosition(1, 0)) !in seed;
    }
    assert Resolve(h, seed, 2, 0, 1) == Step(h, seed, 2, 0);
  }
}
