/**
 * Position arithmetic over the flat node array of a Merkle tree.
 *
 * A tree with `n` leaves (a power of two) stores `2n - 1` nodes: level 0
 * (the leaves, left to right) first, then every level above it contiguously,
 * the root last.  Level `l` holds `n / 2^l` nodes.  The functions below are
 * parameterised either by the validated total node count (`TreeSize`) or,
 * internally, by the leaf count `n`; `LevelSize` and `LevelStart` are defined
 * by peeling off the bottom level, which is how the tree itself is folded.
 */
module Positions {
  import opened Wrappers

  /** 2 to the power k. */
  function Pow2(k: nat): (r: nat)
    ensures r >= 1
  {
    if k == 0 then 1 else 2 * Pow2(k - 1)
  }

  /** n is one of 1, 2, 4, 8, ... */
  predicate IsPow2(n: nat)
  {
    if n <= 1 then n == 1 else n % 2 == 0 && IsPow2(n / 2)
  }

  /** The integer base-2 logarithm, rounded down. */
  function Log2(n: nat): nat
    requires n >= 1
  {
    if n == 1 then 0 else 1 + Log2(n / 2)
  }

  lemma {:induction false} Pow2IsPow2(k: nat)
    ensures IsPow2(Pow2(k)) && Log2(Pow2(k)) == k
  {
    if k > 0 {
      Pow2IsPow2(k - 1);
      assert Pow2(k) / 2 == Pow2(k - 1);
    }
  }

  lemma {:induction false} Pow2OfLog2(n: nat)
    requires IsPow2(n)
    ensures Pow2(Log2(n)) == n
  {
    if n > 1 {
      Pow2OfLog2(n / 2);
    }
  }

  /** Of two distinct powers of two, the larger is at least twice the smaller. */
  lemma {:induction false} Pow2Gap(q: nat, r: nat)
    requires IsPow2(q) && IsPow2(r) && q < r
    ensures 2 * q <= r
  {
    if q > 1 {
      Pow2Gap(q / 2, r / 2);
    }
  }

  // ---------------------------------------------------------------------
  // Tree size, leaf count, level count

  /** A total node count that some perfect binary tree has: 2^i - 1, i >= 1. */
  predicate IsTreeSize(size: nat)
  {
    size >= 1 && IsPow2(size + 1)
  }

  /** The validated total node count of a tree. */
  type TreeSize = s: nat | IsTreeSize(s) witness 1

  /** Validation of a raw node count into a `TreeSize` (`try_into`). */
  function TreeSizeFrom(count: nat): (r: Option<TreeSize>)
    ensures r.Some? <==> exists i: nat :: 1 <= i && count + 1 == Pow2(i)
    ensures r.Some? ==> r.value == count
  {
    if IsTreeSize(count) then
      Pow2OfLog2(count + 1);
      Some(count)
    else
      NotTreeSize(count);
      None
  }

  lemma NotTreeSize(count: nat)
    requires !IsTreeSize(count)
    ensures !exists i: nat :: 1 <= i && count + 1 == Pow2(i)
  {
    forall i: nat | 1 <= i && count + 1 == Pow2(i)
      ensures false
    {
      Pow2IsPow2(i);
    }
  }

  /** The number of leaves of a tree of `size` nodes. */
  function LeafCount(size: TreeSize): (r: nat)
    ensures IsPow2(r) && size == 2 * r - 1
  {
    assert IsTreeSize(size);
    (size + 1) / 2
  }

  /** The number of levels of a tree of `size` nodes, leaves and root included. */
  function LevelCount(size: TreeSize): (r: nat)
    ensures r >= 1 && Pow2(r - 1) == LeafCount(size)
  {
    Pow2OfLog2(LeafCount(size));
    Log2(LeafCount(size)) + 1
  }

  /** For every i >= 1, a tree of 2^i - 1 nodes has 2^(i-1) leaves and i levels. */
  lemma LeafCountOfFullTree(i: nat)
    requires i >= 1
    ensures IsTreeSize(Pow2(i) - 1)
    ensures LeafCount(Pow2(i) - 1) == Pow2(i - 1)
    ensures LevelCount(Pow2(i) - 1) == i
  {
    Pow2IsPow2(i);
    Pow2IsPow2(i - 1);
  }

  // ---------------------------------------------------------------------
  // Level bands in a tree with n leaves

  /** The number of nodes at `level` of a tree with `n` leaves: n / 2^level. */
  function LevelSize(n: nat, level: nat): nat
  {
    if level == 0 then n else LevelSize(n / 2, level - 1)
  }

  /** The absolute index of the first node at `level`. */
  function LevelStart(n: nat, level: nat): nat
  {
    if level == 0 then 0 else n + LevelStart(n / 2, level - 1)
  }

  lemma {:induction false} EmptyLevels(level: nat)
    ensures LevelSize(0, level) == 0
  {
    if level > 0 {
      EmptyLevels(level - 1);
    }
  }

  /** Each band starts where the one below it ends. */
  lemma {:induction false} StartStep(n: nat, level: nat)
    ensures LevelStart(n, level + 1) == LevelStart(n, level) + LevelSize(n, level)
  {
    if level > 0 {
      StartStep(n / 2, level - 1);
    }
  }

  /** Each level holds half the nodes of the level below it. */
  lemma {:induction false} SizeStep(n: nat, level: nat)
    ensures LevelSize(n, level + 1) == LevelSize(n, level) / 2
  {
    if level > 0 {
      SizeStep(n / 2, level - 1);
    }
  }

  /**
   * The shape of the bands of a tree with n = 2^h leaves: levels 0..h are
   * non-empty powers of two, each band starts at 2n - 2 * (its size) and
   * ends at 2n - (its size), the top level holds the single root at index
   * 2n - 2, and there is nothing above it.
   */
  lemma {:induction false} LevelShape(n: nat, level: nat)
    requires IsPow2(n)
    ensures level <= Log2(n) ==> IsPow2(LevelSize(n, level))
    ensures level <= Log2(n) ==> LevelStart(n, level) + 2 * LevelSize(n, level) == 2 * n
    ensures level < Log2(n) ==> LevelSize(n, level) >= 2 && LevelSize(n, level) % 2 == 0
    ensures level == Log2(n) ==> LevelSize(n, level) == 1
    ensures level > Log2(n) ==> LevelSize(n, level) == 0
  {
    if level == 0 {
    } else if n == 1 {
      EmptyLevels(level - 1);
    } else {
      LevelShape(n / 2, level - 1);
    }
  }

  /** Bands never overlap: a higher band starts after a lower one ends. */
  lemma {:induction false} StartMonotone(n: nat, lo: nat, hi: nat)
    requires lo < hi
    ensures LevelStart(n, hi) >= LevelStart(n, lo) + LevelSize(n, lo)
  {
    StartStep(n, hi - 1);
    if lo < hi - 1 {
      StartMonotone(n, lo, hi - 1);
    }
  }

  // ---------------------------------------------------------------------
  // Node positions

  /** A (level, index-in-level) pair; level 0 is the leaves. */
  datatype NodePosition = NodePosition(level: nat, index: nat)

  /** `p` names a node of a tree of `size` nodes. */
  predicate ValidPosition(size: TreeSize, p: NodePosition)
  {
    p.level < LevelCount(size) && p.index < LevelSize(LeafCount(size), p.level)
  }

  /**
   * `abs_index`: the slot in the flat array of the node at `p`.  Leaves sit
   * at their own index, and a valid position addresses a slot of the array,
   * never past it.
   */
  function AbsIndex(size: TreeSize, p: NodePosition): (r: nat)
    ensures p.level == 0 ==> r == p.index
    ensures ValidPosition(size, p) ==> r < size
  {
    LevelShape(LeafCount(size), p.level);
    LevelStart(LeafCount(size), p.level) + p.index
  }

  /** Two valid positions with the same absolute index are the same position. */
  lemma AbsIndexInjective(size: TreeSize, p: NodePosition, q: NodePosition)
    requires ValidPosition(size, p) && ValidPosition(size, q)
    requires AbsIndex(size, p) == AbsIndex(size, q)
    ensures p == q
  {
    var n := LeafCount(size);
    if p.level < q.level {
      StartMonotone(n, p.level, q.level);
    } else if q.level < p.level {
      StartMonotone(n, q.level, p.level);
    }
  }

  /** `from_position`: the position (level, index) if it lies in the tree. */
  function FromPosition(size: TreeSize, level: nat, index: nat): (r: Option<NodePosition>)
    ensures r.Some? <==> level < LevelCount(size) && index < LevelSize(LeafCount(size), level)
    ensures r.Some? ==> r.value.level == level && r.value.index == index
    ensures r.Some? ==> AbsIndex(size, r.value) < size
  {
    var p := NodePosition(level, index);
    if ValidPosition(size, p) then
      Some(p)
    else
      None
  }

  /** Finds the band, at `level` or above, that holds absolute index `abs`. */
  function Locate(size: TreeSize, abs: nat, level: nat): (p: NodePosition)
    requires abs < size && level < LevelCount(size)
    requires LevelStart(LeafCount(size), level) <= abs
    ensures ValidPosition(size, p) && AbsIndex(size, p) == abs
    decreases LevelCount(size) - level
  {
    var n := LeafCount(size);
    LevelShape(n, level);
    if abs < LevelStart(n, level) + LevelSize(n, level) then
      NodePosition(level, abs - LevelStart(n, level))
    else
      StartStep(n, level);
      Locate(size, abs, level + 1)
  }

  /** `from_abs_index`: the position of the node stored at `abs`, if any. */
  function FromAbsIndex(size: TreeSize, abs: nat): (r: Option<NodePosition>)
    ensures r.None? <==> abs >= size
    ensures r.Some? ==> ValidPosition(size, r.value) && AbsIndex(size, r.value) == abs
  {
    if abs < size then Some(Locate(size, abs, 0)) else None
  }

  /**
   * `from_abs_index` and `from_position` agree on every level band: for
   * `i` in [LevelStart(level), LevelStart(level) + LevelSize(level)),
   * `from_abs_index(size, i) == from_position(size, level, i - LevelStart(level))`.
   */
  lemma FromAbsIndexMatchesFromPosition(size: TreeSize, level: nat, abs: nat)
    requires level < LevelCount(size)
    requires LevelStart(LeafCount(size), level) <= abs < LevelStart(LeafCount(size), level) + LevelSize(LeafCount(size), level)
    ensures FromAbsIndex(size, abs) == FromPosition(size, level, abs - LevelStart(LeafCount(size), level))
  {
    var p := NodePosition(level, abs - LevelStart(LeafCount(size), level));
    assert AbsIndex(size, p) < size;
    AbsIndexInjective(size, FromAbsIndex(size, abs).value, p);
  }

  /**
   * The outer bands of every tree, a one-leaf tree included: the leaves are
   * [0, n) and the root is the single node of the top level, at size - 1.
   */
  lemma LevelBandEnds(size: TreeSize)
    ensures LevelStart(LeafCount(size), 0) == 0
    ensures LevelSize(LeafCount(size), 0) == LeafCount(size)
    ensures LevelStart(LeafCount(size), LevelCount(size) - 1) == size - 1
    ensures LevelSize(LeafCount(size), LevelCount(size) - 1) == 1
  {
    Pow2IsPow2(LevelCount(size) - 1);
    LevelShape(LeafCount(size), LevelCount(size) - 1);
  }

  /** Between the outer bands, each band starts where the one below it ends and has half its size. */
  lemma LevelBands(size: TreeSize, level: nat)
    requires level + 1 < LevelCount(size)
    ensures LevelStart(LeafCount(size), level + 1) == LevelStart(LeafCount(size), level) + LevelSize(LeafCount(size), level)
    ensures LevelSize(LeafCount(size), level + 1) == LevelSize(LeafCount(size), level) / 2
  {
    StartStep(LeafCount(size), level);
    SizeStep(LeafCount(size), level);
  }

  /** The other index of a pair: even indices pair with the next, odd with the previous. */
  function Flip(i: nat): nat
  {
    if i % 2 == 0 then i + 1 else i - 1
  }

  /** The sibling of a node; the root has none. */
  function SiblingOf(size: TreeSize, p: NodePosition): (r: Option<NodePosition>)
    requires ValidPosition(size, p)
    ensures r.None? <==> p.level == LevelCount(size) - 1
    ensures r.Some? ==> ValidPosition(size, r.value) && r.value.level == p.level
    ensures r.Some? ==> AbsIndex(size, r.value) == Flip(AbsIndex(size, p))
  {
    var n := LeafCount(size);
    Pow2IsPow2(LevelCount(size) - 1);
    LevelShape(n, p.level);
    if p.level == LevelCount(size) - 1 then None
    else
      FlipShift(LevelStart(n, p.level), p.index);
      Some(NodePosition(p.level, Flip(p.index)))
  }

  /** Below the top, every band starts at an even slot, so flipping commutes with the shift. */
  lemma FlipShift(start: nat, i: nat)
    requires start % 2 == 0
    ensures Flip(start + i) == start + Flip(i)
  {
  }

  /** The parent of a node; the root has none. */
  function ParentOf(size: TreeSize, p: NodePosition): (r: Option<NodePosition>)
    requires ValidPosition(size, p)
    ensures r.None? <==> p.level == LevelCount(size) - 1
    ensures r.Some? ==> ValidPosition(size, r.value) && r.value.level == p.level + 1
    ensures r.Some? ==> 2 * r.value.index <= p.index <= 2 * r.value.index + 1
  {
    var n := LeafCount(size);
    Pow2IsPow2(LevelCount(size) - 1);
    LevelShape(n, p.level);
    SizeStep(n, p.level);
    if p.level == LevelCount(size) - 1 then None else Some(NodePosition(p.level + 1, p.index / 2))
  }
}
