/**
 * The value-level specification of tree construction: padding the leaves up
 * to a power of two with a `hashSingle` chain, folding a level into the one
 * above it with `hashPair`, and laying all levels out bottom-first in one
 * flat sequence.
 */
module Levels {
  import opened Hasher
  import opened Positions

  /**
   * The level above `s`: adjacent pairs hashed left to right,
   * [hashPair(s[0], s[1]), hashPair(s[2], s[3]), ...].
   */
  function PairUp<T>(h: PairHasher<T>, s: seq<T>): (r: seq<T>)
    ensures |r| == |s| / 2
    ensures forall k :: 0 <= k < |r| ==> r[k] == h.hashPair(s[2 * k], s[2 * k + 1])
    decreases |s|
  {
    if |s| < 2 then [] else [h.hashPair(s[0], s[1])] + PairUp(h, s[2..])
  }

  /** The nodes at `level` of the tree whose level 0 is `base`. */
  function Level<T>(h: PairHasher<T>, base: seq<T>, level: nat): (r: seq<T>)
    ensures |r| == LevelSize(|base|, level)
    decreases level
  {
    if level == 0 then base else Level(h, PairUp(h, base), level - 1)
  }

  /** All levels of the tree over `base`, bottom first, the root last. */
  function Layout<T>(h: PairHasher<T>, base: seq<T>): (r: seq<T>)
    ensures IsPow2(|base|) ==> |r| == 2 * |base| - 1
    decreases |base|
  {
    if |base| <= 1 then base else base + Layout(h, PairUp(h, base))
  }

  /** Each level is the pairing of the one below it. */
  lemma {:induction false} LevelStep<T>(h: PairHasher<T>, base: seq<T>, level: nat)
    ensures Level(h, base, level + 1) == PairUp(h, Level(h, base, level))
    decreases level
  {
    if level > 0 {
      LevelStep(h, PairUp(h, base), level - 1);
    }
  }

  /**
   * The node at (level + 1, i / 2) hashes the pair that holds index i at
   * `level`: i is the left operand when even, the right one when odd, and
   * Flip(i) is the other operand.
   */
  lemma PairOfChildren<T>(h: PairHasher<T>, base: seq<T>, level: nat, i: nat)
    requires i < |Level(h, base, level)| && Flip(i) < |Level(h, base, level)|
    ensures i / 2 < |Level(h, base, level + 1)|
    ensures var lv := Level(h, base, level);
            Level(h, base, level + 1)[i / 2] ==
              if i % 2 == 0 then h.hashPair(lv[i], lv[Flip(i)]) else h.hashPair(lv[Flip(i)], lv[i])
  {
    LevelStep(h, base, level);
  }

  /** The node at (level, i) sits at LevelStart(level) + i of the layout. */
  lemma {:induction false} LayoutAt<T>(h: PairHasher<T>, base: seq<T>, level: nat, i: nat)
    requires i < LevelSize(|base|, level)
    ensures LevelStart(|base|, level) + i < |Layout(h, base)|
    ensures Layout(h, base)[LevelStart(|base|, level) + i] == Level(h, base, level)[i]
    decreases level
  {
    if level > 0 {
      if |base| <= 1 {
        EmptyLevels(level - 1);
        assert false;
      }
      var up := PairUp(h, base);
      LayoutAt(h, up, level - 1, i);
      assert Layout(h, base) == base + Layout(h, up);
    }
  }

  /** The last element of the layout is the single node of the top level. */
  lemma LayoutTop<T>(h: PairHasher<T>, base: seq<T>)
    requires IsPow2(|base|)
    ensures |Level(h, base, Log2(|base|))| == 1
    ensures Layout(h, base)[2 * |base| - 2] == Level(h, base, Log2(|base|))[0]
  {
    LevelShape(|base|, Log2(|base|));
    LayoutAt(h, base, Log2(|base|), 0);
  }

  /** The level 0 of a layout is its first |base| elements. */
  lemma LayoutBase<T>(h: PairHasher<T>, base: seq<T>)
    ensures |Layout(h, base)| >= |base|
    ensures Layout(h, base)[..|base|] == base
  {
  }

  /**
   * Level 0 extended to `target` nodes: every appended node is the
   * single-hash of the node before it, so the first pad is
   * hashSingle(last real leaf) and each later pad hashes the previous pad.
   */
  function PadLevel<T>(h: PairHasher<T>, s: seq<T>, target: nat): (r: seq<T>)
    requires |s| >= 1
    ensures |r| == if |s| >= target then |s| else target
    ensures r[..|s|] == s
    ensures forall i :: |s| <= i < |r| ==> r[i] == h.hashSingle(r[i - 1])
    decreases target - |s|
  {
    if |s| >= target then s else PadLevel(h, s + [h.hashSingle(s[|s| - 1])], target)
  }

  /** Padding to one more node appends the single-hash of the current last node. */
  lemma {:induction false} PadLevelExtend<T>(h: PairHasher<T>, s: seq<T>, target: nat)
    requires 1 <= |s| <= target
    ensures PadLevel(h, s, target + 1) == PadLevel(h, s, target) + [h.hashSingle(PadLevel(h, s, target)[target - 1])]
    decreases target - |s|
  {
    var s' := s + [h.hashSingle(s[|s| - 1])];
    if |s| < target {
      PadLevelExtend(h, s', target);
    }
  }

  /** `next_power_of_two`: the least power of two that is >= n. */
  function NextPow2(n: nat): (r: nat)
    requires n >= 1
    ensures IsPow2(r) && n <= r < 2 * n
  {
    NextPow2From(n, 1)
  }

  function NextPow2From(n: nat, p: nat): (r: nat)
    requires IsPow2(p) && p < 2 * n
    ensures IsPow2(r) && n <= r < 2 * n
    decreases n - p
  {
    if p >= n then p else NextPow2From(n, 2 * p)
  }

  /** No power of two at least n is smaller than NextPow2(n). */
  lemma NextPow2IsLeast(n: nat, q: nat)
    requires n >= 1 && IsPow2(q) && n <= q
    ensures NextPow2(n) <= q
  {
    if q < NextPow2(n) {
      Pow2Gap(q, NextPow2(n));
    }
  }
}
