# Merkle tree with single- and multi-leaf inclusion proofs

This project is a Dafny model of the core of the mintlayer Merkle tree library. It covers:

- **Position arithmetic** over the flat node buffer. A tree of `2L - 1` nodes, with `L` a power of two, stores the leaves first, then each level above them, and the root last.
- **Construction** (`from_leaves`). An empty leaf sequence fails with `TooSmall(0)`. Otherwise level 0 is padded up to the next power of two with a `hash_single` chain. Each later level is the left-to-right `hash_pair` of adjacent pairs below it. The construction is an imperative method that fills an `array` level by level. It is proved equal to a value-level specification (`Levels.Layout`).
- **Bounded queries and navigation.** `node_value_from_bottom`, `node_from_bottom`, `sibling` and `parent` return `None` out of range and at the root.
- **The leaf-to-root iterator.** `iter_from_leaf_to_root` returns a stateful cursor class whose `next` yields the leaf, then each ancestor, then `None`. An index that is not a leaf gives `IterStartIndexOutOfRange(index, leaf count)`.
- **The single-leaf proof.** `from_tree_leaf` → `into_values` → `from_leaf_index_and_branch` → `verify`. Verification folds the sibling branch onto the leaf hash.
- **The multi-leaf proof.** `from_tree_leaves` → `into_values` → `from_leaf_count_and_nodes` → `verify`. Verification seeds a map of known positions and resolves parents upward one level per round. It is an imperative loop, proved equal to a value-level specification (`MultiProof.VerifyOutcome`).

The hasher (`PairHasher`) is a pair of arbitrary total functions on one node type. Every lemma holds for every choice of them, except `Tree.SwappedLeavesChangeRoot`, which fixes one concrete order-sensitive hasher on integers to show that operand order matters. Nothing assumes that `hash_pair` is commutative or injective.

The main results are completeness of both proofs:

- `SingleProof.SingleProofRoundTrip`: for every leaf of every tree, the detached single-leaf proof verifies the true leaf against the true root.
- `MultiProof.MultiProofRoundTrip`: for every non-empty list of leaf indices, the detached multi-leaf proof verifies the true leaves against the true root.

The concrete scenarios of the unit tests and of the two proof examples are proved for arbitrary hashers. These are the roots of 1, 2, 3, 4, 5 and 8 leaves, and the 4-leaf proofs for leaf 2 and for leaves {1, 3}.

Multi-proof `verify` returns a `Result` in this model, while single-proof `verify` returns the pass/fail value directly. The two examples call them that way: examples/single_proof.rs:107-110 compares the outcome of `verify` with `PassedDecisively` as it is, and examples/multi_proof.rs:107-112 calls `.unwrap()` on it first. The error cases are inputs that describe no tree:

- a leaf count that is not a power of two;
- no leaves;
- a leaf outside the tree;
- a proof node outside the levels below the root.

A proof with a gap, where the root never resolves, is a decisive `Failed` and not an error.

Files:

- `wrappers.dfy`: Option and Result.
- `hasher.dfy`: the hasher.
- `positions.dfy`: position arithmetic.
- `levels.dfy`: the value-level levels, layout and padding.
- `tree.dfy`: the tree, node views and construction.
- `iter.dfy`: the leaf-to-root iterator.
- `verify_result.dfy`: the verification outcome.
- `single_proof.dfy` and `multi_proof.dfy`: the two proofs.

## Model

| member | source | states |
|---|---|---|
| Positions.TreeSizeFrom | src/merkle/tree/tests.rs:223-236 | a node count is accepted exactly when it is 2^i - 1 for some i >= 1, and it is kept unchanged |
| Positions.LeafCount | src/merkle/tree/tests.rs:223-236 | the leaf count is a power of two r with size = 2r - 1 |
| Positions.LevelCount | src/merkle/tree/tests.rs:223-236 | the level count r satisfies 2^(r-1) = leaf count |
| Positions.LeafCountOfFullTree | src/merkle/tree/tests.rs:223-236 | for every i >= 1 (not just 1..30), a tree of 2^i - 1 nodes is valid, has 2^(i-1) leaves and i levels |
| Positions.LevelShape | src/merkle/tree/tests.rs:411-539 | with n = 2^h leaves, levels 0..h are non-empty powers of two, each band starts at 2n - 2·size (and ends at 2n - size), the top level holds one node, and every level above it is empty |
| Positions.LevelBandEnds | src/merkle/tree/tests.rs:411-539 | level 0 is the band [0, L) of all L leaves, and the top level is the single node at size - 1 |
| Positions.LevelBands | src/merkle/tree/tests.rs:411-539 | the bands are contiguous: below the top, the next band starts where this one ends and holds half as many nodes |
| Positions.AbsIndex | src/merkle/tree/tests.rs:711-812 | a leaf's absolute index is its own index, and a valid position's absolute index lies inside the buffer |
| Positions.AbsIndexInjective | src/merkle/tree/tests.rs:411-539 | two valid positions with the same absolute index are the same position |
| Positions.FromPosition | src/merkle/tree/tests.rs:411-539 | Some exactly when level < level count and index < the level's size; the result keeps level and index and lies inside the buffer |
| Positions.FromAbsIndex | src/merkle/tree/tests.rs:411-539 | None exactly when abs >= size; otherwise a valid position whose absolute index is abs |
| Positions.FromAbsIndexMatchesFromPosition | src/merkle/tree/tests.rs:411-539 | for abs in a level's band, from_abs_index(abs) = from_position(level, abs - level start) |
| Positions.SiblingOf | src/merkle/tree/tests.rs:711-812 | None exactly at the root level; otherwise a valid position on the same level whose absolute index has its parity flipped (even + 1, odd - 1) |
| Positions.ParentOf | src/merkle/tree/tests.rs:541-709 | None exactly at the root level; otherwise a valid position one level up whose index is half the child's |
| Levels.PairUp | src/merkle/tree/tests.rs:40-67 | the level above has half the length, and its k-th node is hash_pair(s[2k], s[2k+1]), left operand first |
| Levels.Level | src/merkle/tree/tests.rs:238-409 | level l has LevelSize(L, l) nodes |
| Levels.LevelStep | src/merkle/tree/tests.rs:69-123 | each level is the pairing of the level below it |
| Levels.PairOfChildren | src/merkle/hasher.rs:27-28 | the node at (l+1, i/2) is hash_pair of node i and its sibling Flip(i), with node i on the left when i is even and on the right when odd |
| Levels.Layout | src/merkle/tree/tests.rs:223-236 | the layout of all levels over a power-of-two level 0 of L nodes holds 2L - 1 nodes |
| Levels.LayoutAt | src/merkle/tree/tests.rs:238-409 | the node at (level, i) sits at level start + i of the flat layout |
| Levels.LayoutTop | src/merkle/tree/tests.rs:25-123 | the last element of the layout, at 2L - 2, is the single node of the top level |
| Levels.LayoutBase | src/merkle/tree/tests.rs:140-221 | the first L elements of the layout are level 0 |
| Levels.PadLevel | src/merkle/tree/tests.rs:140-221 | the padded level keeps the given leaves as a prefix, reaches the target length, and each appended node is hash_single of the node before it |
| Levels.PadLevelExtend | src/merkle/tree/tests.rs:168-221 | padding one node further appends hash_single of the current last node |
| Levels.NextPow2 | src/merkle/tree/tests.rs:140-221 | a power of two r with n <= r < 2n |
| Levels.NextPow2IsLeast | src/merkle/tree/tests.rs:168-221 | no power of two >= n is smaller than NextPow2(n) |
| Tree.MerkleTree.Size | src/merkle/tree/tests.rs:223-236 | the total node count is the buffer length and is one less than a power of two |
| Tree.MerkleTree.LeafCount | src/merkle/tree/tests.rs:223-236 | the leaf count is a power of two and the buffer holds 2·leaf count - 1 nodes |
| Tree.MerkleTree.LevelCount | src/merkle/tree/tests.rs:223-236 | the level count r is log2(leaf count) + 1, so 2^(r-1) = leaf count |
| Tree.MerkleTree.Root | src/merkle/tree/tests.rs:25-123 | the root is the single node of the top level of the fold |
| Tree.MerkleTree.ValueAt | src/merkle/tree/tests.rs:238-409 | the stored value at a valid position is the folded level's value there |
| Tree.MerkleTree.NodeValueFromBottom | src/merkle/tree/tests.rs:238-409 | Some exactly when level < level count and index < LevelSize(leaf count, level), which is leaf count / 2^level (None for every other pair); the value is the folded level's node |
| Tree.MerkleTree.NodeFromBottom | src/merkle/tree/tests.rs:711-812 | Some exactly in range; the node view belongs to the tree, has that position, and has absolute index level start + index |
| Tree.Node.Position | src/merkle/tree/tests.rs:711-812 | a node view's position is valid and maps back to its absolute index |
| Tree.Node.Hash | src/merkle/tree/tests.rs:541-709 | a node view's hash is the folded level's value at its position |
| Tree.Node.Sibling | src/merkle/tree/tests.rs:711-812 | None exactly at the root (including the single node of a one-leaf tree); otherwise a node view at absolute index Flip(abs), on the same level at the flipped index |
| Tree.Node.Parent | src/merkle/tree/tests.rs:541-709 | None exactly at the root; otherwise a node view one level up at half the index |
| Tree.RootIsTopNode | src/merkle/tree/tests.rs:293-339 | node_value_from_bottom(level count - 1, 0) is the root, and its node view is the root in the last buffer slot |
| Tree.ParentIsPairOfChildren | src/merkle/hasher.rs:16-17 | for every node below the root, the parent's hash is hash_pair of the node and its sibling, in left-right order by index parity |
| Tree.Build | src/merkle/tree/tests.rs:19-23 | fails exactly on an empty sequence, with TooSmall(0); otherwise a valid tree with NextPow2(N) leaves whose level 0 is the padded leaves |
| Tree.FromLeaves | src/merkle/tree/tests.rs:19-67 | the buffer-filling construction returns exactly Build(leaves) |
| Tree.FillLevelZero | src/merkle/tree/tests.rs:140-221 | after the two loops, the first target slots hold the leaves followed by the hash_single padding chain, and every slot from target on is unchanged |
| Tree.FoldLevel | src/merkle/tree/tests.rs:40-67 | one pass writes the pairing of the current level right after it, leaves the prefix unchanged, and leaves every slot after the new level unchanged |
| Tree.FoldAll | src/merkle/tree/tests.rs:69-123 | folding level by level leaves the buffer equal to the layout of all levels over the original level 0 |
| Tree.BuildPadsLeaves | src/merkle/tree/tests.rs:140-221 | N >= 1 leaves give 2·NextPow2(N) - 1 nodes; level 0 starts with the leaves; the first pad is hash_single(last leaf) and each later pad is hash_single of the previous pad |
| Tree.OneLeafRoot | src/merkle/tree/tests.rs:238-258 | a one-leaf tree is just that leaf, and it is the root |
| Tree.TwoLeafRoot | src/merkle/tree/tests.rs:25-38 | two leaves: root = hash_pair(v1, v2) |
| Tree.FourLeafRoot | src/merkle/tree/tests.rs:40-67 | four leaves: root = hash_pair(hash_pair(v1, v2), hash_pair(v3, v4)) |
| Tree.EightLeafRoot | src/merkle/tree/tests.rs:69-123 | eight leaves: root = the three-round left-to-right fold |
| Tree.ThreeLeafRoot | src/merkle/tree/tests.rs:140-166 | three leaves: the fourth leaf is hash_single(v3) and the root is the 4-leaf fold over it |
| Tree.FiveLeafRoot | src/merkle/tree/tests.rs:168-221 | five leaves: pads v6..v8 are a hash_single chain from v5, and the root is the 8-leaf fold |
| Tree.SwappedLeavesChangeRoot | src/merkle/hasher.rs:16-17 | with an order-sensitive hash_pair, swapping two leaves changes the root, so operand order matters |
| LeafToRoot.AncestorInRange | src/merkle/tree/tests.rs:541-709 | each ancestor of a leaf is a valid position, and at the top level the ancestor index is 0 (the root) |
| LeafToRoot.AncestorIsShift | src/merkle/tree/tests.rs:541-709 | the walk's index at level j, the index the unit tests list for that level, is the leaf index divided by 2^j |
| LeafToRoot.IterHashMatchesBottom | src/merkle/tree/tests.rs:541-709 | the node the walk yields at level j holds exactly node_value_from_bottom(j, leaf / 2^j) |
| LeafToRoot.LevelSizeIsQuotient | src/merkle/tree/tests.rs:238-409 | level l of a tree with n leaves holds n / 2^l nodes, the in-range bound of node_value_from_bottom |
| LeafToRoot.PathFollowsParents | src/merkle/tree/tests.rs:541-709 | consecutive nodes of the walk are a node and its parent() |
| LeafToRoot.LeafToRootIter.constructor | src/merkle/tree/tests.rs:549 | a fresh cursor at the start leaf with nothing yielded |
| LeafToRoot.LeafToRootIter.Next | src/merkle/tree/tests.rs:601-605 | while levels remain, yields the ancestor of the start leaf at the next level (the leaf first, the root last); afterwards yields None and stays put |
| LeafToRoot.IterFromLeafToRoot | src/merkle/tree/tests.rs:553-559 | fails exactly when index >= leaf count, with IterStartIndexOutOfRange(index, leaf count); otherwise a fresh cursor at that leaf |
| LeafToRoot.Drain | src/merkle/tree/tests.rs:634-709 | repeated next() yields exactly level count nodes, the j-th being the ancestor at level j |
| LeafToRoot.CollectFromLeafToRoot | src/merkle/tree/tests.rs:590-632 | for a leaf, one node per level on the leaf's path, the last of them the root; for a non-leaf, the out-of-range error |
| SingleProof.SiblingBranch | examples/single_proof.rs:89-90 | the branch has level count - 1 - level entries, and entry j is the sibling of the ancestor j levels up |
| SingleProof.SingleProofNodes.IntoValues | examples/single_proof.rs:94-98 | detaching keeps the leaf index in the level, has level count - 1 hashes, and entry j is the stored hash of branch node j |
| SingleProof.FromTreeLeaf | examples/single_proof.rs:89-90 | fails exactly for a non-leaf index, with IterStartIndexOutOfRange; otherwise the leaf view at (0, index) and its sibling branch |
| SingleProof.FromLeafIndexAndBranch | examples/single_proof.rs:100-104 | the rebuilt verifier holds exactly the two detached fields |
| SingleProof.FoldBranchSnoc | examples/single_proof.rs:106-110 | folding one more sibling climbs one more level from the shorter fold, with the sibling on the right when the node's index at that level is even and on the left when odd |
| SingleProof.Verify | examples/single_proof.rs:107-110 | PassedDecisively exactly when the index fits a tree of |branch| + 1 levels and the branch folded onto the leaf gives the root; Failed otherwise |
| SingleProof.FoldReachesRoot | examples/single_proof.rs:106-110 | folding any node's sibling branch onto its stored value yields the tree's root |
| SingleProof.LeafProofPasses | examples/single_proof.rs:94-110 | a leaf view's detached and rebuilt proof verifies its own hash against the root |
| SingleProof.SingleProofRoundTrip | examples/single_proof.rs:86-110 | for every leaf index, build → detach → rebuild keeps the index and level count - 1 hashes, and verify of the true leaf against the root is PassedDecisively |
| SingleProof.FourLeafSingleProof | examples/single_proof.rs:80-110 | four leaves, leaf 2: the branch is [leaf 3, hash_pair(leaf 0, leaf 1)], and verification passes |
| MultiProof.MissingSiblings | examples/multi_proof.rs:89-90 | j is missing exactly when its sibling is known and j itself is not |
| MultiProof.ProofPositionsFrom | examples/multi_proof.rs:89-90 | a position is in the proof exactly when it lies on a level in range and is a missing sibling of the nodes known there |
| MultiProof.ProofPositionsInRange | examples/multi_proof.rs:89-90 | every proof position lies on a level below the root and inside that level |
| MultiProof.FromTreeLeaves | examples/multi_proof.rs:89-90 | fails exactly when some index is not a leaf, with LeafIndexOutOfRange for the first such index; otherwise a valid proof over the distinct indices |
| MultiProof.MultiProofNodes.IntoValues | examples/multi_proof.rs:94-98 | detaching keeps the leaf count, the keys are exactly the proof positions, and each value is the tree's value there |
| MultiProof.DetachedValues | examples/multi_proof.rs:94-98 | every detached node lies inside its level and holds the folded level's value |
| MultiProof.FromLeafCountAndNodes | examples/multi_proof.rs:100-103 | the rebuilt verifier holds exactly the two detached fields |
| MultiProof.InputError | examples/multi_proof.rs:107-112 | no error exactly when the count is a power of two, leaves are given, every leaf is in range and every proof node lies below the root inside its level; the errors come in the order count, empty, leaf range |
| MultiProof.Seed | examples/multi_proof.rs:105-109 | the known map holds each supplied leaf at level 0 and every proof node, and nothing else; each proof node keeps its value unless a supplied leaf sits at the same position, and then the leaf wins |
| MultiProof.Step | examples/multi_proof.rs:107-112 | one round of resolution never forgets a known position |
| MultiProof.StepShape | examples/multi_proof.rs:107-112 | one round only adds slots of the level above whose two children are known, each holding hash_pair(left, right), and changes no value on any other level |
| MultiProof.DerivedValue | examples/multi_proof.rs:107-112 | over true values, a derived parent lies inside its level and is the tree's own value at its position |
| MultiProof.Resolve | examples/multi_proof.rs:107-112 | resolution never forgets a known position |
| MultiProof.VerifyOutcome | examples/multi_proof.rs:107-112 | the outcome is an error exactly when the input check reports one, and then it is that error |
| MultiProof.ResolveUpward | examples/multi_proof.rs:107-112 | the per-level loop computes exactly the rounds of resolution for levels [0, top) |
| MultiProof.Verify | examples/multi_proof.rs:107-112 | the method returns exactly VerifyOutcome |
| MultiProof.ParentValue | examples/multi_proof.rs:107-112 | a node one level up is hash_pair of its two children, left first |
| MultiProof.StepConsistent | examples/multi_proof.rs:107-112 | one round of resolution over true values adds only true values |
| MultiProof.ResolveConsistent | examples/multi_proof.rs:107-112 | resolution over true values yields only true values |
| MultiProof.PairResolves | examples/multi_proof.rs:107-112 | a known node whose sibling is known gets its parent resolved in one round |
| MultiProof.StepCovers | examples/multi_proof.rs:107-112 | when the known indices and their missing siblings are present, one round resolves every known index of the level above |
| MultiProof.ResolveCovers | examples/multi_proof.rs:107-112 | with the known indices and all proof positions from a level up present, resolution reaches every known index of the top level |
| MultiProof.ResolveReachesRoot | examples/multi_proof.rs:105-112 | true leaves plus true proof nodes resolve the root position to the top node |
| MultiProof.VerifyComplete | examples/multi_proof.rs:105-112 | a proof holding the true values at exactly the proof positions, verified with the true leaves, is Success(PassedDecisively) against the top node |
| MultiProof.DetachedProofPasses | examples/multi_proof.rs:94-112 | a proof bound to a tree, once detached, passes decisively for the tree's own values at its target leaves against the tree's root |
| MultiProof.MultiProofRoundTrip | examples/multi_proof.rs:86-112 | for every non-empty list of leaf indices, build → detach → rebuild → verify of the true leaves against the root is Success(PassedDecisively) |
| MultiProof.FourLeafProofPositions | examples/multi_proof.rs:89-90 | four leaves, targets {1, 3}: the proof positions are exactly (0, 0) and (0, 2) |
| MultiProof.TwoTargetsDetach | examples/multi_proof.rs:89-98 | on a 4-leaf tree, targets [1, 3] detach to leaf count 4 and nodes {(0,0): leaf 0, (0,2): leaf 2} |
| MultiProof.TwoTargetsOfFour | examples/multi_proof.rs:100-112 | on a 4-leaf tree, the rebuilt proof verifies {1: leaf 1, 3: leaf 3} against the root as Success(PassedDecisively) |
| MultiProof.FourLeafMultiProof | examples/multi_proof.rs:80-112 | the whole example: the build and the proof succeed, the detached nodes are leaves 0 and 2, and verification passes |
| MultiProof.VerifyRejectsBadInput | examples/multi_proof.rs:107-112 | a leaf count of 6 is InvalidTreeLeafCount(6) whatever the rest, and an empty leaf map is NoLeavesToVerify |
| MultiProof.GapFailsDecisively | examples/multi_proof.rs:107-112 | a proof that misses a sibling is a decisive Success(Failed), not an error |

## Left out

- The blake2-based hasher implementations and `hash_data` of the examples are not part of this model. The hasher is an arbitrary pair of functions.
- The implementation modules of the tree and the proofs are not part of this model. Their behaviour is modelled from the unit tests, the hasher trait and the two proof examples. These are modelling decisions that those files do not fix:
  - the names and payloads of the proof-builder and multi-verify error variants;
  - the single verifier's rejection of a leaf index >= 2^|branch|;
  - the collapsing of duplicate multi-proof indices into a set;
  - VerifyResult.ProofVerifyResult: only `Failed` and `PassedDecisively` are modelled. The examples only ever show `PassedDecisively`. There is no trivial or inconclusive pass, so a one-leaf tree's proof, whose branch is empty and whose leaf is the root, counts as a decisive pass.
- Soundness is not modelled. Soundness means that a wrong leaf or a tampered proof is rejected, and it needs collision resistance of `hash_pair`, which an arbitrary function lacks. Only completeness and the decisive-fail paths are proved.
- MultiProof.Seed: when a supplied leaf and a proof node share a position at level 0, the model keeps the supplied leaf. The implementation of multi-proof `verify` is not part of this model, and the completeness proofs never meet the case, because the proof positions are exactly the missing siblings of the target leaves.
- MultiProof.Step: a parent computed in a round is inserted over any value already known at that position, so a proof node supplied on level + 1 for a position whose two children are also known is replaced by the computed hash_pair. Honest proofs never contain such a node, because the proof positions are exactly the missing siblings.
- Multi-proof node views are represented by their positions. Their values are read from the tree on detaching.
- Parallel hashing within a level is not modelled: the model hashes sequentially, left to right. Read-only sharing across threads is not modelled either.
- Node views are (tree, absolute index) values. The borrow lifetime that ties them to the tree is not modelled.
- The scale-codec encoding of detached proofs is not modelled. Only their logical fields are.
- `src/rand_tools.rs` is not modelled: it provides random seeds for tests.
- `examples/basic.rs` is not modelled: it is a printing demo whose one assertion is the 4-leaf root.
- Integers are unbounded. Sizes and indices are `usize` in the library, but the model does not bound them, because no size used by the library's unit tests comes near the limit.
