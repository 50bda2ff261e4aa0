/**
 * The pair hasher a Merkle tree is parameterised by (src/merkle/hasher.rs).
 *
 * The hasher deals only with nodes: every input and every output is the one
 * node type `T`; there is no separate digest type.  Both operations are
 * associated functions without `self`, so they are stateless and
 * deterministic; here they are total functions carried as values, and every
 * lemma of the model holds for ALL choices of them.  Nothing assumes that
 * `hashPair` is commutative (the order of its operands matters) or injective.
 */
module Hasher {

  datatype PairHasher<!T> = PairHasher(
    /** Hash one node into one node (used only for the padding chain). */
    hashSingle: T -> T,
    /** Hash an ordered pair of nodes, left operand first. */
    hashPair: (T, T) -> T)
}
