/**
 * Huffman tree nodes. A `Nil` stands for a null child pointer; a `Node` is
 * a heap node carrying a symbol (meaningful for leaves only), a weight and
 * two possibly-absent children. A node is a leaf when both children are Nil.
 */
module Trees {

  datatype Tree = Nil | Node(ch: char, weight: nat, left: Tree, right: Tree)

  /** The symbol internal nodes carry. */
  const NoSymbol: char := '\0'

  function Leaf(c: char, w: nat): Tree {
    Node(c, w, Nil, Nil)
  }

  predicate IsLeaf(t: Tree) {
    t.Node? && t.left.Nil? && t.right.Nil?
  }

  /** Weight of a possibly-absent node; an absent node weighs nothing. */
  function Weight(t: Tree): nat {
    if t.Nil? then 0 else t.weight
  }

  /** Every node is a leaf or has exactly two children (a full binary tree). */
  predicate Full(t: Tree) {
    t.Node? &&
    (IsLeaf(t) || (t.left.Node? && t.right.Node? && Full(t.left) && Full(t.right)))
  }

  /** Every internal node weighs the sum of its children. */
  predicate Weighted(t: Tree) {
    t.Nil? ||
    ((IsLeaf(t) || t.weight == Weight(t.left) + Weight(t.right)) &&
     Weighted(t.left) && Weighted(t.right))
  }

  /** The symbols held by the leaves, with multiplicity. */
  function LeafSymbols(t: Tree): multiset<char> {
    if t.Nil? then multiset{}
    else if IsLeaf(t) then multiset{t.ch}
    else LeafSymbols(t.left) + LeafSymbols(t.right)
  }

  /** Every leaf's symbol is a key of `freq` and its weight is that key's count. */
  predicate LeavesMatch(t: Tree, freq: map<char, nat>) {
    t.Nil? ||
    ((IsLeaf(t) ==> t.ch in freq && t.weight == freq[t.ch]) &&
     LeavesMatch(t.left, freq) && LeavesMatch(t.right, freq))
  }

  function LeafCount(t: Tree): nat {
    if t.Nil? then 0
    else if IsLeaf(t) then 1
    else LeafCount(t.left) + LeafCount(t.right)
  }

  function InternalCount(t: Tree): nat {
    if t.Nil? || IsLeaf(t) then 0
    else 1 + InternalCount(t.left) + InternalCount(t.right)
  }

  /** Every weight is 0 and every internal node carries NoSymbol. */
  predicate Weightless(t: Tree) {
    t.Nil? ||
    (t.weight == 0 && (IsLeaf(t) || t.ch == NoSymbol) &&
     Weightless(t.left) && Weightless(t.right))
  }

  /**
   * What a rebuilt tree keeps of `t`: the shape and the leaf symbols; every
   * weight is 0 and every internal node carries NoSymbol.
   */
  function Unweighted(t: Tree): (r: Tree)
    ensures r.Nil? == t.Nil? && IsLeaf(r) == IsLeaf(t)
    ensures Weightless(r)
  {
    if t.Nil? then Nil
    else if IsLeaf(t) then Leaf(t.ch, 0)
    else Node(NoSymbol, 0, Unweighted(t.left), Unweighted(t.right))
  }

  /** A full tree has one more leaf than it has internal nodes. */
  lemma {:induction false} FullLeafCount(t: Tree)
    requires Full(t)
    ensures LeafCount(t) == InternalCount(t) + 1
  {
    if !IsLeaf(t) {
      FullLeafCount(t.left);
      FullLeafCount(t.right);
    }
  }

  /** Each leaf contributes one symbol. */
  lemma {:induction false} LeafSymbolsCount(t: Tree)
    ensures |LeafSymbols(t)| == LeafCount(t)
  {
    if t.Node? && !IsLeaf(t) {
      LeafSymbolsCount(t.left);
      LeafSymbolsCount(t.right);
    }
  }
}
