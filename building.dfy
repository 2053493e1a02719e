/**
 * What greedy tree construction guarantees, and the queue invariants its two
 * loops keep: while the queue is seeded with one leaf per frequency entry,
 * and while the two lightest trees are merged under a new node.
 */
module Building {
  import opened Trees
  import opened Sums
  import opened Frequency
  import opened Queue

  /**
   * What tree building guarantees for a frequency map: no tree for an empty
   * map; otherwise an internal root whose leaves are exactly the map's
   * entries (each symbol once, weighted by its count), whose internal
   * weights are the sums of their children and whose root weighs the total
   * count. With one symbol the root has that leaf as its only (left) child;
   * with two or more the tree is full.
   */
  ghost predicate BuiltFrom(t: Tree, freq: map<char, nat>) {
    if freq == map[] then t.Nil?
    else
      && t.Node? && !IsLeaf(t)
      && Weighted(t)
      && LeavesMatch(t, freq)
      && LeafSymbols(t) == multiset(freq.Keys)
      && t.weight == Total(freq)
      && (|freq| == 1 ==> t.ch == NoSymbol && IsLeaf(t.left) && t.right.Nil?)
      && (|freq| >= 2 ==> Full(t))
  }

  /** A tree the queue may hold while merging. */
  ghost predicate Good(t: Tree, freq: map<char, nat>) {
    Full(t) && Weighted(t) && LeavesMatch(t, freq)
  }

  /**
   * While seeding: a leaf for every entry no longer pending, and between the
   * queue and the pending keys every symbol and every count exactly once.
   */
  ghost predicate Seeding(pq: seq<Tree>, pending: set<char>, freq: map<char, nat>) {
    && pending <= freq.Keys
    && (forall t :: t in pq ==> IsLeaf(t) && LeavesMatch(t, freq))
    && ForestSymbols(pq) + multiset(pending) == multiset(freq.Keys)
    && ForestWeight(pq) + SumOver(pending, CountOf(freq)) == Total(freq)
    && |pq| + |pending| == |freq|
  }

  /** While merging: good trees that together hold every symbol and count once. */
  ghost predicate Merging(pq: seq<Tree>, freq: map<char, nat>) {
    && (forall t :: t in pq ==> Good(t, freq))
    && ForestSymbols(pq) == multiset(freq.Keys)
    && ForestWeight(pq) == Total(freq)
    && (pq == [] <==> freq == map[])
  }

  /**
   * One merge: take the element at `i` out, then the element at `j` of what
   * is left, and append a new node with them as left and right children.
   */
  function Merge(pq: seq<Tree>, i: nat, j: nat): (r: seq<Tree>)
    requires i < |pq| && j < |pq| - 1
    ensures |r| == |pq| - 1
  {
    var left := pq[i];
    var rest := RemoveAt(pq, i);
    var right := rest[j];
    RemoveAt(rest, j) + [Node(NoSymbol, Weight(left) + Weight(right), left, right)]
  }

  lemma SeedStart(freq: map<char, nat>)
    ensures Seeding([], freq.Keys, freq)
  {
  }

  lemma SeedStep(pq: seq<Tree>, pending: set<char>, freq: map<char, nat>, c: char)
    requires Seeding(pq, pending, freq) && c in pending
    ensures Seeding(pq + [Leaf(c, freq[c])], pending - {c}, freq)
  {
    var leaf := Leaf(c, freq[c]);
    SumOverRemove(pending, CountOf(freq), c);
    ForestConcat(pq, [leaf]);
    ForestSingle(leaf);
    assert multiset(pending) == multiset(pending - {c}) + multiset{c};
  }

  /**
   * After seeding, the queue holds one leaf per entry. With exactly one, the
   * one-child root above it is a built tree; otherwise merging may start.
   */
  lemma SeedDone(pq: seq<Tree>, freq: map<char, nat>)
    requires Seeding(pq, {}, freq)
    ensures |pq| == |freq|
    ensures |pq| != 1 ==> Merging(pq, freq)
    ensures |pq| == 1 ==> forall c :: c in freq ==> pq[0] == Leaf(c, freq[c])
    ensures |pq| == 1 ==> BuiltFrom(Node(NoSymbol, Weight(pq[0]), pq[0], Nil), freq)
  {
    var none: set<char> := {};
    assert multiset(none) == multiset{};
    assert SumOver(none, CountOf(freq)) == 0;
    if |pq| == 1 {
      SeedSingle(pq, freq);
    } else {
      forall t | t in pq
        ensures Good(t, freq)
      {
      }
    }
  }

  /** The one-leaf case of SeedDone. */
  lemma SeedSingle(pq: seq<Tree>, freq: map<char, nat>)
    requires |pq| == 1 && |freq| == 1
    requires forall t :: t in pq ==> IsLeaf(t) && LeavesMatch(t, freq)
    requires ForestSymbols(pq) == multiset(freq.Keys)
    requires ForestWeight(pq) == Total(freq)
    ensures forall c :: c in freq ==> pq[0] == Leaf(c, freq[c])
    ensures BuiltFrom(Node(NoSymbol, Weight(pq[0]), pq[0], Nil), freq)
  {
    var only := pq[0];
    assert only in pq;
    ForestSingle(only);
    assert pq == [only];
    assert multiset(freq.Keys) == multiset{only.ch};
    forall k
      ensures k in freq.Keys <==> k == only.ch
    {
      assert (k in freq.Keys) == (k in multiset(freq.Keys));
    }
    assert only == Leaf(only.ch, freq[only.ch]);
    var t := Node(NoSymbol, Weight(only), only, Nil);
    assert LeafSymbols(t) == multiset{only.ch};
    assert Weighted(Nil) && Weighted(only) && LeavesMatch(only, freq);
    assert !IsLeaf(t) && t.weight == Weight(t.left) + Weight(t.right);
  }

  lemma MergeStep(pq: seq<Tree>, i: nat, j: nat, freq: map<char, nat>)
    requires Merging(pq, freq) && i < |pq| && j < |pq| - 1
    ensures Merging(Merge(pq, i, j), freq)
  {
    var left := pq[i];
    var rest := RemoveAt(pq, i);
    var right := rest[j];
    assert left in pq && right in pq;
    MergeGood(left, right, freq);
    MergeForest(pq, i, j);
    var r := Merge(pq, i, j);
    forall t | t in r
      ensures Good(t, freq)
    {
      if t != r[|r| - 1] {
        assert t in RemoveAt(rest, j);
      }
    }
  }

  /** A merged node over two good trees is good. */
  lemma MergeGood(left: Tree, right: Tree, freq: map<char, nat>)
    requires Good(left, freq) && Good(right, freq)
    ensures Good(Node(NoSymbol, Weight(left) + Weight(right), left, right), freq)
  {
  }

  /** A merge keeps the queue's symbols and its total weight. */
  lemma MergeForest(pq: seq<Tree>, i: nat, j: nat)
    requires i < |pq| && j < |pq| - 1 && pq[i].Node?
    ensures ForestSymbols(Merge(pq, i, j)) == ForestSymbols(pq)
    ensures ForestWeight(Merge(pq, i, j)) == ForestWeight(pq)
  {
    var left := pq[i];
    var rest := RemoveAt(pq, i);
    var right := rest[j];
    var rest' := RemoveAt(rest, j);
    var parent := Node(NoSymbol, Weight(left) + Weight(right), left, right);
    ForestRemoveAt(pq, i);
    ForestRemoveAt(rest, j);
    ForestConcat(rest', [parent]);
    ForestSingle(parent);
    assert !IsLeaf(parent);
  }

  /** When one tree is left of two or more leaves, it is a built tree. */
  lemma MergeDone(pq: seq<Tree>, freq: map<char, nat>)
    requires Merging(pq, freq) && |pq| == 1 && |freq| >= 2
    ensures BuiltFrom(pq[0], freq)
  {
    var root := pq[0];
    assert Good(root, freq);
    ForestSingle(root);
    assert pq == [root];
    assert |multiset(freq.Keys)| >= 2;
  }
}
