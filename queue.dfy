/**
 * The priority queue the tree builder pops from, seen abstractly: a
 * sequence of trees from which a minimum-weight element is found and
 * removed. The heap's internal layout and its tie-breaking are not part of
 * this model; here a tie goes to the earliest element.
 */
module Queue {
  import opened Trees

  /** The leaf symbols of every tree in the queue. */
  function ForestSymbols(q: seq<Tree>): multiset<char> {
    if q == [] then multiset{} else ForestSymbols(q[..|q| - 1]) + LeafSymbols(q[|q| - 1])
  }

  /** The weights of the trees in the queue, added up. */
  function ForestWeight(q: seq<Tree>): nat {
    if q == [] then 0 else ForestWeight(q[..|q| - 1]) + Weight(q[|q| - 1])
  }

  function RemoveAt(q: seq<Tree>, k: nat): (r: seq<Tree>)
    requires k < |q|
    ensures |r| == |q| - 1
    ensures forall t :: t in r ==> t in q
  {
    q[..k] + q[k + 1..]
  }

  /** The index of a minimum-weight element (the queue's min()). */
  method Min(q: seq<Tree>) returns (k: nat)
    requires q != []
    ensures k < |q|
    ensures forall i :: 0 <= i < |q| ==> Weight(q[k]) <= Weight(q[i])
  {
    k := 0;
    for i := 1 to |q|
      invariant k < |q|
      invariant forall j :: 0 <= j < i ==> Weight(q[k]) <= Weight(q[j])
    {
      if Weight(q[i]) < Weight(q[k]) {
        k := i;
      }
    }
  }

  lemma {:induction false} ForestConcat(a: seq<Tree>, b: seq<Tree>)
    ensures ForestSymbols(a + b) == ForestSymbols(a) + ForestSymbols(b)
    ensures ForestWeight(a + b) == ForestWeight(a) + ForestWeight(b)
    decreases |b|
  {
    if b == [] {
      assert a + b == a;
    } else {
      var b' := b[..|b| - 1];
      assert (a + b)[..|a + b| - 1] == a + b';
      assert (a + b)[|a + b| - 1] == b[|b| - 1];
      ForestConcat(a, b');
    }
  }

  /** Removing an element takes exactly its symbols and weight out of the queue. */
  lemma {:induction false} ForestRemoveAt(q: seq<Tree>, k: nat)
    requires k < |q|
    ensures ForestSymbols(q) == ForestSymbols(RemoveAt(q, k)) + LeafSymbols(q[k])
    ensures ForestWeight(q) == ForestWeight(RemoveAt(q, k)) + Weight(q[k])
    decreases |q|
  {
    var n := |q| - 1;
    var init, last := q[..n], q[n];
    if k == n {
      assert RemoveAt(q, k) == init;
    } else {
      assert RemoveAt(q, k) == RemoveAt(init, k) + [last] by {
        assert q[k + 1..] == init[k + 1..] + [last];
      }
      ForestRemoveAt(init, k);
      var r := RemoveAt(init, k) + [last];
      assert r[..|r| - 1] == RemoveAt(init, k);
    }
  }

  lemma ForestSingle(t: Tree)
    ensures ForestSymbols([t]) == LeafSymbols(t)
    ensures ForestWeight([t]) == Weight(t)
  {
    assert [t][..0] == [];
  }
}
