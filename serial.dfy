/**
 * The tree's transmissible form: a post-order traversal in which a leaf
 * writes 'L' followed by its symbol and an internal node writes 'B', and
 * the forward stack scan that rebuilds a tree from it.
 */
module Serial {
  import opened Trees

  /** Post-order: left subtree, right subtree, then the node itself. */
  function Serialize(t: Tree): (r: string)
    ensures |r| == 2 * LeafCount(t) + InternalCount(t)
  {
    if t.Nil? then []
    else
      Serialize(t.left) + Serialize(t.right)
      + (if IsLeaf(t) then ['L', t.ch] else ['B'])
  }

  /**
   * The stack scan over `s`, continuing from `stack` (its top is the last
   * element). 'L' pushes a weightless leaf holding the next character, if
   * there is one, and is ignored at the very end; 'B' pops the right and
   * then the left child and pushes a weightless internal node, and is
   * ignored when fewer than two nodes are stacked; any other character is
   * skipped. With `repair`, a 'B' over exactly one stacked node instead
   * makes that node the left child of a new node with no right child.
   */
  function Scan(s: string, stack: seq<Tree>, repair: bool): (r: seq<Tree>)
    ensures |r| <= |stack| + |s| / 2
    ensures Stacked(stack) ==> Stacked(r)
    decreases |s|
  {
    if s == [] then stack
    else if s[0] == 'L' then
      if |s| >= 2 then
        var leaf := Leaf(s[1], 0);
        assert Weightless(leaf.left) && Weightless(leaf);
        assert (|s| - 2) / 2 + 1 == |s| / 2;
        StackedPush(stack, leaf);
        Scan(s[2..], stack + [leaf], repair)
      else stack
    else if s[0] == 'B' then
      if |stack| >= 2 then
        var n := |stack|;
        var node := Node(NoSymbol, 0, stack[n - 2], stack[n - 1]);
        assert stack[n - 2] in stack && stack[n - 1] in stack;
        assert Stacked(stack) ==> Weightless(node);
        StackedPush(stack[..n - 2], node);
        Scan(s[1..], stack[..n - 2] + [node], repair)
      else if repair && |stack| == 1 then
        var node := Node(NoSymbol, 0, stack[0], Nil);
        assert stack[0] in stack;
        assert Stacked(stack) ==> Weightless(node);
        StackedPush([], node);
        Scan(s[1..], [node], repair)
      else Scan(s[1..], stack, repair)
    else Scan(s[1..], stack, repair)
  }

  /** Pushing a present, weightless tree keeps a stack of such trees. */
  lemma StackedPush(stack: seq<Tree>, t: Tree)
    ensures Stacked(stack) && t.Node? && Weightless(t) ==> Stacked(stack + [t])
  {
  }

  /** Every stacked tree is present and weightless. */
  predicate Stacked(stack: seq<Tree>) {
    forall t :: t in stack ==> t.Node? && Weightless(t)
  }

  /** The root of the scanned tree: the top of the final stack, if any. */
  function Top(stack: seq<Tree>): Tree {
    if stack == [] then Nil else stack[|stack| - 1]
  }

  /** The tree the stack scan rebuilds from `s`, as the code does it. */
  function Rebuild(s: string): (r: Tree)
    ensures Weightless(r)
  {
    Top(Scan(s, [], false))
  }

  /** The rebuild with a lone 'B' over one node kept as a one-child root. */
  function RebuildRepaired(s: string): (r: Tree)
    ensures Weightless(r)
  {
    Top(Scan(s, [], true))
  }

  /**
   * Scanning the serialisation of a full tree pushes exactly the weightless
   * copy of that tree, whatever is below it on the stack and whatever
   * follows, and even when a leaf's symbol is 'L' or 'B'.
   */
  lemma {:induction false} ScanSerialized(t: Tree, rest: string, stack: seq<Tree>, repair: bool)
    requires Full(t)
    ensures Scan(Serialize(t) + rest, stack, repair) == Scan(rest, stack + [Unweighted(t)], repair)
    decreases t
  {
    if IsLeaf(t) {
      var s := Serialize(t) + rest;
      assert s == ['L', t.ch] + rest;
      assert s[2..] == rest;
    } else {
      var l, r := Unweighted(t.left), Unweighted(t.right);
      assert Serialize(t) + rest == Serialize(t.left) + (Serialize(t.right) + (['B'] + rest));
      ScanSerialized(t.left, Serialize(t.right) + (['B'] + rest), stack, repair);
      ScanSerialized(t.right, ['B'] + rest, stack + [l], repair);
      var st := stack + [l] + [r];
      assert st[..|st| - 2] == stack;
      assert (['B'] + rest)[1..] == rest;
    }
  }

  /** Rebuilding a full tree's serialisation gives the tree back without weights. */
  lemma RebuildSerialized(t: Tree)
    requires Full(t)
    ensures Rebuild(Serialize(t)) == Unweighted(t)
    ensures RebuildRepaired(Serialize(t)) == Unweighted(t)
  {
    assert Serialize(t) + [] == Serialize(t);
    ScanSerialized(t, [], [], false);
    ScanSerialized(t, [], [], true);
  }

  /**
   * The scan tolerates malformed input: a character that is neither marker
   * is skipped after any subtree, whatever is stacked and whatever follows;
   * a 'B' over a single stacked node is skipped; so are a trailing 'L' and a
   * leading 'B' (nothing is stacked yet).
   */
  lemma RebuildTolerates(t: Tree, x: char, stack: seq<Tree>, rest: string, repair: bool)
    requires Full(t)
    requires x != 'L' && x != 'B'
    ensures Scan(Serialize(t) + ([x] + rest), stack, repair) == Scan(rest, stack + [Unweighted(t)], repair)
    ensures Scan(Serialize(t) + (['B'] + rest), [], false) == Scan(rest, [Unweighted(t)], false)
    ensures Rebuild(Serialize(t) + ['B']) == Unweighted(t)
    ensures Rebuild(Serialize(t) + [x]) == Unweighted(t)
    ensures Rebuild(Serialize(t) + ['L']) == Unweighted(t)
    ensures Rebuild(['B'] + Serialize(t)) == Unweighted(t)
  {
    ScanSerialized(t, [x] + rest, stack, repair);
    assert ([x] + rest)[1..] == rest;
    ScanSerialized(t, ['B'] + rest, [], false);
    assert (['B'] + rest)[1..] == rest;
    var u := Unweighted(t);
    var none: seq<Tree> := [];
    assert none + [u] == [u];
    ScanSerialized(t, ['B'], [], false);
    assert Scan(['B'], [u], false) == [u] by {
      assert ['B'][1..] == [];
    }
    ScanSerialized(t, [x], [], false);
    ScanSerialized(t, ['L'], [], false);
    assert Serialize(t) + [] == Serialize(t);
    ScanSerialized(t, [], [], false);
    assert (['B'] + Serialize(t))[1..] == Serialize(t);
  }

  /**
   * A one-child root serialises to its leaf and a 'B'. The code's scan drops
   * that 'B' and returns the bare leaf; the repaired scan rebuilds the root.
   */
  lemma RebuildOneChildRoot(k: char, c: char, w: nat, v: nat)
    ensures Serialize(Node(k, w, Leaf(c, v), Nil)) == ['L', c, 'B']
    ensures Rebuild(['L', c, 'B']) == Leaf(c, 0)
    ensures RebuildRepaired(['L', c, 'B']) == Node(NoSymbol, 0, Leaf(c, 0), Nil)
  {
    var s := ['L', c, 'B'];
    assert s[2..] == ['B'];
    assert ['B'][1..] == [];
    assert Scan(s, [], false) == Scan(['B'], [Leaf(c, 0)], false) == [Leaf(c, 0)];
    assert Scan(s, [], true) == Scan(['B'], [Leaf(c, 0)], true);
  }
}
