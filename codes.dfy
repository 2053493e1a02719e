/**
 * Codes: the root-to-leaf path of every leaf ('0' for a left step, '1' for
 * a right step), encoding a text with them, and the bit-by-bit walk that
 * decodes a bit string against a tree.
 */
module Codes {
  import opened Trees
  import opened Sums

  /** The child a bit selects: '0' goes left, any other bit goes right. */
  function Child(t: Tree, bit: char): Tree
    requires t.Node?
  {
    if bit == '0' then t.left else t.right
  }

  /** The node a path of bits leads to from `t`; Nil once it leaves the tree. */
  function Follow(t: Tree, path: string): Tree
    decreases |path|
  {
    if path == [] || t.Nil? then (if path == [] then t else Nil)
    else Follow(Child(t, path[0]), path[1..])
  }

  /**
   * The code map a pre-order traversal writes: every leaf's symbol is mapped
   * to `prefix` followed by its path. A later (further right) leaf with the
   * same symbol overwrites an earlier one, as repeated map writes do.
   */
  function CodeMap(t: Tree, prefix: string): (r: map<char, string>)
    ensures forall c :: c in r ==> IsPrefix(prefix, r[c])
  {
    if t.Nil? then map[]
    else
      (if IsLeaf(t) then map[t.ch := prefix] else map[])
      + CodeMap(t.left, prefix + "0")
      + CodeMap(t.right, prefix + "1")
  }

  /** No code of the map is a prefix of another symbol's code. */
  ghost predicate PrefixFree(codes: map<char, string>) {
    forall a, b :: a in codes && b in codes && a != b ==> !IsPrefix(codes[a], codes[b])
  }

  predicate IsPrefix(p: string, s: string) {
    |p| <= |s| && s[..|p|] == p
  }

  /** A symbol's code; a symbol without one reads as the empty string. */
  function Lookup(codes: map<char, string>, c: char): string {
    if c in codes then codes[c] else []
  }

  /** Every symbol of `s` has a non-empty code. */
  ghost predicate Covers(codes: map<char, string>, s: string) {
    forall c :: c in s ==> Lookup(codes, c) != []
  }

  /** The concatenation of the codes of the symbols of `s`, in order. */
  function Encode(codes: map<char, string>, s: string): (r: string)
    ensures Covers(codes, s) ==> |s| <= |r|
  {
    if s == [] then [] else Lookup(codes, s[0]) + Encode(codes, s[1..])
  }

  /**
   * The decoding walk from node `cur`: each bit steps to a child; reaching a
   * leaf emits its symbol and restarts at `root`; stepping to an absent child
   * (or starting from an absent root) stops the walk with what was emitted.
   */
  function Decode(root: Tree, cur: Tree, bits: string): (r: string)
    ensures |r| <= |bits|
    decreases |bits|
  {
    if bits == [] || cur.Nil? then []
    else
      var next := Child(cur, bits[0]);
      if next.Nil? then []
      else if IsLeaf(next) then [next.ch] + Decode(root, root, bits[1..])
      else Decode(root, next, bits[1..])
  }

  // ---------------------------------------------------------------------
  // Paths

  lemma {:induction false} FollowAppend(t: Tree, p: string, q: string)
    ensures Follow(t, p + q) == Follow(Follow(t, p), q)
    decreases |p|
  {
    if p == [] {
      assert p + q == q;
    } else if t.Nil? {
      FollowNil(q);
    } else {
      assert (p + q)[1..] == p[1..] + q;
      FollowAppend(Child(t, p[0]), p[1..], q);
    }
  }

  lemma FollowNil(q: string)
    ensures Follow(Nil, q) == Nil
  {
  }

  /** Every code leads from the root to a leaf that holds its symbol. */
  lemma {:induction false} CodeLeadsToLeaf(t: Tree, prefix: string, c: char)
    requires c in CodeMap(t, prefix)
    ensures IsPrefix(prefix, CodeMap(t, prefix)[c])
    ensures var leaf := Follow(t, CodeMap(t, prefix)[c][|prefix|..]);
      IsLeaf(leaf) && leaf.ch == c
    decreases t
  {
    var code := CodeMap(t, prefix)[c];
    var p0, p1 := prefix + "0", prefix + "1";
    if c in CodeMap(t.right, p1) {
      CodeLeadsToLeaf(t.right, p1, c);
      StepDown(t, prefix, code, '1');
    } else if c in CodeMap(t.left, p0) {
      CodeLeadsToLeaf(t.left, p0, c);
      StepDown(t, prefix, code, '0');
    } else {
      assert code == prefix && IsLeaf(t) && t.ch == c;
      assert code[|prefix|..] == [];
    }
  }

  /** A path below `prefix + [bit]` continues, from `t`, through Child(t, bit). */
  lemma StepDown(t: Tree, prefix: string, code: string, bit: char)
    requires t.Node?
    requires IsPrefix(prefix + [bit], code)
    ensures IsPrefix(prefix, code)
    ensures Follow(t, code[|prefix|..]) == Follow(Child(t, bit), code[|prefix| + 1..])
  {
    var rest := code[|prefix|..];
    assert rest[0] == bit;
    assert rest[1..] == code[|prefix| + 1..];
  }

  lemma {:induction false} CodeMapKeys(t: Tree, prefix: string)
    ensures CodeMap(t, prefix).Keys == set c | c in LeafSymbols(t)
    decreases t
  {
    if t.Node? {
      CodeMapKeys(t.left, prefix + "0");
      CodeMapKeys(t.right, prefix + "1");
    }
  }

  /** A code is a prefix of another only if both lead to the same leaf. */
  lemma PrefixFreeCodes(t: Tree)
    ensures PrefixFree(CodeMap(t, []))
  {
    var codes := CodeMap(t, []);
    forall a, b | a in codes && b in codes && a != b
      ensures !IsPrefix(codes[a], codes[b])
    {
      if IsPrefix(codes[a], codes[b]) {
        CodeLeadsToLeaf(t, [], a);
        CodeLeadsToLeaf(t, [], b);
        var rest := codes[b][|codes[a]|..];
        assert codes[b] == codes[a] + rest;
        FollowAppend(t, codes[a], rest);
        assert false;
      }
    }
  }

  /** Below an internal root every code is non-empty. */
  lemma CodesNonEmpty(t: Tree, c: char)
    requires t.Node? && !IsLeaf(t)
    requires c in CodeMap(t, [])
    ensures CodeMap(t, []) [c] != []
  {
    CodeLeadsToLeaf(t, [], c);
  }

  /** Dropping the weights changes no code. */
  lemma {:induction false} CodeMapUnweighted(t: Tree, prefix: string)
    ensures CodeMap(Unweighted(t), prefix) == CodeMap(t, prefix)
    decreases t
  {
    if t.Node? {
      CodeMapUnweighted(t.left, prefix + "0");
      CodeMapUnweighted(t.right, prefix + "1");
    }
  }

  // ---------------------------------------------------------------------
  // Encoding and decoding

  lemma {:induction false} EncodeSnoc(codes: map<char, string>, s: string, c: char)
    ensures Encode(codes, s + [c]) == Encode(codes, s) + Lookup(codes, c)
    decreases |s|
  {
    if s == [] {
      assert Encode(codes, [c]) == Lookup(codes, c) + Encode(codes, []);
    } else {
      assert (s + [c])[1..] == s[1..] + [c];
      EncodeSnoc(codes, s[1..], c);
    }
  }

  /** The encoded length is each code's length summed over the text. */
  lemma {:induction false} EncodeLength(codes: map<char, string>, s: string)
    ensures |Encode(codes, s)| == SeqSum(s, CodeLength(codes))
    decreases |s|
  {
    if s != [] {
      var init, x := s[..|s| - 1], s[|s| - 1];
      assert s == init + [x];
      EncodeLength(codes, init);
      EncodeSnoc(codes, init, x);
    }
  }

  function CodeLength(codes: map<char, string>): char -> nat {
    c => |Lookup(codes, c)|
  }

  /**
   * The encoded length is, over the distinct symbols, the number of
   * occurrences times the code length.
   */
  lemma EncodedSize(codes: map<char, string>, s: string)
    ensures |Encode(codes, s)| == SumOver(Symbols(s), CountTimes(s, CodeLength(codes)))
  {
    EncodeLength(codes, s);
    CountingSum(s, CodeLength(codes));
  }

  /** Walking a path that ends at a leaf emits that leaf's symbol and restarts at the root. */
  lemma {:induction false} DecodePath(root: Tree, cur: Tree, path: string, rest: string)
    requires path != []
    requires IsLeaf(Follow(cur, path))
    ensures Decode(root, cur, path + rest) == [Follow(cur, path).ch] + Decode(root, root, rest)
    decreases |path|
  {
    if cur.Nil? {
      FollowNil(path);
      assert false;
    }
    var next := Child(cur, path[0]);
    assert (path + rest)[0] == path[0];
    assert (path + rest)[1..] == path[1..] + rest;
    assert Follow(cur, path) == Follow(next, path[1..]);
    if path[1..] == [] {
      assert path[1..] + rest == rest;
    } else {
      if next.Nil? {
        assert false;
      }
      if IsLeaf(next) {
        var after := path[1..];
        assert Follow(next, after) == Follow(Child(next, after[0]), after[1..]);
        FollowNil(after[1..]);
        assert false;
      }
      DecodePath(root, next, path[1..], rest);
    }
  }

  /** Every code is non-empty and leads from the root of `t` to a leaf holding its symbol. */
  ghost predicate LeadsToLeaves(t: Tree, codes: map<char, string>) {
    forall c :: c in codes ==>
      codes[c] != [] && IsLeaf(Follow(t, codes[c])) && Follow(t, codes[c]).ch == c
  }

  /**
   * Decoding an encoded text gives the text back and then goes on with
   * whatever bits follow, for any tree whose root is internal.
   */
  lemma DecodeEncode(t: Tree, s: string, rest: string)
    requires t.Node? && !IsLeaf(t)
    requires forall c :: c in s ==> c in CodeMap(t, [])
    ensures Decode(t, t, Encode(CodeMap(t, []), s) + rest) == s + Decode(t, t, rest)
  {
    var codes := CodeMap(t, []);
    forall c | c in codes
      ensures codes[c] != [] && IsLeaf(Follow(t, codes[c])) && Follow(t, codes[c]).ch == c
    {
      CodeFollows(t, c);
    }
    DecodeEncodeWith(t, codes, s, rest);
  }

  /** DecodeEncode for any code table whose codes lead to their leaves. */
  lemma {:induction false} DecodeEncodeWith(t: Tree, codes: map<char, string>, s: string, rest: string)
    requires LeadsToLeaves(t, codes)
    requires forall c :: c in s ==> c in codes
    ensures Decode(t, t, Encode(codes, s) + rest) == s + Decode(t, t, rest)
    decreases |s|
  {
    if s == [] {
      assert Encode(codes, s) + rest == rest;
    } else {
      var tail := Encode(codes, s[1..]) + rest;
      EncodeCons(codes, s, rest);
      DecodeEncodeWith(t, codes, s[1..], rest);
      DecodeStep(t, codes[s[0]], tail, s[1..], Decode(t, t, rest));
      assert [s[0]] + s[1..] == s;
    }
  }

  /** The code of the first symbol comes first. */
  lemma EncodeCons(codes: map<char, string>, s: string, rest: string)
    requires s != [] && s[0] in codes
    ensures Encode(codes, s) + rest == codes[s[0]] + (Encode(codes, s[1..]) + rest)
  {
    assert Encode(codes, s) == codes[s[0]] + Encode(codes, s[1..]);
  }

  /** A code that leads to a leaf emits its symbol before what the remaining bits decode to. */
  lemma DecodeStep(t: Tree, code: string, tail: string, more: string, d: string)
    requires code != [] && IsLeaf(Follow(t, code))
    requires Decode(t, t, tail) == more + d
    ensures Decode(t, t, code + tail) == ([Follow(t, code).ch] + more) + d
  {
    DecodePath(t, t, code, tail);
  }

  /** Below an internal root, a symbol's code is non-empty and leads to its leaf. */
  lemma CodeFollows(t: Tree, c: char)
    requires t.Node? && !IsLeaf(t)
    requires c in CodeMap(t, [])
    ensures CodeMap(t, [])[c] != []
    ensures IsLeaf(Follow(t, CodeMap(t, [])[c])) && Follow(t, CodeMap(t, [])[c]).ch == c
  {
    var code := CodeMap(t, [])[c];
    CodeLeadsToLeaf(t, [], c);
    assert code[0..] == code;
    CodesNonEmpty(t, c);
  }

  /** A bit string that stops partway down a path decodes to nothing. */
  lemma {:induction false} DecodePartialPath(root: Tree, cur: Tree, path: string)
    requires Follow(cur, path).Node? && !IsLeaf(Follow(cur, path))
    ensures Decode(root, cur, path) == []
    decreases |path|
  {
    if path != [] {
      if cur.Nil? {
        FollowNil(path);
        assert false;
      }
      var next := Child(cur, path[0]);
      if next.Nil? {
        assert false;
      }
      if IsLeaf(next) && path[1..] != [] {
        var after := path[1..];
        assert Follow(next, after) == Follow(Child(next, after[0]), after[1..]);
        FollowNil(after[1..]);
        assert false;
      }
      DecodePartialPath(root, next, path[1..]);
    }
  }

  /**
   * After an encoded text, a bit that leads from the root to an absent child
   * ends decoding with the text decoded so far.
   */
  lemma DecodeStopsAtAbsentChild(t: Tree, s: string, bit: char, rest: string)
    requires t.Node? && !IsLeaf(t) && Child(t, bit).Nil?
    requires forall c :: c in s ==> c in CodeMap(t, [])
    ensures Decode(t, t, Encode(CodeMap(t, []), s) + ([bit] + rest)) == s
  {
    DecodeEncode(t, s, [bit] + rest);
    assert s + [] == s;
  }

  /** After an encoded text, a trailing partial path is dropped. */
  lemma DecodeDropsPartialTail(t: Tree, s: string, path: string)
    requires t.Node? && !IsLeaf(t)
    requires Follow(t, path).Node? && !IsLeaf(Follow(t, path))
    requires forall c :: c in s ==> c in CodeMap(t, [])
    ensures Decode(t, t, Encode(CodeMap(t, []), s) + path) == s
  {
    DecodeEncode(t, s, path);
    DecodePartialPath(t, t, path);
    assert s + [] == s;
  }

  /** Decoding reads every bit other than '0' as '1'. */
  lemma {:induction false} DecodeReadsNonZeroAsOne(root: Tree, cur: Tree, bits: string)
    ensures Decode(root, cur, bits) == Decode(root, cur, Binary(bits))
    decreases |bits|
  {
    if bits != [] {
      assert Binary(bits)[1..] == Binary(bits[1..]);
      DecodeReadsNonZeroAsOne(root, root, bits[1..]);
      if cur.Node? {
        DecodeReadsNonZeroAsOne(root, Child(cur, bits[0]), bits[1..]);
      }
    }
  }

  /** `bits` with every character other than '0' replaced by '1'. */
  function Binary(bits: string): (r: string)
    ensures |r| == |bits|
  {
    seq(|bits|, i requires 0 <= i < |bits| => if bits[i] == '0' then '0' else '1')
  }
}
