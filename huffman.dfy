/**
 * The Huffman coder: an object owning the current tree, the frequency map
 * and the code map, which compresses a text to a bit string ('0'/'1'
 * characters), serialises its tree, and decompresses a bit string against a
 * serialised tree.
 */
module Huffman {
  import opened Trees
  import opened Sums
  import opened Frequency
  import opened Queue
  import opened Codes
  import opened Serial
  import opened Building

  /** What decompressing `bits` against the serialised tree `ser` returns. */
  function Decompressed(bits: string, ser: string): (r: string)
    ensures |r| <= |bits|
    ensures Weightless(Rebuild(ser))
  {
    if bits == [] || ser == [] then []
    else
      var t := Rebuild(ser);
      Decode(t, t, bits)
  }

  /** Decompression with the repaired rebuild (see RebuildRepaired). */
  function DecompressedRepaired(bits: string, ser: string): (r: string)
    ensures |r| <= |bits|
  {
    if bits == [] || ser == [] then []
    else
      var t := RebuildRepaired(ser);
      Decode(t, t, bits)
  }

  class HuffmanTree {
    var root: Tree
    var frequencyMap: map<char, nat>
    var codeMap: map<char, string>

    constructor ()
      ensures root == Nil && frequencyMap == map[] && codeMap == map[]
    {
      root := Nil;
      frequencyMap := map[];
      codeMap := map[];
    }

    /** Replaces the frequency map by the counts of `s`. */
    method BuildFrequencyMap(s: string)
      modifies this`frequencyMap
      ensures frequencyMap == Frequencies(s)
    {
      frequencyMap := map[];
      for i := 0 to |s|
        invariant frequencyMap == Frequencies(s[..i])
      {
        var c := s[i];
        assert s[..i + 1] == s[..i] + [c];
        FrequenciesSnoc(s[..i], c);
        frequencyMap := frequencyMap[c := (if c in frequencyMap then frequencyMap[c] else 0) + 1];
      }
      assert s[..|s|] == s;
    }

    /**
     * Discards the old tree and builds a new one from the frequency map:
     * one leaf per entry in the queue, then repeatedly the two lightest
     * trees are merged under a new node until one tree is left.
     */
    method BuildTree()
      modifies this`root
      ensures BuiltFrom(root, frequencyMap)
    {
      root := Nil;
      var freq := frequencyMap;
      var pq: seq<Tree> := [];
      var pending := freq.Keys;
      SeedStart(freq);
      while pending != {}
        invariant Seeding(pq, pending, freq) && root == Nil
        decreases pending
      {
        var c :| c in pending;
        SeedStep(pq, pending, freq, c);
        pq := pq + [Leaf(c, freq[c])];
        pending := pending - {c};
      }
      SeedDone(pq, freq);

      if |pq| == 1 {
        var only := pq[0];
        assert only in pq;
        root := Node(NoSymbol, only.weight, only, Nil);
        return;
      }
      assert |freq| != 1;

      while |pq| > 1
        invariant Merging(pq, freq) && root == Nil
        decreases |pq|
      {
        ghost var before := pq;
        var i := Min(pq);
        var left := pq[i];
        assert left in pq;
        pq := RemoveAt(pq, i);

        var j := Min(pq);
        var right := pq[j];
        assert right in before;
        pq := RemoveAt(pq, j);

        var parent := Node(NoSymbol, left.weight + right.weight, left, right);
        pq := pq + [parent];
        assert pq == Merge(before, i, j);
        MergeStep(before, i, j, freq);
      }

      if pq != [] {
        root := pq[0];
        MergeDone(pq, freq);
      } else {
        assert freq == map[];
      }
    }

    /** Writes the code of every leaf below `node`, whose path is `code`. */
    method BuildCodeMap(node: Tree, code: string)
      modifies this`codeMap
      ensures codeMap == old(codeMap) + CodeMap(node, code)
      decreases node
    {
      if node.Nil? {
        return;
      }
      ghost var mine: map<char, string> := if IsLeaf(node) then map[node.ch := code] else map[];
      if IsLeaf(node) {
        codeMap := codeMap[node.ch := code];
      }
      assert codeMap == old(codeMap) + mine;
      BuildCodeMap(node.left, code + "0");
      BuildCodeMap(node.right, code + "1");
      UnionRegroup(old(codeMap), mine, CodeMap(node.left, code + "0"), CodeMap(node.right, code + "1"));
    }

    /**
     * Compresses `s`: an empty text gives an empty bit string and leaves
     * everything as it was; otherwise the frequency map, the tree and the
     * code map are rebuilt from `s` and the result is its encoding.
     */
    method Compress(s: string) returns (bits: string)
      modifies this
      ensures s == [] ==>
        bits == [] && root == old(root) && frequencyMap == old(frequencyMap) && codeMap == old(codeMap)
      ensures s != [] ==>
        frequencyMap == Frequencies(s) && BuiltFrom(root, frequencyMap) && Weight(root) == |s|
      ensures s != [] ==>
        codeMap == CodeMap(root, []) && codeMap.Keys == Symbols(s) && PrefixFree(codeMap)
      ensures s != [] ==> forall c :: c in codeMap ==> codeMap[c] != []
      ensures s != [] ==>
        bits == Encode(codeMap, s) && |bits| == SumOver(Symbols(s), CountTimes(s, CodeLength(codeMap)))
    {
      if s == [] {
        return [];
      }
      codeMap := map[];
      BuildFrequencyMap(s);
      ghost var freq := frequencyMap;
      BuildTree();
      ghost var t := root;
      assert frequencyMap == freq;
      BuildCodeMap(root, []);
      assert frequencyMap == freq && root == t && codeMap == CodeMap(t, []);
      CompressedTree(s, t);
      bits := EncodeText(codeMap, s);
      EncodedSize(codeMap, s);
    }

    /** The post-order serialisation of the current tree ("" for no tree). */
    function SerializeTree(): (r: string)
      reads this
      ensures |r| == 2 * LeafCount(root) + InternalCount(root)
      ensures root.Nil? <==> r == []
    {
      Serialize(root)
    }

    /**
     * Discards the current tree; unless an argument is empty, rebuilds the
     * tree from `ser` with the stack scan and walks it with `bits`.
     */
    method Decompress(bits: string, ser: string) returns (out: string)
      modifies this`root
      ensures root == (if bits == [] || ser == [] then Nil else Rebuild(ser))
      ensures out == Decompressed(bits, ser)
    {
      root := Nil;
      if bits == [] || ser == [] {
        return [];
      }
      var stack := ScanStack(ser, false);
      if stack != [] {
        root := stack[|stack| - 1];
      }
      out := Walk(root, bits);
    }

    /** Decompress with the repaired scan: a 'B' over a single node keeps it as a left child. */
    method DecompressRepaired(bits: string, ser: string) returns (out: string)
      modifies this`root
      ensures root == (if bits == [] || ser == [] then Nil else RebuildRepaired(ser))
      ensures out == DecompressedRepaired(bits, ser)
    {
      root := Nil;
      if bits == [] || ser == [] {
        return [];
      }
      var stack := ScanStack(ser, true);
      if stack != [] {
        root := stack[|stack| - 1];
      }
      out := Walk(root, bits);
    }
  }

  /**
   * The stack loop of decompress: 'L' pushes a leaf for the next character
   * (a trailing 'L' is dropped), 'B' combines the two topmost nodes, and
   * anything else is skipped.
   */
  method ScanStack(ser: string, repair: bool) returns (stack: seq<Tree>)
    ensures stack == Scan(ser, [], repair)
  {
    stack := [];
    var i := 0;
    while i < |ser|
      invariant 0 <= i <= |ser|
      invariant Scan(ser[i..], stack, repair) == Scan(ser, [], repair)
    {
      if ser[i] == 'L' {
        i := i + 1;
        if i < |ser| {
          stack := stack + [Leaf(ser[i], 0)];
          i := i + 1;
        }
      } else {
        if ser[i] == 'B' {
          if |stack| >= 2 {
            var right := stack[|stack| - 1];
            var left := stack[|stack| - 2];
            stack := stack[..|stack| - 2] + [Node(NoSymbol, 0, left, right)];
          } else if repair && |stack| == 1 {
            stack := [Node(NoSymbol, 0, stack[0], Nil)];
          }
        }
        i := i + 1;
      }
    }
  }

  /**
   * The bit loop of decompress: each bit steps from the current node; a
   * leaf emits its symbol and sends the walk back to the root; an absent
   * node ends the walk.
   */
  method Walk(root: Tree, bits: string) returns (out: string)
    ensures out == Decode(root, root, bits)
  {
    out := [];
    var cur := root;
    var j := 0;
    while j < |bits|
      invariant 0 <= j <= |bits|
      invariant out + Decode(root, cur, bits[j..]) == Decode(root, root, bits)
    {
      if cur.Nil? {
        break;
      }
      var next := if bits[j] == '0' then cur.left else cur.right;
      if next.Nil? {
        break;
      }
      assert bits[j..][1..] == bits[j + 1..];
      if IsLeaf(next) {
        assert (out + [next.ch]) + Decode(root, root, bits[j + 1..]) == out + ([next.ch] + Decode(root, root, bits[j + 1..]));
        out := out + [next.ch];
        cur := root;
      } else {
        cur := next;
      }
      j := j + 1;
    }
  }

  /** Concatenates the codes of the symbols of `s` in order (compress's final loop). */
  method EncodeText(codes: map<char, string>, s: string) returns (bits: string)
    ensures bits == Encode(codes, s)
  {
    bits := [];
    for i := 0 to |s|
      invariant bits == Encode(codes, s[..i])
    {
      assert s[..i + 1] == s[..i] + [s[i]];
      EncodeSnoc(codes, s[..i], s[i]);
      bits := bits + Lookup(codes, s[i]);
    }
    assert s[..|s|] == s;
  }

  /**
   * The tree built from a non-empty text weighs the text's length, and its
   * codes are one non-empty, prefix-free code per distinct symbol.
   */
  lemma CompressedTree(s: string, t: Tree)
    requires s != [] && BuiltFrom(t, Frequencies(s))
    ensures Weight(t) == |s|
    ensures CodeMap(t, []).Keys == Symbols(s) && PrefixFree(CodeMap(t, []))
    ensures forall c :: c in CodeMap(t, []) ==> CodeMap(t, [])[c] != []
  {
    var freq := Frequencies(s);
    assert s[0] in freq;
    TotalIsLength(s);
    BuiltCodes(t, freq);
  }

  /**
   * A tree built from n entries serialises to 3n - 1 characters when n is
   * at least 2 (n leaves of two characters and n - 1 branches), and to 3
   * characters for the one-child root.
   */
  lemma BuiltSerializedLength(t: Tree, freq: map<char, nat>)
    requires BuiltFrom(t, freq) && freq != map[]
    ensures |freq| >= 2 ==> |Serialize(t)| == 3 * |freq| - 1
    ensures |freq| == 1 ==> |Serialize(t)| == 3
  {
    LeafSymbolsCount(t);
    SetMultisetSize(freq.Keys);
    if |freq| >= 2 {
      FullLeafCount(t);
    } else {
      assert IsLeaf(t.left) && t.right.Nil?;
    }
  }

  lemma {:induction false} SetMultisetSize(ks: set<char>)
    ensures |multiset(ks)| == |ks|
    decreases ks
  {
    if ks != {} {
      var k :| k in ks;
      SetMultisetSize(ks - {k});
      assert multiset(ks) == multiset(ks - {k}) + multiset{k};
    }
  }

  /** Regrouping a chain of right-biased map unions. */
  lemma UnionRegroup<K, V>(a: map<K, V>, b: map<K, V>, c: map<K, V>, d: map<K, V>)
    ensures a + b + c + d == a + (b + c + d)
  {
  }

  /** The codes of a built tree: one per symbol, non-empty and prefix-free. */
  lemma BuiltCodes(t: Tree, freq: map<char, nat>)
    requires BuiltFrom(t, freq) && freq != map[]
    ensures CodeMap(t, []).Keys == freq.Keys
    ensures PrefixFree(CodeMap(t, []))
    ensures forall c :: c in freq ==> CodeMap(t, [])[c] != []
  {
    CodeMapKeys(t, []);
    assert (set c | c in LeafSymbols(t)) == freq.Keys;
    PrefixFreeCodes(t);
    forall c | c in freq
      ensures CodeMap(t, [])[c] != []
    {
      CodesNonEmpty(t, c);
    }
  }

  /** With a single symbol, the tree is a root over one leaf and its code is "0". */
  lemma SingleSymbolCode(t: Tree, freq: map<char, nat>)
    requires BuiltFrom(t, freq) && |freq| == 1
    ensures t.left.Node? && freq.Keys == {t.left.ch}
    ensures t == Node(NoSymbol, t.weight, Leaf(t.left.ch, freq[t.left.ch]), Nil)
    ensures CodeMap(t, []) == map[t.left.ch := "0"]
  {
    var c := t.left.ch;
    assert LeafSymbols(t) == multiset{c};
    forall k
      ensures k in freq.Keys <==> k == c
    {
      assert (k in freq.Keys) == (k in multiset(freq.Keys));
    }
    var leaf := t.left;
    assert LeavesMatch(leaf, freq);
    assert leaf == Leaf(c, freq[c]);
    var none: map<char, string> := map[];
    assert CodeMap(Nil, "00") == CodeMap(Nil, "01") == CodeMap(Nil, "1") == none;
    assert CodeMap(leaf, "0") == map[c := "0"] + none + none;
    var empty: string := [];
    assert empty + "0" == "0" && empty + "1" == "1";
    assert !IsLeaf(t) && t.right == Nil;
    assert CodeMap(t, []) == none + CodeMap(leaf, "0") + none;
  }

  /**
   * Decoding, against the weightless copy of a tree with an internal root,
   * the encoding of a text whose symbols all have codes gives the text back.
   */
  lemma DecodeUnweighted(t: Tree, s: string)
    requires t.Node? && !IsLeaf(t)
    requires forall c :: c in s ==> c in CodeMap(t, [])
    ensures Decode(Unweighted(t), Unweighted(t), Encode(CodeMap(t, []), s)) == s
  {
    var u := Unweighted(t);
    CodeMapUnweighted(t, []);
    DecodeEncode(u, s, []);
    assert Encode(CodeMap(u, []), s) + [] == Encode(CodeMap(u, []), s);
  }

  /** A non-empty text whose first symbol has a non-empty code encodes to a non-empty string. */
  lemma EncodeNonEmpty(codes: map<char, string>, s: string)
    requires s != [] && s[0] in codes && codes[s[0]] != []
    ensures Encode(codes, s) != []
  {
  }

  /**
   * Compressing a text with at least two distinct symbols and decompressing
   * the bits against the serialised tree gives the text back; so does the
   * empty text.
   */
  lemma RoundTrip(s: string, t: Tree)
    requires BuiltFrom(t, Frequencies(s))
    requires |Symbols(s)| != 1
    ensures Decompressed(Encode(CodeMap(t, []), s), Serialize(t)) == s
  {
    if s != [] {
      var freq := Frequencies(s);
      assert s[0] in freq;
      BuiltCodes(t, freq);
      var bits, ser := Encode(CodeMap(t, []), s), Serialize(t);
      EncodeNonEmpty(CodeMap(t, []), s);
      RebuildSerialized(t);
      DecodeUnweighted(t, s);
      assert Decompressed(bits, ser) == Decode(Rebuild(ser), Rebuild(ser), bits);
    }
  }

  /**
   * With a single distinct symbol the round trip loses everything: the code
   * is "0", the tree serialises as 'L', the symbol, 'B', the rebuild drops
   * the lone 'B' and returns the bare leaf, and the first bit then steps to
   * an absent child.
   */
  lemma SingleSymbolLost(s: string, t: Tree)
    requires BuiltFrom(t, Frequencies(s))
    requires |Symbols(s)| == 1
    ensures s != [] && Decompressed(Encode(CodeMap(t, []), s), Serialize(t)) == []
  {
    var freq := Frequencies(s);
    assert s != [] by {
      var none: string := [];
      assert Symbols(none) == {};
    }
    assert s[0] in freq;
    SingleSymbolCode(t, freq);
    var c := t.left.ch;
    RebuildOneChildRoot(NoSymbol, c, t.weight, freq[c]);
    var bits := Encode(CodeMap(t, []), s);
    EncodeNonEmpty(CodeMap(t, []), s);
    var leaf := Rebuild(Serialize(t));
    assert Decompressed(bits, Serialize(t)) == Decode(leaf, leaf, bits);
  }

  /** With the repaired rebuild the round trip holds for every text. */
  lemma RoundTripRepaired(s: string, t: Tree)
    requires BuiltFrom(t, Frequencies(s))
    ensures DecompressedRepaired(Encode(CodeMap(t, []), s), Serialize(t)) == s
  {
    if s != [] {
      var freq := Frequencies(s);
      assert s[0] in freq;
      BuiltCodes(t, freq);
      var bits, ser := Encode(CodeMap(t, []), s), Serialize(t);
      EncodeNonEmpty(CodeMap(t, []), s);
      if |freq| == 1 {
        SingleSymbolCode(t, freq);
        var c := t.left.ch;
        RebuildOneChildRoot(NoSymbol, c, t.weight, freq[c]);
      } else {
        RebuildSerialized(t);
      }
      assert RebuildRepaired(ser) == Unweighted(t);
      DecodeUnweighted(t, s);
      assert DecompressedRepaired(bits, ser) == Decode(RebuildRepaired(ser), RebuildRepaired(ser), bits);
    }
  }

  /** A whole session: compress, serialise the tree, decompress. */
  method CompressThenDecompress(s: string) returns (out: string)
    requires |Symbols(s)| != 1
    ensures out == s
  {
    var coder := new HuffmanTree();
    var bits := coder.Compress(s);
    var ser := coder.SerializeTree();
    if s != [] {
      RoundTrip(s, coder.root);
    }
    out := coder.Decompress(bits, ser);
  }

  /** With the repaired scan a whole session gives back every text. */
  method CompressThenDecompressRepaired(s: string) returns (out: string)
    ensures out == s
  {
    var coder := new HuffmanTree();
    var bits := coder.Compress(s);
    var ser := coder.SerializeTree();
    if s != [] {
      RoundTripRepaired(s, coder.root);
    }
    out := coder.DecompressRepaired(bits, ser);
  }

  /** The text "aaaa": one symbol, counted four times, whose one-bit code "0" repeats. */
  lemma FourAs()
    ensures Symbols("aaaa") == {'a'}
    ensures Frequencies("aaaa") == map['a' := 4]
    ensures Encode(map['a' := "0"], "aaaa") == "0000"
  {
    var s := "aaaa";
    assert multiset(s) == multiset{'a', 'a', 'a', 'a'};
    assert s[1..] == "aaa" && s[2..] == "aa" && s[3..] == "a";
  }

  /** The session on "aaaa": bits "0000", tree "LaB", and nothing comes back. */
  method SingleSymbolSession() returns (bits: string, ser: string, out: string)
    ensures bits == "0000" && ser == "LaB" && out == ""
  {
    var coder := new HuffmanTree();
    var text := "aaaa";
    FourAs();
    bits := coder.Compress(text);
    ghost var t := coder.root;
    SingleSymbolCode(t, Frequencies(text));
    assert t.left.ch == 'a';
    ser := coder.SerializeTree();
    SingleSymbolLost(text, t);
    RebuildOneChildRoot(NoSymbol, 'a', t.weight, 4);
    out := coder.Decompress(bits, ser);
  }
}
