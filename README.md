# Huffman coder in Dafny

This project models the `HuffmanTree` class of a small C++ Huffman coder and proves its properties. The class owns three pieces of state:

- the current tree;
- an ordered frequency map from characters to counts;
- a code map from characters to codes.

Its operations are:

- counting character frequencies;
- building the tree greedily from a min-priority queue, with a one-child root when there is one distinct character;
- deriving codes from root-to-leaf paths ('0' for left, '1' for right);
- compressing a text into a string of '0'/'1' characters;
- serialising the tree in post-order ('L' then the character for a leaf, 'B' for an internal node);
- decompressing: the tree is rebuilt from its serialisation with a forward stack scan, then walked bit by bit.

The modules split the class's operations by concern:

- `Trees`: tree nodes. `Nil` is a null child. A leaf has two `Nil` children. Also shape predicates and counts.
- `Sums`: sums over the distinct characters of a text, and over its positions.
- `Frequency`: the frequency map of a text, and its total.
- `Queue`: the priority queue, seen as a sequence of trees with a minimum-weight search and a removal.
- `Building`: what tree construction guarantees (`BuiltFrom`) and the invariants of its two loops.
- `Codes`: the code map, encoding, and the decoding walk.
- `Serial`: post-order serialisation and the stack scan that rebuilds a tree.
- `Huffman`: the `HuffmanTree` class (state and methods), the loops of compress and decompress, and the round-trip theorems.

The frequency map's key order and the queue's tie-breaking are not fixed. The model proves shape, weight, prefix-freedom and round-trip properties, which hold for every order and every tie-break. It does not prove exact bit patterns.

The code reports no error for a malformed serialisation, a bit string that ends mid-path, or a step to an absent child. It skips, truncates or stops. The model does the same, and lemmas state each of these tolerances.

With one distinct symbol the round trip loses the text; see "## Findings". Tree building's own special case for one symbol (HuffmanTree.cpp:46-56) shows the intended behaviour.

## Model

| member | source | states |
|---|---|---|
| Huffman.HuffmanTree.constructor | HuffmanTree.cpp:4-5 | A new coder has no tree and empty frequency and code maps. |
| Huffman.HuffmanTree.BuildFrequencyMap | HuffmanTree.cpp:22-29 | The old map is discarded. The new map equals the frequency map of the text. |
| Frequency.Frequencies | HuffmanTree.cpp:22-29 | The keys are exactly the distinct characters of the text. Each count is between 1 and the text length. |
| Frequency.FrequenciesSnoc | HuffmanTree.cpp:26-28 | Counting one more character adds one to its entry. An absent entry counts from 0. |
| Frequency.TotalIsLength | HuffmanTree.cpp:22-29 | The counts of the frequency map sum to the length of the text. |
| Queue.Min | HuffmanTree.cpp:60-65 | Returns the index of an element whose weight is no larger than any other element's. |
| Queue.RemoveAt | HuffmanTree.cpp:60-65 | Removing an element shrinks the queue by one and adds no tree. |
| Queue.ForestRemoveAt | HuffmanTree.cpp:60-65 | Removing an element takes exactly its leaf symbols and its weight out of the queue. |
| Queue.ForestConcat | HuffmanTree.cpp:40-43 | Adding trees to the queue adds exactly their leaf symbols and weights. |
| Building.SeedStep | HuffmanTree.cpp:40-43 | Inserting the leaf of one more map entry keeps the seeding invariant: every symbol and count is either queued or still pending, exactly once. |
| Building.SeedDone | HuffmanTree.cpp:40-56 | After seeding there is one leaf per entry. With one entry, the one-child root over that leaf satisfies `BuiltFrom`. Otherwise the merge invariant holds. |
| Building.SeedSingle | HuffmanTree.cpp:46-56 | With one entry, the queued tree is that entry's leaf with its count. The root over it, with the leaf's weight and no right child, satisfies `BuiltFrom`. |
| Building.Merge | HuffmanTree.cpp:59-75 | One merge shrinks the queue by one, so the merge loop ends. |
| Building.MergeForest | HuffmanTree.cpp:59-75 | A merge keeps the queue's leaf symbols and its total weight. |
| Building.MergeGood | HuffmanTree.cpp:66-71 | A new node over two full, weighted trees is full and weighted. |
| Building.MergeStep | HuffmanTree.cpp:59-75 | A merge of any two queued trees keeps the invariant: full weighted trees that hold every symbol once and weigh the total. |
| Building.MergeDone | HuffmanTree.cpp:78-81 | The last tree left from two or more entries satisfies `BuiltFrom`: full, leaves exactly the entries with their counts, internal weights the sum of the children, root weight the total. |
| Huffman.HuffmanTree.BuildTree | HuffmanTree.cpp:32-82 | The new root satisfies `BuiltFrom` for the frequency map. An empty map gives no tree. One entry gives the one-child root. Two or more give a full tree. |
| Huffman.HuffmanTree.BuildCodeMap | HuffmanTree.cpp:85-98 | Adds to the code map the path code of every leaf below the node, extending the given prefix. |
| Codes.CodeMap | HuffmanTree.cpp:85-98 | Every code in the map extends the given prefix. |
| Codes.CodeLeadsToLeaf | HuffmanTree.cpp:85-98 | Every code extends its prefix. Following it from the node leads to a leaf holding that symbol. |
| Codes.CodeMapKeys | HuffmanTree.cpp:85-98 | The code map has a code for exactly the symbols at the leaves. |
| Codes.PrefixFreeCodes | HuffmanTree.cpp:85-98 | No symbol's code is a prefix of another symbol's code. |
| Codes.CodesNonEmpty | HuffmanTree.cpp:85-98 | Below a root that is not a leaf, every code is non-empty. |
| Huffman.BuiltCodes | HuffmanTree.cpp:85-98 | A built tree has one non-empty, prefix-free code per frequency-map entry. |
| Huffman.SingleSymbolCode | HuffmanTree.cpp:46-56 | With one distinct symbol, the tree is a root over that symbol's leaf and no right child, and the code map is that symbol mapped to "0". |
| Huffman.HuffmanTree.Compress | HuffmanTree.cpp:101-123 | An empty text gives an empty result and leaves all state unchanged. Otherwise: the frequency map is the text's; the root satisfies `BuiltFrom` and weighs the text length; the code map is the tree's, prefix-free, with non-empty codes for exactly the text's symbols; the result is the encoding, whose length is each symbol's count times its code length, summed. |
| Huffman.CompressedTree | HuffmanTree.cpp:101-123 | The tree built from a non-empty text weighs its length. Its codes are non-empty and prefix-free, one per distinct symbol. |
| Huffman.EncodeText | HuffmanTree.cpp:118-122 | The compress loop returns the concatenation of the symbols' codes, in order. |
| Codes.Encode | HuffmanTree.cpp:118-121 | When every character of the text has a non-empty code, the encoding is at least as long as the text. |
| Codes.EncodeSnoc | HuffmanTree.cpp:119-121 | Encoding one more character appends exactly its code. |
| Codes.EncodeLength | HuffmanTree.cpp:119-121 | The encoded length is the sum of the code lengths over the text's positions. |
| Codes.EncodedSize | HuffmanTree.cpp:119-121 | The encoded length is, summed over the distinct symbols, the count times the code length. |
| Serial.Serialize | HuffmanTree.cpp:127-143 | The serialisation's length is twice the number of leaves plus the number of internal nodes. |
| Trees.FullLeafCount | HuffmanTree.cpp:59-75 | A full tree, such as one built by merging, has one more leaf than it has internal nodes. |
| Trees.LeafSymbolsCount | HuffmanTree.cpp:40-75 | A tree's leaf symbols, counted with repetition, are as many as its leaves. |
| Trees.Unweighted | HuffmanTree.cpp:164-187 | The weightless copy of a tree is present, and a leaf, exactly when the tree is. No node of it carries a weight, and no internal node a symbol. |
| Huffman.BuiltSerializedLength | HuffmanTree.cpp:32-82 | A tree built from n entries serialises to 3n - 1 characters when n is at least 2, and to 3 characters ('L', symbol, 'B') when n is 1. |
| Huffman.HuffmanTree.SerializeTree | HuffmanTree.cpp:146-150 | The serialisation of the current tree is twice its leaves plus its internal nodes long, and it is empty exactly when there is no tree. |
| Serial.Scan | HuffmanTree.cpp:164-187 | The stack scan grows the stack by at most one tree per two characters read. A stack of present, weightless trees stays so. |
| Serial.Rebuild | HuffmanTree.cpp:164-193 | The rebuilt tree, the top of the scan or no tree, is weightless. |
| Serial.RebuildRepaired | HuffmanTree.cpp:173-193 | The repaired rebuild also gives a weightless tree. |
| Serial.ScanSerialized | HuffmanTree.cpp:164-187 | Scanning a full tree's serialisation pushes the weightless copy of that tree. This holds whatever is already stacked and whatever follows, even when a leaf's symbol is 'L' or 'B'. |
| Serial.RebuildSerialized | HuffmanTree.cpp:164-193 | Rebuilding a full tree's serialisation gives back its shape and leaf symbols, with all weights 0. |
| Serial.RebuildTolerates | HuffmanTree.cpp:164-187 | After any full subtree, a character that is neither 'L' nor 'B' is skipped, whatever is stacked and whatever follows, in both scans. A 'B' over one stacked node is skipped. The rebuild ignores a trailing 'L', a trailing 'B', a trailing non-marker and a leading 'B'. |
| Serial.RebuildOneChildRoot | HuffmanTree.cpp:173-186 | A one-child root serialises as 'L', its symbol, 'B'. The rebuild ignores that 'B' and returns the bare leaf. The repaired scan returns the one-child root. |
| Huffman.ScanStack | HuffmanTree.cpp:164-187 | The stack loop of decompress computes the stack scan of the serialisation. |
| Huffman.Walk | HuffmanTree.cpp:196-222 | The bit loop of decompress computes the decoding walk from the root. |
| Huffman.Decompressed | HuffmanTree.cpp:153-225 | The result of decompress is no longer than the bits, and the tree it rebuilds is weightless. |
| Huffman.DecompressedRepaired | HuffmanTree.cpp:153-225 | The result of the repaired decompress is no longer than the bits. |
| Huffman.HuffmanTree.Decompress | HuffmanTree.cpp:153-225 | The old tree is discarded. An empty argument gives no tree and an empty result. Otherwise the root is the top of the rebuilt stack, and the result is the decoding walk of the bits against it. |
| Codes.Decode | HuffmanTree.cpp:196-222 | The decoding walk emits at most one symbol per bit. |
| Codes.DecodePath | HuffmanTree.cpp:199-221 | Walking a path that ends at a leaf emits that leaf's symbol and restarts at the root for the remaining bits. |
| Codes.DecodeEncodeWith | HuffmanTree.cpp:196-222 | For any code table whose codes are non-empty and lead to leaves holding their symbols, decoding the encoding of a text gives the text back and then decodes the bits that follow. |
| Codes.DecodeEncode | HuffmanTree.cpp:196-222 | For a tree whose root is not a leaf, decoding the encoding of a text gives the text back and then decodes the bits that follow. |
| Codes.DecodePartialPath | HuffmanTree.cpp:196-222 | Bits that stop partway down a path emit nothing. |
| Codes.DecodeDropsPartialTail | HuffmanTree.cpp:196-222 | An encoded text followed by a partial path decodes to the text: the partial path is silently dropped. |
| Codes.DecodeStopsAtAbsentChild | HuffmanTree.cpp:213-215 | After an encoded text, a bit that steps from the root to an absent child ends decoding with the text decoded so far. |
| Codes.DecodeReadsNonZeroAsOne | HuffmanTree.cpp:206-210 | Every bit other than '0' is read as '1'. |
| Codes.CodeMapUnweighted | HuffmanTree.cpp:85-98 | Dropping the weights changes no code. |
| Huffman.DecodeUnweighted | HuffmanTree.cpp:196-222 | Decoding against the weightless copy of a tree reads back any text encoded with that tree's codes. |
| Huffman.RoundTrip | HuffmanTree.cpp:101-225 | For the empty text, or a text with at least two distinct symbols, decompressing the compressed bits against the serialised tree gives the text back. |
| Huffman.CompressThenDecompress | HuffmanTree.cpp:101-225 | A whole session (compress, serialise, decompress on one coder) returns the text, for the empty text or at least two distinct symbols. |
| Huffman.SingleSymbolLost | HuffmanTree.cpp:173-186 | With exactly one distinct symbol, the text is non-empty and the round trip returns the empty string. |
| Huffman.FourAs | HuffmanTree.cpp:22-29 | "aaaa" has the single symbol 'a', counted 4 times, and encodes to "0000" under the code 'a' to "0". |
| Huffman.SingleSymbolSession | HuffmanTree.cpp:101-225 | The session on "aaaa" gives the bits "0000" and the tree "LaB", and decompresses to "". |
| Huffman.RoundTripRepaired | HuffmanTree.cpp:173-186 | With the repaired scan, the round trip returns every text, including one with a single distinct symbol. |
| Huffman.HuffmanTree.DecompressRepaired | HuffmanTree.cpp:153-225 | Decompress with the repaired scan: root and result are those of the repaired rebuild. |
| Huffman.CompressThenDecompressRepaired | HuffmanTree.cpp:101-225 | With the repaired decompress, a whole session returns every text. |

## Left out

- The priority queue's heap layout and its comparator are not part of this model. The queue is a sequence, and a removal takes the first minimum-weight element. Any tie-break gives a tree with the proved properties.
- The key order of the frequency map is not modelled. Seeding takes the pending keys in an arbitrary order, and the contracts hold for every order.
- `destroyTree` and the manual `new`/`delete` are not modelled. Trees are values, so discarding the tree is `root := Nil`. Nodes leaked when several trees stay on the stack have no counterpart.
- `rebuildTree`, declared in HuffmanTree.hpp, is never defined or called, so it is not modelled.
- The `HuffmanTreeBase` interface is only virtual dispatch. HuffmanBase.hpp is not part of this model.
- Weights are unbounded `nat`. `unsigned` wrap-around of a combined weight is not modelled; it needs more than 4294967295 input characters.
- Huffman optimality (the smallest sum of count times code length) is not proved. `Huffman.HuffmanTree.Compress` states the encoded length as that sum for the built tree, not its minimality.
- The loops at the end of compress and inside decompress are the methods `EncodeText`, `ScanStack` and `Walk`, which the class's methods call.
- `codeMap[c]` in compress inserts an empty code for a missing key. Every character of the text has a code, so that insertion never happens; `Lookup` reads a missing key as "".
- `char` is modelled as Dafny's `char`. Signedness and byte values above 127 play no role.

## Findings

| source | as written | input that shows it | evidently intended | confidence | as-written member | corrected member |
|---|---|---|---|---|---|---|
| HuffmanTree.cpp:173-186 | A 'B' over fewer than two stacked nodes is skipped. The single-symbol tree serialises as 'L', the symbol, 'B', so the rebuild drops the one-child root and returns the bare leaf. Its first bit then steps to an absent child, and nothing is decoded. | "aaaa": compress gives "0000", the tree serialises to "LaB", and decompress returns "" | Decompress returns "aaaa": a 'B' over exactly one node rebuilds the one-child root that tree building made for one symbol (HuffmanTree.cpp:46-56) | high; proved, not executed | Huffman.SingleSymbolLost | Huffman.RoundTripRepaired |
