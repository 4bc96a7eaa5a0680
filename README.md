# Huffman coding, modelled in Dafny

This project models the Huffman coder in `main.cc`. The program:

1. counts how often each character occurs in a text;
2. builds a Huffman tree by repeatedly merging the two lightest trees of a
   priority queue;
3. derives each character's bit-string code from its path in the tree
   ('0' = left, '1' = right);
4. encodes the text by concatenating the codes;
5. decodes the bits by walking the tree from the root, emitting a leaf's
   character and returning to the root whenever it reaches a leaf.

The model mirrors the source's structure:

- `tree.dfy` (module `HuffmanTree`) turns the pointer-linked `Node` struct
  into a datatype `Tree = Leaf(ch, freq) | Node(freq, left, right)`. It also
  defines paths through the tree (`Walk`).
- `frequency.dfy` (module `Frequency`) holds the counting loop, as a method
  over a `map<char, int>`. `Total` is the sum of the counts.
- `builder.dfy` (module `Builder`) holds `buildHuffmanTree`, as a method with
  two loops: seeding the queue, then merging. The priority queue is a local
  sequence. `pq.top(); pq.pop()` removes a minimum-count tree found by
  scanning with the `Compare` order.
- `codes.dfy` (module `Codes`) holds `generateCodes`, as a recursive function
  returning the code map.
- `codec.dfy` (module `Codec`) holds the `encode` and `decode` loops as
  methods. Each is proved equal to a recursive specification function
  (`EncodeAll`, `DecodeFrom`).
- `pipeline.dfy` (module `Pipeline`) composes the steps the way `main` does.
  It also holds the one-symbol defect and its correction (see Findings).

`Decode` returns a second result, `complete`. It is true when the cursor ends
back at the root, so the caller can tell whether the input stopped inside a
code. The source discards this information. Apart from `complete`, the
decoded text is exactly what the source's loop produces.

## Model

| member | source | states |
|---|---|---|
| Frequency.CountFrequencies | main.cc:112-115 | The table's keys are exactly the characters of the text. Each count is that character's number of occurrences, and is positive. The counts add up to the text's length. |
| Frequency.TotalWithout | main.cc:112-115 | The sum of the counts does not depend on the order in which the entries are taken: any entry can be split off. |
| Builder.MinIndex | main.cc:21-25 | Under the `Compare` order, the chosen queue position holds a tree whose count is no larger than any other's. Every earlier tree is strictly heavier, so among equal counts the earliest is taken. |
| Builder.Without | main.cc:53-54 | Taking one position out of the queue keeps the trees before it in place and moves the trees after it up by one. |
| Builder.PopMin | main.cc:53-54 | `top(); pop()` removes one tree of minimum count. The queue shrinks by one. The rest is the old queue with that one position taken out, in the old order, so the removed tree and the rest together are exactly the old queue. |
| Builder.MergeTwoSmallest | main.cc:52-58 | One merge round. The first tree removed is no heavier than the second, and the second is no heavier than any tree left. The trees left keep their order. Both removed trees are replaced by one node, appended at the end, that owns them and whose count is their sum, so the queue shrinks by exactly one. |
| Builder.MergeStep | main.cc:52-58 | A merge round keeps the loop invariant. The queue's trees hold every table entry exactly once between them, their counts add up to the table's total, and each tree is well formed and agrees with the table. |
| Builder.SeedQueue | main.cc:47-50 | The seeded queue holds one leaf per table entry, carrying that entry's count, in the table's unspecified iteration order. |
| Builder.BuildHuffmanTree | main.cc:43-61 | For a non-empty table, the root's leaves are exactly the table's keys, each once, each carrying its own count. Every internal node's count is the sum of its children's, and the root's count is the table's total. |
| Builder.LastCandidate | main.cc:60 | When the loop leaves one tree in the queue, that tree alone holds the whole table. |
| Codes.GenerateCodes | main.cc:28-40 | Every symbol of the subtree gets a code: the path so far, extended by a walk from the subtree to a leaf with that symbol. Below an internal node every code is strictly longer than the path so far. |
| Codes.CodesPrefixFree | main.cc:28-40 | No code generated from the root is a prefix of the code of a different symbol, so no two symbols share a code. |
| Codes.LeafPathIsCode | main.cc:28-40 | When symbols are distinct, every root-to-leaf bit path is recorded as the code of that leaf's symbol. |
| HuffmanTree.LeafPathsPrefixFree | main.cc:87-90 | A path to a leaf cannot be a proper prefix of another path to a leaf, because the walk stops at the first leaf. |
| Pipeline.DistinctLeaves | main.cc:43-61 | A tree whose leaves are exactly a table's keys has distinct symbols. |
| Pipeline.BuiltCodesAreLeafPaths | main.cc:118-122 | In the tree built from a table, the code of each symbol is exactly the bit path to its leaf. |
| Codec.EncodeAppend | main.cc:64-72 | Encoding distributes over concatenation: the encoding of a text is the codes of its characters, in input order. |
| Codec.Encode | main.cc:64-72 | The loop's output is the characters' codes concatenated in order, with an empty code for a character that has none. The caller's table comes back with its entries unchanged, plus an empty entry for each such character, as `operator[]` leaves it. |
| Codec.EncodeLength | main.cc:64-72 | The encoding's length is the sum of the code lengths of the text's characters, one per occurrence, in any order. |
| Codec.DecodeFrom | main.cc:75-94 | Decoding from an internal node leaves the cursor on an internal node and emits at most one symbol per bit. |
| Codec.Decode | main.cc:75-94 | The loop emits exactly what `DecodeFrom` specifies. `complete` holds iff the cursor ended back at the root. No bits give an empty result that is complete. |
| Codec.DecodeLeafPath | main.cc:87-90 | Bits that walk to a leaf emit that leaf's symbol, and decoding of what follows restarts at the root. |
| Codec.DecodeNodePath | main.cc:80-91 | Bits that walk to an internal node emit nothing and leave the cursor on that node. |
| Codec.DecodeEncoded | main.cc:64-94 | Decoding an encoding followed by further bits yields the text, then whatever the further bits decode to. This holds for any table whose codes are paths to their symbols. |
| Codec.RoundTrip | main.cc:64-94 | Round trip: decoding the encoding of a text over the tree's codes gives back the text, with the cursor at the root. |
| Codec.CompleteFrom | main.cc:75-94 | Bits that bring the cursor from the node reached by a path `q` back to the root are, after `q`, exactly the codes of the symbols they emit. This holds for any table that records every leaf path. |
| Codec.CompleteIsEncoding | main.cc:75-94 | Over a tree with distinct symbols, bits that end with the cursor back at the root are exactly the encoding, under the generated codes, of the text they decode to. |
| Codec.EmittedAreSymbols | main.cc:87-90 | Every symbol the decoder emits is a symbol of the tree. |
| Codec.CompleteIffEncoding | main.cc:64-94 | The end condition, both ways: over a tree with distinct symbols, bits leave the cursor at the root if and only if they are the encoding of some text over the coded symbols. |
| Codec.Truncated | main.cc:75-94 | A stream cut off inside a code decodes every complete code before the cut and emits nothing for the unfinished one. It is reported incomplete, because the cursor rests strictly below the root. |
| Pipeline.BuiltRoundTrip | main.cc:118-136 | For a text with two or more distinct characters, the built tree is an internal node. Its codes cover exactly the text's characters, and decoding the encoding gives back the text. |
| Pipeline.HuffmanCoding | main.cc:109-137 | `main` as written, for a text with two or more distinct characters. The tree is well formed. Its leaves are the text's distinct characters, once each, and the root's count is the text's length. The codes are those generated from the root, and they cover exactly the text's characters. The encoded bits are the text's codes in order, and their length is the summed code length. Decoding gives back the text, ending on a code boundary. |
| Pipeline.OneSymbolMakesLeaf | main.cc:52-60 | A tree whose leaves are exactly the one key of a table, once, and which agrees with the table, is that key's leaf carrying its count. |
| Pipeline.OneSymbolHuffmanCoding | main.cc:109-137 | `main` as written, on a non-empty text of one repeated symbol. The tree is that symbol's leaf and its code is empty. The encoding is empty, and decoding returns the empty string, which is not the text. |
| Pipeline.SingleSymbolLosesText | main.cc:33-35 | For a non-empty text of one repeated symbol, the built tree is a single leaf. Its generated code is empty, and the text encodes to no bits at all. |
| Pipeline.CorrectedCodes | main.cc:28-40 | Corrected code table: every symbol of the tree has a code, and no code is empty. |
| Pipeline.CorrectedDecoding | main.cc:75-94 | Corrected decoding: at most one symbol per bit. With a single-leaf tree, every emitted symbol is that leaf's, and the cursor stays at the root. |
| Pipeline.CorrectedDecode | main.cc:75-94 | The corrected decoding loop emits exactly what `CorrectedDecoding` specifies. It reports completeness the same way as `Decode`. |
| Pipeline.CorrectedRoundTrip | main.cc:64-94 | With the corrected codes and decoding, every text over the tree's symbols survives the round trip, single-leaf trees included. |
| Pipeline.CorrectedHuffmanCoding | main.cc:109-137 | The program with the corrected convention: for every non-empty text, decoding gives back the text and ends on a code boundary. The codes are the corrected codes of the root, and none is empty. The other results are as in `HuffmanCoding`. |

## Left out

- Console output, the ANSI colours, `to_binary` and the compression-ratio
  report are not modelled: they only print.
- Heap allocation and the leaked nodes are not modelled, because the tree is
  a value.
- The `'\0'` character stored in internal nodes is dropped. Internal nodes
  are told apart by their constructor, as the source tells them apart by
  their missing children.
- `std::priority_queue` is modelled as a sequence scanned for a minimum. Its
  heap layout, and the order in which it breaks ties between equal counts,
  are not modelled. The model takes the earliest of equal minima and seeds
  the queue in an arbitrary order, as `unordered_map` iteration is
  unspecified. The contracts of `Builder.BuildHuffmanTree` hold for every
  tree shape these choices produce.
- Optimality of the code (minimal weighted path length) is not stated.
- Counts and sums are unbounded integers: 32-bit `int` overflow on texts
  longer than 2^31 characters is not modelled.
- Builder.BuildHuffmanTree: requires a non-empty table. On an empty table
  the source calls `top()` on an empty priority queue, which is undefined
  behaviour. `main` only builds from a non-empty text.
- Codec.Encode: a character without a code adds no bits, because
  `operator[]` inserts an empty code for it. Having a code for every
  character is a premise of the round-trip lemmas (`Codec.DecodeEncoded`,
  `Codec.RoundTrip`), not a precondition of `Encode`. `Pipeline.HuffmanCoding`
  meets it because the codes come from the text's own tree.
- Codec.Decode: requires an internal-node root unless there are no bits. On
  a single-leaf root with bits to decode, the source dereferences a null
  child. The corrected convention below removes this case.
- Pipeline.HuffmanCoding: requires two or more distinct characters, because
  the as-written program loses a one-symbol text (see Findings).

## Findings

| source | as written | input that shows it | evidently intended | confidence | as-written member | corrected member |
|---|---|---|---|---|---|---|
| main.cc:33-35 | A tree that is a single leaf gives its symbol the empty code, so the text encodes to no bits and decodes to the empty string. | the text "aaa", or any text of one distinct character | The sole symbol gets a one-bit code, and decoding emits it once per bit, so the text survives the round trip. | not executed | Pipeline.OneSymbolHuffmanCoding | Pipeline.CorrectedRoundTrip |
