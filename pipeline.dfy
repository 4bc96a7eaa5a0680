/** The body of `main`: count the text's characters, build the tree, derive
    the codes, encode the text and decode the result. Also the one-symbol
    case, where the program as written loses the text, and a corrected
    convention under which every non-empty text survives the round trip. */
module Pipeline {
  import opened HuffmanTree
  import opened Frequency
  import opened Builder
  import opened Codes
  import opened Codec

  /** A tree whose leaves are exactly the keys of a table, once each, has
      distinct symbols. */
  lemma DistinctLeaves(t: Tree, table: map<char, int>)
    requires multiset(Symbols(t)) == multiset(table.Keys)
    ensures UniqueSymbols(t)
  {
    forall c ensures multiset(Symbols(t))[c] <= 1 {
      assert multiset(table.Keys)[c] == if c in table.Keys then 1 else 0;
    }
  }

  /** In a tree built from a table, every root-to-leaf path of bits is the
      code generated for that leaf's symbol. */
  lemma BuiltCodesAreLeafPaths(root: Tree, table: map<char, int>, p: string, c: char)
    requires multiset(Symbols(root)) == multiset(table.Keys)
    requires ReachesLeaf(root, p, c) && IsBits(p)
    ensures c in GenerateCodes(root, "") && GenerateCodes(root, "")[c] == p
  {
    DistinctLeaves(root, table);
    LeafPathIsCode(root, "", p, c);
    assert "" + p == p;
  }

  /** A tree holding two different symbols is an internal node. */
  lemma TwoSymbolsMakeNode(t: Tree, a: char, b: char)
    requires a in Symbols(t) && b in Symbols(t) && a != b
    ensures t.Node?
  {
  }

  /** A tree whose leaves are exactly one symbol, once, is that leaf. */
  lemma {:induction false} OneSymbolMakesLeaf(t: Tree, table: map<char, int>, c: char)
    requires multiset(Symbols(t)) == multiset(table.Keys) && AgreesWith(t, table)
    requires table.Keys == {c}
    ensures t == Leaf(c, table[c])
  {
    assert |multiset(Symbols(t))| == |Symbols(t)|;
    assert |multiset(table.Keys)| == 1;
    assert c in multiset(Symbols(t));
  }

  /** The tree built from a text's frequency table holds exactly the text's
      characters, and so do the codes generated from it. */
  lemma TreeCoversText(text: string, table: map<char, int>, root: Tree)
    requires forall c :: c in table <==> c in text
    requires multiset(Symbols(root)) == multiset(table.Keys)
    ensures forall c :: c in Symbols(root) <==> c in text
    ensures forall c :: c in GenerateCodes(root, "") <==> c in text
    ensures forall k :: 0 <= k < |text| ==> text[k] in Symbols(root)
  {
    forall c ensures c in Symbols(root) <==> c in text {
      assert c in multiset(Symbols(root)) <==> c in multiset(table.Keys);
    }
  }

  /** For a text with two distinct characters, the tree built from its table
      is an internal node, and decoding the encoding gives back the text. */
  lemma BuiltRoundTrip(text: string, table: map<char, int>, root: Tree)
    requires exists i, j :: 0 <= i < j < |text| && text[i] != text[j]
    requires forall c :: c in table <==> c in text
    requires multiset(Symbols(root)) == multiset(table.Keys)
    ensures root.Node? && UniqueSymbols(root)
    ensures forall c :: c in Symbols(root) <==> c in text
    ensures forall c :: c in GenerateCodes(root, "") <==> c in text
    ensures DecodeFrom(root, root, EncodeAll(text, GenerateCodes(root, ""))) == Progress(text, root)
  {
    var i, j :| 0 <= i < j < |text| && text[i] != text[j];
    DistinctLeaves(root, table);
    TreeCoversText(text, table, root);
    TwoSymbolsMakeNode(root, text[i], text[j]);
    RoundTrip(root, text);
  }

  /** The program as written, on a text with at least two distinct
      characters: the tree's leaves are the text's distinct characters, once
      each, and its weight is the text's length; the codes are the tree's
      paths and cover every character of the text; the encoded bits are the
      text's codes in order, their length the summed code length of the
      text's characters; and decoding gives back the text with the cursor on
      a code boundary. */
  method HuffmanCoding(text: string)
    returns (root: Tree, codes: map<char, string>, encoded: string, decoded: string, complete: bool)
    requires exists i, j :: 0 <= i < j < |text| && text[i] != text[j]
    ensures root.freq == |text| && WellFormed(root)
    ensures UniqueSymbols(root) && forall c :: c in Symbols(root) <==> c in text
    ensures codes == GenerateCodes(root, "")
    ensures forall c :: c in codes <==> c in text
    ensures encoded == EncodeAll(text, codes)
    ensures |encoded| == Cost(multiset(text), codes)
    ensures decoded == text && complete
  {
    var table := CountFrequencies(text);
    assert text[0] in table;
    root := BuildHuffmanTree(table);
    BuiltRoundTrip(text, table, root);
    codes := GenerateCodes(root, "");
    var updated;
    encoded, updated := Encode(text, codes);
    EncodeLength(text, codes);
    decoded, complete := Decode(encoded, root);
  }

  /** On a text made of one repeated symbol the tree built from its
      frequency table is a single leaf, whose code as written is the empty
      path: every such text encodes to no bits at all, so decoding (which
      emits nothing for no bits) cannot give it back. */
  lemma SingleSymbolLosesText(text: string, c: char, table: map<char, int>, root: Tree)
    requires text != [] && forall i :: 0 <= i < |text| ==> text[i] == c
    requires forall x :: x in table <==> x in text
    requires multiset(Symbols(root)) == multiset(table.Keys) && AgreesWith(root, table)
    ensures c in table && root == Leaf(c, table[c])
    ensures GenerateCodes(root, "") == map[c := []]
    ensures EncodeAll(text, GenerateCodes(root, "")) == []
  {
    assert text[0] in table;
    assert table.Keys == {c};
    OneSymbolMakesLeaf(root, table, c);
    var codes := GenerateCodes(root, "");
    assert codes == map[c := []];
    AllEmptyCodes(text, codes);
  }

  /** The program as written, run on a non-empty text of one repeated
      symbol: the bits are empty and decoding returns the empty string, which
      is not the text. */
  method OneSymbolHuffmanCoding(text: string, c: char)
    returns (root: Tree, codes: map<char, string>, encoded: string, decoded: string, complete: bool)
    requires text != [] && forall i :: 0 <= i < |text| ==> text[i] == c
    ensures root == Leaf(c, |text|) && codes == map[c := []]
    ensures encoded == [] && decoded == [] && decoded != text
  {
    var table := CountFrequencies(text);
    assert text[0] in table;
    root := BuildHuffmanTree(table);
    SingleSymbolLosesText(text, c, table, root);
    codes := GenerateCodes(root, "");
    var updated;
    encoded, updated := Encode(text, codes);
    decoded, complete := Decode(encoded, root);
  }

  /** Characters whose codes are all empty encode to nothing. */
  lemma {:induction false} AllEmptyCodes(text: string, codes: map<char, string>)
    requires forall i :: 0 <= i < |text| ==> Lookup(codes, text[i]) == []
    ensures EncodeAll(text, codes) == []
    decreases |text|
  {
    if text != [] {
      AllEmptyCodes(text[1..], codes);
    }
  }

  /** The corrected code table: a tree that is a single leaf gives its symbol
      the one-bit code "0"; any other tree gets the generated codes. Every
      symbol of the tree has a code, and no code is empty. */
  function CorrectedCodes(root: Tree): (codes: map<char, string>)
    ensures forall c :: c in codes <==> c in Symbols(root)
    ensures forall c :: c in codes ==> codes[c] != []
  {
    if root.Leaf? then map[root.ch := "0"] else GenerateCodes(root, "")
  }

  /** Corrected decoding, as a function: with a single-leaf tree every bit
      stands for one occurrence of its symbol and the cursor stays at the
      root; otherwise decoding is unchanged. */
  function CorrectedDecoding(root: Tree, bits: string): (r: Progress)
    ensures |r.emitted| <= |bits|
    ensures root.Leaf? ==> r.cursor == root && forall i :: 0 <= i < |r.emitted| ==> r.emitted[i] == root.ch
  {
    if root.Leaf? then Progress(seq(|bits|, _ => root.ch), root)
    else DecodeFrom(root, root, bits)
  }

  /** The corrected decoding loop: on a single-leaf tree it emits the symbol
      once per bit, otherwise it is the loop as written. */
  method CorrectedDecode(bits: string, root: Tree) returns (decoded: string, complete: bool)
    ensures decoded == CorrectedDecoding(root, bits).emitted
    ensures complete <==> CorrectedDecoding(root, bits).cursor == root
  {
    if root.Leaf? {
      decoded := [];
      for i := 0 to |bits|
        invariant decoded == seq(i, _ => root.ch)
      {
        decoded := decoded + [root.ch];
      }
      complete := true;
    } else {
      decoded, complete := Decode(bits, root);
    }
  }

  /** A text of one repeated symbol encodes, under the one-bit code, to one
      bit per character. */
  lemma {:induction false} OneBitPerSymbol(text: string, c: char)
    requires forall i :: 0 <= i < |text| ==> text[i] == c
    ensures |EncodeAll(text, map[c := "0"])| == |text|
    decreases |text|
  {
    if text != [] {
      OneBitPerSymbol(text[1..], c);
    }
  }

  /** With the corrected codes and decoding, every text over the tree's
      symbols survives the round trip, single-leaf trees included. */
  lemma CorrectedRoundTrip(root: Tree, text: string)
    requires forall i :: 0 <= i < |text| ==> text[i] in Symbols(root)
    ensures CorrectedDecoding(root, EncodeAll(text, CorrectedCodes(root))) == Progress(text, root)
  {
    if root.Leaf? {
      OneBitPerSymbol(text, root.ch);
      var r := CorrectedDecoding(root, EncodeAll(text, CorrectedCodes(root)));
      assert r.emitted == text;
    } else {
      RoundTrip(root, text);
    }
  }

  /** For any non-empty text, the corrected codes of the tree built from its
      table cover exactly the text's characters, and the corrected decoding
      of the encoding gives back the text. */
  lemma BuiltCorrectedRoundTrip(text: string, table: map<char, int>, root: Tree)
    requires forall c :: c in table <==> c in text
    requires multiset(Symbols(root)) == multiset(table.Keys)
    ensures UniqueSymbols(root) && forall c :: c in Symbols(root) <==> c in text
    ensures forall c :: c in CorrectedCodes(root) <==> c in text
    ensures CorrectedDecoding(root, EncodeAll(text, CorrectedCodes(root))) == Progress(text, root)
  {
    DistinctLeaves(root, table);
    TreeCoversText(text, table, root);
    CorrectedRoundTrip(root, text);
  }

  /** The program with the corrected single-symbol convention: every
      non-empty text comes back from decoding, on a code boundary. */
  method CorrectedHuffmanCoding(text: string)
    returns (root: Tree, codes: map<char, string>, encoded: string, decoded: string, complete: bool)
    requires text != []
    ensures root.freq == |text| && WellFormed(root)
    ensures UniqueSymbols(root) && forall c :: c in Symbols(root) <==> c in text
    ensures codes == CorrectedCodes(root)
    ensures forall c :: c in codes <==> c in text
    ensures forall c :: c in codes ==> codes[c] != []
    ensures encoded == EncodeAll(text, codes)
    ensures |encoded| == Cost(multiset(text), codes)
    ensures decoded == text && complete
  {
    var table := CountFrequencies(text);
    assert text[0] in table;
    root := BuildHuffmanTree(table);
    BuiltCorrectedRoundTrip(text, table, root);
    codes := CorrectedCodes(root);
    var updated;
    encoded, updated := Encode(text, codes);
    EncodeLength(text, codes);
    decoded, complete := CorrectedDecode(encoded, root);
    CorrectedRoundTrip(root, text);
  }
}
