/** Encoding and decoding: `encode` concatenates the code of every character
    of the text in order, and `decode` walks the tree bit by bit from the root,
    emitting a leaf's symbol and returning to the root whenever it reaches one. */
module Codec {
  import opened HuffmanTree
  import opened Codes

  /** `huffmanCode[ch]`: the stored code, or the empty string that
      `operator[]` inserts for a character without an entry. */
  function Lookup(codes: map<char, string>, ch: char): string {
    if ch in codes then codes[ch] else []
  }

  /** The summed code lengths of a multiset of characters, one code per
      occurrence. The element taken first is arbitrary; CostWithout shows
      that the choice does not matter. */
  ghost function Cost(chars: multiset<char>, codes: map<char, string>): int
    decreases |chars|
  {
    if chars == multiset{} then 0
    else
      var ch :| ch in chars;
      |Lookup(codes, ch)| + Cost(chars - multiset{ch}, codes)
  }

  /** Any single occurrence can be split off the cost. */
  lemma {:induction false} CostWithout(chars: multiset<char>, ch: char, codes: map<char, string>)
    requires ch in chars
    ensures Cost(chars, codes) == |Lookup(codes, ch)| + Cost(chars - multiset{ch}, codes)
    decreases |chars|
  {
    var first :| first in chars
      && Cost(chars, codes) == |Lookup(codes, first)| + Cost(chars - multiset{first}, codes);
    if first != ch {
      var both := chars - multiset{first} - multiset{ch};
      assert chars - multiset{first} - multiset{ch} == chars - multiset{ch} - multiset{first};
      CostWithout(chars - multiset{first}, ch, codes);
      CostWithout(chars - multiset{ch}, first, codes);
    }
  }

  /** The bits `encode` produces for `text`: its characters' codes in order.
      When no code is empty, every character contributes at least one bit. */
  function EncodeAll(text: string, codes: map<char, string>): (bits: string)
    ensures (forall c :: c in codes ==> codes[c] != []) && (forall i :: 0 <= i < |text| ==> text[i] in codes)
      ==> |bits| >= |text|
    decreases |text|
  {
    if text == [] then []
    else Lookup(codes, text[0]) + EncodeAll(text[1..], codes)
  }

  /** Encoding distributes over concatenation of texts. */
  lemma {:induction false} EncodeAppend(a: string, b: string, codes: map<char, string>)
    ensures EncodeAll(a + b, codes) == EncodeAll(a, codes) + EncodeAll(b, codes)
    decreases |a|
  {
    if a != [] {
      assert (a + b)[1..] == a[1..] + b;
      EncodeAppend(a[1..], b, codes);
    } else {
      assert a + b == b;
    }
  }

  /** Encoding one more character of the text appends that character's code. */
  lemma EncodeStep(text: string, i: nat, codes: map<char, string>)
    requires i < |text|
    ensures EncodeAll(text[..i + 1], codes) == EncodeAll(text[..i], codes) + Lookup(codes, text[i])
  {
    EncodeAppend(text[..i], [text[i]], codes);
    assert text[..i + 1] == text[..i] + [text[i]];
    assert EncodeAll([text[i]], codes) == Lookup(codes, text[i]) + [];
  }

  /** The encoding loop. Besides the bits it returns the caller's code table
      as `operator[]` leaves it: unchanged entries, plus an empty code for
      every character of the text that had none. */
  method Encode(text: string, codes: map<char, string>) returns (encoded: string, updated: map<char, string>)
    ensures encoded == EncodeAll(text, codes)
    ensures forall c :: c in updated <==> c in codes || c in text
    ensures forall c :: c in codes ==> updated[c] == codes[c]
    ensures forall c :: c in updated && c !in codes ==> updated[c] == []
  {
    encoded := [];
    updated := codes;
    for i := 0 to |text|
      invariant encoded == EncodeAll(text[..i], codes)
      invariant forall c :: c in updated <==> c in codes || c in text[..i]
      invariant forall c :: c in codes ==> updated[c] == codes[c]
      invariant forall c :: c in updated && c !in codes ==> updated[c] == []
    {
      var ch := text[i];
      if ch !in updated {
        updated := updated[ch := []];
      }
      EncodeStep(text, i, codes);
      encoded := encoded + updated[ch];
    }
    assert text[..|text|] == text;
  }

  /** What the decoding loop has produced so far: the symbols it emitted and
      the node its cursor rests on. */
  datatype Progress = Progress(emitted: string, cursor: Tree)

  /** Decoding `bits` with the cursor at `cur`. A '0' moves to the left
      child, any other bit to the right child; on reaching a leaf its symbol
      is emitted and the cursor goes back to the root. The cursor therefore
      always rests on an internal node, and at most one symbol is emitted per
      bit. */
  function DecodeFrom(root: Tree, cur: Tree, bits: string): (r: Progress)
    requires root.Node? && cur.Node?
    ensures r.cursor.Node?
    ensures |r.emitted| <= |bits|
    decreases |bits|
  {
    if bits == [] then Progress([], cur)
    else
      var next := if bits[0] == '0' then cur.left else cur.right;
      if next.Leaf? then
        var rest := DecodeFrom(root, root, bits[1..]);
        Progress([next.ch] + rest.emitted, rest.cursor)
      else
        DecodeFrom(root, next, bits[1..])
  }

  /** The decoding loop. `complete` reports whether the cursor ended back at
      the root, that is, whether the bits ended on a code boundary; trailing
      bits of an unfinished code emit nothing. A root that is a leaf has no
      children to move to, so such a root can only be given no bits. */
  method Decode(bits: string, root: Tree) returns (decoded: string, complete: bool)
    requires root.Node? || bits == []
    ensures bits == [] ==> decoded == [] && complete
    ensures root.Node? ==> decoded == DecodeFrom(root, root, bits).emitted
    ensures root.Node? ==> (complete <==> DecodeFrom(root, root, bits).cursor == root)
  {
    decoded := [];
    var curr := root;
    for i := 0 to |bits|
      invariant root.Node? ==> curr.Node?
      invariant root.Node? ==>
        var rest := DecodeFrom(root, curr, bits[i..]);
        Progress(decoded + rest.emitted, rest.cursor) == DecodeFrom(root, root, bits)
      invariant i == 0 ==> decoded == [] && curr == root
    {
      assert bits[i..][1..] == bits[i + 1..];
      var next := if bits[i] == '0' then curr.left else curr.right;
      if next.Leaf? {
        ghost var rest := DecodeFrom(root, root, bits[i + 1..]);
        assert decoded + ([next.ch] + rest.emitted) == decoded + [next.ch] + rest.emitted;
        decoded := decoded + [next.ch];
        curr := root;
      } else {
        curr := next;
      }
    }
    assert bits[|bits|..] == [];
    complete := curr == root;
  }

  /** Bits that walk from the cursor to a leaf emit that leaf's symbol and
      leave decoding of what follows to start afresh at the root. */
  lemma {:induction false} DecodeLeafPath(root: Tree, cur: Tree, p: string, c: char, rest: string)
    requires root.Node? && cur.Node? && ReachesLeaf(cur, p, c)
    ensures var after := DecodeFrom(root, root, rest);
      DecodeFrom(root, cur, p + rest) == Progress([c] + after.emitted, after.cursor)
    decreases |p|
  {
    assert p != [];
    assert (p + rest)[0] == p[0] && (p + rest)[1..] == p[1..] + rest;
    var next := if p[0] == '0' then cur.left else cur.right;
    assert Walk(cur, p) == Walk(next, p[1..]);
    if next.Node? {
      DecodeLeafPath(root, next, p[1..], c, rest);
    } else {
      assert p[1..] == [];
      assert p[1..] + rest == rest;
    }
  }

  /** Bits that walk from the cursor to an internal node emit nothing and
      leave the cursor on that node. */
  lemma {:induction false} DecodeNodePath(root: Tree, cur: Tree, p: string)
    requires root.Node? && cur.Node? && ReachesNode(cur, p)
    ensures DecodeFrom(root, cur, p) == Progress([], Walk(cur, p).value)
    decreases |p|
  {
    if p != [] {
      var next := if p[0] == '0' then cur.left else cur.right;
      assert Walk(cur, p) == Walk(next, p[1..]);
      DecodeNodePath(root, next, p[1..]);
    }
  }

  /** Every code in `codes` walks from the root to a leaf labelled with
      the code's symbol. */
  ghost predicate PathCodes(root: Tree, codes: map<char, string>) {
    forall c :: c in codes ==> ReachesLeaf(root, codes[c], c)
  }

  /** The codes generated from the root are such paths. */
  lemma GeneratedCodesArePaths(root: Tree)
    ensures PathCodes(root, GenerateCodes(root, ""))
  {
    var codes := GenerateCodes(root, "");
    forall c | c in codes ensures ReachesLeaf(root, codes[c], c) {
      assert codes[c][0..] == codes[c];
    }
  }

  /** Decoding the encoding of a text, followed by any further bits, yields
      the text and then whatever the further bits decode to. */
  lemma {:induction false} DecodeEncoded(root: Tree, codes: map<char, string>, text: string, rest: string)
    requires root.Node? && PathCodes(root, codes)
    requires forall i :: 0 <= i < |text| ==> text[i] in codes
    ensures var after := DecodeFrom(root, root, rest);
      DecodeFrom(root, root, EncodeAll(text, codes) + rest) == Progress(text + after.emitted, after.cursor)
    decreases |text|
  {
    var after := DecodeFrom(root, root, rest);
    if text == [] {
      assert EncodeAll(text, codes) + rest == rest;
    } else {
      var code := codes[text[0]];
      var tail := EncodeAll(text[1..], codes) + rest;
      assert EncodeAll(text, codes) + rest == code + tail;
      DecodeLeafPath(root, root, code, text[0], tail);
      DecodeEncoded(root, codes, text[1..], rest);
      ConsAppend(text, after.emitted);
    }
  }

  /** Re-attaching the first element of a non-empty sequence. */
  lemma ConsAppend(s: string, t: string)
    requires s != []
    ensures [s[0]] + (s[1..] + t) == s + t
  {
    assert s == [s[0]] + s[1..];
  }

  /** Round trip: decoding the encoding of a text whose characters all have
      codes gives back the text, with the cursor back at the root. */
  lemma RoundTrip(root: Tree, text: string)
    requires root.Node?
    requires forall i :: 0 <= i < |text| ==> text[i] in GenerateCodes(root, "")
    ensures DecodeFrom(root, root, EncodeAll(text, GenerateCodes(root, ""))) == Progress(text, root)
  {
    var codes := GenerateCodes(root, "");
    var encoded := EncodeAll(text, codes);
    GeneratedCodesArePaths(root);
    DecodeEncoded(root, codes, text, []);
    assert encoded + [] == encoded;
    assert text + [] == text;
  }

  /** A stream cut off inside a code decodes every complete code before the
      cut, emits nothing for the unfinished one, and is reported incomplete:
      its cursor rests on an internal node strictly below the root. */
  lemma Truncated(root: Tree, text: string, c: char, k: nat)
    requires root.Node?
    requires forall i :: 0 <= i < |text| ==> text[i] in GenerateCodes(root, "")
    requires c in GenerateCodes(root, "") && 0 < k < |GenerateCodes(root, "")[c]|
    ensures var codes := GenerateCodes(root, "");
      var r := DecodeFrom(root, root, EncodeAll(text, codes) + codes[c][..k]);
      r.emitted == text && r.cursor != root
  {
    var codes := GenerateCodes(root, "");
    var partial := codes[c][..k];
    GeneratedCodesArePaths(root);
    PrefixOfLeafPathIsNode(root, codes[c], c, k);
    DecodeEncoded(root, codes, text, partial);
    DecodeNodePath(root, root, partial);
    WalkDescends(root, partial);
    assert text + [] == text;
  }

  /** The length of an encoding is the sum of the code lengths of the text's
      characters, one per occurrence, whatever their order. */
  lemma {:induction false} EncodeLength(text: string, codes: map<char, string>)
    ensures |EncodeAll(text, codes)| == Cost(multiset(text), codes)
    decreases |text|
  {
    if text != [] {
      EncodeLength(text[1..], codes);
      assert text == [text[0]] + text[1..];
      CostWithout(multiset(text), text[0], codes);
      assert multiset(text) - multiset{text[0]} == multiset(text[1..]);
    }
  }

  /** Every bit path from the root to a leaf is the code of that leaf's symbol. */
  ghost predicate LeafPathsCoded(root: Tree, codes: map<char, string>) {
    forall q, c :: IsBits(q) && ReachesLeaf(root, q, c) ==> c in codes && codes[c] == q
  }

  /** The other half of the decoder's end condition: bits that bring the
      cursor from the node reached by `q` back to the root are exactly the
      rest of a sequence of whole codes, namely the codes of what they emit,
      after `q`. */
  lemma {:induction false} CompleteFrom(root: Tree, codes: map<char, string>, q: string, cur: Tree, bits: string)
    requires root.Node? && cur.Node? && LeafPathsCoded(root, codes)
    requires IsBits(q) && IsBits(bits) && Walk(root, q) == Some(cur)
    requires DecodeFrom(root, cur, bits).cursor == root
    ensures q + bits == EncodeAll(DecodeFrom(root, cur, bits).emitted, codes)
    decreases |bits|
  {
    if bits == [] {
      if q != [] {
        WalkDescends(root, q);
      }
      assert q + bits == [];
    } else {
      BitsTail(bits);
      var bit := bits[0];
      var next := if bit == '0' then cur.left else cur.right;
      var q' := q + [bit];
      WalkExtend(root, q, bit);
      BitsSnoc(q, bit);
      SplitFirst(q, bits);
      if next.Leaf? {
        var rest := DecodeFrom(root, root, bits[1..]);
        assert IsBits([]) && Walk(root, []) == Some(root);
        CompleteFrom(root, codes, [], root, bits[1..]);
        assert [] + bits[1..] == bits[1..];
        assert ReachesLeaf(root, q', next.ch);
        EncodeCons(next.ch, rest.emitted, codes);
      } else {
        CompleteFrom(root, codes, q', next, bits[1..]);
      }
    }
  }

  /** Appending a bit to a bit string gives a bit string. */
  lemma BitsSnoc(q: string, bit: char)
    requires IsBits(q) && (bit == '0' || bit == '1')
    ensures IsBits(q + [bit])
  {
    forall i | 0 <= i < |q + [bit]| ensures (q + [bit])[i] == '0' || (q + [bit])[i] == '1' {
      if i < |q| {
        assert (q + [bit])[i] == q[i];
      }
    }
  }

  /** Encoding a character in front of a text puts its code in front. */
  lemma EncodeCons(ch: char, text: string, codes: map<char, string>)
    ensures EncodeAll([ch] + text, codes) == Lookup(codes, ch) + EncodeAll(text, codes)
  {
    assert ([ch] + text)[0] == ch && ([ch] + text)[1..] == text;
  }

  /** In a tree with distinct symbols, a bit string that decodes from the root
      and ends back at the root is exactly the encoding of what it decodes
      to: the decoder reports `complete` only for a clean run of codes. */
  lemma CompleteIsEncoding(root: Tree, bits: string)
    requires root.Node? && UniqueSymbols(root) && IsBits(bits)
    requires DecodeFrom(root, root, bits).cursor == root
    ensures bits == EncodeAll(DecodeFrom(root, root, bits).emitted, GenerateCodes(root, ""))
  {
    var codes := GenerateCodes(root, "");
    forall q, c | IsBits(q) && ReachesLeaf(root, q, c) ensures c in codes && codes[c] == q {
      LeafPathIsCode(root, "", q, c);
      assert "" + q == q;
    }
    assert IsBits([]) && Walk(root, []) == Some(root);
    CompleteFrom(root, codes, [], root, bits);
    assert [] + bits == bits;
  }

  /** Every symbol decoding emits, from a node reached from the root, is a
      symbol of the tree. */
  lemma {:induction false} EmittedAreSymbols(root: Tree, q: string, cur: Tree, bits: string)
    requires root.Node? && cur.Node? && Walk(root, q) == Some(cur)
    ensures forall c :: c in DecodeFrom(root, cur, bits).emitted ==> c in Symbols(root)
    decreases |bits|
  {
    if bits != [] {
      var bit := bits[0];
      var next := if bit == '0' then cur.left else cur.right;
      WalkExtend(root, q, bit);
      if next.Leaf? {
        ReachedLeafIsSymbol(root, q + [bit], next.ch);
        assert Walk(root, []) == Some(root);
        EmittedAreSymbols(root, [], root, bits[1..]);
      } else {
        EmittedAreSymbols(root, q + [bit], next, bits[1..]);
      }
    }
  }

  /** The decoder's end condition, both ways: over a tree with distinct
      symbols, a bit string leaves the cursor at the root exactly when it is
      the encoding of some text under the generated codes. */
  lemma CompleteIffEncoding(root: Tree, bits: string)
    requires root.Node? && UniqueSymbols(root) && IsBits(bits)
    ensures DecodeFrom(root, root, bits).cursor == root <==>
      exists text :: (forall i :: 0 <= i < |text| ==> text[i] in GenerateCodes(root, ""))
        && bits == EncodeAll(text, GenerateCodes(root, ""))
  {
    var codes := GenerateCodes(root, "");
    if DecodeFrom(root, root, bits).cursor == root {
      var text := DecodeFrom(root, root, bits).emitted;
      CompleteIsEncoding(root, bits);
      EmittedAreSymbols(root, [], root, bits);
      assert forall i :: 0 <= i < |text| ==> text[i] in codes;
    }
    if exists text :: (forall i :: 0 <= i < |text| ==> text[i] in codes) && bits == EncodeAll(text, codes) {
      var text :| (forall i :: 0 <= i < |text| ==> text[i] in codes) && bits == EncodeAll(text, codes);
      RoundTrip(root, text);
    }
  }
}
