/** The code table: `generateCodes` walks the tree, appending '0' on the way
    to a left child and '1' on the way to a right child, and records the path
    that led to each leaf. The caller's map becomes the function's result; the
    recursive call on the right subtree writes after the left one, so on a
    symbol that labels leaves on both sides the right-hand entry wins. */
module Codes {
  import opened HuffmanTree

  /** The codes of the leaves of `t`, each prefixed by `path`, the bits that
      led from the root to `t`. Every symbol of the subtree gets an entry, and
      every entry extends `path` by a walk from `t` to a leaf with that symbol;
      below an internal node every code is strictly longer than `path`. */
  function GenerateCodes(t: Tree, path: string): (codes: map<char, string>)
    ensures forall c :: c in codes <==> c in Symbols(t)
    ensures forall c :: c in codes ==>
      path <= codes[c] && ReachesLeaf(t, codes[c][|path|..], c)
    ensures t.Node? ==> forall c :: c in codes ==> |codes[c]| > |path|
  {
    match t
    case Leaf(c, _) =>
      assert path[|path|..] == [];
      map[c := path]
    case Node(_, l, r) =>
      var left := GenerateCodes(l, path + "0");
      var right := GenerateCodes(r, path + "1");
      MergedCodes(t, path, left, right);
      left + right
  }

  /** The parent's table is the union of its children's tables, the right
      one winning; if each child's table has the properties GenerateCodes
      promises, so does the union. */
  lemma MergedCodes(t: Tree, path: string, left: map<char, string>, right: map<char, string>)
    requires t.Node?
    requires forall c :: c in left <==> c in Symbols(t.left)
    requires forall c :: c in right <==> c in Symbols(t.right)
    requires forall c :: c in left ==> path + "0" <= left[c] && ReachesLeaf(t.left, left[c][|path| + 1..], c)
    requires forall c :: c in right ==> path + "1" <= right[c] && ReachesLeaf(t.right, right[c][|path| + 1..], c)
    ensures forall c :: c in left + right <==> c in Symbols(t)
    ensures forall c :: c in left + right ==>
      path <= (left + right)[c] && ReachesLeaf(t, (left + right)[c][|path|..], c)
    ensures forall c :: c in left + right ==> |(left + right)[c]| > |path|
  {
    var codes := left + right;
    forall c | c in codes
      ensures path <= codes[c] && ReachesLeaf(t, codes[c][|path|..], c)
    {
      if c in right {
        StepDown(t, path, '1', codes[c], c);
      } else {
        StepDown(t, path, '0', codes[c], c);
      }
    }
  }

  /** A code that extends `path + [bit]` by a walk from the child on the
      `bit` side extends `path` by a walk from the parent. */
  lemma StepDown(t: Tree, path: string, bit: char, code: string, c: char)
    requires t.Node?
    requires path + [bit] <= code
    requires ReachesLeaf(if bit == '0' then t.left else t.right, code[|path| + 1..], c)
    ensures path <= code && ReachesLeaf(t, code[|path|..], c)
  {
    var rest := code[|path|..];
    assert rest[0] == bit;
    assert rest[1..] == code[|path| + 1..];
  }

  /** The codes from the root form a prefix-free set: no symbol's code is a
      prefix of another symbol's code, and two symbols never share a code. */
  lemma CodesPrefixFree(root: Tree, c: char, d: char)
    requires c in GenerateCodes(root, "") && d in GenerateCodes(root, "")
    requires GenerateCodes(root, "")[c] <= GenerateCodes(root, "")[d]
    ensures c == d
  {
    var codes := GenerateCodes(root, "");
    assert codes[c][0..] == codes[c] && codes[d][0..] == codes[d];
    LeafPathsPrefixFree(root, codes[c], codes[d], c, d);
  }

  /** In a tree whose symbols are distinct, each child's symbols are distinct
      and the two children share no symbol. */
  lemma UniqueChildren(t: Tree)
    requires t.Node? && UniqueSymbols(t)
    ensures UniqueSymbols(t.left) && UniqueSymbols(t.right)
    ensures forall c :: c in Symbols(t.left) ==> c !in Symbols(t.right)
  {
    assert multiset(Symbols(t)) == multiset(Symbols(t.left)) + multiset(Symbols(t.right));
    forall c ensures multiset(Symbols(t.left))[c] <= 1 && multiset(Symbols(t.right))[c] <= 1 {
      assert multiset(Symbols(t))[c] <= 1;
    }
    forall c | c in Symbols(t.left) ensures c !in Symbols(t.right) {
      assert multiset(Symbols(t))[c] <= 1;
    }
  }

  /** A child's entry for a symbol the other child lacks is the parent's entry. */
  lemma ChildEntry(t: Tree, path: string, bit: char, c: char, code: string)
    requires t.Node? && (bit == '0' || bit == '1')
    requires var child := if bit == '0' then t.left else t.right;
      c in GenerateCodes(child, path + [bit]) && GenerateCodes(child, path + [bit])[c] == code
    requires c !in Symbols(if bit == '0' then t.right else t.left)
    ensures c in GenerateCodes(t, path) && GenerateCodes(t, path)[c] == code
  {
    assert path + [bit] == path + (if bit == '0' then "0" else "1");
  }

  /** Removing the first bit of a bit string leaves a bit string. */
  lemma BitsTail(p: string)
    requires IsBits(p) && p != []
    ensures IsBits(p[1..]) && (p[0] == '0' || p[0] == '1')
  {
    forall i | 0 <= i < |p[1..]| ensures p[1..][i] == '0' || p[1..][i] == '1' {
      assert p[1..][i] == p[i + 1];
    }
  }

  /** Moving the first element of `p` onto the end of `path` keeps the concatenation. */
  lemma SplitFirst(path: string, p: string)
    requires p != []
    ensures path + [p[0]] + p[1..] == path + p
  {
    assert p == [p[0]] + p[1..];
  }

  /** When symbols are distinct, the code of a symbol is exactly the walk to
      its leaf: every root-to-leaf path is recorded, under that leaf's symbol. */
  lemma {:induction false} LeafPathIsCode(t: Tree, path: string, p: string, c: char)
    requires UniqueSymbols(t) && ReachesLeaf(t, p, c) && IsBits(p)
    ensures c in GenerateCodes(t, path) && GenerateCodes(t, path)[c] == path + p
    decreases |p|
  {
    if t.Leaf? {
      assert p == [];
      assert path + p == path;
    } else {
      UniqueChildren(t);
      BitsTail(p);
      var bit := p[0];
      var child := if bit == '0' then t.left else t.right;
      assert ReachesLeaf(child, p[1..], c);
      LeafPathIsCode(child, path + [bit], p[1..], c);
      ReachedLeafIsSymbol(child, p[1..], c);
      SplitFirst(path, p);
      ChildEntry(t, path, bit, c, path + p);
    }
  }
}
