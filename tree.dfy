/** The Huffman tree: a leaf holds one symbol and its count, an internal node
    holds a combined count and owns exactly two children. The pointer-linked
    `Node` struct becomes an algebraic datatype, so there are no null children
    and an internal node never has exactly one child. */
module HuffmanTree {

  datatype Option<T> = None | Some(value: T)

  datatype Tree =
    | Leaf(ch: char, freq: int)
    | Node(freq: int, left: Tree, right: Tree)

  /** The symbols of the leaves of `t`, from left to right. */
  function Symbols(t: Tree): (s: seq<char>)
    ensures |s| >= 1
    ensures t.Leaf? ==> s == [t.ch]
  {
    match t
    case Leaf(c, _) => [c]
    case Node(_, l, r) => Symbols(l) + Symbols(r)
  }

  /** Every internal node's count is the sum of its children's counts. */
  predicate WellFormed(t: Tree) {
    match t
    case Leaf(_, _) => true
    case Node(f, l, r) => f == l.freq + r.freq && WellFormed(l) && WellFormed(r)
  }

  /** Every leaf carries the count that the frequency table gives its symbol. */
  predicate AgreesWith(t: Tree, table: map<char, int>) {
    match t
    case Leaf(c, f) => c in table && table[c] == f
    case Node(_, l, r) => AgreesWith(l, table) && AgreesWith(r, table)
  }

  /** No symbol labels two leaves. */
  predicate UniqueSymbols(t: Tree) {
    forall c :: multiset(Symbols(t))[c] <= 1
  }

  /** `s` consists of '0' and '1' characters only. */
  predicate IsBits(s: string) {
    forall i :: 0 <= i < |s| ==> s[i] == '0' || s[i] == '1'
  }

  /** The node reached from `t` by following `path` ('0' = left, any other
      bit = right), or None when the path runs past a leaf. */
  function Walk(t: Tree, path: string): Option<Tree>
    decreases |path|
  {
    if path == [] then Some(t)
    else match t
      case Leaf(_, _) => None
      case Node(_, l, r) => Walk(if path[0] == '0' then l else r, path[1..])
  }

  /** `path` leads from `t` to a leaf labelled `c`. */
  predicate ReachesLeaf(t: Tree, path: string, c: char) {
    var w := Walk(t, path);
    w.Some? && w.value.Leaf? && w.value.ch == c
  }

  /** `path` leads from `t` to an internal node: an incomplete code. */
  predicate ReachesNode(t: Tree, path: string) {
    var w := Walk(t, path);
    w.Some? && w.value.Node?
  }

  function Size(t: Tree): nat {
    match t
    case Leaf(_, _) => 1
    case Node(_, l, r) => 1 + Size(l) + Size(r)
  }

  /** Following a non-empty path always ends strictly below the start, so it
      can never lead back to the node it started from. */
  lemma {:induction false} WalkDescends(t: Tree, path: string)
    requires path != [] && Walk(t, path).Some?
    ensures Size(Walk(t, path).value) < Size(t)
    ensures Walk(t, path).value != t
    decreases |path|
  {
    var next := if path[0] == '0' then t.left else t.right;
    if path[1..] != [] {
      WalkDescends(next, path[1..]);
    }
  }

  /** A leaf reached by a path is one of the tree's symbols. */
  lemma {:induction false} ReachedLeafIsSymbol(t: Tree, path: string, c: char)
    requires ReachesLeaf(t, path, c)
    ensures c in Symbols(t)
    decreases |path|
  {
    if path != [] {
      var next := if path[0] == '0' then t.left else t.right;
      ReachedLeafIsSymbol(next, path[1..], c);
    }
  }

  /** Root-to-leaf paths are prefix-free: a path to a leaf cannot be a proper
      prefix of another path to a leaf, because the walk stops at the leaf. */
  lemma {:induction false} LeafPathsPrefixFree(t: Tree, p: string, q: string, c: char, d: char)
    requires ReachesLeaf(t, p, c) && ReachesLeaf(t, q, d)
    requires p <= q
    ensures p == q && c == d
    decreases |p|
  {
    if p != [] {
      assert q[0] == p[0];
      var next := if p[0] == '0' then t.left else t.right;
      assert p[1..] <= q[1..];
      LeafPathsPrefixFree(next, p[1..], q[1..], c, d);
    }
  }

  /** A proper non-empty prefix of a path to a leaf leads to an internal node. */
  lemma {:induction false} PrefixOfLeafPathIsNode(t: Tree, path: string, c: char, k: nat)
    requires ReachesLeaf(t, path, c) && k < |path|
    ensures ReachesNode(t, path[..k])
    decreases k
  {
    var next := if path[0] == '0' then t.left else t.right;
    if k > 0 {
      PrefixOfLeafPathIsNode(next, path[1..], c, k - 1);
      assert path[1..][..k - 1] == path[..k][1..];
    }
  }

  /** One more bit after a path to an internal node leads to that node's
      child on the bit's side. */
  lemma {:induction false} WalkExtend(t: Tree, path: string, bit: char)
    requires ReachesNode(t, path)
    ensures var n := Walk(t, path).value;
      Walk(t, path + [bit]) == Some(if bit == '0' then n.left else n.right)
    decreases |path|
  {
    if path == [] {
      assert path + [bit] == [bit];
      assert [bit][1..] == [];
    } else {
      var next := if path[0] == '0' then t.left else t.right;
      assert (path + [bit])[1..] == path[1..] + [bit];
      WalkExtend(next, path[1..], bit);
    }
  }
}
