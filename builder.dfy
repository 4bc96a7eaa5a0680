/** The tree builder: a min-priority queue of candidate trees, seeded with one
    leaf per table entry and reduced by merging its two smallest members until
    one tree is left. The queue is a sequence of trees; taking its top picks an
    element of smallest count, the earliest queued one among equals. */
module Builder {
  import opened HuffmanTree
  import opened Frequency

  /** The queue's ordering: `a` ranks below `b` when its count is larger, so
      the top of the queue is a tree of smallest count. */
  predicate Compare(a: Tree, b: Tree) {
    a.freq > b.freq
  }

  /** The position of the queue's top: no element has a smaller count, and
      every element before it has a strictly larger one. */
  function MinIndex(queue: seq<Tree>): (i: nat)
    requires queue != []
    ensures i < |queue|
    ensures forall j :: 0 <= j < |queue| ==> queue[i].freq <= queue[j].freq
    ensures forall j :: 0 <= j < i ==> queue[i].freq < queue[j].freq
  {
    if |queue| == 1 then 0
    else
      var k := 1 + MinIndex(queue[1..]);
      if Compare(queue[0], queue[k]) then k else 0
  }

  /** The symbols of all trees in a collection of trees. The tree taken
      first is arbitrary; ForestWithout shows that the choice does not matter. */
  ghost function ForestSymbols(trees: multiset<Tree>): multiset<char>
    decreases |trees|
  {
    if trees == multiset{} then multiset{}
    else
      var t :| t in trees;
      multiset(Symbols(t)) + ForestSymbols(trees - multiset{t})
  }

  /** The combined count of all trees in a collection of trees. */
  ghost function ForestWeight(trees: multiset<Tree>): int
    decreases |trees|
  {
    if trees == multiset{} then 0
    else
      var t :| t in trees;
      t.freq + ForestWeight(trees - multiset{t})
  }

  /** Any one tree's symbols can be split off a collection's symbols. */
  lemma {:induction false} ForestSymbolsWithout(trees: multiset<Tree>, t: Tree)
    requires t in trees
    ensures ForestSymbols(trees) == multiset(Symbols(t)) + ForestSymbols(trees - multiset{t})
    decreases |trees|
  {
    var u :| u in trees && ForestSymbols(trees) == multiset(Symbols(u)) + ForestSymbols(trees - multiset{u});
    if u != t {
      var both := trees - multiset{u} - multiset{t};
      assert trees - multiset{t} - multiset{u} == both;
      ForestSymbolsWithout(trees - multiset{u}, t);
      ForestSymbolsWithout(trees - multiset{t}, u);
      UnionSwaps(multiset(Symbols(u)), multiset(Symbols(t)), ForestSymbols(both));
    }
  }

  lemma UnionSwaps<T>(a: multiset<T>, b: multiset<T>, c: multiset<T>)
    ensures a + (b + c) == b + (a + c)
  {
  }

  /** Any one tree's count can be split off a collection's weight. */
  lemma {:induction false} ForestWeightWithout(trees: multiset<Tree>, t: Tree)
    requires t in trees
    ensures ForestWeight(trees) == t.freq + ForestWeight(trees - multiset{t})
    decreases |trees|
  {
    var u :| u in trees && ForestWeight(trees) == u.freq + ForestWeight(trees - multiset{u});
    if u != t {
      var both := trees - multiset{u} - multiset{t};
      assert trees - multiset{t} - multiset{u} == both;
      ForestWeightWithout(trees - multiset{u}, t);
      ForestWeightWithout(trees - multiset{t}, u);
    }
  }

  /** Adding one tree to a collection adds its symbols. */
  lemma ForestSymbolsWith(trees: multiset<Tree>, t: Tree)
    ensures ForestSymbols(trees + multiset{t}) == ForestSymbols(trees) + multiset(Symbols(t))
  {
    ForestSymbolsWithout(trees + multiset{t}, t);
    assert trees + multiset{t} - multiset{t} == trees;
  }

  /** Adding one tree to a collection adds its count. */
  lemma ForestWeightWith(trees: multiset<Tree>, t: Tree)
    ensures ForestWeight(trees + multiset{t}) == ForestWeight(trees) + t.freq
  {
    ForestWeightWithout(trees + multiset{t}, t);
    assert trees + multiset{t} - multiset{t} == trees;
  }

  /** A single tree's symbols and weight are its own. */
  lemma ForestOfOne(t: Tree)
    ensures ForestSymbols(multiset{t}) == multiset(Symbols(t))
    ensures ForestWeight(multiset{t}) == t.freq
  {
    ForestSymbolsWithout(multiset{t}, t);
    ForestWeightWithout(multiset{t}, t);
    assert multiset{t} - multiset{t} == multiset{};
  }

  /** The queue with position `i` taken out: the trees before it keep their
      places, the trees after it move up by one. */
  function Without(queue: seq<Tree>, i: nat): (rest: seq<Tree>)
    requires i < |queue|
    ensures |rest| == |queue| - 1
    ensures forall k :: 0 <= k < |rest| ==> rest[k] == if k < i then queue[k] else queue[k + 1]
  {
    queue[..i] + queue[i + 1..]
  }

  /** `pq.top(); pq.pop();`: removes a tree of smallest count from the queue
      and keeps every other tree, in the order they had. */
  method PopMin(queue: seq<Tree>) returns (top: Tree, rest: seq<Tree>)
    requires queue != []
    ensures |rest| == |queue| - 1
    ensures exists i :: 0 <= i < |queue| && top == queue[i] && rest == Without(queue, i)
    ensures multiset(queue) == multiset(rest) + multiset{top}
    ensures forall k :: 0 <= k < |rest| ==> top.freq <= rest[k].freq
  {
    var i := MinIndex(queue);
    top := queue[i];
    rest := Without(queue, i);
    forall k | 0 <= k < |rest| ensures top.freq <= rest[k].freq {
      if k < i { assert rest[k] == queue[k]; } else { assert rest[k] == queue[k + 1]; }
    }
    assert queue == queue[..i] + [top] + queue[i + 1..];
  }

  /** One round of the merge loop: the two trees of smallest count leave the
      queue (the first no larger than the second, the second no larger than any
      that stay) and one internal node owning both, whose count is their sum,
      joins it at the end, so the queue shrinks by exactly one. */
  method MergeTwoSmallest(queue: seq<Tree>) returns (left: Tree, right: Tree, next: seq<Tree>)
    requires |queue| >= 2
    ensures |next| == |queue| - 1
    ensures next[|next| - 1] == Node(left.freq + right.freq, left, right)
    ensures left.freq <= right.freq
    ensures forall k :: 0 <= k < |next| - 1 ==> right.freq <= next[k].freq
    ensures multiset(queue) == multiset(next[..|next| - 1]) + multiset{left, right}
    ensures exists i, j ::
      && 0 <= i < |queue| && 0 <= j < |queue| - 1
      && left == queue[i] && right == Without(queue, i)[j]
      && next[..|next| - 1] == Without(Without(queue, i), j)
  {
    var rest, rest';
    left, rest := PopMin(queue);
    right, rest' := PopMin(rest);
    assert right in multiset(rest);
    ghost var j :| 0 <= j < |rest| && rest[j] == right;
    var sum := left.freq + right.freq;
    next := rest' + [Node(sum, left, right)];
    assert next[..|next| - 1] == rest';
  }

  /** The merge loop's invariant: the queue's trees hold every table entry
      exactly once between them, their counts add up to the table's total,
      and each is well formed and agrees with the table. */
  ghost predicate Candidates(queue: seq<Tree>, table: map<char, int>) {
    && ForestSymbols(multiset(queue)) == multiset(table.Keys)
    && ForestWeight(multiset(queue)) == Total(table)
    && forall k :: 0 <= k < |queue| ==> WellFormed(queue[k]) && AgreesWith(queue[k], table)
  }

  /** A merge round keeps the merge loop's invariant. */
  lemma MergeStep(before: seq<Tree>, left: Tree, right: Tree, after: seq<Tree>, table: map<char, int>)
    requires Candidates(before, table)
    requires after != [] && after[|after| - 1] == Node(left.freq + right.freq, left, right)
    requires multiset(before) == multiset(after[..|after| - 1]) + multiset{left, right}
    ensures Candidates(after, table)
  {
    var kept := multiset(after[..|after| - 1]);
    assert after == after[..|after| - 1] + [after[|after| - 1]];
    assert multiset(after) == kept + multiset{after[|after| - 1]};
    MergeKeepsSymbols(multiset(before), kept, left, right);
    MergeKeepsWeight(multiset(before), kept, left, right);
    MergeKeepsShapes(before, left, right, after, table);
  }

  /** The trees a merge round leaves in the queue, and the node it adds, are
      well formed and agree with the table when the trees before it did. */
  lemma MergeKeepsShapes(before: seq<Tree>, left: Tree, right: Tree, after: seq<Tree>, table: map<char, int>)
    requires forall k :: 0 <= k < |before| ==> WellFormed(before[k]) && AgreesWith(before[k], table)
    requires after != [] && after[|after| - 1] == Node(left.freq + right.freq, left, right)
    requires multiset(before) == multiset(after[..|after| - 1]) + multiset{left, right}
    ensures forall k :: 0 <= k < |after| ==> WellFormed(after[k]) && AgreesWith(after[k], table)
  {
    forall k | 0 <= k < |after|
      ensures WellFormed(after[k]) && AgreesWith(after[k], table)
    {
      if k < |after| - 1 {
        assert after[k] == after[..|after| - 1][k];
        assert after[k] in multiset(before);
        var m :| 0 <= m < |before| && before[m] == after[k];
      } else {
        assert left in multiset(before) && right in multiset(before);
        var l :| 0 <= l < |before| && before[l] == left;
        var r :| 0 <= r < |before| && before[r] == right;
      }
    }
  }

  lemma UnionAssociates<T>(a: multiset<T>, b: multiset<T>, c: multiset<T>)
    ensures a + b + c == a + (b + c)
  {
  }

  lemma MergeKeepsSymbols(before: multiset<Tree>, kept: multiset<Tree>, left: Tree, right: Tree)
    requires before == kept + multiset{left, right}
    ensures ForestSymbols(kept + multiset{Node(left.freq + right.freq, left, right)}) == ForestSymbols(before)
  {
    var node := Node(left.freq + right.freq, left, right);
    var withLeft := kept + multiset{left};
    UnionAssociates(kept, multiset{left}, multiset{right});
    assert multiset{left, right} == multiset{left} + multiset{right};
    ForestSymbolsWith(kept, node);
    ForestSymbolsWith(kept, left);
    ForestSymbolsWith(withLeft, right);
    assert Symbols(node) == Symbols(left) + Symbols(right);
    UnionAssociates(ForestSymbols(kept), multiset(Symbols(left)), multiset(Symbols(right)));
  }

  lemma MergeKeepsWeight(before: multiset<Tree>, kept: multiset<Tree>, left: Tree, right: Tree)
    requires before == kept + multiset{left, right}
    ensures ForestWeight(kept + multiset{Node(left.freq + right.freq, left, right)}) == ForestWeight(before)
  {
    var node := Node(left.freq + right.freq, left, right);
    var withLeft := kept + multiset{left};
    assert before == withLeft + multiset{right};
    calc {
      ForestWeight(kept + multiset{node});
    == { ForestWeightWith(kept, node); }
      ForestWeight(kept) + left.freq + right.freq;
    == { ForestWeightWith(kept, left); }
      ForestWeight(withLeft) + right.freq;
    == { ForestWeightWith(withLeft, right); }
      ForestWeight(withLeft + multiset{right});
    }
  }

  /** The seeding loop's invariant: the queue holds one leaf per table entry
      already visited, that is, per key outside `pending`. */
  ghost predicate Seeded(queue: seq<Tree>, table: map<char, int>, pending: set<char>) {
    && pending <= table.Keys
    && ForestSymbols(multiset(queue)) == multiset(table.Keys - pending)
    && ForestWeight(multiset(queue)) == Total(table - pending)
    && forall k :: 0 <= k < |queue| ==> queue[k].Leaf? && AgreesWith(queue[k], table)
  }

  /** Queueing the leaf of one more entry keeps the seeding invariant. */
  lemma SeedStep(queue: seq<Tree>, table: map<char, int>, pending: set<char>, ch: char)
    requires Seeded(queue, table, pending) && ch in pending
    ensures Seeded(queue + [Leaf(ch, table[ch])], table, pending - {ch})
  {
    var leaf := Leaf(ch, table[ch]);
    var queue' := queue + [leaf];
    assert multiset(queue') == multiset(queue) + multiset{leaf};
    SeedStepSymbols(queue, table, pending, ch);
    SeedStepWeight(queue, table, pending, ch);
    forall k | 0 <= k < |queue'|
      ensures queue'[k].Leaf? && AgreesWith(queue'[k], table)
    {
      if k < |queue| {
        assert queue'[k] == queue[k];
      }
    }
  }

  lemma SeedStepSymbols(queue: seq<Tree>, table: map<char, int>, pending: set<char>, ch: char)
    requires pending <= table.Keys && ch in pending
    requires ForestSymbols(multiset(queue)) == multiset(table.Keys - pending)
    ensures ForestSymbols(multiset(queue) + multiset{Leaf(ch, table[ch])})
         == multiset(table.Keys - (pending - {ch}))
  {
    ForestSymbolsWith(multiset(queue), Leaf(ch, table[ch]));
    assert multiset(Symbols(Leaf(ch, table[ch]))) == multiset{ch};
    assert table.Keys - (pending - {ch}) == (table.Keys - pending) + {ch};
    MultisetOfAdd(table.Keys - pending, ch);
  }

  lemma MultisetOfAdd<T>(s: set<T>, x: T)
    requires x !in s
    ensures multiset(s + {x}) == multiset(s) + multiset{x}
  {
  }

  lemma SeedStepWeight(queue: seq<Tree>, table: map<char, int>, pending: set<char>, ch: char)
    requires pending <= table.Keys && ch in pending
    requires ForestWeight(multiset(queue)) == Total(table - pending)
    ensures ForestWeight(multiset(queue) + multiset{Leaf(ch, table[ch])})
         == Total(table - (pending - {ch}))
  {
    ForestWeightWith(multiset(queue), Leaf(ch, table[ch]));
    TotalWithout(table - (pending - {ch}), ch);
    assert table - (pending - {ch}) - {ch} == table - pending;
  }

  /** The queue before any merge: one leaf per table entry, each carrying its
      count, visited in the table's (unspecified) iteration order. */
  method SeedQueue(table: map<char, int>) returns (queue: seq<Tree>)
    ensures ForestSymbols(multiset(queue)) == multiset(table.Keys)
    ensures ForestWeight(multiset(queue)) == Total(table)
    ensures forall k :: 0 <= k < |queue| ==> queue[k].Leaf? && AgreesWith(queue[k], table)
  {
    queue := [];
    var pending := table.Keys;
    SeedStart(table);
    while pending != {}
      invariant Seeded(queue, table, pending)
      decreases pending
    {
      var ch :| ch in pending;
      SeedStep(queue, table, pending, ch);
      queue := queue + [Leaf(ch, table[ch])];
      pending := pending - {ch};
    }
    SeedEnd(queue, table);
  }

  /** Before seeding, every entry is pending and the queue is empty. */
  lemma SeedStart(table: map<char, int>)
    ensures Seeded([], table, table.Keys)
  {
    assert table - table.Keys == map[] && table.Keys - table.Keys == {};
    var empty: seq<Tree> := [];
    assert ForestSymbols(multiset(empty)) == multiset{};
  }

  /** After seeding, nothing is pending. */
  lemma SeedEnd(queue: seq<Tree>, table: map<char, int>)
    requires Seeded(queue, table, {})
    ensures ForestSymbols(multiset(queue)) == multiset(table.Keys)
    ensures ForestWeight(multiset(queue)) == Total(table)
    ensures forall k :: 0 <= k < |queue| ==> queue[k].Leaf? && AgreesWith(queue[k], table)
  {
    assert table - {} == table && table.Keys - {} == table.Keys;
  }

  /** Builds the Huffman tree of a non-empty frequency table. Its leaves are
      the table's entries, each exactly once and carrying its own count; every
      internal node's count is the sum of its children's; and the root's count
      is the sum of all counts. */
  method BuildHuffmanTree(table: map<char, int>) returns (root: Tree)
    requires table != map[]
    ensures multiset(Symbols(root)) == multiset(table.Keys)
    ensures AgreesWith(root, table)
    ensures WellFormed(root)
    ensures root.freq == Total(table)
  {
    var queue := SeedQueue(table);
    NonEmptyQueue(queue, table);
    // merge the two smallest until one tree is left
    while |queue| != 1
      invariant queue != []
      invariant Candidates(queue, table)
      decreases |queue|
    {
      ghost var before := queue;
      var left, right;
      left, right, queue := MergeTwoSmallest(queue);
      MergeStep(before, left, right, queue, table);
    }
    root := queue[0];
    LastCandidate(queue, table);
  }

  /** A non-empty table seeds a non-empty queue. */
  lemma NonEmptyQueue(queue: seq<Tree>, table: map<char, int>)
    requires table != map[]
    requires ForestSymbols(multiset(queue)) == multiset(table.Keys)
    ensures queue != []
  {
    var some :| some in table;
    assert some in ForestSymbols(multiset(queue));
  }

  /** When one candidate is left it holds all of the table. */
  lemma LastCandidate(queue: seq<Tree>, table: map<char, int>)
    requires |queue| == 1 && Candidates(queue, table)
    ensures multiset(Symbols(queue[0])) == multiset(table.Keys)
    ensures AgreesWith(queue[0], table) && WellFormed(queue[0])
    ensures queue[0].freq == Total(table)
  {
    assert queue == [queue[0]];
    assert multiset(queue) == multiset{queue[0]};
    ForestOfOne(queue[0]);
  }
}
