/** The frequency table: the counting loop at the start of `main`, which
    increments the table entry of every character of the text. */
module Frequency {

  /** The sum of all counts in a table. The key taken first is arbitrary;
      TotalWithout shows that the choice does not matter. */
  ghost function Total(table: map<char, int>): int
    decreases |table|
  {
    if table == map[] then 0
    else
      var k :| k in table;
      table[k] + Total(table - {k})
  }

  /** Any single entry can be split off the sum. */
  lemma {:induction false} TotalWithout(table: map<char, int>, k: char)
    requires k in table
    ensures Total(table) == table[k] + Total(table - {k})
    decreases |table|
  {
    var j :| j in table && Total(table) == table[j] + Total(table - {j});
    if j != k {
      assert table - {j} - {k} == table - {k} - {j};
      TotalWithout(table - {j}, k);
      TotalWithout(table - {k}, j);
    }
  }

  /** Setting one entry changes the sum by the difference it makes. */
  lemma TotalUpdate(table: map<char, int>, k: char, v: int)
    ensures Total(table[k := v]) == v + Total(table - {k})
  {
    TotalWithout(table[k := v], k);
    assert table[k := v] - {k} == table - {k};
  }

  /** Counts every character of `text`: afterwards the table's keys are
      exactly the characters that occur, each count is that character's
      number of occurrences, and the counts add up to the text's length. */
  method CountFrequencies(text: string) returns (table: map<char, int>)
    ensures forall c :: c in table <==> c in text
    ensures forall c :: c in table ==> table[c] == multiset(text)[c]
    ensures forall c :: c in table ==> table[c] > 0
    ensures Total(table) == |text|
  {
    table := map[];
    for i := 0 to |text|
      invariant forall c :: c in table <==> c in text[..i]
      invariant forall c :: c in table ==> table[c] == multiset(text[..i])[c]
      invariant Total(table) == i
    {
      var ch := text[i];
      assert text[..i + 1] == text[..i] + [ch];
      // operator[] inserts a zero count on first sight, then increments it
      var count := if ch in table then table[ch] else 0;
      TotalUpdate(table, ch, count + 1);
      if ch in table {
        TotalWithout(table, ch);
      } else {
        assert table - {ch} == table;
      }
      table := table[ch := count + 1];
    }
    assert text[..|text|] == text;
  }
}
