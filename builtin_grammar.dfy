/**
 * The grammar `Grammar` is constructed with (Lab5/Lab5/Program.cs:9-16), and what the
 * first normalisation stage makes of it.
 */
module BuiltInGrammar {
  import opened CnfTables
  import opened EpsilonRemoval
  import opened CnfGrammar

  /** The lists of the grammar the constructor builds, key by key. */
  ghost predicate BuiltInShape(t: Table) {
    && t.Valid() && t.keys == ['S', 'A', 'B', 'D', 'C']
    && t.rules['S'] == ["aB", "bA", "A"] && t.rules['A'] == ["b", "B", "AS", "bBAB"]
    && t.rules['B'] == ["b", "bS", "aD", "eps"] && t.rules['D'] == ["AA"] && t.rules['C'] == ["Ba"]
  }

  lemma BuiltInLists(t: Table)
    requires t == BuiltInTable()
    ensures BuiltInShape(t)
  {
  }

  /** With distinct keys, a single nullable key `c` is the whole nullable list. */
  lemma OnlyNullable(ks: seq<char>, rules: map<char, seq<Rhs>>, c: char)
    requires Distinct(ks) && c in ks
    requires forall k :: k in ks ==> (k in rules && Eps in rules[k] <==> k == c)
    ensures NullableKeys(ks, rules) == [c]
  {
    var ns := NullableKeys(ks, rules);
    NullableKeysMembers(ks, rules);
    NullableKeysDistinct(ks, rules);
    forall i | 0 <= i < |ns| ensures ns[i] == c {
      assert ns[i] in ns;
    }
    assert c in ns;
    assert ns[0] == ns[|ns| - 1];
  }

  /** Only 'B' holds "eps", so `RemoveEpsilon` makes a single round, for 'B'. */
  lemma BuiltInOneRound(t: Table)
    requires BuiltInShape(t)
    ensures 'B' in t.rules && Eps in t.rules['B']
    ensures RemoveEpsilonSpec(t).rules == EpsilonRound(t.rules, t.keys, 'B')
  {
    OnlyNullable(t.keys, t.rules, 'B');
    assert EpsilonRounds(t.rules, t.keys, ['B'], 0) == t.rules;
  }

  /** The round for 'B' at one key. */
  lemma RoundKey(t: Table, k: char)
    requires t.Valid() && 'B' in t.rules && Eps in t.rules['B'] && k in t.rules
    ensures k != 'B' ==> EpsilonRound(t.rules, t.keys, 'B')[k] == t.rules[k] + Shortened(t.rules[k], 'B')
    ensures k == 'B' ==> EpsilonRound(t.rules, t.keys, 'B')[k] == RemoveFirst(t.rules[k], Eps) + Shortened(t.rules[k], 'B')
  {
    EpsilonRoundEffect(t.rules, t.keys, 'B');
  }

  /** The copies for a list written out, one production at a time. */
  lemma ShortenedOfOne(a: Rhs, c: char)
    ensures Shortened([a], c) == ShortenedOne(a, c)
  {
    assert [a][..0] == [];
  }

  lemma ShortenedOfThree(a: Rhs, b: Rhs, d: Rhs, c: char)
    ensures Shortened([a, b, d], c) == ShortenedOne(a, c) + ShortenedOne(b, c) + ShortenedOne(d, c)
  {
    assert [a, b, d][..2] == [a, b];
    assert [a, b][..1] == [a];
    ShortenedOfOne(a, c);
  }

  lemma ShortenedOfFour(a: Rhs, b: Rhs, d: Rhs, e: Rhs, c: char)
    ensures Shortened([a, b, d, e], c) == ShortenedOne(a, c) + ShortenedOne(b, c) + ShortenedOne(d, c) + ShortenedOne(e, c)
  {
    assert [a, b, d, e][..3] == [a, b, d];
    ShortenedOfThree(a, b, d, c);
  }

  /** The deletions of 'B' the built-in grammar needs. */
  lemma Deletions()
    ensures DeleteAll("aB", 'B') == "a" && DeleteAll("bBAB", 'B') == "bA"
    ensures DeleteAll("Ba", 'B') == "a" && DeleteAll("B", 'B') == ""
  {
  }

  /** Each list after the round, key by key. */
  lemma EpsilonS(t: Table)
    requires t.Valid() && 'B' in t.rules && Eps in t.rules['B'] && 'S' in t.rules
    requires t.rules['S'] == ["aB", "bA", "A"]
    ensures EpsilonRound(t.rules, t.keys, 'B')['S'] == ["aB", "bA", "A", "a"]
  {
    RoundKey(t, 'S');
    ShortenedOfThree("aB", "bA", "A", 'B');
    Deletions();
  }

  lemma EpsilonA(t: Table)
    requires t.Valid() && 'B' in t.rules && Eps in t.rules['B'] && 'A' in t.rules
    requires t.rules['A'] == ["b", "B", "AS", "bBAB"]
    ensures EpsilonRound(t.rules, t.keys, 'B')['A'] == ["b", "B", "AS", "bBAB", "bA"]
  {
    RoundKey(t, 'A');
    ShortenedOfFour("b", "B", "AS", "bBAB", 'B');
    Deletions();
  }

  /** No production of 'B' contains 'B'. */
  lemma NoCopyOfB()
    ensures Shortened(["b", "bS", "aD", "eps"], 'B') == []
  {
    ShortenedOfFour("b", "bS", "aD", "eps", 'B');
  }

  /** The "eps" of 'B' is its last production. */
  lemma FirstEpsOfB()
    ensures RemoveFirst(["b", "bS", "aD", "eps"], Eps) == ["b", "bS", "aD"]
  {
    RemoveFirstSkip(["b", "bS", "aD"], [], Eps);
    assert ["b", "bS", "aD"] + [Eps] + [] == ["b", "bS", "aD", "eps"];
  }

  lemma EpsilonB(t: Table)
    requires t.Valid() && 'B' in t.rules
    requires t.rules['B'] == ["b", "bS", "aD", "eps"]
    ensures EpsilonRound(t.rules, t.keys, 'B')['B'] == ["b", "bS", "aD"]
  {
    assert Eps in t.rules['B'];
    RoundKey(t, 'B');
    NoCopyOfB();
    FirstEpsOfB();
  }

  lemma EpsilonD(t: Table)
    requires t.Valid() && 'B' in t.rules && Eps in t.rules['B'] && 'D' in t.rules
    requires t.rules['D'] == ["AA"]
    ensures EpsilonRound(t.rules, t.keys, 'B')['D'] == ["AA"]
  {
    RoundKey(t, 'D');
    ShortenedOfOne("AA", 'B');
  }

  lemma EpsilonC(t: Table)
    requires t.Valid() && 'B' in t.rules && Eps in t.rules['B'] && 'C' in t.rules
    requires t.rules['C'] == ["Ba"]
    ensures EpsilonRound(t.rules, t.keys, 'B')['C'] == ["Ba", "a"]
  {
    RoundKey(t, 'C');
    ShortenedOfOne("Ba", 'B');
    Deletions();
  }

  /**
   * `RemoveEpsilon` on the grammar the constructor builds: 'B' is the only nullable key,
   * its "eps" is dropped and every production containing 'B' gains a copy without it.
   * This is the table Lab5/Lab5UnitTests/GrammarTests.cs:13-26 expects.
   */
  lemma BuiltInRemoveEpsilon(t: Table)
    requires t == BuiltInTable()
    ensures RemoveEpsilonSpec(t).keys == ['S', 'A', 'B', 'D', 'C']
    ensures RemoveEpsilonSpec(t).rules['S'] == ["aB", "bA", "A", "a"]
    ensures RemoveEpsilonSpec(t).rules['A'] == ["b", "B", "AS", "bBAB", "bA"]
    ensures RemoveEpsilonSpec(t).rules['B'] == ["b", "bS", "aD"]
    ensures RemoveEpsilonSpec(t).rules['D'] == ["AA"]
    ensures RemoveEpsilonSpec(t).rules['C'] == ["Ba", "a"]
  {
    BuiltInLists(t);
    BuiltInOneRound(t);
    EpsilonS(t);
    EpsilonA(t);
    EpsilonB(t);
    EpsilonD(t);
    EpsilonC(t);
  }
}
