/**
 * The class `Grammar` of Lab5/Lab5/Program.cs: the production table `P` with the
 * variables `V_N` and terminals `V_T`, and the five normalisation stages, each of which
 * rewrites `P` (Lab5/Lab5/Program.cs:1-176). Every stage is proved to leave `P` equal to
 * the specification function of its module.
 */
module CnfGrammar {
  import opened CnfTables
  import opened EpsilonRemoval
  import opened UnitElimination
  import opened UselessSymbols
  import opened Binarization
  import opened Wrappers

  /** The grammar the constructor builds (:9-16). */
  function BuiltInTable(): (t: Table)
    ensures t.Valid()
  {
    Table(['S', 'A', 'B', 'D', 'C'],
          map['S' := ["aB", "bA", "A"],
              'A' := ["b", "B", "AS", "bBAB"],
              'B' := ["b", "bS", "aD", "eps"],
              'D' := ["AA"],
              'C' := ["Ba"]])
  }

  class Grammar {
    var P: Table
    var VN: seq<char>
    var VT: seq<char>

    ghost predicate Valid()
      reads this
    {
      P.Valid()
    }

    constructor()
      ensures Valid() && P == BuiltInTable()
      ensures VN == ['S', 'A', 'B', 'D', 'C'] && VT == ['a', 'b']
    {
      P := BuiltInTable();
      VN := ['S', 'A', 'B', 'D', 'C'];
      VT := ['a', 'b'];
    }

    /**
     * `RemoveEpsilon` (:21-55). The lists of `P` are updated in place; the method returns
     * nothing further, since the dictionary it returns is a copy of `P`.
     */
    method RemoveEpsilon()
      requires Valid()
      modifies this
      ensures Valid() && P == RemoveEpsilonSpec(old(P))
      ensures VN == old(VN) && VT == old(VT)
    {
      var rules := EpsilonPass(P);
      P := Table(P.keys, rules);
    }

    /**
     * `EliminateUnitProd` (:57-76). `ok` is false where the source throws
     * `KeyNotFoundException`; `P` then holds the lists as far as they were updated, since
     * the copy `newP` shares them.
     */
    method EliminateUnitProd() returns (ok: bool)
      requires Valid()
      modifies this
      ensures Valid() && P.keys == old(P.keys)
      ensures P.rules == EliminateUnitSpec(old(P), VN).rules
      ensures ok <==> EliminateUnitSpec(old(P), VN).Finished?
      ensures VN == old(VN) && VT == old(VT)
    {
      var o := UnitLoop(P.keys, P.rules, VN);
      P := Table(P.keys, o.rules);
      ok := o.Finished?;
    }

    /**
     * `EliminateInaccessible` (:78-110): keeps the entries whose key is accessible from
     * 'S', with their lists and in their order. `accessible` is the set the fixpoint built.
     */
    method EliminateInaccessible() returns (accessible: set<char>)
      requires Valid()
      modifies this
      ensures Valid() && P == Restrict(old(P), accessible)
      ensures 'S' in accessible && AccessClosed(old(P).rules, accessible)
      ensures forall B :: 'S' in B && AccessClosed(old(P).rules, B) ==> accessible <= B
      ensures VN == old(VN) && VT == old(VT)
    {
      accessible := AccessibleSymbols(P);
      P := Restrict(P, accessible);
    }

    /**
     * `RemoveUnprod` (:112-135): keeps the entries whose key is productive, with their
     * lists and in their order. `productive` is the set the fixpoint built.
     */
    method RemoveUnprod() returns (productive: set<char>)
      requires Valid()
      modifies this
      ensures Valid() && P == Restrict(old(P), productive)
      ensures (forall c :: c in VT ==> c in productive) && ProductiveClosed(old(P).rules, productive)
      ensures forall B :: (forall c :: c in VT ==> c in B) && ProductiveClosed(old(P).rules, B) ==> productive <= B
      ensures VN == old(VN) && VT == old(VT)
    {
      productive := ProductiveSymbols(P, VT);
      P := Restrict(P, productive);
    }

    /**
     * `TransformToCNF` (:137-176). `ok` is false where the name counter would reach a
     * surrogate; `P` is then unchanged, since `cnf` was a separate dictionary.
     */
    method TransformToCNF() returns (ok: bool)
      requires Valid()
      modifies this
      ensures Valid()
      ensures ok <==> TransformSpec(old(P), VT).Some?
      ensures ok ==> P == TransformSpec(old(P), VT).value.table
      ensures !ok ==> P == old(P)
      ensures VN == old(VN) && VT == old(VT)
    {
      var r := CnfLoop(P, VT);
      ok := r.Some?;
      if ok {
        P := r.value.table;
      }
    }
  }

  /**
   * The loops of `RemoveEpsilon` (:23-50) on the lists of `t`, which the source updates
   * in place: one round per nullable key, in key order.
   */
  method EpsilonPass(t: Table) returns (rules: map<char, seq<Rhs>>)
    requires t.Valid()
    ensures rules == RemoveEpsilonSpec(t).rules
  {
    var ntEpsilon := NullableOf(t);
    rules := t.rules;
    for e := 0 to |ntEpsilon|
      invariant rules == EpsilonRounds(t.rules, t.keys, ntEpsilon, e)
    {
      var ep := ntEpsilon[e];
      EpsilonRoundsNext(t.rules, t.keys, ntEpsilon, e);
      ghost var prev := rules;
      var grown := GrowAll(t.keys, rules, ep);
      rules := grown[ep := RemoveFirst(grown[ep], Eps)];
      assert rules == EpsilonRound(prev, t.keys, ep);
    }
  }

  /** The first loop of `RemoveEpsilon` (:23-30): the keys whose list contains "eps", in order. */
  method NullableOf(t: Table) returns (ntEpsilon: seq<char>)
    requires t.Valid()
    ensures ntEpsilon == NullableKeys(t.keys, t.rules)
    ensures forall c :: c in ntEpsilon <==> c in t.rules && Eps in t.rules[c]
  {
    ntEpsilon := [];
    for i := 0 to |t.keys|
      invariant ntEpsilon == NullableKeys(t.keys[..i], t.rules)
    {
      var k := t.keys[i];
      NullableKeysNext(t.keys, i, t.rules);
      if Eps in t.rules[k] {
        ntEpsilon := ntEpsilon + [k];
      }
    }
    assert t.keys[..|t.keys|] == t.keys;
    NullableKeysMembers(t.keys, t.rules);
  }

  /**
   * The loop over `P.ToList()` of :34-48 for the nullable `ep`: every list of the table,
   * visited in key order, grows by its shortened copies.
   */
  method GrowAll(keys: seq<char>, rules: map<char, seq<Rhs>>, ep: char) returns (r: map<char, seq<Rhs>>)
    requires forall k :: k in keys ==> k in rules
    ensures r == GrowKeys(rules, keys, |keys|, ep)
  {
    r := rules;
    for j := 0 to |keys|
      invariant r == GrowKeys(rules, keys, j, ep)
    {
      var key := keys[j];
      GrowKeysNext(rules, keys, j, ep);
      var list := ExpandList(r[key], ep);
      r := r[key := list];
    }
  }

  /**
   * The loop `for (int i = 0; i < entry.Value.Count; i++)` of :36-47, which re-reads
   * `Count` while it appends to the same list. The appended copies no longer contain `c`,
   * so they append nothing themselves.
   */
  method ExpandList(l: seq<Rhs>, c: char) returns (list: seq<Rhs>)
    ensures list == Expand(l, c)
  {
    list := l;
    var i := 0;
    assert l[..0] == [];
    while i < |list|
      invariant 0 <= i <= |list| <= 2 * |l|
      invariant list == l + Shortened(l[..Visited(i, |l|)], c)
      decreases 2 * |l| - i
    {
      var prod := list[i];
      ExpandListStep(l, c, i, list);
      if c in prod {
        var newProd := DeleteAll(prod, c);
        if newProd != [] {
          list := list + [newProd];
        }
      }
      i := i + 1;
    }
    assert l[..|l|] == l;
  }

  /** The loop over the keys of `EliminateUnitProd` (:60-70), on the shared lists of `t`. */
  method UnitLoop(keys: seq<char>, rules0: map<char, seq<Rhs>>, vn: seq<char>) returns (o: UnitOutcome)
    requires forall k :: k in keys ==> k in rules0
    ensures o == UnitPass(rules0, keys, |keys|, vn)
  {
    var rules := rules0;
    for i := 0 to |keys|
      invariant UnitPass(rules0, keys, i, vn) == Finished(rules)
    {
      o := UnitKeyStep(keys, rules0, vn, i, rules);
      if o.KeyNotFound? {
        UnitPassStuck(rules0, keys, i + 1, |keys|, vn);
        return;
      }
      rules := o.rules;
    }
    o := Finished(rules);
  }

  /** The body of the loop over the keys (:61-69) for the `i`-th key. */
  method UnitKeyStep(keys: seq<char>, rules0: map<char, seq<Rhs>>, vn: seq<char>, i: nat, rules: map<char, seq<Rhs>>)
    returns (o: UnitOutcome)
    requires i < |keys| && (forall k :: k in keys ==> k in rules0)
    requires UnitPass(rules0, keys, i, vn) == Finished(rules)
    ensures o == UnitPass(rules0, keys, i + 1, vn)
  {
    UnitPassNext(rules0, keys, i, vn);
    o := ExpandLoop(rules, keys[i], vn);
  }

  /** The loop over the snapshot `newP[k].ToList()` of one key (:62-69). */
  method ExpandLoop(rules0: map<char, seq<Rhs>>, k: char, vn: seq<char>) returns (o: UnitOutcome)
    requires k in rules0
    ensures o == ExpandUnits(rules0, k, rules0[k], |rules0[k]|, vn)
  {
    var snapshot := rules0[k];
    var rules := rules0;
    for j := 0 to |snapshot|
      invariant ExpandUnits(rules0, k, snapshot, j, vn) == Finished(rules)
    {
      var prod := snapshot[j];
      if |prod| == 1 && prod[0] in vn {
        ghost var prev := rules;
        rules := rules[k := RemoveFirst(rules[k], prod)];
        if prod[0] !in rules {
          o := KeyNotFound(prod[0], rules);
          assert ReplaceUnit(prev, k, prod) == o;
          ExpandUnitsStuck(rules0, k, snapshot, j + 1, |snapshot|, vn);
          return;
        }
        rules := rules[k := rules[k] + rules[prod[0]]];
        assert ReplaceUnit(prev, k, prod) == Finished(rules);
      }
    }
    o := Finished(rules);
  }

  /** The loop over the keys of `TransformToCNF` (:143-170); `cnf` starts as a copy of `P`. */
  method CnfLoop(P: Table, vt: seq<char>) returns (r: Option<Cnf>)
    requires P.Valid()
    ensures r == TransformSpec(P, vt)
  {
    var st := Cnf(P, [], map[], 0);
    for i := 0 to |P.keys|
      invariant ConvertKeys(P, i, vt) == Some(st)
    {
      r := CnfKeyStep(P, vt, i, st);
      if r.None? {
        KeysNoneStays(P, i + 1, |P.keys|, vt);
        return;
      }
      st := r.value;
    }
    r := Some(st);
  }

  /** The body of the loop over the keys (:144-169) for the `i`-th key. */
  method CnfKeyStep(P: Table, vt: seq<char>, i: nat, st: Cnf) returns (r: Option<Cnf>)
    requires P.Valid() && i < |P.keys| && ConvertKeys(P, i, vt) == Some(st)
    ensures r == ConvertKeys(P, i + 1, vt)
  {
    var key := P.keys[i];
    ConvertKeysNext(P, i, vt);
    var converted := ConvertListLoop(P.rules[key], vt, st);
    if converted.None? {
      return None;
    }
    var (newProductions, st1) := converted.value;
    r := Some(st1.(table := Put(st1.table, key, newProductions)));
  }

  /** The loop over one key's productions (:146-168), collecting `newProductions`. */
  method ConvertListLoop(l: seq<Rhs>, vt: seq<char>, st0: Cnf) returns (r: Option<(seq<Rhs>, Cnf)>)
    requires st0.table.Valid()
    ensures r == ConvertList(l, |l|, vt, st0)
  {
    var newProductions: seq<Rhs> := [];
    var st := st0;
    for j := 0 to |l|
      invariant st.table.Valid()
      invariant ConvertList(l, j, vt, st0) == Some((newProductions, st))
    {
      var production := l[j];
      ConvertListNext(l, j, vt, st0);
      if |production| == 1 && production[0] in vt {
        newProductions := newProductions + [production];
      } else {
        var paired := PairLoop(production, st);
        if paired.None? {
          ListNoneStays(l, j + 1, |l|, vt, st0);
          return None;
        }
        var (current, st1) := paired.value;
        newProductions := newProductions + [current];
        st := st1;
      }
    }
    r := Some((newProductions, st));
  }

  /**
   * The while loop of :152-164: the first two characters are replaced by the variable
   * `newVariables` holds for them, minting the next name when there is none.
   */
  method PairLoop(production: Rhs, st0: Cnf) returns (r: Option<(Rhs, Cnf)>)
    requires st0.table.Valid()
    ensures r == Pairing(production, st0)
  {
    var current := production;
    var st := st0;
    while |current| > 2
      invariant st.table.Valid()
      invariant Pairing(current, st) == Pairing(production, st0)
      decreases |current|
    {
      var leftPart := current[..2];
      PairingNext(current, st);
      if leftPart !in st.cache {
        if st.count >= MintLimit {
          return None;
        }
        st := Mint(st, leftPart);
      }
      current := [st.cache[leftPart]] + current[2..];
    }
    r := Some((current, st));
  }
}
