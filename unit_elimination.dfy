/**
 * Stage 2 of the normalisation (Grammar.EliminateUnitProd, Lab5/Lab5/Program.cs:57-76).
 * One pass over the keys in table order; for every unit production `X` in a snapshot of
 * the key's list, the first `X` is removed and `X`'s current list is appended. The copy
 * `newP` shares its lists with `P`, so the pass is one table updated step by step.
 */
module UnitElimination {
  import opened CnfTables

  /** `prod.Length == 1 && V_N.Contains(prod[0])` (:64). */
  predicate IsUnit(p: Rhs, vn: seq<char>) {
    |p| == 1 && p[0] in vn
  }

  /**
   * How the pass ends: it finishes, or the lookup `P[prod[0]]` throws
   * `KeyNotFoundException` for `symbol`; the lists then stay as far as they were updated.
   */
  datatype UnitOutcome =
    | Finished(rules: map<char, seq<Rhs>>)
    | KeyNotFound(symbol: char, rules: map<char, seq<Rhs>>)

  /** `newP[k].Remove(u); newP[k].AddRange(P[u[0]])` (:66-67). */
  function ReplaceUnit(rules: map<char, seq<Rhs>>, k: char, u: Rhs): (o: UnitOutcome)
    requires k in rules && |u| == 1
    ensures o.rules.Keys == rules.Keys
    ensures o.KeyNotFound? <==> u[0] !in rules
  {
    var removed := rules[k := RemoveFirst(rules[k], u)];
    if u[0] in removed then Finished(removed[k := removed[k] + removed[u[0]]])
    else KeyNotFound(u[0], removed)
  }

  /** The first `n` steps of the loop over the snapshot `s` of key `k`'s list (:62-69). */
  function ExpandUnits(rules: map<char, seq<Rhs>>, k: char, s: seq<Rhs>, n: nat, vn: seq<char>): (o: UnitOutcome)
    requires k in rules && n <= |s|
    ensures o.rules.Keys == rules.Keys
  {
    if n == 0 then Finished(rules)
    else
      match ExpandUnits(rules, k, s, n - 1, vn)
      case KeyNotFound(c, r) => KeyNotFound(c, r)
      case Finished(r) =>
        if IsUnit(s[n - 1], vn) then ReplaceUnit(r, k, s[n - 1]) else Finished(r)
  }

  /** The first `n` keys of `ks` (:60-70); each key's snapshot is its list when it is reached. */
  function UnitPass(rules: map<char, seq<Rhs>>, ks: seq<char>, n: nat, vn: seq<char>): (o: UnitOutcome)
    requires n <= |ks| && forall k :: k in ks ==> k in rules
    ensures o.rules.Keys == rules.Keys
  {
    if n == 0 then Finished(rules)
    else
      match UnitPass(rules, ks, n - 1, vn)
      case KeyNotFound(c, r) => KeyNotFound(c, r)
      case Finished(r) =>
        var k := ks[n - 1];
        ExpandUnits(r, k, r[k], |r[k]|, vn)
  }

  /** The table `EliminateUnitProd` leaves behind, finished or stopped by the exception. */
  function EliminateUnitSpec(t: Table, vn: seq<char>): (o: UnitOutcome)
    requires t.Valid()
    ensures o.rules.Keys == t.rules.Keys
  {
    UnitPass(t.rules, t.keys, |t.keys|, vn)
  }

  /** A key's steps change only that key's list. */
  lemma {:induction false} ExpandUnitsOther(rules: map<char, seq<Rhs>>, k: char, s: seq<Rhs>, n: nat, vn: seq<char>, other: char)
    requires k in rules && n <= |s| && other in rules && other != k
    ensures ExpandUnits(rules, k, s, n, vn).rules[other] == rules[other]
  {
    if n > 0 {
      ExpandUnitsOther(rules, k, s, n - 1, vn, other);
    }
  }

  /** A key's steps throw only for a variable that has no entry, and never when every variable has one. */
  lemma {:induction false} ExpandUnitsOutcome(rules: map<char, seq<Rhs>>, k: char, s: seq<Rhs>, n: nat, vn: seq<char>)
    requires k in rules && n <= |s|
    ensures ExpandUnits(rules, k, s, n, vn).KeyNotFound? ==>
              ExpandUnits(rules, k, s, n, vn).symbol in vn && ExpandUnits(rules, k, s, n, vn).symbol !in rules
    ensures (forall c :: c in vn ==> c in rules) ==> ExpandUnits(rules, k, s, n, vn).Finished?
  {
    if n > 0 {
      ExpandUnitsOutcome(rules, k, s, n - 1, vn);
    }
  }

  /**
   * The pass throws only for a variable that is not a key of the table, and never when
   * every variable is one.
   */
  lemma {:induction false} UnitPassOutcome(rules: map<char, seq<Rhs>>, ks: seq<char>, n: nat, vn: seq<char>)
    requires n <= |ks| && forall k :: k in ks ==> k in rules
    ensures UnitPass(rules, ks, n, vn).KeyNotFound? ==>
              UnitPass(rules, ks, n, vn).symbol in vn && UnitPass(rules, ks, n, vn).symbol !in rules
    ensures (forall c :: c in vn ==> c in rules) ==> UnitPass(rules, ks, n, vn).Finished?
  {
    if n > 0 {
      UnitPassOutcome(rules, ks, n - 1, vn);
      if UnitPass(rules, ks, n - 1, vn).Finished? {
        var r := UnitPass(rules, ks, n - 1, vn).rules;
        ExpandUnitsOutcome(r, ks[n - 1], r[ks[n - 1]], |r[ks[n - 1]]|, vn);
      }
    }
  }

  /** A unit production whose variable has no entry in `rules`: the lookup `P[prod[0]]` throws. */
  predicate Dangling(u: Rhs, vn: seq<char>, rules: map<char, seq<Rhs>>) {
    IsUnit(u, vn) && u[0] !in rules
  }

  /**
   * A key's steps throw exactly when one of the first `n` productions of its snapshot is a
   * dangling unit, and the symbol reported is that unit's variable.
   */
  lemma {:induction false} ExpandUnitsThrows(rules: map<char, seq<Rhs>>, k: char, s: seq<Rhs>, n: nat, vn: seq<char>)
    requires k in rules && n <= |s|
    ensures ExpandUnits(rules, k, s, n, vn).KeyNotFound? <==> exists j :: 0 <= j < n && Dangling(s[j], vn, rules)
    ensures ExpandUnits(rules, k, s, n, vn).KeyNotFound? ==>
              exists j :: 0 <= j < n && Dangling(s[j], vn, rules) && s[j][0] == ExpandUnits(rules, k, s, n, vn).symbol
  {
    if n > 0 {
      ExpandUnitsThrows(rules, k, s, n - 1, vn);
      var o := ExpandUnits(rules, k, s, n - 1, vn);
      if o.KeyNotFound? {
        var j :| 0 <= j < n - 1 && Dangling(s[j], vn, rules) && s[j][0] == o.symbol;
        assert 0 <= j < n && Dangling(s[j], vn, rules);
      } else if Dangling(s[n - 1], vn, rules) {
        assert s[n - 1][0] !in o.rules;
      } else {
        forall j | 0 <= j < n ensures !Dangling(s[j], vn, rules) {
          if j == n - 1 && IsUnit(s[j], vn) {
            assert s[j][0] in rules;
          }
        }
      }
    }
  }

  /**
   * For distinct keys the pass throws exactly when some unit production of one of the first
   * `n` keys' original lists is dangling, and the symbol reported is that unit's variable:
   * each key's snapshot is its original list, since earlier keys change only their own.
   */
  lemma {:induction false} UnitPassThrows(rules: map<char, seq<Rhs>>, ks: seq<char>, n: nat, vn: seq<char>)
    requires Distinct(ks) && n <= |ks| && forall k :: k in ks ==> k in rules
    ensures UnitPass(rules, ks, n, vn).KeyNotFound? <==>
              exists i, u :: 0 <= i < n && u in rules[ks[i]] && Dangling(u, vn, rules)
    ensures UnitPass(rules, ks, n, vn).KeyNotFound? ==>
              exists i, u :: 0 <= i < n && u in rules[ks[i]] && Dangling(u, vn, rules) && u[0] == UnitPass(rules, ks, n, vn).symbol
  {
    if n > 0 {
      UnitPassThrows(rules, ks, n - 1, vn);
      var o := UnitPass(rules, ks, n - 1, vn);
      if o.KeyNotFound? {
        var i, u :| 0 <= i < n - 1 && u in rules[ks[i]] && Dangling(u, vn, rules) && u[0] == o.symbol;
        assert 0 <= i < n && u in rules[ks[i]];
      } else {
        KeyThrows(rules, ks, n - 1, vn, o.rules);
        if exists i, u :: 0 <= i < n && u in rules[ks[i]] && Dangling(u, vn, rules) {
          var i, u :| 0 <= i < n && u in rules[ks[i]] && Dangling(u, vn, rules);
          assert i == n - 1;
        }
        if UnitPass(rules, ks, n, vn).KeyNotFound? {
          var u :| u in rules[ks[n - 1]] && Dangling(u, vn, rules) && u[0] == UnitPass(rules, ks, n, vn).symbol;
          assert 0 <= n - 1 < n;
        }
      }
    }
  }

  /** The key `ks[n]`, reached without a throw, throws exactly for a dangling unit of its original list. */
  lemma KeyThrows(rules: map<char, seq<Rhs>>, ks: seq<char>, n: nat, vn: seq<char>, r: map<char, seq<Rhs>>)
    requires Distinct(ks) && n < |ks| && (forall k :: k in ks ==> k in rules)
    requires UnitPass(rules, ks, n, vn) == Finished(r)
    ensures UnitPass(rules, ks, n + 1, vn).KeyNotFound? <==> exists u :: u in rules[ks[n]] && Dangling(u, vn, rules)
    ensures UnitPass(rules, ks, n + 1, vn).KeyNotFound? ==>
              exists u :: u in rules[ks[n]] && Dangling(u, vn, rules) && u[0] == UnitPass(rules, ks, n + 1, vn).symbol
  {
    var k := ks[n];
    UnitPassFrame(rules, ks, n, vn, k);
    UnitPassNext(rules, ks, n, vn);
    ExpandUnitsThrows(r, k, r[k], |r[k]|, vn);
    var s := r[k];
    assert forall u :: Dangling(u, vn, r) <==> Dangling(u, vn, rules);
    if exists u :: u in rules[k] && Dangling(u, vn, rules) {
      var u :| u in rules[k] && Dangling(u, vn, rules);
      var j :| 0 <= j < |s| && s[j] == u;
    }
  }

  /**
   * `EliminateUnitProd` throws exactly when some entry of the table holds a unit
   * production whose variable has no entry, and reports that variable.
   */
  lemma EliminateUnitThrows(t: Table, vn: seq<char>)
    requires t.Valid()
    ensures EliminateUnitSpec(t, vn).KeyNotFound? <==>
              exists k, u :: k in t.rules && u in t.rules[k] && Dangling(u, vn, t.rules)
    ensures EliminateUnitSpec(t, vn).KeyNotFound? ==>
              exists k, u :: k in t.rules && u in t.rules[k] && Dangling(u, vn, t.rules) && u[0] == EliminateUnitSpec(t, vn).symbol
  {
    UnitPassThrows(t.rules, t.keys, |t.keys|, vn);
    if exists k, u :: k in t.rules && u in t.rules[k] && Dangling(u, vn, t.rules) {
      var k, u :| k in t.rules && u in t.rules[k] && Dangling(u, vn, t.rules);
      var i :| 0 <= i < |t.keys| && t.keys[i] == k;
    }
  }

  /**
   * A self unit `X -> X` in `X`'s own list: the unit is removed and the remaining list is
   * appended to itself, so the list doubles; no other entry changes.
   */
  lemma SelfUnitDoubles(rules: map<char, seq<Rhs>>, k: char)
    requires k in rules && [k] in rules[k]
    ensures var o := ReplaceUnit(rules, k, [k]);
            var rest := RemoveFirst(rules[k], [k]);
            && o.Finished?
            && o.rules[k] == rest + rest
            && |o.rules[k]| == 2 * (|rules[k]| - 1)
            && multiset(o.rules[k]) + multiset{[k], [k]} == multiset(rules[k]) + multiset(rules[k])
            && forall x :: x in rules && x != k ==> o.rules[x] == rules[x]
  {
    RemoveFirstCount(rules[k], [k]);
  }

  /** The productions among the first `n` of `s` that are not unit productions, in order. */
  function NonUnits(s: seq<Rhs>, n: nat, vn: seq<char>): seq<Rhs>
    requires n <= |s|
  {
    if n == 0 then [] else NonUnits(s, n - 1, vn) + (if IsUnit(s[n - 1], vn) then [] else [s[n - 1]])
  }

  /** The lists that the unit productions among the first `n` of `s` pull in, in order. */
  function Pulled(s: seq<Rhs>, n: nat, vn: seq<char>, rules: map<char, seq<Rhs>>): seq<Rhs>
    requires n <= |s|
    requires forall u :: u in s && IsUnit(u, vn) ==> u[0] in rules
  {
    if n == 0 then []
    else Pulled(s, n - 1, vn, rules) + (if IsUnit(s[n - 1], vn) then rules[s[n - 1][0]] else [])
  }

  /** `NonUnits` holds no unit production. */
  lemma {:induction false} NonUnitsShape(s: seq<Rhs>, n: nat, vn: seq<char>)
    requires n <= |s|
    ensures forall x :: x in NonUnits(s, n, vn) ==> !IsUnit(x, vn)
  {
    if n > 0 {
      NonUnitsShape(s, n - 1, vn);
    }
  }

  /** Replacing a unit keeps what is left after the removal at the front of the list. */
  lemma ReplaceUnitKeepsFront(r: map<char, seq<Rhs>>, k: char, u: Rhs)
    requires k in r && |u| == 1 && ReplaceUnit(r, k, u).Finished?
    ensures RemoveFirst(r[k], u) <= ReplaceUnit(r, k, u).rules[k]
  {
  }

  /** The list-level step: after handling the unit `u`, the non-unit front still leads the list. */
  lemma KeepsNonUnitsStep(front: seq<Rhs>, u: Rhs, later: seq<Rhs>, r: map<char, seq<Rhs>>, k: char, vn: seq<char>)
    requires k in r && front + ([u] + later) <= r[k]
    requires forall x :: x in front ==> !IsUnit(x, vn)
    requires IsUnit(u, vn) && ReplaceUnit(r, k, u).Finished?
    ensures front + later <= ReplaceUnit(r, k, u).rules[k]
  {
    var l := r[k];
    var rest := l[|front| + 1 + |later|..];
    assert l == front + [u] + (later + rest);
    RemoveFirstSkip(front, later + rest, u);
    ReplaceUnitKeepsFront(r, k, u);
    PrefixTrans(front + later, RemoveFirst(r[k], u), ReplaceUnit(r, k, u).rules[k]);
  }

  /**
   * Whatever the unit productions pull in, the non-unit productions of the snapshot stay
   * at the front of the key's list, in order, after the first `n` steps.
   */
  lemma {:induction false} ExpandUnitsKeepsNonUnits(rules: map<char, seq<Rhs>>, k: char, n: nat, vn: seq<char>)
    requires k in rules && n <= |rules[k]|
    requires ExpandUnits(rules, k, rules[k], n, vn).Finished?
    ensures NonUnits(rules[k], n, vn) + rules[k][n..] <= ExpandUnits(rules, k, rules[k], n, vn).rules[k]
  {
    var s := rules[k];
    if n > 0 {
      ExpandUnitsKeepsNonUnits(rules, k, n - 1, vn);
      var r := ExpandUnits(rules, k, s, n - 1, vn).rules;
      var front := NonUnits(s, n - 1, vn);
      NonUnitsNext(s, n - 1, vn);
      NonUnitsShape(s, n - 1, vn);
      if IsUnit(s[n - 1], vn) {
        assert ExpandUnits(rules, k, s, n, vn) == ReplaceUnit(r, k, s[n - 1]);
        KeepsNonUnitsStep(front, s[n - 1], s[n..], r, k, vn);
      } else {
        assert ExpandUnits(rules, k, s, n, vn) == Finished(r);
      }
    }
  }

  /** `NonUnits` one production further, with the unprocessed rest behind it. */
  lemma NonUnitsNext(s: seq<Rhs>, n: nat, vn: seq<char>)
    requires n < |s|
    ensures s[n..] == [s[n]] + s[n + 1..]
    ensures IsUnit(s[n], vn) ==> NonUnits(s, n + 1, vn) == NonUnits(s, n, vn)
    ensures !IsUnit(s[n], vn) ==> NonUnits(s, n + 1, vn) + s[n + 1..] == NonUnits(s, n, vn) + s[n..]
  {
    assert NonUnits(s, n, vn) + [] == NonUnits(s, n, vn);
    assert NonUnits(s, n, vn) + [s[n]] + s[n + 1..] == NonUnits(s, n, vn) + ([s[n]] + s[n + 1..]);
  }

  /** A unit naming another key appends that key's list after the removal. */
  lemma ReplaceUnitOther(r: map<char, seq<Rhs>>, k: char, u: Rhs)
    requires k in r && |u| == 1 && u[0] in r && u[0] != k
    ensures ReplaceUnit(r, k, u) == Finished(r[k := RemoveFirst(r[k], u) + r[u[0]]])
  {
  }

  /** The inductive step of ExpandUnitsExact at the list level. */
  lemma ExactStep(rules: map<char, seq<Rhs>>, k: char, front: seq<Rhs>, u: Rhs, later: seq<Rhs>, pulled: seq<Rhs>, vn: seq<char>)
    requires k in rules && IsUnit(u, vn) && u[0] in rules && u[0] != k
    requires forall x :: x in front ==> !IsUnit(x, vn)
    ensures ReplaceUnit(rules[k := front + [u] + later + pulled], k, u)
            == Finished(rules[k := front + later + (pulled + rules[u[0]])])
  {
    var r := rules[k := front + [u] + later + pulled];
    assert u !in front;
    assert front + [u] + later + pulled == front + [u] + (later + pulled);
    RemoveFirstSkip(front, later + pulled, u);
    ReplaceUnitOther(r, k, u);
    assert front + (later + pulled) + rules[u[0]] == front + later + (pulled + rules[u[0]]);
    assert r[k := front + later + (pulled + rules[u[0]])] == rules[k := front + later + (pulled + rules[u[0]])];
  }

  /** The table the exact expansion describes after `n` steps. */
  function ExactAfter(rules: map<char, seq<Rhs>>, k: char, n: nat, vn: seq<char>): map<char, seq<Rhs>>
    requires k in rules && n <= |rules[k]|
    requires forall u :: u in rules[k] && IsUnit(u, vn) ==> u[0] in rules
  {
    rules[k := NonUnits(rules[k], n, vn) + rules[k][n..] + Pulled(rules[k], n, vn, rules)]
  }

  /** The inductive step of ExpandUnitsExact. */
  lemma ExactAfterStep(rules: map<char, seq<Rhs>>, k: char, n: nat, vn: seq<char>)
    requires k in rules && 0 < n <= |rules[k]|
    requires forall u :: u in rules[k] && IsUnit(u, vn) ==> u[0] in rules && u[0] != k
    requires ExpandUnits(rules, k, rules[k], n - 1, vn) == Finished(ExactAfter(rules, k, n - 1, vn))
    ensures ExpandUnits(rules, k, rules[k], n, vn) == Finished(ExactAfter(rules, k, n, vn))
  {
    var s := rules[k];
    var front := NonUnits(s, n - 1, vn);
    NonUnitsShape(s, n - 1, vn);
    var pulled := Pulled(s, n - 1, vn, rules);
    var u := s[n - 1];
    assert u in s;
    var r := ExactAfter(rules, k, n - 1, vn);
    assert s[n - 1..] == [u] + s[n..];
    assert front + s[n - 1..] + pulled == front + [u] + s[n..] + pulled;
    assert r == rules[k := front + [u] + s[n..] + pulled];
    if IsUnit(u, vn) {
      assert ExpandUnits(rules, k, s, n, vn) == ReplaceUnit(r, k, u);
      ExactStep(rules, k, front, u, s[n..], pulled, vn);
      assert NonUnits(s, n, vn) == front + [];
      assert Pulled(s, n, vn, rules) == pulled + rules[u[0]];
      assert front + [] == front;
    } else {
      assert ExpandUnits(rules, k, s, n, vn) == Finished(r);
      assert NonUnits(s, n, vn) == front + [u];
      assert Pulled(s, n, vn, rules) == pulled + [];
      assert pulled + [] == pulled;
    }
  }

  /**
   * When no unit production of the key names the key itself, its first `n` steps leave
   * exactly the non-unit productions, the unprocessed rest, and the lists the units named.
   */
  lemma {:induction false} ExpandUnitsExact(rules: map<char, seq<Rhs>>, k: char, n: nat, vn: seq<char>)
    requires k in rules && n <= |rules[k]|
    requires forall u :: u in rules[k] && IsUnit(u, vn) ==> u[0] in rules && u[0] != k
    ensures ExpandUnits(rules, k, rules[k], n, vn)
            == Finished(rules[k := NonUnits(rules[k], n, vn) + rules[k][n..] + Pulled(rules[k], n, vn, rules)])
  {
    if n == 0 {
      var s := rules[k];
      assert [] + s[0..] + [] == s;
      assert rules[k := s] == rules;
    } else {
      ExpandUnitsExact(rules, k, n - 1, vn);
      ExactAfterStep(rules, k, n, vn);
    }
  }

  /** All of a key's steps keep its non-unit productions at the front of its list. */
  lemma ExpandUnitsKeepsAll(rules: map<char, seq<Rhs>>, k: char, vn: seq<char>)
    requires k in rules && ExpandUnits(rules, k, rules[k], |rules[k]|, vn).Finished?
    ensures NonUnits(rules[k], |rules[k]|, vn) <= ExpandUnits(rules, k, rules[k], |rules[k]|, vn).rules[k]
  {
    ExpandUnitsKeepsNonUnits(rules, k, |rules[k]|, vn);
    var s := rules[k];
    assert NonUnits(s, |s|, vn) + s[|s|..] == NonUnits(s, |s|, vn);
  }

  /** A key the pass has not reached still holds its original list. */
  lemma {:induction false} UnitPassFrame(rules: map<char, seq<Rhs>>, ks: seq<char>, n: nat, vn: seq<char>, k: char)
    requires n <= |ks| && (forall x :: x in ks ==> x in rules) && k in rules
    requires forall i :: 0 <= i < n ==> ks[i] != k
    requires UnitPass(rules, ks, n, vn).Finished?
    ensures UnitPass(rules, ks, n, vn).rules[k] == rules[k]
  {
    if n > 0 {
      UnitPassFrame(rules, ks, n - 1, vn, k);
      var r := UnitPass(rules, ks, n - 1, vn).rules;
      ExpandUnitsOther(r, ks[n - 1], r[ks[n - 1]], |r[ks[n - 1]]|, vn, k);
    }
  }

  /** A key the pass has handled keeps its non-unit productions at the front of its list. */
  lemma {:induction false} UnitPassKeepsAt(rules: map<char, seq<Rhs>>, ks: seq<char>, n: nat, vn: seq<char>, i: nat)
    requires Distinct(ks) && i < n <= |ks| && (forall x :: x in ks ==> x in rules)
    requires UnitPass(rules, ks, n, vn).Finished?
    ensures NonUnits(rules[ks[i]], |rules[ks[i]]|, vn) <= UnitPass(rules, ks, n, vn).rules[ks[i]]
  {
    var r := UnitPass(rules, ks, n - 1, vn).rules;
    var k := ks[n - 1];
    UnitPassNext(rules, ks, n - 1, vn);
    if i == n - 1 {
      UnitPassFrame(rules, ks, n - 1, vn, k);
      ExpandUnitsKeepsAll(r, k, vn);
    } else {
      UnitPassKeepsAt(rules, ks, n - 1, vn, i);
      ExpandUnitsOther(r, k, r[k], |r[k]|, vn, ks[i]);
    }
  }

  /**
   * Over the whole pass, each key's non-unit productions stay at the front of its list,
   * in order: the snapshot of a key is its original list, since earlier keys only change
   * their own lists.
   */
  lemma UnitPassKeepsNonUnits(rules: map<char, seq<Rhs>>, ks: seq<char>, n: nat, vn: seq<char>)
    requires Distinct(ks) && n <= |ks| && forall k :: k in ks ==> k in rules
    requires UnitPass(rules, ks, n, vn).Finished?
    ensures forall i :: 0 <= i < n ==>
              NonUnits(rules[ks[i]], |rules[ks[i]]|, vn) <= UnitPass(rules, ks, n, vn).rules[ks[i]]
    ensures forall k :: k in rules && k !in ks[..n] ==> UnitPass(rules, ks, n, vn).rules[k] == rules[k]
  {
    forall i | 0 <= i < n
      ensures NonUnits(rules[ks[i]], |rules[ks[i]]|, vn) <= UnitPass(rules, ks, n, vn).rules[ks[i]]
    {
      UnitPassKeepsAt(rules, ks, n, vn, i);
    }
    forall k | k in rules && k !in ks[..n] ensures UnitPass(rules, ks, n, vn).rules[k] == rules[k] {
      forall i | 0 <= i < n ensures ks[i] != k {
        assert ks[i] == ks[..n][i];
      }
      UnitPassFrame(rules, ks, n, vn, k);
    }
  }

  /** Once a step throws, the rest of the snapshot is not run. */
  lemma {:induction false} ExpandUnitsStuck(rules: map<char, seq<Rhs>>, k: char, s: seq<Rhs>, j: nat, m: nat, vn: seq<char>)
    requires k in rules && j <= m <= |s| && ExpandUnits(rules, k, s, j, vn).KeyNotFound?
    ensures ExpandUnits(rules, k, s, m, vn) == ExpandUnits(rules, k, s, j, vn)
  {
    if m > j {
      ExpandUnitsStuck(rules, k, s, j, m - 1, vn);
    }
  }

  /** Once a key throws, the remaining keys are not run. */
  lemma {:induction false} UnitPassStuck(rules: map<char, seq<Rhs>>, ks: seq<char>, j: nat, m: nat, vn: seq<char>)
    requires j <= m <= |ks| && (forall k :: k in ks ==> k in rules) && UnitPass(rules, ks, j, vn).KeyNotFound?
    ensures UnitPass(rules, ks, m, vn) == UnitPass(rules, ks, j, vn)
  {
    if m > j {
      UnitPassStuck(rules, ks, j, m - 1, vn);
    }
  }

  /** The pass one key further, when it has not thrown so far. */
  lemma UnitPassNext(rules: map<char, seq<Rhs>>, ks: seq<char>, n: nat, vn: seq<char>)
    requires n < |ks| && (forall k :: k in ks ==> k in rules) && UnitPass(rules, ks, n, vn).Finished?
    ensures var r := UnitPass(rules, ks, n, vn).rules;
            ks[n] in r && UnitPass(rules, ks, n + 1, vn) == ExpandUnits(r, ks[n], r[ks[n]], |r[ks[n]]|, vn)
  {
  }
}
