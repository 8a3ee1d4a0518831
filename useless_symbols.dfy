/**
 * Stages 3 and 4 of the normalisation (Grammar.EliminateInaccessible and
 * Grammar.RemoveUnprod, Lab5/Lab5/Program.cs:78-135): two do-while fixpoints over the
 * table, each followed by a filter that keeps the entries whose key reached the fixpoint.
 */
module UselessSymbols {
  import opened CnfTables

  /** The upper-case characters of one right-hand side. */
  function UpperOf(p: Rhs): (u: set<char>)
    ensures forall c :: c in u <==> c in p && IsUpper(c)
  {
    set c | c in p && IsUpper(c)
  }

  /** The upper-case characters of all productions of a list. */
  function Mentioned(l: seq<Rhs>): (u: set<char>)
    ensures forall p :: p in l ==> UpperOf(p) <= u
    ensures forall c :: c in u ==> IsUpper(c)
  {
    if l == [] then {} else Mentioned(l[..|l| - 1]) + UpperOf(l[|l| - 1])
  }

  /** Nothing else is mentioned: every member comes from some production of the list. */
  lemma {:induction false} MentionedFrom(l: seq<Rhs>, c: char)
    requires c in Mentioned(l)
    ensures exists p :: p in l && c in p
  {
    var init := l[..|l| - 1];
    if c in Mentioned(init) {
      MentionedFrom(init, c);
      var p :| p in init && c in p;
      assert p in l;
    } else {
      assert l[|l| - 1] in l;
    }
  }

  /** `B` contains every upper-case character of the productions of its keys. */
  ghost predicate AccessClosed(rules: map<char, seq<Rhs>>, B: set<char>) {
    forall k :: k in B && k in rules ==> Mentioned(rules[k]) <= B
  }

  /** The characters `B` makes available to a production: members of `B` and non-upper-case ones. */
  predicate Ready(p: Rhs, B: set<char>) {
    forall c :: c in p ==> c in B || !IsUpper(c)
  }

  /** `prod => prod.All(...)` for some production of the list (:121). */
  predicate AnyReady(l: seq<Rhs>, B: set<char>) {
    exists p :: p in l && Ready(p, B)
  }

  /** Every key with a production made of `B`-characters is itself in `B`. */
  ghost predicate ProductiveClosed(rules: map<char, seq<Rhs>>, B: set<char>) {
    forall k :: k in rules && AnyReady(rules[k], B) ==> k in B
  }

  lemma AnyReadyMono(l: seq<Rhs>, A: set<char>, B: set<char>)
    requires A <= B && AnyReady(l, A)
    ensures AnyReady(l, B)
  {
    var p :| p in l && Ready(p, A);
    assert Ready(p, B);
  }

  /** A strictly larger subset of `u` leaves strictly less of `u` outside it. */
  lemma StrictShrink(u: set<char>, a: set<char>, b: set<char>)
    requires a <= b <= u && a != b
    ensures |u - b| < |u - a|
  {
    var x :| x in b && x !in a;
    assert u - a == (u - b) + (b - a);
    assert (u - b) * (b - a) == {};
    assert x in b - a;
  }

  /** One production's characters, as the innermost loop of :91-98 reads them. */
  lemma UpperOfStep(p: Rhs, j: nat)
    requires j < |p|
    ensures UpperOf(p[..j + 1]) == UpperOf(p[..j]) + (if IsUpper(p[j]) then {p[j]} else {})
  {
    assert p[..j + 1] == p[..j] + [p[j]];
  }

  lemma MentionedStep(l: seq<Rhs>, m: nat)
    requires m < |l|
    ensures Mentioned(l[..m + 1]) == Mentioned(l[..m]) + UpperOf(l[m])
  {
    assert l[..m + 1][..m] == l[..m];
  }

  /**
   * The two inner loops of :89-99 for an accessible key: every upper-case character of
   * its productions is added, and `added` is set exactly when one was new.
   */
  method AddMentioned(l: seq<Rhs>, acc: set<char>) returns (accessible: set<char>, grew: bool)
    ensures accessible == acc + Mentioned(l)
    ensures grew <==> accessible != acc
  {
    accessible, grew := acc, false;
    for m := 0 to |l|
      invariant accessible == acc + Mentioned(l[..m])
      invariant grew <==> accessible != acc
    {
      var prod := l[m];
      var acc1 := accessible;
      for j := 0 to |prod|
        invariant accessible == acc1 + UpperOf(prod[..j])
        invariant acc <= acc1 <= accessible
        invariant grew <==> accessible != acc
      {
        var symbol := prod[j];
        UpperOfStep(prod, j);
        if IsUpper(symbol) && symbol !in accessible {
          accessible := accessible + {symbol};
          grew := true;
        }
      }
      assert prod[..|prod|] == prod;
      MentionedStep(l, m);
    }
    assert l[..|l|] == l;
  }

  /** One pass of the do-while body of `EliminateInaccessible` (:84-101). */
  method AccessPass(t: Table, before: set<char>) returns (accessible: set<char>, added: bool)
    requires t.Valid()
    ensures before <= accessible
    ensures forall x :: x in accessible && x !in before ==> IsUpper(x)
    ensures forall B :: before <= B && AccessClosed(t.rules, B) ==> accessible <= B
    ensures added <==> accessible != before
    ensures !added ==> AccessClosed(t.rules, accessible)
  {
    accessible, added := before, false;
    for i := 0 to |t.keys|
      invariant before <= accessible
      invariant forall x :: x in accessible && x !in before ==> IsUpper(x)
      invariant forall B :: before <= B && AccessClosed(t.rules, B) ==> accessible <= B
      invariant added <==> accessible != before
      invariant forall j :: 0 <= j < i && t.keys[j] in before ==> Mentioned(t.rules[t.keys[j]]) <= accessible
    {
      var k := t.keys[i];
      assert k in t.rules;
      if k in accessible {
        var prev := accessible;
        var grew;
        accessible, grew := AddMentioned(t.rules[k], accessible);
        added := added || grew;
        forall B | before <= B && AccessClosed(t.rules, B) ensures accessible <= B {
          assert prev <= B;
        }
        forall x | x in accessible && x !in before ensures IsUpper(x) {
          if x !in prev {
            assert x in Mentioned(t.rules[k]);
          }
        }
        forall j | 0 <= j < i + 1 && t.keys[j] in before ensures Mentioned(t.rules[t.keys[j]]) <= accessible {
          if j < i {
            assert Mentioned(t.rules[t.keys[j]]) <= prev;
          }
        }
      }
    }
    if !added {
      ScannedAccessClosed(t, accessible);
    }
  }

  /** A pass that visited every key of `B` and added nothing leaves `B` closed. */
  lemma ScannedAccessClosed(t: Table, B: set<char>)
    requires t.Valid()
    requires forall j :: 0 <= j < |t.keys| && t.keys[j] in B ==> Mentioned(t.rules[t.keys[j]]) <= B
    ensures AccessClosed(t.rules, B)
  {
    forall k | k in B && k in t.rules ensures Mentioned(t.rules[k]) <= B {
      var j :| 0 <= j < |t.keys| && t.keys[j] == k;
    }
  }

  /**
   * The do-while of `EliminateInaccessible` (:80-102). The result is the least set that
   * contains 'S' and is closed under the upper-case characters of its keys' productions.
   */
  method AccessibleSymbols(t: Table) returns (accessible: set<char>)
    requires t.Valid()
    ensures 'S' in accessible
    ensures AccessClosed(t.rules, accessible)
    ensures forall B :: 'S' in B && AccessClosed(t.rules, B) ==> accessible <= B
  {
    accessible := {'S'};
    var added := true;
    while added
      invariant 'S' in accessible
      invariant accessible <= UpperCase
      invariant forall B :: 'S' in B && AccessClosed(t.rules, B) ==> accessible <= B
      invariant !added ==> AccessClosed(t.rules, accessible)
      decreases |UpperCase - accessible|, if added then 1 else 0
    {
      UpperCaseMembers('S');
      var before := accessible;
      accessible, added := AccessPass(t, before);
      forall x | x in accessible ensures x in UpperCase {
        UpperCaseMembers(x);
      }
      if added {
        StrictShrink(UpperCase, before, accessible);
      }
    }
  }

  /** One pass of the do-while body of `RemoveUnprod` (:118-126). */
  method ProductivePass(t: Table, before: set<char>) returns (productive: set<char>, added: bool)
    requires t.Valid()
    ensures before <= productive <= before + t.rules.Keys
    ensures forall B :: before <= B && ProductiveClosed(t.rules, B) ==> productive <= B
    ensures added <==> productive != before
    ensures !added ==> ProductiveClosed(t.rules, productive)
  {
    productive, added := before, false;
    for i := 0 to |t.keys|
      invariant before <= productive <= before + t.rules.Keys
      invariant forall B :: before <= B && ProductiveClosed(t.rules, B) ==> productive <= B
      invariant added <==> productive != before
      invariant forall j :: 0 <= j < i && AnyReady(t.rules[t.keys[j]], before) ==> t.keys[j] in productive
    {
      var k := t.keys[i];
      assert k in t.rules;
      if AnyReady(t.rules[k], productive) && k !in productive {
        forall B | before <= B && ProductiveClosed(t.rules, B) ensures productive + {k} <= B {
          AnyReadyMono(t.rules[k], productive, B);
        }
        productive := productive + {k};
        added := true;
      } else if AnyReady(t.rules[k], before) {
        AnyReadyMono(t.rules[k], before, productive);
      }
    }
    if !added {
      forall k | k in t.rules && AnyReady(t.rules[k], productive) ensures k in productive {
        var j :| 0 <= j < |t.keys| && t.keys[j] == k;
      }
    }
  }

  /**
   * The do-while of `RemoveUnprod` (:114-127). The result is the least set that contains
   * the terminals and every key with a production made of its members and of
   * non-upper-case characters.
   */
  method ProductiveSymbols(t: Table, vt: seq<char>) returns (productive: set<char>)
    requires t.Valid()
    ensures forall c :: c in vt ==> c in productive
    ensures ProductiveClosed(t.rules, productive)
    ensures forall B :: (forall c :: c in vt ==> c in B) && ProductiveClosed(t.rules, B) ==> productive <= B
    ensures forall k :: k in productive ==> k in vt || k in t.rules
  {
    var terminals := set c | c in vt;
    var universe := terminals + t.rules.Keys;
    productive := terminals;
    var added := true;
    while added
      invariant terminals <= productive <= universe
      invariant forall B :: terminals <= B && ProductiveClosed(t.rules, B) ==> productive <= B
      invariant !added ==> ProductiveClosed(t.rules, productive)
      decreases |universe - productive|, if added then 1 else 0
    {
      var before := productive;
      productive, added := ProductivePass(t, before);
      if added {
        StrictShrink(universe, before, productive);
      }
    }
  }
}
