/**
 * Python's ordering of strings and `''.join(sorted(X))` over a set of strings, which
 * Lab2/FiniteAutomata/main.py uses to name a subset of states (:86-87).
 */
module StringOrder {
  /** Python's `<` on strings: code-point lexicographic order, a proper prefix first. */
  predicate Less(a: string, b: string) {
    if a == [] then b != []
    else if b == [] then false
    else a[0] < b[0] || (a[0] == b[0] && Less(a[1..], b[1..]))
  }

  lemma {:induction false} LessIrreflexive(a: string)
    ensures !Less(a, a)
  {
    if a != [] { LessIrreflexive(a[1..]); }
  }

  lemma {:induction false} LessTrans(a: string, b: string, c: string)
    ensures Less(a, b) && Less(b, c) ==> Less(a, c)
  {
    if Less(a, b) && Less(b, c) && a != [] && a[0] == b[0] && b[0] == c[0] {
      LessTrans(a[1..], b[1..], c[1..]);
    }
  }

  lemma {:induction false} LessTotal(a: string, b: string)
    ensures a == b || Less(a, b) || Less(b, a)
  {
    if a != [] && b != [] && a[0] == b[0] {
      LessTotal(a[1..], b[1..]);
      if a[1..] == b[1..] {
        assert a == [a[0]] + a[1..] && b == [b[0]] + b[1..];
      }
    }
  }

  lemma LessAsym(a: string, b: string)
    requires Less(a, b)
    ensures !Less(b, a)
  {
    LessTrans(a, b, a);
    LessIrreflexive(a);
  }

  /** `m` is the least element of `X`. */
  predicate IsMin(m: string, X: set<string>) {
    m in X && forall y :: y in X ==> !Less(y, m)
  }

  /** A finite non-empty set has a least element. */
  lemma {:induction false} MinExists(X: set<string>)
    requires X != {}
    ensures exists m :: IsMin(m, X)
    decreases |X|
  {
    var x :| x in X;
    if X - {x} == {} {
      assert X == {x};
      LessIrreflexive(x);
      assert IsMin(x, X);
    } else {
      MinExists(X - {x});
      var m :| IsMin(m, X - {x});
      if Less(x, m) {
        LessIrreflexive(x);
        forall y | y in X ensures !Less(y, x) {
          LessTrans(y, x, m);
        }
        assert IsMin(x, X);
      } else {
        assert IsMin(m, X);
      }
    }
  }

  /** The order is total, so the least element is unique. */
  lemma MinUnique(X: set<string>)
    ensures forall m1, m2 :: IsMin(m1, X) && IsMin(m2, X) ==> m1 == m2
  {
    forall m1, m2 | IsMin(m1, X) && IsMin(m2, X) ensures m1 == m2 {
      LessTotal(m1, m2);
    }
  }

  /** `min(X)`. */
  function Min(X: set<string>): (m: string)
    requires X != {}
    ensures IsMin(m, X)
  {
    MinExists(X);
    MinUnique(X);
    var m :| IsMin(m, X);
    m
  }

  /** Every element is strictly less than every later one. */
  predicate StrictlySorted(s: seq<string>) {
    forall i, j :: 0 <= i < j < |s| ==> Less(s[i], s[j])
  }

  /** `sorted(X)`: the elements of `X` in increasing order. */
  function SortSet(X: set<string>): seq<string>
    decreases |X|
  {
    if X == {} then [] else var m := Min(X); [m] + SortSet(X - {m})
  }

  /** `sorted(X)` lists each element of `X` once, in strictly increasing order. */
  lemma {:induction false} SortSetShape(X: set<string>)
    ensures StrictlySorted(SortSet(X))
    ensures forall x :: x in SortSet(X) <==> x in X
    ensures |SortSet(X)| == |X|
    decreases |X|
  {
    if X != {} {
      var m := Min(X);
      var rest := SortSet(X - {m});
      SortSetShape(X - {m});
      var s := [m] + rest;
      forall i, j | 0 <= i < j < |s| ensures Less(s[i], s[j]) {
        if i == 0 {
          assert s[j] in X - {m};
          LessTotal(m, s[j]);
        } else {
          assert s[i] == rest[i - 1] && s[j] == rest[j - 1];
        }
      }
    }
  }

  /** A strictly increasing listing of `X` is `sorted(X)`: the listing is unique. */
  lemma {:induction false} SortedUnique(s: seq<string>, X: set<string>)
    requires StrictlySorted(s) && forall x :: x in s <==> x in X
    ensures s == SortSet(X)
    decreases |s|
  {
    if s == [] {
      assert X == {};
    } else {
      assert s[0] in X;
      var m := Min(X);
      forall y | y in X ensures !Less(y, s[0]) {
        var k :| 0 <= k < |s| && s[k] == y;
        if k > 0 {
          LessAsym(s[0], s[k]);
        } else {
          LessIrreflexive(y);
        }
      }
      MinUnique(X);
      assert s[0] == m;
      var rest := s[1..];
      forall x ensures x in rest <==> x in X - {m} {
        if x in rest {
          var k :| 0 <= k < |rest| && rest[k] == x;
          assert Less(s[0], s[k + 1]);
          LessIrreflexive(x);
        }
        if x in X - {m} {
          var k :| 0 <= k < |s| && s[k] == x;
          assert k != 0;
          assert rest[k - 1] == x;
        }
      }
      SortedUnique(rest, X - {m});
    }
  }

  /** `''.join(ss)`. */
  function Join(ss: seq<string>): string {
    if ss == [] then "" else ss[0] + Join(ss[1..])
  }

  /**
   * The name of a set of state names, `''.join(sorted(X))`: its least element, then the
   * name of the rest.
   */
  function Name(X: set<string>): string
    decreases |X|
  {
    if X == {} then "" else var m := Min(X); m + Name(X - {m})
  }

  /** The name is the concatenation of the sorted listing. */
  lemma {:induction false} NameJoinsSorted(X: set<string>)
    ensures Name(X) == Join(SortSet(X))
    decreases |X|
  {
    if X != {} {
      var m := Min(X);
      NameJoinsSorted(X - {m});
      var s := [m] + SortSet(X - {m});
      assert s[1..] == SortSet(X - {m});
    }
  }

  /** A two-element set is named by its smaller element, then the larger. */
  lemma NamePair(a: string, b: string)
    requires Less(a, b)
    ensures Name({a, b}) == a + b
  {
    LessIrreflexive(a);
    SortedUnique([a, b], {a, b});
    NameJoinsSorted({a, b});
    assert Join([a, b]) == a + Join([b]);
    assert Join([b]) == b + Join([]);
  }

  /**
   * Naming is not injective: the subsets `{q1, q2q3}` and `{q1q2, q3}` are different but
   * both get the name `q1q2q3`.
   */
  lemma NameCollision()
    ensures {"q1", "q2q3"} != {"q1q2", "q3"}
    ensures Name({"q1", "q2q3"}) == "q1q2q3" == Name({"q1q2", "q3"})
  {
    assert "q1" !in {"q1q2", "q3"};
    assert Less("q1", "q2q3");
    assert Less("q1q2", "q3");
    NamePair("q1", "q2q3");
    NamePair("q1q2", "q3");
  }

  /** A one-element set is named by its element. */
  lemma NameSingleton(x: string)
    ensures Name({x}) == x
  {
    assert Min({x}) == x;
    assert {x} - {x} == {};
  }
}
