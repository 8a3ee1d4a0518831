/**
 * The production table of the grammar-normalisation lab (Lab5/Lab5/Program.cs):
 * a .NET `Dictionary<char, List<string>>` together with its enumeration order,
 * and the string and list library operations the five stages use. The regular
 * grammar of Lab1 keeps its productions in the same kind of dictionary, and the
 * expression lexer of Lab6 strips spaces with the same `Replace`.
 */
module CnfTables {

  /** A right-hand side: one character per grammar symbol. */
  type Rhs = string

  /**
   * The dictionary `P`. `keys` is the enumeration order; the source never removes a
   * dictionary entry, so a new key is enumerated after all existing ones.
   */
  datatype Table = Table(keys: seq<char>, rules: map<char, seq<Rhs>>) {
    ghost predicate Valid() {
      && Distinct(keys)
      && (forall k :: k in rules <==> k in keys)
    }
  }

  /** A prefix one element longer. */
  lemma TakeLast<T>(s: seq<T>, n: nat)
    requires 0 < n <= |s|
    ensures s[..n] == s[..n - 1] + [s[n - 1]]
  {
  }

  /** A prefix of a prefix is a prefix. */
  lemma PrefixTrans<T>(a: seq<T>, b: seq<T>, c: seq<T>)
    requires a <= b && b <= c
    ensures a <= c
  {
    assert c[..|a|] == b[..|a|];
  }

  /** No character occurs twice in `s`. */
  predicate Distinct(s: seq<char>) {
    forall i, j :: 0 <= i < j < |s| ==> s[i] != s[j]
  }

  /** `char.IsUpper`, restricted to ASCII. */
  predicate IsUpper(c: char) {
    'A' <= c <= 'Z'
  }

  /** The 26 ASCII upper-case letters. */
  const UpperCase: set<char> := set i | 65 <= i <= 90 :: i as char

  lemma UpperCaseMembers(c: char)
    ensures IsUpper(c) <==> c in UpperCase
  {
    if IsUpper(c) {
      assert c == (c as int) as char;
    }
  }

  /** Indexer assignment `d[k] = v`: overwrites in place, or appends a new key. */
  function Put(t: Table, k: char, v: seq<Rhs>): (r: Table)
    requires t.Valid()
    ensures r.Valid()
    ensures r.rules == t.rules[k := v]
    ensures t.keys <= r.keys
    ensures k in t.rules ==> r.keys == t.keys
    ensures k !in t.rules ==> r.keys == t.keys + [k]
  {
    if k in t.rules then Table(t.keys, t.rules[k := v]) else Table(t.keys + [k], t.rules[k := v])
  }

  /** The keys of `ks` that lie in `a`, in their order. */
  function KeysIn(ks: seq<char>, a: set<char>): (r: seq<char>)
    ensures forall k :: k in r <==> k in ks && k in a
    ensures |r| <= |ks|
  {
    if ks == [] then [] else (if ks[0] in a then [ks[0]] else []) + KeysIn(ks[1..], a)
  }

  lemma {:induction false} KeysInDistinct(ks: seq<char>, a: set<char>)
    requires Distinct(ks)
    ensures Distinct(KeysIn(ks, a))
  {
    if ks != [] {
      var rest := KeysIn(ks[1..], a);
      KeysInDistinct(ks[1..], a);
      var r := KeysIn(ks, a);
      if ks[0] in a {
        assert ks[0] !in ks[1..];
        forall i, j | 0 <= i < j < |r| ensures r[i] != r[j] {
          assert r[j] == rest[j - 1];
          if i > 0 {
            assert r[i] == rest[i - 1];
          }
        }
      }
    }
  }

  /**
   * `P.Where(e => a.Contains(e.Key)).ToDictionary(...)`: the entries whose key is in
   * `a`, with their lists unchanged and in their enumeration order.
   */
  function Restrict(t: Table, a: set<char>): (r: Table)
    requires t.Valid()
    ensures r.Valid()
    ensures r.keys == KeysIn(t.keys, a)
    ensures forall k :: k in r.rules <==> k in t.rules && k in a
    ensures forall k :: k in r.rules ==> r.rules[k] == t.rules[k]
  {
    KeysInDistinct(t.keys, a);
    Table(KeysIn(t.keys, a), map k | k in t.rules && k in a :: t.rules[k])
  }

  /** `List<string>.Remove(x)`: drops the first occurrence of `x`, if any. */
  function RemoveFirst(l: seq<Rhs>, x: Rhs): seq<Rhs> {
    if l == [] then []
    else if l[0] == x then l[1..]
    else [l[0]] + RemoveFirst(l[1..], x)
  }

  /** Without `x` the list is unchanged; otherwise exactly one `x` is gone and nothing else. */
  lemma {:induction false} RemoveFirstCount(l: seq<Rhs>, x: Rhs)
    ensures x !in l ==> RemoveFirst(l, x) == l
    ensures x in l ==> |RemoveFirst(l, x)| == |l| - 1 && multiset(RemoveFirst(l, x)) + multiset{x} == multiset(l)
  {
    if l != [] {
      assert l == [l[0]] + l[1..];
      if l[0] != x {
        RemoveFirstCount(l[1..], x);
      }
    }
  }

  /** Removing the first `x` when `x` occurs in the front part leaves the back part alone. */
  lemma {:induction false} RemoveFirstFront(a: seq<Rhs>, b: seq<Rhs>, x: Rhs)
    requires x in a
    ensures RemoveFirst(a + b, x) == RemoveFirst(a, x) + b
  {
    if a[0] != x {
      assert (a + b)[1..] == a[1..] + b;
      RemoveFirstFront(a[1..], b, x);
    } else {
      assert (a + b)[1..] == a[1..] + b;
    }
  }

  /** Removing the first `x` skips a front part that does not contain `x`. */
  lemma {:induction false} RemoveFirstSkip(a: seq<Rhs>, b: seq<Rhs>, x: Rhs)
    requires x !in a
    ensures RemoveFirst(a + [x] + b, x) == a + b
  {
    if a == [] {
      assert a + [x] + b == [x] + b;
    } else {
      assert (a + [x] + b)[1..] == a[1..] + [x] + b;
      RemoveFirstSkip(a[1..], b, x);
      assert [a[0]] + (a[1..] + b) == a + b;
    }
  }

  /** `prod.Replace(c.ToString(), "")`: every occurrence of `c` deleted. */
  function DeleteAll(p: Rhs, c: char): Rhs {
    if p == [] then []
    else (if p[0] == c then [] else [p[0]]) + DeleteAll(p[1..], c)
  }

  /** The result holds exactly the other characters, and is shorter by the number of `c`s. */
  lemma {:induction false} DeleteAllShape(p: Rhs, c: char)
    ensures forall x :: x in DeleteAll(p, c) <==> x in p && x != c
    ensures |DeleteAll(p, c)| + multiset(p)[c] == |p|
  {
    if p != [] {
      assert p == [p[0]] + p[1..];
      DeleteAllShape(p[1..], c);
    }
  }
}
