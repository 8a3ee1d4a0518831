/**
 * Stage 1 of the normalisation (Grammar.RemoveEpsilon, Lab5/Lab5/Program.cs:21-55).
 * A key is nullable when its list holds the marker "eps". For each nullable `c`, in
 * table order, every list gains, for each of its productions that contains `c`, a copy
 * with every `c` deleted (unless that copy is empty); then the first "eps" of `c`'s
 * own list is removed.
 */
module EpsilonRemoval {
  import opened CnfTables

  /** The marker standing for the empty right-hand side. */
  const Eps: Rhs := "eps"

  /** The keys of `ks`, in their order, whose list contains "eps". */
  function NullableKeys(ks: seq<char>, rules: map<char, seq<Rhs>>): seq<char> {
    if ks == [] then []
    else
      var last := ks[|ks| - 1];
      NullableKeys(ks[..|ks| - 1], rules) + (if last in rules && Eps in rules[last] then [last] else [])
  }

  /** Exactly the keys of `ks` with an "eps" production are nullable. */
  lemma {:induction false} NullableKeysMembers(ks: seq<char>, rules: map<char, seq<Rhs>>)
    ensures forall c :: c in NullableKeys(ks, rules) <==> c in ks && c in rules && Eps in rules[c]
    ensures |NullableKeys(ks, rules)| <= |ks|
  {
    if ks != [] {
      var last := ks[|ks| - 1];
      assert ks == ks[..|ks| - 1] + [last];
      NullableKeysMembers(ks[..|ks| - 1], rules);
    }
  }

  lemma {:induction false} NullableKeysDistinct(ks: seq<char>, rules: map<char, seq<Rhs>>)
    requires Distinct(ks)
    ensures Distinct(NullableKeys(ks, rules))
  {
    if ks != [] {
      var init := ks[..|ks| - 1];
      var last := ks[|ks| - 1];
      NullableKeysDistinct(init, rules);
      NullableKeysMembers(init, rules);
      assert last !in init;
      var ns := NullableKeys(ks, rules);
      var front := NullableKeys(init, rules);
      forall i, j | 0 <= i < j < |ns| ensures ns[i] != ns[j] {
        assert ns[i] == front[i];
        if j < |front| {
          assert ns[j] == front[j];
        }
      }
    }
  }

  /** The first loop (:23-30) one key further. */
  lemma NullableKeysNext(ks: seq<char>, i: nat, rules: map<char, seq<Rhs>>)
    requires i < |ks|
    ensures NullableKeys(ks[..i + 1], rules)
         == NullableKeys(ks[..i], rules) + (if ks[i] in rules && Eps in rules[ks[i]] then [ks[i]] else [])
  {
    assert ks[..i + 1][..i] == ks[..i];
  }

  /** The copy the loop body (:39-45) appends for one production, if any. */
  function ShortenedOne(p: Rhs, c: char): seq<Rhs> {
    if c in p && DeleteAll(p, c) != [] then [DeleteAll(p, c)] else []
  }

  /** Everything the inner loop (:36-47) appends to a list `l` for the nullable `c`. */
  function Shortened(l: seq<Rhs>, c: char): seq<Rhs> {
    if l == [] then []
    else Shortened(l[..|l| - 1], c) + ShortenedOne(l[|l| - 1], c)
  }

  /** At most one copy per production; no copy is empty or still contains `c`. */
  lemma {:induction false} ShortenedShape(l: seq<Rhs>, c: char)
    ensures |Shortened(l, c)| <= |l|
    ensures forall x :: x in Shortened(l, c) ==> x != [] && c !in x
  {
    if l != [] {
      ShortenedShape(l[..|l| - 1], c);
      DeleteAllShape(l[|l| - 1], c);
    }
  }

  /**
   * The copies are exactly the non-empty results of deleting `c` from the productions
   * of `l` that contain it.
   */
  lemma {:induction false} ShortenedMembers(l: seq<Rhs>, c: char)
    ensures forall x :: x in Shortened(l, c) ==> exists p :: p in l && c in p && x == DeleteAll(p, c)
    ensures forall p :: p in l && c in p && DeleteAll(p, c) != [] ==> DeleteAll(p, c) in Shortened(l, c)
  {
    if l != [] {
      var init := l[..|l| - 1];
      var last := l[|l| - 1];
      assert l == init + [last];
      ShortenedMembers(init, c);
      forall x | x in Shortened(l, c) ensures exists p :: p in l && c in p && x == DeleteAll(p, c) {
        if x in Shortened(init, c) {
          var p :| p in init && c in p && x == DeleteAll(p, c);
          assert p in l;
        } else {
          assert last in l;
        }
      }
    }
  }

  /** The inner loop (:36-47) one production further. */
  lemma ShortenedStep(l: seq<Rhs>, i: nat, c: char)
    requires i < |l|
    ensures Shortened(l[..i + 1], c) == Shortened(l[..i], c) + ShortenedOne(l[i], c)
  {
    assert l[..i + 1][..i] == l[..i];
  }

  /** How many productions of the original list the loop has read after `i` steps. */
  function Visited(i: nat, n: nat): (v: nat)
    ensures v <= n && v <= i && (v == i || v == n)
  {
    if i <= n then i else n
  }

  /**
   * One step of the loop of :36-47 over a list `list` that grows behind the index `i`:
   * a production of the original list `l` appends its shortened copy, and a copy appends
   * nothing.
   */
  lemma ExpandListStep(l: seq<Rhs>, c: char, i: nat, list: seq<Rhs>)
    requires i < |list| && list == l + Shortened(l[..Visited(i, |l|)], c)
    ensures var prod := list[i];
            list + (if c in prod && DeleteAll(prod, c) != [] then [DeleteAll(prod, c)] else [])
            == l + Shortened(l[..Visited(i + 1, |l|)], c)
    ensures |l + Shortened(l[..Visited(i + 1, |l|)], c)| <= 2 * |l|
  {
    ShortenedShape(l[..Visited(i + 1, |l|)], c);
    if i < |l| {
      ExpandOriginal(l, c, i, list);
    } else {
      ExpandCopy(l, c, i, list);
    }
  }

  /** A production of the original list appends its shortened copy. */
  lemma ExpandOriginal(l: seq<Rhs>, c: char, i: nat, list: seq<Rhs>)
    requires i < |l| && list == l + Shortened(l[..i], c)
    ensures list + ShortenedOne(list[i], c) == l + Shortened(l[..i + 1], c)
  {
    ShortenedStep(l, i, c);
    assert list[i] == l[i];
  }

  /** A copy appends nothing: it no longer contains `c`. */
  lemma ExpandCopy(l: seq<Rhs>, c: char, i: nat, list: seq<Rhs>)
    requires |l| <= i < |list| && list == l + Shortened(l[..|l|], c)
    ensures c !in list[i]
  {
    assert l[..|l|] == l;
    ShortenedShape(l, c);
    assert list[i] == Shortened(l, c)[i - |l|];
    assert list[i] in Shortened(l, c);
  }

  /** A list after the loop over its productions for the nullable `c`. */
  function Expand(l: seq<Rhs>, c: char): seq<Rhs> {
    l + Shortened(l, c)
  }

  /**
   * The loop over `P.ToList()` (:34-48) after its first `n` keys of `ks`: each visited
   * list has grown by its shortened copies.
   */
  function GrowKeys(rules: map<char, seq<Rhs>>, ks: seq<char>, n: nat, c: char): (r: map<char, seq<Rhs>>)
    requires n <= |ks| && forall k :: k in ks ==> k in rules
    ensures r.Keys == rules.Keys
  {
    if n == 0 then rules
    else
      var r := GrowKeys(rules, ks, n - 1, c);
      r[ks[n - 1] := Expand(r[ks[n - 1]], c)]
  }

  /** The loop over the keys one key further. */
  lemma GrowKeysNext(rules: map<char, seq<Rhs>>, ks: seq<char>, n: nat, c: char)
    requires n < |ks| && forall k :: k in ks ==> k in rules
    ensures var r := GrowKeys(rules, ks, n, c);
            ks[n] in r && GrowKeys(rules, ks, n + 1, c) == r[ks[n] := Expand(r[ks[n]], c)]
  {
  }

  /** With distinct keys, each visited list has grown exactly once and the others not at all. */
  lemma {:induction false} GrowKeysAt(rules: map<char, seq<Rhs>>, ks: seq<char>, n: nat, c: char, k: char)
    requires n <= |ks| && Distinct(ks) && (forall x :: x in ks ==> x in rules) && k in rules
    ensures GrowKeys(rules, ks, n, c)[k] == if k in ks[..n] then Expand(rules[k], c) else rules[k]
  {
    if n > 0 {
      GrowKeysAt(rules, ks, n - 1, c, k);
      assert ks[..n] == ks[..n - 1] + [ks[n - 1]];
      assert ks[n - 1] !in ks[..n - 1];
    }
  }

  /** One iteration of the loop over the nullable keys (:32-50). */
  function EpsilonRound(rules: map<char, seq<Rhs>>, ks: seq<char>, c: char): (r: map<char, seq<Rhs>>)
    requires c in rules && forall k :: k in ks ==> k in rules
    ensures r.Keys == rules.Keys
  {
    var grown := GrowKeys(rules, ks, |ks|, c);
    grown[c := RemoveFirst(grown[c], Eps)]
  }

  /** The rounds for the first `n` nullable keys of `ns`, in order. */
  function EpsilonRounds(rules: map<char, seq<Rhs>>, ks: seq<char>, ns: seq<char>, n: nat): (r: map<char, seq<Rhs>>)
    requires n <= |ns| && (forall c :: c in ns ==> c in rules) && (forall k :: k in ks ==> k in rules)
    ensures r.Keys == rules.Keys
  {
    if n == 0 then rules
    else EpsilonRound(EpsilonRounds(rules, ks, ns, n - 1), ks, ns[n - 1])
  }

  /** The rounds one nullable key further. */
  lemma EpsilonRoundsNext(rules: map<char, seq<Rhs>>, ks: seq<char>, ns: seq<char>, n: nat)
    requires n < |ns| && (forall c :: c in ns ==> c in rules) && (forall k :: k in ks ==> k in rules)
    ensures EpsilonRounds(rules, ks, ns, n + 1) == EpsilonRound(EpsilonRounds(rules, ks, ns, n), ks, ns[n])
  {
  }

  /** The table `RemoveEpsilon` leaves in `P`. */
  function RemoveEpsilonSpec(t: Table): (r: Table)
    requires t.Valid()
    ensures r.Valid() && r.keys == t.keys
  {
    var ns := NullableKeys(t.keys, t.rules);
    NullableKeysMembers(t.keys, t.rules);
    Table(t.keys, EpsilonRounds(t.rules, t.keys, ns, |ns|))
  }

  /**
   * A round for `c` over all keys removes exactly the first "eps" of `c`'s own list and
   * otherwise only appends the shortened copies.
   */
  lemma EpsilonRoundEffect(rules: map<char, seq<Rhs>>, ks: seq<char>, c: char)
    requires Distinct(ks) && (forall k :: k in rules <==> k in ks) && c in rules && Eps in rules[c]
    ensures EpsilonRound(rules, ks, c)[c] == RemoveFirst(rules[c], Eps) + Shortened(rules[c], c)
    ensures forall k :: k in rules && k != c ==> EpsilonRound(rules, ks, c)[k] == rules[k] + Shortened(rules[k], c)
  {
    assert ks[..|ks|] == ks;
    forall k | k in rules ensures GrowKeys(rules, ks, |ks|, c)[k] == Expand(rules[k], c) {
      GrowKeysAt(rules, ks, |ks|, c, k);
    }
    RemoveFirstFront(rules[c], Shortened(rules[c], c), Eps);
  }

  /** The part of a list that survives all rounds: the first "eps" is gone iff the key is nullable. */
  function Kept(l: seq<Rhs>, k: char, ns: seq<char>): seq<Rhs> {
    if k in ns then RemoveFirst(l, Eps) else l
  }

  /** `l` starts with `front` and every production after it is non-empty. */
  ghost predicate GrownFrom(l: seq<Rhs>, front: seq<Rhs>) {
    front <= l && forall i :: |front| <= i < |l| ==> l[i] != []
  }

  lemma GrownFromAppend(l: seq<Rhs>, front: seq<Rhs>, s: seq<Rhs>)
    requires GrownFrom(l, front)
    requires forall x :: x in s ==> x != []
    ensures GrownFrom(l + s, front)
  {
    forall i | |front| <= i < |l + s| ensures (l + s)[i] != [] {
      if i >= |l| {
        assert (l + s)[i] == s[i - |l|];
        assert s[i - |l|] in s;
      } else {
        assert (l + s)[i] == l[i];
      }
    }
  }

  /** The round for `c` turns a grown `rules[c]` into a grown first-"eps"-removed list. */
  lemma {:induction false} EpsilonRoundOwnKey(before: map<char, seq<Rhs>>, ks: seq<char>, orig: seq<Rhs>, c: char)
    requires Distinct(ks) && (forall k :: k in before <==> k in ks)
    requires c in before && Eps in orig && GrownFrom(before[c], orig)
    ensures GrownFrom(EpsilonRound(before, ks, c)[c], RemoveFirst(orig, Eps))
  {
    var tail := before[c][|orig|..];
    assert before[c] == orig + tail;
    EpsilonRoundEffect(before, ks, c);
    RemoveFirstFront(orig, tail, Eps);
    var kept := RemoveFirst(orig, Eps);
    GrownFromTail(orig, tail, kept);
    ShortenedShape(before[c], c);
    GrownFromAppend(kept + tail, kept, Shortened(before[c], c));
  }

  /** What grew after `front` still grows after any other front. */
  lemma GrownFromTail(front: seq<Rhs>, tail: seq<Rhs>, other: seq<Rhs>)
    requires GrownFrom(front + tail, front)
    ensures GrownFrom(other + tail, other)
  {
    forall i | |other| <= i < |other + tail| ensures (other + tail)[i] != [] {
      assert (other + tail)[i] == tail[i - |other|] == (front + tail)[i - |other| + |front|];
    }
  }

  /**
   * Over the first `n` rounds, each list keeps its original productions in order (minus
   * the first "eps" of a nullable key) and only gains non-empty productions after them.
   */
  lemma {:induction false} EpsilonRoundsShape(rules: map<char, seq<Rhs>>, ks: seq<char>, ns: seq<char>, n: nat)
    requires n <= |ns| && Distinct(ns) && Distinct(ks) && (forall k :: k in rules <==> k in ks)
    requires forall c :: c in ns ==> c in rules && Eps in rules[c]
    ensures forall k :: k in rules ==> GrownFrom(EpsilonRounds(rules, ks, ns, n)[k], Kept(rules[k], k, ns[..n]))
  {
    if n > 0 {
      var init := ns[..n - 1];
      var c := ns[n - 1];
      assert ns[..n] == init + [c];
      assert c !in init;
      EpsilonRoundsShape(rules, ks, ns, n - 1);
      var before := EpsilonRounds(rules, ks, ns, n - 1);
      assert Kept(rules[c], c, init) == rules[c];
      EpsilonRoundEffect(before, ks, c);
      forall k | k in rules ensures GrownFrom(EpsilonRounds(rules, ks, ns, n)[k], Kept(rules[k], k, ns[..n])) {
        if k != c {
          assert Kept(rules[k], k, ns[..n]) == Kept(rules[k], k, init);
          ShortenedShape(before[k], c);
          GrownFromAppend(before[k], Kept(rules[k], k, init), Shortened(before[k], c));
        } else {
          EpsilonRoundOwnKey(before, ks, rules[c], c);
        }
      }
    }
  }

  /**
   * Epsilon removal as a whole: every entry keeps its original productions in order, the
   * first "eps" removed when it has one, and gains only non-empty productions after them.
   */
  lemma RemoveEpsilonShape(t: Table)
    requires t.Valid()
    ensures RemoveEpsilonSpec(t).rules.Keys == t.rules.Keys
    ensures forall k :: k in t.rules ==>
              GrownFrom(RemoveEpsilonSpec(t).rules[k], if Eps in t.rules[k] then RemoveFirst(t.rules[k], Eps) else t.rules[k])
  {
    var ns := NullableKeys(t.keys, t.rules);
    NullableKeysMembers(t.keys, t.rules);
    NullableKeysDistinct(t.keys, t.rules);
    EpsilonRoundsShape(t.rules, t.keys, ns, |ns|);
    assert ns[..|ns|] == ns;
  }
}
