/**
 * The right-linear grammar of Lab1/RegularGrammars/Grammar.cs and its conversion to the
 * automaton of `RegularAutomaton` (`ToFiniteAutomaton`, :76-109). Each non-terminal is a
 * state, `"X"` is the single final state, and a production `aB...` or `a` becomes an edge
 * on `a`.
 */
module RegularGrammar {
  import opened Wrappers
  import opened CnfTables
  import opened RegularAutomaton

  /** `Q` (:78): every non-terminal as a one-character state name, and `"X"`. */
  function States(vn: set<char>): set<State> {
    (set v | v in vn :: [v]) + {"X"}
  }

  /** The `Delta` skeleton of :84-90: an empty successor set for every (state, terminal). */
  function EmptyDelta(Q: set<State>, sigma: set<char>): Transitions {
    map q, a | q in Q && a in sigma :: (q, a) := {}
  }

  /**
   * The successor a production contributes (:96-104): `"X"` for a lone terminal, the
   * second character for a longer production that starts with a terminal, and nothing
   * for a production that is empty or starts with another character.
   */
  function Target(p: string, vt: set<char>): Option<State> {
    if |p| == 1 && p[0] in vt then Some("X")
    else if |p| > 0 && p[0] in vt then Some(if |p| > 1 then [p[1]] else "X")
    else None
  }

  /** Production `p` of key `k` puts `s` into the entry `key`. */
  predicate Contributes(k: char, p: string, vt: set<char>, key: (State, char), s: State) {
    |p| > 0 && Target(p, vt) == Some(s) && key == ([k], p[0])
  }

  /**
   * The inner loop of :94-105 over the first `n` productions of key `k`. `None` is the
   * `KeyNotFoundException` of an indexer read on a missing (state, terminal) entry.
   */
  function AddProductions(d: Transitions, k: char, ps: seq<string>, vt: set<char>, n: nat): Option<Transitions>
    requires n <= |ps|
  {
    if n == 0 then Some(d)
    else match AddProductions(d, k, ps, vt, n - 1)
      case None => None
      case Some(d') =>
        var p := ps[n - 1];
        match Target(p, vt)
        case None => Some(d')
        case Some(s) =>
          var key := ([k], p[0]);
          if key in d' then Some(d'[key := d'[key] + {s}]) else None
  }

  /** The outer loop of :92-106 over the first `n` keys of `P`. */
  function AddKeys(d: Transitions, P: Table, vt: set<char>, n: nat): Option<Transitions>
    requires n <= |P.keys|
    requires forall k :: k in P.keys ==> k in P.rules
  {
    if n == 0 then Some(d)
    else match AddKeys(d, P, vt, n - 1)
      case None => None
      case Some(d') =>
        var k := P.keys[n - 1];
        AddProductions(d', k, P.rules[k], vt, |P.rules[k]|)
  }

  /** The `Delta` that `ToFiniteAutomaton` builds, or `None` when it throws. */
  function DeltaSpec(vn: set<char>, vt: set<char>, P: Table): Option<Transitions>
    requires forall k :: k in P.keys ==> k in P.rules
  {
    AddKeys(EmptyDelta(States(vn), vt), P, vt, |P.keys|)
  }

  lemma AddProductionsNext(d: Transitions, k: char, ps: seq<string>, vt: set<char>, n: nat)
    requires n < |ps|
    ensures AddProductions(d, k, ps, vt, n + 1) ==
      match AddProductions(d, k, ps, vt, n)
      case None => None
      case Some(d') =>
        match Target(ps[n], vt)
        case None => Some(d')
        case Some(s) =>
          if ([k], ps[n][0]) in d' then Some(d'[([k], ps[n][0]) := d'[([k], ps[n][0])] + {s}]) else None
  {
  }

  /**
   * Over the productions of one key: the entries are never created or dropped; the run
   * throws exactly when some production with a target has no entry; and otherwise an
   * entry gains exactly the targets of the productions that contribute to it.
   */
  lemma {:induction false} AddProductionsEffect(d: Transitions, k: char, ps: seq<string>, vt: set<char>, n: nat, key: (State, char), s: State)
    requires n <= |ps|
    ensures AddProductions(d, k, ps, vt, n).None? <==>
      exists j :: 0 <= j < n && Target(ps[j], vt).Some? && ([k], ps[j][0]) !in d
    ensures AddProductions(d, k, ps, vt, n).Some? ==> AddProductions(d, k, ps, vt, n).value.Keys == d.Keys
    ensures AddProductions(d, k, ps, vt, n).Some? && key in d ==>
      (s in AddProductions(d, k, ps, vt, n).value[key] <==>
        s in d[key] || exists j :: 0 <= j < n && Contributes(k, ps[j], vt, key, s))
  {
    if n > 0 {
      AddProductionsEffect(d, k, ps, vt, n - 1, key, s);
      AddProductionsNext(d, k, ps, vt, n - 1);
      var p := ps[n - 1];
      if AddProductions(d, k, ps, vt, n).None? && AddProductions(d, k, ps, vt, n - 1).Some? {
        assert Target(p, vt).Some? && ([k], p[0]) !in d;
      }
      if AddProductions(d, k, ps, vt, n).Some? && key in d {
        if Contributes(k, p, vt, key, s) {
          assert s in AddProductions(d, k, ps, vt, n).value[key];
        }
      }
    }
  }

  lemma AddKeysNext(d: Transitions, P: Table, vt: set<char>, n: nat)
    requires n < |P.keys|
    requires forall k :: k in P.keys ==> k in P.rules
    ensures AddKeys(d, P, vt, n + 1) ==
      match AddKeys(d, P, vt, n)
      case None => None
      case Some(d') => AddProductions(d', P.keys[n], P.rules[P.keys[n]], vt, |P.rules[P.keys[n]]|)
  {
  }

  /** Some production among the first `n` keys has a target but no entry in `d`. */
  ghost predicate Missing(d: Transitions, P: Table, vt: set<char>, n: nat)
    requires n <= |P.keys|
    requires forall k :: k in P.keys ==> k in P.rules
  {
    exists i, j :: 0 <= i < n && 0 <= j < |P.rules[P.keys[i]]| &&
      Target(P.rules[P.keys[i]][j], vt).Some? && ([P.keys[i]], P.rules[P.keys[i]][j][0]) !in d
  }

  /** Some production among the first `n` keys contributes `s` to `key`. */
  ghost predicate Edge(P: Table, vt: set<char>, n: nat, key: (State, char), s: State)
    requires n <= |P.keys|
    requires forall k :: k in P.keys ==> k in P.rules
  {
    exists i, j :: 0 <= i < n && 0 <= j < |P.rules[P.keys[i]]| &&
      Contributes(P.keys[i], P.rules[P.keys[i]][j], vt, key, s)
  }

  /** `AddProductionsEffect`, lifted to the first `n` keys. */
  lemma {:induction false} AddKeysEffect(d: Transitions, P: Table, vt: set<char>, n: nat, key: (State, char), s: State)
    requires n <= |P.keys|
    requires forall k :: k in P.keys ==> k in P.rules
    ensures AddKeys(d, P, vt, n).None? <==> Missing(d, P, vt, n)
    ensures AddKeys(d, P, vt, n).Some? ==> AddKeys(d, P, vt, n).value.Keys == d.Keys
    ensures AddKeys(d, P, vt, n).Some? && key in d ==>
      (s in AddKeys(d, P, vt, n).value[key] <==> s in d[key] || Edge(P, vt, n, key, s))
  {
    if n > 0 {
      AddKeysEffect(d, P, vt, n - 1, key, s);
      AddKeysNext(d, P, vt, n - 1);
      var k := P.keys[n - 1];
      var ps := P.rules[k];
      if AddKeys(d, P, vt, n - 1).Some? {
        var d' := AddKeys(d, P, vt, n - 1).value;
        AddProductionsEffect(d', k, ps, vt, |ps|, key, s);
        AddKeysLast(d, d', P, vt, n, key, s);
      } else {
        var i, j :| 0 <= i < n - 1 && 0 <= j < |P.rules[P.keys[i]]| &&
          Target(P.rules[P.keys[i]][j], vt).Some? && ([P.keys[i]], P.rules[P.keys[i]][j][0]) !in d;
        assert Missing(d, P, vt, n);
      }
    }
  }

  /** The step of `AddKeysEffect` for the last key, once the earlier keys went through. */
  lemma AddKeysLast(d: Transitions, d': Transitions, P: Table, vt: set<char>, n: nat, key: (State, char), s: State)
    requires 0 < n <= |P.keys|
    requires forall k :: k in P.keys ==> k in P.rules
    requires d'.Keys == d.Keys && !Missing(d, P, vt, n - 1)
    requires key in d ==> (s in d'[key] <==> s in d[key] || Edge(P, vt, n - 1, key, s))
    requires
      var k := P.keys[n - 1];
      var ps := P.rules[k];
      && (AddProductions(d', k, ps, vt, |ps|).None? <==>
          exists j :: 0 <= j < |ps| && Target(ps[j], vt).Some? && ([k], ps[j][0]) !in d')
      && (AddProductions(d', k, ps, vt, |ps|).Some? ==> AddProductions(d', k, ps, vt, |ps|).value.Keys == d'.Keys)
      && (AddProductions(d', k, ps, vt, |ps|).Some? && key in d' ==>
          (s in AddProductions(d', k, ps, vt, |ps|).value[key] <==>
            s in d'[key] || exists j :: 0 <= j < |ps| && Contributes(k, ps[j], vt, key, s)))
    ensures
      var k := P.keys[n - 1];
      var r := AddProductions(d', k, P.rules[k], vt, |P.rules[k]|);
      && (r.None? <==> Missing(d, P, vt, n))
      && (r.Some? ==> r.value.Keys == d.Keys)
      && (r.Some? && key in d ==> (s in r.value[key] <==> s in d[key] || Edge(P, vt, n, key, s)))
  {
    var k := P.keys[n - 1];
    var ps := P.rules[k];
    var r := AddProductions(d', k, ps, vt, |ps|);
    if r.None? {
      var j :| 0 <= j < |ps| && Target(ps[j], vt).Some? && ([k], ps[j][0]) !in d';
      assert Missing(d, P, vt, n) by {
        assert 0 <= n - 1 < n && P.keys[n - 1] == k;
      }
    }
    if Missing(d, P, vt, n) {
      var i, j :| 0 <= i < n && 0 <= j < |P.rules[P.keys[i]]| &&
        Target(P.rules[P.keys[i]][j], vt).Some? && ([P.keys[i]], P.rules[P.keys[i]][j][0]) !in d;
      assert i == n - 1;
    }
    if r.Some? && key in d {
      if Edge(P, vt, n, key, s) {
        var i, j :| 0 <= i < n && 0 <= j < |P.rules[P.keys[i]]| &&
          Contributes(P.keys[i], P.rules[P.keys[i]][j], vt, key, s);
        if i < n - 1 {
          assert Edge(P, vt, n - 1, key, s);
        }
      }
      if s in r.value[key] && s !in d[key] && !Edge(P, vt, n - 1, key, s) {
        var j :| 0 <= j < |ps| && Contributes(k, ps[j], vt, key, s);
        assert Edge(P, vt, n, key, s) by {
          assert 0 <= n - 1 < n && P.keys[n - 1] == k;
        }
      }
      if Edge(P, vt, n - 1, key, s) {
        var i, j :| 0 <= i < n - 1 && 0 <= j < |P.rules[P.keys[i]]| &&
          Contributes(P.keys[i], P.rules[P.keys[i]][j], vt, key, s);
        assert Edge(P, vt, n, key, s);
      }
    }
  }

  /** A one-character name is a state exactly when it is a non-terminal or `X`. */
  lemma StatesMember(vn: set<char>, k: char)
    ensures [k] in States(vn) <==> k in vn || k == 'X'
  {
    if k in vn {
      assert [k] in set v | v in vn :: [v];
    }
    if [k] in set v | v in vn :: [v] {
      var v :| v in vn && [v] == [k];
      assert [v][0] == k;
    }
  }

  /** A production's target is on a terminal, so its entry exists exactly when its key is a state. */
  lemma EmptyDeltaEntry(vn: set<char>, vt: set<char>, k: char, p: string)
    requires Target(p, vt).Some?
    ensures ([k], p[0]) in EmptyDelta(States(vn), vt) <==> k in vn || k == 'X'
  {
    StatesMember(vn, k);
  }

  /**
   * `ToFiniteAutomaton` throws exactly when a production starting with a terminal
   * belongs to a key that is neither a non-terminal nor `X`.
   */
  lemma DeltaFails(vn: set<char>, vt: set<char>, P: Table)
    requires P.Valid()
    ensures DeltaSpec(vn, vt, P).None? <==>
      exists k, p :: k in P.rules && p in P.rules[k] && |p| > 0 && p[0] in vt && k !in vn && k != 'X'
  {
    var d := EmptyDelta(States(vn), vt);
    AddKeysEffect(d, P, vt, |P.keys|, ("X", 'a'), "X");
    if Missing(d, P, vt, |P.keys|) {
      var i, j :| 0 <= i < |P.keys| && 0 <= j < |P.rules[P.keys[i]]| &&
        Target(P.rules[P.keys[i]][j], vt).Some? && ([P.keys[i]], P.rules[P.keys[i]][j][0]) !in d;
      EmptyDeltaEntry(vn, vt, P.keys[i], P.rules[P.keys[i]][j]);
      assert P.rules[P.keys[i]][j] in P.rules[P.keys[i]];
    }
    if exists k, p :: k in P.rules && p in P.rules[k] && |p| > 0 && p[0] in vt && k !in vn && k != 'X' {
      var k, p :| k in P.rules && p in P.rules[k] && |p| > 0 && p[0] in vt && k !in vn && k != 'X';
      var i :| 0 <= i < |P.keys| && P.keys[i] == k;
      var j :| 0 <= j < |P.rules[k]| && P.rules[k][j] == p;
      EmptyDeltaEntry(vn, vt, k, p);
      assert Missing(d, P, vt, |P.keys|);
    }
  }

  /**
   * When it does not throw, `Delta` has an entry for every (state, terminal) pair and no
   * other. A state `s` is in the entry `(q, a)` exactly when some production `p` of a key
   * `k` with `q == [k]` starts with `a` and has target `s`.
   */
  lemma DeltaEdges(vn: set<char>, vt: set<char>, P: Table, q: State, a: char, s: State)
    requires P.Valid() && DeltaSpec(vn, vt, P).Some?
    ensures DeltaSpec(vn, vt, P).value.Keys == EmptyDelta(States(vn), vt).Keys
    ensures (q, a) in DeltaSpec(vn, vt, P).value <==> q in States(vn) && a in vt
    ensures (q, a) in DeltaSpec(vn, vt, P).value ==>
      (s in DeltaSpec(vn, vt, P).value[(q, a)] <==>
        exists k, p :: k in P.rules && p in P.rules[k] && Contributes(k, p, vt, (q, a), s))
  {
    var d := EmptyDelta(States(vn), vt);
    AddKeysEffect(d, P, vt, |P.keys|, (q, a), s);
    if (q, a) in d && Edge(P, vt, |P.keys|, (q, a), s) {
      var i, j :| 0 <= i < |P.keys| && 0 <= j < |P.rules[P.keys[i]]| &&
        Contributes(P.keys[i], P.rules[P.keys[i]][j], vt, (q, a), s);
      assert P.rules[P.keys[i]][j] in P.rules[P.keys[i]];
    }
    if (q, a) in d && exists k, p :: k in P.rules && p in P.rules[k] && Contributes(k, p, vt, (q, a), s) {
      var k, p :| k in P.rules && p in P.rules[k] && Contributes(k, p, vt, (q, a), s);
      var i :| 0 <= i < |P.keys| && P.keys[i] == k;
      var j :| 0 <= j < |P.rules[k]| && P.rules[k][j] == p;
      assert Edge(P, vt, |P.keys|, (q, a), s);
    }
  }

  /** A lone terminal `a` of `A` adds `"X"` to `Delta(A, a)` (:96-99). */
  lemma TerminalEdge(vn: set<char>, vt: set<char>, P: Table, A: char, a: char)
    requires P.Valid() && DeltaSpec(vn, vt, P).Some?
    requires A in P.rules && [a] in P.rules[A] && a in vt
    ensures ([A], a) in DeltaSpec(vn, vt, P).value && "X" in DeltaSpec(vn, vt, P).value[([A], a)]
  {
    DeltaFails(vn, vt, P);
    StatesMember(vn, A);
    DeltaEdges(vn, vt, P, [A], a, "X");
    assert Contributes(A, [a], vt, ([A], a), "X");
  }

  /**
   * A production `aB...` of `A` adds `B` to `Delta(A, a)`; the characters after the
   * second play no part (:100-104).
   */
  lemma PairEdge(vn: set<char>, vt: set<char>, P: Table, A: char, p: string)
    requires P.Valid() && DeltaSpec(vn, vt, P).Some?
    requires A in P.rules && p in P.rules[A] && |p| > 1 && p[0] in vt
    ensures ([A], p[0]) in DeltaSpec(vn, vt, P).value && [p[1]] in DeltaSpec(vn, vt, P).value[([A], p[0])]
  {
    DeltaFails(vn, vt, P);
    StatesMember(vn, A);
    DeltaEdges(vn, vt, P, [A], p[0], [p[1]]);
    assert Contributes(A, p, vt, ([A], p[0]), [p[1]]);
  }

  /** The skeleton loops of :84-90, over the sets in any order. */
  method InitDelta(Q: set<State>, sigma: set<char>) returns (d: Transitions)
    ensures d == EmptyDelta(Q, sigma)
  {
    d := map[];
    var states := Q;
    while states != {}
      invariant states <= Q
      invariant forall key :: key in d <==> key.0 in Q - states && key.1 in sigma
      invariant forall key :: key in d ==> d[key] == {}
      decreases |states|
    {
      var state :| state in states;
      var symbols := sigma;
      while symbols != {}
        invariant symbols <= sigma
        invariant forall key :: key in d <==>
          (key.0 in Q - states && key.1 in sigma) || (key.0 == state && key.1 in sigma - symbols)
        invariant forall key :: key in d ==> d[key] == {}
        decreases |symbols|
      {
        var symbol :| symbol in symbols;
        d := d[(state, symbol) := {}];
        symbols := symbols - {symbol};
      }
      states := states - {state};
    }
    assert d.Keys == EmptyDelta(Q, sigma).Keys;
  }

  /** The production loop of :94-105 for one key. */
  method AddProductionsLoop(d0: Transitions, k: char, ps: seq<string>, vt: set<char>) returns (r: Option<Transitions>)
    ensures r == AddProductions(d0, k, ps, vt, |ps|)
  {
    var d := d0;
    for j := 0 to |ps|
      invariant AddProductions(d0, k, ps, vt, j) == Some(d)
    {
      var production := ps[j];
      AddProductionsNext(d0, k, ps, vt, j);
      if |production| == 1 && production[0] in vt {
        if ([k], production[0]) !in d {
          AddProductionsNoneStays(d0, k, ps, vt, j + 1);
          return None;
        }
        d := d[([k], production[0]) := d[([k], production[0])] + {"X"}];
      } else if |production| > 0 && production[0] in vt {
        var nextState := if |production| > 1 then [production[1]] else "X";
        if ([k], production[0]) !in d {
          AddProductionsNoneStays(d0, k, ps, vt, j + 1);
          return None;
        }
        d := d[([k], production[0]) := d[([k], production[0])] + {nextState}];
      }
    }
    r := Some(d);
  }

  lemma {:induction false} AddProductionsNoneStays(d: Transitions, k: char, ps: seq<string>, vt: set<char>, n: nat)
    requires n <= |ps| && AddProductions(d, k, ps, vt, n).None?
    ensures AddProductions(d, k, ps, vt, |ps|).None?
    decreases |ps| - n
  {
    if n < |ps| {
      AddProductionsNext(d, k, ps, vt, n);
      AddProductionsNoneStays(d, k, ps, vt, n + 1);
    }
  }

  lemma {:induction false} AddKeysNoneStays(d: Transitions, P: Table, vt: set<char>, n: nat)
    requires n <= |P.keys| && forall k :: k in P.keys ==> k in P.rules
    requires AddKeys(d, P, vt, n).None?
    ensures AddKeys(d, P, vt, |P.keys|).None?
    decreases |P.keys| - n
  {
    if n < |P.keys| {
      AddKeysNext(d, P, vt, n);
      AddKeysNoneStays(d, P, vt, n + 1);
    }
  }

  /** `Grammar` (:1-16), without the random generators. */
  class Grammar {
    var VN: set<char>
    var VT: set<char>
    var P: Table
    var S: char

    constructor(vn: set<char>, vt: set<char>, p: Table, s: char)
      ensures VN == vn && VT == vt && P == p && S == s
    {
      VN := vn;
      VT := vt;
      P := p;
      S := s;
    }

    /**
     * `ToFiniteAutomaton` (:76-109). `None` stands for the exception of a production on a
     * key that has no state.
     */
    method ToFiniteAutomaton() returns (fa: Option<FiniteAutomaton>)
      requires P.Valid()
      ensures fa.None? <==> DeltaSpec(VN, VT, P).None?
      ensures fa.Some? ==> fresh(fa.value)
      ensures fa.Some? ==>
        && fa.value.Q == States(VN)
        && fa.value.Sigma == VT
        && fa.value.Delta == DeltaSpec(VN, VT, P).value
        && fa.value.q0 == {[S]}
        && fa.value.F == {"X"}
    {
      var Q := States(VN);
      var Sigma := VT;
      var Delta := InitDelta(Q, Sigma);
      var q0 := {[S]};
      var F := {"X"};
      for i := 0 to |P.keys|
        invariant AddKeys(EmptyDelta(Q, Sigma), P, VT, i) == Some(Delta)
      {
        var key := P.keys[i];
        AddKeysNext(EmptyDelta(Q, Sigma), P, VT, i);
        var r := AddProductionsLoop(Delta, key, P.rules[key], VT);
        if r.None? {
          AddKeysNoneStays(EmptyDelta(Q, Sigma), P, VT, i + 1);
          return None;
        }
        Delta := r.value;
      }
      var automaton := new FiniteAutomaton(Q, Sigma, Delta, q0, F);
      fa := Some(automaton);
    }
  }
}
