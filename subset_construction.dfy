/**
 * The automaton utilities of Lab2/FiniteAutomata/main.py: the automaton record, its
 * regular grammar, the determinism test and the subset construction. Python sets are
 * iterated in an order the language does not fix, so the loops here pick elements in
 * any order; every contract holds for all orders.
 */
module SubsetConstruction {
  import opened StringOrder

  /** `transition_function`: one target state per (state, letter). */
  type Delta = map<(string, char), string>

  /** `'ε'`, the empty right-hand side of an accepting state (:20). */
  const Epsilon: string := "ε"

  /**
   * The right-hand sides `to_regular_grammar` gives state `s` (:13-20): letter then
   * target for each transition of `s` on a letter of the alphabet, and `'ε'` when `s`
   * accepts.
   */
  function Productions(delta: Delta, alphabet: set<char>, accept: set<string>, s: string): set<string> {
    (set c | c in alphabet && (s, c) in delta :: [c] + delta[(s, c)]) + (if s in accept then {Epsilon} else {})
  }

  /**
   * Reading a production back: it is `'ε'` of an accepting state, or its first character
   * is a letter on which `s` has a transition, and the rest is that transition's target.
   */
  lemma ProductionsInverse(delta: Delta, alphabet: set<char>, accept: set<string>, s: string, p: string)
    ensures p in Productions(delta, alphabet, accept, s) <==>
      (p == Epsilon && s in accept) ||
      (|p| > 0 && p[0] in alphabet && (s, p[0]) in delta && delta[(s, p[0])] == p[1..])
  {
    var edges := set c | c in alphabet && (s, c) in delta :: [c] + delta[(s, c)];
    if p in edges {
      var c :| c in alphabet && (s, c) in delta && p == [c] + delta[(s, c)];
      assert p[0] == c && p[1..] == delta[(s, c)];
    }
    if |p| > 0 && p[0] in alphabet && (s, p[0]) in delta && delta[(s, p[0])] == p[1..] {
      assert p == [p[0]] + delta[(s, p[0])];
      assert p in edges;
    }
  }

  /** `FiniteAutomaton` (:3-9, :11-21). */
  class FiniteAutomaton {
    var states: set<string>
    var alphabet: set<char>
    var transition_function: Delta
    var start_state: string
    var accept_states: set<string>

    constructor(states: set<string>, alphabet: set<char>, transition_function: Delta,
                start_state: string, accept_states: set<string>)
      ensures this.states == states && this.alphabet == alphabet
      ensures this.transition_function == transition_function
      ensures this.start_state == start_state && this.accept_states == accept_states
    {
      this.states := states;
      this.alphabet := alphabet;
      this.transition_function := transition_function;
      this.start_state := start_state;
      this.accept_states := accept_states;
    }

    /** `to_regular_grammar` (:11-21): one entry per state, holding its productions. */
    method ToRegularGrammar() returns (grammar: map<string, set<string>>)
      ensures grammar.Keys == states
      ensures forall s :: s in grammar ==> grammar[s] == Productions(transition_function, alphabet, accept_states, s)
    {
      grammar := map[];
      var remaining := states;
      while remaining != {}
        invariant remaining <= states
        invariant grammar.Keys == states - remaining
        invariant forall s :: s in grammar ==> grammar[s] == Productions(transition_function, alphabet, accept_states, s)
        decreases |remaining|
      {
        var state :| state in remaining;
        var productions := StateProductions(state);
        grammar := grammar[state := productions];
        remaining := remaining - {state};
      }
    }

    /** The body of the state loop of `to_regular_grammar` (:14-20). */
    method StateProductions(state: string) returns (productions: set<string>)
      ensures productions == Productions(transition_function, alphabet, accept_states, state)
    {
      productions := {};
      var chars := alphabet;
      while chars != {}
        invariant chars <= alphabet
        invariant productions == set c | c in alphabet - chars && (state, c) in transition_function :: [c] + transition_function[(state, c)]
        decreases |chars|
      {
        var c :| c in chars;
        if (state, c) in transition_function {
          var target_state := transition_function[(state, c)];
          productions := productions + {[c] + target_state};
        }
        chars := chars - {c};
      }
      if state in accept_states {
        productions := productions + {Epsilon};
      }
    }
  }

  /**
   * `is_deterministic` (:58-69) always returns True. A transition function holds one
   * target per (state, letter), and the letters of a set are distinct, so the test
   * `char in seen_transitions` that would return False never succeeds.
   */
  method IsDeterministic(fa: FiniteAutomaton) returns (b: bool)
    ensures b
  {
    var remaining := fa.states;
    while remaining != {}
      decreases |remaining|
    {
      var state :| state in remaining;
      var seen: map<char, string> := map[];
      var chars := fa.alphabet;
      while chars != {}
        invariant chars <= fa.alphabet
        invariant seen.Keys !! chars
        decreases |chars|
      {
        var c :| c in chars;
        if (state, c) in fa.transition_function {
          if c in seen {
            // The source returns False here; the letter was not seen before.
            assert false;
          }
          seen := seen[c := fa.transition_function[(state, c)]];
        }
        chars := chars - {c};
      }
      remaining := remaining - {state};
    }
    b := true;
  }

  /** The NFA states reached from the subset `X` on letter `c` (:81-84). */
  function Succ(delta: Delta, X: set<string>, c: char): set<string> {
    set s | s in X && (s, c) in delta :: delta[(s, c)]
  }

  /** Every target of the transition function. */
  function Targets(delta: Delta): set<string> {
    set key | key in delta :: delta[key]
  }

  lemma SuccWithin(delta: Delta, X: set<string>, c: char)
    ensures Succ(delta, X, c) <= Targets(delta)
  {
    forall t | t in Succ(delta, X, c) ensures t in Targets(delta) {
      var s :| s in X && (s, c) in delta && t == delta[(s, c)];
    }
  }

  /** All subsets of `R`. */
  ghost function PowerSet(R: set<string>): set<set<string>>
    decreases |R|
  {
    if R == {} then {{}}
    else
      var x :| x in R;
      var rest := PowerSet(R - {x});
      rest + set Y | Y in rest :: Y + {x}
  }

  lemma {:induction false} PowerSetMember(R: set<string>, X: set<string>)
    requires X <= R
    ensures X in PowerSet(R)
    decreases |R|
  {
    if R != {} {
      var x :| x in R && PowerSet(R) == PowerSet(R - {x}) + set Y | Y in PowerSet(R - {x}) :: Y + {x};
      PowerSetMember(R - {x}, X - {x});
      if x in X {
        assert X == (X - {x}) + {x};
      } else {
        assert X == X - {x};
      }
    }
  }

  /** Every name a subset of `R` can have: a finite bound on the DFA's states. */
  ghost function Names(R: set<string>): set<string> {
    set X | X in PowerSet(R) :: Name(X)
  }

  lemma NamesMember(R: set<string>, X: set<string>)
    requires X <= R
    ensures Name(X) in Names(R)
  {
    PowerSetMember(R, X);
  }

  /** The DFA entry `key` leads to `t`, and `t`'s subset meets the accepting states. */
  ghost predicate Hit(delta: Delta, F: set<string>, subsets: map<string, set<string>>, key: (string, char), t: string) {
    && key.0 in subsets
    && var next := Succ(delta, subsets[key.0], key.1);
    && next != {} && Name(next) == t && next * F != {}
  }

  /** Each DFA state names the NFA subset recorded for it, a subset of `R`. */
  ghost predicate Named(R: set<string>, states: set<string>, subsets: map<string, set<string>>) {
    && subsets.Keys == states
    && forall n :: n in subsets ==> Name(subsets[n]) == n && subsets[n] <= R
  }

  /** `subsets'` keeps every entry of `subsets`. */
  ghost predicate Extends(subsets: map<string, set<string>>, subsets': map<string, set<string>>) {
    forall n :: n in subsets ==> n in subsets' && subsets'[n] == subsets[n]
  }

  /**
   * Exactly the visited pairs (`handled`) with a non-empty successor subset have a
   * transition, to the name of that subset, which is a state.
   */
  ghost predicate Edges(delta: Delta, states: set<string>, trans: Delta, subsets: map<string, set<string>>,
                        handled: set<(string, char)>) {
    && (forall key :: key in handled ==> key.0 in subsets)
    && (forall key :: key in trans <==> key in handled && Succ(delta, subsets[key.0], key.1) != {})
    && (forall key :: key in trans ==> trans[key] == Name(Succ(delta, subsets[key.0], key.1)) && trans[key] in states)
  }

  /** A name accepts exactly when some visited pair leads to it with a subset meeting `F`. */
  ghost predicate Accepting(delta: Delta, F: set<string>, accept: set<string>, subsets: map<string, set<string>>,
                            handled: set<(string, char)>) {
    forall t :: t in accept <==> exists key :: key in handled && Hit(delta, F, subsets, key, t)
  }

  /** Every state but `q0` is the target of some transition: a state is added only with one. */
  ghost predicate Reached(states: set<string>, trans: Delta) {
    forall n :: n in states ==> n == "q0" || exists key :: key in trans && trans[key] == n
  }

  /** The DFA built so far, described by the subsets its states name. */
  ghost predicate Recorded(delta: Delta, F: set<string>, R: set<string>, states: set<string>, accept: set<string>,
                           trans: Delta, subsets: map<string, set<string>>, handled: set<(string, char)>) {
    && Named(R, states, subsets) && Edges(delta, states, trans, subsets, handled) && Accepting(delta, F, accept, subsets, handled)
    && Reached(states, trans)
  }

  /** The successor loop of :81-84. */
  method Successors(delta: Delta, X: set<string>, c: char) returns (next: set<string>)
    ensures next == Succ(delta, X, c)
  {
    next := {};
    var remaining := X;
    while remaining != {}
      invariant remaining <= X
      invariant next == Succ(delta, X - remaining, c)
      decreases |remaining|
    {
      var state :| state in remaining;
      if (state, c) in delta {
        next := next + {delta[(state, c)]};
      }
      remaining := remaining - {state};
      assert X - remaining == (X - (remaining + {state})) + {state};
    }
    assert X - remaining == X;
  }

  /** The states and subsets after visiting the pair (name of `X`, `c`). */
  ghost predicate Visited(delta: Delta, X: set<string>, c: char, states: set<string>, subsets: map<string, set<string>>,
                          states': set<string>, subsets': map<string, set<string>>) {
    var next := Succ(delta, X, c);
    && states' == (if next != {} then states + {Name(next)} else states)
    && subsets' == (if next != {} && Name(next) !in states then subsets[Name(next) := next] else subsets)
  }

  lemma VisitNamed(delta: Delta, R: set<string>, X: set<string>, c: char, states: set<string>, subsets: map<string, set<string>>,
                   states': set<string>, subsets': map<string, set<string>>)
    requires Named(R, states, subsets) && Targets(delta) <= R
    requires Visited(delta, X, c, states, subsets, states', subsets')
    ensures Named(R, states', subsets') && Extends(subsets, subsets')
  {
    SuccWithin(delta, X, c);
  }

  lemma VisitEdges(delta: Delta, X: set<string>, c: char, states: set<string>, trans: Delta, subsets: map<string, set<string>>,
                   handled: set<(string, char)>, states': set<string>, trans': Delta, subsets': map<string, set<string>>)
    requires Edges(delta, states, trans, subsets, handled) && states <= states' && Extends(subsets, subsets')
    requires Name(X) in subsets && subsets[Name(X)] == X && (Name(X), c) !in handled
    requires var next := Succ(delta, X, c);
      && (next != {} ==> Name(next) in states')
      && trans' == (if next != {} then trans[(Name(X), c) := Name(next)] else trans)
    ensures Edges(delta, states', trans', subsets', handled + {(Name(X), c)})
  {
    var handled' := handled + {(Name(X), c)};
    forall key | key in handled' ensures key.0 in subsets' && subsets'[key.0] == subsets[key.0] {
    }
  }

  lemma VisitAccepting(delta: Delta, F: set<string>, X: set<string>, c: char, accept: set<string>, subsets: map<string, set<string>>,
                       handled: set<(string, char)>, accept': set<string>, subsets': map<string, set<string>>)
    requires Accepting(delta, F, accept, subsets, handled) && Extends(subsets, subsets')
    requires forall key :: key in handled ==> key.0 in subsets
    requires Name(X) in subsets && subsets[Name(X)] == X
    requires var next := Succ(delta, X, c);
      accept' == (if next != {} && next * F != {} then accept + {Name(next)} else accept)
    ensures Accepting(delta, F, accept', subsets', handled + {(Name(X), c)})
  {
    var handled' := handled + {(Name(X), c)};
    forall t ensures t in accept' <==> exists key :: key in handled' && Hit(delta, F, subsets', key, t) {
      if t in accept {
        var key :| key in handled && Hit(delta, F, subsets, key, t);
        assert key in handled' && Hit(delta, F, subsets', key, t);
      }
      if t in accept' && t !in accept {
        assert Hit(delta, F, subsets', (Name(X), c), t);
      }
      if exists key :: key in handled' && Hit(delta, F, subsets', key, t) {
        var key :| key in handled' && Hit(delta, F, subsets', key, t);
        if key != (Name(X), c) {
          assert Hit(delta, F, subsets, key, t);
        }
      }
    }
  }

  /**
   * One letter of the loop of :80-92 for the popped subset `X`: the successor subset, its
   * transition, its state and worklist entry when the name is new, and its acceptance.
   * `done` holds the states already popped, `X`'s among them.
   */
  /** A visit adds a state only together with the transition that leads to it. */
  lemma VisitReached(delta: Delta, X: set<string>, c: char, states: set<string>, trans: Delta, subsets: map<string, set<string>>,
                     states': set<string>, trans': Delta, subsets': map<string, set<string>>)
    requires Reached(states, trans) && (Name(X), c) !in trans
    requires Visited(delta, X, c, states, subsets, states', subsets')
    requires var next := Succ(delta, X, c);
      trans' == (if next != {} then trans[(Name(X), c) := Name(next)] else trans)
    ensures Reached(states', trans')
  {
    forall n | n in states' && n != "q0" ensures exists key :: key in trans' && trans'[key] == n {
      if n in states {
        var key :| key in trans && trans[key] == n;
        assert key in trans' && trans'[key] == n;
      } else {
        assert trans'[(Name(X), c)] == n;
      }
    }
  }

  method Visit(delta: Delta, F: set<string>, ghost R: set<string>, X: set<string>, c: char,
               states: set<string>, accept: set<string>, trans: Delta, unprocessed: seq<set<string>>,
               ghost subsets: map<string, set<string>>, ghost handled: set<(string, char)>, ghost done: set<string>)
    returns (states': set<string>, accept': set<string>, trans': Delta, unprocessed': seq<set<string>>,
             ghost subsets': map<string, set<string>>)
    requires Recorded(delta, F, R, states, accept, trans, subsets, handled)
    requires Name(X) in subsets && subsets[Name(X)] == X && (Name(X), c) !in handled
    requires Targets(delta) <= R
    requires Pending(unprocessed, states, done, subsets) && done <= states
    ensures Recorded(delta, F, R, states', accept', trans', subsets', handled + {(Name(X), c)})
    ensures states <= states' && Extends(subsets, subsets') && Pending(unprocessed', states', done, subsets')
    ensures |states| < |states'| || (states' == states && unprocessed' == unprocessed)
  {
    var next_new_state := Successors(delta, X, c);
    states', accept', trans', unprocessed', subsets' := states, accept, trans, unprocessed, subsets;
    if next_new_state != {} {
      var new_state_name := Name(next_new_state);
      trans' := trans[(Name(X), c) := new_state_name];
      if new_state_name !in states {
        states' := states + {new_state_name};
        unprocessed' := unprocessed + [next_new_state];
        subsets' := subsets[new_state_name := next_new_state];
      }
      if next_new_state * F != {} {
        accept' := accept + {new_state_name};
      }
    }
    VisitNamed(delta, R, X, c, states, subsets, states', subsets');
    VisitEdges(delta, X, c, states, trans, subsets, handled, states', trans', subsets');
    VisitAccepting(delta, F, X, c, accept, subsets, handled, accept', subsets');
    VisitReached(delta, X, c, states, trans, subsets, states', trans', subsets');
    PendingVisit(delta, X, c, unprocessed, done, states, subsets, states', subsets', unprocessed');
  }

  /**
   * The letter loop of :80-92 for the popped subset `X`: every letter of the alphabet is
   * visited, and the worklist only grows by the subsets of new states.
   */
  method ProcessSubset(delta: Delta, alphabet: set<char>, F: set<string>, ghost R: set<string>, X: set<string>,
                       states: set<string>, accept: set<string>, trans: Delta, unprocessed: seq<set<string>>,
                       ghost subsets: map<string, set<string>>, ghost handled: set<(string, char)>, ghost done: set<string>)
    returns (states': set<string>, accept': set<string>, trans': Delta, unprocessed': seq<set<string>>,
             ghost subsets': map<string, set<string>>, ghost handled': set<(string, char)>)
    requires Recorded(delta, F, R, states, accept, trans, subsets, handled)
    requires Name(X) in subsets && subsets[Name(X)] == X && Targets(delta) <= R
    requires forall key :: key in handled ==> key.0 != Name(X)
    requires Pending(unprocessed, states, done, subsets) && done <= states
    ensures Recorded(delta, F, R, states', accept', trans', subsets', handled')
    ensures forall key :: key in handled' <==> key in handled || (key.0 == Name(X) && key.1 in alphabet)
    ensures states <= states' && Extends(subsets, subsets') && Pending(unprocessed', states', done, subsets')
    ensures |states| < |states'| || (states' == states && unprocessed' == unprocessed)
  {
    states', accept', trans', unprocessed', subsets', handled' := states, accept, trans, unprocessed, subsets, handled;
    var chars := alphabet;
    while chars != {}
      invariant chars <= alphabet
      invariant Recorded(delta, F, R, states', accept', trans', subsets', handled')
      invariant forall key :: key in handled' <==> key in handled || (key.0 == Name(X) && key.1 in alphabet - chars)
      invariant states <= states' && Extends(subsets, subsets') && Pending(unprocessed', states', done, subsets')
      invariant |states| < |states'| || (states' == states && unprocessed' == unprocessed)
      decreases |chars|
    {
      var c :| c in chars;
      ghost var statesBefore := states';
      states', accept', trans', unprocessed', subsets' :=
        Visit(delta, F, R, X, c, states', accept', trans', unprocessed', subsets', handled', done);
      handled' := handled' + {(Name(X), c)};
      chars := chars - {c};
    }
  }

  /**
   * The worklist `w` holds the subsets of the states not yet processed (not in `done`),
   * each once.
   */
  ghost predicate Pending(w: seq<set<string>>, states: set<string>, done: set<string>, subsets: map<string, set<string>>) {
    Queued(w, states, done, subsets) && DistinctNames(w) && Covered(w, states, done)
  }

  /** Each queued subset names an unprocessed state. */
  ghost predicate Queued(w: seq<set<string>>, states: set<string>, done: set<string>, subsets: map<string, set<string>>) {
    forall i :: 0 <= i < |w| ==> Name(w[i]) in states - done && Name(w[i]) in subsets && subsets[Name(w[i])] == w[i]
  }

  /** No two queued subsets have the same name. */
  ghost predicate DistinctNames(w: seq<set<string>>) {
    forall i, j :: 0 <= i < j < |w| ==> Name(w[i]) != Name(w[j])
  }

  /** Every unprocessed state is queued. */
  ghost predicate Covered(w: seq<set<string>>, states: set<string>, done: set<string>) {
    forall n :: n in states - done ==> exists i :: 0 <= i < |w| && Name(w[i]) == n
  }

  /** Popping the last subset moves its state to `done`. */
  lemma PendingPop(w: seq<set<string>>, states: set<string>, done: set<string>, subsets: map<string, set<string>>)
    requires w != [] && Pending(w, states, done, subsets)
    ensures Pending(w[..|w| - 1], states, done + {Name(w[|w| - 1])}, subsets)
  {
    var rest := w[..|w| - 1];
    var done' := done + {Name(w[|w| - 1])};
    forall i | 0 <= i < |rest| ensures Name(rest[i]) in states - done' && Name(rest[i]) in subsets && subsets[Name(rest[i])] == rest[i] {
      assert rest[i] == w[i];
    }
    forall i, j | 0 <= i < j < |rest| ensures Name(rest[i]) != Name(rest[j]) {
      assert rest[i] == w[i] && rest[j] == w[j];
    }
    forall n | n in states - done' ensures exists i :: 0 <= i < |rest| && Name(rest[i]) == n {
      assert n in states - done;
      var i :| 0 <= i < |w| && Name(w[i]) == n;
      assert rest[i] == w[i];
    }
  }

  /** A visit appends the subset of a new state, and nothing otherwise. */
  lemma PendingVisit(delta: Delta, X: set<string>, c: char, w: seq<set<string>>, done: set<string>,
                     states: set<string>, subsets: map<string, set<string>>,
                     states': set<string>, subsets': map<string, set<string>>, w': seq<set<string>>)
    requires Pending(w, states, done, subsets) && done <= states
    requires Visited(delta, X, c, states, subsets, states', subsets') && Extends(subsets, subsets')
    requires var next := Succ(delta, X, c);
      w' == (if next != {} && Name(next) !in states then w + [next] else w)
    ensures Pending(w', states', done, subsets')
  {
    var next := Succ(delta, X, c);
    if next != {} && Name(next) !in states {
      forall i | 0 <= i < |w'| ensures Name(w'[i]) in states' - done && Name(w'[i]) in subsets' && subsets'[Name(w'[i])] == w'[i] {
        if i < |w| {
          assert w'[i] == w[i];
        }
      }
      forall i, j | 0 <= i < j < |w'| ensures Name(w'[i]) != Name(w'[j]) {
        assert w'[i] == w[i];
        if j < |w| {
          assert w'[j] == w[j];
        }
      }
      forall n | n in states' - done ensures exists i :: 0 <= i < |w'| && Name(w'[i]) == n {
        if n in states {
          assert n in states - done;
          var i :| 0 <= i < |w| && Name(w[i]) == n;
          assert w'[i] == w[i];
        } else {
          assert w'[|w|] == next;
        }
      }
    } else {
      assert states' == states;
    }
  }

  /** An empty worklist means every state has been processed. */
  lemma PendingEmpty(states: set<string>, done: set<string>, subsets: map<string, set<string>>)
    requires Pending([], states, done, subsets) && done <= states
    ensures done == states
  {
    assert forall n :: n in states - done ==> false;
    assert states == done + (states - done);
  }

  /** Taking away a subset takes away its size. */
  lemma DifferenceCard<T>(A: set<T>, B: set<T>)
    requires B <= A
    ensures |A - B| == |A| - |B|
  {
    assert A == (A - B) + B;
  }

  /** Every state names a subset of `R`; a state added brings the unnamed ones closer to none. */
  lemma Bounded(R: set<string>, states: set<string>, states': set<string>, subsets': map<string, set<string>>)
    requires Named(R, states', subsets') && states <= states'
    ensures states' <= Names(R)
    ensures |states| < |states'| ==> |Names(R) - states'| < |Names(R) - states|
  {
    var names := Names(R);
    forall n | n in states' ensures n in names {
      NamesMember(R, subsets'[n]);
    }
    DifferenceCard(names, states);
    DifferenceCard(names, states');
  }

  /**
   * The state of the worklist loop of :78-92: the record of the DFA so far, every letter
   * of every popped state handled, the worklist pending, and the states bounded.
   */
  ghost predicate Building(delta: Delta, alphabet: set<char>, F: set<string>, R: set<string>,
                           states: set<string>, accept: set<string>, trans: Delta, unprocessed: seq<set<string>>,
                           subsets: map<string, set<string>>, handled: set<(string, char)>, done: set<string>) {
    && Recorded(delta, F, R, states, accept, trans, subsets, handled)
    && (forall key :: key in handled <==> key.0 in done && key.1 in alphabet)
    && done <= states && Pending(unprocessed, states, done, subsets)
    && Targets(delta) <= R && states <= Names(R)
  }

  /**
   * One round of the worklist loop (:79-92): pop the last subset and visit every letter
   * for it. Either a state is added, or the worklist shrinks.
   */
  method ProcessNext(delta: Delta, alphabet: set<char>, F: set<string>, ghost R: set<string>,
                     states: set<string>, accept: set<string>, trans: Delta, unprocessed: seq<set<string>>,
                     ghost subsets: map<string, set<string>>, ghost handled: set<(string, char)>, ghost done: set<string>)
    returns (states': set<string>, accept': set<string>, trans': Delta, unprocessed': seq<set<string>>,
             ghost subsets': map<string, set<string>>, ghost handled': set<(string, char)>, ghost done': set<string>)
    requires unprocessed != []
    requires Building(delta, alphabet, F, R, states, accept, trans, unprocessed, subsets, handled, done)
    ensures Building(delta, alphabet, F, R, states', accept', trans', unprocessed', subsets', handled', done')
    ensures Extends(subsets, subsets')
    ensures |Names(R) - states'| < |Names(R) - states| || (states' == states && |unprocessed'| < |unprocessed|)
  {
    var current_new_state := unprocessed[|unprocessed| - 1];
    PendingPop(unprocessed, states, done, subsets);
    unprocessed' := unprocessed[..|unprocessed| - 1];
    done' := done + {Name(current_new_state)};
    states', accept', trans', unprocessed', subsets', handled' :=
      ProcessSubset(delta, alphabet, F, R, current_new_state, states, accept, trans, unprocessed', subsets, handled, done');
    Bounded(R, states, states', subsets');
  }

  /**
   * `convert_ndfa_to_dfa` (:71-94). The ghost result `subsets` says which NFA subset each
   * DFA state names.
   */
  method ConvertNdfaToDfa(ndfa: FiniteAutomaton) returns (dfa: FiniteAutomaton, ghost subsets: map<string, set<string>>)
    ensures fresh(dfa)
    ensures dfa.start_state == "q0" && dfa.alphabet == ndfa.alphabet
    ensures "q0" in dfa.states && subsets.Keys == dfa.states && subsets["q0"] == {"q0"}
    ensures forall n :: n in subsets ==> Name(subsets[n]) == n
    ensures forall key :: key in dfa.transition_function ==>
      && key.0 in dfa.states && key.1 in ndfa.alphabet
      && dfa.transition_function[key] == Name(Succ(ndfa.transition_function, subsets[key.0], key.1))
      && dfa.transition_function[key] in dfa.states
    ensures forall n, c :: n in subsets && c in ndfa.alphabet ==>
      ((n, c) in dfa.transition_function <==> Succ(ndfa.transition_function, subsets[n], c) != {})
    ensures dfa.accept_states <= dfa.states
    ensures forall n :: n in dfa.states ==> n == "q0" || exists key :: key in dfa.transition_function && dfa.transition_function[key] == n
    ensures forall t :: t in dfa.accept_states <==>
      exists n, c :: n in subsets && c in ndfa.alphabet && Hit(ndfa.transition_function, ndfa.accept_states, subsets, (n, c), t)
  {
    var delta, alphabet, F := ndfa.transition_function, ndfa.alphabet, ndfa.accept_states;
    ghost var R := Targets(delta) + {"q0"};
    var new_states := {"q0"};
    var new_accept_states: set<string> := {};
    var new_transition_function: Delta := map[];
    var unprocessed_states := [{"q0"}];
    NameSingleton("q0");
    subsets := map["q0" := {"q0"}];
    ghost var done: set<string> := {};
    ghost var handled: set<(string, char)> := {};
    NamesMember(R, {"q0"});
    assert Name(unprocessed_states[0]) == "q0";
    while unprocessed_states != []
      invariant Building(delta, alphabet, F, R, new_states, new_accept_states, new_transition_function, unprocessed_states,
                         subsets, handled, done)
      invariant "q0" in new_states && subsets["q0"] == {"q0"}
      decreases |Names(R) - new_states|, |unprocessed_states|
    {
      new_states, new_accept_states, new_transition_function, unprocessed_states, subsets, handled, done :=
        ProcessNext(delta, alphabet, F, R, new_states, new_accept_states, new_transition_function, unprocessed_states,
                    subsets, handled, done);
    }
    PendingEmpty(new_states, done, subsets);
    dfa := new FiniteAutomaton(new_states, alphabet, new_transition_function, "q0", new_accept_states);
    ConvertResult(delta, alphabet, F, R, new_states, new_accept_states, new_transition_function, subsets, handled);
  }

  /** When the worklist is empty every state is handled, and the record gives the contract. */
  lemma ConvertResult(delta: Delta, alphabet: set<char>, F: set<string>, R: set<string>, states: set<string>,
                      accept: set<string>, trans: Delta, subsets: map<string, set<string>>, handled: set<(string, char)>)
    requires Recorded(delta, F, R, states, accept, trans, subsets, handled)
    requires forall key :: key in handled <==> key.0 in states && key.1 in alphabet
    ensures forall key :: key in trans ==>
      && key.0 in states && key.1 in alphabet
      && trans[key] == Name(Succ(delta, subsets[key.0], key.1))
      && trans[key] in states
    ensures forall n, c :: n in subsets && c in alphabet ==> ((n, c) in trans <==> Succ(delta, subsets[n], c) != {})
    ensures accept <= states
    ensures forall t :: t in accept <==> exists n, c :: n in subsets && c in alphabet && Hit(delta, F, subsets, (n, c), t)
    ensures forall n :: n in states ==> n == "q0" || exists key :: key in trans && trans[key] == n
  {
    forall n, c | n in subsets && c in alphabet ensures (n, c) in handled {
    }
    forall t | t in accept ensures t in states {
      var key :| key in handled && Hit(delta, F, subsets, key, t);
      assert key in trans;
    }
    forall t ensures t in accept <==> exists n, c :: n in subsets && c in alphabet && Hit(delta, F, subsets, (n, c), t) {
      if t in accept {
        var key :| key in handled && Hit(delta, F, subsets, key, t);
        assert key == (key.0, key.1);
      }
      if exists n, c :: n in subsets && c in alphabet && Hit(delta, F, subsets, (n, c), t) {
        var n, c :| n in subsets && c in alphabet && Hit(delta, F, subsets, (n, c), t);
        assert (n, c) in handled;
      }
    }
  }
}
