/**
 * The nondeterministic finite automaton of Lab1/RegularGrammars/FiniteAutomaton.cs and
 * its word test, which runs the set of current states forward one letter at a time.
 */
module RegularAutomaton {

  /** A state name. */
  type State = string

  /** `Delta`: a dictionary from (state, letter) to the set of successor states. */
  type Transitions = map<(State, char), set<State>>

  /** The states reached from `S` on letter `a`: the union of `Delta(s, a)` over `s` in `S`. */
  function Step(delta: Transitions, S: set<State>, a: char): set<State> {
    set s, t | s in S && (s, a) in delta && t in delta[(s, a)] :: t
  }

  /** The set of current states after reading `w` from `S`. */
  function Reach(delta: Transitions, S: set<State>, w: string): set<State> {
    if w == [] then S else Step(delta, Reach(delta, S, w[..|w| - 1]), w[|w| - 1])
  }

  /** The word is accepted when a state of the final set is accepting. */
  predicate Accepts(delta: Transitions, q0: set<State>, F: set<State>, w: string) {
    exists s :: s in Reach(delta, q0, w) && s in F
  }

  /**
   * Taking one more state into the current set adds exactly its successors on the letter,
   * and nothing when `(s, a)` has no entry.
   */
  lemma StepAdd(delta: Transitions, S: set<State>, s: State, a: char)
    ensures Step(delta, S + {s}, a) == Step(delta, S, a) + (if (s, a) in delta then delta[(s, a)] else {})
  {
    var extra := if (s, a) in delta then delta[(s, a)] else {};
    forall t | t in Step(delta, S + {s}, a) ensures t in Step(delta, S, a) + extra {
      var s' :| s' in S + {s} && (s', a) in delta && t in delta[(s', a)];
      if s' != s {
        assert s' in S;
      }
    }
    forall t | t in extra ensures t in Step(delta, S + {s}, a) {
      assert s in S + {s};
    }
  }

  /** From no state, no letter leads anywhere. */
  lemma StepEmpty(delta: Transitions, a: char)
    ensures Step(delta, {}, a) == {}
  {
  }

  /** The run composes: reading `u` then `v` is reading `u + v`. */
  lemma {:induction false} ReachAppend(delta: Transitions, S: set<State>, u: string, v: string)
    ensures Reach(delta, S, u + v) == Reach(delta, Reach(delta, S, u), v)
  {
    if v == [] {
      assert u + v == u;
    } else {
      var v' := v[..|v| - 1];
      assert (u + v)[..|u + v| - 1] == u + v';
      ReachAppend(delta, S, u, v');
    }
  }

  /** Once the current set is empty it stays empty. */
  lemma {:induction false} ReachFromEmpty(delta: Transitions, w: string)
    ensures Reach(delta, {}, w) == {}
  {
    if w != [] {
      ReachFromEmpty(delta, w[..|w| - 1]);
      StepEmpty(delta, w[|w| - 1]);
    }
  }

  /**
   * A prefix that leaves no current state rejects every extension of it.
   */
  lemma DeadPrefix(delta: Transitions, q0: set<State>, F: set<State>, u: string, v: string)
    requires Reach(delta, q0, u) == {}
    ensures Reach(delta, q0, u + v) == {}
    ensures !Accepts(delta, q0, F, u + v)
  {
    ReachAppend(delta, q0, u, v);
    ReachFromEmpty(delta, v);
  }

  /** The empty word is accepted exactly when an initial state is accepting. */
  lemma AcceptsEmpty(delta: Transitions, q0: set<State>, F: set<State>)
    ensures Accepts(delta, q0, F, []) <==> q0 * F != {}
  {
    assert Reach(delta, q0, []) == q0;
    if Accepts(delta, q0, F, []) {
      var s :| s in Reach(delta, q0, []) && s in F;
      assert s in q0 * F;
    }
    if q0 * F != {} {
      var s :| s in q0 * F;
      assert s in Reach(delta, q0, []);
    }
  }

  /** `FiniteAutomaton` (:1-35). */
  class FiniteAutomaton {
    var Q: set<State>
    var Sigma: set<char>
    var Delta: Transitions
    var q0: set<State>
    var F: set<State>

    constructor(q: set<State>, sigma: set<char>, delta: Transitions, initial: set<State>, f: set<State>)
      ensures Q == q && Sigma == sigma && Delta == delta && q0 == initial && F == f
    {
      Q := q;
      Sigma := sigma;
      Delta := delta;
      q0 := initial;
      F := f;
    }

    /**
     * `StringBelongsToLanguage` (:18-34). The initial set is copied, so no field changes;
     * the result is whether the run over `w` ends in an accepting state.
     */
    method StringBelongsToLanguage(w: string) returns (b: bool)
      ensures b <==> Accepts(Delta, q0, F, w)
    {
      var currentStates := q0;
      for i := 0 to |w|
        invariant currentStates == Reach(Delta, q0, w[..i])
      {
        var letter := w[i];
        assert w[..i + 1][..i] == w[..i];
        currentStates := NextStates(currentStates, letter);
      }
      assert w[..|w|] == w;
      b := exists state :: state in currentStates && state in F;
    }

    /** The body of the letter loop (:23-30): the successors of every current state. */
    method NextStates(currentStates: set<State>, letter: char) returns (nextStates: set<State>)
      ensures nextStates == Step(Delta, currentStates, letter)
    {
      nextStates := {};
      var remaining := currentStates;
      while remaining != {}
        invariant remaining <= currentStates
        invariant nextStates == Step(Delta, currentStates - remaining, letter)
        decreases |remaining|
      {
        var state :| state in remaining;
        StepAdd(Delta, currentStates - remaining, state, letter);
        assert currentStates - (remaining - {state}) == (currentStates - remaining) + {state};
        if (state, letter) in Delta {
          nextStates := nextStates + Delta[(state, letter)];
        }
        remaining := remaining - {state};
      }
      assert currentStates - remaining == currentStates;
    }
  }
}
