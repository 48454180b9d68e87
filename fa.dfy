/**
 * The finite automaton builder: an automaton is a list of states, each
 * with a list of labelled transitions to state indices; `BuildFromRegex`
 * reads a pattern and chains one new state onto the end state for every
 * character of its alphabet.
 */
module FiniteAutomata {

  /** A labelled transition: the character read and the index of the state it leads to. */
  type Transition = (char, int)

  /** The characters of the pattern alphabet: ASCII letters, digits, `-` and `_`. */
  predicate InAlphabet(c: char) {
    ('a' <= c <= 'z') || ('A' <= c <= 'Z') || ('0' <= c <= '9') || c == '-' || c == '_'
  }

  /** The alphabet characters of `regex`, in order. */
  function Letters(regex: seq<char>): (w: seq<char>)
    ensures |w| <= |regex|
    ensures forall k :: 0 <= k < |w| ==> InAlphabet(w[k])
  {
    if regex == [] then []
    else Letters(regex[..|regex| - 1]) + (if InAlphabet(regex[|regex| - 1]) then [regex[|regex| - 1]] else [])
  }

  /** A transition table: the transitions of each state, by index. */
  type Table = seq<seq<Transition>>

  /** One character of the pattern: an alphabet character chains a new state onto the last one. */
  function Extended(t: Table, c: char): Table
    requires |t| >= 1
  {
    if InAlphabet(c) then t[|t| - 1 := t[|t| - 1] + [(c, |t|)]] + [[]] else t
  }

  /** The table after the characters of `regex`, read left to right. */
  function Built(t: Table, regex: seq<char>): (r: Table)
    requires |t| >= 1
    ensures |r| >= 1
  {
    if regex == [] then t else Extended(Built(t, regex[..|regex| - 1]), regex[|regex| - 1])
  }

  /** Every alphabet character adds exactly one state; the states before the old last one are untouched. */
  lemma {:induction false} BuiltGrows(t: Table, regex: seq<char>)
    requires |t| >= 1
    ensures |Built(t, regex)| == |t| + |Letters(regex)|
    ensures Built(t, regex)[..|t| - 1] == t[..|t| - 1]
  {
    if regex != [] {
      BuiltGrows(t, regex[..|regex| - 1]);
    }
  }

  /** The chain for the word `w`: state `i` reads `w[i]` into state `i + 1`; the last state has no transitions. */
  ghost predicate IsChain(t: Table, w: seq<char>) {
    && |t| == |w| + 1
    && (forall i :: 0 <= i < |w| ==> t[i] == [(w[i], i + 1)])
    && t[|w|] == []
  }

  /** Built from a fresh automaton, the table is the chain of the pattern's alphabet characters. */
  lemma {:induction false} FreshBuildIsChain(regex: seq<char>)
    ensures IsChain(Built([[]], regex), Letters(regex))
  {
    if regex != [] {
      var init := regex[..|regex| - 1];
      FreshBuildIsChain(init);
      var c := regex[|regex| - 1];
      assert regex[..|regex| - 1] == init;
      var t := Built([[]], init);
      var w := Letters(init);
      if InAlphabet(c) {
        var t' := Extended(t, c);
        assert Letters(regex) == w + [c];
        forall i | 0 <= i < |w| + 1
          ensures t'[i] == [((w + [c])[i], i + 1)]
        {
          if i == |w| {
            assert t'[i] == t[|w|] + [(c, |t|)];
          }
        }
      }
    }
  }

  /** A node of the automaton, with its outgoing transitions in the order they were added. */
  class State {
    var transitions: seq<Transition>

    constructor ()
      ensures transitions == []
    {
      transitions := [];
    }

    method AddTransition(c: char, target: int)
      modifies this
      ensures transitions == old(transitions) + [(c, target)]
    {
      transitions := transitions + [(c, target)];
    }
  }

  /** An automaton: its states, its start and current end state, and its final states by index. */
  class FiniteAutomaton {
    var nElements: int
    var states: seq<State>
    var start: State
    var end: State
    var finalStates: seq<int>
    /** The transitions of every state, by index. */
    ghost var table: Table

    /**
     * The states are distinct objects, `start` the first and `end` the
     * last of them, `nElements` counts them, and the single final state is
     * the last one.
     */
    ghost predicate Valid()
      reads this, states
    {
      && |states| >= 1
      && |table| == |states|
      && (forall i :: 0 <= i < |states| ==> table[i] == states[i].transitions)
      && nElements == |states|
      && start == states[0]
      && end == states[|states| - 1]
      && finalStates == [|states| - 1]
      && forall i, j :: 0 <= i < j < |states| ==> states[i] != states[j]
    }

    /** A fresh automaton: one state without transitions, which is both start and final. */
    constructor ()
      ensures Valid() && fresh(states)
      ensures nElements == 1 && start == end && finalStates == [0]
      ensures table == [[]]
    {
      nElements := 1;
      var s := new State();
      start := s;
      end := s;
      finalStates := [0];
      states := [s];
      table := [[]];
    }

    function NumElements(): (n: int)
      requires Valid()
      reads this, states
      ensures n == |states| >= 1
    {
      nElements
    }

    function GetStates(): (r: seq<State>)
      requires Valid()
      reads this, states
      ensures |r| == NumElements() && r[0] == start && r[|r| - 1] == end
    {
      states
    }

    function GetFinalStates(): (r: seq<int>)
      requires Valid()
      reads this, states
      ensures r == [NumElements() - 1]
    {
      finalStates
    }

    /** Reads one pattern character: an alphabet character gets a new end state, reached from the old one. */
    method Read(c: char)
      requires Valid()
      modifies this, end
      ensures Valid() && start == old(start)
      ensures if InAlphabet(c) then |states| == |old(states)| + 1 && fresh(states[|states| - 1]) else states == old(states)
      ensures states[..|old(states)|] == old(states)
      ensures table == Extended(old(table), c)
    {
      if InAlphabet(c) {
        var newState := new State();
        end.AddTransition(c, |states|);
        table := Extended(table, c);
        end := newState;
        states := states + [newState];
        nElements := nElements + 1;
        finalStates := finalStates[0 := |states| - 1];
        assert forall k :: 0 <= k < |states| - 2 ==> states[k] != states[|states| - 2];
      }
    }

    /** Chains one new state onto the end state for every alphabet character of `regex`, left to right. */
    method BuildFromRegex(regex: seq<char>)
      requires Valid()
      modifies this, states
      ensures Valid() && start == old(start)
      ensures |states| >= |old(states)| && states[..|old(states)|] == old(states)
      ensures forall k :: |old(states)| <= k < |states| ==> fresh(states[k])
      ensures table == Built(old(table), regex)
      ensures |states| == |old(states)| + |Letters(regex)|
    {
      ghost var t0 := table;
      var i := 0;
      while i < |regex|
        invariant 0 <= i <= |regex|
        invariant Valid() && start == old(start)
        invariant |states| >= |old(states)| && states[..|old(states)|] == old(states)
        invariant forall k :: |old(states)| <= k < |states| ==> fresh(states[k])
        invariant table == Built(t0, regex[..i])
      {
        assert regex[..i + 1][..i] == regex[..i];
        Read(regex[i]);
        i := i + 1;
      }
      assert regex[..|regex|] == regex;
      BuiltGrows(t0, regex);
    }
  }
}
