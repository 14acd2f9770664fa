/** The automaton model of lexer/automata.h: the epsilon symbol, the
    construction fragment handed over by the regex builder, and the two
    concrete automata (deterministic and nondeterministic) whose
    registration methods update their state, alphabet, start, accept and
    transition fields in place.  The shared `FiniteAutomaton` base class
    becomes two classes with the same fields. */
module Automata {
  import opened Ordered

  /** The reserved symbol of a transition that reads no input ('\0'). */
  const EPSILON: char := '\0'

  type NfaTable = map<(int, char), set<int>>
  type DfaTable = map<(int, char), int>

  /** A partial automaton for one sub-expression while the builder runs. */
  datatype NFAFragment = NFAFragment(startState: int, acceptStates: set<int>, transitions: NfaTable)

  datatype Option<T> = None | Some(value: T)

  /** The DFA ids 0 .. n-1, as the subset construction and minimisation number their states. */
  ghost function Ids(n: nat): (r: set<int>)
    ensures forall i :: i in r <==> 0 <= i < n
  {
    if n == 0 then {} else Ids(n - 1) + {n - 1}
  }

  // ---------------------------------------------------------------------
  // Tables as values

  /** The destinations recorded under one key, empty when the key is absent. */
  function Dests(t: NfaTable, key: (int, char)): set<int>
  {
    if key in t then t[key] else {}
  }

  ghost function Sources<V>(t: map<(int, char), V>): set<int>
  {
    set k | k in t :: k.0
  }

  ghost function Symbols<V>(t: map<(int, char), V>): set<char>
  {
    set k | k in t :: k.1
  }

  /** Recording one entry adds its symbol to the table's symbols. */
  lemma SymbolsUpdate(d: DfaTable, key: (int, char), v: int)
    ensures Symbols(d[key := v]) == Symbols(d) + {key.1}
  {
    var lhs, rhs := Symbols(d[key := v]), Symbols(d) + {key.1};
    forall c | c in rhs
      ensures c in lhs
    {
      if c != key.1 {
        var k :| k in d && k.1 == c;
        assert k in d[key := v];
      }
    }
  }

  /** Adding members a set already holds leaves it unchanged. */
  lemma Absorb(s: set<int>, a: int, b: int)
    requires a in s && b in s
    ensures s + {a, b} == s
  {
  }

  /** Every state some transition leads to. */
  ghost function Targets(t: NfaTable): set<int>
  {
    set k, u | k in t && u in t[k] :: u
  }

  /** The entries of a table that hold at least one destination. */
  function NonEmptyEntries(t: NfaTable): (r: NfaTable)
    ensures r.Keys <= t.Keys
    ensures forall k | k in t :: (k in r <==> t[k] != {})
    ensures forall k | k in r :: r[k] == t[k]
  {
    map k | k in t && t[k] != {} :: t[k]
  }

  /** Moving one pending key into the copied part of a table adds its entry
      exactly when the entry has destinations. */
  lemma NonEmptyEntriesStep(m: NfaTable, pending: set<(int, char)>, key: (int, char))
    requires key in pending && key in m
    ensures key !in NonEmptyEntries(m - pending)
    ensures NonEmptyEntries(m - (pending - {key})) ==
              if m[key] == {} then NonEmptyEntries(m - pending)
              else NonEmptyEntries(m - pending)[key := m[key]]
  {
    var r := NonEmptyEntries(m - (pending - {key}));
    var r0 := NonEmptyEntries(m - pending);
    var e := if m[key] == {} then r0 else r0[key := m[key]];
    forall k
      ensures k in r <==> k in e
    {
      if k != key && k in m && k !in pending {
        assert k in m - pending;
      }
    }
  }

  /** The states are exactly the endpoints of the transitions and the
      alphabet is EPSILON plus their symbols, as after construction from a
      fragment. */
  ghost predicate Endpoints(t: NfaTable, states: set<int>, alphabet: set<char>)
  {
    states == Sources(t) + Targets(t) && alphabet == {EPSILON} + Symbols(t)
  }

  /** Adding a new key with its destinations extends the endpoints by the
      key's state and the destinations, and the alphabet by its symbol. */
  lemma AddEntryEndpoints(t: NfaTable, key: (int, char), dests: set<int>, states: set<int>, alphabet: set<char>)
    requires key !in t && dests != {}
    requires Endpoints(t, states, alphabet)
    ensures Endpoints(t[key := dests], states + {key.0} + dests, alphabet + {key.1})
  {
    var t' := t[key := dests];
    forall u | u in Targets(t')
      ensures u in Targets(t) + dests
    {
      var k :| k in t' && u in t'[k];
      if k != key {
        assert k in t && u in t[k];
      }
    }
    forall u | u in Targets(t) + dests
      ensures u in Targets(t')
    {
      if u in dests {
        assert key in t' && u in t'[key];
      } else {
        var k :| k in t && u in t[k];
        assert k in t' && u in t'[k];
      }
    }
    assert Sources(t') == Sources(t) + {key.0};
    assert Symbols(t') == Symbols(t) + {key.1};
  }

  // ---------------------------------------------------------------------
  // Epsilon reachability, the reference the closure methods are proved against

  function EpsilonTargets(t: NfaTable, u: int): set<int>
  {
    Dests(t, (u, EPSILON))
  }

  /** A non-empty sequence of states, each an epsilon-successor of the previous one. */
  ghost predicate IsEpsilonPath(t: NfaTable, p: seq<int>)
  {
    |p| > 0 && forall i | 0 <= i < |p| - 1 :: p[i + 1] in EpsilonTargets(t, p[i])
  }

  ghost predicate EpsilonReachable(t: NfaTable, s: int, u: int)
  {
    exists p :: IsEpsilonPath(t, p) && p[0] == s && p[|p| - 1] == u
  }

  ghost predicate EpsilonClosed(t: NfaTable, c: set<int>)
  {
    forall u | u in c :: EpsilonTargets(t, u) <= c
  }

  /** The states reachable from some member of `s` by epsilon moves only. */
  ghost function Closure(t: NfaTable, s: set<int>): set<int>
  {
    set u | u in s + Targets(t) && exists x | x in s :: EpsilonReachable(t, x, u)
  }

  lemma ClosureContains(t: NfaTable, s: set<int>)
    ensures s <= Closure(t, s)
  {
    forall x | x in s
      ensures x in Closure(t, s)
    {
      assert IsEpsilonPath(t, [x]);
    }
  }

  lemma ClosureIsClosed(t: NfaTable, s: set<int>)
    ensures EpsilonClosed(t, Closure(t, s))
  {
    forall u, v | u in Closure(t, s) && v in EpsilonTargets(t, u)
      ensures v in Closure(t, s)
    {
      var x :| x in s && EpsilonReachable(t, x, u);
      var p :| IsEpsilonPath(t, p) && p[0] == x && p[|p| - 1] == u;
      var q := p + [v];
      assert IsEpsilonPath(t, q);
      assert v in Targets(t) by {
        assert (u, EPSILON) in t && v in t[(u, EPSILON)];
      }
      assert EpsilonReachable(t, x, v);
    }
  }

  lemma {:induction false} PathStaysInClosedSet(t: NfaTable, p: seq<int>, c: set<int>)
    requires IsEpsilonPath(t, p) && p[0] in c && EpsilonClosed(t, c)
    ensures p[|p| - 1] in c
    decreases |p|
  {
    if |p| > 1 {
      var q := p[..|p| - 1];
      assert IsEpsilonPath(t, q);
      PathStaysInClosedSet(t, q, c);
      assert p[|p| - 1] in EpsilonTargets(t, q[|q| - 1]);
    }
  }

  /** A state reached by at least one epsilon move is the destination of some transition. */
  lemma ReachableIsTarget(t: NfaTable, x: int, u: int)
    requires EpsilonReachable(t, x, u)
    ensures u == x || u in Targets(t)
  {
    var p :| IsEpsilonPath(t, p) && p[0] == x && p[|p| - 1] == u;
    if |p| > 1 {
      var v := p[|p| - 2];
      assert u in t[(v, EPSILON)];
    }
  }

  /** The closure is the least epsilon-closed set containing `s`. */
  lemma ClosureIsLeast(t: NfaTable, s: set<int>, c: set<int>)
    requires s <= c && EpsilonClosed(t, c)
    ensures Closure(t, s) <= c
  {
    forall u | u in Closure(t, s)
      ensures u in c
    {
      var x :| x in s && EpsilonReachable(t, x, u);
      var p :| IsEpsilonPath(t, p) && p[0] == x && p[|p| - 1] == u;
      PathStaysInClosedSet(t, p, c);
    }
  }

  /** Closing an already closed set changes nothing. */
  lemma ClosureIdempotent(t: NfaTable, s: set<int>)
    ensures Closure(t, Closure(t, s)) == Closure(t, s)
  {
    ClosureContains(t, Closure(t, s));
    ClosureIsClosed(t, s);
    ClosureIsLeast(t, Closure(t, s), Closure(t, s));
  }

  /** The closure of a union is the union of the closures; in particular the
      closure of a set is the union of its members' closures. */
  lemma ClosureUnion(t: NfaTable, a: set<int>, b: set<int>)
    ensures Closure(t, a + b) == Closure(t, a) + Closure(t, b)
  {
    forall u | u in Closure(t, a + b)
      ensures u in Closure(t, a) + Closure(t, b)
    {
      var x :| x in a + b && EpsilonReachable(t, x, u);
      ReachableIsTarget(t, x, u);
      if x in a {
        assert u in Closure(t, a);
      } else {
        assert u in Closure(t, b);
      }
    }
  }

  /** The chain 0 -e-> 1 -e-> 2 closes to {0, 1, 2}. */
  lemma ChainClosure()
    ensures Closure(map[(0, EPSILON) := {1}, (1, EPSILON) := {2}], {0}) == {0, 1, 2}
  {
    var t: NfaTable := map[(0, EPSILON) := {1}, (1, EPSILON) := {2}];
    assert EpsilonClosed(t, {0, 1, 2});
    ClosureIsLeast(t, {0}, {0, 1, 2});
    assert IsEpsilonPath(t, [0]);
    assert IsEpsilonPath(t, [0, 1]);
    assert IsEpsilonPath(t, [0, 1, 2]);
    assert 1 in Targets(t) && 2 in Targets(t) by {
      assert 1 in t[(0, EPSILON)] && 2 in t[(1, EPSILON)];
    }
  }

  // ---------------------------------------------------------------------
  // Deterministic runs, the reference for the language lemmas

  /** The state reached from `q` by reading `w`, or None where a symbol has no transition. */
  ghost function Run(t: DfaTable, q: int, w: string): Option<int>
    decreases |w|
  {
    if w == [] then Some(q)
    else if (q, w[0]) in t then Run(t, t[(q, w[0])], w[1..])
    else None
  }

  ghost predicate Accepts(t: DfaTable, accept: set<int>, q: int, w: string)
  {
    Run(t, q, w).Some? && Run(t, q, w).value in accept
  }

  // ---------------------------------------------------------------------
  // The deterministic automaton

  class DFA {
    var states: set<int>
    var alphabet: set<char>
    var startState: int
    var acceptStates: set<int>
    var transitionTable: DfaTable

    /** What the registration methods keep true: accept states and every
        transition's endpoints are registered states, every transition's
        symbol is in the alphabet. */
    ghost predicate Valid()
      reads this
    {
      && acceptStates <= states
      && forall k | k in transitionTable ::
           k.0 in states && k.1 in alphabet && transitionTable[k] in states
    }

    constructor ()
      ensures Valid()
      ensures states == {} && alphabet == {} && startState == 0
      ensures acceptStates == {} && transitionTable == map[]
    {
      states, alphabet, startState := {}, {}, 0;
      acceptStates, transitionTable := {}, map[];
    }

    method AddState(state: int, isAccept: bool := false)
      requires Valid()
      modifies this
      ensures Valid()
      ensures states == old(states) + {state}
      ensures acceptStates == if isAccept then old(acceptStates) + {state} else old(acceptStates)
      ensures alphabet == old(alphabet) && startState == old(startState)
      ensures transitionTable == old(transitionTable)
    {
      states := states + {state};
      if isAccept {
        acceptStates := acceptStates + {state};
      }
    }

    method AddSymbol(symbol: char)
      requires Valid()
      modifies this
      ensures Valid()
      ensures alphabet == old(alphabet) + {symbol}
      ensures states == old(states) && startState == old(startState)
      ensures acceptStates == old(acceptStates) && transitionTable == old(transitionTable)
    {
      alphabet := alphabet + {symbol};
    }

    method SetStartState(state: int)
      requires Valid()
      modifies this
      ensures Valid()
      ensures states == old(states) + {state} && startState == state
      ensures alphabet == old(alphabet) && acceptStates == old(acceptStates)
      ensures transitionTable == old(transitionTable)
    {
      if state !in states {
        states := states + {state};
      }
      startState := state;
    }

    /** Records `fromState --symbol--> toState`; a later call for the same
        state and symbol overwrites the destination. */
    method AddTransition(fromState: int, symbol: char, toState: int)
      requires Valid()
      modifies this
      ensures Valid()
      ensures states == old(states) + {fromState, toState}
      ensures alphabet == old(alphabet) + {symbol}
      ensures transitionTable == old(transitionTable)[(fromState, symbol) := toState]
      ensures startState == old(startState) && acceptStates == old(acceptStates)
    {
      states := states + {fromState};
      states := states + {toState};
      alphabet := alphabet + {symbol};
      transitionTable := transitionTable[(fromState, symbol) := toState];
    }
  }

  // ---------------------------------------------------------------------
  // The nondeterministic automaton

  class NFA {
    var states: set<int>
    var alphabet: set<char>
    var startState: int
    var acceptStates: set<int>
    var transitionTable: NfaTable

    /** EPSILON is always in the alphabet, and every transition has a
        registered source, a non-empty set of registered destinations and a
        symbol of the alphabet. */
    ghost predicate Valid()
      reads this
    {
      && EPSILON in alphabet
      && forall k | k in transitionTable ::
           k.0 in states && k.1 in alphabet && transitionTable[k] != {} && transitionTable[k] <= states
    }

    constructor ()
      ensures Valid()
      ensures states == {} && alphabet == {EPSILON} && startState == 0
      ensures acceptStates == {} && transitionTable == map[]
    {
      states, alphabet, startState := {}, {EPSILON}, 0;
      acceptStates, transitionTable := {}, map[];
    }

    /** The automaton holds exactly the fragment's non-empty transitions,
        its states are the endpoints of those transitions, its alphabet is
        EPSILON plus their symbols, and start and accept states are the
        fragment's. */
    ghost predicate BuiltFrom(fragment: NFAFragment)
      reads this
    {
      && transitionTable == NonEmptyEntries(fragment.transitions)
      && Endpoints(transitionTable, states, alphabet)
      && startState == fragment.startState && acceptStates == fragment.acceptStates
    }

    /** Materialises the builder's last fragment: its transitions become the
        table (keys without destinations register nothing), the states are
        the endpoints of those transitions, and the start and accept states
        are copied as they are. */
    constructor FromFragment(fragment: NFAFragment)
      ensures Valid() && BuiltFrom(fragment)
    {
      states, alphabet, startState := {}, {EPSILON}, 0;
      acceptStates, transitionTable := {}, map[];
      new;
      var pending := fragment.transitions.Keys;
      while pending != {}
        invariant pending <= fragment.transitions.Keys
        invariant Valid()
        invariant transitionTable == NonEmptyEntries(fragment.transitions - pending)
        invariant Endpoints(transitionTable, states, alphabet)
        decreases pending
      {
        var key := Pick(pending);
        NonEmptyEntriesStep(fragment.transitions, pending, key);
        if fragment.transitions[key] != {} {
          AddEntryEndpoints(transitionTable, key, fragment.transitions[key], states, alphabet);
        }
        AddTransitions(key, fragment.transitions[key]);
        pending := pending - {key};
      }
      startState := fragment.startState;
      acceptStates := fragment.acceptStates;
    }

    /** Registers every destination of a key not yet in the table (the inner
        loop of construction from a fragment). */
    method AddTransitions(key: (int, char), dests: set<int>)
      requires Valid() && key !in transitionTable
      modifies this
      ensures Valid()
      ensures transitionTable == if dests == {} then old(transitionTable) else old(transitionTable)[key := dests]
      ensures states == if dests == {} then old(states) else old(states) + {key.0} + dests
      ensures alphabet == if dests == {} then old(alphabet) else old(alphabet) + {key.1}
      ensures startState == old(startState) && acceptStates == old(acceptStates)
    {
      var rest := dests;
      while rest != {}
        invariant rest <= dests
        invariant Valid()
        invariant transitionTable == if dests - rest == {} then old(transitionTable) else old(transitionTable)[key := dests - rest]
        invariant states == if dests - rest == {} then old(states) else old(states) + {key.0} + (dests - rest)
        invariant alphabet == if dests - rest == {} then old(alphabet) else old(alphabet) + {key.1}
        invariant startState == old(startState) && acceptStates == old(acceptStates)
        decreases rest
      {
        var toState := Pick(rest);
        assert Dests(transitionTable, key) == dests - rest;
        assert dests - (rest - {toState}) == (dests - rest) + {toState};
        AddTransition(key.0, key.1, toState);
        rest := rest - {toState};
      }
      assert dests - rest == dests;
    }

    method AddState(state: int, isAccept: bool := false)
      requires Valid()
      modifies this
      ensures Valid()
      ensures states == old(states) + {state}
      ensures acceptStates == if isAccept then old(acceptStates) + {state} else old(acceptStates)
      ensures alphabet == old(alphabet) && startState == old(startState)
      ensures transitionTable == old(transitionTable)
    {
      states := states + {state};
      if isAccept {
        acceptStates := acceptStates + {state};
      }
    }

    method AddSymbol(symbol: char)
      requires Valid()
      modifies this
      ensures Valid()
      ensures alphabet == old(alphabet) + {symbol}
      ensures states == old(states) && startState == old(startState)
      ensures acceptStates == old(acceptStates) && transitionTable == old(transitionTable)
    {
      alphabet := alphabet + {symbol};
    }

    method SetStartState(state: int)
      requires Valid()
      modifies this
      ensures Valid()
      ensures states == old(states) + {state} && startState == state
      ensures alphabet == old(alphabet) && acceptStates == old(acceptStates)
      ensures transitionTable == old(transitionTable)
    {
      if state !in states {
        states := states + {state};
      }
      startState := state;
    }

    /** Adds `toState` to the destinations of `(fromState, symbol)`, keeping
        the earlier ones; EPSILON is never added to the alphabet here (it is
        there from construction). */
    method AddTransition(fromState: int, symbol: char, toState: int)
      requires Valid()
      modifies this
      ensures Valid()
      ensures states == old(states) + {fromState, toState}
      ensures alphabet == if symbol != EPSILON then old(alphabet) + {symbol} else old(alphabet)
      ensures transitionTable ==
                old(transitionTable)[(fromState, symbol) := Dests(old(transitionTable), (fromState, symbol)) + {toState}]
      ensures startState == old(startState) && acceptStates == old(acceptStates)
    {
      states := states + {fromState};
      states := states + {toState};
      if symbol != EPSILON {
        alphabet := alphabet + {symbol};
      }
      transitionTable := transitionTable[(fromState, symbol) := Dests(transitionTable, (fromState, symbol)) + {toState}];
    }

    method EpsilonClosure(state: int) returns (closure: set<int>)
      ensures closure == Closure(transitionTable, {state})
    {
      ClosureContains(transitionTable, {state});
      ClosureIsClosed(transitionTable, {state});
      closure := Explore(state, Closure(transitionTable, {state}));
      ClosureIsLeast(transitionTable, {state}, closure);
    }

    method Explore(state: int, ghost reach: set<int>) returns (closure: set<int>)
      requires state in reach && EpsilonClosed(transitionTable, reach)
      ensures state in closure && closure <= reach && EpsilonClosed(transitionTable, closure)
    {
      ghost var t := transitionTable;
      closure := {state};
      var queue := [state];
      while queue != []
        invariant state in closure && closure <= reach
        invariant forall u | u in queue :: u in closure
        invariant forall u | u in closure && u !in queue :: EpsilonTargets(t, u) <= closure
        decreases |reach - closure|, |queue|
      {
        ghost var closure0, queue0 := closure, queue;
        var currentState := queue[0];
        queue := queue[1..];
        if (currentState, EPSILON) in transitionTable {
          var next := transitionTable[(currentState, EPSILON)];
          var rest := next;
          while rest != {}
            invariant rest <= next && next - rest <= closure
            invariant state in closure && closure <= reach
            invariant currentState in closure && closure0 <= closure
            invariant closure == closure0 ==> |queue| < |queue0|
            invariant forall u | u in queue :: u in closure
            invariant forall u | u in closure && u !in queue && u != currentState :: EpsilonTargets(t, u) <= closure
            decreases rest
          {
            var nextState := Pick(rest);
            if nextState !in closure {
              assert nextState in EpsilonTargets(t, currentState);
              closure := closure + {nextState};
              queue := queue + [nextState];
            }
            rest := rest - {nextState};
          }
        }
        if closure != closure0 {
          SubsetCardinality(reach - closure, reach - closure0);
        }
      }
    }

    /** The union of the closures of the members of `stateSet`. */
    method EpsilonClosureOfSet(stateSet: set<int>) returns (closure: set<int>)
      ensures closure == Closure(transitionTable, stateSet)
    {
      closure := {};
      var rest := stateSet;
      while rest != {}
        invariant rest <= stateSet
        invariant closure == Closure(transitionTable, stateSet - rest)
        decreases rest
      {
        var state := Pick(rest);
        var stateClosure := EpsilonClosure(state);
        ClosureUnion(transitionTable, stateSet - rest, {state});
        assert stateSet - (rest - {state}) == (stateSet - rest) + {state};
        closure := closure + stateClosure;
        rest := rest - {state};
      }
    }
  }

  /** tests/test_automata.cpp:26-37 — registering the chain 0 -e-> 1 -e-> 2
      and closing state 0. */
  method EpsilonClosureChainExample() returns (closure: set<int>)
    ensures closure == {0, 1, 2}
  {
    var nfa := new NFA();
    nfa.AddState(0, false);
    nfa.AddState(1, false);
    nfa.AddState(2, true);
    nfa.SetStartState(0);
    assert nfa.transitionTable == map[];
    nfa.AddTransition(0, EPSILON, 1);
    assert Dests(map[], (0, EPSILON)) + {1} == {1};
    assert nfa.transitionTable == map[(0, EPSILON) := {1}];
    nfa.AddTransition(1, EPSILON, 2);
    assert Dests(map[(0, EPSILON) := {1}], (1, EPSILON)) + {2} == {2};
    assert nfa.transitionTable == map[(0, EPSILON) := {1}, (1, EPSILON) := {2}];
    closure := nfa.EpsilonClosure(0);
    ChainClosure();
  }
}
