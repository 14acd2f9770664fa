/** The subset construction of lexer/automataTransformations.h (`nfa_to_dfa`):
    a worklist over epsilon-closed sets of NFA states, each new set numbered
    with the next DFA id through a `map<set<int>, int>`. */
module SubsetConstruction {
  import opened Ordered
  import opened Automata

  // ---------------------------------------------------------------------
  // Specification

  /** The NFA states one `symbol` edge leads to from some member of `s`. */
  ghost function Move(t: NfaTable, s: set<int>, symbol: char): set<int>
  {
    set x, u | x in s && u in Dests(t, (x, symbol)) :: u
  }

  /** The set a DFA state for `s` moves to on `symbol`: the epsilon closure of its move. */
  ghost function Successor(t: NfaTable, s: set<int>, symbol: char): set<int>
  {
    Closure(t, Move(t, s, symbol))
  }

  /** The ids whose NFA set holds an accept state of the NFA. */
  ghost function AcceptIds(sets: seq<set<int>>, accept: set<int>): set<int>
  {
    set i | 0 <= i < |sets| && sets[i] * accept != {}
  }

  /** `ids` numbers the discovered `sets` in order of discovery: a bijection
      between the sets and 0 .. |sets|-1. */
  ghost predicate Numbered(ids: map<set<int>, int>, sets: seq<set<int>>)
  {
    && (forall i | 0 <= i < |sets| :: sets[i] in ids && ids[sets[i]] == i)
    && (forall s | s in ids :: 0 <= ids[s] < |sets| && sets[ids[s]] == s)
  }

  /** Whether DFA state `i` has an edge on `symbol` in the subset automaton. */
  ghost predicate HasEdge(t: NfaTable, alphabet: set<char>, sets: seq<set<int>>, i: int, symbol: char)
  {
    0 <= i < |sets| && symbol in alphabet && symbol != EPSILON && Successor(t, sets[i], symbol) != {}
  }

  /** Every set after the first was found as the successor set of an edge
      leaving a set numbered before it: nothing is numbered that is not
      reached from the start. */
  ghost predicate Reached(t: NfaTable, alphabet: set<char>, sets: seq<set<int>>)
  {
    forall i | 0 < i < |sets| :: ReachedAt(t, alphabet, sets, i)
  }

  /** Set `i` is a successor set of a set numbered before it. */
  ghost predicate ReachedAt(t: NfaTable, alphabet: set<char>, sets: seq<set<int>>, i: int)
    requires 0 <= i < |sets|
  {
    exists j :: 0 <= j < i && LeadsTo(t, alphabet, sets[j], sets[i])
  }

  /** `s` is the non-empty successor set of `from` on a symbol of the alphabet other than EPSILON. */
  ghost predicate LeadsTo(t: NfaTable, alphabet: set<char>, from: set<int>, s: set<int>)
  {
    exists c :: c in alphabet && c != EPSILON && s != {} && s == Successor(t, from, c)
  }

  /** Whether `(i, symbol)` is expanded once the first `head` sets, and the
      symbols `done` of set `head`, have been. */
  predicate Expanded(i: int, symbol: char, head: int, done: set<char>)
  {
    i < head || (i == head && symbol in done)
  }

  /** The DFA table holds exactly the subset edges expanded so far, each leading
      to the id of the successor set. */
  ghost predicate TableSoFar(d: DfaTable, t: NfaTable, alphabet: set<char>, sets: seq<set<int>>, head: int, done: set<char>)
  {
    && (forall k | k in d ::
          && HasEdge(t, alphabet, sets, k.0, k.1) && Expanded(k.0, k.1, head, done)
          && 0 <= d[k] < |sets| && sets[d[k]] == Successor(t, sets[k.0], k.1))
    && (forall i, c | Expanded(i, c, head, done) && HasEdge(t, alphabet, sets, i, c) :: (i, c) in d)
  }

  /** The DFA built so far: ids 0 .. |sets|-1 with 0 the start, an id accepting
      exactly when its set holds an NFA accept state, the expanded edges, and
      the symbols of those edges as its alphabet. */
  ghost predicate Shape(dfa: DFA, t: NfaTable, alphabet: set<char>, accept: set<int>,
                        sets: seq<set<int>>, head: int, done: set<char>)
    reads dfa
  {
    && dfa.Valid()
    && dfa.states == Ids(|sets|)
    && dfa.startState == 0
    && dfa.acceptStates == AcceptIds(sets, accept)
    && dfa.alphabet == Symbols(dfa.transitionTable)
    && TableSoFar(dfa.transitionTable, t, alphabet, sets, head, done)
  }

  /** The DFA the construction promises for an NFA with table `t`, alphabet
      `alphabet`, start `start` and accept set `accept`, where `sets[i]` is
      the set of NFA states DFA state `i` stands for. */
  ghost predicate IsSubsetDfa(dfa: DFA, t: NfaTable, alphabet: set<char>, start: int, accept: set<int>,
                              sets: seq<set<int>>)
    reads dfa
  {
    && dfa.Valid()
    // ids are exactly 0 .. |sets|-1, numbering distinct non-empty epsilon-closed sets
    && |sets| >= 1 && dfa.states == Ids(|sets|)
    && (forall i, j | 0 <= i < j < |sets| :: sets[i] != sets[j])
    && (forall i | 0 <= i < |sets| :: sets[i] != {} && EpsilonClosed(t, sets[i]))
    // 0 is the start and stands for the closure of the NFA start
    && dfa.startState == 0 && sets[0] == Closure(t, {start})
    // every other set is the target of an edge from a set numbered before it
    && Reached(t, alphabet, sets)
    // an id accepts exactly when its set holds an NFA accept state
    && dfa.acceptStates == AcceptIds(sets, accept)
    // an edge exactly where the successor set is non-empty, leading to its id
    && (forall k :: k in dfa.transitionTable <==> HasEdge(t, alphabet, sets, k.0, k.1))
    && (forall k | k in dfa.transitionTable ::
          0 <= dfa.transitionTable[k] < |sets| && sets[dfa.transitionTable[k]] == Successor(t, sets[k.0], k.1))
    && dfa.alphabet == Symbols(dfa.transitionTable)
  }

  // ---------------------------------------------------------------------
  // Lemmas about the specification

  lemma MoveStep(t: NfaTable, s: set<int>, x: int, symbol: char)
    ensures Move(t, s + {x}, symbol) == Move(t, s, symbol) + Dests(t, (x, symbol))
  {
    var lhs, rhs := Move(t, s + {x}, symbol), Move(t, s, symbol) + Dests(t, (x, symbol));
    forall u | u in rhs
      ensures u in lhs
    {
      if u !in Dests(t, (x, symbol)) {
        var y :| y in s && u in Dests(t, (y, symbol));
        assert y in s + {x};
      }
    }
  }

  /** Every successor set lies among the NFA's transition targets. */
  lemma SuccessorWithin(t: NfaTable, s: set<int>, symbol: char)
    ensures Successor(t, s, symbol) <= Targets(t)
  {
    forall u | u in Move(t, s, symbol)
      ensures u in Targets(t)
    {
      var x :| x in s && u in Dests(t, (x, symbol));
      assert (x, symbol) in t;
    }
  }

  /** All subsets of `u`: a finite bound on the sets the construction can discover. */
  ghost function Powerset(u: set<int>): set<set<int>>
    decreases u
  {
    if u == {} then {{}}
    else
      var x := Choose(u);
      var p := Powerset(u - {x});
      p + set s | s in p :: s + {x}
  }

  lemma {:induction false} PowersetContains(u: set<int>, s: set<int>)
    requires s <= u
    ensures s in Powerset(u)
    decreases u
  {
    if u != {} {
      var x := Choose(u);
      var p := Powerset(u - {x});
      PowersetContains(u - {x}, s - {x});
      if x in s {
        assert s == (s - {x}) + {x};
      } else {
        assert s == s - {x};
      }
    } else {
      assert s == {};
    }
  }

  /** Numbering a newly discovered set with the next id keeps the numbering a bijection. */
  lemma NumberedAppend(ids: map<set<int>, int>, sets: seq<set<int>>, s: set<int>)
    requires Numbered(ids, sets) && s !in ids
    ensures Numbered(ids[s := |sets|], sets + [s])
  {
    var sets' := sets + [s];
    forall i | 0 <= i < |sets'|
      ensures sets'[i] in ids[s := |sets|] && ids[s := |sets|][sets'[i]] == i
    {
      if i < |sets| {
        assert sets'[i] == sets[i] && sets[i] in ids;
      }
    }
  }

  /** Appending a set keeps the table's description: expanded ids lie below `head`. */
  lemma TableAppend(d: DfaTable, t: NfaTable, alphabet: set<char>, sets: seq<set<int>>, head: int, done: set<char>, s: set<int>)
    requires 0 <= head < |sets|
    requires TableSoFar(d, t, alphabet, sets, head, done)
    ensures TableSoFar(d, t, alphabet, sets + [s], head, done)
  {
    var sets' := sets + [s];
    forall k | k in d
      ensures HasEdge(t, alphabet, sets', k.0, k.1) && 0 <= d[k] < |sets'| && sets'[d[k]] == Successor(t, sets'[k.0], k.1)
    {
      assert sets'[k.0] == sets[k.0] && sets'[d[k]] == sets[d[k]];
    }
    forall i, c | Expanded(i, c, head, done) && HasEdge(t, alphabet, sets', i, c)
      ensures (i, c) in d
    {
      assert sets'[i] == sets[i];
      assert HasEdge(t, alphabet, sets, i, c);
    }
  }

  /** Recording the edge of `(head, symbol)` to the id of its successor set. */
  lemma TableAddEdge(d: DfaTable, t: NfaTable, alphabet: set<char>, sets: seq<set<int>>, head: int, done: set<char>,
                     symbol: char, id: int)
    requires 0 <= head < |sets| && symbol !in done
    requires HasEdge(t, alphabet, sets, head, symbol)
    requires 0 <= id < |sets| && sets[id] == Successor(t, sets[head], symbol)
    requires TableSoFar(d, t, alphabet, sets, head, done)
    ensures TableSoFar(d[(head, symbol) := id], t, alphabet, sets, head, done + {symbol})
  {
  }

  /** Passing over a symbol without an edge. */
  lemma TableSkip(d: DfaTable, t: NfaTable, alphabet: set<char>, sets: seq<set<int>>, head: int, done: set<char>, symbol: char)
    requires 0 <= head < |sets|
    requires !HasEdge(t, alphabet, sets, head, symbol)
    requires TableSoFar(d, t, alphabet, sets, head, done)
    ensures TableSoFar(d, t, alphabet, sets, head, done + {symbol})
  {
  }

  /** Once every symbol of set `head` is done, the next set is to be expanded. */
  lemma TableNext(d: DfaTable, t: NfaTable, alphabet: set<char>, sets: seq<set<int>>, head: int)
    requires TableSoFar(d, t, alphabet, sets, head, alphabet)
    ensures TableSoFar(d, t, alphabet, sets, head + 1, {})
  {
    forall i, c | Expanded(i, c, head + 1, {}) && HasEdge(t, alphabet, sets, i, c)
      ensures (i, c) in d
    {
      assert Expanded(i, c, head, alphabet);
    }
  }

  lemma AcceptIdsAppend(sets: seq<set<int>>, accept: set<int>, s: set<int>)
    ensures AcceptIds(sets + [s], accept) ==
            if s * accept != {} then AcceptIds(sets, accept) + {|sets|} else AcceptIds(sets, accept)
  {
    var sets' := sets + [s];
    forall i | 0 <= i < |sets|
      ensures sets'[i] == sets[i]
    {
    }
  }

  /** Every discovered set is a non-empty epsilon-closed subset of `u`. */
  ghost predicate Discovered(t: NfaTable, u: set<int>, sets: seq<set<int>>)
  {
    forall j | 0 <= j < |sets| :: sets[j] <= u && sets[j] != {} && EpsilonClosed(t, sets[j])
  }

  lemma DiscoveredStart(t: NfaTable, start: int)
    ensures Discovered(t, {start} + Targets(t), [Closure(t, {start})])
  {
    var c := Closure(t, {start});
    ClosureContains(t, {start});
    ClosureIsClosed(t, {start});
    assert c <= {start} + Targets(t);
    assert c != {};
  }

  lemma DiscoveredGrow(t: NfaTable, u: set<int>, before: seq<set<int>>, sets: seq<set<int>>)
    requires Discovered(t, u, before) && Targets(t) <= u
    requires |sets| >= |before| && sets[..|before|] == before
    requires forall j | |before| <= j < |sets| :: sets[j] <= Targets(t) && sets[j] != {} && EpsilonClosed(t, sets[j])
    ensures Discovered(t, u, sets)
  {
    forall j | 0 <= j < |before|
      ensures sets[j] == before[j]
    {
    }
  }

  /** The sets numbered by `ids` are all subsets of `u`. */
  lemma KeysInPowerset(ids: map<set<int>, int>, sets: seq<set<int>>, u: set<int>)
    requires Numbered(ids, sets)
    requires forall j | 0 <= j < |sets| :: sets[j] <= u
    ensures ids.Keys <= Powerset(u)
  {
    forall s | s in ids
      ensures s in Powerset(u)
    {
      PowersetContains(u, sets[ids[s]]);
    }
  }

  /** Growing the discovered keys inside a finite bound shrinks what is left of it. */
  lemma FewerLeft(p: set<set<int>>, a: set<set<int>>, b: set<set<int>>)
    requires a <= b <= p && a != b
    ensures |p - b| < |p - a|
  {
    var x :| x in b && x !in a;
    assert x in p - a && x !in p - b;
    SubsetCardinality(p - b, p - a);
  }

  /** The queue after a pass: the rest of the old queue, then the sets just found. */
  lemma QueueShift(queue: seq<set<int>>, before: seq<set<int>>, sets: seq<set<int>>, head: int)
    requires 0 <= head < |before| <= |sets| && sets[..|before|] == before && queue == before[head..]
    ensures queue[1..] + sets[|before|..] == sets[head + 1..]
  {
    assert sets == before + sets[|before|..];
  }

  /** Once every discovered set is expanded, the DFA is the subset automaton. */
  lemma SubsetDone(dfa: DFA, t: NfaTable, alphabet: set<char>, start: int, accept: set<int>,
                   sets: seq<set<int>>, ids: map<set<int>, int>, u: set<int>)
    requires |sets| >= 1 && sets[0] == Closure(t, {start})
    requires Numbered(ids, sets)
    requires Discovered(t, u, sets) && Reached(t, alphabet, sets)
    requires Shape(dfa, t, alphabet, accept, sets, |sets|, {})
    ensures IsSubsetDfa(dfa, t, alphabet, start, accept, sets)
  {
    forall i, j | 0 <= i < j < |sets|
      ensures sets[i] != sets[j]
    {
      assert ids[sets[i]] == i && ids[sets[j]] == j;
    }
  }

  /** Every DFA state but the start is entered by an edge from a state
      numbered before it, so each is reachable from the start. */
  lemma SubsetStateEntered(dfa: DFA, t: NfaTable, alphabet: set<char>, start: int, accept: set<int>,
                           sets: seq<set<int>>, i: int)
    requires IsSubsetDfa(dfa, t, alphabet, start, accept, sets) && 0 < i < |sets|
    ensures exists j, c :: 0 <= j < i && (j, c) in dfa.transitionTable && dfa.transitionTable[(j, c)] == i
  {
    assert ReachedAt(t, alphabet, sets, i);
    var j :| 0 <= j < i && LeadsTo(t, alphabet, sets[j], sets[i]);
    var c :| c in alphabet && c != EPSILON && sets[i] != {} && sets[i] == Successor(t, sets[j], c);
    assert HasEdge(t, alphabet, sets, j, c);
    var m := dfa.transitionTable[(j, c)];
    assert sets[m] == sets[i];
  }

  // ---------------------------------------------------------------------
  // The construction

  /** The union of the epsilon closures of every target that `symbol` leads to
      from a member of `stateSet` (the loop at
      lexer/automataTransformations.h:51-61; the inner loop over one state's
      targets is the set overload of `epsilonClosure`). */
  method NextStateSet(nfa: NFA, stateSet: set<int>, symbol: char) returns (next: set<int>)
    ensures next == Successor(nfa.transitionTable, stateSet, symbol)
  {
    next := {};
    var rest := stateSet;
    while rest != {}
      invariant rest <= stateSet
      invariant next == Closure(nfa.transitionTable, Move(nfa.transitionTable, stateSet - rest, symbol))
      decreases rest
    {
      var state := Pick(rest);
      var dests := Dests(nfa.transitionTable, (state, symbol));
      if (state, symbol) in nfa.transitionTable {
        var closure := nfa.EpsilonClosureOfSet(nfa.transitionTable[(state, symbol)]);
        next := next + closure;
      }
      MoveStep(nfa.transitionTable, stateSet - rest, state, symbol);
      ClosureUnion(nfa.transitionTable, Move(nfa.transitionTable, stateSet - rest, symbol), dests);
      assert stateSet - (rest - {state}) == (stateSet - rest) + {state};
      rest := rest - {state};
    }
  }

  /** Numbers a newly discovered set with the next id, registers that id
      as a DFA state accepting when the set holds an NFA accept state, and
      enqueues the set (lexer/automataTransformations.h:69-82). */
  method DiscoverSet(nfa: NFA, dfa: DFA, nextStateSet: set<int>,
                     stateMapping: map<set<int>, int>, stateQueue: seq<set<int>>, nextDFAState: int,
                     ghost sets: seq<set<int>>, ghost head: int, ghost done: set<char>)
    returns (mapping': map<set<int>, int>, queue': seq<set<int>>, next': int, ghost sets': seq<set<int>>)
    requires Numbered(stateMapping, sets) && nextDFAState == |sets| && nextStateSet !in stateMapping
    requires 0 <= head < |sets|
    requires Shape(dfa, nfa.transitionTable, nfa.alphabet, nfa.acceptStates, sets, head, done)
    modifies dfa
    ensures sets' == sets + [nextStateSet] && queue' == stateQueue + [nextStateSet]
    ensures mapping' == stateMapping[nextStateSet := nextDFAState] && next' == nextDFAState + 1
    ensures Numbered(mapping', sets')
    ensures Shape(dfa, nfa.transitionTable, nfa.alphabet, nfa.acceptStates, sets', head, done)
  {
    NumberedAppend(stateMapping, sets, nextStateSet);
    TableAppend(dfa.transitionTable, nfa.transitionTable, nfa.alphabet, sets, head, done, nextStateSet);
    AcceptIdsAppend(sets, nfa.acceptStates, nextStateSet);
    var nextDFAStateIndex := nextDFAState;
    mapping' := stateMapping[nextStateSet := nextDFAStateIndex];
    var isAcceptState := nextStateSet * nfa.acceptStates != {};
    dfa.AddState(nextDFAStateIndex, isAcceptState);
    queue' := stateQueue + [nextStateSet];
    next' := nextDFAState + 1;
    sets' := sets + [nextStateSet];
  }

  /** Records the edge of DFA state `head` on `symbol` to the id of its
      successor set (lexer/automataTransformations.h:89). */
  method RecordEdge(nfa: NFA, dfa: DFA, ghost sets: seq<set<int>>, head: int, ghost done: set<char>,
                    symbol: char, id: int)
    requires 0 <= head < |sets| && symbol !in done
    requires HasEdge(nfa.transitionTable, nfa.alphabet, sets, head, symbol)
    requires 0 <= id < |sets| && sets[id] == Successor(nfa.transitionTable, sets[head], symbol)
    requires Shape(dfa, nfa.transitionTable, nfa.alphabet, nfa.acceptStates, sets, head, done)
    modifies dfa
    ensures Shape(dfa, nfa.transitionTable, nfa.alphabet, nfa.acceptStates, sets, head, done + {symbol})
  {
    TableAddEdge(dfa.transitionTable, nfa.transitionTable, nfa.alphabet, sets, head, done, symbol, id);
    SymbolsUpdate(dfa.transitionTable, (head, symbol), id);
    Absorb(dfa.states, head, id);
    dfa.AddTransition(head, symbol, id);
  }

  /** What the worklist has done to the numbering since `sets` was discovered:
      the sets found since are numbered after them, are enqueued behind the
      queue, are new keys of the mapping, and lie among the NFA's targets. */
  ghost predicate Grown(t: NfaTable, stateMapping: map<set<int>, int>, stateQueue: seq<set<int>>, sets: seq<set<int>>,
                        mapping': map<set<int>, int>, queue': seq<set<int>>, next': int, sets': seq<set<int>>)
  {
    && |sets'| >= |sets| && sets'[..|sets|] == sets
    && Numbered(mapping', sets') && next' == |sets'|
    && queue' == stateQueue + sets'[|sets|..]
    && stateMapping.Keys <= mapping'.Keys && (|sets'| > |sets| ==> stateMapping.Keys != mapping'.Keys)
    && (|sets'| == |sets| ==> mapping' == stateMapping)
    && forall j | |sets| <= j < |sets'| :: sets'[j] <= Targets(t) && sets'[j] != {} && EpsilonClosed(t, sets'[j])
  }

  lemma GrownAppend(t: NfaTable, stateMapping: map<set<int>, int>, stateQueue: seq<set<int>>, sets: seq<set<int>>,
                    mapping': map<set<int>, int>, queue': seq<set<int>>, next': int, sets': seq<set<int>>, s: set<int>)
    requires Grown(t, stateMapping, stateQueue, sets, mapping', queue', next', sets')
    requires s !in mapping' && s <= Targets(t) && s != {} && EpsilonClosed(t, s) && Numbered(mapping'[s := next'], sets' + [s])
    ensures Grown(t, stateMapping, stateQueue, sets, mapping'[s := next'], queue' + [s], next' + 1, sets' + [s])
  {
    var sets'' := sets' + [s];
    assert sets''[..|sets|] == sets;
    assert sets''[|sets|..] == sets'[|sets|..] + [s];
    assert s !in stateMapping.Keys;
  }

  /** The sets numbered from `n` on are successor sets of set `head`. */
  ghost predicate FoundFrom(t: NfaTable, alphabet: set<char>, sets: seq<set<int>>, n: int, head: int)
  {
    && 0 <= head < n <= |sets|
    && forall i | n <= i < |sets| :: LeadsTo(t, alphabet, sets[head], sets[i])
  }

  lemma FoundAppend(t: NfaTable, alphabet: set<char>, sets: seq<set<int>>, n: int, head: int, symbol: char)
    requires FoundFrom(t, alphabet, sets, n, head)
    requires symbol in alphabet && symbol != EPSILON && Successor(t, sets[head], symbol) != {}
    ensures FoundFrom(t, alphabet, sets + [Successor(t, sets[head], symbol)], n, head)
  {
    var sets' := sets + [Successor(t, sets[head], symbol)];
    forall i | n <= i < |sets'|
      ensures LeadsTo(t, alphabet, sets'[head], sets'[i])
    {
      if i < |sets| {
        assert sets'[i] == sets[i];
      }
    }
  }

  /** A pass that expanded set `head` keeps every numbered set reached. */
  lemma ReachedGrow(t: NfaTable, alphabet: set<char>, sets: seq<set<int>>, sets': seq<set<int>>, head: int)
    requires Reached(t, alphabet, sets) && |sets| <= |sets'| && sets'[..|sets|] == sets
    requires FoundFrom(t, alphabet, sets', |sets|, head)
    ensures Reached(t, alphabet, sets')
  {
    forall i | 0 < i < |sets'|
      ensures ReachedAt(t, alphabet, sets', i)
    {
      if i < |sets| {
        assert sets'[i] == sets[i];
        assert ReachedAt(t, alphabet, sets, i);
        var j :| 0 <= j < i && LeadsTo(t, alphabet, sets[j], sets[i]);
        assert sets'[j] == sets[j];
      } else {
        assert LeadsTo(t, alphabet, sets'[head], sets'[i]);
      }
    }
  }

  /** One pass of the worklist loop over the popped set `sets[current]`: its
      symbols in ascending order, skipping EPSILON, numbering and enqueueing
      every successor set not seen before and recording the edge to it
      (lexer/automataTransformations.h:46-90). */
  method ExpandState(nfa: NFA, dfa: DFA, currentDFAState: int, currentStateSet: set<int>,
                     stateMapping: map<set<int>, int>, stateQueue: seq<set<int>>, nextDFAState: int,
                     ghost sets: seq<set<int>>)
    returns (mapping': map<set<int>, int>, queue': seq<set<int>>, next': int, ghost sets': seq<set<int>>)
    requires 0 <= currentDFAState < |sets| && currentStateSet == sets[currentDFAState]
    requires Numbered(stateMapping, sets) && nextDFAState == |sets|
    requires Shape(dfa, nfa.transitionTable, nfa.alphabet, nfa.acceptStates, sets, currentDFAState, {})
    modifies dfa
    ensures Grown(nfa.transitionTable, stateMapping, stateQueue, sets, mapping', queue', next', sets')
    ensures Shape(dfa, nfa.transitionTable, nfa.alphabet, nfa.acceptStates, sets', currentDFAState + 1, {})
    ensures FoundFrom(nfa.transitionTable, nfa.alphabet, sets', |sets|, currentDFAState)
  {
    ghost var t, alphabet, accept := nfa.transitionTable, nfa.alphabet, nfa.acceptStates;
    mapping', queue', next', sets' := stateMapping, stateQueue, nextDFAState, sets;
    var rest := nfa.alphabet;
    while rest != {}
      invariant rest <= alphabet
      invariant Grown(t, stateMapping, stateQueue, sets, mapping', queue', next', sets')
      invariant Shape(dfa, t, alphabet, accept, sets', currentDFAState, alphabet - rest)
      invariant FoundFrom(t, alphabet, sets', |sets|, currentDFAState)
      decreases rest
    {
      ghost var done := alphabet - rest;
      var symbol := LeastChar(rest);
      assert sets'[currentDFAState] == currentStateSet;
      if symbol == EPSILON {
        TableSkip(dfa.transitionTable, t, alphabet, sets', currentDFAState, done, symbol);
      } else {
        var nextStateSet := NextStateSet(nfa, currentStateSet, symbol);
        if nextStateSet == {} {
          TableSkip(dfa.transitionTable, t, alphabet, sets', currentDFAState, done, symbol);
        } else {
          var nextDFAStateIndex;
          if nextStateSet !in mapping' {
            nextDFAStateIndex := next';
            SuccessorWithin(t, currentStateSet, symbol);
            ClosureIsClosed(t, Move(t, currentStateSet, symbol));
            NumberedAppend(mapping', sets', nextStateSet);
            GrownAppend(t, stateMapping, stateQueue, sets, mapping', queue', next', sets', nextStateSet);
            FoundAppend(t, alphabet, sets', |sets|, currentDFAState, symbol);
            mapping', queue', next', sets' :=
              DiscoverSet(nfa, dfa, nextStateSet, mapping', queue', next', sets', currentDFAState, done);
          } else {
            nextDFAStateIndex := mapping'[nextStateSet];
          }
          RecordEdge(nfa, dfa, sets', currentDFAState, done, symbol, nextDFAStateIndex);
        }
      }
      assert alphabet - (rest - {symbol}) == done + {symbol};
      rest := rest - {symbol};
    }
    TableNext(dfa.transitionTable, t, alphabet, sets', currentDFAState);
  }

  /** The worklist's own state between passes: the first `head` discovered
      sets are expanded and the rest are queued in order, `stateMapping`
      numbers them, the first is the closure of the NFA start, and all are
      non-empty epsilon-closed subsets of the finite bound `u`. */
  ghost predicate Worklist(t: NfaTable, start: int, u: set<int>, stateMapping: map<set<int>, int>,
                           stateQueue: seq<set<int>>, nextDFAState: int, sets: seq<set<int>>, head: int)
  {
    && 1 <= |sets| && 0 <= head <= |sets| && stateQueue == sets[head..]
    && Numbered(stateMapping, sets) && nextDFAState == |sets|
    && sets[0] == Closure(t, {start})
    && Targets(t) <= u && Discovered(t, u, sets)
    && stateMapping.Keys <= Powerset(u)
  }

  /** A pass keeps the worklist's state, and either numbers new sets, of which
      only finitely many exist, or shortens the queue. */
  lemma WorklistStep(t: NfaTable, start: int, u: set<int>, stateMapping: map<set<int>, int>,
                     stateQueue: seq<set<int>>, nextDFAState: int, sets: seq<set<int>>, head: int,
                     mapping': map<set<int>, int>, queue': seq<set<int>>, next': int, sets': seq<set<int>>)
    requires Worklist(t, start, u, stateMapping, stateQueue, nextDFAState, sets, head) && stateQueue != []
    requires Grown(t, stateMapping, stateQueue[1..], sets, mapping', queue', next', sets')
    ensures Worklist(t, start, u, mapping', queue', next', sets', head + 1)
    ensures || |Powerset(u) - mapping'.Keys| < |Powerset(u) - stateMapping.Keys|
            || (mapping'.Keys == stateMapping.Keys && |queue'| < |stateQueue|)
  {
    QueueShift(stateQueue, sets, sets', head);
    assert sets'[0] == sets[0];
    DiscoveredGrow(t, u, sets, sets');
    KeysInPowerset(mapping', sets', u);
    if |sets'| > |sets| {
      FewerLeft(Powerset(u), stateMapping.Keys, mapping'.Keys);
    }
  }

  /** One turn of the worklist loop: pop the front set, look up its id and
      expand it (lexer/automataTransformations.h:41-44). */
  method ProcessFront(nfa: NFA, dfa: DFA, stateMapping: map<set<int>, int>, stateQueue: seq<set<int>>,
                      nextDFAState: int, ghost sets: seq<set<int>>, ghost head: int, ghost u: set<int>)
    returns (mapping': map<set<int>, int>, queue': seq<set<int>>, next': int, ghost sets': seq<set<int>>)
    requires stateQueue != []
    requires Worklist(nfa.transitionTable, nfa.startState, u, stateMapping, stateQueue, nextDFAState, sets, head)
    requires Shape(dfa, nfa.transitionTable, nfa.alphabet, nfa.acceptStates, sets, head, {})
    requires Reached(nfa.transitionTable, nfa.alphabet, sets)
    modifies dfa
    ensures Worklist(nfa.transitionTable, nfa.startState, u, mapping', queue', next', sets', head + 1)
    ensures Reached(nfa.transitionTable, nfa.alphabet, sets')
    ensures Shape(dfa, nfa.transitionTable, nfa.alphabet, nfa.acceptStates, sets', head + 1, {})
    ensures || |Powerset(u) - mapping'.Keys| < |Powerset(u) - stateMapping.Keys|
            || (mapping'.Keys == stateMapping.Keys && |queue'| < |stateQueue|)
  {
    var currentStateSet := stateQueue[0];
    var rest := stateQueue[1..];
    var currentDFAState := stateMapping[currentStateSet];
    assert currentStateSet == sets[head] && currentDFAState == head;
    mapping', queue', next', sets' :=
      ExpandState(nfa, dfa, currentDFAState, currentStateSet, stateMapping, rest, nextDFAState, sets);
    WorklistStep(nfa.transitionTable, nfa.startState, u, stateMapping, stateQueue, nextDFAState, sets, head,
                 mapping', queue', next', sets');
    ReachedGrow(nfa.transitionTable, nfa.alphabet, sets, sets', head);
  }

  /** Numbers the closure of the NFA start 0, registers 0 as the DFA start,
      accepting when that closure holds an NFA accept state, and queues it
      (lexer/automataTransformations.h:25-39). */
  method StartWorklist(nfa: NFA, dfa: DFA)
    returns (stateMapping: map<set<int>, int>, stateQueue: seq<set<int>>, nextDFAState: int,
             ghost sets: seq<set<int>>, ghost u: set<int>)
    requires dfa.Valid() && dfa.states == {} && dfa.acceptStates == {} && dfa.alphabet == {}
    requires dfa.transitionTable == map[]
    modifies dfa
    ensures Worklist(nfa.transitionTable, nfa.startState, u, stateMapping, stateQueue, nextDFAState, sets, 0)
    ensures Shape(dfa, nfa.transitionTable, nfa.alphabet, nfa.acceptStates, sets, 0, {})
    ensures Reached(nfa.transitionTable, nfa.alphabet, sets)
  {
    var startState := nfa.EpsilonClosure(nfa.startState);
    stateMapping := map[startState := 0];
    dfa.SetStartState(0);
    dfa.AddState(0, startState * nfa.acceptStates != {});
    stateQueue := [startState];
    nextDFAState := 1;
    sets := [startState];
    u := {nfa.startState} + Targets(nfa.transitionTable);
    assert dfa.states == Ids(1);
    DiscoveredStart(nfa.transitionTable, nfa.startState);
    KeysInPowerset(stateMapping, sets, u);
  }

  /** `nfa_to_dfa` (lexer/automataTransformations.h:15-95): an NFA without
      states gives the default DFA; otherwise the worklist numbers the
      closure of the NFA start 0 and every successor set reachable from it
      in order of discovery. */
  method NfaToDfa(nfa: NFA) returns (dfa: DFA, ghost sets: seq<set<int>>)
    ensures fresh(dfa)
    ensures nfa.states == {} ==>
      && dfa.Valid() && dfa.states == {} && dfa.acceptStates == {} && dfa.alphabet == {}
      && dfa.startState == 0 && dfa.transitionTable == map[]
    ensures nfa.states != {} ==>
      IsSubsetDfa(dfa, nfa.transitionTable, nfa.alphabet, nfa.startState, nfa.acceptStates, sets)
  {
    dfa := new DFA();
    sets := [];
    if nfa.states == {} {
      return;
    }
    var stateMapping, stateQueue, nextDFAState;
    ghost var u;
    stateMapping, stateQueue, nextDFAState, sets, u := StartWorklist(nfa, dfa);
    ghost var head := 0;
    while stateQueue != []
      invariant Worklist(nfa.transitionTable, nfa.startState, u, stateMapping, stateQueue, nextDFAState, sets, head)
      invariant Shape(dfa, nfa.transitionTable, nfa.alphabet, nfa.acceptStates, sets, head, {})
      invariant Reached(nfa.transitionTable, nfa.alphabet, sets)
      decreases |Powerset(u) - stateMapping.Keys|, |stateQueue|
    {
      stateMapping, stateQueue, nextDFAState, sets :=
        ProcessFront(nfa, dfa, stateMapping, stateQueue, nextDFAState, sets, head, u);
      head := head + 1;
    }
    assert head == |sets|;
    SubsetDone(dfa, nfa.transitionTable, nfa.alphabet, nfa.startState, nfa.acceptStates, sets, stateMapping, u);
  }
}
