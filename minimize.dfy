/** DFA minimisation of lexer/automataTransformations.h (`minimize_dfa` and
    `are_states_equivalent`): the states are split into accepting and
    non-accepting blocks, blocks are split again until every block holds only
    states that agree, symbol by symbol, on the blocks they move to, and each
    final block becomes one state of the minimised automaton. */
module Minimization {
  import opened Ordered
  import opened Automata

  // ---------------------------------------------------------------------
  // Partitions

  /** What the equivalence test reads of the automaton. */
  datatype View = View(table: DfaTable, accept: set<int>, alphabet: set<char>)

  ghost function ViewOf(dfa: DFA): View
    reads dfa
  {
    View(dfa.transitionTable, dfa.acceptStates, dfa.alphabet)
  }

  /** Every state some block holds. */
  ghost function Members(p: seq<set<int>>): set<int>
  {
    if p == [] then {} else Members(p[..|p| - 1]) + p[|p| - 1]
  }

  lemma {:induction false} MembersIndex(p: seq<set<int>>, x: int)
    ensures x in Members(p) <==> exists i :: 0 <= i < |p| && x in p[i]
  {
    if p != [] {
      var q := p[..|p| - 1];
      MembersIndex(q, x);
      if x in Members(q) {
        var i :| 0 <= i < |q| && x in q[i];
        assert x in p[i];
      }
      if exists i :: 0 <= i < |p| && x in p[i] {
        var i :| 0 <= i < |p| && x in p[i];
        if i < |q| {
          assert x in q[i];
        }
      }
    }
  }

  lemma {:induction false} MembersAppend(p: seq<set<int>>, q: seq<set<int>>)
    ensures Members(p + q) == Members(p) + Members(q)
    decreases |q|
  {
    if q == [] {
      assert p + q == p;
    } else {
      var q' := q[..|q| - 1];
      assert (p + q)[..|p + q| - 1] == p + q';
      MembersAppend(p, q');
    }
  }

  lemma MembersSingle(s: set<int>)
    ensures Members([s]) == s
  {
    assert [s][..0] == [];
  }

  ghost predicate Disjoint(p: seq<set<int>>)
  {
    forall i, j | 0 <= i < j < |p| :: p[i] * p[j] == {}
  }

  /** `p` cuts `states` into non-empty, pairwise disjoint blocks. */
  ghost predicate IsPartition(p: seq<set<int>>, states: set<int>)
  {
    && (forall i | 0 <= i < |p| :: p[i] != {})
    && Disjoint(p)
    && Members(p) == states
  }

  /** A partition has no more blocks than states. */
  lemma {:induction false} PartitionSize(p: seq<set<int>>, states: set<int>)
    requires IsPartition(p, states)
    ensures |p| <= |states|
    decreases |p|
  {
    if p != [] {
      var q := p[..|p| - 1];
      var last := p[|p| - 1];
      assert Disjoint(q);
      PartitionSize(q, Members(q));
      forall x | x in Members(q)
        ensures x !in last
      {
        MembersIndex(q, x);
        var i :| 0 <= i < |q| && x in q[i];
        assert q[i] == p[i] && i < |p| - 1;
        assert p[i] * last == {} && x in p[i];
        assert x !in p[i] * last;
      }
      assert Members(q) * last == {};
      assert |states| == |Members(q)| + |last|;
    }
  }

  // ---------------------------------------------------------------------
  // The equivalence test

  /** `d1` and `d2` lie in exactly the same blocks. */
  predicate SameBlocks(p: seq<set<int>>, d1: int, d2: int)
  {
    forall i | 0 <= i < |p| :: (d1 in p[i] <==> d2 in p[i])
  }

  /** On `symbol`, either neither state has a transition, or both have one
      and the destinations lie in the same blocks. */
  predicate AgreeOn(t: DfaTable, p: seq<set<int>>, s1: int, s2: int, symbol: char)
  {
    if (s1, symbol) in t && (s2, symbol) in t then SameBlocks(p, t[(s1, symbol)], t[(s2, symbol)])
    else (s1, symbol) !in t && (s2, symbol) !in t
  }

  /** `are_states_equivalent`: equal accept status and agreement on every
      symbol of the alphabet. */
  predicate Equivalent(v: View, p: seq<set<int>>, s1: int, s2: int)
  {
    && (s1 in v.accept <==> s2 in v.accept)
    && forall symbol | symbol in v.alphabet :: AgreeOn(v.table, p, s1, s2, symbol)
  }

  /** The test is an equivalence relation, whatever the partition. */
  lemma EquivalenceRelation(v: View, p: seq<set<int>>, x: int, y: int, z: int)
    ensures Equivalent(v, p, x, x)
    ensures Equivalent(v, p, x, y) ==> Equivalent(v, p, y, x)
    ensures Equivalent(v, p, x, y) && Equivalent(v, p, y, z) ==> Equivalent(v, p, x, z)
  {
  }

  /** Reads the automaton's accept set, alphabet and transitions and returns
      early on the first symbol the states disagree on. */
  method AreStatesEquivalent(dfa: DFA, state1: int, state2: int, partition: seq<set<int>>) returns (equivalent: bool)
    ensures equivalent == Equivalent(ViewOf(dfa), partition, state1, state2)
  {
    var transitionTable := dfa.transitionTable;
    var state1Accept := state1 in dfa.acceptStates;
    var state2Accept := state2 in dfa.acceptStates;
    if state1Accept != state2Accept {
      return false;
    }
    var pending := dfa.alphabet;
    while pending != {}
      invariant pending <= dfa.alphabet
      invariant forall symbol | symbol in dfa.alphabet && symbol !in pending ::
                  AgreeOn(transitionTable, partition, state1, state2, symbol)
      decreases pending
    {
      var symbol := LeastChar(pending);
      pending := pending - {symbol};
      var key1, key2 := (state1, symbol), (state2, symbol);
      if key1 !in transitionTable || key2 !in transitionTable {
        if key1 !in transitionTable && key2 !in transitionTable {
          continue;
        }
        assert !AgreeOn(transitionTable, partition, state1, state2, symbol);
        return false;
      }
      var dest1 := transitionTable[key1];
      var dest2 := transitionTable[key2];
      var i := 0;
      while i < |partition|
        invariant 0 <= i <= |partition|
        invariant forall j | 0 <= j < i :: (dest1 in partition[j] <==> dest2 in partition[j])
      {
        var dest1Found := dest1 in partition[i];
        var dest2Found := dest2 in partition[i];
        if dest1Found != dest2Found {
          assert !AgreeOn(transitionTable, partition, state1, state2, symbol);
          return false;
        }
        i := i + 1;
      }
    }
    return true;
  }

  // ---------------------------------------------------------------------
  // Splitting one block

  /** Inside each block of `q` every two states are equivalent under `p`. */
  ghost predicate Uniform(v: View, p: seq<set<int>>, q: seq<set<int>>)
  {
    forall k, x, y | 0 <= k < |q| && x in q[k] && y in q[k] :: Equivalent(v, p, x, y)
  }

  /** A stable partition: no block can be split any further. */
  ghost predicate Stable(v: View, p: seq<set<int>>)
  {
    Uniform(v, p, p)
  }

  /** Inside a block every two states are equivalent; states of different
      blocks are not. */
  ghost predicate Classes(v: View, p: seq<set<int>>, s: seq<set<int>>)
  {
    && Uniform(v, p, s)
    && (forall k, j, x, y | 0 <= k < |s| && 0 <= j < |s| && k != j && x in s[k] && y in s[j] ::
          !Equivalent(v, p, x, y))
  }

  /** Blocks come in the order of their least states. */
  ghost predicate FoundersAscending(s: seq<set<int>>)
  {
    forall k, j | 0 <= k < j < |s| && s[k] != {} && s[j] != {} :: Least(s[k]) < Least(s[j])
  }

  /** The split groups of `members` so far. */
  ghost predicate SplitsSoFar(v: View, p: seq<set<int>>, s: seq<set<int>>, members: set<int>)
  {
    && |s| >= 1
    && IsPartition(s, members)
    && Classes(v, p, s)
    && FoundersAscending(s)
  }

  lemma MembersUpdate(s: seq<set<int>>, k: int, state: int)
    requires 0 <= k < |s|
    ensures Members(s[k := s[k] + {state}]) == Members(s) + {state}
  {
    var s' := s[k := s[k] + {state}];
    forall x | x in Members(s) + {state}
      ensures x in Members(s')
    {
      MembersIndex(s', x);
      if x != state {
        MembersIndex(s, x);
        var i :| 0 <= i < |s| && x in s[i];
        assert x in s'[i];
      } else {
        assert x in s'[k];
      }
    }
    forall x | x in Members(s')
      ensures x in Members(s) + {state}
    {
      MembersIndex(s', x);
      var i :| 0 <= i < |s'| && x in s'[i];
      if x != state {
        MembersIndex(s, x);
        assert x in s[i];
      }
    }
  }

  /** Adding a state equivalent to a member of block `k` keeps the blocks
      equivalence classes. */
  lemma InsertClasses(v: View, p: seq<set<int>>, s: seq<set<int>>, k: int, state: int, least: int)
    requires Classes(v, p, s)
    requires 0 <= k < |s| && least in s[k] && Equivalent(v, p, least, state)
    ensures Classes(v, p, s[k := s[k] + {state}])
  {
    var s' := s[k := s[k] + {state}];
    forall j, x, y | 0 <= j < |s'| && x in s'[j] && y in s'[j]
      ensures Equivalent(v, p, x, y)
    {
      EquivalenceRelation(v, p, least, x, y);
      EquivalenceRelation(v, p, x, least, state);
      EquivalenceRelation(v, p, y, least, state);
      EquivalenceRelation(v, p, state, least, y);
    }
    forall j, i, x, y | 0 <= j < |s'| && 0 <= i < |s'| && j != i && x in s'[j] && y in s'[i]
      ensures !Equivalent(v, p, x, y)
    {
      EquivalenceRelation(v, p, least, state, y);
      EquivalenceRelation(v, p, x, state, least);
      EquivalenceRelation(v, p, least, x, state);
    }
  }

  /** Classes are disjoint, as every state is equivalent to itself. */
  lemma ClassesDisjoint(v: View, p: seq<set<int>>, s: seq<set<int>>)
    requires Classes(v, p, s)
    ensures Disjoint(s)
  {
    forall j, i | 0 <= j < i < |s|
      ensures s[j] * s[i] == {}
    {
      var common := s[j] * s[i];
      if common != {} {
        var x := Choose(common);
        EquivalenceRelation(v, p, x, x, x);
        assert false;
      }
    }
  }

  /** Adding `state` to the block whose least state it is equivalent to
      keeps the split groups. */
  lemma InsertKeeps(v: View, p: seq<set<int>>, s: seq<set<int>>, members: set<int>, k: int, state: int)
    requires SplitsSoFar(v, p, s, members)
    requires 0 <= k < |s| && Equivalent(v, p, Least(s[k]), state)
    requires forall x | x in members :: x <= state
    ensures SplitsSoFar(v, p, s[k := s[k] + {state}], members + {state})
  {
    var s' := s[k := s[k] + {state}];
    var least := Least(s[k]);
    assert least in members by {
      MembersIndex(s, least);
    }
    assert Least(s'[k]) == least;
    InsertClasses(v, p, s, k, state, least);
    ClassesDisjoint(v, p, s');
    MembersUpdate(s, k, state);
  }

  /** Opening a block for a state equivalent to no block's least state keeps
      the split groups. */
  lemma NewClassKeeps(v: View, p: seq<set<int>>, s: seq<set<int>>, members: set<int>, state: int)
    requires SplitsSoFar(v, p, s, members)
    requires forall j | 0 <= j < |s| :: !Equivalent(v, p, Least(s[j]), state)
    requires forall x | x in members :: x <= state
    ensures SplitsSoFar(v, p, s + [{state}], members + {state})
  {
    var s' := s + [{state}];
    forall j, x | 0 <= j < |s| && x in s[j]
      ensures !Equivalent(v, p, x, state)
    {
      EquivalenceRelation(v, p, Least(s[j]), x, state);
    }
    assert state !in members by {
      MembersIndex(s, state);
      if j :| 0 <= j < |s| && state in s[j] {
        EquivalenceRelation(v, p, state, state, state);
      }
    }
    forall j, i, x, y | 0 <= j < |s'| && 0 <= i < |s'| && j != i && x in s'[j] && y in s'[i]
      ensures !Equivalent(v, p, x, y)
    {
      EquivalenceRelation(v, p, x, y, x);
    }
    forall j | 0 <= j < |s|
      ensures s'[j] * s'[|s|] == {} && Least(s'[j]) < state
    {
      MembersIndex(s, Least(s[j]));
    }
    MembersAppend(s, [{state}]);
    MembersSingle({state});
  }

  /** The search over the split groups: the first group whose least state is
      equivalent to `state`, or `|splitGroups|` when there is none. */
  method FindGroup(dfa: DFA, splitGroups: seq<set<int>>, state: int, partition: seq<set<int>>) returns (k: nat)
    requires forall j | 0 <= j < |splitGroups| :: splitGroups[j] != {}
    ensures k <= |splitGroups|
    ensures forall j | 0 <= j < k :: !Equivalent(ViewOf(dfa), partition, Least(splitGroups[j]), state)
    ensures k < |splitGroups| ==> Equivalent(ViewOf(dfa), partition, Least(splitGroups[k]), state)
  {
    k := 0;
    while k < |splitGroups|
      invariant k <= |splitGroups|
      invariant forall j | 0 <= j < k :: !Equivalent(ViewOf(dfa), partition, Least(splitGroups[j]), state)
    {
      var representative := LeastInt(splitGroups[k]);
      var equivalent := AreStatesEquivalent(dfa, representative, state, partition);
      if equivalent {
        return;
      }
      k := k + 1;
    }
  }

  lemma SplitsStart(v: View, p: seq<set<int>>, first: int)
    ensures SplitsSoFar(v, p, [{first}], {first})
  {
    MembersSingle({first});
    EquivalenceRelation(v, p, first, first, first);
  }

  /** One step of the split loop: `state`, no smaller than any state placed
      so far, joins the first equivalent group or opens a new one. */
  method PlaceState(dfa: DFA, splitGroups: seq<set<int>>, state: int, partition: seq<set<int>>, ghost members: set<int>)
    returns (updated: seq<set<int>>, grew: bool)
    requires SplitsSoFar(ViewOf(dfa), partition, splitGroups, members)
    requires forall x | x in members :: x <= state
    ensures SplitsSoFar(ViewOf(dfa), partition, updated, members + {state})
    ensures |updated| == if grew then |splitGroups| + 1 else |splitGroups|
  {
    var k := FindGroup(dfa, splitGroups, state, partition);
    if k < |splitGroups| {
      InsertKeeps(ViewOf(dfa), partition, splitGroups, members, k, state);
      updated, grew := splitGroups[k := splitGroups[k] + {state}], false;
    } else {
      NewClassKeeps(ViewOf(dfa), partition, splitGroups, members, state);
      updated, grew := splitGroups + [{state}], true;
    }
  }

  /** One block of a refinement pass: its states, in ascending order, join
      the first split group whose least state they are equivalent to, or
      open a new one. The groups are the block's equivalence classes in the
      order of their least states, and `changed` says that there is more
      than one. */
  method SplitGroup(dfa: DFA, group: set<int>, partition: seq<set<int>>) returns (splitGroups: seq<set<int>>, changed: bool)
    requires group != {}
    ensures SplitsSoFar(ViewOf(dfa), partition, splitGroups, group)
    ensures changed <==> |splitGroups| > 1
  {
    var first := LeastInt(group);
    splitGroups := [{first}];
    changed := false;
    SplitsStart(ViewOf(dfa), partition, first);
    var rest := group;
    ghost var placed := {first};
    while rest != {}
      invariant rest <= group && first in group
      invariant forall x | x in group :: first <= x
      invariant forall x, y | x in group && x !in rest && y in rest :: x < y
      invariant placed == (group - rest) + {first}
      invariant SplitsSoFar(ViewOf(dfa), partition, splitGroups, placed)
      invariant changed <==> |splitGroups| > 1
      decreases rest
    {
      var state := LeastInt(rest);
      rest := rest - {state};
      var grew;
      splitGroups, grew := PlaceState(dfa, splitGroups, state, partition, placed);
      placed := placed + {state};
      changed := changed || grew;
    }
    assert (group - rest) + {first} == group;
  }

  // ---------------------------------------------------------------------
  // One refinement pass

  /** Every block of `q` lies inside some block of `p`. */
  ghost predicate Refines(q: seq<set<int>>, p: seq<set<int>>)
  {
    forall k | 0 <= k < |q| :: Inside(q, k, p)
  }

  /** Block `k` of `q` lies inside some block of `p`. */
  ghost predicate Inside(q: seq<set<int>>, k: int, p: seq<set<int>>)
    requires 0 <= k < |q|
  {
    exists i :: 0 <= i < |p| && q[k] <= p[i]
  }

  /** A block of one state is its own single class. */
  lemma SingletonSplits(v: View, p: seq<set<int>>, group: set<int>)
    requires |group| == 1
    ensures SplitsSoFar(v, p, [group], group)
  {
    var x := Choose(group);
    assert group == {x} by {
      SubsetCardinality({x}, group);
    }
    SplitsStart(v, p, x);
  }

  lemma PrefixMembers(p: seq<set<int>>, i: int)
    requires 0 <= i < |p|
    ensures Members(p[..i + 1]) == Members(p[..i]) + p[i]
    ensures Disjoint(p) ==> Members(p[..i]) * p[i] == {}
  {
    assert p[..i + 1][..i] == p[..i];
    if Disjoint(p) {
      forall x | x in Members(p[..i])
        ensures x !in p[i]
      {
        MembersIndex(p[..i], x);
        var j :| 0 <= j < i && x in p[..i][j];
        assert p[j] * p[i] == {} && x in p[j];
        assert x !in p[j] * p[i];
      }
    }
  }

  /** Appending the classes of the next block to the pass's output. */
  lemma AppendSplits(v: View, p: seq<set<int>>, q: seq<set<int>>, done: set<int>, i: int, splits: seq<set<int>>)
    requires 0 <= i < |p| && IsPartition(q, done) && Uniform(v, p, q) && Refines(q, p)
    requires SplitsSoFar(v, p, splits, p[i]) && done * p[i] == {}
    ensures IsPartition(q + splits, done + p[i]) && Uniform(v, p, q + splits) && Refines(q + splits, p)
  {
    var q' := q + splits;
    forall k | 0 <= k < |splits|
      ensures splits[k] <= p[i]
    {
      forall x | x in splits[k]
        ensures x in p[i]
      {
        MembersIndex(splits, x);
      }
    }
    forall k | 0 <= k < |q|
      ensures q[k] <= done
    {
      forall x | x in q[k]
        ensures x in done
      {
        MembersIndex(q, x);
      }
    }
    forall k, j | 0 <= k < j < |q'|
      ensures q'[k] * q'[j] == {}
    {
      if j >= |q| && k < |q| {
        assert q'[k] <= done && q'[j] <= p[i];
      }
    }
    forall k | 0 <= k < |q'|
      ensures Inside(q', k, p)
    {
      if k >= |q| {
        assert q'[k] <= p[i];
      } else {
        assert q'[k] == q[k] && Inside(q, k, p);
      }
    }
    MembersAppend(q, splits);
  }

  /** States of one of the first `n` blocks of `p` that are equivalent
      under `p` share their block of `q`: a pass never separates them. */
  ghost predicate KeptTogether(v: View, p: seq<set<int>>, n: int, q: seq<set<int>>)
  {
    forall j, k, x, y | 0 <= j < n && j < |p| && 0 <= k < |q| && x in p[j] && y in p[j] && x in q[k]
      && Equivalent(v, p, x, y) :: y in q[k]
  }

  /** Appending the classes of block `i` keeps equivalent states of the
      first `i + 1` blocks together. */
  lemma AppendTogether(v: View, p: seq<set<int>>, q: seq<set<int>>, i: int, splits: seq<set<int>>)
    requires 0 <= i < |p| && IsPartition(q, Members(p[..i])) && KeptTogether(v, p, i, q)
    requires SplitsSoFar(v, p, splits, p[i]) && Members(p[..i]) * p[i] == {}
    ensures KeptTogether(v, p, i + 1, q + splits)
  {
    var q' := q + splits;
    forall j, k, x, y | 0 <= j < i + 1 && j < |p| && 0 <= k < |q'| && x in p[j] && y in p[j] && x in q'[k]
      && Equivalent(v, p, x, y)
      ensures y in q'[k]
    {
      MembersIndex(splits, x);
      MembersIndex(q, x);
      if j < i {
        MembersIndex(p[..i], x);
        assert p[..i][j] == p[j];
        assert x !in Members(p[..i]) * p[i];
        assert k < |q| && q'[k] == q[k];
      } else {
        assert x !in Members(p[..i]) * p[i];
        assert k >= |q| && q'[k] == splits[k - |q|];
        MembersIndex(splits, y);
        var s' :| 0 <= s' < |splits| && y in splits[s'];
        assert s' == k - |q|;
      }
    }
  }

  /** What the pass has built after its first `i` blocks. */
  ghost predicate PassSoFar(v: View, p: seq<set<int>>, i: int, q: seq<set<int>>, changed: bool)
  {
    && 0 <= i <= |p|
    && IsPartition(q, Members(p[..i]))
    && Uniform(v, p, q)
    && Refines(q, p)
    && |q| >= i
    && (changed <==> |q| > i)
    && (!changed ==> q == p[..i])
    && KeptTogether(v, p, i, q)
  }

  /** The body of the pass for block `i`. */
  method RefineGroup(dfa: DFA, partition: seq<set<int>>, i: int, newPartition: seq<set<int>>, partitionChanged: bool)
    returns (extended: seq<set<int>>, changedNow: bool)
    requires IsPartition(partition, dfa.states) && i < |partition|
    requires PassSoFar(ViewOf(dfa), partition, i, newPartition, partitionChanged)
    ensures PassSoFar(ViewOf(dfa), partition, i + 1, extended, changedNow)
  {
    var group := partition[i];
    var splitGroups;
    changedNow := partitionChanged;
    if |group| <= 1 {
      splitGroups := [group];
      SingletonSplits(ViewOf(dfa), partition, group);
    } else {
      var changed;
      splitGroups, changed := SplitGroup(dfa, group, partition);
      changedNow := changedNow || changed;
    }
    PrefixMembers(partition, i);
    AppendSplits(ViewOf(dfa), partition, newPartition, Members(partition[..i]), i, splitGroups);
    AppendTogether(ViewOf(dfa), partition, newPartition, i, splitGroups);
    if |splitGroups| == 1 {
      MembersSingle(splitGroups[0]);
      assert splitGroups == [group];
    }
    extended := newPartition + splitGroups;
    assert partition[..i + 1] == partition[..i] + [group];
  }

  /** One pass of the do-while: every block of more than one state is
      replaced by its classes under the current partition; smaller blocks
      are kept. States of one block that are equivalent stay in one block.
      The pass reports a change exactly when it made more blocks, and a
      pass without a change returns the partition it was given. */
  method RefinePass(dfa: DFA, partition: seq<set<int>>) returns (newPartition: seq<set<int>>, partitionChanged: bool)
    requires IsPartition(partition, dfa.states)
    ensures IsPartition(newPartition, dfa.states)
    ensures Uniform(ViewOf(dfa), partition, newPartition)
    ensures Refines(newPartition, partition)
    ensures KeptTogether(ViewOf(dfa), partition, |partition|, newPartition)
    ensures partitionChanged <==> |newPartition| > |partition|
    ensures !partitionChanged ==> newPartition == partition
  {
    newPartition := [];
    partitionChanged := false;
    var i := 0;
    assert partition[..0] == [];
    while i < |partition|
      invariant PassSoFar(ViewOf(dfa), partition, i, newPartition, partitionChanged)
    {
      newPartition, partitionChanged := RefineGroup(dfa, partition, i, newPartition, partitionChanged);
      i := i + 1;
    }
    assert partition[..i] == partition;
  }

  // ---------------------------------------------------------------------
  // The coarsest stable partition

  /** A state lies in at most one block of a partition. */
  lemma BlockUnique(p: seq<set<int>>, x: int, i: int, m: int)
    requires Disjoint(p) && 0 <= i < |p| && 0 <= m < |p|
    ensures x in p[i] && x in p[m] ==> i == m
  {
    if i < m {
      assert x !in p[i] * p[m];
    } else if m < i {
      assert x !in p[m] * p[i];
    }
  }

  /** For two partitions of the same states, the first inside the second,
      states lying in the same blocks of the first lie in the same blocks of
      the second. */
  lemma SameBlocksCoarser(r: seq<set<int>>, p: seq<set<int>>, states: set<int>, d1: int, d2: int)
    requires IsPartition(r, states) && IsPartition(p, states) && Refines(r, p)
    requires SameBlocks(r, d1, d2)
    ensures SameBlocks(p, d1, d2)
  {
    MembersIndex(r, d1);
    MembersIndex(r, d2);
    MembersIndex(p, d1);
    MembersIndex(p, d2);
    if d1 in states {
      var k :| 0 <= k < |r| && d1 in r[k];
      assert d2 in r[k] && Inside(r, k, p);
      var m :| 0 <= m < |p| && r[k] <= p[m];
      forall i | 0 <= i < |p|
        ensures d1 in p[i] <==> d2 in p[i]
      {
        BlockUnique(p, d1, i, m);
        BlockUnique(p, d2, i, m);
      }
    }
  }

  /** Equivalence under a finer partition implies equivalence under a
      coarser one. */
  lemma EquivalentCoarser(v: View, r: seq<set<int>>, p: seq<set<int>>, states: set<int>, x: int, y: int)
    requires IsPartition(r, states) && IsPartition(p, states) && Refines(r, p)
    requires Equivalent(v, r, x, y)
    ensures Equivalent(v, p, x, y)
  {
    forall symbol | symbol in v.alphabet
      ensures AgreeOn(v.table, p, x, y, symbol)
    {
      assert AgreeOn(v.table, r, x, y, symbol);
      if (x, symbol) in v.table && (y, symbol) in v.table {
        SameBlocksCoarser(r, p, states, v.table[(x, symbol)], v.table[(y, symbol)]);
      }
    }
  }

  lemma RefinesSelf(p: seq<set<int>>)
    ensures Refines(p, p)
  {
    forall k | 0 <= k < |p|
      ensures Inside(p, k, p)
    {
      assert p[k] <= p[k];
    }
  }

  lemma RefinesTransitive(a: seq<set<int>>, b: seq<set<int>>, c: seq<set<int>>)
    requires Refines(a, b) && Refines(b, c)
    ensures Refines(a, c)
  {
    forall k | 0 <= k < |a|
      ensures Inside(a, k, c)
    {
      assert Inside(a, k, b);
      var j :| 0 <= j < |b| && a[k] <= b[j];
      assert Inside(b, j, c);
      var i :| 0 <= i < |c| && b[j] <= c[i];
    }
  }

  /** A stable partition inside `p` stays inside the result `q` of a pass
      over `p`: the pass only separates states that no stable partition
      puts together. */
  lemma CoarsestStep(v: View, states: set<int>, r: seq<set<int>>, p: seq<set<int>>, q: seq<set<int>>)
    requires IsPartition(r, states) && Stable(v, r) && IsPartition(p, states) && Refines(r, p)
    requires IsPartition(q, states) && KeptTogether(v, p, |p|, q)
    ensures Refines(r, q)
  {
    forall k | 0 <= k < |r|
      ensures Inside(r, k, q)
    {
      assert Inside(r, k, p);
      var m :| 0 <= m < |p| && r[k] <= p[m];
      var x := Choose(r[k]);
      MembersIndex(r, x);
      MembersIndex(q, x);
      var n :| 0 <= n < |q| && x in q[n];
      forall y | y in r[k]
        ensures y in q[n]
      {
        assert Equivalent(v, r, x, y);
        EquivalentCoarser(v, r, p, states, x, y);
      }
    }
  }

  /** `p` is the coarsest stable partition of `states` inside `init`: every
      stable partition of `states` inside `init` lies inside `p`. */
  ghost predicate Coarsest(v: View, states: set<int>, init: seq<set<int>>, p: seq<set<int>>)
  {
    forall r | IsPartition(r, states) && Stable(v, r) && Refines(r, init) :: Refines(r, p)
  }

  /** The blocks of `p` that meet `m`. */
  ghost function Covered(p: seq<set<int>>, m: set<int>): set<int>
  {
    set i | 0 <= i < |p| && p[i] * m != {}
  }

  /** The first `n` blocks of `r`, each inside one block of `p`, meet at most
      `n` blocks of `p`. */
  lemma {:induction false} CoveredBound(r: seq<set<int>>, p: seq<set<int>>, n: int)
    requires Disjoint(p) && Refines(r, p) && 0 <= n <= |r|
    ensures |Covered(p, Members(r[..n]))| <= n
  {
    if n == 0 {
      assert r[..0] == [];
      assert Covered(p, Members(r[..0])) == {};
    } else {
      CoveredBound(r, p, n - 1);
      PrefixMembers(r, n - 1);
      assert Inside(r, n - 1, p);
      var h :| 0 <= h < |p| && r[n - 1] <= p[h];
      var before, after := Covered(p, Members(r[..n - 1])), Covered(p, Members(r[..n]));
      forall i | i in after
        ensures i in before + {h}
      {
        var x := Choose(p[i] * Members(r[..n]));
        if x !in Members(r[..n - 1]) {
          BlockUnique(p, x, i, h);
        } else {
          assert x in p[i] * Members(r[..n - 1]);
        }
      }
      SubsetCardinality(after, before + {h});
    }
  }

  /** A partition with another partition of the same states inside it has
      no more blocks than that other partition. */
  lemma FewestBlocks(r: seq<set<int>>, p: seq<set<int>>, states: set<int>)
    requires IsPartition(r, states) && IsPartition(p, states) && Refines(r, p)
    ensures |p| <= |r|
  {
    CoveredBound(r, p, |r|);
    assert r[..|r|] == r;
    forall i | 0 <= i < |p|
      ensures i in Covered(p, Members(r))
    {
      var x := Choose(p[i]);
      MembersIndex(p, x);
      assert x in p[i] * Members(r);
    }
    assert Covered(p, Members(r)) == Ids(|p|);
    IdsSize(|p|);
  }

  // ---------------------------------------------------------------------
  // Steps 1 and 2: the initial partition and its refinement

  /** The accepting states, then the non-accepting ones, each block only
      when it is non-empty. */
  function InitialBlocks(states: set<int>, accept: set<int>): seq<set<int>>
  {
    var acceptStates, nonAcceptStates := states * accept, states - accept;
    (if acceptStates != {} then [acceptStates] else []) + (if nonAcceptStates != {} then [nonAcceptStates] else [])
  }

  /** The initial blocks partition the states, and none mixes accepting and
      non-accepting states. */
  lemma InitialBlocksPartition(states: set<int>, accept: set<int>)
    ensures IsPartition(InitialBlocks(states, accept), states)
    ensures forall i, x | 0 <= i < |InitialBlocks(states, accept)| && x in InitialBlocks(states, accept)[i] ::
              (x in accept <==> InitialBlocks(states, accept)[i] <= accept)
  {
    var a, n := states * accept, states - accept;
    var p := InitialBlocks(states, accept);
    var pa: seq<set<int>> := if a != {} then [a] else [];
    var pn: seq<set<int>> := if n != {} then [n] else [];
    MembersAppend(pa, pn);
    if a != {} {
      MembersSingle(a);
    }
    if n != {} {
      MembersSingle(n);
    }
    assert Members([]) == {};
    assert states == a + n;
  }

  /** Step 1: one pass over the states sorts them into the two blocks. */
  method InitialPartition(dfa: DFA) returns (partition: seq<set<int>>)
    ensures partition == InitialBlocks(dfa.states, dfa.acceptStates)
  {
    var acceptStates, nonAcceptStates := {}, {};
    var pending := dfa.states;
    while pending != {}
      invariant pending <= dfa.states
      invariant acceptStates == (dfa.states - pending) * dfa.acceptStates
      invariant nonAcceptStates == (dfa.states - pending) - dfa.acceptStates
      decreases pending
    {
      var state := Pick(pending);
      if state in dfa.acceptStates {
        acceptStates := acceptStates + {state};
      } else {
        nonAcceptStates := nonAcceptStates + {state};
      }
      pending := pending - {state};
    }
    assert dfa.states - pending == dfa.states;
    partition := [];
    if acceptStates != {} {
      partition := partition + [acceptStates];
    }
    if nonAcceptStates != {} {
      partition := partition + [nonAcceptStates];
    }
  }

  /** Step 2, the do-while: passes run until one changes nothing. Each
      changing pass adds blocks and a partition has at most one block per
      state, so the loop ends, with a stable partition of the states inside
      the initial blocks. No pass separates states that some stable
      partition inside the initial blocks keeps together, so the result is
      the coarsest such partition. */
  method RefinePartition(dfa: DFA) returns (partition: seq<set<int>>)
    ensures IsPartition(partition, dfa.states)
    ensures Stable(ViewOf(dfa), partition)
    ensures Refines(partition, InitialBlocks(dfa.states, dfa.acceptStates))
    ensures Coarsest(ViewOf(dfa), dfa.states, InitialBlocks(dfa.states, dfa.acceptStates), partition)
  {
    ghost var init := InitialBlocks(dfa.states, dfa.acceptStates);
    partition := InitialPartition(dfa);
    InitialBlocksPartition(dfa.states, dfa.acceptStates);
    RefinesSelf(partition);
    var partitionChanged := true;
    PartitionSize(partition, dfa.states);
    while partitionChanged
      invariant IsPartition(partition, dfa.states)
      invariant |partition| <= |dfa.states|
      invariant !partitionChanged ==> Stable(ViewOf(dfa), partition)
      invariant Refines(partition, init)
      invariant Coarsest(ViewOf(dfa), dfa.states, init, partition)
      decreases |dfa.states| - |partition| + (if partitionChanged then 1 else 0)
    {
      var newPartition, changed := RefinePass(dfa, partition);
      PartitionSize(newPartition, dfa.states);
      RefinesTransitive(newPartition, partition, init);
      forall r | IsPartition(r, dfa.states) && Stable(ViewOf(dfa), r) && Refines(r, init)
        ensures Refines(r, newPartition)
      {
        CoarsestStep(ViewOf(dfa), dfa.states, r, partition, newPartition);
      }
      partition, partitionChanged := newPartition, changed;
    }
  }

  // ---------------------------------------------------------------------
  // Step 3: one state per block

  /** `stateMapping` sends every state to the index of its block. */
  ghost predicate Numbering(p: seq<set<int>>, stateMapping: map<int, int>)
  {
    && stateMapping.Keys == Members(p)
    && forall i, x | 0 <= i < |p| && x in p[i] :: x in stateMapping && stateMapping[x] == i
  }

  /** The new start state: the block holding the old start, or the default 0
      when no block holds it. */
  ghost predicate StartBlock(p: seq<set<int>>, start: int, newStart: int)
  {
    && (forall i | 0 <= i < |p| && start in p[i] :: newStart == i)
    && (start !in Members(p) ==> newStart == 0)
  }

  /** What the inner loop of step 3 has built once the states of `done` are mapped. */
  ghost predicate MappedSoFar(stateMapping: map<int, int>, done: set<int>, index: int, updated: map<int, int>)
  {
    && updated.Keys == stateMapping.Keys + done
    && (forall x | x in done :: updated[x] == index)
    && (forall x | x in stateMapping && x !in done :: updated[x] == stateMapping[x])
  }

  lemma MappedStep(stateMapping: map<int, int>, done: set<int>, index: int, updated: map<int, int>, state: int)
    requires MappedSoFar(stateMapping, done, index, updated)
    ensures MappedSoFar(stateMapping, done + {state}, index, updated[state := index])
  {
  }

  /** The inner loop of step 3: every state of `group` is sent to `index`. */
  method MapGroup(stateMapping: map<int, int>, group: set<int>, index: int) returns (updated: map<int, int>)
    ensures updated.Keys == stateMapping.Keys + group
    ensures forall x | x in group :: updated[x] == index
    ensures forall x | x in stateMapping && x !in group :: updated[x] == stateMapping[x]
  {
    updated := stateMapping;
    var pending := group;
    while pending != {}
      invariant pending <= group
      invariant MappedSoFar(stateMapping, group - pending, index, updated)
      decreases pending
    {
      var state := Pick(pending);
      MappedStep(stateMapping, group - pending, index, updated, state);
      updated := updated[state := index];
      assert group - (pending - {state}) == (group - pending) + {state};
      pending := pending - {state};
    }
    assert group - pending == group;
  }

  /** What step 3 has built after `n` blocks. */
  ghost predicate NumberedSoFar(dfa: DFA, p: seq<set<int>>, n: int, m: DFA, stateMapping: map<int, int>)
    reads dfa, m
  {
    && 0 <= n <= |p|
    && (forall i | 0 <= i < |p| :: p[i] != {})
    && m.Valid()
    && m.states == Ids(n)
    && (forall i | 0 <= i < n :: (i in m.acceptStates <==> Least(p[i]) in dfa.acceptStates))
    && StartBlock(p[..n], dfa.startState, m.startState)
    && m.alphabet == {} && m.transitionTable == map[]
    && Numbering(p[..n], stateMapping)
  }

  lemma NumberingStep(p: seq<set<int>>, n: int, stateMapping: map<int, int>, updated: map<int, int>)
    requires 0 <= n < |p| && Disjoint(p) && Numbering(p[..n], stateMapping)
    requires updated.Keys == stateMapping.Keys + p[n]
    requires forall x | x in p[n] :: updated[x] == n
    requires forall x | x in stateMapping && x !in p[n] :: updated[x] == stateMapping[x]
    ensures Numbering(p[..n + 1], updated)
  {
    PrefixMembers(p, n);
    var q := p[..n + 1];
    forall i, x | 0 <= i < n + 1 && x in q[i]
      ensures x in updated && updated[x] == i
    {
      assert q[i] == p[i];
      if i < n {
        assert p[..n][i] == p[i];
        assert x in stateMapping && stateMapping[x] == i;
        assert x !in Members(p[..n]) * p[n];
      }
    }
  }

  lemma StartStep(p: seq<set<int>>, n: int, start: int, newStart: int, newStart': int)
    requires 0 <= n < |p| && Disjoint(p) && StartBlock(p[..n], start, newStart)
    requires newStart' == if start in p[n] then n else newStart
    ensures StartBlock(p[..n + 1], start, newStart')
  {
    PrefixMembers(p, n);
    var q := p[..n + 1];
    forall i | 0 <= i < n + 1 && start in q[i]
      ensures newStart' == i
    {
      assert q[i] == p[i];
      if i < n {
        assert p[..n][i] == p[i];
        assert start in Members(p[..n]) by {
          MembersIndex(p[..n], start);
        }
        assert start !in Members(p[..n]) * p[n];
      }
    }
  }

  /** One block of step 3: map its states, add its state, flag it as the
      start when it holds the old start. */
  method NumberBlock(dfa: DFA, partition: seq<set<int>>, n: int, m: DFA, stateMapping: map<int, int>)
    returns (updated: map<int, int>)
    requires Disjoint(partition) && n < |partition| && m != dfa
    requires NumberedSoFar(dfa, partition, n, m, stateMapping)
    modifies m
    ensures NumberedSoFar(dfa, partition, n + 1, m, updated)
  {
    var group := partition[n];
    var representativeState := LeastInt(group);
    updated := MapGroup(stateMapping, group, n);
    NumberingStep(partition, n, stateMapping, updated);
    ghost var start := m.startState;
    m.AddState(n, representativeState in dfa.acceptStates);
    if dfa.startState in group {
      m.SetStartState(n);
    }
    StartStep(partition, n, dfa.startState, start, m.startState);
    assert Ids(n + 1) == Ids(n) + {n};
  }

  /** Step 3: block `i` becomes state `i`, accepting when its least state
      accepts, and the start when it holds the old start. */
  method NumberBlocks(dfa: DFA, partition: seq<set<int>>) returns (m: DFA, stateMapping: map<int, int>)
    requires IsPartition(partition, dfa.states)
    ensures fresh(m)
    ensures NumberedSoFar(dfa, partition, |partition|, m, stateMapping)
  {
    m := new DFA();
    stateMapping := map[];
    var newStateIndex := 0;
    assert partition[..0] == [];
    while newStateIndex < |partition|
      invariant fresh(m)
      invariant NumberedSoFar(dfa, partition, newStateIndex, m, stateMapping)
    {
      stateMapping := NumberBlock(dfa, partition, newStateIndex, m, stateMapping);
      newStateIndex := newStateIndex + 1;
    }
    assert partition[..newStateIndex] == partition;
  }

  // ---------------------------------------------------------------------
  // Step 4: the transitions between blocks

  /** Which entries of the minimised table are settled once blocks 0 .. i-1
      and, of block `i`, the symbols of `done` are handled. */
  predicate Handled(i: int, done: set<char>, key: (int, char))
  {
    key.0 < i || (key.0 == i && key.1 in done)
  }

  /** The minimised table `t` after step 4 has handled the entries `Handled`
      names: block `j` moves on `symbol` exactly when the least state of
      block `j` does, and to the block of that state's destination. */
  ghost predicate QuotientSoFar(v: View, p: seq<set<int>>, stateMapping: map<int, int>, i: int, done: set<char>, t: DfaTable)
  {
    && (forall j | 0 <= j < |p| :: p[j] != {})
    && (forall key | key in t ::
          && 0 <= key.0 < |p| && key.1 in v.alphabet && Handled(i, done, key)
          && (Least(p[key.0]), key.1) in v.table)
    && (forall key: (int, char) | 0 <= key.0 < |p| && key.1 in v.alphabet && Handled(i, done, key)
          && (Least(p[key.0]), key.1) in v.table ::
          && key in t
          && v.table[(Least(p[key.0]), key.1)] in stateMapping
          && t[key] == stateMapping[v.table[(Least(p[key.0]), key.1)]])
  }

  /** The whole minimised table, once every block is handled. */
  ghost predicate QuotientTable(v: View, p: seq<set<int>>, stateMapping: map<int, int>, t: DfaTable)
  {
    QuotientSoFar(v, p, stateMapping, |p|, {}, t)
  }

  lemma QuotientStart(v: View, p: seq<set<int>>, stateMapping: map<int, int>)
    requires forall j | 0 <= j < |p| :: p[j] != {}
    ensures QuotientSoFar(v, p, stateMapping, 0, {}, map[])
  {
  }

  /** Handling one more symbol of block `i`. */
  lemma QuotientSymbol(v: View, p: seq<set<int>>, stateMapping: map<int, int>, i: int, done: set<char>,
                       t: DfaTable, symbol: char, t1: DfaTable)
    requires 0 <= i < |p| && symbol in v.alphabet
    requires QuotientSoFar(v, p, stateMapping, i, done, t)
    requires (Least(p[i]), symbol) in v.table ==> v.table[(Least(p[i]), symbol)] in stateMapping
    requires t1 == if (Least(p[i]), symbol) in v.table
                   then t[(i, symbol) := stateMapping[v.table[(Least(p[i]), symbol)]]]
                   else t
    ensures QuotientSoFar(v, p, stateMapping, i, done + {symbol}, t1)
  {
    forall key: (int, char) | 0 <= key.0 < |p| && key.1 in v.alphabet && Handled(i, done + {symbol}, key)
      && (Least(p[key.0]), key.1) in v.table
      ensures key in t1 && v.table[(Least(p[key.0]), key.1)] in stateMapping
      ensures t1[key] == stateMapping[v.table[(Least(p[key.0]), key.1)]]
    {
      if key != (i, symbol) {
        assert Handled(i, done, key);
      }
    }
  }

  /** Moving on to block `i + 1` once every symbol of block `i` is handled. */
  lemma QuotientBlock(v: View, p: seq<set<int>>, stateMapping: map<int, int>, i: int, t: DfaTable)
    requires QuotientSoFar(v, p, stateMapping, i, v.alphabet, t)
    ensures QuotientSoFar(v, p, stateMapping, i + 1, {}, t)
  {
    forall key: (int, char) | 0 <= key.0 < |p| && key.1 in v.alphabet && Handled(i + 1, {}, key)
      && (Least(p[key.0]), key.1) in v.table
      ensures key in t && v.table[(Least(p[key.0]), key.1)] in stateMapping
      ensures t[key] == stateMapping[v.table[(Least(p[key.0]), key.1)]]
    {
      assert Handled(i, v.alphabet, key);
    }
  }

  /** What step 4 keeps true of the minimised DFA `m` while it adds
      transitions. */
  ghost predicate LinkedSoFar(dfa: DFA, p: seq<set<int>>, stateMapping: map<int, int>, i: int, done: set<char>, m: DFA)
    reads dfa, m
  {
    && m.Valid()
    && m.alphabet == Symbols(m.transitionTable)
    && QuotientSoFar(ViewOf(dfa), p, stateMapping, i, done, m.transitionTable)
  }

  /** The inner loop of step 4: the moves of block `i`, read off its least
      state. */
  method LinkBlock(dfa: DFA, partition: seq<set<int>>, stateMapping: map<int, int>, i: int, m: DFA)
    requires dfa.Valid() && m != dfa && 0 <= i < |partition|
    requires IsPartition(partition, dfa.states) && Numbering(partition, stateMapping)
    requires m.states == Ids(|partition|)
    requires LinkedSoFar(dfa, partition, stateMapping, i, {}, m)
    modifies m
    ensures LinkedSoFar(dfa, partition, stateMapping, i + 1, {}, m)
    ensures m.states == old(m.states) && m.startState == old(m.startState) && m.acceptStates == old(m.acceptStates)
  {
    var group := partition[i];
    var representativeState := LeastInt(group);
    var fromState := stateMapping[representativeState];
    var transitionTable := dfa.transitionTable;
    var pending := dfa.alphabet;
    while pending != {}
      invariant pending <= dfa.alphabet
      invariant LinkedSoFar(dfa, partition, stateMapping, i, dfa.alphabet - pending, m)
      invariant m.states == old(m.states) && m.startState == old(m.startState) && m.acceptStates == old(m.acceptStates)
      decreases pending
    {
      var symbol := LeastChar(pending);
      ghost var t := m.transitionTable;
      if (representativeState, symbol) in transitionTable {
        var originalDestState := transitionTable[(representativeState, symbol)];
        MembersIndex(partition, originalDestState);
        var destState := stateMapping[originalDestState];
        SymbolsUpdate(m.transitionTable, (fromState, symbol), destState);
        Absorb(m.states, fromState, destState);
        m.AddTransition(fromState, symbol, destState);
      }
      QuotientSymbol(ViewOf(dfa), partition, stateMapping, i, dfa.alphabet - pending, t, symbol, m.transitionTable);
      assert dfa.alphabet - (pending - {symbol}) == (dfa.alphabet - pending) + {symbol};
      pending := pending - {symbol};
    }
    assert dfa.alphabet - pending == dfa.alphabet;
    QuotientBlock(ViewOf(dfa), partition, stateMapping, i, m.transitionTable);
  }

  /** Step 4: every block's moves, block by block. */
  method LinkBlocks(dfa: DFA, partition: seq<set<int>>, stateMapping: map<int, int>, m: DFA)
    requires dfa.Valid() && m != dfa && m.Valid()
    requires IsPartition(partition, dfa.states) && Numbering(partition, stateMapping)
    requires m.states == Ids(|partition|) && m.alphabet == {} && m.transitionTable == map[]
    modifies m
    ensures m.Valid()
    ensures m.alphabet == Symbols(m.transitionTable)
    ensures QuotientTable(ViewOf(dfa), partition, stateMapping, m.transitionTable)
    ensures m.states == old(m.states) && m.startState == old(m.startState) && m.acceptStates == old(m.acceptStates)
  {
    QuotientStart(ViewOf(dfa), partition, stateMapping);
    var i := 0;
    while i < |partition|
      invariant 0 <= i <= |partition|
      invariant LinkedSoFar(dfa, partition, stateMapping, i, {}, m)
      invariant m.states == old(m.states) && m.startState == old(m.startState) && m.acceptStates == old(m.acceptStates)
    {
      LinkBlock(dfa, partition, stateMapping, i, m);
      i := i + 1;
    }
  }

  // ---------------------------------------------------------------------
  // minimize_dfa

  /** `Ids(n)` has `n` members. */
  lemma {:induction false} IdsSize(n: nat)
    ensures |Ids(n)| == n
  {
    if n > 0 {
      var smaller := Ids(n - 1);
      IdsSize(n - 1);
      assert n - 1 !in smaller;
      assert Ids(n) == smaller + {n - 1};
    }
  }

  /** Steps 1 to 4: the coarsest stable partition of the states inside the
      accepting/non-accepting split, one state per block, and the moves of
      each block read off its least state. No stable partition inside that
      split has fewer blocks than the minimised DFA has states. */
  method MinimizeDfa(originalDfa: DFA) returns (minimizedDfa: DFA, ghost partition: seq<set<int>>, ghost stateMapping: map<int, int>)
    requires originalDfa.Valid()
    ensures fresh(minimizedDfa) && minimizedDfa.Valid()
    ensures IsPartition(partition, originalDfa.states) && Stable(ViewOf(originalDfa), partition)
    ensures Refines(partition, InitialBlocks(originalDfa.states, originalDfa.acceptStates))
    ensures Coarsest(ViewOf(originalDfa), originalDfa.states, InitialBlocks(originalDfa.states, originalDfa.acceptStates), partition)
    ensures forall r | IsPartition(r, originalDfa.states) && Stable(ViewOf(originalDfa), r)
              && Refines(r, InitialBlocks(originalDfa.states, originalDfa.acceptStates)) ::
              |minimizedDfa.states| <= |r|
    ensures Numbering(partition, stateMapping)
    ensures minimizedDfa.states == Ids(|partition|)
    ensures |minimizedDfa.states| <= |originalDfa.states|
    ensures forall i | 0 <= i < |partition| ::
              (i in minimizedDfa.acceptStates <==> Least(partition[i]) in originalDfa.acceptStates)
    ensures StartBlock(partition, originalDfa.startState, minimizedDfa.startState)
    ensures minimizedDfa.alphabet == Symbols(minimizedDfa.transitionTable)
    ensures QuotientTable(ViewOf(originalDfa), partition, stateMapping, minimizedDfa.transitionTable)
    ensures originalDfa.startState in originalDfa.states ==>
              forall w :: Accepts(originalDfa.transitionTable, originalDfa.acceptStates, originalDfa.startState, w) <==>
                          Accepts(minimizedDfa.transitionTable, minimizedDfa.acceptStates, minimizedDfa.startState, w)
  {
    var blocks := RefinePartition(originalDfa);
    var m, mapping := NumberBlocks(originalDfa, blocks);
    assert blocks[..|blocks|] == blocks;
    LinkBlocks(originalDfa, blocks, mapping, m);
    IdsSize(|blocks|);
    PartitionSize(blocks, originalDfa.states);
    minimizedDfa, partition, stateMapping := m, blocks, mapping;
    forall r | IsPartition(r, originalDfa.states) && Stable(ViewOf(originalDfa), r)
      && Refines(r, InitialBlocks(originalDfa.states, originalDfa.acceptStates))
      ensures |minimizedDfa.states| <= |r|
    {
      FewestBlocks(r, partition, originalDfa.states);
    }
    if originalDfa.startState in originalDfa.states {
      forall w {
        MinimizedLanguage(originalDfa, minimizedDfa, partition, stateMapping, w);
      }
    }
  }

  // ---------------------------------------------------------------------
  // The minimised DFA accepts what the original accepts

  /** Every transition of `v` joins two of `states` on a symbol of the
      alphabet, as in a valid DFA. */
  ghost predicate Closed(v: View, states: set<int>)
  {
    forall k | k in v.table :: k.0 in states && k.1 in v.alphabet && v.table[k] in states
  }

  /** A state's block, read through the numbering. */
  lemma BlockOf(p: seq<set<int>>, stateMapping: map<int, int>, states: set<int>, x: int)
    requires IsPartition(p, states) && Numbering(p, stateMapping) && x in states
    ensures x in stateMapping && 0 <= stateMapping[x] < |p| && x in p[stateMapping[x]]
  {
    MembersIndex(p, x);
    var i :| 0 <= i < |p| && x in p[i];
  }

  /** One move of the minimised DFA from the block of `q` mirrors the move
      of `q` itself. */
  lemma QuotientAgrees(v: View, p: seq<set<int>>, stateMapping: map<int, int>, states: set<int>,
                       t: DfaTable, q: int, c: char)
    requires Closed(v, states) && IsPartition(p, states) && Stable(v, p)
    requires Numbering(p, stateMapping) && QuotientTable(v, p, stateMapping, t)
    requires q in states
    ensures q in stateMapping
    ensures (q, c) in v.table <==> (stateMapping[q], c) in t
    ensures (q, c) in v.table ==>
              v.table[(q, c)] in stateMapping && t[(stateMapping[q], c)] == stateMapping[v.table[(q, c)]]
  {
    BlockOf(p, stateMapping, states, q);
    var j := stateMapping[q];
    var r := Least(p[j]);
    assert Equivalent(v, p, q, r);
    if c in v.alphabet && (q, c) in v.table {
      assert AgreeOn(v.table, p, q, r, c);
      var dq, dr := v.table[(q, c)], v.table[(r, c)];
      BlockOf(p, stateMapping, states, dq);
      var k := stateMapping[dq];
      assert dr in p[k];
      assert (j, c) in t && t[(j, c)] == stateMapping[dr];
    }
  }

  /** Runs of the minimised DFA follow the runs of the original, block by
      block: both stop on the same words, and otherwise end in a state and
      the block holding it. */
  lemma {:induction false} RunQuotient(v: View, p: seq<set<int>>, stateMapping: map<int, int>, states: set<int>,
                                       t: DfaTable, q: int, w: string)
    requires Closed(v, states) && IsPartition(p, states) && Stable(v, p)
    requires Numbering(p, stateMapping) && QuotientTable(v, p, stateMapping, t)
    requires q in states
    ensures q in stateMapping
    ensures Run(v.table, q, w).Some? <==> Run(t, stateMapping[q], w).Some?
    ensures Run(v.table, q, w).Some? ==>
              && Run(v.table, q, w).value in states
              && Run(v.table, q, w).value in stateMapping
              && Run(t, stateMapping[q], w).value == stateMapping[Run(v.table, q, w).value]
    decreases |w|
  {
    QuotientAgrees(v, p, stateMapping, states, t, q, if w == [] then 'a' else w[0]);
    if w != [] && (q, w[0]) in v.table {
      RunQuotient(v, p, stateMapping, states, t, v.table[(q, w[0])], w[1..]);
    }
  }

  /** The minimised DFA accepts a word from the block of `q` exactly when
      the original accepts it from `q`. */
  lemma AcceptsQuotient(v: View, p: seq<set<int>>, stateMapping: map<int, int>, states: set<int>,
                        t: DfaTable, accept: set<int>, q: int, w: string)
    requires Closed(v, states) && IsPartition(p, states) && Stable(v, p)
    requires Numbering(p, stateMapping) && QuotientTable(v, p, stateMapping, t)
    requires forall i | 0 <= i < |p| :: (i in accept <==> Least(p[i]) in v.accept)
    requires q in states
    ensures q in stateMapping
    ensures Accepts(v.table, v.accept, q, w) <==> Accepts(t, accept, stateMapping[q], w)
  {
    RunQuotient(v, p, stateMapping, states, t, q, w);
    if Run(v.table, q, w).Some? {
      var r := Run(v.table, q, w).value;
      BlockOf(p, stateMapping, states, r);
      assert Equivalent(v, p, r, Least(p[stateMapping[r]]));
    }
  }

  /** The language is kept: from its start state the minimised DFA accepts
      exactly the words the original accepts from its start state. */
  lemma MinimizedLanguage(originalDfa: DFA, minimizedDfa: DFA, partition: seq<set<int>>,
                          stateMapping: map<int, int>, w: string)
    requires originalDfa.Valid() && originalDfa.startState in originalDfa.states
    requires IsPartition(partition, originalDfa.states) && Stable(ViewOf(originalDfa), partition)
    requires Numbering(partition, stateMapping)
    requires forall i | 0 <= i < |partition| ::
               (i in minimizedDfa.acceptStates <==> Least(partition[i]) in originalDfa.acceptStates)
    requires StartBlock(partition, originalDfa.startState, minimizedDfa.startState)
    requires QuotientTable(ViewOf(originalDfa), partition, stateMapping, minimizedDfa.transitionTable)
    ensures Accepts(originalDfa.transitionTable, originalDfa.acceptStates, originalDfa.startState, w) <==>
            Accepts(minimizedDfa.transitionTable, minimizedDfa.acceptStates, minimizedDfa.startState, w)
  {
    var v := ViewOf(originalDfa);
    BlockOf(partition, stateMapping, originalDfa.states, originalDfa.startState);
    AcceptsQuotient(v, partition, stateMapping, originalDfa.states, minimizedDfa.transitionTable,
                    minimizedDfa.acceptStates, originalDfa.startState, w);
  }

  /** One accepting state looping on '0' and '1' minimises to one accepting
      state 0 with the same two loops. */
  lemma SingleStateMinimizes(partition: seq<set<int>>, stateMapping: map<int, int>,
                             states: set<int>, accept: set<int>, start: int, t: DfaTable)
    requires IsPartition(partition, {0}) && Numbering(partition, stateMapping)
    requires states == Ids(|partition|) && accept <= states
    requires forall i | 0 <= i < |partition| :: (i in accept <==> Least(partition[i]) in {0})
    requires StartBlock(partition, 0, start)
    requires QuotientTable(View(map[(0, '0') := 0, (0, '1') := 0], {0}, {'0', '1'}), partition, stateMapping, t)
    ensures states == {0} && accept == {0} && start == 0
    ensures t == map[(0, '0') := 0, (0, '1') := 0]
  {
    PartitionSize(partition, {0});
    MembersIndex(partition, 0);
    assert partition[0] <= Members(partition) by {
      forall x | x in partition[0] {
        MembersIndex(partition, x);
      }
    }
    assert partition == [{0}];
    assert states == {0};
    assert Least(partition[0]) == 0;
    assert (0, '0') in t && (0, '1') in t;
  }

  /** The five-state table of the basic minimisation test: 1 and 2 move
      alike, as do the accepting 3 and 4, which have no moves. */
  function FiveStateTable(): DfaTable
  {
    map[(0, '0') := 1, (0, '1') := 2, (1, '0') := 3, (1, '1') := 4, (2, '0') := 3, (2, '1') := 4]
  }

  /** The initial blocks of the five-state test automaton. */
  lemma FiveStateInitial()
    ensures InitialBlocks({0, 1, 2, 3, 4}, {3, 4}) == [{3, 4}, {0, 1, 2}]
  {
    assert {0, 1, 2, 3, 4} * {3, 4} == {3, 4} && {0, 1, 2, 3, 4} - {3, 4} == {0, 1, 2};
  }

  /** When the block of 3 holds only accepting states, 0 and 1 are not
      equivalent: on '0' they move to 1 and to 3, which lie in different
      blocks. */
  lemma FiveStateZeroOne(p: seq<set<int>>, c: int)
    requires 0 <= c < |p| && 3 in p[c] && p[c] <= {3, 4}
    ensures !Equivalent(View(FiveStateTable(), {3, 4}, {'0', '1'}), p, 0, 1)
  {
    assert !SameBlocks(p, 1, 3);
    assert !AgreeOn(FiveStateTable(), p, 0, 1, '0');
  }

  /** In a stable partition of the five-state test automaton inside its
      initial blocks, 0, 1 and 3 lie in three different blocks, and the
      block of 3 holds only accepting states. */
  lemma FiveStateSeparated(p: seq<set<int>>)
    requires IsPartition(p, {0, 1, 2, 3, 4})
    requires Stable(View(FiveStateTable(), {3, 4}, {'0', '1'}), p)
    requires Refines(p, [{3, 4}, {0, 1, 2}])
    ensures |p| >= 3
    ensures exists c :: 0 <= c < |p| && p[c] <= {3, 4}
  {
    MembersIndex(p, 0);
    MembersIndex(p, 1);
    MembersIndex(p, 3);
    var a :| 0 <= a < |p| && 0 in p[a];
    var b :| 0 <= b < |p| && 1 in p[b];
    var c :| 0 <= c < |p| && 3 in p[c];
    assert Inside(p, c, [{3, 4}, {0, 1, 2}]);
    assert p[c] <= {3, 4};
    FiveStateZeroOne(p, c);
    assert a != b && a != c && b != c;
  }

  /** The partition {3, 4}, {0}, {1, 2} of the five-state test automaton. */
  function FiveStateClasses(): seq<set<int>>
  {
    [{3, 4}, {0}, {1, 2}]
  }

  /** That partition is stable and lies inside the initial blocks. */
  lemma FiveStateClassesStable()
    ensures IsPartition(FiveStateClasses(), {0, 1, 2, 3, 4})
    ensures Stable(View(FiveStateTable(), {3, 4}, {'0', '1'}), FiveStateClasses())
    ensures Refines(FiveStateClasses(), [{3, 4}, {0, 1, 2}])
  {
    var r, t := FiveStateClasses(), FiveStateTable();
    var v := View(t, {3, 4}, {'0', '1'});
    assert r[..2] == [{3, 4}, {0}] && r[..2][..1] == [{3, 4}] && r[..2][..1][..0] == [];
    assert Members(r[..2][..1]) == {3, 4};
    assert Members(r[..2]) == {3, 4, 0};
    forall k, x, y | 0 <= k < |r| && x in r[k] && y in r[k]
      ensures Equivalent(v, r, x, y)
    {
      if k == 2 {
        assert t[(x, '0')] == 3 && t[(y, '0')] == 3 && t[(x, '1')] == 4 && t[(y, '1')] == 4;
      }
    }
    var init: seq<set<int>> := [{3, 4}, {0, 1, 2}];
    assert r[0] <= init[0] && r[1] <= init[1] && r[2] <= init[1];
    assert Inside(r, 0, init) && Inside(r, 1, init) && Inside(r, 2, init);
  }

  /** The coarsest stable partition of the five-state test automaton has
      three blocks, one of them holding only accepting states. */
  lemma FiveStateBlocks(p: seq<set<int>>)
    requires IsPartition(p, {0, 1, 2, 3, 4})
    requires Stable(View(FiveStateTable(), {3, 4}, {'0', '1'}), p)
    requires Refines(p, InitialBlocks({0, 1, 2, 3, 4}, {3, 4}))
    requires Coarsest(View(FiveStateTable(), {3, 4}, {'0', '1'}), {0, 1, 2, 3, 4}, InitialBlocks({0, 1, 2, 3, 4}, {3, 4}), p)
    ensures |p| == 3
    ensures exists c :: 0 <= c < |p| && p[c] <= {3, 4}
  {
    FiveStateInitial();
    FiveStateSeparated(p);
    FiveStateClassesStable();
    FewestBlocks(FiveStateClasses(), p, {0, 1, 2, 3, 4});
  }

  /** The states and symbols of the basic minimisation test. */
  method RegisterFiveState() returns (dfa: DFA)
    ensures fresh(dfa) && dfa.Valid()
    ensures dfa.states == {0, 1, 2, 3, 4} && dfa.acceptStates == {3, 4} && dfa.alphabet == {'0', '1'}
    ensures dfa.startState == 0 && dfa.transitionTable == map[]
  {
    dfa := new DFA();
    dfa.SetStartState(0);
    dfa.AddState(0);
    dfa.AddState(1);
    dfa.AddState(2);
    dfa.AddState(3, true);
    dfa.AddState(4, true);
    dfa.AddSymbol('0');
    dfa.AddSymbol('1');
  }

  /** Three transitions among registered states on registered symbols. */
  method AddThree(dfa: DFA, from: int, to0: int, to1: int, from': int, to0': int)
    requires dfa.Valid() && {from, to0, to1, from', to0'} <= dfa.states && {'0', '1'} <= dfa.alphabet
    modifies dfa
    ensures dfa.Valid()
    ensures dfa.states == old(dfa.states) && dfa.alphabet == old(dfa.alphabet)
    ensures dfa.acceptStates == old(dfa.acceptStates) && dfa.startState == old(dfa.startState)
    ensures dfa.transitionTable == old(dfa.transitionTable)[(from, '0') := to0][(from, '1') := to1][(from', '0') := to0']
  {
    dfa.AddTransition(from, '0', to0);
    dfa.AddTransition(from, '1', to1);
    dfa.AddTransition(from', '0', to0');
  }

  /** The automaton of the basic minimisation test, registered state by
      state, symbol by symbol and transition by transition. */
  method BuildFiveState() returns (dfa: DFA)
    ensures fresh(dfa) && dfa.Valid()
    ensures dfa.states == {0, 1, 2, 3, 4} && dfa.acceptStates == {3, 4} && dfa.alphabet == {'0', '1'}
    ensures dfa.startState == 0 && dfa.transitionTable == FiveStateTable()
  {
    dfa := RegisterFiveState();
    AddThree(dfa, 0, 1, 2, 1, 3);
    AddThree(dfa, 1, 3, 4, 2, 3);
    dfa.AddTransition(2, '1', 4);
    assert dfa.states == {0, 1, 2, 3, 4} && dfa.alphabet == {'0', '1'};
  }

  /** The basic minimisation test: the five-state automaton minimises to
      three states, one of them accepting. */
  method FiveStateMinimizes() returns (minimizedDfa: DFA)
    ensures |minimizedDfa.states| == 3 && minimizedDfa.acceptStates != {}
  {
    var dfa := BuildFiveState();
    assert ViewOf(dfa) == View(FiveStateTable(), {3, 4}, {'0', '1'});
    ghost var partition, stateMapping;
    minimizedDfa, partition, stateMapping := MinimizeDfa(dfa);
    FiveStateBlocks(partition);
    IdsSize(|partition|);
    ghost var c :| 0 <= c < |partition| && partition[c] <= {3, 4};
    assert c in minimizedDfa.acceptStates;
  }
}
