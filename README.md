# Syphon lexer automata in Dafny

This project models the finite-automaton pipeline of the Syphon lexer and proves properties of it. The pipeline has three stages:

1. **Automata** (`automata.dfy`, module `Automata`) models `lexer/automata.h`.
   - A deterministic automaton with a partial table `(state, symbol) -> state`.
   - A nondeterministic automaton with a table `(state, symbol) -> set of states`.
   - Both keep their state set, alphabet, start state and accept set in fields that the registration methods update in place.
   - The NFA's epsilon closure is a queue-driven worklist. It is proved equal to a reference definition: the states reachable by EPSILON moves.
   - `Run`/`Accepts` give the DFA's run semantics.
2. **Regex builder** (`regex.dfy`, module `RegexToNFA`) models `lexer/regexToNFA.h`.
   - A shunting-yard translation to postfix, followed by Thompson construction over a stack of fragments with a shared id counter.
   - Each loop is a method proved equal to a reference function (`Scan`, `RunBuild`).
   - The builder's invariants are proved about those functions:
     - one accept state, which no edge leaves;
     - ids in disjoint ranges below the counter;
     - merges that drop no entry;
     - each exit (too few operands, malformed result, unmatched `)`).
3. **Transformations** (`subset.dfy`, module `SubsetConstruction`, and `minimize.dfy`, module `Minimization`) model `lexer/automataTransformations.h`.
   - The subset construction `nfa_to_dfa` is proved to number distinct epsilon-closed NFA-state sets 0, 1, 2, …, starting from the closure of the NFA start. Every other set is the successor of a set numbered before it. The DFA has an edge exactly where a numbered set has a non-empty successor, and the edge leads to that successor's id.
   - The partition-refinement minimiser `minimize_dfa` is proved to:
     - end with the coarsest stable partition of the states inside the accepting/non-accepting split, so equivalent states are merged;
     - build one state per block, never more states than the input;
     - accept the same language as the input from its start state.

`ordered.dfy` (module `Ordered`) holds the helpers that pick the least element of a set. `std::set` iterates in ascending order, and the model follows that order wherever the result depends on it.

Some behaviour of the code is easy to misread:

- The code writes `.` straight to the output right after the left operand (`lexer/regexToNFA.h:40-42`, `51-53`). It never goes through the operator stack.
  - So `"ab"` becomes `"a.b"`, and the build then fails for lack of operands (`RegexToNFA.PostfixJuxtaposed`, `RegexToNFA.CompileJuxtaposed`).
  - No `.` follows a `*`, so `"a*b"` becomes `"ab*"` (`RegexToNFA.PostfixStar`).
- Only ASCII letters are literals (`lexer/regexToNFA.h:20-22`). Digits are not (`RegexToNFA.LiteralsAreLetters`).
- An NFA without states converts to a default-constructed DFA, whose start state is 0 (`lexer/automataTransformations.h:20-22`, `SubsetConstruction.NfaToDfa`).

## Model

| member | source | states |
|---|---|---|
| Automata.DFA.constructor | lexer/automata.h:38 | A new automaton has no states, symbols, accept states or transitions, and start state 0 |
| Automata.DFA.AddState | lexer/automata.h:42-47 | The state joins the states, and joins the accept set exactly when flagged; an existing accept flag is never removed; nothing else changes |
| Automata.DFA.AddSymbol | lexer/automata.h:50-52 | The symbol joins the alphabet; nothing else changes |
| Automata.DFA.SetStartState | lexer/automata.h:55-60 | The state becomes a member of the states and the start; alphabet, accept set and table are unchanged |
| Automata.DFA.AddTransition | lexer/automata.h:89-94 | Both endpoints join the states and the symbol joins the alphabet; the entry for (from, symbol) is overwritten (last write wins); every other entry is kept |
| Automata.NFA.constructor | lexer/automata.h:135-138 | A new NFA has no states or transitions, start 0, and EPSILON as its only symbol |
| Automata.NFA.FromFragment | lexer/automata.h:140-155 | The table is the fragment's entries that have destinations; the states are exactly the endpoints of those entries; the alphabet is EPSILON plus their symbols; start and accept set are the fragment's |
| Automata.NFA.AddTransitions | lexer/automata.h:147-149 | Adding every destination of one fragment entry records the entry with exactly those destinations and registers its endpoints and symbol |
| Automata.NFA.AddState | lexer/automata.h:42-47 | As for the DFA: adds the state, and adds it to the accept set only when flagged |
| Automata.NFA.AddSymbol | lexer/automata.h:50-52 | Adds the symbol to the alphabet; nothing else changes |
| Automata.NFA.SetStartState | lexer/automata.h:55-60 | Registers the state and makes it the start; nothing else changes |
| Automata.NFA.AddTransition | lexer/automata.h:160-167 | Adds `to` to the destinations of (from, symbol) and keeps the earlier ones; registers both endpoints; adds the symbol to the alphabet only when it is not EPSILON |
| Automata.NFA.EpsilonClosure | lexer/automata.h:169-190 | The worklist returns exactly the states EPSILON-reachable from the given state |
| Automata.NFA.Explore | lexer/automata.h:170-187 | The worklist's result holds the start state, is closed under EPSILON edges, and stays inside any closed set that holds the start |
| Automata.NFA.EpsilonClosureOfSet | lexer/automata.h:192-199 | The union of the single-state closures is the closure of the whole set |
| Automata.ClosureContains | lexer/automata.h:170 | A closure contains the states it starts from |
| Automata.ClosureIsClosed | lexer/automata.h:178-185 | A closure is closed under EPSILON edges |
| Automata.ClosureIsLeast | lexer/automata.h:169-190 | A closure lies inside every EPSILON-closed superset of its seed, so it holds only EPSILON-reachable states |
| Automata.ClosureIdempotent | lexer/automata.h:192-199 | Closing a closure changes nothing |
| Automata.ClosureUnion | lexer/automata.h:192-199 | The closure of a union is the union of the closures |
| Automata.ChainClosure | tests/test_automata.cpp:26-37 | The chain 0 -ε-> 1 -ε-> 2 closes to {0, 1, 2} |
| Automata.EpsilonClosureChainExample | tests/test_automata.cpp:26-37 | Registering the chain through the NFA methods and closing state 0 gives {0, 1, 2} |
| RegexToNFA.LiteralsAreLetters | lexer/regexToNFA.h:20-22 | A character is a literal exactly when it is one of the 52 ASCII letters; digits and `_` are not literals |
| RegexToNFA.Precedence | lexer/regexToNFA.h:24-29 | Ranges over 0..3 and is 0 exactly for characters other than `*`, `.`, `\|` |
| RegexToNFA.PrecedenceOrder | lexer/regexToNFA.h:24-29 | `(` ranks below `\|`, which ranks below `.`, which ranks below `*` |
| RegexToNFA.PopToOpen | lexer/regexToNFA.h:46-49 | Pops a suffix of the operator stack: what remains is a prefix of the stack that is empty or has `(` on top, and no `(` was popped |
| RegexToNFA.PopToOpenOutput | lexer/regexToNFA.h:46-49 | The popped operators are appended to the output top first, so the output becomes the old output plus the popped suffix reversed |
| RegexToNFA.PopForOperator | lexer/regexToNFA.h:55-58 | Pops exactly the top operators of greater or equal precedence; what remains is a prefix of the stack that is empty or has a weaker operator on top |
| RegexToNFA.PopForOperatorOutput | lexer/regexToNFA.h:55-58 | The popped operators are appended to the output top first, so the output becomes the old output plus the popped suffix reversed |
| RegexToNFA.InfixToPostfix | lexer/regexToNFA.h:31-69 | The scanning loop computes the reference translation, including the unmatched-`)` exit |
| RegexToNFA.PostfixKeepsLetters | lexer/regexToNFA.h:38-66 | The output holds exactly the input's letters, in order, and never a `)` |
| RegexToNFA.PostfixJuxtaposed | lexer/regexToNFA.h:40-42 | `"ab"` translates to `"a.b"` |
| RegexToNFA.PostfixStar | lexer/regexToNFA.h:54-60 | `"a*b"` translates to `"ab*"`: no `.` is written after a star |
| RegexToNFA.PostfixUnion | lexer/regexToNFA.h:54-66 | `"a\|b"` translates to `"ab\|"` |
| RegexToNFA.PostfixGroupThenLetter | lexer/regexToNFA.h:45-53 | `"(a\|b)c"` translates to `"ab\|.c"`: the `.` after `)` precedes its right operand |
| RegexToNFA.PostfixUnmatchedClose | lexer/regexToNFA.h:45-50 | An unmatched `)` is reported as an error |
| RegexToNFA.AddEpsilonEdgesTwice | lexer/regexToNFA.h:94-99 | Linking the left and then the right accept states to the new end is the same as linking their union |
| RegexToNFA.LinkAccepts | lexer/regexToNFA.h:94-99 | The loop gives every source an EPSILON edge to every target and keeps the earlier destinations |
| RegexToNFA.BuildUnion | lexer/regexToNFA.h:85-104 | The `\|` case builds the alternation fragment: new start, new end, linking edges, then both operands merged in |
| RegexToNFA.BuildConcat | lexer/regexToNFA.h:107-116 | The `.` case links the left accept states to the right start, takes the right accept set and merges the right table |
| RegexToNFA.BuildStar | lexer/regexToNFA.h:119-133 | The `*` case adds the new start's and old accept states' EPSILON edges, and makes the new start and end the fragment's |
| RegexToNFA.BuildFragmentFromPostfix | lexer/regexToNFA.h:71-138 | The stack loop computes the reference build, including each error exit |
| RegexToNFA.BuildNFAFromPostfix | lexer/regexToNFA.h:71-138 | Fails exactly when the build fails, with the same error; otherwise returns a fresh NFA built from the final fragment |
| RegexToNFA.FromRegex | lexer/regexToNFA.h:14-17 | Translation then build: fails exactly when either stage fails, otherwise returns the NFA of the compiled fragment |
| RegexToNFA.RunBuildHeight | lexer/regexToNFA.h:75-135 | The builder fails exactly when operand counting does, with the same error, and otherwise ends at the counted stack height |
| RegexToNFA.BuildFragmentFails | lexer/regexToNFA.h:84-137 | An operator short of operands reports itself; a final height other than one (empty input included) is a malformed expression; height one always builds |
| RegexToNFA.UnionWithin | lexer/regexToNFA.h:87-103 | Alternation's ids lie in the operands' ranges plus the two fresh ids |
| RegexToNFA.UnionWellFormed | lexer/regexToNFA.h:87-104 | Alternation has the single accept state `end`, and no edge leaves it |
| RegexToNFA.UnionKeeps | lexer/regexToNFA.h:102-103 | Alternation's merges keep every entry of both operands unchanged |
| RegexToNFA.ConcatFacts | lexer/regexToNFA.h:110-116 | Concatenation of well-formed fragments is well formed and stays in the operands' ranges |
| RegexToNFA.ConcatKeeps | lexer/regexToNFA.h:110-115 | Concatenation keeps every entry of both operands unchanged |
| RegexToNFA.StarFacts | lexer/regexToNFA.h:120-133 | The star is well formed and uses the operand's range plus the two fresh ids |
| RegexToNFA.StarKeeps | lexer/regexToNFA.h:123-129 | The star keeps every entry of the operand unchanged |
| RegexToNFA.BuildStepLayout | lexer/regexToNFA.h:75-134 | Each step keeps every stacked fragment well formed, with ids in consecutive disjoint ranges below the counter |
| RegexToNFA.RunBuildLayout | lexer/regexToNFA.h:75-135 | The whole build keeps the layout, and the counter grows by two per letter, `\|` and `*` and by nothing per `.` |
| RegexToNFA.BuildFragmentWellFormed | lexer/regexToNFA.h:71-138 | A built fragment has one accept state that no edge leaves, and all its ids lie below the ids taken |
| RegexToNFA.CompileUnion | lexer/regexToNFA.h:83-104 | `"a\|b"` builds start 4, accept {5}, and edges 0-a->1, 2-b->3, 4-ε->{0,2}, 1-ε->5 and 3-ε->5 |
| RegexToNFA.CompileJuxtaposed | lexer/regexToNFA.h:105-106 | `"ab"` is rejected: the `.` finds only one operand |
| SubsetConstruction.NextStateSet | lexer/automataTransformations.h:51-61 | The loop computes the union of the closures of the symbol's targets from the current set |
| SubsetConstruction.DiscoverSet | lexer/automataTransformations.h:69-82 | A new set gets the next id and is enqueued; the id is accepting exactly when the set holds an NFA accept state; the numbering stays a bijection |
| SubsetConstruction.RecordEdge | lexer/automataTransformations.h:88-89 | Records the edge from the current id to the id of the successor set |
| SubsetConstruction.ExpandState | lexer/automataTransformations.h:46-91 | One pass over the alphabet records exactly the current id's edges and discovers any new successor sets |
| SubsetConstruction.ProcessFront | lexer/automataTransformations.h:41-91 | One worklist pass keeps the invariant, and it either numbers new sets (finitely many exist) or shortens the queue |
| SubsetConstruction.StartWorklist | lexer/automataTransformations.h:24-39 | The closure of the NFA start becomes id 0, the start, accepting exactly when it holds an NFA accept state |
| SubsetConstruction.NfaToDfa | lexer/automataTransformations.h:15-95 | No NFA states gives the default DFA; otherwise the ids are 0..k-1 for distinct non-empty ε-closed sets, 0 stands for the start's closure, every other set is the successor of a set numbered before it, the accept ids are the sets holding an accept state, and there is an edge exactly where the successor set is non-empty, leading to that set's id |
| SubsetConstruction.NumberedAppend | lexer/automataTransformations.h:69-72 | Numbering a new set with the next id keeps the numbering a bijection |
| SubsetConstruction.SuccessorWithin | lexer/automataTransformations.h:51-61 | Every successor set lies among the NFA's transition targets, so only finitely many sets can be discovered |
| SubsetConstruction.WorklistStep | lexer/automataTransformations.h:41-92 | A pass keeps the discovered sets numbered, closed and bounded, and makes progress towards termination |
| SubsetConstruction.SubsetDone | lexer/automataTransformations.h:41-94 | Once every discovered set is expanded, and each set after the first was found as the successor of an earlier set, the DFA meets the whole subset-automaton description stated for NfaToDfa |
| SubsetConstruction.SubsetStateEntered | lexer/automataTransformations.h:66-89 | In that DFA every state but the start is entered by an edge from a state numbered before it, so every state is reachable from the start |
| Minimization.AreStatesEquivalent | lexer/automataTransformations.h:218-264 | True exactly when the accept statuses agree and, for every symbol, both states lack a move or both move into the same blocks |
| Minimization.EquivalenceRelation | lexer/automataTransformations.h:218-264 | The equivalence test is reflexive, symmetric and transitive for any partition |
| Minimization.InitialPartition | lexer/automataTransformations.h:101-116 | The accept block, then the non-accept block, each only when non-empty |
| Minimization.InitialBlocksPartition | lexer/automataTransformations.h:114-116 | The initial blocks partition the states, and each block is accept-homogeneous |
| Minimization.PartitionSize | lexer/automataTransformations.h:119-163 | A partition has no more blocks than there are states |
| Minimization.SplitGroup | lexer/automataTransformations.h:131-151 | Splitting a block yields a partition of it into classes of mutually equivalent states, with inequivalent states in different classes; it reports a change exactly when it made more than one class |
| Minimization.RefineGroup | lexer/automataTransformations.h:124-158 | After block `i`, the new blocks partition the first `i + 1` old blocks; each lies inside an old block and holds only mutually equivalent states; two equivalent states of one old block are in the same new block; the pass is marked changed exactly when there are more new blocks than old ones |
| Minimization.AppendTogether | lexer/automataTransformations.h:131-158 | Appending one block's classes keeps equivalent states of the blocks seen so far together |
| Minimization.RefinePass | lexer/automataTransformations.h:120-162 | A pass keeps a partition of the states whose blocks lie inside old blocks and are uniform; two equivalent states of one old block stay in one new block; it changes exactly when it adds blocks, and otherwise returns the old partition |
| Minimization.EquivalentCoarser | lexer/automataTransformations.h:218-264 | States equivalent under a finer partition are equivalent under a coarser one |
| Minimization.CoarsestStep | lexer/automataTransformations.h:120-162 | A pass never separates two states that a stable partition inside the old partition keeps together |
| Minimization.RefinePartition | lexer/automataTransformations.h:101-163 | Refinement terminates with a stable partition of the states inside the initial blocks, and every stable partition inside the initial blocks lies inside it: it is the coarsest one |
| Minimization.FewestBlocks | lexer/automataTransformations.h:119-163 | A partition that lies inside another partition of the same states has at least as many blocks |
| Minimization.MapGroup | lexer/automataTransformations.h:175-177 | Every state of the block is mapped to the block's index; earlier mappings of other states are kept |
| Minimization.NumberBlock | lexer/automataTransformations.h:171-190 | Adds state `n`, accepting when the block's least state accepts, and makes it the start when the block holds the old start |
| Minimization.NumberBlocks | lexer/automataTransformations.h:165-191 | States are 0..k-1, one per block; each accepts exactly when its block's least state does; the start is the block of the old start (0 if none); the mapping sends every state to its block |
| Minimization.LinkBlock | lexer/automataTransformations.h:195-212 | Adds the block's moves, read off its least state with destinations remapped by block; states, start and accept set are unchanged |
| Minimization.LinkBlocks | lexer/automataTransformations.h:194-213 | The table is exactly the quotient table, and the alphabet is exactly its symbols |
| Minimization.MinimizeDfa | lexer/automataTransformations.h:98-216 | Returns a valid DFA with one state per block of the coarsest stable partition inside the accepting/non-accepting split, so no stable partition inside that split has fewer blocks and there are no more states than the input, with per-block accept flags, the start block and the quotient table; from its start it accepts exactly the words the input accepts |
| Minimization.QuotientAgrees | lexer/automataTransformations.h:194-213 | A state moves on a symbol exactly when its block does, and the block moves to the block of the state's destination |
| Minimization.RunQuotient | lexer/automataTransformations.h:194-213 | Runs of the minimised DFA follow the original runs block by block |
| Minimization.AcceptsQuotient | lexer/automataTransformations.h:180-213 | The minimised DFA accepts a word from a state's block exactly when the original accepts it from that state |
| Minimization.MinimizedLanguage | lexer/automataTransformations.h:98-216 | The minimised DFA accepts exactly the input's language from the start |
| Minimization.BuildFiveState | tests/test_automata.cpp:61-85 | Registering the basic minimisation test's automaton yields five states, accept states {3, 4}, alphabet {'0', '1'}, start 0 and the six listed transitions |
| Minimization.FiveStateBlocks | tests/test_automata.cpp:61-85 | The coarsest stable partition of that automaton inside its initial blocks has exactly three blocks, one of them holding only accepting states |
| Minimization.FiveStateMinimizes | tests/test_automata.cpp:125-134 | That automaton minimises to exactly three states, at least one accepting |
| Minimization.SingleStateMinimizes | tests/test_automata.cpp:174-189 | One accepting state looping on '0' and '1' minimises to one accepting start state 0 with the same loops |

## Left out

- `displayTransitionTable` in both automata. It only prints to the console.
- The accessors (`getStates`, `getTransitionTable`, …). The model reads the fields directly.
- The `FiniteAutomaton` base class and its virtual dispatch. The DFA and NFA classes repeat its fields and registration methods.
- `std::runtime_error`. Each throw is an `Err` result.
- The pop of an empty operator stack on an unmatched `)` (`lexer/regexToNFA.h:50`). The source leaves it undefined; the model reports it as the error `UnmatchedCloseParen`.
- C++ `char` is 8 bits wide and `int` wraps. Dafny `char` and `int` are used, and id-counter overflow is not modelled.
- Ordering of symbols in the model is Dafny's character order. A signed `char` orders non-ASCII symbols differently in `std::set`.
- The comparison at `lexer/automataTransformations.h:203-204` is undefined behaviour: it compares an iterator into one copy of the table with `end()` of a fresh copy, because `getTransitionTable` returns by value. The model does what is evidently intended: add a transition only when the representative has one.
- `std::map::operator[]` inserts a default entry on a missing key (`lexer/automataTransformations.h:44`, `195`, `207`). For a valid DFA the key is always present, so that path is not modelled.
- Language correctness of the regex builder. It does not hold for this code's implicit concatenation.
- Minimality over all DFAs of the same language. Equivalent states are merged (the partition is the coarsest stable one), but unreachable states are never pruned and the table is partial, so a smaller DFA for the language can exist.
- Minimization.RefineGroup: states the pass invariant after block `i`, not which classes block `i` yields; SplitGroup states those classes.
- Language equivalence of the subset construction.
- SubsetConstruction.NfaToDfa: does not pin which id each non-start set receives. Only that the ids number distinct sets is stated, because the discovery order depends on how symbols and `std::set` elements are iterated. The `sets` it returns is a ghost record of what each id stands for.
- Minimization.MinimizeDfa: does not pin the order of the blocks in the final partition. It states that the partition is the coarsest stable one inside the initial blocks and that each block keeps its index in the new DFA. It also requires the input to satisfy the class invariant `Valid()`, which every registration method keeps. Its `partition` and `stateMapping` outputs are ghost records of the source's local variables.
- Minimization.MinimizedLanguage: stated only when the start state is a registered state. A DFA whose start was never registered starts from 0, which may be a state of the minimised DFA.
- Minimization.SplitGroup and Minimization.RefinePass: iterate each block in ascending order, as `std::set` does. The contracts describe the resulting classes, not their order.
