# Finite automata: construction, reduction and equivalence

This project models a small finite-automaton library, `python/automate.py`. The library works over the alphabet `abc`. It builds automata for regular expressions from elementary automata:
- `automate("O")` accepts no word;
- `automate("E")` accepts the empty word;
- `automate(x)` accepts the single letter `x`.

Three Thompson-style combinators build larger automata: concatenation, union and Kleene star. Each one shifts state numbers and joins the parts with epsilon moves.

A fixed pipeline, `tout_faire`, reduces any automaton to a minimal complete DFA in four steps:
1. eliminate epsilon moves through epsilon closures;
2. determinise by subset construction, breadth first from `{0}`;
3. complete by adding a sink state;
4. minimise by Moore partition refinement.

The equivalence test, `egal`, reduces both automata, rejects them when their alphabets or sizes differ, then walks both breadth first from `(0, 0)`. The walk builds a state mapping and fails on the first disagreement.

The main results are about languages. Each elementary automaton and each combinator accepts the language of its regular-expression operator. Each step of `tout_faire` keeps the language of its input. When `egal` answers true, the two automata accept the same words. Minimisation as written breaks the last two claims; see "Findings".

The Dafny modules follow automate.py's structure:

| module | file | models |
|---|---|---|
| `Automata` | automaton.dfy | the automaton value, its constructor, `ajoute_transition` |
| `Language` | language.dfy | runs, words, NFA acceptance, the deterministic `Run` |
| `Combinators` | combinators.dfy | `decaler_automate`, `concatenation`, `union`, `etoile` |
| `Closure` | closure.dfy | `acces_epsilon` |
| `Elimination` | elimination.dfy | `supression_epsilon_transitions` |
| `Determinisation` | determinisation.dfy | `determinisation` |
| `Completion` | completion.dfy | `completion` |
| `Partitions`, `Minimisation` | partition.dfy, minimisation.dfy | the refinement loop of `minimisation` |
| `Quotients` | quotient.dfy | the mapping and the quotient automaton of `minimisation` |
| `Equivalence` | equivalence.dfy | `tout_faire`, `egal` |
| `Regular` | regular.dfy | the languages of the elementary automata and of the three combinators |
| `Examples` | examples.dfy | automate.py's own scenarios on the elementary automata |
| `Seqs`, `Wrappers` | seqs.dfy, wrappers.dfy | list and option helpers |

Representation choices:
- The transition dictionary is its write history: a sequence of `Entry(source, symbol, dests)` in the order the stores happened. `Lookup` returns the last entry for a key. So `d[k] = v` appends one entry and `d.update(e)` appends all of `e`'s entries, exactly as Python's dict overwrites.
- Every operation is a pure function. automate.py's `deepcopy` calls only protect the caller's automaton, so they have no counterpart.
- automate.py iterates Python sets in several places: the members of a closure, of a subset or of a block, and `next(iter(bloc))`. The model iterates them in ascending order.
- Worklist loops (closure, subset construction, refinement, the `egal` walk) are recursive functions. Each one has an explicit termination measure.

## Model

| member | source | states |
|---|---|---|
| Automata.Elementary | python/automate.py:11-43 | Construction succeeds exactly on "O", "E" or one letter of `abc`, and fails with `InvalidSymbol` otherwise. "O" gives one state, no finals and no transitions. "E" gives one final initial state. A letter gives two states, final state 1 and the single transition (0, letter) to [1]. The result is well formed over `abc`. |
| Automata.AddTransition | python/automate.py:59-71 | After adding, (q, c) is present and holds its old destinations followed by the new ones, or only the new ones if it was absent. Every other key and the size, finals and alphabet are unchanged. |
| Automata.AddTransitionDest | python/automate.py:66-71 | The key set grows by exactly (q, c). The destinations of (q, c) are the old ones plus the added list. All other keys are untouched. |
| Automata.AddEachDest | python/automate.py:124-125 | Adding the same list from each state of a list appends, under every key (p, c), one copy of the list for each occurrence of p. No other symbol's destinations change. |
| Automata.AddEachKeys | python/automate.py:124-125 | After the loop, (p, x) is a key exactly when it was a key before or x is the added symbol and p is in the list. |
| Automata.AddEach | python/automate.py:124-125 | The loops that call `ajoute_transition` once per final state (also lines 204-205). Its own contract keeps the alphabet, size, finals and name. What the loop stores is stated by `Automata.AddEachDest` and `Automata.AddEachKeys`. |
| Automata.LettersMembers | python/automate.py:22 | The accepted single-character expressions are exactly the one-letter strings over the alphabet. |
| Combinators.ShiftDest | python/automate.py:74-94 | In the shifted automaton, (q+k, c) is a key exactly when (q, c) was, and its destinations are the old ones each shifted by k. |
| Combinators.ShiftInverse | python/automate.py:74-94 | Shifting by k and then by -k gives back the original automaton. |
| Combinators.ShiftIdsWithin | python/automate.py:74-94 | Shifting keeps every state number inside the range moved by k. |
| Combinators.Shift | python/automate.py:80 | Each final state moves by k, in order. The size, alphabet and name are kept. |
| Combinators.Concat | python/automate.py:99-133 | The concatenation has n1 + n2 states, the alphabet of the first operand, and as finals the second operand's finals shifted by n1. |
| Combinators.ConcatDest | python/automate.py:115-125 | A state of the first part keeps its moves and gains one epsilon move to n1 for each time it is listed as final. A state of the second part has the second operand's moves shifted by n1. |
| Combinators.ConcatKeys | python/automate.py:115-125 | (q, c) is a key exactly when it is a key of the first operand, a shifted key of the second, or an epsilon key at a final state of the first. |
| Combinators.ConcatIdsWithin | python/automate.py:99-133 | All states of the concatenation lie in 0 .. n1+n2-1. |
| Combinators.ConcatWellFormed | python/automate.py:99-133 | Concatenating two well-formed automata over the same alphabet gives a well-formed automaton. |
| Combinators.Union | python/automate.py:137-171 | The union has 1 + n1 + n2 states and the first operand's alphabet. Its finals are the first operand's finals shifted by 1 followed by the second's shifted by 1 + n1. |
| Combinators.UnionDest | python/automate.py:155-163 | State 0 has exactly one move: epsilon to [1, 1 + n1]. The states of each operand keep their moves, shifted by 1 and by 1 + n1. |
| Combinators.UnionStart | python/automate.py:163 | The new initial state's epsilon entry is [1, 1 + n1]. |
| Combinators.UnionIdsWithin | python/automate.py:137-171 | All states of the union lie in 0 .. n1+n2. |
| Combinators.UnionWellFormed | python/automate.py:137-171 | The union of two well-formed automata over the same alphabet is well formed. |
| Combinators.Star | python/automate.py:175-208 | The star has n + 1 states and the operand's alphabet. Its finals are 0 followed by the operand's finals shifted by 1, so it accepts the empty word. |
| Combinators.StarDest | python/automate.py:189-205 | State 0 moves only by epsilon, to 1. Every other state keeps its shifted moves and gains epsilon moves [1, 0] once per time it is listed as final. |
| Combinators.StarIdsWithin | python/automate.py:175-208 | All states of the star lie in 0 .. n. |
| Combinators.StarWellFormed | python/automate.py:175-208 | The star of a well-formed automaton is well formed. |
| Closure.StateClosure | python/automate.py:217-247 | The closure list of state i starts with i and contains only states of the automaton. |
| Closure.EpsilonClosures | python/automate.py:211-249 | `acces_epsilon`: there is one closure list per state. Entry i lists exactly the states reachable from i by epsilon moves. Elimination reads its closures from here, as `supression_epsilon_transitions` reads `acces`. |
| Closure.SuccessorsMembers | python/automate.py:229-234 | The collected neighbours are exactly the epsilon destinations of the frontier's states. |
| Closure.Expand | python/automate.py:227-247 | The `while True` loop of `acces_epsilon`. Its own contract says the closure so far stays a prefix of the result, and that every added state was a candidate. Reachability and closedness are stated by `Closure.ExpandReachable` and `Closure.ExpandClosed`. |
| Closure.ExpandReachable | python/automate.py:227-247 | Every state added by the frontier loop is reachable from the root by epsilon moves. |
| Closure.ExpandClosed | python/automate.py:227-247 | When the loop stops, the closure is closed under epsilon moves that stay inside the automaton. |
| Closure.ClosurePath | python/automate.py:211-249 | Every silent run from a member of the closure ends inside the closure. |
| Closure.ClosureExact | python/automate.py:211-249 | x is in the closure of i if and only if x is reachable from i by epsilon moves. |
| Elimination.EliminateEpsilon | python/automate.py:252-293 | State i is final exactly when its closure meets the old finals, and the finals are listed in increasing order. Every stored destination list is non-empty and sorted. No key carries epsilon. |
| Elimination.EliminateDest | python/automate.py:280-291 | (i, x) is a key exactly when x is a letter and the gathered set is non-empty. The stored list holds exactly that set. |
| Elimination.EliminateDestMembers | python/automate.py:283-288 | y is a destination of (i, x) if and only if some p in closure(i) has a move on x to some q with y in closure(q). |
| Elimination.EliminateWellFormed | python/automate.py:252-293 | Elimination of a well-formed automaton gives a well-formed automaton without epsilon moves. |
| Elimination.EliminateComplete | python/automate.py:252-293 | A run of the input from a member of closure(i) to a final state spells a word the eliminated automaton accepts from i. |
| Elimination.EliminateSound | python/automate.py:252-293 | A run of the eliminated automaton from i to a final state spells a word the input accepts from i. |
| Elimination.EliminatePreserves | python/automate.py:252-293 | Removing epsilon moves keeps the language: both automata accept exactly the same words. |
| Determinisation.Post | python/automate.py:323-328 | The gathered set on c is exactly the union of the destinations on c of the subset's members. |
| Determinisation.ExploreSymbols | python/automate.py:322-344 | The letter loop for one subset. Its own contract says the discovered subsets only grow at the end and stay distinct subsets of the states. The stored entries are stated by `Determinisation.ExploreInv`. |
| Determinisation.Explore | python/automate.py:314-344 | The BFS loop over the queue of subsets. Its own contract says the same as `ExploreSymbols`, and it terminates because each new subset shrinks the undiscovered part of the power set. Its table is stated by `Determinisation.ExploreInv`. |
| Determinisation.SubsetConstruction | python/automate.py:308-345 | The discovered subsets start with {0}, are pairwise distinct, and are subsets of the automaton's states. |
| Determinisation.DiscoveredGrows | python/automate.py:337-340 | Discovering a new subset strictly shrinks the set of undiscovered subsets, which is why the exploration ends. |
| Determinisation.ExploreInv | python/automate.py:314-344 | After the exploration, every discovered subset has a transition on every letter with a non-empty image, to the index of that image, and no other transition. |
| Determinisation.Determinise | python/automate.py:296-356 | The DFA has one state per discovered subset. State i is final exactly when subset i meets the old finals, listed in increasing order. |
| Determinisation.DeterminiseDest | python/automate.py:314-344 | (i, c) is a key exactly when c is a letter and the image of subset i on c is non-empty. The key has then one destination, the index of that image. |
| Determinisation.DeterminiseShape | python/automate.py:342-344 | Every transition of the result lies within its states, reads a letter, and has one destination. |
| Determinisation.DeterminiseWellFormed | python/automate.py:296-356 | Determinising a well-formed automaton gives a well-formed deterministic automaton. |
| Determinisation.DeterminiseStep | python/automate.py:323-328 | Some member of a subset accepts c followed by w exactly when some member of its image on c accepts w. |
| Determinisation.DeterminiseRun | python/automate.py:296-356 | Running w in the DFA from subset j ends in a final state exactly when some member of subset j accepts w in the NFA. |
| Determinisation.DeterminisePreserves | python/automate.py:296-356 | The DFA accepts exactly the words the epsilon-free NFA accepts. |
| Completion.CompleteDest | python/automate.py:359-383 | Existing transitions are kept as they are. Every state has a key for every letter, and each key that was missing leads to the sink, numbered with the old n. |
| Completion.Complete | python/automate.py:359-383 | `completion`. Its own contract keeps the alphabet, finals and name. The sink, the kept and added entries and the language are stated by `Completion.CompleteDest`, `CompleteSize`, `CompleteIsComplete` and `CompletePreserves`. |
| Completion.CompleteSize | python/automate.py:364-373 | One state is added exactly when some (state, letter) pair was missing. Otherwise the automaton is returned unchanged. |
| Completion.CompleteEntries | python/automate.py:367-381 | The old entries come first. Every added entry reads a letter, starts within the states and leads to the sink. |
| Completion.CompleteIsComplete | python/automate.py:367-381 | After completion every state has a transition on every letter. |
| Completion.CompleteWellFormed | python/automate.py:359-383 | Completing a well-formed DFA gives a well-formed, deterministic and complete automaton. |
| Completion.CompletePreserves | python/automate.py:359-383 | The completed DFA accepts exactly the words the partial DFA accepts. |
| Minimisation.InitialFacts | python/automate.py:398-400 | The initial partition is a partition of the states and keeps finals and non-finals apart. When there are finals, its first block is the finals. Without finals it is the single block of all states. |
| Minimisation.InitialPartition | python/automate.py:398-400 | The finals block, then the non-finals, with empty blocks dropped. It has no ensures of its own; `Minimisation.InitialFacts` carries its contract. |
| Minimisation.SignatureAt | python/automate.py:413-422 | A state's signature has one entry per letter: the index of the block holding its successor on that letter. |
| Minimisation.ClassesSplit | python/automate.py:410-425 | Grouping a block by signature gives non-empty, disjoint classes that cover the block. Two states of one class have the same signature. |
| Minimisation.Pass | python/automate.py:406-432 | One round of the `while modif` loop: each block is replaced by its signature classes when there are several, and the flag is `modif`. It has no ensures of its own; `Minimisation.PassCount` and `Minimisation.PassFacts` carry its contract. |
| Minimisation.PassCount | python/automate.py:427-434 | A pass never loses blocks. It reports a change exactly when it adds some, and without a change it returns the partition unchanged with every block of one signature. |
| Minimisation.PassFacts | python/automate.py:404-434 | A pass turns a partition into a partition at least as fine. |
| Minimisation.Refine | python/automate.py:402-434 | Refinement returns a partition of the states with at least as many blocks as it started with. |
| Minimisation.RefineFixpoint | python/automate.py:402-434 | The loop stops at a partition that a further pass would not change. |
| Minimisation.RefineStable | python/automate.py:402-434 | In the refined partition, states of one block move into the same block on every letter. |
| Minimisation.RefineHomogeneous | python/automate.py:402-434 | Refinement never puts a final and a non-final state in one block. |
| Minimisation.RefineKeepsZero | python/automate.py:409-432 | If state 0 is in the first block before refinement, it is in the first block after it. |
| Quotients.Mapping | python/automate.py:436-440 | The mapping is defined exactly on the states of the partition and sends each one to the index of a block holding it. |
| Quotients.MappingBlock | python/automate.py:436-440 | For a disjoint partition the mapping gives the unique block of each state. |
| Quotients.Quotient | python/automate.py:442-451 | The quotient has one state per block. Block i is final exactly when it holds a final state. |
| Quotients.QuotientNext | python/automate.py:453-458 | Every block has a transition on every letter: the block of its representative's successor. |
| Quotients.QuotientDfa | python/automate.py:442-459 | The quotient of a complete DFA by a partition is a complete DFA. |
| Quotients.QuotientRun | python/automate.py:453-458 | Under a stable partition, running a word in the quotient from a state's block ends in the block of the state the original run reaches. |
| Quotients.QuotientAccepts | python/automate.py:442-459 | For a stable partition that separates finals and has state 0 in block 0, the quotient accepts exactly the original words. |
| Quotients.MinimiseAsWrittenShape | python/automate.py:386-460 | The result as written is a complete DFA over the same alphabet, with between 1 and n states. |
| Quotients.MinimiseAsWritten | python/automate.py:386-460 | `minimisation` as written. It has no ensures of its own; `Quotients.MinimiseAsWrittenShape`, `Quotients.AsWrittenFirstFinal` and `Quotients.AsWrittenWrong` carry its contract. |
| Quotients.AsWrittenFirstFinal | python/automate.py:398-451 | As written, when the input has finals, state 0 of the result is final. |
| Quotients.AsWrittenWrong | python/automate.py:386-460 | As written, when the input has finals but its initial state is not final, the result accepts the empty word and the input does not. |
| Quotients.AsWrittenAgrees | python/automate.py:386-460 | When the input has no finals or state 0 is final, the corrected minimisation gives the same result as `minimisation` as written. |
| Quotients.MinimalPartition | python/automate.py:398-440 | The partition the corrected minimiser uses is a partition of the states, with state 0 in block 0. |
| Quotients.MinimisePreserves | python/automate.py:386-460 | The minimised DFA accepts exactly the words the input DFA accepts. |
| Quotients.MinimiseShape | python/automate.py:386-460 | The minimised automaton is a complete DFA over the same alphabet, with between 1 and n states. |
| Quotients.Minimise | python/automate.py:386-460 | `minimisation` with the block of state 0 numbered 0. It has no ensures of its own; `Quotients.MinimisePreserves` and `Quotients.MinimiseShape` carry its contract. |
| Equivalence.Prepare | python/automate.py:463-469 | Elimination, determinisation and completion turn every well-formed automaton into a complete DFA over the same alphabet. |
| Equivalence.PreparePreserves | python/automate.py:463-472 | The pipeline keeps the language: the prepared DFA and the reduced DFA each accept exactly the words the input automaton accepts. |
| Equivalence.ReduceShape | python/automate.py:463-472 | The reduced automaton is a complete DFA over the input's alphabet. |
| Equivalence.ReduceAsWritten | python/automate.py:463-472 | `tout_faire` as written. It has no ensures of its own; `Examples.LetterAsWrittenAcceptsEmpty` shows that it can change the language. |
| Equivalence.Reduce | python/automate.py:463-472 | `tout_faire` over the corrected minimisation. It has no ensures of its own; `Equivalence.ReduceShape` and `Equivalence.PreparePreserves` carry its contract. |
| Equivalence.MatchLettersMaps | python/automate.py:499-508 | After checking a pair, the mapping sends each successor on a letter in the first automaton to the successor in the second. |
| Equivalence.MatchLetters | python/automate.py:499-508 | The letter loop for one queued pair. It has no ensures of its own; `Equivalence.MatchLettersMaps` carries its contract. |
| Equivalence.Match | python/automate.py:487-510 | The queue walk from the pair (0, 0). It has no ensures of its own; `Equivalence.MatchSimulates` carries its contract. |
| Equivalence.MatchSimulates | python/automate.py:490-508 | A successful walk yields a mapping that preserves finality and commutes with every letter's transition. |
| Equivalence.CompareShape | python/automate.py:482-484 | Different alphabets or different sizes make the comparison false. |
| Equivalence.Compare | python/automate.py:482-510 | The comparison `egal` makes of two reduced DFAs. It has no ensures of its own; `Equivalence.CompareShape`, `CompareSound` and `CompareReflexive` carry its contract. |
| Equivalence.CompareSound | python/automate.py:483-510 | When the comparison succeeds, the two DFAs accept the same words. |
| Equivalence.CompareReflexive | python/automate.py:483-510 | Every complete DFA compares equal to itself. |
| Equivalence.EqualReflexive | python/automate.py:475-510 | Every well-formed automaton is equal to itself, both in automate.py's test and in the corrected one. |
| Equivalence.EqualSound | python/automate.py:475-510 | When the corrected test says equal, the two automata accept the same words. |
| Equivalence.EqualAsWritten | python/automate.py:475-510 | `egal` as written. It has no ensures of its own; `Equivalence.EqualReflexive` and `Examples.EmptyDiffersFromEpsilonAsWritten` carry its contract. |
| Equivalence.Equal | python/automate.py:475-510 | `egal` over the corrected `tout_faire`. It has no ensures of its own; `Equivalence.EqualSound` and `Equivalence.EqualReflexive` carry its contract. |
| Regular.EmptyLanguageAccepts | python/automate.py:11-43 | `automate("O")` accepts no word. |
| Regular.EpsilonAccepts | python/automate.py:11-43 | `automate("E")` accepts the empty word and no other. |
| Regular.LetterAccepts | python/automate.py:11-43 | `automate(x)` for a letter x accepts the one-letter word x and no other. |
| Regular.UnionHasEntries | python/automate.py:137-171 | The union contains each operand's moves and final states at its offset, and its start moves on epsilon to both operands' starts. |
| Regular.UnionHasExits | python/automate.py:137-171 | The union's start moves only on epsilon to 1 or 1 + n1, each operand's part moves exactly as the operand does, and the only final states are the operands'. |
| Regular.UnionSound | python/automate.py:137-171 | A word accepted by an automaton with the union's exits is accepted by one of the operands. |
| Regular.UnionComplete | python/automate.py:137-171 | A word accepted by either operand is accepted by an automaton with the union's entries. |
| Regular.UnionLanguage | python/automate.py:137-171 | The union accepts a word exactly when one of the operands does. |
| Regular.ConcatHasEntries | python/automate.py:99-133 | The concatenation contains the first operand's moves in place, an epsilon move from each of its final states to n1, and the second operand's moves and final states at offset n1. |
| Regular.ConcatHasExits | python/automate.py:99-133 | In the concatenation, states of the first part move as in the first operand or on epsilon to n1 from its final states. The second part moves exactly as the second operand does. All final states lie in the second part. |
| Regular.ConcatFirstPart | python/automate.py:99-133 | A run from a state p of the first part to a final state reads a word the first operand accepts from p, followed by a word the second operand accepts. |
| Regular.ConcatComplete | python/automate.py:99-133 | A word of the first operand followed by a word of the second is accepted by an automaton with the concatenation's entries. |
| Regular.ConcatLanguage | python/automate.py:99-133 | The concatenation accepts w exactly when w splits into a word of the first operand followed by a word of the second. |
| Regular.StarHasEntries | python/automate.py:175-208 | In the star, state 0 is final and moves on epsilon to 1. The operand's moves sit one place up. Each of the operand's final states moves on epsilon back to 0. |
| Regular.StarHasExits | python/automate.py:175-208 | In the star, state 0 moves only on epsilon to 1. Other states move as in the operand, or on epsilon to 1 or 0 from its final states. The final states besides 0 are the operand's. |
| Regular.StarRun | python/automate.py:175-208 | A run to a final state reads a word of InStar from state 0. From a state of the operand's part it reads a word the operand accepts from there, followed by a word of InStar. |
| Regular.StarComplete | python/automate.py:175-208 | Every word that splits into words of the operand is accepted by an automaton with the star's entries. |
| Regular.StarLanguage | python/automate.py:175-208 | The star accepts w exactly when w splits into zero or more non-empty words of the operand. |
| Examples.EmptyEqualsEmpty | python/automate.py:583-585 | `egal(automate("O"), automate("O"))` is true, as automate.py's scenario expects. |
| Examples.EmptyDiffersFromEpsilonAsWritten | python/automate.py:587-590 | `egal(automate("O"), automate("E"))` is false as written, as automate.py's scenario expects. |
| Examples.EmptyDiffersFromEpsilon | python/automate.py:587-590 | The corrected test also tells the empty language from the empty word. |
| Examples.LetterAsWrittenAcceptsEmpty | python/automate.py:398-451 | `automate("a")` does not accept the empty word. As written, `tout_faire(automate("a"))` accepts it. The corrected pipeline does not. |

## Left out

- `__str__`, the `__main__` self-tests and `assert_dfa` are printing and test glue. The test scenarios on the elementary automata are restated in the `Examples` module.
- `deepcopy` has no counterpart, because every operation is a pure function on values.
- The `TypeError` in `ajoute_transition` (lines 61-64) cannot arise: the destination argument is typed as a list of states. The `ValueError` of the constructor is the `Result` failure `InvalidSymbol`.
- The `name` strings are carried along but nothing is proved about them beyond being copied where automate.py copies them.
- automate.py's `KeyError` cases are excluded by preconditions: minimisation and `egal` index `transition[(q, c)]` and need a complete DFA. `Minimise` and `MinimiseAsWritten` therefore require `Dfa`, the condition `tout_faire` always establishes. `Compare` and the `Match` walk require `Dfa` of the first automaton only.
- Equivalence.Compare: the `KeyError` that `egal` raises at line 501 when the second automaton lacks a key is not modelled. There `Next` gives -1 and the walk goes on. `Equal` and `EqualAsWritten` only compare outputs of `tout_faire`, which are complete DFAs, so the case never arises there.
- Python's set iteration order is not modelled. Sets are iterated in increasing order, and `next(iter(bloc))` is the smallest member of the block. Under a stable partition any member gives the same quotient.
- Quotients.Minimise: minimality of the result is not proved. Its contracts state that the language is kept and that the result is a complete DFA with no more states.
- Equivalence.EqualSound: completeness of `egal` is not proved, that is, that automata with equal languages are reported equal. Soundness is proved for the languages of the input automata themselves: when `Equal` holds, both accept the same words under the NFA semantics `Accepts`.
- Examples.LetterAsWrittenAcceptsEmpty: the further consequence that automate.py's `egal(automate("a"), automate("b"))` returns true is not derived. Deriving it needs the exact refined partition and transition table of both reductions, while the model proves only general facts about refinement. The empty word alone already separates the as-written result from its input.

## Findings

| source | as written | input that shows it | evidently intended | confidence | as-written member | corrected member |
|---|---|---|---|---|---|---|
| python/automate.py:398-451 | The initial partition puts the finals block first, and blocks are numbered in partition order. When the input has at least one final state and state 0 is not final, the result's state 0 is a final block, but state 0 is taken as the initial state. | `tout_faire(automate("a"))`: the result accepts the empty word, which `automate("a")` does not. | The block holding the original initial state is numbered 0. | not executed | Quotients.AsWrittenWrong | Quotients.MinimisePreserves |
