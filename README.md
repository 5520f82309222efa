# DFA minimizer: a Dafny model

The modelled program reads a deterministic finite automaton (AFD) as a dictionary:
- an alphabet (`alfa`);
- a list of state names (`estados`);
- an initial state (`inicial`);
- a list of final states (`finais`);
- a transition dictionary (`transicoes`) from state to symbol to target state.

`validar_afd` validates that automaton. `main` then minimizes it by the Myhill–Nerode table-filling method, in five stages:

1. **Base table.** Fill the table. The lower triangle gets 1 where exactly one state of the pair is final and 0 elsewhere. The diagonal and upper triangle stay -1.
2. **Derivation.** Make one derivation pass. It marks a 0 pair when a symbol leads the pair to a pair already marked 1.
3. **Composites.** Collect every pair still at 0 as a two-element list. Merge the lists that share a state. Add one list holding every state that is in no unmarked pair.
4. **Names.** Name each composite by joining its members with `", "`. The composite holding the initial state becomes the new initial state, and those meeting a final state become final.
5. **Transitions.** Build the transition table of the minimized automaton, which takes the same shape as the input.

The model is split into these modules:

- `Basics`: options, distinct sequences, element sets and their sizes.
- `Dfa`: the automaton over state indices, its runs and acceptance, and the two relations minimization is meant to decide. Those relations are language equivalence of states and its negation, distinguishability.
- `Validation`: the dictionary form of an automaton (rows of entries in insertion order), `validar_afd` with its order of checks, runs and acceptance read directly off a dictionary, and the translation of a loadable dictionary into a `Dfa.Machine`.
- `Table`: the table as a square `array2<int>` together with its value as a sequence of rows:
  - the base stage;
  - the single derivation pass as written, modelled by a specification fold (`Step`/`RowPass`/`Pass`) that its methods are proved against;
  - soundness of every mark.
- `Fixpoint`: evidence that the single pass misses pairs, and the corrected derivation. The corrected derivation reads both orientations of the successor pair and repeats passes until nothing changes. A table closed under it decides equivalence exactly.
- `Partition`: collecting the unmarked pairs, the pairwise merge loop, the list of isolated states, and the choice of initial and final composites. The merge loop never revisits a list it has passed. Even so, its results share no state when its input is the pairs of the classes of an equivalence in scan order. The reason is that the first pair met of each class holds the class's least state.
- `Naming`: composite names, their layout and a round trip back to member labels.
- `Minimized`: the transition table built with `next`, the minimized automaton, and the whole pipeline as written (`Minimized.Minimize`).
- `Corrected`: evidence that the isolated-states list is wrong, and the pipeline with both corrections (`Corrected.Minimize`). Its composites are exactly the equivalence classes, and each composite state accepts exactly the language of each of its members. The record it builds therefore accepts exactly the words the input dictionary accepts.

A state is an index into the state list. In the model a state name is one character, so a composite name such as `"C, D, E"` can be read back.

## Model

| member | source | states |
|---|---|---|
| Dfa.DistinguishableBack | main.py:289-294 | if some symbol leads p and q to distinguishable states, then p and q are distinguishable |
| Dfa.EquivalentForward | main.py:289-294 | equivalent states move to equivalent states on every symbol |
| Dfa.EquivalentIffNotDistinguishable | main.py:289-294 | two states are equivalent exactly when no word separates them |
| Dfa.EquivalentTransitive | main.py:363-377 | equivalence is transitive, so merging unmarked pairs that share a state joins equivalent states only |
| Validation.FirstOutside | main.py:75-81 | reports nothing exactly when every final state from the given position on is declared; otherwise returns the first undeclared position |
| Validation.CheckEntries | main.py:98-108 | reports nothing exactly when every entry has a declared target and a known symbol; otherwise reports the first failing entry, checking the target before the symbol |
| Validation.OccurrencesRepeated | main.py:104-113 | an entry's symbol counter exceeds one exactly when another entry of the row carries the same symbol |
| Validation.FirstRepeated | main.py:110-119 | returns a position whose symbol is counted more than once, or nothing when every count is at most one |
| Validation.NoRepeatIffDistinct | main.py:104-119 | the repeated-symbol check passes exactly when a row's symbols are pairwise distinct |
| Validation.CheckRows | main.py:84-119 | reports nothing exactly when every row passes the origin, size, entry and repetition checks; a repetition failure comes from a row with a repeated symbol |
| Validation.FirstFailingRow | main.py:84-119 | a reported row failure belongs to the first row that fails a check: an origin, size or repetition failure names that row's origin, an entry failure is the one its entry checks report |
| Validation.FirstFailure | main.py:68-122 | reports nothing exactly when all checks pass; reports an undeclared initial state exactly when it is undeclared; a later failure implies the earlier checks passed |
| Validation.ValidateAfd | main.py:68-122 | true exactly when every check holds |
| Validation.RepeatedSymbolNeverReported | main.py:110-119 | for dictionary rows (distinct keys) the repeated-symbol failure can never be the outcome |
| Validation.RowlessStatePasses | main.py:84-122 | a declared state with no transition row still passes validation |
| Validation.RowCoversAlphabet | main.py:92-108 | a row that passes has an entry for every alphabet symbol, and the alphabet is free of repeats |
| Validation.Lookup | main.py:313-314 | finds nothing exactly when the symbol is absent from the row (the lookup would fail); otherwise returns that entry's target |
| Validation.TargetIndex | main.py:313-314 | the transition target is a declared state, namely the one the row lookup returns |
| Validation.Delta | main.py:313-314 | the transition function is total on states and symbols and agrees with every row lookup |
| Validation.ToMachine | main.py:270-314 | a loadable dictionary becomes a well-formed machine with the same states, alphabet, initial state, final states and transitions |
| Validation.RecordRunIsRun | main.py:313-314 | reading a word in the dictionary from a state's name follows the machine's run, each step being the row lookup |
| Validation.RecordAcceptsIsAccepts | main.py:68-122 | the dictionary and its machine accept the same words from the initial state |
| Validation.AlphabetDistinct | main.py:92-108 | a loadable automaton's alphabet has no repeats |
| Table.Blank | main.py:250 | a square table with every cell -1 |
| Table.NewMatrix | main.py:250 | allocates a fresh table holding the all -1 value |
| Table.BaseTable | main.py:261-281 | cell (p, q) holds the base entry of that pair |
| Table.FillBase | main.py:261-281 | leaves the table equal to the base table: below the diagonal 1 exactly when one of the pair is final, else 0; -1 on and above the diagonal |
| Table.DerivePass | main.py:300-334 | the in-place pass leaves the table equal to the specification fold over rows in scan order |
| Table.DeriveRow | main.py:300-311 | one row of the pass leaves the table equal to the fold over that row's cells |
| Table.DeriveCell | main.py:310-334 | an unmarked cell becomes 1 exactly when some symbol leads the pair to a cell holding 1, reading the successor cell in the written orientation only |
| Table.PassOnlyMarks | main.py:300-334 | the pass only changes 0 to 1 below the diagonal and leaves every other cell as it was |
| Table.RowPassOnlyMarks | main.py:300-311 | a row of the pass only turns 0 into 1 |
| Table.BaseSound | main.py:261-281 | every 1 of the base table marks a distinguishable pair, and a 0 pair agrees on finality |
| Table.StepSound | main.py:317-321 | marking a cell from a marked successor keeps every mark sound |
| Table.RowPassSound | main.py:300-334 | a row of the pass keeps every mark sound |
| Table.PassSound | main.py:289-334 | after the pass, every 1 still marks a distinguishable pair |
| Table.DerivedTableShape | main.py:250-334 | the derived table has -1 on and above the diagonal, 0 or 1 below, only sound marks, and 0 only on pairs that agree on finality |
| Fixpoint.SinglePassMissesPair | main.py:300-334 | on a three-state automaton, the table as written leaves a pair at 0 although one symbol separates it |
| Fixpoint.SkipExamplePass | main.py:300-334 | on that automaton the single pass changes nothing |
| Fixpoint.BaseInv | main.py:261-281 | the base table satisfies the corrected table's invariant |
| Fixpoint.MarkKeepsInv | main.py:317-334 | marking a distinguishable pair keeps the invariant |
| Fixpoint.SuccessorMarked | main.py:317-334 | a pair whose successor pair is marked in either orientation is distinguishable |
| Fixpoint.AgreeAlong | main.py:289-294 | in a closed table an unmarked pair accepts exactly the same words |
| Fixpoint.ClosedDecidesEquivalence | main.py:289-294 | in a closed table a lower cell is 0 exactly when the pair is equivalent and 1 exactly when it is distinguishable |
| Fixpoint.ScanSymbols | main.py:312-334 | marks the cell exactly when some symbol's successor pair is marked in either orientation; otherwise the cell is stable |
| Fixpoint.RefineCell | main.py:310-334 | marks an unmarked cell only when it is distinguishable, keeping the invariant; otherwise the cell is stable |
| Fixpoint.RefineRow | main.py:300-311 | a row either marks something or certifies every cell of the row as stable |
| Fixpoint.StableNext | main.py:300-311 | stability of the scanned prefix extends by one cell |
| Fixpoint.MarkShrinks | main.py:317-321 | each new mark strictly shrinks the set of unmarked cells |
| Fixpoint.RefineRound | main.py:300-334 | a pass either strictly shrinks the unmarked cells or leaves a closed table |
| Fixpoint.Refine | main.py:300-334 | repeating passes terminates in a closed table that keeps the invariant |
| Fixpoint.EquivalenceTable | main.py:250-334 | builds a table whose lower cell is 0 exactly when the two states are equivalent |
| Partition.MembersSpec | main.py:355-359 | a state is a member of a list of composites exactly when some composite holds it |
| Partition.MembersAppend | main.py:357-359 | appending a composite adds exactly its elements to the members |
| Partition.ZeroPairsSpec | main.py:350-359 | the collected pairs are exactly the lower cells holding 0, each as [row, column] |
| Partition.CollectPairs | main.py:346-361 | collects exactly the zero pairs in scan order, and the used set is exactly their members |
| Partition.CollectRow | main.py:350-359 | one row adds that row's zero pairs and their states |
| Partition.ListOf | main.py:373 | a set turned into a list keeps exactly its elements, without repeats |
| Partition.MergeKeepsMembers | main.py:371-374 | merging two lists keeps the set of members |
| Partition.MergeCovers | main.py:371-374 | after a merge every earlier list is contained in some list |
| Partition.MergeKeepsNonEmpty | main.py:371-374 | a merge never creates an empty list |
| Partition.MergeKeepsCliques | main.py:371-374 | merging two intersecting cliques of an equivalence relation yields a clique |
| Partition.MergingTrans | main.py:367-377 | merge steps compose |
| Partition.MergingStep | main.py:371-374 | one merge of intersecting lists keeps members, coverage, non-emptiness and cliques |
| Partition.MergeInto | main.py:369-376 | the inner loop keeps list i in place, removes one list per merge and keeps the merge invariants; on pairs of classes in scan order it leaves list i sharing no state with any later list |
| Partition.MergeIntersecting | main.py:367-377 | the merge loop removes one list per merge and keeps members, coverage, non-emptiness and cliques of any equivalence relation; on pairs of classes in scan order no two resulting lists share a state |
| Partition.ZeroPairsSorted | main.py:350-359 | the collected pairs come in strictly increasing row-then-column order |
| Partition.ClassStart | main.py:367-370 | at the start of round i of the merge loop, list i is a pair whose second state is the least of its class |
| Partition.SameClassMeets | main.py:370-371 | during round i, a later list holding a state of list i's class shares a state with list i |
| Partition.MergeInRound | main.py:371-374 | merging such a list into list i keeps the round's invariant |
| Partition.SkipInRound | main.py:375-376 | a later list that shares no state with list i holds no state of its class, so stepping past it keeps the round's invariant |
| Partition.RoundDone | main.py:369-377 | when round i ends, list i shares no state with any later list |
| Partition.AppendIsolated | main.py:379-384 | appends one list whose elements are exactly the states outside every pair |
| Partition.PairsCliques | main.py:355-359 | each zero pair is a clique of any equivalence relation holding on zero pairs |
| Partition.Composites | main.py:346-384 | the composites cover every state; those before the last hold exactly the states of the zero pairs, each pair inside one of them; the last holds exactly the isolated states; the others are non-empty cliques of any equivalence relation that holds on zero pairs |
| Partition.Containing | main.py:389-395 | the composites containing a state, in order |
| Partition.ContainingOne | main.py:389-393 | when no two composites share a state, exactly one composite holds a listed state |
| Partition.Accepting | main.py:397-401 | the composites that meet a final state, in order |
| Partition.SelectStartAndFinals | main.py:386-401 | selects exactly the composites containing the initial state and those meeting a final state |
| Partition.StartIsCovered | main.py:389-395 | when the composites cover every state, some composite contains the initial state |
| Naming.SpelledIsJoined | main.py:404-408 | appending each label followed by ", " gives the joined name followed by ", " |
| Naming.SpelledAppend | main.py:404-408 | spelling distributes over concatenation |
| Naming.JoinName | main.py:404-408 | builds the composite's name: its labels joined by ", " |
| Naming.NameAll | main.py:403-408 | names every composite, in order |
| Naming.Flatten | main.py:411-413 | the concatenation of several composites holds exactly their members |
| Naming.SpellOnto | main.py:411-413 | appends a composite's spelling to the spelling built so far |
| Naming.StartName | main.py:410-414 | names the initial composites as one joined name; with a single initial composite it is that composite's name |
| Naming.JoinedLayout | main.py:404-408 | a name of k labels has length 3k-2, a label at every third position and ", " between them |
| Naming.UnjoinJoined | main.py:404-408 | reading a name back gives exactly the composite's labels (round trip) |
| Naming.JoinedMembership | main.py:459 | a label character occurs in a name exactly when it is one of the composite's labels |
| Naming.NameMembers | main.py:459 | a state's label occurs in a composite's name exactly when the state is a member |
| Minimized.FirstWith | main.py:452-462 | returns the first position whose sequence holds the item (a name holding a label, a composite holding a state), or nothing when none does |
| Minimized.StateOf | main.py:452-459 | maps a label character back to its state, or nothing when no state has that label |
| Minimized.NextTarget | main.py:452-462 | the target found is one of the composite names; with no characters left nothing is found |
| Minimized.Dedup | main.py:446-469 | keeps each name once, with the same set of names |
| Minimized.TableRow | main.py:449-465 | a row has one entry per alphabet symbol, in alphabet order, pointing to the first matching name |
| Minimized.TransitionTable | main.py:446-469 | exists exactly when every lookup finds a target; it then has one row per distinct name, one entry per symbol, and every target is a name |
| Minimized.MinimizedAutomaton | main.py:472-478 | the result keeps the alphabet, uses the composite names as states, the built initial and final names, and the built transition table |
| Minimized.MinimizedValidates | main.py:472-478 | the result is a dictionary whose rows pass validation, and it validates exactly when its initial and final names are declared |
| Minimized.MinimizedRowOk | main.py:446-478 | every row of the result passes the row checks |
| Minimized.SearchByLabel | main.py:452-462 | searching names for a label finds the same composite as searching composites for the state |
| Minimized.CompositeTransition | main.py:452-462 | a composite's transition on a symbol goes to the first composite holding the successor of its first member |
| Minimized.TableExists | main.py:452-469 | the table can be built exactly when the alphabet is empty or no composite is empty |
| Minimized.MinimizedTransition | main.py:446-478 | looking up a symbol in a composite's row of the result gives the first composite holding the successor of its first member |
| Minimized.RowOfName | main.py:446-478 | each name's row in the result is the row built for it |
| Minimized.LookupInAlphabetOrder | main.py:446-469 | in a row laid out in alphabet order, looking up a symbol returns the entry at its position |
| Minimized.CoverInRange | main.py:346-384 | composites that cover the states hold only valid state indices |
| Minimized.BuildComposites | main.py:250-384 | the composites cover every state; those before the last hold exactly the states of the derived table's zero pairs, each pair inside one of them; the last holds exactly the states in no zero pair; the others are non-empty and agree on finality |
| Minimized.SelectedInRange | main.py:386-401 | the selected composites hold only valid state indices |
| Minimized.FinalNamesDeclared | main.py:416-421 | every final name is one of the composite names |
| Minimized.Assemble | main.py:386-478 | the pipeline stops in `next` exactly when the alphabet is non-empty and some composite is empty; otherwise it returns the automaton named from the composites, with the joined initial name and the accepting composites as finals, and it validates when one composite holds the initial state |
| Minimized.Minimize | main.py:249-478 | the pipeline as written: composites cover all states, those before the last group the zero pairs, the last holds exactly the isolated states; it stops exactly when the alphabet is non-empty and no state is isolated; otherwise the record keeps the alphabet, names one state per composite, takes as initial name the joined members of the composites holding the initial state and as final names those of the composites meeting a final state, and its rows are the transition table over the names |
| Corrected.IsolatedGroupMixesFinality | main.py:379-384 | on a two-state automaton the isolated group holds a non-final initial state and a final state, so the result accepts the empty word wrongly |
| Corrected.NoIsolatedStateLeavesEmptyGroup | main.py:379-384 | on a two-state automaton with one equivalence class the isolated group is empty and the alphabet is not |
| Corrected.EquivIsEquivalence | main.py:363-377 | state equivalence, restricted to the states, is an equivalence relation |
| Corrected.SingletonsSpec | main.py:379-384 | one singleton per isolated state, with exactly those states as members |
| Corrected.AppendSingletons | main.py:379-384 | appends one singleton composite per state outside every pair, each for a different state, and nothing else |
| Corrected.SingletonsAreCliques | main.py:379-384 | adding singletons keeps the composites non-empty cliques of equivalence |
| Corrected.PairsOfClasses | main.py:346-361 | with the closed table, the collected pairs are exactly the pairs of distinct equivalent states, in scan order |
| Corrected.SameKey | main.py:363-377 | two states have the same class key exactly when they are equivalent |
| Corrected.ComposedDisjoint | main.py:367-384 | merged lists that share no state, followed by distinct singletons of unlisted states, share no state |
| Corrected.ComposedSeparated | main.py:346-384 | when every collected pair lies inside one of the disjoint composites, equivalent states share a composite |
| Corrected.CorrectedComposites | main.py:346-384 | with the closed table, the composites cover every state, none is empty, no two share a state, each holds only equivalent states, and equivalent states share one |
| Corrected.Successor | main.py:452-462 | the composite reached on a symbol holds the successor of the composite's first member |
| Corrected.CompositeLanguage | main.py:386-469 | a composite state accepts exactly the words any of its members accepts |
| Corrected.RecordFollowsComposites | main.py:446-478 | reading a word in the minimized record from a composite's name ends at the name of the composite the composite automaton reaches |
| Corrected.RecordStep | main.py:446-478 | one symbol takes the record from a composite's name to the name of its successor composite |
| Corrected.FinalName | main.py:394-421 | a composite's name is a final name exactly when the composite meets a final state |
| Corrected.RecordLanguage | main.py:386-478 | the minimized record accepts from a composite's name exactly the words each member of the composite accepts |
| Corrected.MinimizedLanguage | main.py:386-478 | a record named from the classes, with the class of the initial state as initial name, accepts exactly the words the input dictionary accepts |
| Corrected.Minimize | main.py:249-478 | the corrected pipeline always yields an automaton that passes validation; its states are exactly the classes of equivalent states, each named from its members; its initial name is that of the one class holding the initial state, its final names those of the classes meeting a final state, and it accepts exactly the words the input dictionary accepts |

## Left out

- Reading the automaton from a text file (`ler_afd`) is left out. The model starts from the dictionary it returns.
- Drawing diagrams (`exibir_diagrama_afd`), printing the table (`mostra_matriz`, `mostra_diagona_inferior`) and every progress message are console and file output, so they are left out.
- `myhill_nerode` is never called and repeats the base stage. That stage is modelled once, in `Table.FillBase`.
- The hard-coded input file name and the process entry point are left out.
- Python set iteration order (main.py:373 and main.py:384) is unspecified. `Partition.ListOf` and `Partition.AppendIsolated` may return the elements in any order, and every result is proved for all orders.
- Dictionaries are modelled as sequences of rows and entries in insertion order. Keys of the transition dictionary are not forced to be distinct. `Validation.IsDict` says when they are, and `Validation.RepeatedSymbolNeverReported` shows the consequence for the repeated-symbol check.
- State names are single characters in the translation to a machine (`Validation.Loadable`). This lets a composite name be searched for a member's label without false matches. With multi-character names the substring test at main.py:459 could match a label inside a longer label, and that case is not modelled.
- A declared state without a transition row passes validation (`Validation.RowlessStatePasses`), and the minimization may then fail on the missing key. It need not: the derivation reads that row at main.py:313-314 only for a pair still at 0 under a non-empty alphabet, so a rowless state whose every pair is marked in the base stage (the only final state, say) is never looked up there, and the table search reads it at main.py:459 only when its label is among the characters tried, which depends on the member order set iteration gives (main.py:373). `Validation.Loadable` excludes such automata from minimization rather than modelling when the failure occurs.
- The `""` sentinel of the used set (main.py:348 and main.py:361) is left out: the used set starts empty.
- The early `break` at the diagonal keeps its form in the base stage (`Table.FillBase`, main.py:261-268). In the derivation pass and the pair collection (main.py:300-308, 350-353) it is modelled as the loop bound `j < i`, which visits the same cells.
- The merge loop uses `list(set(...))` to join two lists (main.py:373). It is modelled as an arbitrary duplicate-free list with exactly the union's elements.
- Validation.Loadable: declared state names must be distinct, although `validar_afd` (main.py:68-122) accepts a state list with repeats. The source indexes the table by name (main.py:250), and the diagonal tests at main.py:266, 304 and 352 compare names, so a repeated name would share one row of the table. Automata with repeated state names are not minimized in the model.
- Minimized.Minimize: no language property is stated for the pipeline as written. The findings below give inputs on which it does not preserve the language or does not finish. Its contract states the composites it builds and, when a record results, that record's states, initial name, final names and rows, as `Minimized.Assemble` describes them.

## Findings

| source | as written | input that shows it | evidently intended | confidence | as-written member | corrected member |
|---|---|---|---|---|---|---|
| main.py:300-334 | one derivation pass reads only the successor cell in the orientation the states produce. The first test's two branches both `continue`, so the mirrored test is never reached, and the pass runs once. | States F, X, Y over alphabet {a}, F final, with F→F, X→Y, Y→F. The pair (Y, X) stays 0 although the word "a" leads Y to a final state and X to a non-final one. | Read the successor pair in both orientations, and repeat passes until no cell changes. | high; not executed | Fixpoint.SinglePassMissesPair | Fixpoint.EquivalenceTable |
| main.py:379-384 | every state outside an unmarked pair goes into a single composite. | States P (initial) and F (final), alphabet {a}, both moving to F. No pair is unmarked, so P and F form one final composite and the result accepts the empty word, which the input rejects. | One singleton composite per isolated state. | high; not executed | Corrected.IsolatedGroupMixesFinality | Corrected.CompositeLanguage |
| main.py:379-384 | the isolated composite is appended even when it is empty. | States A and B, neither final, alphabet {a}, both moving to A. The pair is unmarked, the isolated composite is empty, and `next` over its empty name finds no target, so the run stops with StopIteration. | Append nothing when no state is isolated. | high; not executed | Corrected.NoIsolatedStateLeavesEmptyGroup | Corrected.Minimize |
