# EFSM-tools: a verified model of the synthesis core

EFSM-tools synthesizes finite-state machines from behaviour examples. The
examples are recorded scenarios: sequences of input events, each with the
output actions the machine must produce. Deterministic Mealy automata are
built by an exact backtracking search over a scenario tree or by decoding a
satisfying assignment of a SAT/QBF encoding. Nondeterministic Moore "plant"
automata are built in a counterexample-guided loop. Candidates are checked
against LTL properties by an explicit-state counterexample search.

This Dafny project models that core, one module per source file (or per
closely related group of source classes):

- common.dfy, strings.dfy (modules Common, Strings): the vocabulary: events, guards, action sets, Integer.toString, String.join, an integer TreeSet
- mealy.dfy (module MealyAutomata): src/structures/mealy/MealyAutomaton.java
- scenario_tree.dfy (module ScenarioTrees): the scenario tree the backtracking search colours
- backtracking.dfy, ordinary_search.dfy, group_search.dfy, multi_edge_search.dfy, weak_search.dfy, error_walk.dfy, error_labels.dfy, error_search.dfy, build.dfy (modules Backtracking, OrdinarySearch, GroupSearch, MultiEdgeSearch, WeakSearch, ErrorWalk, ErrorLabels, ErrorSearch, BacktrackingBuilder): src/automaton_builders/BacktrackingAutomatonBuilder.java: the four traverse states, mode, label, isWeakComplete, groupByDst, eventExtensions and build
- simple_verifier.dfy (module SimpleVerifier): src/qbf/egorov/verifier/SimpleVerifier.java
- plant_builder.dfy (module PlantBuilder): src/automaton_builders/PlantAutomatonBuilder.java
- scenario_ltl_builder.dfy (module ScenarioLtlBuilder): both copies of ScenarioAndLtlAutomatonBuilder.java (the decoding is the same algorithm in each)
- negative_tree.dfy (module NegativeScenarios): src/structures/NegativeScenariosTree.java
- moore_simulation.dfy, moore_spec.dfy, moore_automaton.dfy (modules MooreSimulation, MooreSpec, MooreAutomata): src/structures/moore/NondetMooreAutomaton.java
- plant_automaton.dfy (module PlantAutomata): src/structures/plant/NondetMooreAutomaton.java
- transition_condition.dfy (module TransitionConditions): src/qbf/egorov/ltl/buchi/impl/TransitionCondition.java
- predicate_factory.dfy (module LtlPredicates): src/verification/ltl/grammar/PredicateFactory.java
- trace_model.dfy (module TraceModel): src/continuous_trace_builders/TraceModelGenerator.java
- constraint_extractor.dfy, plant_text.dfy (modules ConstraintExtractor, PlantText): src/apros/ConstraintExtractorNew.java
- automaton_generator.dfy (module AutomatonGeneration): src/algorithms/AutomatonGenerator.java
- qbf_main.dfy (module QbfBuilder): src/QbfBuilderMain.java
- transition_counter.dfy (module TransitionCounting): src/qbf/egorov/transducer/verifier/TransitionCounter.java
- utils.dfy (module TraceUtils): src/continuous_trace_builders/Utils.java

The source's in-place state becomes Dafny classes and arrays where the code
mutates it. This covers the Mealy and Moore automata, the traverse states with
their colouring arrays and incoming-transition counters, the negative scenario
tree, the transition counter and the breadth-first searches. Each method is
proved against specification functions. Those functions state the source's
promises, for example:
- a frontier recomputation fails exactly on an action conflict;
- a backtracking branch restores the automaton and the counters;
- the verifier's first search visits exactly the product nodes reachable from the start, and its result is the minimal counterexample among those it records;
- interval compression is exact;
- a negative scenario walks the tree after insertion.

Several collaborators are abstract. Actions are a set of strings, and guards
are opaque identifiers. The LTL verifier, the automaton completer and the
SAT/QBF solver are parameters of the model: a predicate, a function and a
solver assignment. The wall clock is a tick budget. java.util.Random is a
supplied stream of draws.

## Model

| member | source | states |
|---|---|---|
| MealyAutomata.MealyAutomaton.constructor | src/structures/mealy/MealyAutomaton.java:15-22 | states 0..statesCount-1, all without transitions; state 0 exists even when statesCount is 0 |
| MealyAutomata.MealyAutomaton.AddTransition | src/structures/mealy/MealyAutomaton.java:40-42 | only state s changes, to Put of its old list: the transition with t's (event, guard) is replaced, otherwise t is appended; destinations stay in range and keys unique |
| MealyAutomata.Put | src/structures/mealy/MealyAutomaton.java:40-42 | after adding, (event, guard) of t maps to t, every other key keeps its transition, keys stay unique, and a new key goes to the end |
| MealyAutomata.MealyAutomaton.RemoveTransition | src/automaton_builders/BacktrackingAutomatonBuilder.java:139 | only state s changes: the transition with t's (event, guard) is removed, all other keys keep their transitions |
| MealyAutomata.RemoveKeyLookup | src/automaton_builders/BacktrackingAutomatonBuilder.java:139 | after removal the key has no transition, every other key keeps its transition, keys stay unique |
| MealyAutomata.PutRemoveKey | src/automaton_builders/BacktrackingAutomatonBuilder.java:125-139 | adding a transition under an absent key and removing it again gives back the state's list exactly (the backtracking undo) |
| MealyAutomata.PutAllLookupNone | src/automaton_builders/BacktrackingAutomatonBuilder.java:219-235 | after adding a group, a key has no transition iff it had none and no transition of the group carries it |
| MealyAutomata.PutAllLookupOther | src/automaton_builders/BacktrackingAutomatonBuilder.java:219-235 | adding a group leaves every key the group does not carry unchanged |
| MealyAutomata.RemoveAllLookup | src/automaton_builders/BacktrackingAutomatonBuilder.java:235 | after removing a group's keys those keys are absent and every other key is unchanged |
| MealyAutomata.PutAllRemoveAll | src/automaton_builders/BacktrackingAutomatonBuilder.java:219-235 | adding a group of transitions under absent keys and removing them again restores the state's list (the multi-edge undo) |
| MealyAutomata.Next | src/structures/mealy/MealyAutomaton.java:62-72 | a destination exists iff some transition has the event, the guard and the actions, and it is that transition's destination |
| MealyAutomata.NextIsLookup | src/structures/mealy/MealyAutomaton.java:62-72 | with one transition per (event, guard), next is the destination of that transition when its actions are equal, and nothing otherwise |
| MealyAutomata.MealyAutomaton.Transition | src/structures/mealy/MealyAutomaton.java:44-60 | the found transition leaves s with the event and guard and its destination is a state; none exactly when no transition of s has that key |
| MealyAutomata.MealyAutomaton.StepTargetOf | src/structures/mealy/MealyAutomaton.java:77-89 | the loop over a position's events returns StepTarget: every event takes a transition with the guard and actions, and all reach one state |
| MealyAutomata.MealyAutomaton.CompliesWith | src/structures/mealy/MealyAutomaton.java:74-92 | true iff the replay from the start state succeeds at every position (Complies) |
| MealyAutomata.CompliesPrefix | src/structures/mealy/MealyAutomaton.java:74-92 | compliance is prefix-closed: a scenario that replays has every prefix replaying |
| MealyAutomata.MealyAutomaton.CalcMissedActions | src/structures/mealy/MealyAutomaton.java:94-108 | the loop returns Missed: one per position whose recorded actions differ, plus every remaining position once the replay gets stuck; never more than the scenario length |
| MealyAutomata.CompliesHasNoMissedActions | src/structures/mealy/MealyAutomaton.java:74-108 | a scenario the automaton complies with has no missed actions |
| MealyAutomata.EventName | src/structures/mealy/MealyAutomaton.java:152-154 | the label without its last n characters; name followed by the variable part is the label |
| MealyAutomata.VarAssignment | src/structures/mealy/MealyAutomaton.java:156-158 | the last n characters of the label |
| MealyAutomata.AccBits | src/structures/mealy/MealyAutomaton.java:173-176 | bit k of the accumulated AND is set iff bit k is set in every label's variable value |
| MealyAutomata.AccumulateBits | src/structures/mealy/MealyAutomaton.java:173-176 | the loop computes AccBits |
| MealyAutomata.HighestBit | src/structures/mealy/MealyAutomaton.java:178 | the index of the only set bit, every other bit clear |
| MealyAutomata.CanBeMergedAsWritten | src/structures/mealy/MealyAutomaton.java:160-187 | canBeMerged as written: no merge unless same destination and actions; tautology for a full group; the variable position is n minus the VALUE of the common bit |
| MealyAutomata.CanBeMergedAsWrittenCounterexample | src/structures/mealy/MealyAutomaton.java:177-179 | for three variables all labels setting the first one, the as-written position is -1 |
| MealyAutomata.CanBeMerged | src/structures/mealy/MealyAutomaton.java:160-187 | corrected canBeMerged: merge only with equal destinations and actions; tautology for 2^n transitions; a variable iff exactly one bit is common, and then every label sets that variable; a NumberFormatException for n = 0 |
| MealyAutomata.CommonVariable | src/structures/mealy/MealyAutomaton.java:177-186 | exactly one common bit gives the variable every label sets; none or several give no merge |
| Backtracking.SymmetryBound | src/automaton_builders/BacktrackingAutomatonBuilder.java:117-121 | the dst loop tries exactly the destinations below the bound: every state 1..bound-2 has incoming transitions, and a bound below colorSize is at least 2 with no transitions into bound-1 |
| Backtracking.GroupByDst | src/automaton_builders/BacktrackingAutomatonBuilder.java:588-599 | groupByDst: one non-empty group per destination in increasing destination order, each holding exactly the edges to that destination in their input order |
| Backtracking.GroupsPartition | src/automaton_builders/BacktrackingAutomatonBuilder.java:588-599 | an edge is in the input iff it is in some group, and every edge of a group leads to that group's destination |
| Backtracking.Extensions | src/automaton_builders/BacktrackingAutomatonBuilder.java:554-555 | an event is an extension of a name iff it is one of the events and its label without the last variables characters is the name |
| Backtracking.EventExtensions | src/automaton_builders/BacktrackingAutomatonBuilder.java:551-558 | the map has exactly the event names as keys, each mapped to its extensions in event-list order |
| Backtracking.CheckAllOrNone | src/automaton_builders/BacktrackingAutomatonBuilder.java:568-577 | true iff none or all of the extensions have a tautology transition from the state |
| Backtracking.IsWeakComplete | src/automaton_builders/BacktrackingAutomatonBuilder.java:564-583 | true iff every state, for every event name, has transitions for none or for all of the name's extensions |
| Backtracking.Mode | src/automaton_builders/BacktrackingAutomatonBuilder.java:446-468 | an empty list is the AssertionError (None); otherwise the result is the element occurring most often, and among those the one whose count reaches the maximum first |
| Backtracking.IsModeUnique | src/automaton_builders/BacktrackingAutomatonBuilder.java:446-468 | the mode of a list is unique |
| Backtracking.ModeFewestMismatches | src/automaton_builders/BacktrackingAutomatonBuilder.java:494-506 | relabelling a transition with the mode makes no more errors than any other actions would |
| Backtracking.MismatchesCount | src/automaton_builders/BacktrackingAutomatonBuilder.java:500-504 | the errors counted for a label are the list length minus the label's occurrences |
| Backtracking.ClassifyGroup | src/automaton_builders/BacktrackingAutomatonBuilder.java:169-191 | a group is unmatched iff no event has a tautology transition; matched to d only if every event's transition has the group's actions and leads to d; a conflict otherwise |
| Backtracking.ClassifyEvents | src/automaton_builders/BacktrackingAutomatonBuilder.java:413-426 | the loop returns EventsVerdict over the events of a scenario position |
| Backtracking.EventsVerdictConflict | src/automaton_builders/BacktrackingAutomatonBuilder.java:413-426 | a position conflicts iff its events are neither all unmatched nor all matched into one state, and a match has at least one event |
| OrdinarySearch.OrdinaryTraverseState.constructor | src/automaton_builders/BacktrackingAutomatonBuilder.java:73-78 | an empty automaton of colorSize states, all colours and incoming counters 0, and the root's edges as the frontier |
| OrdinarySearch.OrdinaryTraverseState.FindNewFrontier | src/automaton_builders/BacktrackingAutomatonBuilder.java:83-104 | colours only nodes not coloured before; on failure some edge reached from the frontier conflicts (a transition with other actions) and the frontier is kept; on success every reached edge is either on the new frontier, unmatched by the automaton, or followed with equal actions into its coloured child |
| OrdinarySearch.OrdinaryTraverseState.Backtracking | src/automaton_builders/BacktrackingAutomatonBuilder.java:107-142 | never spends more ticks than it has; a found automaton is the completer's result for a table that follows every tree edge under some colouring giving the root the start state 0, with equal actions, and passes the verifier; when exhausted the automaton, frontier, incoming counters and fixed colours are as before and exactly the destinations below SymmetryBound were tried |
| OrdinarySearch.OrdinaryTraverseState.TryDestination | src/automaton_builders/BacktrackingAutomatonBuilder.java:123-140 | one round of the dst loop: the same outcome guarantees, with the transition removed and the counter restored when nothing is found |
| OrdinarySearch.OrdinaryTraverseState.Undo | src/automaton_builders/BacktrackingAutomatonBuilder.java:138-140 | removing the added transition and decrementing the counter gives back the table of before the addition |
| OrdinarySearch.OrdinaryTraverseState.Descend | src/automaton_builders/BacktrackingAutomatonBuilder.java:129-136 | findNewFrontier and verify, then the completer on an empty frontier or the recursive call: the same outcome guarantees |
| OrdinarySearch.CoveredDone | src/automaton_builders/BacktrackingAutomatonBuilder.java:129-132 | once the frontier is empty, the covered tree edges are all followed: the colouring, with the root still at state 0, is consistent with the automaton |
| GroupSearch.FindGroupFrontier | src/automaton_builders/BacktrackingAutomatonBuilder.java:158-195 | findNewFrontier of both multi-edge states: colours only new nodes; on failure a reached group conflicts; on success every reached group is on the new frontier (unmatched) or matched into its coloured child |
| GroupSearch.GroupFrontierStep | src/automaton_builders/BacktrackingAutomatonBuilder.java:162-191 | one pop of the worklist: a conflict, a move to the final frontier, or a colouring step, each strictly decreasing the worklist or the uncoloured nodes |
| GroupSearch.Added | src/automaton_builders/BacktrackingAutomatonBuilder.java:211-215 | one tautology transition per event of the group into dst, with the first edge's actions |
| GroupSearch.AddGroup | src/automaton_builders/BacktrackingAutomatonBuilder.java:211-220 | the strict (multi-edge) variant fails exactly when the group repeats an event; otherwise state s gains the group's transitions, one after another |
| GroupSearch.RemoveGroup | src/automaton_builders/BacktrackingAutomatonBuilder.java:235 | removes the keys of the added transitions from state s, in order |
| GroupSearch.UndoGroup | src/automaton_builders/BacktrackingAutomatonBuilder.java:234-236 | removal and the counter decrement give back the table and the counters of before the group was added |
| GroupSearch.AddRemoveGroup | src/automaton_builders/BacktrackingAutomatonBuilder.java:211-235 | adding a group's transitions under absent keys and removing them again restores the state |
| MultiEdgeSearch.MultiEdgeTraverseState.constructor | src/automaton_builders/BacktrackingAutomatonBuilder.java:148-153 | an empty automaton, all colours 0, and the root's edges grouped by destination as the frontier |
| MultiEdgeSearch.MultiEdgeTraverseState.FindNewFrontier | src/automaton_builders/BacktrackingAutomatonBuilder.java:158-195 | as GroupSearch.FindGroupFrontier, with the result installed as the frontier |
| MultiEdgeSearch.MultiEdgeTraverseState.Backtracking | src/automaton_builders/BacktrackingAutomatonBuilder.java:198-238 | a crash (AssertionError) only for a tree group that repeats an event; a found automaton is the completer's result for a table consistent with the grouped tree under a colouring giving the root state 0 that passes the verifier; exhaustion restores the automaton, frontier and counters and tries exactly the destinations below SymmetryBound |
| MultiEdgeSearch.MultiEdgeTraverseState.TryDestination | src/automaton_builders/BacktrackingAutomatonBuilder.java:205-237 | one round of the dst loop with the same guarantees |
| MultiEdgeSearch.MultiEdgeTraverseState.Descend | src/automaton_builders/BacktrackingAutomatonBuilder.java:225-232 | findNewFrontier and verify, then the completer or the recursive call |
| WeakSearch.WeakTraverseState.constructor | src/automaton_builders/BacktrackingAutomatonBuilder.java:246-252 | an empty automaton, the grouped root edges as frontier, and eventExtensions for every event name |
| WeakSearch.WeakTraverseState.FindNewFrontier | src/automaton_builders/BacktrackingAutomatonBuilder.java:257-294 | as GroupSearch.FindGroupFrontier, with the result installed as the frontier |
| WeakSearch.WeakTraverseState.Backtracking | src/automaton_builders/BacktrackingAutomatonBuilder.java:297-337 | never crashes; a found automaton is weakly complete and consistent with the grouped tree under some colouring giving the root state 0; exhaustion restores the state and tries exactly the destinations below SymmetryBound |
| WeakSearch.WeakTraverseState.TryDestination | src/automaton_builders/BacktrackingAutomatonBuilder.java:304-336 | one round of the dst loop with the same guarantees |
| WeakSearch.WeakTraverseState.Descend | src/automaton_builders/BacktrackingAutomatonBuilder.java:322-331 | findNewFrontier, then the weak completeness test on an empty frontier or the recursive call |
| ErrorWalk.Advance | src/automaton_builders/BacktrackingAutomatonBuilder.java:378-382 | the next position of the same scenario, and none exactly at the scenario's last position |
| ErrorWalk.WalkStaysMeaning | src/automaton_builders/BacktrackingAutomatonBuilder.java:408-439 | an element that stays on the frontier has its positions matched in a chain up to a position whose events have no transitions |
| ErrorWalk.WalkLeavesMeaning | src/automaton_builders/BacktrackingAutomatonBuilder.java:427-434 | an element that leaves the frontier is matched through the scenario's last position |
| ErrorWalk.WalkConflictMeaning | src/automaton_builders/BacktrackingAutomatonBuilder.java:420-426 | a failed walk reaches, through matched positions, a position whose events conflict |
| ErrorWalk.FrontierWalkSound | src/automaton_builders/BacktrackingAutomatonBuilder.java:404-442 | the walk over the whole frontier keeps only unmatched elements, never grows the frontier, and changes colours only beyond the elements' positions |
| ErrorWalk.WalkLeavesFollows | src/automaton_builders/BacktrackingAutomatonBuilder.java:408-434 | the walk from a position leaves the scenario iff the automaton follows it from that position's state to its end |
| ErrorWalk.RowFollows | src/automaton_builders/BacktrackingAutomatonBuilder.java:427-434 | a scenario coloured along a chain of followed positions through its last one is followed from every position to its end |
| ErrorWalk.RowWalked | src/automaton_builders/BacktrackingAutomatonBuilder.java:408-439 | the walk from the frontier position extends the part followed from state 0 to where the element stays, or through the last position when it leaves |
| ErrorWalk.FrontierWalkFollowed | src/automaton_builders/BacktrackingAutomatonBuilder.java:404-442 | after the walk over the frontier every scenario is followed from state 0 up to its new frontier position |
| ErrorWalk.FollowedAll | src/automaton_builders/BacktrackingAutomatonBuilder.java:533-536 | on an empty frontier every scenario is followed from state 0 through its last position |
| ErrorWalk.VerdictSkeleton | src/automaton_builders/BacktrackingAutomatonBuilder.java:494-507 | relabelling the actions changes no position's verdict |
| ErrorWalk.FollowedSkeleton | src/automaton_builders/BacktrackingAutomatonBuilder.java:539-546 | the followed part survives relabelling and colour changes beyond the frontier, so restoring the frontier backup keeps it |
| ErrorLabels.NoOccurrences | src/automaton_builders/BacktrackingAutomatonBuilder.java:474-479 | an empty occurrence list for every transition of every state |
| ErrorLabels.RecordPosition | src/automaton_builders/BacktrackingAutomatonBuilder.java:487-489 | the loop adds the position's actions to the list of each event's transition (RecordFrom) |
| ErrorLabels.ReplayScenario | src/automaton_builders/BacktrackingAutomatonBuilder.java:481-491 | the replay of one scenario from the start state (ReplayFrom) |
| ErrorLabels.CollectOccurrences | src/automaton_builders/BacktrackingAutomatonBuilder.java:474-492 | the replay of all scenarios (Occurrences) |
| ErrorLabels.CountMismatches | src/automaton_builders/BacktrackingAutomatonBuilder.java:500-504 | the number of occurrences that differ from the mode |
| ErrorLabels.RelabelState | src/automaton_builders/BacktrackingAutomatonBuilder.java:495-505 | a crash iff some transition of the state has no occurrences; otherwise only state s changes, each transition relabelled with the mode of its occurrences, and errors is the state's mismatch count |
| ErrorLabels.RelabelTransition | src/automaton_builders/BacktrackingAutomatonBuilder.java:496-504 | one transition is removed and re-added with the mode of its list, which appends it; an empty list is the AssertionError |
| ErrorLabels.Label | src/automaton_builders/BacktrackingAutomatonBuilder.java:473-508 | crashes exactly when the replay or a mode fails; otherwise keeps the transitions up to their actions, labels every transition with the mode of its occurrences, and ok iff the errors are at most errorNumber |
| ErrorLabels.RelabelledFewestErrors | src/automaton_builders/BacktrackingAutomatonBuilder.java:494-507 | labelling by majority gives no more errors than any other labelling of the same transitions |
| ErrorLabels.MajorityVoteDecides | src/automaton_builders/BacktrackingAutomatonBuilder.java:507 | label succeeds iff SOME labelling of the transitions stays within errorNumber errors |
| ErrorSearch.ErrorTraverseState.constructor | src/automaton_builders/BacktrackingAutomatonBuilder.java:385-399 | one frontier element at position 0 of every scenario, every position coloured 0, an empty automaton, and eventExtensions for every event name |
| ErrorSearch.ErrorTraverseState.WalkElement | src/automaton_builders/BacktrackingAutomatonBuilder.java:407-440 | the walk of one element changes only its scenario's colours, as WalkFrom says |
| ErrorSearch.ErrorTraverseState.WalkFrontier | src/automaton_builders/BacktrackingAutomatonBuilder.java:404-442 | ok iff the frontier walk meets no conflict; then the frontier and colouring are the walk's result, all elements unmatched |
| ErrorSearch.ErrorTraverseState.FindNewFrontier | src/automaton_builders/BacktrackingAutomatonBuilder.java:404-444 | a conflict leaves automaton and frontier; otherwise the frontier and colours follow the walk, a crash is a label crash, and ok iff the relabelled automaton stays within errorNumber |
| ErrorSearch.ErrorTraverseState.Backtracking | src/automaton_builders/BacktrackingAutomatonBuilder.java:511-548 | a found automaton is weakly complete, follows every scenario from state 0 through its last position, and is a labelling within errorNumber of some automaton; a crash comes from a label crash; exhaustion restores frontier, counters and transitions up to actions, and tries exactly the destinations below SymmetryBound |
| ErrorSearch.ErrorTraverseState.TryDestination | src/automaton_builders/BacktrackingAutomatonBuilder.java:516-547 | one round of the dst loop with the same guarantees |
| ErrorSearch.ErrorTraverseState.Descend | src/automaton_builders/BacktrackingAutomatonBuilder.java:531-542 | findNewFrontier, then acceptance or recursion, with the same guarantees |
| ErrorSearch.VerdictFresh | src/automaton_builders/BacktrackingAutomatonBuilder.java:519-528 | adding transitions for events the state lacked keeps every position the automaton followed |
| ErrorSearch.FollowedFresh | src/automaton_builders/BacktrackingAutomatonBuilder.java:519-528 | so the scenarios stay followed from state 0 up to their frontier positions |
| ErrorSearch.AddedFor | src/automaton_builders/BacktrackingAutomatonBuilder.java:523-528 | one tautology transition with empty actions into dst per event of the position |
| ErrorSearch.AddEvents | src/automaton_builders/BacktrackingAutomatonBuilder.java:523-528 | state s gains those transitions one after another |
| ErrorSearch.UndoEvents | src/automaton_builders/BacktrackingAutomatonBuilder.java:544-546 | after removal the table is as before the addition up to the actions label changed, and the counters are restored |
| BacktrackingBuilder.Dispatch | src/automaton_builders/BacktrackingAutomatonBuilder.java:607-622 | the error search iff errorNumber >= 0; otherwise the weak-completeness search iff the flag is set; otherwise the ordinary search iff there are no variables, else the multi-edge search |
| BacktrackingBuilder.EmptyFrontier | src/automaton_builders/BacktrackingAutomatonBuilder.java:107-110 | on an empty frontier the time check comes first (no ticks: an empty result) and then frontier.get(0) throws |
| BacktrackingBuilder.Build | src/automaton_builders/BacktrackingAutomatonBuilder.java:601-631 | a returned automaton is acceptable for the search Dispatch picks (consistent with the tree under a colouring giving the root state 0, verified and completed; or weakly complete and consistent; or weakly complete, following every scenario from state 0 to its end and labelled within errorNumber); an escaping exception comes only from an empty root frontier, a group repeating an event, or a label crash |
| SimpleVerifier.Verify | src/qbf/egorov/verifier/SimpleVerifier.java:58-117 | the first search visits exactly the product nodes reachable from the start, each once; the candidates are one lasso per terminal node on a cycle plus, when a finite-counterexample node is reachable, a path to the first one visited; the result is the first minimal candidate, or the empty path with loop 0 when there is none |
| SimpleVerifier.BfsStep | src/qbf/egorov/verifier/SimpleVerifier.java:67-95 | one poll of the queue keeps the search invariant (visited nodes reachable, loops and the finite counterexample recorded for every node in visit order) and either visits a new node or shortens the queue |
| SimpleVerifier.BfsDone | src/qbf/egorov/verifier/SimpleVerifier.java:67-96 | when the queue is empty, a node was visited iff it is reachable from the start |
| SimpleVerifier.Visit | src/qbf/egorov/verifier/SimpleVerifier.java:72-86 | visiting a node records its finite counterexample if it is the first finite-counterexample node and its loop if it is a terminal node on a cycle |
| SimpleVerifier.FiniteFound | src/qbf/egorov/verifier/SimpleVerifier.java:72-83 | the path recorded at the first finite-counterexample node leads from the start to it with loop length 0 |
| SimpleVerifier.Expand | src/qbf/egorov/verifier/SimpleVerifier.java:88-94 | the queue gains one element per outgoing transition that has an event, linked to the visited element |
| SimpleVerifier.EnqueuedCovers | src/qbf/egorov/verifier/SimpleVerifier.java:90-94 | every outgoing transition with an event is enqueued |
| SimpleVerifier.SecondBfs | src/qbf/egorov/verifier/SimpleVerifier.java:119-159 | a counterexample is found iff the terminal node lies on a cycle, and it is then a lasso: a path from the start to the node followed by a loop back to it |
| SimpleVerifier.NoCycle | src/qbf/egorov/verifier/SimpleVerifier.java:125-158 | a second search that empties its queue without returning to its root proves the root is on no cycle |
| SimpleVerifier.LoopCounterexample | src/qbf/egorov/verifier/SimpleVerifier.java:128-146 | the path assembled from the two predecessor chains is a lasso through the root |
| SimpleVerifier.LassoOfPaths | src/qbf/egorov/verifier/SimpleVerifier.java:130-145 | a path from start to the root followed by a non-empty cycle through the root is a lasso whose loop is the cycle |
| SimpleVerifier.LassoFound | src/qbf/egorov/verifier/SimpleVerifier.java:130-145 | reversing the loop chain and the parent chain gives the prefix to the root followed by the loop of length loopLength |
| SimpleVerifier.AppendChain | src/qbf/egorov/verifier/SimpleVerifier.java:76-80 | walking the predecessor links appends the transitions of the chain in reverse order |
| SimpleVerifier.PathOfIsPath | src/qbf/egorov/verifier/SimpleVerifier.java:40-50 | the predecessor chain of a queue element is a path from the search's root to the element's node |
| SimpleVerifier.SelectMinimal | src/qbf/egorov/verifier/SimpleVerifier.java:100-116 | the empty path with loop 0 for no candidates; otherwise the earliest candidate with the shortest path and, among those, the shortest loop |
| TransitionCounting.TransitionCounter.constructor | src/qbf/egorov/transducer/verifier/TransitionCounter.java:19 | the counter starts with no marked transitions |
| TransitionCounting.TransitionCounter.EnterState | src/qbf/egorov/transducer/verifier/TransitionCounter.java:21-23 | entering a state leaves the marks and the counter invariant unchanged |
| TransitionCounting.TransitionCounter.LeaveState | src/qbf/egorov/transducer/verifier/TransitionCounter.java:25-27 | leaving a state marks every algorithm transition among its outgoing automaton transitions with true; the keys stay exactly the transitions marked since the last reset |
| TransitionCounting.TransitionCounter.ResetCounter | src/qbf/egorov/transducer/verifier/TransitionCounter.java:29-31 | the map is cleared and the count drops to 0 |
| TransitionCounting.TransitionCounter.CountVerified | src/qbf/egorov/transducer/verifier/TransitionCounter.java:37-46 | the count is the number of distinct transitions marked since the last reset, whatever value each was marked with |
| TransitionCounting.TransitionCounter.MarkTransitions | src/qbf/egorov/transducer/verifier/TransitionCounter.java:48-57 | the map afterwards is the old map with each non-null algorithm transition of an automaton transition put to leave, in order; other transitions are skipped |
| TransitionCounting.MarkedKeys | src/qbf/egorov/transducer/verifier/TransitionCounter.java:48-57 | marking adds exactly the recorded algorithm transitions to the key set |
| TransitionCounting.MarkedIdempotent | src/qbf/egorov/transducer/verifier/TransitionCounter.java:48-57 | marking the same outgoing transitions twice is the same as marking them once |
| TransitionCounting.MarkedCountUnchanged | src/qbf/egorov/transducer/verifier/TransitionCounter.java:45-57 | re-marking transitions already in the map does not change the count |
| TraceUtils.Fields | src/continuous_trace_builders/Utils.java:14 | `split(" +")` before Java drops trailing empty strings: at least one piece, none containing a space |
| TraceUtils.DropTrailingEmpty | src/continuous_trace_builders/Utils.java:14 | the result is a prefix of the pieces, does not end in an empty string, and only empty strings were dropped |
| TraceUtils.SplitString | src/continuous_trace_builders/Utils.java:10-19 | every field is non-empty and space-free, and the result is empty exactly when the line is blank |
| TraceUtils.SplitNonEmpty | src/continuous_trace_builders/Utils.java:14-17 | for a non-blank line the split is non-empty, its last piece is non-empty and only its first piece may be empty, so dropping at most one piece at each end is enough |
| TraceUtils.FieldsShape | src/continuous_trace_builders/Utils.java:14 | between runs of spaces only the first and last pieces can be empty |
| TraceUtils.FieldsWords | src/continuous_trace_builders/Utils.java:14 | the non-empty pieces between runs of spaces are exactly the words of the line |
| TraceUtils.SplitWords | src/continuous_trace_builders/Utils.java:14 | the non-empty pieces of `split(" +")` are exactly the words of the line |
| TraceUtils.TrimmedSplit | src/continuous_trace_builders/Utils.java:14-18 | for a non-blank line, cutting the leading and trailing empty piece keeps exactly the non-empty pieces |
| TraceUtils.SplitStringIsWords | src/continuous_trace_builders/Utils.java:10-19 | on a line whose only whitespace is ' ', splitString returns exactly its words |
| TransitionConditions.TransitionCondition.constructor | src/qbf/egorov/ltl/buchi/impl/TransitionCondition.java:21-24 | both expression sets start empty |
| TransitionConditions.TransitionCondition.FromSets | src/qbf/egorov/ltl/buchi/impl/TransitionCondition.java:26-29 | the condition holds exactly the given sets |
| TransitionConditions.TransitionCondition.GetValue | src/qbf/egorov/ltl/buchi/impl/TransitionCondition.java:39-51 | true exactly when every positive expression is known true and every negated one known false; an unknown (null) value makes it false |
| TransitionConditions.TransitionCondition.AddExpression | src/qbf/egorov/ltl/buchi/impl/TransitionCondition.java:53-55 | the expression joins the positive set; the negated set is unchanged |
| TransitionConditions.TransitionCondition.AddNegExpression | src/qbf/egorov/ltl/buchi/impl/TransitionCondition.java:57-59 | the expression joins the negated set; the positive set is unchanged |
| TransitionConditions.AddExpressionStrengthens | src/qbf/egorov/ltl/buchi/impl/TransitionCondition.java:39-55 | after addExpression the condition holds exactly when it held before and the new expression is known true |
| TransitionConditions.AddNegExpressionStrengthens | src/qbf/egorov/ltl/buchi/impl/TransitionCondition.java:39-59 | after addNegExpression the condition holds exactly when it held before and the new expression is known false |
| TransitionConditions.TransitionCondition.ToString | src/qbf/egorov/ltl/buchi/impl/TransitionCondition.java:61-74 | for some enumeration of each set, the text is "true" when both are empty and otherwise the positive names then the "!"-prefixed negated names joined by " && " |
| TransitionConditions.AppendEach | src/qbf/egorov/ltl/buchi/impl/TransitionCondition.java:63-68 | the loop visits every element once, in some order, and appends prefix, its text and " && " for each |
| TransitionConditions.BufferJoin | src/qbf/egorov/ltl/buchi/impl/TransitionCondition.java:72 | cutting the last four characters of the " && "-terminated buffer gives the pieces joined by " && " |
| LtlPredicates.PredicateFactory.constructor | src/verification/ltl/grammar/PredicateFactory.java:18-19 | no state and no transition before the first setAutomataState |
| LtlPredicates.PredicateFactory.SetAutomataState | src/verification/ltl/grammar/PredicateFactory.java:26-29 | both fields are overwritten with the arguments |
| LtlPredicates.PredicateFactory.Event | src/verification/ltl/grammar/PredicateFactory.java:31-40 | unknown (null) exactly on a stutter step; otherwise true only for a transition with an event, and for a non-empty event exactly when the event is one of the comma-separated fields of e |
| LtlPredicates.PredicateFactory.Action | src/verification/ltl/grammar/PredicateFactory.java:31-45 | unknown (null) exactly on a stutter step; otherwise whether the transition performs z |
| LtlPredicates.Pieces | src/verification/ltl/grammar/PredicateFactory.java:39 | `split(",")` before trailing empties are dropped: at least one piece, none containing a comma |
| LtlPredicates.SplitFindsFields | src/verification/ltl/grammar/PredicateFactory.java:39 | a non-empty name is in the split of s exactly when it is a comma-delimited field of s |
| LtlPredicates.PiecesAreFields | src/verification/ltl/grammar/PredicateFactory.java:39 | the pieces of s are exactly its comma-delimited fields |
| TraceModel.ComputeIntervals | src/continuous_trace_builders/TraceModelGenerator.java:99-117 | the for-each loop over the values, with its min/max updates and its AssertionError, computes the specification IntervalsOf |
| TraceModel.IntervalsOfIncreasing | src/continuous_trace_builders/TraceModelGenerator.java:99-117 | for strictly increasing non-negative values intervals succeeds; no values give the single interval (-1, -1); otherwise the runs are separated by gaps of at least 2 and their union is exactly the values |
| TraceModel.ScanCovers | src/continuous_trace_builders/TraceModelGenerator.java:103-115 | from an open run the loop closes runs that stay separated and cover exactly the values already seen and still to come |
| TraceModel.MaximalRuns | src/continuous_trace_builders/TraceModelGenerator.java:106-113 | separated runs are maximal: the value just before and just after each run lies in no run |
| TraceModel.ScanOkIncreasing | src/continuous_trace_builders/TraceModelGenerator.java:104-113 | a scan that finishes without an error has seen strictly increasing values |
| TraceModel.IntervalsRejects | src/continuous_trace_builders/TraceModelGenerator.java:108-109 | for non-negative values, intervals raises its AssertionError exactly when they do not strictly increase |
| TraceModel.LongRanges | src/continuous_trace_builders/TraceModelGenerator.java:124-129 | intervals holding more than two values, kept in order; each has left + 1 < right |
| TraceModel.ShortEnds | src/continuous_trace_builders/TraceModelGenerator.java:122-126 | the TreeSet of both ends of every short interval, in strictly increasing order |
| TraceModel.SplitCovers | src/continuous_trace_builders/TraceModelGenerator.java:123-130 | splitting the intervals into long ranges and separate values loses no value and adds none |
| TraceModel.ExpressionCoversValues | src/continuous_trace_builders/TraceModelGenerator.java:119-135 | for strictly increasing non-negative values, v lies in a long range or among the separate values exactly when it is one of the values |
| TraceModel.ExpressWithIntervalsNuSMV | src/continuous_trace_builders/TraceModelGenerator.java:119-135 | no text exactly where intervals raises its AssertionError |
| TraceModel.NuSMVRangesAt | src/continuous_trace_builders/TraceModelGenerator.java:128 | each long range is rendered as left..right |
| TraceModel.NuSMVRangeInjective | src/continuous_trace_builders/TraceModelGenerator.java:128 | two ranges with the same a..b text are the same range |
| TraceModel.NuSMVTextMeaning | src/continuous_trace_builders/TraceModelGenerator.java:119-135 | for strictly increasing non-negative values, v is a value exactly when it lies in a range the NuSMV text lists or is written in its set of separate values |
| TraceModel.ExpressWithIntervalsSpin | src/continuous_trace_builders/TraceModelGenerator.java:137-155 | no text exactly where intervals raises its AssertionError |
| TraceModel.SpinRangesAt | src/continuous_trace_builders/TraceModelGenerator.java:146-147 | each long range becomes `var >= left && var <= right` |
| TraceModel.SpinEqualsAt | src/continuous_trace_builders/TraceModelGenerator.java:151 | each separate value becomes `var == value` |
| TraceModel.SpinRangeInjective | src/continuous_trace_builders/TraceModelGenerator.java:146-147 | two ranges with the same SPIN condition are the same range |
| TraceModel.SpinEqualInjective | src/continuous_trace_builders/TraceModelGenerator.java:151 | two values with the same SPIN equality are the same value |
| TraceModel.SpinRangeNotEqual | src/continuous_trace_builders/TraceModelGenerator.java:146-151 | a range condition is never an equality |
| TraceModel.SpinTextMeaning | src/continuous_trace_builders/TraceModelGenerator.java:137-155 | for strictly increasing non-negative values, v is a value exactly when one of the " \|\| " disjuncts is a range condition around v or the equality of v |
| TraceModel.RenderedPrefix | src/continuous_trace_builders/TraceModelGenerator.java:128 | a decimal integer followed by a separator that cannot start a number is read back whole |
| QbfBuilder.Bits | src/QbfBuilderMain.java:202-204 | the variable-value suffix has exactly varNumber characters |
| QbfBuilder.BitsSnoc | src/QbfBuilderMain.java:202-204 | one more variable appends the next higher bit of j |
| QbfBuilder.BitsRoundTrip | src/QbfBuilderMain.java:200-204 | reading the suffix back as a little-endian binary number gives j whenever j < 2^varNumber |
| QbfBuilder.EventName | src/QbfBuilderMain.java:199-205 | the name is the letter 'A' + i followed by the varNumber bits of j |
| QbfBuilder.Block | src/QbfBuilderMain.java:200-206 | letter i's block holds, at position k, the event name of i with variable values k |
| QbfBuilder.EventList | src/QbfBuilderMain.java:197-207 | every event name has varNumber + 1 characters and starts with one of the first eventNumber letters |
| QbfBuilder.EventListLength | src/QbfBuilderMain.java:198-207 | the event list has eventNumber * 2^varNumber names |
| QbfBuilder.BlockDistinct | src/QbfBuilderMain.java:200-206 | within one letter's block every name is different |
| QbfBuilder.EventListDistinct | src/QbfBuilderMain.java:197-207 | the event list names no event twice |
| QbfBuilder.EventNames | src/QbfBuilderMain.java:197-207 | the three nested loops build exactly the event list |
| QbfBuilder.ActionNames | src/QbfBuilderMain.java:209-212 | actionNumber distinct actions, action i being "z" followed by i in decimal |
| QbfBuilder.CheckBfs | src/QbfBuilderMain.java:303-330 | the dequeued states start at the start state, are distinct and in range, and are closed under the tautology transitions (a breadth-first tree links each to an earlier one); the result is true exactly when they came out in ascending order |
| QbfBuilder.ExpandState | src/QbfBuilderMain.java:312-321 | after the loop over the events of the dequeued state, every successor of it is enqueued, earlier entries are kept and the search invariant holds |
| QbfBuilder.VisitEdge | src/QbfBuilderMain.java:313-320 | the destination of an existing transition is in the queue afterwards; the queue only grows and the search invariant holds |
| QbfBuilder.EnqueueState | src/QbfBuilderMain.java:316-319 | enqueueing an unvisited successor keeps the search invariant and takes it out of the unvisited set |
| QbfBuilder.ClosedGrows | src/QbfBuilderMain.java:309-322 | closure over a prefix of the enqueued states survives enqueueing more states |
| NegativeScenarios.Lookup | src/structures/NegativeScenariosTree.java:62 | no destination exactly when no edge of the node carries this event, guard and actions; otherwise the destination of such an edge |
| NegativeScenarios.LookupSnoc | src/structures/NegativeScenariosTree.java:62-67 | adding one edge changes the lookup only of a key that was missing and that the edge carries |
| NegativeScenarios.LookupAppend | src/structures/NegativeScenariosTree.java:61-69 | adding edges keeps every destination already found |
| NegativeScenarios.AddMissingFinds | src/structures/NegativeScenariosTree.java:61-69 | after the loop every event of the step has an edge: the old destination if it had one, else d; other events are untouched, edges are only appended, and nothing changes exactly when every event already had an edge |
| NegativeScenarios.AddStepGrows | src/structures/NegativeScenariosTree.java:57-70 | addTransitions only grows the tree, by at most one node, creating the node exactly when some event of the step lacked an edge |
| NegativeScenarios.AddStepFinds | src/structures/NegativeScenariosTree.java:60-68 | every event of the step leads from src to its old destination or to the node numbered with the old node count; every other node keeps its edges and a new node has none |
| NegativeScenarios.AddStepKeepsValid | src/structures/NegativeScenariosTree.java:57-70 | addTransitions keeps every edge inside the tree, the new node getting an empty loop list |
| NegativeScenarios.AddStepValid | src/structures/NegativeScenariosTree.java:63-67 | appending edges to a fresh node keeps every edge inside the tree |
| NegativeScenarios.WalksExtends | src/structures/NegativeScenariosTree.java:40-46 | a walk of the scenario stays a walk when the tree grows |
| NegativeScenarios.WalksSnoc | src/structures/NegativeScenariosTree.java:44-45 | a walk extended along the first event of one more present step is a walk of the longer scenario |
| NegativeScenarios.WalkStep | src/structures/NegativeScenariosTree.java:40-46 | the walk of a prefix extends through one more step in a grown tree |
| NegativeScenarios.WalkStepAdded | src/structures/NegativeScenariosTree.java:44-45 | after addTransitions the step's first event has an edge, and following it extends the walk, with at most one node per step added |
| NegativeScenarios.PresentStep | src/structures/NegativeScenariosTree.java:44-45 | along a scenario already in the tree addTransitions changes nothing and the walk stays on it |
| NegativeScenarios.ProgressStart | src/structures/NegativeScenariosTree.java:38-39 | before the first step the walk is the root alone and nothing has changed |
| NegativeScenarios.ProgressStep | src/structures/NegativeScenariosTree.java:44-45 | one iteration keeps the loop invariant with the walk extended by the node reached |
| NegativeScenarios.ExtendsTrans | src/structures/NegativeScenariosTree.java:40-46 | growing the tree twice is growing it once |
| NegativeScenarios.LoopsStep | src/structures/NegativeScenariosTree.java:63-66 | the loop lists gain one empty list per node added |
| NegativeScenarios.NegativeScenariosTree.constructor | src/structures/NegativeScenariosTree.java:18-22 | a new tree is the root, node 0, without edges or loops |
| NegativeScenarios.NegativeScenariosTree.NodesCount | src/structures/NegativeScenariosTree.java:76-78 | at least one node, nodes numbered 0 .. count - 1, and every edge leads to one of them |
| NegativeScenarios.NegativeScenariosTree.GetDst | src/structures/NegativeScenariosTree.java:62 | a found destination is a node of the tree; none exactly when no edge of the node matches |
| NegativeScenarios.NegativeScenariosTree.AddTransitions | src/structures/NegativeScenariosTree.java:57-70 | the tree becomes the specification AddStep of the old one, with an empty loop list for a created node, and stays valid |
| NegativeScenarios.NegativeScenariosTree.AddLoop | src/structures/NegativeScenariosTree.java:51 | only the node's loop list changes, gaining loopNode at its end |
| NegativeScenarios.NegativeScenariosTree.Advance | src/structures/NegativeScenariosTree.java:44-45 | one iteration of addScenario: the walk invariant holds for one more step with the node reached |
| NegativeScenarios.NegativeScenariosTree.WalkScenario | src/structures/NegativeScenariosTree.java:38-49 | the walk covers the whole scenario and the loop node is the node reached after all but the last loopLength steps |
| NegativeScenarios.NegativeScenariosTree.AddScenario | src/structures/NegativeScenariosTree.java:37-52 | the tree only grows, by at most one node per step, the scenario is walked from the root, the final node gets a loop to the loop node, and a scenario already present leaves the edges as they were |
| MooreSimulation.Matching | src/structures/moore/NondetMooreAutomaton.java:656-660 | exactly the destinations of transitions on event e whose destination shows the given actions (set equality) |
| MooreSimulation.Successors | src/structures/moore/NondetMooreAutomaton.java:654-663 | the states a simulation step reaches are states of the automaton |
| MooreSimulation.SuccessorWitness | src/structures/moore/NondetMooreAutomaton.java:654-663 | every state flagged after a step is a matching destination of a flagged state |
| MooreSimulation.SuccessorFrom | src/structures/moore/NondetMooreAutomaton.java:654-663 | every matching destination of a flagged state is flagged after the step |
| MooreSimulation.Initial | src/structures/moore/NondetMooreAutomaton.java:643-649 | exactly the initial states whose actions set-equal the scenario's first actions |
| MooreSimulation.SetOf | src/structures/moore/NondetMooreAutomaton.java:643 | the states whose flag is set in the boolean array |
| MooreSimulation.SetOfUpdate | src/structures/moore/NondetMooreAutomaton.java:647 | setting a flag to true adds exactly that state |
| MooreSimulation.MatchingSnoc | src/structures/moore/NondetMooreAutomaton.java:656-660 | one more transition adds at most its own destination to the matches |
| MooreSimulation.FlagMatching | src/structures/moore/NondetMooreAutomaton.java:656-660 | after each transition of the inner loop the flags are the earlier flags plus the matches so far |
| MooreSimulation.InitialFlags | src/structures/moore/NondetMooreAutomaton.java:643-649 | a fresh flag array, one per state, whose set states are exactly Initial |
| MooreSimulation.ReachIsRuns | src/structures/moore/NondetMooreAutomaton.java:642-666 | the flagged set after position i is exactly the set of states where a run through positions 0..i can end |
| MooreSimulation.ReachHasRun | src/structures/moore/NondetMooreAutomaton.java:650-665 | every flagged state ends a run |
| MooreSimulation.RunInReach | src/structures/moore/NondetMooreAutomaton.java:650-665 | the last state of every run is flagged |
| MooreSimulation.PassesIffRun | src/structures/moore/NondetMooreAutomaton.java:642-666 | a scenario passes (some flag is set at the end) exactly when the automaton has a run reproducing all of it |
| MooreSpec.UsedFrom | src/structures/moore/NondetMooreAutomaton.java:656-660 | exactly the transitions of the state on event e whose destination shows the actions |
| MooreSpec.Used | src/structures/moore/NondetMooreAutomaton.java:654-663 | exactly the transitions one simulation step adds to supported, each from a flagged state |
| MooreSpec.RefsOf | src/structures/moore/NondetMooreAutomaton.java:674 | exactly the transitions of one state, by source, event and destination |
| MooreSpec.Refs | src/structures/moore/NondetMooreAutomaton.java:673-674 | exactly the transitions of the states below n |
| MooreSpec.RunSnoc | src/structures/moore/NondetMooreAutomaton.java:650-665 | a run extended by one matching transition is a run one position longer |
| MooreSpec.RunPrefix | src/structures/moore/NondetMooreAutomaton.java:650-665 | the first n states of a run of n + 1 positions form a run |
| MooreSpec.ScenarioUsedIsRunStep | src/structures/moore/NondetMooreAutomaton.java:650-665 | a transition is added to supported by a scenario's simulation exactly when it is the last step of some run of that scenario |
| MooreSpec.UsedHasRun | src/structures/moore/NondetMooreAutomaton.java:656-660 | every supported transition ends a run |
| MooreSpec.RunIsUsed | src/structures/moore/NondetMooreAutomaton.java:656-660 | the last transition of every run is supported |
| MooreSpec.Dsts | src/structures/moore/NondetMooreAutomaton.java:858-860 | exactly the destinations of the transitions |
| MooreSpec.AllDst | src/structures/moore/NondetMooreAutomaton.java:693 | exactly the destinations of the transitions on event e |
| MooreSpec.RemoveFirstCount | src/structures/moore/NondetMooreAutomaton.java:165-167 | removal takes away one occurrence of the transition, if any, and nothing else |
| MooreSpec.InitialSet | src/structures/moore/NondetMooreAutomaton.java:139-147 | exactly the initial states among the first n |
| MooreSpec.MoreThanOne | src/structures/moore/NondetMooreAutomaton.java:686 | a set has more than one element exactly when it holds two different ones |
| MooreSpec.FirstMatch | src/structures/moore/NondetMooreAutomaton.java:715-721 | a transition on e whose destination shows the actions, none exactly when there is no such transition |
| MooreSpec.FirstOn | src/structures/moore/NondetMooreAutomaton.java:769-774 | a transition on e, none exactly when there is no transition on e |
| MooreSpec.FailPos | src/structures/moore/NondetMooreAutomaton.java:704-757 | the first position the deterministic replay cannot reproduce lies between the start position and the scenario length |
| MooreSpec.WeakMatched | src/structures/moore/NondetMooreAutomaton.java:762-779 | the matched count is at most the number of positions replayed |
| MooreSpec.ReplayIsRun | src/structures/moore/NondetMooreAutomaton.java:704-728 | a replay that reproduces the rest of the scenario extends a run of the first positions to a run of all of it |
| MooreSpec.StrongCompliancePasses | src/structures/moore/NondetMooreAutomaton.java:639-728 | a scenario the replay from an initial state reproduces completely passes the subset simulation of compliesWith |
| MooreSpec.StrongImpliesWeak | src/structures/moore/NondetMooreAutomaton.java:704-779 | in a deterministic automaton a fully reproduced scenario also matches at every position under the weak replay |
| MooreSpec.PathSnoc | src/structures/moore/NondetMooreAutomaton.java:881-882 | a path followed by one more transition is a path, so its end is reachable |
| MooreSpec.ClosedHoldsPaths | src/structures/moore/NondetMooreAutomaton.java:871-885 | a set holding the initial states and closed under transitions holds the end of every path |
| MooreSpec.IndexOf | src/structures/moore/NondetMooreAutomaton.java:827 | the position of i in the permutation |
| MooreSpec.Inverse | src/structures/moore/NondetMooreAutomaton.java:827 | the inverse permutation, inverse on both sides |
| MooreSpec.RenameTransitions | src/structures/moore/NondetMooreAutomaton.java:841-844 | the same transitions in order, each destination d renamed perm[d] |
| MooreSpec.Relabel | src/structures/moore/NondetMooreAutomaton.java:827-852 | corrected relabelling: state perm[s] carries what state s carried |
| MooreSpec.RelabelTransitions | src/structures/moore/NondetMooreAutomaton.java:839-849 | state perm[s] gets the transitions of s with destinations renamed |
| MooreSpec.LabelsAsWritten | src/structures/moore/NondetMooreAutomaton.java:830-837 | as written, new state i takes the actions and initial flag of old state perm[i] |
| MooreSpec.RenamePath | src/structures/moore/NondetMooreAutomaton.java:840-842 | the states of a path renamed by perm |
| MooreSpec.RelabelKeepsRun | src/structures/moore/NondetMooreAutomaton.java:827-852 | a run of the automaton, renamed, is a run of the relabelled automaton |
| MooreSpec.RelabelReflectsRun | src/structures/moore/NondetMooreAutomaton.java:827-852 | a run of the relabelled automaton, renamed back, is a run of the automaton |
| MooreSpec.RelabelKeepsPasses | src/structures/moore/NondetMooreAutomaton.java:827-852 | relabelling the states by a permutation changes no scenario's verdict |
| MooreSpec.SwapAsWrittenCounterexample | src/structures/moore/NondetMooreAutomaton.java:830-849 | for the permutation [1, 2, 0] a scenario that passes no longer passes after swapStates as written, but still passes after the corrected relabelling |
| MooreSpec.LeastInitial | src/structures/moore/NondetMooreAutomaton.java:705 | the least initial state, initialStates().get(0) |
| MooreSpec.RelabelUnique | src/structures/moore/NondetMooreAutomaton.java:835-837 | any sequence that puts the entry of s at perm[s] is the relabelling |
| MooreSpec.RenameRefs | src/structures/moore/NondetMooreAutomaton.java:845-847 | exactly the renamed transitions of the set, source and destination mapped by perm |
| MooreSpec.SameDstsSameReachable | src/structures/moore/NondetMooreAutomaton.java:854-885 | reachability depends only on each state's destinations, so simplify keeps the reachable states |
| MooreAutomata.TransitionCount | src/structures/moore/NondetMooreAutomaton.java:52-54 | zero exactly when no state has a transition |
| MooreAutomata.TransitionCountAdd | src/structures/moore/NondetMooreAutomaton.java:52-54 | one more transition of one state adds one to the count |
| MooreAutomata.DstList | src/structures/moore/NondetMooreAutomaton.java:881-882 | the destinations of the transitions, in list order |
| MooreAutomata.Events | src/structures/moore/NondetMooreAutomaton.java:689-690 | contains the event of every transition of every state |
| MooreAutomata.MediumScore | src/structures/moore/NondetMooreAutomaton.java:733-757 | a ratio at most 1, equal to 1 exactly when the replay reproduced every position |
| MooreAutomata.MooreAutomaton.constructor | src/structures/moore/NondetMooreAutomaton.java:128-133 | states 0..statesCount-1 with the given actions, no transitions, the initial flags copied |
| MooreAutomata.MooreAutomaton.InitialStates | src/structures/moore/NondetMooreAutomaton.java:139-147 | the initial states, each once, in ascending order |
| MooreAutomata.MooreAutomaton.TransitionNumber | src/structures/moore/NondetMooreAutomaton.java:52-54 | the number of transitions of all states |
| MooreAutomata.MooreAutomaton.AddTransition | src/structures/moore/NondetMooreAutomaton.java:161-163 | only state s changes, gaining t at its end; the count grows by one |
| MooreAutomata.MooreAutomaton.RemoveTransition | src/structures/moore/NondetMooreAutomaton.java:165-167 | only state s changes, losing its first transition equal to t |
| MooreAutomata.MooreAutomaton.CompliesWith | src/structures/moore/NondetMooreAutomaton.java:639-683 | the automaton is unchanged; true exactly when every scenario's verdict equals positive; with marking on and a true result, every transition no simulation took is added to the unsupported set, otherwise the set is unchanged |
| MooreAutomata.MooreAutomaton.SimulateAll | src/structures/moore/NondetMooreAutomaton.java:642-670 | the loop stops at the first differing verdict; when none differs, supported is every transition all simulations took |
| MooreAutomata.MooreAutomaton.SimulateNext | src/structures/moore/NondetMooreAutomaton.java:643-669 | scenario k's verdict, with supported grown by its own transitions |
| MooreAutomata.MooreAutomaton.Simulate | src/structures/moore/NondetMooreAutomaton.java:643-666 | the verdict of one scenario and exactly the transitions its simulation takes |
| MooreAutomata.MooreAutomaton.Advance | src/structures/moore/NondetMooreAutomaton.java:650-665 | position i: the new flags are the reach after i, and supported grows by that step |
| MooreAutomata.MooreAutomaton.Step | src/structures/moore/NondetMooreAutomaton.java:653-664 | the new flags are exactly the successors of the flagged states, and taken is exactly the transitions used |
| MooreAutomata.MooreAutomaton.StepFrom | src/structures/moore/NondetMooreAutomaton.java:655-662 | after state j the flags and taken transitions include its matching transitions |
| MooreAutomata.MooreAutomaton.MarkUnsupported | src/structures/moore/NondetMooreAutomaton.java:672-680 | every transition outside supported is added to the unsupported set; nothing else changes |
| MooreAutomata.MooreAutomaton.MarkState | src/structures/moore/NondetMooreAutomaton.java:674-678 | every transition of state s outside supported is added to the unsupported set |
| MooreAutomata.MooreAutomaton.IsDeterministic | src/structures/moore/NondetMooreAutomaton.java:685-699 | true exactly when at most one state is initial and no state has two transitions on one event to different destinations |
| MooreAutomata.MooreAutomaton.StateDeterministic | src/structures/moore/NondetMooreAutomaton.java:691-697 | true exactly when every event leads from s to at most one destination |
| MooreAutomata.MooreAutomaton.FirstMatchingTransition | src/structures/moore/NondetMooreAutomaton.java:715-721 | the destination of the first transition on e whose destination shows the actions |
| MooreAutomata.MooreAutomaton.FirstTransitionOn | src/structures/moore/NondetMooreAutomaton.java:769-774 | the destination of the first transition on e |
| MooreAutomata.MooreAutomaton.Start | src/structures/moore/NondetMooreAutomaton.java:705 | the least initial state |
| MooreAutomata.MooreAutomaton.StrongCompliance | src/structures/moore/NondetMooreAutomaton.java:704-728 | 1 when the replay from the first initial state reproduces every position, else 0 |
| MooreAutomata.MooreAutomaton.MediumCompliance | src/structures/moore/NondetMooreAutomaton.java:733-757 | 1 when the replay reproduces every position, 0 when it fails at position 0, pos / size when it first fails at pos |
| MooreAutomata.MooreAutomaton.WeakCompliance | src/structures/moore/NondetMooreAutomaton.java:762-779 | the share of positions whose actions the state reached shows, at most 1 |
| MooreAutomata.MooreAutomaton.Copy | src/structures/moore/NondetMooreAutomaton.java:802-825 | a fresh automaton with the same states, actions, initial flags and transitions; a transition is unsupported in the copy when it is in the original |
| MooreAutomata.MooreAutomaton.CopyState | src/structures/moore/NondetMooreAutomaton.java:811-821 | state s gets the transitions of state s of the original, with their marks |
| MooreAutomata.MooreAutomaton.SwapStates | src/structures/moore/NondetMooreAutomaton.java:827-852 | corrected: state perm[s] carries the actions, initial flag and renamed transitions of state s, and the marks move with the transitions |
| MooreAutomata.MooreAutomaton.AddAllRenamed | src/structures/moore/NondetMooreAutomaton.java:839-849 | the transitions become the relabelled table and the marks the renamed marks |
| MooreAutomata.MooreAutomaton.AddRenamed | src/structures/moore/NondetMooreAutomaton.java:840-848 | state perm[s] gets the renamed transitions of state s, with their marks |
| MooreAutomata.MooreAutomaton.Simplify | src/structures/moore/NondetMooreAutomaton.java:854-869 | same states, actions and initial flags; each state gets one " " transition per destination it had, in ascending order |
| MooreAutomata.MooreAutomaton.Destinations | src/structures/moore/NondetMooreAutomaton.java:858-860 | the destinations of state s, ascending, each once |
| MooreAutomata.MooreAutomaton.SetSimplified | src/structures/moore/NondetMooreAutomaton.java:861-865 | only state s changes, getting one " " transition to each destination in order |
| MooreAutomata.MooreAutomaton.ReachableStates | src/structures/moore/NondetMooreAutomaton.java:871-885 | each state once, and a state is listed exactly when it is reachable from an initial state |
| MooreAutomata.MooreAutomaton.FrontierDone | src/structures/moore/NondetMooreAutomaton.java:874-884 | with the queue empty the visited states are exactly the reachable ones |
| MooreAutomata.MooreAutomaton.Visit | src/structures/moore/NondetMooreAutomaton.java:875-882 | the head of the queue is skipped when visited, else visited; the search invariant holds |
| MooreAutomata.MooreAutomaton.ReachableNext | src/structures/moore/NondetMooreAutomaton.java:881-882 | the destinations of a reachable state are reachable |
| MooreAutomata.PassesStep | src/structures/moore/NondetMooreAutomaton.java:642-670 | the scenarios whose verdict equals positive extend by scenario k when it does |
| MooreAutomata.AllUsedStep | src/structures/moore/NondetMooreAutomaton.java:642-670 | supported after k + 1 scenarios is supported after k plus scenario k's transitions |
| MooreAutomata.FailureNotCompliant | src/structures/moore/NondetMooreAutomaton.java:667-669 | a scenario whose verdict differs from positive breaks compliance |
| MooreAutomata.AllPassCompliant | src/structures/moore/NondetMooreAutomaton.java:642-682 | every scenario having the verdict positive is compliance |
| MooreAutomata.SkipState | src/structures/moore/NondetMooreAutomaton.java:655 | a state not flagged adds no successor and takes no transition |
| MooreAutomata.UsedFromSnoc | src/structures/moore/NondetMooreAutomaton.java:656-660 | one more transition is taken exactly when it matches |
| MooreAutomata.Relabelled | src/structures/moore/NondetMooreAutomaton.java:830-837 | the position-by-position loop builds the corrected relabelling |
| MooreAutomata.RelabelTransitionsUnique | src/structures/moore/NondetMooreAutomaton.java:839-849 | any table putting the renamed transitions of s at perm[s] is the relabelling |
| MooreAutomata.RenameRefsNext | src/structures/moore/NondetMooreAutomaton.java:839-849 | the renamed marks of the states below s + 1 are those below s plus those of s |
| MooreAutomata.ClosedHoldsReachable | src/structures/moore/NondetMooreAutomaton.java:871-885 | a set holding the initial states and closed under transitions holds every reachable state |
| MooreAutomata.RenameRefsStep | src/structures/moore/NondetMooreAutomaton.java:845-847 | one more transition of s renames to at most one more mark |
| PlantAutomata.PlantAutomaton.constructor | src/structures/plant/NondetMooreAutomaton.java:86-91 | states 0..statesCount-1 carrying the given actions, no transitions, the start flags copied |
| PlantAutomata.PlantAutomaton.StateCount | src/structures/plant/NondetMooreAutomaton.java:115-117 | one per state |
| PlantAutomata.PlantAutomaton.StartStates | src/structures/plant/NondetMooreAutomaton.java:97-105 | the start states, each once, in ascending order |
| PlantAutomata.PlantAutomaton.AllDst | src/structures/plant/NondetMooreAutomaton.java:211 | exactly the destinations of the state's transitions on the event, all states of the automaton |
| PlantAutomata.PlantAutomaton.AddTransition | src/structures/plant/NondetMooreAutomaton.java:119-121 | only the given state changes, gaining one transition with this event and destination |
| PlantAutomata.PlantAutomaton.NextStates | src/structures/plant/NondetMooreAutomaton.java:205-218 | the new flags are exactly the destinations, on the event and showing the actions, of the flagged states |
| PlantAutomata.PlantAutomaton.AddMatching | src/structures/plant/NondetMooreAutomaton.java:210-216 | after state j the flags include its matching destinations |
| PlantAutomata.PlantAutomaton.RunScenario | src/structures/plant/NondetMooreAutomaton.java:198-220 | true exactly when the scenario passes, which by MooreSimulation.PassesIffRun means the automaton has a run reproducing all of it |
| PlantAutomata.PlantAutomaton.IsCompliantWithScenarios | src/structures/plant/NondetMooreAutomaton.java:196-226 | true exactly when every scenario's verdict equals positive; an empty list gives true |
| PlantBuilder.Repeat | src/automaton_builders/PlantAutomatonBuilder.java:261-264 | the loop part written n times has n times its length |
| PlantBuilder.RepeatAt | src/automaton_builders/PlantAutomatonBuilder.java:261-264 | position j of copy i of the loop part is position j of the loop part |
| PlantBuilder.CollapseLoop | src/automaton_builders/PlantAutomatonBuilder.java:254-266 | the loop that builds the collapsed counterexample computes Collapsed |
| PlantBuilder.CollapsedShape | src/automaton_builders/PlantAutomatonBuilder.java:254-266 | the collapsed counterexample is well formed with loop length 0, has loopStart + size * loopLength positions, keeps the prefix, and copy i of the loop repeats the loop position by position |
| PlantBuilder.CollapseNoLoop | src/automaton_builders/PlantAutomatonBuilder.java:254-266 | a counterexample without a loop collapses to itself |
| PlantBuilder.NonEmpty | src/automaton_builders/PlantAutomatonBuilder.java:203-204 | exactly the non-empty counterexamples |
| PlantBuilder.CollapseAll | src/automaton_builders/PlantAutomatonBuilder.java:205 | each counterexample collapsed, in order |
| PlantBuilder.Dedup | src/automaton_builders/PlantAutomatonBuilder.java:206 | no repetition and exactly the same elements |
| PlantBuilder.CandidatesNonEmpty | src/automaton_builders/PlantAutomatonBuilder.java:203-207 | a non-empty counterexample leaves at least one candidate |
| PlantBuilder.ShortestIndex | src/automaton_builders/PlantAutomatonBuilder.java:213-221 | -1 exactly for no counterexamples; otherwise the first index of a shortest one |
| PlantBuilder.MinIndex | src/automaton_builders/PlantAutomatonBuilder.java:213-221 | the minimum-index loop, with Integer.MAX_VALUE as the initial length, returns ShortestIndex |
| PlantBuilder.Select | src/automaton_builders/PlantAutomatonBuilder.java:231-246 | the shortest global counterexample is added whenever there is one; the shortest normal one exactly when there is one and it is not longer than the global one, or there is no global one |
| PlantBuilder.ActionsOf | src/automaton_builders/PlantAutomatonBuilder.java:272-273 | exactly the names of the action list |
| PlantBuilder.CounterexampleScenario | src/automaton_builders/PlantAutomatonBuilder.java:268-276 | a well-formed scenario as long as the counterexample; position k has the single event k, the tautology guard and the actions of position k |
| PlantBuilder.Added | src/automaton_builders/PlantAutomatonBuilder.java:268-276 | one scenario for a counterexample, none otherwise |
| PlantBuilder.Coloring | src/automaton_builders/PlantAutomatonBuilder.java:47-59 | node n is coloured exactly when some true x_n_c exists, and its colour is that of one of them |
| PlantBuilder.ColoringAgrees | src/automaton_builders/PlantAutomatonBuilder.java:57-59 | a node all of whose true x variables name colour c has colour c |
| PlantBuilder.ColoringInRange | src/automaton_builders/PlantAutomatonBuilder.java:57-59 | the colour of a coloured node is a state, given the variables are in range |
| PlantBuilder.Decoded | src/automaton_builders/PlantAutomatonBuilder.java:71-79 | exactly the transitions the true y variables give state s |
| PlantBuilder.DecodedAll | src/automaton_builders/PlantAutomatonBuilder.java:71-79 | the decoded transitions of every state |
| PlantBuilder.DecodeLabels | src/automaton_builders/PlantAutomatonBuilder.java:41-65 | state s is a start state exactly when a true x variable colours a root with s; action x labels s exactly when a true z variable says so; the colouring is Coloring |
| PlantBuilder.DecodeLabel | src/automaton_builders/PlantAutomatonBuilder.java:48-64 | one true variable of the first pass keeps the decoding invariant |
| PlantBuilder.AddDecoded | src/automaton_builders/PlantAutomatonBuilder.java:71-79 | every state gets exactly its decoded transitions appended, in assignment order; nothing else changes |
| PlantBuilder.DecodedStep | src/automaton_builders/PlantAutomatonBuilder.java:73-78 | variable i appends its transition, if any, to its state and leaves the others alone |
| PlantBuilder.DecodedNext | src/automaton_builders/PlantAutomatonBuilder.java:73-78 | the decoded transitions of state s grow by what variable i adds to s |
| PlantBuilder.UsedBelowExactly | src/automaton_builders/PlantAutomatonBuilder.java:82-94 | the used set holds exactly the automaton transitions some forest edge maps onto under the colouring |
| PlantBuilder.UsedBelowWitness | src/automaton_builders/PlantAutomatonBuilder.java:83-93 | a used transition exists in the automaton and is the image of an edge of a forest node |
| PlantBuilder.UsedByNodeWitness | src/automaton_builders/PlantAutomatonBuilder.java:85-92 | a transition used by one node is the image of one of its edges |
| PlantBuilder.UsedByNodeHas | src/automaton_builders/PlantAutomatonBuilder.java:88-91 | the image of a node's edge that exists in the automaton is used |
| PlantBuilder.UsedBelowHas | src/automaton_builders/PlantAutomatonBuilder.java:83-94 | what a node uses is in the used set of every later prefix of the nodes |
| PlantBuilder.UsedTransitions | src/automaton_builders/PlantAutomatonBuilder.java:82-94 | the loops compute exactly the used set |
| PlantBuilder.HasTransition | src/automaton_builders/PlantAutomatonBuilder.java:104 | true exactly when the list has a transition on e to d |
| PlantBuilder.KeepUsed | src/automaton_builders/PlantAutomatonBuilder.java:97-115 | exactly the used transitions of the list, in order |
| PlantBuilder.PruneStepCount | src/automaton_builders/PlantAutomatonBuilder.java:100-113 | one step removes at most the transition handled and changes nothing when it is used |
| PlantBuilder.PruneStepOthers | src/automaton_builders/PlantAutomatonBuilder.java:100-113 | one step changes the multiplicity of no other transition |
| PlantBuilder.PruneStepEvents | src/automaton_builders/PlantAutomatonBuilder.java:102-107 | with completeness one step keeps every event of the list |
| PlantBuilder.PrunedBounds | src/automaton_builders/PlantAutomatonBuilder.java:97-115 | pruning only removes original transitions, and those not yet handled are all still there |
| PlantBuilder.PrunedKeepsUsed | src/automaton_builders/PlantAutomatonBuilder.java:100-101 | every used transition keeps its multiplicity |
| PlantBuilder.HasEventOf | src/automaton_builders/PlantAutomatonBuilder.java:104 | a transition in a list gives the list its event |
| PlantBuilder.PrunedKeepsEvents | src/automaton_builders/PlantAutomatonBuilder.java:102-107 | with completeness the pruned state has exactly the events it had |
| PlantBuilder.RemoveFirstAt | src/automaton_builders/PlantAutomatonBuilder.java:103 | removing the first t from A + [t] + B, where A has no t, gives A + B |
| PlantBuilder.PrunedIncomplete | src/automaton_builders/PlantAutomatonBuilder.java:108-111 | without completeness the guard always holds, so the handled prefix keeps exactly its used transitions |
| PlantBuilder.PrunedWithoutCompleteness | src/automaton_builders/PlantAutomatonBuilder.java:108-111 | without completeness the pruned state keeps exactly its used transitions, in their order |
| PlantBuilder.PruneState | src/automaton_builders/PlantAutomatonBuilder.java:97-115 | only state s changes, to the pruned list |
| PlantBuilder.ConstructAutomaton | src/automaton_builders/PlantAutomatonBuilder.java:38-118 | a fresh automaton whose start flags and actions are those of the true x and z variables and whose transitions are the decoded ones after pruning |
| PlantBuilder.ConstructedKeepsUsed | src/automaton_builders/PlantAutomatonBuilder.java:82-115 | a transition some positive-forest edge maps onto is never removed and keeps its multiplicity |
| PlantBuilder.ConstructedWithin | src/automaton_builders/PlantAutomatonBuilder.java:97-115 | pruning only removes decoded transitions |
| PlantBuilder.ConstructedComplete | src/automaton_builders/PlantAutomatonBuilder.java:102-107 | with completeness every state keeps a transition on each event it had and gains no event |
| PlantBuilder.ConstructedIncomplete | src/automaton_builders/PlantAutomatonBuilder.java:108-111 | without completeness every state keeps exactly its used transitions, in decoding order |
| PlantBuilder.RoundAdds | src/automaton_builders/PlantAutomatonBuilder.java:196-246 | a round with a non-empty counterexample adds a well-formed counterexample to at least one forest |
| PlantBuilder.CandidatesWellFormed | src/automaton_builders/PlantAutomatonBuilder.java:203-212 | collapsed counterexamples are well formed |
| PlantBuilder.CollapsedWellFormed | src/automaton_builders/PlantAutomatonBuilder.java:254-266 | a collapsed counterexample has as many action lists as events |
| PlantBuilder.RunGrows | src/automaton_builders/PlantAutomatonBuilder.java:166-248 | every round the loop goes past adds at least one counterexample scenario and keeps those already added |
| PlantBuilder.Build | src/automaton_builders/PlantAutomatonBuilder.java:153-252 | the loop ends as the round-by-round specification Run says; a result is returned exactly when a satisfying assignment yields no non-empty counterexample, and it is the automaton constructed from that assignment |
| PlantBuilder.BuildRound | src/automaton_builders/PlantAutomatonBuilder.java:166-247 | one round: stop on an unsatisfiable result or on no counterexample, else add the chosen counterexamples |
| PlantBuilder.ChooseCounterexamples | src/automaton_builders/PlantAutomatonBuilder.java:196-246 | the minimum searches and the three-way choice give Select of the candidates |
| ScenarioLtlBuilder.ColorNodes | src/automaton_builders/ScenarioAndLtlAutomatonBuilder.java:42-52 | a fresh array, one entry per tree node, holding for node n the colour of the last true x_n_c, 0 when there is none |
| ScenarioLtlBuilder.LastColorIsLast | src/automaton_builders/ScenarioAndLtlAutomatonBuilder.java:44-52 | a true x_n_c with no later true x variable for n decides the colour of n |
| ScenarioLtlBuilder.LastColorDefault | src/automaton_builders/ScenarioAndLtlAutomatonBuilder.java:42 | a node with no true x variable keeps the array's default colour 0 |
| ScenarioLtlBuilder.LastColorInRange | src/automaton_builders/ScenarioAndLtlAutomatonBuilder.java:49-51 | when every x variable's colour names a state, so does every node's last colour |
| ScenarioLtlBuilder.ColorsInRange | src/automaton_builders/ScenarioAndLtlAutomatonBuilder.java:49-51 | every node's colour names a state |
| ScenarioLtlBuilder.NodeCandidates | src/automaton_builders/ScenarioAndLtlAutomatonBuilder.java:58-63 | one offered transition per edge of the node, in order |
| ScenarioLtlBuilder.NodeCandidatesAt | src/automaton_builders/ScenarioAndLtlAutomatonBuilder.java:58-63 | the i-th transition node n offers is that of its i-th edge |
| ScenarioLtlBuilder.NodeCandidatesFit | src/automaton_builders/ScenarioAndLtlAutomatonBuilder.java:60-62 | a node's offered transitions lead to states when every colour does |
| ScenarioLtlBuilder.TreeCandidatesFit | src/automaton_builders/ScenarioAndLtlAutomatonBuilder.java:55-65 | the tree's offered transitions lead to states when every colour does |
| ScenarioLtlBuilder.TreeCandidatesHas | src/automaton_builders/ScenarioAndLtlAutomatonBuilder.java:55-65 | every edge of the first k nodes is offered |
| ScenarioLtlBuilder.AddAbsent | src/automaton_builders/ScenarioAndLtlAutomatonBuilder.java:59-63 | adding an offered transition keeps the number of states |
| ScenarioLtlBuilder.AddAllAbsent | src/algorithms/automaton_builders/ScenarioAndLtlAutomatonBuilder.java:58-70 | offering transitions in turn keeps the number of states (the copy in the algorithms package runs the same loop) |
| ScenarioLtlBuilder.FirstCandidateSnoc | src/automaton_builders/ScenarioAndLtlAutomatonBuilder.java:59 | one more offer changes the first candidate for a key only when there was none and it carries the key |
| ScenarioLtlBuilder.FirstCandidateSome | src/automaton_builders/ScenarioAndLtlAutomatonBuilder.java:59 | an offered candidate for a state and key means the first one exists |
| ScenarioLtlBuilder.AddAllAbsentValid | src/automaton_builders/ScenarioAndLtlAutomatonBuilder.java:55-65 | adding absent transitions keeps the table's size and every state's keys unique |
| ScenarioLtlBuilder.FirstWins | src/automaton_builders/ScenarioAndLtlAutomatonBuilder.java:55-65 | afterwards a state has on (event, guard) the transition it had before, else the first one offered for it, else none |
| ScenarioLtlBuilder.TreeTransitions | src/automaton_builders/ScenarioAndLtlAutomatonBuilder.java:54-65 | the tree's transitions give a table with one row per state and unique keys |
| ScenarioLtlBuilder.TreeTransitionsLookup | src/automaton_builders/ScenarioAndLtlAutomatonBuilder.java:54-65 | the transition a state takes on (event, guard) is the first the tree offers it |
| ScenarioLtlBuilder.TreeEdgeCovered | src/automaton_builders/ScenarioAndLtlAutomatonBuilder.java:54-65 | every scenario edge is covered: the state of its node's colour has a transition with its event and guard |
| ScenarioLtlBuilder.AddTreeTransitions | src/automaton_builders/ScenarioAndLtlAutomatonBuilder.java:55-65 | the loops over nodes and edges leave the automaton equal to AddAllAbsent of all tree offers, keys unique |
| ScenarioLtlBuilder.AddNodeTransitions | src/automaton_builders/ScenarioAndLtlAutomatonBuilder.java:58-64 | the edges of node i are offered in order |
| ScenarioLtlBuilder.AddTreeEdge | src/automaton_builders/ScenarioAndLtlAutomatonBuilder.java:59-63 | one edge is offered: added to its colour's state unless that state has its event and guard |
| ScenarioLtlBuilder.ProperActionsMembers | src/automaton_builders/ScenarioAndLtlAutomatonBuilder.java:85-92 | an action is proper exactly when a true z variable names it for the state and event |
| ScenarioLtlBuilder.CollectActions | src/automaton_builders/ScenarioAndLtlAutomatonBuilder.java:85-92 | the loop over the assignment collects ProperActions |
| ScenarioLtlBuilder.YStep | src/automaton_builders/ScenarioAndLtlAutomatonBuilder.java:72-121 | one y variable keeps the number of states |
| ScenarioLtlBuilder.Phase2 | src/automaton_builders/ScenarioAndLtlAutomatonBuilder.java:69-122 | the y variables in order keep the number of states |
| ScenarioLtlBuilder.Phase2Unfold | src/automaton_builders/ScenarioAndLtlAutomatonBuilder.java:69-122 | one more assignment is one more step when it is a y variable and changes nothing otherwise; a failure stays a failure |
| ScenarioLtlBuilder.YStepKeeps | src/automaton_builders/ScenarioAndLtlAutomatonBuilder.java:94-121 | one y step keeps the lookup of every key that had a transition or whose guard is not the tautology, and never shrinks a state |
| ScenarioLtlBuilder.LookupSnoc | src/automaton_builders/ScenarioAndLtlAutomatonBuilder.java:105-107 | appending a transition changes only the lookups of its key that had no transition |
| ScenarioLtlBuilder.Phase2Keeps | src/automaton_builders/ScenarioAndLtlAutomatonBuilder.java:69-122 | the completion never replaces a transition and only adds tautology transitions |
| ScenarioLtlBuilder.Phase2Fails | src/automaton_builders/ScenarioAndLtlAutomatonBuilder.java:101-103 | once a step fails the whole completion has failed |
| ScenarioLtlBuilder.NormalCoversYVars | src/automaton_builders/ScenarioAndLtlAutomatonBuilder.java:97-98 | with NORMAL every y variable is handled and afterwards its state has a tautology transition on its event |
| ScenarioLtlBuilder.NoDeadEndsFills | src/automaton_builders/ScenarioAndLtlAutomatonBuilder.java:99-100 | with NO_DEAD_ENDS every y variable is handled, its state ends with a transition, and a state that had transitions keeps them unchanged and no state gains more than one |
| ScenarioLtlBuilder.OtherCompletenessChecks | src/automaton_builders/ScenarioAndLtlAutomatonBuilder.java:80-103 | any other completeness type adds nothing, puts every y variable among the filtered ones, and fails (the AssertionError) exactly when some y variable's state lacks a tautology transition on its event |
| ScenarioLtlBuilder.DecodeWithoutCompleteness | src/automaton_builders/ScenarioAndLtlAutomatonBuilder.java:54-67 | without completeness only the tree's transitions are present and the decoding always succeeds with no filtered y variable and no warning |
| ScenarioLtlBuilder.DecodeKeepsTree | src/automaton_builders/ScenarioAndLtlAutomatonBuilder.java:54-123 | with completeness every transition the tree gives survives, and every guarded key keeps the tree's transition |
| ScenarioLtlBuilder.AddSolverTransition | src/automaton_builders/ScenarioAndLtlAutomatonBuilder.java:72-121 | the loop body for one y variable performs YStep on the automaton |
| ScenarioLtlBuilder.AddSolverTransitions | src/automaton_builders/ScenarioAndLtlAutomatonBuilder.java:69-122 | the loop over the y variables performs Phase2 on the automaton, stopping at the first failure |
| ScenarioLtlBuilder.ConstructAutomatonFromAssignment | src/automaton_builders/ScenarioAndLtlAutomatonBuilder.java:39-126 | no automaton exactly when the specification Decode fails (the AssertionError); otherwise a fresh automaton with Decode's transitions, supported y variables and warnings |
| ScenarioLtlBuilder.ToInt32 | src/automaton_builders/ScenarioAndLtlAutomatonBuilder.java:136 | Java's (int) cast: a value in the 32-bit range congruent to x modulo 2^32, x itself when it fits |
| ScenarioLtlBuilder.TimeLeftWhenAhead | src/automaton_builders/ScenarioAndLtlAutomatonBuilder.java:135-137 | with time left the result is at least 1 and bounds the milliseconds left from above |
| ScenarioLtlBuilder.TimeLeftWhenOverdue | src/automaton_builders/ScenarioAndLtlAutomatonBuilder.java:135-137 | when overdue the result is 1 minus the whole seconds overdue (Java's division truncating toward zero), at most 1, and exactly 1 when less than a second overdue |
| ScenarioLtlBuilder.TimeLeftWrapsAround | src/automaton_builders/ScenarioAndLtlAutomatonBuilder.java:136 | the cast precedes the division, so 2^31 milliseconds left gives -2147482 |
| ScenarioLtlBuilder.ReplaceLiteralAbsent | src/automaton_builders/ScenarioAndLtlAutomatonBuilder.java:130 | without an occurrence of the pattern String.replace changes nothing |
| ScenarioLtlBuilder.ReplaceLiteralChars | src/automaton_builders/ScenarioAndLtlAutomatonBuilder.java:130 | String.replace introduces no characters but those of the replacement, and does not lengthen with a shorter one |
| ScenarioLtlBuilder.ReplaceWordAbsent | src/automaton_builders/ScenarioAndLtlAutomatonBuilder.java:131-132 | without a whole-word occurrence replaceAll changes nothing |
| ScenarioLtlBuilder.ReplaceWordChars | src/automaton_builders/ScenarioAndLtlAutomatonBuilder.java:131-132 | replaceAll introduces no characters but those of the replacement, and does not lengthen with a shorter one |
| ScenarioLtlBuilder.WordBoundaries | src/automaton_builders/ScenarioAndLtlAutomatonBuilder.java:131 | the \b boundaries: and inside band is left alone, a whole and is replaced |
| ScenarioLtlBuilder.ReplaceLiteralSpace | src/automaton_builders/ScenarioAndLtlAutomatonBuilder.java:130 | String.replace of a pattern without a space works on the two sides of a space separately |
| ScenarioLtlBuilder.ReplaceLiteralShort | src/automaton_builders/ScenarioAndLtlAutomatonBuilder.java:130 | a string shorter than the pattern is left alone |
| ScenarioLtlBuilder.ReplaceLiteralMissing | src/automaton_builders/ScenarioAndLtlAutomatonBuilder.java:130 | a string without the pattern's first character is left alone |
| ScenarioLtlBuilder.ReplaceLiteralWhole | src/automaton_builders/ScenarioAndLtlAutomatonBuilder.java:130 | a string that is exactly the pattern is replaced whole |
| ScenarioLtlBuilder.WordAtSpace | src/automaton_builders/ScenarioAndLtlAutomatonBuilder.java:131-132 | a whole-word match never starts on a space |
| ScenarioLtlBuilder.WordAtLeft | src/automaton_builders/ScenarioAndLtlAutomatonBuilder.java:131-132 | before a space a whole-word match is judged on the left side alone |
| ScenarioLtlBuilder.WordAtRight | src/automaton_builders/ScenarioAndLtlAutomatonBuilder.java:131-132 | after a non-word character a whole-word match is judged on what follows alone |
| ScenarioLtlBuilder.ReplaceWordSpace | src/automaton_builders/ScenarioAndLtlAutomatonBuilder.java:131-132 | replaceAll of a word without a space works on the two sides of a space separately |
| ScenarioLtlBuilder.ReplaceWordShift | src/automaton_builders/ScenarioAndLtlAutomatonBuilder.java:131-132 | after a non-word character replaceAll over the rest is replaceAll over the rest alone |
| ScenarioLtlBuilder.ReplaceWordMissing | src/automaton_builders/ScenarioAndLtlAutomatonBuilder.java:131-132 | a string without the word's first character is left alone |
| ScenarioLtlBuilder.ReplaceWordWhole | src/automaton_builders/ScenarioAndLtlAutomatonBuilder.java:131-132 | a string that is exactly the word is replaced whole |
| ScenarioLtlBuilder.Ltl2LimbooleSpace | src/automaton_builders/ScenarioAndLtlAutomatonBuilder.java:128-133 | ltl2limboole rewrites the two sides of a space separately |
| ScenarioLtlBuilder.AndWord | src/automaton_builders/ScenarioAndLtlAutomatonBuilder.java:131 | the word and becomes & |
| ScenarioLtlBuilder.OrWord | src/automaton_builders/ScenarioAndLtlAutomatonBuilder.java:131 | the word or becomes \| |
| ScenarioLtlBuilder.NotWord | src/automaton_builders/ScenarioAndLtlAutomatonBuilder.java:132 | the word not becomes ! |
| ScenarioLtlBuilder.AndSymbol | src/automaton_builders/ScenarioAndLtlAutomatonBuilder.java:130 | && becomes & |
| ScenarioLtlBuilder.OrSymbol | src/automaton_builders/ScenarioAndLtlAutomatonBuilder.java:130 | \|\| becomes \| |
| ScenarioLtlBuilder.Ltl2LimbooleInfix | src/automaton_builders/ScenarioAndLtlAutomatonBuilder.java:128-133 | an operator between two spaces is rewritten on its own, and so are its operands |
| ScenarioLtlBuilder.Ltl2LimbooleAnd | src/automaton_builders/ScenarioAndLtlAutomatonBuilder.java:128-133 | a and b becomes a conjunction in limboole syntax |
| ScenarioLtlBuilder.Ltl2LimbooleAndSymbol | src/automaton_builders/ScenarioAndLtlAutomatonBuilder.java:128-133 | a && b becomes a conjunction in limboole syntax |
| ScenarioLtlBuilder.Ltl2LimbooleOr | src/automaton_builders/ScenarioAndLtlAutomatonBuilder.java:128-133 | a or b becomes a disjunction in limboole syntax |
| ScenarioLtlBuilder.Ltl2LimbooleOrSymbol | src/automaton_builders/ScenarioAndLtlAutomatonBuilder.java:128-133 | a \|\| b becomes a disjunction in limboole syntax |
| ScenarioLtlBuilder.Ltl2LimbooleNot | src/automaton_builders/ScenarioAndLtlAutomatonBuilder.java:128-133 | not a becomes a negation in limboole syntax |
| ScenarioLtlBuilder.Ltl2LimbooleChars | src/automaton_builders/ScenarioAndLtlAutomatonBuilder.java:128-133 | the rewriting introduces no characters but &, \| and !, and never lengthens the formula |
| ErrorLabels.Occurrences | src/automaton_builders/BacktrackingAutomatonBuilder.java:474-492 | the replay of every scenario gives an occurrence table shaped like the automaton, or nothing when a replay crashes |
| ErrorLabels.RelabelledRowFewest | src/automaton_builders/BacktrackingAutomatonBuilder.java:494-507 | relabelling a state's transitions by the modes of their occurrences makes no more errors than any other labelling of that state |
| ErrorLabels.RelabelledSkeleton | src/automaton_builders/BacktrackingAutomatonBuilder.java:495-505 | relabelling changes only actions: keys and destinations stay |
| ErrorSearch.ErrorTraverseState.WalkElements | src/automaton_builders/BacktrackingAutomatonBuilder.java:406-441 | the loop over the frontier elements walks them in turn (FrontierWalk), failing on a conflict, and colours only scenario positions past the frontier |
| ErrorSearch.ErrorTraverseState.Proceed | src/automaton_builders/BacktrackingAutomatonBuilder.java:533-541 | after a consistent labelling: an accepted automaton is weakly complete, follows every scenario from state 0 through its last position, and has a labelling within the error bound; a crash has a table whose labelling crashes; a rejected or exhausted branch restores the frontier, the incoming counts and the automaton up to actions |
| ErrorWalk.WalkFrom | src/automaton_builders/BacktrackingAutomatonBuilder.java:408-439 | the walk of one frontier element keeps every colour a state |
| ErrorWalk.WalkKeeps | src/automaton_builders/BacktrackingAutomatonBuilder.java:408-439 | the walk colours no position up to its start, and none past the position where it stays |
| ErrorWalk.FrontierWalk | src/automaton_builders/BacktrackingAutomatonBuilder.java:404-442 | the walk over the whole frontier keeps every colour a state |
| Backtracking.FindGroup | src/automaton_builders/BacktrackingAutomatonBuilder.java:588-599 | the position where destination d belongs in the ascending group map: every group before it has a smaller destination, the one at it none smaller |
| Backtracking.InsertDsts | src/automaton_builders/BacktrackingAutomatonBuilder.java:592-594 | a new group inserted at that position holds a destination no group had and keeps the destinations strictly ascending |
| Backtracking.SetShrinks | src/automaton_builders/BacktrackingAutomatonBuilder.java:97 | colouring one more node shrinks the set of uncoloured nodes, so findNewFrontier terminates |
| GroupSearch.KidGroups | src/automaton_builders/BacktrackingAutomatonBuilder.java:187 | the groups of a node's edges are exactly its child groups, and lead to distinct children of that node |
| GroupSearch.GWalkUnmatched | src/automaton_builders/BacktrackingAutomatonBuilder.java:189-190 | a popped group the automaton does not follow goes to the final frontier and the walk invariant holds |
| GroupSearch.GWalkMatched | src/automaton_builders/BacktrackingAutomatonBuilder.java:181-188 | a popped group the automaton follows into d colours the group's child with d, replaces the group by its child groups, and keeps the walk invariant |
| GroupSearch.GInitial | src/automaton_builders/BacktrackingAutomatonBuilder.java:148-153 | the start of the search satisfies its invariant: no transitions, all colours 0, the root's groups as frontier, none of them followed |
| GroupSearch.GRecolor | src/automaton_builders/BacktrackingAutomatonBuilder.java:234 | a colouring that agrees on the coloured nodes keeps the search invariant and an unfollowed frontier |
| GroupSearch.GCoveredWalk | src/automaton_builders/BacktrackingAutomatonBuilder.java:158-195 | findNewFrontier keeps every followed group followed: what the old frontier covered, the new frontier and colours cover |
| GroupSearch.GCoveredAdd | src/automaton_builders/BacktrackingAutomatonBuilder.java:211-220 | adding a group's transitions to a state without any of its events keeps every followed group followed |
| GroupSearch.AddEdge | src/automaton_builders/BacktrackingAutomatonBuilder.java:212-219 | one round of the inner loop adds the transition for the k-th edge, or throws the AssertionError exactly when the group repeats an event |
| GroupSearch.AddedLookup | src/automaton_builders/BacktrackingAutomatonBuilder.java:216 | the k-th edge's event already has a transition exactly when an earlier edge of the group has the same event |
| GroupSearch.CountIncoming | src/automaton_builders/BacktrackingAutomatonBuilder.java:221 | incomingTransitionNumbers[dst] goes up by one and nothing else changes |
| OrdinarySearch.WalkUnmatched | src/automaton_builders/BacktrackingAutomatonBuilder.java:93-94 | a popped edge the automaton does not follow goes to the final frontier and the walk invariant holds |
| OrdinarySearch.WalkMatched | src/automaton_builders/BacktrackingAutomatonBuilder.java:95-97 | a popped edge the automaton follows with the same actions colours its destination, replaces the edge by the destination's edges, and keeps the walk invariant |
| OrdinarySearch.Recolor | src/automaton_builders/BacktrackingAutomatonBuilder.java:138 | a colouring that agrees on the coloured nodes keeps the search invariant and an unfollowed frontier |
| OrdinarySearch.CoveredWalk | src/automaton_builders/BacktrackingAutomatonBuilder.java:83-104 | findNewFrontier keeps every followed edge followed |
| OrdinarySearch.CoveredAdd | src/automaton_builders/BacktrackingAutomatonBuilder.java:123-125 | adding a transition for a key its state had not keeps every followed edge followed |
| OrdinarySearch.RootSearchInv | src/automaton_builders/BacktrackingAutomatonBuilder.java:73-78 | the search starts with its invariant: the root's edges as frontier and only the root coloured |
| SimpleVerifier.ClosedNoReturn | src/qbf/egorov/verifier/SimpleVerifier.java:119-159 | when the second search closes without meeting the root, no followed path from the root returns to it |
| SimpleVerifier.ExploredCovers | src/qbf/egorov/verifier/SimpleVerifier.java:67-96 | a search that emptied its queue has visited every node a path reaches from a visited node |
| MealyAutomata.RemoveKeyMembers | src/automaton_builders/BacktrackingAutomatonBuilder.java:139 | removing a transition by key only drops transitions, and drops all with that key |
| MealyAutomata.SameSkeletonValid | src/automaton_builders/BacktrackingAutomatonBuilder.java:494-507 | whether a table is valid depends only on its keys and destinations, not its actions |
| MealyAutomata.StepTarget | src/structures/mealy/MealyAutomaton.java:77-89 | the state a scenario position leads to, when there is one, is a state |
| MealyAutomata.Missed | src/structures/mealy/MealyAutomaton.java:94-108 | at most one missed action per scenario position |
| MooreSpec.ExamplePasses | src/structures/moore/NondetMooreAutomaton.java:639-728 | the three-state example is closed and passes its scenario |
| MooreSpec.ExampleSwappedTransitions | src/structures/moore/NondetMooreAutomaton.java:839-849 | swapStates with [1,2,0] moves the example's transition to state 1 and its initial mark to state 2 |
| MooreSpec.ExampleAsWrittenFails | src/structures/moore/NondetMooreAutomaton.java:827-852 | the example's transitions and labels, relabelled as written, fail the scenario the original passes |
| Strings.Insert | src/structures/moore/NondetMooreAutomaton.java:858-860 | TreeSet.add keeps a strictly ascending sequence holding exactly the old elements and the new one |
| ScenarioTrees.RootFrontierShape | src/automaton_builders/BacktrackingAutomatonBuilder.java:77 | the root's edges form a frontier of the right shape with only the root coloured |
| ScenarioTrees.ShapeExpand | src/automaton_builders/BacktrackingAutomatonBuilder.java:95-97 | following the edge into h replaces h on the frontier by its children and colours h, keeping the frontier's shape |
| ScenarioTrees.DescThroughParent | src/automaton_builders/BacktrackingAutomatonBuilder.java:96 | the subtree of a child lies inside the subtree of its parent |
| ConstraintExtractor.Domain | src/apros/ConstraintExtractorNew.java:53 | the values 0 .. n-1 of a parameter with n intervals, in order |
| ConstraintExtractor.TextIsJoin | src/apros/ConstraintExtractorNew.java:46 | the range text joins the long ranges and the set of separate values with " union " |
| ConstraintExtractor.UnionOccurs | src/apros/ConstraintExtractorNew.java:49 | a range text of two or more parts contains "union" |
| ConstraintExtractor.SplitNonNegative | src/apros/ConstraintExtractorNew.java:49-52 | for non-negative values every range end and separate value is non-negative |
| ConstraintExtractor.PlainRangeIsSingle | src/apros/ConstraintExtractorNew.java:49-52 | a range text without "{" and "union" is one range a..b of non-negative ends, so split("..") and parseInt read exactly a and b |
| ConstraintExtractor.SortedUnique | src/apros/ConstraintExtractorNew.java:65 | two ascending duplicate-free sequences with the same members are equal, so a TreeSet is determined by its members |
| ConstraintExtractor.ScanRun | src/apros/ConstraintExtractorNew.java:46 | expressWithIntervals closes one interval over a run of consecutive values |
| ConstraintExtractor.DomainIntervals | src/apros/ConstraintExtractorNew.java:53 | the whole domain is the single interval 0..n-1 |
| ConstraintExtractor.JoinZeroOne | src/apros/ConstraintExtractorNew.java:47 | non-negative values render, joined by ", ", as "0, 1" only when they are 0 and 1 |
| ConstraintExtractor.SeparateValues | src/apros/ConstraintExtractorNew.java:46 | with no long range the values are exactly the separate values |
| ConstraintExtractor.ZeroOneText | src/apros/ConstraintExtractorNew.java:47 | the range text "{0, 1}" comes only from the values 0 and 1 |
| ConstraintExtractor.DomainTwoText | src/apros/ConstraintExtractorNew.java:47 | the values 0 and 1 render as "{0, 1}" |
| ConstraintExtractor.DomainRangeText | src/apros/ConstraintExtractorNew.java:49-53 | three or more values from 0 render as the plain range 0..n-1, without "{" or "union" |
| ConstraintExtractor.LongRangeText | src/apros/ConstraintExtractorNew.java:49-52 | an interval of three or more values renders as l..r |
| ConstraintExtractor.SingleRangeValues | src/apros/ConstraintExtractorNew.java:53 | one long range 0..n-1 and no separate value means the values are the domain of n, n >= 3 |
| ConstraintExtractor.DomainGivesTrue | src/apros/ConstraintExtractorNew.java:45-56 | interval gives "TRUE" for the whole domain of a parameter with two or more intervals |
| ConstraintExtractor.ConstrainedNotTrue | src/apros/ConstraintExtractorNew.java:57 | a membership constraint is never the text "TRUE" |
| ConstraintExtractor.TrueMeansDomain | src/apros/ConstraintExtractorNew.java:45-56 | interval gives "TRUE" only for the whole domain of a parameter with two or more intervals |
| ConstraintExtractor.IntervalTrue | src/apros/ConstraintExtractorNew.java:45-58 | interval gives "TRUE" exactly for the whole domain of a parameter with two or more intervals, and otherwise the (next-wrapped) output variable "in" the range text |
| ConstraintExtractor.Zip | src/apros/ConstraintExtractorNew.java:131-132 | the pairs of two aligned trace collections, element by element |
| ConstraintExtractor.InsertRowAll | src/apros/ConstraintExtractorNew.java:67-69 | inserting a trace's elements into a TreeSet keeps it ascending and duplicate-free |
| ConstraintExtractor.AllValues | src/apros/ConstraintExtractorNew.java:65-70 | the TreeSet of all trace elements is ascending and duplicate-free |
| ConstraintExtractor.CollectRow | src/apros/ConstraintExtractorNew.java:86-93 | inserting the elements of a trace whose key matches keeps the set ascending and duplicate-free |
| ConstraintExtractor.Collect | src/apros/ConstraintExtractorNew.java:85-94 | the set collected for a key is ascending and duplicate-free |
| ConstraintExtractor.AllValuesMembers | src/apros/ConstraintExtractorNew.java:65-70 | the TreeSet holds exactly the values seen in the traces |
| ConstraintExtractor.CollectMembers | src/apros/ConstraintExtractorNew.java:85-94 | the set of a key holds exactly the target values found at a step where the key traces hold the key |
| ConstraintExtractor.CollectEmpty | src/apros/ConstraintExtractorNew.java:89-91 | the set of a key is empty (the slot Java leaves null) exactly when the key never occurs, and holds only seen values |
| ConstraintExtractor.SeenNonNegative | src/apros/ConstraintExtractorNew.java:87 | values seen in the traces of a parameter index its intervals |
| ConstraintExtractor.AllValuesInRange | src/apros/ConstraintExtractorNew.java:65-70 | every value of the TreeSet indexes the parameter's intervals |
| ConstraintExtractor.SeenValues | src/apros/ConstraintExtractorNew.java:65-70 | the nested for-each loops fill the TreeSet AllValues |
| ConstraintExtractor.FillRow | src/apros/ConstraintExtractorNew.java:86-93 | one trace of the fill loop adds each step's target to the set of its key |
| ConstraintExtractor.FillSets | src/apros/ConstraintExtractorNew.java:84-94 | a fresh array of n sets, slot i holding Collect for key i |
| ConstraintExtractor.FillRow2 | src/apros/ConstraintExtractorNew.java:130-138 | one trace of the three-parameter fill loop adds each step's target to the set of its key pair |
| ConstraintExtractor.FillSets2 | src/apros/ConstraintExtractorNew.java:128-139 | a fresh n1 by n2 array of sets, slot (i, j) holding Collect for the key pair (i, j) |
| ConstraintExtractor.AddAllMembers | src/apros/ConstraintExtractorNew.java:312-313 | LinkedHashSet.add in turn keeps earlier constraints in place, stays duplicate-free, and holds exactly the old and the added ones |
| ConstraintExtractor.ConstraintSets.constructor | src/apros/ConstraintExtractorNew.java:312-313 | both constraint sets start empty |
| ConstraintExtractor.ConstraintSets.AddInit | src/apros/ConstraintExtractorNew.java:71 | an INIT constraint is added unless present; TRANS is unchanged |
| ConstraintExtractor.ConstraintSets.AddTrans | src/apros/ConstraintExtractorNew.java:72 | a TRANS constraint is added unless present; INIT is unchanged |
| ConstraintExtractor.AddValuesConstraints | src/apros/ConstraintExtractorNew.java:64-72 | one output adds its INIT and its TRANS constraint |
| ConstraintExtractor.Current1d | src/apros/ConstraintExtractorNew.java:60-74 | every output adds its INIT and TRANS constraint, in order |
| ConstraintExtractor.Current1dMeaning | src/apros/ConstraintExtractorNew.java:60-74 | an output's constraint is "TRUE" exactly when it takes every value of a domain of two or more somewhere in the traces; otherwise it lists exactly the values seen |
| ConstraintExtractor.BucketsValid | src/apros/ConstraintExtractorNew.java:84-94 | every filled slot is a TreeSet of valid indices |
| ConstraintExtractor.OptionKeys | src/apros/ConstraintExtractorNew.java:103-106 | the options are written for values below the parameter's count |
| ConstraintExtractor.OptionKeysMembers | src/apros/ConstraintExtractorNew.java:103-106 | the options are exactly the values with a non-null slot, ascending |
| ConstraintExtractor.JoinPairOptions | src/apros/ConstraintExtractorNew.java:102-111 | the option loop joins with " \| " one option per non-null slot in order |
| ConstraintExtractor.AddPairConstraints | src/apros/ConstraintExtractorNew.java:84-112 | one (i, j) pair adds its INIT and its TRANS constraint |
| ConstraintExtractor.Pairs | src/apros/ConstraintExtractorNew.java:78-81 | the visited pairs satisfy j < i < n |
| ConstraintExtractor.PairsMembers | src/apros/ConstraintExtractorNew.java:78-81 | every pair j < i < n is visited exactly once and no other, n(n-1)/2 in all |
| ConstraintExtractor.AddPairRow | src/apros/ConstraintExtractorNew.java:81-113 | the inner loop adds the constraints of the pairs (i, j), j < i, in order |
| ConstraintExtractor.Current2d | src/apros/ConstraintExtractorNew.java:76-115 | every output pair j < i adds its INIT and TRANS constraint, in loop order |
| ConstraintExtractor.PairConstraintMeaning | src/apros/ConstraintExtractorNew.java:84-111 | there is one option per value of pi that occurs, ascending, and it lists exactly the values of pj found with it |
| ConstraintExtractor.Grid | src/apros/ConstraintExtractorNew.java:128 | the filled array has n1 rows of n2 slots |
| ConstraintExtractor.GridValid | src/apros/ConstraintExtractorNew.java:128-139 | every slot is a TreeSet of valid indices |
| ConstraintExtractor.KeyPairs | src/apros/ConstraintExtractorNew.java:147-151 | the options are written for slots inside the array |
| ConstraintExtractor.KeyPairsMembers | src/apros/ConstraintExtractorNew.java:147-151 | the options are exactly the non-null slots |
| ConstraintExtractor.KeyPairsOrdered | src/apros/ConstraintExtractorNew.java:147-151 | the options come in row-major order |
| ConstraintExtractor.TripleRowOptions | src/apros/ConstraintExtractorNew.java:148-155 | the inner option loop writes one option per non-null slot of row i1, in order |
| ConstraintExtractor.JoinTripleOptions | src/apros/ConstraintExtractorNew.java:146-157 | the option loops join with " \| " one option per non-null slot in row-major order |
| ConstraintExtractor.AddTripleConstraints | src/apros/ConstraintExtractorNew.java:128-158 | one triple adds its INIT and its TRANS constraint |
| ConstraintExtractor.Triples | src/apros/ConstraintExtractorNew.java:119-125 | the visited triples satisfy k < j < i < n |
| ConstraintExtractor.TriplesMembers | src/apros/ConstraintExtractorNew.java:119-125 | every triple k < j < i < n is visited exactly once and no other |
| ConstraintExtractor.AddTripleRow | src/apros/ConstraintExtractorNew.java:125-159 | the innermost loop adds the constraints of the triples (i, j, k), k < j, in order |
| ConstraintExtractor.AddTripleBlock | src/apros/ConstraintExtractorNew.java:122-160 | the middle loop adds the constraints of the rows (i, j), j < i, in order |
| ConstraintExtractor.Current3d | src/apros/ConstraintExtractorNew.java:117-162 | every output triple k < j < i adds its INIT and TRANS constraint, in loop order |
| ConstraintExtractor.GridSlot | src/apros/ConstraintExtractorNew.java:128-139 | slot (i1, i2) holds exactly the values found together with i1 and i2 |
| ConstraintExtractor.CoOccurs3InRange | src/apros/ConstraintExtractorNew.java:131-132 | key values found together index their parameters' intervals |
| ConstraintExtractor.TripleConstraintMeaning | src/apros/ConstraintExtractorNew.java:128-157 | one option per pair of values of pi and pj found together, in row-major order, each listing exactly the values of pk found with them |
| ConstraintExtractor.ParameterSets | src/apros/ConstraintExtractorNew.java:167-170 | the LinkedHashSets hold each parameter once: all holds the inputs then the outputs, outs exactly the outputs |
| ConstraintExtractor.NextOptions | src/apros/ConstraintExtractorNew.java:190-197 | one option per value of the current parameter |
| ConstraintExtractor.JoinNextOptions | src/apros/ConstraintExtractorNew.java:189-198 | the option loop joins with " \| " the options of all values in order |
| ConstraintExtractor.AddNextConstraint | src/apros/ConstraintExtractorNew.java:177-198 | one (current, next) pair adds its TRANS constraint and no INIT constraint |
| ConstraintExtractor.NextPairsMembers | src/apros/ConstraintExtractorNew.java:171-176 | the pairs visited are exactly a parameter and an output that the cross-output rule does not skip |
| ConstraintExtractor.AddNextRow | src/apros/ConstraintExtractorNew.java:173-199 | the inner loop adds the TRANS constraints of every non-skipped next output, in order |
| ConstraintExtractor.CurrentNext2d | src/apros/ConstraintExtractorNew.java:164-201 | every non-skipped (current, next) pair adds its TRANS constraint in loop order; INIT is unchanged |
| ConstraintExtractor.NextConstraintMeaning | src/apros/ConstraintExtractorNew.java:178-197 | option i1 is the current condition (an interval of an input, a value of an output), then the next value's range when one was found with i1, and the sets hold exactly the values found |
| ConstraintExtractor.Next3dRowOptions | src/apros/ConstraintExtractorNew.java:244-251 | the inner option loop writes the options of row i1 in order |
| ConstraintExtractor.JoinNext3dOptions | src/apros/ConstraintExtractorNew.java:239-253 | the option loops join with " \| " the options of all slots, row by row |
| ConstraintExtractor.AddNext3dConstraint | src/apros/ConstraintExtractorNew.java:224-253 | one triple adds its TRANS constraint and no INIT constraint |
| ConstraintExtractor.Next3dTriplesMembers | src/apros/ConstraintExtractorNew.java:210-223 | the triples visited are exactly two different parameters and an output that neither skips under the cross-output rule |
| ConstraintExtractor.AddNext3dRow | src/apros/ConstraintExtractorNew.java:217-254 | the innermost loop adds the TRANS constraints of every next output neither parameter skips, in order |
| ConstraintExtractor.AddNext3dPart | src/apros/ConstraintExtractorNew.java:212-255 | the middle loop's body skips the second parameter equal to the first, else runs the innermost loop |
| ConstraintExtractor.AddNext3dBlock | src/apros/ConstraintExtractorNew.java:212-255 | the middle loop adds the constraints of every second parameter other than the first |
| ConstraintExtractor.AddNext3dBlocks | src/apros/ConstraintExtractorNew.java:210-256 | the outer loop adds the constraints of every first parameter |
| ConstraintExtractor.CurrentNext3d | src/apros/ConstraintExtractorNew.java:203-257 | every non-skipped triple adds its TRANS constraint in loop order; INIT is unchanged |
| ConstraintExtractor.Next3dConstraintMeaning | src/apros/ConstraintExtractorNew.java:225-251 | option (i1, i2) is both current conditions, then the next value's range when one was found with them, and each slot holds exactly the values found |
| AutomatonGeneration.NextInt | src/algorithms/AutomatonGenerator.java:107 | Random.nextInt(bound): a draw below bound, the stream advanced by one |
| AutomatonGeneration.RowSumConst | src/algorithms/AutomatonGenerator.java:103 | a state whose n cells all have power c has n * 2^c transitions |
| AutomatonGeneration.TableSumConst | src/algorithms/AutomatonGenerator.java:100 | m equal rows have m times one row's transitions |
| AutomatonGeneration.RowSumUpdate | src/algorithms/AutomatonGenerator.java:118-125 | changing one power changes the state's count by the difference of the cells' counts |
| AutomatonGeneration.TableSumUpdate | src/algorithms/AutomatonGenerator.java:123-125 | changing one state's row changes the total by the difference of the rows' counts |
| AutomatonGeneration.LowerKeepsState | src/algorithms/AutomatonGenerator.java:113-126 | lowering a cell, unless that would empty its state, keeps sum and stateSum equal to the counts the powers give |
| AutomatonGeneration.TransitionsPowers | src/algorithms/AutomatonGenerator.java:86-129 | the powers form a statesCount by eventsCount table of values in -1..varsCount giving at most transitionsCount transitions, with at least one in every state |
| AutomatonGeneration.RowSumPrefix | src/algorithms/AutomatonGenerator.java:156-157 | the count of a row prefix grows by the next cell's count |
| AutomatonGeneration.FirstCellExists | src/algorithms/AutomatonGenerator.java:155-160 | a state with a transition has a first non-empty cell |
| AutomatonGeneration.StateDestinations | src/algorithms/AutomatonGenerator.java:154-166 | for one state: one destination per transition, every one a state, the first one the next state (stateNum + 1) mod statesCount |
| AutomatonGeneration.Destinations | src/algorithms/AutomatonGenerator.java:141-170 | the same for every state |
| AutomatonGeneration.Choice | src/algorithms/AutomatonGenerator.java:172-186 | k candidates, each one of c, at distinct positions so distinct when c is; k = 0 always succeeds |
| AutomatonGeneration.ShiftRightStep | src/algorithms/AutomatonGenerator.java:222 | halving the mask once more is one more shift |
| AutomatonGeneration.LiteralsStep | src/algorithms/AutomatonGenerator.java:212-223 | one more variable adds one literal, negated when the mask's bit is 0 |
| AutomatonGeneration.MaskExpression | src/algorithms/AutomatonGenerator.java:209-224 | the guard of a mask is its literals joined by " & " |
| AutomatonGeneration.BitsDiffer | src/algorithms/AutomatonGenerator.java:209-223 | two different masks below 2^n differ in one of their lowest n bits |
| AutomatonGeneration.MasksGiveDistinctGuards | src/algorithms/AutomatonGenerator.java:209-224 | different masks of a cell give different guards |
| AutomatonGeneration.CellExpressions | src/algorithms/AutomatonGenerator.java:193-225 | the guards of a cell: none for power -1, "1" for power 0, else one conjunction per mask over variables chosen among vars |
| AutomatonGeneration.Expressions | src/algorithms/AutomatonGenerator.java:188-230 | every cell gets guards of that form, shaped like the powers |
| AutomatonGeneration.SlotActions | src/algorithms/AutomatonGenerator.java:243-252 | one transition's actions: a comma-joined list of at least minActions and at most maxActions drawn actions; none when maxActions < minActions, or when actions is empty but some must be drawn |
| AutomatonGeneration.ActionsTable | src/algorithms/AutomatonGenerator.java:232-258 | every transition slot gets such an action text, shaped like the powers |
| AutomatonGeneration.CellMember | src/algorithms/AutomatonGenerator.java:65-79 | the transitions of a cell are exactly those of its slots |
| AutomatonGeneration.RowMember | src/algorithms/AutomatonGenerator.java:63-80 | the transitions of a state are exactly those of its cells' slots |
| AutomatonGeneration.AllMember | src/algorithms/AutomatonGenerator.java:62-81 | a transition is generated exactly when it is the transition of some slot |
| AutomatonGeneration.CellCount | src/algorithms/AutomatonGenerator.java:65 | a cell gives one transition per slot |
| AutomatonGeneration.RowCount | src/algorithms/AutomatonGenerator.java:63-80 | a state gives as many transitions as its powers count |
| AutomatonGeneration.AllCount | src/algorithms/AutomatonGenerator.java:62-81 | as many transitions are generated as the powers count |
| AutomatonGeneration.Assemble | src/algorithms/AutomatonGenerator.java:61-83 | the assembly loop adds every slot's transition, in state, event and slot order |
| AutomatonGeneration.SlotGenerated | src/algorithms/AutomatonGenerator.java:62-81 | every slot's transition is in the automaton |
| AutomatonGeneration.NextStateTransition | src/algorithms/AutomatonGenerator.java:155-160 | a state with a transition has one to the next state |
| AutomatonGeneration.GeneratedCycle | src/algorithms/AutomatonGenerator.java:154-167 | every state has a transition to the next one, so the states form a cycle |
| AutomatonGeneration.SlotInRange | src/algorithms/AutomatonGenerator.java:162-163 | every destination is a state |
| AutomatonGeneration.GeneratedWellFormed | src/algorithms/AutomatonGenerator.java:61-83 | every generated transition joins two states, reads one of the events and carries a valid action text |
| AutomatonGeneration.Generate | src/algorithms/AutomatonGenerator.java:22-84 | at most transitionsCount transitions, each between states, on one of the first eventsCount letters, with actions among z0..z(actionsCount-1) within the bounds, and every state has a transition to the next |
| PlantText.JoinOccurs | src/apros/ConstraintExtractorNew.java:21 | every part occurs in the text String.join gives |
| PlantText.OccursMiddle | src/apros/ConstraintExtractorNew.java:262-287 | text appended around a piece keeps its occurrences |
| PlantText.PlantCaption | src/apros/ConstraintExtractorNew.java:19-29 | the caption is the MODULE PLANT header over the inputs' CONT_INPUT_ names, then VAR and one line per output |
| PlantText.VarLinesOccur | src/apros/ConstraintExtractorNew.java:25-27 | every output's VAR line occurs among the VAR lines |
| PlantText.OutputDeclared | src/apros/ConstraintExtractorNew.java:19-29 | every output is declared in the caption with its index range 0..valueCount-1 |
| PlantText.PlantConversions | src/apros/ConstraintExtractorNew.java:31-43 | DEFINE, then one case block per output, in order |
| PlantText.CaseBlock | src/apros/ConstraintExtractorNew.java:36-40 | one output's block: CONT_X := case, one line per value index mapping it to its NuSMV interval, esac |
| PlantText.CaseLinesOccur | src/apros/ConstraintExtractorNew.java:37-39 | every value index below n has its case line |
| PlantText.BlockOccurs | src/apros/ConstraintExtractorNew.java:36-40 | every value index has its case line in its output's block |
| PlantText.BlocksOccur | src/apros/ConstraintExtractorNew.java:35-41 | every value index of every output has its case line among the blocks |
| PlantText.ValueConverted | src/apros/ConstraintExtractorNew.java:31-43 | every value index of every output is converted in the DEFINE section |
| PlantText.WrapJoin | src/apros/ConstraintExtractorNew.java:270 | joining with ")\n  & (" inside one pair of parentheses is joining the parenthesised constraints with "\n  & " |
| PlantText.SectionConjuncts | src/apros/ConstraintExtractorNew.java:270 | an INIT or TRANS section is the conjunction of its constraints, each in parentheses, one per line |
| PlantText.EmptySectionIsTrue | src/apros/ConstraintExtractorNew.java:267-270 | an empty constraint set is written as (TRUE) |
| PlantText.ConjunctOccurs | src/apros/ConstraintExtractorNew.java:270 | every constraint of a section occurs in it parenthesised |
| PlantText.PrintRes | src/apros/ConstraintExtractorNew.java:259-293 | the count is taken before TRUE is inserted into an empty set; the sets are changed exactly so; the text is the caption, loop_executed, INIT, TRANS, ASSIGN and DEFINE sections over them |
| PlantText.PlantModuleAroundInit | src/apros/ConstraintExtractorNew.java:261-287 | the module text is its head, the INIT section, then TRANS and the rest |
| PlantText.InitConstraintWritten | src/apros/ConstraintExtractorNew.java:264-270 | every INIT constraint occurs in the module as a parenthesised conjunct |
| PlantText.TransConstraintWritten | src/apros/ConstraintExtractorNew.java:271-275 | every TRANS constraint occurs in the module as a parenthesised conjunct |
| Strings.DigitChar | src/apros/ConstraintExtractorNew.java:26 | the character of a decimal digit |
| Strings.NatToString | src/apros/ConstraintExtractorNew.java:26 | decimal digits, most significant first, no leading zero |
| Strings.IntToString | src/apros/ConstraintExtractorNew.java:26 | Integer.toString: a minus sign exactly for a negative number |
| Strings.NatToStringRoundTrip | src/apros/ConstraintExtractorNew.java:26 | reading back the digits gives the number |
| Strings.IntToStringInjective | src/apros/ConstraintExtractorNew.java:38 | different integers render differently |
| Strings.IntToStringChars | src/apros/ConstraintExtractorNew.java:38 | a rendered integer holds only digits and the minus sign |
| Strings.NegativeDigits | src/apros/ConstraintExtractorNew.java:26 | a negative number renders as the minus sign then the digits of its magnitude |
| Strings.JoinAppend | src/apros/ConstraintExtractorNew.java:21 | String.join of one more part appends the separator and the part |
| Strings.IntStrings | src/apros/ConstraintExtractorNew.java:38 | the rendering of each integer, in order |

## Left out

Abstractions of the collaborators and of the Java runtime:
- Actions are a `set<string>` (Common.Actions). StringActions keeps an ordered array and a joined string, and compares actions with setEquals, so only the order of printing is lost.
- Guards are opaque identifiers compared by equality. MyBooleanExpression parsing and evaluation are not part of this model.
- Transitions are compared by value: (source, event, guard, actions, destination) for Mealy, and (source, event, destination) for Moore. The source compares transition objects by identity. The two agree as long as no state holds two transitions with equal fields; the model would count such twins once in the unsupported-transition set.
- Java `int` width is not modelled: counters, state numbers and lengths are unbounded `nat`. The places where overflow is deliberate or reachable are modelled explicitly: the `(int)` cast in timeLeftForSolver (ScenarioLtlBuilder.TimeLeftWrapsAround), and `Integer.MAX_VALUE` as the "no candidate yet" length in PlantBuilder.
- QbfBuilder.EventNames: enumerates 2^varNumber assignments with an unbounded power of two. Java's `1 << varNumber` is taken modulo 32 and differs for varNumber >= 31.
- The wall clock is a tick budget that the backtracking search decrements at every entry. The solver's time limit is a flag on each round of PlantBuilder.Build.
- The SAT/QBF solver is the assignment it returns. Variable names are decoded structurally (x, y, z variables as datatypes), so `split("_")` and `parseInt` on solver output are not modelled.
- The LTL verifier is a predicate or a list of counterexamples per round, and the automaton completer is a function; both are parameters. The product construction behind SimpleVerifier is a given finite graph.
- MealyNode, MooreNode, NegativeNode, ScenarioTree and StringScenario are not part of this model. Their behaviour is modelled as used: MealyNode keeps transitions keyed by (event, guard), and NegativeNode.getDst returns the first edge with equal event, guard and actions.
- Logger output, `toString`/`toGraphvizString`/NuSMV and SPIN dumps of automata, file reading and writing, and `deleteTrash` are I/O.
- ConstraintExtractorNew.run (dataset loading, flags, println and the file write) is I/O. The constraint derivations and the PLANT text it prints are modelled (ConstraintExtractor, PlantText).
- ConstraintExtractor.IntervalConstraint, ConstraintExtractor.IntervalTrue, ConstraintExtractor.TextIsJoin, ConstraintExtractor.ScanRun and ConstraintExtractor.SeparateValues take the range text of interval to be the NuSMV rendering (NuSMVText, after TraceModelGenerator.expressWithIntervalsNuSMV). src/apros/ConstraintExtractorNew.java:46 calls a one-argument TraceModelGenerator.expressWithIntervals, which src/continuous_trace_builders/TraceModelGenerator.java does not define; it defines only the NuSMV form (line 119) and the SPIN form (line 137), and the SPIN form takes a second argument. The NuSMV form is the one whose "{...}", "union" and ".." syntax interval parses.
- LtlUtils.expandEventList is not part of this model. ScenarioLtlBuilder.Ltl2Limboole takes the formula with its event lists already expanded, and `\b` is read with ASCII word characters.
- The list forms of strongCompliance, mediumCompliance and weakCompliance (src/structures/moore/NondetMooreAutomaton.java:781-800) average doubles. Floating point is left out; the per-scenario measures are modelled, medium and weak as exact ratios.
- AutomatonGeneration.Generate: java.util.Random is a supplied stream of raw draws (AutomatonGeneration.Random). transitionsCount is taken as input because the percentage that computes it is a double. The rejection loops of getTransitionsPowers and choice carry a fuel bound and give up when it runs out. A generator that never leaves such a loop has no counterpart in the model.
- AutomatonGeneration.Generate: `(int) Math.pow(2, ...)` is an exact power of two, so the overflow of that cast for 31 or more variables is not modelled.

Inputs the model excludes where the source would throw (the throw itself is not modelled):
- MealyAutomata.MealyAutomaton.CompliesWith, MealyAutomata.MealyAutomaton.CalcMissedActions and every other scenario replay require MealyAutomata.WellFormedScenario, so every scenario position carries at least one event. With an empty event list, Java's `newNodes.get(0)` or `getEvents(pos).get(0)` throws IndexOutOfBoundsException. The scenario parser that guarantees at least one event is not part of this model.
- MealyAutomata.CanBeMerged and MealyAutomata.CanBeMergedAsWritten: the variable part must have at most 31 digits (MealyAutomata.MergeableLabels). With 32 or more, Integer.parseInt throws NumberFormatException when the value exceeds an int. With no variables the model returns NumberFormatError as Java throws it.
- MooreAutomata.MooreAutomaton.CompliesWith and PlantAutomata.PlantAutomaton.IsCompliantWithScenarios require non-empty scenarios (MooreSimulation.Scenarios). An empty scenario makes Java read `getActions(0)` and throw.
- MooreAutomata.MooreAutomaton.StrongCompliance, MooreAutomata.MooreAutomaton.MediumCompliance and MooreAutomata.MooreAutomaton.WeakCompliance require an initial state to exist. Java's `initialStates().get(0)` throws without one.
- BacktrackingBuilder.Build requires ScenarioTrees-style single edges (ScenarioTrees.SingleEdges) when it runs the ordinary search. The ordinary traverse state reads only the first event of each tree edge; scenario trees built without variables have one event per edge.
- BacktrackingBuilder.Build and ErrorSearch.ErrorTraverseState.constructor require every scenario to be non-empty for the error-tolerant search (ErrorWalk.NonEmptyScenarios). Java reads position 0 of every scenario and would throw otherwise.
- Backtracking.Extensions, Backtracking.EventExtensions, BacktrackingBuilder.ExtensionMap, BacktrackingBuilder.Acceptable, BacktrackingBuilder.Build, WeakSearch.WeakTraverseState.constructor and ErrorSearch.ErrorTraverseState.constructor require every event to have at least `variables` characters. For a shorter event, `e.substring(0, e.length() - variables)` in eventExtensions (src/automaton_builders/BacktrackingAutomatonBuilder.java:554) throws StringIndexOutOfBoundsException. The callers build every event as one letter followed by one digit per variable (src/QbfBuilderMain.java:197-207).
- NegativeScenarios.NegativeScenariosTree.AddScenario and NegativeScenarios.NegativeScenariosTree.WalkScenario require loopLength <= the scenario length. For a longer loop, Java's loopNode stays null and addLoop receives null.
- ScenarioLtlBuilder.ColorNodes, ScenarioLtlBuilder.ConstructAutomatonFromAssignment and ScenarioLtlBuilder.AddSolverTransitions require the true solver variables to name existing nodes and states (ColorVarsInRange, YVarsInRange). Java indexes its arrays and state list with them and would throw otherwise.
- PlantBuilder.Build, PlantBuilder.BuildRound and PlantBuilder.ChooseCounterexamples require the same of the plant solver's assignment (SolverFits). They also require candidate counterexamples to be shorter than Integer.MAX_VALUE (ShortCandidates), since that value is the minimum search's sentinel.

Behaviour modelled differently from the source:
- MooreAutomata.MooreAutomaton.SwapStates and MooreAutomata.MooreAutomaton.Simplify: the result's unsupported set holds only marks on its own transitions, namely the renamed copies of marked transitions for swapStates and none for simplify. Java's result also keeps the marks that copy() put on transition objects it then discards. No live transition is identical to those objects, so they change no query over the automaton's transitions, but they do appear in the set that unsupportedTransitions() returns.
- MooreAutomata.MooreAutomaton.SwapStates models the corrected relabelling; the code as written is under Findings.
- MealyAutomata.CanBeMerged models the corrected variable position; the code as written is under Findings.

## Findings

| source | as written | input that shows it | evidently intended | confidence | as-written member | corrected member |
|---|---|---|---|---|---|---|
| src/structures/mealy/MealyAutomaton.java:178 | `pos = getVariablesNumber() - Integer.highestOneBit(acc)` uses the value of the common bit (1, 2, 4, ...) as if it were its index | three variables, transitions on A100 and A101 with equal destination and actions: the common bit is bit 2 (value 4), giving pos = 3 - 4 = -1 instead of 0 | the position of the single common variable, counted from the left: n - 1 - (index of the bit) | not executed; proved on the model | MealyAutomata.CanBeMergedAsWritten, MealyAutomata.CanBeMergedAsWrittenCounterexample | MealyAutomata.CanBeMerged |
| src/structures/moore/NondetMooreAutomaton.java:827-852 | swapStates gives new state i the actions and initial flag of old state perm[i], but moves the transitions of old state s to new state perm[s] | perm [1, 2, 0] on three states, where 0 is initial with actions {a} and goes on e to 1 with actions {b}: the scenario "a, then e/b" passes before and fails after | a consistent relabelling in which new state perm[s] carries the actions, flag and transitions of old state s, so no scenario changes verdict | not executed; proved on the model | MooreSpec.LabelsAsWritten, MooreSpec.SwapAsWrittenCounterexample | MooreAutomata.MooreAutomaton.SwapStates (specified by MooreSpec.Relabel, MooreSpec.RelabelKeepsPasses) |
