/**
 * BacktrackingAutomatonBuilder.build: picks the search by its arguments (a
 * non-negative error number selects the error-tolerant search, otherwise
 * ensureCoverageAndWeakCompleteness the weak-completeness search, otherwise
 * zero variables the ordinary search and else the multi-edge search) and
 * translates how the search ended: a found automaton is returned, an
 * exhausted or timed-out search returns nothing, and an unchecked exception
 * (an empty initial frontier, an AssertionError) escapes build.
 */
module BacktrackingBuilder {
  import opened Common
  import opened MealyAutomata
  import opened ScenarioTrees
  import opened Backtracking
  import opened GroupSearch
  import opened OrdinarySearch
  import opened MultiEdgeSearch
  import opened WeakSearch
  import opened ErrorWalk
  import opened ErrorLabels
  import opened ErrorSearch

  /** The search build runs. */
  datatype SearchKind = WithErrors | CoverageAndWeakCompleteness | Ordinary | MultiEdges

  function Dispatch(errorNumber: int, ensureCoverageAndWeakCompleteness: bool, variables: nat): (k: SearchKind)
    ensures k == WithErrors <==> errorNumber >= 0
    ensures k == CoverageAndWeakCompleteness <==> errorNumber < 0 && ensureCoverageAndWeakCompleteness
    ensures k == Ordinary <==> errorNumber < 0 && !ensureCoverageAndWeakCompleteness && variables == 0
    ensures k == MultiEdges <==> errorNumber < 0 && !ensureCoverageAndWeakCompleteness && variables > 0
  {
    if errorNumber >= 0 then WithErrors
    else if ensureCoverageAndWeakCompleteness then CoverageAndWeakCompleteness
    else if variables == 0 then Ordinary
    else MultiEdges
  }

  /** eventExtensions as a map: the events of every event name. */
  ghost function ExtensionMap(events: seq<Event>, eventNames: seq<string>, variables: nat): map<string, seq<Event>>
    requires forall k :: 0 <= k < |events| ==> variables <= |events[k]|
  {
    map n | n in eventNames :: Extensions(events, n, variables)
  }

  /** What build promises of the automaton it returns, per search. */
  ghost predicate Acceptable(kind: SearchKind, tree: ScenarioTree, a: Table, verifier: Table -> bool, completer: Table -> Completion,
                             events: seq<Event>, eventNames: seq<string>, variables: nat, errorNumber: int,
                             scenarios: seq<Scenario>)
    requires forall k :: 0 <= k < |events| ==> variables <= |events[k]|
  {
    match kind
    case WithErrors =>
      WeakComplete(a, eventNames, ExtensionMap(events, eventNames, variables)) && errorNumber >= 0 &&
      FollowsAll(a, scenarios) &&
      var bound: nat := errorNumber;
      exists before: Table :: LabelledWithin(before, scenarios, a, bound)
    case CoverageAndWeakCompleteness =>
      WeakComplete(a, eventNames, ExtensionMap(events, eventNames, variables)) &&
      exists col: seq<nat>, c: set<nat> :: GConsistent(tree, a, col, c)
    case Ordinary =>
      exists before: Table, col: seq<nat>, c: set<nat> ::
        OrdinarySearch.Consistent(tree, before, col, c) && verifier(before) && completer(before) == Completed(a)
    case MultiEdges =>
      exists before: Table, col: seq<nat>, c: set<nat> ::
        GConsistent(tree, before, col, c) && verifier(before) && completer(before) == Completed(a)
  }

  /** A frontier grouped by destination is empty exactly when the edges are. */
  lemma GroupedEmpty(ts: seq<TreeEdge>, groups: seq<seq<TreeEdge>>)
    requires GroupedByDst(ts, groups)
    ensures groups == [] <==> ts == []
  {
    if ts != [] {
      assert ts[0] in ts;
    }
    if groups != [] {
      assert groups[0] == Filter(ts, Dsts(groups)[0]);
    }
  }

  /**
   * backtracking on an empty frontier: the time check comes first, then
   * frontier.get(0) throws.
   */
  function EmptyFrontier(clock: nat): (r: BuildResult)
    ensures r.Failure? <==> clock > 0
    ensures r.Success? ==> r.automaton.None?
  {
    if clock == 0 then Success(None) else Failure
  }

  /**
   * build. The time limit is a number of ticks; the LTL verifier and the
   * automaton completer are parameters.
   */
  method Build(tree: ScenarioTree, size: nat, clock: nat, verifier: Table -> bool, completer: Table -> Completion,
               events: seq<Event>, eventNames: seq<string>, variables: nat,
               ensureCoverageAndWeakCompleteness: bool, errorNumber: int, scenarios: seq<Scenario>)
    returns (r: BuildResult)
    requires ValidTree(tree)
    requires forall k :: 0 <= k < |events| ==> variables <= |events[k]|
    requires errorNumber < 0 && !ensureCoverageAndWeakCompleteness && variables == 0 ==> SingleEdges(tree)
    requires errorNumber >= 0 ==> NonEmptyScenarios(scenarios)
    ensures var kind := Dispatch(errorNumber, ensureCoverageAndWeakCompleteness, variables);
      (r.Success? && r.automaton.Some? ==>
         Acceptable(kind, tree, r.automaton.value, verifier, completer, events, eventNames, variables, errorNumber, scenarios)) &&
      (r.Failure? ==>
         match kind
         case WithErrors => scenarios == [] || exists a: Table :: ValidTable(a) && |a| >= 1 && LabelCrashes(a, scenarios)
         case CoverageAndWeakCompleteness => tree.edges[0] == []
         case Ordinary => tree.edges[0] == []
         case MultiEdges => tree.edges[0] == [] || exists g: Group :: GroupOk(tree, g) && RepeatedEvent(g))
  {
    var kind := Dispatch(errorNumber, ensureCoverageAndWeakCompleteness, variables);
    var outcome: Outcome;
    match kind {
      case WithErrors =>
        var s := new ErrorTraverseState(scenarios, size, clock, events, eventNames, variables, errorNumber as nat);
        assert s.ext == ExtensionMap(events, eventNames, variables);
        if s.frontier == [] {
          return EmptyFrontier(clock);
        }
        ghost var tried;
        outcome, tried := s.Backtracking();
      case CoverageAndWeakCompleteness =>
        var s := new WeakTraverseState(tree, size, clock, events, eventNames, variables);
        assert s.ext == ExtensionMap(events, eventNames, variables);
        GroupedEmpty(tree.edges[0], s.frontier);
        if s.frontier == [] {
          return EmptyFrontier(clock);
        }
        ghost var tried;
        outcome, tried := s.Backtracking();
      case Ordinary =>
        var s := new OrdinaryTraverseState(tree, verifier, completer, size, clock);
        if s.frontier == [] {
          return EmptyFrontier(clock);
        }
        ghost var tried;
        outcome, tried := s.Backtracking();
      case MultiEdges =>
        var s := new MultiEdgeTraverseState(tree, verifier, completer, size, clock);
        GroupedEmpty(tree.edges[0], s.frontier);
        if s.frontier == [] {
          return EmptyFrontier(clock);
        }
        ghost var tried;
        outcome, tried := s.Backtracking();
    }
    match outcome
    case Found(a) => r := Success(Some(a));
    case Exhausted => r := Success(None);
    case TimedOut => r := Success(None);
    case Crashed => r := Failure;
  }
}
