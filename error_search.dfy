/**
 * BacktrackingAutomatonBuilder.TraverseStateWithErrors: the search that
 * tolerates errors in the recorded actions. The frontier holds, per
 * scenario, the first position whose events the automaton does not follow;
 * the colouring records the automaton state of every position walked so
 * far. A new edge gets empty actions; after every change the actions of all
 * transitions are recomputed by majority vote over the scenarios (label),
 * and the branch is kept when the votes disagree at most errorNumber times.
 * An automaton whose frontier is empty is accepted when it is weakly
 * complete.
 */
module ErrorSearch {
  import opened Common
  import opened MealyAutomata
  import opened Backtracking
  import opened GroupSearch
  import opened ErrorWalk
  import opened ErrorLabels

  /** The transitions backtracking adds for the events of one position: into dst, empty actions. */
  function AddedFor(events: seq<Event>, dst: nat): (r: seq<MealyTransition>)
    ensures |r| == |events| && forall k :: 0 <= k < |events| ==> r[k] == MealyTransition(events[k], Tautology, {}, dst)
  {
    seq(|events|, k requires 0 <= k < |events| => MealyTransition(events[k], Tautology, {}, dst))
  }

  /** The transitions addEvents adds are all new in state s. */
  predicate FreshIn(ts: seq<MealyTransition>, L: seq<MealyTransition>)
  {
    forall k :: 0 <= k < |L| ==> Lookup(ts, L[k].event, L[k].guard).None?
  }

  /**
   * Removing the added transitions by key from a relabelling of ts + L gives
   * back ts up to the actions of the transitions.
   */
  lemma SkeletonRemoved(ts: seq<MealyTransition>, L: seq<MealyTransition>, a: seq<MealyTransition>)
    requires UniqueKeys(ts) && FreshIn(ts, L) && Erase(a) == Erase(PutAll(ts, L))
    ensures Erase(RemoveAll(a, L)) == Erase(ts)
  {
    EraseRemoveAll(a, L);
    EraseRemoveAll(PutAll(ts, L), L);
    PutAllRemoveAll(ts, L);
  }

  /**
   * The frontier is unmatched again after a change of actions and of colours
   * beyond the frontier positions.
   */
  lemma UnmatchedRestored(states: Table, states0: Table, scenarios: seq<Scenario>, col: Colouring, col0: Colouring,
                          f: seq<FrontierElement>)
    requires SameSkeleton(states, states0) && ElementsShape(scenarios, f)
    requires WellColoured(scenarios, col, |states|) && WellColoured(scenarios, col0, |states0|)
    requires Frozen(scenarios, col, col0, f) && AllElementsUnmatched(states0, scenarios, col0, f)
    ensures AllElementsUnmatched(states, scenarios, col, f)
  {
    forall k | 0 <= k < |f|
      ensures EventsUnmatched(states, col[f[k].scenarioIndex][f[k].scenarioPosition], ElementEvents(scenarios, f[k]))
    {
      var i, p := f[k].scenarioIndex, f[k].scenarioPosition;
      LimitOf(scenarios, f, k);
      var s := col[i][p];
      assert s == col0[i][p];
      var events := ElementEvents(scenarios, f[k]);
      forall j | 0 <= j < |events| ensures Lookup(states[s], events[j], Tautology).None? {
        SameKeys(states[s], states0[s], events[j], Tautology);
      }
    }
  }

  /** Adding transitions for keys a state lacks keeps every position that was followed. */
  lemma VerdictFresh(states0: Table, s: nat, L: seq<MealyTransition>, c: nat, events: seq<Event>)
    requires ValidTable(states0) && s < |states0| && c < |states0| && FreshIn(states0[s], L)
    requires EventsVerdict(states0, c, events).MatchedTo?
    ensures EventsVerdict(states0[s := PutAll(states0[s], L)], c, events) == EventsVerdict(states0, c, events)
  {
    var states1 := states0[s := PutAll(states0[s], L)];
    EventsVerdictConflict(states0, c, events);
    forall k | 0 <= k < |events| ensures Lookup(states1[c], events[k], Tautology) == Lookup(states0[c], events[k], Tautology) {
      if c == s {
        PutAllLookupOther(states0[s], L, events[k], Tautology);
      }
    }
    assert !EventsUnmatched(states1, c, events);
  }

  /** Adding transitions for keys a state lacks keeps the scenarios followed as far as they were. */
  lemma FollowedFresh(states0: Table, s: nat, L: seq<MealyTransition>, scenarios: seq<Scenario>, col: Colouring,
                      f: seq<FrontierElement>)
    requires ValidTable(states0) && s < |states0| && FreshIn(states0[s], L)
    requires WellColoured(scenarios, col, |states0|) && Followed(states0, scenarios, col, f)
    ensures Followed(states0[s := PutAll(states0[s], L)], scenarios, col, f)
  {
    var states1 := states0[s := PutAll(states0[s], L)];
    forall i, q | 0 <= i < |scenarios| && 0 <= q < |scenarios[i]| &&
                  EventsVerdict(states0, col[i][q], scenarios[i][q].events).MatchedTo?
      ensures EventsVerdict(states1, col[i][q], scenarios[i][q].events) == EventsVerdict(states0, col[i][q], scenarios[i][q].events)
    {
      VerdictFresh(states0, s, L, col[i][q], scenarios[i][q].events);
    }
    forall i | 0 <= i < |scenarios| ensures RowFollowed(states1, scenarios[i], col[i], Limit(scenarios, f, i)) {
      assert RowFollowed(states0, scenarios[i], col[i], Limit(scenarios, f, i));
    }
  }

  class ErrorTraverseState {
    const scenarios: seq<Scenario>
    const colorSize: nat
    const automaton: MealyAutomaton
    const incoming: array<int>
    const eventNames: seq<string>
    /** eventExtensions: the events of each event name. */
    const ext: map<string, seq<Event>>
    const errorNumber: nat
    var frontier: seq<FrontierElement>
    var coloring: Colouring
    /** Ticks left before the time limit. */
    var clock: nat

    /** Everything but the frontier being unmatched. */
    ghost predicate Core()
      reads this, automaton
    {
      automaton.Valid() && |automaton.states| == (if colorSize == 0 then 1 else colorSize) &&
      incoming.Length == colorSize && ext.Keys == (set n | n in eventNames) &&
      NonEmptyScenarios(scenarios) && WellColoured(scenarios, coloring, |automaton.states|) &&
      ElementsShape(scenarios, frontier) && Followed(automaton.states, scenarios, coloring, frontier)
    }

    ghost predicate Valid()
      reads this, automaton
    {
      Core() && AllElementsUnmatched(automaton.states, scenarios, coloring, frontier)
    }

    /** The state for a fresh search: one frontier element at the start of every scenario, every position coloured 0. */
    constructor (scenarios: seq<Scenario>, colorSize: nat, clock: nat, events: seq<Event>, eventNames: seq<string>,
                 variables: nat, errorNumber: nat)
      requires NonEmptyScenarios(scenarios)
      requires forall k :: 0 <= k < |events| ==> variables <= |events[k]|
      ensures Valid()
      ensures this.scenarios == scenarios && this.colorSize == colorSize && this.clock == clock
      ensures this.eventNames == eventNames && this.errorNumber == errorNumber
      ensures forall n :: n in eventNames ==> ext[n] == Extensions(events, n, variables)
      ensures |frontier| == |scenarios| && forall i :: 0 <= i < |scenarios| ==> frontier[i] == FrontierElement(i, 0)
      ensures forall i, p :: 0 <= i < |scenarios| && 0 <= p < |scenarios[i]| ==> coloring[i][p] == 0
      ensures forall s :: 0 <= s < |automaton.states| ==> automaton.states[s] == []
      ensures incoming[..] == seq(colorSize, _ => 0)
      ensures fresh(automaton) && fresh(incoming)
    {
      var ext := EventExtensions(events, eventNames, variables);
      this.scenarios := scenarios;
      this.colorSize := colorSize;
      this.eventNames := eventNames;
      this.errorNumber := errorNumber;
      this.clock := clock;
      automaton := new MealyAutomaton(colorSize);
      incoming := new int[colorSize](_ => 0);
      this.ext := ext;
      var start := seq(|scenarios|, i requires 0 <= i < |scenarios| => FrontierElement(i, 0));
      forall i | 0 <= i < |scenarios| ensures Limit(scenarios, start, i) == 0 {
        LimitOf(scenarios, start, i);
      }
      frontier := start;
      coloring := seq(|scenarios|, i requires 0 <= i < |scenarios| => seq(|scenarios[i]|, _ => 0));
    }

    /**
     * The inner loop of findNewFrontier for one element: while every event
     * of the position has a transition into one state, colour the next
     * position with it and move on.
     */
    method WalkElement(e: FrontierElement) returns (end: WalkEnd)
      requires automaton.Valid() && WellColoured(scenarios, coloring, |automaton.states|) && InScenarios(scenarios, e)
      modifies this`coloring
      ensures WellColoured(scenarios, coloring, |automaton.states|)
      ensures coloring == old(coloring)[e.scenarioIndex := coloring[e.scenarioIndex]]
      ensures (end, coloring[e.scenarioIndex]) ==
              WalkFrom(automaton.states, scenarios[e.scenarioIndex], old(coloring)[e.scenarioIndex], e.scenarioPosition)
    {
      var i := e.scenarioIndex;
      var row: seq<nat> := coloring[i];
      var cur := e;
      while true
        invariant InScenarios(scenarios, cur) && cur.scenarioIndex == i && coloring == old(coloring)
        invariant |row| == |scenarios[i]| && forall p :: 0 <= p < |row| ==> row[p] < |automaton.states|
        invariant WalkFrom(automaton.states, scenarios[i], row, cur.scenarioPosition) ==
                  WalkFrom(automaton.states, scenarios[i], coloring[i], e.scenarioPosition)
        decreases |scenarios[i]| - cur.scenarioPosition
      {
        var stateFrom := row[cur.scenarioPosition];
        var v := ClassifyEvents(automaton.states, stateFrom, scenarios[i][cur.scenarioPosition].events);
        VerdictInRange(automaton.states, stateFrom, scenarios[i][cur.scenarioPosition].events);
        if v.Conflict? {
          end := WalkConflict;
          break;
        } else if v.Unmatched? {
          end := WalkStays(cur.scenarioPosition);
          break;
        }
        var next := Advance(scenarios, cur);
        if next.None? {
          end := WalkLeaves;
          break;
        }
        cur := next.value;
        row := row[cur.scenarioPosition := v.dst];
      }
      coloring := coloring[i := row];
    }

    /**
     * The walk of findNewFrontier over the whole frontier; on success the
     * elements that stay become the frontier.
     */
    method WalkFrontier() returns (ok: bool)
      requires Core()
      modifies this`frontier, this`coloring
      ensures Core()
      ensures Frozen(scenarios, coloring, old(coloring), old(frontier)) && LimitsGrow(scenarios, old(frontier), frontier)
      ensures var w := FrontierWalk(automaton.states, scenarios, old(coloring), old(frontier), []);
              (ok <==> w.Some?) && (ok ==> frontier == w.value.0 && coloring == w.value.1) && (!ok ==> frontier == old(frontier))
      ensures ok ==> AllElementsUnmatched(automaton.states, scenarios, coloring, frontier)
    {
      ghost var col0 := coloring;
      var newFrontier;
      ok, newFrontier := WalkElements();
      if ok {
        assert [] + frontier == frontier;
        FrontierWalkSound(automaton.states, scenarios, col0, frontier, []);
        FrontierWalkFollowed(automaton.states, scenarios, col0, frontier, []);
        frontier := newFrontier;
      } else {
        FollowedSkeleton(automaton.states, automaton.states, scenarios, coloring, col0, frontier);
      }
    }

    /** The loop of findNewFrontier over the frontier elements; the frontier itself is not yet replaced. */
    method WalkElements() returns (ok: bool, newFrontier: seq<FrontierElement>)
      requires automaton.Valid() && WellColoured(scenarios, coloring, |automaton.states|) && ElementsShape(scenarios, frontier)
      modifies this`coloring
      ensures WellColoured(scenarios, coloring, |automaton.states|) && Frozen(scenarios, coloring, old(coloring), frontier)
      ensures var w := FrontierWalk(automaton.states, scenarios, old(coloring), frontier, []);
              (ok <==> w.Some?) && (ok ==> w.value == (newFrontier, coloring))
    {
      ghost var col0 := coloring;
      newFrontier := [];
      var k := 0;
      while k < |frontier|
        invariant 0 <= k <= |frontier| && WellColoured(scenarios, coloring, |automaton.states|)
        invariant forall j :: 0 <= j < |frontier[k..]| ==> InScenarios(scenarios, frontier[k..][j])
        invariant FrontierWalk(automaton.states, scenarios, coloring, frontier[k..], newFrontier) ==
                  FrontierWalk(automaton.states, scenarios, col0, frontier, [])
        invariant Frozen(scenarios, coloring, col0, frontier)
      {
        var e := frontier[k];
        ghost var before := coloring;
        assert frontier[k..][0] == e && frontier[k..][1..] == frontier[k + 1..];
        var end := WalkElement(e);
        WalkKeeps(automaton.states, scenarios[e.scenarioIndex], before[e.scenarioIndex], e.scenarioPosition);
        LimitOf(scenarios, frontier, k);
        if end.WalkConflict? {
          return false, [];
        } else if end.WalkStays? {
          newFrontier := newFrontier + [FrontierElement(e.scenarioIndex, end.pos)];
        }
        k := k + 1;
      }
      ok := true;
    }

    /**
     * findNewFrontier: the walk over the frontier, then label. ok means the
     * walk met no conflict and the relabelled automaton makes at most
     * errorNumber errors; crashed means label threw.
     */
    method FindNewFrontier() returns (crashed: bool, ok: bool)
      requires Core()
      modifies this`frontier, this`coloring, automaton
      ensures WellColoured(scenarios, coloring, |automaton.states|) && ElementsShape(scenarios, frontier)
      ensures Frozen(scenarios, coloring, old(coloring), old(frontier)) && LimitsGrow(scenarios, old(frontier), frontier)
      ensures var w := FrontierWalk(old(automaton.states), scenarios, old(coloring), old(frontier), []);
              (w.None? ==> !crashed && !ok && frontier == old(frontier) && automaton.states == old(automaton.states)) &&
              (w.Some? ==> frontier == w.value.0 && coloring == w.value.1 &&
                           (crashed <==> LabelCrashes(old(automaton.states), scenarios)) &&
                           (!crashed ==> (ok <==> LabelledWithin(old(automaton.states), scenarios, automaton.states, errorNumber))))
      ensures !crashed ==> Core() && SameSkeleton(automaton.states, old(automaton.states))
      ensures ok ==> Valid()
    {
      ghost var states0 := automaton.states;
      ok := WalkFrontier();
      if !ok {
        return false, false;
      }
      ghost var f1, col1 := frontier, coloring;
      assert AllElementsUnmatched(states0, scenarios, col1, f1);
      crashed, ok := Label(automaton, scenarios, errorNumber);
      assert frontier == f1 && coloring == col1 && |automaton.states| == |states0|;
      if !crashed {
        UnmatchedRestored(automaton.states, states0, scenarios, col1, col1, f1);
        FollowedSkeleton(automaton.states, states0, scenarios, col1, col1, f1);
        assert Core();
      }
    }

    /**
     * backtracking: gives the first frontier element's events transitions
     * into every destination the symmetry rule allows, until an automaton is
     * found, label throws or time runs out. `tried` is the number of
     * destinations tried.
     */
    method Backtracking() returns (r: Outcome, ghost tried: nat)
      requires Valid() && frontier != []
      modifies this, automaton, incoming
      ensures clock <= old(clock)
      ensures r.Found? ==> WeakComplete(r.automaton, eventNames, ext)
      ensures r.Found? ==> exists a: Table :: LabelledWithin(a, scenarios, r.automaton, errorNumber)
      ensures r.Found? ==> FollowsAll(r.automaton, scenarios)
      ensures r.Crashed? ==> exists a: Table :: ValidTable(a) && |a| >= 1 && LabelCrashes(a, scenarios)
      ensures r.Exhausted? ==> Valid() && frontier == old(frontier) && incoming[..] == old(incoming[..])
      ensures r.Exhausted? ==> SameSkeleton(automaton.states, old(automaton.states))
      ensures r.Exhausted? ==> Frozen(scenarios, coloring, old(coloring), frontier)
      ensures r.Exhausted? ==> tried == SymmetryBound(old(incoming[..]), colorSize)
      decreases clock, 0
    {
      if clock == 0 {
        return TimedOut, 0;
      }
      clock := clock - 1;
      var elem := frontier[0];
      var stateFrom := coloring[elem.scenarioIndex][elem.scenarioPosition];
      ghost var states0, inc0, col0, frontier0 := automaton.states, incoming[..], coloring, frontier;
      LimitOf(scenarios, frontier0, 0);
      var dst := 0;
      while dst < colorSize
        invariant 0 <= dst <= colorSize && clock < old(clock)
        invariant Valid() && frontier == frontier0 && incoming[..] == inc0
        invariant SameSkeleton(automaton.states, states0) && Frozen(scenarios, coloring, col0, frontier0)
        invariant stateFrom == coloring[elem.scenarioIndex][elem.scenarioPosition]
        invariant dst <= SymmetryBound(inc0, colorSize)
        decreases colorSize - dst
      {
        if dst > 1 && incoming[dst - 1] == 0 {
          break;
        }
        ghost var col1 := coloring;
        r := TryDestination(elem, stateFrom, dst);
        if !r.Exhausted? {
          return r, dst;
        }
        FrozenTrans(scenarios, coloring, col1, col0, frontier0, frontier0);
        dst := dst + 1;
      }
      return Exhausted, dst;
    }

    /** One iteration of backtracking's dst loop: add the element's transitions into dst, search on, remove them. */
    method TryDestination(elem: FrontierElement, stateFrom: nat, dst: nat) returns (r: Outcome)
      requires Valid() && frontier != [] && elem == frontier[0] && dst < colorSize
      requires stateFrom == coloring[elem.scenarioIndex][elem.scenarioPosition]
      modifies this, automaton, incoming
      ensures clock <= old(clock)
      ensures r.Found? ==> WeakComplete(r.automaton, eventNames, ext)
      ensures r.Found? ==> exists a: Table :: LabelledWithin(a, scenarios, r.automaton, errorNumber)
      ensures r.Found? ==> FollowsAll(r.automaton, scenarios)
      ensures r.Crashed? ==> exists a: Table :: ValidTable(a) && |a| >= 1 && LabelCrashes(a, scenarios)
      ensures r.Exhausted? ==> Valid() && frontier == old(frontier) && incoming[..] == old(incoming[..])
      ensures r.Exhausted? ==> SameSkeleton(automaton.states, old(automaton.states))
      ensures r.Exhausted? ==> Frozen(scenarios, coloring, old(coloring), frontier)
      decreases clock, 3
    {
      ghost var states0, col0, inc0 := automaton.states, coloring, incoming[..];
      var events := scenarios[elem.scenarioIndex][elem.scenarioPosition].events;
      // the element's events have no transitions yet
      assert EventsUnmatched(states0, stateFrom, events);
      assert FreshIn(states0[stateFrom], AddedFor(events, dst));
      AddEvents(automaton, stateFrom, events, dst);
      FollowedFresh(states0, stateFrom, AddedFor(events, dst), scenarios, coloring, frontier);
      CountIncoming(incoming, dst, inc0);
      r := Descend();
      if !r.Exhausted? {
        return r;
      }
      UndoEvents(automaton, incoming, stateFrom, events, dst, states0, inc0);
      UnmatchedRestored(automaton.states, states0, scenarios, coloring, col0, frontier);
      FollowedSkeleton(automaton.states, states0, scenarios, coloring, col0, frontier);
    }

    /**
     * The body of the dst loop between adding and removing the transitions:
     * recompute the frontier and the labels; if the automaton keeps within
     * the error bound, accept it when the frontier is empty and it is weakly
     * complete, or recurse on a non-empty frontier; then restore the frontier.
     */
    method Descend() returns (r: Outcome)
      requires Core()
      modifies this, automaton, incoming
      ensures clock <= old(clock)
      ensures r.Found? ==> WeakComplete(r.automaton, eventNames, ext)
      ensures r.Found? ==> exists a: Table :: LabelledWithin(a, scenarios, r.automaton, errorNumber)
      ensures r.Found? ==> FollowsAll(r.automaton, scenarios)
      ensures r.Crashed? ==> exists a: Table :: ValidTable(a) && |a| >= 1 && LabelCrashes(a, scenarios)
      ensures r.Exhausted? ==> Core() && frontier == old(frontier) && incoming[..] == old(incoming[..])
      ensures r.Exhausted? ==> SameSkeleton(automaton.states, old(automaton.states))
      ensures r.Exhausted? ==> Frozen(scenarios, coloring, old(coloring), old(frontier))
      decreases clock, 2
    {
      var frontierBackup := frontier;
      ghost var states0, col0 := automaton.states, coloring;
      var crashed, ok := FindNewFrontier();
      if crashed {
        assert ValidTable(states0) && |states0| >= 1 && LabelCrashes(states0, scenarios);
        return Crashed;
      }
      if ok {
        r := Proceed(states0);
        if !r.Exhausted? {
          return r;
        }
      }
      frontier := frontierBackup;
      FollowedSkeleton(automaton.states, states0, scenarios, coloring, col0, frontierBackup);
      return Exhausted;
    }

    /**
     * The automaton keeps within the error bound (labelled from `before`):
     * accept it when the frontier is empty and it is weakly complete, or
     * recurse on a non-empty frontier.
     */
    method Proceed(ghost before: Table) returns (r: Outcome)
      requires Valid() && LabelledWithin(before, scenarios, automaton.states, errorNumber)
      modifies this, automaton, incoming
      ensures clock <= old(clock)
      ensures r.Found? ==> WeakComplete(r.automaton, eventNames, ext)
      ensures r.Found? ==> exists a: Table :: LabelledWithin(a, scenarios, r.automaton, errorNumber)
      ensures r.Found? ==> FollowsAll(r.automaton, scenarios)
      ensures r.Crashed? ==> exists a: Table :: ValidTable(a) && |a| >= 1 && LabelCrashes(a, scenarios)
      ensures r.Exhausted? ==> Core() && frontier == old(frontier) && incoming[..] == old(incoming[..])
      ensures r.Exhausted? ==> SameSkeleton(automaton.states, old(automaton.states))
      ensures r.Exhausted? ==> Frozen(scenarios, coloring, old(coloring), frontier)
      decreases clock, 1
    {
      if frontier == [] {
        var complete := IsWeakComplete(automaton.states, eventNames, ext);
        if complete {
          FollowedAll(automaton.states, scenarios, coloring);
          return Found(automaton.states);
        }
        return Exhausted;
      }
      ghost var tried;
      r, tried := Backtracking();
    }
  }

  /** The loop of backtracking that adds a transition into dst for every event of the position. */
  method AddEvents(automaton: MealyAutomaton, s: nat, events: seq<Event>, dst: nat)
    requires automaton.Valid() && s < |automaton.states| && dst < |automaton.states|
    modifies automaton
    ensures automaton.Valid()
    ensures automaton.states == old(automaton.states)[s := PutAll(old(automaton.states)[s], AddedFor(events, dst))]
  {
    ghost var states0 := automaton.states;
    var k := 0;
    while k < |events|
      invariant 0 <= k <= |events|
      invariant automaton.Valid() && automaton.states == states0[s := PutAll(states0[s], AddedFor(events, dst)[..k])]
    {
      automaton.AddTransition(s, MealyTransition(events[k], Tautology, {}, dst));
      AddedForStep(states0[s], events, dst, k);
      k := k + 1;
    }
    assert AddedFor(events, dst)[..k] == AddedFor(events, dst);
  }

  lemma AddedForStep(ts: seq<MealyTransition>, events: seq<Event>, dst: nat, k: nat)
    requires UniqueKeys(ts) && k < |events|
    ensures PutAll(ts, AddedFor(events, dst)[..k + 1]) ==
      Put(PutAll(ts, AddedFor(events, dst)[..k]), MealyTransition(events[k], Tautology, {}, dst))
  {
    var added := AddedFor(events, dst);
    assert added[..k + 1] == added[..k] + [added[k]];
    PutAllSnoc(ts, added[..k], added[k]);
  }

  /**
   * addedTransitions.forEach(stateFrom::removeTransition) and the decrement
   * of dst's incoming counter: the transitions are as before the addition,
   * up to the actions label gave them.
   */
  method UndoEvents(automaton: MealyAutomaton, incoming: array<int>, s: nat, events: seq<Event>, dst: nat,
                    ghost states0: Table, ghost inc0: seq<int>)
    requires automaton.Valid() && ValidTable(states0) && s < |states0| && dst < incoming.Length
    requires FreshIn(states0[s], AddedFor(events, dst))
    requires SameSkeleton(automaton.states, states0[s := PutAll(states0[s], AddedFor(events, dst))])
    requires |inc0| == incoming.Length && incoming[..] == inc0[dst := inc0[dst] + 1]
    modifies automaton, incoming
    ensures automaton.Valid() && SameSkeleton(automaton.states, states0) && incoming[..] == inc0
  {
    ghost var states1 := automaton.states;
    RemoveGroup(automaton, s, AddedFor(events, dst));
    SkeletonRemoved(states0[s], AddedFor(events, dst), states1[s]);
    incoming[dst] := incoming[dst] - 1;
    assert incoming[..] == inc0;
  }
}
