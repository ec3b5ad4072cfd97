/**
 * The nondeterministic Moore automaton of the plant builder
 * (src/structures/plant/NondetMooreAutomaton.java): states 0..n-1, each with
 * the set of actions it shows, a start flag per state, and per state a list
 * of (event, destination) transitions. Scenario compliance simulates the
 * automaton on the set of states consistent with the scenario so far
 * (MooreSimulation).
 */
module PlantAutomata {
  import opened Common
  import opened MooreSimulation
  import MealyAutomata

  class PlantAutomaton {
    /** The actions of state i. */
    var actions: seq<Actions>
    /** The start flag of state i. */
    var isStart: seq<bool>
    /** The transitions of state i, in insertion order. */
    var transitions: seq<seq<MooreTransition>>

    ghost predicate Valid()
      reads this
    {
      |transitions| == |actions| && |isStart| >= |actions| &&
      forall i, k :: 0 <= i < |transitions| && 0 <= k < |transitions[i]| ==> transitions[i][k].dst < |actions|
    }

    /** States 0..statesCount-1 with the given actions and no transitions; the start flags are copied. */
    constructor(statesCount: nat, stateActions: seq<Actions>, start: seq<bool>)
      requires |stateActions| >= statesCount && |start| >= statesCount
      ensures Valid() && actions == stateActions[..statesCount] && isStart == start
      ensures |transitions| == statesCount && forall i :: 0 <= i < statesCount ==> transitions[i] == []
    {
      actions := stateActions[..statesCount];
      isStart := start;
      transitions := seq(statesCount, _ => []);
    }

    function StateCount(): (n: nat)
      reads this
      ensures n == |actions|
    {
      |actions|
    }

    /** startStates: the start states in ascending order. */
    method StartStates() returns (r: seq<nat>)
      requires Valid()
      ensures StrictlyIncreasing(r)
      ensures forall s: nat :: s in r <==> s < |actions| && isStart[s]
    {
      r := [];
      for i := 0 to |actions|
        invariant StrictlyIncreasing(r) && forall k :: 0 <= k < |r| ==> r[k] < i
        invariant forall s: nat :: s in r <==> s < i && isStart[s]
      {
        assert forall s :: s in r + [i] <==> s in r || s == i;
        r := if isStart[i] then r + [i] else r;
      }
    }

    /** allDst(event) of a state: the destinations of its transitions on event. */
    function AllDst(state: nat, event: Event): (r: set<nat>)
      requires Valid() && state < |transitions|
      reads this
      ensures forall d :: d in r <==> MooreTransition(event, d) in transitions[state]
      ensures forall d :: d in r ==> d < |actions|
    {
      set k | 0 <= k < |transitions[state]| && transitions[state][k].event == event :: transitions[state][k].dst
    }

    /** addTransition: the state gets one more transition with this event and destination. */
    method AddTransition(state: nat, event: Event, dst: nat)
      requires Valid() && state < |actions| && dst < |actions|
      modifies this
      ensures Valid() && actions == old(actions) && isStart == old(isStart)
      ensures transitions == old(transitions)[state := old(transitions[state]) + [MooreTransition(event, dst)]]
    {
      transitions := transitions[state := transitions[state] + [MooreTransition(event, dst)]];
    }

    /** One position of the simulation: the matching destinations of the flagged states. */
    method NextStates(cur: array<bool>, e: Event, acts: Actions) returns (next: array<bool>)
      requires Valid() && cur.Length == |actions|
      ensures fresh(next) && next.Length == |actions|
      ensures SetOf(next[..]) == Successors(transitions, actions, SetOf(cur[..]), |transitions|, e, acts)
    {
      next := new bool[|actions|](_ => false);
      ghost var c := SetOf(cur[..]);
      for j := 0 to |actions|
        invariant SetOf(next[..]) == Successors(transitions, actions, c, j, e, acts)
      {
        if cur[j] {
          AddMatching(next, j, e, acts, c);
        }
      }
    }

    /** The inner loop of the simulation: flags the matching destinations of state j. */
    method AddMatching(next: array<bool>, j: nat, e: Event, acts: Actions, ghost c: set<nat>)
      requires Valid() && next.Length == |actions| && j < |transitions| && j in c
      requires SetOf(next[..]) == Successors(transitions, actions, c, j, e, acts)
      modifies next
      ensures SetOf(next[..]) == Successors(transitions, actions, c, j + 1, e, acts)
    {
      var ts := transitions[j];
      ghost var base := Successors(transitions, actions, c, j, e, acts);
      for k := 0 to |ts|
        invariant SetOf(next[..]) == base + Matching(ts[..k], e, acts, actions)
      {
        var t := ts[k];
        var v := t.event == e && actions[t.dst] == acts;
        ghost var b := next[..];
        FlagMatching(b, base, ts, k, e, acts, actions);
        next[t.dst] := next[t.dst] || v;
        assert next[..] == b[t.dst := b[t.dst] || v];
      }
      assert ts[..|ts|] == ts;
    }

    /** The simulation of one scenario: whether some state is consistent with all of it. */
    method RunScenario(sc: MealyAutomata.Scenario) returns (passed: bool)
      requires Valid() && MealyAutomata.WellFormedScenario(sc) && |sc| >= 1
      ensures passed == Passes(transitions, actions, isStart, sc)
    {
      var cur := InitialFlags(actions, isStart, sc[0].actions);
      for i := 1 to |sc|
        invariant cur.Length == |actions| && SetOf(cur[..]) == Reach(transitions, actions, isStart, sc, i - 1)
      {
        cur := NextStates(cur, sc[i].events[0], sc[i].actions);
      }
      passed := true in cur[..];
      assert passed <==> exists d :: 0 <= d < cur.Length && cur[..][d];
    }

    /** isCompliantWithScenarios: false at the first scenario whose pass status differs from positive. */
    method IsCompliantWithScenarios(scenarios: seq<MealyAutomata.Scenario>, positive: bool) returns (r: bool)
      requires Valid() && Scenarios(scenarios)
      ensures r == Compliant(transitions, actions, isStart, scenarios, positive)
    {
      for k := 0 to |scenarios|
        invariant forall q :: 0 <= q < k ==> Passes(transitions, actions, isStart, scenarios[q]) == positive
      {
        var passed := RunScenario(scenarios[k]);
        if passed != positive {
          return false;
        }
      }
      return true;
    }
  }
}
