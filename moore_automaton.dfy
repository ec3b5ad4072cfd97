/**
 * The nondeterministic Moore automaton of the trace-model builders
 * (src/structures/moore/NondetMooreAutomaton.java): states 0..n-1 with their
 * action sets and initial flags, transition lists per state, and the set of
 * transitions marked unsupported by the scenarios. Scenario compliance is
 * the subset simulation of MooreSimulation; the operations here also record
 * which transitions it takes.
 */
module MooreAutomata {
  import opened Common
  import opened MooreSimulation
  import opened MooreSpec
  import MealyAutomata
  import Strings

  /** A score num/den; the source computes it as a double. */
  datatype Ratio = Ratio(num: nat, den: nat)

  /** The number of transitions of all states. */
  function TransitionCount(trans: seq<seq<MooreTransition>>): (n: nat)
    ensures n == 0 <==> forall s :: 0 <= s < |trans| ==> trans[s] == []
  {
    if trans == [] then 0
    else TransitionCount(trans[..|trans| - 1]) + |trans[|trans| - 1]|
  }

  /** One more transition of one state adds one to the count. */
  lemma {:induction false} TransitionCountAdd(trans: seq<seq<MooreTransition>>, s: nat, t: MooreTransition)
    requires s < |trans|
    ensures TransitionCount(trans[s := trans[s] + [t]]) == TransitionCount(trans) + 1
  {
    var trans' := trans[s := trans[s] + [t]];
    var m := |trans| - 1;
    if s < m {
      assert trans'[..m] == trans[..m][s := trans[s] + [t]];
      TransitionCountAdd(trans[..m], s, t);
    } else {
      assert trans'[..m] == trans[..m];
    }
  }

  /** The destinations of ts, in list order. */
  function DstList(ts: seq<MooreTransition>): (r: seq<nat>)
    ensures |r| == |ts| && forall k :: 0 <= k < |ts| ==> r[k] == ts[k].dst
  {
    seq(|ts|, k requires 0 <= k < |ts| => ts[k].dst)
  }

  /** The events of all transitions. */
  function Events(trans: seq<seq<MooreTransition>>): (r: set<Event>)
    ensures forall s, t :: 0 <= s < |trans| && t in trans[s] ==> t.event in r
  {
    set s, t | 0 <= s < |trans| && t in trans[s] :: t.event
  }

  /** mediumCompliance from the first position the replay cannot reproduce. */
  function MediumScore(fail: nat, size: nat): (r: Ratio)
    requires fail <= size
    ensures r.num <= r.den && (r == Ratio(1, 1) <==> fail == size)
  {
    if fail == size then Ratio(1, 1) else if fail == 0 then Ratio(0, 1) else Ratio(fail, size)
  }

  class MooreAutomaton {
    /** The actions of state i. */
    var actions: seq<Actions>
    /** The initial flag of state i. */
    var isInitial: seq<bool>
    /** The transitions of state i, in insertion order. */
    var transitions: seq<seq<MooreTransition>>
    /** The transitions marked as not supported by any scenario. */
    var unsupported: set<TransitionRef>

    ghost predicate Valid()
      reads this
    {
      |transitions| == |actions| && |isInitial| >= |actions| && Closed(transitions)
    }

    /** States 0..statesCount-1 with the given actions and no transitions; the initial flags are copied. */
    constructor(statesCount: nat, stateActions: seq<Actions>, initial: seq<bool>)
      requires |stateActions| >= statesCount && |initial| >= statesCount
      ensures Valid() && actions == stateActions[..statesCount] && isInitial == initial
      ensures transitions == seq(statesCount, _ => []) && unsupported == {}
    {
      actions := stateActions[..statesCount];
      isInitial := initial;
      transitions := seq(statesCount, _ => []);
      unsupported := {};
    }

    /** initialStates: the initial states in ascending order. */
    method InitialStates() returns (r: seq<nat>)
      requires Valid()
      ensures StrictlyIncreasing(r)
      ensures forall s: nat :: s in r <==> s in InitialSet(isInitial, |actions|)
    {
      r := [];
      for i := 0 to |actions|
        invariant StrictlyIncreasing(r) && forall k :: 0 <= k < |r| ==> r[k] < i
        invariant forall s: nat :: s in r <==> s < i && isInitial[s]
      {
        assert forall s :: s in r + [i] <==> s in r || s == i;
        r := if isInitial[i] then r + [i] else r;
      }
    }

    /** transitionNumber: the number of transitions of all states. */
    function TransitionNumber(): (n: nat)
      reads this
      ensures n == TransitionCount(transitions)
    {
      TransitionCount(transitions)
    }

    /** addTransition: state s gets t as its last transition. */
    method AddTransition(s: nat, t: MooreTransition)
      requires Valid() && s < |transitions| && t.dst < |transitions|
      modifies this
      ensures Valid() && actions == old(actions) && isInitial == old(isInitial) && unsupported == old(unsupported)
      ensures transitions == old(transitions)[s := old(transitions[s]) + [t]]
      ensures TransitionNumber() == old(TransitionNumber()) + 1
    {
      TransitionCountAdd(transitions, s, t);
      transitions := transitions[s := transitions[s] + [t]];
    }

    /** removeTransition: state s loses its first transition equal to t. */
    method RemoveTransition(s: nat, t: MooreTransition)
      requires Valid() && s < |transitions|
      modifies this
      ensures Valid() && actions == old(actions) && isInitial == old(isInitial) && unsupported == old(unsupported)
      ensures transitions == old(transitions)[s := RemoveFirst(old(transitions[s]), t)]
    {
      var r := RemoveFirst(transitions[s], t);
      RemoveFirstCount(transitions[s], t);
      assert forall u :: u in r ==> u in transitions[s] by {
        forall u | u in r
          ensures u in transitions[s]
        {
          assert u in multiset(r);
        }
      }
      transitions := transitions[s := r];
    }

    /**
     * compliesWith: false at the first scenario whose verdict differs from
     * positive, leaving the marks alone; otherwise true, and with marking on,
     * every transition no scenario's simulation took is marked unsupported.
     */
    method CompliesWith(scenarios: seq<MealyAutomata.Scenario>, positive: bool, mark: bool) returns (r: bool)
      requires Valid() && Scenarios(scenarios)
      modifies this
      ensures actions == old(actions) && isInitial == old(isInitial) && transitions == old(transitions)
      ensures r == Compliant(transitions, actions, isInitial, scenarios, positive)
      ensures unsupported == if r && mark then old(unsupported) + (Refs(transitions, |transitions|) - AllUsed(transitions, actions, isInitial, scenarios, |scenarios|))
                             else old(unsupported)
    {
      var ok, supported := SimulateAll(scenarios, positive);
      if !ok {
        return false;
      }
      if mark {
        MarkUnsupported(supported);
      }
      return true;
    }

    /**
     * The loop of compliesWith: simulates the scenarios in order and stops
     * at the first whose result differs from positive; when none does, the
     * transitions all simulations took.
     */
    method SimulateAll(scenarios: seq<MealyAutomata.Scenario>, positive: bool) returns (ok: bool, supported: set<TransitionRef>)
      requires Valid() && Scenarios(scenarios)
      ensures ok == Compliant(transitions, actions, isInitial, scenarios, positive)
      ensures ok ==> supported == AllUsed(transitions, actions, isInitial, scenarios, |scenarios|)
    {
      supported := {};
      for k := 0 to |scenarios|
        invariant forall q :: 0 <= q < k ==> Passes(transitions, actions, isInitial, scenarios[q]) == positive
        invariant supported == AllUsed(transitions, actions, isInitial, scenarios, k)
      {
        var passed;
        passed, supported := SimulateNext(scenarios, k, supported);
        if passed != positive {
          FailureNotCompliant(transitions, actions, isInitial, scenarios, k, positive);
          return false, supported;
        }
        PassesStep(transitions, actions, isInitial, scenarios, k, positive);
      }
      AllPassCompliant(transitions, actions, isInitial, scenarios, positive);
      return true, supported;
    }

    /** Scenario k of the loop of compliesWith: its verdict, and the transitions taken so far grow by its own. */
    method SimulateNext(scenarios: seq<MealyAutomata.Scenario>, k: nat, supported: set<TransitionRef>)
      returns (passed: bool, supported': set<TransitionRef>)
      requires Valid() && Scenarios(scenarios) && k < |scenarios|
      requires supported == AllUsed(transitions, actions, isInitial, scenarios, k)
      ensures passed == Passes(transitions, actions, isInitial, scenarios[k])
      ensures supported' == AllUsed(transitions, actions, isInitial, scenarios, k + 1)
    {
      var used;
      passed, used := Simulate(scenarios[k]);
      supported' := supported + used;
    }

    /** The simulation of one scenario, with the transitions it takes. */
    method Simulate(sc: MealyAutomata.Scenario) returns (passed: bool, used: set<TransitionRef>)
      requires Valid() && MealyAutomata.WellFormedScenario(sc) && |sc| >= 1
      ensures passed == Passes(transitions, actions, isInitial, sc)
      ensures used == ScenarioUsed(transitions, actions, isInitial, sc, |sc|)
    {
      var cur := InitialFlags(actions, isInitial, sc[0].actions);
      used := {};
      for i := 1 to |sc|
        invariant cur.Length == |actions| && SetOf(cur[..]) == Reach(transitions, actions, isInitial, sc, i - 1)
        invariant used == ScenarioUsed(transitions, actions, isInitial, sc, i)
      {
        cur, used := Advance(sc, i, cur, used);
      }
      passed := true in cur[..];
      assert passed <==> exists d :: 0 <= d < cur.Length && cur[..][d];
    }

    /** Position i of the simulation of sc: the flags and the taken transitions grow by one step. */
    method Advance(sc: MealyAutomata.Scenario, i: nat, cur: array<bool>, used: set<TransitionRef>)
      returns (next: array<bool>, used': set<TransitionRef>)
      requires Valid() && MealyAutomata.WellFormedScenario(sc) && 1 <= i < |sc|
      requires cur.Length == |actions| && SetOf(cur[..]) == Reach(transitions, actions, isInitial, sc, i - 1)
      requires used == ScenarioUsed(transitions, actions, isInitial, sc, i)
      ensures fresh(next) && next.Length == |actions| && SetOf(next[..]) == Reach(transitions, actions, isInitial, sc, i)
      ensures used' == ScenarioUsed(transitions, actions, isInitial, sc, i + 1)
    {
      var taken;
      next, taken := Step(cur, sc[i].events[0], sc[i].actions);
      used' := used + taken;
    }

    /** One position of the simulation: the next flags and the transitions taken. */
    method Step(cur: array<bool>, e: Event, acts: Actions) returns (next: array<bool>, taken: set<TransitionRef>)
      requires Valid() && cur.Length == |actions|
      ensures fresh(next) && next.Length == |actions|
      ensures SetOf(next[..]) == Successors(transitions, actions, SetOf(cur[..]), |transitions|, e, acts)
      ensures taken == Used(transitions, actions, SetOf(cur[..]), |transitions|, e, acts)
    {
      next := new bool[|actions|](_ => false);
      taken := {};
      ghost var c := SetOf(cur[..]);
      for j := 0 to |actions|
        invariant SetOf(next[..]) == Successors(transitions, actions, c, j, e, acts)
        invariant taken == Used(transitions, actions, c, j, e, acts)
      {
        if cur[j] {
          taken := StepFrom(next, j, e, acts, c, taken);
        } else {
          SkipState(transitions, actions, c, j, e, acts);
        }
      }
    }

    /** The inner loop of the simulation: the transitions of state j that match. */
    method StepFrom(next: array<bool>, j: nat, e: Event, acts: Actions, ghost c: set<nat>, taken0: set<TransitionRef>)
      returns (taken: set<TransitionRef>)
      requires Valid() && next.Length == |actions| && j < |transitions| && j in c
      requires SetOf(next[..]) == Successors(transitions, actions, c, j, e, acts)
      requires taken0 == Used(transitions, actions, c, j, e, acts)
      modifies next
      ensures SetOf(next[..]) == Successors(transitions, actions, c, j + 1, e, acts)
      ensures taken == Used(transitions, actions, c, j + 1, e, acts)
    {
      var ts := transitions[j];
      ghost var base := Successors(transitions, actions, c, j, e, acts);
      taken := taken0;
      for k := 0 to |ts|
        invariant SetOf(next[..]) == base + Matching(ts[..k], e, acts, actions)
        invariant taken == taken0 + UsedFrom(j, ts[..k], e, acts, actions)
      {
        var t := ts[k];
        var v := t.event == e && actions[t.dst] == acts;
        ghost var b := next[..];
        FlagMatching(b, base, ts, k, e, acts, actions);
        UsedFromSnoc(j, ts, k, e, acts, actions);
        next[t.dst] := next[t.dst] || v;
        assert next[..] == b[t.dst := b[t.dst] || v];
        taken := if v then taken + {TransitionRef(j, t.event, t.dst)} else taken;
      }
      assert ts[..|ts|] == ts;
    }

    /** Marks every transition outside supported. */
    method MarkUnsupported(supported: set<TransitionRef>)
      requires Valid()
      modifies this
      ensures actions == old(actions) && isInitial == old(isInitial) && transitions == old(transitions)
      ensures unsupported == old(unsupported) + (Refs(transitions, |transitions|) - supported)
    {
      for s := 0 to |transitions|
        invariant actions == old(actions) && isInitial == old(isInitial) && transitions == old(transitions)
        invariant unsupported == old(unsupported) + (Refs(transitions, s) - supported)
      {
        MarkState(s, supported);
      }
    }

    /** Marks every transition of state s outside supported. */
    method MarkState(s: nat, supported: set<TransitionRef>)
      requires Valid() && s < |transitions|
      modifies this
      ensures actions == old(actions) && isInitial == old(isInitial) && transitions == old(transitions)
      ensures unsupported == old(unsupported) + (RefsOf(s, transitions[s]) - supported)
    {
      var ts := transitions[s];
      for k := 0 to |ts|
        invariant actions == old(actions) && isInitial == old(isInitial) && transitions == old(transitions)
        invariant unsupported == old(unsupported) + (RefsOf(s, ts[..k]) - supported)
      {
        var x := TransitionRef(s, ts[k].event, ts[k].dst);
        assert forall t :: t in ts[..k + 1] <==> t in ts[..k] || t == ts[k];
        unsupported := if x !in supported then unsupported + {x} else unsupported;
      }
      assert ts[..|ts|] == ts;
    }

    /**
     * isDeterministic: false when more than one state is initial or some
     * state has two transitions on one event to different destinations.
     */
    method IsDeterministic() returns (r: bool)
      requires Valid()
      ensures r == Deterministic(transitions, isInitial)
    {
      var init := InitialStates();
      if |init| > 1 {
        assert init[0] != init[1] && init[0] in InitialSet(isInitial, |actions|) && init[1] in InitialSet(isInitial, |actions|);
        return false;
      }
      assert forall s, s' :: s in init && s' in init ==> s == s';
      var events := Events(transitions);
      for s := 0 to |transitions|
        invariant forall s', t, t' :: 0 <= s' < s && t in transitions[s'] && t' in transitions[s'] && t.event == t'.event ==> t.dst == t'.dst
      {
        var ok := StateDeterministic(s, events);
        if !ok {
          var t, t' :| t in transitions[s] && t' in transitions[s] && t.event == t'.event && t.dst != t'.dst;
          return false;
        }
      }
      return true;
    }

    /** Whether every event of events leads from state s to at most one destination. */
    method StateDeterministic(s: nat, events: set<Event>) returns (ok: bool)
      requires Valid() && s < |transitions|
      requires forall t :: t in transitions[s] ==> t.event in events
      ensures ok <==> forall t, t' :: t in transitions[s] && t' in transitions[s] && t.event == t'.event ==> t.dst == t'.dst
    {
      var rest := events;
      while rest != {}
        invariant rest <= events
        invariant forall t, t' :: t in transitions[s] && t' in transitions[s] && t.event == t'.event && t.event !in rest ==> t.dst == t'.dst
        decreases rest
      {
        var e :| e in rest;
        var dsts := AllDst(transitions[s], e);
        MoreThanOne(dsts);
        if |dsts| > 1 {
          return false;
        }
        rest := rest - {e};
      }
      return true;
    }

    /** The destination of the first transition of node on e whose destination shows acts. */
    method FirstMatchingTransition(node: nat, e: Event, acts: Actions) returns (next: Option<nat>)
      requires Valid() && node < |transitions|
      ensures next == FirstMatch(transitions[node], e, acts, actions)
    {
      var ts := transitions[node];
      for k := 0 to |ts|
        invariant FirstMatch(ts, e, acts, actions) == FirstMatch(ts[k..], e, acts, actions)
      {
        assert ts[k..][1..] == ts[k + 1..];
        if ts[k].event == e && actions[ts[k].dst] == acts {
          return Some(ts[k].dst);
        }
      }
      return None;
    }

    /** The destination of the first transition of node on e. */
    method FirstTransitionOn(node: nat, e: Event) returns (next: Option<nat>)
      requires Valid() && node < |transitions|
      ensures next == FirstOn(transitions[node], e)
    {
      var ts := transitions[node];
      for k := 0 to |ts|
        invariant FirstOn(ts, e) == FirstOn(ts[k..], e)
      {
        assert ts[k..][1..] == ts[k + 1..];
        if ts[k].event == e {
          return Some(ts[k].dst);
        }
      }
      return None;
    }

    /** The first initial state, where the deterministic replays start. */
    method Start() returns (start: nat)
      requires Valid() && InitialSet(isInitial, |actions|) != {}
      ensures start == LeastInitial(isInitial, |actions|)
    {
      var init := InitialStates();
      var least := LeastInitial(isInitial, |actions|);
      assert least in init;
      assert init[0] in InitialSet(isInitial, |actions|);
      return init[0];
    }

    /**
     * strongCompliance: 1 when the replay from the first initial state
     * reproduces every position of sc, else 0.
     */
    method StrongCompliance(sc: MealyAutomata.Scenario) returns (r: nat)
      requires Valid() && MealyAutomata.WellFormedScenario(sc) && InitialSet(isInitial, |actions|) != {}
      ensures r == if FailPos(transitions, actions, LeastInitial(isInitial, |actions|), sc, 0) == |sc| then 1 else 0
    {
      var node: nat := Start();
      ghost var fail := FailPos(transitions, actions, node, sc, 0);
      for pos := 0 to |sc|
        invariant node < |transitions| && FailPos(transitions, actions, node, sc, pos) == fail
      {
        if pos == 0 {
          if actions[node] != sc[0].actions {
            return 0;
          }
        } else {
          var next := FirstMatchingTransition(node, sc[pos].events[0], sc[pos].actions);
          if next.None? {
            return 0;
          }
          node := next.value;
        }
      }
      return 1;
    }

    /**
     * mediumCompliance: 1 when the replay reproduces every position, 0 when
     * it fails at position 0, and pos / |sc| when it first fails at pos.
     */
    method MediumCompliance(sc: MealyAutomata.Scenario) returns (r: Ratio)
      requires Valid() && MealyAutomata.WellFormedScenario(sc) && InitialSet(isInitial, |actions|) != {}
      ensures r == MediumScore(FailPos(transitions, actions, LeastInitial(isInitial, |actions|), sc, 0), |sc|)
    {
      var node: nat := Start();
      ghost var fail := FailPos(transitions, actions, node, sc, 0);
      for pos := 0 to |sc|
        invariant node < |transitions| && FailPos(transitions, actions, node, sc, pos) == fail
      {
        if pos == 0 {
          if actions[node] != sc[0].actions {
            return Ratio(0, 1);
          }
        } else {
          var next := FirstMatchingTransition(node, sc[pos].events[0], sc[pos].actions);
          if next.None? {
            return Ratio(pos, |sc|);
          }
          node := next.value;
        }
      }
      return Ratio(1, 1);
    }

    /**
     * weakCompliance: the share of positions whose actions the state shows
     * when from position 1 on the replay follows the first transition on the
     * position's event (staying put when there is none).
     */
    method WeakCompliance(sc: MealyAutomata.Scenario) returns (r: Ratio)
      requires Valid() && MealyAutomata.WellFormedScenario(sc) && InitialSet(isInitial, |actions|) != {}
      ensures r == Ratio(WeakMatched(transitions, actions, LeastInitial(isInitial, |actions|), sc, 0), |sc|)
      ensures r.num <= r.den
    {
      var node: nat := Start();
      ghost var total := WeakMatched(transitions, actions, node, sc, 0);
      var matched := 0;
      for pos := 0 to |sc|
        invariant node < |transitions| && matched + WeakMatched(transitions, actions, node, sc, pos) == total
      {
        if pos > 0 {
          var next := FirstTransitionOn(node, sc[pos].events[0]);
          node := if next.Some? then next.value else node;
        }
        matched := matched + if actions[node] == sc[pos].actions then 1 else 0;
      }
      return Ratio(matched, |sc|);
    }

    /**
     * copy: the same states, actions, initial flags and transitions; a
     * transition of the copy is marked unsupported when the original one is.
     */
    method Copy() returns (c: MooreAutomaton)
      requires Valid()
      ensures fresh(c) && c.Valid()
      ensures c.actions == actions && c.isInitial == isInitial && c.transitions == transitions
      ensures c.unsupported == unsupported * Refs(transitions, |transitions|)
    {
      c := new MooreAutomaton(|actions|, actions, isInitial);
      assert actions[..|actions|] == actions;
      for s := 0 to |actions|
        invariant fresh(c) && c.actions == actions && c.isInitial == isInitial && |c.transitions| == |actions|
        invariant forall q :: 0 <= q < s ==> c.transitions[q] == transitions[q]
        invariant forall q :: s <= q < |actions| ==> c.transitions[q] == []
        invariant c.unsupported == unsupported * Refs(transitions, s)
      {
        c.CopyState(this, s);
      }
      assert c.transitions == transitions;
    }

    /** The inner loop of copy: state s gets the transitions of state s of a, with their marks. */
    method CopyState(a: MooreAutomaton, s: nat)
      requires a != this && s < |transitions| && s < |a.transitions| && transitions[s] == []
      modifies this
      ensures actions == old(actions) && isInitial == old(isInitial)
      ensures transitions == old(transitions)[s := a.transitions[s]]
      ensures unsupported == old(unsupported) + a.unsupported * RefsOf(s, a.transitions[s])
    {
      var ts := a.transitions[s];
      for k := 0 to |ts|
        invariant actions == old(actions) && isInitial == old(isInitial)
        invariant transitions == old(transitions)[s := ts[..k]]
        invariant unsupported == old(unsupported) + a.unsupported * RefsOf(s, ts[..k])
      {
        var t := ts[k];
        var x := TransitionRef(s, t.event, t.dst);
        assert ts[..k + 1] == ts[..k] + [t];
        assert forall u :: u in ts[..k + 1] <==> u in ts[..k] || u == t;
        transitions := transitions[s := transitions[s] + [t]];
        unsupported := if x in a.unsupported then unsupported + {x} else unsupported;
      }
      assert ts[..|ts|] == ts;
    }

    /**
     * swapStates, corrected: state perm[s] of the result carries the actions,
     * the initial flag and the transitions of state s, each destination d
     * renamed to perm[d]; the renamed copy of a marked transition is marked.
     */
    method SwapStates(perm: seq<nat>) returns (c: MooreAutomaton)
      requires Valid() && |isInitial| == |actions| && IsPermutation(perm, |actions|)
      ensures fresh(c) && c.Valid()
      ensures c.actions == Relabel(perm, actions) && c.isInitial == Relabel(perm, isInitial)
      ensures c.transitions == RelabelTransitions(perm, transitions)
      ensures c.unsupported == RenameRefs(perm, unsupported * Refs(transitions, |transitions|))
    {
      var n := |actions|;
      var flags := Relabelled(perm, isInitial);
      var labels := Relabelled(perm, actions);
      c := new MooreAutomaton(n, labels, flags);
      assert labels[..n] == labels;
      c.AddAllRenamed(this, perm);
    }

    /** The loop of swapStates over the states of a, on an automaton with no transitions yet. */
    method AddAllRenamed(a: MooreAutomaton, perm: seq<nat>)
      requires a != this && a.Valid() && Valid() && |transitions| == |a.transitions| && IsPermutation(perm, |transitions|)
      requires unsupported == {} && forall q :: 0 <= q < |transitions| ==> transitions[q] == []
      modifies this
      ensures Valid() && actions == old(actions) && isInitial == old(isInitial)
      ensures transitions == RelabelTransitions(perm, a.transitions)
      ensures unsupported == RenameRefs(perm, a.unsupported * Refs(a.transitions, |a.transitions|))
    {
      var n := |transitions|;
      for s := 0 to n
        invariant Valid() && actions == old(actions) && isInitial == old(isInitial) && |transitions| == n
        invariant forall q :: 0 <= q < s ==> transitions[perm[q]] == RenameTransitions(perm, a.transitions[q])
        invariant forall q :: s <= q < n ==> transitions[perm[q]] == []
        invariant unsupported == RenameRefs(perm, a.unsupported * Refs(a.transitions, s))
      {
        RenameRefsNext(perm, a.unsupported, a.transitions, s);
        assert forall q :: 0 <= q < n && q != s ==> perm[q] != perm[s];
        AddRenamed(a, perm, s);
      }
      RelabelTransitionsUnique(perm, a.transitions, transitions);
    }

    /** The inner loop of swapStates: state perm[s] gets the renamed transitions of state s of a. */
    method AddRenamed(a: MooreAutomaton, perm: seq<nat>, s: nat)
      requires a != this && a.Valid() && Valid() && |transitions| == |a.transitions| && IsPermutation(perm, |transitions|)
      requires s < |perm| && transitions[perm[s]] == []
      modifies this
      ensures Valid() && actions == old(actions) && isInitial == old(isInitial)
      ensures transitions == old(transitions)[perm[s] := RenameTransitions(perm, a.transitions[s])]
      ensures unsupported == old(unsupported) + RenameRefs(perm, a.unsupported * RefsOf(s, a.transitions[s]))
    {
      var ts := a.transitions[s];
      var src := perm[s];
      var row: seq<MooreTransition> := [];
      var marked: set<TransitionRef> := {};
      for k := 0 to |ts|
        invariant row == RenameTransitions(perm, ts[..k])
        invariant marked == RenameRefs(perm, a.unsupported * RefsOf(s, ts[..k]))
        modifies {}
      {
        var t := ts[k];
        var x := TransitionRef(s, t.event, t.dst);
        var tNew := MooreTransition(t.event, perm[t.dst]);
        assert RenameTransitions(perm, ts[..k + 1]) == RenameTransitions(perm, ts[..k]) + [tNew];
        RenameRefsStep(perm, a.unsupported, s, ts, k);
        row := row + [tNew];
        marked := if x in a.unsupported then marked + {TransitionRef(src, t.event, perm[t.dst])} else marked;
      }
      assert ts[..|ts|] == ts;
      transitions := transitions[src := row];
      unsupported := unsupported + marked;
    }

    /**
     * simplify: the same states, actions and initial flags; each state gets
     * one " " transition per destination of its transitions, in ascending
     * order of destination.
     */
    method Simplify() returns (c: MooreAutomaton)
      requires Valid()
      ensures fresh(c) && c.Valid() && c.actions == actions && c.isInitial == isInitial && c.unsupported == {}
      ensures |c.transitions| == |transitions|
      ensures forall s :: 0 <= s < |transitions| ==> Simplified(c.transitions[s], transitions[s])
    {
      c := new MooreAutomaton(|actions|, actions, isInitial);
      assert actions[..|actions|] == actions;
      for s := 0 to |actions|
        invariant fresh(c) && c.Valid() && c.actions == actions && c.isInitial == isInitial && c.unsupported == {}
        invariant |c.transitions| == |transitions|
        invariant forall q :: 0 <= q < s ==> Simplified(c.transitions[q], transitions[q])
      {
        var d := Destinations(s);
        c.SetSimplified(s, d);
        assert Dsts(c.transitions[s]) == Dsts(transitions[s]) by {
          forall x: nat
            ensures x in Dsts(c.transitions[s]) <==> x in Dsts(transitions[s])
          {
            if x in Dsts(c.transitions[s]) {
              var t :| t in c.transitions[s] && t.dst == x;
              var k :| 0 <= k < |c.transitions[s]| && c.transitions[s][k] == t;
              assert d[k] in d;
            }
            if x in Dsts(transitions[s]) {
              var k :| 0 <= k < |d| && d[k] == x;
              assert c.transitions[s][k].dst == x;
            }
          }
        }
      }
    }

    /** The destinations of the transitions of state s, ascending and without repetition (a TreeSet). */
    method Destinations(s: nat) returns (d: seq<int>)
      requires Valid() && s < |transitions|
      ensures StrictlyIncreasing(d)
      ensures forall k :: 0 <= k < |d| ==> 0 <= d[k] < |transitions|
      ensures forall x: nat :: x in d <==> x in Dsts(transitions[s])
    {
      var ts := transitions[s];
      d := [];
      for k := 0 to |ts|
        invariant StrictlyIncreasing(d)
        invariant forall x :: x in d ==> 0 <= x < |transitions|
        invariant forall x: nat :: x in d <==> x in Dsts(ts[..k])
      {
        assert forall u :: u in ts[..k + 1] <==> u in ts[..k] || u == ts[k];
        d := Strings.Insert(d, ts[k].dst);
      }
      assert ts[..|ts|] == ts;
      assert forall k :: 0 <= k < |d| ==> d[k] in d;
    }

    /** Replaces the transitions of state s by one " " transition to each of d, in order. */
    method SetSimplified(s: nat, d: seq<int>)
      requires Valid() && s < |transitions| && forall k :: 0 <= k < |d| ==> 0 <= d[k] < |transitions|
      modifies this
      ensures Valid() && actions == old(actions) && isInitial == old(isInitial) && unsupported == old(unsupported)
      ensures |transitions| == |old(transitions)| && forall q :: 0 <= q < |transitions| && q != s ==> transitions[q] == old(transitions[q])
      ensures |transitions[s]| == |d| && forall k :: 0 <= k < |d| ==> transitions[s] [k] == MooreTransition(" ", d[k] as nat)
    {
      transitions := transitions[s := []];
      for k := 0 to |d|
        invariant Valid() && actions == old(actions) && isInitial == old(isInitial) && unsupported == old(unsupported)
        invariant |transitions| == |old(transitions)| && forall q :: 0 <= q < |transitions| && q != s ==> transitions[q] == old(transitions[q])
        invariant |transitions[s]| == k && forall j :: 0 <= j < k ==> transitions[s][j] == MooreTransition(" ", d[j] as nat)
      {
        transitions := transitions[s := transitions[s] + [MooreTransition(" ", d[k] as nat)]];
      }
    }

    /** reachableStates: breadth-first from the initial states; each state once, in order of discovery. */
    method ReachableStates() returns (visited: seq<nat>)
      requires Valid()
      ensures Distinct(visited)
      ensures forall s: nat :: s in visited <==> Reachable(transitions, isInitial, s)
    {
      var n := |actions|;
      var queue := InitialStates();
      forall s | s in queue
        ensures Reachable(transitions, isInitial, s)
      {
        assert IsPath(transitions, isInitial, [s]);
      }
      visited := [];
      ghost var seen: set<nat> := {};
      while queue != []
        invariant Frontier(visited, queue) && forall x :: x in seen <==> x in visited
        decreases NodeSet(n) - seen, |queue|
      {
        ghost var head := queue[0];
        visited, queue := Visit(visited, queue);
        seen := seen + {head};
      }
      FrontierDone(visited);
    }

    /** With nothing left in the queue, the visited states are exactly the reachable ones. */
    lemma FrontierDone(visited: seq<nat>)
      requires Valid() && Frontier(visited, [])
      ensures forall s: nat :: s in visited <==> Reachable(transitions, isInitial, s)
    {
      ClosedHoldsReachable(transitions, isInitial, visited);
    }

    /**
     * The state of the breadth-first search: everything visited or queued is
     * reachable, nothing is visited twice, and every initial state and every
     * destination of a visited state is visited or queued.
     */
    ghost predicate Frontier(visited: seq<nat>, queue: seq<nat>)
      requires Valid()
      reads this
    {
      (forall s: nat :: s in queue ==> s < |actions| && Reachable(transitions, isInitial, s)) &&
      (forall s: nat :: s in visited ==> s < |actions| && Reachable(transitions, isInitial, s)) &&
      Distinct(visited) &&
      (forall s: nat :: s < |actions| && isInitial[s] ==> s in visited || s in queue) &&
      (forall s, d :: s in visited && d in Dsts(transitions[s]) ==> d in visited || d in queue)
    }

    /** One round of reachableStates: the head of the queue is visited unless it already was, and its destinations are queued. */
    method Visit(visited: seq<nat>, queue: seq<nat>) returns (visited': seq<nat>, queue': seq<nat>)
      requires Valid() && queue != [] && Frontier(visited, queue)
      ensures Frontier(visited', queue')
      ensures if queue[0] in visited then visited' == visited && queue' == queue[1..]
              else visited' == visited + [queue[0]] && queue[0] < |actions|
    {
      var s := queue[0];
      assert s in queue;
      assert forall x :: x in queue <==> x == s || x in queue[1..];
      queue' := queue[1..];
      visited' := visited;
      if s !in visited {
        var next := DstList(transitions[s]);
        ReachableNext(s, next);
        assert forall x :: x in next <==> x in Dsts(transitions[s]);
        visited' := visited + [s];
        queue' := queue' + next;
      }
    }

    /** The destinations of a reachable state are reachable. */
    lemma ReachableNext(s: nat, next: seq<nat>)
      requires Valid() && s < |transitions| && Reachable(transitions, isInitial, s)
      requires next == DstList(transitions[s])
      ensures forall d :: d in next ==> d < |actions| && Reachable(transitions, isInitial, d)
    {
      var p :| IsPath(transitions, isInitial, p) && p[|p| - 1] == s;
      forall d | d in next
        ensures d < |actions| && Reachable(transitions, isInitial, d)
      {
        var k :| 0 <= k < |next| && next[k] == d;
        assert transitions[s][k] in transitions[s];
        PathSnoc(transitions, isInitial, p, d);
      }
    }
  }

  /** One more transition adds at most its own reference to the taken ones. */
  /** Scenario k passing as positive says extends the scenarios that do so by one. */
  lemma PassesStep(trans: seq<seq<MooreTransition>>, actions: seq<Actions>, isStart: seq<bool>,
                   scs: seq<MealyAutomata.Scenario>, k: nat, positive: bool)
    requires Scenarios(scs) && k < |scs|
    requires forall q :: 0 <= q < k ==> Passes(trans, actions, isStart, scs[q]) == positive
    requires Passes(trans, actions, isStart, scs[k]) == positive
    ensures forall q :: 0 <= q < k + 1 ==> Passes(trans, actions, isStart, scs[q]) == positive
  {
  }

  /** The transitions of the first k + 1 simulations: those of the first k and those of scenario k. */
  lemma AllUsedStep(trans: seq<seq<MooreTransition>>, actions: seq<Actions>, isStart: seq<bool>,
                    scs: seq<MealyAutomata.Scenario>, k: nat)
    requires Scenarios(scs) && k < |scs|
    ensures AllUsed(trans, actions, isStart, scs, k + 1) ==
      AllUsed(trans, actions, isStart, scs, k) + ScenarioUsed(trans, actions, isStart, scs[k], |scs[k]|)
  {
  }

  /** A scenario that does not pass as positive says breaks compliance. */
  lemma FailureNotCompliant(trans: seq<seq<MooreTransition>>, actions: seq<Actions>, isStart: seq<bool>,
                            scs: seq<MealyAutomata.Scenario>, k: nat, positive: bool)
    requires Scenarios(scs) && k < |scs| && Passes(trans, actions, isStart, scs[k]) != positive
    ensures !Compliant(trans, actions, isStart, scs, positive)
  {
  }

  /** Every scenario passing as positive says is compliance. */
  lemma AllPassCompliant(trans: seq<seq<MooreTransition>>, actions: seq<Actions>, isStart: seq<bool>,
                         scs: seq<MealyAutomata.Scenario>, positive: bool)
    requires Scenarios(scs)
    requires forall q :: 0 <= q < |scs| ==> Passes(trans, actions, isStart, scs[q]) == positive
    ensures Compliant(trans, actions, isStart, scs, positive)
  {
  }

  /** Skipping a state outside cur adds no successor and takes no transition. */
  lemma SkipState(trans: seq<seq<MooreTransition>>, actions: seq<Actions>, c: set<nat>, j: nat, e: Event, acts: Actions)
    requires j < |trans| && j !in c
    ensures Successors(trans, actions, c, j + 1, e, acts) == Successors(trans, actions, c, j, e, acts)
    ensures Used(trans, actions, c, j + 1, e, acts) == Used(trans, actions, c, j, e, acts)
  {
  }

  lemma UsedFromSnoc(src: nat, ts: seq<MooreTransition>, k: nat, e: Event, acts: Actions, actions: seq<Actions>)
    requires k < |ts| && ts[k].dst < |actions|
    ensures UsedFrom(src, ts[..k + 1], e, acts, actions) ==
              UsedFrom(src, ts[..k], e, acts, actions) +
                (if ts[k].event == e && actions[ts[k].dst] == acts then {TransitionRef(src, ts[k].event, ts[k].dst)} else {})
  {
    assert ts[..k + 1][..k] == ts[..k];
  }

  /** The relabelling of xs by perm, written position by position. */
  method Relabelled<T>(perm: seq<nat>, xs: seq<T>) returns (ys: seq<T>)
    requires IsPermutation(perm, |perm|) && |xs| == |perm|
    ensures ys == Relabel(perm, xs)
  {
    ys := xs;
    for i := 0 to |xs|
      invariant |ys| == |xs|
      invariant forall s :: 0 <= s < i ==> ys[perm[s]] == xs[s]
    {
      ys := ys[perm[i] := xs[i]];
    }
    RelabelUnique(perm, xs, ys);
  }

  /** Any transition table that puts the renamed transitions of s at perm[s] is the relabelling. */
  lemma RelabelTransitionsUnique(perm: seq<nat>, trans: seq<seq<MooreTransition>>, rows: seq<seq<MooreTransition>>)
    requires IsPermutation(perm, |perm|) && |trans| == |rows| == |perm| && Closed(trans)
    requires forall q :: 0 <= q < |trans| ==> rows[perm[q]] == RenameTransitions(perm, trans[q])
    ensures rows == RelabelTransitions(perm, trans)
  {
    var r := RelabelTransitions(perm, trans);
    forall i | 0 <= i < |rows|
      ensures rows[i] == r[i]
    {
      var q := IndexOf(perm, i);
    }
  }

  /** The references of the states below s + 1, renamed, are those below s and those of s. */
  lemma RenameRefsNext(perm: seq<nat>, u: set<TransitionRef>, trans: seq<seq<MooreTransition>>, s: nat)
    requires IsPermutation(perm, |perm|) && |trans| == |perm| && Closed(trans) && s < |trans|
    ensures RenameRefs(perm, u * Refs(trans, s + 1)) ==
              RenameRefs(perm, u * Refs(trans, s)) + RenameRefs(perm, u * RefsOf(s, trans[s]))
  {
    var a, b := u * Refs(trans, s), u * RefsOf(s, trans[s]);
    assert u * Refs(trans, s + 1) == a + b;
    var r := RenameRefs(perm, a + b);
    forall y | y in r
      ensures y in RenameRefs(perm, a) + RenameRefs(perm, b)
    {
      var x: TransitionRef :| x in a + b && y == TransitionRef(perm[x.src], x.event, perm[x.dst]);
      if x in a {
        assert y in RenameRefs(perm, a);
      } else {
        assert y in RenameRefs(perm, b);
      }
    }
  }

  /** A set holding the initial states and closed under transitions holds every reachable state. */
  lemma ClosedHoldsReachable(trans: seq<seq<MooreTransition>>, isInitial: seq<bool>, c: seq<nat>)
    requires forall s: nat :: s < |trans| && s < |isInitial| && isInitial[s] ==> s in c
    requires forall s, d :: s in c && s < |trans| && d in Dsts(trans[s]) ==> d in c
    ensures forall s: nat :: Reachable(trans, isInitial, s) ==> s in c
  {
    forall s: nat | Reachable(trans, isInitial, s)
      ensures s in c
    {
      var p :| IsPath(trans, isInitial, p) && p[|p| - 1] == s;
      ClosedHoldsPaths(trans, isInitial, (set x | x in c), p);
    }
  }

  /** One more transition of state s renames to at most one more reference. */
  lemma RenameRefsStep(perm: seq<nat>, u: set<TransitionRef>, s: nat, ts: seq<MooreTransition>, k: nat)
    requires IsPermutation(perm, |perm|) && s < |perm| && k < |ts| && forall t :: t in ts ==> t.dst < |perm|
    ensures RenameRefs(perm, u * RefsOf(s, ts[..k + 1])) ==
              RenameRefs(perm, u * RefsOf(s, ts[..k])) +
                (if TransitionRef(s, ts[k].event, ts[k].dst) in u then {TransitionRef(perm[s], ts[k].event, perm[ts[k].dst])} else {})
  {
    assert forall t :: t in ts[..k + 1] <==> t in ts[..k] || t == ts[k];
    assert u * RefsOf(s, ts[..k + 1]) == u * RefsOf(s, ts[..k]) + (u * {TransitionRef(s, ts[k].event, ts[k].dst)});
  }
}
