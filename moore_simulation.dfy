/**
 * The Moore-automaton vocabulary shared by the plant automaton
 * (src/structures/plant/NondetMooreAutomaton.java) and the nondeterministic
 * Moore automaton (src/structures/moore/NondetMooreAutomaton.java): states
 * 0..n-1 showing action sets, (event, destination) transitions per state,
 * and the subset simulation both classes use to check a scenario, with its
 * characterisation by runs.
 */
module MooreSimulation {
  import opened Common
  import MealyAutomata

  datatype MooreTransition = MooreTransition(event: Event, dst: nat)

  /** The destinations of ts on event e whose actions set-equal acts. */
  function Matching(ts: seq<MooreTransition>, e: Event, acts: Actions, actions: seq<Actions>): (r: set<nat>)
    ensures forall d: nat :: d in r <==> MooreTransition(e, d) in ts && d < |actions| && actions[d] == acts
  {
    if ts == [] then {}
    else
      var t := ts[|ts| - 1];
      assert forall x :: x in ts <==> x in ts[..|ts| - 1] || x == t;
      Matching(ts[..|ts| - 1], e, acts, actions) +
        (if t.event == e && t.dst < |actions| && actions[t.dst] == acts then {t.dst} else {})
  }

  /** The matching destinations of the states of cur below upTo. */
  function Successors(trans: seq<seq<MooreTransition>>, actions: seq<Actions>, cur: set<nat>, upTo: nat,
                      e: Event, acts: Actions): (r: set<nat>)
    requires upTo <= |trans|
    ensures forall d :: d in r ==> d < |actions|
  {
    if upTo == 0 then {}
    else
      Successors(trans, actions, cur, upTo - 1, e, acts) +
        (if upTo - 1 in cur then Matching(trans[upTo - 1], e, acts, actions) else {})
  }

  /** Every successor comes from a state of cur below upTo. */
  lemma {:induction false} SuccessorWitness(trans: seq<seq<MooreTransition>>, actions: seq<Actions>, cur: set<nat>,
                                           upTo: nat, e: Event, acts: Actions, d: nat) returns (j: nat)
    requires upTo <= |trans| && d in Successors(trans, actions, cur, upTo, e, acts)
    ensures j < upTo && j in cur && d in Matching(trans[j], e, acts, actions)
  {
    if upTo - 1 in cur && d in Matching(trans[upTo - 1], e, acts, actions) {
      j := upTo - 1;
    } else {
      j := SuccessorWitness(trans, actions, cur, upTo - 1, e, acts, d);
    }
  }

  /** Every matching destination of a state of cur below upTo is a successor. */
  lemma {:induction false} SuccessorFrom(trans: seq<seq<MooreTransition>>, actions: seq<Actions>, cur: set<nat>,
                                        upTo: nat, e: Event, acts: Actions, j: nat, d: nat)
    requires upTo <= |trans| && j < upTo && j in cur && d in Matching(trans[j], e, acts, actions)
    ensures d in Successors(trans, actions, cur, upTo, e, acts)
  {
    if j < upTo - 1 {
      SuccessorFrom(trans, actions, cur, upTo - 1, e, acts, j, d);
    }
  }

  /** The start states showing acts. */
  function Initial(actions: seq<Actions>, isStart: seq<bool>, acts: Actions): (r: set<nat>)
    ensures forall s: nat :: s in r <==> s < |actions| && s < |isStart| && isStart[s] && actions[s] == acts
  {
    set s: nat | s < |actions| && s < |isStart| && isStart[s] && actions[s] == acts
  }

  /** The states consistent with positions 0..i of sc. */
  function Reach(trans: seq<seq<MooreTransition>>, actions: seq<Actions>, isStart: seq<bool>,
                 sc: MealyAutomata.Scenario, i: nat): set<nat>
    requires MealyAutomata.WellFormedScenario(sc) && i < |sc|
  {
    if i == 0 then Initial(actions, isStart, sc[0].actions)
    else Successors(trans, actions, Reach(trans, actions, isStart, sc, i - 1), |trans|, sc[i].events[0], sc[i].actions)
  }

  /** A scenario passes when some state is consistent with all of it. */
  predicate Passes(trans: seq<seq<MooreTransition>>, actions: seq<Actions>, isStart: seq<bool>, sc: MealyAutomata.Scenario)
    requires MealyAutomata.WellFormedScenario(sc) && |sc| >= 1
  {
    Reach(trans, actions, isStart, sc, |sc| - 1) != {}
  }

  predicate Scenarios(scs: seq<MealyAutomata.Scenario>)
  {
    forall k :: 0 <= k < |scs| ==> MealyAutomata.WellFormedScenario(scs[k]) && |scs[k]| >= 1
  }

  /** isCompliantWithScenarios: every scenario passes exactly when positive says so. */
  predicate Compliant(trans: seq<seq<MooreTransition>>, actions: seq<Actions>, isStart: seq<bool>,
                      scs: seq<MealyAutomata.Scenario>, positive: bool)
    requires Scenarios(scs)
  {
    forall k :: 0 <= k < |scs| ==> Passes(trans, actions, isStart, scs[k]) == positive
  }

  /**
   * A run of the automaton on the first n positions of sc: a start state
   * showing the first actions, then along each position's first event a
   * transition to a state showing that position's actions.
   */
  ghost predicate IsRun(trans: seq<seq<MooreTransition>>, actions: seq<Actions>, isStart: seq<bool>,
                        sc: MealyAutomata.Scenario, n: nat, path: seq<nat>)
    requires MealyAutomata.WellFormedScenario(sc) && n <= |sc|
  {
    |path| == n >= 1 &&
    (forall k :: 0 <= k < n ==> path[k] < |actions| && path[k] < |trans| && actions[path[k]] == sc[k].actions) &&
    path[0] < |isStart| && isStart[path[0]] &&
    (forall k :: 1 <= k < n ==> MooreTransition(sc[k].events[0], path[k]) in trans[path[k - 1]])
  }

  /** The simulated set after position i is exactly the set of states where a run of positions 0..i can end. */
  lemma ReachIsRuns(trans: seq<seq<MooreTransition>>, actions: seq<Actions>, isStart: seq<bool>,
                    sc: MealyAutomata.Scenario, i: nat, s: nat)
    requires MealyAutomata.WellFormedScenario(sc) && i < |sc| && |trans| == |actions|
    ensures s in Reach(trans, actions, isStart, sc, i) <==> exists path :: IsRun(trans, actions, isStart, sc, i + 1, path) && path[i] == s
  {
    if s in Reach(trans, actions, isStart, sc, i) {
      var path := ReachHasRun(trans, actions, isStart, sc, i, s);
    }
    if exists path :: IsRun(trans, actions, isStart, sc, i + 1, path) && path[i] == s {
      var path :| IsRun(trans, actions, isStart, sc, i + 1, path) && path[i] == s;
      RunInReach(trans, actions, isStart, sc, i, path);
    }
  }

  /** Every simulated state ends a run. */
  lemma {:induction false} ReachHasRun(trans: seq<seq<MooreTransition>>, actions: seq<Actions>, isStart: seq<bool>,
                                      sc: MealyAutomata.Scenario, i: nat, s: nat) returns (path: seq<nat>)
    requires MealyAutomata.WellFormedScenario(sc) && i < |sc| && |trans| == |actions|
    requires s in Reach(trans, actions, isStart, sc, i)
    ensures IsRun(trans, actions, isStart, sc, i + 1, path) && path[i] == s
  {
    if i == 0 {
      path := [s];
    } else {
      var j := SuccessorWitness(trans, actions, Reach(trans, actions, isStart, sc, i - 1), |trans|,
                                sc[i].events[0], sc[i].actions, s);
      var pre := ReachHasRun(trans, actions, isStart, sc, i - 1, j);
      path := pre + [s];
      assert forall k :: 0 <= k < i ==> path[k] == pre[k];
    }
  }

  /** The last state of every run is simulated. */
  lemma {:induction false} RunInReach(trans: seq<seq<MooreTransition>>, actions: seq<Actions>, isStart: seq<bool>,
                                     sc: MealyAutomata.Scenario, i: nat, path: seq<nat>)
    requires MealyAutomata.WellFormedScenario(sc) && i < |sc| && |trans| == |actions|
    requires IsRun(trans, actions, isStart, sc, i + 1, path)
    ensures path[i] in Reach(trans, actions, isStart, sc, i)
  {
    if i > 0 {
      var pre := path[..i];
      assert forall k :: 0 <= k < i ==> pre[k] == path[k];
      RunInReach(trans, actions, isStart, sc, i - 1, pre);
      SuccessorFrom(trans, actions, Reach(trans, actions, isStart, sc, i - 1), |trans|,
                    sc[i].events[0], sc[i].actions, path[i - 1], path[i]);
    }
  }

  /** A scenario passes exactly when the automaton has a run on all of it. */
  lemma PassesIffRun(trans: seq<seq<MooreTransition>>, actions: seq<Actions>, isStart: seq<bool>, sc: MealyAutomata.Scenario)
    requires MealyAutomata.WellFormedScenario(sc) && |sc| >= 1 && |trans| == |actions|
    ensures Passes(trans, actions, isStart, sc) <==> exists path :: IsRun(trans, actions, isStart, sc, |sc|, path)
  {
    var i := |sc| - 1;
    var r := Reach(trans, actions, isStart, sc, i);
    if r != {} {
      var s :| s in r;
      var path := ReachHasRun(trans, actions, isStart, sc, i, s);
    }
    if exists path :: IsRun(trans, actions, isStart, sc, |sc|, path) {
      var path :| IsRun(trans, actions, isStart, sc, |sc|, path);
      RunInReach(trans, actions, isStart, sc, i, path);
    }
  }

  /** The states whose flag is set in b. */
  function SetOf(b: seq<bool>): (r: set<nat>)
    ensures forall d: nat :: d in r <==> d < |b| && b[d]
  {
    set d: nat | d < |b| && b[d]
  }

  /** One more transition adds at most its own destination. */
  lemma MatchingSnoc(ts: seq<MooreTransition>, k: nat, e: Event, acts: Actions, actions: seq<Actions>)
    requires k < |ts| && ts[k].dst < |actions|
    ensures Matching(ts[..k + 1], e, acts, actions) ==
              Matching(ts[..k], e, acts, actions) + (if ts[k].event == e && actions[ts[k].dst] == acts then {ts[k].dst} else {})
  {
    assert ts[..k + 1][..k] == ts[..k];
  }

  /** Raising the flag of the k-th destination keeps the flags equal to base plus the matches of the first transitions. */
  lemma FlagMatching(b: seq<bool>, base: set<nat>, ts: seq<MooreTransition>, k: nat, e: Event, acts: Actions,
                     actions: seq<Actions>)
    requires k < |ts| && ts[k].dst < |actions| == |b|
    requires SetOf(b) == base + Matching(ts[..k], e, acts, actions)
    ensures SetOf(b[ts[k].dst := b[ts[k].dst] || (ts[k].event == e && actions[ts[k].dst] == acts)]) ==
              base + Matching(ts[..k + 1], e, acts, actions)
  {
    MatchingSnoc(ts, k, e, acts, actions);
    SetOfUpdate(b, ts[k].dst, ts[k].event == e && actions[ts[k].dst] == acts);
  }

  /** Raising the flag of d by v adds d exactly when v holds. */
  lemma SetOfUpdate(b: seq<bool>, d: nat, v: bool)
    requires d < |b|
    ensures SetOf(b[d := b[d] || v]) == SetOf(b) + (if v then {d} else {})
  {
  }

  /** The start states showing acts, as a flag array (the first loop of the simulation). */
  method InitialFlags(actions: seq<Actions>, isStart: seq<bool>, acts: Actions) returns (cur: array<bool>)
    requires |isStart| >= |actions|
    ensures fresh(cur) && cur.Length == |actions| && SetOf(cur[..]) == Initial(actions, isStart, acts)
  {
    cur := new bool[|actions|](_ => false);
    for i := 0 to |actions|
      invariant SetOf(cur[..]) == Initial(actions, isStart, acts) * NodeSet(i)
      invariant forall d :: i <= d < cur.Length ==> !cur[d]
    {
      SetOfUpdate(cur[..], i, isStart[i] && actions[i] == acts);
      cur[i] := cur[i] || (isStart[i] && actions[i] == acts);
    }
  }
}
