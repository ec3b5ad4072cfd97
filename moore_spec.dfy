/**
 * Specification functions of the nondeterministic Moore automaton
 * (src/structures/moore/NondetMooreAutomaton.java): the transitions the
 * scenario simulation takes, all transitions, determinism, the
 * deterministic replays behind the compliance measures, reachability and
 * the relabelling of states by a permutation.
 */
module MooreSpec {
  import opened Common
  import opened MooreSimulation
  import MealyAutomata

  /**
   * A transition named by its source, event and destination; two
   * transitions with the same three components are the same transition.
   */
  datatype TransitionRef = TransitionRef(src: nat, event: Event, dst: nat)

  /** The transitions in ts (of state src) on event e whose destinations show acts. */
  function UsedFrom(src: nat, ts: seq<MooreTransition>, e: Event, acts: Actions, actions: seq<Actions>): (r: set<TransitionRef>)
    ensures forall x :: x in r <==>
              x.src == src && x.event == e && MooreTransition(e, x.dst) in ts && x.dst < |actions| && actions[x.dst] == acts
  {
    if ts == [] then {}
    else
      var t := ts[|ts| - 1];
      assert forall y :: y in ts <==> y in ts[..|ts| - 1] || y == t;
      UsedFrom(src, ts[..|ts| - 1], e, acts, actions) +
        (if t.event == e && t.dst < |actions| && actions[t.dst] == acts then {TransitionRef(src, e, t.dst)} else {})
  }

  /** The transitions one simulation step takes from the states of cur below upTo. */
  function Used(trans: seq<seq<MooreTransition>>, actions: seq<Actions>, cur: set<nat>, upTo: nat,
                e: Event, acts: Actions): (r: set<TransitionRef>)
    requires upTo <= |trans|
    ensures forall x :: x in r <==> x.src < upTo && x.src in cur && x in UsedFrom(x.src, trans[x.src], e, acts, actions)
  {
    if upTo == 0 then {}
    else
      Used(trans, actions, cur, upTo - 1, e, acts) +
        (if upTo - 1 in cur then UsedFrom(upTo - 1, trans[upTo - 1], e, acts, actions) else {})
  }

  /** The transitions the simulation takes on positions 1..n-1 of sc. */
  function ScenarioUsed(trans: seq<seq<MooreTransition>>, actions: seq<Actions>, isStart: seq<bool>,
                        sc: MealyAutomata.Scenario, n: nat): set<TransitionRef>
    requires MealyAutomata.WellFormedScenario(sc) && n <= |sc|
  {
    if n <= 1 then {}
    else
      ScenarioUsed(trans, actions, isStart, sc, n - 1) +
        Used(trans, actions, Reach(trans, actions, isStart, sc, n - 2), |trans|, sc[n - 1].events[0], sc[n - 1].actions)
  }

  /** The transitions the simulation takes on the first m scenarios. */
  function AllUsed(trans: seq<seq<MooreTransition>>, actions: seq<Actions>, isStart: seq<bool>,
                   scs: seq<MealyAutomata.Scenario>, m: nat): set<TransitionRef>
    requires Scenarios(scs) && m <= |scs|
  {
    if m == 0 then {}
    else AllUsed(trans, actions, isStart, scs, m - 1) + ScenarioUsed(trans, actions, isStart, scs[m - 1], |scs[m - 1]|)
  }

  /** The transitions of state src. */
  function RefsOf(src: nat, ts: seq<MooreTransition>): (r: set<TransitionRef>)
    ensures forall x :: x in r <==> x.src == src && MooreTransition(x.event, x.dst) in ts
  {
    set t | t in ts :: TransitionRef(src, t.event, t.dst)
  }

  /** The transitions of the states below n. */
  function Refs(trans: seq<seq<MooreTransition>>, n: nat): (r: set<TransitionRef>)
    requires n <= |trans|
    ensures forall x :: x in r <==> x.src < n && MooreTransition(x.event, x.dst) in trans[x.src]
  {
    if n == 0 then {} else Refs(trans, n - 1) + RefsOf(n - 1, trans[n - 1])
  }

  /** A run of n + 1 positions is a run of n positions followed by a matching transition. */
  lemma RunSnoc(trans: seq<seq<MooreTransition>>, actions: seq<Actions>, isStart: seq<bool>,
                sc: MealyAutomata.Scenario, n: nat, pre: seq<nat>, d: nat)
    requires MealyAutomata.WellFormedScenario(sc) && n < |sc| && |trans| == |actions|
    requires IsRun(trans, actions, isStart, sc, n, pre)
    requires MooreTransition(sc[n].events[0], d) in trans[pre[n - 1]] && d < |actions| && actions[d] == sc[n].actions
    ensures IsRun(trans, actions, isStart, sc, n + 1, pre + [d])
  {
    assert forall k :: 0 <= k < n ==> (pre + [d])[k] == pre[k];
  }

  /** The first n positions of a run of n + 1 positions. */
  lemma RunPrefix(trans: seq<seq<MooreTransition>>, actions: seq<Actions>, isStart: seq<bool>,
                  sc: MealyAutomata.Scenario, n: nat, path: seq<nat>)
    requires MealyAutomata.WellFormedScenario(sc) && 1 <= n < |sc|
    requires IsRun(trans, actions, isStart, sc, n + 1, path)
    ensures IsRun(trans, actions, isStart, sc, n, path[..n])
  {
    assert forall k :: 0 <= k < n ==> path[..n][k] == path[k];
  }

  /** The last transition of a run of n + 1 positions is taken by the simulation of position n. */
  function LastStep(sc: MealyAutomata.Scenario, path: seq<nat>): TransitionRef
    requires MealyAutomata.WellFormedScenario(sc) && 2 <= |path| <= |sc|
  {
    TransitionRef(path[|path| - 2], sc[|path| - 1].events[0], path[|path| - 1])
  }

  /**
   * A transition is taken by the simulation of positions 1..n-1 exactly
   * when it is the last transition of some run of at most n positions.
   */
  lemma ScenarioUsedIsRunStep(trans: seq<seq<MooreTransition>>, actions: seq<Actions>, isStart: seq<bool>,
                              sc: MealyAutomata.Scenario, n: nat, x: TransitionRef)
    requires MealyAutomata.WellFormedScenario(sc) && n <= |sc| && |trans| == |actions|
    ensures x in ScenarioUsed(trans, actions, isStart, sc, n) <==>
              exists path :: 2 <= |path| <= n && IsRun(trans, actions, isStart, sc, |path|, path) && x == LastStep(sc, path)
  {
    if x in ScenarioUsed(trans, actions, isStart, sc, n) {
      var path := UsedHasRun(trans, actions, isStart, sc, n, x);
    }
    if exists path :: 2 <= |path| <= n && IsRun(trans, actions, isStart, sc, |path|, path) && x == LastStep(sc, path) {
      var path :| 2 <= |path| <= n && IsRun(trans, actions, isStart, sc, |path|, path) && x == LastStep(sc, path);
      RunIsUsed(trans, actions, isStart, sc, n, path);
    }
  }

  /** Every taken transition ends a run. */
  lemma {:induction false} UsedHasRun(trans: seq<seq<MooreTransition>>, actions: seq<Actions>, isStart: seq<bool>,
                                     sc: MealyAutomata.Scenario, n: nat, x: TransitionRef) returns (path: seq<nat>)
    requires MealyAutomata.WellFormedScenario(sc) && n <= |sc| && |trans| == |actions|
    requires x in ScenarioUsed(trans, actions, isStart, sc, n)
    ensures 2 <= |path| <= n && IsRun(trans, actions, isStart, sc, |path|, path) && x == LastStep(sc, path)
  {
    var cur := Reach(trans, actions, isStart, sc, n - 2);
    if x in Used(trans, actions, cur, |trans|, sc[n - 1].events[0], sc[n - 1].actions) {
      var pre := ReachHasRun(trans, actions, isStart, sc, n - 2, x.src);
      RunSnoc(trans, actions, isStart, sc, n - 1, pre, x.dst);
      path := pre + [x.dst];
    } else {
      path := UsedHasRun(trans, actions, isStart, sc, n - 1, x);
    }
  }

  /** The last transition of every run is taken. */
  lemma {:induction false} RunIsUsed(trans: seq<seq<MooreTransition>>, actions: seq<Actions>, isStart: seq<bool>,
                                    sc: MealyAutomata.Scenario, n: nat, path: seq<nat>)
    requires MealyAutomata.WellFormedScenario(sc) && n <= |sc| && |trans| == |actions|
    requires 2 <= |path| <= n && IsRun(trans, actions, isStart, sc, |path|, path)
    ensures LastStep(sc, path) in ScenarioUsed(trans, actions, isStart, sc, n)
  {
    if |path| < n {
      RunIsUsed(trans, actions, isStart, sc, n - 1, path);
    } else {
      var x := LastStep(sc, path);
      RunPrefix(trans, actions, isStart, sc, n - 1, path);
      RunInReach(trans, actions, isStart, sc, n - 2, path[..n - 1]);
      assert x in UsedFrom(x.src, trans[x.src], sc[n - 1].events[0], sc[n - 1].actions, actions);
    }
  }

  /** The destinations of the transitions in ts. */
  function Dsts(ts: seq<MooreTransition>): (r: set<nat>)
    ensures forall d :: d in r <==> exists t :: t in ts && t.dst == d
  {
    set t | t in ts :: t.dst
  }

  /** The destinations of the transitions in ts on event e (allDst). */
  function AllDst(ts: seq<MooreTransition>, e: Event): (r: set<nat>)
    ensures forall d :: d in r <==> MooreTransition(e, d) in ts
  {
    set t | t in ts && t.event == e :: t.dst
  }

  /** ts without its first transition equal to t (List.remove); ts itself when there is none. */
  function RemoveFirst(ts: seq<MooreTransition>, t: MooreTransition): seq<MooreTransition>
  {
    if ts == [] then []
    else if ts[0] == t then ts[1..] else [ts[0]] + RemoveFirst(ts[1..], t)
  }

  /** Removal takes away one occurrence of t, if there is one, and nothing else. */
  lemma {:induction false} RemoveFirstCount(ts: seq<MooreTransition>, t: MooreTransition)
    ensures multiset(RemoveFirst(ts, t)) == multiset(ts) - multiset{t}
  {
    if ts != [] {
      assert ts == [ts[0]] + ts[1..];
      RemoveFirstCount(ts[1..], t);
    }
  }

  /** Some transition of ts is on event e (hasTransition). */
  predicate HasEvent(ts: seq<MooreTransition>, e: Event)
  {
    exists k :: 0 <= k < |ts| && ts[k].event == e
  }

  /** Every transition leads to a state. */
  predicate Closed(trans: seq<seq<MooreTransition>>)
  {
    forall s, t :: 0 <= s < |trans| && t in trans[s] ==> t.dst < |trans|
  }

  /** The initial states among the first n. */
  function InitialSet(isInitial: seq<bool>, n: nat): (r: set<nat>)
    requires n <= |isInitial|
    ensures forall s: nat :: s in r <==> s < n && isInitial[s]
  {
    set s: nat | s < n && isInitial[s]
  }

  /**
   * At most one initial state, and from every state each event leads to at
   * most one destination.
   */
  predicate Deterministic(trans: seq<seq<MooreTransition>>, isInitial: seq<bool>)
    requires |trans| <= |isInitial|
  {
    (forall s, s' :: s in InitialSet(isInitial, |trans|) && s' in InitialSet(isInitial, |trans|) ==> s == s') &&
    (forall s, t, t' :: 0 <= s < |trans| && t in trans[s] && t' in trans[s] && t.event == t'.event ==> t.dst == t'.dst)
  }

  /** A set has more than one element exactly when it holds two different ones. */
  lemma MoreThanOne(r: set<nat>)
    ensures |r| > 1 <==> exists a, b :: a in r && b in r && a != b
  {
    if |r| > 1 {
      var a :| a in r;
      assert |r - {a}| == |r| - 1;
      var b :| b in r - {a};
    }
    if exists a, b :: a in r && b in r && a != b {
      var a, b :| a in r && b in r && a != b;
      assert {a, b} <= r;
      assert |r - {a}| == |r| - 1;
      assert b in r - {a};
    }
  }

  /** The destination of the first transition in ts on event e whose destination shows acts. */
  function FirstMatch(ts: seq<MooreTransition>, e: Event, acts: Actions, actions: seq<Actions>): (r: Option<nat>)
    ensures r.Some? ==> MooreTransition(e, r.value) in ts && r.value < |actions| && actions[r.value] == acts
    ensures r.None? <==> forall d: nat :: MooreTransition(e, d) in ts ==> !(d < |actions| && actions[d] == acts)
  {
    if ts == [] then None
    else if ts[0].event == e && ts[0].dst < |actions| && actions[ts[0].dst] == acts then Some(ts[0].dst)
    else
      assert forall t :: t in ts <==> t == ts[0] || t in ts[1..];
      FirstMatch(ts[1..], e, acts, actions)
  }

  /** The destination of the first transition in ts on event e. */
  function FirstOn(ts: seq<MooreTransition>, e: Event): (r: Option<nat>)
    ensures r.Some? ==> MooreTransition(e, r.value) in ts
    ensures r.None? <==> forall d: nat :: MooreTransition(e, d) !in ts
  {
    if ts == [] then None
    else if ts[0].event == e then Some(ts[0].dst)
    else
      assert forall t :: t in ts <==> t == ts[0] || t in ts[1..];
      FirstOn(ts[1..], e)
  }

  /**
   * The deterministic replay behind strongCompliance and mediumCompliance:
   * standing in node before position pos, the first position that cannot be
   * reproduced (the first actions differ at position 0, no transition on the
   * position's first event leads to its actions later), or |sc| if none.
   */
  function FailPos(trans: seq<seq<MooreTransition>>, actions: seq<Actions>, node: nat,
                   sc: MealyAutomata.Scenario, pos: nat): (r: nat)
    requires |trans| == |actions| && Closed(trans) && node < |trans|
    requires MealyAutomata.WellFormedScenario(sc) && pos <= |sc|
    ensures pos <= r <= |sc|
    decreases |sc| - pos
  {
    if pos == |sc| then |sc|
    else if pos == 0 then
      (if actions[node] == sc[0].actions then FailPos(trans, actions, node, sc, 1) else 0)
    else
      match FirstMatch(trans[node], sc[pos].events[0], sc[pos].actions, actions)
      case None => pos
      case Some(v) => FailPos(trans, actions, v, sc, pos + 1)
  }

  /**
   * The deterministic replay behind weakCompliance: from position 1 on the
   * node follows the first transition on the position's first event (or
   * stays when there is none); the result counts the positions from pos on
   * whose actions the node shows.
   */
  function WeakMatched(trans: seq<seq<MooreTransition>>, actions: seq<Actions>, node: nat,
                       sc: MealyAutomata.Scenario, pos: nat): (r: nat)
    requires |trans| == |actions| && Closed(trans) && node < |trans|
    requires MealyAutomata.WellFormedScenario(sc) && pos <= |sc|
    ensures r <= |sc| - pos
    decreases |sc| - pos
  {
    if pos == |sc| then 0
    else
      var next := if pos == 0 then node
                  else match FirstOn(trans[node], sc[pos].events[0]) case None => node case Some(v) => v;
      (if actions[next] == sc[pos].actions then 1 else 0) + WeakMatched(trans, actions, next, sc, pos + 1)
  }

  /**
   * A replay that reproduces positions pos.. from the end node of a run of
   * the first pos positions extends that run to all of sc.
   */
  lemma {:induction false} ReplayIsRun(trans: seq<seq<MooreTransition>>, actions: seq<Actions>, isInitial: seq<bool>,
                                      sc: MealyAutomata.Scenario, pos: nat, path: seq<nat>)
    requires |trans| == |actions| && Closed(trans)
    requires MealyAutomata.WellFormedScenario(sc) && 1 <= pos <= |sc|
    requires IsRun(trans, actions, isInitial, sc, pos, path)
    requires FailPos(trans, actions, path[pos - 1], sc, pos) == |sc|
    ensures exists run :: IsRun(trans, actions, isInitial, sc, |sc|, run)
    decreases |sc| - pos
  {
    if pos < |sc| {
      var v := FirstMatch(trans[path[pos - 1]], sc[pos].events[0], sc[pos].actions, actions).value;
      RunSnoc(trans, actions, isInitial, sc, pos, path, v);
      ReplayIsRun(trans, actions, isInitial, sc, pos + 1, path + [v]);
    }
  }

  /**
   * Strong compliance is sound for the subset simulation: a scenario the
   * replay from an initial state reproduces completely passes.
   */
  lemma StrongCompliancePasses(trans: seq<seq<MooreTransition>>, actions: seq<Actions>, isInitial: seq<bool>,
                               start: nat, sc: MealyAutomata.Scenario)
    requires |trans| == |actions| && Closed(trans) && start < |trans| && start < |isInitial| && isInitial[start]
    requires MealyAutomata.WellFormedScenario(sc) && |sc| >= 1
    requires FailPos(trans, actions, start, sc, 0) == |sc|
    ensures Passes(trans, actions, isInitial, sc)
  {
    ReplayIsRun(trans, actions, isInitial, sc, 1, [start]);
    PassesIffRun(trans, actions, isInitial, sc);
  }

  /**
   * In a deterministic automaton, a replay that reproduces every position
   * from pos on also shows the recorded actions at every one of those
   * positions when it follows first transitions by event alone.
   */
  lemma {:induction false} StrongImpliesWeak(trans: seq<seq<MooreTransition>>, actions: seq<Actions>, isInitial: seq<bool>,
                                            node: nat, sc: MealyAutomata.Scenario, pos: nat)
    requires |trans| == |actions| && |trans| <= |isInitial| && Closed(trans) && node < |trans|
    requires Deterministic(trans, isInitial)
    requires MealyAutomata.WellFormedScenario(sc) && pos <= |sc|
    requires FailPos(trans, actions, node, sc, pos) == |sc|
    ensures WeakMatched(trans, actions, node, sc, pos) == |sc| - pos
    decreases |sc| - pos
  {
    if pos < |sc| {
      if pos == 0 {
        StrongImpliesWeak(trans, actions, isInitial, node, sc, 1);
      } else {
        var e := sc[pos].events[0];
        var v := FirstMatch(trans[node], e, sc[pos].actions, actions).value;
        var w := FirstOn(trans[node], e).value;
        assert MooreTransition(e, v) in trans[node] && MooreTransition(e, w) in trans[node];
        StrongImpliesWeak(trans, actions, isInitial, v, sc, pos + 1);
      }
    }
  }

  /** A path from an initial state along transitions. */
  ghost predicate IsPath(trans: seq<seq<MooreTransition>>, isInitial: seq<bool>, p: seq<nat>)
  {
    |p| >= 1 && p[0] < |isInitial| && isInitial[p[0]] &&
    (forall k :: 0 <= k < |p| ==> p[k] < |trans|) &&
    (forall k :: 1 <= k < |p| ==> p[k] in Dsts(trans[p[k - 1]]))
  }

  /** A state some path from an initial state ends in. */
  ghost predicate Reachable(trans: seq<seq<MooreTransition>>, isInitial: seq<bool>, s: nat)
  {
    exists p :: IsPath(trans, isInitial, p) && p[|p| - 1] == s
  }

  /** A path followed by one more transition is a path. */
  lemma PathSnoc(trans: seq<seq<MooreTransition>>, isInitial: seq<bool>, p: seq<nat>, d: nat)
    requires IsPath(trans, isInitial, p) && d < |trans| && d in Dsts(trans[p[|p| - 1]])
    ensures IsPath(trans, isInitial, p + [d]) && Reachable(trans, isInitial, d)
  {
    var q := p + [d];
    assert forall k :: 0 <= k < |p| ==> q[k] == p[k];
    assert q[|q| - 1] == d;
  }

  /**
   * A set of states that holds every initial state and every destination of
   * its members holds every state a path reaches.
   */
  lemma {:induction false} ClosedHoldsPaths(trans: seq<seq<MooreTransition>>, isInitial: seq<bool>, c: set<nat>, p: seq<nat>)
    requires forall s: nat :: s < |trans| && s < |isInitial| && isInitial[s] ==> s in c
    requires forall s, d :: s in c && s < |trans| && d in Dsts(trans[s]) ==> d in c
    requires IsPath(trans, isInitial, p)
    ensures p[|p| - 1] in c
  {
    if |p| > 1 {
      var q := p[..|p| - 1];
      assert forall k :: 0 <= k < |q| ==> q[k] == p[k];
      ClosedHoldsPaths(trans, isInitial, c, q);
    }
  }

  /** perm maps 0..n-1 one-to-one onto 0..n-1. */
  predicate IsPermutation(perm: seq<nat>, n: nat)
  {
    |perm| == n && (forall i :: 0 <= i < n ==> perm[i] < n) && Distinct(perm) && (forall j: nat :: j < n ==> j in perm)
  }

  /** The position of i in perm. */
  function IndexOf(perm: seq<nat>, i: nat): (k: nat)
    requires i in perm
    ensures k < |perm| && perm[k] == i
  {
    if perm[0] == i then 0 else 1 + IndexOf(perm[1..], i)
  }

  /** The inverse permutation. */
  function Inverse(perm: seq<nat>): (inv: seq<nat>)
    requires IsPermutation(perm, |perm|)
    ensures |inv| == |perm|
    ensures forall i :: 0 <= i < |perm| ==> inv[i] < |perm| && perm[inv[i]] == i
    ensures forall s :: 0 <= s < |perm| ==> inv[perm[s]] == s
  {
    seq(|perm|, i requires 0 <= i < |perm| => IndexOf(perm, i))
  }

  /** The transitions ts with every destination d renamed perm[d]. */
  function RenameTransitions(perm: seq<nat>, ts: seq<MooreTransition>): (r: seq<MooreTransition>)
    requires forall t :: t in ts ==> t.dst < |perm|
    ensures |r| == |ts| && forall k :: 0 <= k < |ts| ==> r[k] == MooreTransition(ts[k].event, perm[ts[k].dst])
  {
    seq(|ts|, k requires 0 <= k < |ts| => MooreTransition(ts[k].event, perm[ts[k].dst]))
  }

  /** Relabelling by perm: state perm[s] carries what state s carried. */
  function Relabel<T>(perm: seq<nat>, xs: seq<T>): (r: seq<T>)
    requires IsPermutation(perm, |perm|) && |xs| == |perm|
    ensures |r| == |xs| && forall s :: 0 <= s < |xs| ==> r[perm[s]] == xs[s]
  {
    var inv := Inverse(perm);
    seq(|xs|, i requires 0 <= i < |xs| => xs[inv[i]])
  }

  /** The transitions relabelled by perm: state perm[s] gets the transitions of s, with destinations renamed. */
  function RelabelTransitions(perm: seq<nat>, trans: seq<seq<MooreTransition>>): (r: seq<seq<MooreTransition>>)
    requires IsPermutation(perm, |perm|) && |trans| == |perm| && Closed(trans)
    ensures |r| == |trans| && forall s :: 0 <= s < |trans| ==> r[perm[s]] == RenameTransitions(perm, trans[s])
  {
    var inv := Inverse(perm);
    seq(|trans|, i requires 0 <= i < |trans| => RenameTransitions(perm, trans[inv[i]]))
  }

  /**
   * The state labels of swapStates as written: new state i takes the actions
   * and initial flag of old state perm[i].
   */
  function LabelsAsWritten<T>(perm: seq<nat>, xs: seq<T>): (r: seq<T>)
    requires IsPermutation(perm, |perm|) && |xs| == |perm|
    ensures |r| == |xs| && forall i :: 0 <= i < |xs| ==> r[i] == xs[perm[i]]
  {
    seq(|xs|, i requires 0 <= i < |xs| => xs[perm[i]])
  }

  /** The states of a path renamed by perm. */
  function RenamePath(perm: seq<nat>, path: seq<nat>): (r: seq<nat>)
    requires forall k :: 0 <= k < |path| ==> path[k] < |perm|
    ensures |r| == |path| && forall k :: 0 <= k < |path| ==> r[k] == perm[path[k]]
  {
    seq(|path|, k requires 0 <= k < |path| => perm[path[k]])
  }

  /** A run of the automaton, renamed, is a run of the relabelled automaton. */
  lemma RelabelKeepsRun(perm: seq<nat>, trans: seq<seq<MooreTransition>>, actions: seq<Actions>, isInitial: seq<bool>,
                        sc: MealyAutomata.Scenario, n: nat, path: seq<nat>)
    requires IsPermutation(perm, |perm|) && |trans| == |actions| == |isInitial| == |perm| && Closed(trans)
    requires MealyAutomata.WellFormedScenario(sc) && n <= |sc| && IsRun(trans, actions, isInitial, sc, n, path)
    ensures IsRun(RelabelTransitions(perm, trans), Relabel(perm, actions), Relabel(perm, isInitial), sc, n,
                  RenamePath(perm, path))
  {
    var q := RenamePath(perm, path);
    var trans' := RelabelTransitions(perm, trans);
    forall k | 1 <= k < n
      ensures MooreTransition(sc[k].events[0], q[k]) in trans'[q[k - 1]]
    {
      var ts := trans[path[k - 1]];
      var j :| 0 <= j < |ts| && ts[j] == MooreTransition(sc[k].events[0], path[k]);
      assert RenameTransitions(perm, ts)[j] == MooreTransition(sc[k].events[0], q[k]);
    }
  }

  /** A run of the relabelled automaton, renamed back, is a run of the automaton. */
  lemma RelabelReflectsRun(perm: seq<nat>, trans: seq<seq<MooreTransition>>, actions: seq<Actions>, isInitial: seq<bool>,
                           sc: MealyAutomata.Scenario, n: nat, q: seq<nat>)
    requires IsPermutation(perm, |perm|) && |trans| == |actions| == |isInitial| == |perm| && Closed(trans)
    requires MealyAutomata.WellFormedScenario(sc) && n <= |sc|
    requires IsRun(RelabelTransitions(perm, trans), Relabel(perm, actions), Relabel(perm, isInitial), sc, n, q)
    ensures IsRun(trans, actions, isInitial, sc, n, RenamePath(Inverse(perm), q))
  {
    var inv := Inverse(perm);
    var path := RenamePath(inv, q);
    var trans' := RelabelTransitions(perm, trans);
    assert forall k :: 0 <= k < n ==> perm[path[k]] == q[k];
    forall k | 1 <= k < n
      ensures MooreTransition(sc[k].events[0], path[k]) in trans[path[k - 1]]
    {
      var ts := trans[path[k - 1]];
      assert trans'[q[k - 1]] == RenameTransitions(perm, ts);
      var j :| 0 <= j < |ts| && RenameTransitions(perm, ts)[j] == MooreTransition(sc[k].events[0], q[k]);
      assert inv[perm[ts[j].dst]] == ts[j].dst;
    }
  }

  /** Relabelling the states by a permutation changes no scenario's verdict. */
  lemma RelabelKeepsPasses(perm: seq<nat>, trans: seq<seq<MooreTransition>>, actions: seq<Actions>, isInitial: seq<bool>,
                           sc: MealyAutomata.Scenario)
    requires IsPermutation(perm, |perm|) && |trans| == |actions| == |isInitial| == |perm| && Closed(trans)
    requires MealyAutomata.WellFormedScenario(sc) && |sc| >= 1
    ensures Passes(trans, actions, isInitial, sc) <==>
              Passes(RelabelTransitions(perm, trans), Relabel(perm, actions), Relabel(perm, isInitial), sc)
  {
    var trans', actions', isInitial' := RelabelTransitions(perm, trans), Relabel(perm, actions), Relabel(perm, isInitial);
    PassesIffRun(trans, actions, isInitial, sc);
    PassesIffRun(trans', actions', isInitial', sc);
    if exists path :: IsRun(trans, actions, isInitial, sc, |sc|, path) {
      var path :| IsRun(trans, actions, isInitial, sc, |sc|, path);
      RelabelKeepsRun(perm, trans, actions, isInitial, sc, |sc|, path);
    }
    if exists q :: IsRun(trans', actions', isInitial', sc, |sc|, q) {
      var q :| IsRun(trans', actions', isInitial', sc, |sc|, q);
      RelabelReflectsRun(perm, trans, actions, isInitial, sc, |sc|, q);
    }
  }

  /** Three states: 0 (initial, actions a) goes to 1 (actions b) on e; 2 shows c. */
  const ExampleTransitions: seq<seq<MooreTransition>> := [[MooreTransition("e", 1)], [], []]
  const ExampleActions: seq<Actions> := [{"a"}, {"b"}, {"c"}]
  const ExampleInitial: seq<bool> := [true, false, false]
  const ExamplePerm: seq<nat> := [1, 2, 0]
  /** Start showing a, then on e show b. */
  const ExampleScenario: MealyAutomata.Scenario :=
    [MealyAutomata.Step(["x"], Tautology, {"a"}), MealyAutomata.Step(["e"], Tautology, {"b"})]

  /**
   * swapStates as written moves the transitions of state s to state perm[s]
   * but gives state i the labels of state perm[i]; on the example above a
   * scenario that passes no longer passes, while the consistent relabelling
   * keeps it passing.
   */
  lemma SwapAsWrittenCounterexample()
    ensures IsPermutation(ExamplePerm, 3) && Closed(ExampleTransitions)
    ensures MealyAutomata.WellFormedScenario(ExampleScenario)
    ensures Passes(ExampleTransitions, ExampleActions, ExampleInitial, ExampleScenario)
    ensures !Passes(RelabelTransitions(ExamplePerm, ExampleTransitions), LabelsAsWritten(ExamplePerm, ExampleActions),
                    LabelsAsWritten(ExamplePerm, ExampleInitial), ExampleScenario)
    ensures Passes(RelabelTransitions(ExamplePerm, ExampleTransitions), Relabel(ExamplePerm, ExampleActions),
                   Relabel(ExamplePerm, ExampleInitial), ExampleScenario)
  {
    ExamplePasses();
    ExampleSwappedTransitions();
    ExampleAsWrittenFails();
    RelabelKeepsPasses(ExamplePerm, ExampleTransitions, ExampleActions, ExampleInitial, ExampleScenario);
  }

  lemma ExamplePasses()
    ensures IsPermutation(ExamplePerm, 3) && Closed(ExampleTransitions)
    ensures MealyAutomata.WellFormedScenario(ExampleScenario)
    ensures Passes(ExampleTransitions, ExampleActions, ExampleInitial, ExampleScenario)
  {
    var perm, trans, actions, isInitial, sc := ExamplePerm, ExampleTransitions, ExampleActions, ExampleInitial, ExampleScenario;
    assert forall j: nat :: j < 3 ==> j in perm by {
      assert perm[0] == 1 && perm[1] == 2 && perm[2] == 0;
    }
    assert trans[0][0] == MooreTransition("e", 1);
    assert IsRun(trans, actions, isInitial, sc, 2, [0, 1]);
    PassesIffRun(trans, actions, isInitial, sc);
  }

  lemma ExampleSwappedTransitions()
    requires IsPermutation(ExamplePerm, 3) && Closed(ExampleTransitions)
    ensures RelabelTransitions(ExamplePerm, ExampleTransitions) == [[], [MooreTransition("e", 2)], []]
    ensures LabelsAsWritten(ExamplePerm, ExampleInitial) == [false, false, true]
  {
    var trans' := RelabelTransitions(ExamplePerm, ExampleTransitions);
    assert trans'[1] == [MooreTransition("e", 2)] && trans'[0] == [] && trans'[2] == [];
  }

  lemma ExampleAsWrittenFails()
    requires IsPermutation(ExamplePerm, 3) && Closed(ExampleTransitions)
    requires MealyAutomata.WellFormedScenario(ExampleScenario)
    requires RelabelTransitions(ExamplePerm, ExampleTransitions) == [[], [MooreTransition("e", 2)], []]
    requires LabelsAsWritten(ExamplePerm, ExampleInitial) == [false, false, true]
    ensures !Passes(RelabelTransitions(ExamplePerm, ExampleTransitions), LabelsAsWritten(ExamplePerm, ExampleActions),
                    LabelsAsWritten(ExamplePerm, ExampleInitial), ExampleScenario)
  {
    var trans', actions', flags := [[], [MooreTransition("e", 2)], []], LabelsAsWritten(ExamplePerm, ExampleActions), [false, false, true];
    PassesIffRun(trans', actions', flags, ExampleScenario);
    forall path | IsRun(trans', actions', flags, ExampleScenario, 2, path)
      ensures false
    {
    }
  }

  /** The least initial state among the first n. */
  function LeastInitial(isInitial: seq<bool>, n: nat): (s: nat)
    requires n <= |isInitial| && InitialSet(isInitial, n) != {}
    ensures s in InitialSet(isInitial, n) && forall i :: 0 <= i < s ==> !isInitial[i]
  {
    if isInitial[0] then 0
    else
      assert InitialSet(isInitial[1..], n - 1) != {} by {
        var i :| i in InitialSet(isInitial, n);
        assert i - 1 in InitialSet(isInitial[1..], n - 1);
      }
      1 + LeastInitial(isInitial[1..], n - 1)
  }

  /** Any sequence that puts the entry of s at perm[s] is the relabelling. */
  lemma RelabelUnique<T>(perm: seq<nat>, xs: seq<T>, ys: seq<T>)
    requires IsPermutation(perm, |perm|) && |xs| == |ys| == |perm|
    requires forall s :: 0 <= s < |xs| ==> ys[perm[s]] == xs[s]
    ensures ys == Relabel(perm, xs)
  {
    var r := Relabel(perm, xs);
    forall i | 0 <= i < |ys|
      ensures ys[i] == r[i]
    {
      var s := IndexOf(perm, i);
    }
  }

  /** The references in refs with source and destination renamed by perm. */
  function RenameRefs(perm: seq<nat>, refs: set<TransitionRef>): (r: set<TransitionRef>)
    requires IsPermutation(perm, |perm|) && forall x :: x in refs ==> x.src < |perm| && x.dst < |perm|
    ensures forall x :: x in refs ==> TransitionRef(perm[x.src], x.event, perm[x.dst]) in r
    ensures forall y :: y in r ==> exists x :: x in refs && y == TransitionRef(perm[x.src], x.event, perm[x.dst])
  {
    set x | x in refs :: TransitionRef(perm[x.src], x.event, perm[x.dst])
  }

  /**
   * simplify's per-state result: only " " transitions, one per destination
   * of the original transitions, in ascending order of destination.
   */
  predicate Simplified(ts: seq<MooreTransition>, orig: seq<MooreTransition>)
  {
    (forall k :: 0 <= k < |ts| ==> ts[k].event == " ") &&
    (forall i, j :: 0 <= i < j < |ts| ==> ts[i].dst < ts[j].dst) &&
    Dsts(ts) == Dsts(orig)
  }

  /** Reachability depends only on the destinations of each state, so simplification keeps it. */
  lemma SameDstsSameReachable(trans: seq<seq<MooreTransition>>, trans': seq<seq<MooreTransition>>, isInitial: seq<bool>, s: nat)
    requires |trans| == |trans'| && forall q :: 0 <= q < |trans| ==> Dsts(trans[q]) == Dsts(trans'[q])
    ensures Reachable(trans, isInitial, s) <==> Reachable(trans', isInitial, s)
  {
  }
}
