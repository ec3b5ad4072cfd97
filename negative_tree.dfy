/**
 * The negative scenarios tree (src/structures/NegativeScenariosTree.java):
 * the prefix tree of counterexample scenarios collected during synthesis.
 * Node 0 is the root and nodes are numbered in creation order. A step of a
 * scenario adds one edge per event missing from the current node, all of
 * them leading to one shared new node, and the walk follows the step's
 * first event; the node reached at the end of a scenario gets a loop edge
 * back to the node where the scenario's loop starts.
 */
module NegativeScenarios {
  import opened Common
  import MealyAutomata

  /** A tree edge: event, guard, actions and destination node number. */
  datatype NegEdge = NegEdge(event: Event, guard: Guard, actions: Actions, dst: nat)

  predicate Matches(t: NegEdge, event: Event, guard: Guard, actions: Actions)
  {
    t.event == event && t.guard == guard && t.actions == actions
  }

  /** getDst: the destination of the first edge with this event, this guard and these actions. */
  function Lookup(ts: seq<NegEdge>, event: Event, guard: Guard, actions: Actions): (r: Option<nat>)
    ensures r.None? <==> forall i :: 0 <= i < |ts| ==> !Matches(ts[i], event, guard, actions)
    ensures r.Some? ==> exists i :: 0 <= i < |ts| && Matches(ts[i], event, guard, actions) && ts[i].dst == r.value
  {
    if ts == [] then None
    else if Matches(ts[0], event, guard, actions) then Some(ts[0].dst)
    else
      var r := Lookup(ts[1..], event, guard, actions);
      assert forall i :: 1 <= i < |ts| ==> ts[i] == ts[1..][i - 1];
      r
  }

  /** Appending one edge changes the lookup only of a key that was missing and that the edge carries. */
  lemma {:induction false} LookupSnoc(ts: seq<NegEdge>, t: NegEdge, event: Event, guard: Guard, actions: Actions)
    ensures Lookup(ts + [t], event, guard, actions) ==
            if Lookup(ts, event, guard, actions).Some? then Lookup(ts, event, guard, actions)
            else if Matches(t, event, guard, actions) then Some(t.dst)
            else None
  {
    if ts != [] {
      assert (ts + [t])[1..] == ts[1..] + [t];
      LookupSnoc(ts[1..], t, event, guard, actions);
    }
  }

  /** Appending edges keeps every destination already found. */
  lemma {:induction false} LookupAppend(ts: seq<NegEdge>, more: seq<NegEdge>, event: Event, guard: Guard, actions: Actions)
    requires Lookup(ts, event, guard, actions).Some?
    ensures Lookup(ts + more, event, guard, actions) == Lookup(ts, event, guard, actions)
  {
    if !Matches(ts[0], event, guard, actions) {
      assert (ts + more)[1..] == ts[1..] + more;
      LookupAppend(ts[1..], more, event, guard, actions);
    }
  }

  /** One iteration of addTransitions: an edge to d for the event if the node lacks one. */
  function AddOne(ts: seq<NegEdge>, event: Event, guard: Guard, actions: Actions, d: nat): seq<NegEdge>
  {
    if Lookup(ts, event, guard, actions).None? then ts + [NegEdge(event, guard, actions, d)] else ts
  }

  /** The loop of addTransitions over a step's events, in order. */
  function AddMissing(ts: seq<NegEdge>, events: seq<Event>, guard: Guard, actions: Actions, d: nat): seq<NegEdge>
  {
    if events == [] then ts
    else AddOne(AddMissing(ts, events[..|events| - 1], guard, actions, d), events[|events| - 1], guard, actions, d)
  }

  /**
   * After a step every event of it is found: the ones found before keep
   * their destination and the others lead to d. Other keys are untouched,
   * the list only grows, every added edge leads to d, and the list is
   * unchanged exactly when every event was already there.
   */
  lemma {:induction false} AddMissingFinds(ts: seq<NegEdge>, events: seq<Event>, guard: Guard, actions: Actions, d: nat)
    ensures ts <= AddMissing(ts, events, guard, actions, d)
    ensures forall e :: e in events ==>
              Lookup(AddMissing(ts, events, guard, actions, d), e, guard, actions) ==
              (if Lookup(ts, e, guard, actions).Some? then Lookup(ts, e, guard, actions) else Some(d))
    ensures forall e :: e !in events ==>
              Lookup(AddMissing(ts, events, guard, actions, d), e, guard, actions) == Lookup(ts, e, guard, actions)
    ensures forall i :: |ts| <= i < |AddMissing(ts, events, guard, actions, d)| ==>
              AddMissing(ts, events, guard, actions, d)[i].dst == d
    ensures AddMissing(ts, events, guard, actions, d) == ts <==>
              forall e :: e in events ==> Lookup(ts, e, guard, actions).Some?
  {
    if events != [] {
      var init, last := events[..|events| - 1], events[|events| - 1];
      AddMissingFinds(ts, init, guard, actions, d);
      var mid := AddMissing(ts, init, guard, actions, d);
      var t := NegEdge(last, guard, actions, d);
      forall e
        ensures Lookup(AddOne(mid, last, guard, actions, d), e, guard, actions) ==
                if Lookup(mid, e, guard, actions).Some? then Lookup(mid, e, guard, actions)
                else if e == last then Some(d) else None
      {
        LookupSnoc(mid, t, e, guard, actions);
      }
      assert forall e :: e in events <==> e == last || e in init;
    }
  }

  /** The scenario is already in the tree from node: every event of every step is found along the walk. */
  ghost predicate PresentFrom(edges: seq<seq<NegEdge>>, node: nat, sc: MealyAutomata.Scenario)
    requires MealyAutomata.WellFormedScenario(sc)
    decreases |sc|
  {
    sc == [] ||
    (node < |edges| &&
     (forall e :: e in sc[0].events ==> Lookup(edges[node], e, sc[0].guard, sc[0].actions).Some?) &&
     PresentFrom(edges, Lookup(edges[node], sc[0].events[0], sc[0].guard, sc[0].actions).value, sc[1..]))
  }

  /** b is a itself with possibly more nodes and more edges per node. */
  ghost predicate Extends(a: seq<seq<NegEdge>>, b: seq<seq<NegEdge>>)
  {
    |a| <= |b| && forall k :: 0 <= k < |a| ==> a[k] <= b[k]
  }

  /**
   * path is the walk of sc in the tree: it starts inside the tree, every
   * event of step j is found at path[j], and the first one leads to path[j + 1].
   */
  ghost predicate Walks(edges: seq<seq<NegEdge>>, path: seq<nat>, sc: MealyAutomata.Scenario)
  {
    MealyAutomata.WellFormedScenario(sc) && |path| == |sc| + 1 &&
    (forall j :: 0 <= j < |path| ==> path[j] < |edges|) &&
    (forall j, e :: 0 <= j < |sc| && e in sc[j].events ==> Lookup(edges[path[j]], e, sc[j].guard, sc[j].actions).Some?) &&
    (forall j :: 0 <= j < |sc| ==> Lookup(edges[path[j]], sc[j].events[0], sc[j].guard, sc[j].actions) == Some(path[j + 1]))
  }

  /** A walk stays a walk when the tree grows. */
  lemma WalksExtends(a: seq<seq<NegEdge>>, b: seq<seq<NegEdge>>, path: seq<nat>, sc: MealyAutomata.Scenario)
    requires Extends(a, b) && Walks(a, path, sc)
    ensures Walks(b, path, sc)
  {
    forall j, e, g, acts | 0 <= j < |sc| && Lookup(a[path[j]], e, g, acts).Some?
      ensures Lookup(b[path[j]], e, g, acts) == Lookup(a[path[j]], e, g, acts)
    {
      var k := path[j];
      assert a[k] + b[k][|a[k]|..] == b[k];
      LookupAppend(a[k], b[k][|a[k]|..], e, g, acts);
    }
  }

  /** A walk extended by one step. */
  lemma WalksSnoc(edges: seq<seq<NegEdge>>, path: seq<nat>, sc: MealyAutomata.Scenario, step: MealyAutomata.Step, next: nat)
    requires Walks(edges, path, sc) && |step.events| >= 1 && next < |edges|
    requires forall e :: e in step.events ==> Lookup(edges[path[|sc|]], e, step.guard, step.actions).Some?
    requires Lookup(edges[path[|sc|]], step.events[0], step.guard, step.actions) == Some(next)
    ensures Walks(edges, path + [next], sc + [step])
  {
    var p, s := path + [next], sc + [step];
    assert forall j :: 0 <= j < |path| ==> p[j] == path[j];
    assert forall j :: 0 <= j < |sc| ==> s[j] == sc[j];
  }

  /** The walk of a prefix extended through one more step of a grown tree. */
  lemma WalkStep(before: seq<seq<NegEdge>>, after: seq<seq<NegEdge>>, path: seq<nat>, sc: MealyAutomata.Scenario, i: nat, next: nat)
    requires MealyAutomata.WellFormedScenario(sc) && i < |sc| && next < |after|
    requires Extends(before, after) && Walks(before, path, sc[..i])
    requires forall e :: e in sc[i].events ==> Lookup(after[path[i]], e, sc[i].guard, sc[i].actions).Some?
    requires Lookup(after[path[i]], sc[i].events[0], sc[i].guard, sc[i].actions) == Some(next)
    ensures Walks(after, path + [next], sc[..i + 1])
  {
    WalksExtends(before, after, path, sc[..i]);
    WalksSnoc(after, path, sc[..i], sc[i], next);
    assert sc[..i + 1] == sc[..i] + [sc[i]];
  }

  /** Every edge and loop edge leads to a node of the tree, and the root exists. */
  ghost predicate ValidTree(edges: seq<seq<NegEdge>>, loops: seq<seq<nat>>)
  {
    |edges| >= 1 && |loops| == |edges| &&
    (forall k, i :: 0 <= k < |edges| && 0 <= i < |edges[k]| ==> edges[k][i].dst < |edges|) &&
    (forall k, i :: 0 <= k < |loops| && 0 <= i < |loops[k]| ==> loops[k][i] < |edges|)
  }

  /** The tree after addTransitions(src, events, guard, actions): a new node only when an edge was added. */
  function AddStep(edges: seq<seq<NegEdge>>, src: nat, events: seq<Event>, guard: Guard, actions: Actions): seq<seq<NegEdge>>
    requires src < |edges|
  {
    var ts := AddMissing(edges[src], events, guard, actions, |edges|);
    if ts == edges[src] then edges else edges[src := ts] + [[]]
  }

  /**
   * addTransitions only grows the tree, by at most one node, and changes it
   * exactly when some event of the step lacked an edge.
   */
  lemma AddStepGrows(edges: seq<seq<NegEdge>>, src: nat, events: seq<Event>, guard: Guard, actions: Actions)
    requires src < |edges|
    ensures var edges' := AddStep(edges, src, events, guard, actions);
            Extends(edges, edges') && |edges| <= |edges'| <= |edges| + 1 &&
            (|edges'| == |edges| <==> edges' == edges) &&
            (edges' == edges <==> forall e :: e in events ==> Lookup(edges[src], e, guard, actions).Some?)
  {
    AddMissingFinds(edges[src], events, guard, actions, |edges|);
  }

  /**
   * After addTransitions every event of the step has an edge from src: the
   * old one if there was one, else one to the node numbered with the old
   * node count. Every other node keeps its edges and the new node has none.
   */
  lemma AddStepFinds(edges: seq<seq<NegEdge>>, src: nat, events: seq<Event>, guard: Guard, actions: Actions)
    requires src < |edges|
    ensures var edges' := AddStep(edges, src, events, guard, actions);
            (forall e :: e in events ==>
               Lookup(edges'[src], e, guard, actions) ==
               (if Lookup(edges[src], e, guard, actions).Some? then Lookup(edges[src], e, guard, actions) else Some(|edges|))) &&
            (forall k :: 0 <= k < |edges'| && k != src ==> edges'[k] == if k < |edges| then edges[k] else [])
  {
    AddMissingFinds(edges[src], events, guard, actions, |edges|);
  }

  /** addTransitions keeps the tree valid, the new node getting an empty loop list. */
  lemma AddStepKeepsValid(edges: seq<seq<NegEdge>>, loops: seq<seq<nat>>, src: nat, events: seq<Event>, guard: Guard, actions: Actions)
    requires ValidTree(edges, loops) && src < |edges|
    ensures var edges' := AddStep(edges, src, events, guard, actions);
            ValidTree(edges', loops + (if |edges'| > |edges| then [[]] else []))
  {
    var ts := AddMissing(edges[src], events, guard, actions, |edges|);
    AddMissingFinds(edges[src], events, guard, actions, |edges|);
    if ts != edges[src] {
      AddStepValid(edges, loops, src, ts);
    }
  }

  /** Replacing src's edges by an extension whose new edges lead to a fresh node keeps the tree valid. */
  lemma AddStepValid(edges: seq<seq<NegEdge>>, loops: seq<seq<nat>>, src: nat, ts: seq<NegEdge>)
    requires ValidTree(edges, loops) && src < |edges| && edges[src] <= ts
    requires forall i :: |edges[src]| <= i < |ts| ==> ts[i].dst == |edges|
    ensures ValidTree(edges[src := ts] + [[]], loops + [[]])
  {
    var edges': seq<seq<NegEdge>> := edges[src := ts] + [[]];
    forall k, i | 0 <= k < |edges'| && 0 <= i < |edges'[k]|
      ensures edges'[k][i].dst < |edges'|
    {
      if k == src && i < |edges[src]| {
        assert ts[i] == edges[src][i];
      }
    }
  }

  /** One iteration of addScenario extends the walk by the step just added. */
  lemma WalkStepAdded(edges0: seq<seq<NegEdge>>, before: seq<seq<NegEdge>>, after: seq<seq<NegEdge>>,
                      afterLoops: seq<seq<nat>>, path: seq<nat>, sc: MealyAutomata.Scenario, i: nat)
    requires MealyAutomata.WellFormedScenario(sc) && i < |sc|
    requires Extends(edges0, before) && Walks(before, path, sc[..i]) && |before| <= |edges0| + i
    requires after == AddStep(before, path[i], sc[i].events, sc[i].guard, sc[i].actions)
    requires ValidTree(after, afterLoops)
    ensures Lookup(after[path[i]], sc[i].events[0], sc[i].guard, sc[i].actions).Some?
    ensures var next := Lookup(after[path[i]], sc[i].events[0], sc[i].guard, sc[i].actions).value;
            Extends(edges0, after) && Walks(after, path + [next], sc[..i + 1]) &&
            |before| <= |after| <= |edges0| + i + 1
  {
    AddStepGrows(before, path[i], sc[i].events, sc[i].guard, sc[i].actions);
    AddStepFinds(before, path[i], sc[i].events, sc[i].guard, sc[i].actions);
    assert sc[i].events[0] in sc[i].events;
    var next := Lookup(after[path[i]], sc[i].events[0], sc[i].guard, sc[i].actions).value;
    WalkStep(before, after, path, sc, i, next);
    ExtendsTrans(edges0, before, after);
  }

  /** Along a scenario already present, addTransitions changes nothing and the walk stays on it. */
  lemma PresentStep(edges: seq<seq<NegEdge>>, node: nat, sc: MealyAutomata.Scenario, i: nat)
    requires MealyAutomata.WellFormedScenario(sc) && i < |sc| && node < |edges|
    requires MealyAutomata.WellFormedScenario(sc[i..]) && PresentFrom(edges, node, sc[i..])
    ensures AddStep(edges, node, sc[i].events, sc[i].guard, sc[i].actions) == edges
    ensures MealyAutomata.WellFormedScenario(sc[i + 1..])
    ensures PresentFrom(edges, Lookup(edges[node], sc[i].events[0], sc[i].guard, sc[i].actions).value, sc[i + 1..])
  {
    assert sc[i..][0] == sc[i];
    assert sc[i..][1..] == sc[i + 1..];
    AddStepGrows(edges, node, sc[i].events, sc[i].guard, sc[i].actions);
  }

  /**
   * The state of addScenario after i steps: the tree is valid and has grown
   * from edges0 by at most i nodes, each with an empty loop list; path is the
   * walk of the first i steps, ending at node; and if the scenario was
   * present from the start, nothing has changed and the rest is present
   * from node.
   */
  ghost predicate Progress(edges0: seq<seq<NegEdge>>, loops0: seq<seq<nat>>, edges: seq<seq<NegEdge>>, loops: seq<seq<nat>>,
                           path: seq<nat>, sc: MealyAutomata.Scenario, i: nat, node: nat)
  {
    MealyAutomata.WellFormedScenario(sc) && i <= |sc| &&
    ValidTree(edges, loops) && Extends(edges0, edges) &&
    Walks(edges, path, sc[..i]) && path[0] == 0 && node == path[i] &&
    |edges0| <= |edges| <= |edges0| + i && loops == loops0 + NoLoops(|edges| - |edges0|) &&
    (PresentFrom(edges0, 0, sc) ==>
       edges == edges0 && MealyAutomata.WellFormedScenario(sc[i..]) && PresentFrom(edges, node, sc[i..]))
  }

  /** Before the first step of addScenario the walk is the root alone. */
  lemma ProgressStart(edges: seq<seq<NegEdge>>, loops: seq<seq<nat>>, sc: MealyAutomata.Scenario)
    requires ValidTree(edges, loops) && MealyAutomata.WellFormedScenario(sc)
    ensures Progress(edges, loops, edges, loops, [0], sc, 0, 0)
  {
    assert sc[0..] == sc;
    assert loops + NoLoops(0) == loops;
  }

  /** One iteration of addScenario: addTransitions at node, then a move along the step's first event. */
  lemma ProgressStep(edges0: seq<seq<NegEdge>>, loops0: seq<seq<nat>>, edges: seq<seq<NegEdge>>, loops: seq<seq<nat>>,
                     path: seq<nat>, sc: MealyAutomata.Scenario, i: nat, node: nat,
                     after: seq<seq<NegEdge>>, afterLoops: seq<seq<nat>>)
    requires Progress(edges0, loops0, edges, loops, path, sc, i, node) && i < |sc|
    requires after == AddStep(edges, node, sc[i].events, sc[i].guard, sc[i].actions)
    requires afterLoops == loops + (if |after| > |edges| then [[]] else [])
    requires ValidTree(after, afterLoops)
    ensures Lookup(after[node], sc[i].events[0], sc[i].guard, sc[i].actions).Some?
    ensures var next := Lookup(after[node], sc[i].events[0], sc[i].guard, sc[i].actions).value;
            Progress(edges0, loops0, after, afterLoops, path + [next], sc, i + 1, next)
  {
    WalkStepAdded(edges0, edges, after, afterLoops, path, sc, i);
    LoopsStep(loops0, loops, afterLoops, |edges0|, |edges|, |after|);
    if PresentFrom(edges0, 0, sc) {
      PresentStep(edges, node, sc, i);
    }
  }

  lemma ExtendsTrans(a: seq<seq<NegEdge>>, b: seq<seq<NegEdge>>, c: seq<seq<NegEdge>>)
    requires Extends(a, b) && Extends(b, c)
    ensures Extends(a, c)
  {
  }

  /** The loop lists gain one empty list per node added. */
  lemma LoopsStep(loops0: seq<seq<nat>>, beforeLoops: seq<seq<nat>>, afterLoops: seq<seq<nat>>, n0: nat, n1: nat, n2: nat)
    requires n0 <= n1 <= n2 <= n1 + 1
    requires beforeLoops == loops0 + NoLoops(n1 - n0)
    requires afterLoops == beforeLoops + (if n2 > n1 then [[]] else [])
    ensures afterLoops == loops0 + NoLoops(n2 - n0)
  {
    if n2 > n1 {
      assert NoLoops(n2 - n0) == NoLoops(n1 - n0) + [[]];
    } else {
      assert afterLoops == beforeLoops;
    }
  }

  /** n fresh nodes without loop edges. */
  function NoLoops(n: nat): (r: seq<seq<nat>>)
    ensures |r| == n && forall k :: 0 <= k < n ==> r[k] == []
  {
    if n == 0 then [] else NoLoops(n - 1) + [[]]
  }

  class NegativeScenariosTree {
    /** The edges of node k, in insertion order. */
    var edges: seq<seq<NegEdge>>
    /** The loop targets of node k. */
    var loops: seq<seq<nat>>

    ghost predicate Valid()
      reads this
    {
      ValidTree(edges, loops)
    }

    /** A new tree: the root, node 0, alone. */
    constructor()
      ensures Valid() && edges == [[]] && loops == [[]]
    {
      edges := [[]];
      loops := [[]];
    }

    /** nodesCount: the node numbers are 0 .. NodesCount() - 1. */
    function NodesCount(): (n: nat)
      requires Valid()
      reads this
      ensures n >= 1 && n == |edges|
      ensures forall k, i :: 0 <= k < n && 0 <= i < |edges[k]| ==> edges[k][i].dst < n
    {
      |edges|
    }

    /** getDst on a node: an edge always leads to a node of the tree. */
    function GetDst(node: nat, event: Event, guard: Guard, actions: Actions): (r: Option<nat>)
      requires Valid() && node < |edges|
      reads this
      ensures r.Some? ==> r.value < |edges|
      ensures r.None? <==> forall i :: 0 <= i < |edges[node]| ==> !Matches(edges[node][i], event, guard, actions)
    {
      Lookup(edges[node], event, guard, actions)
    }

    /**
     * addTransitions: each event of src lacking an edge with this guard and
     * these actions gets one, all of them to a single node created for the
     * step and numbered with the node count, if any event lacked one.
     */
    method AddTransitions(src: nat, events: seq<Event>, guard: Guard, actions: Actions)
      requires Valid() && src < |edges| && events != []
      modifies this
      ensures edges == AddStep(old(edges), src, events, guard, actions)
      ensures loops == old(loops) + (if |edges| > old(|edges|) then [[]] else [])
      ensures Valid()
    {
      var n := |edges|;
      var created := false;
      var ts := edges[src];
      for k := 0 to |events|
        invariant ts == AddMissing(edges[src], events[..k], guard, actions, n)
        invariant edges[src] <= ts && (created <==> |ts| > |edges[src]|)
      {
        assert events[..k + 1][..k] == events[..k];
        var e := events[k];
        if Lookup(ts, e, guard, actions).None? {
          created := true;
          ts := ts + [NegEdge(e, guard, actions, n)];
        }
      }
      assert events[..|events|] == events;
      AddStepGrows(edges, src, events, guard, actions);
      AddStepKeepsValid(edges, loops, src, events, guard, actions);
      if created {
        edges := edges[src := ts] + [[]];
        loops := loops + [[]];
      } else {
        edges := edges[src := ts];
      }
    }

    /** addLoop on a node. */
    method AddLoop(node: nat, loopNode: nat)
      requires Valid() && node < |edges| && loopNode < |edges|
      modifies this`loops
      ensures Valid() && loops == old(loops)[node := old(loops[node]) + [loopNode]]
    {
      loops := loops[node := loops[node] + [loopNode]];
    }

    /**
     * One iteration of addScenario's loop: addTransitions at node for the
     * i-th step, then a move along the step's first event.
     */
    method Advance(scenario: MealyAutomata.Scenario, i: nat, node: nat, ghost edges0: seq<seq<NegEdge>>,
                   ghost loops0: seq<seq<nat>>, ghost path: seq<nat>) returns (next: nat)
      requires Progress(edges0, loops0, edges, loops, path, scenario, i, node) && i < |scenario|
      modifies this
      ensures Progress(edges0, loops0, edges, loops, path + [next], scenario, i + 1, next)
    {
      ghost var before, beforeLoops := edges, loops;
      var step := scenario[i];
      AddTransitions(node, step.events, step.guard, step.actions);
      ProgressStep(edges0, loops0, before, beforeLoops, path, scenario, i, node, edges, loops);
      var d := GetDst(node, step.events[0], step.guard, step.actions);
      next := d.value;
    }

    /**
     * The loop of addScenario: walks the scenario from the root, adding each
     * step's missing edges and following the step's first event; the loop
     * node is the node reached after |scenario| - loopLength steps.
     */
    method WalkScenario(scenario: MealyAutomata.Scenario, loopLength: nat) returns (node: nat, loopNode: nat, ghost path: seq<nat>)
      requires Valid() && MealyAutomata.WellFormedScenario(scenario) && loopLength <= |scenario|
      modifies this
      ensures Progress(old(edges), old(loops), edges, loops, path, scenario, |scenario|, node)
      ensures |path| == |scenario| + 1 && loopNode == path[|scenario| - loopLength]
    {
      node := 0;
      loopNode := 0;
      path := [0];
      ghost var edges0, loops0 := edges, loops;
      ProgressStart(edges, loops, scenario);
      for i := 0 to |scenario|
        invariant Progress(edges0, loops0, edges, loops, path, scenario, i, node)
        invariant |path| == i + 1 && (i > |scenario| - loopLength ==> loopNode == path[|scenario| - loopLength])
      {
        loopNode := if i == |scenario| - loopLength then node else loopNode;
        var next := Advance(scenario, i, node, edges0, loops0, path);
        node := next;
        path := path + [next];
      }
      if loopLength == 0 {
        loopNode := node;
      }
    }

    /**
     * addScenario: the walk, then a loop edge from the final node to the
     * loop node. The tree grows by at most one node per step, and a scenario
     * already present leaves the edges as they were.
     */
    method AddScenario(scenario: MealyAutomata.Scenario, loopLength: nat) returns (ghost path: seq<nat>)
      requires Valid() && MealyAutomata.WellFormedScenario(scenario) && loopLength <= |scenario|
      modifies this
      ensures Valid() && Extends(old(edges), edges)
      ensures Walks(edges, path, scenario) && path[0] == 0
      ensures old(|edges|) <= |edges| <= old(|edges|) + |scenario|
      ensures var before := old(loops) + NoLoops(|edges| - old(|edges|));
              loops == before[path[|scenario|] := before[path[|scenario|]] + [path[|scenario| - loopLength]]]
      ensures PresentFrom(old(edges), 0, scenario) ==> edges == old(edges)
    {
      var node, loopNode;
      node, loopNode, path := WalkScenario(scenario, loopLength);
      assert scenario[..|scenario|] == scenario;
      AddLoop(node, loopNode);
    }
  }
}
