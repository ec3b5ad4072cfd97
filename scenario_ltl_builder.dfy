// The decoding of a satisfying assignment into a Mealy automaton shared by
// the scenario-and-LTL builders (src/automaton_builders/ScenarioAndLtlAutomatonBuilder.java
// and its older copy src/algorithms/automaton_builders/ScenarioAndLtlAutomatonBuilder.java,
// whose constructAutomatonFromAssignment is the same algorithm over the older
// Automaton/Node classes), plus the two helpers of the newer file: the solver
// time budget and the rewriting of LTL connectives into limboole syntax.

module ScenarioLtlBuilder {
  import opened Common
  import opened MealyAutomata
  import opened ScenarioTrees

  /**
   * A solver variable, read from its name split at "_": x_<node>_<colour>,
   * y_<from>_<to>_<event>, z_<state>_<action>_<event>, or another kind.
   */
  datatype Var = X(node: nat, color: nat) | Y(src: nat, dst: nat, event: Event) | Z(state: nat, action: string, event: Event) | OtherVar

  /** One variable of a satisfying assignment with its value. */
  datatype Assignment = Assignment(v: Var, value: bool)

  /** AutomatonCompleter.CompletenessType: the two kinds handled here and every other one. */
  datatype CompletenessType = Normal | NoDeadEnds | OtherCompleteness

  /** What the builder logs about a y variable whose transition already exists. */
  datatype Warning = InvalidDestination(v: Var) | ActionsMismatch(v: Var)

  predicate IsColorVar(a: Assignment, n: nat)
  {
    a.value && a.v.X? && a.v.node == n
  }

  predicate IsYVar(a: Assignment)
  {
    a.value && a.v.Y?
  }

  // ---------------------------------------------------------------------------
  // Node colours

  /** The colour the x variables give node n: that of the last true x_n_c, or 0 when there is none. */
  function LastColor(ass: seq<Assignment>, n: nat): nat
  {
    if ass == [] then 0
    else if IsColorVar(ass[|ass| - 1], n) then ass[|ass| - 1].v.color
    else LastColor(ass[..|ass| - 1], n)
  }

  /** A true x_n_c with no later true x variable for n decides the colour of n. */
  lemma {:induction false} LastColorIsLast(ass: seq<Assignment>, n: nat, k: nat)
    requires k < |ass| && IsColorVar(ass[k], n)
    requires forall j :: k < j < |ass| ==> !IsColorVar(ass[j], n)
    ensures LastColor(ass, n) == ass[k].v.color
  {
    if k < |ass| - 1 {
      LastColorIsLast(ass[..|ass| - 1], n, k);
    }
  }

  /** A node with no true x variable keeps the array's default colour 0. */
  lemma {:induction false} LastColorDefault(ass: seq<Assignment>, n: nat)
    requires forall j :: 0 <= j < |ass| ==> !IsColorVar(ass[j], n)
    ensures LastColor(ass, n) == 0
  {
    if ass != [] {
      LastColorDefault(ass[..|ass| - 1], n);
    }
  }

  /** The true x variables name existing nodes and states. */
  predicate ColorVarsInRange(ass: seq<Assignment>, nodeCount: nat, stateCount: nat)
  {
    forall k :: 0 <= k < |ass| && ass[k].value && ass[k].v.X? ==> ass[k].v.node < nodeCount && ass[k].v.color < stateCount
  }

  /** The true y variables name existing states. */
  predicate YVarsInRange(ass: seq<Assignment>, stateCount: nat)
  {
    forall k :: 0 <= k < |ass| && IsYVar(ass[k]) ==> ass[k].v.src < stateCount && ass[k].v.dst < stateCount
  }

  /** The nodeColors array: every true x_n_c in turn sets entry n to c. */
  method ColorNodes(ass: seq<Assignment>, nodeCount: nat, stateCount: nat) returns (nodeColors: array<nat>)
    requires ColorVarsInRange(ass, nodeCount, stateCount)
    ensures fresh(nodeColors) && nodeColors.Length == nodeCount
    ensures forall n :: 0 <= n < nodeCount ==> nodeColors[n] == LastColor(ass, n)
  {
    nodeColors := new nat[nodeCount](_ => 0);
    for i := 0 to |ass|
      invariant forall n :: 0 <= n < nodeCount ==> nodeColors[n] == LastColor(ass[..i], n)
    {
      assert ass[..i + 1][..i] == ass[..i];
      var a := ass[i];
      if a.value && a.v.X? {
        nodeColors[a.v.node] := a.v.color;
      }
    }
    assert ass[..|ass|] == ass;
  }

  /** Every colour in the array names a state. */
  lemma LastColorInRange(ass: seq<Assignment>, nodeCount: nat, stateCount: nat, n: nat)
    requires ColorVarsInRange(ass, nodeCount, stateCount) && stateCount >= 1
    ensures LastColor(ass, n) < stateCount
  {
    if ass != [] {
      LastColorInRange(ass[..|ass| - 1], nodeCount, stateCount, n);
    }
  }

  // ---------------------------------------------------------------------------
  // Transitions from the scenario tree

  /** A transition offered to state `state`. */
  datatype Candidate = Candidate(state: nat, t: MealyTransition)

  /** The transition edge i of node n offers: its label, into the state of the child's colour. */
  function EdgeCandidate(tree: ScenarioTree, colors: seq<nat>, n: nat, i: nat): Candidate
    requires ValidTree(tree) && |colors| == |tree.edges| && n < |tree.edges| && i < |tree.edges[n]|
  {
    var e := tree.edges[n][i];
    Candidate(colors[n], MealyTransition(e.event, e.guard, e.actions, colors[e.dst]))
  }

  /** The transitions the first j edges of node n offer: the edge's label, to the colour of its child. */
  function NodeCandidates(tree: ScenarioTree, colors: seq<nat>, n: nat, j: nat): (r: seq<Candidate>)
    requires ValidTree(tree) && |colors| == |tree.edges| && n < |tree.edges| && j <= |tree.edges[n]|
    ensures |r| == j
  {
    if j == 0 then [] else NodeCandidates(tree, colors, n, j - 1) + [EdgeCandidate(tree, colors, n, j - 1)]
  }

  /** The transitions the first n nodes offer, node by node. */
  function TreeCandidates(tree: ScenarioTree, colors: seq<nat>, n: nat): seq<Candidate>
    requires ValidTree(tree) && |colors| == |tree.edges| && n <= |tree.edges|
  {
    if n == 0 then [] else TreeCandidates(tree, colors, n - 1) + NodeCandidates(tree, colors, n - 1, |tree.edges[n - 1]|)
  }

  /** The offered transition is added when its state has none with the same event and guard. */
  function AddAbsent(states: seq<seq<MealyTransition>>, c: Candidate): (r: seq<seq<MealyTransition>>)
    ensures |r| == |states|
  {
    if c.state < |states| && Lookup(states[c.state], c.t.event, c.t.guard).None?
    then states[c.state := states[c.state] + [c.t]]
    else states
  }

  /** The candidates offered in turn. */
  function AddAllAbsent(states: seq<seq<MealyTransition>>, cs: seq<Candidate>): (r: seq<seq<MealyTransition>>)
    ensures |r| == |states|
  {
    if cs == [] then states else AddAbsent(AddAllAbsent(states, cs[..|cs| - 1]), cs[|cs| - 1])
  }

  /** The first candidate for state s with event e and guard g. */
  function FirstCandidate(cs: seq<Candidate>, s: nat, e: Event, g: Guard): Option<MealyTransition>
  {
    if cs == [] then None
    else if cs[0].state == s && HasKey(cs[0].t, e, g) then Some(cs[0].t)
    else FirstCandidate(cs[1..], s, e, g)
  }

  lemma {:induction false} FirstCandidateSnoc(cs: seq<Candidate>, c: Candidate, s: nat, e: Event, g: Guard)
    ensures FirstCandidate(cs + [c], s, e, g) ==
      if FirstCandidate(cs, s, e, g).Some? then FirstCandidate(cs, s, e, g)
      else if c.state == s && HasKey(c.t, e, g) then Some(c.t) else None
  {
    if cs != [] {
      assert (cs + [c])[1..] == cs[1..] + [c];
      FirstCandidateSnoc(cs[1..], c, s, e, g);
    }
  }

  /** Candidates whose destinations are states keep the table valid. */
  predicate CandidatesFit(cs: seq<Candidate>, stateCount: nat)
  {
    forall k :: 0 <= k < |cs| ==> cs[k].t.dst < stateCount
  }

  /** Adding absent candidates keeps the table valid and its size. */
  lemma {:induction false} AddAllAbsentValid(states: seq<seq<MealyTransition>>, cs: seq<Candidate>)
    requires ValidTable(states) && CandidatesFit(cs, |states|)
    ensures |AddAllAbsent(states, cs)| == |states| && ValidTable(AddAllAbsent(states, cs))
  {
    if cs != [] {
      var p := cs[..|cs| - 1];
      AddAllAbsentValid(states, p);
      var prev, c := AddAllAbsent(states, p), cs[|cs| - 1];
      if c.state < |prev| && Lookup(prev[c.state], c.t.event, c.t.guard).None? {
        PutAppendLookup(prev[c.state], c.t);
      }
    }
  }

  /**
   * The first one wins: afterwards, state s has on (e, g) the transition it
   * had before, or else the first candidate offered for it, or none.
   */
  lemma {:induction false} FirstWins(states: seq<seq<MealyTransition>>, cs: seq<Candidate>, s: nat, e: Event, g: Guard)
    requires ValidTable(states) && CandidatesFit(cs, |states|) && s < |states|
    ensures Lookup(AddAllAbsent(states, cs)[s], e, g) ==
      if Lookup(states[s], e, g).Some? then Lookup(states[s], e, g) else FirstCandidate(cs, s, e, g)
  {
    if cs != [] {
      var p, c := cs[..|cs| - 1], cs[|cs| - 1];
      assert cs == p + [c];
      FirstWins(states, p, s, e, g);
      FirstCandidateSnoc(p, c, s, e, g);
      AddAllAbsentValid(states, p);
      var prev := AddAllAbsent(states, p);
      if c.state < |prev| && Lookup(prev[c.state], c.t.event, c.t.guard).None? {
        PutAppendLookup(prev[c.state], c.t);
      }
    }
  }

  /** The tree candidates lead to states when every colour does. */
  lemma {:induction false} TreeCandidatesFit(tree: ScenarioTree, colors: seq<nat>, n: nat, stateCount: nat)
    requires ValidTree(tree) && |colors| == |tree.edges| && n <= |tree.edges|
    requires forall k :: 0 <= k < |colors| ==> colors[k] < stateCount
    ensures CandidatesFit(TreeCandidates(tree, colors, n), stateCount)
  {
    if n > 0 {
      TreeCandidatesFit(tree, colors, n - 1, stateCount);
      NodeCandidatesFit(tree, colors, n - 1, |tree.edges[n - 1]|, stateCount);
    }
  }

  lemma {:induction false} NodeCandidatesFit(tree: ScenarioTree, colors: seq<nat>, n: nat, j: nat, stateCount: nat)
    requires ValidTree(tree) && |colors| == |tree.edges| && n < |tree.edges| && j <= |tree.edges[n]|
    requires forall k :: 0 <= k < |colors| ==> colors[k] < stateCount
    ensures CandidatesFit(NodeCandidates(tree, colors, n, j), stateCount)
  {
    if j > 0 {
      NodeCandidatesFit(tree, colors, n, j - 1, stateCount);
    }
  }


  /** The i-th transition node n offers is that of its i-th edge. */
  lemma {:induction false} NodeCandidatesAt(tree: ScenarioTree, colors: seq<nat>, n: nat, j: nat, i: nat)
    requires ValidTree(tree) && |colors| == |tree.edges| && n < |tree.edges| && i < j <= |tree.edges[n]|
    ensures NodeCandidates(tree, colors, n, j)[i] == EdgeCandidate(tree, colors, n, i)
  {
    if i < j - 1 {
      NodeCandidatesAt(tree, colors, n, j - 1, i);
    }
  }

  /** Every edge of the first k nodes is offered. */
  lemma {:induction false} TreeCandidatesHas(tree: ScenarioTree, colors: seq<nat>, k: nat, n: nat, i: nat)
    requires ValidTree(tree) && |colors| == |tree.edges| && n < k <= |tree.edges| && i < |tree.edges[n]|
    ensures EdgeCandidate(tree, colors, n, i) in TreeCandidates(tree, colors, k)
  {
    if n < k - 1 {
      TreeCandidatesHas(tree, colors, k - 1, n, i);
    } else {
      NodeCandidatesAt(tree, colors, n, |tree.edges[n]|, i);
      assert NodeCandidates(tree, colors, n, |tree.edges[n]|)[i] in NodeCandidates(tree, colors, n, |tree.edges[n]|);
    }
  }

  /** A candidate for (s, e, g) among those offered means the first one exists. */
  lemma {:induction false} FirstCandidateSome(cs: seq<Candidate>, c: Candidate, s: nat, e: Event, g: Guard)
    requires c in cs && c.state == s && HasKey(c.t, e, g)
    ensures FirstCandidate(cs, s, e, g).Some?
  {
    if cs[0] != c {
      FirstCandidateSome(cs[1..], c, s, e, g);
    }
  }

  /** MealyAutomaton(colorSize): colorSize states, and the start state even when colorSize is 0. */
  function StateCount(colorSize: nat): nat
  {
    if colorSize == 0 then 1 else colorSize
  }

  function EmptyTable(n: nat): seq<seq<MealyTransition>>
  {
    seq(n, _ => [])
  }

  /** The colours of nodes 0..nodeCount-1. */
  function Colors(ass: seq<Assignment>, nodeCount: nat): seq<nat>
  {
    seq(nodeCount, (n: nat) => LastColor(ass, n))
  }

  lemma ColorsInRange(ass: seq<Assignment>, nodeCount: nat, stateCount: nat)
    requires ColorVarsInRange(ass, nodeCount, stateCount) && stateCount >= 1
    ensures forall k :: 0 <= k < nodeCount ==> Colors(ass, nodeCount)[k] < stateCount
  {
    forall k | 0 <= k < nodeCount
      ensures Colors(ass, nodeCount)[k] < stateCount
    {
      LastColorInRange(ass, nodeCount, stateCount, k);
    }
  }

  /** The scenario tree's transitions: every node's edges in order, each added unless its state already has the key. */
  function TreeTransitions(ass: seq<Assignment>, tree: ScenarioTree, colorSize: nat): (r: seq<seq<MealyTransition>>)
    requires ValidTree(tree) && ColorVarsInRange(ass, |tree.edges|, StateCount(colorSize))
    ensures |r| == StateCount(colorSize) && ValidTable(r)
  {
    var colors := Colors(ass, |tree.edges|);
    ColorsInRange(ass, |tree.edges|, StateCount(colorSize));
    TreeCandidatesFit(tree, colors, |tree.edges|, StateCount(colorSize));
    AddAllAbsentValid(EmptyTable(StateCount(colorSize)), TreeCandidates(tree, colors, |tree.edges|));
    AddAllAbsent(EmptyTable(StateCount(colorSize)), TreeCandidates(tree, colors, |tree.edges|))
  }

  /** The transition a state takes on (event, guard) is the first the tree offers it. */
  lemma TreeTransitionsLookup(ass: seq<Assignment>, tree: ScenarioTree, colorSize: nat, s: nat, e: Event, g: Guard)
    requires ValidTree(tree) && ColorVarsInRange(ass, |tree.edges|, StateCount(colorSize)) && s < StateCount(colorSize)
    ensures Lookup(TreeTransitions(ass, tree, colorSize)[s], e, g) == FirstCandidate(TreeCandidates(tree, Colors(ass, |tree.edges|), |tree.edges|), s, e, g)
  {
    var colors := Colors(ass, |tree.edges|);
    ColorsInRange(ass, |tree.edges|, StateCount(colorSize));
    TreeCandidatesFit(tree, colors, |tree.edges|, StateCount(colorSize));
    FirstWins(EmptyTable(StateCount(colorSize)), TreeCandidates(tree, colors, |tree.edges|), s, e, g);
  }

  /** Every scenario edge is covered: the state of its node's colour has a transition with its event and guard. */
  lemma TreeEdgeCovered(ass: seq<Assignment>, tree: ScenarioTree, colorSize: nat, n: nat, i: nat)
    requires ValidTree(tree) && ColorVarsInRange(ass, |tree.edges|, StateCount(colorSize))
    requires n < |tree.edges| && i < |tree.edges[n]|
    ensures LastColor(ass, n) < StateCount(colorSize)
    ensures Lookup(TreeTransitions(ass, tree, colorSize)[LastColor(ass, n)], tree.edges[n][i].event, tree.edges[n][i].guard).Some?
  {
    var colors := Colors(ass, |tree.edges|);
    LastColorInRange(ass, |tree.edges|, StateCount(colorSize), n);
    var c := EdgeCandidate(tree, colors, n, i);
    TreeCandidatesHas(tree, colors, |tree.edges|, n, i);
    FirstCandidateSome(TreeCandidates(tree, colors, |tree.edges|), c, colors[n], c.t.event, c.t.guard);
    TreeTransitionsLookup(ass, tree, colorSize, colors[n], c.t.event, c.t.guard);
  }

  /** The loop over the tree's nodes and their edges, adding each edge unless its key is taken. */
  method AddTreeTransitions(ans: MealyAutomaton, tree: ScenarioTree, nodeColors: array<nat>)
    requires ans.Valid() && ValidTree(tree) && nodeColors.Length == |tree.edges|
    requires forall k :: 0 <= k < nodeColors.Length ==> nodeColors[k] < |ans.states|
    modifies ans
    ensures ans.Valid()
    ensures ans.states == AddAllAbsent(old(ans.states), TreeCandidates(tree, nodeColors[..], |tree.edges|))
  {
    ghost var start := ans.states;
    for i := 0 to |tree.edges|
      invariant ans.Valid() && |ans.states| == |start|
      invariant ans.states == AddAllAbsent(start, TreeCandidates(tree, nodeColors[..], i))
    {
      AddNodeTransitions(ans, tree, nodeColors, i, start);
    }
  }

  /** The edges of node i, in order. */
  method AddNodeTransitions(ans: MealyAutomaton, tree: ScenarioTree, nodeColors: array<nat>, i: nat, ghost start: seq<seq<MealyTransition>>)
    requires ans.Valid() && ValidTree(tree) && nodeColors.Length == |tree.edges| && i < |tree.edges|
    requires forall k :: 0 <= k < nodeColors.Length ==> nodeColors[k] < |ans.states|
    requires ans.states == AddAllAbsent(start, TreeCandidates(tree, nodeColors[..], i))
    modifies ans
    ensures ans.Valid() && |ans.states| == old(|ans.states|)
    ensures ans.states == AddAllAbsent(start, TreeCandidates(tree, nodeColors[..], i + 1))
  {
    ghost var colors := nodeColors[..];
    ghost var before := TreeCandidates(tree, colors, i);
    assert before + NodeCandidates(tree, colors, i, 0) == before;
    for j := 0 to |tree.edges[i]|
      invariant ans.Valid() && |ans.states| == old(|ans.states|)
      invariant ans.states == AddAllAbsent(start, before + NodeCandidates(tree, colors, i, j))
    {
      AddTreeEdge(ans, tree, nodeColors, i, j, start, before + NodeCandidates(tree, colors, i, j));
      assert before + NodeCandidates(tree, colors, i, j) + [EdgeCandidate(tree, colors, i, j)]
          == before + NodeCandidates(tree, colors, i, j + 1);
    }
  }

  /** One edge: added to the state of its node's colour unless that state has its event and guard. */
  method AddTreeEdge(ans: MealyAutomaton, tree: ScenarioTree, nodeColors: array<nat>, i: nat, j: nat,
                     ghost start: seq<seq<MealyTransition>>, ghost cs: seq<Candidate>)
    requires ans.Valid() && ValidTree(tree) && nodeColors.Length == |tree.edges|
    requires forall k :: 0 <= k < nodeColors.Length ==> nodeColors[k] < |ans.states|
    requires i < |tree.edges| && j < |tree.edges[i]| && ans.states == AddAllAbsent(start, cs)
    modifies ans
    ensures ans.Valid() && |ans.states| == old(|ans.states|)
    ensures ans.states == AddAllAbsent(start, cs + [EdgeCandidate(tree, nodeColors[..], i, j)])
  {
    var t := tree.edges[i][j];
    var color := nodeColors[i];
    ghost var c := EdgeCandidate(tree, nodeColors[..], i, j);
    assert (cs + [c])[..|cs|] == cs;
    if ans.Transition(color, t.event, t.guard).None? {
      ans.AddTransition(color, MealyTransition(t.event, t.guard, t.actions, nodeColors[t.dst]));
    }
  }

  // ---------------------------------------------------------------------------
  // Transitions from the solver's y variables

  /** The automaton under construction, the y variables the scenarios already support, and the logged warnings. */
  datatype Decoded = Decoded(states: seq<seq<MealyTransition>>, filtered: seq<Var>, warnings: seq<Warning>)

  predicate IsActionVarFor(a: Assignment, from: nat, event: Event)
  {
    a.value && a.v.Z? && a.v.state == from && a.v.event == event
  }

  /** The actions of the true z_<from>_<action>_<event> variables, in assignment order. */
  function ProperActions(ass: seq<Assignment>, from: nat, event: Event): seq<string>
  {
    if ass == [] then []
    else
      var last := ass[|ass| - 1];
      var here := if IsActionVarFor(last, from, event) then [last.v.action] else [];
      ProperActions(ass[..|ass| - 1], from, event) + here
  }

  /** An action is proper exactly when a true z variable names it for the state and event. */
  lemma {:induction false} ProperActionsMembers(ass: seq<Assignment>, from: nat, event: Event, x: string)
    ensures x in ProperActions(ass, from, event) <==>
      exists k :: 0 <= k < |ass| && IsActionVarFor(ass[k], from, event) && ass[k].v.action == x
  {
    if ass != [] {
      var p := ass[..|ass| - 1];
      ProperActionsMembers(p, from, event, x);
      if exists k :: 0 <= k < |p| && IsActionVarFor(p[k], from, event) && p[k].v.action == x {
        var k :| 0 <= k < |p| && IsActionVarFor(p[k], from, event) && p[k].v.action == x;
        assert ass[k] == p[k];
      }
      if exists k :: 0 <= k < |ass| && IsActionVarFor(ass[k], from, event) && ass[k].v.action == x {
        var k :| 0 <= k < |ass| && IsActionVarFor(ass[k], from, event) && ass[k].v.action == x;
        if k < |p| {
          assert p[k] == ass[k];
        }
      }
    }
  }

  /** The inner loop over the assignment collecting properUniqueActions. */
  method CollectActions(ass: seq<Assignment>, from: nat, event: Event) returns (actions: seq<string>)
    ensures actions == ProperActions(ass, from, event)
  {
    actions := [];
    for i := 0 to |ass|
      invariant actions == ProperActions(ass[..i], from, event)
    {
      assert ass[..i + 1][..i] == ass[..i];
      if IsActionVarFor(ass[i], from, event) {
        actions := actions + [ass[i].v.action];
      }
    }
    assert ass[..|ass|] == ass;
  }

  function ActionSet(proper: seq<string>): Actions
  {
    set x | x in proper
  }

  /**
   * The sorted distinct actions of a transition equal the sorted proper
   * actions exactly when the proper ones have no repetition and name the
   * same set.
   */
  predicate ActionsAgree(actual: Actions, proper: seq<string>)
  {
    Distinct(proper) && actual == ActionSet(proper)
  }

  /**
   * One true y_<from>_<to>_<event>: recorded as supported when from already
   * has a tautology transition on event, then either added (NORMAL always,
   * NO_DEAD_ENDS only into a state without transitions; any other
   * completeness type fails, None) or checked against the destination and
   * the proper actions, with a warning for each mismatch.
   */
  function YStep(ass: seq<Assignment>, a: Assignment, d: Decoded, ct: CompletenessType): (r: Option<Decoded>)
    requires IsYVar(a) && a.v.src < |d.states|
    ensures r.Some? ==> |r.value.states| == |d.states|
  {
    var from, to, event := a.v.src, a.v.dst, a.v.event;
    var existing := Lookup(d.states[from], event, Tautology);
    var filtered := if existing.Some? then d.filtered + [a.v] else d.filtered;
    var proper := ProperActions(ass, from, event);
    if existing.None? then
      if ct == Normal || (ct == NoDeadEnds && |d.states[from]| == 0) then
        var t := MealyTransition(event, Tautology, ActionSet(proper), to);
        Some(Decoded(d.states[from := d.states[from] + [t]], filtered, d.warnings))
      else if ct == NoDeadEnds then Some(Decoded(d.states, filtered, d.warnings))
      else None
    else
      var t := existing.value;
      Some(Decoded(d.states, filtered, d.warnings
        + (if t.dst != to then [InvalidDestination(a.v)] else [])
        + (if !ActionsAgree(t.actions, proper) then [ActionsMismatch(a.v)] else [])))
  }

  /** The y variables among the first k assignments, in order, processed from d0. */
  function Phase2(ass: seq<Assignment>, k: nat, d0: Decoded, ct: CompletenessType): (r: Option<Decoded>)
    requires k <= |ass| && YVarsInRange(ass, |d0.states|)
    ensures r.Some? ==> |r.value.states| == |d0.states|
  {
    if k == 0 then Some(d0)
    else match Phase2(ass, k - 1, d0, ct)
      case None => None
      case Some(d) => if IsYVar(ass[k - 1]) then YStep(ass, ass[k - 1], d, ct) else Some(d)
  }

  /** constructAutomatonFromAssignment: the tree's transitions, then, when complete, the y variables'. */
  function Decode(ass: seq<Assignment>, tree: ScenarioTree, colorSize: nat, complete: bool, ct: CompletenessType): Option<Decoded>
    requires ValidTree(tree) && ColorVarsInRange(ass, |tree.edges|, StateCount(colorSize)) && YVarsInRange(ass, StateCount(colorSize))
  {
    var d0 := Decoded(TreeTransitions(ass, tree, colorSize), [], []);
    if complete then Phase2(ass, |ass|, d0, ct) else Some(d0)
  }

  /** One more assignment: a y variable is one more step, any other leaves the result alone. */
  lemma Phase2Unfold(ass: seq<Assignment>, k: nat, d0: Decoded, ct: CompletenessType)
    requires 0 < k <= |ass| && YVarsInRange(ass, |d0.states|)
    ensures Phase2(ass, k, d0, ct) ==
      if Phase2(ass, k - 1, d0, ct).None? then None
      else if IsYVar(ass[k - 1]) then YStep(ass, ass[k - 1], Phase2(ass, k - 1, d0, ct).value, ct)
      else Phase2(ass, k - 1, d0, ct)
  {
  }

  /** The true y variables among the first k assignments. */
  function YVarsOf(ass: seq<Assignment>, k: nat): seq<Var>
    requires k <= |ass|
  {
    if k == 0 then [] else YVarsOf(ass, k - 1) + (if IsYVar(ass[k - 1]) then [ass[k - 1].v] else [])
  }

  /** One y step keeps every existing transition and every transition whose guard is not the tautology. */
  lemma YStepKeeps(ass: seq<Assignment>, a: Assignment, d: Decoded, ct: CompletenessType, s: nat, e: Event, g: Guard)
    requires IsYVar(a) && a.v.src < |d.states|
    requires s < |d.states| && YStep(ass, a, d, ct).Some?
    requires Lookup(d.states[s], e, g).Some? || g != Tautology
    ensures Lookup(YStep(ass, a, d, ct).value.states[s], e, g) == Lookup(d.states[s], e, g)
    ensures |YStep(ass, a, d, ct).value.states[s]| >= |d.states[s]|
  {
    if s == a.v.src && Lookup(d.states[s], a.v.event, Tautology).None? {
      var r := YStep(ass, a, d, ct).value.states[s];
      if |r| > |d.states[s]| {
        LookupSnoc(d.states[s], r[|d.states[s]|], e, g);
      }
    }
  }

  /** Appending a transition changes only the lookups of its key that had no transition. */
  lemma LookupSnoc(ts: seq<MealyTransition>, t: MealyTransition, e: Event, g: Guard)
    ensures Lookup(ts + [t], e, g) ==
      if Lookup(ts, e, g).Some? then Lookup(ts, e, g) else if HasKey(t, e, g) then Some(t) else None
  {
    var i := KeyIndex(ts, e, g);
    if i.Some? {
      KeyIndexIs(ts + [t], e, g, i.value);
    } else if HasKey(t, e, g) {
      KeyIndexIs(ts + [t], e, g, |ts|);
    } else {
      assert forall j :: 0 <= j < |ts + [t]| ==> (ts + [t])[j] == if j < |ts| then ts[j] else t;
    }
  }

  /** Phase 2 never replaces a transition and only adds tautology transitions. */
  lemma {:induction false} Phase2Keeps(ass: seq<Assignment>, k: nat, d0: Decoded, ct: CompletenessType, s: nat, e: Event, g: Guard)
    requires k <= |ass| && YVarsInRange(ass, |d0.states|) && s < |d0.states|
    requires Phase2(ass, k, d0, ct).Some?
    requires Lookup(d0.states[s], e, g).Some? || g != Tautology
    ensures Lookup(Phase2(ass, k, d0, ct).value.states[s], e, g) == Lookup(d0.states[s], e, g)
  {
    if k == 0 {
      assert Phase2(ass, k, d0, ct) == Some(d0);
    } else {
      Phase2Unfold(ass, k, d0, ct);
      Phase2Keeps(ass, k - 1, d0, ct, s, e, g);
      var d := Phase2(ass, k - 1, d0, ct).value;
      if IsYVar(ass[k - 1]) {
        YStepKeeps(ass, ass[k - 1], d, ct, s, e, g);
        assert Lookup(Phase2(ass, k, d0, ct).value.states[s], e, g) == Lookup(d.states[s], e, g);
      } else {
        assert Phase2(ass, k, d0, ct).value == d;
        assert Lookup(Phase2(ass, k, d0, ct).value.states[s], e, g) == Lookup(d0.states[s], e, g);
      }
    }
  }

  /** Once a step fails, the whole phase has failed. */
  lemma {:induction false} Phase2Fails(ass: seq<Assignment>, i: nat, k: nat, d0: Decoded, ct: CompletenessType)
    requires i <= k <= |ass| && YVarsInRange(ass, |d0.states|)
    requires Phase2(ass, i, d0, ct).None?
    ensures Phase2(ass, k, d0, ct).None?
    decreases k
  {
    if k > i {
      Phase2Fails(ass, i, k - 1, d0, ct);
      Phase2Unfold(ass, k, d0, ct);
    }
  }

  /**
   * NORMAL: every y variable is handled and afterwards its state has a
   * tautology transition on its event.
   */
  lemma {:induction false} NormalCoversYVars(ass: seq<Assignment>, k: nat, d0: Decoded)
    requires k <= |ass| && YVarsInRange(ass, |d0.states|)
    ensures Phase2(ass, k, d0, Normal).Some?
    ensures forall j :: 0 <= j < k && IsYVar(ass[j]) ==>
      Lookup(Phase2(ass, k, d0, Normal).value.states[ass[j].v.src], ass[j].v.event, Tautology).Some?
  {
    if k > 0 {
      NormalCoversYVars(ass, k - 1, d0);
      Phase2Unfold(ass, k, d0, Normal);
      var d := Phase2(ass, k - 1, d0, Normal).value;
      var r := Phase2(ass, k, d0, Normal).value;
      forall j | 0 <= j < k && IsYVar(ass[j])
        ensures Lookup(r.states[ass[j].v.src], ass[j].v.event, Tautology).Some?
      {
        if IsYVar(ass[k - 1]) {
          var a := ass[k - 1];
          if j < k - 1 {
            YStepKeeps(ass, a, d, Normal, ass[j].v.src, ass[j].v.event, Tautology);
          } else if Lookup(d.states[a.v.src], a.v.event, Tautology).None? {
            var ts := d.states[a.v.src];
            LookupSnoc(ts, r.states[a.v.src][|ts|], a.v.event, Tautology);
          }
        }
      }
    }
  }

  /**
   * NO_DEAD_ENDS: every y variable is handled, its state ends with at least
   * one transition, and only states that had no transition gain one, at most
   * one each.
   */
  lemma {:induction false} NoDeadEndsFills(ass: seq<Assignment>, k: nat, d0: Decoded)
    requires k <= |ass| && YVarsInRange(ass, |d0.states|)
    ensures Phase2(ass, k, d0, NoDeadEnds).Some?
    ensures forall j :: 0 <= j < k && IsYVar(ass[j]) ==> |Phase2(ass, k, d0, NoDeadEnds).value.states[ass[j].v.src]| >= 1
    ensures forall s :: 0 <= s < |d0.states| && d0.states[s] != [] ==> Phase2(ass, k, d0, NoDeadEnds).value.states[s] == d0.states[s]
    ensures forall s :: 0 <= s < |d0.states| ==> |Phase2(ass, k, d0, NoDeadEnds).value.states[s]| <= |d0.states[s]| + 1
  {
    if k > 0 {
      NoDeadEndsFills(ass, k - 1, d0);
      Phase2Unfold(ass, k, d0, NoDeadEnds);
      if IsYVar(ass[k - 1]) {
        var d := Phase2(ass, k - 1, d0, NoDeadEnds).value;
        var a := ass[k - 1];
        if Lookup(d.states[a.v.src], a.v.event, Tautology).Some? {
          assert |d.states[a.v.src]| >= 1 by {
            assert KeyIndex(d.states[a.v.src], a.v.event, Tautology).Some?;
          }
        }
      }
    }
  }

  /**
   * Any other completeness type: nothing is added, every y variable is
   * recorded as supported, and the builder fails exactly when some y
   * variable's state lacks a tautology transition on its event.
   */
  lemma {:induction false} OtherCompletenessChecks(ass: seq<Assignment>, k: nat, d0: Decoded)
    requires k <= |ass| && YVarsInRange(ass, |d0.states|)
    ensures Phase2(ass, k, d0, OtherCompleteness).None? <==>
      exists j :: 0 <= j < k && IsYVar(ass[j]) && Lookup(d0.states[ass[j].v.src], ass[j].v.event, Tautology).None?
    ensures Phase2(ass, k, d0, OtherCompleteness).Some? ==>
      Phase2(ass, k, d0, OtherCompleteness).value.states == d0.states &&
      Phase2(ass, k, d0, OtherCompleteness).value.filtered == d0.filtered + YVarsOf(ass, k)
  {
    if k > 0 {
      OtherCompletenessChecks(ass, k - 1, d0);
      Phase2Unfold(ass, k, d0, OtherCompleteness);
      if Phase2(ass, k - 1, d0, OtherCompleteness).Some? {
        var d := Phase2(ass, k - 1, d0, OtherCompleteness).value;
        assert d0.filtered + YVarsOf(ass, k) == d.filtered + (if IsYVar(ass[k - 1]) then [ass[k - 1].v] else []);
      } else {
        var j :| 0 <= j < k - 1 && IsYVar(ass[j]) && Lookup(d0.states[ass[j].v.src], ass[j].v.event, Tautology).None?;
      }
    }
  }

  /** Without completeness only the tree's transitions are present, and no y variable is recorded or checked. */
  lemma DecodeWithoutCompleteness(ass: seq<Assignment>, tree: ScenarioTree, colorSize: nat, ct: CompletenessType, s: nat, e: Event, g: Guard)
    requires ValidTree(tree) && ColorVarsInRange(ass, |tree.edges|, StateCount(colorSize)) && YVarsInRange(ass, StateCount(colorSize))
    requires s < StateCount(colorSize)
    ensures Decode(ass, tree, colorSize, false, ct).Some?
    ensures Decode(ass, tree, colorSize, false, ct).value.filtered == [] && Decode(ass, tree, colorSize, false, ct).value.warnings == []
    ensures Lookup(Decode(ass, tree, colorSize, false, ct).value.states[s], e, g) ==
      FirstCandidate(TreeCandidates(tree, Colors(ass, |tree.edges|), |tree.edges|), s, e, g)
  {
    TreeTransitionsLookup(ass, tree, colorSize, s, e, g);
  }

  /**
   * With completeness, whatever the outcome, every transition the tree
   * gives survives, and every guarded (non-tautology) key is the tree's.
   */
  lemma DecodeKeepsTree(ass: seq<Assignment>, tree: ScenarioTree, colorSize: nat, ct: CompletenessType, s: nat, e: Event, g: Guard)
    requires ValidTree(tree) && ColorVarsInRange(ass, |tree.edges|, StateCount(colorSize)) && YVarsInRange(ass, StateCount(colorSize))
    requires s < StateCount(colorSize) && Decode(ass, tree, colorSize, true, ct).Some?
    requires FirstCandidate(TreeCandidates(tree, Colors(ass, |tree.edges|), |tree.edges|), s, e, g).Some? || g != Tautology
    ensures Lookup(Decode(ass, tree, colorSize, true, ct).value.states[s], e, g) ==
      FirstCandidate(TreeCandidates(tree, Colors(ass, |tree.edges|), |tree.edges|), s, e, g)
  {
    TreeTransitionsLookup(ass, tree, colorSize, s, e, g);
    Phase2Keeps(ass, |ass|, Decoded(TreeTransitions(ass, tree, colorSize), [], []), ct, s, e, g);
  }

  // ---------------------------------------------------------------------------
  // The builder

  /** The body of the loop over the true y variables; false when the completeness type is not supported. */
  method AddSolverTransition(ans: MealyAutomaton, ass: seq<Assignment>, a: Assignment, ct: CompletenessType,
                             filtered: seq<Var>, warnings: seq<Warning>)
    returns (ok: bool, filteredAfter: seq<Var>, warningsAfter: seq<Warning>)
    requires ans.Valid() && IsYVar(a) && a.v.src < |ans.states| && a.v.dst < |ans.states|
    modifies ans
    ensures ans.Valid() && |ans.states| == old(|ans.states|)
    ensures YStep(ass, a, Decoded(old(ans.states), filtered, warnings), ct) ==
      if ok then Some(Decoded(ans.states, filteredAfter, warningsAfter)) else None
  {
    var from, to, event := a.v.src, a.v.dst, a.v.event;
    var existing := ans.Transition(from, event, Tautology);
    filteredAfter := if existing.Some? then filtered + [a.v] else filtered;
    var proper := CollectActions(ass, from, event);
    warningsAfter := warnings;
    ok := true;
    if existing.None? {
      var adds;
      if ct == Normal {
        adds := true;
      } else if ct == NoDeadEnds {
        adds := |ans.states[from]| == 0;
      } else {
        ok := false;
        return;
      }
      if adds {
        assert KeyIndex(ans.states[from], event, Tautology).None?;
        ans.AddTransition(from, MealyTransition(event, Tautology, ActionSet(proper), to));
      }
    } else {
      // the two checks only log
      var t := existing.value;
      warningsAfter := warnings
        + (if t.dst != to then [InvalidDestination(a.v)] else [])
        + (if !ActionsAgree(t.actions, proper) then [ActionsMismatch(a.v)] else []);
    }
  }

  /**
   * constructAutomatonFromAssignment: colours the nodes, adds the tree's
   * transitions, then, when complete, the y variables' transitions. None is
   * the AssertionError of an unsupported completeness type.
   */
  method ConstructAutomatonFromAssignment(ass: seq<Assignment>, tree: ScenarioTree, colorSize: nat, complete: bool, ct: CompletenessType)
    returns (result: Option<MealyAutomaton>, filteredYVars: seq<Var>, warnings: seq<Warning>)
    requires ValidTree(tree) && ColorVarsInRange(ass, |tree.edges|, StateCount(colorSize)) && YVarsInRange(ass, StateCount(colorSize))
    ensures result.None? <==> Decode(ass, tree, colorSize, complete, ct).None?
    ensures result.Some? ==> fresh(result.value) && result.value.Valid()
    ensures result.Some? ==> Decode(ass, tree, colorSize, complete, ct) == Some(Decoded(result.value.states, filteredYVars, warnings))
  {
    var nodeColors := ColorNodes(ass, |tree.edges|, StateCount(colorSize));
    assert nodeColors[..] == Colors(ass, |tree.edges|);
    ColorsInRange(ass, |tree.edges|, StateCount(colorSize));
    var ans := new MealyAutomaton(colorSize);
    assert ans.states == EmptyTable(StateCount(colorSize));
    AddTreeTransitions(ans, tree, nodeColors);
    assert ans.states == TreeTransitions(ass, tree, colorSize);
    filteredYVars, warnings := [], [];
    if complete {
      var ok;
      ok, filteredYVars, warnings := AddSolverTransitions(ans, ass, ct);
      if !ok {
        return None, filteredYVars, warnings;
      }
    }
    result := Some(ans);
  }

  /** The loop over the true y variables, stopping at the first failure. */
  method AddSolverTransitions(ans: MealyAutomaton, ass: seq<Assignment>, ct: CompletenessType)
    returns (ok: bool, filteredYVars: seq<Var>, warnings: seq<Warning>)
    requires ans.Valid() && YVarsInRange(ass, |ans.states|)
    modifies ans
    ensures ans.Valid()
    ensures Phase2(ass, |ass|, Decoded(old(ans.states), [], []), ct) ==
      if ok then Some(Decoded(ans.states, filteredYVars, warnings)) else None
  {
    ghost var d0 := Decoded(ans.states, [], []);
    filteredYVars, warnings := [], [];
    for i := 0 to |ass|
      invariant ans.Valid() && |ans.states| == |d0.states|
      invariant Phase2(ass, i, d0, ct) == Some(Decoded(ans.states, filteredYVars, warnings))
    {
      Phase2Unfold(ass, i + 1, d0, ct);
      if IsYVar(ass[i]) {
        ok, filteredYVars, warnings := AddSolverTransition(ans, ass, ass[i], ct, filteredYVars, warnings);
        if !ok {
          Phase2Fails(ass, i + 1, |ass|, d0, ct);
          return;
        }
      }
    }
    ok := true;
  }

  // ---------------------------------------------------------------------------
  // The solver's time budget

  const TwoTo31: int := 0x8000_0000
  const TwoTo32: int := 0x1_0000_0000

  /** Java's (int) cast: the low 32 bits as a two's-complement value (a long's low bits are those of the exact value). */
  function ToInt32(x: int): (r: int)
    ensures -TwoTo31 <= r < TwoTo31
    ensures (r - x) % TwoTo32 == 0
    ensures -TwoTo31 <= x < TwoTo31 ==> r == x
  {
    (x + TwoTo31) % TwoTo32 - TwoTo31
  }

  /** Java's integer division, which truncates toward zero. */
  function JavaDiv(a: int, b: int): int
    requires b > 0
  {
    if a >= 0 then a / b else -((-a) / b)
  }

  /** timeLeftForSolver: the milliseconds left cast to int, divided by 1000, plus one. */
  function TimeLeftForSolver(finishTime: int, now: int): int
  {
    JavaDiv(ToInt32(finishTime - now), 1000) + 1
  }

  /** Time left: the whole seconds left plus one, so at least one second, and more than the time left. */
  lemma TimeLeftWhenAhead(finishTime: int, now: int)
    requires 0 <= finishTime - now < TwoTo31
    ensures TimeLeftForSolver(finishTime, now) >= 1
    ensures (TimeLeftForSolver(finishTime, now) - 1) * 1000 <= finishTime - now < TimeLeftForSolver(finishTime, now) * 1000
  {
  }

  /**
   * Overdue: the result is 1 minus the whole seconds overdue, rounded toward
   * zero, so still one second for less than a second overdue and at most 0 after.
   */
  lemma TimeLeftWhenOverdue(finishTime: int, now: int)
    requires -TwoTo31 <= finishTime - now < 0
    ensures TimeLeftForSolver(finishTime, now) == 1 - (now - finishTime) / 1000
    ensures TimeLeftForSolver(finishTime, now) == 1 <==> now - finishTime < 1000
    ensures TimeLeftForSolver(finishTime, now) <= 1
  {
  }

  /** The cast happens before the division: 2^31 milliseconds (almost 25 days) left reads as far overdue. */
  lemma TimeLeftWrapsAround(finishTime: int, now: int)
    requires finishTime - now == TwoTo31
    ensures TimeLeftForSolver(finishTime, now) == -2147482
  {
  }

  // ---------------------------------------------------------------------------
  // LTL to limboole syntax

  /**
   * String.replace: scanning left to right, every occurrence of pat that does
   * not overlap an earlier replaced one becomes rep.
   */
  function ReplaceLiteral(s: string, pat: string, rep: string): string
    requires |pat| >= 1
    decreases |s|
  {
    if |s| < |pat| then s
    else if s[..|pat|] == pat then rep + ReplaceLiteral(s[|pat|..], pat, rep)
    else [s[0]] + ReplaceLiteral(s[1..], pat, rep)
  }

  /** A regex word character: an ASCII letter, a digit or the underscore. */
  predicate IsWordChar(c: char)
  {
    'a' <= c <= 'z' || 'A' <= c <= 'Z' || '0' <= c <= '9' || c == '_'
  }

  /** The regular expression \bword\b matches at i: word occurs there and no word character touches it. */
  predicate WordAt(s: string, i: nat, word: string)
  {
    i + |word| <= |s| && s[i..i + |word|] == word &&
    (i == 0 || !IsWordChar(s[i - 1])) && (i + |word| == |s| || !IsWordChar(s[i + |word|]))
  }

  /** String.replaceAll("\\bword\\b", rep) on s[i..], with the boundaries judged on the whole of s. */
  function ReplaceWord(s: string, i: nat, word: string, rep: string): string
    requires i <= |s| && |word| >= 1
    decreases |s| - i
  {
    if i == |s| then []
    else if WordAt(s, i, word) then rep + ReplaceWord(s, i + |word|, word, rep)
    else [s[i]] + ReplaceWord(s, i + 1, word, rep)
  }

  /** ltl2limboole on a formula whose event lists are already expanded. */
  function Ltl2Limboole(formula: string): string
  {
    var noAnd := ReplaceLiteral(formula, "&&", "&");
    var noOr := ReplaceLiteral(noAnd, "||", "|");
    var andWord := ReplaceWord(noOr, 0, "and", "&");
    var orWord := ReplaceWord(andWord, 0, "or", "|");
    ReplaceWord(orWord, 0, "not", "!")
  }

  /** pat occurs in s at i. */
  predicate LiteralAt(s: string, i: nat, pat: string)
  {
    i + |pat| <= |s| && s[i..i + |pat|] == pat
  }

  /** Without an occurrence of pat, String.replace changes nothing. */
  lemma {:induction false} ReplaceLiteralAbsent(s: string, pat: string, rep: string)
    requires |pat| >= 1
    requires forall i :: 0 <= i < |s| ==> !LiteralAt(s, i, pat)
    ensures ReplaceLiteral(s, pat, rep) == s
    decreases |s|
  {
    if |s| >= |pat| {
      assert !LiteralAt(s, 0, pat);
      assert s[0..|pat|] == s[..|pat|];
      forall i | 0 <= i < |s[1..]|
        ensures !LiteralAt(s[1..], i, pat)
      {
        assert !LiteralAt(s, i + 1, pat);
        if i + |pat| <= |s[1..]| {
          assert s[1..][i..i + |pat|] == s[i + 1..i + 1 + |pat|];
        }
      }
      ReplaceLiteralAbsent(s[1..], pat, rep);
      assert s == [s[0]] + s[1..];
    }
  }

  /** String.replace introduces no characters other than those of rep, and does not lengthen when rep is shorter. */
  lemma {:induction false} ReplaceLiteralChars(s: string, pat: string, rep: string, c: char)
    requires |pat| >= 1
    ensures c in ReplaceLiteral(s, pat, rep) ==> c in s || c in rep
    ensures |rep| <= |pat| ==> |ReplaceLiteral(s, pat, rep)| <= |s|
    decreases |s|
  {
    if |s| >= |pat| {
      var skip := if s[..|pat|] == pat then |pat| else 1;
      ReplaceLiteralChars(s[skip..], pat, rep, c);
      if c in s[skip..] {
        var k :| 0 <= k < |s[skip..]| && s[skip..][k] == c;
        assert s[skip + k] == c;
      }
    }
  }

  /** Without a whole-word occurrence, replaceAll changes nothing. */
  lemma {:induction false} ReplaceWordAbsent(s: string, i: nat, word: string, rep: string)
    requires i <= |s| && |word| >= 1
    requires forall j :: i <= j < |s| ==> !WordAt(s, j, word)
    ensures ReplaceWord(s, i, word, rep) == s[i..]
    decreases |s| - i
  {
    if i < |s| {
      ReplaceWordAbsent(s, i + 1, word, rep);
      assert s[i..] == [s[i]] + s[i + 1..];
    }
  }

  /** replaceAll introduces no characters other than those of rep, and does not lengthen when rep is shorter. */
  lemma {:induction false} ReplaceWordChars(s: string, i: nat, word: string, rep: string, c: char)
    requires i <= |s| && |word| >= 1
    ensures c in ReplaceWord(s, i, word, rep) ==> c in s[i..] || c in rep
    ensures |rep| <= |word| ==> |ReplaceWord(s, i, word, rep)| <= |s| - i
    decreases |s| - i
  {
    if i < |s| {
      var next := if WordAt(s, i, word) then i + |word| else i + 1;
      ReplaceWordChars(s, next, word, rep, c);
      if c in ReplaceWord(s, next, word, rep) && c in s[next..] {
        var k :| 0 <= k < |s[next..]| && s[next..][k] == c;
        assert s[i..][next - i + k] == c;
      }
    }
  }

  /** A word inside a longer identifier is left alone; a whole word is replaced. */
  lemma WordBoundaries()
    ensures ReplaceWord("band", 0, "and", "&") == "band"
    ensures ReplaceWord("a and b", 0, "and", "&") == "a & b"
  {
    var s, w := "band", "and";
    assert !WordAt(s, 0, w) by { assert s[0..3][0] == 'b'; }
    assert !WordAt(s, 1, w) by { assert IsWordChar(s[0]); }
    ReplaceWordAbsent(s, 0, w, "&");
    assert s[0..] == s;
    var t := "a and b";
    assert !WordAt(t, 0, w) by { assert t[0..3][1] == ' '; }
    assert !WordAt(t, 1, w) by { assert t[1..4][0] == ' '; }
    assert t[2..5] == w;
    assert WordAt(t, 2, w);
    ReplaceWordAbsent(t, 5, w, "&");
    assert t[5..] == " b";
    assert ReplaceWord(t, 2, w, "&") == "&" + " b";
  }

  /** String.replace of a pattern without a space works on the two sides of a space separately. */
  lemma {:induction false} ReplaceLiteralSpace(a: string, b: string, pat: string, rep: string)
    requires |pat| >= 1 && ' ' !in pat
    ensures ReplaceLiteral(a + " " + b, pat, rep) == ReplaceLiteral(a, pat, rep) + " " + ReplaceLiteral(b, pat, rep)
    decreases |a|
  {
    var s := a + " " + b;
    if |a| < |pat| <= |s| {
      assert s[..|pat|][|a|] == ' ';
    }
    if |s| < |pat| {
      ReplaceLiteralShort(a, pat, rep);
      ReplaceLiteralShort(b, pat, rep);
    } else if a == [] {
      assert s[1..] == b;
    } else if s[..|pat|] == pat {
      assert a[..|pat|] == pat;
      assert s[|pat|..] == a[|pat|..] + " " + b;
      ReplaceLiteralSpace(a[|pat|..], b, pat, rep);
    } else {
      assert s[1..] == a[1..] + " " + b;
      ReplaceLiteralSpace(a[1..], b, pat, rep);
      if |a| < |pat| {
        ReplaceLiteralShort(a, pat, rep);
        ReplaceLiteralShort(a[1..], pat, rep);
        assert a == [a[0]] + a[1..];
      } else {
        assert a[..|pat|] == s[..|pat|];
      }
    }
  }

  /** A string shorter than the pattern is left as it is. */
  lemma ReplaceLiteralShort(s: string, pat: string, rep: string)
    requires 1 <= |pat| && |s| < |pat|
    ensures ReplaceLiteral(s, pat, rep) == s
  {
  }

  /** A whole-word match never starts on a space when the word has none. */
  lemma WordAtSpace(a: string, b: string, word: string)
    requires |word| >= 1 && ' ' !in word
    ensures !WordAt(a + " " + b, |a|, word)
  {
    var s := a + " " + b;
    assert word[0] in word;
    if |a| + |word| <= |s| {
      assert s[|a|..|a| + |word|][0] == ' ';
    }
  }

  /** Before the space, a whole-word match is judged on the left side alone. */
  lemma WordAtLeft(a: string, b: string, i: nat, word: string)
    requires i < |a| && ' ' !in word
    ensures WordAt(a + " " + b, i, word) == WordAt(a, i, word)
  {
    var s := a + " " + b;
    if i + |word| <= |a| {
      assert s[i..i + |word|] == a[i..i + |word|];
    } else if i + |word| <= |s| {
      assert s[i..i + |word|][|a| - i] == ' ';
    }
  }

  /** After a non-word character, a whole-word match is judged on what follows alone. */
  lemma WordAtRight(p: string, b: string, j: nat, word: string)
    requires |p| >= 1 && !IsWordChar(p[|p| - 1]) && j < |b|
    ensures WordAt(p + b, |p| + j, word) == WordAt(b, j, word)
  {
    var s := p + b;
    if |p| + j + |word| <= |s| {
      assert s[|p| + j..|p| + j + |word|] == b[j..j + |word|];
    }
    assert s[|p| + j - 1] == if j == 0 then p[|p| - 1] else b[j - 1];
  }

  /** replaceAll of a word without a space works on the two sides of a space separately. */
  lemma {:induction false} ReplaceWordSpace(a: string, b: string, i: nat, word: string, rep: string)
    requires i <= |a| && |word| >= 1 && ' ' !in word
    ensures ReplaceWord(a + " " + b, i, word, rep) == ReplaceWord(a, i, word, rep) + " " + ReplaceWord(b, 0, word, rep)
    decreases |a| - i
  {
    if i == |a| {
      WordAtSpace(a, b, word);
      ReplaceWordShift(a + " ", b, 0, word, rep);
    } else {
      WordAtLeft(a, b, i, word);
      var next := if WordAt(a, i, word) then i + |word| else i + 1;
      ReplaceWordSpace(a, b, next, word, rep);
    }
  }

  /** After a non-word character, replaceAll over the rest is replaceAll over the rest alone. */
  lemma {:induction false} ReplaceWordShift(p: string, b: string, j: nat, word: string, rep: string)
    requires |p| >= 1 && !IsWordChar(p[|p| - 1]) && j <= |b| && |word| >= 1
    ensures ReplaceWord(p + b, |p| + j, word, rep) == ReplaceWord(b, j, word, rep)
    decreases |b| - j
  {
    var s := p + b;
    if j < |b| {
      WordAtRight(p, b, j, word);
      if WordAt(b, j, word) {
        ReplaceWordShift(p, b, j + |word|, word, rep);
        assert ReplaceWord(s, |p| + j, word, rep) == rep + ReplaceWord(s, |p| + j + |word|, word, rep);
      } else {
        ReplaceWordShift(p, b, j + 1, word, rep);
        assert s[|p| + j] == b[j];
        assert ReplaceWord(s, |p| + j, word, rep) == [b[j]] + ReplaceWord(s, |p| + j + 1, word, rep);
      }
    }
  }

  /** String.replace leaves a string alone when the pattern's first character is not in it. */
  lemma ReplaceLiteralMissing(s: string, pat: string, rep: string)
    requires |pat| >= 1 && pat[0] !in s
    ensures ReplaceLiteral(s, pat, rep) == s
  {
    forall i | 0 <= i < |s|
      ensures !LiteralAt(s, i, pat)
    {
      if i + |pat| <= |s| {
        assert s[i..i + |pat|][0] == s[i];
      }
    }
    ReplaceLiteralAbsent(s, pat, rep);
  }

  /** replaceAll leaves a string alone when the word's first character is not in it. */
  lemma ReplaceWordMissing(s: string, word: string, rep: string)
    requires |word| >= 1 && word[0] !in s
    ensures ReplaceWord(s, 0, word, rep) == s
  {
    forall j | 0 <= j < |s|
      ensures !WordAt(s, j, word)
    {
      if j + |word| <= |s| {
        assert s[j..j + |word|][0] == s[j];
      }
    }
    ReplaceWordAbsent(s, 0, word, rep);
  }

  /** A string that is exactly the word is replaced whole. */
  lemma ReplaceWordWhole(word: string, rep: string)
    requires |word| >= 1
    ensures ReplaceWord(word, 0, word, rep) == rep
  {
    assert word[0..|word|] == word;
    assert WordAt(word, 0, word);
  }

  /** A string that is exactly the pattern is replaced whole. */
  lemma ReplaceLiteralWhole(pat: string, rep: string)
    requires |pat| >= 1
    ensures ReplaceLiteral(pat, pat, rep) == rep
  {
    assert pat[..|pat|] == pat;
    assert ReplaceLiteral(pat[|pat|..], pat, rep) == [];
  }

  /** ltl2limboole rewrites the words of a space-separated formula one by one. */
  lemma Ltl2LimbooleSpace(a: string, b: string)
    ensures Ltl2Limboole(a + " " + b) == Ltl2Limboole(a) + " " + Ltl2Limboole(b)
  {
    var a1, b1 := ReplaceLiteral(a, "&&", "&"), ReplaceLiteral(b, "&&", "&");
    ReplaceLiteralSpace(a, b, "&&", "&");
    var a2, b2 := ReplaceLiteral(a1, "||", "|"), ReplaceLiteral(b1, "||", "|");
    ReplaceLiteralSpace(a1, b1, "||", "|");
    var a3, b3 := ReplaceWord(a2, 0, "and", "&"), ReplaceWord(b2, 0, "and", "&");
    ReplaceWordSpace(a2, b2, 0, "and", "&");
    var a4, b4 := ReplaceWord(a3, 0, "or", "|"), ReplaceWord(b3, 0, "or", "|");
    ReplaceWordSpace(a3, b3, 0, "or", "|");
    ReplaceWordSpace(a4, b4, 0, "not", "!");
  }

  /** The word and becomes &. */
  lemma AndWord()
    ensures Ltl2Limboole("and") == "&"
  {
    ReplaceLiteralMissing("and", "&&", "&");
    ReplaceLiteralMissing("and", "||", "|");
    ReplaceWordWhole("and", "&");
    ReplaceWordMissing("&", "or", "|");
    ReplaceWordMissing("&", "not", "!");
  }

  /** The word or becomes |. */
  lemma OrWord()
    ensures Ltl2Limboole("or") == "|"
  {
    ReplaceLiteralMissing("or", "&&", "&");
    ReplaceLiteralMissing("or", "||", "|");
    ReplaceWordMissing("or", "and", "&");
    ReplaceWordWhole("or", "|");
    ReplaceWordMissing("|", "not", "!");
  }

  /** The word not becomes !. */
  lemma NotWord()
    ensures Ltl2Limboole("not") == "!"
  {
    ReplaceLiteralMissing("not", "&&", "&");
    ReplaceLiteralMissing("not", "||", "|");
    ReplaceWordMissing("not", "and", "&");
    assert !WordAt("not", 0, "or") && !WordAt("not", 1, "or") && !WordAt("not", 2, "or");
    ReplaceWordAbsent("not", 0, "or", "|");
    ReplaceWordWhole("not", "!");
  }

  /** The operator && becomes &. */
  lemma AndSymbol()
    ensures Ltl2Limboole("&&") == "&"
  {
    ReplaceLiteralWhole("&&", "&");
    ReplaceLiteralMissing("&", "||", "|");
    ReplaceWordMissing("&", "and", "&");
    ReplaceWordMissing("&", "or", "|");
    ReplaceWordMissing("&", "not", "!");
  }

  /** The operator || becomes |. */
  lemma OrSymbol()
    ensures Ltl2Limboole("||") == "|"
  {
    ReplaceLiteralMissing("||", "&&", "&");
    ReplaceLiteralWhole("||", "|");
    ReplaceWordMissing("|", "and", "&");
    ReplaceWordMissing("|", "or", "|");
    ReplaceWordMissing("|", "not", "!");
  }

  /** An operator between two spaces is rewritten on its own, and so are its operands. */
  lemma Ltl2LimbooleInfix(a: string, op: string, r: string, b: string)
    requires Ltl2Limboole(op) == r
    ensures Ltl2Limboole(a + " " + op + " " + b) == Ltl2Limboole(a) + " " + r + " " + Ltl2Limboole(b)
  {
    var rest := op + " " + b;
    assert a + " " + op + " " + b == a + " " + rest;
    Ltl2LimbooleSpace(a, rest);
    Ltl2LimbooleSpace(op, b);
  }

  /** Regrouping an operator and the spaces around it. */
  lemma InfixConcat(a: string, op: string, b: string)
    ensures a + (" " + op + " ") + b == a + " " + op + " " + b
  {
  }

  /** a and b: a conjunction in limboole syntax. */
  lemma Ltl2LimbooleAnd(a: string, b: string)
    ensures Ltl2Limboole(a + " and " + b) == Ltl2Limboole(a) + " & " + Ltl2Limboole(b)
  {
    AndWord();
    Ltl2LimbooleInfix(a, "and", "&", b);
    assert " and " == " " + "and" + " " && " & " == " " + "&" + " ";
    InfixConcat(a, "and", b);
    InfixConcat(Ltl2Limboole(a), "&", Ltl2Limboole(b));
  }

  /** a && b: a conjunction in limboole syntax. */
  lemma Ltl2LimbooleAndSymbol(a: string, b: string)
    ensures Ltl2Limboole(a + " && " + b) == Ltl2Limboole(a) + " & " + Ltl2Limboole(b)
  {
    AndSymbol();
    Ltl2LimbooleInfix(a, "&&", "&", b);
    assert " && " == " " + "&&" + " " && " & " == " " + "&" + " ";
    InfixConcat(a, "&&", b);
    InfixConcat(Ltl2Limboole(a), "&", Ltl2Limboole(b));
  }

  /** a or b: a disjunction in limboole syntax. */
  lemma Ltl2LimbooleOr(a: string, b: string)
    ensures Ltl2Limboole(a + " or " + b) == Ltl2Limboole(a) + " | " + Ltl2Limboole(b)
  {
    OrWord();
    Ltl2LimbooleInfix(a, "or", "|", b);
    assert " or " == " " + "or" + " " && " | " == " " + "|" + " ";
    InfixConcat(a, "or", b);
    InfixConcat(Ltl2Limboole(a), "|", Ltl2Limboole(b));
  }

  /** a || b: a disjunction in limboole syntax. */
  lemma Ltl2LimbooleOrSymbol(a: string, b: string)
    ensures Ltl2Limboole(a + " || " + b) == Ltl2Limboole(a) + " | " + Ltl2Limboole(b)
  {
    OrSymbol();
    Ltl2LimbooleInfix(a, "||", "|", b);
    assert " || " == " " + "||" + " " && " | " == " " + "|" + " ";
    InfixConcat(a, "||", b);
    InfixConcat(Ltl2Limboole(a), "|", Ltl2Limboole(b));
  }

  /** not a: a negation in limboole syntax. */
  lemma Ltl2LimbooleNot(a: string)
    ensures Ltl2Limboole("not " + a) == "! " + Ltl2Limboole(a)
  {
    NotWord();
    assert "not " + a == "not" + " " + a;
    Ltl2LimbooleSpace("not", a);
  }

  /**
   * The rewriting introduces no characters but &, | and !, and never
   * lengthens the formula.
   */
  lemma Ltl2LimbooleChars(formula: string, c: char)
    ensures c in Ltl2Limboole(formula) ==> c in formula || c in "&|!"
    ensures |Ltl2Limboole(formula)| <= |formula|
  {
    var noAnd := ReplaceLiteral(formula, "&&", "&");
    var noOr := ReplaceLiteral(noAnd, "||", "|");
    var andWord := ReplaceWord(noOr, 0, "and", "&");
    var orWord := ReplaceWord(andWord, 0, "or", "|");
    ReplaceLiteralChars(formula, "&&", "&", c);
    ReplaceLiteralChars(noAnd, "||", "|", c);
    ReplaceWordChars(noOr, 0, "and", "&", c);
    ReplaceWordChars(andWord, 0, "or", "|", c);
    ReplaceWordChars(orWord, 0, "not", "!", c);
    assert noOr[0..] == noOr && andWord[0..] == andWord && orWord[0..] == orWord;
  }
}
