/**
 * The counterexample-guided plant builder (src/automaton_builders/PlantAutomatonBuilder.java):
 * each round asks the solver for an assignment, decodes it into a
 * nondeterministic Moore automaton, and, if the verifier finds
 * counterexamples, adds the shortest ones to the negative forests.
 */
module PlantBuilder {
  import opened Common
  import opened MooreSimulation
  import opened MooreSpec
  import MooreAutomata
  import MealyAutomata

  /** Integer.MAX_VALUE, the "no index yet" length of the minimum search. */
  const IntMax: int := 0x7fff_ffff

  /**
   * A verifier counterexample: one event and one action list per position;
   * the last loopLength positions repeat forever.
   */
  datatype Counterexample = Counterexample(events: seq<Event>, actions: seq<seq<string>>, loopLength: nat)

  predicate WellFormedCounterexample(ce: Counterexample)
  {
    |ce.events| == |ce.actions| && ce.loopLength <= |ce.events|
  }

  /** A counterexample with no positions: the verifier found nothing. */
  predicate IsEmpty(ce: Counterexample)
  {
    ce.events == []
  }

  /** s written n times. */
  function Repeat<T>(s: seq<T>, n: nat): (r: seq<T>)
    ensures |r| == n * |s|
  {
    if n == 0 then [] else Repeat(s, n - 1) + s
  }

  /** Position j of copy i of s in the repetition. */
  lemma {:induction false} RepeatAt<T>(s: seq<T>, n: nat, i: nat, j: nat)
    requires i < n && j < |s|
    ensures i * |s| + j < n * |s| && Repeat(s, n)[i * |s| + j] == s[j]
  {
    if i < n - 1 {
      RepeatAt(s, n - 1, i, j);
    } else {
      assert Repeat(s, n) == Repeat(s, n - 1) + s;
      assert (n - 1) * |s| == n * |s| - |s|;
    }
  }

  /** The counterexample with its loop unrolled size times and no loop left. */
  function Collapsed(ce: Counterexample, size: nat): Counterexample
    requires WellFormedCounterexample(ce)
  {
    var loopStart := |ce.events| - ce.loopLength;
    Counterexample(ce.events[..loopStart] + Repeat(ce.events[loopStart..], size),
                   ce.actions[..loopStart] + Repeat(ce.actions[loopStart..], size), 0)
  }

  lemma SeqAssoc<T>(a: seq<T>, b: seq<T>, c: seq<T>)
    ensures (a + b) + c == a + (b + c)
  {
  }

  /** collapseLoop: the prefix, then the loop size times, with loop length 0. */
  method CollapseLoop(ce: Counterexample, size: nat) returns (r: Counterexample)
    requires WellFormedCounterexample(ce)
    ensures r == Collapsed(ce, size)
  {
    var length := |ce.events|;
    var loopStart := length - ce.loopLength;
    var events := ce.events[..loopStart];
    var actions := ce.actions[..loopStart];
    ghost var eventLoop, actionLoop := ce.events[loopStart..], ce.actions[loopStart..];
    for i := 0 to size
      invariant events == ce.events[..loopStart] + Repeat(eventLoop, i)
      invariant actions == ce.actions[..loopStart] + Repeat(actionLoop, i)
    {
      assert ce.events[loopStart..length] == eventLoop && ce.actions[loopStart..length] == actionLoop;
      SeqAssoc(ce.events[..loopStart], Repeat(eventLoop, i), eventLoop);
      SeqAssoc(ce.actions[..loopStart], Repeat(actionLoop, i), actionLoop);
      events := events + ce.events[loopStart..length];
      actions := actions + ce.actions[loopStart..length];
    }
    r := Counterexample(events, actions, 0);
  }

  /**
   * The collapsed counterexample is well formed with no loop: it has
   * loopStart + size * loopLength positions, keeps the prefix, and position
   * j of copy i of the loop is position loopStart + j of the original.
   */
  lemma CollapsedShape(ce: Counterexample, size: nat, i: nat, j: nat)
    requires WellFormedCounterexample(ce) && i < size && j < ce.loopLength
    ensures var r, loopStart := Collapsed(ce, size), |ce.events| - ce.loopLength;
      WellFormedCounterexample(r) && r.loopLength == 0 &&
      |r.events| == loopStart + size * ce.loopLength &&
      r.events[..loopStart] == ce.events[..loopStart] && r.actions[..loopStart] == ce.actions[..loopStart] &&
      r.events[loopStart + i * ce.loopLength + j] == ce.events[loopStart + j] &&
      r.actions[loopStart + i * ce.loopLength + j] == ce.actions[loopStart + j]
  {
    var loopStart := |ce.events| - ce.loopLength;
    RepeatAt(ce.events[loopStart..], size, i, j);
    RepeatAt(ce.actions[loopStart..], size, i, j);
  }

  /** A counterexample without a loop collapses to itself. */
  lemma {:induction false} CollapseNoLoop(ce: Counterexample, size: nat)
    requires WellFormedCounterexample(ce) && ce.loopLength == 0
    ensures Collapsed(ce, size) == ce
  {
    var loopStart := |ce.events|;
    assert ce.events[loopStart..] == [] && ce.actions[loopStart..] == [];
    assert Repeat(ce.events[loopStart..], size) == [] && Repeat(ce.actions[loopStart..], size) == [];
    assert ce.events[..loopStart] == ce.events && ce.actions[..loopStart] == ce.actions;
  }

  /** The non-empty counterexamples, in order (filter(ce -> !ce.isEmpty())). */
  function NonEmpty(ces: seq<Counterexample>): (r: seq<Counterexample>)
    ensures forall ce :: ce in r <==> ce in ces && !IsEmpty(ce)
  {
    if ces == [] then []
    else NonEmpty(ces[..|ces| - 1]) + (if IsEmpty(ces[|ces| - 1]) then [] else [ces[|ces| - 1]])
  }

  /** map(ce -> collapseLoop(ce, size)). */
  function CollapseAll(ces: seq<Counterexample>, size: nat): (r: seq<Counterexample>)
    requires forall ce :: ce in ces ==> WellFormedCounterexample(ce)
    ensures |r| == |ces| && forall k :: 0 <= k < |ces| ==> r[k] == Collapsed(ces[k], size)
  {
    seq(|ces|, k requires 0 <= k < |ces| => Collapsed(ces[k], size))
  }

  /** distinct(): the first occurrence of each element, in order. */
  function Dedup(xs: seq<Counterexample>): (r: seq<Counterexample>)
    ensures Distinct(r) && forall x :: x in r <==> x in xs
  {
    if xs == [] then []
    else
      var p := Dedup(xs[..|xs| - 1]);
      assert forall x :: x in xs <==> x in xs[..|xs| - 1] || x == xs[|xs| - 1];
      if xs[|xs| - 1] in p then p else p + [xs[|xs| - 1]]
  }

  /** The counterexamples of one kind that the builder chooses among. */
  function Candidates(ces: seq<Counterexample>, size: nat): (r: seq<Counterexample>)
    requires forall ce :: ce in ces ==> WellFormedCounterexample(ce)
  {
    Dedup(CollapseAll(NonEmpty(ces), size))
  }

  /** A non-empty counterexample leaves at least one candidate. */
  lemma CandidatesNonEmpty(ces: seq<Counterexample>, size: nat, ce: Counterexample)
    requires forall c :: c in ces ==> WellFormedCounterexample(c)
    requires ce in ces && !IsEmpty(ce)
    ensures Candidates(ces, size) != []
  {
    var ne := NonEmpty(ces);
    assert ce in ne;
    var k :| 0 <= k < |ne| && ne[k] == ce;
    assert CollapseAll(ne, size)[k] in Dedup(CollapseAll(ne, size));
  }

  /**
   * The index of the first shortest counterexample, or -1 for none: every
   * other is at least as long, and every earlier one is strictly longer.
   */
  function ShortestIndex(ces: seq<Counterexample>): (r: int)
    ensures -1 <= r < |ces| && (r == -1 <==> ces == [])
    ensures r >= 0 ==> forall j :: 0 <= j < |ces| ==> |ces[r].events| <= |ces[j].events|
    ensures r >= 0 ==> forall j :: 0 <= j < r ==> |ces[j].events| > |ces[r].events|
  {
    if ces == [] then -1
    else
      var p := ShortestIndex(ces[..|ces| - 1]);
      if p == -1 || |ces[|ces| - 1].events| < |ces[p].events| then |ces| - 1 else p
  }

  /** The minimum-index loop of build: prevLength is Integer.MAX_VALUE until an index is chosen. */
  method MinIndex(ces: seq<Counterexample>) returns (minIndex: int)
    requires forall k :: 0 <= k < |ces| ==> |ces[k].events| < IntMax
    ensures minIndex == ShortestIndex(ces)
  {
    minIndex := -1;
    for i := 0 to |ces|
      invariant minIndex == ShortestIndex(ces[..i])
    {
      assert ces[..i + 1][..i] == ces[..i];
      var prevLength := if minIndex == -1 then IntMax else |ces[minIndex].events|;
      var curLength := |ces[i].events|;
      minIndex := if curLength < prevLength then i else minIndex;
    }
    assert ces[..|ces|] == ces;
  }

  /** The counterexamples one round adds: to the global forest and to the negative forest. */
  datatype Additions = Additions(global: Option<Counterexample>, normal: Option<Counterexample>)

  /** The three-way choice of build between the shortest normal and the shortest global counterexample. */
  function Select(normal: seq<Counterexample>, global: seq<Counterexample>): (r: Additions)
    requires normal != [] || global != []
    ensures r.global.Some? <==> global != []
    ensures r.global.Some? ==> r.global.value == global[ShortestIndex(global)]
    ensures r.normal.Some? <==>
              normal != [] && (global == [] || |normal[ShortestIndex(normal)].events| <= |global[ShortestIndex(global)].events|)
    ensures r.normal.Some? ==> r.normal.value == normal[ShortestIndex(normal)]
  {
    var normalMinIndex, globalMinIndex := ShortestIndex(normal), ShortestIndex(global);
    if normalMinIndex == -1 && globalMinIndex != -1 then
      Additions(Some(global[globalMinIndex]), None)
    else if normalMinIndex != -1 && globalMinIndex == -1 then
      Additions(None, Some(normal[normalMinIndex]))
    else
      var normalLength := |normal[normalMinIndex].events|;
      var globalLength := |global[globalMinIndex].events|;
      Additions(Some(global[globalMinIndex]), if normalLength <= globalLength then Some(normal[normalMinIndex]) else None)
  }

  /** StringActions of a joined action list: the set of its names. */
  function ActionsOf(names: seq<string>): (r: Actions)
    ensures forall a :: a in r <==> a in names
  {
    set a | a in names
  }

  /**
   * addCounterexample's scenario: position k has the single event k of the
   * counterexample, the tautology guard and the actions of position k.
   */
  function CounterexampleScenario(ce: Counterexample): (sc: MealyAutomata.Scenario)
    requires |ce.events| == |ce.actions|
    ensures MealyAutomata.WellFormedScenario(sc) && |sc| == |ce.events|
    ensures forall k :: 0 <= k < |sc| ==>
              sc[k].events == [ce.events[k]] && sc[k].guard == Tautology && (forall a :: a in sc[k].actions <==> a in ce.actions[k])
  {
    seq(|ce.events|, k requires 0 <= k < |ce.events| => MealyAutomata.Step([ce.events[k]], Tautology, ActionsOf(ce.actions[k])))
  }

  /**
   * A solver variable, read from its name split at "_": x_<node>_<colour>,
   * y_<from>_<to>_<event>, z_<state>_<action>, or a variable of another kind.
   */
  datatype Var = X(node: nat, color: nat) | Y(src: nat, dst: nat, event: nat) | Z(state: nat, action: nat) | OtherVar

  /** One variable of a satisfying assignment with its value. */
  datatype Assignment = Assignment(v: Var, value: bool)

  /** The true x and z variables name existing colours, states and actions. */
  predicate LabelVarsInRange(ass: seq<Assignment>, colorSize: nat, actionCount: nat)
  {
    forall k :: 0 <= k < |ass| && ass[k].value ==>
      (ass[k].v.X? ==> ass[k].v.color < colorSize) &&
      (ass[k].v.Z? ==> ass[k].v.state < colorSize && ass[k].v.action < actionCount)
  }

  /** The true y variables name existing states and events. */
  predicate TransitionVarsInRange(ass: seq<Assignment>, colorSize: nat, eventCount: nat)
  {
    forall k :: 0 <= k < |ass| && ass[k].value && ass[k].v.Y? ==>
      ass[k].v.src < colorSize && ass[k].v.dst < colorSize && ass[k].v.event < eventCount
  }

  /** A positive-forest edge: its event and destination node. */
  datatype ForestEdge = ForestEdge(event: Event, dst: nat)

  /** Nodes are numbered 0..n-1 and every edge leads to a node. */
  predicate WellFormedForest(forest: seq<seq<ForestEdge>>)
  {
    forall n, e :: 0 <= n < |forest| && e in forest[n] ==> e.dst < |forest|
  }

  /** a is a true x variable of a root node with colour s. */
  predicate IsStartVar(a: Assignment, roots: seq<nat>, s: nat)
  {
    a.value && a.v.X? && a.v.node in roots && a.v.color == s
  }

  /** a is a true z variable giving state s the action x. */
  predicate IsActionVar(a: Assignment, s: nat, actionList: seq<string>, x: string)
  {
    a.value && a.v.Z? && a.v.state == s && a.v.action < |actionList| && actionList[a.v.action] == x
  }

  /** a is a true y variable giving state s the transition t. */
  predicate IsTransitionVar(a: Assignment, s: nat, eventList: seq<Event>, t: MooreTransition)
  {
    a.value && a.v.Y? && a.v.src == s && a.v.event < |eventList| && t == MooreTransition(eventList[a.v.event], a.v.dst)
  }

  /**
   * The colouring map: node n is coloured when some x_n_c is true, with
   * the colour of such a variable (the last one put in the map).
   */
  function Coloring(ass: seq<Assignment>): (m: map<nat, nat>)
    ensures forall n :: n in m <==> exists k :: 0 <= k < |ass| && ass[k].value && ass[k].v.X? && ass[k].v.node == n
    ensures forall n :: n in m ==> exists k :: 0 <= k < |ass| && ass[k].value && ass[k].v == X(n, m[n])
  {
    if ass == [] then map[]
    else
      var m := Coloring(ass[..|ass| - 1]);
      var a := ass[|ass| - 1];
      assert forall k :: 0 <= k < |ass| - 1 ==> ass[..|ass| - 1][k] == ass[k];
      if a.value && a.v.X? then m[a.v.node := a.v.color] else m
  }

  /** A node all of whose true x variables name colour c has colour c. */
  lemma {:induction false} ColoringAgrees(ass: seq<Assignment>, n: nat, c: nat)
    requires forall k :: 0 <= k < |ass| && ass[k].value && ass[k].v.X? && ass[k].v.node == n ==> ass[k].v.color == c
    requires n in Coloring(ass)
    ensures Coloring(ass)[n] == c
  {
    var k :| 0 <= k < |ass| && ass[k].value && ass[k].v == X(n, Coloring(ass)[n]);
  }

  /** The transitions the y variables give state s, in assignment order. */
  function Decoded(ass: seq<Assignment>, eventList: seq<Event>, s: nat): (r: seq<MooreTransition>)
    ensures forall t :: t in r <==> exists k :: 0 <= k < |ass| && IsTransitionVar(ass[k], s, eventList, t)
  {
    if ass == [] then []
    else
      var a := ass[|ass| - 1];
      assert forall k :: 0 <= k < |ass| - 1 ==> ass[..|ass| - 1][k] == ass[k];
      Decoded(ass[..|ass| - 1], eventList, s) +
        (if a.value && a.v.Y? && a.v.src == s && a.v.event < |eventList| then [MooreTransition(eventList[a.v.event], a.v.dst)] else [])
  }

  /** The decoded transitions of every state. */
  function DecodedAll(ass: seq<Assignment>, eventList: seq<Event>, colorSize: nat): (r: seq<seq<MooreTransition>>)
    ensures |r| == colorSize && forall s :: 0 <= s < colorSize ==> r[s] == Decoded(ass, eventList, s)
  {
    seq(colorSize, (s: nat) => Decoded(ass, eventList, s))
  }

  /**
   * The first pass over the true variables: the start flags (a root's
   * colour), the actions of each state and the colouring of the nodes.
   */
  method DecodeLabels(ass: seq<Assignment>, roots: seq<nat>, colorSize: nat, actionList: seq<string>)
    returns (isStart: seq<bool>, labels: seq<Actions>, coloring: map<nat, nat>)
    requires LabelVarsInRange(ass, colorSize, |actionList|)
    ensures |isStart| == colorSize && |labels| == colorSize
    ensures forall s :: 0 <= s < colorSize ==> (isStart[s] <==> exists k :: 0 <= k < |ass| && IsStartVar(ass[k], roots, s))
    ensures forall s, x :: 0 <= s < colorSize ==> (x in labels[s] <==> exists k :: 0 <= k < |ass| && IsActionVar(ass[k], s, actionList, x))
    ensures coloring == Coloring(ass)
  {
    isStart := seq(colorSize, _ => false);
    labels := seq(colorSize, _ => {});
    coloring := map[];
    for i := 0 to |ass|
      invariant |isStart| == colorSize && Decoding(ass, i, roots, actionList, isStart, labels, coloring)
    {
      isStart, labels, coloring := DecodeLabel(ass, i, roots, actionList, isStart, labels, coloring);
    }
    assert ass[..|ass|] == ass;
  }

  /** What the first pass has gathered from the first i variables. */
  ghost predicate Decoding(ass: seq<Assignment>, i: nat, roots: seq<nat>, actionList: seq<string>,
                           isStart: seq<bool>, labels: seq<Actions>, coloring: map<nat, nat>)
  {
    i <= |ass| && |isStart| == |labels| &&
    (forall s :: 0 <= s < |isStart| ==> (isStart[s] <==> exists k :: 0 <= k < i && IsStartVar(ass[k], roots, s))) &&
    (forall s, x :: 0 <= s < |labels| ==> (x in labels[s] <==> exists k :: 0 <= k < i && IsActionVar(ass[k], s, actionList, x))) &&
    coloring == Coloring(ass[..i])
  }

  /** One variable of the first pass. */
  method DecodeLabel(ass: seq<Assignment>, i: nat, roots: seq<nat>, actionList: seq<string>,
                     isStart: seq<bool>, labels: seq<Actions>, coloring: map<nat, nat>)
    returns (isStart': seq<bool>, labels': seq<Actions>, coloring': map<nat, nat>)
    requires i < |ass| && LabelVarsInRange(ass, |isStart|, |actionList|)
    requires Decoding(ass, i, roots, actionList, isStart, labels, coloring)
    ensures |isStart'| == |isStart| && Decoding(ass, i + 1, roots, actionList, isStart', labels', coloring')
  {
    assert ass[..i + 1][..i] == ass[..i];
    isStart', labels', coloring' := isStart, labels, coloring;
    var a := ass[i];
    if a.value {
      match a.v
      case X(node, color) =>
        isStart' := if node in roots then isStart[color := true] else isStart;
        coloring' := coloring[node := color];
      case Z(state, action) =>
        labels' := labels[state := labels[state] + {actionList[action]}];
      case _ =>
    }
  }

  /** The second pass: every true y variable adds its transition, in assignment order. */
  method AddDecoded(a: MooreAutomata.MooreAutomaton, ass: seq<Assignment>, eventList: seq<Event>)
    requires a.Valid() && TransitionVarsInRange(ass, |a.transitions|, |eventList|)
    modifies a
    ensures a.Valid() && a.actions == old(a.actions) && a.isInitial == old(a.isInitial) && a.unsupported == old(a.unsupported)
    ensures |a.transitions| == |old(a.transitions)|
    ensures forall s :: 0 <= s < |a.transitions| ==> a.transitions[s] == old(a.transitions[s]) + Decoded(ass, eventList, s)
  {
    for i := 0 to |ass|
      invariant a.Valid() && a.actions == old(a.actions) && a.isInitial == old(a.isInitial) && a.unsupported == old(a.unsupported)
      invariant |a.transitions| == |old(a.transitions)|
      invariant forall s :: 0 <= s < |a.transitions| ==> a.transitions[s] == old(a.transitions[s]) + Decoded(ass[..i], eventList, s)
    {
      ghost var before := a.transitions;
      var v := ass[i];
      if v.value && v.v.Y? {
        a.AddTransition(v.v.src, MooreTransition(eventList[v.v.event], v.v.dst));
      }
      DecodedStep(old(a.transitions), before, a.transitions, ass, i, eventList);
    }
    assert ass[..|ass|] == ass;
  }

  /** Variable i of the second pass appends its transition, if any, to its state and leaves the others alone. */
  lemma DecodedStep(trans0: seq<seq<MooreTransition>>, trans: seq<seq<MooreTransition>>, trans': seq<seq<MooreTransition>>,
                    ass: seq<Assignment>, i: nat, eventList: seq<Event>)
    requires i < |ass| && TransitionVarsInRange(ass, |trans|, |eventList|)
    requires |trans| == |trans0| && forall s :: 0 <= s < |trans| ==> trans[s] == trans0[s] + Decoded(ass[..i], eventList, s)
    requires var v := ass[i];
      trans' == if v.value && v.v.Y? then trans[v.v.src := trans[v.v.src] + [MooreTransition(eventList[v.v.event], v.v.dst)]] else trans
    ensures |trans'| == |trans0| && forall s :: 0 <= s < |trans'| ==> trans'[s] == trans0[s] + Decoded(ass[..i + 1], eventList, s)
  {
    forall s | 0 <= s < |trans'|
      ensures trans'[s] == trans0[s] + Decoded(ass[..i + 1], eventList, s)
    {
      assert trans'[s] == trans[s] + TransitionOf(ass[i], eventList, s);
      DecodedNext(trans0[s], trans[s], trans'[s], ass, i, eventList, s);
    }
  }

  /** The transition variable v gives state s: none, or one. */
  function TransitionOf(v: Assignment, eventList: seq<Event>, s: nat): seq<MooreTransition>
  {
    if v.value && v.v.Y? && v.v.src == s && v.v.event < |eventList| then [MooreTransition(eventList[v.v.event], v.v.dst)] else []
  }

  /** The decoded transitions of state s grow by what variable i adds to s. */
  lemma DecodedNext(x0: seq<MooreTransition>, x: seq<MooreTransition>, x': seq<MooreTransition>,
                    ass: seq<Assignment>, i: nat, eventList: seq<Event>, s: nat)
    requires i < |ass| && x == x0 + Decoded(ass[..i], eventList, s) && x' == x + TransitionOf(ass[i], eventList, s)
    ensures x' == x0 + Decoded(ass[..i + 1], eventList, s)
  {
    assert ass[..i + 1][..i] == ass[..i];
    assert Decoded(ass[..i + 1], eventList, s) == Decoded(ass[..i], eventList, s) + TransitionOf(ass[i], eventList, s);
  }

  /** Every node of the forest has a colour. */
  predicate Colored(forest: seq<seq<ForestEdge>>, coloring: map<nat, nat>)
  {
    forall n :: 0 <= n < |forest| ==> n in coloring
  }

  /**
   * The automaton transitions used by the edges of the first n forest nodes:
   * an edge n -e-> m uses the transition (colour of n) -e-> (colour of m)
   * when the automaton has it.
   */
  function UsedBelow(forest: seq<seq<ForestEdge>>, coloring: map<nat, nat>, trans: seq<seq<MooreTransition>>, n: nat): set<TransitionRef>
    requires n <= |forest| && WellFormedForest(forest) && Colored(forest, coloring)
  {
    if n == 0 then {} else UsedBelow(forest, coloring, trans, n - 1) + UsedByNode(forest, coloring, trans, n - 1, |forest[n - 1]|)
  }

  /** The transitions used by the first m edges of node n. */
  function UsedByNode(forest: seq<seq<ForestEdge>>, coloring: map<nat, nat>, trans: seq<seq<MooreTransition>>, n: nat, m: nat): set<TransitionRef>
    requires n < |forest| && m <= |forest[n]| && WellFormedForest(forest) && Colored(forest, coloring)
  {
    if m == 0 then {}
    else
      var e := forest[n][m - 1];
      var x := TransitionRef(coloring[n], e.event, coloring[e.dst]);
      UsedByNode(forest, coloring, trans, n, m - 1) +
        (if x.src < |trans| && MooreTransition(x.event, x.dst) in trans[x.src] then {x} else {})
  }

  /** A forest edge uses (colour of n) -e-> (colour of m) exactly when the automaton has that transition. */
  ghost predicate UsedByForest(forest: seq<seq<ForestEdge>>, coloring: map<nat, nat>, trans: seq<seq<MooreTransition>>, x: TransitionRef)
    requires WellFormedForest(forest) && Colored(forest, coloring)
  {
    x.src < |trans| && MooreTransition(x.event, x.dst) in trans[x.src] &&
    exists n, k :: 0 <= n < |forest| && 0 <= k < |forest[n]| &&
      x == TransitionRef(coloring[n], forest[n][k].event, coloring[forest[n][k].dst])
  }

  /** The used set holds exactly the automaton transitions some forest edge maps onto. */
  lemma {:induction false} UsedBelowExactly(forest: seq<seq<ForestEdge>>, coloring: map<nat, nat>, trans: seq<seq<MooreTransition>>, x: TransitionRef)
    requires WellFormedForest(forest) && Colored(forest, coloring)
    ensures x in UsedBelow(forest, coloring, trans, |forest|) <==> UsedByForest(forest, coloring, trans, x)
  {
    if x in UsedBelow(forest, coloring, trans, |forest|) {
      var n, k := UsedBelowWitness(forest, coloring, trans, |forest|, x);
    }
    if UsedByForest(forest, coloring, trans, x) {
      var n, k :| 0 <= n < |forest| && 0 <= k < |forest[n]| &&
        x == TransitionRef(coloring[n], forest[n][k].event, coloring[forest[n][k].dst]);
      UsedByNodeHas(forest, coloring, trans, n, |forest[n]|, k);
      UsedBelowHas(forest, coloring, trans, |forest|, n, x);
    }
  }

  /** A used transition exists in the automaton and comes from the edge k of node n. */
  lemma {:induction false} UsedBelowWitness(forest: seq<seq<ForestEdge>>, coloring: map<nat, nat>, trans: seq<seq<MooreTransition>>, n: nat, x: TransitionRef)
    returns (node: nat, k: nat)
    requires n <= |forest| && WellFormedForest(forest) && Colored(forest, coloring)
    requires x in UsedBelow(forest, coloring, trans, n)
    ensures node < n && k < |forest[node]| && x == TransitionRef(coloring[node], forest[node][k].event, coloring[forest[node][k].dst])
    ensures x.src < |trans| && MooreTransition(x.event, x.dst) in trans[x.src]
  {
    if x in UsedBelow(forest, coloring, trans, n - 1) {
      node, k := UsedBelowWitness(forest, coloring, trans, n - 1, x);
    } else {
      node := n - 1;
      k := UsedByNodeWitness(forest, coloring, trans, n - 1, |forest[n - 1]|, x);
    }
  }

  lemma {:induction false} UsedByNodeWitness(forest: seq<seq<ForestEdge>>, coloring: map<nat, nat>, trans: seq<seq<MooreTransition>>, n: nat, m: nat, x: TransitionRef)
    returns (k: nat)
    requires n < |forest| && m <= |forest[n]| && WellFormedForest(forest) && Colored(forest, coloring)
    requires x in UsedByNode(forest, coloring, trans, n, m)
    ensures k < m && x == TransitionRef(coloring[n], forest[n][k].event, coloring[forest[n][k].dst])
    ensures x.src < |trans| && MooreTransition(x.event, x.dst) in trans[x.src]
  {
    if x in UsedByNode(forest, coloring, trans, n, m - 1) {
      k := UsedByNodeWitness(forest, coloring, trans, n, m - 1, x);
    } else {
      k := m - 1;
    }
  }

  lemma {:induction false} UsedByNodeHas(forest: seq<seq<ForestEdge>>, coloring: map<nat, nat>, trans: seq<seq<MooreTransition>>, n: nat, m: nat, k: nat)
    requires n < |forest| && k < m <= |forest[n]| && WellFormedForest(forest) && Colored(forest, coloring)
    requires coloring[n] < |trans| && MooreTransition(forest[n][k].event, coloring[forest[n][k].dst]) in trans[coloring[n]]
    ensures TransitionRef(coloring[n], forest[n][k].event, coloring[forest[n][k].dst]) in UsedByNode(forest, coloring, trans, n, m)
  {
    if k < m - 1 {
      UsedByNodeHas(forest, coloring, trans, n, m - 1, k);
    }
  }

  lemma {:induction false} UsedBelowHas(forest: seq<seq<ForestEdge>>, coloring: map<nat, nat>, trans: seq<seq<MooreTransition>>, m: nat, n: nat, x: TransitionRef)
    requires n < m <= |forest| && WellFormedForest(forest) && Colored(forest, coloring)
    requires x in UsedByNode(forest, coloring, trans, n, |forest[n]|)
    ensures x in UsedBelow(forest, coloring, trans, m)
  {
    if n < m - 1 {
      UsedBelowHas(forest, coloring, trans, m - 1, n, x);
    }
  }

  /** The used transitions: for every forest edge, the automaton transitions matching its coloured image. */
  method UsedTransitions(a: MooreAutomata.MooreAutomaton, forest: seq<seq<ForestEdge>>, coloring: map<nat, nat>)
    returns (used: set<TransitionRef>)
    requires a.Valid() && WellFormedForest(forest) && Colored(forest, coloring)
    requires forall n :: 0 <= n < |forest| ==> coloring[n] < |a.transitions|
    ensures used == UsedBelow(forest, coloring, a.transitions, |forest|)
  {
    var trans := a.transitions;
    used := {};
    for n := 0 to |forest|
      invariant used == UsedBelow(forest, coloring, trans, n)
    {
      var source := coloring[n];
      var nodeUsed := {};
      for m := 0 to |forest[n]|
        invariant nodeUsed == UsedByNode(forest, coloring, trans, n, m)
      {
        var e := forest[n][m];
        var dest := coloring[e.dst];
        var found := HasTransition(trans[source], e.event, dest);
        nodeUsed := nodeUsed + (if found then {TransitionRef(source, e.event, dest)} else {});
      }
      used := used + nodeUsed;
    }
  }

  /** Whether some transition of the list goes on event e to state d. */
  method HasTransition(ts: seq<MooreTransition>, e: Event, d: nat) returns (found: bool)
    ensures found <==> MooreTransition(e, d) in ts
  {
    found := false;
    for k := 0 to |ts|
      invariant found <==> MooreTransition(e, d) in ts[..k]
    {
      assert ts[..k + 1] == ts[..k] + [ts[k]];
      found := found || (ts[k].event == e && ts[k].dst == d);
    }
    assert ts[..|ts|] == ts;
  }

  /** Transition t of state src is used. */
  predicate IsUsed(src: nat, t: MooreTransition, used: set<TransitionRef>)
  {
    TransitionRef(src, t.event, t.dst) in used
  }

  /**
   * The handling of the next original transition t of state src: a used one
   * stays; with completeness an unused one is removed and put back at the end
   * when no other transition on its event is left; without, it is removed
   * when the state has a transition.
   */
  function PruneStep(src: nat, ts: seq<MooreTransition>, t: MooreTransition, used: set<TransitionRef>, complete: bool): seq<MooreTransition>
  {
    if IsUsed(src, t, used) then ts
    else if complete then
      var r := RemoveFirst(ts, t);
      if HasEvent(r, t.event) then r else r + [t]
    else if |ts| > 0 then RemoveFirst(ts, t)
    else ts
  }

  /** The transitions of state src after the first k transitions of its original list are handled. */
  function Pruned(src: nat, orig: seq<MooreTransition>, k: nat, used: set<TransitionRef>, complete: bool): seq<MooreTransition>
    requires k <= |orig|
  {
    if k == 0 then orig else PruneStep(src, Pruned(src, orig, k - 1, used, complete), orig[k - 1], used, complete)
  }

  /** The used transitions of a list, in order. */
  function KeepUsed(src: nat, ts: seq<MooreTransition>, used: set<TransitionRef>): (r: seq<MooreTransition>)
    ensures forall t :: t in r <==> t in ts && IsUsed(src, t, used)
  {
    if ts == [] then []
    else
      assert forall k :: 0 <= k < |ts| - 1 ==> ts[..|ts| - 1][k] == ts[k];
      assert ts == ts[..|ts| - 1] + [ts[|ts| - 1]];
      KeepUsed(src, ts[..|ts| - 1], used) + (if IsUsed(src, ts[|ts| - 1], used) then [ts[|ts| - 1]] else [])
  }

  /**
   * One step on a list holding t: at most t is taken away, and nothing
   * else changes.
   */
  lemma PruneStepCount(src: nat, ts: seq<MooreTransition>, t: MooreTransition, used: set<TransitionRef>, complete: bool)
    requires t in ts
    ensures var p := PruneStep(src, ts, t, used, complete);
      multiset(ts) - multiset{t} <= multiset(p) <= multiset(ts) &&
      (IsUsed(src, t, used) ==> p == ts)
  {
    RemoveFirstCount(ts, t);
    assert t in multiset(ts);
  }

  /** One step changes the multiplicity of no transition other than an unused t. */
  lemma PruneStepOthers(src: nat, ts: seq<MooreTransition>, t: MooreTransition, used: set<TransitionRef>, complete: bool, u: MooreTransition)
    requires u != t || IsUsed(src, t, used)
    ensures multiset(PruneStep(src, ts, t, used, complete))[u] == multiset(ts)[u]
  {
    RemoveFirstCount(ts, t);
  }

  /** With completeness, one step keeps every event of the list. */
  lemma PruneStepEvents(src: nat, ts: seq<MooreTransition>, t: MooreTransition, used: set<TransitionRef>, e: Event)
    requires HasEvent(ts, e)
    ensures HasEvent(PruneStep(src, ts, t, used, true), e)
  {
    if !IsUsed(src, t, used) {
      var r := RemoveFirst(ts, t);
      RemoveFirstCount(ts, t);
      var j :| 0 <= j < |ts| && ts[j].event == e;
      if ts[j] != t {
        assert ts[j] in multiset(r);
        HasEventOf(r, ts[j]);
        HasEventOf(r + [t], ts[j]);
      } else {
        HasEventOf(r + [t], t);
      }
    }
  }

  /**
   * Pruning only removes original transitions (a re-added one had just been
   * removed), and the transitions not yet handled are all still there.
   */
  lemma {:induction false} PrunedBounds(src: nat, orig: seq<MooreTransition>, k: nat, used: set<TransitionRef>, complete: bool)
    requires k <= |orig|
    ensures multiset(orig[k..]) <= multiset(Pruned(src, orig, k, used, complete)) <= multiset(orig)
  {
    if k > 0 {
      PrunedBounds(src, orig, k - 1, used, complete);
      var ts := Pruned(src, orig, k - 1, used, complete);
      var t := orig[k - 1];
      assert orig[k - 1..] == [t] + orig[k..];
      assert t in multiset(ts);
      PruneStepCount(src, ts, t, used, complete);
    }
  }

  /** Every used transition keeps its multiplicity. */
  lemma {:induction false} PrunedKeepsUsed(src: nat, orig: seq<MooreTransition>, k: nat, used: set<TransitionRef>, complete: bool, t: MooreTransition)
    requires k <= |orig| && IsUsed(src, t, used)
    ensures multiset(Pruned(src, orig, k, used, complete))[t] == multiset(orig)[t]
  {
    if k > 0 {
      PrunedKeepsUsed(src, orig, k - 1, used, complete, t);
      PruneStepOthers(src, Pruned(src, orig, k - 1, used, complete), orig[k - 1], used, complete, t);
    }
  }

  /** A transition in a list gives the list its event. */
  lemma HasEventOf(ts: seq<MooreTransition>, t: MooreTransition)
    requires t in ts
    ensures HasEvent(ts, t.event)
  {
    var j :| 0 <= j < |ts| && ts[j] == t;
  }

  /** With completeness, pruning keeps exactly the events the state had. */
  lemma {:induction false} PrunedKeepsEvents(src: nat, orig: seq<MooreTransition>, k: nat, used: set<TransitionRef>, e: Event)
    requires k <= |orig|
    ensures HasEvent(Pruned(src, orig, k, used, true), e) <==> HasEvent(orig, e)
  {
    var p := Pruned(src, orig, k, used, true);
    if HasEvent(p, e) {
      PrunedBounds(src, orig, k, used, true);
      var j :| 0 <= j < |p| && p[j].event == e;
      assert p[j] in multiset(p);
      HasEventOf(orig, p[j]);
    }
    if HasEvent(orig, e) && k > 0 {
      PrunedKeepsEvents(src, orig, k - 1, used, e);
      PruneStepEvents(src, Pruned(src, orig, k - 1, used, true), orig[k - 1], used, e);
    }
  }

  /** Removing the first t from A + [t] + B, where A has no t, gives A + B. */
  lemma {:induction false} RemoveFirstAt(a: seq<MooreTransition>, t: MooreTransition, b: seq<MooreTransition>)
    requires t !in a
    ensures RemoveFirst(a + [t] + b, t) == a + b
  {
    if a != [] {
      var s := a + [t] + b;
      assert s[0] == a[0] != t;
      assert s[1..] == a[1..] + [t] + b;
      RemoveFirstAt(a[1..], t, b);
      assert a + b == [a[0]] + (a[1..] + b);
    }
  }

  /**
   * Without completeness the guard on the transition count always holds, so
   * the handled prefix keeps exactly its used transitions.
   */
  lemma {:induction false} PrunedIncomplete(src: nat, orig: seq<MooreTransition>, k: nat, used: set<TransitionRef>)
    requires k <= |orig|
    ensures Pruned(src, orig, k, used, false) == KeepUsed(src, orig[..k], used) + orig[k..]
  {
    if k > 0 {
      PrunedIncomplete(src, orig, k - 1, used);
      var t := orig[k - 1];
      assert orig[..k][..k - 1] == orig[..k - 1];
      assert orig[k - 1..] == [t] + orig[k..];
      var a := KeepUsed(src, orig[..k - 1], used);
      if !IsUsed(src, t, used) {
        RemoveFirstAt(a, t, orig[k..]);
        assert a + [t] + orig[k..] == a + orig[k - 1..];
      }
    }
  }

  /** Without completeness the pruned state keeps exactly its used transitions, in their order. */
  lemma PrunedWithoutCompleteness(src: nat, orig: seq<MooreTransition>, used: set<TransitionRef>)
    ensures Pruned(src, orig, |orig|, used, false) == KeepUsed(src, orig, used)
  {
    PrunedIncomplete(src, orig, |orig|, used);
    assert orig[..|orig|] == orig;
  }

  /** The pruning of state s, in place, by the removals and re-additions of PruneStep. */
  method PruneState(a: MooreAutomata.MooreAutomaton, s: nat, used: set<TransitionRef>, complete: bool)
    requires a.Valid() && s < |a.transitions|
    modifies a
    ensures a.Valid() && a.actions == old(a.actions) && a.isInitial == old(a.isInitial) && a.unsupported == old(a.unsupported)
    ensures a.transitions == old(a.transitions)[s := Pruned(s, old(a.transitions[s]), |old(a.transitions[s])|, used, complete)]
  {
    var copy := a.transitions[s];
    for k := 0 to |copy|
      invariant a.Valid() && a.actions == old(a.actions) && a.isInitial == old(a.isInitial) && a.unsupported == old(a.unsupported)
      invariant a.transitions == old(a.transitions)[s := Pruned(s, copy, k, used, complete)]
    {
      var t := copy[k];
      if !IsUsed(s, t, used) {
        if complete {
          a.RemoveTransition(s, t);
          if !HasEvent(a.transitions[s], t.event) {
            a.AddTransition(s, t);
          }
        } else if |a.transitions[s]| > 0 {
          a.RemoveTransition(s, t);
        }
      }
    }
  }

  /** The colour of a coloured node names a state. */
  lemma ColoringInRange(ass: seq<Assignment>, colorSize: nat, actionCount: nat, n: nat)
    requires LabelVarsInRange(ass, colorSize, actionCount) && n in Coloring(ass)
    ensures Coloring(ass)[n] < colorSize
  {
  }

  /**
   * The transitions of the decoded automaton: each state's y-variable
   * transitions, pruned against the transitions the positive forest uses.
   */
  function Constructed(ass: seq<Assignment>, forest: seq<seq<ForestEdge>>, colorSize: nat, eventList: seq<Event>, complete: bool): seq<seq<MooreTransition>>
    requires WellFormedForest(forest) && Colored(forest, Coloring(ass))
  {
    var decoded := DecodedAll(ass, eventList, colorSize);
    var used := UsedBelow(forest, Coloring(ass), decoded, |forest|);
    seq(colorSize, (s: nat) requires s < colorSize => Pruned(s, decoded[s], |decoded[s]|, used, complete))
  }

  /**
   * constructAutomatonFromAssignment: the start flags and actions of the
   * first pass, the transitions of the y variables, then the pruning.
   */
  method ConstructAutomaton(ass: seq<Assignment>, forest: seq<seq<ForestEdge>>, roots: seq<nat>, colorSize: nat,
                            actionList: seq<string>, eventList: seq<Event>, complete: bool)
    returns (a: MooreAutomata.MooreAutomaton)
    requires LabelVarsInRange(ass, colorSize, |actionList|) && TransitionVarsInRange(ass, colorSize, |eventList|)
    requires WellFormedForest(forest) && Colored(forest, Coloring(ass))
    ensures fresh(a) && a.Valid() && |a.actions| == colorSize && a.unsupported == {}
    ensures forall s :: 0 <= s < colorSize ==> (a.isInitial[s] <==> exists k :: 0 <= k < |ass| && IsStartVar(ass[k], roots, s))
    ensures forall s, x :: 0 <= s < colorSize ==> (x in a.actions[s] <==> exists k :: 0 <= k < |ass| && IsActionVar(ass[k], s, actionList, x))
    ensures a.transitions == Constructed(ass, forest, colorSize, eventList, complete)
  {
    var isStart, labels, coloring := DecodeLabels(ass, roots, colorSize, actionList);
    a := new MooreAutomata.MooreAutomaton(colorSize, labels, isStart);
    AddDecoded(a, ass, eventList);
    ghost var decoded := DecodedAll(ass, eventList, colorSize);
    assert |a.transitions| == colorSize;
    assert forall s :: 0 <= s < colorSize ==> a.transitions[s] == [] + decoded[s] == decoded[s];
    assert a.transitions == decoded;
    forall n | 0 <= n < |forest|
      ensures coloring[n] < |a.transitions|
    {
      ColoringInRange(ass, colorSize, |actionList|, n);
    }
    var used := UsedTransitions(a, forest, coloring);
    for s := 0 to colorSize
      invariant a.Valid() && |a.transitions| == colorSize
      invariant a.actions == labels[..colorSize] && a.isInitial == isStart && a.unsupported == {}
      invariant forall q :: 0 <= q < s ==> a.transitions[q] == Pruned(q, decoded[q], |decoded[q]|, used, complete)
      invariant forall q :: s <= q < colorSize ==> a.transitions[q] == decoded[q]
    {
      PruneState(a, s, used, complete);
    }
  }

  /**
   * A transition of state s that some positive-forest edge maps onto is
   * never removed: it keeps its multiplicity among the decoded transitions.
   */
  lemma ConstructedKeepsUsed(ass: seq<Assignment>, forest: seq<seq<ForestEdge>>, colorSize: nat, eventList: seq<Event>, complete: bool,
                             s: nat, t: MooreTransition)
    requires WellFormedForest(forest) && Colored(forest, Coloring(ass)) && s < colorSize
    requires UsedByForest(forest, Coloring(ass), DecodedAll(ass, eventList, colorSize), TransitionRef(s, t.event, t.dst))
    ensures t in Constructed(ass, forest, colorSize, eventList, complete)[s]
    ensures multiset(Constructed(ass, forest, colorSize, eventList, complete)[s])[t] == multiset(Decoded(ass, eventList, s))[t]
  {
    var decoded := DecodedAll(ass, eventList, colorSize);
    var used := UsedBelow(forest, Coloring(ass), decoded, |forest|);
    UsedBelowExactly(forest, Coloring(ass), decoded, TransitionRef(s, t.event, t.dst));
    PrunedKeepsUsed(s, decoded[s], |decoded[s]|, used, complete, t);
    assert t in multiset(decoded[s]);
  }

  /** Pruning only removes decoded transitions of the state. */
  lemma ConstructedWithin(ass: seq<Assignment>, forest: seq<seq<ForestEdge>>, colorSize: nat, eventList: seq<Event>, complete: bool, s: nat)
    requires WellFormedForest(forest) && Colored(forest, Coloring(ass)) && s < colorSize
    ensures multiset(Constructed(ass, forest, colorSize, eventList, complete)[s]) <= multiset(Decoded(ass, eventList, s))
  {
    var decoded := DecodedAll(ass, eventList, colorSize);
    PrunedBounds(s, decoded[s], |decoded[s]|, UsedBelow(forest, Coloring(ass), decoded, |forest|), complete);
  }

  /** With completeness every state keeps a transition on each event it had one on, and gains no event. */
  lemma ConstructedComplete(ass: seq<Assignment>, forest: seq<seq<ForestEdge>>, colorSize: nat, eventList: seq<Event>, s: nat, e: Event)
    requires WellFormedForest(forest) && Colored(forest, Coloring(ass)) && s < colorSize
    ensures HasEvent(Constructed(ass, forest, colorSize, eventList, true)[s], e) <==> HasEvent(Decoded(ass, eventList, s), e)
  {
    var decoded := DecodedAll(ass, eventList, colorSize);
    PrunedKeepsEvents(s, decoded[s], |decoded[s]|, UsedBelow(forest, Coloring(ass), decoded, |forest|), e);
  }

  /** Without completeness every state keeps exactly its used transitions, in decoding order. */
  lemma ConstructedIncomplete(ass: seq<Assignment>, forest: seq<seq<ForestEdge>>, colorSize: nat, eventList: seq<Event>, s: nat)
    requires WellFormedForest(forest) && Colored(forest, Coloring(ass)) && s < colorSize
    ensures var decoded := DecodedAll(ass, eventList, colorSize);
      Constructed(ass, forest, colorSize, eventList, false)[s] == KeepUsed(s, decoded[s], UsedBelow(forest, Coloring(ass), decoded, |forest|))
  {
    var decoded := DecodedAll(ass, eventList, colorSize);
    PrunedWithoutCompleteness(s, decoded[s], UsedBelow(forest, Coloring(ass), decoded, |forest|));
  }

  /** What the solver returns for one round. */
  datatype SolverResult = Sat(assignment: seq<Assignment>) | Unsat | Unknown

  /**
   * One round of the counterexample-guided loop, as supplied by the clock,
   * the solver and the verifier: whether the time limit is not yet reached,
   * the solver's answer, and the verifier's normal and global counterexamples
   * for the automaton decoded from that answer.
   */
  datatype Round = Round(inTime: bool, result: SolverResult, normal: seq<Counterexample>, global: seq<Counterexample>)

  /** The verifier's counterexamples of a round are well formed. */
  predicate WellFormedRound(r: Round)
  {
    forall ce :: ce in r.normal + r.global ==> WellFormedCounterexample(ce)
  }

  /**
   * A satisfying assignment only sets variables of existing colours,
   * states, actions and events, and colours every forest node.
   */
  predicate SolverFits(result: SolverResult, forest: seq<seq<ForestEdge>>, size: nat, actionCount: nat, eventCount: nat)
  {
    result.Sat? ==>
      LabelVarsInRange(result.assignment, size, actionCount) &&
      TransitionVarsInRange(result.assignment, size, eventCount) &&
      Colored(forest, Coloring(result.assignment))
  }

  /** The candidate counterexamples are shorter than Integer.MAX_VALUE. */
  predicate ShortCandidates(r: Round, size: nat)
    requires WellFormedRound(r)
  {
    forall ce :: ce in Candidates(r.normal, size) + Candidates(r.global, size) ==> |ce.events| < IntMax
  }

  /** How the loop ends. */
  datatype Verdict = Synthesized(assignment: seq<Assignment>) | SolverFailed | OutOfTime

  /** The verdict, the iteration it came at, and the negative and global-negative scenarios added. */
  datatype RunResult = RunResult(verdict: Verdict, iteration: nat, negative: seq<MealyAutomata.Scenario>, global: seq<MealyAutomata.Scenario>)

  /** The scenarios of an optional counterexample. */
  function Added(ce: Option<Counterexample>): (r: seq<MealyAutomata.Scenario>)
    requires ce.Some? ==> |ce.value.events| == |ce.value.actions|
    ensures |r| == if ce.Some? then 1 else 0
  {
    if ce.Some? then [CounterexampleScenario(ce.value)] else []
  }

  /** Every counterexample of the round is empty: the automaton satisfies the specification. */
  predicate AllEmpty(r: Round)
  {
    forall ce :: ce in r.normal + r.global ==> IsEmpty(ce)
  }

  /** What one round does: stop with a verdict, or go on with the chosen counterexamples added. */
  datatype Step = Stop(verdict: Verdict) | Continue(negative: seq<MealyAutomata.Scenario>, global: seq<MealyAutomata.Scenario>)

  /**
   * One round of build after the time check: a solver answer other than
   * SAT stops the loop with nothing, an automaton without counterexamples
   * stops it with that automaton, and otherwise the selected shortest
   * counterexamples are added to their forests.
   */
  function RoundStep(r: Round, size: nat, negative: seq<MealyAutomata.Scenario>, global: seq<MealyAutomata.Scenario>): Step
    requires WellFormedRound(r)
  {
    if !r.result.Sat? then Stop(SolverFailed)
    else if AllEmpty(r) then Stop(Synthesized(r.result.assignment))
    else
      RoundAdds(r, size);
      var add := Select(Candidates(r.normal, size), Candidates(r.global, size));
      Continue(negative + Added(add.normal), global + Added(add.global))
  }

  /** The loop of build from iteration i on, given the scenarios added so far. */
  function Run(rounds: seq<Round>, size: nat, i: nat, negative: seq<MealyAutomata.Scenario>, global: seq<MealyAutomata.Scenario>): RunResult
    requires i <= |rounds| && forall k :: 0 <= k < |rounds| ==> WellFormedRound(rounds[k])
    decreases |rounds| - i
  {
    if i == |rounds| || !rounds[i].inTime then RunResult(OutOfTime, i, negative, global)
    else
      match RoundStep(rounds[i], size, negative, global)
      case Stop(v) => RunResult(v, i, negative, global)
      case Continue(negative', global') => Run(rounds, size, i + 1, negative', global')
  }

  /** A round with a non-empty counterexample adds one to at least one forest. */
  lemma RoundAdds(r: Round, size: nat)
    requires WellFormedRound(r) && !AllEmpty(r)
    ensures Candidates(r.normal, size) != [] || Candidates(r.global, size) != []
    ensures var add := Select(Candidates(r.normal, size), Candidates(r.global, size));
      (add.normal.Some? || add.global.Some?) &&
      (add.normal.Some? ==> WellFormedCounterexample(add.normal.value)) &&
      (add.global.Some? ==> WellFormedCounterexample(add.global.value))
  {
    var ce :| ce in r.normal + r.global && !IsEmpty(ce);
    if ce in r.normal {
      CandidatesNonEmpty(r.normal, size, ce);
    } else {
      CandidatesNonEmpty(r.global, size, ce);
    }
    CandidatesWellFormed(r.normal, size);
    CandidatesWellFormed(r.global, size);
  }

  /** Collapsed counterexamples are well formed. */
  lemma CandidatesWellFormed(ces: seq<Counterexample>, size: nat)
    requires forall ce :: ce in ces ==> WellFormedCounterexample(ce)
    ensures forall ce :: ce in Candidates(ces, size) ==> WellFormedCounterexample(ce)
  {
    var all := CollapseAll(NonEmpty(ces), size);
    forall ce | ce in Candidates(ces, size)
      ensures WellFormedCounterexample(ce)
    {
      assert ce in all;
      var k :| 0 <= k < |all| && all[k] == ce;
      CollapsedWellFormed(NonEmpty(ces)[k], size);
    }
  }

  /** A collapsed counterexample has as many action lists as events. */
  lemma CollapsedWellFormed(ce: Counterexample, size: nat)
    requires WellFormedCounterexample(ce)
    ensures WellFormedCounterexample(Collapsed(ce, size))
  {
    var loopStart := |ce.events| - ce.loopLength;
    assert |ce.events[loopStart..]| == |ce.actions[loopStart..]|;
  }

  /**
   * Every round the loop goes past adds at least one counterexample
   * scenario, and the scenarios already there are kept: the negative
   * information grows strictly from iteration to iteration.
   */
  lemma {:induction false} RunGrows(rounds: seq<Round>, size: nat, i: nat, negative: seq<MealyAutomata.Scenario>, global: seq<MealyAutomata.Scenario>)
    requires i <= |rounds| && forall k :: 0 <= k < |rounds| ==> WellFormedRound(rounds[k])
    decreases |rounds| - i
    ensures var res := Run(rounds, size, i, negative, global);
      i <= res.iteration <= |rounds| &&
      negative <= res.negative && global <= res.global &&
      |res.negative| + |res.global| >= |negative| + |global| + (res.iteration - i)
  {
    if i < |rounds| && rounds[i].inTime && rounds[i].result.Sat? && !AllEmpty(rounds[i]) {
      var r := rounds[i];
      assert WellFormedRound(r);
      RoundAdds(r, size);
      var step := RoundStep(r, size, negative, global);
      RunGrows(rounds, size, i + 1, step.negative, step.global);
    }
  }

  /**
   * build's loop: decode each satisfying assignment, stop with it when the
   * verifier finds no counterexample, otherwise add the chosen shortest
   * counterexamples and solve again.
   */
  method Build(rounds: seq<Round>, forest: seq<seq<ForestEdge>>, roots: seq<nat>, size: nat,
               actionList: seq<string>, eventList: seq<Event>, complete: bool, negative0: seq<MealyAutomata.Scenario>)
    returns (result: Option<MooreAutomata.MooreAutomaton>, ghost iteration: nat,
             negative: seq<MealyAutomata.Scenario>, global: seq<MealyAutomata.Scenario>)
    requires WellFormedForest(forest)
    requires forall k {:trigger rounds[k]} :: 0 <= k < |rounds| ==>
      WellFormedRound(rounds[k]) && ShortCandidates(rounds[k], size) && SolverFits(rounds[k].result, forest, size, |actionList|, |eventList|)
    ensures var run := Run(rounds, size, 0, negative0, []);
      iteration == run.iteration && negative == run.negative && global == run.global &&
      (result.Some? <==> run.verdict.Synthesized?)
    ensures result.Some? ==>
      iteration < |rounds| && rounds[iteration].result.Sat? &&
      Run(rounds, size, 0, negative0, []).verdict == Synthesized(rounds[iteration].result.assignment) &&
      fresh(result.value) && result.value.Valid() &&
      Colored(forest, Coloring(rounds[iteration].result.assignment)) &&
      result.value.transitions == Constructed(rounds[iteration].result.assignment, forest, size, eventList, complete)
  {
    negative, global := negative0, [];
    var i := 0;
    while i < |rounds| && rounds[i].inTime
      invariant i <= |rounds|
      invariant Run(rounds, size, 0, negative0, []) == Run(rounds, size, i, negative, global)
      decreases |rounds| - i
    {
      var r := rounds[i];
      var stop;
      stop, result, negative, global := BuildRound(r, forest, roots, size, actionList, eventList, complete, negative, global);
      if stop {
        return result, i, negative, global;
      }
      i := i + 1;
    }
    return None, i, negative, global;
  }

  /** One round of build: solve, decode, verify, and choose the counterexamples to add. */
  method BuildRound(r: Round, forest: seq<seq<ForestEdge>>, roots: seq<nat>, size: nat,
                    actionList: seq<string>, eventList: seq<Event>, complete: bool,
                    negative: seq<MealyAutomata.Scenario>, global: seq<MealyAutomata.Scenario>)
    returns (stop: bool, result: Option<MooreAutomata.MooreAutomaton>,
             negative': seq<MealyAutomata.Scenario>, global': seq<MealyAutomata.Scenario>)
    requires WellFormedForest(forest) && WellFormedRound(r) && ShortCandidates(r, size)
    requires SolverFits(r.result, forest, size, |actionList|, |eventList|)
    ensures var step := RoundStep(r, size, negative, global);
      stop == step.Stop? &&
      (step.Continue? ==> negative' == step.negative && global' == step.global) &&
      (step.Stop? ==> negative' == negative && global' == global) &&
      (result.Some? <==> step.Stop? && step.verdict.Synthesized?)
    ensures result.Some? ==>
      r.result.Sat? && Colored(forest, Coloring(r.result.assignment)) &&
      fresh(result.value) && result.value.Valid() &&
      result.value.transitions == Constructed(r.result.assignment, forest, size, eventList, complete)
  {
    negative', global' := negative, global;
    if !r.result.Sat? {
      return true, None, negative, global;
    }
    var a := ConstructAutomaton(r.result.assignment, forest, roots, size, actionList, eventList, complete);
    if AllEmpty(r) {
      return true, Some(a), negative, global;
    }
    var add := ChooseCounterexamples(r, size);
    negative' := negative + Added(add.normal);
    global' := global + Added(add.global);
    stop, result := false, None;
  }

  /** The minimum searches and the three-way choice of one round. */
  method ChooseCounterexamples(r: Round, size: nat) returns (add: Additions)
    requires WellFormedRound(r) && !AllEmpty(r) && ShortCandidates(r, size)
    ensures add == Select(Candidates(r.normal, size), Candidates(r.global, size))
    ensures add.normal.Some? ==> |add.normal.value.events| == |add.normal.value.actions|
    ensures add.global.Some? ==> |add.global.value.events| == |add.global.value.actions|
  {
    RoundAdds(r, size);
    var normalCEs, globalCEs := Candidates(r.normal, size), Candidates(r.global, size);
    var normalMinIndex := MinIndex(normalCEs);
    var globalMinIndex := MinIndex(globalCEs);
    if normalMinIndex == -1 && globalMinIndex != -1 {
      add := Additions(Some(globalCEs[globalMinIndex]), None);
    } else if normalMinIndex != -1 && globalMinIndex == -1 {
      add := Additions(None, Some(normalCEs[normalMinIndex]));
    } else {
      var normalLength := |normalCEs[normalMinIndex].events|;
      var globalLength := |globalCEs[globalMinIndex].events|;
      add := Additions(Some(globalCEs[globalMinIndex]), if normalLength <= globalLength then Some(normalCEs[normalMinIndex]) else None);
    }
  }
}
