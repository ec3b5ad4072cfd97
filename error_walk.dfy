/**
 * The walk and the labelling of BacktrackingAutomatonBuilder.TraverseStateWithErrors,
 * the search that tolerates a bounded number of wrong actions. It works on
 * the scenarios themselves rather than on a scenario tree: a frontier
 * element is a position of one scenario, every scenario position carries
 * the automaton state it is coloured with, and transitions are added with
 * empty actions. After each extension of the automaton every transition is
 * relabelled with the actions recorded most often where the scenarios take
 * it, and the automaton is kept when the recorded actions that disagree with
 * their transition's label number at most errorNumber.
 */
module ErrorWalk {
  import opened Common
  import opened MealyAutomata
  import opened Backtracking

  /** FrontierElement: a position of one scenario. */
  datatype FrontierElement = FrontierElement(scenarioIndex: nat, scenarioPosition: nat)

  /** int[][] coloring: per scenario and position, the automaton state of that position. */
  type Colouring = seq<seq<nat>>

  /** The constructor reads position 0 of every scenario, so none may be empty. */
  predicate NonEmptyScenarios(scenarios: seq<Scenario>)
  {
    forall i :: 0 <= i < |scenarios| ==> |scenarios[i]| >= 1
  }

  /** The colouring has a row per scenario, as long as the scenario, of states below n. */
  predicate WellColoured(scenarios: seq<Scenario>, col: Colouring, n: nat)
  {
    |col| == |scenarios| &&
    forall i :: 0 <= i < |col| ==> |col[i]| == |scenarios[i]| && forall p :: 0 <= p < |col[i]| ==> col[i][p] < n
  }

  predicate InScenarios(scenarios: seq<Scenario>, e: FrontierElement)
  {
    e.scenarioIndex < |scenarios| && e.scenarioPosition < |scenarios[e.scenarioIndex]|
  }

  /** Frontier elements are positions of the scenarios, at most one per scenario. */
  predicate ElementsShape(scenarios: seq<Scenario>, f: seq<FrontierElement>)
  {
    (forall k :: 0 <= k < |f| ==> InScenarios(scenarios, f[k])) &&
    (forall a, b :: 0 <= a < b < |f| ==> f[a].scenarioIndex != f[b].scenarioIndex)
  }

  /** The events of a frontier element's position. */
  function ElementEvents(scenarios: seq<Scenario>, e: FrontierElement): seq<Event>
    requires InScenarios(scenarios, e)
  {
    scenarios[e.scenarioIndex][e.scenarioPosition].events
  }

  /** No event of any frontier element has a transition from the element's state. */
  predicate AllElementsUnmatched(states: Table, scenarios: seq<Scenario>, col: Colouring, f: seq<FrontierElement>)
    requires WellColoured(scenarios, col, |states|) && ElementsShape(scenarios, f)
  {
    forall k :: 0 <= k < |f| ==>
      EventsUnmatched(states, col[f[k].scenarioIndex][f[k].scenarioPosition], ElementEvents(scenarios, f[k]))
  }

  /** advance: the next position of the same scenario, or none at its end. */
  function Advance(scenarios: seq<Scenario>, e: FrontierElement): (r: Option<FrontierElement>)
    requires InScenarios(scenarios, e)
    ensures r.Some? ==> InScenarios(scenarios, r.value) && r.value.scenarioIndex == e.scenarioIndex &&
                        r.value.scenarioPosition == e.scenarioPosition + 1
    ensures r.None? <==> e.scenarioPosition == |scenarios[e.scenarioIndex]| - 1
  {
    var newPos := e.scenarioPosition + 1;
    if |scenarios[e.scenarioIndex]| > newPos then Some(FrontierElement(e.scenarioIndex, newPos)) else None
  }

  // ---------------------------------------------------------------- the walk of findNewFrontier

  /** A matched destination is a state. */
  lemma VerdictInRange(states: Table, s: nat, events: seq<Event>)
    requires ValidTable(states) && s < |states|
    ensures EventsVerdict(states, s, events).MatchedTo? ==> EventsVerdict(states, s, events).dst < |states|
  {
    if EventsVerdict(states, s, events).MatchedTo? {
      var i := KeyIndex(states[s], events[0], Tautology).value;
      assert states[s][i].dst < |states|;
    }
  }

  datatype WalkEnd = WalkConflict | WalkStays(pos: nat) | WalkLeaves

  /**
   * findNewFrontier's walk from position pos of scenario sc, whose row of the
   * colouring is row: while every event of the position has a transition
   * into the same state, colour the next position with it and move there.
   * It stops at a position no event is followed from (the element stays in
   * the frontier), at the end of the scenario (the element leaves it), or at
   * a conflict.
   */
  function WalkFrom(states: Table, sc: Scenario, row: seq<nat>, pos: nat): (r: (WalkEnd, seq<nat>))
    requires ValidTable(states) && |row| == |sc| && pos < |sc|
    requires forall p :: 0 <= p < |row| ==> row[p] < |states|
    ensures |r.1| == |row| && forall p :: 0 <= p < |row| ==> r.1[p] < |states|
    decreases |sc| - pos
  {
    VerdictInRange(states, row[pos], sc[pos].events);
    match EventsVerdict(states, row[pos], sc[pos].events)
    case Conflict => (WalkConflict, row)
    case Unmatched => (WalkStays(pos), row)
    case MatchedTo(d) =>
      if pos + 1 < |sc| then WalkFrom(states, sc, row[pos + 1 := d], pos + 1) else (WalkLeaves, row)
  }

  /** Positions from..to-1 are followed by the automaton, each into the state of the next position. */
  predicate MatchedChain(states: Table, sc: Scenario, row: seq<nat>, from: nat, to: nat)
    requires |row| == |sc| && to < |sc| && forall p :: 0 <= p < |row| ==> row[p] < |states|
  {
    forall q :: from <= q < to ==> EventsVerdict(states, row[q], sc[q].events) == MatchedTo(row[q + 1])
  }

  /** The walk keeps the colours up to its start, and beyond the position where it stays. */
  lemma {:induction false} WalkKeeps(states: Table, sc: Scenario, row: seq<nat>, pos: nat)
    requires ValidTable(states) && |row| == |sc| && pos < |sc|
    requires forall p :: 0 <= p < |row| ==> row[p] < |states|
    ensures forall p :: 0 <= p <= pos ==> WalkFrom(states, sc, row, pos).1[p] == row[p]
    ensures WalkFrom(states, sc, row, pos).0.WalkStays? ==>
      var r := WalkFrom(states, sc, row, pos);
      pos <= r.0.pos < |sc| && forall p :: r.0.pos < p < |sc| ==> r.1[p] == row[p]
    decreases |sc| - pos
  {
    VerdictInRange(states, row[pos], sc[pos].events);
    match EventsVerdict(states, row[pos], sc[pos].events)
    case Conflict =>
    case Unmatched =>
    case MatchedTo(d) =>
      if pos + 1 < |sc| {
        WalkKeeps(states, sc, row[pos + 1 := d], pos + 1);
      }
  }

  /**
   * Where the walk stays, it followed a chain of positions whose colours it
   * wrote and then met a position none of whose events is followed.
   */
  lemma {:induction false} WalkStaysMeaning(states: Table, sc: Scenario, row: seq<nat>, pos: nat)
    requires ValidTable(states) && |row| == |sc| && pos < |sc|
    requires forall p :: 0 <= p < |row| ==> row[p] < |states|
    requires WalkFrom(states, sc, row, pos).0.WalkStays?
    ensures var r := WalkFrom(states, sc, row, pos);
      pos <= r.0.pos < |sc| && MatchedChain(states, sc, r.1, pos, r.0.pos) &&
      EventsUnmatched(states, r.1[r.0.pos], sc[r.0.pos].events)
    decreases |sc| - pos
  {
    VerdictInRange(states, row[pos], sc[pos].events);
    WalkKeeps(states, sc, row, pos);
    match EventsVerdict(states, row[pos], sc[pos].events)
    case Unmatched =>
    case MatchedTo(d) =>
      var row' := row[pos + 1 := d];
      WalkStaysMeaning(states, sc, row', pos + 1);
      WalkKeeps(states, sc, row', pos + 1);
  }

  /** When the walk leaves, the automaton follows the scenario from the start position to its end. */
  lemma {:induction false} WalkLeavesMeaning(states: Table, sc: Scenario, row: seq<nat>, pos: nat)
    requires ValidTable(states) && |row| == |sc| && pos < |sc|
    requires forall p :: 0 <= p < |row| ==> row[p] < |states|
    requires WalkFrom(states, sc, row, pos).0.WalkLeaves?
    ensures var r := WalkFrom(states, sc, row, pos);
      MatchedChain(states, sc, r.1, pos, |sc| - 1) && EventsVerdict(states, r.1[|sc| - 1], sc[|sc| - 1].events).MatchedTo?
    decreases |sc| - pos
  {
    VerdictInRange(states, row[pos], sc[pos].events);
    match EventsVerdict(states, row[pos], sc[pos].events)
    case MatchedTo(d) =>
      if pos + 1 < |sc| {
        var row' := row[pos + 1 := d];
        WalkLeavesMeaning(states, sc, row', pos + 1);
        WalkKeeps(states, sc, row', pos + 1);
      }
  }

  /** A walk that fails met, after a followed chain, a position q followed only in part or into different states. */
  lemma {:induction false} WalkConflictMeaning(states: Table, sc: Scenario, row: seq<nat>, pos: nat) returns (q: nat)
    requires ValidTable(states) && |row| == |sc| && pos < |sc|
    requires forall p :: 0 <= p < |row| ==> row[p] < |states|
    requires WalkFrom(states, sc, row, pos).0.WalkConflict?
    ensures pos <= q < |sc| && MatchedChain(states, sc, WalkFrom(states, sc, row, pos).1, pos, q)
    ensures EventsVerdict(states, WalkFrom(states, sc, row, pos).1[q], sc[q].events).Conflict?
    decreases |sc| - pos
  {
    VerdictInRange(states, row[pos], sc[pos].events);
    match EventsVerdict(states, row[pos], sc[pos].events)
    case Conflict =>
      q := pos;
    case MatchedTo(d) =>
      var row' := row[pos + 1 := d];
      q := WalkConflictMeaning(states, sc, row', pos + 1);
      WalkKeeps(states, sc, row', pos + 1);
  }

  // ---------------------------------------------------------------- following the scenarios from state 0

  /**
   * The automaton follows sc from state s at position pos to its end: the
   * events of every position have transitions, all into one state, which is
   * the state of the next position.
   */
  predicate FollowsFrom(states: Table, sc: Scenario, s: nat, pos: nat)
    decreases |sc| - pos
  {
    s < |states| &&
    (pos >= |sc| ||
     match EventsVerdict(states, s, sc[pos].events)
     case MatchedTo(d) => FollowsFrom(states, sc, d, pos + 1)
     case _ => false)
  }

  /** Every scenario is followed from the start state 0 to its end. */
  predicate FollowsAll(states: Table, scenarios: seq<Scenario>)
  {
    forall i :: 0 <= i < |scenarios| ==> FollowsFrom(states, scenarios[i], 0, 0)
  }

  /** The walk from a position leaves the scenario exactly when the automaton follows it from there to its end. */
  lemma {:induction false} WalkLeavesFollows(states: Table, sc: Scenario, row: seq<nat>, pos: nat)
    requires ValidTable(states) && |row| == |sc| && pos < |sc|
    requires forall p :: 0 <= p < |row| ==> row[p] < |states|
    ensures WalkFrom(states, sc, row, pos).0.WalkLeaves? <==> FollowsFrom(states, sc, row[pos], pos)
    decreases |sc| - pos
  {
    VerdictInRange(states, row[pos], sc[pos].events);
    match EventsVerdict(states, row[pos], sc[pos].events)
    case Conflict =>
    case Unmatched =>
    case MatchedTo(d) =>
      if pos + 1 < |sc| {
        WalkLeavesFollows(states, sc, row[pos + 1 := d], pos + 1);
      }
  }

  /**
   * Scenario sc, coloured by row, is followed from state 0 through the
   * positions before lim, and through all of them, the last one included,
   * when lim reaches its end.
   */
  predicate RowFollowed(states: Table, sc: Scenario, row: seq<nat>, lim: nat)
    requires |row| == |sc| && forall p :: 0 <= p < |row| ==> row[p] < |states|
  {
    |sc| >= 1 && row[0] == 0 &&
    (forall q :: 0 <= q < lim && q < |sc| - 1 ==> EventsVerdict(states, row[q], sc[q].events) == MatchedTo(row[q + 1])) &&
    (lim >= |sc| ==> EventsVerdict(states, row[|sc| - 1], sc[|sc| - 1].events).MatchedTo?)
  }

  /** A row followed to the end of its scenario is followed from every position on. */
  lemma {:induction false} RowFollows(states: Table, sc: Scenario, row: seq<nat>, q: nat)
    requires ValidTable(states) && |row| == |sc| && q < |sc|
    requires forall p :: 0 <= p < |row| ==> row[p] < |states|
    requires RowFollowed(states, sc, row, |sc|)
    ensures FollowsFrom(states, sc, row[q], q)
    decreases |sc| - q
  {
    if q < |sc| - 1 {
      RowFollows(states, sc, row, q + 1);
    } else {
      VerdictInRange(states, row[q], sc[q].events);
    }
  }

  /** The walk from the frontier position of a followed row extends the followed part to where it stops. */
  lemma RowWalked(states: Table, sc: Scenario, row: seq<nat>, pos: nat)
    requires ValidTable(states) && |row| == |sc| && pos < |sc|
    requires forall p :: 0 <= p < |row| ==> row[p] < |states|
    requires RowFollowed(states, sc, row, pos)
    ensures var w := WalkFrom(states, sc, row, pos);
      (w.0.WalkStays? ==> RowFollowed(states, sc, w.1, w.0.pos)) &&
      (w.0.WalkLeaves? ==> RowFollowed(states, sc, w.1, |sc|))
  {
    var w := WalkFrom(states, sc, row, pos);
    WalkKeeps(states, sc, row, pos);
    if w.0.WalkStays? {
      WalkStaysMeaning(states, sc, row, pos);
    } else if w.0.WalkLeaves? {
      WalkLeavesMeaning(states, sc, row, pos);
    }
  }

  /**
   * The walk of findNewFrontier over the whole frontier, element by element:
   * acc collects the elements that stay, and the first conflict fails the
   * walk. Each element walks its own scenario's row of the colouring.
   */
  function FrontierWalk(states: Table, scenarios: seq<Scenario>, col: Colouring,
                        frontier: seq<FrontierElement>, acc: seq<FrontierElement>): (r: Option<(seq<FrontierElement>, Colouring)>)
    requires ValidTable(states) && WellColoured(scenarios, col, |states|)
    requires forall k :: 0 <= k < |frontier| ==> InScenarios(scenarios, frontier[k])
    ensures r.Some? ==> WellColoured(scenarios, r.value.1, |states|)
    decreases |frontier|
  {
    if frontier == [] then Some((acc, col))
    else
      var e := frontier[0];
      var i := e.scenarioIndex;
      assert InScenarios(scenarios, e) && |col[i]| == |scenarios[i]|;
      var w := WalkFrom(states, scenarios[i], col[i], e.scenarioPosition);
      match w.0
      case WalkConflict => None
      case WalkStays(p) => FrontierWalk(states, scenarios, col[i := w.1], frontier[1..], acc + [FrontierElement(i, p)])
      case WalkLeaves => FrontierWalk(states, scenarios, col[i := w.1], frontier[1..], acc)
  }

  /**
   * Scenario i's frontier position: the position of its element, or the
   * scenario's length when it has none. The walk writes colours only beyond it.
   */
  function Limit(scenarios: seq<Scenario>, f: seq<FrontierElement>, i: nat): nat
    requires i < |scenarios|
  {
    if f == [] then |scenarios[i]|
    else if f[0].scenarioIndex == i then f[0].scenarioPosition
    else Limit(scenarios, f[1..], i)
  }

  /** col' agrees with col at every position up to each scenario's frontier position. */
  predicate Frozen(scenarios: seq<Scenario>, col': Colouring, col: Colouring, f: seq<FrontierElement>)
    requires |col| == |col'| == |scenarios|
  {
    forall i, q :: 0 <= i < |scenarios| && 0 <= q < |col[i]| && q < |col'[i]| && q <= Limit(scenarios, f, i) ==>
      col'[i][q] == col[i][q]
  }

  /** Every scenario's frontier position in f' is at or beyond its position in f. */
  predicate LimitsGrow(scenarios: seq<Scenario>, f: seq<FrontierElement>, f': seq<FrontierElement>)
  {
    forall i :: 0 <= i < |scenarios| ==> Limit(scenarios, f, i) <= Limit(scenarios, f', i)
  }

  lemma FrozenTrans(scenarios: seq<Scenario>, c2: Colouring, c1: Colouring, c0: Colouring,
                    f0: seq<FrontierElement>, f1: seq<FrontierElement>)
    requires |c0| == |c1| == |c2| == |scenarios|
    requires forall i :: 0 <= i < |scenarios| ==> |c0[i]| == |c1[i]|
    requires Frozen(scenarios, c1, c0, f0) && Frozen(scenarios, c2, c1, f1) && LimitsGrow(scenarios, f0, f1)
    ensures Frozen(scenarios, c2, c0, f0)
  {
  }

  /** An element's position is its scenario's frontier position. */
  lemma {:induction false} LimitOf(scenarios: seq<Scenario>, f: seq<FrontierElement>, k: nat)
    requires ElementsShape(scenarios, f) && k < |f|
    ensures Limit(scenarios, f, f[k].scenarioIndex) == f[k].scenarioPosition
  {
    if k > 0 {
      assert ElementsShape(scenarios, f[1..]) by {
        forall a, b | 0 <= a < b < |f[1..]| ensures f[1..][a].scenarioIndex != f[1..][b].scenarioIndex {
          assert f[1..][a] == f[a + 1] && f[1..][b] == f[b + 1];
        }
      }
      LimitOf(scenarios, f[1..], k - 1);
    }
  }

  /** A scenario without an element keeps its length as frontier position. */
  lemma {:induction false} LimitAbsent(scenarios: seq<Scenario>, f: seq<FrontierElement>, i: nat)
    requires i < |scenarios| && forall k :: 0 <= k < |f| ==> f[k].scenarioIndex != i
    ensures Limit(scenarios, f, i) == |scenarios[i]|
  {
    if f != [] {
      assert forall k :: 0 <= k < |f[1..]| ==> f[1..][k] == f[k + 1];
      LimitAbsent(scenarios, f[1..], i);
    }
  }

  /** A frontier position is at most the scenario's length. */
  lemma {:induction false} LimitBound(scenarios: seq<Scenario>, f: seq<FrontierElement>, i: nat)
    requires i < |scenarios| && forall k :: 0 <= k < |f| ==> InScenarios(scenarios, f[k])
    ensures Limit(scenarios, f, i) <= |scenarios[i]|
  {
    if f != [] {
      assert forall k :: 0 <= k < |f[1..]| ==> f[1..][k] == f[k + 1];
      LimitBound(scenarios, f[1..], i);
    }
  }

  /** Moving an element forward within its scenario moves no frontier position back. */
  lemma {:induction false} LimitUpdate(scenarios: seq<Scenario>, f: seq<FrontierElement>, k: nat, x: FrontierElement, j: nat)
    requires k < |f| && j < |scenarios| && x.scenarioIndex == f[k].scenarioIndex && x.scenarioPosition >= f[k].scenarioPosition
    ensures Limit(scenarios, f, j) <= Limit(scenarios, f[k := x], j)
    ensures j != x.scenarioIndex ==> Limit(scenarios, f[k := x], j) == Limit(scenarios, f, j)
  {
    if k > 0 {
      assert f[k := x][1..] == f[1..][k - 1 := x];
      LimitUpdate(scenarios, f[1..], k - 1, x, j);
    } else {
      assert f[k := x][1..] == f[1..];
    }
  }

  /**
   * Dropping the only element of a scenario moves its frontier position to
   * its end and leaves the other scenarios' positions.
   */
  lemma {:induction false} LimitRemove(scenarios: seq<Scenario>, f: seq<FrontierElement>, k: nat, j: nat)
    requires ElementsShape(scenarios, f) && k < |f| && j < |scenarios|
    ensures Limit(scenarios, f, j) <= Limit(scenarios, f[..k] + f[k + 1..], j)
    ensures Limit(scenarios, f[..k] + f[k + 1..], j) ==
            if j == f[k].scenarioIndex then |scenarios[j]| else Limit(scenarios, f, j)
  {
    var g := f[..k] + f[k + 1..];
    if k == 0 {
      assert g == f[1..];
      if f[0].scenarioIndex == j {
        assert forall m :: 0 <= m < |f[1..]| ==> f[1..][m] == f[m + 1];
        LimitAbsent(scenarios, f[1..], j);
      }
    } else {
      var t := f[1..];
      assert ElementsShape(scenarios, t) by {
        forall a, b | 0 <= a < b < |t| ensures t[a].scenarioIndex != t[b].scenarioIndex {
          assert t[a] == f[a + 1] && t[b] == f[b + 1];
        }
      }
      assert g == [f[0]] + (t[..k - 1] + t[k..]);
      assert g[1..] == t[..k - 1] + t[k..];
      assert t[k - 1] == f[k] && f[0].scenarioIndex != f[k].scenarioIndex;
      LimitRemove(scenarios, t, k - 1, j);
      LimitBound(scenarios, f, j);
    }
  }

  lemma ShapePrefix(scenarios: seq<Scenario>, f: seq<FrontierElement>, n: nat)
    requires ElementsShape(scenarios, f) && n <= |f|
    ensures ElementsShape(scenarios, f[..n])
  {
  }

  /**
   * The frontier after the first element of frontier walked: it stays at
   * position p (stays) or leaves. The elements collected so far and the ones
   * still to walk keep their shape, and no frontier position moves back.
   */
  lemma StepShape(scenarios: seq<Scenario>, acc: seq<FrontierElement>, frontier: seq<FrontierElement>,
                  stays: bool, p: nat, acc': seq<FrontierElement>)
    requires ElementsShape(scenarios, acc + frontier) && frontier != []
    requires InScenarios(scenarios, frontier[0])
    requires stays ==> frontier[0].scenarioPosition <= p < |scenarios[frontier[0].scenarioIndex]|
    requires acc' == if stays then acc + [FrontierElement(frontier[0].scenarioIndex, p)] else acc
    ensures ElementsShape(scenarios, acc' + frontier[1..]) && ElementsShape(scenarios, acc')
    ensures LimitsGrow(scenarios, acc + frontier, acc' + frontier[1..])
    ensures forall j :: 0 <= j < |scenarios| && j != frontier[0].scenarioIndex ==>
      Limit(scenarios, acc' + frontier[1..], j) == Limit(scenarios, acc + frontier, j)
    ensures Limit(scenarios, acc' + frontier[1..], frontier[0].scenarioIndex) ==
            if stays then p else |scenarios[frontier[0].scenarioIndex]|
  {
    var all := acc + frontier;
    var k := |acc|;
    assert all[k] == frontier[0];
    if stays {
      var x := FrontierElement(frontier[0].scenarioIndex, p);
      assert acc' + frontier[1..] == all[k := x];
      forall j | 0 <= j < |scenarios|
        ensures Limit(scenarios, all, j) <= Limit(scenarios, all[k := x], j)
        ensures j != x.scenarioIndex ==> Limit(scenarios, all[k := x], j) == Limit(scenarios, all, j)
      {
        LimitUpdate(scenarios, all, k, x, j);
      }
    } else {
      assert acc' + frontier[1..] == all[..k] + all[k + 1..];
      forall j | 0 <= j < |scenarios|
        ensures Limit(scenarios, all, j) <= Limit(scenarios, all[..k] + all[k + 1..], j)
        ensures Limit(scenarios, all[..k] + all[k + 1..], j) ==
                if j == all[k].scenarioIndex then |scenarios[j]| else Limit(scenarios, all, j)
      {
        LimitRemove(scenarios, all, k, j);
      }
      var g := all[..k] + all[k + 1..];
      assert forall m :: 0 <= m < |g| ==> g[m] == if m < k then all[m] else all[m + 1];
    }
    ShapePrefix(scenarios, acc' + frontier[1..], |acc'|);
    assert (acc' + frontier[1..])[..|acc'|] == acc';
    if stays {
      assert (acc' + frontier[1..])[k] == FrontierElement(frontier[0].scenarioIndex, p);
      LimitOf(scenarios, acc' + frontier[1..], k);
    }
  }

  /**
   * The result of the walk over the frontier: at most one element per
   * scenario, none of whose events is followed from its state; no larger
   * than before; colours up to the old frontier positions unchanged; and no
   * frontier position moved back.
   */
  lemma {:induction false} FrontierWalkSound(states: Table, scenarios: seq<Scenario>, col: Colouring,
                                             frontier: seq<FrontierElement>, acc: seq<FrontierElement>)
    requires ValidTable(states) && WellColoured(scenarios, col, |states|)
    requires ElementsShape(scenarios, acc + frontier) && ElementsShape(scenarios, acc)
    requires AllElementsUnmatched(states, scenarios, col, acc)
    ensures forall k :: 0 <= k < |frontier| ==> InScenarios(scenarios, frontier[k])
    ensures var r := FrontierWalk(states, scenarios, col, frontier, acc);
      r.Some? ==>
        ElementsShape(scenarios, r.value.0) && AllElementsUnmatched(states, scenarios, r.value.1, r.value.0) &&
        |r.value.0| <= |acc| + |frontier| &&
        Frozen(scenarios, r.value.1, col, acc + frontier) && LimitsGrow(scenarios, acc + frontier, r.value.0)
    decreases |frontier|
  {
    assert forall k :: 0 <= k < |frontier| ==> frontier[k] == (acc + frontier)[|acc| + k];
    var r := FrontierWalk(states, scenarios, col, frontier, acc);
    if frontier == [] {
      assert acc + frontier == acc;
    } else if r.Some? {
      var col', acc' := WalkStep(states, scenarios, col, frontier, acc);
      FrontierWalkSound(states, scenarios, col', frontier[1..], acc');
      FrozenTrans(scenarios, r.value.1, col', col, acc + frontier, acc' + frontier[1..]);
    }
  }

  /** One round of the walk over the frontier: the first element walks, and stays or leaves. */
  lemma WalkStep(states: Table, scenarios: seq<Scenario>, col: Colouring,
                 frontier: seq<FrontierElement>, acc: seq<FrontierElement>) returns (col': Colouring, acc': seq<FrontierElement>)
    requires ValidTable(states) && WellColoured(scenarios, col, |states|)
    requires ElementsShape(scenarios, acc + frontier) && ElementsShape(scenarios, acc) && frontier != []
    requires AllElementsUnmatched(states, scenarios, col, acc)
    requires forall k :: 0 <= k < |frontier| ==> InScenarios(scenarios, frontier[k])
    requires FrontierWalk(states, scenarios, col, frontier, acc).Some?
    ensures WellColoured(scenarios, col', |states|) && |acc'| <= |acc| + 1
    ensures ElementsShape(scenarios, acc' + frontier[1..]) && ElementsShape(scenarios, acc')
    ensures AllElementsUnmatched(states, scenarios, col', acc')
    ensures FrontierWalk(states, scenarios, col, frontier, acc) == FrontierWalk(states, scenarios, col', frontier[1..], acc')
    ensures Frozen(scenarios, col', col, acc + frontier) && LimitsGrow(scenarios, acc + frontier, acc' + frontier[1..])
    ensures Followed(states, scenarios, col, acc + frontier) ==> Followed(states, scenarios, col', acc' + frontier[1..])
  {
    var all := acc + frontier;
    var e := frontier[0];
    var i := e.scenarioIndex;
    assert all[|acc|] == e && InScenarios(scenarios, e) && |col[i]| == |scenarios[i]|;
    var w := WalkFrom(states, scenarios[i], col[i], e.scenarioPosition);
    col' := col[i := w.1];
    var stays := w.0.WalkStays?;
    var p := if stays then w.0.pos else 0;
    acc' := if stays then acc + [FrontierElement(i, p)] else acc;
    WalkKeeps(states, scenarios[i], col[i], e.scenarioPosition);
    if stays {
      WalkStaysMeaning(states, scenarios[i], col[i], e.scenarioPosition);
    }
    StepShape(scenarios, acc, frontier, stays, p, acc');
    assert AllElementsUnmatched(states, scenarios, col', acc') by {
      forall k | 0 <= k < |acc| ensures acc[k].scenarioIndex != i {
        assert all[k] == acc[k];
      }
    }
    LimitOf(scenarios, all, |acc|);
    if Followed(states, scenarios, col, all) {
      RowWalked(states, scenarios[i], col[i], e.scenarioPosition);
      forall j | 0 <= j < |scenarios|
        ensures RowFollowed(states, scenarios[j], col'[j], Limit(scenarios, acc' + frontier[1..], j))
      {
        if j != i {
          assert col'[j] == col[j];
        }
      }
    }
  }

  /** Every scenario is followed from state 0 up to its frontier position. */
  predicate Followed(states: Table, scenarios: seq<Scenario>, col: Colouring, f: seq<FrontierElement>)
    requires WellColoured(scenarios, col, |states|)
  {
    forall i :: 0 <= i < |scenarios| ==> RowFollowed(states, scenarios[i], col[i], Limit(scenarios, f, i))
  }

  /** On an empty frontier every scenario is followed to its end. */
  lemma FollowedAll(states: Table, scenarios: seq<Scenario>, col: Colouring)
    requires ValidTable(states) && WellColoured(scenarios, col, |states|) && Followed(states, scenarios, col, [])
    ensures FollowsAll(states, scenarios)
  {
    forall i | 0 <= i < |scenarios| ensures FollowsFrom(states, scenarios[i], 0, 0) {
      assert RowFollowed(states, scenarios[i], col[i], |scenarios[i]|);
      RowFollows(states, scenarios[i], col[i], 0);
    }
  }

  /** Relabelling the transitions keeps every verdict. */
  lemma VerdictSkeleton(a: Table, b: Table, s: nat, events: seq<Event>)
    requires SameSkeleton(a, b) && s < |a|
    ensures EventsVerdict(a, s, events) == EventsVerdict(b, s, events)
  {
    forall k | 0 <= k < |events|
      ensures Lookup(a[s], events[k], Tautology).None? <==> Lookup(b[s], events[k], Tautology).None?
      ensures Lookup(a[s], events[k], Tautology).Some? ==>
              Lookup(a[s], events[k], Tautology).value.dst == Lookup(b[s], events[k], Tautology).value.dst
    {
      SameKeys(a[s], b[s], events[k], Tautology);
    }
    if |events| > 0 {
      SameKeys(a[s], b[s], events[0], Tautology);
    }
  }

  /**
   * The followed part of the scenarios survives a relabelling of the
   * transitions and a change of colours beyond the frontier positions.
   */
  lemma FollowedSkeleton(states: Table, states0: Table, scenarios: seq<Scenario>, col: Colouring, col0: Colouring,
                         f: seq<FrontierElement>)
    requires SameSkeleton(states, states0)
    requires WellColoured(scenarios, col, |states|) && WellColoured(scenarios, col0, |states0|)
    requires Frozen(scenarios, col, col0, f) && Followed(states0, scenarios, col0, f)
    ensures Followed(states, scenarios, col, f)
  {
    forall i | 0 <= i < |scenarios| ensures RowFollowed(states, scenarios[i], col[i], Limit(scenarios, f, i)) {
      var sc, lim := scenarios[i], Limit(scenarios, f, i);
      forall q | 0 <= q < |sc| && q <= lim
        ensures col[i][q] == col0[i][q]
        ensures EventsVerdict(states, col[i][q], sc[q].events) == EventsVerdict(states0, col0[i][q], sc[q].events)
      {
        VerdictSkeleton(states, states0, col[i][q], sc[q].events);
      }
    }
  }

  /** The walk over a followed frontier leaves the scenarios followed up to the new frontier. */
  lemma {:induction false} FrontierWalkFollowed(states: Table, scenarios: seq<Scenario>, col: Colouring,
                                                frontier: seq<FrontierElement>, acc: seq<FrontierElement>)
    requires ValidTable(states) && WellColoured(scenarios, col, |states|)
    requires ElementsShape(scenarios, acc + frontier) && ElementsShape(scenarios, acc)
    requires AllElementsUnmatched(states, scenarios, col, acc)
    requires forall k :: 0 <= k < |frontier| ==> InScenarios(scenarios, frontier[k])
    requires Followed(states, scenarios, col, acc + frontier)
    ensures var r := FrontierWalk(states, scenarios, col, frontier, acc);
      r.Some? ==> Followed(states, scenarios, r.value.1, r.value.0)
    decreases |frontier|
  {
    if frontier == [] {
      assert acc + frontier == acc;
    } else if FrontierWalk(states, scenarios, col, frontier, acc).Some? {
      var col', acc' := WalkStep(states, scenarios, col, frontier, acc);
      assert forall k :: 0 <= k < |frontier[1..]| ==> frontier[1..][k] == frontier[k + 1];
      FrontierWalkFollowed(states, scenarios, col', frontier[1..], acc');
    }
  }
}
