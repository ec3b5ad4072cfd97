/**
 * label() of BacktrackingAutomatonBuilder.TraverseStateWithErrors: every
 * scenario is replayed from the start state along the first event of each
 * position, the recorded actions are collected per transition taken, each
 * transition is relabelled with the mode of its collected actions, and the
 * collected actions that differ from the new label are counted as errors.
 *
 * The occurrence lists are indexed like the transition table: occ[s][k]
 * belongs to the k-th transition of state s. An unchecked exception of the
 * replay (a position without events, an event without a transition where a
 * sibling event has one) makes the collection None.
 */
module ErrorLabels {
  import opened Common
  import opened MealyAutomata
  import opened Backtracking

  type OccTable = seq<seq<seq<Actions>>>

  /** One occurrence list per transition of the table. */
  predicate OccShape(occ: OccTable, states: Table)
  {
    |occ| == |states| && forall s :: 0 <= s < |occ| ==> |occ[s]| == |states[s]|
  }

  /** actionOccurrencies right after its creation: an empty list per transition. */
  function NoOccurrences(states: Table): (r: OccTable)
    ensures OccShape(r, states)
    ensures forall s, k :: 0 <= s < |r| && 0 <= k < |r[s]| ==> r[s][k] == []
  {
    seq(|states|, s requires 0 <= s < |states| => seq(|states[s]|, _ => []))
  }

  // ---------------------------------------------------------------- collecting occurrences

  /**
   * Adds actions a to the list of the transition every event events[k..]
   * takes from a state with transitions ts (row: their lists); None when an
   * event has no transition.
   */
  function RecordFrom(ts: seq<MealyTransition>, events: seq<Event>, k: nat, a: Actions, row: seq<seq<Actions>>)
    : (r: Option<seq<seq<Actions>>>)
    requires |row| == |ts|
    ensures r.Some? ==> |r.value| == |ts|
    decreases |events| - k
  {
    if k >= |events| then Some(row)
    else match KeyIndex(ts, events[k], Tautology)
      case None => None
      case Some(j) => RecordFrom(ts, events, k + 1, a, row[j := row[j] + [a]])
  }

  /**
   * The replay of scenario sc from position pos in state s: stop at the end
   * or at a position whose first event has no transition; fail at a
   * position without events; otherwise record the position's actions and
   * move along the first event's transition.
   */
  function ReplayFrom(states: Table, sc: Scenario, pos: nat, s: nat, occ: OccTable): (r: Option<OccTable>)
    requires ValidTable(states) && s < |states| && OccShape(occ, states)
    ensures r.Some? ==> OccShape(r.value, states)
    decreases |sc| - pos
  {
    if pos >= |sc| then Some(occ)
    else if sc[pos].events == [] then None
    else match KeyIndex(states[s], sc[pos].events[0], Tautology)
      case None => Some(occ)
      case Some(j) =>
        match RecordFrom(states[s], sc[pos].events, 0, sc[pos].actions, occ[s])
        case None => None
        case Some(row) => ReplayFrom(states, sc, pos + 1, states[s][j].dst, occ[s := row])
  }

  /** Replays scenarios i.. from the start state in turn. */
  function OccurrencesFrom(states: Table, scenarios: seq<Scenario>, i: nat, occ: OccTable): (r: Option<OccTable>)
    requires ValidTable(states) && |states| >= 1 && OccShape(occ, states)
    ensures r.Some? ==> OccShape(r.value, states)
    decreases |scenarios| - i
  {
    if i >= |scenarios| then Some(occ)
    else match ReplayFrom(states, scenarios[i], 0, 0, occ)
      case None => None
      case Some(occ') => OccurrencesFrom(states, scenarios, i + 1, occ')
  }

  /** actionOccurrencies after the replay of all scenarios. */
  function Occurrences(states: Table, scenarios: seq<Scenario>): (r: Option<OccTable>)
    requires ValidTable(states) && |states| >= 1
    ensures r.Some? ==> OccShape(r.value, states)
  {
    OccurrencesFrom(states, scenarios, 0, NoOccurrences(states))
  }

  /** label fails with an exception: the replay throws, or some transition is never taken (mode of an empty list). */
  ghost predicate LabelCrashes(states: Table, scenarios: seq<Scenario>)
    requires ValidTable(states) && |states| >= 1
  {
    match Occurrences(states, scenarios)
    case None => true
    case Some(occ) => !NoEmptyList(occ)
  }

  // ---------------------------------------------------------------- relabelling

  /** ts' is ts with each transition's actions replaced by the mode of its occurrence list. */
  ghost predicate Relabelled(ts: seq<MealyTransition>, row: seq<seq<Actions>>, ts': seq<MealyTransition>)
  {
    |ts'| == |ts| == |row| &&
    forall k :: 0 <= k < |ts| ==> ts'[k] == ts[k].(actions := ts'[k].actions) && IsMode(row[k], ts'[k].actions)
  }

  ghost predicate RelabelledTable(states: Table, occ: OccTable, states': Table)
  {
    |states'| == |states| == |occ| && forall s :: 0 <= s < |states| ==> Relabelled(states[s], occ[s], states'[s])
  }

  /** The errors of labelling the transitions ts when their occurrence lists are row. */
  function RowErrors(row: seq<seq<Actions>>, ts: seq<MealyTransition>): nat
    requires |row| == |ts|
  {
    if ts == [] then 0
    else RowErrors(row[..|row| - 1], ts[..|ts| - 1]) + Mismatches(row[|row| - 1], ts[|ts| - 1].actions)
  }

  /** madeErrors: the errors over the whole table. */
  function TableErrors(occ: OccTable, states: Table): nat
    requires OccShape(occ, states)
  {
    if states == [] then 0
    else TableErrors(occ[..|occ| - 1], states[..|states| - 1]) + RowErrors(occ[|occ| - 1], states[|states| - 1])
  }

  /** Relabelling every transition by its mode makes the fewest errors of any labelling of one state. */
  lemma {:induction false} RelabelledRowFewest(ts: seq<MealyTransition>, row: seq<seq<Actions>>,
                                               ts': seq<MealyTransition>, other: seq<MealyTransition>)
    requires Relabelled(ts, row, ts') && |other| == |row|
    ensures RowErrors(row, ts') <= RowErrors(row, other)
    decreases |ts|
  {
    if ts != [] {
      var n := |ts| - 1;
      assert Relabelled(ts[..n], row[..n], ts'[..n]);
      RelabelledRowFewest(ts[..n], row[..n], ts'[..n], other[..n]);
      ModeFewestMismatches(row[n], ts'[n].actions, other[n].actions);
    }
  }

  /**
   * Majority vote is optimal: the relabelled table makes no more errors than
   * any other labelling of the same transitions.
   */
  lemma {:induction false} RelabelledFewestErrors(states: Table, occ: OccTable, states': Table, other: Table)
    requires RelabelledTable(states, occ, states') && OccShape(occ, states) && OccShape(occ, other)
    ensures OccShape(occ, states')
    ensures TableErrors(occ, states') <= TableErrors(occ, other)
    decreases |states|
  {
    if states != [] {
      var n := |states| - 1;
      assert RelabelledTable(states[..n], occ[..n], states'[..n]);
      RelabelledFewestErrors(states[..n], occ[..n], states'[..n], other[..n]);
      RelabelledRowFewest(states[n], occ[n], states'[n], other[n]);
    }
  }

  /** Relabelling keeps keys and destinations. */
  lemma RelabelledSkeleton(states: Table, occ: OccTable, states': Table)
    requires RelabelledTable(states, occ, states')
    ensures SameSkeleton(states', states)
  {
    forall s | 0 <= s < |states| ensures Erase(states'[s]) == Erase(states[s]) {
      assert forall k :: 0 <= k < |states[s]| ==> states'[s][k] == states[s][k].(actions := states'[s][k].actions);
    }
  }

  /**
   * label's verdict: the majority vote over the occurrences in states gives
   * states' and makes at most errorNumber errors.
   */
  ghost predicate LabelledWithin(states: Table, scenarios: seq<Scenario>, states': Table, errorNumber: nat)
  {
    ValidTable(states) && |states| >= 1 && Occurrences(states, scenarios).Some? &&
    var occ := Occurrences(states, scenarios).value;
    RelabelledTable(states, occ, states') && OccShape(occ, states') && TableErrors(occ, states') <= errorNumber
  }

  /**
   * The bound on the majority vote decides whether any labelling of the
   * transitions keeps within errorNumber errors.
   */
  lemma MajorityVoteDecides(states: Table, occ: OccTable, states': Table, errorNumber: nat)
    requires RelabelledTable(states, occ, states') && OccShape(occ, states)
    ensures OccShape(occ, states')
    ensures TableErrors(occ, states') <= errorNumber <==>
            exists other: Table :: OccShape(occ, other) && TableErrors(occ, other) <= errorNumber
  {
    RelabelledFewestErrors(states, occ, states', states');
    if exists other: Table :: OccShape(occ, other) && TableErrors(occ, other) <= errorNumber {
      var other: Table :| OccShape(occ, other) && TableErrors(occ, other) <= errorNumber;
      RelabelledFewestErrors(states, occ, states', other);
    }
  }

  // ---------------------------------------------------------------- the loops of label

  /** The inner loop over the events of one position. */
  method RecordPosition(ts: seq<MealyTransition>, events: seq<Event>, a: Actions, row: seq<seq<Actions>>)
    returns (r: Option<seq<seq<Actions>>>)
    requires |row| == |ts|
    ensures r == RecordFrom(ts, events, 0, a, row)
  {
    var cur := row;
    var k := 0;
    while k < |events|
      invariant 0 <= k <= |events| && |cur| == |ts|
      invariant RecordFrom(ts, events, k, a, cur) == RecordFrom(ts, events, 0, a, row)
    {
      var j := KeyIndex(ts, events[k], Tautology);
      if j.None? {
        return None;
      }
      cur := cur[j.value := cur[j.value] + [a]];
      k := k + 1;
    }
    return Some(cur);
  }

  /** The replay of one scenario from the start state. */
  method ReplayScenario(states: Table, sc: Scenario, occ: OccTable) returns (r: Option<OccTable>)
    requires ValidTable(states) && |states| >= 1 && OccShape(occ, states)
    ensures r == ReplayFrom(states, sc, 0, 0, occ)
  {
    var cur := occ;
    var node: nat := 0;
    var pos := 0;
    while pos < |sc|
      invariant 0 <= pos <= |sc| && node < |states| && OccShape(cur, states)
      invariant ReplayFrom(states, sc, pos, node, cur) == ReplayFrom(states, sc, 0, 0, occ)
      decreases |sc| - pos
    {
      if sc[pos].events == [] {
        return None;
      }
      var j := KeyIndex(states[node], sc[pos].events[0], Tautology);
      if j.None? {
        return Some(cur);
      }
      var row := RecordPosition(states[node], sc[pos].events, sc[pos].actions, cur[node]);
      if row.None? {
        return None;
      }
      cur := cur[node := row.value];
      node := states[node][j.value].dst;
      pos := pos + 1;
    }
    return Some(cur);
  }

  /** The replay of all scenarios (the first half of label). */
  method CollectOccurrences(states: Table, scenarios: seq<Scenario>) returns (r: Option<OccTable>)
    requires ValidTable(states) && |states| >= 1
    ensures r == Occurrences(states, scenarios)
  {
    var cur := NoOccurrences(states);
    var i := 0;
    while i < |scenarios|
      invariant 0 <= i <= |scenarios| && OccShape(cur, states)
      invariant OccurrencesFrom(states, scenarios, i, cur) == Occurrences(states, scenarios)
    {
      var next := ReplayScenario(states, scenarios[i], cur);
      if next.None? {
        return None;
      }
      cur := next.value;
      i := i + 1;
    }
    return Some(cur);
  }

  /** The errors of one label: the loop over a transition's occurrences. */
  method CountMismatches(list: seq<Actions>, mode: Actions) returns (n: nat)
    ensures n == Mismatches(list, mode)
  {
    n := 0;
    var i := 0;
    while i < |list|
      invariant 0 <= i <= |list| && n == Mismatches(list[..i], mode)
    {
      assert list[..i + 1][..i] == list[..i];
      if list[i] != mode {
        n := n + 1;
      }
      i := i + 1;
    }
    assert list[..|list|] == list;
  }

  /**
   * Removing the first transition of a state whose list is ts[k..] + rel and
   * adding it back relabelled appends it: the list becomes ts[k+1..] + rel + [t'].
   */
  lemma RelabelStep(ts: seq<MealyTransition>, k: nat, rel: seq<MealyTransition>, t': MealyTransition)
    requires k < |ts| && UniqueKeys(ts[k..] + rel) && HasKey(t', ts[k].event, ts[k].guard)
    ensures UniqueKeys(RemoveKey(ts[k..] + rel, ts[k].event, ts[k].guard))
    ensures Put(RemoveKey(ts[k..] + rel, ts[k].event, ts[k].guard), t') == ts[k + 1..] + (rel + [t'])
  {
    var x := ts[k..] + rel;
    KeyIndexIs(x, ts[k].event, ts[k].guard, 0);
    RemoveKeyLookup(x, ts[k].event, ts[k].guard);
    assert RemoveKey(x, ts[k].event, ts[k].guard) == x[1..] == ts[k + 1..] + rel;
  }

  /**
   * The loop of label over a copy of state s's transitions: each is removed
   * and added again with the mode of its occurrences as actions, which
   * appends it, so that the list ends in its old order; the errors are the
   * occurrences that differ from the new actions. It fails (mode's
   * AssertionError) on a transition without occurrences.
   */
  method RelabelState(automaton: MealyAutomaton, s: nat, row: seq<seq<Actions>>) returns (crashed: bool, errors: nat)
    requires automaton.Valid() && s < |automaton.states| && |row| == |automaton.states[s]|
    modifies automaton
    ensures crashed <==> exists k :: 0 <= k < |row| && row[k] == []
    ensures automaton.Valid() && |automaton.states| == |old(automaton.states)|
    ensures !crashed ==> automaton.states == old(automaton.states)[s := automaton.states[s]]
    ensures !crashed ==> Relabelled(old(automaton.states)[s], row, automaton.states[s])
    ensures !crashed ==> errors == RowErrors(row, automaton.states[s])
  {
    ghost var states0 := automaton.states;
    var transitions := automaton.states[s];
    ghost var rel: seq<MealyTransition> := [];
    assert transitions[0..] + rel == transitions;
    errors := 0;
    var k := 0;
    while k < |transitions|
      invariant 0 <= k <= |transitions| && transitions == states0[s] && |rel| == k
      invariant automaton.Valid() && automaton.states == states0[s := transitions[k..] + rel]
      invariant forall j :: 0 <= j < k ==> rel[j] == transitions[j].(actions := rel[j].actions) && IsMode(row[j], rel[j].actions)
      invariant errors == RowErrors(row[..k], rel)
      invariant forall j :: 0 <= j < k ==> row[j] != []
    {
      var n;
      ghost var rel';
      crashed, n, rel' := RelabelTransition(automaton, states0, s, transitions, k, rel, row[k]);
      if crashed {
        return true, 0;
      }
      assert row[..k + 1][..k] == row[..k] && rel'[..k] == rel;
      errors := errors + n;
      rel := rel';
      k := k + 1;
    }
    assert transitions[k..] == [] && row[..k] == row;
    assert automaton.states[s] == rel;
    return false, errors;
  }

  /** One round of RelabelState's loop: relabel the k-th transition of the copy ts with the mode of list. */
  method RelabelTransition(automaton: MealyAutomaton, ghost states0: Table, s: nat, ts: seq<MealyTransition>, k: nat,
                           ghost rel: seq<MealyTransition>, list: seq<Actions>)
    returns (crashed: bool, n: nat, ghost rel': seq<MealyTransition>)
    requires automaton.Valid() && s < |states0| && k < |ts| && ValidTable(states0) && ts == states0[s]
    requires automaton.states == states0[s := ts[k..] + rel]
    modifies automaton
    ensures crashed <==> list == []
    ensures crashed ==> automaton.states == old(automaton.states)
    ensures !crashed ==> automaton.Valid() && automaton.states == states0[s := ts[k + 1..] + rel']
    ensures !crashed ==> |rel'| == |rel| + 1 && rel'[..|rel|] == rel
    ensures !crashed ==> rel'[|rel|] == ts[k].(actions := rel'[|rel|].actions) && IsMode(list, rel'[|rel|].actions)
    ensures !crashed ==> n == Mismatches(list, rel'[|rel|].actions)
  {
    var t := ts[k];
    var mode := Mode(list);
    if mode.None? {
      return true, 0, rel;
    }
    var t' := MealyTransition(t.event, t.guard, mode.value, t.dst);
    assert automaton.states[s] == ts[k..] + rel;
    RelabelStep(ts, k, rel, t');
    assert t.dst < |automaton.states|;
    automaton.RemoveTransition(s, t);
    automaton.AddTransition(s, t');
    n := CountMismatches(list, mode.value);
    rel' := rel + [t'];
    crashed := false;
  }

  /** One round of label's loop over the states: the relabelled prefix grows by state s. */
  lemma TableStep(states0: Table, occ: OccTable, before: Table, after: Table, s: nat)
    requires s < |states0| == |before| == |after| && OccShape(occ, states0)
    requires RelabelledTable(states0[..s], occ[..s], before[..s]) && OccShape(occ[..s], before[..s])
    requires after == before[s := after[s]] && Relabelled(states0[s], occ[s], after[s])
    ensures RelabelledTable(states0[..s + 1], occ[..s + 1], after[..s + 1]) && OccShape(occ[..s + 1], after[..s + 1])
    ensures TableErrors(occ[..s + 1], after[..s + 1]) == TableErrors(occ[..s], before[..s]) + RowErrors(occ[s], after[s])
  {
    assert after[..s + 1][..s] == before[..s] && occ[..s + 1][..s] == occ[..s];
  }

  /** No occurrence list of the table is empty: mode does not throw. */
  predicate NoEmptyList(occ: OccTable)
  {
    forall s, k :: 0 <= s < |occ| && 0 <= k < |occ[s]| ==> occ[s][k] != []
  }

  /**
   * label: replays the scenarios, relabels the transitions of every state
   * with the mode of their occurrences and compares the number of
   * disagreeing occurrences with errorNumber. An empty occurrence list (a
   * transition no scenario takes) makes mode throw: crashed.
   */
  method Label(automaton: MealyAutomaton, scenarios: seq<Scenario>, errorNumber: nat) returns (crashed: bool, ok: bool)
    requires automaton.Valid()
    modifies automaton
    ensures crashed <==> LabelCrashes(old(automaton.states), scenarios)
    ensures crashed ==> !ok
    ensures automaton.Valid() && |automaton.states| == |old(automaton.states)|
    ensures !crashed ==> SameSkeleton(automaton.states, old(automaton.states))
    ensures !crashed ==> Occurrences(old(automaton.states), scenarios).Some? &&
                         RelabelledTable(old(automaton.states), Occurrences(old(automaton.states), scenarios).value, automaton.states)
    ensures !crashed ==> (ok <==> LabelledWithin(old(automaton.states), scenarios, automaton.states, errorNumber))
  {
    ghost var states0 := automaton.states;
    var occ := CollectOccurrences(automaton.states, scenarios);
    if occ.None? {
      return true, false;
    }
    var table := occ.value;
    var errors := 0;
    var s := 0;
    while s < |automaton.states|
      invariant 0 <= s <= |states0| && automaton.Valid() && |automaton.states| == |states0|
      invariant forall j :: s <= j < |states0| ==> automaton.states[j] == states0[j]
      invariant RelabelledTable(states0[..s], table[..s], automaton.states[..s]) && OccShape(table[..s], automaton.states[..s])
      invariant errors == TableErrors(table[..s], automaton.states[..s])
      invariant NoEmptyList(table[..s])
    {
      ghost var before := automaton.states;
      var c, n := RelabelState(automaton, s, table[s]);
      if c {
        return true, false;
      }
      TableStep(states0, table, before, automaton.states, s);
      errors := errors + n;
      s := s + 1;
    }
    assert states0[..s] == states0 && table[..s] == table && automaton.states[..s] == automaton.states;
    RelabelledSkeleton(states0, table, automaton.states);
    return false, errors <= errorNumber;
  }
}
