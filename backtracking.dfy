/**
 * The exact backtracking synthesizer
 * (src/automaton_builders/BacktrackingAutomatonBuilder.java).
 *
 * The search colours the scenario tree with automaton states: it keeps a
 * frontier of tree edges that the partial automaton cannot yet follow, picks
 * the first of them, tries every destination state for a new transition
 * (with symmetry breaking), extends the colouring along the edges the
 * automaton now follows, and recurses; on return it removes the transition
 * and restores the frontier. The wall clock is a tick budget spent once per
 * backtracking call; the LTL verifier and the automaton completer are
 * parameters.
 */
module Backtracking {
  import opened Common
  import opened MealyAutomata
  import opened ScenarioTrees

  type Table = seq<seq<MealyTransition>>

  /** How a backtracking call ends: an automaton was found, the space is exhausted, time ran out, or an exception escaped. */
  datatype Outcome = Found(automaton: Table) | Exhausted | TimedOut | Crashed

  /** What the automaton completer does with a consistent automaton whose frontier is empty. */
  datatype Completion = Completed(automaton: Table) | NotCompletable | CompletionTimedOut

  /** What build returns; Failure stands for an unchecked exception escaping it. */
  datatype BuildResult = Success(automaton: Option<Table>) | Failure

  // ---------------------------------------------------------------- symmetry

  /**
   * The first destination the dst loop does not try: the least d >= 2 with
   * no incoming transitions into d - 1, or colorSize.
   */
  function SymmetryBound(incoming: seq<int>, colorSize: nat): (r: nat)
    requires |incoming| == colorSize
    ensures r <= colorSize
    ensures forall j :: 1 <= j && j + 1 < r ==> incoming[j] != 0
    ensures r < colorSize ==> r >= 2 && incoming[r - 1] == 0
  {
    SymmetryBoundFrom(incoming, colorSize, 0)
  }

  function SymmetryBoundFrom(incoming: seq<int>, colorSize: nat, d: nat): (r: nat)
    requires |incoming| == colorSize && d <= colorSize
    requires forall j :: 1 <= j && j + 1 < d ==> incoming[j] != 0
    ensures d <= r <= colorSize
    ensures forall j :: 1 <= j && j + 1 < r ==> incoming[j] != 0
    ensures r < colorSize ==> r >= 2 && incoming[r - 1] == 0
    decreases colorSize - d
  {
    if d == colorSize then d
    else if d > 1 && incoming[d - 1] == 0 then d
    else SymmetryBoundFrom(incoming, colorSize, d + 1)
  }

  // ---------------------------------------------------------------- colourings

  /** A colouring of the tree nodes with `size` automaton states. */
  ghost predicate Coloring(tree: ScenarioTree, size: nat, col: seq<nat>)
  {
    |col| == |tree.edges| && forall n :: 0 <= n < |col| ==> col[n] < size
  }

  /** The colouring changed only at the written nodes, none of which was coloured before. */
  ghost predicate WalkColors(tree: ScenarioTree, size: nat, c0: set<nat>, col0: seq<nat>, col: seq<nat>, written: set<nat>)
  {
    Coloring(tree, size, col) && |col0| == |col| && written !! c0 &&
    (forall d :: d in written ==> d < |tree.edges|) &&
    (forall n :: 0 <= n < |col| && n !in written ==> col[n] == col0[n])
  }

  lemma ColorsMatched(tree: ScenarioTree, size: nat, c0: set<nat>, col0: seq<nat>, col: seq<nat>, written: set<nat>, h: nat, v: nat)
    requires WalkColors(tree, size, c0, col0, col, written)
    requires h !in c0 + written && h < |tree.edges| && v < size
    ensures WalkColors(tree, size, c0, col0, col[h := v], written + {h})
  {
  }

  /** Colouring one more node shrinks the set of uncoloured nodes (the walk's termination measure). */
  lemma SetShrinks(n: nat, written: set<nat>, h: nat)
    requires h < n && h !in written
    ensures (set x | 0 <= x < n && x !in written + {h}) < (set x | 0 <= x < n && x !in written)
  {
    var before := set x | 0 <= x < n && x !in written;
    var after := set x | 0 <= x < n && x !in written + {h};
    assert h in before && h !in after;
    assert forall x :: x in after ==> x in before;
  }

  // ---------------------------------------------------------------- groupByDst

  /** The edges of ts that lead to d, in their order in ts. */
  function Filter(ts: seq<TreeEdge>, d: nat): seq<TreeEdge>
  {
    if ts == [] then []
    else Filter(ts[..|ts| - 1], d) + (if ts[|ts| - 1].dst == d then [ts[|ts| - 1]] else [])
  }

  /** The destination of every group. */
  function Dsts(groups: seq<seq<TreeEdge>>): (r: seq<nat>)
    requires forall k :: 0 <= k < |groups| ==> |groups[k]| >= 1
    ensures |r| == |groups| && forall k :: 0 <= k < |groups| ==> r[k] == groups[k][0].dst
  {
    seq(|groups|, k requires 0 <= k < |groups| => groups[k][0].dst)
  }

  /**
   * groups partitions ts by destination: one non-empty group per destination,
   * in increasing order of destination, each holding the edges of ts to that
   * destination in their original order.
   */
  ghost predicate GroupedByDst(ts: seq<TreeEdge>, groups: seq<seq<TreeEdge>>)
  {
    (forall k :: 0 <= k < |groups| ==> |groups[k]| >= 1) &&
    StrictlyIncreasing(Dsts(groups)) &&
    (forall k :: 0 <= k < |groups| ==> groups[k] == Filter(ts, Dsts(groups)[k])) &&
    (forall e :: e in ts ==> e.dst in Dsts(groups))
  }

  lemma FilterAppend(ts: seq<TreeEdge>, e: TreeEdge, d: nat)
    ensures Filter(ts + [e], d) == Filter(ts, d) + (if e.dst == d then [e] else [])
  {
    assert (ts + [e])[..|ts|] == ts;
  }

  lemma {:induction false} FilterMembers(ts: seq<TreeEdge>, d: nat, e: TreeEdge)
    ensures e in Filter(ts, d) <==> e in ts && e.dst == d
  {
    if ts != [] {
      FilterMembers(ts[..|ts| - 1], d, e);
      assert ts == ts[..|ts| - 1] + [ts[|ts| - 1]];
    }
  }

  /** The groups hold exactly the input edges: their union is the input. */
  lemma GroupsPartition(ts: seq<TreeEdge>, groups: seq<seq<TreeEdge>>, e: TreeEdge)
    requires GroupedByDst(ts, groups)
    ensures e in ts <==> exists k :: 0 <= k < |groups| && e in groups[k]
    ensures forall k :: 0 <= k < |groups| && e in groups[k] ==> e.dst == Dsts(groups)[k]
  {
    forall k | 0 <= k < |groups| ensures e in groups[k] <==> e in ts && e.dst == Dsts(groups)[k] {
      FilterMembers(ts, Dsts(groups)[k], e);
    }
    if e in ts {
      var k :| 0 <= k < |groups| && Dsts(groups)[k] == e.dst;
      assert e in groups[k];
    }
  }

  lemma {:induction false} FilterNone(ts: seq<TreeEdge>, d: nat)
    requires forall x :: x in ts ==> x.dst != d
    ensures Filter(ts, d) == []
  {
    if ts != [] {
      assert forall x :: x in ts[..|ts| - 1] ==> x in ts;
      FilterNone(ts[..|ts| - 1], d);
    }
  }

  lemma GroupAppendExisting(ts: seq<TreeEdge>, groups: seq<seq<TreeEdge>>, e: TreeEdge, k: nat)
    requires GroupedByDst(ts, groups) && k < |groups| && Dsts(groups)[k] == e.dst
    ensures GroupedByDst(ts + [e], groups[k := groups[k] + [e]])
  {
    var g2: seq<seq<TreeEdge>> := groups[k := groups[k] + [e]];
    assert Dsts(g2) == Dsts(groups);
    forall l | 0 <= l < |g2| ensures g2[l] == Filter(ts + [e], Dsts(g2)[l]) {
      FilterAppend(ts, e, Dsts(g2)[l]);
    }
  }

  lemma GroupInsertNew(ts: seq<TreeEdge>, groups: seq<seq<TreeEdge>>, e: TreeEdge, k: nat)
    requires GroupedByDst(ts, groups) && k <= |groups|
    requires forall l :: 0 <= l < k ==> Dsts(groups)[l] < e.dst
    requires k < |groups| ==> Dsts(groups)[k] > e.dst
    ensures GroupedByDst(ts + [e], groups[..k] + [[e]] + groups[k..])
  {
    InsertDsts(groups, e, k);
    InsertFilters(ts, groups, e, k);
    InsertCovers(ts, groups, e, k);
  }

  lemma InsertFilters(ts: seq<TreeEdge>, groups: seq<seq<TreeEdge>>, e: TreeEdge, k: nat)
    requires GroupedByDst(ts, groups) && k <= |groups|
    requires forall l :: 0 <= l < |groups| ==> Dsts(groups)[l] != e.dst
    requires Dsts(groups[..k] + [[e]] + groups[k..]) == Dsts(groups)[..k] + [e.dst] + Dsts(groups)[k..]
    ensures forall l :: 0 <= l < |groups| + 1 ==>
      (groups[..k] + [[e]] + groups[k..])[l] == Filter(ts + [e], Dsts(groups[..k] + [[e]] + groups[k..])[l])
  {
    forall x | x in ts ensures x.dst != e.dst {
      var l :| 0 <= l < |groups| && Dsts(groups)[l] == x.dst;
    }
    FilterNone(ts, e.dst);
    forall l | 0 <= l < |groups| + 1
      ensures (groups[..k] + [[e]] + groups[k..])[l] == Filter(ts + [e], Dsts(groups[..k] + [[e]] + groups[k..])[l])
    {
      InsertFilterAt(ts, groups, e, k, l);
    }
  }

  lemma InsertFilterAt(ts: seq<TreeEdge>, groups: seq<seq<TreeEdge>>, e: TreeEdge, k: nat, l: nat)
    requires forall j :: 0 <= j < |groups| ==> |groups[j]| >= 1
    requires k <= |groups| && l <= |groups|
    requires forall j :: 0 <= j < |groups| ==> groups[j] == Filter(ts, Dsts(groups)[j])
    requires forall j :: 0 <= j < |groups| ==> Dsts(groups)[j] != e.dst
    requires Filter(ts, e.dst) == []
    requires Dsts(groups[..k] + [[e]] + groups[k..]) == Dsts(groups)[..k] + [e.dst] + Dsts(groups)[k..]
    ensures (groups[..k] + [[e]] + groups[k..])[l] == Filter(ts + [e], Dsts(groups[..k] + [[e]] + groups[k..])[l])
  {
    var g2: seq<seq<TreeEdge>> := groups[..k] + [[e]] + groups[k..];
    FilterAppend(ts, e, Dsts(g2)[l]);
    if l < k {
      assert g2[l] == groups[l] && Dsts(g2)[l] == Dsts(groups)[l];
    } else if l > k {
      assert g2[l] == groups[l - 1] && Dsts(g2)[l] == Dsts(groups)[l - 1];
    } else {
      assert g2[l] == [e] && Dsts(g2)[l] == e.dst;
    }
  }

  lemma InsertCovers(ts: seq<TreeEdge>, groups: seq<seq<TreeEdge>>, e: TreeEdge, k: nat)
    requires forall l :: 0 <= l < |groups| ==> |groups[l]| >= 1
    requires k <= |groups| && forall x :: x in ts ==> x.dst in Dsts(groups)
    requires Dsts(groups[..k] + [[e]] + groups[k..]) == Dsts(groups)[..k] + [e.dst] + Dsts(groups)[k..]
    ensures forall x :: x in ts + [e] ==> x.dst in Dsts(groups[..k] + [[e]] + groups[k..])
  {
    var g2: seq<seq<TreeEdge>> := groups[..k] + [[e]] + groups[k..];
    forall x | x in ts + [e] ensures x.dst in Dsts(g2) {
      if x != e {
        assert x in ts;
        var l :| 0 <= l < |groups| && Dsts(groups)[l] == x.dst;
        assert Dsts(g2)[if l < k then l else l + 1] == x.dst;
      }
    }
  }

  /** Inserting a group for a new destination at its sorted position keeps the destinations sorted. */
  lemma InsertDsts(groups: seq<seq<TreeEdge>>, e: TreeEdge, k: nat)
    requires forall l :: 0 <= l < |groups| ==> |groups[l]| >= 1
    requires StrictlyIncreasing(Dsts(groups)) && k <= |groups|
    requires forall l :: 0 <= l < k ==> Dsts(groups)[l] < e.dst
    requires k < |groups| ==> Dsts(groups)[k] > e.dst
    ensures forall l :: 0 <= l < |groups| ==> Dsts(groups)[l] != e.dst
    ensures Dsts(groups[..k] + [[e]] + groups[k..]) == Dsts(groups)[..k] + [e.dst] + Dsts(groups)[k..]
    ensures StrictlyIncreasing(Dsts(groups[..k] + [[e]] + groups[k..]))
  {
    var g2: seq<seq<TreeEdge>> := groups[..k] + [[e]] + groups[k..];
    assert Dsts(g2) == Dsts(groups)[..k] + [e.dst] + Dsts(groups)[k..];
    InsertIncreasing(Dsts(groups), e.dst, k);
  }

  /** Inserting x at its sorted place keeps a strictly increasing sequence strictly increasing. */
  lemma InsertIncreasing(ds: seq<int>, x: int, k: nat)
    requires StrictlyIncreasing(ds) && k <= |ds|
    requires forall l :: 0 <= l < k ==> ds[l] < x
    requires k < |ds| ==> ds[k] > x
    ensures forall l :: 0 <= l < |ds| ==> ds[l] != x
    ensures StrictlyIncreasing(ds[..k] + [x] + ds[k..])
  {
    var r := ds[..k] + [x] + ds[k..];
    assert forall i :: 0 <= i < |r| ==> r[i] == if i < k then ds[i] else if i == k then x else ds[i - 1];
    forall l | 0 <= l < |ds| ensures ds[l] != x {
      if l > k { assert ds[k] < ds[l]; }
    }
    forall a, b | 0 <= a < b < |r| ensures r[a] < r[b] {
      if a == k && b > k + 1 {
        assert ds[k] < ds[b - 1];
      } else if a < k && b > k {
        assert ds[a] < x;
      }
    }
  }

  /** groupByDst: collects edges into a map sorted by destination. */
  method GroupByDst(ts: seq<TreeEdge>) returns (groups: seq<seq<TreeEdge>>)
    ensures GroupedByDst(ts, groups)
  {
    groups := [];
    var i := 0;
    while i < |ts|
      invariant 0 <= i <= |ts|
      invariant GroupedByDst(ts[..i], groups)
    {
      var e := ts[i];
      // position of e's group in the sorted map
      var k := FindGroup(groups, ts[..i], e.dst);
      if k < |groups| && groups[k][0].dst == e.dst {
        GroupStep(ts, i, groups, k, true);
        groups := groups[k := groups[k] + [e]];
      } else {
        GroupStep(ts, i, groups, k, false);
        groups := groups[..k] + [[e]] + groups[k..];
      }
      i := i + 1;
    }
    assert ts[..|ts|] == ts;
  }

  lemma GroupStep(ts: seq<TreeEdge>, i: nat, groups: seq<seq<TreeEdge>>, k: nat, existing: bool)
    requires i < |ts| && GroupedByDst(ts[..i], groups) && k <= |groups|
    requires forall l :: 0 <= l < k ==> Dsts(groups)[l] < ts[i].dst
    requires k < |groups| ==> Dsts(groups)[k] >= ts[i].dst
    requires existing <==> k < |groups| && Dsts(groups)[k] == ts[i].dst
    ensures existing ==> GroupedByDst(ts[..i + 1], groups[k := groups[k] + [ts[i]]])
    ensures !existing ==> GroupedByDst(ts[..i + 1], groups[..k] + [[ts[i]]] + groups[k..])
  {
    assert ts[..i + 1] == ts[..i] + [ts[i]];
    if existing {
      GroupAppendExisting(ts[..i], groups, ts[i], k);
    } else {
      GroupInsertNew(ts[..i], groups, ts[i], k);
    }
  }

  /** The position of destination d in the sorted group map. */
  method FindGroup(groups: seq<seq<TreeEdge>>, ghost ts: seq<TreeEdge>, d: nat) returns (k: nat)
    requires GroupedByDst(ts, groups)
    ensures k <= |groups|
    ensures forall l :: 0 <= l < k ==> Dsts(groups)[l] < d
    ensures k < |groups| ==> Dsts(groups)[k] >= d
  {
    k := 0;
    while k < |groups| && groups[k][0].dst < d
      invariant 0 <= k <= |groups|
      invariant forall l :: 0 <= l < k ==> Dsts(groups)[l] < d
    {
      k := k + 1;
    }
  }

  // ---------------------------------------------------------------- event extensions

  /** The events whose name, the label without its last `variables` characters, is name. */
  function Extensions(events: seq<Event>, name: string, variables: nat): (r: seq<Event>)
    requires forall k :: 0 <= k < |events| ==> variables <= |events[k]|
    ensures forall e :: e in r <==> e in events && EventName(e, variables) == name
  {
    if events == [] then []
    else
      var last := events[|events| - 1];
      Extensions(events[..|events| - 1], name, variables) + (if EventName(last, variables) == name then [last] else [])
  }

  /** eventExtensions: maps every event name to its events, in the order of the event list. */
  method EventExtensions(events: seq<Event>, eventNames: seq<string>, variables: nat) returns (ext: map<string, seq<Event>>)
    requires forall k :: 0 <= k < |events| ==> variables <= |events[k]|
    ensures ext.Keys == set n | n in eventNames
    ensures forall n :: n in ext ==> ext[n] == Extensions(events, n, variables)
  {
    ext := map[];
    var i := 0;
    while i < |eventNames|
      invariant 0 <= i <= |eventNames|
      invariant ext.Keys == set n | n in eventNames[..i]
      invariant forall n :: n in ext ==> ext[n] == Extensions(events, n, variables)
    {
      assert eventNames[..i + 1] == eventNames[..i] + [eventNames[i]];
      ext := ext[eventNames[i] := Extensions(events, eventNames[i], variables)];
      i := i + 1;
    }
    assert eventNames[..|eventNames|] == eventNames;
  }

  // ---------------------------------------------------------------- weak completeness

  predicate HasTautologyTransition(states: Table, s: nat, e: Event)
    requires s < |states|
  {
    Lookup(states[s], e, Tautology).Some?
  }

  /**
   * Weak completeness: in every state, for every event name, either no
   * extension of the name has a transition or all of them do.
   */
  ghost predicate WeakComplete(states: Table, eventNames: seq<string>, ext: map<string, seq<Event>>)
    requires forall n :: n in eventNames ==> n in ext
  {
    forall s, n :: 0 <= s < |states| && n in eventNames ==> AllOrNone(states, s, ext[n])
  }

  /** Either none or all of the events es have a transition from state s. */
  ghost predicate AllOrNone(states: Table, s: nat, es: seq<Event>)
    requires s < |states|
  {
    (exists e :: e in es && HasTautologyTransition(states, s, e)) ==>
    (forall e :: e in es ==> HasTautologyTransition(states, s, e))
  }

  /** isWeakComplete. */
  method IsWeakComplete(states: Table, eventNames: seq<string>, ext: map<string, seq<Event>>) returns (r: bool)
    requires forall n :: n in eventNames ==> n in ext
    ensures r == WeakComplete(states, eventNames, ext)
  {
    var i := 0;
    while i < |states|
      invariant 0 <= i <= |states|
      invariant forall s, n :: 0 <= s < i && n in eventNames ==> AllOrNone(states, s, ext[n])
    {
      var j := 0;
      while j < |eventNames|
        invariant 0 <= j <= |eventNames|
        invariant forall n :: n in eventNames[..j] ==> AllOrNone(states, i, ext[n])
      {
        var n := eventNames[j];
        var ok := CheckAllOrNone(states, i, ext[n]);
        if !ok {
          assert n in eventNames;
          return false;
        }
        assert eventNames[..j + 1] == eventNames[..j] + [n];
        j := j + 1;
      }
      assert eventNames[..|eventNames|] == eventNames;
      i := i + 1;
    }
    return true;
  }

  /** The loop of isWeakComplete over the extensions of one event name in one state. */
  method CheckAllOrNone(states: Table, s: nat, es: seq<Event>) returns (r: bool)
    requires s < |states|
    ensures r == AllOrNone(states, s, es)
  {
    var hasTransition := false;
    var allTransitions := true;
    var k := 0;
    while k < |es|
      invariant 0 <= k <= |es|
      invariant hasTransition <==> exists x :: 0 <= x < k && HasTautologyTransition(states, s, es[x])
      invariant allTransitions <==> forall x :: 0 <= x < k ==> HasTautologyTransition(states, s, es[x])
    {
      if HasTautologyTransition(states, s, es[k]) {
        hasTransition := true;
      } else {
        allTransitions := false;
      }
      k := k + 1;
    }
    if hasTransition && !allTransitions {
      var x :| 0 <= x < |es| && !HasTautologyTransition(states, s, es[x]);
      var y :| 0 <= y < |es| && HasTautologyTransition(states, s, es[y]);
      assert es[x] in es && es[y] in es;
      return false;
    }
    assert AllOrNone(states, s, es) by {
      if exists e :: e in es && HasTautologyTransition(states, s, e) {
        var e :| e in es && HasTautologyTransition(states, s, e);
        var x :| 0 <= x < |es| && es[x] == e;
      }
    }
    return true;
  }

  // ---------------------------------------------------------------- mode

  /** list[j] is the first element whose count reaches m while scanning the list. */
  ghost predicate FirstToReach(list: seq<Actions>, j: nat, m: nat)
  {
    j < |list| && Count(list[..j + 1], list[j]) == m &&
    forall k :: 0 <= k < j ==> Count(list[..k + 1], list[k]) < m
  }

  lemma {:induction false} CountPrefixMonotone(list: seq<Actions>, i: nat, j: nat, x: Actions)
    requires i <= j <= |list|
    ensures Count(list[..i], x) <= Count(list[..j], x)
    decreases j - i
  {
    if i < j {
      CountPrefixMonotone(list, i, j - 1, x);
      assert list[..j] == list[..j - 1] + [list[j - 1]];
      CountAppend(list[..j - 1], list[j - 1], x);
    }
  }

  /** counts holds the number of occurrences of every element among the first i of list. */
  ghost predicate CountsOf(list: seq<Actions>, i: nat, counts: map<Actions, nat>)
    requires i <= |list|
  {
    (forall y :: y in counts <==> y in list[..i]) &&
    (forall y :: y in counts ==> counts[y] == Count(list[..i], y))
  }

  /**
   * The state of mode's scan after i elements: counts holds the count of every
   * element seen so far, and ans, at position at, is the first element to
   * reach the largest count maxCount.
   */
  ghost predicate ModeScan(list: seq<Actions>, i: nat, counts: map<Actions, nat>, maxCount: nat, ans: Actions, at: nat)
  {
    0 < i <= |list| && CountsOf(list, i, counts) &&
    (forall y :: Count(list[..i], y) <= maxCount) &&
    at < i && list[at] == ans && Count(list[..i], ans) == maxCount && FirstToReach(list, at, maxCount)
  }

  lemma ModeScanFirst(list: seq<Actions>)
    requires list != []
    ensures ModeScan(list, 1, map[list[0] := 1], 1, list[0], 0)
  {
    assert list[..1] == [] + [list[0]];
    forall y ensures Count(list[..1], y) == if y == list[0] then 1 else 0 {
      CountAppend([], list[0], y);
    }
  }

  lemma CountsStep(list: seq<Actions>, i: nat, counts: map<Actions, nat>, prev: seq<Actions>, next: seq<Actions>)
    requires i < |list| && CountsOf(list, i, counts) && prev == list[..i] && next == list[..i + 1]
    ensures forall y :: Count(next, y) == Count(prev, y) + (if list[i] == y then 1 else 0)
    ensures (if list[i] in counts then counts[list[i]] else 0) + 1 == Count(next, list[i])
    ensures CountsOf(list, i + 1, counts[list[i] := Count(next, list[i])])
  {
    var elem := list[i];
    assert next == prev + [elem];
    forall y ensures Count(next, y) == Count(prev, y) + (if elem == y then 1 else 0) {
      CountAppend(prev, elem, y);
    }
    if elem !in counts {
      CountPositive(prev, elem);
    }
    var counts' := counts[elem := Count(next, elem)];
    forall y ensures y in counts' <==> y in next {
      assert y in next <==> y in prev || y == elem;
    }
  }

  lemma ModeScanStep(list: seq<Actions>, i: nat, counts: map<Actions, nat>, maxCount: nat, ans: Actions, at: nat,
                     c: nat, maxCount': nat, ans': Actions, at': nat)
    requires ModeScan(list, i, counts, maxCount, ans, at) && i < |list|
    requires c == (if list[i] in counts then counts[list[i]] else 0) + 1
    requires if c > maxCount then maxCount' == c && ans' == list[i] && at' == i
      else maxCount' == maxCount && ans' == ans && at' == at
    ensures ModeScan(list, i + 1, counts[list[i] := c], maxCount', ans', at')
  {
    var prev, next := list[..i], list[..i + 1];
    CountsStep(list, i, counts, prev, next);
    assert c == Count(next, list[i]);
    if c > maxCount {
      forall k | 0 <= k < i ensures Count(list[..k + 1], list[k]) < c {
        CountPrefixMonotone(list, k + 1, i, list[k]);
      }
      assert forall y :: Count(next, y) <= c;
    } else {
      assert forall y :: Count(next, y) <= maxCount;
    }
  }

  /** x occurs most often in list, and among the elements that do, its count reaches the maximum first. */
  ghost predicate IsMode(list: seq<Actions>, x: Actions)
  {
    (forall y :: Count(list, y) <= Count(list, x)) &&
    exists j: nat :: FirstToReach(list, j, Count(list, x)) && list[j] == x
  }

  /** The mode is well defined: at most one element is a mode of a list. */
  lemma IsModeUnique(list: seq<Actions>, x: Actions, y: Actions)
    requires IsMode(list, x) && IsMode(list, y)
    ensures x == y
  {
    var i: nat :| FirstToReach(list, i, Count(list, x)) && list[i] == x;
    var j: nat :| FirstToReach(list, j, Count(list, y)) && list[j] == y;
    assert Count(list, x) == Count(list, y);
    assert i == j;
  }

  /** Entries of list other than a: the errors made by labelling a transition with a. */
  function Mismatches(list: seq<Actions>, a: Actions): (r: nat)
  {
    if list == [] then 0
    else Mismatches(list[..|list| - 1], a) + (if list[|list| - 1] != a then 1 else 0)
  }

  lemma {:induction false} MismatchesCount(list: seq<Actions>, a: Actions)
    ensures Mismatches(list, a) == |list| - Count(list, a)
    decreases |list|
  {
    if list != [] {
      var init := list[..|list| - 1];
      MismatchesCount(init, a);
      assert list == init + [list[|list| - 1]];
      CountAppend(init, list[|list| - 1], a);
    }
  }

  /** Labelling with the mode makes the fewest errors: majority vote is optimal. */
  lemma ModeFewestMismatches(list: seq<Actions>, m: Actions, x: Actions)
    requires IsMode(list, m)
    ensures Mismatches(list, m) <= Mismatches(list, x)
  {
    MismatchesCount(list, m);
    MismatchesCount(list, x);
  }

  /**
   * mode: the most frequent element; among equally frequent ones, the one
   * whose count reaches the maximum first. An empty list is an assertion failure.
   */
  method Mode(list: seq<Actions>) returns (r: Option<Actions>)
    ensures r.None? <==> list == []
    ensures r.Some? ==> IsMode(list, r.value)
  {
    if list == [] {
      return None;
    }
    var counts: map<Actions, nat> := map[list[0] := 1];
    var maxCount := 1;
    var ans := list[0];
    ghost var at := 0;
    ModeScanFirst(list);
    var i := 1;
    while i < |list|
      invariant ModeScan(list, i, counts, maxCount, ans, at)
      decreases |list| - i
    {
      ghost var counts0, maxCount0, ans0, at0 := counts, maxCount, ans, at;
      var elem := list[i];
      var count := (if elem in counts then counts[elem] else 0) + 1;
      counts := counts[elem := count];
      if count > maxCount {
        maxCount := count;
        ans := elem;
        at := i;
      }
      ModeScanStep(list, i, counts0, maxCount0, ans0, at0, count, maxCount, ans, at);
      i := i + 1;
    }
    assert list[..|list|] == list;
    return Some(ans);
  }

  // ---------------------------------------------------------------- classification of multi-edges

  datatype GroupVerdict = Conflict | Unmatched | MatchedTo(dst: nat)

  /** No event of the group has a tautology transition from state s. */
  ghost predicate AllUnmatched(states: Table, s: nat, g: seq<TreeEdge>)
    requires s < |states|
  {
    forall k :: 0 <= k < |g| ==> Lookup(states[s], g[k].event, Tautology).None?
  }

  /** Every event of the group has a tautology transition from s with the group's actions, leading to d. */
  ghost predicate AllMatchedTo(states: Table, s: nat, g: seq<TreeEdge>, d: nat)
    requires s < |states|
  {
    forall k :: 0 <= k < |g| ==>
      Lookup(states[s], g[k].event, Tautology).Some? &&
      Lookup(states[s], g[k].event, Tautology).value.actions == g[k].actions &&
      Lookup(states[s], g[k].event, Tautology).value.dst == d
  }

  /**
   * The inner loop of findNewFrontier for a multi-edge: a group conflicts
   * when a transition has other actions, when some events have transitions
   * and others not, or when the transitions disagree on the destination.
   */
  method ClassifyGroup(states: Table, s: nat, g: seq<TreeEdge>) returns (v: GroupVerdict)
    requires s < |states| && |g| >= 1
    ensures v.Unmatched? <==> AllUnmatched(states, s, g)
    ensures v.MatchedTo? ==> AllMatchedTo(states, s, g, v.dst)
    ensures v.Conflict? ==> !AllUnmatched(states, s, g) && forall d :: !AllMatchedTo(states, s, g, d)
  {
    var found: seq<Option<MealyTransition>> := [];
    var wasNull := false;
    var wasProper := false;
    var k := 0;
    while k < |g|
      invariant 0 <= k <= |g| && |found| == k
      invariant forall x :: 0 <= x < k ==> found[x] == Lookup(states[s], g[x].event, Tautology)
      invariant forall x :: 0 <= x < k && found[x].Some? ==> found[x].value.actions == g[x].actions
      invariant wasNull <==> exists x :: 0 <= x < k && found[x].None?
      invariant wasProper <==> exists x :: 0 <= x < k && found[x].Some?
    {
      var autoT := Lookup(states[s], g[k].event, Tautology);
      if autoT.Some? && autoT.value.actions != g[k].actions {
        return Conflict;
      }
      wasNull := wasNull || autoT.None?;
      wasProper := wasProper || autoT.Some?;
      found := found + [autoT];
      k := k + 1;
    }
    if wasNull && wasProper {
      return Conflict;
    } else if wasProper {
      var autoDst := found[0].value.dst;
      if exists x :: 0 <= x < |g| && found[x].value.dst != autoDst {
        return Conflict;
      }
      return MatchedTo(autoDst);
    } else {
      return Unmatched;
    }
  }

  /** The same classification over the events of a scenario position, without comparing actions. */
  predicate EventsUnmatched(states: Table, s: nat, events: seq<Event>)
    requires s < |states|
  {
    forall k :: 0 <= k < |events| ==> Lookup(states[s], events[k], Tautology).None?
  }

  predicate EventsMatchedTo(states: Table, s: nat, events: seq<Event>, d: nat)
    requires s < |states|
  {
    forall k :: 0 <= k < |events| ==>
      Lookup(states[s], events[k], Tautology).Some? && Lookup(states[s], events[k], Tautology).value.dst == d
  }

  /**
   * The verdict on one scenario position: no event has a transition, all of
   * them have one into the same state, or a conflict.
   */
  function EventsVerdict(states: Table, s: nat, events: seq<Event>): GroupVerdict
    requires s < |states|
  {
    if EventsUnmatched(states, s, events) then Unmatched
    else match Lookup(states[s], events[0], Tautology)
      case Some(t) => if EventsMatchedTo(states, s, events, t.dst) then MatchedTo(t.dst) else Conflict
      case None => Conflict
  }

  /** A conflict is exactly a position that is neither unmatched nor matched into a single state. */
  lemma EventsVerdictConflict(states: Table, s: nat, events: seq<Event>)
    requires s < |states|
    ensures EventsVerdict(states, s, events).Conflict? <==>
      !EventsUnmatched(states, s, events) && forall d :: !EventsMatchedTo(states, s, events, d)
    ensures EventsVerdict(states, s, events).MatchedTo? ==>
      EventsMatchedTo(states, s, events, EventsVerdict(states, s, events).dst) && |events| >= 1
  {
    if !EventsUnmatched(states, s, events) && exists d :: EventsMatchedTo(states, s, events, d) {
      var d :| EventsMatchedTo(states, s, events, d);
      assert Lookup(states[s], events[0], Tautology).Some?;
    }
  }

  method ClassifyEvents(states: Table, s: nat, events: seq<Event>) returns (v: GroupVerdict)
    requires s < |states|
    ensures v == EventsVerdict(states, s, events)
  {
    var found: seq<Option<MealyTransition>> := [];
    var wasNull := false;
    var wasProper := false;
    var k := 0;
    while k < |events|
      invariant 0 <= k <= |events| && |found| == k
      invariant forall x :: 0 <= x < k ==> found[x] == Lookup(states[s], events[x], Tautology)
      invariant wasNull <==> exists x :: 0 <= x < k && found[x].None?
      invariant wasProper <==> exists x :: 0 <= x < k && found[x].Some?
    {
      var autoT := Lookup(states[s], events[k], Tautology);
      wasNull := wasNull || autoT.None?;
      wasProper := wasProper || autoT.Some?;
      found := found + [autoT];
      k := k + 1;
    }
    if wasNull && wasProper {
      return Conflict;
    } else if wasProper {
      var autoDst := found[0].value.dst;
      if exists x :: 0 <= x < |events| && found[x].value.dst != autoDst {
        return Conflict;
      }
      return MatchedTo(autoDst);
    } else {
      return Unmatched;
    }
  }
}
