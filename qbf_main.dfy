/**
 * Two helpers of the QBF builder's launcher: the names of the input events
 * and output actions it hands to the synthesizer, and the check that a
 * synthesized automaton's states are numbered in breadth-first order.
 */
module QbfBuilder {
  import opened Common
  import opened Strings

  // ---------------------------------------------------------------------
  // Event and action names

  /** j >> pos for non-negative j: pos halvings. */
  function Shr(j: nat, pos: nat): nat
  {
    if pos == 0 then j else Shr(j / 2, pos - 1)
  }

  function BitChar(x: nat): char
  {
    if x % 2 == 1 then '1' else '0'
  }

  /** The variable-value suffix of an event: character pos is (j >> pos) & 1. */
  function Bits(j: nat, varNumber: nat): (s: string)
    ensures |s| == varNumber
  {
    if varNumber == 0 then "" else [BitChar(j)] + Bits(j / 2, varNumber - 1)
  }

  /** One more variable appends the next higher bit. */
  lemma {:induction false} BitsSnoc(j: nat, pos: nat)
    ensures Bits(j, pos + 1) == Bits(j, pos) + [BitChar(Shr(j, pos))]
  {
    if pos > 0 {
      BitsSnoc(j / 2, pos - 1);
    }
  }

  /** The name of event letter i with variable values j: the letter 'A' + i, then the bits. */
  function EventName(i: nat, j: nat, varNumber: nat): (s: string)
    requires 'A' as int + i < 0xD800
    ensures |s| == varNumber + 1 && s[0] == ('A' as int + i) as char && s[1..] == Bits(j, varNumber)
  {
    [('A' as int + i) as char] + Bits(j, varNumber)
  }

  /** The number a bit string stands for, least significant bit first. */
  function BitsValue(s: string): nat
  {
    if s == [] then 0 else (if s[0] == '1' then 1 else 0) + 2 * BitsValue(s[1..])
  }

  /** Reading the bits back gives j whenever j fits in varNumber bits. */
  lemma {:induction false} BitsRoundTrip(j: nat, varNumber: nat)
    requires j < Pow2(varNumber)
    ensures BitsValue(Bits(j, varNumber)) == j
  {
    if varNumber > 0 {
      BitsRoundTrip(j / 2, varNumber - 1);
      assert Bits(j, varNumber)[1..] == Bits(j / 2, varNumber - 1);
    }
  }

  /** Letter i's block of the event list: its events for the variable values 0 .. count - 1. */
  function Block(i: nat, count: nat, varNumber: nat): (r: seq<string>)
    requires 'A' as int + i < 0xD800
    ensures |r| == count
    ensures forall k :: 0 <= k < count ==> r[k] == EventName(i, k, varNumber)
  {
    if count == 0 then [] else Block(i, count - 1, varNumber) + [EventName(i, count - 1, varNumber)]
  }

  /** The event list for the letters 0 .. n - 1: their blocks one after another. */
  function EventList(n: nat, varNumber: nat): (r: seq<string>)
    requires 'A' as int + n <= 0xD800
    ensures forall k :: 0 <= k < |r| ==> |r[k]| == varNumber + 1 && 'A' as int <= r[k][0] as int < 'A' as int + n
  {
    if n == 0 then [] else EventList(n - 1, varNumber) + Block(n - 1, Pow2(varNumber), varNumber)
  }

  /** The event list has eventNumber * 2^varNumber names. */
  lemma {:induction false} EventListLength(n: nat, varNumber: nat)
    requires 'A' as int + n <= 0xD800
    ensures |EventList(n, varNumber)| == n * Pow2(varNumber)
  {
    if n > 0 {
      EventListLength(n - 1, varNumber);
      assert (n - 1) * Pow2(varNumber) + Pow2(varNumber) == n * Pow2(varNumber);
    }
  }

  /** Within a letter's block every name is different. */
  lemma BlockDistinct(i: nat, varNumber: nat)
    requires 'A' as int + i < 0xD800
    ensures Distinct(Block(i, Pow2(varNumber), varNumber))
  {
    var block := Block(i, Pow2(varNumber), varNumber);
    forall a, b | 0 <= a < b < |block|
      ensures block[a] != block[b]
    {
      if block[a] == block[b] {
        assert Bits(a, varNumber) == block[a][1..] == block[b][1..] == Bits(b, varNumber);
        BitsRoundTrip(a, varNumber);
        BitsRoundTrip(b, varNumber);
      }
    }
  }

  /** The event list names no event twice. */
  lemma {:induction false} EventListDistinct(n: nat, varNumber: nat)
    requires 'A' as int + n <= 0xD800
    ensures Distinct(EventList(n, varNumber))
  {
    if n > 0 {
      EventListDistinct(n - 1, varNumber);
      BlockDistinct(n - 1, varNumber);
      var front := EventList(n - 1, varNumber);
      var block := Block(n - 1, Pow2(varNumber), varNumber);
      var all := front + block;
      forall a, b | 0 <= a < b < |all|
        ensures all[a] != all[b]
      {
        if b < |front| {
          assert all[a] == front[a] && all[b] == front[b];
        } else if a < |front| {
          assert all[a][0] != all[b][0];
        } else {
          assert all[a] == block[a - |front|] && all[b] == block[b - |front|];
        }
      }
    }
  }

  /** The loops building the event list: for each letter, every assignment of the variables. */
  method EventNames(eventNumber: nat, varNumber: nat) returns (events: seq<string>)
    requires 'A' as int + eventNumber <= 0xD800
    ensures events == EventList(eventNumber, varNumber)
  {
    var p := Pow2(varNumber);
    events := [];
    for i := 0 to eventNumber
      invariant events == EventList(i, varNumber)
    {
      var event := [('A' as int + i) as char];
      for j := 0 to p
        invariant events == EventList(i, varNumber) + Block(i, j, varNumber)
      {
        var sb := event;
        for pos := 0 to varNumber
          invariant sb == event + Bits(j, pos)
        {
          BitsSnoc(j, pos);
          sb := sb + [BitChar(Shr(j, pos))];
        }
        events := events + [sb];
      }
    }
  }

  /** The action list z0 .. z(actionNumber - 1). */
  method ActionNames(actionNumber: nat) returns (actions: seq<string>)
    ensures |actions| == actionNumber
    ensures forall i :: 0 <= i < actionNumber ==> actions[i] == "z" + IntToString(i)
    ensures Distinct(actions)
  {
    actions := [];
    for i := 0 to actionNumber
      invariant |actions| == i
      invariant forall k :: 0 <= k < i ==> actions[k] == "z" + IntToString(k)
    {
      actions := actions + ["z" + IntToString(i)];
    }
    forall a, b | 0 <= a < b < |actions|
      ensures actions[a] != actions[b]
    {
      if actions[a] == actions[b] {
        assert actions[a][1..] == IntToString(a);
        assert actions[b][1..] == IntToString(b);
        IntToStringInjective(a, b);
      }
    }
  }

  // ---------------------------------------------------------------------
  // Breadth-first numbering check

  /**
   * The automaton as checkBfs sees it: for each state and each event (in the
   * events list's order), the destination of its tautology-guarded
   * transition, if it has one.
   */
  predicate ValidDelta(delta: seq<seq<Option<nat>>>, eventCount: nat)
  {
    forall s :: 0 <= s < |delta| ==>
      |delta[s]| == eventCount && forall e :: 0 <= e < eventCount && delta[s][e].Some? ==> delta[s][e].value < |delta|
  }

  /** Every dequeued state but the first was found through a transition of an earlier one. */
  ghost predicate BfsTree(delta: seq<seq<Option<nat>>>, order: seq<nat>, parent: seq<nat>, via: seq<nat>)
  {
    |parent| == |order| && |via| == |order| &&
    forall k :: 0 < k < |order| ==>
      parent[k] < k && order[parent[k]] < |delta| && via[k] < |delta[order[parent[k]]]| &&
      delta[order[parent[k]]][via[k]] == Some(order[k])
  }

  /** The transitions of every dequeued state lead to dequeued states. */
  predicate Closed(delta: seq<seq<Option<nat>>>, order: seq<nat>, upTo: nat, eventCount: nat)
    requires ValidDelta(delta, eventCount)
    requires upTo <= |order| && forall k :: 0 <= k < |order| ==> order[k] < |delta|
  {
    forall k, e :: 0 <= k < upTo && 0 <= e < eventCount && delta[order[k]][e].Some? ==> delta[order[k]][e].value in order
  }

  /**
   * The search state: order is every state ever enqueued (the dequeued ones
   * and then the queue), vis the visited array, unvisited the states never
   * enqueued, and parent/via how each state was found.
   */
  ghost predicate BfsState(delta: seq<seq<Option<nat>>>, start: nat, order: seq<nat>, vis: seq<bool>,
                           unvisited: set<nat>, parent: seq<nat>, via: seq<nat>)
  {
    |vis| == |delta| && |order| >= 1 && order[0] == start && Distinct(order) &&
    (forall k :: 0 <= k < |order| ==> order[k] < |delta|) &&
    (forall v :: 0 <= v < |delta| ==> (vis[v] <==> v in order)) &&
    (forall v: nat :: v in unvisited <==> v < |delta| && v !in order) &&
    BfsTree(delta, order, parent, via)
  }

  /**
   * checkBfs: a breadth-first search from the start state over tautology
   * transitions; true iff the states come out of the queue in ascending
   * order. The visited array is set around every enqueue, so each state is
   * dequeued at most once; the dequeued list is returned too.
   */
  method CheckBfs(delta: seq<seq<Option<nat>>>, eventCount: nat, start: nat)
    returns (ok: bool, dequeued: seq<nat>, ghost parent: seq<nat>, ghost via: seq<nat>)
    requires ValidDelta(delta, eventCount) && start < |delta|
    ensures |dequeued| >= 1 && dequeued[0] == start && Distinct(dequeued)
    ensures forall k :: 0 <= k < |dequeued| ==> dequeued[k] < |delta|
    ensures Closed(delta, dequeued, |dequeued|, eventCount)
    ensures BfsTree(delta, dequeued, parent, via)
    ensures ok <==> StrictlyIncreasing(dequeued)
  {
    var n := |delta|;
    var visited := new bool[n](v => false);
    visited[start] := true;
    var order: seq<nat> := [start];
    var head := 0;
    parent, via := [0], [0];
    ghost var unvisited: set<nat> := NodeSet(n) - {start};
    while head < |order|
      invariant BfsState(delta, start, order, visited[..], unvisited, parent, via)
      invariant head <= |order| && Closed(delta, order, head, eventCount)
      decreases unvisited, |order| - head
    {
      head := head + 1;
      order, parent, via, unvisited := ExpandState(delta, eventCount, start, visited, order, parent, via, unvisited,
                                                   head);
    }
    dequeued := order;
    ok := StrictlyIncreasing(dequeued);
  }

  /** The loop over the events for the state just dequeued, order[head - 1]. */
  method ExpandState(delta: seq<seq<Option<nat>>>, eventCount: nat, start: nat, visited: array<bool>,
                     order: seq<nat>, ghost parent: seq<nat>, ghost via: seq<nat>, ghost unvisited: set<nat>,
                     head: nat)
    returns (order': seq<nat>, ghost parent': seq<nat>, ghost via': seq<nat>, ghost unvisited': set<nat>)
    requires ValidDelta(delta, eventCount) && BfsState(delta, start, order, visited[..], unvisited, parent, via)
    requires 1 <= head <= |order| && Closed(delta, order, head - 1, eventCount)
    modifies visited
    ensures BfsState(delta, start, order', visited[..], unvisited', parent', via')
    ensures order <= order' && Closed(delta, order', head, eventCount)
    ensures unvisited' <= unvisited && (|order'| > |order| ==> unvisited' < unvisited)
  {
    var stateNum := order[head - 1];
    order', parent', via', unvisited' := order, parent, via, unvisited;
    for e := 0 to eventCount
      invariant BfsState(delta, start, order', visited[..], unvisited', parent', via')
      invariant order <= order'
      invariant unvisited' <= unvisited && (|order'| > |order| ==> unvisited' < unvisited)
      invariant Closed(delta, order', head - 1, eventCount)
      invariant forall e' :: 0 <= e' < e && delta[stateNum][e'].Some? ==> delta[stateNum][e'].value in order'
    {
      ghost var before := order';
      order', parent', via', unvisited' := VisitEdge(delta, eventCount, start, visited, order', parent', via',
                                                     unvisited', head - 1, e);
      ClosedGrows(delta, before, order', head - 1, eventCount);
      assert forall x :: x in before ==> x in order';
    }
  }

  /** One transition of the dequeued state order[k]: its destination is enqueued unless already visited. */
  method VisitEdge(delta: seq<seq<Option<nat>>>, eventCount: nat, start: nat, visited: array<bool>,
                   order: seq<nat>, ghost parent: seq<nat>, ghost via: seq<nat>, ghost unvisited: set<nat>,
                   k: nat, e: nat)
    returns (order': seq<nat>, ghost parent': seq<nat>, ghost via': seq<nat>, ghost unvisited': set<nat>)
    requires ValidDelta(delta, eventCount) && BfsState(delta, start, order, visited[..], unvisited, parent, via)
    requires k < |order| && e < eventCount
    modifies visited
    ensures BfsState(delta, start, order', visited[..], unvisited', parent', via')
    ensures order <= order' && unvisited' <= unvisited && (|order'| > |order| ==> unvisited' < unvisited)
    ensures delta[order[k]][e].Some? ==> delta[order[k]][e].value in order'
  {
    order', parent', via', unvisited' := order, parent, via, unvisited;
    var t := delta[order[k]][e];
    if t.Some? {
      var dst := t.value;
      if !visited[dst] {
        EnqueueState(delta, start, order, visited[..], unvisited, parent, via, k, e, eventCount);
        order' := order + [dst];
        parent' := parent + [k];
        via' := via + [e];
        unvisited' := unvisited - {dst};
      }
      visited[dst] := true;
      assert visited[..] == old(visited[..])[dst := true];
    }
  }

  /** Closure over a prefix of the enqueued states survives enqueueing more. */
  lemma ClosedGrows(delta: seq<seq<Option<nat>>>, order: seq<nat>, order': seq<nat>, upTo: nat, eventCount: nat)
    requires ValidDelta(delta, eventCount) && order <= order' && upTo <= |order|
    requires forall k :: 0 <= k < |order'| ==> order'[k] < |delta|
    requires Closed(delta, order, upTo, eventCount)
    ensures Closed(delta, order', upTo, eventCount)
  {
    forall k, e | 0 <= k < upTo && 0 <= e < eventCount && delta[order'[k]][e].Some?
      ensures delta[order'[k]][e].value in order'
    {
      assert order'[k] == order[k];
      var i :| 0 <= i < |order| && order[i] == delta[order[k]][e].value;
      assert order'[i] == order[i];
    }
  }

  /** Enqueueing an unvisited successor of a dequeued state keeps the search state. */
  lemma EnqueueState(delta: seq<seq<Option<nat>>>, start: nat, order: seq<nat>, vis: seq<bool>,
                     unvisited: set<nat>, parent: seq<nat>, via: seq<nat>, k: nat, e: nat, eventCount: nat)
    requires ValidDelta(delta, eventCount) && BfsState(delta, start, order, vis, unvisited, parent, via)
    requires k < |order| && e < eventCount && delta[order[k]][e].Some? && !vis[delta[order[k]][e].value]
    ensures var dst := delta[order[k]][e].value;
            BfsState(delta, start, order + [dst], vis[dst := true], unvisited - {dst}, parent + [k], via + [e]) &&
            dst in unvisited
  {
    var dst := delta[order[k]][e].value;
    var order' := order + [dst];
    assert forall v :: v in order' <==> v in order || v == dst;
    assert BfsTree(delta, order', parent + [k], via + [e]) by {
      forall m | 0 < m < |order'|
        ensures (parent + [k])[m] < m
      {
      }
    }
  }
}
