/**
 * SimpleVerifier: the explicit-state search for a counterexample in the
 * product of an automaton and a Buchi automaton. A first breadth-first
 * search visits every product node once; at a node whose Buchi component is
 * a finite-counterexample node it records the path there (loop length 0),
 * and from every terminal node it runs a second breadth-first search for a
 * cycle back to that node, recording prefix and loop. The result is the
 * counterexample with the shortest path, then the shortest loop, the
 * earliest among full ties, or the empty path with loop 0 when there is none.
 *
 * The product construction is not part of this model: the product is a
 * finite graph whose nodes are 0 .. n-1, each with its Buchi component, its
 * terminal flag and its outgoing transitions in iteration order. The queue
 * elements with their predecessor links are kept in an arena (a sequence
 * indexed by creation order); the deque is the arena's suffix from `head`,
 * since every element is appended to both at once.
 */
module SimpleVerifier {
  import opened Common

  /**
   * A product transition: the underlying automaton transition, its event
   * (None for a transition without an event) and the target product node.
   */
  datatype Edge = Edge(transition: nat, event: Option<nat>, target: nat)

  datatype ProductGraph = ProductGraph(succ: seq<seq<Edge>>, buchi: seq<nat>, terminal: seq<bool>)

  /** A path and the length of its final loop (0 for a finite counterexample). */
  datatype Counterexample = Counterexample(path: seq<Edge>, loopLength: nat)

  /** A queue element: the transition it arrived by and its predecessor's arena index. */
  datatype QueueElement = QueueElement(trans: Edge, predecessor: Option<nat>)

  predicate ValidGraph(g: ProductGraph)
  {
    |g.buchi| == |g.succ| && |g.terminal| == |g.succ| &&
    forall v, j :: 0 <= v < |g.succ| && 0 <= j < |g.succ[v]| ==> g.succ[v][j].target < |g.succ|
  }

  /** e is an outgoing transition of v that the searches follow (its event is not null). */
  predicate Step(g: ProductGraph, v: nat, e: Edge)
  {
    v < |g.succ| && e in g.succ[v] && e.event.Some?
  }

  /** p leads from v to w along followed transitions. */
  predicate IsPath(g: ProductGraph, v: nat, p: seq<Edge>, w: nat)
  {
    (p == [] ==> v == w) &&
    (p != [] ==>
      Step(g, v, p[0]) && p[|p| - 1].target == w &&
      forall i :: 1 <= i < |p| ==> Step(g, p[i - 1].target, p[i]))
  }

  lemma PathAppend(g: ProductGraph, v: nat, p: seq<Edge>, u: nat, e: Edge)
    requires IsPath(g, v, p, u) && Step(g, u, e)
    ensures IsPath(g, v, p + [e], e.target)
  {
    var q := p + [e];
    forall i | 1 <= i < |q|
      ensures Step(g, q[i - 1].target, q[i])
    {
      if i < |p| {
        assert q[i - 1] == p[i - 1] && q[i] == p[i];
      }
    }
  }

  lemma PathConcat(g: ProductGraph, v: nat, p: seq<Edge>, u: nat, q: seq<Edge>, w: nat)
    requires IsPath(g, v, p, u) && IsPath(g, u, q, w)
    ensures IsPath(g, v, p + q, w)
  {
    if p != [] && q != [] {
      var r := p + q;
      forall i | 1 <= i < |r|
        ensures Step(g, r[i - 1].target, r[i])
      {
        if i < |p| {
          assert r[i - 1] == p[i - 1] && r[i] == p[i];
        } else if i == |p| {
          assert r[i - 1] == p[|p| - 1] && r[i] == q[0];
        } else {
          assert r[i - 1] == q[i - 1 - |p|] && r[i] == q[i - |p|];
        }
      }
    } else if p == [] {
      assert p + q == q;
    } else {
      assert p + q == p;
    }
  }

  /** v lies on a non-empty cycle of followed transitions. */
  ghost predicate OnCycle(g: ProductGraph, v: nat)
  {
    exists p :: p != [] && IsPath(g, v, p, v)
  }

  /**
   * A counterexample through root: a prefix from start to root followed by a
   * non-empty loop from root back to root of loopLength transitions.
   */
  predicate IsLasso(g: ProductGraph, start: nat, c: Counterexample, root: nat)
  {
    1 <= c.loopLength <= |c.path| &&
    IsPath(g, start, c.path[..|c.path| - c.loopLength], root) &&
    IsPath(g, root, c.path[|c.path| - c.loopLength..], root)
  }

  /** The terminal nodes of order that lie on a cycle, in order. */
  ghost function CyclicTerminals(g: ProductGraph, order: seq<nat>): seq<nat>
    requires forall k :: 0 <= k < |order| ==> order[k] < |g.terminal|
  {
    if order == [] then []
    else
      var v := order[|order| - 1];
      CyclicTerminals(g, order[..|order| - 1]) + (if g.terminal[v] && OnCycle(g, v) then [v] else [])
  }

  /**
   * c is the finite counterexample: a path from start to the first node of
   * order whose Buchi component is a finite-counterexample node, loop 0.
   */
  predicate IsFiniteCounterexample(g: ProductGraph, start: nat, finiteNodes: set<nat>, order: seq<nat>, c: Counterexample)
    requires forall k :: 0 <= k < |order| ==> order[k] < |g.buchi|
  {
    c.loopLength == 0 &&
    exists j :: 0 <= j < |order| && g.buchi[order[j]] in finiteNodes && IsPath(g, start, c.path, order[j]) &&
      forall i :: 0 <= i < j ==> g.buchi[order[i]] !in finiteNodes
  }

  /** Some node of order has its Buchi component among the finite-counterexample nodes. */
  predicate ReachesFinite(g: ProductGraph, finiteNodes: set<nat>, order: seq<nat>)
    requires forall k :: 0 <= k < |order| ==> order[k] < |g.buchi|
  {
    exists k :: 0 <= k < |order| && g.buchi[order[k]] in finiteNodes
  }

  // ---------------------------------------------------------------------
  // Queue elements and path reconstruction

  /** The transition-less element every search starts from. */
  function Sentinel(v: nat): QueueElement
  {
    QueueElement(Edge(0, None, v), None)
  }

  /** Every element but the first links to an earlier one by a followed transition. */
  predicate WellLinked(g: ProductGraph, arena: seq<QueueElement>, root: nat)
  {
    |arena| >= 1 && arena[0] == Sentinel(root) &&
    forall k :: 1 <= k < |arena| ==>
      arena[k].predecessor.Some? && arena[k].predecessor.value < k &&
      Step(g, arena[arena[k].predecessor.value].trans.target, arena[k].trans)
  }

  /** The transitions along the predecessor chain of element k, sentinel excluded, oldest first. */
  function PathOf(arena: seq<QueueElement>, k: nat): seq<Edge>
    requires k < |arena|
    decreases k
  {
    match arena[k].predecessor
    case None => []
    case Some(p) => if p < k then PathOf(arena, p) + [arena[k].trans] else []
  }

  lemma {:induction false} PathOfIsPath(g: ProductGraph, arena: seq<QueueElement>, root: nat, k: nat)
    requires WellLinked(g, arena, root) && k < |arena|
    ensures IsPath(g, root, PathOf(arena, k), arena[k].trans.target)
    ensures k > 0 ==> PathOf(arena, k) != []
    decreases k
  {
    if k > 0 {
      var p := arena[k].predecessor.value;
      PathOfIsPath(g, arena, root, p);
      PathAppend(g, root, PathOf(arena, p), arena[p].trans.target, arena[k].trans);
    }
  }

  /**
   * The do-while walk over the predecessor chain of element k, appending
   * each element's transition to path, followed by the removal of the last
   * one appended (the sentinel's).
   */
  method AppendChain(arena: seq<QueueElement>, k: nat, path: seq<Edge>) returns (path': seq<Edge>)
    requires k < |arena|
    ensures path' == path + Reverse(PathOf(arena, k))
  {
    path' := path;
    var elem: nat := k;
    while true
      invariant elem < |arena|
      invariant path' + Reverse(PathOf(arena, elem)) == path + Reverse(PathOf(arena, k))
      decreases elem
    {
      path' := path' + [arena[elem].trans];
      match arena[elem].predecessor {
        case None =>
          break;
        case Some(p) =>
          if p >= elem {
            break;
          }
          ReverseAppendOne(PathOf(arena, p), arena[elem].trans);
          elem := p;
      }
    }
    path' := path'[..|path'| - 1];
  }

  /**
   * The elements enqueued when a node with outgoing transitions succ is
   * expanded from the element at index parent: one per transition with an
   * event, in iteration order.
   */
  function Enqueued(succ: seq<Edge>, parent: nat): (r: seq<QueueElement>)
    ensures forall k :: 0 <= k < |r| ==> r[k].predecessor == Some(parent) && r[k].trans in succ && r[k].trans.event.Some?
  {
    if succ == [] then []
    else
      var e := succ[|succ| - 1];
      Enqueued(succ[..|succ| - 1], parent) + (if e.event.Some? then [QueueElement(e, Some(parent))] else [])
  }

  /** Every transition with an event is enqueued. */
  lemma {:induction false} EnqueuedCovers(succ: seq<Edge>, parent: nat, j: nat)
    requires j < |succ| && succ[j].event.Some?
    ensures exists k :: 0 <= k < |Enqueued(succ, parent)| && Enqueued(succ, parent)[k].trans == succ[j]
  {
    var front := succ[..|succ| - 1];
    var r := Enqueued(succ, parent);
    if j < |succ| - 1 {
      EnqueuedCovers(front, parent, j);
      var k :| 0 <= k < |Enqueued(front, parent)| && Enqueued(front, parent)[k].trans == front[j];
      assert r[k] == Enqueued(front, parent)[k];
    } else {
      assert r[|r| - 1].trans == succ[j];
    }
  }

  /** The loop over a node's transitions that enqueues those with an event. */
  method Expand(succ: seq<Edge>, parent: nat, arena: seq<QueueElement>) returns (arena': seq<QueueElement>)
    ensures arena' == arena + Enqueued(succ, parent)
  {
    arena' := arena;
    for j := 0 to |succ|
      invariant arena' == arena + Enqueued(succ[..j], parent)
    {
      assert succ[..j + 1][..j] == succ[..j];
      if succ[j].event.Some? {
        arena' := arena' + [QueueElement(succ[j], Some(parent))];
      }
    }
    assert succ[..|succ|] == succ;
  }

  lemma ExpandLinked(g: ProductGraph, arena: seq<QueueElement>, root: nat, idx: nat)
    requires WellLinked(g, arena, root) && idx < |arena| && arena[idx].trans.target < |g.succ|
    ensures WellLinked(g, arena + Enqueued(g.succ[arena[idx].trans.target], idx), root)
  {
    var a := arena + Enqueued(g.succ[arena[idx].trans.target], idx);
    forall k | 1 <= k < |a|
      ensures a[k].predecessor.Some? && a[k].predecessor.value < k &&
              Step(g, a[a[k].predecessor.value].trans.target, a[k].trans)
    {
      if k < |arena| {
        assert a[k] == arena[k];
      }
    }
  }

  // ---------------------------------------------------------------------
  // The second search

  /**
   * Every followed transition out of a visited node either leads to a
   * visited node other than root, or to the destination of an element still
   * in the queue.
   */
  ghost predicate Closed(g: ProductGraph, arena: seq<QueueElement>, head: nat, visited: set<nat>, root: nat)
  {
    forall v, j :: v in visited && 0 <= v < |g.succ| && 0 <= j < |g.succ[v]| && g.succ[v][j].event.Some? ==>
      (g.succ[v][j].target in visited && g.succ[v][j].target != root) ||
      exists k :: head <= k < |arena| && arena[k].trans.target == g.succ[v][j].target
  }

  lemma ClosedPop(g: ProductGraph, arena: seq<QueueElement>, head: nat, visited: set<nat>, root: nat)
    requires head < |arena| && Closed(g, arena, head, visited, root)
    requires arena[head].trans.target in visited && arena[head].trans.target != root
    ensures Closed(g, arena, head + 1, visited, root)
  {
  }

  lemma ClosedExpand(g: ProductGraph, arena: seq<QueueElement>, head: nat, visited: set<nat>, root: nat)
    requires ValidGraph(g) && head < |arena| && Closed(g, arena, head, visited, root)
    requires arena[head].trans.target < |g.succ| && arena[head].trans.target !in visited
    requires visited != {} ==> arena[head].trans.target != root
    ensures Closed(g, arena + Enqueued(g.succ[arena[head].trans.target], head), head + 1,
                   visited + {arena[head].trans.target}, root)
  {
    var d := arena[head].trans.target;
    var added := Enqueued(g.succ[d], head);
    var a := arena + added;
    var vis := visited + {d};
    forall v, j | v in vis && 0 <= v < |g.succ| && 0 <= j < |g.succ[v]| && g.succ[v][j].event.Some?
      ensures (g.succ[v][j].target in vis && g.succ[v][j].target != root) ||
              exists k :: head + 1 <= k < |a| && a[k].trans.target == g.succ[v][j].target
    {
      var t := g.succ[v][j].target;
      if v == d {
        EnqueuedCovers(g.succ[d], head, j);
        var k :| 0 <= k < |added| && added[k].trans == g.succ[d][j];
        assert a[|arena| + k] == added[k];
      } else {
        assert v in visited;
        if k :| head <= k < |arena| && arena[k].trans.target == t {
          if k == head {
            assert t in vis && t != root;
          } else {
            assert a[k] == arena[k];
          }
        }
      }
    }
  }

  /** At the end of a closed search no followed path leaves root and returns to it. */
  lemma {:induction false} ClosedNoReturn(g: ProductGraph, visited: set<nat>, root: nat, p: seq<Edge>, n: nat)
    requires root in visited && Closed(g, [], 0, visited, root)
    requires p != [] && Step(g, root, p[0]) && forall i :: 1 <= i < |p| ==> Step(g, p[i - 1].target, p[i])
    requires n < |p|
    ensures p[n].target in visited && p[n].target != root
    decreases n
  {
    var v := if n == 0 then root else p[n - 1].target;
    if n > 0 {
      ClosedNoReturn(g, visited, root, p, n - 1);
    }
    assert Step(g, v, p[n]);
    var j :| 0 <= j < |g.succ[v]| && g.succ[v][j] == p[n];
  }

  lemma NoCycle(g: ProductGraph, visited: set<nat>, root: nat)
    requires root in visited && Closed(g, [], 0, visited, root)
    ensures !OnCycle(g, root)
  {
    if p :| p != [] && IsPath(g, root, p, root) {
      ClosedNoReturn(g, visited, root, p, |p| - 1);
    }
  }

  /**
   * secondBfs: a breadth-first search from root (reached in the first search
   * by the element at parentIdx of parentArena) that stops at the first
   * dequeued element that reaches root again through a predecessor.
   */
  method SecondBfs(g: ProductGraph, root: nat, parentArena: seq<QueueElement>, parentIdx: nat, ghost start: nat)
    returns (found: Option<Counterexample>)
    requires ValidGraph(g) && root < |g.succ|
    requires WellLinked(g, parentArena, start) && parentIdx < |parentArena|
    requires parentArena[parentIdx].trans.target == root
    ensures found.Some? <==> OnCycle(g, root)
    ensures found.Some? ==> IsLasso(g, start, found.value, root)
  {
    var arena := [Sentinel(root)];
    var head := 0;
    var visited: set<nat> := {};
    while head < |arena|
      invariant WellLinked(g, arena, root) && head <= |arena|
      invariant forall k :: 0 <= k < |arena| ==> arena[k].trans.target < |g.succ|
      invariant forall v :: v in visited ==> v < |g.succ|
      invariant head == 0 <==> visited == {}
      invariant head > 0 ==> root in visited
      invariant Closed(g, arena, head, visited, root)
      decreases NodeSet(|g.succ|) - visited, |arena| - head
    {
      var idx := head;
      var element := arena[idx];
      head := head + 1;
      if element.trans.target in visited {
        if element.trans.target == root && element.predecessor.Some? {
          // found a loop
          var c := LoopCounterexample(g, root, arena, idx, parentArena, parentIdx, start);
          return Some(c);
        }
        ClosedPop(g, arena, idx, visited, root);
      } else {
        ClosedExpand(g, arena, idx, visited, root);
        ExpandLinked(g, arena, root, idx);
        visited := visited + {element.trans.target};
        arena := Expand(g.succ[element.trans.target], idx, arena);
      }
    }
    assert Closed(g, [], 0, visited, root);
    NoCycle(g, visited, root);
    found := None;
  }

  /** The path reconstruction of secondBfs: the loop's chain, then the parent's, reversed. */
  method LoopCounterexample(g: ProductGraph, root: nat, arena: seq<QueueElement>, idx: nat,
                            parentArena: seq<QueueElement>, parentIdx: nat, ghost start: nat)
    returns (c: Counterexample)
    requires WellLinked(g, parentArena, start) && parentIdx < |parentArena|
    requires parentArena[parentIdx].trans.target == root
    requires WellLinked(g, arena, root) && 0 < idx < |arena| && arena[idx].trans.target == root
    ensures IsLasso(g, start, c, root) && OnCycle(g, root)
  {
    var path := AppendChain(arena, idx, []);
    var loopLength := |path|;
    path := AppendChain(parentArena, parentIdx, path);
    path := Reverse(path);
    c := Counterexample(path, loopLength);
    assert [] + Reverse(PathOf(arena, idx)) == Reverse(PathOf(arena, idx));
    LassoFound(g, start, root, parentArena, parentIdx, arena, idx);
  }

  /** The chain walked from the loop's end back, then the parent's, reversed: the prefix, then the loop. */
  lemma ReversedChains(loop: seq<Edge>, prefix: seq<Edge>)
    ensures Reverse(Reverse(loop) + Reverse(prefix)) == prefix + loop
  {
    ReverseConcat(Reverse(loop), Reverse(prefix));
    ReverseReverse(loop);
    ReverseReverse(prefix);
  }

  /** A path from start to root followed by a non-empty cycle through root is a lasso through root. */
  lemma LassoOfPaths(g: ProductGraph, start: nat, root: nat, prefix: seq<Edge>, loop: seq<Edge>)
    requires IsPath(g, start, prefix, root) && IsPath(g, root, loop, root) && loop != []
    ensures IsLasso(g, start, Counterexample(prefix + loop, |loop|), root) && OnCycle(g, root)
  {
    var path := prefix + loop;
    assert path[..|path| - |loop|] == prefix;
    assert path[|path| - |loop|..] == loop;
  }

  lemma LassoFound(g: ProductGraph, start: nat, root: nat, parentArena: seq<QueueElement>, parentIdx: nat,
                   arena: seq<QueueElement>, idx: nat)
    requires WellLinked(g, parentArena, start) && parentIdx < |parentArena|
    requires parentArena[parentIdx].trans.target == root
    requires WellLinked(g, arena, root) && 0 < idx < |arena| && arena[idx].trans.target == root
    ensures var loop := PathOf(arena, idx);
      var c := Counterexample(Reverse(Reverse(loop) + Reverse(PathOf(parentArena, parentIdx))), |loop|);
      IsLasso(g, start, c, root) && OnCycle(g, root)
  {
    var loop := PathOf(arena, idx);
    var prefix := PathOf(parentArena, parentIdx);
    ReversedChains(loop, prefix);
    PathOfIsPath(g, arena, root, idx);
    PathOfIsPath(g, parentArena, start, parentIdx);
    LassoOfPaths(g, start, root, prefix, loop);
  }

  // ---------------------------------------------------------------------
  // Selection of the minimal counterexample

  /** a is shorter than b, or as long with a shorter loop. */
  predicate Better(a: Counterexample, b: Counterexample)
  {
    |a.path| < |b.path| || (|a.path| == |b.path| && a.loopLength < b.loopLength)
  }

  /** cs[i] is minimal and strictly better than every earlier candidate. */
  predicate FirstMinimal(cs: seq<Counterexample>, i: nat)
  {
    i < |cs| &&
    (forall j :: 0 <= j < |cs| ==> !Better(cs[j], cs[i])) &&
    (forall j :: 0 <= j < i ==> Better(cs[i], cs[j]))
  }

  /** The selection loop at the end of bfs. */
  method SelectMinimal(cs: seq<Counterexample>) returns (r: Counterexample)
    ensures cs == [] ==> r == Counterexample([], 0)
    ensures cs != [] ==> exists i: nat :: FirstMinimal(cs, i) && r == cs[i]
  {
    if cs == [] {
      return Counterexample([], 0);
    }
    var minIndex := 0;
    for i := 1 to |cs|
      invariant minIndex < i
      invariant forall j :: 0 <= j < i ==> !Better(cs[j], cs[minIndex])
      invariant forall j :: 0 <= j < minIndex ==> Better(cs[minIndex], cs[j])
    {
      var currentSize := |cs[i].path|;
      var bestSize := |cs[minIndex].path|;
      var currentLoopSize := cs[i].loopLength;
      var bestLoopSize := cs[minIndex].loopLength;
      if currentSize < bestSize || (currentSize == bestSize && currentLoopSize < bestLoopSize) {
        minIndex := i;
      }
    }
    r := cs[minIndex];
    assert FirstMinimal(cs, minIndex);
  }

  // ---------------------------------------------------------------------
  // The first search

  /**
   * verify / bfs: the product graph g with start node start (the product of
   * the initial automaton state and the Buchi start node).
   */
  method Verify(g: ProductGraph, start: nat, finiteNodes: set<nat>)
    returns (r: Counterexample, ghost order: seq<nat>, ghost candidates: seq<Counterexample>)
    requires ValidGraph(g) && start < |g.succ|
    ensures order != [] && order[0] == start && Distinct(order)
    ensures forall k :: 0 <= k < |order| ==> order[k] < |g.succ|
    ensures candidates == [] ==> r == Counterexample([], 0)
    ensures candidates != [] ==> exists i: nat :: FirstMinimal(candidates, i) && r == candidates[i]
    ensures forall v :: v in order <==> Reachable(g, start, v)
    ensures var loops := CyclicTerminals(g, order);
      |candidates| == |loops| + (if ReachesFinite(g, finiteNodes, order) then 1 else 0) &&
      (forall i :: 0 <= i < |loops| ==> IsLasso(g, start, candidates[i], loops[i])) &&
      (ReachesFinite(g, finiteNodes, order) ==>
         IsFiniteCounterexample(g, start, finiteNodes, order, candidates[|candidates| - 1]))
  {
    var arena := [Sentinel(start)];
    var head: nat := 0;
    var visited: set<nat> := {};
    var counterexamples: seq<Counterexample> := [];
    var finiteCounterexample: Option<Counterexample> := None;
    order := [];
    while head < |arena|
      invariant BfsState(g, start, finiteNodes, arena, head, visited, order, counterexamples, finiteCounterexample)
      decreases NodeSet(|g.succ|) - visited, |arena| - head
    {
      arena, head, visited, order, counterexamples, finiteCounterexample :=
        BfsStep(g, start, finiteNodes, arena, head, visited, order, counterexamples, finiteCounterexample);
    }
    BfsDone(g, start, finiteNodes, arena, visited, order, counterexamples, finiteCounterexample);
    if finiteCounterexample.Some? {
      counterexamples := counterexamples + [finiteCounterexample.value];
    }
    candidates := counterexamples;
    r := SelectMinimal(counterexamples);
  }

  /** counterexamples holds one lasso per terminal node of order that lies on a cycle. */
  ghost predicate LoopsFound(g: ProductGraph, start: nat, order: seq<nat>, counterexamples: seq<Counterexample>)
    requires forall k :: 0 <= k < |order| ==> order[k] < |g.terminal|
  {
    var loops := CyclicTerminals(g, order);
    |counterexamples| == |loops| &&
    forall i :: 0 <= i < |loops| ==> IsLasso(g, start, counterexamples[i], loops[i])
  }

  /** finite is set exactly when order reaches a finite-counterexample node, to the path there. */
  predicate FiniteFoundAs(g: ProductGraph, start: nat, finiteNodes: set<nat>, order: seq<nat>,
                          finite: Option<Counterexample>)
    requires forall k :: 0 <= k < |order| ==> order[k] < |g.buchi|
  {
    (finite.Some? <==> ReachesFinite(g, finiteNodes, order)) &&
    (finite.Some? ==> IsFiniteCounterexample(g, start, finiteNodes, order, finite.value))
  }

  /** The queue elements are linked from start and reach product nodes. */
  predicate ArenaOk(g: ProductGraph, start: nat, arena: seq<QueueElement>)
  {
    WellLinked(g, arena, start) && forall k :: 0 <= k < |arena| ==> arena[k].trans.target < |g.succ|
  }

  /** order lists the visited nodes, each once, in visiting order, start first. */
  ghost predicate OrderOk(g: ProductGraph, start: nat, head: nat, visited: set<nat>, order: seq<nat>)
  {
    (forall v :: v in visited <==> v in order) &&
    (forall k :: 0 <= k < |order| ==> order[k] < |g.succ|) &&
    Distinct(order) &&
    (head == 0 ==> order == []) &&
    (head > 0 ==> order != [] && order[0] == start)
  }

  /** v is reached from start along followed transitions. */
  ghost predicate Reachable(g: ProductGraph, start: nat, v: nat)
  {
    exists p :: IsPath(g, start, p, v)
  }

  ghost predicate AllReachable(g: ProductGraph, start: nat, visited: set<nat>)
  {
    forall v :: v in visited ==> Reachable(g, start, v)
  }

  /**
   * Every followed transition out of a visited node leads to a visited node
   * or to the destination of an element still in the queue.
   */
  ghost predicate Explored(g: ProductGraph, arena: seq<QueueElement>, head: nat, visited: set<nat>)
  {
    forall v, j :: v in visited && 0 <= v < |g.succ| && 0 <= j < |g.succ[v]| && g.succ[v][j].event.Some? ==>
      g.succ[v][j].target in visited ||
      exists k :: head <= k < |arena| && arena[k].trans.target == g.succ[v][j].target
  }

  /** The loop invariant of bfs. */
  ghost predicate BfsState(g: ProductGraph, start: nat, finiteNodes: set<nat>, arena: seq<QueueElement>, head: nat,
                           visited: set<nat>, order: seq<nat>, counterexamples: seq<Counterexample>,
                           finite: Option<Counterexample>)
  {
    ValidGraph(g) && start < |g.succ| && head <= |arena| &&
    ArenaOk(g, start, arena) && OrderOk(g, start, head, visited, order) &&
    LoopsFound(g, start, order, counterexamples) &&
    FiniteFoundAs(g, start, finiteNodes, order, finite) &&
    Explored(g, arena, head, visited) && AllReachable(g, start, visited)
  }

  /** One iteration of the bfs loop: dequeue an element and visit its node unless visited. */
  method BfsStep(g: ProductGraph, start: nat, finiteNodes: set<nat>, arena: seq<QueueElement>, head: nat,
                 visited: set<nat>, ghost order: seq<nat>, counterexamples: seq<Counterexample>,
                 finite: Option<Counterexample>)
    returns (arena': seq<QueueElement>, head': nat, visited': set<nat>, ghost order': seq<nat>,
             counterexamples': seq<Counterexample>, finite': Option<Counterexample>)
    requires BfsState(g, start, finiteNodes, arena, head, visited, order, counterexamples, finite)
    requires head < |arena|
    ensures BfsState(g, start, finiteNodes, arena', head', visited', order', counterexamples', finite')
    ensures (visited < visited' && visited' <= NodeSet(|g.succ|)) ||
            (visited' == visited && |arena'| - head' < |arena| - head)
  {
    var idx := head;
    var element := arena[idx];
    head' := head + 1;
    arena', visited', order', counterexamples', finite' := arena, visited, order, counterexamples, finite;
    if element.trans.target !in visited {
      var dest := element.trans.target;
      counterexamples', finite' := Visit(g, start, finiteNodes, arena, idx, order, counterexamples, finite);
      visited' := visited + {dest};
      order' := order + [dest];
      arena' := Expand(g.succ[dest], idx, arena);
      NewNodeState(g, start, finiteNodes, arena, idx, visited, order, counterexamples', finite');
      VisitedGrows(visited, dest, |g.succ|);
    } else {
      SeenNodeState(g, start, finiteNodes, arena, idx, visited, order, counterexamples, finite);
    }
  }

  lemma VisitedGrows(visited: set<nat>, d: nat, n: nat)
    requires d < n && d !in visited && forall v :: v in visited ==> v < n
    ensures visited < visited + {d} && visited + {d} <= NodeSet(n)
  {
  }

  lemma SeenNodeState(g: ProductGraph, start: nat, finiteNodes: set<nat>, arena: seq<QueueElement>, head: nat,
                      visited: set<nat>, order: seq<nat>, counterexamples: seq<Counterexample>,
                      finite: Option<Counterexample>)
    requires BfsState(g, start, finiteNodes, arena, head, visited, order, counterexamples, finite)
    requires head < |arena| && arena[head].trans.target in visited
    ensures BfsState(g, start, finiteNodes, arena, head + 1, visited, order, counterexamples, finite)
  {
    ExploredPop(g, arena, head, visited);
  }

  lemma NewNodeState(g: ProductGraph, start: nat, finiteNodes: set<nat>, arena: seq<QueueElement>, head: nat,
                     visited: set<nat>, order: seq<nat>, counterexamples: seq<Counterexample>,
                     finite: Option<Counterexample>)
    requires ValidGraph(g) && start < |g.succ| && head < |arena|
    requires ArenaOk(g, start, arena) && OrderOk(g, start, head, visited, order)
    requires arena[head].trans.target !in visited
    requires Explored(g, arena, head, visited) && AllReachable(g, start, visited)
    requires LoopsFound(g, start, order + [arena[head].trans.target], counterexamples)
    requires FiniteFoundAs(g, start, finiteNodes, order + [arena[head].trans.target], finite)
    ensures var d := arena[head].trans.target;
      BfsState(g, start, finiteNodes, arena + Enqueued(g.succ[d], head), head + 1, visited + {d}, order + [d],
               counterexamples, finite)
  {
    ArenaExpand(g, start, arena, head);
    OrderVisit(g, start, arena, head, visited, order);
    ExploredExpand(g, arena, head, visited);
    ReachedVisit(g, start, arena, head, visited);
  }

  lemma ReachedVisit(g: ProductGraph, start: nat, arena: seq<QueueElement>, head: nat, visited: set<nat>)
    requires ArenaOk(g, start, arena) && head < |arena| && AllReachable(g, start, visited)
    ensures AllReachable(g, start, visited + {arena[head].trans.target})
  {
    PathOfIsPath(g, arena, start, head);
  }

  lemma ExploredPop(g: ProductGraph, arena: seq<QueueElement>, head: nat, visited: set<nat>)
    requires head < |arena| && Explored(g, arena, head, visited) && arena[head].trans.target in visited
    ensures Explored(g, arena, head + 1, visited)
  {
  }

  lemma ExploredExpand(g: ProductGraph, arena: seq<QueueElement>, head: nat, visited: set<nat>)
    requires ValidGraph(g) && head < |arena| && Explored(g, arena, head, visited)
    requires arena[head].trans.target < |g.succ|
    ensures Explored(g, arena + Enqueued(g.succ[arena[head].trans.target], head), head + 1,
                     visited + {arena[head].trans.target})
  {
    var d := arena[head].trans.target;
    var added := Enqueued(g.succ[d], head);
    var a := arena + added;
    var vis := visited + {d};
    forall v, j | v in vis && 0 <= v < |g.succ| && 0 <= j < |g.succ[v]| && g.succ[v][j].event.Some?
      ensures g.succ[v][j].target in vis || exists k :: head + 1 <= k < |a| && a[k].trans.target == g.succ[v][j].target
    {
      var t := g.succ[v][j].target;
      if v == d {
        EnqueuedCovers(g.succ[d], head, j);
        var k :| 0 <= k < |added| && added[k].trans == g.succ[d][j];
        assert a[|arena| + k] == added[k];
      } else if k :| head <= k < |arena| && arena[k].trans.target == t {
        if k != head {
          assert a[k] == arena[k];
        }
      }
    }
  }

  /** A search that has emptied its queue holds every node a followed path reaches from a visited node. */
  lemma {:induction false} ExploredCovers(g: ProductGraph, arena: seq<QueueElement>, visited: set<nat>, start: nat,
                                          p: seq<Edge>, w: nat)
    requires Explored(g, arena, |arena|, visited) && start in visited && IsPath(g, start, p, w)
    ensures w in visited
    decreases |p|
  {
    if p != [] {
      var q := p[..|p| - 1];
      var u := if q == [] then start else q[|q| - 1].target;
      assert IsPath(g, start, q, u) by {
        assert forall i :: 0 <= i < |q| ==> q[i] == p[i];
      }
      ExploredCovers(g, arena, visited, start, q, u);
      assert Step(g, u, p[|p| - 1]);
      var j :| 0 <= j < |g.succ[u]| && g.succ[u][j] == p[|p| - 1];
    }
  }

  /** At the end of bfs the visited nodes are exactly those reachable from start. */
  lemma BfsDone(g: ProductGraph, start: nat, finiteNodes: set<nat>, arena: seq<QueueElement>,
                visited: set<nat>, order: seq<nat>, counterexamples: seq<Counterexample>, finite: Option<Counterexample>)
    requires BfsState(g, start, finiteNodes, arena, |arena|, visited, order, counterexamples, finite)
    ensures forall v :: v in order <==> Reachable(g, start, v)
  {
    assert start in visited by {
      assert order[0] in order;
    }
    forall v | Reachable(g, start, v)
      ensures v in order
    {
      var p :| IsPath(g, start, p, v);
      ExploredCovers(g, arena, visited, start, p, v);
    }
  }

  lemma ArenaExpand(g: ProductGraph, start: nat, arena: seq<QueueElement>, idx: nat)
    requires ValidGraph(g) && ArenaOk(g, start, arena) && idx < |arena|
    ensures ArenaOk(g, start, arena + Enqueued(g.succ[arena[idx].trans.target], idx))
  {
    var d := arena[idx].trans.target;
    var arena' := arena + Enqueued(g.succ[d], idx);
    ExpandLinked(g, arena, start, idx);
    forall k | 0 <= k < |arena'|
      ensures arena'[k].trans.target < |g.succ|
    {
      if k < |arena| {
        assert arena'[k] == arena[k];
      } else {
        assert arena'[k].trans in g.succ[d];
      }
    }
  }

  lemma OrderVisit(g: ProductGraph, start: nat, arena: seq<QueueElement>, head: nat, visited: set<nat>, order: seq<nat>)
    requires ArenaOk(g, start, arena) && head < |arena| && OrderOk(g, start, head, visited, order)
    requires arena[head].trans.target !in visited
    ensures var d := arena[head].trans.target;
      OrderOk(g, start, head + 1, visited + {d}, order + [d])
  {
    var d := arena[head].trans.target;
    var order' := order + [d];
    assert forall k :: 0 <= k < |order| ==> order'[k] == order[k];
    if head == 0 {
      assert order' == [start];
    }
  }

  /**
   * The first visit of the destination of the element at idx: the finite
   * counterexample check and the second search from a terminal node.
   */
  method Visit(g: ProductGraph, start: nat, finiteNodes: set<nat>, arena: seq<QueueElement>, idx: nat,
               ghost order: seq<nat>, counterexamples: seq<Counterexample>, finite: Option<Counterexample>)
    returns (counterexamples': seq<Counterexample>, finite': Option<Counterexample>)
    requires ValidGraph(g) && WellLinked(g, arena, start) && idx < |arena|
    requires arena[idx].trans.target < |g.succ|
    requires forall k :: 0 <= k < |order| ==> order[k] < |g.succ|
    requires LoopsFound(g, start, order, counterexamples)
    requires FiniteFoundAs(g, start, finiteNodes, order, finite)
    ensures LoopsFound(g, start, order + [arena[idx].trans.target], counterexamples')
    ensures FiniteFoundAs(g, start, finiteNodes, order + [arena[idx].trans.target], finite')
  {
    var dest := arena[idx].trans.target;
    ghost var order' := order + [dest];
    assert order'[..|order'| - 1] == order;
    finite' := finite;
    if finite.None? && g.buchi[dest] in finiteNodes {
      // finite counterexample exists
      var path := AppendChain(arena, idx, []);
      path := Reverse(path);
      finite' := Some(Counterexample(path, 0));
      assert [] + Reverse(PathOf(arena, idx)) == Reverse(PathOf(arena, idx));
      FiniteFound(g, start, finiteNodes, arena, idx, order);
    } else {
      FiniteKept(g, finiteNodes, order, dest);
      if finite.Some? {
        FiniteStays(g, start, finiteNodes, order, dest, finite.value);
      }
    }
    counterexamples' := counterexamples;
    if g.terminal[dest] {
      var found := SecondBfs(g, dest, arena, idx, start);
      if found.Some? {
        counterexamples' := counterexamples + [found.value];
      }
    }
  }

  lemma FiniteFound(g: ProductGraph, start: nat, finiteNodes: set<nat>, arena: seq<QueueElement>, idx: nat,
                    order0: seq<nat>)
    requires WellLinked(g, arena, start) && idx < |arena|
    requires arena[idx].trans.target < |g.succ| && ValidGraph(g)
    requires forall k :: 0 <= k < |order0| ==> order0[k] < |g.succ|
    requires !ReachesFinite(g, finiteNodes, order0) && g.buchi[arena[idx].trans.target] in finiteNodes
    ensures var order := order0 + [arena[idx].trans.target];
      ReachesFinite(g, finiteNodes, order) &&
      IsFiniteCounterexample(g, start, finiteNodes, order,
                             Counterexample(Reverse(Reverse(PathOf(arena, idx))), 0))
  {
    var order := order0 + [arena[idx].trans.target];
    ReverseReverse(PathOf(arena, idx));
    PathOfIsPath(g, arena, start, idx);
    var j := |order0|;
    assert g.buchi[order[j]] in finiteNodes;
    forall i | 0 <= i < j
      ensures g.buchi[order[i]] !in finiteNodes
    {
      assert order[i] == order0[i];
    }
  }

  lemma FiniteKept(g: ProductGraph, finiteNodes: set<nat>, order0: seq<nat>, dest: nat)
    requires ValidGraph(g) && dest < |g.succ|
    requires forall k :: 0 <= k < |order0| ==> order0[k] < |g.succ|
    requires ReachesFinite(g, finiteNodes, order0) || g.buchi[dest] !in finiteNodes
    ensures ReachesFinite(g, finiteNodes, order0 + [dest]) <==> ReachesFinite(g, finiteNodes, order0)
  {
    var order := order0 + [dest];
    if ReachesFinite(g, finiteNodes, order0) {
      var k :| 0 <= k < |order0| && g.buchi[order0[k]] in finiteNodes;
      assert order[k] == order0[k];
    }
    if ReachesFinite(g, finiteNodes, order) {
      var k :| 0 <= k < |order| && g.buchi[order[k]] in finiteNodes;
      if k < |order0| {
        assert order[k] == order0[k];
      }
    }
  }

  lemma FiniteStays(g: ProductGraph, start: nat, finiteNodes: set<nat>, order0: seq<nat>, dest: nat, c: Counterexample)
    requires ValidGraph(g) && dest < |g.succ|
    requires forall k :: 0 <= k < |order0| ==> order0[k] < |g.succ|
    requires IsFiniteCounterexample(g, start, finiteNodes, order0, c)
    ensures IsFiniteCounterexample(g, start, finiteNodes, order0 + [dest], c)
  {
    var order := order0 + [dest];
    var j :| 0 <= j < |order0| && g.buchi[order0[j]] in finiteNodes && IsPath(g, start, c.path, order0[j]) &&
      forall i :: 0 <= i < j ==> g.buchi[order0[i]] !in finiteNodes;
    assert order[j] == order0[j];
    forall i | 0 <= i < j
      ensures g.buchi[order[i]] !in finiteNodes
    {
      assert order[i] == order0[i];
    }
  }
}
