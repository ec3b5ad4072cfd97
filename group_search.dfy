/**
 * The traverse states of the backtracking synthesizer whose frontier is a
 * list of multi-edges (BacktrackingAutomatonBuilder.TraverseStateWithMultiEdges
 * and TraverseStateWithCoverageAndWeakCompleteness). The tree edges out of a
 * node are grouped by the child they lead to; the automaton follows a group
 * when every event of the group has a tautology transition from the state
 * the node is coloured with, all with the group's actions and into the same
 * state. Both classes walk the frontier with the same findNewFrontier, which
 * is therefore defined once here.
 */
module GroupSearch {
  import opened Common
  import opened MealyAutomata
  import opened ScenarioTrees
  import opened Backtracking

  /** A multi-edge: the edges of one node into one child. */
  type Group = seq<TreeEdge>

  // ---------------------------------------------------------------- groups of the tree

  /** g is the group of n's edges into one child: all of n's edges to g[0]'s destination, in order. */
  ghost predicate ChildGroup(tree: ScenarioTree, n: nat, g: Group)
  {
    n < |tree.edges| && |g| >= 1 && g[0] in tree.edges[n] && g == Filter(tree.edges[n], g[0].dst)
  }

  /** g is a group of edges out of some tree node (an element of groupByDst of the node's edges). */
  ghost predicate GroupOk(tree: ScenarioTree, g: Group)
  {
    |g| >= 1 && ChildGroup(tree, g[0].src, g)
  }

  /** Two edges of the group carry the same event. */
  ghost predicate RepeatedEvent(g: Group)
  {
    exists i, j :: 0 <= i < j < |g| && g[i].event == g[j].event
  }

  lemma GroupFacts(tree: ScenarioTree, g: Group)
    requires ValidTree(tree) && GroupOk(tree, g)
    ensures g[0].src < g[0].dst < |tree.edges| && tree.parent[g[0].dst] == g[0].src
  {
    EdgeFacts(tree, g[0]);
  }

  /** The groups of a node's edges are exactly the node's child groups, and lead to distinct children. */
  lemma KidGroups(tree: ScenarioTree, h: nat, kids: seq<Group>)
    requires ValidTree(tree) && h < |tree.edges| && GroupedByDst(tree.edges[h], kids)
    ensures forall k :: 0 <= k < |kids| ==> GroupOk(tree, kids[k]) && kids[k][0].src == h
    ensures GHeads(kids) == Dsts(kids) && Distinct(GHeads(kids))
    ensures forall k :: 0 <= k < |kids| ==> 1 <= GHeads(kids)[k] < |tree.edges| && tree.parent[GHeads(kids)[k]] == h
    ensures forall g: Group :: GroupOk(tree, g) && g[0].src == h ==> g in kids
  {
    var es := tree.edges[h];
    forall k | 0 <= k < |kids| ensures GroupOk(tree, kids[k]) && kids[k][0].src == h {
      var g := kids[k];
      FilterMembers(es, Dsts(kids)[k], g[0]);
      assert g[0] in es;
      EdgeFacts(tree, g[0]);
    }
    forall k | 0 <= k < |kids| ensures 1 <= GHeads(kids)[k] < |tree.edges| && tree.parent[GHeads(kids)[k]] == h {
      EdgeFacts(tree, kids[k][0]);
    }
    forall g: Group | GroupOk(tree, g) && g[0].src == h ensures g in kids {
      GroupsPartition(es, kids, g[0]);
      var k :| 0 <= k < |kids| && g[0] in kids[k];
      assert kids[k] == Filter(es, g[0].dst);
    }
  }

  /** The child node every group leads to. */
  function GHeads(gs: seq<Group>): (r: seq<nat>)
    ensures |r| == |gs| && forall i :: 0 <= i < |gs| ==> r[i] == if |gs[i]| >= 1 then gs[i][0].dst else 0
  {
    seq(|gs|, i requires 0 <= i < |gs| => if |gs[i]| >= 1 then gs[i][0].dst else 0)
  }

  lemma GHeadsAppend(a: seq<Group>, b: seq<Group>)
    ensures GHeads(a + b) == GHeads(a) + GHeads(b)
  {
    assert GHeads(a + b) == GHeads(a) + GHeads(b);
  }

  lemma GHeadsReverse(a: seq<Group>)
    ensures GHeads(Reverse(a)) == Reverse(GHeads(a))
  {
    assert GHeads(Reverse(a)) == Reverse(GHeads(a));
  }

  // ---------------------------------------------------------------- groups and the automaton

  /** The automaton state the group's source node is coloured with. */
  function SourceState(states: Table, col: seq<nat>, g: Group): Option<nat>
  {
    if |g| >= 1 && g[0].src < |col| && col[g[0].src] < |states| then Some(col[g[0].src]) else None
  }

  /** No event of the group has a transition from its source's state. */
  ghost predicate GUnmatched(states: Table, col: seq<nat>, g: Group)
  {
    SourceState(states, col, g).Some? && AllUnmatched(states, SourceState(states, col, g).value, g)
  }

  /** The automaton follows the group with its actions into the state its destination is coloured with. */
  ghost predicate GMatched(states: Table, col: seq<nat>, g: Group)
  {
    SourceState(states, col, g).Some? && g[0].dst < |col| &&
    AllMatchedTo(states, SourceState(states, col, g).value, g, col[g[0].dst])
  }

  /** The automaton follows the group partly, with other actions, or into different states. */
  ghost predicate GConflicts(states: Table, col: seq<nat>, g: Group)
  {
    SourceState(states, col, g).Some? &&
    !AllUnmatched(states, SourceState(states, col, g).value, g) &&
    forall d :: !AllMatchedTo(states, SourceState(states, col, g).value, g, d)
  }

  /** A matched group leads to a state of the automaton. */
  lemma MatchedDst(states: Table, s: nat, g: Group, d: nat)
    requires ValidTable(states) && s < |states| && |g| >= 1 && AllMatchedTo(states, s, g, d)
    ensures d < |states|
  {
    var i := KeyIndex(states[s], g[0].event, Tautology).value;
    assert states[s][i].dst == d;
  }

  // ---------------------------------------------------------------- the worklist walk

  /** A group the walk looks at: an old frontier group or a group out of a node the walk coloured. */
  ghost predicate GReached(tree: ScenarioTree, f0: seq<Group>, written: set<nat>, g: Group)
  {
    GroupOk(tree, g) && (g in f0 || g[0].src in written)
  }

  ghost predicate GNoneMatched(states: Table, col: seq<nat>, gs: seq<Group>)
  {
    forall g: Group :: g in gs ==> GUnmatched(states, col, g)
  }

  ghost predicate GWalkItems(tree: ScenarioTree, c0: set<nat>, f0: seq<Group>, current: seq<Group>,
                             final: seq<Group>, written: set<nat>)
  {
    (forall g: Group :: g in current ==> GroupOk(tree, g) && (g in f0 || g[0].src in written) && g[0].src in c0 + written) &&
    (forall g: Group :: g in final ==> GroupOk(tree, g) && g[0].src in c0 + written)
  }

  ghost predicate GWalkClosed(tree: ScenarioTree, states: Table, col: seq<nat>, f0: seq<Group>,
                              current: seq<Group>, final: seq<Group>, written: set<nat>)
  {
    forall g: Group :: GReached(tree, f0, written, g) ==>
      g in current || g in final || (g[0].dst in written && GMatched(states, col, g))
  }

  /** The invariant of findNewFrontier's walk over groups (see OrdinarySearch.WalkInv). */
  ghost predicate GWalkInv(tree: ScenarioTree, states: Table, c0: set<nat>, f0: seq<Group>, col0: seq<nat>,
                           col: seq<nat>, current: seq<Group>, final: seq<Group>, written: set<nat>)
  {
    (forall g: Group :: g in f0 ==> GroupOk(tree, g) && g[0].src in c0) &&
    GWalkItems(tree, c0, f0, current, final, written) &&
    WalkColors(tree, |states|, c0, col0, col, written) &&
    GNoneMatched(states, col, final) &&
    FrontierShape(tree, GHeads(current + Reverse(final)), c0 + written) &&
    GWalkClosed(tree, states, col, f0, current, final, written)
  }

  lemma GWalkStart(tree: ScenarioTree, states: Table, c0: set<nat>, f0: seq<Group>, col0: seq<nat>)
    requires Coloring(tree, |states|, col0)
    requires forall g: Group :: g in f0 ==> GroupOk(tree, g) && g[0].src in c0
    requires FrontierShape(tree, GHeads(f0), c0)
    ensures GWalkInv(tree, states, c0, f0, col0, col0, f0, [], {})
  {
    assert f0 + Reverse<seq<TreeEdge>>([]) == f0;
  }

  /** Popping a group the automaton does not follow at all moves it to the final frontier. */
  lemma GWalkUnmatched(tree: ScenarioTree, states: Table, c0: set<nat>, f0: seq<Group>, col0: seq<nat>,
                       col: seq<nat>, rest: seq<Group>, g: Group, final: seq<Group>, written: set<nat>)
    requires GWalkInv(tree, states, c0, f0, col0, col, rest + [g], final, written)
    requires GUnmatched(states, col, g)
    ensures GWalkInv(tree, states, c0, f0, col0, col, rest, final + [g], written)
  {
    ReverseAppendOne(final, g);
    assert rest + Reverse(final + [g]) == rest + [g] + Reverse(final);
    assert g in rest + [g];
    forall x: Group | x in rest ensures x in rest + [g] {
    }
  }

  /**
   * Popping a group the automaton follows into state d colours the group's
   * child with d and replaces the group on the worklist by the child's groups.
   */
  lemma GWalkMatched(tree: ScenarioTree, states: Table, c0: set<nat>, f0: seq<Group>, col0: seq<nat>,
                     col: seq<nat>, rest: seq<Group>, g: Group, final: seq<Group>,
                     written: set<nat>, d: nat, kids: seq<Group>)
    requires ValidTree(tree) && GWalkInv(tree, states, c0, f0, col0, col, rest + [g], final, written)
    requires SourceState(states, col, g).Some? && AllMatchedTo(states, SourceState(states, col, g).value, g, d)
    requires d < |states| && |g| >= 1 && g[0].dst < |tree.edges| && GroupedByDst(tree.edges[g[0].dst], kids)
    ensures g[0].dst !in c0 + written && g[0].dst < |col|
    ensures GWalkInv(tree, states, c0, f0, col0, col[g[0].dst := d], rest + kids, final, written + {g[0].dst})
  {
    var h := g[0].dst;
    assert g in rest + [g];
    GroupFacts(tree, g);
    KidGroups(tree, h, kids);
    GShapeMatched(tree, rest, g, Reverse(final), c0 + written, kids);
    assert c0 + (written + {h}) == c0 + written + {h};
    GItemsMatched(tree, c0, f0, rest, g, final, written, kids);
    ColorsMatched(tree, |states|, c0, col0, col, written, h, d);
    GUnmatchedMatched(states, c0, col, final, written, h, d);
    GClosedMatched(tree, states, c0, f0, col, rest, g, final, written, d, kids);
  }

  lemma GShapeMatched(tree: ScenarioTree, rest: seq<Group>, g: Group, back: seq<Group>,
                      colored: set<nat>, kids: seq<Group>)
    requires ValidTree(tree) && |g| >= 1 && g[0].dst < |tree.edges|
    requires FrontierShape(tree, GHeads(rest + [g] + back), colored)
    requires Distinct(GHeads(kids))
    requires forall k :: 0 <= k < |kids| ==> 1 <= GHeads(kids)[k] < |tree.edges| && tree.parent[GHeads(kids)[k]] == g[0].dst
    ensures g[0].dst !in colored
    ensures FrontierShape(tree, GHeads(rest + kids + back), colored + {g[0].dst})
  {
    GHeadsAppend(rest, [g]);
    GHeadsAppend(rest + [g], back);
    GHeadsAppend(rest, kids);
    GHeadsAppend(rest + kids, back);
    assert GHeads(rest + [g] + back) == GHeads(rest) + [g[0].dst] + GHeads(back);
    ShapeExpand(tree, GHeads(rest), g[0].dst, GHeads(back), GHeads(kids), colored);
  }

  lemma GItemsMatched(tree: ScenarioTree, c0: set<nat>, f0: seq<Group>, rest: seq<Group>, g: Group,
                      final: seq<Group>, written: set<nat>, kids: seq<Group>)
    requires GWalkItems(tree, c0, f0, rest + [g], final, written) && |g| >= 1
    requires forall k :: 0 <= k < |kids| ==> GroupOk(tree, kids[k]) && kids[k][0].src == g[0].dst
    ensures GWalkItems(tree, c0, f0, rest + kids, final, written + {g[0].dst})
  {
    var h := g[0].dst;
    forall x: Group | x in rest + kids
      ensures GroupOk(tree, x) && (x in f0 || x[0].src in written + {h}) && x[0].src in c0 + (written + {h})
    {
      if x in kids {
        var k :| 0 <= k < |kids| && kids[k] == x;
      } else {
        assert x in rest + [g];
      }
    }
  }

  lemma GUnmatchedMatched(states: Table, c0: set<nat>, col: seq<nat>, final: seq<Group>,
                          written: set<nat>, h: nat, v: nat)
    requires GNoneMatched(states, col, final) && h < |col|
    requires forall g: Group :: g in final ==> |g| >= 1 && g[0].src in c0 + written
    requires h !in c0 + written
    ensures GNoneMatched(states, col[h := v], final)
  {
    forall g: Group | g in final ensures GUnmatched(states, col[h := v], g) {
      assert SourceState(states, col[h := v], g) == SourceState(states, col, g);
    }
  }

  lemma GClosedMatched(tree: ScenarioTree, states: Table, c0: set<nat>, f0: seq<Group>, col: seq<nat>,
                       rest: seq<Group>, g: Group, final: seq<Group>, written: set<nat>,
                       d: nat, kids: seq<Group>)
    requires GWalkClosed(tree, states, col, f0, rest + [g], final, written)
    requires forall x: Group :: x in f0 ==> GroupOk(tree, x) && x[0].src in c0
    requires |g| >= 1 && g[0].src in c0 + written && g[0].dst !in c0 + written && g[0].dst < |col|
    requires SourceState(states, col, g).Some? && AllMatchedTo(states, SourceState(states, col, g).value, g, d)
    requires forall x: Group :: GroupOk(tree, x) && x[0].src == g[0].dst ==> x in kids
    ensures GWalkClosed(tree, states, col[g[0].dst := d], f0, rest + kids, final, written + {g[0].dst})
  {
    var h := g[0].dst;
    var col' := col[h := d];
    forall x: Group | GReached(tree, f0, written + {h}, x)
      ensures x in rest + kids || x in final || (x[0].dst in written + {h} && GMatched(states, col', x))
    {
      if x == g {
        assert SourceState(states, col', x) == SourceState(states, col, x);
      } else if x[0].src == h {
      } else if x in rest + [g] {
        assert x in rest;
      } else if x !in final {
        assert GReached(tree, f0, written, x);
        assert x[0].src in c0 + written;
        assert SourceState(states, col', x) == SourceState(states, col, x);
      }
    }
  }

  /** When the worklist is empty, the final frontier has the frontier shape. */
  lemma GWalkDone(tree: ScenarioTree, states: Table, c0: set<nat>, f0: seq<Group>, col0: seq<nat>,
                  col: seq<nat>, final: seq<Group>, written: set<nat>)
    requires ValidTree(tree) && GWalkInv(tree, states, c0, f0, col0, col, [], final, written)
    ensures FrontierShape(tree, GHeads(final), c0 + written)
  {
    assert [] + Reverse(final) == Reverse(final);
    GHeadsReverse(final);
    ShapeReverse(tree, Reverse(GHeads(final)), c0 + written);
    ReverseReverse(GHeads(final));
  }

  /** The start of a search: states without transitions, all nodes coloured 0, the root's groups as frontier. */
  lemma GInitial(tree: ScenarioTree, states: Table, col: seq<nat>, groups: seq<Group>)
    requires ValidTree(tree) && GroupedByDst(tree.edges[0], groups)
    requires |states| >= 1 && forall s :: 0 <= s < |states| ==> states[s] == []
    requires |col| == |tree.edges| && forall n :: 0 <= n < |col| ==> col[n] == 0
    ensures GSearchInv(tree, |states|, col, groups, {0}) && GNoneMatched(states, col, groups)
  {
    GRootSearchInv(tree, |states|, col, groups);
    forall g: Group | g in groups ensures GUnmatched(states, col, g) {
      assert states[col[g[0].src]] == [];
    }
  }

  // ---------------------------------------------------------------- findNewFrontier

  /** The search state invariant that does not depend on the transitions (see OrdinarySearch.SearchInv). */
  ghost predicate GSearchInv(tree: ScenarioTree, size: nat, col: seq<nat>, frontier: seq<Group>, colored: set<nat>)
  {
    ValidTree(tree) &&
    Coloring(tree, size, col) &&
    (forall x :: x in colored ==> x < |tree.edges|) &&
    (forall g: Group :: g in frontier ==> GroupOk(tree, g) && g[0].src in colored) &&
    FrontierShape(tree, GHeads(frontier), colored)
  }

  /** Recolouring nodes outside `colored` keeps the invariant and leaves the frontier unmatched. */
  lemma GRecolor(tree: ScenarioTree, states: Table, col: seq<nat>, col': seq<nat>, frontier: seq<Group>, colored: set<nat>)
    requires GSearchInv(tree, |states|, col, frontier, colored) && GNoneMatched(states, col, frontier)
    requires Coloring(tree, |states|, col') && forall n :: n in colored ==> col'[n] == col[n]
    ensures GSearchInv(tree, |states|, col', frontier, colored) && GNoneMatched(states, col', frontier)
  {
    forall g: Group | g in frontier ensures GUnmatched(states, col', g) {
      assert SourceState(states, col', g) == SourceState(states, col, g);
    }
  }

  /**
   * The coloured nodes hold the root, coloured 0, and every group out of a
   * coloured node is on the frontier or followed by the automaton into a coloured node.
   */
  ghost predicate GCovered(tree: ScenarioTree, states: Table, col: seq<nat>, frontier: seq<Group>, colored: set<nat>)
  {
    0 in colored && |col| >= 1 && col[0] == 0 &&
    forall g: Group :: GroupOk(tree, g) && g[0].src in colored ==>
      g in frontier || (g[0].dst in colored && GMatched(states, col, g))
  }

  /**
   * The automaton is consistent with the tree under the colouring col: the
   * nodes in `colored` hold the root, which is coloured with the start state
   * 0, and are closed under tree edges, and the automaton follows every group
   * out of them, each event by a tautology transition with the group's actions into the state of the child.
   */
  ghost predicate GConsistent(tree: ScenarioTree, states: Table, col: seq<nat>, colored: set<nat>)
  {
    0 in colored && |col| >= 1 && col[0] == 0 &&
    forall g: Group :: GroupOk(tree, g) && g[0].src in colored ==> g[0].dst in colored && GMatched(states, col, g)
  }

  /** With an empty frontier, the covered part of the tree is all followed. */
  lemma GCoveredDone(tree: ScenarioTree, states: Table, col: seq<nat>, colored: set<nat>)
    requires GCovered(tree, states, col, [], colored)
    ensures GConsistent(tree, states, col, colored)
  {
  }

  /** Every group of the root is on the root's frontier. */
  lemma GCoveredStart(tree: ScenarioTree, states: Table, col: seq<nat>, groups: seq<Group>)
    requires ValidTree(tree) && GroupedByDst(tree.edges[0], groups) && |col| >= 1 && col[0] == 0
    ensures GCovered(tree, states, col, groups, {0})
  {
    KidGroups(tree, 0, groups);
  }

  /** findNewFrontier keeps the covered part: the walk's new frontier and colours cover what the old frontier did. */
  lemma GCoveredWalk(tree: ScenarioTree, states: Table, col0: seq<nat>, col: seq<nat>, f0: seq<Group>, c0: set<nat>,
                     final: seq<Group>, written: set<nat>)
    requires GCovered(tree, states, col0, f0, c0)
    requires written !! c0 && |col| == |col0|
    requires forall n :: 0 <= n < |col| && n !in written ==> col[n] == col0[n]
    requires forall g: Group :: GReached(tree, f0, written, g) ==>
               g in final || (g[0].dst in written && GMatched(states, col, g))
    ensures GCovered(tree, states, col, final, c0 + written)
  {
    forall g: Group | GroupOk(tree, g) && g[0].src in c0 + written
      ensures g in final || (g[0].dst in c0 + written && GMatched(states, col, g))
    {
      if !GReached(tree, f0, written, g) {
        assert SourceState(states, col, g) == SourceState(states, col0, g);
      }
    }
  }

  /** The transitions of a group none of whose events the source state had leave every followed group followed. */
  lemma GCoveredAdd(tree: ScenarioTree, states: Table, col: seq<nat>, frontier: seq<Group>, colored: set<nat>,
                    s: nat, g: Group, dst: nat)
    requires GCovered(tree, states, col, frontier, colored)
    requires s < |states| && UniqueKeys(states[s]) && |g| >= 1 && AllUnmatched(states, s, g)
    ensures GCovered(tree, states[s := PutAll(states[s], Added(g, dst))], col, frontier, colored)
  {
    var states' := states[s := PutAll(states[s], Added(g, dst))];
    forall h: Group | GMatched(states, col, h)
      ensures GMatched(states', col, h)
    {
      var src := SourceState(states, col, h).value;
      if src == s {
        forall k | 0 <= k < |h|
          ensures Lookup(states'[s], h[k].event, Tautology) == Lookup(states[s], h[k].event, Tautology)
        {
          PutAllLookupOther(states[s], Added(g, dst), h[k].event, Tautology);
        }
      }
    }
  }

  /** Recolouring nodes outside `colored` keeps the covered part. */
  lemma GCoveredRecolor(tree: ScenarioTree, states: Table, col: seq<nat>, col': seq<nat>, frontier: seq<Group>,
                        colored: set<nat>)
    requires GCovered(tree, states, col, frontier, colored) && |col'| == |col|
    requires forall n :: n in colored ==> n < |col| && col'[n] == col[n]
    ensures GCovered(tree, states, col', frontier, colored)
  {
    forall g: Group | GroupOk(tree, g) && g[0].src in colored && g[0].dst in colored && GMatched(states, col, g)
      ensures GMatched(states, col', g)
    {
      assert SourceState(states, col', g) == SourceState(states, col, g);
    }
  }

  /** The search starts from the groups of the root's edges with only the root coloured. */
  lemma GRootSearchInv(tree: ScenarioTree, size: nat, col: seq<nat>, groups: seq<Group>)
    requires ValidTree(tree) && Coloring(tree, size, col) && GroupedByDst(tree.edges[0], groups)
    ensures GSearchInv(tree, size, col, groups, {0})
  {
    KidGroups(tree, 0, groups);
    RootFrontierShape(tree, GHeads(groups));
    forall g: Group | g in groups ensures GroupOk(tree, g) && g[0].src in {0} {
      var k :| 0 <= k < |groups| && groups[k] == g;
    }
  }

  /**
   * findNewFrontier of both multi-edge traverse states: walks from the
   * frontier along the groups the automaton follows, colouring their
   * children; fails on a group that conflicts, otherwise returns the groups
   * it cannot follow as the new frontier.
   */
  method FindGroupFrontier(tree: ScenarioTree, automaton: MealyAutomaton, coloring: array<nat>,
                           frontier: seq<Group>, ghost colored: set<nat>)
    returns (ok: bool, newFrontier: seq<Group>, ghost written: set<nat>)
    requires automaton.Valid() && GSearchInv(tree, |automaton.states|, coloring[..], frontier, colored)
    modifies coloring
    ensures GSearchInv(tree, |automaton.states|, coloring[..], frontier, colored)
    ensures written !! colored && forall d :: d in written ==> d < coloring.Length
    ensures forall n :: 0 <= n < coloring.Length && n !in written ==> coloring[n] == old(coloring[n])
    ensures !ok ==> exists g: Group :: GReached(tree, frontier, written, g) && GConflicts(automaton.states, coloring[..], g)
    ensures ok ==> GSearchInv(tree, |automaton.states|, coloring[..], newFrontier, colored + written)
    ensures ok ==> GNoneMatched(automaton.states, coloring[..], newFrontier)
    ensures ok ==> forall g: Group :: GReached(tree, frontier, written, g) ==>
                     g in newFrontier || (g[0].dst in written && GMatched(automaton.states, coloring[..], g))
  {
    ghost var col0 := coloring[..];
    var final: seq<Group> := [];
    var current := frontier;
    written := {};
    GWalkStart(tree, automaton.states, colored, frontier, col0);
    while current != []
      invariant coloring.Length == |col0|
      invariant GWalkInv(tree, automaton.states, colored, frontier, col0, coloring[..], current, final, written)
      decreases (set x | 0 <= x < |tree.edges| && x !in written), |current|
    {
      ghost var g := current[|current| - 1];
      var conflict;
      conflict, current, final, written :=
        GroupFrontierStep(tree, automaton, coloring, frontier, colored, col0, current, final, written);
      if conflict {
        assert GReached(tree, frontier, written, g) && GConflicts(automaton.states, coloring[..], g);
        return false, [], written;
      }
    }
    GWalkDone(tree, automaton.states, colored, frontier, col0, coloring[..], final, written);
    return true, final, written;
  }

  /**
   * One round of the loop of findNewFrontier: pops the last group of
   * current and either reports a conflict, moves the group to the final
   * frontier, or colours its child node and pushes the child's groups.
   */
  method GroupFrontierStep(tree: ScenarioTree, automaton: MealyAutomaton, coloring: array<nat>,
                           ghost frontier: seq<Group>, ghost colored: set<nat>, ghost col0: seq<nat>,
                           current: seq<Group>, final: seq<Group>, ghost written: set<nat>)
    returns (conflict: bool, current': seq<Group>, final': seq<Group>, ghost written': set<nat>)
    requires automaton.Valid() && ValidTree(tree) && coloring.Length == |col0| && current != []
    requires GWalkInv(tree, automaton.states, colored, frontier, col0, coloring[..], current, final, written)
    modifies coloring
    ensures conflict ==> written' == written && coloring[..] == old(coloring[..])
    ensures conflict ==> GReached(tree, frontier, written, current[|current| - 1])
    ensures conflict ==> GConflicts(automaton.states, coloring[..], current[|current| - 1])
    ensures !conflict ==> GWalkInv(tree, automaton.states, colored, frontier, col0, coloring[..], current', final', written')
    ensures !conflict ==> (
      (written' == written && |current'| < |current|) ||
      (set x | 0 <= x < |tree.edges| && x !in written') < (set x | 0 <= x < |tree.edges| && x !in written))
  {
    var g := current[|current| - 1];
    ghost var rest := current[..|current| - 1];
    assert current == rest + [g];
    assert g in current;
    var stateFrom := coloring[g[0].src];
    var v := ClassifyGroup(automaton.states, stateFrom, g);
    match v
    case Conflict =>
      return true, current, final, written;
    case Unmatched =>
      GWalkUnmatched(tree, automaton.states, colored, frontier, col0, coloring[..], rest, g, final, written);
      return false, current[..|current| - 1], final + [g], written;
    case MatchedTo(d) =>
      MatchedDst(automaton.states, stateFrom, g, d);
      GroupFacts(tree, g);
      var h := g[0].dst;
      var kids := GroupByDst(tree.edges[h]);
      GWalkMatched(tree, automaton.states, colored, frontier, col0, coloring[..], rest, g, final, written, d, kids);
      coloring[h] := d;
      SetShrinks(|tree.edges|, written, h);
      return false, current[..|current| - 1] + kids, final, written + {h};
  }

  // ---------------------------------------------------------------- adding and removing a group's transitions

  /** The transitions backtracking adds for group g into dst: a tautology transition per event, with g[0]'s actions. */
  function Added(g: Group, dst: nat): (r: seq<MealyTransition>)
    requires |g| >= 1
    ensures |r| == |g| && forall k :: 0 <= k < |g| ==> r[k] == MealyTransition(g[k].event, Tautology, g[0].actions, dst)
  {
    seq(|g|, k requires 0 <= k < |g| => MealyTransition(g[k].event, Tautology, g[0].actions, dst))
  }

  /**
   * The loop of backtracking that adds a transition per event of g. With
   * `strict` (the multi-edge state) an event that already has a tautology
   * transition is an AssertionError: as all of g's events were unmatched,
   * this happens exactly when g repeats an event.
   */
  method AddGroup(automaton: MealyAutomaton, s: nat, g: Group, dst: nat, strict: bool) returns (crashed: bool)
    requires automaton.Valid() && s < |automaton.states| && dst < |automaton.states| && |g| >= 1
    requires AllUnmatched(automaton.states, s, g)
    modifies automaton
    ensures crashed <==> strict && RepeatedEvent(g)
    ensures !crashed ==> automaton.Valid()
    ensures !crashed ==> automaton.states == old(automaton.states)[s := PutAll(old(automaton.states)[s], Added(g, dst))]
  {
    ghost var states0 := automaton.states;
    var k := 0;
    while k < |g|
      invariant 0 <= k <= |g|
      invariant automaton.Valid() && automaton.states == states0[s := PutAll(states0[s], Added(g, dst)[..k])]
      invariant strict ==> !RepeatedEvent(g[..k])
    {
      crashed := AddEdge(automaton, states0, s, g, dst, k, strict);
      if crashed {
        return;
      }
      k := k + 1;
    }
    assert Added(g, dst)[..|g|] == Added(g, dst) && g[..|g|] == g;
    crashed := false;
  }

  /** One round of the loop of AddGroup: adds the transition for g[k], or fails on a repeated event. */
  method AddEdge(automaton: MealyAutomaton, ghost states0: Table, s: nat, g: Group, dst: nat, k: nat, strict: bool)
    returns (crashed: bool)
    requires automaton.Valid() && ValidTable(states0) && s < |states0| && dst < |states0| && k < |g|
    requires AllUnmatched(states0, s, g)
    requires automaton.states == states0[s := PutAll(states0[s], Added(g, dst)[..k])]
    requires strict ==> !RepeatedEvent(g[..k])
    modifies automaton
    ensures crashed ==> strict && RepeatedEvent(g)
    ensures !crashed ==> automaton.Valid() && automaton.states == states0[s := PutAll(states0[s], Added(g, dst)[..k + 1])]
    ensures !crashed ==> (strict ==> !RepeatedEvent(g[..k + 1]))
  {
    AddedLookup(states0[s], g, dst, k);
    RepeatedSnoc(g, k);
    if strict && automaton.Transition(s, g[k].event, Tautology).Some? {
      RepeatedPrefix(g, k + 1);
      return true;
    }
    automaton.AddTransition(s, MealyTransition(g[k].event, Tautology, g[0].actions, dst));
    AddedStep(states0[s], g, dst, k);
    return false;
  }

  lemma AddedStep(ts: seq<MealyTransition>, g: Group, dst: nat, k: nat)
    requires UniqueKeys(ts) && k < |g|
    ensures PutAll(ts, Added(g, dst)[..k + 1]) ==
      Put(PutAll(ts, Added(g, dst)[..k]), MealyTransition(g[k].event, Tautology, g[0].actions, dst))
  {
    var added := Added(g, dst);
    assert added[..k + 1] == added[..k] + [added[k]];
    PutAllSnoc(ts, added[..k], added[k]);
  }

  /** The event of g[k] has a transition after adding the first k transitions iff an earlier event equals it. */
  lemma AddedLookup(ts: seq<MealyTransition>, g: Group, dst: nat, k: nat)
    requires UniqueKeys(ts) && k < |g| && Lookup(ts, g[k].event, Tautology).None?
    ensures Lookup(PutAll(ts, Added(g, dst)[..k]), g[k].event, Tautology).Some? <==>
      exists i :: 0 <= i < k && g[i].event == g[k].event
  {
    var L := Added(g, dst)[..k];
    PutAllLookupNone(ts, L, g[k].event, Tautology);
    if KeyIn(L, g[k].event, Tautology) {
      var i :| 0 <= i < |L| && HasKey(L[i], g[k].event, Tautology);
      assert g[i].event == g[k].event;
    }
    if exists i :: 0 <= i < k && g[i].event == g[k].event {
      var i :| 0 <= i < k && g[i].event == g[k].event;
      assert HasKey(L[i], g[k].event, Tautology);
    }
  }

  lemma RepeatedSnoc(g: Group, k: nat)
    requires k < |g|
    ensures RepeatedEvent(g[..k + 1]) <==> RepeatedEvent(g[..k]) || exists i :: 0 <= i < k && g[i].event == g[k].event
  {
    var p, q := g[..k], g[..k + 1];
    if RepeatedEvent(q) && !RepeatedEvent(p) {
      var i, j :| 0 <= i < j < |q| && q[i].event == q[j].event;
      assert j == k && g[i].event == q[i].event;
    }
    if RepeatedEvent(p) {
      var i, j :| 0 <= i < j < |p| && p[i].event == p[j].event;
      assert q[i] == p[i] && q[j] == p[j];
    }
    if exists i :: 0 <= i < k && g[i].event == g[k].event {
      var i :| 0 <= i < k && g[i].event == g[k].event;
      assert q[i] == g[i] && q[k] == g[k];
    }
  }

  lemma RepeatedPrefix(g: Group, k: nat)
    requires k <= |g| && RepeatedEvent(g[..k])
    ensures RepeatedEvent(g)
  {
    var i, j :| 0 <= i < j < k && g[..k][i].event == g[..k][j].event;
    assert g[i] == g[..k][i] && g[j] == g[..k][j];
  }

  /** addedTransitions.forEach(stateFrom::removeTransition): removes the keys of L from state s in order. */
  method RemoveGroup(automaton: MealyAutomaton, s: nat, L: seq<MealyTransition>)
    requires automaton.Valid() && s < |automaton.states|
    modifies automaton
    ensures automaton.Valid() && automaton.states == old(automaton.states)[s := RemoveAll(old(automaton.states)[s], L)]
  {
    ghost var states0 := automaton.states;
    var k := 0;
    while k < |L|
      invariant 0 <= k <= |L|
      invariant automaton.Valid() && automaton.states == states0[s := RemoveAll(states0[s], L[..k])]
    {
      automaton.RemoveTransition(s, L[k]);
      assert L[..k + 1][..k] == L[..k];
      k := k + 1;
    }
    assert L[..|L|] == L;
  }

  /** incomingTransitionNumbers[dst]++ after the group's transitions into dst are added. */
  method CountIncoming(incoming: array<int>, dst: nat, ghost inc0: seq<int>)
    requires dst < incoming.Length && incoming[..] == inc0
    modifies incoming
    ensures incoming[..] == inc0[dst := inc0[dst] + 1]
  {
    incoming[dst] := incoming[dst] + 1;
  }

  /**
   * addedTransitions.forEach(stateFrom::removeTransition) and the decrement
   * of dst's incoming counter, after AddGroup gave the unmatched group g
   * its transitions from s into dst: the automaton is as before.
   */
  method UndoGroup(automaton: MealyAutomaton, incoming: array<int>, s: nat, g: Group, dst: nat,
                   ghost states0: Table, ghost inc0: seq<int>)
    requires automaton.Valid() && ValidTable(states0) && s < |states0| && dst < incoming.Length && |g| >= 1
    requires AllUnmatched(states0, s, g)
    requires automaton.states == states0[s := PutAll(states0[s], Added(g, dst))]
    requires |inc0| == incoming.Length && incoming[..] == inc0[dst := inc0[dst] + 1]
    modifies automaton, incoming
    ensures automaton.Valid() && automaton.states == states0
    ensures incoming[..] == inc0
  {
    RemoveGroup(automaton, s, Added(g, dst));
    AddRemoveGroup(states0, s, g, dst);
    assert automaton.states == states0;
    incoming[dst] := incoming[dst] - 1;
    assert incoming[..] == inc0;
  }

  /** Adding the transitions of an unmatched group and removing them again restores the state. */
  lemma AddRemoveGroup(states: Table, s: nat, g: Group, dst: nat)
    requires ValidTable(states) && s < |states| && |g| >= 1 && AllUnmatched(states, s, g)
    ensures RemoveAll(PutAll(states[s], Added(g, dst)), Added(g, dst)) == states[s]
  {
    PutAllRemoveAll(states[s], Added(g, dst));
  }
}
