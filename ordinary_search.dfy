/**
 * The ordinary traverse state of the backtracking synthesizer
 * (BacktrackingAutomatonBuilder.OrdinaryTraverseState): tree edges carry
 * their own guards, and the frontier is a list of single tree edges.
 *
 * The frontier always has a tree shape (see ScenarioTrees.FrontierShape)
 * relative to the ghost set `colored` of tree nodes coloured on the current
 * search path; this is what makes the worklist walk terminate and keeps the
 * colours of frontier sources stable while deeper levels recolour nodes.
 */
module OrdinarySearch {
  import opened Common
  import opened MealyAutomata
  import opened ScenarioTrees
  import opened Backtracking

  /** The transition the automaton takes for tree edge e from the state e's source is coloured with. */
  function MeetsAt(states: Table, col: seq<nat>, e: TreeEdge): Option<MealyTransition>
  {
    if e.src < |col| && col[e.src] < |states| then Lookup(states[col[e.src]], e.event, e.guard) else None
  }

  /** The automaton follows e with e's actions, into the state e's destination is coloured with. */
  ghost predicate MatchedEq(states: Table, col: seq<nat>, e: TreeEdge)
  {
    MeetsAt(states, col, e).Some? && MeetsAt(states, col, e).value.actions == e.actions &&
    e.dst < |col| && MeetsAt(states, col, e).value.dst == col[e.dst]
  }

  /** The automaton has a transition for e's event and guard, but with other actions. */
  ghost predicate Conflicts(states: Table, col: seq<nat>, e: TreeEdge)
  {
    MeetsAt(states, col, e).Some? && MeetsAt(states, col, e).value.actions != e.actions
  }

  /** A tree edge the walk looks at: an old frontier edge or an edge out of a node the walk coloured. */
  ghost predicate Reached(tree: ScenarioTree, front: seq<TreeEdge>, written: set<nat>, e: TreeEdge)
  {
    IsEdge(tree, e) && (e in front || e.src in written)
  }

  /** The automaton follows none of the edges es. */
  ghost predicate NoneMatched(states: Table, col: seq<nat>, es: seq<TreeEdge>)
  {
    forall e :: e in es ==> MeetsAt(states, col, e).None?
  }

  /** Worklist and final edges are tree edges out of coloured nodes, and worklist edges are reached. */
  ghost predicate WalkItems(tree: ScenarioTree, c0: set<nat>, f0: seq<TreeEdge>, current: seq<TreeEdge>,
                            final: seq<TreeEdge>, written: set<nat>)
  {
    (forall e :: e in current ==> IsEdge(tree, e) && (e in f0 || e.src in written) && e.src in c0 + written) &&
    (forall e :: e in final ==> IsEdge(tree, e) && e.src in c0 + written)
  }

  /** Every reached edge is on the worklist, on the final frontier, or followed into a node coloured on the way. */
  ghost predicate WalkClosed(tree: ScenarioTree, states: Table, col: seq<nat>, f0: seq<TreeEdge>,
                             current: seq<TreeEdge>, final: seq<TreeEdge>, written: set<nat>)
  {
    forall e :: Reached(tree, f0, written, e) ==>
      e in current || e in final || (e.dst in written && MatchedEq(states, col, e))
  }

  /**
   * The invariant of findNewFrontier's worklist walk, started from frontier
   * f0 and colouring col0 with coloured set c0: `current` is the worklist,
   * `final` the unmatched edges collected so far (in the order found), and
   * `written` the nodes coloured so far.
   */
  ghost predicate WalkInv(tree: ScenarioTree, states: Table, c0: set<nat>, f0: seq<TreeEdge>, col0: seq<nat>,
                          col: seq<nat>, current: seq<TreeEdge>, final: seq<TreeEdge>, written: set<nat>)
  {
    (forall e :: e in f0 ==> IsEdge(tree, e) && e.src in c0) &&
    WalkItems(tree, c0, f0, current, final, written) &&
    WalkColors(tree, |states|, c0, col0, col, written) &&
    NoneMatched(states, col, final) &&
    FrontierShape(tree, Heads(current + Reverse(final)), c0 + written) &&
    WalkClosed(tree, states, col, f0, current, final, written)
  }

  lemma WalkStart(tree: ScenarioTree, states: Table, c0: set<nat>, f0: seq<TreeEdge>, col0: seq<nat>)
    requires Coloring(tree, |states|, col0)
    requires forall e :: e in f0 ==> IsEdge(tree, e) && e.src in c0
    requires FrontierShape(tree, Heads(f0), c0)
    ensures WalkInv(tree, states, c0, f0, col0, col0, f0, [], {})
  {
    assert f0 + Reverse<TreeEdge>([]) == f0;
  }

  /** Popping an edge the automaton cannot follow moves it to the final frontier. */
  lemma WalkUnmatched(tree: ScenarioTree, states: Table, c0: set<nat>, f0: seq<TreeEdge>, col0: seq<nat>,
                      col: seq<nat>, rest: seq<TreeEdge>, t: TreeEdge, final: seq<TreeEdge>, written: set<nat>)
    requires WalkInv(tree, states, c0, f0, col0, col, rest + [t], final, written)
    requires MeetsAt(states, col, t).None?
    ensures WalkInv(tree, states, c0, f0, col0, col, rest, final + [t], written)
  {
    ReverseAppendOne(final, t);
    assert rest + Reverse(final + [t]) == rest + [t] + Reverse(final);
    assert t in rest + [t];
    forall e | e in rest ensures e in rest + [t] {
    }
  }

  /**
   * Popping an edge the automaton follows with the same actions colours its
   * destination and replaces it on the worklist by the destination's edges.
   */
  lemma WalkMatched(tree: ScenarioTree, states: Table, c0: set<nat>, f0: seq<TreeEdge>, col0: seq<nat>,
                    col: seq<nat>, rest: seq<TreeEdge>, t: TreeEdge, final: seq<TreeEdge>, written: set<nat>, m: MealyTransition)
    requires ValidTree(tree) && SingleEdges(tree)
    requires WalkInv(tree, states, c0, f0, col0, col, rest + [t], final, written)
    requires MeetsAt(states, col, t) == Some(m) && m.actions == t.actions && m.dst < |states|
    ensures t.dst !in c0 + written && t.dst < |col|
    ensures WalkInv(tree, states, c0, f0, col0, col[t.dst := m.dst], rest + tree.edges[t.dst], final, written + {t.dst})
  {
    assert t in rest + [t];
    EdgeFacts(tree, t);
    ShapeMatched(tree, rest, t, Reverse(final), c0 + written);
    assert c0 + (written + {t.dst}) == c0 + written + {t.dst};
    ItemsMatched(tree, c0, f0, rest, t, final, written);
    ColorsMatched(tree, |states|, c0, col0, col, written, t.dst, m.dst);
    UnmatchedMatched(tree, states, c0, col, final, written, t.dst, m.dst);
    ClosedMatched(tree, states, c0, f0, col, rest, t, final, written, m);
  }

  lemma ShapeMatched(tree: ScenarioTree, rest: seq<TreeEdge>, t: TreeEdge, back: seq<TreeEdge>, colored: set<nat>)
    requires ValidTree(tree) && SingleEdges(tree) && IsEdge(tree, t)
    requires FrontierShape(tree, Heads(rest + [t] + back), colored)
    ensures t.dst !in colored
    ensures FrontierShape(tree, Heads(rest + tree.edges[t.dst] + back), colored + {t.dst})
  {
    var h := t.dst;
    var kids := tree.edges[h];
    EdgeFacts(tree, t);
    HeadsAppend(rest, [t]);
    HeadsAppend(rest + [t], back);
    HeadsAppend(rest, kids);
    HeadsAppend(rest + kids, back);
    assert Heads(rest + [t] + back) == Heads(rest) + [h] + Heads(back);
    forall i, j | 0 <= i < j < |Heads(kids)| ensures Heads(kids)[i] != Heads(kids)[j] {
    }
    forall k | 0 <= k < |Heads(kids)| ensures 1 <= Heads(kids)[k] < |tree.edges| && tree.parent[Heads(kids)[k]] == h {
      assert kids[k] in tree.edges[h];
    }
    ShapeExpand(tree, Heads(rest), h, Heads(back), Heads(kids), colored);
  }

  lemma ItemsMatched(tree: ScenarioTree, c0: set<nat>, f0: seq<TreeEdge>, rest: seq<TreeEdge>, t: TreeEdge,
                     final: seq<TreeEdge>, written: set<nat>)
    requires ValidTree(tree) && WalkItems(tree, c0, f0, rest + [t], final, written)
    requires t.dst < |tree.edges|
    ensures WalkItems(tree, c0, f0, rest + tree.edges[t.dst], final, written + {t.dst})
  {
    var kids := tree.edges[t.dst];
    forall e | e in rest + kids
      ensures IsEdge(tree, e) && (e in f0 || e.src in written + {t.dst}) && e.src in c0 + (written + {t.dst})
    {
      if e in kids {
        var i :| 0 <= i < |kids| && kids[i] == e;
      } else {
        assert e in rest + [t];
      }
    }
  }

  lemma UnmatchedMatched(tree: ScenarioTree, states: Table, c0: set<nat>, col: seq<nat>, final: seq<TreeEdge>,
                         written: set<nat>, h: nat, v: nat)
    requires NoneMatched(states, col, final) && h < |col|
    requires forall e :: e in final ==> e.src in c0 + written
    requires h !in c0 + written
    ensures NoneMatched(states, col[h := v], final)
  {
    forall e | e in final ensures MeetsAt(states, col[h := v], e).None? {
      assert e.src != h;
    }
  }

  lemma ClosedMatched(tree: ScenarioTree, states: Table, c0: set<nat>, f0: seq<TreeEdge>, col: seq<nat>,
                      rest: seq<TreeEdge>, t: TreeEdge, final: seq<TreeEdge>, written: set<nat>, m: MealyTransition)
    requires WalkClosed(tree, states, col, f0, rest + [t], final, written)
    requires forall e :: e in f0 ==> IsEdge(tree, e) && e.src in c0
    requires t.src in c0 + written && t.dst !in c0 + written && t.dst < |col| && t.dst < |tree.edges|
    requires MeetsAt(states, col, t) == Some(m) && m.actions == t.actions
    ensures WalkClosed(tree, states, col[t.dst := m.dst], f0, rest + tree.edges[t.dst], final, written + {t.dst})
  {
    var h := t.dst;
    var col' := col[h := m.dst];
    forall e | Reached(tree, f0, written + {h}, e)
      ensures e in rest + tree.edges[h] || e in final || (e.dst in written + {h} && MatchedEq(states, col', e))
    {
      if e == t {
        assert MeetsAt(states, col', e) == MeetsAt(states, col, e);
      } else if e.src == h {
        assert e in tree.edges[h];
      } else if e in rest + [t] {
        assert e in rest;
      } else if e !in final {
        assert Reached(tree, f0, written, e);
        assert e.src in c0 + written;
        assert MeetsAt(states, col', e) == MeetsAt(states, col, e);
      }
    }
  }

  /** When the worklist is empty, the final frontier has the frontier shape. */
  lemma WalkDone(tree: ScenarioTree, states: Table, c0: set<nat>, f0: seq<TreeEdge>, col0: seq<nat>,
                 col: seq<nat>, final: seq<TreeEdge>, written: set<nat>)
    requires ValidTree(tree) && WalkInv(tree, states, c0, f0, col0, col, [], final, written)
    ensures FrontierShape(tree, Heads(final), c0 + written)
  {
    assert [] + Reverse(final) == Reverse(final);
    HeadsReverse(final);
    ShapeReverse(tree, Reverse(Heads(final)), c0 + written);
    ReverseReverse(Heads(final));
  }

  /**
   * The part of the search state invariant that does not depend on the
   * automaton's transitions: a colouring with `size` states, and a frontier
   * of tree edges out of coloured nodes with the frontier shape.
   */
  ghost predicate SearchInv(tree: ScenarioTree, size: nat, col: seq<nat>, frontier: seq<TreeEdge>, colored: set<nat>)
  {
    ValidTree(tree) && SingleEdges(tree) &&
    Coloring(tree, size, col) &&
    (forall x :: x in colored ==> x < |tree.edges|) &&
    (forall e :: e in frontier ==> IsEdge(tree, e) && e.src in colored) &&
    FrontierShape(tree, Heads(frontier), colored)
  }

  /** Recolouring nodes outside `colored` keeps the invariant and leaves the frontier unmatched. */
  lemma Recolor(tree: ScenarioTree, states: Table, col: seq<nat>, col': seq<nat>, frontier: seq<TreeEdge>, colored: set<nat>)
    requires SearchInv(tree, |states|, col, frontier, colored) && NoneMatched(states, col, frontier)
    requires Coloring(tree, |states|, col') && forall n :: n in colored ==> col'[n] == col[n]
    ensures SearchInv(tree, |states|, col', frontier, colored) && NoneMatched(states, col', frontier)
  {
    forall e | e in frontier ensures MeetsAt(states, col', e).None? {
      assert MeetsAt(states, col', e) == MeetsAt(states, col, e);
    }
  }

  /**
   * The coloured nodes hold the root, coloured 0, and every tree edge out of
   * a coloured node is on the frontier or followed by the automaton into a coloured node.
   */
  ghost predicate Covered(tree: ScenarioTree, states: Table, col: seq<nat>, frontier: seq<TreeEdge>, colored: set<nat>)
  {
    0 in colored && |col| >= 1 && col[0] == 0 &&
    forall e :: IsEdge(tree, e) && e.src in colored ==> e in frontier || (e.dst in colored && MatchedEq(states, col, e))
  }

  /**
   * The automaton is consistent with the tree under the colouring col: the
   * nodes in `colored` hold the root, which is coloured with the start state
   * 0, and are closed under tree edges, and the automaton follows each of
   * their edges with the edge's actions from the state of its source into
   * the state of its destination.
   */
  ghost predicate Consistent(tree: ScenarioTree, states: Table, col: seq<nat>, colored: set<nat>)
  {
    0 in colored && |col| >= 1 && col[0] == 0 &&
    forall e :: IsEdge(tree, e) && e.src in colored ==> e.dst in colored && MatchedEq(states, col, e)
  }

  /** With an empty frontier, the covered part of the tree is all followed. */
  lemma CoveredDone(tree: ScenarioTree, states: Table, col: seq<nat>, colored: set<nat>)
    requires Covered(tree, states, col, [], colored)
    ensures Consistent(tree, states, col, colored)
  {
  }

  /** Every edge of the root is on the root's frontier. */
  lemma CoveredStart(tree: ScenarioTree, states: Table, col: seq<nat>)
    requires |tree.edges| >= 1 && |col| >= 1 && col[0] == 0
    ensures Covered(tree, states, col, tree.edges[0], {0})
  {
  }

  /** findNewFrontier keeps the covered part: the walk's new frontier and colours cover what the old frontier did. */
  lemma CoveredWalk(tree: ScenarioTree, states: Table, col0: seq<nat>, col: seq<nat>, f0: seq<TreeEdge>, c0: set<nat>,
                    final: seq<TreeEdge>, written: set<nat>)
    requires Covered(tree, states, col0, f0, c0)
    requires written !! c0 && |col| == |col0|
    requires forall n :: 0 <= n < |col| && n !in written ==> col[n] == col0[n]
    requires forall e :: Reached(tree, f0, written, e) ==> e in final || (e.dst in written && MatchedEq(states, col, e))
    ensures Covered(tree, states, col, final, c0 + written)
  {
    forall e | IsEdge(tree, e) && e.src in c0 + written
      ensures e in final || (e.dst in c0 + written && MatchedEq(states, col, e))
    {
      if !Reached(tree, f0, written, e) {
        assert MeetsAt(states, col, e) == MeetsAt(states, col0, e);
      }
    }
  }

  /** A transition for a key the source state had no transition for leaves every followed edge followed. */
  lemma CoveredAdd(tree: ScenarioTree, states: Table, col: seq<nat>, frontier: seq<TreeEdge>, colored: set<nat>,
                   s: nat, t: MealyTransition)
    requires Covered(tree, states, col, frontier, colored)
    requires s < |states| && UniqueKeys(states[s]) && Lookup(states[s], t.event, t.guard).None?
    ensures Covered(tree, states[s := Put(states[s], t)], col, frontier, colored)
  {
    var states' := states[s := Put(states[s], t)];
    forall e | MatchedEq(states, col, e)
      ensures MatchedEq(states', col, e)
    {
      assert MeetsAt(states', col, e) == MeetsAt(states, col, e);
    }
  }

  /** Recolouring nodes outside `colored` keeps the covered part. */
  lemma CoveredRecolor(tree: ScenarioTree, states: Table, col: seq<nat>, col': seq<nat>, frontier: seq<TreeEdge>,
                       colored: set<nat>)
    requires Covered(tree, states, col, frontier, colored) && |col'| == |col|
    requires forall n :: n in colored ==> n < |col| && col'[n] == col[n]
    ensures Covered(tree, states, col', frontier, colored)
  {
    forall e | IsEdge(tree, e) && e.src in colored && e.dst in colored && MatchedEq(states, col, e)
      ensures MatchedEq(states, col', e)
    {
      assert MeetsAt(states, col', e) == MeetsAt(states, col, e);
    }
  }

  /** The search starts from the root's edges with only the root coloured. */
  lemma RootSearchInv(tree: ScenarioTree, size: nat, col: seq<nat>)
    requires ValidTree(tree) && SingleEdges(tree) && Coloring(tree, size, col)
    ensures SearchInv(tree, size, col, tree.edges[0], {0})
  {
    var kids := Heads(tree.edges[0]);
    forall k | 0 <= k < |kids| ensures 1 <= kids[k] < |tree.edges| && tree.parent[kids[k]] == 0 {
      assert tree.edges[0][k] in tree.edges[0];
    }
    RootFrontierShape(tree, kids);
  }

  class OrdinaryTraverseState {
    const tree: ScenarioTree
    const colorSize: nat
    const automaton: MealyAutomaton
    const coloring: array<nat>
    const incoming: array<int>
    /** The LTL verifier (verifier.verify). */
    const verifier: Table -> bool
    /** The automaton completer run on a consistent automaton with an empty frontier. */
    const completer: Table -> Completion
    var frontier: seq<TreeEdge>
    /** Ticks left before the time limit. */
    var clock: nat
    ghost var colored: set<nat>

    /** Everything but the frontier being unmatched. */
    ghost predicate Core()
      reads this, automaton, coloring
    {
      automaton.Valid() && |automaton.states| == (if colorSize == 0 then 1 else colorSize) &&
      incoming.Length == colorSize &&
      SearchInv(tree, |automaton.states|, coloring[..], frontier, colored)
    }

    /** The tree edges out of coloured nodes are on the frontier or followed. */
    ghost predicate Covers()
      reads this, automaton, coloring
    {
      Covered(tree, automaton.states, coloring[..], frontier, colored)
    }

    ghost predicate Valid()
      reads this, automaton, coloring
    {
      Core() && NoneMatched(automaton.states, coloring[..], frontier) && Covers()
    }

    /** The state for a fresh search: an automaton of colorSize states without transitions, the root's edges as frontier. */
    constructor (tree: ScenarioTree, verifier: Table -> bool, completer: Table -> Completion, colorSize: nat, clock: nat)
      requires ValidTree(tree) && SingleEdges(tree)
      ensures Valid()
      ensures this.tree == tree && this.colorSize == colorSize && this.clock == clock
      ensures this.verifier == verifier && this.completer == completer
      ensures frontier == tree.edges[0] && colored == {0}
      ensures forall s :: 0 <= s < |automaton.states| ==> automaton.states[s] == []
      ensures incoming[..] == seq(colorSize, _ => 0)
      ensures coloring[..] == seq(|tree.edges|, _ => 0)
      ensures fresh(automaton) && fresh(coloring) && fresh(incoming)
    {
      this.tree := tree;
      this.colorSize := colorSize;
      this.verifier := verifier;
      this.completer := completer;
      this.clock := clock;
      automaton := new MealyAutomaton(colorSize);
      coloring := new nat[|tree.edges|](_ => 0);
      incoming := new int[colorSize](_ => 0);
      frontier := tree.edges[0];
      colored := {0};
      new;
      RootSearchInv(tree, |automaton.states|, coloring[..]);
      CoveredStart(tree, automaton.states, coloring[..]);
      forall e | e in frontier ensures MeetsAt(automaton.states, coloring[..], e).None? {
        assert automaton.states[coloring[..][e.src]] == [];
      }
    }

    /**
     * findNewFrontier: walks from the frontier along the edges the
     * automaton follows, colouring their destinations; returns false on an
     * edge the automaton follows with other actions, otherwise makes the
     * edges it cannot follow the new frontier.
     */
    method FindNewFrontier() returns (ok: bool, ghost written: set<nat>)
      requires Core()
      modifies this`frontier, this`colored, coloring
      ensures Core()
      ensures written !! old(colored) && forall d :: d in written ==> d < coloring.Length
      ensures forall n :: 0 <= n < coloring.Length && n !in written ==> coloring[n] == old(coloring[n])
      ensures !ok ==> frontier == old(frontier) && colored == old(colored)
      ensures !ok ==> exists e :: Reached(tree, old(frontier), written, e) && Conflicts(automaton.states, coloring[..], e)
      ensures ok ==> colored == old(colored) + written
      ensures ok ==> NoneMatched(automaton.states, coloring[..], frontier)
      ensures ok ==> forall e :: Reached(tree, old(frontier), written, e) ==>
                       e in frontier || (e.dst in written && MatchedEq(automaton.states, coloring[..], e))
    {
      ghost var c0, f0, col0 := colored, frontier, coloring[..];
      var final: seq<TreeEdge> := [];
      var current := frontier;
      written := {};
      WalkStart(tree, automaton.states, c0, f0, col0);
      while current != []
        invariant frontier == f0 && colored == c0 && coloring.Length == |col0|
        invariant WalkInv(tree, automaton.states, c0, f0, col0, coloring[..], current, final, written)
        decreases (set x | 0 <= x < |tree.edges| && x !in written), |current|
      {
        var t := current[|current| - 1];
        ghost var rest := current[..|current| - 1];
        assert current == rest + [t];
        var stateFrom := coloring[t.src];
        var autoT := automaton.Transition(stateFrom, t.event, t.guard);
        assert autoT == MeetsAt(automaton.states, coloring[..], t);
        if autoT.None? {
          WalkUnmatched(tree, automaton.states, c0, f0, col0, coloring[..], rest, t, final, written);
          final := final + [t];
          current := current[..|current| - 1];
        } else if autoT.value.actions == t.actions {
          WalkMatched(tree, automaton.states, c0, f0, col0, coloring[..], rest, t, final, written, autoT.value);
          current := current[..|current| - 1] + tree.edges[t.dst];
          coloring[t.dst] := autoT.value.dst;
          SetShrinks(|tree.edges|, written, t.dst);
          written := written + {t.dst};
        } else {
          assert Reached(tree, f0, written, t);
          assert Conflicts(automaton.states, coloring[..], t);
          return false, written;
        }
      }
      WalkDone(tree, automaton.states, c0, f0, col0, coloring[..], final, written);
      frontier := final;
      colored := c0 + written;
      return true, written;
    }

    /**
     * backtracking: adds a transition for the first frontier edge to every
     * destination the symmetry rule allows, until an automaton is found or
     * time runs out. `tried` is the number of destinations tried.
     */
    method Backtracking() returns (r: Outcome, ghost tried: nat)
      requires Valid() && frontier != []
      modifies this, automaton, coloring, incoming
      ensures clock <= old(clock)
      ensures !r.Crashed?
      ensures r.Found? ==> exists a: Table, col: seq<nat>, c: set<nat> ::
                             Consistent(tree, a, col, c) && verifier(a) && completer(a) == Completed(r.automaton)
      ensures r.Exhausted? ==> Valid() && frontier == old(frontier) && colored == old(colored)
      ensures r.Exhausted? ==> automaton.states == old(automaton.states) && incoming[..] == old(incoming[..])
      ensures r.Exhausted? ==> forall n :: n in colored ==> coloring[n] == old(coloring[n])
      ensures r.Exhausted? ==> tried == SymmetryBound(old(incoming[..]), colorSize)
      decreases clock, 0
    {
      if clock == 0 {
        return TimedOut, 0;
      }
      clock := clock - 1;
      var t := frontier[0];
      assert t in frontier;
      var stateFrom := coloring[t.src];
      // the first frontier edge is not matched yet
      assert automaton.Transition(stateFrom, t.event, t.guard).None?;
      ghost var states0, inc0, col0 := automaton.states, incoming[..], coloring[..];
      ghost var frontier0, colored0 := frontier, colored;
      var dst := 0;
      while dst < colorSize
        invariant 0 <= dst <= colorSize && clock < old(clock)
        invariant Valid() && frontier == frontier0 && colored == colored0
        invariant automaton.states == states0 && incoming[..] == inc0
        invariant forall n :: n in colored0 ==> coloring[n] == col0[n]
        invariant dst <= SymmetryBound(inc0, colorSize)
        decreases colorSize - dst
      {
        if dst > 1 && incoming[dst - 1] == 0 {
          break;
        }
        r := TryDestination(t, stateFrom, dst);
        if !r.Exhausted? {
          return r, dst;
        }
        dst := dst + 1;
      }
      return Exhausted, dst;
    }

    /** One iteration of backtracking's dst loop: add t's transition into dst, search on, remove it. */
    method TryDestination(t: TreeEdge, stateFrom: nat, dst: nat) returns (r: Outcome)
      requires Valid() && t in frontier && stateFrom == coloring[t.src] && dst < colorSize
      modifies this, automaton, coloring, incoming
      ensures clock <= old(clock)
      ensures !r.Crashed?
      ensures r.Found? ==> exists a: Table, col: seq<nat>, c: set<nat> ::
                             Consistent(tree, a, col, c) && verifier(a) && completer(a) == Completed(r.automaton)
      ensures r.Exhausted? ==> Valid() && frontier == old(frontier) && colored == old(colored)
      ensures r.Exhausted? ==> automaton.states == old(automaton.states) && incoming[..] == old(incoming[..])
      ensures r.Exhausted? ==> forall n :: n in colored ==> coloring[n] == old(coloring[n])
      decreases clock, 2
    {
      ghost var states0, col0 := automaton.states, coloring[..];
      assert MeetsAt(states0, col0, t).None?;
      var autoT := MealyTransition(t.event, t.guard, t.actions, dst);
      automaton.AddTransition(stateFrom, autoT);
      CoveredAdd(tree, states0, col0, frontier, colored, stateFrom, autoT);
      incoming[dst] := incoming[dst] + 1;
      r := Descend();
      if !r.Exhausted? {
        return r;
      }
      Undo(stateFrom, autoT, dst, states0);
      assert incoming[..] == old(incoming[..]);
      Recolor(tree, states0, col0, coloring[..], frontier, colored);
      CoveredRecolor(tree, states0, col0, coloring[..], frontier, colored);
    }

    /** Removes the transition added for dst and decrements dst's incoming counter. */
    method Undo(s: nat, autoT: MealyTransition, dst: nat, ghost states0: Table)
      requires automaton.Valid() && s < |states0| && dst < incoming.Length
      requires UniqueKeys(states0[s]) && Lookup(states0[s], autoT.event, autoT.guard).None?
      requires automaton.states == states0[s := Put(states0[s], autoT)]
      modifies automaton, incoming
      ensures automaton.states == states0
      ensures incoming[..] == old(incoming[..])[dst := old(incoming[dst]) - 1]
    {
      automaton.RemoveTransition(s, autoT);
      PutRemoveKey(states0[s], autoT);
      incoming[dst] := incoming[dst] - 1;
    }

    /**
     * The body of the dst loop between adding and removing the transition:
     * recompute the frontier, and if the automaton is consistent and
     * verified, complete it (empty frontier) or recurse; then restore the frontier.
     */
    method Descend() returns (r: Outcome)
      requires Core() && Covers()
      modifies this, automaton, coloring, incoming
      ensures clock <= old(clock)
      ensures !r.Crashed?
      ensures r.Found? ==> exists a: Table, col: seq<nat>, c: set<nat> ::
                             Consistent(tree, a, col, c) && verifier(a) && completer(a) == Completed(r.automaton)
      ensures r.Exhausted? ==> Core() && frontier == old(frontier) && colored == old(colored)
      ensures r.Exhausted? ==> automaton.states == old(automaton.states) && incoming[..] == old(incoming[..])
      ensures r.Exhausted? ==> forall n :: n in colored ==> coloring[n] == old(coloring[n])
      decreases clock, 1
    {
      var frontierBackup := frontier;
      ghost var coloredBackup, col0 := colored, coloring[..];
      ghost var written;
      var ok;
      ok, written := FindNewFrontier();
      if ok {
        CoveredWalk(tree, automaton.states, col0, coloring[..], frontierBackup, coloredBackup, frontier, written);
      }
      if ok && verifier(automaton.states) {
        if frontier == [] {
          match completer(automaton.states)
          case Completed(a) =>
            CoveredDone(tree, automaton.states, coloring[..], colored);
            return Found(a);
          case CompletionTimedOut =>
            return TimedOut;
          case NotCompletable =>
        } else {
          ghost var tried;
          r, tried := Backtracking();
          if !r.Exhausted? {
            return r;
          }
        }
      }
      frontier := frontierBackup;
      colored := coloredBackup;
      return Exhausted;
    }
  }
}
