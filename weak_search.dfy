/**
 * BacktrackingAutomatonBuilder.TraverseStateWithCoverageAndWeakCompleteness:
 * the multi-edge search used when coverage and weak completeness are
 * required. There is no LTL verifier; an automaton whose frontier is empty
 * is accepted when it is weakly complete: from every state, each event name
 * has transitions for all of its extensions or for none. The transitions of
 * a group are added without the repeated-event check of the multi-edge
 * search, so a repeated event makes the later transition replace the earlier.
 */
module WeakSearch {
  import opened Common
  import opened MealyAutomata
  import opened ScenarioTrees
  import opened Backtracking
  import opened GroupSearch

  class WeakTraverseState {
    const tree: ScenarioTree
    const colorSize: nat
    const automaton: MealyAutomaton
    const coloring: array<nat>
    const incoming: array<int>
    const eventNames: seq<string>
    /** eventExtensions: the events of each event name. */
    const ext: map<string, seq<Event>>
    var frontier: seq<Group>
    /** Ticks left before the time limit. */
    var clock: nat
    ghost var colored: set<nat>

    /** Everything but the frontier being unmatched. */
    ghost predicate Core()
      reads this, automaton, coloring
    {
      automaton.Valid() && |automaton.states| == (if colorSize == 0 then 1 else colorSize) &&
      incoming.Length == colorSize && ext.Keys == (set n | n in eventNames) &&
      GSearchInv(tree, |automaton.states|, coloring[..], frontier, colored)
    }

    /** The groups out of coloured nodes are on the frontier or followed. */
    ghost predicate Covers()
      reads this, automaton, coloring
    {
      GCovered(tree, automaton.states, coloring[..], frontier, colored)
    }

    ghost predicate Valid()
      reads this, automaton, coloring
    {
      Core() && GNoneMatched(automaton.states, coloring[..], frontier) && Covers()
    }

    /** The state for a fresh search: colorSize states without transitions, the root's edges grouped by child as frontier. */
    constructor (tree: ScenarioTree, colorSize: nat, clock: nat, events: seq<Event>, eventNames: seq<string>, variables: nat)
      requires ValidTree(tree)
      requires forall k :: 0 <= k < |events| ==> variables <= |events[k]|
      ensures Valid()
      ensures this.tree == tree && this.colorSize == colorSize && this.clock == clock && this.eventNames == eventNames
      ensures forall n :: n in eventNames ==> ext[n] == Extensions(events, n, variables)
      ensures GroupedByDst(tree.edges[0], frontier) && colored == {0}
      ensures forall s :: 0 <= s < |automaton.states| ==> automaton.states[s] == []
      ensures incoming[..] == seq(colorSize, _ => 0)
      ensures coloring[..] == seq(|tree.edges|, _ => 0)
      ensures fresh(automaton) && fresh(coloring) && fresh(incoming)
    {
      var groups := GroupByDst(tree.edges[0]);
      var ext := EventExtensions(events, eventNames, variables);
      this.tree := tree;
      this.colorSize := colorSize;
      this.eventNames := eventNames;
      this.clock := clock;
      automaton := new MealyAutomaton(colorSize);
      coloring := new nat[|tree.edges|](_ => 0);
      incoming := new int[colorSize](_ => 0);
      this.ext := ext;
      frontier := groups;
      colored := {0};
      new;
      GInitial(tree, automaton.states, coloring[..], groups);
      GCoveredStart(tree, automaton.states, coloring[..], groups);
    }

    /**
     * findNewFrontier: walks from the frontier along the groups the
     * automaton follows, colouring their children; returns false on a group
     * it follows only in part, with other actions or into different states,
     * otherwise makes the groups it does not follow at all the new frontier.
     */
    method FindNewFrontier() returns (ok: bool, ghost written: set<nat>)
      requires Core()
      modifies this`frontier, this`colored, coloring
      ensures Core()
      ensures written !! old(colored) && forall d :: d in written ==> d < coloring.Length
      ensures forall n :: 0 <= n < coloring.Length && n !in written ==> coloring[n] == old(coloring[n])
      ensures !ok ==> frontier == old(frontier) && colored == old(colored)
      ensures !ok ==> exists g: Group :: GReached(tree, old(frontier), written, g) && GConflicts(automaton.states, coloring[..], g)
      ensures ok ==> colored == old(colored) + written
      ensures ok ==> GNoneMatched(automaton.states, coloring[..], frontier)
      ensures ok ==> forall g: Group :: GReached(tree, old(frontier), written, g) ==>
                       g in frontier || (g[0].dst in written && GMatched(automaton.states, coloring[..], g))
    {
      var newFrontier;
      ok, newFrontier, written := FindGroupFrontier(tree, automaton, coloring, frontier, colored);
      if ok {
        frontier := newFrontier;
        colored := colored + written;
      }
    }

    /**
     * backtracking: gives the first frontier group transitions into every
     * destination the symmetry rule allows, until an automaton is found or
     * time runs out. `tried` is the number of destinations tried.
     */
    method Backtracking() returns (r: Outcome, ghost tried: nat)
      requires Valid() && frontier != []
      modifies this, automaton, coloring, incoming
      ensures clock <= old(clock)
      ensures !r.Crashed?
      ensures r.Found? ==> WeakComplete(r.automaton, eventNames, ext)
      ensures r.Found? ==> exists col: seq<nat>, c: set<nat> :: GConsistent(tree, r.automaton, col, c)
      ensures r.Exhausted? ==> Valid() && frontier == old(frontier) && colored == old(colored)
      ensures r.Exhausted? ==> automaton.states == old(automaton.states) && incoming[..] == old(incoming[..])
      ensures r.Exhausted? ==> forall n :: n in colored ==> coloring[n] == old(coloring[n])
      ensures r.Exhausted? ==> tried == SymmetryBound(old(incoming[..]), colorSize)
      decreases clock, 0
    {
      if clock == 0 {
        return TimedOut, 0;
      }
      clock := clock - 1;
      var g := frontier[0];
      assert g in frontier;
      var stateFrom := coloring[g[0].src];
      ghost var states0, inc0, col0 := automaton.states, incoming[..], coloring[..];
      ghost var frontier0, colored0 := frontier, colored;
      var dst := 0;
      while dst < colorSize
        invariant 0 <= dst <= colorSize && clock < old(clock)
        invariant Valid() && frontier == frontier0 && colored == colored0
        invariant automaton.states == states0 && incoming[..] == inc0
        invariant forall n :: n in colored0 ==> coloring[n] == col0[n]
        invariant dst <= SymmetryBound(inc0, colorSize)
        decreases colorSize - dst
      {
        if dst > 1 && incoming[dst - 1] == 0 {
          break;
        }
        r := TryDestination(g, stateFrom, dst);
        if !r.Exhausted? {
          return r, dst;
        }
        dst := dst + 1;
      }
      return Exhausted, dst;
    }

    /** One iteration of backtracking's dst loop: add g's transitions into dst, search on, remove them. */
    method TryDestination(g: Group, stateFrom: nat, dst: nat) returns (r: Outcome)
      requires Valid() && g in frontier && stateFrom == coloring[g[0].src] && dst < colorSize
      modifies this, automaton, coloring, incoming
      ensures clock <= old(clock)
      ensures !r.Crashed?
      ensures r.Found? ==> WeakComplete(r.automaton, eventNames, ext)
      ensures r.Found? ==> exists col: seq<nat>, c: set<nat> :: GConsistent(tree, r.automaton, col, c)
      ensures r.Exhausted? ==> Valid() && frontier == old(frontier) && colored == old(colored)
      ensures r.Exhausted? ==> automaton.states == old(automaton.states) && incoming[..] == old(incoming[..])
      ensures r.Exhausted? ==> forall n :: n in colored ==> coloring[n] == old(coloring[n])
      decreases clock, 2
    {
      ghost var states0, col0, inc0 := automaton.states, coloring[..], incoming[..];
      // the frontier group is not followed at all
      assert GUnmatched(states0, col0, g);
      var crashed := AddGroup(automaton, stateFrom, g, dst, false);
      GCoveredAdd(tree, states0, col0, frontier, colored, stateFrom, g, dst);
      CountIncoming(incoming, dst, inc0);
      r := Descend();
      if !r.Exhausted? {
        return r;
      }
      UndoGroup(automaton, incoming, stateFrom, g, dst, states0, inc0);
      GRecolor(tree, states0, col0, coloring[..], frontier, colored);
      GCoveredRecolor(tree, states0, col0, coloring[..], frontier, colored);
    }

    /**
     * The body of the dst loop between adding and removing the transitions:
     * recompute the frontier, and if the automaton is consistent, accept it
     * when the frontier is empty and it is weakly complete, or recurse on a
     * non-empty frontier; then restore the frontier.
     */
    method Descend() returns (r: Outcome)
      requires Core() && Covers()
      modifies this, automaton, coloring, incoming
      ensures clock <= old(clock)
      ensures !r.Crashed?
      ensures r.Found? ==> WeakComplete(r.automaton, eventNames, ext)
      ensures r.Found? ==> exists col: seq<nat>, c: set<nat> :: GConsistent(tree, r.automaton, col, c)
      ensures r.Exhausted? ==> Core() && frontier == old(frontier) && colored == old(colored)
      ensures r.Exhausted? ==> automaton.states == old(automaton.states) && incoming[..] == old(incoming[..])
      ensures r.Exhausted? ==> forall n :: n in colored ==> coloring[n] == old(coloring[n])
      decreases clock, 1
    {
      var frontierBackup := frontier;
      ghost var coloredBackup, col0 := colored, coloring[..];
      ghost var written;
      var ok;
      ok, written := FindNewFrontier();
      if ok {
        GCoveredWalk(tree, automaton.states, col0, coloring[..], frontierBackup, coloredBackup, frontier, written);
      }
      if ok {
        if frontier == [] {
          var complete := IsWeakComplete(automaton.states, eventNames, ext);
          if complete {
            GCoveredDone(tree, automaton.states, coloring[..], colored);
            return Found(automaton.states);
          }
        } else {
          ghost var tried;
          r, tried := Backtracking();
          if !r.Exhausted? {
            return r;
          }
        }
      }
      frontier := frontierBackup;
      colored := coloredBackup;
      return Exhausted;
    }
  }
}
