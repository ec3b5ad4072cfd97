/**
 * Scenario trees: the prefix tree of recorded scenarios that the
 * backtracking synthesizer colours. Node 0 is the root; every edge leads from
 * a node to a child with a larger number, and every node other than the
 * root has a single parent node.
 */
module ScenarioTrees {
  import opened Common

  datatype TreeEdge = TreeEdge(src: nat, event: Event, guard: Guard, actions: Actions, dst: nat)

  /** The outgoing edges of every node, and the parent node of every node but the root. */
  datatype ScenarioTree = ScenarioTree(edges: seq<seq<TreeEdge>>, parent: seq<nat>)

  ghost predicate ValidTree(t: ScenarioTree)
  {
    |t.edges| >= 1 && |t.parent| == |t.edges| &&
    (forall n :: 1 <= n < |t.parent| ==> t.parent[n] < n) &&
    forall n, i :: 0 <= n < |t.edges| && 0 <= i < |t.edges[n]| ==>
      t.edges[n][i].src == n && n < t.edges[n][i].dst < |t.edges| && t.parent[t.edges[n][i].dst] == n
  }

  /** A node's edges lead to pairwise different children (trees of single-event scenarios). */
  ghost predicate SingleEdges(t: ScenarioTree)
  {
    forall n, i, j :: 0 <= n < |t.edges| && 0 <= i < j < |t.edges[n]| ==> t.edges[n][i].dst != t.edges[n][j].dst
  }

  ghost predicate IsEdge(t: ScenarioTree, e: TreeEdge)
  {
    e.src < |t.edges| && e in t.edges[e.src]
  }

  lemma EdgeFacts(t: ScenarioTree, e: TreeEdge)
    requires ValidTree(t) && IsEdge(t, e)
    ensures e.src < e.dst < |t.edges| && t.parent[e.dst] == e.src
  {
    var i :| 0 <= i < |t.edges[e.src]| && t.edges[e.src][i] == e;
  }

  /** n lies in the subtree rooted at a. */
  ghost predicate DescOrSelf(t: ScenarioTree, a: nat, n: nat)
    decreases n
  {
    n == a || (a < n < |t.parent| && t.parent[n] < n && DescOrSelf(t, a, t.parent[n]))
  }

  lemma {:induction false} DescOrder(t: ScenarioTree, a: nat, n: nat)
    requires ValidTree(t) && DescOrSelf(t, a, n)
    ensures a <= n
  {
  }

  /** The subtree of a child lies inside the subtree of its parent. */
  lemma {:induction false} DescThroughParent(t: ScenarioTree, h: nat, k: nat, n: nat)
    requires ValidTree(t) && 1 <= k < |t.edges| && t.parent[k] == h
    requires DescOrSelf(t, k, n)
    ensures DescOrSelf(t, h, n) && n != h
    decreases n
  {
    if n != k {
      DescThroughParent(t, h, k, t.parent[n]);
    }
  }

  /** Nodes in the subtree of a, other than a, sit below a child of a. */
  lemma ProperDescParent(t: ScenarioTree, a: nat, n: nat)
    requires ValidTree(t) && DescOrSelf(t, a, n) && n != a
    ensures a < n < |t.edges| && DescOrSelf(t, a, t.parent[n])
  {
  }

  /** Two children of one node: neither lies in the subtree of the other. */
  lemma SiblingsApart(t: ScenarioTree, h: nat, x: nat, y: nat)
    requires ValidTree(t) && x != y && 1 <= x < |t.edges| && 1 <= y < |t.edges|
    requires t.parent[x] == h && t.parent[y] == h
    ensures !DescOrSelf(t, x, y)
  {
    if DescOrSelf(t, x, y) {
      ProperDescParent(t, x, y);
      DescOrder(t, x, h);
    }
  }

  /** No frontier node lies in the subtree of another. */
  ghost predicate Antichain(t: ScenarioTree, hs: seq<nat>)
  {
    forall i, j :: 0 <= i < |hs| && 0 <= j < |hs| && i != j ==> !DescOrSelf(t, hs[i], hs[j])
  }

  /**
   * The shape of a search frontier, given by the child nodes its edges lead
   * to: each is a non-root node whose parent is coloured, none lies in the
   * subtree of another, and no coloured node lies in any of their subtrees.
   */
  ghost predicate FrontierShape(t: ScenarioTree, hs: seq<nat>, colored: set<nat>)
  {
    (forall i :: 0 <= i < |hs| ==> 1 <= hs[i] < |t.parent| && t.parent[hs[i]] in colored) &&
    Antichain(t, hs) &&
    (forall i, x :: 0 <= i < |hs| && x in colored ==> !DescOrSelf(t, hs[i], x))
  }

  lemma ShapeReverse(t: ScenarioTree, hs: seq<nat>, colored: set<nat>)
    requires ValidTree(t) && FrontierShape(t, hs, colored)
    ensures FrontierShape(t, Reverse(hs), colored)
  {
    var r := Reverse(hs);
    forall i, j | 0 <= i < |r| && 0 <= j < |r| && i != j ensures !DescOrSelf(t, r[i], r[j]) {
      assert r[i] == hs[|hs| - 1 - i] && r[j] == hs[|hs| - 1 - j];
    }
    forall i, x | 0 <= i < |r| && x in colored ensures !DescOrSelf(t, r[i], x) {
      assert r[i] == hs[|hs| - 1 - i];
    }
  }

  lemma ShapeSub(t: ScenarioTree, a: seq<nat>, b: seq<nat>, colored: set<nat>)
    requires ValidTree(t) && FrontierShape(t, a + b, colored)
    ensures FrontierShape(t, b, colored)
  {
    forall i, j | 0 <= i < |b| && 0 <= j < |b| && i != j ensures !DescOrSelf(t, b[i], b[j]) {
      assert b[i] == (a + b)[|a| + i] && b[j] == (a + b)[|a| + j];
    }
    forall i, x | 0 <= i < |b| && x in colored ensures !DescOrSelf(t, b[i], x) {
      assert b[i] == (a + b)[|a| + i];
    }
    forall i | 0 <= i < |b| ensures 1 <= b[i] < |t.edges| && t.parent[b[i]] in colored {
      assert b[i] == (a + b)[|a| + i];
    }
  }

  /**
   * Matching the edge into h replaces h on the frontier by h's children and
   * colours h: the frontier keeps its shape.
   */
  lemma ShapeExpand(t: ScenarioTree, a: seq<nat>, h: nat, b: seq<nat>, kids: seq<nat>, colored: set<nat>)
    requires ValidTree(t) && FrontierShape(t, a + [h] + b, colored)
    requires Distinct(kids) && forall k :: 0 <= k < |kids| ==> 1 <= kids[k] < |t.edges| && t.parent[kids[k]] == h
    ensures h !in colored
    ensures FrontierShape(t, a + kids + b, colored + {h})
  {
    var old_ := a + [h] + b;
    var new_ := a + kids + b;
    var c2 := colored + {h};
    assert old_[|a|] == h;
    assert DescOrSelf(t, h, h);
    // position of an element of a or b in the old sequence
    assert forall i :: 0 <= i < |new_| && !(|a| <= i < |a| + |kids|) ==>
      new_[i] == old_[if i < |a| then i else i - |kids| + 1];
    forall k | 0 <= k < |kids|
      ensures h < kids[k]
      ensures forall n :: DescOrSelf(t, kids[k], n) ==> DescOrSelf(t, h, n) && n != h
    {
      forall n | DescOrSelf(t, kids[k], n) ensures DescOrSelf(t, h, n) && n != h {
        DescThroughParent(t, h, kids[k], n);
      }
    }
    forall i, j | 0 <= i < |new_| && 0 <= j < |new_| && i != j ensures !DescOrSelf(t, new_[i], new_[j]) {
      var ki := |a| <= i < |a| + |kids|;
      var kj := |a| <= j < |a| + |kids|;
      if ki && kj {
        assert new_[i] == kids[i - |a|] && new_[j] == kids[j - |a|];
        SiblingsApart(t, h, new_[i], new_[j]);
      } else if ki {
        var oj := if j < |a| then j else j - |kids| + 1;
        assert oj != |a|;
        assert new_[i] == kids[i - |a|];
      } else if kj {
        var oi := if i < |a| then i else i - |kids| + 1;
        assert oi != |a|;
        assert new_[j] == kids[j - |a|];
        if DescOrSelf(t, new_[i], new_[j]) && new_[i] != new_[j] {
          ProperDescParent(t, new_[i], new_[j]);
        }
      } else {
        var oi := if i < |a| then i else i - |kids| + 1;
        var oj := if j < |a| then j else j - |kids| + 1;
        assert oi != oj;
      }
    }
    forall i, x | 0 <= i < |new_| && x in c2 ensures !DescOrSelf(t, new_[i], x) {
      if |a| <= i < |a| + |kids| {
        assert new_[i] == kids[i - |a|];
        if x != h {
          assert !DescOrSelf(t, old_[|a|], x);
        }
      } else {
        var oi := if i < |a| then i else i - |kids| + 1;
        assert oi != |a|;
        if x == h {
          assert !DescOrSelf(t, old_[oi], old_[|a|]);
        }
      }
    }
    forall i | 0 <= i < |new_| ensures 1 <= new_[i] < |t.edges| && t.parent[new_[i]] in c2 {
      if |a| <= i < |a| + |kids| {
        assert new_[i] == kids[i - |a|];
      }
    }
  }

  /** The child nodes the edges lead to. */
  function Heads(es: seq<TreeEdge>): (r: seq<nat>)
    ensures |r| == |es| && forall i :: 0 <= i < |es| ==> r[i] == es[i].dst
  {
    seq(|es|, i requires 0 <= i < |es| => es[i].dst)
  }

  lemma HeadsAppend(a: seq<TreeEdge>, b: seq<TreeEdge>)
    ensures Heads(a + b) == Heads(a) + Heads(b)
  {
    assert Heads(a + b) == Heads(a) + Heads(b);
  }

  lemma HeadsReverse(a: seq<TreeEdge>)
    ensures Heads(Reverse(a)) == Reverse(Heads(a))
  {
    assert Heads(Reverse(a)) == Reverse(Heads(a));
  }

  /** The edges of the root lead to a frontier of the right shape for the colouring {0}. */
  lemma RootFrontierShape(t: ScenarioTree, kids: seq<nat>)
    requires ValidTree(t) && Distinct(kids)
    requires forall k :: 0 <= k < |kids| ==> 1 <= kids[k] < |t.edges| && t.parent[kids[k]] == 0
    ensures FrontierShape(t, kids, {0})
  {
    forall i, j | 0 <= i < |kids| && 0 <= j < |kids| && i != j ensures !DescOrSelf(t, kids[i], kids[j]) {
      if DescOrSelf(t, kids[i], kids[j]) {
        ProperDescParent(t, kids[i], kids[j]);
      }
    }
  }
}
