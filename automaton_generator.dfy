/**
 * The random Mealy automaton generator of src/algorithms/AutomatonGenerator.java:
 * how many transitions each (state, event) cell gets (a power of two, or
 * none), where they lead (the first transition of every state goes to the
 * next state, so the states form a cycle), which guard each one carries
 * (one conjunction per assignment of the chosen variables) and which
 * actions it emits. java.util.Random is a stream of raw draws.
 */
module AutomatonGeneration {
  import opened Common
  import opened Strings

  /** java.util.Random: the raw draws and how many have been taken. */
  datatype Random = Random(stream: nat -> nat, pos: nat)

  /** Random.nextInt(bound): the next draw reduced below bound; the stream advances by one. */
  function NextInt(rnd: Random, bound: nat): (r: (nat, Random))
    requires bound >= 1
    ensures r.0 < bound && r.1.stream == rnd.stream && r.1.pos == rnd.pos + 1
  {
    (rnd.stream(rnd.pos) % bound, rnd.(pos := rnd.pos + 1))
  }

  // ---------------------------------------------------------------------------
  // getTransitionsPowers

  /** The transitions of a cell whose power is c: 2^c of them, or none when c is -1. */
  function Slots(c: int): nat
  {
    if c >= 0 then Pow2(c) else 0
  }

  /** The transitions of one state: the sum over its events. */
  function RowSum(row: seq<int>): nat
  {
    if row == [] then 0 else RowSum(row[..|row| - 1]) + Slots(row[|row| - 1])
  }

  /** The transitions of the whole automaton. */
  function TableSum(t: seq<seq<int>>): nat
  {
    if t == [] then 0 else TableSum(t[..|t| - 1]) + RowSum(t[|t| - 1])
  }

  /** statesCount rows of eventsCount powers, each between -1 and varsCount. */
  predicate PowerTable(t: seq<seq<int>>, statesCount: nat, eventsCount: nat, varsCount: nat)
  {
    |t| == statesCount &&
    forall s :: 0 <= s < statesCount ==>
      |t[s]| == eventsCount && forall e :: 0 <= e < eventsCount ==> -1 <= t[s][e] <= varsCount
  }

  lemma {:induction false} RowSumConst(n: nat, c: nat)
    ensures RowSum(seq(n, _ => c as int)) == n * Pow2(c)
  {
    if n > 0 {
      var row := seq(n, _ => c as int);
      assert row[..n - 1] == seq(n - 1, _ => c as int);
      RowSumConst(n - 1, c);
    }
  }

  lemma {:induction false} TableSumConst(m: nat, row: seq<int>)
    ensures TableSum(seq(m, _ => row)) == m * RowSum(row)
  {
    if m > 0 {
      var t := seq(m, _ => row);
      assert t[..m - 1] == seq(m - 1, _ => row);
      TableSumConst(m - 1, row);
    }
  }

  /** Changing one power changes the row's count by the difference of the cell counts. */
  lemma {:induction false} RowSumUpdate(row: seq<int>, e: nat, v: int)
    requires e < |row|
    ensures RowSum(row[e := v]) == RowSum(row) - Slots(row[e]) + Slots(v)
    ensures RowSum(row) >= Slots(row[e])
    decreases |row|
  {
    var last := |row| - 1;
    assert row[e := v][..last] == if e < last then row[..last][e := v] else row[..last];
    if e < last {
      RowSumUpdate(row[..last], e, v);
    }
  }

  /** Changing one row changes the total by the difference of the row counts. */
  lemma {:induction false} TableSumUpdate(t: seq<seq<int>>, s: nat, row: seq<int>)
    requires s < |t|
    ensures TableSum(t[s := row]) == TableSum(t) - RowSum(t[s]) + RowSum(row)
    decreases |t|
  {
    var last := |t| - 1;
    assert t[s := row][..last] == if s < last then t[..last][s := row] else t[..last];
    if s < last {
      TableSumUpdate(t[..last], s, row);
    }
  }

  /** The loop state of getTransitionsPowers: the powers, each state's count and the total, consistent and no state empty. */
  predicate PowersState(ans: seq<seq<int>>, stateSum: seq<int>, sum: int, statesCount: nat, eventsCount: nat, varsCount: nat)
  {
    PowerTable(ans, statesCount, eventsCount, varsCount) && |stateSum| == statesCount &&
    (forall s :: 0 <= s < statesCount ==> stateSum[s] == RowSum(ans[s]) >= 1) &&
    sum == TableSum(ans)
  }

  /** Lowering one cell, unless that would empty its state, keeps the counts consistent. */
  lemma LowerKeepsState(ans: seq<seq<int>>, stateSum: seq<int>, sum: int, statesCount: nat, eventsCount: nat, varsCount: nat,
                        state: nat, event: nat, newVal: int)
    requires PowersState(ans, stateSum, sum, statesCount, eventsCount, varsCount)
    requires state < statesCount && event < eventsCount && -1 <= newVal < ans[state][event]
    requires newVal >= 0 || stateSum[state] != Pow2(ans[state][event])
    ensures var diff := Pow2(ans[state][event]) - Slots(newVal);
      PowersState(ans[state := ans[state][event := newVal]], stateSum[state := stateSum[state] - diff], sum - diff,
                  statesCount, eventsCount, varsCount)
  {
    var row := ans[state][event := newVal];
    RowSumUpdate(ans[state], event, newVal);
    TableSumUpdate(ans, state, row);
    if newVal >= 0 {
      assert RowSum(row) >= Slots(newVal) by { RowSumUpdate(row, event, newVal); }
      assert Slots(newVal) >= 1;
    }
    var ans' := ans[state := row];
    assert forall s :: 0 <= s < statesCount && s != state ==> ans'[s] == ans[s];
  }

  /** The outcome of getTransitionsPowers: the powers and the generator after the draws, or no result within the draw budget. */
  datatype Powers = Powers(cnt: seq<seq<int>>, rnd: Random) | GaveUp

  /**
   * getTransitionsPowers: every cell starts at varsCount (2^varsCount
   * transitions); random cells are lowered until at most transitionsCount
   * transitions remain, never emptying a state. The rejection loop runs at
   * most fuel times.
   */
  method TransitionsPowers(statesCount: nat, eventsCount: nat, varsCount: nat, transitionsCount: nat, rnd0: Random, fuel: nat)
    returns (r: Powers)
    requires eventsCount >= 1
    ensures r.Powers? ==>
      PowerTable(r.cnt, statesCount, eventsCount, varsCount) &&
      TableSum(r.cnt) <= transitionsCount &&
      forall s :: 0 <= s < statesCount ==> RowSum(r.cnt[s]) >= 1
  {
    var full := seq(eventsCount, _ => varsCount as int);
    var ans := seq(statesCount, _ => full);
    var stateSum: seq<int> := seq(statesCount, _ => eventsCount * Pow2(varsCount));
    var sum: int := statesCount * (eventsCount * Pow2(varsCount));
    RowSumConst(eventsCount, varsCount);
    TableSumConst(statesCount, full);
    assert PowersState(ans, stateSum, sum, statesCount, eventsCount, varsCount);
    var rnd, budget := rnd0, fuel;
    while sum > transitionsCount
      invariant PowersState(ans, stateSum, sum, statesCount, eventsCount, varsCount)
      decreases budget
    {
      if budget == 0 {
        return GaveUp;
      }
      budget := budget - 1;
      var d1 := NextInt(rnd, statesCount);
      var d2 := NextInt(d1.1, eventsCount);
      var state, event := d1.0, d2.0;
      rnd := d2.1;
      if ans[state][event] == -1 {
        continue;
      }
      var d3 := NextInt(rnd, varsCount + 2);
      rnd := d3.1;
      var newVal := d3.0 as int - 1;
      if newVal == -1 && stateSum[state] == Pow2(ans[state][event]) {
        continue;
      }
      if ans[state][event] > newVal {
        var diff := Pow2(ans[state][event]) - Slots(newVal);
        LowerKeepsState(ans, stateSum, sum, statesCount, eventsCount, varsCount, state, event, newVal);
        sum := sum - diff;
        stateSum := stateSum[state := stateSum[state] - diff];
        ans := ans[state := ans[state][event := newVal]];
      }
    }
    r := Powers(ans, rnd);
  }

  /** x has one cell per power of cnt, holding as many slots as the power gives transitions. */
  predicate Shaped<T>(x: seq<seq<seq<T>>>, cnt: seq<seq<int>>)
  {
    |x| == |cnt| &&
    forall s :: 0 <= s < |cnt| ==>
      |x[s]| == |cnt[s]| && forall e :: 0 <= e < |cnt[s]| ==> |x[s][e]| == Slots(cnt[s][e])
  }

  // ---------------------------------------------------------------------------
  // getDestinations

  /** Event e holds the first transitions of its state: its cell is non-empty and every earlier one is empty. */
  predicate FirstCell(row: seq<int>, e: nat)
    requires e < |row|
  {
    Slots(row[e]) > 0 && RowSum(row[..e]) == 0
  }

  lemma RowSumPrefix(row: seq<int>, e: nat)
    requires e < |row|
    ensures RowSum(row[..e + 1]) == RowSum(row[..e]) + Slots(row[e])
  {
    assert row[..e + 1][..e] == row[..e];
  }

  /** A state with a transition has a first non-empty cell. */
  lemma {:induction false} FirstCellExists(row: seq<int>)
    requires RowSum(row) >= 1
    ensures exists e :: 0 <= e < |row| && FirstCell(row, e)
    decreases |row|
  {
    var last := |row| - 1;
    assert row[..last + 1] == row;
    if RowSum(row[..last]) >= 1 {
      FirstCellExists(row[..last]);
      var e :| 0 <= e < last && FirstCell(row[..last], e);
      assert row[..last][..e] == row[..e];
      assert FirstCell(row, e);
    } else {
      assert FirstCell(row, last);
    }
  }

  /** The destinations of one state: a slot per transition, every one a state, the first one the next state. */
  predicate StateCells(cells: seq<seq<nat>>, row: seq<int>, stateNum: nat, statesCount: nat)
  {
    stateNum < statesCount && |cells| == |row| &&
    (forall e :: 0 <= e < |row| ==>
      |cells[e]| == Slots(row[e]) && forall i :: 0 <= i < |cells[e]| ==> cells[e][i] < statesCount) &&
    forall e :: 0 <= e < |row| && FirstCell(row, e) ==> cells[e][0] == (stateNum + 1) % statesCount
  }

  /** getDestinations for one state: its first transition goes to the next state, every other one to a drawn state. */
  method StateDestinations(stateNum: nat, statesCount: nat, row: seq<int>, rnd0: Random)
    returns (cells: seq<seq<nat>>, rnd: Random)
    requires stateNum < statesCount
    ensures StateCells(cells, row, stateNum, statesCount)
  {
    cells, rnd := [], rnd0;
    var was := false;
    for eventNum := 0 to |row|
      invariant |cells| == eventNum
      invariant forall e :: 0 <= e < eventNum ==>
        |cells[e]| == Slots(row[e]) && forall i :: 0 <= i < |cells[e]| ==> cells[e][i] < statesCount
      invariant forall e :: 0 <= e < eventNum && FirstCell(row, e) ==> cells[e][0] == (stateNum + 1) % statesCount
      invariant was <==> RowSum(row[..eventNum]) > 0
    {
      RowSumPrefix(row, eventNum);
      var cell: seq<nat> := [];
      for tr := 0 to Slots(row[eventNum])
        invariant |cell| == tr
        invariant forall i :: 0 <= i < tr ==> cell[i] < statesCount
        invariant was <==> (RowSum(row[..eventNum]) > 0 || tr > 0)
        invariant tr > 0 && RowSum(row[..eventNum]) == 0 ==> cell[0] == (stateNum + 1) % statesCount
      {
        if !was {
          cell := cell + [(stateNum + 1) % statesCount];
          was := true;
        } else {
          var d := NextInt(rnd, statesCount);
          cell := cell + [d.0];
          rnd := d.1;
        }
      }
      cells := cells + [cell];
    }
  }

  /** getDestinations: the destinations of every state. */
  method Destinations(statesCount: nat, cnt: seq<seq<int>>, rnd0: Random)
    returns (dst: seq<seq<seq<nat>>>, rnd: Random)
    requires |cnt| == statesCount
    ensures |dst| == statesCount
    ensures forall s :: 0 <= s < statesCount ==> StateCells(dst[s], cnt[s], s, statesCount)
  {
    dst, rnd := [], rnd0;
    for stateNum := 0 to statesCount
      invariant |dst| == stateNum
      invariant forall s :: 0 <= s < stateNum ==> StateCells(dst[s], cnt[s], s, statesCount)
    {
      var cells;
      cells, rnd := StateDestinations(stateNum, statesCount, cnt[stateNum], rnd);
      dst := dst + [cells];
    }
  }

  // ---------------------------------------------------------------------------
  // choice

  /**
   * choice: k candidates taken at distinct positions, a position being
   * redrawn while it is already taken. Gives up after fuel draws, and when
   * there is nothing to draw from (nextInt(0) throws).
   */
  method Choice(c: seq<string>, k: nat, rnd0: Random, fuel: nat) returns (r: Option<(seq<string>, Random)>)
    ensures r.Some? ==> |r.value.0| == k && forall x :: x in r.value.0 ==> x in c
    ensures r.Some? && Distinct(c) ==> Distinct(r.value.0)
    ensures k == 0 ==> r.Some?
  {
    var ans: seq<string> := [];
    var was := seq(|c|, _ => false);
    ghost var positions: seq<nat> := [];
    var rnd, budget := rnd0, fuel;
    for i := 0 to k
      invariant |ans| == i && |positions| == i && |was| == |c|
      invariant forall j :: 0 <= j < i ==> positions[j] < |c| && ans[j] == c[positions[j]] && was[positions[j]]
      invariant forall j, j' :: 0 <= j < j' < i ==> positions[j] != positions[j']
    {
      if |c| == 0 || budget == 0 {
        return None;
      }
      var d := NextInt(rnd, |c|);
      var pos := d.0;
      rnd, budget := d.1, budget - 1;
      while was[pos]
        invariant |was| == |c| && 0 <= pos < |c|
        decreases budget
      {
        if budget == 0 {
          return None;
        }
        d := NextInt(rnd, |c|);
        pos := d.0;
        rnd, budget := d.1, budget - 1;
      }
      ans := ans + [c[pos]];
      was := was[pos := true];
      positions := positions + [pos];
    }
    r := Some((ans, rnd));
  }

  // ---------------------------------------------------------------------------
  // getExpressions

  /** The mask with its lowest v bits shifted out. */
  function ShiftRight(m: nat, v: nat): nat
  {
    if v == 0 then m else ShiftRight(m / 2, v - 1)
  }

  /** Bit v of a mask. */
  function Bit(m: nat, v: nat): nat
  {
    ShiftRight(m, v) % 2
  }

  lemma {:induction false} ShiftRightStep(m: nat, v: nat)
    ensures ShiftRight(m, v + 1) == ShiftRight(m, v) / 2
    decreases v
  {
    if v > 0 {
      ShiftRightStep(m / 2, v - 1);
    }
  }

  /** A variable, negated with "~" when it must be false. */
  function Literal(name: string, positive: bool): string
  {
    if positive then name else "~" + name
  }

  /** The literals of the guard of a mask over the first n chosen variables: variable v is positive exactly when bit v is set. */
  function Literals(curVars: seq<string>, mask: nat, n: nat): seq<string>
    requires n <= |curVars|
  {
    seq(n, v requires 0 <= v < n => Literal(curVars[v], Bit(mask, v) == 1))
  }

  lemma LiteralsStep(curVars: seq<string>, mask: nat, n: nat)
    requires n < |curVars|
    ensures Literals(curVars, mask, n + 1) == Literals(curVars, mask, n) + [Literal(curVars[n], Bit(mask, n) == 1)]
  {
    assert Literals(curVars, mask, n + 1)[..n] == Literals(curVars, mask, n);
  }

  /** The guard text of one mask: the literals joined by " & ", the mask read from its lowest bit up. */
  method MaskExpression(curVars: seq<string>, n: nat, mask: nat) returns (s: string)
    requires n <= |curVars|
    ensures s == Join(Literals(curVars, mask, n), " & ")
  {
    s := "";
    var i := mask;
    for v := 0 to n
      invariant i == ShiftRight(mask, v)
      invariant s == Join(Literals(curVars, mask, v), " & ")
    {
      var lit := if i % 2 == 0 then "~" + curVars[v] else curVars[v];
      LiteralsStep(curVars, mask, v);
      if v > 0 {
        JoinAppend(Literals(curVars, mask, v), lit, " & ");
        s := s + " & ";
      }
      s := s + lit;
      ShiftRightStep(mask, v);
      i := i / 2;
    }
  }

  /** Two different masks below 2^n differ in one of their lowest n bits. */
  lemma {:induction false} BitsDiffer(m1: nat, m2: nat, n: nat)
    requires m1 < Pow2(n) && m2 < Pow2(n) && m1 != m2
    ensures exists v :: 0 <= v < n && Bit(m1, v) != Bit(m2, v)
    decreases n
  {
    assert Pow2(0) == 1;
    if m1 % 2 != m2 % 2 {
      assert Bit(m1, 0) != Bit(m2, 0);
    } else {
      assert Pow2(n) == 2 * Pow2(n - 1);
      BitsDiffer(m1 / 2, m2 / 2, n - 1);
      var v :| 0 <= v < n - 1 && Bit(m1 / 2, v) != Bit(m2 / 2, v);
      assert Bit(m1, v + 1) == Bit(m1 / 2, v) && Bit(m2, v + 1) == Bit(m2 / 2, v);
    }
  }

  /** The guards of one cell are pairwise different: different masks give different literal lists. */
  lemma MasksGiveDistinctGuards(curVars: seq<string>, n: nat, m1: nat, m2: nat)
    requires n <= |curVars| && m1 < Pow2(n) && m2 < Pow2(n) && m1 != m2
    ensures Literals(curVars, m1, n) != Literals(curVars, m2, n)
  {
    BitsDiffer(m1, m2, n);
    var v :| 0 <= v < n && Bit(m1, v) != Bit(m2, v);
    assert |Literal(curVars[v], true)| != |Literal(curVars[v], false)|;
    assert Literals(curVars, m1, n)[v] != Literals(curVars, m2, n)[v];
  }

  /**
   * The guards of a cell of power c: none for -1, the tautology "1" for 0,
   * and otherwise one conjunction per mask over c variables chosen among vars.
   */
  ghost predicate CellGuards(guards: seq<string>, vars: seq<string>, c: int)
  {
    |guards| == Slots(c) &&
    (c == 0 ==> guards == ["1"]) &&
    (c >= 1 ==> exists curVars: seq<string> ::
      |curVars| == c && (forall x :: x in curVars ==> x in vars) && (Distinct(vars) ==> Distinct(curVars)) &&
      forall mask :: 0 <= mask < |guards| ==> guards[mask] == Join(Literals(curVars, mask, c), " & "))
  }

  /** getExpressions for one cell. */
  method CellExpressions(vars: seq<string>, c: int, rnd0: Random, fuel: nat) returns (r: Option<(seq<string>, Random)>)
    ensures r.Some? ==> CellGuards(r.value.0, vars, c)
    ensures c <= 0 ==> r.Some?
  {
    if c < 0 {
      return Some(([], rnd0));
    }
    if c == 0 {
      return Some((["1"], rnd0));
    }
    var chosen := Choice(vars, c, rnd0, fuel);
    if chosen.None? {
      return None;
    }
    var curVars := chosen.value.0;
    var guards: seq<string> := [];
    for mask := 0 to Pow2(c)
      invariant |guards| == mask
      invariant forall m :: 0 <= m < mask ==> guards[m] == Join(Literals(curVars, m, c), " & ")
    {
      var g := MaskExpression(curVars, c, mask);
      guards := guards + [g];
    }
    r := Some((guards, chosen.value.1));
  }

  /** getExpressions: the guards of every cell, in state and event order. */
  method Expressions(vars: seq<string>, cnt: seq<seq<int>>, rnd0: Random, fuel: nat)
    returns (r: Option<(seq<seq<seq<string>>>, Random)>)
    ensures r.Some? ==> Shaped(r.value.0, cnt)
    ensures r.Some? ==> forall s, e :: 0 <= s < |cnt| && 0 <= e < |cnt[s]| ==> CellGuards(r.value.0[s][e], vars, cnt[s][e])
  {
    var ans: seq<seq<seq<string>>> := [];
    var rnd := rnd0;
    for stateNum := 0 to |cnt|
      invariant |ans| == stateNum
      invariant forall s :: 0 <= s < stateNum ==> |ans[s]| == |cnt[s]|
      invariant forall s, e :: 0 <= s < stateNum && 0 <= e < |cnt[s]| ==> CellGuards(ans[s][e], vars, cnt[s][e])
    {
      var row: seq<seq<string>> := [];
      for eventNum := 0 to |cnt[stateNum]|
        invariant |row| == eventNum
        invariant forall e :: 0 <= e < eventNum ==> CellGuards(row[e], vars, cnt[stateNum][e])
      {
        var cell := CellExpressions(vars, cnt[stateNum][eventNum], rnd, fuel);
        if cell.None? {
          return None;
        }
        row := row + [cell.value.0];
        rnd := cell.value.1;
      }
      ans := ans + [row];
    }
    r := Some((ans, rnd));
  }

  // ---------------------------------------------------------------------------
  // getActions

  /**
   * The actions text of one transition: action names joined by ",", at least
   * minActions of them and at most maxActions (none when the drawn count is
   * not positive).
   */
  ghost predicate ActionText(text: string, actions: seq<string>, minActions: int, maxActions: int)
  {
    exists names: seq<string> ::
      minActions <= |names| && (|names| <= maxActions || names == []) &&
      (forall a :: a in names ==> a in actions) && text == Join(names, ",")
  }

  /**
   * getActions for one transition: a count drawn between minActions and
   * maxActions, then that many drawn names. Fails where nextInt would throw:
   * maxActions below minActions, or a name to draw from no actions.
   */
  method SlotActions(actions: seq<string>, minActions: int, maxActions: int, rnd0: Random)
    returns (r: Option<(string, Random)>)
    ensures r.Some? ==> ActionText(r.value.0, actions, minActions, maxActions)
    ensures r.None? ==> maxActions < minActions || (actions == [] && maxActions >= 1)
    ensures maxActions < minActions ==> r.None?
  {
    if maxActions - minActions + 1 <= 0 {
      return None;
    }
    var d := NextInt(rnd0, maxActions - minActions + 1);
    var count := minActions + d.0;
    var rnd := d.1;
    var s := "";
    ghost var names: seq<string> := [];
    var a := 0;
    while a < count
      invariant 0 <= a && (a <= count || a == 0) && |names| == a
      invariant forall x :: x in names ==> x in actions
      invariant s == Join(names, ",")
      decreases count - a
    {
      if actions == [] {
        return None;
      }
      var pick := NextInt(rnd, |actions|);
      rnd := pick.1;
      if a > 0 {
        JoinAppend(names, actions[pick.0], ",");
        s := s + ",";
      }
      s := s + actions[pick.0];
      names := names + [actions[pick.0]];
      a := a + 1;
    }
    r := Some((s, rnd));
  }

  /** getActions: the actions text of every transition, in state, event and slot order. */
  method ActionsTable(actions: seq<string>, minActions: int, maxActions: int, cnt: seq<seq<int>>, rnd0: Random)
    returns (r: Option<(seq<seq<seq<string>>>, Random)>)
    ensures r.Some? ==> Shaped(r.value.0, cnt)
    ensures r.Some? ==> forall s, e, t :: 0 <= s < |cnt| && 0 <= e < |cnt[s]| && 0 <= t < |r.value.0[s][e]| ==>
      ActionText(r.value.0[s][e][t], actions, minActions, maxActions)
  {
    var ans: seq<seq<seq<string>>> := [];
    var rnd := rnd0;
    for stateNum := 0 to |cnt|
      invariant |ans| == stateNum
      invariant forall s :: 0 <= s < stateNum ==> |ans[s]| == |cnt[s]|
      invariant forall s, e :: 0 <= s < stateNum && 0 <= e < |cnt[s]| ==> |ans[s][e]| == Slots(cnt[s][e])
      invariant forall s, e, t :: 0 <= s < stateNum && 0 <= e < |cnt[s]| && 0 <= t < |ans[s][e]| ==>
        ActionText(ans[s][e][t], actions, minActions, maxActions)
    {
      var row: seq<seq<string>> := [];
      for eventNum := 0 to |cnt[stateNum]|
        invariant |row| == eventNum
        invariant forall e :: 0 <= e < eventNum ==> |row[e]| == Slots(cnt[stateNum][e])
        invariant forall e, t :: 0 <= e < eventNum && 0 <= t < |row[e]| ==> ActionText(row[e][t], actions, minActions, maxActions)
      {
        var cell: seq<string> := [];
        for t := 0 to Slots(cnt[stateNum][eventNum])
          invariant |cell| == t
          invariant forall u :: 0 <= u < t ==> ActionText(cell[u], actions, minActions, maxActions)
        {
          var slot := SlotActions(actions, minActions, maxActions, rnd);
          if slot.None? {
            return None;
          }
          cell := cell + [slot.value.0];
          rnd := slot.value.1;
        }
        row := row + [cell];
      }
      ans := ans + [row];
    }
    r := Some((ans, rnd));
  }

  // ---------------------------------------------------------------------------
  // generate

  /** A transition of the generated automaton. */
  datatype GenTransition = GenTransition(src: nat, dst: nat, event: string, guard: string, actions: string)

  /** The event names "A", "B", ...: one letter each. */
  function EventNames(n: nat): seq<string>
    requires n <= 26
  {
    seq(n, i requires 0 <= i < n => [(('A' as int) + i) as char])
  }

  /** Names made of a prefix and a number: "z0", "z1", ... or "x0", "x1", ... */
  function NumberedNames(prefix: string, n: nat): seq<string>
  {
    seq(n, i requires 0 <= i => prefix + NatToString(i))
  }

  /** The events and the generated destinations, guards and actions, cell by cell. */
  datatype Tables = Tables(events: seq<string>, dst: seq<seq<seq<nat>>>, guards: seq<seq<seq<string>>>, acts: seq<seq<seq<string>>>)

  /** One row per state, one cell per event, one guard and one actions text per destination. */
  predicate Aligned(t: Tables)
  {
    |t.guards| == |t.dst| && |t.acts| == |t.dst| &&
    forall s :: 0 <= s < |t.dst| ==>
      |t.dst[s]| == |t.events| && |t.guards[s]| == |t.events| && |t.acts[s]| == |t.events| &&
      forall e :: 0 <= e < |t.events| ==> |t.guards[s][e]| == |t.dst[s][e]| && |t.acts[s][e]| == |t.dst[s][e]|
  }

  /** The transition of slot i of cell (s, e). */
  function TransitionAt(t: Tables, s: nat, e: nat, i: nat): GenTransition
    requires Aligned(t) && s < |t.dst| && e < |t.events| && i < |t.dst[s][e]|
  {
    GenTransition(s, t.dst[s][e][i], t.events[e], t.guards[s][e][i], t.acts[s][e][i])
  }

  /** The transitions of the first k slots of cell (s, e), in slot order. */
  function CellTs(t: Tables, s: nat, e: nat, k: nat): seq<GenTransition>
    requires Aligned(t) && s < |t.dst| && e < |t.events| && k <= |t.dst[s][e]|
  {
    if k == 0 then [] else CellTs(t, s, e, k - 1) + [TransitionAt(t, s, e, k - 1)]
  }

  /** The transitions of the first e events of state s. */
  function RowTs(t: Tables, s: nat, e: nat): seq<GenTransition>
    requires Aligned(t) && s < |t.dst| && e <= |t.events|
  {
    if e == 0 then [] else RowTs(t, s, e - 1) + CellTs(t, s, e - 1, |t.dst[s][e - 1]|)
  }

  /** The transitions of the first s states: the order in which generate adds them. */
  function AllTs(t: Tables, s: nat): seq<GenTransition>
    requires Aligned(t) && s <= |t.dst|
  {
    if s == 0 then [] else AllTs(t, s - 1) + RowTs(t, s - 1, |t.events|)
  }

  lemma {:induction false} CellMember(t: Tables, s: nat, e: nat, k: nat, tr: GenTransition)
    requires Aligned(t) && s < |t.dst| && e < |t.events| && k <= |t.dst[s][e]|
    ensures tr in CellTs(t, s, e, k) <==> exists i :: 0 <= i < k && tr == TransitionAt(t, s, e, i)
    decreases k
  {
    if k > 0 {
      CellMember(t, s, e, k - 1, tr);
    }
  }

  lemma {:induction false} RowMember(t: Tables, s: nat, e: nat, tr: GenTransition)
    requires Aligned(t) && s < |t.dst| && e <= |t.events|
    ensures tr in RowTs(t, s, e) <==>
      exists e', i :: 0 <= e' < e && 0 <= i < |t.dst[s][e']| && tr == TransitionAt(t, s, e', i)
    decreases e
  {
    if e > 0 {
      RowMember(t, s, e - 1, tr);
      CellMember(t, s, e - 1, |t.dst[s][e - 1]|, tr);
    }
  }

  /** A transition is generated exactly when it is the transition of some slot of some cell. */
  lemma {:induction false} AllMember(t: Tables, s: nat, tr: GenTransition)
    requires Aligned(t) && s <= |t.dst|
    ensures tr in AllTs(t, s) <==>
      exists s', e, i :: 0 <= s' < s && 0 <= e < |t.events| && 0 <= i < |t.dst[s'][e]| && tr == TransitionAt(t, s', e, i)
    decreases s
  {
    if s > 0 {
      AllMember(t, s - 1, tr);
      RowMember(t, s - 1, |t.events|, tr);
    }
  }

  lemma {:induction false} CellCount(t: Tables, s: nat, e: nat, k: nat)
    requires Aligned(t) && s < |t.dst| && e < |t.events| && k <= |t.dst[s][e]|
    ensures |CellTs(t, s, e, k)| == k
    decreases k
  {
    if k > 0 {
      CellCount(t, s, e, k - 1);
    }
  }

  lemma {:induction false} RowCount(t: Tables, cnt: seq<seq<int>>, s: nat, e: nat)
    requires Aligned(t) && Shaped(t.dst, cnt) && s < |t.dst| && e <= |t.events|
    ensures |RowTs(t, s, e)| == RowSum(cnt[s][..e])
    decreases e
  {
    if e > 0 {
      RowCount(t, cnt, s, e - 1);
      CellCount(t, s, e - 1, |t.dst[s][e - 1]|);
      RowSumPrefix(cnt[s], e - 1);
    }
  }

  /** As many transitions are generated as the powers give. */
  lemma {:induction false} AllCount(t: Tables, cnt: seq<seq<int>>, s: nat)
    requires Aligned(t) && Shaped(t.dst, cnt) && s <= |t.dst|
    ensures |AllTs(t, s)| == TableSum(cnt[..s])
    decreases s
  {
    if s > 0 {
      AllCount(t, cnt, s - 1);
      RowCount(t, cnt, s - 1, |t.events|);
      assert cnt[s - 1][..|t.events|] == cnt[s - 1];
      assert cnt[..s][..s - 1] == cnt[..s - 1];
    }
  }

  /** The assembly loop of generate: every slot of every cell becomes a transition, in state, event and slot order. */
  method Assemble(t: Tables) returns (ts: seq<GenTransition>)
    requires Aligned(t)
    ensures ts == AllTs(t, |t.dst|)
  {
    ts := [];
    for stateNum := 0 to |t.dst|
      invariant ts == AllTs(t, stateNum)
    {
      var row := [];
      for eventNum := 0 to |t.events|
        invariant row == RowTs(t, stateNum, eventNum)
      {
        var cell := [];
        for i := 0 to |t.dst[stateNum][eventNum]|
          invariant cell == CellTs(t, stateNum, eventNum, i)
        {
          cell := cell + [GenTransition(stateNum, t.dst[stateNum][eventNum][i], t.events[eventNum],
                                        t.guards[stateNum][eventNum][i], t.acts[stateNum][eventNum][i])];
        }
        row := row + cell;
      }
      ts := ts + row;
    }
  }

  /** Every slot of every cell is generated. */
  lemma SlotGenerated(t: Tables, s: nat, e: nat, i: nat)
    requires Aligned(t) && s < |t.dst| && e < |t.events| && i < |t.dst[s][e]|
    ensures TransitionAt(t, s, e, i) in AllTs(t, |t.dst|)
  {
    AllMember(t, |t.dst|, TransitionAt(t, s, e, i));
  }

  /** Some transition leads from state s to the next state. */
  ghost predicate HasNextTransition(ts: seq<GenTransition>, s: nat, statesCount: nat)
    requires s < statesCount
  {
    exists tr :: tr in ts && tr.src == s && tr.dst == (s + 1) % statesCount
  }

  /** A state with a transition has one to the next state: its first slot. */
  lemma NextStateTransition(t: Tables, cnt: seq<seq<int>>, s: nat)
    requires Aligned(t) && |cnt| == |t.dst| && s < |cnt|
    requires StateCells(t.dst[s], cnt[s], s, |cnt|) && RowSum(cnt[s]) >= 1
    ensures HasNextTransition(AllTs(t, |cnt|), s, |cnt|)
  {
    FirstCellExists(cnt[s]);
    var e :| 0 <= e < |cnt[s]| && FirstCell(cnt[s], e);
    SlotGenerated(t, s, e, 0);
    var tr := TransitionAt(t, s, e, 0);
    assert tr.src == s && tr.dst == (s + 1) % |cnt|;
  }

  /** Every state has a transition to the next one: the generated automaton contains the cycle 0, 1, ..., n-1, 0. */
  lemma GeneratedCycle(t: Tables, cnt: seq<seq<int>>)
    requires Aligned(t) && |cnt| == |t.dst|
    requires forall s :: 0 <= s < |cnt| ==> StateCells(t.dst[s], cnt[s], s, |cnt|) && RowSum(cnt[s]) >= 1
    ensures forall s :: 0 <= s < |cnt| ==> HasNextTransition(AllTs(t, |cnt|), s, |cnt|)
  {
    forall s | 0 <= s < |cnt|
      ensures HasNextTransition(AllTs(t, |cnt|), s, |cnt|)
    {
      NextStateTransition(t, cnt, s);
    }
  }

  lemma SlotInRange(t: Tables, cnt: seq<seq<int>>, s: nat, e: nat, i: nat)
    requires Aligned(t) && |cnt| == |t.dst| && s < |cnt| && e < |t.events| && i < |t.dst[s][e]|
    requires StateCells(t.dst[s], cnt[s], s, |cnt|)
    ensures TransitionAt(t, s, e, i).dst < |cnt|
  {
  }

  /** Every generated transition joins two states, reads an event and emits a valid actions text. */
  lemma GeneratedWellFormed(t: Tables, cnt: seq<seq<int>>, actions: seq<string>, minActions: int, maxActions: int)
    requires Aligned(t) && |cnt| == |t.dst|
    requires forall s :: 0 <= s < |cnt| ==> StateCells(t.dst[s], cnt[s], s, |cnt|)
    requires forall s, e, i :: 0 <= s < |cnt| && 0 <= e < |t.events| && 0 <= i < |t.acts[s][e]| ==>
      ActionText(t.acts[s][e][i], actions, minActions, maxActions)
    ensures forall tr :: tr in AllTs(t, |cnt|) ==>
      tr.src < |cnt| && tr.dst < |cnt| && tr.event in t.events && ActionText(tr.actions, actions, minActions, maxActions)
  {
    forall tr | tr in AllTs(t, |cnt|)
      ensures tr.src < |cnt| && tr.dst < |cnt| && tr.event in t.events && ActionText(tr.actions, actions, minActions, maxActions)
    {
      AllMember(t, |cnt|, tr);
      var s, e, i :| 0 <= s < |cnt| && 0 <= e < |t.events| && 0 <= i < |t.dst[s][e]| && tr == TransitionAt(t, s, e, i);
      SlotInRange(t, cnt, s, e, i);
    }
  }

  /**
   * generate: the powers, the destinations, the guards and the actions are
   * drawn in that order, and every slot becomes a transition. No more than
   * transitionsCount transitions, all between the statesCount states, and
   * each state has one to the next state. Gives up where a rejection loop
   * runs out of fuel or where nextInt would throw.
   */
  method Generate(statesCount: nat, eventsCount: nat, actionsCount: nat, minActions: int, maxActions: int,
                  varsCount: nat, transitionsCount: nat, rnd0: Random, fuel: nat)
    returns (r: Option<seq<GenTransition>>)
    requires 0 < eventsCount <= 26
    ensures r.Some? ==> |r.value| <= transitionsCount
    ensures r.Some? ==> forall tr :: tr in r.value ==>
      tr.src < statesCount && tr.dst < statesCount && tr.event in EventNames(eventsCount) &&
      ActionText(tr.actions, NumberedNames("z", actionsCount), minActions, maxActions)
    ensures r.Some? ==> forall s :: 0 <= s < statesCount ==> HasNextTransition(r.value, s, statesCount)
  {
    var events := EventNames(eventsCount);
    var powers := TransitionsPowers(statesCount, eventsCount, varsCount, transitionsCount, rnd0, fuel);
    if powers.GaveUp? {
      return None;
    }
    var cnt := powers.cnt;
    var dst, rnd := Destinations(statesCount, cnt, powers.rnd);
    var guards := Expressions(NumberedNames("x", varsCount), cnt, rnd, fuel);
    if guards.None? {
      return None;
    }
    var acts := ActionsTable(NumberedNames("z", actionsCount), minActions, maxActions, cnt, guards.value.1);
    if acts.None? {
      return None;
    }
    var t := Tables(events, dst, guards.value.0, acts.value.0);
    assert Aligned(t);
    var ts := Assemble(t);
    AllCount(t, cnt, statesCount);
    assert cnt[..statesCount] == cnt;
    GeneratedWellFormed(t, cnt, NumberedNames("z", actionsCount), minActions, maxActions);
    GeneratedCycle(t, cnt);
    r := Some(ts);
  }
}
