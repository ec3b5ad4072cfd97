/**
 * Deterministic Mealy automata (src/structures/mealy/MealyAutomaton.java).
 *
 * A state keeps its outgoing transitions keyed by (event, guard): adding a
 * transition whose key is already present replaces it in place, otherwise it
 * is appended, and removal deletes the transition with the same key. States
 * are numbered 0..n-1 and state 0 is the start state.
 */
module MealyAutomata {
  import opened Common

  datatype MealyTransition = MealyTransition(event: Event, guard: Guard, actions: Actions, dst: nat)

  /** One scenario position: the events that share it (several for a multi-edge), its guard and its recorded actions. */
  datatype Step = Step(events: seq<Event>, guard: Guard, actions: Actions)

  type Scenario = seq<Step>

  /** Every position of a recorded scenario carries at least one event. */
  predicate WellFormedScenario(sc: Scenario)
  {
    forall p :: 0 <= p < |sc| ==> |sc[p].events| >= 1
  }

  predicate HasKey(t: MealyTransition, event: Event, guard: Guard)
  {
    t.event == event && t.guard == guard
  }

  /** Position of the transition with key (event, guard) in a state's list. */
  function KeyIndex(ts: seq<MealyTransition>, event: Event, guard: Guard): (r: Option<nat>)
    ensures r.None? <==> forall i :: 0 <= i < |ts| ==> !HasKey(ts[i], event, guard)
    ensures r.Some? ==> r.value < |ts| && HasKey(ts[r.value], event, guard)
    ensures r.Some? ==> forall i :: 0 <= i < r.value ==> !HasKey(ts[i], event, guard)
  {
    if |ts| == 0 then None
    else if HasKey(ts[0], event, guard) then Some(0)
    else match KeyIndex(ts[1..], event, guard)
      case None => None
      case Some(i) => Some(i + 1)
  }

  /** The transition a state takes on (event, guard), if any. */
  function Lookup(ts: seq<MealyTransition>, event: Event, guard: Guard): Option<MealyTransition>
  {
    match KeyIndex(ts, event, guard)
    case None => None
    case Some(i) => Some(ts[i])
  }

  predicate UniqueKeys(ts: seq<MealyTransition>)
  {
    forall i, j :: 0 <= i < j < |ts| ==> !HasKey(ts[j], ts[i].event, ts[i].guard)
  }

  /** Adds t, replacing the transition with the same key if there is one. */
  function Put(ts: seq<MealyTransition>, t: MealyTransition): (r: seq<MealyTransition>)
    requires UniqueKeys(ts)
    ensures UniqueKeys(r)
    ensures Lookup(r, t.event, t.guard) == Some(t)
    ensures forall e, g :: !(e == t.event && g == t.guard) ==> Lookup(r, e, g) == Lookup(ts, e, g)
    ensures KeyIndex(ts, t.event, t.guard).None? ==> r == ts + [t]
  {
    match KeyIndex(ts, t.event, t.guard)
    case None => PutAppendLookup(ts, t); ts + [t]
    case Some(i) => PutReplaceLookup(ts, t, i); ts[i := t]
  }

  /** Removes the transition whose key is (event, guard), if there is one. */
  function RemoveKey(ts: seq<MealyTransition>, event: Event, guard: Guard): seq<MealyTransition>
  {
    match KeyIndex(ts, event, guard)
    case None => ts
    case Some(i) => RemoveAt(ts, i)
  }

  /** After removing a key it is absent, the other keys are untouched, and keys stay unique. */
  lemma RemoveKeyLookup(ts: seq<MealyTransition>, event: Event, guard: Guard)
    requires UniqueKeys(ts)
    ensures UniqueKeys(RemoveKey(ts, event, guard))
    ensures Lookup(RemoveKey(ts, event, guard), event, guard) == None
    ensures forall e, g :: !(e == event && g == guard) ==> Lookup(RemoveKey(ts, event, guard), e, g) == Lookup(ts, e, g)
  {
    match KeyIndex(ts, event, guard)
    case None =>
    case Some(i) => RemoveAtLookup(ts, i);
  }

  /** ts without its i-th element. */
  function RemoveAt(ts: seq<MealyTransition>, i: nat): (r: seq<MealyTransition>)
    requires i < |ts|
    ensures |r| == |ts| - 1
  {
    ts[..i] + ts[i + 1..]
  }

  /** KeyIndex finds the first position holding the key. */
  lemma KeyIndexIs(ts: seq<MealyTransition>, event: Event, guard: Guard, j: nat)
    requires j < |ts| && HasKey(ts[j], event, guard)
    requires forall i :: 0 <= i < j ==> !HasKey(ts[i], event, guard)
    ensures KeyIndex(ts, event, guard) == Some(j)
  {
  }

  lemma PutAppendLookup(ts: seq<MealyTransition>, t: MealyTransition)
    requires UniqueKeys(ts) && KeyIndex(ts, t.event, t.guard).None?
    ensures UniqueKeys(ts + [t])
    ensures Lookup(ts + [t], t.event, t.guard) == Some(t)
    ensures forall e, g :: !(e == t.event && g == t.guard) ==> Lookup(ts + [t], e, g) == Lookup(ts, e, g)
  {
    var r := ts + [t];
    KeyIndexIs(r, t.event, t.guard, |ts|);
    forall e, g | !(e == t.event && g == t.guard) ensures Lookup(r, e, g) == Lookup(ts, e, g) {
      match KeyIndex(ts, e, g)
      case None =>
      case Some(j) => KeyIndexIs(r, e, g, j);
    }
  }

  lemma PutReplaceLookup(ts: seq<MealyTransition>, t: MealyTransition, i: nat)
    requires UniqueKeys(ts) && KeyIndex(ts, t.event, t.guard) == Some(i)
    ensures UniqueKeys(ts[i := t])
    ensures Lookup(ts[i := t], t.event, t.guard) == Some(t)
    ensures forall e, g :: !(e == t.event && g == t.guard) ==> Lookup(ts[i := t], e, g) == Lookup(ts, e, g)
  {
    var r := ts[i := t];
    KeyIndexIs(r, t.event, t.guard, i);
    forall e, g | !(e == t.event && g == t.guard) ensures Lookup(r, e, g) == Lookup(ts, e, g) {
      match KeyIndex(ts, e, g)
      case None =>
      case Some(j) => KeyIndexIs(r, e, g, j);
    }
  }

  lemma RemoveAtLookup(ts: seq<MealyTransition>, i: nat)
    requires UniqueKeys(ts) && i < |ts|
    ensures UniqueKeys(RemoveAt(ts, i))
    ensures Lookup(RemoveAt(ts, i), ts[i].event, ts[i].guard) == None
    ensures forall e, g :: !(e == ts[i].event && g == ts[i].guard) ==>
      Lookup(RemoveAt(ts, i), e, g) == Lookup(ts, e, g)
  {
    var r := RemoveAt(ts, i);
    RemoveAtIndex(ts, i);
    forall e, g | !(e == ts[i].event && g == ts[i].guard) ensures Lookup(r, e, g) == Lookup(ts, e, g) {
      RemoveAtOther(ts, i, e, g);
    }
  }

  lemma RemoveAtIndex(ts: seq<MealyTransition>, i: nat)
    requires i < |ts|
    ensures forall k :: 0 <= k < |RemoveAt(ts, i)| ==> RemoveAt(ts, i)[k] == if k < i then ts[k] else ts[k + 1]
  {
    var r := RemoveAt(ts, i);
    forall k | 0 <= k < |r| ensures r[k] == if k < i then ts[k] else ts[k + 1] {
      if k < i { assert r[k] == ts[..i][k]; } else { assert r[k] == ts[i + 1..][k - i]; }
    }
  }

  lemma RemoveAtOther(ts: seq<MealyTransition>, i: nat, e: Event, g: Guard)
    requires UniqueKeys(ts) && i < |ts| && !(e == ts[i].event && g == ts[i].guard)
    ensures Lookup(RemoveAt(ts, i), e, g) == Lookup(ts, e, g)
  {
    var r := RemoveAt(ts, i);
    RemoveAtIndex(ts, i);
    match KeyIndex(ts, e, g)
    case None =>
      forall k | 0 <= k < |r| ensures !HasKey(r[k], e, g) {
        if k >= i { assert r[k] == ts[k + 1]; }
      }
    case Some(j) =>
      if j < i {
        KeyIndexIs(r, e, g, j);
      } else {
        assert r[j - 1] == ts[j];
        KeyIndexIs(r, e, g, j - 1);
      }
  }

  /** Adding a transition whose key is absent and removing it again restores the state. */
  lemma PutRemoveKey(ts: seq<MealyTransition>, t: MealyTransition)
    requires UniqueKeys(ts) && Lookup(ts, t.event, t.guard) == None
    ensures RemoveKey(Put(ts, t), t.event, t.guard) == ts
  {
    var r := Put(ts, t);
    assert r == ts + [t];
    assert KeyIndex(r, t.event, t.guard) == Some(|ts|);
    assert r[..|ts|] == ts;
  }

  /** An entry of L carries the key (event, guard). */
  ghost predicate KeyIn(L: seq<MealyTransition>, event: Event, guard: Guard)
  {
    exists i :: 0 <= i < |L| && HasKey(L[i], event, guard)
  }

  /** Adds the transitions of L one after another (a loop of addTransition). */
  function PutAll(ts: seq<MealyTransition>, L: seq<MealyTransition>): (r: seq<MealyTransition>)
    requires UniqueKeys(ts)
    ensures UniqueKeys(r)
  {
    if L == [] then ts else Put(PutAll(ts, L[..|L| - 1]), L[|L| - 1])
  }

  /** After adding the transitions of L, a key has no transition iff it had none and no entry of L carries it. */
  lemma {:induction false} PutAllLookupNone(ts: seq<MealyTransition>, L: seq<MealyTransition>, event: Event, guard: Guard)
    requires UniqueKeys(ts)
    ensures Lookup(PutAll(ts, L), event, guard).None? <==> Lookup(ts, event, guard).None? && !KeyIn(L, event, guard)
  {
    if L != [] {
      var L', t := L[..|L| - 1], L[|L| - 1];
      PutAllLookupNone(ts, L', event, guard);
      KeyInSnoc(L', t, event, guard);
      assert L == L' + [t];
    }
  }

  /** Adding the transitions of L leaves the transition of a key no entry of L carries. */
  lemma {:induction false} PutAllLookupOther(ts: seq<MealyTransition>, L: seq<MealyTransition>, event: Event, guard: Guard)
    requires UniqueKeys(ts) && !KeyIn(L, event, guard)
    ensures Lookup(PutAll(ts, L), event, guard) == Lookup(ts, event, guard)
  {
    if L != [] {
      var L', t := L[..|L| - 1], L[|L| - 1];
      assert L == L' + [t];
      KeyInSnoc(L', t, event, guard);
      PutAllLookupOther(ts, L', event, guard);
    }
  }

  lemma KeyInSnoc(L: seq<MealyTransition>, t: MealyTransition, event: Event, guard: Guard)
    ensures KeyIn(L + [t], event, guard) <==> KeyIn(L, event, guard) || HasKey(t, event, guard)
  {
    var L2 := L + [t];
    if KeyIn(L2, event, guard) && !HasKey(t, event, guard) {
      var i :| 0 <= i < |L2| && HasKey(L2[i], event, guard);
      assert L[i] == L2[i];
    }
    if KeyIn(L, event, guard) {
      var i :| 0 <= i < |L| && HasKey(L[i], event, guard);
      assert L2[i] == L[i];
    }
    assert L2[|L|] == t;
  }

  lemma PutAllSnoc(ts: seq<MealyTransition>, L: seq<MealyTransition>, t: MealyTransition)
    requires UniqueKeys(ts)
    ensures PutAll(ts, L + [t]) == Put(PutAll(ts, L), t)
  {
    assert (L + [t])[..|L|] == L;
  }

  /** Removes the keys of the transitions of L one after another (removeTransition for each of L). */
  function RemoveAll(ts: seq<MealyTransition>, L: seq<MealyTransition>): seq<MealyTransition>
  {
    if L == [] then ts else RemoveKey(RemoveAll(ts, L[..|L| - 1]), L[|L| - 1].event, L[|L| - 1].guard)
  }

  lemma {:induction false} RemoveAllUnique(ts: seq<MealyTransition>, L: seq<MealyTransition>)
    requires UniqueKeys(ts)
    ensures UniqueKeys(RemoveAll(ts, L))
  {
    if L != [] {
      RemoveAllUnique(ts, L[..|L| - 1]);
      RemoveKeyLookup(RemoveAll(ts, L[..|L| - 1]), L[|L| - 1].event, L[|L| - 1].guard);
    }
  }

  /** After removing the keys of L, those keys are absent and the others are untouched. */
  lemma {:induction false} RemoveAllLookup(ts: seq<MealyTransition>, L: seq<MealyTransition>, event: Event, guard: Guard)
    requires UniqueKeys(ts)
    ensures Lookup(RemoveAll(ts, L), event, guard) == if KeyIn(L, event, guard) then None else Lookup(ts, event, guard)
  {
    if L != [] {
      var init := L[..|L| - 1];
      RemoveAllLookup(ts, init, event, guard);
      RemoveAllUnique(ts, init);
      RemoveKeyLookup(RemoveAll(ts, init), L[|L| - 1].event, L[|L| - 1].guard);
      if HasKey(L[|L| - 1], event, guard) {
        assert KeyIn(L, event, guard);
      } else if KeyIn(L, event, guard) {
        var i :| 0 <= i < |L| && HasKey(L[i], event, guard);
        assert init[i] == L[i];
      } else {
        assert !KeyIn(init, event, guard) by {
          forall i | 0 <= i < |init| ensures !HasKey(init[i], event, guard) { assert init[i] == L[i]; }
        }
      }
    }
  }

  /** A key absent from base is found in base + x exactly where it is found in x. */
  lemma KeyIndexConcatNone(base: seq<MealyTransition>, x: seq<MealyTransition>, event: Event, guard: Guard)
    requires forall i :: 0 <= i < |base| ==> !HasKey(base[i], event, guard)
    requires KeyIndex(x, event, guard).None?
    ensures KeyIndex(base + x, event, guard).None?
  {
    var bx := base + x;
    forall k | 0 <= k < |bx| ensures !HasKey(bx[k], event, guard) {
      if k >= |base| { assert bx[k] == x[k - |base|]; }
    }
  }

  lemma KeyIndexConcatSome(base: seq<MealyTransition>, x: seq<MealyTransition>, event: Event, guard: Guard, i: nat)
    requires forall k :: 0 <= k < |base| ==> !HasKey(base[k], event, guard)
    requires KeyIndex(x, event, guard) == Some(i)
    ensures KeyIndex(base + x, event, guard) == Some(|base| + i)
  {
    var bx := base + x;
    assert bx[|base| + i] == x[i];
    forall k | 0 <= k < |base| + i ensures !HasKey(bx[k], event, guard) {
      if k >= |base| { assert bx[k] == x[k - |base|]; }
    }
    KeyIndexIs(bx, event, guard, |base| + i);
  }

  lemma UniqueKeysSuffix(base: seq<MealyTransition>, x: seq<MealyTransition>)
    requires UniqueKeys(base + x)
    ensures UniqueKeys(x)
  {
    forall i, j | 0 <= i < j < |x| ensures !HasKey(x[j], x[i].event, x[i].guard) {
      assert x[i] == (base + x)[|base| + i] && x[j] == (base + x)[|base| + j];
    }
  }

  /** Adding a key absent from base only touches the part after base. */
  lemma PutConcat(base: seq<MealyTransition>, x: seq<MealyTransition>, t: MealyTransition)
    requires UniqueKeys(base + x) && forall i :: 0 <= i < |base| ==> !HasKey(base[i], t.event, t.guard)
    ensures UniqueKeys(x) && Put(base + x, t) == base + Put(x, t)
    ensures forall y :: y in Put(x, t) ==> y in x || y == t
  {
    UniqueKeysSuffix(base, x);
    match KeyIndex(x, t.event, t.guard)
    case None =>
      KeyIndexConcatNone(base, x, t.event, t.guard);
      PutConcatAbsent(base, x, t);
    case Some(i) =>
      KeyIndexConcatSome(base, x, t.event, t.guard, i);
      PutConcatAt(base, x, t, i);
  }

  lemma PutConcatAbsent(base: seq<MealyTransition>, x: seq<MealyTransition>, t: MealyTransition)
    requires UniqueKeys(base + x) && UniqueKeys(x)
    requires KeyIndex(x, t.event, t.guard).None? && KeyIndex(base + x, t.event, t.guard).None?
    ensures Put(base + x, t) == base + Put(x, t)
    ensures forall y :: y in Put(x, t) ==> y in x || y == t
  {
    assert Put(base + x, t) == base + x + [t];
  }

  lemma PutConcatAt(base: seq<MealyTransition>, x: seq<MealyTransition>, t: MealyTransition, i: nat)
    requires UniqueKeys(base + x) && UniqueKeys(x) && i < |x|
    requires KeyIndex(x, t.event, t.guard) == Some(i) && KeyIndex(base + x, t.event, t.guard) == Some(|base| + i)
    ensures Put(base + x, t) == base + Put(x, t)
    ensures forall y :: y in Put(x, t) ==> y in x || y == t
  {
    assert Put(base + x, t) == (base + x)[|base| + i := t];
    assert (base + x)[|base| + i := t] == base + x[i := t];
    forall y | y in x[i := t] ensures y in x || y == t {
      var k :| 0 <= k < |x| && x[i := t][k] == y;
      if k != i { assert y == x[k]; }
    }
  }

  /** Removing a key absent from base only touches the part after base. */
  lemma RemoveConcat(base: seq<MealyTransition>, x: seq<MealyTransition>, event: Event, guard: Guard)
    requires forall i :: 0 <= i < |base| ==> !HasKey(base[i], event, guard)
    ensures RemoveKey(base + x, event, guard) == base + RemoveKey(x, event, guard)
  {
    match KeyIndex(x, event, guard)
    case None =>
      KeyIndexConcatNone(base, x, event, guard);
      RemoveConcatAbsent(base, x, event, guard);
    case Some(i) =>
      KeyIndexConcatSome(base, x, event, guard, i);
      RemoveConcatAt(base, x, event, guard, i);
  }

  lemma RemoveConcatAbsent(base: seq<MealyTransition>, x: seq<MealyTransition>, event: Event, guard: Guard)
    requires KeyIndex(x, event, guard).None? && KeyIndex(base + x, event, guard).None?
    ensures RemoveKey(base + x, event, guard) == base + RemoveKey(x, event, guard)
  {
  }

  lemma RemoveConcatAt(base: seq<MealyTransition>, x: seq<MealyTransition>, event: Event, guard: Guard, i: nat)
    requires i < |x| && KeyIndex(x, event, guard) == Some(i) && KeyIndex(base + x, event, guard) == Some(|base| + i)
    ensures RemoveKey(base + x, event, guard) == base + RemoveKey(x, event, guard)
  {
    SliceOut(base, x, i);
  }

  lemma SliceOut(base: seq<MealyTransition>, x: seq<MealyTransition>, i: nat)
    requires i < |x|
    ensures RemoveAt(base + x, |base| + i) == base + RemoveAt(x, i)
  {
    assert (base + x)[..|base| + i] == base + x[..i];
    assert (base + x)[|base| + i + 1..] == x[i + 1..];
  }

  /** Removal only drops transitions, and drops every transition with the removed key. */
  lemma RemoveKeyMembers(x: seq<MealyTransition>, event: Event, guard: Guard)
    requires UniqueKeys(x)
    ensures forall y :: y in RemoveKey(x, event, guard) ==> y in x && !HasKey(y, event, guard)
  {
    match KeyIndex(x, event, guard)
    case None =>
    case Some(i) =>
      forall y | y in RemoveAt(x, i) ensures y in x && !HasKey(y, event, guard) {
        var k :| 0 <= k < |RemoveAt(x, i)| && RemoveAt(x, i)[k] == y;
        if k < i {
          assert y == x[k];
        } else {
          assert y == x[k + 1];
        }
      }
  }

  /** A list whose members all carry keys of L and none carries a key of L is empty. */
  lemma NoKeysLeft(x: seq<MealyTransition>, y: seq<MealyTransition>, L: seq<MealyTransition>)
    requires forall z :: z in x ==> KeyIn(L, z.event, z.guard)
    requires forall z :: z in y ==> z in x && !KeyIn(L, z.event, z.guard)
    ensures y == []
  {
    FirstIn(y);
    if y != [] {
      assert false;
    }
  }

  lemma FirstIn<T>(y: seq<T>)
    ensures y != [] ==> y[0] in y
  {
  }

  /** Adding L to a state holding none of L's keys appends transitions that all carry keys of L. */
  lemma {:induction false} PutAllShape(ts: seq<MealyTransition>, L: seq<MealyTransition>) returns (x: seq<MealyTransition>)
    requires UniqueKeys(ts)
    requires forall k :: 0 <= k < |L| ==> Lookup(ts, L[k].event, L[k].guard).None?
    ensures PutAll(ts, L) == ts + x
    ensures forall y :: y in x ==> KeyIn(L, y.event, y.guard)
  {
    if L == [] {
      x := [];
      assert ts + [] == ts;
    } else {
      var init := L[..|L| - 1];
      var t := L[|L| - 1];
      var x0 := PutAllShape(ts, init);
      assert Lookup(ts, t.event, t.guard).None?;
      PutConcat(ts, x0, t);
      x := Put(x0, t);
      forall y | y in x ensures KeyIn(L, y.event, y.guard) {
        if y == t {
          assert HasKey(L[|L| - 1], y.event, y.guard);
        } else {
          var i :| 0 <= i < |init| && HasKey(init[i], y.event, y.guard);
          assert L[i] == init[i];
        }
      }
    }
  }

  /** Removing keys absent from ts only touches the part after ts. */
  lemma {:induction false} RemoveAllConcat(ts: seq<MealyTransition>, x: seq<MealyTransition>, P: seq<MealyTransition>)
    requires forall k :: 0 <= k < |P| ==> Lookup(ts, P[k].event, P[k].guard).None?
    ensures RemoveAll(ts + x, P) == ts + RemoveAll(x, P)
  {
    if P != [] {
      var t := P[|P| - 1];
      RemoveAllConcat(ts, x, P[..|P| - 1]);
      assert Lookup(ts, t.event, t.guard).None?;
      RemoveConcat(ts, RemoveAll(x, P[..|P| - 1]), t.event, t.guard);
    }
  }

  /** Removing the keys of P keeps only transitions of x whose keys are not in P. */
  lemma {:induction false} RemoveAllMembers(x: seq<MealyTransition>, P: seq<MealyTransition>)
    requires UniqueKeys(x)
    ensures forall z :: z in RemoveAll(x, P) ==> z in x && !KeyIn(P, z.event, z.guard)
  {
    if P != [] {
      var init := P[..|P| - 1];
      var t := P[|P| - 1];
      RemoveAllMembers(x, init);
      RemoveAllUnique(x, init);
      var y0 := RemoveAll(x, init);
      RemoveKeyMembers(y0, t.event, t.guard);
      forall z | z in RemoveAll(x, P) ensures z in x && !KeyIn(P, z.event, z.guard) {
        assert z in y0 && !HasKey(z, t.event, t.guard);
        forall i | 0 <= i < |P| - 1 ensures !HasKey(P[i], z.event, z.guard) {
          assert init[i] == P[i];
        }
      }
    }
  }

  /** Adding the transitions of L to a state holding none of their keys and then removing them restores the state. */
  lemma PutAllRemoveAll(ts: seq<MealyTransition>, L: seq<MealyTransition>)
    requires UniqueKeys(ts)
    requires forall k :: 0 <= k < |L| ==> Lookup(ts, L[k].event, L[k].guard).None?
    ensures RemoveAll(PutAll(ts, L), L) == ts
  {
    var x := PutAllShape(ts, L);
    UniqueKeysSuffix(ts, x);
    RemoveAllConcat(ts, x, L);
    RemoveAllMembers(x, L);
    NoKeysLeft(x, RemoveAll(x, L), L);
    assert ts + [] == ts;
  }

  /** A state's transitions with their actions dropped: what stays when only the actions are relabelled. */
  function Erase(ts: seq<MealyTransition>): (r: seq<MealyTransition>)
    ensures |r| == |ts|
    ensures forall k :: 0 <= k < |ts| ==> r[k] == ts[k].(actions := {})
  {
    seq(|ts|, k requires 0 <= k < |ts| => ts[k].(actions := {}))
  }

  /** Keys are found at the same positions with or without actions. */
  lemma {:induction false} EraseKeyIndex(ts: seq<MealyTransition>, event: Event, guard: Guard)
    ensures KeyIndex(Erase(ts), event, guard) == KeyIndex(ts, event, guard)
    decreases |ts|
  {
    if |ts| > 0 {
      assert Erase(ts)[1..] == Erase(ts[1..]);
      EraseKeyIndex(ts[1..], event, guard);
    }
  }

  /** Two states with the same transitions up to actions have the same keys, leading into the same states. */
  lemma SameKeys(a: seq<MealyTransition>, b: seq<MealyTransition>, event: Event, guard: Guard)
    requires Erase(a) == Erase(b)
    ensures KeyIndex(a, event, guard) == KeyIndex(b, event, guard)
    ensures Lookup(a, event, guard).None? <==> Lookup(b, event, guard).None?
    ensures Lookup(a, event, guard).Some? ==> Lookup(a, event, guard).value.dst == Lookup(b, event, guard).value.dst
  {
    EraseKeyIndex(a, event, guard);
    EraseKeyIndex(b, event, guard);
    match KeyIndex(a, event, guard)
    case None =>
    case Some(i) => assert Erase(a)[i] == Erase(b)[i];
  }

  lemma EraseRemoveKey(ts: seq<MealyTransition>, event: Event, guard: Guard)
    ensures Erase(RemoveKey(ts, event, guard)) == RemoveKey(Erase(ts), event, guard)
  {
    EraseKeyIndex(ts, event, guard);
    match KeyIndex(ts, event, guard)
    case None =>
    case Some(i) =>
      assert Erase(ts[..i] + ts[i + 1..]) == Erase(ts)[..i] + Erase(ts)[i + 1..];
  }

  /** Removing keys commutes with dropping actions. */
  lemma {:induction false} EraseRemoveAll(ts: seq<MealyTransition>, L: seq<MealyTransition>)
    ensures Erase(RemoveAll(ts, L)) == RemoveAll(Erase(ts), L)
    decreases |L|
  {
    if L != [] {
      EraseRemoveAll(ts, L[..|L| - 1]);
      EraseRemoveKey(RemoveAll(ts, L[..|L| - 1]), L[|L| - 1].event, L[|L| - 1].guard);
    }
  }

  /** A state with the transitions of a valid one up to actions is valid too. */
  lemma EraseUniqueKeys(a: seq<MealyTransition>, b: seq<MealyTransition>)
    requires Erase(a) == Erase(b) && UniqueKeys(b)
    ensures UniqueKeys(a)
  {
    forall i, j | 0 <= i < j < |a| ensures !HasKey(a[j], a[i].event, a[i].guard) {
      assert Erase(a)[i] == Erase(b)[i] && Erase(a)[j] == Erase(b)[j];
    }
  }

  /** Transition tables: every destination is a state and keys are unique per state. */
  predicate ValidTable(states: seq<seq<MealyTransition>>)
  {
    forall s :: 0 <= s < |states| ==>
      UniqueKeys(states[s]) && forall i :: 0 <= i < |states[s]| ==> states[s][i].dst < |states|
  }

  /** Two tables with the same transitions up to their actions. */
  predicate SameSkeleton(a: seq<seq<MealyTransition>>, b: seq<seq<MealyTransition>>)
  {
    |a| == |b| && forall s :: 0 <= s < |a| ==> Erase(a[s]) == Erase(b[s])
  }

  /** Validity depends only on keys and destinations. */
  lemma SameSkeletonValid(a: seq<seq<MealyTransition>>, b: seq<seq<MealyTransition>>)
    requires SameSkeleton(a, b) && ValidTable(b)
    ensures ValidTable(a)
  {
    forall s | 0 <= s < |a| ensures UniqueKeys(a[s]) && forall i :: 0 <= i < |a[s]| ==> a[s][i].dst < |a| {
      EraseUniqueKeys(a[s], b[s]);
      forall i | 0 <= i < |a[s]| ensures a[s][i].dst < |a| {
        assert Erase(a[s])[i] == Erase(b[s])[i];
      }
    }
  }

  /** The destination of the first transition matching event, guard and actions (next). */
  function Next(ts: seq<MealyTransition>, event: Event, guard: Guard, actions: Actions): (r: Option<nat>)
    ensures r.Some? <==> exists i :: 0 <= i < |ts| && HasKey(ts[i], event, guard) && ts[i].actions == actions
    ensures r.Some? ==> exists i :: 0 <= i < |ts| && HasKey(ts[i], event, guard) && ts[i].actions == actions && ts[i].dst == r.value
  {
    if |ts| == 0 then None
    else if HasKey(ts[0], event, guard) && ts[0].actions == actions then Some(ts[0].dst)
    else
      var r := Next(ts[1..], event, guard, actions);
      assert r.Some? ==> exists i :: 1 <= i < |ts| && HasKey(ts[i], event, guard) && ts[i].actions == actions && ts[i].dst == r.value by {
        if r.Some? {
          var i :| 0 <= i < |ts[1..]| && HasKey(ts[1..][i], event, guard) && ts[1..][i].actions == actions && ts[1..][i].dst == r.value;
          assert ts[i + 1] == ts[1..][i];
        }
      }
      r
  }

  /**
   * The state reached from node by one scenario position: every event of the
   * position must take a transition with the position's guard and actions,
   * and all of them must lead to the same state.
   */
  function StepTarget(states: seq<seq<MealyTransition>>, node: nat, step: Step): (r: Option<nat>)
    requires ValidTable(states) && node < |states| && |step.events| >= 1
    ensures r.Some? ==> r.value < |states|
  {
    match Next(states[node], step.events[0], step.guard, step.actions)
    case None => None
    case Some(d) =>
      if forall k :: 0 <= k < |step.events| ==> Next(states[node], step.events[k], step.guard, step.actions) == Some(d)
      then Some(d) else None
  }

  /** The automaton, started in node, replays the scenario with the recorded actions. */
  predicate Complies(states: seq<seq<MealyTransition>>, node: nat, sc: Scenario)
    requires ValidTable(states) && node < |states| && WellFormedScenario(sc)
    decreases |sc|
  {
    sc == [] ||
    match StepTarget(states, node, sc[0])
    case None => false
    case Some(d) =>
      Complies(states, d, sc[1..])
  }

  /**
   * Missed actions of a replay that follows, at each position, the first
   * event's (event, guard) transition: one per position whose recorded actions
   * differ, and every remaining position once the replay gets stuck.
   */
  function Missed(states: seq<seq<MealyTransition>>, node: nat, sc: Scenario): (r: nat)
    requires ValidTable(states) && node < |states| && WellFormedScenario(sc)
    ensures r <= |sc|
    decreases |sc|
  {
    if sc == [] then 0
    else match Lookup(states[node], sc[0].events[0], sc[0].guard)
      case None => |sc|
      case Some(t) =>
        (if sc[0].actions != t.actions then 1 else 0) + Missed(states, t.dst, sc[1..])
  }

  /** At most one transition per (event, guard) in every state: Next and Lookup agree. */
  lemma NextIsLookup(ts: seq<MealyTransition>, event: Event, guard: Guard, actions: Actions)
    requires UniqueKeys(ts)
    ensures Next(ts, event, guard, actions) ==
      match Lookup(ts, event, guard)
      case None => None
      case Some(t) => if t.actions == actions then Some(t.dst) else None
  {
  }

  /** A scenario the automaton complies with has no missed actions. */
  lemma {:induction false} CompliesHasNoMissedActions(states: seq<seq<MealyTransition>>, node: nat, sc: Scenario)
    requires ValidTable(states) && node < |states| && WellFormedScenario(sc)
    requires Complies(states, node, sc)
    ensures Missed(states, node, sc) == 0
    decreases |sc|
  {
    if sc != [] {
      var step := sc[0];
      NextIsLookup(states[node], step.events[0], step.guard, step.actions);
      var d := StepTarget(states, node, step).value;
      assert WellFormedScenario(sc[1..]) by {
        forall p | 0 <= p < |sc[1..]| ensures |sc[1..][p].events| >= 1 {
          assert sc[1..][p] == sc[p + 1];
        }
      }
      CompliesHasNoMissedActions(states, d, sc[1..]);
    }
  }

  /** Compliance is prefix-closed: a replay that succeeds succeeds on every prefix. */
  lemma {:induction false} CompliesPrefix(states: seq<seq<MealyTransition>>, node: nat, sc: Scenario, k: nat)
    requires ValidTable(states) && node < |states| && WellFormedScenario(sc)
    requires k <= |sc| && Complies(states, node, sc)
    ensures WellFormedScenario(sc[..k]) && Complies(states, node, sc[..k])
    decreases k
  {
    if k > 0 {
      var d := StepTarget(states, node, sc[0]).value;
      assert sc[..k][0] == sc[0];
      assert sc[..k][1..] == sc[1..][..k - 1];
      CompliesPrefix(states, d, sc[1..], k - 1);
    }
  }

  /** The name part of an event label: all but its last n characters (extractEventName). */
  function EventName(eventLabel: Event, n: nat): (r: string)
    requires n <= |eventLabel|
    ensures |r| == |eventLabel| - n && r + VarAssignment(eventLabel, n) == eventLabel
  {
    eventLabel[..|eventLabel| - n]
  }

  /** The variable-value part of an event label: its last n characters (extractVarAssignmentName). */
  function VarAssignment(eventLabel: Event, n: nat): (r: string)
    requires n <= |eventLabel|
    ensures |r| == n && eventLabel == eventLabel[..|eventLabel| - n] + r
  {
    eventLabel[|eventLabel| - n..]
  }

  /** Bit k (least significant first) of the 32-bit value Integer.valueOf(s, 2). */
  predicate BinaryBit(s: string, k: nat)
  {
    k < |s| && s[|s| - 1 - k] == '1'
  }

  predicate IsBinary(s: string)
  {
    forall i :: 0 <= i < |s| ==> s[i] == '0' || s[i] == '1'
  }

  /** The outcome of merging a group of transitions into one edge for display. */
  datatype MergeResult = NotMergeable | MergedToTautology | MergedToVariable(pos: int) | NumberFormatError

  /**
   * Precondition of canBeMerged: labels end with n binary variable values, n
   * small enough to parse as an int. With no variables (n = 0) the empty
   * variable part does not parse, which the result reports.
   */
  predicate MergeableLabels(ts: seq<MealyTransition>, n: nat)
  {
    n <= 31 &&
    forall i :: 0 <= i < |ts| ==> n <= |ts[i].event| && IsBinary(VarAssignment(ts[i].event, n))
  }

  /** The bits of ~0 & v1 & v2 & ... over the variable values of ts. */
  function AccBits(ts: seq<MealyTransition>, n: nat): (r: seq<bool>)
    requires MergeableLabels(ts, n)
    ensures |r| == 32
    ensures forall k :: 0 <= k < 32 ==> (r[k] <==> forall i :: 0 <= i < |ts| ==> BinaryBit(VarAssignment(ts[i].event, n), k))
  {
    seq(32, k requires 0 <= k < 32 => forall i :: 0 <= i < |ts| ==> BinaryBit(VarAssignment(ts[i].event, n), k))
  }

  function BitCount(bits: seq<bool>): nat
  {
    if bits == [] then 0 else BitCount(bits[..|bits| - 1]) + (if bits[|bits| - 1] then 1 else 0)
  }

  /** The only set bit of a one-bit value. */
  lemma {:induction false} SingleBit(bits: seq<bool>) returns (k: nat)
    requires BitCount(bits) == 1
    ensures k < |bits| && bits[k] && forall j :: 0 <= j < |bits| && j != k ==> !bits[j]
  {
    var last := |bits| - 1;
    if bits[last] {
      k := last;
      ZeroBitCount(bits[..last]);
      assert forall j :: 0 <= j < last ==> bits[j] == bits[..last][j];
    } else {
      k := SingleBit(bits[..last]);
      assert forall j :: 0 <= j < last ==> bits[j] == bits[..last][j];
    }
  }

  lemma {:induction false} ZeroBitCount(bits: seq<bool>)
    requires BitCount(bits) == 0
    ensures forall j :: 0 <= j < |bits| ==> !bits[j]
  {
    if bits != [] {
      ZeroBitCount(bits[..|bits| - 1]);
      assert forall j :: 0 <= j < |bits| - 1 ==> bits[j] == bits[..|bits| - 1][j];
    }
  }

  predicate SameDst(ts: seq<MealyTransition>)
  {
    |ts| >= 1 && forall i :: 0 <= i < |ts| ==> ts[i].dst == ts[0].dst
  }

  predicate SameActions(ts: seq<MealyTransition>)
  {
    |ts| >= 1 && forall i :: 0 <= i < |ts| ==> ts[i].actions == ts[0].actions
  }

  /**
   * canBeMerged as written: the variable position is computed from the value
   * of the common bit (Integer.highestOneBit) rather than its index.
   */
  method CanBeMergedAsWritten(ts: seq<MealyTransition>, n: nat) returns (r: MergeResult)
    requires MergeableLabels(ts, n)
    ensures r != NotMergeable ==> SameDst(ts) && SameActions(ts)
    ensures SameDst(ts) && SameActions(ts) && |ts| == Pow2(n) ==> r == MergedToTautology
    ensures r == NumberFormatError <==> SameDst(ts) && SameActions(ts) && |ts| != Pow2(n) && n == 0
    ensures r.MergedToVariable? ==>
      exists k :: 0 <= k < 32 && AccBits(ts, n)[k] && BitCount(AccBits(ts, n)) == 1 && r.pos == n - Pow2(k)
  {
    if !SameDst(ts) || !SameActions(ts) {
      return NotMergeable;
    }
    if |ts| == Pow2(n) {
      return MergedToTautology;
    }
    if n == 0 {
      return NumberFormatError;
    }
    var acc := AccumulateBits(ts, n);
    if BitCount(acc) == 1 {
      var k := HighestBit(acc);
      return MergedToVariable(n - Pow2(k));
    }
    return NotMergeable;
  }

  /**
   * canBeMerged with the evidently intended position: the index, counted from
   * the left of the variable values, of the one variable all labels set.
   */
  method CanBeMerged(ts: seq<MealyTransition>, n: nat) returns (r: MergeResult)
    requires MergeableLabels(ts, n)
    ensures r != NotMergeable ==> SameDst(ts) && SameActions(ts)
    ensures SameDst(ts) && SameActions(ts) && |ts| == Pow2(n) ==> r == MergedToTautology
    ensures r == NumberFormatError <==> SameDst(ts) && SameActions(ts) && |ts| != Pow2(n) && n == 0
    ensures r.MergedToVariable? ==>
      0 <= r.pos < n && forall i :: 0 <= i < |ts| ==> VarAssignment(ts[i].event, n)[r.pos] == '1'
    ensures SameDst(ts) && SameActions(ts) && |ts| != Pow2(n) && n >= 1 ==>
      (r.MergedToVariable? <==> BitCount(AccBits(ts, n)) == 1) && (r.MergedToVariable? || r == NotMergeable)
  {
    if !SameDst(ts) || !SameActions(ts) {
      return NotMergeable;
    }
    if |ts| == Pow2(n) {
      return MergedToTautology;
    }
    if n == 0 {
      return NumberFormatError;
    }
    r := CommonVariable(ts, n);
  }

  /**
   * The tail of the corrected canBeMerged: the one variable every label
   * sets when exactly one bit is common to all labels, and no merge when
   * none or several are.
   */
  method CommonVariable(ts: seq<MealyTransition>, n: nat) returns (r: MergeResult)
    requires MergeableLabels(ts, n) && |ts| >= 1
    ensures r.MergedToVariable? || r == NotMergeable
    ensures r.MergedToVariable? <==> BitCount(AccBits(ts, n)) == 1
    ensures r.MergedToVariable? ==>
      0 <= r.pos < n && forall i :: 0 <= i < |ts| ==> VarAssignment(ts[i].event, n)[r.pos] == '1'
  {
    var acc := AccumulateBits(ts, n);
    if BitCount(acc) == 1 {
      var k := HighestBit(acc);
      // the common bit is a bit of the first label, hence one of its n variables
      assert BinaryBit(VarAssignment(ts[0].event, n), k);
      r := MergedToVariable(n - 1 - k);
      forall i | 0 <= i < |ts| ensures VarAssignment(ts[i].event, n)[r.pos] == '1' {
        assert BinaryBit(VarAssignment(ts[i].event, n), k);
      }
      return;
    }
    return NotMergeable;
  }

  /** The loop of canBeMerged that ANDs the parsed variable values into acc. */
  method AccumulateBits(ts: seq<MealyTransition>, n: nat) returns (acc: seq<bool>)
    requires MergeableLabels(ts, n)
    ensures acc == AccBits(ts, n)
  {
    acc := seq(32, k => true);
    var i := 0;
    while i < |ts|
      invariant 0 <= i <= |ts| && |acc| == 32
      invariant forall k :: 0 <= k < 32 ==> (acc[k] <==> forall j :: 0 <= j < i ==> BinaryBit(VarAssignment(ts[j].event, n), k))
    {
      var v := VarAssignment(ts[i].event, n);
      acc := seq(32, k requires 0 <= k < 32 => acc[k] && BinaryBit(v, k));
      i := i + 1;
    }
  }

  /** Index of the highest set bit (Integer.highestOneBit is 2 to this power). */
  method HighestBit(bits: seq<bool>) returns (k: nat)
    requires BitCount(bits) == 1
    ensures k < |bits| && bits[k] && forall j :: 0 <= j < |bits| && j != k ==> !bits[j]
  {
    ghost var only := SingleBit(bits);
    k := |bits| - 1;
    while !bits[k]
      invariant only <= k < |bits|
      decreases k
    {
      k := k - 1;
    }
  }

  /** Two transitions on A100 and A101: the only variable they agree on is the first of three. */
  const CommonThirdVariable := [MealyTransition("A100", 1, {}, 1), MealyTransition("A101", 2, {}, 1)]

  /** canBeMerged as written yields an out-of-range position for a common third variable. */
  lemma CanBeMergedAsWrittenCounterexample()
    ensures MergeableLabels(CommonThirdVariable, 3)
    ensures BitCount(AccBits(CommonThirdVariable, 3)) == 1
    ensures forall k :: 0 <= k < 32 && AccBits(CommonThirdVariable, 3)[k] ==> 3 - Pow2(k) == -1
  {
    CommonThirdVariableBits();
    BitCountOneAt(AccBits(CommonThirdVariable, 3), 2);
    assert Pow2(2) == 4;
  }

  lemma CommonThirdVariableLabels()
    ensures VarAssignment(CommonThirdVariable[0].event, 3) == "100"
    ensures VarAssignment(CommonThirdVariable[1].event, 3) == "101"
    ensures MergeableLabels(CommonThirdVariable, 3)
    ensures SameDst(CommonThirdVariable) && SameActions(CommonThirdVariable) && |CommonThirdVariable| != Pow2(3)
    ensures forall i :: 0 <= i < |CommonThirdVariable| ==> VarAssignment(CommonThirdVariable[i].event, 3)[0] == '1'
  {
    assert Pow2(3) == 8;
  }

  lemma CommonThirdVariableBits()
    ensures MergeableLabels(CommonThirdVariable, 3)
    ensures AccBits(CommonThirdVariable, 3)[2]
    ensures forall k :: 0 <= k < 32 && k != 2 ==> !AccBits(CommonThirdVariable, 3)[k]
  {
    CommonThirdVariableLabels();
    var ts := CommonThirdVariable;
    var acc := AccBits(ts, 3);
    forall k | 0 <= k < 32 && k != 2 ensures !acc[k] {
      assert !BinaryBit(VarAssignment(ts[0].event, 3), k);
    }
  }

  lemma {:induction false} BitCountOneAt(bits: seq<bool>, k: nat)
    requires k < |bits| && bits[k] && forall j :: 0 <= j < |bits| && j != k ==> !bits[j]
    ensures BitCount(bits) == 1
  {
    var last := |bits| - 1;
    if k == last {
      BitCountNone(bits[..last]);
    } else {
      BitCountOneAt(bits[..last], k);
    }
  }

  lemma {:induction false} BitCountNone(bits: seq<bool>)
    requires forall j :: 0 <= j < |bits| ==> !bits[j]
    ensures BitCount(bits) == 0
  {
    if bits != [] {
      BitCountNone(bits[..|bits| - 1]);
    }
  }

  class MealyAutomaton {
    var states: seq<seq<MealyTransition>>

    ghost predicate Valid()
      reads this
    {
      |states| >= 1 && ValidTable(states)
    }

    /** Creates states 0..statesCount-1 without transitions; state 0 exists even when statesCount is 0. */
    constructor (statesCount: nat)
      ensures Valid()
      ensures |states| == if statesCount == 0 then 1 else statesCount
      ensures forall s :: 0 <= s < |states| ==> states[s] == []
    {
      states := seq(if statesCount == 0 then 1 else statesCount, _ => []);
    }

    /** Adds a transition from state s (replacing the one with the same event and guard). */
    method AddTransition(s: nat, t: MealyTransition)
      requires Valid() && s < |states| && t.dst < |states|
      modifies this
      ensures Valid()
      ensures states == old(states)[s := Put(old(states)[s], t)]
    {
      states := states[s := Put(states[s], t)];
    }

    /** Removes the transition of state s with the event and guard of t. */
    method RemoveTransition(s: nat, t: MealyTransition)
      requires Valid() && s < |states|
      modifies this
      ensures Valid()
      ensures states == old(states)[s := RemoveKey(old(states)[s], t.event, t.guard)]
    {
      var r := RemoveKey(states[s], t.event, t.guard);
      RemoveKeyLookup(states[s], t.event, t.guard);
      RemoveKeyMembers(states[s], t.event, t.guard);
      forall i | 0 <= i < |r| ensures r[i].dst < |states| {
        assert r[i] in r;
      }
      states := states[s := r];
    }

    /** The transition state s takes on (event, guard), if any (MealyNode.transition). */
    function Transition(s: nat, event: Event, guard: Guard): (r: Option<MealyTransition>)
      requires Valid() && s < |states|
      reads this
      ensures r.Some? ==> r.value.dst < |states| && HasKey(r.value, event, guard) && r.value in states[s]
      ensures r.None? <==> forall i :: 0 <= i < |states[s]| ==> !HasKey(states[s][i], event, guard)
    {
      Lookup(states[s], event, guard)
    }

    /** compliesWith: replays the scenario from the start state, position by position. */
    method CompliesWith(sc: Scenario) returns (r: bool)
      requires Valid() && WellFormedScenario(sc)
      ensures r == Complies(states, 0, sc)
    {
      var node: nat := 0;
      var pos := 0;
      while pos < |sc|
        invariant 0 <= pos <= |sc| && node < |states|
        invariant WellFormedScenario(sc[pos..])
        invariant Complies(states, 0, sc) == Complies(states, node, sc[pos..])
      {
        var step := sc[pos];
        assert sc[pos..][0] == step && sc[pos..][1..] == sc[pos + 1..];
        var target := StepTargetOf(node, step);
        if target.None? {
          return false;
        }
        var d := target.value;
        node := d;
        pos := pos + 1;
      }
      return true;
    }

    /** The state all events of one scenario position lead to, if they agree (the inner loop of compliesWith). */
    method StepTargetOf(node: nat, step: Step) returns (r: Option<nat>)
      requires Valid() && node < |states| && |step.events| >= 1
      ensures r == StepTarget(states, node, step)
    {
      var newNodes: seq<nat> := [];
      var i := 0;
      while i < |step.events|
        invariant 0 <= i <= |step.events| && |newNodes| == i
        invariant forall k :: 0 <= k < i ==> Next(states[node], step.events[k], step.guard, step.actions) == Some(newNodes[k])
      {
        var nn := Next(states[node], step.events[i], step.guard, step.actions);
        if nn.None? {
          return None;
        }
        newNodes := newNodes + [nn.value];
        i := i + 1;
      }
      var d := newNodes[0];
      if exists k :: 0 <= k < |newNodes| && newNodes[k] != d {
        return None;
      }
      return Some(d);
    }

    /** calcMissedActions: counts positions whose recorded actions the automaton does not produce. */
    method CalcMissedActions(sc: Scenario) returns (r: nat)
      requires Valid() && WellFormedScenario(sc)
      ensures r == Missed(states, 0, sc)
      ensures r <= |sc|
    {
      var node: nat := 0;
      var missed := 0;
      var pos := 0;
      while pos < |sc|
        invariant 0 <= pos <= |sc| && node < |states|
        invariant WellFormedScenario(sc[pos..])
        invariant missed + Missed(states, node, sc[pos..]) == Missed(states, 0, sc)
      {
        var step := sc[pos];
        assert sc[pos..][0] == step && sc[pos..][1..] == sc[pos + 1..];
        var t := Transition(node, step.events[0], step.guard);
        if t.None? {
          return missed + |sc| - pos;
        }
        if step.actions != t.value.actions {
          missed := missed + 1;
        }
        node := t.value.dst;
        pos := pos + 1;
      }
      return missed;
    }
  }
}
