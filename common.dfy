/**
 * Vocabulary shared by the whole model: optional values, events, guards and
 * action sets, and a few sequence helpers.
 */
module Common {

  datatype Option<+T> = None | Some(value: T)

  /** An input event label, such as "A01" (an event name followed by variable values). */
  type Event = string

  /**
   * A guard (a boolean expression over input variables). Expressions are
   * interned objects compared by identity, so a guard is an opaque id.
   */
  type Guard = nat

  /** The id of the interned tautology expression. */
  const Tautology: Guard := 0

  /** The actions a transition or state emits, compared as a set of names. */
  type Actions = set<string>

  predicate Distinct<T(==)>(s: seq<T>)
  {
    forall i, j :: 0 <= i < j < |s| ==> s[i] != s[j]
  }

  /** Two duplicate-free sequences with no element in common concatenate to a duplicate-free one. */
  lemma DistinctConcat<T>(a: seq<T>, b: seq<T>)
    requires Distinct(a) && Distinct(b)
    requires forall k, l :: 0 <= k < |a| && 0 <= l < |b| ==> a[k] != b[l]
    ensures Distinct(a + b)
  {
    forall i, j | 0 <= i < j < |a + b|
      ensures (a + b)[i] != (a + b)[j]
    {
      if j < |a| {
        assert (a + b)[i] == a[i] && (a + b)[j] == a[j];
      } else if i < |a| {
        assert (a + b)[i] == a[i] && (a + b)[j] == b[j - |a|];
      } else {
        assert (a + b)[i] == b[i - |a|] && (a + b)[j] == b[j - |a|];
      }
    }
  }

  function Pow2(n: nat): (r: nat)
    ensures r >= 1
    ensures n >= 1 ==> r >= 2 && r % 2 == 0
  {
    if n == 0 then 1 else 2 * Pow2(n - 1)
  }

  function Sum(s: seq<int>): int
  {
    if s == [] then 0 else Sum(s[..|s| - 1]) + s[|s| - 1]
  }

  lemma SumAppend(s: seq<int>, x: int)
    ensures Sum(s + [x]) == Sum(s) + x
  {
    assert (s + [x])[..|s|] == s;
  }

  /** Number of occurrences of x in s. */
  function Count<T(==)>(s: seq<T>, x: T): nat
  {
    if s == [] then 0 else Count(s[..|s| - 1], x) + (if s[|s| - 1] == x then 1 else 0)
  }

  lemma CountAppend<T>(s: seq<T>, y: T, x: T)
    ensures Count(s + [y], x) == Count(s, x) + (if y == x then 1 else 0)
  {
    assert (s + [y])[..|s|] == s;
  }

  lemma {:induction false} CountPositive<T>(s: seq<T>, x: T)
    ensures Count(s, x) > 0 <==> x in s
  {
    if s != [] {
      CountPositive(s[..|s| - 1], x);
      assert s == s[..|s| - 1] + [s[|s| - 1]];
    }
  }

  /** True iff the integers of s are strictly increasing. */
  predicate StrictlyIncreasing(s: seq<int>)
  {
    forall i, j :: 0 <= i < j < |s| ==> s[i] < s[j]
  }

  /** The numbers 0 .. n-1 (states, nodes). */
  function NodeSet(n: nat): (r: set<nat>)
    ensures forall v: nat :: v in r <==> v < n
  {
    if n == 0 then {}
    else
      var r := NodeSet(n - 1) + {n - 1};
      assert forall v: nat :: v in r <==> v < n - 1 || v == n - 1;
      r
  }

  /** Helper: the searches and the verifier build lists back to front. */
  function Reverse<T>(s: seq<T>): (r: seq<T>)
    ensures |r| == |s| && forall i :: 0 <= i < |s| ==> r[i] == s[|s| - 1 - i]
  {
    if s == [] then [] else Reverse(s[1..]) + [s[0]]
  }

  /** Helper for the group frontier walk. */
  lemma ReverseAppendOne<T>(s: seq<T>, x: T)
    ensures Reverse(s + [x]) == [x] + Reverse(s)
  {
    assert Reverse(s + [x]) == [x] + Reverse(s);
  }

  /** Helper for the verifier's counterexample paths and the frontier walks. */
  lemma ReverseReverse<T>(s: seq<T>)
    ensures Reverse(Reverse(s)) == s
  {
    assert Reverse(Reverse(s)) == s;
  }

  /** Helper for the verifier's counterexample paths. */
  lemma ReverseConcat<T>(a: seq<T>, b: seq<T>)
    ensures Reverse(a + b) == Reverse(b) + Reverse(a)
  {
    assert Reverse(a + b) == Reverse(b) + Reverse(a);
  }
}
