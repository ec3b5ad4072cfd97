/**
 * TransitionCounter: a depth-first-search listener that records which
 * algorithm transitions the verifier has finished with. Leaving a state marks
 * the algorithm transition behind each of its outgoing automaton transitions;
 * the count is the number of distinct transitions marked since the last reset.
 */
module TransitionCounting {

  /**
   * An outgoing transition of a verified state: an automaton transition,
   * possibly carrying the algorithm transition it was built from, or some
   * other kind of state transition.
   */
  datatype StateTransition = AutomataTransition(algTransition: AlgTransitionRef) | OtherTransition

  /** A reference to an algorithm transition, or null. */
  datatype AlgTransitionRef = Null | Ref(id: nat)

  /** The algorithm transitions markTransitions records for these outgoing transitions. */
  function AlgTransitions(outgoing: seq<StateTransition>): set<nat>
  {
    set k | 0 <= k < |outgoing| && outgoing[k].AutomataTransition? && outgoing[k].algTransition.Ref? ::
      outgoing[k].algTransition.id
  }

  /** The map after every recorded transition is put with value leave. */
  function Marked(m: map<nat, bool>, outgoing: seq<StateTransition>, leave: bool): map<nat, bool>
  {
    map k | k in m.Keys + AlgTransitions(outgoing) :: if k in AlgTransitions(outgoing) then leave else m[k]
  }

  /** Marking adds exactly the recorded transitions to the key set. */
  lemma MarkedKeys(m: map<nat, bool>, outgoing: seq<StateTransition>, leave: bool)
    ensures Marked(m, outgoing, leave).Keys == m.Keys + AlgTransitions(outgoing)
  {
  }

  /** Marking the same transitions again changes nothing. */
  lemma MarkedIdempotent(m: map<nat, bool>, outgoing: seq<StateTransition>, leave: bool)
    ensures Marked(Marked(m, outgoing, leave), outgoing, leave) == Marked(m, outgoing, leave)
  {
    MarkedKeys(m, outgoing, leave);
    MarkedKeys(Marked(m, outgoing, leave), outgoing, leave);
  }

  /** Marking already-marked transitions does not change the count. */
  lemma MarkedCountUnchanged(m: map<nat, bool>, outgoing: seq<StateTransition>, leave: bool)
    requires AlgTransitions(outgoing) <= m.Keys
    ensures |Marked(m, outgoing, leave).Keys| == |m.Keys|
  {
    MarkedKeys(m, outgoing, leave);
    assert m.Keys + AlgTransitions(outgoing) == m.Keys;
  }

  class TransitionCounter {
    var transitions: map<nat, bool>
    /** The algorithm transitions marked since the last reset. */
    ghost var markedSinceReset: set<nat>

    ghost predicate Valid()
      reads this
    {
      transitions.Keys == markedSinceReset
    }

    constructor()
      ensures Valid() && transitions == map[] && markedSinceReset == {}
    {
      transitions := map[];
      markedSinceReset := {};
    }

    /** enterState: does nothing. */
    method EnterState(outgoing: seq<StateTransition>)
      requires Valid()
      ensures Valid() && transitions == old(transitions) && markedSinceReset == old(markedSinceReset)
    {
    }

    /** leaveState: markTransitions(state, true). */
    method LeaveState(outgoing: seq<StateTransition>)
      requires Valid()
      modifies this
      ensures Valid()
      ensures transitions == Marked(old(transitions), outgoing, true)
      ensures markedSinceReset == old(markedSinceReset) + AlgTransitions(outgoing)
    {
      MarkTransitions(outgoing, true);
      markedSinceReset := markedSinceReset + AlgTransitions(outgoing);
      MarkedKeys(old(transitions), outgoing, true);
    }

    method ResetCounter()
      modifies this
      ensures Valid() && transitions == map[] && markedSinceReset == {}
      ensures CountVerified() == 0
    {
      transitions := map[];
      markedSinceReset := {};
    }

    /** countVerified: the size of the map. */
    function CountVerified(): (n: nat)
      requires Valid()
      reads this
      ensures n == |markedSinceReset|
    {
      |transitions|
    }

    /** The loop over the state's outgoing transitions. */
    method MarkTransitions(outgoing: seq<StateTransition>, leave: bool)
      modifies this`transitions
      ensures transitions == Marked(old(transitions), outgoing, leave)
    {
      for k := 0 to |outgoing|
        invariant transitions == Marked(old(transitions), outgoing[..k], leave)
      {
        var t := outgoing[k];
        if t.AutomataTransition? {
          var algTransition := t.algTransition;
          if algTransition.Ref? {
            MarkStep(old(transitions), outgoing, k, leave);
            transitions := transitions[algTransition.id := leave];
          } else {
            assert AlgTransitions(outgoing[..k + 1]) == AlgTransitions(outgoing[..k]);
          }
        } else {
          assert AlgTransitions(outgoing[..k + 1]) == AlgTransitions(outgoing[..k]);
        }
      }
      assert outgoing[..|outgoing|] == outgoing;
    }
  }

  lemma MarkStep(m: map<nat, bool>, outgoing: seq<StateTransition>, k: nat, leave: bool)
    requires k < |outgoing| && outgoing[k].AutomataTransition? && outgoing[k].algTransition.Ref?
    ensures Marked(m, outgoing[..k + 1], leave) ==
            Marked(m, outgoing[..k], leave)[outgoing[k].algTransition.id := leave]
  {
    assert AlgTransitions(outgoing[..k + 1]) == AlgTransitions(outgoing[..k]) + {outgoing[k].algTransition.id} by {
      var a := outgoing[..k + 1];
      forall x | x in AlgTransitions(a)
        ensures x in AlgTransitions(outgoing[..k]) + {outgoing[k].algTransition.id}
      {
        var i :| 0 <= i < |a| && a[i].AutomataTransition? && a[i].algTransition.Ref? && a[i].algTransition.id == x;
        if i < k {
          assert outgoing[..k][i] == a[i];
        }
      }
      forall x | x in AlgTransitions(outgoing[..k])
        ensures x in AlgTransitions(a)
      {
        var i :| 0 <= i < k && outgoing[..k][i].AutomataTransition? && outgoing[..k][i].algTransition.Ref? &&
          outgoing[..k][i].algTransition.id == x;
        assert a[i] == outgoing[..k][i];
      }
      assert a[k] == outgoing[k];
    }
  }
}
