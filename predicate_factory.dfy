/**
 * PredicateFactory: the LTL predicates evaluated on a step of a verified
 * state machine. The factory remembers the previous state and the transition
 * taken from it; `event` and `action` answer about that transition, or are
 * unknown (null) when the step was a stutter rather than a real transition.
 */
module LtlPredicates {
  import opened Common
  import TraceUtils

  /** A state of the verified machine: its identity and how many outgoing transitions it has. */
  datatype SimpleState = SimpleState(id: nat, outgoingCount: nat)

  /** A transition: its event name (null for the stutter loop), target state and actions. */
  datatype StateTransition = StateTransition(event: Option<string>, target: nat, actions: set<string>)

  /** The pieces of s between commas, empty ones included. */
  function Pieces(s: string): (r: seq<string>)
    ensures |r| >= 1
    ensures forall k :: 0 <= k < |r| ==> ',' !in r[k]
    decreases |s|
  {
    if ',' !in s then [s]
    else
      var i := FirstComma(s);
      [s[..i]] + Pieces(s[i + 1..])
  }

  function FirstComma(s: string): (i: nat)
    requires ',' in s
    ensures i < |s| && s[i] == ',' && ',' !in s[..i]
  {
    if s[0] == ',' then 0
    else
      assert ',' in s[1..] by {
        var k :| 0 <= k < |s| && s[k] == ',';
        assert s[1..][k - 1] == ',';
      }
      var j := FirstComma(s[1..]);
      assert s[..j + 1] == [s[0]] + s[1..][..j];
      j + 1
  }

  /** Java's e.split(","): the whole string when there is no comma, else the pieces without trailing empty ones. */
  function CommaSplit(s: string): seq<string>
  {
    if ',' !in s then [s] else TraceUtils.DropTrailingEmpty(Pieces(s))
  }

  /** name occurs in s delimited by commas or the ends of s, and holds no comma itself. */
  ghost predicate IsField(s: string, name: string)
  {
    ',' !in name &&
    exists i: nat, j: nat :: FieldAt(s, i, j) && s[i..j] == name
  }

  /** s[i..j] is delimited by commas or the ends of s. */
  predicate FieldAt(s: string, i: nat, j: nat)
  {
    i <= j <= |s| && (i == 0 || s[i - 1] == ',') && (j == |s| || s[j] == ',')
  }

  class PredicateFactory {
    /** The previous state, null until the first setAutomataState. */
    var state: Option<SimpleState>
    /** The transition taken from it, null until the first setAutomataState. */
    var transition: Option<StateTransition>

    constructor()
      ensures state.None? && transition.None?
    {
      state := None;
      transition := None;
    }

    /** setAutomataState: overwrites both fields. */
    method SetAutomataState(s: Option<SimpleState>, t: Option<StateTransition>)
      modifies this
      ensures state == s && transition == t
    {
      state := s;
      transition := t;
    }

    /**
     * wasTransition: false exactly for the stutter step, an event-less
     * transition back to the previous state when that state has another
     * way out. A null previous state is never the target.
     */
    predicate WasTransition()
      requires transition.Some?
      reads this
    {
      var t := transition.value;
      !(t.event.None? && state.Some? && t.target == state.value.id && state.value.outgoingCount > 1)
    }

    /** event(e): unknown on a stutter step, else whether the event is one of e's comma-separated names. */
    function Event(e: string): (r: Option<bool>)
      requires transition.Some?
      reads this
      ensures r.None? <==> !WasTransition()
      ensures r.Some? && r.value ==> transition.value.event.Some?
      ensures transition.value.event.Some? && transition.value.event.value != "" && WasTransition() ==>
                r == Some(IsField(e, transition.value.event.value))
    {
      if WasTransition() then
        var b := transition.value.event.Some? && transition.value.event.value in CommaSplit(e);
        if transition.value.event.Some? && transition.value.event.value != "" then
          SplitFindsFields(e, transition.value.event.value);
          Some(b)
        else
          Some(b)
      else
        None
    }

    /** action(z): unknown on a stutter step, else whether the transition performs z. */
    function Action(z: string): (r: Option<bool>)
      requires transition.Some?
      reads this
      ensures r.None? <==> !WasTransition()
      ensures r.Some? ==> (r.value <==> z in transition.value.actions)
    {
      if WasTransition() then Some(z in transition.value.actions) else None
    }
  }

  /** A non-empty name is one of the split's names exactly when it is a comma-delimited field of s. */
  lemma SplitFindsFields(s: string, name: string)
    requires name != ""
    ensures name in CommaSplit(s) <==> IsField(s, name)
  {
    if ',' !in s {
      WholeField(s, name);
    } else {
      DropKeepsNonEmpty(Pieces(s), name);
      PiecesAreFields(s, name);
    }
  }

  /** Dropping trailing empty pieces keeps every non-empty one. */
  lemma DropKeepsNonEmpty(r: seq<string>, name: string)
    requires name != ""
    ensures name in TraceUtils.DropTrailingEmpty(r) <==> name in r
  {
    var d := TraceUtils.DropTrailingEmpty(r);
    if name in r {
      var k :| 0 <= k < |r| && r[k] == name;
      assert k < |d|;
      assert d[k] == name;
    }
  }

  /** The pieces of s are exactly its comma-delimited fields. */
  lemma {:induction false} PiecesAreFields(s: string, name: string)
    ensures name in Pieces(s) <==> IsField(s, name)
    decreases |s|
  {
    if ',' !in s {
      WholeField(s, name);
    } else {
      var c := FirstComma(s);
      var rest := s[c + 1..];
      PiecesAreFields(rest, name);
      assert Pieces(s) == [s[..c]] + Pieces(rest);
      HeadField(s, c);
      if IsField(rest, name) {
        ShiftField(s, c, name);
      }
      if IsField(s, name) && name != s[..c] {
        UnshiftField(s, c, name);
      }
    }
  }

  /** Without commas, the only field is the whole string. */
  lemma WholeField(s: string, name: string)
    requires ',' !in s
    ensures IsField(s, name) <==> name == s
  {
    if name == s {
      assert s[0..|s|] == s;
      assert FieldAt(s, 0, |s|);
    }
    if IsField(s, name) {
      var i: nat, j: nat :| FieldAt(s, i, j) && s[i..j] == name;
      assert i == 0 && j == |s|;
      assert s[..] == s;
    }
  }

  /** The text before the first comma is a field. */
  lemma HeadField(s: string, c: nat)
    requires ',' in s && c == FirstComma(s)
    ensures IsField(s, s[..c])
  {
    assert s[0..c] == s[..c];
    assert FieldAt(s, 0, c);
  }

  /** A field after the first comma is a field of the whole string. */
  lemma ShiftField(s: string, c: nat, name: string)
    requires ',' in s && c == FirstComma(s)
    requires IsField(s[c + 1..], name)
    ensures IsField(s, name)
  {
    var rest := s[c + 1..];
    var i: nat, j: nat :| FieldAt(rest, i, j) && rest[i..j] == name;
    assert s[c + 1 + i..c + 1 + j] == name;
    assert FieldAt(s, c + 1 + i, c + 1 + j);
  }

  /** A field other than the head lies after the first comma. */
  lemma UnshiftField(s: string, c: nat, name: string)
    requires ',' in s && c == FirstComma(s)
    requires IsField(s, name) && name != s[..c]
    ensures IsField(s[c + 1..], name)
  {
    var rest := s[c + 1..];
    var i: nat, j: nat :| FieldAt(s, i, j) && s[i..j] == name;
    if i <= c {
      FieldInHead(s, c, i, j);
    }
    assert rest[i - c - 1..j - c - 1] == name;
    assert FieldAt(rest, i - c - 1, j - c - 1);
  }

  /** A comma-free field starting before the first comma is the head. */
  lemma FieldInHead(s: string, c: nat, i: nat, j: nat)
    requires ',' in s && c == FirstComma(s)
    requires FieldAt(s, i, j) && ',' !in s[i..j] && i <= c
    ensures i == 0 && j == c
  {
    assert forall k :: 0 <= k < c ==> s[..c][k] == s[k];
    assert forall k :: i <= k < j ==> s[i..j][k - i] == s[k];
  }
}
