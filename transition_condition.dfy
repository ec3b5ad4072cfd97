/**
 * TransitionCondition: the label of a Buchi automaton transition, a
 * conjunction of expressions that must hold and expressions that must not.
 * Expressions are three-valued (true, false or unknown), so the condition
 * holds only when every positive expression is known true and every negated
 * one is known false.
 */
module TransitionConditions {
  import opened Strings

  /** An LTL predicate expression, an interned object compared by identity. */
  type Expression = nat

  /** The value of an expression in the current state: None is unknown (null). */
  datatype Value = Unknown | Known(b: bool)

  /** The condition holds under value: positives known true, negatives known false. */
  ghost predicate Holds(exprs: set<Expression>, negExprs: set<Expression>, value: Expression -> Value)
  {
    (forall e :: e in exprs ==> value(e) == Known(true)) &&
    (forall e :: e in negExprs ==> value(e) == Known(false))
  }

  /** Adding a positive expression strengthens the condition by exactly that expression. */
  lemma AddExpressionStrengthens(exprs: set<Expression>, negExprs: set<Expression>, value: Expression -> Value,
                                 e: Expression)
    ensures Holds(exprs + {e}, negExprs, value) <==> Holds(exprs, negExprs, value) && value(e) == Known(true)
  {
  }

  /** Adding a negated expression strengthens the condition by exactly its negation. */
  lemma AddNegExpressionStrengthens(exprs: set<Expression>, negExprs: set<Expression>, value: Expression -> Value,
                                    e: Expression)
    ensures Holds(exprs, negExprs + {e}, value) <==> Holds(exprs, negExprs, value) && value(e) == Known(false)
  {
  }

  /** The texts of the expressions of order, each preceded by prefix. */
  function Names(order: seq<Expression>, prefix: string, name: Expression -> string): (r: seq<string>)
    ensures |r| == |order|
  {
    if order == [] then [] else Names(order[..|order| - 1], prefix, name) + [prefix + name(order[|order| - 1])]
  }

  /** The parts toString joins: positives, then "!"-prefixed negatives. */
  function Parts(positives: seq<Expression>, negatives: seq<Expression>, name: Expression -> string): seq<string>
  {
    Names(positives, "", name) + Names(negatives, "!", name)
  }

  /** The sequence lists the elements of the set, each once. */
  predicate Enumerates<T(==)>(s: seq<T>, elems: set<T>)
  {
    (forall k :: 0 <= k < |s| ==> s[k] in elems) &&
    (forall x :: x in elems ==> x in s) &&
    (forall i, j :: 0 <= i < j < |s| ==> s[i] != s[j])
  }

  /** toString's text for a condition with the given iteration orders. */
  function Text(positives: seq<Expression>, negatives: seq<Expression>, name: Expression -> string): string
  {
    if positives == [] && negatives == [] then "true" else Join(Parts(positives, negatives, name), " && ")
  }

  class TransitionCondition {
    var exprs: set<Expression>
    var negExprs: set<Expression>

    constructor()
      ensures exprs == {} && negExprs == {}
    {
      exprs := {};
      negExprs := {};
    }

    constructor FromSets(exprs: set<Expression>, negExprs: set<Expression>)
      ensures this.exprs == exprs && this.negExprs == negExprs
    {
      this.exprs := exprs;
      this.negExprs := negExprs;
    }

    /** getValue: the loops over both sets with an early false. */
    method GetValue(value: Expression -> Value) returns (b: bool)
      ensures b <==> Holds(exprs, negExprs, value)
    {
      var rest := exprs;
      while rest != {}
        invariant rest <= exprs
        invariant forall e :: e in exprs - rest ==> value(e) == Known(true)
        decreases rest
      {
        var expr :| expr in rest;
        if value(expr).Unknown? || !value(expr).b {
          return false;
        }
        rest := rest - {expr};
      }
      rest := negExprs;
      while rest != {}
        invariant rest <= negExprs
        invariant forall e :: e in negExprs - rest ==> value(e) == Known(false)
        decreases rest
      {
        var expr :| expr in rest;
        if value(expr).Unknown? || value(expr).b {
          return false;
        }
        rest := rest - {expr};
      }
      return true;
    }

    method AddExpression(e: Expression)
      modifies this
      ensures exprs == old(exprs) + {e} && negExprs == old(negExprs)
    {
      exprs := exprs + {e};
    }

    method AddNegExpression(e: Expression)
      modifies this
      ensures negExprs == old(negExprs) + {e} && exprs == old(exprs)
    {
      negExprs := negExprs + {e};
    }

    /**
     * toString: each positive expression and then each "!"-prefixed negated
     * one followed by " && ", the last separator cut off; "true" when both
     * sets are empty. The sets' iteration order is whatever the choices give.
     */
    method ToString(name: Expression -> string) returns (s: string, ghost positives: seq<Expression>,
                                                         ghost negatives: seq<Expression>)
      ensures Enumerates(positives, exprs) && Enumerates(negatives, negExprs)
      ensures s == Text(positives, negatives, name)
    {
      var buf := "";
      buf, positives := AppendEach(buf, exprs, "", name);
      buf, negatives := AppendEach(buf, negExprs, "!", name);
      assert buf == Buffer(Parts(positives, negatives, name)) by {
        BufferConcat(Names(positives, "", name), Names(negatives, "!", name));
      }
      if exprs == {} && negExprs == {} {
        return "true", positives, negatives;
      } else {
        if exprs != {} {
          var x :| x in exprs;
          assert x in positives;
        } else {
          var x :| x in negExprs;
          assert x in negatives;
        }
        BufferJoin(Parts(positives, negatives, name));
        s := buf[..|buf| - 4];
      }
    }
  }

  /** One loop of toString: each element of elems, in some order, as prefix, its text and " && ". */
  method AppendEach(buf: string, elems: set<Expression>, prefix: string, name: Expression -> string)
    returns (buf': string, ghost order: seq<Expression>)
    ensures Enumerates(order, elems)
    ensures buf' == buf + Buffer(Names(order, prefix, name))
  {
    buf' := buf;
    order := [];
    var rest := elems;
    while rest != {}
      invariant rest <= elems && Enumerates(order, elems - rest)
      invariant buf' == buf + Buffer(Names(order, prefix, name))
      decreases rest
    {
      var expr :| expr in rest;
      buf' := buf' + prefix + name(expr) + " && ";
      NamesStep(order, expr, prefix, name);
      EnumeratesStep(order, elems, rest, expr);
      order := order + [expr];
      rest := rest - {expr};
    }
  }

  lemma NamesStep(order: seq<Expression>, x: Expression, prefix: string, name: Expression -> string)
    ensures Buffer(Names(order + [x], prefix, name)) == Buffer(Names(order, prefix, name)) + prefix + name(x) + " && "
  {
    assert (order + [x])[..|order|] == order;
    BufferAppend(Names(order, prefix, name), prefix + name(x));
  }

  lemma EnumeratesStep(order: seq<Expression>, elems: set<Expression>, rest: set<Expression>, x: Expression)
    requires rest <= elems && x in rest && Enumerates(order, elems - rest)
    ensures Enumerates(order + [x], elems - (rest - {x}))
  {
    assert x !in order;
  }

  /** The builder's content: every part followed by " && ". */
  function Buffer(parts: seq<string>): string
  {
    if parts == [] then "" else Buffer(parts[..|parts| - 1]) + parts[|parts| - 1] + " && "
  }

  lemma BufferAppend(parts: seq<string>, p: string)
    ensures Buffer(parts + [p]) == Buffer(parts) + p + " && "
  {
    assert (parts + [p])[..|parts|] == parts;
  }

  lemma {:induction false} BufferJoin(parts: seq<string>)
    requires parts != []
    ensures |Buffer(parts)| >= 4 && Buffer(parts)[..|Buffer(parts)| - 4] == Join(parts, " && ")
    decreases |parts|
  {
    var front := parts[..|parts| - 1];
    var last := parts[|parts| - 1];
    if front == [] {
      assert Buffer(parts) == "" + last + " && ";
    } else {
      BufferJoin(front);
      var b := Buffer(front);
      assert b == b[..|b| - 4] + " && ";
      assert Buffer(parts) == b + last + " && ";
      assert Buffer(parts)[..|Buffer(parts)| - 4] == b + last;
      assert Join(parts, " && ") == Join(front, " && ") + " && " + last;
    }
  }

  lemma {:induction false} BufferConcat(a: seq<string>, b: seq<string>)
    ensures Buffer(a + b) == Buffer(a) + Buffer(b)
    decreases |b|
  {
    if b == [] {
      assert a + b == a;
    } else {
      var front := b[..|b| - 1];
      BufferConcat(a, front);
      assert a + b == (a + front) + [b[|b| - 1]];
      BufferAppend(a + front, b[|b| - 1]);
    }
  }
}
