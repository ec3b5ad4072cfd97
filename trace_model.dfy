/**
 * TraceModelGenerator's interval encoding: a set of integer values (the
 * indices an output variable takes in the traces) is compressed into maximal
 * runs of consecutive values and then written as a NuSMV set expression or
 * a SPIN condition.
 */
module TraceModel {
  import opened Common
  import opened Strings

  /** A closed range left..right, a Pair<Integer, Integer>. */
  datatype Interval = Interval(left: int, right: int)

  /** The result of intervals: the list, or the AssertionError raised on a value that does not increase. */
  datatype IntervalsResult = Intervals(list: seq<Interval>) | NotIncreasing

  predicate NonNegative(vs: seq<int>)
  {
    forall k :: 0 <= k < |vs| ==> vs[k] >= 0
  }

  /** v lies in one of the intervals. */
  predicate Contains(iv: seq<Interval>, v: int)
  {
    exists k :: 0 <= k < |iv| && iv[k].left <= v <= iv[k].right
  }

  /** Non-negative, non-empty intervals in ascending order with at least one missing value between any two. */
  predicate Separated(iv: seq<Interval>)
  {
    (forall k :: 0 <= k < |iv| ==> 0 <= iv[k].left <= iv[k].right) &&
    (forall i, j :: 0 <= i < j < |iv| ==> iv[i].right + 2 <= iv[j].left)
  }

  /**
   * The loop of intervals over the values still to come, with the current
   * run min..max (min == -1 before the first value) and the runs closed so far.
   */
  function Scan(vs: seq<int>, min: int, max: int, acc: seq<Interval>): IntervalsResult
    decreases |vs|
  {
    if vs == [] then Intervals(acc + [Interval(min, max)])
    else
      var value := vs[0];
      if min == -1 then Scan(vs[1..], value, value, acc)
      else if value == max + 1 then Scan(vs[1..], min, value, acc)
      else if value <= max then NotIncreasing
      else Scan(vs[1..], value, value, acc + [Interval(min, max)])
  }

  /** intervals(values), values in their iteration order. */
  function IntervalsOf(values: seq<int>): IntervalsResult
  {
    Scan(values, -1, -1, [])
  }

  /** intervals: the for-each loop updating min and max and closing runs. */
  method ComputeIntervals(values: seq<int>) returns (r: IntervalsResult)
    ensures r == IntervalsOf(values)
  {
    var acc: seq<Interval> := [];
    var min := -1;
    var max := -1;
    for k := 0 to |values|
      invariant Scan(values[k..], min, max, acc) == IntervalsOf(values)
    {
      assert values[k..][1..] == values[k + 1..];
      var value := values[k];
      if min == -1 {
        min, max := value, value;
      } else if value == max + 1 {
        max := value;
      } else if value <= max {
        return NotIncreasing;
      } else {
        acc := acc + [Interval(min, max)];
        min, max := value, value;
      }
    }
    r := Intervals(acc + [Interval(min, max)]);
  }

  lemma ContainsAppend(iv: seq<Interval>, i: Interval, v: int)
    ensures Contains(iv + [i], v) <==> Contains(iv, v) || i.left <= v <= i.right
  {
    if Contains(iv, v) {
      var k :| 0 <= k < |iv| && iv[k].left <= v <= iv[k].right;
      assert (iv + [i])[k] == iv[k];
    }
    if i.left <= v <= i.right {
      assert (iv + [i])[|iv|] == i;
    }
    if Contains(iv + [i], v) {
      var k :| 0 <= k < |iv| + 1 && (iv + [i])[k].left <= v <= (iv + [i])[k].right;
      if k < |iv| {
        assert (iv + [i])[k] == iv[k];
      }
    }
  }

  lemma SeparatedAppend(acc: seq<Interval>, i: Interval)
    requires Separated(acc) && 0 <= i.left <= i.right
    requires acc != [] ==> acc[|acc| - 1].right + 2 <= i.left
    ensures Separated(acc + [i])
  {
    var r := acc + [i];
    forall a, b | 0 <= a < b < |r|
      ensures r[a].right + 2 <= r[b].left
    {
      if b == |acc| && a < |acc| - 1 {
        assert acc[a].right + 2 <= acc[|acc| - 1].left;
      }
    }
  }

  /** From an open run, the scan closes runs that cover exactly what it has seen and will see. */
  lemma {:induction false} ScanCovers(vs: seq<int>, min: int, max: int, acc: seq<Interval>)
    requires 0 <= min <= max && NonNegative(vs) && StrictlyIncreasing(vs)
    requires vs != [] ==> max < vs[0]
    requires Separated(acc) && (acc != [] ==> acc[|acc| - 1].right + 2 <= min)
    ensures Scan(vs, min, max, acc).Intervals?
    ensures Separated(Scan(vs, min, max, acc).list)
    ensures forall v :: Contains(Scan(vs, min, max, acc).list, v) <==> Contains(acc, v) || min <= v <= max || v in vs
    decreases |vs|
  {
    if vs == [] {
      SeparatedAppend(acc, Interval(min, max));
      forall v
        ensures Contains(acc + [Interval(min, max)], v) <==> Contains(acc, v) || min <= v <= max
      {
        ContainsAppend(acc, Interval(min, max), v);
      }
    } else {
      var value := vs[0];
      var rest := vs[1..];
      assert forall v :: v in vs <==> v == value || v in rest;
      assert rest != [] ==> value < rest[0];
      if value == max + 1 {
        ScanCovers(rest, min, value, acc);
      } else {
        SeparatedAppend(acc, Interval(min, max));
        ScanCovers(rest, value, value, acc + [Interval(min, max)]);
        forall v
          ensures Contains(acc + [Interval(min, max)], v) <==> Contains(acc, v) || min <= v <= max
        {
          ContainsAppend(acc, Interval(min, max), v);
        }
      }
    }
  }

  /**
   * For strictly increasing non-negative values, intervals succeeds with
   * ascending runs separated by gaps whose union is exactly the values; no
   * values give the single interval (-1, -1).
   */
  lemma IntervalsOfIncreasing(values: seq<int>)
    requires NonNegative(values) && StrictlyIncreasing(values)
    ensures IntervalsOf(values).Intervals?
    ensures values == [] ==> IntervalsOf(values).list == [Interval(-1, -1)]
    ensures values != [] ==> Separated(IntervalsOf(values).list)
    ensures values != [] ==> forall v :: Contains(IntervalsOf(values).list, v) <==> v in values
  {
    if values != [] {
      var rest := values[1..];
      assert forall v :: v in values <==> v == values[0] || v in rest;
      assert rest != [] ==> values[0] < rest[0];
      ScanCovers(rest, values[0], values[0], []);
    }
  }

  /** Separated runs are maximal: the values just outside each run are in no run. */
  lemma MaximalRuns(iv: seq<Interval>)
    requires Separated(iv)
    ensures forall k :: 0 <= k < |iv| ==> !Contains(iv, iv[k].left - 1) && !Contains(iv, iv[k].right + 1)
  {
    forall k | 0 <= k < |iv|
      ensures !Contains(iv, iv[k].left - 1) && !Contains(iv, iv[k].right + 1)
    {
      forall m | 0 <= m < |iv|
        ensures !(iv[m].left <= iv[k].left - 1 <= iv[m].right)
        ensures !(iv[m].left <= iv[k].right + 1 <= iv[m].right)
      {
        if m < k {
          assert iv[m].right + 2 <= iv[k].left;
        } else if k < m {
          assert iv[k].right + 2 <= iv[m].left;
        }
      }
    }
  }

  lemma ConsIncreasing(m: int, vs: seq<int>)
    requires StrictlyIncreasing(vs) && (vs != [] ==> m < vs[0])
    ensures StrictlyIncreasing([m] + vs)
  {
    var s := [m] + vs;
    forall i, j | 0 <= i < j < |s|
      ensures s[i] < s[j]
    {
      if i == 0 && j > 1 {
        assert vs[0] < vs[j - 1];
      }
    }
  }

  /** A scan from an open run that succeeds has seen strictly increasing values. */
  lemma {:induction false} ScanOkIncreasing(vs: seq<int>, min: int, max: int, acc: seq<Interval>)
    requires min >= 0 && NonNegative(vs) && Scan(vs, min, max, acc).Intervals?
    ensures StrictlyIncreasing([max] + vs)
    decreases |vs|
  {
    if vs != [] {
      var value := vs[0];
      var rest := vs[1..];
      assert vs == [value] + rest;
      if value == max + 1 {
        ScanOkIncreasing(rest, min, value, acc);
      } else if value > max {
        ScanOkIncreasing(rest, value, value, acc + [Interval(min, max)]);
      }
      assert StrictlyIncreasing(vs) by {
        assert ([value] + rest)[1..] == rest;
      }
      ConsIncreasing(max, vs);
    }
  }

  /** For non-negative values, intervals raises its AssertionError exactly when they do not strictly increase. */
  lemma IntervalsRejects(values: seq<int>)
    requires NonNegative(values)
    ensures IntervalsOf(values).NotIncreasing? <==> !StrictlyIncreasing(values)
  {
    if StrictlyIncreasing(values) {
      IntervalsOfIncreasing(values);
    } else if values != [] {
      var rest := values[1..];
      assert values == [values[0]] + rest;
      if Scan(rest, values[0], values[0], []).Intervals? {
        ScanOkIncreasing(rest, values[0], values[0], []);
      }
    }
  }

  /** The intervals written as ranges: those holding more than two values, in order. */
  function LongRanges(iv: seq<Interval>): (r: seq<Interval>)
    ensures forall k :: 0 <= k < |r| ==> r[k].left + 1 < r[k].right
  {
    if iv == [] then []
    else
      var front := LongRanges(iv[..|iv| - 1]);
      var i := iv[|iv| - 1];
      if i.left + 1 >= i.right then front else front + [i]
  }

  /** The TreeSet `separate`: both ends of every interval holding at most two values. */
  function ShortEnds(iv: seq<Interval>): (r: seq<int>)
    ensures StrictlyIncreasing(r)
  {
    if iv == [] then []
    else
      var front := ShortEnds(iv[..|iv| - 1]);
      var i := iv[|iv| - 1];
      if i.left + 1 >= i.right then Insert(Insert(front, i.left), i.right) else front
  }

  /** Splitting into long ranges and separate values loses no value and adds none. */
  lemma {:induction false} SplitCovers(iv: seq<Interval>, v: int)
    requires forall k :: 0 <= k < |iv| ==> iv[k].left <= iv[k].right
    ensures Contains(iv, v) <==> Contains(LongRanges(iv), v) || v in ShortEnds(iv)
    decreases |iv|
  {
    if iv != [] {
      var front := iv[..|iv| - 1];
      var i := iv[|iv| - 1];
      SplitCovers(front, v);
      assert iv == front + [i];
      ContainsAppend(front, i, v);
      if i.left + 1 < i.right {
        ContainsAppend(LongRanges(front), i, v);
      }
    }
  }

  /**
   * The parts of both renderings denote exactly the values: for strictly
   * increasing non-negative input, v is in a long range or among the
   * separate values iff it is one of the values.
   */
  lemma ExpressionCoversValues(values: seq<int>, v: int)
    requires NonNegative(values) && StrictlyIncreasing(values) && values != []
    ensures IntervalsOf(values).Intervals?
    ensures Contains(LongRanges(IntervalsOf(values).list), v) || v in ShortEnds(IntervalsOf(values).list) <==>
            v in values
  {
    IntervalsOfIncreasing(values);
    SplitCovers(IntervalsOf(values).list, v);
  }

  /** The NuSMV text of one range, a..b. */
  function NuSMVRange(l: int, r: int): string
  {
    IntToString(l) + ".." + IntToString(r)
  }

  function NuSMVRanges(rs: seq<Interval>): (r: seq<string>)
    ensures |r| == |rs|
  {
    if rs == [] then []
    else NuSMVRanges(rs[..|rs| - 1]) + [NuSMVRange(rs[|rs| - 1].left, rs[|rs| - 1].right)]
  }

  /** Each long range is rendered a..b. */
  lemma {:induction false} NuSMVRangesAt(rs: seq<Interval>, k: nat)
    requires k < |rs|
    ensures NuSMVRanges(rs)[k] == NuSMVRange(rs[k].left, rs[k].right)
    decreases |rs|
  {
    if k < |rs| - 1 {
      NuSMVRangesAt(rs[..|rs| - 1], k);
    }
  }

  /** The NuSMV text of intervals: the ranges, then the separate values as one set, joined by " union ". */
  function NuSMVText(iv: seq<Interval>): string
  {
    var separate := ShortEnds(iv);
    Join(NuSMVRanges(LongRanges(iv)) +
         (if separate == [] then [] else ["{" + Join(IntStrings(separate), ", ") + "}"]), " union ")
  }

  /** expressWithIntervalsNuSMV: None where intervals raises its AssertionError. */
  function ExpressWithIntervalsNuSMV(values: seq<int>): (r: Option<string>)
    ensures r.None? <==> IntervalsOf(values).NotIncreasing?
  {
    match IntervalsOf(values)
    case NotIncreasing => None
    case Intervals(iv) => Some(NuSMVText(iv))
  }

  /** The SPIN condition of one range. */
  function SpinRange(varName: string, l: int, r: int): string
  {
    varName + (" >= " + (IntToString(l) + (" && " + (varName + (" <= " + IntToString(r))))))
  }

  /** The SPIN condition of one separate value. */
  function SpinEqual(varName: string, v: int): string
  {
    varName + (" == " + IntToString(v))
  }

  function SpinRanges(rs: seq<Interval>, varName: string): (r: seq<string>)
    ensures |r| == |rs|
  {
    if rs == [] then []
    else SpinRanges(rs[..|rs| - 1], varName) + [SpinRange(varName, rs[|rs| - 1].left, rs[|rs| - 1].right)]
  }

  function SpinEquals(vs: seq<int>, varName: string): (r: seq<string>)
    ensures |r| == |vs|
  {
    if vs == [] then [] else SpinEquals(vs[..|vs| - 1], varName) + [SpinEqual(varName, vs[|vs| - 1])]
  }

  /** Each long range becomes its range condition. */
  lemma {:induction false} SpinRangesAt(rs: seq<Interval>, varName: string, k: nat)
    requires k < |rs|
    ensures SpinRanges(rs, varName)[k] == SpinRange(varName, rs[k].left, rs[k].right)
    decreases |rs|
  {
    if k < |rs| - 1 {
      SpinRangesAt(rs[..|rs| - 1], varName, k);
    }
  }

  /** Each separate value becomes its equality. */
  lemma {:induction false} SpinEqualsAt(vs: seq<int>, varName: string, k: nat)
    requires k < |vs|
    ensures SpinEquals(vs, varName)[k] == SpinEqual(varName, vs[k])
    decreases |vs|
  {
    if k < |vs| - 1 {
      SpinEqualsAt(vs[..|vs| - 1], varName, k);
    }
  }

  /** The SPIN text of intervals: range conditions, then one equality per separate value, joined by " || ". */
  function SpinText(iv: seq<Interval>, varName: string): string
  {
    Join(SpinRanges(LongRanges(iv), varName) + SpinEquals(ShortEnds(iv), varName), " || ")
  }

  /** expressWithIntervalsSPIN: None where intervals raises its AssertionError. */
  function ExpressWithIntervalsSpin(values: seq<int>, varName: string): (r: Option<string>)
    ensures r.None? <==> IntervalsOf(values).NotIncreasing?
  {
    match IntervalsOf(values)
    case NotIncreasing => None
    case Intervals(iv) => Some(SpinText(iv, varName))
  }

  // ---------------------------------------------------------------------------
  // Reading the texts back

  /** A rendered integer followed by a separator that cannot start a number is read back whole. */
  lemma RenderedPrefix(x: int, y: int, sep: string, s: string, t: string)
    requires |sep| >= 1 && sep[0] != '-' && !('0' <= sep[0] <= '9')
    requires IntToString(x) + (sep + s) == IntToString(y) + (sep + t)
    ensures x == y && s == t
  {
    var a, b := IntToString(x), IntToString(y);
    var u := a + (sep + s);
    IntToStringChars(x);
    IntToStringChars(y);
    assert u[|a|] == sep[0] && u[|b|] == sep[0];
    assert forall k :: 0 <= k < |a| ==> u[k] == a[k];
    assert forall k :: 0 <= k < |b| ==> u[k] == b[k];
    assert |a| == |b|;
    IntToStringInjective(x, y);
    assert s == u[|a| + |sep|..] == t;
  }

  lemma ConcatAssoc(a: string, b: string, c: string)
    ensures a + b + c == a + (b + c)
  {
  }

  /** Different ranges have different NuSMV texts. */
  lemma NuSMVRangeInjective(l: int, r: int, l': int, r': int)
    requires NuSMVRange(l, r) == NuSMVRange(l', r')
    ensures l == l' && r == r'
  {
    ConcatAssoc(IntToString(l), "..", IntToString(r));
    ConcatAssoc(IntToString(l'), "..", IntToString(r'));
    RenderedPrefix(l, l', "..", IntToString(r), IntToString(r'));
    IntToStringInjective(r, r');
  }

  /** Equal texts after a common prefix. */
  lemma DropPrefix(p: string, s: string, t: string)
    requires p + s == p + t
    ensures s == t
  {
    assert s == (p + s)[|p|..];
  }

  /** Different ranges have different SPIN conditions. */
  lemma SpinRangeInjective(varName: string, l: int, r: int, l': int, r': int)
    requires SpinRange(varName, l, r) == SpinRange(varName, l', r')
    ensures l == l' && r == r'
  {
    var tail, tail' := varName + (" <= " + IntToString(r)), varName + (" <= " + IntToString(r'));
    DropPrefix(varName, " >= " + (IntToString(l) + (" && " + tail)), " >= " + (IntToString(l') + (" && " + tail')));
    DropPrefix(" >= ", IntToString(l) + (" && " + tail), IntToString(l') + (" && " + tail'));
    RenderedPrefix(l, l', " && ", tail, tail');
    DropPrefix(varName, " <= " + IntToString(r), " <= " + IntToString(r'));
    DropPrefix(" <= ", IntToString(r), IntToString(r'));
    IntToStringInjective(r, r');
  }

  /** Different values have different SPIN equalities. */
  lemma SpinEqualInjective(varName: string, v: int, v': int)
    requires SpinEqual(varName, v) == SpinEqual(varName, v')
    ensures v == v'
  {
    DropPrefix(varName, " == " + IntToString(v), " == " + IntToString(v'));
    DropPrefix(" == ", IntToString(v), IntToString(v'));
    IntToStringInjective(v, v');
  }

  /** A range condition is never an equality. */
  lemma SpinRangeNotEqual(varName: string, l: int, r: int, v: int)
    ensures SpinRange(varName, l, r) != SpinEqual(varName, v)
  {
    assert SpinRange(varName, l, r)[|varName| + 1] == '>';
    assert SpinEqual(varName, v)[|varName| + 1] == '=';
  }

  /** A range the NuSMV text lists is one of the long ranges. */
  lemma NuSMVRangeListed(long: seq<Interval>, l: int, r: int, v: int)
    requires l <= v <= r && NuSMVRange(l, r) in NuSMVRanges(long)
    ensures Contains(long, v)
  {
    var ranges := NuSMVRanges(long);
    var k :| 0 <= k < |ranges| && ranges[k] == NuSMVRange(l, r);
    NuSMVRangesAt(long, k);
    NuSMVRangeInjective(l, r, long[k].left, long[k].right);
    assert long[k].left <= v <= long[k].right;
  }

  /**
   * The NuSMV text denotes exactly the values: for strictly increasing
   * non-negative input, v is a value iff it lies in a range the text lists
   * or is written in its set of separate values.
   */
  lemma NuSMVTextMeaning(values: seq<int>, v: int)
    requires NonNegative(values) && StrictlyIncreasing(values) && values != []
    ensures IntervalsOf(values).Intervals?
    ensures var iv := IntervalsOf(values).list;
      v in values <==>
        (exists l: int, r: int :: l <= v <= r && NuSMVRange(l, r) in NuSMVRanges(LongRanges(iv))) ||
        IntToString(v) in IntStrings(ShortEnds(iv))
  {
    ExpressionCoversValues(values, v);
    var iv := IntervalsOf(values).list;
    var long, separate := LongRanges(iv), ShortEnds(iv);
    var ranges := NuSMVRanges(long);
    if Contains(long, v) {
      var k :| 0 <= k < |long| && long[k].left <= v <= long[k].right;
      NuSMVRangesAt(long, k);
      assert NuSMVRange(long[k].left, long[k].right) in ranges;
    }
    if v in separate {
      var k :| 0 <= k < |separate| && separate[k] == v;
      assert IntStrings(separate)[k] == IntToString(v);
    }
    if exists l: int, r: int :: l <= v <= r && NuSMVRange(l, r) in ranges {
      var l: int, r: int :| l <= v <= r && NuSMVRange(l, r) in ranges;
      NuSMVRangeListed(long, l, r, v);
    }
    if IntToString(v) in IntStrings(separate) {
      var k :| 0 <= k < |separate| && IntStrings(separate)[k] == IntToString(v);
      IntToStringInjective(v, separate[k]);
    }
  }

  /** A range condition among the disjuncts is the condition of one of the long ranges. */
  lemma SpinRangeListed(long: seq<Interval>, separate: seq<int>, varName: string, l: int, r: int, v: int)
    requires l <= v <= r && SpinRange(varName, l, r) in SpinRanges(long, varName) + SpinEquals(separate, varName)
    ensures Contains(long, v)
  {
    var ranges, equals := SpinRanges(long, varName), SpinEquals(separate, varName);
    var text := SpinRange(varName, l, r);
    if text in ranges {
      var k :| 0 <= k < |ranges| && ranges[k] == text;
      SpinRangesAt(long, varName, k);
      SpinRangeInjective(varName, l, r, long[k].left, long[k].right);
      assert long[k].left <= v <= long[k].right;
    } else {
      assert text in equals;
      var k :| 0 <= k < |equals| && equals[k] == text;
      SpinEqualsAt(separate, varName, k);
      SpinRangeNotEqual(varName, l, r, separate[k]);
      assert false;
    }
  }

  /** An equality among the disjuncts is the equality of one of the separate values. */
  lemma SpinEqualListed(long: seq<Interval>, separate: seq<int>, varName: string, v: int)
    requires SpinEqual(varName, v) in SpinRanges(long, varName) + SpinEquals(separate, varName)
    ensures v in separate
  {
    var ranges, equals := SpinRanges(long, varName), SpinEquals(separate, varName);
    var text := SpinEqual(varName, v);
    if text in ranges {
      var k :| 0 <= k < |ranges| && ranges[k] == text;
      SpinRangesAt(long, varName, k);
      SpinRangeNotEqual(varName, long[k].left, long[k].right, v);
      assert false;
    } else {
      assert text in equals;
      var k :| 0 <= k < |equals| && equals[k] == text;
      SpinEqualsAt(separate, varName, k);
      SpinEqualInjective(varName, v, separate[k]);
      assert separate[k] == v;
    }
  }

  /**
   * The SPIN condition denotes exactly the values: for strictly increasing
   * non-negative input, v is a value iff one of the disjuncts SpinText joins
   * with " || " is a range condition around v or the equality with v.
   */
  lemma SpinTextMeaning(values: seq<int>, varName: string, v: int)
    requires NonNegative(values) && StrictlyIncreasing(values) && values != []
    ensures IntervalsOf(values).Intervals?
    ensures var iv := IntervalsOf(values).list;
      var disjuncts := SpinRanges(LongRanges(iv), varName) + SpinEquals(ShortEnds(iv), varName);
      v in values <==>
        (exists l: int, r: int :: l <= v <= r && SpinRange(varName, l, r) in disjuncts) ||
        SpinEqual(varName, v) in disjuncts
  {
    ExpressionCoversValues(values, v);
    var iv := IntervalsOf(values).list;
    var long, separate := LongRanges(iv), ShortEnds(iv);
    var ranges, equals := SpinRanges(long, varName), SpinEquals(separate, varName);
    var disjuncts := ranges + equals;
    if Contains(long, v) {
      var k :| 0 <= k < |long| && long[k].left <= v <= long[k].right;
      SpinRangesAt(long, varName, k);
      assert SpinRange(varName, long[k].left, long[k].right) in ranges;
    }
    if v in separate {
      var k :| 0 <= k < |separate| && separate[k] == v;
      SpinEqualsAt(separate, varName, k);
      assert SpinEqual(varName, v) in equals;
    }
    if exists l: int, r: int :: l <= v <= r && SpinRange(varName, l, r) in disjuncts {
      var l: int, r: int :| l <= v <= r && SpinRange(varName, l, r) in disjuncts;
      SpinRangeListed(long, separate, varName, l, r, v);
    }
    if SpinEqual(varName, v) in disjuncts {
      SpinEqualListed(long, separate, varName, v);
    }
  }
}
