// The plant-constraint extractor of src/apros/ConstraintExtractorNew.java:
// from the value indices each parameter takes in a set of traces it derives
// NuSMV INIT and TRANS constraints (which output values, value pairs and
// value triples occur together, and which next output values follow a
// current value). PlantText assembles them into the PLANT module text.

module ConstraintExtractor {
  import opened Common
  import opened Strings
  import opened TraceModel

  /**
   * A Configuration parameter: its trace name, the number of intervals
   * its values are split into, and the NuSMV text of each interval
   * (nusmvInterval(i) is ranges[i]).
   */
  datatype Parameter = Parameter(traceName: string, valueCount: nat, ranges: seq<string>)

  /** Configuration: the input and output parameters, in order. */
  datatype Configuration = Configuration(inputs: seq<Parameter>, outputs: seq<Parameter>)

  /** The value indices of one parameter: element v of trace u (Dataset.toParamIndices). */
  type Traces = seq<seq<int>>

  // ---------------------------------------------------------------------------
  // Text helpers

  /** w occurs in s at position i. */
  predicate OccursAt(s: string, w: string, i: nat)
  {
    i + |w| <= |s| && s[i..i + |w|] == w
  }

  /** String.contains. */
  predicate HasSubstring(s: string, w: string)
  {
    exists i: nat | i <= |s| :: OccursAt(s, w, i)
  }

  predicate Digits(s: string)
  {
    forall k :: 0 <= k < |s| ==> '0' <= s[k] <= '9'
  }

  /** The domain 0 .. n-1 of a parameter with n intervals. */
  function Domain(n: nat): (r: seq<int>)
    ensures |r| == n && forall k :: 0 <= k < n ==> r[k] == k
  {
    seq(n, (k: int) => k)
  }

  /** The output variable of p, wrapped in next(...) for a transition constraint. */
  function VarName(p: Parameter, next: bool): string
  {
    if next then "next(output_" + p.traceName + ")" else "output_" + p.traceName
  }

  // ---------------------------------------------------------------------------
  // interval

  /** The parts NuSMVText joins with " union ": the long ranges, then the set of separate values. */
  function RangeParts(iv: seq<Interval>): seq<string>
  {
    var separate := ShortEnds(iv);
    NuSMVRanges(LongRanges(iv)) + (if separate == [] then [] else ["{" + Join(IntStrings(separate), ", ") + "}"])
  }

  lemma TextIsJoin(iv: seq<Interval>)
    ensures NuSMVText(iv) == Join(RangeParts(iv), " union ")
    ensures |RangeParts(iv)| == |LongRanges(iv)| + (if ShortEnds(iv) == [] then 0 else 1)
  {
  }

  /** Joining two or more parts with " union " puts "union" in the text. */
  lemma UnionOccurs(parts: seq<string>)
    requires |parts| >= 2
    ensures HasSubstring(Join(parts, " union "), "union")
  {
    var x := Join(parts[..|parts| - 1], " union ");
    var t := x + " union " + parts[|parts| - 1];
    assert Join(parts, " union ") == t;
    assert forall k :: 0 <= k < 5 ==> t[|x| + 1 + k] == "union"[k];
    assert t[|x| + 1..|x| + 6] == "union";
    assert OccursAt(t, "union", |x| + 1);
  }

  /** The first part of a join is a prefix of it. */
  lemma {:induction false} JoinPrefix(parts: seq<string>, sep: string)
    requires parts != []
    ensures |parts[0]| <= |Join(parts, sep)| && Join(parts, sep)[..|parts[0]|] == parts[0]
    decreases |parts|
  {
    if |parts| >= 2 {
      JoinPrefix(parts[..|parts| - 1], sep);
    }
  }

  /** For non-negative values the ends of every long range and every separate value are non-negative. */
  lemma SplitNonNegative(values: seq<int>)
    requires NonNegative(values) && StrictlyIncreasing(values) && values != []
    ensures IntervalsOf(values).Intervals?
    ensures forall r :: r in LongRanges(IntervalsOf(values).list) ==> 0 <= r.left
    ensures forall x :: x in ShortEnds(IntervalsOf(values).list) ==> 0 <= x
  {
    IntervalsOfIncreasing(values);
    var iv := IntervalsOf(values).list;
    forall r | r in LongRanges(iv)
      ensures 0 <= r.left
    {
      var k :| 0 <= k < |LongRanges(iv)| && LongRanges(iv)[k] == r;
      assert Contains(LongRanges(iv), r.left);
      ExpressionCoversValues(values, r.left);
    }
    forall x | x in ShortEnds(iv)
      ensures 0 <= x
    {
      ExpressionCoversValues(values, x);
    }
  }

  /**
   * A range text with no "{" and no "union" is a single range a..b of
   * more than two values: the two numbers String.split and parseInt read
   * back are the ends of the one long range of the intervals.
   */
  lemma PlainRangeIsSingle(values: seq<int>)
    requires NonNegative(values) && StrictlyIncreasing(values)
    requires IntervalsOf(values).Intervals?
    requires '{' !in NuSMVText(IntervalsOf(values).list) && !HasSubstring(NuSMVText(IntervalsOf(values).list), "union")
    ensures values != []
    ensures ShortEnds(IntervalsOf(values).list) == [] && |LongRanges(IntervalsOf(values).list)| == 1
    ensures var r := LongRanges(IntervalsOf(values).list)[0];
      0 <= r.left && NuSMVText(IntervalsOf(values).list) == IntToString(r.left) + ".." + IntToString(r.right)
  {
    IntervalsOfIncreasing(values);
    var iv := IntervalsOf(values).list;
    TextIsJoin(iv);
    var parts := RangeParts(iv);
    if |parts| >= 2 {
      UnionOccurs(parts);
      assert false;
    }
    if ShortEnds(iv) != [] {
      assert false;
    }
    if values == [] {
      assert false;
    }
    ExpressionCoversValues(values, values[0]);
    SplitNonNegative(values);
    assert LongRanges(iv)[0] in LongRanges(iv);
    NuSMVRangesAt(LongRanges(iv), 0);
  }

  /**
   * interval: the constraint that the output of p (its next value when
   * next is set) lies among values, written with the NuSMV interval text,
   * or "TRUE" where the text names the whole domain: "{0, 1}" for a
   * two-valued parameter, or a single range 0..valueCount-1. Ascending
   * values never make intervals fail (IntervalsOfIncreasing), and a text
   * with no "{" and no "union" always has its one long range
   * (PlainRangeIsSingle), so the two fallbacks below are never taken.
   */
  function IntervalConstraint(values: seq<int>, p: Parameter, next: bool): string
    requires NonNegative(values) && StrictlyIncreasing(values)
  {
    match IntervalsOf(values)
    case NotIncreasing => VarName(p, next) + " in "
    case Intervals(iv) =>
      var range := NuSMVText(iv);
      var constrained := VarName(p, next) + " in " + range;
      if p.valueCount == 2 && range == "{0, 1}" then "TRUE"
      else if '{' !in range && !HasSubstring(range, "union") && LongRanges(iv) != [] then
        var single := LongRanges(iv)[0];
        if single.left == 0 && single.right == p.valueCount - 1 then "TRUE" else constrained
      else constrained
  }

  /** Two ascending duplicate-free sequences with the same members are equal. */
  lemma {:induction false} SortedUnique(a: seq<int>, b: seq<int>)
    requires StrictlyIncreasing(a) && StrictlyIncreasing(b)
    requires forall x :: x in a <==> x in b
    ensures a == b
    decreases |a|
  {
    if a != [] {
      assert a[0] in a;
      assert a[0] in b;
    }
    if b != [] {
      assert b[0] in b;
      assert b[0] in a;
    }
    if a != [] && b != [] {
      assert a[0] in a && b[0] in b;
      assert a[0] in b && b[0] in a;
      assert a[0] == b[0];
      forall x
        ensures x in a[1..] <==> x in b[1..]
      {
        assert x in a[1..] <==> x in a && x != a[0];
        assert x in b[1..] <==> x in b && x != b[0];
      }
      SortedUnique(a[1..], b[1..]);
      assert a == [a[0]] + a[1..] && b == [b[0]] + b[1..];
    }
  }

  /** The scan over a run of consecutive values closes one interval. */
  lemma {:induction false} ScanRun(vs: seq<int>, min: int, max: int, acc: seq<Interval>)
    requires min != -1 && forall k :: 0 <= k < |vs| ==> vs[k] == max + 1 + k
    ensures Scan(vs, min, max, acc) == Intervals(acc + [Interval(min, if vs == [] then max else vs[|vs| - 1])])
    decreases |vs|
  {
    if vs != [] {
      ScanRun(vs[1..], min, vs[0], acc);
    }
  }

  /** The whole domain of n >= 1 values is one interval 0..n-1. */
  lemma DomainIntervals(n: nat)
    requires n >= 1
    ensures IntervalsOf(Domain(n)) == Intervals([Interval(0, n - 1)])
  {
    ScanRun(Domain(n)[1..], 0, 0, []);
  }

  /** A rendering of one character is a single digit. */
  lemma SingleDigit(x: nat)
    requires |NatToString(x)| == 1
    ensures x == NatToString(x)[0] as int - '0' as int
  {
  }

  /** The two one-character pieces of "0, 1". */
  lemma ZeroOnePieces(text: string, a: string, b: string)
    requires text == "0, 1" && text == a + ", " + b && |a| == 1
    ensures a == "0" && b == "1"
  {
    assert a[0] == text[0];
    assert b == text[3..];
  }

  /** A rendered natural number holds no comma. */
  lemma DigitsHaveNoComma(x: nat)
    ensures ',' !in NatToString(x)
  {
    assert Digits(NatToString(x));
  }

  /** Joining two or more non-empty parts gives at least two characters more than the separator. */
  lemma JoinAtLeast(parts: seq<string>, sep: string)
    ensures (forall k :: 0 <= k < |parts| ==> |parts[k]| >= 1) && |parts| >= 2 ==> |Join(parts, sep)| >= |sep| + 2
  {
    if (forall k :: 0 <= k < |parts| ==> |parts[k]| >= 1) && |parts| >= 2 {
      JoinPrefix(parts[..|parts| - 1], sep);
    }
  }

  /** Rendered separately, a set of non-negative values renders as "0, 1" only when it is {0, 1}. */
  lemma JoinZeroOne(se: seq<int>)
    requires forall k :: 0 <= k < |se| ==> se[k] >= 0
    requires Join(IntStrings(se), ", ") == "0, 1"
    ensures se == [0, 1]
  {
    var parts := IntStrings(se);
    var text := Join(parts, ", ");
    assert text[1] == ',';
    if |se| >= 1 {
      DigitsHaveNoComma(se[0]);
    }
    if |se| <= 1 {
      assert false;
    }
    var front := parts[..|parts| - 1];
    var a := Join(front, ", ");
    var b := parts[|parts| - 1];
    assert text == a + ", " + b;
    JoinPrefix(front, ", ");
    JoinAtLeast(front, ", ");
    assert |a| >= 1 && |b| >= 1;
    assert |se| == 2 && a == parts[0] && b == parts[1];
    ZeroOnePieces(text, a, b);
    assert NatToString(se[0]) == "0" && NatToString(se[1]) == "1";
    SingleDigit(se[0]);
    SingleDigit(se[1]);
    PairIsZeroOne(se);
  }

  lemma PairIsZeroOne(se: seq<int>)
    requires |se| == 2 && se[0] == 0 && se[1] == 1
    ensures se == [0, 1]
  {
  }

  /** With no long range, the values are exactly the separate values. */
  lemma SeparateValues(values: seq<int>)
    requires NonNegative(values) && StrictlyIncreasing(values) && values != []
    requires IntervalsOf(values).Intervals? && LongRanges(IntervalsOf(values).list) == []
    ensures values == ShortEnds(IntervalsOf(values).list)
  {
    var iv := IntervalsOf(values).list;
    forall x
      ensures x in values <==> x in ShortEnds(iv)
    {
      ExpressionCoversValues(values, x);
    }
    SortedUnique(values, ShortEnds(iv));
  }

  lemma InsideBraces(text: string, inner: string)
    requires text == "{0, 1}" && text == "{" + inner + "}"
    ensures inner == "0, 1"
  {
    assert |inner| == 4;
    assert forall k :: 0 <= k < 4 ==> inner[k] == text[k + 1];
  }

  /** With a long range the text opens with the digits of its first end. */
  lemma TextStartsWithDigit(values: seq<int>)
    requires NonNegative(values) && StrictlyIncreasing(values) && values != []
    ensures IntervalsOf(values).Intervals?
    ensures LongRanges(IntervalsOf(values).list) != [] ==>
      |NuSMVText(IntervalsOf(values).list)| >= 1 && '0' <= NuSMVText(IntervalsOf(values).list)[0] <= '9'
  {
    IntervalsOfIncreasing(values);
    var iv := IntervalsOf(values).list;
    if LongRanges(iv) != [] {
      SplitNonNegative(values);
      TextIsJoin(iv);
      var parts := RangeParts(iv);
      var r := LongRanges(iv)[0];
      assert r in LongRanges(iv);
      NuSMVRangesAt(LongRanges(iv), 0);
      var first := IntToString(r.left) + ".." + IntToString(r.right);
      assert parts[0] == NuSMVRanges(LongRanges(iv))[0] == first;
      assert '0' <= first[0] <= '9' by {
        assert Digits(NatToString(r.left));
      }
      JoinFirst(parts, " union ");
    }
  }

  /** A join opens with the first character of its first part. */
  lemma JoinFirst(parts: seq<string>, sep: string)
    requires parts != [] && parts[0] != []
    ensures |Join(parts, sep)| >= 1 && Join(parts, sep)[0] == parts[0][0]
  {
    JoinPrefix(parts, sep);
    assert Join(parts, sep)[..|parts[0]|][0] == parts[0][0];
  }

  /** A text equal to "{0, 1}" is the rendering of exactly the values 0 and 1. */
  lemma ZeroOneText(values: seq<int>)
    requires NonNegative(values) && StrictlyIncreasing(values)
    requires IntervalsOf(values).Intervals? && NuSMVText(IntervalsOf(values).list) == "{0, 1}"
    ensures values == Domain(2)
  {
    IntervalsOfIncreasing(values);
    var iv := IntervalsOf(values).list;
    TextIsJoin(iv);
    var parts := RangeParts(iv);
    var text := NuSMVText(iv);
    if values == [] {
      assert false;
    }
    TextStartsWithDigit(values);
    if LongRanges(iv) != [] {
      assert false;
    }
    var se := ShortEnds(iv);
    if se == [] {
      assert false;
    }
    assert text == "{" + Join(IntStrings(se), ", ") + "}";
    InsideBraces(text, Join(IntStrings(se), ", "));
    SplitNonNegative(values);
    forall k | 0 <= k < |se|
      ensures se[k] >= 0
    {
      assert se[k] in se;
    }
    JoinZeroOne(se);
    SeparateValues(values);
  }

  /** The interval 0..1 is no long range; its two ends are separate values. */
  lemma ZeroOneSplit()
    ensures LongRanges([Interval(0, 1)]) == [] && ShortEnds([Interval(0, 1)]) == [0, 1]
  {
    assert [Interval(0, 1)][..0] == [];
    assert Insert([], 0) == [0];
    assert Insert([0], 1) == [0, 1] by {
      assert [0][1..] == [];
    }
  }

  /** The separate values 0 and 1 render as "0, 1". */
  lemma ZeroOneStrings()
    ensures Join(IntStrings([0, 1]), ", ") == "0, 1"
  {
    ZeroOneList();
    JoinTwo("0", "1", ", ");
    assert "0" + ", " + "1" == "0, 1";
  }

  lemma ZeroOneList()
    ensures IntStrings([0, 1]) == ["0", "1"]
  {
    assert IntToString(0) == "0" && IntToString(1) == "1";
    assert [0, 1][..1] == [0];
    assert [0][..0] == [];
  }

  lemma JoinTwo(a: string, b: string, sep: string)
    ensures Join([a, b], sep) == a + sep + b
  {
    assert [a, b][..1] == [a];
  }

  /** The values 0 and 1 render as "{0, 1}". */
  lemma DomainTwoText()
    ensures IntervalsOf(Domain(2)) == Intervals([Interval(0, 1)])
    ensures NuSMVText([Interval(0, 1)]) == "{0, 1}"
  {
    DomainIntervals(2);
    ZeroOneSplit();
    ZeroOneStrings();
    var braced := "{" + "0, 1" + "}";
    assert braced == "{0, 1}" by {
      assert |braced| == 6;
      forall k | 0 <= k < 6
        ensures braced[k] == "{0, 1}"[k]
      {
      }
    }
    assert NuSMVRanges([]) == [];
    assert [] + [braced] == [braced];
  }

  /** A plain range a..b holds neither "{" nor "union". */
  lemma PlainRangeText(l: nat, r: nat)
    ensures '{' !in NatToString(l) + ".." + NatToString(r)
    ensures !HasSubstring(NatToString(l) + ".." + NatToString(r), "union")
  {
    var text := NatToString(l) + ".." + NatToString(r);
    assert Digits(NatToString(l)) && Digits(NatToString(r));
    assert forall k :: 0 <= k < |text| ==> '0' <= text[k] <= '9' || text[k] == '.';
    forall i: nat | i <= |text|
      ensures !OccursAt(text, "union", i)
    {
      if i + 5 <= |text| {
        assert text[i..i + 5][0] == text[i] != 'u';
      }
    }
  }

  /** Three or more consecutive values from 0 render as the plain range 0..n-1. */
  lemma DomainRangeText(n: nat)
    requires n >= 3
    ensures IntervalsOf(Domain(n)) == Intervals([Interval(0, n - 1)])
    ensures LongRanges([Interval(0, n - 1)]) == [Interval(0, n - 1)]
    ensures '{' !in NuSMVText([Interval(0, n - 1)]) && !HasSubstring(NuSMVText([Interval(0, n - 1)]), "union")
  {
    DomainIntervals(n);
    LongRangeSplit(0, n - 1);
    LongRangeText(0, n - 1);
    PlainRangeText(0, n - 1);
  }

  /** An interval of three or more values is one long range and no separate value. */
  lemma LongRangeSplit(l: int, r: int)
    requires l + 1 < r
    ensures LongRanges([Interval(l, r)]) == [Interval(l, r)] && ShortEnds([Interval(l, r)]) == []
  {
    assert [Interval(l, r)][..0] == [];
  }

  /** An interval of three or more natural values renders as the plain range l..r. */
  lemma LongRangeText(l: nat, r: nat)
    requires l + 1 < r
    ensures NuSMVText([Interval(l, r)]) == NatToString(l) + ".." + NatToString(r)
  {
    var iv := [Interval(l, r)];
    LongRangeSplit(l, r);
    assert NuSMVRanges(iv) == [IntToString(l) + ".." + IntToString(r)] by {
      assert iv[..0] == [];
    }
    assert NuSMVRanges(iv) + [] == NuSMVRanges(iv);
  }

  lemma ContainsSingle(i: Interval, x: int)
    ensures Contains([i], x) <==> i.left <= x <= i.right
  {
    if i.left <= x <= i.right {
      assert [i][0] == i;
    }
  }

  /** A single long range 0..n-1 and no separate value: the values are the domain of n >= 3. */
  lemma SingleRangeValues(values: seq<int>, n: int)
    requires NonNegative(values) && StrictlyIncreasing(values) && values != []
    requires IntervalsOf(values).Intervals?
    requires ShortEnds(IntervalsOf(values).list) == [] && LongRanges(IntervalsOf(values).list) == [Interval(0, n - 1)]
    ensures n >= 3 && values == Domain(n)
  {
    var iv := IntervalsOf(values).list;
    assert Interval(0, n - 1) in LongRanges(iv);
    forall x
      ensures x in values <==> x in Domain(n)
    {
      ExpressionCoversValues(values, x);
      ContainsSingle(Interval(0, n - 1), x);
      if 0 <= x < n {
        assert Domain(n)[x] == x;
      }
    }
    SortedUnique(values, Domain(n));
  }

  /** The whole domain of a parameter with two or more intervals gives "TRUE". */
  lemma DomainGivesTrue(values: seq<int>, p: Parameter, next: bool)
    requires NonNegative(values) && StrictlyIncreasing(values)
    requires p.valueCount >= 2 && values == Domain(p.valueCount)
    ensures IntervalConstraint(values, p, next) == "TRUE"
  {
    if p.valueCount == 2 {
      DomainTwoText();
    } else {
      DomainRangeText(p.valueCount);
    }
  }

  /** A membership constraint is never the text "TRUE". */
  lemma ConstrainedNotTrue(p: Parameter, next: bool, range: string)
    ensures VarName(p, next) + " in " + range != "TRUE"
  {
    var text := VarName(p, next) + " in " + range;
    assert text[0] == 'n' || text[0] == 'o';
  }

  /** "TRUE" is given only for the whole domain of a parameter with two or more intervals. */
  lemma TrueMeansDomain(values: seq<int>, p: Parameter, next: bool)
    requires NonNegative(values) && StrictlyIncreasing(values)
    requires IntervalConstraint(values, p, next) == "TRUE"
    ensures p.valueCount >= 2 && values == Domain(p.valueCount)
  {
    IntervalsOfIncreasing(values);
    var iv := IntervalsOf(values).list;
    ConstrainedNotTrue(p, next, NuSMVText(iv));
    if p.valueCount == 2 && NuSMVText(iv) == "{0, 1}" {
      ZeroOneText(values);
    } else {
      PlainRangeIsSingle(values);
      assert LongRanges(iv) == [LongRanges(iv)[0]];
      SingleRangeValues(values, p.valueCount);
    }
  }

  /**
   * interval gives "TRUE" exactly when the values are the whole domain
   * 0 .. valueCount-1 of a parameter with at least two intervals;
   * otherwise it is the membership constraint on the range text, which
   * denotes exactly the values (TraceModel.ExpressionCoversValues).
   */
  lemma IntervalTrue(values: seq<int>, p: Parameter, next: bool)
    requires NonNegative(values) && StrictlyIncreasing(values)
    ensures IntervalsOf(values).Intervals?
    ensures IntervalConstraint(values, p, next) == "TRUE" <==> p.valueCount >= 2 && values == Domain(p.valueCount)
    ensures IntervalConstraint(values, p, next) != "TRUE" ==>
      IntervalConstraint(values, p, next) == VarName(p, next) + " in " + NuSMVText(IntervalsOf(values).list)
  {
    IntervalsOfIncreasing(values);
    if p.valueCount >= 2 && values == Domain(p.valueCount) {
      DomainGivesTrue(values, p, next);
    }
    if IntervalConstraint(values, p, next) == "TRUE" {
      TrueMeansDomain(values, p, next);
    }
  }

  // ---------------------------------------------------------------------------
  // Value sets over the traces

  /** Two trace collections of the same shape: as many traces, each as long. */
  predicate SameShape<K, L>(a: seq<seq<K>>, b: seq<seq<L>>)
  {
    |a| == |b| && forall u :: 0 <= u < |a| ==> |a[u]| == |b[u]|
  }

  /** Every element is an index 0 .. n-1 of the parameter's intervals. */
  predicate InRange(t: Traces, n: nat)
  {
    forall u, v :: 0 <= u < |t| && 0 <= v < |t[u]| ==> 0 <= t[u][v] < n
  }

  /** Some element of the traces is x. */
  predicate Seen(t: Traces, x: int)
  {
    exists u, v :: 0 <= u < |t| && 0 <= v < |t[u]| && t[u][v] == x
  }

  /** At some (trace, step) the key traces hold key and the target traces hold x. */
  predicate CoOccurs<K(==)>(keys: seq<seq<K>>, target: Traces, key: K, x: int)
  {
    exists u, v :: 0 <= u < |target| && 0 <= v < |target[u]| && u < |keys| && v < |keys[u]| &&
      keys[u][v] == key && target[u][v] == x
  }

  /** The pairs of two aligned trace collections, element by element. */
  function Zip(a: Traces, b: Traces): (r: seq<seq<(int, int)>>)
    requires SameShape(a, b)
    ensures SameShape(r, a)
    ensures forall u, v :: 0 <= u < |a| && 0 <= v < |a[u]| ==> r[u][v] == (a[u][v], b[u][v])
  {
    seq(|a|, (u: int) requires 0 <= u < |a| => seq(|a[u]|, (v: int) requires 0 <= v < |a[u]| => (a[u][v], b[u][v])))
  }

  /** The TreeSet filled from one trace: every element inserted in turn. */
  function InsertRowAll(acc: seq<int>, row: seq<int>): (r: seq<int>)
    requires StrictlyIncreasing(acc)
    ensures StrictlyIncreasing(r)
  {
    if row == [] then acc else Insert(InsertRowAll(acc, row[..|row| - 1]), row[|row| - 1])
  }

  /** The TreeSet of current1d: every element of every trace. */
  function AllValues(t: Traces): (r: seq<int>)
    ensures StrictlyIncreasing(r)
  {
    if t == [] then [] else InsertRowAll(AllValues(t[..|t| - 1]), t[|t| - 1])
  }

  /** The elements of one trace whose key is key, inserted in turn. */
  function CollectRow<K(==)>(acc: seq<int>, rowKeys: seq<K>, row: seq<int>, key: K): (r: seq<int>)
    requires StrictlyIncreasing(acc) && |rowKeys| == |row|
    ensures StrictlyIncreasing(r)
  {
    if row == [] then acc
    else
      var front := CollectRow(acc, rowKeys[..|row| - 1], row[..|row| - 1], key);
      if rowKeys[|row| - 1] == key then Insert(front, row[|row| - 1]) else front
  }

  /**
   * The TreeSet of target values found at the (trace, step) positions
   * where the key traces hold key: indexPairs[index1] of current2d and
   * currentNext2d, indexTuples[index1][index2] of the 3-dimensional ones.
   */
  function Collect<K(==)>(keys: seq<seq<K>>, target: Traces, key: K): (r: seq<int>)
    requires SameShape(keys, target)
    ensures StrictlyIncreasing(r)
  {
    if target == [] then []
    else CollectRow(Collect(keys[..|target| - 1], target[..|target| - 1], key), keys[|target| - 1], target[|target| - 1], key)
  }

  lemma {:induction false} InsertRowAllMembers(acc: seq<int>, row: seq<int>, x: int)
    requires StrictlyIncreasing(acc)
    ensures x in InsertRowAll(acc, row) <==> x in acc || x in row
    decreases |row|
  {
    if row != [] {
      InsertRowAllMembers(acc, row[..|row| - 1], x);
      assert row == row[..|row| - 1] + [row[|row| - 1]];
    }
  }

  /** current1d's TreeSet holds exactly the values seen in the traces. */
  lemma {:induction false} AllValuesMembers(t: Traces, x: int)
    ensures x in AllValues(t) <==> Seen(t, x)
    decreases |t|
  {
    if t != [] {
      var front := t[..|t| - 1];
      var last := t[|t| - 1];
      AllValuesMembers(front, x);
      InsertRowAllMembers(AllValues(front), last, x);
      if Seen(t, x) {
        var u, v :| 0 <= u < |t| && 0 <= v < |t[u]| && t[u][v] == x;
        if u < |t| - 1 {
          assert front[u][v] == x;
        } else {
          assert last[v] == x;
        }
      }
      if x in last {
        var v :| 0 <= v < |last| && last[v] == x;
        assert t[|t| - 1][v] == x;
      }
      if Seen(front, x) {
        var u, v :| 0 <= u < |front| && 0 <= v < |front[u]| && front[u][v] == x;
        assert t[u][v] == x;
      }
    }
  }

  lemma {:induction false} CollectRowMembers<K>(acc: seq<int>, rowKeys: seq<K>, row: seq<int>, key: K, x: int)
    requires StrictlyIncreasing(acc) && |rowKeys| == |row|
    ensures x in CollectRow(acc, rowKeys, row, key) <==>
      x in acc || exists v :: 0 <= v < |row| && rowKeys[v] == key && row[v] == x
    decreases |row|
  {
    if row != [] {
      var n := |row| - 1;
      CollectRowMembers(acc, rowKeys[..n], row[..n], key, x);
      if exists v :: 0 <= v < |row| && rowKeys[v] == key && row[v] == x {
        var v :| 0 <= v < |row| && rowKeys[v] == key && row[v] == x;
        if v < n {
          assert rowKeys[..n][v] == key && row[..n][v] == x;
        }
      }
      if exists v :: 0 <= v < n && rowKeys[..n][v] == key && row[..n][v] == x {
        var v :| 0 <= v < n && rowKeys[..n][v] == key && row[..n][v] == x;
        assert rowKeys[v] == key && row[v] == x;
      }
    }
  }

  /** The collected set holds exactly the target values co-occurring with key. */
  lemma {:induction false} CollectMembers<K>(keys: seq<seq<K>>, target: Traces, key: K, x: int)
    requires SameShape(keys, target)
    ensures x in Collect(keys, target, key) <==> CoOccurs(keys, target, key, x)
    decreases |target|
  {
    if target != [] {
      var n := |target| - 1;
      var fk, ft := keys[..n], target[..n];
      CollectMembers(fk, ft, key, x);
      CollectRowMembers(Collect(fk, ft, key), keys[n], target[n], key, x);
      if CoOccurs(keys, target, key, x) {
        var u, v :| 0 <= u < |target| && 0 <= v < |target[u]| && u < |keys| && v < |keys[u]| &&
          keys[u][v] == key && target[u][v] == x;
        if u < n {
          assert fk[u][v] == key && ft[u][v] == x;
        }
      }
      if CoOccurs(fk, ft, key, x) {
        var u, v :| 0 <= u < |ft| && 0 <= v < |ft[u]| && u < |fk| && v < |fk[u]| && fk[u][v] == key && ft[u][v] == x;
        assert keys[u][v] == key && target[u][v] == x;
      }
      if exists v :: 0 <= v < |target[n]| && keys[n][v] == key && target[n][v] == x {
        var v :| 0 <= v < |target[n]| && keys[n][v] == key && target[n][v] == x;
        assert keys[n][v] == key && target[n][v] == x;
      }
    }
  }

  /**
   * The set of a key is empty (the array slot Java leaves null) exactly
   * when the key never occurs; its values are those of the target.
   */
  lemma CollectEmpty<K>(keys: seq<seq<K>>, target: Traces, key: K)
    requires SameShape(keys, target)
    ensures Collect(keys, target, key) == [] <==> !Seen2(keys, key)
    ensures forall x :: x in Collect(keys, target, key) ==> Seen(target, x)
  {
    if Seen2(keys, key) {
      var u, v :| 0 <= u < |keys| && 0 <= v < |keys[u]| && keys[u][v] == key;
      CollectMembers(keys, target, key, target[u][v]);
    }
    if Collect(keys, target, key) != [] {
      CollectMembers(keys, target, key, Collect(keys, target, key)[0]);
    }
    forall x | x in Collect(keys, target, key)
      ensures Seen(target, x)
    {
      CollectMembers(keys, target, key, x);
    }
  }

  /** Some element of the key traces is key. */
  predicate Seen2<K(==)>(keys: seq<seq<K>>, key: K)
  {
    exists u, v :: 0 <= u < |keys| && 0 <= v < |keys[u]| && keys[u][v] == key
  }

  /** Values seen in traces of a parameter are valid indices, so non-negative. */
  lemma SeenNonNegative(t: Traces, n: nat, values: seq<int>)
    requires InRange(t, n) && forall x :: x in values ==> Seen(t, x)
    ensures NonNegative(values) && forall x :: x in values ==> x < n
  {
    forall k | 0 <= k < |values|
      ensures values[k] >= 0
    {
      assert values[k] in values;
    }
  }

  // ---------------------------------------------------------------------------
  // The fill loops

  /** The nested for-each loops of current1d adding every element to a TreeSet. */
  method SeenValues(t: Traces) returns (indices: seq<int>)
    ensures indices == AllValues(t)
  {
    indices := [];
    for u := 0 to |t|
      invariant indices == AllValues(t[..u])
    {
      assert t[..u + 1][..u] == t[..u];
      var row := t[u];
      var before := indices;
      for v := 0 to |row|
        invariant StrictlyIncreasing(indices)
        invariant indices == InsertRowAll(before, row[..v])
      {
        assert row[..v + 1][..v] == row[..v];
        indices := Insert(indices, row[v]);
      }
      assert row[..|row|] == row;
    }
    assert t[..|t|] == t;
  }

  /** One trace of the fill loop: indexPairs[keys[v]].add(row[v]) for each step v. */
  method FillRow(sets: array<seq<int>>, rowKeys: seq<int>, row: seq<int>)
    requires |rowKeys| == |row| && forall v :: 0 <= v < |rowKeys| ==> 0 <= rowKeys[v] < sets.Length
    requires forall i :: 0 <= i < sets.Length ==> StrictlyIncreasing(sets[i])
    modifies sets
    ensures forall i :: 0 <= i < sets.Length ==> sets[i] == CollectRow(old(sets[i]), rowKeys, row, i)
  {
    for v := 0 to |row|
      invariant forall i :: 0 <= i < sets.Length ==> sets[i] == CollectRow(old(sets[i]), rowKeys[..v], row[..v], i)
    {
      assert rowKeys[..v + 1][..v] == rowKeys[..v] && row[..v + 1][..v] == row[..v];
      var index1 := rowKeys[v];
      sets[index1] := Insert(sets[index1], row[v]);
    }
    assert rowKeys[..|row|] == rowKeys && row[..|row|] == row;
  }

  /**
   * The fill loop of current2d and currentNext2d: slot i of the array of
   * TreeSets collects the target values co-occurring with key value i.
   * Java's null slot of current2d is the empty sequence here.
   */
  method FillSets(keys: Traces, target: Traces, n: nat) returns (sets: array<seq<int>>)
    requires SameShape(keys, target) && InRange(keys, n)
    ensures fresh(sets) && sets.Length == n
    ensures forall i :: 0 <= i < n ==> sets[i] == Collect(keys, target, i)
  {
    sets := new seq<int>[n](_ => []);
    for u := 0 to |target|
      invariant forall i :: 0 <= i < n ==> sets[i] == Collect(keys[..u], target[..u], i)
    {
      assert keys[..u + 1][..u] == keys[..u] && target[..u + 1][..u] == target[..u];
      FillRow(sets, keys[u], target[u]);
    }
    assert keys[..|target|] == keys && target[..|target|] == target;
  }

  /** One trace of the fill loop of the 3-dimensional constraints: indexTuples[k1[v]][k2[v]].add(row[v]). */
  method FillRow2(sets: array2<seq<int>>, rowKeys: seq<(int, int)>, row: seq<int>)
    requires |rowKeys| == |row|
    requires forall v :: 0 <= v < |rowKeys| ==> 0 <= rowKeys[v].0 < sets.Length0 && 0 <= rowKeys[v].1 < sets.Length1
    requires forall i, j :: 0 <= i < sets.Length0 && 0 <= j < sets.Length1 ==> StrictlyIncreasing(sets[i, j])
    modifies sets
    ensures forall i, j :: 0 <= i < sets.Length0 && 0 <= j < sets.Length1 ==>
      sets[i, j] == CollectRow(old(sets[i, j]), rowKeys, row, (i, j))
  {
    for v := 0 to |row|
      invariant forall i, j :: 0 <= i < sets.Length0 && 0 <= j < sets.Length1 ==>
        sets[i, j] == CollectRow(old(sets[i, j]), rowKeys[..v], row[..v], (i, j))
    {
      assert rowKeys[..v + 1][..v] == rowKeys[..v] && row[..v + 1][..v] == row[..v];
      var (index1, index2) := rowKeys[v];
      sets[index1, index2] := Insert(sets[index1, index2], row[v]);
    }
    assert rowKeys[..|row|] == rowKeys && row[..|row|] == row;
  }

  /**
   * The fill loop of current3d and currentNext3d: slot (i, j) collects
   * the target values found where the first key traces hold i and the
   * second hold j.
   */
  method FillSets2(keys1: Traces, keys2: Traces, target: Traces, n1: nat, n2: nat) returns (sets: array2<seq<int>>)
    requires SameShape(keys1, target) && SameShape(keys2, target) && InRange(keys1, n1) && InRange(keys2, n2)
    ensures fresh(sets) && sets.Length0 == n1 && sets.Length1 == n2
    ensures forall i, j :: 0 <= i < n1 && 0 <= j < n2 ==> sets[i, j] == Collect(Zip(keys1, keys2), target, (i, j))
  {
    var keys := Zip(keys1, keys2);
    sets := new seq<int>[n1, n2]((_, _) => []);
    for u := 0 to |target|
      invariant forall i, j :: 0 <= i < n1 && 0 <= j < n2 ==> sets[i, j] == Collect(keys[..u], target[..u], (i, j))
    {
      assert keys[..u + 1][..u] == keys[..u] && target[..u + 1][..u] == target[..u];
      FillRow2(sets, keys[u], target[u]);
    }
    assert keys[..|target|] == keys && target[..|target|] == target;
  }

  // ---------------------------------------------------------------------------
  // The constraint collections

  /** LinkedHashSet.add: the constraint is appended unless already present. */
  function AddTo<T(==)>(cs: seq<T>, c: T): seq<T>
  {
    if c in cs then cs else cs + [c]
  }

  /** Adding each constraint of l in turn. */
  function AddAll<T(==)>(cs: seq<T>, l: seq<T>): seq<T>
  {
    if l == [] then cs else AddTo(AddAll(cs, l[..|l| - 1]), l[|l| - 1])
  }

  /**
   * The collection keeps its earlier constraints in place and stays free
   * of duplicates, and it ends up holding exactly the earlier constraints
   * and the added ones.
   */
  lemma {:induction false} AddAllMembers<T>(cs: seq<T>, l: seq<T>)
    requires Distinct(cs)
    ensures Distinct(AddAll(cs, l))
    ensures |cs| <= |AddAll(cs, l)| && AddAll(cs, l)[..|cs|] == cs
    ensures forall x :: x in AddAll(cs, l) <==> x in cs || x in l
    decreases |l|
  {
    if l != [] {
      var front := l[..|l| - 1];
      AddAllMembers(cs, front);
      assert forall x :: x in l <==> x in front || x == l[|l| - 1];
      var r := AddAll(cs, front);
      if l[|l| - 1] !in r {
        assert (r + [l[|l| - 1]])[..|cs|] == r[..|cs|];
      }
    }
  }

  lemma {:induction false} AddAllConcat<T>(cs: seq<T>, a: seq<T>, b: seq<T>)
    ensures AddAll(cs, a + b) == AddAll(AddAll(cs, a), b)
    decreases |b|
  {
    if b == [] {
      assert a + b == a;
    } else {
      AddAllConcat(cs, a, b[..|b| - 1]);
      assert (a + b)[..|a + b| - 1] == a + b[..|b| - 1];
    }
  }

  /** The initConstraints and transConstraints sets of run, both LinkedHashSet<String>. */
  class ConstraintSets {
    var init: seq<string>
    var trans: seq<string>

    ghost predicate Valid()
      reads this
    {
      Distinct(init) && Distinct(trans)
    }

    constructor ()
      ensures Valid() && init == [] && trans == []
    {
      init := [];
      trans := [];
    }

    method AddInit(c: string)
      requires Valid()
      modifies this
      ensures Valid() && init == AddTo(old(init), c) && trans == old(trans)
    {
      if c !in init {
        init := init + [c];
      }
    }

    method AddTrans(c: string)
      requires Valid()
      modifies this
      ensures Valid() && trans == AddTo(old(trans), c) && init == old(init)
    {
      if c !in trans {
        trans := trans + [c];
      }
    }
  }

  // ---------------------------------------------------------------------------
  // current1d

  /** Every listed parameter has traces whose elements index its intervals, one NuSMV text per interval. */
  predicate Indexed(ps: seq<Parameter>, indices: map<Parameter, Traces>)
  {
    forall p | p in ps :: p in indices && InRange(indices[p], p.valueCount) && |p.ranges| == p.valueCount
  }

  lemma AllValuesInRange(t: Traces, n: nat)
    requires InRange(t, n)
    ensures NonNegative(AllValues(t)) && forall x :: x in AllValues(t) ==> x < n
  {
    forall x | x in AllValues(t)
      ensures Seen(t, x)
    {
      AllValuesMembers(t, x);
    }
    SeenNonNegative(t, n, AllValues(t));
  }

  /** The constraint current1d derives for one output parameter. */
  function ValuesConstraint(p: Parameter, t: Traces, next: bool): string
    requires InRange(t, p.valueCount)
  {
    AllValuesInRange(t, p.valueCount);
    IntervalConstraint(AllValues(t), p, next)
  }

  /** The constraints current1d adds, one per output of outs, in order. */
  function Current1dList(outs: seq<Parameter>, indices: map<Parameter, Traces>, next: bool): seq<string>
    requires Indexed(outs, indices)
  {
    seq(|outs|, (k: int) requires 0 <= k < |outs| => ValuesConstraint(outs[k], indices[outs[k]], next))
  }

  /** One iteration of current1d: the TreeSet of the values of p, and its two constraints. */
  method AddValuesConstraints(cs: ConstraintSets, p: Parameter, traces: Traces)
    requires InRange(traces, p.valueCount) && cs.Valid()
    modifies cs
    ensures cs.Valid()
    ensures cs.init == AddTo(old(cs.init), ValuesConstraint(p, traces, false))
    ensures cs.trans == AddTo(old(cs.trans), ValuesConstraint(p, traces, true))
  {
    var values := SeenValues(traces);
    AllValuesInRange(traces, p.valueCount);
    cs.AddInit(IntervalConstraint(values, p, false));
    cs.AddTrans(IntervalConstraint(values, p, true));
  }

  /** current1d: one INIT and one TRANS constraint per output parameter. */
  method Current1d(conf: Configuration, cs: ConstraintSets, indices: map<Parameter, Traces>)
    requires Indexed(conf.outputs, indices) && cs.Valid()
    modifies cs
    ensures cs.Valid()
    ensures cs.init == AddAll(old(cs.init), Current1dList(conf.outputs, indices, false))
    ensures cs.trans == AddAll(old(cs.trans), Current1dList(conf.outputs, indices, true))
  {
    var outs := conf.outputs;
    ghost var inits, transes := Current1dList(outs, indices, false), Current1dList(outs, indices, true);
    for k := 0 to |outs|
      invariant cs.Valid()
      invariant cs.init == AddAll(old(cs.init), inits[..k])
      invariant cs.trans == AddAll(old(cs.trans), transes[..k])
    {
      assert inits[..k + 1][..k] == inits[..k] && transes[..k + 1][..k] == transes[..k];
      AddValuesConstraints(cs, outs[k], indices[outs[k]]);
    }
    assert inits[..|outs|] == inits && transes[..|outs|] == transes;
  }

  /**
   * The k-th constraint of current1d is "TRUE" exactly when the output
   * takes every value of its domain somewhere in the traces (and has at
   * least two); otherwise it confines the output to a range text whose
   * values are exactly those seen.
   */
  lemma Current1dMeaning(outs: seq<Parameter>, indices: map<Parameter, Traces>, next: bool, k: nat)
    requires Indexed(outs, indices) && k < |outs|
    ensures var p := outs[k];
      Current1dList(outs, indices, next)[k] == "TRUE" <==>
      p.valueCount >= 2 && forall x :: 0 <= x < p.valueCount ==> Seen(indices[p], x)
    ensures var p := outs[k];
      var values := AllValues(indices[p]);
      Current1dList(outs, indices, next)[k] != "TRUE" ==>
        IntervalsOf(values).Intervals? &&
        Current1dList(outs, indices, next)[k] == VarName(p, next) + " in " + NuSMVText(IntervalsOf(values).list) &&
        forall x :: x in values <==> Seen(indices[p], x)
  {
    var p := outs[k];
    var t := indices[p];
    var values := AllValues(t);
    AllValuesInRange(t, p.valueCount);
    IntervalTrue(values, p, next);
    forall x
      ensures x in values <==> Seen(t, x)
    {
      AllValuesMembers(t, x);
    }
    if p.valueCount >= 2 && forall x :: 0 <= x < p.valueCount ==> Seen(t, x) {
      forall x
        ensures x in values <==> x in Domain(p.valueCount)
      {
        if 0 <= x < p.valueCount {
          assert Domain(p.valueCount)[x] == x;
        }
      }
      SortedUnique(values, Domain(p.valueCount));
    }
    if values == Domain(p.valueCount) {
      forall x | 0 <= x < p.valueCount
        ensures Seen(t, x)
      {
        assert Domain(p.valueCount)[x] == x;
      }
    }
  }

  // ---------------------------------------------------------------------------
  // current2d

  /** Parameters whose traces are indexed and all of one shape, as the dataset gives them. */
  predicate Aligned(ps: seq<Parameter>, indices: map<Parameter, Traces>)
  {
    Indexed(ps, indices) && forall p, q | p in ps && q in ps :: SameShape(indices[p], indices[q])
  }

  /** The filled array: slot i holds the target values co-occurring with key value i. */
  function Buckets(keys: Traces, target: Traces, n: nat): seq<seq<int>>
    requires SameShape(keys, target)
  {
    seq(n, (i: int) requires 0 <= i < n => Collect(keys, target, i))
  }

  /** Every slot is a TreeSet of valid indices. */
  predicate ValidSets(sets: seq<seq<int>>)
  {
    forall i :: 0 <= i < |sets| ==> NonNegative(sets[i]) && StrictlyIncreasing(sets[i])
  }

  lemma BucketsValid(keys: Traces, target: Traces, n: nat, m: nat)
    requires SameShape(keys, target) && InRange(target, m)
    ensures ValidSets(Buckets(keys, target, n))
  {
    forall i | 0 <= i < n
      ensures NonNegative(Collect(keys, target, i))
    {
      CollectEmpty(keys, target, i);
      SeenNonNegative(target, m, Collect(keys, target, i));
    }
  }

  /** The values below n whose slot is non-empty, ascending: the options current2d writes. */
  function OptionKeys(sets: seq<seq<int>>, n: nat): (r: seq<nat>)
    requires n <= |sets|
    ensures forall k :: 0 <= k < |r| ==> r[k] < n
  {
    if n == 0 then [] else OptionKeys(sets, n - 1) + (if sets[n - 1] == [] then [] else [n - 1])
  }

  /** The option keys are exactly the values with a non-empty slot, in ascending order. */
  lemma {:induction false} OptionKeysMembers(sets: seq<seq<int>>, n: nat)
    requires n <= |sets|
    ensures forall i: nat :: i in OptionKeys(sets, n) <==> i < n && sets[i] != []
    ensures StrictlyIncreasing(OptionKeys(sets, n))
  {
    if n > 0 {
      OptionKeysMembers(sets, n - 1);
    }
  }

  /** One option of current2d: pi has value i1 and pj lies among the values found with it. */
  function PairOption(pi: Parameter, pj: Parameter, i1: nat, values: seq<int>, next: bool): string
    requires NonNegative(values) && StrictlyIncreasing(values)
  {
    VarName(pi, next) + " = " + NatToString(i1) + " & " + IntervalConstraint(values, pj, next)
  }

  /** The options of the listed keys, in order. */
  function PairOptions(pi: Parameter, pj: Parameter, sets: seq<seq<int>>, keys: seq<nat>, next: bool): seq<string>
    requires ValidSets(sets) && forall k :: 0 <= k < |keys| ==> keys[k] < |sets|
  {
    seq(|keys|, (k: int) requires 0 <= k < |keys| => PairOption(pi, pj, keys[k], sets[keys[k]], next))
  }

  /** The current2d constraint of outputs pi and pj, whose traces are ti and tj. */
  function PairConstraint(pi: Parameter, pj: Parameter, ti: Traces, tj: Traces, next: bool): string
    requires SameShape(ti, tj) && InRange(tj, pj.valueCount)
  {
    var sets := Buckets(ti, tj, pi.valueCount);
    BucketsValid(ti, tj, pi.valueCount, pj.valueCount);
    Join(PairOptions(pi, pj, sets, OptionKeys(sets, pi.valueCount), next), " | ")
  }

  /** The option loop of current2d over the filled indexPairs array, skipping the null slots. */
  method JoinPairOptions(pi: Parameter, pj: Parameter, sets: array<seq<int>>, next: bool) returns (c: string)
    requires sets.Length == pi.valueCount && ValidSets(sets[..])
    ensures c == Join(PairOptions(pi, pj, sets[..], OptionKeys(sets[..], sets.Length), next), " | ")
  {
    var options: seq<string> := [];
    for i1 := 0 to sets.Length
      invariant options == PairOptions(pi, pj, sets[..], OptionKeys(sets[..], i1), next)
    {
      if sets[i1] != [] {
        options := options + [PairOption(pi, pj, i1, sets[i1], next)];
      }
    }
    c := Join(options, " | ");
  }

  /** One (i, j) iteration of current2d: fill indexPairs, then add the INIT and the TRANS constraint. */
  method AddPairConstraints(cs: ConstraintSets, pi: Parameter, pj: Parameter, ti: Traces, tj: Traces)
    requires SameShape(ti, tj) && InRange(ti, pi.valueCount) && InRange(tj, pj.valueCount) && cs.Valid()
    modifies cs
    ensures cs.Valid()
    ensures cs.init == AddTo(old(cs.init), PairConstraint(pi, pj, ti, tj, false))
    ensures cs.trans == AddTo(old(cs.trans), PairConstraint(pi, pj, ti, tj, true))
  {
    var sets := FillSets(ti, tj, pi.valueCount);
    assert sets[..] == Buckets(ti, tj, pi.valueCount);
    BucketsValid(ti, tj, pi.valueCount, pj.valueCount);
    var c := JoinPairOptions(pi, pj, sets, false);
    cs.AddInit(c);
    c := JoinPairOptions(pi, pj, sets, true);
    cs.AddTrans(c);
  }

  /** The pairs (i, j) of row i with j below b. */
  function PairRow(i: nat, b: nat): seq<(nat, nat)>
  {
    seq(b, (j: int) requires 0 <= j < b => (i, j as nat))
  }

  /** The index pairs j < i < n in the order of current2d's two loops. */
  function Pairs(n: nat): (r: seq<(nat, nat)>)
    ensures forall k :: 0 <= k < |r| ==> r[k].1 < r[k].0 < n
  {
    if n == 0 then [] else Pairs(n - 1) + PairRow(n - 1, n - 1)
  }

  /** Every pair j < i < n is visited, once, and no other. */
  lemma {:induction false} PairsMembers(n: nat)
    ensures forall i: nat, j: nat :: (i, j) in Pairs(n) <==> j < i < n
    ensures Distinct(Pairs(n))
    ensures |Pairs(n)| == n * (n - 1) / 2
  {
    if n > 0 {
      PairsMembers(n - 1);
      var front, row := Pairs(n - 1), PairRow(n - 1, n - 1);
      forall i: nat, j: nat
        ensures (i, j) in Pairs(n) <==> j < i < n
      {
        if i == n - 1 && j < i {
          assert row[j] == (i, j);
        }
      }
    }
    PairsDistinct(n);
  }

  lemma {:induction false} PairsDistinct(n: nat)
    ensures Distinct(Pairs(n))
  {
    if n > 0 {
      PairsDistinct(n - 1);
      var front, row := Pairs(n - 1), PairRow(n - 1, n - 1);
      assert Distinct(row) by {
        forall a, b | 0 <= a < b < |row|
          ensures row[a] != row[b]
        {
          assert row[a].1 == a && row[b].1 == b;
        }
      }
      forall k, l | 0 <= k < |front| && 0 <= l < |row|
        ensures front[k] != row[l]
      {
        assert front[k].0 < n - 1 == row[l].0;
      }
      DistinctConcat(front, row);
    }
  }

  /** The constraints of the listed output pairs, in order. */
  function Current2dList(outs: seq<Parameter>, indices: map<Parameter, Traces>, next: bool, pairs: seq<(nat, nat)>): seq<string>
    requires Aligned(outs, indices) && forall k :: 0 <= k < |pairs| ==> pairs[k].0 < |outs| && pairs[k].1 < |outs|
  {
    seq(|pairs|, (k: int) requires 0 <= k < |pairs| =>
      var pi, pj := outs[pairs[k].0], outs[pairs[k].1];
      PairConstraint(pi, pj, indices[pi], indices[pj], next))
  }

  lemma Current2dListConcat(outs: seq<Parameter>, indices: map<Parameter, Traces>, next: bool, a: seq<(nat, nat)>, b: seq<(nat, nat)>)
    requires Aligned(outs, indices)
    requires forall k :: 0 <= k < |a| ==> a[k].0 < |outs| && a[k].1 < |outs|
    requires forall k :: 0 <= k < |b| ==> b[k].0 < |outs| && b[k].1 < |outs|
    ensures Current2dList(outs, indices, next, a + b) == Current2dList(outs, indices, next, a) + Current2dList(outs, indices, next, b)
  {
  }

  /** Adding the constraints of row i up to j, then that of (i, j), adds those of the row up to j + 1. */
  lemma Current2dStep(cs0: seq<string>, outs: seq<Parameter>, indices: map<Parameter, Traces>, next: bool, i: nat, j: nat)
    requires Aligned(outs, indices) && j < i < |outs|
    ensures AddAll(cs0, Current2dList(outs, indices, next, PairRow(i, j + 1))) ==
      AddTo(AddAll(cs0, Current2dList(outs, indices, next, PairRow(i, j))),
        PairConstraint(outs[i], outs[j], indices[outs[i]], indices[outs[j]], next))
  {
    var row := PairRow(i, j);
    assert PairRow(i, j + 1) == row + [(i, j)];
    Current2dListConcat(outs, indices, next, row, [(i, j)]);
    var l := Current2dList(outs, indices, next, row + [(i, j)]);
    assert l[..|row|] == Current2dList(outs, indices, next, row);
  }

  /** Row i follows the rows below i. */
  lemma Current2dOuterStep(cs0: seq<string>, outs: seq<Parameter>, indices: map<Parameter, Traces>, next: bool, i: nat)
    requires Aligned(outs, indices) && i < |outs|
    ensures AddAll(cs0, Current2dList(outs, indices, next, Pairs(i + 1))) ==
      AddAll(AddAll(cs0, Current2dList(outs, indices, next, Pairs(i))), Current2dList(outs, indices, next, PairRow(i, i)))
  {
    Current2dListConcat(outs, indices, next, Pairs(i), PairRow(i, i));
    AddAllConcat(cs0, Current2dList(outs, indices, next, Pairs(i)), Current2dList(outs, indices, next, PairRow(i, i)));
  }

  /** The inner loop of current2d: the pairs (i, j) for every j below i. */
  method AddPairRow(cs: ConstraintSets, outs: seq<Parameter>, indices: map<Parameter, Traces>, i: nat)
    requires Aligned(outs, indices) && i < |outs| && cs.Valid()
    modifies cs
    ensures cs.Valid()
    ensures cs.init == AddAll(old(cs.init), Current2dList(outs, indices, false, PairRow(i, i)))
    ensures cs.trans == AddAll(old(cs.trans), Current2dList(outs, indices, true, PairRow(i, i)))
  {
    for j := 0 to i
      invariant cs.Valid()
      invariant cs.init == AddAll(old(cs.init), Current2dList(outs, indices, false, PairRow(i, j)))
      invariant cs.trans == AddAll(old(cs.trans), Current2dList(outs, indices, true, PairRow(i, j)))
    {
      var pi, pj := outs[i], outs[j];
      Current2dStep(old(cs.init), outs, indices, false, i, j);
      Current2dStep(old(cs.trans), outs, indices, true, i, j);
      AddPairConstraints(cs, pi, pj, indices[pi], indices[pj]);
    }
  }

  /** current2d: for every pair of outputs j < i, one INIT and one TRANS constraint. */
  method Current2d(conf: Configuration, cs: ConstraintSets, indices: map<Parameter, Traces>)
    requires Aligned(conf.outputs, indices) && cs.Valid()
    modifies cs
    ensures cs.Valid()
    ensures cs.init == AddAll(old(cs.init), Current2dList(conf.outputs, indices, false, Pairs(|conf.outputs|)))
    ensures cs.trans == AddAll(old(cs.trans), Current2dList(conf.outputs, indices, true, Pairs(|conf.outputs|)))
  {
    var outs := conf.outputs;
    for i := 0 to |outs|
      invariant cs.Valid()
      invariant cs.init == AddAll(old(cs.init), Current2dList(outs, indices, false, Pairs(i)))
      invariant cs.trans == AddAll(old(cs.trans), Current2dList(outs, indices, true, Pairs(i)))
    {
      Current2dOuterStep(old(cs.init), outs, indices, false, i);
      Current2dOuterStep(old(cs.trans), outs, indices, true, i);
      AddPairRow(cs, outs, indices, i);
    }
  }

  /**
   * The current2d constraint of (pi, pj) has one option per value of pi
   * that occurs in the traces, in ascending order, and the option of value
   * i1 confines pj to exactly the values found at the same (trace, step)
   * as i1.
   */
  lemma PairConstraintMeaning(pi: Parameter, pj: Parameter, ti: Traces, tj: Traces)
    requires SameShape(ti, tj) && InRange(ti, pi.valueCount) && InRange(tj, pj.valueCount)
    ensures var keys := OptionKeys(Buckets(ti, tj, pi.valueCount), pi.valueCount);
      (forall i1: nat :: i1 in keys <==> Seen(ti, i1)) && StrictlyIncreasing(keys)
    ensures var sets := Buckets(ti, tj, pi.valueCount);
      var keys := OptionKeys(sets, pi.valueCount);
      forall k, x :: 0 <= k < |keys| ==> (x in sets[keys[k]] <==> CoOccurs(ti, tj, keys[k], x))
  {
    var n := pi.valueCount;
    var sets := Buckets(ti, tj, n);
    OptionKeysMembers(sets, n);
    forall i1: nat
      ensures i1 < n && sets[i1] != [] <==> Seen(ti, i1)
    {
      if i1 < n {
        CollectEmpty(ti, tj, i1);
      }
    }
    forall i1: nat, x | i1 < n
      ensures x in sets[i1] <==> CoOccurs(ti, tj, i1, x)
    {
      CollectMembers(ti, tj, i1, x);
    }
  }

  // ---------------------------------------------------------------------------
  // current3d

  /** The filled indexTuples array as rows: slot (i1, i2) collects the target values found with key values i1 and i2. */
  function Grid(ti: Traces, tj: Traces, tk: Traces, n1: nat, n2: nat): (r: seq<seq<seq<int>>>)
    requires SameShape(ti, tk) && SameShape(tj, tk)
    ensures |r| == n1 && forall i1 :: 0 <= i1 < n1 ==> |r[i1]| == n2
  {
    seq(n1, (i1: int) requires 0 <= i1 < n1 =>
      seq(n2, (i2: int) requires 0 <= i2 < n2 => Collect(Zip(ti, tj), tk, (i1, i2))))
  }

  /** At some (trace, step) the three trace collections hold i1, i2 and x. */
  predicate CoOccurs3(ti: Traces, tj: Traces, tk: Traces, i1: int, i2: int, x: int)
  {
    exists u, v :: 0 <= u < |tk| && 0 <= v < |tk[u]| && u < |ti| && v < |ti[u]| && u < |tj| && v < |tj[u]| &&
      ti[u][v] == i1 && tj[u][v] == i2 && tk[u][v] == x
  }

  /** Every row of the grid holds valid slots. */
  predicate ValidGrid(g: seq<seq<seq<int>>>)
  {
    forall i1 :: 0 <= i1 < |g| ==> ValidSets(g[i1])
  }

  lemma GridValid(ti: Traces, tj: Traces, tk: Traces, n1: nat, n2: nat, m: nat)
    requires SameShape(ti, tk) && SameShape(tj, tk) && InRange(tk, m)
    ensures ValidGrid(Grid(ti, tj, tk, n1, n2))
  {
    forall i1, i2 | 0 <= i1 < n1 && 0 <= i2 < n2
      ensures NonNegative(Collect(Zip(ti, tj), tk, (i1, i2)))
    {
      CollectEmpty(Zip(ti, tj), tk, (i1, i2));
      SeenNonNegative(tk, m, Collect(Zip(ti, tj), tk, (i1, i2)));
    }
  }

  /** The slot (i1, i2) for each non-empty slot of row i1 among the first b, ascending. */
  function KeyRow(g: seq<seq<seq<int>>>, i1: nat, b: nat): (r: seq<(nat, nat)>)
    requires i1 < |g| && b <= |g[i1]|
    ensures forall k :: 0 <= k < |r| ==> r[k].0 == i1 && r[k].1 < b
  {
    var ks := OptionKeys(g[i1], b);
    seq(|ks|, (k: int) requires 0 <= k < |ks| => (i1, ks[k]))
  }

  /** The non-empty slots of the first a rows, in the order of current3d's option loops. */
  function KeyPairs(g: seq<seq<seq<int>>>, n2: nat, a: nat): (r: seq<(nat, nat)>)
    requires a <= |g| && forall i1 :: 0 <= i1 < |g| ==> n2 <= |g[i1]|
    ensures forall k :: 0 <= k < |r| ==> r[k].0 < a && r[k].1 < n2
  {
    if a == 0 then [] else KeyPairs(g, n2, a - 1) + KeyRow(g, a - 1, n2)
  }

  /** Row i1 holds exactly the non-empty slots of that row, in ascending column order. */
  lemma KeyRowMembers(g: seq<seq<seq<int>>>, i1: nat, b: nat)
    requires i1 < |g| && b <= |g[i1]|
    ensures forall i2: nat :: (i1, i2) in KeyRow(g, i1, b) <==> i2 < b && g[i1][i2] != []
    ensures forall k, l :: 0 <= k < l < |KeyRow(g, i1, b)| ==> KeyRow(g, i1, b)[k].1 < KeyRow(g, i1, b)[l].1
  {
    var ks := OptionKeys(g[i1], b);
    var row := KeyRow(g, i1, b);
    OptionKeysMembers(g[i1], b);
    forall i2: nat | i2 < b && g[i1][i2] != []
      ensures (i1, i2) in row
    {
      var k :| 0 <= k < |ks| && ks[k] == i2;
      assert row[k] == (i1, i2);
    }
    forall k, l | 0 <= k < l < |row|
      ensures row[k].1 < row[l].1
    {
      assert ks[k] < ks[l];
    }
  }

  /** The option keys are exactly the non-empty slots. */
  lemma {:induction false} KeyPairsMembers(g: seq<seq<seq<int>>>, n2: nat, a: nat)
    requires a <= |g| && forall i1 :: 0 <= i1 < |g| ==> n2 <= |g[i1]|
    ensures forall i1: nat, i2: nat :: (i1, i2) in KeyPairs(g, n2, a) <==> i1 < a && i2 < n2 && g[i1][i2] != []
  {
    if a > 0 {
      KeyPairsMembers(g, n2, a - 1);
      KeyRowMembers(g, a - 1, n2);
    }
  }

  /** Slot a comes before slot b in row-major order. */
  predicate LexLess(a: (nat, nat), b: (nat, nat))
  {
    a.0 < b.0 || (a.0 == b.0 && a.1 < b.1)
  }

  /** The option keys come in ascending (row, column) order. */
  lemma {:induction false} KeyPairsOrdered(g: seq<seq<seq<int>>>, n2: nat, a: nat)
    requires a <= |g| && forall i1 :: 0 <= i1 < |g| ==> n2 <= |g[i1]|
    ensures forall k, l :: 0 <= k < l < |KeyPairs(g, n2, a)| ==> LexLess(KeyPairs(g, n2, a)[k], KeyPairs(g, n2, a)[l])
  {
    if a > 0 {
      KeyPairsOrdered(g, n2, a - 1);
      KeyRowMembers(g, a - 1, n2);
      var front, row := KeyPairs(g, n2, a - 1), KeyRow(g, a - 1, n2);
      var all: seq<(nat, nat)> := front + row;
      forall k, l | 0 <= k < l < |all|
        ensures LexLess(all[k], all[l])
      {
        if l < |front| {
          assert all[k] == front[k] && all[l] == front[l];
        } else if k < |front| {
          assert all[k] == front[k] && all[l] == row[l - |front|];
        } else {
          assert all[k] == row[k - |front|] && all[l] == row[l - |front|];
        }
      }
    }
  }

  /** One option of current3d: pi has value i1, pj value i2, and pk lies among the values found with them. */
  function TripleOption(pi: Parameter, pj: Parameter, pk: Parameter, i1: nat, i2: nat, values: seq<int>, next: bool): string
    requires NonNegative(values) && StrictlyIncreasing(values)
  {
    VarName(pi, next) + " = " + NatToString(i1) + " & " + VarName(pj, next) + " = " + NatToString(i2) + " & " +
      IntervalConstraint(values, pk, next)
  }

  /** The options of the listed slots, in order. */
  function TripleOptions(pi: Parameter, pj: Parameter, pk: Parameter, g: seq<seq<seq<int>>>, keys: seq<(nat, nat)>, next: bool): seq<string>
    requires ValidGrid(g) && forall k :: 0 <= k < |keys| ==> keys[k].0 < |g| && keys[k].1 < |g[keys[k].0]|
  {
    seq(|keys|, (k: int) requires 0 <= k < |keys| =>
      TripleOption(pi, pj, pk, keys[k].0, keys[k].1, g[keys[k].0][keys[k].1], next))
  }

  /** The current3d constraint of outputs pi, pj and pk, whose traces are ti, tj and tk. */
  function TripleConstraint(pi: Parameter, pj: Parameter, pk: Parameter, ti: Traces, tj: Traces, tk: Traces, next: bool): string
    requires SameShape(ti, tk) && SameShape(tj, tk) && InRange(tk, pk.valueCount)
  {
    var g := Grid(ti, tj, tk, pi.valueCount, pj.valueCount);
    GridValid(ti, tj, tk, pi.valueCount, pj.valueCount, pk.valueCount);
    Join(TripleOptions(pi, pj, pk, g, KeyPairs(g, pj.valueCount, pi.valueCount), next), " | ")
  }

  lemma TripleOptionsConcat(pi: Parameter, pj: Parameter, pk: Parameter, g: seq<seq<seq<int>>>, a: seq<(nat, nat)>, b: seq<(nat, nat)>, next: bool)
    requires ValidGrid(g)
    requires forall k :: 0 <= k < |a| ==> a[k].0 < |g| && a[k].1 < |g[a[k].0]|
    requires forall k :: 0 <= k < |b| ==> b[k].0 < |g| && b[k].1 < |g[b[k].0]|
    ensures TripleOptions(pi, pj, pk, g, a + b, next) == TripleOptions(pi, pj, pk, g, a, next) + TripleOptions(pi, pj, pk, g, b, next)
  {
  }

  /** Row i1 up to b + 1 adds slot (i1, b) when it is non-empty. */
  lemma KeyRowNext(g: seq<seq<seq<int>>>, i1: nat, b: nat)
    requires i1 < |g| && b < |g[i1]|
    ensures KeyRow(g, i1, b + 1) == KeyRow(g, i1, b) + (if g[i1][b] != [] then [(i1, b)] else [])
  {
  }

  /** Slot (i1, i2) adds its option to row i1 when it is non-empty, and nothing otherwise. */
  lemma TripleRowStep(pi: Parameter, pj: Parameter, pk: Parameter, g: seq<seq<seq<int>>>, i1: nat, i2: nat, next: bool)
    requires ValidGrid(g) && i1 < |g| && i2 < |g[i1]|
    ensures var before, after := TripleOptions(pi, pj, pk, g, KeyRow(g, i1, i2), next), TripleOptions(pi, pj, pk, g, KeyRow(g, i1, i2 + 1), next);
      if g[i1][i2] != [] then after == before + [TripleOption(pi, pj, pk, i1, i2, g[i1][i2], next)] else after == before
  {
    KeyRowNext(g, i1, i2);
    var added := if g[i1][i2] != [] then [(i1, i2)] else [];
    TripleOptionsConcat(pi, pj, pk, g, KeyRow(g, i1, i2), added, next);
    if g[i1][i2] == [] {
      assert KeyRow(g, i1, i2 + 1) == KeyRow(g, i1, i2) + [];
      assert KeyRow(g, i1, i2) + [] == KeyRow(g, i1, i2);
    }
  }

  /** The inner option loop of current3d over row i1 of indexTuples, skipping the null slots. */
  method TripleRowOptions(pi: Parameter, pj: Parameter, pk: Parameter, sets: array2<seq<int>>, ghost g: seq<seq<seq<int>>>,
                          i1: nat, next: bool) returns (options: seq<string>)
    requires ValidGrid(g) && |g| == sets.Length0 && i1 < |g|
    requires forall a :: 0 <= a < |g| ==> |g[a]| == sets.Length1
    requires forall a, b :: 0 <= a < sets.Length0 && 0 <= b < sets.Length1 ==> sets[a, b] == g[a][b]
    ensures options == TripleOptions(pi, pj, pk, g, KeyRow(g, i1, sets.Length1), next)
  {
    options := [];
    for i2 := 0 to sets.Length1
      invariant options == TripleOptions(pi, pj, pk, g, KeyRow(g, i1, i2), next)
    {
      TripleRowStep(pi, pj, pk, g, i1, i2, next);
      if sets[i1, i2] != [] {
        options := options + [TripleOption(pi, pj, pk, i1, i2, sets[i1, i2], next)];
      }
    }
  }

  /** The option loops of current3d over the filled indexTuples array. */
  method JoinTripleOptions(pi: Parameter, pj: Parameter, pk: Parameter, sets: array2<seq<int>>, ghost g: seq<seq<seq<int>>>,
                           next: bool) returns (c: string)
    requires ValidGrid(g) && |g| == sets.Length0
    requires forall a :: 0 <= a < |g| ==> |g[a]| == sets.Length1
    requires forall a, b :: 0 <= a < sets.Length0 && 0 <= b < sets.Length1 ==> sets[a, b] == g[a][b]
    ensures c == Join(TripleOptions(pi, pj, pk, g, KeyPairs(g, sets.Length1, sets.Length0), next), " | ")
  {
    var options: seq<string> := [];
    for i1 := 0 to sets.Length0
      invariant options == TripleOptions(pi, pj, pk, g, KeyPairs(g, sets.Length1, i1), next)
    {
      TripleOptionsConcat(pi, pj, pk, g, KeyPairs(g, sets.Length1, i1), KeyRow(g, i1, sets.Length1), next);
      var row := TripleRowOptions(pi, pj, pk, sets, g, i1, next);
      options := options + row;
    }
    c := Join(options, " | ");
  }

  /** One (i, j, k) iteration of current3d: fill indexTuples, then add the INIT and the TRANS constraint. */
  method AddTripleConstraints(cs: ConstraintSets, pi: Parameter, pj: Parameter, pk: Parameter, ti: Traces, tj: Traces, tk: Traces)
    requires SameShape(ti, tk) && SameShape(tj, tk) && cs.Valid()
    requires InRange(ti, pi.valueCount) && InRange(tj, pj.valueCount) && InRange(tk, pk.valueCount)
    modifies cs
    ensures cs.Valid()
    ensures cs.init == AddTo(old(cs.init), TripleConstraint(pi, pj, pk, ti, tj, tk, false))
    ensures cs.trans == AddTo(old(cs.trans), TripleConstraint(pi, pj, pk, ti, tj, tk, true))
  {
    var sets := FillSets2(ti, tj, tk, pi.valueCount, pj.valueCount);
    ghost var g := Grid(ti, tj, tk, pi.valueCount, pj.valueCount);
    GridValid(ti, tj, tk, pi.valueCount, pj.valueCount, pk.valueCount);
    var c := JoinTripleOptions(pi, pj, pk, sets, g, false);
    cs.AddInit(c);
    c := JoinTripleOptions(pi, pj, pk, sets, g, true);
    cs.AddTrans(c);
  }

  /** The triples (i, j, k) of one innermost loop of current3d, k below b. */
  function TripleRow(i: nat, j: nat, b: nat): seq<(nat, nat, nat)>
  {
    seq(b, (k: int) requires 0 <= k < b => (i, j, k as nat))
  }

  /** The triples (i, j, k) with k < j < b. */
  function TripleBlock(i: nat, b: nat): (r: seq<(nat, nat, nat)>)
    ensures forall t :: 0 <= t < |r| ==> r[t].0 == i && r[t].2 < r[t].1 < b
  {
    if b == 0 then [] else TripleBlock(i, b - 1) + TripleRow(i, b - 1, b - 1)
  }

  /** The index triples k < j < i < n in the order of current3d's three loops. */
  function Triples(n: nat): (r: seq<(nat, nat, nat)>)
    ensures forall t :: 0 <= t < |r| ==> r[t].2 < r[t].1 < r[t].0 < n
  {
    if n == 0 then [] else Triples(n - 1) + TripleBlock(n - 1, n - 1)
  }

  lemma {:induction false} TripleBlockMembers(i: nat, b: nat)
    ensures forall j: nat, k: nat :: (i, j, k) in TripleBlock(i, b) <==> k < j < b
    ensures Distinct(TripleBlock(i, b))
  {
    if b > 0 {
      TripleBlockMembers(i, b - 1);
      var front, row := TripleBlock(i, b - 1), TripleRow(i, b - 1, b - 1);
      forall j: nat, k: nat
        ensures (i, j, k) in TripleBlock(i, b) <==> k < j < b
      {
        if j == b - 1 && k < j {
          assert row[k] == (i, j, k);
        }
      }
      assert Distinct(row) by {
        forall a, c | 0 <= a < c < |row|
          ensures row[a] != row[c]
        {
          assert row[a].2 == a && row[c].2 == c;
        }
      }
      forall a, c | 0 <= a < |front| && 0 <= c < |row|
        ensures front[a] != row[c]
      {
        assert front[a].1 < b - 1 == row[c].1;
      }
      DistinctConcat(front, row);
    }
  }

  /** Every triple k < j < i < n is visited, once, and no other. */
  lemma {:induction false} TriplesMembers(n: nat)
    ensures forall i: nat, j: nat, k: nat :: (i, j, k) in Triples(n) <==> k < j < i < n
    ensures Distinct(Triples(n))
  {
    if n > 0 {
      TriplesMembers(n - 1);
      TripleBlockMembers(n - 1, n - 1);
      var front, block := Triples(n - 1), TripleBlock(n - 1, n - 1);
      forall i: nat, j: nat, k: nat
        ensures (i, j, k) in front + block <==> k < j < i < n
      {
        if i == n - 1 && k < j < i {
          assert (i, j, k) in block;
        }
      }
      forall a, c | 0 <= a < |front| && 0 <= c < |block|
        ensures front[a] != block[c]
      {
        assert front[a].0 < n - 1 == block[c].0;
      }
      DistinctConcat(front, block);
    }
  }

  /** The constraints of the listed output triples, in order. */
  function Current3dList(outs: seq<Parameter>, indices: map<Parameter, Traces>, next: bool, triples: seq<(nat, nat, nat)>): seq<string>
    requires Aligned(outs, indices)
    requires forall t :: 0 <= t < |triples| ==> triples[t].0 < |outs| && triples[t].1 < |outs| && triples[t].2 < |outs|
  {
    seq(|triples|, (t: int) requires 0 <= t < |triples| => TripleAt(outs, indices, next, triples[t]))
  }

  /** The constraint of one output triple. */
  function TripleAt(outs: seq<Parameter>, indices: map<Parameter, Traces>, next: bool, triple: (nat, nat, nat)): string
    requires Aligned(outs, indices)
    requires triple.0 < |outs| && triple.1 < |outs| && triple.2 < |outs|
  {
    var pi, pj, pk := outs[triple.0], outs[triple.1], outs[triple.2];
    TripleConstraint(pi, pj, pk, indices[pi], indices[pj], indices[pk], next)
  }

  lemma Current3dListConcat(outs: seq<Parameter>, indices: map<Parameter, Traces>, next: bool, a: seq<(nat, nat, nat)>, b: seq<(nat, nat, nat)>)
    requires Aligned(outs, indices)
    requires forall t :: 0 <= t < |a| ==> a[t].0 < |outs| && a[t].1 < |outs| && a[t].2 < |outs|
    requires forall t :: 0 <= t < |b| ==> b[t].0 < |outs| && b[t].1 < |outs| && b[t].2 < |outs|
    ensures Current3dList(outs, indices, next, a + b) == Current3dList(outs, indices, next, a) + Current3dList(outs, indices, next, b)
  {
  }

  /** Adding the constraints of row (i, j) up to k, then that of (i, j, k), adds those of the row up to k + 1. */
  lemma Current3dStep(cs0: seq<string>, outs: seq<Parameter>, indices: map<Parameter, Traces>, next: bool, i: nat, j: nat, k: nat)
    requires Aligned(outs, indices) && k < j < i < |outs|
    ensures AddAll(cs0, Current3dList(outs, indices, next, TripleRow(i, j, k + 1))) ==
      AddTo(AddAll(cs0, Current3dList(outs, indices, next, TripleRow(i, j, k))),
        TripleConstraint(outs[i], outs[j], outs[k], indices[outs[i]], indices[outs[j]], indices[outs[k]], next))
  {
    var row := TripleRow(i, j, k);
    assert TripleRow(i, j, k + 1) == row + [(i, j, k)];
    Current3dListConcat(outs, indices, next, row, [(i, j, k)]);
    var l := Current3dList(outs, indices, next, row + [(i, j, k)]);
    assert l[..|row|] == Current3dList(outs, indices, next, row);
  }

  /** Row (i, j) follows the rows (i, j') with j' below j. */
  lemma Current3dBlockStep(cs0: seq<string>, outs: seq<Parameter>, indices: map<Parameter, Traces>, next: bool, i: nat, j: nat)
    requires Aligned(outs, indices) && j < i < |outs|
    ensures AddAll(cs0, Current3dList(outs, indices, next, TripleBlock(i, j + 1))) ==
      AddAll(AddAll(cs0, Current3dList(outs, indices, next, TripleBlock(i, j))), Current3dList(outs, indices, next, TripleRow(i, j, j)))
  {
    Current3dListConcat(outs, indices, next, TripleBlock(i, j), TripleRow(i, j, j));
    AddAllConcat(cs0, Current3dList(outs, indices, next, TripleBlock(i, j)), Current3dList(outs, indices, next, TripleRow(i, j, j)));
  }

  /** Block i follows the blocks below i. */
  lemma Current3dOuterStep(cs0: seq<string>, outs: seq<Parameter>, indices: map<Parameter, Traces>, next: bool, i: nat)
    requires Aligned(outs, indices) && i < |outs|
    ensures AddAll(cs0, Current3dList(outs, indices, next, Triples(i + 1))) ==
      AddAll(AddAll(cs0, Current3dList(outs, indices, next, Triples(i))), Current3dList(outs, indices, next, TripleBlock(i, i)))
  {
    Current3dListConcat(outs, indices, next, Triples(i), TripleBlock(i, i));
    AddAllConcat(cs0, Current3dList(outs, indices, next, Triples(i)), Current3dList(outs, indices, next, TripleBlock(i, i)));
  }

  /** The innermost loop of current3d: the triples (i, j, k) for every k below j. */
  method AddTripleRow(cs: ConstraintSets, outs: seq<Parameter>, indices: map<Parameter, Traces>, i: nat, j: nat)
    requires Aligned(outs, indices) && j < i < |outs| && cs.Valid()
    modifies cs
    ensures cs.Valid()
    ensures cs.init == AddAll(old(cs.init), Current3dList(outs, indices, false, TripleRow(i, j, j)))
    ensures cs.trans == AddAll(old(cs.trans), Current3dList(outs, indices, true, TripleRow(i, j, j)))
  {
    for k := 0 to j
      invariant cs.Valid()
      invariant cs.init == AddAll(old(cs.init), Current3dList(outs, indices, false, TripleRow(i, j, k)))
      invariant cs.trans == AddAll(old(cs.trans), Current3dList(outs, indices, true, TripleRow(i, j, k)))
    {
      var pi, pj, pk := outs[i], outs[j], outs[k];
      Current3dStep(old(cs.init), outs, indices, false, i, j, k);
      Current3dStep(old(cs.trans), outs, indices, true, i, j, k);
      AddTripleConstraints(cs, pi, pj, pk, indices[pi], indices[pj], indices[pk]);
    }
  }

  /** The middle loop of current3d: the rows (i, j) for every j below i. */
  method AddTripleBlock(cs: ConstraintSets, outs: seq<Parameter>, indices: map<Parameter, Traces>, i: nat)
    requires Aligned(outs, indices) && i < |outs| && cs.Valid()
    modifies cs
    ensures cs.Valid()
    ensures cs.init == AddAll(old(cs.init), Current3dList(outs, indices, false, TripleBlock(i, i)))
    ensures cs.trans == AddAll(old(cs.trans), Current3dList(outs, indices, true, TripleBlock(i, i)))
  {
    for j := 0 to i
      invariant cs.Valid()
      invariant cs.init == AddAll(old(cs.init), Current3dList(outs, indices, false, TripleBlock(i, j)))
      invariant cs.trans == AddAll(old(cs.trans), Current3dList(outs, indices, true, TripleBlock(i, j)))
    {
      Current3dBlockStep(old(cs.init), outs, indices, false, i, j);
      Current3dBlockStep(old(cs.trans), outs, indices, true, i, j);
      AddTripleRow(cs, outs, indices, i, j);
    }
  }

  /** current3d: for every triple of outputs k < j < i, one INIT and one TRANS constraint. */
  method Current3d(conf: Configuration, cs: ConstraintSets, indices: map<Parameter, Traces>)
    requires Aligned(conf.outputs, indices) && cs.Valid()
    modifies cs
    ensures cs.Valid()
    ensures cs.init == AddAll(old(cs.init), Current3dList(conf.outputs, indices, false, Triples(|conf.outputs|)))
    ensures cs.trans == AddAll(old(cs.trans), Current3dList(conf.outputs, indices, true, Triples(|conf.outputs|)))
  {
    var outs := conf.outputs;
    for i := 0 to |outs|
      invariant cs.Valid()
      invariant cs.init == AddAll(old(cs.init), Current3dList(outs, indices, false, Triples(i)))
      invariant cs.trans == AddAll(old(cs.trans), Current3dList(outs, indices, true, Triples(i)))
    {
      Current3dOuterStep(old(cs.init), outs, indices, false, i);
      Current3dOuterStep(old(cs.trans), outs, indices, true, i);
      AddTripleBlock(cs, outs, indices, i);
    }
  }

  /**
   * The current3d constraint of (pi, pj, pk) has one option per pair of
   * values of pi and pj found together in the traces, in ascending order,
   * and the option of (i1, i2) confines pk to exactly the values found at
   * the same (trace, step) as that pair.
   */
  /** Slot (i1, i2) of the grid holds exactly the values found together with i1 and i2. */
  lemma GridSlot(ti: Traces, tj: Traces, tk: Traces, n1: nat, n2: nat, i1: nat, i2: nat, x: int)
    requires SameShape(ti, tk) && SameShape(tj, tk) && i1 < n1 && i2 < n2
    ensures x in Grid(ti, tj, tk, n1, n2)[i1][i2] <==> CoOccurs3(ti, tj, tk, i1, i2, x)
  {
    var keys := Zip(ti, tj);
    CollectMembers(keys, tk, (i1, i2), x);
    if CoOccurs3(ti, tj, tk, i1, i2, x) {
      var u, v :| 0 <= u < |tk| && 0 <= v < |tk[u]| && u < |ti| && v < |ti[u]| && u < |tj| && v < |tj[u]| &&
        ti[u][v] == i1 && tj[u][v] == i2 && tk[u][v] == x;
      assert keys[u][v] == (i1, i2);
    }
  }

  /** Values found together always lie within the parameters' ranges. */
  lemma CoOccurs3InRange(ti: Traces, tj: Traces, tk: Traces, n1: nat, n2: nat, i1: int, i2: int, x: int)
    requires InRange(ti, n1) && InRange(tj, n2) && CoOccurs3(ti, tj, tk, i1, i2, x)
    ensures 0 <= i1 < n1 && 0 <= i2 < n2
  {
  }

  /**
   * The current3d constraint of (pi, pj, pk) has one option per pair of
   * values of pi and pj found together in the traces, in ascending order,
   * and the option of (i1, i2) confines pk to exactly the values found at
   * the same (trace, step) as that pair.
   */
  lemma TripleConstraintMeaning(pi: Parameter, pj: Parameter, pk: Parameter, ti: Traces, tj: Traces, tk: Traces)
    requires SameShape(ti, tk) && SameShape(tj, tk) && InRange(ti, pi.valueCount) && InRange(tj, pj.valueCount)
    ensures var g := Grid(ti, tj, tk, pi.valueCount, pj.valueCount);
      forall i1: nat, i2: nat :: (i1, i2) in KeyPairs(g, pj.valueCount, pi.valueCount) <==>
        exists x :: CoOccurs3(ti, tj, tk, i1, i2, x)
    ensures var g := Grid(ti, tj, tk, pi.valueCount, pj.valueCount);
      var r := KeyPairs(g, pj.valueCount, pi.valueCount);
      forall k, l :: 0 <= k < l < |r| ==> LexLess(r[k], r[l])
    ensures var g := Grid(ti, tj, tk, pi.valueCount, pj.valueCount);
      forall i1: nat, i2: nat, x :: i1 < pi.valueCount && i2 < pj.valueCount ==>
        (x in g[i1][i2] <==> CoOccurs3(ti, tj, tk, i1, i2, x))
  {
    var n1, n2 := pi.valueCount, pj.valueCount;
    var g := Grid(ti, tj, tk, n1, n2);
    KeyPairsMembers(g, n2, n1);
    KeyPairsOrdered(g, n2, n1);
    forall i1: nat, i2: nat, x | i1 < n1 && i2 < n2
      ensures x in g[i1][i2] <==> CoOccurs3(ti, tj, tk, i1, i2, x)
    {
      GridSlot(ti, tj, tk, n1, n2, i1, i2, x);
    }
    forall i1: nat, i2: nat
      ensures (i1 < n1 && i2 < n2 && g[i1][i2] != []) <==> exists x :: CoOccurs3(ti, tj, tk, i1, i2, x)
    {
      if x :| CoOccurs3(ti, tj, tk, i1, i2, x) {
        CoOccurs3InRange(ti, tj, tk, n1, n2, i1, i2, x);
        GridSlot(ti, tj, tk, n1, n2, i1, i2, x);
      }
      if i1 < n1 && i2 < n2 && g[i1][i2] != [] {
        GridSlot(ti, tj, tk, n1, n2, i1, i2, g[i1][i2][0]);
      }
    }
  }


  // ---------------------------------------------------------------------------
  // currentNext2d

  /** The LinkedHashSet of all parameters: the inputs, then the outputs, each once. */
  function AllParameters(conf: Configuration): seq<Parameter>
  {
    AddAll(AddAll([], conf.inputs), conf.outputs)
  }

  /** The LinkedHashSet of the output parameters. */
  function OutputParameters(conf: Configuration): seq<Parameter>
  {
    AddAll([], conf.outputs)
  }

  /** The two parameter sets hold each parameter once, and exactly the configured ones. */
  lemma ParameterSets(conf: Configuration)
    ensures Distinct(AllParameters(conf)) && Distinct(OutputParameters(conf))
    ensures forall p :: p in AllParameters(conf) <==> p in conf.inputs || p in conf.outputs
    ensures forall p :: p in OutputParameters(conf) <==> p in conf.outputs
    ensures AllParameters(conf) == AddAll([], conf.inputs + conf.outputs)
  {
    AddAllMembers([], conf.inputs);
    AddAllMembers(AddAll([], conf.inputs), conf.outputs);
    AddAllMembers([], conf.outputs);
    AddAllConcat([], conf.inputs, conf.outputs);
  }

  /**
   * A (current, next) pair is skipped when cross outputs are not allowed
   * and the current parameter is an output other than the next one.
   */
  predicate Skipped(allow: bool, outs: seq<Parameter>, pc: Parameter, pn: Parameter)
  {
    !allow && pc in outs && pc != pn
  }

  /**
   * The condition on the current value i1 of pc: an input lies in the
   * i1-th interval of its continuous values, an output equals i1.
   */
  function CurrentCondition(pc: Parameter, isInput: bool, i1: nat): string
    requires i1 < |pc.ranges|
  {
    if isInput then "CONT_INPUT_" + pc.traceName + " in " + pc.ranges[i1]
    else "output_" + pc.traceName + " = " + NatToString(i1)
  }

  /** The condition on the next value of pn: nothing when no value was found, else its range. */
  function NextCondition(values: seq<int>, pn: Parameter): string
    requires NonNegative(values) && StrictlyIncreasing(values)
  {
    if values == [] then "" else " & " + IntervalConstraint(values, pn, true)
  }

  /** One option per value of pc, in order, for the first |sets| values. */
  function NextOptions(pc: Parameter, isInput: bool, pn: Parameter, sets: seq<seq<int>>): (r: seq<string>)
    requires |sets| <= |pc.ranges| && ValidSets(sets)
    ensures |r| == |sets|
  {
    seq(|sets|, (i1: int) requires 0 <= i1 < |sets| => CurrentCondition(pc, isInput, i1) + NextCondition(sets[i1], pn))
  }

  /** The currentNext2d constraint of current parameter pc and next output pn, whose traces are tc and tn. */
  function NextConstraint(pc: Parameter, isInput: bool, pn: Parameter, tc: Traces, tn: Traces): string
    requires SameShape(tc, tn) && InRange(tn, pn.valueCount) && |pc.ranges| == pc.valueCount
  {
    BucketsValid(tc, tn, pc.valueCount, pn.valueCount);
    Join(NextOptions(pc, isInput, pn, Buckets(tc, tn, pc.valueCount)), " | ")
  }

  /** The option loop of currentNext2d over the filled indexPairs array. */
  method JoinNextOptions(pc: Parameter, isInput: bool, pn: Parameter, sets: array<seq<int>>) returns (c: string)
    requires sets.Length == |pc.ranges| && ValidSets(sets[..])
    ensures c == Join(NextOptions(pc, isInput, pn, sets[..]), " | ")
  {
    var options: seq<string> := [];
    for i1 := 0 to sets.Length
      invariant options == NextOptions(pc, isInput, pn, sets[..i1])
    {
      var currentCondition := CurrentCondition(pc, isInput, i1);
      var nextCondition := if sets[i1] == [] then "" else " & " + IntervalConstraint(sets[i1], pn, true);
      options := options + [currentCondition + nextCondition];
    }
    assert sets[..sets.Length] == sets[..];
    c := Join(options, " | ");
  }

  /** One (pCurrent, pNext) iteration of currentNext2d: fill indexPairs, then add the TRANS constraint. */
  method AddNextConstraint(cs: ConstraintSets, pc: Parameter, isInput: bool, pn: Parameter, tc: Traces, tn: Traces)
    requires SameShape(tc, tn) && InRange(tc, pc.valueCount) && InRange(tn, pn.valueCount)
    requires |pc.ranges| == pc.valueCount && cs.Valid()
    modifies cs
    ensures cs.Valid() && cs.init == old(cs.init)
    ensures cs.trans == AddTo(old(cs.trans), NextConstraint(pc, isInput, pn, tc, tn))
  {
    var sets := FillSets(tc, tn, pc.valueCount);
    assert sets[..] == Buckets(tc, tn, pc.valueCount);
    BucketsValid(tc, tn, pc.valueCount, pn.valueCount);
    var c := JoinNextOptions(pc, isInput, pn, sets);
    cs.AddTrans(c);
  }

  /** The pairs (all[c], pn) for the outputs pn among the first b of outs that are not skipped. */
  function NextRow(all: seq<Parameter>, outs: seq<Parameter>, allow: bool, c: nat, b: nat): (r: seq<(Parameter, Parameter)>)
    requires c < |all| && b <= |outs|
  {
    if b == 0 then []
    else NextRow(all, outs, allow, c, b - 1) + (if Skipped(allow, outs, all[c], outs[b - 1]) then [] else [(all[c], outs[b - 1])])
  }

  /** The (current, next) parameter pairs of currentNext2d's two loops, for the first a current parameters. */
  function NextPairs(all: seq<Parameter>, outs: seq<Parameter>, allow: bool, a: nat): (r: seq<(Parameter, Parameter)>)
    requires a <= |all|
  {
    if a == 0 then [] else NextPairs(all, outs, allow, a - 1) + NextRow(all, outs, allow, a - 1, |outs|)
  }

  lemma {:induction false} NextRowMembers(all: seq<Parameter>, outs: seq<Parameter>, allow: bool, c: nat, b: nat)
    requires c < |all| && b <= |outs|
    ensures forall pc, pn :: (pc, pn) in NextRow(all, outs, allow, c, b) <==>
      pc == all[c] && pn in outs[..b] && !Skipped(allow, outs, pc, pn)
  {
    if b > 0 {
      NextRowMembers(all, outs, allow, c, b - 1);
      assert outs[..b] == outs[..b - 1] + [outs[b - 1]];
    }
  }

  /**
   * currentNext2d visits every (current, next) pair that the cross-output
   * rule does not skip, and no other.
   */
  lemma {:induction false} NextPairsMembers(all: seq<Parameter>, outs: seq<Parameter>, allow: bool, a: nat)
    requires a <= |all|
    ensures forall pc, pn :: (pc, pn) in NextPairs(all, outs, allow, a) <==>
      pc in all[..a] && pn in outs && !Skipped(allow, outs, pc, pn)
  {
    if a > 0 {
      NextPairsMembers(all, outs, allow, a - 1);
      NextRowMembers(all, outs, allow, a - 1, |outs|);
      assert all[..a] == all[..a - 1] + [all[a - 1]];
      assert outs[..|outs|] == outs;
    }
  }

  /** The traces of a current parameter and a next output fit the fill loop. */
  predicate PairFits(pc: Parameter, pn: Parameter, indices: map<Parameter, Traces>)
  {
    pc in indices && pn in indices && SameShape(indices[pc], indices[pn]) && |pc.ranges| == pc.valueCount &&
    InRange(indices[pc], pc.valueCount) && InRange(indices[pn], pn.valueCount)
  }

  predicate PairsFit(pairs: seq<(Parameter, Parameter)>, indices: map<Parameter, Traces>)
  {
    forall k :: 0 <= k < |pairs| ==> PairFits(pairs[k].0, pairs[k].1, indices)
  }

  /**
   * Every parameter of the two sets has traces of the shape of the first
   * one's, so all are aligned; the outputs are among all parameters.
   */
  predicate NextReady(all: seq<Parameter>, outs: seq<Parameter>, indices: map<Parameter, Traces>)
  {
    Indexed(all, indices) && (forall p | p in outs :: p in all) &&
    forall k :: 0 <= k < |all| ==> SameShape(indices[all[k]], indices[all[0]])
  }

  lemma NextReadyAll(conf: Configuration, indices: map<Parameter, Traces>)
    requires Aligned(conf.inputs + conf.outputs, indices)
    ensures NextReady(AllParameters(conf), OutputParameters(conf), indices)
  {
    ParameterSets(conf);
    var all := AllParameters(conf);
    forall k | 0 <= k < |all|
      ensures SameShape(indices[all[k]], indices[all[0]])
    {
      assert all[k] in conf.inputs + conf.outputs && all[0] in conf.inputs + conf.outputs;
    }
  }

  /** Any two of the parameters fit the fill loop together. */
  lemma ReadyFits(all: seq<Parameter>, outs: seq<Parameter>, indices: map<Parameter, Traces>, pc: Parameter, pn: Parameter)
    requires NextReady(all, outs, indices) && pc in all && pn in all
    ensures PairFits(pc, pn, indices)
  {
    var i :| 0 <= i < |all| && all[i] == pc;
    var j :| 0 <= j < |all| && all[j] == pn;
    assert SameShape(indices[all[i]], indices[all[0]]) && SameShape(indices[all[j]], indices[all[0]]);
  }

  lemma NextRowFits(all: seq<Parameter>, outs: seq<Parameter>, indices: map<Parameter, Traces>, allow: bool, c: nat, b: nat)
    requires NextReady(all, outs, indices) && c < |all| && b <= |outs|
    ensures PairsFit(NextRow(all, outs, allow, c, b), indices)
  {
    var r := NextRow(all, outs, allow, c, b);
    NextRowMembers(all, outs, allow, c, b);
    forall k | 0 <= k < |r|
      ensures PairFits(r[k].0, r[k].1, indices)
    {
      assert r[k] in r;
      assert r[k].1 in outs[..b];
      ReadyFits(all, outs, indices, r[k].0, r[k].1);
    }
  }

  lemma NextPairsFit(all: seq<Parameter>, outs: seq<Parameter>, indices: map<Parameter, Traces>, allow: bool, a: nat)
    requires NextReady(all, outs, indices) && a <= |all|
    ensures PairsFit(NextPairs(all, outs, allow, a), indices)
  {
    var r := NextPairs(all, outs, allow, a);
    NextPairsMembers(all, outs, allow, a);
    forall k | 0 <= k < |r|
      ensures PairFits(r[k].0, r[k].1, indices)
    {
      assert r[k] in r;
      assert r[k].0 in all[..a];
      ReadyFits(all, outs, indices, r[k].0, r[k].1);
    }
  }

  /** The constraints of the listed (current, next) pairs, in order; ins are the input parameters. */
  function CurrentNext2dList(ins: seq<Parameter>, indices: map<Parameter, Traces>, pairs: seq<(Parameter, Parameter)>): seq<string>
    requires PairsFit(pairs, indices)
  {
    seq(|pairs|, (k: int) requires 0 <= k < |pairs| =>
      var pc, pn := pairs[k].0, pairs[k].1;
      NextConstraint(pc, pc in ins, pn, indices[pc], indices[pn]))
  }

  lemma CurrentNext2dListConcat(ins: seq<Parameter>, indices: map<Parameter, Traces>, a: seq<(Parameter, Parameter)>, b: seq<(Parameter, Parameter)>)
    requires PairsFit(a, indices) && PairsFit(b, indices)
    ensures PairsFit(a + b, indices)
    ensures CurrentNext2dList(ins, indices, a + b) == CurrentNext2dList(ins, indices, a) + CurrentNext2dList(ins, indices, b)
  {
  }

  /** Adding the constraints of pairs and then that of (pc, pn) adds those of pairs + [(pc, pn)]. */
  lemma CurrentNext2dSnoc(cs0: seq<string>, ins: seq<Parameter>, indices: map<Parameter, Traces>,
                          pairs: seq<(Parameter, Parameter)>, pc: Parameter, pn: Parameter)
    requires PairsFit(pairs, indices) && PairFits(pc, pn, indices)
    ensures PairsFit(pairs + [(pc, pn)], indices)
    ensures AddAll(cs0, CurrentNext2dList(ins, indices, pairs + [(pc, pn)])) ==
      AddTo(AddAll(cs0, CurrentNext2dList(ins, indices, pairs)), NextConstraint(pc, pc in ins, pn, indices[pc], indices[pn]))
  {
    CurrentNext2dListConcat(ins, indices, pairs, [(pc, pn)]);
    var l := CurrentNext2dList(ins, indices, pairs + [(pc, pn)]);
    assert l[..|pairs|] == CurrentNext2dList(ins, indices, pairs);
  }

  /** The inner loop of currentNext2d: every next output for the current parameter all[c]. */
  method AddNextRow(cs: ConstraintSets, all: seq<Parameter>, outs: seq<Parameter>, ins: seq<Parameter>,
                    indices: map<Parameter, Traces>, allow: bool, c: nat)
    requires NextReady(all, outs, indices) && c < |all| && cs.Valid()
    modifies cs
    ensures PairsFit(NextRow(all, outs, allow, c, |outs|), indices)
    ensures cs.Valid() && cs.init == old(cs.init)
    ensures cs.trans == AddAll(old(cs.trans), CurrentNext2dList(ins, indices, NextRow(all, outs, allow, c, |outs|)))
  {
    var pc := all[c];
    for n := 0 to |outs|
      invariant PairsFit(NextRow(all, outs, allow, c, n), indices)
      invariant cs.Valid() && cs.init == old(cs.init)
      invariant cs.trans == AddAll(old(cs.trans), CurrentNext2dList(ins, indices, NextRow(all, outs, allow, c, n)))
    {
      var pn := outs[n];
      ghost var row := NextRow(all, outs, allow, c, n);
      NextRowFits(all, outs, indices, allow, c, n + 1);
      if !allow && pc in outs && pc != pn {
        assert NextRow(all, outs, allow, c, n + 1) == row + [];
        assert row + [] == row;
        continue;
      }
      assert NextRow(all, outs, allow, c, n + 1) == row + [(pc, pn)];
      ReadyFits(all, outs, indices, pc, pn);
      CurrentNext2dSnoc(old(cs.trans), ins, indices, row, pc, pn);
      AddNextConstraint(cs, pc, pc in ins, pn, indices[pc], indices[pn]);
    }
  }

  /** Row c follows the rows below c. */
  lemma CurrentNext2dOuterStep(cs0: seq<string>, all: seq<Parameter>, outs: seq<Parameter>, ins: seq<Parameter>,
                               indices: map<Parameter, Traces>, allow: bool, c: nat)
    requires NextReady(all, outs, indices) && c < |all|
    ensures PairsFit(NextPairs(all, outs, allow, c + 1), indices)
    ensures PairsFit(NextPairs(all, outs, allow, c), indices) && PairsFit(NextRow(all, outs, allow, c, |outs|), indices)
    ensures AddAll(cs0, CurrentNext2dList(ins, indices, NextPairs(all, outs, allow, c + 1))) ==
      AddAll(AddAll(cs0, CurrentNext2dList(ins, indices, NextPairs(all, outs, allow, c))),
        CurrentNext2dList(ins, indices, NextRow(all, outs, allow, c, |outs|)))
  {
    var front, row := NextPairs(all, outs, allow, c), NextRow(all, outs, allow, c, |outs|);
    NextPairsFit(all, outs, indices, allow, c);
    NextRowFits(all, outs, indices, allow, c, |outs|);
    CurrentNext2dListConcat(ins, indices, front, row);
    AddAllConcat(cs0, CurrentNext2dList(ins, indices, front), CurrentNext2dList(ins, indices, row));
  }

  /** currentNext2d: one TRANS constraint per (current parameter, next output) pair that is not skipped. */
  method CurrentNext2d(conf: Configuration, cs: ConstraintSets, indices: map<Parameter, Traces>, allow: bool)
    requires Aligned(conf.inputs + conf.outputs, indices) && cs.Valid()
    modifies cs
    ensures PairsFit(NextPairs(AllParameters(conf), OutputParameters(conf), allow, |AllParameters(conf)|), indices)
    ensures cs.Valid() && cs.init == old(cs.init)
    ensures var all, outs := AllParameters(conf), OutputParameters(conf);
      cs.trans == AddAll(old(cs.trans), CurrentNext2dList(conf.inputs, indices, NextPairs(all, outs, allow, |all|)))
  {
    NextReadyAll(conf, indices);
    var all, outs := AllParameters(conf), OutputParameters(conf);
    for c := 0 to |all|
      invariant PairsFit(NextPairs(all, outs, allow, c), indices)
      invariant cs.Valid() && cs.init == old(cs.init)
      invariant cs.trans == AddAll(old(cs.trans), CurrentNext2dList(conf.inputs, indices, NextPairs(all, outs, allow, c)))
    {
      CurrentNext2dOuterStep(old(cs.trans), all, outs, conf.inputs, indices, allow, c);
      AddNextRow(cs, all, outs, conf.inputs, indices, allow, c);
    }
  }

  /**
   * The currentNext2d constraint of (pc, pn) has one option per value i1
   * of pc, in order. Option i1 carries no condition on the next value of
   * pn when i1 never occurs in the traces of pc; otherwise it confines pn
   * to exactly the values found at the same (trace, step) as i1.
   */
  lemma NextConstraintMeaning(pc: Parameter, isInput: bool, pn: Parameter, tc: Traces, tn: Traces)
    requires SameShape(tc, tn) && InRange(tn, pn.valueCount) && |pc.ranges| == pc.valueCount
    ensures ValidSets(Buckets(tc, tn, pc.valueCount))
    ensures var sets := Buckets(tc, tn, pc.valueCount);
      var options := NextOptions(pc, isInput, pn, sets);
      |options| == pc.valueCount &&
      forall i1: nat :: i1 < pc.valueCount ==>
        options[i1] == CurrentCondition(pc, isInput, i1) + (if Seen(tc, i1) then " & " + IntervalConstraint(sets[i1], pn, true) else "")
    ensures var sets := Buckets(tc, tn, pc.valueCount);
      forall i1: nat, x :: i1 < pc.valueCount ==> (x in sets[i1] <==> CoOccurs(tc, tn, i1, x))
  {
    var sets := Buckets(tc, tn, pc.valueCount);
    BucketsValid(tc, tn, pc.valueCount, pn.valueCount);
    forall i1: nat | i1 < pc.valueCount
      ensures sets[i1] == [] <==> !Seen(tc, i1)
    {
      CollectEmpty(tc, tn, i1);
    }
    forall i1: nat, x | i1 < pc.valueCount
      ensures x in sets[i1] <==> CoOccurs(tc, tn, i1, x)
    {
      CollectMembers(tc, tn, i1, x);
    }
  }


  // ---------------------------------------------------------------------------
  // currentNext3d

  /** The rows of a grid, one after another. */
  function Flatten<T>(rows: seq<seq<T>>): seq<T>
  {
    if rows == [] then [] else Flatten(rows[..|rows| - 1]) + rows[|rows| - 1]
  }

  /** One option of currentNext3d: the conditions on both current values, then the one on the next value. */
  function Next3dOption(pc1: Parameter, in1: bool, pc2: Parameter, in2: bool, pn: Parameter, i1: nat, i2: nat, values: seq<int>): string
    requires i1 < |pc1.ranges| && i2 < |pc2.ranges| && NonNegative(values) && StrictlyIncreasing(values)
  {
    CurrentCondition(pc1, in1, i1) + " & " + CurrentCondition(pc2, in2, i2) + NextCondition(values, pn)
  }

  /** Slot (i1, i2) lies in the grid and in both parameters' ranges, and its values are a valid set. */
  predicate SlotFits(pc1: Parameter, pc2: Parameter, g: seq<seq<seq<int>>>, i1: nat, i2: nat)
  {
    i1 < |g| && i2 < |g[i1]| && i1 < |pc1.ranges| && i2 < |pc2.ranges| &&
    NonNegative(g[i1][i2]) && StrictlyIncreasing(g[i1][i2])
  }

  /** The option of slot (i1, i2) of the grid (empty for a slot outside it, which the loops never reach). */
  function SlotOption(pc1: Parameter, in1: bool, pc2: Parameter, in2: bool, pn: Parameter, g: seq<seq<seq<int>>>, i1: nat, i2: nat): string
  {
    if SlotFits(pc1, pc2, g, i1, i2) then Next3dOption(pc1, in1, pc2, in2, pn, i1, i2, g[i1][i2]) else ""
  }

  /** The options of the first b slots of row i1, in order. */
  function GridRowOptions(pc1: Parameter, in1: bool, pc2: Parameter, in2: bool, pn: Parameter, g: seq<seq<seq<int>>>, i1: nat, b: nat): seq<string>
  {
    seq(b, (i2: int) requires 0 <= i2 < b => SlotOption(pc1, in1, pc2, in2, pn, g, i1, i2))
  }

  /** The option rows of the first a rows of the grid, each as long as n2. */
  function GridOptions(pc1: Parameter, in1: bool, pc2: Parameter, in2: bool, pn: Parameter, g: seq<seq<seq<int>>>, a: nat, n2: nat): seq<seq<string>>
  {
    seq(a, (i1: int) requires 0 <= i1 < a => GridRowOptions(pc1, in1, pc2, in2, pn, g, i1, n2))
  }

  /** The currentNext3d constraint of current parameters pc1, pc2 and next output pn: the options of all slots, row by row. */
  function Next3dConstraint(pc1: Parameter, in1: bool, pc2: Parameter, in2: bool, pn: Parameter, t1: Traces, t2: Traces, tn: Traces): string
    requires SameShape(t1, tn) && SameShape(t2, tn)
  {
    var g := Grid(t1, t2, tn, pc1.valueCount, pc2.valueCount);
    Join(Flatten(GridOptions(pc1, in1, pc2, in2, pn, g, pc1.valueCount, pc2.valueCount)), " | ")
  }

  /** Row i1 of the options up to slot i2 + 1 adds that slot's option. */
  lemma GridRowSnoc(pc1: Parameter, in1: bool, pc2: Parameter, in2: bool, pn: Parameter, g: seq<seq<seq<int>>>, i1: nat, i2: nat)
    ensures GridRowOptions(pc1, in1, pc2, in2, pn, g, i1, i2 + 1) ==
      GridRowOptions(pc1, in1, pc2, in2, pn, g, i1, i2) + [SlotOption(pc1, in1, pc2, in2, pn, g, i1, i2)]
  {
    var next := GridRowOptions(pc1, in1, pc2, in2, pn, g, i1, i2 + 1);
    assert next[..i2] == GridRowOptions(pc1, in1, pc2, in2, pn, g, i1, i2);
  }

  /** The inner option loop of currentNext3d over row i1 of indexTuples. */
  method Next3dRowOptions(pc1: Parameter, in1: bool, pc2: Parameter, in2: bool, pn: Parameter, sets: array2<seq<int>>,
                          ghost g: seq<seq<seq<int>>>, i1: nat) returns (options: seq<string>)
    requires ValidGrid(g) && |g| == sets.Length0 == |pc1.ranges| && sets.Length1 == |pc2.ranges| && i1 < |g|
    requires forall a :: 0 <= a < |g| ==> |g[a]| == sets.Length1
    requires forall a, b :: 0 <= a < sets.Length0 && 0 <= b < sets.Length1 ==> sets[a, b] == g[a][b]
    ensures options == GridRowOptions(pc1, in1, pc2, in2, pn, g, i1, sets.Length1)
  {
    options := [];
    var currentCondition1 := CurrentCondition(pc1, in1, i1);
    for i2 := 0 to sets.Length1
      invariant options == GridRowOptions(pc1, in1, pc2, in2, pn, g, i1, i2)
    {
      GridRowSnoc(pc1, in1, pc2, in2, pn, g, i1, i2);
      assert SlotFits(pc1, pc2, g, i1, i2);
      var currentCondition2 := CurrentCondition(pc2, in2, i2);
      var nextCondition := if sets[i1, i2] == [] then "" else " & " + IntervalConstraint(sets[i1, i2], pn, true);
      options := options + [currentCondition1 + " & " + currentCondition2 + nextCondition];
    }
  }

  /** The option loops of currentNext3d over the filled indexTuples array. */
  method JoinNext3dOptions(pc1: Parameter, in1: bool, pc2: Parameter, in2: bool, pn: Parameter, sets: array2<seq<int>>,
                           ghost g: seq<seq<seq<int>>>) returns (c: string)
    requires ValidGrid(g) && |g| == sets.Length0 == |pc1.ranges| && sets.Length1 == |pc2.ranges|
    requires forall a :: 0 <= a < |g| ==> |g[a]| == sets.Length1
    requires forall a, b :: 0 <= a < sets.Length0 && 0 <= b < sets.Length1 ==> sets[a, b] == g[a][b]
    ensures c == Join(Flatten(GridOptions(pc1, in1, pc2, in2, pn, g, sets.Length0, sets.Length1)), " | ")
  {
    var options: seq<string> := [];
    for i1 := 0 to sets.Length0
      invariant options == Flatten(GridOptions(pc1, in1, pc2, in2, pn, g, i1, sets.Length1))
    {
      var rows := GridOptions(pc1, in1, pc2, in2, pn, g, i1 + 1, sets.Length1);
      assert rows[..i1] == GridOptions(pc1, in1, pc2, in2, pn, g, i1, sets.Length1);
      var row := Next3dRowOptions(pc1, in1, pc2, in2, pn, sets, g, i1);
      options := options + row;
    }
    c := Join(options, " | ");
  }

  /** The traces of two current parameters and a next output fit the fill loop. */
  predicate TripleFits(p1: Parameter, p2: Parameter, pn: Parameter, indices: map<Parameter, Traces>)
  {
    PairFits(p1, pn, indices) && PairFits(p2, pn, indices)
  }

  /** One (pCurrent1, pCurrent2, pNext) iteration of currentNext3d: fill indexTuples, then add the TRANS constraint. */
  method AddNext3dConstraint(cs: ConstraintSets, pc1: Parameter, in1: bool, pc2: Parameter, in2: bool, pn: Parameter,
                             indices: map<Parameter, Traces>)
    requires TripleFits(pc1, pc2, pn, indices) && cs.Valid()
    modifies cs
    ensures cs.Valid() && cs.init == old(cs.init)
    ensures cs.trans == AddTo(old(cs.trans), Next3dConstraint(pc1, in1, pc2, in2, pn, indices[pc1], indices[pc2], indices[pn]))
  {
    var t1, t2, tn := indices[pc1], indices[pc2], indices[pn];
    var sets := FillSets2(t1, t2, tn, pc1.valueCount, pc2.valueCount);
    ghost var g := Grid(t1, t2, tn, pc1.valueCount, pc2.valueCount);
    GridValid(t1, t2, tn, pc1.valueCount, pc2.valueCount, pn.valueCount);
    var c := JoinNext3dOptions(pc1, in1, pc2, in2, pn, sets, g);
    cs.AddTrans(c);
  }

  /** The triples (all[c1], all[c2], pn) for the outputs pn among the first b of outs that neither current parameter skips. */
  function Next3dRow(all: seq<Parameter>, outs: seq<Parameter>, allow: bool, c1: nat, c2: nat, b: nat): (r: seq<(Parameter, Parameter, Parameter)>)
    requires c1 < |all| && c2 < |all| && b <= |outs|
  {
    if b == 0 then []
    else
      var skip := Skipped(allow, outs, all[c1], outs[b - 1]) || Skipped(allow, outs, all[c2], outs[b - 1]);
      Next3dRow(all, outs, allow, c1, c2, b - 1) + (if skip then [] else [(all[c1], all[c2], outs[b - 1])])
  }

  /** The triples of the middle loop for the current parameter all[c1] and the first b second parameters. */
  function Next3dBlock(all: seq<Parameter>, outs: seq<Parameter>, allow: bool, c1: nat, b: nat): (r: seq<(Parameter, Parameter, Parameter)>)
    requires c1 < |all| && b <= |all|
  {
    if b == 0 then [] else Next3dBlock(all, outs, allow, c1, b - 1) + Next3dPart(all, outs, allow, c1, b - 1)
  }

  /** The triples of second parameter all[c2] in block c1: none when it is all[c1] itself. */
  function Next3dPart(all: seq<Parameter>, outs: seq<Parameter>, allow: bool, c1: nat, c2: nat): (r: seq<(Parameter, Parameter, Parameter)>)
    requires c1 < |all| && c2 < |all|
  {
    if all[c1] == all[c2] then [] else Next3dRow(all, outs, allow, c1, c2, |outs|)
  }

  /** The (current1, current2, next) triples of currentNext3d's three loops, for the first a current parameters. */
  function Next3dTriples(all: seq<Parameter>, outs: seq<Parameter>, allow: bool, a: nat): (r: seq<(Parameter, Parameter, Parameter)>)
    requires a <= |all|
  {
    if a == 0 then [] else Next3dTriples(all, outs, allow, a - 1) + Next3dBlock(all, outs, allow, a - 1, |all|)
  }

  lemma {:induction false} Next3dRowMembers(all: seq<Parameter>, outs: seq<Parameter>, allow: bool, c1: nat, c2: nat, b: nat)
    requires c1 < |all| && c2 < |all| && b <= |outs|
    ensures forall p1, p2, pn :: (p1, p2, pn) in Next3dRow(all, outs, allow, c1, c2, b) <==>
      p1 == all[c1] && p2 == all[c2] && pn in outs[..b] && !Skipped(allow, outs, p1, pn) && !Skipped(allow, outs, p2, pn)
  {
    if b > 0 {
      Next3dRowMembers(all, outs, allow, c1, c2, b - 1);
      assert outs[..b] == outs[..b - 1] + [outs[b - 1]];
    }
  }

  lemma {:induction false} Next3dBlockMembers(all: seq<Parameter>, outs: seq<Parameter>, allow: bool, c1: nat, b: nat)
    requires c1 < |all| && b <= |all|
    ensures forall p1, p2, pn :: (p1, p2, pn) in Next3dBlock(all, outs, allow, c1, b) <==>
      p1 == all[c1] && p2 in all[..b] && p1 != p2 && pn in outs && !Skipped(allow, outs, p1, pn) && !Skipped(allow, outs, p2, pn)
  {
    if b > 0 {
      Next3dBlockMembers(all, outs, allow, c1, b - 1);
      Next3dRowMembers(all, outs, allow, c1, b - 1, |outs|);
      assert all[..b] == all[..b - 1] + [all[b - 1]];
      assert outs[..|outs|] == outs;
    }
  }

  /**
   * currentNext3d visits every triple of two distinct current parameters
   * and a next output that the cross-output rule skips for neither, and no other.
   */
  lemma {:induction false} Next3dTriplesMembers(all: seq<Parameter>, outs: seq<Parameter>, allow: bool, a: nat)
    requires a <= |all|
    ensures forall p1, p2, pn :: (p1, p2, pn) in Next3dTriples(all, outs, allow, a) <==>
      p1 in all[..a] && p2 in all && p1 != p2 && pn in outs && !Skipped(allow, outs, p1, pn) && !Skipped(allow, outs, p2, pn)
  {
    if a > 0 {
      Next3dTriplesMembers(all, outs, allow, a - 1);
      Next3dBlockMembers(all, outs, allow, a - 1, |all|);
      assert all[..a] == all[..a - 1] + [all[a - 1]];
      assert all[..|all|] == all;
    }
  }

  /**
   * The constraint of one (current1, current2, next) triple; ins are the
   * input parameters. A triple whose traces do not fit, which the loops
   * never visit, gets the empty text.
   */
  function TripleNext3dConstraint(ins: seq<Parameter>, indices: map<Parameter, Traces>, t: (Parameter, Parameter, Parameter)): string
  {
    if TripleFits(t.0, t.1, t.2, indices) then Next3dConstraint(t.0, t.0 in ins, t.1, t.1 in ins, t.2, indices[t.0], indices[t.1], indices[t.2])
    else ""
  }

  /** The constraints of the listed triples, in order. */
  function CurrentNext3dList(ins: seq<Parameter>, indices: map<Parameter, Traces>, triples: seq<(Parameter, Parameter, Parameter)>): seq<string>
  {
    seq(|triples|, (k: int) requires 0 <= k < |triples| => TripleNext3dConstraint(ins, indices, triples[k]))
  }

  /** The texts f gives the listed items, in order. */
  function Texts<T>(f: T -> string, items: seq<T>): seq<string>
  {
    seq(|items|, (k: int) requires 0 <= k < |items| => f(items[k]))
  }

  lemma TextsConcat<T>(f: T -> string, a: seq<T>, b: seq<T>)
    ensures Texts(f, a + b) == Texts(f, a) + Texts(f, b)
  {
  }

  /** Adding the texts of items and then that of x adds those of items + [x]. */
  lemma TextsSnoc<T>(cs0: seq<string>, f: T -> string, items: seq<T>, x: T)
    ensures AddAll(cs0, Texts(f, items + [x])) == AddTo(AddAll(cs0, Texts(f, items)), f(x))
  {
    TextsConcat(f, items, [x]);
    var l := Texts(f, items + [x]);
    assert l[..|items|] == Texts(f, items);
  }

  /**
   * f gives each triple its currentNext3d constraint. The loops below keep
   * f abstract and look through it only where a constraint is added.
   */
  ghost predicate Next3dTexts(f: ((Parameter, Parameter, Parameter)) -> string, ins: seq<Parameter>, indices: map<Parameter, Traces>)
  {
    forall t {:trigger TripleNext3dConstraint(ins, indices, t)} :: f(t) == TripleNext3dConstraint(ins, indices, t)
  }

  /** Output n either is skipped for all[c1] or all[c2], or adds the constraint of (all[c1], all[c2], outs[n]). */
  lemma CurrentNext3dRowStep(cs0: seq<string>, f: ((Parameter, Parameter, Parameter)) -> string, all: seq<Parameter>, outs: seq<Parameter>,
                             ins: seq<Parameter>, indices: map<Parameter, Traces>, allow: bool, c1: nat, c2: nat, n: nat)
    requires NextReady(all, outs, indices) && Next3dTexts(f, ins, indices) && c1 < |all| && c2 < |all| && n < |outs|
    ensures var pc1, pc2, pn := all[c1], all[c2], outs[n];
      var before := AddAll(cs0, Texts(f, Next3dRow(all, outs, allow, c1, c2, n)));
      var after := AddAll(cs0, Texts(f, Next3dRow(all, outs, allow, c1, c2, n + 1)));
      if Skipped(allow, outs, pc1, pn) || Skipped(allow, outs, pc2, pn) then after == before else
        TripleFits(pc1, pc2, pn, indices) &&
        after == AddTo(before, Next3dConstraint(pc1, pc1 in ins, pc2, pc2 in ins, pn, indices[pc1], indices[pc2], indices[pn]))
  {
    var pc1, pc2, pn := all[c1], all[c2], outs[n];
    var row := Next3dRow(all, outs, allow, c1, c2, n);
    if Skipped(allow, outs, pc1, pn) || Skipped(allow, outs, pc2, pn) {
      assert Next3dRow(all, outs, allow, c1, c2, n + 1) == row + [];
      assert row + [] == row;
    } else {
      assert Next3dRow(all, outs, allow, c1, c2, n + 1) == row + [(pc1, pc2, pn)];
      ReadyFits(all, outs, indices, pc1, pn);
      ReadyFits(all, outs, indices, pc2, pn);
      assert f((pc1, pc2, pn)) == TripleNext3dConstraint(ins, indices, (pc1, pc2, pn));
      TextsSnoc(cs0, f, row, (pc1, pc2, pn));
    }
  }

  /** The innermost loop of currentNext3d: every next output for the current parameters all[c1] and all[c2]. */
  method AddNext3dRow(cs: ConstraintSets, ghost f: ((Parameter, Parameter, Parameter)) -> string, all: seq<Parameter>, outs: seq<Parameter>,
                      ins: seq<Parameter>, indices: map<Parameter, Traces>, allow: bool, c1: nat, c2: nat)
    requires NextReady(all, outs, indices) && Next3dTexts(f, ins, indices) && c1 < |all| && c2 < |all| && cs.Valid()
    modifies cs
    ensures cs.Valid() && cs.init == old(cs.init)
    ensures cs.trans == AddAll(old(cs.trans), Texts(f, Next3dRow(all, outs, allow, c1, c2, |outs|)))
  {
    var pc1, pc2 := all[c1], all[c2];
    for n := 0 to |outs|
      invariant cs.Valid() && cs.init == old(cs.init)
      invariant cs.trans == AddAll(old(cs.trans), Texts(f, Next3dRow(all, outs, allow, c1, c2, n)))
    {
      var pn := outs[n];
      CurrentNext3dRowStep(old(cs.trans), f, all, outs, ins, indices, allow, c1, c2, n);
      if !allow && pc1 in outs && pc1 != pn {
        continue;
      }
      if !allow && pc2 in outs && pc2 != pn {
        continue;
      }
      AddNext3dConstraint(cs, pc1, pc1 in ins, pc2, pc2 in ins, pn, indices);
    }
  }

  /**
   * The body of currentNext3d's middle loop: skip pCurrent2 when it is
   * pCurrent1, else run the innermost loop. cs0 is the collection before
   * the middle loop started.
   */
  method AddNext3dPart(cs: ConstraintSets, ghost cs0: seq<string>, ghost f: ((Parameter, Parameter, Parameter)) -> string, all: seq<Parameter>,
                       outs: seq<Parameter>, ins: seq<Parameter>, indices: map<Parameter, Traces>, allow: bool, c1: nat, c2: nat)
    requires NextReady(all, outs, indices) && Next3dTexts(f, ins, indices) && c1 < |all| && c2 < |all| && cs.Valid()
    requires cs.trans == AddAll(cs0, Texts(f, Next3dBlock(all, outs, allow, c1, c2)))
    modifies cs
    ensures cs.Valid() && cs.init == old(cs.init)
    ensures cs.trans == AddAll(cs0, Texts(f, Next3dBlock(all, outs, allow, c1, c2 + 1)))
  {
    ghost var before := cs.trans;
    if all[c1] == all[c2] {
      assert Texts(f, []) == [];
    } else {
      AddNext3dRow(cs, f, all, outs, ins, indices, allow, c1, c2);
    }
    Next3dBlockStep(cs0, before, cs.trans, f, all, outs, allow, c1, c2);
  }

  /** Adding the texts of a and then those of b adds the texts of a + b. */
  lemma TextsStep<T>(cs0: seq<string>, cs1: seq<string>, cs2: seq<string>, f: T -> string, a: seq<T>, b: seq<T>)
    requires cs1 == AddAll(cs0, Texts(f, a)) && cs2 == AddAll(cs1, Texts(f, b))
    ensures cs2 == AddAll(cs0, Texts(f, a + b))
  {
    TextsConcat(f, a, b);
    AddAllConcat(cs0, Texts(f, a), Texts(f, b));
  }

  /** Adding the texts of block c1 up to c2 and then those of part c2 adds the block up to c2 + 1. */
  lemma Next3dBlockStep(cs0: seq<string>, cs1: seq<string>, cs2: seq<string>, f: ((Parameter, Parameter, Parameter)) -> string,
                        all: seq<Parameter>, outs: seq<Parameter>, allow: bool, c1: nat, c2: nat)
    requires c1 < |all| && c2 < |all|
    requires cs1 == AddAll(cs0, Texts(f, Next3dBlock(all, outs, allow, c1, c2)))
    requires cs2 == AddAll(cs1, Texts(f, Next3dPart(all, outs, allow, c1, c2)))
    ensures cs2 == AddAll(cs0, Texts(f, Next3dBlock(all, outs, allow, c1, c2 + 1)))
  {
    TextsStep(cs0, cs1, cs2, f, Next3dBlock(all, outs, allow, c1, c2), Next3dPart(all, outs, allow, c1, c2));
  }

  /** The middle loop of currentNext3d: every second current parameter other than all[c1]. */
  method AddNext3dBlock(cs: ConstraintSets, ghost f: ((Parameter, Parameter, Parameter)) -> string, all: seq<Parameter>, outs: seq<Parameter>,
                        ins: seq<Parameter>, indices: map<Parameter, Traces>, allow: bool, c1: nat)
    requires NextReady(all, outs, indices) && Next3dTexts(f, ins, indices) && c1 < |all| && cs.Valid()
    modifies cs
    ensures cs.Valid() && cs.init == old(cs.init)
    ensures cs.trans == AddAll(old(cs.trans), Texts(f, Next3dBlock(all, outs, allow, c1, |all|)))
  {
    ghost var trans0 := cs.trans;
    for c2 := 0 to |all|
      invariant cs.Valid() && cs.init == old(cs.init)
      invariant cs.trans == AddAll(trans0, Texts(f, Next3dBlock(all, outs, allow, c1, c2)))
    {
      AddNext3dPart(cs, trans0, f, all, outs, ins, indices, allow, c1, c2);
    }
  }

  /** The outer loop of currentNext3d over the first current parameter. */
  method AddNext3dBlocks(cs: ConstraintSets, ghost f: ((Parameter, Parameter, Parameter)) -> string, all: seq<Parameter>, outs: seq<Parameter>,
                         ins: seq<Parameter>, indices: map<Parameter, Traces>, allow: bool)
    requires NextReady(all, outs, indices) && Next3dTexts(f, ins, indices) && cs.Valid()
    modifies cs
    ensures cs.Valid() && cs.init == old(cs.init)
    ensures cs.trans == AddAll(old(cs.trans), Texts(f, Next3dTriples(all, outs, allow, |all|)))
  {
    for c1 := 0 to |all|
      invariant cs.Valid() && cs.init == old(cs.init)
      invariant cs.trans == AddAll(old(cs.trans), Texts(f, Next3dTriples(all, outs, allow, c1)))
    {
      ghost var before := cs.trans;
      AddNext3dBlock(cs, f, all, outs, ins, indices, allow, c1);
      TextsStep(old(cs.trans), before, cs.trans, f, Next3dTriples(all, outs, allow, c1), Next3dBlock(all, outs, allow, c1, |all|));
    }
  }

  /** currentNext3d: one TRANS constraint per triple of two distinct current parameters and a next output that is not skipped. */
  method CurrentNext3d(conf: Configuration, cs: ConstraintSets, indices: map<Parameter, Traces>, allow: bool)
    requires Aligned(conf.inputs + conf.outputs, indices) && cs.Valid()
    modifies cs
    ensures cs.Valid() && cs.init == old(cs.init)
    ensures var all, outs := AllParameters(conf), OutputParameters(conf);
      cs.trans == AddAll(old(cs.trans), CurrentNext3dList(conf.inputs, indices, Next3dTriples(all, outs, allow, |all|)))
  {
    NextReadyAll(conf, indices);
    var all, outs := AllParameters(conf), OutputParameters(conf);
    ghost var f := (t: (Parameter, Parameter, Parameter)) => TripleNext3dConstraint(conf.inputs, indices, t);
    AddNext3dBlocks(cs, f, all, outs, conf.inputs, indices, allow);
    ghost var triples := Next3dTriples(all, outs, allow, |all|);
    assert Texts(f, triples) == CurrentNext3dList(conf.inputs, indices, triples);
  }

  /** Some value of the next parameter was found together with the pair (i1, i2). */
  ghost predicate Found3(t1: Traces, t2: Traces, tn: Traces, i1: int, i2: int)
  {
    exists x :: CoOccurs3(t1, t2, tn, i1, i2, x)
  }

  /**
   * The currentNext3d constraint of (pc1, pc2, pn) joins one row of options
   * per value i1 of pc1, each with one option per value i2 of pc2. The
   * option of a pair never found together carries no condition on pn;
   * otherwise it confines pn to exactly the values found at the same
   * (trace, step) as the pair.
   */
  lemma Next3dConstraintMeaning(pc1: Parameter, in1: bool, pc2: Parameter, in2: bool, pn: Parameter, t1: Traces, t2: Traces, tn: Traces)
    requires SameShape(t1, tn) && SameShape(t2, tn) && InRange(tn, pn.valueCount)
    requires |pc1.ranges| == pc1.valueCount && |pc2.ranges| == pc2.valueCount
    ensures ValidGrid(Grid(t1, t2, tn, pc1.valueCount, pc2.valueCount))
    ensures var g := Grid(t1, t2, tn, pc1.valueCount, pc2.valueCount);
      var rows := GridOptions(pc1, in1, pc2, in2, pn, g, pc1.valueCount, pc2.valueCount);
      |rows| == pc1.valueCount &&
      forall i1: nat :: i1 < pc1.valueCount ==> (|rows[i1]| == pc2.valueCount &&
        forall i2: nat :: i2 < pc2.valueCount ==>
          rows[i1][i2] == CurrentCondition(pc1, in1, i1) + " & " + CurrentCondition(pc2, in2, i2) +
            (if Found3(t1, t2, tn, i1, i2) then " & " + IntervalConstraint(g[i1][i2], pn, true) else ""))
    ensures var g := Grid(t1, t2, tn, pc1.valueCount, pc2.valueCount);
      forall i1: nat, i2: nat, x :: i1 < pc1.valueCount && i2 < pc2.valueCount ==>
        (x in g[i1][i2] <==> CoOccurs3(t1, t2, tn, i1, i2, x))
  {
    var n1, n2 := pc1.valueCount, pc2.valueCount;
    var g := Grid(t1, t2, tn, n1, n2);
    GridValid(t1, t2, tn, n1, n2, pn.valueCount);
    forall i1: nat, i2: nat, x | i1 < n1 && i2 < n2
      ensures x in g[i1][i2] <==> CoOccurs3(t1, t2, tn, i1, i2, x)
    {
      GridSlot(t1, t2, tn, n1, n2, i1, i2, x);
    }
    forall i1: nat, i2: nat | i1 < n1 && i2 < n2
      ensures g[i1][i2] == [] <==> !Found3(t1, t2, tn, i1, i2)
    {
      if g[i1][i2] != [] {
        assert g[i1][i2][0] in g[i1][i2];
        GridSlot(t1, t2, tn, n1, n2, i1, i2, g[i1][i2][0]);
      }
      if Found3(t1, t2, tn, i1, i2) {
        var x :| CoOccurs3(t1, t2, tn, i1, i2, x);
        GridSlot(t1, t2, tn, n1, n2, i1, i2, x);
      }
    }
    forall i1: nat, i2: nat | i1 < n1 && i2 < n2
      ensures SlotFits(pc1, pc2, g, i1, i2)
    {
    }
  }
}
