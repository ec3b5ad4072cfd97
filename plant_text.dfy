/**
 * The PLANT module text of src/apros/ConstraintExtractorNew.java
 * (plantCaption, plantConversions and printRes): a NuSMV module whose INIT
 * and TRANS sections conjoin the extracted constraints, an empty set of
 * constraints standing for TRUE.
 */
module PlantText {
  import opened Common
  import opened Strings
  import opened ConstraintExtractor

  // ---------------------------------------------------------------------------
  // Occurrences

  lemma OccursAppend(s: string, b: string, w: string, i: nat)
    requires OccursAt(s, w, i)
    ensures OccursAt(s + b, w, i)
  {
    assert (s + b)[i..i + |w|] == s[i..i + |w|];
  }

  lemma OccursPrepend(a: string, s: string, w: string, i: nat)
    requires OccursAt(s, w, i)
    ensures OccursAt(a + s, w, |a| + i)
  {
    assert (a + s)[|a| + i..|a| + i + |w|] == s[i..i + |w|];
  }

  lemma OccursLast(s: string, w: string)
    ensures OccursAt(s + w, w, |s|)
  {
    assert (s + w)[|s|..|s| + |w|] == w;
  }

  /** Every part occurs in the joined text. */
  lemma {:induction false} JoinOccurs(parts: seq<string>, sep: string, k: nat)
    requires k < |parts|
    ensures exists i: nat :: OccursAt(Join(parts, sep), parts[k], i)
    decreases |parts|
  {
    var n := |parts|;
    if n == 1 {
      assert parts[0][0..|parts[0]|] == parts[0];
      assert OccursAt(Join(parts, sep), parts[k], 0);
    } else if k == n - 1 {
      OccursLast(Join(parts[..n - 1], sep) + sep, parts[k]);
      assert OccursAt(Join(parts, sep), parts[k], |Join(parts[..n - 1], sep) + sep|);
    } else {
      JoinOccurs(parts[..n - 1], sep, k);
      var i: nat :| OccursAt(Join(parts[..n - 1], sep), parts[..n - 1][k], i);
      OccursAppend(Join(parts[..n - 1], sep), sep, parts[k], i);
      OccursAppend(Join(parts[..n - 1], sep) + sep, parts[n - 1], parts[k], i);
      assert OccursAt(Join(parts, sep), parts[k], i);
    }
  }

  /** An occurrence in the middle piece of a text is an occurrence in the text. */
  lemma OccursMiddle(a: string, b: string, c: string, w: string, i: nat)
    requires OccursAt(b, w, i)
    ensures OccursAt(a + b + c, w, |a| + i)
  {
    OccursPrepend(a, b, w, i);
    OccursAppend(a + b, c, w, |a| + i);
  }

  lemma Assoc(a: string, b: string, c: string)
    ensures a + b + c == a + (b + c)
  {
  }

  // ---------------------------------------------------------------------------
  // plantCaption

  /** The module parameters: one continuous input per input parameter. */
  function InputNames(ins: seq<Parameter>): seq<string>
  {
    seq(|ins|, k requires 0 <= k < |ins| => "CONT_INPUT_" + ins[k].traceName)
  }

  /** The VAR declaration of an output: its value indices 0..valueCount-1. */
  function VarLine(p: Parameter): string
  {
    "    output_" + p.traceName + ": 0.." + IntToString(p.valueCount - 1) + ";\n"
  }

  /** The VAR declarations of the outputs, in order. */
  function VarLines(outs: seq<Parameter>): string
  {
    if outs == [] then "" else VarLines(outs[..|outs| - 1]) + VarLine(outs[|outs| - 1])
  }

  function CaptionHead(conf: Configuration): string
  {
    "MODULE PLANT(" + Join(InputNames(conf.inputs), ", ") + ")\n" + "VAR\n"
  }

  /** The text plantCaption builds. */
  function CaptionText(conf: Configuration): string
  {
    CaptionHead(conf) + VarLines(conf.outputs)
  }

  /** plantCaption: the module header, then one VAR line per output. */
  method PlantCaption(conf: Configuration) returns (s: string)
    ensures s == CaptionText(conf)
  {
    s := "MODULE PLANT(" + Join(InputNames(conf.inputs), ", ") + ")\n";
    s := s + "VAR\n";
    for k := 0 to |conf.outputs|
      invariant s == CaptionHead(conf) + VarLines(conf.outputs[..k])
    {
      assert conf.outputs[..k + 1][..k] == conf.outputs[..k];
      Assoc(CaptionHead(conf), VarLines(conf.outputs[..k]), VarLine(conf.outputs[k]));
      s := s + VarLine(conf.outputs[k]);
    }
    assert conf.outputs[..|conf.outputs|] == conf.outputs;
  }

  lemma {:induction false} VarLinesOccur(outs: seq<Parameter>, k: nat)
    requires k < |outs|
    ensures exists i: nat :: OccursAt(VarLines(outs), VarLine(outs[k]), i)
    decreases |outs|
  {
    var n := |outs|;
    if k == n - 1 {
      OccursLast(VarLines(outs[..n - 1]), VarLine(outs[k]));
      assert OccursAt(VarLines(outs), VarLine(outs[k]), |VarLines(outs[..n - 1])|);
    } else {
      VarLinesOccur(outs[..n - 1], k);
      var i: nat :| OccursAt(VarLines(outs[..n - 1]), VarLine(outs[..n - 1][k]), i);
      OccursAppend(VarLines(outs[..n - 1]), VarLine(outs[n - 1]), VarLine(outs[k]), i);
      assert OccursAt(VarLines(outs), VarLine(outs[k]), i);
    }
  }

  /** Every output is declared in the caption with its full index range. */
  lemma OutputDeclared(conf: Configuration, k: nat)
    requires k < |conf.outputs|
    ensures exists i: nat :: OccursAt(CaptionText(conf), VarLine(conf.outputs[k]), i)
  {
    VarLinesOccur(conf.outputs, k);
    var i: nat :| OccursAt(VarLines(conf.outputs), VarLine(conf.outputs[k]), i);
    OccursPrepend(CaptionHead(conf), VarLines(conf.outputs), VarLine(conf.outputs[k]), i);
    assert OccursAt(CaptionText(conf), VarLine(conf.outputs[k]), |CaptionHead(conf)| + i);
  }

  // ---------------------------------------------------------------------------
  // plantConversions

  /** Every output has the NuSMV text of each of its intervals. */
  predicate Convertible(outs: seq<Parameter>)
  {
    forall k :: 0 <= k < |outs| ==> |outs[k].ranges| == outs[k].valueCount
  }

  /** The case of value index i: the output is i exactly when the continuous value lies in interval i. */
  function CaseLine(p: Parameter, i: nat): string
    requires i < |p.ranges|
  {
    "        output_" + p.traceName + " = " + IntToString(i) + ": " + p.ranges[i] + ";\n"
  }

  /** The cases of the first n value indices. */
  function CaseLines(p: Parameter, n: nat): string
    requires n <= |p.ranges|
  {
    if n == 0 then "" else CaseLines(p, n - 1) + CaseLine(p, n - 1)
  }

  function BlockHead(p: Parameter): string
  {
    "    CONT_" + p.traceName + " := case\n"
  }

  /** The conversion of one output: a case per value index. */
  function ConversionBlock(p: Parameter): string
    requires |p.ranges| == p.valueCount
  {
    BlockHead(p) + CaseLines(p, p.valueCount) + "    esac;\n"
  }

  function ConversionBlocks(outs: seq<Parameter>): string
    requires Convertible(outs)
  {
    if outs == [] then "" else ConversionBlocks(outs[..|outs| - 1]) + ConversionBlock(outs[|outs| - 1])
  }

  /** The text plantConversions builds. */
  function ConversionsText(conf: Configuration): string
    requires Convertible(conf.outputs)
  {
    "DEFINE\n" + ConversionBlocks(conf.outputs)
  }

  /** plantConversions: the continuous value CONT_X of every output X, by cases over its value index. */
  method PlantConversions(conf: Configuration) returns (s: string)
    requires Convertible(conf.outputs)
    ensures s == ConversionsText(conf)
  {
    var outs := conf.outputs;
    var define := "DEFINE\n";
    s := define;
    for k := 0 to |outs|
      invariant s == define + ConversionBlocks(outs[..k])
    {
      var block := CaseBlock(outs[k]);
      assert outs[..k + 1][..k] == outs[..k];
      Assoc(define, ConversionBlocks(outs[..k]), block);
      s := s + block;
    }
    assert outs[..|outs|] == outs;
  }

  /** The inner loop of plantConversions: the cases of one output. */
  method CaseBlock(p: Parameter) returns (block: string)
    requires |p.ranges| == p.valueCount
    ensures block == ConversionBlock(p)
  {
    block := BlockHead(p);
    for i := 0 to p.valueCount
      invariant block == BlockHead(p) + CaseLines(p, i)
    {
      Assoc(BlockHead(p), CaseLines(p, i), CaseLine(p, i));
      block := block + CaseLine(p, i);
    }
    block := block + "    esac;\n";
  }

  lemma {:induction false} CaseLinesOccur(p: Parameter, n: nat, i: nat)
    requires i < n <= |p.ranges|
    ensures exists j: nat :: OccursAt(CaseLines(p, n), CaseLine(p, i), j)
    decreases n
  {
    if i == n - 1 {
      OccursLast(CaseLines(p, n - 1), CaseLine(p, i));
      assert OccursAt(CaseLines(p, n), CaseLine(p, i), |CaseLines(p, n - 1)|);
    } else {
      CaseLinesOccur(p, n - 1, i);
      var j: nat :| OccursAt(CaseLines(p, n - 1), CaseLine(p, i), j);
      OccursAppend(CaseLines(p, n - 1), CaseLine(p, n - 1), CaseLine(p, i), j);
      assert OccursAt(CaseLines(p, n), CaseLine(p, i), j);
    }
  }

  lemma BlockOccurs(p: Parameter, i: nat)
    requires |p.ranges| == p.valueCount && i < p.valueCount
    ensures exists j: nat :: OccursAt(ConversionBlock(p), CaseLine(p, i), j)
  {
    CaseLinesOccur(p, p.valueCount, i);
    var j: nat :| OccursAt(CaseLines(p, p.valueCount), CaseLine(p, i), j);
    OccursMiddle(BlockHead(p), CaseLines(p, p.valueCount), "    esac;\n", CaseLine(p, i), j);
    assert OccursAt(ConversionBlock(p), CaseLine(p, i), |BlockHead(p)| + j);
  }

  lemma {:induction false} BlocksOccur(outs: seq<Parameter>, k: nat, i: nat)
    requires Convertible(outs) && k < |outs| && i < outs[k].valueCount
    ensures exists j: nat :: OccursAt(ConversionBlocks(outs), CaseLine(outs[k], i), j)
    decreases |outs|
  {
    var n := |outs|;
    assert Convertible(outs[..n - 1]);
    if k == n - 1 {
      BlockOccurs(outs[k], i);
      var j: nat :| OccursAt(ConversionBlock(outs[k]), CaseLine(outs[k], i), j);
      OccursPrepend(ConversionBlocks(outs[..n - 1]), ConversionBlock(outs[k]), CaseLine(outs[k], i), j);
      assert OccursAt(ConversionBlocks(outs), CaseLine(outs[k], i), |ConversionBlocks(outs[..n - 1])| + j);
    } else {
      BlocksOccur(outs[..n - 1], k, i);
      var j: nat :| OccursAt(ConversionBlocks(outs[..n - 1]), CaseLine(outs[..n - 1][k], i), j);
      OccursAppend(ConversionBlocks(outs[..n - 1]), ConversionBlock(outs[n - 1]), CaseLine(outs[k], i), j);
      assert OccursAt(ConversionBlocks(outs), CaseLine(outs[k], i), j);
    }
  }

  /** Every value index of every output has its case in the conversions. */
  lemma ValueConverted(conf: Configuration, k: nat, i: nat)
    requires Convertible(conf.outputs) && k < |conf.outputs| && i < conf.outputs[k].valueCount
    ensures exists j: nat :: OccursAt(ConversionsText(conf), CaseLine(conf.outputs[k], i), j)
  {
    BlocksOccur(conf.outputs, k, i);
    var j: nat :| OccursAt(ConversionBlocks(conf.outputs), CaseLine(conf.outputs[k], i), j);
    OccursPrepend("DEFINE\n", ConversionBlocks(conf.outputs), CaseLine(conf.outputs[k], i), j);
    assert OccursAt(ConversionsText(conf), CaseLine(conf.outputs[k], i), |"DEFINE\n"| + j);
  }

  // ---------------------------------------------------------------------------
  // printRes

  /** The constraints printRes writes: an empty set becomes the single constraint TRUE. */
  function OrTrue(cs: seq<string>): seq<string>
  {
    if cs == [] then ["TRUE"] else cs
  }

  /** An INIT or TRANS section: the constraints joined by ")\n  & (" inside one pair of parentheses. */
  function Section(cs: seq<string>): string
  {
    "    (" + Join(cs, ")\n  & (") + ")\n"
  }

  /** Each constraint in its own parentheses. */
  function Parenthesised(cs: seq<string>): seq<string>
  {
    seq(|cs|, k requires 0 <= k < |cs| => "(" + cs[k] + ")")
  }

  lemma {:induction false} WrapJoin(cs: seq<string>)
    requires cs != []
    ensures "(" + Join(cs, ")\n  & (") + ")" == Join(Parenthesised(cs), "\n  & ")
    decreases |cs|
  {
    var n := |cs|;
    if n > 1 {
      var a := Join(cs[..n - 1], ")\n  & (");
      WrapJoin(cs[..n - 1]);
      assert Parenthesised(cs) == Parenthesised(cs[..n - 1]) + ["(" + cs[n - 1] + ")"];
      JoinAppend(Parenthesised(cs[..n - 1]), "(" + cs[n - 1] + ")", "\n  & ");
      assert "(" + (a + ")\n  & (" + cs[n - 1]) + ")" == ("(" + a + ")") + "\n  & " + ("(" + cs[n - 1] + ")");
    }
  }

  /** A section is the conjunction of its constraints, each in parentheses, one per line. */
  lemma SectionConjuncts(cs: seq<string>)
    requires cs != []
    ensures Section(cs) == "    " + Join(Parenthesised(cs), "\n  & ") + "\n"
  {
    WrapJoin(cs);
  }

  /** An empty constraint set is written as the constraint TRUE. */
  lemma EmptySectionIsTrue()
    ensures Section(OrTrue([])) == "    (TRUE)\n"
  {
  }

  /** Every constraint of a section occurs in it as a parenthesised conjunct. */
  lemma ConjunctOccurs(cs: seq<string>, k: nat)
    requires k < |cs|
    ensures exists i: nat :: OccursAt(Section(cs), "(" + cs[k] + ")", i)
  {
    SectionConjuncts(cs);
    JoinOccurs(Parenthesised(cs), "\n  & ", k);
    var i: nat :| OccursAt(Join(Parenthesised(cs), "\n  & "), Parenthesised(cs)[k], i);
    OccursPrepend("    ", Join(Parenthesised(cs), "\n  & "), "(" + cs[k] + ")", i);
    OccursAppend("    " + Join(Parenthesised(cs), "\n  & "), "\n", "(" + cs[k] + ")", 4 + i);
  }

  /** The ASSIGN condition: every output keeps its value. */
  function Unchanged(outs: seq<Parameter>): seq<string>
  {
    seq(|outs|, k requires 0 <= k < |outs| => "output_" + outs[k].traceName + " = next(output_" + outs[k].traceName + ")")
  }

  function PlantHead(conf: Configuration): string
  {
    CaptionText(conf) + "    loop_executed: boolean;\n" + "INIT\n"
  }

  /** What follows the constraints: loop_executed holds when no output changes, then the conversions. */
  function PlantFoot(conf: Configuration): string
    requires Convertible(conf.outputs)
  {
    "ASSIGN\n" + "    init(loop_executed) := FALSE;\n" +
    ("    next(loop_executed) := " + Join(Unchanged(conf.outputs), " & ") + ";\n") +
    "DEFINE\n" + "    unsupported := FALSE;\n" + ConversionsText(conf)
  }

  /** The PLANT module printRes writes for the given INIT and TRANS constraints. */
  function PlantModule(conf: Configuration, init: seq<string>, trans: seq<string>): string
    requires Convertible(conf.outputs)
  {
    PlantHead(conf) + Section(init) + "TRANS\n" + Section(trans) + PlantFoot(conf)
  }

  /**
   * printRes: counts the constraints, puts TRUE into an empty set (the sets
   * are changed, as in the source), and writes the module. The count is
   * taken before TRUE is added.
   */
  method PrintRes(conf: Configuration, cs: ConstraintSets) returns (text: string, constraintsCount: nat)
    requires cs.Valid() && Convertible(conf.outputs)
    modifies cs
    ensures cs.Valid() && cs.init == OrTrue(old(cs.init)) && cs.trans == OrTrue(old(cs.trans))
    ensures constraintsCount == |old(cs.init)| + |old(cs.trans)|
    ensures text == PlantModule(conf, cs.init, cs.trans)
  {
    var head := PlantCaption(conf);
    head := head + "    loop_executed: boolean;\n";
    head := head + "INIT\n";
    constraintsCount := |cs.init| + |cs.trans|;
    if cs.init == [] {
      cs.AddInit("TRUE");
    }
    text := head + Section(cs.init);
    text := text + "TRANS\n";
    if cs.trans == [] {
      cs.AddTrans("TRUE");
    }
    text := text + Section(cs.trans);
    var outParameters := Unchanged(conf.outputs);
    var foot := "ASSIGN\n";
    foot := foot + "    init(loop_executed) := FALSE;\n";
    foot := foot + ("    next(loop_executed) := " + Join(outParameters, " & ") + ";\n");
    foot := foot + "DEFINE\n";
    foot := foot + "    unsupported := FALSE;\n";
    var conversions := PlantConversions(conf);
    foot := foot + conversions;
    text := text + foot;
  }

  lemma Regroup(h: string, si: string, m: string, st: string, f: string)
    ensures h + si + m + st + f == h + si + (m + st + f)
  {
  }

  lemma PlantModuleAroundInit(conf: Configuration, init: seq<string>, trans: seq<string>)
    requires Convertible(conf.outputs)
    ensures PlantModule(conf, init, trans) == PlantHead(conf) + Section(init) + ("TRANS\n" + Section(trans) + PlantFoot(conf))
  {
    Regroup(PlantHead(conf), Section(init), "TRANS\n", Section(trans), PlantFoot(conf));
  }

  /** Every INIT constraint occurs in the module as a parenthesised conjunct. */
  lemma InitConstraintWritten(conf: Configuration, init: seq<string>, trans: seq<string>, k: nat)
    requires Convertible(conf.outputs) && k < |init|
    ensures exists i: nat :: OccursAt(PlantModule(conf, init, trans), "(" + init[k] + ")", i)
  {
    var w := "(" + init[k] + ")";
    ConjunctOccurs(init, k);
    var i: nat :| OccursAt(Section(init), w, i);
    var h := PlantHead(conf);
    var rest := "TRANS\n" + Section(trans) + PlantFoot(conf);
    OccursMiddle(h, Section(init), rest, w, i);
    PlantModuleAroundInit(conf, init, trans);
    assert PlantModule(conf, init, trans) == h + Section(init) + rest;
    assert OccursAt(PlantModule(conf, init, trans), w, |h| + i);
  }

  /** Every TRANS constraint occurs in the module as a parenthesised conjunct. */
  lemma TransConstraintWritten(conf: Configuration, init: seq<string>, trans: seq<string>, k: nat)
    requires Convertible(conf.outputs) && k < |trans|
    ensures exists i: nat :: OccursAt(PlantModule(conf, init, trans), "(" + trans[k] + ")", i)
  {
    var w := "(" + trans[k] + ")";
    ConjunctOccurs(trans, k);
    var i: nat :| OccursAt(Section(trans), w, i);
    var h := PlantHead(conf) + Section(init) + "TRANS\n";
    OccursMiddle(h, Section(trans), PlantFoot(conf), w, i);
    assert PlantModule(conf, init, trans) == h + Section(trans) + PlantFoot(conf);
    assert OccursAt(PlantModule(conf, init, trans), w, |h| + i);
  }
}
