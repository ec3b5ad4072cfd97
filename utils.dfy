/**
 * Utils.splitString: splits a line of a trace file into its space-separated
 * tokens. A line that is blank once trimmed gives no tokens; otherwise the
 * line is split on runs of spaces (String.split(" +")), and an empty first
 * or last piece is dropped.
 */
module TraceUtils {

  /** Every character is one String.trim removes (code at most ' '). */
  predicate Blank(s: string)
  {
    forall k :: 0 <= k < |s| ==> s[k] <= ' '
  }

  /** The index of the first ' ' in s. */
  function FirstSpace(s: string): (i: nat)
    requires ' ' in s
    ensures i < |s| && s[i] == ' ' && ' ' !in s[..i]
  {
    if s[0] == ' ' then 0 else 1 + FirstSpace(s[1..])
  }

  /** The end of the run of spaces that starts at i. */
  function RunEnd(s: string, i: nat): (j: nat)
    requires i <= |s|
    ensures i <= j <= |s| && (j < |s| ==> s[j] != ' ') && forall k :: i <= k < j ==> s[k] == ' '
    decreases |s| - i
  {
    if i < |s| && s[i] == ' ' then RunEnd(s, i + 1) else i
  }

  /** The pieces of s between maximal runs of spaces, empty ones at the ends included. */
  function Fields(s: string): (r: seq<string>)
    ensures |r| >= 1
    ensures forall k :: 0 <= k < |r| ==> ' ' !in r[k]
    decreases |s|
  {
    if ' ' !in s then [s]
    else
      var i := FirstSpace(s);
      var j := RunEnd(s, i);
      [s[..i]] + Fields(s[j..])
  }

  /** r without its trailing empty strings. */
  function DropTrailingEmpty(r: seq<string>): (d: seq<string>)
    ensures d <= r && (d != [] ==> d[|d| - 1] != "")
    ensures forall k :: |d| <= k < |r| ==> r[k] == ""
  {
    if r == [] || r[|r| - 1] != "" then r else DropTrailingEmpty(r[..|r| - 1])
  }

  /**
   * String.split(" +"): with no match the string itself; otherwise the
   * pieces with trailing empty strings removed.
   */
  function JavaSplit(s: string): seq<string>
  {
    if ' ' !in s then [s] else DropTrailingEmpty(Fields(s))
  }

  /** splitString. */
  function SplitString(s: string): (r: seq<string>)
    ensures forall k :: 0 <= k < |r| ==> r[k] != "" && ' ' !in r[k]
    ensures Blank(s) <==> r == []
  {
    if Blank(s) then []
    else
      var temp := JavaSplit(s);
      SplitNonEmpty(s);
      var start := if temp[0] == "" then 1 else 0;
      var len := |temp|;
      var end := if temp[len - 1] == "" then len - 1 else len;
      temp[start..end]
  }

  /** For a non-blank line the split has a non-empty last piece and only its first piece may be empty. */
  lemma SplitNonEmpty(s: string)
    requires !Blank(s)
    ensures JavaSplit(s) != [] && JavaSplit(s)[|JavaSplit(s)| - 1] != ""
    ensures forall k :: 0 <= k < |JavaSplit(s)| ==> ' ' !in JavaSplit(s)[k]
    ensures forall k :: 1 <= k < |JavaSplit(s)| ==> JavaSplit(s)[k] != ""
  {
    if ' ' in s {
      FieldsShape(s);
      WordsInFields(s);
      DroppedShape(Fields(s));
    } else {
      var k :| 0 <= k < |s| && s[k] > ' ';
    }
  }

  lemma DroppedShape(f: seq<string>)
    requires forall k :: 1 <= k < |f| - 1 ==> f[k] != ""
    requires forall k :: 0 <= k < |f| ==> ' ' !in f[k]
    requires DropTrailingEmpty(f) != []
    ensures forall k :: 0 <= k < |DropTrailingEmpty(f)| ==> ' ' !in DropTrailingEmpty(f)[k]
    ensures forall k :: 1 <= k < |DropTrailingEmpty(f)| ==> DropTrailingEmpty(f)[k] != ""
  {
    var d := DropTrailingEmpty(f);
    forall k | 1 <= k < |d|
      ensures d[k] != ""
    {
      assert d[k] == f[k];
      if k < |d| - 1 {
        assert k < |f| - 1;
      }
    }
    forall k | 0 <= k < |d|
      ensures ' ' !in d[k]
    {
      assert d[k] == f[k];
    }
  }

  /** Only the first and last pieces between runs of spaces can be empty. */
  lemma {:induction false} FieldsShape(s: string)
    ensures forall k :: 1 <= k < |Fields(s)| - 1 ==> Fields(s)[k] != ""
    decreases |s|
  {
    if ' ' in s {
      var i := FirstSpace(s);
      var j := RunEnd(s, i);
      FieldsShape(s[j..]);
      var rest := Fields(s[j..]);
      var f := Fields(s);
      assert f == [s[..i]] + rest;
      assert ' ' in s[j..] ==> rest[0] != "" by {
        if ' ' in s[j..] {
          assert s[j..][0] != ' ';
          assert FirstSpace(s[j..]) > 0;
        }
      }
      forall k | 1 <= k < |f| - 1
        ensures f[k] != ""
      {
        assert f[k] == rest[k - 1];
        if k == 1 {
          assert ' ' in s[j..];
        } else {
          assert 1 <= k - 1 < |rest| - 1;
        }
      }
    }
  }

  /** A non-blank string has a non-empty piece (other than trailing empties). */
  lemma {:induction false} WordsInFields(s: string)
    requires !Blank(s)
    ensures DropTrailingEmpty(Fields(s)) != []
    decreases |s|
  {
    var k :| 0 <= k < |s| && s[k] > ' ';
    if ' ' in s {
      var i := FirstSpace(s);
      var j := RunEnd(s, i);
      if i > 0 {
        DropHeadNonEmpty([s[..i]], Fields(s[j..]));
      } else {
        assert k >= j;
        assert s[j..][k - j] > ' ';
        WordsInFields(s[j..]);
        DropKeepsTail([s[..i]], Fields(s[j..]));
      }
    }
  }

  lemma DropHeadNonEmpty(a: seq<string>, b: seq<string>)
    requires a != [] && a[0] != ""
    ensures DropTrailingEmpty(a + b) != []
  {
    assert (a + b)[0] == a[0];
  }

  lemma DropKeepsTail(a: seq<string>, b: seq<string>)
    requires DropTrailingEmpty(b) != []
    ensures DropTrailingEmpty(a + b) != []
  {
    var d := DropTrailingEmpty(b);
    var k := |d| - 1;
    assert b[k] != "";
    assert (a + b)[|a| + k] == b[k];
  }

  // ---------------------------------------------------------------------
  // An independent reference: the maximal runs of non-space characters

  /** The longest prefix of s without a space. */
  function Run(s: string): (w: string)
    ensures w <= s && ' ' !in w && (|w| < |s| ==> s[|w|] == ' ')
  {
    if s == [] || s[0] == ' ' then [] else [s[0]] + Run(s[1..])
  }

  /** The words of s: its maximal runs of characters other than ' ', in order. */
  function Words(s: string): seq<string>
    decreases |s|
  {
    if s == [] then []
    else if s[0] == ' ' then Words(s[1..])
    else [Run(s)] + Words(s[|Run(s)|..])
  }

  /** Keeps the non-empty strings of r. */
  function NonEmpty(r: seq<string>): seq<string>
  {
    if r == [] then [] else (if r[0] == "" then [] else [r[0]]) + NonEmpty(r[1..])
  }

  lemma {:induction false} WordsSkipSpaces(s: string, i: nat, j: nat)
    requires i <= j <= |s| && forall k :: i <= k < j ==> s[k] == ' '
    ensures Words(s[i..]) == Words(s[j..])
    decreases j - i
  {
    if i < j {
      assert s[i..][0] == ' ' && s[i..][1..] == s[i + 1..];
      WordsSkipSpaces(s, i + 1, j);
    }
  }

  lemma {:induction false} WordsNoSpace(s: string)
    requires ' ' !in s
    ensures Words(s) == (if s == [] then [] else [s])
  {
    if s != [] {
      RunAll(s);
      assert s[|s|..] == [];
    }
  }

  lemma {:induction false} RunAll(s: string)
    requires ' ' !in s
    ensures Run(s) == s
    decreases |s|
  {
    if s != [] {
      assert ' ' !in s[1..];
      RunAll(s[1..]);
    }
  }

  lemma {:induction false} RunUpTo(s: string, i: nat)
    requires i < |s| && s[i] == ' ' && ' ' !in s[..i]
    ensures Run(s) == s[..i]
    decreases i
  {
    if i > 0 {
      assert s[1..][..i - 1] == s[1..i];
      assert ' ' !in s[1..][..i - 1];
      RunUpTo(s[1..], i - 1);
    }
  }

  /** The non-empty pieces between runs of spaces are exactly the words. */
  lemma {:induction false} FieldsWords(s: string)
    ensures NonEmpty(Fields(s)) == Words(s)
    decreases |s|
  {
    if ' ' !in s {
      WordsNoSpace(s);
    } else {
      var i := FirstSpace(s);
      var j := RunEnd(s, i);
      FieldsWords(s[j..]);
      assert [s[..i]] + Fields(s[j..]) == Fields(s);
      assert NonEmpty(Fields(s)) == (if s[..i] == "" then [] else [s[..i]]) + NonEmpty(Fields(s[j..]));
      WordsSkipSpaces(s, i, j);
      if i == 0 {
        assert s[0..] == s;
      } else {
        RunUpTo(s, i);
        assert s[..i] == Run(s) && s[0] != ' ';
      }
    }
  }

  lemma NonEmptyAppend(a: seq<string>, b: seq<string>)
    ensures NonEmpty(a + b) == NonEmpty(a) + NonEmpty(b)
  {
    if a != [] {
      assert (a + b)[1..] == a[1..] + b;
      assert (a + b)[0] == a[0];
      NonEmptyAppend(a[1..], b);
    } else {
      assert a + b == b;
    }
  }

  lemma {:induction false} NonEmptyDrop(r: seq<string>)
    ensures NonEmpty(DropTrailingEmpty(r)) == NonEmpty(r)
    decreases |r|
  {
    if r != [] && r[|r| - 1] == "" {
      NonEmptyDrop(r[..|r| - 1]);
      assert r == r[..|r| - 1] + [""];
      NonEmptyAppend(r[..|r| - 1], [""]);
    }
  }

  lemma NonEmptyAll(r: seq<string>)
    requires forall k :: 0 <= k < |r| ==> r[k] != ""
    ensures NonEmpty(r) == r
  {
    if r != [] {
      NonEmptyAll(r[1..]);
    }
  }

  /**
   * On a line whose only whitespace is ' ', splitString yields exactly the
   * words of the line; joining them with single spaces gives the line with
   * runs of spaces collapsed and the spaces at both ends removed.
   */
  lemma SplitStringIsWords(s: string)
    requires forall k :: 0 <= k < |s| ==> s[k] == ' ' || s[k] > ' '
    ensures SplitString(s) == Words(s)
  {
    if Blank(s) {
      WordsOfSpaces(s);
    } else {
      SplitWords(s);
      TrimmedSplit(s);
    }
  }

  /** The non-empty pieces of the split are the words. */
  lemma SplitWords(s: string)
    ensures NonEmpty(JavaSplit(s)) == Words(s)
  {
    FieldsWords(s);
    if ' ' in s {
      NonEmptyDrop(Fields(s));
    } else {
      assert Fields(s) == [s];
    }
  }

  /** splitString keeps the non-empty pieces of the split. */
  lemma TrimmedSplit(s: string)
    requires !Blank(s)
    ensures SplitString(s) == NonEmpty(JavaSplit(s))
  {
    var temp := JavaSplit(s);
    SplitNonEmpty(s);
    var r := SplitString(s);
    NonEmptyAll(r);
    if temp[0] == "" {
      assert temp == [temp[0]] + r;
      NonEmptyAppend([temp[0]], r);
    } else {
      assert temp == r;
    }
  }

  lemma {:induction false} WordsOfSpaces(s: string)
    requires forall k :: 0 <= k < |s| ==> s[k] == ' '
    ensures Words(s) == []
    decreases |s|
  {
    if s != [] {
      WordsOfSpaces(s[1..]);
    }
  }
}
