/**
 * Text helpers the model shares: Java's decimal rendering of integers
 * (Integer.toString), String.join, and an integer TreeSet as an
 * ascending sequence.
 */
module Strings {
  import opened Common

  function DigitChar(d: nat): (c: char)
    requires d < 10
    ensures '0' <= c <= '9' && c as int - '0' as int == d
  {
    "0123456789"[d]
  }

  /** The decimal digits of n, most significant first, with no leading zero. */
  function NatToString(n: nat): (s: string)
    ensures |s| >= 1 && (s[0] == '0' ==> s == "0")
    ensures forall k :: 0 <= k < |s| ==> '0' <= s[k] <= '9'
    decreases n
  {
    if n < 10 then [DigitChar(n)] else NatToString(n / 10) + [DigitChar(n % 10)]
  }

  /** Integer.toString: a minus sign before the digits of a negative number. */
  function IntToString(i: int): (s: string)
    ensures |s| >= 1 && (s[0] == '-' <==> i < 0)
  {
    if i < 0 then "-" + NatToString(-i) else NatToString(i)
  }

  /** The value of a string of decimal digits. */
  function DigitsValue(s: string): nat
    requires forall k :: 0 <= k < |s| ==> '0' <= s[k] <= '9'
  {
    if s == [] then 0 else 10 * DigitsValue(s[..|s| - 1]) + (s[|s| - 1] as int - '0' as int)
  }

  /** Reading back a rendered natural gives the number. */
  lemma {:induction false} NatToStringRoundTrip(n: nat)
    ensures DigitsValue(NatToString(n)) == n
    decreases n
  {
    if n >= 10 {
      NatToStringRoundTrip(n / 10);
      var s := NatToString(n);
      assert s[..|s| - 1] == NatToString(n / 10);
    }
  }

  /** Different integers render differently. */
  lemma IntToStringInjective(i: int, j: int)
    requires IntToString(i) == IntToString(j)
    ensures i == j
  {
    assert (i < 0) == (j < 0) by {
      assert IntToString(i)[0] == IntToString(j)[0];
    }
    var a: nat, b: nat := if i < 0 then -i else i, if j < 0 then -j else j;
    assert NatToString(a) == NatToString(b) by {
      if i < 0 {
        NegativeDigits(i);
        NegativeDigits(j);
      }
    }
    NatToStringRoundTrip(a);
    NatToStringRoundTrip(b);
  }

  /** A rendered integer holds only digits and the minus sign. */
  lemma IntToStringChars(i: int)
    ensures forall k :: 0 <= k < |IntToString(i)| ==> IntToString(i)[k] == '-' || '0' <= IntToString(i)[k] <= '9'
  {
    if i < 0 {
      NegativeDigits(i);
      forall k | 1 <= k < |IntToString(i)|
        ensures '0' <= IntToString(i)[k] <= '9'
      {
        assert IntToString(i)[k] == NatToString(-i)[k - 1];
      }
    }
  }

  lemma NegativeDigits(i: int)
    requires i < 0
    ensures IntToString(i)[1..] == NatToString(-i)
  {
  }

  /** String.join(sep, parts). */
  function Join(parts: seq<string>, sep: string): string
  {
    if parts == [] then ""
    else if |parts| == 1 then parts[0]
    else Join(parts[..|parts| - 1], sep) + sep + parts[|parts| - 1]
  }

  /** Joining one more part appends the separator and the part. */
  lemma JoinAppend(parts: seq<string>, p: string, sep: string)
    requires parts != []
    ensures Join(parts + [p], sep) == Join(parts, sep) + sep + p
  {
    assert (parts + [p])[..|parts|] == parts;
  }

  /** The rendering of each integer of s. */
  function IntStrings(s: seq<int>): (r: seq<string>)
    ensures |r| == |s| && forall k :: 0 <= k < |s| ==> r[k] == IntToString(s[k])
  {
    if s == [] then [] else IntStrings(s[..|s| - 1]) + [IntToString(s[|s| - 1])]
  }

  /**
   * TreeSet.add on an ascending duplicate-free sequence: x is put in its
   * place unless already present.
   */
  function Insert(r: seq<int>, x: int): (r': seq<int>)
    requires StrictlyIncreasing(r)
    ensures StrictlyIncreasing(r')
    ensures forall y :: y in r' <==> y in r || y == x
  {
    if r == [] then [x]
    else if x < r[0] then [x] + r
    else if x == r[0] then r
    else
      var rest := Insert(r[1..], x);
      assert forall k :: 0 <= k < |rest| ==> r[0] < rest[k] by {
        forall k | 0 <= k < |rest|
          ensures r[0] < rest[k]
        {
          assert rest[k] in r[1..] || rest[k] == x;
        }
      }
      [r[0]] + rest
  }
}
