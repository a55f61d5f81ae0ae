// Foam::name(label): the decimal text of a label, as used to build the
// processor patch names. Parsing the text back gives the label again, so a
// name built from labels determines them.
module LabelNames {
  function DigitChar(d: nat): (c: char)
    requires d < 10
    ensures IsDigit(c) && c as int - 48 == d
  {
    (48 + d) as char
  }

  predicate IsDigit(c: char)
  {
    48 <= c as int <= 57
  }

  function DigitValue(c: char): (d: nat)
    requires IsDigit(c)
    ensures d < 10
  {
    c as int - 48
  }

  /** Decimal digits of n, most significant first, without leading zeros. */
  function Digits(n: nat): (s: string)
    ensures |s| > 0
    ensures forall i :: 0 <= i < |s| ==> IsDigit(s[i])
  {
    if n < 10 then [DigitChar(n)] else Digits(n / 10) + [DigitChar(n % 10)]
  }

  /** name(label): a minus sign before the digits of a negative label. */
  function LabelName(x: int): (s: string)
    ensures |s| > 0 && (s[0] == '-' <==> x < 0) && (x >= 0 ==> IsDigit(s[0]))
    ensures forall i :: 0 < i < |s| ==> IsDigit(s[i])
  {
    if x < 0 then "-" + Digits(-x) else Digits(x)
  }

  /** Value of a run of decimal digits. */
  function DigitsValue(s: string): nat
    requires forall i :: 0 <= i < |s| ==> IsDigit(s[i])
  {
    if |s| == 0 then 0
    else DigitsValue(s[..|s| - 1]) * 10 + DigitValue(s[|s| - 1])
  }

  /** The inverse of LabelName. */
  function ParseLabel(s: string): int
    requires |s| > 0
    requires forall i :: 0 < i < |s| ==> IsDigit(s[i])
    requires s[0] != '-' ==> IsDigit(s[0])
  {
    if s[0] == '-' then -(DigitsValue(s[1..]) as int) else DigitsValue(s)
  }

  lemma {:induction false} DigitsRoundTrip(n: nat)
    ensures DigitsValue(Digits(n)) == n
  {
    if n >= 10 {
      DigitsRoundTrip(n / 10);
      var s := Digits(n);
      assert s[..|s| - 1] == Digits(n / 10);
    }
  }

  /** Reading a label's name gives the label back. */
  lemma LabelNameRoundTrip(x: int)
    ensures ParseLabel(LabelName(x)) == x
  {
    if x < 0 {
      DigitsRoundTrip(-x);
      assert LabelName(x)[1..] == Digits(-x);
    } else {
      DigitsRoundTrip(x);
    }
  }
}
