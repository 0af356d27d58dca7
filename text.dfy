/** Text helpers shared by the two renderers: the decimal rendering that C#
    string interpolation gives an `int`, and the run of tab characters that
    the merged renderer uses as indentation. */
module Text {

  /** The character of a single decimal digit. */
  function Digit(d: nat): (c: char)
    requires d < 10
    ensures '0' <= c <= '9' && c as int - '0' as int == d
  {
    ('0' as int + d) as char
  }

  predicate IsDigits(s: string) {
    forall i :: 0 <= i < |s| ==> '0' <= s[i] <= '9'
  }

  /** Decimal rendering of a natural number, most significant digit first,
      without leading zeros. */
  function NatToString(n: nat): (s: string)
    ensures |s| > 0 && IsDigits(s)
    ensures n >= 10 ==> s[0] != '0'
    decreases n
  {
    if n < 10 then [Digit(n)] else NatToString(n / 10) + [Digit(n % 10)]
  }

  /** Decimal rendering of an integer as `Int32.ToString()` gives it: a minus
      sign in front of negative values. */
  function IntToString(i: int): (s: string)
    ensures |s| > 0
    ensures i >= 0 ==> IsDigits(s)
    ensures i < 0 ==> s[0] == '-' && IsDigits(s[1..])
  {
    (if i < 0 then "-" else "") + NatToString(if i < 0 then -i else i)
  }

  /** The value of a run of decimal digits; the empty run reads as 0. */
  function ParseNat(s: string): nat
    requires IsDigits(s)
    decreases |s|
  {
    if s == [] then 0
    else 10 * ParseNat(s[..|s| - 1]) + (s[|s| - 1] as int - '0' as int)
  }

  /** Reading a rendered number back gives the number: no two counts or
      thread ids print the same. */
  lemma {:induction false} NatToStringRoundTrip(n: nat)
    ensures ParseNat(NatToString(n)) == n
    decreases n
  {
    var s := NatToString(n);
    if n >= 10 {
      NatToStringRoundTrip(n / 10);
      assert s[..|s| - 1] == NatToString(n / 10);
    }
  }

  /** The digits after the optional minus sign. */
  lemma IntToStringMagnitude(i: int)
    ensures IntToString(i)[(if i < 0 then 1 else 0)..] == NatToString(if i < 0 then -i else i)
  {
  }

  lemma IntToStringInjective(i: int, j: int)
    requires IntToString(i) == IntToString(j)
    ensures i == j
  {
    IntToStringMagnitude(i);
    IntToStringMagnitude(j);
    assert (i < 0) == (j < 0);
    NatToStringRoundTrip(if i < 0 then -i else i);
    NatToStringRoundTrip(if j < 0 then -j else j);
  }

  /** `n` tab characters: the `tabs` string of the merged renderer. */
  function Tabs(n: nat): (t: string)
    ensures |t| == n && forall i :: 0 <= i < n ==> t[i] == '\t'
  {
    seq(n, _ => '\t')
  }

  lemma TabsStep(n: nat)
    ensures "\t" + Tabs(n) == Tabs(n + 1) == Tabs(n) + "\t"
  {
  }
}
