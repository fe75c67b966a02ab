/** The `%d` rendering of a non-negative integer, as `fmt.Sprintf("%d", u)` prints it. */
module Decimal {

  predicate IsDigit(c: char) { '0' <= c <= '9' }

  predicate AllDigits(s: string) {
    forall i :: 0 <= i < |s| ==> IsDigit(s[i])
  }

  function Pow10(k: nat): (p: nat)
    ensures p >= 1
  {
    if k == 0 then 1 else 10 * Pow10(k - 1)
  }

  /** Most significant digit first, no leading zeros, "0" for zero. */
  function DecimalString(u: nat): (s: string)
    ensures |s| >= 1 && AllDigits(s)
    ensures u > 0 ==> s[0] != '0'
  {
    if u < 10 then [('0' as int + u) as char]
    else DecimalString(u / 10) + [('0' as int + u % 10) as char]
  }

  /** The rendering has at most k digits exactly when the number is below 10^k. */
  lemma {:induction false} DecimalLength(u: nat, k: nat)
    requires k >= 1
    ensures |DecimalString(u)| <= k <==> u < Pow10(k)
  {
    if u >= 10 && k > 1 {
      DecimalLength(u / 10, k - 1);
    } else if u >= 10 {
      assert |DecimalString(u)| == |DecimalString(u / 10)| + 1;
    }
  }

  /** At most three digits exactly below 1000. */
  lemma AtMostThreeDigits(u: nat)
    ensures |DecimalString(u)| <= 3 <==> u < 1000
  {
    assert Pow10(3) == 1000;
    DecimalLength(u, 3);
  }

  /** The number a decimal digit string denotes, most significant digit first. */
  function DecimalValue(s: string): nat
    requires AllDigits(s)
  {
    if s == [] then 0
    else 10 * DecimalValue(s[..|s| - 1]) + (s[|s| - 1] as int - '0' as int)
  }

  /** The `%d` rendering denotes the number it renders. */
  lemma {:induction false} DecimalValueOfString(u: nat)
    ensures DecimalValue(DecimalString(u)) == u
  {
    var s := DecimalString(u);
    if u >= 10 {
      DecimalValueOfString(u / 10);
      assert s[..|s| - 1] == DecimalString(u / 10);
    }
  }
}
