/**
 * Thousands separators: `withCommas` / `withCommasUint64` (identical in both bor tools),
 * `withCommasInt64` and `absInt64`.
 */
module Commas {
  import opened GoInt
  import opened Decimal

  /**
   * Reference definition, read from the right: the last three digits form a group, and a
   * comma separates them from the grouping of what precedes them.
   */
  function Grouped(d: string): (s: string)
    ensures d != [] ==> s != [] && s[0] == d[0]
    decreases |d|
  {
    if |d| <= 3 then d else Grouped(d[..|d| - 3]) + [','] + d[|d| - 3..]
  }

  function StripCommas(s: string): string {
    if s == [] then []
    else StripCommas(s[..|s| - 1]) + (if s[|s| - 1] == ',' then [] else [s[|s| - 1]])
  }

  /** Removing the commas from a grouping gives back the digits. */
  lemma {:induction false} StripGrouped(d: string)
    requires AllDigits(d)
    ensures StripCommas(Grouped(d)) == d
  {
    if |d| <= 3 {
      StripDigitsOnly(d);
    } else {
      var p, t := d[..|d| - 3], d[|d| - 3..];
      StripGrouped(p);
      StripAppend(Grouped(p) + [','], t);
      StripAppend(Grouped(p), [',']);
      StripDigitsOnly(t);
    }
  }

  lemma {:induction false} StripDigitsOnly(d: string)
    requires AllDigits(d)
    ensures StripCommas(d) == d
  {
    if d != [] {
      StripDigitsOnly(d[..|d| - 1]);
    }
  }

  lemma {:induction false} StripAppend(a: string, b: string)
    ensures StripCommas(a + b) == StripCommas(a) + StripCommas(b)
    decreases |b|
  {
    if b == [] {
      assert a + b == a;
    } else {
      var b' := b[..|b| - 1];
      assert (a + b)[..|a + b| - 1] == a + b';
      StripAppend(a, b');
    }
  }

  /**
   * Shape of a grouping: a comma stands exactly where the distance to the end of the
   * string is a multiple of four, and the length is never a multiple of four, so the
   * leading group holds one to three digits and every later group exactly three.
   */
  lemma {:induction false} GroupedShape(d: string)
    requires AllDigits(d) && d != []
    ensures var s := Grouped(d);
      && |s| % 4 != 0
      && forall i :: 0 <= i < |s| ==> (s[i] == ',' <==> (|s| - i) % 4 == 0)
  {
    var s := Grouped(d);
    if |d| > 3 {
      var p, t := d[..|d| - 3], d[|d| - 3..];
      GroupedShape(p);
      var g := Grouped(p);
      assert s == g + [','] + t;
      forall i | 0 <= i < |s|
        ensures s[i] == ',' <==> (|s| - i) % 4 == 0
      {
        if i < |g| {
          assert s[i] == g[i];
          assert (|s| - i) % 4 == (|g| - i) % 4;
        } else if i > |g| {
          assert s[i] == t[i - |g| - 1];
        }
      }
    }
  }

  /** Appending three digits to a grouping of four or more digits appends one group. */
  lemma GroupedStep(d: string, i: nat)
    requires 1 <= i && i + 3 <= |d|
    ensures Grouped(d[..i + 3]) == Grouped(d[..i]) + [','] + d[i..i + 3]
  {
    assert d[..i + 3][..i] == d[..i];
    assert d[..i + 3][i..] == d[i..i + 3];
  }

  /** withCommasUint64 (and withCommas): the `%d` rendering of `u` with thousands separators. */
  method WithCommasUint64(u: nat) returns (s: string)
    requires IsUint64(u)
    ensures s == Grouped(DecimalString(u))
    ensures StripCommas(s) == DecimalString(u)
    ensures u < 1000 ==> s == DecimalString(u)
  {
    var d := DecimalString(u);
    var n := |d|;
    AtMostThreeDigits(u);
    if n <= 3 {
      StripGrouped(d);
      return d;
    }
    var pre := n % 3;
    if pre == 0 {
      pre := 3;
    }
    s := d[..pre];
    var i := pre;
    while i < n
      invariant pre <= i <= n
      invariant (n - i) % 3 == 0
      invariant s == Grouped(d[..i])
    {
      GroupedStep(d, i);
      s := s + [','] + d[i..i + 3];
      i := i + 3;
    }
    assert d[..n] == d;
    StripGrouped(d);
  }

  /** absInt64: `-v` for negative `v`; Go's negation of MinInt64 overflows to MinInt64. */
  function AbsInt64(v: int): (r: int)
    requires IsInt64(v)
    ensures IsInt64(r)
    ensures r >= 0 <==> v != MinInt64
    ensures v != MinInt64 ==> r == v || r == -v
    ensures v == MinInt64 ==> r == MinInt64
  {
    if v < 0 then Neg64(v) else v
  }

  /**
   * withCommasInt64: a minus sign in front of the grouping of |v|. For MinInt64 the
   * overflowing `uint64(-v)` still yields 2^63, which is |v|.
   */
  method WithCommasInt64(v: int) returns (s: string)
    requires IsInt64(v)
    ensures s == (if v < 0 then "-" else "") + Grouped(DecimalString(if v < 0 then -v else v))
    ensures |s| >= 1 && (s[0] == '-' <==> v < 0)
    ensures StripCommas(s) == (if v < 0 then "-" else "") + DecimalString(if v < 0 then -v else v)
  {
    if v < 0 {
      var m := WrapUint64(Neg64(v));
      assert m == -v;
      var t := WithCommasUint64(m);
      s := "-" + t;
      StripAppend("-", t);
      assert StripCommas("-") == "-" by {
        assert "-"[..0] == [];
      }
    } else {
      s := WithCommasUint64(v);
    }
  }
}
