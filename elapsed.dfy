/**
 * Elapsed-time decomposition into days, hours, minutes and seconds: `elapsedDHMS(int64)`
 * of the average-block-time tool, `elapsedDHMS(time.Duration)` of the hard-fork tool and
 * `formatElapsed` of the heimdall tool. All use Go's truncating `/` and `%`.
 */
module Elapsed {
  import opened GoInt

  /** time.Duration units, in nanoseconds. */
  const Second: int := 1_000_000_000
  const Minute: int := 60_000_000_000
  const Hour: int := 3_600_000_000_000
  const Day: int := 86_400_000_000_000

  /** The four numbers printed as `%dd %dh %dm %ds`. */
  datatype Dhms = Dhms(days: int, hours: int, minutes: int, seconds: int)

  /** The number of seconds the four fields add up to. */
  function TotalSeconds(f: Dhms): int {
    f.days * 86400 + f.hours * 3600 + f.minutes * 60 + f.seconds
  }

  /** The fields of a non-negative span: hours, minutes and seconds never carry over. */
  predicate Normalized(f: Dhms) {
    f.days >= 0 && 0 <= f.hours < 24 && 0 <= f.minutes < 60 && 0 <= f.seconds < 60
  }

  /** `|x|` as Go computes it with `if x < 0 { x = -x }` on an int64. */
  function GoAbs(x: int): (a: int)
    requires IsInt64(x)
    ensures x != MinInt64 ==> a == if x < 0 then -x else x
    ensures x == MinInt64 ==> a == MinInt64
  {
    if x < 0 then Neg64(x) else x
  }

  /** The `d := t / 86400; r := t % 86400; h := r / 3600; r %= 3600; m := r / 60; s := r % 60` chain. */
  function SplitSeconds(t: int): (f: Dhms)
    ensures TotalSeconds(f) == t
    ensures t >= 0 ==> Normalized(f)
    ensures t < 0 ==> f.days <= 0 && -24 < f.hours <= 0 && -60 < f.minutes <= 0 && -60 < f.seconds <= 0
  {
    var r := Rem(t, 86400);
    var r' := Rem(r, 3600);
    Dhms(Quot(t, 86400), Quot(r, 3600), Quot(r', 60), Rem(r', 60))
  }

  /**
   * elapsedDHMS(totalSec int64) of the average-block-time tool: the fields of |totalSec|.
   * Only MinInt64, whose negation overflows, yields negative fields.
   */
  function ElapsedSeconds(totalSec: int): (f: Dhms)
    requires IsInt64(totalSec)
    ensures totalSec != MinInt64 ==>
      Normalized(f) && TotalSeconds(f) == if totalSec < 0 then -totalSec else totalSec
    ensures totalSec == MinInt64 ==> TotalSeconds(f) == MinInt64 && f.days < 0
  {
    SplitSeconds(GoAbs(totalSec))
  }

  /** What elapsedDHMS(d time.Duration) of the hard-fork tool prints: a sign and four fields. */
  datatype SignedDhms = SignedDhms(prefix: string, fields: Dhms)

  /**
   * elapsedDHMS(d time.Duration): prefix "-" exactly for negative durations, then the fields
   * of the whole seconds in |d|. `int64(d.Seconds())` is modelled as truncating division of
   * the nanosecond count.
   */
  function ElapsedDuration(d: int): (r: SignedDhms)
    requires IsInt64(d)
    ensures r.prefix == (if d < 0 then "-" else "")
    ensures d != MinInt64 ==>
      var a := if d < 0 then -d else d;
      Normalized(r.fields) && TotalSeconds(r.fields) * Second <= a < (TotalSeconds(r.fields) + 1) * Second
    ensures d == MinInt64 ==> TotalSeconds(r.fields) == -9_223_372_036 && r.fields.days < 0
  {
    var neg := d < 0;
    var totalSec := Quot(GoAbs(d), Second);
    SignedDhms(if neg then "-" else "", SplitSeconds(totalSec))
  }

  /**
   * What formatElapsed prints for `duration`: the fields recombine to |duration| less its
   * sub-second remainder (truncated toward zero), and they are normalized except for
   * MinInt64, whose negation overflows and yields negative fields.
   */
  predicate SplitsDuration(f: Dhms, duration: int)
    requires IsInt64(duration)
  {
    var a := GoAbs(duration);
    var t := f.days * Day + f.hours * Hour + f.minutes * Minute + f.seconds * Second;
    && (a >= 0 ==> 0 <= a - t < Second)
    && (a < 0 ==> -Second < a - t <= 0)
    && (duration != MinInt64 ==> Normalized(f))
    && (duration == MinInt64 ==> f.days < 0)
  }

  /**
   * formatElapsed(d time.Duration) of the heimdall tool: takes |d|, then peels off whole days,
   * hours and minutes by successive subtraction and ends with the whole seconds left over.
   */
  method FormatElapsed(duration: int) returns (f: Dhms)
    requires IsInt64(duration)
    ensures SplitsDuration(f, duration)
  {
    var d := duration;
    if d < 0 {
      d := Neg64(d);
    }
    var days := Quot(d, Day);
    d := d - days * Day;
    var hours := Quot(d, Hour);
    d := d - hours * Hour;
    var mins := Quot(d, Minute);
    d := d - mins * Minute;
    var secs := Quot(d, Second);
    f := Dhms(days, hours, mins, secs);
  }

  /** Two normalized splits with the same total are the same split. */
  lemma NormalizedUnique(f: Dhms, g: Dhms)
    requires Normalized(f) && Normalized(g) && TotalSeconds(f) == TotalSeconds(g)
    ensures f == g
  {
  }

  /**
   * formatElapsed (heimdall) and elapsedDHMS(time.Duration) (hard fork) split every duration
   * other than MinInt64 into the same four fields.
   */
  lemma FormatElapsedAgreesWithElapsedDuration(f: Dhms, duration: int)
    requires IsInt64(duration) && duration != MinInt64 && SplitsDuration(f, duration)
    ensures f == ElapsedDuration(duration).fields
  {
    var g := ElapsedDuration(duration).fields;
    var a := GoAbs(duration);
    var t := f.days * Day + f.hours * Hour + f.minutes * Minute + f.seconds * Second;
    assert t == TotalSeconds(f) * Second;
    assert TotalSeconds(g) * Second <= a < TotalSeconds(g) * Second + Second;
    NormalizedUnique(f, g);
  }
}
