/**
 * The integer part of the hard-fork block calculator's main: the predicted height is the
 * latest height moved by the rounded block estimate, clamped at zero, and printed with
 * thousands separators together with the signed block estimate.
 */
module BorHardFork {
  import opened GoInt
  import opened Decimal
  import opened Commas
  import opened Elapsed

  /**
   * `predicted := int64(n) + blocksRounded`, set to 0 when negative. The result is never
   * negative, and without int64 overflow it is n + blocksRounded or, below zero, 0.
   */
  function PredictedHeight(n: nat, blocksRounded: int): (p: int)
    requires IsUint64(n) && IsInt64(blocksRounded)
    ensures 0 <= p <= MaxInt64
    ensures n <= MaxInt64 && IsInt64(n + blocksRounded) ==>
      (p == n + blocksRounded || (p == 0 && n + blocksRounded < 0))
    ensures n <= MaxInt64 && blocksRounded >= 0 && n + blocksRounded <= MaxInt64 ==> p == n + blocksRounded
  {
    var predicted := WrapInt64(WrapInt64(n) + blocksRounded);
    if predicted < 0 then 0 else predicted
  }

  /** A day ahead at 2 seconds per block from height 1000: 43200 blocks, height 44200. */
  lemma PredictionExample()
    ensures PredictedHeight(1000, 86400 / 2) == 44200
  {
  }

  /** The sign printed in front of the time delta and the block estimate: "-" for a past target. */
  function DeltaSign(delta: int): (sign: string)
    ensures |sign| == 1 && (sign == "-" <==> delta < 0)
  {
    if delta < 0 then "-" else "+"
  }

  /**
   * The "Δtime" field as the code prints it: `sign` followed by elapsedDHMS(delta), whose
   * output carries its own "-" for a negative delta. A past target gets two minus signs.
   */
  function DeltaTimeAsWritten(delta: int): (r: SignedDhms)
    requires IsInt64(delta)
    ensures delta < 0 ==> r.prefix == "--"
    ensures delta >= 0 ==> r.prefix == "+"
  {
    var e := ElapsedDuration(delta);
    SignedDhms(DeltaSign(delta) + e.prefix, e.fields)
  }

  /** The only normalized split of one second. */
  lemma OneSecondSplit(f: Dhms)
    requires Normalized(f) && TotalSeconds(f) == 1
    ensures f == Dhms(0, 0, 0, 1)
  {
  }

  /** A target one to two seconds in the past prints as "--0d 0h 0m 1s". */
  lemma DoubleMinusExample(delta: int)
    requires -2 * Second < delta <= -Second
    ensures DeltaTimeAsWritten(delta) == SignedDhms("--", Dhms(0, 0, 0, 1))
  {
    var f := ElapsedDuration(delta).fields;
    assert Normalized(f) && TotalSeconds(f) == 1;
    OneSecondSplit(f);
  }

  /**
   * The "Δtime" field with the sign printed once: the sign of the delta, then the fields of
   * the whole seconds in its absolute value.
   */
  function DeltaTime(delta: int): (r: SignedDhms)
    requires IsInt64(delta)
    ensures |r.prefix| == 1 && (r.prefix == "-" <==> delta < 0)
    ensures r.fields == DeltaTimeAsWritten(delta).fields
    ensures delta != MinInt64 ==>
      var a := if delta < 0 then -delta else delta;
      Normalized(r.fields) && TotalSeconds(r.fields) * Second <= a < (TotalSeconds(r.fields) + 1) * Second
  {
    SignedDhms(DeltaSign(delta), ElapsedDuration(delta).fields)
  }

  /**
   * The "Estimated Δblk" field: the sign of the time delta, then
   * withCommasInt64(absInt64(blocksRounded)). absInt64 leaves MinInt64 negative, so its
   * grouping keeps a minus sign after the delta's sign.
   */
  method BlockEstimateText(sign: string, blocksRounded: int) returns (deltaBlocks: string)
    requires IsInt64(blocksRounded)
    ensures blocksRounded != MinInt64 ==>
      deltaBlocks == sign + Grouped(DecimalString(if blocksRounded < 0 then -blocksRounded else blocksRounded))
    ensures blocksRounded == MinInt64 ==>
      deltaBlocks == sign + "-" + Grouped(DecimalString(0x8000_0000_0000_0000))
  {
    var a := AbsInt64(blocksRounded);
    var magnitude := WithCommasInt64(a);
    if blocksRounded != MinInt64 {
      assert a == (if blocksRounded < 0 then -blocksRounded else blocksRounded);
      assert magnitude == Grouped(DecimalString(a));
    } else {
      assert magnitude == "-" + Grouped(DecimalString(0x8000_0000_0000_0000));
    }
    deltaBlocks := sign + magnitude;
  }

  /**
   * The "Δtime", "Estimated Δblk" and "height" fields of the prediction: the split of the
   * time delta, the signed block estimate, and withCommasUint64(uint64(predicted)).
   */
  method PredictionText(n: nat, delta: int, blocksRounded: int)
    returns (deltaTime: SignedDhms, deltaBlocks: string, height: string)
    requires IsUint64(n) && IsInt64(delta) && IsInt64(blocksRounded)
    ensures deltaTime == DeltaTime(delta)
    ensures blocksRounded != MinInt64 ==>
      deltaBlocks == DeltaSign(delta)
        + Grouped(DecimalString(if blocksRounded < 0 then -blocksRounded else blocksRounded))
    ensures blocksRounded == MinInt64 ==>
      deltaBlocks == DeltaSign(delta) + "-" + Grouped(DecimalString(0x8000_0000_0000_0000))
    ensures height == Grouped(DecimalString(PredictedHeight(n, blocksRounded)))
    ensures StripCommas(height) == DecimalString(PredictedHeight(n, blocksRounded))
  {
    deltaTime := DeltaTime(delta);
    deltaBlocks := BlockEstimateText(DeltaSign(delta), blocksRounded);
    height := WithCommasUint64(PredictedHeight(n, blocksRounded));
  }
}
