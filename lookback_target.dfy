/** `target.resolve` of the average-block-time tool: which height a lookback target denotes. */
module LookbackTarget {
  import opened Wrappers
  import opened GoInt

  /** kind is "relative" (use delta) or "absolute" (use value); any other kind never resolves. */
  datatype Target = Target(kind: string, delta: int, value: nat)

  predicate ValidTarget(t: Target) {
    IsInt64(t.delta) && IsUint64(t.value)
  }

  /**
   * resolve(n): a relative target moves `delta` from the latest height `n` and fails only when
   * it would go below zero; an absolute target stands for itself and fails when it lies beyond
   * `n`. A forward move wraps modulo 2^64 as uint64 addition does.
   */
  function Resolve(t: Target, n: nat): (r: Option<nat>)
    requires ValidTarget(t) && IsUint64(n)
    ensures r.Some? ==> IsUint64(r.value)
    ensures t.kind == "relative" && t.delta >= 0 ==>
      r.Some? && (r.value - (n + t.delta)) % TwoTo64 == 0
      && (n + t.delta <= MaxUint64 ==> r.value == n + t.delta)
    ensures t.kind == "relative" && t.delta < 0 ==>
      (r.Some? <==> -t.delta <= n) && (r.Some? ==> n - r.value == -t.delta)
    ensures t.kind == "absolute" ==>
      (r.Some? <==> t.value <= n) && (r.Some? ==> r.value == t.value)
    ensures t.kind != "relative" && t.kind != "absolute" ==> r.None?
  {
    match t.kind
    case "relative" =>
      if t.delta >= 0 then Some(WrapUint64(n + t.delta))
      else
        var d := -t.delta;
        if d > n then None else Some(n - d)
    case "absolute" =>
      if t.value > n then None else Some(t.value)
    case _ => None
  }

  /** Backward and absolute targets never resolve past the latest height. */
  lemma ResolvedNotInFuture(t: Target, n: nat)
    requires ValidTarget(t) && IsUint64(n)
    requires t.kind != "relative" || t.delta <= 0
    ensures Resolve(t, n).Some? ==> Resolve(t, n).value <= n
  {
  }

  /** With latest height 1000: -2000 is unavailable, -500 gives 500, 0 gives 1000. */
  lemma ResolveExamples()
    ensures Resolve(Target("relative", -2000, 0), 1000) == None
    ensures Resolve(Target("relative", -500, 0), 1000) == Some(500)
    ensures Resolve(Target("relative", 0, 0), 1000) == Some(1000)
  {
  }
}
