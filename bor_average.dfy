/**
 * main of the average-block-time tool: resolve the lookback targets against the latest
 * height, fetch the timestamps of the resolved heights (a failure skips that height),
 * make sure the latest block's timestamp is known, and compute one report row per
 * earlier height that was fetched.
 */
module BorAverage {
  import opened Wrappers
  import opened GoInt
  import opened LookbackTarget
  import opened BlockQueries
  import opened Elapsed

  /** The targets {n, n-40000, n-280000, n-560000, n-1120000}. */
  const DefaultTargets: seq<Target> := [
    Target("relative", 0, 0),
    Target("relative", -40000, 0),
    Target("relative", -280000, 0),
    Target("relative", -560000, 0),
    Target("relative", -1120000, 0)
  ]

  predicate ValidTargets(targets: seq<Target>) {
    forall i :: 0 <= i < |targets| ==> ValidTarget(targets[i])
  }

  /** The heights the targets resolve to, in target order; unresolved targets are dropped. */
  function ResolvedHeights(targets: seq<Target>, n: nat): (hs: seq<nat>)
    requires ValidTargets(targets) && IsUint64(n)
    ensures |hs| <= |targets|
    ensures forall i :: 0 <= i < |hs| ==> IsUint64(hs[i])
  {
    if targets == [] then []
    else
      var last := targets[|targets| - 1];
      ResolvedHeights(targets[..|targets| - 1], n)
        + (match Resolve(last, n) case Some(h) => [h] case None => [])
  }

  /** The `heights` loop of main: appends each height that resolves. */
  method SelectHeights(targets: seq<Target>, n: nat) returns (heights: seq<nat>)
    requires ValidTargets(targets) && IsUint64(n)
    ensures heights == ResolvedHeights(targets, n)
  {
    heights := [];
    var i := 0;
    while i < |targets|
      invariant i <= |targets|
      invariant heights == ResolvedHeights(targets[..i], n)
    {
      assert targets[..i + 1][..i] == targets[..i];
      var r := Resolve(targets[i], n);
      if r.Some? {
        heights := heights + [r.value];
      }
      i := i + 1;
    }
    assert targets[..i] == targets;
  }

  /** A height is selected exactly when some target resolves to it. */
  lemma {:induction false} ResolvedHeightsMembers(targets: seq<Target>, n: nat, h: nat)
    requires ValidTargets(targets) && IsUint64(n)
    ensures h in ResolvedHeights(targets, n) <==> exists t :: t in targets && Resolve(t, n) == Some(h)
  {
    if targets != [] {
      var init := targets[..|targets| - 1];
      ResolvedHeightsMembers(init, n, h);
      assert forall t :: t in targets <==> t in init || t == targets[|targets| - 1];
    }
  }

  /** Below 40000 only the latest height survives; from 1120000 on all five targets do. */
  lemma DefaultHeights(n: nat)
    requires IsUint64(n)
    ensures n < 40000 ==> ResolvedHeights(DefaultTargets, n) == [n]
    ensures n >= 1120000 ==>
      ResolvedHeights(DefaultTargets, n) == [n, n - 40000, n - 280000, n - 560000, n - 1120000]
  {
    var ts := DefaultTargets;
    assert ts[..1][..0] == [];
    assert ts[..2][..1] == ts[..1];
    assert ts[..3][..2] == ts[..2];
    assert ts[..4][..3] == ts[..3];
    assert ts[..5][..4] == ts[..4];
    assert ts[..5] == ts;
    assert ResolvedHeights(ts[..1], n) == [n];
    if n < 40000 {
      assert ResolvedHeights(ts[..2], n) == [n];
      assert ResolvedHeights(ts[..3], n) == [n];
      assert ResolvedHeights(ts[..4], n) == [n];
    } else if n >= 1120000 {
      assert ResolvedHeights(ts[..2], n) == [n, n - 40000];
      assert ResolvedHeights(ts[..3], n) == [n, n - 40000, n - 280000];
      assert ResolvedHeights(ts[..4], n) == [n, n - 40000, n - 280000, n - 560000];
    }
  }

  /** getBlockTimestamp as seen by main: the result of fetching each height. */
  type Fetch = nat -> Result<nat, QueryError>

  /**
   * The `infos` loop of main: the timestamp of every selected height whose fetch succeeds;
   * a failed fetch leaves that height out and the loop goes on.
   */
  method FetchInfos(fetch: Fetch, heights: seq<nat>) returns (infos: map<nat, nat>)
    ensures forall h :: h in infos <==> h in heights && fetch(h).Ok?
    ensures forall h :: h in infos ==> infos[h] == fetch(h).value
  {
    infos := map[];
    var i := 0;
    while i < |heights|
      invariant i <= |heights|
      invariant forall h :: h in infos <==> h in heights[..i] && fetch(h).Ok?
      invariant forall h :: h in infos ==> infos[h] == fetch(h).value
    {
      var h := heights[i];
      assert heights[..i + 1] == heights[..i] + [h];
      var ts := fetch(h);
      if ts.Ok? {
        infos := infos[h := ts.value];
      }
      i := i + 1;
    }
    assert heights[..i] == heights;
  }

  /**
   * The "ensure n present" closure of main: reuse the latest block's timestamp when it was
   * fetched, otherwise fetch it once more (answered by `refetch`) and record it on success.
   */
  method EnsureLatest(refetch: Fetch, infos: map<nat, nat>, n: nat)
    returns (infos': map<nat, nat>, latest: Option<nat>)
    ensures n in infos ==> infos' == infos && latest == Some(infos[n])
    ensures n !in infos ==> match refetch(n)
      case Ok(ts) => infos' == infos[n := ts] && latest == Some(ts)
      case Err(_) => infos' == infos && latest == None
    ensures latest.Some? ==> n in infos' && infos'[n] == latest.value
  {
    if n in infos {
      return infos, Some(infos[n]);
    }
    var ts := refetch(n);
    if ts.Err? {
      return infos, None;
    }
    infos' := infos[n := ts.value];
    latest := Some(ts.value);
  }
  /** One per-reference block of output, less the floating-point average. */
  datatype Row = Row(height: nat, blockDiff: int, secDiff: int, elapsed: Dhms)

  /** `blockDiff := int64(n) - int64(h)`, `secDiff := int64(nTS) - int64(ts)`, and elapsedDHMS(secDiff). */
  function MakeRow(n: nat, nTS: nat, h: nat, ts: nat): (r: Row)
    ensures r.height == h && IsInt64(r.blockDiff) && IsInt64(r.secDiff)
    ensures n <= MaxInt64 && h <= MaxInt64 ==> r.blockDiff == n - h
    ensures nTS <= MaxInt64 && ts <= MaxInt64 ==> r.secDiff == nTS - ts
    ensures r.secDiff != MinInt64 ==>
      Normalized(r.elapsed) && TotalSeconds(r.elapsed) == if r.secDiff < 0 then -r.secDiff else r.secDiff
  {
    var blockDiff := WrapInt64(WrapInt64(n) - WrapInt64(h));
    var secDiff := WrapInt64(WrapInt64(nTS) - WrapInt64(ts));
    Row(h, blockDiff, secDiff, ElapsedSeconds(secDiff))
  }

  /** Whether the output loop prints a row for this target: resolved, not `n`, and fetched. */
  predicate Reported(t: Target, n: nat, infos: map<nat, nat>)
    requires ValidTarget(t) && IsUint64(n)
  {
    var r := Resolve(t, n);
    r.Some? && r.value != n && r.value in infos
  }

  /** The rows the output loop prints, in target order. */
  function ReportRows(targets: seq<Target>, n: nat, infos: map<nat, nat>, nTS: nat): seq<Row>
    requires ValidTargets(targets) && IsUint64(n)
  {
    if targets == [] then []
    else
      var t := targets[|targets| - 1];
      ReportRows(targets[..|targets| - 1], n, infos, nTS)
        + (if Reported(t, n, infos) then [MakeRow(n, nTS, Resolve(t, n).value, infos[Resolve(t, n).value])] else [])
  }

  /** The output loop of main: skips unresolved targets, the latest height itself, and failed fetches. */
  method Report(targets: seq<Target>, n: nat, infos: map<nat, nat>, nTS: nat) returns (rows: seq<Row>)
    requires ValidTargets(targets) && IsUint64(n)
    ensures rows == ReportRows(targets, n, infos, nTS)
  {
    rows := [];
    var i := 0;
    while i < |targets|
      invariant i <= |targets|
      invariant rows == ReportRows(targets[..i], n, infos, nTS)
    {
      assert targets[..i + 1][..i] == targets[..i];
      var r := Resolve(targets[i], n);
      if r.Some? && r.value != n && r.value in infos {
        var h := r.value;
        rows := rows + [MakeRow(n, nTS, h, infos[h])];
      }
      i := i + 1;
    }
    assert targets[..i] == targets;
  }

  /**
   * For backward targets every printed row lies strictly below the latest height, so on a
   * chain below 2^63 blocks its block difference is `n - h`, positive, and the average is
   * never a division by zero.
   */
  lemma {:induction false} RowsLookBackward(targets: seq<Target>, n: nat, infos: map<nat, nat>, nTS: nat)
    requires ValidTargets(targets) && IsUint64(n) && n <= MaxInt64
    requires forall i :: 0 <= i < |targets| ==> targets[i].kind != "relative" || targets[i].delta <= 0
    ensures forall row :: row in ReportRows(targets, n, infos, nTS) ==>
      row.height < n && row.blockDiff == n - row.height > 0
  {
    if targets != [] {
      var t := targets[|targets| - 1];
      RowsLookBackward(targets[..|targets| - 1], n, infos, nTS);
      ResolvedNotInFuture(t, n);
    }
  }

  /** How a run of main ends. */
  datatype Outcome =
    | NoLatestNumber(cause: QueryError)   // "error: get latest block number"
    | NoLatestTimestamp(height: nat)      // "error: failed to fetch latest block %d timestamp"
    | Printed(latest: nat, latestTimestamp: nat, rows: seq<Row>)

  /**
   * main, given what getLatestBlockNumber returns (`latest`, FetchLatest of the endpoint),
   * what the first getBlockTimestamp of each height returns (`fetch`, FetchTimestamp of the
   * endpoint) and what the second one for the latest height returns (`refetch`).
   */
  method Run(latest: Result<nat, QueryError>, fetch: Fetch, refetch: Fetch) returns (o: Outcome)
    requires latest.Ok? ==> IsUint64(latest.value)
    ensures latest.Err? <==> o.NoLatestNumber?
    ensures latest.Err? ==> o == NoLatestNumber(latest.error)
    ensures o.NoLatestTimestamp? ==>
      var n := o.height;
      && latest == Ok(n)
      && !(n in ResolvedHeights(DefaultTargets, n) && fetch(n).Ok?)
      && refetch(n).Err?
    ensures o.Printed? ==> latest == Ok(o.latest)
    ensures o.Printed? ==>
      var n := o.latest;
      var heights := ResolvedHeights(DefaultTargets, n);
      && (if n in heights && fetch(n).Ok? then o.latestTimestamp == fetch(n).value
          else refetch(n) == Ok(o.latestTimestamp))
      && o.rows == ReportRows(DefaultTargets, n, InfosOf(fetch, refetch, heights, n), o.latestTimestamp)
  {
    if latest.Err? {
      return NoLatestNumber(latest.error);
    }
    var n := latest.value;
    assert ValidTargets(DefaultTargets);
    var heights := SelectHeights(DefaultTargets, n);
    var infos := FetchInfos(fetch, heights);
    assert infos == Fetched(fetch, heights);
    var nTS;
    infos, nTS := EnsureLatest(refetch, infos, n);
    if nTS.None? {
      return NoLatestTimestamp(n);
    }
    var rows := Report(DefaultTargets, n, infos, nTS.value);
    o := Printed(n, nTS.value, rows);
  }

  /** The `infos` map after the fetch loop. */
  ghost function Fetched(fetch: Fetch, heights: seq<nat>): map<nat, nat> {
    map h | h in heights && fetch(h).Ok? :: fetch(h).value
  }

  /** The `infos` map after the fetch loop and the "ensure n present" step. */
  ghost function InfosOf(fetch: Fetch, refetch: Fetch, heights: seq<nat>, n: nat): map<nat, nat> {
    var fetched := Fetched(fetch, heights);
    if n in fetched || refetch(n).Err? then fetched else fetched[n := refetch(n).value]
  }
}
