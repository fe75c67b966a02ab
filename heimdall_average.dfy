/**
 * The heimdall average-block-time tool: GET requests against a Tendermint-style REST API
 * (`getJSON`), the status and block-time queries built on it, and the lookback loop of
 * main. The network and Go's string parsers are oracles.
 */
module HeimdallAverage {
  import opened Wrappers
  import opened GoInt
  import opened Elapsed

  datatype FetchError =
    | RequestError(cause: string)    // http.NewRequestWithContext failed
    | TransportError(cause: string)  // c.Do failed
    | HttpStatus(code: int)          // "HTTP %d for %s"
    | DecodeError(cause: string)     // the body did not decode into the result shape

  /** How the network answers one GET: the decoding outcome of the body is part of the answer. */
  datatype Exchange<T> =
    | BadRequest(cause: string)
    | NoResponse(cause: string)
    | Response(status: int, body: Result<T, string>)

  predicate Is2xx(code: int) {
    200 <= code < 300
  }

  /** getJSON: a status outside [200, 300) is an error and the body is then never decoded. */
  function GetJSON<T>(x: Exchange<T>): (r: Result<T, FetchError>)
    ensures (r.Err? && r.error.HttpStatus?) <==> x.Response? && !Is2xx(x.status)
    ensures r.Err? && r.error.HttpStatus? ==> r.error.code == x.status
    ensures r.Ok? <==> x.Response? && Is2xx(x.status) && x.body.Ok?
    ensures r.Ok? ==> r.value == x.body.value
  {
    match x
    case BadRequest(c) => Err(RequestError(c))
    case NoResponse(c) => Err(TransportError(c))
    case Response(status, body) =>
      if status < 200 || status >= 300 then Err(HttpStatus(status))
      else match body
        case Ok(v) => Ok(v)
        case Err(e) => Err(DecodeError(e))
  }

  /** For a non-2xx status the result does not depend on the body at all. */
  lemma StatusCheckedBeforeDecoding<T>(status: int, body1: Result<T, string>, body2: Result<T, string>)
    requires !Is2xx(status)
    ensures GetJSON(Response(status, body1)) == GetJSON(Response(status, body2)) == Err(HttpStatus(status))
  {
  }

  /** `result.sync_info` of GET /status. */
  datatype SyncInfo = SyncInfo(latestBlockHeight: string, latestBlockTime: string, earliestBlockHeight: string)

  /** A time.Time, as nanoseconds since the Unix epoch. */
  type Time = int

  /** strconv.ParseInt(s, 10, 64) and time.Parse(time.RFC3339Nano, s); None is a parse error. */
  type IntParser = string -> Option<int>
  type TimeParser = string -> Option<Time>

  datatype Latest = Latest(height: int, time: Time, earliest: int)

  datatype LatestError =
    | StatusFailed(cause: FetchError)
    | BadLatestHeight(text: string)    // "parse latest height"
    | BadEarliestHeight(text: string)  // "parse earliest height"
    | BadLatestTime(text: string)      // "parse latest time"

  /**
   * getLatest: parses the latest height, then the earliest height, then the latest time, and
   * returns the first failure; a later field is looked at only once every earlier one parsed.
   */
  function GetLatest(status: Result<SyncInfo, FetchError>, parseInt: IntParser, parseTime: TimeParser)
    : (r: Result<Latest, LatestError>)
    ensures status.Err? ==> r == Err(StatusFailed(status.error))
    ensures status.Ok? ==>
      var si := status.value;
      && (parseInt(si.latestBlockHeight).None? ==> r == Err(BadLatestHeight(si.latestBlockHeight)))
      && (parseInt(si.latestBlockHeight).Some? && parseInt(si.earliestBlockHeight).None? ==>
            r == Err(BadEarliestHeight(si.earliestBlockHeight)))
      && ((parseInt(si.latestBlockHeight).Some? && parseInt(si.earliestBlockHeight).Some?
           && parseTime(si.latestBlockTime).None?) ==> r == Err(BadLatestTime(si.latestBlockTime)))
    ensures r.Ok? <==> (status.Ok? && parseInt(status.value.latestBlockHeight).Some?
      && parseInt(status.value.earliestBlockHeight).Some? && parseTime(status.value.latestBlockTime).Some?)
    ensures r.Ok? ==> r.value == Latest(parseInt(status.value.latestBlockHeight).value,
      parseTime(status.value.latestBlockTime).value, parseInt(status.value.earliestBlockHeight).value)
  {
    match status
    case Err(e) => Err(StatusFailed(e))
    case Ok(si) =>
      match parseInt(si.latestBlockHeight)
      case None => Err(BadLatestHeight(si.latestBlockHeight))
      case Some(h) =>
        match parseInt(si.earliestBlockHeight)
        case None => Err(BadEarliestHeight(si.earliestBlockHeight))
        case Some(earliest) =>
          match parseTime(si.latestBlockTime)
          case None => Err(BadLatestTime(si.latestBlockTime))
          case Some(t) => Ok(Latest(h, t, earliest))
  }

  /** `result.block.header` of GET /block?height=N. */
  datatype Header = Header(height: string, time: string)

  datatype BlockTimeError =
    | BlockFailed(cause: FetchError)
    | EmptyBlockTime            // "empty block time"
    | BadBlockTime(text: string)  // "parse block time"

  /** getBlockTime: an empty time is its own error, checked before parsing. */
  function GetBlockTime(block: Result<Header, FetchError>, parseTime: TimeParser): (r: Result<Time, BlockTimeError>)
    ensures block.Err? ==> r == Err(BlockFailed(block.error))
    ensures r == Err(EmptyBlockTime) <==> block.Ok? && block.value.time == ""
    ensures r.Ok? <==> block.Ok? && block.value.time != "" && parseTime(block.value.time).Some?
    ensures r.Ok? ==> r.value == parseTime(block.value.time).value
  {
    match block
    case Err(e) => Err(BlockFailed(e))
    case Ok(hdr) =>
      if hdr.time == "" then Err(EmptyBlockTime)
      else match parseTime(hdr.time)
        case None => Err(BadBlockTime(hdr.time))
        case Some(t) => Ok(t)
  }

  /** The lookbacks main walks through, in order. */
  const Lookbacks: seq<int> := [10_000, 100_000, 1_000_000, 1_500_000]

  /** `latestTime.Sub(t0)`: the difference in nanoseconds, saturated to the int64 range. */
  function SubTime(t: Time, u: Time): (d: int)
    ensures IsInt64(d)
    ensures IsInt64(t - u) ==> d == t - u
    ensures t - u > MaxInt64 ==> d == MaxInt64
    ensures t - u < MinInt64 ==> d == MinInt64
  {
    if t - u > MaxInt64 then MaxInt64 else if t - u < MinInt64 then MinInt64 else t - u
  }

  /** One lookback's line of output, less the floating-point average. */
  datatype Line =
    | Skipped(lookback: int, target: int)                            // "SKIP"
    | FetchFailed(lookback: int, target: int, error: BlockTimeError)  // "ERROR fetching height"
    | Reported(lookback: int, target: int, elapsed: int, fields: Dhms)

  /** `target := latestHeight - lb` in int64 arithmetic. */
  function TargetHeight(latestHeight: int, lookback: int): (target: int)
    ensures IsInt64(target) && (target - (latestHeight - lookback)) % TwoTo64 == 0
    ensures IsInt64(latestHeight - lookback) ==> target == latestHeight - lookback
  {
    WrapInt64(latestHeight - lookback)
  }

  /** The heights main fetches, in order: the targets of the lookbacks that are not skipped. */
  function FetchedTargets(latestHeight: int, earliest: int, lookbacks: seq<int>): seq<int> {
    if lookbacks == [] then []
    else
      var lb := lookbacks[|lookbacks| - 1];
      var target := TargetHeight(latestHeight, lb);
      FetchedTargets(latestHeight, earliest, lookbacks[..|lookbacks| - 1])
        + (if target < earliest then [] else [target])
  }

  /**
   * The lookback loop of main: one line per lookback in the listed order. A lookback is
   * skipped, without a fetch, exactly when its target lies below the earliest available
   * height; a failed fetch is reported and the loop goes on with the next lookback.
   */
  method ProcessLookbacks(latest: Latest, lookbacks: seq<int>, blockTime: int -> Result<Time, BlockTimeError>)
    returns (lines: seq<Line>, ghost fetched: seq<int>)
    ensures |lines| == |lookbacks|
    ensures forall i :: 0 <= i < |lines| ==>
      lines[i].lookback == lookbacks[i] && lines[i].target == TargetHeight(latest.height, lookbacks[i])
    ensures forall i :: 0 <= i < |lines| ==>
      (lines[i].Skipped? <==> TargetHeight(latest.height, lookbacks[i]) < latest.earliest)
    ensures forall i :: 0 <= i < |lines| && !lines[i].Skipped? ==>
      match blockTime(lines[i].target)
      case Err(e) => lines[i] == FetchFailed(lookbacks[i], lines[i].target, e)
      case Ok(t0) => lines[i].Reported? && lines[i].elapsed == SubTime(latest.time, t0)
                     && SplitsDuration(lines[i].fields, lines[i].elapsed)
    ensures fetched == FetchedTargets(latest.height, latest.earliest, lookbacks)
  {
    lines, fetched := [], [];
    var i := 0;
    while i < |lookbacks|
      invariant i <= |lookbacks| && |lines| == i
      invariant forall j :: 0 <= j < i ==>
        lines[j].lookback == lookbacks[j] && lines[j].target == TargetHeight(latest.height, lookbacks[j])
      invariant forall j :: 0 <= j < i ==>
        (lines[j].Skipped? <==> TargetHeight(latest.height, lookbacks[j]) < latest.earliest)
      invariant forall j :: 0 <= j < i && !lines[j].Skipped? ==>
        match blockTime(lines[j].target)
        case Err(e) => lines[j] == FetchFailed(lookbacks[j], lines[j].target, e)
        case Ok(t0) => lines[j].Reported? && lines[j].elapsed == SubTime(latest.time, t0)
                       && SplitsDuration(lines[j].fields, lines[j].elapsed)
      invariant fetched == FetchedTargets(latest.height, latest.earliest, lookbacks[..i])
    {
      assert lookbacks[..i + 1][..i] == lookbacks[..i];
      var lb := lookbacks[i];
      var target := WrapInt64(latest.height - lb);
      if target < latest.earliest {
        lines := lines + [Skipped(lb, target)];
      } else {
        fetched := fetched + [target];
        var t0 := blockTime(target);
        if t0.Err? {
          lines := lines + [FetchFailed(lb, target, t0.error)];
        } else {
          var elapsed := SubTime(latest.time, t0.value);
          var fields := FormatElapsed(elapsed);
          lines := lines + [Reported(lb, target, elapsed, fields)];
        }
      }
      i := i + 1;
    }
    assert lookbacks[..i] == lookbacks;
  }

  /** Without int64 overflow, a lookback is skipped exactly when latest - lb < earliest. */
  lemma SkipRule(latestHeight: int, earliest: int, lb: int)
    requires IsInt64(latestHeight - lb)
    ensures TargetHeight(latestHeight, lb) < earliest <==> latestHeight - lb < earliest
  {
  }

  /** How a run of main ends: a panic on getLatest's error, or the header and one line per lookback. */
  datatype Outcome =
    | Panicked(cause: LatestError)
    | Printed(latest: Latest, lines: seq<Line>)

  /**
   * main, with the network as oracles: `status` answers GET /status and `blocks` answers
   * GET /block?height=N.
   */
  method Run(status: Exchange<SyncInfo>, blocks: int -> Exchange<Header>,
             parseInt: IntParser, parseTime: TimeParser) returns (o: Outcome, ghost fetched: seq<int>)
    ensures var latest := GetLatest(GetJSON(status), parseInt, parseTime);
      && (latest.Err? <==> o.Panicked?)
      && (latest.Err? ==> o == Panicked(latest.error))
      && (latest.Ok? ==> o.Printed? && o.latest == latest.value && |o.lines| == |Lookbacks|)
    ensures o.Printed? ==> fetched == FetchedTargets(o.latest.height, o.latest.earliest, Lookbacks)
    ensures o.Printed? ==> forall i :: 0 <= i < |o.lines| ==>
      o.lines[i].lookback == Lookbacks[i] && o.lines[i].target == TargetHeight(o.latest.height, Lookbacks[i])
    ensures o.Printed? ==> forall i :: 0 <= i < |o.lines| ==>
      (o.lines[i].Skipped? <==> TargetHeight(o.latest.height, Lookbacks[i]) < o.latest.earliest)
    ensures o.Printed? ==> forall i :: 0 <= i < |o.lines| && !o.lines[i].Skipped? ==>
      match GetBlockTime(GetJSON(blocks(o.lines[i].target)), parseTime)
      case Err(e) => o.lines[i] == FetchFailed(Lookbacks[i], o.lines[i].target, e)
      case Ok(t0) => o.lines[i].Reported? && o.lines[i].elapsed == SubTime(o.latest.time, t0)
                     && SplitsDuration(o.lines[i].fields, o.lines[i].elapsed)
  {
    var latest := GetLatest(GetJSON(status), parseInt, parseTime);
    if latest.Err? {
      return Panicked(latest.error), [];
    }
    var lines;
    lines, fetched := ProcessLookbacks(latest.value, Lookbacks, h => GetBlockTime(GetJSON(blocks(h)), parseTime));
    o := Printed(latest.value, lines);
  }
}
