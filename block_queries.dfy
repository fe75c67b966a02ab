/**
 * getLatestBlockNumber and getBlockTimestamp, identical in both bor tools: an rpcCall
 * followed by hexToUint64 of the returned quantity.
 */
module BlockQueries {
  import opened Wrappers
  import opened GoInt
  import opened HexQuantity
  import opened RpcRetry

  /** A JSON-RPC positional parameter. */
  datatype Param = Str(s: string) | Bool(b: bool)

  /** The `block` object of eth_getBlockByNumber; JSON null is None. */
  datatype BlockJson = BlockJson(number: string, timestamp: string)

  datatype QueryError =
    | Rpc(callError: CallError)
    | EmptyBlock(height: nat)   // "empty block/timestamp for height %d"
    | BadQuantity(hexError: HexError)

  /**
   * The network: what each attempt of a request with the given method and params observes.
   * Requests that are sent twice are answered the same way both times.
   */
  type Endpoint<T> = (string, seq<Param>) -> nat -> Attempt<T>

  /** eth_getBlockByNumber's params, `["0x%x" of the height, false]`; the height decodes back. */
  function BlockParams(height: nat): (p: seq<Param>)
    ensures |p| == 2 && p[0].Str? && p[1] == Bool(false)
    ensures IsUint64(height) ==> HexToUint64(p[0].s) == Ok(height)
  {
    var p := [Str(EncodeQuantity(height)), Bool(false)];
    if IsUint64(height) then EncodeDecodeRoundTrip(height); p else p
  }

  /** getLatestBlockNumber after its rpcCall: the quantity decoded, or the first error. */
  function LatestNumber(call: Result<string, CallError>): (r: Result<nat, QueryError>)
    ensures call.Err? ==> r == Err(Rpc(call.error))
    ensures call.Ok? ==> r == match HexToUint64(call.value)
                            case Ok(v) => Ok(v)
                            case Err(e) => Err(BadQuantity(e))
    ensures r.Ok? ==> IsUint64(r.value)
  {
    match call
    case Err(e) => Err(Rpc(e))
    case Ok(hex) =>
      match HexToUint64(hex)
      case Ok(v) => Ok(v)
      case Err(e) => Err(BadQuantity(e))
  }

  /**
   * getBlockTimestamp after its rpcCall: a null block or an empty timestamp is an error of
   * its own, checked before the timestamp is decoded.
   */
  function BlockTimestamp(height: nat, call: Result<Option<BlockJson>, CallError>): (r: Result<nat, QueryError>)
    ensures call.Err? ==> r == Err(Rpc(call.error))
    ensures r == Err(EmptyBlock(height)) <==>
      call.Ok? && (call.value.None? || call.value.value.timestamp == "")
    ensures r.Ok? <==>
      call.Ok? && call.value.Some? && call.value.value.timestamp != ""
      && HexToUint64(call.value.value.timestamp).Ok?
    ensures r.Ok? ==> r.value == HexToUint64(call.value.value.timestamp).value && IsUint64(r.value)
  {
    match call
    case Err(e) => Err(Rpc(e))
    case Ok(None) => Err(EmptyBlock(height))
    case Ok(Some(b)) =>
      if b.timestamp == "" then Err(EmptyBlock(height))
      else match HexToUint64(b.timestamp)
        case Ok(v) => Ok(v)
        case Err(e) => Err(BadQuantity(e))
  }

  /** What one getBlockTimestamp call returns against `endpoint`. */
  function FetchTimestamp(endpoint: Endpoint<Option<BlockJson>>, height: nat): Result<nat, QueryError> {
    var call := Call("eth_getBlockByNumber", endpoint("eth_getBlockByNumber", BlockParams(height)),
                     MaxRetries, RetryBackoffMs);
    BlockTimestamp(height, call.outcome)
  }

  /** What getLatestBlockNumber returns against `endpoint`. */
  function FetchLatest(endpoint: Endpoint<string>): Result<nat, QueryError> {
    var call := Call("eth_blockNumber", endpoint("eth_blockNumber", []), MaxRetries, RetryBackoffMs);
    LatestNumber(call.outcome)
  }

  /** getBlockTimestamp: an eth_getBlockByNumber call for the encoded height, then the checks. */
  method GetBlockTimestamp(endpoint: Endpoint<Option<BlockJson>>, height: nat) returns (r: Result<nat, QueryError>)
    requires IsUint64(height)
    ensures r == FetchTimestamp(endpoint, height)
    ensures r.Ok? ==> IsUint64(r.value)
  {
    var params := BlockParams(height);
    var err, respBlock, _, _ := RpcCall("eth_getBlockByNumber", endpoint("eth_getBlockByNumber", params), None);
    if err.Some? {
      return Err(Rpc(err.value));
    }
    r := BlockTimestamp(height, Ok(respBlock));
  }

  /** getLatestBlockNumber: an eth_blockNumber call with no params, then hexToUint64. */
  method GetLatestBlockNumber(endpoint: Endpoint<string>) returns (r: Result<nat, QueryError>)
    ensures r == FetchLatest(endpoint)
    ensures r.Ok? ==> IsUint64(r.value)
  {
    var err, hex, _, _ := RpcCall("eth_blockNumber", endpoint("eth_blockNumber", []), "");
    if err.Some? {
      return Err(Rpc(err.value));
    }
    r := LatestNumber(Ok(hex));
  }
}
