# chain-utils: verified model of the integer core

chain-utils is a set of small Go command-line tools for Polygon. The two Bor tools call an
Ethereum JSON-RPC endpoint: one reports average block times over fixed lookbacks, the other
predicts the block height at a target time. The Heimdall tool queries a Tendermint REST API
for average block times. Most of their code is HTTP, JSON and floating point. This project
models the integer and string logic between those calls and proves what it promises:

- **EVM quantity decoding** (`hexToUint64`) and the `"0x%x"` height encoding, with the round trip
  and the exact 64-bit acceptance bound (`HexQuantity`).
- **Lookback targets** (`target.resolve`) and the Heimdall skip rule (`LookbackTarget`,
  `HeimdallAverage`).
- **Thousands separators** (`withCommas`, `withCommasUint64`, `withCommasInt64`, `absInt64`). The
  builder loop is a method proved against a right-to-left reference grouping (`Commas`,
  `Decimal`).
- **Elapsed-time decomposition** (`elapsedDHMS` for a second count and for a `time.Duration`,
  and `formatElapsed`), with Go's truncating division and the overflow of `-MinInt64` written
  out (`Elapsed`, `GoInt`).
- **The bounded JSON-RPC retry loop** (`rpcCall`). It is a method over an oracle of per-attempt
  outcomes, with a ghost trace of the attempts made and the backoffs slept (`RpcRetry`).
- **Block queries** (`getLatestBlockNumber`, `getBlockTimestamp`) and the `main` of each tool,
  with the network replaced by oracles (`BlockQueries`, `BorAverage`, `BorHardFork`,
  `HeimdallAverage`).

Go's `int64` and `uint64` are modelled on unbounded `int`. Wrap-around is explicit
(`WrapInt64`, `WrapUint64`, `Neg64`), and so are the truncating `/` and `%` (`Quot`, `Rem`).

Two behaviours of the code are worth knowing:

- `rpcCall` sleeps `retryBackoff*(attempt+1)` after every failed attempt, including the last one.
- `resolve` does not check a forward relative target against the latest height, although the
  comment in `main` says future targets are skipped. A positive delta resolves to `n + delta`,
  wrapping modulo 2^64. `main`'s own targets are all backward, so this never shows.

## Model

| member | source | states |
|---|---|---|
| `GoInt.WrapUint64` | bor_hf_block_calculator.go:106 | a `uint64(x)` conversion is in range, congruent to `x` modulo 2^64, and the identity on values already in range |
| `GoInt.WrapInt64` | bor_hf_block_calculator.go:88 | an `int64` conversion is in range, congruent to `x` modulo 2^64, and the identity on values already in range |
| `GoInt.Neg64` | bor_hf_block_calculator.go:229-234 | `int64` negation is `-x`, except for MinInt64, which it maps to itself |
| `GoInt.Quot` | bor_average_blocktime_calculator.go:293 | Go's `/` truncates toward zero: the remainder left over has the sign of the dividend and lies below the divisor |
| `GoInt.Rem` | bor_average_blocktime_calculator.go:294 | Go's `%`: `a == b*(a/b) + a%b`, and the remainder has the dividend's sign and is smaller than `b` |
| `HexQuantity.DigitValue` | bor_average_blocktime_calculator.go:257 | a hex digit of either case has a value below 16, and only `'0'` has value 0 |
| `HexQuantity.LowerDigit` | bor_average_blocktime_calculator.go:194 | the `%x` digit of a value below 16 is lower case and decodes back to that value |
| `HexQuantity.HexToUint64` | bor_average_blocktime_calculator.go:249-264 | after one optional `0x`/`0X`: empty is `EmptyHex`, a non-hex character is `InvalidHex`, and it succeeds exactly on hex digits whose value is at most 2^64-1, returning that value |
| `HexQuantity.FormatHex` | bor_average_blocktime_calculator.go:194 | `%x` renders a non-empty run of lower-case hex digits with no leading zero |
| `HexQuantity.ValueOfFormatHex` | bor_average_blocktime_calculator.go:194 | the value of the `%x` rendering of `v` is `v` |
| `HexQuantity.EncodeDecodeRoundTrip` | bor_average_blocktime_calculator.go:193-204 | for every `h < 2^64`, decoding `"0x%x"` of `h` gives back `h` |
| `HexQuantity.PrefixVariantsRoundTrip` | bor_hf_block_calculator.go:184-199 | the round trip also holds with an upper-case `0X` prefix and with no prefix |
| `HexQuantity.ValueOfUpperBound` | bor_average_blocktime_calculator.go:260 | a string of `k` hex digits has a value below 16^k |
| `HexQuantity.ValueOfLowerBound` | bor_average_blocktime_calculator.go:260 | a string of `k` hex digits with no leading zero has a value of at least 16^(k-1) |
| `HexQuantity.MaxUint64IsPow16` | bor_average_blocktime_calculator.go:260 | 16^16 is 2^64, one more than the largest `uint64` |
| `HexQuantity.AcceptsUpToSixteenDigits` | bor_average_blocktime_calculator.go:249-264 | any 1 to 16 hex digits after `0x` decode to their value |
| `HexQuantity.RejectsMoreThanSixteenDigits` | bor_average_blocktime_calculator.go:260-262 | 17 or more significant hex digits are rejected as out of range |
| `HexQuantity.PowMonotone` | bor_average_blocktime_calculator.go:260 | powers of 16 grow with the exponent |
| `HexQuantity.StripsOnePrefixOnly` | bor_average_blocktime_calculator.go:250-252 | only one prefix is stripped: `0x0x…` is an invalid hex string |
| `HexQuantity.BarePrefixIsEmpty` | bor_average_blocktime_calculator.go:253-255 | `""`, `"0x"` and `"0X"` are all the empty-string error |
| `Decimal.DecimalString` | bor_average_blocktime_calculator.go:267 | `%d` of a natural number is a non-empty digit string with no leading zero |
| `Decimal.DecimalLength` | bor_average_blocktime_calculator.go:268-269 | `%d` of `u` has at most `k` digits exactly when `u < 10^k` |
| `Decimal.DecimalValueOfString` | bor_average_blocktime_calculator.go:267 | the digits `%d` prints denote the number printed |
| `Decimal.AtMostThreeDigits` | bor_average_blocktime_calculator.go:269 | the short-cut `n <= 3` applies exactly to values below 1000 |
| `Commas.Grouped` | bor_average_blocktime_calculator.go:266-283 | the reference grouping keeps the first digit in front |
| `Commas.StripGrouped` | bor_average_blocktime_calculator.go:266-283 | removing the commas from a grouping gives back the digit string |
| `Commas.StripDigitsOnly` | bor_average_blocktime_calculator.go:269-271 | a digit string has no commas to remove |
| `Commas.StripAppend` | bor_hf_block_calculator.go:224 | comma removal distributes over concatenation |
| `Commas.GroupedShape` | bor_average_blocktime_calculator.go:273-281 | a comma stands exactly where the distance to the end is a multiple of four, so the first group has 1 to 3 digits and every later group exactly 3 |
| `Commas.GroupedStep` | bor_average_blocktime_calculator.go:278-281 | one loop step appends a comma and the next three digits to the grouping so far |
| `Commas.WithCommasUint64` | bor_hf_block_calculator.go:203-220 | the builder loop yields the reference grouping of `%d`; stripping its commas gives `%d`; below 1000 it is `%d` itself |
| `Commas.AbsInt64` | bor_hf_block_calculator.go:229-234 | the result is `v` or `-v`, and it is non-negative exactly when `v != MinInt64`; for MinInt64 it is MinInt64 |
| `Commas.WithCommasInt64` | bor_hf_block_calculator.go:222-227 | `"-"` plus the grouping of the absolute value of `v` for negative `v`, the grouping of `v` otherwise; it starts with `-` exactly when `v < 0`; stripping commas gives the signed `%d` |
| `Elapsed.GoAbs` | bor_average_blocktime_calculator.go:290-292 | `if x < 0 { x = -x }` gives the absolute value of `x`, except for MinInt64, which stays MinInt64 |
| `Elapsed.SplitSeconds` | bor_average_blocktime_calculator.go:293-298 | the div/mod chain recombines to its input (`d*86400 + h*3600 + m*60 + s`), and for a non-negative input `h < 24`, `m < 60`, `s < 60` |
| `Elapsed.ElapsedSeconds` | bor_average_blocktime_calculator.go:289-300 | the fields recombine to the absolute value of `totalSec` with `h < 24`, `m < 60`, `s < 60`; only MinInt64 gives negative fields |
| `Elapsed.ElapsedDuration` | bor_hf_block_calculator.go:236-253 | the prefix is `-` exactly for a negative duration; the fields are normalized, and their seconds are the whole seconds in the absolute value of `d` |
| `Elapsed.FormatElapsed` | heimdall_average_blocktime_calculator.go:76-89 | after the successive subtractions `days*24h + hours*1h + mins*1m + secs*1s` is the absolute value of `d` less its sub-second remainder, with `hours < 24`, `mins < 60`, `secs < 60` |
| `Elapsed.NormalizedUnique` | bor_hf_block_calculator.go:242-247 | two normalized splits with the same total number of seconds are equal |
| `Elapsed.FormatElapsedAgreesWithElapsedDuration` | heimdall_average_blocktime_calculator.go:76-89 | `formatElapsed` and the hard-fork `elapsedDHMS(Duration)` give the same four fields for every duration except MinInt64 |
| `RpcRetry.RpcCall` | bor_average_blocktime_calculator.go:206-247 | the loop's error, `out`, attempt count and backoff trace are those of the reference semantics `RunFrom`; on failure `out` keeps its old value |
| `RpcRetry.RunFromShape` | bor_hf_block_calculator.go:141-182 | from attempt `i`: at most `maxRetries` attempts; success and request errors end the call at that attempt after only retried failures; exhaustion wraps the last cause; the `k`-th sleep is `backoff*(i+k+1)`, one per failed attempt |
| `RpcRetry.StopsAtNonRetryable` | bor_average_blocktime_calculator.go:216-244 | a call that succeeds or hits a request error stops at its first attempt that is not retried |
| `RpcRetry.FirstSuccessWins` | bor_average_blocktime_calculator.go:208-244 | if attempt `k` succeeds after only retried failures, the call returns its result after `k+1` attempts, having slept `backoff*(j+1)` after each attempt `j < k` |
| `RpcRetry.AllFailuresExhaust` | bor_average_blocktime_calculator.go:224-246 | when every attempt fails in a retried way, the call makes exactly `maxRetries` attempts, sleeps `backoff*(j+1)` after each attempt `j` including the last, and its error carries the last cause |
| `RpcRetry.RequestErrorStopsImmediately` | bor_average_blocktime_calculator.go:216-219 | a request that cannot be built ends the call at once, with no retry and no sleep after it |
| `RpcRetry.SucceedsOnThirdAttempt` | bor_average_blocktime_calculator.go:208-244 | two transport failures and then a success: 3 attempts, sleeps of 600 ms and 1200 ms |
| `RpcRetry.AlwaysFailingEndpoint` | bor_average_blocktime_calculator.go:208-246 | a dead endpoint: 3 attempts, sleeps of 600, 1200 and 1800 ms, and the third cause in the error |
| `LookbackTarget.Resolve` | bor_average_blocktime_calculator.go:164-182 | a relative `delta >= 0` gives `n + delta` (mod 2^64); a relative `delta < 0` fails exactly when `-delta > n` and otherwise gives `n - (-delta)`; an absolute target gives its value exactly when `value <= n`; any other kind fails |
| `LookbackTarget.ResolvedNotInFuture` | bor_average_blocktime_calculator.go:164-182 | backward relative and absolute targets never resolve above `n` |
| `LookbackTarget.ResolveExamples` | bor_average_blocktime_calculator.go:170-174 | at height 1000: delta -2000 fails, -500 gives 500, 0 gives 1000 |
| `BlockQueries.BlockParams` | bor_average_blocktime_calculator.go:194-195 | the params are `["0x%x" of the height, false]`, and the first one decodes back to the height |
| `BlockQueries.LatestNumber` | bor_average_blocktime_calculator.go:185-191 | an rpc error is passed on; otherwise the result is `hexToUint64` of the returned quantity |
| `BlockQueries.BlockTimestamp` | bor_average_blocktime_calculator.go:196-203 | a null block or an empty timestamp is its own error, checked before decoding; it succeeds exactly when the timestamp decodes |
| `BlockQueries.GetBlockTimestamp` | bor_hf_block_calculator.go:128-139 | the method (one `rpcCall` for the encoded height, then the checks) returns what the reference `FetchTimestamp` specifies, always within `uint64` |
| `BlockQueries.GetLatestBlockNumber` | bor_hf_block_calculator.go:120-126 | the method returns what `FetchLatest` specifies: an `eth_blockNumber` call with no params, then decoding |
| `BorAverage.ResolvedHeights` | bor_average_blocktime_calculator.go:74-80 | no more heights than targets, each within `uint64` |
| `BorAverage.SelectHeights` | bor_average_blocktime_calculator.go:74-80 | the append loop yields the resolved heights in target order |
| `BorAverage.ResolvedHeightsMembers` | bor_average_blocktime_calculator.go:76-79 | a height is selected exactly when some target resolves to it |
| `BorAverage.DefaultHeights` | bor_average_blocktime_calculator.go:65-80 | below height 40000 only `n` survives; from 1120000 on all of `n`, `n-40000`, `n-280000`, `n-560000`, `n-1120000` do |
| `BorAverage.FetchInfos` | bor_average_blocktime_calculator.go:82-95 | `infos` holds exactly the selected heights whose fetch succeeded, each with its fetched timestamp; failures are skipped |
| `BorAverage.EnsureLatest` | bor_average_blocktime_calculator.go:97-112 | a timestamp already in `infos` is reused; otherwise one more fetch, recorded only on success; a returned timestamp is in the map |
| `BorAverage.MakeRow` | bor_average_blocktime_calculator.go:131-148 | the block and second differences are `int64`; within the `int64` range they are `n - h` and `nTS - ts`; the elapsed fields are normalized and add up to the absolute second difference (MinInt64 aside) |
| `BorAverage.Report` | bor_average_blocktime_calculator.go:120-155 | the output loop yields the rows of `ReportRows`: one per target that resolves, is not `n`, and was fetched, in target order |
| `BorAverage.RowsLookBackward` | bor_average_blocktime_calculator.go:130-136 | with backward targets every printed row lies below `n`, and its block difference is `n - h > 0`, so the average never divides by zero |
| `BorAverage.Run` | bor_average_blocktime_calculator.go:51-156 | `main` fails on the latest-number error, and fails on the latest timestamp only when neither fetch of it succeeded; otherwise it prints the rows of `ReportRows` over the fetched timestamps |
| `BorHardFork.PredictedHeight` | bor_hf_block_calculator.go:88-91 | the predicted height is never negative: without overflow it is `n + blocksRounded` or, below zero, 0 |
| `BorHardFork.PredictionExample` | bor_hf_block_calculator.go:88-91 | a day ahead at 2 s per block from height 1000 predicts 44200 |
| `BorHardFork.DeltaSign` | bor_hf_block_calculator.go:98-101 | the sign is a single character, `-` exactly for a negative delta |
| `BorHardFork.DeltaTimeAsWritten` | bor_hf_block_calculator.go:102 | as written, the Δtime field of a past target starts with `--`: the sign and then `elapsedDHMS`'s own prefix; a future target gets `+` |
| `BorHardFork.DoubleMinusExample` | bor_hf_block_calculator.go:236-253 | a target one to two seconds in the past prints as `--0d 0h 0m 1s` |
| `BorHardFork.DeltaTime` | bor_hf_block_calculator.go:98-102 | corrected Δtime: exactly one sign character, `-` exactly for a negative delta, with the same normalized fields, which are the whole seconds in the absolute delta |
| `BorHardFork.BlockEstimateText` | bor_hf_block_calculator.go:103 | the sign, then the grouping of the absolute block estimate; for MinInt64, whose absolute value stays negative, the sign followed by `-9,223,372,036,854,775,808` |
| `BorHardFork.PredictionText` | bor_hf_block_calculator.go:98-106 | the Δtime field is the corrected `DeltaTime`; the block estimate is the sign followed by the grouping of the absolute value of `blocksRounded` (with the MinInt64 case spelled out); the height is the grouping of the predicted height |
| `HeimdallAverage.GetJSON` | heimdall_average_blocktime_calculator.go:133-148 | a status error is reported exactly when the status is outside [200, 300); the body is decoded only otherwise |
| `HeimdallAverage.StatusCheckedBeforeDecoding` | heimdall_average_blocktime_calculator.go:143-145 | for a non-2xx status the result does not depend on the body |
| `HeimdallAverage.GetLatest` | heimdall_average_blocktime_calculator.go:91-114 | parses the latest height, then the earliest height, then the latest time; the first failure is the error, and it succeeds exactly when all three parse |
| `HeimdallAverage.GetBlockTime` | heimdall_average_blocktime_calculator.go:116-131 | a fetch error is passed on; an empty time is its own error, checked before parsing; otherwise the parsed time |
| `HeimdallAverage.TargetHeight` | heimdall_average_blocktime_calculator.go:57 | `latestHeight - lb` is an `int64`, congruent to the exact difference modulo 2^64, and equal to it when that fits |
| `HeimdallAverage.SubTime` | heimdall_average_blocktime_calculator.go:67 | `Time.Sub` is the nanosecond difference, saturated to the `int64` range |
| `HeimdallAverage.ProcessLookbacks` | heimdall_average_blocktime_calculator.go:55-73 | one line per lookback, in listed order; a lookback is skipped, with no fetch, exactly when `latest - lb < earliest`; a fetch error is reported and the loop goes on; a report carries the `formatElapsed` fields of `latest - t0`; the fetched heights are the unskipped targets in order |
| `HeimdallAverage.SkipRule` | heimdall_average_blocktime_calculator.go:57-58 | without `int64` overflow the skip test is `latest - lb < earliest` |
| `HeimdallAverage.Run` | heimdall_average_blocktime_calculator.go:37-74 | `main` panics exactly on a `getLatest` error; otherwise it prints one line per lookback in order, skips exactly when `latest - lb < earliest` without fetching, reports a `getBlockTime` error for that lookback and goes on, and otherwise reports the `formatElapsed` fields of `latestTime.Sub(t0)` |

## Findings

| source | as written | input that shows it | evidently intended | confidence | as-written member | corrected member |
|---|---|---|---|---|---|---|
| bor_hf_block_calculator.go:98-102 | the Δtime line prints `sign` and then `elapsedDHMS(delta)`, which adds its own `-` for a negative delta (lines 248-251) | any target time in the past, e.g. one second before now: `--0d 0h 0m 1s` | one minus sign, as on the Estimated Δblk line: `-0d 0h 0m 1s` | high; not executed | `BorHardFork.DeltaTimeAsWritten` | `BorHardFork.DeltaTime` |

## Left out

- HTTP and JSON are not modelled. Request construction, `client.Do`, status codes and body decoding become oracles. `rpcCall` sees one outcome per attempt. `getJSON` sees an `Exchange` that records whether the body decoded. JSON marshalling of requests is not modelled.
- `time.Sleep` is not modelled as time passing. The backoffs are recorded in a ghost trace, in milliseconds.
- Floating point is left out: average block time, `math.NaN`, `math.Round`, `delta.Seconds()/avg` and `math.Abs`. The rounded block estimate enters `BorHardFork` as an `int64` parameter, and the time delta as an `int64` count of nanoseconds. The `(%s s)` seconds column of the Δtime line is not modelled.
- Elapsed.ElapsedDuration: `int64(d.Seconds())` is modelled as truncating division of the nanosecond count. That is an approximation of the float conversion.
- RFC 3339 parsing and formatting are left out: `time.Parse`, `isoTime`, `parseTarget`, `Time.Format`. `time.Parse` and `strconv.ParseInt` are oracle parameters (`TimeParser`, `IntParser`), and a time is a count of nanoseconds.
- HexQuantity.HexToUint64: `big.Int.SetString` sign handling is not modelled. Its library behaviour is not visible in the source, so the model rejects a leading `+` or `-` (for example `-0`) as invalid hex.
- `fmt.Printf` output, `flag` parsing, contexts and timeouts, `os.Exit` and `panic` are reduced to outcome datatypes (`BorAverage.Outcome`, `HeimdallAverage.Outcome`, report rows and lines).
- BorAverage.Run: the endpoint is assumed to answer the same way each time a request is sent. A second fetch of the latest block's timestamp is a separate oracle (`refetch`). The latest number comes in as `FetchLatest`'s result, and each timestamp fetch as `FetchTimestamp`'s.
- BorAverage.Report: the `Δ%d` label and the average column are not modelled. A row keeps the block difference, the second difference and the `elapsedDHMS` fields.
- heimdall_hf_block_calculator.go and heimdall_block_time_estimator.go are not part of this model. Each is a network fetch, float arithmetic and printing around a single sign test.
- HeimdallAverage.Run: the four lookbacks are fetched through one block oracle, answering one `Exchange` per height.
