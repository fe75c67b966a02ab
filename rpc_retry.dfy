/**
 * rpcCall of both bor tools: a JSON-RPC POST retried up to `maxRetries` times with a
 * linear backoff. The network is replaced by an oracle that says what attempt `i`
 * (0-indexed) observes; sleeping is recorded in a ghost trace of backoff amounts.
 */
module RpcRetry {
  import opened Wrappers

  const MaxRetries: nat := 3
  /** retryBackoff, in milliseconds. */
  const RetryBackoffMs: nat := 600

  /** What one pass through the loop body observes. */
  datatype Attempt<T> =
    | RequestFailed(cause: string)    // building the HTTP request failed
    | TransportFailed(cause: string)  // client.Do failed
    | DecodeFailed(cause: string)     // the body did not decode as a response envelope
    | RpcFailed(message: string)      // the envelope carried an `error` object
    | Succeeded(result: T)            // the envelope decoded with no `error`
  {
    /** The failures after which the loop sleeps and tries again. */
    predicate Retryable() {
      TransportFailed? || DecodeFailed? || RpcFailed?
    }

    /** The error kept in `lastErr` after a retryable failure. */
    function Cause(): string
      requires Retryable()
    {
      match this
      case TransportFailed(c) => c
      case DecodeFailed(c) => c
      case RpcFailed(m) => m
    }
  }

  datatype CallError =
    | RequestError(cause: string)  // returned at once, without retrying
    | Exhausted(rpcMethod: string, attempts: nat, last: Option<string>)  // "rpc %s failed after %d attempts: %v"

  /** The outcome of a call with the number of attempts made and the backoffs slept. */
  datatype Run<T> = Run(outcome: Result<T, CallError>, attempts: nat, sleeps: seq<nat>)

  /** Reference semantics of the retry loop, from attempt `i` with `lastErr` so far. */
  function RunFrom<T>(rpcMethod: string, oracle: nat -> Attempt<T>, maxRetries: nat, backoff: nat,
                      i: nat, lastErr: Option<string>): Run<T>
    decreases maxRetries - i
  {
    if i >= maxRetries then Run(Err(Exhausted(rpcMethod, maxRetries, lastErr)), i, [])
    else
      match oracle(i)
      case RequestFailed(c) => Run(Err(RequestError(c)), i + 1, [])
      case Succeeded(v) => Run(Ok(v), i + 1, [])
      case _ =>
        var rest := RunFrom(rpcMethod, oracle, maxRetries, backoff, i + 1, Some(oracle(i).Cause()));
        Run(rest.outcome, rest.attempts, [backoff * (i + 1)] + rest.sleeps)
  }

  /** The call as the source makes it: from attempt 0, with no error yet. */
  function Call<T>(rpcMethod: string, oracle: nat -> Attempt<T>, maxRetries: nat, backoff: nat): Run<T> {
    RunFrom(rpcMethod, oracle, maxRetries, backoff, 0, None)
  }

  /**
   * rpcCall: on success the result is written to `out` and no error is returned; otherwise
   * `out` keeps its previous value and the error is returned. `attempts` and `sleeps` trace
   * the attempts made and the backoff slept after each failure.
   */
  method RpcCall<T>(rpcMethod: string, oracle: nat -> Attempt<T>, out0: T)
    returns (err: Option<CallError>, out: T, ghost attempts: nat, ghost sleeps: seq<nat>)
    ensures var run := Call(rpcMethod, oracle, MaxRetries, RetryBackoffMs);
      && (run.outcome.Ok? ==> err == None && out == run.outcome.value)
      && (run.outcome.Err? ==> err == Some(run.outcome.error) && out == out0)
    ensures var run := Call(rpcMethod, oracle, MaxRetries, RetryBackoffMs);
      attempts == run.attempts && sleeps == run.sleeps
  {
    var lastErr: Option<string> := None;
    out := out0;
    sleeps := [];
    var attempt := 0;
    while attempt < MaxRetries
      invariant attempt <= MaxRetries
      invariant var rest := RunFrom(rpcMethod, oracle, MaxRetries, RetryBackoffMs, attempt, lastErr);
        Call(rpcMethod, oracle, MaxRetries, RetryBackoffMs) == Run(rest.outcome, rest.attempts, sleeps + rest.sleeps)
    {
      var outcome := oracle(attempt);
      if outcome.RequestFailed? {
        err, attempts := Some(RequestError(outcome.cause)), attempt + 1;
        return;
      } else if outcome.Succeeded? {
        out := outcome.result;
        err, attempts := None, attempt + 1;
        return;
      }
      ghost var rest := RunFrom(rpcMethod, oracle, MaxRetries, RetryBackoffMs, attempt + 1, Some(outcome.Cause()));
      ghost var backoff := RetryBackoffMs * (attempt + 1);
      assert sleeps + ([backoff] + rest.sleeps) == (sleeps + [backoff]) + rest.sleeps;
      lastErr := Some(outcome.Cause());
      sleeps := sleeps + [backoff];
      attempt := attempt + 1;
    }
    err, attempts := Some(Exhausted(rpcMethod, MaxRetries, lastErr)), attempt;
  }

  /** Every attempt before `k`, from `i` on, failed in a way that is retried. */
  predicate RetriedFrom<T>(oracle: nat -> Attempt<T>, i: nat, k: nat) {
    forall j :: i <= j < k ==> oracle(j).Retryable()
  }

  /**
   * The shape of every run from attempt `i`: it stops at the first attempt that is not a
   * retryable failure, or after `maxRetries` attempts, and it sleeps `backoff * (j + 1)`
   * after each failed attempt `j`, the last one included.
   */
  lemma {:induction false} RunFromShape<T>(rpcMethod: string, oracle: nat -> Attempt<T>, maxRetries: nat,
                                           backoff: nat, i: nat, lastErr: Option<string>)
    requires i <= maxRetries
    ensures var r := RunFrom(rpcMethod, oracle, maxRetries, backoff, i, lastErr);
      && i <= r.attempts <= maxRetries
      && (r.outcome.Err? && r.outcome.error.Exhausted? ==>
            r.attempts == maxRetries && RetriedFrom(oracle, i, maxRetries)
            && r.outcome.error == Exhausted(rpcMethod, maxRetries,
                 if i == maxRetries then lastErr else Some(oracle(maxRetries - 1).Cause()))
            && |r.sleeps| == maxRetries - i)
      && (r.outcome.Ok? ==>
            i < r.attempts && oracle(r.attempts - 1) == Succeeded(r.outcome.value)
            && RetriedFrom(oracle, i, r.attempts - 1) && |r.sleeps| == r.attempts - 1 - i)
      && (r.outcome.Err? && r.outcome.error.RequestError? ==>
            i < r.attempts && oracle(r.attempts - 1) == RequestFailed(r.outcome.error.cause)
            && RetriedFrom(oracle, i, r.attempts - 1) && |r.sleeps| == r.attempts - 1 - i)
      && forall k :: 0 <= k < |r.sleeps| ==> r.sleeps[k] == backoff * (i + k + 1)
    decreases maxRetries - i
  {
    if i < maxRetries && oracle(i).Retryable() {
      RunFromShape(rpcMethod, oracle, maxRetries, backoff, i + 1, Some(oracle(i).Cause()));
    }
  }

  /** A call that succeeds or hits a request error stops at an attempt that is not retryable. */
  lemma StopsAtNonRetryable<T>(rpcMethod: string, oracle: nat -> Attempt<T>, maxRetries: nat, backoff: nat)
    ensures var r := Call(rpcMethod, oracle, maxRetries, backoff);
      r.outcome.Ok? || r.outcome.error.RequestError? ==>
        0 < r.attempts <= maxRetries && !oracle(r.attempts - 1).Retryable()
  {
    RunFromShape(rpcMethod, oracle, maxRetries, backoff, 0, None);
  }

  /**
   * If attempt `k` below `maxRetries` succeeds after only retryable failures, the call returns
   * that attempt's result after `k + 1` attempts, having slept `backoff * (j + 1)` after each
   * failed attempt `j`. (`RunFromShape` gives the converse.)
   */
  lemma FirstSuccessWins<T>(rpcMethod: string, oracle: nat -> Attempt<T>, maxRetries: nat, backoff: nat, k: nat)
    requires k < maxRetries && oracle(k).Succeeded? && RetriedFrom(oracle, 0, k)
    ensures var r := Call(rpcMethod, oracle, maxRetries, backoff);
      && r.outcome == Ok(oracle(k).result)
      && r.attempts == k + 1
      && |r.sleeps| == k
      && forall j :: 0 <= j < k ==> r.sleeps[j] == backoff * (j + 1)
  {
    var r := Call(rpcMethod, oracle, maxRetries, backoff);
    RunFromShape(rpcMethod, oracle, maxRetries, backoff, 0, None);
    assert !oracle(k).Retryable();
    StopsAtNonRetryable(rpcMethod, oracle, maxRetries, backoff);
  }

  /**
   * When every one of the `maxRetries` attempts fails with a retryable error, the call makes
   * exactly `maxRetries` attempts and returns an exhausted error carrying the last cause, after
   * sleeping `backoff * (j + 1)` following each attempt `j`.
   */
  lemma AllFailuresExhaust<T>(rpcMethod: string, oracle: nat -> Attempt<T>, maxRetries: nat, backoff: nat)
    requires maxRetries > 0 && RetriedFrom(oracle, 0, maxRetries)
    ensures var r := Call(rpcMethod, oracle, maxRetries, backoff);
      && r.outcome == Err(Exhausted(rpcMethod, maxRetries, Some(oracle(maxRetries - 1).Cause())))
      && r.attempts == maxRetries
      && |r.sleeps| == maxRetries
      && forall j :: 0 <= j < maxRetries ==> r.sleeps[j] == backoff * (j + 1)
  {
    var r := Call(rpcMethod, oracle, maxRetries, backoff);
    RunFromShape(rpcMethod, oracle, maxRetries, backoff, 0, None);
    StopsAtNonRetryable(rpcMethod, oracle, maxRetries, backoff);
  }

  /** A request that cannot be built ends the call at once: no retry and no sleep after it. */
  lemma RequestErrorStopsImmediately<T>(rpcMethod: string, oracle: nat -> Attempt<T>, maxRetries: nat, backoff: nat, k: nat)
    requires k < maxRetries && oracle(k).RequestFailed? && RetriedFrom(oracle, 0, k)
    ensures var r := Call(rpcMethod, oracle, maxRetries, backoff);
      && r.outcome == Err(RequestError(oracle(k).cause))
      && r.attempts == k + 1
      && |r.sleeps| == k
  {
    var r := Call(rpcMethod, oracle, maxRetries, backoff);
    RunFromShape(rpcMethod, oracle, maxRetries, backoff, 0, None);
    assert !oracle(k).Retryable();
    StopsAtNonRetryable(rpcMethod, oracle, maxRetries, backoff);
  }

  /** Two transport failures and then a success: the third attempt's result, after 600 and 1200 ms. */
  lemma SucceedsOnThirdAttempt<T>(oracle: nat -> Attempt<T>, rpcMethod: string)
    requires oracle(0).TransportFailed? && oracle(1).TransportFailed? && oracle(2).Succeeded?
    ensures Call(rpcMethod, oracle, MaxRetries, RetryBackoffMs) == Run(Ok(oracle(2).result), 3, [600, 1200])
  {
    assert RetriedFrom(oracle, 0, 2);
    FirstSuccessWins(rpcMethod, oracle, MaxRetries, RetryBackoffMs, 2);
    RunFromShape(rpcMethod, oracle, MaxRetries, RetryBackoffMs, 0, None);
  }

  /** An endpoint that always fails: three attempts, then 600 + 1200 + 1800 ms of backoff in all. */
  lemma AlwaysFailingEndpoint<T>(oracle: nat -> Attempt<T>, rpcMethod: string)
    requires forall j :: oracle(j).TransportFailed?
    ensures var r := Call(rpcMethod, oracle, MaxRetries, RetryBackoffMs);
      && r.outcome == Err(Exhausted(rpcMethod, 3, Some(oracle(2).cause)))
      && r.attempts == 3
      && r.sleeps == [600, 1200, 1800]
  {
    AllFailuresExhaust(rpcMethod, oracle, MaxRetries, RetryBackoffMs);
  }
}
