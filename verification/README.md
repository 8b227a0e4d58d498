# Token-bucket admission gate

This project is a Dafny model of the rate limiter in a small FastAPI service
(`app/main.py`). The service serves one HTML page and a `/health` check. Every
other request must pass a token bucket. The bucket is shared by all requests,
and each admitted request pays one token. When the bucket cannot pay, the
middleware answers `429 Too Many Requests` with `Retry-After: 1` and the page
handler is never called.

The model has five modules:

- `RealArith` (`real_arith.dfy`): a few facts about multiplying and dividing
  reals, used by the proofs below.
- `TokenBucket` (`token_bucket.dfy`): the bucket (`rate`, `capacity`,
  `tokens`, `last`), its constructor and `Consume`. `Consume` refills lazily:
  it adds `(now - last) * rate`, clamps the sum at `capacity`, moves `last` to
  `now`, and only then decides.
- `BucketRuns` (`bucket_runs.dfy`): a bucket run over a sequence of calls.
  The lock around `consume` serialises the calls, and the clock is read inside
  the lock, so the calls reach the bucket one at a time, in clock order. This
  module proves the burst and window-bound properties.
- `AdmissionGate` (`admission_gate.dfy`): the middleware. It holds one bucket
  and a list of exempt paths, and handles one request (`Dispatch`) or a
  sequence of them (`Serve`).
- `AppConfig` (`app_config.dfy`): the middleware as the service wires it up:
  rate 15, capacity 15, and `/health` exempt.

The clock (`time.monotonic()`) is a parameter `now` of every operation that
reads it. The operations are total, so they compute a result for any `now`,
any rate and any amount, as the Python code does. The properties that need a
monotonic clock, a non-negative rate or a non-negative amount take these as
hypotheses.

`Earned(seconds, rate)` is `seconds * rate`, the tokens earned in a stretch of
clock time. Every bound below that mentions `Earned(T, rate)` means
`T * rate`.

Code and documentation disagree about the limit; the model follows the code.
The module docstring (line 6), the comment at the wiring site (line 80) and
the served page (line 135) all say "10 requests per second". The middleware's
default rate and capacity are 10 (line 60), but the wiring passes 15 and 15
(line 81). `AppConfig.ConfiguredExceedsDocumentedLimit` shows that the running
service forwards 15 simultaneous requests. With the defaults, the bucket's
burst size and refill rate both equal the documented 10:
`AppConfig.DefaultsMatchDocumentedLimit` shows that 10 of 11 simultaneous
requests are forwarded. Even so, the defaults do not cap a one-second window
at 10 requests. Such a window may see up to `capacity + rate` = 20, the bound
`AdmissionGate.GateWindowBound` gives at `T = 1`, and
`AppConfig.DefaultsAdmitTwentyInOneSecond` shows 20 requests forwarded within
one second.

The rejection always carries `Retry-After: 1`, whatever the rate. One second
is guaranteed to be enough for a retry when the bucket refills at least one
token per second and can hold one (`AdmissionGate.RetryAfterSuffices`).
Below either threshold, a retry one second after a refusal by a drained
bucket is refused again (`AdmissionGate.RetryAfterInsufficient`). The
wired-up rate and capacity of 15 meet both thresholds.

Status 429 is the one defined in section 4 of RFC 6585. `Retry-After` is the
response field defined in section 10.2.3 of RFC 9110, here always the
delay-seconds value `1`.

## Model

| member | source | states |
|---|---|---|
| `TokenBucket.New` | app/main.py:40-44 | A new bucket stores the rate, capacity and clock reading unchanged and starts full. It satisfies `0 <= tokens <= capacity` exactly when the capacity is non-negative. |
| `TokenBucket.Refilled` | app/main.py:49-52 | The refilled quota never exceeds the capacity. On a monotonic clock with a non-negative rate it never falls below what a valid bucket held. |
| `TokenBucket.RefilledIsClampedSum` | app/main.py:52 | The refilled quota is at most the tokens held plus the tokens earned since `last`. It equals either the capacity or that sum. |
| `TokenBucket.Consume` | app/main.py:47-57 | The call is admitted exactly when the refilled quota covers `amount`. What remains plus what was paid equals the refilled quota, so nothing is deducted on refusal. `last` becomes `now` whether or not the call is admitted. Rate and capacity never change. `0 <= tokens <= capacity` is preserved given a non-negative rate, a monotonic clock and a non-negative amount. |
| `TokenBucket.RefilledAtSameInstant` | app/main.py:49-52 | A call at the instant of the last refill earns nothing: the quota is exactly the tokens held. |
| `TokenBucket.RefillsToCapacity` | app/main.py:49-52 | A bucket left idle for `capacity / rate` seconds after its last refill is full again, whatever it held, given a positive rate. |
| `TokenBucket.RecoveryAfterRefillInterval` | app/main.py:49-56 | A bucket holding any non-negative quota, even zero, admits a one-token call once `1/rate` seconds have passed. This needs a positive rate and a capacity of at least one. |
| `BucketRuns.Run` | app/main.py:47-57 | Running serialised calls gives one answer per call. It keeps rate and capacity, leaves `last` at the last call's clock reading, and preserves `0 <= tokens <= capacity` on a monotonic clock with non-negative amounts. |
| `BucketRuns.ConsumePaysFromPotential` | app/main.py:49-57 | A bucket's potential is its tokens less `last * rate`. One call lowers the potential by at least what it pays. What remains is at most the potential of a full bucket at the call's time. |
| `BucketRuns.Conservation` | app/main.py:47-57 | Over any run, the tokens paid plus the final potential are at most the initial potential. They are also at most the potential of a full bucket at the first call. |
| `BucketRuns.WindowBound` | app/main.py:47-57 | Calls whose clock readings lie in a window of length `T` pay at most `capacity + T * rate` tokens in total. This assumes a valid start, a non-negative rate, a monotonic clock and non-negative amounts. |
| `BucketRuns.UnitWindowBound` | app/main.py:71 | With one token per call, at most `capacity + T * rate` calls in a window of length `T` are admitted. |
| `BucketRuns.BurstPointwise` | app/main.py:52-56 | In a burst at the instant of the last refill, call `i` is admitted exactly when `i < floor(tokens / amount)`. |
| `BucketRuns.BurstAdmitsFloor` | app/main.py:40-57 | At the instant of the last refill (for a new bucket, its creation), a burst from a bucket holding `tokens` (a full one holds `capacity`) admits exactly the first `floor(tokens / amount)` calls and refuses the next and every later one. `n` simultaneous calls admit `min(n, floor(tokens / amount))`. |
| `BucketRuns.BurstAfterRefill` | app/main.py:47-57 | A burst at any instant `now` after the last refill, on a monotonic clock with a non-negative rate, admits exactly the first `floor(q / amount)` calls, where `q` is the quota refilled up to `now`; `n` such calls admit `min(n, floor(q / amount))`. After an idle period that has refilled the bucket, `q` is the capacity. |
| `AdmissionGate.NewMiddleware` | app/main.py:60-63 | The middleware's bucket has the given rate and capacity, defaulting to 10 and 10, and starts full. A path is exempt exactly when it is on the given list; an omitted list exempts nothing. |
| `AdmissionGate.Dispatch` | app/main.py:65-77 | An exempt path is forwarded and the middleware is left unchanged, without reading the clock. Any other path pays one token, and is forwarded exactly when the refilled quota covers one token. Otherwise the answer is 429 with body "Too Many Requests" and `Retry-After: 1`. The exempt list never changes, and bucket validity is preserved on a monotonic clock. |
| `AdmissionGate.RetryAfterInsufficient` | app/main.py:71-76 | When the rate is below one token per second or the capacity below one, a drained bucket refuses a request and refuses it again when it is retried one second later. |
| `AdmissionGate.RetryAfterSuffices` | app/main.py:71-76 | A refused request retried at least one second later, with nothing in between, is forwarded. This needs a rate of at least one token per second and a capacity of at least one. |
| `AdmissionGate.Serve` | app/main.py:65-77 | Serving requests in lock order gives one response per request. Every exempt request is forwarded, and every response is either a forward or the 429 refusal. The exempt list is unchanged. |
| `AdmissionGate.Metered` | app/main.py:66-71 | The bucket sees at most one call per request, and each call costs one token. |
| `AdmissionGate.ServeIsRun` | app/main.py:65-77 | Serving requests leaves the bucket where a run over the non-exempt requests leaves it. The responses to the non-exempt requests are, in order, the run's verdicts on its calls: forwarded where the call is admitted, the 429 refusal where it is not. So the non-exempt requests forwarded are exactly the calls that run admits, and their number is the run's count of admissions. |
| `AdmissionGate.ServeUnexempt` | app/main.py:67-77 | When no request is exempt, each response is forwarded exactly when the bucket admits the corresponding call, and is the 429 refusal otherwise. |
| `AdmissionGate.MeteredWindowBound` | app/main.py:71 | Requests in clock order within a window of length `T` make the bucket admit at most `capacity + T * rate` metered calls. |
| `AdmissionGate.GateWindowBound` | app/main.py:65-77 | Within any window of length `T`, at most `capacity + T * rate` non-exempt requests are forwarded, however many arrive. |
| `AdmissionGate.GateBurst` | app/main.py:71-76 | `n` simultaneous requests for a metered path, at the instant of the last refill: the first `floor(tokens)` are forwarded and every later one is refused with 429. |
| `AdmissionGate.GateBurstAt` | app/main.py:65-77 | `n` simultaneous requests for a metered path at any later instant `now`: the first `floor(q)` are forwarded, where `q` is the quota refilled up to `now`, and every later one is refused with 429. |
| `AdmissionGate.ServeAppend` | app/main.py:65-77 | Serving one sequence of requests and then another gives the responses and final state of serving their concatenation. |
| `AdmissionGate.ServeMonotone` | app/main.py:47-77 | Serving requests in clock order keeps the bucket within `0 <= tokens <= capacity`, keeps its rate and capacity, and leaves its last refill no later than the last arrival. |
| `AdmissionGate.LaterWindowBound` | app/main.py:65-77 | After any history in clock order, the metered requests forwarded within a later window of length `T` number at most `capacity + T * rate`. |
| `AppConfig.App` | app/main.py:81 | The service's middleware has rate 15 and capacity 15, starts full, and exempts exactly `/health`. |
| `AppConfig.HealthNeverLimited` | app/main.py:66-68 | However many health checks arrive and whatever the bucket holds, the service forwards every one and leaves the middleware exactly as it was. |
| `AppConfig.StartupBurst` | app/main.py:81 | Of 16 simultaneous page requests right after startup, the first 15 are forwarded and the 16th gets 429 with `Retry-After: 1`. |
| `AppConfig.ConfiguredExceedsDocumentedLimit` | app/main.py:6 | The running service forwards 15 of 16 simultaneous requests, more than the documented 10 per second. |
| `AppConfig.DefaultsMatchDocumentedLimit` | app/main.py:60 | With the default rate and capacity, 10 of 11 simultaneous requests are forwarded, the documented number as a burst size. |
| `AppConfig.DefaultsAdmitTwentyInOneSecond` | app/main.py:60 | With the defaults, a burst of 10 at `t` and another of 10 at `t + 1` are all forwarded, so 20 requests pass within one second despite the documented 10 per second. |
| `AppConfig.RecoveryAfterStartupBurst` | app/main.py:49-56 | After the startup burst, the page is forwarded again at any time at least one fifteenth of a second later, and so at the one-second `Retry-After`. |
| `AppConfig.BurstAfterIdle` | app/main.py:81 | Whatever the service has served since startup, once no request has arrived for one second, 15 of 16 simultaneous page requests are forwarded and the 16th gets 429. |
| `AppConfig.AppWindowBound` | app/main.py:81 | After any history of requests in clock order since startup, in any later window of length `T` the running service forwards at most `15 + 15 * T` requests other than health checks. |

## Left out

- The `asyncio.Lock`: the model takes the calls in lock order, as a sequence. Interleavings of the code outside the lock are not modelled. They do not touch the bucket.
- `time.monotonic()`: a parameter. Monotonicity is a hypothesis of the lemmas, not a precondition of the operations.
- Floating point: rates, tokens and times are reals. IEEE rounding of `elapsed * rate` and of the subtraction is not modelled.
- `float(rate)` and `float(capacity)`: modelled as the identity on reals. Arguments that `float` rejects are outside the model.
- `exempt_paths or []`: modelled as an optional list. Other falsy values of that argument, such as an empty string, are not modelled.
- The warning log line and the client host it names (lines 73-74): they have no effect on the decision or the bucket.
- `call_next`, the page and health handlers, the HTML, FastAPI/Starlette plumbing and uvicorn: forwarding is the `Forwarded` response, and the handlers' own responses are not modelled.
- Exempt requests carry a clock reading in `Request` only for uniformity; `Dispatch`, like the code, never reads it.
- BurstAfterIdle, AppWindowBound and LaterWindowBound: their clock-order hypotheses (`RequestsMonotone`, `RequestsInWindow`, `LastArrival`) read the clock of exempt requests too. So `BurstAfterIdle` asks for one second with no request at all, health checks included, although health checks never touch the bucket.
