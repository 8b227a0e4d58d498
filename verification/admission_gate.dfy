/**
 The rate-limiting middleware that guards every HTTP request of the service.

 A request whose path is on the exempt list is forwarded to its handler
 without touching the bucket and without reading the clock. Every other
 request pays one token; when the bucket cannot pay, the handler is not
 called and the client receives `429 Too Many Requests` with a
 `Retry-After: 1` header. Status 429 is defined in section 4 of RFC 6585
 and the `Retry-After` field in section 10.2.3 of RFC 9110. The handlers
 themselves are outside this model: forwarding is represented by the
 `Forwarded` response.
 */
module AdmissionGate {
  import opened RealArith
  import opened TokenBucket
  import opened BucketRuns

  /** An optional value, for the constructor argument that may be omitted. */
  datatype Option<T> = None | Some(value: T)

  /** Rate and capacity used when the middleware is created without them. */
  const DefaultRate: real := 10.0
  const DefaultCapacity: real := 10.0

  /** Every metered request costs one token. */
  const RequestCost: real := 1.0

  /** The status, body and `Retry-After` value of a refusal. */
  const TooManyRequests: int := 429
  const RejectionBody: string := "Too Many Requests"
  const RetryAfterSeconds: string := "1"

  /** What the middleware does with a request: pass it on to the handler, or
      answer it itself with a refusal. */
  datatype Response = Forwarded | Rejected(status: int, body: string, retryAfter: string)

  /** The one refusal the middleware ever produces. */
  const Rejection: Response := Rejected(TooManyRequests, RejectionBody, RetryAfterSeconds)

  /** The middleware: one bucket shared by all metered requests, and the
      paths that bypass it. */
  datatype Middleware = Middleware(bucket: Bucket, exemptPaths: seq<string>)

  /** An incoming request: its URL path and the clock reading the bucket
      would take for it. */
  datatype Request = Request(path: string, now: real)

  /** The response to one request and the middleware afterwards. */
  datatype Handled = Handled(response: Response, middleware: Middleware)

  /** Creates the middleware at time `now`. The bucket starts full. An
      omitted exempt list means that no path is exempt. */
  function NewMiddleware(now: real, rate: real := DefaultRate, capacity: real := DefaultCapacity,
                         exemptPaths: Option<seq<string>> := None): (m: Middleware)
    ensures m.bucket.rate == rate && m.bucket.capacity == capacity && m.bucket.last == now
    ensures Full(m.bucket)
    ensures forall p :: p in m.exemptPaths <==> exemptPaths.Some? && p in exemptPaths.value
  {
    Middleware(New(rate, capacity, now), if exemptPaths.Some? then exemptPaths.value else [])
  }

  /** The request bypasses the bucket. */
  predicate Exempt(m: Middleware, path: string) {
    path in m.exemptPaths
  }

  /** Handles one request at clock reading `now`. */
  function Dispatch(m: Middleware, path: string, now: real): (h: Handled)
    ensures h.middleware.exemptPaths == m.exemptPaths
    // an exempt path is always forwarded and leaves the bucket as it was
    ensures Exempt(m, path) ==> h.response == Forwarded && h.middleware == m
    // any other path pays one token, and is refused exactly when it cannot
    ensures !Exempt(m, path) ==> h.middleware.bucket == Consume(m.bucket, now, RequestCost).bucket
    ensures !Exempt(m, path) ==> (h.response == Forwarded <==> RequestCost <= Refilled(m.bucket, now))
    ensures h.response == Forwarded || h.response == Rejection
    ensures Valid(m.bucket) && 0.0 <= m.bucket.rate && m.bucket.last <= now ==> Valid(h.middleware.bucket)
  {
    if path in m.exemptPaths then
      Handled(Forwarded, m)
    else
      var o := Consume(m.bucket, now, RequestCost);
      Handled(if o.admitted then Forwarded else Rejection, m.(bucket := o.bucket))
  }

  /** A refused request retried one second later, with nothing else
      arriving in between, is forwarded, provided the bucket refills at
      least one token per second and can hold one. The `Retry-After: 1`
      hint is therefore sufficient at such rates. */
  lemma RetryAfterSuffices(m: Middleware, path: string, now: real, later: real)
    requires Valid(m.bucket) && 1.0 <= m.bucket.rate && 1.0 <= m.bucket.capacity
    requires m.bucket.last <= now && now + 1.0 <= later
    requires Dispatch(m, path, now).response == Rejection
    ensures Dispatch(Dispatch(m, path, now).middleware, path, later).response == Forwarded
  {
    var b := Dispatch(m, path, now).middleware.bucket;
    assert 1.0 / b.rate <= 1.0 by {
      QuotientAgainstOne(1.0, b.rate);
    }
    RecoveryAfterRefillInterval(b, later);
  }

  /** The results of serving a sequence of requests in order. */
  datatype Served = Served(responses: seq<Response>, final: Middleware)

  /** The `Retry-After: 1` hint is not enough below one token per second,
      or when the bucket cannot hold a whole token: a drained bucket refuses
      a request, and refuses it again when it is retried one second later. */
  lemma RetryAfterInsufficient(m: Middleware, path: string, now: real)
    requires !Exempt(m, path) && Valid(m.bucket) && 0.0 <= m.bucket.rate
    requires m.bucket.last <= now && Refilled(m.bucket, now) == 0.0
    requires m.bucket.rate < 1.0 || m.bucket.capacity < 1.0
    ensures Dispatch(m, path, now).response == Rejection
    ensures Dispatch(Dispatch(m, path, now).middleware, path, now + 1.0).response == Rejection
  {
    var b := Dispatch(m, path, now).middleware.bucket;
    assert Earned(now + 1.0 - b.last, b.rate) == b.rate;
    RefilledIsClampedSum(b, now + 1.0);
  }

  /** Serves the requests in the order in which they take the bucket's lock. */
  function Serve(m: Middleware, requests: seq<Request>): (r: Served)
    decreases |requests|
    ensures |r.responses| == |requests|
    ensures r.final.exemptPaths == m.exemptPaths
    ensures forall i :: 0 <= i < |requests| && Exempt(m, requests[i].path) ==> r.responses[i] == Forwarded
    ensures forall i :: 0 <= i < |requests| ==> r.responses[i] == Forwarded || r.responses[i] == Rejection
  {
    if requests == [] then Served([], m)
    else
      var h := Dispatch(m, requests[0].path, requests[0].now);
      var rest := Serve(h.middleware, requests[1..]);
      Served([h.response] + rest.responses, rest.final)
  }

  /** The bucket calls made by the requests that are not exempt, in order. */
  function Metered(exemptPaths: seq<string>, requests: seq<Request>): (calls: seq<Call>)
    ensures |calls| <= |requests|
    ensures UnitCost(calls)
  {
    if requests == [] then []
    else if requests[0].path in exemptPaths then Metered(exemptPaths, requests[1..])
    else [Call(requests[0].now, RequestCost)] + Metered(exemptPaths, requests[1..])
  }

  /** The number of metered requests that were forwarded. */
  function MeteredForwarded(exemptPaths: seq<string>, requests: seq<Request>, responses: seq<Response>): nat
    requires |responses| == |requests|
  {
    if requests == [] then 0
    else
      (if requests[0].path !in exemptPaths && responses[0] == Forwarded then 1 else 0)
      + MeteredForwarded(exemptPaths, requests[1..], responses[1..])
  }

  /** The responses to the requests that are not exempt, in order. */
  function MeteredResponses(exemptPaths: seq<string>, requests: seq<Request>, responses: seq<Response>): seq<Response>
    requires |responses| == |requests|
  {
    if requests == [] then []
    else if requests[0].path in exemptPaths then MeteredResponses(exemptPaths, requests[1..], responses[1..])
    else [responses[0]] + MeteredResponses(exemptPaths, requests[1..], responses[1..])
  }

  /** The response the middleware gives for each of the bucket's answers. */
  function Verdicts(admitted: seq<bool>): seq<Response> {
    if admitted == [] then []
    else [if admitted[0] then Forwarded else Rejection] + Verdicts(admitted[1..])
  }

  /** Serving requests is running the bucket over the metered ones: the
      final bucket is the run's, and the response to the `k`-th metered
      request is the run's verdict on the `k`-th call, so the metered
      requests forwarded are exactly the calls the run admits. */
  lemma {:induction false} ServeIsRun(m: Middleware, requests: seq<Request>)
    decreases |requests|
    ensures Serve(m, requests).final == m.(bucket := Run(m.bucket, Metered(m.exemptPaths, requests)).final)
    ensures MeteredResponses(m.exemptPaths, requests, Serve(m, requests).responses)
            == Verdicts(Run(m.bucket, Metered(m.exemptPaths, requests)).admitted)
    ensures MeteredForwarded(m.exemptPaths, requests, Serve(m, requests).responses)
            == Count(Run(m.bucket, Metered(m.exemptPaths, requests)).admitted)
  {
    if requests != [] {
      var h := Dispatch(m, requests[0].path, requests[0].now);
      var rest := requests[1..];
      var responses := Serve(m, requests).responses;
      ServeIsRun(h.middleware, rest);
      assert responses[1..] == Serve(h.middleware, rest).responses;
      if !Exempt(m, requests[0].path) {
        var calls := Metered(m.exemptPaths, requests);
        assert calls[1..] == Metered(m.exemptPaths, rest);
        var admitted := Run(m.bucket, calls).admitted;
        assert admitted[1..] == Run(h.middleware.bucket, Metered(m.exemptPaths, rest)).admitted;
      }
    }
  }

  /** When no request is exempt, every request is metered, in order. */
  lemma {:induction false} MeteredUnexempt(exemptPaths: seq<string>, requests: seq<Request>)
    requires forall i :: 0 <= i < |requests| ==> requests[i].path !in exemptPaths
    decreases |requests|
    ensures |Metered(exemptPaths, requests)| == |requests|
    ensures forall i :: 0 <= i < |requests| ==> Metered(exemptPaths, requests)[i] == Call(requests[i].now, RequestCost)
  {
    if requests != [] {
      var rest := requests[1..];
      MeteredUnexempt(exemptPaths, rest);
      var calls := Metered(exemptPaths, requests);
      forall i | 0 < i < |requests|
        ensures calls[i] == Call(requests[i].now, RequestCost)
      {
        assert calls[i] == Metered(exemptPaths, rest)[i - 1];
        assert requests[i] == rest[i - 1];
      }
    }
  }

  /** When no request is exempt, each response is the bucket's verdict on
      the corresponding call. */
  lemma {:induction false} ServeUnexempt(m: Middleware, requests: seq<Request>)
    requires forall i :: 0 <= i < |requests| ==> !Exempt(m, requests[i].path)
    decreases |requests|
    ensures |Run(m.bucket, Metered(m.exemptPaths, requests)).admitted| == |requests|
    ensures forall i :: 0 <= i < |requests| ==>
      Serve(m, requests).responses[i]
      == if Run(m.bucket, Metered(m.exemptPaths, requests)).admitted[i] then Forwarded else Rejection
  {
    MeteredUnexempt(m.exemptPaths, requests);
    if requests != [] {
      var h := Dispatch(m, requests[0].path, requests[0].now);
      var rest := requests[1..];
      ServeUnexempt(h.middleware, rest);
      var calls := Metered(m.exemptPaths, requests);
      var restAdmitted := Run(h.middleware.bucket, Metered(m.exemptPaths, rest)).admitted;
      var restResponses := Serve(h.middleware, rest).responses;
      assert Run(m.bucket, calls).admitted == [Consume(m.bucket, requests[0].now, RequestCost).admitted] + restAdmitted;
      assert Serve(m, requests).responses == [h.response] + restResponses;
    }
  }

  /** `n` requests for `path`, all taking the bucket's lock at `now`. */
  function Flood(path: string, now: real, n: nat): (requests: seq<Request>)
    ensures |requests| == n
    ensures forall i :: 0 <= i < n ==> requests[i] == Request(path, now)
  {
    seq(n, _ => Request(path, now))
  }

  /** A flood reads one clock value, so its requests arrive in clock
      order. */
  lemma {:induction false} FloodMonotone(path: string, now: real, n: nat)
    decreases n
    ensures RequestsMonotone(now, Flood(path, now, n))
  {
    if n > 0 {
      FloodMonotone(path, now, n - 1);
      assert Flood(path, now, n)[1..] == Flood(path, now, n - 1);
    }
  }

  /** A flood of `n` simultaneous requests for a metered path, at the
      instant of the bucket's last refill: the first `floor(tokens)` are
      forwarded and every later one is refused with 429, so exactly
      `min(n, floor(tokens))` get through. The flood leaves the bucket's
      clock where it was. */
  lemma GateBurst(m: Middleware, path: string, n: nat)
    requires Valid(m.bucket) && !Exempt(m, path)
    ensures 0 <= m.bucket.tokens.Floor
    ensures forall i :: 0 <= i < n ==>
      Serve(m, Flood(path, m.bucket.last, n)).responses[i]
      == if i < m.bucket.tokens.Floor then Forwarded else Rejection
    ensures MeteredForwarded(m.exemptPaths, Flood(path, m.bucket.last, n), Serve(m, Flood(path, m.bucket.last, n)).responses)
            == if n <= m.bucket.tokens.Floor then n else m.bucket.tokens.Floor
    ensures Serve(m, Flood(path, m.bucket.last, n)).final.bucket.last == m.bucket.last
  {
    var requests := Flood(path, m.bucket.last, n);
    MeteredUnexempt(m.exemptPaths, requests);
    assert Metered(m.exemptPaths, requests) == Burst(m.bucket.last, RequestCost, n);
    ServeUnexempt(m, requests);
    ServeIsRun(m, requests);
    assert m.bucket.tokens / RequestCost == m.bucket.tokens;
    BurstAdmitsFloor(m.bucket, RequestCost, n);
  }

  /** The requests arrive in clock order, none before `start`. */
  predicate RequestsMonotone(start: real, requests: seq<Request>)
    decreases |requests|
  {
    requests == [] || (start <= requests[0].now && RequestsMonotone(requests[0].now, requests[1..]))
  }

  /** Every request arrives within the window `[t0, t0 + T]`. */
  predicate RequestsInWindow(requests: seq<Request>, t0: real, T: real) {
    forall i :: 0 <= i < |requests| ==> t0 <= requests[i].now <= t0 + T
  }

  /** Requests in clock order meter calls in clock order, and requests in a
      window meter calls in that window. */
  lemma {:induction false} MeteredKeepsClock(exemptPaths: seq<string>, start: real, requests: seq<Request>, t0: real, T: real)
    decreases |requests|
    ensures RequestsMonotone(start, requests) ==> ClockMonotone(start, Metered(exemptPaths, requests))
    ensures RequestsInWindow(requests, t0, T) ==> InWindow(Metered(exemptPaths, requests), t0, T)
  {
    if requests != [] {
      var rest := requests[1..];
      MeteredKeepsClock(exemptPaths, requests[0].now, rest, t0, T);
      if RequestsInWindow(requests, t0, T) {
        assert RequestsInWindow(rest, t0, T) by {
          forall i | 0 <= i < |rest|
            ensures t0 <= rest[i].now <= t0 + T
          {
            assert rest[i] == requests[i + 1];
          }
        }
      }
      if RequestsMonotone(start, requests) && requests[0].path in exemptPaths {
        var calls := Metered(exemptPaths, rest);
        assert calls != [] ==> start <= calls[0].now;
      }
    }
  }

  /** The bound on the bucket's side: requests in clock order within a
      window of length `T` make the bucket admit at most
      `capacity + T * rate` metered calls. */
  lemma MeteredWindowBound(m: Middleware, requests: seq<Request>, t0: real, T: real)
    requires Valid(m.bucket) && 0.0 <= m.bucket.rate
    requires RequestsMonotone(m.bucket.last, requests)
    requires RequestsInWindow(requests, t0, T) && 0.0 <= T
    ensures Count(Run(m.bucket, Metered(m.exemptPaths, requests)).admitted) as real
            <= m.bucket.capacity + Earned(T, m.bucket.rate)
  {
    MeteredKeepsClock(m.exemptPaths, m.bucket.last, requests, t0, T);
    UnitWindowBound(m.bucket, Metered(m.exemptPaths, requests), t0, T);
  }

  /** The admission bound at the gate: within any window of length `T`, at
      most `capacity + T * rate` metered requests are forwarded, however
      many arrive. Exempt requests are not counted and never refused. */
  lemma GateWindowBound(m: Middleware, requests: seq<Request>, t0: real, T: real)
    requires Valid(m.bucket) && 0.0 <= m.bucket.rate
    requires RequestsMonotone(m.bucket.last, requests)
    requires RequestsInWindow(requests, t0, T) && 0.0 <= T
    ensures MeteredForwarded(m.exemptPaths, requests, Serve(m, requests).responses) as real
            <= m.bucket.capacity + Earned(T, m.bucket.rate)
  {
    MeteredWindowBound(m, requests, t0, T);
    ServeIsRun(m, requests);
  }

  /** The head and tail of a concatenation whose first part is not empty. */
  lemma AppendFirst<T>(a: seq<T>, b: seq<T>)
    requires a != []
    ensures (a + b)[0] == a[0] && (a + b)[1..] == a[1..] + b
    ensures ([a[0]] + a[1..]) + b == [a[0]] + (a[1..] + b)
  {
  }

  /** A sequence that is `x` followed by `a + b` is `[x] + a` followed by
      `b`. */
  lemma ConsAppend<T>(x: T, a: seq<T>, b: seq<T>, whole: seq<T>, rest: seq<T>)
    requires whole == [x] + rest && rest == a + b
    ensures whole == ([x] + a) + b
  {
  }

  /** Serving a non-empty sequence is dispatching its first request and
      serving the rest from the middleware that leaves. */
  lemma ServeFirstStep(m: Middleware, requests: seq<Request>)
    requires requests != []
    ensures Serve(m, requests).responses
            == [Dispatch(m, requests[0].path, requests[0].now).response]
               + Serve(Dispatch(m, requests[0].path, requests[0].now).middleware, requests[1..]).responses
    ensures Serve(m, requests).final
            == Serve(Dispatch(m, requests[0].path, requests[0].now).middleware, requests[1..]).final
  {
  }

  /** Serving one sequence of requests after another leaves the middleware
      where serving their concatenation does. */
  lemma {:induction false} ServeAppendFinal(m: Middleware, history: seq<Request>, requests: seq<Request>)
    decreases |history|
    ensures Serve(m, history + requests).final == Serve(Serve(m, history).final, requests).final
  {
    if history == [] {
      assert history + requests == requests;
    } else {
      var h := Dispatch(m, history[0].path, history[0].now);
      AppendFirst(history, requests);
      ServeFirstStep(m, history);
      ServeFirstStep(m, history + requests);
      ServeAppendFinal(h.middleware, history[1..], requests);
    }
  }

  /** Serving one sequence of requests after another gives the responses
      and final state of serving their concatenation. */
  lemma {:induction false} ServeAppend(m: Middleware, history: seq<Request>, requests: seq<Request>)
    decreases |history|
    ensures Serve(m, history + requests).responses
            == Serve(m, history).responses + Serve(Serve(m, history).final, requests).responses
    ensures Serve(m, history + requests).final == Serve(Serve(m, history).final, requests).final
  {
    ServeAppendFinal(m, history, requests);
    if history == [] {
      assert history + requests == requests;
    } else {
      var h := Dispatch(m, history[0].path, history[0].now);
      AppendFirst(history, requests);
      ServeFirstStep(m, history);
      ServeFirstStep(m, history + requests);
      ServeAppend(h.middleware, history[1..], requests);
      var tail := Serve(h.middleware, history[1..]);
      ConsAppend(h.response, tail.responses, Serve(tail.final, requests).responses,
                 Serve(m, history + requests).responses, Serve(h.middleware, history[1..] + requests).responses);
    }
  }

  /** The clock reading of the last request, or `start` when there is none. */
  function LastArrival(start: real, requests: seq<Request>): real {
    if requests == [] then start else requests[|requests| - 1].now
  }

  /** A clock that never goes backwards from `later` never goes backwards
      from an earlier reading either. */
  lemma RequestsMonotoneFromEarlier(start: real, later: real, requests: seq<Request>)
    requires start <= later && RequestsMonotone(later, requests)
    ensures RequestsMonotone(start, requests)
  {
  }

  /** Serving requests in clock order keeps the bucket valid, keeps its rate
      and capacity, and leaves its last refill no later than the last
      arrival. */
  lemma {:induction false} ServeMonotone(m: Middleware, requests: seq<Request>)
    requires Valid(m.bucket) && 0.0 <= m.bucket.rate
    requires RequestsMonotone(m.bucket.last, requests)
    decreases |requests|
    ensures Valid(Serve(m, requests).final.bucket)
    ensures Serve(m, requests).final.bucket.rate == m.bucket.rate
    ensures Serve(m, requests).final.bucket.capacity == m.bucket.capacity
    ensures Serve(m, requests).final.bucket.last <= LastArrival(m.bucket.last, requests)
  {
    if requests != [] {
      var h := Dispatch(m, requests[0].path, requests[0].now);
      var rest := requests[1..];
      RequestsMonotoneFromEarlier(h.middleware.bucket.last, requests[0].now, rest);
      ServeMonotone(h.middleware, rest);
      if rest != [] {
        assert rest[|rest| - 1] == requests[|requests| - 1];
      }
    }
  }

  /** The admission bound at any point in the middleware's life: after any
      history in clock order, the metered requests of a later window of
      length `T` that are forwarded number at most `capacity + T * rate`. */
  lemma LaterWindowBound(m: Middleware, history: seq<Request>, requests: seq<Request>, t0: real, T: real)
    requires Valid(m.bucket) && 0.0 <= m.bucket.rate
    requires RequestsMonotone(m.bucket.last, history)
    requires RequestsMonotone(LastArrival(m.bucket.last, history), requests)
    requires RequestsInWindow(requests, t0, T) && 0.0 <= T
    ensures |Serve(m, history + requests).responses| == |history| + |requests|
    ensures MeteredForwarded(m.exemptPaths, requests, Serve(m, history + requests).responses[|history|..]) as real
            <= m.bucket.capacity + Earned(T, m.bucket.rate)
  {
    var after := Serve(m, history).final;
    ServeAppend(m, history, requests);
    ServeMonotone(m, history);
    RequestsMonotoneFromEarlier(after.bucket.last, LastArrival(m.bucket.last, history), requests);
    assert Serve(m, history + requests).responses[|history|..] == Serve(after, requests).responses;
    GateWindowBound(after, requests, t0, T);
  }

  /** A flood of `n` simultaneous requests for a metered path at any
      instant `now` after the last refill: the first
      `floor(Refilled(bucket, now))` are forwarded and every later one is
      refused with 429. */
  lemma GateBurstAt(m: Middleware, path: string, now: real, n: nat)
    requires Valid(m.bucket) && 0.0 <= m.bucket.rate && m.bucket.last <= now
    requires !Exempt(m, path)
    ensures 0 <= Refilled(m.bucket, now).Floor
    ensures forall i :: 0 <= i < n ==>
      Serve(m, Flood(path, now, n)).responses[i]
      == if i < Refilled(m.bucket, now).Floor then Forwarded else Rejection
    ensures MeteredForwarded(m.exemptPaths, Flood(path, now, n), Serve(m, Flood(path, now, n)).responses)
            == if n <= Refilled(m.bucket, now).Floor then n else Refilled(m.bucket, now).Floor
  {
    var requests := Flood(path, now, n);
    MeteredUnexempt(m.exemptPaths, requests);
    assert Metered(m.exemptPaths, requests) == Burst(now, RequestCost, n);
    ServeUnexempt(m, requests);
    ServeIsRun(m, requests);
    assert Refilled(m.bucket, now) / RequestCost == Refilled(m.bucket, now);
    BurstAfterRefill(m.bucket, now, RequestCost, n);
  }
}
