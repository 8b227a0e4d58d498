/**
 The service as it is wired up: one rate-limiting middleware with a rate of
 15 tokens per second, a capacity of 15, and `/health` exempt.

 The module documentation, the comment next to the wiring and the served
 page all speak of 10 requests per second, and 10 is also the middleware's
 default rate and capacity; the wired-up values are 15. The lemmas below state what each
 configuration actually admits.
 */
module AppConfig {
  import opened TokenBucket
  import opened BucketRuns
  import opened AdmissionGate

  const ConfiguredRate: real := 15.0
  const ConfiguredCapacity: real := 15.0
  const HealthPath: string := "/health"
  const IndexPath: string := "/"

  /** The limit the service's documentation states, in requests per second. */
  const DocumentedLimit: nat := 10

  /** The middleware as constructed when the service starts at `startup`. */
  function App(startup: real): (m: Middleware)
    ensures m.bucket.rate == ConfiguredRate && m.bucket.capacity == ConfiguredCapacity
    ensures m.bucket.last == startup && Full(m.bucket) && Valid(m.bucket)
    ensures forall p :: Exempt(m, p) <==> p == HealthPath
  {
    NewMiddleware(startup, ConfiguredRate, ConfiguredCapacity, Some([HealthPath]))
  }

  /** The health check is never rate limited: however many health checks
      arrive, and whatever the bucket holds, every one is forwarded and the
      middleware is left exactly as it was. */
  lemma {:induction false} HealthNeverLimited(startup: real, bucket: Bucket, now: real, n: nat)
    decreases n
    ensures Serve(App(startup).(bucket := bucket), Flood(HealthPath, now, n)).final
            == App(startup).(bucket := bucket)
    ensures forall i :: 0 <= i < n ==>
      Serve(App(startup).(bucket := bucket), Flood(HealthPath, now, n)).responses[i] == Forwarded
  {
    if n > 0 {
      HealthNeverLimited(startup, bucket, now, n - 1);
      assert Flood(HealthPath, now, n)[1..] == Flood(HealthPath, now, n - 1);
    }
  }

  /** Sixteen simultaneous requests for the page right after startup: the
      first fifteen are forwarded and the sixteenth is refused with 429. */
  lemma StartupBurst(t: real)
    ensures |Serve(App(t), Flood(IndexPath, t, 16)).responses| == 16
    ensures forall i :: 0 <= i < 15 ==> Serve(App(t), Flood(IndexPath, t, 16)).responses[i] == Forwarded
    ensures Serve(App(t), Flood(IndexPath, t, 16)).responses[15] == Rejected(429, "Too Many Requests", "1")
  {
    assert IndexPath != HealthPath;
    GateBurst(App(t), IndexPath, 16);
    assert ConfiguredCapacity.Floor == 15;
  }

  /** Every response is a forward. */
  predicate AllForwarded(responses: seq<Response>) {
    forall i :: 0 <= i < |responses| ==> responses[i] == Forwarded
  }

  /** Two runs of forwards make one. */
  lemma AllForwardedAppend(a: seq<Response>, b: seq<Response>)
    requires AllForwarded(a) && AllForwarded(b)
    ensures AllForwarded(a + b)
  {
    forall i | 0 <= i < |a + b|
      ensures (a + b)[i] == Forwarded
    {
      if i >= |a| {
        assert (a + b)[i] == b[i - |a|];
      }
    }
  }

  /** The wired-up service forwards more requests in one instant than the
      documented ten per second. */
  lemma ConfiguredExceedsDocumentedLimit(t: real)
    ensures MeteredForwarded(App(t).exemptPaths, Flood(IndexPath, t, 16), Serve(App(t), Flood(IndexPath, t, 16)).responses) == 15
    ensures DocumentedLimit < MeteredForwarded(App(t).exemptPaths, Flood(IndexPath, t, 16), Serve(App(t), Flood(IndexPath, t, 16)).responses)
  {
    assert IndexPath != HealthPath;
    GateBurst(App(t), IndexPath, 16);
    assert ConfiguredCapacity.Floor == 15;
  }

  /** A middleware built with the default rate and capacity matches the
      documented number as a burst size: of eleven simultaneous requests,
      ten are forwarded. */
  lemma DefaultsMatchDocumentedLimit(t: real, path: string)
    ensures MeteredForwarded(NewMiddleware(t).exemptPaths, Flood(path, t, 11), Serve(NewMiddleware(t), Flood(path, t, 11)).responses)
            == DocumentedLimit
  {
    GateBurst(NewMiddleware(t), path, 11);
    assert DefaultCapacity.Floor == 10;
  }

  /** The defaults still do not cap a one-second window at ten requests: a
      full burst at `t` and another one second later are all forwarded,
      twenty requests within one second, which is the `capacity + rate`
      that `GateWindowBound` allows at `T = 1`. */
  lemma DefaultsAdmitTwentyInOneSecond(t: real, path: string)
    ensures |Serve(NewMiddleware(t), Flood(path, t, 10) + Flood(path, t + 1.0, 10)).responses| == 20
    ensures AllForwarded(Serve(NewMiddleware(t), Flood(path, t, 10) + Flood(path, t + 1.0, 10)).responses)
  {
    var m := NewMiddleware(t);
    var first := Flood(path, t, 10);
    var after := Serve(m, first).final;
    ServeAppend(m, first, Flood(path, t + 1.0, 10));
    GateBurst(m, path, 10);
    assert DefaultCapacity.Floor == 10;
    FloodMonotone(path, t, 10);
    ServeMonotone(m, first);
    assert DefaultCapacity / DefaultRate == 1.0;
    RefillsToCapacity(after.bucket, t + 1.0);
    GateBurstAt(after, path, t + 1.0, 10);
    AllForwardedAppend(Serve(m, first).responses, Serve(after, Flood(path, t + 1.0, 10)).responses);
  }

  /** After the startup burst, the page is served again once one refill
      interval, a fifteenth of a second, has passed. */
  lemma RecoveryAfterStartupBurst(t: real, later: real)
    requires t + 1.0 / ConfiguredRate <= later
    ensures Dispatch(Serve(App(t), Flood(IndexPath, t, 16)).final, IndexPath, later).response == Forwarded
  {
    var m := App(t);
    var requests := Flood(IndexPath, t, 16);
    assert IndexPath != HealthPath;
    GateBurst(m, IndexPath, 16);
    ServeIsRun(m, requests);
    MeteredUnexempt(m.exemptPaths, requests);
    assert Metered(m.exemptPaths, requests) == Burst(t, RequestCost, 16);
    BurstClockMonotone(t, RequestCost, 16);
    RecoveryAfterRefillInterval(Serve(m, requests).final.bucket, later);
  }

  /** A burst after an idle second: whatever requests the service has
      served since startup, once no request has arrived for one second the
      bucket is full again, and of sixteen simultaneous page requests the
      first fifteen are forwarded and the sixteenth is refused with 429. */
  lemma BurstAfterIdle(startup: real, history: seq<Request>, now: real)
    requires RequestsMonotone(startup, history)
    requires LastArrival(startup, history) + 1.0 <= now
    ensures |Serve(App(startup), history + Flood(IndexPath, now, 16)).responses| == |history| + 16
    ensures forall i :: 0 <= i < 16 ==>
      Serve(App(startup), history + Flood(IndexPath, now, 16)).responses[|history|..][i]
      == if i < 15 then Forwarded else Rejection
  {
    var m := App(startup);
    var after := Serve(m, history).final;
    ServeAppend(m, history, Flood(IndexPath, now, 16));
    ServeMonotone(m, history);
    assert ConfiguredCapacity / ConfiguredRate == 1.0;
    RefillsToCapacity(after.bucket, now);
    assert IndexPath != HealthPath;
    GateBurstAt(after, IndexPath, now, 16);
    assert ConfiguredCapacity.Floor == 15;
    assert Serve(m, history + Flood(IndexPath, now, 16)).responses[|history|..]
           == Serve(after, Flood(IndexPath, now, 16)).responses;
  }

  /** The admission bound of the running service: after any history of
      requests in clock order since startup, within any later window of
      length `T` at most `15 + 15 * T` requests other than health checks
      are forwarded. */
  lemma AppWindowBound(startup: real, history: seq<Request>, requests: seq<Request>, t0: real, T: real)
    requires RequestsMonotone(startup, history)
    requires RequestsMonotone(LastArrival(startup, history), requests)
    requires RequestsInWindow(requests, t0, T) && 0.0 <= T
    ensures |Serve(App(startup), history + requests).responses| == |history| + |requests|
    ensures MeteredForwarded(App(startup).exemptPaths, requests, Serve(App(startup), history + requests).responses[|history|..]) as real
            <= ConfiguredCapacity + Earned(T, ConfiguredRate)
  {
    LaterWindowBound(App(startup), history, requests, t0, T);
  }
}
