/**
 A token bucket that refills lazily.

 The bucket holds `tokens` out of at most `capacity`, and gains `rate` tokens
 per second of clock time. It never runs a timer: every `Consume` first adds
 the tokens earned since `last`, clamps them at `capacity`, moves `last` to
 the current time, and only then decides whether the request can be paid for.

 The clock is a parameter (`now`). The monotonic clock the service reads
 guarantees `now >= last`; the operations compute a result for any `now`, and
 the properties that depend on monotonicity take it as a hypothesis.
 */
module TokenBucket {
  import opened RealArith

  /** The state of one bucket: refill rate (tokens per second), the most
      tokens it can hold, the tokens it holds now, and the time of the last
      refill computation. */
  datatype Bucket = Bucket(rate: real, capacity: real, tokens: real, last: real)

  /** The bucket invariant: the quota is never negative and never above the
      capacity. */
  predicate Valid(b: Bucket) {
    0.0 <= b.tokens <= b.capacity
  }

  /** The bucket is full. */
  predicate Full(b: Bucket) {
    b.tokens == b.capacity
  }

  /** The outcome of one `Consume`: whether the amount was paid, and the
      bucket afterwards. */
  datatype Outcome = Outcome(admitted: bool, bucket: Bucket)

  /** A fresh bucket created at time `now`. It starts full, so a burst of up
      to `capacity` is available at once. */
  function New(rate: real, capacity: real, now: real): (b: Bucket)
    ensures b.rate == rate && b.capacity == capacity && b.last == now
    ensures Full(b)
    ensures Valid(b) <==> 0.0 <= capacity
  {
    Bucket(rate, capacity, capacity, now)
  }

  /** The tokens a bucket refilling at `rate` earns in `seconds` of clock
      time. Every refill goes through this one product. */
  function Earned(seconds: real, rate: real): real {
    seconds * rate
  }

  /** The quota available at `now`: the tokens held plus those earned since
      `last`, clamped at `capacity`. On a monotonic clock the refill never
      loses tokens. */
  function Refilled(b: Bucket, now: real): (t: real)
    ensures t <= b.capacity
    ensures Valid(b) && 0.0 <= b.rate && b.last <= now ==> b.tokens <= t
  {
    var earned := Earned(now - b.last, b.rate);
    MulNonNegative(now - b.last, b.rate);
    if b.capacity <= b.tokens + earned then b.capacity else b.tokens + earned
  }

  /** Try to pay `amount` tokens at time `now` (one request costs 1.0).
      The refill and the move of `last` happen whether or not the payment
      succeeds; a refused payment deducts nothing. */
  function Consume(b: Bucket, now: real, amount: real := 1.0): (r: Outcome)
    ensures r.admitted <==> amount <= Refilled(b, now)
    // conservation: what is left plus what was paid is what was available
    ensures r.bucket.tokens + (if r.admitted then amount else 0.0) == Refilled(b, now)
    ensures r.bucket.last == now
    ensures r.bucket.rate == b.rate && r.bucket.capacity == b.capacity
    ensures Valid(b) && 0.0 <= b.rate && b.last <= now && 0.0 <= amount ==> Valid(r.bucket)
  {
    var available := Refilled(b, now);
    if available >= amount then
      Outcome(true, b.(tokens := available - amount, last := now))
    else
      Outcome(false, b.(tokens := available, last := now))
  }

  /** The refilled quota is the smaller of the capacity and the tokens held
      plus those earned. */
  lemma RefilledIsClampedSum(b: Bucket, now: real)
    ensures Refilled(b, now) <= b.tokens + Earned(now - b.last, b.rate)
    ensures Refilled(b, now) == b.capacity || Refilled(b, now) == b.tokens + Earned(now - b.last, b.rate)
  {
  }

  /** What is earned over an interval is what is earned by its end less
      what was earned by its start. */
  lemma EarnedBetween(start: real, end: real, rate: real)
    ensures Earned(end - start, rate) == Earned(end, rate) - Earned(start, rate)
  {
    MulSub(end, start, rate);
  }

  /** A longer interval earns at least as much, at a non-negative rate. */
  lemma EarnedMonotone(shorter: real, longer: real, rate: real)
    requires shorter <= longer && 0.0 <= rate
    ensures Earned(shorter, rate) <= Earned(longer, rate)
  {
    MulMonotone(shorter, longer, rate);
  }

  /** A request made at the same instant as the last refill earns nothing:
      the available quota is exactly what the bucket holds. */
  lemma RefilledAtSameInstant(b: Bucket)
    requires Valid(b)
    ensures Refilled(b, b.last) == b.tokens
  {
    assert Earned(b.last - b.last, b.rate) == 0.0;
  }

  /** Recovery: a bucket that is drained (or holds any non-negative quota)
      admits a unit request once `1/rate` seconds have passed, provided a
      whole token fits in it. */
  lemma RecoveryAfterRefillInterval(b: Bucket, now: real)
    requires 0.0 <= b.tokens
    requires 0.0 < b.rate && 1.0 <= b.capacity
    requires b.last + 1.0 / b.rate <= now
    ensures Consume(b, now, 1.0).admitted
  {
    var elapsed := now - b.last;
    assert 1.0 / b.rate <= elapsed;
    calc {
      1.0;
    ==
      Earned(1.0 / b.rate, b.rate);
    <= { EarnedMonotone(1.0 / b.rate, elapsed, b.rate); }
      Earned(elapsed, b.rate);
    }
    RefilledIsClampedSum(b, now);
  }

  /** An idle bucket fills up: once `capacity / rate` seconds have passed
      since the last refill, the quota is the whole capacity, whatever the
      bucket held before. */
  lemma RefillsToCapacity(b: Bucket, now: real)
    requires 0.0 <= b.tokens && 0.0 < b.rate
    requires b.last + b.capacity / b.rate <= now
    ensures Refilled(b, now) == b.capacity
  {
    assert Earned(b.capacity / b.rate, b.rate) == b.capacity;
    EarnedMonotone(b.capacity / b.rate, now - b.last, b.rate);
    RefilledIsClampedSum(b, now);
  }
}
