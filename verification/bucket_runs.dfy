/**
 Sequences of `Consume` calls against one bucket.

 The service serialises every `Consume` under a lock, so the calls that reach
 the bucket form a sequence, each with its own clock reading and amount. This
 module runs a bucket over such a sequence and proves the classic token-bucket
 properties: a burst of `floor(tokens / amount)` admissions at one instant,
 and an admitted total of at most `capacity + T * rate` within any window of
 length `T`.
 */
module BucketRuns {
  import opened RealArith
  import opened TokenBucket

  /** One `Consume` call: the clock reading when the lock was taken, and the
      amount asked for. */
  datatype Call = Call(now: real, amount: real)

  /** The answers of a run, in call order, and the bucket after it. */
  datatype RunResult = RunResult(admitted: seq<bool>, final: Bucket)

  /** The clock readings never go backwards, starting from `start`. */
  predicate ClockMonotone(start: real, calls: seq<Call>)
    decreases |calls|
  {
    calls == [] || (start <= calls[0].now && ClockMonotone(calls[0].now, calls[1..]))
  }

  /** No call asks for a negative amount. */
  predicate NonNegativeAmounts(calls: seq<Call>) {
    forall i :: 0 <= i < |calls| ==> 0.0 <= calls[i].amount
  }

  /** Every call asks for exactly one token, as a request does. */
  predicate UnitCost(calls: seq<Call>) {
    forall i :: 0 <= i < |calls| ==> calls[i].amount == 1.0
  }

  /** Every clock reading lies in the window `[t0, t0 + T]`. */
  predicate InWindow(calls: seq<Call>, t0: real, T: real) {
    forall i :: 0 <= i < |calls| ==> t0 <= calls[i].now <= t0 + T
  }

  /** Runs the bucket over the calls, one atomic `Consume` each. */
  function Run(b: Bucket, calls: seq<Call>): (r: RunResult)
    decreases |calls|
    ensures |r.admitted| == |calls|
    ensures r.final.rate == b.rate && r.final.capacity == b.capacity
    ensures r.final.last == if calls == [] then b.last else calls[|calls| - 1].now
    ensures (Valid(b) && 0.0 <= b.rate && ClockMonotone(b.last, calls) && NonNegativeAmounts(calls))
              ==> Valid(r.final)
  {
    if calls == [] then RunResult([], b)
    else
      var o := Consume(b, calls[0].now, calls[0].amount);
      var rest := Run(o.bucket, calls[1..]);
      RunResult([o.admitted] + rest.admitted, rest.final)
  }

  /** The number of admitted calls. */
  function Count(admitted: seq<bool>): (n: nat)
    ensures n <= |admitted|
  {
    if admitted == [] then 0 else (if admitted[0] then 1 else 0) + Count(admitted[1..])
  }

  /** The total amount paid by the admitted calls. */
  function AdmittedAmount(calls: seq<Call>, admitted: seq<bool>): real
    requires |admitted| == |calls|
  {
    if calls == [] then 0.0
    else (if admitted[0] then calls[0].amount else 0.0) + AdmittedAmount(calls[1..], admitted[1..])
  }

  /** What call `c` pays when it reaches bucket `b`: its amount if admitted,
      nothing otherwise. */
  function Paid(b: Bucket, c: Call): real {
    if Consume(b, c.now, c.amount).admitted then c.amount else 0.0
  }

  /** When every call costs one token, the amount paid is the number of
      admissions. */
  lemma {:induction false} UnitAmountIsCount(calls: seq<Call>, admitted: seq<bool>)
    requires |admitted| == |calls| && UnitCost(calls)
    ensures AdmittedAmount(calls, admitted) == Count(admitted) as real
  {
    if calls != [] {
      UnitAmountIsCount(calls[1..], admitted[1..]);
    }
  }

  /** Running a non-empty sequence is one `Consume` followed by a run of the
      rest: the first payment adds to the rest's, and the final bucket is the
      rest's. */
  lemma RunFirstStep(b: Bucket, calls: seq<Call>)
    requires calls != []
    ensures Run(b, calls).final == Run(Consume(b, calls[0].now, calls[0].amount).bucket, calls[1..]).final
    ensures AdmittedAmount(calls, Run(b, calls).admitted)
            == Paid(b, calls[0]) + AdmittedAmount(calls[1..], Run(Consume(b, calls[0].now, calls[0].amount).bucket, calls[1..]).admitted)
  {
    var o := Consume(b, calls[0].now, calls[0].amount);
    assert Run(b, calls).admitted[1..] == Run(o.bucket, calls[1..]).admitted;
  }

  /** The bucket's potential: its tokens less everything the clock had
      earned for it by `last`. Refilling only moves tokens from the clock
      into the bucket (or drops them at the cap), so the potential never
      grows, and every payment lowers it by the amount paid. */
  function Potential(b: Bucket): real {
    b.tokens - Earned(b.last, b.rate)
  }

  /** One `Consume` pays for what it admits out of the potential. Whatever
      the clock reading, the potential drops by at least the amount paid,
      and what remains is at most that of a full bucket at the call's time. */
  lemma ConsumePaysFromPotential(b: Bucket, c: Call)
    ensures Potential(Consume(b, c.now, c.amount).bucket) + Paid(b, c) <= Potential(b)
    ensures Potential(Consume(b, c.now, c.amount).bucket) + Paid(b, c) <= b.capacity - Earned(c.now, b.rate)
  {
    RefilledIsClampedSum(b, c.now);
    EarnedBetween(b.last, c.now, b.rate);
  }

  /** One step of `Conservation`: a first call that pays out of the
      potential, followed by a remainder that does too. */
  lemma ConservationStep(b: Bucket, c: Call, restPaid: real, final: Bucket)
    requires restPaid + Potential(final) <= Potential(Consume(b, c.now, c.amount).bucket)
    ensures Paid(b, c) + restPaid + Potential(final) <= Potential(b)
    ensures Paid(b, c) + restPaid + Potential(final) <= b.capacity - Earned(c.now, b.rate)
  {
    ConsumePaysFromPotential(b, c);
  }

  /** Tokens are conserved over a run: what was paid plus the final
      potential is at most the initial potential, and at most the potential
      of a full bucket at the first call. */
  lemma {:induction false} Conservation(b: Bucket, calls: seq<Call>)
    decreases |calls|
    ensures AdmittedAmount(calls, Run(b, calls).admitted) + Potential(Run(b, calls).final) <= Potential(b)
    ensures calls != [] ==>
      AdmittedAmount(calls, Run(b, calls).admitted) + Potential(Run(b, calls).final) <= b.capacity - Earned(calls[0].now, b.rate)
  {
    if calls != [] {
      var o := Consume(b, calls[0].now, calls[0].amount).bucket;
      RunFirstStep(b, calls);
      Conservation(o, calls[1..]);
      ConservationStep(b, calls[0], AdmittedAmount(calls[1..], Run(o, calls[1..]).admitted), Run(o, calls[1..]).final);
    }
  }

  /** The arithmetic of `WindowBound`, apart from any run: a payment made
      out of the potential of a full bucket at `first`, leaving a valid
      bucket at most `T` seconds later, is at most `capacity + T * rate`. */
  lemma WindowArithmetic(b: Bucket, final: Bucket, first: real, paid: real, T: real)
    requires 0.0 <= b.rate && final.rate == b.rate && Valid(final)
    requires final.last - first <= T
    requires paid + Potential(final) <= b.capacity - Earned(first, b.rate)
    ensures paid <= b.capacity + Earned(T, b.rate)
  {
    EarnedBetween(first, final.last, b.rate);
    EarnedMonotone(final.last - first, T, b.rate);
  }

  /** The admission bound: the calls of a window of length `T` pay at most
      `capacity + T * rate` tokens in all. */
  lemma WindowBound(b: Bucket, calls: seq<Call>, t0: real, T: real)
    requires Valid(b) && 0.0 <= b.rate
    requires ClockMonotone(b.last, calls) && NonNegativeAmounts(calls)
    requires InWindow(calls, t0, T) && 0.0 <= T
    ensures AdmittedAmount(calls, Run(b, calls).admitted) <= b.capacity + Earned(T, b.rate)
  {
    if calls == [] {
      EarnedMonotone(0.0, T, b.rate);
    } else {
      Conservation(b, calls);
      WindowArithmetic(b, Run(b, calls).final, calls[0].now, AdmittedAmount(calls, Run(b, calls).admitted), T);
    }
  }

  /** The bound for requests, which cost one token each: at most
      `capacity + T * rate` admissions in a window of length `T`. */
  lemma UnitWindowBound(b: Bucket, calls: seq<Call>, t0: real, T: real)
    requires Valid(b) && 0.0 <= b.rate
    requires ClockMonotone(b.last, calls) && UnitCost(calls)
    requires InWindow(calls, t0, T) && 0.0 <= T
    ensures Count(Run(b, calls).admitted) as real <= b.capacity + Earned(T, b.rate)
  {
    WindowBound(b, calls, t0, T);
    UnitAmountIsCount(calls, Run(b, calls).admitted);
  }

  /** `n` calls at the same instant, each asking for `amount`. */
  function Burst(now: real, amount: real, n: nat): (calls: seq<Call>)
    ensures |calls| == n
    ensures forall i :: 0 <= i < n ==> calls[i] == Call(now, amount)
  {
    seq(n, _ => Call(now, amount))
  }

  /** A burst reads one clock value, so its clock never goes backwards. */
  lemma {:induction false} BurstClockMonotone(now: real, amount: real, n: nat)
    decreases n
    ensures ClockMonotone(now, Burst(now, amount, n))
  {
    if n > 0 {
      BurstClockMonotone(now, amount, n - 1);
      assert Burst(now, amount, n)[1..] == Burst(now, amount, n - 1);
    }
  }

  /** A burst of `n` calls is its first call followed by a burst of `n - 1`. */
  lemma BurstFirstStep(b: Bucket, amount: real, n: nat)
    requires Valid(b) && 0.0 < amount && 0 < n
    ensures Consume(b, b.last, amount).bucket.last == b.last
    ensures Consume(b, b.last, amount).admitted <==> amount <= b.tokens
    ensures Consume(b, b.last, amount).bucket.tokens
            == if amount <= b.tokens then b.tokens - amount else b.tokens
    ensures Valid(Consume(b, b.last, amount).bucket)
    ensures Run(b, Burst(b.last, amount, n)).admitted
            == [amount <= b.tokens] + Run(Consume(b, b.last, amount).bucket, Burst(b.last, amount, n - 1)).admitted
  {
    RefilledAtSameInstant(b);
    assert Burst(b.last, amount, n)[1..] == Burst(b.last, amount, n - 1);
  }

  /** In a burst at the instant of the last refill, call `i` (from 0) is
      admitted exactly when `i` is below `floor(tokens / amount)`: each
      admission pays `amount`, which lowers that floor by one, and a refusal
      leaves a bucket that refuses every later call of the burst. */
  lemma {:induction false} BurstPointwise(b: Bucket, amount: real, n: nat)
    requires Valid(b) && 0.0 < amount
    decreases n
    ensures forall i :: 0 <= i < n ==>
      (Run(b, Burst(b.last, amount, n)).admitted[i] <==> i < (b.tokens / amount).Floor)
  {
    if n > 0 {
      var o := Consume(b, b.last, amount).bucket;
      BurstFirstStep(b, amount, n);
      BurstPointwise(o, amount, n - 1);
      QuotientAgainstOne(b.tokens, amount);
      if amount <= b.tokens {
        QuotientOfDifference(b.tokens, o.tokens, amount);
      }
      var all := Run(b, Burst(b.last, amount, n)).admitted;
      var rest := Run(o, Burst(o.last, amount, n - 1)).admitted;
      forall i | 0 < i < n
        ensures all[i] <==> i < (b.tokens / amount).Floor
      {
        assert all[i] == rest[i - 1];
      }
    }
  }

  /** A run whose answers are "yes" exactly for the first `m` calls admits
      `min(n, m)` of them. */
  lemma {:induction false} CountOfPrefix(admitted: seq<bool>, m: int)
    requires 0 <= m
    requires forall i :: 0 <= i < |admitted| ==> (admitted[i] <==> i < m)
    ensures Count(admitted) == if |admitted| <= m then |admitted| else m
  {
    if admitted != [] {
      if m == 0 {
        CountOfPrefix(admitted[1..], 0);
      } else {
        CountOfPrefix(admitted[1..], m - 1);
      }
    }
  }

  /** Burst: from a bucket holding `tokens` (a full one holds `capacity`),
      calls at the instant of the last refill are admitted exactly while
      fewer than `floor(tokens / amount)` have been; the next one and every
      later one fails. With unit cost this also settles `n` simultaneous
      requests serialised by the lock: exactly `min(n, floor(tokens))`
      succeed. */
  lemma BurstAdmitsFloor(b: Bucket, amount: real, n: nat)
    requires Valid(b) && 0.0 < amount
    ensures 0 <= (b.tokens / amount).Floor
    ensures forall i :: 0 <= i < n ==>
      (Run(b, Burst(b.last, amount, n)).admitted[i] <==> i < (b.tokens / amount).Floor)
    ensures Count(Run(b, Burst(b.last, amount, n)).admitted)
            == if n <= (b.tokens / amount).Floor then n else (b.tokens / amount).Floor
  {
    QuotientAgainstOne(b.tokens, amount);
    BurstPointwise(b, amount, n);
    CountOfPrefix(Run(b, Burst(b.last, amount, n)).admitted, (b.tokens / amount).Floor);
  }

  /** A call at `now` meets the same bucket whether or not the refill up to
      `now` has already been applied: refilling twice at one instant earns
      nothing the second time. */
  lemma ConsumeAfterRefill(b: Bucket, now: real, amount: real)
    requires Valid(b) && 0.0 <= b.rate && b.last <= now
    ensures Valid(b.(tokens := Refilled(b, now), last := now))
    ensures Consume(b, now, amount) == Consume(b.(tokens := Refilled(b, now), last := now), now, amount)
  {
    RefilledAtSameInstant(b.(tokens := Refilled(b, now), last := now));
  }

  /** Burst at any later instant: `n` calls at `now`, however long after the
      last refill, are admitted exactly while fewer than
      `floor(Refilled(b, now) / amount)` have been. A bucket that has been
      idle long enough to refill to capacity (see `RefillsToCapacity`)
      therefore admits `floor(capacity / amount)` of them. */
  lemma BurstAfterRefill(b: Bucket, now: real, amount: real, n: nat)
    requires Valid(b) && 0.0 <= b.rate && b.last <= now && 0.0 < amount
    ensures 0 <= (Refilled(b, now) / amount).Floor
    ensures forall i :: 0 <= i < n ==>
      (Run(b, Burst(now, amount, n)).admitted[i] <==> i < (Refilled(b, now) / amount).Floor)
    ensures Count(Run(b, Burst(now, amount, n)).admitted)
            == if n <= (Refilled(b, now) / amount).Floor then n else (Refilled(b, now) / amount).Floor
  {
    var r := b.(tokens := Refilled(b, now), last := now);
    ConsumeAfterRefill(b, now, amount);
    if n > 0 {
      assert Run(b, Burst(now, amount, n)) == Run(r, Burst(now, amount, n));
    }
    BurstAdmitsFloor(r, amount, n);
  }
}
