/** The token bucket of the rate limiter: integer refill with a carried remainder. */
module TokenBucket {
  import opened Common
  import opened Arith

  const MILLI: nat := 1000

  /** `tokens` is in thousandths of a token, `last` in milliseconds. */
  datatype Bucket = Bucket(key: nat, tokens: nat, last: nat)

  datatype Verdict = Verdict(allowed: bool, remaining: nat, retryAfter: nat)

  /** One rule: `limit` tokens per `window` seconds, at most `capacity` thousandths held. */
  datatype Rule = Rule(limit: nat, window: nat, capacity: nat) {
    predicate Valid() {
      0 < limit && 0 < window && MILLI <= capacity <= U64_MAX
    }
  }

  function CeilDiv(a: nat, b: nat): nat
    requires 0 < b
  {
    (a + b - 1) / b
  }

  // ---- What one call does ----

  function Refill(r: Rule, b: Bucket, now: nat): nat
    requires r.Valid()
  {
    (if b.last <= now then SatMul(now - b.last, r.limit) else 0) / r.window
  }

  function Credited(r: Rule, refill: nat): nat
    requires r.Valid()
  {
    SatMul(refill, r.window) / r.limit
  }

  function Refilled(r: Rule, b: Bucket, now: nat): Bucket
    requires r.Valid()
  {
    var refill := Refill(r, b, now);
    if refill == 0 then b
    else if SatAdd(b.tokens, refill) >= r.capacity then b.(tokens := r.capacity, last := now)
    else b.(tokens := b.tokens + refill, last := Min(SatAdd(b.last, Credited(r, refill)), now))
  }

  function Consume(r: Rule, b: Bucket, now: nat): (Bucket, Verdict)
    requires r.Valid()
  {
    var f := Refilled(r, b, now);
    if f.tokens >= MILLI then
      (f.(tokens := f.tokens - MILLI), Verdict(true, (f.tokens - MILLI) / MILLI, 0))
    else
      var ms := CeilDiv(SatMul(MILLI - f.tokens, r.window), r.limit);
      (f, Verdict(false, 0, Max(CeilDiv(ms, 1000), 1)))
  }

  predicate Sane(r: Rule, b: Bucket, now: nat) {
    b.tokens <= r.capacity && b.last <= now <= U64_MAX
  }

  // ---- Whole runs ----

  predicate Sorted(t0: nat, times: seq<nat>) {
    && (forall i | 0 <= i < |times| :: t0 <= times[i] <= U64_MAX)
    && (forall i, j | 0 <= i < j < |times| :: times[i] <= times[j])
  }

  function Last(t0: nat, times: seq<nat>): nat {
    if times == [] then t0 else times[|times| - 1]
  }

  function BucketAfter(r: Rule, b: Bucket, times: seq<nat>): Bucket
    requires r.Valid()
  {
    if times == [] then b
    else Consume(r, BucketAfter(r, b, times[..|times| - 1]), times[|times| - 1]).0
  }

  /** The verdict of the last call of a non-empty run. */
  function LastVerdict(r: Rule, b: Bucket, times: seq<nat>): Verdict
    requires r.Valid() && times != []
  {
    Consume(r, BucketAfter(r, b, times[..|times| - 1]), times[|times| - 1]).1
  }

  function Allowed(r: Rule, b: Bucket, times: seq<nat>): nat
    requires r.Valid()
  {
    if times == [] then 0
    else Allowed(r, b, times[..|times| - 1]) + (if LastVerdict(r, b, times).allowed then 1 else 0)
  }

  // ---- Accounting ----

  /** What a bucket is worth, in units of 1/(1000 * window) token, against the clock. */
  function Credit(r: Rule, b: Bucket): int {
    b.tokens * r.window - b.last * r.limit
  }

  /** What the second floor gives away: time not charged for a refill. */
  function Drift(r: Rule, b: Bucket, now: nat): nat
    requires r.Valid()
  {
    Refill(r, b, now) * r.window % r.limit
  }

  /** The first floor: a refill never claims more than the elapsed time pays for. */
  lemma RefillIsPaidFor(r: Rule, b: Bucket, now: nat)
    requires r.Valid() && Sane(r, b, now)
    ensures Refill(r, b, now) * r.window <= (now - b.last) * r.limit
    ensures Refill(r, b, now) * r.window <= U64_MAX
  {
    DivBounds(SatMul(now - b.last, r.limit), r.window);
  }

  lemma CreditedBounds(r: Rule, b: Bucket, now: nat)
    requires r.Valid() && Sane(r, b, now)
    ensures var refill := Refill(r, b, now);
      Credited(r, refill) * r.limit + Drift(r, b, now) == refill * r.window
    ensures b.last + Credited(r, Refill(r, b, now)) <= now
  {
    RefillIsPaidFor(r, b, now);
    var paid := Refill(r, b, now) * r.window;
    DivModIdentity(paid, r.limit);
    assert paid < (now - b.last) * r.limit + r.limit;
    DivAtMost(paid, r.limit, now - b.last);
  }

  lemma DivModIdentity(a: int, m: int)
    requires 0 < m
    ensures a / m * m + a % m == a && 0 <= a % m < m
  {
  }

  /** Refilling keeps the bucket sane, and its worth grows by the drift and nothing else —
      except that a full bucket may forget credit. */
  lemma RefilledCredit(r: Rule, b: Bucket, now: nat)
    requires r.Valid() && Sane(r, b, now)
    ensures var f := Refilled(r, b, now);
      && Sane(r, f, now) && f.key == b.key && b.last <= f.last
      && Credit(r, f) <= Credit(r, b) + Drift(r, b, now)
      && (f.tokens < r.capacity ==> Credit(r, f) == Credit(r, b) + Drift(r, b, now))
  {
    var f, refill := Refilled(r, b, now), Refill(r, b, now);
    RefillIsPaidFor(r, b, now);
    CreditedBounds(r, b, now);
    if refill == 0 {
      assert 0 * r.window == 0;
    } else if SatAdd(b.tokens, refill) >= r.capacity {
      assert r.capacity <= b.tokens + refill;
      MulLe(r.capacity, b.tokens + refill, r.window);
      Distribute(b.tokens, refill, r.window);
      Distribute(now, b.last, r.limit);
    } else {
      Distribute(b.tokens, refill, r.window);
      Distribute(b.last, Credited(r, refill), r.limit);
    }
  }

  /** One call keeps the bucket within capacity and the clock; it takes 1000 * window units
      of worth exactly when it allows the request. */
  lemma ConsumeCredit(r: Rule, b: Bucket, now: nat)
    requires r.Valid() && Sane(r, b, now)
    ensures var (b', v) := Consume(r, b, now);
      && Sane(r, b', now) && b'.key == b.key && b.last <= b'.last
      && Credit(r, b') + (if v.allowed then MILLI * r.window else 0) <= Credit(r, b) + Drift(r, b, now)
      && (!v.allowed || Refilled(r, b, now).tokens < r.capacity ==>
            Credit(r, b') + (if v.allowed then MILLI * r.window else 0) == Credit(r, b) + Drift(r, b, now))
  {
    RefilledCredit(r, b, now);
    var f := Refilled(r, b, now);
    Distribute(f.tokens, MILLI, r.window);
  }

  lemma EmptyRun(r: Rule, b: Bucket)
    requires r.Valid()
    ensures BucketAfter(r, b, []) == b && Allowed(r, b, []) == 0
  {
  }

  lemma RunStep(r: Rule, b: Bucket, init: seq<nat>, now: nat)
    requires r.Valid()
    ensures BucketAfter(r, b, init + [now]) == Consume(r, BucketAfter(r, b, init), now).0
    ensures Allowed(r, b, init + [now]) ==
            Allowed(r, b, init) + (if Consume(r, BucketAfter(r, b, init), now).1.allowed then 1 else 0)
  {
    assert (init + [now])[..|init + [now]| - 1] == init;
  }

  lemma {:induction false} RunSane(r: Rule, b: Bucket, t0: nat, times: seq<nat>)
    requires r.Valid() && Sane(r, b, t0) && Sorted(t0, times)
    ensures Sane(r, BucketAfter(r, b, times), Last(t0, times))
    ensures b.last <= BucketAfter(r, b, times).last && BucketAfter(r, b, times).key == b.key
  {
    if times != [] {
      var init, now := times[..|times| - 1], times[|times| - 1];
      RunSane(r, b, t0, init);
      assert Last(t0, init) <= now;
      ConsumeCredit(r, BucketAfter(r, b, init), now);
    }
  }

  ghost predicate DriftsAtMost(r: Rule, b: Bucket, times: seq<nat>, d: nat)
    requires r.Valid()
  {
    forall i | 0 <= i < |times| :: Drift(r, BucketAfter(r, b, times[..i]), times[i]) <= d
  }

  /** If every call of a run drifts by at most `d`, the whole run is short of its worth by at
      most `d` per call. */
  lemma {:induction false} RunCredit(r: Rule, b: Bucket, t0: nat, times: seq<nat>, d: nat)
    requires r.Valid() && Sane(r, b, t0) && Sorted(t0, times)
    requires DriftsAtMost(r, b, times, d)
    ensures Credit(r, BucketAfter(r, b, times)) + Allowed(r, b, times) * (MILLI * r.window)
            <= Credit(r, b) + |times| * d
  {
    hide Consume, Drift, Credit, Refilled, Refill;
    if times != [] {
      var n := |times| - 1;
      var init, now := times[..n], times[n];
      assert DriftsAtMost(r, b, init, d) by {
        assert forall i | 0 <= i < n :: init[..i] == times[..i];
      }
      assert Drift(r, BucketAfter(r, b, times[..n]), times[n]) <= d;
      RunCredit(r, b, t0, init, d);
      RunSane(r, b, t0, init);
      assert Last(t0, init) <= now;
      ConsumeCredit(r, BucketAfter(r, b, init), now);
      Distribute(Allowed(r, b, init), 1, MILLI * r.window);
      Distribute(n, 1, d);
    }
  }

  lemma BoundFromCredit(r: Rule, b: Bucket, t0: nat, times: seq<nat>, d: nat)
    requires r.Valid() && b.tokens == r.capacity && b.last == t0 <= U64_MAX && Sorted(t0, times)
    requires DriftsAtMost(r, b, times, d)
    ensures MILLI * r.window * Allowed(r, b, times)
            <= r.capacity * r.window + (Last(t0, times) - t0) * r.limit + |times| * d
  {
    hide Consume, Drift, Refilled, Refill, BucketAfter, Allowed, DriftsAtMost;
    RunCredit(r, b, t0, times, d);
    RunSane(r, b, t0, times);
    var e := BucketAfter(r, b, times);
    MulLe(e.last, Last(t0, times), r.limit);
    Distribute(Last(t0, times), t0, r.limit);
    assert 0 <= e.tokens * r.window;
  }

  /** Upper bound, for every run: a bucket claimed full at t0 never lets through more than its
      capacity plus what the elapsed time refills, plus a rounding gift of less than `limit`
      units per call. */
  lemma NeverExceedsBudget(r: Rule, b: Bucket, t0: nat, times: seq<nat>)
    requires r.Valid() && b.tokens == r.capacity && b.last == t0 <= U64_MAX && Sorted(t0, times)
    ensures MILLI * r.window * Allowed(r, b, times)
            <= r.capacity * r.window + (Last(t0, times) - t0) * r.limit + |times| * (r.limit - 1)
  {
    assert DriftsAtMost(r, b, times, r.limit - 1);
    hide *;
    BoundFromCredit(r, b, t0, times, r.limit - 1);
  }

  // ---- When the gift is nothing ----

  predicate Divides(a: nat, b: nat)
    requires 0 < a
  {
    b % a == 0
  }

  lemma NoDrift(r: Rule, b: Bucket, now: nat)
    requires r.Valid() && Sane(r, b, now)
    requires Divides(r.limit, r.window) || Divides(r.window, r.limit)
    requires (now - b.last) * r.limit <= U64_MAX
    ensures Drift(r, b, now) == 0
  {
    var refill := Refill(r, b, now);
    if Divides(r.limit, r.window) {
      var k := r.window / r.limit;
      DivModIdentity(r.window, r.limit);
      MulAssoc(refill, k, r.limit);
      DivModUnique(refill * r.window, r.limit, refill * k, 0);
    } else {
      var k := r.limit / r.window;
      DivModIdentity(r.limit, r.window);
      MulAssoc(now - b.last, k, r.window);
      DivModUnique((now - b.last) * r.limit, r.window, (now - b.last) * k, 0);
      assert refill * r.window == (now - b.last) * r.limit;
      DivModUnique(refill * r.window, r.limit, now - b.last, 0);
    }
  }

  lemma MulAssoc(a: int, b: int, c: int)
    ensures a * (b * c) == a * b * c
  {
  }

  /** The per-call gift is gone when limit and window divide one another (as long as the run is
      short enough for elapsed * limit to stay within 64 bits). */
  lemma ExactBudgetWhenDividing(r: Rule, b: Bucket, t0: nat, times: seq<nat>)
    requires r.Valid() && b.tokens == r.capacity && b.last == t0 <= U64_MAX && Sorted(t0, times)
    requires Divides(r.limit, r.window) || Divides(r.window, r.limit)
    requires (Last(t0, times) - t0) * r.limit <= U64_MAX
    ensures MILLI * r.window * Allowed(r, b, times)
            <= r.capacity * r.window + (Last(t0, times) - t0) * r.limit
  {
    hide Consume, Refilled, Refill, Allowed;
    forall i | 0 <= i < |times|
      ensures Drift(r, BucketAfter(r, b, times[..i]), times[i]) <= 0
    {
      var init := times[..i];
      RunSane(r, b, t0, init);
      assert Last(t0, init) <= times[i];
      var c := BucketAfter(r, b, init);
      MulLe(times[i] - c.last, Last(t0, times) - t0, r.limit);
      NoDrift(r, c, times[i]);
    }
    BoundFromCredit(r, b, t0, times, 0);
  }

  // ---- Progress ----

  /** While calls are refused nothing is lost: the worth of the bucket never falls. */
  lemma {:induction false} RefusalsKeepCredit(r: Rule, b: Bucket, t0: nat, times: seq<nat>)
    requires r.Valid() && Sane(r, b, t0) && Sorted(t0, times)
    requires forall i | 0 < i <= |times| :: !LastVerdict(r, b, times[..i]).allowed
    ensures Credit(r, b) <= Credit(r, BucketAfter(r, b, times))
  {
    hide Consume, Drift, Credit, Refilled, Refill;
    if times != [] {
      var n := |times| - 1;
      var init, now := times[..n], times[n];
      assert times[..|times|] == times;
      assert forall i | 0 < i <= n :: init[..i] == times[..i];
      RefusalsKeepCredit(r, b, t0, init);
      RunSane(r, b, t0, init);
      assert Last(t0, init) <= now;
      ConsumeCredit(r, BucketAfter(r, b, init), now);
    }
  }

  /** A call is allowed exactly when a whole token is there, or what is missing has come in since and
      is no more than one refill can bring. */
  lemma EnoughTimeAllows(r: Rule, b: Bucket, now: nat)
    requires r.Valid() && Sane(r, b, now)
    ensures Consume(r, b, now).1.allowed <==>
            || MILLI <= b.tokens
            || ((MILLI - b.tokens) * r.window <= U64_MAX && (MILLI - b.tokens) * r.window <= (now - b.last) * r.limit)
  {
    if b.tokens < MILLI {
      var missing, paid := MILLI - b.tokens, SatMul(now - b.last, r.limit);
      var refill := Refill(r, b, now);
      assert refill == paid / r.window;
      if missing * r.window <= paid {
        DivAtLeast(paid, r.window, missing);
      } else if missing <= refill {
        DivBounds(paid, r.window);
        MulLe(missing, refill, r.window);
      }
      hide Refill;
      assert Consume(r, b, now).1.allowed <==> missing <= refill;
    }
  }

  lemma RetryAfterCovers(r: Rule, b: Bucket, now: nat)
    requires r.Valid() && !Consume(r, b, now).1.allowed
    ensures Consume(r, b, now).0.tokens < MILLI
    ensures var (b', v) := Consume(r, b, now); var need := (MILLI - b'.tokens) * r.window;
      0 < v.retryAfter && (need <= U64_MAX ==> need <= 1000 * v.retryAfter * r.limit)
  {
    var (b', v) := Consume(r, b, now);
    var need := (MILLI - b'.tokens) * r.window;
    if need <= U64_MAX {
      var ms := CeilDiv(need, r.limit);
      CeilDivCovers(need, r.limit);
      CeilDivCovers(ms, 1000);
      MulLe(ms, 1000 * v.retryAfter, r.limit);
    }
  }

  lemma CeilDivCovers(a: nat, b: nat)
    requires 0 < b
    ensures a <= CeilDiv(a, b) * b
  {
    DivBounds(a + b - 1, b);
  }

  lemma RefusalKeepsTokens(r: Rule, b: Bucket, now: nat)
    requires r.Valid() && b.tokens <= r.capacity && !Consume(r, b, now).1.allowed
    ensures b.tokens <= Consume(r, b, now).0.tokens
  {
    hide Refill, Credited;
  }

  lemma {:induction false} RefusalsKeepTokens(r: Rule, b: Bucket, t0: nat, times: seq<nat>)
    requires r.Valid() && Sane(r, b, t0) && Sorted(t0, times)
    requires forall i | 0 < i <= |times| :: !LastVerdict(r, b, times[..i]).allowed
    ensures b.tokens <= BucketAfter(r, b, times).tokens
  {
    hide Consume;
    if times != [] {
      var n := |times| - 1;
      var init := times[..n];
      assert times[..|times|] == times;
      assert forall i | 0 < i <= n :: init[..i] == times[..i];
      RefusalsKeepTokens(r, b, t0, init);
      RunSane(r, b, t0, init);
      RefusalKeepsTokens(r, BucketAfter(r, b, init), times[n]);
    }
  }

  /** What a refusal finds missing is no more than one refill can bring. */
  predicate Bringable(r: Rule, b: Bucket) {
    MILLI <= b.tokens || (MILLI - b.tokens) * r.window <= U64_MAX
  }

  /** Progress, for every run: after a refusal at time t that reported retry_after r, however
      many refused calls come in between, the first call at or after t + 1000 * r is allowed. */
  lemma RetryAfterIsHonoured(r: Rule, b: Bucket, t: nat, between: seq<nat>, later: nat)
    requires r.Valid() && Sane(r, b, t)
    requires !Consume(r, b, t).1.allowed && Bringable(r, Consume(r, b, t).0)
    requires Sorted(t, between) && Last(t, between) <= later <= U64_MAX
    requires forall i | 0 < i <= |between| :: !LastVerdict(r, Consume(r, b, t).0, between[..i]).allowed
    requires t + 1000 * Consume(r, b, t).1.retryAfter <= later
    ensures Consume(r, BucketAfter(r, Consume(r, b, t).0, between), later).1.allowed
  {
    hide Consume, BucketAfter, LastVerdict;
    var (b1, v) := Consume(r, b, t);
    ConsumeCredit(r, b, t);
    RetryAfterCovers(r, b, t);
    RefusalsKeepCredit(r, b1, t, between);
    RefusalsKeepTokens(r, b1, t, between);
    RunSane(r, b1, t, between);
    var b2 := BucketAfter(r, b1, between);
    MulLe(1000 * v.retryAfter, later - b1.last, r.limit);
    Distribute(later, b1.last, r.limit);
    Distribute(later, b2.last, r.limit);
    Distribute(MILLI, b1.tokens, r.window);
    Distribute(MILLI, b2.tokens, r.window);
    MulLe(b1.tokens, b2.tokens, r.window);
    EnoughTimeAllows(r, b2, later);
  }

  /** The promise of a refusal is kept in every run exactly when what is missing can come in one refill,
      or the promised time is past the end of the clock. */
  lemma RetryAfterHonouredIff(r: Rule, b: Bucket, t: nat)
    requires r.Valid() && Sane(r, b, t) && !Consume(r, b, t).1.allowed
    ensures (forall between: seq<nat>, later: nat |
               && Sorted(t, between) && Last(t, between) <= later <= U64_MAX
               && (forall i | 0 < i <= |between| :: !LastVerdict(r, Consume(r, b, t).0, between[..i]).allowed)
               && t + 1000 * Consume(r, b, t).1.retryAfter <= later ::
               Consume(r, BucketAfter(r, Consume(r, b, t).0, between), later).1.allowed)
            <==> Bringable(r, Consume(r, b, t).0) || U64_MAX < t + 1000 * Consume(r, b, t).1.retryAfter
  {
    hide Consume, LastVerdict, BucketAfter;
    var (b1, v) := Consume(r, b, t);
    if Bringable(r, b1) {
      forall between: seq<nat>, later: nat |
        && Sorted(t, between) && Last(t, between) <= later <= U64_MAX
        && (forall i | 0 < i <= |between| :: !LastVerdict(r, b1, between[..i]).allowed)
        && t + 1000 * v.retryAfter <= later
        ensures Consume(r, BucketAfter(r, b1, between), later).1.allowed
      {
        RetryAfterIsHonoured(r, b, t, between, later);
      }
    } else if t + 1000 * v.retryAfter <= U64_MAX {
      var later := t + 1000 * v.retryAfter;
      ConsumeCredit(r, b, t);
      EmptyRun(r, b1);
      EnoughTimeAllows(r, b1, later);
      assert !Consume(r, BucketAfter(r, b1, []), later).1.allowed;
    }
  }
}
