/** What the limiter tells its client: how long to wait after a refusal, and how much is left after an
    allowed call. */
module RateVerdicts {
  import opened Common
  import opened Arith
  import opened TokenBucket

  // ---- How long to wait ----

  lemma CeilDivAbove(a: nat, b: nat, k: nat)
    requires 0 < b && k < CeilDiv(a, b)
    ensures k * b < a
  {
    DivBounds(a + b - 1, b);
    MulLe(k + 1, CeilDiv(a, b), b);
    Distribute(k, 1, b);
  }

  /** What is missing takes more than all but the last of the seconds reported. */
  lemma RetryAfterIsNeeded(r: Rule, b: Bucket, now: nat)
    requires r.Valid() && !Consume(r, b, now).1.allowed && 1 < Consume(r, b, now).1.retryAfter
    ensures Consume(r, b, now).0.tokens < MILLI
    ensures var (b', v) := Consume(r, b, now); 1000 * (v.retryAfter - 1) * r.limit < (MILLI - b'.tokens) * r.window
  {
    var (b', v) := Consume(r, b, now);
    var need := SatMul(MILLI - b'.tokens, r.window);
    hide SatMul, Refilled;
    CeilDivAbove(CeilDiv(need, r.limit), 1000, v.retryAfter - 1);
    CeilDivAbove(need, r.limit, 1000 * (v.retryAfter - 1));
  }

  lemma NoTimeNoToken(r: Rule, b: Bucket, now: nat)
    requires r.Valid() && b.tokens < MILLI && now < b.last
    ensures !Consume(r, b, now).1.allowed
  {
    assert 0 / r.window == 0;
  }

  /** After a refusal that says to wait some seconds, a call at any time up to one second less, counted from
      where the bucket's clock stands, is refused. */
  lemma RefusedUntilRetry(r: Rule, b: Bucket, t: nat, later: nat)
    requires r.Valid() && Sane(r, b, t) && !Consume(r, b, t).1.allowed
    requires 1 < Consume(r, b, t).1.retryAfter && later <= U64_MAX
    requires later <= Consume(r, b, t).0.last + 1000 * (Consume(r, b, t).1.retryAfter - 1)
    ensures !Consume(r, Consume(r, b, t).0, later).1.allowed
  {
    hide Consume;
    var (b1, v) := Consume(r, b, t);
    RetryAfterIsNeeded(r, b, t);
    ConsumeCredit(r, b, t);
    if later < b1.last {
      NoTimeNoToken(r, b1, later);
    } else {
      MulLe(later - b1.last, 1000 * (v.retryAfter - 1), r.limit);
      EnoughTimeAllows(r, b1, later);
    }
  }

  /** The seconds reported are the least whole number of them, and at least one, after which a call is
      allowed, if what is missing can come in one refill; otherwise none is enough. */
  lemma RetryAfterIsLeast(r: Rule, b: Bucket, t: nat, n: nat)
    requires r.Valid() && Sane(r, b, t) && !Consume(r, b, t).1.allowed
    requires 0 < n && Consume(r, b, t).0.last + 1000 * n <= U64_MAX
    ensures 0 < Consume(r, b, t).1.retryAfter && Consume(r, b, t).1.remaining == 0
    ensures var (b1, v) := Consume(r, b, t);
      Consume(r, b1, b1.last + 1000 * n).1.allowed <==> Bringable(r, b1) && v.retryAfter <= n
  {
    RefusedHasNone(r, b, t);
    hide Consume;
    var (b1, v) := Consume(r, b, t);
    ConsumeCredit(r, b, t);
    RetryAfterCovers(r, b, t);
    EnoughTimeAllows(r, b1, b1.last + 1000 * n);
    if v.retryAfter <= n {
      MulLe(1000 * v.retryAfter, 1000 * n, r.limit);
    } else {
      RefusedUntilRetry(r, b, t, b1.last + 1000 * n);
    }
  }

  lemma RefusedHasNone(r: Rule, b: Bucket, t: nat)
    requires r.Valid() && !Consume(r, b, t).1.allowed
    ensures Consume(r, b, t).1.remaining == 0
  {
    hide Refilled, CeilDiv;
  }

  // ---- How much is left ----

  lemma {:induction false} OneMore(r: Rule, b: Bucket, now: nat, n: nat)
    requires r.Valid()
    ensures BucketAfter(r, b, Repeat(now, n + 1)) == Consume(r, BucketAfter(r, b, Repeat(now, n)), now).0
    ensures Allowed(r, b, Repeat(now, n + 1)) ==
            Allowed(r, b, Repeat(now, n)) + if Consume(r, BucketAfter(r, b, Repeat(now, n)), now).1.allowed then 1 else 0
  {
    hide Consume, BucketAfter, Allowed;
    RunStep(r, b, Repeat(now, n), now);
    assert Repeat(now, n + 1) == Repeat(now, n) + [now];
  }

  lemma NoCalls(r: Rule, b: Bucket, now: nat)
    requires r.Valid()
    ensures BucketAfter(r, b, Repeat(now, 0)) == b && Allowed(r, b, Repeat(now, 0)) == 0
  {
    assert Repeat(now, 0) == [];
  }

  /** A call with a whole token there is allowed and takes no more than it. */
  lemma TokenIsTaken(r: Rule, b: Bucket, now: nat)
    requires r.Valid() && Sane(r, b, now) && MILLI <= b.tokens
    ensures Consume(r, b, now).1.allowed && b.tokens - MILLI <= Consume(r, b, now).0.tokens
  {
    hide Refill, Credited;
  }

  /** As many calls at one instant are allowed as there are whole tokens, at least. */
  lemma {:induction false} TokensAreAllowed(r: Rule, b: Bucket, now: nat, n: nat)
    requires r.Valid() && Sane(r, b, now) && n * MILLI <= b.tokens
    ensures var c := BucketAfter(r, b, Repeat(now, n));
      Allowed(r, b, Repeat(now, n)) == n && Sane(r, c, now) && b.tokens - n * MILLI <= c.tokens
  {
    hide Consume, BucketAfter, Allowed;
    if n == 0 {
      NoCalls(r, b, now);
    } else {
      TokensAreAllowed(r, b, now, n - 1);
      OneMore(r, b, now, n - 1);
      TokenIsTaken(r, BucketAfter(r, b, Repeat(now, n - 1)), now);
      ConsumeCredit(r, BucketAfter(r, b, Repeat(now, n - 1)), now);
    }
  }

  lemma RemainingIsWhole(r: Rule, b: Bucket, now: nat)
    requires r.Valid() && Sane(r, b, now) && Consume(r, b, now).1.allowed
    ensures var (b', v) := Consume(r, b, now);
      b'.tokens == v.remaining * MILLI + b'.tokens % MILLI && b'.tokens <= r.capacity - MILLI && Sane(r, b', now) && v.retryAfter == 0
  {
    RefilledCredit(r, b, now);
    hide Refilled;
  }

  /** Whatever an allowed call says is left, so many more calls at the same instant are allowed. */
  lemma RemainingIsAllowed(r: Rule, b: Bucket, now: nat)
    requires r.Valid() && Sane(r, b, now) && Consume(r, b, now).1.allowed
    ensures var (b', v) := Consume(r, b, now); Allowed(r, b', Repeat(now, v.remaining)) == v.remaining
  {
    hide Consume, BucketAfter, Allowed;
    RemainingIsWhole(r, b, now);
    var (b', v) := Consume(r, b, now);
    TokensAreAllowed(r, b', now, v.remaining);
  }

  /** Where nothing comes in at this instant, calls only take. */
  lemma QuietCall(r: Rule, b: Bucket, now: nat)
    requires r.Valid() && Refill(r, b, now) == 0
    ensures Consume(r, b, now).1.allowed <==> MILLI <= b.tokens
    ensures MILLI <= b.tokens ==> Consume(r, b, now).0 == b.(tokens := b.tokens - MILLI)
  {
    hide CeilDiv;
  }

  lemma {:induction false} QuietCalls(r: Rule, b: Bucket, now: nat, n: nat)
    requires r.Valid() && Refill(r, b, now) == 0 && n * MILLI <= b.tokens
    ensures BucketAfter(r, b, Repeat(now, n)) == b.(tokens := b.tokens - n * MILLI)
  {
    hide Consume, BucketAfter, Allowed;
    if n == 0 {
      NoCalls(r, b, now);
    } else {
      QuietCalls(r, b, now, n - 1);
      OneMore(r, b, now, n - 1);
      QuietCall(r, b.(tokens := b.tokens - (n - 1) * MILLI), now);
    }
  }

  /** The call after those that are left. */
  ghost predicate ThenRefused(r: Rule, b: Bucket, now: nat, n: nat)
    requires r.Valid()
  {
    !Consume(r, BucketAfter(r, b, Repeat(now, n)), now).1.allowed
  }

  lemma QuietEnds(r: Rule, b: Bucket, now: nat, n: nat)
    requires r.Valid() && Refill(r, b, now) == 0 && n * MILLI <= b.tokens
    ensures ThenRefused(r, b, now, n) <==> b.tokens < (n + 1) * MILLI
  {
    hide Consume, BucketAfter;
    QuietCalls(r, b, now, n);
    QuietCall(r, b.(tokens := b.tokens - n * MILLI), now);
  }

  // Where the rounding gift comes in again at the same instant

  /** The time a refill was not charged for is worth less than one of `window` and one of `limit`. */
  lemma TimeLeft(r: Rule, b: Bucket, now: nat)
    requires r.Valid() && Sane(r, b, now) && (now - b.last) * r.limit <= U64_MAX
    requires var f := Refilled(r, b, now); 0 < Refill(r, b, now) && f.last < now
    ensures var f := Refilled(r, b, now);
      && f.last == b.last + Credited(r, Refill(r, b, now))
      && (now - f.last) * r.limit < r.window + r.limit && (now - f.last) * r.limit <= U64_MAX
      && (r.limit % r.window == 0 ==> (now - f.last) * r.limit == 0)
      && (r.window % r.limit == 0 ==> (now - f.last) * r.limit < r.window)
  {
    var e, refill := now - b.last, Refill(r, b, now);
    RefillIsPaidFor(r, b, now);
    CreditedBounds(r, b, now);
    DivBounds(e * r.limit, r.window);
    var c := Credited(r, refill);
    hide SatAdd, Refill, Credited;
    assert SatAdd(b.last, c) == b.last + c;
    Distribute(e, c, r.limit);
    assert (e - c) * r.limit == e * r.limit - refill * r.window + Drift(r, b, now);
    if r.window % r.limit == 0 {
      NoDrift(r, b, now);
    }
    if r.limit % r.window == 0 {
      NoDrift(r, b, now);
      ExactRefill(r, e, refill, b, now);
    }
  }

  lemma ExactRefill(r: Rule, e: nat, refill: nat, b: Bucket, now: nat)
    requires r.Valid() && Sane(r, b, now) && e == now - b.last && e * r.limit <= U64_MAX && refill == Refill(r, b, now)
    requires r.limit % r.window == 0
    ensures refill * r.window == e * r.limit
  {
    var k := r.limit / r.window;
    DivModIdentity(r.limit, r.window);
    MulAssoc(e, k, r.window);
    DivModUnique(e * r.limit, r.window, e * k, 0);
  }

  lemma RefillIs(r: Rule, b: Bucket, now: nat, g: nat)
    requires r.Valid() && b.last <= now && (now - b.last) * r.limit <= U64_MAX
    requires g * r.window <= (now - b.last) * r.limit < g * r.window + r.window
    ensures Refill(r, b, now) == g
  {
    DivModUnique((now - b.last) * r.limit, r.window, g, (now - b.last) * r.limit - g * r.window);
  }

  /** The time left is what a refill did not charge for. */
  predicate LittleLeft(r: Rule, b: Bucket, now: nat)
    requires r.Valid()
  {
    && b.last <= now <= U64_MAX && b.tokens + MILLI <= r.capacity
    && (now - b.last) * r.limit < r.window + r.limit && (now - b.last) * r.limit <= U64_MAX
    && (r.limit % r.window == 0 ==> (now - b.last) * r.limit == 0)
  }

  lemma WholeLimits(e: nat, limit: nat, window: nat)
    requires 0 < limit && window <= e * limit < window + limit
    ensures window / limit <= e <= window / limit + 1
  {
    DivModUnique(e * limit, limit, e, 0);
    DivMono(window, e * limit, limit);
    DivBounds(window, limit);
    Distribute(window / limit, 1, limit);
    DivAtMost(e * limit, limit, window / limit + 1);
  }

  /** With no more tokens than seconds, what comes in again is one thousandth, and nothing after it. */
  lemma SlowGift(r: Rule, b: Bucket, now: nat)
    requires r.Valid() && LittleLeft(r, b, now) && r.limit <= r.window && 0 < Refill(r, b, now)
    ensures var f := Refilled(r, b, now); Refill(r, b, now) == 1 && f == Bucket(b.key, b.tokens + 1, f.last) && f.last <= now && Refill(r, f, now) == 0
  {
    var e, c := now - b.last, r.window / r.limit;
    DivBounds(e * r.limit, r.window);
    MulLe(1, Refill(r, b, now), r.window);
    RefillIs(r, b, now, 1);
    WholeLimits(e, r.limit, r.window);
    assert Credited(r, 1) == c by {
      assert 1 * r.window == r.window;
    }
    var f := Refilled(r, b, now);
    hide Refill, Credited;
    assert f.last == b.last + c;
    LimitTimes(r, now - f.last);
    RefillIs(r, f, now, 0);
  }

  lemma LimitTimes(r: Rule, e: nat)
    requires r.Valid() && e <= 1 && r.limit <= r.window && r.limit % r.window != 0
    ensures 0 <= e * r.limit < r.window
  {
    if r.limit == r.window {
      DivModUnique(r.limit, r.window, 1, 0);
    }
  }

  /** With more tokens than seconds, the time left is one millisecond or none. What it brings is not
      charged for, and comes in again with every call. */
  lemma FastGift(r: Rule, b: Bucket, now: nat)
    requires r.Valid() && LittleLeft(r, b, now) && r.window < r.limit && 0 < Refill(r, b, now)
    ensures now == b.last + 1 && r.limit % r.window != 0 && Refill(r, b, now) == r.limit / r.window && Credited(r, r.limit / r.window) == 0
  {
    var e, g := now - b.last, r.limit / r.window;
    if 2 <= e {
      MulLe(2, e, r.limit);
    }
    assert 0 * r.limit == 0 && 0 / r.window == 0;
    assert e == 1 && 1 * r.limit == r.limit;
    DivModIdentity(r.limit, r.window);
    MulAtLeast(r.window, g);
    DivModUnique(g * r.window, r.limit, 0, g * r.window);
  }

  /** What one such call does: it gains `g` and keeps the clock where it is, or fills the bucket. */
  lemma FastCall(r: Rule, b: Bucket, now: nat, g: nat)
    requires r.Valid() && b.last < now <= U64_MAX && b.tokens <= r.capacity && Refill(r, b, now) == g && 0 < g && Credited(r, g) == 0
    ensures var (c, v) := Consume(r, b, now);
      && (b.tokens + g < r.capacity ==>
            (v.allowed <==> MILLI <= b.tokens + g) && (v.allowed ==> c == b.(tokens := b.tokens + g - MILLI)))
      && (r.capacity <= b.tokens + g ==> v.allowed && c == b.(tokens := r.capacity - MILLI, last := now))
  {
    hide Refill, Credited, CeilDiv;
  }

  lemma {:induction false} FastCalls(r: Rule, b: Bucket, now: nat, g: nat, n: nat)
    requires r.Valid() && b.last < now <= U64_MAX && b.tokens + MILLI <= r.capacity && Refill(r, b, now) == g && 0 < g < MILLI && Credited(r, g) == 0
    requires n * MILLI <= b.tokens
    ensures BucketAfter(r, b, Repeat(now, n)) == b.(tokens := b.tokens + n * g - n * MILLI)
  {
    hide Consume, BucketAfter, Allowed, Credited, Refill;
    if n == 0 {
      NoCalls(r, b, now);
    } else {
      FastCalls(r, b, now, g, n - 1);
      OneMore(r, b, now, n - 1);
      Distribute(n - 1, 1, g);
      MulLe(g, MILLI, n - 1);
      var c := b.(tokens := b.tokens + (n - 1) * g - (n - 1) * MILLI);
      SameRefill(r, b, c, now);
      FastCall(r, c, now, g);
    }
  }

  /** With a whole token or more at every call the bucket rises until it is full, and is then emptied. */
  lemma {:induction false} FastFills(r: Rule, b: Bucket, now: nat, g: nat, n: nat)
    requires r.Valid() && b.last < now <= U64_MAX && b.tokens + MILLI <= r.capacity && Refill(r, b, now) == g && MILLI <= g && Credited(r, g) == 0
    requires (n + 1) * MILLI <= r.capacity
    ensures var c := BucketAfter(r, b, Repeat(now, n));
      || (c == b.(tokens := c.tokens) && c.tokens + MILLI <= r.capacity)
      || (c.last == now && r.capacity - n * MILLI <= c.tokens <= r.capacity)
  {
    hide Consume, BucketAfter, Allowed, Credited;
    if n == 0 {
      NoCalls(r, b, now);
    } else {
      FastFills(r, b, now, g, n - 1);
      OneMore(r, b, now, n - 1);
      var c := BucketAfter(r, b, Repeat(now, n - 1));
      if c.last == now {
        NoTimeNoRefill(r, c, now);
        QuietCall(r, c, now);
      } else {
        FastCall(r, c, now, g);
      }
    }
  }

  lemma NoTimeNoRefill(r: Rule, b: Bucket, now: nat)
    requires r.Valid() && now <= b.last
    ensures Refill(r, b, now) == 0
  {
    assert 0 * r.limit == 0 && 0 / r.window == 0;
  }

  lemma FastEnds(r: Rule, b: Bucket, now: nat, n: nat)
    requires r.Valid() && LittleLeft(r, b, now) && r.window < r.limit && 0 < Refill(r, b, now)
    requires n * MILLI <= b.tokens
    ensures ThenRefused(r, b, now, n) <==> b.tokens - n * MILLI + (n + 1) * Refill(r, b, now) < MILLI
  {
    hide Consume, BucketAfter, Credited, LittleLeft;
    var g := Refill(r, b, now);
    FastGift(r, b, now);
    FromLittle(r, b, now);
    if g < MILLI {
      FastCalls(r, b, now, g, n);
      Distribute(n, 1, g);
      MulLe(g, MILLI, n);
      FastCall(r, b.(tokens := b.tokens + n * g - n * MILLI), now, g);
    } else {
      FastFills(r, b, now, g, n);
      MulAtLeast(n + 1, g);
      var c := BucketAfter(r, b, Repeat(now, n));
      if c.last == now {
        NoTimeNoRefill(r, c, now);
        QuietCall(r, c, now);
      } else {
        FastCall(r, c, now, g);
      }
    }
  }

  lemma FromLittle(r: Rule, b: Bucket, now: nat)
    requires r.Valid() && LittleLeft(r, b, now)
    ensures now <= U64_MAX && b.tokens + MILLI <= r.capacity
  {
  }

  lemma SlowEnds(r: Rule, b: Bucket, now: nat, n: nat)
    requires r.Valid() && LittleLeft(r, b, now) && r.limit <= r.window && 0 < Refill(r, b, now)
    requires n * MILLI <= b.tokens < (n + 1) * MILLI
    ensures ThenRefused(r, b, now, n) <==> b.tokens - n * MILLI + Refill(r, b, now) < MILLI
  {
    SlowGift(r, b, now);
    hide Refill, Credited, CeilDiv, LittleLeft, BucketAfter;
    var f := Refilled(r, b, now);
    if n == 0 {
      NoCalls(r, b, now);
    } else {
      var c := Consume(r, b, now).0;
      assert c == f.(tokens := f.tokens - MILLI);
      hide Consume, Refilled;
      AfterFirst(r, b, now, n - 1);
      SameRefill(r, f, c, now);
      QuietEnds(r, c, now, n - 1);
    }
  }

  lemma SameRefill(r: Rule, b: Bucket, c: Bucket, now: nat)
    requires r.Valid() && c.last == b.last
    ensures Refill(r, c, now) == Refill(r, b, now)
  {
  }

  /** The first of the calls, and then the rest. */
  lemma {:induction false} AfterFirst(r: Rule, b: Bucket, now: nat, n: nat)
    requires r.Valid()
    ensures BucketAfter(r, b, Repeat(now, n + 1)) == BucketAfter(r, Consume(r, b, now).0, Repeat(now, n))
  {
    hide Consume, BucketAfter, Allowed;
    OneMore(r, b, now, n);
    if n == 0 {
      NoCalls(r, b, now);
      NoCalls(r, Consume(r, b, now).0, now);
    } else {
      AfterFirst(r, b, now, n - 1);
      OneMore(r, Consume(r, b, now).0, now, n - 1);
    }
  }

  /** What an allowed call leaves: a bucket to which nothing comes in at this instant, or one with a little
      time left. */
  lemma AllowedLeaves(r: Rule, b: Bucket, now: nat)
    requires r.Valid() && Sane(r, b, now) && (now - b.last) * r.limit <= U64_MAX && Consume(r, b, now).1.allowed
    ensures var b' := Consume(r, b, now).0; Refill(r, b', now) == 0 || LittleLeft(r, b', now)
    ensures Divides(r.limit, r.window) || Divides(r.window, r.limit) ==> Refill(r, Consume(r, b, now).0, now) == 0
  {
    RemainingIsWhole(r, b, now);
    var f, b' := Refilled(r, b, now), Consume(r, b, now).0;
    assert b'.last == f.last && b'.tokens <= r.capacity - MILLI;
    hide Consume;
    SameRefill(r, f, b', now);
    if Refill(r, b, now) == 0 {
      assert f == b;
    } else if f.last < now {
      TimeLeft(r, b, now);
      if Divides(r.limit, r.window) || Divides(r.window, r.limit) {
        RefillIs(r, b', now, 0);
      }
    } else {
      NoTimeNoRefill(r, b', now);
    }
  }

  /** Exactly as many calls are allowed at the same instant as an allowed call says are left, and the next
      is refused, if and only if the thousandths left over and what the instant brings in again do not make
      a token: it comes in once if there are no more tokens than seconds, and otherwise with every call.
      Where it brings in nothing, which is whenever one of the two divides the other, they never do. */
  lemma RemainingIsExactIff(r: Rule, b: Bucket, now: nat)
    requires r.Valid() && Sane(r, b, now) && (now - b.last) * r.limit <= U64_MAX && Consume(r, b, now).1.allowed
    ensures var (b', v) := Consume(r, b, now); var m, g := v.remaining, Refill(r, b', now);
      && Allowed(r, b', Repeat(now, m)) == m
      && (ThenRefused(r, b', now, m) <==> b'.tokens % MILLI + (if r.limit <= r.window then g else (m + 1) * g) < MILLI)
      && (Divides(r.limit, r.window) || Divides(r.window, r.limit) ==> ThenRefused(r, b', now, m))
  {
    hide Consume, BucketAfter, Allowed, Refill, LittleLeft, ThenRefused;
    RemainingIsWhole(r, b, now);
    RemainingIsAllowed(r, b, now);
    AllowedLeaves(r, b, now);
    var (b', v) := Consume(r, b, now);
    if Refill(r, b', now) == 0 {
      QuietEnds(r, b', now, v.remaining);
      assert (v.remaining + 1) * 0 == 0;
    } else if r.limit <= r.window {
      SlowEnds(r, b', now, v.remaining);
    } else {
      FastEnds(r, b', now, v.remaining);
    }
  }

  /** Without that bound on the elapsed time: whenever the instant brings in nothing more. */
  lemma RemainingIsExact(r: Rule, b: Bucket, now: nat)
    requires r.Valid() && Sane(r, b, now) && Consume(r, b, now).1.allowed && Refill(r, Consume(r, b, now).0, now) == 0
    ensures var (b', v) := Consume(r, b, now);
      Allowed(r, b', Repeat(now, v.remaining)) == v.remaining && ThenRefused(r, b', now, v.remaining)
  {
    hide Consume, BucketAfter, Allowed, Refill, ThenRefused;
    RemainingIsWhole(r, b, now);
    RemainingIsAllowed(r, b, now);
    QuietEnds(r, Consume(r, b, now).0, now, Consume(r, b, now).1.remaining);
  }

  /** 5000 tokens in 3 seconds: a call one millisecond after the bucket was empty is allowed and says that
      nothing is left, and the next call at the same instant is allowed too. */
  lemma MoreThanRemaining()
    ensures var r, b := Rule(5000, 3, 5_000_000), Bucket(1, 0, 0);
      r.Valid() && Consume(r, b, 1).1 == Verdict(true, 0, 0) && Consume(r, Consume(r, b, 1).0, 1).1.allowed
  {
    var r, b := Rule(5000, 3, 5_000_000), Bucket(1, 0, 0);
    assert Refill(r, b, 1) == 1666 && Credited(r, 1666) == 0;
    assert Refilled(r, b, 1) == Bucket(1, 1666, 0);
    assert Consume(r, b, 1).0 == Bucket(1, 666, 0);
    assert Refilled(r, Bucket(1, 666, 0), 1) == Bucket(1, 2332, 0);
  }
}
