/** When the limiter's rounding gives something away: a run that beats the exact budget,
    built for every rule in which neither limit nor window divides the other. */
module RateDrift {
  import opened Common
  import opened Arith
  import opened TokenBucket

  /** A rule whose capacity is a whole number of tokens, as `check` builds it. */
  function WholeRule(limit: nat, window: nat, whole: nat): Rule {
    Rule(limit, window, MILLI * whole)
  }

  /** The rule and the runs below stay within 64 bits. */
  predicate Fits(limit: nat, window: nat, whole: nat) {
    && 0 < limit <= whole && 0 < window && MILLI * whole <= U64_MAX
    && (MILLI * window + limit + 1) * (window + limit) <= U64_MAX
  }

  /** Waiting `c + 1` milliseconds refills `g` thousandths, is charged as `c` milliseconds, and
      the charge falls short of what the refill is worth. */
  ghost predicate Pause(r: Rule, c: nat, g: nat)
    requires r.Valid()
  {
    && (c + 1) * r.limit <= U64_MAX && (c + 1) * r.limit / r.window == g
    && g * r.window <= U64_MAX && g * r.window / r.limit == c
    && 1 <= g * r.window % r.limit
    && 1 <= g <= r.limit && 2 <= r.limit
    && (c == 0 || g == 1)
    && c * r.limit <= r.window
  }

  lemma PauseSlow(r: Rule) returns (c: nat, g: nat)
    requires r.Valid() && r.limit < r.window && !Divides(r.limit, r.window) && r.window + r.limit <= U64_MAX
    ensures Pause(r, c, g)
  {
    var m := r.window % r.limit;
    c, g := r.window / r.limit, 1;
    DivModIdentity(r.window, r.limit);
    Distribute(c, 1, r.limit);
    DivModUnique((c + 1) * r.limit, r.window, 1, r.limit - m);
    DivModUnique(g * r.window, r.limit, c, m);
  }

  lemma PauseFast(r: Rule) returns (c: nat, g: nat)
    requires r.Valid() && r.window < r.limit && !Divides(r.window, r.limit) && r.window + r.limit <= U64_MAX
    ensures Pause(r, c, g)
  {
    c, g := 0, r.limit / r.window;
    DivModIdentity(r.limit, r.window);
    DivAtLeast(r.limit, r.window, 1);
    MulAtLeast(g, r.window);
    MulAtLeast(r.window, g);
    DivModUnique(g * r.window, r.limit, 0, g * r.window);
  }

  lemma PauseExists(r: Rule) returns (c: nat, g: nat)
    requires r.Valid() && !Divides(r.limit, r.window) && !Divides(r.window, r.limit)
    requires r.window + r.limit <= U64_MAX
    ensures Pause(r, c, g)
  {
    if r.limit < r.window {
      c, g := PauseSlow(r);
    } else {
      assert r.limit != r.window by { DivModUnique(r.limit, r.limit, 1, 0); }
      c, g := PauseFast(r);
    }
  }

  // ---- The run: drain the bucket at time 0, then call once per pause ----

  function CallAt(c: nat, j: nat): nat {
    j * c + c + 1
  }

  function Calls(c: nat, n: nat): seq<nat> {
    if n == 0 then [] else Calls(c, n - 1) + [CallAt(c, n - 1)]
  }

  function Drain(k: nat): seq<nat> {
    if k == 0 then [] else Drain(k - 1) + [0]
  }

  function DriftRun(whole: nat, c: nat, n: nat): seq<nat> {
    Drain(whole) + Calls(c, n)
  }

  function Full(r: Rule): Bucket {
    Bucket(1, r.capacity, 0)
  }

  lemma DriftRunStep(whole: nat, c: nat, n: nat)
    requires 0 < n
    ensures DriftRun(whole, c, n) == DriftRun(whole, c, n - 1) + [CallAt(c, n - 1)]
  {
  }

  lemma {:induction false} Drained(r: Rule, whole: nat, k: nat)
    requires r.Valid() && r.capacity == MILLI * whole && k <= whole
    ensures BucketAfter(r, Full(r), Drain(k)) == Bucket(1, MILLI * (whole - k), 0)
    ensures Allowed(r, Full(r), Drain(k)) == k
  {
    hide Consume, BucketAfter, Allowed;
    if k == 0 {
      EmptyRun(r, Full(r));
    } else {
      Drained(r, whole, k - 1);
      RunStep(r, Full(r), Drain(k - 1), 0);
      var b := Bucket(1, MILLI * (whole - k + 1), 0);
      assert b.tokens == MILLI * (whole - k) + MILLI;
      CallAtZero(r, b);
    }
  }

  lemma CallAtZero(r: Rule, b: Bucket)
    requires r.Valid() && b.last == 0 && MILLI <= b.tokens
    ensures Consume(r, b, 0) == (b.(tokens := b.tokens - MILLI), Verdict(true, (b.tokens - MILLI) / MILLI, 0))
  {
    assert SatMul(0, r.limit) == 0;
  }

  // ---- Below one token per pause ----

  lemma PausedCall(r: Rule, c: nat, g: nat, b: Bucket)
    requires r.Valid() && Pause(r, c, g) && g < MILLI && b.tokens < MILLI && MILLI * r.limit <= r.capacity
    requires b.last + c + 1 <= U64_MAX
    ensures var (b', v) := Consume(r, b, b.last + c + 1);
      && b'.tokens < MILLI && b'.last == b.last + c
      && Credit(r, b) + 1 <= Credit(r, b') + (if v.allowed then MILLI * r.window else 0)
  {
    var now := b.last + c + 1;
    assert Refill(r, b, now) == g;
    assert b.tokens + g < r.capacity;
    ConsumeCredit(r, b, now);
  }

  /** Each call of the run leaves the bucket worth at least one unit more than it paid for. */
  lemma {:induction false} DriftRunLedger(r: Rule, c: nat, g: nat, whole: nat, n: nat)
    requires r.Valid() && Pause(r, c, g) && g < MILLI && r.limit <= whole && r.capacity == MILLI * whole
    requires n * c + 1 <= U64_MAX
    ensures var times := DriftRun(whole, c, n); var b := BucketAfter(r, Full(r), times);
      && b.tokens < MILLI && b.last == n * c
      && r.capacity * r.window + n <= Credit(r, b) + MILLI * r.window * Allowed(r, Full(r), times)
  {
    hide Consume, BucketAfter, Allowed, Pause, Full;
    if n == 0 {
      assert DriftRun(whole, c, n) == Drain(whole);
      Drained(r, whole, whole);
      assert MILLI * r.window * whole == MILLI * whole * r.window;
    } else {
      Distribute(n - 1, 1, c);
      DriftRunLedger(r, c, g, whole, n - 1);
      DriftRunStep(whole, c, n);
      hide DriftRun, Credit;
      var times := DriftRun(whole, c, n - 1);
      var b := BucketAfter(r, Full(r), times);
      RunStep(r, Full(r), times, CallAt(c, n - 1));
      PausedCall(r, c, g, b);
      Distribute(Allowed(r, Full(r), times), 1, MILLI * r.window);
    }
  }

  // ---- A token or more per millisecond ----

  lemma FastCall(r: Rule, g: nat, b: Bucket, whole: nat, n: nat)
    requires r.Valid() && Pause(r, 0, g) && MILLI <= g && r.capacity == MILLI * whole && 0 < n <= whole
    requires b.last == 0 || (b.last == 1 && MILLI * (whole - n + 1) <= b.tokens)
    ensures var (b', v) := Consume(r, b, 1);
      v.allowed && (b'.last == 0 || (b'.last == 1 && MILLI * (whole - n) <= b'.tokens))
  {
    assert b.last == 0 ==> Refill(r, b, 1) == g;
    assert b.last == 1 ==> Refill(r, b, 1) == 0;
  }

  /** The calls after the bucket ran dry are all let through one millisecond later. */
  lemma {:induction false} FastRun(r: Rule, g: nat, whole: nat, n: nat)
    requires r.Valid() && Pause(r, 0, g) && MILLI <= g && r.capacity == MILLI * whole && n <= whole
    ensures var times := DriftRun(whole, 0, n); var b := BucketAfter(r, Full(r), times);
      && Allowed(r, Full(r), times) == whole + n
      && (b.last == 0 || (b.last == 1 && MILLI * (whole - n) <= b.tokens))
  {
    hide Consume, BucketAfter, Allowed, Pause, Full;
    if n == 0 {
      assert DriftRun(whole, 0, n) == Drain(whole);
      Drained(r, whole, whole);
    } else {
      FastRun(r, g, whole, n - 1);
      DriftRunStep(whole, 0, n);
      hide DriftRun;
      var times := DriftRun(whole, 0, n - 1);
      RunStep(r, Full(r), times, CallAt(0, n - 1));
      FastCall(r, g, BucketAfter(r, Full(r), times), whole, n);
    }
  }

  // ---- The exact budget ----

  ghost predicate WithinExactBudget(r: Rule, key: nat, t0: nat, times: seq<nat>)
    requires r.Valid()
  {
    MILLI * r.window * Allowed(r, Bucket(key, r.capacity, t0), times)
    <= r.capacity * r.window + (Last(t0, times) - t0) * r.limit
  }

  ghost predicate Runnable(r: Rule, t0: nat, times: seq<nat>) {
    t0 <= U64_MAX && Sorted(t0, times) && (Last(t0, times) - t0) * r.limit <= U64_MAX
  }

  lemma {:induction false} DrainFacts(k: nat)
    ensures |Drain(k)| == k && forall i | 0 <= i < k :: Drain(k)[i] == 0
  {
    if 0 < k { DrainFacts(k - 1); }
  }

  lemma {:induction false} CallsFacts(c: nat, n: nat)
    ensures |Calls(c, n)| == n && forall i | 0 <= i < n :: Calls(c, n)[i] == CallAt(c, i)
  {
    if 0 < n { CallsFacts(c, n - 1); }
  }

  lemma DriftRunSorted(whole: nat, c: nat, n: nat)
    requires 0 < n && n * c + 1 <= U64_MAX
    ensures Sorted(0, DriftRun(whole, c, n))
    ensures Last(0, DriftRun(whole, c, n)) == n * c + 1
  {
    DrainFacts(whole);
    CallsFacts(c, n);
    var times := DriftRun(whole, c, n);
    forall i, j | 0 <= i <= j < n
      ensures CallAt(c, i) <= CallAt(c, j) <= n * c + 1
    {
      MulLe(i, j, c);
      MulLe(j + 1, n, c);
      Distribute(j, 1, c);
    }
    hide CallAt;
    forall i | 0 <= i < |times|
      ensures times[i] <= U64_MAX
    {
      assert whole <= i ==> times[i] == CallAt(c, i - whole) <= CallAt(c, n - 1);
    }
    forall i, j | 0 <= i < j < |times|
      ensures times[i] <= times[j]
    {
      assert whole <= i ==> times[i] == CallAt(c, i - whole) <= CallAt(c, j - whole) == times[j];
    }
    LastCall(c, n);
  }

  lemma LastCall(c: nat, n: nat)
    requires 0 < n
    ensures CallAt(c, n - 1) == n * c + 1
  {
    Distribute(n - 1, 1, c);
  }

  lemma FastOverspends(r: Rule, g: nat, whole: nat)
    requires r.Valid() && Pause(r, 0, g) && MILLI <= g && r.limit <= whole && r.capacity == MILLI * whole
    ensures var times := DriftRun(whole, 0, whole);
      Runnable(r, 0, times) && !WithinExactBudget(r, 1, 0, times)
  {
    hide Allowed, BucketAfter, DriftRun;
    DriftRunSorted(whole, 0, whole);
    FastRun(r, g, whole, whole);
    assert MILLI * r.window * (whole + whole) == MILLI * whole * r.window + MILLI * r.window * whole;
    MulLe(1, r.window, MILLI * whole);
    assert MILLI * r.window * whole == r.window * (MILLI * whole);
  }

  lemma SlowFits(r: Rule, c: nat, g: nat, whole: nat)
    requires r.Valid() && Pause(r, c, g) && Fits(r.limit, r.window, whole)
    ensures var n := MILLI * r.window + r.limit;
      (n * c + 1) * r.limit <= U64_MAX && n * c + 1 <= U64_MAX
  {
    var n, s := MILLI * r.window + r.limit, r.window + r.limit;
    calc {
      (n * c + 1) * r.limit;
      { Distribute(n * c, 1, r.limit); MulAssoc(n, c, r.limit); }
      n * (c * r.limit) + r.limit;
    <=  { MulLe(c * r.limit, s, n); }
      s * n + s;
      { Distribute(n, 1, s); }
      (n + 1) * s;
    }
    MulAtLeast(r.limit, n * c + 1);
  }

  lemma SlowOverspends(r: Rule, c: nat, g: nat, whole: nat)
    requires r.Valid() && Pause(r, c, g) && g < MILLI && Fits(r.limit, r.window, whole) && r.capacity == MILLI * whole
    ensures var times := DriftRun(whole, c, MILLI * r.window + r.limit);
      Runnable(r, 0, times) && !WithinExactBudget(r, 1, 0, times)
  {
    var n := MILLI * r.window + r.limit;
    SlowFits(r, c, g, whole);
    hide Allowed, BucketAfter, DriftRun, Fits, Pause;
    DriftRunSorted(whole, c, n);
    DriftRunLedger(r, c, g, whole, n);
    var b := BucketAfter(r, Full(r), DriftRun(whole, c, n));
    Overspent(r, b, Allowed(r, Full(r), DriftRun(whole, c, n)), n * c);
  }

  lemma Overspent(r: Rule, b: Bucket, allowed: nat, last: nat)
    requires r.Valid() && b.tokens < MILLI && b.last == last
    requires r.capacity * r.window + (MILLI * r.window + r.limit) <= Credit(r, b) + MILLI * r.window * allowed
    ensures r.capacity * r.window + (last + 1 - 0) * r.limit < MILLI * r.window * allowed
  {
    Distribute(last, 1, r.limit);
    MulLe(b.tokens, MILLI - 1, r.window);
  }

  /** The exact budget — capacity plus what the elapsed time refills, nothing per call — holds
      for every run that fits in 64 bits if and only if one of limit and window divides the
      other. */
  lemma ExactBudgetIffDividing(limit: nat, window: nat, whole: nat)
    requires Fits(limit, window, whole)
    ensures var r := WholeRule(limit, window, whole);
      (forall t0: nat, key: nat, times | Runnable(r, t0, times) :: WithinExactBudget(r, key, t0, times))
      <==> Divides(limit, window) || Divides(window, limit)
  {
    var r := WholeRule(limit, window, whole);
    if !Divides(limit, window) && !Divides(window, limit) {
      MulAtLeast(MILLI * window + limit + 1, window + limit);
      var c, g := PauseExists(r);
      if MILLI <= g {
        FastOverspends(r, g, whole);
      } else {
        SlowOverspends(r, c, g, whole);
      }
    } else {
      forall t0: nat, key: nat, times | Runnable(r, t0, times)
        ensures WithinExactBudget(r, key, t0, times)
      {
        ExactBudgetWhenDividing(r, Bucket(key, r.capacity, t0), t0, times);
      }
    }
  }
}
