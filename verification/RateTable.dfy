/** The shared bucket table: linear probing over eight slots, claiming a free one, and reusing
    the least recently refilled one when the window is full. */
module RateTable {
  import opened Common
  import opened TokenBucket

  const PROBE: nat := 8

  // ---- Where a key's call lands ----

  predicate Has(s: seq<Bucket>, h: nat) {
    exists c :: 0 <= c < |s| && s[c].key == h
  }

  /** Every claimed bucket sits in its key's probe window with no free slot before it, and no key
      has two. */
  ghost predicate TableInv(s: seq<Bucket>) {
    && 0 < |s|
    && (forall c | 0 <= c < |s| :: s[c].last <= U64_MAX)
    && (forall c | 0 <= c < |s| && s[c].key != 0 :: Reachable(s, c))
    && (forall c, d | 0 <= c < |s| && 0 <= d < |s| && s[c].key == s[d].key != 0 :: c == d)
  }

  ghost predicate Reachable(s: seq<Bucket>, c: nat)
    requires 0 < |s| && c < |s|
  {
    exists j :: 0 <= j < PROBE && Slot(s[c].key, j, |s|) == c && NoFreeBefore(s, s[c].key, j)
  }

  ghost predicate NoFreeBefore(s: seq<Bucket>, h: nat, j: nat)
    requires 0 < |s|
  {
    forall i | 0 <= i < j :: s[Slot(h, i, |s|)].key != 0
  }

  ghost predicate NotSeenBefore(s: seq<Bucket>, h: nat, j: nat)
    requires 0 < |s|
  {
    NoFreeBefore(s, h, j) && forall i | 0 <= i < j :: s[Slot(h, i, |s|)].key != h
  }

  /** The slot a call for `h` works on: its own bucket if it has one, else the first free slot of
      the window, else the slot of the window refilled longest ago. */
  ghost predicate IsTarget(s: seq<Bucket>, h: nat, c: nat)
    requires 0 < |s|
  {
    && c < |s|
    && (Has(s, h) ==> s[c].key == h)
    && (!Has(s, h) ==>
          || (exists j :: 0 <= j < PROBE && c == Slot(h, j, |s|) && s[c].key == 0 && NoFreeBefore(s, h, j))
          || (NoFreeBefore(s, h, PROBE) && IsColdest(s, h, c)))
  }

  ghost predicate ColderThanBefore(s: seq<Bucket>, h: nat, c: nat, j: nat)
    requires 0 < |s| && c < |s|
  {
    forall i | 0 <= i < j :: s[c].last < s[Slot(h, i, |s|)].last
  }

  /** The least recently refilled slot of the window, the first one on a tie. */
  ghost predicate IsColdest(s: seq<Bucket>, h: nat, c: nat)
    requires 0 < |s| && c < |s|
  {
    && (exists j :: 0 <= j < PROBE && c == Slot(h, j, |s|) && ColderThanBefore(s, h, c, j))
    && (forall i | 0 <= i < PROBE :: s[c].last <= s[Slot(h, i, |s|)].last)
  }

  function Claimed(s: seq<Bucket>, h: nat, c: nat, r: Rule, now: nat): Bucket
    requires c < |s|
  {
    if s[c].key == h then s[c] else Bucket(h, r.capacity, now)
  }

  function Called(s: seq<Bucket>, h: nat, c: nat, r: Rule, now: nat): seq<Bucket>
    requires c < |s| && r.Valid()
  {
    s[c := Consume(r, Claimed(s, h, c, r, now), now).0]
  }

  lemma OwnIsFound(s: seq<Bucket>, h: nat)
    requires TableInv(s) && h != 0 && Has(s, h)
    ensures !NotSeenBefore(s, h, PROBE)
    ensures forall j | 0 <= j < PROBE && NotSeenBefore(s, h, j) :: s[Slot(h, j, |s|)].key != 0
  {
    var c :| 0 <= c < |s| && s[c].key == h;
    assert Reachable(s, c);
  }

  lemma ConsumeKeepsKey(r: Rule, b: Bucket, now: nat)
    requires r.Valid() && b.last <= U64_MAX && now <= U64_MAX
    ensures Consume(r, b, now).0.key == b.key && Consume(r, b, now).0.last <= U64_MAX
  {
  }

  /** A call keeps the table's shape. */
  lemma CallKeepsInv(s: seq<Bucket>, h: nat, c: nat, r: Rule, now: nat)
    requires TableInv(s) && h != 0 && IsTarget(s, h, c) && r.Valid() && now <= U64_MAX
    ensures TableInv(Called(s, h, c, r, now))
  {
    var b := Claimed(s, h, c, r, now);
    ConsumeKeepsKey(r, b, now);
    hide Consume;
    var s' := Called(s, h, c, r, now);
    assert s'[c].key == h;
    forall d | 0 <= d < |s'| && s'[d].key != 0
      ensures Reachable(s', d)
    {
      if d != c {
        assert Reachable(s, d);
        var j :| 0 <= j < PROBE && Slot(s[d].key, j, |s|) == d && NoFreeBefore(s, s[d].key, j);
        assert NoFreeBefore(s', s'[d].key, j);
      } else if Has(s, h) {
        assert Reachable(s, c);
        var j :| 0 <= j < PROBE && Slot(h, j, |s|) == c && NoFreeBefore(s, h, j);
        assert NoFreeBefore(s', h, j);
      } else {
        var j :| 0 <= j < PROBE && c == Slot(h, j, |s|) && NoFreeBefore(s, h, j);
        assert NoFreeBefore(s', h, j);
      }
    }
  }

  // ---- Whole runs over the table ----

  /** One call: its key, its time, and the slot it worked on. */
  datatype Call = Call(key: nat, now: nat, slot: nat)

  function TableAfter(s: seq<Bucket>, rules: nat -> Rule, calls: seq<Call>): (t: seq<Bucket>)
    requires forall h :: rules(h).Valid()
    ensures |t| == |s|
  {
    if calls == [] then s
    else
      var t := TableAfter(s, rules, calls[..|calls| - 1]);
      var x := calls[|calls| - 1];
      if x.slot < |t| then Called(t, x.key, x.slot, rules(x.key), x.now) else t
  }

  /** Every call of the run worked on its target slot, at a 64-bit time. */
  ghost predicate IsRun(s: seq<Bucket>, rules: nat -> Rule, calls: seq<Call>)
    requires 0 < |s| && forall h :: rules(h).Valid()
  {
    calls == [] ||
    (var init, x := calls[..|calls| - 1], calls[|calls| - 1];
     && IsRun(s, rules, init)
     && x.key != 0 && x.now <= U64_MAX && x.slot < |s| && IsTarget(TableAfter(s, rules, init), x.key, x.slot))
  }

  /** The run begins with the call that claims a bucket for `h`, and `h` has one after every call. */
  ghost predicate ClaimedAndKept(s: seq<Bucket>, rules: nat -> Rule, calls: seq<Call>, h: nat, t0: nat)
    requires forall h :: rules(h).Valid()
  {
    && calls != []
    && Has(TableAfter(s, rules, calls), h)
    && (if |calls| == 1 then !Has(s, h) && calls[0].key == h && calls[0].now == t0
        else ClaimedAndKept(s, rules, calls[..|calls| - 1], h, t0))
  }

  function TimesOf(calls: seq<Call>, h: nat): seq<nat> {
    if calls == [] then []
    else
      var x := calls[|calls| - 1];
      TimesOf(calls[..|calls| - 1], h) + (if x.key == h then [x.now] else [])
  }

  /** How many of `h`'s calls the table let through. */
  function AllowedFor(s: seq<Bucket>, rules: nat -> Rule, calls: seq<Call>, h: nat): nat
    requires forall h :: rules(h).Valid()
  {
    if calls == [] then 0
    else
      var init, x := calls[..|calls| - 1], calls[|calls| - 1];
      var t := TableAfter(s, rules, init);
      AllowedFor(s, rules, init, h) +
      (if x.key == h && x.slot < |t|
          && Consume(rules(h), Claimed(t, h, x.slot, rules(h), x.now), x.now).1.allowed then 1 else 0)
  }

  ghost predicate Holds(s: seq<Bucket>, b: Bucket) {
    exists c :: 0 <= c < |s| && s[c] == b
  }

  lemma {:induction false} RunKeepsInv(s: seq<Bucket>, rules: nat -> Rule, calls: seq<Call>)
    requires 0 < |s| && TableInv(s) && (forall h :: rules(h).Valid()) && IsRun(s, rules, calls)
    ensures TableInv(TableAfter(s, rules, calls))
  {
    hide TableInv, IsTarget, Called;
    if calls != [] {
      var n := |calls| - 1;
      var init, x := calls[..n], calls[n];
      RunKeepsInv(s, rules, init);
      CallKeepsInv(TableAfter(s, rules, init), x.key, x.slot, rules(x.key), x.now);
    }
  }

  /** From the claim on, and as long as the key is not evicted, the other keys' calls do not matter
      to it: its bucket and its verdicts are those of a bucket of its own, full at the claim and fed
      with its own call times. */
  lemma {:induction false} OthersDoNotMatter(s: seq<Bucket>, rules: nat -> Rule, calls: seq<Call>, h: nat, t0: nat)
    requires 0 < |s| && TableInv(s) && (forall g :: rules(g).Valid()) && IsRun(s, rules, calls)
    requires h != 0 && ClaimedAndKept(s, rules, calls, h, t0)
    ensures var b := Bucket(h, rules(h).capacity, t0);
      && Holds(TableAfter(s, rules, calls), BucketAfter(rules(h), b, TimesOf(calls, h)))
      && BucketAfter(rules(h), b, TimesOf(calls, h)).key == h
      && AllowedFor(s, rules, calls, h) == Allowed(rules(h), b, TimesOf(calls, h))
  {
    hide Consume, TableInv, IsTarget, Claimed, Called, Holds, Has, BucketAfter, Allowed;
    var n := |calls| - 1;
    var init, x := calls[..n], calls[n];
    var b := Bucket(h, rules(h).capacity, t0);
    var t := TableAfter(s, rules, init);
    if n == 0 {
      assert init == [];
      FirstCall(s, rules, x, h);
      assert TimesOf(calls, h) == [] + [t0];
      RunStep(rules(h), b, [], t0);
      EmptyRun(rules(h), b);
    } else {
      OthersDoNotMatter(s, rules, init, h, t0);
      RunKeepsInv(s, rules, init);
      OneCall(t, rules, x, h, BucketAfter(rules(h), b, TimesOf(init, h)));
      if x.key == h {
        RunStep(rules(h), b, TimesOf(init, h), x.now);
      } else {
        assert TimesOf(calls, h) == TimesOf(init, h);
      }
    }
  }

  lemma FirstCall(s: seq<Bucket>, rules: nat -> Rule, x: Call, h: nat)
    requires TableInv(s) && (forall g :: rules(g).Valid()) && x.key == h != 0 && x.now <= U64_MAX
    requires IsTarget(s, h, x.slot) && !Has(s, h)
    ensures var b := Bucket(h, rules(h).capacity, x.now);
      && Claimed(s, h, x.slot, rules(h), x.now) == b
      && Consume(rules(h), b, x.now).0.key == h
      && Holds(Called(s, h, x.slot, rules(h), x.now), Consume(rules(h), b, x.now).0)
  {
    var b := Bucket(h, rules(h).capacity, x.now);
    assert s[x.slot].key != h;
    ConsumeKeepsKey(rules(h), b, x.now);
    hide Consume;
    assert Called(s, h, x.slot, rules(h), x.now)[x.slot] == Consume(rules(h), b, x.now).0;
  }

  lemma OneCall(t: seq<Bucket>, rules: nat -> Rule, x: Call, h: nat, b: Bucket)
    requires TableInv(t) && (forall g :: rules(g).Valid()) && x.key != 0 && h != 0
    requires IsTarget(t, x.key, x.slot) && b.key == h && Holds(t, b) && x.now <= U64_MAX
    requires Has(Called(t, x.key, x.slot, rules(x.key), x.now), h)
    ensures var t' := Called(t, x.key, x.slot, rules(x.key), x.now);
      if x.key == h then
        && Claimed(t, h, x.slot, rules(h), x.now) == b
        && Consume(rules(h), b, x.now).0.key == h && Holds(t', Consume(rules(h), b, x.now).0)
      else Holds(t', b)
  {
    var t' := Called(t, x.key, x.slot, rules(x.key), x.now);
    var c :| 0 <= c < |t| && t[c] == b;
    var y := Claimed(t, x.key, x.slot, rules(x.key), x.now);
    ConsumeKeepsKey(rules(x.key), y, x.now);
    hide Consume;
    assert t'[x.slot].key == x.key;
    if x.key == h {
      assert Has(t, h);
      assert x.slot == c;
      assert t'[c] == Consume(rules(h), b, x.now).0;
    } else {
      var d :| 0 <= d < |t'| && t'[d].key == h;
      assert d != x.slot;
      assert t[d].key == t[c].key;
      assert t'[c] == b;
    }
  }

  /** The budget over the shared table: from the call that claims a key's bucket at t0, and as long
      as the bucket is not evicted, whatever the other keys do, the key gets no more than its
      capacity, what the elapsed time refills, and less than `limit` units of rounding per call of
      its own. */
  lemma TableBudget(s: seq<Bucket>, rules: nat -> Rule, calls: seq<Call>, h: nat, t0: nat)
    requires 0 < |s| && TableInv(s) && (forall g :: rules(g).Valid()) && IsRun(s, rules, calls)
    requires h != 0 && t0 <= U64_MAX && ClaimedAndKept(s, rules, calls, h, t0)
    requires Sorted(t0, TimesOf(calls, h))
    ensures var r := rules(h); var times := TimesOf(calls, h);
      MILLI * r.window * AllowedFor(s, rules, calls, h)
      <= r.capacity * r.window + (Last(t0, times) - t0) * r.limit + |times| * (r.limit - 1)
  {
    hide *;
    OthersDoNotMatter(s, rules, calls, h, t0);
    NeverExceedsBudget(rules(h), Bucket(h, rules(h).capacity, t0), t0, TimesOf(calls, h));
  }

  // ---- The table in place ----

  lemma NothingElapsed(r: Rule, b: Bucket, now: nat)
    requires r.Valid()
    ensures now <= b.last ==> Refill(r, b, now) == 0
  {
    assert SatMul(0, r.limit) == 0;
  }

  class Limiter {
    const buckets: array<Bucket>

    ghost predicate Valid()
      reads this, buckets
    {
      TableInv(buckets[..])
    }

    /** A freshly mapped table: `slots.max(64)` zeroed buckets. */
    constructor (slots: nat)
      ensures Valid() && fresh(buckets)
      ensures forall h | h != 0 :: !Has(buckets[..], h)
    {
      var n := if slots < 64 then 64 else slots;
      buckets := new Bucket[n](_ => Bucket(0, 0, 0));
      new;
      assert forall c | 0 <= c < |buckets[..]| :: buckets[..][c] == Bucket(0, 0, 0);
    }

    /** Refill by elapsed time, then take one token, in place. */
    method ConsumeAt(c: nat, r: Rule, now: nat) returns (v: Verdict)
      requires c < buckets.Length && r.Valid()
      modifies buckets
      ensures buckets[..] == old(buckets[..])[c := Consume(r, old(buckets[c]), now).0]
      ensures v == Consume(r, old(buckets[c]), now).1
    {
      ghost var b := buckets[c];
      NothingElapsed(r, b, now);
      hide SatMul, SatAdd, CeilDiv, Min, Max;
      var last, tokens := buckets[c].last, buckets[c].tokens;
      var elapsed := if last <= now then now - last else 0;
      if 0 < elapsed {
        var refill := SatMul(elapsed, r.limit) / r.window;
        if refill == 0 {
        } else if SatAdd(tokens, refill) >= r.capacity {
          tokens := r.capacity;
          buckets[c] := buckets[c].(last := now);
        } else {
          tokens := tokens + refill;
          var credited := SatMul(refill, r.window) / r.limit;
          buckets[c] := buckets[c].(last := Min(SatAdd(last, credited), now));
        }
      }
      assert Refilled(r, b, now) == buckets[c].(tokens := tokens);
      if tokens >= MILLI {
        tokens := tokens - MILLI;
        buckets[c] := buckets[c].(tokens := tokens);
        v := Verdict(true, tokens / MILLI, 0);
      } else {
        buckets[c] := buckets[c].(tokens := tokens);
        var ms := CeilDiv(SatMul(MILLI - tokens, r.window), r.limit);
        v := Verdict(false, 0, Max(CeilDiv(ms, 1000), 1));
      }
    }

    /** Take one token from `h`'s bucket. Exactly one slot changes, and it is `h`'s target. */
    method Check(h: nat, now: nat, limit: nat, window: nat, burst: nat) returns (v: Verdict)
      requires Valid() && 0 < h <= U64_MAX && now <= U64_MAX && limit + burst <= U64_MAX
      modifies buckets
      ensures Valid()
      ensures limit == 0 || window == 0 ==> buckets[..] == old(buckets[..]) && v == Verdict(true, limit, 0)
      ensures 0 < limit && 0 < window ==>
        var r := Rule(limit, window, SatMul(limit + burst, MILLI));
        exists c :: && IsTarget(old(buckets[..]), h, c)
                    && buckets[..] == Called(old(buckets[..]), h, c, r, now)
                    && v == Consume(r, Claimed(old(buckets[..]), h, c, r, now), now).1
    {
      if limit == 0 || window == 0 {
        return Verdict(true, limit, 0);
      }
      var capacity := SatMul(limit + burst, MILLI);
      var r := Rule(limit, window, capacity);
      var n := buckets.Length;
      ghost var s := buckets[..];
      var victim: Option<nat> := None;
      var victimAge := U64_MAX;
      var i := 0;
      while i < PROBE
        invariant 0 <= i <= PROBE
        invariant buckets[..] == s
        invariant NotSeenBefore(s, h, i)
        invariant victim.None? ==> victimAge == U64_MAX
        invariant victim.Some? ==> victim.value < n && s[victim.value].last == victimAge < U64_MAX
        invariant victim.Some? ==> exists j :: 0 <= j < i && victim.value == Slot(h, j, n) && ColderThanBefore(s, h, victim.value, j)
        invariant forall j | 0 <= j < i :: victimAge <= s[Slot(h, j, n)].last
      {
        var c := Slot(h, i, n);
        var kh := buckets[c].key;
        assert s[c] == buckets[c];
        if kh == h {
          v := Finish(h, c, r, now);
          return;
        }
        if kh == 0 {
          assert !Has(s, h) by { if Has(s, h) { OwnIsFound(s, h); } }
          v := Finish(h, c, r, now);
          return;
        }
        if buckets[c].last < victimAge {
          victimAge, victim := buckets[c].last, Some(c);
        }
        i := i + 1;
      }
      var c := if victim.Some? then victim.value else Slot(h, 0, n);
      assert !Has(s, h) by { if Has(s, h) { OwnIsFound(s, h); } }
      v := Finish(h, c, r, now);
    }

    /** Claim the target with a full bucket unless it is already `h`'s, then consume. */
    method Finish(h: nat, c: nat, r: Rule, now: nat) returns (v: Verdict)
      requires Valid() && h != 0 && IsTarget(buckets[..], h, c) && r.Valid() && now <= U64_MAX
      modifies buckets
      ensures Valid()
      ensures buckets[..] == Called(old(buckets[..]), h, c, r, now)
      ensures v == Consume(r, Claimed(old(buckets[..]), h, c, r, now), now).1
    {
      CallKeepsInv(buckets[..], h, c, r, now);
      ghost var s := buckets[..];
      if buckets[c].key != h {
        buckets[c] := Bucket(h, r.capacity, now);
      }
      assert buckets[c] == Claimed(s, h, c, r, now);
      v := ConsumeAt(c, r, now);
      assert buckets[..] == Called(s, h, c, r, now);
    }
  }
}
