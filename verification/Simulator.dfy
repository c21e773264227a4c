/** Replaying a traffic log against one candidate cache rule. */
module Simulator {
  import opened Common
  import opened TrafficLog

  /** A rule: which requests it is about, and for how many milliseconds an answer is kept. */
  datatype Rule = Rule(patternOf: string -> string, pattern: string, keep: nat)

  predicate Matching(r: Rule, s: Sample) {
    r.patternOf(s.path) == r.pattern
  }

  /** Successful read-only requests can be served from cache. */
  predicate Eligible(r: Rule, s: Sample) {
    Matching(r, s) && (s.verb == "GET" || s.verb == "HEAD") && s.status == 200
  }

  function KeyOf(s: Sample): string {
    s.verb + " " + s.host + " " + s.path + "?" + s.query
  }

  function SatSub(a: nat, b: nat): nat {
    if b <= a then a - b else 0
  }

  // ---- What a replay is ----

  /** The request that was stored under `key` when the first `n` had been replayed. */
  function StoredAt(r: Rule, log: seq<Sample>, key: string, n: nat): (j: Option<nat>)
    requires n <= |log|
    ensures j.Some? ==> j.value < n && KeyOf(log[j.value]) == key && IsMiss(r, log, j.value)
    ensures j.Some? ==> forall i | j.value < i < n :: !(IsMiss(r, log, i) && KeyOf(log[i]) == key)
    ensures j.None? ==> forall i | 0 <= i < n :: !(IsMiss(r, log, i) && KeyOf(log[i]) == key)
    decreases n, 1
  {
    if n == 0 then None
    else if IsMiss(r, log, n - 1) && KeyOf(log[n - 1]) == key then Some(n - 1)
    else StoredAt(r, log, key, n - 1)
  }

  /** Request `i` is eligible and nothing young enough was stored for it. */
  predicate IsMiss(r: Rule, log: seq<Sample>, i: nat)
    requires i < |log|
    decreases i, 2
  {
    Eligible(r, log[i]) &&
    var j := StoredAt(r, log, KeyOf(log[i]), i);
    j.None? || r.keep < SatSub(log[i].ts, log[j.value].ts)
  }

  /** Request `i` could have been served from what was stored. */
  predicate IsHit(r: Rule, log: seq<Sample>, i: nat)
    requires i < |log|
  {
    Eligible(r, log[i]) && !IsMiss(r, log, i)
  }

  /** The stored answer it would have been served. */
  function Source(r: Rule, log: seq<Sample>, i: nat): (j: nat)
    requires i < |log| && IsHit(r, log, i)
    ensures j < i && IsMiss(r, log, j) && KeyOf(log[j]) == KeyOf(log[i])
  {
    StoredAt(r, log, KeyOf(log[i]), i).value
  }

  predicate IsDivergent(r: Rule, log: seq<Sample>, i: nat)
    requires i < |log|
  {
    IsHit(r, log, i) && log[Source(r, log, i)].hash != log[i].hash
  }

  /** What a verdict counts, and the misses of one key. */
  datatype Kind = Requests | WithCookies | SetsCookie | Eligibles | Hits | Divergents | Misses | MissesOf(key: string)

  predicate Is(r: Rule, log: seq<Sample>, k: Kind, i: nat)
    requires i < |log|
  {
    match k
    case Requests => Matching(r, log[i])
    case WithCookies => Matching(r, log[i]) && log[i].cookie
    case SetsCookie => Matching(r, log[i]) && log[i].setCookie
    case Eligibles => Eligible(r, log[i])
    case Hits => IsHit(r, log, i)
    case Divergents => IsDivergent(r, log, i)
    case Misses => IsMiss(r, log, i)
    case MissesOf(key) => IsMiss(r, log, i) && KeyOf(log[i]) == key
  }

  /** How many of the first `n` requests are of a kind. */
  function Count(r: Rule, log: seq<Sample>, k: Kind, n: nat): nat
    requires n <= |log|
  {
    if n == 0 then 0 else Count(r, log, k, n - 1) + (if Is(r, log, k, n - 1) then 1 else 0)
  }

  /** The PHP time of the hits among the first `n` requests. */
  function Saved(r: Rule, log: seq<Sample>, n: nat): nat
    requires n <= |log|
  {
    if n == 0 then 0 else Saved(r, log, n - 1) + (if IsHit(r, log, n - 1) then log[n - 1].php else 0)
  }

  predicate AnyOptedIn(r: Rule, log: seq<Sample>, n: nat)
    requires n <= |log|
  {
    exists i | 0 <= i < n :: Matching(r, log[i]) && log[i].optedIn
  }

  // ---- The replay itself ----

  datatype Verdict = Verdict(
    requests: nat, eligible: nat, hits: nat, saved: nat, withCookies: nat, setCookie: nat, divergent: nat, optedIn: bool)

  /** The verdict on the first `n` requests. */
  ghost predicate Judges(v: Verdict, r: Rule, log: seq<Sample>, n: nat)
    requires n <= |log|
  {
    && v.requests == Count(r, log, Requests, n) && v.eligible == Count(r, log, Eligibles, n)
    && v.hits == Count(r, log, Hits, n) && v.saved == Saved(r, log, n)
    && v.withCookies == Count(r, log, WithCookies, n) && v.setCookie == Count(r, log, SetsCookie, n)
    && v.divergent == Count(r, log, Divergents, n) && (v.optedIn <==> AnyOptedIn(r, log, n))
  }

  type Store = map<string, (nat, nat)>

  /** The store holds time and body hash of what was stored last under each key. */
  ghost predicate Keeps(store: Store, r: Rule, log: seq<Sample>, n: nat)
    requires n <= |log|
  {
    forall key :: var j := StoredAt(r, log, key, n);
      (key in store <==> j.Some?) && (j.Some? ==> store[key] == (log[j.value].ts, log[j.value].hash))
  }

  lemma StoreStep(store: Store, r: Rule, log: seq<Sample>, n: nat)
    requires n < |log| && Keeps(store, r, log, n)
    ensures IsMiss(r, log, n) ==> Keeps(store[KeyOf(log[n]) := (log[n].ts, log[n].hash)], r, log, n + 1)
    ensures !IsMiss(r, log, n) ==> Keeps(store, r, log, n + 1)
  {
    hide IsMiss, KeyOf;
  }

  function One(b: bool): nat {
    if b then 1 else 0
  }

  /** A verdict with one more request taken into account. */
  ghost function Judged(v: Verdict, r: Rule, log: seq<Sample>, n: nat): Verdict
    requires n < |log|
  {
    Verdict(v.requests + One(Is(r, log, Requests, n)), v.eligible + One(Is(r, log, Eligibles, n)),
            v.hits + One(Is(r, log, Hits, n)), v.saved + (if IsHit(r, log, n) then log[n].php else 0),
            v.withCookies + One(Is(r, log, WithCookies, n)), v.setCookie + One(Is(r, log, SetsCookie, n)),
            v.divergent + One(Is(r, log, Divergents, n)), v.optedIn || (Matching(r, log[n]) && log[n].optedIn))
  }

  lemma JudgesNext(v: Verdict, r: Rule, log: seq<Sample>, n: nat)
    requires n < |log| && Judges(v, r, log, n)
    ensures Judges(Judged(v, r, log, n), r, log, n + 1)
  {
    hide Is, IsHit, Matching;
  }

  /** `simulate`: one pass over the log with a store of what is cached. */
  method Simulate(log: seq<Sample>, patternOf: string -> string, pattern: string, ttl: nat) returns (v: Verdict)
    ensures Judges(v, Rule(patternOf, pattern, ttl * 1000), log, |log|)
  {
    hide Eligible, KeyOf, IsMiss, IsHit, IsDivergent, Keeps, Judges, SatSub;
    ghost var r := Rule(patternOf, pattern, ttl * 1000);
    v := Verdict(0, 0, 0, 0, 0, 0, 0, false);
    var store: Store := map[];
    Beginning(v, r, log);
    for n := 0 to |log|
      invariant Judges(v, r, log, n) && Keeps(store, r, log, n)
    {
      var s := log[n];
      StoreStep(store, r, log, n);
      LookUp(store, r, log, n);
      JudgesNext(v, r, log, n);
      ghost var next := Judged(v, r, log, n);
      if patternOf(s.path) == pattern {
        v := v.(requests := v.requests + 1);
        if s.cookie {
          v := v.(withCookies := v.withCookies + 1);
        }
        if s.setCookie {
          v := v.(setCookie := v.setCookie + 1);
        }
        if s.optedIn {
          v := v.(optedIn := true);
        }
        if (s.verb == "GET" || s.verb == "HEAD") && s.status == 200 {
          v := v.(eligible := v.eligible + 1);
          var key := s.verb + " " + s.host + " " + s.path + "?" + s.query;
          if key in store && SatSub(s.ts, store[key].0) <= ttl * 1000 {
            v := v.(hits := v.hits + 1, saved := v.saved + s.php);
            if store[key].1 != s.hash {
              v := v.(divergent := v.divergent + 1);
            }
          } else {
            store := store[key := (s.ts, s.hash)];
          }
        }
      }
      assert v == next;
    }
  }

  lemma Beginning(v: Verdict, r: Rule, log: seq<Sample>)
    requires v == Verdict(0, 0, 0, 0, 0, 0, 0, false)
    ensures Keeps(map[], r, log, 0) && Judges(v, r, log, 0)
  {
  }

  /** What the store says about request `n`. */
  lemma LookUp(store: Store, r: Rule, log: seq<Sample>, n: nat)
    requires n < |log| && Keeps(store, r, log, n)
    ensures var s := log[n]; var key := s.verb + " " + s.host + " " + s.path + "?" + s.query;
      var young := key in store && SatSub(s.ts, store[key].0) <= r.keep;
      && key == KeyOf(s) && (Eligible(r, s) <==> Matching(r, s) && (s.verb == "GET" || s.verb == "HEAD") && s.status == 200)
      && (IsHit(r, log, n) <==> Eligible(r, s) && young) && (IsMiss(r, log, n) <==> Eligible(r, s) && !young)
      && (IsDivergent(r, log, n) <==> IsHit(r, log, n) && store[key].1 != s.hash)
  {
  }

  // ---- Misses are windows ----

  /** The log is in order of time. */
  predicate Ascending(log: seq<Sample>) {
    forall i, j | 0 <= i < j < |log| :: log[i].ts <= log[j].ts
  }

  /** Some window of `keep` milliseconds begins at one of these times and contains `t`. */
  predicate Covered(starts: seq<nat>, keep: nat, t: nat) {
    exists w | 0 <= w < |starts| :: starts[w] <= t <= starts[w] + keep
  }

  /** Every eligible request for the key lies in a window. */
  ghost predicate CoversKey(starts: seq<nat>, r: Rule, log: seq<Sample>, key: string) {
    forall i | 0 <= i < |log| && Eligible(r, log[i]) && KeyOf(log[i]) == key :: Covered(starts, r.keep, log[i].ts)
  }

  /** When the misses of a key among the first `n` requests happened. */
  function MissTimes(r: Rule, log: seq<Sample>, key: string, n: nat): (ts: seq<nat>)
    requires n <= |log|
    ensures |ts| == Count(r, log, MissesOf(key), n)
  {
    if n == 0 then []
    else if IsMiss(r, log, n - 1) && KeyOf(log[n - 1]) == key then MissTimes(r, log, key, n - 1) + [log[n - 1].ts]
    else MissTimes(r, log, key, n - 1)
  }

  predicate Apart(ts: seq<nat>, keep: nat) {
    |ts| <= 1 || (Apart(ts[..|ts| - 1], keep) && ts[|ts| - 2] + keep < ts[|ts| - 1])
  }

  /** The last of those times is that of the request still stored. */
  lemma {:induction false} LastMissIsStored(r: Rule, log: seq<Sample>, key: string, n: nat)
    requires n <= |log|
    ensures var ts := MissTimes(r, log, key, n); var j := StoredAt(r, log, key, n);
      (ts == [] <==> j.None?) && (j.Some? ==> ts[|ts| - 1] == log[j.value].ts)
  {
    hide IsMiss, KeyOf;
    if n > 0 {
      LastMissIsStored(r, log, key, n - 1);
    }
  }

  lemma MissIsLate(r: Rule, log: seq<Sample>, i: nat)
    requires i < |log| && IsMiss(r, log, i)
    ensures var j := StoredAt(r, log, KeyOf(log[i]), i); j.None? || log[j.value].ts + r.keep < log[i].ts
  {
    hide KeyOf;
  }

  /** Misses of one key are more than a window apart. */
  lemma {:induction false} MissesApart(r: Rule, log: seq<Sample>, key: string, n: nat)
    requires n <= |log|
    ensures Apart(MissTimes(r, log, key, n), r.keep)
  {
    hide IsMiss, KeyOf, StoredAt;
    if n > 0 {
      MissesApart(r, log, key, n - 1);
      LastMissIsStored(r, log, key, n - 1);
      if IsMiss(r, log, n - 1) && KeyOf(log[n - 1]) == key {
        MissIsLate(r, log, n - 1);
        var ts := MissTimes(r, log, key, n);
        assert ts[..|ts| - 1] == MissTimes(r, log, key, n - 1);
      }
    }
  }

  /** So each needs a window of its own. */
  lemma {:induction false} WindowsNeeded(ts: seq<nat>, keep: nat, starts: seq<nat>)
    requires Apart(ts, keep) && forall i | 0 <= i < |ts| :: Covered(starts, keep, ts[i])
    ensures |ts| <= |starts|
  {
    if ts != [] {
      var t, init := ts[|ts| - 1], ts[..|ts| - 1];
      var w :| 0 <= w < |starts| && starts[w] <= t <= starts[w] + keep;
      var rest := starts[..w] + starts[w + 1..];
      forall i | 0 <= i < |init|
        ensures Covered(rest, keep, init[i])
      {
        ApartFromLast(ts, keep, i);
        var v :| 0 <= v < |starts| && starts[v] <= ts[i] <= starts[v] + keep;
        assert v != w;
        assert rest[if v < w then v else v - 1] == starts[v];
      }
      WindowsNeeded(init, keep, rest);
    }
  }

  lemma {:induction false} ApartFromLast(ts: seq<nat>, keep: nat, i: nat)
    requires Apart(ts, keep) && i < |ts| - 1
    ensures ts[i] + keep < ts[|ts| - 1]
  {
    if i < |ts| - 2 {
      ApartFromLast(ts[..|ts| - 1], keep, i);
    }
  }

  /** The windows the misses open contain every eligible request of the key. */
  lemma {:induction false} MissesCover(r: Rule, log: seq<Sample>, key: string, n: nat, i: nat)
    requires i < n <= |log| && Ascending(log) && Eligible(r, log[i]) && KeyOf(log[i]) == key
    ensures Covered(MissTimes(r, log, key, n), r.keep, log[i].ts)
    decreases n - i
  {
    var ts := MissTimes(r, log, key, n);
    if i < n - 1 {
      MissesCover(r, log, key, n - 1, i);
      var was := MissTimes(r, log, key, n - 1);
      var w :| 0 <= w < |was| && was[w] <= log[i].ts <= was[w] + r.keep;
      assert ts[w] == was[w];
    } else {
      LastMissIsStored(r, log, key, n);
      var j := StoredAt(r, log, key, n);
      assert ts[|ts| - 1] == log[j.value].ts <= log[i].ts <= log[j.value].ts + r.keep;
    }
  }

  /** On a log in order of time, the misses of a key are the least number of windows of the rule's
      length that contain all of its eligible requests. */
  lemma MissesAreFewestWindows(r: Rule, log: seq<Sample>, key: string)
    requires Ascending(log)
    ensures var misses := Count(r, log, MissesOf(key), |log|);
      && (exists starts :: CoversKey(starts, r, log, key) && |starts| == misses)
      && (forall starts | CoversKey(starts, r, log, key) :: misses <= |starts|)
  {
    hide Eligible, KeyOf, IsMiss, Covered;
    var ts := MissTimes(r, log, key, |log|);
    forall i | 0 <= i < |log| && Eligible(r, log[i]) && KeyOf(log[i]) == key
      ensures Covered(ts, r.keep, log[i].ts)
    {
      MissesCover(r, log, key, |log|, i);
    }
    assert CoversKey(ts, r, log, key);
    MissesApart(r, log, key, |log|);
    forall starts | CoversKey(starts, r, log, key)
      ensures |ts| <= |starts|
    {
      forall i | 0 <= i < |ts|
        ensures Covered(starts, r.keep, ts[i])
      {
        var j := MissTimeOf(r, log, key, |log|, i);
      }
      WindowsNeeded(ts, r.keep, starts);
    }
  }

  /** Each such time is that of an eligible request. */
  lemma {:induction false} MissTimeOf(r: Rule, log: seq<Sample>, key: string, n: nat, i: nat) returns (j: nat)
    requires n <= |log| && i < |MissTimes(r, log, key, n)|
    ensures j < n && Eligible(r, log[j]) && KeyOf(log[j]) == key && MissTimes(r, log, key, n)[i] == log[j].ts
  {
    if IsMiss(r, log, n - 1) && KeyOf(log[n - 1]) == key && i == |MissTimes(r, log, key, n)| - 1 {
      j := n - 1;
    } else {
      j := MissTimeOf(r, log, key, n - 1, i);
    }
  }

  // ---- A longer ttl never loses hits ----

  function Longer(r: Rule, keep: nat): Rule {
    r.(keep := keep)
  }

  lemma FewerMisses(r: Rule, keep: nat, log: seq<Sample>, key: string)
    requires Ascending(log) && r.keep <= keep
    ensures Count(Longer(r, keep), log, MissesOf(key), |log|) <= Count(r, log, MissesOf(key), |log|)
  {
    hide Count;
    var l := Longer(r, keep);
    MissesAreFewestWindows(r, log, key);
    MissesAreFewestWindows(l, log, key);
    var starts :| CoversKey(starts, r, log, key) && |starts| == Count(r, log, MissesOf(key), |log|);
    forall i | 0 <= i < |log| && Eligible(l, log[i]) && KeyOf(log[i]) == key
      ensures Covered(starts, keep, log[i].ts)
    {
      assert Covered(starts, r.keep, log[i].ts);
    }
    assert CoversKey(starts, l, log, key);
  }

  /** The misses of several keys together. */
  function MissesOfAll(r: Rule, log: seq<Sample>, keys: seq<string>, n: nat): nat
    requires n <= |log|
  {
    if keys == [] then 0
    else MissesOfAll(r, log, keys[..|keys| - 1], n) + Count(r, log, MissesOf(keys[|keys| - 1]), n)
  }

  predicate Distinct(keys: seq<string>) {
    forall i, j | 0 <= i < j < |keys| :: keys[i] != keys[j]
  }

  /** The keys of a log, each once. */
  function KeysOf(log: seq<Sample>): (keys: seq<string>)
    ensures Distinct(keys) && forall i | 0 <= i < |log| :: KeyOf(log[i]) in keys
  {
    if log == [] then []
    else
      var keys, key := KeysOf(log[..|log| - 1]), KeyOf(log[|log| - 1]);
      if key in keys then keys else keys + [key]
  }

  /** One request adds one miss to one key, if any. */
  lemma {:induction false} MissesOfAllStep(r: Rule, log: seq<Sample>, keys: seq<string>, n: nat)
    requires n < |log| && Distinct(keys)
    ensures MissesOfAll(r, log, keys, n + 1) ==
            MissesOfAll(r, log, keys, n) + One(IsMiss(r, log, n) && KeyOf(log[n]) in keys)
  {
    hide IsMiss, KeyOf;
    if keys != [] {
      MissesOfAllStep(r, log, keys[..|keys| - 1], n);
      assert keys == keys[..|keys| - 1] + [keys[|keys| - 1]];
    }
  }

  lemma {:induction false} MissesByKey(r: Rule, log: seq<Sample>, keys: seq<string>, n: nat)
    requires n <= |log| && Distinct(keys) && forall i | 0 <= i < |log| :: KeyOf(log[i]) in keys
    ensures MissesOfAll(r, log, keys, n) == Count(r, log, Misses, n)
  {
    hide IsMiss, KeyOf;
    if n == 0 {
      NoMissesYet(r, log, keys);
    } else {
      MissesByKey(r, log, keys, n - 1);
      MissesOfAllStep(r, log, keys, n - 1);
    }
  }

  lemma {:induction false} NoMissesYet(r: Rule, log: seq<Sample>, keys: seq<string>)
    ensures MissesOfAll(r, log, keys, 0) == 0
  {
    if keys != [] {
      NoMissesYet(r, log, keys[..|keys| - 1]);
    }
  }

  lemma {:induction false} FewerMissesOfAll(r: Rule, keep: nat, log: seq<Sample>, keys: seq<string>)
    requires Ascending(log) && r.keep <= keep
    ensures MissesOfAll(Longer(r, keep), log, keys, |log|) <= MissesOfAll(r, log, keys, |log|)
  {
    hide Count, Ascending;
    if keys != [] {
      FewerMissesOfAll(r, keep, log, keys[..|keys| - 1]);
      FewerMisses(r, keep, log, keys[|keys| - 1]);
    }
  }

  lemma {:induction false} HitOrMiss(r: Rule, log: seq<Sample>, n: nat)
    requires n <= |log|
    ensures Count(r, log, Hits, n) + Count(r, log, Misses, n) == Count(r, log, Eligibles, n)
  {
    if n > 0 {
      HitOrMiss(r, log, n - 1);
    }
  }

  lemma {:induction false} SameEligible(r: Rule, keep: nat, log: seq<Sample>, n: nat)
    requires n <= |log|
    ensures Count(Longer(r, keep), log, Eligibles, n) == Count(r, log, Eligibles, n)
  {
    if n > 0 {
      SameEligible(r, keep, log, n - 1);
    }
  }

  /** On a log in order of time, a longer ttl never gives fewer hits. */
  lemma HitsGrowWithTtl(r: Rule, keep: nat, log: seq<Sample>)
    requires Ascending(log) && r.keep <= keep
    ensures Count(r, log, Hits, |log|) <= Count(Longer(r, keep), log, Hits, |log|)
  {
    hide Count, Ascending, MissesOfAll;
    var keys := KeysOf(log);
    HitOrMiss(r, log, |log|);
    HitOrMiss(Longer(r, keep), log, |log|);
    SameEligible(r, keep, log, |log|);
    MissesByKey(r, log, keys, |log|);
    MissesByKey(Longer(r, keep), log, keys, |log|);
    FewerMissesOfAll(r, keep, log, keys);
  }

  // ---- When replaying is safe ----

  lemma {:induction false} CountIsZero(r: Rule, log: seq<Sample>, k: Kind, n: nat)
    requires n <= |log|
    ensures Count(r, log, k, n) == 0 <==> forall i | 0 <= i < n :: !Is(r, log, k, i)
  {
    hide Is;
    if n > 0 {
      CountIsZero(r, log, k, n - 1);
    }
  }

  /** No divergence is reported exactly when every request that would have been served from the cache
      would have got the bytes it did get. */
  lemma NoDivergenceIffSafe(v: Verdict, r: Rule, log: seq<Sample>)
    requires Judges(v, r, log, |log|)
    ensures v.divergent == 0 <==>
            forall i | 0 <= i < |log| && IsHit(r, log, i) :: log[Source(r, log, i)].hash == log[i].hash
  {
    hide Count, IsMiss;
    CountIsZero(r, log, Divergents, |log|);
    if v.divergent == 0 {
      forall i | 0 <= i < |log| && IsHit(r, log, i)
        ensures log[Source(r, log, i)].hash == log[i].hash
      {
        assert !Is(r, log, Divergents, i);
      }
    } else {
      var i :| 0 <= i < |log| && Is(r, log, Divergents, i);
      assert IsHit(r, log, i) && log[Source(r, log, i)].hash != log[i].hash;
    }
  }

  // ---- Loading ----

  function Inserted(log: seq<Sample>, s: Sample): seq<Sample> {
    if log == [] || log[|log| - 1].ts <= s.ts then log + [s]
    else Inserted(log[..|log| - 1], s) + [log[|log| - 1]]
  }

  /** A stable sort by time. */
  function SortedByTime(log: seq<Sample>): seq<Sample> {
    if log == [] then [] else Inserted(SortedByTime(log[..|log| - 1]), log[|log| - 1])
  }

  /** The requests at one moment, in order. */
  function AtTime(log: seq<Sample>, t: nat): seq<Sample> {
    if log == [] then []
    else AtTime(log[..|log| - 1], t) + (if log[|log| - 1].ts == t then [log[|log| - 1]] else [])
  }

  lemma AtTimeAppend(log: seq<Sample>, s: Sample, t: nat)
    ensures AtTime(log + [s], t) == AtTime(log, t) + (if s.ts == t then [s] else [])
  {
    assert (log + [s])[..|log|] == log;
  }

  lemma {:induction false} InsertedAtTime(log: seq<Sample>, s: Sample, t: nat)
    ensures AtTime(Inserted(log, s), t) == AtTime(log + [s], t)
  {
    hide AtTime;
    if log != [] && s.ts < log[|log| - 1].ts {
      var init, last := log[..|log| - 1], log[|log| - 1];
      InsertedAtTime(init, s, t);
      AtTimeAppend(Inserted(init, s), last, t);
      AtTimeAppend(init, s, t);
      AtTimeAppend(log, s, t);
      AtTimeAppend(init, last, t);
      assert init + [last] == log;
    }
  }

  predicate UpTo(log: seq<Sample>, t: nat) {
    forall i | 0 <= i < |log| :: log[i].ts <= t
  }

  lemma AscendingAppend(log: seq<Sample>, s: Sample)
    requires Ascending(log) && UpTo(log, s.ts)
    ensures Ascending(log + [s]) && UpTo(log + [s], s.ts)
  {
  }

  lemma {:induction false} InsertedAscends(log: seq<Sample>, s: Sample, t: nat)
    requires Ascending(log) && UpTo(log, t) && s.ts <= t
    ensures Ascending(Inserted(log, s)) && UpTo(Inserted(log, s), t) && |Inserted(log, s)| == |log| + 1
  {
    if log != [] && s.ts < log[|log| - 1].ts {
      var init, last := log[..|log| - 1], log[|log| - 1];
      InsertedAscends(init, s, last.ts);
      AscendingAppend(Inserted(init, s), last);
    } else {
      AscendingAppend(log, s);
    }
  }

  lemma {:induction false} SortedByTimeAscends(log: seq<Sample>)
    ensures Ascending(SortedByTime(log)) && |SortedByTime(log)| == |log|
  {
    if log != [] {
      var sorted := SortedByTime(log[..|log| - 1]);
      SortedByTimeAscends(log[..|log| - 1]);
      BoundedTimes(sorted);
      InsertedAscends(sorted, log[|log| - 1], U64_MAX);
    }
  }

  /** Sorting keeps the order of requests at the same moment. */
  lemma {:induction false} SortedByTimeIsStable(log: seq<Sample>, t: nat)
    ensures AtTime(SortedByTime(log), t) == AtTime(log, t)
  {
    hide AtTime, Inserted;
    if log != [] {
      var init, last := log[..|log| - 1], log[|log| - 1];
      var sorted := SortedByTime(init);
      SortedByTimeIsStable(init, t);
      InsertedAtTime(sorted, last, t);
      AtTimeAppend(sorted, last, t);
      AtTimeAppend(init, last, t);
      assert init + [last] == log;
    }
  }

  lemma BoundedTimes(log: seq<Sample>)
    ensures UpTo(log, U64_MAX)
  {
  }

  /** `load`: a text's readable lines, sorted by time. */
  function Load(text: string): seq<Sample> {
    SortedByTime(FilterLines(Lines(text)))
  }

  /** A log written by the server loads as what was written, in order of time. */
  lemma LoadUndoesLog(samples: seq<Sample>, t: nat)
    ensures var log := Load(PrintAll(samples));
      Ascending(log) && |log| == |samples| && AtTime(log, t) == AtTime(CleanedAll(samples), t)
  {
    hide SortedByTime, Lines, FilterLines, PrintAll, AtTime, Ascending;
    LogReadBack(samples);
    SortedByTimeAscends(CleanedAll(samples));
    SortedByTimeIsStable(CleanedAll(samples), t);
  }
}
