/** The write-through front itself: the two-region shared-memory cache in front of the SQL table,
    refining the two-tier machine step by step. */
module DurableCache {
  import opened Common
  import opened CacheRegion
  import opened Namespace
  import opened TwoTier
  import CacheSteps
  import Cache

  /** Storing one entry in a region leaves every other key as it was, or loses it. */
  lemma SetLosesOnly(g: CacheSteps.Geo, s: seq<CacheSteps.Cell>, t: seq<CacheSteps.Cell>, k: Key, e: Entry, now: nat)
    requires TableInv(g, s) && SetMeaning(g, s, t, k, e, now)
    ensures forall j | j != k :: Find(t, j).None? || Find(t, j) == Find(s, j)
  {
    hide Find, CacheSteps.ChainInv, OneCopy, MayEvict;
  }

  /** A call gave this answer and left these tiers: the two-tier machine's, but for entries the front
      may have lost to make room. */
  ghost predicate Refines(env: Env, before: Tiers, c: Call, after: Tiers, out: Out) {
    var (s, want) := Through(env, before, c);
    out == want && after.table == s.table && Submap(after.front, s.front)
  }

  /** So an implementation in step with its table stays so, and answers as the table alone, but for
      the expiry second. */
  lemma RefinedStepAgrees(env: Env, before: Tiers, c: Call, after: Tiers, out: Out, keys: iset<Key>, maxVal: nat)
    requires Coherent(env, before) && FrontIn(before, keys) && Within(c, keys, maxVal)
    requires RowsDistinct(env, keys) && FlushesOwn(env, keys) && ValuesFit(keys, maxVal)
    requires Refines(env, before, c, after, out)
    ensures Coherent(env, after) && FrontIn(after, keys)
    ensures after.table == Alone(env, before.table, c).0
    ensures out == Alone(env, before.table, c).1 <==> !ExpirySecond(before, c)
  {
    hide Through, Alone, Coherent, FrontIn, Within, RowsDistinct, FlushesOwn, ValuesFit, Submap, ExpirySecond;
    StepAgrees(env, before, c, keys, maxVal);
    LossAgrees(env, Through(env, before, c).0, after.front, keys);
  }

  class Front {
    const l1: Cache.Cache
    const env: Env
    var table: Table

    ghost predicate Valid()
      reads this, l1, l1.small, l1.small.slots, l1.large, if l1.large != null then {l1.large.slots} else {}
    {
      l1.Valid() && (env.large <==> l1.large != null)
    }

    /** The shared memory as a map. */
    ghost function View(): TwoTier.Front
      reads this, l1, l1.small, l1.small.slots, l1.large, if l1.large != null then {l1.large.slots} else {}
    {
      imap k | l1.Held(k).Some? :: Held(l1.Held(k).value.val, l1.Held(k).value.exp)
    }

    ghost function State(): Tiers
      reads this, l1, l1.small, l1.small.slots, l1.large, if l1.large != null then {l1.large.slots} else {}
    {
      Tiers(View(), table)
    }

    /** Starts on the cache it is given, whatever is in the table. */
    constructor (l1: Cache.Cache, table: Table, env: Env)
      requires l1.Valid() && (env.large <==> l1.large != null)
      ensures Valid() && this.l1 == l1 && this.table == table && this.env == env
    {
      this.l1 := l1;
      this.table := table;
      this.env := env;
    }

    /** A set of the shared memory keeps or loses every other key. */
    method Offer(key: Bytes, v: Bytes, ttl: nat, now: nat, ms: u64) returns (ok: bool)
      requires Valid()
      modifies l1.small.slots, if l1.large != null then {l1.large.slots} else {}
      ensures var k := Stored(l1.context.current, key);
        && Valid() && (forall j | j != k :: l1.Held(j).None? || l1.Held(j) == old(l1.Held(j)))
        && (ok <==> Cacheable(k) && (|v| <= VAL_SMALL || (|v| <= VAL_LARGE && env.large)))
        && (ok ==> l1.Held(k) == Some(Entry(v, Deadline(ttl, now), ms)))
        && (!ok ==> l1.Held(k) == if Cacheable(k) && VAL_SMALL < |v| <= VAL_LARGE then None else old(l1.Held(k)))
    {
      hide Find, CacheSteps.ChainInv, OneCopy, SetMeaning, MayEvict;
      ghost var k, e := Stored(l1.context.current, key), Entry(v, Deadline(ttl, now), ms);
      ghost var small := l1.small.slots[..];
      ghost var large := if l1.large != null then l1.large.slots[..] else [];
      ok := l1.Set(key, v, ttl, now, ms);
      if ok && |v| <= VAL_SMALL {
        SetLosesOnly(l1.small.g, small, l1.small.slots[..], k, e, now);
      } else if ok {
        SetLosesOnly(l1.large.g, large, l1.large.slots[..], k, e, now);
      }
    }

    /** `cache::set` as the front uses it. */
    method Warm(key: Bytes, v: Bytes, ttl: nat, now: nat, ms: u64)
      requires Valid()
      modifies l1.small.slots, if l1.large != null then {l1.large.slots} else {}
      ensures Valid() && Submap(View(), FrontSet(env, old(View()), Stored(l1.context.current, key), v, ttl, now))
    {
      hide Cache.Cache.Valid, Cache.Cache.Held, Find, CacheSteps.ChainInv, OneCopy;
      var _ := Offer(key, v, ttl, now, ms);
    }

    /** `cache::delete` as the front uses it. */
    method Forget(key: Bytes)
      requires Valid()
      modifies l1.small.slots, if l1.large != null then {l1.large.slots} else {}
      ensures Valid() && View() == old(View()) - {Stored(l1.context.current, key)}
    {
      hide Cache.Cache.Valid, Cache.Cache.Held, Find, CacheSteps.ChainInv, OneCopy, SetMeaning, MayEvict;
      var _ := l1.Delete(key);
    }

    /** `cache::get` as the front uses it. */
    method Peek(key: Bytes, now: nat) returns (r: Option<Bytes>)
      requires Valid()
      modifies l1.small.slots, if l1.large != null then {l1.large.slots} else {}
      ensures Valid() && (View(), r) == FrontGet(old(View()), Stored(l1.context.current, key), now)
    {
      hide Cache.Cache.Valid, Cache.Cache.Held, Find, CacheSteps.ChainInv, OneCopy, SetMeaning, MayEvict;
      r := l1.Get(key, now);
      ghost var f := FrontGet(old(View()), Stored(l1.context.current, key), now).0;
      assert View() == f;
    }

    method Get(key: Bytes, now: nat, ms: u64) returns (r: Option<Bytes>)
      requires Valid()
      modifies l1.small.slots, if l1.large != null then {l1.large.slots} else {}
      ensures Valid() && Refines(env, old(State()), Call(TwoTier.Get(Stored(l1.context.current, key)), now), State(), Value(r))
    {
      hide Cache.Cache.Valid, Cache.Cache.Held, Find, CacheSteps.ChainInv, OneCopy, FrontGet, FrontSet;
      r := Peek(key, now);
      if r.Some? {
        return;
      }
      var q := env.row(Stored(l1.context.current, key));
      r := DoGet(env, table, q, now);
      if r.Some? {
        Warm(key, r.value, TtlOf(table[q], now), now, ms);
      }
    }

    method Set(key: Bytes, v: Bytes, ttl: nat, now: nat, ms: u64) returns (ok: bool)
      requires Valid()
      modifies `table, l1.small.slots, if l1.large != null then {l1.large.slots} else {}
      ensures Valid() && Refines(env, old(State()), Call(TwoTier.Set(Stored(l1.context.current, key), v, ttl), now), State(), Flag(ok))
    {
      hide Cache.Cache.Valid, Cache.Cache.Held, Find, CacheSteps.ChainInv, OneCopy, FrontSet;
      table := DoSet(table, env.row(Stored(l1.context.current, key)), v, ttl, now);
      assert View() == old(View());
      Warm(key, v, ttl, now, ms);
      return true;
    }

    method Add(key: Bytes, v: Bytes, ttl: nat, now: nat, ms: u64) returns (acquired: bool)
      requires Valid()
      modifies `table, l1.small.slots, if l1.large != null then {l1.large.slots} else {}
      ensures Valid() && Refines(env, old(State()), Call(TwoTier.Add(Stored(l1.context.current, key), v, ttl), now), State(), Flag(acquired))
    {
      hide Cache.Cache.Valid, Cache.Cache.Held, Find, CacheSteps.ChainInv, OneCopy, FrontSet;
      var (t, b) := DoAdd(table, env.row(Stored(l1.context.current, key)), v, ttl, now);
      table, acquired := t, b;
      assert View() == old(View());
      if acquired {
        Warm(key, v, ttl, now, ms);
      } else {
        Forget(key);
      }
    }

    method Delete(key: Bytes, now: nat) returns (found: bool)
      requires Valid()
      modifies `table, l1.small.slots, if l1.large != null then {l1.large.slots} else {}
      ensures Valid() && Refines(env, old(State()), Call(TwoTier.Delete(Stored(l1.context.current, key)), now), State(), Flag(found))
    {
      hide Cache.Cache.Valid, Cache.Cache.Held, Find, CacheSteps.ChainInv, OneCopy;
      var (t, b) := DoDelete(table, env.row(Stored(l1.context.current, key)));
      table, found := t, b;
      assert View() == old(View());
      Forget(key);
    }

    method Increment(key: Bytes, delta: int, ttl: nat, now: nat) returns (next: int)
      requires Valid()
      modifies `table, l1.small.slots, if l1.large != null then {l1.large.slots} else {}
      ensures Valid() && Refines(env, old(State()), Call(TwoTier.Increment(Stored(l1.context.current, key), delta, ttl), now), State(), Count(next))
    {
      hide Cache.Cache.Valid, Cache.Cache.Held, Find, CacheSteps.ChainInv, OneCopy;
      var (t, n) := DoIncrement(env, table, env.row(Stored(l1.context.current, key)), delta, ttl, now);
      table, next := t, n;
      assert View() == old(View());
      Forget(key);
    }

    method Touch(key: Bytes, ttl: nat, now: nat) returns (found: bool)
      requires Valid()
      modifies `table, l1.small.slots, if l1.large != null then {l1.large.slots} else {}
      ensures Valid() && Refines(env, old(State()), Call(TwoTier.Touch(Stored(l1.context.current, key), ttl), now), State(), Flag(found))
    {
      hide Cache.Cache.Valid, Cache.Cache.Held, Find, CacheSteps.ChainInv, OneCopy;
      var (t, b) := DoTouch(table, env.row(Stored(l1.context.current, key)), ttl, now);
      table, found := t, b;
      assert View() == old(View());
      Forget(key);
    }

    /** `flush`: the application's rows and its part of the front; without an application the whole
        table goes and the front is left as it was. */
    method Flush(now: nat)
      requires Valid()
      modifies `table, l1.small.slots, if l1.large != null then {l1.large.slots} else {}
      ensures Valid()
      ensures l1.context.current.Some? ==> Refines(env, old(State()), Call(TwoTier.Flush(l1.context.current.value), now), State(), Nothing)
      ensures l1.context.current.None? ==> table == map[] && View() == old(View())
    {
      hide Cache.Cache.Valid, Cache.Cache.Held, Find, CacheSteps.ChainInv, OneCopy;
      if l1.context.current.None? {
        table := map[];
        return;
      }
      table := DoFlush(env, table, l1.context.current.value);
      assert View() == old(View());
      l1.FlushApp(l1.context.current.value);
    }
  }
}
