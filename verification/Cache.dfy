/** The key-value cache as PHP sees it: two regions by value size behind one namespaced key space. */
module Cache {
  import opened Common
  import opened CacheSteps
  import opened CacheRegion
  import opened Namespace

  /** What the two regions hold for a stored key between them. */
  function Either<T>(small: Option<T>, large: Option<T>): Option<T> {
    if small.Some? then small else large
  }

  class Cache {
    const small: Region
    const large: Region?
    const context: Context

    ghost predicate Regions()
      reads this, small, small.slots, large, if large != null then {large.slots} else {}
    {
      && small.Valid() && small.valMax == VAL_SMALL
      && (large != null ==> large.Valid() && large.valMax == VAL_LARGE && large.slots != small.slots)
    }

    ghost function InSmall(k: Key): Option<Entry>
      reads this, small, small.slots
    {
      small.Lookup(k)
    }

    ghost function InLarge(k: Key): Option<Entry>
      reads this, large, if large != null then {large.slots} else {}
    {
      if large == null then None else large.Lookup(k)
    }

    ghost function Held(k: Key): Option<Entry>
      reads this, small, small.slots, large, if large != null then {large.slots} else {}
    {
      Either(InSmall(k), InLarge(k))
    }

    /** No key is in both regions. */
    ghost predicate Separate()
      reads this, small, small.slots, large, if large != null then {large.slots} else {}
    {
      forall k :: InSmall(k).None? || InLarge(k).None?
    }

    ghost predicate Valid()
      reads this, small, small.slots, large, if large != null then {large.slots} else {}
    {
      Regions() && Separate()
    }

    constructor (context: Context, hash: Key -> nat, slots: nat, largeSlots: nat, parse: Value -> Option<int>, render: int -> Value)
      ensures Valid() && fresh(small) && fresh(small.slots) && (large != null ==> fresh(large) && fresh(large.slots))
      ensures this.context == context && (large == null <==> largeSlots == 0)
      ensures forall k :: Held(k).None?
    {
      var s := new Region(hash, slots, VAL_SMALL, parse, render);
      small := s;
      if largeSlots > 0 {
        var l := new Region(hash, largeSlots, VAL_LARGE, parse, render);
        large := l;
      } else {
        large := null;
      }
      this.context := context;
    }

    /** `get`: what is held, unless expired. */
    method Get(key: Bytes, now: nat) returns (r: Option<Value>)
      requires Valid()
      modifies small.slots, if large != null then {large.slots} else {}
      ensures Valid()
      ensures var k := Stored(context.current, key);
        if |k| > CACHE_KEY_MAX then r == None && forall j :: Held(j) == old(Held(j))
        else && r == Unexpired(old(Held(k)), now)
             && forall j :: Held(j) == if j == k then Kept(old(Held(k)), now) else old(Held(j))
    {
      hide Find, ChainInv, OneCopy, TombstonedOthers, SetMeaning;
      var k := Stored(context.current, key);
      if |k| > CACHE_KEY_MAX {
        return None;
      }
      r := small.Get(k, now);
      assert forall j :: InSmall(j) == if j == k then Kept(old(InSmall(k)), now) else old(InSmall(j));
      assert forall j :: InLarge(j) == old(InLarge(j));
      if r.None? && large != null {
        label Missed:
        r := large.Get(k, now);
        assert forall j :: InSmall(j) == old@Missed(InSmall(j));
        assert forall j :: InLarge(j) == if j == k then Kept(old(InLarge(k)), now) else old(InLarge(j));
      }
    }

    /** `delete`: gone from both regions. */
    method Delete(key: Bytes) returns (found: bool)
      requires Valid()
      modifies small.slots, if large != null then {large.slots} else {}
      ensures Valid()
      ensures found <==> old(Held(Stored(context.current, key))).Some?
      ensures forall j :: Held(j) == if j == Stored(context.current, key) then None else old(Held(j))
    {
      hide Find, ChainInv, OneCopy, TombstonedOthers, SetMeaning;
      var k := Stored(context.current, key);
      found := small.Delete(k);
      assert forall j :: InSmall(j) == if j == k then None else old(InSmall(j));
      assert forall j :: InLarge(j) == old(InLarge(j));
      if large != null {
        label Small:
        var l := large.Delete(k);
        assert forall j :: InSmall(j) == old@Small(InSmall(j));
        assert forall j :: InLarge(j) == if j == k then None else old(InLarge(j));
        found := found || l;
      }
    }

    /** `touch`. */
    method Touch(key: Bytes, ttl: nat, now: nat) returns (found: bool)
      requires Valid()
      modifies small.slots, if large != null then {large.slots} else {}
      ensures Valid()
      ensures var k := Stored(context.current, key);
        if |k| > CACHE_KEY_MAX then !found && forall j :: Held(j) == old(Held(j))
        else && (found <==> Unexpired(old(Held(k)), now).Some?)
             && forall j :: Held(j) ==
                  if j == k then Touched(old(Held(k)), Deadline(ttl, now), now) else old(Held(j))
    {
      hide Find, ChainInv, OneCopy, TombstonedOthers, SetMeaning;
      var k := Stored(context.current, key);
      if |k| > CACHE_KEY_MAX {
        return false;
      }
      found := small.Touch(k, ttl, now);
      assert forall j :: InSmall(j) == if j == k then Touched(old(InSmall(k)), Deadline(ttl, now), now) else old(InSmall(j));
      assert forall j :: InLarge(j) == old(InLarge(j));
      if !found && large != null {
        label Missed:
        found := large.Touch(k, ttl, now);
        assert forall j :: InSmall(j) == old@Missed(InSmall(j));
        assert forall j :: InLarge(j) == if j == k then Touched(old(InLarge(k)), Deadline(ttl, now), now) else old(InLarge(j));
      }
    }

    /** The small half of `set`. */
    method SetSmall(k: Key, val: Value, ttl: nat, now: nat, ms: u64)
      requires Valid() && |val| <= VAL_SMALL
      modifies small.slots, if large != null then {large.slots} else {}
      ensures Valid()
      ensures var e := Entry(val, Deadline(ttl, now), ms);
        && InSmall(k) == Some(e)
        && SetMeaning(small.g, old(small.slots[..]), small.slots[..], k, e, now)
      ensures forall j :: InLarge(j) == if j == k then None else old(InLarge(j))
    {
      hide Find, ChainInv, OneCopy, TombstonedOthers, SetMeaning;
      if large != null {
        var _ := large.Delete(k);
      }
      assert forall j :: InLarge(j) == if j == k then None else old(InLarge(j));
      assert forall j :: InSmall(j) == old(InSmall(j));
      var _ := small.Set(k, val, ttl, now, ms);
    }

    /** The large half of `set`. */
    method SetLarge(k: Key, val: Value, ttl: nat, now: nat, ms: u64)
      requires Valid() && VAL_SMALL < |val| <= VAL_LARGE && large != null
      modifies small.slots, large.slots
      ensures Valid()
      ensures var e := Entry(val, Deadline(ttl, now), ms);
        && InLarge(k) == Some(e)
        && SetMeaning(large.g, old(large.slots[..]), large.slots[..], k, e, now)
      ensures forall j :: InSmall(j) == if j == k then None else old(InSmall(j))
    {
      hide Find, ChainInv, OneCopy, TombstonedOthers, SetMeaning;
      var _ := small.Delete(k);
      assert forall j :: InSmall(j) == if j == k then None else old(InSmall(j));
      assert forall j :: InLarge(j) == old(InLarge(j));
      var _ := large.Set(k, val, ttl, now, ms);
    }

    /** `set`: routed by size, and cleared from the other region first, so that the key is held once
        and with this value. Only the region it goes to can lose another key. */
    method Set(key: Bytes, val: Value, ttl: nat, now: nat, ms: u64) returns (ok: bool)
      requires Valid()
      modifies small.slots, if large != null then {large.slots} else {}
      ensures Valid()
      ensures var k := Stored(context.current, key);
        ok <==> |k| <= CACHE_KEY_MAX && (|val| <= VAL_SMALL || (|val| <= VAL_LARGE && large != null))
      ensures ok ==> Held(Stored(context.current, key)) == Some(Entry(val, Deadline(ttl, now), ms))
      ensures var k := Stored(context.current, key); var e := Entry(val, Deadline(ttl, now), ms);
        && (ok && |val| <= VAL_SMALL ==>
              && SetMeaning(small.g, old(small.slots[..]), small.slots[..], k, e, now)
              && forall j :: InLarge(j) == if j == k then None else old(InLarge(j)))
        && (ok && VAL_SMALL < |val| ==>
              && SetMeaning(large.g, old(large.slots[..]), large.slots[..], k, e, now)
              && forall j :: InSmall(j) == if j == k then None else old(InSmall(j)))
      ensures !ok ==>
        var k := Stored(context.current, key); var dropped := |k| <= CACHE_KEY_MAX && VAL_SMALL < |val| <= VAL_LARGE;
        forall j :: Held(j) == if j == k && dropped then None else old(Held(j))
    {
      hide Find, ChainInv, OneCopy, TombstonedOthers, SetMeaning;
      var k := Stored(context.current, key);
      if |k| > CACHE_KEY_MAX {
        return false;
      }
      if |val| <= VAL_SMALL {
        SetSmall(k, val, ttl, now, ms);
        return true;
      }
      if |val| <= VAL_LARGE {
        if large == null {
          var _ := small.Delete(k);
          assert forall j :: InSmall(j) == if j == k then None else old(InSmall(j));
          return false;
        }
        SetLarge(k, val, ttl, now, ms);
        return true;
      }
      return false;
    }

    /** `add`: blocked by a live entry in either region; otherwise stored in the small one, where
        nothing else is lost, provided the window there has room. */
    method Add(key: Bytes, val: Value, ttl: nat, now: nat, ms: u64) returns (added: bool)
      requires Valid()
      modifies small.slots, if large != null then {large.slots} else {}
      ensures Valid()
      ensures var k := Stored(context.current, key);
        added <==> && |k| <= CACHE_KEY_MAX && |val| <= VAL_SMALL && Unexpired(old(Held(k)), now).None?
                   && (old(InSmall(k)).Some? || HasRoom(small.g, old(small.slots[..]), k))
      ensures added ==>
        var k := Stored(context.current, key); var e := Entry(val, Deadline(ttl, now), ms);
        forall j :: Held(j) == if j == k then Some(e) else old(Held(j))
      ensures !added ==>
        var k := Stored(context.current, key);
        forall j :: Held(j) == old(Held(j)) || (j == k && Held(j) == Kept(old(Held(j)), now))
    {
      hide Find, ChainInv, OneCopy, TombstonedOthers, SetMeaning, HasRoom;
      var k := Stored(context.current, key);
      if |k| > CACHE_KEY_MAX || |val| > VAL_SMALL {
        return false;
      }
      if large != null {
        var l := large.Get(k, now);
        assert forall j :: InLarge(j) == if j == k then Kept(old(InLarge(k)), now) else old(InLarge(j));
        assert forall j :: InSmall(j) == old(InSmall(j));
        if l.Some? {
          return false;
        }
      }
      added := small.Add(k, val, ttl, now, ms);
    }

    /** `increment` looks at the small region only: the counter there is bumped or, where there is
        room, created — beside a copy of the key in the large region, if there is one. */
    method Increment(key: Bytes, delta: int, ttl: nat, now: nat, ms: u64) returns (next: int)
      requires Valid()
      modifies small.slots
      ensures Regions() && forall j :: InLarge(j) == old(InLarge(j))
      ensures var k := Stored(context.current, key); var stores := old(InSmall(k)).Some? || HasRoom(small.g, old(small.slots[..]), k);
        Valid() <==> old(InLarge(k)).None? || |k| > CACHE_KEY_MAX || !stores
      ensures var k := Stored(context.current, key);
        if |k| > CACHE_KEY_MAX then next == 0 && forall j :: InSmall(j) == old(InSmall(j))
        else next == match old(InSmall(k))
                     case Some(e) => SatAddI64(if Stale(e, now) || small.parse(e.val).None? then 0 else small.parse(e.val).value, delta)
                     case None => delta
      ensures var k := Stored(context.current, key); var stores := old(InSmall(k)).Some? || HasRoom(small.g, old(small.slots[..]), k);
        if |k| <= CACHE_KEY_MAX && stores then
          var e := Entry(small.render(next), CounterExpiry(old(InSmall(k)), Deadline(ttl, now), now), ms);
          forall j :: InSmall(j) == if j == k then Some(e) else old(InSmall(j))
        else forall j :: InSmall(j) == old(InSmall(j))
    {
      hide Find, ChainInv, OneCopy, TombstonedOthers, SetMeaning, HasRoom;
      var k := Stored(context.current, key);
      if |k| > CACHE_KEY_MAX {
        return 0;
      }
      next := small.Increment(k, delta, ttl, now, ms);
      assert forall j :: InLarge(j) == old(InLarge(j));
    }

    /** `flush_app`: all of the application's keys are gone, and every key that does not begin with its prefix
        is exactly where it was. */
    method FlushApp(a: App)
      requires Valid()
      modifies small.slots, if large != null then {large.slots} else {}
      ensures Valid()
      ensures forall j :: Held(j) == if Prefix(a) <= j then None else old(Held(j))
      ensures forall key :: Held(Stored(Some(a), key)).None?
      ensures forall b: App, key | b != a :: Held(Stored(Some(b), key)) == old(Held(Stored(Some(b), key)))
    {
      hide Find, ChainInv, OneCopy, TombstonedOthers, SetMeaning;
      small.FlushPrefix(Prefix(a));
      if large != null {
        large.FlushPrefix(Prefix(a));
      }
      assert forall j :: InSmall(j) == if Prefix(a) <= j then None else old(InSmall(j));
      assert forall j :: InLarge(j) == if Prefix(a) <= j then None else old(InLarge(j));
      forall b: App, key
        ensures Prefix(a) <= Stored(Some(b), key) <==> a == b
      {
        OwnedByItsApp(a, b, key);
      }
    }
  }
}
