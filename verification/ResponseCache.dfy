/** The response cache run by one process at a time: its slots and tag table in place. */
module ResponseCache {
  import opened Common
  import opened ResponseTable
  import opened PurgeKeys
  import TagTable

  type Tag = TagTable.Tag

  const HDR_MAX: nat := 8192
  const BODY_MAX: nat := 131072
  const MAX_TAGS: nat := 8

  /** What a lookup gives. */
  datatype Cached = Cached(resp: Response, stale: bool, errorOnly: bool)

  function CachedOf(e: Entry, now: nat): Cached {
    Cached(e.resp, UseOf(e, now) == Stale, UseOf(e, now) == ErrorOnly)
  }

  /** What a store was asked for, and when. */
  datatype Storing = Storing(resp: Response, at: nat, ttl: nat, swr: nat, sie: nat)

  /** The entry has the deadlines of what was stored. */
  predicate Stored(e: Entry, w: Storing) {
    e.resp == w.resp && (e.exp, e.hard, e.err) == Deadlines(w.at, w.ttl, w.swr, w.sie)
  }

  /** A lookup at `now` may be answered: there is no ttl, or it, or the longer of the two that follow it, is
      not over. */
  predicate InTime(w: Storing, now: nat) {
    w.ttl == 0 || now <= w.at + w.ttl + Max(w.swr, w.sie)
  }

  /** The answer: the response, marked stale in the swr seconds after the ttl and for errors only after
      those, up to sie seconds after the ttl. */
  predicate Answers(c: Cached, w: Storing, now: nat) {
    && c.resp == w.resp
    && (c.stale <==> 0 < w.ttl && w.at + w.ttl < now <= w.at + w.ttl + w.swr)
    && (c.errorOnly <==> 0 < w.ttl && w.at + w.ttl + w.swr < now <= w.at + w.ttl + w.sie)
  }

  lemma StoredAs(e: Entry, w: Storing)
    requires e.resp == w.resp && e.exp == (if 0 < w.ttl then w.at + w.ttl else 0)
    requires e.hard == (if 0 < w.ttl && 0 < w.swr then e.exp + w.swr else e.exp)
    requires e.err == (if 0 < w.ttl && 0 < w.sie then e.exp + w.sie else 0)
    ensures Stored(e, w)
  {
  }

  lemma CachedAnswers(e: Entry, w: Storing, now: nat)
    requires Stored(e, w)
    ensures UseOf(e, now) != Gone <==> InTime(w, now)
    ensures UseOf(e, now) != Gone ==> Answers(CachedOf(e, now), w, now)
    ensures UseOf(e, now) in {Fresh, Stale} <==> InTime(w, now) && !CachedOf(e, now).errorOnly
  {
    DeadlineClasses(e, w.at, w.ttl, w.swr, w.sie, now);
  }

  // ---- Storing ----

  /** Every slot of the window is live with another hash. */
  predicate Crowded(s: seq<Cell>, h: u64)
    requires Sized(s)
  {
    forall i | 0 <= i < WINDOW :: s[Pos(s, h, i)].Live? && s[Pos(s, h, i)].hash != h
  }

  /** After a store: the hash has the entry, and one other is lost exactly where the whole window was
      live with others — the one in the first slot. */
  ghost predicate StoreMeaning(s: seq<Cell>, t: seq<Cell>, h: u64, e: Entry)
    requires Sized(s)
  {
    forall g: u64 :: Find(t, g) == if g == h then Some(e)
                                   else if Crowded(s, h) && g == s[Pos(s, h, 0)].hash then None else Find(s, g)
  }

  predicate TombAt(s: seq<Cell>, h: u64, j: nat, x: nat)
    requires Sized(s)
  {
    Pos(s, h, j) == x && s[x].Tomb?
  }

  /** The first `i` slots are used by others; `reuse` is the first tombstone, `target` the first live
      one among them. */
  ghost predicate Looking(s: seq<Cell>, h: u64, i: nat, reuse: Option<nat>, target: Option<nat>)
    requires Sized(s)
  {
    && i <= WINDOW && Passed(s, h, i) && (i == 0 ==> reuse.None? && target.None?)
    && (reuse.None? ==> forall j | 0 <= j < i :: s[Pos(s, h, j)].Live?)
    && (reuse.Some? ==> exists j :: 0 <= j < i && TombAt(s, h, j, reuse.value))
    && (reuse.None? && 0 < i ==> target == Some(Pos(s, h, 0)))
    && (target.None? ==> forall j | 0 <= j < i :: s[Pos(s, h, j)].Tomb?)
  }

  lemma LookingNext(s: seq<Cell>, h: u64, i: nat, reuse: Option<nat>, target: Option<nat>)
    requires Sized(s) && Looking(s, h, i, reuse, target) && i < WINDOW && Used(s, h, i) && s[Pos(s, h, i)].hash != h
    ensures var x := Pos(s, h, i);
      && (s[x].Tomb? ==> Looking(s, h, i + 1, if reuse.None? then Some(x) else reuse, target))
      && (s[x].Live? ==> Looking(s, h, i + 1, reuse, if target.None? then Some(x) else target))
  {
    hide Pos;
    var x := Pos(s, h, i);
    assert s[x].Tomb? ==> TombAt(s, h, i, x);
  }

  /** Writing in the first slot that is empty or has the hash. */
  lemma StoreFirst(s: seq<Cell>, h: u64, i: nat, e: Entry)
    requires TableInv(s) && i < WINDOW && Passed(s, h, i)
    requires !Used(s, h, i) || s[Pos(s, h, i)].hash == h
    ensures var t := s[Pos(s, h, i) := Live(h, e)]; TableInv(t) && StoreMeaning(s, t, h, e)
  {
    hide Find, Pos;
    var x := Pos(s, h, i);
    if !Used(s, h, i) {
      HeldNowhere(s, h, i);
    } else {
      assert Holds(s, h, x);
    }
    assert Reaches(s, h, x);
    StoredFind(s, x, h, e);
    assert !Crowded(s, h);
  }

  /** Writing where there was no such slot: in a tombstone, or over the first live entry. */
  lemma StoreOver(s: seq<Cell>, h: u64, e: Entry, reuse: Option<nat>, target: Option<nat>)
    requires TableInv(s) && Looking(s, h, WINDOW, reuse, target)
    ensures reuse.Some? || target.Some?
    ensures var x := if reuse.Some? then reuse.value else target.value;
      x < |s| && TableInv(s[x := Live(h, e)]) && StoreMeaning(s, s[x := Live(h, e)], h, e)
  {
    hide Find, Pos;
    HeldNowhere(s, h, WINDOW);
    if reuse.Some? {
      var i :| 0 <= i < WINDOW && TombAt(s, h, i, reuse.value);
      assert Reaches(s, h, reuse.value);
      StoredFind(s, reuse.value, h, e);
      assert !Crowded(s, h);
    } else {
      assert target == Some(Pos(s, h, 0));
      assert Reaches(s, h, Pos(s, h, 0));
      StoredFind(s, Pos(s, h, 0), h, e);
      assert Crowded(s, h);
    }
  }

  // ---- Scanning ----

  /** An invalidation has gone through the first `i` slots: what it wants is gone from them, and the
      map has lost nothing else. */
  ghost predicate Scanning(s: seq<Cell>, t: seq<Cell>, want: Bytes -> bool, i: nat) {
    && TableInv(s) && TableInv(t) && |t| == |s| && i <= |s|
    && (forall x | i <= x < |s| :: t[x] == s[x])
    && (forall x | 0 <= x < i && t[x].Live? :: !want(t[x].e.key))
    && forall g: u64 :: Find(t, g) == Find(s, g) || (Find(t, g).None? && Find(s, g).Some? && want(Find(s, g).value.key))
  }

  function Without(o: Option<Entry>, want: Bytes -> bool): Option<Entry> {
    if o.Some? && want(o.value.key) then None else o
  }

  lemma ScanNext(s: seq<Cell>, t: seq<Cell>, want: Bytes -> bool, i: nat)
    requires Scanning(s, t, want, i) && i < |s|
    ensures t[i].Live? && want(t[i].e.key) ==> Scanning(s, t[i := Tomb(t[i].hash)], want, i + 1)
    ensures !(t[i].Live? && want(t[i].e.key)) ==> Scanning(s, t, want, i + 1)
  {
    hide TableInv, Find;
    if t[i].Live? && want(t[i].e.key) {
      TombstonedFind(t, i);
      assert LiveAt(s, t[i].hash, i);
      FindAt(s, t[i].hash, i);
    }
  }

  lemma ScanDone(s: seq<Cell>, t: seq<Cell>, want: Bytes -> bool)
    requires Scanning(s, t, want, |s|)
    ensures forall g: u64 :: Find(t, g) == Without(Find(s, g), want)
  {
    hide TableInv, Find;
    forall g: u64
      ensures Find(t, g) == Without(Find(s, g), want)
    {
      if Find(t, g).Some? {
        var x := FoundAt(t, g);
      }
    }
  }

  /** How many of the first `i` slots hold a live entry that is wanted. */
  function CountWanted(s: seq<Cell>, want: Bytes -> bool, i: nat): nat
    requires i <= |s|
  {
    if i == 0 then 0 else CountWanted(s, want, i - 1) + (if s[i - 1].Live? && want(s[i - 1].e.key) then 1 else 0)
  }

  /** It is how many there are. */
  lemma {:induction false} CountIsNumber(s: seq<Cell>, want: Bytes -> bool, i: nat)
    requires i <= |s|
    ensures CountWanted(s, want, i) == |set x: nat | x < i && s[x].Live? && want(s[x].e.key)|
  {
    if 0 < i {
      CountIsNumber(s, want, i - 1);
      var before := set x: nat | x < i - 1 && s[x].Live? && want(s[x].e.key);
      var all := set x: nat | x < i && s[x].Live? && want(s[x].e.key);
      assert all == if s[i - 1].Live? && want(s[i - 1].e.key) then before + {i - 1} else before;
    }
  }

  class Responses {
    const slots: array<Cell>
    const tags: TagTable.Table
    const hash: Bytes -> Tag
    var hits: nat
    var misses: nat
    /** The last response stored under each hash. */
    ghost var last: map<u64, Entry>
    /** What the last store under each hash was asked for. */
    ghost var asked: map<u64, Storing>

    ghost predicate Valid()
      reads this, slots, tags, tags.cells
    {
      && TableInv(slots[..]) && tags.Valid()
      && (forall h: u64 | Lookup(h).Some? :: h in last && last[h] == Lookup(h).value)
      && forall h: u64 | h in last :: h in asked && Stored(last[h], asked[h])
    }

    ghost function Lookup(h: u64): Option<Entry>
      reads this, slots
    {
      Find(slots[..], h)
    }

    /** No tag of the entry has moved on since it was stored. */
    ghost predicate Current(e: Entry)
      reads this, tags, tags.cells
    {
      forall i | 0 <= i < |e.tags| :: tags.Generation(e.tags[i].0) == e.tags[i].1
    }

    constructor (hash: Bytes -> Tag, slots: nat)
      ensures Valid() && fresh(this.slots) && fresh(tags) && fresh(tags.cells) && this.hash == hash
      ensures last == map[] && asked == map[] && forall h: u64 :: Lookup(h).None?
    {
      this.hash := hash;
      this.slots := new Cell[if slots < 16 then 16 else slots](_ => Empty);
      this.tags := new TagTable.Table();
      hits, misses, last, asked := 0, 0, map[], map[];
      new;
      assert forall h: u64, x: nat :: !LiveAt(this.slots[..], h, x);
    }

    /** The tag check of a lookup. */
    method Outdated(e: Entry) returns (b: bool)
      requires tags.Valid()
      ensures b <==> !Current(e)
    {
      var t := 0;
      while t < |e.tags|
        invariant t <= |e.tags| && forall i | 0 <= i < t :: tags.Generation(e.tags[i].0) == e.tags[i].1
      {
        var g := tags.TagGen(e.tags[t].0);
        if g != e.tags[t].1 {
          return true;
        }
        t := t + 1;
      }
      return false;
    }

    lemma Remembered(h: u64, now: nat)
      requires Valid()
      ensures var o := Lookup(h); o.Some? ==>
        && h in last && o.value == last[h] && h in asked
        && (UseOf(o.value, now) != Gone <==> InTime(asked[h], now))
        && (UseOf(o.value, now) != Gone ==> Answers(CachedOf(o.value, now), asked[h], now))
        && (UseOf(o.value, now) in {Fresh, Stale} <==> InTime(asked[h], now) && !CachedOf(o.value, now).errorOnly)
    {
      hide TableInv, Find, UseOf, CachedOf;
      if Lookup(h).Some? {
        CachedAnswers(last[h], asked[h], now);
      }
    }

    /** `peek`, and so `stale_on_error`: the last stored response under the hash, if it is there,
        within its deadlines and none of its tags has moved on; otherwise nothing, and an entry that
        failed a check is gone for good. */
    method Peek(key: Bytes, now: nat) returns (r: Option<Cached>)
      requires Valid()
      modifies slots
      ensures Valid() && last == old(last)
      ensures var h := hash(key); var o := old(Lookup(h));
        if o.Some? && UseOf(o.value, now) != Gone && Current(o.value)
        then r == Some(CachedOf(o.value, now)) && o.value == last[h] && forall g: u64 :: Lookup(g) == old(Lookup(g))
        else r.None? && forall g: u64 :: Lookup(g) == if g == h then None else old(Lookup(g))
      ensures var h := hash(key); var o := old(Lookup(h));
        && (r.Some? <==> o.Some? && InTime(asked[h], now) && Current(o.value))
        && (r.Some? ==> Answers(r.value, asked[h], now))
    {
      hide TableInv, Find, Pos, UseOf, Stored, CachedOf;
      Remembered(hash(key), now);
      var h := hash(key);
      ghost var s := slots[..];
      InvSized(s);
      var i := 0;
      while i < WINDOW
        invariant i <= WINDOW && slots[..] == s && Searched(s, h, i)
      {
        var x := Slot(h, i, slots.Length);
        PosIs(s, h, i);
        var c := slots[x];
        if c.Empty? {
          break;
        }
        if c.Live? && c.hash == h {
          FindAt(s, h, x);
          TombstonedFind(s, x);
          OverIsGone(c.e, now);
          if Over(c.e, now) {
            slots[x] := Tomb(h);
            return None;
          }
          var out := Outdated(c.e);
          if out {
            slots[x] := Tomb(h);
            return None;
          }
          var stale := c.e.exp != 0 && c.e.exp < now;
          var errorOnly := stale && (c.e.hard == 0 || c.e.hard < now);
          CachedIs(c.e, now);
          return Some(Cached(c.e.resp, stale && !errorOnly, errorOnly));
        }
        i := i + 1;
      }
      SearchedInVain(s, h, i);
      return None;
    }

    /** `get`: what `Peek` gives, never an entry kept only for errors; hits and misses are counted. */
    method Get(key: Bytes, now: nat) returns (r: Option<Cached>)
      requires Valid()
      modifies this`hits, this`misses, slots
      ensures Valid() && last == old(last)
      ensures var o := old(Lookup(hash(key)));
        if o.Some? && UseOf(o.value, now) in {Fresh, Stale} && Current(o.value)
        then r == Some(CachedOf(o.value, now)) && o.value == last[hash(key)]
        else r.None?
      ensures r.Some? ==> !r.value.errorOnly && Answers(r.value, asked[hash(key)], now)
      ensures var h := hash(key); var o := old(Lookup(h));
        r.Some? <==> && o.Some? && Current(o.value)
                     && (asked[h].ttl == 0 || now <= asked[h].at + asked[h].ttl + asked[h].swr)
      ensures var h := hash(key); var o := old(Lookup(h));
        forall g: u64 :: Lookup(g) == if g == h && o.Some? && !(UseOf(o.value, now) != Gone && Current(o.value)) then None else old(Lookup(g))
      ensures hits + misses == old(hits) + old(misses) + 1 && (hits == old(hits) + 1 <==> r.Some?)
    {
      hide TableInv, Find, UseOf, Stored, CachedOf;
      Remembered(hash(key), now);
      r := Peek(key, now);
      if r.Some? && r.value.errorOnly {
        r := None;
      }
      if r.Some? {
        hits := hits + 1;
      } else {
        misses := misses + 1;
      }
    }

    /** The generations of the tags, now. */
    method Snapshot(names: seq<Bytes>) returns (ts: seq<(Tag, nat)>)
      requires tags.Valid()
      ensures |ts| == |names|
      ensures forall i | 0 <= i < |names| :: ts[i] == (hash(names[i]), tags.Generation(hash(names[i])))
    {
      ts := [];
      while |ts| < |names|
        invariant |ts| <= |names|
        invariant forall i | 0 <= i < |ts| :: ts[i] == (hash(names[i]), tags.Generation(hash(names[i])))
      {
        var g := tags.TagGen(hash(names[|ts|]));
        ts := ts + [(hash(names[|ts|]), g)];
      }
    }

    /** The slot a store writes: the first that is empty or has the hash, else the first tombstone,
        else the first. */
    method Place(h: u64, e: Entry)
      requires TableInv(slots[..])
      modifies slots
      ensures TableInv(slots[..]) && StoreMeaning(old(slots[..]), slots[..], h, e)
    {
      hide TableInv, Find, Pos, StoreMeaning, Looking;
      ghost var s := slots[..];
      InvSized(s);
      var reuse: Option<nat>, target: Option<nat> := None, None;
      var i := 0;
      NotLookedYet(s, h);
      while i < WINDOW
        invariant i <= WINDOW && slots[..] == s && Looking(s, h, i, reuse, target)
      {
        var x := Slot(h, i, slots.Length);
        PosIs(s, h, i);
        if slots[x].Empty? || slots[x].hash == h {
          LookedAt(s, h, i, reuse, target);
          StoreFirst(s, h, i, e);
          slots[x] := Live(h, e);
          assert slots[..] == s[x := Live(h, e)];
          return;
        }
        LookingNext(s, h, i, reuse, target);
        if slots[x].Tomb? {
          if reuse.None? {
            reuse := Some(x);
          }
        } else if target.None? {
          target := Some(x);
        }
        i := i + 1;
      }
      StoreOver(s, h, e, reuse, target);
      var x := if reuse.Some? then reuse.value else target.value;
      slots[x] := Live(h, e);
      assert slots[..] == s[x := Live(h, e)];
    }

    /** `store`: refused when too large or with too many tags; otherwise the response is what lookups
        find, with the deadlines that follow from its lifetimes and its tags as they are now. */
    method Store(key: Bytes, resp: Response, ttl: nat, swr: nat, sie: nat, names: seq<Bytes>, app: Bytes, now: nat)
        returns (ok: bool)
      requires Valid()
      modifies this`last, this`asked, slots
      ensures Valid()
      ensures ok <==> |resp.headers| <= HDR_MAX && |resp.body| <= BODY_MAX && |names| <= MAX_TAGS
      ensures !ok ==> last == old(last) && asked == old(asked) && slots[..] == old(slots[..])
      ensures ok ==> asked == old(asked)[hash(key) := Storing(resp, now, ttl, swr, sie)]
      ensures ok ==> var h := hash(key);
        && h in last && last == old(last)[h := last[h]] && StoreMeaning(old(slots[..]), slots[..], h, last[h])
        && last[h].resp == resp && last[h].key == Kept(key) && last[h].app == app
        && (last[h].exp, last[h].hard, last[h].err) == Deadlines(now, ttl, swr, sie)
        && Current(last[h]) && |last[h].tags| == |names| && forall i | 0 <= i < |names| :: last[h].tags[i].0 == hash(names[i])
    {
      hide TableInv, Find, Pos, Stored, Crowded;
      if |resp.headers| > HDR_MAX || |resp.body| > BODY_MAX {
        return false;
      }
      var h := hash(key);
      var exp := if ttl > 0 then now + ttl else 0;
      var hard := if ttl > 0 && swr > 0 then exp + swr else exp;
      var err := if ttl > 0 && sie > 0 then exp + sie else 0;
      if |names| > MAX_TAGS {
        return false;
      }
      var ts := Snapshot(names);
      var e := Entry(resp, exp, hard, err, Kept(key), app, ts);
      InvSized(slots[..]);
      Place(h, e);
      StoredAs(e, Storing(resp, now, ttl, swr, sie));
      last, asked := last[h := e], asked[h := Storing(resp, now, ttl, swr, sie)];
      return true;
    }

    /** `forget_tag`: entries with the tag no longer pass the check, and no other does for it. */
    method ForgetTag(name: Bytes)
      requires Valid()
      modifies tags.cells
      ensures !TagTable.Full(old(tags.cells[..]), hash(name)) ==>
        && Valid() && tags.Generation(hash(name)) == old(tags.Generation(hash(name))) + 1
        && forall e | old(Current(e)) :: Current(e) <==> forall i | 0 <= i < |e.tags| :: e.tags[i].0 != hash(name)
      ensures var s := old(tags.cells[..]); var x := TagTable.At(hash(name), 0);
        TagTable.Full(s, hash(name)) ==> tags.cells[..] == s[x := TagTable.Cell(hash(name), s[x].gen + 1)]
    {
      hide TableInv, Find;
      tags.Forget(hash(name));
    }

    /** `scan_invalidate`: exactly the entries whose retained key is wanted are dropped. */
    method Invalidate(want: Bytes -> bool) returns (n: nat)
      requires Valid()
      modifies slots
      ensures Valid() && last == old(last) && n == CountWanted(old(slots[..]), want, slots.Length)
      ensures forall h: u64 :: Lookup(h) == Without(old(Lookup(h)), want)
    {
      hide TableInv, Find;
      ghost var s := slots[..];
      n := 0;
      var i := 0;
      while i < slots.Length
        invariant i <= slots.Length && Scanning(s, slots[..], want, i) && n == CountWanted(s, want, i)
      {
        ScanNext(s, slots[..], want, i);
        assert slots[i] == s[i];
        if slots[i].Live? && want(slots[i].e.key) {
          slots[i] := Tomb(slots[i].hash);
          n := n + 1;
        }
        i := i + 1;
      }
      ScanDone(s, slots[..], want);
    }

    /** `purge_url`. */
    method PurgeUrl(host: Bytes, path: Bytes, query: Option<Bytes>) returns (n: nat)
      requires Valid()
      modifies slots
      ensures Valid() && last == old(last)
      ensures forall h: u64 :: Lookup(h) == Without(old(Lookup(h)), k => PurgeWants(k, host, path, query))
      ensures n == CountWanted(old(slots[..]), k => PurgeWants(k, host, path, query), slots.Length)
    {
      hide TableInv, Find;
      n := Invalidate(k => PurgeWants(k, host, path, query));
    }

    /** `ban_glob`. */
    method BanGlob(host: Bytes, pattern: Bytes) returns (n: nat)
      requires Valid()
      modifies slots
      ensures Valid() && last == old(last)
      ensures forall h: u64 :: Lookup(h) == Without(old(Lookup(h)), k => BanWants(k, host, pattern))
      ensures n == CountWanted(old(slots[..]), k => BanWants(k, host, pattern), slots.Length)
    {
      hide TableInv, Find;
      n := Invalidate(k => BanWants(k, host, pattern));
    }
  }

  lemma NotLookedYet(s: seq<Cell>, h: u64)
    requires Sized(s)
    ensures Looking(s, h, 0, None, None)
  {
  }

  lemma LookedAt(s: seq<Cell>, h: u64, i: nat, reuse: Option<nat>, target: Option<nat>)
    requires Sized(s) && Looking(s, h, i, reuse, target)
    ensures Passed(s, h, i)
  {
  }

  lemma InvSized(s: seq<Cell>)
    requires TableInv(s)
    ensures Sized(s)
  {
  }

  lemma PosIs(s: seq<Cell>, h: u64, i: nat)
    requires Sized(s)
    ensures Pos(s, h, i) == Slot(h, i, |s|)
  {
  }

  lemma CachedIs(e: Entry, now: nat)
    ensures CachedOf(e, now) == Cached(e.resp, UseOf(e, now) == Stale, UseOf(e, now) == ErrorOnly)
  {
  }

  lemma OverIsGone(e: Entry, now: nat)
    ensures Over(e, now) <==> UseOf(e, now) == Gone
    ensures var stale := e.exp != 0 && e.exp < now; var errorOnly := stale && (e.hard == 0 || e.hard < now);
      !Over(e, now) ==> (UseOf(e, now) == Stale <==> stale && !errorOnly) && (UseOf(e, now) == ErrorOnly <==> errorOnly)
  {
  }
}
