/** One region of the key-value cache run by one process at a time: the slots in place, refining a
    map from keys to entries. */
module CacheRegion {
  import opened Common
  import opened CacheSteps

  /** What the cache holds for a key: value, expiry (0 = never), and when it was written. */
  datatype Entry = Entry(val: Value, exp: nat, at: u64)

  predicate Stale(e: Entry, now: nat) {
    e.exp != 0 && e.exp < now
  }

  function Deadline(ttl: nat, now: nat): nat {
    if 0 < ttl then now + ttl else 0
  }

  ghost predicate OneCopy(s: seq<Cell>) {
    forall x, y | 0 <= x < |s| && 0 <= y < |s| && s[x].Live? && s[y].Live? && s[x].key == s[y].key :: x == y
  }

  ghost predicate TableInv(g: Geo, s: seq<Cell>) {
    g.Valid() && |s| == g.n && ChainInv(g, s) && OneCopy(s)
  }

  function EntryOf(c: Cell): Entry
    requires c.Live?
  {
    Entry(c.val, c.exp, c.at)
  }

  /** The map a table stands for, key by key. */
  ghost function Find(s: seq<Cell>, k: Key): Option<Entry> {
    if exists x: nat :: IsCopy(s, k, x) then
      var x: nat :| IsCopy(s, k, x);
      Some(EntryOf(s[x]))
    else None
  }

  lemma FindAt(s: seq<Cell>, k: Key, x: nat)
    requires OneCopy(s) && IsCopy(s, k, x)
    ensures Find(s, k) == Some(EntryOf(s[x]))
  {
  }

  lemma CopyIsFound(s: seq<Cell>, k: Key, x: nat)
    ensures IsCopy(s, k, x) ==> Find(s, k).Some?
  {
  }

  /** A lookup that has passed only other keys and then met an empty slot, or used up its window. */
  ghost predicate Searched(g: Geo, s: seq<Cell>, k: Key, i: nat)
    requires g.Valid() && |s| == g.n
  {
    Reached(g, s, k, i) && forall j | 0 <= j < i :: !IsCopy(s, k, At(g, k, j))
  }

  lemma SearchedInVain(g: Geo, s: seq<Cell>, k: Key, i: nat)
    requires g.Valid() && |s| == g.n && ChainInv(g, s) && Searched(g, s, k, i)
    requires i == PROBE || s[At(g, k, i)].Empty?
    ensures Find(s, k).None?
  {
    assert forall x: nat | IsCopy(s, k, x) :: Findable(g, s, k, x);
  }

  /** The slots agree on every key but the one at `x`, before and after `x` is rewritten. */
  lemma SameElsewhere(s: seq<Cell>, x: nat, c: Cell, k: Key)
    requires OneCopy(s) && x < |s| && OneCopy(s[x := c])
    requires (s[x].Live? ==> s[x].key != k) && (c.Live? ==> c.key != k)
    ensures Find(s[x := c], k) == Find(s, k)
  {
    var t := s[x := c];
    if y: nat :| IsCopy(s, k, y) {
      assert IsCopy(t, k, y);
      FindAt(s, k, y);
      FindAt(t, k, y);
    } else if y: nat :| IsCopy(t, k, y) {
      assert IsCopy(s, k, y);
    }
  }

  lemma ChainsSurvive(g: Geo, s: seq<Cell>, x: nat, c: Cell)
    requires g.Valid() && |s| == g.n && ChainInv(g, s) && x < |s| && !c.Empty?
    requires c.Live? ==> Findable(g, s, c.key, x)
    ensures ChainInv(g, s[x := c])
  {
    var t := s[x := c];
    forall y | 0 <= y < |t| && t[y].Live?
      ensures Findable(g, t, t[y].key, y)
    {
      assert y != x ==> Findable(g, s, s[y].key, y);
      FindableStays(g, s, t, t[y].key, y);
    }
  }

  /** Tombstoning a live slot removes its key and nothing else. */
  lemma TombstoneFind(g: Geo, s: seq<Cell>, x: nat)
    requires TableInv(g, s) && x < |s| && s[x].Live?
    ensures TableInv(g, s[x := Tomb])
    ensures forall k :: Find(s[x := Tomb], k) == if k == s[x].key then None else Find(s, k)
  {
    var t := s[x := Tomb];
    ChainsSurvive(g, s, x, Tomb);
    forall k
      ensures Find(t, k) == if k == s[x].key then None else Find(s, k)
    {
      if k != s[x].key {
        SameElsewhere(s, x, Tomb, k);
      }
    }
  }

  /** Storing a key in a slot it can be found at, when no other slot holds it: the key that sat
      there before is displaced, and every other key keeps its entry. */
  lemma StoreFind(g: Geo, s: seq<Cell>, k: Key, x: nat, e: Entry)
    requires TableInv(g, s) && x < |s| && Findable(g, s, k, x)
    requires forall y: nat | IsCopy(s, k, y) :: y == x
    ensures var t := s[x := Live(k, e.val, e.exp, e.at)];
      && TableInv(g, t)
      && (forall j :: Find(t, j) == if j == k then Some(e)
                                    else if s[x].Live? && s[x].key == j then None else Find(s, j))
  {
    var c := Live(k, e.val, e.exp, e.at);
    var t := s[x := c];
    ChainsSurvive(g, s, x, c);
    assert OneCopy(t) by {
      assert forall y: nat | IsCopy(t, k, y) :: y == x || IsCopy(s, k, y);
      forall y, z | 0 <= y < |t| && 0 <= z < |t| && t[y].Live? && t[z].Live? && t[y].key == t[z].key
        ensures y == z
      {
        assert t[y].key == k ==> IsCopy(t, k, y) && IsCopy(t, k, z);
      }
    }
    FindAt(t, k, x);
    forall j
      ensures Find(t, j) == if j == k then Some(e)
                            else if s[x].Live? && s[x].key == j then None else Find(s, j)
    {
      if j != k && !(s[x].Live? && s[x].key == j) {
        SameElsewhere(s, x, c, j);
      }
    }
  }

  // ---- What each operation means for the map ----

  /** The answer of a lookup: the stored value unless it has expired. */
  function Unexpired(o: Option<Entry>, now: nat): Option<Value> {
    if o.Some? && !Stale(o.value, now) then Some(o.value.val) else None
  }

  /** What a lookup leaves in the map. */
  function Kept(o: Option<Entry>, now: nat): Option<Entry> {
    if o.Some? && Stale(o.value, now) then None else o
  }

  predicate Free(c: Cell) {
    !c.Live?
  }

  /** Some slot of the key's window is free. */
  ghost predicate HasRoom(g: Geo, s: seq<Cell>, k: Key)
    requires g.Valid() && |s| == g.n
  {
    exists i :: 0 <= i < PROBE && Free(s[At(g, k, i)])
  }

  ghost predicate AnyExpired(g: Geo, s: seq<Cell>, k: Key, now: nat)
    requires g.Valid() && |s| == g.n
  {
    exists i :: 0 <= i < PROBE && s[At(g, k, i)].Live? && Expired(s[At(g, k, i)], now)
  }

  /** When storing `k` may cost the entry in slot `x`: the key is new, its whole window is
      occupied, and the entry has expired — or none has, and it is the least recently written. */
  ghost predicate MayEvict(g: Geo, s: seq<Cell>, k: Key, now: nat, x: nat)
    requires g.Valid() && |s| == g.n
  {
    && x < |s| && s[x].Live? && s[x].key != k && Find(s, k).None?
    && (exists i :: 0 <= i < PROBE && At(g, k, i) == x)
    && !HasRoom(g, s, k)
    && (|| Expired(s[x], now)
        || (&& !AnyExpired(g, s, k, now)
            && forall i | 0 <= i < PROBE :: s[x].at <= s[At(g, k, i)].at))
  }

  /** `k` is stored and `lost` is gone; every other key is as it was. */
  ghost predicate StoredWithout(s: seq<Cell>, t: seq<Cell>, k: Key, e: Entry, lost: Key) {
    forall j :: Find(t, j) == if j == k then Some(e) else if j == lost then None else Find(s, j)
  }

  /** After `Set(k, e)`: the key is stored; at most the entry of one slot is lost, and only where
      `MayEvict` allows it. */
  ghost predicate SetMeaning(g: Geo, s: seq<Cell>, t: seq<Cell>, k: Key, e: Entry, now: nat)
    requires g.Valid() && |s| == g.n
  {
    || (forall j :: Find(t, j) == if j == k then Some(e) else Find(s, j))
    || (exists x: nat :: MayEvict(g, s, k, now, x) && StoredWithout(s, t, k, e, s[x].key))
  }

  /** The slot a set chooses. */
  ghost predicate SetTarget(g: Geo, s: seq<Cell>, k: Key, now: nat, x: nat)
    requires g.Valid() && |s| == g.n
  {
    && x < |s| && Findable(g, s, k, x)
    && (forall y: nat | IsCopy(s, k, y) :: y == x)
    && (s[x].Live? && s[x].key != k ==> MayEvict(g, s, k, now, x))
  }

  lemma SetTargetMeans(g: Geo, s: seq<Cell>, k: Key, now: nat, x: nat, e: Entry)
    requires TableInv(g, s) && SetTarget(g, s, k, now, x)
    ensures var t := s[x := Live(k, e.val, e.exp, e.at)]; TableInv(g, t) && SetMeaning(g, s, t, k, e, now)
  {
    StoreFind(g, s, k, x, e);
  }

  /** Slot `x` was passed at one of the first `i` positions, and is occupied. */
  ghost predicate PassedLive(g: Geo, s: seq<Cell>, k: Key, i: nat, x: nat)
    requires g.Valid() && |s| == g.n
  {
    x < |s| && s[x].Live? && exists j :: 0 <= j < i && At(g, k, j) == x
  }

  /** The loop variables of the probe. */
  datatype Scan = Scan(i: nat, reuse: Option<nat>, stale: Option<nat>, victim: nat, oldest: nat)

  /** What the probe knows after its first `i` positions. */
  ghost predicate Choosing(g: Geo, s: seq<Cell>, k: Key, now: nat, c: Scan)
    requires g.Valid() && |s| == g.n
  {
    && c.i <= PROBE && Searched(g, s, k, c.i)
    && (c.reuse.None? ==> forall j | 0 <= j < c.i :: s[At(g, k, j)].Live?)
    && (c.reuse.Some? ==> c.reuse.value < |s| && Free(s[c.reuse.value]) && Findable(g, s, k, c.reuse.value))
    && (c.stale.None? ==> forall j | 0 <= j < c.i && s[At(g, k, j)].Live? :: !Expired(s[At(g, k, j)], now))
    && (c.stale.Some? ==> PassedLive(g, s, k, c.i, c.stale.value) && Expired(s[c.stale.value], now))
    && (if c.oldest < U64_MAX then PassedLive(g, s, k, c.i, c.victim) && s[c.victim].at == c.oldest
        else c.victim == At(g, k, 0) && c.oldest == U64_MAX)
    && (forall j | 0 <= j < c.i && s[At(g, k, j)].Live? :: c.oldest <= s[At(g, k, j)].at)
  }

  lemma ChooseStart(g: Geo, s: seq<Cell>, k: Key, now: nat)
    requires g.Valid() && |s| == g.n
    ensures Choosing(g, s, k, now, Scan(0, None, None, At(g, k, 0), U64_MAX))
  {
  }

  lemma ChooseHit(g: Geo, s: seq<Cell>, k: Key, now: nat, c: Scan)
    requires g.Valid() && |s| == g.n && TableInv(g, s) && Choosing(g, s, k, now, c) && c.i < PROBE
    requires s[At(g, k, c.i)].Live? && s[At(g, k, c.i)].key == k
    ensures SetTarget(g, s, k, now, At(g, k, c.i))
  {
    assert FoundAt(g, s, k, At(g, k, c.i), c.i);
  }

  lemma ChooseEmpty(g: Geo, s: seq<Cell>, k: Key, now: nat, c: Scan)
    requires g.Valid() && |s| == g.n && TableInv(g, s) && Choosing(g, s, k, now, c) && c.i < PROBE && s[At(g, k, c.i)].Empty?
    ensures var x := if c.reuse.Some? then c.reuse.value else At(g, k, c.i);
      x < |s| && SetTarget(g, s, k, now, x)
  {
    SearchedInVain(g, s, k, c.i);
    assert FoundAt(g, s, k, At(g, k, c.i), c.i);
  }

  lemma PassedOneMore(g: Geo, s: seq<Cell>, k: Key, i: nat, x: nat)
    requires g.Valid() && |s| == g.n
    ensures PassedLive(g, s, k, i, x) ==> PassedLive(g, s, k, i + 1, x)
    ensures s[At(g, k, i)].Live? ==> PassedLive(g, s, k, i + 1, At(g, k, i))
  {
  }

  /** Remember the first free slot passed. */
  ghost predicate Seeking(g: Geo, s: seq<Cell>, k: Key, i: nat, reuse: Option<nat>)
    requires g.Valid() && |s| == g.n
  {
    && i <= PROBE && Searched(g, s, k, i)
    && (reuse.None? ==> forall j | 0 <= j < i :: s[At(g, k, j)].Live?)
    && (reuse.Some? ==> reuse.value < |s| && Free(s[reuse.value]) && Findable(g, s, k, reuse.value)
                        && exists j :: 0 <= j < i && At(g, k, j) == reuse.value)
  }

  lemma SeekOther(g: Geo, s: seq<Cell>, k: Key, i: nat, reuse: Option<nat>)
    requires g.Valid() && |s| == g.n && Seeking(g, s, k, i, reuse) && i < PROBE
    requires !s[At(g, k, i)].Empty? && !IsCopy(s, k, At(g, k, i))
    ensures Seeking(g, s, k, i + 1, if !s[At(g, k, i)].Live? && reuse.None? then Some(At(g, k, i)) else reuse)
  {
    assert FoundAt(g, s, k, At(g, k, i), i);
  }

  lemma SeekEnd(g: Geo, s: seq<Cell>, k: Key, i: nat, reuse: Option<nat>)
    requires g.Valid() && |s| == g.n && ChainInv(g, s) && Seeking(g, s, k, i, reuse)
    requires i == PROBE || s[At(g, k, i)].Empty?
    ensures Find(s, k).None?
    ensures i < PROBE ==> Findable(g, s, k, At(g, k, i))
    ensures HasRoom(g, s, k) <==> i < PROBE || reuse.Some?
    ensures reuse.Some? ==> reuse.value < |s| && Free(s[reuse.value]) && Findable(g, s, k, reuse.value)
  {
    SearchedInVain(g, s, k, i);
    if i < PROBE {
      assert FoundAt(g, s, k, At(g, k, i), i);
      assert Free(s[At(g, k, i)]);
    }
  }

  lemma ChooseTomb(g: Geo, s: seq<Cell>, k: Key, now: nat, c: Scan)
    requires g.Valid() && |s| == g.n && Choosing(g, s, k, now, c) && c.i < PROBE && s[At(g, k, c.i)].Tomb?
    ensures Choosing(g, s, k, now, c.(i := c.i + 1, reuse := if c.reuse.None? then Some(At(g, k, c.i)) else c.reuse))
  {
    assert FoundAt(g, s, k, At(g, k, c.i), c.i);
    PassedOneMore(g, s, k, c.i, c.victim);
    if c.stale.Some? { PassedOneMore(g, s, k, c.i, c.stale.value); }
    hide PassedLive;
  }

  lemma ChooseLive(g: Geo, s: seq<Cell>, k: Key, now: nat, c: Scan)
    requires g.Valid() && |s| == g.n && Choosing(g, s, k, now, c) && c.i < PROBE
    requires s[At(g, k, c.i)].Live? && s[At(g, k, c.i)].key != k
    ensures var x := At(g, k, c.i); var cell := s[x];
      Choosing(g, s, k, now, Scan(c.i + 1, c.reuse,
        if Expired(cell, now) && c.stale.None? then Some(x) else c.stale,
        if cell.at < c.oldest then x else c.victim,
        if cell.at < c.oldest then cell.at else c.oldest))
  {
    PassedOneMore(g, s, k, c.i, c.victim);
    if c.stale.Some? { PassedOneMore(g, s, k, c.i, c.stale.value); }
    LiveOneMore(g, s, k, c.i);
    hide Findable, PassedLive, Searched, Expired, At;
  }

  lemma LiveOneMore(g: Geo, s: seq<Cell>, k: Key, i: nat)
    requires g.Valid() && |s| == g.n && i < PROBE && Searched(g, s, k, i) && s[At(g, k, i)].Live? && s[At(g, k, i)].key != k
    ensures Searched(g, s, k, i + 1)
  {
    hide At;
  }

  lemma ChooseFull(g: Geo, s: seq<Cell>, k: Key, now: nat, c: Scan)
    requires g.Valid() && |s| == g.n && TableInv(g, s) && Choosing(g, s, k, now, c) && c.i == PROBE
    ensures var x := if c.reuse.Some? then c.reuse.value else if c.stale.Some? then c.stale.value else c.victim;
      x < |s| && SetTarget(g, s, k, now, x)
  {
    SearchedInVain(g, s, k, c.i);
    if c.reuse.None? {
      FullWindow(g, s, k, now, if c.stale.Some? then c.stale.value else c.victim);
    }
  }

  lemma FullWindow(g: Geo, s: seq<Cell>, k: Key, now: nat, x: nat)
    requires TableInv(g, s) && Searched(g, s, k, PROBE) && Find(s, k).None?
    requires forall j | 0 <= j < PROBE :: s[At(g, k, j)].Live?
    requires x < |s| && (x == At(g, k, 0) || PassedLive(g, s, k, PROBE, x))
    requires || Expired(s[x], now)
             || ((forall j | 0 <= j < PROBE :: !Expired(s[At(g, k, j)], now))
                 && (forall j | 0 <= j < PROBE :: s[x].at <= s[At(g, k, j)].at))
    ensures SetTarget(g, s, k, now, x)
  {
    var j: nat :| j < PROBE && At(g, k, j) == x;
    assert FoundAt(g, s, k, x, j);
    assert forall y: nat :: !IsCopy(s, k, y);
  }

  /** Rewriting the slot that already holds the key. */
  lemma StoreHere(g: Geo, s: seq<Cell>, k: Key, x: nat, i: nat, e: Entry)
    requires TableInv(g, s) && i < PROBE && x == At(g, k, i) && IsCopy(s, k, x) && Reached(g, s, k, i)
    ensures var t := s[x := Live(k, e.val, e.exp, e.at)];
      TableInv(g, t) && forall j :: Find(t, j) == if j == k then Some(e) else Find(s, j)
  {
    assert FoundAt(g, s, k, x, i);
    StoreFind(g, s, k, x, e);
  }

  /** Storing an absent key in a free slot. */
  lemma StoreAbsent(g: Geo, s: seq<Cell>, k: Key, x: nat, e: Entry)
    requires TableInv(g, s) && Find(s, k).None? && x < |s| && Free(s[x]) && Findable(g, s, k, x)
    ensures var t := s[x := Live(k, e.val, e.exp, e.at)];
      TableInv(g, t) && forall j :: Find(t, j) == if j == k then Some(e) else Find(s, j)
  {
    StoreFind(g, s, k, x, e);
  }

  function Touched(o: Option<Entry>, exp: nat, now: nat): Option<Entry> {
    match o
    case Some(e) => if Stale(e, now) then None else Some(e.(exp := exp))
    case None => None
  }

  const I64_MAX: int := 0x7FFF_FFFF_FFFF_FFFF

  /** Rust's `i64::saturating_add`. */
  function SatAddI64(a: int, b: int): int {
    if a + b > I64_MAX then I64_MAX else if a + b < -I64_MAX - 1 then -I64_MAX - 1 else a + b
  }

  /** The number a stored value stands for; anything unreadable counts as 0. */
  function Counter(v: Value, parse: Value -> Option<int>): int {
    if parse(v).Some? then parse(v).value else 0
  }

  function CounterExpiry(o: Option<Entry>, expires: nat, now: nat): nat {
    if o.Some? && !Stale(o.value, now) then o.value.exp else expires
  }

  // ---- What a later lookup is given ----

  /** What was stored with a ttl is read up to and in the second it ends, and for ever without one. */
  lemma StoredIsRead(v: Value, ttl: nat, now: nat, at: u64, later: nat)
    ensures Unexpired(Some(Entry(v, Deadline(ttl, now), at)), later) == if ttl == 0 || later <= now + ttl then Some(v) else None
  {
  }

  /** A touch of what is read keeps the value and moves the end; what is not read stays so. */
  lemma TouchedIsRead(o: Option<Entry>, ttl: nat, now: nat, later: nat)
    ensures Unexpired(Touched(o, Deadline(ttl, now), now), later) ==
            if Unexpired(o, now).Some? && (ttl == 0 || later <= now + ttl) then Unexpired(o, now) else None
  {
  }

  /** A lookup changes nothing for any later one. */
  lemma KeptIsRead(o: Option<Entry>, now: nat, later: nat)
    requires now <= later
    ensures Unexpired(Kept(o, now), later) == Unexpired(o, later)
  {
  }

  /** A counter is read for as long as what it counted on from was, or for its ttl if that was not read. */
  lemma CounterIsRead(o: Option<Entry>, v: Value, ttl: nat, now: nat, at: u64, later: nat)
    requires now <= later
    ensures Unexpired(Some(Entry(v, CounterExpiry(o, Deadline(ttl, now), now), at)), later) ==
            if (if Unexpired(o, now).Some? then Unexpired(o, later).Some? else ttl == 0 || later <= now + ttl) then Some(v) else None
  {
  }

  /** The sum, or the end of the 64-bit range it would pass. */
  lemma SumIsClipped(a: int, b: int)
    ensures var r := SatAddI64(a, b);
      -0x8000_0000_0000_0000 <= r <= 0x7FFF_FFFF_FFFF_FFFF && (-0x8000_0000_0000_0000 <= a + b <= 0x7FFF_FFFF_FFFF_FFFF ==> r == a + b)
    ensures SatAddI64(a, b) < a + b ==> SatAddI64(a, b) == 0x7FFF_FFFF_FFFF_FFFF
    ensures a + b < SatAddI64(a, b) ==> SatAddI64(a, b) == -0x8000_0000_0000_0000
  {
  }

  function Flushed(c: Cell, prefix: Key): Cell {
    if c.Live? && prefix <= c.key then Tomb else c
  }

  lemma FlushFind(g: Geo, s: seq<Cell>, t: seq<Cell>, prefix: Key)
    requires TableInv(g, s) && |t| == |s| && forall x | 0 <= x < |s| :: t[x] == Flushed(s[x], prefix)
    ensures TableInv(g, t)
    ensures forall j :: Find(t, j) == if prefix <= j then None else Find(s, j)
  {
    assert NonEmptyStays(s, t);
    forall x | 0 <= x < |t| && t[x].Live?
      ensures Findable(g, t, t[x].key, x)
    {
      assert Findable(g, s, s[x].key, x);
      FindableStays(g, s, t, s[x].key, x);
    }
    forall j
      ensures Find(t, j) == if prefix <= j then None else Find(s, j)
    {
      assert forall x: nat :: IsCopy(t, j, x) <==> IsCopy(s, j, x) && !(prefix <= j);
      if x: nat :| IsCopy(t, j, x) {
        FindAt(s, j, x);
        FindAt(t, j, x);
      }
    }
  }

  lemma OnlyCopyKept(s: seq<Cell>, t: seq<Cell>, k: Key, keep: nat)
    requires OneCopy(s) && IsCopy(s, k, keep) && TombstonedOthers(s, t, k, keep)
    ensures t == s
  {
  }

  /** Every other copy of `k` turned into a tombstone, nothing else touched. */
  ghost predicate TombstonedOthers(s: seq<Cell>, t: seq<Cell>, k: Key, keep: nat) {
    |t| == |s| && forall x | 0 <= x < |s| :: t[x] == if x != keep && IsCopy(s, k, x) then Tomb else s[x]
  }

  class Region {
    const g: Geo
    const valMax: nat
    const slots: array<Cell>
    /** Standard-library conversions between counters and their decimal text. */
    const parse: Value -> Option<int>
    const render: int -> Value

    ghost predicate Chained()
      reads this, slots
    {
      g.Valid() && slots.Length == g.n && ChainInv(g, slots[..])
    }

    ghost predicate Valid()
      reads this, slots
    {
      Chained() && OneCopy(slots[..])
    }

    lemma Shape()
      requires Valid()
      ensures g.Valid() && slots.Length == g.n && TableInv(g, slots[..])
    {
    }

    ghost function Lookup(k: Key): Option<Entry>
      reads this, slots
    {
      Find(slots[..], k)
    }

    /** A freshly mapped region of `slots.max(16)` empty slots. */
    constructor (hash: Key -> nat, slots: nat, valMax: nat, parse: Value -> Option<int>, render: int -> Value)
      ensures Valid() && fresh(this.slots) && this.slots.Length == Max(slots, 16) && this.valMax == valMax && g.hash == hash
      ensures forall k :: Lookup(k).None?
    {
      var n := if slots < 16 then 16 else slots;
      this.g := Geo(n, hash);
      this.valMax := valMax;
      this.parse := parse;
      this.render := render;
      this.slots := new Cell[n](_ => Empty);
      new;
      assert forall x | 0 <= x < n :: this.slots[..][x] == Empty;
    }

    /** `get`: the last value stored unless expired; an expired entry is reclaimed on the way. */
    method Get(k: Key, now: nat) returns (r: Option<Value>)
      requires Valid()
      modifies slots
      ensures Valid()
      ensures r == Unexpired(old(Lookup(k)), now)
      ensures forall j :: Lookup(j) == if j == k then Kept(old(Lookup(k)), now) else old(Lookup(j))
    {
      ghost var s := slots[..];
      var i := 0;
      while i < PROBE
        invariant i <= PROBE && slots[..] == s && Searched(g, s, k, i)
      {
        var x := At(g, k, i);
        var c := slots[x];
        assert c == s[x];
        if c.Empty? {
          SearchedInVain(g, s, k, i);
          return None;
        }
        if c.Live? && c.key == k {
          FindAt(s, k, x);
          if Expired(c, now) {
            TombstoneFind(g, s, x);
            slots[x] := Tomb;
            assert slots[..] == s[x := Tomb];
            return None;
          }
          return Some(c.val);
        }
        i := i + 1;
      }
      SearchedInVain(g, s, k, i);
      return None;
    }

    /** `delete`: every copy goes, not just the first; also in a table where earlier races left
        several. */
    method Delete(k: Key) returns (found: bool)
      requires Chained()
      modifies slots
      ensures Chained()
      ensures TombstonedOthers(old(slots[..]), slots[..], k, slots.Length)
      ensures found <==> old(Lookup(k)).Some?
      ensures old(Valid()) ==> Valid() && forall j :: Lookup(j) == if j == k then None else old(Lookup(j))
    {
      ghost var s := slots[..];
      found := false;
      var i := 0;
      while i < PROBE
        invariant i <= PROBE && slots.Length == g.n
        invariant Swept(g, s, slots[..], k, slots.Length, i)
        invariant if found then Find(s, k).Some? else slots[..] == s
      {
        var x := At(g, k, i);
        if slots[x].Empty? {
          break;
        }
        if slots[x].Live? && slots[x].key == k {
          CopyIsFound(s, k, x);
          slots[x] := Tomb;
          found := true;
        }
        i := i + 1;
      }
      SweptAll(g, s, slots[..], k, slots.Length, i);
      DeletedFind(g, s, slots[..], k);
    }

    /** The probe of `set`: the slot to store `k` in, and whether that slot already holds it. */
    method Choose(k: Key, now: nat) returns (target: nat, hit: bool)
      requires Valid()
      ensures target < slots.Length && SetTarget(g, slots[..], k, now, target)
    {
      hide *;
      ghost var s := slots[..];
      Shape();
      ChooseStart(g, s, k, now);
      var reuse: Option<nat> := None;
      var stale: Option<nat> := None;
      var victim := At(g, k, 0);
      var oldest: nat := U64_MAX;
      var i := 0;
      while i < PROBE
        invariant i <= PROBE && Choosing(g, s, k, now, Scan(i, reuse, stale, victim, oldest))
      {
        ghost var scan := Scan(i, reuse, stale, victim, oldest);
        var x := At(g, k, i);
        var c := slots[x];
        assert c == s[x];
        if c.Live? && c.key == k {
          ChooseHit(g, s, k, now, scan);
          return x, true;
        }
        if !c.Live? && reuse.None? {
          reuse := Some(x);
        }
        if c.Empty? {
          ChooseEmpty(g, s, k, now, scan);
          return reuse.value, false;
        }
        if c.Live? {
          if Expired(c, now) && stale.None? {
            stale := Some(x);
          }
          if c.at < oldest {
            oldest, victim := c.at, x;
          }
          ChooseLive(g, s, k, now, scan);
        } else {
          ChooseTomb(g, s, k, now, scan);
        }
        i := i + 1;
      }
      ChooseFull(g, s, k, now, Scan(i, reuse, stale, victim, oldest));
      hit := false;
      target := if reuse.Some? then reuse.value else if stale.Some? then stale.value else victim;
    }

    /** `set`: stored, and no other unexpired key is lost unless the whole window is taken by
        unexpired entries, in which case the least recently written one goes. */
    method Set(k: Key, val: Value, ttl: nat, now: nat, ms: u64) returns (ok: bool)
      requires Valid()
      modifies slots
      ensures Valid()
      ensures ok <==> |val| <= valMax
      ensures !ok ==> slots[..] == old(slots[..])
      ensures ok ==> SetMeaning(g, old(slots[..]), slots[..], k, Entry(val, Deadline(ttl, now), ms), now)
      ensures ok ==> Lookup(k) == Some(Entry(val, Deadline(ttl, now), ms))
      ensures ok ==> forall j :: j == k || Lookup(j).None? || Lookup(j) == old(Lookup(j))
    {
      if |val| > valMax {
        return false;
      }
      var expires := Deadline(ttl, now);
      ghost var s := slots[..];
      var target, hit := Choose(k, now);
      SetTargetMeans(g, s, k, now, target, Entry(val, expires, ms));
      slots[target] := Live(k, val, expires, ms);
      ghost var t := slots[..];
      assert t == s[target := Live(k, val, expires, ms)];
      if !hit {
        TombstoneOthers(k, target);
        OnlyCopyKept(t, slots[..], k, target);
      }
      return true;
    }

    /** `add`: succeeds exactly when the key is absent or expired and, if absent, its window has a
        free slot; otherwise nothing changes. No other key is ever lost. */
    method Add(k: Key, val: Value, ttl: nat, now: nat, ms: u64) returns (added: bool)
      requires Valid()
      modifies slots
      ensures Valid()
      ensures added <==> && |val| <= valMax
                         && (match old(Lookup(k))
                             case Some(e) => Stale(e, now)
                             case None => HasRoom(g, old(slots[..]), k))
      ensures !added ==> slots[..] == old(slots[..])
      ensures added ==>
                var e := Entry(val, Deadline(ttl, now), ms);
                forall j :: Lookup(j) == if j == k then Some(e) else old(Lookup(j))
    {
      if |val| > valMax {
        return false;
      }
      var expires := Deadline(ttl, now);
      ghost var s := slots[..];
      var reuse: Option<nat> := None;
      var i := 0;
      while i < PROBE
        invariant i <= PROBE && slots[..] == s && Seeking(g, s, k, i, reuse)
      {
        var x := At(g, k, i);
        var c := slots[x];
        assert c == s[x];
        if c.Live? && c.key == k {
          FindAt(s, k, x);
          if !Expired(c, now) {
            return false;
          }
          StoreHere(g, s, k, x, i, Entry(val, expires, ms));
          slots[x] := Live(k, val, expires, ms);
          assert slots[..] == s[x := Live(k, val, expires, ms)];
          return true;
        }
        if c.Empty? {
          break;
        }
        SeekOther(g, s, k, i, reuse);
        if c.Tomb? && reuse.None? {
          reuse := Some(x);
        }
        i := i + 1;
      }
      SeekEnd(g, s, k, i, reuse);
      hide Seeking, HasRoom, Findable;
      if reuse.None? && i < PROBE {
        reuse := Some(At(g, k, i));
      }
      if reuse.Some? {
        // With one process at a time the slot is still free, so the re-check under its lock passes.
        StoreAbsent(g, s, k, reuse.value, Entry(val, expires, ms));
        slots[reuse.value] := Live(k, val, expires, ms);
        assert slots[..] == s[reuse.value := Live(k, val, expires, ms)];
        return true;
      }
      return false;
    }

    /** `touch`: moves the expiry of a live key and nothing else; an expired one is reclaimed. */
    method Touch(k: Key, ttl: nat, now: nat) returns (found: bool)
      requires Valid()
      modifies slots
      ensures Valid()
      ensures found <==> Unexpired(old(Lookup(k)), now).Some?
      ensures var e := Touched(old(Lookup(k)), Deadline(ttl, now), now);
              forall j :: Lookup(j) == if j == k then e else old(Lookup(j))
    {
      ghost var s := slots[..];
      var i := 0;
      while i < PROBE
        invariant i <= PROBE && slots[..] == s && Searched(g, s, k, i)
      {
        var x := At(g, k, i);
        var c := slots[x];
        assert c == s[x];
        if c.Empty? {
          SearchedInVain(g, s, k, i);
          return false;
        }
        if c.Live? && c.key == k {
          FindAt(s, k, x);
          if Expired(c, now) {
            TombstoneFind(g, s, x);
            slots[x] := Tomb;
            assert slots[..] == s[x := Tomb];
            return false;
          }
          StoreHere(g, s, k, x, i, Entry(c.val, Deadline(ttl, now), c.at));
          slots[x] := Live(k, c.val, Deadline(ttl, now), c.at);
          assert slots[..] == s[x := Live(k, c.val, Deadline(ttl, now), c.at)];
          return true;
        }
        i := i + 1;
      }
      SearchedInVain(g, s, k, i);
      return false;
    }

    /** `increment`: a stored counter is bumped in place, keeping its expiry while it is live; an
        absent one is created where there is room, and otherwise only the answer exists. */
    method Increment(k: Key, delta: int, ttl: nat, now: nat, ms: u64) returns (next: int)
      requires Valid()
      modifies slots
      ensures Valid()
      ensures next == match old(Lookup(k))
                      case Some(e) => SatAddI64(if Stale(e, now) || parse(e.val).None? then 0 else parse(e.val).value, delta)
                      case None => delta
      ensures old(Lookup(k)).None? && !HasRoom(g, old(slots[..]), k) ==> slots[..] == old(slots[..])
      ensures old(Lookup(k)).Some? || HasRoom(g, old(slots[..]), k) ==>
                var exp := CounterExpiry(old(Lookup(k)), Deadline(ttl, now), now);
                forall j :: Lookup(j) == if j == k then Some(Entry(render(next), exp, ms)) else old(Lookup(j))
    {
      var expires := Deadline(ttl, now);
      ghost var s := slots[..];
      var reuse: Option<nat> := None;
      var i := 0;
      while i < PROBE
        invariant i <= PROBE && slots[..] == s && Seeking(g, s, k, i, reuse)
      {
        var x := At(g, k, i);
        var c := slots[x];
        assert c == s[x];
        if c.Live? && c.key == k {
          FindAt(s, k, x);
          var live := !Expired(c, now);
          next := SatAddI64(if live then Counter(c.val, parse) else 0, delta);
          var exp := if live then c.exp else expires;
          StoreHere(g, s, k, x, i, Entry(render(next), exp, ms));
          slots[x] := Live(k, render(next), exp, ms);
          assert slots[..] == s[x := Live(k, render(next), exp, ms)];
          return;
        }
        if c.Empty? {
          break;
        }
        SeekOther(g, s, k, i, reuse);
        if c.Tomb? && reuse.None? {
          reuse := Some(x);
        }
        i := i + 1;
      }
      SeekEnd(g, s, k, i, reuse);
      hide Seeking, HasRoom, Findable;
      if reuse.None? && i < PROBE {
        reuse := Some(At(g, k, i));
      }
      next := delta;
      if reuse.Some? {
        StoreAbsent(g, s, k, reuse.value, Entry(render(delta), expires, ms));
        slots[reuse.value] := Live(k, render(delta), expires, ms);
        assert slots[..] == s[reuse.value := Live(k, render(delta), expires, ms)];
      }
    }

    /** `flush_prefix`: the keys with that prefix are gone, every other key is where it was. */
    method FlushPrefix(prefix: Key)
      requires Valid()
      modifies slots
      ensures Valid()
      ensures forall j :: Lookup(j) == if prefix <= j then None else old(Lookup(j))
    {
      ghost var s := slots[..];
      var x := 0;
      while x < slots.Length
        invariant x <= slots.Length == g.n
        invariant forall y | 0 <= y < x :: slots[y] == Flushed(s[y], prefix)
        invariant forall y | x <= y < slots.Length :: slots[y] == s[y]
      {
        if slots[x].Live? && prefix <= slots[x].key {
          slots[x] := Tomb;
        }
        x := x + 1;
      }
      FlushFind(g, s, slots[..], prefix);
    }

    /** `tombstone_others`: afterwards the only copy of `k` is the one at `keep`. */
    method TombstoneOthers(k: Key, keep: nat)
      requires Chained()
      modifies slots
      ensures TombstonedOthers(old(slots[..]), slots[..], k, keep)
    {
      ghost var s := slots[..];
      var i := 0;
      while i < PROBE
        invariant i <= PROBE && slots.Length == g.n
        invariant Swept(g, s, slots[..], k, keep, i)
      {
        var x := At(g, k, i);
        if x != keep {
          if slots[x].Empty? {
            break;
          }
          if slots[x].Live? && slots[x].key == k {
            slots[x] := Tomb;
          }
        }
        i := i + 1;
      }
      SweptAll(g, s, slots[..], k, keep, i);
    }
  }

  /** The slots after a sweep for `k` has passed the first `i` positions. */
  ghost predicate Swept(g: Geo, s: seq<Cell>, t: seq<Cell>, k: Key, keep: nat, i: nat)
    requires g.Valid()
  {
    && |s| == g.n == |t|
    && (forall x | 0 <= x < |s| :: t[x] == s[x] || (x != keep && IsCopy(s, k, x) && t[x] == Tomb))
    && (forall j | 0 <= j < i :: At(g, k, j) == keep || !IsCopy(t, k, At(g, k, j)))
  }

  lemma SweptAll(g: Geo, s: seq<Cell>, t: seq<Cell>, k: Key, keep: nat, i: nat)
    requires g.Valid() && |s| == g.n && ChainInv(g, s) && Swept(g, s, t, k, keep, i)
    requires i == PROBE || t[At(g, k, i)].Empty?
    ensures TombstonedOthers(s, t, k, keep) && ChainInv(g, t)
  {
    forall x | 0 <= x < |s| && IsCopy(s, k, x) && x != keep
      ensures t[x] == Tomb
    {
      assert Findable(g, s, k, x);
      var j: nat :| FoundAt(g, s, k, x, j);
      assert i < PROBE ==> s[At(g, k, i)].Empty?;
    }
    assert NonEmptyStays(s, t);
    forall x | 0 <= x < |t| && t[x].Live?
      ensures Findable(g, t, t[x].key, x)
    {
      assert Findable(g, s, s[x].key, x);
      FindableStays(g, s, t, s[x].key, x);
    }
  }

  lemma DeletedFind(g: Geo, s: seq<Cell>, t: seq<Cell>, k: Key)
    requires TombstonedOthers(s, t, k, |s|)
    ensures t == s ==> Find(s, k).None?
    ensures OneCopy(s) ==> OneCopy(t) && forall j :: Find(t, j) == if j == k then None else Find(s, j)
  {
    assert forall x: nat :: IsCopy(t, k, x) ==> t[x] != s[x];
    if OneCopy(s) {
      forall j
        ensures Find(t, j) == if j == k then None else Find(s, j)
      {
        assert forall x: nat :: IsCopy(t, j, x) <==> IsCopy(s, j, x) && j != k;
        if x: nat :| j != k && IsCopy(s, j, x) {
          FindAt(s, j, x);
          FindAt(t, j, x);
        }
      }
    }
  }
}
