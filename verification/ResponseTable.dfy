/** The response cache as a table: slots probed by key hash, standing for a map from key hashes to
    stored responses with three deadlines. */
module ResponseTable {
  import opened Common
  import opened TagTable

  const WINDOW: nat := 16

  /** A response, with its headers as the blob they are stored as. */
  datatype Response = Response(status: nat, headers: Bytes, body: Bytes)

  /** A stored response: deadlines (0 = none), the key bytes kept for purging, the application, and
      the generation each tag had when it was stored. */
  datatype Entry = Entry(
    resp: Response, exp: nat, hard: nat, err: nat, key: Bytes, app: Bytes, tags: seq<(Tag, nat)>)

  /** A tombstone keeps the hash of the key that was there. */
  datatype Cell = Empty | Tomb(hash: u64) | Live(hash: u64, e: Entry)

  // ---- Deadlines ----

  /** How an entry may be used: `Gone` is not at all. */
  datatype Use = Fresh | Stale | ErrorOnly | Gone

  function Retain(e: Entry): nat {
    Max(e.hard, e.err)
  }

  predicate Over(e: Entry, now: nat) {
    Retain(e) != 0 && Retain(e) < now
  }

  function UseOf(e: Entry, now: nat): Use {
    if Over(e, now) then Gone
    else
      var stale := e.exp != 0 && e.exp < now;
      var errorOnly := stale && (e.hard == 0 || e.hard < now);
      if errorOnly then ErrorOnly else if stale then Stale else Fresh
  }

  /** The deadlines `store` computes at time `at`. */
  function Deadlines(at: nat, ttl: nat, swr: nat, sie: nat): (nat, nat, nat) {
    var exp := if 0 < ttl then at + ttl else 0;
    (exp, if 0 < ttl && 0 < swr then exp + swr else exp, if 0 < ttl && 0 < sie then exp + sie else 0)
  }

  /** What the deadlines mean: fresh up to the ttl, then stale for swr seconds, then only on error up
      to sie seconds past the ttl, then gone; without a ttl, fresh for ever. */
  lemma DeadlineClasses(e: Entry, at: nat, ttl: nat, swr: nat, sie: nat, now: nat)
    requires (e.exp, e.hard, e.err) == Deadlines(at, ttl, swr, sie)
    ensures UseOf(e, now) ==
            if ttl == 0 || now <= at + ttl then Fresh
            else if now <= at + ttl + swr then Stale
            else if now <= at + ttl + sie then ErrorOnly
            else Gone
  {
  }

  /** Uses only ever get worse. */
  function Rank(u: Use): nat {
    match u case Fresh => 0 case Stale => 1 case ErrorOnly => 2 case Gone => 3
  }

  lemma OnlyGetsWorse(e: Entry, at: nat, ttl: nat, swr: nat, sie: nat, now: nat, later: nat)
    requires (e.exp, e.hard, e.err) == Deadlines(at, ttl, swr, sie) && now <= later
    ensures Rank(UseOf(e, now)) <= Rank(UseOf(e, later))
  {
    DeadlineClasses(e, at, ttl, swr, sie, now);
    DeadlineClasses(e, at, ttl, swr, sie, later);
  }

  // ---- The table as a map ----

  predicate Sized(s: seq<Cell>) {
    16 <= |s|
  }

  function Pos(s: seq<Cell>, h: u64, i: nat): (x: nat)
    requires Sized(s)
    ensures x < |s|
  {
    Slot(h, i, |s|)
  }

  predicate Holds(s: seq<Cell>, h: u64, x: nat) {
    x < |s| && !s[x].Empty? && s[x].hash == h
  }

  predicate Used(s: seq<Cell>, h: u64, i: nat)
    requires Sized(s)
  {
    !s[Pos(s, h, i)].Empty?
  }

  /** A search for `h` that stops at empty slots reaches slot `x`. */
  ghost predicate Reaches(s: seq<Cell>, h: u64, x: nat)
    requires Sized(s)
  {
    exists i :: 0 <= i < WINDOW && Pos(s, h, i) == x && forall j | 0 <= j < i :: Used(s, h, j)
  }

  /** Every used slot can be reached, and no hash has two — tombstones included. */
  ghost predicate TableInv(s: seq<Cell>) {
    && Sized(s)
    && (forall x: nat | x < |s| && !s[x].Empty? :: Reaches(s, s[x].hash, x))
    && forall h: u64, x: nat, y: nat | Holds(s, h, x) && Holds(s, h, y) :: x == y
  }

  predicate LiveAt(s: seq<Cell>, h: u64, x: nat) {
    x < |s| && s[x].Live? && s[x].hash == h
  }

  ghost function Find(s: seq<Cell>, h: u64): Option<Entry> {
    if exists x: nat :: LiveAt(s, h, x) then
      var x: nat :| LiveAt(s, h, x);
      Some(s[x].e)
    else None
  }

  lemma FindAt(s: seq<Cell>, h: u64, x: nat)
    requires TableInv(s) && LiveAt(s, h, x)
    ensures Find(s, h) == Some(s[x].e)
  {
    hide Reaches;
    assert forall y: nat | LiveAt(s, h, y) :: Holds(s, h, y) && Holds(s, h, x);
  }

  lemma FoundAt(s: seq<Cell>, h: u64) returns (x: nat)
    requires Find(s, h).Some?
    ensures LiveAt(s, h, x) && Find(s, h) == Some(s[x].e)
  {
    x :| LiveAt(s, h, x) && Find(s, h) == Some(s[x].e);
  }

  /** The first `i` slots of the window are used, and none of them by `h`. */
  ghost predicate Passed(s: seq<Cell>, h: u64, i: nat)
    requires Sized(s)
  {
    forall j | 0 <= j < i :: Used(s, h, j) && s[Pos(s, h, j)].hash != h
  }

  /** Likewise, but tombstones of `h` may have been passed. */
  ghost predicate Searched(s: seq<Cell>, h: u64, i: nat)
    requires Sized(s)
  {
    forall j | 0 <= j < i :: Used(s, h, j) && !LiveAt(s, h, Pos(s, h, j))
  }

  lemma HeldNowhere(s: seq<Cell>, h: u64, i: nat)
    requires TableInv(s) && i <= WINDOW && Passed(s, h, i) && (i < WINDOW ==> !Used(s, h, i))
    ensures forall x: nat :: !Holds(s, h, x)
  {
    hide Pos;
    assert forall x: nat | Holds(s, h, x) :: Reaches(s, h, x);
  }

  lemma SearchedInVain(s: seq<Cell>, h: u64, i: nat)
    requires TableInv(s) && i <= WINDOW && Searched(s, h, i) && (i < WINDOW ==> !Used(s, h, i))
    ensures Find(s, h).None?
  {
    hide Pos;
    assert forall x: nat | LiveAt(s, h, x) :: Reaches(s, h, x);
  }

  // ---- Rewriting one slot ----

  lemma UsedStays(s: seq<Cell>, x: nat, c: Cell, h: u64, i: nat)
    requires Sized(s) && x < |s| && !c.Empty? && Used(s, h, i)
    ensures Used(s[x := c], h, i) && Pos(s[x := c], h, i) == Pos(s, h, i)
  {
  }

  lemma ReachesStays(s: seq<Cell>, x: nat, c: Cell, h: u64, y: nat)
    requires Sized(s) && x < |s| && !c.Empty? && Reaches(s, h, y)
    ensures Reaches(s[x := c], h, y)
  {
    hide Used;
    var t := s[x := c];
    var i :| 0 <= i < WINDOW && Pos(s, h, i) == y && forall j | 0 <= j < i :: Used(s, h, j);
    assert Pos(t, h, i) == y;
    forall j | 0 <= j < i
      ensures Used(t, h, j)
    {
      UsedStays(s, x, c, h, j);
    }
  }

  /** Writing a used cell where its hash can be reached, when no other slot holds that hash. */
  lemma RewriteKeeps(s: seq<Cell>, x: nat, c: Cell)
    requires TableInv(s) && x < |s| && !c.Empty? && Reaches(s, c.hash, x)
    requires forall y: nat | Holds(s, c.hash, y) :: y == x
    ensures TableInv(s[x := c])
  {
    hide Reaches;
    var t := s[x := c];
    forall y: nat | y < |t| && !t[y].Empty?
      ensures Reaches(t, t[y].hash, y)
    {
      ReachesStays(s, x, c, t[y].hash, y);
    }
    forall h: u64, y: nat, z: nat | Holds(t, h, y) && Holds(t, h, z)
      ensures y == z
    {
      assert y != x ==> Holds(s, h, y);
      assert z != x ==> Holds(s, h, z);
    }
  }

  lemma SameElsewhere(s: seq<Cell>, x: nat, c: Cell, h: u64)
    requires TableInv(s) && x < |s| && TableInv(s[x := c])
    requires !LiveAt(s, h, x) && !(c.Live? && c.hash == h)
    ensures Find(s[x := c], h) == Find(s, h)
  {
    hide TableInv;
    var t := s[x := c];
    if y: nat :| LiveAt(s, h, y) {
      assert LiveAt(t, h, y);
      FindAt(s, h, y);
      FindAt(t, h, y);
    } else {
      assert forall y: nat :: LiveAt(t, h, y) ==> LiveAt(s, h, y);
    }
  }

  /** Storing an entry: whatever lived in the slot is lost, and nothing else is changed. */
  lemma StoredFind(s: seq<Cell>, x: nat, h: u64, e: Entry)
    requires TableInv(s) && x < |s| && Reaches(s, h, x) && forall y: nat | Holds(s, h, y) :: y == x
    ensures var t := s[x := Live(h, e)];
      && TableInv(t)
      && forall g: u64 :: Find(t, g) == if g == h then Some(e) else if LiveAt(s, g, x) then None else Find(s, g)
  {
    hide Reaches, TableInv, Find, Holds;
    var c := Live(h, e);
    var t := s[x := c];
    RewriteKeeps(s, x, c);
    FindAt(t, h, x);
    forall g: u64 | g != h
      ensures Find(t, g) == if LiveAt(s, g, x) then None else Find(s, g)
    {
      if LiveAt(s, g, x) {
        Displaced(s, x, c, g);
      } else {
        SameElsewhere(s, x, c, g);
      }
    }
  }

  lemma Displaced(s: seq<Cell>, x: nat, c: Cell, g: u64)
    requires TableInv(s) && LiveAt(s, g, x) && (c.Live? ==> c.hash != g)
    ensures Find(s[x := c], g).None?
  {
    hide Reaches;
    var t := s[x := c];
    assert Holds(s, g, x);
    assert forall y: nat :: LiveAt(t, g, y) ==> Holds(s, g, y);
  }

  /** Tombstoning a live slot removes its hash from the map and nothing else. */
  lemma TombstonedFind(s: seq<Cell>, x: nat)
    requires TableInv(s) && x < |s| && s[x].Live?
    ensures var t := s[x := Tomb(s[x].hash)];
      TableInv(t) && forall g: u64 :: Find(t, g) == if g == s[x].hash then None else Find(s, g)
  {
    hide Reaches, Find;
    var h, c := s[x].hash, Tomb(s[x].hash);
    assert Holds(s, h, x);
    RewriteKeeps(s, x, c);
    Displaced(s, x, c, h);
    forall g: u64 | g != h
      ensures Find(s[x := c], g) == Find(s, g)
    {
      SameElsewhere(s, x, c, g);
    }
  }
}
