/** The step system with one process at a time: an operation run alone to its end does to the map what the
    region's operation does. */
module CacheSolo {
  import opened Common
  import opened CacheSteps
  import opened CacheRegion

  // ---- Running alone ----

  function Rest(i: nat): nat {
    if i < PROBE then PROBE - i else 0
  }

  /** A bound on the visits an operation still has to make. */
  function Visits(g: Geo, p: Proc): nat {
    match p
    case SetProbe(q) => PROBE + 3 + Rest(q.i)
    case SetWrite(_, _, _, _) => PROBE + 2
    case SetSweep(_, _, i) => 1 + Rest(i)
    case AddProbe(q) => 2 + Rest(q.i)
    case IncProbe(q) => 2 + Rest(q.i)
    case DelProbe(_, i, _) => 1 + Rest(i)
    case TouchProbe(_, _, _, i) => 1 + Rest(i)
    case GetProbe(_, _, i) => 2 + Rest(i)
    case Flushing(_, x) => 1 + (if x < g.n then g.n - x else 0)
    case _ => if Finished(p) then 0 else 1
  }

  lemma VisitsFall(g: Geo, s: seq<Cell>, p: Proc, ms: u64, v: Value)
    requires g.Valid() && |s| == g.n && !Finished(p)
    ensures var e := VisitEffect(g, s, p, ms, v); e.slot < g.n && Visits(g, e.proc) < Visits(g, p)
  {
    hide At, SetVisit, AddVisit, IncVisit;
    match p
    case SetProbe(q) => SetVisitsFall(g, s, q, ms);
    case AddProbe(q) => AddVisitsFall(g, s, q, ms);
    case IncProbe(q) => IncVisitsFall(g, s, q, ms, v);
    case _ =>
  }

  lemma AddVisitsFall(g: Geo, s: seq<Cell>, p: AddScan, ms: u64)
    requires g.Valid() && |s| == g.n
    ensures var e := AddVisit(g, s, p, ms); e.slot < g.n && Visits(g, e.proc) < Visits(g, AddProbe(p))
  {
    hide At;
  }

  lemma IncVisitsFall(g: Geo, s: seq<Cell>, p: IncScan, ms: u64, v: Value)
    requires g.Valid() && |s| == g.n
    ensures var e := IncVisit(g, s, p, ms, v); e.slot < g.n && Visits(g, e.proc) < Visits(g, IncProbe(p))
  {
    hide At;
  }

  lemma SetVisitsFall(g: Geo, s: seq<Cell>, p: SetScan, ms: u64)
    requires g.Valid() && |s| == g.n
    ensures var e := SetVisit(g, s, p, ms); e.slot < g.n && Visits(g, e.proc) < Visits(g, SetProbe(p))
  {
    hide At;
  }

  /** The slots and the process once it has run alone to its end. */
  function Alone(g: Geo, s: seq<Cell>, p: Proc, ms: u64, v: Value): (r: (seq<Cell>, Proc))
    requires g.Valid() && |s| == g.n
    ensures |r.0| == g.n && Finished(r.1)
    decreases Visits(g, p)
  {
    if Finished(p) then (s, p)
    else
      VisitsFall(g, s, p, ms, v);
      var e := VisitEffect(g, s, p, ms, v);
      Alone(g, s[e.slot := e.cell], e.proc, ms, v)
  }

  lemma Extend(g: Geo, s: State, acts: seq<Action>, a: Action)
    requires g.Valid() && |s.slots| == g.n && Runs(g, s, acts) && Enabled(g, After(g, s, acts), a)
    ensures Runs(g, s, acts + [a]) && After(g, s, acts + [a]) == Next(g, After(g, s, acts), a)
  {
    assert (acts + [a])[..|acts + [a]| - 1] == acts;
  }

  /** It is a run of the system: that process's visits and no other step. */
  lemma {:induction false} AloneIsARun(g: Geo, s: State, acts: seq<Action>, p: nat, ms: u64, v: Value) returns (more: seq<Action>)
    requires g.Valid() && |s.slots| == g.n && Runs(g, s, acts) && p in After(g, s, acts).procs
    ensures Runs(g, s, more) && acts <= more && forall i | |acts| <= i < |more| :: more[i] == Visit(p, ms, v)
    ensures var t := After(g, s, acts); var (slots, q) := Alone(g, t.slots, t.procs[p], ms, v);
      After(g, s, more) == State(slots, t.procs[p := q])
    decreases Visits(g, After(g, s, acts).procs[p])
  {
    hide Runs, After, VisitEffect, Visits;
    var t := After(g, s, acts);
    if Finished(t.procs[p]) {
      more := acts;
      assert t.procs[p := t.procs[p]] == t.procs;
    } else {
      VisitsFall(g, t.slots, t.procs[p], ms, v);
      Extend(g, s, acts, Visit(p, ms, v));
      more := AloneIsARun(g, s, acts + [Visit(p, ms, v)], p, ms, v);
      var e := VisitEffect(g, t.slots, t.procs[p], ms, v);
      assert t.procs[p := e.proc][p := Alone(g, t.slots, t.procs[p], ms, v).1] == t.procs[p := Alone(g, t.slots, t.procs[p], ms, v).1];
    }
  }

  lemma OneVisit(g: Geo, s: seq<Cell>, p: Proc, ms: u64, v: Value)
    requires g.Valid() && |s| == g.n && !Finished(p)
    ensures var e := VisitEffect(g, s, p, ms, v); e.slot < g.n && Alone(g, s, p, ms, v) == Alone(g, s[e.slot := e.cell], e.proc, ms, v)
  {
    hide VisitEffect;
    VisitsFall(g, s, p, ms, v);
  }

  lemma AtEnd(g: Geo, s: seq<Cell>, p: Proc, ms: u64, v: Value)
    requires g.Valid() && |s| == g.n && Finished(p)
    ensures Alone(g, s, p, ms, v) == (s, p)
  {
  }

  /** A visit that changes nothing leaves the slots. */
  lemma SameSlots(s: seq<Cell>, x: nat)
    requires x < |s|
    ensures s[x := s[x]] == s
  {
  }

  // ---- Get ----

  lemma {:induction false} GetsFrom(g: Geo, s: seq<Cell>, k: Key, now: nat, i: nat, ms: u64, v: Value)
    requires TableInv(g, s) && i < PROBE && Searched(g, s, k, i)
    ensures var (t, q) := Alone(g, s, GetProbe(k, now, i), ms, v);
      && q == GetDone(k, Unexpired(Find(s, k), now)) && TableInv(g, t)
      && forall j :: Find(t, j) == if j == k then CacheRegion.Kept(Find(s, k), now) else Find(s, j)
    decreases PROBE - i
  {
    hide Alone, Find, ChainInv, OneCopy;
    var p, x := GetProbe(k, now, i), At(g, k, i);
    OneVisit(g, s, p, ms, v);
    SameSlots(s, x);
    if s[x].Empty? {
      SearchedInVain(g, s, k, i);
      AtEnd(g, s, GetDone(k, None), ms, v);
    } else if IsCopy(s, k, x) {
      FindAt(s, k, x);
      if Expired(s[x], now) {
        Reclaims(g, s, k, now, i, ms, v);
      } else {
        AtEnd(g, s, GetDone(k, Some(s[x].val)), ms, v);
      }
    } else if i + 1 < PROBE {
      GetsFrom(g, s, k, now, i + 1, ms, v);
    } else {
      SearchedInVain(g, s, k, i + 1);
      AtEnd(g, s, GetDone(k, None), ms, v);
    }
  }

  lemma Reclaims(g: Geo, s: seq<Cell>, k: Key, now: nat, i: nat, ms: u64, v: Value)
    requires TableInv(g, s) && IsCopy(s, k, At(g, k, i)) && Expired(s[At(g, k, i)], now)
    ensures var (t, q) := Alone(g, s, GetReclaim(k, now, i), ms, v);
      && q == GetDone(k, None) && TableInv(g, t)
      && forall j :: Find(t, j) == if j == k then None else Find(s, j)
  {
    hide Alone, Find, ChainInv, OneCopy;
    OneVisit(g, s, GetReclaim(k, now, i), ms, v);
    var x := At(g, k, i);
    FindAt(s, k, x);
    TombstoneFind(g, s, x);
    AtEnd(g, s[x := Tomb], GetDone(k, None), ms, v);
  }

  lemma NotYet(g: Geo, s: seq<Cell>, k: Key)
    requires g.Valid() && |s| == g.n
    ensures Searched(g, s, k, 0)
  {
  }

  /** A get run alone answers with the value held unless it has expired, and drops it if it has. */
  lemma GetAlone(g: Geo, s: seq<Cell>, k: Key, now: nat, ms: u64, v: Value)
    requires TableInv(g, s)
    ensures var (t, q) := Alone(g, s, Begin(Get(k, now)), ms, v);
      && q == GetDone(k, Unexpired(Find(s, k), now)) && TableInv(g, t)
      && forall j :: Find(t, j) == if j == k then CacheRegion.Kept(Find(s, k), now) else Find(s, j)
  {
    hide Alone, Find, ChainInv, OneCopy, Searched;
    NotYet(g, s, k);
    GetsFrom(g, s, k, now, 0, ms, v);
  }

  // ---- Touch ----

  lemma {:induction false} TouchesFrom(g: Geo, s: seq<Cell>, k: Key, exp: nat, now: nat, i: nat, ms: u64, v: Value)
    requires TableInv(g, s) && i < PROBE && Searched(g, s, k, i)
    ensures var (t, q) := Alone(g, s, TouchProbe(k, exp, now, i), ms, v);
      && q == TouchDone(k, Unexpired(Find(s, k), now).Some?) && TableInv(g, t)
      && forall j :: Find(t, j) == if j == k then Touched(Find(s, k), exp, now) else Find(s, j)
    decreases PROBE - i
  {
    hide Alone, Find, ChainInv, OneCopy;
    var p, x := TouchProbe(k, exp, now, i), At(g, k, i);
    OneVisit(g, s, p, ms, v);
    SameSlots(s, x);
    if s[x].Empty? {
      SearchedInVain(g, s, k, i);
      AtEnd(g, s, TouchDone(k, false), ms, v);
    } else if IsCopy(s, k, x) {
      FindAt(s, k, x);
      if Expired(s[x], now) {
        TombstoneFind(g, s, x);
        AtEnd(g, s[x := Tomb], TouchDone(k, false), ms, v);
      } else {
        StoreHere(g, s, k, x, i, Entry(s[x].val, exp, s[x].at));
        AtEnd(g, s[x := Live(k, s[x].val, exp, s[x].at)], TouchDone(k, true), ms, v);
      }
    } else if i + 1 < PROBE {
      TouchesFrom(g, s, k, exp, now, i + 1, ms, v);
    } else {
      SearchedInVain(g, s, k, i + 1);
      AtEnd(g, s, TouchDone(k, false), ms, v);
    }
  }

  /** A touch run alone moves the deadline of a live entry and nothing else; an expired one goes. */
  lemma TouchAlone(g: Geo, s: seq<Cell>, k: Key, exp: nat, now: nat, ms: u64, v: Value)
    requires TableInv(g, s)
    ensures var (t, q) := Alone(g, s, Begin(Touch(k, exp, now)), ms, v);
      && q == TouchDone(k, Unexpired(Find(s, k), now).Some?) && TableInv(g, t)
      && forall j :: Find(t, j) == if j == k then Touched(Find(s, k), exp, now) else Find(s, j)
  {
    hide Alone, Find, ChainInv, OneCopy, Searched;
    NotYet(g, s, k);
    TouchesFrom(g, s, k, exp, now, 0, ms, v);
  }

  // ---- Delete ----

  lemma {:induction false} DeletesFrom(g: Geo, s: seq<Cell>, t: seq<Cell>, k: Key, i: nat, found: bool, ms: u64, v: Value)
    requires g.Valid() && |s| == g.n && ChainInv(g, s) && i < PROBE && Swept(g, s, t, k, |s|, i)
    requires if found then Find(s, k).Some? else t == s
    ensures var (u, q) := Alone(g, t, DelProbe(k, i, found), ms, v);
      q == DelDone(k, Find(s, k).Some?) && TombstonedOthers(s, u, k, |s|) && ChainInv(g, u)
    decreases PROBE - i
  {
    hide Alone, Find, ChainInv;
    var p, x := DelProbe(k, i, found), At(g, k, i);
    OneVisit(g, t, p, ms, v);
    SameSlots(t, x);
    if t[x].Empty? {
      SweptAll(g, s, t, k, |s|, i);
      DeletedFind(g, s, t, k);
      AtEnd(g, t, DelDone(k, found), ms, v);
    } else {
      var hit := IsCopy(t, k, x);
      var u := if hit then t[x := Tomb] else t;
      if hit {
        CopyIsFound(s, k, x);
      }
      assert Swept(g, s, u, k, |s|, i + 1);
      if i + 1 < PROBE {
        DeletesFrom(g, s, u, k, i + 1, found || hit, ms, v);
      } else {
        SweptAll(g, s, u, k, |s|, i + 1);
        DeletedFind(g, s, u, k);
        AtEnd(g, u, DelDone(k, found || hit), ms, v);
      }
    }
  }

  /** A delete run alone turns every copy into a tombstone, however many there are, and says whether there
      was one. */
  lemma DeleteAlone(g: Geo, s: seq<Cell>, k: Key, ms: u64, v: Value)
    requires g.Valid() && |s| == g.n && ChainInv(g, s)
    ensures var (t, q) := Alone(g, s, Begin(Delete(k)), ms, v);
      q == DelDone(k, Find(s, k).Some?) && TombstonedOthers(s, t, k, |s|) && ChainInv(g, t)
  {
    hide Alone, Find, ChainInv;
    DeletesFrom(g, s, s, k, 0, false, ms, v);
  }

  // ---- Add and increment ----

  /** A position of the probe order as a slot. */
  function Spot(g: Geo, k: Key, o: Option<nat>): Option<nat>
    requires g.Valid()
  {
    if o.Some? then Some(At(g, k, o.value)) else None
  }

  /** What an add run alone does, by what the map holds. */
  ghost predicate AddMeaning(g: Geo, s: seq<Cell>, t: seq<Cell>, k: Key, e: Entry, now: nat, q: Proc)
    requires g.Valid() && |s| == g.n
  {
    && q == AddDone(k, match Find(s, k) case Some(o) => Stale(o, now) case None => HasRoom(g, s, k))
    && (if q.added then forall j :: Find(t, j) == if j == k then Some(e) else Find(s, j) else t == s)
  }

  lemma AddStores(g: Geo, s: seq<Cell>, k: Key, val: Value, exp: nat, now: nat, target: nat, ms: u64, v: Value)
    requires TableInv(g, s) && Find(s, k).None? && HasRoom(g, s, k) && Free(s[At(g, k, target)]) && Findable(g, s, k, At(g, k, target))
    ensures var (t, q) := Alone(g, s, AddWrite(k, val, exp, now, target), ms, v);
      AddMeaning(g, s, t, k, Entry(val, exp, ms), now, q) && TableInv(g, t)
  {
    hide Alone, Find, ChainInv, OneCopy, HasRoom, Findable;
    OneVisit(g, s, AddWrite(k, val, exp, now, target), ms, v);
    StoreAbsent(g, s, k, At(g, k, target), Entry(val, exp, ms));
    AtEnd(g, s[At(g, k, target) := Live(k, val, exp, ms)], AddDone(k, true), ms, v);
  }

  lemma {:induction false} AddsFrom(g: Geo, s: seq<Cell>, p: AddScan, ms: u64, v: Value)
    requires TableInv(g, s) && p.i < PROBE && Seeking(g, s, p.key, p.i, Spot(g, p.key, p.reuse))
    ensures var (t, q) := Alone(g, s, AddProbe(p), ms, v);
      AddMeaning(g, s, t, p.key, Entry(p.val, p.exp, ms), p.now, q) && TableInv(g, t)
    decreases PROBE - p.i
  {
    hide Alone, Find, ChainInv, OneCopy, HasRoom, Findable, Searched;
    var k, x := p.key, At(g, p.key, p.i);
    OneVisit(g, s, AddProbe(p), ms, v);
    SameSlots(s, x);
    if IsCopy(s, k, x) {
      FindAt(s, k, x);
      if Expired(s[x], p.now) {
        SeekReached(g, s, k, p.i, Spot(g, k, p.reuse));
        StoreHere(g, s, k, x, p.i, Entry(p.val, p.exp, ms));
        AtEnd(g, s[x := Live(k, p.val, p.exp, ms)], AddDone(k, true), ms, v);
      } else {
        AtEnd(g, s, AddDone(k, false), ms, v);
      }
    } else if s[x].Empty? {
      SeekEnd(g, s, k, p.i, Spot(g, k, p.reuse));
      AddStores(g, s, k, p.val, p.exp, p.now, if p.reuse.Some? then p.reuse.value else p.i, ms, v);
    } else {
      SeekOther(g, s, k, p.i, Spot(g, k, p.reuse));
      var reuse := FirstFree(p.reuse, s[x], p.i);
      hide Seeking;
      if p.i + 1 < PROBE {
        AddsFrom(g, s, p.(i := p.i + 1, reuse := reuse), ms, v);
      } else {
        SeekEnd(g, s, k, p.i + 1, Spot(g, k, reuse));
        if reuse.Some? {
          AddStores(g, s, k, p.val, p.exp, p.now, reuse.value, ms, v);
        } else {
          AtEnd(g, s, AddDone(k, false), ms, v);
        }
      }
    }
  }

  lemma SeekReached(g: Geo, s: seq<Cell>, k: Key, i: nat, reuse: Option<nat>)
    requires g.Valid() && |s| == g.n && Seeking(g, s, k, i, reuse)
    ensures Reached(g, s, k, i)
  {
  }

  lemma SeekStart(g: Geo, s: seq<Cell>, k: Key)
    requires g.Valid() && |s| == g.n
    ensures Seeking(g, s, k, 0, None)
  {
  }

  /** An add run alone succeeds exactly if no live entry holds the key and there is a place for it; then it
      is stored, and no other key is touched; otherwise nothing changes. */
  lemma AddAlone(g: Geo, s: seq<Cell>, k: Key, val: Value, exp: nat, now: nat, ms: u64, v: Value)
    requires TableInv(g, s)
    ensures var (t, q) := Alone(g, s, Begin(Add(k, val, exp, now)), ms, v);
      AddMeaning(g, s, t, k, Entry(val, exp, ms), now, q) && TableInv(g, t)
  {
    hide Alone, Find, ChainInv, OneCopy, Seeking, AddMeaning;
    SeekStart(g, s, k);
    AddsFrom(g, s, AddScan(k, val, exp, now, 0, None), ms, v);
  }

  ghost predicate IncMeaning(g: Geo, s: seq<Cell>, t: seq<Cell>, k: Key, v: Value, exp: nat, now: nat, ms: u64)
    requires g.Valid() && |s| == g.n
  {
    if Find(s, k).Some? || HasRoom(g, s, k) then
      forall j :: Find(t, j) == if j == k then Some(Entry(v, CounterExpiry(Find(s, k), exp, now), ms)) else Find(s, j)
    else t == s
  }

  lemma IncStores(g: Geo, s: seq<Cell>, k: Key, exp: nat, now: nat, target: nat, ms: u64, v: Value)
    requires TableInv(g, s) && Find(s, k).None? && HasRoom(g, s, k) && Free(s[At(g, k, target)]) && Findable(g, s, k, At(g, k, target))
    ensures var (t, q) := Alone(g, s, IncWrite(k, exp, now, target), ms, v);
      q == IncDone(k) && IncMeaning(g, s, t, k, v, exp, now, ms) && TableInv(g, t)
  {
    hide Alone, Find, ChainInv, OneCopy, HasRoom, Findable;
    OneVisit(g, s, IncWrite(k, exp, now, target), ms, v);
    StoreAbsent(g, s, k, At(g, k, target), Entry(v, exp, ms));
    AtEnd(g, s[At(g, k, target) := Live(k, v, exp, ms)], IncDone(k), ms, v);
  }

  lemma {:induction false} CountsFrom(g: Geo, s: seq<Cell>, p: IncScan, ms: u64, v: Value)
    requires TableInv(g, s) && p.i < PROBE && Seeking(g, s, p.key, p.i, Spot(g, p.key, p.reuse))
    ensures var (t, q) := Alone(g, s, IncProbe(p), ms, v);
      q == IncDone(p.key) && IncMeaning(g, s, t, p.key, v, p.exp, p.now, ms) && TableInv(g, t)
    decreases PROBE - p.i
  {
    hide Alone, Find, ChainInv, OneCopy, HasRoom, Findable, Searched;
    var k, x := p.key, At(g, p.key, p.i);
    OneVisit(g, s, IncProbe(p), ms, v);
    SameSlots(s, x);
    if IsCopy(s, k, x) {
      FindAt(s, k, x);
      var exp := if Expired(s[x], p.now) then p.exp else s[x].exp;
      SeekReached(g, s, k, p.i, Spot(g, k, p.reuse));
      StoreHere(g, s, k, x, p.i, Entry(v, exp, ms));
      AtEnd(g, s[x := Live(k, v, exp, ms)], IncDone(k), ms, v);
    } else if s[x].Empty? {
      SeekEnd(g, s, k, p.i, Spot(g, k, p.reuse));
      IncStores(g, s, k, p.exp, p.now, if p.reuse.Some? then p.reuse.value else p.i, ms, v);
    } else {
      SeekOther(g, s, k, p.i, Spot(g, k, p.reuse));
      var reuse := FirstFree(p.reuse, s[x], p.i);
      hide Seeking;
      if p.i + 1 < PROBE {
        CountsFrom(g, s, p.(i := p.i + 1, reuse := reuse), ms, v);
      } else {
        SeekEnd(g, s, k, p.i + 1, Spot(g, k, reuse));
        if reuse.Some? {
          IncStores(g, s, k, p.exp, p.now, reuse.value, ms, v);
        } else {
          AtEnd(g, s, IncDone(k), ms, v);
        }
      }
    }
  }

  /** An increment run alone stores the new value under the deadline the counter had, or the new one if it
      had expired or was not there; without a place nothing changes. */
  lemma IncrementAlone(g: Geo, s: seq<Cell>, k: Key, exp: nat, now: nat, ms: u64, v: Value)
    requires TableInv(g, s)
    ensures var (t, q) := Alone(g, s, Begin(Inc(k, exp, now)), ms, v);
      q == IncDone(k) && IncMeaning(g, s, t, k, v, exp, now, ms) && TableInv(g, t)
  {
    hide Alone, Find, ChainInv, OneCopy, Seeking, IncMeaning;
    SeekStart(g, s, k);
    CountsFrom(g, s, IncScan(k, exp, now, 0, None), ms, v);
  }

  // ---- Set ----

  /** With one copy, in the slot that is kept, a sweep changes nothing. */
  lemma {:induction false} SweepsFrom(g: Geo, s: seq<Cell>, k: Key, keep: nat, i: nat, ms: u64, v: Value)
    requires g.Valid() && |s| == g.n && OneCopy(s) && IsCopy(s, k, At(g, k, keep)) && i < PROBE
    ensures Alone(g, s, SetSweep(k, keep, i), ms, v) == (s, SetDone(k))
    decreases PROBE - i
  {
    hide Alone;
    var x := At(g, k, i);
    OneVisit(g, s, SetSweep(k, keep, i), ms, v);
    SameSlots(s, x);
    if (x != At(g, k, keep) && s[x].Empty?) || i + 1 == PROBE {
      AtEnd(g, s, SetDone(k), ms, v);
    } else {
      SweepsFrom(g, s, k, keep, i + 1, ms, v);
    }
  }

  lemma SetStores(g: Geo, s: seq<Cell>, k: Key, val: Value, exp: nat, now: nat, target: nat, ms: u64, v: Value)
    requires TableInv(g, s) && SetTarget(g, s, k, now, At(g, k, target))
    ensures var (t, q) := Alone(g, s, SetWrite(k, val, exp, target), ms, v);
      q == SetDone(k) && TableInv(g, t) && SetMeaning(g, s, t, k, Entry(val, exp, ms), now)
  {
    hide Alone, Find, ChainInv, SetMeaning, SetTarget;
    var x := At(g, k, target);
    OneVisit(g, s, SetWrite(k, val, exp, target), ms, v);
    SetTargetMeans(g, s, k, now, x, Entry(val, exp, ms));
    var t := s[x := Live(k, val, exp, ms)];
    SweepsFrom(g, t, k, target, 0, ms, v);
  }

  /** The loop variables of a set, with positions as slots. */
  function ScanOf(g: Geo, p: SetScan): Scan
    requires g.Valid()
  {
    Scan(p.i, Spot(g, p.key, p.reuse), Spot(g, p.key, p.stale), At(g, p.key, p.victim), p.oldest)
  }

  lemma {:induction false} SetsFrom(g: Geo, s: seq<Cell>, p: SetScan, ms: u64, v: Value)
    requires TableInv(g, s) && p.i < PROBE && Choosing(g, s, p.key, p.now, ScanOf(g, p))
    ensures var (t, q) := Alone(g, s, SetProbe(p), ms, v);
      q == SetDone(p.key) && TableInv(g, t) && SetMeaning(g, s, t, p.key, Entry(p.val, p.exp, ms), p.now)
    decreases PROBE - p.i
  {
    hide Alone, Find, ChainInv, OneCopy, Choosing, SetMeaning, SetTarget;
    var k, x := p.key, At(g, p.key, p.i);
    OneVisit(g, s, SetProbe(p), ms, v);
    SameSlots(s, x);
    if IsCopy(s, k, x) {
      ChooseHit(g, s, k, p.now, ScanOf(g, p));
      SetTargetMeans(g, s, k, p.now, x, Entry(p.val, p.exp, ms));
      AtEnd(g, s[x := Live(k, p.val, p.exp, ms)], SetDone(k), ms, v);
    } else if s[x].Empty? {
      ChooseEmpty(g, s, k, p.now, ScanOf(g, p));
      SetStores(g, s, k, p.val, p.exp, p.now, if p.reuse.Some? then p.reuse.value else p.i, ms, v);
    } else {
      var r := PassedOn(g, s, p, ms);
      if r.i < PROBE {
        SetsFrom(g, s, r, ms, v);
      } else {
        ChooseFull(g, s, k, p.now, ScanOf(g, r));
        SetStores(g, s, k, p.val, p.exp, p.now,
                  if r.reuse.Some? then r.reuse.value else if r.stale.Some? then r.stale.value else r.victim, ms, v);
      }
    }
  }

  /** A set passes a slot that is not its key's and not empty. */
  lemma PassedOn(g: Geo, s: seq<Cell>, p: SetScan, ms: u64) returns (r: SetScan)
    requires TableInv(g, s) && p.i < PROBE && Choosing(g, s, p.key, p.now, ScanOf(g, p))
    requires !s[At(g, p.key, p.i)].Empty? && !IsCopy(s, p.key, At(g, p.key, p.i))
    ensures Choosing(g, s, p.key, p.now, ScanOf(g, r)) && r.i == p.i + 1
    ensures r.key == p.key && r.val == p.val && r.exp == p.exp && r.now == p.now
    ensures SetVisit(g, s, p, ms) == Effect(At(g, p.key, p.i), s[At(g, p.key, p.i)], SetNext(r))
  {
    hide ChainInv, OneCopy, Choosing;
    var c := s[At(g, p.key, p.i)];
    if c.Tomb? {
      ChooseTomb(g, s, p.key, p.now, ScanOf(g, p));
      r := p.(i := p.i + 1, reuse := FirstFree(p.reuse, c, p.i));
    } else {
      ChooseLive(g, s, p.key, p.now, ScanOf(g, p));
      r := p.(i := p.i + 1, stale := if Expired(c, p.now) && p.stale.None? then Some(p.i) else p.stale,
              victim := if c.at < p.oldest then p.i else p.victim, oldest := if c.at < p.oldest then c.at else p.oldest);
    }
  }

  /** A set run alone stores the key, and loses another only where the region's set may evict it. */
  lemma SetAlone(g: Geo, s: seq<Cell>, k: Key, val: Value, exp: nat, now: nat, ms: u64, v: Value)
    requires TableInv(g, s)
    ensures var (t, q) := Alone(g, s, Begin(Set(k, val, exp, now)), ms, v);
      q == SetDone(k) && TableInv(g, t) && SetMeaning(g, s, t, k, Entry(val, exp, ms), now)
  {
    hide Alone, Find, ChainInv, OneCopy, Choosing, SetMeaning;
    ChooseStart(g, s, k, now);
    SetsFrom(g, s, SetScan(k, val, exp, now, 0, None, None, 0, U64_MAX), ms, v);
  }

  // ---- Flush ----

  lemma {:induction false} FlushesFrom(g: Geo, s: seq<Cell>, t: seq<Cell>, prefix: Key, i: nat, ms: u64, v: Value)
    requires g.Valid() && |s| == g.n == |t| && i < g.n
    requires (forall x | 0 <= x < i :: t[x] == Flushed(s[x], prefix)) && forall x | i <= x < |s| :: t[x] == s[x]
    ensures var (u, q) := Alone(g, t, Flushing(prefix, i), ms, v);
      q == FlushDone && |u| == |s| && forall x | 0 <= x < |s| :: u[x] == Flushed(s[x], prefix)
    decreases g.n - i
  {
    hide Alone;
    OneVisit(g, t, Flushing(prefix, i), ms, v);
    var u := t[i := Flushed(t[i], prefix)];
    if i + 1 < g.n {
      FlushesFrom(g, s, u, prefix, i + 1, ms, v);
    } else {
      AtEnd(g, u, FlushDone, ms, v);
    }
  }

  /** A flush run alone drops exactly the keys with the prefix. */
  lemma FlushAlone(g: Geo, s: seq<Cell>, prefix: Key, ms: u64, v: Value)
    requires TableInv(g, s)
    ensures var (t, q) := Alone(g, s, Begin(Flush(prefix)), ms, v);
      q == FlushDone && TableInv(g, t) && forall j :: Find(t, j) == if prefix <= j then None else Find(s, j)
  {
    hide Alone, Find;
    FlushesFrom(g, s, s, prefix, 0, ms, v);
    FlushFind(g, s, Alone(g, s, Flushing(prefix, 0), ms, v).0, prefix);
  }
}
