/** What the probe chains buy under races: deleting means deleted, racing sets converge on one
    copy, and racing adds have one winner. */
module CacheRaces {
  import opened Common
  import opened CacheSteps

  /** The process may still store a copy of `k`. */
  predicate Writes(p: Proc, k: Key) {
    || (p.SetProbe? && p.setting.key == k) || (p.SetWrite? && p.key == k)
    || (p.AddProbe? && p.adding.key == k) || (p.AddWrite? && p.key == k)
    || (p.IncProbe? && p.counting.key == k) || (p.IncWrite? && p.key == k)
  }

  ghost predicate NoWriter(s: State, k: Key) {
    forall p | p in s.procs :: !Writes(s.procs[p], k)
  }

  ghost predicate NoCopy(s: seq<Cell>, k: Key) {
    forall x | 0 <= x < |s| :: !IsCopy(s, k, x)
  }

  /** A process that does not write `k` leaves no new copy of it. */
  lemma NoNewCopy(g: Geo, s: seq<Cell>, p: Proc, ms: u64, v: Value, k: Key)
    requires g.Valid() && |s| == g.n && !Finished(p) && !Writes(p, k)
    ensures var e := VisitEffect(g, s, p, ms, v);
      e.slot < g.n && (e.cell.Live? && e.cell.key == k ==> IsCopy(s, k, e.slot))
  {
  }

  lemma StaysOut(g: Geo, s: seq<Cell>, p: Proc, ms: u64, v: Value, k: Key)
    requires g.Valid() && |s| == g.n && !Finished(p) && !Writes(p, k)
    ensures var q := VisitEffect(g, s, p, ms, v).proc; !Writes(q, k) && !WonBy(q, k)
  {
  }

  // ---- Delete ----

  ghost predicate NoCopyBefore(g: Geo, s: seq<Cell>, k: Key, i: nat)
    requires g.Valid() && |s| == g.n
  {
    forall j | 0 <= j < i :: !IsCopy(s, k, At(g, k, j))
  }

  /** How far a delete has cleaned up. */
  ghost predicate Cleaned(g: Geo, s: seq<Cell>, k: Key, p: Proc)
    requires g.Valid() && |s| == g.n
  {
    match p
    case DelProbe(k', i, _) => k' == k && NoCopyBefore(g, s, k, i)
    case DelDone(k', _) => k' == k && NoCopy(s, k)
    case Dead => true
    case _ => false
  }

  lemma DelVisitCleans(g: Geo, s: seq<Cell>, k: Key, i: nat, found: bool)
    requires g.Valid() && |s| == g.n && ChainInv(g, s) && i < PROBE && NoCopyBefore(g, s, k, i)
    ensures var e := DelVisit(g, s, DelProbe(k, i, found)); e.slot < g.n && Cleaned(g, s[e.slot := e.cell], k, e.proc)
  {
    var e := DelVisit(g, s, DelProbe(k, i, found));
    var t := s[e.slot := e.cell];
    forall x | IsCopy(t, k, x)
      ensures exists j: nat :: FoundAt(g, s, k, x, j) && i < j && !s[At(g, k, i)].Empty?
    {
      var j := CopyIsAhead(g, s, k, i, x);
    }
  }

  lemma CopyIsAhead(g: Geo, s: seq<Cell>, k: Key, i: nat, x: nat) returns (j: nat)
    requires g.Valid() && |s| == g.n && ChainInv(g, s) && NoCopyBefore(g, s, k, i) && IsCopy(s, k, x)
    ensures FoundAt(g, s, k, x, j) && i <= j
  {
    assert Findable(g, s, k, x);
    j :| FoundAt(g, s, k, x, j);
  }

  lemma CleanedStays(g: Geo, s: seq<Cell>, t: seq<Cell>, k: Key, p: Proc)
    requires g.Valid() && |s| == g.n == |t| && Cleaned(g, s, k, p)
    requires forall x | IsCopy(t, k, x) :: IsCopy(s, k, x)
    ensures Cleaned(g, t, k, p)
  {
  }

  lemma StepCleans(g: Geo, s: State, a: Action, k: Key, p: nat)
    requires g.Valid() && Inv(g, s) && Enabled(g, s, a) && NoWriter(s, k)
    requires p in s.procs && Cleaned(g, s.slots, k, s.procs[p])
    ensures var t := Next(g, s, a); |t.slots| == g.n && p in t.procs && Cleaned(g, t.slots, k, t.procs[p])
  {
    hide Cleaned, ChainInv, NoWriter, DelVisit;
    match a
    case Start(_, _) => CleanedStays(g, s.slots, s.slots, k, s.procs[p]);
    case Die(q) => DeadIsCleaned(g, s.slots, k);
    case Visit(q, ms, v) =>
      NoWriterOf(s, k, q);
      NoNewCopy(g, s.slots, s.procs[q], ms, v, k);
      if q == p {
        OnlyDeleteCleans(g, s.slots, k, s.procs[p]);
        DelVisitCleans(g, s.slots, k, s.procs[p].i, s.procs[p].found);
      } else {
        hide VisitEffect;
        CleanedStays(g, s.slots, Next(g, s, a).slots, k, s.procs[p]);
      }
  }

  lemma NoWriterOf(s: State, k: Key, q: nat)
    requires NoWriter(s, k) && q in s.procs
    ensures !Writes(s.procs[q], k)
  {
  }

  lemma DeadIsCleaned(g: Geo, s: seq<Cell>, k: Key)
    requires g.Valid() && |s| == g.n
    ensures Cleaned(g, s, k, Dead)
  {
  }

  lemma OnlyDeleteCleans(g: Geo, s: seq<Cell>, k: Key, p: Proc)
    requires g.Valid() && |s| == g.n && Cleaned(g, s, k, p) && !Finished(p) && ProcInv(g, s, p)
    ensures p == DelProbe(k, p.i, p.found) && p.i < PROBE && NoCopyBefore(g, s, k, p.i)
  {
  }

  /** No process writes `k` at any moment of the run. */
  ghost predicate NoWriterDuring(g: Geo, s: State, acts: seq<Action>, k: Key)
    requires g.Valid() && |s.slots| == g.n && Runs(g, s, acts)
    decreases |acts|
  {
    && NoWriter(After(g, s, acts), k)
    && (acts == [] || NoWriterDuring(g, s, acts[..|acts| - 1], k))
  }

  lemma {:induction false} DeleteCleansUp(g: Geo, s: State, acts: seq<Action>, k: Key, p: nat)
    requires g.Valid() && Inv(g, s) && Runs(g, s, acts)
    requires p in s.procs && s.procs[p] == DelProbe(k, 0, false)
    requires NoWriterDuring(g, s, acts, k)
    ensures var t := After(g, s, acts); p in t.procs && Cleaned(g, t.slots, k, t.procs[p])
  {
    if acts == [] {
    } else {
      hide Inv, Next, Enabled, Cleaned, NoWriter;
      var init := acts[..|acts| - 1];
      DeleteCleansUp(g, s, init, k, p);
      ChainsHold(g, s, init);
      assert NoWriter(After(g, s, init), k);
      StepCleans(g, After(g, s, init), acts[|acts| - 1], k, p);
    }
  }

  /** A delete that overlaps no write of its key leaves no live copy anywhere, however many copies
      earlier races had left, and however the other operations interleave with it. */
  lemma DeletedMeansDeleted(g: Geo, s: State, acts: seq<Action>, k: Key, p: nat)
    requires g.Valid() && Inv(g, s) && Runs(g, s, acts)
    requires p in s.procs && s.procs[p] == DelProbe(k, 0, false)
    requires NoWriterDuring(g, s, acts, k)
    requires p in After(g, s, acts).procs && After(g, s, acts).procs[p].DelDone?
    ensures NoCopy(After(g, s, acts).slots, k)
  {
    DeleteCleansUp(g, s, acts, k, p);
  }

  // ---- Racing sets ----

  /** A set that wrote at `x` is still going to come across the copy at `y`. */
  ghost predicate Resolves(g: Geo, s: State, k: Key, p: nat, x: nat, y: nat)
    requires g.Valid() && |s.slots| == g.n
  {
    && p in s.procs && s.procs[p].SetSweep? && s.procs[p].key == k && At(g, k, s.procs[p].keep) == x
    && exists j: nat :: s.procs[p].i <= j && FoundAt(g, s.slots, k, y, j)
  }

  ghost predicate Resolved(g: Geo, s: State, k: Key, x: nat, y: nat)
    requires g.Valid() && |s.slots| == g.n
  {
    exists p :: Resolves(g, s, k, p, x, y) || Resolves(g, s, k, p, y, x)
  }

  /** Any two copies of `k` are being resolved into one. */
  ghost predicate PairsResolve(g: Geo, s: State, k: Key)
    requires g.Valid() && |s.slots| == g.n
  {
    forall x, y | x != y && IsCopy(s.slots, k, x) && IsCopy(s.slots, k, y) :: Resolved(g, s, k, x, y)
  }

  /** `k` is written by sets only. */
  predicate AddsOrCounts(p: Proc, k: Key) {
    Writes(p, k) && !p.SetProbe? && !p.SetWrite?
  }

  ghost predicate SetsOnly(s: State, k: Key) {
    forall p | p in s.procs :: !AddsOrCounts(s.procs[p], k)
  }

  predicate KillsSweep(s: State, a: Action, k: Key) {
    a.Die? && a.p in s.procs && s.procs[a.p].SetSweep? && s.procs[a.p].key == k
  }

  lemma FoundAtStays(g: Geo, s: seq<Cell>, t: seq<Cell>, k: Key, y: nat, j: nat)
    requires g.Valid() && |s| == g.n && NonEmptyStays(s, t) && FoundAt(g, s, k, y, j)
    ensures FoundAt(g, t, k, y, j)
  {
  }

  /** The sweep that resolves a pair keeps resolving it until it has tombstoned one of the two. */
  lemma SweepResolves(g: Geo, s: seq<Cell>, k: Key, keep: nat, i: nat, y: nat, j: nat)
    requires g.Valid() && |s| == g.n && i < PROBE && i <= j && FoundAt(g, s, k, y, j)
    requires IsCopy(s, k, y) && At(g, k, keep) != y
    ensures var e := SweepVisit(g, s, k, keep, i);
      e.slot < g.n && (IsCopy(s[e.slot := e.cell], k, y) ==> i < j && e.proc == SetSweep(k, keep, i + 1))
  {
  }

  lemma ResolvesStays(g: Geo, s: State, a: Action, k: Key, p: nat, x: nat, y: nat)
    requires g.Valid() && Inv(g, s) && Enabled(g, s, a) && !KillsSweep(s, a, k)
    requires x != y && IsCopy(s.slots, k, y) && Resolves(g, s, k, p, x, y)
    requires |Next(g, s, a).slots| == g.n && IsCopy(Next(g, s, a).slots, k, y)
    ensures Resolves(g, Next(g, s, a), k, p, x, y)
  {
    StepKeepsInv(g, s, a);
    hide Inv, NonEmptyStays, ProcInv, FoundAt;
    var t := Next(g, s, a);
    var j: nat :| s.procs[p].i <= j && FoundAt(g, s.slots, k, y, j);
    FoundAtStays(g, s.slots, t.slots, k, y, j);
    if a.Visit? && a.p == p {
      SweepPosition(g, s, p);
      SweepResolves(g, s.slots, k, s.procs[p].keep, s.procs[p].i, y, j);
    } else {
      hide VisitEffect;
      assert t.procs[p] == s.procs[p];
    }
  }

  lemma SweepPosition(g: Geo, s: State, p: nat)
    requires g.Valid() && Inv(g, s) && p in s.procs && s.procs[p].SetSweep?
    ensures s.procs[p].i < PROBE
  {
    assert ProcInv(g, s.slots, s.procs[p]);
  }

  /** A new copy of `k` comes from a set's write, which starts a sweep that keeps it. */
  lemma NewCopyIsSwept(g: Geo, s: State, a: Action, k: Key, x: nat)
    requires g.Valid() && Inv(g, s) && Enabled(g, s, a) && SetsOnly(s, k)
    requires IsCopy(Next(g, s, a).slots, k, x) && !IsCopy(s.slots, k, x)
    ensures a.Visit? && Next(g, s, a).procs[a.p].SetSweep?
    ensures var q := Next(g, s, a).procs[a.p]; q.key == k && q.i == 0 && At(g, k, q.keep) == x
  {
    assert !AddsOrCounts(s.procs[a.p], k);
  }

  lemma NewCopyResolved(g: Geo, s: State, a: Action, k: Key, x: nat, y: nat)
    requires g.Valid() && Inv(g, s) && Enabled(g, s, a) && SetsOnly(s, k)
    requires |Next(g, s, a).slots| == g.n
    requires IsCopy(Next(g, s, a).slots, k, x) && !IsCopy(s.slots, k, x)
    requires IsCopy(Next(g, s, a).slots, k, y)
    ensures Resolved(g, Next(g, s, a), k, x, y)
  {
    NewCopyIsSwept(g, s, a, k, x);
    StepKeepsInv(g, s, a);
    var t := Next(g, s, a);
    hide Next, VisitEffect, NonEmptyStays, SetsOnly;
    assert Findable(g, t.slots, k, y);
    var j: nat :| FoundAt(g, t.slots, k, y, j);
    assert Resolves(g, t, k, a.p, x, y);
  }

  lemma StepResolves(g: Geo, s: State, a: Action, k: Key)
    requires g.Valid() && Inv(g, s) && Enabled(g, s, a) && SetsOnly(s, k)
    requires !KillsSweep(s, a, k) && PairsResolve(g, s, k)
    ensures |Next(g, s, a).slots| == g.n && PairsResolve(g, Next(g, s, a), k)
  {
    StepKeepsInv(g, s, a);
    var t := Next(g, s, a);
    assert |t.slots| == g.n;
    hide Next, Inv, NonEmptyStays, SetsOnly, Enabled, Resolves;
    forall x, y | x != y && IsCopy(t.slots, k, x) && IsCopy(t.slots, k, y)
      ensures Resolved(g, t, k, x, y)
    {
      if !IsCopy(s.slots, k, x) {
        NewCopyResolved(g, s, a, k, x, y);
      } else if !IsCopy(s.slots, k, y) {
        NewCopyResolved(g, s, a, k, y, x);
        ResolvedSymmetric(g, t, k, y, x);
      } else {
        assert Resolved(g, s, k, x, y);
        var p :| Resolves(g, s, k, p, x, y) || Resolves(g, s, k, p, y, x);
        if Resolves(g, s, k, p, x, y) {
          ResolvesStays(g, s, a, k, p, x, y);
        } else {
          ResolvesStays(g, s, a, k, p, y, x);
        }
      }
    }
  }

  lemma ResolvedSymmetric(g: Geo, s: State, k: Key, x: nat, y: nat)
    requires g.Valid() && |s.slots| == g.n && Resolved(g, s, k, x, y)
    ensures Resolved(g, s, k, y, x)
  {
  }

  /** Throughout the run `k` is written by sets only, and no set of `k` dies while sweeping. */
  ghost predicate SetsOnlyDuring(g: Geo, s: State, acts: seq<Action>, k: Key)
    requires g.Valid() && |s.slots| == g.n && Runs(g, s, acts)
    decreases |acts|
  {
    && SetsOnly(After(g, s, acts), k)
    && (acts == [] ||
        (&& SetsOnlyDuring(g, s, acts[..|acts| - 1], k)
         && !KillsSweep(After(g, s, acts[..|acts| - 1]), acts[|acts| - 1], k)))
  }

  lemma {:induction false} PairsKeepResolving(g: Geo, s: State, acts: seq<Action>, k: Key)
    requires g.Valid() && Inv(g, s) && Runs(g, s, acts) && SetsOnlyDuring(g, s, acts, k)
    requires PairsResolve(g, s, k)
    ensures PairsResolve(g, After(g, s, acts), k)
  {
    if acts != [] {
      hide Inv, Next, Enabled, PairsResolve, SetsOnly, KillsSweep;
      var init := acts[..|acts| - 1];
      PairsKeepResolving(g, s, init, k);
      ChainsHold(g, s, init);
      assert SetsOnly(After(g, s, init), k);
      StepResolves(g, After(g, s, init), acts[|acts| - 1], k);
    }
  }

  /** Once racing sets of a key have all finished, at most one copy of it is live, whatever gets,
      touches, deletes, flushes and operations on other keys did in between. */
  lemma RacingSetsConverge(g: Geo, acts: seq<Action>, k: Key)
    requires g.Valid() && Runs(g, Fresh(g), acts) && SetsOnlyDuring(g, Fresh(g), acts, k)
    requires forall p | p in After(g, Fresh(g), acts).procs ::
               !(After(g, Fresh(g), acts).procs[p].SetSweep? && After(g, Fresh(g), acts).procs[p].key == k)
    ensures var t := After(g, Fresh(g), acts).slots;
      forall x, y | IsCopy(t, k, x) && IsCopy(t, k, y) :: x == y
  {
    FreshInv(g);
    PairsKeepResolving(g, Fresh(g), acts, k);
    var s := After(g, Fresh(g), acts);
    forall x, y | IsCopy(s.slots, k, x) && IsCopy(s.slots, k, y)
      ensures x == y
    {
      assert x != y ==> Resolved(g, s, k, x, y);
    }
  }

  // ---- Racing adds ----

  predicate Taken(s: seq<Cell>, x: nat) {
    x < |s| && s[x].Live?
  }

  ghost predicate TakenBefore(g: Geo, s: seq<Cell>, k: Key, i: nat)
    requires g.Valid() && |s| == g.n
  {
    forall j | 0 <= j < i :: Taken(s, At(g, k, j))
  }

  predicate InWindow(g: Geo, k: Key, x: nat)
    requires g.Valid()
  {
    exists j :: 0 <= j < PROBE && At(g, k, j) == x
  }

  /** The chain of `k` only fills up: an occupied slot of it keeps its key. */
  ghost predicate OnlyFills(g: Geo, s: seq<Cell>, t: seq<Cell>, k: Key)
    requires g.Valid()
  {
    |s| == |t| && forall x | 0 <= x < |s| && InWindow(g, k, x) && s[x].Live? :: t[x].Live? && t[x].key == s[x].key
  }

  predicate AddsTo(p: Proc, k: Key) {
    (p.AddProbe? && p.adding.key == k) || (p.AddWrite? && p.key == k)
  }

  function AddClock(p: Proc): nat
    requires p.AddProbe? || p.AddWrite?
  {
    if p.AddProbe? then p.adding.now else p.now
  }

  /** `k` is written by adds only, and to none of them is an entry of the chain expired. */
  ghost predicate AddsOnly(g: Geo, s: State, k: Key)
    requires g.Valid() && |s.slots| == g.n
  {
    && (forall p | p in s.procs && Writes(s.procs[p], k) :: AddsTo(s.procs[p], k))
    && (forall p, x | p in s.procs && AddsTo(s.procs[p], k) && 0 <= x < g.n && InWindow(g, k, x) && s.slots[x].Live? ::
          !Expired(s.slots[x], AddClock(s.procs[p])))
  }

  predicate WonBy(p: Proc, k: Key) {
    p.AddDone? && p.key == k && p.added
  }

  /** The first slot an add may still write has only taken slots before it. */
  ghost predicate AddPlaced(g: Geo, s: seq<Cell>, k: Key, p: Proc)
    requires g.Valid() && |s| == g.n
  {
    && (p.AddProbe? && p.adding.key == k ==>
          && p.adding.i < PROBE && Below(p.adding.reuse, p.adding.i)
          && TakenBefore(g, s, k, if p.adding.reuse.Some? then p.adding.reuse.value else p.adding.i))
    && (p.AddWrite? && p.key == k ==> p.target < PROBE && TakenBefore(g, s, k, p.target))
  }

  /** With `k` stored at position `w`, this add can only fail. */
  ghost predicate Beaten(g: Geo, s: seq<Cell>, k: Key, w: nat, p: Proc)
    requires g.Valid() && |s| == g.n
  {
    && (p.AddProbe? && p.adding.key == k ==>
          if p.adding.reuse.Some? then Taken(s, At(g, k, p.adding.reuse.value)) else p.adding.i <= w)
    && (p.AddWrite? && p.key == k ==> Taken(s, At(g, k, p.target)))
  }

  ghost predicate Decided(g: Geo, s: State, k: Key, w: nat)
    requires g.Valid() && |s.slots| == g.n
  {
    && w < PROBE && IsCopy(s.slots, k, At(g, k, w)) && TakenBefore(g, s.slots, k, w)
    && (forall p | p in s.procs :: Beaten(g, s.slots, k, w, s.procs[p]))
    && (forall p, q | p in s.procs && q in s.procs && WonBy(s.procs[p], k) && WonBy(s.procs[q], k) :: p == q)
  }

  ghost predicate Open(g: Geo, s: State, k: Key)
    requires g.Valid() && |s.slots| == g.n
  {
    && (forall j | 0 <= j < PROBE :: !IsCopy(s.slots, k, At(g, k, j)))
    && (forall p | p in s.procs :: !WonBy(s.procs[p], k))
  }

  ghost predicate RaceInv(g: Geo, s: State, k: Key)
    requires g.Valid() && |s.slots| == g.n
  {
    && (forall p | p in s.procs :: AddPlaced(g, s.slots, k, s.procs[p]))
    && (Open(g, s, k) || exists w: nat :: Decided(g, s, k, w))
  }

  lemma TakenStays(g: Geo, s: seq<Cell>, t: seq<Cell>, k: Key, i: nat)
    requires g.Valid() && |s| == g.n && OnlyFills(g, s, t, k) && i <= PROBE && TakenBefore(g, s, k, i)
    ensures TakenBefore(g, t, k, i)
  {
    forall j | 0 <= j < i
      ensures Taken(t, At(g, k, j))
    {
      assert InWindow(g, k, At(g, k, j));
    }
  }

  lemma PlacedStays(g: Geo, s: seq<Cell>, t: seq<Cell>, k: Key, p: Proc)
    requires g.Valid() && |s| == g.n && OnlyFills(g, s, t, k) && AddPlaced(g, s, k, p)
    ensures AddPlaced(g, t, k, p)
  {
    if p.AddProbe? && p.adding.key == k {
      TakenStays(g, s, t, k, if p.adding.reuse.Some? then p.adding.reuse.value else p.adding.i);
    }
    if p.AddWrite? && p.key == k {
      TakenStays(g, s, t, k, p.target);
    }
  }

  lemma BeatenStays(g: Geo, s: seq<Cell>, t: seq<Cell>, k: Key, w: nat, p: Proc)
    requires g.Valid() && |s| == g.n && OnlyFills(g, s, t, k) && AddPlaced(g, s, k, p) && Beaten(g, s, k, w, p)
    ensures Beaten(g, t, k, w, p)
  {
    if p.AddProbe? && p.adding.key == k && p.adding.reuse.Some? {
      assert InWindow(g, k, At(g, k, p.adding.reuse.value));
    }
    if p.AddWrite? && p.key == k {
      assert InWindow(g, k, At(g, k, p.target));
    }
  }

  /** One visit of an add of `k` while nobody has stored it. */
  lemma OpenAddVisit(g: Geo, s: seq<Cell>, k: Key, p: Proc, ms: u64, v: Value)
    requires g.Valid() && |s| == g.n && AddsTo(p, k) && AddPlaced(g, s, k, p)
    requires forall j | 0 <= j < PROBE :: !IsCopy(s, k, At(g, k, j))
    requires forall x | 0 <= x < g.n && InWindow(g, k, x) && s[x].Live? :: !Expired(s[x], AddClock(p))
    ensures var e := VisitEffect(g, s, p, ms, v);
      && e.slot < g.n && AddPlaced(g, s, k, e.proc)
      && (WonBy(e.proc, k) ==> p.AddWrite? && e.slot == At(g, k, p.target) && !s[e.slot].Live?
                               && e.cell.Live? && e.cell.key == k)
      && (!WonBy(e.proc, k) ==> e.cell == s[e.slot])
  {
    if p.AddProbe? {
      assert InWindow(g, k, At(g, k, p.adding.i));
    } else {
      assert InWindow(g, k, At(g, k, p.target));
    }
  }

  /** One visit of an add of `k` after somebody has. */
  lemma BeatenAddVisit(g: Geo, s: seq<Cell>, k: Key, w: nat, p: Proc, ms: u64, v: Value)
    requires g.Valid() && |s| == g.n && AddsTo(p, k) && AddPlaced(g, s, k, p) && Beaten(g, s, k, w, p)
    requires w < PROBE && IsCopy(s, k, At(g, k, w)) && TakenBefore(g, s, k, w)
    requires forall x | 0 <= x < g.n && InWindow(g, k, x) && s[x].Live? :: !Expired(s[x], AddClock(p))
    ensures var e := VisitEffect(g, s, p, ms, v);
      && e.slot < g.n && AddPlaced(g, s, k, e.proc) && Beaten(g, s, k, w, e.proc)
      && !WonBy(e.proc, k) && e.cell == s[e.slot]
  {
    if p.AddProbe? {
      assert InWindow(g, k, At(g, k, p.adding.i));
    } else {
      assert InWindow(g, k, At(g, k, p.target));
    }
  }

  /** At the moment an add stores `k`, every other add of `k` is beaten. */
  lemma StoringBeatsOthers(g: Geo, s: seq<Cell>, t: seq<Cell>, k: Key, w: nat, p: Proc)
    requires g.Valid() && |s| == g.n && OnlyFills(g, s, t, k) && AddPlaced(g, s, k, p)
    requires w < PROBE && TakenBefore(g, s, k, w) && !s[At(g, k, w)].Live? && IsCopy(t, k, At(g, k, w))
    ensures Beaten(g, t, k, w, p)
  {
    TakenStays(g, s, t, k, w);
    if p.AddProbe? && p.adding.key == k {
      var r := if p.adding.reuse.Some? then p.adding.reuse.value else p.adding.i;
      assert w < r ==> Taken(s, At(g, k, w));
    }
    if p.AddWrite? && p.key == k {
      assert w < p.target ==> Taken(s, At(g, k, w));
    }
  }

  lemma OthersVisit(g: Geo, s: State, q: nat, ms: u64, v: Value, k: Key)
    requires g.Valid() && |s.slots| == g.n && Enabled(g, s, Visit(q, ms, v)) && !Writes(s.procs[q], k)
    requires RaceInv(g, s, k) && OnlyFills(g, s.slots, Next(g, s, Visit(q, ms, v)).slots, k)
    ensures RaceInv(g, Next(g, s, Visit(q, ms, v)), k)
  {
    NoNewCopy(g, s.slots, s.procs[q], ms, v, k);
    StaysOut(g, s.slots, s.procs[q], ms, v, k);
    var t := Next(g, s, Visit(q, ms, v));
    hide VisitEffect, AddPlaced, Beaten, OnlyFills, Writes;
    forall p | p in t.procs
      ensures AddPlaced(g, t.slots, k, t.procs[p])
    {
      if p == q { OutsiderFacts(g, t.slots, k, 0, t.procs[p]); }
      else { PlacedStays(g, s.slots, t.slots, k, s.procs[p]); }
    }
    if w: nat :| Decided(g, s, k, w) {
      KeptCopy(g, s.slots, t.slots, k, w);
      TakenStays(g, s.slots, t.slots, k, w);
      forall p | p in t.procs
        ensures Beaten(g, t.slots, k, w, t.procs[p])
      {
        if p == q { OutsiderFacts(g, t.slots, k, w, t.procs[p]); }
        else { BeatenStays(g, s.slots, t.slots, k, w, s.procs[p]); }
      }
      assert Decided(g, t, k, w);
    } else {
      assert Open(g, t, k);
    }
  }

  lemma KeptCopy(g: Geo, s: seq<Cell>, t: seq<Cell>, k: Key, w: nat)
    requires g.Valid() && |s| == g.n && OnlyFills(g, s, t, k) && w < PROBE && IsCopy(s, k, At(g, k, w))
    ensures IsCopy(t, k, At(g, k, w))
  {
    assert InWindow(g, k, At(g, k, w));
  }

  lemma OutsiderFacts(g: Geo, s: seq<Cell>, k: Key, w: nat, p: Proc)
    requires g.Valid() && |s| == g.n && !Writes(p, k)
    ensures AddPlaced(g, s, k, p) && Beaten(g, s, k, w, p)
  {
  }

  lemma AddersVisit(g: Geo, s: State, q: nat, ms: u64, v: Value, k: Key)
    requires g.Valid() && |s.slots| == g.n && Enabled(g, s, Visit(q, ms, v)) && AddsTo(s.procs[q], k)
    requires RaceInv(g, s, k) && AddsOnly(g, s, k) && OnlyFills(g, s.slots, Next(g, s, Visit(q, ms, v)).slots, k)
    ensures RaceInv(g, Next(g, s, Visit(q, ms, v)), k)
  {
    var t := Next(g, s, Visit(q, ms, v));
    if w: nat :| Decided(g, s, k, w) {
      BeatenAddVisit(g, s.slots, k, w, s.procs[q], ms, v);
      hide VisitEffect, AddPlaced, Beaten, OnlyFills, AddsOnly;
      assert t.slots == s.slots;
      assert Decided(g, t, k, w);
    } else {
      OpenAddVisit(g, s.slots, k, s.procs[q], ms, v);
      var e := VisitEffect(g, s.slots, s.procs[q], ms, v);
      hide VisitEffect, AddsOnly;
      if WonBy(e.proc, k) {
        var w := s.procs[q].target;
        hide AddPlaced, OnlyFills, Beaten;
        StoredNow(g, s, t, q, k, w);
      } else {
        hide AddPlaced, OnlyFills, Beaten;
        assert t.slots == s.slots;
        assert Open(g, t, k);
      }
    }
  }

  lemma StoredNow(g: Geo, s: State, t: State, q: nat, k: Key, w: nat)
    requires g.Valid() && |s.slots| == g.n && OnlyFills(g, s.slots, t.slots, k)
    requires q in s.procs && s.procs[q].AddWrite? && s.procs[q].key == k && s.procs[q].target == w
    requires q in t.procs && WonBy(t.procs[q], k) && t.procs == s.procs[q := t.procs[q]]
    requires (forall p | p in s.procs :: AddPlaced(g, s.slots, k, s.procs[p])) && Open(g, s, k)
    requires !s.slots[At(g, k, w)].Live? && IsCopy(t.slots, k, At(g, k, w))
    ensures RaceInv(g, t, k)
  {
    assert AddPlaced(g, s.slots, k, s.procs[q]);
    assert w < PROBE && TakenBefore(g, s.slots, k, w);
    TakenStays(g, s.slots, t.slots, k, w);
    hide AddPlaced, OnlyFills, Beaten;
    forall p | p in t.procs
      ensures AddPlaced(g, t.slots, k, t.procs[p]) && Beaten(g, t.slots, k, w, t.procs[p])
    {
      if p == q {
        OutsiderFacts(g, t.slots, k, w, t.procs[p]);
      } else {
        PlacedStays(g, s.slots, t.slots, k, s.procs[p]);
        StoringBeatsOthers(g, s.slots, t.slots, k, w, s.procs[p]);
      }
    }
    assert Decided(g, t, k, w);
  }

  lemma BeginPlaced(g: Geo, s: seq<Cell>, k: Key, w: nat, op: Op)
    requires g.Valid() && |s| == g.n
    ensures AddPlaced(g, s, k, Begin(op)) && Beaten(g, s, k, w, Begin(op)) && !WonBy(Begin(op), k)
  {
  }

  lemma StartOrDie(g: Geo, s: State, a: Action, k: Key)
    requires g.Valid() && |s.slots| == g.n && Enabled(g, s, a) && !a.Visit? && RaceInv(g, s, k)
    ensures RaceInv(g, Next(g, s, a), k)
  {
    var t := Next(g, s, a);
    var q := t.procs[a.p];
    forall w: nat
      ensures AddPlaced(g, s.slots, k, q) && Beaten(g, s.slots, k, w, q) && !WonBy(q, k)
    {
      if a.Start? { BeginPlaced(g, s.slots, k, w, a.op); } else { OutsiderFacts(g, s.slots, k, w, Dead); }
    }
    hide AddPlaced, Beaten;
    if w: nat :| Decided(g, s, k, w) {
      assert Decided(g, t, k, w);
    } else {
      assert Open(g, t, k);
    }
  }

  lemma StepKeepsRace(g: Geo, s: State, a: Action, k: Key)
    requires g.Valid() && |s.slots| == g.n && Enabled(g, s, a) && RaceInv(g, s, k)
    requires AddsOnly(g, s, k) && OnlyFills(g, s.slots, Next(g, s, a).slots, k)
    ensures |Next(g, s, a).slots| == g.n && RaceInv(g, Next(g, s, a), k)
  {
    if a.Visit? {
      assert Writes(s.procs[a.p], k) ==> AddsTo(s.procs[a.p], k);
      hide RaceInv, AddsOnly, OnlyFills, Writes, VisitEffect;
      if AddsTo(s.procs[a.p], k) {
        AddersVisit(g, s, a.p, a.ms, a.v, k);
      } else {
        OthersVisit(g, s, a.p, a.ms, a.v, k);
      }
    } else {
      StartOrDie(g, s, a, k);
    }
  }

  /** Throughout the run `k` is written by adds only and the rest of its chain only fills up:
      nothing on it is tombstoned, evicted or expired. */
  ghost predicate QuietRace(g: Geo, s: State, acts: seq<Action>, k: Key)
    requires g.Valid() && |s.slots| == g.n && Runs(g, s, acts)
    decreases |acts|
  {
    acts == [] ||
    (var before := After(g, s, acts[..|acts| - 1]);
     && QuietRace(g, s, acts[..|acts| - 1], k)
     && AddsOnly(g, before, k)
     && OnlyFills(g, before.slots, After(g, s, acts).slots, k))
  }

  lemma {:induction false} RaceHolds(g: Geo, s: State, acts: seq<Action>, k: Key)
    requires g.Valid() && |s.slots| == g.n && Runs(g, s, acts) && QuietRace(g, s, acts, k) && RaceInv(g, s, k)
    ensures RaceInv(g, After(g, s, acts), k)
  {
    if acts != [] {
      hide RaceInv, AddsOnly, OnlyFills, Next, Enabled;
      RaceHolds(g, s, acts[..|acts| - 1], k);
      StepKeepsRace(g, After(g, s, acts[..|acts| - 1]), acts[|acts| - 1], k);
    }
  }

  /** Racing adds of a key that is absent when they start: at most one of them returns true. */
  lemma OneAddWins(g: Geo, s: State, acts: seq<Action>, k: Key, p: nat, q: nat)
    requires g.Valid() && |s.slots| == g.n && Runs(g, s, acts) && QuietRace(g, s, acts, k)
    requires NoCopy(s.slots, k)
    requires forall r | r in s.procs :: !Writes(s.procs[r], k) && !WonBy(s.procs[r], k)
    requires p in After(g, s, acts).procs && WonBy(After(g, s, acts).procs[p], k)
    requires q in After(g, s, acts).procs && WonBy(After(g, s, acts).procs[q], k)
    ensures p == q
  {
    assert Open(g, s, k);
    forall r | r in s.procs
      ensures AddPlaced(g, s.slots, k, s.procs[r])
    {
      OutsiderFacts(g, s.slots, k, 0, s.procs[r]);
    }
    RaceHolds(g, s, acts, k);
  }
}
