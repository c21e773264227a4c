/** What values do under races: a set that no other write of its key overlaps is what every later get is
    given, however everything else interleaves with them. */
module CacheReads {
  import opened Common
  import opened CacheSteps
  import opened CacheRaces

  ghost predicate AtMostOne(s: seq<Cell>, k: Key) {
    forall x: nat, y: nat | IsCopy(s, k, x) && IsCopy(s, k, y) :: x == y
  }

  /** Every live copy of the key has this value and deadline. */
  ghost predicate AllHave(s: seq<Cell>, k: Key, v: Value, exp: nat) {
    forall x: nat | IsCopy(s, k, x) :: s[x].val == v && s[x].exp == exp
  }

  /** The process may still change an entry of `k` other than by removing it. */
  predicate Changes(p: Proc, k: Key) {
    Writes(p, k) || (p.TouchProbe? && p.key == k)
  }

  /** Nobody but process `p` changes entries of `k`. */
  ghost predicate OnlyBy(s: State, k: Key, p: nat) {
    forall q | q in s.procs && q != p :: !Changes(s.procs[q], k)
  }

  /** At no moment of the run does anybody but process `p` change entries of `k`. */
  ghost predicate OnlyByDuring(g: Geo, s: State, acts: seq<Action>, k: Key, p: nat)
    requires g.Valid() && |s.slots| == g.n && Runs(g, s, acts)
    decreases |acts|
  {
    OnlyBy(After(g, s, acts), k, p) && (acts == [] || OnlyByDuring(g, s, acts[..|acts| - 1], k, p))
  }

  // ---- The others ----

  /** A process that does not change entries of `k` leaves each as it is, or removes it. */
  lemma OthersLeave(g: Geo, s: seq<Cell>, p: Proc, ms: u64, v: Value, k: Key)
    requires g.Valid() && |s| == g.n && !Finished(p) && !Changes(p, k)
    ensures var e := VisitEffect(g, s, p, ms, v);
      e.slot < g.n && (e.cell.Live? && e.cell.key == k ==> IsCopy(s, k, e.slot) && e.cell == s[e.slot])
  {
  }

  /** Every copy of `k` after is one before, as it was. */
  ghost predicate NoneNew(s: seq<Cell>, t: seq<Cell>, k: Key) {
    |t| == |s| && forall x: nat | IsCopy(t, k, x) :: IsCopy(s, k, x) && t[x] == s[x]
  }

  lemma OthersStep(g: Geo, s: State, a: Action, k: Key, p: nat)
    requires g.Valid() && |s.slots| == g.n && Enabled(g, s, a) && OnlyBy(s, k, p) && a.p != p
    ensures var t := Next(g, s, a);
      NoneNew(s.slots, t.slots, k) && (p in s.procs ==> p in t.procs && t.procs[p] == s.procs[p])
  {
    if a.Visit? {
      OthersLeave(g, s.slots, s.procs[a.p], a.ms, a.v, k);
      hide VisitEffect, Changes;
    }
  }

  // ---- The set ----

  /** Where a set of `k` to `v` is, and what is true then: no copy behind it while it looks, none when it is
      about to write, and from then on every copy is its own. */
  ghost predicate Setting(g: Geo, s: seq<Cell>, k: Key, v: Value, exp: nat, p: Proc)
    requires g.Valid() && |s| == g.n
  {
    match p
    case SetProbe(q) => q.key == k && q.val == v && q.exp == exp && q.i < PROBE && NoCopyBefore(g, s, k, q.i)
    case SetWrite(k', v', e', _) => k' == k && v' == v && e' == exp && NoCopy(s, k)
    case SetSweep(k', _, i) => k' == k && i < PROBE && AllHave(s, k, v, exp)
    case SetDone(k') => k' == k && AllHave(s, k, v, exp)
    case Dead => true
    case _ => false
  }

  lemma SettingStays(g: Geo, s: seq<Cell>, t: seq<Cell>, k: Key, v: Value, exp: nat, p: Proc)
    requires g.Valid() && |s| == g.n && NoneNew(s, t, k) && Setting(g, s, k, v, exp, p)
    ensures Setting(g, t, k, v, exp, p)
  {
  }

  lemma NoneAhead(g: Geo, s: seq<Cell>, k: Key, i: nat)
    requires g.Valid() && |s| == g.n && ChainInv(g, s) && NoCopyBefore(g, s, k, i)
    requires i == PROBE || s[At(g, k, i)].Empty?
    ensures NoCopy(s, k)
  {
    forall x | 0 <= x < |s|
      ensures !IsCopy(s, k, x)
    {
      if IsCopy(s, k, x) {
        var j := CopyIsAhead(g, s, k, i, x);
        assert false;
      }
    }
  }

  lemma Rewritten(s: seq<Cell>, k: Key, v: Value, exp: nat, x: nat, ms: u64)
    requires AtMostOne(s, k) && IsCopy(s, k, x)
    ensures var t := s[x := Live(k, v, exp, ms)]; AllHave(t, k, v, exp) && AtMostOne(t, k)
  {
    var t := s[x := Live(k, v, exp, ms)];
    assert forall y: nat | IsCopy(t, k, y) :: IsCopy(s, k, y);
  }

  lemma ProbeSets(g: Geo, s: seq<Cell>, k: Key, v: Value, exp: nat, q: SetScan, ms: u64)
    requires g.Valid() && |s| == g.n && ChainInv(g, s) && AtMostOne(s, k) && Setting(g, s, k, v, exp, SetProbe(q))
    ensures var e := SetVisit(g, s, q, ms);
      e.slot < g.n && Setting(g, s[e.slot := e.cell], k, v, exp, e.proc) && AtMostOne(s[e.slot := e.cell], k)
  {
    hide ChainInv;
    var x := At(g, k, q.i);
    var e := SetVisit(g, s, q, ms);
    if IsCopy(s, k, x) {
      Rewritten(s, k, v, exp, x, ms);
    } else {
      assert s[e.slot := e.cell] == s;
      if s[x].Empty? {
        NoneAhead(g, s, k, q.i);
      } else if q.i + 1 == PROBE {
        NoneAhead(g, s, k, q.i + 1);
      }
    }
  }

  lemma WriteSets(g: Geo, s: seq<Cell>, k: Key, v: Value, exp: nat, x: nat, ms: u64)
    requires |s| == g.n && x < |s| && NoCopy(s, k)
    ensures var t := s[x := Live(k, v, exp, ms)]; AllHave(t, k, v, exp) && AtMostOne(t, k)
  {
    var t := s[x := Live(k, v, exp, ms)];
    assert forall y: nat | IsCopy(t, k, y) :: y == x || IsCopy(s, k, y);
  }

  lemma SweepSets(g: Geo, s: seq<Cell>, k: Key, v: Value, exp: nat, keep: nat, i: nat)
    requires g.Valid() && |s| == g.n && AllHave(s, k, v, exp) && AtMostOne(s, k) && i < PROBE
    ensures var e := SweepVisit(g, s, k, keep, i);
      e.slot < g.n && Setting(g, s[e.slot := e.cell], k, v, exp, e.proc) && AtMostOne(s[e.slot := e.cell], k)
  {
    var e := SweepVisit(g, s, k, keep, i);
    assert forall y: nat | IsCopy(s[e.slot := e.cell], k, y) :: IsCopy(s, k, y) && s[e.slot := e.cell][y] == s[y];
  }

  lemma OwnStep(g: Geo, s: State, a: Action, k: Key, v: Value, exp: nat, p: nat)
    requires g.Valid() && |s.slots| == g.n && ChainInv(g, s.slots) && Enabled(g, s, a) && a.p == p && p in s.procs
    requires AtMostOne(s.slots, k) && Setting(g, s.slots, k, v, exp, s.procs[p])
    ensures var t := Next(g, s, a); |t.slots| == g.n && AtMostOne(t.slots, k) && p in t.procs && Setting(g, t.slots, k, v, exp, t.procs[p])
  {
    hide ChainInv, SetVisit, SweepVisit, AtMostOne, AllHave, NoCopy, NoCopyBefore;
    if a.Visit? {
      match s.procs[p]
      case SetProbe(q) => ProbeSets(g, s.slots, k, v, exp, q, a.ms);
      case SetWrite(_, _, _, t) => WriteSets(g, s.slots, k, v, exp, At(g, k, t), a.ms);
      case SetSweep(_, keep, i) => SweepSets(g, s.slots, k, v, exp, keep, i);
    }
  }

  lemma StepSets(g: Geo, s: State, a: Action, k: Key, v: Value, exp: nat, p: nat)
    requires g.Valid() && Inv(g, s) && Enabled(g, s, a) && OnlyBy(s, k, p) && p in s.procs
    requires AtMostOne(s.slots, k) && Setting(g, s.slots, k, v, exp, s.procs[p])
    ensures var t := Next(g, s, a); |t.slots| == g.n && AtMostOne(t.slots, k) && p in t.procs && Setting(g, t.slots, k, v, exp, t.procs[p])
  {
    hide ProcInv, ChainInv, Setting, OnlyBy, Next;
    if a.p == p {
      OwnStep(g, s, a, k, v, exp, p);
    } else {
      OthersStep(g, s, a, k, p);
      SettingStays(g, s.slots, Next(g, s, a).slots, k, v, exp, s.procs[p]);
    }
  }

  lemma {:induction false} SetHolds(g: Geo, s: State, acts: seq<Action>, k: Key, v: Value, exp: nat, now: nat, p: nat)
    requires g.Valid() && Inv(g, s) && Runs(g, s, acts) && AtMostOne(s.slots, k)
    requires p in s.procs && s.procs[p] == Begin(Set(k, v, exp, now)) && OnlyByDuring(g, s, acts, k, p)
    ensures var t := After(g, s, acts); AtMostOne(t.slots, k) && p in t.procs && Setting(g, t.slots, k, v, exp, t.procs[p])
  {
    if acts != [] {
      hide Inv, Next, Enabled, OnlyBy, Setting, AtMostOne;
      var init := acts[..|acts| - 1];
      SetHolds(g, s, init, k, v, exp, now, p);
      ChainsHold(g, s, init);
      assert OnlyBy(After(g, s, init), k, p);
      StepSets(g, After(g, s, init), acts[|acts| - 1], k, v, exp, p);
    }
  }

  /** A set of a key that has at most one copy, overlapped by no other write or touch of it, leaves every live
      copy with its value and its deadline, whatever gets, deletes, flushes and operations on other keys do
      in between. */
  lemma SetMeansSet(g: Geo, s: State, acts: seq<Action>, k: Key, v: Value, exp: nat, now: nat, p: nat)
    requires g.Valid() && Inv(g, s) && Runs(g, s, acts) && AtMostOne(s.slots, k)
    requires p in s.procs && s.procs[p] == Begin(Set(k, v, exp, now)) && OnlyByDuring(g, s, acts, k, p)
    requires p in After(g, s, acts).procs && After(g, s, acts).procs[p].SetDone?
    ensures AllHave(After(g, s, acts).slots, k, v, exp) && AtMostOne(After(g, s, acts).slots, k)
  {
    SetHolds(g, s, acts, k, v, exp, now, p);
  }

  // ---- The get ----

  /** Throughout the run nobody changes entries of `k`, and it has a live copy. */
  ghost predicate KeptDuring(g: Geo, s: State, acts: seq<Action>, k: Key)
    requires g.Valid() && |s.slots| == g.n && Runs(g, s, acts)
    decreases |acts|
  {
    var t := After(g, s, acts);
    && (forall q | q in t.procs :: !Changes(t.procs[q], k)) && !NoCopy(t.slots, k)
    && (acts == [] || KeptDuring(g, s, acts[..|acts| - 1], k))
  }

  /** What a get of `k` at `now` is to be given. */
  function Given(v: Value, exp: nat, now: nat): Option<Value> {
    if exp != 0 && exp < now then None else Some(v)
  }

  /** Where such a get is: no copy behind it, or done with that answer. */
  ghost predicate Getting(g: Geo, s: seq<Cell>, k: Key, v: Value, exp: nat, now: nat, p: Proc)
    requires g.Valid() && |s| == g.n
  {
    match p
    case GetProbe(k', n, i) => k' == k && n == now && i < PROBE && NoCopyBefore(g, s, k, i)
    case GetReclaim(k', n, _) => k' == k && n == now && exp != 0 && exp < now
    case GetDone(k', r) => k' == k && r == Given(v, exp, now)
    case Dead => true
    case _ => false
  }

  lemma GettingStays(g: Geo, s: seq<Cell>, t: seq<Cell>, k: Key, v: Value, exp: nat, now: nat, p: Proc)
    requires g.Valid() && |s| == g.n && NoneNew(s, t, k) && Getting(g, s, k, v, exp, now, p)
    ensures Getting(g, t, k, v, exp, now, p)
  {
  }

  lemma StillAhead(g: Geo, s: seq<Cell>, k: Key, i: nat)
    requires g.Valid() && |s| == g.n && ChainInv(g, s) && NoCopyBefore(g, s, k, i) && !NoCopy(s, k) && !IsCopy(s, k, At(g, k, i))
    ensures !s[At(g, k, i)].Empty? && i + 1 < PROBE && NoCopyBefore(g, s, k, i + 1)
  {
    var y: nat :| y < |s| && IsCopy(s, k, y);
    var j := CopyIsAhead(g, s, k, i, y);
    hide ChainInv;
    assert i < j;
  }

  lemma GetVisits(g: Geo, s: seq<Cell>, k: Key, v: Value, exp: nat, now: nat, p: Proc)
    requires g.Valid() && |s| == g.n && ChainInv(g, s) && AllHave(s, k, v, exp) && !NoCopy(s, k)
    requires p.GetProbe? && Getting(g, s, k, v, exp, now, p)
    ensures var e := GetVisit(g, s, p); e.slot < g.n && e.cell == s[e.slot] && Getting(g, s, k, v, exp, now, e.proc)
  {
    hide ChainInv, NoCopy;
    if !IsCopy(s, k, At(g, k, p.i)) {
      StillAhead(g, s, k, p.i);
    }
    hide NoCopyBefore;
  }

  lemma GetOwnStep(g: Geo, s: State, a: Action, k: Key, v: Value, exp: nat, now: nat, p: nat)
    requires g.Valid() && |s.slots| == g.n && ChainInv(g, s.slots) && Enabled(g, s, a) && a.p == p && p in s.procs
    requires AllHave(s.slots, k, v, exp) && !NoCopy(s.slots, k) && Getting(g, s.slots, k, v, exp, now, s.procs[p])
    ensures var t := Next(g, s, a);
      |t.slots| == g.n && AllHave(t.slots, k, v, exp) && p in t.procs && Getting(g, t.slots, k, v, exp, now, t.procs[p])
  {
    hide ChainInv, GetVisit;
    if a.Visit? {
      match s.procs[p]
      case GetProbe(_, _, _) =>
        GetVisits(g, s.slots, k, v, exp, now, s.procs[p]);
        assert Next(g, s, a).slots == s.slots;
      case GetReclaim(_, _, t) =>
    }
  }

  lemma GetStep(g: Geo, s: State, a: Action, k: Key, v: Value, exp: nat, now: nat, p: nat)
    requires g.Valid() && Inv(g, s) && Enabled(g, s, a) && p in s.procs && AllHave(s.slots, k, v, exp) && !NoCopy(s.slots, k)
    requires (forall q | q in s.procs :: !Changes(s.procs[q], k)) && Getting(g, s.slots, k, v, exp, now, s.procs[p])
    ensures var t := Next(g, s, a);
      |t.slots| == g.n && AllHave(t.slots, k, v, exp) && p in t.procs && Getting(g, t.slots, k, v, exp, now, t.procs[p])
  {
    hide ProcInv, ChainInv, Getting, Next, NoCopy;
    if a.p == p {
      GetOwnStep(g, s, a, k, v, exp, now, p);
    } else {
      OthersStep(g, s, a, k, p);
      GettingStays(g, s.slots, Next(g, s, a).slots, k, v, exp, now, s.procs[p]);
    }
  }

  lemma {:induction false} GetHolds(g: Geo, s: State, acts: seq<Action>, k: Key, v: Value, exp: nat, now: nat, p: nat)
    requires g.Valid() && Inv(g, s) && Runs(g, s, acts) && AllHave(s.slots, k, v, exp) && KeptDuring(g, s, acts, k)
    requires p in s.procs && s.procs[p] == Begin(Get(k, now))
    ensures var t := After(g, s, acts); AllHave(t.slots, k, v, exp) && p in t.procs && Getting(g, t.slots, k, v, exp, now, t.procs[p])
  {
    if acts != [] {
      hide Inv, Next, Enabled, Getting, AllHave, NoCopy, Changes;
      var init := acts[..|acts| - 1];
      GetHolds(g, s, init, k, v, exp, now, p);
      ChainsHold(g, s, init);
      GetStep(g, After(g, s, init), acts[|acts| - 1], k, v, exp, now, p);
    }
  }

  /** While nobody changes entries of a key whose live copies all have one value and deadline, and it is not
      removed, a get of it answers with that value until the deadline, and then with nothing. */
  lemma GetIsGiven(g: Geo, s: State, acts: seq<Action>, k: Key, v: Value, exp: nat, now: nat, p: nat)
    requires g.Valid() && Inv(g, s) && Runs(g, s, acts) && AllHave(s.slots, k, v, exp) && KeptDuring(g, s, acts, k)
    requires p in s.procs && s.procs[p] == Begin(Get(k, now))
    requires p in After(g, s, acts).procs && After(g, s, acts).procs[p].GetDone?
    ensures After(g, s, acts).procs[p].value == Given(v, exp, now)
  {
    GetHolds(g, s, acts, k, v, exp, now, p);
  }

  // ---- Counting ----

  /** The process counts `k` up, at a time when an entry with this deadline has not expired. */
  predicate CountsBefore(p: Proc, k: Key, exp: nat) {
    || (p.IncProbe? && p.counting.key == k && (exp == 0 || p.counting.now <= exp))
    || (p.IncWrite? && p.key == k && (exp == 0 || p.now <= exp))
  }

  /** Slot `x` holds the key under this deadline throughout, and nobody changes its entries but by counting
      before it. */
  ghost predicate CountedDuring(g: Geo, s: State, acts: seq<Action>, k: Key, x: nat, exp: nat)
    requires g.Valid() && |s.slots| == g.n && Runs(g, s, acts)
    decreases |acts|
  {
    var t := After(g, s, acts);
    && IsCopy(t.slots, k, x) && (forall q | q in t.procs && Changes(t.procs[q], k) :: CountsBefore(t.procs[q], k, exp))
    && (acts == [] || CountedDuring(g, s, acts[..|acts| - 1], k, x, exp))
  }

  lemma CountKeepsDeadline(g: Geo, s: seq<Cell>, p: Proc, ms: u64, v: Value, k: Key, x: nat, exp: nat)
    requires g.Valid() && |s| == g.n && !Finished(p) && CountsBefore(p, k, exp) && IsCopy(s, k, x) && s[x].exp == exp
    ensures var e := VisitEffect(g, s, p, ms, v); e.slot < g.n && (IsCopy(s[e.slot := e.cell], k, x) ==> s[e.slot := e.cell][x].exp == exp)
  {
  }

  /** Counting never moves the deadline of a counter that has not expired, also where an increment finds that
      another has stored the key in the slot it chose. */
  lemma {:induction false} CountsKeepDeadline(g: Geo, s: State, acts: seq<Action>, k: Key, x: nat, exp: nat)
    requires g.Valid() && |s.slots| == g.n && Runs(g, s, acts) && CountedDuring(g, s, acts, k, x, exp)
    requires IsCopy(s.slots, k, x) && s.slots[x].exp == exp
    ensures IsCopy(After(g, s, acts).slots, k, x) && After(g, s, acts).slots[x].exp == exp
  {
    if acts != [] {
      var init, a := acts[..|acts| - 1], acts[|acts| - 1];
      CountsKeepDeadline(g, s, init, k, x, exp);
      var t := After(g, s, init);
      if a.Visit? {
        var p := t.procs[a.p];
        if Changes(p, k) {
          CountKeepsDeadline(g, t.slots, p, a.ms, a.v, k, x, exp);
        } else {
          OthersLeave(g, t.slots, p, a.ms, a.v, k);
        }
        hide VisitEffect;
      }
    }
  }

  // ---- Set, then get ----

  /** A set, and after it, before any other write, touch or removal of its key, a get: the get is given what
      was set, until the deadline. */
  lemma SetIsRead(g: Geo, s: State, during: seq<Action>, after: seq<Action>, k: Key, v: Value, exp: nat, now: nat, later: nat, p: nat, q: nat)
    requires g.Valid() && Inv(g, s) && AtMostOne(s.slots, k)
    requires p in s.procs && s.procs[p] == Begin(Set(k, v, exp, now))
    requires Runs(g, s, during) && OnlyByDuring(g, s, during, k, p)
    requires p in After(g, s, during).procs && After(g, s, during).procs[p].SetDone?
    requires Enabled(g, After(g, s, during), Start(q, Get(k, later)))
    requires var u := Next(g, After(g, s, during), Start(q, Get(k, later)));
      Runs(g, u, after) && KeptDuring(g, u, after, k) && q in After(g, u, after).procs && After(g, u, after).procs[q].GetDone?
    ensures var u := Next(g, After(g, s, during), Start(q, Get(k, later)));
      After(g, u, after).procs[q].value == if exp != 0 && exp < later then None else Some(v)
  {
    hide Runs, After, AllHave, KeptDuring, OnlyByDuring, ChainInv, ProcInv;
    var t := After(g, s, during);
    SetMeansSet(g, s, during, k, v, exp, now, p);
    ChainsHold(g, s, during);
    StepKeepsInv(g, t, Start(q, Get(k, later)));
    GetIsGiven(g, Next(g, t, Start(q, Get(k, later))), after, k, v, exp, later, q);
  }
}
