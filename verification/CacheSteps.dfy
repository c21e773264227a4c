/** The key-value region as a step system: many processes, each step one visit to one slot under
    that slot's lock. */
module CacheSteps {
  import opened Common

  const PROBE: nat := 32

  type Key = Bytes
  type Value = Bytes

  /** A slot: state 0, state 2, or state 1 with its content. */
  datatype Cell = Empty | Tomb | Live(key: Key, val: Value, exp: nat, at: u64)

  /** The table's size and hash function. */
  datatype Geo = Geo(n: nat, hash: Key -> nat) {
    predicate Valid() {
      0 < n
    }
  }

  function At(g: Geo, k: Key, i: nat): (c: nat)
    requires g.Valid()
    ensures c < g.n
  {
    Slot(g.hash(k), i, g.n)
  }

  predicate Expired(c: Cell, now: nat)
    requires c.Live?
  {
    c.exp != 0 && c.exp < now
  }

  // ---- Processes ----

  datatype Op =
    | Set(key: Key, val: Value, exp: nat, now: nat)
    | Add(key: Key, val: Value, exp: nat, now: nat)
    | Inc(key: Key, exp: nat, now: nat)
    | Delete(key: Key)
    | Touch(key: Key, exp: nat, now: nat)
    | Get(key: Key, now: nat)
    | Flush(prefix: Key)

  /** The local variables of the three probes that remember a free slot. */
  datatype SetScan = SetScan(key: Key, val: Value, exp: nat, now: nat, i: nat,
                             reuse: Option<nat>, stale: Option<nat>, victim: nat, oldest: nat)

  datatype AddScan = AddScan(key: Key, val: Value, exp: nat, now: nat, i: nat, reuse: Option<nat>)

  datatype IncScan = IncScan(key: Key, exp: nat, now: nat, i: nat, reuse: Option<nat>)

  /** Where an operation is. Slots are named by their position in the key's probe order. */
  datatype Proc =
    | SetProbe(setting: SetScan)
    | SetWrite(key: Key, val: Value, exp: nat, target: nat)
    | SetSweep(key: Key, keep: nat, i: nat)
    | AddProbe(adding: AddScan)
    | AddWrite(key: Key, val: Value, exp: nat, now: nat, target: nat)
    | IncProbe(counting: IncScan)
    | IncWrite(key: Key, exp: nat, now: nat, target: nat)
    | DelProbe(key: Key, i: nat, found: bool)
    | TouchProbe(key: Key, exp: nat, now: nat, i: nat)
    | GetProbe(key: Key, now: nat, i: nat)
    | GetReclaim(key: Key, now: nat, target: nat)
    | Flushing(prefix: Key, slot: nat)
    | SetDone(key: Key)
    | AddDone(key: Key, added: bool)
    | IncDone(key: Key)
    | DelDone(key: Key, found: bool)
    | TouchDone(key: Key, found: bool)
    | GetDone(key: Key, value: Option<Value>)
    | FlushDone
    | Dead

  predicate Finished(p: Proc) {
    p.SetDone? || p.AddDone? || p.IncDone? || p.DelDone? || p.TouchDone? || p.GetDone? || p.FlushDone? || p.Dead?
  }

  function Begin(op: Op): Proc {
    match op
    case Set(k, v, e, now) => SetProbe(SetScan(k, v, e, now, 0, None, None, 0, U64_MAX))
    case Add(k, v, e, now) => AddProbe(AddScan(k, v, e, now, 0, None))
    case Inc(k, e, now) => IncProbe(IncScan(k, e, now, 0, None))
    case Delete(k) => DelProbe(k, 0, false)
    case Touch(k, e, now) => TouchProbe(k, e, now, 0)
    case Get(k, now) => GetProbe(k, now, 0)
    case Flush(prefix) => Flushing(prefix, 0)
  }

  datatype State = State(slots: seq<Cell>, procs: map<nat, Proc>)

  /** `Visit` takes the clock reading and, for increments, the value stored. */
  datatype Action = Start(p: nat, op: Op) | Visit(p: nat, ms: u64, v: Value) | Die(p: nat)

  predicate Enabled(g: Geo, s: State, a: Action) {
    match a
    case Start(p, _) => p !in s.procs
    case Visit(p, _, _) => p in s.procs && !Finished(s.procs[p])
    case Die(p) => p in s.procs && !Finished(s.procs[p])
  }

  /** What one visit does to one slot, and where it leaves the process. */
  datatype Effect = Effect(slot: nat, cell: Cell, proc: Proc)

  function FirstFree(reuse: Option<nat>, c: Cell, i: nat): Option<nat> {
    if (c.Empty? || c.Tomb?) && reuse.None? then Some(i) else reuse
  }

  function SetNext(p: SetScan): Proc {
    if p.i < PROBE then SetProbe(p)
    else SetWrite(p.key, p.val, p.exp,
                  if p.reuse.Some? then p.reuse.value else if p.stale.Some? then p.stale.value else p.victim)
  }

  function SetVisit(g: Geo, s: seq<Cell>, p: SetScan, ms: u64): Effect
    requires g.Valid() && |s| == g.n
  {
    var x := At(g, p.key, p.i);
    var c := s[x];
    var reuse := FirstFree(p.reuse, c, p.i);
    if c.Live? && c.key == p.key then Effect(x, Live(p.key, p.val, p.exp, ms), SetDone(p.key))
    else if c.Empty? then Effect(x, c, SetWrite(p.key, p.val, p.exp, if reuse.Some? then reuse.value else p.i))
    else if c.Tomb? then Effect(x, c, SetNext(p.(i := p.i + 1, reuse := reuse)))
    else
      var stale := if Expired(c, p.now) && p.stale.None? then Some(p.i) else p.stale;
      var older := c.at < p.oldest;
      Effect(x, c, SetNext(p.(i := p.i + 1, stale := stale,
                              victim := if older then p.i else p.victim,
                              oldest := if older then c.at else p.oldest)))
  }

  function SweepVisit(g: Geo, s: seq<Cell>, k: Key, keep: nat, i: nat): Effect
    requires g.Valid() && |s| == g.n
  {
    var x := At(g, k, i);
    var c := s[x];
    var next := if i + 1 < PROBE then SetSweep(k, keep, i + 1) else SetDone(k);
    if x == At(g, k, keep) then Effect(x, c, next)
    else if c.Empty? then Effect(x, c, SetDone(k))
    else if c.Live? && c.key == k then Effect(x, Tomb, next)
    else Effect(x, c, next)
  }

  function AddNext(p: AddScan): Proc {
    if p.i < PROBE then AddProbe(p)
    else if p.reuse.Some? then AddWrite(p.key, p.val, p.exp, p.now, p.reuse.value)
    else AddDone(p.key, false)
  }

  function AddVisit(g: Geo, s: seq<Cell>, p: AddScan, ms: u64): Effect
    requires g.Valid() && |s| == g.n
  {
    var x := At(g, p.key, p.i);
    var c := s[x];
    var reuse := FirstFree(p.reuse, c, p.i);
    if c.Live? && c.key == p.key then
      if Expired(c, p.now) then Effect(x, Live(p.key, p.val, p.exp, ms), AddDone(p.key, true))
      else Effect(x, c, AddDone(p.key, false))
    else if c.Empty? then
      Effect(x, c, AddWrite(p.key, p.val, p.exp, p.now, if reuse.Some? then reuse.value else p.i))
    else Effect(x, c, AddNext(p.(i := p.i + 1, reuse := reuse)))
  }

  function AddCommit(g: Geo, s: seq<Cell>, p: Proc, ms: u64): Effect
    requires g.Valid() && |s| == g.n && p.AddWrite?
  {
    var x := At(g, p.key, p.target);
    var c := s[x];
    if c.Live? && !Expired(c, p.now) then Effect(x, c, AddDone(p.key, false))
    else Effect(x, Live(p.key, p.val, p.exp, ms), AddDone(p.key, true))
  }

  function IncNext(p: IncScan): Proc {
    if p.i < PROBE then IncProbe(p)
    else if p.reuse.Some? then IncWrite(p.key, p.exp, p.now, p.reuse.value)
    else IncDone(p.key)
  }

  function IncVisit(g: Geo, s: seq<Cell>, p: IncScan, ms: u64, v: Value): Effect
    requires g.Valid() && |s| == g.n
  {
    var x := At(g, p.key, p.i);
    var c := s[x];
    var reuse := FirstFree(p.reuse, c, p.i);
    if c.Live? && c.key == p.key then
      Effect(x, Live(p.key, v, if Expired(c, p.now) then p.exp else c.exp, ms), IncDone(p.key))
    else if c.Empty? then Effect(x, c, IncWrite(p.key, p.exp, p.now, if reuse.Some? then reuse.value else p.i))
    else Effect(x, c, IncNext(p.(i := p.i + 1, reuse := reuse)))
  }

  function IncCommit(g: Geo, s: seq<Cell>, p: Proc, ms: u64, v: Value): Effect
    requires g.Valid() && |s| == g.n && p.IncWrite?
  {
    var x := At(g, p.key, p.target);
    var c := s[x];
    var exp := if c.Live? && c.key == p.key && !Expired(c, p.now) then c.exp else p.exp;
    Effect(x, Live(p.key, v, exp, ms), IncDone(p.key))
  }

  function DelVisit(g: Geo, s: seq<Cell>, p: Proc): Effect
    requires g.Valid() && |s| == g.n && p.DelProbe?
  {
    var x := At(g, p.key, p.i);
    var c := s[x];
    if c.Empty? then Effect(x, c, DelDone(p.key, p.found))
    else
      var hit := c.Live? && c.key == p.key;
      var found := p.found || hit;
      Effect(x, if hit then Tomb else c,
             if p.i + 1 < PROBE then DelProbe(p.key, p.i + 1, found) else DelDone(p.key, found))
  }

  function TouchVisit(g: Geo, s: seq<Cell>, p: Proc): Effect
    requires g.Valid() && |s| == g.n && p.TouchProbe?
  {
    var x := At(g, p.key, p.i);
    var c := s[x];
    if c.Empty? then Effect(x, c, TouchDone(p.key, false))
    else if c.Live? && c.key == p.key then
      if Expired(c, p.now) then Effect(x, Tomb, TouchDone(p.key, false))
      else Effect(x, Live(c.key, c.val, p.exp, c.at), TouchDone(p.key, true))
    else Effect(x, c, if p.i + 1 < PROBE then TouchProbe(p.key, p.exp, p.now, p.i + 1) else TouchDone(p.key, false))
  }

  function GetVisit(g: Geo, s: seq<Cell>, p: Proc): Effect
    requires g.Valid() && |s| == g.n && p.GetProbe?
  {
    var x := At(g, p.key, p.i);
    var c := s[x];
    if c.Empty? then Effect(x, c, GetDone(p.key, None))
    else if c.Live? && c.key == p.key then
      Effect(x, c, if Expired(c, p.now) then GetReclaim(p.key, p.now, p.i) else GetDone(p.key, Some(c.val)))
    else Effect(x, c, if p.i + 1 < PROBE then GetProbe(p.key, p.now, p.i + 1) else GetDone(p.key, None))
  }

  function ReclaimVisit(g: Geo, s: seq<Cell>, p: Proc): Effect
    requires g.Valid() && |s| == g.n && p.GetReclaim?
  {
    var x := At(g, p.key, p.target);
    var c := s[x];
    Effect(x, if c.Live? && c.key == p.key && Expired(c, p.now) then Tomb else c, GetDone(p.key, None))
  }

  function FlushVisit(g: Geo, s: seq<Cell>, p: Proc): Effect
    requires g.Valid() && |s| == g.n && p.Flushing?
  {
    if p.slot < g.n then
      var c := s[p.slot];
      Effect(p.slot, if c.Live? && p.prefix <= c.key then Tomb else c,
             if p.slot + 1 < g.n then Flushing(p.prefix, p.slot + 1) else FlushDone)
    else Effect(0, s[0], FlushDone)
  }

  function VisitEffect(g: Geo, s: seq<Cell>, p: Proc, ms: u64, v: Value): Effect
    requires g.Valid() && |s| == g.n && !Finished(p)
  {
    match p
    case SetProbe(q) => SetVisit(g, s, q, ms)
    case SetWrite(k, val, e, t) => Effect(At(g, k, t), Live(k, val, e, ms), SetSweep(k, t, 0))
    case SetSweep(k, keep, i) => SweepVisit(g, s, k, keep, i)
    case AddProbe(q) => AddVisit(g, s, q, ms)
    case AddWrite(_, _, _, _, _) => AddCommit(g, s, p, ms)
    case IncProbe(q) => IncVisit(g, s, q, ms, v)
    case IncWrite(_, _, _, _) => IncCommit(g, s, p, ms, v)
    case DelProbe(_, _, _) => DelVisit(g, s, p)
    case TouchProbe(_, _, _, _) => TouchVisit(g, s, p)
    case GetProbe(_, _, _) => GetVisit(g, s, p)
    case GetReclaim(_, _, _) => ReclaimVisit(g, s, p)
    case Flushing(_, _) => FlushVisit(g, s, p)
  }

  function Next(g: Geo, s: State, a: Action): State
    requires g.Valid() && |s.slots| == g.n && Enabled(g, s, a)
  {
    match a
    case Start(p, op) => s.(procs := s.procs[p := Begin(op)])
    case Visit(p, ms, v) =>
      var e := VisitEffect(g, s.slots, s.procs[p], ms, v);
      if e.slot < |s.slots| then State(s.slots[e.slot := e.cell], s.procs[p := e.proc]) else s
    case Die(p) => s.(procs := s.procs[p := Dead])
  }

  predicate Runs(g: Geo, s: State, acts: seq<Action>)
    requires g.Valid() && |s.slots| == g.n
    decreases |acts|, 0
  {
    acts == [] ||
    (Runs(g, s, acts[..|acts| - 1]) && Enabled(g, After(g, s, acts[..|acts| - 1]), acts[|acts| - 1]))
  }

  /** The state after a whole interleaving, from `s`. */
  function After(g: Geo, s: State, acts: seq<Action>): (t: State)
    requires g.Valid() && |s.slots| == g.n && Runs(g, s, acts)
    ensures |t.slots| == g.n
    decreases |acts|, 1
  {
    if acts == [] then s
    else Next(g, After(g, s, acts[..|acts| - 1]), acts[|acts| - 1])
  }

  // ---- The probe-chain invariant ----

  /** The slots before position `j` of the key's probe order are not empty. */
  ghost predicate Reached(g: Geo, s: seq<Cell>, k: Key, j: nat)
    requires g.Valid() && |s| == g.n
  {
    forall i | 0 <= i < j :: !s[At(g, k, i)].Empty?
  }

  /** A position at which slot `x` is found when looking for `k`. */
  ghost predicate FoundAt(g: Geo, s: seq<Cell>, k: Key, x: nat, j: nat)
    requires g.Valid() && |s| == g.n
  {
    j < PROBE && At(g, k, j) == x && Reached(g, s, k, j)
  }

  ghost predicate Findable(g: Geo, s: seq<Cell>, k: Key, x: nat)
    requires g.Valid() && |s| == g.n
  {
    exists j: nat :: FoundAt(g, s, k, x, j)
  }

  predicate IsCopy(s: seq<Cell>, k: Key, x: nat) {
    x < |s| && s[x].Live? && s[x].key == k
  }

  ghost predicate ChainInv(g: Geo, s: seq<Cell>)
    requires g.Valid() && |s| == g.n
  {
    forall x | 0 <= x < |s| && s[x].Live? :: Findable(g, s, s[x].key, x)
  }

  predicate Below(o: Option<nat>, i: nat) {
    o.Some? ==> o.value < i
  }

  ghost predicate ProcInv(g: Geo, s: seq<Cell>, p: Proc)
    requires g.Valid() && |s| == g.n
  {
    match p
    case SetProbe(q) =>
      && q.i < PROBE && Reached(g, s, q.key, q.i)
      && Below(q.reuse, q.i) && Below(q.stale, q.i) && q.victim <= q.i
    case SetWrite(k, _, _, t) => t < PROBE && Reached(g, s, k, t)
    case SetSweep(k, t, i) => t < PROBE && i < PROBE
    case AddProbe(q) => q.i < PROBE && Reached(g, s, q.key, q.i) && Below(q.reuse, q.i)
    case AddWrite(k, _, _, _, t) => t < PROBE && Reached(g, s, k, t)
    case IncProbe(q) => q.i < PROBE && Reached(g, s, q.key, q.i) && Below(q.reuse, q.i)
    case IncWrite(k, _, _, t) => t < PROBE && Reached(g, s, k, t)
    case DelProbe(k, i, _) => i < PROBE && Reached(g, s, k, i)
    case TouchProbe(k, _, _, i) => i < PROBE && Reached(g, s, k, i)
    case GetProbe(k, _, i) => i < PROBE && Reached(g, s, k, i)
    case GetReclaim(k, _, t) => t < PROBE
    case Flushing(_, x) => true
    case _ => true
  }

  ghost predicate Inv(g: Geo, s: State)
    requires g.Valid()
  {
    && |s.slots| == g.n
    && ChainInv(g, s.slots)
    && forall p | p in s.procs :: ProcInv(g, s.slots, s.procs[p])
  }

  /** A non-empty slot never becomes empty. */
  ghost predicate NonEmptyStays(s: seq<Cell>, t: seq<Cell>) {
    |s| == |t| && forall x | 0 <= x < |s| && !s[x].Empty? :: !t[x].Empty?
  }

  /** What a visit may do: fill a slot it can reach with its key, tombstone one, leave one alone,
      or change a live entry without changing its key. */
  lemma VisitShape(g: Geo, s: seq<Cell>, p: Proc, ms: u64, v: Value)
    requires g.Valid() && |s| == g.n && !Finished(p) && ProcInv(g, s, p)
    ensures var e := VisitEffect(g, s, p, ms, v);
      && e.slot < g.n
      && (|| e.cell == s[e.slot]
          || (e.cell.Tomb? && s[e.slot].Live?)
          || (e.cell.Live? && s[e.slot].Live? && e.cell.key == s[e.slot].key)
          || (e.cell.Live? && Findable(g, s, e.cell.key, e.slot)))
  {
    var e := VisitEffect(g, s, p, ms, v);
    if p.SetWrite? || p.AddWrite? || p.IncWrite? {
      assert FoundAt(g, s, p.key, At(g, p.key, p.target), p.target);
    }
  }

  lemma FindableStays(g: Geo, s: seq<Cell>, t: seq<Cell>, k: Key, x: nat)
    requires g.Valid() && |s| == g.n && NonEmptyStays(s, t) && Findable(g, s, k, x)
    ensures Findable(g, t, k, x)
  {
    var j: nat :| FoundAt(g, s, k, x, j);
    assert FoundAt(g, t, k, x, j);
  }

  lemma ProcInvStays(g: Geo, s: seq<Cell>, t: seq<Cell>, p: Proc)
    requires g.Valid() && |s| == g.n && NonEmptyStays(s, t) && ProcInv(g, s, p)
    ensures ProcInv(g, t, p)
  {
  }

  lemma ReachedStep(g: Geo, s: seq<Cell>, k: Key, i: nat)
    requires g.Valid() && |s| == g.n && Reached(g, s, k, i)
    ensures !s[At(g, k, i)].Empty? ==> Reached(g, s, k, i + 1)
    ensures forall t | 0 <= t <= i :: Reached(g, s, k, t)
  {
  }

  lemma SetVisitKeepsProc(g: Geo, s: seq<Cell>, p: SetScan, ms: u64)
    requires g.Valid() && |s| == g.n && ProcInv(g, s, SetProbe(p))
    ensures ProcInv(g, s, SetVisit(g, s, p, ms).proc)
  {
    ReachedStep(g, s, p.key, p.i);
    hide Reached;
  }

  lemma AddVisitKeepsProc(g: Geo, s: seq<Cell>, p: AddScan, ms: u64)
    requires g.Valid() && |s| == g.n && ProcInv(g, s, AddProbe(p))
    ensures ProcInv(g, s, AddVisit(g, s, p, ms).proc)
  {
    ReachedStep(g, s, p.key, p.i);
    hide Reached;
  }

  lemma IncVisitKeepsProc(g: Geo, s: seq<Cell>, p: IncScan, ms: u64, v: Value)
    requires g.Valid() && |s| == g.n && ProcInv(g, s, IncProbe(p))
    ensures ProcInv(g, s, IncVisit(g, s, p, ms, v).proc)
  {
    ReachedStep(g, s, p.key, p.i);
    hide Reached;
  }

  lemma VisitKeepsProc(g: Geo, s: seq<Cell>, p: Proc, ms: u64, v: Value)
    requires g.Valid() && |s| == g.n && !Finished(p) && ProcInv(g, s, p)
    ensures ProcInv(g, s, VisitEffect(g, s, p, ms, v).proc)
  {
    hide SetVisit, AddVisit, IncVisit;
    match p
    case SetProbe(q) => SetVisitKeepsProc(g, s, q, ms);
    case AddProbe(q) => AddVisitKeepsProc(g, s, q, ms);
    case IncProbe(q) => IncVisitKeepsProc(g, s, q, ms, v);
    case DelProbe(k, i, _) => ReachedStep(g, s, k, i);
    case TouchProbe(k, _, _, i) => ReachedStep(g, s, k, i);
    case GetProbe(k, _, i) => ReachedStep(g, s, k, i);
    case _ =>
  }

  lemma VisitKeepsInv(g: Geo, s: State, p: nat, ms: u64, v: Value)
    requires g.Valid() && Inv(g, s) && Enabled(g, s, Visit(p, ms, v))
    ensures var t := Next(g, s, Visit(p, ms, v)); Inv(g, t) && NonEmptyStays(s.slots, t.slots)
  {
    hide VisitEffect, ProcInv, Findable;
    var e := VisitEffect(g, s.slots, s.procs[p], ms, v);
    VisitShape(g, s.slots, s.procs[p], ms, v);
    VisitKeepsProc(g, s.slots, s.procs[p], ms, v);
    var t := Next(g, s, Visit(p, ms, v));
    assert NonEmptyStays(s.slots, t.slots);
    forall x | 0 <= x < |t.slots| && t.slots[x].Live?
      ensures Findable(g, t.slots, t.slots[x].key, x)
    {
      FindableAgain(g, s.slots, t.slots, t.slots[x].key, x);
    }
    forall q | q in t.procs
      ensures ProcInv(g, t.slots, t.procs[q])
    {
      ProcInvStays(g, s.slots, t.slots, t.procs[q]);
    }
  }

  lemma FindableAgain(g: Geo, s: seq<Cell>, t: seq<Cell>, k: Key, x: nat)
    requires g.Valid() && |s| == g.n && NonEmptyStays(s, t)
    ensures Findable(g, s, k, x) ==> Findable(g, t, k, x)
  {
    if Findable(g, s, k, x) {
      FindableStays(g, s, t, k, x);
    }
  }

  /** Every step of every process keeps the chains, and never empties a slot. */
  lemma StepKeepsInv(g: Geo, s: State, a: Action)
    requires g.Valid() && Inv(g, s) && Enabled(g, s, a)
    ensures Inv(g, Next(g, s, a)) && NonEmptyStays(s.slots, Next(g, s, a).slots)
  {
    match a
    case Visit(p, ms, v) => VisitKeepsInv(g, s, p, ms, v);
    case Start(p, op) => assert ProcInv(g, s.slots, Begin(op));
    case Die(p) =>
  }

  /** A freshly mapped region with nothing running. */
  function Fresh(g: Geo): State {
    State(seq(g.n, _ => Empty), map[])
  }

  lemma FreshInv(g: Geo)
    requires g.Valid()
    ensures Inv(g, Fresh(g))
  {
  }

  /** In every interleaving, every live copy of a key stays findable and no slot empties. */
  lemma {:induction false} ChainsHold(g: Geo, s: State, acts: seq<Action>)
    requires g.Valid() && Inv(g, s) && Runs(g, s, acts)
    ensures Inv(g, After(g, s, acts)) && NonEmptyStays(s.slots, After(g, s, acts).slots)
  {
    hide Inv, Next, Enabled;
    if acts != [] {
      ChainsHold(g, s, acts[..|acts| - 1]);
      StepKeepsInv(g, After(g, s, acts[..|acts| - 1]), acts[|acts| - 1]);
    }
  }
}
