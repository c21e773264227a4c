/** The durable cache with many workers: a call's access to the SQL table and its update of the front are
    two steps, and the steps of different workers interleave. */
module TwoTierSteps {
  import opened Common
  import opened Namespace
  import opened TwoTier

  // ---- The step system ----

  /** What a worker still has to do: read the table after a miss in front, put a value in front that it took
      from the table, or gave it, at time `at`, or drop from the front what it has written over. */
  datatype Rest =
    | Missed(k: Key)
    | Fill(k: Key, v: Bytes, ttl: nat, at: nat)
    | Drop(k: Key)
    | Sweep(a: App)

  datatype World = World(tiers: Tiers, rest: map<nat, Rest>)

  datatype Step =
    | Enter(p: nat, c: Call)
    | Load(p: nat, now: nat)
    | Settle(p: nat, now: nat)

  predicate Can(w: World, a: Step) {
    match a
    case Enter(p, _) => p !in w.rest
    case Load(p, _) => p in w.rest && w.rest[p].Missed?
    case Settle(p, _) => p in w.rest && !w.rest[p].Missed?
  }

  /** What is left to do of a call that has written the table, by its answer. */
  function After(c: Call, out: Out): Rest
    requires !c.op.Get? && !c.op.Evict?
  {
    if c.op.Set? || (c.op.Add? && out == Flag(true)) then Fill(c.op.k, c.op.v, c.op.ttl, c.now)
    else if c.op.Flush? then Sweep(c.op.a)
    else Drop(c.op.k)
  }

  ghost function Entered(env: Env, w: World, p: nat, c: Call): World {
    var s := w.tiers;
    match c.op
    case Get(k) =>
      var (f, hit) := FrontGet(s.front, k, c.now);
      World(s.(front := f), if hit.Some? then w.rest else w.rest[p := Missed(k)])
    case Evict(k) => World(s.(front := s.front - {k}), w.rest)
    case _ =>
      var (t, out) := Alone(env, s.table, c);
      World(s.(table := t), w.rest[p := After(c, out)])
  }

  ghost function Loaded(env: Env, w: World, p: nat, now: nat): World
    requires Can(w, Load(p, now))
  {
    var k := w.rest[p].k;
    var v := DoGet(env, w.tiers.table, env.row(k), now);
    if v.Some? && env.row(k) in w.tiers.table then w.(rest := w.rest[p := Fill(k, v.value, TtlOf(w.tiers.table[env.row(k)], now), now)])
    else w.(rest := w.rest - {p})
  }

  ghost function Settled(env: Env, f: Front, r: Rest, now: nat): Front {
    match r
    case Missed(_) => f
    case Fill(k, v, ttl, _) => FrontSet(env, f, k, v, ttl, now)
    case Drop(k) => f - {k}
    case Sweep(a) => FrontFlush(f, a)
  }

  ghost function Next(env: Env, w: World, a: Step): World
    requires Can(w, a)
  {
    match a
    case Enter(p, c) => Entered(env, w, p, c)
    case Load(p, now) => Loaded(env, w, p, now)
    case Settle(p, now) => World(w.tiers.(front := Settled(env, w.tiers.front, w.rest[p], now)), w.rest - {p})
  }

  ghost predicate Runs(env: Env, acts: seq<Step>)
    decreases |acts|, 0
  {
    acts == [] || (var init := acts[..|acts| - 1]; Runs(env, init) && Can(Reached(env, init), acts[|acts| - 1]))
  }

  ghost function Reached(env: Env, acts: seq<Step>): World
    requires Runs(env, acts)
    decreases |acts|, 1
  {
    if acts == [] then World(Cold, map[]) else Next(env, Reached(env, acts[..|acts| - 1]), acts[|acts| - 1])
  }

  /** The run uses keys from `keys`. */
  ghost predicate Over(acts: seq<Step>, keys: iset<Key>) {
    forall i | 0 <= i < |acts| && acts[i].Enter? && !acts[i].c.op.Flush? :: acts[i].c.op.k in keys
  }

  // ---- What is asked of it ----

  /** The worker has still to store, drop or sweep this key in front. */
  predicate Mends(r: Rest, k: Key) {
    match r
    case Missed(_) => false
    case Fill(j, _, _, _) => j == k
    case Drop(j) => j == k
    case Sweep(a) => Prefix(a) <= k
  }

  /** What the front holds is what the table says, or some call under way has still to see to it. */
  ghost predicate Mended(env: Env, w: World) {
    forall k | k in w.tiers.front ::
      || Agrees(env, w.tiers.table, k, w.tiers.front[k].val, w.tiers.front[k].exp)
      || exists p :: p in w.rest && Mends(w.rest[p], k)
  }

  ghost predicate AlwaysMended(env: Env, acts: seq<Step>)
    requires Runs(env, acts)
  {
    Mended(env, Reached(env, acts)) && (acts == [] || AlwaysMended(env, acts[..|acts| - 1]))
  }

  /** A worker leaves in front a value or a deadline that is not the row's, and no other call under way will
      see to it. */
  ghost predicate LeavesOld(env: Env, w: World, a: Step) {
    a.Settle? && a.p in w.rest && w.rest[a.p].Fill? &&
    var r := w.rest[a.p];
    var f := FrontSet(env, w.tiers.front, r.k, r.v, r.ttl, a.now);
    && r.k in f && !Agrees(env, w.tiers.table, r.k, f[r.k].val, f[r.k].exp)
    && forall q | q in w.rest && q != a.p :: !Mends(w.rest[q], r.k)
  }

  ghost predicate NeverLeavesOld(env: Env, acts: seq<Step>)
    requires Runs(env, acts)
  {
    acts == [] || (var init := acts[..|acts| - 1]; NeverLeavesOld(env, init) && !LeavesOld(env, Reached(env, init), acts[|acts| - 1]))
  }

  // ---- What every run keeps ----

  ghost predicate Kept(w: World, keys: iset<Key>) {
    && (forall k | k in w.tiers.front :: k in keys && Cacheable(k))
    && forall p | p in w.rest && !w.rest[p].Sweep? :: w.rest[p].k in keys
  }

  ghost predicate StepOver(a: Step, keys: iset<Key>) {
    a.Enter? && !a.c.op.Flush? ==> a.c.op.k in keys
  }

  lemma KeptStep(env: Env, w: World, a: Step, keys: iset<Key>)
    requires Kept(w, keys) && Can(w, a) && StepOver(a, keys)
    ensures Kept(Next(env, w, a), keys)
  {
    hide DoGet, Alone;
  }

  lemma {:induction false} RunKept(env: Env, acts: seq<Step>, keys: iset<Key>)
    requires Runs(env, acts) && Over(acts, keys)
    ensures Kept(Reached(env, acts), keys)
  {
    hide Next, Can;
    if acts != [] {
      var init := acts[..|acts| - 1];
      RunKept(env, init, keys);
      KeptStep(env, Reached(env, init), acts[|acts| - 1], keys);
    }
  }

  /** A call that writes changes at most the row of its key. */
  lemma OneRow(env: Env, t: Table, c: Call, q: Key)
    requires !c.op.Flush? && !c.op.Evict? && q != env.row(c.op.k)
    ensures var t' := Alone(env, t, c).0; (q in t' <==> q in t) && (q in t ==> t'[q] == t[q])
  {
  }

  lemma WriteAgrees(env: Env, t: Table, c: Call, keys: iset<Key>, j: Key, val: Bytes, exp: nat)
    requires RowsDistinct(env, keys) && FlushesOwn(env, keys) && j in keys && Agrees(env, t, j, val, exp)
    requires !c.op.Get? && !c.op.Evict? && (!c.op.Flush? ==> c.op.k in keys && j != c.op.k) && (c.op.Flush? ==> !(Prefix(c.op.a) <= j))
    ensures Agrees(env, Alone(env, t, c).0, j, val, exp)
  {
    hide Alone;
    if c.op.Flush? {
      FlushSpares(env, t, c.op.a, keys, j, val, exp);
      FlushOnly(env, t, c);
    } else {
      OneRow(env, t, c, env.row(j));
    }
  }

  lemma FlushOnly(env: Env, t: Table, c: Call)
    requires c.op.Flush?
    ensures Alone(env, t, c).0 == DoFlush(env, t, c.op.a)
  {
  }

  lemma AfterMends(c: Call, out: Out, k: Key)
    requires !c.op.Get? && !c.op.Evict? && (if c.op.Flush? then Prefix(c.op.a) <= k else c.op.k == k)
    ensures Mends(After(c, out), k)
  {
  }

  lemma WriteKeeps(env: Env, w: World, p: nat, c: Call, keys: iset<Key>)
    requires Mended(env, w) && Kept(w, keys) && RowsDistinct(env, keys) && FlushesOwn(env, keys)
    requires p !in w.rest && !c.op.Get? && !c.op.Evict? && (!c.op.Flush? ==> c.op.k in keys)
    ensures Mended(env, Entered(env, w, p, c))
  {
    hide RowsDistinct, FlushesOwn, Alone, After, Mends, Agrees;
    var w' := Entered(env, w, p, c);
    var (t, out) := Alone(env, w.tiers.table, c);
    assert w' == World(w.tiers.(table := t), w.rest[p := After(c, out)]);
    forall j | j in w'.tiers.front
      ensures Agrees(env, t, j, w'.tiers.front[j].val, w'.tiers.front[j].exp) || exists q :: q in w'.rest && Mends(w'.rest[q], j)
    {
      var h := w.tiers.front[j];
      if if c.op.Flush? then Prefix(c.op.a) <= j else c.op.k == j {
        AfterMends(c, out, j);
        assert Mends(w'.rest[p], j);
      } else if Agrees(env, w.tiers.table, j, h.val, h.exp) {
        WriteAgrees(env, w.tiers.table, c, keys, j, h.val, h.exp);
      } else {
        var q :| q in w.rest && Mends(w.rest[q], j);
        assert w'.rest[q] == w.rest[q];
      }
    }
  }

  /** A step that leaves the table, takes entries from the front at most, and takes no mender away. */
  lemma LossKeeps(env: Env, w: World, w': World)
    requires Mended(env, w) && w'.tiers.table == w.tiers.table && Submap(w'.tiers.front, w.tiers.front)
    requires forall q, k | q in w.rest && k in w'.tiers.front && Mends(w.rest[q], k) :: q in w'.rest && Mends(w'.rest[q], k)
    ensures Mended(env, w')
  {
    hide Mends, Agrees;
    forall j | j in w'.tiers.front && !Agrees(env, w'.tiers.table, j, w'.tiers.front[j].val, w'.tiers.front[j].exp)
      ensures exists q :: q in w'.rest && Mends(w'.rest[q], j)
    {
      var q :| q in w.rest && Mends(w.rest[q], j);
      assert q in w'.rest && Mends(w'.rest[q], j);
    }
  }

  lemma FillKeeps(env: Env, w: World, p: nat, now: nat)
    requires Mended(env, w) && Can(w, Settle(p, now)) && w.rest[p].Fill? && !LeavesOld(env, w, Settle(p, now))
    ensures Mended(env, Next(env, w, Settle(p, now)))
  {
    hide Agrees;
    var r, w' := w.rest[p], Next(env, w, Settle(p, now));
    forall j | j in w'.tiers.front && !Agrees(env, w'.tiers.table, j, w'.tiers.front[j].val, w'.tiers.front[j].exp)
      ensures exists q :: q in w'.rest && Mends(w'.rest[q], j)
    {
      if j == r.k {
        var q :| q in w.rest && q != p && Mends(w.rest[q], j);
        assert w'.rest[q] == w.rest[q];
      } else {
        assert j in w.tiers.front && w'.tiers.front[j] == w.tiers.front[j];
        var q :| q in w.rest && Mends(w.rest[q], j);
        assert q in w'.rest && w'.rest[q] == w.rest[q];
      }
    }
  }

  lemma StepKeeps(env: Env, w: World, a: Step, keys: iset<Key>)
    requires Mended(env, w) && Kept(w, keys) && RowsDistinct(env, keys) && FlushesOwn(env, keys)
    requires Can(w, a) && StepOver(a, keys) && !LeavesOld(env, w, a)
    ensures Mended(env, Next(env, w, a))
  {
    hide Mended, LeavesOld, RowsDistinct, FlushesOwn, Alone, DoGet;
    match a
    case Enter(p, c) =>
      if c.op.Get? || c.op.Evict? {
        LossKeeps(env, w, Next(env, w, a));
      } else {
        WriteKeeps(env, w, p, c, keys);
      }
    case Load(_, _) => LossKeeps(env, w, Next(env, w, a));
    case Settle(p, now) =>
      if w.rest[p].Fill? {
        FillKeeps(env, w, p, now);
      } else {
        LossKeeps(env, w, Next(env, w, a));
      }
  }

  lemma OldIsLeft(env: Env, w: World, a: Step)
    requires Can(w, a) && LeavesOld(env, w, a)
    ensures !Mended(env, Next(env, w, a))
  {
    hide FrontSet, Agrees;
    var w' := Next(env, w, a);
    assert forall q | q in w'.rest :: w'.rest[q] == w.rest[q] && q != a.p;
  }

  /** Over keys that share no row, however the workers interleave: throughout the run the front holds what
      the table says, or a call under way will see to it, exactly when no worker leaves in front what is
      not the row's with nobody to see to it. */
  lemma {:induction false} MendedIffNothingOldIsLeft(env: Env, acts: seq<Step>, keys: iset<Key>)
    requires Runs(env, acts) && Over(acts, keys) && RowsDistinct(env, keys) && FlushesOwn(env, keys)
    ensures AlwaysMended(env, acts) <==> NeverLeavesOld(env, acts)
  {
    hide RowsDistinct, FlushesOwn, Mended, LeavesOld, Next, Can, Kept;
    if acts == [] {
      NothingHeld(env);
    } else {
      var init, a := acts[..|acts| - 1], acts[|acts| - 1];
      MendedIffNothingOldIsLeft(env, init, keys);
      RunKept(env, init, keys);
      if LeavesOld(env, Reached(env, init), a) {
        OldIsLeft(env, Reached(env, init), a);
      } else if AlwaysMended(env, init) {
        StepKeeps(env, Reached(env, init), a, keys);
      }
    }
  }

  lemma NothingHeld(env: Env)
    ensures Mended(env, World(Cold, map[]))
  {
  }

  /** Where nobody has anything left to do for a key, a hit is what the table would answer, but in the second
      the entry expires. */
  lemma HitIsCurrent(env: Env, w: World, k: Key, now: nat)
    requires Mended(env, w) && k in w.tiers.front && forall p | p in w.rest :: !Mends(w.rest[p], k)
    ensures FrontGet(w.tiers.front, k, now).1 == DoGet(env, w.tiers.table, env.row(k), now) || w.tiers.front[k].exp == now
  {
  }

  // ---- A condition workers can keep ----

  /** The row is not the same in both tables. */
  predicate Changes(t: Table, t': Table, q: Key) {
    (q in t) != (q in t') || (q in t && t'[q] != t[q])
  }

  /** No call changes a row while another worker has yet to put in front what it took from it, and values go
      in front within the second they were taken, and fit. */
  ghost predicate Smooth(env: Env, w: World, a: Step) {
    match a
    case Enter(_, c) =>
      forall q | q in w.rest && w.rest[q].Fill? :: !Changes(w.tiers.table, Alone(env, w.tiers.table, c).0, env.row(w.rest[q].k))
    case Load(_, _) => true
    case Settle(p, now) =>
      p in w.rest && w.rest[p].Fill? ==> |w.rest[p].v| <= VAL_LARGE && (w.rest[p].ttl == 0 || now == w.rest[p].at)
  }

  ghost predicate RunsSmoothly(env: Env, acts: seq<Step>)
    requires Runs(env, acts)
  {
    acts == [] || (var init := acts[..|acts| - 1]; RunsSmoothly(env, init) && Smooth(env, Reached(env, init), acts[|acts| - 1]))
  }

  function Deadline(r: Rest): nat
    requires r.Fill?
  {
    if 0 < r.ttl then r.at + r.ttl else 0
  }

  /** What the workers carry is still what the rows say. */
  ghost predicate Current(env: Env, w: World) {
    forall p | p in w.rest && w.rest[p].Fill? && Cacheable(w.rest[p].k) ::
      Agrees(env, w.tiers.table, w.rest[p].k, w.rest[p].v, Deadline(w.rest[p]))
  }

  lemma UnchangedAgrees(env: Env, t: Table, t': Table, k: Key, val: Bytes, exp: nat)
    requires Agrees(env, t, k, val, exp) && !Changes(t, t', env.row(k))
    ensures Agrees(env, t', k, val, exp)
  {
  }

  lemma FillIsCurrent(env: Env, t: Table, c: Call)
    requires !c.op.Get? && !c.op.Evict?
    ensures var (t', out) := Alone(env, t, c); var r := After(c, out);
      r.Fill? && Cacheable(r.k) ==> Agrees(env, t', r.k, r.v, Deadline(r))
  {
  }

  lemma EnterCurrent(env: Env, w: World, p: nat, c: Call)
    requires Current(env, w) && p !in w.rest && Smooth(env, w, Enter(p, c))
    ensures Current(env, Entered(env, w, p, c))
  {
    hide Agrees, Alone, FrontGet, Cacheable;
    if !c.op.Get? && !c.op.Evict? {
      FillIsCurrent(env, w.tiers.table, c);
      var w' := Entered(env, w, p, c);
      forall q | q in w'.rest && q != p && w'.rest[q].Fill? && Cacheable(w'.rest[q].k)
        ensures Agrees(env, w'.tiers.table, w'.rest[q].k, w'.rest[q].v, Deadline(w'.rest[q]))
      {
        UnchangedAgrees(env, w.tiers.table, w'.tiers.table, w.rest[q].k, w.rest[q].v, Deadline(w.rest[q]));
      }
    }
  }

  lemma CurrentStep(env: Env, w: World, a: Step)
    requires Current(env, w) && Can(w, a) && Smooth(env, w, a)
    ensures Current(env, Next(env, w, a))
  {
    hide Smooth, Alone, Settled;
    match a
    case Enter(p, c) => EnterCurrent(env, w, p, c);
    case Load(p, now) =>
    case Settle(p, now) =>
  }

  lemma CurrentLeavesNothing(env: Env, w: World, a: Step, keys: iset<Key>)
    requires Current(env, w) && Kept(w, keys) && Can(w, a) && Smooth(env, w, a)
    ensures !LeavesOld(env, w, a)
  {
    hide Agrees, Alone;
  }

  lemma {:induction false} SmoothLeavesNothing(env: Env, acts: seq<Step>, keys: iset<Key>)
    requires Runs(env, acts) && Over(acts, keys) && RunsSmoothly(env, acts)
    ensures NeverLeavesOld(env, acts) && Current(env, Reached(env, acts))
  {
    hide LeavesOld, Next, Can, Smooth, Kept;
    if acts != [] {
      var init, a := acts[..|acts| - 1], acts[|acts| - 1];
      SmoothLeavesNothing(env, init, keys);
      RunKept(env, init, keys);
      CurrentLeavesNothing(env, Reached(env, init), a, keys);
      CurrentStep(env, Reached(env, init), a);
    }
  }

  /** So after every such run, once no call is under way, the tiers are coherent and the next call answers as
      the table alone, but for the expiry second. */
  lemma SmoothRunsAgree(env: Env, acts: seq<Step>, keys: iset<Key>, c: Call, maxVal: nat)
    requires Runs(env, acts) && Over(acts, keys) && RunsSmoothly(env, acts) && Reached(env, acts).rest == map[]
    requires RowsDistinct(env, keys) && FlushesOwn(env, keys) && Within(c, keys, maxVal) && ValuesFit(keys, maxVal)
    ensures var s := Reached(env, acts).tiers;
      Coherent(env, s) && (Through(env, s, c).1 == Alone(env, s.table, c).1 <==> !ExpirySecond(s, c))
  {
    hide Runs, Reached, Through, Alone, RowsDistinct, FlushesOwn, ValuesFit, Within, Agrees;
    SmoothLeavesNothing(env, acts, keys);
    MendedIffNothingOldIsLeft(env, acts, keys);
    RunKept(env, acts, keys);
    StepAgrees(env, Reached(env, acts).tiers, c, keys, maxVal);
  }

  // ---- Without it ----

  lemma Extend(env: Env, acts: seq<Step>, a: Step)
    requires Runs(env, acts) && Can(Reached(env, acts), a)
    ensures Runs(env, acts + [a]) && Reached(env, acts + [a]) == Next(env, Reached(env, acts), a)
  {
    hide Next, Can;
    assert (acts + [a])[..|acts + [a]| - 1] == acts;
  }

  /** The run holds this for `k` in front, if anything, and that in its row. */
  ghost predicate Scene(env: Env, w: World, k: Key, front: Option<Held>, row: Bytes, rest: map<nat, Rest>) {
    && w.rest == rest && env.row(k) in w.tiers.table && w.tiers.table[env.row(k)] == Row(Blob(row), None)
    && (k in w.tiers.front <==> front.Some?) && (front.Some? ==> w.tiers.front[k] == front.value)
  }

  /** One worker sets the key, the entry is evicted, and a second worker reads it from the table. */
  lemma ReadBehindFront(env: Env, k: Key, v: Bytes, now: nat) returns (acts: seq<Step>)
    requires Cacheable(k) && |v| <= VAL_SMALL
    ensures Runs(env, acts) && Scene(env, Reached(env, acts), k, None, v, map[2 := Fill(k, v, 0, now)])
  {
    hide Runs, Reached;
    NoRun(env);
    acts := [];
    Extend(env, acts, Enter(1, Call(Set(k, v, 0), now)));
    acts := acts + [Enter(1, Call(Set(k, v, 0), now))];
    assert Scene(env, Reached(env, acts), k, None, v, map[1 := Fill(k, v, 0, now)]);
    Extend(env, acts, Settle(1, now));
    acts := acts + [Settle(1, now)];
    assert Scene(env, Reached(env, acts), k, Some(Held(v, 0)), v, map[]);
    Extend(env, acts, Enter(1, Call(Evict(k), now)));
    acts := acts + [Enter(1, Call(Evict(k), now))];
    Extend(env, acts, Enter(2, Call(Get(k), now)));
    acts := acts + [Enter(2, Call(Get(k), now))];
    assert Scene(env, Reached(env, acts), k, None, v, map[2 := Missed(k)]);
    Extend(env, acts, Load(2, now));
    acts := acts + [Load(2, now)];
  }

  lemma NoRun(env: Env)
    ensures Runs(env, []) && Reached(env, []) == World(Cold, map[])
  {
  }

  /** The first sets the key anew, in the table and in front, before the second puts in front what it read: every
      call has returned, and every later read is given the old value, which the table does not hold. */
  lemma SlowReaderLeavesOld(env: Env, k: Key, v: Bytes, v': Bytes, now: nat) returns (acts: seq<Step>)
    requires Cacheable(k) && |v| <= VAL_SMALL && |v'| <= VAL_SMALL && v != v'
    ensures Runs(env, acts) && Reached(env, acts).rest == map[]
    ensures forall later: nat ::
      && FrontGet(Reached(env, acts).tiers.front, k, later).1 == Some(v)
      && DoGet(env, Reached(env, acts).tiers.table, env.row(k), later) == Some(v')
  {
    hide Runs, Reached;
    acts := ReadBehindFront(env, k, v, now);
    Extend(env, acts, Enter(1, Call(Set(k, v', 0), now)));
    acts := acts + [Enter(1, Call(Set(k, v', 0), now))];
    assert Scene(env, Reached(env, acts), k, None, v', map[1 := Fill(k, v', 0, now), 2 := Fill(k, v, 0, now)]);
    Extend(env, acts, Settle(1, now));
    acts := acts + [Settle(1, now)];
    assert Scene(env, Reached(env, acts), k, Some(Held(v', 0)), v', map[2 := Fill(k, v, 0, now)]);
    Extend(env, acts, Settle(2, now));
    acts := acts + [Settle(2, now)];
    assert Scene(env, Reached(env, acts), k, Some(Held(v, 0)), v', map[]);
  }
}
