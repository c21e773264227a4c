/** What the SQL table alone answers, by what reads of it are given at every later time. */
module TableLaws {
  import opened Common
  import opened Namespace
  import opened TwoTier

  /** What a read of `k` at time `at` is given. */
  function Read(env: Env, t: Table, k: Key, at: nat): Option<Bytes> {
    var out := Alone(env, t, Call(Get(k), at)).1;
    if out.Value? then out.v else None
  }

  /** No read of the key, at any time, tells the tables apart. */
  ghost predicate SameReads(env: Env, t: Table, t': Table, k: Key) {
    forall at: nat :: Read(env, t', k, at) == Read(env, t, k, at)
  }

  /** Reads of the key are given `v` up to the deadline, if there is one, and then nothing. */
  ghost predicate ReadsUntil(env: Env, t: Table, k: Key, v: Bytes, deadline: Option<nat>) {
    forall at: nat :: Read(env, t, k, at) == if deadline.None? || at < deadline.value then Some(v) else None
  }

  function Deadline(ttl: nat, now: nat): Option<nat> {
    if ttl == 0 then None else Some(now + ttl)
  }

  /** A read answers with a value or with nothing, and leaves the table. */
  lemma GetReads(env: Env, t: Table, k: Key, now: nat)
    ensures Alone(env, t, Call(Get(k), now)) == (t, Value(Read(env, t, k, now)))
  {
  }

  /** After a set, reads are given the value until it expires. */
  lemma SetIsRead(env: Env, t: Table, k: Key, v: Bytes, ttl: nat, now: nat)
    ensures var (t', out) := Alone(env, t, Call(Set(k, v, ttl), now)); out == Flag(true) && ReadsUntil(env, t', k, v, Deadline(ttl, now))
  {
  }

  /** An add succeeds exactly where a read at that moment is given nothing, and then is a set; otherwise
      nothing changes for any read. */
  lemma AddIffNothingIsRead(env: Env, t: Table, k: Key, v: Bytes, ttl: nat, now: nat)
    ensures var (t', out) := Alone(env, t, Call(Add(k, v, ttl), now));
      && out == Flag(Read(env, t, k, now).None?)
      && (out == Flag(true) ==> ReadsUntil(env, t', k, v, Deadline(ttl, now)))
      && (out == Flag(false) ==> SameReads(env, t, t', k))
  {
  }

  /** A delete says whether there was a row, expired or not, and afterwards nothing is read. */
  lemma DeletedIsNotRead(env: Env, t: Table, k: Key, now: nat)
    ensures var (t', out) := Alone(env, t, Call(Delete(k), now));
      && out == Flag(env.row(k) in t)
      && forall at: nat :: Read(env, t', k, at).None?
  {
  }

  /** The deadline of a key's row; a key without a row gets the new one. */
  function RowDeadline(env: Env, t: Table, k: Key, other: Option<nat>): Option<nat> {
    if env.row(k) in t then t[env.row(k)].expires else other
  }

  /** An increment adds to the number stored, or to 0 where nothing is read. The sum is read until the row's
      own deadline. */
  lemma IncrementAdds(env: Env, t: Table, k: Key, delta: int, ttl: nat, now: nat)
    ensures var (t', out) := Alone(env, t, Call(Increment(k, delta, ttl), now)); var q := env.row(k);
      && out.Count?
      && out.n == delta + (if Read(env, t, k, now).None? then 0
                           else match t[q].cell case Blob(b) => env.cast(b) case Number(n) => n)
      && ReadsUntil(env, t', k, env.render(out.n), RowDeadline(env, t, k, Deadline(ttl, now)))
      && q in t' && t'[q].cell == Number(out.n)
  {
  }

  /** So increments of a key that has not expired add up, and the first counts from what was set. */
  lemma IncrementsAddUp(env: Env, t: Table, k: Key, v: Bytes, d: int, d': int, ttl: nat, ttl': nat, now: nat, later: nat, last: nat)
    requires ttl == 0 || (later < now + ttl && last < now + ttl)
    ensures var t1 := Alone(env, t, Call(Set(k, v, ttl), now)).0;
      var (t2, one) := Alone(env, t1, Call(Increment(k, d, ttl'), later));
      one == Count(env.cast(v) + d) && Alone(env, t2, Call(Increment(k, d', ttl'), last)).1 == Count(env.cast(v) + d + d')
  {
    var t1 := Alone(env, t, Call(Set(k, v, ttl), now)).0;
    assert t1[env.row(k)].cell == Blob(v) && t1[env.row(k)].expires == Deadline(ttl, now);
    SetIsRead(env, t, k, v, ttl, now);
    IncrementAdds(env, t1, k, d, ttl', later);
    var t2 := Alone(env, t1, Call(Increment(k, d, ttl'), later)).0;
    hide Alone;
    IncrementAdds(env, t2, k, d', ttl', last);
  }

  /** A touch says whether anything is read now, and if so moves the deadline of what is read. */
  lemma TouchMovesDeadline(env: Env, t: Table, k: Key, ttl: nat, now: nat)
    ensures var (t', out) := Alone(env, t, Call(Touch(k, ttl), now)); var r := Read(env, t, k, now);
      && out == Flag(r.Some?)
      && (r.Some? ==> ReadsUntil(env, t', k, r.value, Deadline(ttl, now)))
      && (r.None? ==> SameReads(env, t, t', k))
  {
  }

  /** No call but a flush changes what is read of a key in another row. */
  lemma OtherRowsRead(env: Env, t: Table, c: Call, k: Key)
    requires !c.op.Flush? && (c.op.Get? || c.op.Evict? || env.row(k) != env.row(c.op.k))
    ensures SameReads(env, t, Alone(env, t, c).0, k)
  {
  }

  /** A flush takes exactly the rows it is said to take. */
  lemma FlushTakes(env: Env, t: Table, a: App, now: nat, k: Key)
    ensures var (t', out) := Alone(env, t, Call(Flush(a), now));
      && out == Nothing
      && (env.flushes(a, env.row(k)) ==> forall at: nat :: Read(env, t', k, at).None?)
      && (!env.flushes(a, env.row(k)) ==> SameReads(env, t, t', k))
  {
  }

  // ---- Locks ----

  predicate Before(at: nat, deadline: Option<nat>) {
    deadline.None? || at < deadline.value
  }

  /** The call does not take away what is read of `k` until the deadline: it is a read, an add before then, a
      flush of other rows, or about another row. */
  predicate Spares(env: Env, c: Call, k: Key, deadline: Option<nat>) {
    match c.op
    case Get(_) => true
    case Evict(_) => true
    case Flush(a) => !env.flushes(a, env.row(k))
    case Add(j, _, _) => Before(c.now, deadline) || env.row(j) != env.row(k)
    case _ => env.row(c.op.k) != env.row(k)
  }

  lemma SparedIsRead(env: Env, t: Table, c: Call, k: Key, v: Bytes, deadline: Option<nat>)
    requires ReadsUntil(env, t, k, v, deadline) && Spares(env, c, k, deadline)
    ensures ReadsUntil(env, Alone(env, t, c).0, k, v, deadline)
    ensures c.op.Add? && env.row(c.op.k) == env.row(k) ==> Alone(env, t, c).1 == Flag(false)
  {
    hide Alone;
    match c.op
    case Flush(a) => FlushTakes(env, t, a, c.now, k);
    case Add(j, w, ttl) =>
      if env.row(j) == env.row(k) {
        SameRowReads(env, t, j, k);
        AddIffNothingIsRead(env, t, j, w, ttl, c.now);
        SameRowReads(env, Alone(env, t, c).0, j, k);
      } else {
        OtherRowsRead(env, t, c, k);
      }
    case _ => OtherRowsRead(env, t, c, k);
  }

  lemma SameRowReads(env: Env, t: Table, j: Key, k: Key)
    requires env.row(j) == env.row(k)
    ensures forall at: nat :: Read(env, t, j, at) == Read(env, t, k, at)
  {
  }

  lemma {:induction false} SparedByAll(env: Env, t: Table, calls: seq<Call>, k: Key, v: Bytes, deadline: Option<nat>)
    requires ReadsUntil(env, t, k, v, deadline) && forall i | 0 <= i < |calls| :: Spares(env, calls[i], k, deadline)
    ensures ReadsUntil(env, RunAlone(env, t, calls), k, v, deadline)
  {
    hide Alone, ReadsUntil, Spares;
    if calls != [] {
      var init := calls[..|calls| - 1];
      SparedByAll(env, t, init, k, v, deadline);
      SparedIsRead(env, RunAlone(env, t, init), calls[|calls| - 1], k, v, deadline);
    }
  }

  /** A lock has one holder: after an add that succeeded, through any run of calls that do not take its row
      away, every add of the key before the deadline is refused, and the first value is what is read. */
  lemma OneHolder(env: Env, t: Table, k: Key, v: Bytes, ttl: nat, now: nat, calls: seq<Call>, c: Call)
    requires Alone(env, t, Call(Add(k, v, ttl), now)).1 == Flag(true)
    requires forall i | 0 <= i < |calls| :: Spares(env, calls[i], k, Deadline(ttl, now))
    requires c.op.Add? && c.op.k == k
    ensures var t' := RunAlone(env, Alone(env, t, Call(Add(k, v, ttl), now)).0, calls);
      && ReadsUntil(env, t', k, v, Deadline(ttl, now))
      && Alone(env, t', c).1 == Flag(!Before(c.now, Deadline(ttl, now)))
  {
    hide Alone, Spares;
    AddIffNothingIsRead(env, t, k, v, ttl, now);
    var t' := RunAlone(env, Alone(env, t, Call(Add(k, v, ttl), now)).0, calls);
    SparedByAll(env, Alone(env, t, Call(Add(k, v, ttl), now)).0, calls, k, v, Deadline(ttl, now));
    AddIffNothingIsRead(env, t', k, c.op.v, c.op.ttl, c.now);
  }
}
