/** The durable cache behind its shared-memory front: reads hit the front first, writes go to the
    SQL table and then warm or invalidate the front. */
module TwoTier {
  import opened Common
  import opened Namespace
  import opened Text

  type Key = Bytes

  // ---- The SQL table: a map with expiry ----

  /** A stored cell: the bytes PHP set, or the integer a counter left. */
  datatype Cell = Blob(bytes: Bytes) | Number(n: int)

  /** `expires` is NULL for a row that never expires. */
  datatype Row = Row(cell: Cell, expires: Option<nat>)

  /** What the environment fixes: the row a key is stored in, which rows a flush of an application
      takes, SQL's integer conversions, and whether the front has its large region. */
  datatype Env = Env(row: Key -> Key, flushes: (App, Key) -> bool, cast: Bytes -> int, render: int -> Bytes, large: bool)

  type Table = map<Key, Row>

  function BytesOf(env: Env, c: Cell): Bytes {
    match c
    case Blob(b) => b
    case Number(n) => env.render(n)
  }

  function IntOf(env: Env, c: Cell): int {
    match c
    case Blob(b) => env.cast(b)
    case Number(n) => n
  }

  predicate RowLive(r: Row, now: nat) {
    r.expires.None? || r.expires.value > now
  }

  function RowExpiry(ttl: nat, now: nat): Option<nat> {
    if 0 < ttl then Some(now + ttl) else None
  }

  function DoGet(env: Env, t: Table, q: Key, now: nat): Option<Bytes> {
    if q in t && RowLive(t[q], now) then Some(BytesOf(env, t[q].cell)) else None
  }

  /** The remaining time to live of a live row, 0 for a row without expiry. */
  function TtlOf(r: Row, now: nat): nat {
    if r.expires.None? then 0 else Max(r.expires.value - now, 1)
  }

  function DoSet(t: Table, q: Key, v: Bytes, ttl: nat, now: nat): Table {
    t[q := Row(Blob(v), RowExpiry(ttl, now))]
  }

  function DoAdd(t: Table, q: Key, v: Bytes, ttl: nat, now: nat): (Table, bool) {
    if q in t && !(t[q].expires.Some? && t[q].expires.value <= now) then (t, false)
    else (DoSet(t, q, v, ttl, now), true)
  }

  function DoDelete(t: Table, q: Key): (Table, bool) {
    (t - {q}, q in t)
  }

  /** A row that exists keeps its expiry, even an expired one. */
  function DoIncrement(env: Env, t: Table, q: Key, delta: int, ttl: nat, now: nat): (Table, int) {
    if q in t then
      var n := (if RowLive(t[q], now) then IntOf(env, t[q].cell) else 0) + delta;
      (t[q := Row(Number(n), t[q].expires)], n)
    else (t[q := Row(Number(delta), RowExpiry(ttl, now))], delta)
  }

  function DoTouch(t: Table, q: Key, ttl: nat, now: nat): (Table, bool) {
    if q in t && RowLive(t[q], now) then (t[q := t[q].(expires := RowExpiry(ttl, now))], true) else (t, false)
  }

  function DoFlush(env: Env, t: Table, a: App): Table {
    map q | q in t && !env.flushes(a, q) :: t[q]
  }

  // ---- The front: the shared-memory cache as a map ----

  /** `exp` is 0 for never; the front still serves an entry in the second it expires. */
  datatype Held = Held(val: Bytes, exp: nat)

  type Front = imap<Key, Held>

  predicate HeldLive(h: Held, now: nat) {
    h.exp == 0 || now <= h.exp
  }

  ghost function FrontGet(f: Front, k: Key, now: nat): (Front, Option<Bytes>) {
    if k !in f || !Cacheable(k) then (f, None)
    else if HeldLive(f[k], now) then (f, Some(f[k].val))
    else (f - {k}, None)
  }

  /** Too large a value, or too long a key, leaves the front as it was. */
  ghost function FrontSet(env: Env, f: Front, k: Key, v: Bytes, ttl: nat, now: nat): Front {
    if !Cacheable(k) || |v| > VAL_LARGE then f
    else if |v| > VAL_SMALL && !env.large then f - {k}
    else f[k := Held(v, if 0 < ttl then now + ttl else 0)]
  }

  ghost function FrontFlush(f: Front, a: App): Front {
    imap k | k in f && !(Prefix(a) <= k) :: f[k]
  }

  // ---- Operations ----

  /** `Evict` is the environment: the front may drop any entry at any time. */
  datatype Op =
    | Get(k: Key)
    | Set(k: Key, v: Bytes, ttl: nat)
    | Add(k: Key, v: Bytes, ttl: nat)
    | Delete(k: Key)
    | Increment(k: Key, delta: int, ttl: nat)
    | Touch(k: Key, ttl: nat)
    | Flush(a: App)
    | Evict(k: Key)

  datatype Call = Call(op: Op, now: nat)

  datatype Out = Value(v: Option<Bytes>) | Flag(b: bool) | Count(n: int) | Nothing

  datatype Tiers = Tiers(front: Front, table: Table)

  /** The table alone: what the backend answers without a front. */
  function Alone(env: Env, t: Table, c: Call): (Table, Out) {
    match c.op
    case Get(k) => (t, Value(DoGet(env, t, env.row(k), c.now)))
    case Set(k, v, ttl) => (DoSet(t, env.row(k), v, ttl, c.now), Flag(true))
    case Add(k, v, ttl) => var (t', b) := DoAdd(t, env.row(k), v, ttl, c.now); (t', Flag(b))
    case Delete(k) => var (t', b) := DoDelete(t, env.row(k)); (t', Flag(b))
    case Increment(k, d, ttl) => var (t', n) := DoIncrement(env, t, env.row(k), d, ttl, c.now); (t', Count(n))
    case Touch(k, ttl) => var (t', b) := DoTouch(t, env.row(k), ttl, c.now); (t', Flag(b))
    case Flush(a) => (DoFlush(env, t, a), Nothing)
    case Evict(_) => (t, Nothing)
  }

  /** A read through the front: a hit is answered at once, a miss is populated from the table. */
  ghost function GetThrough(env: Env, s: Tiers, k: Key, now: nat): (Tiers, Out) {
    var (f, hit) := FrontGet(s.front, k, now);
    if hit.Some? then (s.(front := f), Value(hit))
    else
      var q := env.row(k);
      var v := DoGet(env, s.table, q, now);
      if v.Some? && q in s.table then
        (s.(front := FrontSet(env, f, k, v.value, TtlOf(s.table[q], now), now)), Value(v))
      else (s.(front := f), Value(None))
  }

  /** The write-through operations: the table first, then the front. */
  ghost function Through(env: Env, s: Tiers, c: Call): (Tiers, Out) {
    var (t, out) := Alone(env, s.table, c);
    match c.op
    case Get(k) => GetThrough(env, s, k, c.now)
    case Set(k, v, ttl) => (Tiers(FrontSet(env, s.front, k, v, ttl, c.now), t), out)
    case Add(k, v, ttl) =>
      (Tiers(if out == Flag(true) then FrontSet(env, s.front, k, v, ttl, c.now) else s.front - {k}, t), out)
    case Delete(k) => (Tiers(s.front - {k}, t), out)
    case Increment(k, _, _) => (Tiers(s.front - {k}, t), out)
    case Touch(k, _) => (Tiers(s.front - {k}, t), out)
    case Flush(a) => (Tiers(FrontFlush(s.front, a), t), out)
    case Evict(k) => (Tiers(s.front - {k}, t), out)
  }

  // ---- Agreement ----

  predicate SameExpiry(exp: nat, r: Row) {
    if r.expires.None? then exp == 0 else exp == r.expires.value && 0 < exp
  }

  /** An entry in the front says what the table says. */
  predicate Agrees(env: Env, t: Table, k: Key, val: Bytes, exp: nat) {
    && Cacheable(k) && env.row(k) in t
    && val == BytesOf(env, t[env.row(k)].cell)
    && SameExpiry(exp, t[env.row(k)])
  }

  ghost predicate Coherent(env: Env, s: Tiers) {
    forall k | k in s.front :: Agrees(env, s.table, k, s.front[k].val, s.front[k].exp)
  }

  /** The one way the two can answer differently: a read in the very second its entry expires. */
  ghost predicate ExpirySecond(s: Tiers, c: Call) {
    c.op.Get? && c.op.k in s.front && s.front[c.op.k].exp == c.now
  }

  predicate Cacheable(k: Key) {
    |k| <= CACHE_KEY_MAX
  }

  /** The call uses keys from `keys` and values of at most `maxVal` bytes, at a positive time. */
  ghost predicate Within(c: Call, keys: iset<Key>, maxVal: nat) {
    && 0 < c.now
    && (!c.op.Flush? ==> c.op.k in keys)
    && (c.op.Set? || c.op.Add? ==> |c.op.v| <= maxVal)
  }

  /** No other key of `keys` is stored in the row of one the front can hold. */
  ghost predicate RowsDistinct(env: Env, keys: iset<Key>) {
    forall j, k | j in keys && k in keys && Cacheable(j) && env.row(j) == env.row(k) :: j == k
  }

  /** Flushing an application takes no row of a key outside it. */
  ghost predicate FlushesOwn(env: Env, keys: iset<Key>) {
    forall a: App, k | k in keys :: env.flushes(a, env.row(k)) ==> Prefix(a) <= k
  }

  /** Values of `maxVal` bytes never go past what the front can hold, for a key it can hold. */
  ghost predicate ValuesFit(keys: iset<Key>, maxVal: nat) {
    maxVal <= VAL_LARGE || forall k | k in keys :: !Cacheable(k)
  }

  ghost predicate FrontIn(s: Tiers, keys: iset<Key>) {
    forall k | k in s.front :: k in keys
  }

  /** Tables that differ in the row of `k` only say the same of every other key. */
  lemma OtherRowsAgree(env: Env, t: Table, t': Table, keys: iset<Key>, k: Key, j: Key, val: Bytes, exp: nat)
    requires RowsDistinct(env, keys) && j in keys && k in keys && j != k && Agrees(env, t, j, val, exp)
    requires forall q | q in t && q != env.row(k) :: q in t' && t'[q] == t[q]
    ensures Agrees(env, t', j, val, exp)
  {
  }

  /** A step that touches one key only keeps the tiers coherent if it leaves that key so. */
  lemma OneKeyCoherent(env: Env, s: Tiers, s': Tiers, keys: iset<Key>, k: Key)
    requires Coherent(env, s) && FrontIn(s, keys) && RowsDistinct(env, keys) && k in keys
    requires forall j | j in s'.front :: j == k || (j in s.front && s'.front[j] == s.front[j])
    requires forall q | q in s.table && q != env.row(k) :: q in s'.table && s'.table[q] == s.table[q]
    requires k in s'.front ==> Agrees(env, s'.table, k, s'.front[k].val, s'.front[k].exp)
    ensures Coherent(env, s') && FrontIn(s', keys)
  {
    forall j | j in s'.front
      ensures j in keys && Agrees(env, s'.table, j, s'.front[j].val, s'.front[j].exp)
    {
      if j != k {
        OtherRowsAgree(env, s.table, s'.table, keys, k, j, s.front[j].val, s.front[j].exp);
      }
    }
  }

  /** A value that was stored in the table and offered to the front leaves the key coherent. */
  lemma WarmAgrees(env: Env, s: Tiers, k: Key, v: Bytes, ttl: nat, now: nat, keys: iset<Key>, maxVal: nat)
    requires Coherent(env, s) && FrontIn(s, keys) && RowsDistinct(env, keys) && k in keys
    requires 0 < now && |v| <= maxVal && ValuesFit(keys, maxVal)
    ensures var s' := Tiers(FrontSet(env, s.front, k, v, ttl, now), DoSet(s.table, env.row(k), v, ttl, now));
      Coherent(env, s') && FrontIn(s', keys)
  {
    var s' := Tiers(FrontSet(env, s.front, k, v, ttl, now), DoSet(s.table, env.row(k), v, ttl, now));
    OneKeyCoherent(env, s, s', keys, k);
  }

  /** Dropping the key from the front is always coherent, whatever happened to its row. */
  lemma ForgetAgrees(env: Env, s: Tiers, k: Key, t': Table, keys: iset<Key>)
    requires Coherent(env, s) && FrontIn(s, keys) && RowsDistinct(env, keys) && k in keys
    requires forall q | q in s.table && q != env.row(k) :: q in t' && t'[q] == s.table[q]
    ensures var s' := Tiers(s.front - {k}, t'); Coherent(env, s') && FrontIn(s', keys)
  {
    OneKeyCoherent(env, s, Tiers(s.front - {k}, t'), keys, k);
  }

  /** A flush of another application leaves a key's row, and so what was said of it. */
  lemma FlushSpares(env: Env, t: Table, a: App, keys: iset<Key>, j: Key, val: Bytes, exp: nat)
    requires FlushesOwn(env, keys) && j in keys && !(Prefix(a) <= j) && Agrees(env, t, j, val, exp)
    ensures Agrees(env, DoFlush(env, t, a), j, val, exp)
  {
  }

  lemma FlushAgrees(env: Env, s: Tiers, a: App, keys: iset<Key>)
    requires Coherent(env, s) && FrontIn(s, keys) && FlushesOwn(env, keys)
    ensures var s' := Tiers(FrontFlush(s.front, a), DoFlush(env, s.table, a));
      Coherent(env, s') && FrontIn(s', keys)
  {
    var s' := Tiers(FrontFlush(s.front, a), DoFlush(env, s.table, a));
    forall j | j in s'.front
      ensures Agrees(env, s'.table, j, s'.front[j].val, s'.front[j].exp)
    {
      FlushSpares(env, s.table, a, keys, j, s.front[j].val, s.front[j].exp);
    }
  }

  /** `f` is `g` with entries dropped. */
  ghost predicate Submap(f: Front, g: Front) {
    forall k | k in f :: k in g && f[k] == g[k]
  }

  lemma LossAgrees(env: Env, s: Tiers, f: Front, keys: iset<Key>)
    requires Coherent(env, s) && FrontIn(s, keys) && Submap(f, s.front)
    ensures Coherent(env, Tiers(f, s.table)) && FrontIn(Tiers(f, s.table), keys)
  {
  }

  lemma GetAgrees(env: Env, s: Tiers, k: Key, now: nat, keys: iset<Key>)
    requires Coherent(env, s) && FrontIn(s, keys) && k in keys && 0 < now
    ensures var (s', out) := GetThrough(env, s, k, now);
      && Coherent(env, s') && FrontIn(s', keys) && s'.table == s.table
      && (out == Value(DoGet(env, s.table, env.row(k), now)) <==> !ExpirySecond(s, Call(Get(k), now)))
  {
  }

  /** One call keeps the tiers coherent and answers as the table alone, but for the expiry second. */
  lemma StepAgrees(env: Env, s: Tiers, c: Call, keys: iset<Key>, maxVal: nat)
    requires Coherent(env, s) && FrontIn(s, keys) && Within(c, keys, maxVal)
    requires RowsDistinct(env, keys) && FlushesOwn(env, keys) && ValuesFit(keys, maxVal)
    ensures var (s', out) := Through(env, s, c); var (t', want) := Alone(env, s.table, c);
      && Coherent(env, s') && FrontIn(s', keys) && s'.table == t'
      && (out == want <==> !ExpirySecond(s, c))
  {
    hide Coherent, FrontIn, RowsDistinct, FlushesOwn, ValuesFit, FrontSet, FrontFlush, DoFlush, DoGet;
    var t' := Alone(env, s.table, c).0;
    match c.op
    case Get(k) => GetAgrees(env, s, k, c.now, keys);
    case Set(k, v, ttl) => WarmAgrees(env, s, k, v, ttl, c.now, keys, maxVal);
    case Add(k, v, ttl) =>
      if DoAdd(s.table, env.row(k), v, ttl, c.now).1 {
        WarmAgrees(env, s, k, v, ttl, c.now, keys, maxVal);
      } else {
        ForgetAgrees(env, s, k, t', keys);
      }
    case Flush(a) => FlushAgrees(env, s, a, keys);
    case _ => ForgetAgrees(env, s, c.op.k, t', keys);
  }

  // ---- Whole runs ----

  ghost function RunThrough(env: Env, s: Tiers, calls: seq<Call>): Tiers {
    if calls == [] then s else Through(env, RunThrough(env, s, calls[..|calls| - 1]), calls[|calls| - 1]).0
  }

  function RunAlone(env: Env, t: Table, calls: seq<Call>): Table {
    if calls == [] then t else Alone(env, RunAlone(env, t, calls[..|calls| - 1]), calls[|calls| - 1]).0
  }

  ghost predicate RunWithin(calls: seq<Call>, keys: iset<Key>, maxVal: nat) {
    forall i | 0 <= i < |calls| :: Within(calls[i], keys, maxVal)
  }

  /** The answer to the last call of a run, through the front and from the table alone. */
  ghost function AnswerThrough(env: Env, s: Tiers, calls: seq<Call>): Out
    requires calls != []
  {
    Through(env, RunThrough(env, s, calls[..|calls| - 1]), calls[|calls| - 1]).1
  }

  function AnswerAlone(env: Env, t: Table, calls: seq<Call>): Out
    requires calls != []
  {
    Alone(env, RunAlone(env, t, calls[..|calls| - 1]), calls[|calls| - 1]).1
  }

  ghost const Cold := Tiers(imap[], map[])

  lemma {:induction false} RunCoherent(env: Env, calls: seq<Call>, keys: iset<Key>, maxVal: nat)
    requires RunWithin(calls, keys, maxVal) && RowsDistinct(env, keys) && FlushesOwn(env, keys) && ValuesFit(keys, maxVal)
    ensures var s := RunThrough(env, Cold, calls);
      Coherent(env, s) && FrontIn(s, keys) && s.table == RunAlone(env, Cold.table, calls)
  {
    if calls != [] {
      hide Through, Alone, RowsDistinct, FlushesOwn, Within, ValuesFit;
      var init := calls[..|calls| - 1];
      RunCoherent(env, init, keys, maxVal);
      StepAgrees(env, RunThrough(env, Cold, init), calls[|calls| - 1], keys, maxVal);
    }
  }

  /** The last call of a run reads an entry in the second it expires. */
  ghost predicate EndsInExpirySecond(env: Env, calls: seq<Call>)
    requires calls != []
  {
    ExpirySecond(RunThrough(env, Cold, calls[..|calls| - 1]), calls[|calls| - 1])
  }

  /** Every run from a cold start, with the front dropping entries whenever it likes, answers as the
      table alone would, call by call, except for reads in the second an entry expires — and those
      do differ. */
  lemma FrontIsInvisible(env: Env, calls: seq<Call>, keys: iset<Key>, maxVal: nat)
    requires calls != [] && RunWithin(calls, keys, maxVal)
    requires RowsDistinct(env, keys) && FlushesOwn(env, keys) && ValuesFit(keys, maxVal)
    ensures AnswerThrough(env, Cold, calls) == AnswerAlone(env, Cold.table, calls) <==> !EndsInExpirySecond(env, calls)
  {
    hide Through, Alone, RowsDistinct, FlushesOwn, Within, ValuesFit, Coherent, FrontIn;
    var init := calls[..|calls| - 1];
    RunCoherent(env, init, keys, maxVal);
    StepAgrees(env, RunThrough(env, Cold, init), calls[|calls| - 1], keys, maxVal);
  }

  /** Every run over these keys and value sizes agrees with the table alone. */
  ghost predicate AlwaysAgrees(env: Env, keys: iset<Key>, maxVal: nat) {
    forall calls: seq<Call> | calls != [] && RunWithin(calls, keys, maxVal) ::
      AnswerThrough(env, Cold, calls) == AnswerAlone(env, Cold.table, calls) || EndsInExpirySecond(env, calls)
  }

  lemma ThreeCalls(env: Env, a: Call, b: Call, c: Call)
    ensures var s := Through(env, Through(env, Cold, a).0, b).0; var t := Alone(env, Alone(env, map[], a).0, b).0;
      && RunThrough(env, Cold, [a, b, c][..2]) == s && AnswerThrough(env, Cold, [a, b, c]) == Through(env, s, c).1
      && AnswerAlone(env, Cold.table, [a, b, c]) == Alone(env, t, c).1
  {
    hide Through, Alone;
    var calls := [a, b, c];
    assert calls[..2] == [a, b] && [a, b][..1] == [a] && [a][..0] == [];
    assert RunThrough(env, Cold, [a]) == Through(env, RunThrough(env, Cold, []), a).0;
    assert RunAlone(env, Cold.table, [a]) == Alone(env, RunAlone(env, Cold.table, []), a).0;
  }

  /** What two writes leave: the first still in front, the second in the table. */
  lemma TwoWrites(env: Env, j: Key, k: Key, v: Bytes)
    requires Cacheable(j) && env.row(j) == env.row(k) && (j != k || VAL_LARGE < |v|)
    ensures var a, b := Call(Set(j, [], 0), 1), Call(Set(k, v, 0), 1); var s := Through(env, Through(env, Cold, a).0, b).0;
      j in s.front && s.front[j] == Held([], 0)
    ensures var a, b := Call(Set(j, [], 0), 1), Call(Set(k, v, 0), 1); var t := Alone(env, Alone(env, map[], a).0, b).0;
      env.row(j) in t && t[env.row(j)] == Row(Blob(v), None)
  {
    var s := Through(env, Cold, Call(Set(j, [], 0), 1)).0;
    assert j in s.front && s.front[j] == Held([], 0);
  }

  /** Two writes and a read that find an old value in the front. */
  lemma StaleHit(env: Env, keys: iset<Key>, maxVal: nat, j: Key, k: Key, v: Bytes)
    requires j in keys && k in keys && Cacheable(j) && env.row(j) == env.row(k) && 0 < |v| <= maxVal
    requires j != k || VAL_LARGE < |v|
    ensures !AlwaysAgrees(env, keys, maxVal)
  {
    var a, b, c := Call(Set(j, [], 0), 1), Call(Set(k, v, 0), 1), Call(Get(j), 1);
    assert RunWithin([a, b, c], keys, maxVal);
    ThreeCalls(env, a, b, c);
    TwoWrites(env, j, k, v);
    hide FrontSet, DoSet, RunThrough, RunAlone;
    var s, t := Through(env, Through(env, Cold, a).0, b).0, Alone(env, Alone(env, map[], a).0, b).0;
    FrontAnswers(env, s, t, j, v);
  }

  lemma FrontAnswers(env: Env, s: Tiers, t: Table, j: Key, v: Bytes)
    requires Cacheable(j) && j in s.front && s.front[j] == Held([], 0) && env.row(j) in t && t[env.row(j)] == Row(Blob(v), None)
    ensures Through(env, s, Call(Get(j), 1)).1 == Value(Some([])) && Alone(env, t, Call(Get(j), 1)).1 == Value(Some(v))
  {
  }

  /** The front is invisible to every run exactly when no two keys share a row and no value is too
      large for it. Bytes that are not UTF-8 do share rows, since the row's key is a lossy text. */
  lemma AgreesIff(env: Env, keys: iset<Key>, maxVal: nat)
    requires FlushesOwn(env, keys) && 0 < maxVal
    ensures AlwaysAgrees(env, keys, maxVal) <==> RowsDistinct(env, keys) && ValuesFit(keys, maxVal)
  {
    if RowsDistinct(env, keys) && ValuesFit(keys, maxVal) {
      forall calls: seq<Call> | calls != [] && RunWithin(calls, keys, maxVal)
        ensures AnswerThrough(env, Cold, calls) == AnswerAlone(env, Cold.table, calls) || EndsInExpirySecond(env, calls)
      {
        FrontIsInvisible(env, calls, keys, maxVal);
      }
    } else if !RowsDistinct(env, keys) {
      var j, k :| j in keys && k in keys && Cacheable(j) && env.row(j) == env.row(k) && j != k;
      StaleHit(env, keys, maxVal, j, k, [0]);
    } else {
      var k :| k in keys && Cacheable(k);
      StaleHit(env, keys, maxVal, k, k, seq(VAL_LARGE + 1, _ => 0));
    }
  }

  // ---- The two deployments it is meant for ----

  /** Every application named: the row is the whole stored key, as text; a flush takes the rows that
      begin with the application's prefix. */
  ghost predicate NamedApps(env: Env, keys: iset<Key>) {
    && (forall k: Key :: env.row(k) == Lossy(k))
    && (forall a: App, q: Key :: env.flushes(a, q) <==> Prefix(a) <= q)
    && forall k | k in keys :: exists b: App :: Prefix(b) <= k
  }

  /** One application without a name: its rows carry no prefix, and only it flushes. */
  ghost predicate LoneApp(env: Env, keys: iset<Key>, app: App) {
    && (forall k: Key | Prefix(app) <= k :: env.row(k) == Lossy(k[PREFIX_LEN..]))
    && (forall a: App, q: Key :: env.flushes(a, q) <==> a == app)
    && forall k | k in keys :: Prefix(app) <= k
  }

  /** No key of these becomes the same text as one the front can hold. */
  ghost predicate TextsDistinct(keys: iset<Key>) {
    forall j, k | j in keys && k in keys && Cacheable(j) && Lossy(j) == Lossy(k) :: j == k
  }

  lemma PrefixIsAscii(app: App)
    ensures IsAscii(Prefix(app))
  {
    assert IsApp(app);
  }

  /** A stored key's text: the prefix as it is, and the text of the rest. */
  lemma StoredText(app: App, k: Key)
    requires Prefix(app) <= k
    ensures Lossy(k) == Prefix(app) + Lossy(k[PREFIX_LEN..])
  {
    PrefixIsAscii(app);
    LossyAfterAscii(Prefix(app), k[PREFIX_LEN..]);
    assert k == Prefix(app) + k[PREFIX_LEN..];
  }

  lemma NamedFlushesOwn(env: Env, keys: iset<Key>)
    requires NamedApps(env, keys)
    ensures FlushesOwn(env, keys)
  {
    hide Lossy;
    forall a: App, k | k in keys && env.flushes(a, env.row(k))
      ensures Prefix(a) <= k
    {
      var b: App :| Prefix(b) <= k;
      StoredText(b, k);
      assert Prefix(a) == Lossy(k)[..PREFIX_LEN] == Prefix(b);
    }
  }

  /** With every application named and values the front can hold, the front is invisible exactly when no
      two of the keys become the same text. */
  lemma NamedAppsAgree(env: Env, keys: iset<Key>, maxVal: nat)
    requires NamedApps(env, keys) && 0 < maxVal <= VAL_LARGE
    ensures AlwaysAgrees(env, keys, maxVal) <==> TextsDistinct(keys)
    ensures (forall k | k in keys :: Utf8(k)) ==> AlwaysAgrees(env, keys, maxVal)
  {
    hide AlwaysAgrees, Lossy;
    NamedFlushesOwn(env, keys);
    AgreesIff(env, keys, maxVal);
    assert RowsDistinct(env, keys) <==> TextsDistinct(keys);
    if forall k | k in keys :: Utf8(k) {
      forall k | k in keys ensures Lossy(k) == k { LossyKeepsText(k); }
    }
  }

  /** With a single application without a name, likewise. */
  lemma LoneAppAgrees(env: Env, keys: iset<Key>, app: App, maxVal: nat)
    requires LoneApp(env, keys, app) && 0 < maxVal <= VAL_LARGE
    ensures AlwaysAgrees(env, keys, maxVal) <==> TextsDistinct(keys)
    ensures (forall k | k in keys :: Utf8(k)) ==> AlwaysAgrees(env, keys, maxVal)
  {
    hide AlwaysAgrees, Lossy;
    assert FlushesOwn(env, keys);
    AgreesIff(env, keys, maxVal);
    forall j, k | j in keys && k in keys
      ensures env.row(j) == env.row(k) <==> Lossy(j) == Lossy(k)
    {
      StoredText(app, j);
      StoredText(app, k);
      assert env.row(j) == Lossy(j)[PREFIX_LEN..] && env.row(k) == Lossy(k)[PREFIX_LEN..];
    }
    assert RowsDistinct(env, keys) <==> TextsDistinct(keys);
    if forall k | k in keys :: Utf8(k) {
      forall k | k in keys ensures Lossy(k) == k { LossyKeepsText(k); }
    }
  }

  /** An application that uses the two one-byte keys FF and FE, neither of them text, is given an old
      value: both are stored in the row of the replacement character. */
  lemma BytesShareARow(env: Env, keys: iset<Key>, app: App, maxVal: nat)
    requires NamedApps(env, keys) || LoneApp(env, keys, app)
    requires Stored(Some(app), [0xff]) in keys && Stored(Some(app), [0xfe]) in keys && 0 < maxVal
    ensures !AlwaysAgrees(env, keys, maxVal)
  {
    hide AlwaysAgrees, Lossy;
    var j, k := Stored(Some(app), [0xff]), Stored(Some(app), [0xfe]);
    assert j[PREFIX_LEN..] == [0xff] && k[PREFIX_LEN..] == [0xfe] && Prefix(app) <= j && Prefix(app) <= k;
    StoredText(app, j);
    StoredText(app, k);
    LossyCollides();
    assert j[PREFIX_LEN] != k[PREFIX_LEN];
    StaleHit(env, keys, maxVal, j, k, [0]);
  }
}
