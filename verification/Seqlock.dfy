/** One slot of the key-value cache under its seqlock: writers hold the slot lock and store one
    field or byte at a time, may die at any step, and readers copy the slot without the lock, or under
    it once that has failed. */
module Seqlock {
  import opened Common

  type Cell = nat

  /** Sizes of the inline arrays of a slot. */
  datatype Config = Config(keyMax: nat, valMax: nat)

  datatype Entry = Entry(state: Cell, hash: Cell, expires: Cell, written: Cell, keyLen: Cell, valLen: Cell,
                         key: seq<Cell>, val: seq<Cell>)

  // ---- Writers ----

  datatype Store =
    | SetState(v: Cell) | SetHash(v: Cell) | SetExpires(v: Cell) | SetWritten(v: Cell)
    | SetKeyLen(v: Cell) | SetValLen(v: Cell) | SetKeyByte(i: nat, v: Cell) | SetValByte(i: nat, v: Cell)

  /** The three ways a slot is changed: `write`, `mark_state` (never to occupied) and `mark_expires`. */
  datatype Op =
    | Write(key: seq<Cell>, val: seq<Cell>, hash: Cell, expires: Cell, written: Cell)
    | MarkState(state: Cell)
    | MarkExpires(at: Cell)

  predicate OpOk(c: Config, op: Op) {
    match op
    case Write(key, val, _, _, _) => |key| <= c.keyMax && |val| <= c.valMax
    case MarkState(st) => st != 1
    case MarkExpires(_) => true
  }

  const HEAD: nat := 6

  function StoreCount(op: Op): nat {
    match op
    case Write(key, val, _, _, _) => HEAD + |key| + |val|
    case MarkState(_) => 1
    case MarkExpires(_) => 1
  }

  /** The pc-th single store of an operation, in program order. */
  function StoreAt(op: Op, pc: nat): Store
    requires pc < StoreCount(op)
  {
    match op
    case Write(key, val, hash, expires, written) =>
      if pc == 0 then SetState(1)
      else if pc == 1 then SetHash(hash)
      else if pc == 2 then SetExpires(expires)
      else if pc == 3 then SetWritten(written)
      else if pc == 4 then SetKeyLen(|key|)
      else if pc == 5 then SetValLen(|val|)
      else if pc < HEAD + |key| then SetKeyByte(pc - HEAD, key[pc - HEAD])
      else SetValByte(pc - HEAD - |key|, val[pc - HEAD - |key|])
    case MarkState(st) => SetState(st)
    case MarkExpires(at) => SetExpires(at)
  }

  function Apply(e: Entry, st: Store): Entry {
    match st
    case SetState(v) => e.(state := v)
    case SetHash(v) => e.(hash := v)
    case SetExpires(v) => e.(expires := v)
    case SetWritten(v) => e.(written := v)
    case SetKeyLen(v) => e.(keyLen := v)
    case SetValLen(v) => e.(valLen := v)
    case SetKeyByte(i, v) => if i < |e.key| then e.(key := e.key[i := v]) else e
    case SetValByte(i, v) => if i < |e.val| then e.(val := e.val[i := v]) else e
  }

  /** The lock holder's place in its program. */
  datatype Holder =
    | Nobody
    | Locked
    | Loaded(op: Op, odd: nat)
    | Inside(op: Op, odd: nat, pc: nat)

  // ---- Readers ----

  datatype Query = Query(key: seq<Cell>, hash: Cell, now: Cell)

  datatype Peek = ChainEnd | Other | Expired | Hit(value: seq<Cell>) | Torn

  datatype Loc = State | Hash | KeyLen | Expires | KeyByte(i: nat) | ValLen | ValByte(i: nat)

  function Load(e: Entry, l: Loc): Cell {
    match l
    case State => e.state
    case Hash => e.hash
    case KeyLen => e.keyLen
    case Expires => e.expires
    case KeyByte(i) => if i < |e.key| then e.key[i] else 0
    case ValLen => e.valLen
    case ValByte(i) => if i < |e.val| then e.val[i] else 0
  }

  predicate Candidate(c: Config, q: Query, vals: seq<Cell>)
    requires 4 <= |vals|
  {
    vals[0] == 1 && vals[1] == q.hash && vals[2] == |q.key| && |q.key| <= c.keyMax
  }

  /** What `peek` reads next, given the values it has read so far; None once it has read enough. */
  function NextLoc(c: Config, q: Query, vals: seq<Cell>): Option<Loc> {
    var k := |q.key|;
    if |vals| == 0 then Some(State)
    else if |vals| == 1 then Some(Hash)
    else if |vals| == 2 then Some(KeyLen)
    else if |vals| == 3 then Some(Expires)
    else if !Candidate(c, q, vals) then None
    else if |vals| < 4 + k then Some(KeyByte(|vals| - 4))
    else if vals[4..4 + k] != q.key then None
    else if |vals| == 4 + k then Some(ValLen)
    else if |vals| < 5 + k + Min(vals[4 + k], c.valMax) then Some(ValByte(|vals| - 5 - k))
    else None
  }

  /** What `peek` answers from what it read, once the second counter sample agreed. */
  function Answer(c: Config, q: Query, vals: seq<Cell>): Peek
    requires NextLoc(c, q, vals).None?
  {
    var k := |q.key|;
    if Candidate(c, q, vals) && vals[4..4 + k] == q.key then
      if vals[3] != 0 && vals[3] < q.now then Expired else Hit(vals[5 + k..])
    else if vals[0] == 0 then ChainEnd
    else Other
  }

  datatype Reader =
    | Reading(q: Query, v1: nat, vals: seq<Cell>, seen: Entry)
    | Answered(q: Query, peek: Peek, seen: Entry)

  // ---- The slot, its lock holder and its readers ----

  /** `last` and `dirty` are history: the last write stored in full, and whether a writer has died
      half-way through a later one. */
  datatype Slot = Slot(entry: Entry, version: nat, holder: Holder, readers: map<nat, Reader>,
                       last: Option<Op>, dirty: bool)

  datatype Action =
    | Acquire | Release | Begin(op: Op) | Mark | DoStore | Finish | Die
    | Sample(r: nat, q: Query) | Read(r: nat) | Verify(r: nat) | ReadLocked(r: nat, q: Query)

  predicate Enabled(c: Config, s: Slot, a: Action) {
    match a
    case Acquire => s.holder.Nobody?
    case Release => s.holder.Locked?
    case Begin(op) => s.holder.Locked? && OpOk(c, op)
    case Mark => s.holder.Loaded?
    case DoStore => s.holder.Inside? && s.holder.pc < StoreCount(s.holder.op)
    case Finish => s.holder.Inside? && s.holder.pc == StoreCount(s.holder.op)
    case Die => !s.holder.Nobody?
    case Sample(r, _) => true
    case Read(r) => r in s.readers && s.readers[r].Reading? && NextLoc(c, s.readers[r].q, s.readers[r].vals).Some?
    case Verify(r) => r in s.readers && s.readers[r].Reading? && NextLoc(c, s.readers[r].q, s.readers[r].vals).None?
    case ReadLocked(r, q) => s.holder.Locked? && r in s.readers && s.readers[r].Answered? && s.readers[r].peek.Torn? && s.readers[r].q == q
  }

  /** `version | 1`. */
  function OrOne(v: nat): nat {
    if v % 2 == 1 then v else v + 1
  }

  function LastAfter(s: Slot, h: Holder): Option<Op>
    requires h.Inside?
  {
    if h.op.Write? && h.pc == StoreCount(h.op) then Some(h.op) else s.last
  }

  function DirtyAfter(s: Slot, h: Holder): bool
    requires h.Inside?
  {
    if h.op.Write? then (if h.pc == 0 then s.dirty else h.pc < StoreCount(h.op)) else s.dirty
  }

  /** The fallback of `get` under the lock: the fields are read plainly, whatever the counter says. */
  function LockedPeek(q: Query, e: Entry): Peek {
    if e.state == 0 then ChainEnd
    else if e.state == 1 && e.hash == q.hash && e.keyLen == |q.key| && e.keyLen <= |e.key| && e.key[..e.keyLen] == q.key then
      if e.expires != 0 && e.expires < q.now then Expired else Hit(e.val[..Min(e.valLen, |e.val|)])
    else Other
  }

  /** A locked read is one step, as nobody stores while the reader holds the lock. */
  function Next(c: Config, s: Slot, a: Action): Slot
    requires Enabled(c, s, a)
  {
    match a
    case Acquire => s.(holder := Locked)
    case Release => s.(holder := Nobody)
    case Begin(op) => s.(holder := Loaded(op, OrOne(s.version)))
    case Mark => s.(holder := Inside(s.holder.op, s.holder.odd, 0), version := s.holder.odd)
    case DoStore =>
      s.(entry := Apply(s.entry, StoreAt(s.holder.op, s.holder.pc)), holder := s.holder.(pc := s.holder.pc + 1))
    case Finish =>
      s.(holder := Locked, version := s.holder.odd + 1,
         last := LastAfter(s, s.holder), dirty := DirtyAfter(s, s.holder))
    case Die =>
      if s.holder.Inside? then
        s.(holder := Nobody, last := LastAfter(s, s.holder), dirty := DirtyAfter(s, s.holder))
      else s.(holder := Nobody)
    case Sample(r, q) =>
      s.(readers := s.readers[r := if s.version % 2 == 1 then Answered(q, Torn, s.entry)
                                   else Reading(q, s.version, [], s.entry)])
    case Read(r) =>
      var x := s.readers[r];
      s.(readers := s.readers[r := x.(vals := x.vals + [Load(s.entry, NextLoc(c, x.q, x.vals).value)])])
    case Verify(r) =>
      var x := s.readers[r];
      s.(readers := s.readers[r := Answered(x.q, if s.version == x.v1 then Answer(c, x.q, x.vals) else Torn, x.seen)])
    case ReadLocked(r, q) => s.(readers := s.readers[r := Answered(q, LockedPeek(q, s.entry), s.entry)])
  }

  /** A freshly mapped slot. */
  function Init(c: Config): Slot {
    Slot(Entry(0, 0, 0, 0, 0, 0, Repeat(0, c.keyMax), Repeat(0, c.valMax)), 0, Nobody, map[], None, false)
  }

  predicate Legal(c: Config, acts: seq<Action>)
    decreases |acts|, 0
  {
    acts == [] ||
    (Legal(c, acts[..|acts| - 1]) && Enabled(c, After(c, acts[..|acts| - 1]), acts[|acts| - 1]))
  }

  /** The state after a whole interleaving. */
  function After(c: Config, acts: seq<Action>): Slot
    requires Legal(c, acts)
    decreases |acts|, 1
  {
    if acts == [] then Init(c)
    else Next(c, After(c, acts[..|acts| - 1]), acts[|acts| - 1])
  }

  // ---- What one instant of the slot says ----

  /** The answer of a `peek` that happens all at once. */
  function PeekAt(q: Query, e: Entry): Peek {
    if e.state == 1 && e.hash == q.hash && e.keyLen == |q.key| <= |e.key| && e.key[..|q.key|] == q.key then
      if e.expires != 0 && e.expires < q.now then Expired else Hit(e.val[..Min(e.valLen, |e.val|)])
    else if e.state == 0 then ChainEnd
    else Other
  }

  // ---- Invariants ----

  /** The stores of a write up to `pc` are in place. */
  ghost predicate Stored(e: Entry, op: Op, pc: nat)
    requires op.Write? && pc <= StoreCount(op)
  {
    && (1 < pc ==> e.hash == op.hash)
    && (4 < pc ==> e.keyLen == |op.key|)
    && (5 < pc ==> e.valLen == |op.val|)
    && (forall i | 0 <= i < |op.key| && HEAD + i < pc :: i < |e.key| && e.key[i] == op.key[i])
    && (forall i | 0 <= i < |op.val| && HEAD + |op.key| + i < pc :: i < |e.val| && e.val[i] == op.val[i])
  }

  /** Nothing torn is left in the slot: it is vacant, or it holds the last full write. */
  ghost predicate Whole(e: Entry, last: Option<Op>) {
    match last
    case None => e.state != 1
    case Some(op) => op.Write? && Stored(e, op, StoreCount(op))
  }

  ghost predicate HolderInv(c: Config, s: Slot) {
    match s.holder
    case Nobody => true
    case Locked => true
    case Loaded(op, odd) => OpOk(c, op) && odd == OrOne(s.version)
    case Inside(op, odd, pc) =>
      && OpOk(c, op) && odd == s.version && odd % 2 == 1 && pc <= StoreCount(op)
      && (op.Write? ==> Stored(s.entry, op, pc))
  }

  ghost predicate WholeInv(s: Slot) {
    s.dirty || (s.holder.Inside? && s.holder.op.Write? && 0 < s.holder.pc) || Whole(s.entry, s.last)
  }

  /** What a reader has read is what the slot held when it started, for as long as the counter
      has not moved. */
  ghost predicate ReaderInv(c: Config, s: Slot, x: Reader) {
    && |x.seen.key| == c.keyMax && |x.seen.val| == c.valMax
    && (x.Reading? ==>
          && x.v1 % 2 == 0 && x.v1 <= s.version
          && (s.version == x.v1 ==> s.entry == x.seen && ReadFrom(c, x.q, x.vals, x.seen)))
    && (x.Answered? ==> x.peek.Torn? || x.peek == PeekAt(x.q, x.seen))
  }

  ghost predicate ReadFrom(c: Config, q: Query, vals: seq<Cell>, e: Entry) {
    forall i | 0 <= i < |vals| ::
      NextLoc(c, q, vals[..i]).Some? && vals[i] == Load(e, NextLoc(c, q, vals[..i]).value)
  }

  ghost predicate Inv(c: Config, s: Slot) {
    && |s.entry.key| == c.keyMax && |s.entry.val| == c.valMax
    && HolderInv(c, s)
    && WholeInv(s)
    && (s.last.Some? ==> s.last.value.Write? && OpOk(c, s.last.value))
    && forall r | r in s.readers :: ReaderInv(c, s, s.readers[r])
  }

  lemma StoreKeepsStored(e: Entry, op: Op, pc: nat)
    requires op.Write? && pc < StoreCount(op) && Stored(e, op, pc)
    requires |op.key| <= |e.key| && |op.val| <= |e.val|
    ensures Stored(Apply(e, StoreAt(op, pc)), op, pc + 1)
  {
  }

  /** A non-write operation leaves the last full write readable. */
  lemma MarkKeepsWhole(e: Entry, op: Op, last: Option<Op>)
    requires !op.Write? && Whole(e, last) && (op.MarkState? ==> op.state != 1)
    ensures Whole(Apply(e, StoreAt(op, 0)), last)
  {
  }

  /** Reading everything from one entry answers as that entry does. */
  lemma AnswerIsPeekAt(c: Config, q: Query, vals: seq<Cell>, e: Entry)
    requires |e.key| == c.keyMax && |e.val| == c.valMax
    requires ReadFrom(c, q, vals, e) && NextLoc(c, q, vals).None?
    ensures Answer(c, q, vals) == PeekAt(q, e)
  {
    var k := |q.key|;
    assert 4 <= |vals|;
    assert vals[0] == e.state && vals[1] == e.hash && vals[2] == e.keyLen && vals[3] == e.expires;
    if Candidate(c, q, vals) {
      assert 4 + k <= |vals|;
      forall i | 0 <= i < k
        ensures vals[4 + i] == e.key[i]
      {
        assert Candidate(c, q, vals[..4 + i]);
        assert NextLoc(c, q, vals[..4 + i]) == Some(KeyByte(i));
      }
      assert vals[4..4 + k] == e.key[..k];
      if vals[4..4 + k] == q.key {
        assert NextLoc(c, q, vals[..4 + k]) == Some(ValLen) by {
          assert vals[..4 + k][4..4 + k] == q.key;
        }
        assert vals[4 + k] == e.valLen;
        var n := Min(e.valLen, c.valMax);
        assert 5 + k + n <= |vals|;
        ValBytesRead(c, q, vals, e, n);
      }
    }
  }

  ghost predicate ReadUpToVal(c: Config, q: Query, vals: seq<Cell>, i: nat) {
    var k := |q.key|;
    && 5 + k + i <= |vals| && Candidate(c, q, vals) && vals[4..4 + k] == q.key
  }

  lemma NextValByte(c: Config, q: Query, vals: seq<Cell>, i: nat)
    requires ReadUpToVal(c, q, vals, i)
    ensures var k := |q.key|;
      NextLoc(c, q, vals[..5 + k + i]) == if i < Min(vals[4 + k], c.valMax) then Some(ValByte(i)) else None
  {
    var k := |q.key|;
    var p := vals[..5 + k + i];
    assert p[4..4 + k] == vals[4..4 + k] && p[4 + k] == vals[4 + k] && Candidate(c, q, p);
  }

  lemma ValBytesRead(c: Config, q: Query, vals: seq<Cell>, e: Entry, n: nat)
    requires |e.key| == c.keyMax && |e.val| == c.valMax && ReadFrom(c, q, vals, e)
    requires ReadUpToVal(c, q, vals, n)
    requires vals[4 + |q.key|] == e.valLen && n == Min(e.valLen, c.valMax)
    ensures vals[5 + |q.key|..] == e.val[..n]
  {
    var k := |q.key|;
    NextValByte(c, q, vals, n);
    assert |vals| == 5 + k + n;
    forall i | 0 <= i < n
      ensures vals[5 + k + i] == e.val[i]
    {
      NextValByte(c, q, vals, i);
    }
  }

  lemma NextKeepsHolder(c: Config, s: Slot, a: Action)
    requires Inv(c, s) && Enabled(c, s, a)
    ensures var t := Next(c, s, a);
      && |t.entry.key| == c.keyMax && |t.entry.val| == c.valMax
      && HolderInv(c, t)
      && (t.last.Some? ==> t.last.value.Write? && OpOk(c, t.last.value))
      && s.version <= t.version
      && (s.version == t.version && s.version % 2 == 0 ==> t.entry == s.entry)
  {
    if a.DoStore? && s.holder.op.Write? {
      StoreKeepsStored(s.entry, s.holder.op, s.holder.pc);
    }
  }

  lemma NextKeepsWhole(c: Config, s: Slot, a: Action)
    requires Inv(c, s) && Enabled(c, s, a)
    ensures WholeInv(Next(c, s, a))
  {
    if a.DoStore? && !s.holder.op.Write? && Whole(s.entry, s.last) {
      MarkKeepsWhole(s.entry, s.holder.op, s.last);
    }
  }

  /** The reader takes a first look at the slot, or its look under the lock. */
  predicate Looks(a: Action, r: nat) {
    (a.Sample? || a.ReadLocked?) && a.r == r
  }

  lemma NextKeepsReaders(c: Config, s: Slot, a: Action)
    requires Inv(c, s) && Enabled(c, s, a)
    ensures var t := Next(c, s, a); forall r | r in t.readers :: ReaderInv(c, t, t.readers[r])
  {
    NextKeepsHolder(c, s, a);
    var t := Next(c, s, a);
    forall r | r in t.readers
      ensures ReaderInv(c, t, t.readers[r])
    {
      if a == Read(r) {
        ReadKeepsReader(c, s, r);
      } else if a == Verify(r) {
        var x := s.readers[r];
        if s.version == x.v1 {
          AnswerIsPeekAt(c, x.q, x.vals, x.seen);
        }
      } else if !Looks(a, r) {
        assert t.readers[r] == s.readers[r];
      }
    }
  }

  lemma ReadKeepsReader(c: Config, s: Slot, r: nat)
    requires Inv(c, s) && Enabled(c, s, Read(r))
    ensures ReaderInv(c, Next(c, s, Read(r)), Next(c, s, Read(r)).readers[r])
  {
    var x := s.readers[r];
    var vals := x.vals + [Load(s.entry, NextLoc(c, x.q, x.vals).value)];
    assert forall i | 0 <= i <= |x.vals| :: vals[..i] == x.vals[..i];
    assert x.vals[..|x.vals|] == x.vals;
  }

  lemma {:induction false} InvHolds(c: Config, acts: seq<Action>)
    requires Legal(c, acts)
    ensures Inv(c, After(c, acts))
  {
    if acts != [] {
      var init, a := acts[..|acts| - 1], acts[|acts| - 1];
      InvHolds(c, init);
      NextKeepsHolder(c, After(c, init), a);
      NextKeepsWhole(c, After(c, init), a);
      NextKeepsReaders(c, After(c, init), a);
    }
  }

  // ---- Main results ----

  /** A stable instant of the run: after its first `n` actions no writer was inside the slot. */
  ghost predicate Instant(c: Config, acts: seq<Action>, n: nat, e: Entry) {
    n <= |acts| && Legal(c, acts[..n]) && !After(c, acts[..n]).holder.Inside? && After(c, acts[..n]).entry == e
  }

  /** Only a sample or a locked read starts a reader afresh, from the current entry with no writer inside. */
  lemma NextKeepsSeen(c: Config, s: Slot, a: Action, r: nat)
    requires HolderInv(c, s) && Enabled(c, s, a) && r in Next(c, s, a).readers
    requires var x := Next(c, s, a).readers[r]; x.Reading? || !x.peek.Torn?
    ensures var x := Next(c, s, a).readers[r];
      if Looks(a, r) then x.q == a.q && x.seen == s.entry && !s.holder.Inside?
      else r in s.readers && x.q == s.readers[r].q && x.seen == s.readers[r].seen && (s.readers[r].Reading? || !s.readers[r].peek.Torn?)
  {
  }

  /** Action `n` is the last sample or locked read of reader `r`: the beginning of its present look. */
  predicate BeginsPeek(acts: seq<Action>, n: nat, r: nat, q: Query) {
    && n < |acts| && Looks(acts[n], r) && acts[n].q == q
    && forall j | n < j < |acts| :: !Looks(acts[j], r)
  }

  lemma {:induction false} SeenIsAnInstant(c: Config, acts: seq<Action>, r: nat) returns (n: nat)
    requires Legal(c, acts) && r in After(c, acts).readers
    requires var x := After(c, acts).readers[r]; x.Reading? || !x.peek.Torn?
    ensures var x := After(c, acts).readers[r]; Instant(c, acts, n, x.seen) && BeginsPeek(acts, n, r, x.q)
  {
    hide Next, Enabled;
    var m := |acts| - 1;
    var init, a := acts[..m], acts[m];
    InvHolds(c, init);
    NextKeepsSeen(c, After(c, init), a, r);
    if Looks(a, r) {
      n := m;
    } else {
      n := SeenIsAnInstant(c, init, r);
      assert acts[..n] == init[..n];
      assert forall j | n <= j < m :: acts[j] == init[j];
    }
  }

  /** In every interleaving, with writers dying anywhere, a `peek` that does not answer Torn, and every
      locked read, answers as the slot stood at one single instant with no writer inside: the one it began
      at. */
  lemma PeekSawOneInstant(c: Config, acts: seq<Action>, r: nat)
    requires Legal(c, acts) && r in After(c, acts).readers
    requires var x := After(c, acts).readers[r]; x.Answered? && !x.peek.Torn?
    ensures var x := After(c, acts).readers[r];
      exists n: nat :: Instant(c, acts, n, x.seen) && BeginsPeek(acts, n, r, x.q) && x.peek == PeekAt(x.q, x.seen)
  {
    InvHolds(c, acts);
    var n := SeenIsAnInstant(c, acts, r);
  }

  lemma WholeHit(c: Config, e: Entry, last: Option<Op>, q: Query)
    requires |e.key| == c.keyMax && |e.val| == c.valMax
    requires Whole(e, last) && (last.Some? ==> OpOk(c, last.value)) && PeekAt(q, e).Hit?
    ensures last.Some? && last.value.Write? && last.value.key == q.key && last.value.hash == q.hash
    ensures PeekAt(q, e) == Hit(last.value.val)
  {
    var op := last.value;
    assert e.key[..|q.key|] == op.key;
    assert e.val[..|op.val|] == op.val;
  }

  predicate Busy(h: Holder) {
    h.Loaded? || h.Inside?
  }

  lemma NextOps(c: Config, s: Slot, a: Action)
    requires Enabled(c, s, a)
    ensures var t := Next(c, s, a);
      && (t.last == s.last || (Busy(s.holder) && t.last == Some(s.holder.op)))
      && (Busy(t.holder) ==> a == Begin(t.holder.op) || (Busy(s.holder) && t.holder.op == s.holder.op))
  {
  }

  lemma {:induction false} LastWasBegun(c: Config, acts: seq<Action>)
    requires Legal(c, acts)
    ensures var s := After(c, acts);
      && (s.last.Some? ==> Begin(s.last.value) in acts)
      && (Busy(s.holder) ==> Begin(s.holder.op) in acts)
  {
    hide Next, Enabled;
    if acts != [] {
      var init, a := acts[..|acts| - 1], acts[|acts| - 1];
      LastWasBegun(c, init);
      NextOps(c, After(c, init), a);
      assert acts == init + [a];
    }
  }

  /** A Hit is the value of one complete write under that very key, at an instant where no writer
      has died half-way through a later write. */
  lemma HitIsOneWrite(c: Config, acts: seq<Action>, r: nat)
    requires Legal(c, acts) && r in After(c, acts).readers
    requires var x := After(c, acts).readers[r]; x.Answered? && x.peek.Hit?
    ensures var x := After(c, acts).readers[r];
      exists n: nat :: && Instant(c, acts, n, x.seen)
                  && (!After(c, acts[..n]).dirty ==>
                        exists op :: && Begin(op) in acts && After(c, acts[..n]).last == Some(op) && op.Write?
                                     && op.key == x.q.key && op.hash == x.q.hash && x.peek == Hit(op.val))
  {
    InvHolds(c, acts);
    var x := After(c, acts).readers[r];
    var n := SeenIsAnInstant(c, acts, r);
    InvHolds(c, acts[..n]);
    LastWasBegun(c, acts[..n]);
    var s := After(c, acts[..n]);
    if !s.dirty {
      WholeHit(c, s.entry, s.last, x.q);
      var op := s.last.value;
      assert Begin(op) in acts;
    }
  }

  /** No writer dies between the first and the last store of a `write`. */
  ghost predicate NoDeathMidWrite(c: Config, acts: seq<Action>)
    requires Legal(c, acts)
    decreases |acts|
  {
    acts == [] ||
    (var s := After(c, acts[..|acts| - 1]);
     && NoDeathMidWrite(c, acts[..|acts| - 1])
     && !(acts[|acts| - 1].Die? && s.holder.Inside? && s.holder.op.Write? && 0 < s.holder.pc < StoreCount(s.holder.op)))
  }

  lemma {:induction false} CrashFreeStaysClean(c: Config, acts: seq<Action>)
    requires Legal(c, acts) && NoDeathMidWrite(c, acts)
    ensures !After(c, acts).dirty
  {
    if acts != [] {
      CrashFreeStaysClean(c, acts[..|acts| - 1]);
    }
  }

  lemma {:induction false} CrashFreePrefix(c: Config, acts: seq<Action>, n: nat)
    requires Legal(c, acts) && NoDeathMidWrite(c, acts) && n <= |acts|
    ensures Legal(c, acts[..n]) && NoDeathMidWrite(c, acts[..n])
    decreases |acts|
  {
    if n == |acts| {
      assert acts[..n] == acts;
    } else {
      CrashFreePrefix(c, acts[..|acts| - 1], n);
      assert acts[..|acts| - 1][..n] == acts[..n];
    }
  }

  /** In runs where no writer dies inside a `write`, a Hit is exactly the value of one complete
      write under that key. */
  lemma CrashFreeHitIsOneWrite(c: Config, acts: seq<Action>, r: nat)
    requires Legal(c, acts) && NoDeathMidWrite(c, acts) && r in After(c, acts).readers
    requires var x := After(c, acts).readers[r]; x.Answered? && x.peek.Hit?
    ensures var x := After(c, acts).readers[r];
      exists n: nat, op :: && Instant(c, acts, n, x.seen) && After(c, acts[..n]).last == Some(op) && Begin(op) in acts
                           && op.Write? && op.key == x.q.key && op.hash == x.q.hash && x.peek == Hit(op.val)
  {
    hide After, Legal, NoDeathMidWrite;
    HitIsOneWrite(c, acts, r);
    var x := After(c, acts).readers[r];
    var n: nat :| && Instant(c, acts, n, x.seen)
                  && (!After(c, acts[..n]).dirty ==>
                        exists op :: && Begin(op) in acts && After(c, acts[..n]).last == Some(op) && op.Write?
                                     && op.key == x.q.key && op.hash == x.q.hash && x.peek == Hit(op.val));
    CrashFreePrefix(c, acts, n);
    CrashFreeStaysClean(c, acts[..n]);
  }

  // ---- What a death half-way through a write can leave behind ----

  function Partial(e: Entry, op: Op, pc: nat): Entry
    requires pc <= StoreCount(op)
  {
    if pc == 0 then e else Apply(Partial(e, op, pc - 1), StoreAt(op, pc - 1))
  }

  lemma StoreFrame(e: Entry, op: Op, pc: nat)
    requires op.Write? && pc < StoreCount(op)
    ensures var p := Apply(e, StoreAt(op, pc));
      && |p.key| == |e.key| && |p.val| == |e.val|
      && (pc == 0 || e.state == 1 ==> p.state == 1)
      && (forall i | 0 <= i < |e.val| && pc < HEAD + |op.key| + i :: p.val[i] == e.val[i])
  {
  }

  lemma {:induction false} PartialFacts(e: Entry, op: Op, pc: nat)
    requires op.Write? && pc <= StoreCount(op) && |op.key| <= |e.key| && |op.val| <= |e.val|
    ensures var p := Partial(e, op, pc);
      && |p.key| == |e.key| && |p.val| == |e.val| && Stored(p, op, pc)
      && (0 < pc ==> p.state == 1)
      && (forall i | 0 <= i < |e.val| && pc <= HEAD + |op.key| + i :: p.val[i] == e.val[i])
  {
    hide StoreAt, Apply;
    if 0 < pc {
      PartialFacts(e, op, pc - 1);
      StoreKeepsStored(Partial(e, op, pc - 1), op, pc - 1);
      StoreFrame(Partial(e, op, pc - 1), op, pc - 1);
    }
  }

  lemma Extend(c: Config, acts: seq<Action>, a: Action)
    requires Legal(c, acts) && Enabled(c, After(c, acts), a)
    ensures Legal(c, acts + [a]) && After(c, acts + [a]) == Next(c, After(c, acts), a)
  {
    assert (acts + [a])[..|acts + [a]| - 1] == acts;
  }

  /** The run goes on, and begins no operation but `op`. */
  ghost predicate Continues(acts: seq<Action>, more: seq<Action>, op: Op) {
    forall b | Begin(b) in more :: Begin(b) in acts || b == op
  }

  lemma StartOne(c: Config, s: Slot, op: Op)
    requires s.holder.Locked? && OpOk(c, op)
    ensures Enabled(c, s, Begin(op)) && Enabled(c, Next(c, s, Begin(op)), Mark)
    ensures Next(c, Next(c, s, Begin(op)), Mark) == s.(version := OrOne(s.version), holder := Inside(op, OrOne(s.version), 0))
  {
  }

  lemma StoreOne(c: Config, s: Slot, op: Op, odd: nat, pc: nat)
    requires s.holder == Inside(op, odd, pc) && pc < StoreCount(op)
    ensures Enabled(c, s, DoStore)
    ensures Next(c, s, DoStore) == s.(entry := Apply(s.entry, StoreAt(op, pc)), holder := Inside(op, odd, pc + 1))
  {
    hide Apply, StoreAt, StoreCount;
  }

  lemma {:induction false} StoreSome(c: Config, acts: seq<Action>, op: Op, pc: nat) returns (more: seq<Action>)
    requires Legal(c, acts) && After(c, acts).holder.Locked? && OpOk(c, op) && pc <= StoreCount(op)
    ensures Legal(c, more) && Continues(acts, more, op)
    ensures var s, t := After(c, acts), After(c, more);
      t == s.(entry := Partial(s.entry, op, pc), version := OrOne(s.version), holder := Inside(op, OrOne(s.version), pc))
  {
    hide After, Legal, StoreAt, Apply, Next, Enabled, StoreCount, OpOk;
    var s := After(c, acts);
    if pc == 0 {
      StartOne(c, s, op);
      Extend(c, acts, Begin(op));
      Extend(c, acts + [Begin(op)], Mark);
      more := acts + [Begin(op)] + [Mark];
    } else {
      var prev := StoreSome(c, acts, op, pc - 1);
      StoreOne(c, After(c, prev), op, OrOne(s.version), pc - 1);
      Extend(c, prev, DoStore);
      more := prev + [DoStore];
    }
  }

  /** Begin a write, die after `pc` of its stores, and have the lock taken over. */
  lemma DieAfter(c: Config, acts: seq<Action>, op: Op, pc: nat) returns (more: seq<Action>)
    requires Legal(c, acts) && After(c, acts).holder.Locked? && OpOk(c, op) && pc <= StoreCount(op)
    ensures Legal(c, more) && Continues(acts, more, op)
    ensures After(c, more).holder.Locked? && After(c, more).entry == Partial(After(c, acts).entry, op, pc)
    ensures After(c, more).version % 2 == 1
  {
    hide Partial, StoreCount, StoreAt, After, Legal, Next, Enabled, OpOk;
    var dead := StoreSome(c, acts, op, pc);
    DieOne(c, After(c, dead));
    Extend(c, dead, Die);
    Extend(c, dead + [Die], Acquire);
    more := dead + [Die] + [Acquire];
  }

  /** The holder dies and the lock is taken over. */
  lemma DieOne(c: Config, s: Slot)
    requires s.holder.Inside?
    ensures Enabled(c, s, Die) && Enabled(c, Next(c, s, Die), Acquire)
    ensures var t := Next(c, Next(c, s, Die), Acquire); t.holder.Locked? && t.entry == s.entry && t.version == s.version
  {
    hide StoreCount;
  }

  const SEQ_ATTEMPTS: nat := 4

  /** `get` of a slot whose counter was left odd: its peeks are all torn, and it reads under the lock. */
  lemma GetsLocked(c: Config, acts: seq<Action>, r: nat, q: Query) returns (more: seq<Action>)
    requires Legal(c, acts) && After(c, acts).holder.Locked? && After(c, acts).version % 2 == 1
    ensures Legal(c, more) && (forall b | Begin(b) in more :: Begin(b) in acts) && r in After(c, more).readers
    ensures After(c, more).readers[r] == Answered(q, PeekAt(q, After(c, acts).entry), After(c, acts).entry)
  {
    hide After, Legal, PeekAt, LockedPeek;
    var s := After(c, acts);
    more := acts;
    for i := 0 to SEQ_ATTEMPTS
      invariant Legal(c, more) && (forall b | Begin(b) in more :: Begin(b) in acts)
      invariant After(c, more) == s.(readers := After(c, more).readers)
      invariant 0 < i ==> r in After(c, more).readers && After(c, more).readers[r] == Answered(q, Torn, s.entry)
    {
      Extend(c, more, Sample(r, q));
      more := more + [Sample(r, q)];
    }
    Extend(c, more, ReadLocked(r, q));
    more := more + [ReadLocked(r, q)];
    LockedIsPeekAt(q, s.entry);
  }

  lemma LockedIsPeekAt(q: Query, e: Entry)
    ensures LockedPeek(q, e) == PeekAt(q, e)
  {
  }

  /** A whole operation. */
  lemma DoAll(c: Config, acts: seq<Action>, op: Op) returns (more: seq<Action>)
    requires Legal(c, acts) && After(c, acts).holder.Locked? && OpOk(c, op)
    ensures Legal(c, more) && Continues(acts, more, op)
    ensures var s, t := After(c, acts), After(c, more);
      && t.version % 2 == 0 && t.holder.Locked? && t.entry == Partial(s.entry, op, StoreCount(op))
      && (op.Write? ==> t.last == Some(op) && !t.dirty)
  {
    hide Partial, StoreAt, StoreCount;
    hide After, Legal, Next, Enabled;
    var stored := StoreSome(c, acts, op, StoreCount(op));
    FinishOne(c, After(c, stored), op, OrOne(After(c, acts).version));
    Extend(c, stored, Finish);
    more := stored + [Finish];
  }

  lemma FinishOne(c: Config, s: Slot, op: Op, odd: nat)
    requires s.holder == Inside(op, odd, StoreCount(op)) && odd % 2 == 1
    ensures Enabled(c, s, Finish)
    ensures var t := Next(c, s, Finish);
      && t.version % 2 == 0 && t.holder.Locked? && t.entry == s.entry
      && (op.Write? ==> t.last == Some(op) && !t.dirty)
  {
  }

  lemma TouchedEntry(e: Entry)
    ensures Partial(e, MarkExpires(0), StoreCount(MarkExpires(0))) == e.(expires := 0)
  {
    assert Partial(e, MarkExpires(0), 0) == e;
  }

  /** How many more loads a reader may make. */
  function LoadsLeft(c: Config, x: Reader): int
    requires x.Reading?
  {
    5 + |x.q.key| + c.valMax - |x.vals|
  }

  /** A reader left alone reads to the end and answers as the slot stands. */
  lemma {:induction false} ReadsOn(c: Config, acts: seq<Action>, r: nat) returns (more: seq<Action>)
    requires Legal(c, acts) && r in After(c, acts).readers && After(c, acts).readers[r].Reading?
    requires After(c, acts).readers[r].v1 == After(c, acts).version
    ensures Legal(c, more) && Continues(acts, more, MarkExpires(0)) && r in After(c, more).readers
    ensures var x, s := After(c, acts).readers[r], After(c, acts);
      After(c, more).readers[r] == Answered(x.q, PeekAt(x.q, s.entry), s.entry)
    decreases LoadsLeft(c, After(c, acts).readers[r])
  {
    hide After, Legal, PeekAt, Answer, Load;
    InvHolds(c, acts);
    var s := After(c, acts);
    var x := s.readers[r];
    if NextLoc(c, x.q, x.vals).Some? {
      Extend(c, acts, Read(r));
      more := ReadsOn(c, acts + [Read(r)], r);
    } else {
      assert ReaderInv(c, s, x);
      AnswerIsPeekAt(c, x.q, x.vals, x.seen);
      Extend(c, acts, Verify(r));
      more := acts + [Verify(r)];
    }
  }

  /** A peek of a slot nobody is writing answers as the slot stands. */
  lemma PeeksNow(c: Config, acts: seq<Action>, r: nat, q: Query) returns (more: seq<Action>)
    requires Legal(c, acts) && After(c, acts).version % 2 == 0
    ensures Legal(c, more) && Continues(acts, more, MarkExpires(0)) && r in After(c, more).readers
    ensures After(c, more).readers[r] == Answered(q, PeekAt(q, After(c, acts).entry), After(c, acts).entry)
  {
    hide After, Legal, PeekAt;
    Extend(c, acts, Sample(r, q));
    more := ReadsOn(c, acts + [Sample(r, q)], r);
  }

  /** The value a write that died after `pc` of its stores leaves to be read, over a slot whose value was
      `was` and whose buffer is `buf`. */
  function LeftValue(op: Op, was: seq<Cell>, buf: seq<Cell>, pc: nat): seq<Cell>
    requires op.Write? && |op.val| <= |buf| && pc <= StoreCount(op)
  {
    var p := pc - HEAD - |op.key|;
    if pc < HEAD then was
    else if p <= 0 then buf[..|op.val|]
    else op.val[..p] + buf[p..|op.val|]
  }

  /** The write had not come to the length, or the bytes it did not come to were in the buffer already, or
      — both values being of one length — the bytes it did write are those of the old value. */
  predicate Unspliced(op: Op, was: seq<Cell>, buf: seq<Cell>, pc: nat)
    requires op.Write? && |op.val| <= |buf| && pc <= StoreCount(op)
  {
    var p := Max(pc - HEAD - |op.key|, 0);
    || pc < HEAD || op.val[p..] == buf[p..|op.val|]
    || (|op.val| == |was| && op.val[..p] == was[..p])
  }

  /** The bytes of the value in the buffer. */
  lemma LeftBytes(e: Entry, op: Op, old': Op, pc: nat)
    requires op.Write? && old'.Write? && pc <= StoreCount(op) && |op.key| <= |e.key| && |op.val| <= |e.val| && |old'.val| <= |e.val|
    requires e.valLen == |old'.val| && e.val[..|old'.val|] == old'.val
    ensures var f := Partial(e, op, pc);
      |f.val| == |e.val| && f.valLen <= |f.val| && f.val[..f.valLen] == LeftValue(op, old'.val, e.val, pc)
  {
    hide Partial;
    PartialFacts(e, op, pc);
    PartialKeeps(e, op, pc);
    var f, n := Partial(e, op, pc), |op.val|;
    var p := Max(pc - HEAD - |op.key|, 0);
    assert f.val[p..] == e.val[p..];
    if pc < HEAD {
      assert f.val == e.val;
    } else {
      assert f.val[..p] == op.val[..p];
      assert f.val[..n] == f.val[..p] + f.val[p..][..n - p];
      assert e.val[p..][..n - p] == e.val[p..n];
    }
  }

  lemma WholeBytes(e: Entry, op: Op)
    requires op.Write? && Whole(e, Some(op)) && |op.key| <= |e.key| && |op.val| <= |e.val|
    ensures e.hash == op.hash && e.keyLen == |op.key| && e.valLen == |op.val|
    ensures e.key[..|op.key|] == op.key && e.val[..|op.val|] == op.val
  {
  }

  lemma LeftEntry(c: Config, e: Entry, op: Op, old': Op, pc: nat, now: Cell)
    requires |e.key| == c.keyMax && |e.val| == c.valMax && op.Write? && old'.Write? && OpOk(c, op) && OpOk(c, old')
    requires Whole(e, Some(old')) && op.key == old'.key && op.hash == old'.hash && 0 < pc <= StoreCount(op)
    ensures PeekAt(Query(op.key, op.hash, now), Partial(e, op, pc).(expires := 0)) == Hit(LeftValue(op, old'.val, e.val, pc))
  {
    hide Partial, Whole, LeftValue, StoreCount;
    WholeBytes(e, old');
    PartialFacts(e, op, pc);
    PartialKeeps(e, op, pc);
    LeftBytes(e, op, old', pc);
    var f := Partial(e, op, pc);
    assert e.key[..|op.key|] == op.key;
    assert forall i | 0 <= i < |op.key| :: f.key[i] == op.key[i];
    assert f.key[..|op.key|] == op.key;
  }

  /** What the stores so far leave alone. */
  lemma {:induction false} PartialKeeps(e: Entry, op: Op, pc: nat)
    requires op.Write? && pc <= StoreCount(op) && |op.key| <= |e.key| && |op.val| <= |e.val|
    ensures var p := Partial(e, op, pc);
      && (p.hash == e.hash || p.hash == op.hash) && (p.keyLen == e.keyLen || p.keyLen == |op.key|)
      && (pc < HEAD ==> p.valLen == e.valLen)
      && |p.key| == |e.key| && forall i | 0 <= i < |e.key| :: p.key[i] == e.key[i] || (i < |op.key| && p.key[i] == op.key[i])
  {
    if 0 < pc {
      PartialKeeps(e, op, pc - 1);
    }
  }

  /** What is left is one of the two values exactly then. */
  lemma SplicedUnless(c: Config, e: Entry, op: Op, old': Op, pc: nat)
    requires |e.key| == c.keyMax && |e.val| == c.valMax && op.Write? && old'.Write? && OpOk(c, op) && OpOk(c, old')
    requires Whole(e, Some(old')) && 0 < pc <= StoreCount(op)
    ensures var v := LeftValue(op, old'.val, e.val, pc);
      v == op.val || v == old'.val <==> Unspliced(op, old'.val, e.val, pc)
  {
    var v, p := LeftValue(op, old'.val, e.val, pc), Max(pc - HEAD - |op.key|, 0);
    var n := |op.val|;
    if HEAD <= pc {
      assert v == op.val[..p] + e.val[p..n];
      assert v[..p] == op.val[..p] && v[p..] == e.val[p..n];
      assert op.val == op.val[..p] + op.val[p..];
      if n == |old'.val| {
        assert e.val[p..n] == old'.val[p..];
        assert old'.val == old'.val[..p] + old'.val[p..];
      }
    }
  }

  /** A writer dies inside its value, whatever the slot held before: `get` of its key finds every peek torn,
      reads under the lock, and is given the bytes written so far followed by those that were in the buffer
      — its own value exactly if the rest of it was there already. */
  lemma DeathMidWriteSplices(c: Config, acts: seq<Action>, op: Op, pc: nat, now: Cell) returns (more: seq<Action>)
    requires Legal(c, acts) && After(c, acts).holder.Locked?
    requires op.Write? && OpOk(c, op) && HEAD + |op.key| <= pc <= StoreCount(op)
    ensures |op.val| <= |After(c, acts).entry.val| && Legal(c, more) && 0 in After(c, more).readers
    ensures forall b | Begin(b) in more :: Begin(b) in acts || b == op
    ensures var x, buf, p, n := After(c, more).readers[0], After(c, acts).entry.val, pc - HEAD - |op.key|, |op.val|;
      && x.Answered? && x.q == Query(op.key, op.hash, now)
      && (op.expires != 0 && op.expires < now ==> x.peek == Expired)
      && (!(op.expires != 0 && op.expires < now) ==>
            x.peek == Hit(op.val[..p] + buf[p..n]) && (x.peek == Hit(op.val) <==> op.val[p..] == buf[p..n]))
  {
    hide After, Legal, Partial, StoreAt, PeekAt;
    InvHolds(c, acts);
    var e := After(c, acts).entry;
    var dead := DieAfter(c, acts, op, pc);
    more := GetsLocked(c, dead, 0, Query(op.key, op.hash, now));
    NewEntry(c, e, op, pc, now);
    var p, n := pc - HEAD - |op.key|, |op.val|;
    var v := op.val[..p] + e.val[p..n];
    assert v[p..] == e.val[p..n] && op.val == op.val[..p] + op.val[p..];
  }

  /** What is left under the key of a write that came as far as its value. */
  lemma NewEntry(c: Config, e: Entry, op: Op, pc: nat, now: Cell)
    requires |e.key| == c.keyMax && |e.val| == c.valMax && op.Write? && OpOk(c, op) && HEAD + |op.key| <= pc <= StoreCount(op)
    ensures var p := pc - HEAD - |op.key|;
      PeekAt(Query(op.key, op.hash, now), Partial(e, op, pc)) ==
      if op.expires != 0 && op.expires < now then Expired else Hit(op.val[..p] + e.val[p..|op.val|])
  {
    hide Partial;
    PartialFacts(e, op, pc);
    PartialExpires(e, op, pc);
    var f, p, n := Partial(e, op, pc), pc - HEAD - |op.key|, |op.val|;
    assert f.key[..|op.key|] == op.key;
    assert f.val[p..] == e.val[p..] && f.val[..p] == op.val[..p];
    assert f.val[..n] == f.val[..p] + f.val[p..][..n - p];
    assert e.val[p..][..n - p] == e.val[p..n];
  }

  /** The new deadline is the third store. */
  lemma {:induction false} PartialExpires(e: Entry, op: Op, pc: nat)
    requires op.Write? && pc <= StoreCount(op)
    ensures Partial(e, op, pc).expires == if pc <= 2 then e.expires else op.expires
  {
    if 0 < pc {
      PartialExpires(e, op, pc - 1);
    }
  }

  /** Over a value of the same key, a writer that dies after any of its stores leaves `get` what they left,
      under the old deadline or the new; it is one of the two values exactly when it is not spliced. */
  lemma DeathOverOldValue(c: Config, acts: seq<Action>, op: Op, old': Op, pc: nat, now: Cell) returns (more: seq<Action>)
    requires Legal(c, acts)
    requires var s := After(c, acts); s.holder.Locked? && !s.dirty && s.last == Some(old')
    requires op.Write? && old'.Write? && OpOk(c, op)
    requires op.key == old'.key && op.hash == old'.hash && 0 < pc <= StoreCount(op)
    ensures |op.val| <= |After(c, acts).entry.val|
    ensures Legal(c, more) && 0 in After(c, more).readers
    ensures forall b | Begin(b) in more :: Begin(b) in acts || b == op
    ensures var x, e := After(c, more).readers[0], After(c, acts).entry; var exp := if pc <= 2 then e.expires else op.expires;
      && x.Answered? && x.q == Query(op.key, op.hash, now)
      && (exp != 0 && exp < now ==> x.peek == Expired)
      && (!(exp != 0 && exp < now) ==>
            && x.peek == Hit(LeftValue(op, old'.val, e.val, pc))
            && (x.peek == Hit(op.val) || x.peek == Hit(old'.val) <==> Unspliced(op, old'.val, e.val, pc)))
  {
    hide After, Legal, Partial, StoreAt, PeekAt, LeftValue, Unspliced;
    InvHolds(c, acts);
    var e := After(c, acts).entry;
    SplicedUnless(c, e, op, old', pc);
    LeftEntry(c, e, op, old', pc, now);
    PartialExpires(e, op, pc);
    Undated(Query(op.key, op.hash, now), Partial(e, op, pc));
    var dead := DieAfter(c, acts, op, pc);
    more := GetsLocked(c, dead, 0, Query(op.key, op.hash, now));
  }

  /** An entry answers as it would without a deadline, unless that has passed. */
  lemma Undated(q: Query, e: Entry)
    requires PeekAt(q, e.(expires := 0)).Hit?
    ensures PeekAt(q, e) == if e.expires != 0 && e.expires < q.now then Expired else PeekAt(q, e.(expires := 0))
  {
  }

  /** A writer that dies after its first store brings back what the slot last held, deleted or not: `get` of
      that key is given its value, until its deadline. */
  lemma DeathRevivesDeleted(c: Config, acts: seq<Action>, op: Op, old': Op, now: Cell) returns (more: seq<Action>)
    requires Legal(c, acts) && op.Write? && old'.Write? && OpOk(c, op)
    requires var s := After(c, acts); s.holder.Locked? && !s.dirty && s.last == Some(old')
    ensures Legal(c, more) && 0 in After(c, more).readers
    ensures var exp := After(c, acts).entry.expires;
      After(c, more).readers[0].Answered? && After(c, more).readers[0].q == Query(old'.key, old'.hash, now) &&
      After(c, more).readers[0].peek == if exp != 0 && exp < now then Expired else Hit(old'.val)
  {
    hide After, Legal, StoreAt, Partial;
    InvHolds(c, acts);
    var e := After(c, acts).entry;
    FirstStore(e, op);
    WholeBytes(e, old');
    var dead := DieAfter(c, acts, op, 1);
    more := GetsLocked(c, dead, 0, Query(old'.key, old'.hash, now));
  }

  lemma FirstStore(e: Entry, op: Op)
    requires op.Write?
    ensures 1 <= StoreCount(op) && Partial(e, op, 1) == e.(state := 1)
  {
    assert Partial(e, op, 0) == e;
  }

  /** If the key is touched meanwhile, what was left is served for good, without the lock. */
  lemma TouchExposesSplice(c: Config, acts: seq<Action>, op: Op, old': Op, pc: nat, now: Cell) returns (more: seq<Action>)
    requires Legal(c, acts)
    requires var s := After(c, acts); s.holder.Locked? && !s.dirty && s.last == Some(old')
    requires op.Write? && old'.Write? && OpOk(c, op)
    requires op.key == old'.key && op.hash == old'.hash && 0 < pc <= StoreCount(op)
    ensures |op.val| <= |After(c, acts).entry.val|
    ensures Legal(c, more) && 0 in After(c, more).readers
    ensures forall b | Begin(b) in more :: Begin(b) in acts || b == op || b == MarkExpires(0)
    ensures var x := After(c, more).readers[0];
      && x.Answered? && x.q == Query(op.key, op.hash, now)
      && x.peek == Hit(LeftValue(op, old'.val, After(c, acts).entry.val, pc))
      && (x.peek == Hit(op.val) || x.peek == Hit(old'.val) <==> Unspliced(op, old'.val, After(c, acts).entry.val, pc))
  {
    hide After, Legal, Partial, StoreAt, PeekAt, LeftValue, Unspliced;
    InvHolds(c, acts);
    var e := After(c, acts).entry;
    SplicedUnless(c, e, op, old', pc);
    LeftEntry(c, e, op, old', pc, now);
    var dead := DieAfter(c, acts, op, pc);
    var back := DoAll(c, dead, MarkExpires(0));
    TouchedEntry(Partial(e, op, pc));
    more := PeeksNow(c, back, 0, Query(op.key, op.hash, now));
  }

  /** For values of one length: exactly when they agree before the byte it died at, or from there on. */
  lemma SplicedUnlessAlike(c: Config, e: Entry, op: Op, old': Op, p: nat)
    requires |e.key| == c.keyMax && |e.val| == c.valMax && op.Write? && old'.Write? && OpOk(c, op) && OpOk(c, old')
    requires Whole(e, Some(old')) && |op.val| == |old'.val| && p <= |op.val|
    ensures var v := LeftValue(op, old'.val, e.val, HEAD + |op.key| + p);
      && v == op.val[..p] + old'.val[p..]
      && (v == op.val || v == old'.val <==> op.val[..p] == old'.val[..p] || op.val[p..] == old'.val[p..])
  {
    SplicedUnless(c, e, op, old', HEAD + |op.key| + p);
    assert e.val[p..|op.val|] == old'.val[p..];
    assert p == 0 ==> op.val[..p] + old'.val[p..] == old'.val;
  }

  const TINY: Config := Config(1, 2)
  const OLD: Op := Write([7], [1, 1], 5, 0, 0)
  const NEW: Op := Write([7], [2, 2], 5, 0, 0)

  /** So it happens, from a freshly mapped slot on: a reader is given a value that nobody wrote. */
  lemma ValueNobodyWrote() returns (acts: seq<Action>, v: seq<Cell>)
    ensures Legal(TINY, acts) && 0 in After(TINY, acts).readers
    ensures After(TINY, acts).readers[0].Answered? && After(TINY, acts).readers[0].peek == Hit(v)
    ensures forall b | Begin(b) in acts && b.Write? :: b.val != v
  {
    hide After, Legal, Partial, StoreAt, StoreCount, LeftValue;
    var start := Opened();
    var wrote := DoAll(TINY, start, OLD);
    InvHolds(TINY, wrote);
    CountOf();
    acts := DeathOverOldValue(TINY, wrote, NEW, OLD, 8, 0);
    var e := After(TINY, wrote).entry;
    SplicedUnlessAlike(TINY, e, NEW, OLD, 1);
    v := [2, 1];
    assert NEW.val[..1] + OLD.val[1..] == v;
    assert v[0] == 2 && v[1] == 1;
  }

  lemma CountOf()
    ensures StoreCount(NEW) == 9 && HEAD + |NEW.key| + 1 == 8 && StoreCount(OTHER) == 9
  {
  }

  const OTHER: Op := Write([8], [2, 2], 6, 0, 0)

  /** And a reader of one key is given the value of another, whose slot was being taken over. */
  lemma ValueOfAnotherKey() returns (acts: seq<Action>, v: seq<Cell>)
    ensures Legal(TINY, acts) && 0 in After(TINY, acts).readers
    ensures var x := After(TINY, acts).readers[0];
      && x.Answered? && x.peek == Hit(v)
      && forall b | Begin(b) in acts && b.Write? && b.val == v :: b.key != x.q.key
  {
    hide After, Legal, StoreCount;
    var wrote := OldWritten();
    CountOf();
    acts := DeathMidWriteSplices(TINY, wrote, OTHER, 7, 0);
    v := After(TINY, wrote).entry.val[..2];
    assert OTHER.val[..0] + After(TINY, wrote).entry.val[0..2] == v;
    assert OTHER.val[0] == 2 && v[0] == 1;
  }

  lemma OldWritten() returns (wrote: seq<Action>)
    ensures Legal(TINY, wrote) && After(TINY, wrote).holder.Locked? && forall b | Begin(b) in wrote :: b == OLD
    ensures 2 <= |After(TINY, wrote).entry.val| && After(TINY, wrote).entry.val[..2] == [1, 1]
  {
    hide After, Legal, Partial, StoreAt, StoreCount;
    var start := Opened();
    wrote := DoAll(TINY, start, OLD);
    InvHolds(TINY, wrote);
    hide Stored;
    WholeBytes(After(TINY, wrote).entry, OLD);
  }

  lemma Opened() returns (acts: seq<Action>)
    ensures Legal(TINY, acts) && After(TINY, acts).holder.Locked? && forall b :: Begin(b) !in acts
  {
    Extend(TINY, [], Acquire);
    acts := [] + [Acquire];
  }
}
