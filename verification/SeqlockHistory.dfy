/** A slot's answers by its history alone: what was stored in it before the reader looked. */
module SeqlockHistory {
  import opened Common
  import opened Seqlock

  // ---- What a whole operation does ----

  predicate Fits(e: Entry, op: Op) {
    op.Write? ==> |op.key| <= |e.key| && |op.val| <= |e.val|
  }

  /** The entry after a whole operation. */
  function Done(e: Entry, op: Op): Entry
    requires Fits(e, op)
  {
    match op
    case Write(key, val, hash, expires, written) =>
      Entry(1, hash, expires, written, |key|, |val|, key + e.key[|key|..], val + e.val[|val|..])
    case MarkState(st) => e.(state := st)
    case MarkExpires(at) => e.(expires := at)
  }

  lemma {:induction false} PartialWritten(e: Entry, op: Op, pc: nat)
    requires op.Write? && pc <= StoreCount(op)
    ensures Partial(e, op, pc).written == if pc <= 3 then e.written else op.written
  {
    if 0 < pc {
      PartialWritten(e, op, pc - 1);
    }
  }

  lemma WholeWrite(e: Entry, op: Op)
    requires op.Write? && Fits(e, op)
    ensures Partial(e, op, StoreCount(op)) == Done(e, op)
  {
    hide Partial;
    var n := StoreCount(op);
    PartialFacts(e, op, n);
    PartialKeeps(e, op, n);
    PartialExpires(e, op, n);
    PartialWritten(e, op, n);
    var p := Partial(e, op, n);
    assert p.key == op.key + e.key[|op.key|..];
    assert p.val == op.val + e.val[|op.val|..];
  }

  lemma WholeOp(e: Entry, op: Op)
    requires Fits(e, op)
    ensures Partial(e, op, StoreCount(op)) == Done(e, op)
  {
    if op.Write? {
      WholeWrite(e, op);
    } else {
      assert Partial(e, op, 0) == e;
    }
  }

  lemma {:induction false} PrefixLegal(c: Config, acts: seq<Action>, n: nat)
    requires Legal(c, acts) && n <= |acts|
    ensures Legal(c, acts[..n])
  {
    hide Enabled, Next;
    if n == |acts| {
      assert acts[..n] == acts;
    } else {
      PrefixLegal(c, acts[..|acts| - 1], n);
      assert acts[..|acts| - 1][..n] == acts[..n];
    }
  }

  lemma LastStep(c: Config, acts: seq<Action>, a: Action)
    requires Legal(c, acts + [a])
    ensures Legal(c, acts) && Enabled(c, After(c, acts), a) && After(c, acts + [a]) == Next(c, After(c, acts), a)
  {
    hide Enabled, Next;
    assert (acts + [a])[..|acts + [a]| - 1] == acts;
  }

  /** So far through the operation, over the entry it began with. */
  predicate Through(s: Slot, e: Entry, op: Op) {
    match s.holder
    case Loaded(o, _) => o == op && s.entry == e
    case Inside(o, _, pc) => o == op && pc <= StoreCount(op) && s.entry == Partial(e, op, pc)
    case _ => false
  }

  lemma StepThrough(c: Config, s: Slot, a: Action, e: Entry, op: Op)
    requires Through(s, e, op) && Enabled(c, s, a) && a != Finish && a != Die
    ensures Through(Next(c, s, a), e, op)
  {
    hide StoreAt, Apply;
    assert Partial(e, op, 0) == e;
  }

  lemma {:induction false} RunThrough(c: Config, init: seq<Action>, op: Op, mid: seq<Action>)
    requires Legal(c, init + [Begin(op)] + mid) && forall i | 0 <= i < |mid| :: mid[i] != Finish && mid[i] != Die
    ensures Legal(c, init) && Through(After(c, init + [Begin(op)] + mid), After(c, init).entry, op)
    decreases |mid|
  {
    hide Legal, After, Partial;
    if mid == [] {
      assert init + [Begin(op)] + mid == init + [Begin(op)];
      LastStep(c, init, Begin(op));
    } else {
      var m, a := mid[..|mid| - 1], mid[|mid| - 1];
      assert init + [Begin(op)] + mid == init + [Begin(op)] + m + [a];
      LastStep(c, init + [Begin(op)] + m, a);
      RunThrough(c, init, op, m);
      StepThrough(c, After(c, init + [Begin(op)] + m), a, After(c, init).entry, op);
    }
  }

  /** In every run, whatever readers do in between, an operation that finishes has changed exactly what it
      says: a write the whole entry, a mark the state, a touch the deadline. */
  lemma FinishedOp(c: Config, init: seq<Action>, op: Op, mid: seq<Action>)
    requires Legal(c, init + [Begin(op)] + mid + [Finish]) && forall i | 0 <= i < |mid| :: mid[i] != Finish && mid[i] != Die
    ensures Legal(c, init) && Fits(After(c, init).entry, op)
    ensures After(c, init + [Begin(op)] + mid + [Finish]).entry == Done(After(c, init).entry, op)
  {
    hide Legal, After, Partial;
    LastStep(c, init + [Begin(op)] + mid, Finish);
    RunThrough(c, init, op, mid);
    InvHolds(c, init);
    InvHolds(c, init + [Begin(op)] + mid);
    WholeOp(After(c, init).entry, op);
  }

  // ---- What was stored last ----

  /** The action stores the slot's state: the first store of a write, or that of a mark. */
  ghost predicate StoresState(c: Config, acts: seq<Action>, j: nat) {
    && j < |acts| && Legal(c, acts[..j]) && acts[j] == DoStore
    && var h := After(c, acts[..j]).holder; h.Inside? && ((h.op.Write? && h.pc == 0) || h.op.MarkState?)
  }

  /** The last state stored, 0 before the first. */
  ghost function StateStored(c: Config, acts: seq<Action>): Cell
    requires Legal(c, acts)
  {
    if acts == [] then 0
    else
      var n := |acts| - 1;
      if !StoresState(c, acts, n) then StateStored(c, acts[..n])
      else var op := After(c, acts[..n]).holder.op; if op.Write? then 1 else op.state
  }

  /** The action stores the slot's deadline: the third store of a write, or that of a touch. */
  ghost predicate StoresDeadline(c: Config, acts: seq<Action>, j: nat) {
    && j < |acts| && Legal(c, acts[..j]) && acts[j] == DoStore
    && var h := After(c, acts[..j]).holder; h.Inside? && ((h.op.Write? && h.pc == 2) || h.op.MarkExpires?)
  }

  /** The last deadline stored, 0 before the first. */
  ghost function DeadlineStored(c: Config, acts: seq<Action>): Cell
    requires Legal(c, acts)
  {
    if acts == [] then 0
    else
      var n := |acts| - 1;
      if !StoresDeadline(c, acts, n) then DeadlineStored(c, acts[..n])
      else var op := After(c, acts[..n]).holder.op; if op.Write? then op.expires else op.at
  }

  lemma StepStores(c: Config, s: Slot, a: Action)
    requires Enabled(c, s, a)
    ensures var t, h := Next(c, s, a), s.holder;
      && t.entry.state == (if a == DoStore && h.op.Write? && h.pc == 0 then 1
                           else if a == DoStore && h.op.MarkState? then h.op.state else s.entry.state)
      && t.entry.expires == (if a == DoStore && h.op.Write? && h.pc == 2 then h.op.expires
                             else if a == DoStore && h.op.MarkExpires? then h.op.at else s.entry.expires)
  {
  }

  /** In every run the slot's state and deadline are those stored last. */
  lemma {:induction false} EntryIsStored(c: Config, acts: seq<Action>)
    requires Legal(c, acts)
    ensures After(c, acts).entry.state == StateStored(c, acts) && After(c, acts).entry.expires == DeadlineStored(c, acts)
  {
    if acts != [] {
      var init := acts[..|acts| - 1];
      EntryIsStored(c, init);
      StepStores(c, After(c, init), acts[|acts| - 1]);
      hide Next;
    }
  }

  lemma StoredBefore(c: Config, acts: seq<Action>, n: nat, j: nat)
    requires j < n <= |acts|
    ensures StoresState(c, acts[..n], j) <==> StoresState(c, acts, j)
  {
    hide Legal, After;
    assert acts[..n][..j] == acts[..j];
  }

  /** Where no state 0 is ever marked, the last state stored is 0 only if none was stored. */
  lemma {:induction false} ZeroIffNoneStored(c: Config, acts: seq<Action>)
    requires Legal(c, acts) && Begin(MarkState(0)) !in acts
    ensures StateStored(c, acts) == 0 <==> forall j: nat | j < |acts| :: !StoresState(c, acts, j)
  {
    if acts != [] {
      var n := |acts| - 1;
      var init := acts[..n];
      ZeroIffNoneStored(c, init);
      LastWasBegun(c, init);
      hide Legal, After;
      forall j: nat | j < n
        ensures StoresState(c, init, j) <==> StoresState(c, acts, j)
      {
        StoredBefore(c, acts, n, j);
      }
    }
  }

  /** In every run in which no slot is marked empty, with writers dying anywhere: a look at the slot ends the
      probe exactly if nothing had stored its state before. So a tombstone, or an entry half written, never
      hides the keys behind it. */
  lemma ChainEndIffUnused(c: Config, acts: seq<Action>, r: nat)
    requires Legal(c, acts) && Begin(MarkState(0)) !in acts && r in After(c, acts).readers
    requires var x := After(c, acts).readers[r]; x.Answered? && !x.peek.Torn?
    ensures var x := After(c, acts).readers[r];
      exists n: nat :: BeginsPeek(acts, n, r, x.q) && (x.peek == ChainEnd <==> forall j: nat | j < n :: !StoresState(c, acts, j))
  {
    hide StateStored, StoresState, StoresDeadline, DeadlineStored;
    InvHolds(c, acts);
    var n := SeenIsAnInstant(c, acts, r);
    hide After, Legal;
    var x := After(c, acts).readers[r];
    EntryIsStored(c, acts[..n]);
    ZeroIffNoneStored(c, acts[..n]);
    forall j: nat | j < n
      ensures StoresState(c, acts[..n], j) <==> StoresState(c, acts, j)
    {
      StoredBefore(c, acts, n, j);
    }
    assert x.peek == PeekAt(x.q, x.seen);
    assert x.peek == ChainEnd <==> x.seen.state == 0;
  }

  // ---- The whole answer ----

  /** What a look after these actions is told, by what was stored: nothing yet, the last whole write if the
      slot is occupied and it is the key's, unless the last deadline stored has passed, or another key. */
  ghost function Told(c: Config, acts: seq<Action>, q: Query): Peek
    requires Legal(c, acts)
  {
    var st, d, last := StateStored(c, acts), DeadlineStored(c, acts), After(c, acts).last;
    if st == 0 then ChainEnd
    else if st == 1 && last.Some? && last.value.Write? && last.value.key == q.key && last.value.hash == q.hash then
      if d != 0 && d < q.now then Expired else Hit(last.value.val)
    else Other
  }

  lemma WholeTells(c: Config, e: Entry, last: Option<Op>, q: Query)
    requires |e.key| == c.keyMax && |e.val| == c.valMax && Whole(e, last) && (last.Some? ==> last.value.Write? && OpOk(c, last.value))
    ensures PeekAt(q, e) ==
            if e.state == 0 then ChainEnd
            else if e.state == 1 && last.Some? && last.value.Write? && last.value.key == q.key && last.value.hash == q.hash then
              if e.expires != 0 && e.expires < q.now then Expired else Hit(last.value.val)
            else Other
  {
    if last.Some? {
      WholeBytes(e, last.value);
      hide Stored, Whole;
    }
  }

  /** In runs where no writer dies inside a write, every look at the slot that is not torn is told exactly what
      the history before it says: which answer, and which value. */
  lemma PeekIsHistory(c: Config, acts: seq<Action>, r: nat)
    requires Legal(c, acts) && NoDeathMidWrite(c, acts) && r in After(c, acts).readers
    requires var x := After(c, acts).readers[r]; x.Answered? && !x.peek.Torn?
    ensures var x := After(c, acts).readers[r];
      exists n: nat :: BeginsPeek(acts, n, r, x.q) && Legal(c, acts[..n]) && x.peek == Told(c, acts[..n], x.q)
  {
    hide StateStored, DeadlineStored;
    InvHolds(c, acts);
    var n := SeenIsAnInstant(c, acts, r);
    hide After, Legal, NoDeathMidWrite;
    var x := After(c, acts).readers[r];
    CrashFreePrefix(c, acts, n);
    CrashFreeStaysClean(c, acts[..n]);
    InvHolds(c, acts[..n]);
    EntryIsStored(c, acts[..n]);
    var s := After(c, acts[..n]);
    assert WholeInv(s) && Whole(s.entry, s.last);
    WholeTells(c, s.entry, s.last, x.q);
    assert x.peek == PeekAt(x.q, x.seen);
  }
}
