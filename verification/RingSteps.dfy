/** The broadcast ring one memory access at a time: publishers and subscribers interleaved in any
    order, a publisher free to stop for ever after any access. */
module RingSteps {
  import opened Common
  import opened Ring

  // ---- The step system ----

  /** The publisher that drew a sequence number, and how many of its accesses it has made. */
  datatype Pub = Pub(e: Event, pc: nat)

  /** A subscriber inside the slot of `s`, with what it has read so far. */
  datatype Reader = Reader(s: nat, pc: nat, clen: nat, plen: nat, chan: Bytes, payload: Bytes)

  /** `pubs[s - 1]` is the publisher of sequence number `s`; `out` is everything delivered. */
  datatype State = State(pubs: seq<Pub>, slots: seq<Slot>, readers: map<nat, Reader>, out: seq<(nat, Event)>)

  datatype Action =
    | Begin(e: Event)
    | Advance(s: nat)
    | Check(r: nat, s: nat)
    | Read(r: nat)

  /** Accesses before the commit: the marker, two lengths, then byte by byte. */
  function Body(e: Event): nat {
    3 + |e.chan| + |e.payload|
  }

  predicate Fits(e: Event) {
    |e.chan| <= CHAN_MAX && |e.payload| <= PAYLOAD_MAX
  }

  predicate Drawn(st: State, s: nat) {
    0 < s <= |st.pubs|
  }

  predicate Started(st: State, s: nat) {
    Drawn(st, s) && 0 < st.pubs[s - 1].pc
  }

  predicate Done(st: State, s: nat) {
    Drawn(st, s) && Body(st.pubs[s - 1].e) < st.pubs[s - 1].pc
  }

  /** The next access of publisher `s`. */
  function Write(sl: Slot, s: nat, p: Pub): (r: Slot)
    requires Sized(sl) && Fits(p.e) && p.pc <= Body(p.e)
    ensures Sized(r)
  {
    if p.pc == 0 then sl.(stamp := 0)
    else if p.pc == 1 then sl.(chanLen := |p.e.chan|)
    else if p.pc == 2 then sl.(payloadLen := |p.e.payload|)
    else if p.pc - 3 < |p.e.chan| then sl.(chan := sl.chan[p.pc - 3 := p.e.chan[p.pc - 3]])
    else if p.pc < Body(p.e) then
      var i := p.pc - 3 - |p.e.chan|;
      sl.(payload := sl.payload[i := p.e.payload[i]])
    else sl.(stamp := s)
  }

  /** The next read of a subscriber that still has something to read. */
  function Look(sl: Slot, rd: Reader): Reader
    requires Sized(sl) && |rd.chan| <= rd.clen && |rd.payload| <= rd.plen && !AllRead(rd)
    requires rd.clen <= CHAN_MAX && rd.plen <= PAYLOAD_MAX
  {
    if rd.pc == 0 then rd.(pc := 1, clen := Min(sl.chanLen, CHAN_MAX))
    else if rd.pc == 1 then rd.(pc := 2, plen := Min(sl.payloadLen, PAYLOAD_MAX))
    else if |rd.chan| < rd.clen then rd.(chan := rd.chan + [sl.chan[|rd.chan|]])
    else rd.(payload := rd.payload + [sl.payload[|rd.payload|]])
  }

  predicate AllRead(rd: Reader) {
    2 <= rd.pc && |rd.chan| == rd.clen && |rd.payload| == rd.plen
  }

  predicate ReaderOk(rd: Reader) {
    && 0 < rd.s && rd.clen <= CHAN_MAX && rd.plen <= PAYLOAD_MAX
    && |rd.chan| <= rd.clen && |rd.payload| <= rd.plen
    && (rd.pc == 0 ==> rd.clen == 0) && (rd.pc <= 1 ==> rd.plen == 0)
  }

  predicate Shaped(st: State) {
    && |st.slots| == RING_SLOTS
    && (forall i | 0 <= i < |st.slots| :: Sized(st.slots[i]))
    && (forall i | 0 <= i < |st.pubs| :: Fits(st.pubs[i].e))
    && (forall r | r in st.readers :: ReaderOk(st.readers[r]))
  }

  predicate Enabled(st: State, a: Action) {
    match a
    case Begin(e) => Fits(e)
    case Advance(s) => Drawn(st, s) && !Done(st, s)
    case Check(r, s) => 0 < s && r !in st.readers
    case Read(r) => r in st.readers
  }

  function Next(st: State, a: Action): State
    requires Shaped(st) && Enabled(st, a)
  {
    match a
    case Begin(e) => st.(pubs := st.pubs + [Pub(e, 0)])
    case Advance(s) =>
      var p := st.pubs[s - 1];
      st.(pubs := st.pubs[s - 1 := p.(pc := p.pc + 1)], slots := st.slots[Index(s) := Write(st.slots[Index(s)], s, p)])
    case Check(r, s) =>
      if st.slots[Index(s)].stamp == s then st.(readers := st.readers[r := Reader(s, 0, 0, 0, [], [])]) else st
    case Read(r) =>
      var rd := st.readers[r];
      var sl := st.slots[Index(rd.s)];
      if !AllRead(rd) then st.(readers := st.readers[r := Look(sl, rd)])
      else st.(readers := st.readers - {r}, out := if sl.stamp == rd.s then st.out + [(rd.s, Event(rd.chan, rd.payload))] else st.out)
  }

  lemma NextShaped(st: State, a: Action)
    requires Shaped(st) && Enabled(st, a)
    ensures Shaped(Next(st, a))
  {
  }

  function Fresh(): State {
    State([], seq(RING_SLOTS, _ => ZERO_SLOT), map[], [])
  }

  ghost predicate Runs(acts: seq<Action>)
    decreases |acts|, 0
  {
    acts == [] || (var init := acts[..|acts| - 1]; Runs(init) && Enabled(After(init), acts[|acts| - 1]))
  }

  ghost function After(acts: seq<Action>): (st: State)
    requires Runs(acts)
    ensures Shaped(st)
    decreases |acts|, 1
  {
    if acts == [] then Fresh()
    else
      var init := acts[..|acts| - 1];
      NextShaped(After(init), acts[|acts| - 1]);
      Next(After(init), acts[|acts| - 1])
  }

  // ---- Taking turns ----

  /** Has begun to write its slot and not yet committed. */
  predicate Inside(st: State, s: nat) {
    Started(st, s) && !Done(st, s)
  }

  /** No publisher starts on a slot while another is inside. */
  predicate Apart(st: State, a: Action) {
    a.Advance? && 0 < a.s && !Started(st, a.s) ==>
      forall u | 0 < u <= |st.pubs| && u != a.s && Index(u) == Index(a.s) :: !Inside(st, u)
  }

  ghost predicate RunsApart(acts: seq<Action>)
    requires Runs(acts)
  {
    acts == [] || (var init := acts[..|acts| - 1]; RunsApart(init) && Apart(After(init), acts[|acts| - 1]))
  }

  /** Everything delivered for a sequence number is what its publisher wrote. */
  predicate Right(st: State) {
    forall i | 0 <= i < |st.out| :: Drawn(st, st.out[i].0) && st.out[i].1 == st.pubs[st.out[i].0 - 1].e
  }

  // ---- What runs in turn keep ----

  /** The slot shows how far publisher `s` has come. */
  predicate Written(sl: Slot, s: nat, p: Pub) {
    && Sized(sl) && Fits(p.e)
    && sl.stamp == (if Body(p.e) < p.pc then s else 0)
    && (2 <= p.pc ==> sl.chanLen == |p.e.chan|)
    && (3 <= p.pc ==> sl.payloadLen == |p.e.payload|)
    && (forall i | 0 <= i < |p.e.chan| && i < p.pc - 3 :: sl.chan[i] == p.e.chan[i])
    && (forall i | 0 <= i < |p.e.payload| && i < p.pc - 3 - |p.e.chan| :: sl.payload[i] == p.e.payload[i])
  }

  ghost predicate OneInside(st: State) {
    forall s: nat, u: nat | Inside(st, s) && Inside(st, u) && Index(s) == Index(u) :: s == u
  }

  ghost predicate SlotsInv(st: State) {
    Shaped(st) && forall s: nat | Inside(st, s) :: Written(st.slots[Index(s)], s, st.pubs[s - 1])
  }

  /** A stamped slot holds the event of the publisher it names, and nobody is inside. */
  ghost predicate StampsInv(st: State) {
    Shaped(st) && forall i | 0 <= i < RING_SLOTS && st.slots[i].stamp != 0 :: StampOk(st, i)
  }

  ghost predicate StampOk(st: State, i: nat)
    requires Shaped(st) && i < RING_SLOTS && st.slots[i].stamp != 0
  {
    var s := st.slots[i].stamp;
    && Index(s) == i && Done(st, s) && Written(st.slots[i], s, st.pubs[s - 1])
    && forall u: nat | Inside(st, u) :: Index(u) != i
  }

  /** What a subscriber has read is a beginning of the event. */
  predicate ReadSoFar(rd: Reader, e: Event) {
    && (1 <= rd.pc ==> rd.clen == |e.chan|) && (2 <= rd.pc ==> rd.plen == |e.payload|)
    && rd.chan <= e.chan && rd.payload <= e.payload
  }

  /** A subscriber's publisher has committed, and what it read is the event unless the slot has been
      taken over. */
  ghost predicate ReadersInv(st: State) {
    Shaped(st) && forall r | r in st.readers :: ReaderInv(st, st.readers[r])
  }

  ghost predicate ReaderInv(st: State, rd: Reader)
    requires Shaped(st)
  {
    Done(st, rd.s) && (st.slots[Index(rd.s)].stamp == rd.s ==> ReadSoFar(rd, st.pubs[rd.s - 1].e))
  }

  ghost predicate Inv(st: State) {
    OneInside(st) && SlotsInv(st) && StampsInv(st) && ReadersInv(st) && Right(st)
  }

  // Publishers

  lemma BeginKeeps(st: State, e: Event)
    requires Inv(st) && Fits(e)
    ensures Inv(Next(st, Begin(e)))
  {
    hide Index, Written, ReadSoFar;
    var st' := Next(st, Begin(e));
    assert forall s: nat :: Inside(st', s) <==> Inside(st, s);
    assert forall s: nat :: Done(st, s) ==> Done(st', s) && st'.pubs[s - 1] == st.pubs[s - 1];
    forall i | 0 <= i < RING_SLOTS && st'.slots[i].stamp != 0
      ensures StampOk(st', i)
    {
      assert StampOk(st, i);
    }
    assert forall r | r in st'.readers :: ReaderInv(st, st.readers[r]);
  }

  /** After publisher `s` has made an access, who has started and who is done. */
  lemma AdvanceProgress(st: State, s: nat, t: nat)
    requires Shaped(st) && Enabled(st, Advance(s))
    ensures var st' := Next(st, Advance(s));
      && (Started(st', t) <==> Started(st, t) || t == s)
      && (Done(st, t) ==> Done(st', t)) && (t != s ==> (Done(st', t) <==> Done(st, t)))
      && (Drawn(st, t) <==> Drawn(st', t)) && (Drawn(st, t) ==> st'.pubs[t - 1].e == st.pubs[t - 1].e)
      && (Drawn(st, t) && t != s ==> st'.pubs[t - 1] == st.pubs[t - 1])
  {
    hide Write, Index;
  }

  lemma WriteProgress(sl: Slot, s: nat, p: Pub)
    requires Sized(sl) && Fits(p.e) && p.pc <= Body(p.e) && (0 < p.pc ==> Written(sl, s, p))
    ensures Written(Write(sl, s, p), s, p.(pc := p.pc + 1))
  {
  }

  /** After an access of publisher `s`, nobody else is inside its slot. */
  lemma AdvanceAlone(st: State, s: nat, u: nat)
    requires Shaped(st) && OneInside(st) && Enabled(st, Advance(s)) && Apart(st, Advance(s))
    requires 0 < u && u != s && Index(u) == Index(s)
    ensures !Inside(st, u) && !Inside(Next(st, Advance(s)), u)
  {
    hide Next, Shaped, Index;
    AdvanceProgress(st, s, u);
    assert Started(st, s) ==> Inside(st, s);
  }

  lemma AdvanceOne(st: State, s: nat)
    requires Shaped(st) && OneInside(st) && Enabled(st, Advance(s)) && Apart(st, Advance(s))
    ensures OneInside(Next(st, Advance(s)))
  {
    hide Next, Shaped, Index, Apart;
    var st' := Next(st, Advance(s));
    forall t: nat, u: nat | Inside(st', t) && Inside(st', u) && Index(t) == Index(u)
      ensures t == u
    {
      AdvanceProgress(st, s, t);
      AdvanceProgress(st, s, u);
      if t == s && u != s {
        AdvanceAlone(st, s, u);
      } else if u == s && t != s {
        AdvanceAlone(st, s, t);
      }
    }
  }

  lemma AdvanceSlots(st: State, s: nat)
    requires Inv(st) && Enabled(st, Advance(s)) && Apart(st, Advance(s))
    ensures SlotsInv(Next(st, Advance(s)))
  {
    hide Index, Write, Written, Apart;
    var st' := Next(st, Advance(s));
    NextShaped(st, Advance(s));
    assert Started(st, s) ==> Inside(st, s);
    WriteProgress(st.slots[Index(s)], s, st.pubs[s - 1]);
    forall t: nat | Inside(st', t)
      ensures Written(st'.slots[Index(t)], t, st'.pubs[t - 1])
    {
      if t != s {
        AdvanceProgress(st, s, t);
        if Index(t) == Index(s) {
          AdvanceAlone(st, s, t);
        }
      }
    }
  }

  lemma AdvanceStamps(st: State, s: nat)
    requires Inv(st) && Enabled(st, Advance(s)) && Apart(st, Advance(s))
    ensures StampsInv(Next(st, Advance(s)))
  {
    hide Index, Apart, Written, Write;
    var st' := Next(st, Advance(s));
    NextShaped(st, Advance(s));
    forall i | 0 <= i < RING_SLOTS && st'.slots[i].stamp != 0
      ensures StampOk(st', i)
    {
      if i == Index(s) {
        AdvanceStampHere(st, s);
      } else {
        assert StampOk(st, i);
        AdvanceProgress(st, s, st.slots[i].stamp);
        forall u: nat | Inside(st', u)
          ensures Index(u) != i
        {
          AdvanceProgress(st, s, u);
        }
      }
    }
  }

  lemma AdvanceStampHere(st: State, s: nat)
    requires Inv(st) && Enabled(st, Advance(s)) && Apart(st, Advance(s))
    requires Next(st, Advance(s)).slots[Index(s)].stamp != 0
    ensures Shaped(Next(st, Advance(s))) && StampOk(Next(st, Advance(s)), Index(s))
  {
    hide Index, Apart;
    var st' := Next(st, Advance(s));
    NextShaped(st, Advance(s));
    assert Started(st, s) ==> Inside(st, s);
    WriteProgress(st.slots[Index(s)], s, st.pubs[s - 1]);
    AdvanceProgress(st, s, s);
    forall u: nat | Inside(st', u)
      ensures Index(u) != Index(s)
    {
      if u != s && Index(u) == Index(s) {
        AdvanceAlone(st, s, u);
      }
    }
  }

  lemma AdvanceReaders(st: State, s: nat)
    requires Inv(st) && Enabled(st, Advance(s))
    ensures ReadersInv(Next(st, Advance(s))) && Right(Next(st, Advance(s)))
  {
    hide Index, Written, ReadSoFar;
    var st' := Next(st, Advance(s));
    NextShaped(st, Advance(s));
    forall r | r in st'.readers
      ensures ReaderInv(st', st'.readers[r])
    {
      assert ReaderInv(st, st.readers[r]);
      AdvanceProgress(st, s, st.readers[r].s);
    }
    forall i | 0 <= i < |st'.out|
      ensures Drawn(st', st'.out[i].0) && st'.out[i].1 == st'.pubs[st'.out[i].0 - 1].e
    {
      AdvanceProgress(st, s, st.out[i].0);
    }
  }

  // Subscribers

  /** A change to subscribers alone changes nothing about publishers and slots. */
  lemma SubscribersApart(st: State, readers: map<nat, Reader>, out: seq<(nat, Event)>)
    requires OneInside(st) && SlotsInv(st) && StampsInv(st) && forall r | r in readers :: ReaderOk(readers[r])
    ensures var st' := st.(readers := readers, out := out);
      && OneInside(st') && SlotsInv(st') && StampsInv(st')
      && forall t: nat :: (Done(st', t) <==> Done(st, t))
  {
    hide Index, Written;
    var st' := st.(readers := readers, out := out);
    assert forall t: nat :: (Inside(st', t) <==> Inside(st, t)) && (Done(st', t) <==> Done(st, t));
    forall i | 0 <= i < RING_SLOTS && st'.slots[i].stamp != 0
      ensures StampOk(st', i)
    {
      assert StampOk(st, i);
    }
  }

  lemma CheckKeeps(st: State, r: nat, s: nat)
    requires Inv(st) && Enabled(st, Check(r, s))
    ensures Inv(Next(st, Check(r, s)))
  {
    hide Index, Written, OneInside, SlotsInv;
    var st' := Next(st, Check(r, s));
    NextShaped(st, Check(r, s)) by { ReadersShaped(st); }
    SubscribersApart(st, st'.readers, st'.out);
    if st.slots[Index(s)].stamp == s {
      assert StampOk(st, Index(s));
    }
    assert forall q | q in st.readers :: ReaderInv(st, st.readers[q]);
  }

  lemma ReadersShaped(st: State)
    requires ReadersInv(st)
    ensures Shaped(st)
  {
  }

  /** Reading a slot that holds an event under the number asked for reads that event. */
  lemma LookAtEvent(sl: Slot, rd: Reader, p: Pub)
    requires Written(sl, rd.s, p) && Body(p.e) < p.pc && ReaderOk(rd) && ReadSoFar(rd, p.e) && !AllRead(rd)
    ensures ReadSoFar(Look(sl, rd), p.e) && Look(sl, rd).s == rd.s && ReaderOk(Look(sl, rd))
  {
  }

  lemma LookStays(sl: Slot, rd: Reader)
    requires Sized(sl) && ReaderOk(rd) && !AllRead(rd)
    ensures Look(sl, rd).s == rd.s
  {
  }

  lemma AllIsRead(rd: Reader, e: Event)
    requires AllRead(rd) && ReadSoFar(rd, e)
    ensures Event(rd.chan, rd.payload) == e
  {
  }

  lemma ReadReaders(st: State, r: nat)
    requires StampsInv(st) && ReadersInv(st) && Right(st) && Enabled(st, Read(r))
    ensures ReadersInv(Next(st, Read(r))) && Right(Next(st, Read(r)))
  {
    hide Index, Written, Look, ReadSoFar;
    var st' := Next(st, Read(r));
    NextShaped(st, Read(r));
    var rd := st.readers[r];
    var sl := st.slots[Index(rd.s)];
    assert ReaderInv(st, rd);
    assert forall q | q in st.readers :: ReaderInv(st, st.readers[q]);
    if !AllRead(rd) {
      LookStays(sl, rd);
      if sl.stamp == rd.s {
        assert StampOk(st, Index(rd.s));
        LookAtEvent(sl, rd, st.pubs[rd.s - 1]);
      }
    } else if sl.stamp == rd.s {
      AllIsRead(rd, st.pubs[rd.s - 1].e);
    }
  }

  lemma ReadKeeps(st: State, r: nat)
    requires Inv(st) && Enabled(st, Read(r))
    ensures Inv(Next(st, Read(r)))
  {
    hide Index, OneInside, SlotsInv, StampsInv, ReadersInv, Right;
    ReadersShaped(st);
    var st' := Next(st, Read(r));
    NextShaped(st, Read(r));
    SubscribersApart(st, st'.readers, st'.out);
    ReadReaders(st, r);
  }

  lemma StepKeeps(st: State, a: Action)
    requires Inv(st) && Enabled(st, a) && Apart(st, a)
    ensures Inv(Next(st, a))
  {
    hide OneInside, SlotsInv, StampsInv, ReadersInv, Right, Next, Apart;
    ReadersShaped(st);
    match a
    case Begin(e) => BeginKeeps(st, e);
    case Advance(s) =>
      AdvanceOne(st, s);
      AdvanceSlots(st, s);
      AdvanceStamps(st, s);
      AdvanceReaders(st, s);
    case Check(r, s) => CheckKeeps(st, r, s);
    case Read(r) => ReadKeeps(st, r);
  }

  lemma {:induction false} ApartRunsKeep(acts: seq<Action>)
    requires Runs(acts) && RunsApart(acts)
    ensures Inv(After(acts))
  {
    if acts != [] {
      hide Inv, Next, Enabled, Apart;
      ApartRunsKeep(acts[..|acts| - 1]);
      StepKeeps(After(acts[..|acts| - 1]), acts[|acts| - 1]);
    }
  }

  // ---- In order ----

  /** No publisher starts on a slot before the one a ring earlier has committed. */
  predicate Ordered(st: State, a: Action) {
    a.Advance? && RING_SLOTS < a.s && !Started(st, a.s) ==> Done(st, a.s - RING_SLOTS)
  }

  ghost predicate RunsOrdered(acts: seq<Action>)
    requires Runs(acts)
  {
    acts == [] || (var init := acts[..|acts| - 1]; RunsOrdered(init) && Ordered(After(init), acts[|acts| - 1]))
  }

  ghost predicate InTurn(st: State) {
    forall s: nat | Started(st, s) && RING_SLOTS < s :: Done(st, s - RING_SLOTS)
  }

  /** Below a publisher that has started, all of its slot have finished. */
  lemma {:induction false} EarlierDone(st: State, s: nat, t: nat)
    requires InTurn(st) && Started(st, t) && 0 < s < t && Index(s) == Index(t)
    ensures Done(st, s)
    decreases t
  {
    hide Index;
    ARingApart(s, t);
    if t - RING_SLOTS != s {
      EarlierDone(st, s, t - RING_SLOTS);
    }
  }

  lemma ARingApart(s: nat, t: nat)
    requires 0 < s < t && Index(s) == Index(t)
    ensures s <= t - RING_SLOTS && Index(t - RING_SLOTS) == Index(t)
  {
  }

  lemma OrderedStep(st: State, a: Action)
    requires Shaped(st) && InTurn(st) && Enabled(st, a) && Ordered(st, a)
    ensures InTurn(Next(st, a)) && Apart(st, a)
  {
    hide Index, Shaped;
    var st' := Next(st, a);
    if a.Advance? {
      forall t: nat | Started(st', t) && RING_SLOTS < t
        ensures Done(st', t - RING_SLOTS)
      {
        AdvanceProgress(st, a.s, t);
        AdvanceProgress(st, a.s, t - RING_SLOTS);
      }
      if !Started(st, a.s) {
        forall u | 0 < u <= |st.pubs| && u != a.s && Index(u) == Index(a.s)
          ensures !Inside(st, u)
        {
          OrderedAlone(st, a.s, u);
        }
      }
    } else {
      assert forall s: nat :: (Started(st', s) <==> Started(st, s)) && (Done(st, s) ==> Done(st', s));
    }
  }

  lemma OrderedAlone(st: State, s: nat, u: nat)
    requires InTurn(st) && Drawn(st, s) && !Started(st, s) && Ordered(st, Advance(s))
    requires 0 < u && u != s && Index(u) == Index(s)
    ensures !Inside(st, u)
  {
    hide Index;
    if Started(st, u) {
      if u < s {
        ARingApart(u, s);
        var t := s - RING_SLOTS;
        if u != t {
          EarlierDone(st, u, t);
        }
      } else {
        EarlierDone(st, s, u);
      }
    }
  }

  lemma {:induction false} OrderedRunsApart(acts: seq<Action>)
    requires Runs(acts) && RunsOrdered(acts)
    ensures RunsApart(acts) && InTurn(After(acts))
  {
    if acts != [] {
      hide InTurn, Next, Enabled, Apart, Ordered;
      OrderedRunsApart(acts[..|acts| - 1]);
      OrderedStep(After(acts[..|acts| - 1]), acts[|acts| - 1]);
    }
  }

  /** Every event delivered for a sequence number is exactly what the publisher of that number wrote, in
      every run where each publisher commits before the one a ring later starts. */
  lemma DeliveredIsPublished(acts: seq<Action>)
    requires Runs(acts) && RunsOrdered(acts)
    ensures Right(After(acts))
  {
    OrderedRunsApart(acts);
    ApartRunsKeep(acts);
  }

  // ---- Without turns ----

  /** A publisher's first access. */
  predicate Starts(st: State, a: Action) {
    a.Advance? && !Started(st, a.s)
  }

  /** No publisher starts after the first `k` accesses. */
  ghost predicate QuietFrom(acts: seq<Action>, k: nat)
    requires Runs(acts)
  {
    |acts| <= k || (var init := acts[..|acts| - 1]; QuietFrom(init, k) && !Starts(After(init), acts[|acts| - 1]))
  }

  lemma Extend(acts: seq<Action>, a: Action, k: nat)
    requires Runs(acts) && Enabled(After(acts), a)
    ensures Runs(acts + [a]) && After(acts + [a]) == Next(After(acts), a) && acts <= acts + [a]
    ensures QuietFrom(acts, k) && !Starts(After(acts), a) ==> QuietFrom(acts + [a], k)
  {
    hide Next, Enabled, Starts;
    var all := acts + [a];
    assert all[..|all| - 1] == acts && all[|all| - 1] == a;
  }

  /** Publishers `u` and `t` of one slot are `pu` and `pt` accesses in, the slot is `sl`, and everything
      delivered and every subscriber is as in `st0`. */
  ghost predicate Racing(st: State, st0: State, u: nat, t: nat, pu: nat, pt: nat, sl: Slot)
    requires Drawn(st0, u) && Drawn(st0, t)
  {
    && |st.slots| == RING_SLOTS && st.slots[Index(u)] == sl && Sized(sl)
    && |st.pubs| == |st0.pubs| && st.pubs[u - 1] == Pub(st0.pubs[u - 1].e, pu) && st.pubs[t - 1] == Pub(st0.pubs[t - 1].e, pt)
    && st.readers == st0.readers && st.out == st0.out
  }

  predicate Rivals(st: State, u: nat, t: nat) {
    Drawn(st, u) && Drawn(st, t) && u != t && Index(u) == Index(t) && Fits(st.pubs[u - 1].e) && Fits(st.pubs[t - 1].e)
  }

  lemma FirstSteps(acts: seq<Action>, st0: State, u: nat, t: nat, pu: nat, pt: nat, sl: Slot, k: nat)
      returns (more: seq<Action>, sl': Slot)
    requires Runs(acts) && Rivals(st0, u, t) && Racing(After(acts), st0, u, t, pu, pt, sl) && pu <= Body(st0.pubs[u - 1].e)
    ensures sl' == Write(sl, u, Pub(st0.pubs[u - 1].e, pu))
    ensures acts <= more && Runs(more) && Racing(After(more), st0, u, t, pu + 1, pt, sl')
    ensures 0 < pu && QuietFrom(acts, k) ==> QuietFrom(more, k)
  {
    hide Write, Shaped, Index, Runs, QuietFrom, After;
    var st := After(acts);
    Extend(acts, Advance(u), k);
    more, sl' := acts + [Advance(u)], Write(sl, u, Pub(st0.pubs[u - 1].e, pu));
  }

  /** The same, seen from the other. */
  lemma RacingSwaps(st: State, st0: State, u: nat, t: nat, pu: nat, pt: nat, sl: Slot)
    requires Rivals(st0, u, t) && Racing(st, st0, u, t, pu, pt, sl)
    ensures Rivals(st0, t, u) && Racing(st, st0, t, u, pt, pu, sl)
  {
    hide Index;
  }

  /** `u` writes all of its event and stops before its commit: the slot stays unstamped. */
  lemma {:induction false} WritesAllBut(acts: seq<Action>, st0: State, u: nat, t: nat, pu: nat, pt: nat, sl: Slot, k: nat)
      returns (more: seq<Action>, sl': Slot)
    requires Runs(acts) && Rivals(st0, u, t) && Racing(After(acts), st0, u, t, pu, pt, sl) && sl.stamp == 0
    requires pu <= Body(st0.pubs[u - 1].e)
    ensures sl'.stamp == 0 && acts <= more && Runs(more) && Racing(After(more), st0, u, t, Body(st0.pubs[u - 1].e), pt, sl')
    ensures 0 < pu && QuietFrom(acts, k) ==> QuietFrom(more, k)
    decreases Body(st0.pubs[u - 1].e) - pu
  {
    hide Runs, After, QuietFrom, Racing, Index;
    if pu == Body(st0.pubs[u - 1].e) {
      more, sl' := acts, sl;
    } else {
      var next, sl1 := FirstSteps(acts, st0, u, t, pu, pt, sl, k);
      RacingSized(After(acts), st0, u, t, pu, pt, sl);
      more, sl' := WritesAllBut(next, st0, u, t, pu + 1, pt, sl1, k);
    }
  }

  lemma RacingSized(st: State, st0: State, u: nat, t: nat, pu: nat, pt: nat, sl: Slot)
    requires Drawn(st0, u) && Drawn(st0, t) && Racing(st, st0, u, t, pu, pt, sl)
    ensures Sized(sl)
  {
  }

  /** `t`, once started, writes all of its event over what is there and commits. */
  lemma {:induction false} WritesAll(acts: seq<Action>, st0: State, t: nat, u: nat, pt: nat, pu: nat, sl: Slot, k: nat)
      returns (more: seq<Action>, sl': Slot)
    requires Runs(acts) && Rivals(st0, t, u) && Racing(After(acts), st0, t, u, pt, pu, sl)
    requires 0 < pt <= Body(st0.pubs[t - 1].e) + 1 && Written(sl, t, Pub(st0.pubs[t - 1].e, pt))
    ensures var e := st0.pubs[t - 1].e;
      Written(sl', t, Pub(e, Body(e) + 1)) && acts <= more && Runs(more) && Racing(After(more), st0, t, u, Body(e) + 1, pu, sl')
    ensures QuietFrom(acts, k) ==> QuietFrom(more, k)
    decreases Body(st0.pubs[t - 1].e) + 1 - pt
  {
    hide Runs, After, QuietFrom, Racing, Index, Written;
    var e := st0.pubs[t - 1].e;
    if pt == Body(e) + 1 {
      more, sl' := acts, sl;
    } else {
      RacingSized(After(acts), st0, t, u, pt, pu, sl);
      var next, sl1 := FirstSteps(acts, st0, t, u, pt, pu, sl, k);
      WriteProgress(sl, t, Pub(e, pt));
      more, sl' := WritesAll(next, st0, t, u, pt + 1, pu, sl1, k);
    }
  }

  /** With a subscriber `r` in the slot. */
  ghost predicate Reading(st: State, st0: State, u: nat, sl: Slot, r: nat, rd: Reader)
    requires Drawn(st0, u)
  {
    && |st.slots| == RING_SLOTS && st.slots[Index(u)] == sl && |st.pubs| == |st0.pubs| && st.pubs[u - 1].e == st0.pubs[u - 1].e
    && r in st.readers && st.readers[r] == rd && rd.s == u && st.out == st0.out
  }

  /** How much a subscriber has still to read of an event. */
  function ToRead(rd: Reader, e: Event): int {
    (2 - rd.pc) + (|e.chan| - |rd.chan|) + (|e.payload| - |rd.payload|)
  }

  /** A subscriber that finds a slot stamped `u` with the event `e` in it is given `e` for `u`. */
  lemma {:induction false} ReadsAll(acts: seq<Action>, st0: State, u: nat, sl: Slot, r: nat, rd: Reader, e: Event, k: nat)
      returns (more: seq<Action>)
    requires Runs(acts) && Drawn(st0, u) && Reading(After(acts), st0, u, sl, r, rd)
    requires Written(sl, u, Pub(e, Body(e) + 1)) && ReaderOk(rd) && ReadSoFar(rd, e) && rd.pc <= 2
    ensures acts <= more && Runs(more) && After(more).out == st0.out + [(u, e)]
    ensures |After(more).pubs| == |st0.pubs| && After(more).pubs[u - 1].e == st0.pubs[u - 1].e
    ensures QuietFrom(acts, k) ==> QuietFrom(more, k)
    decreases ToRead(rd, e)
  {
    hide Runs, After, QuietFrom, Shaped, Index, Written, Look;
    Extend(acts, Read(r), k);
    more := acts + [Read(r)];
    StampIs(sl, u, e);
    if AllRead(rd) {
      AllIsRead(rd, e);
    } else {
      LookAtEvent(sl, rd, Pub(e, Body(e) + 1));
      LookCounts(sl, rd, e);
      more := ReadsAll(more, st0, u, sl, r, Look(sl, rd), e, k);
    }
  }

  lemma StampIs(sl: Slot, u: nat, e: Event)
    requires Written(sl, u, Pub(e, Body(e) + 1))
    ensures sl.stamp == u && Sized(sl)
  {
  }

  lemma LookCounts(sl: Slot, rd: Reader, e: Event)
    requires Written(sl, rd.s, Pub(e, Body(e) + 1)) && ReaderOk(rd) && ReadSoFar(rd, e) && !AllRead(rd) && rd.pc <= 2
    ensures Look(sl, rd).pc <= 2 && 0 <= ToRead(Look(sl, rd), e) < ToRead(rd, e)
  {
  }

  lemma FreshReader(readers: map<nat, Reader>) returns (r: nat)
    ensures r !in readers
  {
    var ids := readers.Keys;
    r := 0;
    while ids != {}
      invariant forall i | i in readers :: i in ids || i < r
      decreases |ids|
    {
      var i :| i in ids;
      ids := ids - {i};
      r := if i < r then r else i + 1;
    }
  }

  /** `t` has started while `u` has not committed: `u` can write all but its commit, `t` all of its
      event, and then `u` commits; a subscriber is given for `u` the event of `t`. */
  lemma Overtakes(acts: seq<Action>, u: nat, t: nat, k: nat) returns (more: seq<Action>)
    requires Runs(acts) && Rivals(After(acts), u, t) && !Done(After(acts), u)
    requires After(acts).pubs[t - 1].pc == 1 && After(acts).slots[Index(u)].stamp == 0
    ensures acts <= more && Runs(more) && |After(more).pubs| == |After(acts).pubs|
    ensures After(more).out == After(acts).out + [(u, After(acts).pubs[t - 1].e)]
    ensures After(more).pubs[u - 1].e == After(acts).pubs[u - 1].e
    ensures Started(After(acts), u) && QuietFrom(acts, k) ==> QuietFrom(more, k)
  {
    hide Runs, After, QuietFrom, Index, Written;
    var st0 := After(acts);
    var e, d := st0.pubs[t - 1].e, st0.pubs[u - 1].e;
    var pu, sl := st0.pubs[u - 1].pc, st0.slots[Index(u)];
    more, sl := WritesAllBut(acts, st0, u, t, pu, 1, sl, k);
    RacingSwaps(After(more), st0, u, t, Body(d), 1, sl);
    UnstampedStart(sl, t, e);
    more, sl := WritesAll(more, st0, t, u, 1, Body(d), sl, k);
    RacingSwaps(After(more), st0, t, u, Body(e) + 1, Body(d), sl);
    var was := sl;
    more, sl := FirstSteps(more, st0, u, t, Body(d), Body(e) + 1, sl, k);
    CommitStamps(was, u, t, d, e);
    var r := FreshReader(st0.readers);
    var rd := Reader(u, 0, 0, 0, [], []);
    StampIs(sl, u, e);
    Extend(more, Check(r, u), k);
    more := more + [Check(r, u)];
    more := ReadsAll(more, st0, u, sl, r, rd, e, k);
  }

  lemma UnstampedStart(sl: Slot, t: nat, e: Event)
    requires Sized(sl) && sl.stamp == 0 && Fits(e)
    ensures Written(sl, t, Pub(e, 1))
  {
  }

  /** A commit over another's event stamps it. */
  lemma CommitStamps(sl: Slot, u: nat, t: nat, d: Event, e: Event)
    requires Written(sl, t, Pub(e, Body(e) + 1)) && Fits(d)
    ensures Written(Write(sl, u, Pub(d, Body(d))), u, Pub(e, Body(e) + 1))
  {
  }

  /** What a publisher's start leaves: its slot unstamped, and itself one access in. */
  lemma Started1(st: State, t: nat)
    requires Shaped(st) && Enabled(st, Advance(t)) && !Started(st, t)
    ensures var st' := Next(st, Advance(t));
      && st'.slots[Index(t)].stamp == 0 && st'.pubs[t - 1] == Pub(st.pubs[t - 1].e, 1) && st'.out == st.out
      && |st'.pubs| == |st.pubs| && forall u: nat | Drawn(st, u) && u != t :: st'.pubs[u - 1] == st.pubs[u - 1]
  {
    hide Index;
  }

  /** Any start of a publisher while another of its slot has not committed can end in the other's number
      being delivered with its own event — without another start, if the other is inside. */
  lemma StartBeforeCommit(acts: seq<Action>, u: nat, t: nat) returns (more: seq<Action>)
    requires Runs(acts) && Enabled(After(acts), Advance(t)) && !Started(After(acts), t)
    requires Drawn(After(acts), u) && u != t && Index(u) == Index(t) && !Done(After(acts), u)
    ensures acts + [Advance(t)] <= more && Runs(more) && |After(more).pubs| == |After(acts).pubs|
    ensures After(more).out == After(acts).out + [(u, After(acts).pubs[t - 1].e)]
    ensures After(more).pubs[u - 1].e == After(acts).pubs[u - 1].e
    ensures Started(After(acts), u) ==> QuietFrom(more, |acts| + 1)
  {
    hide Runs, After, QuietFrom, Index, Next;
    var st := After(acts);
    Extend(acts, Advance(t), |acts| + 1);
    Started1(st, t);
    var next := acts + [Advance(t)];
    QuietAtEnd(next);
    more := Overtakes(next, u, t, |acts| + 1);
  }

  lemma QuietAtEnd(acts: seq<Action>)
    requires Runs(acts)
    ensures QuietFrom(acts, |acts|)
  {
  }

  /** The start of a publisher before the one a ring earlier has committed can always end in the earlier
      number being delivered with the later event. */
  lemma UnorderedDeliversAnother(acts: seq<Action>, t: nat) returns (more: seq<Action>)
    requires Runs(acts) && Enabled(After(acts), Advance(t)) && !Ordered(After(acts), Advance(t))
    requires After(acts).pubs[t - 1].e != After(acts).pubs[t - RING_SLOTS - 1].e
    ensures acts + [Advance(t)] <= more && Runs(more) && !Right(After(more))
    ensures After(more).out == After(acts).out + [(t - RING_SLOTS, After(acts).pubs[t - 1].e)]
  {
    hide Runs, After, Shaped;
    var s := t - RING_SLOTS;
    more := StartBeforeCommit(acts, s, t);
    var st := After(more);
    assert st.out[|st.out| - 1] == (s, After(acts).pubs[t - 1].e);
  }

  // ---- Exactly when deliveries are right ----

  /** Publishers of one slot publish different events. */
  predicate EventsDiffer(st: State) {
    forall u, t | 0 < u < t <= |st.pubs| && Index(u) == Index(t) :: st.pubs[u - 1].e != st.pubs[t - 1].e
  }

  /** However the run goes on from any point without another start, deliveries are right. */
  ghost predicate AlwaysRight(acts: seq<Action>)
    requires Runs(acts)
  {
    forall k: nat, more: seq<Action> | k <= |acts| && acts[..k] <= more && Runs(more) && QuietFrom(more, k) :: Right(After(more))
  }

  lemma {:induction false} PrefixRuns(acts: seq<Action>, k: nat)
    requires Runs(acts) && k <= |acts|
    ensures Runs(acts[..k]) && (RunsApart(acts) ==> RunsApart(acts[..k]))
    ensures k < |acts| ==> Enabled(After(acts[..k]), acts[k])
  {
    hide After, Enabled, Apart;
    if k == |acts| {
      assert acts[..k] == acts;
    } else if k < |acts| - 1 {
      PrefixRuns(acts[..|acts| - 1], k);
      assert acts[..|acts| - 1][..k] == acts[..k];
    }
  }

  /** A run in turn stays so while nobody starts. */
  lemma {:induction false} QuietIsApart(acts: seq<Action>, k: nat)
    requires Runs(acts) && k <= |acts| && Runs(acts[..k]) && RunsApart(acts[..k]) && QuietFrom(acts, k)
    ensures RunsApart(acts)
    decreases |acts|
  {
    hide After, Enabled;
    if k == |acts| {
      assert acts[..k] == acts;
    } else {
      var init := acts[..|acts| - 1];
      assert init[..k] == acts[..k];
      QuietIsApart(init, k);
    }
  }

  lemma {:induction false} FirstOverlap(acts: seq<Action>) returns (k: nat)
    requires Runs(acts) && !RunsApart(acts)
    ensures k < |acts| && Runs(acts[..k]) && Enabled(After(acts[..k]), acts[k]) && !Apart(After(acts[..k]), acts[k])
  {
    hide After, Enabled, Apart;
    var init := acts[..|acts| - 1];
    if !Apart(After(init), acts[|acts| - 1]) {
      k := |acts| - 1;
    } else {
      k := FirstOverlap(init);
      assert init[..k] == acts[..k] && init[k] == acts[k];
    }
  }

  /** Events never change once drawn. */
  lemma {:induction false} EventsStay(acts: seq<Action>, k: nat, u: nat)
    requires Runs(acts) && k <= |acts| && Runs(acts[..k]) && Drawn(After(acts[..k]), u)
    ensures Drawn(After(acts), u) && After(acts).pubs[u - 1].e == After(acts[..k]).pubs[u - 1].e
    decreases |acts|
  {
    if k == |acts| {
      assert acts[..k] == acts;
    } else {
      hide Next, Enabled;
      var init := acts[..|acts| - 1];
      assert init[..k] == acts[..k];
      EventsStay(init, k, u);
      EventStays(After(init), acts[|acts| - 1], u);
    }
  }

  lemma EventStays(st: State, a: Action, u: nat)
    requires Shaped(st) && Enabled(st, a) && Drawn(st, u)
    ensures Drawn(Next(st, a), u) && Next(st, a).pubs[u - 1].e == st.pubs[u - 1].e
  {
    hide Index, Write;
  }

  lemma OverlapHarms(acts: seq<Action>)
    requires Runs(acts) && !RunsApart(acts) && EventsDiffer(After(acts))
    ensures !AlwaysRight(acts)
  {
    hide Runs, After, QuietFrom, Enabled, RunsApart, Index, Shaped;
    var k := FirstOverlap(acts);
    var st, a := After(acts[..k]), acts[k];
    var t := a.s;
    var u :| 0 < u <= |st.pubs| && u != t && Index(u) == Index(t) && Inside(st, u);
    AdvanceDrawn(st, a);
    var more := StartBeforeCommit(acts[..k], u, t);
    EventsStay(acts, k, u);
    EventsStay(acts, k, t);
    assert st.pubs[u - 1].e != st.pubs[t - 1].e;
    var end := After(more);
    assert end.out[|end.out| - 1] == (u, st.pubs[t - 1].e);
    assert !Right(end);
    PrefixRuns(acts, k + 1);
    assert acts[..k + 1] == acts[..k] + [a] && |acts[..k]| + 1 == k + 1;
  }

  lemma AdvanceDrawn(st: State, a: Action)
    requires Enabled(st, a) && a.Advance?
    ensures Drawn(st, a.s)
  {
  }

  /** Where publishers of one slot publish different events, deliveries are right however a run goes on
      exactly when no publisher started on a slot while another was inside. */
  lemma RightIffApart(acts: seq<Action>)
    requires Runs(acts) && EventsDiffer(After(acts))
    ensures AlwaysRight(acts) <==> RunsApart(acts)
  {
    hide Runs, After, QuietFrom, RunsApart, Right, EventsDiffer, Inv;
    if RunsApart(acts) {
      forall k: nat, more: seq<Action> | k <= |acts| && acts[..k] <= more && Runs(more) && QuietFrom(more, k)
        ensures Right(After(more))
      {
        PrefixRuns(acts, k);
        assert more[..k] == acts[..k];
        QuietIsApart(more, k);
        ApartRunsKeep(more);
        InvIsRight(After(more));
      }
    } else {
      OverlapHarms(acts);
    }
  }

  lemma InvIsRight(st: State)
    requires Inv(st)
    ensures Right(st)
  {
  }

  // ---- It happens ----

  const SLOW: Event := Event([], [1])
  const FAST: Event := Event([], [2])

  lemma {:induction false} DrawMany(k: nat) returns (acts: seq<Action>)
    ensures Runs(acts) && |After(acts).pubs| == k + 1 && After(acts).pubs[0] == Pub(SLOW, 0)
    ensures forall i | 0 < i <= k :: After(acts).pubs[i] == Pub(FAST, 0)
  {
    if k == 0 {
      Extend([], Begin(SLOW), 0);
      acts := [] + [Begin(SLOW)];
    } else {
      var init := DrawMany(k - 1);
      Extend(init, Begin(FAST), 0);
      acts := init + [Begin(FAST)];
    }
  }

  /** A publisher stops, a ring of others is drawn, and the last of them overtakes it. */
  lemma OverlapDeliversAnother() returns (acts: seq<Action>)
    ensures Runs(acts) && !Right(After(acts))
  {
    hide Runs, After;
    var drawn := DrawMany(RING_SLOTS);
    assert SLOW.payload[0] != FAST.payload[0];
    acts := UnorderedDeliversAnother(drawn, RING_SLOTS + 1);
  }
}
