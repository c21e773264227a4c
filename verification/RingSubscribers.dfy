/** A subscriber that polls the broadcast ring again and again, among publishers and other subscribers
    interleaved one memory access at a time. */
module RingSubscribers {
  import opened Common
  import opened Ring
  import opened RingSteps

  // ---- The step system ----

  /** Between two calls of `read_from`, or inside one, about to look at number `s` of those up to `w`. */
  datatype Place = Rest(last: nat) | Scan(w: nat, s: nat)

  /** `given` is all it was given since it joined, `early` the numbers whose publishers had not committed
      when it looked at their slots, `jumped` those it did not look at, being a ring behind. */
  datatype Sub = Sub(place: Place, joined: nat, given: seq<(nat, Event)>, early: set<nat>, jumped: set<nat>)

  datatype World = World(ring: State, sub: Sub)

  /** The reader that stands for the subscriber in the ring. */
  const ME: nat := 0

  datatype Deed =
    | Others(a: Action)
    | Join
    | Poll
    | Look
    | More

  /** The first number it has not looked at. */
  function Upcoming(p: Place): nat {
    match p
    case Rest(last) => last + 1
    case Scan(_, s) => s
  }

  function Past(w: nat, s: nat): Place {
    if s < w then Scan(w, s + 1) else Rest(w)
  }

  /** What a deed does to the ring. */
  function RingDeed(st: World, d: Deed): Option<Action> {
    match d
    case Others(a) => Some(a)
    case Join => None
    case Poll => None
    case Look => Some(Check(ME, Upcoming(st.sub.place)))
    case More => Some(Read(ME))
  }

  predicate Can(st: World, d: Deed) {
    && Shaped(st.ring)
    && (RingDeed(st, d).Some? ==> Enabled(st.ring, RingDeed(st, d).value))
    && match d
       case Others(a) => !((a.Check? || a.Read?) && a.r == ME)
       case Join => st.sub.place.Rest?
       case Poll => st.sub.place.Rest?
       case Look => st.sub.place.Scan?
       case More => st.sub.place.Scan?
  }

  /** Where `read_from` starts, having found the write counter at `w`. */
  function StartAt(last: nat, w: nat): nat {
    Max(last + 1, if w < RING_SLOTS - 1 then 0 else w - (RING_SLOTS - 1))
  }

  /** The numbers in between. */
  function Between(a: nat, b: nat): (r: set<nat>)
    ensures forall n: nat :: n in r <==> a < n < b
  {
    if b <= a + 1 then {} else Between(a, b - 1) + {b - 1}
  }

  function RingAfter(st: World, d: Deed): State
    requires Can(st, d)
  {
    if RingDeed(st, d).None? then st.ring else RingSteps.Next(st.ring, RingDeed(st, d).value)
  }

  function SubAfter(st: World, d: Deed): Sub
    requires Can(st, d)
  {
    var ring, p := RingAfter(st, d), st.sub.place;
    match d
    case Others(_) => st.sub
    case Join => Sub(Rest(|st.ring.pubs|), |st.ring.pubs|, [], {}, {})
    case Poll =>
      var w := |st.ring.pubs|;
      if w == 0 || w <= p.last then st.sub.(place := Rest(w))
      else st.sub.(place := Scan(w, StartAt(p.last, w)), jumped := st.sub.jumped + Between(p.last, StartAt(p.last, w)))
    case Look =>
      st.sub.(place := if ME in ring.readers then p else Past(p.w, p.s),
              early := if Done(st.ring, p.s) then st.sub.early else st.sub.early + {p.s})
    case More =>
      st.sub.(place := if ME in ring.readers then p else Past(p.w, p.s),
              given := if |st.ring.out| < |ring.out| then st.sub.given + [ring.out[|ring.out| - 1]] else st.sub.given)
  }

  function Then(st: World, d: Deed): World
    requires Can(st, d)
  {
    World(RingAfter(st, d), SubAfter(st, d))
  }

  function Start(): World {
    World(RingSteps.Fresh(), Sub(Rest(0), 0, [], {}, {}))
  }

  ghost predicate Goes(deeds: seq<Deed>)
    decreases |deeds|, 0
  {
    deeds == [] || (var init := deeds[..|deeds| - 1]; Goes(init) && Can(Reached(init), deeds[|deeds| - 1]))
  }

  ghost function Reached(deeds: seq<Deed>): World
    requires Goes(deeds)
    decreases |deeds|, 1
  {
    if deeds == [] then Start() else Then(Reached(deeds[..|deeds| - 1]), deeds[|deeds| - 1])
  }

  // ---- Keeping up ----

  /** The ring does not go round on the subscriber inside a poll: while it is at a number, the publisher a
      ring later has not started. */
  predicate InTime(st: World, d: Deed) {
    match d
    case Others(a) => Ordered(st.ring, a)
    case Join => true
    case Poll => true
    case Look => !Started(st.ring, Upcoming(st.sub.place) + RING_SLOTS)
    case More => !Started(st.ring, Upcoming(st.sub.place) + RING_SLOTS)
  }

  /** Publishers of a slot commit in order, and the subscriber is not overtaken inside a poll. */
  ghost predicate KeepsUp(deeds: seq<Deed>)
    requires Goes(deeds)
  {
    deeds == [] || (var init := deeds[..|deeds| - 1]; KeepsUp(init) && InTime(Reached(init), deeds[|deeds| - 1]))
  }

  /** The events numbered after `from` and before `to`, in order, without those in `skip`. */
  function Published(pubs: seq<Pub>, skip: set<nat>, from: nat, to: nat): seq<(nat, Event)>
    requires to <= |pubs| + 1
  {
    if to <= from + 1 then []
    else Published(pubs, skip, from, to - 1) + if to - 1 in skip then [] else [(to - 1, pubs[to - 2].e)]
  }

  // ---- What every such run keeps ----

  /** A committed event is in its slot until the publisher a ring later starts. */
  ghost predicate Latest(ring: State) {
    Shaped(ring) && forall s: nat | Done(ring, s) && !Started(ring, s + RING_SLOTS) :: ring.slots[Index(s)].stamp == s
  }

  ghost predicate RingInv(ring: State) {
    Inv(ring) && Shaped(ring) && InTurn(ring) && Latest(ring)
  }

  ghost predicate SubInv(st: World) {
    var next := Upcoming(st.sub.place);
    && st.sub.joined < next <= |st.ring.pubs| + 1
    && (st.sub.place.Scan? ==> next <= st.sub.place.w <= |st.ring.pubs|)
    && st.sub.given == Published(st.ring.pubs, st.sub.early + st.sub.jumped, st.sub.joined, next)
    && (forall n | n in st.sub.early + st.sub.jumped :: n < next)
    && (ME in st.ring.readers ==> st.sub.place.Scan? && st.ring.readers[ME].s == next)
  }

  lemma SameSlot(s: nat)
    requires 0 < s
    ensures Index(s + RING_SLOTS) == Index(s)
  {
  }

  lemma CommitStampsOwn(ring: State, s: nat)
    requires Shaped(ring) && Enabled(ring, Advance(s)) && Done(RingSteps.Next(ring, Advance(s)), s)
    ensures RingSteps.Next(ring, Advance(s)).slots[Index(s)].stamp == s
  {
    hide Index;
  }

  lemma AdvanceOtherSlot(ring: State, t: nat, i: nat)
    requires Shaped(ring) && Enabled(ring, Advance(t)) && i < RING_SLOTS && i != Index(t)
    ensures RingSteps.Next(ring, Advance(t)).slots[i] == ring.slots[i]
  {
    hide Index, Write;
  }

  /** One access of publisher `t`, seen from number `s`. */
  lemma LatestStays(ring: State, t: nat, s: nat)
    requires Shaped(ring) && Latest(ring) && InTurn(ring) && Enabled(ring, Advance(t)) && InTurn(RingSteps.Next(ring, Advance(t)))
    requires var ring' := RingSteps.Next(ring, Advance(t)); Done(ring', s) && !Started(ring', s + RING_SLOTS)
    ensures RingSteps.Next(ring, Advance(t)).slots[Index(s)].stamp == s
  {
    hide Index, RingSteps.Next, Shaped, InTurn;
    var ring' := RingSteps.Next(ring, Advance(t));
    AdvanceProgress(ring, t, s);
    AdvanceProgress(ring, t, s + RING_SLOTS);
    if t == s {
      CommitStampsOwn(ring, s);
    } else if Index(t) != Index(s) {
      AdvanceOtherSlot(ring, t, Index(s));
    } else if t < s {
      EarlierDone(ring, t, s);
    } else {
      ARingApart(s, t);
      SameSlot(s);
      AdvanceProgress(ring, t, t);
      if s + RING_SLOTS < t {
        EarlierDone(ring', s + RING_SLOTS, t);
      }
    }
  }

  lemma QuietLatest(ring: State, ring': State)
    requires Latest(ring) && Shaped(ring') && ring'.slots == ring.slots
    requires forall s: nat :: (Done(ring', s) <==> Done(ring, s)) && (Started(ring', s) <==> Started(ring, s))
    ensures Latest(ring')
  {
    hide Done, Started, Shaped, Index;
  }

  lemma RingKeeps(ring: State, a: Action)
    requires RingInv(ring) && Enabled(ring, a) && Ordered(ring, a)
    ensures RingInv(RingSteps.Next(ring, a))
  {
    hide Inv, Shaped, Ordered, Index, InTurn, Latest;
    var ring' := RingSteps.Next(ring, a);
    OrderedStep(ring, a);
    StepKeeps(ring, a);
    NextShaped(ring, a);
    if a.Advance? {
      AdvanceLatest(ring, a.s);
    } else {
      QuietLatest(ring, ring');
    }
  }

  lemma AdvanceLatest(ring: State, t: nat)
    requires RingInv(ring) && Enabled(ring, Advance(t))
    requires Shaped(RingSteps.Next(ring, Advance(t))) && InTurn(RingSteps.Next(ring, Advance(t)))
    ensures Latest(RingSteps.Next(ring, Advance(t)))
  {
    hide Inv, InTurn, RingSteps.Next, Index, Started;
    var ring' := RingSteps.Next(ring, Advance(t));
    forall s: nat | Done(ring', s) && !Started(ring', s + RING_SLOTS)
      ensures ring'.slots[Index(s)].stamp == s
    {
      LatestStays(ring, t, s);
    }
  }

  /** The events of drawn numbers stay. */
  predicate SameEvents(pubs: seq<Pub>, pubs': seq<Pub>) {
    |pubs| <= |pubs'| && forall i | 0 <= i < |pubs| :: pubs'[i].e == pubs[i].e
  }

  lemma {:induction false} PublishedStays(pubs: seq<Pub>, pubs': seq<Pub>, skip: set<nat>, skip': set<nat>, from: nat, to: nat)
    requires to <= |pubs| + 1 && SameEvents(pubs, pubs') && forall n | n < to :: n in skip <==> n in skip'
    ensures Published(pubs', skip', from, to) == Published(pubs, skip, from, to)
  {
    if from + 1 < to {
      PublishedStays(pubs, pubs', skip, skip', from, to - 1);
    }
  }

  lemma RingMoves(ring: State, a: Action)
    requires Shaped(ring) && Enabled(ring, a)
    ensures SameEvents(ring.pubs, RingSteps.Next(ring, a).pubs)
    ensures !((a.Check? || a.Read?) && a.r == ME) ==>
      (ME in RingSteps.Next(ring, a).readers <==> ME in ring.readers) && (ME in ring.readers ==> RingSteps.Next(ring, a).readers[ME] == ring.readers[ME])
    ensures a.Check? || a.Read? ==> RingSteps.Next(ring, a).pubs == ring.pubs
  {
    hide Index, Write, RingSteps.Look;
  }

  lemma OthersKeep(st: World, a: Action)
    requires RingInv(st.ring) && SubInv(st) && Can(st, Others(a)) && InTime(st, Others(a))
    ensures SubInv(Then(st, Others(a)))
  {
    hide RingInv, RingSteps.Next, Enabled, Published, Ordered;
    RingMoves(st.ring, a);
    var sub := st.sub;
    PublishedStays(st.ring.pubs, RingSteps.Next(st.ring, a).pubs, sub.early + sub.jumped, sub.early + sub.jumped, sub.joined, Upcoming(sub.place));
  }

  /** A poll looks at the newest events not looked at, at most a ring of them. */
  lemma StartIsNewest(last: nat, w: nat)
    requires last < w
    ensures StartAt(last, w) == w + 1 - Min(w - last, RING_SLOTS)
  {
  }

  lemma {:induction false} JumpsOver(pubs: seq<Pub>, skip: set<nat>, from: nat, at: nat, to: nat)
    requires at <= to <= |pubs| + 1 && forall n | at <= n < to :: n in skip
    ensures Published(pubs, skip, from, to) == Published(pubs, skip, from, at)
  {
    if at < to && from + 1 < to {
      JumpsOver(pubs, skip, from, at, to - 1);
    }
  }

  lemma PollKeeps(st: World)
    requires SubInv(st) && Can(st, Poll)
    ensures SubInv(Then(st, Poll))
  {
    hide StartAt, Shaped, Published;
    var last, w, sub := st.sub.place.last, |st.ring.pubs|, st.sub;
    if last < w {
      StartIsNewest(last, w);
      var more := Then(st, Poll).sub.jumped;
      PublishedStays(st.ring.pubs, st.ring.pubs, sub.early + sub.jumped, sub.early + more, sub.joined, last + 1);
      JumpsOver(st.ring.pubs, sub.early + more, sub.joined, last + 1, StartAt(last, w));
    }
  }

  /** A slot carries a number that was drawn exactly if its publisher has committed, while the ring has not
      gone round. */
  lemma StampIffDone(ring: State, s: nat)
    requires RingInv(ring) && 0 < s && !Started(ring, s + RING_SLOTS)
    ensures ring.slots[Index(s)].stamp == s <==> Done(ring, s)
  {
    hide Index, Written, ReadersInv, OneInside, Right, SlotsInv;
    if ring.slots[Index(s)].stamp == s {
      assert StampOk(ring, Index(s));
    }
  }

  lemma LookKeeps(st: World)
    requires RingInv(st.ring) && SubInv(st) && Can(st, Look) && InTime(st, Look)
    ensures SubInv(Then(st, Look))
  {
    hide RingInv, Index, Published, Started, Done;
    var s, sub, pubs := st.sub.place.s, st.sub, st.ring.pubs;
    StampIffDone(st.ring, s);
    if !Done(st.ring, s) {
      var skip := sub.early + {s} + sub.jumped;
      PublishedStays(pubs, pubs, sub.early + sub.jumped, skip, sub.joined, s);
      SkipsOne(pubs, skip, sub.joined, s);
    }
  }

  lemma SkipsOne(pubs: seq<Pub>, early: set<nat>, from: nat, s: nat)
    requires from < s <= |pubs|
    ensures Published(pubs, early, from, s + 1) == Published(pubs, early, from, s) + if s in early then [] else [(s, pubs[s - 1].e)]
  {
  }

  /** A read that ends, ends in a delivery. */
  lemma ReadEnds(ring: State)
    requires RingInv(ring) && ME in ring.readers && !Started(ring, ring.readers[ME].s + RING_SLOTS)
    ensures var ring' := RingSteps.Next(ring, Read(ME));
      if ME in ring'.readers then ring'.readers[ME].s == ring.readers[ME].s && ring'.out == ring.out
      else ring'.out == ring.out + [(ring.readers[ME].s, ring.pubs[ring.readers[ME].s - 1].e)]
  {
    hide Index, Written, OneInside, Right, SlotsInv, StampsInv;
    var rd := ring.readers[ME];
    assert ReaderInv(ring, rd);
    assert ring.slots[Index(rd.s)].stamp == rd.s;
    if AllRead(rd) {
      AllIsRead(rd, ring.pubs[rd.s - 1].e);
    }
  }

  lemma MoreKeeps(st: World)
    requires RingInv(st.ring) && SubInv(st) && Can(st, More) && InTime(st, More)
    ensures SubInv(Then(st, More))
  {
    hide RingInv, Published, RingSteps.Next, Started, Index, Shaped, StartAt, Between;
    var s, sub, pubs := st.sub.place.s, st.sub, st.ring.pubs;
    var skip := sub.early + sub.jumped;
    assert s !in skip;
    RingMoves(st.ring, Read(ME));
    ReadEnds(st.ring);
    SkipsOne(pubs, skip, sub.joined, s);
    var st' := Then(st, More);
    assert st'.ring.pubs == pubs && st'.sub.early + st'.sub.jumped == skip;
  }

  lemma ThenKeeps(st: World, d: Deed)
    requires RingInv(st.ring) && SubInv(st) && Can(st, d) && InTime(st, d)
    ensures RingInv(Then(st, d).ring) && SubInv(Then(st, d))
  {
    hide RingInv, RingSteps.Next, Enabled, Shaped, Started, StartAt;
    if RingDeed(st, d).Some? {
      RingKeeps(st.ring, RingDeed(st, d).value);
    }
    match d
    case Others(a) => OthersKeep(st, a);
    case Join =>
    case Poll => PollKeeps(st);
    case Look => LookKeeps(st);
    case More => MoreKeeps(st);
  }

  lemma StartOk()
    ensures RingInv(Start().ring) && SubInv(Start())
  {
  }

  lemma {:induction false} KeepingUpKeeps(deeds: seq<Deed>)
    requires Goes(deeds) && KeepsUp(deeds)
    ensures RingInv(Reached(deeds).ring) && SubInv(Reached(deeds))
  {
    hide RingInv, SubInv, Can, Then, InTime;
    if deeds == [] {
      StartOk();
    } else {
      var init := deeds[..|deeds| - 1];
      KeepingUpKeeps(init);
      ThenKeeps(Reached(init), deeds[|deeds| - 1]);
    }
  }

  // ---- Main results ----

  /** In every run in which publishers of a slot commit in order and the ring does not go round inside a poll,
      the subscriber is given exactly the events it did not jump and whose publishers had committed when it
      looked at their slots: each once, in order, from where it joined to where it is. */
  lemma GivenIffCommitted(deeds: seq<Deed>)
    requires Goes(deeds) && KeepsUp(deeds)
    ensures var st := Reached(deeds); var next := Upcoming(st.sub.place);
      next <= |st.ring.pubs| + 1 && st.sub.given == Published(st.ring.pubs, st.sub.early + st.sub.jumped, st.sub.joined, next)
  {
    KeepingUpKeeps(deeds);
  }

  lemma {:induction false} FewerIfSkipped(pubs: seq<Pub>, skip: set<nat>, from: nat, to: nat)
    requires to <= |pubs| + 1
    ensures |Published(pubs, skip, from, to)| <= |Published(pubs, {}, from, to)|
    ensures (exists n | from < n < to :: n in skip) ==> |Published(pubs, skip, from, to)| < |Published(pubs, {}, from, to)|
  {
    if from + 1 < to {
      FewerIfSkipped(pubs, skip, from, to - 1);
    }
  }

  lemma {:induction false} AllIfNoneSkipped(pubs: seq<Pub>, skip: set<nat>, from: nat, to: nat)
    requires to <= |pubs| + 1 && forall n | from < n < to :: n !in skip
    ensures Published(pubs, skip, from, to) == Published(pubs, {}, from, to)
  {
    if from + 1 < to {
      AllIfNoneSkipped(pubs, skip, from, to - 1);
    }
  }

  /** So it has rebuilt the log exactly when it jumped no number and came to none before its publisher had
      committed. */
  lemma RebuildsIffNoneEarly(deeds: seq<Deed>)
    requires Goes(deeds) && KeepsUp(deeds)
    ensures var st := Reached(deeds); var next := Upcoming(st.sub.place);
      && next <= |st.ring.pubs| + 1
      && (st.sub.given == Published(st.ring.pubs, {}, st.sub.joined, next) <==>
            forall n | st.sub.joined < n < next :: n !in st.sub.early + st.sub.jumped)
  {
    hide Goes, Reached, KeepsUp, Published;
    GivenIffCommitted(deeds);
    var st := Reached(deeds);
    var from, next := st.sub.joined, Upcoming(st.sub.place);
    var skip := st.sub.early + st.sub.jumped;
    FewerIfSkipped(st.ring.pubs, skip, from, next);
    if forall n | from < n < next :: n !in skip {
      AllIfNoneSkipped(st.ring.pubs, skip, from, next);
    }
  }

  lemma {:induction false} SkippedIsAbsent(pubs: seq<Pub>, skip: set<nat>, from: nat, to: nat, n: nat)
    requires to <= |pubs| + 1 && n in skip
    ensures forall i | 0 <= i < |Published(pubs, skip, from, to)| :: Published(pubs, skip, from, to)[i].0 != n
  {
    if from + 1 < to {
      SkippedIsAbsent(pubs, skip, from, to - 1, n);
    }
  }

  lemma {:induction false} EarlyStays(deeds: seq<Deed>, k: nat)
    requires Goes(deeds) && k <= |deeds| && forall i | k <= i < |deeds| :: !deeds[i].Join?
    ensures Goes(deeds[..k]) && Reached(deeds[..k]).sub.early <= Reached(deeds).sub.early
  {
    hide Can, RingAfter;
    if k == |deeds| {
      assert deeds[..k] == deeds;
    } else {
      var init := deeds[..|deeds| - 1];
      EarlyStays(init, k);
      assert init[..k] == deeds[..k];
    }
  }

  /** An event it came to before the commit is lost to it for good, however long it goes on. */
  lemma EarlyIsNeverGiven(deeds: seq<Deed>, k: nat, n: nat)
    requires Goes(deeds) && KeepsUp(deeds) && k <= |deeds| && Goes(deeds[..k]) && n in Reached(deeds[..k]).sub.early
    requires forall i | k <= i < |deeds| :: !deeds[i].Join?
    ensures forall i | 0 <= i < |Reached(deeds).sub.given| :: Reached(deeds).sub.given[i].0 != n
  {
    hide Goes, Reached, KeepsUp, Published;
    GivenIffCommitted(deeds);
    EarlyStays(deeds, k);
    var st := Reached(deeds);
    SkippedIsAbsent(st.ring.pubs, st.sub.early + st.sub.jumped, st.sub.joined, Upcoming(st.sub.place), n);
  }

  // ---- It happens ----

  lemma Extended(deeds: seq<Deed>, d: Deed)
    requires Goes(deeds) && KeepsUp(deeds) && Can(Reached(deeds), d) && InTime(Reached(deeds), d)
    ensures Goes(deeds + [d]) && KeepsUp(deeds + [d]) && Reached(deeds + [d]) == Then(Reached(deeds), d)
  {
    hide Can, Then, InTime;
    var all := deeds + [d];
    assert all[..|all| - 1] == deeds && all[|all| - 1] == d;
  }

  /** A number is drawn, and polled and looked at before its publisher makes an access. */
  lemma LooksTooEarly(e: Event) returns (deeds: seq<Deed>)
    requires Fits(e)
    ensures Goes(deeds) && KeepsUp(deeds)
    ensures var st := Reached(deeds); st.ring.pubs == [Pub(e, 0)] && Shaped(st.ring) && st.sub == Sub(Rest(1), 0, [], {1}, {})
  {
    hide Goes, Reached, KeepsUp;
    StartReached();
    Extended([], Others(Begin(e)));
    var one := [] + [Others(Begin(e))];
    Extended(one, Poll);
    var two := one + [Poll];
    Extended(two, Look);
    deeds := two + [Look];
    assert {} + {1} == {1};
  }

  lemma StartReached()
    ensures Goes([]) && KeepsUp([]) && Reached([]) == Start()
  {
  }

  /** The publisher then goes on and commits: whatever the event, the subscriber is at rest behind it and was
      not given it. */
  lemma CommitsTooLate(e: Event) returns (deeds: seq<Deed>)
    requires Fits(e)
    ensures Goes(deeds) && KeepsUp(deeds)
    ensures var st := Reached(deeds); Done(st.ring, 1) && st.sub.place == Rest(1) && st.sub.given == [] && 1 in st.sub.early
  {
    hide Goes, Reached, KeepsUp;
    deeds := LooksTooEarly(e);
    var pc := 0;
    while pc <= Body(e)
      invariant 0 <= pc <= Body(e) + 1 && Goes(deeds) && KeepsUp(deeds)
      invariant var st := Reached(deeds); st.ring.pubs == [Pub(e, pc)] && Shaped(st.ring) && st.sub == Sub(Rest(1), 0, [], {1}, {})
    {
      AdvanceFirst(Reached(deeds), e, pc);
      Extended(deeds, Others(Advance(1)));
      deeds := deeds + [Others(Advance(1))];
      pc := pc + 1;
    }
  }

  lemma AdvanceFirst(st: World, e: Event, pc: nat)
    requires st.ring.pubs == [Pub(e, pc)] && Shaped(st.ring) && pc <= Body(e)
    ensures Can(st, Others(Advance(1))) && InTime(st, Others(Advance(1)))
    ensures var st' := Then(st, Others(Advance(1))); st'.ring.pubs == [Pub(e, pc + 1)] && Shaped(st'.ring) && st'.sub == st.sub
  {
    hide Write;
    NextShaped(st.ring, Advance(1));
  }
}
