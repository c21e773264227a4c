/** Tag invalidation with everything interleaved: forgets one memory access at a time, stores that
    read the generations first and commit later, entries dropped at any time, stops that write the
    cache to disk and boots that load what was last written. */
module TagGenerations {
  import opened Common
  import opened TagTable

  // ---- The step system ----

  /** Where a forget is: about to look at cell `i` of its window, about to claim it after finding it
      empty, or about to publish generation 1 in the cell it claimed. */
  datatype Pc = Probing(i: nat) | Claiming(i: nat) | Publishing(x: nat)

  /** A forget under way. Once it has claimed a cell, `at` is when, and `read` is the generation a
      lookup read for its tag at that time. */
  datatype Forget = Forget(tag: Tag, pc: Pc, at: nat, read: nat)

  /** A tag's generation as a store read it, and when. */
  datatype Snap = Snap(tag: Tag, gen: nat, at: nat)

  /** A store under way: the tags still to read, and those read. */
  datatype Pending = Pending(todo: seq<Tag>, read: seq<Snap>)

  /** Something that happened to a tag at a time. */
  datatype Mark = Mark(tag: Tag, at: nat)

  /** What a graceful stop writes to disk, with how many forgets had finished by then, and when. */
  datatype Image = Image(cells: seq<Cell>, entries: map<nat, seq<Snap>>, settled: set<Tag>, finished: nat, at: nat)

  /** `settled` has the tags of which a forget has finished in this table. `done` has all the forgets that
      ever finished, with the time of the access by which each counted up or claimed its cell; `changes`
      has every access that wrote a generation. */
  datatype State = State(
    cells: seq<Cell>, forgets: map<nat, Forget>, pending: map<nat, Pending>, entries: map<nat, seq<Snap>>,
    settled: set<Tag>, image: Option<Image>, clock: nat, done: seq<Mark>, changes: seq<Mark>)

  datatype Action =
    | Begin(p: nat, tag: Tag)
    | Step(p: nat)
    | Open(q: nat, tags: seq<Tag>)
    | Snapshot(q: nat)
    | Commit(q: nat, slot: nat)
    | Drop(slot: nat)
    | Dump
    | Boot(load: bool, keep: set<nat>)

  /** `tag_gen`: the generation in the first cell of the window with the tag, 0 at an empty one. */
  function Reading(s: seq<Cell>, h: Tag, i: nat): nat
    requires Sized(s)
    decreases PROBE - i
  {
    if PROBE <= i then 0
    else if s[At(h, i)].hash == h then s[At(h, i)].gen
    else if s[At(h, i)].hash == 0 then 0
    else Reading(s, h, i + 1)
  }

  function Now(st: State, h: Tag): nat
    requires Sized(st.cells)
  {
    Reading(st.cells, h, 0)
  }

  /** A forget that has used up its window stops: the path on which it would take over the cell of
      another tag is not part of this system. */
  predicate Enabled(st: State, a: Action) {
    && Sized(st.cells)
    && match a
       case Begin(p, _) => p !in st.forgets
       case Step(p) =>
         p in st.forgets &&
         (match st.forgets[p].pc
          case Probing(i) => i < PROBE
          case Claiming(i) => i < PROBE
          case Publishing(x) => x < TAG_SLOTS)
       case Open(q, _) => q !in st.pending
       case Snapshot(q) => q in st.pending && st.pending[q].todo != []
       case Commit(q, _) => q in st.pending && st.pending[q].todo == []
       case Drop(_) => true
       case Dump => true
       case Boot(_, _) => true
  }

  function Tick(st: State): State {
    st.(clock := st.clock + 1)
  }

  /** The forget of process `p` writes generation `gen` in cell `x` and is finished; it counts from
      time `since`. */
  function Finish(st: State, p: nat, x: nat, gen: nat, since: nat): State
    requires Sized(st.cells) && x < TAG_SLOTS && p in st.forgets
  {
    var h := st.forgets[p].tag;
    st.(cells := st.cells[x := Cell(st.cells[x].hash, gen)], forgets := st.forgets - {p},
        settled := st.settled + {h}, done := st.done + [Mark(h, since)], changes := st.changes + [Mark(h, st.clock)])
  }

  function ForgetStep(st: State, p: nat): State
    requires Enabled(st, Step(p))
  {
    var f := st.forgets[p];
    match f.pc
    case Probing(i) =>
      var x := At(f.tag, i);
      if st.cells[x].hash == f.tag then Finish(st, p, x, st.cells[x].gen + 1, st.clock)
      else if st.cells[x].hash == 0 then st.(forgets := st.forgets[p := f.(pc := Claiming(i))])
      else st.(forgets := st.forgets[p := f.(pc := Probing(i + 1))])
    case Claiming(i) =>
      var x := At(f.tag, i);
      if st.cells[x].hash == 0 then
        st.(cells := st.cells[x := Cell(f.tag, st.cells[x].gen)],
            forgets := st.forgets[p := Forget(f.tag, Publishing(x), st.clock, Now(st, f.tag))])
      else st.(forgets := st.forgets[p := f.(pc := Probing(i + 1))])
    case Publishing(x) => Finish(st, p, x, 1, f.at)
  }

  /** What was last written to disk, as the table it was. */
  function Saved(st: State): State
    requires st.image.Some?
  {
    var im := st.image.value;
    st.(cells := im.cells, forgets := map[], pending := map[], entries := im.entries, settled := im.settled,
        done := st.done[..Min(im.finished, |st.done|)])
  }

  /** `restore`: the tag table and the entries of the image, of which those past their deadline are dropped. */
  function Restored(st: State, keep: set<nat>): State
    requires st.image.Some?
  {
    var im := st.image.value;
    st.(cells := im.cells, forgets := map[], pending := map[], settled := im.settled,
        entries := map x | x in im.entries && x in keep :: im.entries[x])
  }

  function Blank(): seq<Cell> {
    seq(TAG_SLOTS, _ => Cell(0, 0))
  }

  /** A boot without an image, or with one of another application or layout. */
  function Emptied(st: State): State {
    st.(cells := Blank(), forgets := map[], pending := map[], entries := map[], settled := {})
  }

  /** A stop waits for the workers, so nothing is under way in what it writes; after a crash the last image
      is the one of an earlier stop. */
  function Effect(st: State, a: Action): State
    requires Enabled(st, a)
  {
    match a
    case Begin(p, h) => st.(forgets := st.forgets[p := Forget(h, Probing(0), 0, 0)])
    case Step(p) => ForgetStep(st, p)
    case Open(q, tags) => st.(pending := st.pending[q := Pending(tags, [])])
    case Snapshot(q) =>
      var s := st.pending[q];
      st.(pending := st.pending[q := Pending(s.todo[1..], s.read + [Snap(s.todo[0], Now(st, s.todo[0]), st.clock)])])
    case Commit(q, slot) =>
      st.(entries := st.entries[slot := st.pending[q].read], pending := st.pending - {q})
    case Drop(slot) => st.(entries := st.entries - {slot})
    case Dump =>
      st.(forgets := map[], pending := map[],
          image := Some(Image(st.cells, st.entries, st.settled, |st.done|, st.clock)))
    case Boot(load, keep) => if load && st.image.Some? then Restored(st, keep) else Emptied(st)
  }

  function Next(st: State, a: Action): State
    requires Enabled(st, a)
  {
    Tick(Effect(st, a))
  }

  function Fresh(): State {
    State(Blank(), map[], map[], map[], {}, None, 0, [], [])
  }

  ghost predicate Runs(acts: seq<Action>)
    decreases |acts|, 0
  {
    acts == [] || (var init := acts[..|acts| - 1]; Runs(init) && Enabled(After(init), acts[|acts| - 1]))
  }

  ghost function After(acts: seq<Action>): State
    requires Runs(acts)
    decreases |acts|, 1
  {
    if acts == [] then Fresh() else Next(After(acts[..|acts| - 1]), acts[|acts| - 1])
  }

  // ---- What is asked of it ----

  /** A lookup would find the tags of these snapshots unchanged, and serve the entry. */
  predicate Served(st: State, e: seq<Snap>)
    requires Sized(st.cells)
  {
    forall i | 0 <= i < |e| :: Now(st, e[i].tag) == e[i].gen
  }

  /** A forget of the tag that came after the snapshot has finished. */
  predicate Forgotten(st: State, s: Snap) {
    exists d | 0 <= d < |st.done| :: st.done[d].tag == s.tag && s.at < st.done[d].at
  }

  /** No entry is served that has a tag forgotten since it was stored. */
  predicate Safe(st: State)
    requires Sized(st.cells)
  {
    forall x, i | x in st.entries && 0 <= i < |st.entries[x]| && Served(st, st.entries[x]) :: !Forgotten(st, st.entries[x][i])
  }

  // ---- The two ways it can go wrong ----

  /** The tag's first cell, the one lookups read, is at position `m` of its window. */
  predicate FirstAt(s: seq<Cell>, h: Tag, m: nat)
    requires Sized(s)
  {
    && m < PROBE && s[At(h, m)].hash == h
    && forall j | 0 <= j < m :: s[At(h, j)].hash != 0 && s[At(h, j)].hash != h
  }

  ghost predicate IsFirst(s: seq<Cell>, h: Tag, x: nat)
    requires Sized(s)
  {
    exists m: nat :: FirstAt(s, h, m) && At(h, m) == x
  }

  /** The step finishes its forget in this cell. */
  predicate FinishesIn(st: State, a: Action, x: nat)
    requires Enabled(st, a)
  {
    a.Step? &&
    var f := st.forgets[a.p];
    match f.pc
    case Probing(i) => x == At(f.tag, i) && st.cells[x].hash == f.tag
    case Claiming(_) => false
    case Publishing(y) => x == y
  }

  /** A forget publishes generation 1 over a higher one, where lookups read. */
  ghost predicate Lowers(st: State, a: Action)
    requires Enabled(st, a)
  {
    a.Step? && var f := st.forgets[a.p]; f.pc.Publishing? && IsFirst(st.cells, f.tag, f.pc.x) && 1 < st.cells[f.pc.x].gen
  }

  /** A forget finishes where lookups do not read, and they read what they did when it claimed its
      cell or, if it counts up, what they do now. */
  ghost predicate Unseen(st: State, a: Action)
    requires Enabled(st, a)
  {
    a.Step? && var f := st.forgets[a.p];
    && (exists x: nat :: FinishesIn(st, a, x) && !IsFirst(st.cells, f.tag, x))
    && (f.pc.Publishing? ==> Now(st, f.tag) == f.read)
  }

  ghost predicate NeverLowers(acts: seq<Action>)
    requires Runs(acts)
  {
    acts == [] || (var init := acts[..|acts| - 1]; NeverLowers(init) && !Lowers(After(init), acts[|acts| - 1]))
  }

  ghost predicate NeverUnseen(acts: seq<Action>)
    requires Runs(acts)
  {
    acts == [] || (var init := acts[..|acts| - 1]; NeverUnseen(init) && !Unseen(After(init), acts[|acts| - 1]))
  }

  // ---- The cells ----

  /** Every cell in use can be reached by a search for its tag; a tag may have several. */
  ghost predicate CellsOk(s: seq<Cell>) {
    && Sized(s)
    && (forall x | 0 <= x < |s| && s[x].hash != 0 :: Placed(s, s[x].hash, x))
    && forall x | 0 <= x < |s| && s[x].hash == 0 :: s[x].gen == 0
  }

  lemma {:induction false} ReadingFrom(s: seq<Cell>, h: Tag, i: nat, m: nat)
    requires Sized(s) && i <= m && FirstAt(s, h, m)
    ensures Reading(s, h, i) == s[At(h, m)].gen
    decreases m - i
  {
    hide At;
    if i < m {
      ReadingFrom(s, h, i + 1, m);
    }
  }

  lemma {:induction false} ReadingNowhere(s: seq<Cell>, h: Tag, i: nat)
    requires Sized(s) && forall x: nat :: !Here(s, h, x)
    ensures Reading(s, h, i) == 0
    decreases PROBE - i
  {
    if i < PROBE {
      assert !Here(s, h, At(h, i));
      ReadingNowhere(s, h, i + 1);
    }
  }

  /** The first position of the window with the tag. */
  lemma FirstHere(s: seq<Cell>, h: Tag, k: nat) returns (m: nat)
    requires Sized(s) && k < PROBE && s[At(h, k)].hash == h && forall j | 0 <= j < k :: Taken(s, h, j)
    ensures m <= k && FirstAt(s, h, m)
  {
    hide At;
    m := 0;
    while s[At(h, m)].hash != h
      invariant m <= k && forall j | 0 <= j < m :: s[At(h, j)].hash != 0 && s[At(h, j)].hash != h
      decreases k - m
    {
      assert Taken(s, h, m);
      m := m + 1;
    }
  }

  /** A tag that has a cell has a first one. */
  lemma HasFirst(s: seq<Cell>, h: Tag, x: nat) returns (m: nat)
    requires CellsOk(s) && Here(s, h, x)
    ensures FirstAt(s, h, m)
  {
    hide At, FirstAt;
    assert Placed(s, h, x);
    var k :| 0 <= k < PROBE && At(h, k) == x && forall j | 0 <= j < k :: Taken(s, h, j);
    m := FirstHere(s, h, k);
  }

  lemma OneFirst(s: seq<Cell>, h: Tag, m: nat, n: nat)
    requires Sized(s) && FirstAt(s, h, m) && FirstAt(s, h, n)
    ensures m == n
  {
    hide At;
  }

  /** A cell in use stays with its tag. */
  predicate HashesStay(s: seq<Cell>, t: seq<Cell>) {
    |t| == |s| && forall x | 0 <= x < |s| && s[x].hash != 0 :: t[x].hash == s[x].hash
  }

  lemma FirstStays(s: seq<Cell>, t: seq<Cell>, h: Tag, m: nat)
    requires Sized(s) && HashesStay(s, t) && FirstAt(s, h, m)
    ensures FirstAt(t, h, m)
  {
    hide At;
  }

  lemma PlacedStays(s: seq<Cell>, t: seq<Cell>, h: Tag, x: nat)
    requires Sized(s) && HashesStay(s, t) && Placed(s, h, x)
    ensures Placed(t, h, x)
  {
    hide At;
    var i :| 0 <= i < PROBE && At(h, i) == x && forall j | 0 <= j < i :: Taken(s, h, j);
    assert forall j | 0 <= j < i :: Taken(s, h, j) && t[At(h, j)].hash == s[At(h, j)].hash;
    assert forall j | 0 <= j < i :: Taken(t, h, j);
  }

  /** Claiming an empty cell changes nothing lookups read; where the tag had no cell they read 0 and
      the claimed one is now its first. */
  lemma ClaimReads(s: seq<Cell>, h: Tag, i: nat, g: Tag)
    requires CellsOk(s) && i < PROBE && (forall j | 0 <= j < i :: Taken(s, h, j)) && !Taken(s, h, i)
    ensures var t := s[At(h, i) := Cell(h, s[At(h, i)].gen)];
      && CellsOk(t) && HashesStay(s, t) && Reading(t, g, 0) == Reading(s, g, 0)
      && (IsFirst(t, h, At(h, i)) ==> Reading(s, h, 0) == 0)
  {
    hide At, FirstAt, Reading;
    var x := At(h, i);
    var t := s[x := Cell(h, s[x].gen)];
    assert s[x].hash == 0;
    assert HashesStay(s, t);
    forall y | 0 <= y < |t| && t[y].hash != 0
      ensures Placed(t, t[y].hash, y)
    {
      if y == x {
        assert forall j | 0 <= j < i :: Taken(s, h, j) && t[At(h, j)].hash == s[At(h, j)].hash;
        assert forall j | 0 <= j < i :: Taken(t, h, j);
      } else {
        PlacedStays(s, t, s[y].hash, y);
      }
    }
    ClaimKeepsReading(s, t, h, x, g);
    if IsFirst(t, h, x) {
      NoneBefore(s, t, h, x);
      ReadingNowhere(s, h, 0);
    }
  }

  lemma FirstInUse(s: seq<Cell>, h: Tag, m: nat)
    requires Sized(s) && FirstAt(s, h, m)
    ensures s[At(h, m)].hash == h
  {
  }

  lemma NoneBefore(s: seq<Cell>, t: seq<Cell>, h: Tag, x: nat)
    requires CellsOk(s) && HashesStay(s, t) && x < |s| && s[x].hash == 0 && IsFirst(t, h, x)
    ensures forall y: nat :: !Here(s, h, y)
  {
    hide At, FirstAt;
    var n: nat :| FirstAt(t, h, n) && At(h, n) == x;
    forall y: nat
      ensures !Here(s, h, y)
    {
      if Here(s, h, y) {
        var m := HasFirst(s, h, y);
        FirstStays(s, t, h, m);
        OneFirst(t, h, m, n);
        FirstInUse(s, h, m);
      }
    }
  }

  lemma ClaimKeepsReading(s: seq<Cell>, t: seq<Cell>, h: Tag, x: nat, g: Tag)
    requires CellsOk(s) && CellsOk(t) && x < |s| && s[x].hash == 0 && t == s[x := Cell(h, s[x].gen)] && HashesStay(s, t)
    ensures Reading(t, g, 0) == Reading(s, g, 0)
  {
    hide At, Reading;
    if y: nat :| Here(s, g, y) {
      var m := HasFirst(s, g, y);
      FirstStays(s, t, g, m);
      ReadingFrom(s, g, 0, m);
      ReadingFrom(t, g, 0, m);
    } else {
      ReadingNowhere(s, g, 0);
      if y: nat :| Here(t, g, y) {
        var m := HasFirst(t, g, y);
        ReadingFrom(t, g, 0, m);
        assert !Here(s, g, At(g, m));
      } else {
        ReadingNowhere(t, g, 0);
      }
    }
  }

  /** Writing a generation in a cell in use changes what is read for its tag only, and that only if it
      is the tag's first cell. */
  lemma WriteReads(s: seq<Cell>, x: nat, gen: nat, g: Tag)
    requires CellsOk(s) && x < |s| && s[x].hash != 0
    ensures var h: Tag := s[x].hash; var t := s[x := Cell(h, gen)];
      && CellsOk(t) && HashesStay(s, t)
      && (g == h && IsFirst(s, h, x) ==> Reading(s, g, 0) == s[x].gen && Reading(t, g, 0) == gen)
      && (g != h || !IsFirst(s, h, x) ==> Reading(t, g, 0) == Reading(s, g, 0))
  {
    hide At, Reading, FirstAt;
    var h: Tag := s[x].hash;
    var t := s[x := Cell(h, gen)];
    assert HashesStay(s, t);
    forall y | 0 <= y < |t| && t[y].hash != 0
      ensures Placed(t, t[y].hash, y)
    {
      PlacedStays(s, t, s[y].hash, y);
    }
    if y: nat :| Here(s, g, y) {
      var m := HasFirst(s, g, y);
      FirstStays(s, t, g, m);
      ReadingFrom(s, g, 0, m);
      ReadingFrom(t, g, 0, m);
      FirstInUse(s, g, m);
      if IsFirst(s, g, x) {
        var n: nat :| FirstAt(s, g, n) && At(g, n) == x;
        OneFirst(s, g, m, n);
      } else {
        assert At(g, m) != x;
      }
    } else {
      assert forall y: nat :: Here(t, g, y) ==> Here(s, g, y);
      assert !Here(s, g, x);
      ReadingNowhere(s, g, 0);
      ReadingNowhere(t, g, 0);
    }
  }

  // ---- What every run keeps ----

  predicate Trail(s: seq<Cell>, h: Tag, i: nat)
    requires Sized(s)
  {
    forall j | 0 <= j < i :: Taken(s, h, j)
  }

  /** A forget has only cells in use behind it; a claimed cell has its tag, and was claimed when lookups
      read 0 if it is the tag's first. */
  ghost predicate ForgetOk(st: State, f: Forget)
    requires Sized(st.cells)
  {
    match f.pc
    case Probing(i) => i <= PROBE && Trail(st.cells, f.tag, i)
    case Claiming(i) => i < PROBE && Trail(st.cells, f.tag, i)
    case Publishing(x) =>
      && x < TAG_SLOTS && st.cells[x].hash == f.tag && f.at < st.clock
      && (IsFirst(st.cells, f.tag, x) ==> f.read == 0)
  }

  ghost predicate TableOk(st: State) {
    CellsOk(st.cells) && forall p | p in st.forgets :: ForgetOk(st, st.forgets[p])
  }

  lemma TrailStays(s: seq<Cell>, t: seq<Cell>, h: Tag, i: nat)
    requires Sized(s) && HashesStay(s, t) && Trail(s, h, i)
    ensures Trail(t, h, i)
  {
    hide At;
    assert forall j | 0 <= j < i :: Taken(s, h, j) && t[At(h, j)].hash == s[At(h, j)].hash;
  }

  lemma TrailNext(s: seq<Cell>, h: Tag, i: nat)
    requires Sized(s) && Trail(s, h, i)
    ensures s[At(h, i)].hash != 0 ==> Trail(s, h, i + 1)
  {
    hide At;
  }

  /** A cell of the tag that is first after a step was first before. */
  lemma FirstBefore(s: seq<Cell>, t: seq<Cell>, h: Tag, x: nat)
    requires CellsOk(s) && HashesStay(s, t) && Here(s, h, x) && IsFirst(t, h, x)
    ensures IsFirst(s, h, x)
  {
    hide At, FirstAt;
    var m := HasFirst(s, h, x);
    FirstStays(s, t, h, m);
    var n: nat :| FirstAt(t, h, n) && At(h, n) == x;
    OneFirst(t, h, m, n);
  }

  lemma ForgetOkStays(st: State, st': State, f: Forget)
    requires CellsOk(st.cells) && HashesStay(st.cells, st'.cells) && st.clock <= st'.clock && ForgetOk(st, f)
    ensures ForgetOk(st', f)
  {
    hide Trail, IsFirst, CellsOk;
    match f.pc
    case Probing(i) => SizedStays(st.cells); TrailStays(st.cells, st'.cells, f.tag, i);
    case Claiming(i) => SizedStays(st.cells); TrailStays(st.cells, st'.cells, f.tag, i);
    case Publishing(x) =>
      SizedStays(st.cells);
      if IsFirst(st'.cells, f.tag, x) {
        FirstBefore(st.cells, st'.cells, f.tag, x);
      }
  }

  lemma SizedStays(s: seq<Cell>)
    requires CellsOk(s)
    ensures Sized(s)
  {
  }

  /** What a step does to what is read for one tag: nothing, or a recorded change by a forget of that
      tag — one up by a forget that thereby finishes, or to 1. */
  ghost predicate NowMoves(st: State, st': State, g: Tag)
    requires Sized(st.cells) && Sized(st'.cells)
  {
    && st.changes <= st'.changes && st.done <= st'.done
    && (|| Now(st', g) == Now(st, g)
        || (&& st'.changes == st.changes + [Mark(g, st.clock)] && Now(st', g) <= Now(st, g) + 1
            && (1 < Now(st', g) ==> st'.done == st.done + [Mark(g, st.clock)])))
  }

  lemma FinishMoves(st: State, p: nat, x: nat, gen: nat, since: nat, g: Tag)
    requires TableOk(st) && p in st.forgets && x < TAG_SLOTS && st.cells[x].hash == st.forgets[p].tag
    requires gen <= st.cells[x].gen + 1 && (1 < gen ==> since == st.clock)
    ensures TableOk(Tick(Finish(st, p, x, gen, since))) && NowMoves(st, Tick(Finish(st, p, x, gen, since)), g)
  {
    hide CellsOk, Reading, IsFirst, Trail;
    SizedStays(st.cells);
    var st' := Tick(Finish(st, p, x, gen, since));
    WriteReads(st.cells, x, gen, g);
    forall q | q in st'.forgets
      ensures ForgetOk(st', st'.forgets[q])
    {
      ForgetOkStays(st, st', st.forgets[q]);
    }
  }

  lemma ClaimMoves(st: State, p: nat, i: nat, g: Tag)
    requires TableOk(st) && Enabled(st, Step(p)) && st.forgets[p].pc == Claiming(i)
    requires st.cells[At(st.forgets[p].tag, i)].hash == 0
    ensures TableOk(Next(st, Step(p))) && NowMoves(st, Next(st, Step(p)), g)
  {
    hide CellsOk, Reading, IsFirst, Trail, At;
    var st' := Next(st, Step(p));
    var f := st.forgets[p];
    assert ForgetOk(st, f);
    TrailIs(st.cells, f.tag, i);
    ClaimReads(st.cells, f.tag, i, g);
    forall q | q in st'.forgets && q != p
      ensures ForgetOk(st', st'.forgets[q])
    {
      ForgetOkStays(st, st', st.forgets[q]);
    }
  }

  lemma TrailIs(s: seq<Cell>, h: Tag, i: nat)
    requires Sized(s) && Trail(s, h, i)
    ensures forall j | 0 <= j < i :: Taken(s, h, j)
  {
  }

  /** A step that writes no cell. */
  lemma QuietMoves(st: State, st': State, g: Tag)
    requires TableOk(st) && st'.cells == st.cells && st'.clock == st.clock + 1
    requires st'.changes == st.changes && st'.done == st.done
    requires forall p | p in st'.forgets :: (p in st.forgets && st'.forgets[p] == st.forgets[p]) || ForgetOk(st, st'.forgets[p])
    ensures TableOk(st') && Sized(st.cells) && NowMoves(st, st', g)
  {
    hide CellsOk, Reading, IsFirst, Trail;
    SizedStays(st.cells);
    assert HashesStay(st.cells, st'.cells);
    forall q | q in st'.forgets
      ensures ForgetOk(st', st'.forgets[q])
    {
      ForgetOkStays(st, st', st'.forgets[q]);
    }
  }

  lemma ForgetMoves(st: State, p: nat, g: Tag)
    requires TableOk(st) && Enabled(st, Step(p))
    ensures TableOk(Next(st, Step(p))) && NowMoves(st, Next(st, Step(p)), g)
  {
    hide CellsOk, Reading, IsFirst, Trail, At, NowMoves;
    var f := st.forgets[p];
    var st' := Next(st, Step(p));
    assert ForgetOk(st, f);
    match f.pc
    case Publishing(x) => FinishMoves(st, p, x, 1, f.at, g);
    case Probing(i) =>
      TrailNext(st.cells, f.tag, i);
      if st.cells[At(f.tag, i)].hash == f.tag {
        FinishMoves(st, p, At(f.tag, i), st.cells[At(f.tag, i)].gen + 1, st.clock, g);
      } else {
        QuietMoves(st, st', g);
      }
    case Claiming(i) =>
      TrailNext(st.cells, f.tag, i);
      if st.cells[At(f.tag, i)].hash == 0 {
        ClaimMoves(st, p, i, g);
      } else {
        QuietMoves(st, st', g);
      }
  }

  lemma TableMoves(st: State, a: Action, g: Tag)
    requires TableOk(st) && Enabled(st, a) && !a.Boot?
    ensures TableOk(Next(st, a)) && NowMoves(st, Next(st, a), g)
  {
    hide CellsOk, Reading, IsFirst, Trail, NowMoves, ForgetStep;
    if a.Step? {
      ForgetMoves(st, a.p, g);
    } else {
      var st' := Next(st, a);
      if a.Begin? {
        NoTrail(st.cells, a.tag);
      }
      QuietMoves(st, st', g);
    }
  }

  lemma NoTrail(s: seq<Cell>, h: Tag)
    requires Sized(s)
    ensures Trail(s, h, 0)
  {
  }

  lemma ClockTicks(st: State, a: Action)
    requires Enabled(st, a)
    ensures Next(st, a).clock == st.clock + 1
  {
    hide At;
  }

  /** The image is a table too, written before every forget that has finished since and every one that has
      claimed its cell. */
  ghost predicate Backed(st: State) {
    st.image.Some? ==>
      var im := st.image.value;
      && CellsOk(im.cells) && im.finished <= |st.done| && im.at < st.clock
      && (forall d | im.finished <= d < |st.done| :: im.at < st.done[d].at)
      && forall p | p in st.forgets && st.forgets[p].pc.Publishing? :: im.at < st.forgets[p].at
  }

  /** Histories grow, and only a stop writes the image. */
  lemma HistoryGrows(st: State, a: Action)
    requires Enabled(st, a)
    ensures var st' := Next(st, a);
      && st.changes <= st'.changes && st.done <= st'.done && st'.clock == st.clock + 1 && (a.Dump? || st'.image == st.image)
      && (forall d | |st.done| <= d < |st'.done| :: st'.done[d].at == st.clock || exists p :: p in st.forgets && st.forgets[p].pc.Publishing? && st'.done[d].at == st.forgets[p].at)
  {
    hide At, Now;
    if a.Step? && st.forgets[a.p].pc.Publishing? {
      assert a.p in st.forgets;
    }
  }

  lemma BackedKeeps(st: State, a: Action)
    requires TableOk(st) && Backed(st) && Enabled(st, a)
    ensures Backed(Next(st, a))
  {
    hide CellsOk, Next, Enabled;
    var st' := Next(st, a);
    HistoryGrows(st, a);
    if a.Dump? {
      TableIsCells(st);
      DumpWrites(st);
    } else {
      forall p | p in st'.forgets && st'.forgets[p].pc.Publishing? && st'.image.Some?
        ensures st'.image.value.at < st'.forgets[p].at
      {
        ClaimIsNew(st, a, p);
      }
    }
  }

  lemma DumpWrites(st: State)
    requires Enabled(st, Dump)
    ensures var st' := Next(st, Dump);
      && st'.image == Some(Image(st.cells, st.entries, st.settled, |st.done|, st.clock)) && Saved(st') == st'
      && st'.forgets == map[] && st'.pending == map[] && st'.entries == st.entries && st'.cells == st.cells && st'.done == st.done
      && st'.clock == st.clock + 1 && st'.changes == st.changes && st'.settled == st.settled
  {
    assert st.done[..|st.done|] == st.done;
  }

  lemma BlankOk()
    ensures CellsOk(Blank())
  {
  }

  lemma BootOk(st: State, a: Action)
    requires Backed(st) && Enabled(st, a) && a.Boot?
    ensures TableOk(Next(st, a)) && Sized(Next(st, a).cells)
  {
    hide CellsOk, Blank;
    BlankOk();
    SizedStays(Blank());
    if st.image.Some? {
      SizedStays(st.image.value.cells);
    }
  }

  lemma FreshOk()
    ensures TableOk(Fresh())
  {
  }

  lemma {:induction false} RunOk(acts: seq<Action>)
    requires Runs(acts)
    ensures TableOk(After(acts)) && Sized(After(acts).cells) && After(acts).clock == |acts| && Backed(After(acts))
  {
    hide Next, Enabled, TableOk, Backed;
    if acts == [] {
      FreshOk();
      FreshBacked();
    } else {
      var st, a := After(acts[..|acts| - 1]), acts[|acts| - 1];
      RunOk(acts[..|acts| - 1]);
      ClockTicks(st, a);
      BackedKeeps(st, a);
      if a.Boot? {
        BootOk(st, a);
      } else {
        TableMoves(st, a, 1);
        OkSized(Next(st, a));
      }
    }
  }

  lemma FreshBacked()
    ensures Backed(Fresh())
  {
  }

  // ---- Rejected only if forgotten ----

  /** A snapshot of a store under way or of an entry. */
  ghost predicate Has(st: State, s: Snap) {
    (exists q | q in st.pending :: s in st.pending[q].read) || (exists x | x in st.entries :: s in st.entries[x])
  }

  /** An access since the snapshot wrote a generation of the tag. */
  predicate Changed(st: State, s: Snap) {
    exists c | 0 <= c < |st.changes| :: st.changes[c].tag == s.tag && s.at < st.changes[c].at
  }

  ghost predicate Tracks(st: State) {
    Sized(st.cells) && forall s | Has(st, s) :: s.at < st.clock && (s.gen == Now(st, s.tag) || Changed(st, s))
  }

  lemma ChangedStays(st: State, st': State, s: Snap)
    requires Sized(st.cells) && Sized(st'.cells) && NowMoves(st, st', s.tag)
    requires s.at < st.clock && (s.gen == Now(st, s.tag) || Changed(st, s))
    ensures s.gen == Now(st', s.tag) || Changed(st', s)
  {
    hide Now;
    if c :| 0 <= c < |st.changes| && st.changes[c].tag == s.tag && s.at < st.changes[c].at {
      assert st'.changes[c] == st.changes[c];
    } else if st'.changes == st.changes + [Mark(s.tag, st.clock)] {
      assert st'.changes[|st.changes|] == Mark(s.tag, st.clock);
    }
  }

  lemma StepKeepsStores(st: State, p: nat)
    requires Enabled(st, Step(p))
    ensures Next(st, Step(p)).pending == st.pending && Next(st, Step(p)).entries == st.entries
  {
    hide At, Now;
  }

  /** A snapshot that is new was taken now. */
  lemma SnapIsNew(st: State, a: Action, s: Snap)
    requires Enabled(st, a) && !a.Boot? && Has(Next(st, a), s) && !Has(st, s)
    ensures a.Snapshot? && s.at == st.clock && s.gen == Now(st, s.tag) && Next(st, a).cells == st.cells
  {
    hide ForgetStep, Now;
    var st' := Next(st, a);
    if a.Snapshot? {
      assert s in st'.pending[a.q].read;
    } else if a.Step? {
      StepKeepsStores(st, a.p);
    }
  }

  lemma TracksKeep(st: State, a: Action)
    requires TableOk(st) && Tracks(st) && Enabled(st, a) && !a.Boot?
    ensures Tracks(Next(st, a))
  {
    hide TableOk, NowMoves, Next, Now, Changed, Has;
    var st' := Next(st, a);
    ClockTicks(st, a);
    TableMoves(st, a, 1);
    OkSized(st');
    forall s | Has(st', s)
      ensures s.at < st'.clock && (s.gen == Now(st', s.tag) || Changed(st', s))
    {
      TableMoves(st, a, s.tag);
      if Has(st, s) {
        ChangedStays(st, st', s);
      } else {
        SnapIsNew(st, a, s);
        SameNow(st, st', s.tag);
      }
    }
  }

  /** The same of the image, whose snapshots were taken before it was written. */
  ghost predicate ImageTracks(st: State) {
    st.image.Some? ==>
      && Sized(st.image.value.cells)
      && forall s | Has(Saved(st), s) :: s.at < st.image.value.at && (s.gen == Now(Saved(st), s.tag) || Changed(st, s))
  }

  lemma MoreChanged(st: State, st': State, s: Snap)
    requires st.changes <= st'.changes && Changed(st, s)
    ensures Changed(st', s)
  {
    var c :| 0 <= c < |st.changes| && st.changes[c].tag == s.tag && s.at < st.changes[c].at;
    assert st'.changes[c] == st.changes[c];
  }

  lemma ImageTracksKeep(st: State, a: Action)
    requires Tracks(st) && ImageTracks(st) && Enabled(st, a)
    ensures ImageTracks(Next(st, a))
  {
    hide Next, Enabled, Now, Changed, Has;
    var st' := Next(st, a);
    HistoryGrows(st, a);
    if st'.image.Some? {
      var before := if a.Dump? then st else Saved(st);
      if a.Dump? {
        DumpWrites(st);
      }
      forall s | Has(Saved(st'), s)
        ensures s.at < st'.image.value.at && (s.gen == Now(Saved(st'), s.tag) || Changed(st', s))
      {
        HasAlike(Saved(st'), before, s);
        SameNow(before, Saved(st'), s.tag);
        if Changed(st, s) {
          MoreChanged(st, st', s);
        }
      }
    }
  }

  lemma HasAlike(st: State, st': State, s: Snap)
    requires Has(st, s) && st.pending == map[] && forall x | x in st.entries :: x in st'.entries && st'.entries[x] == st.entries[x]
    ensures Has(st', s)
  {
  }

  lemma BootTracks(st: State, a: Action)
    requires Backed(st) && ImageTracks(st) && Enabled(st, a) && a.Boot?
    ensures Tracks(Next(st, a))
  {
    hide CellsOk, Now, Changed, Has;
    var st' := Next(st, a);
    BootOk(st, a);
    forall s | Has(st', s)
      ensures s.at < st'.clock && (s.gen == Now(st', s.tag) || Changed(st', s))
    {
      HasSome(st', s);
      HasAlike(st', Saved(st), s);
      SameNow(Saved(st), st', s.tag);
      if Changed(st, s) {
        MoreChanged(st, st', s);
      }
    }
  }

  lemma HasSome(st: State, s: Snap)
    requires Has(st, s) && st.pending == map[]
    ensures st.entries != map[]
  {
  }

  lemma SameNow(st: State, st': State, g: Tag)
    requires Sized(st.cells) && st'.cells == st.cells
    ensures Now(st', g) == Now(st, g)
  {
  }

  lemma OkSized(st: State)
    requires TableOk(st)
    ensures Sized(st.cells)
  {
  }

  lemma FreshTracks()
    ensures Tracks(Fresh()) && ImageTracks(Fresh())
  {
    assert forall s :: !Has(Fresh(), s);
  }

  lemma {:induction false} RunTracks(acts: seq<Action>)
    requires Runs(acts)
    ensures Tracks(After(acts)) && ImageTracks(After(acts))
  {
    hide Tracks, ImageTracks, Next, Enabled, Backed, TableOk;
    if acts == [] {
      FreshTracks();
    } else {
      var st, a := After(acts[..|acts| - 1]), acts[|acts| - 1];
      RunTracks(acts[..|acts| - 1]);
      RunOk(acts[..|acts| - 1]);
      ImageTracksKeep(st, a);
      if a.Boot? {
        BootTracks(st, a);
      } else {
        TracksKeep(st, a);
      }
    }
  }

  /** In every run, a lookup rejects an entry for its tags only if a forget wrote a generation of one of
      them since the entry was stored. */
  lemma RejectedOnlyIfForgotten(acts: seq<Action>, x: nat)
    requires Runs(acts) && x in After(acts).entries
    ensures var st := After(acts);
      Sized(st.cells) && (!Served(st, st.entries[x]) ==> exists i | 0 <= i < |st.entries[x]| :: Changed(st, st.entries[x][i]))
  {
    hide Runs, After, Changed, Now, ImageTracks;
    RunTracks(acts);
    var st := After(acts);
    var e := st.entries[x];
    if !Served(st, e) {
      var i :| 0 <= i < |e| && Now(st, e[i].tag) != e[i].gen;
      assert Has(st, e[i]);
    }
  }

  // ---- Safety ----

  /** What is read only rises, and has risen since the snapshot if the tag was forgotten since; a forget
      that claimed its cell after the snapshot read no less then. */
  ghost predicate SnapOk(st: State, s: Snap)
    requires Sized(st.cells)
  {
    && s.at < st.clock && s.gen <= Now(st, s.tag)
    && (Forgotten(st, s) ==> s.gen < Now(st, s.tag))
    && forall p | p in st.forgets && ClaimedAfter(st.forgets[p], s) :: s.gen <= st.forgets[p].read
  }

  predicate ClaimedAfter(f: Forget, s: Snap) {
    f.pc.Publishing? && f.tag == s.tag && s.at < f.at
  }

  /** An entry that is rejected for good, or whose snapshots are all in order. */
  ghost predicate EntryOk(st: State, e: seq<Snap>)
    requires Sized(st.cells)
  {
    (exists i | 0 <= i < |e| :: e[i].gen < Now(st, e[i].tag)) || AllOk(st, e)
  }

  ghost predicate AllOk(st: State, e: seq<Snap>)
    requires Sized(st.cells)
  {
    forall i | 0 <= i < |e| :: SnapOk(st, e[i])
  }

  ghost predicate Inv(st: State) {
    && TableOk(st) && Sized(st.cells)
    && (forall q | q in st.pending :: AllOk(st, st.pending[q].read))
    && (forall x | x in st.entries :: EntryOk(st, st.entries[x]))
    && (forall d | 0 <= d < |st.done| :: st.done[d].at < st.clock)
    && forall p | p in st.forgets && st.forgets[p].pc.Publishing? :: st.forgets[p].read <= Now(st, st.forgets[p].tag)
  }

  lemma InvIsSafe(st: State)
    requires Inv(st)
    ensures Sized(st.cells) && Safe(st)
  {
    hide TableOk, Now;
    forall x, i | x in st.entries && 0 <= i < |st.entries[x]| && Served(st, st.entries[x])
      ensures !Forgotten(st, st.entries[x][i])
    {
      var e := st.entries[x];
      assert EntryOk(st, e);
      assert forall j | 0 <= j < |e| :: Now(st, e[j].tag) == e[j].gen;
      assert SnapOk(st, e[i]);
    }
  }

  /** The step leaves the forgets that publish as they were, or one claims now. */
  ghost predicate ForgetsFrom(st: State, st': State)
    requires Sized(st.cells)
  {
    forall p | p in st'.forgets && st'.forgets[p].pc.Publishing? ::
      || (p in st.forgets && st'.forgets[p] == st.forgets[p])
      || (st'.forgets[p].at == st.clock && st'.forgets[p].read == Now(st, st'.forgets[p].tag))
  }

  ghost predicate TakenNow(st: State, s: Snap)
    requires Sized(st.cells)
  {
    s.at == st.clock && s.gen == Now(st, s.tag)
  }

  /** No tag is read lower than before, the step takes no snapshot but of now, and stores only what a
      store has read. */
  ghost predicate Rises(st: State, st': State)
    requires Sized(st.cells)
  {
    && TableOk(st') && Sized(st'.cells) && st'.clock == st.clock + 1
    && (forall g: Tag :: Now(st, g) <= Now(st', g))
    && (forall q, s | q in st'.pending && s in st'.pending[q].read :: TakenNow(st, s) || (q in st.pending && s in st.pending[q].read))
    && forall x | x in st'.entries ::
         (x in st.entries && st'.entries[x] == st.entries[x]) || exists q :: q in st.pending && st'.entries[x] == st.pending[q].read
  }

  /** At most one forget finishes, and what was read when it began to count is below what is read now. */
  ghost predicate DoneFrom(st: State, st': State)
    requires Sized(st.cells) && Sized(st'.cells)
  {
    || st'.done == st.done
    || exists m: Mark ::
         && st'.done == st.done + [m] && m.at <= st.clock
         && forall s | SnapOk(st, s) && s.tag == m.tag && s.at < m.at :: s.gen < Now(st', s.tag)
  }

  lemma SnapKeeps(st: State, st': State, s: Snap)
    requires Inv(st) && Rises(st, st') && ForgetsFrom(st, st') && DoneFrom(st, st')
    requires SnapOk(st, s) || TakenNow(st, s)
    ensures SnapOk(st', s)
  {
    hide TableOk, Now, AllOk, EntryOk;
    OldMarks(st, st', s);
    if !SnapOk(st, s) {
      PublishersBefore(st, s);
    }
  }

  lemma EntryKeeps(st: State, st': State, e: seq<Snap>)
    requires Inv(st) && Rises(st, st') && ForgetsFrom(st, st') && DoneFrom(st, st') && EntryOk(st, e)
    ensures EntryOk(st', e)
  {
    hide TableOk, Now, ForgetsFrom, DoneFrom, SnapOk;
    if i :| 0 <= i < |e| && e[i].gen < Now(st, e[i].tag) {
      assert e[i].gen < Now(st', e[i].tag);
    } else {
      forall i | 0 <= i < |e|
        ensures SnapOk(st', e[i])
      {
        SnapKeeps(st, st', e[i]);
      }
    }
  }

  lemma ReadKeeps(st: State, st': State, q: nat)
    requires Inv(st) && Rises(st, st') && ForgetsFrom(st, st') && DoneFrom(st, st') && q in st'.pending
    ensures AllOk(st', st'.pending[q].read)
  {
    hide TableOk, Now, ForgetsFrom, DoneFrom, SnapOk;
    var e := st'.pending[q].read;
    forall i | 0 <= i < |e|
      ensures SnapOk(st', e[i])
    {
      assert e[i] in e;
      if q in st.pending && e[i] in st.pending[q].read {
        assert AllOk(st, st.pending[q].read);
      }
      SnapKeeps(st, st', e[i]);
    }
  }

  lemma RisesKeeps(st: State, st': State)
    requires Inv(st) && Rises(st, st') && ForgetsFrom(st, st') && DoneFrom(st, st')
    ensures Inv(st')
  {
    hide TableOk, Now, AllOk, EntryOk, SnapOk;
    forall q | q in st'.pending
      ensures AllOk(st', st'.pending[q].read)
    {
      ReadKeeps(st, st', q);
    }
    forall x | x in st'.entries
      ensures EntryOk(st', st'.entries[x])
    {
      if !(x in st.entries && st'.entries[x] == st.entries[x]) {
        var q :| q in st.pending && st'.entries[x] == st.pending[q].read;
        InOrder(st, st.pending[q].read);
      }
      EntryKeeps(st, st', st'.entries[x]);
    }
  }

  lemma InOrder(st: State, e: seq<Snap>)
    requires Sized(st.cells) && AllOk(st, e)
    ensures EntryOk(st, e)
  {
  }

  lemma PublishersBefore(st: State, s: Snap)
    requires TableOk(st) && s.at == st.clock
    ensures forall p | p in st.forgets :: !ClaimedAfter(st.forgets[p], s)
  {
    hide CellsOk;
    OkSized(st);
    assert forall p | p in st.forgets :: ForgetOk(st, st.forgets[p]);
  }

  /** A snapshot forgotten after the step was forgotten before, or is one the finished forget follows. */
  lemma OldMarks(st: State, st': State, s: Snap)
    requires Sized(st.cells) && Sized(st'.cells) && DoneFrom(st, st') && (forall d | 0 <= d < |st.done| :: st.done[d].at < st.clock)
    ensures Forgotten(st', s) ==> Forgotten(st, s) || (s.at < st.clock && (SnapOk(st, s) ==> s.gen < Now(st', s.tag)))
  {
    hide Now, SnapOk;
    if st'.done != st.done {
      var m: Mark :| st'.done == st.done + [m] && m.at <= st.clock && forall r | SnapOk(st, r) && r.tag == m.tag && r.at < m.at :: r.gen < Now(st', r.tag);
      assert forall d | 0 <= d < |st.done| :: st'.done[d] == st.done[d];
    }
  }

  /** What a step that is no forget's does to stores and entries. */
  lemma StoresFrom(st: State, a: Action)
    requires Enabled(st, a) && !a.Step? && !a.Boot?
    ensures var st' := Next(st, a);
      && st'.cells == st.cells && st'.done == st.done
      && (forall q, s | q in st'.pending && s in st'.pending[q].read :: TakenNow(st, s) || (q in st.pending && s in st.pending[q].read))
      && forall x | x in st'.entries ::
           (x in st.entries && st'.entries[x] == st.entries[x]) || exists q :: q in st.pending && st'.entries[x] == st.pending[q].read
  {
    hide Now;
  }

  lemma RiseOfQuiet(st: State, a: Action)
    requires Inv(st) && Enabled(st, a) && !a.Step? && !a.Boot?
    ensures Rises(st, Next(st, a)) && ForgetsFrom(st, Next(st, a)) && DoneFrom(st, Next(st, a))
  {
    hide TableOk, Next, Now, Inv, TakenNow;
    var st' := Next(st, a);
    InvTable(st);
    TableMoves(st, a, 1);
    OkSized(st');
    ClockTicks(st, a);
    StoresFrom(st, a);
    forall g: Tag
      ensures Now(st, g) <= Now(st', g)
    {
      SameNow(st, st', g);
    }
    forall p | p in st'.forgets && st'.forgets[p].pc.Publishing?
      ensures (p in st.forgets && st'.forgets[p] == st.forgets[p]) || (st'.forgets[p].at == st.clock && st'.forgets[p].read == Now(st, st'.forgets[p].tag))
    {
      ClaimIsNew(st, a, p);
    }
  }

  lemma InvTable(st: State)
    requires Inv(st)
    ensures TableOk(st) && Sized(st.cells)
  {
  }

  lemma FinishRises(st: State, p: nat, x: nat, gen: nat, since: nat)
    requires Inv(st) && p in st.forgets && x < TAG_SLOTS && st.cells[x].hash == st.forgets[p].tag
    requires gen <= st.cells[x].gen + 1 && (1 < gen ==> since == st.clock) && since <= st.clock
    requires IsFirst(st.cells, st.forgets[p].tag, x) ==> st.cells[x].gen <= gen
    requires forall s | SnapOk(st, s) && s.tag == st.forgets[p].tag && s.at < since ::
               s.gen < if IsFirst(st.cells, s.tag, x) then gen else Now(st, s.tag)
    ensures Inv(Tick(Finish(st, p, x, gen, since)))
  {
    hide TableOk, Reading, IsFirst, CellsOk, SnapOk, AllOk, EntryOk;
    var st' := Tick(Finish(st, p, x, gen, since));
    var h := st.forgets[p].tag;
    TableIsCells(st);
    FinishMoves(st, p, x, gen, since, h);
    forall g: Tag
      ensures Now(st, g) <= Now(st', g)
    {
      WriteReads(st.cells, x, gen, g);
    }
    WriteReads(st.cells, x, gen, h);
    assert st'.done == st.done + [Mark(h, since)];
    assert DoneFrom(st, st');
    RisesKeeps(st, st');
  }

  lemma TableIsCells(st: State)
    requires TableOk(st)
    ensures CellsOk(st.cells)
  {
  }

  lemma BumpKeeps(st: State, p: nat, i: nat)
    requires Inv(st) && Enabled(st, Step(p)) && st.forgets[p].pc == Probing(i) && !Unseen(st, Step(p))
    requires st.cells[At(st.forgets[p].tag, i)].hash == st.forgets[p].tag
    ensures Inv(Next(st, Step(p)))
  {
    hide TableOk, Reading, IsFirst, At, AllOk, EntryOk;
    var h := st.forgets[p].tag;
    var x := At(h, i);
    assert FinishesIn(st, Step(p), x);
    assert IsFirst(st.cells, h, x);
    TableIsCells(st);
    WriteReads(st.cells, x, 0, h);
    FinishRises(st, p, x, st.cells[x].gen + 1, st.clock);
  }

  lemma PublishKeeps(st: State, p: nat, x: nat)
    requires Inv(st) && Enabled(st, Step(p)) && st.forgets[p].pc == Publishing(x)
    requires !Lowers(st, Step(p)) && !Unseen(st, Step(p))
    ensures Inv(Next(st, Step(p)))
  {
    hide TableOk, Reading, IsFirst, At, CellsOk, AllOk, EntryOk;
    var f := st.forgets[p];
    PublisherOk(st, p);
    assert FinishesIn(st, Step(p), x);
    forall s | SnapOk(st, s) && s.tag == f.tag && s.at < f.at
      ensures s.gen < if IsFirst(st.cells, s.tag, x) then 1 else Now(st, s.tag)
    {
      assert ClaimedAfter(f, s);
    }
    FinishRises(st, p, x, 1, f.at);
  }

  lemma PublisherOk(st: State, p: nat)
    requires TableOk(st) && p in st.forgets
    ensures ForgetOk(st, st.forgets[p])
  {
  }

  /** A step of a forget that writes no generation. */
  lemma AdvanceKeeps(st: State, p: nat)
    requires Inv(st) && Enabled(st, Step(p)) && Next(st, Step(p)).done == st.done
    ensures Inv(Next(st, Step(p)))
  {
    hide TableOk, Reading, At, CellsOk, AllOk, EntryOk;
    var st' := Next(st, Step(p));
    TableMoves(st, Step(p), 1);
    StepKeepsStores(st, p);
    forall g: Tag
      ensures Now(st, g) <= Now(st', g)
    {
      ReadsOn(st, p, g);
    }
    RisesKeeps(st, st');
  }

  lemma ReadsOn(st: State, p: nat, g: Tag)
    requires TableOk(st) && Enabled(st, Step(p)) && Next(st, Step(p)).done == st.done
    ensures Now(Next(st, Step(p)), g) == Now(st, g)
  {
    hide CellsOk, Reading, At, IsFirst;
    var f := st.forgets[p];
    if f.pc.Claiming? && st.cells[At(f.tag, f.pc.i)].hash == 0 {
      PublisherOk(st, p);
      ClaimReads(st.cells, f.tag, f.pc.i, g);
    }
  }

  lemma ForgetKeeps(st: State, p: nat)
    requires Inv(st) && Enabled(st, Step(p)) && !Lowers(st, Step(p)) && !Unseen(st, Step(p))
    ensures Inv(Next(st, Step(p)))
  {
    hide Inv, Lowers, Unseen, Now, At;
    var f := st.forgets[p];
    match f.pc
    case Publishing(x) => PublishKeeps(st, p, x);
    case Probing(i) =>
      if st.cells[At(f.tag, i)].hash == f.tag {
        BumpKeeps(st, p, i);
      } else {
        AdvanceKeeps(st, p);
      }
    case Claiming(i) => AdvanceKeeps(st, p);
  }

  // Stops and boots

  /** A boot brings back from the image an entry that lookups will serve, with a tag of which a forget has
      finished since the image was written. */
  predicate BringsBack(st: State, a: Action) {
    a.Boot? && a.load && st.image.Some? && Sized(st.image.value.cells) &&
    var im := st.image.value;
    exists x, i, d ::
      && x in im.entries && x in a.keep && Served(Saved(st), im.entries[x]) && 0 <= i < |im.entries[x]|
      && im.finished <= d < |st.done| && st.done[d].tag == im.entries[x][i].tag
  }

  ghost predicate NeverBringsBack(acts: seq<Action>)
    requires Runs(acts)
  {
    acts == [] || (var init := acts[..|acts| - 1]; NeverBringsBack(init) && !BringsBack(After(init), acts[|acts| - 1]))
  }

  /** The table and the image are both in order. */
  ghost predicate RunInv(st: State) {
    Inv(st) && (st.image.Some? ==> Inv(Saved(st)))
  }

  /** The same table later. */
  lemma InvLater(st: State, st': State)
    requires Inv(st) && st'.cells == st.cells && st'.forgets == st.forgets && st.forgets == map[] && st'.pending == st.pending && st.pending == map[]
    requires st'.entries == st.entries && st'.done == st.done && st.clock <= st'.clock
    ensures Inv(st')
  {
    hide CellsOk, Reading;
    forall x | x in st'.entries
      ensures EntryOk(st', st'.entries[x])
    {
      EntryLater(st, st', st.entries[x]);
    }
  }

  lemma EntryLater(st: State, st': State, e: seq<Snap>)
    requires Sized(st.cells) && st'.cells == st.cells && st'.done == st.done && st.clock <= st'.clock && st'.forgets == map[]
    requires EntryOk(st, e)
    ensures EntryOk(st', e)
  {
    hide Reading;
    assert forall g: Tag :: Now(st', g) == Now(st, g);
    assert forall s :: Forgotten(st', s) <==> Forgotten(st, s);
  }

  lemma SavedLater(st: State, a: Action)
    requires RunInv(st) && Backed(st) && Enabled(st, a) && !a.Dump? && st.image.Some?
    ensures Next(st, a).image == st.image && Inv(Saved(Next(st, a)))
  {
    hide Next, Enabled, Inv, CellsOk;
    var st' := Next(st, a);
    HistoryGrows(st, a);
    var n := st.image.value.finished;
    assert st'.done[..n] == st.done[..n];
    InvLater(Saved(st), Saved(st'));
  }

  /** Of the image's snapshots a boot finds forgotten those that were, and those whose tag was since. */
  lemma ForgottenSince(st: State, st': State, s: Snap)
    requires st.image.Some? && Backed(st) && s.at < st.image.value.at && st'.done == st.done
    ensures Forgotten(st', s) <==>
      Forgotten(Saved(st), s) || exists d | st.image.value.finished <= d < |st.done| :: st.done[d].tag == s.tag
  {
    hide CellsOk;
    var im, old' := st.image.value, Saved(st).done;
    assert forall d | 0 <= d < im.finished :: old'[d] == st.done[d];
    if d :| 0 <= d < |old'| && old'[d].tag == s.tag && s.at < old'[d].at {
      assert st'.done[d].tag == s.tag && s.at < st'.done[d].at;
    }
    if d :| 0 <= d < |st.done| && st.done[d].tag == s.tag && s.at < st.done[d].at {
      assert d < im.finished ==> old'[d].tag == s.tag && s.at < old'[d].at;
    }
    if d :| im.finished <= d < |st.done| && st.done[d].tag == s.tag {
      assert st'.done[d].tag == s.tag && s.at < st'.done[d].at;
    }
  }

  /** An entry the image serves, none of whose tags was forgotten since, or one it rejects. */
  lemma EntryBack(st: State, st': State, e: seq<Snap>)
    requires st.image.Some? && Backed(st) && Sized(st.image.value.cells) && EntryOk(Saved(st), e)
    requires forall i | 0 <= i < |e| :: e[i].at < st.image.value.at
    requires st'.cells == st.image.value.cells && st'.done == st.done && st'.forgets == map[] && st.clock < st'.clock
    requires Served(Saved(st), e) ==> forall i, d | 0 <= i < |e| && st.image.value.finished <= d < |st.done| :: st.done[d].tag != e[i].tag
    ensures EntryOk(st', e)
  {
    hide CellsOk, Reading, Forgotten, Backed;
    assert forall g: Tag :: Now(st', g) == Now(Saved(st), g);
    if AllOk(Saved(st), e) {
      assert forall i | 0 <= i < |e| :: SnapOk(Saved(st), e[i]);
      if Served(Saved(st), e) {
        forall i | 0 <= i < |e|
          ensures SnapOk(st', e[i])
        {
          ForgottenSince(st, st', e[i]);
          ImageBefore(st);
        }
      } else {
        var i :| 0 <= i < |e| && Now(Saved(st), e[i].tag) != e[i].gen;
        assert e[i].gen < Now(st', e[i].tag);
      }
    }
  }

  lemma ImageBefore(st: State)
    requires Backed(st) && st.image.Some?
    ensures st.image.value.at < st.clock
  {
  }

  lemma BootKeeps(st: State, a: Action)
    requires RunInv(st) && Backed(st) && ImageTracks(st) && Enabled(st, a) && a.Boot? && !BringsBack(st, a)
    ensures Inv(Next(st, a))
  {
    hide TableOk, Now, EntryOk, Backed, Changed, Served, CellsOk, Blank;
    var st' := Next(st, a);
    BootOk(st, a);
    if a.load && st.image.Some? {
      var im := st.image.value;
      forall x | x in st'.entries
        ensures EntryOk(st', st'.entries[x])
      {
        var e := im.entries[x];
        assert Saved(st).entries[x] == e;
        assert forall i | 0 <= i < |e| :: Has(Saved(st), e[i]);
        EntryBack(st, st', e);
      }
    }
  }

  lemma StepKeeps(st: State, a: Action)
    requires RunInv(st) && Backed(st) && Enabled(st, a) && !a.Boot? && !Lowers(st, a) && !Unseen(st, a)
    ensures RunInv(Next(st, a))
  {
    hide Inv, Lowers, Unseen, Next, Enabled, Backed, Rises, ForgetsFrom, DoneFrom;
    if a.Step? {
      ForgetKeeps(st, a.p);
    } else {
      RiseOfQuiet(st, a);
      RisesKeeps(st, Next(st, a));
    }
    HistoryGrows(st, a);
    if a.Dump? {
      DumpWrites(st);
    } else if st.image.Some? {
      SavedLater(st, a);
    }
  }

  lemma FreshInv()
    ensures RunInv(Fresh())
  {
    FreshOk();
  }

  lemma {:induction false} RunKeeps(acts: seq<Action>)
    requires Runs(acts) && NeverLowers(acts) && NeverUnseen(acts) && NeverBringsBack(acts)
    ensures RunInv(After(acts))
  {
    hide RunInv, Inv, Next, Lowers, Unseen, Enabled, BringsBack, Backed, ImageTracks, TableOk, Tracks;
    if acts == [] {
      FreshInv();
    } else {
      var init, a := acts[..|acts| - 1], acts[|acts| - 1];
      RunKeeps(init);
      RunOk(init);
      if a.Boot? {
        RunTracks(init);
        BootKeeps(After(init), a);
        BootInv(After(init), a);
      } else {
        StepKeeps(After(init), a);
      }
    }
  }

  lemma BootInv(st: State, a: Action)
    requires RunInv(st) && Backed(st) && Enabled(st, a) && a.Boot? && Inv(Next(st, a))
    ensures RunInv(Next(st, a))
  {
    hide Inv, Next, Enabled, Backed;
    HistoryGrows(st, a);
    if st.image.Some? {
      SavedLater(st, a);
    }
  }

  /** In every run of forgets, stores, drops, stops and boots in which no forget lowers what is read for its
      tag, none finishes unseen and no boot brings back what was forgotten since the image it loads, no
      lookup is given an entry that has a tag forgotten since the entry was stored. */
  lemma ForgottenIsNeverServed(acts: seq<Action>)
    requires Runs(acts) && NeverLowers(acts) && NeverUnseen(acts) && NeverBringsBack(acts)
    ensures Sized(After(acts).cells) && Safe(After(acts))
  {
    hide Inv, Safe;
    RunKeeps(acts);
    InvIsSafe(After(acts));
  }

  /** In every run, loading an image that was safe is safe exactly when no entry it keeps that the image's
      own tag table serves has a tag of which a forget has finished since the image was written. */
  lemma RestoreIsSafeIff(acts: seq<Action>, keep: set<nat>)
    requires Runs(acts) && After(acts).image.Some? && Sized(Saved(After(acts)).cells) && Safe(Saved(After(acts)))
    ensures var st, a := After(acts), Boot(true, keep);
      Enabled(st, a) && Sized(Next(st, a).cells) && (Safe(Next(st, a)) <==> !BringsBack(st, a))
  {
    hide Runs, After, Now, Backed, TableOk, Served, Forgotten, Changed, Tracks;
    RunOk(acts);
    RunTracks(acts);
    var st, a := After(acts), Boot(true, keep);
    var st' := Next(st, a);
    if BringsBack(st, a) {
      BroughtBack(st, a);
    } else {
      forall x, i | x in st'.entries && 0 <= i < |st'.entries[x]| && Served(st', st'.entries[x])
        ensures !Forgotten(st', st'.entries[x][i])
      {
        var e := st.image.value.entries[x];
        SameServed(st', Saved(st), e);
        assert Has(Saved(st), e[i]);
        assert Saved(st).entries[x] == e;
        ForgottenSince(st, st', e[i]);
      }
    }
  }

  lemma SameServed(st: State, st': State, e: seq<Snap>)
    requires Sized(st.cells) && st'.cells == st.cells
    ensures Served(st', e) <==> Served(st, e)
  {
    hide Reading;
    assert forall g: Tag :: Now(st', g) == Now(st, g);
  }

  lemma BroughtBack(st: State, a: Action)
    requires Backed(st) && ImageTracks(st) && Enabled(st, a) && BringsBack(st, a)
    ensures Sized(Next(st, a).cells) && !Safe(Next(st, a))
  {
    hide Now, Backed, Served, Forgotten, Changed, TableOk;
    var im, st' := st.image.value, Next(st, a);
    BootOk(st, a);
    var x, i, d :| && x in im.entries && x in a.keep && Served(Saved(st), im.entries[x]) && 0 <= i < |im.entries[x]|
                   && im.finished <= d < |st.done| && st.done[d].tag == im.entries[x][i].tag;
    var e := im.entries[x];
    assert Saved(st).entries[x] == e && Has(Saved(st), e[i]);
    SameServed(st', Saved(st), e);
    ForgottenSince(st, st', e[i]);
    assert st'.entries[x] == e;
  }

  /** Throughout the run no lookup is given an entry that has a tag forgotten since it was stored. */
  ghost predicate AlwaysSafe(acts: seq<Action>)
    requires Runs(acts)
  {
    && Sized(After(acts).cells) && Safe(After(acts))
    && (acts == [] || AlwaysSafe(acts[..|acts| - 1]))
  }

  /** Whole runs of forgets that neither lower nor finish unseen are safe throughout exactly when no boot
      brings back what was forgotten since the image it loads. */
  lemma {:induction false} AlwaysSafeIff(acts: seq<Action>)
    requires Runs(acts) && NeverLowers(acts) && NeverUnseen(acts)
    ensures AlwaysSafe(acts) <==> NeverBringsBack(acts)
  {
    hide Safe, Next, Lowers, Unseen, Enabled, BringsBack, Backed, ImageTracks, TableOk, Tracks;
    if NeverBringsBack(acts) {
      ForgottenIsNeverServed(acts);
    }
    if acts != [] {
      var init, a := acts[..|acts| - 1], acts[|acts| - 1];
      AlwaysSafeIff(init);
      if BringsBack(After(init), a) {
        RunOk(init);
        RunTracks(init);
        BroughtBack(After(init), a);
      }
    }
  }

  // ---- Exactly when forgets are harmless ----

  predicate OnlyForgets(f: seq<Action>) {
    forall i | 0 <= i < |f| :: f[i].Begin? || f[i].Step?
  }

  /** The accesses of one store of one tagged response. */
  function StoreOf(h: Tag): seq<Action> {
    [Open(0, [h]), Snapshot(0), Commit(0, 0)]
  }

  /** A run of forgets with one store between its first `k` accesses and the rest. */
  function WithStore(f: seq<Action>, k: nat, h: Tag): seq<Action>
    requires k <= |f|
  {
    f[..k] + StoreOf(h) + f[k..]
  }

  lemma Extend(acts: seq<Action>, a: Action)
    requires Runs(acts) && Enabled(After(acts), a)
    ensures Runs(acts + [a]) && After(acts + [a]) == Next(After(acts), a)
    ensures NeverLowers(acts) && !Lowers(After(acts), a) ==> NeverLowers(acts + [a])
    ensures NeverUnseen(acts) && !Unseen(After(acts), a) ==> NeverUnseen(acts + [a])
    ensures RunsFirstAlone(acts) && FirstAlone(After(acts), a) ==> RunsFirstAlone(acts + [a])
  {
    hide Next, Enabled, Lowers, Unseen, FirstAlone;
    var all := acts + [a];
    assert all[..|all| - 1] == acts && all[|all| - 1] == a;
  }

  lemma {:induction false} PrefixRuns(f: seq<Action>, k: nat)
    requires Runs(f) && k <= |f|
    ensures Runs(f[..k]) && (NeverLowers(f) ==> NeverLowers(f[..k])) && (NeverUnseen(f) ==> NeverUnseen(f[..k]))
    ensures k < |f| ==> Enabled(After(f[..k]), f[k])
    ensures k < |f| && NeverLowers(f) ==> !Lowers(After(f[..k]), f[k])
    ensures k < |f| && NeverUnseen(f) ==> !Unseen(After(f[..k]), f[k])
  {
    hide After, Enabled, Lowers, Unseen;
    if k == |f| {
      assert f[..k] == f;
    } else if k < |f| - 1 {
      PrefixRuns(f[..|f| - 1], k);
      assert f[..|f| - 1][..k] == f[..k];
    }
  }

  /** The same forget, three accesses later if it claimed its cell at `k` or after. */
  predicate SameForget(f: Forget, f': Forget, k: nat) {
    f'.tag == f.tag && f'.pc == f.pc && f'.read == f.read && (f.pc.Publishing? && k <= f.at ==> f'.at == f.at + 3)
  }

  /** The same cells and the same forgets, three accesses later. */
  predicate Alike(st: State, st': State, k: nat) {
    && st'.cells == st.cells && st'.forgets.Keys == st.forgets.Keys && k <= st.clock && st'.clock == st.clock + 3
    && forall p | p in st.forgets :: SameForget(st.forgets[p], st'.forgets[p], k)
  }

  lemma AlikeSet(st: State, st': State, k: nat, p: nat, f: Forget, f': Forget, cells: seq<Cell>)
    requires Alike(st, st', k) && SameForget(f, f', k)
    ensures Alike(Tick(st.(cells := cells, forgets := st.forgets[p := f])), Tick(st'.(cells := cells, forgets := st'.forgets[p := f'])), k)
  {
  }

  lemma AlikeFinish(st: State, st': State, k: nat, p: nat, x: nat, gen: nat, since: nat, since': nat)
    requires Alike(st, st', k) && Sized(st.cells) && x < TAG_SLOTS && p in st.forgets
    ensures Alike(Tick(Finish(st, p, x, gen, since)), Tick(Finish(st', p, x, gen, since')), k)
  {
  }

  lemma AlikeForgetSteps(st: State, st': State, k: nat, p: nat)
    requires Alike(st, st', k) && Enabled(st, Step(p)) && Enabled(st', Step(p))
    ensures Alike(Next(st, Step(p)), Next(st', Step(p)), k)
  {
    hide At, Finish, Reading;
    var f, f' := st.forgets[p], st'.forgets[p];
    assert SameForget(f, f', k) && st'.cells == st.cells && k <= st.clock && st'.clock == st.clock + 3;
    hide Alike;
    match f.pc
    case Probing(i) =>
      var x := At(f.tag, i);
      if st.cells[x].hash == f.tag {
        AlikeFinish(st, st', k, p, x, st.cells[x].gen + 1, st.clock, st'.clock);
      } else {
        var pc := if st.cells[x].hash == 0 then Claiming(i) else Probing(i + 1);
        AlikeSet(st, st', k, p, f.(pc := pc), f'.(pc := pc), st.cells);
      }
    case Claiming(i) =>
      var x := At(f.tag, i);
      if st.cells[x].hash == 0 {
        var cells := st.cells[x := Cell(f.tag, st.cells[x].gen)];
        var read := Now(st, f.tag);
        AlikeSet(st, st', k, p, Forget(f.tag, Publishing(x), st.clock, read), Forget(f.tag, Publishing(x), st'.clock, read), cells);
      } else {
        AlikeSet(st, st', k, p, f.(pc := Probing(i + 1)), f'.(pc := Probing(i + 1)), st.cells);
      }
    case Publishing(x) => AlikeFinish(st, st', k, p, x, 1, f.at, f'.at);
  }

  lemma AlikeSteps(st: State, st': State, k: nat, a: Action)
    requires Alike(st, st', k) && Enabled(st, a) && (a.Begin? || a.Step?)
    ensures Enabled(st', a) && Alike(Next(st, a), Next(st', a), k)
    ensures Lowers(st', a) <==> Lowers(st, a)
    ensures Unseen(st', a) <==> Unseen(st, a)
    ensures Next(st', a).pending == st'.pending && Next(st', a).entries == st'.entries
  {
    hide At, ForgetStep, Reading, IsFirst;
    if a.Step? {
      AlikeForgetSteps(st, st', k, a.p);
      StepKeepsStores(st', a.p);
      AlikeUnseen(st, st', k, a);
    } else {
      AlikeSet(st, st', k, a.p, Forget(a.tag, Probing(0), 0, 0), Forget(a.tag, Probing(0), 0, 0), st.cells);
    }
  }

  lemma AlikeUnseen(st: State, st': State, k: nat, a: Action)
    requires Alike(st, st', k) && Enabled(st, a) && Enabled(st', a) && a.Step?
    ensures Unseen(st', a) <==> Unseen(st, a)
  {
    hide At, Reading, IsFirst;
    assert SameForget(st.forgets[a.p], st'.forgets[a.p], k);
    assert forall x: nat :: FinishesIn(st', a, x) <==> FinishesIn(st, a, x);
  }

  lemma {:induction false} OnlyForgetsStoreNothing(f: seq<Action>)
    requires Runs(f) && OnlyForgets(f)
    ensures After(f).pending == map[] && After(f).entries == map[]
  {
    hide Enabled, Next;
    if f != [] {
      var init, a := f[..|f| - 1], f[|f| - 1];
      OnlyForgetsStoreNothing(init);
      ForgetsStoreNothing(After(init), a);
    }
  }

  lemma ForgetsStoreNothing(st: State, a: Action)
    requires Enabled(st, a) && (a.Begin? || a.Step?)
    ensures Next(st, a).pending == st.pending && Next(st, a).entries == st.entries
  {
    hide ForgetStep;
    if a.Step? {
      StepKeepsStores(st, a.p);
    }
  }

  /** The store goes in after the forgets so far, and finds the generation of that time. */
  lemma StoreInserted(f: seq<Action>, h: Tag) returns (r: seq<Action>)
    requires Runs(f) && OnlyForgets(f)
    ensures r == f + StoreOf(h) && Runs(r) && Sized(After(f).cells) && Alike(After(f), After(r), |f|)
    ensures (NeverLowers(f) ==> NeverLowers(r)) && (NeverUnseen(f) ==> NeverUnseen(r))
    ensures After(r).entries == map[0 := [Snap(h, Now(After(f), h), |f| + 1)]]
    ensures After(r).done == After(f).done && After(r).settled == After(f).settled
  {
    hide RunsFirstAlone, Runs, After, NeverLowers, NeverUnseen, Reading, At, TableOk;
    OnlyForgetsStoreNothing(f);
    RunOk(f);
    var st := After(f);
    assert forall p | p in st.forgets && st.forgets[p].pc.Publishing? :: st.forgets[p].at < |f| by { ClaimsArePast(st); }
    Extend(f, Open(0, [h]));
    var r1 := f + [Open(0, [h])];
    Extend(r1, Snapshot(0));
    var r2 := r1 + [Snapshot(0)];
    Extend(r2, Commit(0, 0));
    r := r2 + [Commit(0, 0)];
    assert r == f + StoreOf(h);
    assert [] + [Snap(h, Now(st, h), |f| + 1)] == [Snap(h, Now(st, h), |f| + 1)];
  }

  lemma ClaimsArePast(st: State)
    requires TableOk(st)
    ensures forall p | p in st.forgets && st.forgets[p].pc.Publishing? :: st.forgets[p].at < st.clock
  {
    hide CellsOk;
    OkSized(st);
    assert forall p | p in st.forgets :: ForgetOk(st, st.forgets[p]);
  }

  /** With the store in, the rest of the forgets run as before. */
  lemma {:induction false} RestRuns(f: seq<Action>, k: nat, h: Tag)
    requires Runs(f) && OnlyForgets(f) && k <= |f|
    ensures Runs(f[..k]) && Sized(After(f[..k]).cells)
    ensures var r := WithStore(f, k, h);
      && Runs(r) && Alike(After(f), After(r), k)
      && (NeverLowers(f) ==> NeverLowers(r)) && (NeverUnseen(f) ==> NeverUnseen(r))
      && After(r).entries == map[0 := [Snap(h, Now(After(f[..k]), h), k + 1)]]
    decreases |f| - k
  {
    hide After, Next, Enabled, Lowers, Unseen, Alike, Now, NeverLowers, NeverUnseen, RunsFirstAlone, Runs;
    PrefixRuns(f, k);
    if k == |f| {
      assert f[..k] == f;
      var r := StoreInserted(f, h);
      assert WithStore(f, k, h) == r;
    } else {
      var init, a := f[..|f| - 1], f[|f| - 1];
      PrefixRuns(f, |f| - 1);
      assert init[..k] == f[..k] && init + [a] == f;
      RestRuns(init, k, h);
      Extend(init, a);
      var r := WithStore(init, k, h);
      AlikeSteps(After(init), After(r), k, a);
      Extend(r, a);
      assert r + [a] == WithStore(f, k, h);
    }
  }

  lemma ForgottenStays(st: State, st': State, s: Snap)
    requires Forgotten(st, s) && st.done <= st'.done
    ensures Forgotten(st', s)
  {
    var d :| 0 <= d < |st.done| && st.done[d].tag == s.tag && s.at < st.done[d].at;
    assert st'.done[d] == st.done[d];
  }

  /** A state that serves an entry forgotten since. */
  lemma ServesForgotten(st: State, s: Snap)
    requires Sized(st.cells) && st.entries == map[0 := [s]] && Now(st, s.tag) == s.gen && Forgotten(st, s)
    ensures !Safe(st)
  {
    hide Reading, Forgotten;
    assert st.entries[0][0] == s && Served(st, st.entries[0]);
  }

  // Lowering

  /** What has risen above 1 since the store read 1 did so by a forget that has finished. */
  lemma {:induction false} RiseIsForgotten(f: seq<Action>, k: nat, h: Tag)
    requires Runs(f) && OnlyForgets(f) && k <= |f|
    requires Runs(f[..k]) && Sized(After(f[..k]).cells) && Now(After(f[..k]), h) <= 1
    ensures var r := WithStore(f, k, h);
      Runs(r) && Sized(After(r).cells) && (1 < Now(After(r), h) ==> Forgotten(After(r), Snap(h, 1, k + 1)))
    decreases |f| - k
  {
    hide After, Next, Enabled, Now, Runs, TableOk;
    var r := WithStore(f, k, h);
    RestRuns(f, k, h);
    RunOk(r);
    if k == |f| {
      assert f[..k] == f;
      SameNow(After(f), After(r), h);
    } else {
      var init, a := f[..|f| - 1], f[|f| - 1];
      PrefixRuns(f, |f| - 1);
      assert init[..k] == f[..k];
      RestRuns(init, k, h);
      RiseIsForgotten(init, k, h);
      var q := WithStore(init, k, h);
      RunOk(q);
      AlikeSteps(After(init), After(q), k, a);
      assert q + [a] == r;
      Extend(q, a);
      TableMoves(After(q), a, h);
      RiseStep(After(q), After(r), Snap(h, 1, k + 1));
    }
  }

  lemma RiseStep(st: State, st': State, s: Snap)
    requires Sized(st.cells) && Sized(st'.cells) && NowMoves(st, st', s.tag)
    requires s.at < st.clock && (1 < Now(st, s.tag) ==> Forgotten(st, s))
    ensures 1 < Now(st', s.tag) ==> Forgotten(st', s)
  {
    hide Now;
    if 1 < Now(st', s.tag) {
      if Forgotten(st, s) {
        ForgottenStays(st, st', s);
      } else {
        assert st'.done[|st.done|] == Mark(s.tag, st.clock);
      }
    }
  }

  /** Before what is read is above 1 it is 1. */
  lemma {:induction false} WasOne(f: seq<Action>, h: Tag) returns (k: nat)
    requires Runs(f) && OnlyForgets(f) && Sized(After(f).cells) && 1 < Now(After(f), h)
    ensures k <= |f| && Runs(f[..k]) && Sized(After(f[..k]).cells) && Now(After(f[..k]), h) == 1
  {
    hide Next, Enabled, Now, TableOk;
    if f == [] {
      NothingRead(h);
    }
    var init, a := f[..|f| - 1], f[|f| - 1];
    RunOk(init);
    if 1 < Now(After(init), h) {
      k := WasOne(init, h);
      assert init[..k] == f[..k];
    } else {
      k := |f| - 1;
      TableMoves(After(init), a, h);
    }
  }

  lemma NothingRead(h: Tag)
    ensures Now(Fresh(), h) == 0
  {
    assert forall x: nat :: !Here(Fresh().cells, h, x);
    ReadingNowhere(Fresh().cells, h, 0);
  }

  /** Publishing 1 over a higher generation brings back what was stored at generation 1. */
  lemma LoweringServes(st: State, a: Action, h: Tag, at: nat)
    requires TableOk(st) && Enabled(st, a) && Lowers(st, a) && st.forgets[a.p].tag == h
    requires st.entries == map[0 := [Snap(h, 1, at)]] && Forgotten(st, Snap(h, 1, at))
    ensures Sized(Next(st, a).cells) && !Safe(Next(st, a))
  {
    hide CellsOk, At, Reading, Forgotten, IsFirst, Safe;
    var st' := Next(st, a);
    PublisherOk(st, a.p);
    TableIsCells(st);
    WriteReads(st.cells, st.forgets[a.p].pc.x, 1, h);
    ForgottenStays(st, st', Snap(h, 1, at));
    ServesForgotten(st', Snap(h, 1, at));
  }

  lemma LowersAboveOne(st: State, a: Action)
    requires TableOk(st) && Enabled(st, a) && Lowers(st, a)
    ensures 1 < Now(st, st.forgets[a.p].tag)
  {
    hide CellsOk, Reading, At, IsFirst;
    PublisherOk(st, a.p);
    TableIsCells(st);
    WriteReads(st.cells, st.forgets[a.p].pc.x, 0, st.forgets[a.p].tag);
  }

  // Unseen

  /** When a forget claimed, lookups read what it says they did. */
  lemma {:induction false} ReadWhenClaimed(f: seq<Action>, p: nat)
    requires Runs(f) && p in After(f).forgets && After(f).forgets[p].pc.Publishing?
    ensures var g := After(f).forgets[p];
      g.at < |f| && Runs(f[..g.at]) && Sized(After(f[..g.at]).cells) && Now(After(f[..g.at]), g.tag) == g.read
  {
    hide Next, Enabled, Now, TableOk;
    if f != [] {
      var init, a := f[..|f| - 1], f[|f| - 1];
      RunOk(init);
      ClaimIsNew(After(init), a, p);
      if p in After(init).forgets && After(init).forgets[p] == After(f).forgets[p] {
        ReadWhenClaimed(init, p);
        assert init[..After(f).forgets[p].at] == f[..After(f).forgets[p].at];
      }
    }
  }

  lemma ClaimIsNew(st: State, a: Action, p: nat)
    requires Enabled(st, a) && p in Next(st, a).forgets && Next(st, a).forgets[p].pc.Publishing?
    ensures var g := Next(st, a).forgets[p];
      (p in st.forgets && st.forgets[p] == g) || (g.at == st.clock && g.read == Now(st, g.tag))
  {
    hide At, Now;
  }

  /** A forget that finishes unseen leaves what was stored before it counted to be served. */
  lemma UnseenServes(st: State, a: Action, h: Tag, gen: nat, at: nat)
    requires TableOk(st) && Enabled(st, a) && Unseen(st, a) && st.forgets[a.p].tag == h && at < st.clock
    requires st.entries == map[0 := [Snap(h, gen, at)]] && Now(st, h) == gen
    requires st.forgets[a.p].pc.Publishing? ==> at < st.forgets[a.p].at
    ensures Sized(Next(st, a).cells) && !Safe(Next(st, a))
  {
    hide CellsOk, At, Reading, IsFirst, Safe;
    var st' := Next(st, a);
    PublisherOk(st, a.p);
    TableIsCells(st);
    var x: nat :| FinishesIn(st, a, x) && !IsFirst(st.cells, h, x);
    WriteReads(st.cells, x, st'.cells[x].gen, h);
    assert st'.done[|st.done|].tag == h;
    ServesForgotten(st', Snap(h, gen, at));
  }

  // Both

  /** Wherever one store goes in between the accesses of these forgets, its entry is safe throughout. */
  ghost predicate Harmless(f: seq<Action>) {
    forall j: nat, k: nat, h: Tag | k <= j <= |f| ::
      var r := WithStore(f[..j], k, h); Runs(r) && Sized(After(r).cells) && Safe(After(r))
  }

  lemma NotHarmless(f: seq<Action>, j: nat, k: nat, h: Tag)
    requires k <= j < |f|
    requires var r := WithStore(f[..j], k, h) + [f[j]]; Runs(r) && Sized(After(r).cells) && !Safe(After(r))
    ensures !Harmless(f)
  {
    hide Runs, After, Safe;
    assert f[..j + 1][..k] == f[..j][..k] && f[..j + 1][k..] == f[..j][k..] + [f[j]];
    assert WithStore(f[..j + 1], k, h) == WithStore(f[..j], k, h) + [f[j]];
  }

  lemma LoweringHarms(f: seq<Action>, j: nat)
    requires Runs(f) && OnlyForgets(f) && j < |f| && Runs(f[..j]) && Enabled(After(f[..j]), f[j]) && Lowers(After(f[..j]), f[j])
    ensures !Harmless(f)
  {
    hide After, Next, Runs, Safe, Reading, TableOk, IsFirst;
    var g, st, a := f[..j], After(f[..j]), f[j];
    RunOk(g);
    var h := st.forgets[a.p].tag;
    LowersAboveOne(st, a);
    assert OnlyForgets(g);
    var k := WasOne(g, h);
    assert g[..k] == f[..k];
    RestRuns(g, k, h);
    RiseIsForgotten(g, k, h);
    var r := WithStore(g, k, h);
    RunOk(r);
    SameNow(st, After(r), h);
    AlikeSteps(st, After(r), k, a);
    LoweringServes(After(r), a, h, k + 1);
    Extend(r, a);
    NotHarmless(f, j, k, h);
  }

  lemma UnseenHarms(f: seq<Action>, j: nat)
    requires Runs(f) && OnlyForgets(f) && j < |f| && Runs(f[..j]) && Enabled(After(f[..j]), f[j]) && Unseen(After(f[..j]), f[j])
    ensures !Harmless(f)
  {
    hide After, Next, Runs, Safe, Reading, TableOk, IsFirst;
    var g, st, a := f[..j], After(f[..j]), f[j];
    RunOk(g);
    var c := st.forgets[a.p];
    var k := j;
    if c.pc.Publishing? {
      ReadWhenClaimed(g, a.p);
      k := c.at;
    } else {
      assert g[..k] == g;
    }
    assert OnlyForgets(g) && Now(After(g[..k]), c.tag) == Now(st, c.tag);
    RestRuns(g, k, c.tag);
    var r := WithStore(g, k, c.tag);
    RunOk(r);
    SameNow(st, After(r), c.tag);
    AlikeSteps(st, After(r), k, a);
    assert SameForget(c, After(r).forgets[a.p], k);
    UnseenServes(After(r), a, c.tag, Now(st, c.tag), k + 1);
    Extend(r, a);
    NotHarmless(f, j, k, c.tag);
  }

  lemma {:induction false} FirstBad(f: seq<Action>) returns (j: nat)
    requires Runs(f) && !(NeverLowers(f) && NeverUnseen(f))
    ensures j < |f| && Runs(f[..j]) && Enabled(After(f[..j]), f[j])
    ensures Lowers(After(f[..j]), f[j]) || Unseen(After(f[..j]), f[j])
  {
    hide Next, Enabled, Lowers, Unseen;
    var init, a := f[..|f| - 1], f[|f| - 1];
    if Lowers(After(init), a) || Unseen(After(init), a) {
      j := |f| - 1;
    } else {
      j := FirstBad(init);
      assert init[..j] == f[..j] && init[j] == f[j];
    }
  }

  lemma {:induction false} NoBoots(acts: seq<Action>)
    requires Runs(acts) && forall i | 0 <= i < |acts| :: !acts[i].Boot?
    ensures NeverBringsBack(acts)
  {
    hide After, Enabled;
    if acts != [] {
      NoBoots(acts[..|acts| - 1]);
    }
  }

  /** Forgets, however they overlap, are harmless to every store exactly when none publishes 1 over a
      higher generation where lookups read, and none finishes elsewhere while they read what they did
      when it claimed its cell or counted up. */
  lemma HarmlessIff(f: seq<Action>)
    requires Runs(f) && OnlyForgets(f)
    ensures Harmless(f) <==> NeverLowers(f) && NeverUnseen(f)
  {
    hide After, Next, Enabled, NeverLowers, NeverUnseen, NeverBringsBack, Lowers, Unseen, Runs, Safe;
    if NeverLowers(f) && NeverUnseen(f) {
      forall j: nat, k: nat, h: Tag | k <= j <= |f|
        ensures var r := WithStore(f[..j], k, h); Runs(r) && Sized(After(r).cells) && Safe(After(r))
      {
        PrefixRuns(f, j);
        assert OnlyForgets(f[..j]);
        RestRuns(f[..j], k, h);
        NoBoots(WithStore(f[..j], k, h));
        ForgottenIsNeverServed(WithStore(f[..j], k, h));
      }
    } else {
      var j := FirstBad(f);
      if Lowers(After(f[..j]), f[j]) {
        LoweringHarms(f, j);
      } else {
        UnseenHarms(f, j);
      }
    }
  }

  // ---- A condition callers can keep ----

  predicate Settled(st: State, h: Tag) {
    h in st.settled
  }

  /** Until one forget of a tag has finished in this table, no other of it begins while one is under way; from then on
      they may overlap as they like. */
  predicate FirstAlone(st: State, a: Action) {
    a.Begin? ==> Settled(st, a.tag) || forall p | p in st.forgets :: st.forgets[p].tag != a.tag
  }

  ghost predicate RunsFirstAlone(acts: seq<Action>)
    requires Runs(acts)
  {
    acts == [] || (var init := acts[..|acts| - 1]; RunsFirstAlone(init) && FirstAlone(After(init), acts[|acts| - 1]))
  }

  /** A forget has passed no cell of its own tag; one that claims has none anywhere, one that publishes
      has the only one, still at 0, and neither of these is of a settled tag. */
  ghost predicate Undisturbed(st: State, f: Forget)
    requires Sized(st.cells)
  {
    match f.pc
    case Probing(i) => forall j | 0 <= j < i :: st.cells[At(f.tag, j)].hash != f.tag
    case Claiming(i) => !Settled(st, f.tag) && forall x: nat :: !Here(st.cells, f.tag, x)
    case Publishing(x) =>
      && !Settled(st, f.tag) && x < TAG_SLOTS && st.cells[x].gen == 0
      && forall y: nat :: Here(st.cells, f.tag, y) ==> y == x
  }

  ghost predicate Lone(st: State) {
    && TableOk(st) && Sized(st.cells)
    && (forall p, q | p in st.forgets && q in st.forgets && p != q && st.forgets[p].tag == st.forgets[q].tag :: Settled(st, st.forgets[p].tag))
    && (forall h: Tag | Settled(st, h) :: exists x: nat :: Here(st.cells, h, x))
    && forall p | p in st.forgets :: Undisturbed(st, st.forgets[p])
  }

  /** The cell a lone forget finishes in is the one lookups read. */
  lemma LoneFinishesFirst(st: State, a: Action, x: nat)
    requires Lone(st) && Enabled(st, a) && FinishesIn(st, a, x)
    ensures IsFirst(st.cells, st.forgets[a.p].tag, x)
  {
    hide At, CellsOk;
    var f := st.forgets[a.p];
    PublisherOk(st, a.p);
    assert Undisturbed(st, f);
    match f.pc
    case Probing(i) =>
      assert forall j | 0 <= j < i :: Taken(st.cells, f.tag, j) && st.cells[At(f.tag, j)].hash != 0;
      assert FirstAt(st.cells, f.tag, i);
    case Publishing(y) =>
      TableIsCells(st);
      var m := HasFirst(st.cells, f.tag, y);
      assert Here(st.cells, f.tag, At(f.tag, m));
    case Claiming(_) =>
  }

  lemma LoneIsClear(st: State, a: Action)
    requires Lone(st) && Enabled(st, a)
    ensures !Lowers(st, a) && !Unseen(st, a)
  {
    hide At, IsFirst, Reading, TableOk, FinishesIn;
    if a.Step? {
      assert Undisturbed(st, st.forgets[a.p]);
      forall x: nat | FinishesIn(st, a, x)
        ensures IsFirst(st.cells, st.forgets[a.p].tag, x)
      {
        LoneFinishesFirst(st, a, x);
      }
    }
  }

  lemma SettledStays(st: State, st': State, h: Tag)
    requires st.settled <= st'.settled && Settled(st, h)
    ensures Settled(st', h)
  {
  }

  /** The cells of a tag are the same before and after. */
  predicate SameCells(s: seq<Cell>, t: seq<Cell>, g: Tag) {
    |t| == |s| && forall x | 0 <= x < |t| :: (t[x].hash == g <==> s[x].hash == g) && (t[x].hash == g ==> t[x] == s[x])
  }

  /** A step of one forget leaves the cells of every other tag as they are. */
  lemma OtherCells(st: State, p: nat, g: Tag)
    requires TableOk(st) && Enabled(st, Step(p)) && g != st.forgets[p].tag
    ensures SameCells(st.cells, Next(st, Step(p)).cells, g)
  {
    hide At, CellsOk, Reading, Trail;
    PublisherOk(st, p);
  }

  lemma StepSettles(st: State, p: nat, h: Tag)
    requires Enabled(st, Step(p))
    ensures var st' := Next(st, Step(p));
      && st.settled <= st'.settled && (h != st.forgets[p].tag ==> (Settled(st', h) <==> Settled(st, h)))
  {
    hide At, Reading;
    var st' := Next(st, Step(p));
    if Settled(st, h) {
      SettledStays(st, st', h);
    }
  }

  /** A forget is left alone while its cells are the same and its tag is settled only if it was. */
  lemma LeftAlone(st: State, st': State, g: Forget)
    requires Sized(st.cells) && Undisturbed(st, g) && SameCells(st.cells, st'.cells, g.tag)
    requires (Settled(st', g.tag) <==> Settled(st, g.tag)) && (g.pc.Publishing? ==> Here(st.cells, g.tag, g.pc.x))
    ensures Sized(st'.cells) && Undisturbed(st', g)
  {
    hide At, Settled;
    assert forall x: nat :: Here(st'.cells, g.tag, x) <==> Here(st.cells, g.tag, x);
  }

  lemma ClaimUndisturbed(st: State, p: nat, i: nat)
    requires Lone(st) && Enabled(st, Step(p)) && st.forgets[p].pc == Claiming(i)
    ensures Sized(Next(st, Step(p)).cells) && Undisturbed(Next(st, Step(p)), Next(st, Step(p)).forgets[p])
  {
    hide At, CellsOk, Reading, Settled;
    var f, st' := st.forgets[p], Next(st, Step(p));
    TableIsCells(st);
    assert Undisturbed(st, f);
    SameSettled(st, st');
    if st.cells[At(f.tag, i)].hash == 0 {
      EmptyIsZero(st.cells, At(f.tag, i));
      assert forall y: nat :: Here(st'.cells, f.tag, y) ==> y == At(f.tag, i) || Here(st.cells, f.tag, y);
    } else {
      assert forall j :: 0 <= j < PROBE ==> !Here(st.cells, f.tag, At(f.tag, j));
    }
  }

  /** The stepping forget itself, if it is still under way. */
  lemma OwnUndisturbed(st: State, p: nat)
    requires Lone(st) && Enabled(st, Step(p)) && p in Next(st, Step(p)).forgets
    ensures Sized(Next(st, Step(p)).cells) && Undisturbed(Next(st, Step(p)), Next(st, Step(p)).forgets[p])
  {
    hide At, CellsOk, Reading, Settled;
    var f := st.forgets[p];
    match f.pc
    case Probing(i) =>
      assert Undisturbed(st, f);
      TableIsCells(st);
      SameSettled(st, Next(st, Step(p)));
      if st.cells[At(f.tag, i)].hash == 0 {
        NoneFound(st.cells, f.tag, i);
      }
    case Claiming(i) => ClaimUndisturbed(st, p, i);
    case Publishing(_) =>
  }

  lemma EmptyIsZero(s: seq<Cell>, x: nat)
    requires CellsOk(s) && x < |s| && s[x].hash == 0
    ensures s[x].gen == 0
  {
  }

  /** An empty cell behind which the tag was not met: it has no cell. */
  lemma NoneFound(s: seq<Cell>, h: Tag, i: nat)
    requires CellsOk(s) && i < PROBE && s[At(h, i)].hash == 0 && forall j | 0 <= j < i :: s[At(h, j)].hash != h
    ensures forall x: nat :: !Here(s, h, x)
  {
    hide At;
    assert !Taken(s, h, i);
    assert forall x: nat | Here(s, h, x) :: Placed(s, h, x);
  }

  lemma StepForgets(st: State, p: nat)
    requires Enabled(st, Step(p))
    ensures var fs := Next(st, Step(p)).forgets;
      && (forall q | q in fs && q != p :: q in st.forgets && fs[q] == st.forgets[q])
      && (p in fs ==> fs[p].tag == st.forgets[p].tag)
  {
    hide At, Reading;
  }

  /** A forget of the same tag as the one that steps: the tag is settled, and it is only probing. */
  lemma SiblingUndisturbed(st: State, p: nat, q: nat)
    requires Lone(st) && Enabled(st, Step(p)) && q in st.forgets && q != p && st.forgets[q].tag == st.forgets[p].tag
    ensures Sized(Next(st, Step(p)).cells) && Undisturbed(Next(st, Step(p)), st.forgets[q])
  {
    hide At, CellsOk, Reading, Settled;
    PublisherOk(st, p);
    assert Undisturbed(st, st.forgets[q]) && Undisturbed(st, st.forgets[p]);
    var st' := Next(st, Step(p));
    assert |st'.cells| == |st.cells| && forall x | 0 <= x < |st.cells| :: st'.cells[x].hash == st.cells[x].hash;
  }

  lemma LoneStepKeeps(st: State, p: nat)
    requires Lone(st) && Enabled(st, Step(p))
    ensures Lone(Next(st, Step(p)))
  {
    hide TableOk, Undisturbed, Next, Settled;
    var st' := Next(st, Step(p));
    TableMoves(st, Step(p), 1);
    OkSized(st');
    StepForgets(st, p);
    StepSettles(st, p, st.forgets[p].tag);
    forall q | q in st'.forgets
      ensures Undisturbed(st', st'.forgets[q])
    {
      if q == p {
        OwnUndisturbed(st, p);
      } else if st.forgets[q].tag == st.forgets[p].tag {
        SiblingUndisturbed(st, p, q);
      } else {
        PublisherOk(st, q);
        OtherCells(st, p, st.forgets[q].tag);
        StepSettles(st, p, st.forgets[q].tag);
        LeftAlone(st, st', st.forgets[q]);
      }
    }
    forall q, r | q in st'.forgets && r in st'.forgets && q != r && st'.forgets[q].tag == st'.forgets[r].tag
      ensures Settled(st', st'.forgets[q].tag)
    {
      SettledStays(st, st', st'.forgets[q].tag);
    }
    forall h: Tag | Settled(st', h)
      ensures exists x: nat :: Here(st'.cells, h, x)
    {
      SettledHere(st, p, h);
    }
  }

  lemma SettledHere(st: State, p: nat, h: Tag)
    requires Lone(st) && Enabled(st, Step(p)) && Settled(Next(st, Step(p)), h)
    ensures exists x: nat :: Here(Next(st, Step(p)).cells, h, x)
  {
    hide At, CellsOk, Reading, Undisturbed, Settled;
    PublisherOk(st, p);
    var st' := Next(st, Step(p));
    var f := st.forgets[p];
    if Settled(st, h) {
      var x: nat :| Here(st.cells, h, x);
      StepHashes(st, p);
      assert Here(st'.cells, h, x);
    } else {
      StepSettles(st, p, h);
      NotSettledBefore(st, p);
      var x: nat := if f.pc.Publishing? then f.pc.x else At(f.tag, f.pc.i);
      assert Here(st'.cells, h, x);
    }
  }

  lemma StepHashes(st: State, p: nat)
    requires TableOk(st) && Enabled(st, Step(p))
    ensures HashesStay(st.cells, Next(st, Step(p)).cells)
  {
    hide At, CellsOk, Reading, Trail;
    PublisherOk(st, p);
  }

  /** Only a step that finishes settles its tag. */
  lemma NotSettledBefore(st: State, p: nat)
    requires Enabled(st, Step(p)) && !Settled(st, st.forgets[p].tag) && Settled(Next(st, Step(p)), st.forgets[p].tag)
    ensures exists x: nat :: FinishesIn(st, Step(p), x)
  {
    hide At, Reading;
    var f := st.forgets[p];
    match f.pc
    case Publishing(x) => assert FinishesIn(st, Step(p), x);
    case Probing(i) => assert st.cells[At(f.tag, i)].hash == f.tag ==> FinishesIn(st, Step(p), At(f.tag, i));
    case Claiming(_) =>
  }

  lemma SameUndisturbed(st: State, st': State, f: Forget)
    requires Sized(st.cells) && st'.cells == st.cells && st'.settled == st.settled && (f.pc == Probing(0) || Undisturbed(st, f))
    ensures Undisturbed(st', f)
  {
    hide Settled;
    SameSettled(st, st');
  }

  lemma LoneKeeps(st: State, a: Action)
    requires Lone(st) && Enabled(st, a) && FirstAlone(st, a) && !a.Boot?
    ensures Lone(Next(st, a))
  {
    hide TableOk, ForgetStep, Settled, Undisturbed;
    if a.Step? {
      LoneStepKeeps(st, a.p);
    } else {
      var st' := Next(st, a);
      TableMoves(st, a, 1);
      SameSettled(st, st');
      forall p | p in st'.forgets
        ensures Undisturbed(st', st'.forgets[p])
      {
        SameUndisturbed(st, st', st'.forgets[p]);
      }
    }
  }

  lemma SameSettled(st: State, st': State)
    requires st'.settled == st.settled
    ensures forall h: Tag :: Settled(st', h) <==> Settled(st, h)
  {
  }

  ghost predicate ImageLone(st: State) {
    st.image.Some? ==> Lone(Saved(st))
  }

  /** A table with nothing under way. */
  lemma QuietLone(st: State, st': State)
    requires Lone(st) && st'.cells == st.cells && st'.settled == st.settled && st'.forgets == map[]
    ensures Lone(st')
  {
    hide CellsOk;
    SameSettled(st, st');
  }

  lemma BlankLone(st: State)
    requires st.cells == Blank() && st.settled == {} && st.forgets == map[]
    ensures Lone(st)
  {
  }

  lemma ImageLoneKeeps(st: State, a: Action)
    requires Lone(st) && ImageLone(st) && Enabled(st, a)
    ensures ImageLone(Next(st, a)) && (a.Boot? ==> Lone(Next(st, a)))
  {
    hide Lone, ForgetStep, Blank;
    var st' := Next(st, a);
    HistoryGrows(st, a);
    if a.Dump? {
      QuietLone(st, Saved(st'));
    } else if st.image.Some? {
      QuietLone(Saved(st), Saved(st'));
    }
    if a.Boot? {
      if a.load && st.image.Some? {
        QuietLone(Saved(st), st');
      } else {
        BlankLone(st');
      }
    }
  }

  /** While the first forget of each tag is let finish before another of it begins, no forget lowers what
      is read or finishes unseen — however many overlap afterwards. */
  lemma {:induction false} FirstAloneIsClear(acts: seq<Action>)
    requires Runs(acts) && RunsFirstAlone(acts)
    ensures NeverLowers(acts) && NeverUnseen(acts) && Lone(After(acts)) && ImageLone(After(acts))
  {
    hide Next, Enabled, Lowers, Unseen, FirstAlone, Lone, ImageLone, Blank;
    if acts == [] {
      BlankLone(Fresh());
      FreshImageLone();
    } else {
      var init, a := acts[..|acts| - 1], acts[|acts| - 1];
      FirstAloneIsClear(init);
      LoneIsClear(After(init), a);
      ImageLoneKeeps(After(init), a);
      if !a.Boot? {
        LoneKeeps(After(init), a);
      }
    }
  }

  lemma FreshImageLone()
    ensures ImageLone(Fresh())
  {
  }

  // ---- Both do happen ----

  const TAG: Tag := 1

  lemma Windows()
    ensures At(TAG, 0) == 1 && At(TAG, 1) == 2
  {
  }

  /** The forgets under way and the generation of the one tag in play. */
  predicate Scene(st: State, forgets: map<nat, Pc>, first: Cell, second: Cell) {
    && Sized(st.cells) && st.cells[1] == first && st.cells[2] == second
    && st.forgets.Keys == forgets.Keys
    && forall p | p in forgets :: st.forgets[p].tag == TAG && st.forgets[p].pc == forgets[p]
  }

  lemma SceneBegin(acts: seq<Action>, p: nat, forgets: map<nat, Pc>, c: Cell, d: Cell) returns (more: seq<Action>)
    requires Runs(acts) && Scene(After(acts), forgets, c, d) && p !in forgets
    ensures more == acts + [Begin(p, TAG)] && Runs(more) && Scene(After(more), forgets[p := Probing(0)], c, d)
    ensures After(more).entries == After(acts).entries && After(more).done == After(acts).done && After(more).clock == After(acts).clock + 1
    ensures After(more).image == After(acts).image && (RunsFirstAlone(acts) && forgets == map[] ==> RunsFirstAlone(more))
  {
    hide Runs, After, NeverLowers, NeverUnseen, RunsFirstAlone;
    Extend(acts, Begin(p, TAG));
    more := acts + [Begin(p, TAG)];
  }

  /** What one access leaves of a scene in which both cells are the tag's or empty. */
  function SceneNext(pc: Pc, c: Cell, d: Cell): (Option<Pc>, Cell, Cell) {
    match pc
    case Probing(i) =>
      var e := if i == 0 then c else d;
      if e.hash == 0 then (Some(Claiming(i)), c, d)
      else if i == 0 then (None, Cell(c.hash, c.gen + 1), d) else (None, c, Cell(d.hash, d.gen + 1))
    case Claiming(i) =>
      var e := if i == 0 then c else d;
      if e.hash != 0 then (Some(Probing(i + 1)), c, d)
      else if i == 0 then (Some(Publishing(1)), Cell(TAG, c.gen), d) else (Some(Publishing(2)), c, Cell(TAG, d.gen))
    case Publishing(x) => if x == 1 then (None, Cell(c.hash, 1), d) else (None, c, Cell(d.hash, 1))
  }

  predicate SceneReady(pc: Pc, c: Cell, d: Cell) {
    && (c.hash == 0 || c.hash == TAG) && (d.hash == 0 || d.hash == TAG)
    && match pc
       case Probing(i) => i <= 1
       case Claiming(i) => i <= 1
       case Publishing(x) => 1 <= x <= 2
  }

  lemma SceneStep(acts: seq<Action>, p: nat, forgets: map<nat, Pc>, c: Cell, d: Cell)
      returns (more: seq<Action>, forgets': map<nat, Pc>, c': Cell, d': Cell)
    requires Runs(acts) && Scene(After(acts), forgets, c, d) && p in forgets && SceneReady(forgets[p], c, d)
    ensures more == acts + [Step(p)] && Runs(more) && Scene(After(more), forgets', c', d')
    ensures var (pc, c1, d1) := SceneNext(forgets[p], c, d);
      c' == c1 && d' == d1 && forgets' == if pc.Some? then forgets[p := pc.value] else forgets - {p}
    ensures After(more).entries == After(acts).entries && After(more).clock == After(acts).clock + 1
    ensures After(more).image == After(acts).image && (p in forgets' ==> After(more).done == After(acts).done)
    ensures RunsFirstAlone(acts) ==> RunsFirstAlone(more)
    ensures forgets[p].Claiming? ==> p in After(more).forgets && After(more).forgets[p].at == (if forgets'[p].Publishing? then After(acts).clock else After(acts).forgets[p].at)
    ensures forgets[p].Publishing? ==> After(more).done == After(acts).done + [Mark(TAG, After(acts).forgets[p].at)]
  {
    hide Runs, After, NeverLowers, NeverUnseen, RunsFirstAlone, At;
    Windows();
    var st := After(acts);
    Extend(acts, Step(p));
    more := acts + [Step(p)];
    var (pc, c1, d1) := SceneNext(forgets[p], c, d);
    forgets', c', d' := if pc.Some? then forgets[p := pc.value] else forgets - {p}, c1, d1;
  }

  lemma OpeningScene() returns (acts: seq<Action>)
    ensures acts == [] && Runs(acts) && Scene(After(acts), map[], Cell(0, 0), Cell(0, 0))
  {
    acts := [];
  }

  /** One forget claims the cell and stops, two more count up, the first publishes. */
  lemma ThreeForgetsLower() returns (f: seq<Action>)
    ensures Runs(f) && OnlyForgets(f) && !NeverLowers(f)
  {
    hide Runs, After, NeverLowers, NeverUnseen, RunsFirstAlone, Scene;
    var fs, c, d := map[], Cell(0, 0), Cell(0, 0);
    f := OpeningScene();
    f := SceneBegin(f, 1, fs, c, d);
    fs := fs[1 := Probing(0)];
    f, fs, c, d := SceneStep(f, 1, fs, c, d);
    f, fs, c, d := SceneStep(f, 1, fs, c, d);
    f := SceneBegin(f, 2, fs, c, d);
    fs := fs[2 := Probing(0)];
    f, fs, c, d := SceneStep(f, 2, fs, c, d);
    f := SceneBegin(f, 3, fs, c, d);
    fs := fs[3 := Probing(0)];
    f, fs, c, d := SceneStep(f, 3, fs, c, d);
    assert fs[1] == Publishing(1) && c == Cell(TAG, 2);
    SceneLowers(f, 1, fs, c, d);
    f, fs, c, d := SceneStep(f, 1, fs, c, d);
  }

  lemma SceneLowers(f: seq<Action>, p: nat, fs: map<nat, Pc>, c: Cell, d: Cell)
    requires Runs(f) && Scene(After(f), fs, c, d) && p in fs && fs[p] == Publishing(1) && c.hash == TAG && 1 < c.gen
    ensures Runs(f + [Step(p)]) ==> !NeverLowers(f + [Step(p)])
  {
    hide After, Next;
    Windows();
    var g := f + [Step(p)];
    assert g[..|g| - 1] == f && g[|g| - 1] == Step(p);
    assert FirstAt(After(f).cells, TAG, 0);
  }

  lemma StoredScene() returns (r: seq<Action>)
    ensures Runs(r) && Scene(After(r), map[], Cell(0, 0), Cell(0, 0))
    ensures After(r).clock == 3 && After(r).entries == map[0 := [Snap(TAG, 0, 1)]]
  {
    hide Reading;
    assert After([]) == Fresh();
    r := StoreInserted([], TAG);
    assert Now(Fresh(), TAG) == 0 by {
      ReadingNowhere(Fresh().cells, TAG, 0);
    }
  }

  /** Two forgets both find the cell empty; one claims it and stops, the other has to go on. */
  lemma BothFindItEmpty() returns (r: seq<Action>)
    ensures Runs(r) && Scene(After(r), map[1 := Publishing(1), 2 := Probing(1)], Cell(TAG, 0), Cell(0, 0))
    ensures After(r).clock == 9 && After(r).entries == map[0 := [Snap(TAG, 0, 1)]]
  {
    hide Runs, After, NeverLowers, NeverUnseen, RunsFirstAlone, Scene;
    var fs, c, d := map[], Cell(0, 0), Cell(0, 0);
    r := StoredScene();
    r := SceneBegin(r, 1, fs, c, d);
    fs := fs[1 := Probing(0)];
    r, fs, c, d := SceneStep(r, 1, fs, c, d);
    r := SceneBegin(r, 2, fs, c, d);
    fs := fs[2 := Probing(0)];
    r, fs, c, d := SceneStep(r, 2, fs, c, d);
    r, fs, c, d := SceneStep(r, 1, fs, c, d);
    r, fs, c, d := SceneStep(r, 2, fs, c, d);
    assert fs == map[1 := Publishing(1), 2 := Probing(1)];
  }

  /** It finishes in the next cell. Lookups still read the first cell, and serve what was stored before. */
  lemma LosingForgetIsNotSeen() returns (r: seq<Action>)
    ensures Runs(r) && Sized(After(r).cells) && !Safe(After(r))
  {
    hide Runs, After, NeverLowers, NeverUnseen, RunsFirstAlone, Scene, Safe;
    var fs, c, d := map[1 := Publishing(1), 2 := Probing(1)], Cell(TAG, 0), Cell(0, 0);
    r := BothFindItEmpty();
    r, fs, c, d := SceneStep(r, 2, fs, c, d);
    r, fs, c, d := SceneStep(r, 2, fs, c, d);
    assert fs[2] == Publishing(2) && After(r).forgets[2].at == 10;
    r, fs, c, d := SceneStep(r, 2, fs, c, d);
    assert After(r).done[|After(r).done| - 1] == Mark(TAG, 10);
    SceneServes(After(r), fs, c, d);
  }

  lemma SceneServes(st: State, fs: map<nat, Pc>, c: Cell, d: Cell)
    requires Scene(st, fs, c, d) && c == Cell(TAG, 0) && st.entries == map[0 := [Snap(TAG, 0, 1)]]
    requires st.done != [] && st.done[|st.done| - 1].tag == TAG && 1 < st.done[|st.done| - 1].at
    ensures Sized(st.cells) && !Safe(st)
  {
    Windows();
    assert Now(st, TAG) == 0;
    assert st.entries[0][0] == Snap(TAG, 0, 1) && Forgotten(st, st.entries[0][0]);
    assert Served(st, st.entries[0]);
  }

  // ---- And so does a boot that brings back ----

  lemma {:induction false} NoBegins(acts: seq<Action>)
    requires Runs(acts) && forall i | 0 <= i < |acts| :: !acts[i].Begin?
    ensures RunsFirstAlone(acts)
  {
    hide After, Enabled;
    if acts != [] {
      NoBegins(acts[..|acts| - 1]);
    }
  }

  /** An entry is stored, the server stops and boots again with it. */
  lemma StoppedAndBooted() returns (r: seq<Action>)
    ensures Runs(r) && RunsFirstAlone(r) && Scene(After(r), map[], Cell(0, 0), Cell(0, 0))
    ensures var st := After(r); st.done == [] && st.image == Some(Image(Blank(), map[0 := [Snap(TAG, 0, 1)]], {}, 0, 3))
  {
    hide Runs, After, Reading, NeverLowers, NeverUnseen, RunsFirstAlone;
    EmptyRun();
    r := StoreInserted([], TAG);
    NothingRead(TAG);
    Extend(r, Dump);
    Extend(r + [Dump], Boot(true, {0}));
    r := r + [Dump] + [Boot(true, {0})];
    NoBegins(r);
  }

  lemma EmptyRun()
    ensures Runs([]) && After([]) == Fresh()
  {
  }

  /** Then the tag is forgotten. */
  lemma ForgottenAfterBoot() returns (r: seq<Action>)
    ensures Runs(r) && RunsFirstAlone(r)
    ensures var st := After(r); |st.done| == 1 && st.done[0].tag == TAG && st.image == Some(Image(Blank(), map[0 := [Snap(TAG, 0, 1)]], {}, 0, 3))
  {
    hide Runs, After, NeverLowers, NeverUnseen, RunsFirstAlone, Scene, Blank;
    var fs, c, d := map[], Cell(0, 0), Cell(0, 0);
    var b := StoppedAndBooted();
    r := SceneBegin(b, 1, fs, c, d);
    fs := fs[1 := Probing(0)];
    r, fs, c, d := SceneStep(r, 1, fs, c, d);
    r, fs, c, d := SceneStep(r, 1, fs, c, d);
    r, fs, c, d := SceneStep(r, 1, fs, c, d);
  }

  /** And the process is killed: the next boot loads the image of the stop before, and serves the entry. No
      forget lowered what is read or finished unseen. */
  lemma ForgottenComesBack() returns (r: seq<Action>)
    ensures Runs(r) && RunsFirstAlone(r) && NeverLowers(r) && NeverUnseen(r)
    ensures Sized(After(r).cells) && !Safe(After(r))
  {
    hide Runs, After, NeverLowers, NeverUnseen, RunsFirstAlone, Reading, Blank, Safe, Backed, TableOk, Tracks, ImageTracks, ImageLone, Lone;
    r := ForgottenAfterBoot();
    var st, a := After(r), Boot(true, {0});
    RunOk(r);
    RunTracks(r);
    NothingRead(TAG);
    BlankSized();
    var e := st.image.value.entries[0];
    SameServed(Fresh(), Saved(st), e);
    assert e[0].tag == st.done[0].tag && Served(Saved(st), e);
    assert BringsBack(st, a);
    BroughtBack(st, a);
    Extend(r, a);
    r := r + [a];
    FirstAloneIsClear(r);
  }

  lemma BlankSized()
    ensures Sized(Blank())
  {
  }
}
