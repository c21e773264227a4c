/** Generation counters per cache tag, one operation at a time: an open-addressed table that is never
    emptied, standing for a map from tags to how often they were forgotten. */
module TagTable {
  import opened Common

  const TAG_SLOTS: nat := 4096
  const PROBE: nat := 16

  /** A tag, by its hash; 0 marks an empty cell. */
  type Tag = h: u64 | h != 0 witness 1

  datatype Cell = Cell(hash: u64, gen: nat)

  function At(h: u64, i: nat): (x: nat)
    ensures x < TAG_SLOTS
  {
    (h % TAG_SLOTS + i) % TAG_SLOTS
  }

  predicate Sized(s: seq<Cell>) {
    |s| == TAG_SLOTS
  }

  predicate Taken(s: seq<Cell>, h: Tag, i: nat)
    requires Sized(s)
  {
    s[At(h, i)].hash != 0
  }

  /** Cell `x` holds tag `h`, and a search for the tag reaches it. */
  ghost predicate Placed(s: seq<Cell>, h: Tag, x: nat)
    requires Sized(s)
  {
    exists i :: 0 <= i < PROBE && At(h, i) == x && forall j | 0 <= j < i :: Taken(s, h, j)
  }

  ghost predicate TableInv(s: seq<Cell>) {
    && Sized(s)
    && (forall x | 0 <= x < |s| && s[x].hash != 0 :: Placed(s, s[x].hash, x))
    && forall x, y | 0 <= x < |s| && 0 <= y < |s| && s[x].hash != 0 && s[x].hash == s[y].hash :: x == y
  }

  predicate Here(s: seq<Cell>, h: Tag, x: nat) {
    x < |s| && s[x].hash == h
  }

  /** A tag's generation; 0 when it was never forgotten. */
  ghost function Gen(s: seq<Cell>, h: Tag): nat {
    if exists x: nat :: Here(s, h, x) then
      var x: nat :| Here(s, h, x);
      s[x].gen
    else 0
  }

  /** All cells of the tag's window belong to other tags. */
  predicate Full(s: seq<Cell>, h: Tag)
    requires Sized(s)
  {
    forall i | 0 <= i < PROBE :: Taken(s, h, i) && s[At(h, i)].hash != h
  }

  /** The first `i` cells of the window belong to other tags. */
  ghost predicate Passed(s: seq<Cell>, h: Tag, i: nat)
    requires Sized(s)
  {
    forall j | 0 <= j < i :: Taken(s, h, j) && s[At(h, j)].hash != h
  }

  lemma GenAt(s: seq<Cell>, h: Tag, x: nat)
    requires TableInv(s) && Here(s, h, x)
    ensures Gen(s, h) == s[x].gen
  {
  }

  /** A search that met an empty cell, or used up its window, has shown the tag absent. */
  lemma SearchedInVain(s: seq<Cell>, h: Tag, i: nat)
    requires TableInv(s) && i <= PROBE && Passed(s, h, i) && (i < PROBE ==> !Taken(s, h, i))
    ensures Gen(s, h) == 0 && forall x: nat :: !Here(s, h, x)
  {
    hide At;
    assert forall x: nat | Here(s, h, x) :: Placed(s, h, x);
  }

  /** Counting up the tag where it is, or claiming an empty cell for it, adds one to its generation
      and changes no other. */
  lemma Bumped(s: seq<Cell>, h: Tag, i: nat)
    requires TableInv(s) && i < PROBE && Passed(s, h, i) && (Here(s, h, At(h, i)) || !Taken(s, h, i))
    ensures var x := At(h, i); var t := s[x := Cell(h, if s[x].hash == h then s[x].gen + 1 else 1)];
      TableInv(t) && Gen(t, h) == Gen(s, h) + 1 && forall g: Tag | g != h :: Gen(t, g) == Gen(s, g)
  {
    hide At;
    var x := At(h, i);
    var t := s[x := Cell(h, if s[x].hash == h then s[x].gen + 1 else 1)];
    if s[x].hash == h {
      GenAt(s, h, x);
    } else {
      SearchedInVain(s, h, i);
    }
    KeepsPlaces(s, h, i, t);
    GenAt(t, h, x);
    forall g: Tag | g != h
      ensures Gen(t, g) == Gen(s, g)
    {
      SameGen(s, t, g, x);
    }
  }

  lemma KeepsPlaces(s: seq<Cell>, h: Tag, i: nat, t: seq<Cell>)
    requires TableInv(s) && i < PROBE && Passed(s, h, i) && (Here(s, h, At(h, i)) || !Taken(s, h, i))
    requires |t| == |s| && t[At(h, i)].hash == h && forall y | 0 <= y < |s| && y != At(h, i) :: t[y] == s[y]
    ensures TableInv(t)
  {
    hide At;
    if !Taken(s, h, i) {
      SearchedInVain(s, h, i);
    }
    assert forall g: Tag, j: nat :: Taken(s, g, j) ==> Taken(t, g, j);
    forall y | 0 <= y < |t| && t[y].hash != 0
      ensures Placed(t, t[y].hash, y)
    {
      if y == At(h, i) {
        assert forall j | 0 <= j < i :: Taken(t, h, j);
      } else {
        var g: Tag := s[y].hash;
        var k :| 0 <= k < PROBE && At(g, k) == y && forall j | 0 <= j < k :: Taken(s, g, j);
        assert forall j | 0 <= j < k :: Taken(t, g, j);
      }
    }
  }

  lemma SameGen(s: seq<Cell>, t: seq<Cell>, g: Tag, x: nat)
    requires TableInv(s) && TableInv(t) && |t| == |s| && x < |s| && s[x].hash != g && t[x].hash != g
    requires forall y | 0 <= y < |s| && y != x :: t[y] == s[y]
    ensures Gen(t, g) == Gen(s, g)
  {
    if y: nat :| Here(s, g, y) {
      GenAt(s, g, y);
      assert Here(t, g, y);
      GenAt(t, g, y);
    } else {
      assert forall y: nat :: Here(t, g, y) ==> Here(s, g, y);
    }
  }

  class Table {
    const cells: array<Cell>

    ghost predicate Valid()
      reads this, cells
    {
      TableInv(cells[..])
    }

    ghost function Generation(h: Tag): nat
      reads this, cells
    {
      Gen(cells[..], h)
    }

    constructor ()
      ensures Valid() && fresh(cells) && forall h: Tag :: Generation(h) == 0
    {
      cells := new Cell[TAG_SLOTS](_ => Cell(0, 0));
      new;
      assert forall h: Tag, x: nat :: !Here(cells[..], h, x);
    }

    /** `tag_gen`. */
    method TagGen(h: Tag) returns (gen: nat)
      requires Valid()
      ensures gen == Generation(h)
    {
      hide At, Gen, TableInv;
      TableSized(cells[..]);
      var i := 0;
      while i < PROBE
        invariant i <= PROBE && Passed(cells[..], h, i)
      {
        var c := cells[At(h, i)];
        if c.hash == h {
          GenAt(cells[..], h, At(h, i));
          return c.gen;
        }
        if c.hash == 0 {
          break;
        }
        i := i + 1;
      }
      SearchedInVain(cells[..], h, i);
      return 0;
    }

    /** `forget_tag`: one generation on, and no other tag's changed — unless the whole window belongs
        to other tags: then the first cell is taken over. */
    method Forget(h: Tag)
      requires Valid()
      modifies cells
      ensures var s := old(cells[..]);
        !Full(s, h) ==> Valid() && Generation(h) == old(Generation(h)) + 1 && forall g: Tag | g != h :: Generation(g) == old(Generation(g))
      ensures var s := old(cells[..]);
        Full(s, h) ==> cells[..] == s[At(h, 0) := Cell(h, s[At(h, 0)].gen + 1)]
    {
      hide At, Gen, TableInv;
      TableSized(cells[..]);
      ghost var s := cells[..];
      var i := 0;
      while i < PROBE
        invariant i <= PROBE && Passed(s, h, i) && cells[..] == s
      {
        var x := At(h, i);
        var hv := cells[x].hash;
        if hv == h {
          Bumped(s, h, i);
          cells[x] := cells[x].(gen := cells[x].gen + 1);
          assert cells[..] == s[x := Cell(h, s[x].gen + 1)];
          return;
        }
        if hv == 0 {
          Bumped(s, h, i);
          cells[x] := cells[x].(hash := h);
          cells[x] := cells[x].(gen := 1);
          assert cells[..] == s[x := Cell(h, 1)];
          return;
        }
        i := i + 1;
      }
      assert Full(s, h);
      cells[At(h, 0)] := Cell(h, cells[At(h, 0)].gen + 1);
    }
  }

  lemma TableSized(s: seq<Cell>)
    requires TableInv(s)
    ensures Sized(s)
  {
  }
}
