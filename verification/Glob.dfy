/** The wildcard matcher of the response cache: a two-pointer scan that backtracks to the
    last `*` only, compared with the declarative meaning of `*` and `?`. */
module Glob {
  import opened Common

  const STAR: byte := 42
  const ANY: byte := 63

  /** What a pattern means: `?` is one byte, `*` is any run of bytes, the rest is literal. */
  ghost predicate Matches(p: Bytes, t: Bytes)
    decreases |p|
  {
    if p == [] then t == []
    else if p[0] == STAR then exists k :: 0 <= k <= |t| && Matches(p[1..], t[k..])
    else t != [] && (p[0] == ANY || p[0] == t[0]) && Matches(p[1..], t[1..])
  }

  /** The scan as a function of its four loop variables (`star` is None for usize::MAX). */
  function Scan(p: Bytes, t: Bytes, pi: nat, ti: nat, star: Option<nat>, mark: nat): bool
    requires pi <= |p| && mark <= ti <= |t|
    requires star.Some? ==> star.value < pi
    decreases if star.Some? then |p| - star.value else |p| + 1, |t| - mark, |t| - ti
  {
    if ti < |t| then
      if pi < |p| && (p[pi] == ANY || p[pi] == t[ti]) then
        Scan(p, t, pi + 1, ti + 1, star, mark)
      else if pi < |p| && p[pi] == STAR then
        Scan(p, t, pi + 1, ti, Some(pi), ti)
      else if star.Some? then
        Scan(p, t, star.value + 1, mark + 1, star, mark + 1)
      else false
    else OnlyStars(p, pi)
  }

  /** The trailing loop: the rest of the pattern is stars. */
  predicate OnlyStars(p: Bytes, pi: nat)
    requires pi <= |p|
  {
    forall k | pi <= k < |p| :: p[k] == STAR
  }

  function Accepts(p: Bytes, t: Bytes): bool {
    Scan(p, t, 0, 0, None, 0)
  }

  /** `glob_match`: sound for every input, exact for every text without a literal `*`. */
  method GlobMatch(p: Bytes, t: Bytes) returns (r: bool)
    ensures r == Accepts(p, t)
    ensures r ==> Matches(p, t)
    ensures STAR !in t ==> r == Matches(p, t)
  {
    var pi: nat, ti: nat, star: Option<nat>, mark: nat := 0, 0, None, 0;
    Sound(p, t);
    Complete(p, t);
    while ti < |t|
      invariant pi <= |p| && mark <= ti <= |t|
      invariant star.Some? ==> star.value < pi
      invariant Accepts(p, t) == Scan(p, t, pi, ti, star, mark)
      decreases if star.Some? then |p| - star.value else |p| + 1, |t| - mark, |t| - ti
    {
      if pi < |p| && (p[pi] == ANY || p[pi] == t[ti]) {
        pi, ti := pi + 1, ti + 1;
      } else if pi < |p| && p[pi] == STAR {
        star, mark, pi := Some(pi), ti, pi + 1;
      } else if star.Some? {
        pi, mark := star.value + 1, mark + 1;
        ti := mark;
      } else {
        return false;
      }
    }
    while pi < |p| && p[pi] == STAR
      invariant pi <= |p|
      invariant Accepts(p, t) == OnlyStars(p, pi)
    {
      pi := pi + 1;
    }
    return pi == |p|;
  }

  // ---- Facts about the declarative meaning ----

  /** A leading star can give up bytes of the text to its left. */
  lemma StarShift(p: Bytes, t: Bytes, a: nat, b: nat)
    requires p != [] && p[0] == STAR && a <= b <= |t|
    requires Matches(p, t[b..])
    ensures Matches(p, t[a..])
  {
    var k :| 0 <= k <= |t| - b && Matches(p[1..], t[b..][k..]);
    assert t[b..][k..] == t[a..][b - a + k..];
  }

  lemma {:induction false} StarsMatchNothing(p: Bytes, pi: nat)
    requires pi <= |p|
    ensures OnlyStars(p, pi) == Matches(p[pi..], [])
    decreases |p| - pi
  {
    if pi < |p| {
      StarsMatchNothing(p, pi + 1);
      assert p[pi..][1..] == p[pi + 1..];
      var e: Bytes := [];
      assert e[0..] == e;
      if Matches(p[pi..], []) {
        assert p[pi..][0] == STAR;
        assert Matches(p[pi + 1..], []);
      }
    }
  }

  /** A star-free stretch p[a..b] consumes exactly b - a bytes. */
  lemma {:induction false} StretchConsumes(p: Bytes, t: Bytes, a: nat, b: nat, m: nat)
    requires a <= b <= |p| && m <= |t|
    requires STAR !in p[a..b]
    requires Matches(p[a..], t[m..])
    ensures m + (b - a) <= |t|
    ensures Matches(p[b..], t[m + (b - a)..])
    decreases b - a
  {
    if a < b {
      assert p[a] == p[a..b][0];
      assert p[a..][1..] == p[a + 1..];
      assert t[m..][1..] == t[m + 1..];
      assert forall x | x in p[a + 1..b] :: x in p[a..b];
      StretchConsumes(p, t, a + 1, b, m + 1);
    }
  }

  // ---- Soundness ----

  /** Matching the remaining pattern at any later mark would settle the whole match. */
  ghost predicate StarSettles(p: Bytes, t: Bytes, star: Option<nat>, mark: nat)
    requires star.Some? ==> star.value < |p|
    requires mark <= |t|
  {
    star.Some? ==> forall m | mark <= m <= |t| :: Matches(p[star.value + 1..], t[m..]) ==> Matches(p, t)
  }

  lemma {:induction false} ScanSound(p: Bytes, t: Bytes, pi: nat, ti: nat, star: Option<nat>, mark: nat)
    requires pi <= |p| && mark <= ti <= |t|
    requires star.Some? ==> star.value < pi
    requires StarSettles(p, t, star, mark)
    requires Matches(p[pi..], t[ti..]) ==> Matches(p, t)
    requires Scan(p, t, pi, ti, star, mark)
    ensures Matches(p, t)
    decreases if star.Some? then |p| - star.value else |p| + 1, |t| - mark, |t| - ti
  {
    if ti < |t| {
      assert pi < |p| ==> p[pi..][1..] == p[pi + 1..];
      assert t[ti..][1..] == t[ti + 1..];
      if pi < |p| && (p[pi] == ANY || p[pi] == t[ti]) {
        if p[pi] == STAR {
          assert Matches(p[pi + 1..], t[ti + 1..]) ==> Matches(p[pi..], t[ti..]) by {
            if Matches(p[pi + 1..], t[ti + 1..]) {
              assert Matches(p[pi..][1..], t[ti..][1..]);
            }
          }
        }
        ScanSound(p, t, pi + 1, ti + 1, star, mark);
      } else if pi < |p| && p[pi] == STAR {
        forall m | ti <= m <= |t| && Matches(p[pi + 1..], t[m..])
          ensures Matches(p, t)
        {
          assert t[ti..][m - ti..] == t[m..];
          assert Matches(p[pi..], t[ti..]);
        }
        ScanSound(p, t, pi + 1, ti, Some(pi), ti);
      } else {
        ScanSound(p, t, star.value + 1, mark + 1, star, mark + 1);
      }
    } else {
      StarsMatchNothing(p, pi);
      assert t[ti..] == [];
    }
  }

  lemma Sound(p: Bytes, t: Bytes)
    ensures Accepts(p, t) ==> Matches(p, t)
  {
    assert p[0..] == p && t[0..] == t;
    if Accepts(p, t) {
      ScanSound(p, t, 0, 0, None, 0);
    }
  }

  // ---- Completeness: the last star is enough ----

  /** A match is still open: at the current position, or by moving the last star's mark on. */
  ghost predicate Open(p: Bytes, t: Bytes, pi: nat, ti: nat, star: Option<nat>, mark: nat)
    requires pi <= |p| && mark <= ti <= |t|
    requires star.Some? ==> star.value < pi
  {
    || Matches(p[pi..], t[ti..])
    || (star.Some? && exists m :: mark < m <= |t| && Matches(p[star.value + 1..], t[m..]))
  }

  lemma {:induction false} ScanComplete(p: Bytes, t: Bytes, pi: nat, ti: nat, star: Option<nat>, mark: nat)
    requires pi <= |p| && mark <= ti <= |t| && STAR !in t
    requires star.Some? ==> star.value < pi && ti - mark == pi - star.value - 1 && STAR !in p[star.value + 1..pi]
    requires Open(p, t, pi, ti, star, mark)
    ensures Scan(p, t, pi, ti, star, mark)
    decreases if star.Some? then |p| - star.value else |p| + 1, |t| - mark, |t| - ti
  {
    hide Matches, Open;
    if ti < |t| {
      if pi < |p| && (p[pi] == ANY || p[pi] == t[ti]) {
        assert t[ti] in t;
        OpenLiteral(p, t, pi, ti, star, mark);
        ScanComplete(p, t, pi + 1, ti + 1, star, mark);
      } else if pi < |p| && p[pi] == STAR {
        LastStarSuffices(p, t, pi, ti, star, mark);
        ScanComplete(p, t, pi + 1, ti, Some(pi), ti);
      } else {
        OpenMismatch(p, t, pi, ti, star, mark);
        ScanComplete(p, t, star.value + 1, mark + 1, star, mark + 1);
      }
    } else {
      OpenAtEnd(p, t, pi, ti, star, mark);
    }
  }

  lemma OpenMismatch(p: Bytes, t: Bytes, pi: nat, ti: nat, star: Option<nat>, mark: nat)
    requires pi <= |p| && mark <= ti < |t|
    requires star.Some? ==> star.value < pi
    requires pi < |p| ==> p[pi] != ANY && p[pi] != t[ti] && p[pi] != STAR
    requires Open(p, t, pi, ti, star, mark)
    ensures star.Some? && Open(p, t, star.value + 1, mark + 1, star, mark + 1)
  {
  }

  /** With the text used up, moving a mark on cannot help: the stretch behind it is too long. */
  lemma OpenAtEnd(p: Bytes, t: Bytes, pi: nat, ti: nat, star: Option<nat>, mark: nat)
    requires pi <= |p| && mark <= ti == |t|
    requires star.Some? ==> star.value < pi && ti - mark == pi - star.value - 1 && STAR !in p[star.value + 1..pi]
    requires Open(p, t, pi, ti, star, mark)
    ensures OnlyStars(p, pi)
  {
    assert t[ti..] == [];
    StarsMatchNothing(p, pi);
    if !Matches(p[pi..], t[ti..]) {
      var m :| mark < m <= |t| && Matches(p[star.value + 1..], t[m..]);
      StretchConsumes(p, t, star.value + 1, pi, m);
      assert false;
    }
  }

  lemma OpenLiteral(p: Bytes, t: Bytes, pi: nat, ti: nat, star: Option<nat>, mark: nat)
    requires pi < |p| && mark <= ti < |t| && p[pi] != STAR
    requires star.Some? ==> star.value < pi && STAR !in p[star.value + 1..pi]
    requires Open(p, t, pi, ti, star, mark)
    ensures Open(p, t, pi + 1, ti + 1, star, mark)
    ensures star.Some? ==> STAR !in p[star.value + 1..pi + 1]
  {
    assert p[pi..][1..] == p[pi + 1..] && t[ti..][1..] == t[ti + 1..];
    if star.Some? {
      assert p[star.value + 1..pi + 1] == p[star.value + 1..pi] + [p[pi]];
    }
  }

  /** Whatever an earlier star could still do, the star just reached can do too. */
  lemma LastStarSuffices(p: Bytes, t: Bytes, pi: nat, ti: nat, star: Option<nat>, mark: nat)
    requires pi < |p| && mark <= ti <= |t| && p[pi] == STAR
    requires star.Some? ==> star.value < pi && ti - mark == pi - star.value - 1 && STAR !in p[star.value + 1..pi]
    requires Open(p, t, pi, ti, star, mark)
    ensures Open(p, t, pi + 1, ti, Some(pi), ti)
  {
    hide Scan;
    if !Matches(p[pi..], t[ti..]) {
      var m :| mark < m <= |t| && Matches(p[star.value + 1..], t[m..]);
      StretchConsumes(p, t, star.value + 1, pi, m);
      StarShift(p[pi..], t, ti, m + (pi - star.value - 1));
    }
    var k :| 0 <= k <= |t| - ti && Matches(p[pi..][1..], t[ti..][k..]);
    assert p[pi..][1..] == p[pi + 1..];
    assert t[ti..][k..] == t[ti + k..];
    assert k == 0 ==> t[ti..][0..] == t[ti..];
  }

  lemma Complete(p: Bytes, t: Bytes)
    ensures STAR !in t && Matches(p, t) ==> Accepts(p, t)
  {
    assert p[0..] == p && t[0..] == t;
    if STAR !in t && Matches(p, t) {
      ScanComplete(p, t, 0, 0, None, 0);
    }
  }

  // ---- Exactly when the matcher is faithful ----

  lemma {:induction false} LiteralPrefix(u: Bytes, p: Bytes, t: Bytes, i: nat)
    requires i <= |u| && STAR !in u
    requires u <= p && u <= t
    ensures Scan(p, t, i, i, None, 0) == Scan(p, t, |u|, |u|, None, 0)
    ensures Matches(p[|u|..], t[|u|..]) ==> Matches(p[i..], t[i..])
    decreases |u| - i
  {
    if i < |u| {
      LiteralPrefix(u, p, t, i + 1);
      assert p[i] == u[i] == t[i];
      assert u[i] in u;
      assert p[i..][1..] == p[i + 1..] && t[i..][1..] == t[i + 1..];
    }
  }

  /** The first `*` byte of the text is taken as a literal: a pattern that needs its own
      star to swallow that byte and more is then refused. */
  function Witness(t: Bytes, at: nat): Bytes
    requires at < |t|
  {
    t[..at] + (if at + 1 < |t| then [STAR] else [STAR, ANY])
  }

  lemma StarTextRefused(t: Bytes, at: nat)
    requires at < |t| && t[at] == STAR && STAR !in t[..at]
    ensures Matches(Witness(t, at), t) && !Accepts(Witness(t, at), t)
  {
    var u := t[..at];
    var p := Witness(t, at);
    LiteralPrefix(u, p, t, 0);
    assert p[0..] == p && t[0..] == t;
    assert p[at] == STAR;
    var rest := t[at..];
    assert !Scan(p, t, at, at, None, 0) by {
      assert Scan(p, t, at, at, None, 0) == Scan(p, t, at + 1, at + 1, None, 0);
      if at + 1 == |t| {
        assert p[at + 1] == ANY;
        assert !OnlyStars(p, at + 1);
      }
    }
    assert Matches(p[at..], rest) by {
      if at + 1 < |t| {
        assert p[at..] == [STAR];
        assert p[at..][1..] == [] && rest[|rest|..] == [];
        assert Matches(p[at..][1..], rest[|rest|..]);
      } else {
        assert p[at..][1..] == [ANY] && rest[0..] == rest && rest[1..] == [];
        assert [ANY][1..] == [];
        assert Matches([ANY], rest);
        assert Matches(p[at..][1..], rest[0..]);
      }
    }
  }

  lemma {:induction false} FirstStar(t: Bytes) returns (at: nat)
    requires STAR in t
    ensures at < |t| && t[at] == STAR && STAR !in t[..at]
  {
    if t[0] == STAR {
      at := 0;
    } else {
      var n := FirstStar(t[1..]);
      at := n + 1;
      assert t[..at] == [t[0]] + t[1..][..n];
    }
  }

  /** The matcher answers every pattern as its meaning does if and only if the text holds
      no `*` byte. */
  lemma FaithfulIffNoStarInText(t: Bytes)
    ensures (forall p :: Accepts(p, t) == Matches(p, t)) <==> STAR !in t
  {
    forall p
      ensures STAR !in t ==> Accepts(p, t) == Matches(p, t)
    {
      Sound(p, t);
      Complete(p, t);
    }
    if STAR in t {
      var at := FirstStar(t);
      StarTextRefused(t, at);
      var p := Witness(t, at);
      assert Accepts(p, t) != Matches(p, t);
    }
  }
}
