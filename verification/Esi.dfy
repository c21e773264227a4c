/** Splitting a page into literals and edge-side includes. */
module Esi {
  import opened Common
  import opened Text

  /** A page is bytes; tags are written here as text. */
  function Ascii(s: string): (b: Bytes)
    requires forall i | 0 <= i < |s| :: s[i] < 128 as char
    ensures |b| == |s| && forall i | 0 <= i < |s| :: b[i] as int == s[i] as int
  {
    seq(|s|, i requires 0 <= i < |s| => (s[i] as int) as byte)
  }

  const OPEN: Bytes := Ascii("<esi:")
  const REMOVE: Bytes := Ascii("<esi:remove")
  const CLOSE: Bytes := Ascii("</esi:remove>")
  const INCLUDE: Bytes := Ascii("<esi:include")
  const GT: Bytes := Ascii(">")
  const SRC: Bytes := Ascii("src")

  /** `needle` stands at `at`, whatever the case of its letters. */
  predicate Match(hay: Bytes, at: nat, needle: Bytes) {
    at + |needle| <= |hay| && forall k | 0 <= k < |needle| :: Lower(hay[at + k]) == Lower(needle[k])
  }

  /** The first place at or after `from` where `needle` stands. */
  function Find(hay: Bytes, from: nat, needle: Bytes): (r: Option<nat>)
    requires needle != []
    ensures r.Some? ==> from <= r.value && Match(hay, r.value, needle)
    ensures r.Some? ==> forall p | from <= p < r.value :: !Match(hay, p, needle)
    ensures r.None? ==> forall p | from <= p :: !Match(hay, p, needle)
    decreases |hay| - from
  {
    if |hay| < from + |needle| then None else if Match(hay, from, needle) then Some(from) else Find(hay, from + 1, needle)
  }

  // ---- Reading an attribute ----

  predicate IsSpace(b: byte) {
    b == 32 || b == 9 || b == 10 || b == 12 || b == 13
  }

  /** The first byte at or after `i` that is not white space, or the end. */
  function SkipSpace(tag: Bytes, i: nat): (j: nat)
    requires i <= |tag|
    ensures i <= j <= |tag| && (j < |tag| ==> !IsSpace(tag[j])) && forall k | i <= k < j :: IsSpace(tag[k])
    decreases |tag| - i
  {
    if i < |tag| && IsSpace(tag[i]) then SkipSpace(tag, i + 1) else i
  }

  /** The first `q` at or after `i`, or the end. */
  function SkipTo(tag: Bytes, q: byte, i: nat): (j: nat)
    requires i <= |tag|
    ensures i <= j <= |tag| && (j < |tag| ==> tag[j] == q) && forall k | i <= k < j :: tag[k] != q
    decreases |tag| - i
  {
    if i < |tag| && tag[i] != q then SkipTo(tag, q, i + 1) else i
  }

  /** At `pos` there is `src`, not part of a longer name, and an equals sign follows. */
  predicate Assigns(tag: Bytes, pos: nat) {
    && Match(tag, pos, SRC) && (pos == 0 || IsSpace(tag[pos - 1]))
    && var j := SkipSpace(tag, pos + |SRC|); j < |tag| && tag[j] == 61
  }

  /** The value at `from`: quoted either way, up to the same quote or the end of the tag, and valid
      UTF-8. */
  function QuotedAt(tag: Bytes, from: nat): Option<Bytes>
    requires from <= |tag|
  {
    var j := SkipSpace(tag, from);
    if j == |tag| || (tag[j] != 34 && tag[j] != 39) then None
    else
      var v := tag[j + 1..SkipTo(tag, tag[j], j + 1)];
      if Utf8(v) then Some(v) else None
  }

  /** The first assignment at or after `i`. */
  function FirstAssign(tag: Bytes, i: nat): (r: Option<nat>)
    ensures r.Some? ==> i <= r.value && Assigns(tag, r.value) && forall p | i <= p < r.value :: !Assigns(tag, p)
    ensures r.None? ==> forall p | i <= p :: !Assigns(tag, p)
    decreases |tag| - i
  {
    if |tag| <= i then None else if Assigns(tag, i) then Some(i) else FirstAssign(tag, i + 1)
  }

  /** The `src` of a tag: the value of its first assignment. */
  function SrcOf(tag: Bytes): Option<Bytes> {
    var p := FirstAssign(tag, 0);
    if p.None? then None else QuotedAt(tag, SkipSpace(tag, p.value + |SRC|) + 1)
  }

  /** One wrong byte rules out a match. */
  lemma NotHere(hay: Bytes, at: nat, needle: Bytes, k: nat)
    requires k < |needle| && at + k < |hay| && Lower(hay[at + k]) != Lower(needle[k])
    ensures !Match(hay, at, needle)
  {
  }

  /** A match, byte by byte. */
  lemma Here(hay: Bytes, at: nat, needle: Bytes, k: nat)
    requires Match(hay, at, needle) && k < |needle|
    ensures at + |needle| <= |hay| && Lower(hay[at + k]) == Lower(needle[k])
  {
  }

  lemma NoSrcInsideSrc(tag: Bytes, p: nat, q: nat)
    requires Match(tag, p, SRC) && p < q < p + |SRC|
    ensures !Match(tag, q, SRC)
  {
    hide Match;
    Here(tag, p, SRC, q - p);
    NotHere(tag, q, SRC, 0);
  }

  method Spaces(tag: Bytes, i: nat) returns (j: nat)
    requires i <= |tag|
    ensures j == SkipSpace(tag, i)
  {
    j := i;
    while j < |tag| && IsSpace(tag[j])
      invariant i <= j <= |tag| && SkipSpace(tag, j) == SkipSpace(tag, i)
    {
      j := j + 1;
    }
  }

  /** The part of `attr` behind the equals sign. */
  method Quoted(tag: Bytes, from: nat) returns (r: Option<Bytes>)
    requires from <= |tag|
    ensures r == QuotedAt(tag, from)
  {
    var j := Spaces(tag, from);
    if j >= |tag| {
      return None;
    }
    var quote := tag[j];
    if quote != 34 && quote != 39 {
      return None;
    }
    j := j + 1;
    var start := j;
    while j < |tag| && tag[j] != quote
      invariant start <= j <= |tag| && SkipTo(tag, quote, j) == SkipTo(tag, quote, start)
    {
      j := j + 1;
    }
    return if Utf8(tag[start..j]) then Some(tag[start..j]) else None;
  }

  /** `attr(tag, "src")`. */
  method Attr(tag: Bytes) returns (r: Option<Bytes>)
    ensures r == SrcOf(tag)
  {
    hide Match, SkipSpace, QuotedAt;
    var i := 0;
    while true
      invariant forall p | 0 <= p < i :: !Assigns(tag, p)
      decreases |tag| - i
    {
      var f := Find(tag, i, SRC);
      if f.None? {
        return None;
      }
      var pos := f.value;
      Here(tag, pos, SRC, 0);
      assert forall p | i <= p < pos :: !Assigns(tag, p);
      var boundary := pos == 0 || IsSpace(tag[pos - 1]);
      var j := Spaces(tag, pos + |SRC|);
      if boundary && j < |tag| && tag[j] == 61 {
        assert Assigns(tag, pos);
        r := Quoted(tag, j + 1);
        return;
      }
      forall p | pos < p < pos + |SRC|
        ensures !Assigns(tag, p)
      {
        NoSrcInsideSrc(tag, pos, p);
      }
      i := pos + |SRC|;
    }
  }

  // ---- What a plan leaves out ----

  datatype Segment = Literal(from: nat, to: nat) | Include(src: Bytes)

  /** Bytes left out of a plan, and the include that takes their place, if one does. */
  datatype Cut = Cut(from: nat, to: nat, src: Option<Bytes>)

  /** A remove block, from its opening tag to the end of the first closing tag behind it. */
  predicate IsRemove(body: Bytes, c: Cut) {
    var gt := Find(body, c.from, GT);
    var close := if gt.Some? then Find(body, gt.value, CLOSE) else None;
    Match(body, c.from, REMOVE) && c.src.None? && close.Some? && c.to == close.value + |CLOSE|
  }

  /** An include tag whose `src` can be read, up to its first closing bracket. */
  predicate IsInclude(body: Bytes, c: Cut) {
    var gt := Find(body, c.from, GT);
    && Match(body, c.from, INCLUDE) && gt.Some? && c.to == gt.value + 1
    && c.src.Some? && gt.value <= |body| && c.src == SrcOf(body[c.from..gt.value])
  }

  predicate IsCut(body: Bytes, c: Cut) {
    IsRemove(body, c) || IsInclude(body, c)
  }

  /** Something to act on begins at `p`. */
  ghost predicate Actionable(body: Bytes, p: nat) {
    exists c :: IsCut(body, c) && c.from == p
  }

  function End(cuts: seq<Cut>): nat {
    if cuts == [] then 0 else cuts[|cuts| - 1].to
  }

  /** Cuts in order, apart, and each one rightly made. */
  predicate CutsOk(body: Bytes, cuts: seq<Cut>) {
    cuts == [] ||
    var c, init := cuts[|cuts| - 1], cuts[..|cuts| - 1];
    CutsOk(body, init) && IsCut(body, c) && End(init) <= c.from <= c.to <= |body|
  }

  /** `p` is in one of the cuts. */
  predicate InCut(cuts: seq<Cut>, p: nat) {
    exists i | 0 <= i < |cuts| :: cuts[i].from <= p < cuts[i].to
  }

  /** `p` is between the brackets of an earlier include or remove tag that stays in place. */
  ghost predicate InTag(body: Bytes, p: nat) {
    exists o: nat :: o < p && TagAround(body, o, p)
  }

  ghost predicate TagAround(body: Bytes, o: nat, p: nat) {
    var gt := Find(body, o, GT);
    (Match(body, o, REMOVE) || Match(body, o, INCLUDE)) && !Actionable(body, o) && gt.Some? && p < gt.value
  }

  /** No cut begins there. */
  ghost predicate NoneInTag(body: Bytes, cuts: seq<Cut>) {
    forall i | 0 <= i < |cuts| :: !InTag(body, cuts[i].from)
  }

  ghost predicate Accounted(body: Bytes, cuts: seq<Cut>, upTo: nat) {
    forall p | 0 <= p < upTo && Actionable(body, p) :: InCut(cuts, p) || InTag(body, p)
  }

  function Lit(from: nat, to: nat): seq<Segment> {
    if from < to then [Literal(from, to)] else []
  }

  /** The segments up to the end of the last cut. */
  function Pieces(cuts: seq<Cut>): seq<Segment> {
    if cuts == [] then []
    else
      var c, init := cuts[|cuts| - 1], cuts[..|cuts| - 1];
      Pieces(init) + Lit(End(init), c.from) + (if c.src.Some? then [Include(c.src.value)] else [])
  }

  /** A plan is right if it is what some cuts leave, all rightly made, and everything to act on is
      cut but what lies between the brackets of another tag. */
  ghost predicate PlanOf(body: Bytes, cuts: seq<Cut>, out: seq<Segment>) {
    && CutsOk(body, cuts) && NoneInTag(body, cuts) && Accounted(body, cuts, |body|)
    && out == Pieces(cuts) + Lit(End(cuts), |body|)
  }

  // ---- The scan ----

  lemma OpensActionable(body: Bytes, p: nat)
    requires Actionable(body, p)
    ensures Match(body, p, OPEN) && Find(body, p, GT).Some? && p < |body| && Lower(body[p]) == OPEN[0]
  {
    var c :| IsCut(body, c) && c.from == p;
    var tag := if IsRemove(body, c) then REMOVE else INCLUDE;
    assert forall k | 0 <= k < |OPEN| :: OPEN[k] == tag[k];
    Here(body, p, tag, 0);
  }

  lemma NoMoreTags(body: Bytes, cuts: seq<Cut>, i: nat, to: nat)
    requires Accounted(body, cuts, i) && forall p | i <= p < to :: !Match(body, p, OPEN)
    ensures Accounted(body, cuts, to)
  {
    forall p | 0 <= p < to && Actionable(body, p)
      ensures InCut(cuts, p) || InTag(body, p)
    {
      OpensActionable(body, p);
    }
  }

  /** Where no bracket closes any more, nothing can be acted on. */
  lemma NoMoreBrackets(body: Bytes, cuts: seq<Cut>, open: nat)
    requires Accounted(body, cuts, open) && Find(body, open, GT).None?
    ensures Accounted(body, cuts, |body|)
  {
    forall p | 0 <= p < |body| && Actionable(body, p)
      ensures InCut(cuts, p) || InTag(body, p)
    {
      OpensActionable(body, p);
    }
  }

  lemma CutMade(body: Bytes, cuts: seq<Cut>, c: Cut)
    requires CutsOk(body, cuts) && Accounted(body, cuts, c.from) && IsCut(body, c) && End(cuts) <= c.from <= c.to <= |body|
    requires NoneInTag(body, cuts) && !InTag(body, c.from)
    ensures CutsOk(body, cuts + [c]) && NoneInTag(body, cuts + [c]) && Accounted(body, cuts + [c], c.to) && End(cuts + [c]) == c.to
    ensures Pieces(cuts + [c]) == Pieces(cuts) + Lit(End(cuts), c.from) + (if c.src.Some? then [Include(c.src.value)] else [])
  {
    hide IsCut, InTag, Actionable;
    var more := cuts + [c];
    assert more[..|more| - 1] == cuts && more[|more| - 1] == c;
    forall p | 0 <= p < c.to && Actionable(body, p)
      ensures InCut(more, p) || InTag(body, p)
    {
      if p < c.from && InCut(cuts, p) {
        var i :| 0 <= i < |cuts| && cuts[i].from <= p < cuts[i].to;
        assert more[i] == cuts[i];
      }
    }
  }

  lemma TagPassed(body: Bytes, cuts: seq<Cut>, open: nat)
    requires Match(body, open, REMOVE) || Match(body, open, INCLUDE)
    requires Accounted(body, cuts, open) && !Actionable(body, open) && Find(body, open, GT).Some?
    ensures Accounted(body, cuts, Find(body, open, GT).value + 1)
  {
    var gt := Find(body, open, GT).value;
    forall p | 0 <= p < gt + 1 && Actionable(body, p)
      ensures InCut(cuts, p) || InTag(body, p)
    {
      if open < p {
        OpensActionable(body, p);
        Here(body, gt, GT, 0);
        assert TagAround(body, open, p);
      }
    }
  }

  lemma OtherPassed(body: Bytes, cuts: seq<Cut>, open: nat)
    requires Match(body, open, OPEN) && !Match(body, open, REMOVE) && !Match(body, open, INCLUDE)
    requires Accounted(body, cuts, open)
    ensures Accounted(body, cuts, open + |OPEN|)
  {
    forall p | 0 <= p < open + |OPEN| && Actionable(body, p)
      ensures InCut(cuts, p) || InTag(body, p)
    {
      OpensActionable(body, p);
      if open < p {
        Here(body, open, OPEN, p - open);
      }
    }
  }

  lemma NotBoth(body: Bytes, p: nat)
    ensures !(Match(body, p, REMOVE) && Match(body, p, INCLUDE))
  {
    if Match(body, p, REMOVE) {
      Here(body, p, REMOVE, 5);
      NotHere(body, p, INCLUDE, 5);
    }
  }

  /** Every tag left in place before `i` is closed before `i`. */
  ghost predicate TagsShut(body: Bytes, i: nat) {
    forall p | i <= p :: !InTagBefore(body, i, p)
  }

  ghost predicate InTagBefore(body: Bytes, i: nat, p: nat) {
    exists o: nat :: o < i && TagAround(body, o, p)
  }

  /** Where no tag opens between, the first one is in no other. */
  lemma NextTagFree(body: Bytes, i: nat, open: nat)
    requires TagsShut(body, i) && i <= open && forall p | i <= p < open :: !Match(body, p, OPEN)
    ensures !InTag(body, open) && TagsShut(body, open)
  {
    forall o: nat | i <= o < open
      ensures !Match(body, o, REMOVE) && !Match(body, o, INCLUDE)
    {
      TagOpens(body, o);
    }
    forall p | open <= p
      ensures !InTagBefore(body, open, p)
    {
      assert !InTagBefore(body, i, p);
    }
    assert !InTagBefore(body, open, open);
  }

  lemma TagOpens(body: Bytes, o: nat)
    ensures Match(body, o, REMOVE) || Match(body, o, INCLUDE) ==> Match(body, o, OPEN)
  {
    assert forall k | 0 <= k < |OPEN| :: OPEN[k] == REMOVE[k] == INCLUDE[k];
  }

  /** A bracket at `e - 1` shuts every tag before it. */
  lemma BracketShuts(body: Bytes, open: nat, e: nat)
    requires TagsShut(body, open) && open < e && Match(body, e - 1, GT)
    ensures TagsShut(body, e)
  {
    forall p | e <= p
      ensures !InTagBefore(body, e, p)
    {
      assert !InTagBefore(body, open, p);
    }
  }

  lemma OtherShuts(body: Bytes, open: nat)
    requires TagsShut(body, open) && Match(body, open, OPEN) && !Match(body, open, REMOVE) && !Match(body, open, INCLUDE)
    ensures TagsShut(body, open + |OPEN|)
  {
    forall o: nat | open < o < open + |OPEN|
      ensures !Match(body, o, REMOVE) && !Match(body, o, INCLUDE)
    {
      Here(body, open, OPEN, o - open);
      NotHere(body, o, OPEN, 0);
      TagOpens(body, o);
    }
    var e := open + |OPEN|;
    forall p | e <= p
      ensures !InTagBefore(body, e, p)
    {
      assert !InTagBefore(body, open, p);
    }
  }

  lemma ClosingBracket(body: Bytes, at: nat)
    requires Match(body, at, CLOSE)
    ensures Match(body, at + |CLOSE| - 1, GT)
  {
    Here(body, at, CLOSE, |CLOSE| - 1);
  }

  /** The scan has come to `i` and all is right up to there. */
  ghost predicate Scanned(body: Bytes, cuts: seq<Cut>, i: nat, out: seq<Segment>) {
    && End(cuts) <= i <= |body| && CutsOk(body, cuts) && NoneInTag(body, cuts)
    && Accounted(body, cuts, i) && TagsShut(body, i) && out == Pieces(cuts)
  }

  lemma TagReached(body: Bytes, cuts: seq<Cut>, i: nat, out: seq<Segment>)
    requires Scanned(body, cuts, i, out) && Find(body, i, OPEN).Some?
    ensures var open := Find(body, i, OPEN).value;
      open + |OPEN| <= |body| && Match(body, open, OPEN) && Scanned(body, cuts, open, out) && !InTag(body, open)
  {
    hide CutsOk, Accounted, Pieces, NoneInTag, InTag, TagsShut, Match;
    var open := Find(body, i, OPEN).value;
    Here(body, open, OPEN, 0);
    NoMoreTags(body, cuts, i, open);
    NextTagFree(body, i, open);
  }

  lemma CutStep(body: Bytes, cuts: seq<Cut>, out: seq<Segment>, c: Cut)
    requires Scanned(body, cuts, c.from, out) && !InTag(body, c.from) && IsCut(body, c)
    requires c.from < c.to <= |body| && Match(body, c.to - 1, GT)
    ensures Scanned(body, cuts + [c], c.to, out + Lit(End(cuts), c.from) + (if c.src.Some? then [Include(c.src.value)] else []))
  {
    hide CutsOk, Accounted, Pieces, NoneInTag, InTag, TagsShut, Match, IsCut, Lit;
    CutMade(body, cuts, c);
    BracketShuts(body, c.from, c.to);
  }

  lemma RemoveStep(body: Bytes, cuts: seq<Cut>, open: nat, out: seq<Segment>, gt: nat, close: nat)
    requires Scanned(body, cuts, open, out) && !InTag(body, open) && Match(body, open, REMOVE)
    requires Find(body, open, GT) == Some(gt) && Find(body, gt, CLOSE) == Some(close)
    ensures var c := Cut(open, close + |CLOSE|, None);
      Scanned(body, cuts + [c], c.to, out + Lit(End(cuts), open))
  {
    hide Scanned, Match, InTag, Lit;
    var c := Cut(open, close + |CLOSE|, None);
    Here(body, close, CLOSE, 0);
    ClosingBracket(body, close);
    CutStep(body, cuts, out, c);
    assert out + Lit(End(cuts), open) + [] == out + Lit(End(cuts), open);
  }

  lemma IncludeStep(body: Bytes, cuts: seq<Cut>, open: nat, out: seq<Segment>, gt: nat, src: Bytes)
    requires Scanned(body, cuts, open, out) && !InTag(body, open) && Match(body, open, INCLUDE)
    requires Find(body, open, GT) == Some(gt) && gt <= |body| && SrcOf(body[open..gt]) == Some(src)
    ensures var c := Cut(open, gt + 1, Some(src));
      Scanned(body, cuts + [c], c.to, out + Lit(End(cuts), open) + [Include(src)])
  {
    hide Scanned, Match, InTag, Lit, SrcOf;
    Here(body, gt, GT, 0);
    CutStep(body, cuts, out, Cut(open, gt + 1, Some(src)));
  }

  lemma PassStep(body: Bytes, cuts: seq<Cut>, open: nat, out: seq<Segment>, gt: nat)
    requires Scanned(body, cuts, open, out) && (Match(body, open, REMOVE) || Match(body, open, INCLUDE))
    requires Find(body, open, GT) == Some(gt) && !Actionable(body, open)
    ensures open < gt + 1 <= |body| && Scanned(body, cuts, gt + 1, out)
  {
    hide CutsOk, Accounted, Pieces, NoneInTag, TagsShut, Match, Actionable;
    Here(body, gt, GT, 0);
    TagPassed(body, cuts, open);
    BracketShuts(body, open, gt + 1);
  }

  lemma OtherStep(body: Bytes, cuts: seq<Cut>, open: nat, out: seq<Segment>)
    requires Scanned(body, cuts, open, out) && open + |OPEN| <= |body|
    requires Match(body, open, OPEN) && !Match(body, open, REMOVE) && !Match(body, open, INCLUDE)
    ensures Scanned(body, cuts, open + |OPEN|, out)
  {
    hide CutsOk, Accounted, Pieces, NoneInTag, TagsShut, Match;
    OtherPassed(body, cuts, open);
    OtherShuts(body, open);
  }

  /** The scan is over: no tag follows, or no bracket. */
  lemma ScanOver(body: Bytes, cuts: seq<Cut>, i: nat, out: seq<Segment>)
    requires Scanned(body, cuts, i, out) && (Find(body, i, OPEN).None? || Find(body, i, GT).None?)
    ensures PlanOf(body, cuts, out + Lit(End(cuts), |body|))
  {
    hide CutsOk, Accounted, Pieces, NoneInTag, TagsShut, Match;
    if Find(body, i, OPEN).None? {
      NoMoreTags(body, cuts, i, |body|);
    } else {
      NoMoreBrackets(body, cuts, i);
    }
  }

  /** `plan`: one pass over the page. */
  method Plan(body: Bytes) returns (out: seq<Segment>)
    ensures exists cuts :: PlanOf(body, cuts, out)
  {
    hide Match, Find, Scanned, PlanOf, SrcOf, Actionable, InTag, Lit;
    out := [];
    var litStart, i := 0, 0;
    ghost var cuts: seq<Cut> := [];
    NothingYet(body);
    while true
      invariant litStart == End(cuts) && i <= |body| && Scanned(body, cuts, i, out)
      decreases |body| - i
    {
      var f := Find(body, i, OPEN);
      if f.None? {
        ScanOver(body, cuts, i, out);
        break;
      }
      var open := f.value;
      TagReached(body, cuts, i, out);
      var gt := Find(body, open, GT);
      if Match(body, open, REMOVE) {
        if gt.None? {
          ScanOver(body, cuts, open, out);
          break;
        }
        var close := Find(body, gt.value, CLOSE);
        if close.None? {
          Unclosed(body, open);
          PassStep(body, cuts, open, out, gt.value);
          i := gt.value + 1;
          continue;
        }
        Here(body, close.value, CLOSE, 0);
        RemoveStep(body, cuts, open, out, gt.value, close.value);
        cuts := cuts + [Cut(open, close.value + |CLOSE|, None)];
        out := out + Lit(litStart, open);
        litStart := close.value + |CLOSE|;
        i := litStart;
        continue;
      }
      if Match(body, open, INCLUDE) {
        if gt.None? {
          ScanOver(body, cuts, open, out);
          break;
        }
        Here(body, gt.value, GT, 0);
        var src := Attr(body[open..gt.value]);
        if src.Some? {
          IncludeStep(body, cuts, open, out, gt.value, src.value);
          cuts := cuts + [Cut(open, gt.value + 1, src)];
          out := out + Lit(litStart, open);
          out := out + [Include(src.value)];
          litStart := gt.value + 1;
        } else {
          Unreadable(body, open);
          PassStep(body, cuts, open, out, gt.value);
        }
        i := gt.value + 1;
        continue;
      }
      OtherStep(body, cuts, open, out);
      i := open + |OPEN|;
    }
    out := out + Lit(litStart, |body|);
  }

  lemma NothingYet(body: Bytes)
    ensures Scanned(body, [], 0, [])
  {
  }

  lemma Unclosed(body: Bytes, open: nat)
    requires Match(body, open, REMOVE)
    requires var gt := Find(body, open, GT); gt.None? || Find(body, gt.value, CLOSE).None?
    ensures !Actionable(body, open)
  {
    NotBoth(body, open);
  }

  lemma Unreadable(body: Bytes, open: nat)
    requires Match(body, open, INCLUDE)
    requires var gt := Find(body, open, GT); gt.None? || gt.value > |body| || SrcOf(body[open..gt.value]).None?
    ensures !Actionable(body, open)
  {
    NotBoth(body, open);
  }

  // ---- What that means ----

  lemma {:induction false} CutsApart(body: Bytes, cuts: seq<Cut>, i: nat, j: nat)
    requires CutsOk(body, cuts) && i <= j < |cuts|
    ensures IsCut(body, cuts[i]) && cuts[i].from <= cuts[i].to <= |body| && (i < j ==> cuts[i].to <= cuts[j].from)
  {
    hide IsCut;
    if j < |cuts| - 1 {
      CutsApart(body, cuts[..|cuts| - 1], i, j);
    } else if i < |cuts| - 1 {
      CutsApart(body, cuts[..|cuts| - 1], i, |cuts| - 2);
    }
  }

  lemma OneCutAt(body: Bytes, c: Cut, d: Cut)
    requires IsCut(body, c) && IsCut(body, d) && c.from == d.from
    ensures c == d
  {
    NotBoth(body, c.from);
  }

  /** Of two right plans that agree so far, neither can begin its next cut before the other. */
  lemma NoEarlierCut(body: Bytes, a: seq<Cut>, b: seq<Cut>, k: nat)
    requires CutsOk(body, a) && CutsOk(body, b) && NoneInTag(body, a) && Accounted(body, b, |body|)
    requires k < |a| && k <= |b| && a[..k] == b[..k]
    ensures k < |b| && b[k].from <= a[k].from
  {
    hide CutsOk, IsCut, InTag, InCut;
    var p := a[k].from;
    CutsApart(body, a, k, k);
    assert Actionable(body, p);
    OpensActionable(body, p);
    assert InCut(b, p);
    var j := CutWith(b, p);
    CutsApart(body, b, j, j);
    if j < k {
      assert a[j] == a[..k][j] == b[j];
      CutsApart(body, a, j, k);
    } else {
      CutsApart(body, b, k, j);
    }
  }

  lemma CutWith(cuts: seq<Cut>, p: nat) returns (i: nat)
    requires InCut(cuts, p)
    ensures i < |cuts| && cuts[i].from <= p < cuts[i].to
  {
    i :| 0 <= i < |cuts| && cuts[i].from <= p < cuts[i].to;
  }

  lemma {:induction false} SameCutsUpTo(body: Bytes, a: seq<Cut>, b: seq<Cut>, k: nat)
    requires CutsOk(body, a) && NoneInTag(body, a) && Accounted(body, a, |body|)
    requires CutsOk(body, b) && NoneInTag(body, b) && Accounted(body, b, |body|)
    requires k <= |a| && k <= |b| && a[..k] == b[..k]
    ensures a == b
    decreases |a| - k
  {
    hide CutsOk, IsCut, NoneInTag, Accounted;
    if k < |a| || k < |b| {
      if k < |a| {
        NoEarlierCut(body, a, b, k);
      }
      if k < |b| {
        NoEarlierCut(body, b, a, k);
      }
      CutsApart(body, a, k, k);
      CutsApart(body, b, k, k);
      OneCutAt(body, a[k], b[k]);
      assert a[..k + 1] == a[..k] + [a[k]] && b[..k + 1] == b[..k] + [b[k]];
      SameCutsUpTo(body, a, b, k + 1);
    }
  }

  /** There is one right plan for a page. */
  lemma OnePlan(body: Bytes, a: seq<Cut>, out: seq<Segment>, b: seq<Cut>, out': seq<Segment>)
    requires PlanOf(body, a, out) && PlanOf(body, b, out')
    ensures a == b && out == out'
  {
    hide CutsOk, NoneInTag, Accounted;
    SameCutsUpTo(body, a, b, 0);
  }

  /** `p` is in one of the literals. */
  predicate InLiteral(out: seq<Segment>, p: nat) {
    exists i | 0 <= i < |out| :: out[i].Literal? && out[i].from <= p < out[i].to
  }

  lemma InEither(out: seq<Segment>, more: seq<Segment>, p: nat)
    ensures InLiteral(out + more, p) <==> InLiteral(out, p) || InLiteral(more, p)
  {
    if i :| 0 <= i < |out| && out[i].Literal? && out[i].from <= p < out[i].to {
      assert (out + more)[i] == out[i];
    }
    if i :| 0 <= i < |more| && more[i].Literal? && more[i].from <= p < more[i].to {
      assert (out + more)[|out| + i] == more[i];
    }
  }

  lemma InLit(from: nat, to: nat, p: nat)
    ensures InLiteral(Lit(from, to), p) <==> from <= p < to
  {
    assert from < to ==> Lit(from, to)[0] == Literal(from, to);
  }

  lemma InLastCut(cuts: seq<Cut>, c: Cut, p: nat)
    ensures InCut(cuts + [c], p) <==> InCut(cuts, p) || c.from <= p < c.to
  {
    if i :| 0 <= i < |cuts| && cuts[i].from <= p < cuts[i].to {
      assert (cuts + [c])[i] == cuts[i];
    }
    assert (cuts + [c])[|cuts|] == c;
  }

  lemma {:induction false} PiecesTile(body: Bytes, cuts: seq<Cut>, p: nat)
    requires CutsOk(body, cuts)
    ensures End(cuts) <= |body| && (InLiteral(Pieces(cuts), p) <==> p < End(cuts) && !InCut(cuts, p))
    ensures InCut(cuts, p) ==> p < End(cuts)
  {
    hide IsCut, InLiteral, InCut, Lit;
    if cuts == [] {
      NothingTiled(p);
    } else {
      var c, init := cuts[|cuts| - 1], cuts[..|cuts| - 1];
      var src := if c.src.Some? then [Include(c.src.value)] else [];
      PiecesTile(body, init, p);
      assert init + [c] == cuts;
      InLastCut(init, c, p);
      InLit(End(init), c.from, p);
      NotInInclude(src, p);
      InEither(Pieces(init), Lit(End(init), c.from), p);
      InEither(Pieces(init) + Lit(End(init), c.from), src, p);
    }
  }

  lemma NothingTiled(p: nat)
    ensures !InLiteral([], p) && !InCut([], p)
  {
  }

  lemma NotInInclude(out: seq<Segment>, p: nat)
    requires forall i | 0 <= i < |out| :: out[i].Include?
    ensures !InLiteral(out, p)
  {
  }

  /** Every byte of the page is in a literal of the plan or in a cut, and none is in both. */
  lemma LiteralsAndCutsTile(body: Bytes, cuts: seq<Cut>, out: seq<Segment>, p: nat)
    requires PlanOf(body, cuts, out) && p < |body|
    ensures InLiteral(out, p) <==> !InCut(cuts, p)
  {
    hide CutsOk, Accounted, NoneInTag, InLiteral, InCut, Lit, Pieces;
    PiecesTile(body, cuts, p);
    InLit(End(cuts), |body|, p);
    InEither(Pieces(cuts), Lit(End(cuts), |body|), p);
  }

  /** Literals lie in order below a limit, none empty. */
  predicate LiteralsInOrder(out: seq<Segment>, limit: nat) {
    && (forall i | 0 <= i < |out| && out[i].Literal? :: out[i].from < out[i].to <= limit)
    && forall i, j | 0 <= i < j < |out| && out[i].Literal? && out[j].Literal? :: out[i].to <= out[j].from
  }

  lemma LiteralAppended(out: seq<Segment>, from: nat, to: nat)
    requires LiteralsInOrder(out, from) && from <= to
    ensures LiteralsInOrder(out + Lit(from, to), to)
  {
  }

  lemma IncludeAppended(out: seq<Segment>, src: Bytes, limit: nat, more: nat)
    requires LiteralsInOrder(out, limit) && limit <= more
    ensures LiteralsInOrder(out, more) && LiteralsInOrder(out + [Include(src)], more)
  {
  }

  lemma {:induction false} PiecesInOrder(body: Bytes, cuts: seq<Cut>)
    requires CutsOk(body, cuts)
    ensures End(cuts) <= |body| && LiteralsInOrder(Pieces(cuts), End(cuts))
  {
    if cuts != [] {
      hide IsCut, Lit, LiteralsInOrder;
      var c, init := cuts[|cuts| - 1], cuts[..|cuts| - 1];
      PiecesInOrder(body, init);
      LiteralAppended(Pieces(init), End(init), c.from);
      var out := Pieces(init) + Lit(End(init), c.from);
      IncludeAppended(out, if c.src.Some? then c.src.value else [], c.from, c.to);
      assert out + [] == out;
    }
  }

  /** The literals of a plan are in order and disjoint. */
  lemma PlanInOrder(body: Bytes, cuts: seq<Cut>, out: seq<Segment>)
    requires PlanOf(body, cuts, out)
    ensures LiteralsInOrder(out, |body|)
  {
    hide CutsOk, Pieces, Lit, LiteralsInOrder, Accounted;
    PiecesInOrder(body, cuts);
    LiteralAppended(Pieces(cuts), End(cuts), |body|);
  }

  predicate HasTags(body: Bytes) {
    Find(body, 0, OPEN).Some?
  }

  /** A page without a tag is one literal, or nothing at all. */
  lemma PlainPage(body: Bytes, cuts: seq<Cut>, out: seq<Segment>)
    requires PlanOf(body, cuts, out) && !HasTags(body)
    ensures out == if body == [] then [] else [Literal(0, |body|)]
  {
    if cuts != [] {
      var c := cuts[|cuts| - 1];
      assert Actionable(body, c.from);
      OpensActionable(body, c.from);
    }
  }
}
