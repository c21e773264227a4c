/** Pages written out of texts, includes and remove blocks: the plan gives the pieces back. */
module EsiPages {
  import opened Common
  import opened Text
  import opened Esi
  import opened EsiTags

  /** An include of a source, or a block to be removed. */
  datatype Tag = Inc(src: Bytes) | Rem(inner: Bytes)

  /** Some text and the tag behind it. */
  datatype Part = Part(text: Bytes, tag: Tag)

  const INC_HEAD: Bytes := Ascii("<esi:include src=\"")
  const INC_TAIL: Bytes := Ascii("\"/>")
  const REM_HEAD: Bytes := Ascii("<esi:remove>")

  function TagText(t: Tag): Bytes {
    match t
    case Inc(src) => INC_HEAD + src + INC_TAIL
    case Rem(inner) => REM_HEAD + inner + CLOSE
  }

  function Page(parts: seq<Part>, tail: Bytes): Bytes {
    if parts == [] then tail else parts[0].text + TagText(parts[0].tag) + Page(parts[1..], tail)
  }

  /** Text that opens no tag. */
  predicate Plain(t: Bytes) {
    Find(t, 0, OPEN).None?
  }

  /** A source that a quoted attribute can hold, or a block that does not close early. */
  predicate TagOk(t: Tag) {
    match t
    case Inc(src) => 34 !in src && 62 !in src && Utf8(src)
    case Rem(inner) => Find(inner, 0, CLOSE).None?
  }

  predicate PartsOk(parts: seq<Part>, tail: Bytes) {
    Plain(tail) && forall i | 0 <= i < |parts| :: Plain(parts[i].text) && TagOk(parts[i].tag)
  }

  /** The texts as literals, where they lie from `at` on, and the sources. */
  function Segments(parts: seq<Part>, tail: Bytes, at: nat): seq<Segment> {
    if parts == [] then Lit(at, at + |tail|)
    else
      var open := at + |parts[0].text|;
      Lit(at, open) + (if parts[0].tag.Inc? then [Include(parts[0].tag.src)] else [])
      + Segments(parts[1..], tail, open + |TagText(parts[0].tag)|)
  }

  // ---- Searches in pages ----

  /** `t` lies in the page at `at`. */
  predicate LiesAt(body: Bytes, at: nat, t: Bytes) {
    at + |t| <= |body| && body[at..at + |t|] == t
  }

  lemma ByteAt(body: Bytes, at: nat, t: Bytes, k: nat)
    requires LiesAt(body, at, t) && k < |t|
    ensures at + k < |body| && body[at + k] == t[k]
  {
    assert body[at..at + |t|][k] == body[at + k];
  }

  lemma LiesInside(body: Bytes, at: nat, t: Bytes, u: Bytes, v: Bytes)
    requires LiesAt(body, at, t) && t == u + v
    ensures LiesAt(body, at, u) && LiesAt(body, at + |u|, v)
  {
    assert body[at..at + |u|] == t[..|u|] == u;
    assert body[at + |u|..at + |t|] == t[|u|..] == v;
  }

  lemma MatchesAt(body: Bytes, at: nat, t: Bytes)
    requires LiesAt(body, at, t)
    ensures Match(body, at, t)
  {
    forall k | 0 <= k < |t|
      ensures Lower(body[at + k]) == Lower(t[k])
    {
      ByteAt(body, at, t, k);
    }
  }

  /** A needle that begins with a bracket and has no other. */
  predicate Bracketed(needle: Bytes) {
    needle != [] && needle[0] == 60 && forall k | 0 < k < |needle| :: Lower(needle[k]) != 60
  }

  /** Nothing is found in a text that has no needle and is followed by a bracket. */
  lemma NoneInText(body: Bytes, at: nat, t: Bytes, needle: Bytes, p: nat)
    requires Bracketed(needle) && Find(t, 0, needle).None? && LiesAt(body, at, t)
    requires at + |t| < |body| && body[at + |t|] == 60 && at <= p < at + |t|
    ensures !Match(body, p, needle)
  {
    if p + |needle| <= at + |t| {
      NoneWithin(body, at, t, needle, p);
    } else {
      NotHere(body, p, needle, at + |t| - p);
    }
  }

  lemma NoneWithin(body: Bytes, at: nat, t: Bytes, needle: Bytes, p: nat)
    requires needle != [] && Find(t, 0, needle).None? && LiesAt(body, at, t) && at <= p && p + |needle| <= at + |t|
    ensures !Match(body, p, needle)
  {
    assert !Match(t, p - at, needle);
    var k :| 0 <= k < |needle| && Lower(t[p - at + k]) != Lower(needle[k]);
    ByteAt(body, at, t, p - at + k);
    NotHere(body, p, needle, k);
  }

  lemma FoundAt(body: Bytes, from: nat, at: nat, needle: Bytes)
    requires needle != [] && from <= at && Match(body, at, needle) && forall p | from <= p < at :: !Match(body, p, needle)
    ensures Find(body, from, needle) == Some(at)
  {
  }

  lemma NotBracket(body: Bytes, p: nat)
    requires p < |body| && body[p] != 62
    ensures !Match(body, p, GT)
  {
    assert GT[0] == 62;
    LowerBracket(body[p]);
    NotHere(body, p, GT, 0);
  }

  lemma LowerBracket(b: byte)
    ensures Lower(b) == 62 <==> b == 62
    ensures Lower(b) == 60 <==> b == 60
  {
  }

  lemma Needles()
    ensures Bracketed(OPEN) && Bracketed(CLOSE)
    ensures |INC_HEAD| == 18 && INC_HEAD[0] == 60 && |REM_HEAD| == 12 && REM_HEAD[0] == 60 && |CLOSE| == 13
    ensures |INC_TAIL| == 3 && INC_TAIL[0] == 34 && INC_TAIL[1] == 47 && INC_TAIL[2] == 62 && REM_HEAD[11] == 62
    ensures 62 !in INC_HEAD && 62 !in REM_HEAD[..11] && GT == [62]
    ensures INC_HEAD[..5] == OPEN && REM_HEAD[..5] == OPEN && INC_HEAD[..12] == INCLUDE && REM_HEAD[..11] == REMOVE
  {
  }

  // ---- One tag ----

  lemma TagOpensHere(body: Bytes, at: nat, tag: Tag)
    requires LiesAt(body, at, TagText(tag))
    ensures at < |body| && body[at] == 60 && Match(body, at, OPEN)
    ensures Match(body, at, if tag.Inc? then INCLUDE else REMOVE)
  {
    Needles();
    var head := if tag.Inc? then INC_HEAD else REM_HEAD;
    var t := TagText(tag);
    ByteAt(body, at, t, 0);
    assert t == OPEN + t[5..];
    LiesInside(body, at, t, OPEN, t[5..]);
    MatchesAt(body, at, OPEN);
    var name := if tag.Inc? then INCLUDE else REMOVE;
    assert t == name + t[|name|..];
    LiesInside(body, at, t, name, t[|name|..]);
    MatchesAt(body, at, name);
  }

  /** The next tag is where the text ends. */
  lemma OpensAfterText(body: Bytes, at: nat, text: Bytes, tag: Tag)
    requires Plain(text) && LiesAt(body, at, text) && LiesAt(body, at + |text|, TagText(tag))
    ensures Find(body, at, OPEN) == Some(at + |text|)
  {
    hide Match, Find, LiesAt;
    Needles();
    TagOpensHere(body, at + |text|, tag);
    forall p | at <= p < at + |text|
      ensures !Match(body, p, OPEN)
    {
      NoneInText(body, at, text, OPEN, p);
    }
    FoundAt(body, at, at + |text|, OPEN);
  }

  // Includes

  lemma IncludeEnds(body: Bytes, at: nat, src: Bytes)
    requires LiesAt(body, at, TagText(Inc(src))) && 62 !in src
    ensures Find(body, at, GT) == Some(at + 20 + |src|) && at + 20 + |src| < |body|
  {
    hide Match, Find, LiesAt;
    Needles();
    var t := TagText(Inc(src));
    var gt := at + 20 + |src|;
    forall p | at <= p < gt
      ensures !Match(body, p, GT)
    {
      IncludeByte(src, p - at);
      ByteAt(body, at, t, p - at);
      NotBracket(body, p);
    }
    ByteAt(body, at, t, 20 + |src|);
    BracketMatches(body, gt);
    FoundAt(body, at, gt, GT);
  }

  lemma BracketMatches(body: Bytes, p: nat)
    requires p < |body| && body[p] == 62
    ensures Match(body, p, GT)
  {
    Needles();
  }

  lemma IncludeByte(src: Bytes, k: nat)
    requires 62 !in src && k < 20 + |src|
    ensures |TagText(Inc(src))| == 21 + |src| && TagText(Inc(src))[k] != 62
  {
    Needles();
    var t := TagText(Inc(src));
    if k < 18 {
      assert t[k] == INC_HEAD[k];
    } else if k < 18 + |src| {
      assert t[k] == src[k - 18];
    } else {
      assert t[k] == INC_TAIL[k - 18 - |src|];
    }
  }

  /** The tag without its closing bracket. */
  function IncBody(src: Bytes): Bytes {
    INC_HEAD + src + [34, 47]
  }

  lemma HeadHasOneSrc(src: Bytes, p: nat)
    requires p < 13
    ensures !Assigns(IncBody(src), p)
  {
    hide Match;
    var tag := IncBody(src);
    assert |INC_HEAD| == 18 && forall k | 0 <= k < 18 :: tag[k] == INC_HEAD[k];
    var k := if p == 2 then 1 else 0;
    HeadBytes(p, k);
    NotHere(tag, p, SRC, k);
  }

  lemma HeadBytes(p: nat, k: nat)
    requires p < 13 && k == if p == 2 then 1 else 0
    ensures |INC_HEAD| == 18 && |SRC| == 3 && Lower(INC_HEAD[p + k]) != Lower(SRC[k])
  {
    var h := "<esi:include src=\"";
    assert forall i | 0 <= i < 18 :: INC_HEAD[i] as int == h[i] as int;
    assert SRC[0] as int == 115 && SRC[1] as int == 114;
    match p
    case 0 => assert h[0] == '<';
    case 1 => assert h[1] == 'e';
    case 2 => assert h[3] == 'i';
    case 3 => assert h[3] == 'i';
    case 4 => assert h[4] == ':';
    case 5 => assert h[5] == 'i';
    case 6 => assert h[6] == 'n';
    case 7 => assert h[7] == 'c';
    case 8 => assert h[8] == 'l';
    case 9 => assert h[9] == 'u';
    case 10 => assert h[10] == 'd';
    case 11 => assert h[11] == 'e';
    case 12 => assert h[12] == ' ';
  }

  lemma SourceIsRead(src: Bytes)
    requires TagOk(Inc(src))
    ensures SrcOf(IncBody(src)) == Some(src)
  {
    hide Utf8, SrcOf, Assigns;
    var tag := IncBody(src);
    var rest: Bytes := [34] + src + [34, 47];
    var a := Assignment(Ascii("<esi:include "), Ascii("src"), [], rest);
    var q := Quotation([], 34, src, [34, 47]);
    HeadParts();
    assert tag == a.before + a.name + [] + [61] + rest;
    assert IsAssignment(tag, a);
    assert rest == [] + [34] + src + [34, 47];
    assert IsQuotation(rest, q);
    forall p: nat | p < |a.before|
      ensures !AssignmentAt(tag, p)
    {
      HeadHasOneSrc(src, p);
      AssignsIff(tag, p);
    }
    WrittenIsRead(tag, Written(a, q));
  }

  lemma HeadParts()
    ensures INC_HEAD == Ascii("<esi:include ") + Ascii("src") + [61] + [34] && Blank(Ascii("<esi:include ")[12]) && IsSrc(Ascii("src"))
  {
    assert "<esi:include src=\"" == "<esi:include " + "src" + "=" + "\"";
  }

  lemma IncludeText(src: Bytes)
    ensures TagText(Inc(src)) == IncBody(src) + [62] && |IncBody(src)| == 20 + |src|
  {
    Needles();
    assert INC_TAIL == [34, 47] + [62];
    assert INC_HEAD + src + ([34, 47] + [62]) == INC_HEAD + src + [34, 47] + [62];
  }

  lemma SourceHasNoBracket(src: Bytes)
    requires TagOk(Inc(src))
    ensures 62 !in src
  {
  }

  lemma SliceIs(body: Bytes, at: nat, t: Bytes)
    requires LiesAt(body, at, t)
    ensures at + |t| <= |body| && body[at..at + |t|] == t
  {
  }

  lemma IncludeStands(body: Bytes, at: nat, src: Bytes)
    requires LiesAt(body, at, TagText(Inc(src))) && TagOk(Inc(src))
    ensures at + 20 + |src| < |body| && Find(body, at, GT) == Some(at + 20 + |src|)
    ensures SrcOf(body[at..at + 20 + |src|]) == Some(src)
  {
    hide *;
    SourceHasNoBracket(src);
    IncludeEnds(body, at, src);
    IncludeText(src);
    LiesInside(body, at, TagText(Inc(src)), IncBody(src), [62]);
    SliceIs(body, at, IncBody(src));
    SourceIsRead(src);
  }

  // Removes

  lemma RemoveStands(body: Bytes, at: nat, inner: Bytes)
    requires LiesAt(body, at, TagText(Rem(inner))) && TagOk(Rem(inner))
    ensures Find(body, at, GT) == Some(at + 11) && Find(body, at + 11, CLOSE) == Some(at + 12 + |inner|)
  {
    hide Match, Find, LiesAt;
    Needles();
    var t := TagText(Rem(inner));
    LiesInside(body, at, t, REM_HEAD + inner, CLOSE);
    LiesInside(body, at, REM_HEAD + inner, REM_HEAD, inner);
    forall p | at <= p < at + 11
      ensures !Match(body, p, GT)
    {
      ByteAt(body, at, REM_HEAD, p - at);
      assert REM_HEAD[p - at] == REM_HEAD[..11][p - at];
      NotBracket(body, p);
    }
    ByteAt(body, at, REM_HEAD, 11);
    BracketMatches(body, at + 11);
    FoundAt(body, at, at + 11, GT);
    RemoveCloses(body, at, inner);
  }

  lemma RemoveCloses(body: Bytes, at: nat, inner: Bytes)
    requires LiesAt(body, at, REM_HEAD) && LiesAt(body, at + 12, inner) && LiesAt(body, at + 12 + |inner|, CLOSE)
    requires Find(inner, 0, CLOSE).None?
    ensures Find(body, at + 11, CLOSE) == Some(at + 12 + |inner|)
  {
    hide Match, Find, LiesAt;
    Needles();
    var close := at + 12 + |inner|;
    MatchesAt(body, close, CLOSE);
    ByteAt(body, close, CLOSE, 0);
    ByteAt(body, at, REM_HEAD, 11);
    LowerBracket(body[at + 11]);
    NotHere(body, at + 11, CLOSE, 0);
    forall p | at + 11 < p < close
      ensures !Match(body, p, CLOSE)
    {
      NoneInText(body, at + 12, inner, CLOSE, p);
    }
    FoundAt(body, at + 11, close, CLOSE);
  }

  // ---- The page ----

  lemma PartPlanned(body: Bytes, cuts: seq<Cut>, at: nat, out: seq<Segment>, part: Part) returns (more: seq<Cut>)
    requires Scanned(body, cuts, at, out) && End(cuts) == at && Plain(part.text) && TagOk(part.tag)
    requires LiesAt(body, at, part.text) && LiesAt(body, at + |part.text|, TagText(part.tag))
    ensures var open := at + |part.text|; var to := open + |TagText(part.tag)|;
      && End(more) == to
      && Scanned(body, more, to, out + Lit(at, open) + (if part.tag.Inc? then [Include(part.tag.src)] else []))
  {
    var open := at + |part.text|;
    Needles();
    hide Match, Find, LiesAt, Scanned, Lit, InTag, SrcOf, Utf8, Plain;
    OpensAfterText(body, at, part.text, part.tag);
    TagReached(body, cuts, at, out);
    TagOpensHere(body, open, part.tag);
    match part.tag
    case Inc(src) =>
      IncludeStands(body, open, src);
      IncludeStep(body, cuts, open, out, open + 20 + |src|, src);
      more := cuts + [Cut(open, open + 21 + |src|, Some(src))];
    case Rem(inner) =>
      RemoveStands(body, open, inner);
      RemoveStep(body, cuts, open, out, open + 11, open + 12 + |inner|);
      more := cuts + [Cut(open, open + 25 + |inner|, None)];
      assert out + Lit(at, open) + [] == out + Lit(at, open);
  }

  lemma PartLies(body: Bytes, at: nat, parts: seq<Part>, tail: Bytes)
    requires at <= |body| && body[at..] == Page(parts, tail) && parts != []
    ensures var open := at + |parts[0].text|; var to := open + |TagText(parts[0].tag)|;
      && LiesAt(body, at, parts[0].text) && LiesAt(body, open, TagText(parts[0].tag))
      && to <= |body| && body[to..] == Page(parts[1..], tail)
  {
    hide TagText;
    var text, tag, rest := parts[0].text, TagText(parts[0].tag), Page(parts[1..], tail);
    var page := Page(parts, tail);
    assert page == text + tag + rest && LiesAt(body, at, page);
    LiesInside(body, at, page, text + tag, rest);
    LiesInside(body, at, text + tag, text, tag);
    assert body[at + |text| + |tag|..] == page[|text + tag|..];
  }

  lemma {:induction false} PlannedFrom(body: Bytes, cuts: seq<Cut>, at: nat, out: seq<Segment>, parts: seq<Part>, tail: Bytes) returns (all: seq<Cut>)
    requires Scanned(body, cuts, at, out) && End(cuts) == at && at <= |body| && body[at..] == Page(parts, tail) && PartsOk(parts, tail)
    ensures PlanOf(body, all, out + Segments(parts, tail, at))
    decreases |parts|
  {
    hide Scanned, Lit, TagText, Plain, TagOk, PlanOf;
    if parts == [] {
      all := cuts;
      TailPlain(body, at, tail);
      ScanOver(body, cuts, at, out);
    } else {
      PartLies(body, at, parts, tail);
      var part := parts[0];
      var more := PartPlanned(body, cuts, at, out, part);
      var open := at + |part.text|;
      var inc := if part.tag.Inc? then [Include(part.tag.src)] else [];
      all := PlannedFrom(body, more, open + |TagText(part.tag)|, out + Lit(at, open) + inc, parts[1..], tail);
      var rest := Segments(parts[1..], tail, open + |TagText(part.tag)|);
      assert out + Lit(at, open) + inc + rest == out + (Lit(at, open) + inc + rest);
    }
  }

  lemma TailPlain(body: Bytes, at: nat, tail: Bytes)
    requires at <= |body| && body[at..] == tail && Plain(tail)
    ensures Find(body, at, OPEN).None? && |body| == at + |tail|
  {
    hide Match, Find;
    Needles();
    if Find(body, at, OPEN).Some? {
      var p := Find(body, at, OPEN).value;
      Here(body, p, OPEN, 0);
      assert LiesAt(body, at, tail);
      NoneWithin(body, at, tail, OPEN, p);
    }
  }

  /** Every page written out of texts without tags, includes and remove blocks is planned as just that: the
      texts as literals, the sources in their places, and the removed blocks gone. */
  lemma PlanUndoesPage(parts: seq<Part>, tail: Bytes, cuts: seq<Cut>, out: seq<Segment>)
    requires PartsOk(parts, tail) && PlanOf(Page(parts, tail), cuts, out)
    ensures out == Segments(parts, tail, 0)
  {
    hide PartsOk, PlanOf, Segments, Scanned;
    var body := Page(parts, tail);
    NothingYet(body);
    assert body[0..] == body;
    var all := PlannedFrom(body, [], 0, [], parts, tail);
    OnePlan(body, cuts, out, all, [] + Segments(parts, tail, 0));
  }
}
