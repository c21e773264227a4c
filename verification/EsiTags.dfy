/** How the `src` of a tag is written: exactly the texts its reader reads. */
module EsiTags {
  import opened Common
  import opened Text
  import opened Esi

  /** Space, tab, line feed, form feed or carriage return. */
  predicate Blank(b: byte) {
    b as int in {0x20, 0x09, 0x0a, 0x0c, 0x0d}
  }

  predicate Blanks(s: Bytes) {
    forall i | 0 <= i < |s| :: Blank(s[i])
  }

  lemma BlankIsSpace(b: byte)
    ensures Blank(b) <==> IsSpace(b)
  {
  }

  /** The name, with small letters or capital ones. */
  predicate IsSrc(name: Bytes) {
    && |name| == 3 && name[0] as int in {'s' as int, 'S' as int}
    && name[1] as int in {'r' as int, 'R' as int} && name[2] as int in {'c' as int, 'C' as int}
  }

  lemma SrcMatches(tag: Bytes, p: nat)
    ensures Match(tag, p, SRC) <==> p + 3 <= |tag| && IsSrc(tag[p..p + 3])
  {
    if p + 3 <= |tag| {
      var n := tag[p..p + 3];
      assert n[0] == tag[p + 0] && n[1] == tag[p + 1] && n[2] == tag[p + 2];
      assert SRC[0] as int == 115 && SRC[1] as int == 114 && SRC[2] as int == 99;
      LowerIs(n[0], SRC[0]);
      LowerIs(n[1], SRC[1]);
      LowerIs(n[2], SRC[2]);
      assert Match(tag, p, SRC) <==> forall k | 0 <= k < 3 :: Lower(tag[p + k]) == Lower(SRC[k]);
    }
  }

  lemma LowerIs(a: byte, b: byte)
    requires 97 <= b <= 122
    ensures Lower(a) == Lower(b) <==> a == b || a == b - 32
  {
  }

  // ---- Where an assignment stands ----

  /** A tag taken apart at an assignment: what is before, the name, blanks, an equals sign, and the rest. */
  datatype Assignment = Assignment(before: Bytes, name: Bytes, gap: Bytes, rest: Bytes)

  predicate IsAssignment(tag: Bytes, a: Assignment) {
    && tag == a.before + a.name + a.gap + ['=' as int as byte] + a.rest
    && (a.before == [] || Blank(a.before[|a.before| - 1])) && IsSrc(a.name) && Blanks(a.gap)
  }

  ghost predicate AssignmentAt(tag: Bytes, p: nat) {
    exists a :: IsAssignment(tag, a) && |a.before| == p
  }

  lemma SkipIs(tag: Bytes, i: nat, j: nat)
    requires i <= j <= |tag| && (forall k | i <= k < j :: IsSpace(tag[k])) && (j < |tag| ==> !IsSpace(tag[j]))
    ensures SkipSpace(tag, i) == j
  {
  }

  lemma AssignmentIsOne(tag: Bytes, a: Assignment)
    requires IsAssignment(tag, a)
    ensures Assigns(tag, |a.before|) && SkipSpace(tag, |a.before| + 3) == |a.before| + 3 + |a.gap|
  {
    hide Match;
    var p := |a.before|;
    var j := p + 3 + |a.gap|;
    assert tag[p..p + 3] == a.name;
    SrcMatches(tag, p);
    assert p > 0 ==> tag[p - 1] == a.before[p - 1];
    assert forall k | p + 3 <= k < j :: tag[k] == a.gap[k - p - 3] && IsSpace(tag[k]);
    assert tag[j] == 61;
    SkipIs(tag, p + 3, j);
    assert |SRC| == 3;
  }

  lemma InFive(s: Bytes, i: nat, j: nat, k: nat)
    requires i <= j <= k < |s|
    ensures s == s[..i] + s[i..j] + s[j..k] + [s[k]] + s[k + 1..]
  {
    assert s[..i] + s[i..j] == s[..j];
    assert s[..j] + s[j..k] == s[..k];
    assert s[..k] + [s[k]] == s[..k + 1];
    assert s[..k + 1] + s[k + 1..] == s;
  }

  lemma MakesAssignment(tag: Bytes, p: nat, j: nat) returns (a: Assignment)
    requires p + 3 <= j < |tag| && IsSrc(tag[p..p + 3]) && (p == 0 || Blank(tag[p - 1])) && tag[j] == 61
    requires forall k | p + 3 <= k < j :: Blank(tag[k])
    ensures IsAssignment(tag, a) && |a.before| == p && j == p + 3 + |a.gap|
  {
    hide IsSrc, Blank;
    a := Assignment(tag[..p], tag[p..p + 3], tag[p + 3..j], tag[j + 1..]);
    InFive(tag, p, p + 3, j);
    assert forall k | 0 <= k < |a.gap| :: a.gap[k] == tag[p + 3 + k];
  }

  lemma AssignsParts(tag: Bytes, p: nat) returns (j: nat)
    requires Assigns(tag, p)
    ensures p + 3 <= j < |tag| && IsSrc(tag[p..p + 3]) && (p == 0 || Blank(tag[p - 1])) && tag[j] == 61
    ensures SkipSpace(tag, p + 3) == j && forall k | p + 3 <= k < j :: Blank(tag[k])
  {
    hide Match, IsSrc;
    assert |SRC| == 3;
    SrcMatches(tag, p);
    j := SkipSpace(tag, p + 3);
    if 0 < p {
      BlankIsSpace(tag[p - 1]);
    }
    forall k | p + 3 <= k < j
      ensures Blank(tag[k])
    {
      BlankIsSpace(tag[k]);
    }
  }

  lemma OneIsAssignment(tag: Bytes, p: nat) returns (a: Assignment)
    requires Assigns(tag, p)
    ensures IsAssignment(tag, a) && |a.before| == p && SkipSpace(tag, p + 3) == p + 3 + |a.gap|
  {
    hide *;
    var j := AssignsParts(tag, p);
    a := MakesAssignment(tag, p, j);
  }

  lemma AssignsIff(tag: Bytes, p: nat)
    ensures Assigns(tag, p) <==> AssignmentAt(tag, p)
  {
    hide Assigns, IsAssignment;
    if Assigns(tag, p) {
      var a := OneIsAssignment(tag, p);
    }
    if a :| IsAssignment(tag, a) && |a.before| == p {
      AssignmentIsOne(tag, a);
    }
  }

  // ---- The value ----

  /** What follows the equals sign: blanks, a quote of either kind, the value, and the same quote or nothing. */
  datatype Quotation = Quotation(gap: Bytes, quote: byte, value: Bytes, rest: Bytes)

  predicate IsQuotation(s: Bytes, q: Quotation) {
    && s == q.gap + [q.quote] + q.value + q.rest && Blanks(q.gap)
    && (q.quote as int == '"' as int || q.quote as int == '\'' as int)
    && q.quote !in q.value && (q.rest == [] || q.rest[0] == q.quote) && Utf8(q.value)
  }

  lemma ToIs(tag: Bytes, q: byte, i: nat, j: nat)
    requires i <= j <= |tag| && (forall k | i <= k < j :: tag[k] != q) && (j < |tag| ==> tag[j] == q)
    ensures SkipTo(tag, q, i) == j
  {
  }

  /** Where the parts of a quotation lie. */
  lemma QuotationAt(tag: Bytes, from: nat, q: Quotation)
    requires from <= |tag| && IsQuotation(tag[from..], q)
    ensures var j := from + |q.gap|; var e := j + 1 + |q.value|;
      && e <= |tag| && tag[j] == q.quote && tag[j + 1..e] == q.value
      && (forall k | from <= k < j :: Blank(tag[k])) && (e < |tag| ==> tag[e] == q.quote)
    ensures q.quote !in q.value && Utf8(q.value) && (q.quote == 34 || q.quote == 39)
  {
    hide Utf8, Blank;
    var s, j := tag[from..], from + |q.gap|;
    var e := j + 1 + |q.value|;
    assert |s| == |q.gap| + 1 + |q.value| + |q.rest|;
    assert forall k | from <= k < j :: tag[k] == s[k - from] == q.gap[k - from];
    assert tag[j] == s[j - from];
    assert forall k | j + 1 <= k < e :: tag[k] == s[k - from] == q.value[k - j - 1];
    assert e < |tag| ==> tag[e] == s[e - from] == q.rest[0];
  }

  lemma BlanksSkipped(tag: Bytes, from: nat, j: nat)
    requires from <= j < |tag| && (forall k | from <= k < j :: Blank(tag[k])) && !Blank(tag[j])
    ensures SkipSpace(tag, from) == j
  {
    forall k | from <= k <= j
      ensures Blank(tag[k]) <==> IsSpace(tag[k])
    {
      BlankIsSpace(tag[k]);
    }
    hide Blank, IsSpace;
    SkipIs(tag, from, j);
  }

  lemma ValueSkipped(tag: Bytes, quote: byte, i: nat, e: nat)
    requires i <= e <= |tag| && quote !in tag[i..e] && (e < |tag| ==> tag[e] == quote)
    ensures SkipTo(tag, quote, i) == e
  {
    forall k | i <= k < e
      ensures tag[k] != quote
    {
      assert tag[k] == tag[i..e][k - i];
    }
    ToIs(tag, quote, i, e);
  }

  lemma ReadBetween(tag: Bytes, from: nat, j: nat, e: nat)
    requires from <= |tag| && SkipSpace(tag, from) == j < |tag| && (tag[j] == 34 || tag[j] == 39)
    requires SkipTo(tag, tag[j], j + 1) == e && Utf8(tag[j + 1..e])
    ensures QuotedAt(tag, from) == Some(tag[j + 1..e])
  {
    hide Utf8, SkipSpace, SkipTo;
  }

  lemma QuoteNotBlank(b: byte)
    requires b == 34 || b == 39
    ensures !Blank(b)
  {
  }

  lemma QuotationIsRead(tag: Bytes, from: nat, q: Quotation)
    requires from <= |tag| && IsQuotation(tag[from..], q)
    ensures QuotedAt(tag, from) == Some(q.value)
  {
    var j := from + |q.gap|;
    hide *;
    QuotationAt(tag, from, q);
    QuoteNotBlank(q.quote);
    BlanksSkipped(tag, from, j);
    ValueSkipped(tag, q.quote, j + 1, j + 1 + |q.value|);
    ReadBetween(tag, from, j, j + 1 + |q.value|);
  }

  lemma ReadIsQuotation(tag: Bytes, from: nat) returns (q: Quotation)
    requires from <= |tag| && QuotedAt(tag, from).Some?
    ensures IsQuotation(tag[from..], q) && QuotedAt(tag, from) == Some(q.value)
  {
    hide Utf8;
    var j := SkipSpace(tag, from);
    var e := SkipTo(tag, tag[j], j + 1);
    q := Quotation(tag[from..j], tag[j], tag[j + 1..e], tag[e..]);
    assert tag[from..] == tag[from..j] + [tag[j]] + tag[j + 1..e] + tag[e..];
  }

  // ---- The src of a tag ----

  /** The tag's first assignment, and the value quoted there. */
  datatype Written = Written(a: Assignment, q: Quotation)

  ghost predicate IsWritten(tag: Bytes, w: Written) {
    && IsAssignment(tag, w.a) && IsQuotation(w.a.rest, w.q)
    && forall p: nat | p < |w.a.before| :: !AssignmentAt(tag, p)
  }

  lemma WrittenIsRead(tag: Bytes, w: Written)
    requires IsWritten(tag, w)
    ensures SrcOf(tag) == Some(w.q.value)
  {
    hide Assigns, IsQuotation, QuotedAt, AssignmentAt, SkipSpace;
    var p := |w.a.before|;
    AssignmentIsOne(tag, w.a);
    forall o: nat | o < p
      ensures !Assigns(tag, o)
    {
      AssignsIff(tag, o);
    }
    assert FirstAssign(tag, 0) == Some(p);
    assert |SRC| == 3;
    var from := p + 3 + |w.a.gap| + 1;
    assert tag[from..] == w.a.rest;
    QuotationIsRead(tag, from, w.q);
  }

  lemma ReadIsWritten(tag: Bytes) returns (w: Written)
    requires SrcOf(tag).Some?
    ensures IsWritten(tag, w) && SrcOf(tag) == Some(w.q.value)
  {
    hide Assigns, IsQuotation, QuotedAt, AssignmentAt, SkipSpace;
    var p := FirstAssign(tag, 0).value;
    var a := OneIsAssignment(tag, p);
    assert |SRC| == 3;
    var from := p + 3 + |a.gap| + 1;
    assert tag[from..] == a.rest;
    var q := ReadIsQuotation(tag, from);
    w := Written(a, q);
    forall o: nat | o < p
      ensures !AssignmentAt(tag, o)
    {
      AssignsIff(tag, o);
    }
  }

  /** The reader gives a value exactly if the tag's first assignment to `src`, a name of its own, is of that
      value: quoted either way, ended by the same quote or by the tag, and UTF-8. */
  lemma SrcIffWritten(tag: Bytes, v: Bytes)
    ensures SrcOf(tag) == Some(v) <==> exists w :: IsWritten(tag, w) && w.q.value == v
  {
    hide SrcOf, IsWritten;
    if SrcOf(tag) == Some(v) {
      var w := ReadIsWritten(tag);
    }
    if w :| IsWritten(tag, w) && w.q.value == v {
      WrittenIsRead(tag, w);
    }
  }
}
