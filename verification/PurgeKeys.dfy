/** Which cached responses an invalidation by URL is about: stored keys taken apart and matched. */
module PurgeKeys {
  import opened Common
  import Glob
  import Text

  const KEY_MAX: nat := 512
  const GET: Bytes := [71, 69, 84]
  const HEAD: Bytes := [72, 69, 65, 68]
  const QUESTION: byte := 63

  /** The first zero byte at or after `i`, or the end. */
  function ZeroFrom(key: Bytes, i: nat): (j: nat)
    requires i <= |key|
    ensures i <= j <= |key| && (j < |key| ==> key[j] == 0) && forall k | i <= k < j :: key[k] != 0
    decreases |key| - i
  {
    if i < |key| && key[i] != 0 then ZeroFrom(key, i + 1) else i
  }

  datatype Parts = Parts(verb: Bytes, host: Bytes, pq: Bytes)

  /** The first three fields of a key, if it has three. */
  function KeyParts(key: Bytes): Option<Parts> {
    var a := ZeroFrom(key, 0);
    if a == |key| then None
    else
      var b := ZeroFrom(key, a + 1);
      if b == |key| then None
      else Some(Parts(key[..a], key[a + 1..b], key[b + 1..ZeroFrom(key, b + 1)]))
  }

  predicate EqIgnoreCase(a: Bytes, b: Bytes) {
    |a| == |b| && forall i | 0 <= i < |a| :: Text.Lower(a[i]) == Text.Lower(b[i])
  }

  /** The entry is for this URL: the exact path and query, or, without a query, the path with any. */
  predicate IsUrl(pq: Bytes, path: Bytes, query: Option<Bytes>) {
    if query.Some? then pq == path + [QUESTION] + query.value
    else pq == path || (|path| < |pq| && path <= pq && pq[|path|] == QUESTION)
  }

  /** A request that a purge of the URL means: read-only, for that host, for that URL. */
  predicate Meant(p: Parts, host: Bytes, path: Bytes, query: Option<Bytes>) {
    (p.verb == GET || p.verb == HEAD) && EqIgnoreCase(p.host, host) && IsUrl(p.pq, path, query)
  }

  predicate PurgeWants(key: Bytes, host: Bytes, path: Bytes, query: Option<Bytes>) {
    var p := KeyParts(key);
    p.Some? && Meant(p.value, host, path, query)
  }

  function PathOf(pq: Bytes): (p: Bytes)
    ensures p <= pq && QUESTION !in p && (|p| < |pq| ==> pq[|p|] == QUESTION)
  {
    if pq == [] || pq[0] == QUESTION then [] else [pq[0]] + PathOf(pq[1..])
  }

  predicate BanWants(key: Bytes, host: Bytes, pattern: Bytes) {
    var p := KeyParts(key);
    && p.Some? && (p.value.verb == GET || p.value.verb == HEAD) && EqIgnoreCase(p.value.host, host)
    && Text.Utf8(PathOf(p.value.pq)) && Glob.Accepts(pattern, PathOf(p.value.pq))
  }

  // ---- Keys as they are built ----

  predicate NoZero(b: Bytes) {
    forall i | 0 <= i < |b| :: b[i] != 0
  }

  /** A key: three fields and then those that tell variants of a response apart. */
  function KeyText(p: Parts, variant: Bytes): Bytes {
    p.verb + [0] + p.host + [0] + p.pq + [0] + variant
  }

  predicate Plain(p: Parts) {
    NoZero(p.verb) && NoZero(p.host) && NoZero(p.pq)
  }

  /** What is kept of a key. */
  function Kept(key: Bytes): Bytes {
    if |key| <= KEY_MAX then key else key[..KEY_MAX]
  }

  /** Up to the end of the third field. */
  function Reach(p: Parts): nat {
    |p.verb| + 1 + |p.host| + 1 + |p.pq|
  }

  lemma ZeroAt(key: Bytes, i: nat, j: nat)
    requires i <= j <= |key| && (forall k | i <= k < j :: key[k] != 0) && (j < |key| ==> key[j] == 0)
    ensures ZeroFrom(key, i) == j
  {
  }

  /** A key, byte by byte. */
  lemma KeyByte(p: Parts, variant: Bytes, k: nat)
    requires k <= Reach(p)
    ensures var key := KeyText(p, variant); var a := |p.verb|; var b := a + 1 + |p.host|;
      && Reach(p) < |key|
      && key[k] == if k < a then p.verb[k] else if k == a then 0
                   else if k < b then p.host[k - a - 1] else if k == b then 0
                   else if k < Reach(p) then p.pq[k - b - 1] else 0
  {
  }

  /** A key that keeps its three fields is taken apart into them, whatever was cut off behind. */
  lemma PartsUndoKey(p: Parts, variant: Bytes, n: nat)
    requires Plain(p) && Reach(p) <= n <= |KeyText(p, variant)|
    ensures KeyParts(KeyText(p, variant)[..n]) == Some(p)
  {
    hide KeyText, ZeroFrom;
    var key := KeyText(p, variant)[..n];
    var a, b := |p.verb|, |p.verb| + 1 + |p.host|;
    forall k: nat | k < n && k <= Reach(p)
      ensures key[k] == if k < a then p.verb[k] else if k == a then 0
                        else if k < b then p.host[k - a - 1] else if k == b then 0
                        else if k < Reach(p) then p.pq[k - b - 1] else 0
    {
      KeyByte(p, variant, k);
    }
    ZeroAt(key, 0, a);
    ZeroAt(key, a + 1, b);
    ZeroAt(key, b + 1, Reach(p));
    assert key[..a] == p.verb && key[a + 1..b] == p.host && key[b + 1..Reach(p)] == p.pq;
  }

  /** Within the retained length, a purge drops exactly the read-only variants of its URL. */
  lemma PurgeIsExact(p: Parts, variant: Bytes, host: Bytes, path: Bytes, query: Option<Bytes>)
    requires Plain(p) && |KeyText(p, variant)| <= KEY_MAX
    ensures PurgeWants(Kept(KeyText(p, variant)), host, path, query) <==> Meant(p, host, path, query)
  {
    var key := KeyText(p, variant);
    PartsUndoKey(p, variant, |key|);
    assert key[..|key|] == key;
  }

  /** Every letter in lower case. */
  function Lowered(b: Bytes): Bytes {
    seq(|b|, i requires 0 <= i < |b| => Text.Lower(b[i]))
  }

  lemma SameLowered(a: Bytes, b: Bytes)
    ensures EqIgnoreCase(a, b) <==> Lowered(a) == Lowered(b)
  {
    if Lowered(a) == Lowered(b) {
      assert |a| == |Lowered(b)|;
      assert forall i | 0 <= i < |a| :: Lowered(a)[i] == Text.Lower(a[i]) && Lowered(b)[i] == Text.Lower(b[i]);
    }
  }

  /** The third field of a request for a path, with or without a query. */
  function Target(path: Bytes, query: Option<Bytes>): Bytes {
    if query.Some? then path + [QUESTION] + query.value else path
  }

  lemma {:induction false} PathOfTarget(path: Bytes, query: Option<Bytes>)
    requires QUESTION !in path
    ensures PathOf(Target(path, query)) == path
  {
    var pq := Target(path, query);
    if path != [] {
      PathOfTarget(path[1..], query);
      assert pq[1..] == Target(path[1..], query);
    }
  }

  lemma TargetInjective(path: Bytes, query: Option<Bytes>, path': Bytes, query': Option<Bytes>)
    requires QUESTION !in path && QUESTION !in path' && Target(path, query) == Target(path', query')
    ensures path == path' && query == query'
  {
    hide PathOf;
    PathOfTarget(path, query);
    PathOfTarget(path', query');
    QueryOfTarget(path, query);
    QueryOfTarget(path', query');
  }

  lemma QueryOfTarget(path: Bytes, query: Option<Bytes>)
    ensures query == if |Target(path, query)| == |path| then None else Some(Target(path, query)[|path| + 1..])
  {
  }

  lemma TargetWith(pq: Bytes, path: Bytes)
    requires |path| < |pq| && path <= pq && pq[|path|] == QUESTION
    ensures pq == Target(path, Some(pq[|path| + 1..]))
  {
  }

  lemma TargetIsUrl(path: Bytes, query: Option<Bytes>, query': Option<Bytes>)
    requires query'.Some? ==> query == query'
    ensures IsUrl(Target(path, query), path, query')
  {
  }

  /** A path and what follows it are told apart by the first question mark. */
  lemma SameTarget(path: Bytes, query: Option<Bytes>, path': Bytes, query': Option<Bytes>)
    requires QUESTION !in path && QUESTION !in path'
    ensures IsUrl(Target(path, query), path', query') <==> path == path' && (query'.Some? ==> query == query')
  {
    var pq := Target(path, query);
    if path == path' && (query'.Some? ==> query == query') {
      TargetIsUrl(path, query, query');
    }
    if IsUrl(pq, path', query') {
      var q := if query'.Some? then query' else if pq == path' then None else Some(pq[|path'| + 1..]);
      if query'.None? && pq != path' {
        TargetWith(pq, path');
      }
      assert pq == Target(path', q);
      hide Target, IsUrl;
      TargetInjective(path, query, path', q);
    }
  }

  predicate ReadOnly(verb: Bytes) {
    verb == [71, 69, 84] || verb == [72, 69, 65, 68]
  }

  lemma PartsKept(p: Parts, variant: Bytes)
    requires Plain(p) && Reach(p) <= KEY_MAX
    ensures KeyParts(Kept(KeyText(p, variant))) == Some(p)
  {
    hide KeyParts;
    KeyByte(p, variant, 0);
    var n := Min(KEY_MAX, |KeyText(p, variant)|);
    PartsUndoKey(p, variant, n);
    assert Kept(KeyText(p, variant)) == KeyText(p, variant)[..n];
  }

  /** A purge of a path takes exactly the GET and HEAD variants kept for it on that host, in whatever case:
      with a query those with that query, without one those with any. */
  lemma PurgeOfUrl(verb: Bytes, host: Bytes, path: Bytes, query: Option<Bytes>, variant: Bytes, host': Bytes, path': Bytes, query': Option<Bytes>)
    requires QUESTION !in path && QUESTION !in path'
    requires var p := Parts(verb, host, Target(path, query)); Plain(p) && Reach(p) <= KEY_MAX
    ensures PurgeWants(Kept(KeyText(Parts(verb, host, Target(path, query)), variant)), host', path', query') <==>
            ReadOnly(verb) && Lowered(host) == Lowered(host') && path == path' && (query'.Some? ==> query == query')
  {
    hide KeyParts, KeyText, IsUrl, EqIgnoreCase, Lowered;
    PartsKept(Parts(verb, host, Target(path, query)), variant);
    SameTarget(path, query, path', query');
    SameLowered(host, host');
  }

  /** A ban takes exactly the GET and HEAD variants on that host, in whatever case, whose path is UTF-8 and
      accepted, which for a path without a star is to match the pattern, and in any case implies it. */
  lemma BanIsExact(verb: Bytes, host: Bytes, path: Bytes, query: Option<Bytes>, variant: Bytes, host': Bytes, pattern: Bytes)
    requires QUESTION !in path
    requires var p := Parts(verb, host, Target(path, query)); Plain(p) && Reach(p) <= KEY_MAX
    ensures var wants := BanWants(Kept(KeyText(Parts(verb, host, Target(path, query)), variant)), host', pattern);
      && (wants ==> ReadOnly(verb) && Lowered(host) == Lowered(host') && Text.Utf8(path) && Glob.Matches(pattern, path))
      && (Glob.STAR !in path ==>
            (wants <==> ReadOnly(verb) && Lowered(host) == Lowered(host') && Text.Utf8(path) && Glob.Matches(pattern, path)))
  {
    hide KeyParts, KeyText, EqIgnoreCase, Lowered, Glob.Accepts, Glob.Matches, Text.Utf8, PathOf;
    PartsKept(Parts(verb, host, Target(path, query)), variant);
    PathOfTarget(path, query);
    SameLowered(host, host');
    if Glob.Accepts(pattern, path) {
      Glob.Sound(pattern, path);
    }
    if Glob.STAR !in path && Glob.Matches(pattern, path) {
      Glob.Complete(pattern, path);
    }
  }

  // ---- Keys that are cut off ----

  /** Every purge treats the retained key as it should the whole one. */
  ghost predicate PurgesFaithfully(p: Parts, variant: Bytes) {
    forall host, path, query :: PurgeWants(Kept(KeyText(p, variant)), host, path, query) <==> Meant(p, host, path, query)
  }

  /** A key cut off inside its third field has too few fields, or only a beginning of the third. */
  lemma CutShort(p: Parts, variant: Bytes)
    requires Plain(p) && KEY_MAX < Reach(p)
    ensures var q := KeyParts(Kept(KeyText(p, variant))); var b := |p.verb| + 1 + |p.host|;
      if KEY_MAX <= b then q.None? else q == Some(Parts(p.verb, p.host, p.pq[..KEY_MAX - b - 1]))
  {
    hide KeyText, ZeroFrom;
    KeyByte(p, variant, 0);
    var key := KeyText(p, variant)[..KEY_MAX];
    assert key == Kept(KeyText(p, variant));
    var a, b := |p.verb|, |p.verb| + 1 + |p.host|;
    forall k: nat | k < KEY_MAX
      ensures key[k] == if k < a then p.verb[k] else if k == a then 0
                        else if k < b then p.host[k - a - 1] else if k == b then 0 else p.pq[k - b - 1]
    {
      KeyByte(p, variant, k);
    }
    ZeroAt(key, 0, Min(a, KEY_MAX));
    if a < KEY_MAX {
      ZeroAt(key, a + 1, Min(b, KEY_MAX));
      if b < KEY_MAX {
        ZeroAt(key, b + 1, KEY_MAX);
        assert key[..a] == p.verb && key[a + 1..b] == p.host && key[b + 1..KEY_MAX] == p.pq[..KEY_MAX - b - 1];
      }
    }
  }

  /** Purges are right for a key exactly when it is not one they are about, or its three fields are
      all within what is kept: the purge of a cut-off key's own URL misses it. */
  lemma PurgesFaithfullyIff(p: Parts, variant: Bytes)
    requires Plain(p)
    ensures PurgesFaithfully(p, variant) <==> (p.verb != GET && p.verb != HEAD) || Reach(p) <= KEY_MAX
  {
    hide KeyText, KeyParts;
    if Reach(p) <= KEY_MAX {
      KeyByte(p, variant, 0);
      PartsUndoKey(p, variant, Min(KEY_MAX, |KeyText(p, variant)|));
      assert Kept(KeyText(p, variant)) == KeyText(p, variant)[..Min(KEY_MAX, |KeyText(p, variant)|)];
    } else {
      CutShort(p, variant);
      if p.verb == GET || p.verb == HEAD {
        assert Meant(p, p.host, p.pq, None) && !PurgeWants(Kept(KeyText(p, variant)), p.host, p.pq, None);
      }
    }
  }

  /** And the purge of another URL can take it. */
  lemma CutKeyTakenForAnother(p: Parts, variant: Bytes, cut: nat)
    requires Plain(p) && p.verb == GET && KEY_MAX < Reach(p)
    requires cut == KEY_MAX - (|p.verb| + |p.host| + 2) && 0 <= cut < |p.pq| && p.pq[cut] != QUESTION
    ensures PurgeWants(Kept(KeyText(p, variant)), p.host, p.pq[..cut], None)
    ensures !Meant(p, p.host, p.pq[..cut], None)
  {
    hide KeyText, KeyParts;
    CutShort(p, variant);
  }
}
