/** Per-application namespaces: sixteen hex digits and a separator in front of a stored key. */
module Namespace {
  import opened Common
  import opened Text

  const SEP: byte := 0x1f
  const APP_LEN: nat := 16
  const PREFIX_LEN: nat := 17

  predicate IsDigit(b: byte) { 48 <= b <= 57 }

  predicate IsLowerHex(b: byte) { IsDigit(b) || 97 <= b <= 102 }

  predicate IsHex(b: byte) { IsLowerHex(b) || 65 <= b <= 70 }

  const HEX_DIGITS: string := "0123456789abcdefABCDEF"

  /** The hex digits are these, and in lower case the first sixteen. */
  lemma HexDigitsAre(b: byte)
    ensures IsHex(b) <==> exists i :: 0 <= i < 22 && HEX_DIGITS[i] as int == b as int
    ensures IsHex(b) ==> exists i :: 0 <= i < 16 && HEX_DIGITS[i] as int == Lower(b) as int
    ensures IsLowerHex(b) <==> exists i :: 0 <= i < 16 && HEX_DIGITS[i] as int == b as int
  {
    assert forall i :: 0 <= i < 22 ==> HEX_DIGITS[i] as int == if i < 10 then 48 + i else if i < 16 then 87 + i else 49 + i;
    var n := b as int;
    if 48 <= n <= 57 {
      assert HEX_DIGITS[n - 48] as int == n;
    } else if 97 <= n <= 102 {
      assert HEX_DIGITS[n - 87] as int == n;
    } else if 65 <= n <= 70 {
      assert HEX_DIGITS[n - 49] as int == n && HEX_DIGITS[n + 32 - 87] as int == n + 32;
    }
  }

  predicate IsApp(b: Bytes) {
    |b| == APP_LEN && forall i | 0 <= i < |b| :: IsLowerHex(b[i])
  }

  const ZERO_APP: Bytes := [48, 48, 48, 48, 48, 48, 48, 48, 48, 48, 48, 48, 48, 48, 48, 48]

  /** An application's identity. */
  type App = b: Bytes | IsApp(b) witness ZERO_APP

  predicate Parses(s: Bytes) {
    |s| == APP_LEN && forall i | 0 <= i < |s| :: IsHex(s[i])
  }

  /** The application a text names, if it is exactly sixteen hex digits. */
  function Parsed(s: Bytes): (r: Option<App>)
    ensures r.Some? <==> Parses(s)
    ensures r.Some? ==> forall i | 0 <= i < APP_LEN :: r.value[i] == Lower(s[i])
  {
    if Parses(s) then Some(seq(APP_LEN, i requires 0 <= i < APP_LEN => Lower(s[i]))) else None
  }

  /** `App::parse`: check every byte, then fill the identity byte by byte. */
  method Parse(s: Bytes) returns (r: Option<App>)
    ensures r == Parsed(s)
  {
    if |s| != APP_LEN {
      return None;
    }
    var i := 0;
    while i < |s|
      invariant i <= |s| && forall j | 0 <= j < i :: IsHex(s[j])
    {
      if !IsHex(s[i]) {
        return None;
      }
      i := i + 1;
    }
    var out: Bytes := [];
    while |out| < |s|
      invariant |out| <= |s|
      invariant forall j | 0 <= j < |out| :: out[j] == Lower(s[j]) && IsLowerHex(out[j])
    {
      out := out + [Lower(s[|out|])];
    }
    assert out == Parsed(s).value;
    return Some(out);
  }

  function Prefix(app: App): (p: Bytes)
    ensures |p| == PREFIX_LEN
  {
    app + [SEP]
  }

  /** `key` as stored: prefixed with the current application, unchanged when there is none. */
  function Stored(current: Option<App>, key: Bytes): Bytes {
    if current.Some? then Prefix(current.value) + key else key
  }

  /** A stored key taken apart. */
  function Split(stored: Bytes): (Option<App>, Bytes) {
    if PREFIX_LEN <= |stored| && stored[APP_LEN] == SEP && Parsed(stored[..APP_LEN]).Some? then
      (Parsed(stored[..APP_LEN]), stored[PREFIX_LEN..])
    else (None, stored)
  }

  predicate Owns(current: Option<App>, stored: Bytes) {
    if current.Some? then Prefix(current.value) <= stored else Split(stored).0.None?
  }

  lemma AppParsesToItself(app: App)
    ensures Parsed(app) == Some(app)
  {
    assert Parsed(app).value == app;
  }

  /** `split` undoes `key` for every application and every key. */
  lemma SplitUndoesKey(app: App, key: Bytes)
    ensures Split(Stored(Some(app), key)) == (Some(app), key)
  {
    var st := Stored(Some(app), key);
    AppParsesToItself(app);
    assert st[..APP_LEN] == app && st[PREFIX_LEN..] == key;
  }

  /** Distinct applications never share a stored key, and one application never confuses two. */
  lemma StoredInjective(a: App, j: Bytes, b: App, k: Bytes)
    requires Stored(Some(a), j) == Stored(Some(b), k)
    ensures a == b && j == k
  {
    SplitUndoesKey(a, j);
    SplitUndoesKey(b, k);
  }

  /** A key belongs to the application it was stored under and to no other. */
  lemma OwnedByItsApp(a: App, b: App, key: Bytes)
    ensures Owns(Some(a), Stored(Some(b), key)) <==> a == b
    ensures !Owns(None, Stored(Some(b), key))
  {
    SplitUndoesKey(b, key);
    var st := Stored(Some(b), key);
    if Owns(Some(a), st) {
      assert st[..APP_LEN] == Prefix(a)[..APP_LEN] == a;
      assert st[..APP_LEN] == b;
    }
  }

  /** What `owns` and `split` disagree on: upper-case digits. An application owns exactly the keys
      that `key` could have produced for it. */
  lemma OwnsExactly(a: App, stored: Bytes)
    ensures Owns(Some(a), stored) <==> Split(stored).0 == Some(a) && stored == Stored(Some(a), Split(stored).1)
  {
    if Owns(Some(a), stored) {
      assert stored == Prefix(a) + stored[PREFIX_LEN..];
      SplitUndoesKey(a, stored[PREFIX_LEN..]);
    }
  }

  /** The process-wide current application. */
  class Context {
    var current: Option<App>

    constructor ()
      ensures current == None
    {
      current := None;
    }

    /** A malformed text leaves no application, never the previous request's. */
    method SetFromRequest(text: Bytes)
      modifies this
      ensures current == Parsed(text)
    {
      var app := Parse(text);
      current := app;
    }
  }
}
