/** The traffic log: each observed request is printed as one JSON-like line and read back by a small
    hand-written reader. */
module TrafficLog {
  import opened Common

  type u16 = n: nat | n < 65536

  /** One observed request. */
  datatype Sample = Sample(
    ts: u64, verb: string, host: string, path: string, query: string, cookie: bool, setCookie: bool,
    status: u16, bytes: u64, php: u64, hash: u64, optedIn: bool)

  // ---- Decimal numbers ----

  predicate IsDigit(c: char) {
    '0' <= c <= '9'
  }

  function Digit(d: nat): (c: char)
    requires d < 10
    ensures IsDigit(c) && (c as int) - ('0' as int) == d
  {
    ('0' as int + d) as char
  }

  function Render(n: nat): string {
    if n < 10 then [Digit(n)] else Render(n / 10) + [Digit(n % 10)]
  }

  predicate AllDigits(s: string) {
    forall i | 0 <= i < |s| :: IsDigit(s[i])
  }

  function DigitsValue(s: string): nat
    requires AllDigits(s)
  {
    if s == [] then 0 else 10 * DigitsValue(s[..|s| - 1]) + (s[|s| - 1] as int - '0' as int)
  }

  /** An unsigned 64-bit number, as the standard library reads one: an optional plus, at least one
      digit, nothing else, and within range. */
  function ParseU64(s: string): Option<u64> {
    var d := if s != [] && s[0] == '+' then s[1..] else s;
    if d != [] && AllDigits(d) && DigitsValue(d) <= U64_MAX then Some(DigitsValue(d)) else None
  }

  lemma {:induction false} RenderedDigits(n: nat)
    ensures Render(n) != [] && AllDigits(Render(n)) && DigitsValue(Render(n)) == n
  {
    if 10 <= n {
      RenderedDigits(n / 10);
      assert Render(n)[..|Render(n)| - 1] == Render(n / 10);
    }
  }

  lemma ParseUndoesRender(n: u64)
    ensures ParseU64(Render(n)) == Some(n)
  {
    RenderedDigits(n);
  }

  // ---- Strings ----

  predicate IsControl(c: char) {
    (c as int) < 0x20
  }

  function EscChar(c: char): string {
    if c == '"' then ['\\', '"'] else if c == '\\' then ['\\', '\\'] else if IsControl(c) then [' '] else [c]
  }

  function Esc(s: string): string {
    if s == [] then [] else EscChar(s[0]) + Esc(s[1..])
  }

  function CleanChar(c: char): char {
    if IsControl(c) then ' ' else c
  }

  /** A string with its control characters replaced by spaces. */
  function Clean(s: string): (r: string)
    ensures |r| == |s| && forall i | 0 <= i < |s| :: r[i] == CleanChar(s[i])
  {
    seq(|s|, i requires 0 <= i < |s| => CleanChar(s[i]))
  }

  function Prepend(p: string, o: Option<string>): Option<string> {
    if o.None? then None else Some(p + o.value)
  }

  lemma PrependTwice(p: string, q: string, o: Option<string>)
    ensures Prepend(p + q, o) == Prepend(p, Prepend(q, o)) && Prepend([], o) == o
  {
    if o.Some? {
      assert p + q + o.value == p + (q + o.value) && [] + o.value == o.value;
    }
  }

  /** The text up to the next quote that is not escaped, with its escapes undone. */
  function Unescaped(s: string): Option<string> {
    if s == [] then None
    else if s[0] == '\\' then
      if |s| == 1 then None
      else Prepend([s[1]], Unescaped(s[2..]))
    else if s[0] == '"' then Some([])
    else Prepend([s[0]], Unescaped(s[1..]))
  }

  lemma UnescapedChar(c: char, z: string)
    ensures Unescaped(EscChar(c) + z) == Prepend([CleanChar(c)], Unescaped(z))
  {
    var s := EscChar(c) + z;
    assert s[|EscChar(c)|..] == z;
  }

  lemma EscSplits(v: string, z: string)
    requires v != []
    ensures Esc(v) + z == EscChar(v[0]) + (Esc(v[1..]) + z)
    ensures Clean(v) == [CleanChar(v[0])] + Clean(v[1..])
  {
    hide EscChar, CleanChar;
    var c, t := EscChar(v[0]), Esc(v[1..]);
    assert Esc(v) == c + t;
    hide Esc;
    Reassociate(c, t, z);
  }

  lemma Reassociate(a: string, b: string, c: string)
    ensures a + b + c == a + (b + c)
  {
  }

  lemma {:induction false} UnescapeUndoesEsc(v: string, z: string)
    ensures Unescaped(Esc(v) + (['"'] + z)) == Some(Clean(v))
  {
    if v == [] {
      assert Clean(v) == [];
    } else {
      hide Unescaped, EscChar, Esc, Clean;
      EscSplits(v, ['"'] + z);
      UnescapedChar(v[0], Esc(v[1..]) + (['"'] + z));
      UnescapeUndoesEsc(v[1..], z);
    }
  }

  /** Every quote in an escaped string has a backslash before it. */
  lemma {:induction false} QuotesEscaped(v: string, i: nat)
    requires i < |Esc(v)| && Esc(v)[i] == '"'
    ensures 0 < i && Esc(v)[i - 1] == '\\'
  {
    var n := |EscChar(v[0])|;
    if n <= i {
      assert Esc(v)[i] == Esc(v[1..])[i - n];
      QuotesEscaped(v[1..], i - n);
    }
  }

  lemma {:induction false} EscHasNoControl(v: string, i: nat)
    requires i < |Esc(v)|
    ensures !IsControl(Esc(v)[i])
  {
    var n := |EscChar(v[0])|;
    if n <= i {
      assert Esc(v)[i] == Esc(v[1..])[i - n];
      EscHasNoControl(v[1..], i - n);
    }
  }

  // ---- Searching ----

  predicate At(s: string, key: string, i: nat) {
    i + |key| <= |s| && s[i..i + |key|] == key
  }

  /** Where `key` first occurs at or after `i`. */
  function FindFrom(s: string, key: string, i: nat): (r: Option<nat>)
    ensures r.Some? ==> i <= r.value && At(s, key, r.value) && forall j | i <= j < r.value :: !At(s, key, j)
    ensures r.None? ==> forall j | i <= j :: !At(s, key, j)
    decreases |s| - i
  {
    if |s| < i + |key| then None else if At(s, key, i) then Some(i) else FindFrom(s, key, i + 1)
  }

  /** The text after the first occurrence of `key`. */
  function Field(line: string, key: string): Option<string> {
    var i := FindFrom(line, key, 0);
    if i.None? then None else Some(line[i.value + |key|..])
  }

  /** Where a number ends: the next comma or closing brace. */
  function EndFrom(s: string, i: nat): (r: Option<nat>)
    requires i <= |s|
    ensures r.Some? ==> i <= r.value < |s|
    decreases |s| - i
  {
    if i == |s| then None else if s[i] in {',', '}'} then Some(i) else EndFrom(s, i + 1)
  }

  /** White space, as Unicode defines it. */
  predicate IsSpace(c: char) {
    var n := c as int;
    || 9 <= n <= 13 || n == 0x20 || n == 0x85 || n == 0xa0 || n == 0x1680 || 0x2000 <= n <= 0x200a
    || n == 0x2028 || n == 0x2029 || n == 0x202f || n == 0x205f || n == 0x3000
  }

  function Trim(s: string): string {
    if s != [] && IsSpace(s[0]) then Trim(s[1..])
    else if s != [] && IsSpace(s[|s| - 1]) then Trim(s[..|s| - 1])
    else s
  }

  function Num(line: string, key: string): Option<u64> {
    match Field(line, key)
    case None => None
    case Some(rest) =>
      match EndFrom(rest, 0)
      case None => None
      case Some(end) => ParseU64(Trim(rest[..end]))
  }

  function Boolean(line: string, key: string): Option<bool> {
    match Field(line, key)
    case None => None
    case Some(rest) => Some("true" <= rest)
  }

  function Text(line: string, key: string): Option<string> {
    match Field(line, key)
    case None => None
    case Some(rest) => if rest != [] && rest[0] == '"' then Unescaped(rest[1..]) else None
  }

  /** `string`: one character at a time, the one after a backslash taken as it is. */
  method ReadText(line: string, key: string) returns (r: Option<string>)
    ensures r == Text(line, key)
  {
    var f := Field(line, key);
    if f.None? || f.value == [] || f.value[0] != '"' {
      return None;
    }
    var rest, out := f.value[1..], [];
    PrependTwice([], [], Unescaped(rest));
    while rest != []
      invariant Text(line, key) == Prepend(out, Unescaped(rest))
      decreases |rest|
    {
      var c := rest[0];
      if c == '\\' {
        if |rest| == 1 {
          return None;
        }
        PrependTwice(out, [rest[1]], Unescaped(rest[2..]));
        out, rest := out + [rest[1]], rest[2..];
      } else if c == '"' {
        assert out + [] == out;
        return Some(out);
      } else {
        PrependTwice(out, [c], Unescaped(rest[1..]));
        out, rest := out + [c], rest[1..];
      }
    }
    return None;
  }

  // ---- The printed line ----

  function Flag(b: bool): string {
    if b then "true" else "false"
  }

  /** A line as printed: who asked for what, then what came of it, then what it cost. */
  function ToLine(s: Sample): string {
    "{" + ("\"t\":" + Render(s.ts) + ","
    + ("\"m\":\"" + Esc(s.verb) + "\","
    + ("\"h\":\"" + Esc(s.host) + "\","
    + ("\"p\":\"" + Esc(s.path) + "\","
    + ("\"q\":\"" + Esc(s.query) + "\"," + Outcome(s))))))
  }

  function Outcome(s: Sample): string {
    "\"c\":" + Flag(s.cookie) + ","
    + ("\"sc\":" + Flag(s.setCookie) + ","
    + ("\"s\":" + Render(s.status) + "," + Cost(s)))
  }

  function Cost(s: Sample): string {
    "\"b\":" + Render(s.bytes) + ","
    + ("\"u\":" + Render(s.php) + ","
    + ("\"x\":" + Render(s.hash) + ","
    + ("\"o\":" + Flag(s.optedIn) + "}")))
  }

  /** A line as read back; `None` when a field is missing or malformed. */
  function FromLine(line: string): Option<Sample> {
    var ts, status, bytes := Num(line, "\"t\":"), Num(line, "\"s\":"), Num(line, "\"b\":");
    var php, hash := Num(line, "\"u\":"), Num(line, "\"x\":");
    var verb, host, path := Text(line, "\"m\":"), Text(line, "\"h\":"), Text(line, "\"p\":");
    var query := Text(line, "\"q\":");
    var cookie, setCookie, optedIn := Boolean(line, "\"c\":"), Boolean(line, "\"sc\":"), Boolean(line, "\"o\":");
    if ts.None? || verb.None? || host.None? || path.None? || cookie.None? || setCookie.None? || status.None?
       || bytes.None? || php.None? || hash.None? || optedIn.None? then None
    else Some(Sample(ts.value, verb.value, host.value, path.value, if query.Some? then query.value else "",
                     cookie.value, setCookie.value, status.value % 65536, bytes.value, php.value, hash.value, optedIn.value))
  }

  // ---- The line as a list of fields ----

  datatype Val = Number(n: u64) | Truth(b: bool) | Quoted(v: string)

  datatype Item = Item(name: string, val: Val)

  function ValText(v: Val): string {
    match v
    case Number(n) => Render(n)
    case Truth(b) => Flag(b)
    case Quoted(t) => ['"'] + Esc(t) + ['"']
  }

  function Key(name: string): string {
    ['"'] + name + ['"', ':']
  }

  function ItemText(it: Item, last: bool): string {
    Key(it.name) + ValText(it.val) + (if last then "}" else ",")
  }

  function Body(items: seq<Item>): string {
    if items == [] then "" else ItemText(items[0], |items| == 1) + Body(items[1..])
  }

  predicate IsLetter(c: char) {
    'a' <= c <= 'z'
  }

  predicate IsName(s: string) {
    s != [] && forall i | 0 <= i < |s| :: IsLetter(s[i])
  }

  predicate Names(items: seq<Item>) {
    && (forall i | 0 <= i < |items| :: IsName(items[i].name))
    && forall i, j | 0 <= i < j < |items| :: items[i].name != items[j].name
  }

  /** No occurrence of `key` begins inside the first part of `a + b`. */
  ghost predicate FreeOf(a: string, b: string, key: string) {
    forall i | 0 <= i < |a| :: !At(a + b, key, i)
  }

  lemma AtShifts(a: string, b: string, key: string, i: nat)
    ensures At(a + b, key, |a| + i) <==> At(b, key, i)
  {
    if i + |key| <= |b| {
      assert (a + b)[|a| + i..|a| + i + |key|] == b[i..i + |key|];
    }
  }

  /** A search passes over such a part. */
  lemma FieldSkips(a: string, b: string, key: string)
    requires FreeOf(a, b, key)
    ensures Field(a + b, key) == Field(b, key)
  {
    hide At;
    var x, y := FindFrom(a + b, key, 0), FindFrom(b, key, 0);
    if y.Some? {
      AtShifts(a, b, key, y.value);
    }
    if x.Some? {
      assert |a| <= x.value;
      AtShifts(a, b, key, x.value - |a|);
      assert x.value == |a| + y.value;
      FoundFits(b, key, y.value);
      assert (a + b)[x.value + |key|..] == b[y.value + |key|..];
    }
  }

  lemma FoundFits(s: string, key: string, i: nat)
    requires At(s, key, i)
    ensures i + |key| <= |s|
  {
  }

  lemma FieldHere(key: string, b: string)
    ensures Field(key + b, key) == Some(b)
  {
    assert At(key + b, key, 0);
    assert (key + b)[|key|..] == b;
  }

  /** One wrong character, or the end of the text, rules out an occurrence. */
  lemma Mismatch(s: string, name: string, i: nat, j: nat)
    requires j < |Key(name)| && (i + j < |s| ==> s[i + j] != Key(name)[j])
    ensures !At(s, Key(name), i)
  {
    var k := Key(name);
    if i + |k| <= |s| {
      var t := s[i..i + |k|];
      assert t[j] == s[i + j];
    }
  }

  lemma KeyChars(name: string)
    ensures var k := Key(name);
      && |k| == |name| + 3 && k[0] == '"' && k[|name| + 1] == '"' && k[|name| + 2] == ':'
      && forall j | 0 <= j < |name| :: k[1 + j] == name[j]
  {
  }

  /** Where two different names first differ, closing quotes included. */
  lemma NamesDiffer(m: string, n: string) returns (j: nat)
    requires IsName(m) && IsName(n) && m != n
    ensures 0 < j <= |m| + 1 && j <= |n| + 1 && Key(m)[j] != Key(n)[j]
  {
    KeyChars(m);
    KeyChars(n);
    if |m| < |n| {
      j := |m| + 1;
      assert Key(n)[1 + |m|] == n[|m|];
    } else if |n| < |m| {
      j := |n| + 1;
      assert Key(m)[1 + |n|] == m[|n|];
    } else {
      var d :| 0 <= d < |m| && m[d] != n[d];
      j := d + 1;
      assert Key(m)[1 + d] == m[d] && Key(n)[1 + d] == n[d];
    }
  }

  /** No other key begins where a key is printed. */
  lemma NotInKey(s: string, m: string, name: string, i: nat)
    requires IsName(m) && IsName(name) && m != name && Key(m) <= s && i < |Key(m)|
    ensures !At(s, Key(name), i)
  {
    hide Key;
    KeyChars(m);
    KeyChars(name);
    if i == 0 {
      var j := NamesDiffer(m, name);
      Mismatch(s, name, i, j);
    } else if i == |m| + 1 {
      assert Key(name)[1 + 0] == name[0];
      Mismatch(s, name, i, 1);
    } else {
      assert i <= |m| ==> Key(m)[1 + (i - 1)] == m[i - 1];
      Mismatch(s, name, i, 0);
    }
  }

  /** A key and what follows, in which no quote occurs. */
  lemma PlainFree(m: string, plain: string, b: string, name: string)
    requires IsName(m) && IsName(name) && m != name && '"' !in plain
    ensures FreeOf(Key(m) + plain, b, Key(name))
  {
    hide Key;
    KeyChars(name);
    var s := Key(m) + plain + b;
    forall i | 0 <= i < |Key(m) + plain|
      ensures !At(s, Key(name), i)
    {
      if i < |Key(m)| {
        NotInKey(s, m, name, i);
      } else {
        assert s[i] == plain[i - |Key(m)|];
        Mismatch(s, name, i, 0);
      }
    }
  }

  /** Behind a quote in a quoted string no name can be followed by a quote and a colon: the quote
      would have to be escaped, or be the closing one, which a comma or brace follows. */
  lemma NotInString(s: string, v: string, name: string, at: nat, i: nat)
    requires IsName(name) && at + |Esc(v)| + 1 < |s| && s[at..at + |Esc(v)|] == Esc(v)
    requires s[at + |Esc(v)|] == '"' && s[at + |Esc(v)| + 1] in {',', '}'}
    requires at <= i + 1 <= at + |Esc(v)| + 1
    ensures !At(s, Key(name), i)
  {
    hide Key, Esc, At;
    KeyChars(name);
    var n, q := |name|, at + |Esc(v)|;
    assert forall p | at <= p < q :: s[p] == Esc(v)[p - at];
    var e := i + n + 1;
    if e < q {
      if s[e] == '"' {
        QuotesEscaped(v, e - at);
        assert s[e - 1] == '\\';
        assert Key(name)[1 + (n - 1)] == name[n - 1];
        Mismatch(s, name, i, n);
      } else {
        Mismatch(s, name, i, n + 1);
      }
    } else if e == q {
      Mismatch(s, name, i, n + 2);
    } else {
      assert i < q ==> Key(name)[1 + (q - i - 1)] == name[q - i - 1];
      assert i == q ==> Key(name)[1 + 0] == name[0];
      Mismatch(s, name, i, if i == q then 1 else q - i);
    }
  }

  /** A key and a quoted string, up to the comma or brace behind it. */
  lemma StringFree(m: string, v: string, end: char, b: string, name: string)
    requires IsName(m) && IsName(name) && m != name && end in {',', '}'}
    ensures FreeOf(Key(m) + (['"'] + Esc(v) + ['"']) + [end], b, Key(name))
  {
    hide Key, Esc, At;
    KeyChars(name);
    var k := |Key(m)|;
    var a := Key(m) + (['"'] + Esc(v) + ['"']) + [end];
    var s := a + b;
    assert s[k + 1..k + 1 + |Esc(v)|] == Esc(v);
    assert s[k + 1 + |Esc(v)|] == '"' && s[k + 2 + |Esc(v)|] == end;
    forall i | 0 <= i < |a|
      ensures !At(s, Key(name), i)
    {
      if i < k {
        NotInKey(s, m, name, i);
      } else if i < |a| - 1 {
        NotInString(s, v, name, k + 1, i);
      } else {
        Mismatch(s, name, i, 0);
      }
    }
  }

  lemma NoQuoteInNumber(n: u64)
    ensures '"' !in Render(n)
  {
    RenderedDigits(n);
  }

  lemma ItemFree(it: Item, last: bool, b: string, name: string)
    requires IsName(it.name) && IsName(name) && it.name != name
    ensures FreeOf(ItemText(it, last), b, Key(name))
  {
    hide FreeOf, Key, Esc, Render;
    var end := if last then "}" else ",";
    match it.val
    case Quoted(v) => StringFree(it.name, v, end[0], b, name);
    case Number(n) =>
      NoQuoteInNumber(n);
      PlainFree(it.name, Render(n) + end, b, name);
      assert ItemText(it, last) == Key(it.name) + (Render(n) + end);
    case Truth(t) =>
      PlainFree(it.name, Flag(t) + end, b, name);
      assert ItemText(it, last) == Key(it.name) + (Flag(t) + end);
  }

  /** What stands behind the key of item `n`. */
  function Behind(items: seq<Item>, n: nat): string
    requires n < |items|
  {
    ValText(items[n].val) + (if n == |items| - 1 then "}" else ",") + Body(items[n + 1..])
  }

  /** Every search for a key lands on the real one, whatever the strings before it contain. */
  lemma {:induction false} Located(items: seq<Item>, n: nat)
    requires Names(items) && n < |items|
    ensures Field(Body(items), Key(items[n].name)) == Some(Behind(items, n))
    decreases n
  {
    hide Field, Key, ValText, IsName, FreeOf;
    var name, head, tail := items[n].name, ItemText(items[0], |items| == 1), items[1..];
    if n == 0 {
      assert Body(items) == Key(name) + Behind(items, 0);
      FieldHere(Key(name), Behind(items, 0));
    } else {
      ItemFree(items[0], |items| == 1, Body(tail), name);
      FieldSkips(head, Body(tail), Key(name));
      assert tail[n - 1] == items[n] && tail[n..] == items[n + 1..];
      Located(tail, n - 1);
    }
  }

  /** The line begins with a brace, which no key does. */
  lemma LocatedInLine(items: seq<Item>, n: nat)
    requires Names(items) && n < |items|
    ensures Field("{" + Body(items), Key(items[n].name)) == Some(Behind(items, n))
  {
    hide Field, Body, Behind;
    var name := items[n].name;
    Located(items, n);
    forall i | 0 <= i < |"{"|
      ensures !At("{" + Body(items), Key(name), i)
    {
      Mismatch("{" + Body(items), name, 0, 0);
    }
    FieldSkips("{", Body(items), Key(name));
  }

  // ---- Reading a value back ----

  lemma {:induction false} EndAfter(p: string, z: string, i: nat)
    requires i <= |p| && (forall j | i <= j < |p| :: p[j] !in {',', '}'}) && z != [] && z[0] in {',', '}'}
    ensures EndFrom(p + z, i) == Some(|p|)
    decreases |p| - i
  {
    if i < |p| {
      EndAfter(p, z, i + 1);
    }
  }

  lemma NumberReadBack(line: string, key: string, n: u64, z: string)
    requires z != [] && z[0] in {',', '}'} && Field(line, key) == Some(Render(n) + z)
    ensures Num(line, key) == Some(n)
  {
    hide Field, Render;
    RenderedDigits(n);
    EndAfter(Render(n), z, 0);
    assert (Render(n) + z)[..|Render(n)|] == Render(n);
    ParseUndoesRender(n);
  }

  lemma FlagReadBack(line: string, key: string, b: bool, z: string)
    requires Field(line, key) == Some(Flag(b) + z)
    ensures Boolean(line, key) == Some(b)
  {
    hide Field;
    var rest := Flag(b) + z;
    assert rest[0] == if b then 't' else 'f';
  }

  lemma TextReadBack(line: string, key: string, v: string, z: string)
    requires Field(line, key) == Some(['"'] + Esc(v) + ['"'] + z)
    ensures Text(line, key) == Some(Clean(v))
  {
    hide Field, Esc;
    var rest := ['"'] + Esc(v) + ['"'] + z;
    assert rest[1..] == Esc(v) + (['"'] + z);
    UnescapeUndoesEsc(v, z);
  }

  /** Item `n` of a line reads back as what was printed, its control characters aside. */
  ghost predicate ReadsBack(line: string, it: Item) {
    match it.val
    case Number(n) => Num(line, Key(it.name)) == Some(n)
    case Truth(b) => Boolean(line, Key(it.name)) == Some(b)
    case Quoted(v) => Text(line, Key(it.name)) == Some(Clean(v))
  }

  lemma ItemReadBack(items: seq<Item>, n: nat)
    requires Names(items) && n < |items|
    ensures ReadsBack("{" + Body(items), items[n])
  {
    hide Field, Render, Esc, Key, Names, Num, Boolean, Text, Body;
    var line, key := "{" + Body(items), Key(items[n].name);
    var end := if n == |items| - 1 then "}" else ",";
    var z := end + Body(items[n + 1..]);
    assert z[0] == end[0];
    LocatedInLine(items, n);
    assert Behind(items, n) == ValText(items[n].val) + z;
    match items[n].val
    case Number(k) => NumberReadBack(line, key, k, z);
    case Truth(b) => FlagReadBack(line, key, b, z);
    case Quoted(v) => TextReadBack(line, key, v, z);
  }

  // ---- The round trip ----

  function Items(s: Sample): seq<Item> {
    [Item("t", Number(s.ts)), Item("m", Quoted(s.verb)), Item("h", Quoted(s.host)), Item("p", Quoted(s.path)),
     Item("q", Quoted(s.query)), Item("c", Truth(s.cookie)), Item("sc", Truth(s.setCookie)),
     Item("s", Number(s.status)), Item("b", Number(s.bytes)), Item("u", Number(s.php)), Item("x", Number(s.hash)),
     Item("o", Truth(s.optedIn))]
  }

  lemma NamesDistinct(s: Sample)
    ensures Names(Items(s))
  {
  }

  lemma BodyFrom(items: seq<Item>, k: nat)
    requires k < |items|
    ensures Body(items[k..]) == ItemText(items[k], k == |items| - 1) + Body(items[k + 1..])
  {
    assert items[k..][1..] == items[k + 1..];
  }

  lemma PlainItem(name: string, text: string, head: string, items: seq<Item>, k: nat)
    requires k < |items| && items[k].name == name && ValText(items[k].val) == text && head == Key(name)
    ensures Body(items[k..]) == head + text + (if k == |items| - 1 then "}" else ",") + Body(items[k + 1..])
  {
    hide Body, ValText;
    BodyFrom(items, k);
  }

  lemma QuotedItem(name: string, v: string, head: string, items: seq<Item>, k: nat)
    requires k < |items| - 1 && items[k] == Item(name, Quoted(v)) && head == Key(name) + ['"']
    ensures Body(items[k..]) == head + Esc(v) + "\"," + Body(items[k + 1..])
  {
    hide Body, Esc;
    BodyFrom(items, k);
    assert Key(name) + (['"'] + Esc(v) + ['"']) + "," == head + Esc(v) + "\",";
  }

  lemma CostIsBody(s: Sample, it: seq<Item>)
    requires |it| == 12
    requires it[8] == Item("b", Number(s.bytes))
    requires it[9] == Item("u", Number(s.php))
    requires it[10] == Item("x", Number(s.hash))
    requires it[11] == Item("o", Truth(s.optedIn))
    ensures Body(it[8..]) == Cost(s)
  {
    hide Esc, Render, Flag, Body, Outcome;
    PlainItem("o", Flag(s.optedIn), "\"o\":", it, 11);
    PlainItem("x", Render(s.hash), "\"x\":", it, 10);
    PlainItem("u", Render(s.php), "\"u\":", it, 9);
    PlainItem("b", Render(s.bytes), "\"b\":", it, 8);
    NothingLeft();
    assert it[12..] == [];
  }

  lemma OutcomeIsBody(s: Sample, it: seq<Item>)
    requires |it| == 12
    requires it[5] == Item("c", Truth(s.cookie))
    requires it[6] == Item("sc", Truth(s.setCookie))
    requires it[7] == Item("s", Number(s.status))
    ensures Body(it[8..]) == Cost(s) ==> Body(it[5..]) == Outcome(s)
  {
    hide Esc, Render, Flag, Body, Cost;
    PlainItem("s", Render(s.status), "\"s\":", it, 7);
    PlainItem("sc", Flag(s.setCookie), "\"sc\":", it, 6);
    PlainItem("c", Flag(s.cookie), "\"c\":", it, 5);
  }

  lemma WholeIsBody(s: Sample, it: seq<Item>)
    requires |it| == 12
    requires it[0] == Item("t", Number(s.ts))
    requires it[1] == Item("m", Quoted(s.verb))
    requires it[2] == Item("h", Quoted(s.host))
    requires it[3] == Item("p", Quoted(s.path))
    requires it[4] == Item("q", Quoted(s.query))
    ensures Body(it[5..]) == Outcome(s) ==> "{" + Body(it) == ToLine(s)
  {
    hide Esc, Render, Flag, Body, Outcome, Cost;
    QuotedItem("q", s.query, "\"q\":\"", it, 4);
    QuotedItem("p", s.path, "\"p\":\"", it, 3);
    QuotedItem("h", s.host, "\"h\":\"", it, 2);
    QuotedItem("m", s.verb, "\"m\":\"", it, 1);
    PlainItem("t", Render(s.ts), "\"t\":", it, 0);
    assert it[0..] == it;
  }

  lemma LineIsBody(s: Sample)
    ensures ToLine(s) == "{" + Body(Items(s))
  {
    hide Esc, Render, Flag, Body, Outcome, Cost, ToLine;
    var it := Items(s);
    CostIsBody(s, it);
    OutcomeIsBody(s, it);
    WholeIsBody(s, it);
  }

  lemma NothingLeft()
    ensures Body([]) == ""
  {
  }

  /** A sample as it comes back: control characters in its strings are spaces. */
  function Cleaned(s: Sample): Sample {
    s.(verb := Clean(s.verb), host := Clean(s.host), path := Clean(s.path), query := Clean(s.query))
  }

  lemma {:induction false} AllReadBack(s: Sample)
    ensures forall i | 0 <= i < |Items(s)| :: ReadsBack(ToLine(s), Items(s)[i])
  {
    hide ReadsBack, Items, ToLine, Body;
    NamesDistinct(s);
    LineIsBody(s);
    forall i | 0 <= i < |Items(s)|
      ensures ReadsBack(ToLine(s), Items(s)[i])
    {
      ItemReadBack(Items(s), i);
    }
  }

  /** Reading undoes printing, for every sample, whatever its strings contain. */
  lemma ReadUndoesPrint(s: Sample)
    ensures FromLine(ToLine(s)) == Some(Cleaned(s))
  {
    hide Num, Text, Boolean, ToLine, Clean;
    var line := ToLine(s);
    assert Key("t") == "\"t\":" && Key("m") == "\"m\":" && Key("h") == "\"h\":" && Key("p") == "\"p\":";
    assert Key("q") == "\"q\":" && Key("c") == "\"c\":" && Key("sc") == "\"sc\":" && Key("s") == "\"s\":";
    assert Key("b") == "\"b\":" && Key("u") == "\"u\":" && Key("x") == "\"x\":" && Key("o") == "\"o\":";
    AllReadBack(s);
    assert ReadsBack(line, Items(s)[0]) && ReadsBack(line, Items(s)[1]) && ReadsBack(line, Items(s)[2]);
    assert ReadsBack(line, Items(s)[3]) && ReadsBack(line, Items(s)[4]) && ReadsBack(line, Items(s)[5]);
    assert ReadsBack(line, Items(s)[6]) && ReadsBack(line, Items(s)[7]) && ReadsBack(line, Items(s)[8]);
    assert ReadsBack(line, Items(s)[9]) && ReadsBack(line, Items(s)[10]) && ReadsBack(line, Items(s)[11]);
  }

  // ---- A file of lines ----

  predicate OneLine(s: string) {
    forall i | 0 <= i < |s| :: !IsControl(s[i])
  }

  lemma ItemOnOneLine(it: Item, last: bool)
    requires IsName(it.name)
    ensures OneLine(ItemText(it, last))
  {
    hide Render, Esc;
    match it.val
    case Number(n) => RenderedDigits(n);
    case Truth(b) =>
    case Quoted(v) =>
      forall i | 0 <= i < |Esc(v)|
        ensures !IsControl(Esc(v)[i])
      {
        EscHasNoControl(v, i);
      }
  }

  lemma {:induction false} BodyOnOneLine(items: seq<Item>)
    requires forall i | 0 <= i < |items| :: IsName(items[i].name)
    ensures OneLine(Body(items))
  {
    if items != [] {
      hide ItemText, IsName;
      ItemOnOneLine(items[0], |items| == 1);
      BodyOnOneLine(items[1..]);
    }
  }

  /** Whatever a request contains, it is printed on one line. */
  lemma PrintsOneLine(s: Sample)
    ensures OneLine(ToLine(s)) && ToLine(s) != []
  {
    hide Body, ToLine, Items;
    NamesDistinct(s);
    LineIsBody(s);
    BodyOnOneLine(Items(s));
  }

  function LineEnd(text: string): (n: nat)
    ensures n <= |text| && (forall i | 0 <= i < n :: text[i] != '\n') && (n < |text| ==> text[n] == '\n')
  {
    if text == [] || text[0] == '\n' then 0 else 1 + LineEnd(text[1..])
  }

  /** The lines of a text, as the standard library splits them: the last needs no line feed, and a
      carriage return before a line feed is dropped. */
  function Lines(text: string): seq<string> {
    if text == [] then []
    else
      var n := LineEnd(text);
      if n == |text| then [text]
      else [if 0 < n && text[n - 1] == '\r' then text[..n - 1] else text[..n]] + Lines(text[n + 1..])
  }

  function FilterLines(lines: seq<string>): seq<Sample> {
    if lines == [] then []
    else
      var s := FromLine(lines[0]);
      (if s.Some? then [s.value] else []) + FilterLines(lines[1..])
  }

  function PrintAll(samples: seq<Sample>): string {
    if samples == [] then "" else ToLine(samples[0]) + "\n" + PrintAll(samples[1..])
  }

  function CleanedAll(samples: seq<Sample>): (r: seq<Sample>)
    ensures |r| == |samples| && forall i | 0 <= i < |samples| :: r[i] == Cleaned(samples[i])
  {
    seq(|samples|, i requires 0 <= i < |samples| => Cleaned(samples[i]))
  }

  lemma FirstLine(line: string, rest: string)
    requires OneLine(line)
    ensures Lines(line + "\n" + rest) == [line] + Lines(rest)
  {
    var text := line + "\n" + rest;
    var n := LineEnd(text);
    assert text[|line|] == '\n' && forall i | 0 <= i < |line| :: text[i] == line[i];
    assert n == |line|;
    assert text[..n] == line && text[n + 1..] == rest;
  }

  lemma FilterFirst(line: string, rest: seq<string>, s: Sample)
    requires FromLine(line) == Some(s)
    ensures FilterLines([line] + rest) == [s] + FilterLines(rest)
  {
    hide FromLine;
    assert ([line] + rest)[1..] == rest;
  }

  lemma CleanedSplits(samples: seq<Sample>)
    ensures CleanedAll([]) == []
    ensures samples != [] ==> CleanedAll(samples) == [Cleaned(samples[0])] + CleanedAll(samples[1..])
  {
    hide Cleaned;
  }

  lemma NothingRead()
    ensures FilterLines(Lines("")) == []
  {
    hide FromLine;
  }

  /** A log of printed samples is read back as those samples, in their order. */
  lemma {:induction false} LogReadBack(samples: seq<Sample>)
    ensures FilterLines(Lines(PrintAll(samples))) == CleanedAll(samples)
  {
    hide FromLine, ToLine, Lines, Cleaned, OneLine, FilterLines, CleanedAll;
    CleanedSplits(samples);
    if samples == [] {
      NothingRead();
    } else {
      var line, rest := ToLine(samples[0]), PrintAll(samples[1..]);
      PrintsOneLine(samples[0]);
      FirstLine(line, rest);
      ReadUndoesPrint(samples[0]);
      FilterFirst(line, Lines(rest), Cleaned(samples[0]));
      LogReadBack(samples[1..]);
    }
  }
}
