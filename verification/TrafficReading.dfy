/** Which lines the traffic log's reader accepts, and as what: the texts each field may be written as. */
module TrafficReading {
  import opened Common
  import opened TrafficLog

  // ---- Numbers ----

  /** The number in decimal, with any zeros before it and perhaps a plus. */
  predicate Spelled(t: string, plus: bool, zeros: nat, n: nat) {
    t == (if plus then "+" else "") + Repeat('0', zeros) + Render(n)
  }

  lemma {:induction false} ZerosAreNothing(zeros: nat, s: string)
    requires AllDigits(s)
    ensures AllDigits(Repeat('0', zeros) + s) && DigitsValue(Repeat('0', zeros) + s) == DigitsValue(s)
    decreases |s| + zeros
  {
    var t := Repeat('0', zeros) + s;
    if s != [] {
      ZerosAreNothing(zeros, s[..|s| - 1]);
      assert t[..|t| - 1] == Repeat('0', zeros) + s[..|s| - 1];
    } else if 0 < zeros {
      ZerosAreNothing(zeros - 1, []);
      assert t[..|t| - 1] == Repeat('0', zeros - 1) + [];
    }
  }

  lemma {:induction false} DigitsAreSpelled(d: string) returns (zeros: nat)
    requires d != [] && AllDigits(d)
    ensures d == Repeat('0', zeros) + Render(DigitsValue(d))
    decreases |d|
  {
    var init, c := d[..|d| - 1], d[|d| - 1];
    if init == [] {
      zeros := 0;
      assert d == [c] && DigitsValue(init) == 0;
    } else {
      zeros := DigitsAreSpelled(init);
      var m := DigitsValue(init);
      assert d == init + [c];
      if m == 0 {
        assert Render(0) == ['0'];
        assert init == Repeat('0', zeros + 1);
        zeros := zeros + 1;
      } else {
        assert DigitsValue(d) / 10 == m && Render(DigitsValue(d)) == Render(m) + [c];
      }
    }
  }

  ghost predicate WritesNumber(t: string, n: nat) {
    exists plus, zeros: nat :: Spelled(t, plus, zeros, n)
  }

  lemma NumberStarts(zeros: nat, n: nat)
    ensures var d := Repeat('0', zeros) + Render(n); d != [] && d[0] != '+' && AllDigits(d) && DigitsValue(d) == n
  {
    RenderedDigits(n);
    ZerosAreNothing(zeros, Render(n));
  }

  lemma SpelledIsParsed(t: string, plus: bool, zeros: nat, n: u64)
    requires Spelled(t, plus, zeros, n)
    ensures ParseU64(t) == Some(n)
  {
    NumberStarts(zeros, n);
    hide DigitsValue, Render, AllDigits;
    var d := Repeat('0', zeros) + Render(n);
    if plus {
      assert t == ['+'] + d && t[1..] == d;
    } else {
      assert t == d;
    }
  }

  lemma ParsedIsSpelled(t: string) returns (zeros: nat)
    requires ParseU64(t).Some?
    ensures t != [] && Spelled(t, t[0] == '+', zeros, ParseU64(t).value)
  {
    hide DigitsValue, Render, AllDigits;
    var d := if t != [] && t[0] == '+' then t[1..] else t;
    zeros := DigitsAreSpelled(d);
    var n := ParseU64(t).value;
    if t[0] == '+' {
      assert t == ['+'] + d;
      assert t == "+" + Repeat('0', zeros) + Render(n);
    } else {
      assert t == "" + Repeat('0', zeros) + Render(n);
    }
  }

  /** A number is read exactly from its decimal texts. */
  lemma ParsesIff(t: string, n: u64)
    ensures ParseU64(t) == Some(n) <==> WritesNumber(t, n)
  {
    hide ParseU64, Spelled;
    if ParseU64(t) == Some(n) {
      var zeros := ParsedIsSpelled(t);
    }
    if plus, zeros: nat :| Spelled(t, plus, zeros, n) {
      SpelledIsParsed(t, plus, zeros, n);
    }
  }

  // ---- Blanks ----

  predicate Blank(s: string) {
    forall i | 0 <= i < |s| :: IsSpace(s[i])
  }

  predicate Trimmed(t: string) {
    t == [] || (!IsSpace(t[0]) && !IsSpace(t[|t| - 1]))
  }

  lemma {:induction false} TrimIs(a: string, t: string, b: string)
    requires Blank(a) && Trimmed(t) && Blank(b)
    ensures Trim(a + t + b) == t
    decreases |a| + |b|
  {
    hide IsSpace;
    var s := a + t + b;
    if a != [] {
      TrimIs(a[1..], t, b);
      assert s[1..] == a[1..] + t + b;
    } else if b == [] {
      assert s == t;
    } else if t == [] {
      TrimIs([], [], b[1..]);
      assert s == b && s[1..] == [] + [] + b[1..];
    } else {
      TrimIs(a, t, b[..|b| - 1]);
      assert s[..|s| - 1] == a + t + b[..|b| - 1];
      assert s[0] == t[0] && s[|s| - 1] == b[|b| - 1];
    }
  }

  lemma TrimFront(s: string)
    requires s != [] && IsSpace(s[0])
    ensures Trim(s) == Trim(s[1..]) && s == [s[0]] + s[1..]
  {
  }

  lemma TrimBack(s: string)
    requires s != [] && !IsSpace(s[0]) && IsSpace(s[|s| - 1])
    ensures Trim(s) == Trim(s[..|s| - 1]) && s == s[..|s| - 1] + [s[|s| - 1]]
  {
  }

  lemma TrimNone(s: string)
    requires Trimmed(s)
    ensures Trim(s) == s
  {
  }

  lemma {:induction false} TrimParts(s: string) returns (a: string, b: string)
    ensures s == a + Trim(s) + b && Blank(a) && Trimmed(Trim(s)) && Blank(b)
    decreases |s|
  {
    hide IsSpace, Trim;
    if s != [] && IsSpace(s[0]) {
      TrimFront(s);
      var a', b' := TrimParts(s[1..]);
      a, b := [s[0]] + a', b';
      assert [s[0]] + (a' + Trim(s) + b') == a + Trim(s) + b;
    } else if s != [] && IsSpace(s[|s| - 1]) {
      TrimBack(s);
      var a', b' := TrimParts(s[..|s| - 1]);
      a, b := a', b' + [s[|s| - 1]];
      assert a' + Trim(s) + b' + [s[|s| - 1]] == a + Trim(s) + b;
    } else {
      TrimNone(s);
      a, b := [], [];
    }
  }

  // ---- Fields ----

  /** The line up to the first occurrence of the key, and what follows the key. */
  predicate SplitAt(line: string, key: string, before: string, rest: string) {
    line == before + key + rest && forall j | 0 <= j < |before| :: !At(line, key, j)
  }

  lemma SplitIsField(line: string, key: string, before: string, rest: string)
    requires SplitAt(line, key, before, rest)
    ensures Field(line, key) == Some(rest)
  {
    assert line[|before|..|before| + |key|] == key && line[|before| + |key|..] == rest;
    assert At(line, key, |before|);
  }

  lemma FieldIsSplit(line: string, key: string) returns (before: string)
    requires Field(line, key).Some?
    ensures SplitAt(line, key, before, Field(line, key).value)
  {
    var i := FindFrom(line, key, 0).value;
    before := line[..i];
  }

  /** A number's field: blanks may surround it, and a comma or brace ends it. */
  datatype NumberField = NumberField(before: string, blank: string, text: string, blank': string, end: char, rest: string)

  ghost predicate IsNumberField(line: string, key: string, n: nat, f: NumberField) {
    && SplitAt(line, key, f.before, f.blank + f.text + f.blank' + [f.end] + f.rest)
    && Blank(f.blank) && Blank(f.blank') && (f.end == ',' || f.end == '}') && WritesNumber(f.text, n)
  }

  lemma {:induction false} EndIs(s: string, i: nat, e: nat)
    requires i <= e < |s| && (s[e] == ',' || s[e] == '}') && forall k | i <= k < e :: s[k] != ',' && s[k] != '}'
    ensures EndFrom(s, i) == Some(e)
    decreases e - i
  {
    if i < e {
      EndIs(s, i + 1, e);
    }
  }

  lemma {:induction false} EndIsFirst(s: string, i: nat)
    requires i <= |s|
    ensures EndFrom(s, i).Some? ==> var e := EndFrom(s, i).value; (s[e] == ',' || s[e] == '}') && forall k | i <= k < e :: s[k] != ',' && s[k] != '}'
    decreases |s| - i
  {
    if i < |s| {
      EndIsFirst(s, i + 1);
    }
  }

  lemma NotSpace(c: char)
    requires c == '+' || IsDigit(c)
    ensures !IsSpace(c)
  {
    assert c == '+' ==> c as int == 43;
    assert IsDigit(c) ==> 48 <= c as int <= 57;
  }

  lemma SpelledPlainly(t: string, plus: bool, zeros: nat, n: nat, k: nat)
    requires Spelled(t, plus, zeros, n) && k < |t|
    ensures t[k] == '+' || IsDigit(t[k])
  {
    NumberStarts(zeros, n);
    hide DigitsValue, Render;
    var d := Repeat('0', zeros) + Render(n);
    if plus {
      assert t == ['+'] + d;
    } else {
      assert t == d;
    }
  }

  lemma SpellingIsPlain(t: string, n: nat)
    requires WritesNumber(t, n)
    ensures t != [] && Trimmed(t) && forall k | 0 <= k < |t| :: t[k] != ',' && t[k] != '}'
  {
    var plus, zeros: nat :| Spelled(t, plus, zeros, n);
    assert t != [] by { RenderedDigits(n); }
    hide Spelled, IsSpace;
    forall k | 0 <= k < |t|
      ensures !IsSpace(t[k]) && t[k] != ',' && t[k] != '}'
    {
      SpelledPlainly(t, plus, zeros, n, k);
      NotSpace(t[k]);
    }
  }

  lemma NumberFieldIsRead(line: string, key: string, n: u64, f: NumberField)
    requires IsNumberField(line, key, n, f)
    ensures Num(line, key) == Some(n)
  {
    hide WritesNumber, IsSpace;
    SpellingIsPlain(f.text, n);
    var s := f.blank + f.text + f.blank';
    var rest := s + [f.end] + f.rest;
    SplitIsField(line, key, f.before, rest);
    NoEnds(f.blank);
    NoEnds(f.blank');
    assert forall k | 0 <= k < |s| :: rest[k] == s[k] && s[k] != ',' && s[k] != '}';
    EndIs(rest, 0, |s|);
    assert rest[..|s|] == s;
    TrimIs(f.blank, f.text, f.blank');
    ParsesIff(f.text, n);
  }

  lemma NoEnds(s: string)
    requires Blank(s)
    ensures forall k | 0 <= k < |s| :: s[k] != ',' && s[k] != '}'
  {
    assert forall k | 0 <= k < |s| :: IsSpace(s[k]);
  }

  lemma ReadIsNumberField(line: string, key: string) returns (f: NumberField)
    requires Num(line, key).Some?
    ensures IsNumberField(line, key, Num(line, key).value, f)
  {
    hide WritesNumber, IsSpace, ParseU64;
    var before := FieldIsSplit(line, key);
    var rest := Field(line, key).value;
    var e := EndFrom(rest, 0).value;
    EndIsFirst(rest, 0);
    var a, b := TrimParts(rest[..e]);
    f := NumberField(before, a, Trim(rest[..e]), b, rest[e], rest[e + 1..]);
    assert rest == rest[..e] + [rest[e]] + rest[e + 1..];
    ParsesIff(f.text, Num(line, key).value);
  }

  ghost predicate HasNumber(line: string, key: string, n: nat) {
    exists f :: IsNumberField(line, key, n, f)
  }

  lemma NumberIff(line: string, key: string, n: u64)
    ensures Num(line, key) == Some(n) <==> HasNumber(line, key, n)
  {
    hide Num, IsNumberField;
    if Num(line, key) == Some(n) {
      var f := ReadIsNumberField(line, key);
    }
    if f :| IsNumberField(line, key, n, f) {
      NumberFieldIsRead(line, key, n, f);
    }
  }

  // ---- Texts ----

  /** The characters of `t`, each as it is or after a backslash; quotes and backslashes only after one. */
  predicate Escapes(e: string, t: string) {
    if t == [] then e == []
    else if 2 <= |e| && e[0] == '\\' then e[1] == t[0] && Escapes(e[2..], t[1..])
    else e != [] && e[0] != '\\' && e[0] != '"' && e[0] == t[0] && Escapes(e[1..], t[1..])
  }

  lemma {:induction false} EscapesIsRead(e: string, t: string, rest: string)
    requires Escapes(e, t)
    ensures Unescaped(e + ['"'] + rest) == Some(t)
    decreases |t|
  {
    var s := e + ['"'] + rest;
    if t != [] {
      var k := if e[0] == '\\' then 2 else 1;
      EscapesIsRead(e[k..], t[1..], rest);
      assert s[k..] == e[k..] + ['"'] + rest;
      assert t == [t[0]] + t[1..];
    }
  }

  lemma {:induction false} ReadIsEscapes(s: string) returns (e: string, rest: string)
    requires Unescaped(s).Some?
    ensures s == e + ['"'] + rest && Escapes(e, Unescaped(s).value)
    decreases |s|
  {
    if s[0] == '"' {
      e, rest := [], s[1..];
    } else {
      var k := if s[0] == '\\' then 2 else 1;
      e, rest := ReadIsEscapes(s[k..]);
      var t := Unescaped(s).value;
      assert t[1..] == Unescaped(s[k..]).value;
      var f := s[..k] + e;
      assert f[k..] == e && s == f + ['"'] + rest;
      e := f;
    }
  }

  datatype TextField = TextField(before: string, text: string, rest: string)

  predicate IsTextField(line: string, key: string, t: string, f: TextField) {
    SplitAt(line, key, f.before, ['"'] + f.text + ['"'] + f.rest) && Escapes(f.text, t)
  }

  ghost predicate HasText(line: string, key: string, t: string) {
    exists f :: IsTextField(line, key, t, f)
  }

  lemma TextFieldIsRead(line: string, key: string, t: string, f: TextField)
    requires IsTextField(line, key, t, f)
    ensures Text(line, key) == Some(t)
  {
    hide Escapes, SplitAt, Unescaped, Field;
    var s := ['"'] + f.text + ['"'] + f.rest;
    SplitIsField(line, key, f.before, s);
    EscapesIsRead(f.text, t, f.rest);
    assert s[1..] == f.text + ['"'] + f.rest;
  }

  lemma ReadIsTextField(line: string, key: string) returns (f: TextField)
    requires Text(line, key).Some?
    ensures IsTextField(line, key, Text(line, key).value, f)
  {
    hide Escapes, SplitAt, Unescaped, Field;
    var before := FieldIsSplit(line, key);
    var s := Field(line, key).value;
    var e, rest := ReadIsEscapes(s[1..]);
    assert s == ['"'] + e + ['"'] + rest;
    f := TextField(before, e, rest);
  }

  lemma TextIff(line: string, key: string, t: string)
    ensures Text(line, key) == Some(t) <==> HasText(line, key, t)
  {
    hide Text, IsTextField;
    if Text(line, key) == Some(t) {
      var f := ReadIsTextField(line, key);
    }
    if f :| IsTextField(line, key, t, f) {
      TextFieldIsRead(line, key, t, f);
    }
  }

  // ---- Truth values ----

  /** After the first occurrence of the key stands `true`, or something else. */
  ghost predicate HasTruth(line: string, key: string, b: bool) {
    exists before, rest :: SplitAt(line, key, before, rest) && (b <==> "true" <= rest)
  }

  lemma TruthIff(line: string, key: string, b: bool)
    ensures Boolean(line, key) == Some(b) <==> HasTruth(line, key, b)
  {
    hide SplitAt;
    if Boolean(line, key) == Some(b) {
      var before := FieldIsSplit(line, key);
    }
    if before, rest :| SplitAt(line, key, before, rest) && (b <==> "true" <= rest) {
      SplitIsField(line, key, before, rest);
    }
  }

  // ---- The line ----

  /** The line holds the sample, field by field, each where its key first occurs. The query may be missing or
      unreadable, and is then empty; a status is read modulo 65536. */
  ghost predicate Holds(line: string, s: Sample) {
    && HasNumber(line, "\"t\":", s.ts) && HasText(line, "\"m\":", s.verb) && HasText(line, "\"h\":", s.host)
    && HasText(line, "\"p\":", s.path)
    && (HasText(line, "\"q\":", s.query) || (s.query == "" && forall t :: !HasText(line, "\"q\":", t)))
    && HasTruth(line, "\"c\":", s.cookie) && HasTruth(line, "\"sc\":", s.setCookie)
    && (exists n: u64 :: HasNumber(line, "\"s\":", n) && n % 65536 == s.status)
    && HasNumber(line, "\"b\":", s.bytes) && HasNumber(line, "\"u\":", s.php) && HasNumber(line, "\"x\":", s.hash)
    && HasTruth(line, "\"o\":", s.optedIn)
  }

  /** What the reader makes of a line, one key at a time. */
  lemma KeyIff(line: string, key: string)
    ensures forall n: u64 :: Num(line, key) == Some(n) <==> HasNumber(line, key, n)
    ensures forall t :: Text(line, key) == Some(t) <==> HasText(line, key, t)
    ensures forall b :: Boolean(line, key) == Some(b) <==> HasTruth(line, key, b)
  {
    hide Num, Text, Boolean, HasNumber, HasText, HasTruth;
    forall n: u64
      ensures Num(line, key) == Some(n) <==> HasNumber(line, key, n)
    {
      NumberIff(line, key, n);
    }
    forall t
      ensures Text(line, key) == Some(t) <==> HasText(line, key, t)
    {
      TextIff(line, key, t);
    }
    forall b
      ensures Boolean(line, key) == Some(b) <==> HasTruth(line, key, b)
    {
      TruthIff(line, key, b);
    }
  }

  /** The reader makes a sample of a line exactly if the line holds it. */
  lemma ReadIff(line: string, s: Sample)
    ensures FromLine(line) == Some(s) <==> Holds(line, s)
  {
    hide Num, Text, Boolean, HasNumber, HasText, HasTruth;
    KeyIff(line, "\"t\":");
    KeyIff(line, "\"m\":");
    KeyIff(line, "\"h\":");
    KeyIff(line, "\"p\":");
    KeyIff(line, "\"q\":");
    KeyIff(line, "\"c\":");
    KeyIff(line, "\"sc\":");
    KeyIff(line, "\"s\":");
    KeyIff(line, "\"b\":");
    KeyIff(line, "\"u\":");
    KeyIff(line, "\"x\":");
    KeyIff(line, "\"o\":");
  }
}
