/** Text as bytes: well-formed UTF-8, and what the standard library makes of bytes that are not. */
module Text {
  import opened Common

  function Lower(b: byte): byte {
    if 65 <= b <= 90 then b + 32 else b
  }

  predicate Cont(b: byte) { 0x80 <= b <= 0xbf }

  /** The second byte may follow the first in a character of three bytes or four. */
  predicate Second(a: byte, b: byte) {
    && Cont(b) && (a == 0xe0 ==> 0xa0 <= b) && (a == 0xed ==> b <= 0x9f)
    && (a == 0xf0 ==> 0x90 <= b) && (a == 0xf4 ==> b <= 0x8f)
  }

  /** How many bytes the character at the front takes; 0 when it is not well-formed UTF-8. */
  function CharLen(s: Bytes): (n: nat)
    requires s != []
    ensures n <= |s|
  {
    if s[0] < 0x80 then 1
    else if 0xc2 <= s[0] <= 0xdf then if 2 <= |s| && Cont(s[1]) then 2 else 0
    else if 0xe0 <= s[0] <= 0xef then if 3 <= |s| && Second(s[0], s[1]) && Cont(s[2]) then 3 else 0
    else if 0xf0 <= s[0] <= 0xf4 then if 4 <= |s| && Second(s[0], s[1]) && Cont(s[2]) && Cont(s[3]) then 4 else 0
    else 0
  }

  predicate Utf8(s: Bytes)
    decreases |s|
  {
    s == [] || (CharLen(s) > 0 && Utf8(s[CharLen(s)..]))
  }

  // ---- UTF-8 as the encoding of characters ----

  /** A Unicode scalar value: no surrogates. */
  predicate Scalar(c: nat) {
    c < 0xd800 || 0xe000 <= c < 0x11_0000
  }

  /** The encoding of a character, as section 3 of RFC 3629 has it. */
  function Encode(c: nat): Bytes
    requires Scalar(c)
  {
    if c < 0x80 then [c as byte]
    else if c < 0x800 then [(0xc0 + c / 64) as byte, (0x80 + c % 64) as byte]
    else if c < 0x1_0000 then [(0xe0 + c / 4096) as byte, (0x80 + c / 64 % 64) as byte, (0x80 + c % 64) as byte]
    else [(0xf0 + c / 262144) as byte, (0x80 + c / 4096 % 64) as byte, (0x80 + c / 64 % 64) as byte, (0x80 + c % 64) as byte]
  }

  /** The character the first bytes stand for, by their low bits. */
  function Decode(s: Bytes): nat
    requires s != [] && 0 < CharLen(s)
  {
    var n := CharLen(s);
    if n == 1 then s[0] as nat
    else if n == 2 then (s[0] as nat - 0xc0) * 64 + (s[1] as nat - 0x80)
    else if n == 3 then (s[0] as nat - 0xe0) * 4096 + (s[1] as nat - 0x80) * 64 + (s[2] as nat - 0x80)
    else (s[0] as nat - 0xf0) * 262144 + (s[1] as nat - 0x80) * 4096 + (s[2] as nat - 0x80) * 64 + (s[3] as nat - 0x80)
  }

  /** A character's encoding is taken for one character, whatever follows, and read back as it. */
  lemma EncodedIsRead(c: nat, rest: Bytes)
    requires Scalar(c)
    ensures var s := Encode(c) + rest; CharLen(s) == |Encode(c)| && Decode(s) == c
  {
    var s := Encode(c) + rest;
    assert c == c / 64 * 64 + c % 64;
    assert c / 64 / 64 == c / 4096 && c / 4096 / 64 == c / 262144;
    assert c / 64 == c / 4096 * 64 + c / 64 % 64;
    assert c / 4096 == c / 262144 * 64 + c / 4096 % 64;
  }

  lemma SixBits(a: nat, b: nat)
    requires b < 64
    ensures (a * 64 + b) / 64 == a && (a * 64 + b) % 64 == b
  {
  }

  lemma ReadTwo(s: Bytes)
    requires s != [] && CharLen(s) == 2
    ensures Scalar(Decode(s)) && s[..2] == Encode(Decode(s))
  {
    SixBits(s[0] as nat - 0xc0, s[1] as nat - 0x80);
  }

  lemma ReadThree(s: Bytes)
    requires s != [] && CharLen(s) == 3
    ensures Scalar(Decode(s)) && s[..3] == Encode(Decode(s))
  {
    var a, b, d := s[0] as nat - 0xe0, s[1] as nat - 0x80, s[2] as nat - 0x80;
    var c := Decode(s);
    assert c == (a * 64 + b) * 64 + d;
    SixBits(a * 64 + b, d);
    SixBits(a, b);
    assert c / 4096 == c / 64 / 64;
  }

  lemma ReadFour(s: Bytes)
    requires s != [] && CharLen(s) == 4
    ensures Scalar(Decode(s)) && s[..4] == Encode(Decode(s))
  {
    var a, b, d, e := s[0] as nat - 0xf0, s[1] as nat - 0x80, s[2] as nat - 0x80, s[3] as nat - 0x80;
    var c := Decode(s);
    assert c == ((a * 64 + b) * 64 + d) * 64 + e;
    SixBits((a * 64 + b) * 64 + d, e);
    SixBits(a * 64 + b, d);
    SixBits(a, b);
    assert c / 4096 == c / 64 / 64 && c / 262144 == c / 64 / 64 / 64;
  }

  /** And whatever is taken for a character is a character's encoding. */
  lemma ReadIsEncoded(s: Bytes)
    requires s != [] && 0 < CharLen(s)
    ensures Scalar(Decode(s)) && s[..CharLen(s)] == Encode(Decode(s))
  {
    match CharLen(s)
    case 1 =>
    case 2 => ReadTwo(s);
    case 3 => ReadThree(s);
    case _ => LongestIsFour(s); ReadFour(s);
  }

  lemma LongestIsFour(s: Bytes)
    requires s != []
    ensures CharLen(s) <= 4
  {
  }

  /** The encodings of characters, one after another. */
  function EncodeAll(cs: seq<nat>): Bytes
    requires forall i | 0 <= i < |cs| :: Scalar(cs[i])
  {
    if cs == [] then [] else Encode(cs[0]) + EncodeAll(cs[1..])
  }

  ghost predicate IsText(s: Bytes) {
    exists cs: seq<nat> :: (forall i | 0 <= i < |cs| :: Scalar(cs[i])) && EncodeAll(cs) == s
  }

  lemma {:induction false} EncodedIsUtf8(cs: seq<nat>)
    requires forall i | 0 <= i < |cs| :: Scalar(cs[i])
    ensures Utf8(EncodeAll(cs))
  {
    hide CharLen, Encode, Decode;
    if cs != [] {
      EncodedIsUtf8(cs[1..]);
      EncodeSome(cs[0]);
      EncodedIsRead(cs[0], EncodeAll(cs[1..]));
      var s := EncodeAll(cs);
      assert s[|Encode(cs[0])|..] == EncodeAll(cs[1..]);
    }
  }

  lemma EncodeSome(c: nat)
    requires Scalar(c)
    ensures 0 < |Encode(c)|
  {
  }

  lemma {:induction false} Utf8IsEncoded(s: Bytes) returns (cs: seq<nat>)
    requires Utf8(s)
    ensures (forall i | 0 <= i < |cs| :: Scalar(cs[i])) && EncodeAll(cs) == s
    decreases |s|
  {
    hide CharLen, Encode, Decode;
    if s == [] {
      cs := [];
    } else {
      ReadIsEncoded(s);
      var more := Utf8IsEncoded(s[CharLen(s)..]);
      cs := [Decode(s)] + more;
      assert cs[1..] == more && s == s[..CharLen(s)] + s[CharLen(s)..];
    }
  }

  /** Well-formed UTF-8 is exactly what encodes a sequence of characters. */
  lemma Utf8IffEncodes(s: Bytes)
    ensures Utf8(s) <==> IsText(s)
  {
    hide Utf8, EncodeAll;
    if Utf8(s) {
      var cs := Utf8IsEncoded(s);
    }
    if cs: seq<nat> :| (forall i | 0 <= i < |cs| :: Scalar(cs[i])) && EncodeAll(cs) == s {
      EncodedIsUtf8(cs);
    }
  }

  const UPPER_CASE: string := "ABCDEFGHIJKLMNOPQRSTUVWXYZ"
  const LOWER_CASE: string := "abcdefghijklmnopqrstuvwxyz"

  /** Each capital letter becomes its small one, and every other byte stays. */
  lemma LowerIsLetterwise(b: byte)
    ensures forall i | 0 <= i < 26 :: b as int == UPPER_CASE[i] as int ==> Lower(b) as int == LOWER_CASE[i] as int
    ensures (forall i | 0 <= i < 26 :: b as int != UPPER_CASE[i] as int) ==> Lower(b) == b
  {
    assert forall i | 0 <= i < 26 :: UPPER_CASE[i] as int == 65 + i && LOWER_CASE[i] as int == 97 + i;
    assert 65 <= b as int < 91 ==> b as int == UPPER_CASE[b as int - 65] as int;
  }

  /** How many bytes at the front are given up together when no character begins there: the longest
      beginning of one. */
  function BadLen(s: Bytes): (n: nat)
    requires s != []
    ensures 0 < n <= |s|
  {
    if !(0xe0 <= s[0] <= 0xf4) || |s| == 1 || !Second(s[0], s[1]) then 1
    else if s[0] < 0xf0 || |s| == 2 || !Cont(s[2]) then 2
    else if |s| == 3 || !Cont(s[3]) then 3 else 1
  }

  /** These bytes begin a character, given the right ones to follow. */
  ghost predicate Begins(u: Bytes) {
    exists t: Bytes :: u + t != [] && |u| <= CharLen(u + t)
  }

  lemma BeginsWith(u: Bytes, t: Bytes)
    requires u + t != [] && |u| <= CharLen(u + t)
    ensures Begins(u)
  {
  }

  /** Where no character begins, what is given up is the longest beginning of one, or a single byte. */
  lemma GivesUpLongest(s: Bytes)
    requires s != [] && CharLen(s) == 0
    ensures BadLen(s) == 1 || Begins(s[..BadLen(s)])
    ensures forall n: nat | BadLen(s) < n <= |s| :: !Begins(s[..n])
  {
    var n := BadLen(s);
    if n == 2 {
      BeginsWith(s[..2], [0x80, 0x80]);
    } else if n == 3 {
      BeginsWith(s[..3], [0x80]);
    }
    forall m: nat, t: Bytes | n < m <= |s|
      ensures !(s[..m] + t != [] && m <= CharLen(s[..m] + t))
    {
      NoLonger(s, m, t);
    }
  }

  lemma NoLonger(s: Bytes, m: nat, t: Bytes)
    requires s != [] && CharLen(s) == 0 && BadLen(s) < m <= |s|
    ensures CharLen(s[..m] + t) < m
  {
    var u := s[..m] + t;
    assert forall i | 0 <= i < m :: u[i] == s[i];
  }

  /** The replacement character. */
  const REPLACEMENT: Bytes := [0xef, 0xbf, 0xbd]

  /** `from_utf8_lossy`: what is not UTF-8 becomes replacement characters. */
  function Lossy(s: Bytes): Bytes
    decreases |s|
  {
    if s == [] then []
    else if CharLen(s) > 0 then s[..CharLen(s)] + Lossy(s[CharLen(s)..])
    else REPLACEMENT + Lossy(s[BadLen(s)..])
  }

  /** Text is left as it is. */
  lemma {:induction false} LossyKeepsText(s: Bytes)
    requires Utf8(s)
    ensures Lossy(s) == s
    decreases |s|
  {
    if s != [] {
      LossyKeepsText(s[CharLen(s)..]);
    }
  }

  predicate IsAscii(s: Bytes) {
    forall i | 0 <= i < |s| :: s[i] < 0x80
  }

  /** Bytes behind an ASCII beginning are made text by themselves. */
  lemma {:induction false} LossyAfterAscii(a: Bytes, s: Bytes)
    requires IsAscii(a)
    ensures Lossy(a + s) == a + Lossy(s)
  {
    if a == [] {
      assert a + s == s;
    } else {
      LossyAfterAscii(a[1..], s);
      assert (a + s)[..1] == [a[0]] && (a + s)[1..] == a[1..] + s;
    }
  }

  /** Two different bytes, neither of them text, become the same text. */
  lemma LossyCollides()
    ensures Lossy([0xff]) == Lossy([0xfe]) == REPLACEMENT
  {
    var a: Bytes, b: Bytes := [0xff], [0xfe];
    assert a[BadLen(a)..] == [] && b[BadLen(b)..] == [];
  }

  /** Lossy text is text. */
  lemma {:induction false} LossyIsText(s: Bytes)
    ensures Utf8(Lossy(s))
    decreases |s|
  {
    if s != [] {
      var n := if CharLen(s) > 0 then CharLen(s) else BadLen(s);
      var c := if CharLen(s) > 0 then s[..n] else REPLACEMENT;
      LossyIsText(s[n..]);
      TextAfterChar(c, Lossy(s[n..]));
    }
  }

  lemma TextAfterChar(c: Bytes, t: Bytes)
    requires c != [] && CharLen(c) == |c| && Utf8(t)
    ensures Utf8(c + t)
  {
    assert CharLen(c + t) == |c| && (c + t)[|c|..] == t;
  }
}
