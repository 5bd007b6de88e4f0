/**
 Strings in JSON text (section 7 of RFC 8259): `valueToQuotedStringN` of
 json_writer.cpp, `codePointToUTF8` of json_tool.h and `decodeString` of
 json_reader.cpp. Bit masks and shifts are written as arithmetic.
 */
module JsonString {
  import opened Wrappers
  import opened Octets

  const QUOTE: byte := '\"' as int
  const BACKSLASH: byte := '\\' as int
  const LETTER_U: byte := 'u' as int
  const REPLACEMENT_CHARACTER := 0xFFFD

  // ------------------------------------------------------------------
  // UTF-8 (section 3 of RFC 3629)
  // ------------------------------------------------------------------

  /** The code points that are characters: surrogates are not. */
  predicate IsScalar(cp: nat) {
    cp < 0xD800 || 0xE000 <= cp <= 0x10FFFF
  }

  function Continuation(bits: nat): byte {
    0x80 + bits % 64
  }

  /** `codePointToUTF8`; beyond Unicode nothing is produced. */
  function Utf8(cp: nat): (s: seq<byte>) {
    if cp <= 0x7F then [cp]
    else if cp <= 0x7FF then [0xC0 + cp / 64 % 32, Continuation(cp)]
    else if cp <= 0xFFFF then [0xE0 + cp / 64 / 64 % 16, Continuation(cp / 64), Continuation(cp)]
    else if cp <= 0x10FFFF then
      [0xF0 + cp / 64 / 64 / 64 % 8, Continuation(cp / 64 / 64), Continuation(cp / 64), Continuation(cp)]
    else []
  }

  function Utf8Of(cps: seq<nat>): seq<byte> {
    if cps == [] then [] else Utf8(cps[0]) + Utf8Of(cps[1..])
  }

  predicate AllScalar(cps: seq<nat>) {
    forall i :: 0 <= i < |cps| ==> IsScalar(cps[i])
  }

  /** The octets are the UTF-8 form of some characters. */
  ghost predicate ValidUtf8(s: seq<byte>) {
    exists cps :: AllScalar(cps) && Utf8Of(cps) == s
  }

  /** `utf8ToCodepoint`: a code point and how many octets it took. Continuation octets are not checked. */
  function NextCodepoint(s: seq<byte>): (r: (nat, nat))
    requires s != []
    ensures 1 <= r.1 <= |s| && (s[0] < 0x80 ==> r == (s[0], 1))
    ensures s[0] >= 0x80 ==> r.0 >= 0x80 && (IsScalar(r.0) || r.0 > 0x10FFFF) && r.0 < 0x20_0000
  {
    var first := s[0];
    if first < 0x80 then (first, 1)
    else if first < 0xE0 then
      if |s| < 2 then (REPLACEMENT_CHARACTER, 1) else
        var calculated := first % 32 * 64 + s[1] % 64;
        (if calculated < 0x80 then REPLACEMENT_CHARACTER else calculated, 2)
    else if first < 0xF0 then
      if |s| < 3 then (REPLACEMENT_CHARACTER, 1) else
        var calculated := first % 16 * 4096 + s[1] % 64 * 64 + s[2] % 64;
        (if 0xD800 <= calculated <= 0xDFFF || calculated < 0x800 then REPLACEMENT_CHARACTER else calculated, 3)
    else if first < 0xF8 then
      if |s| < 4 then (REPLACEMENT_CHARACTER, 1) else
        var calculated := first % 8 * 262144 + s[1] % 64 * 4096 + s[2] % 64 * 64 + s[3] % 64;
        (if calculated < 0x1_0000 then REPLACEMENT_CHARACTER else calculated, 4)
    else
      (REPLACEMENT_CHARACTER, 1)
  }

  lemma NextCodepointOfUtf8(cp: nat, rest: seq<byte>)
    requires IsScalar(cp)
    ensures Utf8(cp) != [] && NextCodepoint(Utf8(cp) + rest) == (cp, |Utf8(cp)|)
  {
    hide Continuation;
    var s := Utf8(cp) + rest;
    assert |s| >= |Utf8(cp)| && forall i :: 0 <= i < |Utf8(cp)| ==> s[i] == Utf8(cp)[i];
    var a := Split(cp);
    var b := Split(a);
    var c := Split(b);
    if 0x7F < cp <= 0x7FF {
      LeadOfTwo(a);
      assert NextCodepoint(s) == (a * 64 + cp % 64, 2);
    } else if 0x7FF < cp <= 0xFFFF {
      LeadOfThree(b);
      assert NextCodepoint(s) == (b * 4096 + a % 64 * 64 + cp % 64, 3);
    } else if cp > 0xFFFF {
      LeadOfFour(c);
      assert NextCodepoint(s) == (c * 262144 + b % 64 * 4096 + a % 64 * 64 + cp % 64, 4);
    }
  }

  /** Six bits of a code point, and what is left of it. */
  lemma Split(n: nat) returns (high: nat)
    ensures high == n / 64 && n == 64 * high + n % 64
    ensures Continuation(n) % 64 == n % 64
  {
    high := n / 64;
  }

  lemma LeadOfTwo(bits: nat)
    requires 2 <= bits < 32
    ensures 0x80 <= 0xC0 + bits % 32 < 0xE0 && (0xC0 + bits % 32) % 32 == bits
  {
  }

  lemma LeadOfThree(bits: nat)
    requires bits < 16
    ensures 0xE0 <= 0xE0 + bits % 16 < 0xF0 && (0xE0 + bits % 16) % 16 == bits
  {
  }

  lemma LeadOfFour(bits: nat)
    requires bits < 8
    ensures 0xF0 <= 0xF0 + bits % 8 < 0xF8 && (0xF0 + bits % 8) % 8 == bits
  {
  }

  // ------------------------------------------------------------------
  // Escaping
  // ------------------------------------------------------------------

  /** The letter of the two-character escape, where there is one. */
  function ShortEscape(c: byte): Option<byte> {
    if c == QUOTE then Some(QUOTE)
    else if c == BACKSLASH then Some(BACKSLASH)
    else if c == 8 then Some('b' as int)
    else if c == 12 then Some('f' as int)
    else if c == 10 then Some('n' as int)
    else if c == 13 then Some('r' as int)
    else if c == 9 then Some('t' as int)
    else None
  }

  /** The character an escape letter other than `u` stands for; a slash may be escaped too. */
  function EscapeMeaning(letter: byte): Option<byte> {
    if letter == QUOTE then Some(QUOTE)
    else if letter == '/' as int then Some('/' as int)
    else if letter == BACKSLASH then Some(BACKSLASH)
    else if letter == 'b' as int then Some(8)
    else if letter == 'f' as int then Some(12)
    else if letter == 'n' as int then Some(10)
    else if letter == 'r' as int then Some(13)
    else if letter == 't' as int then Some(9)
    else None
  }

  function HexDigit(d: nat): (c: byte)
    requires d < 16
  {
    if d < 10 then '0' as int + d else 'a' as int + (d - 10)
  }

  function HexValue(c: byte): (v: Option<nat>)
    ensures v.Some? ==> v.value < 16
  {
    if '0' as int <= c <= '9' as int then Some(c - '0' as int)
    else if 'a' as int <= c <= 'f' as int then Some(c - 'a' as int + 10)
    else if 'A' as int <= c <= 'F' as int then Some(c - 'A' as int + 10)
    else None
  }

  /** `appendHex` */
  function HexEscape(x: nat): (s: seq<byte>)
    ensures |s| == 6
  {
    [BACKSLASH, LETTER_U, HexDigit(x / 16 / 16 / 16 % 16), HexDigit(x / 16 / 16 % 16), HexDigit(x / 16 % 16),
     HexDigit(x % 16)]
  }

  /** How a code point is written when only ASCII is wanted. */
  function AsciiForm(cp: nat): (s: seq<byte>) {
    if cp < 0x20 then HexEscape(cp)
    else if cp < 0x80 then [cp]
    else if cp < 0x1_0000 then HexEscape(cp)
    else HexEscape(0xD800 + (cp - 0x1_0000) / 1024 % 1024) + HexEscape(0xDC00 + (cp - 0x1_0000) % 1024)
  }

  /** One round of the writer's loop: what is appended and how many octets were used. */
  function EscapeNext(s: seq<byte>, emitUTF8: bool): (r: (seq<byte>, nat))
    requires s != []
    ensures 1 <= r.1 <= |s|
  {
    match ShortEscape(s[0])
    case Some(letter) => ([BACKSLASH, letter], 1)
    case None =>
      if emitUTF8 then (if s[0] < 0x20 then HexEscape(s[0]) else [s[0]], 1)
      else (AsciiForm(NextCodepoint(s).0), NextCodepoint(s).1)
  }

  function Escaped(s: seq<byte>, emitUTF8: bool): seq<byte> {
    if s == [] then [] else EscapeNext(s, emitUTF8).0 + Escaped(s[EscapeNext(s, emitUTF8).1..], emitUTF8)
  }

  /** How control characters and quotes are escaped, with whatever behind them. */
  lemma ControlsEscaped(c: byte, rest: seq<byte>, emitUTF8: bool)
    requires c < 0x20 || c == 0x22 || c == 0x5C
    ensures EscapeNext([c] + rest, emitUTF8).1 == 1
    ensures EscapeNext([c] + rest, emitUTF8).0
         == if c == 0x22 then ['\\' as int, '\"' as int]
            else if c == 0x5C then ['\\' as int, '\\' as int]
            else if c == 0x08 then ['\\' as int, 'b' as int]
            else if c == 0x0C then ['\\' as int, 'f' as int]
            else if c == 0x0A then ['\\' as int, 'n' as int]
            else if c == 0x0D then ['\\' as int, 'r' as int]
            else if c == 0x09 then ['\\' as int, 't' as int]
            else ['\\' as int, 'u' as int, '0' as int, '0' as int, if c < 0x10 then '0' as int else '1' as int,
                  "0123456789abcdef"[c % 16] as int]
  {
    assert ([c] + rest)[0] == c;
  }

  /** A letter of three octets, from section 7 of RFC 3629. */
  lemma LetterEscaped(rest: seq<byte>)
    ensures Utf8(0x65E5) == [0xE6, 0x97, 0xA5]
    ensures EscapeNext([0xE6, 0x97, 0xA5] + rest, true) == ([0xE6], 1)
    ensures EscapeNext([0xE6, 0x97, 0xA5] + rest, false)
         == (['\\' as int, 'u' as int, '6' as int, '5' as int, 'e' as int, '5' as int], 3)
  {
    var a := [0xE6, 0x97, 0xA5] + rest;
    assert a[0] == 0xE6 && a[1] == 0x97 && a[2] == 0xA5;
    assert NextCodepoint(a) == (0x65E5, 3);
  }

  /** The clef of section 7 of RFC 8259, which has four octets and takes two escapes. */
  lemma ClefEscaped(rest: seq<byte>)
    ensures Utf8(0x1D11E) == [0xF0, 0x9D, 0x84, 0x9E]
    ensures EscapeNext([0xF0, 0x9D, 0x84, 0x9E] + rest, false)
         == (['\\' as int, 'u' as int, 'd' as int, '8' as int, '3' as int, '4' as int]
             + ['\\' as int, 'u' as int, 'd' as int, 'd' as int, '1' as int, 'e' as int], 4)
  {
    hide HexEscape, NextCodepoint, AsciiForm;
    ClefRead(rest);
    ClefSurrogates();
    assert ([0xF0, 0x9D, 0x84, 0x9E] + rest)[0] == 0xF0;
  }

  lemma ClefRead(rest: seq<byte>)
    ensures NextCodepoint([0xF0, 0x9D, 0x84, 0x9E] + rest) == (0x1D11E, 4)
  {
    var b := [0xF0, 0x9D, 0x84, 0x9E] + rest;
    assert b[0] == 0xF0 && b[1] == 0x9D && b[2] == 0x84 && b[3] == 0x9E;
  }

  lemma ClefSurrogates()
    ensures AsciiForm(0x1D11E) == ['\\' as int, 'u' as int, 'd' as int, '8' as int, '3' as int, '4' as int]
                                 + ['\\' as int, 'u' as int, 'd' as int, 'd' as int, '1' as int, 'e' as int]
  {
    HexDigitsAre(0xD834, 13, 8, 3, 4);
    HexDigitsAre(0xDD1E, 13, 13, 1, 14);
    hide HexEscape;
    assert AsciiForm(0x1D11E) == HexEscape(0xD834) + HexEscape(0xDD1E);
  }

  /** The digits of an escape, the highest first. */
  lemma HexDigitsAre(x: nat, a: nat, b: nat, c: nat, d: nat)
    requires a < 16 && b < 16 && c < 16 && d < 16 && x == 4096 * a + 256 * b + 16 * c + d
    ensures HexEscape(x) == ['\\' as int, 'u' as int, HexDigit(a), HexDigit(b), HexDigit(c), HexDigit(d)]
  {
    assert x / 16 == 256 * a + 16 * b + c && x / 16 / 16 == 16 * a + b && x / 16 / 16 / 16 == a;
  }

  function Quoted(s: seq<byte>, emitUTF8: bool): seq<byte> {
    [QUOTE] + Escaped(s, emitUTF8) + [QUOTE]
  }

  predicate RequiresEscaping(c: byte) {
    c == BACKSLASH || c == QUOTE || c < 0x20 || c > 0x7F
  }

  lemma PlainNext(s: seq<byte>, emitUTF8: bool)
    requires s != [] && !RequiresEscaping(s[0])
    ensures EscapeNext(s, emitUTF8) == ([s[0]], 1)
  {
  }

  /** The shortcut of the writer is right. */
  lemma {:induction false} NothingToEscape(s: seq<byte>, emitUTF8: bool)
    requires forall c :: c in s ==> !RequiresEscaping(c)
    ensures Escaped(s, emitUTF8) == s
  {
    hide RequiresEscaping, EscapeNext;
    if s != [] {
      assert s[0] in s && s == [s[0]] + s[1..];
      PlainNext(s, emitUTF8);
      NothingToEscape(s[1..], emitUTF8) by {
        assert forall c :: c in s[1..] ==> c in s;
      }
    }
  }

  /** `valueToQuotedStringN` */
  method ValueToQuotedString(value: seq<byte>, emitUTF8: bool) returns (result: seq<byte>)
    ensures result == Quoted(value, emitUTF8)
  {
    if forall c :: c in value ==> !RequiresEscaping(c) {
      NothingToEscape(value, emitUTF8);
      return [QUOTE] + value + [QUOTE];
    }
    hide RequiresEscaping, EscapeNext, Escaped;
    result := [QUOTE];
    assert value[0..] == value;
    var c := 0;
    while c < |value|
      invariant 0 <= c <= |value|
      invariant result + Escaped(value[c..], emitUTF8) == [QUOTE] + Escaped(value, emitUTF8)
    {
      EscapedFrom(value, c, emitUTF8, result);
      var piece, used := AppendNext(value[c..], emitUTF8);
      result, c := result + piece, c + used;
    }
    assert value[c..] == [];
    EscapedNothing(result, emitUTF8);
    result := result + [QUOTE];
  }

  lemma EscapedNothing(before: seq<byte>, emitUTF8: bool)
    ensures before + Escaped([], emitUTF8) == before
  {
  }

  lemma EscapedFrom(value: seq<byte>, c: nat, emitUTF8: bool, before: seq<byte>)
    requires c < |value|
    ensures var next := EscapeNext(value[c..], emitUTF8);
            before + Escaped(value[c..], emitUTF8) == before + next.0 + Escaped(value[c + next.1..], emitUTF8)
  {
    hide EscapeNext;
    var next := EscapeNext(value[c..], emitUTF8);
    assert value[c..][next.1..] == value[c + next.1..];
  }

  /** The switch over one character. */
  method AppendNext(s: seq<byte>, emitUTF8: bool) returns (piece: seq<byte>, used: nat)
    requires s != []
    ensures (piece, used) == EscapeNext(s, emitUTF8)
  {
    hide NextCodepoint, AsciiForm, HexEscape;
    var letter := ShortEscape(s[0]);
    used := 1;
    if letter.Some? {
      piece := [BACKSLASH, letter.value];
    } else if emitUTF8 {
      piece := if s[0] < 0x20 then HexEscape(s[0]) else [s[0]];
    } else {
      var (codepoint, taken) := NextCodepoint(s);
      piece, used := AsciiForm(codepoint), taken;
    }
  }

  // ------------------------------------------------------------------
  // Decoding
  // ------------------------------------------------------------------

  /** `decodeUnicodeEscapeSequence`: four hexadecimal digits. */
  function HexQuad(s: seq<byte>): (r: Option<nat>)
    ensures r.Some? ==> |s| >= 4 && r.value < 0x1_0000
  {
    if |s| < 4 then None
    else
      var a, b, c, d := HexValue(s[0]), HexValue(s[1]), HexValue(s[2]), HexValue(s[3]);
      if a.None? || b.None? || c.None? || d.None? then None
      else Some(((a.value * 16 + b.value) * 16 + c.value) * 16 + d.value)
  }

  /** `decodeUnicodeCodePoint`, behind `\\u`: the code point and how many octets it took. */
  function CodepointAfter(s: seq<byte>): (r: Option<(nat, nat)>)
    ensures r.Some? ==> 4 <= r.value.1 <= |s|
  {
    var unit := HexQuad(s);
    if unit.None? then None
    else if !(0xD800 <= unit.value <= 0xDBFF) then Some((unit.value, 4))
    else if |s| < 10 || s[4] != BACKSLASH || s[5] != LETTER_U then None
    else
      var second := HexQuad(s[6..]);
      if second.None? then None
      else Some((0x1_0000 + unit.value % 1024 * 1024 + second.value % 1024, 10))
  }

  /** Hexadecimal digits may be written with small and capital letters. */
  lemma HexValues(c: byte, v: nat)
    requires v < 16
    ensures HexValue(c) == Some(v) <==> c == "0123456789abcdef"[v] as int || c == "0123456789ABCDEF"[v] as int
  {
  }

  /** The first half of a surrogate pair must have a second; a second half may stand alone. */
  lemma SurrogatesRead(s: seq<byte>)
    requires HexQuad(s).Some?
    ensures var u := HexQuad(s).value;
            if 0xD800 <= u <= 0xDBFF then
              |s| < 6 || s[4] != '\\' as int || s[5] != 'u' as int || HexQuad(s[6..]).None? ==>
                CodepointAfter(s) == None
            else CodepointAfter(s) == Some((u, 4))
  {
  }

  /** One round of the reader's loop: what is decoded and how many octets were used. */
  function UnescapeNext(s: seq<byte>): (r: Option<(seq<byte>, nat)>)
    requires s != []
    ensures r.Some? ==> 1 <= r.value.1 <= |s|
  {
    if s[0] != BACKSLASH then Some(([s[0]], 1))
    else if |s| == 1 then None
    else if s[1] == LETTER_U then
      var unit := CodepointAfter(s[2..]);
      if unit.None? then None else Some((Utf8(unit.value.0), 2 + unit.value.1))
    else
      var meaning := EscapeMeaning(s[1]);
      if meaning.None? then None else Some(([meaning.value], 2))
  }

  /** What the other escapes stand for; there are eight of them. */
  lemma EscapesMean(letter: byte, rest: seq<byte>)
    requires letter != 'u' as int
    ensures UnescapeNext(['\\' as int, letter] + rest)
         == if letter == '\"' as int then Some(([0x22], 2))
            else if letter == '\\' as int then Some(([0x5C], 2))
            else if letter == '/' as int then Some(([0x2F], 2))
            else if letter == 'b' as int then Some(([0x08], 2))
            else if letter == 'f' as int then Some(([0x0C], 2))
            else if letter == 'n' as int then Some(([0x0A], 2))
            else if letter == 'r' as int then Some(([0x0D], 2))
            else if letter == 't' as int then Some(([0x09], 2))
            else None
  {
    assert (['\\' as int, letter] + rest)[0] == '\\' as int && (['\\' as int, letter] + rest)[1] == letter;
  }

  /** What is between the quotes, decoded; an unescaped quote ends it. */
  function Unescaped(s: seq<byte>): Option<seq<byte>>
    decreases |s|
  {
    if s == [] || s[0] == QUOTE then Some([]) else
      var next := UnescapeNext(s);
      if next.None? then None else
        Prefixed(next.value.0, Unescaped(s[next.value.1..]))
  }

  function Prefixed(front: seq<byte>, rest: Option<seq<byte>>): Option<seq<byte>> {
    if rest.None? then None else Some(front + rest.value)
  }

  lemma PrefixedTwice(a: seq<byte>, b: seq<byte>, rest: Option<seq<byte>>)
    ensures Prefixed(a, Prefixed(b, rest)) == Prefixed(a + b, rest)
  {
    if rest.Some? {
      assert a + (b + rest.value) == (a + b) + rest.value;
    }
  }

  lemma PrefixedByNothing(rest: Option<seq<byte>>)
    ensures Prefixed([], rest) == rest
  {
    if rest.Some? {
      assert [] + rest.value == rest.value;
    }
  }

  /** `decodeString`; None when an error was added. */
  method DecodeString(token: seq<byte>) returns (decoded: Option<seq<byte>>)
    requires |token| >= 2
    ensures decoded == Unescaped(token[1..|token| - 1])
  {
    hide UnescapeNext;
    var content := token[1..|token| - 1];
    var current := 0;
    var result: seq<byte> := [];
    assert content[0..] == content;
    PrefixedByNothing(Unescaped(content));
    while current != |content|
      invariant 0 <= current <= |content|
      invariant Unescaped(content) == Prefixed(result, Unescaped(content[current..]))
      decreases |content| - current
    {
      if content[current] == QUOTE {
        break;
      }
      var next := UnescapeNext(content[current..]);
      if next.None? {
        return None;
      }
      var (piece, used) := next.value;
      assert content[current..][used..] == content[current + used..];
      PrefixedTwice(result, piece, Unescaped(content[current + used..]));
      result, current := result + piece, current + used;
    }
    decoded := Some(result);
    assert result + [] == result;
  }

  // ------------------------------------------------------------------
  // Decoding what was escaped
  // ------------------------------------------------------------------

  lemma HexQuadOfEscape(x: nat, rest: seq<byte>)
    requires x < 0x1_0000
    ensures HexQuad((HexEscape(x) + rest)[2..]) == Some(x)
  {
    hide HexValue, HexDigit;
    var s := (HexEscape(x) + rest)[2..];
    var a, b, c := x / 16, x / 16 / 16, x / 16 / 16 / 16;
    assert s[0] == HexDigit(c % 16) && s[1] == HexDigit(b % 16) && s[2] == HexDigit(a % 16) && s[3] == HexDigit(x % 16);
    HexValueOfDigit(c % 16);
    HexValueOfDigit(b % 16);
    HexValueOfDigit(a % 16);
    HexValueOfDigit(x % 16);
    assert x == 16 * a + x % 16 && a == 16 * b + a % 16 && b == 16 * c + b % 16 && c < 16;
  }

  lemma HexValueOfDigit(d: nat)
    requires d < 16
    ensures HexValue(HexDigit(d)) == Some(d)
  {
  }

  /** Code points beyond Unicode lose their upper bits in the surrogate pair. */
  function Carried(cp: nat): nat {
    if cp < 0x1_0000 then cp else 0x1_0000 + (cp - 0x1_0000) % 0x10_0000
  }

  /** What becomes of the octets that one round of the writer uses. */
  function Kept(s: seq<byte>, emitUTF8: bool): seq<byte>
    requires s != []
  {
    if emitUTF8 || s[0] < 0x80 then [s[0]] else Utf8(Carried(NextCodepoint(s).0))
  }

  lemma EscapeIsRead(x: nat, rest: seq<byte>)
    requires x < 0x1_0000 && !(0xD800 <= x <= 0xDBFF)
    ensures UnescapeNext(HexEscape(x) + rest) == Some((Utf8(x), 6))
  {
    hide HexQuad, Utf8;
    HexQuadOfEscape(x, rest);
    assert (HexEscape(x) + rest)[..2] == [BACKSLASH, LETTER_U];
  }

  lemma PairIsRead(cp: nat, rest: seq<byte>)
    requires cp >= 0x1_0000
    ensures UnescapeNext(AsciiForm(cp) + rest) == Some((Utf8(Carried(cp)), 12))
  {
    hide HexQuad, Utf8, HexEscape;
    var x := cp - 0x1_0000;
    var high, low := 0xD800 + x / 1024 % 1024, 0xDC00 + x % 1024;
    var s := AsciiForm(cp) + rest;
    assert s == HexEscape(high) + (HexEscape(low) + rest);
    HexQuadOfEscape(high, HexEscape(low) + rest);
    HexQuadOfEscape(low, rest);
    EscapeStarts(high);
    EscapeStarts(low);
    assert s[2..][6..] == (HexEscape(low) + rest)[2..];
    assert s[2..][4..6] == HexEscape(low)[..2];
    HalvesOfPair(x);
  }

  lemma EscapeStarts(x: nat)
    ensures HexEscape(x)[0] == BACKSLASH && HexEscape(x)[1] == LETTER_U && HexEscape(x)[..2] == [BACKSLASH, LETTER_U]
  {
  }

  lemma HalvesOfPair(x: nat)
    ensures (0xD800 + x / 1024 % 1024) % 1024 == x / 1024 % 1024 && (0xDC00 + x % 1024) % 1024 == x % 1024
    ensures x / 1024 % 1024 * 1024 + x % 1024 == x % 0x10_0000
  {
    var q := x / 1024;
    assert x == 1024 * q + x % 1024 && q == 1024 * (q / 1024) + q % 1024;
    assert x == 0x10_0000 * (q / 1024) + (q % 1024 * 1024 + x % 1024);
  }

  /** One round of the reader undoes one round of the writer. */
  lemma NextRoundTrip(s: seq<byte>, emitUTF8: bool, rest: seq<byte>)
    requires s != []
    ensures var piece := EscapeNext(s, emitUTF8).0;
            && piece != [] && piece[0] != QUOTE
            && UnescapeNext(piece + rest) == Some((Kept(s, emitUTF8), |piece|))
  {
    hide HexEscape, NextCodepoint, AsciiForm;
    var piece := EscapeNext(s, emitUTF8).0;
    if ShortEscape(s[0]).Some? {
      assert (piece + rest)[0] == piece[0] && (piece + rest)[1] == piece[1];
    } else {
      AsciiFormIs(s[0]);
      if emitUTF8 || s[0] < 0x80 {
        if s[0] < 0x80 {
          AsciiIsItself(s);
        }
        if s[0] < 0x20 {
          EscapeIsRead(s[0], rest);
          EscapeStarts(s[0]);
        }
      } else {
        var cp := NextCodepoint(s).0;
        AsciiFormIs(cp);
        if cp < 0x1_0000 {
          EscapeIsRead(cp, rest);
          EscapeStarts(cp);
        } else {
          PairIsRead(cp, rest);
        }
      }
    }
  }

  lemma AsciiIsItself(s: seq<byte>)
    requires s != [] && s[0] < 0x80
    ensures NextCodepoint(s) == (s[0], 1)
  {
  }

  lemma AsciiFormIs(cp: nat)
    ensures cp < 0x20 || 0x80 <= cp < 0x1_0000 ==> AsciiForm(cp) == HexEscape(cp)
    ensures 0x20 <= cp < 0x80 ==> AsciiForm(cp) == [cp]
    ensures cp >= 0x1_0000 ==> |AsciiForm(cp)| == 12 && AsciiForm(cp)[0] == BACKSLASH
  {
  }

  /** What a string becomes by being quoted and decoded. */
  function Decoded(s: seq<byte>, emitUTF8: bool): seq<byte> {
    if s == [] then [] else Kept(s, emitUTF8) + Decoded(s[EscapeNext(s, emitUTF8).1..], emitUTF8)
  }

  lemma {:induction false} EscapedIsDecoded(s: seq<byte>, emitUTF8: bool)
    ensures Unescaped(Escaped(s, emitUTF8)) == Some(Decoded(s, emitUTF8))
  {
    hide EscapeNext, UnescapeNext, Kept;
    if s != [] {
      var (piece, used) := EscapeNext(s, emitUTF8);
      var rest := Escaped(s[used..], emitUTF8);
      NextRoundTrip(s, emitUTF8, rest);
      assert (piece + rest)[|piece|..] == rest;
      EscapedIsDecoded(s[used..], emitUTF8);
    }
  }

  /** The code points a string is taken for. */
  function Codepoints(s: seq<byte>): seq<nat> {
    if s == [] then [] else [Carried(NextCodepoint(s).0)] + Codepoints(s[NextCodepoint(s).1..])
  }

  lemma CarriedIsScalar(cp: nat)
    requires IsScalar(cp) || cp > 0x10FFFF
    ensures IsScalar(Carried(cp)) && (cp <= 0x10FFFF ==> Carried(cp) == cp)
  {
  }

  lemma {:induction false} CodepointsAreScalar(s: seq<byte>)
    ensures AllScalar(Codepoints(s))
  {
    hide NextCodepoint, Carried;
    if s != [] {
      var (cp, used) := NextCodepoint(s);
      CarriedIsScalar(cp);
      CodepointsAreScalar(s[used..]);
    }
  }

  lemma UsedByNext(s: seq<byte>)
    requires s != []
    ensures EscapeNext(s, false).1 == NextCodepoint(s).1
    ensures Kept(s, false) == Utf8(Carried(NextCodepoint(s).0))
  {
  }

  lemma {:induction false} DecodedIsUtf8(s: seq<byte>)
    ensures Decoded(s, false) == Utf8Of(Codepoints(s))
  {
    hide EscapeNext, NextCodepoint, Kept, Utf8, Carried;
    if s != [] {
      UsedByNext(s);
      var used := NextCodepoint(s).1;
      DecodedIsUtf8(s[used..]);
      assert Codepoints(s)[1..] == Codepoints(s[used..]);
    }
  }

  lemma {:induction false} CodepointsOfUtf8(cps: seq<nat>)
    requires AllScalar(cps)
    ensures Codepoints(Utf8Of(cps)) == cps
  {
    hide NextCodepoint, Utf8, Carried;
    if cps != [] {
      var first, rest := Utf8(cps[0]), Utf8Of(cps[1..]);
      NextCodepointOfUtf8(cps[0], rest);
      CarriedIsScalar(cps[0]);
      assert (first + rest)[|first|..] == rest;
      CodepointsOfUtf8(cps[1..]);
    }
  }

  lemma {:induction false} DecodedOctets(s: seq<byte>)
    ensures Decoded(s, true) == s
  {
    if s != [] {
      DecodedOctets(s[1..]);
    }
  }

  /**
   With emitUTF8, decoding the quoted form gives back every string of octets. Without
   it, what comes back is the UTF-8 form of the code points, surrogate pairs included,
   and so the string itself if and only if that is valid UTF-8.
   */
  lemma QuotedIsDecoded(s: seq<byte>, emitUTF8: bool)
    ensures var token := Quoted(s, emitUTF8);
            var decoded := Unescaped(token[1..|token| - 1]);
            && decoded == Some(if emitUTF8 then s else Utf8Of(Codepoints(s)))
            && AllScalar(Codepoints(s))
            && (decoded == Some(s) <==> emitUTF8 || ValidUtf8(s))
  {
    hide Unescaped, Escaped, Decoded, Utf8Of, Codepoints;
    var token := Quoted(s, emitUTF8);
    assert token[1..|token| - 1] == Escaped(s, emitUTF8);
    EscapedIsDecoded(s, emitUTF8);
    DecodedOctets(s);
    DecodedIsUtf8(s);
    CodepointsAreScalar(s);
    if ValidUtf8(s) {
      var cps :| AllScalar(cps) && Utf8Of(cps) == s;
      CodepointsOfUtf8(cps);
    }
  }
}
