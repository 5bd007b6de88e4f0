/**
 What the lexer makes of a document that spells given tokens.
 */
module JsonSpelling {
  import opened Wrappers
  import opened Octets
  import opened JsonInteger
  import opened JsonString
  import opened JsonText
  import opened JsonLexer

  /** Nothing, or a token that can stand behind a value: one that does not go on with a number. */
  predicate Follows(tokens: seq<Text>) {
    tokens == [] || (tokens[0] != [] && !IsDigit(tokens[0][0]) && !GoesOn(tokens[0], 0))
  }

  lemma SpellsNext(doc: Text, i: nat, t: Text, tokens: seq<Text>)
    requires Spells(doc, i, [t] + tokens)
    ensures i <= |doc| && Holds(doc, SkipSpace(doc, i), t) && Spells(doc, SkipSpace(doc, i) + |t|, tokens)
  {
    assert ([t] + tokens)[1..] == tokens;
  }

  lemma PunctuationRead(doc: Text, i: nat, c: byte, tokens: seq<Text>, ok: bool, token: Token)
    requires Spells(doc, i, [[c]] + tokens) && Punctuation(c).Some?
    requires i <= |doc| && TokenRead(doc, SkipSpace(doc, i), ok, token)
    ensures ok && token.kind == Punctuation(c).value && Spells(doc, token.end, tokens)
  {
    hide LiteralRead;
    SpellsNext(doc, i, [c], tokens);
    assert doc[SkipSpace(doc, i)..SkipSpace(doc, i) + 1][0] == c;
  }

  lemma LiteralIsRead(doc: Text, i: nat, t: Text, tokens: seq<Text>, ok: bool, token: Token)
    requires Spells(doc, i, [t] + tokens) && (t == NULL_TEXT || t == TRUE_TEXT || t == FALSE_TEXT)
    requires i <= |doc| && TokenRead(doc, SkipSpace(doc, i), ok, token)
    ensures ok && Spells(doc, token.end, tokens)
    ensures token.kind == if t == NULL_TEXT then NullToken else if t == TRUE_TEXT then TrueToken else FalseToken
  {
    hide Holds, StringEnd, DigitsEnd;
    SpellsNext(doc, i, t, tokens);
  }

  lemma EndRead(doc: Text, i: nat, ok: bool, token: Token)
    requires Spells(doc, i, []) && i <= |doc| && TokenRead(doc, SkipSpace(doc, i), ok, token)
    ensures token.kind == EndOfStream
  {
    hide LiteralRead;
  }

  // ------------------------------------------------------------------
  // Strings
  // ------------------------------------------------------------------

  lemma PlainPassed(doc: Text, i: nat, c: byte)
    requires Holds(doc, i, [c]) && c != BACKSLASH && c != QUOTE
    ensures StringEnd(doc, i, QUOTE) == StringEnd(doc, i + 1, QUOTE)
  {
    assert doc[i..i + 1][0] == doc[i];
  }

  lemma HexPassed(doc: Text, i: nat, x: nat)
    requires Holds(doc, i, HexEscape(x))
    ensures StringEnd(doc, i, QUOTE) == StringEnd(doc, i + 6, QUOTE)
  {
    var e := HexEscape(x);
    assert forall k :: i <= k < i + 6 ==> doc[k] == doc[i..i + 6][k - i];
    assert StringEnd(doc, i, QUOTE) == StringEnd(doc, i + 2, QUOTE);
    assert StringEnd(doc, i + 2, QUOTE) == StringEnd(doc, i + 3, QUOTE);
    assert StringEnd(doc, i + 3, QUOTE) == StringEnd(doc, i + 4, QUOTE);
    assert StringEnd(doc, i + 4, QUOTE) == StringEnd(doc, i + 5, QUOTE);
  }

  /** No piece that the writer appends ends the string. */
  lemma PiecePassed(doc: Text, i: nat, s: seq<byte>, emitUTF8: bool)
    requires s != [] && Holds(doc, i, EscapeNext(s, emitUTF8).0)
    ensures StringEnd(doc, i, QUOTE) == StringEnd(doc, i + |EscapeNext(s, emitUTF8).0|, QUOTE)
  {
    hide StringEnd, HexEscape, NextCodepoint, AsciiForm;
    var piece := EscapeNext(s, emitUTF8).0;
    if ShortEscape(s[0]).Some? {
      ShortPassed(doc, i, ShortEscape(s[0]).value);
    } else if emitUTF8 {
      if s[0] < 0x20 {
        HexPassed(doc, i, s[0]);
      } else {
        PlainPassed(doc, i, s[0]);
      }
    } else {
      var cp := NextCodepoint(s).0;
      PlainCodepoint(s);
      AsciiFormPassed(doc, i, cp);
    }
  }

  lemma ShortPassed(doc: Text, i: nat, letter: byte)
    requires Holds(doc, i, [BACKSLASH, letter])
    ensures StringEnd(doc, i, QUOTE) == StringEnd(doc, i + 2, QUOTE)
  {
    assert doc[i..i + 2][0] == doc[i];
  }

  lemma PlainCodepoint(s: seq<byte>)
    requires s != [] && ShortEscape(s[0]).None?
    ensures NextCodepoint(s).0 != BACKSLASH && NextCodepoint(s).0 != QUOTE
  {
  }

  lemma AsciiFormPassed(doc: Text, i: nat, cp: nat)
    requires cp != BACKSLASH && cp != QUOTE && Holds(doc, i, AsciiForm(cp))
    ensures StringEnd(doc, i, QUOTE) == StringEnd(doc, i + |AsciiForm(cp)|, QUOTE)
  {
    hide StringEnd, HexEscape, Holds;
    if cp < 0x20 || 0x80 <= cp < 0x1_0000 {
      HexPassed(doc, i, cp);
    } else if cp < 0x80 {
      PlainPassed(doc, i, cp);
    } else {
      var high, low := 0xD800 + (cp - 0x1_0000) / 1024 % 1024, 0xDC00 + (cp - 0x1_0000) % 1024;
      HoldsConcat(doc, i, HexEscape(high), HexEscape(low));
      HexPassed(doc, i, high);
      HexPassed(doc, i + 6, low);
    }
  }

  lemma {:induction false} EscapedPassed(doc: Text, i: nat, s: seq<byte>, emitUTF8: bool)
    requires Holds(doc, i, Escaped(s, emitUTF8) + [QUOTE])
    ensures StringEnd(doc, i, QUOTE) == (i + |Escaped(s, emitUTF8)| + 1, true)
    decreases |s|
  {
    hide EscapeNext, Holds;
    if s == [] {
      ClosedAt(doc, i);
    } else {
      var (piece, used) := EscapeNext(s, emitUTF8);
      var rest := Escaped(s[used..], emitUTF8) + [QUOTE];
      assert Escaped(s, emitUTF8) + [QUOTE] == piece + rest;
      HoldsConcat(doc, i, piece, rest);
      PiecePassed(doc, i, s, emitUTF8);
      EscapedPassed(doc, i + |piece|, s[used..], emitUTF8);
    }
  }

  lemma ClosedAt(doc: Text, i: nat)
    requires Holds(doc, i, [] + [QUOTE])
    ensures StringEnd(doc, i, QUOTE) == (i + 1, true)
  {
    assert doc[i..i + 1][0] == doc[i];
  }

  /** A quoted string is one token. */
  lemma QuotedIsRead(doc: Text, i: nat, s: seq<byte>, emitUTF8: bool, tokens: seq<Text>, ok: bool, token: Token)
    requires Spells(doc, i, [Quoted(s, emitUTF8)] + tokens)
    requires i <= |doc| && TokenRead(doc, SkipSpace(doc, i), ok, token)
    ensures ok && token.kind == StringToken && Spells(doc, token.end, tokens)
    ensures token.end - token.start >= 2 && doc[token.start..token.end] == Quoted(s, emitUTF8)
  {
    hide Quoted, TokenRead, SkipSpace;
    var k := SkipSpace(doc, i);
    SpellsNext(doc, i, Quoted(s, emitUTF8), tokens);
    QuotedIsToken(doc, k, s, emitUTF8, ok, token);
  }

  /** It decodes to the string. */
  lemma QuotedComesBack(s: seq<byte>, emitUTF8: bool)
    requires Quotable(s, emitUTF8)
    ensures |Quoted(s, emitUTF8)| >= 2
    ensures Unescaped(Quoted(s, emitUTF8)[1..|Quoted(s, emitUTF8)| - 1]) == Some(s)
  {
    hide Unescaped, Escaped;
    QuotedIsDecoded(s, emitUTF8);
  }

  lemma QuotedIsToken(doc: Text, k: nat, s: seq<byte>, emitUTF8: bool, ok: bool, token: Token)
    requires Holds(doc, k, Quoted(s, emitUTF8)) && TokenRead(doc, k, ok, token)
    ensures ok && token == Token(StringToken, k, k + |Quoted(s, emitUTF8)|) && |Quoted(s, emitUTF8)| >= 2
    ensures doc[token.start..token.end] == Quoted(s, emitUTF8)
  {
    hide DigitsEnd, Escaped, StringEnd;
    var t, inner := Quoted(s, emitUTF8), Escaped(s, emitUTF8) + [QUOTE];
    assert t == [QUOTE] + inner;
    HoldsConcat(doc, k, [QUOTE], inner);
    assert doc[k..k + 1][0] == doc[k];
    EscapedPassed(doc, k + 1, s, emitUTF8);
  }

  // ------------------------------------------------------------------
  // Integers
  // ------------------------------------------------------------------

  /** What stands behind a number ends it. */
  lemma NumberEndsHere(doc: Text, e: nat, tokens: seq<Text>)
    requires Spells(doc, e, tokens) && Follows(tokens)
    ensures e <= |doc| && !GoesOn(doc, e) && (e < |doc| ==> !IsDigit(doc[e]))
  {
    if e < |doc| && !IsSpace(doc[e]) {
      assert SkipSpace(doc, e) == e;
      assert doc[e] == doc[e..e + |tokens[0]|][0];
    }
  }

  lemma DigitsEndIs(doc: Text, i: nat, k: nat)
    requires i <= k <= |doc| && AllDigits(doc[i..k]) && (k < |doc| ==> !IsDigit(doc[k]))
    ensures DigitsEnd(doc, i) == k
  {
    assert forall j :: i <= j < k ==> doc[j] == doc[i..k][j - i];
  }

  lemma IntegerIsRead(doc: Text, i: nat, n: int, tokens: seq<Text>, ok: bool, token: Token)
    requires Spells(doc, i, [IntegerText(n)] + tokens) && Follows(tokens)
    requires i <= |doc| && TokenRead(doc, SkipSpace(doc, i), ok, token)
    ensures ok && token.kind == NumberToken && Spells(doc, token.end, tokens)
    ensures token.start < token.end && doc[token.start..token.end] == IntegerText(n)
  {
    hide IntegerText, TokenRead, SkipSpace, GoesOn, IsDigit;
    var t, k := IntegerText(n), SkipSpace(doc, i);
    SpellsNext(doc, i, t, tokens);
    NumberEndsHere(doc, k + |t|, tokens);
    IntegerIsToken(doc, k, n, ok, token);
  }

  lemma IntegerIsToken(doc: Text, k: nat, n: int, ok: bool, token: Token)
    requires Holds(doc, k, IntegerText(n)) && TokenRead(doc, k, ok, token)
    requires var e := k + |IntegerText(n)|; !GoesOn(doc, e) && (e < |doc| ==> !IsDigit(doc[e]))
    ensures ok && token == Token(NumberToken, k, k + |IntegerText(n)|) && doc[token.start..token.end] == IntegerText(n)
  {
    hide StringEnd, DigitsEnd, Decimal, GoesOn;
    var e := k + |IntegerText(n)|;
    assert doc[k..e][0] == doc[k] && doc[k..e][1..] == doc[k + 1..e];
    IntegerShape(n);
    DigitsEndIs(doc, k + 1, e);
    if n < 0 {
      assert doc[k + 1] == doc[k + 1..e][0];
    }
  }

  lemma IntegerShape(n: int)
    ensures AllDigits(IntegerText(n)[1..])
    ensures if n < 0 then IntegerText(n)[0] == MINUS && |IntegerText(n)| > 1 else IsDigit(IntegerText(n)[0])
  {
    var d := Decimal(if n < 0 then -n else n);
    assert ([MINUS] + d)[1..] == d;
  }

  // ------------------------------------------------------------------
  // Separators of members
  // ------------------------------------------------------------------

  /** The text of one C comment. */
  predicate IsComment(t: Text) {
    |t| >= 4 && t[0] == SLASH && t[1] == STAR && CommentClose(t, 2) == |t| - 2
  }

  /** The text of a token that is neither the closing brace nor a real: punctuation, or a whole value. */
  ghost predicate Stray(t: Text) {
    || (|t| == 1 && Punctuation(t[0]).Some? && t[0] != CLOSE_OBJECT)
    || t == NULL_TEXT || t == TRUE_TEXT || t == FALSE_TEXT
    || (exists n: int :: t == IntegerText(n))
    || (exists s: seq<byte> :: t == Quoted(s, true))
  }

  /** The comma; or a comment and any other token, which the reader takes for the comma. */
  ghost predicate SeparatesMembers(comma: seq<Text>) {
    comma == [[COMMA]] || (|comma| == 2 && IsComment(comma[0]) && Stray(comma[1]))
  }

  type Separator = comma: seq<Text> | SeparatesMembers(comma) witness [[COMMA]]

  lemma {:induction false} CommentClosesAt(doc: Text, i: nat, k: nat)
    requires i <= k && k + 1 < |doc| && doc[k] == STAR && doc[k + 1] == SLASH
    requires forall j :: i <= j < k ==> !(doc[j] == STAR && doc[j + 1] == SLASH)
    ensures CommentClose(doc, i) == k
    decreases k - i
  {
    if i < k {
      CommentClosesAt(doc, i + 1, k);
    }
  }

  /** A comment is one wherever it stands. */
  lemma CommentStands(doc: Text, k: nat, t: Text)
    requires IsComment(t) && Holds(doc, k, t)
    ensures CommentAt(doc, k) && CommentEnd(doc, k) == k + |t|
  {
    assert forall j :: k <= j < k + |t| ==> doc[j] == doc[k..k + |t|][j - k];
    CommentClosesAt(doc, k + 2, k + |t| - 2);
  }

  lemma StrayRead(doc: Text, i: nat, t: Text, tokens: seq<Text>, ok: bool, token: Token)
    requires Stray(t) && Follows(tokens) && Spells(doc, i, [t] + tokens)
    requires i <= |doc| && TokenRead(doc, SkipSpace(doc, i), ok, token)
    ensures ok && token.kind != ObjectEnd && Spells(doc, token.end, tokens)
  {
    hide Quoted, IntegerText, TokenRead, Spells, SkipSpace, Follows;
    if t == NULL_TEXT || t == TRUE_TEXT || t == FALSE_TEXT {
      LiteralIsRead(doc, i, t, tokens, ok, token);
    } else if n: int :| t == IntegerText(n) {
      IntegerIsRead(doc, i, n, tokens, ok, token);
    } else if s: seq<byte> :| t == Quoted(s, true) {
      QuotedIsRead(doc, i, s, true, tokens, ok, token);
    } else {
      assert t == [t[0]];
      PunctuationRead(doc, i, t[0], tokens, ok, token);
    }
  }

  lemma StrayStarts(doc: Text, i: nat, t: Text, tokens: seq<Text>)
    requires Stray(t) && Spells(doc, i, [t] + tokens)
    ensures i <= |doc| && SkipSpace(doc, i) < |doc| && doc[SkipSpace(doc, i)] != SLASH
  {
    hide Decimal, Escaped;
    SpellsNext(doc, i, t, tokens);
    assert doc[SkipSpace(doc, i)..SkipSpace(doc, i) + |t|][0] == t[0];
    if n: int :| t == IntegerText(n) {
      IntegerShape(n);
    }
  }
}
