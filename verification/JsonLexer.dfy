/**
 The tokens of jsoncpp's `OurReader` (json_reader.cpp): `readToken` and the scanning
 loops below it.
 */
module JsonLexer {
  import opened Wrappers
  import opened Octets
  import opened JsonInteger
  import opened JsonString
  import opened JsonText

  const SLASH: byte := '/' as int
  const STAR: byte := '*' as int
  const APOSTROPHE: byte := '\'' as int
  const LETTER_I: byte := 'I' as int
  const NEWLINE: byte := '\n' as int
  const RETURN: byte := '\r' as int
  const PLUS: byte := '+' as int
  const NAN_TEXT: Text := ['N' as int, 'a' as int, 'N' as int]
  const NFINITY_TEXT: Text := ['n' as int, 'f' as int, 'i' as int, 'n' as int, 'i' as int, 't' as int, 'y' as int]

  datatype Features = Features(
    allowComments: bool, allowTrailingCommas: bool, strictRoot: bool, allowDroppedNullPlaceholders: bool,
    allowNumericKeys: bool, allowSingleQuotes: bool, failIfExtra: bool, rejectDupKeys: bool,
    allowSpecialFloats: bool, skipBom: bool, stackLimit: nat)

  datatype TokenType =
    | EndOfStream | ObjectBegin | ObjectEnd | ArrayBegin | ArrayEnd | StringToken | NumberToken
    | TrueToken | FalseToken | NullToken | NaNToken | PosInfToken | NegInfToken
    | ArraySeparator | MemberSeparator | CommentToken | ErrorToken

  datatype Token = Token(kind: TokenType, start: nat, end: nat)

  // ------------------------------------------------------------------
  // What the scanning loops find
  // ------------------------------------------------------------------

  /** Where a string ends, and whether it was closed. */
  function StringEnd(doc: Text, i: nat, quote: byte): (r: (nat, bool))
    requires i <= |doc|
    ensures i <= r.0 <= |doc| && (r.1 ==> i < r.0)
    decreases |doc| - i
  {
    if i == |doc| then (i, false)
    else if doc[i] == BACKSLASH then StringEnd(doc, if i + 2 <= |doc| then i + 2 else |doc|, quote)
    else if doc[i] == quote then (i + 1, true)
    else StringEnd(doc, i + 1, quote)
  }

  function DigitsEnd(doc: Text, i: nat): (k: nat)
    requires i <= |doc|
    ensures i <= k <= |doc| && (k < |doc| ==> !IsDigit(doc[k]))
    ensures forall j :: i <= j < k ==> IsDigit(doc[j])
    decreases |doc| - i
  {
    if i < |doc| && IsDigit(doc[i]) then DigitsEnd(doc, i + 1) else i
  }

  /** What follows the digits makes the number a real. */
  predicate GoesOn(doc: Text, k: nat) {
    k < |doc| && (doc[k] == '.' as int || doc[k] == 'e' as int || doc[k] == 'E' as int)
  }

  /** The first end of a C comment from `i` on, or the end of the document. */
  function CommentClose(doc: Text, i: nat): (k: nat)
    requires i <= |doc|
    ensures i <= k <= |doc| && (k < |doc| ==> k + 1 < |doc| && doc[k] == STAR && doc[k + 1] == SLASH)
    ensures forall j :: i <= j < k && j + 1 < |doc| ==> !(doc[j] == STAR && doc[j + 1] == SLASH)
    decreases |doc| - i
  {
    if i + 1 >= |doc| then |doc|
    else if doc[i] == STAR && doc[i + 1] == SLASH then i
    else CommentClose(doc, i + 1)
  }

  /** Where the line ends: behind a line feed, a carriage return, or both. */
  function LineEnd(doc: Text, i: nat): (k: nat)
    requires i <= |doc|
    ensures i <= k <= |doc| && forall j :: i <= j < k - 2 ==> doc[j] != NEWLINE && doc[j] != RETURN
    ensures k == |doc| || (i < k && (doc[k - 1] == NEWLINE || doc[k - 1] == RETURN))
    decreases |doc| - i
  {
    if i == |doc| then i
    else if doc[i] == NEWLINE then i + 1
    else if doc[i] == RETURN then (if i + 1 < |doc| && doc[i + 1] == NEWLINE then i + 2 else i + 1)
    else LineEnd(doc, i + 1)
  }

  /**
   A comment starts here and is accepted: one to the end of the line, or one that is
   closed. A C comment that is not closed is accepted all the same when the document
   ends in a slash.
   */
  predicate CommentAt(doc: Text, k: nat) {
    && k + 1 < |doc| && doc[k] == SLASH
    && (doc[k + 1] == SLASH
        || (doc[k + 1] == STAR && (CommentClose(doc, k + 2) < |doc| || (k + 2 < |doc| && doc[|doc| - 1] == SLASH))))
  }

  function CommentEnd(doc: Text, k: nat): (e: nat)
    requires CommentAt(doc, k)
    ensures k + 2 <= e <= |doc|
  {
    if doc[k + 1] == SLASH then LineEnd(doc, k + 2)
    else if CommentClose(doc, k + 2) < |doc| then CommentClose(doc, k + 2) + 2
    else |doc|
  }

  /** The first position from `i` on that is neither whitespace nor in a comment. */
  function PastComments(doc: Text, i: nat): (k: nat)
    requires i <= |doc|
    ensures i <= k <= |doc| && !CommentAt(doc, k) && k == SkipSpace(doc, k)
    ensures var start := SkipSpace(doc, i); start == |doc| || doc[start] != SLASH ==> k == start
    decreases |doc| - i
  {
    var start := SkipSpace(doc, i);
    if CommentAt(doc, start) then PastComments(doc, CommentEnd(doc, start)) else start
  }

  /** Behind a fraction, if one starts here. */
  function FractionEnd(doc: Text, k: nat): (e: nat)
    requires k <= |doc|
    ensures k <= e <= |doc|
  {
    if k < |doc| && doc[k] == '.' as int then DigitsEnd(doc, k + 1) else k
  }

  /** Behind an exponent, if one starts here. */
  function ExponentEnd(doc: Text, k: nat): (e: nat)
    requires k <= |doc|
    ensures k <= e <= |doc|
  {
    if k < |doc| && (doc[k] == 'e' as int || doc[k] == 'E' as int) then
      DigitsEnd(doc, if k + 1 < |doc| && (doc[k + 1] == PLUS || doc[k + 1] == MINUS) then k + 2 else k + 1)
    else k
  }

  /** Where a number ends: behind its digits, a fraction if there is one, and an exponent if there is one. */
  function NumberEnd(doc: Text, i: nat): (k: nat)
    requires i <= |doc|
    ensures i <= k <= |doc| && (!GoesOn(doc, DigitsEnd(doc, i)) ==> k == DigitsEnd(doc, i))
  {
    ExponentEnd(doc, FractionEnd(doc, DigitsEnd(doc, i)))
  }

  function Punctuation(c: byte): Option<TokenType> {
    if c == OPEN_OBJECT then Some(ObjectBegin)
    else if c == CLOSE_OBJECT then Some(ObjectEnd)
    else if c == OPEN_ARRAY then Some(ArrayBegin)
    else if c == CLOSE_ARRAY then Some(ArrayEnd)
    else if c == COMMA then Some(ArraySeparator)
    else if c == COLON then Some(MemberSeparator)
    else None
  }

  predicate IsPunctuation(kind: TokenType) {
    kind.ObjectBegin? || kind.ObjectEnd? || kind.ArrayBegin? || kind.ArrayEnd? || kind.ArraySeparator?
    || kind.MemberSeparator?
  }

  /** What a token read from `start` on, where whitespace has been skipped, is. */
  predicate TokenRead(doc: Text, start: nat, ok: bool, token: Token) {
    && start <= |doc| && token.start == start <= token.end <= |doc|
    && (ok <==> token.kind != ErrorToken)
    && (start == |doc| ==> token.kind == EndOfStream)
    && (token.kind != EndOfStream ==> start < token.end)
    && (IsPunctuation(token.kind) ==> Punctuation(doc[start]) == Some(token.kind) && token.end == start + 1)
    && (start < |doc| && Punctuation(doc[start]).Some? ==>
          token == Token(Punctuation(doc[start]).value, start, start + 1))
    && (token.kind.StringToken? ==> QuotedTo(doc, start, token.end))
    && (token.kind.CommentToken? <==> CommentAt(doc, start))
    && (CommentAt(doc, start) ==> token.end == CommentEnd(doc, start))
    && (start < |doc| && doc[start] == SLASH ==> (ok <==> CommentAt(doc, start)))
    && LiteralRead(doc, start, token) && WordRead(doc, start, token)
  }

  /** A string token ends with the first quote of its kind that is not escaped. */
  predicate QuotedTo(doc: Text, start: nat, end: nat) {
    && start < |doc| && (doc[start] == QUOTE || doc[start] == APOSTROPHE)
    && StringEnd(doc, start + 1, doc[start]) == (end, true)
  }

  /** A literal name, NaN or an infinity is recognised only where it stands. */
  predicate WordRead(doc: Text, start: nat, token: Token)
    requires start <= |doc|
  {
    && (token.kind == NullToken ==> Holds(doc, start, NULL_TEXT))
    && (token.kind == TrueToken ==> Holds(doc, start, TRUE_TEXT))
    && (token.kind == FalseToken ==> Holds(doc, start, FALSE_TEXT))
    && (token.kind == NaNToken ==> Holds(doc, start, NAN_TEXT))
    && (token.kind == PosInfToken ==>
          Holds(doc, start, [LETTER_I] + NFINITY_TEXT) || Holds(doc, start, [PLUS] + ([LETTER_I] + NFINITY_TEXT)))
    && (token.kind == NegInfToken ==> Holds(doc, start, [MINUS] + ([LETTER_I] + NFINITY_TEXT)))
  }

  predicate LiteralRead(doc: Text, start: nat, token: Token)
    requires start <= |doc|
  {
    && (Holds(doc, start, NULL_TEXT) ==> token == Token(NullToken, start, start + 4))
    && (Holds(doc, start, TRUE_TEXT) ==> token == Token(TrueToken, start, start + 4))
    && (Holds(doc, start, FALSE_TEXT) ==> token == Token(FalseToken, start, start + 5))
    && (start < |doc| && doc[start] == QUOTE && StringEnd(doc, start + 1, QUOTE).1 ==>
          token == Token(StringToken, start, StringEnd(doc, start + 1, QUOTE).0))
    && (StartsNumber(doc, start) ==> token == Token(NumberToken, start, NumberEnd(doc, start + 1)))
  }

  /** Nothing is left to read: the text ends here, or a NUL ended it. */
  predicate Exhausted(doc: Text, i: nat) {
    i == |doc| || (0 < i < |doc| && doc[i - 1] == 0)
  }

  /** Single quotes, NaN and the infinities are tokens where they stand, and only when they are allowed. */
  predicate ExtensionRead(doc: Text, features: Features, start: nat, token: Token)
    requires start <= |doc|
  {
    && (IsSpecial(token.kind) ==> features.allowSpecialFloats)
    && (token.kind.StringToken? && start < |doc| && doc[start] == APOSTROPHE ==> features.allowSingleQuotes)
    && (features.allowSpecialFloats ==> SpecialRead(doc, start, token))
    && (features.allowSingleQuotes && start < |doc| && doc[start] == APOSTROPHE
        && StringEnd(doc, start + 1, APOSTROPHE).1 ==>
          token == Token(StringToken, start, StringEnd(doc, start + 1, APOSTROPHE).0))
  }

  predicate IsSpecial(kind: TokenType) {
    kind.NaNToken? || kind.PosInfToken? || kind.NegInfToken?
  }

  predicate SpecialRead(doc: Text, start: nat, token: Token)
    requires start <= |doc|
  {
    && (Holds(doc, start, NAN_TEXT) ==> token == Token(NaNToken, start, start + 3))
    && (Holds(doc, start, [LETTER_I] + NFINITY_TEXT) ==> token == Token(PosInfToken, start, start + 8))
    && (Holds(doc, start, [PLUS] + ([LETTER_I] + NFINITY_TEXT)) ==> token == Token(PosInfToken, start, start + 9))
    && (Holds(doc, start, [MINUS] + ([LETTER_I] + NFINITY_TEXT)) ==> token == Token(NegInfToken, start, start + 9))
  }

  lemma HoldsFirst(doc: Text, i: nat, t: Text)
    requires t != [] && i < |doc|
    ensures Holds(doc, i, t) <==> doc[i] == t[0] && Holds(doc, i + 1, t[1..])
  {
    assert t == [t[0]] + t[1..];
    HoldsConcat(doc, i, [t[0]], t[1..]);
  }

  lemma HoldsTwo(doc: Text, i: nat, a: byte, b: byte, t: Text)
    requires i + 1 < |doc|
    ensures Holds(doc, i, [a] + ([b] + t)) <==> doc[i] == a && doc[i + 1] == b && Holds(doc, i + 2, t)
  {
    HoldsFirst(doc, i, [a] + ([b] + t));
    HoldsFirst(doc, i + 1, [b] + t);
    assert ([a] + ([b] + t))[1..] == [b] + t && ([b] + t)[1..] == t;
  }

  lemma LiteralStarts(doc: Text, i: nat)
    requires i < |doc|
    ensures Holds(doc, i, NULL_TEXT) ==> doc[i] == 'n' as int
    ensures Holds(doc, i, TRUE_TEXT) ==> doc[i] == 't' as int
    ensures Holds(doc, i, FALSE_TEXT) ==> doc[i] == 'f' as int
  {
    HoldsFirst(doc, i, NULL_TEXT);
    HoldsFirst(doc, i, TRUE_TEXT);
    HoldsFirst(doc, i, FALSE_TEXT);
  }

  lemma SpecialStarts(doc: Text, i: nat)
    requires i < |doc|
    ensures Holds(doc, i, NAN_TEXT) ==> doc[i] == 'N' as int
    ensures Holds(doc, i, [LETTER_I] + NFINITY_TEXT) ==> doc[i] == LETTER_I
    ensures Holds(doc, i, [PLUS] + ([LETTER_I] + NFINITY_TEXT)) ==> doc[i] == PLUS && StartsInfinity(doc, i + 1)
    ensures Holds(doc, i, [MINUS] + ([LETTER_I] + NFINITY_TEXT)) ==> doc[i] == MINUS && StartsInfinity(doc, i + 1)
  {
    HoldsFirst(doc, i, NAN_TEXT);
    HoldsFirst(doc, i, [LETTER_I] + NFINITY_TEXT);
    if i + 1 < |doc| {
      HoldsTwo(doc, i, PLUS, LETTER_I, NFINITY_TEXT);
      HoldsTwo(doc, i, MINUS, LETTER_I, NFINITY_TEXT);
    }
  }

  lemma NoExtension(doc: Text, features: Features, start: nat, token: Token)
    requires start <= |doc| && !IsSpecial(token.kind)
    requires start < |doc| ==>
               Punctuation(doc[start]).Some? || doc[start] in {0, SLASH, QUOTE, 't' as int, 'f' as int, 'n' as int}
               || IsDigit(doc[start])
    ensures ExtensionRead(doc, features, start, token)
  {
    hide StringEnd, Holds;
    if start < |doc| {
      SpecialStarts(doc, start);
    } else {
      NothingHolds(doc);
    }
  }

  lemma SingleQuoted(doc: Text, features: Features, start: nat, token: Token)
    requires start < |doc| && doc[start] == APOSTROPHE && (token.kind.StringToken? || token.kind.ErrorToken?)
    requires token.start == start && (token.kind.StringToken? ==> features.allowSingleQuotes)
    requires features.allowSingleQuotes ==>
               var end := StringEnd(doc, start + 1, APOSTROPHE);
               (token.kind.StringToken? <==> end.1) && (end.1 ==> token.end == end.0)
    ensures ExtensionRead(doc, features, start, token)
  {
    hide StringEnd, Holds;
    SpecialStarts(doc, start);
  }

  lemma NothingHolds(doc: Text)
    ensures SpecialRead(doc, |doc|, Token(EndOfStream, |doc|, |doc|))
  {
  }

  lemma NothingToRead(doc: Text)
    ensures LiteralRead(doc, |doc|, Token(EndOfStream, |doc|, |doc|))
  {
  }

  lemma NoLiteral(doc: Text, start: nat, token: Token)
    requires start < |doc| && (Punctuation(doc[start]).Some? || doc[start] == 0)
    ensures LiteralRead(doc, start, token)
  {
    hide StringEnd, DigitsEnd, Holds;
    LiteralStarts(doc, start);
  }

  /** A digit, or a sign in front of anything but an infinity. */
  predicate StartsNumber(doc: Text, start: nat) {
    && start < |doc|
    && (IsDigit(doc[start]) || ((doc[start] == MINUS || doc[start] == PLUS) && !StartsInfinity(doc, start + 1)))
  }

  predicate StartsInfinity(doc: Text, i: nat) {
    i < |doc| && doc[i] == LETTER_I
  }

  // ------------------------------------------------------------------
  // The scanner
  // ------------------------------------------------------------------

  class Scanner {
    const features: Features
    var doc: Text
    var current: nat

    ghost predicate Valid()
      reads this
    {
      current <= |doc|
    }

    constructor (features: Features)
      ensures this.features == features && Valid() && doc == []
    {
      this.features, doc, current := features, [], 0;
    }

    /** `getNextChar` */
    method GetNextChar() returns (c: byte)
      requires Valid()
      modifies this`current
      ensures Valid() && if old(current) == |doc| then c == 0 && current == |doc|
              else c == doc[old(current)] && current == old(current) + 1
    {
      if current == |doc| {
        return 0;
      }
      c := doc[current];
      current := current + 1;
    }

    /** `skipSpaces` */
    method SkipSpaces()
      requires Valid()
      modifies this`current
      ensures Valid() && current == SkipSpace(doc, old(current))
      ensures forall j :: old(current) <= j < current ==> doc[j] in {9, 10, 13, 32}
      ensures current < |doc| ==> doc[current] !in {9, 10, 13, 32}
    {
      while current != |doc|
        invariant old(current) <= current <= |doc| && SkipSpace(doc, old(current)) == SkipSpace(doc, current)
        decreases |doc| - current
      {
        if !IsSpace(doc[current]) {
          break;
        }
        current := current + 1;
      }
    }

    /** `match`: compares from the end of the pattern on. */
    method MatchText(pattern: Text) returns (ok: bool)
      requires Valid()
      modifies this`current
      ensures Valid() && ok == Holds(doc, old(current), pattern)
      ensures current == if ok then old(current) + |pattern| else old(current)
    {
      if |doc| - current < |pattern| {
        return false;
      }
      var index := |pattern|;
      while index > 0
        invariant 0 <= index <= |pattern|
        invariant forall k :: index <= k < |pattern| ==> doc[current + k] == pattern[k]
      {
        index := index - 1;
        if doc[current + index] != pattern[index] {
          assert doc[current..current + |pattern|][index] != pattern[index];
          return false;
        }
      }
      assert doc[current..current + |pattern|] == pattern;
      current := current + |pattern|;
      ok := true;
    }

    /** `readString` and `readStringSingleQuote` */
    method ReadString(quote: byte) returns (ok: bool)
      requires Valid() && quote != 0 && quote != BACKSLASH
      modifies this`current
      ensures Valid() && (current, ok) == StringEnd(doc, old(current), quote)
    {
      var c: byte := 0;
      while current != |doc|
        invariant old(current) <= current <= |doc| && c != quote
        invariant StringEnd(doc, old(current), quote) == StringEnd(doc, current, quote)
        decreases |doc| - current
      {
        c := GetNextChar();
        if c == BACKSLASH {
          var _ := GetNextChar();
        } else if c == quote {
          break;
        }
      }
      ok := c == quote;
    }

    /**
     `readCStyleComment`: ends behind the first closing mark. Without one it is still
     accepted if and only if a slash is the last octet of the document.
     */
    method ReadCStyleComment() returns (ok: bool)
      requires Valid()
      modifies this`current
      ensures Valid()
      ensures var close := CommentClose(doc, old(current));
              if close < |doc| then ok && current == close + 2
              else current == |doc| && (ok <==> old(current) < |doc| && doc[|doc| - 1] == SLASH)
    {
      while current + 1 < |doc|
        invariant old(current) <= current <= |doc| && (old(current) < |doc| ==> current < |doc|)
        invariant CommentClose(doc, old(current)) == CommentClose(doc, current)
        decreases |doc| - current
      {
        var c := GetNextChar();
        if c == STAR && doc[current] == SLASH {
          var slash := GetNextChar();
          return slash == SLASH;
        }
      }
      var c := GetNextChar();
      ok := c == SLASH;
    }

    /** `readCppStyleComment`: to the end of the line. */
    method ReadCppStyleComment() returns (ok: bool)
      requires Valid()
      modifies this`current
      ensures Valid() && ok && current == LineEnd(doc, old(current))
    {
      ok := true;
      while current != |doc|
        invariant old(current) <= current <= |doc| && LineEnd(doc, old(current)) == LineEnd(doc, current)
        decreases |doc| - current
      {
        var c := GetNextChar();
        if c == NEWLINE {
          return;
        }
        if c == RETURN {
          if current != |doc| && doc[current] == NEWLINE {
            var _ := GetNextChar();
          }
          return;
        }
      }
    }

    /** `readComment`, as far as skipping is concerned. */
    method ReadComment() returns (ok: bool)
      requires Valid() && 0 < current && doc[current - 1] == SLASH
      modifies this`current
      ensures Valid() && current >= old(current)
      ensures ok <==> CommentAt(doc, old(current) - 1)
      ensures ok ==> current == CommentEnd(doc, old(current) - 1)
    {
      var c := GetNextChar();
      if c == STAR {
        ok := ReadCStyleComment();
      } else if c == SLASH {
        ok := ReadCppStyleComment();
      } else {
        ok := false;
      }
    }

    /** After `c = (current_ = p) < end_ ? *p++ : 0`. */
    ghost predicate Fetched(c: byte, p: nat)
      reads this
    {
      if current == |doc| then c == 0 && p == |doc| else current < |doc| && c == doc[current] && p == current + 1
    }

    method Fetch(p: nat) returns (c: byte, next: nat)
      requires p <= |doc|
      modifies this`current
      ensures current == p && Fetched(c, next)
    {
      current := p;
      if current < |doc| {
        c, next := doc[p], p + 1;
      } else {
        c, next := 0, p;
      }
    }

    /** The loops over digits in `readNumber`. */
    method ReadDigits(first: byte, p: nat) returns (c: byte, next: nat)
      requires Valid() && current <= p <= |doc| && (IsDigit(first) || Fetched(first, p))
      modifies this`current
      ensures Valid() && Fetched(c, next) && !IsDigit(c) && current >= old(current)
      ensures if IsDigit(first) then current == DigitsEnd(doc, p) else c == first && current == old(current)
    {
      c, next := first, p;
      while IsDigit(c)
        invariant Valid() && old(current) <= current <= next <= |doc| && (IsDigit(c) || Fetched(c, next))
        invariant if IsDigit(c) then IsDigit(first) && DigitsEnd(doc, p) == DigitsEnd(doc, next)
                  else if IsDigit(first) then current == DigitsEnd(doc, p)
                    else c == first && current == old(current) && next == p
        decreases |doc| - next, IsDigit(c)
      {
        ghost var from := next;
        c, next := Fetch(next);
        assert DigitsEnd(doc, from) == if IsDigit(c) then DigitsEnd(doc, next) else from;
      }
    }

    /** The fraction and the exponent of `readNumber`. */
    method ReadFraction(first: byte, p: nat) returns (c: byte, next: nat)
      requires Valid() && Fetched(first, p)
      modifies this`current
      ensures Valid() && Fetched(c, next) && current == FractionEnd(doc, old(current))
    {
      hide DigitsEnd;
      c, next := first, p;
      if c == '.' as int {
        c, next := Fetch(next);
        c, next := ReadMoreDigits(c, next);
      }
    }

    method ReadExponent(first: byte, p: nat)
      requires Valid() && Fetched(first, p)
      modifies this`current
      ensures Valid() && current == ExponentEnd(doc, old(current))
    {
      hide DigitsEnd;
      var c, next := first, p;
      if c == 'e' as int || c == 'E' as int {
        c, next := Fetch(next);
        if c == PLUS || c == MINUS {
          c, next := Fetch(next);
        }
        c, next := ReadMoreDigits(c, next);
      }
    }

    /** Digits, where there need not be any. */
    method ReadMoreDigits(first: byte, p: nat) returns (c: byte, next: nat)
      requires Valid() && Fetched(first, p)
      modifies this`current
      ensures Valid() && Fetched(c, next) && current == DigitsEnd(doc, old(current))
    {
      c, next := ReadDigits(first, p);
    }

    /** `readNumber`; false when an infinity was begun instead. */
    method ReadNumber(checkInf: bool) returns (ok: bool)
      requires Valid()
      modifies this`current
      ensures Valid() && current >= old(current)
      ensures ok <==> !(checkInf && StartsInfinity(doc, old(current)))
      ensures !ok ==> current == old(current) + 1
      ensures ok ==> current == NumberEnd(doc, old(current))
    {
      hide DigitsEnd, FractionEnd, ExponentEnd;
      var p := current;
      if checkInf && p != |doc| && doc[p] == LETTER_I {
        p := p + 1;
        current := p;
        return false;
      }
      var c: byte := '0' as int;
      c, p := ReadDigits(c, p);
      c, p := ReadFraction(c, p);
      ReadExponent(c, p);
      ok := true;
    }

    /** `readToken` */
    method ReadToken() returns (ok: bool, token: Token)
      requires Valid()
      modifies this`current
      ensures Valid() && current == token.end >= old(current)
      ensures TokenRead(doc, SkipSpace(doc, old(current)), ok, token)
      ensures ExtensionRead(doc, features, SkipSpace(doc, old(current)), token)
      ensures token.kind == EndOfStream ==> Exhausted(doc, current)
    {
      hide Holds, SkipSpace, LiteralRead, IsDigit, ExtensionRead;
      SkipSpaces();
      var start := current;
      var c := GetNextChar();
      ok := true;
      var kind := ErrorToken;
      if start == |doc| {
        NothingToRead(doc);
      }
      if Punctuation(c).Some? {
        kind := Punctuation(c).value;
        NoLiteral(doc, start, Token(kind, start, current));
        NoExtension(doc, features, start, Token(kind, start, current));
      } else if c == 0 {
        kind := EndOfStream;
        if start < |doc| {
          NoLiteral(doc, start, Token(kind, start, current));
        }
        NoExtension(doc, features, start, Token(kind, start, current));
      } else {
        ok, kind := ReadLonger(c);
      }
      token := Token(kind, start, current);
    }

    /** The cases of the switch that read on. */
    method ReadLonger(c: byte) returns (ok: bool, kind: TokenType)
      requires Valid() && 0 < current && doc[current - 1] == c && Punctuation(c).None? && c != 0
      modifies this`current
      ensures Valid() && current >= old(current) && (ok <==> kind != ErrorToken) && kind != EndOfStream
              && !IsPunctuation(kind)
      ensures kind.StringToken? ==> QuotedTo(doc, old(current) - 1, current)
      ensures kind.CommentToken? <==> CommentAt(doc, old(current) - 1)
      ensures CommentAt(doc, old(current) - 1) ==> current == CommentEnd(doc, old(current) - 1)
      ensures c == SLASH ==> (ok <==> CommentAt(doc, old(current) - 1))
      ensures LiteralRead(doc, old(current) - 1, Token(kind, old(current) - 1, current))
      ensures WordRead(doc, old(current) - 1, Token(kind, old(current) - 1, current))
      ensures ExtensionRead(doc, features, old(current) - 1, Token(kind, old(current) - 1, current))
    {
      hide Holds, StringEnd, DigitsEnd, ExtensionRead;
      ghost var start := current - 1;
      LiteralStarts(doc, current - 1);
      ok, kind := true, ErrorToken;
      if c == QUOTE {
        kind := StringToken;
        ok := ReadString(QUOTE);
        NoExtension(doc, features, start, Token(if ok then kind else ErrorToken, start, current));
      } else if c == APOSTROPHE {
        if features.allowSingleQuotes {
          kind := StringToken;
          ok := ReadString(APOSTROPHE);
        } else {
          ok := false;
        }
        SingleQuoted(doc, features, start, Token(if ok then kind else ErrorToken, start, current));
      } else if c == SLASH {
        kind := CommentToken;
        ok := ReadComment();
        NoExtension(doc, features, start, Token(if ok then kind else ErrorToken, start, current));
      } else if IsDigit(c) {
        kind := NumberToken;
        var _ := ReadNumber(false);
        NoExtension(doc, features, start, Token(kind, start, current));
      } else if c == MINUS || c == PLUS {
        ok, kind := ReadSigned(c);
      } else {
        kind, ok := ReadWord(c);
      }
      if !ok {
        kind := ErrorToken;
      }
    }

    /** A number behind its sign, or an infinity. */
    method ReadSigned(c: byte) returns (ok: bool, kind: TokenType)
      requires Valid() && 0 < current && doc[current - 1] == c && (c == MINUS || c == PLUS)
      modifies this`current
      ensures Valid() && current >= old(current) && kind in {NumberToken, NegInfToken, PosInfToken}
      ensures ok ==> WordRead(doc, old(current) - 1, Token(kind, old(current) - 1, current))
      ensures !StartsInfinity(doc, old(current)) ==> ok && kind == NumberToken
      ensures !StartsInfinity(doc, old(current)) ==> current == NumberEnd(doc, old(current))
      ensures ExtensionRead(doc, features, old(current) - 1,
                            Token(if ok then kind else ErrorToken, old(current) - 1, current))
    {
      hide DigitsEnd, Holds;
      SpecialStarts(doc, current - 1);
      ok := ReadNumber(true);
      if ok {
        kind := NumberToken;
      } else {
        kind := if c == MINUS then NegInfToken else PosInfToken;
        if features.allowSpecialFloats {
          HoldsTwo(doc, current - 2, c, LETTER_I, NFINITY_TEXT);
          ok := MatchText(NFINITY_TEXT);
        }
      }
    }

    /** The literal names, `c` being their first letter. */
    method ReadWord(c: byte) returns (kind: TokenType, ok: bool)
      requires Valid() && 0 < current && doc[current - 1] == c && Punctuation(c).None? && c != APOSTROPHE && c != QUOTE
               && c != MINUS && c != PLUS
      modifies this`current
      ensures Valid() && current >= old(current)
      ensures kind in {TrueToken, FalseToken, NullToken, NaNToken, PosInfToken, ErrorToken}
              && (ok ==> kind != ErrorToken)
      ensures ok ==> WordRead(doc, old(current) - 1, Token(kind, old(current) - 1, current))
      ensures var start := old(current) - 1;
              && (Holds(doc, start, NULL_TEXT) ==> ok && kind == NullToken && current == start + 4)
              && (Holds(doc, start, TRUE_TEXT) ==> ok && kind == TrueToken && current == start + 4)
              && (Holds(doc, start, FALSE_TEXT) ==> ok && kind == FalseToken && current == start + 5)
      ensures ExtensionRead(doc, features, old(current) - 1,
                            Token(if ok then kind else ErrorToken, old(current) - 1, current))
    {
      hide Holds;
      SpecialStarts(doc, current - 1);
      HoldsFirst(doc, current - 1, NULL_TEXT);
      HoldsFirst(doc, current - 1, TRUE_TEXT);
      HoldsFirst(doc, current - 1, FALSE_TEXT);
      HoldsFirst(doc, current - 1, NAN_TEXT);
      HoldsFirst(doc, current - 1, [LETTER_I] + NFINITY_TEXT);
      assert ([LETTER_I] + NFINITY_TEXT)[1..] == NFINITY_TEXT;
      kind, ok := ErrorToken, false;
      if c == 't' as int {
        kind := TrueToken;
        ok := MatchText(TRUE_TEXT[1..]);
      } else if c == 'f' as int {
        kind := FalseToken;
        ok := MatchText(FALSE_TEXT[1..]);
      } else if c == 'n' as int {
        kind := NullToken;
        ok := MatchText(NULL_TEXT[1..]);
      } else if c == 'N' as int {
        if features.allowSpecialFloats {
          kind := NaNToken;
          ok := MatchText(NAN_TEXT[1..]);
        }
      } else if c == LETTER_I {
        if features.allowSpecialFloats {
          kind := PosInfToken;
          ok := MatchText(NFINITY_TEXT);
        }
      }
    }
  }

  /** A comment that is closed only by its own opening mark is accepted. */
  method AcceptsUnclosedComment(scanner: Scanner) returns (ok: bool, token: Token)
    requires scanner.doc == [SLASH, STAR, SLASH] && scanner.current == 0
    modifies scanner`current
    ensures ok && token == Token(CommentToken, 0, 3) && CommentClose(scanner.doc, 2) == |scanner.doc|
  {
    hide TokenRead, SkipSpace;
    UnclosedComment();
    ok, token := scanner.ReadToken();
    CommentRead(scanner.doc, 0, ok, token);
  }

  /** No closing mark follows the opening one; yet this counts as a comment, as the document ends in a slash. */
  lemma UnclosedComment()
    ensures var doc := [SLASH, STAR, SLASH];
            && SkipSpace(doc, 0) == 0 && CommentClose(doc, 2) == |doc|
            && CommentAt(doc, 0) && CommentEnd(doc, 0) == |doc| && !CommentAt(doc + [SPACE], 0)
  {
    assert ([SLASH, STAR, SLASH] + [SPACE])[3] == SPACE;
    assert CommentClose([SLASH, STAR, SLASH] + [SPACE], 2) == CommentClose([SLASH, STAR, SLASH] + [SPACE], 3) == 4;
  }

  /** A token is a comment exactly where one stands. */
  lemma CommentRead(doc: Text, start: nat, ok: bool, token: Token)
    requires TokenRead(doc, start, ok, token)
    ensures start <= |doc| && token.start == start <= token.end <= |doc|
            && (token.kind != EndOfStream ==> start < token.end)
    ensures token.kind == CommentToken <==> CommentAt(doc, start)
    ensures token.kind == CommentToken ==> ok && token.end == CommentEnd(doc, start)
  {
    hide LiteralRead, WordRead, CommentAt, CommentEnd;
  }
}
