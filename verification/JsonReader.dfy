/**
 The parser of jsoncpp's `OurReader` (json_reader.cpp): a recursive descent with an
 explicit stack of the values under construction, and error recovery.
 */
module JsonReader {
  import opened Wrappers
  import opened Octets
  import opened JsonValue
  import opened JsonInteger
  import opened JsonString
  import opened JsonText
  import opened JsonMembers
  import opened JsonLexer
  import opened JsonSpelling

  datatype Exception = StackLimitExceeded | KeyTooLong

  // ------------------------------------------------------------------
  // Depth
  // ------------------------------------------------------------------

  lemma {:induction false} DepthOfBounds(entries: seq<Entry>, limit: nat)
    ensures DepthOf(entries) <= limit
       <==> forall i :: 0 <= i < |entries| ==> 1 + Depth(entries[i].value) <= limit
  {
    if entries != [] {
      DepthOfBounds(entries[1..], limit);
      assert forall i :: 1 <= i < |entries| ==> entries[i] == entries[1..][i - 1];
    }
  }

  // ------------------------------------------------------------------
  // The reader
  // ------------------------------------------------------------------

  class OurReader {
    const features: Features
    const scanner: Scanner
    /** Floating-point text is a parameter: `operator>>` and `valueToString(double)`. */
    const toDouble: Text -> Option<Double>
    const doubleText: Double -> Text
    /** The values under construction, the innermost last. */
    var nodes: seq<Value>
    var errors: seq<string>
    var thrown: Option<Exception>

    ghost predicate Valid()
      reads this, scanner
    {
      scanner.features == features && scanner.Valid() && nodes != [] && thrown == None
    }

    constructor (features: Features, toDouble: Text -> Option<Double>, doubleText: Double -> Text)
      ensures this.features == features && fresh(scanner) && nodes == [] && errors == [] && thrown == None
      ensures scanner.features == features && scanner.Valid()
    {
      this.features, this.toDouble, this.doubleText := features, toDouble, doubleText;
      scanner := new Scanner(features);
      nodes, errors, thrown := [], [], None;
    }

    /** `currentValue().swapPayload(v)` */
    method SetCurrent(v: Value)
      requires nodes != []
      modifies this`nodes
      ensures nodes == old(nodes)[..|old(nodes)| - 1] + [v]
    {
      nodes := nodes[..|nodes| - 1] + [v];
    }

    /** `addError` */
    method AddError(message: string)
      modifies this`errors
      ensures errors == old(errors) + [message]
    {
      errors := errors + [message];
    }

    /** Reads tokens until one is no comment. */
    method ReadPastComments() returns (ok: bool, token: Token)
      requires scanner.Valid()
      modifies scanner`current
      ensures scanner.Valid() && old(scanner.current) <= token.start <= token.end == scanner.current
      ensures TokenRead(scanner.doc, token.start, ok, token)
      ensures token.start == PastComments(scanner.doc, old(scanner.current)) && token.kind != CommentToken
      ensures token.kind == EndOfStream ==> Exhausted(scanner.doc, scanner.current)
    {
      hide Exhausted, TokenRead, SkipSpace, CommentAt;
      ok, token := scanner.ReadToken();
      CommentRead(scanner.doc, SkipSpace(scanner.doc, old(scanner.current)), ok, token);
      while token.kind == CommentToken && ok
        invariant scanner.Valid() && old(scanner.current) <= token.start <= token.end == scanner.current
        invariant token.kind == EndOfStream ==> Exhausted(scanner.doc, scanner.current)
        invariant TokenRead(scanner.doc, token.start, ok, token)
        invariant (token.kind == CommentToken <==> CommentAt(scanner.doc, token.start))
                  && (token.kind == CommentToken ==> ok)
        invariant PastComments(scanner.doc, old(scanner.current))
               == if CommentAt(scanner.doc, token.start) then PastComments(scanner.doc, scanner.current)
                  else token.start
        decreases |scanner.doc| - scanner.current, token.kind == CommentToken
      {
        ghost var from := SkipSpace(scanner.doc, scanner.current);
        ok, token := scanner.ReadToken();
        CommentRead(scanner.doc, from, ok, token);
      }
    }

    /** `skipCommentTokens` */
    method SkipCommentTokens() returns (ok: bool, token: Token)
      requires scanner.Valid()
      modifies scanner`current
      ensures scanner.Valid() && old(scanner.current) <= token.start <= token.end == scanner.current
      ensures TokenRead(scanner.doc, token.start, ok, token)
      ensures token.start == if features.allowComments then PastComments(scanner.doc, old(scanner.current))
                             else SkipSpace(scanner.doc, old(scanner.current))
      ensures features.allowComments ==> token.kind != CommentToken
      ensures token.kind == EndOfStream ==> Exhausted(scanner.doc, scanner.current)
    {
      hide Exhausted, TokenRead, SkipSpace, PastComments;
      if features.allowComments {
        ok, token := ReadPastComments();
      } else {
        ok, token := scanner.ReadToken();
        TokenStarts(scanner.doc, SkipSpace(scanner.doc, old(scanner.current)), ok, token);
      }
    }

    /** `recoverFromError`: errors that recovery itself would cause are discarded. */
    method RecoverFromError(skipUntil: TokenType) returns (ok: bool)
      requires scanner.Valid()
      modifies scanner`current, this`errors
      ensures scanner.Valid() && scanner.current >= old(scanner.current)
      ensures !ok && errors == old(errors)
      ensures IsPunctuation(skipUntil) ==> Recovered(scanner.doc, scanner.current, skipUntil)
    {
      hide TokenRead, SkipSpace;
      var errorCount := |errors|;
      var more := true;
      while more
        invariant scanner.Valid() && scanner.current >= old(scanner.current) && errors == old(errors)
                  && errorCount == |errors|
        invariant !more && IsPunctuation(skipUntil) ==> Recovered(scanner.doc, scanner.current, skipUntil)
        decreases |scanner.doc| - scanner.current, more
      {
        ghost var from := SkipSpace(scanner.doc, scanner.current);
        var read, skip := scanner.ReadToken();
        TokenStarts(scanner.doc, from, read, skip);
        MarkRead(scanner.doc, from, read, skip);
        if !read {
          errors := errors[..errorCount];
        }
        more := skip.kind != skipUntil && skip.kind != EndOfStream;
      }
      errors := errors[..errorCount];
      ok := false;
    }

    /** `addErrorAndRecover` */
    method AddErrorAndRecover(message: string, skipUntil: TokenType) returns (ok: bool)
      requires scanner.Valid()
      modifies scanner`current, this`errors
      ensures scanner.Valid() && scanner.current >= old(scanner.current)
      ensures !ok && errors == old(errors) + [message]
      ensures IsPunctuation(skipUntil) ==> Recovered(scanner.doc, scanner.current, skipUntil)
    {
      AddError(message);
      ok := RecoverFromError(skipUntil);
    }

    /** `decodeNumber(token, decoded)`, with `decodeDouble`; nothing when an error was added. */
    method DecodeNumberToken(token: Token) returns (decoded: Option<Value>)
      requires token.start < token.end <= |scanner.doc|
      modifies this`errors
      ensures decoded.Some? ==> errors == old(errors)
      ensures decoded.None? ==> |errors| == |old(errors)| + 1 && old(errors) <= errors
      ensures var text := scanner.doc[token.start..token.end];
              decoded == if IntegerOf(text).Some? then IntegerOf(text)
                         else if toDouble(text).Some? then Some(Real(toDouble(text).value)) else None
    {
      var text := scanner.doc[token.start..token.end];
      decoded := DecodeNumber(text);
      if decoded.None? {
        var value := toDouble(text);
        if value.None? {
          AddError("not a number");
          return None;
        }
        decoded := Some(Real(value.value));
      }
    }

    /** `decodeString(token, decoded)` */
    method DecodeStringToken(token: Token) returns (decoded: Option<seq<byte>>)
      requires token.start + 2 <= token.end <= |scanner.doc|
      modifies this`errors
      ensures decoded.Some? ==> errors == old(errors)
      ensures decoded.None? ==> |errors| == |old(errors)| + 1 && old(errors) <= errors
      ensures decoded == Unescaped(scanner.doc[token.start..token.end][1..token.end - token.start - 1])
    {
      decoded := DecodeString(scanner.doc[token.start..token.end]);
      if decoded.None? {
        AddError("Bad escape sequence in string");
      }
    }

    /** If names must not be given twice, they are not. */
    predicate NoClash(w: Value) {
      features.rejectDupKeys ==> Distinct(w)
    }

    /** What a value at hand demands of the text, and of what may follow it. */
    ghost predicate Expecting(want: Option<Value>, emitUTF8: bool, comma: Separator, rest: seq<Text>)
      reads this, scanner
    {
      want.Some? ==>
        && Legible(want.value, emitUTF8) && NoClash(want.value) && Follows(rest)
        && Spells(scanner.doc, scanner.current, Tokens(want.value, emitUTF8, comma) + rest)
    }

    /** Where `skipCommentTokens` finds its token. */
    function NextToken(): (k: nat)
      requires scanner.Valid()
      reads this, scanner
    {
      if features.allowComments then PastComments(scanner.doc, scanner.current)
      else SkipSpace(scanner.doc, scanner.current)
    }

    /**
     `readValue`. It returns on every input; the stack is then as high as before, and an
     error was added exactly when it returns false. Only a stack over its limit or a
     key too long is thrown. If the text spells the value `want`, that value is read
     and nothing else, unless its nesting exceeds the limit, which is thrown.
     */
    method ReadValue(ghost want: Option<Value>, ghost emitUTF8: bool, ghost comma: Separator, ghost rest: seq<Text>)
      returns (ok: bool)
      requires Valid() && Expecting(want, emitUTF8, comma, rest)
      modifies this`nodes, this`errors, this`thrown, scanner`current
      ensures scanner.Valid() && scanner.current >= old(scanner.current)
      ensures thrown == None ==> Balanced(old(nodes), nodes) && Reported(old(errors), errors, ok)
      ensures thrown == None ==> |old(nodes)| <= features.stackLimit
      ensures thrown != None ==> !ok
      ensures thrown == Some(StackLimitExceeded) ==> |nodes| > features.stackLimit
      ensures |old(nodes)| <= features.stackLimit && PlaceholderAt(scanner.doc, old(NextToken())) ==>
                && thrown == None && ok == features.allowDroppedNullPlaceholders
                && (ok ==> nodes[|nodes| - 1] == Null && scanner.current == old(NextToken()))
      ensures want.Some? ==>
                if |old(nodes)| + Depth(want.value) > features.stackLimit then thrown == Some(StackLimitExceeded)
                else
                  && thrown == None && ok && nodes[|nodes| - 1] == Settled(want.value)
                  && Spells(scanner.doc, scanner.current, rest)
      decreases |scanner.doc| - scanner.current, 0, 0
    {
      hide Balanced, Distinct, OurReader.NoClash, IsPunctuation, LegibleItems, LegibleMembers;
      hide Exhausted, PastComments, PlaceholderAt, OctetAt, OurReader.ScalarRead, IsPlaceholder, Reported, CommentAt;
      hide TokenRead, SkipSpace, Spells, Tokens, Legible, Follows, ScalarToken, TokenFor, Depth, Settled;
      if |nodes| > features.stackLimit {
        thrown := Some(StackLimitExceeded);
        return false;
      }
      ghost var start := scanner.current;
      if want.Some? {
        ValueStarts(scanner.doc, start, want.value, emitUTF8, comma, rest);
      }
      var tokenOk, token := SkipCommentTokens();
      TokenStarts(scanner.doc, token.start, tokenOk, token);
      PlaceholderIs(scanner.doc, token.start, tokenOk, token);
      if want.Some? {
        FirstToken(scanner.doc, start, want.value, emitUTF8, comma, rest, tokenOk, token);
      }
      if token.kind == ObjectBegin || token.kind == ArrayBegin {
        ok := ReadContainer(token, want, emitUTF8, comma, rest);
      } else {
        if want.Some? {
          ScalarIsFlat(scanner.doc, token, want.value, emitUTF8, comma, rest);
        }
        ok := ReadScalar(token, want);
      }
    }

    /** The cases of the switch for objects and arrays. */
    method ReadContainer(token: Token, ghost want: Option<Value>, ghost emitUTF8: bool, ghost comma: Separator,
                         ghost rest: seq<Text>)
      returns (ok: bool)
      requires Valid() && |nodes| <= features.stackLimit
      requires (token.kind == ObjectBegin || token.kind == ArrayBegin) && token.end == scanner.current
      requires want.Some? ==>
                 && Legible(want.value, emitUTF8) && NoClash(want.value) && Follows(rest)
                 && TokenFor(scanner.doc, token, want.value, emitUTF8, comma, rest)
      modifies this`nodes, this`errors, this`thrown, scanner`current
      ensures scanner.Valid() && scanner.current >= old(scanner.current)
      ensures thrown == None ==> Balanced(old(nodes), nodes) && Reported(old(errors), errors, ok)
      ensures thrown != None ==> !ok
      ensures thrown == Some(StackLimitExceeded) ==> |nodes| > features.stackLimit
      ensures want.Some? ==>
                if |old(nodes)| + Depth(want.value) > features.stackLimit then thrown == Some(StackLimitExceeded)
                else
                  && thrown == None && ok && nodes[|nodes| - 1] == Settled(want.value)
                  && Spells(scanner.doc, scanner.current, rest)
      decreases |scanner.doc| - scanner.current, 3
    {
      hide Spells, Legible, Follows, ScalarToken, ItemTokens, MemberTokens, ExceedsBelow;
      hide LegibleItems, LegibleMembers;
      hide Depth, DepthOf, Settled, SettledItems;
      if want.Some? {
        ScalarKind(scanner.doc, token, want.value);
        LegibleParts(want.value, emitUTF8);
        ExceedsIsDepth(want.value.entries, |nodes|, features.stackLimit);
      }
      if token.kind == ObjectBegin {
        ok := ReadObject(if want.Some? then Some(want.value.entries) else None, emitUTF8, comma, rest);
      } else {
        ok := ReadArray(if want.Some? then Some(want.value.entries) else None, emitUTF8, comma, rest);
      }
    }

    /** The cases of the switch that are no array or object. */
    method ReadScalar(token: Token, ghost want: Option<Value>) returns (ok: bool)
      requires Valid() && token.end == scanner.current
      requires if token.kind == EndOfStream then token.start <= token.end else token.start < token.end
      requires token.kind == StringToken ==> token.start + 2 <= token.end
      requires IsPlaceholder(token.kind) ==> token.start + 1 == token.end
      requires want.Some? ==> token.start < token.end && ScalarToken(scanner.doc, token, want.value)
      modifies this`nodes, this`errors, scanner`current
      ensures Balanced(old(nodes), nodes) && Reported(old(errors), errors, ok)
      ensures scanner.Valid() && scanner.current >= token.start
      ensures ScalarRead(token, ok)
      ensures IsPlaceholder(token.kind) ==> ok == features.allowDroppedNullPlaceholders
      ensures features.allowDroppedNullPlaceholders && IsPlaceholder(token.kind) ==>
                nodes[|nodes| - 1] == Null && scanner.current == token.start
      ensures !features.allowDroppedNullPlaceholders || !IsPlaceholder(token.kind) ==>
                scanner.current == old(scanner.current)
      ensures want.Some? ==> ok && nodes[|nodes| - 1] == Settled(want.value) && scanner.current == old(scanner.current)
    {
      hide IntegerOf, Unescaped;
      ok := true;
      if IsPlaceholder(token.kind) && features.allowDroppedNullPlaceholders {
        scanner.current := scanner.current - 1;
        SetCurrent(Null);
        return;
      }
      if token.kind == NumberToken {
        ok := ReadNumber(token);
      } else if token.kind == StringToken {
        ok := ReadString(token);
      } else {
        ok := ReadWord(token);
      }
    }

    /** Literal names and special floats; anything else is no value. */
    method ReadWord(token: Token) returns (ok: bool)
      requires Valid() && token.start <= token.end <= |scanner.doc| && token.kind != NumberToken
               && token.kind != StringToken
      modifies this`nodes, this`errors
      ensures Balanced(old(nodes), nodes) && Reported(old(errors), errors, ok) && ScalarRead(token, ok)
    {
      ok := true;
      if token.kind == TrueToken {
        SetCurrent(Bool(true));
      } else if token.kind == FalseToken {
        SetCurrent(Bool(false));
      } else if token.kind == NullToken {
        SetCurrent(Null);
      } else if token.kind == NaNToken {
        SetCurrent(Real(NaN));
      } else if token.kind == PosInfToken {
        SetCurrent(Real(PositiveInfinity));
      } else if token.kind == NegInfToken {
        SetCurrent(Real(NegativeInfinity));
      } else {
        AddError("Syntax error: value, object or array expected.");
        ok := false;
      }
    }

    /** `decodeNumber(token)` */
    method ReadNumber(token: Token) returns (ok: bool)
      requires Valid() && token.start < token.end <= |scanner.doc| && token.kind == NumberToken
      modifies this`nodes, this`errors
      ensures Balanced(old(nodes), nodes) && Reported(old(errors), errors, ok) && ScalarRead(token, ok)
    {
      hide IntegerOf;
      var decoded := DecodeNumberToken(token);
      ok := decoded.Some?;
      if ok {
        SetCurrent(decoded.value);
      }
    }

    /** `decodeString(token)` */
    method ReadString(token: Token) returns (ok: bool)
      requires Valid() && token.start + 2 <= token.end <= |scanner.doc| && token.kind == StringToken
      modifies this`nodes, this`errors
      ensures Balanced(old(nodes), nodes) && Reported(old(errors), errors, ok) && ScalarRead(token, ok)
    {
      hide Unescaped;
      var decoded := DecodeStringToken(token);
      ok := decoded.Some?;
      if ok {
        SetCurrent(String(decoded.value));
      }
    }

    /** What the value is that a single token stands for, on every input. */
    ghost predicate ScalarRead(token: Token, ok: bool)
      requires nodes != [] && token.start <= token.end <= |scanner.doc|
      reads this, scanner
    {
      var top, text := nodes[|nodes| - 1], scanner.doc[token.start..token.end];
      match token.kind
      case NullToken => ok && top == Null
      case TrueToken => ok && top == Bool(true)
      case FalseToken => ok && top == Bool(false)
      case NaNToken => ok && top == Real(NaN)
      case PosInfToken => ok && top == Real(PositiveInfinity)
      case NegInfToken => ok && top == Real(NegativeInfinity)
      case NumberToken =>
        && text != []
        && (if IntegerOf(text).Some? then ok && top == IntegerOf(text).value
            else (ok <==> toDouble(text).Some?) && (ok ==> top == Real(toDouble(text).value)))
      case StringToken =>
        && |text| >= 2
        && (var decoded := Unescaped(text[1..|text| - 1]);
            (ok <==> decoded.Some?) && (ok ==> top == String(decoded.value)))
      case _ => ok ==> IsPlaceholder(token.kind) && features.allowDroppedNullPlaceholders && top == Null
    }

    /** The child on top of the stack becomes the next element of the array below it. */
    method PopItem()
      requires |nodes| >= 2 && nodes[|nodes| - 2].Array?
      modifies this`nodes
      ensures var n, items := |old(nodes)| - 2, old(nodes)[|old(nodes)| - 2].entries;
              nodes == old(nodes)[..n] + [Array(items + [Entry(Index(|items|), old(nodes)[n + 1])])]
    {
      var n := |nodes| - 2;
      var items := nodes[n].entries;
      nodes := nodes[..n] + [Array(items + [Entry(Index(|items|), nodes[n + 1])])];
    }

    /** `readArray`, behind the bracket. */
    method ReadArray(ghost want: Option<seq<Entry>>, ghost emitUTF8: bool, ghost comma: Separator,
                     ghost rest: seq<Text>)
      returns (ok: bool)
      requires Valid()
      requires want.Some? ==> LegibleItems(want.value, emitUTF8) && NoClash(Array(want.value)) && Follows(rest)
      requires want.Some? ==> Spells(scanner.doc, scanner.current, ItemTokens(want.value, emitUTF8, true, comma) + rest)
      modifies this`nodes, this`errors, this`thrown, scanner`current
      ensures scanner.Valid() && scanner.current >= old(scanner.current)
      ensures !ok && thrown == None ==> Recovered(scanner.doc, scanner.current, ArrayEnd)
      ensures thrown == None ==> Balanced(old(nodes), nodes) && Reported(old(errors), errors, ok)
      ensures thrown != None ==> !ok
      ensures thrown == Some(StackLimitExceeded) ==> |nodes| > features.stackLimit
      ensures want.Some? ==>
                if ExceedsBelow(want.value, |old(nodes)|, |want.value|, features.stackLimit) then
                  thrown == Some(StackLimitExceeded)
                else
                  && thrown == None && ok && nodes[|nodes| - 1] == Array(SettledItems(want.value))
                  && Spells(scanner.doc, scanner.current, rest)
      decreases |scanner.doc| - scanner.current, 2
    {
      hide Recovered, TokenRead, SkipSpace, Spells, LegibleItems, Follows, ItemTokens, EntryTokens;
      hide SettledItems, ExceedsBelow, ItemPending, Distinct, OctetAt;
      SetCurrent(Array([]));
      var index, progress := 0, GoOn;
      if want.Some? {
        ItemsBegin(scanner.doc, scanner.current, want.value, emitUTF8, comma, rest);
        NothingBelow(want.value, |nodes|, features.stackLimit);
      }
      while progress == GoOn
        invariant progress == Failed ==> Recovered(scanner.doc, scanner.current, ArrayEnd)
        invariant scanner.Valid() && scanner.current >= old(scanner.current) && thrown == None
        invariant Balanced(old(nodes), nodes) && Reported(old(errors), errors, progress != Failed)
        invariant nodes[|nodes| - 1].Array? && index == |nodes[|nodes| - 1].entries|
        invariant want.Some? ==>
                    && index <= |want.value| && nodes[|nodes| - 1] == Array(SettledItems(want.value[..index]))
                    && !ExceedsBelow(want.value, |nodes|, index, features.stackLimit)
                    && (progress == GoOn ==>
                          ItemPending(scanner.doc, scanner.current, want.value, index, emitUTF8, comma, rest))
                    && (progress != GoOn ==>
                          progress == Done && index == |want.value| && Spells(scanner.doc, scanner.current, rest))
        decreases |scanner.doc| - scanner.current, progress == GoOn
      {
        progress, index := ReadItemOrEnd(index, want, emitUTF8, comma, rest);
        if thrown != None {
          if want.Some? {
            ExceedsFound(want.value, |old(nodes)|, index - 1, features.stackLimit);
          }
          return false;
        }
        if want.Some? && want.value != [] {
          NotBelowYet(want.value, |nodes|, index - 1, features.stackLimit);
        }
      }
      if want.Some? {
        assert want.value[..index] == want.value;
      }
      ok := progress == Done;
    }

    /**
     One round of the loop. A bracket ends the array where it is empty, and behind a
     comma if that is allowed; if nulls may be dropped, another null stands there.
     */
    method ReadItemOrEnd(index: nat, ghost want: Option<seq<Entry>>, ghost emitUTF8: bool, ghost comma: Separator,
                         ghost rest: seq<Text>)
      returns (progress: Progress, count: nat)
      requires Valid() && nodes[|nodes| - 1].Array? && index == |nodes[|nodes| - 1].entries|
      requires want.Some? ==>
                 && LegibleItems(want.value, emitUTF8) && NoClash(Array(want.value)) && Follows(rest)
                 && index <= |want.value|
                 && nodes[|nodes| - 1] == Array(SettledItems(want.value[..index]))
                 && ItemPending(scanner.doc, scanner.current, want.value, index, emitUTF8, comma, rest)
      modifies this`nodes, this`errors, this`thrown, scanner`current
      ensures scanner.Valid() && scanner.current >= old(scanner.current) && index <= count <= index + 1
      ensures progress == Failed && thrown == None ==> Recovered(scanner.doc, scanner.current, ArrayEnd)
      ensures thrown == None ==>
                && Balanced(old(nodes), nodes) && Reported(old(errors), errors, progress != Failed)
                && nodes[|nodes| - 1].Array? && |nodes[|nodes| - 1].entries| == count
      ensures thrown == None && progress == GoOn ==> scanner.current > old(scanner.current)
      ensures thrown == Some(StackLimitExceeded) ==> |nodes| > features.stackLimit
      ensures thrown != None ==> count == index + 1
      ensures OctetAt(scanner.doc, SkipSpace(scanner.doc, old(scanner.current)), CLOSE_ARRAY)
              && |old(nodes)| < features.stackLimit ==>
                if index == 0 || (features.allowTrailingCommas && !features.allowDroppedNullPlaceholders) then
                  thrown == None && progress == Done && nodes == old(nodes)
                else if features.allowDroppedNullPlaceholders then
                  && thrown == None && progress == Done
                  && nodes[|nodes| - 1] == Array(old(nodes)[|nodes| - 1].entries + [Entry(Index(index), Null)])
                else thrown == None && progress == Failed
      ensures want.Some? ==>
                if want.value == [] then
                  && thrown == None && progress == Done && count == 0 && nodes == old(nodes)
                  && Spells(scanner.doc, scanner.current, rest)
                else
                  && index < |want.value| && count == index + 1
                  && if |old(nodes)| + 1 + Depth(want.value[index].value) > features.stackLimit then
                       thrown == Some(StackLimitExceeded)
                     else
                       && thrown == None && nodes[|nodes| - 1] == Array(SettledItems(want.value[..index + 1]))
                       && (if index + 1 == |want.value| then
                             progress == Done && Spells(scanner.doc, scanner.current, rest)
                           else
                             && progress == GoOn
                             && ItemPending(scanner.doc, scanner.current, want.value, index + 1, emitUTF8, comma, rest))
      decreases |scanner.doc| - scanner.current, 1, 1
    {
      hide Recovered, Exhausted, TokenRead, SkipSpace, Spells, LegibleItems, Follows, ItemTokens, EntryTokens;
      hide SettledItems, ItemPending, Distinct, PastComments, Depth;
      progress, count := Done, index;
      if want.Some? {
        PendingSkipped(scanner.doc, scanner.current, want.value, index, emitUTF8, comma, rest);
      }
      scanner.SkipSpaces();
      BracketStands(scanner.doc, scanner.current);
      if scanner.current != |scanner.doc| && scanner.doc[scanner.current] == CLOSE_ARRAY
         && (index == 0 || (features.allowTrailingCommas && !features.allowDroppedNullPlaceholders)) {
        ghost var start := SkipSpace(scanner.doc, scanner.current);
        var read, token := scanner.ReadToken();
        TokenStarts(scanner.doc, start, read, token);
        if want.Some? {
          PendingClosed(scanner.doc, token.start, want.value, index, emitUTF8, comma, rest, read, token);
        }
      } else {
        progress := ReadItem(index, want, emitUTF8, comma, rest);
        count := index + 1;
      }
    }

    /** One element and what follows it. */
    method ReadItem(index: nat, ghost want: Option<seq<Entry>>, ghost emitUTF8: bool, ghost comma: Separator,
                    ghost rest: seq<Text>)
      returns (progress: Progress)
      requires Valid() && nodes[|nodes| - 1].Array? && index == |nodes[|nodes| - 1].entries|
      requires want.Some? ==>
                 && LegibleItems(want.value, emitUTF8) && NoClash(Array(want.value)) && Follows(rest)
                 && index < |want.value|
                 && nodes[|nodes| - 1] == Array(SettledItems(want.value[..index]))
                 && ItemPending(scanner.doc, scanner.current, want.value, index, emitUTF8, comma, rest)
      modifies this`nodes, this`errors, this`thrown, scanner`current
      ensures scanner.Valid() && scanner.current >= old(scanner.current)
      ensures progress == Failed && thrown == None ==> Recovered(scanner.doc, scanner.current, ArrayEnd)
      ensures thrown == None ==>
                && Balanced(old(nodes), nodes) && Reported(old(errors), errors, progress != Failed)
                && nodes[|nodes| - 1].Array? && |nodes[|nodes| - 1].entries| == index + 1
      ensures thrown == None && progress == GoOn ==> scanner.current > old(scanner.current)
      ensures thrown == Some(StackLimitExceeded) ==> |nodes| > features.stackLimit
      ensures |old(nodes)| < features.stackLimit && PlaceholderAt(scanner.doc, old(NextToken())) ==>
                && thrown == None
                && progress == (if features.allowDroppedNullPlaceholders then AfterMark(scanner.doc, old(NextToken()))
                                else Failed)
                && (progress != Failed ==>
                      nodes[|nodes| - 1] == Array(old(nodes)[|nodes| - 1].entries + [Entry(Index(index), Null)]))
      ensures want.Some? ==>
                if |old(nodes)| + 1 + Depth(want.value[index].value) > features.stackLimit then
                  thrown == Some(StackLimitExceeded)
                else
                  && thrown == None && nodes[|nodes| - 1] == Array(SettledItems(want.value[..index + 1]))
                  && (if index + 1 == |want.value| then progress == Done && Spells(scanner.doc, scanner.current, rest)
                      else
                        progress == GoOn
                        && ItemPending(scanner.doc, scanner.current, want.value, index + 1, emitUTF8, comma, rest))
      decreases |scanner.doc| - scanner.current, 1, 0
    {
      hide Recovered, TokenRead, SkipSpace, Spells, LegibleItems, Follows, ItemTokens, EntryTokens;
      hide SettledItems, ItemPending;
      hide PastComments, PlaceholderAt, AfterElement, AfterMark;
      if PlaceholderAt(scanner.doc, NextToken()) {
        MarkStands(scanner.doc, NextToken());
      }
      var ok := ReadElement(index, want, emitUTF8, comma, rest);
      if thrown != None {
        return Failed;
      }
      if !ok {
        ok := RecoverFromError(ArrayEnd);
        return Failed;
      }
      progress := ReadItemSeparator(index + 1, want, emitUTF8, comma, rest);
    }

    /** The value of an element, read on top of the stack. */
    method ReadElement(index: nat, ghost want: Option<seq<Entry>>, ghost emitUTF8: bool, ghost comma: Separator,
                       ghost rest: seq<Text>)
      returns (ok: bool)
      requires Valid() && nodes[|nodes| - 1].Array? && index == |nodes[|nodes| - 1].entries|
      requires want.Some? ==>
                 && LegibleItems(want.value, emitUTF8) && NoClash(Array(want.value)) && Follows(rest)
                 && index < |want.value|
                 && nodes[|nodes| - 1] == Array(SettledItems(want.value[..index]))
                 && ItemPending(scanner.doc, scanner.current, want.value, index, emitUTF8, comma, rest)
      modifies this`nodes, this`errors, this`thrown, scanner`current
      ensures scanner.Valid() && scanner.current >= old(scanner.current)
      ensures thrown == None ==>
                && Balanced(old(nodes), nodes) && Reported(old(errors), errors, ok)
                && nodes[|nodes| - 1].Array? && |nodes[|nodes| - 1].entries| == index + 1
      ensures thrown == Some(StackLimitExceeded) ==> |nodes| > features.stackLimit
      ensures |old(nodes)| < features.stackLimit && PlaceholderAt(scanner.doc, old(NextToken())) ==>
                && thrown == None && ok == features.allowDroppedNullPlaceholders
                && (ok ==>
                      && nodes[|nodes| - 1] == Array(old(nodes)[|nodes| - 1].entries + [Entry(Index(index), Null)])
                      && scanner.current == old(NextToken()))
      ensures want.Some? ==>
                if |old(nodes)| + 1 + Depth(want.value[index].value) > features.stackLimit then
                  thrown == Some(StackLimitExceeded)
                else
                  && thrown == None && ok && nodes[|nodes| - 1] == Array(SettledItems(want.value[..index + 1]))
                  && Spells(scanner.doc, scanner.current,
                            ItemTokens(want.value[index + 1..], emitUTF8, false, comma) + rest)
      decreases |scanner.doc| - scanner.current, 0, 1
    {
      hide TokenRead, SkipSpace, Spells, LegibleItems, Legible, Follows, ItemTokens;
      hide PastComments, PlaceholderAt, EntryTokens, SettledItems, ItemPending, Tokens;
      ghost var child, then' := None, [];
      if want.Some? {
        child := Some(want.value[index].value);
        then' := ItemTokens(want.value[index + 1..], emitUTF8, false, comma) + rest;
        DistinctParts(Array(want.value));
        ItemExpected(scanner.doc, scanner.current, want.value, index, emitUTF8, comma, rest);
      }
      nodes := nodes + [Null];
      ok := ReadValue(child, emitUTF8, comma, then');
      if thrown != None {
        return;
      }
      PopItem();
      if want.Some? {
        OneMoreItem(want.value, index);
      }
    }

    /** The comma or bracket behind an element; comments may stand in front of it. */
    method ReadItemSeparator(index: nat, ghost want: Option<seq<Entry>>, ghost emitUTF8: bool, ghost comma: Separator,
                             ghost rest: seq<Text>)
      returns (progress: Progress)
      requires scanner.Valid()
      requires want.Some? ==>
                 && 0 < index <= |want.value|
                 && Spells(scanner.doc, scanner.current, ItemTokens(want.value[index..], emitUTF8, false, comma) + rest)
      modifies this`errors, scanner`current
      ensures scanner.Valid() && scanner.current >= old(scanner.current)
      ensures progress == Failed ==> Recovered(scanner.doc, scanner.current, ArrayEnd)
      ensures Reported(old(errors), errors, progress != Failed)
      ensures progress == GoOn ==> scanner.current > old(scanner.current)
      ensures progress == AfterElement(scanner.doc, old(scanner.current))
      ensures want.Some? ==>
                if index == |want.value| then progress == Done && Spells(scanner.doc, scanner.current, rest)
                else
                  progress == GoOn
                  && ItemPending(scanner.doc, scanner.current, want.value, index, emitUTF8, comma, rest)
    {
      hide Recovered, Exhausted, TokenRead, SkipSpace, Spells, ItemTokens, ItemPending;
      hide PastComments, CommentAt, AfterElement;
      ghost var start := scanner.current;
      if want.Some? {
        NoCommentNext(scanner.doc, start, want.value, index, emitUTF8, comma, rest);
      }
      var read, token := ReadPastComments();
      TokenStarts(scanner.doc, token.start, read, token);
      ElementIsFollowedBy(scanner.doc, start, read, token);
      if want.Some? {
        SeparatorRead(scanner.doc, start, want.value, index, emitUTF8, comma, rest, read, token);
      }
      if !read || (token.kind != ArraySeparator && token.kind != ArrayEnd) {
        var _ := AddErrorAndRecover("Missing ',' or ']' in array declaration", ArrayEnd);
        return Failed;
      }
      progress := if token.kind == ArrayEnd then Done else GoOn;
    }

    /** The child on top of the stack becomes a member of the object below it. */
    method PopMember(name: seq<byte>)
      requires |nodes| >= 2 && nodes[|nodes| - 2].Object?
      modifies this`nodes
      ensures var n, members := |old(nodes)| - 2, old(nodes)[|old(nodes)| - 2].entries;
              nodes == old(nodes)[..n] + [Object(WithMember(members, Name(name), old(nodes)[n + 1]))]
    {
      var n := |nodes| - 2;
      nodes := nodes[..n] + [Object(WithMember(nodes[n].entries, Name(name), nodes[n + 1]))];
    }

    /** `readObject`, behind the brace. */
    method ReadObject(ghost want: Option<seq<Entry>>, ghost emitUTF8: bool, ghost comma: Separator,
                      ghost rest: seq<Text>)
      returns (ok: bool)
      requires Valid()
      requires want.Some? ==> LegibleMembers(want.value, emitUTF8) && NoClash(Object(want.value)) && Follows(rest)
      requires want.Some? ==>
                 Spells(scanner.doc, scanner.current, MemberTokens(want.value, emitUTF8, true, comma) + rest)
      modifies this`nodes, this`errors, this`thrown, scanner`current
      ensures scanner.Valid() && scanner.current >= old(scanner.current)
      ensures !ok && thrown == None ==> Recovered(scanner.doc, scanner.current, ObjectEnd)
      ensures thrown == None ==> Balanced(old(nodes), nodes) && Reported(old(errors), errors, ok)
      ensures thrown != None ==> !ok
      ensures thrown == Some(StackLimitExceeded) ==> |nodes| > features.stackLimit
      ensures want.Some? ==>
                if ExceedsBelow(want.value, |old(nodes)|, |want.value|, features.stackLimit) then
                  thrown == Some(StackLimitExceeded)
                else
                  && thrown == None && ok && nodes[|nodes| - 1] == Object(SettledMembers(want.value))
                  && Means(Object(want.value), nodes[|nodes| - 1])
                  && Spells(scanner.doc, scanner.current, rest)
      decreases |scanner.doc| - scanner.current, 2
    {
      hide Recovered, TokenRead, SkipSpace, Spells, LegibleMembers, Follows, MemberTokens, EntryTokens;
      hide SettledItems, ExceedsBelow, MemberPending, WithMember, SettledMembers, Distinct, Means;
      hide PastComments, OctetAt, Depth, NameRead, Legible, Exhausted, OurReader.NoClash;
      SetCurrent(Object([]));
      var name: seq<byte> := [];
      var progress := GoOn;
      ghost var index := 0;
      if want.Some? {
        MembersBegin(scanner.doc, scanner.current, want.value, emitUTF8, comma, rest);
        NothingBelow(want.value, |nodes|, features.stackLimit);
      }
      while progress == GoOn
        invariant progress == Failed ==> Recovered(scanner.doc, scanner.current, ObjectEnd)
        invariant scanner.Valid() && scanner.current >= old(scanner.current) && thrown == None
        invariant Balanced(old(nodes), nodes) && Reported(old(errors), errors, progress != Failed)
        invariant nodes[|nodes| - 1].Object?
        invariant want.Some? ==>
                    && 0 <= index <= |want.value| && nodes[|nodes| - 1] == Object(SettledMembers(want.value[..index]))
                    && !ExceedsBelow(want.value, |nodes|, index, features.stackLimit)
                    && (progress == GoOn && index == 0 ==> name == [])
                    && (progress == GoOn ==>
                          MemberPending(scanner.doc, scanner.current, want.value, index, emitUTF8, comma, rest))
                    && (progress != GoOn ==>
                          progress == Done && index == |want.value| && Spells(scanner.doc, scanner.current, rest))
        decreases |scanner.doc| - scanner.current, progress == GoOn
      {
        progress, name := ReadMemberOrEnd(name, index, want, emitUTF8, comma, rest);
        if thrown != None {
          if want.Some? {
            ExceedsFound(want.value, |old(nodes)|, index, features.stackLimit);
          }
          return false;
        }
        if want.Some? && want.value != [] {
          NotBelowYet(want.value, |nodes|, index, features.stackLimit);
          index := index + 1;
        }
      }
      if want.Some? {
        assert want.value[..index] == want.value;
        MembersAreMeant(want.value, emitUTF8);
      }
      ok := progress == Done;
    }

    /** One round of the loop; `last` is the name of the member before. */
    method ReadMemberOrEnd(last: seq<byte>, ghost index: nat, ghost want: Option<seq<Entry>>, ghost emitUTF8: bool,
                           ghost comma: Separator, ghost rest: seq<Text>)
      returns (progress: Progress, name: seq<byte>)
      requires Valid() && nodes[|nodes| - 1].Object?
      requires want.Some? ==>
                 && LegibleMembers(want.value, emitUTF8) && NoClash(Object(want.value)) && Follows(rest)
                 && index <= |want.value|
                 && (index == 0 ==> last == [])
                 && nodes[|nodes| - 1] == Object(SettledMembers(want.value[..index]))
                 && MemberPending(scanner.doc, scanner.current, want.value, index, emitUTF8, comma, rest)
      modifies this`nodes, this`errors, this`thrown, scanner`current
      ensures scanner.Valid() && scanner.current >= old(scanner.current)
      ensures progress == Failed && thrown == None ==> Recovered(scanner.doc, scanner.current, ObjectEnd)
      ensures thrown == None ==>
                && Balanced(old(nodes), nodes) && Reported(old(errors), errors, progress != Failed)
                && nodes[|nodes| - 1].Object?
      ensures thrown == None && progress == GoOn ==> scanner.current > old(scanner.current)
      ensures thrown == Some(StackLimitExceeded) ==> |nodes| > features.stackLimit
      ensures want.Some? ==>
                if want.value == [] then
                  && thrown == None && progress == Done && index == 0 && nodes == old(nodes)
                  && Spells(scanner.doc, scanner.current, rest)
                else index < |want.value| && MemberDone(old(nodes), index, want.value, emitUTF8, comma, rest, progress)
      ensures OctetAt(scanner.doc, PastComments(scanner.doc, old(scanner.current)), CLOSE_OBJECT) ==>
                thrown == None && progress == if last == [] || features.allowTrailingCommas then Done else Failed
      decreases |scanner.doc| - scanner.current, 1, 1
    {
      hide OctetAt, Exhausted, TokenRead;
      hide SkipSpace, Spells, LegibleMembers, Follows, MemberTokens, EntryTokens;
      hide SettledItems, MemberPending, MemberDone, NameRead, SettledMembers, Distinct, PastComments, Recovered;
      hide CommentAt, CommentEnd, Punctuation;
      progress, name := Failed, last;
      ghost var start := scanner.current;
      if want.Some? {
        MemberStarts(scanner.doc, start, want.value, index, emitUTF8, comma, rest);
      }
      var read, token := ReadPastComments();
      if OctetAt(scanner.doc, token.start, CLOSE_OBJECT) {
        BraceIs(scanner.doc, token.start, read, token);
      }
      TokenStarts(scanner.doc, token.start, read, token);
      if want.Some? {
        MemberTokenRead(scanner.doc, start, want.value, index, emitUTF8, comma, rest, read, token);
      }
      if !read {
        var _ := AddErrorAndRecover("Missing '}' or object member name", ObjectEnd);
      } else if token.kind == ObjectEnd && (name == [] || features.allowTrailingCommas) {
        progress := Done;
      } else {
        progress, name := ReadMember(token, index, want, emitUTF8, comma, rest);
      }
    }

    /** What reading the member `want[index]` comes to. */
    ghost predicate MemberDone(before: seq<Value>, index: nat, want: seq<Entry>, emitUTF8: bool, comma: Separator,
                               rest: seq<Text>, progress: Progress)
      requires index < |want|
      reads this, scanner
    {
      if |before| + 1 + Depth(want[index].value) > features.stackLimit then thrown == Some(StackLimitExceeded)
      else
        && thrown == None && nodes != [] && nodes[|nodes| - 1] == Object(SettledMembers(want[..index + 1]))
        && (if index + 1 == |want| then progress == Done && Spells(scanner.doc, scanner.current, rest)
            else
              progress == GoOn && MemberPending(scanner.doc, scanner.current, want, index + 1, emitUTF8, comma, rest))
    }

    /**
     The name of a member; nothing when the token is none, and then no error is added either unless
     it cannot be decoded.
     */
    method DecodeName(token: Token) returns (name: Option<seq<byte>>)
      requires token.start < token.end <= |scanner.doc| && (token.kind == StringToken ==> token.start + 2 <= token.end)
      modifies this`errors
      ensures old(errors) <= errors && (name.Some? ==> errors == old(errors))
      ensures name.None? && token.kind != StringToken && !(token.kind == NumberToken && features.allowNumericKeys) ==>
                errors == old(errors)
      ensures name.None? && (token.kind == StringToken || (token.kind == NumberToken && features.allowNumericKeys)) ==>
                |errors| == |old(errors)| + 1
      ensures token.kind == StringToken ==>
                name == Unescaped(scanner.doc[token.start..token.end][1..token.end - token.start - 1])
    {
      if token.kind == StringToken {
        name := DecodeStringToken(token);
      } else if token.kind == NumberToken && features.allowNumericKeys {
        var number := DecodeNumberToken(token);
        if number.None? {
          return None;
        }
        name := Some(NumberText(number.value));
      } else {
        name := None;
      }
    }

    /** `asString` of a number */
    function NumberText(v: Value): seq<byte> {
      match v
      case Int(n) => IntegerText(n)
      case UInt(n) => IntegerText(n)
      case Real(d) => doubleText(d)
      case _ => []
    }

    /** The token is the name of a member that is there already. */
    ghost predicate NamesAgain(token: Token, entries: seq<Entry>)
      reads scanner
    {
      && token.kind == StringToken && token.start + 2 <= token.end <= |scanner.doc|
      && var name := Unescaped(scanner.doc[token.start..token.end][1..token.end - token.start - 1]);
         name.Some? && HasMember(entries, Name(name.value))
    }

    predicate CanBeName(kind: TokenType) {
      kind == StringToken || (kind == NumberToken && features.allowNumericKeys)
    }

    /** The name of a member, unless it cannot be one, is too long, or must not be given again. */
    method ReadName(token: Token) returns (ok: bool, name: seq<byte>)
      requires Valid() && nodes[|nodes| - 1].Object? && token.end == scanner.current
      requires token.kind != EndOfStream ==> token.start < token.end
      requires token.kind == StringToken ==> token.start + 2 <= token.end
      modifies this`errors, this`thrown, scanner`current
      ensures scanner.Valid() && scanner.current >= old(scanner.current)
      ensures !ok && thrown == None ==> Recovered(scanner.doc, scanner.current, ObjectEnd)
      ensures thrown == None ==> Reported(old(errors), errors, ok)
      ensures if ok then thrown == None && scanner.current == old(scanner.current)
              else thrown == None || (thrown == Some(KeyTooLong) && CanBeName(token.kind))
      ensures features.rejectDupKeys && NamesAgain(token, nodes[|nodes| - 1].entries) ==> !ok
      ensures token.kind == StringToken ==>
                var text := Unescaped(scanner.doc[token.start..token.end][1..token.end - token.start - 1]);
                && (ok <==> text.Some? && |text.value| < MAX_KEY_LENGTH
                            && !(features.rejectDupKeys && HasMember(nodes[|nodes| - 1].entries, Name(text.value))))
                && (ok ==> name == text.value)
      ensures ok ==> CanBeName(token.kind)
    {
      hide Recovered, HasMember, Unescaped;
      ok, name := false, [];
      if token.kind != StringToken && !(token.kind == NumberToken && features.allowNumericKeys) {
        var _ := AddErrorAndRecover("Missing '}' or object member name", ObjectEnd);
        return;
      }
      var decoded := DecodeName(token);
      if decoded.None? {
        var _ := RecoverFromError(ObjectEnd);
        return;
      }
      name := decoded.value;
      if |name| >= MAX_KEY_LENGTH {
        thrown := Some(KeyTooLong);
        return;
      }
      if features.rejectDupKeys && HasMember(nodes[|nodes| - 1].entries, Name(name)) {
        var _ := AddErrorAndRecover("Duplicate key", ObjectEnd);
        return;
      }
      ok := true;
    }

    /** One member, whose first token has been read, and what follows it. */
    method ReadMember(token: Token, ghost index: nat, ghost want: Option<seq<Entry>>, ghost emitUTF8: bool,
                      ghost comma: Separator, ghost rest: seq<Text>)
      returns (progress: Progress, name: seq<byte>)
      requires Valid() && nodes[|nodes| - 1].Object? && token.end == scanner.current
      requires token.kind != EndOfStream ==> token.start < token.end
      requires token.kind == StringToken ==> token.start + 2 <= token.end
      requires want.Some? ==>
                 && LegibleMembers(want.value, emitUTF8) && NoClash(Object(want.value)) && Follows(rest)
                 && index < |want.value|
                 && nodes[|nodes| - 1] == Object(SettledMembers(want.value[..index]))
                 && NameRead(scanner.doc, token, want.value, index, emitUTF8, comma, rest)
      modifies this`nodes, this`errors, this`thrown, scanner`current
      ensures scanner.Valid() && scanner.current >= old(scanner.current)
      ensures progress == Failed && thrown == None ==> Recovered(scanner.doc, scanner.current, ObjectEnd)
      ensures thrown == None ==>
                && Balanced(old(nodes), nodes) && Reported(old(errors), errors, progress != Failed)
                && nodes[|nodes| - 1].Object?
      ensures thrown == None && progress == GoOn ==> scanner.current > old(scanner.current)
      ensures thrown == Some(StackLimitExceeded) ==> |nodes| > features.stackLimit
      ensures features.rejectDupKeys && NamesAgain(token, old(nodes)[|old(nodes)| - 1].entries) ==> progress == Failed
      ensures !CanBeName(token.kind) ==> progress == Failed && thrown == None
      ensures progress != Failed ==> OctetAt(scanner.doc, SkipSpace(scanner.doc, token.end), COLON)
      ensures want.Some? ==> MemberDone(old(nodes), index, want.value, emitUTF8, comma, rest, progress)
      decreases |scanner.doc| - scanner.current, 1, 0
    {
      hide Recovered, PastComments, Means, Legible, TokenRead, SkipSpace, Spells, LegibleMembers;
      hide Follows, MemberTokens, EntryTokens;
      hide SettledItems, MemberPending, NameRead, WithMember, SettledMembers, Distinct, DistinctNames;
      hide HasMember, Unescaped;
      progress, name := Failed, [];
      if want.Some? {
        NameReadIs(scanner.doc, token, want.value, index, emitUTF8, comma, rest);
        DistinctParts(Object(want.value));
        NextMember(want.value, index);
      }
      var named;
      named, name := ReadName(token);
      if !named {
        return;
      }
      var colon := ReadColon(index, want, emitUTF8, comma, rest);
      if !colon {
        return;
      }
      var ok := ReadMemberValue(name, index, want, emitUTF8, comma, rest);
      if thrown != None {
        return;
      }
      if !ok {
        ok := RecoverFromError(ObjectEnd);
        return;
      }
      progress := ReadMemberSeparator(index + 1, want, emitUTF8, comma, rest);
    }

    method ReadColon(ghost index: nat, ghost want: Option<seq<Entry>>, ghost emitUTF8: bool, ghost comma: Separator,
                     ghost rest: seq<Text>)
      returns (ok: bool)
      requires scanner.Valid()
      requires want.Some? ==>
                 index < |want.value|
                 && Spells(scanner.doc, scanner.current,
                           [[COLON]] + ValueTokens(want.value, index, emitUTF8, comma, rest))
      modifies this`errors, scanner`current
      ensures scanner.Valid() && scanner.current >= old(scanner.current) && Reported(old(errors), errors, ok)
      ensures !ok ==> Recovered(scanner.doc, scanner.current, ObjectEnd)
      ensures ok <==> OctetAt(scanner.doc, SkipSpace(scanner.doc, old(scanner.current)), COLON)
      ensures ok ==> scanner.current == SkipSpace(scanner.doc, old(scanner.current)) + 1
      ensures want.Some? ==>
                ok && Spells(scanner.doc, scanner.current, ValueTokens(want.value, index, emitUTF8, comma, rest))
    {
      hide Recovered, Exhausted, TokenRead, SkipSpace, Spells, ValueTokens;
      ghost var start := scanner.current;
      var read, token := scanner.ReadToken();
      TokenStarts(scanner.doc, SkipSpace(scanner.doc, start), read, token);
      SeparatorIs(scanner.doc, SkipSpace(scanner.doc, start), read, token);
      if want.Some? {
        PunctuationRead(scanner.doc, start, COLON, ValueTokens(want.value, index, emitUTF8, comma, rest), read, token);
      }
      if !read || token.kind != MemberSeparator {
        ok := AddErrorAndRecover("Missing ':' after object member name", ObjectEnd);
        return;
      }
      ok := true;
    }

    /** The value of a member, read on top of the stack. */
    method ReadMemberValue(name: seq<byte>, ghost index: nat, ghost want: Option<seq<Entry>>, ghost emitUTF8: bool,
                           ghost comma: Separator, ghost rest: seq<Text>)
      returns (ok: bool)
      requires Valid() && nodes[|nodes| - 1].Object?
      requires want.Some? ==>
                 && LegibleMembers(want.value, emitUTF8) && NoClash(Object(want.value)) && Follows(rest)
                 && index < |want.value|
                 && want.value[index].key == Name(name)
                 && nodes[|nodes| - 1] == Object(SettledMembers(want.value[..index]))
                 && Spells(scanner.doc, scanner.current, ValueTokens(want.value, index, emitUTF8, comma, rest))
      modifies this`nodes, this`errors, this`thrown, scanner`current
      ensures scanner.Valid() && scanner.current >= old(scanner.current)
      ensures thrown == None ==>
                Balanced(old(nodes), nodes) && Reported(old(errors), errors, ok) && nodes[|nodes| - 1].Object?
      ensures thrown == Some(StackLimitExceeded) ==> |nodes| > features.stackLimit
      ensures want.Some? ==>
                if |old(nodes)| + 1 + Depth(want.value[index].value) > features.stackLimit then
                  thrown == Some(StackLimitExceeded)
                else
                  && thrown == None && ok && nodes[|nodes| - 1] == Object(SettledMembers(want.value[..index + 1]))
                  && Spells(scanner.doc, scanner.current,
                            MemberTokens(want.value[index + 1..], emitUTF8, false, comma) + rest)
      decreases |scanner.doc| - scanner.current, 0, 1
    {
      hide TokenRead, SkipSpace, Spells, LegibleMembers, Legible, Follows, MemberTokens;
      hide EntryTokens, SettledItems, Tokens;
      hide ValueTokens, WithMember, MemberOrNull, SettledMembers, Distinct, DistinctNames;
      ghost var child, then' := None, [];
      if want.Some? {
        child := Some(want.value[index].value);
        then' := MemberTokens(want.value[index + 1..], emitUTF8, false, comma) + rest;
        MemberExpected(want.value, index, emitUTF8, comma, rest);
        DistinctParts(Object(want.value));
        NextMember(want.value, index);
      }
      nodes := nodes + [MemberOrNull(nodes[|nodes| - 1].entries, Name(name))];
      ok := ReadValue(child, emitUTF8, comma, then');
      if thrown != None {
        return;
      }
      PopMember(name);
    }

    /** The comma or brace behind a member, or behind a comment anything at all. */
    method ReadMemberSeparator(ghost index: nat, ghost want: Option<seq<Entry>>, ghost emitUTF8: bool,
                               ghost comma: Separator, ghost rest: seq<Text>)
      returns (progress: Progress)
      requires scanner.Valid()
      requires want.Some? ==>
                 && 0 < index <= |want.value| && AllNames(want.value)
                 && Spells(scanner.doc, scanner.current,
                           MemberTokens(want.value[index..], emitUTF8, false, comma) + rest)
      modifies this`errors, scanner`current
      ensures scanner.Valid() && scanner.current >= old(scanner.current)
      ensures progress == Failed ==> Recovered(scanner.doc, scanner.current, ObjectEnd)
      ensures Reported(old(errors), errors, progress != Failed)
      ensures progress == GoOn ==> scanner.current > old(scanner.current)
      ensures progress == AfterMemberValue(scanner.doc, old(scanner.current))
      ensures want.Some? ==>
                if index == |want.value| then progress == Done && Spells(scanner.doc, scanner.current, rest)
                else
                  progress == GoOn
                  && MemberPending(scanner.doc, scanner.current, want.value, index, emitUTF8, comma, rest)
    {
      hide Recovered, Exhausted, TokenRead, SkipSpace, Spells, MemberTokens, MemberPending, CommentAt, CommentEnd;
      ghost var start := scanner.current;
      var read, token := scanner.ReadToken();
      CommentRead(scanner.doc, SkipSpace(scanner.doc, start), read, token);
      SeparatorIs(scanner.doc, SkipSpace(scanner.doc, start), read, token);
      if want.Some? {
        MemberSeparatorRead(scanner.doc, start, want.value, index, emitUTF8, comma, rest, read, token);
      }
      if !read || (token.kind != ObjectEnd && token.kind != ArraySeparator && token.kind != CommentToken) {
        var _ := AddErrorAndRecover("Missing ',' or '}' in object declaration", ObjectEnd);
        return Failed;
      }
      if token.kind == CommentToken {
        ghost var behind := scanner.current;
        read, token := ReadPastComments();
        SeparatorIs(scanner.doc, token.start, read, token);
        if want.Some? {
          StraySeparatorRead(scanner.doc, behind, want.value, index, emitUTF8, comma, rest, read, token);
        }
      }
      progress := if token.kind == ObjectEnd then Done else GoOn;
    }

    /** `skipBom` */
    method SkipBom()
      requires scanner.Valid() && scanner.current == 0
      modifies scanner`current
      ensures scanner.Valid()
      ensures scanner.current == if features.skipBom && StartsWithMark(scanner.doc) then 3 else 0
    {
      if features.skipBom && |scanner.doc| >= 3 && scanner.doc[..3] == [0xEF, 0xBB, 0xBF] {
        assert forall k :: 0 <= k < 3 ==> scanner.doc[..3][k] == scanner.doc[k];
        scanner.current := 3;
      }
    }

    /**
     `parse`: it returns true exactly when no error was found. A text that spells a
     printable value, whatever `comma` separates its members, is parsed into that value
     under any settings, unless its nesting exceeds the limit or a strict root is
     demanded and it is neither an array nor an object. A byte order mark may stand in
     front of it where that is to be skipped.
     */
    method Parse(text: Text, initial: Value, ghost want: Option<Value>, ghost emitUTF8: bool, ghost comma: Separator)
      returns (ok: bool, root: Value)
      requires scanner.features == features
      requires want.Some? ==> Legible(want.value, emitUTF8) && NoClash(want.value)
      requires want.Some? ==>
                 || Spells(text, 0, Tokens(want.value, emitUTF8, comma))
                 || (features.skipBom && StartsWithMark(text) && Spells(text, 3, Tokens(want.value, emitUTF8, comma)))
      modifies this, scanner
      ensures thrown == None ==> (ok <==> errors == []) && nodes == []
      ensures thrown != None ==> !ok
      ensures thrown == Some(StackLimitExceeded) ==> |nodes| > features.stackLimit
      ensures thrown == None && ok && features.failIfExtra ==> Exhausted(text, scanner.current)
      ensures thrown == None && ok && features.strictRoot ==> root.Array? || root.Object?
      ensures want.Some? ==>
                if 1 + Depth(want.value) > features.stackLimit then thrown == Some(StackLimitExceeded)
                else
                  && thrown == None && root == Settled(want.value) && Means(want.value, root)
                  && (ok <==> !features.strictRoot || want.value.Array? || want.value.Object?)
    {
      hide Exhausted, Spells, Tokens, Legible, Depth, TokenRead, SkipSpace, Means, Settled, Distinct, StartsWithMark;
      ok, root := false, initial;
      scanner.doc, scanner.current := text, 0;
      errors, thrown, nodes := [], None, [initial];
      if want.Some? {
        SpelledBehindMark(text, features.skipBom, want.value, emitUTF8, comma);
        SettledIsMeant(want.value, emitUTF8);
        SettledKind(want.value);
      }
      SkipBom();
      ok := ReadValue(want, emitUTF8, comma, []);
      if thrown != None {
        return;
      }
      root, nodes := nodes[0], [];
      ghost var start := scanner.current;
      var tokenOk, token := SkipCommentTokens();
      if want.Some? {
        NothingFollows(text, start);
        EndRead(text, start, tokenOk, token);
      }
      if features.failIfExtra && token.kind != EndOfStream {
        AddError("Extra non-whitespace after JSON value.");
        return false, root;
      }
      if features.strictRoot && !root.Array? && !root.Object? {
        AddError("A valid JSON document must be either an array or an object value.");
        return false, root;
      }
    }
  }

  predicate OctetAt(doc: Text, k: nat, c: byte) {
    k < |doc| && doc[k] == c
  }

  /** Recovery ends behind the mark it looks for, or where the text ends; a NUL ends it, too. */
  predicate Recovered(doc: Text, i: nat, mark: TokenType) {
    Exhausted(doc, i) || (0 < i < |doc| && Punctuation(doc[i - 1]) == Some(mark))
  }

  /** The octets of the byte order mark. */
  predicate StartsWithMark(doc: Text) {
    OctetAt(doc, 0, 0xEF) && OctetAt(doc, 1, 0xBB) && OctetAt(doc, 2, 0xBF)
  }

  /** How reading goes on if a mark stands where a value was dropped. */
  function AfterMark(doc: Text, k: nat): Progress {
    if OctetAt(doc, k, CLOSE_ARRAY) then Done else if OctetAt(doc, k, COMMA) then GoOn else Failed
  }

  /** How reading goes on behind an element: comments may stand in front of the comma or bracket. */
  function AfterElement(doc: Text, i: nat): Progress
    requires i <= |doc|
  {
    var k := PastComments(doc, i);
    if OctetAt(doc, k, CLOSE_ARRAY) then Done else if OctetAt(doc, k, COMMA) then GoOn else Failed
  }

  /**
   How reading goes on behind a member. Without a comment there must be a comma or a
   brace. But behind a comment, only a brace ends the object, and any other token at
   all is taken for the comma.
   */
  function AfterMemberValue(doc: Text, i: nat): Progress
    requires i <= |doc|
  {
    if OctetAt(doc, PastComments(doc, i), CLOSE_OBJECT) then Done
    else if OctetAt(doc, SkipSpace(doc, i), COMMA) || CommentAt(doc, SkipSpace(doc, i)) then GoOn
    else Failed
  }

  /** The stack of values is as high as before, and only its top may differ. */
  predicate Balanced(before: seq<Value>, after: seq<Value>) {
    |before| == |after| > 0 && after[..|after| - 1] == before[..|before| - 1]
  }

  /** No error is forgotten, and one is added exactly when the result is false. */
  predicate Reported(before: seq<string>, after: seq<string>, ok: bool) {
    before <= after && (ok <==> after == before)
  }

  predicate PlaceholderAt(doc: Text, k: nat) {
    OctetAt(doc, k, COMMA) || OctetAt(doc, k, CLOSE_OBJECT) || OctetAt(doc, k, CLOSE_ARRAY)
  }

  /** Tokens in front of which a null may have been dropped. */
  predicate IsPlaceholder(kind: TokenType) {
    kind.ArraySeparator? || kind.ObjectEnd? || kind.ArrayEnd?
  }

  /** How reading an array or object goes on. */
  datatype Progress = GoOn | Done | Failed

  /** One of the first `count` entries is nested too deep. */
  ghost predicate ExceedsBelow(entries: seq<Entry>, height: nat, count: nat, limit: nat)
    requires count <= |entries|
  {
    exists i :: 0 <= i < count && height + 1 + Depth(entries[i].value) > limit
  }

  lemma NothingBelow(entries: seq<Entry>, height: nat, limit: nat)
    ensures !ExceedsBelow(entries, height, 0, limit)
  {
  }

  lemma ExceedsFound(entries: seq<Entry>, height: nat, i: nat, limit: nat)
    requires i < |entries| && height + 1 + Depth(entries[i].value) > limit
    ensures ExceedsBelow(entries, height, |entries|, limit)
  {
  }

  lemma NotBelowYet(entries: seq<Entry>, height: nat, i: nat, limit: nat)
    requires i < |entries| && !ExceedsBelow(entries, height, i, limit) && height + 1 + Depth(entries[i].value) <= limit
    ensures !ExceedsBelow(entries, height, i + 1, limit)
  {
  }

  lemma ExceedsIsDepth(entries: seq<Entry>, height: nat, limit: nat)
    requires height <= limit
    ensures ExceedsBelow(entries, height, |entries|, limit) <==> height + DepthOf(entries) > limit
  {
    DepthOfBounds(entries, limit - height);
  }

  /** In front of the `index`-th element, or of the closing bracket of an empty array. */
  ghost predicate ItemPending(doc: Text, i: nat, entries: seq<Entry>, index: nat, emitUTF8: bool, comma: Separator,
                              rest: seq<Text>)
  {
    if entries == [] then index == 0 && Spells(doc, i, [[CLOSE_ARRAY]] + rest)
    else
      index < |entries|
      && Spells(doc, i,
                EntryTokens(entries[index], emitUTF8, comma)
                + (ItemTokens(entries[index + 1..], emitUTF8, false, comma) + rest))
  }

  lemma ItemsBegin(doc: Text, i: nat, entries: seq<Entry>, emitUTF8: bool, comma: Separator, rest: seq<Text>)
    requires Spells(doc, i, ItemTokens(entries, emitUTF8, true, comma) + rest)
    ensures ItemPending(doc, i, entries, 0, emitUTF8, comma, rest)
    ensures SettledItems(entries[..0]) == [] && SettledMembers(entries[..0]) == []
  {
    hide Spells, EntryTokens;
    if entries != [] {
      assert ItemTokens(entries, emitUTF8, true, comma)
             == EntryTokens(entries[0], emitUTF8, comma) + ItemTokens(entries[1..], emitUTF8, false, comma);
      assert ItemTokens(entries, emitUTF8, true, comma) + rest
          == EntryTokens(entries[0], emitUTF8, comma) + (ItemTokens(entries[1..], emitUTF8, false, comma) + rest);
    }
  }

  lemma SpellsSkipped(doc: Text, i: nat, tokens: seq<Text>)
    requires Spells(doc, i, tokens)
    ensures i <= |doc| && Spells(doc, SkipSpace(doc, i), tokens)
            && SkipSpace(doc, SkipSpace(doc, i)) == SkipSpace(doc, i)
  {
    SkipSpaceIs(doc, SkipSpace(doc, i), SkipSpace(doc, i));
  }

  lemma PendingSkipped(doc: Text, i: nat, entries: seq<Entry>, index: nat, emitUTF8: bool, comma: Separator,
                       rest: seq<Text>)
    requires ItemPending(doc, i, entries, index, emitUTF8, comma, rest) && LegibleItems(entries, emitUTF8)
    ensures i <= |doc| && ItemPending(doc, SkipSpace(doc, i), entries, index, emitUTF8, comma, rest)
    ensures SkipSpace(doc, SkipSpace(doc, i)) == SkipSpace(doc, i) < |doc|
    ensures doc[SkipSpace(doc, i)] == CLOSE_ARRAY <==> entries == []
    ensures if entries == [] then index == 0 else index < |entries|
  {
    hide Spells, EntryTokens, SkipSpace, ItemTokens, Legible;
    if entries == [] {
      SpellsSkipped(doc, i, [[CLOSE_ARRAY]] + rest);
      SpellsNext(doc, i, [CLOSE_ARRAY], rest);
      assert doc[SkipSpace(doc, i)..SkipSpace(doc, i) + 1][0] == CLOSE_ARRAY;
    } else {
      var then' := ItemTokens(entries[index + 1..], emitUTF8, false, comma) + rest;
      SpellsSkipped(doc, i, EntryTokens(entries[index], emitUTF8, comma) + then');
      ValueStarts(doc, i, entries[index].value, emitUTF8, comma, then');
    }
  }

  lemma PendingClosed(doc: Text, i: nat, entries: seq<Entry>, index: nat, emitUTF8: bool, comma: Separator,
                      rest: seq<Text>, ok: bool, token: Token)
    requires entries == [] && ItemPending(doc, i, entries, index, emitUTF8, comma, rest)
    requires i <= |doc| && SkipSpace(doc, i) == i && TokenRead(doc, i, ok, token)
    ensures index == 0 && Spells(doc, token.end, rest)
  {
    hide TokenRead, Spells;
    PunctuationRead(doc, i, CLOSE_ARRAY, rest, ok, token);
  }

  lemma ItemExpected(doc: Text, i: nat, entries: seq<Entry>, index: nat, emitUTF8: bool, comma: Separator,
                     rest: seq<Text>)
    requires index < |entries| && ItemPending(doc, i, entries, index, emitUTF8, comma, rest)
    requires LegibleItems(entries, emitUTF8)
    ensures Legible(entries[index].value, emitUTF8) && entries[index].key == Index(index)
    ensures Follows(ItemTokens(entries[index + 1..], emitUTF8, false, comma) + rest)
    ensures Spells(doc, i,
                   Tokens(entries[index].value, emitUTF8, comma)
                   + (ItemTokens(entries[index + 1..], emitUTF8, false, comma) + rest))
  {
    hide Spells, EntryTokens, Tokens, Legible;
  }

  lemma OneMoreItem(entries: seq<Entry>, index: nat)
    requires index < |entries|
    ensures SettledItems(entries[..index + 1])
         == SettledItems(entries[..index]) + [Entry(entries[index].key, Settled(entries[index].value))]
  {
    hide SettledEntry, Settled;
  }

  /** After an element: the comma and the next one, or the closing bracket. */
  lemma AfterItem(entries: seq<Entry>, index: nat, emitUTF8: bool, comma: Separator, rest: seq<Text>)
    requires index <= |entries|
    ensures ItemTokens(entries[index..], emitUTF8, false, comma) + rest
         == if index == |entries| then [[CLOSE_ARRAY]] + rest
            else
              [[COMMA]]
              + (EntryTokens(entries[index], emitUTF8, comma)
                 + (ItemTokens(entries[index + 1..], emitUTF8, false, comma) + rest))
  {
    hide EntryTokens;
    if index < |entries| {
      assert entries[index..][0] == entries[index] && entries[index..][1..] == entries[index + 1..];
      var a, b :=
        EntryTokens(entries[index], emitUTF8, comma), ItemTokens(entries[index + 1..], emitUTF8, false, comma);
      assert ItemTokens(entries[index..], emitUTF8, false, comma) == [[COMMA]] + a + b;
      hide ItemTokens;
      Regroup([[COMMA]] + a, b, rest);
      Regroup([[COMMA]], a, b + rest);
    }
  }

  lemma NoCommentNext(doc: Text, i: nat, entries: seq<Entry>, index: nat, emitUTF8: bool, comma: Separator,
                      rest: seq<Text>)
    requires index <= |entries| && Spells(doc, i, ItemTokens(entries[index..], emitUTF8, false, comma) + rest)
    ensures i <= |doc| && (SkipSpace(doc, i) == |doc| || doc[SkipSpace(doc, i)] != SLASH)
  {
    hide EntryTokens, ItemTokens, SkipSpace;
    AfterItem(entries, index, emitUTF8, comma, rest);
    var tokens := ItemTokens(entries[index..], emitUTF8, false, comma) + rest;
    assert tokens == [tokens[0]] + tokens[1..];
    SpellsNext(doc, i, tokens[0], tokens[1..]);
    assert doc[SkipSpace(doc, i)..SkipSpace(doc, i) + 1][0] == tokens[0][0];
  }

  lemma SeparatorRead(doc: Text, i: nat, entries: seq<Entry>, index: nat, emitUTF8: bool, comma: Separator,
                      rest: seq<Text>, ok: bool, token: Token)
    requires 0 < index <= |entries| && Spells(doc, i, ItemTokens(entries[index..], emitUTF8, false, comma) + rest)
    requires i <= |doc| && TokenRead(doc, SkipSpace(doc, i), ok, token)
    ensures ok
    ensures if index == |entries| then token.kind == ArrayEnd && Spells(doc, token.end, rest)
            else token.kind == ArraySeparator && ItemPending(doc, token.end, entries, index, emitUTF8, comma, rest)
  {
    hide EntryTokens, ItemTokens, SkipSpace, TokenRead, Spells;
    AfterItem(entries, index, emitUTF8, comma, rest);
    if index == |entries| {
      PunctuationRead(doc, i, CLOSE_ARRAY, rest, ok, token);
    } else {
      PunctuationRead(doc, i, COMMA,
                      EntryTokens(entries[index], emitUTF8, comma)
                      + (ItemTokens(entries[index + 1..], emitUTF8, false, comma) + rest),
                      ok, token);
    }
  }

  /** The tokens from a member's value on. */
  function ValueTokens(entries: seq<Entry>, index: nat, emitUTF8: bool, comma: Separator, rest: seq<Text>): seq<Text>
    requires index < |entries|
  {
    EntryTokens(entries[index], emitUTF8, comma) + (MemberTokens(entries[index + 1..], emitUTF8, false, comma) + rest)
  }

  function NamedTokens(entries: seq<Entry>, index: nat, emitUTF8: bool, comma: Separator, rest: seq<Text>): seq<Text>
    requires index < |entries| && entries[index].key.Name?
  {
    [Quoted(entries[index].key.text, emitUTF8)] + ([[COLON]] + ValueTokens(entries, index, emitUTF8, comma, rest))
  }

  /** In front of the `index`-th member, or of the closing brace of an empty object. */
  ghost predicate MemberPending(doc: Text, i: nat, entries: seq<Entry>, index: nat, emitUTF8: bool, comma: Separator,
                                rest: seq<Text>)
  {
    if entries == [] then index == 0 && Spells(doc, i, [[CLOSE_OBJECT]] + rest)
    else
      index < |entries| && entries[index].key.Name?
      && Spells(doc, i, NamedTokens(entries, index, emitUTF8, comma, rest))
  }

  /** The token is the name of the `index`-th member. */
  ghost predicate NameRead(doc: Text, token: Token, entries: seq<Entry>, index: nat, emitUTF8: bool, comma: Separator,
                           rest: seq<Text>)
  {
    && index < |entries| && entries[index].key.Name? && token.kind == StringToken
    && token.start + 2 <= token.end <= |doc|
    && doc[token.start..token.end] == Quoted(entries[index].key.text, emitUTF8)
    && Spells(doc, token.end, [[COLON]] + ValueTokens(entries, index, emitUTF8, comma, rest))
  }

  lemma MemberTokensUnfold(entries: seq<Entry>, first: bool, emitUTF8: bool, comma: Separator, rest: seq<Text>)
    requires entries != [] && entries[0].key.Name?
    ensures MemberTokens(entries, emitUTF8, first, comma) + rest
         == (if first then [] else comma) + NamedTokens(entries, 0, emitUTF8, comma, rest)
  {
    hide EntryTokens, Quoted;
    var c: seq<Text>, q, t, m :=
      if first then [] else comma, Quoted(entries[0].key.text, emitUTF8), EntryTokens(entries[0], emitUTF8, comma),
      MemberTokens(entries[1..], emitUTF8, false, comma);
    assert MemberTokens(entries, emitUTF8, first, comma) == c + [q, [COLON]] + t + m;
    Regroup(c + [q, [COLON]] + t, m, rest);
    Regroup(c + [q, [COLON]], t, m + rest);
    Regroup(c, [q, [COLON]], t + (m + rest));
    assert [q, [COLON]] == [q] + [[COLON]];
    Regroup([q], [[COLON]], t + (m + rest));
  }

  lemma MembersBegin(doc: Text, i: nat, entries: seq<Entry>, emitUTF8: bool, comma: Separator, rest: seq<Text>)
    requires Spells(doc, i, MemberTokens(entries, emitUTF8, true, comma) + rest) && LegibleMembers(entries, emitUTF8)
    ensures MemberPending(doc, i, entries, 0, emitUTF8, comma, rest)
    ensures SettledItems(entries[..0]) == [] && SettledMembers(entries[..0]) == []
  {
    hide Spells, EntryTokens, NamedTokens;
    if entries != [] {
      MemberTokensUnfold(entries, true, emitUTF8, comma, rest);
      assert [] + NamedTokens(entries, 0, emitUTF8, comma, rest) == NamedTokens(entries, 0, emitUTF8, comma, rest);
    }
  }

  lemma MemberStarts(doc: Text, i: nat, entries: seq<Entry>, index: nat, emitUTF8: bool, comma: Separator,
                     rest: seq<Text>)
    requires MemberPending(doc, i, entries, index, emitUTF8, comma, rest)
    ensures i <= |doc| && SkipSpace(doc, i) < |doc| && doc[SkipSpace(doc, i)] != SLASH
  {
    hide Spells, SkipSpace, ValueTokens, Escaped;
    var t, tokens := [CLOSE_OBJECT], rest;
    if entries != [] {
      t, tokens :=
        Quoted(entries[index].key.text, emitUTF8), [[COLON]] + ValueTokens(entries, index, emitUTF8, comma, rest);
    }
    SpellsNext(doc, i, t, tokens);
    assert doc[SkipSpace(doc, i)..SkipSpace(doc, i) + |t|][0] == t[0];
  }

  lemma MemberTokenRead(doc: Text, i: nat, entries: seq<Entry>, index: nat, emitUTF8: bool, comma: Separator,
                        rest: seq<Text>, ok: bool, token: Token)
    requires MemberPending(doc, i, entries, index, emitUTF8, comma, rest)
    requires i <= |doc| && TokenRead(doc, SkipSpace(doc, i), ok, token)
    ensures ok
    ensures if entries == [] then index == 0 && token.kind == ObjectEnd && Spells(doc, token.end, rest)
            else
              index < |entries| && NameRead(doc, token, entries, index, emitUTF8, comma, rest)
              && token.kind == StringToken
  {
    hide Spells, SkipSpace, ValueTokens, Quoted, TokenRead;
    TokenStarts(doc, SkipSpace(doc, i), ok, token);
    if entries == [] {
      PunctuationRead(doc, i, CLOSE_OBJECT, rest, ok, token);
    } else {
      QuotedIsRead(doc, i, entries[index].key.text, emitUTF8,
                   [[COLON]] + ValueTokens(entries, index, emitUTF8, comma, rest), ok, token);
      TokenInside(doc, SkipSpace(doc, i), ok, token);
    }
  }

  lemma TokenInside(doc: Text, start: nat, ok: bool, token: Token)
    requires TokenRead(doc, start, ok, token)
    ensures token.end <= |doc|
  {
    hide LiteralRead;
  }

  lemma NameReadIs(doc: Text, token: Token, entries: seq<Entry>, index: nat, emitUTF8: bool, comma: Separator,
                   rest: seq<Text>)
    requires NameRead(doc, token, entries, index, emitUTF8, comma, rest) && LegibleMembers(entries, emitUTF8)
    ensures index < |entries| && entries[index].key.Name? && token.kind == StringToken
            && token.start + 2 <= token.end <= |doc|
    ensures Unescaped(doc[token.start..token.end][1..token.end - token.start - 1]) == Some(entries[index].key.text)
    ensures |entries[index].key.text| < MAX_KEY_LENGTH && AllNames(entries)
    ensures Spells(doc, token.end, [[COLON]] + ValueTokens(entries, index, emitUTF8, comma, rest))
  {
    hide Spells, ValueTokens, Quoted, Unescaped, Legible, Quotable;
    QuotedComesBack(entries[index].key.text, emitUTF8);
  }

  /** The next member is put among those read so far; it is new if no name is given twice. */
  lemma NextMember(entries: seq<Entry>, index: nat)
    requires index < |entries| && AllNames(entries)
    ensures SettledMembers(entries[..index + 1])
         == WithMember(SettledMembers(entries[..index]), entries[index].key, Settled(entries[index].value))
    ensures DistinctNames(entries) ==> !HasMember(SettledMembers(entries[..index]), entries[index].key)
  {
    hide WithMember, Settled, KeyLess;
    var upTo := entries[..index + 1];
    assert upTo[..index] == entries[..index] && upTo[index] == entries[index];
    SettledMembersAre(entries[..index]);
  }

  lemma MemberExpected(entries: seq<Entry>, index: nat, emitUTF8: bool, comma: Separator, rest: seq<Text>)
    requires LegibleMembers(entries, emitUTF8) && index < |entries|
    ensures AllNames(entries) && Legible(entries[index].value, emitUTF8)
    ensures Follows(MemberTokens(entries[index + 1..], emitUTF8, false, comma) + rest)
    ensures ValueTokens(entries, index, emitUTF8, comma, rest)
         == Tokens(entries[index].value, emitUTF8, comma)
            + (MemberTokens(entries[index + 1..], emitUTF8, false, comma) + rest)
  {
    hide EntryTokens, Tokens, Legible, NameTokens;
  }

  lemma AfterMember(entries: seq<Entry>, index: nat, emitUTF8: bool, comma: Separator, rest: seq<Text>)
    requires index <= |entries| && (index < |entries| ==> entries[index].key.Name?)
    ensures MemberTokens(entries[index..], emitUTF8, false, comma) + rest
         == if index == |entries| then [[CLOSE_OBJECT]] + rest
            else comma + NamedTokens(entries, index, emitUTF8, comma, rest)
  {
    hide EntryTokens, Quoted;
    if index < |entries| {
      assert entries[index..][0] == entries[index] && entries[index..][1..] == entries[index + 1..];
      MemberTokensUnfold(entries[index..], false, emitUTF8, comma, rest);
    }
  }

  /** The first token behind a member. */
  lemma MemberSeparatorRead(doc: Text, i: nat, entries: seq<Entry>, index: nat, emitUTF8: bool, comma: Separator,
                            rest: seq<Text>, ok: bool, token: Token)
    requires 0 < index <= |entries| && Spells(doc, i, MemberTokens(entries[index..], emitUTF8, false, comma) + rest)
    requires i <= |doc| && TokenRead(doc, SkipSpace(doc, i), ok, token) && AllNames(entries)
    ensures ok
    ensures if index == |entries| then token.kind == ObjectEnd && Spells(doc, token.end, rest)
            else if comma == [[COMMA]] then
              token.kind == ArraySeparator && MemberPending(doc, token.end, entries, index, emitUTF8, comma, rest)
            else token.kind == CommentToken && StrayPending(doc, token.end, entries, index, emitUTF8, comma, rest)
  {
    hide MemberTokens, SkipSpace, TokenRead, Spells, NamedTokens, IsComment, Stray, CommentAt, CommentEnd;
    AfterMember(entries, index, emitUTF8, comma, rest);
    if index == |entries| {
      PunctuationRead(doc, i, CLOSE_OBJECT, rest, ok, token);
    } else if comma == [[COMMA]] {
      PunctuationRead(doc, i, COMMA, NamedTokens(entries, index, emitUTF8, comma, rest), ok, token);
    } else {
      var more := [comma[1]] + NamedTokens(entries, index, emitUTF8, comma, rest);
      assert comma + NamedTokens(entries, index, emitUTF8, comma, rest) == [comma[0]] + more;
      SpellsNext(doc, i, comma[0], more);
      CommentStands(doc, SkipSpace(doc, i), comma[0]);
      CommentRead(doc, SkipSpace(doc, i), ok, token);
    }
  }

  /** Behind a comment that follows a member, in front of what stands for the comma. */
  ghost predicate StrayPending(doc: Text, i: nat, entries: seq<Entry>, index: nat, emitUTF8: bool, comma: Separator,
                               rest: seq<Text>)
  {
    && index < |entries| && entries[index].key.Name? && comma != [[COMMA]]
    && Spells(doc, i, [comma[1]] + NamedTokens(entries, index, emitUTF8, comma, rest))
  }

  /** What stands for the comma is read and forgotten. */
  lemma StraySeparatorRead(doc: Text, i: nat, entries: seq<Entry>, index: nat, emitUTF8: bool, comma: Separator,
                           rest: seq<Text>, ok: bool, token: Token)
    requires StrayPending(doc, i, entries, index, emitUTF8, comma, rest)
    requires i <= |doc| && token.start == PastComments(doc, i) && TokenRead(doc, token.start, ok, token)
    ensures token.kind != ObjectEnd && MemberPending(doc, token.end, entries, index, emitUTF8, comma, rest)
  {
    hide SkipSpace, TokenRead, Spells, Stray, IsComment, PastComments, ValueTokens, Escaped;
    var more := NamedTokens(entries, index, emitUTF8, comma, rest);
    StrayStarts(doc, i, comma[1], more);
    StrayRead(doc, i, comma[1], more, ok, token);
  }

  ghost predicate LegibleItems(entries: seq<Entry>, emitUTF8: bool) {
    DenseArray(entries) && forall i :: 0 <= i < |entries| ==> Legible(entries[i].value, emitUTF8)
  }

  /** The text of a value starts with neither a comment nor a closing bracket. */
  lemma ValueStarts(doc: Text, i: nat, v: Value, emitUTF8: bool, comma: Separator, rest: seq<Text>)
    requires Legible(v, emitUTF8) && Spells(doc, i, Tokens(v, emitUTF8, comma) + rest)
    ensures i <= |doc| && SkipSpace(doc, i) < |doc|
    ensures doc[SkipSpace(doc, i)] != SLASH && doc[SkipSpace(doc, i)] != CLOSE_ARRAY && doc[SkipSpace(doc, i)] < 0x80
  {
    hide SkipSpace, ItemTokens, MemberTokens, Decimal, Escaped;
    var tokens := Tokens(v, emitUTF8, comma);
    var t := tokens[0];
    assert tokens + rest == [t] + (tokens[1..] + rest);
    SpellsNext(doc, i, t, tokens[1..] + rest);
    if v.Int? {
      IntegerShape(v.signed);
    } else if v.UInt? {
      IntegerShape(v.unsigned);
    }
    assert doc[SkipSpace(doc, i)..SkipSpace(doc, i) + |t|][0] == t[0];
  }

  /** The token is the first of the value's text, and all of it unless the value is an array or object. */
  predicate TokenFor(doc: Text, token: Token, v: Value, emitUTF8: bool, comma: Separator, rest: seq<Text>) {
    && token.start < token.end <= |doc|
    && if v.Array? then
         token.kind == ArrayBegin && Spells(doc, token.end, ItemTokens(v.entries, emitUTF8, true, comma) + rest)
       else if v.Object? then
         token.kind == ObjectBegin && Spells(doc, token.end, MemberTokens(v.entries, emitUTF8, true, comma) + rest)
       else ScalarToken(doc, token, v) && Spells(doc, token.end, rest)
  }

  predicate ScalarToken(doc: Text, token: Token, v: Value)
    requires token.start < token.end <= |doc|
  {
    match v
    case Null => token.kind == NullToken
    case Bool(b) => token.kind == if b then TrueToken else FalseToken
    case Int(_) => token.kind == NumberToken && IntegerOf(doc[token.start..token.end]) == Some(Settled(v))
    case UInt(_) => token.kind == NumberToken && IntegerOf(doc[token.start..token.end]) == Some(Settled(v))
    case String(s) =>
      && token.kind == StringToken && token.start + 2 <= token.end
      && Unescaped(doc[token.start..token.end][1..token.end - token.start - 1]) == Some(s)
    case _ => false
  }

  lemma ScalarKind(doc: Text, token: Token, v: Value)
    requires token.start < token.end <= |doc|
    ensures ScalarToken(doc, token, v) ==>
              !v.Array? && !v.Object? && token.kind != ArrayBegin && token.kind != ObjectBegin
  {
  }

  lemma ScalarIsFlat(doc: Text, token: Token, v: Value, emitUTF8: bool, comma: Separator, rest: seq<Text>)
    requires TokenFor(doc, token, v, emitUTF8, comma, rest) && token.kind != ObjectBegin && token.kind != ArrayBegin
    ensures token.start < token.end <= |doc| && ScalarToken(doc, token, v) && Spells(doc, token.end, rest)
            && Depth(v) == 0
  {
    hide Spells;
  }

  lemma DistinctParts(v: Value)
    ensures Distinct(v) && v.Object? ==> DistinctNames(v.entries)
    ensures Distinct(v) && (v.Array? || v.Object?) ==> forall i :: 0 <= i < |v.entries| ==> Distinct(v.entries[i].value)
  {
    if Distinct(v) && (v.Array? || v.Object?) {
      forall i | 0 <= i < |v.entries| ensures Distinct(v.entries[i].value) {
        assert DistinctEntry(v.entries[i]);
      }
    }
  }

  lemma MembersAreMeant(entries: seq<Entry>, emitUTF8: bool)
    requires LegibleMembers(entries, emitUTF8)
    ensures Means(Object(entries), Object(SettledMembers(entries)))
  {
    hide Means, SettledMembers;
    SettledIsMeant(Object(entries), emitUTF8);
  }

  lemma LegibleParts(v: Value, emitUTF8: bool)
    requires Legible(v, emitUTF8)
    ensures v.Array? ==> LegibleItems(v.entries, emitUTF8) && Settled(v) == Array(SettledItems(v.entries))
    ensures v.Object? ==> LegibleMembers(v.entries, emitUTF8) && Settled(v) == Object(SettledMembers(v.entries))
    ensures Depth(v) == if v.Array? || v.Object? then DepthOf(v.entries) else 0
  {
  }

  ghost predicate LegibleMembers(entries: seq<Entry>, emitUTF8: bool) {
    forall i :: 0 <= i < |entries| ==> Legible(entries[i].value, emitUTF8) && LegibleName(entries[i].key, emitUTF8)
  }

  lemma FirstOctet(doc: Text)
    requires SkipSpace(doc, 0) < |doc| && doc[SkipSpace(doc, 0)] < 0x80
    ensures doc[0] < 0x80
  {
  }

  /** A text that spells a value does not begin with a byte order mark, unless that was put in front of it. */
  lemma SpelledBehindMark(text: Text, skip: bool, v: Value, emitUTF8: bool, comma: Separator)
    requires Legible(v, emitUTF8)
    requires || Spells(text, 0, Tokens(v, emitUTF8, comma))
             || (skip && StartsWithMark(text) && Spells(text, 3, Tokens(v, emitUTF8, comma)))
    ensures Spells(text, if skip && StartsWithMark(text) then 3 else 0, Tokens(v, emitUTF8, comma) + [])
  {
    hide Spells, Tokens, Legible, SkipSpace;
    assert Tokens(v, emitUTF8, comma) + [] == Tokens(v, emitUTF8, comma);
    if Spells(text, 0, Tokens(v, emitUTF8, comma)) {
      ValueStarts(text, 0, v, emitUTF8, comma, []);
      FirstOctet(text);
      assert !StartsWithMark(text);
    }
  }

  lemma NothingFollows(doc: Text, i: nat)
    requires Spells(doc, i, [])
    ensures i <= |doc| && SkipSpace(doc, i) == |doc|
  {
  }

  /** The first token of a value's text. */
  lemma FirstToken(doc: Text, i: nat, v: Value, emitUTF8: bool, comma: Separator, rest: seq<Text>, ok: bool,
                   token: Token)
    requires Legible(v, emitUTF8) && Follows(rest) && Spells(doc, i, Tokens(v, emitUTF8, comma) + rest)
    requires i <= |doc| && TokenRead(doc, SkipSpace(doc, i), ok, token)
    ensures TokenFor(doc, token, v, emitUTF8, comma, rest)
  {
    hide SkipSpace, ItemTokens, MemberTokens, Decimal, Escaped, Spells, Unescaped, IntegerOf;
    hide IntegerText, Quoted, TokenRead;
    TokenStarts(doc, SkipSpace(doc, i), ok, token);
    TokenInside(doc, SkipSpace(doc, i), ok, token);
    match v
    case Null => LiteralIsRead(doc, i, NULL_TEXT, rest, ok, token);
    case Bool(b) => LiteralIsRead(doc, i, if b then TRUE_TEXT else FALSE_TEXT, rest, ok, token);
    case Int(n) =>
      IntegerIsRead(doc, i, n, rest, ok, token);
      IntegerRoundTrip(n);
    case UInt(n) =>
      IntegerIsRead(doc, i, n, rest, ok, token);
      IntegerRoundTrip(n);
    case String(s) =>
      QuotedIsRead(doc, i, s, emitUTF8, rest, ok, token);
      QuotedComesBack(s, emitUTF8);
    case Array(entries) =>
      assert Tokens(v, emitUTF8, comma) + rest == [[OPEN_ARRAY]] + (ItemTokens(entries, emitUTF8, true, comma) + rest);
      PunctuationRead(doc, i, OPEN_ARRAY, ItemTokens(entries, emitUTF8, true, comma) + rest, ok, token);
    case Object(entries) =>
      assert Tokens(v, emitUTF8, comma) + rest
             == [[OPEN_OBJECT]] + (MemberTokens(entries, emitUTF8, true, comma) + rest);
      PunctuationRead(doc, i, OPEN_OBJECT, MemberTokens(entries, emitUTF8, true, comma) + rest, ok, token);
    case Real(_) =>
  }

  /** A token is a comma or closes something exactly where such an octet stands. */
  lemma MarkRead(doc: Text, start: nat, ok: bool, token: Token)
    requires TokenRead(doc, start, ok, token)
    ensures IsPunctuation(token.kind) ==>
              start < |doc| && token.end == start + 1 && Punctuation(doc[start]) == Some(token.kind)
  {
    hide LiteralRead, WordRead, CommentAt, CommentEnd;
  }

  lemma SeparatorIs(doc: Text, start: nat, ok: bool, token: Token)
    requires TokenRead(doc, start, ok, token)
    ensures start <= |doc| && (IsPunctuation(token.kind) ==> ok)
    ensures token.kind == MemberSeparator <==> OctetAt(doc, start, COLON)
    ensures token.kind == ArraySeparator <==> OctetAt(doc, start, COMMA)
    ensures token.kind == ArrayEnd <==> OctetAt(doc, start, CLOSE_ARRAY)
    ensures token.kind == ObjectEnd <==> OctetAt(doc, start, CLOSE_OBJECT)
  {
    hide LiteralRead, WordRead, CommentAt, CommentEnd;
  }

  lemma MarkStands(doc: Text, k: nat)
    requires PlaceholderAt(doc, k)
    ensures k < |doc| && AfterElement(doc, k) == AfterMark(doc, k)
  {
    hide PastComments, CommentAt;
    assert SkipSpace(doc, k) == k;
  }

  lemma BracketStands(doc: Text, k: nat)
    requires k <= |doc|
    ensures OctetAt(doc, k, CLOSE_ARRAY) ==>
              && SkipSpace(doc, k) == k && PastComments(doc, k) == k && PlaceholderAt(doc, k)
              && AfterMark(doc, k) == Done
  {
    hide CommentAt;
  }

  lemma BraceIs(doc: Text, start: nat, ok: bool, token: Token)
    requires TokenRead(doc, start, ok, token) && OctetAt(doc, start, CLOSE_OBJECT)
    ensures ok && token.kind == ObjectEnd
  {
    hide TokenRead;
    SeparatorIs(doc, start, ok, token);
  }

  lemma PlaceholderIs(doc: Text, start: nat, ok: bool, token: Token)
    requires TokenRead(doc, start, ok, token)
    ensures IsPlaceholder(token.kind) <==> PlaceholderAt(doc, start)
    ensures IsPlaceholder(token.kind) ==>
              token.kind != ObjectBegin && token.kind != ArrayBegin && token.end == start + 1
  {
    hide TokenRead;
    SeparatorIs(doc, start, ok, token);
    MarkRead(doc, start, ok, token);
  }

  lemma ElementIsFollowedBy(doc: Text, i: nat, ok: bool, token: Token)
    requires i <= |doc| && token.start == PastComments(doc, i) && TokenRead(doc, token.start, ok, token)
    ensures AfterElement(doc, i) == if token.kind == ArrayEnd then Done else if token.kind == ArraySeparator then GoOn
            else Failed
    ensures token.kind == ArrayEnd || token.kind == ArraySeparator ==> ok
  {
    hide TokenRead, PastComments;
    SeparatorIs(doc, token.start, ok, token);
  }

  lemma TokenStarts(doc: Text, start: nat, ok: bool, token: Token)
    requires TokenRead(doc, start, ok, token)
    ensures start <= |doc| && token.start == start <= token.end && (token.kind != EndOfStream ==> start < token.end)
    ensures token.kind == CommentToken ==> start < |doc| && doc[start] == SLASH
    ensures ok <==> token.kind != ErrorToken
    ensures token.kind == StringToken ==> token.end >= start + 2
    ensures IsPunctuation(token.kind) ==> token.end == start + 1
  {
    hide LiteralRead;
  }
}
