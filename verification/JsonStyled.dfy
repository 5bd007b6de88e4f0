/**
 jsoncpp's `BuiltStyledStreamWriter` (json_writer.cpp) for values without comments:
 indented text, with short arrays on one line.
 */
module JsonStyled {
  import opened Wrappers
  import opened Octets
  import opened JsonValue
  import opened JsonInteger
  import opened JsonString
  import opened JsonText
  import opened JsonLayout
  import opened JsonWriter

  lemma FlatSpelled(text: Text, done: seq<Text>, v: Value, emitUTF8: bool)
    requires SpelledSoFar(text, done) && Flat(v) && Printable(v, emitUTF8)
    ensures SpelledSoFar(text + FlatText(v, emitUTF8), done + Tokens(v, emitUTF8))
  {
    hide SpelledSoFar, ProperToken, Quoted, IntegerText;
    if v.Array? {
      PairSpelled(text, done, OPEN_ARRAY, CLOSE_ARRAY);
    } else if v.Object? {
      PairSpelled(text, done, OPEN_OBJECT, CLOSE_OBJECT);
    } else {
      TokensAreProper(v, emitUTF8);
      assert Tokens(v, emitUTF8) == [FlatText(v, emitUTF8)];
      TokenSpelled(text, done, FlatText(v, emitUTF8));
    }
  }

  lemma PairSpelled(text: Text, done: seq<Text>, a: byte, b: byte)
    requires SpelledSoFar(text, done) && !IsSpace(a) && !IsSpace(b)
    ensures SpelledSoFar(text + [a, b], done + ([[a]] + [[b]]))
  {
    hide SpelledSoFar, ProperToken;
    PunctuationIsProper(a);
    PunctuationIsProper(b);
    TokenSpelled(text, done, [a]);
    TokenSpelled(text + [a], done + [[a]], [b]);
    assert text + [a] + [b] == text + [a, b];
    assert done + [[a]] + [[b]] == done + ([[a]] + [[b]]);
  }

  // ------------------------------------------------------------------
  // Tokens still to be written
  // ------------------------------------------------------------------

  /** The tokens from an element on. */
  function ItemRest(entries: seq<Entry>, index: nat, emitUTF8: bool): seq<Text>
    requires index < |entries|
  {
    Tokens(entries[index].value, emitUTF8) + ItemTokens(entries[index + 1..], emitUTF8, false)
  }

  lemma ItemsStart(done: seq<Text>, entries: seq<Entry>, emitUTF8: bool)
    requires entries != []
    ensures done + Tokens(Array(entries), emitUTF8) == (done + [[OPEN_ARRAY]]) + ItemRest(entries, 0, emitUTF8)
  {
    hide ItemTokens, Tokens;
    ArrayBegins(done, entries, emitUTF8);
    ItemTokensFrom(entries, 0, emitUTF8);
    assert [] + ItemRest(entries, 0, emitUTF8) == ItemRest(entries, 0, emitUTF8);
  }

  /** After an element the text goes on with a comma or ends. */
  lemma ItemWritten(done: seq<Text>, entries: seq<Entry>, index: nat, emitUTF8: bool)
    requires index < |entries|
    ensures var now := done + Tokens(entries[index].value, emitUTF8);
            done + ItemRest(entries, index, emitUTF8)
            == if index + 1 == |entries| then now + [[CLOSE_ARRAY]]
               else (now + [[COMMA]]) + ItemRest(entries, index + 1, emitUTF8)
  {
    hide ItemTokens, Tokens;
    var now, more := done + Tokens(entries[index].value, emitUTF8), ItemTokens(entries[index + 1..], emitUTF8, false);
    Regroup(done, Tokens(entries[index].value, emitUTF8), more);
    ItemTokensFrom(entries, index + 1, emitUTF8);
    if index + 1 < |entries| {
      Regroup(now, [[COMMA]], ItemRest(entries, index + 1, emitUTF8));
    }
  }

  function MemberText(e: Entry, emitUTF8: bool): seq<Text>
    requires e.key.Name?
  {
    [Quoted(e.key.text, emitUTF8)] + ([[COLON]] + Tokens(e.value, emitUTF8))
  }

  /** The tokens from a member on. */
  function MemberRest(entries: seq<Entry>, index: nat, emitUTF8: bool): seq<Text>
    requires index < |entries| && entries[index].key.Name?
  {
    MemberText(entries[index], emitUTF8) + MemberTokens(entries[index + 1..], emitUTF8, false)
  }

  lemma MemberRestIs(entries: seq<Entry>, index: nat, emitUTF8: bool)
    requires index < |entries| && entries[index].key.Name?
    ensures MemberTokens(entries[index..], emitUTF8, index == 0)
         == (if index == 0 then [] else [[COMMA]]) + MemberRest(entries, index, emitUTF8)
  {
    hide Tokens, Quoted, MemberTokens;
    MemberTokensFrom(entries, index, emitUTF8);
    var name, text := [Quoted(entries[index].key.text, emitUTF8)], Tokens(entries[index].value, emitUTF8);
    var more := MemberTokens(entries[index + 1..], emitUTF8, false);
    Regroup([[COLON]], text, more);
    Regroup(name, [[COLON]] + text, more);
  }

  lemma MembersStart(done: seq<Text>, entries: seq<Entry>, emitUTF8: bool)
    requires entries != [] && entries[0].key.Name?
    ensures done + Tokens(Object(entries), emitUTF8) == (done + [[OPEN_OBJECT]]) + MemberRest(entries, 0, emitUTF8)
  {
    hide MemberTokens, Tokens, MemberRest;
    ObjectBegins(done, entries, emitUTF8);
    MemberRestIs(entries, 0, emitUTF8);
    assert [] + MemberRest(entries, 0, emitUTF8) == MemberRest(entries, 0, emitUTF8);
  }

  lemma MemberWritten(done: seq<Text>, entries: seq<Entry>, index: nat, emitUTF8: bool)
    requires index < |entries| && entries[index].key.Name? && (index + 1 < |entries| ==> entries[index + 1].key.Name?)
    ensures var now := done + MemberText(entries[index], emitUTF8);
            done + MemberRest(entries, index, emitUTF8)
            == if index + 1 == |entries| then now + [[CLOSE_OBJECT]]
               else (now + [[COMMA]]) + MemberRest(entries, index + 1, emitUTF8)
  {
    hide MemberTokens, MemberText;
    var now, more := done + MemberText(entries[index], emitUTF8), MemberTokens(entries[index + 1..], emitUTF8, false);
    Regroup(done, MemberText(entries[index], emitUTF8), more);
    if index + 1 < |entries| {
      MemberRestIs(entries, index + 1, emitUTF8);
      Regroup(now, [[COMMA]], MemberRest(entries, index + 1, emitUTF8));
    } else {
      MemberTokensFrom(entries, index + 1, emitUTF8);
    }
  }

  // ------------------------------------------------------------------
  // Text still to be written
  // ------------------------------------------------------------------

  lemma MemberLaid(text: Text, entries: seq<Entry>, index: nat, style: Style, depth: nat)
    requires index < |entries|
    ensures var e := entries[index];
            var now :=
              text + (Break(style, depth + 1) + LaidName(e.key, style) + Laid(e.value, style, depth + 1, false));
            text + LaidMembers(entries[index..], style, depth)
            == if index + 1 == |entries| then now + Break(style, depth) + [CLOSE_OBJECT]
               else (now + [COMMA]) + LaidMembers(entries[index + 1..], style, depth)
  {
    hide Break, LaidName, Laid;
    assert entries[index..][0] == entries[index];
    if index + 1 < |entries| {
      assert entries[index..][1..] == entries[index + 1..];
    }
  }

  lemma ItemLaid(text: Text, entries: seq<Entry>, index: nat, style: Style, depth: nat)
    requires index < |entries|
    ensures var now := text + (Break(style, depth + 1) + Laid(entries[index].value, style, depth + 1, true));
            text + LaidItems(entries[index..], style, depth)
            == if index + 1 == |entries| then now + Break(style, depth) + [CLOSE_ARRAY]
               else (now + [COMMA]) + LaidItems(entries[index + 1..], style, depth)
  {
    hide Break, Laid;
    assert entries[index..][0] == entries[index];
    if index + 1 < |entries| {
      assert entries[index..][1..] == entries[index + 1..];
    }
  }

  lemma LineItemLaid(text: Text, entries: seq<Entry>, index: nat, style: Style)
    requires index < |entries|
    ensures var now := text + FlatText(entries[index].value, style.emitUTF8);
            text + LineItems(entries[index..], style)
            == if index + 1 == |entries| then now + (Gap(style) + [CLOSE_ARRAY])
               else now + ([COMMA] + Gap(style) + LineItems(entries[index + 1..], style))
  {
    hide Gap, FlatText;
    assert entries[index..][0] == entries[index];
    if index + 1 < |entries| {
      assert entries[index..][1..] == entries[index + 1..];
    }
  }

  /** Where the line breaks of a whole text are. */
  lemma TextInLines(root: Value, style: Style, ending: Text)
    requires style.indentation != []
    ensures var lines, width := LinesOf(root, style, 0, true), |style.indentation|;
            var end, text := BreakAt(lines, width, |lines|), Laid(root, style, 0, true) + ending;
            && |text| == end + |ending| && Holds(text, 0, lines[0].text)
            && (forall k :: 1 <= k < |lines| ==>
                  Holds(text, BreakAt(lines, width, k),
                        [LINE_FEED] + Copies(style.indentation, lines[k].depth) + lines[k].text))
            && (LINE_FEED !in style.indentation && LINE_FEED !in style.colonSymbol ==>
                  forall j :: 0 <= j < end && text[j] == LINE_FEED ==>
                    exists k :: 1 <= k < |lines| && BreakAt(lines, width, k) == j)
  {
    hide LinesOf, Laid, Joint, Copies, Holds, BreakAt;
    var lines, ind := LinesOf(root, style, 0, true), style.indentation;
    var text := Joint(lines, ind);
    LaidInLines(root, style, 0, true);
    JointLength(lines, ind);
    FirstStands(lines, ind);
    HoldsBefore(text, ending, 0, lines[0].text);
    forall k | 1 <= k < |lines|
      ensures Holds(text + ending, BreakAt(lines, |ind|, k), [LINE_FEED] + Copies(ind, lines[k].depth) + lines[k].text)
    {
      LineStands(lines, ind, k);
      HoldsBefore(text, ending, BreakAt(lines, |ind|, k), BrokenLine(lines[k], ind));
    }
    if LINE_FEED !in ind && LINE_FEED !in style.colonSymbol {
      LinesUnbroken(root, style, 0, true);
      forall j | 0 <= j < |text| && (text + ending)[j] == LINE_FEED
        ensures exists k :: 1 <= k < |lines| && BreakAt(lines, |ind|, k) == j
      {
        var k := BreakIsOne(lines, ind, j);
      }
    }
  }

  lemma FirstStands(ls: seq<Line>, indentation: Text)
    requires ls != []
    ensures Holds(Joint(ls, indentation), 0, ls[0].text)
  {
  }

  // ------------------------------------------------------------------
  // The writer
  // ------------------------------------------------------------------

  class BuiltStyledStreamWriter {
    const style: Style
    var out: Text
    var childValues: seq<Text>
    var indentString: Text
    var addChildValues: bool
    var indented: bool

    constructor (style: Style)
      ensures this.style == style && childValues == []
    {
      this.style := style;
      out, childValues, indentString, addChildValues, indented := [], [], [], false, false;
    }

    ghost predicate Valid()
      reads this
    {
      && PlainStyle(style) && AllSpace(indentString)
      && (style.comments == KeepAll ==> childValues == [] && !addChildValues)
    }

    method PutSpace(space: Text, ghost done: seq<Text>)
      requires SpelledSoFar(out, done) && AllSpace(space)
      modifies this`out
      ensures SpelledSoFar(out, done) && out == old(out) + space
    {
      SpaceSpelled(out, done, space);
      out := out + space;
    }

    method PutToken(t: Text, ghost done: seq<Text>)
      requires SpelledSoFar(out, done) && ProperToken(t)
      modifies this`out
      ensures SpelledSoFar(out, done + [t]) && out == old(out) + t
    {
      TokenSpelled(out, done, t);
      out := out + t;
    }

    method PutFlat(text: Text, ghost v: Value, ghost done: seq<Text>)
      requires SpelledSoFar(out, done) && Flat(v) && Printable(v, style.emitUTF8) && text == FlatText(v, style.emitUTF8)
      modifies this`out
      ensures SpelledSoFar(out, done + Tokens(v, style.emitUTF8)) && out == old(out) + text
    {
      FlatSpelled(out, done, v, style.emitUTF8);
      out := out + text;
    }

    /** `pushValue` */
    method PushValue(text: Text, ghost v: Value, ghost done: seq<Text>)
      requires Flat(v) && Printable(v, style.emitUTF8) && text == FlatText(v, style.emitUTF8)
      requires !addChildValues ==> SpelledSoFar(out, done)
      modifies this`out, this`childValues
      ensures if addChildValues then out == old(out) && childValues == old(childValues) + [text]
              else
                && childValues == old(childValues) && SpelledSoFar(out, done + Tokens(v, style.emitUTF8))
                && out == old(out) + text
    {
      hide SpelledSoFar, Printable, Tokens, FlatText;
      if addChildValues {
        childValues := childValues + [text];
      } else {
        PutFlat(text, v, done);
      }
    }

    /** The indentation that the writer stands at. */
    ghost predicate At(depth: nat)
      reads this
    {
      indentString == Copies(style.indentation, depth)
    }

    /** `writeIndent` */
    method WriteIndent(ghost done: seq<Text>, ghost depth: nat)
      requires Valid() && SpelledSoFar(out, done) && At(depth)
      modifies this`out
      ensures SpelledSoFar(out, done) && out == old(out) + Break(style, depth)
    {
      hide SpelledSoFar, Copies;
      if style.indentation != [] {
        PutSpace(NEWLINE_TEXT, done);
        PutSpace(indentString, done);
      }
    }

    /** `writeWithIndent` of one token */
    method WriteWithIndent(t: Text, ghost done: seq<Text>, ghost depth: nat)
      requires Valid() && SpelledSoFar(out, done) && ProperToken(t) && At(depth)
      modifies this`out, this`indented
      ensures SpelledSoFar(out, done + [t]) && !indented
      ensures out == old(out) + (if old(indented) then [] else Break(style, depth)) + t
    {
      hide SpelledSoFar, ProperToken, At, Break;
      if !indented {
        WriteIndent(done, depth);
      }
      PutToken(t, done);
      indented := false;
    }

    /** `indent` */
    method Indent(ghost depth: nat)
      requires Valid() && At(depth)
      modifies this`indentString
      ensures Valid() && At(depth + 1) && indentString == old(indentString) + style.indentation
    {
      indentString := indentString + style.indentation;
    }

    /** `unindent` */
    method Unindent(ghost depth: nat)
      requires Valid() && At(depth + 1) && |style.indentation| <= |indentString|
      modifies this`indentString
      ensures Valid() && At(depth) && indentString == old(indentString)[..|old(indentString)| - |style.indentation|]
    {
      indentString := indentString[..|indentString| - |style.indentation|];
    }

    /** `write`: the text spells the value. */
    method Write(root: Value) returns (text: Text)
      requires PlainStyle(style) && Printable(root, style.emitUTF8) && (style.comments == KeepAll ==> childValues == [])
      modifies this
      ensures text == out && Spells(text, 0, Tokens(root, style.emitUTF8))
      ensures text == Laid(root, style, 0, true) + style.endingLineFeedSymbol
      ensures style.indentation != [] ==>
                var lines, width := LinesOf(root, style, 0, true), |style.indentation|;
                var end := BreakAt(lines, width, |lines|);
                && |text| == end + |style.endingLineFeedSymbol| && Holds(text, 0, lines[0].text)
                && (forall k :: 1 <= k < |lines| ==>
                      Holds(text, BreakAt(lines, width, k),
                            ['\n' as int] + Copies(style.indentation, lines[k].depth) + lines[k].text))
                && ('\n' as int !in style.indentation && '\n' as int !in style.colonSymbol ==>
                      forall j :: 0 <= j < end && text[j] == '\n' as int ==>
                        exists k :: 1 <= k < |lines| && BreakAt(lines, width, k) == j)
      ensures style.comments == KeepAll ==> childValues == []
    {
      hide Printable, Tokens, Spells, Laid;
      out, addChildValues, indented, indentString := [], false, true, [];
      NothingSpelled();
      WriteValue(root, [], 0);
      assert [] + Laid(root, style, 0, true) == Laid(root, style, 0, true);
      assert [] + Tokens(root, style.emitUTF8) == Tokens(root, style.emitUTF8);
      PutSpace(style.endingLineFeedSymbol, Tokens(root, style.emitUTF8));
      text := out;
      if style.indentation != [] {
        TextInLines(root, style, style.endingLineFeedSymbol);
      }
    }

    /** `writeValue`: into the stream, or as one child value. */
    method WriteValue(value: Value, ghost done: seq<Text>, ghost depth: nat)
      requires Valid() && Printable(value, style.emitUTF8) && At(depth)
      requires if addChildValues then Flat(value) else SpelledSoFar(out, done)
      modifies this
      ensures Valid() && indentString == old(indentString) && addChildValues == old(addChildValues)
      ensures (addChildValues ==> indented == old(indented)) && (!old(indented) ==> !indented)
      ensures if addChildValues then
                out == old(out) && childValues == old(childValues) + [FlatText(value, style.emitUTF8)]
              else
                && SpelledSoFar(out, done + Tokens(value, style.emitUTF8))
                && out == old(out) + Laid(value, style, depth, old(indented))
      decreases value, 3
    {
      hide SpelledSoFar, Quoted, IntegerText, Tokens, LaidMembers, LaidItems, LineItems, OnLines, Break, Copies;
      match value {
        case Null => PushValue(style.nullSymbol, value, done);
        case Int(n) =>
          var text := IntToString(n);
          PushValue(text, value, done);
        case UInt(n) =>
          var text := LargestUIntToString(n);
          PushValue(text, value, done);
        case String(s) =>
          var text := ValueToQuotedString(s, style.emitUTF8);
          PushValue(text, value, done);
        case Bool(b) => PushValue(if b then TRUE_TEXT else FALSE_TEXT, value, done);
        case Array(entries) => WriteArrayValue(value, done, depth);
        case Object(entries) =>
          if entries == [] {
            PushValue([OPEN_OBJECT, CLOSE_OBJECT], value, done);
          } else {
            WriteObject(value, done, depth);
          }
      }
    }

    /** The object branch of `writeValue`. */
    method WriteObject(value: Value, ghost done: seq<Text>, ghost depth: nat)
      requires Valid() && value.Object? && value.entries != [] && Printable(value, style.emitUTF8)
      requires !addChildValues && SpelledSoFar(out, done) && At(depth)
      modifies this
      ensures Valid() && indentString == old(indentString) && !addChildValues && !indented
      ensures SpelledSoFar(out, done + Tokens(value, style.emitUTF8))
      ensures out == old(out) + Laid(value, style, depth, old(indented))
      decreases value, 2
    {
      hide SpelledSoFar, Printable, Tokens, MemberText, MemberRest, PlainStyle, ProperToken, LaidMembers, Break, Copies;
      hide LaidName;
      var entries := value.entries;
      PunctuationIsProper(OPEN_OBJECT);
      PunctuationIsProper(COMMA);
      PunctuationIsProper(CLOSE_OBJECT);
      ghost var whole, written := done + Tokens(value, style.emitUTF8), done + [[OPEN_OBJECT]];
      PrintableChild(value, 0, style.emitUTF8);
      MembersStart(done, entries, style.emitUTF8);
      WriteWithIndent([OPEN_OBJECT], done, depth);
      Indent(depth);
      var index := 0;
      ghost var laid := out + LaidMembers(entries, style, depth);
      assert entries[0..] == entries;
      Regroup(old(out), if old(indented) then [] else Break(style, depth), [OPEN_OBJECT]);
      Regroup(old(out), (if old(indented) then [] else Break(style, depth)) + [OPEN_OBJECT],
              LaidMembers(entries, style, depth));
      while true
        invariant 0 <= index < |entries| && Valid() && !addChildValues
                  && indentString == old(indentString) + style.indentation
        invariant SpelledSoFar(out, written) && entries[index].key.Name?
        invariant written + MemberRest(entries, index, style.emitUTF8) == whole
        invariant At(depth + 1) && !indented && out + LaidMembers(entries[index..], style, depth) == laid
        decreases |entries| - index
      {
        PrintableChild(value, index, style.emitUTF8);
        if index + 1 < |entries| {
          PrintableChild(value, index + 1, style.emitUTF8);
        }
        MemberWritten(written, entries, index, style.emitUTF8);
        MemberLaid(out, entries, index, style, depth);
        WriteMember(entries[index], written, depth + 1);
        written := written + MemberText(entries[index], style.emitUTF8);
        index := index + 1;
        if index == |entries| {
          break;
        }
        PutToken([COMMA], written);
        written := written + [[COMMA]];
      }
      Unindent(depth);
      assert indentString == old(indentString);
      WriteWithIndent([CLOSE_OBJECT], written, depth);
    }

    /** A name, the colon and the value. */
    method WriteMember(e: Entry, ghost done: seq<Text>, ghost depth: nat)
      requires Valid() && e.key.Name? && Printable(e.value, style.emitUTF8) && !addChildValues
               && SpelledSoFar(out, done)
      requires At(depth) && !indented
      modifies this
      ensures Valid() && indentString == old(indentString) && !addChildValues && !indented
      ensures SpelledSoFar(out, done + MemberText(e, style.emitUTF8))
      ensures out == old(out) + (Break(style, depth) + LaidName(e.key, style) + Laid(e.value, style, depth, false))
      decreases e.value, 4
    {
      hide SpelledSoFar, Printable, Tokens, Quoted, PlainStyle, Laid, Break, Copies;
      ghost var name, text := [Quoted(e.key.text, style.emitUTF8)], Tokens(e.value, style.emitUTF8);
      WriteName(e.key.text, done, depth);
      WriteValue(e.value, done + name + [[COLON]], depth);
      Regroup(done + name, [[COLON]], text);
      Regroup(done, name, [[COLON]] + text);
    }

    method WriteName(name: seq<byte>, ghost done: seq<Text>, ghost depth: nat)
      requires Valid() && SpelledSoFar(out, done) && At(depth) && !indented
      modifies this`out, this`indented
      ensures SpelledSoFar(out, done + [Quoted(name, style.emitUTF8)] + [[COLON]]) && !indented
      ensures out == old(out) + (Break(style, depth) + LaidName(Name(name), style))
    {
      hide SpelledSoFar, Quoted, ProperToken, Break, At;
      var quoted := ValueToQuotedString(name, style.emitUTF8);
      QuotedIsProper(name, style.emitUTF8);
      WriteWithIndent(quoted, done, depth);
      ghost var k: nat :| IsColon(style.colonSymbol, k);
      SpaceSpelled(out, done + [quoted], style.colonSymbol[..k]);
      PunctuationIsProper(COLON);
      TokenSpelled(out + style.colonSymbol[..k], done + [quoted], [COLON]);
      SpaceSpelled(out + style.colonSymbol[..k] + [COLON], done + [quoted] + [[COLON]], style.colonSymbol[k + 1..]);
      assert out + style.colonSymbol == out + style.colonSymbol[..k] + [COLON] + style.colonSymbol[k + 1..];
      out := out + style.colonSymbol;
    }

    /** `isMultilineArray`; unless one is too long, the child values hold exactly one text per element. */
    method IsMultilineArray(value: Value, ghost depth: nat) returns (isMultiLine: bool)
      requires At(depth) && Valid() && value.Array? && value.entries != [] && Printable(value, style.emitUTF8)
      requires !addChildValues && style.comments != KeepAll
      modifies this
      ensures Valid() && out == old(out) && indentString == old(indentString) && indented == old(indented)
              && !addChildValues
      ensures isMultiLine <==> TooMuchForALine(value.entries, style.emitUTF8)
      ensures !isMultiLine ==> |childValues| == |value.entries|
      ensures childValues != [] ==> AllFlat(value.entries) && childValues == FlatTexts(value.entries, style.emitUTF8)
      decreases value, 1
    {
      hide Printable, PlainStyle, FlatText;
      var size := |value.entries|;
      isMultiLine := size * 3 % UINT_END >= RIGHT_MARGIN;
      childValues := [];
      var index := 0;
      while index < size && !isMultiLine
        invariant 0 <= index <= size && (!isMultiLine ==> AllFlat(value.entries[..index]))
        invariant isMultiLine ==> size * 3 % UINT_END >= RIGHT_MARGIN || !AllFlat(value.entries)
        invariant !isMultiLine ==> size * 3 % UINT_END < RIGHT_MARGIN
      {
        var child := value.entries[index].value;
        isMultiLine := (child.Array? || child.Object?) && child.entries != [];
        assert value.entries[..index + 1] == value.entries[..index] + [value.entries[index]];
        index := index + 1;
      }
      if !isMultiLine {
        assert value.entries[..index] == value.entries;
        var lineLength := PushChildren(value, depth);
        isMultiLine := lineLength >= RIGHT_MARGIN;
      }
    }

    /** The children of a line, and its length as an `unsigned int`. */
    method PushChildren(value: Value, ghost depth: nat) returns (lineLength: nat)
      requires At(depth) && Valid() && value.Array? && value.entries != [] && Printable(value, style.emitUTF8)
      requires !addChildValues && style.comments != KeepAll
      requires childValues == [] && AllFlat(value.entries)
      modifies this
      ensures Valid() && out == old(out) && indentString == old(indentString) && indented == old(indented)
              && !addChildValues
      ensures childValues == FlatTexts(value.entries, style.emitUTF8)
      ensures lineLength == LineLength(value.entries, |value.entries|, style.emitUTF8)
      decreases value, 0
    {
      hide Printable, PlainStyle, FlatText;
      var size := |value.entries|;
      addChildValues := true;
      lineLength := (4 + (size - 1) * 2) % UINT_END;
      for index := 0 to size
        invariant Valid() && out == old(out) && indentString == old(indentString) && indented == old(indented)
                  && addChildValues
        invariant |childValues| == index && lineLength == LineLength(value.entries, index, style.emitUTF8)
        invariant forall k :: 0 <= k < index ==> childValues[k] == FlatText(value.entries[k].value, style.emitUTF8)
      {
        PrintableChild(value, index, style.emitUTF8);
        WriteValue(value.entries[index].value, [], depth);
        lineLength := (lineLength + |childValues[index]|) % UINT_END;
      }
      addChildValues := false;
      assert childValues == FlatTexts(value.entries, style.emitUTF8);
    }

    /** `writeArrayValue` */
    method WriteArrayValue(value: Value, ghost done: seq<Text>, ghost depth: nat)
      requires Valid() && value.Array? && Printable(value, style.emitUTF8) && At(depth)
      requires if addChildValues then Flat(value) else SpelledSoFar(out, done)
      modifies this
      ensures Valid() && indentString == old(indentString) && addChildValues == old(addChildValues)
      ensures (addChildValues ==> indented == old(indented)) && (!old(indented) ==> !indented)
      ensures if addChildValues then
                out == old(out) && childValues == old(childValues) + [FlatText(value, style.emitUTF8)]
              else
                && SpelledSoFar(out, done + Tokens(value, style.emitUTF8))
                && out == old(out) + Laid(value, style, depth, old(indented))
      decreases value, 2
    {
      hide SpelledSoFar, Printable, PlainStyle, Tokens, FlatTexts, LaidItems, LineItems, Break, Copies, TooMuchForALine;
      if value.entries == [] {
        PushValue([OPEN_ARRAY, CLOSE_ARRAY], value, done);
        return;
      }
      var isMultiLine := true;
      if style.comments != KeepAll {
        isMultiLine := IsMultilineArray(value, depth);
      }
      if isMultiLine {
        WriteLines(value, done, depth);
      } else {
        WriteOneLine(value, done);
      }
    }

    /** Each element on its own line. */
    method WriteLines(value: Value, ghost done: seq<Text>, ghost depth: nat)
      requires Valid() && value.Array? && value.entries != [] && Printable(value, style.emitUTF8)
      requires !addChildValues && SpelledSoFar(out, done) && At(depth)
      requires childValues != [] ==> AllFlat(value.entries) && childValues == FlatTexts(value.entries, style.emitUTF8)
      modifies this
      ensures Valid() && indentString == old(indentString) && !addChildValues && !indented
      ensures SpelledSoFar(out, done + Tokens(value, style.emitUTF8))
      ensures out == old(out) + (if old(indented) then [] else Break(style, depth)) + [OPEN_ARRAY]
                     + LaidItems(value.entries, style, depth)
      decreases value, 1
    {
      hide SpelledSoFar, Printable, PlainStyle, Tokens, ItemRest, FlatText, FlatTexts, ProperToken;
      hide LaidItems, Break, Copies;
      hide Laid;
      var entries := value.entries;
      PunctuationIsProper(OPEN_ARRAY);
      PunctuationIsProper(COMMA);
      PunctuationIsProper(CLOSE_ARRAY);
      ghost var whole, written := done + Tokens(value, style.emitUTF8), done + [[OPEN_ARRAY]];
      ItemsStart(done, entries, style.emitUTF8);
      WriteWithIndent([OPEN_ARRAY], done, depth);
      Indent(depth);
      ghost var laid := out + LaidItems(entries, style, depth);
      assert entries[0..] == entries;
      var hasChildValue := childValues != [];
      var index := 0;
      while true
        invariant 0 <= index < |entries| && Valid() && !addChildValues
                  && indentString == old(indentString) + style.indentation
        invariant SpelledSoFar(out, written)
        invariant hasChildValue ==> AllFlat(entries) && childValues == FlatTexts(entries, style.emitUTF8)
        invariant written + ItemRest(entries, index, style.emitUTF8) == whole
        invariant At(depth + 1) && !indented && out + LaidItems(entries[index..], style, depth) == laid
        decreases |entries| - index
      {
        PrintableChild(value, index, style.emitUTF8);
        ItemWritten(written, entries, index, style.emitUTF8);
        ItemLaid(out, entries, index, style, depth);
        if hasChildValue {
          WriteChildText(childValues[index], entries[index].value, written, depth + 1);
        } else {
          WriteChild(entries[index].value, written, depth + 1);
        }
        written := written + Tokens(entries[index].value, style.emitUTF8);
        index := index + 1;
        if index == |entries| {
          break;
        }
        PutToken([COMMA], written);
        written := written + [[COMMA]];
      }
      Unindent(depth);
      assert indentString == old(indentString);
      WriteWithIndent([CLOSE_ARRAY], written, depth);
    }

    /** An element that is written now. */
    method WriteChild(child: Value, ghost done: seq<Text>, ghost depth: nat)
      requires Valid() && Printable(child, style.emitUTF8) && !addChildValues && SpelledSoFar(out, done)
      requires At(depth) && !indented
      modifies this
      ensures Valid() && indentString == old(indentString) && !addChildValues && !indented
      ensures SpelledSoFar(out, done + Tokens(child, style.emitUTF8))
      ensures out == old(out) + (Break(style, depth) + Laid(child, style, depth, true))
      decreases child, 4
    {
      hide SpelledSoFar, Printable, PlainStyle, Tokens, Laid, Break, Copies;
      if !indented {
        WriteIndent(done, depth);
      }
      indented := true;
      WriteValue(child, done, depth);
      indented := false;
    }

    /** `writeWithIndent` of an element whose text is known. */
    method WriteChildText(text: Text, ghost child: Value, ghost done: seq<Text>, ghost depth: nat)
      requires Valid() && Flat(child) && Printable(child, style.emitUTF8) && text == FlatText(child, style.emitUTF8)
      requires SpelledSoFar(out, done) && At(depth) && !indented
      modifies this`out, this`indented
      ensures SpelledSoFar(out, done + Tokens(child, style.emitUTF8)) && !indented
      ensures out == old(out) + (Break(style, depth) + Laid(child, style, depth, true))
    {
      hide SpelledSoFar, Printable, PlainStyle, Tokens, FlatText, Break, Copies;
      if !indented {
        WriteIndent(done, depth);
      }
      PutFlat(text, child, done);
      indented := false;
    }

    /** The single-line path; its assertion on the number of child values holds. */
    method WriteOneLine(value: Value, ghost done: seq<Text>)
      requires Valid() && value.Array? && value.entries != [] && Printable(value, style.emitUTF8)
      requires SpelledSoFar(out, done)
      requires AllFlat(value.entries) && childValues == FlatTexts(value.entries, style.emitUTF8)
      modifies this`out
      ensures SpelledSoFar(out, done + Tokens(value, style.emitUTF8))
      ensures out == old(out) + ([OPEN_ARRAY] + Gap(style) + LineItems(value.entries, style))
    {
      hide SpelledSoFar, Printable, PlainStyle, Tokens, ItemRest, FlatText, FlatTexts, ProperToken, LineItems, Gap;
      var entries := value.entries;
      assert |childValues| == |entries|;
      PunctuationIsProper(OPEN_ARRAY);
      PunctuationIsProper(COMMA);
      PunctuationIsProper(CLOSE_ARRAY);
      ghost var whole, written := done + Tokens(value, style.emitUTF8), done + [[OPEN_ARRAY]];
      ItemsStart(done, entries, style.emitUTF8);
      PutToken([OPEN_ARRAY], done);
      PutGap(written);
      ghost var laid := out + LineItems(entries, style);
      assert entries[0..] == entries;
      for index := 0 to |entries|
        invariant SpelledSoFar(out, written)
        invariant if index == 0 then written + ItemRest(entries, 0, style.emitUTF8) == whole
                  else if index < |entries| then
                    (written + [[COMMA]]) + ItemRest(entries, index, style.emitUTF8) == whole
                  else written + [[CLOSE_ARRAY]] == whole
        invariant if index == 0 then out + LineItems(entries, style) == laid
                  else if index < |entries| then
                    out + ([COMMA] + Gap(style) + LineItems(entries[index..], style)) == laid
                  else out + (Gap(style) + [CLOSE_ARRAY]) == laid
      {
        if index > 0 {
          PutToken([COMMA], written);
          written := written + [[COMMA]];
          PutGap(written);
        }
        PrintableChild(value, index, style.emitUTF8);
        ItemWritten(written, entries, index, style.emitUTF8);
        LineItemLaid(out, entries, index, style);
        PutFlat(childValues[index], entries[index].value, written);
        written := written + Tokens(entries[index].value, style.emitUTF8);
      }
      ghost var all := out;
      PutGap(written);
      PutToken([CLOSE_ARRAY], written);
      Regroup(all, Gap(style), [CLOSE_ARRAY]);
      Regroup(old(out), [OPEN_ARRAY], Gap(style));
      Regroup(old(out), [OPEN_ARRAY] + Gap(style), LineItems(entries, style));
    }

    /** A space, unless the text is to be compact. */
    method PutGap(ghost done: seq<Text>)
      requires SpelledSoFar(out, done)
      modifies this`out
      ensures SpelledSoFar(out, done) && out == old(out) + Gap(style)
    {
      hide SpelledSoFar;
      if style.indentation != [] {
        PutSpace([SPACE], done);
      }
    }
  }
}
