/**
 jsoncpp's `FastWriter` (json_writer.cpp): compact JSON text.
 */
module JsonWriter {
  import opened Wrappers
  import opened Octets
  import opened JsonValue
  import opened JsonInteger
  import opened JsonString
  import opened JsonText

  /** The text written so far spells these tokens. */
  predicate SpelledSoFar(text: Text, tokens: seq<Text>) {
    Spells(text, 0, tokens) && ProperTokens(tokens)
  }

  /** Texts one behind the other, and nothing else; each colon may be written in some way of its own. */
  function Joined(ts: seq<Text>, colon: Text := [COLON]): Text {
    if ts == [] then []
    else
      var last := ts[|ts| - 1];
      Joined(ts[..|ts| - 1], colon) + if last == [COLON] then colon else last
  }

  lemma JoinedOneMore(ts: seq<Text>, t: Text, colon: Text)
    ensures Joined(ts + [t], colon) == Joined(ts, colon) + if t == [COLON] then colon else t
  {
    assert (ts + [t])[..|ts|] == ts;
  }

  lemma NothingSpelled()
    ensures SpelledSoFar([], [])
  {
  }

  lemma TokenSpelled(text: Text, tokens: seq<Text>, t: Text)
    requires SpelledSoFar(text, tokens) && ProperToken(t)
    ensures SpelledSoFar(text + t, tokens + [t])
  {
    hide Spells, ProperToken;
    SpellsToken(text, 0, tokens, t);
  }

  lemma SpaceSpelled(text: Text, tokens: seq<Text>, space: Text)
    requires SpelledSoFar(text, tokens) && AllSpace(space)
    ensures SpelledSoFar(text + space, tokens)
  {
    hide Spells, ProperToken, AllSpace;
    SpellsSpace(text, 0, tokens, space);
  }

  lemma TokensAreProper(v: Value, emitUTF8: bool)
    requires !v.Array? && !v.Object? && Printable(v, emitUTF8)
    ensures |Tokens(v, emitUTF8)| == 1 && ProperToken(Tokens(v, emitUTF8)[0]) && Tokens(v, emitUTF8)[0] != [COLON]
  {
    hide Escaped, Decimal;
    if v.Int? || v.UInt? {
      var d := Decimal(if v.UInt? then v.unsigned else if v.signed < 0 then -v.signed else v.signed);
      assert IsDigit(d[0]);
    }
  }

  lemma PunctuationIsProper(c: byte)
    requires !IsSpace(c)
    ensures ProperToken([c])
  {
  }

  lemma QuotedIsProper(s: seq<byte>, emitUTF8: bool)
    ensures ProperToken(Quoted(s, emitUTF8))
  {
  }

  // ------------------------------------------------------------------
  // Elements and members that are still to be written
  // ------------------------------------------------------------------

  lemma ItemTokensFrom(entries: seq<Entry>, index: nat, emitUTF8: bool)
    requires index <= |entries|
    ensures ItemTokens(entries[index..], emitUTF8, index == 0)
         == if index == |entries| then [[CLOSE_ARRAY]]
            else (if index == 0 then [] else [[COMMA]])
                 + (Tokens(entries[index].value, emitUTF8) + ItemTokens(entries[index + 1..], emitUTF8, false))
  {
    hide Tokens;
    if index < |entries| {
      assert entries[index..][0] == entries[index] && entries[index..][1..] == entries[index + 1..];
      var c: seq<Text>, t, m := if index == 0 then [] else [[COMMA]], Tokens(entries[index].value, emitUTF8),
        ItemTokens(entries[index + 1..], emitUTF8, false);
      assert c + t + m == c + (t + m);
    }
  }

  lemma MemberTokensFrom(entries: seq<Entry>, index: nat, emitUTF8: bool)
    requires index <= |entries| && (index < |entries| ==> entries[index].key.Name?)
    ensures MemberTokens(entries[index..], emitUTF8, index == 0)
         == if index == |entries| then [[CLOSE_OBJECT]]
            else (if index == 0 then [] else [[COMMA]])
                 + ([Quoted(entries[index].key.text, emitUTF8)]
                    + ([[COLON]]
                       + (Tokens(entries[index].value, emitUTF8)
                          + MemberTokens(entries[index + 1..], emitUTF8, false))))
  {
    hide Tokens, Quoted;
    if index < |entries| {
      assert entries[index..][0] == entries[index] && entries[index..][1..] == entries[index + 1..];
      var c: seq<Text>, q, t, m := if index == 0 then [] else [[COMMA]], Quoted(entries[index].key.text, emitUTF8),
        Tokens(entries[index].value, emitUTF8), MemberTokens(entries[index + 1..], emitUTF8, false);
      assert c + [q, [COLON]] + t + m == c + ([q] + ([[COLON]] + (t + m)));
    }
  }

  lemma ArrayBegins(done: seq<Text>, entries: seq<Entry>, emitUTF8: bool)
    ensures done + Tokens(Array(entries), emitUTF8)
            == (done + [[OPEN_ARRAY]]) + ItemTokens(entries[0..], emitUTF8, true)
  {
    hide ItemTokens;
    assert entries[0..] == entries;
    Regroup(done, [[OPEN_ARRAY]], ItemTokens(entries, emitUTF8, true));
  }

  lemma ObjectBegins(done: seq<Text>, entries: seq<Entry>, emitUTF8: bool)
    ensures done + Tokens(Object(entries), emitUTF8)
            == (done + [[OPEN_OBJECT]]) + MemberTokens(entries[0..], emitUTF8, true)
  {
    hide MemberTokens;
    assert entries[0..] == entries;
    Regroup(done, [[OPEN_OBJECT]], MemberTokens(entries, emitUTF8, true));
  }

  lemma PrintableChild(v: Value, index: nat, emitUTF8: bool)
    requires Printable(v, emitUTF8) && (v.Array? || v.Object?) && index < |v.entries|
    ensures Printable(v.entries[index].value, emitUTF8)
    ensures v.Object? ==> v.entries[index].key.Name?
    ensures v.Array? ==> v.entries[index].key == Index(index)
  {
    assert PrintableEntry(v.entries[index], emitUTF8);
  }

  // ------------------------------------------------------------------
  // The writer
  // ------------------------------------------------------------------

  class FastWriter {
    const yamlCompatibilityEnabled: bool
    const omitEndingLineFeed: bool
    var document: Text

    constructor (yamlCompatibilityEnabled: bool, omitEndingLineFeed: bool)
      ensures document == []
    {
      this.yamlCompatibilityEnabled, this.omitEndingLineFeed, document :=
        yamlCompatibilityEnabled, omitEndingLineFeed, [];
    }

    /** How a colon is written. */
    function ColonText(): Text {
      if yamlCompatibilityEnabled then [COLON, SPACE] else [COLON]
    }

    /** The document is exactly these tokens. */
    ghost predicate Written(done: seq<Text>)
      reads this
    {
      SpelledSoFar(document, done) && document == Joined(done, ColonText())
    }

    method Put(t: Text, ghost done: seq<Text>)
      requires Written(done) && ProperToken(t) && t != [COLON]
      modifies this`document
      ensures Written(done + [t])
    {
      hide SpelledSoFar, ProperToken, Joined;
      TokenSpelled(document, done, t);
      JoinedOneMore(done, t, ColonText());
      document := document + t;
    }

    /** `write`: the text spells the value. */
    method Write(root: Value) returns (text: Text)
      requires Printable(root, false)
      modifies this
      ensures text == document && Spells(text, 0, Tokens(root, false))
      ensures var colon := if yamlCompatibilityEnabled then [':' as int, ' ' as int] else [':' as int];
              text == Joined(Tokens(root, false), colon) + if omitEndingLineFeed then [] else ['\n' as int]
    {
      hide Printable, Tokens, Spells;
      document := [];
      NothingSpelled();
      WriteValue(root, []);
      assert [] + Tokens(root, false) == Tokens(root, false);
      if !omitEndingLineFeed {
        SpaceSpelled(document, Tokens(root, false), [10]);
        document := document + [10];
      }
      text := document;
    }

    /** `writeValue` */
    method WriteValue(value: Value, ghost done: seq<Text>)
      requires Printable(value, false) && Written(done)
      modifies this`document
      ensures Written(done + Tokens(value, false))
      decreases value, 1
    {
      hide SpelledSoFar, ProperToken, Quoted, IntegerText, ItemTokens, MemberTokens, Joined, Written;
      if !value.Array? && !value.Object? {
        TokensAreProper(value, false);
        assert Tokens(value, false) == [Tokens(value, false)[0]];
      }
      match value {
        case Null => Put(NULL_TEXT, done);
        case Int(n) =>
          var text := IntToString(n);
          Put(text, done);
        case UInt(n) =>
          var text := LargestUIntToString(n);
          Put(text, done);
        case String(s) =>
          var text := ValueToQuotedString(s, false);
          Put(text, done);
        case Bool(b) => Put(if b then TRUE_TEXT else FALSE_TEXT, done);
        case Array(entries) => WriteArray(value, done);
        case Object(entries) => WriteObject(value, done);
      }
    }

    method WriteArray(value: Value, ghost done: seq<Text>)
      requires value.Array? && Printable(value, false) && Written(done)
      modifies this`document
      ensures Written(done + Tokens(value, false))
      decreases value, 0
    {
      hide SpelledSoFar, ProperToken, Printable, Tokens, ItemTokens, Joined, Written;
      var entries := value.entries;
      PunctuationIsProper(OPEN_ARRAY);
      PunctuationIsProper(COMMA);
      PunctuationIsProper(CLOSE_ARRAY);
      Put([OPEN_ARRAY], done);
      ghost var whole, written := done + Tokens(value, false), done + [[OPEN_ARRAY]];
      ArrayBegins(done, entries, false);
      for index := 0 to |entries|
        invariant Written(written)
        invariant written + ItemTokens(entries[index..], false, index == 0) == whole
      {
        ItemTokensFrom(entries, index, false);
        ghost var text, more := Tokens(entries[index].value, false), ItemTokens(entries[index + 1..], false, false);
        if index > 0 {
          Put([COMMA], written);
          Regroup(written, [[COMMA]], text + more);
          written := written + [[COMMA]];
        } else {
          assert [] + (text + more) == text + more;
        }
        PrintableChild(value, index, false);
        WriteValue(entries[index].value, written);
        Regroup(written, text, more);
        written := written + text;
      }
      ItemTokensFrom(entries, |entries|, false);
      Put([CLOSE_ARRAY], written);
    }

    method WriteObject(value: Value, ghost done: seq<Text>)
      requires value.Object? && Printable(value, false) && Written(done)
      modifies this`document
      ensures Written(done + Tokens(value, false))
      decreases value, 0
    {
      hide SpelledSoFar, ProperToken, Printable, Tokens, MemberTokens, Quoted, Joined, Written;
      var entries := value.entries;
      PunctuationIsProper(OPEN_OBJECT);
      PunctuationIsProper(COMMA);
      PunctuationIsProper(CLOSE_OBJECT);
      Put([OPEN_OBJECT], done);
      ghost var whole, written := done + Tokens(value, false), done + [[OPEN_OBJECT]];
      ObjectBegins(done, entries, false);
      for index := 0 to |entries|
        invariant Written(written)
        invariant written + MemberTokens(entries[index..], false, index == 0) == whole
      {
        PrintableChild(value, index, false);
        MemberTokensFrom(entries, index, false);
        ghost var name, text := [Quoted(entries[index].key.text, false)], Tokens(entries[index].value, false);
        ghost var more := MemberTokens(entries[index + 1..], false, false);
        if index > 0 {
          Put([COMMA], written);
          Regroup(written, [[COMMA]], name + ([[COLON]] + (text + more)));
          written := written + [[COMMA]];
        } else {
          assert [] + (name + ([[COLON]] + (text + more))) == name + ([[COLON]] + (text + more));
        }
        WriteName(entries[index].key.text, written);
        Regroup(written, name, [[COLON]] + (text + more));
        Regroup(written + name, [[COLON]], text + more);
        written := written + name + [[COLON]];
        WriteValue(entries[index].value, written);
        Regroup(written, text, more);
        written := written + text;
      }
      MemberTokensFrom(entries, |entries|, false);
      Put([CLOSE_OBJECT], written);
    }

    /** The name and the colon. */
    method WriteName(name: seq<byte>, ghost done: seq<Text>)
      requires Written(done)
      modifies this`document
      ensures Written(done + [Quoted(name, false)] + [[COLON]])
    {
      hide SpelledSoFar, ProperToken, Quoted, Joined;
      var quoted := ValueToQuotedString(name, false);
      QuotedIsProper(name, false);
      PunctuationIsProper(COLON);
      QuotedIsNoColon(name);
      Put(quoted, done);
      ghost var named := done + [quoted];
      TokenSpelled(document, named, [COLON]);
      JoinedOneMore(named, [COLON], ColonText());
      document := document + [COLON];
      if yamlCompatibilityEnabled {
        SpaceSpelled(document, named + [[COLON]], [SPACE]);
        document := document + [SPACE];
      }
    }
  }

  lemma QuotedIsNoColon(name: seq<byte>)
    ensures Quoted(name, false) != [COLON]
  {
  }
}
