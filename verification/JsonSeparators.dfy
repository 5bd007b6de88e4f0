/**
 What may stand between the members of an object: the reader takes a comment and any
 token behind it for the comma.
 */
module JsonSeparators {
  import opened Wrappers
  import opened Octets
  import opened JsonValue
  import opened JsonInteger
  import opened JsonString
  import opened JsonText
  import opened JsonMembers
  import opened JsonLexer
  import opened JsonSpelling
  import opened JsonReader
  import opened JsonWriter
  import opened JsonRoundTrip

  lemma {:induction false} JoinedSpelled(ts: seq<Text>)
    requires ProperTokens(ts)
    ensures SpelledSoFar(Joined(ts), ts)
  {
    hide ProperToken, Spells;
    if ts == [] {
      NothingSpelled();
    } else {
      var before := ts[..|ts| - 1];
      JoinedSpelled(before);
      TokenSpelled(Joined(before), before, ts[|ts| - 1]);
      assert before + [ts[|ts| - 1]] == ts;
    }
  }

  lemma {:induction false} ValueProper(v: Value, emitUTF8: bool, comma: Separator)
    requires Legible(v, emitUTF8)
    ensures ProperTokens(Tokens(v, emitUTF8, comma))
    decreases v, 0
  {
    hide ProperToken, SeparatesMembers, Quoted;
    PunctuationIsProper(OPEN_ARRAY);
    PunctuationIsProper(OPEN_OBJECT);
    if v.Array? || v.Object? {
      LegibleParts(v, emitUTF8);
      EntriesProper(v.entries, emitUTF8, comma);
    } else {
      TokensAreProper(v, emitUTF8);
    }
  }

  lemma {:induction false} EntriesProper(entries: seq<Entry>, emitUTF8: bool, comma: Separator)
    requires forall i :: 0 <= i < |entries| ==> Legible(entries[i].value, emitUTF8)
    ensures ProperTokens(ItemTokens(entries, emitUTF8, true, comma))
            && ProperTokens(ItemTokens(entries, emitUTF8, false, comma))
    ensures ProperTokens(MemberTokens(entries, emitUTF8, true, comma))
            && ProperTokens(MemberTokens(entries, emitUTF8, false, comma))
    decreases entries, 1
  {
    hide ProperToken, SeparatesMembers, Legible, Quoted, Tokens, NameTokens;
    MarksProper(comma);
    if entries != [] {
      EntryProper(entries[0], emitUTF8, comma);
      NameProper(entries[0].key, emitUTF8);
      EntriesProper(entries[1..], emitUTF8, comma);
    }
  }

  lemma NameProper(key: Key, emitUTF8: bool)
    ensures ProperTokens(NameTokens(key, emitUTF8))
  {
    hide Quoted;
    if key.Name? {
      QuotedIsProper(key.text, emitUTF8);
    }
  }

  lemma {:induction false} EntryProper(e: Entry, emitUTF8: bool, comma: Separator)
    requires Legible(e.value, emitUTF8)
    ensures ProperTokens(EntryTokens(e, emitUTF8, comma))
    decreases e, 0
  {
    hide ProperTokens, Legible;
    ValueProper(e.value, emitUTF8, comma);
  }

  lemma MarksProper(comma: Separator)
    ensures ProperToken([CLOSE_ARRAY]) && ProperToken([CLOSE_OBJECT]) && ProperToken([COMMA]) && ProperToken([COLON])
    ensures ProperTokens(comma)
  {
    hide Decimal, Escaped;
    if |comma| == 2 {
      if n: int :| comma[1] == IntegerText(n) {
        IntegerShape(n);
      }
    }
  }

  /**
   A comma between members is not needed: any value is read back from its tokens just
   the same when every such comma is replaced by a comment and any stray token.
   */
  method ReadWithoutCommas(reader: OurReader, v: Value, emitUTF8: bool, comma: Separator)
    returns (ok: bool, root: Value)
    requires Printable(v, emitUTF8) && reader.scanner.features == reader.features
    modifies reader, reader.scanner
    ensures ReadBack(reader, v, ok, root)
  {
    hide Printable, Spells, Tokens, Normal, Depth, SeparatesMembers, Joined, Legible, Settled, Distinct;
    PrintableIsLegible(v, emitUTF8);
    ValueProper(v, emitUTF8, comma);
    JoinedSpelled(Tokens(v, emitUTF8, comma));
    ok, root := reader.Parse(Joined(Tokens(v, emitUTF8, comma)), Null, Some(v), emitUTF8, comma);
  }

  /**
   Members may be given in any order, and again and again unless that is rejected: what
   is read has exactly the names that were given, sorted, with the values given last.
   */
  method ReadAnyMembers(reader: OurReader, w: Value, emitUTF8: bool, comma: Separator)
    returns (ok: bool, root: Value)
    requires Legible(w, emitUTF8) && (reader.features.rejectDupKeys ==> Distinct(w))
    requires reader.scanner.features == reader.features && 1 + Depth(w) <= reader.features.stackLimit
    modifies reader, reader.scanner
    ensures Means(w, root) && (ok <==> !reader.features.strictRoot || w.Array? || w.Object?)
  {
    hide Spells, Tokens, Depth, SeparatesMembers, Joined, Legible, Settled, Distinct, Means;
    ValueProper(w, emitUTF8, comma);
    JoinedSpelled(Tokens(w, emitUTF8, comma));
    ok, root := reader.Parse(Joined(Tokens(w, emitUTF8, comma)), Null, Some(w), emitUTF8, comma);
  }

  // ------------------------------------------------------------------
  // For instance
  // ------------------------------------------------------------------

  function Ascii(s: string): Text
    requires forall i :: 0 <= i < |s| ==> s[i] < 128 as char
  {
    seq(|s|, i requires 0 <= i < |s| => s[i] as int)
  }

  /** A document without a comma between its members. */
  const NO_COMMA: Text := Ascii("{\"a\":1/**/5\"b\":2}")

  const TWO_MEMBERS: Value := Object([Entry(Name(Ascii("a")), Int(1)), Entry(Name(Ascii("b")), Int(2))])

  /** The tokens of a member with a name of one plain letter and a value of one digit. */
  lemma SmallMember(letter: char, digit: nat)
    requires 'a' <= letter <= 'z' && digit < 10
    ensures NameTokens(Name(Ascii([letter])), true) == [Ascii(['"', letter, '"']), [COLON]]
    ensures Tokens(Int(digit), true, []) == [[ZERO + digit]]
  {
    var s := Ascii([letter]);
    assert Escaped(s, true) == [letter as int] + Escaped(s[1..], true);
    assert Escaped(s[1..], true) == [];
    assert Quoted(s, true) == [QUOTE, letter as int, QUOTE] == Ascii(['"', letter, '"']);
  }

  lemma LastOfTwo(x: Entry, y: Entry, comma: seq<Text>)
    ensures MemberTokens([x, y], true, true, comma)
         == (NameTokens(x.key, true) + Tokens(x.value, true, comma))
            + (comma + NameTokens(y.key, true) + Tokens(y.value, true, comma) + [[CLOSE_OBJECT]])
  {
    hide Tokens, NameTokens;
    assert [x, y][1..] == [y] && [y][1..] == [];
    assert MemberTokens([y], true, false, comma)
           == comma + NameTokens(y.key, true) + Tokens(y.value, true, comma) + [[CLOSE_OBJECT]];
    assert [] + NameTokens(x.key, true) == NameTokens(x.key, true);
  }

  lemma TwoMembersPrintable()
    ensures Printable(TWO_MEMBERS, true) && Normal(TWO_MEMBERS) == TWO_MEMBERS && Depth(TWO_MEMBERS) == 1
  {
    var es := TWO_MEMBERS.entries;
    assert PrintableEntry(es[0], true) && PrintableEntry(es[1], true);
    assert NormalEntries(es) == es;
    assert es[1..] == [es[1]] && es[1..][1..] == [];
    assert DepthOf(es[1..]) == 1;
  }

  lemma SlashAndDigit()
    ensures SeparatesMembers([Ascii("/**/"), Ascii("5")])
  {
    var t := Ascii("/**/");
    assert CommentClose(t, 2) == 2;
    assert Ascii("5") == IntegerText(5);
  }

  /** From the last token back to the first. */
  lemma SpelledFrom(doc: Text, i: nat, ts: seq<Text>, k: nat)
    requires k < |ts| && i < |doc| && !IsSpace(doc[i]) && Holds(doc, i, ts[k]) && Spells(doc, i + |ts[k]|, ts[k + 1..])
    ensures Spells(doc, i, ts[k..])
  {
    assert ts[k..][1..] == ts[k + 1..] && SkipSpace(doc, i) == i;
  }

  const TEN_TOKENS: seq<Text> := [Ascii("{"), Ascii("\"a\""), Ascii(":"), Ascii("1"), Ascii("/**/"), Ascii("5"),
                                  Ascii("\"b\""), Ascii(":"), Ascii("2"), Ascii("}")]

  lemma TwoMembersTokens()
    ensures Tokens(TWO_MEMBERS, true, [Ascii("/**/"), Ascii("5")]) == TEN_TOKENS
  {
    hide NameTokens, MemberTokens, Quoted, IntegerText;
    var comma, es := [Ascii("/**/"), Ascii("5")], TWO_MEMBERS.entries;
    SmallMember('a', 1);
    SmallMember('b', 2);
    LastOfTwo(es[0], es[1], comma);
    assert Ascii("{") == [OPEN_OBJECT] && Ascii("}") == [CLOSE_OBJECT] && Ascii(":") == [COLON];
    assert Ascii("1") == [ZERO + 1] && Ascii("2") == [ZERO + 2];
    assert Ascii("\"a\"") == Ascii(['"', 'a', '"']) && Ascii("\"b\"") == Ascii(['"', 'b', '"']);
    assert Ascii("a") == Ascii(['a']) && Ascii("b") == Ascii(['b']);
    assert MemberTokens(es, true, true, comma)
        == [TEN_TOKENS[1], [COLON], TEN_TOKENS[3]]
           + (comma + [TEN_TOKENS[6], [COLON]] + [TEN_TOKENS[8]] + [[CLOSE_OBJECT]]);
  }

  lemma SecondMemberSpelled()
    ensures Spells(NO_COMMA, 11, TEN_TOKENS[6..])
  {
    hide Spells;
    var d, ts := NO_COMMA, TEN_TOKENS;
    NothingBehind(d);
    assert ts[10..] == [];
    SpelledFrom(d, 16, ts, 9);
    SpelledFrom(d, 15, ts, 8);
    SpelledFrom(d, 14, ts, 7);
    SpelledFrom(d, 11, ts, 6);
  }

  lemma SeparatorSpelled()
    ensures Spells(NO_COMMA, 5, TEN_TOKENS[3..])
  {
    hide Spells;
    var d, ts := NO_COMMA, TEN_TOKENS;
    SecondMemberSpelled();
    SpelledFrom(d, 10, ts, 5);
    SpelledFrom(d, 6, ts, 4);
    SpelledFrom(d, 5, ts, 3);
  }

  lemma TenTokensSpelled()
    ensures Spells(NO_COMMA, 0, TEN_TOKENS)
  {
    hide Spells;
    var d, ts := NO_COMMA, TEN_TOKENS;
    SeparatorSpelled();
    SpelledFrom(d, 4, ts, 2);
    SpelledFrom(d, 1, ts, 1);
    SpelledFrom(d, 0, ts, 0);
    assert ts[0..] == ts;
  }

  lemma NothingBehind(doc: Text)
    ensures Spells(doc, |doc|, [])
  {
  }

  /** It is accepted, with whatever settings that allow one level of nesting. */
  method AcceptsNoComma(reader: OurReader) returns (ok: bool, root: Value)
    requires reader.scanner.features == reader.features && reader.features.stackLimit >= 2
    modifies reader, reader.scanner
    ensures ok && root == TWO_MEMBERS && reader.errors == []
  {
    hide Printable, Spells, Tokens, Normal, Depth, SeparatesMembers, Legible, Settled, Distinct;
    ghost var comma := [Ascii("/**/"), Ascii("5")];
    SlashAndDigit();
    TwoMembersPrintable();
    PrintableIsLegible(TWO_MEMBERS, true);
    TwoMembersTokens();
    TenTokensSpelled();
    ok, root := reader.Parse(NO_COMMA, Null, Some(TWO_MEMBERS), true, comma);
  }

  /** Two members out of order, the second of them twice. */
  const OUT_OF_ORDER: Value :=
    Object([Entry(Name(Ascii("b")), Int(1)), Entry(Name(Ascii("a")), Int(3)), Entry(Name(Ascii("a")), Int(2))])

  const IN_ORDER: Value := Object([Entry(Name(Ascii("a")), Int(2)), Entry(Name(Ascii("b")), Int(1))])

  /** They are kept in order, the later value of the two. */
  method ReadsOutOfOrder(reader: OurReader) returns (ok: bool, root: Value)
    requires reader.scanner.features == reader.features && reader.features.stackLimit >= 2
             && !reader.features.rejectDupKeys
    modifies reader, reader.scanner
    ensures ok && root == IN_ORDER
  {
    hide Legible, Distinct, Means, Depth;
    OutOfOrderIsLegible();
    ok, root := ReadAnyMembers(reader, OUT_OF_ORDER, true, [[COMMA]]);
    OneMeaning(OUT_OF_ORDER, root, IN_ORDER);
  }

  lemma OutOfOrderIsLegible()
    ensures Legible(OUT_OF_ORDER, true) && Depth(OUT_OF_ORDER) == 1 && Means(OUT_OF_ORDER, IN_ORDER)
  {
    var es, ms := OUT_OF_ORDER.entries, IN_ORDER.entries;
    assert forall i :: 0 <= i < |es| ==> LegibleEntry(es[i], true) && LegibleName(es[i].key, true);
    assert DepthOf(es[1..][1..]) == 1 by {
      assert es[1..][1..][1..] == [];
    }
    assert DepthOf(es[1..]) == 1;
    NamesOfThree(es);
    NamesOfTwo(ms);
    assert Ascii("a")[0] == 'a' as int && Ascii("b")[0] == 'b' as int;
    assert KeyLess(ms[0].key, ms[1].key);
    assert !GivenLast(es, 1) by {
      assert es[2].key == es[1].key;
    }
    assert EntryMeans(es[0], ms[1].value) && EntryMeans(es[2], ms[0].value);
  }

  lemma NamesOfThree(es: seq<Entry>)
    requires |es| == 3
    ensures forall k :: HasMember(es, k) <==> k == es[0].key || k == es[1].key || k == es[2].key
  {
    assert HasMember(es, es[0].key) && HasMember(es, es[1].key) && HasMember(es, es[2].key);
  }

  lemma NamesOfTwo(es: seq<Entry>)
    requires |es| == 2
    ensures forall k :: HasMember(es, k) <==> k == es[0].key || k == es[1].key
  {
    assert HasMember(es, es[0].key) && HasMember(es, es[1].key);
  }
}
