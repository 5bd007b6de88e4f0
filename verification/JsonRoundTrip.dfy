/**
 Writing and reading back: whatever the layout, the same value comes back.
 */
module JsonRoundTrip {
  import opened Wrappers
  import opened JsonValue
  import opened JsonText
  import opened JsonMembers
  import opened JsonReader
  import opened JsonWriter
  import opened JsonLayout
  import opened JsonStyled

  /** What parsing the text of `v` comes to: the value, unless its nesting or a strict root forbids it. */
  ghost predicate ReadBack(reader: OurReader, v: Value, ok: bool, root: Value)
    reads reader
  {
    if 1 + Depth(v) > reader.features.stackLimit then reader.thrown == Some(StackLimitExceeded)
    else
      && reader.thrown == None && root == Normal(v)
      && (ok <==> !reader.features.strictRoot || v.Array? || v.Object?)
      && (ok <==> reader.errors == [])
  }

  /** `OurReader` applied to what `FastWriter` wrote. */
  method FastRoundTrip(writer: FastWriter, reader: OurReader, v: Value) returns (ok: bool, root: Value)
    requires Printable(v, false) && reader.scanner.features == reader.features
    modifies writer, reader, reader.scanner
    ensures ReadBack(reader, v, ok, root)
  {
    hide Printable, Spells, Tokens, Normal, Depth, Legible, Settled, Distinct;
    PrintableIsLegible(v, false);
    var text := writer.Write(v);
    ok, root := reader.Parse(text, Null, Some(v), false, [[COMMA]]);
  }

  /** `OurReader` applied to what `BuiltStyledStreamWriter` wrote, in any plain style. */
  method StyledRoundTrip(writer: BuiltStyledStreamWriter, reader: OurReader, v: Value) returns (ok: bool, root: Value)
    requires PlainStyle(writer.style) && Printable(v, writer.style.emitUTF8)
    requires writer.style.comments == KeepAll ==> writer.childValues == []
    requires reader.scanner.features == reader.features
    modifies writer, reader, reader.scanner
    ensures ReadBack(reader, v, ok, root)
  {
    hide Printable, Spells, Tokens, Normal, Depth, PlainStyle, Legible, Settled, Distinct;
    PrintableIsLegible(v, writer.style.emitUTF8);
    var text := writer.Write(v);
    ok, root := reader.Parse(text, Null, Some(v), writer.style.emitUTF8, [[COMMA]]);
  }

  /** Layout does not change meaning: both writers' texts are parsed into the same value. */
  method LayoutDoesNotMatter(fast: FastWriter, styled: BuiltStyledStreamWriter, reader: OurReader, v: Value)
    returns (compact: Value, indented: Value)
    requires PlainStyle(styled.style) && Printable(v, false)
    requires styled.style.comments == KeepAll ==> styled.childValues == []
    requires reader.scanner.features == reader.features && 1 + Depth(v) <= reader.features.stackLimit
    modifies fast, styled, reader, reader.scanner
    ensures compact == indented == Normal(v)
  {
    hide Printable, Normal, Depth, PlainStyle;
    PrintableAsUtf8(v, styled.style.emitUTF8);
    var ok;
    ok, compact := FastRoundTrip(fast, reader, v);
    ok, indented := StyledRoundTrip(styled, reader, v);
  }

  lemma {:induction false} PrintableAsUtf8(v: Value, emitUTF8: bool)
    requires Printable(v, false)
    ensures Printable(v, emitUTF8)
    decreases v
  {
    if v.Array? || v.Object? {
      forall i | 0 <= i < |v.entries| ensures PrintableEntry(v.entries[i], emitUTF8) {
        assert PrintableEntry(v.entries[i], false);
        PrintableAsUtf8(v.entries[i].value, emitUTF8);
      }
    }
  }

  /** A value that was read is as it is: writing and reading it once more changes nothing. */
  lemma {:induction false} ReadingIsStable(v: Value)
    ensures Normal(Normal(v)) == Normal(v) && Depth(Normal(v)) == Depth(v)
    decreases v, 1
  {
    if v.Array? || v.Object? {
      EntriesAreStable(v.entries);
    }
  }

  lemma {:induction false} EntriesAreStable(entries: seq<Entry>)
    ensures NormalEntries(NormalEntries(entries)) == NormalEntries(entries)
    ensures DepthOf(NormalEntries(entries)) == DepthOf(entries)
    decreases entries, 0
  {
    if entries != [] {
      EntryIsStable(entries[0]);
      EntriesAreStable(entries[1..]);
      assert NormalEntries(entries) == [NormalEntry(entries[0])] + NormalEntries(entries[1..]);
      assert NormalEntries(NormalEntries(entries))
             == [NormalEntry(NormalEntry(entries[0]))] + NormalEntries(NormalEntries(entries[1..]));
      assert NormalEntries(entries)[1..] == NormalEntries(entries[1..]);
    }
  }

  lemma {:induction false} EntryIsStable(e: Entry)
    ensures NormalEntry(NormalEntry(e)) == NormalEntry(e) && Depth(Normal(e.value)) == Depth(e.value)
    decreases e, 0
  {
    ReadingIsStable(e.value);
  }

  /** What was read can be written. */
  lemma {:induction false} NormalIsPrintable(v: Value, emitUTF8: bool)
    requires Printable(v, emitUTF8)
    ensures Printable(Normal(v), emitUTF8)
    decreases v
  {
    if v.Array? || v.Object? {
      var n := Normal(v).entries;
      forall i | 0 <= i < |n| ensures PrintableEntry(n[i], emitUTF8) && n[i].key == v.entries[i].key {
        assert PrintableEntry(v.entries[i], emitUTF8) && n[i] == NormalEntry(v.entries[i]);
        NormalIsPrintable(v.entries[i].value, emitUTF8);
      }
    }
  }
}
