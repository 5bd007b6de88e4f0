/**
 JSON text (RFC 8259): the tokens of a value, and what it means that a document
 spells them with any whitespace between them.
 */
module JsonText {
  import opened Octets
  import opened JsonValue
  import opened JsonInteger
  import opened JsonString

  type Text = seq<byte>

  const SPACE: byte := ' ' as int
  const COMMA: byte := ',' as int
  const COLON: byte := ':' as int
  const OPEN_ARRAY: byte := '[' as int
  const CLOSE_ARRAY: byte := ']' as int
  const OPEN_OBJECT: byte := '{' as int
  const CLOSE_OBJECT: byte := '}' as int
  const NULL_TEXT: Text := ['n' as int, 'u' as int, 'l' as int, 'l' as int]
  const TRUE_TEXT: Text := ['t' as int, 'r' as int, 'u' as int, 'e' as int]
  const FALSE_TEXT: Text := ['f' as int, 'a' as int, 'l' as int, 's' as int, 'e' as int]
  const MAX_KEY_LENGTH := 0x4000_0000

  predicate IsSpace(c: byte) {
    c == SPACE || c == '\t' as int || c == '\r' as int || c == '\n' as int
  }

  predicate AllSpace(s: Text) {
    forall i :: 0 <= i < |s| ==> IsSpace(s[i])
  }

  // ------------------------------------------------------------------
  // Values that have a text
  // ------------------------------------------------------------------

  /** The string comes back from its quoted form. */
  ghost predicate Quotable(s: seq<byte>, emitUTF8: bool) {
    emitUTF8 || ValidUtf8(s)
  }

  /** The `i`-th entry of an array is its `i`-th element, and an `ArrayIndex` can count them. */
  predicate DenseArray(entries: seq<Entry>) {
    && |entries| < 0x1_0000_0000
    && forall i :: 0 <= i < |entries| ==> entries[i].key == Index(i)
  }

  predicate SortedMembers(entries: seq<Entry>) {
    && (forall i :: 0 <= i < |entries| ==> entries[i].key.Name?)
    && (forall i, j :: 0 <= i < j < |entries| ==> KeyLess(entries[i].key, entries[j].key))
  }

  /** No reals, integers of 64 bits, arrays without gaps, members in order, and strings that can be quoted. */
  ghost predicate Printable(v: Value, emitUTF8: bool)
    decreases v
  {
    match v
    case Real(_) => false
    case Int(n) => -MAX_INT - 1 <= n <= MAX_INT
    case UInt(n) => n <= MAX_UINT
    case String(s) => Quotable(s, emitUTF8)
    case Array(entries) =>
      DenseArray(entries) && forall i :: 0 <= i < |entries| ==> PrintableEntry(entries[i], emitUTF8)
    case Object(entries) =>
      && SortedMembers(entries)
      && (forall i :: 0 <= i < |entries| ==>
            PrintableEntry(entries[i], emitUTF8)
            && Quotable(entries[i].key.text, emitUTF8) && |entries[i].key.text| < MAX_KEY_LENGTH)
    case _ => true
  }

  ghost predicate PrintableEntry(e: Entry, emitUTF8: bool)
    decreases e
  {
    Printable(e.value, emitUTF8)
  }

  /** What reading makes of a value: an unsigned number that fits the signed type is signed. */
  function Normal(v: Value): Value
    decreases v
  {
    match v
    case UInt(n) => if n <= MAX_INT then Int(n) else v
    case Array(entries) => Array(NormalEntries(entries))
    case Object(entries) => Object(NormalEntries(entries))
    case _ => v
  }

  function NormalEntries(entries: seq<Entry>): (r: seq<Entry>)
    ensures |r| == |entries|
    ensures forall i :: 0 <= i < |entries| ==> r[i] == NormalEntry(entries[i])
    decreases entries
  {
    seq(|entries|, i requires 0 <= i < |entries| => NormalEntry(entries[i]))
  }

  function NormalEntry(e: Entry): (r: Entry)
    ensures r == Entry(e.key, Normal(e.value))
    decreases e
  {
    Entry(e.key, Normal(e.value))
  }

  /** How deep arrays and objects are nested, empty ones not counted. */
  function Depth(v: Value): nat
    decreases v
  {
    if v.Array? || v.Object? then DepthOf(v.entries) else 0
  }

  function DepthOf(entries: seq<Entry>): (d: nat)
    decreases entries
  {
    if entries == [] then 0 else
      var first, rest := 1 + EntryDepth(entries[0]), DepthOf(entries[1..]);
      if first > rest then first else rest
  }

  function EntryDepth(e: Entry): (d: nat)
    ensures d == Depth(e.value)
    decreases e
  {
    Depth(e.value)
  }

  // ------------------------------------------------------------------
  // Tokens
  // ------------------------------------------------------------------

  /** The tokens of a value; `comma` is what separates members. */
  function Tokens(v: Value, emitUTF8: bool, comma: seq<Text> := [[COMMA]]): seq<Text>
    decreases v
  {
    match v
    case Null => [NULL_TEXT]
    case Bool(b) => [if b then TRUE_TEXT else FALSE_TEXT]
    case Int(n) => [IntegerText(n)]
    case UInt(n) => [IntegerText(n)]
    case Real(_) => []
    case String(s) => [Quoted(s, emitUTF8)]
    case Array(entries) => [[OPEN_ARRAY]] + ItemTokens(entries, emitUTF8, true, comma)
    case Object(entries) => [[OPEN_OBJECT]] + MemberTokens(entries, emitUTF8, true, comma)
  }

  /** From an element on, or from behind one: the comma first, then. */
  function ItemTokens(entries: seq<Entry>, emitUTF8: bool, first: bool, comma: seq<Text> := [[COMMA]]): seq<Text>
    decreases entries
  {
    if entries == [] then [[CLOSE_ARRAY]]
    else
      (if first then [] else [[COMMA]]) + EntryTokens(entries[0], emitUTF8, comma)
      + ItemTokens(entries[1..], emitUTF8, false, comma)
  }

  function MemberTokens(entries: seq<Entry>, emitUTF8: bool, first: bool, comma: seq<Text> := [[COMMA]]): seq<Text>
    decreases entries
  {
    if entries == [] then [[CLOSE_OBJECT]]
    else
      (if first then [] else comma) + NameTokens(entries[0].key, emitUTF8)
      + EntryTokens(entries[0], emitUTF8, comma) + MemberTokens(entries[1..], emitUTF8, false, comma)
  }

  function NameTokens(key: Key, emitUTF8: bool): seq<Text> {
    if key.Name? then [Quoted(key.text, emitUTF8), [COLON]] else []
  }

  function EntryTokens(e: Entry, emitUTF8: bool, comma: seq<Text> := [[COMMA]]): (ts: seq<Text>)
    ensures ts == Tokens(e.value, emitUTF8, comma)
    decreases e
  {
    Tokens(e.value, emitUTF8, comma)
  }

  // ------------------------------------------------------------------
  // Spelling
  // ------------------------------------------------------------------

  /** The first position from `i` on that is not whitespace. */
  function SkipSpace(doc: Text, i: nat): (k: nat)
    requires i <= |doc|
    ensures i <= k <= |doc| && (k < |doc| ==> !IsSpace(doc[k]))
    ensures forall j :: i <= j < k ==> IsSpace(doc[j])
    decreases |doc| - i
  {
    if i < |doc| && IsSpace(doc[i]) then SkipSpace(doc, i + 1) else i
  }

  /** From position `i` on the document is exactly the tokens, with whitespace between and around them. */
  predicate Spells(doc: Text, i: nat, tokens: seq<Text>)
    decreases |tokens|
  {
    i <= |doc| &&
    if tokens == [] then SkipSpace(doc, i) == |doc|
    else
      var k := SkipSpace(doc, i);
      Holds(doc, k, tokens[0]) && Spells(doc, k + |tokens[0]|, tokens[1..])
  }

  /** A token starts with what it starts with; it is neither empty nor blank. */
  predicate ProperToken(t: Text) {
    t != [] && !IsSpace(t[0])
  }

  predicate ProperTokens(ts: seq<Text>) {
    forall i :: 0 <= i < |ts| ==> ProperToken(ts[i])
  }

  lemma SkipSpaceIs(doc: Text, i: nat, k: nat)
    requires i <= k <= |doc| && AllSpace(doc[i..k]) && (k < |doc| ==> !IsSpace(doc[k]))
    ensures SkipSpace(doc, i) == k
  {
    assert forall j :: i <= j < k ==> doc[j] == doc[i..k][j - i];
  }

  lemma SkipSpaceOnward(doc: Text, i: nat, more: Text)
    requires i <= |doc| && (more == [] || !IsSpace(more[0]) || SkipSpace(doc, i) < |doc|)
    ensures SkipSpace(doc + more, i) == SkipSpace(doc, i)
  {
    var k := SkipSpace(doc, i);
    assert (doc + more)[i..k] == doc[i..k];
    SkipSpaceIs(doc + more, i, k);
  }

  lemma SkipAllSpace(doc: Text, i: nat, more: Text)
    requires i <= |doc| && SkipSpace(doc, i) == |doc| && AllSpace(more)
    ensures SkipSpace(doc + more, i) == |doc + more|
  {
    assert AllSpace((doc + more)[i..]);
    SkipSpaceIs(doc + more, i, |doc + more|);
  }

  lemma HoldsOnward(doc: Text, k: nat, t: Text, more: Text)
    requires Holds(doc, k, t)
    ensures Holds(doc + more, k, t) && (t != [] ==> k < |doc| && doc[k] == t[0])
  {
    assert (doc + more)[k..k + |t|] == doc[k..k + |t|];
    assert t != [] ==> doc[k..k + |t|][0] == doc[k];
  }

  /** Whitespace may be written behind any spelling. */
  lemma {:induction false} SpellsSpace(doc: Text, i: nat, tokens: seq<Text>, space: Text)
    requires Spells(doc, i, tokens) && AllSpace(space) && ProperTokens(tokens)
    ensures Spells(doc + space, i, tokens)
    decreases |tokens|
  {
    hide SkipSpace, Holds, AllSpace, IsSpace;
    if tokens == [] {
      SkipAllSpace(doc, i, space);
    } else {
      assert ProperToken(tokens[0]);
      var k := SkipSpace(doc, i);
      HoldsOnward(doc, k, tokens[0], space);
      SkipSpaceOnward(doc, i, space);
      SpellsSpace(doc, k + |tokens[0]|, tokens[1..], space);
    }
  }

  /** So may the next token. */
  lemma {:induction false} SpellsToken(doc: Text, i: nat, tokens: seq<Text>, t: Text)
    requires Spells(doc, i, tokens) && ProperToken(t) && ProperTokens(tokens)
    ensures Spells(doc + t, i, tokens + [t])
    decreases |tokens|
  {
    hide SkipSpace, Holds, AllSpace, IsSpace;
    if tokens == [] {
      SkipSpaceOnward(doc, i, t);
      SpelledLast(doc, t);
    } else {
      assert ProperToken(tokens[0]);
      var k := SkipSpace(doc, i);
      HoldsOnward(doc, k, tokens[0], t);
      SkipSpaceOnward(doc, i, t);
      SpellsToken(doc, k + |tokens[0]|, tokens[1..], t);
      assert (tokens + [t])[1..] == tokens[1..] + [t];
    }
  }

  lemma SpelledLast(doc: Text, t: Text)
    ensures Holds(doc + t, |doc|, t) && Spells(doc + t, |doc| + |t|, [])
    ensures [t][1..] == []
  {
    assert (doc + t)[|doc|..|doc| + |t|] == t;
  }
}
