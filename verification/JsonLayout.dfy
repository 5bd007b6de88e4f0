/**
 The layout of jsoncpp's `BuiltStyledStreamWriter` (json_writer.cpp): which text it
 writes, and where the lines of that text begin.
 */
module JsonLayout {
  import opened Wrappers
  import opened Octets
  import opened JsonValue
  import opened JsonInteger
  import opened JsonString
  import opened JsonText

  const UINT_END := 0x1_0000_0000
  const RIGHT_MARGIN := 74
  const NEWLINE_TEXT: Text := ['\n' as int]

  datatype CommentStyle = DropAll | Most | KeepAll

  datatype Style = Style(indentation: Text, comments: CommentStyle, colonSymbol: Text, nullSymbol: Text,
                         endingLineFeedSymbol: Text, emitUTF8: bool)

  /** Whitespace around a colon. */
  predicate IsColon(s: Text, k: nat) {
    k < |s| && s[k] == COLON && AllSpace(s[..k]) && AllSpace(s[k + 1..])
  }

  /** Apart from whitespace the symbols are those of JSON. */
  ghost predicate PlainStyle(style: Style) {
    && AllSpace(style.indentation) && AllSpace(style.endingLineFeedSymbol) && style.nullSymbol == NULL_TEXT
    && exists k: nat :: IsColon(style.colonSymbol, k)
  }

  // ------------------------------------------------------------------
  // Values written in one piece
  // ------------------------------------------------------------------

  /** Neither array nor object, or an empty one. */
  predicate Flat(v: Value) {
    v.Array? || v.Object? ==> v.entries == []
  }

  function FlatText(v: Value, emitUTF8: bool): Text {
    match v
    case Array(_) => [OPEN_ARRAY, CLOSE_ARRAY]
    case Object(_) => [OPEN_OBJECT, CLOSE_OBJECT]
    case Null => NULL_TEXT
    case Bool(b) => if b then TRUE_TEXT else FALSE_TEXT
    case Int(n) => IntegerText(n)
    case UInt(n) => IntegerText(n)
    case String(s) => Quoted(s, emitUTF8)
    case Real(_) => []
  }

  function FlatTexts(entries: seq<Entry>, emitUTF8: bool): (texts: seq<Text>)
    ensures |texts| == |entries|
    ensures forall i :: 0 <= i < |entries| ==> texts[i] == FlatText(entries[i].value, emitUTF8)
  {
    seq(|entries|, i requires 0 <= i < |entries| => FlatText(entries[i].value, emitUTF8))
  }

  /**
   The length of the first `count` elements on one line, brackets and separators of all included, as
   an `unsigned int`.
   */
  function LineLength(entries: seq<Entry>, count: nat, emitUTF8: bool): nat
    requires entries != [] && count <= |entries|
  {
    if count == 0 then (4 + (|entries| - 1) * 2) % UINT_END
    else (LineLength(entries, count - 1, emitUTF8) + |FlatText(entries[count - 1].value, emitUTF8)|) % UINT_END
  }

  /**
   When an array goes on several lines: it has too many elements, a container in it is not empty, or
   the line is too long.
   */
  predicate TooMuchForALine(entries: seq<Entry>, emitUTF8: bool)
    requires entries != []
  {
    |entries| * 3 % UINT_END >= RIGHT_MARGIN || !AllFlat(entries)
    || LineLength(entries, |entries|, emitUTF8) >= RIGHT_MARGIN
  }

  predicate AllFlat(entries: seq<Entry>) {
    forall i :: 0 <= i < |entries| ==> Flat(entries[i].value)
  }

  // ------------------------------------------------------------------
  // The whole text
  // ------------------------------------------------------------------

  function Copies(t: Text, n: nat): (r: Text)
    ensures |r| == n * |t|
  {
    if n == 0 then [] else Copies(t, n - 1) + t
  }

  /** The array is written with one element a line. */
  predicate OnLines(entries: seq<Entry>, style: Style)
    requires entries != []
  {
    style.comments == KeepAll || TooMuchForALine(entries, style.emitUTF8)
  }

  function Break(style: Style, depth: nat): Text {
    if style.indentation == [] then [] else NEWLINE_TEXT + Copies(style.indentation, depth)
  }

  /** A space, unless the text is to be compact. */
  function Gap(style: Style): Text {
    if style.indentation == [] then [] else [SPACE]
  }

  /** The text of a value at some depth; `indented`: it already stands at the beginning of its line. */
  function Laid(v: Value, style: Style, depth: nat, indented: bool): Text
    decreases v, 2
  {
    if Flat(v) then FlatText(v, style.emitUTF8)
    else
      var front := if indented then [] else Break(style, depth);
      if v.Object? then front + [OPEN_OBJECT] + LaidMembers(v.entries, style, depth)
      else if OnLines(v.entries, style) then front + [OPEN_ARRAY] + LaidItems(v.entries, style, depth)
      else [OPEN_ARRAY] + Gap(style) + LineItems(v.entries, style)
  }

  function LaidEntry(e: Entry, style: Style, depth: nat, indented: bool): (t: Text)
    ensures t == Laid(e.value, style, depth, indented)
    decreases e, 0
  {
    Laid(e.value, style, depth, indented)
  }

  /** From a member on. */
  function LaidMembers(entries: seq<Entry>, style: Style, depth: nat): Text
    requires entries != []
    decreases entries, 1
  {
    Break(style, depth + 1) + LaidName(entries[0].key, style) + LaidEntry(entries[0], style, depth + 1, false)
    + if |entries| == 1 then Break(style, depth) + [CLOSE_OBJECT] else [COMMA] + LaidMembers(entries[1..], style, depth)
  }

  function LaidName(key: Key, style: Style): Text {
    (if key.Name? then Quoted(key.text, style.emitUTF8) else []) + style.colonSymbol
  }

  /** From an element on, one a line. */
  function LaidItems(entries: seq<Entry>, style: Style, depth: nat): Text
    requires entries != []
    decreases entries, 1
  {
    Break(style, depth + 1) + LaidEntry(entries[0], style, depth + 1, true)
    + if |entries| == 1 then Break(style, depth) + [CLOSE_ARRAY] else [COMMA] + LaidItems(entries[1..], style, depth)
  }

  /** From an element on, all on one line. */
  function LineItems(entries: seq<Entry>, style: Style): Text
    requires entries != []
    decreases entries
  {
    FlatText(entries[0].value, style.emitUTF8)
    + if |entries| == 1 then Gap(style) + [CLOSE_ARRAY] else [COMMA] + Gap(style) + LineItems(entries[1..], style)
  }

  // ------------------------------------------------------------------
  // Its lines
  // ------------------------------------------------------------------

  const LINE_FEED: byte := '\n' as int

  /** A line: how deep it is indented, and what stands on it. */
  datatype Line = Line(depth: nat, text: Text)

  function AfterLast(ls: seq<Line>, t: Text): (r: seq<Line>)
    requires ls != []
    ensures r != []
  {
    ls[..|ls| - 1] + [Line(ls[|ls| - 1].depth, ls[|ls| - 1].text + t)]
  }

  /**
   The lines of a value, the first being the rest of the line on which it begins. A
   container that is not written on one line begins a line of its own, unless it
   stands at the beginning of one already. So do its members or elements, one step
   deeper, and its closing mark.
   */
  function LinesOf(v: Value, style: Style, depth: nat, indented: bool): (ls: seq<Line>)
    ensures ls != []
    decreases v, 2
  {
    if Flat(v) then [Line(depth, FlatText(v, style.emitUTF8))]
    else
      var front := if indented then [] else [Line(depth, [])];
      if v.Object? then
        front + [Line(depth, [OPEN_OBJECT])] + MemberLines(v.entries, style, depth) + [Line(depth, [CLOSE_OBJECT])]
      else if OnLines(v.entries, style) then
        front + [Line(depth, [OPEN_ARRAY])] + ItemLines(v.entries, style, depth) + [Line(depth, [CLOSE_ARRAY])]
      else [Line(depth, [OPEN_ARRAY] + Gap(style) + LineItems(v.entries, style))]
  }

  function EntryLines(e: Entry, style: Style, depth: nat, indented: bool): (ls: seq<Line>)
    ensures ls == LinesOf(e.value, style, depth, indented)
    decreases e, 0
  {
    LinesOf(e.value, style, depth, indented)
  }

  function Named(key: Key, ls: seq<Line>, style: Style, depth: nat): (r: seq<Line>)
    requires ls != []
    ensures r != []
  {
    [Line(depth, LaidName(key, style) + ls[0].text)] + ls[1..]
  }

  function MemberLines(entries: seq<Entry>, style: Style, depth: nat): seq<Line>
    decreases entries, 1
  {
    if entries == [] then [] else
      var own := Named(entries[0].key, EntryLines(entries[0], style, depth + 1, false), style, depth + 1);
      (if |entries| == 1 then own else AfterLast(own, [COMMA])) + MemberLines(entries[1..], style, depth)
  }

  function ItemLines(entries: seq<Entry>, style: Style, depth: nat): seq<Line>
    decreases entries, 1
  {
    if entries == [] then [] else
      var own := EntryLines(entries[0], style, depth + 1, true);
      (if |entries| == 1 then own else AfterLast(own, [COMMA])) + ItemLines(entries[1..], style, depth)
  }

  /** Lines, each behind a line break and its indentation. */
  function Broken(ls: seq<Line>, indentation: Text): Text {
    if ls == [] then [] else Broken(ls[..|ls| - 1], indentation) + BrokenLine(ls[|ls| - 1], indentation)
  }

  function BrokenLine(l: Line, indentation: Text): Text {
    [LINE_FEED] + Copies(indentation, l.depth) + l.text
  }

  function Joint(ls: seq<Line>, indentation: Text): Text
    requires ls != []
  {
    ls[0].text + Broken(ls[1..], indentation)
  }

  lemma {:induction false} BrokenConcat(a: seq<Line>, b: seq<Line>, indentation: Text)
    ensures Broken(a + b, indentation) == Broken(a, indentation) + Broken(b, indentation)
    decreases |b|
  {
    hide BrokenLine;
    if b == [] {
      assert a + b == a;
    } else {
      var n := |b| - 1;
      assert (a + b)[..|a + b| - 1] == a + b[..n] && (a + b)[|a + b| - 1] == b[n];
      BrokenConcat(a, b[..n], indentation);
    }
  }

  lemma BrokenOne(l: Line, indentation: Text)
    ensures Broken([l], indentation) == BrokenLine(l, indentation)
  {
    assert [l][..0] == [];
    assert [] + BrokenLine(l, indentation) == BrokenLine(l, indentation);
  }

  lemma BrokenAfterLast(ls: seq<Line>, t: Text, indentation: Text)
    requires ls != []
    ensures Broken(AfterLast(ls, t), indentation) == Broken(ls, indentation) + t
  {
    var n := |ls| - 1;
    assert AfterLast(ls, t)[..n] == ls[..n];
  }

  /** A first line that goes on somewhere else. */
  lemma BrokenFirst(front: Text, ls: seq<Line>, depth: nat, indentation: Text)
    requires ls != []
    ensures Broken([Line(depth, front + ls[0].text)] + ls[1..], indentation)
         == [LINE_FEED] + Copies(indentation, depth) + front + Joint(ls, indentation)
  {
    BrokenConcat([Line(depth, front + ls[0].text)], ls[1..], indentation);
    BrokenOne(Line(depth, front + ls[0].text), indentation);
  }

  // ------------------------------------------------------------------
  // The lines make up the text
  // ------------------------------------------------------------------

  lemma {:induction false} LaidInLines(v: Value, style: Style, depth: nat, indented: bool)
    requires style.indentation != []
    ensures Laid(v, style, depth, indented) == Joint(LinesOf(v, style, depth, indented), style.indentation)
    ensures indented ==> LinesOf(v, style, depth, indented)[0].depth == depth
    decreases v, 2
  {
    hide LaidMembers, LaidItems, LineItems, MemberLines, ItemLines, OnLines, Copies;
    if !Flat(v) {
      if v.Object? {
        MembersInLines(v.entries, style, depth);
        ContainerJoint(style, depth, indented, OPEN_OBJECT, MemberLines(v.entries, style, depth), CLOSE_OBJECT);
      } else if OnLines(v.entries, style) {
        ItemsInLines(v.entries, style, depth);
        ContainerJoint(style, depth, indented, OPEN_ARRAY, ItemLines(v.entries, style, depth), CLOSE_ARRAY);
      }
    }
  }

  lemma ContainerJoint(style: Style, depth: nat, indented: bool, open: byte, inner: seq<Line>, close: byte)
    requires style.indentation != []
    ensures Joint((if indented then [] else [Line(depth, [])]) + [Line(depth, [open])] + inner + [Line(depth, [close])],
                  style.indentation)
         == (if indented then [] else Break(style, depth)) + [open]
            + (Broken(inner, style.indentation) + (Break(style, depth) + [close]))
  {
    hide Joint, Break, Broken;
    var ind, rest := style.indentation, inner + [Line(depth, [close])];
    ClosedJoint(style, depth, open, inner, close);
    if indented {
      assert [] + [Line(depth, [open])] + inner + [Line(depth, [close])] == [Line(depth, [open])] + rest;
      assert [] + [open] == [open];
    } else {
      assert [Line(depth, [])] + [Line(depth, [open])] + inner + [Line(depth, [close])]
          == [Line(depth, [])] + ([Line(depth, [open])] + rest);
      NewLineJoint(style, depth, [Line(depth, [open])] + rest);
      Regroup(Break(style, depth), [open], Broken(inner, ind) + (Break(style, depth) + [close]));
    }
  }

  lemma ClosedJoint(style: Style, depth: nat, open: byte, inner: seq<Line>, close: byte)
    requires style.indentation != []
    ensures Joint([Line(depth, [open])] + (inner + [Line(depth, [close])]), style.indentation)
         == [open] + (Broken(inner, style.indentation) + (Break(style, depth) + [close]))
  {
    hide Copies, Broken;
    var ls := [Line(depth, [open])] + (inner + [Line(depth, [close])]);
    assert ls[1..] == inner + [Line(depth, [close])];
    BrokenConcat(inner, [Line(depth, [close])], style.indentation);
    BrokenOne(Line(depth, [close]), style.indentation);
  }

  lemma NewLineJoint(style: Style, depth: nat, ls: seq<Line>)
    requires style.indentation != [] && ls != [] && ls[0].depth == depth
    ensures Joint([Line(depth, [])] + ls, style.indentation) == Break(style, depth) + Joint(ls, style.indentation)
  {
    hide Copies, Broken;
    assert ([Line(depth, [])] + ls)[1..] == ls && ls == [ls[0]] + ls[1..];
    BrokenConcat([ls[0]], ls[1..], style.indentation);
    BrokenOne(ls[0], style.indentation);
  }

  lemma BrokenNamed(key: Key, ls: seq<Line>, style: Style, depth: nat)
    requires style.indentation != [] && ls != []
    ensures Broken(Named(key, ls, style, depth), style.indentation)
         == Break(style, depth) + LaidName(key, style) + Joint(ls, style.indentation)
  {
    hide Broken, Joint, Copies, LaidName;
    BrokenFirst(LaidName(key, style), ls, depth, style.indentation);
  }

  lemma BrokenItem(ls: seq<Line>, style: Style, depth: nat)
    requires style.indentation != [] && ls != [] && ls[0].depth == depth
    ensures Broken(ls, style.indentation) == Break(style, depth) + Joint(ls, style.indentation)
  {
    hide Broken, Joint, Copies;
    assert [] + ls[0].text == ls[0].text;
    assert ls == [Line(depth, ls[0].text)] + ls[1..];
    BrokenFirst([], ls, depth, style.indentation);
    assert [LINE_FEED] + Copies(style.indentation, depth) + [] == Break(style, depth);
  }

  lemma {:induction false} MembersInLines(entries: seq<Entry>, style: Style, depth: nat)
    requires style.indentation != [] && entries != []
    ensures LaidMembers(entries, style, depth)
         == Broken(MemberLines(entries, style, depth), style.indentation) + (Break(style, depth) + [CLOSE_OBJECT])
    decreases entries, 1
  {
    hide LinesOf, Laid, Break, Broken, LaidName, Joint, Named, AfterLast;
    var e, ind := entries[0], style.indentation;
    EntryInLines(e, style, depth + 1, false);
    var child := EntryLines(e, style, depth + 1, false);
    var own := Named(e.key, child, style, depth + 1);
    BrokenNamed(e.key, child, style, depth + 1);
    if |entries| == 1 {
      assert MemberLines(entries[1..], style, depth) == [];
      assert own + [] == own;
    } else {
      BrokenAfterLast(own, [COMMA], ind);
      BrokenConcat(AfterLast(own, [COMMA]), MemberLines(entries[1..], style, depth), ind);
      MembersInLines(entries[1..], style, depth);
    }
  }

  lemma {:induction false} ItemsInLines(entries: seq<Entry>, style: Style, depth: nat)
    requires style.indentation != [] && entries != []
    ensures LaidItems(entries, style, depth)
         == Broken(ItemLines(entries, style, depth), style.indentation) + (Break(style, depth) + [CLOSE_ARRAY])
    decreases entries, 1
  {
    hide LinesOf, Laid, Break, Broken, Joint, AfterLast;
    var e, ind := entries[0], style.indentation;
    EntryInLines(e, style, depth + 1, true);
    var own := EntryLines(e, style, depth + 1, true);
    BrokenItem(own, style, depth + 1);
    if |entries| == 1 {
      assert ItemLines(entries[1..], style, depth) == [];
      assert own + [] == own;
    } else {
      BrokenAfterLast(own, [COMMA], ind);
      BrokenConcat(AfterLast(own, [COMMA]), ItemLines(entries[1..], style, depth), ind);
      ItemsInLines(entries[1..], style, depth);
    }
  }

  lemma {:induction false} EntryInLines(e: Entry, style: Style, depth: nat, indented: bool)
    requires style.indentation != []
    ensures LaidEntry(e, style, depth, indented) == Joint(EntryLines(e, style, depth, indented), style.indentation)
    ensures indented ==> EntryLines(e, style, depth, indented)[0].depth == depth
    decreases e, 0
  {
    hide Laid, LinesOf, Joint;
    LaidInLines(e.value, style, depth, indented);
  }

  // ------------------------------------------------------------------
  // Where the lines begin
  // ------------------------------------------------------------------

  /** The position of the line break in front of line `k`; of the end, when there is no such line. */
  function BreakAt(ls: seq<Line>, width: nat, k: nat): nat
    requires 1 <= k <= |ls|
  {
    if k == 1 then |ls[0].text| else BreakAt(ls, width, k - 1) + 1 + ls[k - 1].depth * width + |ls[k - 1].text|
  }

  lemma {:induction false} BreakAtPrefix(ls: seq<Line>, n: nat, width: nat, k: nat)
    requires 1 <= k <= n <= |ls|
    ensures BreakAt(ls[..n], width, k) == BreakAt(ls, width, k)
    decreases k
  {
    if k > 1 {
      BreakAtPrefix(ls, n, width, k - 1);
    }
  }

  lemma JointPrefix(ls: seq<Line>, indentation: Text)
    requires |ls| > 1
    ensures var n := |ls| - 1; Joint(ls, indentation) == Joint(ls[..n], indentation) + BrokenLine(ls[n], indentation)
  {
    hide BrokenLine;
    var n := |ls| - 1;
    assert ls[1..][..n - 1] == ls[..n][1..] && ls[1..][n - 1] == ls[n];
  }

  /** Each line stands behind its break and its indentation, and nothing stands behind the last one. */
  lemma {:induction false} LineStands(ls: seq<Line>, indentation: Text, k: nat)
    requires 1 <= k < |ls|
    ensures BreakAt(ls, |indentation|, |ls|) == |Joint(ls, indentation)|
    ensures Holds(Joint(ls, indentation), BreakAt(ls, |indentation|, k), BrokenLine(ls[k], indentation))
    ensures Holds(Joint(ls, indentation), 0, ls[0].text)
    decreases |ls|
  {
    hide BrokenLine, Joint, Copies;
    var n := |ls| - 1;
    var before := Joint(ls[..n], indentation);
    JointPrefix(ls, indentation);
    BreakAtPrefix(ls, n, |indentation|, n);
    if n == 1 {
      JointOne(ls[..1], indentation);
    } else {
      LineStands(ls[..n], indentation, if k < n then k else 1);
    }
    BrokenLineLength(ls[n], indentation);
    if k < n {
      BreakAtPrefix(ls, n, |indentation|, k);
      HoldsBefore(before, BrokenLine(ls[n], indentation), BreakAt(ls, |indentation|, k),
                  BrokenLine(ls[k], indentation));
    } else {
      assert (before + BrokenLine(ls[n], indentation))[|before|..] == BrokenLine(ls[n], indentation);
    }
    HoldsBefore(before, BrokenLine(ls[n], indentation), 0, ls[0].text);
  }

  lemma JointOne(ls: seq<Line>, indentation: Text)
    requires |ls| == 1
    ensures Joint(ls, indentation) == ls[0].text && Holds(ls[0].text, 0, ls[0].text)
  {
    assert ls[0].text + [] == ls[0].text;
  }

  lemma BrokenLineLength(l: Line, indentation: Text)
    ensures |BrokenLine(l, indentation)| == 1 + l.depth * |indentation| + |l.text|
  {
  }

  lemma HoldsBefore(text: Text, more: Text, at: nat, t: Text)
    requires Holds(text, at, t)
    ensures Holds(text + more, at, t)
  {
    assert (text + more)[at..at + |t|] == text[at..at + |t|];
  }

  // ------------------------------------------------------------------
  // There is no other line break
  // ------------------------------------------------------------------

  /** No line break in what stands on the lines. */
  predicate Unbroken(ls: seq<Line>) {
    forall i :: 0 <= i < |ls| ==> LINE_FEED !in ls[i].text
  }

  lemma {:induction false} CopiesUnbroken(t: Text, n: nat)
    requires LINE_FEED !in t
    ensures LINE_FEED !in Copies(t, n)
  {
    if n > 0 {
      CopiesUnbroken(t, n - 1);
    }
  }

  lemma {:induction false} BreakIsOne(ls: seq<Line>, indentation: Text, j: nat) returns (k: nat)
    requires ls != [] && Unbroken(ls) && LINE_FEED !in indentation
    requires j < |Joint(ls, indentation)| && Joint(ls, indentation)[j] == LINE_FEED
    ensures 1 <= k < |ls| && BreakAt(ls, |indentation|, k) == j
    decreases |ls|
  {
    hide BrokenLine, Joint, Copies;
    var n := |ls| - 1;
    if n == 0 {
      JointOne(ls, indentation);
      assert false;
    } else {
      var before := Joint(ls[..n], indentation);
      JointPrefix(ls, indentation);
      LineStands(ls, indentation, n);
      if j < |before| {
        k := BreakIsOne(ls[..n], indentation, j);
        BreakAtPrefix(ls, n, |indentation|, k);
      } else {
        k := n;
        BreakAtPrefix(ls, n, |indentation|, n);
        JointLength(ls[..n], indentation);
        CopiesUnbroken(indentation, ls[n].depth);
        OnlyFirstIsBreak(ls[n], indentation, j - |before|);
      }
    }
  }

  lemma JointLength(ls: seq<Line>, indentation: Text)
    requires ls != []
    ensures |Joint(ls, indentation)| == BreakAt(ls, |indentation|, |ls|)
  {
    hide Joint, BrokenLine, Copies;
    if |ls| == 1 {
      JointOne(ls, indentation);
    } else {
      LineStands(ls, indentation, 1);
    }
  }

  lemma OnlyFirstIsBreak(l: Line, indentation: Text, j: nat)
    requires LINE_FEED !in l.text && LINE_FEED !in Copies(indentation, l.depth)
    requires j < |BrokenLine(l, indentation)| && BrokenLine(l, indentation)[j] == LINE_FEED
    ensures j == 0
  {
  }

  // ------------------------------------------------------------------
  // No line break in the texts of values
  // ------------------------------------------------------------------

  lemma DigitsUnbroken(s: Text)
    requires AllDigits(s)
    ensures LINE_FEED !in s
  {
  }

  lemma IntegerUnbroken(n: int)
    ensures LINE_FEED !in IntegerText(n)
  {
    hide Decimal;
    DigitsUnbroken(Decimal(if n < 0 then -n else n));
  }

  lemma EscapeUnbroken(s: seq<byte>, emitUTF8: bool)
    requires s != []
    ensures LINE_FEED !in EscapeNext(s, emitUTF8).0
  {
    hide NextCodepoint;
  }

  lemma {:induction false} EscapedUnbroken(s: seq<byte>, emitUTF8: bool)
    ensures LINE_FEED !in Escaped(s, emitUTF8)
    decreases |s|
  {
    hide EscapeNext;
    if s != [] {
      EscapeUnbroken(s, emitUTF8);
      EscapedUnbroken(s[EscapeNext(s, emitUTF8).1..], emitUTF8);
    }
  }

  lemma QuotedUnbroken(s: seq<byte>, emitUTF8: bool)
    ensures LINE_FEED !in Quoted(s, emitUTF8)
  {
    hide Escaped;
    EscapedUnbroken(s, emitUTF8);
  }

  lemma FlatUnbroken(v: Value, emitUTF8: bool)
    ensures LINE_FEED !in FlatText(v, emitUTF8)
  {
    hide Quoted, IntegerText;
    match v
    case Int(n) => IntegerUnbroken(n);
    case UInt(n) => IntegerUnbroken(n);
    case String(s) => QuotedUnbroken(s, emitUTF8);
    case _ =>
  }

  lemma {:induction false} LineItemsUnbroken(entries: seq<Entry>, style: Style)
    requires entries != []
    ensures LINE_FEED !in LineItems(entries, style)
    decreases entries
  {
    hide FlatText;
    FlatUnbroken(entries[0].value, style.emitUTF8);
    if |entries| > 1 {
      LineItemsUnbroken(entries[1..], style);
    }
  }

  lemma {:induction false} LinesUnbroken(v: Value, style: Style, depth: nat, indented: bool)
    requires LINE_FEED !in style.colonSymbol
    ensures Unbroken(LinesOf(v, style, depth, indented))
    decreases v, 2
  {
    hide FlatText, LineItems, MemberLines, ItemLines, OnLines;
    if Flat(v) {
      FlatUnbroken(v, style.emitUTF8);
    } else if v.Object? {
      MemberLinesUnbroken(v.entries, style, depth);
    } else if OnLines(v.entries, style) {
      ItemLinesUnbroken(v.entries, style, depth);
    } else {
      LineItemsUnbroken(v.entries, style);
    }
  }

  lemma {:induction false} MemberLinesUnbroken(entries: seq<Entry>, style: Style, depth: nat)
    requires LINE_FEED !in style.colonSymbol
    ensures Unbroken(MemberLines(entries, style, depth))
    decreases entries, 1
  {
    hide LinesOf;
    if entries != [] {
      EntryUnbroken(entries[0], style, depth + 1, false);
      NameUnbroken(entries[0].key, style);
      var own := Named(entries[0].key, EntryLines(entries[0], style, depth + 1, false), style, depth + 1);
      AfterLastUnbroken(own);
      MemberLinesUnbroken(entries[1..], style, depth);
    }
  }

  lemma {:induction false} ItemLinesUnbroken(entries: seq<Entry>, style: Style, depth: nat)
    requires LINE_FEED !in style.colonSymbol
    ensures Unbroken(ItemLines(entries, style, depth))
    decreases entries, 1
  {
    hide LinesOf;
    if entries != [] {
      EntryUnbroken(entries[0], style, depth + 1, true);
      AfterLastUnbroken(EntryLines(entries[0], style, depth + 1, true));
      ItemLinesUnbroken(entries[1..], style, depth);
    }
  }

  lemma AfterLastUnbroken(ls: seq<Line>)
    requires ls != [] && Unbroken(ls)
    ensures Unbroken(AfterLast(ls, [COMMA]))
  {
  }

  lemma NameUnbroken(key: Key, style: Style)
    requires LINE_FEED !in style.colonSymbol
    ensures LINE_FEED !in LaidName(key, style)
  {
    hide Quoted;
    if key.Name? {
      QuotedUnbroken(key.text, style.emitUTF8);
    }
  }

  lemma {:induction false} EntryUnbroken(e: Entry, style: Style, depth: nat, indented: bool)
    requires LINE_FEED !in style.colonSymbol
    ensures Unbroken(EntryLines(e, style, depth, indented))
    decreases e, 0
  {
    hide LinesOf;
    LinesUnbroken(e.value, style, depth, indented);
  }

  // ------------------------------------------------------------------
  // What begins a line
  // ------------------------------------------------------------------

  /** From line `k` on these lines stand in `ls`, the last with a comma perhaps; the first may have a name in front. */
  predicate Among(ls: seq<Line>, k: nat, own: seq<Line>) {
    && k + |own| <= |ls|
    && forall j :: 1 <= j < |own| ==> ls[k + j].depth == own[j].depth && own[j].text <= ls[k + j].text
  }

  lemma AmongMore(front: seq<Line>, ls: seq<Line>, back: seq<Line>, k: nat, own: seq<Line>)
    requires Among(ls, k, own)
    ensures Among(front + ls + back, |front| + k, own)
    ensures k < |ls| ==> (front + ls + back)[|front| + k] == ls[k]
  {
    var all := front + ls + back;
    assert forall m :: 0 <= m < |ls| ==> ls[m] == all[|front| + m];
    forall j | 1 <= j < |own|
      ensures all[|front| + k + j].depth == own[j].depth && own[j].text <= all[|front| + k + j].text
    {
      assert ls[k + j] == all[|front| + (k + j)];
    }
  }

  lemma OwnStands(key: Key, child: seq<Line>, style: Style, depth: nat, alone: bool)
    requires child != []
    ensures var own := Named(key, child, style, depth);
            var first := if alone then own else AfterLast(own, [COMMA]);
            && first[0].depth == depth && LaidName(key, style) + child[0].text <= first[0].text
            && Among(first, 0, child)
  {
    hide LaidName;
    var own := Named(key, child, style, depth);
    CommaStands(own, alone);
  }

  lemma CommaStands(own: seq<Line>, alone: bool)
    requires own != []
    ensures var first := if alone then own else AfterLast(own, [COMMA]);
            && |first| == |own| && first[0].depth == own[0].depth && own[0].text <= first[0].text
            && forall j :: 0 <= j < |own| ==> first[j].depth == own[j].depth && own[j].text <= first[j].text
  {
  }

  lemma MemberLinesFirst(entries: seq<Entry>, style: Style, depth: nat)
    requires entries != []
    ensures var own := Named(entries[0].key, EntryLines(entries[0], style, depth + 1, false), style, depth + 1);
            MemberLines(entries, style, depth)
            == (if |entries| == 1 then own else AfterLast(own, [COMMA])) + MemberLines(entries[1..], style, depth)
  {
    hide LinesOf, Named, AfterLast;
  }

  lemma ItemLinesFirst(entries: seq<Entry>, style: Style, depth: nat)
    requires entries != []
    ensures var own := EntryLines(entries[0], style, depth + 1, true);
            ItemLines(entries, style, depth)
            == (if |entries| == 1 then own else AfterLast(own, [COMMA])) + ItemLines(entries[1..], style, depth)
  {
    hide LinesOf, AfterLast;
  }

  lemma {:induction false} MemberStands(entries: seq<Entry>, style: Style, depth: nat, i: nat) returns (k: nat)
    requires i < |entries|
    ensures var ls := MemberLines(entries, style, depth);
            var own := LinesOf(entries[i].value, style, depth + 1, false);
            && k < |ls| && ls[k].depth == depth + 1 && LaidName(entries[i].key, style) + own[0].text <= ls[k].text
            && Among(ls, k, own)
    decreases entries
  {
    hide LinesOf, LaidName, Named, AfterLast, Among, MemberLines;
    var child := EntryLines(entries[0], style, depth + 1, false);
    var own := Named(entries[0].key, child, style, depth + 1);
    var first := if |entries| == 1 then own else AfterLast(own, [COMMA]);
    var rest := MemberLines(entries[1..], style, depth);
    MemberLinesFirst(entries, style, depth);
    if i == 0 {
      k := 0;
      OwnStands(entries[0].key, child, style, depth + 1, |entries| == 1);
      AmongMore([], first, rest, 0, child);
      assert [] + first + rest == first + rest;
    } else {
      k := MemberStands(entries[1..], style, depth, i - 1);
      AmongMore(first, rest, [], k, LinesOf(entries[i].value, style, depth + 1, false));
      assert first + rest + [] == first + rest;
      k := |first| + k;
    }
  }

  lemma {:induction false} ItemStands(entries: seq<Entry>, style: Style, depth: nat, i: nat) returns (k: nat)
    requires i < |entries|
    ensures var ls := ItemLines(entries, style, depth);
            var own := LinesOf(entries[i].value, style, depth + 1, true);
            && k < |ls| && ls[k].depth == own[0].depth && own[0].text <= ls[k].text && Among(ls, k, own)
    decreases entries
  {
    hide LinesOf, AfterLast, Among, ItemLines;
    var own := EntryLines(entries[0], style, depth + 1, true);
    var first := if |entries| == 1 then own else AfterLast(own, [COMMA]);
    var rest := ItemLines(entries[1..], style, depth);
    ItemLinesFirst(entries, style, depth);
    if i == 0 {
      k := 0;
      CommaStands(own, |entries| == 1);
      FirstAmong(first, own);
      AmongMore([], first, rest, 0, own);
      assert [] + first + rest == first + rest;
    } else {
      k := ItemStands(entries[1..], style, depth, i - 1);
      AmongMore(first, rest, [], k, LinesOf(entries[i].value, style, depth + 1, true));
      assert first + rest + [] == first + rest;
      k := |first| + k;
    }
  }

  lemma FirstAmong(first: seq<Line>, own: seq<Line>)
    requires |first| == |own|
    requires forall j :: 0 <= j < |own| ==> first[j].depth == own[j].depth && own[j].text <= first[j].text
    ensures Among(first, 0, own)
  {
  }

  /**
   An object has its closing mark on the last line, as deep as itself. Each name begins
   a line one step deeper, the lines of its value following, and so does the opening
   mark unless the object begins its line anyway.
   */
  lemma ObjectOnLines(entries: seq<Entry>, style: Style, depth: nat, indented: bool, i: nat) returns (k: nat)
    requires i < |entries| && entries[i].key.Name?
    ensures var ls := LinesOf(Object(entries), style, depth, indented);
            var own := LinesOf(entries[i].value, style, depth + 1, false);
            && ls[|ls| - 1] == Line(depth, ['}' as int])
            && ls[if indented then 0 else 1] == Line(depth, ['{' as int])
            && 0 < k < |ls| - 1 && ls[k].depth == depth + 1 && Among(ls, k, own)
            && Quoted(entries[i].key.text, style.emitUTF8) + style.colonSymbol + own[0].text <= ls[k].text
  {
    hide MemberLines, Quoted, Among;
    var front := (if indented then [] else [Line(depth, [])]) + [Line(depth, [OPEN_OBJECT])];
    var own := LinesOf(entries[i].value, style, depth + 1, false);
    k := MemberStands(entries, style, depth, i);
    hide LinesOf;
    AmongMore(front, MemberLines(entries, style, depth), [Line(depth, [CLOSE_OBJECT])], k, own);
    k := |front| + k;
    ObjectLinesAre(entries, style, depth, indented);
  }

  lemma ObjectLinesAre(entries: seq<Entry>, style: Style, depth: nat, indented: bool)
    requires entries != []
    ensures LinesOf(Object(entries), style, depth, indented)
         == (if indented then [] else [Line(depth, [])]) + [Line(depth, [OPEN_OBJECT])]
            + MemberLines(entries, style, depth)
            + [Line(depth, [CLOSE_OBJECT])]
  {
  }

  /** The same for an array with one element a line; each element begins a line. */
  lemma ArrayOnLines(entries: seq<Entry>, style: Style, depth: nat, indented: bool, i: nat) returns (k: nat)
    requires i < |entries| && (style.comments == KeepAll || TooMuchForALine(entries, style.emitUTF8))
    ensures var ls := LinesOf(Array(entries), style, depth, indented);
            var own := LinesOf(entries[i].value, style, depth + 1, true);
            && ls[|ls| - 1] == Line(depth, [']' as int])
            && ls[if indented then 0 else 1] == Line(depth, ['[' as int])
            && 0 < k < |ls| - 1 && ls[k].depth == depth + 1 && own[0].text <= ls[k].text && Among(ls, k, own)
  {
    hide ItemLines, TooMuchForALine, Among;
    var front := (if indented then [] else [Line(depth, [])]) + [Line(depth, [OPEN_ARRAY])];
    var own := LinesOf(entries[i].value, style, depth + 1, true);
    k := ItemStands(entries, style, depth, i);
    ItemBegins(entries[i].value, style, depth + 1);
    hide LinesOf;
    AmongMore(front, ItemLines(entries, style, depth), [Line(depth, [CLOSE_ARRAY])], k, own);
    k := |front| + k;
    ArrayLinesAre(entries, style, depth, indented);
  }

  lemma ItemBegins(v: Value, style: Style, depth: nat)
    ensures LinesOf(v, style, depth, true)[0].depth == depth
  {
  }

  lemma ArrayLinesAre(entries: seq<Entry>, style: Style, depth: nat, indented: bool)
    requires entries != [] && OnLines(entries, style)
    ensures LinesOf(Array(entries), style, depth, indented)
         == (if indented then [] else [Line(depth, [])]) + [Line(depth, [OPEN_ARRAY])]
            + ItemLines(entries, style, depth)
            + [Line(depth, [CLOSE_ARRAY])]
  {
  }

  /** Anything else is on one line. */
  lemma OneLine(v: Value, style: Style, depth: nat, indented: bool)
    ensures |LinesOf(v, style, depth, indented)| == 1
       <==> Flat(v) || (v.Array? && style.comments != KeepAll && !TooMuchForALine(v.entries, style.emitUTF8))
  {
    hide TooMuchForALine;
  }
}
