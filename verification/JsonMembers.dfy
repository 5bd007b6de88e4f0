/**
 Members of an object: how jsoncpp's `Value` keeps them (json_value.cpp), and what a
 text that names them in any order, any number of times, is read as.
 */
module JsonMembers {
  import opened JsonValue
  import opened JsonInteger
  import opened JsonText

  // ------------------------------------------------------------------
  // The map of an object
  // ------------------------------------------------------------------

  predicate HasMember(entries: seq<Entry>, key: Key) {
    exists i :: 0 <= i < |entries| && entries[i].key == key
  }

  /** `operator[](key)` and an assignment: the member is replaced, or comes where the order of keys wants it. */
  function WithMember(entries: seq<Entry>, key: Key, value: Value): seq<Entry> {
    if entries == [] || KeyLess(key, entries[0].key) then [Entry(key, value)] + entries
    else if entries[0].key == key then [Entry(key, value)] + entries[1..]
    else [entries[0]] + WithMember(entries[1..], key, value)
  }

  function MemberOrNull(entries: seq<Entry>, key: Key): Value {
    if entries == [] then Null
    else if entries[0].key == key then entries[0].value
    else MemberOrNull(entries[1..], key)
  }

  lemma {:induction false} MemberFound(entries: seq<Entry>, i: nat)
    requires SortedMembers(entries) && i < |entries|
    ensures MemberOrNull(entries, entries[i].key) == entries[i].value
  {
    if i > 0 {
      KeyOrder(entries[0].key, entries[i].key);
      MemberFound(entries[1..], i - 1);
    }
  }

  /** A member is added where the order of keys wants it, or replaced; nothing else changes. */
  lemma {:induction false} WithMemberIs(entries: seq<Entry>, key: Key, value: Value)
    requires SortedMembers(entries) && key.Name?
    ensures SortedMembers(WithMember(entries, key, value))
    ensures forall k :: HasMember(WithMember(entries, key, value), k) <==> k == key || HasMember(entries, k)
    ensures forall k ::
              MemberOrNull(WithMember(entries, key, value), k) == if k == key then value else MemberOrNull(entries, k)
  {
    hide KeyLess;
    var r := WithMember(entries, key, value);
    if entries == [] || KeyLess(key, entries[0].key) {
      FirstIsLess(entries, key, value);
      MembersOfFirst(Entry(key, value), entries);
    } else if entries[0].key == key {
      SameKeySorted(entries, value);
      MembersOfFirst(Entry(key, value), entries[1..]);
      MembersOfFirst(entries[0], entries[1..]);
      assert entries == [entries[0]] + entries[1..];
    } else {
      var rest := entries[1..];
      WithMemberIs(rest, key, value);
      MembersOfFirst(entries[0], WithMember(rest, key, value));
      MembersOfFirst(entries[0], rest);
      assert entries == [entries[0]] + rest;
      KeyOrder(key, entries[0].key);
      FirstBefore(entries[0], rest, key, value);
    }
  }

  lemma MembersOfFirst(e: Entry, rest: seq<Entry>)
    ensures forall k :: HasMember([e] + rest, k) <==> k == e.key || HasMember(rest, k)
    ensures forall k :: MemberOrNull([e] + rest, k) == if k == e.key then e.value else MemberOrNull(rest, k)
  {
    var es := [e] + rest;
    assert es[0] == e && es[1..] == rest;
    forall k ensures HasMember(es, k) <==> k == e.key || HasMember(rest, k) {
      if HasMember(rest, k) {
        var i :| 0 <= i < |rest| && rest[i].key == k;
        assert es[i + 1].key == k;
      }
      if HasMember(es, k) && k != e.key {
        var i :| 0 <= i < |es| && es[i].key == k;
        assert rest[i - 1].key == k;
      }
    }
  }

  lemma FirstIsLess(entries: seq<Entry>, key: Key, value: Value)
    requires SortedMembers(entries) && key.Name? && (entries == [] || KeyLess(key, entries[0].key))
    ensures SortedMembers([Entry(key, value)] + entries)
  {
    hide KeyLess;
    var r := [Entry(key, value)] + entries;
    forall j | 1 <= j < |r| ensures KeyLess(key, r[j].key) {
      if j > 1 {
        assert KeyLess(entries[0].key, entries[j - 1].key);
        KeyTransitive(key, entries[0].key, entries[j - 1].key);
      }
    }
  }

  lemma SameKeySorted(entries: seq<Entry>, value: Value)
    requires SortedMembers(entries) && entries != []
    ensures SortedMembers([Entry(entries[0].key, value)] + entries[1..])
  {
    hide KeyLess;
    var r := [Entry(entries[0].key, value)] + entries[1..];
    assert forall i :: 0 <= i < |r| ==> r[i].key == entries[i].key;
  }

  /** A key in front of all others stays there. */
  lemma FirstBefore(e: Entry, rest: seq<Entry>, key: Key, value: Value)
    requires SortedMembers([e] + rest) && KeyLess(e.key, key)
    requires SortedMembers(WithMember(rest, key, value))
    requires forall k :: HasMember(WithMember(rest, key, value), k) <==> k == key || HasMember(rest, k)
    ensures SortedMembers([e] + WithMember(rest, key, value))
  {
    hide KeyLess, WithMember;
    var w := WithMember(rest, key, value);
    var r := [e] + w;
    forall j | 1 <= j < |r| ensures KeyLess(e.key, r[j].key) {
      assert HasMember(w, w[j - 1].key);
      if w[j - 1].key != key {
        var i :| 0 <= i < |rest| && rest[i].key == w[j - 1].key;
        assert ([e] + rest)[0] == e && ([e] + rest)[i + 1] == rest[i];
        assert KeyLess(([e] + rest)[0].key, ([e] + rest)[i + 1].key);
      }
    }
    assert ([e] + rest)[0] == e;
  }

  predicate AllBefore(entries: seq<Entry>, key: Key) {
    forall i :: 0 <= i < |entries| ==> KeyLess(entries[i].key, key)
  }

  lemma {:induction false} LastMember(entries: seq<Entry>, key: Key, value: Value)
    requires AllBefore(entries, key)
    ensures WithMember(entries, key, value) == entries + [Entry(key, value)]
    ensures !HasMember(entries, key)
  {
    forall i | 0 <= i < |entries| ensures entries[i].key != key && !KeyLess(key, entries[i].key) {
      KeyOrder(entries[i].key, key);
    }
    if entries != [] {
      LastMember(entries[1..], key, value);
    }
  }

  // ------------------------------------------------------------------
  // What a text is read as
  // ------------------------------------------------------------------

  /**
   A value as a text may spell it: like a printable one, but with the members of its
   objects in any order and any number of times.
   */
  ghost predicate Legible(w: Value, emitUTF8: bool)
    decreases w
  {
    match w
    case Real(_) => false
    case Int(n) => -MAX_INT - 1 <= n <= MAX_INT
    case UInt(n) => n <= MAX_UINT
    case String(s) => Quotable(s, emitUTF8)
    case Array(entries) =>
      DenseArray(entries) && forall i :: 0 <= i < |entries| ==> LegibleEntry(entries[i], emitUTF8)
    case Object(entries) =>
      forall i :: 0 <= i < |entries| ==>
        LegibleEntry(entries[i], emitUTF8) && LegibleName(entries[i].key, emitUTF8)
    case _ => true
  }

  ghost predicate LegibleEntry(e: Entry, emitUTF8: bool)
    decreases e
  {
    Legible(e.value, emitUTF8)
  }

  ghost predicate LegibleName(key: Key, emitUTF8: bool) {
    key.Name? && Quotable(key.text, emitUTF8) && |key.text| < MAX_KEY_LENGTH
  }

  /** No name is given twice in one object. */
  predicate Distinct(w: Value)
    decreases w
  {
    w.Array? || w.Object? ==>
      && (w.Object? ==> DistinctNames(w.entries))
      && forall i :: 0 <= i < |w.entries| ==> DistinctEntry(w.entries[i])
  }

  predicate DistinctEntry(e: Entry)
    decreases e
  {
    Distinct(e.value)
  }

  predicate DistinctNames(entries: seq<Entry>) {
    forall i, j :: 0 <= i < j < |entries| ==> entries[i].key != entries[j].key
  }

  /** The value that is read. */
  function Settled(w: Value): Value
    decreases w
  {
    match w
    case Array(entries) => Array(SettledItems(entries))
    case Object(entries) => Object(SettledMembers(entries))
    case _ => Normal(w)
  }

  function SettledItems(entries: seq<Entry>): (r: seq<Entry>)
    ensures |r| == |entries|
    ensures forall i :: 0 <= i < |entries| ==> r[i] == SettledEntry(entries[i])
    decreases entries
  {
    seq(|entries|, i requires 0 <= i < |entries| => SettledEntry(entries[i]))
  }

  /** The members one after the other, a later one replacing an earlier one of the same name. */
  function SettledMembers(entries: seq<Entry>): seq<Entry>
    decreases entries
  {
    if entries == [] then [] else
      var last := SettledEntry(entries[|entries| - 1]);
      WithMember(SettledMembers(entries[..|entries| - 1]), last.key, last.value)
  }

  function SettledEntry(e: Entry): (r: Entry)
    ensures r == Entry(e.key, Settled(e.value))
    decreases e
  {
    Entry(e.key, Settled(e.value))
  }

  /**
   What it means to read `w` as `v`: arrays keep their elements in order; an object has
   exactly the names that were given, in the order of keys, each with the value that was
   given last; an unsigned number that fits the signed type is signed.
   */
  ghost predicate Means(w: Value, v: Value)
    decreases w
  {
    match w
    case UInt(n) => v == if n <= MAX_INT then Int(n) else w
    case Array(entries) =>
      && v.Array? && |v.entries| == |entries|
      && forall i :: 0 <= i < |entries| ==>
           v.entries[i].key == entries[i].key && EntryMeans(entries[i], v.entries[i].value)
    case Object(entries) =>
      && v.Object? && SortedMembers(v.entries)
      && (forall k :: HasMember(v.entries, k) <==> HasMember(entries, k))
      && forall i, j ::
           0 <= i < |entries| && 0 <= j < |v.entries| && entries[i].key == v.entries[j].key && GivenLast(entries, i) ==>
             EntryMeans(entries[i], v.entries[j].value)
    case _ => v == w
  }

  ghost predicate EntryMeans(e: Entry, v: Value)
    decreases e
  {
    Means(e.value, v)
  }

  /** The name is not given again. */
  predicate GivenLast(entries: seq<Entry>, i: nat)
    requires i < |entries|
  {
    forall j :: i < j < |entries| ==> entries[j].key != entries[i].key
  }

  ghost predicate AllNames(entries: seq<Entry>) {
    forall i :: 0 <= i < |entries| ==> entries[i].key.Name?
  }

  /** The members read so far are sorted, have exactly the names given so far, and hold their last values. */
  lemma {:induction false} SettledMembersAre(entries: seq<Entry>)
    requires AllNames(entries)
    ensures SortedMembers(SettledMembers(entries))
    ensures forall k :: HasMember(SettledMembers(entries), k) <==> HasMember(entries, k)
    ensures forall i :: 0 <= i < |entries| && GivenLast(entries, i) ==>
              MemberOrNull(SettledMembers(entries), entries[i].key) == Settled(entries[i].value)
    decreases |entries|
  {
    hide Settled, KeyLess, WithMember;
    if entries != [] {
      var n := |entries| - 1;
      var front, last := entries[..n], entries[n];
      SettledMembersAre(front);
      WithMemberIs(SettledMembers(front), last.key, Settled(last.value));
      MembersOfLast(front, last);
      assert entries == front + [last];
      forall i | 0 <= i < |entries| && GivenLast(entries, i)
        ensures MemberOrNull(SettledMembers(entries), entries[i].key) == Settled(entries[i].value)
      {
        if i < n {
          assert GivenLast(front, i) && front[i] == entries[i] && entries[n].key != entries[i].key;
        }
      }
    }
  }

  lemma MembersOfLast(front: seq<Entry>, last: Entry)
    ensures forall k :: HasMember(front + [last], k) <==> k == last.key || HasMember(front, k)
  {
    var es := front + [last];
    assert es[|front|] == last;
    forall k ensures HasMember(es, k) <==> k == last.key || HasMember(front, k) {
      if HasMember(front, k) {
        var i :| 0 <= i < |front| && front[i].key == k;
        assert es[i].key == k;
      }
    }
  }

  /** What is read is what is meant. */
  lemma {:induction false} SettledIsMeant(w: Value, emitUTF8: bool)
    requires Legible(w, emitUTF8)
    ensures Means(w, Settled(w))
    decreases w
  {
    hide KeyLess, WithMember, SettledMembers;
    if w.Array? || w.Object? {
      var es := w.entries;
      forall i | 0 <= i < |es| ensures EntryMeans(es[i], Settled(es[i].value)) {
        assert LegibleEntry(es[i], emitUTF8);
        SettledIsMeant(es[i].value, emitUTF8);
      }
      if w.Object? {
        SettledMembersAre(es);
        var ms := SettledMembers(es);
        forall i, j | 0 <= i < |es| && 0 <= j < |ms| && es[i].key == ms[j].key && GivenLast(es, i)
          ensures EntryMeans(es[i], ms[j].value)
        {
          MemberFound(ms, j);
        }
      }
    }
  }

  lemma SettledKind(w: Value)
    ensures (Settled(w).Array? <==> w.Array?) && (Settled(w).Object? <==> w.Object?)
  {
  }

  // ------------------------------------------------------------------
  // Only one value is meant
  // ------------------------------------------------------------------

  lemma {:induction false} LastGiven(entries: seq<Entry>, k: Key) returns (i: nat)
    requires HasMember(entries, k)
    ensures i < |entries| && entries[i].key == k && GivenLast(entries, i)
    decreases |entries|
  {
    i := |entries| - 1;
    if entries[i].key != k {
      var front := entries[..i];
      var j :| 0 <= j < |entries| && entries[j].key == k;
      assert front[j].key == k;
      i := LastGiven(front, k);
    }
  }

  /** Two sorted objects with the same names have them in the same places. */
  lemma {:induction false} SameNames(s: seq<Entry>, t: seq<Entry>)
    requires SortedMembers(s) && SortedMembers(t) && forall k :: HasMember(s, k) <==> HasMember(t, k)
    ensures |s| == |t| && forall i :: 0 <= i < |s| ==> s[i].key == t[i].key
  {
    hide KeyLess;
    if s == [] || t == [] {
      assert s != [] ==> HasMember(s, s[0].key);
      assert t != [] ==> HasMember(t, t[0].key);
    } else {
      FirstIsLeast(s, t);
      FirstIsLeast(t, s);
      KeyOrder(s[0].key, t[0].key);
      RestNames(s);
      RestNames(t);
      SameNames(s[1..], t[1..]);
    }
  }

  lemma FirstIsLeast(s: seq<Entry>, t: seq<Entry>)
    requires SortedMembers(s) && s != [] && t != [] && HasMember(s, t[0].key)
    ensures s[0].key == t[0].key || KeyLess(s[0].key, t[0].key)
  {
    var i :| 0 <= i < |s| && s[i].key == t[0].key;
  }

  lemma RestNames(s: seq<Entry>)
    requires SortedMembers(s) && s != []
    ensures SortedMembers(s[1..]) && forall k :: HasMember(s[1..], k) <==> k != s[0].key && HasMember(s, k)
  {
    hide KeyLess;
    MembersOfFirst(s[0], s[1..]);
    assert s == [s[0]] + s[1..];
    forall i | 0 <= i < |s[1..]| ensures s[1..][i].key != s[0].key {
      KeyOrder(s[0].key, s[i + 1].key);
    }
  }

  lemma {:induction false} OneMeaning(w: Value, a: Value, b: Value)
    requires Means(w, a) && Means(w, b)
    ensures a == b
    decreases w
  {
    hide KeyLess;
    if w.Array? {
      forall i | 0 <= i < |w.entries| ensures a.entries[i] == b.entries[i] {
        assert EntryMeans(w.entries[i], a.entries[i].value) && EntryMeans(w.entries[i], b.entries[i].value);
        OneMeaning(w.entries[i].value, a.entries[i].value, b.entries[i].value);
      }
    } else if w.Object? {
      SameNames(a.entries, b.entries);
      forall j | 0 <= j < |a.entries| ensures a.entries[j] == b.entries[j] {
        var k := a.entries[j].key;
        assert HasMember(a.entries, k);
        var i := LastGiven(w.entries, k);
        assert EntryMeans(w.entries[i], a.entries[j].value) && EntryMeans(w.entries[i], b.entries[j].value);
        OneMeaning(w.entries[i].value, a.entries[j].value, b.entries[j].value);
      }
    }
  }

  // ------------------------------------------------------------------
  // Values as they are kept
  // ------------------------------------------------------------------

  /** A printable value is read as itself, small unsigned numbers signed, and names nothing twice. */
  lemma {:induction false} PrintableIsLegible(v: Value, emitUTF8: bool)
    requires Printable(v, emitUTF8)
    ensures Legible(v, emitUTF8) && Distinct(v) && Settled(v) == Normal(v)
    decreases v
  {
    hide KeyLess, WithMember, SettledMembers, Quotable;
    if v.Array? || v.Object? {
      var es := v.entries;
      forall i | 0 <= i < |es|
        ensures LegibleEntry(es[i], emitUTF8) && DistinctEntry(es[i]) && Settled(es[i].value) == Normal(es[i].value)
      {
        assert PrintableEntry(es[i], emitUTF8);
        PrintableIsLegible(es[i].value, emitUTF8);
      }
      if v.Object? {
        SortedIsDistinct(es);
        SortedIsSettled(es);
      } else {
        assert SettledItems(es) == NormalEntries(es);
      }
    }
  }

  lemma SortedIsDistinct(entries: seq<Entry>)
    requires SortedMembers(entries)
    ensures DistinctNames(entries)
  {
    hide KeyLess;
    forall i, j | 0 <= i < j < |entries| ensures entries[i].key != entries[j].key {
      KeyOrder(entries[i].key, entries[j].key);
    }
  }

  lemma {:induction false} SortedIsSettled(entries: seq<Entry>)
    requires SortedMembers(entries)
    requires forall i :: 0 <= i < |entries| ==> Settled(entries[i].value) == Normal(entries[i].value)
    ensures SettledMembers(entries) == NormalEntries(entries)
    decreases |entries|
  {
    hide KeyLess, WithMember, Settled, Normal;
    if entries != [] {
      var n := |entries| - 1;
      SortedIsSettled(entries[..n]);
      var front := NormalEntries(entries[..n]);
      assert AllBefore(front, entries[n].key) by {
        forall i | 0 <= i < n ensures KeyLess(front[i].key, entries[n].key) {
          assert front[i] == NormalEntry(entries[i]);
        }
      }
      LastMember(front, entries[n].key, Normal(entries[n].value));
      assert NormalEntries(entries) == front + [NormalEntry(entries[n])];
    }
  }
}
