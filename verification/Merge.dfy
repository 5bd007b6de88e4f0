/**
 Merging capability tables: `amqp_merge_capabilities` of amqp_socket.c.
 */
module Merge {
  import opened Wrappers
  import opened Octets
  import opened Status
  import opened FieldTable
  import opened TableCodec

  /** `amqp_table_get_entry_by_key`: the first entry with the key, or the length when there is none. */
  function IndexOf(entries: seq<Entry>, key: seq<byte>): (k: nat)
    ensures k <= |entries|
    ensures k < |entries| ==> entries[k].key == key
    ensures forall i :: 0 <= i < k ==> entries[i].key != key
  {
    if entries == [] || entries[0].key == key then 0 else 1 + IndexOf(entries[1..], key)
  }

  method GetEntryByKey(entries: seq<Entry>, key: seq<byte>) returns (k: nat)
    ensures k == IndexOf(entries, key)
  {
    k := 0;
    while k < |entries|
      invariant k <= |entries|
      invariant forall i :: 0 <= i < k ==> entries[i].key != key
    {
      if entries[k].key == key {
        break;
      }
      k := k + 1;
    }
    IndexOfIs(entries, key, k);
  }

  lemma IndexOfIs(entries: seq<Entry>, key: seq<byte>, k: nat)
    requires k <= |entries| && (k < |entries| ==> entries[k].key == key)
    requires forall i :: 0 <= i < k ==> entries[i].key != key
    ensures IndexOf(entries, key) == k
  {
  }

  // ------------------------------------------------------------------
  // What the code does
  // ------------------------------------------------------------------

  /** Merging nothing into nothing fails: a pool gives no memory for no octets. */
  function Merged(base: seq<Entry>, add: seq<Entry>): Result<seq<Entry>, Status>
    decreases add, |add| + 1
  {
    if |base| + |add| == 0 then Err(NoMemory) else
      var entries :- MergedUpTo(base, add, |add|);
      if CloneableTable(entries) then Ok(entries) else Err(InvalidParameter)
  }

  /** The temporary table after `j` entries of `add`. */
  function MergedUpTo(base: seq<Entry>, add: seq<Entry>, j: nat): Result<seq<Entry>, Status>
    requires j <= |add|
    decreases add, j
  {
    if j == 0 then Ok(base) else
      var entries :- MergedUpTo(base, add, j - 1);
      MergedEntry(base, entries, add[j - 1])
  }

  /** One entry merged in. Only a key that `add` holds twice can be in the table but not, as a table, in `base`. */
  function MergedEntry(base: seq<Entry>, entries: seq<Entry>, e: Entry): Result<seq<Entry>, Status>
    decreases e
  {
    var k := IndexOf(entries, e.key);
    if k == |entries| then Ok(entries + [e])
    else if e.value.Table? && entries[k].value.Table? then
      var b := IndexOf(base, e.key);
      if b == |base| || !base[b].value.Table? then Err(Undefined) else
        var nested :- Merged(base[b].value.entries, e.value.entries);
        Ok(entries[k := Entry(e.key, Table(nested))])
    else
      Ok(entries[k := e])
  }

  lemma {:induction false} ErrorStays(base: seq<Entry>, add: seq<Entry>, j: nat)
    requires j <= |add| && MergedUpTo(base, add, j).Err?
    ensures MergedUpTo(base, add, |add|) == MergedUpTo(base, add, j)
    decreases |add| - j
  {
    if j < |add| {
      ErrorStays(base, add, j + 1);
    }
  }

  /** `amqp_merge_capabilities`, both tables given. */
  method MergeCapabilities(base: seq<Entry>, add: seq<Entry>) returns (r: Result<seq<Entry>, Status>)
    ensures r == Merged(base, add)
    decreases add
  {
    hide MergedEntry;
    if |base| + |add| == 0 {
      return Err(NoMemory);
    }
    var entries := new Entry[|base| + |add|];
    var count := 0;
    for i := 0 to |base|
      invariant count == i && entries[..count] == base[..i]
    {
      entries[count] := base[i];
      count := count + 1;
    }
    assert entries[..count] == base;
    for j := 0 to |add|
      invariant 0 <= count <= |base| + j
      invariant MergedUpTo(base, add, j) == Ok(entries[..count])
    {
      assert MergedUpTo(base, add, j + 1) == MergedEntry(base, entries[..count], add[j]);
      var merged := MergeEntry(base, entries, count, add[j]);
      if merged.Err? {
        ErrorStays(base, add, j + 1);
        return Err(merged.error);
      }
      count := merged.value;
    }
    r := CloneTable(entries[..count]);
  }

  /** The body of the second loop: the number of entries, or why merging stops. */
  method MergeEntry(base: seq<Entry>, entries: array<Entry>, count: nat, e: Entry) returns (r: Result<nat, Status>)
    requires count < entries.Length
    modifies entries
    ensures r.Ok? ==> r.value <= count + 1 && r.value <= entries.Length
    ensures MergedEntry(base, old(entries[..count]), e)
         == match r case Ok(n) => Ok(entries[..n]) case Err(error) => Err(error)
    decreases e
  {
    hide Merged, IndexOf;
    ghost var before := entries[..count];
    var k := GetEntryByKey(entries[..count], e.key);
    if k == count {
      entries[count] := e;
      assert entries[..count + 1] == before + [e];
      return Ok(count + 1);
    }
    assert before[k].key == e.key;
    if e.value.Table? && entries[k].value.Table? {
      var b := GetEntryByKey(base, e.key);
      if b == |base| || !base[b].value.Table? {
        return Err(Undefined);
      }
      var nested :- MergeCapabilities(base[b].value.entries, e.value.entries);
      entries[k] := Entry(entries[k].key, Table(nested));
    } else {
      entries[k] := Entry(entries[k].key, e.value);
    }
    assert entries[..count] == before[k := entries[k]];
    r := Ok(count);
  }

  // ------------------------------------------------------------------
  // What the result is
  // ------------------------------------------------------------------

  predicate Has(entries: seq<Entry>, key: seq<byte>) {
    IndexOf(entries, key) < |entries|
  }

  function ValueOf(entries: seq<Entry>, key: seq<byte>): FieldValue
    requires Has(entries, key)
  {
    entries[IndexOf(entries, key)].value
  }

  predicate Distinct(entries: seq<Entry>) {
    forall i, j :: 0 <= i < j < |entries| ==> entries[i].key != entries[j].key
  }

  /** No key twice, in the table or in a table within it. */
  predicate DistinctAtEveryDepth(entries: seq<Entry>)
    decreases entries
  {
    Distinct(entries)
    && forall i :: 0 <= i < |entries| && entries[i].value.Table? ==> DistinctAtEveryDepth(entries[i].value.entries)
  }

  /** Tables are joined, and otherwise the added value wins. */
  function JoinedValue(v: FieldValue, w: FieldValue): FieldValue
    decreases w
  {
    if v.Table? && w.Table? then Table(Joined(v.entries, w.entries)) else w
  }

  function JoinedEntry(b: Entry, add: seq<Entry>): (r: Entry)
    ensures r.key == b.key
    decreases add, 0
  {
    var k := IndexOf(add, b.key);
    if k < |add| then Entry(b.key, JoinedValue(b.value, add[k].value)) else b
  }

  function JoinedFront(base: seq<Entry>, add: seq<Entry>): (r: seq<Entry>)
    ensures |r| == |base|
    ensures forall i :: 0 <= i < |base| ==> r[i] == JoinedEntry(base[i], add)
    decreases add, 1
  {
    seq(|base|, i requires 0 <= i < |base| => JoinedEntry(base[i], add))
  }

  /** The entries of `base` in their order, and then those of `add` whose keys are new in theirs. */
  function Joined(base: seq<Entry>, add: seq<Entry>): seq<Entry>
    decreases add, 2
  {
    JoinedFront(base, add) + NewIn(base, add)
  }

  function NewIn(base: seq<Entry>, add: seq<Entry>): seq<Entry> {
    if add == [] then []
    else NewIn(base, add[..|add| - 1]) + if Has(base, add[|add| - 1].key) then [] else [add[|add| - 1]]
  }

  /** No two tables that have to be merged are both empty. */
  predicate Mergeable(base: seq<Entry>, add: seq<Entry>)
    decreases add
  {
    && |base| + |add| > 0
    && forall i :: 0 <= i < |add| ==> MergeableEntry(base, add[i])
  }

  predicate MergeableEntry(base: seq<Entry>, e: Entry)
    decreases e
  {
    e.value.Table? && Has(base, e.key) && ValueOf(base, e.key).Table?
    ==> Mergeable(ValueOf(base, e.key).entries, e.value.entries)
  }

  lemma IndexOfConcat(a: seq<Entry>, b: seq<Entry>, key: seq<byte>)
    ensures IndexOf(a + b, key) == if Has(a, key) then IndexOf(a, key) else |a| + IndexOf(b, key)
  {
    var k := if Has(a, key) then IndexOf(a, key) else |a| + IndexOf(b, key);
    var s := a + b;
    assert forall i :: 0 <= i < |a| ==> s[i] == a[i];
    assert forall i :: |a| <= i < |s| ==> s[i] == b[i - |a|];
    IndexOfIs(s, key, k);
  }

  lemma IndexOfDistinct(entries: seq<Entry>, k: nat)
    requires Distinct(entries) && k < |entries|
    ensures IndexOf(entries, entries[k].key) == k
  {
  }

  /** New entries have keys of `add` that `base` does not have. */
  lemma {:induction false} NewInHas(base: seq<Entry>, add: seq<Entry>, key: seq<byte>)
    ensures Has(NewIn(base, add), key) <==> Has(add, key) && !Has(base, key)
    ensures Has(NewIn(base, add), key) ==> ValueOf(NewIn(base, add), key) == ValueOf(add, key)
    decreases |add|
  {
    if add != [] {
      var rest, last := add[..|add| - 1], add[|add| - 1];
      NewInHas(base, rest, key);
      assert add == rest + [last];
      IndexOfConcat(rest, [last], key);
      IndexOfConcat(NewIn(base, rest), if Has(base, last.key) then [] else [last], key);
    }
  }

  /** The first entries are those of `base`. */
  lemma JoinedKeys(base: seq<Entry>, add: seq<Entry>, key: seq<byte>)
    ensures IndexOf(Joined(base, add), key)
         == if Has(base, key) then IndexOf(base, key) else |base| + IndexOf(NewIn(base, add), key)
  {
    hide JoinedEntry, JoinedFront, NewIn, IndexOf;
    IndexOfConcat(JoinedFront(base, add), NewIn(base, add), key);
    SameKeysSameIndex(JoinedFront(base, add), base, key);
  }

  lemma {:induction false} SameKeysSameIndex(a: seq<Entry>, b: seq<Entry>, key: seq<byte>)
    requires |a| == |b| && forall i :: 0 <= i < |a| ==> a[i].key == b[i].key
    ensures IndexOf(a, key) == IndexOf(b, key)
  {
    IndexOfIs(a, key, IndexOf(b, key));
  }

  lemma JoinedOneMore(base: seq<Entry>, add: seq<Entry>, e: Entry)
    requires Distinct(base) && !Has(add, e.key)
    ensures var b, now := IndexOf(base, e.key), Joined(base, add);
            && IndexOf(now, e.key) == (if b < |base| then b else |now|)
            && (b < |base| ==> b < |now| && now[b] == base[b])
            && Joined(base, add + [e])
               == if b < |base| then now[b := Entry(e.key, JoinedValue(base[b].value, e.value))] else now + [e]
  {
    hide JoinedFront, JoinedEntry, JoinedValue, IndexOf, NewIn;
    var b, front, more := IndexOf(base, e.key), JoinedFront(base, add), JoinedFront(base, add + [e]);
    JoinedKeys(base, add, e.key);
    NewInHas(base, add, e.key);
    NewInOneMore(base, add, e);
    forall i | 0 <= i < |base| ensures more[i] == if i == b then Entry(e.key, JoinedValue(base[b].value, e.value))
           else front[i] {
      IndexOfDistinct(base, i);
      JoinedEntryOneMore(base[i], add, e);
    }
    if b < |base| {
      JoinedEntryOneMore(base[b], add, e);
      assert more == front[b := Entry(e.key, JoinedValue(base[b].value, e.value))];
      assert NewIn(base, add + [e]) == NewIn(base, add);
    } else {
      assert more == front;
      assert front + (NewIn(base, add) + [e]) == (front + NewIn(base, add)) + [e];
    }
  }

  lemma NewInOneMore(base: seq<Entry>, add: seq<Entry>, e: Entry)
    ensures NewIn(base, add + [e]) == NewIn(base, add) + if Has(base, e.key) then [] else [e]
  {
    assert (add + [e])[..|add|] == add;
  }

  lemma JoinedEntryOneMore(b: Entry, add: seq<Entry>, e: Entry)
    requires !Has(add, e.key)
    ensures JoinedEntry(b, add + [e])
         == if b.key == e.key then Entry(e.key, JoinedValue(b.value, e.value)) else JoinedEntry(b, add)
    ensures b.key == e.key ==> JoinedEntry(b, add) == b
  {
    hide JoinedValue;
    IndexOfConcat(add, [e], b.key);
  }

  /** On tables that can be cloned and hold no key twice, merging is joining, and fails only for want of entries. */
  lemma {:induction false} MergedIsJoined(base: seq<Entry>, add: seq<Entry>)
    requires CloneableTable(base) && CloneableTable(add) && DistinctAtEveryDepth(base) && DistinctAtEveryDepth(add)
    ensures Merged(base, add) == if Mergeable(base, add) then Ok(Joined(base, add)) else Err(NoMemory)
    decreases add, |add| + 1
  {
    if |base| + |add| > 0 {
      hide MergedUpTo, Joined, MergeableEntry;
      MergedUpToIsJoined(base, add, |add|);
      assert add[..|add|] == add;
      JoinedCloneable(base, add);
    }
  }

  lemma {:induction false} MergedUpToIsJoined(base: seq<Entry>, add: seq<Entry>, j: nat)
    requires CloneableTable(base) && CloneableTable(add) && DistinctAtEveryDepth(base) && DistinctAtEveryDepth(add)
    requires j <= |add|
    ensures MergedUpTo(base, add, j)
         == if AllMergeable(base, add, j) then Ok(Joined(base, add[..j])) else Err(NoMemory)
    decreases add, j
  {
    hide MergeableEntry, MergedEntry, Joined, CloneableTable, DistinctAtEveryDepth;
    if j == 0 {
      NothingJoined(base);
    } else {
      MergedUpToIsJoined(base, add, j - 1);
      assert AllMergeable(base, add, j) <==> AllMergeable(base, add, j - 1) && MergeableEntry(base, add[j - 1]);
      assert add[..j] == add[..j - 1] + [add[j - 1]];
      NotYet(add, j - 1);
      MergedEntryIsJoined(base, add, j - 1);
    }
  }

  predicate AllMergeable(base: seq<Entry>, add: seq<Entry>, j: nat)
    requires j <= |add|
  {
    forall i :: 0 <= i < j ==> MergeableEntry(base, add[i])
  }

  lemma NothingJoined(base: seq<Entry>)
    ensures Joined(base, []) == base
  {
  }

  lemma {:induction false} MergedEntryIsJoined(base: seq<Entry>, add: seq<Entry>, j: nat)
    requires CloneableTable(base) && CloneableTable(add) && DistinctAtEveryDepth(base) && DistinctAtEveryDepth(add)
    requires j < |add| && !Has(add[..j], add[j].key)
    ensures MergedEntry(base, Joined(base, add[..j]), add[j])
         == if MergeableEntry(base, add[j]) then Ok(Joined(base, add[..j] + [add[j]])) else Err(NoMemory)
    decreases add, j
  {
    hide Joined, IndexOf;
    var e := add[j];
    JoinedOneMore(base, add[..j], e);
    var b := IndexOf(base, e.key);
    if b < |base| && e.value.Table? && base[b].value.Table? {
      NestedIsSound(base, b);
      NestedIsSound(add, j);
      MergedIsJoined(base[b].value.entries, e.value.entries);
      assert MergedEntry(base, Joined(base, add[..j]), e)
          == if Mergeable(base[b].value.entries, e.value.entries)
             then Ok(Joined(base, add[..j])[b := Entry(e.key, Table(Joined(base[b].value.entries, e.value.entries)))])
             else Err(NoMemory);
      assert MergeableEntry(base, e) <==> Mergeable(base[b].value.entries, e.value.entries);
    } else {
      assert MergeableEntry(base, e);
    }
  }

  lemma NestedIsSound(entries: seq<Entry>, i: nat)
    requires i < |entries| && entries[i].value.Table?
    ensures CloneableTable(entries) ==> CloneableTable(entries[i].value.entries)
    ensures DistinctAtEveryDepth(entries) ==> DistinctAtEveryDepth(entries[i].value.entries)
  {
    if CloneableTable(entries) {
      assert CloneableEntry(entries[i]);
      assert Cloneable(entries[i].value);
    }
  }

  lemma NotYet(add: seq<Entry>, j: nat)
    requires DistinctAtEveryDepth(add) && j < |add|
    ensures !Has(add[..j], add[j].key)
  {
  }

  lemma {:induction false} JoinedCloneable(base: seq<Entry>, add: seq<Entry>)
    requires CloneableTable(base) && CloneableTable(add)
    ensures CloneableTable(Joined(base, add))
    decreases add
  {
    hide NewIn;
    var front := JoinedFront(base, add);
    forall i | 0 <= i < |base| ensures CloneableEntry(front[i]) {
      assert CloneableEntry(base[i]);
      var k := IndexOf(add, base[i].key);
      if k < |add| {
        assert CloneableEntry(add[k]) && Cloneable(add[k].value) && Cloneable(base[i].value);
        if base[i].value.Table? && add[k].value.Table? {
          NestedIsSound(base, i);
          NestedIsSound(add, k);
          JoinedCloneable(base[i].value.entries, add[k].value.entries);
          assert Cloneable(Table(Joined(base[i].value.entries, add[k].value.entries)));
        }
        assert front[i] == Entry(base[i].key, JoinedValue(base[i].value, add[k].value));
        assert Cloneable(front[i].value);
      } else {
        assert front[i] == base[i];
      }
    }
    NewInCloneable(base, add);
  }

  lemma {:induction false} NewInCloneable(base: seq<Entry>, add: seq<Entry>)
    requires CloneableTable(add)
    ensures CloneableTable(NewIn(base, add))
    decreases |add|
  {
    if add != [] {
      NewInCloneable(base, add[..|add| - 1]);
    }
  }

  /** What the merged table holds for a key: tables joined, otherwise what was added, otherwise what was there. */
  lemma JoinedLookup(base: seq<Entry>, add: seq<Entry>, key: seq<byte>)
    ensures Has(Joined(base, add), key) <==> Has(base, key) || Has(add, key)
    ensures Has(base, key) ==>
              && IndexOf(Joined(base, add), key) == IndexOf(base, key)
              && ValueOf(Joined(base, add), key)
                 == if Has(add, key) then JoinedValue(ValueOf(base, key), ValueOf(add, key)) else ValueOf(base, key)
    ensures !Has(base, key) && Has(add, key) ==>
              IndexOf(Joined(base, add), key) >= |base| && ValueOf(Joined(base, add), key) == ValueOf(add, key)
  {
    hide NewIn, JoinedValue, IndexOf;
    JoinedKeys(base, add, key);
    NewInHas(base, add, key);
    var k := IndexOf(base, key);
    if k < |base| {
      assert Joined(base, add)[k] == JoinedEntry(base[k], add);
    }
  }

  // ------------------------------------------------------------------
  // Merging again
  // ------------------------------------------------------------------

  predicate NoEmptyTable(entries: seq<Entry>)
    decreases entries
  {
    entries != [] && forall i :: 0 <= i < |entries| && entries[i].value.Table? ==>
      NoEmptyTable(entries[i].value.entries)
  }

  /** No table of `b` that was taken over as it is holds an empty table or is one. */
  predicate CanMergeAgain(a: seq<Entry>, b: seq<Entry>)
    decreases b
  {
    forall i :: 0 <= i < |b| ==> CanMergeEntryAgain(a, b[i])
  }

  predicate CanMergeEntryAgain(a: seq<Entry>, e: Entry)
    decreases e
  {
    e.value.Table? ==>
      if Has(a, e.key) && ValueOf(a, e.key).Table? then CanMergeAgain(ValueOf(a, e.key).entries, e.value.entries)
      else NoEmptyTable(e.value.entries)
  }

  lemma {:induction false} NothingNew(base: seq<Entry>, add: seq<Entry>)
    requires forall e :: e in add ==> Has(base, e.key)
    ensures NewIn(base, add) == []
    decreases |add|
  {
    if add != [] {
      NothingNew(base, add[..|add| - 1]);
    }
  }

  lemma {:induction false} NewIsAdded(base: seq<Entry>, add: seq<Entry>)
    ensures forall e :: e in NewIn(base, add) ==> e in add
    decreases |add|
  {
    if add != [] {
      NewIsAdded(base, add[..|add| - 1]);
    }
  }

  lemma {:induction false} JoinedWithItself(t: seq<Entry>)
    requires DistinctAtEveryDepth(t)
    ensures Joined(t, t) == t
    decreases t
  {
    hide NewIn, IndexOf;
    var front := JoinedFront(t, t);
    forall i | 0 <= i < |t| ensures front[i] == t[i] {
      IndexOfDistinct(t, i);
      assert front[i] == Entry(t[i].key, JoinedValue(t[i].value, t[i].value));
      if t[i].value.Table? {
        JoinedWithItself(t[i].value.entries);
        assert JoinedValue(t[i].value, t[i].value) == Table(Joined(t[i].value.entries, t[i].value.entries));
      }
    }
    NothingNew(t, t) by {
      forall e | e in t ensures Has(t, e.key) {
        var i :| 0 <= i < |t| && t[i] == e;
        IndexOfDistinct(t, i);
      }
    }
  }

  lemma {:induction false} MergeableWithItself(t: seq<Entry>)
    requires DistinctAtEveryDepth(t)
    ensures Mergeable(t, t) <==> NoEmptyTable(t)
    decreases t
  {
    hide IndexOf;
    forall i | 0 <= i < |t|
      ensures MergeableEntry(t, t[i]) <==> (t[i].value.Table? ==> NoEmptyTable(t[i].value.entries))
    {
      IndexOfDistinct(t, i);
      if t[i].value.Table? {
        MergeableWithItself(t[i].value.entries);
      }
    }
  }

  /** Merging a table with itself gives it back if and only if no table in it is empty. */
  lemma MergedWithItself(t: seq<Entry>)
    requires CloneableTable(t) && DistinctAtEveryDepth(t)
    ensures Merged(t, t) == if NoEmptyTable(t) then Ok(t) else Err(NoMemory)
  {
    hide Merged, Mergeable, Joined, NoEmptyTable;
    MergedIsJoined(t, t);
    JoinedWithItself(t);
    MergeableWithItself(t);
  }

  lemma JoinedValueAgain(v: FieldValue, w: FieldValue)
    requires v.Table? ==> DistinctAtEveryDepth(v.entries)
    requires w.Table? ==> DistinctAtEveryDepth(w.entries)
    ensures JoinedValue(JoinedValue(v, w), w) == JoinedValue(v, w)
    decreases w, 1
  {
    if w.Table? {
      if v.Table? {
        JoinedAgain(v.entries, w.entries);
      } else {
        JoinedWithItself(w.entries);
      }
    }
  }

  lemma {:induction false} JoinedAgain(a: seq<Entry>, b: seq<Entry>)
    requires DistinctAtEveryDepth(a) && DistinctAtEveryDepth(b)
    ensures Joined(Joined(a, b), b) == Joined(a, b)
    decreases b
  {
    hide NewIn, IndexOf, JoinedValue;
    var m := Joined(a, b);
    var front := JoinedFront(m, b);
    forall i | 0 <= i < |m| ensures front[i] == m[i] {
      if i < |a| {
        var k := IndexOf(b, a[i].key);
        assert m[i] == JoinedEntry(a[i], b);
        if k < |b| {
          JoinedValueAgain(a[i].value, b[k].value);
        }
      } else {
        NewIsAdded(a, b);
        assert m[i] in NewIn(a, b);
        var k :| 0 <= k < |b| && b[k] == m[i];
        IndexOfDistinct(b, k);
        JoinedValueOfItself(b[k].value);
      }
    }
    NothingNew(m, b) by {
      forall e | e in b ensures Has(m, e.key) {
        var i :| 0 <= i < |b| && b[i] == e;
        IndexOfDistinct(b, i);
        JoinedLookup(a, b, e.key);
      }
    }
  }

  lemma JoinedValueOfItself(w: FieldValue)
    requires w.Table? ==> DistinctAtEveryDepth(w.entries)
    ensures JoinedValue(w, w) == w
    decreases w, 0
  {
    if w.Table? {
      JoinedWithItself(w.entries);
    }
  }

  lemma {:induction false} MergeableAgain(a: seq<Entry>, b: seq<Entry>)
    requires DistinctAtEveryDepth(a) && DistinctAtEveryDepth(b) && Mergeable(a, b)
    ensures Mergeable(Joined(a, b), b) <==> CanMergeAgain(a, b)
    decreases b
  {
    hide NewIn, IndexOf, Joined;
    var m := Joined(a, b);
    assert |m| + |b| > 0 by {
      JoinedIsNoSmaller(a, b);
    }
    forall i | 0 <= i < |b| ensures MergeableEntry(m, b[i]) <==> CanMergeEntryAgain(a, b[i]) {
      var e := b[i];
      JoinedLookup(a, b, e.key);
      IndexOfDistinct(b, i);
      if e.value.Table? {
        if Has(a, e.key) && ValueOf(a, e.key).Table? {
          assert MergeableEntry(a, e);
          NestedIsSound(a, IndexOf(a, e.key));
          MergeableAgain(ValueOf(a, e.key).entries, e.value.entries);
        } else {
          MergeableWithItself(e.value.entries);
        }
      }
    }
  }

  lemma JoinedIsNoSmaller(a: seq<Entry>, b: seq<Entry>)
    ensures |Joined(a, b)| >= |a|
  {
  }

  lemma {:induction false} JoinedDistinct(a: seq<Entry>, b: seq<Entry>)
    requires DistinctAtEveryDepth(a) && DistinctAtEveryDepth(b)
    ensures DistinctAtEveryDepth(Joined(a, b))
    decreases b
  {
    hide NewIn, IndexOf;
    var m := Joined(a, b);
    forall i | 0 <= i < |m| && m[i].value.Table? ensures DistinctAtEveryDepth(m[i].value.entries) {
      if i < |a| {
        assert m[i] == JoinedEntry(a[i], b);
        var k := IndexOf(b, a[i].key);
        if k < |b| && a[i].value.Table? && b[k].value.Table? {
          JoinedDistinct(a[i].value.entries, b[k].value.entries);
        }
      } else {
        NewIsAdded(a, b);
        assert m[i] in NewIn(a, b);
      }
    }
    JoinedKeysDistinct(a, b);
  }

  lemma JoinedKeysDistinct(a: seq<Entry>, b: seq<Entry>)
    requires Distinct(a) && Distinct(b)
    ensures Distinct(Joined(a, b))
  {
    NewInDistinct(a, b);
    var m := Joined(a, b);
    forall i, j | 0 <= i < j < |m| ensures m[i].key != m[j].key {
      if i < |a| && |a| <= j {
        assert m[j] == NewIn(a, b)[j - |a|];
        IndexOfDistinct(a, i);
        NewInHas(a, b, m[j].key);
        IndexOfDistinct(NewIn(a, b), j - |a|);
      }
    }
  }

  lemma {:induction false} NewInDistinct(a: seq<Entry>, b: seq<Entry>)
    requires Distinct(b)
    ensures Distinct(NewIn(a, b))
    decreases |b|
  {
    if b != [] {
      NewInDistinct(a, b[..|b| - 1]);
      NewIsAdded(a, b[..|b| - 1]);
      forall e | e in NewIn(a, b[..|b| - 1]) ensures e.key != b[|b| - 1].key {
        var k :| 0 <= k < |b| - 1 && b[k] == e;
      }
    }
  }

  /**
   Merging the same table in a second time changes nothing if and only if no table
   that was taken over as it is holds an empty table or is one; otherwise it fails.
   */
  lemma MergedAgain(a: seq<Entry>, b: seq<Entry>)
    requires CloneableTable(a) && CloneableTable(b) && DistinctAtEveryDepth(a) && DistinctAtEveryDepth(b)
    requires Merged(a, b).Ok?
    ensures var m := Merged(a, b).value;
            Merged(m, b) == if CanMergeAgain(a, b) then Ok(m) else Err(NoMemory)
  {
    hide Merged, Mergeable, Joined, CanMergeAgain, CloneableTable, DistinctAtEveryDepth;
    MergedIsJoined(a, b);
    JoinedCloneable(a, b);
    JoinedDistinct(a, b);
    MergedIsJoined(Joined(a, b), b);
    JoinedAgain(a, b);
    MergeableAgain(a, b);
  }

  /** The smallest table that merging with itself loses. */
  lemma MergingAnEmptyTableFails(key: seq<byte>)
    requires key != []
    ensures Merged([Entry(key, Table([]))], [Entry(key, Table([]))]) == Err(NoMemory)
  {
    var t := [Entry(key, Table([]))];
    assert CloneableEntry(t[0]);
    assert DistinctAtEveryDepth([]);
    MergedWithItself(t);
    assert !NoEmptyTable(t[0].value.entries);
  }
}
