/**
 Arrays of jsoncpp's json_value.cpp, kept as maps from index to value: on a map
 without gaps the operations are those of a sequence, and leave no gaps.
 */
module JsonArray {
  import opened Wrappers
  import opened JsonValue

  /** One more than the largest `ArrayIndex`. */
  const INDEX_END := 0x1_0000_0000

  /** The map of an array without gaps. */
  function Dense(s: seq<Value>): (m: map<nat, Value>)
    ensures forall k :: k in m <==> 0 <= k < |s|
  {
    map k: nat | k < |s| :: s[k]
  }

  lemma DenseUpdated(s: seq<Value>, k: nat, v: Value)
    requires k <= |s|
    ensures Dense(s)[k := v] == if k < |s| then Dense(s[k := v]) else Dense(s + [v])
  {
  }

  lemma DenseShortened(s: seq<Value>)
    requires s != []
    ensures Dense(s) - {|s| - 1} == Dense(s[..|s| - 1])
  {
  }

  lemma {:induction false} LargestExists(keys: set<nat>)
    requires keys != {}
    ensures exists k :: k in keys && forall j :: j in keys ==> j <= k
    decreases |keys|
  {
    var k :| k in keys;
    if keys != {k} {
      assert keys - {k} != {};
      LargestExists(keys - {k});
      var l :| l in keys - {k} && forall j :: j in keys - {k} ==> j <= l;
      assert forall j :: j in keys ==> j == k || j in keys - {k};
    }
  }

  /** The key of the last node of the map. */
  function LastKey(m: map<nat, Value>): (k: nat)
    requires m != map[]
    ensures k in m && forall j :: j in m ==> j <= k
  {
    LargestExists(m.Keys);
    var k :| k in m && forall j :: j in m ==> j <= k;
    k
  }

  /** `Value::size` of an array: the highest index + 1, as an `ArrayIndex`. */
  function Size(m: map<nat, Value>): nat {
    if m == map[] then 0 else (LastKey(m) + 1) % INDEX_END
  }

  /** The size is the number of elements unless these are as many as there are indices. */
  lemma SizeOfDense(s: seq<Value>)
    requires |s| <= INDEX_END
    ensures Size(Dense(s)) == |s| <==> |s| < INDEX_END
  {
    if s != [] {
      assert |s| - 1 in Dense(s);
      assert LastKey(Dense(s)) == |s| - 1;
    } else {
      assert Dense(s) == map[];
    }
  }

  function Resized(s: seq<Value>, n: nat): (r: seq<Value>)
    ensures |r| == n
  {
    if n <= |s| then s[..n] else s + seq(n - |s|, _ => Null)
  }

  /** A null slot in front of the `i`-th element. */
  function Opened(c: seq<Value>, i: nat): seq<Value>
    requires i <= |c|
  {
    c[..i] + [Null] + c[i..]
  }

  lemma OpenedMoves(c: seq<Value>, i: nat)
    requires 0 < i <= |c|
    ensures var s := Opened(c, i); Opened(c, i - 1) == s[i := s[i - 1]][i - 1 := s[i]]
  {
  }

  lemma OpenedAtEnd(c: seq<Value>)
    ensures Opened(c, |c|) == c + [Null]
  {
  }

  lemma OpenedSlot(c: seq<Value>, i: nat)
    requires i <= |c|
    ensures |Opened(c, i)| == |c| + 1 && Opened(c, i)[i] == Null
    ensures i > 0 ==> Opened(c, i)[i - 1] == c[i - 1]
  {
  }

  lemma OpenedFilled(c: seq<Value>, i: nat, v: Value)
    requires i <= |c|
    ensures Opened(c, i)[i := v] == c[..i] + [v] + c[i..]
  {
  }

  /** The elements behind the `index`-th, up to the `i`-th, each moved one to the left. */
  function Shifted(c: seq<Value>, index: nat, i: nat): seq<Value>
    requires index <= i < |c|
  {
    c[..index] + c[index + 1..i + 1] + c[i..]
  }

  lemma ShiftedOneMore(c: seq<Value>, index: nat, i: nat)
    requires index <= i < |c| - 1
    ensures var s := Shifted(c, index, i);
            |s| == |c| && s[i + 1] == c[i + 1] && Shifted(c, index, i + 1) == s[i := c[i + 1]]
  {
  }

  lemma ShiftedEnds(c: seq<Value>, index: nat)
    requires index < |c|
    ensures Shifted(c, index, index) == c
    ensures var s := Shifted(c, index, |c| - 1); |s| == |c| && s[..|c| - 1] == c[..index] + c[index + 1..]
  {
  }

  class ArrayValue {
    /** The null value becomes an array by its first change. */
    var isArray: bool
    var items: map<nat, Value>
    ghost var contents: seq<Value>

    ghost predicate Valid()
      reads this
    {
      items == Dense(contents) && |contents| < INDEX_END && (!isArray ==> contents == [])
    }

    constructor ()
      ensures Valid() && contents == [] && !isArray
    {
      isArray, items, contents := false, map[], [];
    }

    method BecomeArray()
      modifies this`isArray
      ensures isArray
    {
      if !isArray {
        isArray := true;
      }
    }

    /** `operator[](ArrayIndex)`: a missing element is inserted as null, whether or not that leaves a gap. */
    method At(index: nat) returns (value: Value)
      modifies this`isArray, this`items
      ensures items == if index in old(items) then old(items) else old(items)[index := Null]
      ensures isArray && value == items[index]
    {
      BecomeArray();
      if index !in items {
        items := items[index := Null];
      }
      value := items[index];
    }

    /** No gap arises exactly when the index is at most one behind the last. */
    lemma AtKeepsDenseExactly(index: nat)
      requires Valid() && index < INDEX_END
      ensures (if index in items then items else items[index := Null])
           == Dense(if index < |contents| then contents else contents + [Null])
         <==> index <= |contents|
    {
      if index <= |contents| {
        DenseUpdated(contents, index, Null);
      } else {
        assert index in items[index := Null] && |contents| !in items[index := Null];
      }
    }

    /** `resize` */
    method Resize(newSize: nat)
      requires Valid() && newSize < INDEX_END
      modifies this
      ensures Valid() && isArray && contents == Resized(old(contents), newSize)
    {
      SizeOfDense(contents);
      BecomeArray();
      var oldSize := Size(items);
      if newSize == 0 {
        items, contents := map[], [];
      } else if newSize > oldSize {
        for i := oldSize to newSize
          invariant Valid() && isArray && contents == Resized(old(contents), i)
        {
          DenseUpdated(contents, i, Null);
          var _ := At(i);
          contents := contents + [Null];
        }
      } else {
        Erase(newSize, oldSize);
      }
    }

    /** The loop of `resize` that drops the last elements, from the first of them on. */
    method Erase(newSize: nat, oldSize: nat)
      requires Valid() && isArray && newSize <= oldSize == |contents|
      modifies this
      ensures Valid() && isArray && contents == old(contents)[..newSize]
    {
      for index := newSize to oldSize
        invariant isArray && contents == old(contents)
        invariant items == map k: nat | k < |contents| && (k < newSize || index <= k) :: contents[k]
      {
        items := items - {index};
      }
      contents := contents[..newSize];
    }

    /** `append` */
    method Append(value: Value)
      requires Valid() && |contents| + 1 < INDEX_END
      modifies this
      ensures Valid() && isArray && contents == old(contents) + [value]
    {
      SizeOfDense(contents);
      DenseUpdated(contents, |contents|, value);
      BecomeArray();
      items := items[Size(items) := value];
      contents := contents + [value];
    }

    /** `(*this)[i]`, where at most the slot behind the last is missing. */
    method AtDense(i: nat, ghost s: seq<Value>) returns (value: Value)
      requires items == Dense(s) && i <= |s|
      modifies this`isArray, this`items
      ensures isArray && items == Dense(if i < |s| then s else s + [Null])
      ensures value == if i < |s| then s[i] else Null
    {
      DenseUpdated(s, i, Null);
      value := At(i);
    }

    method Assign(i: nat, v: Value, ghost s: seq<Value>)
      requires items == Dense(s) && i < |s|
      modifies this`items
      ensures items == Dense(s[i := v])
    {
      DenseUpdated(s, i, v);
      items := items[i := v];
    }

    /** `insert`: assignment from a moved value exchanges the two, so that a null moves down to the place. */
    method Insert(index: nat, value: Value) returns (ok: bool)
      requires Valid() && |contents| + 1 < INDEX_END
      modifies this
      ensures Valid() && ok == (index <= |old(contents)|)
      ensures contents == if ok then old(contents)[..index] + [value] + old(contents)[index..] else old(contents)
    {
      hide Dense, Size, Opened;
      SizeOfDense(contents);
      var length := Size(items);
      if index > length {
        return false;
      }
      ghost var c := contents;
      OpenedAtEnd(c);
      var i := length;
      while i > index
        invariant index <= i <= length && contents == c
        invariant items == Dense(if i == length then c else Opened(c, i))
      {
        ghost var open := Opened(c, i);
        OpenedMoves(c, i);
        OpenedSlot(c, i);
        var upper := AtDense(i, if i == length then c else open);
        var lower := AtDense(i - 1, open);
        Assign(i, lower, open);
        Assign(i - 1, upper, open[i := lower]);
        i := i - 1;
      }
      OpenedSlot(c, index);
      OpenedFilled(c, index, value);
      var _ := AtDense(index, if index == length then c else Opened(c, index));
      Assign(index, value, Opened(c, index));
      contents := c[..index] + [value] + c[index..];
      ok := true;
    }

    /** `removeIndex` */
    method RemoveIndex(index: nat) returns (removed: Option<Value>)
      requires Valid()
      modifies this
      ensures Valid()
      ensures removed == if index < |old(contents)| then Some(old(contents)[index]) else None
      ensures contents == if removed.Some? then old(contents)[..index] + old(contents)[index + 1..] else old(contents)
    {
      hide Size, Shifted;
      if !isArray {
        return None;
      }
      if index !in items {
        return None;
      }
      SizeOfDense(contents);
      removed := Some(items[index]);
      var oldSize := Size(items);
      ghost var c := contents;
      ShiftedEnds(c, index);
      CloseGap(index, oldSize);
      DenseShortened(Shifted(c, index, oldSize - 1));
      items := items - {oldSize - 1};
      contents := c[..index] + c[index + 1..];
    }

    /** The loop that moves the elements behind the removed one. */
    method CloseGap(index: nat, oldSize: nat)
      requires items == Dense(contents) && index < |contents| == oldSize
      modifies this`isArray, this`items
      ensures old(isArray) ==> isArray
      ensures items == Dense(Shifted(contents, index, oldSize - 1))
    {
      hide Dense, Shifted;
      ShiftedEnds(contents, index);
      var i := index;
      while i < oldSize - 1
        invariant index <= i < oldSize && (old(isArray) ==> isArray)
        invariant items == Dense(Shifted(contents, index, i))
      {
        ghost var s := Shifted(contents, index, i);
        ShiftedOneMore(contents, index, i);
        var next := AtDense(i + 1, s);
        Assign(i, next, s);
        i := i + 1;
      }
    }
  }
}
