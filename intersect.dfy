/**
 * `array_intersect_recursive($array1, $array2)`, with `first` for
 * `$array1` and `second` for `$array2`: the entries of `second` that
 * `first` holds too, compared with `===`; where both sides hold an array,
 * their intersection, kept only when it is not empty.
 */
module Intersect {
  import opened PhpValue

  /**
   * The `foreach ($array2 as $key => $value)` from the current entry on,
   * adding to `result`.
   */
  function IntersectFrom(first: PhpArray, ghost outer: Value, entries: PhpArray, result: PhpArray): PhpArray
    requires forall i :: 0 <= i < |entries| ==> entries[i].1 < outer
    decreases outer, 0, |entries|
  {
    if entries == [] then result
    else IntersectFrom(first, outer, entries[1..], Visit(first, entries[0].0, entries[0].1, result))
  }

  /** The body of the loop for one entry `$key => $value` of `$array2`. */
  function Visit(first: PhpArray, key: string, value: Value, result: PhpArray): PhpArray
    decreases value, 1, 0
  {
    if value.Arr? && IsSet(first, key) && Item(first, key).Arr? then
      var sub := IntersectFrom(Item(first, key).entries, value, value.entries, []);
      if sub != [] then Assign(result, key, Arr(sub)) else result
    else if IsSet(first, key) && Item(first, key) == value then Assign(result, key, value)
    else result
  }

  function Intersection(first: PhpArray, second: PhpArray): PhpArray {
    IntersectFrom(first, Arr(second), second, [])
  }

  /** The function as the source runs it, with its loop and its recursive call. */
  method IntersectRecursive(first: PhpArray, second: PhpArray) returns (result: PhpArray)
    ensures result == Intersection(first, second)
    decreases Arr(second)
  {
    result := [];
    var j := 0;
    while j < |second|
      invariant 0 <= j <= |second|
      invariant Intersection(first, second) == IntersectFrom(first, Arr(second), second[j..], result)
    {
      assert second[j..][0] == second[j] && second[j..][1..] == second[j + 1..];
      var key, value := second[j].0, second[j].1;
      if value.Arr? && IsSet(first, key) && Item(first, key).Arr? {
        assert Arr(value.entries) == value;
        var intersect := IntersectRecursive(Item(first, key).entries, value.entries);
        if intersect != [] {
          result := Assign(result, key, Arr(intersect));
        }
      } else if IsSet(first, key) && Item(first, key) == value {
        result := Assign(result, key, value);
      }
      j := j + 1;
    }
  }

  /**
   * Everything in `v` is in `w`: a scalar is the identical value, an array
   * has each of its keys set in `w` with a value within `w`'s.
   */
  ghost predicate Within(v: Value, w: Value)
    decreases v
  {
    if v.Arr? then
      w.Arr? &&
      forall i :: 0 <= i < |v.entries| ==>
        IsSet(w.entries, v.entries[i].0) && Within(v.entries[i].1, Item(w.entries, v.entries[i].0))
    else v == w
  }

  // ---------------------------------------------------------------------
  // Properties
  // ---------------------------------------------------------------------

  lemma AssignWithin(result: PhpArray, first: PhpArray, key: string, v: Value)
    requires Within(Arr(result), Arr(first))
    requires IsSet(first, key) && Within(v, Item(first, key))
    ensures Within(Arr(Assign(result, key, v)), Arr(first))
  {
    AssignEntries(result, key, v);
    var r := Assign(result, key, v);
    assert forall j :: 0 <= j < |result| ==>
      IsSet(first, result[j].0) && Within(result[j].1, Item(first, result[j].0));
    forall i | 0 <= i < |r|
      ensures IsSet(first, r[i].0) && Within(r[i].1, Item(first, r[i].0))
    {
      if r[i] != (key, v) {
        assert r[i] in result;
        var j :| 0 <= j < |result| && result[j] == r[i];
      }
    }
    assert Within(Arr(r), Arr(first));
  }

  lemma {:induction false} IntersectFromWithin(first: PhpArray, outer: Value, entries: PhpArray, result: PhpArray)
    requires forall i :: 0 <= i < |entries| ==> entries[i].1 < outer
    requires Within(Arr(result), Arr(first))
    ensures Within(Arr(IntersectFrom(first, outer, entries, result)), Arr(first))
    decreases outer, 0, |entries|
  {
    if entries != [] {
      var next := Visit(first, entries[0].0, entries[0].1, result);
      VisitWithin(first, entries[0].0, entries[0].1, result);
      IntersectFromWithin(first, outer, entries[1..], next);
    }
  }

  lemma {:induction false} VisitWithin(first: PhpArray, key: string, value: Value, result: PhpArray)
    requires Within(Arr(result), Arr(first))
    ensures Within(Arr(Visit(first, key, value, result)), Arr(first))
    decreases value, 1, 0
  {
    if value.Arr? && IsSet(first, key) && Item(first, key).Arr? {
      var inner := Item(first, key).entries;
      var sub := IntersectFrom(inner, value, value.entries, []);
      assert Within(Arr([]), Arr(inner));
      IntersectFromWithin(inner, value, value.entries, []);
      assert Item(first, key) == Arr(inner);
      if sub != [] {
        AssignWithin(result, first, key, Arr(sub));
      }
    } else if IsSet(first, key) && Item(first, key) == value {
      AssignWithin(result, first, key, value);
    }
  }

  lemma {:induction false} IntersectFromKeys(first: PhpArray, outer: Value, entries: PhpArray, result: PhpArray)
    requires forall i :: 0 <= i < |entries| ==> entries[i].1 < outer
    ensures forall k :: k in KeysOf(IntersectFrom(first, outer, entries, result)) ==> k in KeysOf(result) || k in KeysOf(entries)
    decreases |entries|
  {
    if entries != [] {
      assert KeysOf(entries) == [entries[0].0] + KeysOf(entries[1..]);
      var key, value := entries[0].0, entries[0].1;
      var next := Visit(first, key, value, result);
      IntersectFromKeys(first, outer, entries[1..], next);
    }
  }

  /**
   * The intersection holds only what both arrays hold: its keys are keys of
   * `second`, and everything in it is in `first` with identical scalars.
   */
  lemma IntersectionSound(first: PhpArray, second: PhpArray)
    ensures Within(Arr(Intersection(first, second)), Arr(first))
    ensures forall k :: k in KeysOf(Intersection(first, second)) ==> k in KeysOf(second)
  {
    IntersectFromWithin(first, Arr(second), second, []);
    IntersectFromKeys(first, Arr(second), second, []);
  }

  lemma {:induction false} IntersectFromKeepsOther(first: PhpArray, outer: Value, entries: PhpArray, result: PhpArray, k: string)
    requires forall i :: 0 <= i < |entries| ==> entries[i].1 < outer
    requires k !in KeysOf(entries)
    ensures Lookup(IntersectFrom(first, outer, entries, result), k) == Lookup(result, k)
    decreases |entries|
  {
    if entries != [] {
      assert KeysOf(entries) == [entries[0].0] + KeysOf(entries[1..]);
      var key, value := entries[0].0, entries[0].1;
      var next := Visit(first, key, value, result);
      IntersectFromKeepsOther(first, outer, entries[1..], next, k);
    }
  }

  lemma {:induction false} IntersectFromFindsScalar(first: PhpArray, outer: Value, entries: PhpArray, result: PhpArray, j: nat)
    requires forall i :: 0 <= i < |entries| ==> entries[i].1 < outer
    requires UniqueKeys(entries) && j < |entries|
    requires !entries[j].1.Arr? && entries[j].1 != Null && Lookup(first, entries[j].0) == Some(entries[j].1)
    ensures Lookup(IntersectFrom(first, outer, entries, result), entries[j].0) == Some(entries[j].1)
    decreases |entries|
  {
    var key, value := entries[0].0, entries[0].1;
    var next := Visit(first, key, value, result);
    assert IntersectFrom(first, outer, entries, result) == IntersectFrom(first, outer, entries[1..], next);
    UniqueTail(entries);
    if j == 0 {
      assert next == Assign(result, key, value);
      IntersectFromKeepsOther(first, outer, entries[1..], next, key);
    } else {
      assert entries[j] == entries[1..][j - 1];
      IntersectFromFindsScalar(first, outer, entries[1..], next, j - 1);
    }
  }

  /**
   * A non-null scalar that both arrays hold, identically, under the same
   * key is in the intersection.
   */
  lemma IntersectionComplete(first: PhpArray, second: PhpArray, j: nat)
    requires UniqueKeys(second) && j < |second|
    requires !second[j].1.Arr? && second[j].1 != Null && Lookup(first, second[j].0) == Some(second[j].1)
    ensures Lookup(Intersection(first, second), second[j].0) == Some(second[j].1)
  {
    IntersectFromFindsScalar(first, Arr(second), second, [], j);
  }

  /**
   * A well-formed array: no key twice, no null value, and every nested
   * array non-empty and well-formed.
   */
  ghost predicate Dense(v: Value)
    decreases v
  {
    v.Arr? ==>
      UniqueKeys(v.entries) &&
      forall i :: 0 <= i < |v.entries| ==>
        v.entries[i].1 != Null && (v.entries[i].1.Arr? ==> v.entries[i].1.entries != [] && Dense(v.entries[i].1))
  }

  /** What well-formedness says about the entry at `j`. */
  lemma DenseEntry(a: PhpArray, j: nat)
    requires Dense(Arr(a)) && j < |a|
    ensures IsSet(a, a[j].0) && Item(a, a[j].0) == a[j].1
    ensures Assign(a[..j], a[j].0, a[j].1) == a[..j + 1]
    ensures a[j].1.Arr? ==> a[j].1.entries != [] && Dense(a[j].1)
  {
    assert UniqueKeys(a) && a[j].1 != Null;
    DenseLookup(a, j);
    UniquePrefix(a, j);
  }

  /** In an array with no key twice, the key at `j` reads the value at `j`. */
  lemma DenseLookup(a: PhpArray, j: nat)
    requires UniqueKeys(a) && j < |a|
    ensures Lookup(a, a[j].0) == Some(a[j].1)
  {
  }

  /** In an array with no key twice, the key at `j` is not among the keys before it. */
  lemma FreshKey(a: PhpArray, j: nat)
    requires UniqueKeys(a) && j < |a|
    ensures a[j].0 !in KeysOf(a[..j])
  {
    var ks := KeysOf(a[..j]);
    forall i | 0 <= i < |ks|
      ensures ks[i] != a[j].0
    {
      assert ks[i] == a[..j][i].0 == a[i].0;
    }
  }

  lemma PrefixSnoc<T>(a: seq<T>, j: nat)
    requires j < |a|
    ensures a[..j] + [a[j]] == a[..j + 1]
  {
  }

  /** In an array with no key twice, assigning the entry at `j` onto the prefix before it appends it. */
  lemma UniquePrefix(a: PhpArray, j: nat)
    requires UniqueKeys(a) && j < |a|
    ensures Assign(a[..j], a[j].0, a[j].1) == a[..j + 1]
  {
    FreshKey(a, j);
    AssignNewKey(a[..j], a[j].0, a[j].1);
    PrefixSnoc(a, j);
  }

  /** One entry of a well-formed array, intersected with the array itself, is kept as it is. */
  lemma SelfVisit(a: PhpArray, j: nat)
    requires Dense(Arr(a)) && j < |a|
    requires a[j].1.Arr? ==> IntersectFrom(a[j].1.entries, a[j].1, a[j].1.entries, []) == a[j].1.entries
    ensures Visit(a, a[j].0, a[j].1, a[..j]) == a[..j + 1]
  {
    DenseEntry(a, j);
    if a[j].1.Arr? {
      assert Arr(a[j].1.entries) == a[j].1;
    }
  }

  lemma {:induction false} SelfIntersectFrom(a: PhpArray, outer: Value, j: nat)
    requires Dense(Arr(a)) && j <= |a|
    requires forall i :: 0 <= i < |a| ==> a[i].1 < outer
    ensures IntersectFrom(a, outer, a[j..], a[..j]) == a
    decreases outer, |a| - j
  {
    if j == |a| {
      assert a[..j] == a;
    } else {
      var value := a[j].1;
      if value.Arr? {
        SelfIntersectFrom(value.entries, value, 0);
        assert value.entries[0..] == value.entries && value.entries[..0] == [];
      }
      assert a[j..][0] == a[j] && a[j..][1..] == a[j + 1..];
      SelfVisit(a, j);
      SelfIntersectFrom(a, outer, j + 1);
    }
  }

  /** Intersecting a well-formed array with itself gives it back unchanged. */
  lemma SelfIntersection(a: PhpArray)
    requires Dense(Arr(a))
    ensures Intersection(a, a) == a
  {
    SelfIntersectFrom(a, Arr(a), 0);
    assert a[0..] == a && a[..0] == [];
  }
}
