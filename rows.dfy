/**
 * The row-level meaning of `get_row`, `remove_row` and `update_row`: which
 * rows a conditions value selects, which it leaves, and how a matching row
 * is patched with `$newValues`.
 */
module Rows {
  import opened PhpValue
  import opened Conditions

  /** The rows the conditions match, in their original order. */
  function Select(cmp: Comparator, rows: seq<PhpArray>, conditions: Value): (r: seq<PhpArray>)
    ensures |r| <= |rows|
    ensures forall x :: x in r <==> x in rows && Matches(cmp, x, conditions)
  {
    if rows == [] then []
    else (if Matches(cmp, rows[0], conditions) then [rows[0]] else []) + Select(cmp, rows[1..], conditions)
  }

  /** The rows the conditions do not match, in their original order. */
  function Reject(cmp: Comparator, rows: seq<PhpArray>, conditions: Value): (r: seq<PhpArray>)
    ensures |r| <= |rows|
    ensures forall x :: x in r <==> x in rows && !Matches(cmp, x, conditions)
  {
    if rows == [] then []
    else (if Matches(cmp, rows[0], conditions) then [] else [rows[0]]) + Reject(cmp, rows[1..], conditions)
  }

  /** The head of `a` goes to the same side in `a + b` as in `a`. */
  lemma SelectAppendStep(cmp: Comparator, a: seq<PhpArray>, b: seq<PhpArray>, conditions: Value)
    requires a != []
    requires Select(cmp, a[1..] + b, conditions) == Select(cmp, a[1..], conditions) + Select(cmp, b, conditions)
    ensures Select(cmp, a + b, conditions) == Select(cmp, a, conditions) + Select(cmp, b, conditions)
  {
    AppendTail(a, b);
    var head := if Matches(cmp, a[0], conditions) then [a[0]] else [];
    Assoc(head, Select(cmp, a[1..], conditions), Select(cmp, b, conditions));
  }

  /** Selection keeps relative order: it distributes over concatenation. */
  lemma {:induction false} SelectAppend(cmp: Comparator, a: seq<PhpArray>, b: seq<PhpArray>, conditions: Value)
    ensures Select(cmp, a + b, conditions) == Select(cmp, a, conditions) + Select(cmp, b, conditions)
  {
    if a != [] {
      SelectAppend(cmp, a[1..], b, conditions);
      SelectAppendStep(cmp, a, b, conditions);
    } else {
      assert a + b == b;
      assert Select(cmp, a, conditions) == [];
      assert [] + Select(cmp, b, conditions) == Select(cmp, b, conditions);
    }
  }

  /** The head of `a` goes to the same side in `a + b` as in `a`. */
  lemma RejectAppendStep(cmp: Comparator, a: seq<PhpArray>, b: seq<PhpArray>, conditions: Value)
    requires a != []
    requires Reject(cmp, a[1..] + b, conditions) == Reject(cmp, a[1..], conditions) + Reject(cmp, b, conditions)
    ensures Reject(cmp, a + b, conditions) == Reject(cmp, a, conditions) + Reject(cmp, b, conditions)
  {
    AppendTail(a, b);
    var head := if Matches(cmp, a[0], conditions) then [] else [a[0]];
    Assoc(head, Reject(cmp, a[1..], conditions), Reject(cmp, b, conditions));
  }

  /** So does rejection. */
  lemma {:induction false} RejectAppend(cmp: Comparator, a: seq<PhpArray>, b: seq<PhpArray>, conditions: Value)
    ensures Reject(cmp, a + b, conditions) == Reject(cmp, a, conditions) + Reject(cmp, b, conditions)
  {
    if a != [] {
      RejectAppend(cmp, a[1..], b, conditions);
      RejectAppendStep(cmp, a, b, conditions);
    } else {
      assert a + b == b;
      assert Reject(cmp, a, conditions) == [];
      assert [] + Reject(cmp, b, conditions) == Reject(cmp, b, conditions);
    }
  }

  /** One step of a loop that keeps the matching rows of a prefix. */
  lemma SelectStep(cmp: Comparator, rows: seq<PhpArray>, i: nat, conditions: Value)
    requires i < |rows|
    ensures Select(cmp, rows[..i + 1], conditions)
            == Select(cmp, rows[..i], conditions) + (if Matches(cmp, rows[i], conditions) then [rows[i]] else [])
  {
    assert rows[..i + 1] == rows[..i] + [rows[i]];
    SelectAppend(cmp, rows[..i], [rows[i]], conditions);
  }

  /** One step of a loop that keeps the rows of a prefix the conditions do not match. */
  lemma RejectStep(cmp: Comparator, rows: seq<PhpArray>, i: nat, conditions: Value)
    requires i < |rows|
    ensures Reject(cmp, rows[..i + 1], conditions)
            == Reject(cmp, rows[..i], conditions) + (if Matches(cmp, rows[i], conditions) then [] else [rows[i]])
  {
    assert rows[..i + 1] == rows[..i] + [rows[i]];
    RejectAppend(cmp, rows[..i], [rows[i]], conditions);
  }

  /** Sending the head to one side keeps a split of the tail a split of the whole. */
  lemma SplitCons<T>(head: T, tail: seq<T>, toLeft: bool, left: seq<T>, right: seq<T>)
    requires |left| + |right| == |tail| && multiset(left) + multiset(right) == multiset(tail)
    ensures var l := (if toLeft then [head] else []) + left;
            var r := (if toLeft then [] else [head]) + right;
            |l| + |r| == |[head] + tail| && multiset(l) + multiset(r) == multiset([head] + tail)
  {
  }

  /** Every row is either selected or rejected, and none is both: the two split the collection. */
  lemma {:induction false} SelectRejectPartition(cmp: Comparator, rows: seq<PhpArray>, conditions: Value)
    ensures |Select(cmp, rows, conditions)| + |Reject(cmp, rows, conditions)| == |rows|
    ensures multiset(Select(cmp, rows, conditions)) + multiset(Reject(cmp, rows, conditions)) == multiset(rows)
  {
    if rows != [] {
      var head, tail := rows[0], rows[1..];
      SelectRejectPartition(cmp, tail, conditions);
      assert rows == [head] + tail;
      SplitCons(head, tail, Matches(cmp, head, conditions), Select(cmp, tail, conditions), Reject(cmp, tail, conditions));
    }
  }

  /** When no row matches, nothing is selected. */
  lemma {:induction false} SelectNone(cmp: Comparator, rows: seq<PhpArray>, conditions: Value)
    requires forall i :: 0 <= i < |rows| ==> !Matches(cmp, rows[i], conditions)
    ensures Select(cmp, rows, conditions) == []
  {
    if rows != [] {
      SelectNone(cmp, rows[1..], conditions);
    }
  }

  /** Selecting again changes nothing. */
  lemma {:induction false} SelectIdempotent(cmp: Comparator, rows: seq<PhpArray>, conditions: Value)
    ensures Select(cmp, Select(cmp, rows, conditions), conditions) == Select(cmp, rows, conditions)
  {
    if rows != [] {
      SelectIdempotent(cmp, rows[1..], conditions);
      var head := if Matches(cmp, rows[0], conditions) then [rows[0]] else [];
      SelectAppend(cmp, head, Select(cmp, rows[1..], conditions), conditions);
    }
  }

  /** Rejecting again changes nothing. */
  lemma {:induction false} RejectIdempotent(cmp: Comparator, rows: seq<PhpArray>, conditions: Value)
    ensures Reject(cmp, Reject(cmp, rows, conditions), conditions) == Reject(cmp, rows, conditions)
  {
    if rows != [] {
      RejectIdempotent(cmp, rows[1..], conditions);
      var head := if Matches(cmp, rows[0], conditions) then [] else [rows[0]];
      RejectAppend(cmp, head, Reject(cmp, rows[1..], conditions), conditions);
    }
  }

  // ---------------------------------------------------------------------
  // update_row
  // ---------------------------------------------------------------------

  /** `foreach ($newValues as $f => $v) $row[$f] = $v;` */
  function Patch(row: PhpArray, newValues: PhpArray): (r: PhpArray)
    ensures forall k :: k in KeysOf(newValues) ==> Lookup(r, k).Some?
    ensures forall k :: k !in KeysOf(newValues) ==> Lookup(r, k) == Lookup(row, k)
    decreases |newValues|
  {
    if newValues == [] then row
    else
      KeysOfCons(newValues[0], newValues[1..]);
      assert newValues == [newValues[0]] + newValues[1..];
      Patch(Assign(row, newValues[0].0, newValues[0].1), newValues[1..])
  }

  /**
   * A patched row has each `$newValues` key at its new value and every
   * other key at its old value (or still missing).
   */
  lemma {:induction false} PatchLookup(row: PhpArray, newValues: PhpArray, k: string)
    requires UniqueKeys(newValues)
    ensures Lookup(Patch(row, newValues), k)
            == if k in KeysOf(newValues) then Lookup(newValues, k) else Lookup(row, k)
    decreases |newValues|
  {
    if newValues != [] {
      var rest := newValues[1..];
      assert UniqueKeys(rest);
      assert KeysOf(newValues) == [newValues[0].0] + KeysOf(rest);
      PatchLookup(Assign(row, newValues[0].0, newValues[0].1), rest, k);
      if k == newValues[0].0 {
        assert k !in KeysOf(rest);
      }
    }
  }

  /** Fields a row already has keep their positions; new fields are appended after them. */
  lemma {:induction false} PatchKeepsKeyOrder(row: PhpArray, newValues: PhpArray)
    ensures KeysOf(row) <= KeysOf(Patch(row, newValues))
    ensures UniqueKeys(row) ==> UniqueKeys(Patch(row, newValues))
    decreases |newValues|
  {
    if newValues != [] {
      var next := Assign(row, newValues[0].0, newValues[0].1);
      if UniqueKeys(row) {
        AssignKeepsUnique(row, newValues[0].0, newValues[0].1);
      }
      PatchKeepsKeyOrder(next, newValues[1..]);
    }
  }

  /** The collection `update_row` writes back: same length, matching rows patched, the rest unchanged. */
  function UpdateAll(cmp: Comparator, rows: seq<PhpArray>, conditions: Value, newValues: PhpArray): (r: seq<PhpArray>)
    ensures |r| == |rows|
    ensures forall i :: 0 <= i < |rows| ==>
              r[i] == if Matches(cmp, rows[i], conditions) then Patch(rows[i], newValues) else rows[i]
  {
    if rows == [] then []
    else
      [if Matches(cmp, rows[0], conditions) then Patch(rows[0], newValues) else rows[0]]
      + UpdateAll(cmp, rows[1..], conditions, newValues)
  }

  /**
   * After `update_row`, every field of every row reads as the patch
   * prescribes: a `$newValues` field of a matching row has the new value,
   * every other field of every row its old one.
   */
  lemma UpdateFields(cmp: Comparator, rows: seq<PhpArray>, conditions: Value, newValues: PhpArray, i: nat, k: string)
    requires UniqueKeys(newValues) && i < |rows|
    ensures Lookup(UpdateAll(cmp, rows, conditions, newValues)[i], k)
            == if Matches(cmp, rows[i], conditions) && k in KeysOf(newValues) then Lookup(newValues, k)
               else Lookup(rows[i], k)
  {
    PatchLookup(rows[i], newValues, k);
  }
}
