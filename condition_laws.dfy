/**
 * What the condition evaluator promises: a conditions array is the
 * conjunction of its entries, "AND"/"OR" groups are a universal and an
 * existential over their sub-conditions, a leaf on a missing or null field
 * is false whatever its operator, and evaluation stops at the entry that
 * decides the result, so that the result depends on the fields it read
 * and on nothing else.
 */
module ConditionLaws {
  import opened PhpValue
  import opened Conditions

  // ---------------------------------------------------------------------
  // Groups and conjunction
  // ---------------------------------------------------------------------

  /** An AND group holds iff every sub-condition holds; an OR group iff some sub-condition holds. */
  lemma {:induction false} GroupQuantifier(cmp: Comparator, row: PhpArray, isAnd: bool, group: Value, subs: PhpArray)
    requires forall k :: 0 <= k < |subs| ==> subs[k].1 < group
    ensures isAnd ==>
      (GroupHolds(cmp, row, isAnd, group, subs) <==> forall k :: 0 <= k < |subs| ==> Matches(cmp, row, subs[k].1))
    ensures !isAnd ==>
      (GroupHolds(cmp, row, isAnd, group, subs) <==> exists k :: 0 <= k < |subs| && Matches(cmp, row, subs[k].1))
    decreases |subs|
  {
    if subs != [] {
      GroupQuantifier(cmp, row, isAnd, group, subs[1..]);
      assert forall k :: 1 <= k < |subs| ==> subs[1..][k - 1] == subs[k];
    }
  }

  /** The entries of a conditions array are AND-ed. */
  lemma {:induction false} AllQuantifier(cmp: Comparator, row: PhpArray, outer: Value, entries: PhpArray)
    requires forall k :: 0 <= k < |entries| ==> entries[k].1 < outer
    ensures AllHold(cmp, row, outer, entries)
            <==> forall k :: 0 <= k < |entries| ==> EntryHolds(cmp, row, entries[k].0, entries[k].1)
    decreases |entries|
  {
    if entries != [] {
      AllQuantifier(cmp, row, outer, entries[1..]);
      assert forall k :: 1 <= k < |entries| ==> entries[1..][k - 1] == entries[k];
    }
  }

  /**
   * A conditions value matches iff it is an array all of whose entries
   * hold: an empty array matches every row, a non-array matches none.
   */
  lemma MatchesIsConjunction(cmp: Comparator, row: PhpArray, conditions: Value)
    ensures Matches(cmp, row, conditions)
            <==> conditions.Arr? &&
                 forall k :: 0 <= k < |conditions.entries| ==>
                   EntryHolds(cmp, row, conditions.entries[k].0, conditions.entries[k].1)
  {
    if conditions.Arr? {
      AllQuantifier(cmp, row, conditions, conditions.entries);
    }
  }

  /**
   * An "AND" entry holds iff every sub-condition it lists matches (so an
   * empty or non-array group is true); an "OR" entry iff one of them does
   * (so an empty or non-array group is false).
   */
  lemma GroupEntry(cmp: Comparator, row: PhpArray, key: string, group: Value)
    requires IsGroupKey(key)
    ensures key == "AND" ==>
      (EntryHolds(cmp, row, key, group)
       <==> forall k :: 0 <= k < |Elements(group)| ==> Matches(cmp, row, Elements(group)[k].1))
    ensures key == "OR" ==>
      (EntryHolds(cmp, row, key, group)
       <==> exists k :: 0 <= k < |Elements(group)| && Matches(cmp, row, Elements(group)[k].1))
  {
    GroupQuantifier(cmp, row, key == "AND", group, Elements(group));
  }

  /** `{"AND": [p]}`, `p` and `{"OR": [p]}` select the same rows. */
  lemma SingletonGroups(cmp: Comparator, row: PhpArray, p: Value)
    ensures Matches(cmp, row, Arr([("AND", Arr([("0", p)]))])) == Matches(cmp, row, p)
    ensures Matches(cmp, row, Arr([("OR", Arr([("0", p)]))])) == Matches(cmp, row, p)
  {
    GroupEntry(cmp, row, "AND", Arr([("0", p)]));
    GroupEntry(cmp, row, "OR", Arr([("0", p)]));
    MatchesIsConjunction(cmp, row, Arr([("AND", Arr([("0", p)]))]));
    MatchesIsConjunction(cmp, row, Arr([("OR", Arr([("0", p)]))]));
  }

  // ---------------------------------------------------------------------
  // Leaves
  // ---------------------------------------------------------------------

  /**
   * A leaf on a field that is absent or null makes the whole conditions
   * array false, whatever its operator (`!=` included).
   */
  lemma MissingFieldFails(cmp: Comparator, row: PhpArray, conditions: Value, k: nat)
    requires conditions.Arr? && k < |conditions.entries|
    requires !IsGroupKey(conditions.entries[k].0) && !IsSet(row, conditions.entries[k].0)
    ensures !Matches(cmp, row, conditions)
  {
    MatchesIsConjunction(cmp, row, conditions);
  }

  /** A conditions array with a single leaf entry is that leaf. */
  lemma SingleLeaf(cmp: Comparator, row: PhpArray, field: string, condition: Value)
    requires !IsGroupKey(field)
    ensures Matches(cmp, row, Arr([(field, condition)])) == LeafHolds(cmp, row, field, condition)
  {
    var entries := [(field, condition)];
    assert entries[1..] == [];
    assert Matches(cmp, row, Arr(entries)) == AllHold(cmp, row, Arr(entries), entries);
    assert EntryHolds(cmp, row, field, condition) == LeafHolds(cmp, row, field, condition);
  }

  /** The comparison each `switch` case selects, written out with `<=>`. */
  lemma SwitchCompare(cmp: Comparator, operator: Value, x: Value, value: Value)
    ensures var c := Compare(cmp, SwitchOp(operator), x, value);
            && (operator == Str(">") ==> (c <==> cmp(value, x) < 0))
            && (operator == Str("<") ==> (c <==> cmp(x, value) < 0))
            && (operator == Str(">=") ==> (c <==> cmp(value, x) <= 0))
            && (operator == Str("<=") ==> (c <==> cmp(x, value) <= 0))
            && (operator == Str("!=") ==> (c <==> cmp(x, value) != 0))
            && (operator.Str? && operator.s !in [">", "<", ">=", "<=", "!="] ==> (c <==> cmp(x, value) == 0))
            && (operator == Bool(true) ==> (c <==> cmp(value, x) < 0))
            && (operator.Null? || operator.Int? || operator.Arr? || operator == Bool(false) ==>
                  (c <==> cmp(x, value) == 0))
  {
  }

  /**
   * A leaf `field => [operator, value]` compares the field's value as the
   * operator names. The `switch` is loose: `true` selects the first case,
   * `>`; null, integers, arrays and `false` select none of the named cases
   * and fall to equality.
   */
  lemma OperatorLeaf(cmp: Comparator, row: PhpArray, field: string, operator: Value, value: Value)
    requires !IsGroupKey(field)
    ensures var m := Matches(cmp, row, Arr([(field, Arr([("0", operator), ("1", value)]))]));
            var x := Item(row, field);
            && (!IsSet(row, field) ==> !m)
            && (operator == Str(">") ==> (m <==> IsSet(row, field) && cmp(value, x) < 0))
            && (operator == Str("<") ==> (m <==> IsSet(row, field) && cmp(x, value) < 0))
            && (operator == Str(">=") ==> (m <==> IsSet(row, field) && cmp(value, x) <= 0))
            && (operator == Str("<=") ==> (m <==> IsSet(row, field) && cmp(x, value) <= 0))
            && (operator == Str("!=") ==> (m <==> IsSet(row, field) && cmp(x, value) != 0))
            && (operator.Str? && operator.s !in [">", "<", ">=", "<=", "!="] ==>
                  (m <==> IsSet(row, field) && cmp(x, value) == 0))
            && (operator == Bool(true) ==> (m <==> IsSet(row, field) && cmp(value, x) < 0))
            && (operator.Null? || operator.Int? || operator.Arr? || operator == Bool(false) ==>
                  (m <==> IsSet(row, field) && cmp(x, value) == 0))
  {
    var condition := Arr([("0", operator), ("1", value)]);
    assert Item(condition.entries, "0") == operator;
    assert Item(condition.entries, "1") == value;
    SingleLeaf(cmp, row, field, condition);
    var m := Matches(cmp, row, Arr([(field, condition)]));
    assert m <==> IsSet(row, field) && Compare(cmp, SwitchOp(operator), Item(row, field), value);
    SwitchCompare(cmp, operator, Item(row, field), value);
  }

  /** A leaf `field => value` with a non-array value is loose equality on a set field. */
  lemma BareLeaf(cmp: Comparator, row: PhpArray, field: string, value: Value)
    requires !IsGroupKey(field) && !value.Arr?
    ensures Matches(cmp, row, Arr([(field, value)])) <==> IsSet(row, field) && cmp(Item(row, field), value) == 0
  {
    SingleLeaf(cmp, row, field, value);
  }

  // ---------------------------------------------------------------------
  // Short-circuit evaluation
  // ---------------------------------------------------------------------

  /** The ghost bound carried by the entry-level functions does not change their value. */
  lemma {:induction false} OuterIrrelevant(cmp: Comparator, row: PhpArray, o1: Value, o2: Value, entries: PhpArray)
    requires forall k :: 0 <= k < |entries| ==> entries[k].1 < o1 && entries[k].1 < o2
    ensures AllHold(cmp, row, o1, entries) == AllHold(cmp, row, o2, entries)
    ensures AllProbes(cmp, row, o1, entries) == AllProbes(cmp, row, o2, entries)
    decreases |entries|
  {
    if entries != [] {
      OuterIrrelevant(cmp, row, o1, o2, entries[1..]);
    }
  }

  /**
   * A group stops at the first sub-condition that decides it: once one
   * sub-condition is false in an AND group (true in an OR group), the group
   * has its value, and the later sub-conditions are never evaluated.
   */
  lemma {:induction false} GroupStopsAtDecider(cmp: Comparator, row: PhpArray, isAnd: bool, group: Value, subs: PhpArray, k: nat)
    requires forall i :: 0 <= i < |subs| ==> subs[i].1 < group
    requires k < |subs| && Matches(cmp, row, subs[k].1) != isAnd
    ensures GroupHolds(cmp, row, isAnd, group, subs) == !isAnd
    ensures GroupProbes(cmp, row, isAnd, group, subs) == GroupProbes(cmp, row, isAnd, group, subs[..k + 1])
    decreases k
  {
    if Matches(cmp, row, subs[0].1) == isAnd {
      assert k > 0;
      GroupStopsAtDecider(cmp, row, isAnd, group, subs[1..], k - 1);
      assert subs[..k + 1][1..] == subs[1..][..k];
    }
  }

  /**
   * A conditions array stops at its first false entry: it does not match,
   * and it reads exactly the fields that the same array cut after that
   * entry reads.
   */
  lemma StopsAtFirstFalse(cmp: Comparator, row: PhpArray, conditions: Value, k: nat)
    requires conditions.Arr? && k < |conditions.entries|
    requires !EntryHolds(cmp, row, conditions.entries[k].0, conditions.entries[k].1)
    ensures !Matches(cmp, row, conditions)
    ensures Probes(cmp, row, conditions) == Probes(cmp, row, Arr(conditions.entries[..k + 1]))
  {
    MatchesIsConjunction(cmp, row, conditions);
    var entries := conditions.entries;
    EntriesStopAtFirstFalse(cmp, row, conditions, entries, k);
    OuterIrrelevant(cmp, row, conditions, Arr(entries[..k + 1]), entries[..k + 1]);
  }

  lemma {:induction false} EntriesStopAtFirstFalse(cmp: Comparator, row: PhpArray, outer: Value, entries: PhpArray, k: nat)
    requires forall i :: 0 <= i < |entries| ==> entries[i].1 < outer
    requires k < |entries| && !EntryHolds(cmp, row, entries[k].0, entries[k].1)
    ensures AllProbes(cmp, row, outer, entries) == AllProbes(cmp, row, outer, entries[..k + 1])
    decreases k
  {
    if EntryHolds(cmp, row, entries[0].0, entries[0].1) {
      assert k > 0;
      EntriesStopAtFirstFalse(cmp, row, outer, entries[1..], k - 1);
      assert entries[..k + 1][1..] == entries[1..][..k];
    }
  }

  /**
   * Two rows that agree on every field the evaluator reads for one of them
   * get the same verdict, and the evaluator reads the same fields for both.
   */
  lemma {:induction false} ProbesDecide(cmp: Comparator, r1: PhpArray, r2: PhpArray, conditions: Value)
    requires forall f :: f in Probes(cmp, r1, conditions) ==> Lookup(r1, f) == Lookup(r2, f)
    ensures Matches(cmp, r1, conditions) == Matches(cmp, r2, conditions)
    ensures Probes(cmp, r1, conditions) == Probes(cmp, r2, conditions)
    decreases conditions, 1, 0
  {
    if conditions.Arr? {
      AllProbesDecide(cmp, r1, r2, conditions, conditions.entries);
    }
  }

  lemma {:induction false} AllProbesDecide(cmp: Comparator, r1: PhpArray, r2: PhpArray, outer: Value, entries: PhpArray)
    requires forall i :: 0 <= i < |entries| ==> entries[i].1 < outer
    requires forall f :: f in AllProbes(cmp, r1, outer, entries) ==> Lookup(r1, f) == Lookup(r2, f)
    ensures AllHold(cmp, r1, outer, entries) == AllHold(cmp, r2, outer, entries)
    ensures AllProbes(cmp, r1, outer, entries) == AllProbes(cmp, r2, outer, entries)
    decreases outer, 0, |entries|
  {
    if entries != [] {
      var key, condition := entries[0].0, entries[0].1;
      EntryProbesDecide(cmp, r1, r2, key, condition);
      if EntryHolds(cmp, r1, key, condition) {
        AllProbesDecide(cmp, r1, r2, outer, entries[1..]);
      }
    }
  }

  lemma {:induction false} EntryProbesDecide(cmp: Comparator, r1: PhpArray, r2: PhpArray, key: string, condition: Value)
    requires forall f :: f in EntryProbes(cmp, r1, key, condition) ==> Lookup(r1, f) == Lookup(r2, f)
    ensures EntryHolds(cmp, r1, key, condition) == EntryHolds(cmp, r2, key, condition)
    ensures EntryProbes(cmp, r1, key, condition) == EntryProbes(cmp, r2, key, condition)
    decreases condition, 2, 0
  {
    if key == "AND" || key == "OR" {
      GroupProbesDecide(cmp, r1, r2, key == "AND", condition, Elements(condition));
    } else {
      assert key in EntryProbes(cmp, r1, key, condition);
    }
  }

  lemma {:induction false} GroupProbesDecide(cmp: Comparator, r1: PhpArray, r2: PhpArray, isAnd: bool, group: Value, subs: PhpArray)
    requires forall i :: 0 <= i < |subs| ==> subs[i].1 < group
    requires forall f :: f in GroupProbes(cmp, r1, isAnd, group, subs) ==> Lookup(r1, f) == Lookup(r2, f)
    ensures GroupHolds(cmp, r1, isAnd, group, subs) == GroupHolds(cmp, r2, isAnd, group, subs)
    ensures GroupProbes(cmp, r1, isAnd, group, subs) == GroupProbes(cmp, r2, isAnd, group, subs)
    decreases group, 0, |subs|
  {
    if subs != [] {
      ProbesDecide(cmp, r1, r2, subs[0].1);
      if Matches(cmp, r1, subs[0].1) == isAnd {
        GroupProbesDecide(cmp, r1, r2, isAnd, group, subs[1..]);
      }
    }
  }
}
