/**
 * The condition evaluator `evaluateConditions` that `remove_row`,
 * `update_row` and `get_row` each declare (always called with the logical
 * operator 'AND'). A conditions value is a PHP array whose entries are
 * implicitly AND-ed left to right; an "AND" or "OR" entry holds a list of
 * nested conditions arrays, any other entry is a leaf on the field named by
 * its key, either `[operator, value]` or a bare value meaning equality.
 */
module Conditions {
  import opened PhpValue

  /**
   * PHP 8's `<=>` on two values (negative, zero or positive). PHP's loose
   * comparison rules are outside the model; the evaluator is given them.
   */
  type Comparator = (Value, Value) -> int

  /** The branches of the `switch ($operator)` in a leaf. */
  datatype Op = Gt | Lt | Ge | Le | Ne | Eq

  /**
   * `switch` compares loosely: a string selects the case it spells, `true`
   * is loosely equal to the first case '>', and everything else (including
   * '==' itself) takes the shared '=='/default branch.
   */
  function SwitchOp(operator: Value): (op: Op)
    ensures operator == Str(">") ==> op == Gt
    ensures operator == Str("<") ==> op == Lt
    ensures operator == Str(">=") ==> op == Ge
    ensures operator == Str("<=") ==> op == Le
    ensures operator == Str("!=") ==> op == Ne
    ensures operator.Str? && operator.s !in [">", "<", ">=", "<=", "!="] ==> op == Eq
    ensures operator == Bool(true) ==> op == Gt
    ensures operator.Null? || operator.Int? || operator.Arr? || operator == Bool(false) ==> op == Eq
  {
    match operator
    case Str(s) =>
      if s == ">" then Gt
      else if s == "<" then Lt
      else if s == ">=" then Ge
      else if s == "<=" then Le
      else if s == "!=" then Ne
      else Eq
    case Bool(b) => if b then Gt else Eq
    case _ => Eq
  }

  /**
   * `$x OP $v` as the PHP engine evaluates it from `<=>`: `a > b` is
   * `b < a` and `a >= b` is `b <= a`.
   */
  predicate Compare(cmp: Comparator, op: Op, x: Value, v: Value) {
    match op
    case Gt => cmp(v, x) < 0
    case Lt => cmp(x, v) < 0
    case Ge => cmp(v, x) <= 0
    case Le => cmp(x, v) <= 0
    case Ne => cmp(x, v) != 0
    case Eq => cmp(x, v) == 0
  }

  predicate IsGroupKey(key: string) {
    key == "AND" || key == "OR"
  }

  /**
   * A leaf `$key => $condition`: false unless `isset($row[$key])`; an array
   * condition is destructured as `[$operator, $value]` (missing items read
   * as null), anything else is compared for equality.
   */
  predicate LeafHolds(cmp: Comparator, row: PhpArray, key: string, condition: Value)
    ensures !IsSet(row, key) ==> !LeafHolds(cmp, row, key, condition)
    ensures !condition.Arr? ==>
              (LeafHolds(cmp, row, key, condition) <==> IsSet(row, key) && cmp(Item(row, key), condition) == 0)
  {
    IsSet(row, key) &&
    if condition.Arr? then
      Compare(cmp, SwitchOp(Item(condition.entries, "0")), Item(row, key), Item(condition.entries, "1"))
    else
      Compare(cmp, Eq, Item(row, key), condition)
  }

  /** `evaluateConditions($row, $conditions, 'AND')`. */
  predicate Matches(cmp: Comparator, row: PhpArray, conditions: Value)
    ensures Matches(cmp, row, conditions) ==> conditions.Arr?
    ensures conditions == Arr([]) ==> Matches(cmp, row, conditions)
    decreases conditions, 1, 0
  {
    match conditions
    case Arr(entries) => AllHold(cmp, row, conditions, entries)
    case _ => false
  }

  /** The entries of a conditions array, AND-ed left to right. */
  predicate AllHold(cmp: Comparator, row: PhpArray, ghost outer: Value, entries: PhpArray)
    requires forall i :: 0 <= i < |entries| ==> entries[i].1 < outer
    decreases outer, 0, |entries|
  {
    entries == [] ||
    (EntryHolds(cmp, row, entries[0].0, entries[0].1) && AllHold(cmp, row, outer, entries[1..]))
  }

  /** One entry of a conditions array. */
  predicate EntryHolds(cmp: Comparator, row: PhpArray, key: string, condition: Value)
    decreases condition, 2, 0
  {
    if key == "AND" then GroupHolds(cmp, row, true, condition, Elements(condition))
    else if key == "OR" then GroupHolds(cmp, row, false, condition, Elements(condition))
    else LeafHolds(cmp, row, key, condition)
  }

  /**
   * The sub-conditions of an "AND" group (`isAnd`) or an "OR" group: AND
   * starts true and stops at the first false one, OR starts false and stops
   * at the first true one.
   */
  predicate GroupHolds(cmp: Comparator, row: PhpArray, isAnd: bool, ghost group: Value, subs: PhpArray)
    requires forall i :: 0 <= i < |subs| ==> subs[i].1 < group
    decreases group, 0, |subs|
  {
    if subs == [] then isAnd
    else if Matches(cmp, row, subs[0].1) != isAnd then !isAnd
    else GroupHolds(cmp, row, isAnd, group, subs[1..])
  }

  // ---------------------------------------------------------------------
  // Which fields the evaluator reads
  // ---------------------------------------------------------------------

  /**
   * The fields `evaluateConditions` looks up, in order, one per leaf it
   * evaluates; no entry after the one that decides the result is visited.
   */
  function Probes(cmp: Comparator, row: PhpArray, conditions: Value): seq<string>
    decreases conditions, 1, 0
  {
    match conditions
    case Arr(entries) => AllProbes(cmp, row, conditions, entries)
    case _ => []
  }

  function AllProbes(cmp: Comparator, row: PhpArray, ghost outer: Value, entries: PhpArray): seq<string>
    requires forall i :: 0 <= i < |entries| ==> entries[i].1 < outer
    decreases outer, 0, |entries|
  {
    if entries == [] then []
    else
      EntryProbes(cmp, row, entries[0].0, entries[0].1) +
      (if EntryHolds(cmp, row, entries[0].0, entries[0].1) then AllProbes(cmp, row, outer, entries[1..]) else [])
  }

  function EntryProbes(cmp: Comparator, row: PhpArray, key: string, condition: Value): seq<string>
    decreases condition, 2, 0
  {
    if key == "AND" then GroupProbes(cmp, row, true, condition, Elements(condition))
    else if key == "OR" then GroupProbes(cmp, row, false, condition, Elements(condition))
    else [key]
  }

  function GroupProbes(cmp: Comparator, row: PhpArray, isAnd: bool, ghost group: Value, subs: PhpArray): seq<string>
    requires forall i :: 0 <= i < |subs| ==> subs[i].1 < group
    decreases group, 0, |subs|
  {
    if subs == [] then []
    else
      Probes(cmp, row, subs[0].1) +
      (if Matches(cmp, row, subs[0].1) == isAnd then GroupProbes(cmp, row, isAnd, group, subs[1..]) else [])
  }

  // ---------------------------------------------------------------------
  // The evaluator as the source runs it
  // ---------------------------------------------------------------------

  /**
   * One step of the outer `foreach` in `EvaluateConditions`: a true entry
   * leaves the rest to decide, a false one decides the result.
   */
  lemma AllStep(cmp: Comparator, row: PhpArray, outer: Value, entries: PhpArray, i: nat,
                probes: seq<string>, entryMatch: bool, p: seq<string>)
    requires i < |entries|
    requires forall k :: 0 <= k < |entries| ==> entries[k].1 < outer
    requires entryMatch == EntryHolds(cmp, row, entries[i].0, entries[i].1)
    requires p == EntryProbes(cmp, row, entries[i].0, entries[i].1)
    ensures AllHold(cmp, row, outer, entries[i..]) == (entryMatch && AllHold(cmp, row, outer, entries[i + 1..]))
    ensures entryMatch ==> probes + AllProbes(cmp, row, outer, entries[i..]) == (probes + p) + AllProbes(cmp, row, outer, entries[i + 1..])
    ensures !entryMatch ==> probes + AllProbes(cmp, row, outer, entries[i..]) == probes + p
  {
    var e := entries[i..];
    assert e != [] && e[0] == entries[i] && e[1..] == entries[i + 1..];
    var rest := AllProbes(cmp, row, outer, entries[i + 1..]);
    assert AllProbes(cmp, row, outer, e) == p + (if entryMatch then rest else []);
    if entryMatch {
      Assoc(probes, p, rest);
    } else {
      assert p + [] == p;
    }
  }

  /**
   * One step of the group loop in `EvaluateGroup` (the inner `foreach`
   * over an "AND"/"OR" group), after sub-condition `j` evaluated to `result`.
   */
  lemma GroupStep(cmp: Comparator, row: PhpArray, isAnd: bool, group: Value, subs: PhpArray, j: nat,
                  probes: seq<string>, result: bool, p: seq<string>)
    requires j < |subs|
    requires forall k :: 0 <= k < |subs| ==> subs[k].1 < group
    requires result == Matches(cmp, row, subs[j].1)
    requires p == Probes(cmp, row, subs[j].1)
    ensures GroupHolds(cmp, row, isAnd, group, subs[j..])
            == if result != isAnd then !isAnd else GroupHolds(cmp, row, isAnd, group, subs[j + 1..])
    ensures result == isAnd ==> probes + GroupProbes(cmp, row, isAnd, group, subs[j..])
                                == (probes + p) + GroupProbes(cmp, row, isAnd, group, subs[j + 1..])
    ensures result != isAnd ==> probes + GroupProbes(cmp, row, isAnd, group, subs[j..]) == probes + p
  {
    var s := subs[j..];
    assert s != [] && s[0] == subs[j] && s[1..] == subs[j + 1..];
    var rest := GroupProbes(cmp, row, isAnd, group, subs[j + 1..]);
    assert GroupProbes(cmp, row, isAnd, group, s) == p + (if result == isAnd then rest else []);
    if result == isAnd {
      Assoc(probes, p, rest);
    } else {
      assert p + [] == p;
    }
  }

  /**
   * `evaluateConditions($row, $conditions, 'AND')` with its loop: the
   * `foreach` over the entries breaks once `$match` is false. `probes`
   * lists each field a leaf looks up, in order.
   */
  method EvaluateConditions(cmp: Comparator, row: PhpArray, conditions: Value)
    returns (matched: bool, probes: seq<string>)
    ensures matched == Matches(cmp, row, conditions)
    ensures probes == Probes(cmp, row, conditions)
    decreases conditions, 1
  {
    probes := [];
    if !conditions.Arr? {
      return false, probes;
    }
    var entries := conditions.entries;
    matched := true;
    var i := 0;
    while i < |entries|
      invariant 0 <= i <= |entries|
      invariant matched
      invariant Matches(cmp, row, conditions) == AllHold(cmp, row, conditions, entries[i..])
      invariant probes + AllProbes(cmp, row, conditions, entries[i..]) == Probes(cmp, row, conditions)
    {
      var entryMatch, p := EvaluateEntry(cmp, row, entries[i].0, entries[i].1);
      AllStep(cmp, row, conditions, entries, i, probes, entryMatch, p);
      probes := probes + p;
      matched := matched && entryMatch;
      if !matched { break; }
      i := i + 1;
    }
  }

  /** The body of the outer `foreach` for one entry `$key => $condition`. */
  method EvaluateEntry(cmp: Comparator, row: PhpArray, key: string, condition: Value)
    returns (entryMatch: bool, probes: seq<string>)
    ensures entryMatch == EntryHolds(cmp, row, key, condition)
    ensures probes == EntryProbes(cmp, row, key, condition)
    decreases condition, 2
  {
    if key == "AND" || key == "OR" {
      entryMatch, probes := EvaluateGroup(cmp, row, key == "AND", condition);
    } else {
      probes := [key];
      if condition.Arr? {
        var operator, value := Item(condition.entries, "0"), Item(condition.entries, "1");
        entryMatch := IsSet(row, key) && Compare(cmp, SwitchOp(operator), Item(row, key), value);
      } else {
        entryMatch := IsSet(row, key) && Compare(cmp, Eq, Item(row, key), condition);
      }
    }
  }

  /**
   * The inner `foreach` over the sub-conditions of an "AND" group
   * (`isAnd`) or an "OR" group, breaking at the deciding one.
   */
  method EvaluateGroup(cmp: Comparator, row: PhpArray, isAnd: bool, condition: Value)
    returns (subMatch: bool, probes: seq<string>)
    ensures subMatch == GroupHolds(cmp, row, isAnd, condition, Elements(condition))
    ensures probes == GroupProbes(cmp, row, isAnd, condition, Elements(condition))
    decreases condition, 0
  {
    var subs := Elements(condition);
    subMatch := isAnd;
    probes := [];
    var j := 0;
    while j < |subs|
      invariant 0 <= j <= |subs|
      invariant subMatch == isAnd
      invariant GroupHolds(cmp, row, isAnd, condition, subs) == GroupHolds(cmp, row, isAnd, condition, subs[j..])
      invariant probes + GroupProbes(cmp, row, isAnd, condition, subs[j..]) == GroupProbes(cmp, row, isAnd, condition, subs)
    {
      var result, p := EvaluateConditions(cmp, row, subs[j].1);
      GroupStep(cmp, row, isAnd, condition, subs, j, probes, result, p);
      probes := probes + p;
      if isAnd {
        subMatch := subMatch && result;
        if !subMatch { break; }
      } else {
        subMatch := subMatch || result;
        if subMatch { break; }
      }
      j := j + 1;
    }
  }
}
