/**
 * The projection engine `filter($arrays, $filterKeys)`. Every record
 * yields one output record built entry by entry from `$filterKeys`: an
 * entry with a numeric key copies the field it names, an entry whose value
 * is an array applies the named operations to build the field under its
 * key. An unknown operation name ends the whole call with `[]`.
 */
module Projection {
  import opened PhpValue

  /** What one named operation does to the output field of its entry. */
  datatype Effect = SetTo(v: Value) | NoSet | Crash | Abort

  /**
   * What a library operation may do: every one of its cases ends in
   * `break`, so none ends the call like an unknown operation.
   */
  type LibEffect = e: Effect | !e.Abort? witness NoSet

  /**
   * The `sum`, `difference` and `date_format` operations, which rely on
   * floating point and on PHP's date parser: given the operation name, its
   * parameters and the record.
   */
  type Library = (string, Value, PhpArray) -> LibEffect

  /**
   * How far a computation got: a value, the `return []` of an unknown
   * operation, or a TypeError that ends the request.
   */
  datatype Outcome<T> = Done(value: T) | Aborted | Crashed

  /**
   * A parameter of `concat`, `uppercase` or `lowercase`: an `s::` literal
   * without its prefix, otherwise the record's field of that name, `''`
   * when unset. None is the TypeError an array parameter raises in
   * `str_starts_with`.
   */
  function Resolve(record: PhpArray, param: Value): (r: Option<Value>)
    ensures r.None? <==> param.Arr?
    ensures param.Str? && StartsWith(param.s, "s::") ==> r == Some(Str(param.s[3..]))
    ensures param.Str? && !StartsWith(param.s, "s::") ==>
              r == Some(if IsSet(record, param.s) then Item(record, param.s) else Str(""))
  {
    match CoerceStr(param)
    case None => None
    case Some(p) =>
      if StartsWith(p, "s::") then Some(Str(p[3..]))
      else Some(Coalesce(record, OffsetKey(param).value, Str("")))
  }

  /** What one `concat` parameter contributes: the resolved value as a string. */
  function Piece(record: PhpArray, param: Value): (r: Option<string>)
    ensures r.None? <==> param.Arr?
  {
    match Resolve(record, param)
    case None => None
    case Some(v) => Some(StrVal(v))
  }

  /** `implode('', array_map($f, $xs))`, failing when some `$f($x)` fails. */
  function JoinAll<T>(f: T -> Option<string>, xs: seq<T>): Option<string> {
    if xs == [] then Some("")
    else
      var head := f(xs[0]);
      var rest := JoinAll(f, xs[1..]);
      if head.Some? && rest.Some? then Some(head.value + rest.value) else None
  }

  /**
   * `implode('', array_map(…, $params))` for `concat`; it fails (a
   * TypeError) exactly when one of the parameters is an array.
   */
  function Concat(record: PhpArray, params: seq<Value>): (r: Option<string>)
    ensures r.None? <==> exists i :: 0 <= i < |params| && params[i].Arr?
  {
    JoinAllFails((p: Value) => Piece(record, p), params);
    JoinAll((p: Value) => Piece(record, p), params)
  }

  /** A join fails exactly when one of its pieces fails. */
  lemma {:induction false} JoinAllFails<T>(f: T -> Option<string>, xs: seq<T>)
    ensures JoinAll(f, xs).None? <==> exists i :: 0 <= i < |xs| && f(xs[i]).None?
  {
    if xs != [] {
      JoinAllFails(f, xs[1..]);
      if exists i :: 0 <= i < |xs[1..]| && f(xs[1..][i]).None? {
        var i :| 0 <= i < |xs[1..]| && f(xs[1..][i]).None?;
        assert f(xs[i + 1]).None?;
      }
      if exists i :: 0 <= i < |xs| && f(xs[i]).None? {
        var i :| 0 <= i < |xs| && f(xs[i]).None?;
        if i > 0 {
          assert f(xs[1..][i - 1]).None?;
        }
      }
    }
  }

  /** A join of two lists is the two joins one after the other: no separator. */
  lemma {:induction false} JoinAllAppend<T>(f: T -> Option<string>, xs: seq<T>, ys: seq<T>)
    requires JoinAll(f, xs).Some? && JoinAll(f, ys).Some?
    ensures JoinAll(f, xs + ys) == Some(JoinAll(f, xs).value + JoinAll(f, ys).value)
  {
    if xs == [] {
      assert xs + ys == ys;
      assert "" + JoinAll(f, ys).value == JoinAll(f, ys).value;
    } else {
      assert (xs + ys)[0] == xs[0];
      assert (xs + ys)[1..] == xs[1..] + ys;
      JoinAllAppend(f, xs[1..], ys);
      var h, a, b := f(xs[0]).value, JoinAll(f, xs[1..]).value, JoinAll(f, ys).value;
      assert h + (a + b) == (h + a) + b;
    }
  }

  /**
   * `strtoupper`/`strtolower` (`upper` picks which) of the resolved
   * parameter: a literal without its `s::`, a set field's value as a
   * string, `''` for an unset field; an array parameter or an array field
   * is a TypeError.
   */
  function ChangeCase(record: PhpArray, params: Value, upper: bool): (e: Effect)
    ensures params.Arr? ==> e == Crash
    ensures params.Str? && StartsWith(params.s, "s::") ==>
              var lit := params.s[3..];
              e == SetTo(Str(if upper then Upper(lit) else Lower(lit)))
    ensures params.Str? && !StartsWith(params.s, "s::") && !IsSet(record, params.s) ==> e == SetTo(Str(""))
    ensures params.Str? && !StartsWith(params.s, "s::") && IsSet(record, params.s) ==>
              var x := Item(record, params.s);
              e == if x.Arr? then Crash else SetTo(Str(if upper then Upper(StrVal(x)) else Lower(StrVal(x))))
  {
    match Resolve(record, params)
    case None => Crash
    case Some(v) =>
      match CoerceStr(v)
      case None => Crash
      case Some(s) => SetTo(Str(if upper then Upper(s) else Lower(s)))
  }

  /**
   * `uppercase` and `lowercase` of the same parameter fail together, and
   * when they set the field each result is the other one with its case changed.
   */
  lemma CaseVariants(record: PhpArray, params: Value)
    ensures ChangeCase(record, params, true).Crash? <==> ChangeCase(record, params, false).Crash?
    ensures var u, l := ChangeCase(record, params, true), ChangeCase(record, params, false);
            u.SetTo? ==> l.SetTo? && u.v.Str? && l.v.Str? && Upper(l.v.s) == u.v.s && Lower(u.v.s) == l.v.s
  {
    match Resolve(record, params)
    case None =>
    case Some(v) =>
      match CoerceStr(v)
      case None =>
      case Some(s) =>
        UpperIdempotent(s);
        LowerIdempotent(s);
  }

  predicate IsLibraryOp(opName: string) {
    opName == "sum" || opName == "difference" || opName == "date_format"
  }

  predicate IsKnownOp(opName: string) {
    opName == "concat" || opName == "uppercase" || opName == "lowercase" || IsLibraryOp(opName)
  }

  /** One case of `switch ($opName)`. */
  function OpEffect(library: Library, record: PhpArray, opName: string, params: Value): (e: Effect)
    ensures e == Abort <==> !IsKnownOp(opName)
  {
    if opName == "concat" then
      if !params.Arr? then Crash
      else
        match Concat(record, ValuesOf(params.entries))
        case None => Crash
        case Some(s) => SetTo(Str(s))
    else if opName == "uppercase" then ChangeCase(record, params, true)
    else if opName == "lowercase" then ChangeCase(record, params, false)
    else if IsLibraryOp(opName) then library(opName, params, record)
    else Abort
  }

  /**
   * The operations of one entry, applied left to right to the field under
   * `key`; no other field of `$filtered` changes.
   */
  function OpsOutcome(library: Library, record: PhpArray, key: string, ops: PhpArray, fields: PhpArray): (r: Outcome<PhpArray>)
    ensures r.Done? ==> forall k :: k != key ==> Lookup(r.value, k) == Lookup(fields, k)
    decreases |ops|
  {
    if ops == [] then Done(fields)
    else
      match OpEffect(library, record, ops[0].0, ops[0].1)
      case SetTo(v) => OpsOutcome(library, record, key, ops[1..], Assign(fields, key, v))
      case NoSet => OpsOutcome(library, record, key, ops[1..], fields)
      case Crash => Crashed
      case Abort => Aborted
  }

  /** The fields of `$filtered` an entry may write: the field it copies, or its own key. */
  function EntryTargets(key: string, operation: Value): seq<string> {
    if IsNumeric(key) then
      match OffsetKey(operation)
      case Some(k) => [k]
      case None => []
    else [key]
  }

  /**
   * One entry `$key => $operation` of `$filterKeys`. A numeric key copies
   * a field, failing on an array offset; any other key applies operations
   * when its value is an array, and is skipped otherwise. Only the entry's
   * target field may change.
   */
  function EntryOutcome(library: Library, record: PhpArray, key: string, operation: Value, fields: PhpArray): (r: Outcome<PhpArray>)
    ensures IsNumeric(key) ==> (r.Crashed? <==> operation.Arr?)
    ensures r.Aborted? ==> !IsNumeric(key) && operation.Arr?
    ensures !IsNumeric(key) && !operation.Arr? ==> r == Done(fields)
    ensures r.Done? ==> forall k :: k !in EntryTargets(key, operation) ==> Lookup(r.value, k) == Lookup(fields, k)
    ensures IsNumeric(key) && OffsetKey(operation).Some? ==>
              var k := OffsetKey(operation).value;
              if IsSet(record, k) then r.Done? && Lookup(r.value, k) == Some(Item(record, k))
              else r == Done(fields)
  {
    if IsNumeric(key) then
      match OffsetKey(operation)
      case None => Crashed
      case Some(k) =>
        assert EntryTargets(key, operation) == [k];
        Done(if IsSet(record, k) then Assign(fields, k, Item(record, k)) else fields)
    else
      assert EntryTargets(key, operation) == [key];
      if operation.Arr? then OpsOutcome(library, record, key, operation.entries, fields)
      else Done(fields)
  }

  /** The target fields of all the entries. */
  function Targets(entries: PhpArray): seq<string>
    decreases |entries|
  {
    if entries == [] then [] else EntryTargets(entries[0].0, entries[0].1) + Targets(entries[1..])
  }

  /**
   * The entries of `$filterKeys` from the current one on, building
   * `$filtered`: no field outside the entries' targets changes.
   */
  function RecordOutcome(library: Library, record: PhpArray, entries: PhpArray, fields: PhpArray): (r: Outcome<PhpArray>)
    ensures r.Done? ==> forall k :: k !in Targets(entries) ==> Lookup(r.value, k) == Lookup(fields, k)
    decreases |entries|
  {
    if entries == [] then Done(fields)
    else
      match EntryOutcome(library, record, entries[0].0, entries[0].1, fields)
      case Done(next) => RecordOutcome(library, record, entries[1..], next)
      case other => other
  }

  /** `acc` followed by the records of a finished run. */
  function Prepend(acc: seq<PhpArray>, run: Outcome<seq<PhpArray>>): Outcome<seq<PhpArray>> {
    match run
    case Done(rs) => Done(acc + rs)
    case other => other
  }

  /** The records from the current one on. */
  function RunOutcome(library: Library, arrays: seq<PhpArray>, entries: PhpArray): Outcome<seq<PhpArray>> {
    if arrays == [] then Done([])
    else
      match RecordOutcome(library, arrays[0], entries, [])
      case Done(f) => Prepend([f], RunOutcome(library, arrays[1..], entries))
      case Aborted => Aborted
      case Crashed => Crashed
  }

  /**
   * What `filter` returns: None is a fatal TypeError, an unknown operation
   * gives `[]`; otherwise one record per input record.
   */
  function Projection(library: Library, arrays: seq<PhpArray>, filterKeys: Value): (r: Option<seq<PhpArray>>)
    ensures arrays == [] ==> r == Some([])
    ensures r.Some? && r.value != [] ==> |r.value| == |arrays|
  {
    OneOutputPerRecord(library, arrays, Elements(filterKeys));
    match RunOutcome(library, arrays, Elements(filterKeys))
    case Done(rs) => Some(rs)
    case Aborted => Some([])
    case Crashed => None
  }

  // ---------------------------------------------------------------------
  // filter as the source runs it
  // ---------------------------------------------------------------------

  /** The inner `foreach ($operation as $opName => $params)`. */
  method ApplyOps(library: Library, record: PhpArray, key: string, ops: PhpArray, filtered: PhpArray)
    returns (out: Outcome<PhpArray>)
    ensures out == OpsOutcome(library, record, key, ops, filtered)
  {
    var fields := filtered;
    var j := 0;
    while j < |ops|
      invariant 0 <= j <= |ops|
      invariant OpsOutcome(library, record, key, ops, filtered) == OpsOutcome(library, record, key, ops[j..], fields)
    {
      assert ops[j..][0] == ops[j] && ops[j..][1..] == ops[j + 1..];
      var opName, params := ops[j].0, ops[j].1;
      var effect := OpEffect(library, record, opName, params);
      match effect {
        case SetTo(v) => fields := Assign(fields, key, v);
        case NoSet =>
        case Crash => return Crashed;
        case Abort => return Aborted;
      }
      j := j + 1;
    }
    out := Done(fields);
  }

  /** The `foreach ($filterKeys as $key => $operation)` for one record. */
  method ProjectRecord(library: Library, record: PhpArray, entries: PhpArray) returns (out: Outcome<PhpArray>)
    ensures out == RecordOutcome(library, record, entries, [])
  {
    var filtered := [];
    var i := 0;
    while i < |entries|
      invariant 0 <= i <= |entries|
      invariant RecordOutcome(library, record, entries, []) == RecordOutcome(library, record, entries[i..], filtered)
    {
      assert entries[i..][0] == entries[i] && entries[i..][1..] == entries[i + 1..];
      var key, operation := entries[i].0, entries[i].1;
      if IsNumeric(key) {
        var k := OffsetKey(operation);
        if k.None? {
          return Crashed;
        }
        if IsSet(record, k.value) {
          filtered := Assign(filtered, k.value, Item(record, k.value));
        }
      } else if operation.Arr? {
        var step := ApplyOps(library, record, key, operation.entries, filtered);
        if !step.Done? {
          return step;
        }
        filtered := step.value;
      }
      i := i + 1;
    }
    out := Done(filtered);
  }

  /** `filter($arrays, $filterKeys)`; None is a fatal TypeError. */
  method Filter(library: Library, arrays: seq<PhpArray>, filterKeys: Value) returns (result: Option<seq<PhpArray>>)
    ensures result == Projection(library, arrays, filterKeys)
  {
    var entries := Elements(filterKeys);
    var acc := [];
    var n := 0;
    assert arrays[0..] == arrays;
    PrependNothing(RunOutcome(library, arrays, entries));
    while n < |arrays|
      invariant 0 <= n <= |arrays|
      invariant RunOutcome(library, arrays, entries) == Prepend(acc, RunOutcome(library, arrays[n..], entries))
    {
      assert arrays[n..][0] == arrays[n] && arrays[n..][1..] == arrays[n + 1..];
      var filtered := ProjectRecord(library, arrays[n], entries);
      match filtered {
        case Done(f) =>
          PrependTwice(acc, [f], RunOutcome(library, arrays[n + 1..], entries));
          acc := acc + [f];
        case Aborted => return Some([]);
        case Crashed => return None;
      }
      n := n + 1;
    }
    assert arrays[n..] == [];
    assert acc + [] == acc;
    result := Some(acc);
  }

  lemma PrependNothing(run: Outcome<seq<PhpArray>>)
    ensures Prepend([], run) == run
  {
    if run.Done? {
      assert [] + run.value == run.value;
    }
  }

  lemma PrependTwice(a: seq<PhpArray>, b: seq<PhpArray>, run: Outcome<seq<PhpArray>>)
    ensures Prepend(a, Prepend(b, run)) == Prepend(a + b, run)
  {
    if run.Done? {
      assert a + (b + run.value) == (a + b) + run.value;
    }
  }

  // ---------------------------------------------------------------------
  // Properties
  // ---------------------------------------------------------------------

  /**
   * Unless the call ends early, there is exactly one output record per
   * input record, and the i-th is the projection of the i-th input.
   */
  lemma {:induction false} OneOutputPerRecord(library: Library, arrays: seq<PhpArray>, entries: PhpArray)
    ensures RunOutcome(library, arrays, entries).Done? ==>
              var rs := RunOutcome(library, arrays, entries).value;
              |rs| == |arrays| &&
              forall i :: 0 <= i < |arrays| ==> RecordOutcome(library, arrays[i], entries, []) == Done(rs[i])
  {
    if arrays != [] {
      OneOutputPerRecord(library, arrays[1..], entries);
      if RunOutcome(library, arrays, entries).Done? {
        var rs := RunOutcome(library, arrays, entries).value;
        var rest := RunOutcome(library, arrays[1..], entries).value;
        assert rs == [RecordOutcome(library, arrays[0], entries, []).value] + rest;
        forall i | 0 <= i < |arrays|
          ensures RecordOutcome(library, arrays[i], entries, []) == Done(rs[i])
        {
          if i > 0 {
            assert arrays[i] == arrays[1..][i - 1];
          }
        }
      }
    }
  }

  /** The result of `filter` is `[]`, a fatal error, or one projected record per input record. */
  lemma FilterShape(library: Library, arrays: seq<PhpArray>, filterKeys: Value)
    ensures match Projection(library, arrays, filterKeys)
            case Some(rs) =>
              rs == [] ||
              (|rs| == |arrays| &&
               forall i :: 0 <= i < |arrays| ==> RecordOutcome(library, arrays[i], Elements(filterKeys), []) == Done(rs[i]))
            case None => true
  {
    OneOutputPerRecord(library, arrays, Elements(filterKeys));
  }

  /** Every operation name in the entries is one `filter` handles. */
  predicate AllOpsKnown(entries: PhpArray) {
    forall i :: 0 <= i < |entries| && !IsNumeric(entries[i].0) ==>
      forall j :: 0 <= j < |Elements(entries[i].1)| ==> IsKnownOp(Elements(entries[i].1)[j].0)
  }

  lemma {:induction false} KnownOpsDoNotAbort(library: Library, record: PhpArray, key: string, ops: PhpArray, fields: PhpArray)
    requires forall j :: 0 <= j < |ops| ==> IsKnownOp(ops[j].0)
    ensures OpsOutcome(library, record, key, ops, fields) != Aborted
    decreases |ops|
  {
    if ops != [] {
      var e := OpEffect(library, record, ops[0].0, ops[0].1);
      assert e != Abort;
      if e.SetTo? {
        KnownOpsDoNotAbort(library, record, key, ops[1..], Assign(fields, key, e.v));
      } else if e.NoSet? {
        KnownOpsDoNotAbort(library, record, key, ops[1..], fields);
      }
    }
  }

  lemma {:induction false} KnownEntriesDoNotAbort(library: Library, record: PhpArray, entries: PhpArray, fields: PhpArray)
    requires AllOpsKnown(entries)
    ensures RecordOutcome(library, record, entries, fields) != Aborted
    decreases |entries|
  {
    if entries != [] {
      var key, operation := entries[0].0, entries[0].1;
      if !IsNumeric(key) && operation.Arr? {
        assert Elements(operation) == operation.entries;
        KnownOpsDoNotAbort(library, record, key, operation.entries, fields);
      }
      var step := EntryOutcome(library, record, key, operation, fields);
      if step.Done? {
        assert AllOpsKnown(entries[1..]) by {
          forall i | 0 <= i < |entries[1..]| && !IsNumeric(entries[1..][i].0)
            ensures forall j :: 0 <= j < |Elements(entries[1..][i].1)| ==> IsKnownOp(Elements(entries[1..][i].1)[j].0)
          {
            assert entries[1..][i] == entries[i + 1];
          }
        }
        KnownEntriesDoNotAbort(library, record, entries[1..], step.value);
      }
    }
  }

  /**
   * With only known operation names,
   * `filter` either fails fatally or emits one record per input record.
   */
  lemma {:induction false} KnownOpsEmitEveryRecord(library: Library, arrays: seq<PhpArray>, entries: PhpArray)
    requires AllOpsKnown(entries)
    ensures RunOutcome(library, arrays, entries) != Aborted
  {
    if arrays != [] {
      KnownEntriesDoNotAbort(library, arrays[0], entries, []);
      KnownOpsEmitEveryRecord(library, arrays[1..], entries);
    }
  }

  /** Operation `j` of entry `i` exists, under a key that is not numeric. */
  predicate OpAt(entries: PhpArray, i: nat, j: nat) {
    i < |entries| && !IsNumeric(entries[i].0) && entries[i].1.Arr? && j < |entries[i].1.entries|
  }

  /** No TypeError is raised in an entry: no array offset, no failing operation. */
  predicate EntryCrashFree(library: Library, record: PhpArray, key: string, operation: Value) {
    if IsNumeric(key) then !operation.Arr?
    else operation.Arr? ==>
      forall m :: 0 <= m < |operation.entries| ==>
        OpEffect(library, record, operation.entries[m].0, operation.entries[m].1) != Crash
  }

  /** The record gets to operation `j` of entry `i` without a TypeError. */
  predicate ReachesOp(library: Library, record: PhpArray, entries: PhpArray, i: nat, j: nat)
    requires OpAt(entries, i, j)
  {
    (forall m :: 0 <= m < j ==> OpEffect(library, record, entries[i].1.entries[m].0, entries[i].1.entries[m].1) != Crash) &&
    (forall e :: 0 <= e < i ==> EntryCrashFree(library, record, entries[e].0, entries[e].1))
  }

  /** `OpsOutcome` one operation in: what the head does, then the rest. */
  lemma OpsUnfold(library: Library, record: PhpArray, key: string, ops: PhpArray, fields: PhpArray)
    requires ops != []
    ensures var e := OpEffect(library, record, ops[0].0, ops[0].1);
            OpsOutcome(library, record, key, ops, fields)
            == if e.Crash? then Crashed
               else if e.Abort? then Aborted
               else OpsOutcome(library, record, key, ops[1..], if e.SetTo? then Assign(fields, key, e.v) else fields)
  {
  }

  /** None of the first `j` operations fails. */
  predicate NoCrashBefore(library: Library, record: PhpArray, ops: PhpArray, j: nat)
    requires j <= |ops|
  {
    forall m :: 0 <= m < j ==> OpEffect(library, record, ops[m].0, ops[m].1) != Crash
  }

  lemma NoCrashShift(library: Library, record: PhpArray, ops: PhpArray, j: nat)
    requires 0 < j <= |ops| && NoCrashBefore(library, record, ops, j)
    ensures OpEffect(library, record, ops[0].0, ops[0].1) != Crash
    ensures NoCrashBefore(library, record, ops[1..], j - 1)
  {
    var rest := ops[1..];
    forall m | 0 <= m < j - 1
      ensures OpEffect(library, record, rest[m].0, rest[m].1) != Crash
    {
      assert rest[m] == ops[m + 1];
    }
  }

  /** The `default: return [];` of an unknown operation reached in the loop. */
  lemma {:induction false} OpsAbortAt(library: Library, record: PhpArray, key: string, ops: PhpArray, fields: PhpArray, j: nat)
    requires j < |ops| && !IsKnownOp(ops[j].0)
    requires NoCrashBefore(library, record, ops, j)
    ensures OpsOutcome(library, record, key, ops, fields) == Aborted
    decreases j
  {
    var e := OpEffect(library, record, ops[0].0, ops[0].1);
    OpsUnfold(library, record, key, ops, fields);
    if j == 0 {
      assert e == Abort;
    } else {
      NoCrashShift(library, record, ops, j);
      assert ops[1..][j - 1] == ops[j];
      if !e.Abort? {
        var next := if e.SetTo? then Assign(fields, key, e.v) else fields;
        OpsAbortAt(library, record, key, ops[1..], next, j - 1);
      }
    }
  }

  /** Operations none of which fails never end in a TypeError. */
  lemma {:induction false} OpsCrashFree(library: Library, record: PhpArray, key: string, ops: PhpArray, fields: PhpArray)
    requires NoCrashBefore(library, record, ops, |ops|)
    ensures OpsOutcome(library, record, key, ops, fields) != Crashed
    decreases |ops|
  {
    if ops != [] {
      var e := OpEffect(library, record, ops[0].0, ops[0].1);
      OpsUnfold(library, record, key, ops, fields);
      NoCrashShift(library, record, ops, |ops|);
      if !e.Abort? {
        var next := if e.SetTo? then Assign(fields, key, e.v) else fields;
        OpsCrashFree(library, record, key, ops[1..], next);
      }
    }
  }

  /** An entry without an array offset or a failing operation raises no TypeError. */
  lemma EntryNotCrashed(library: Library, record: PhpArray, key: string, operation: Value, fields: PhpArray)
    requires EntryCrashFree(library, record, key, operation)
    ensures EntryOutcome(library, record, key, operation, fields) != Crashed
  {
    if !IsNumeric(key) && operation.Arr? {
      assert NoCrashBefore(library, record, operation.entries, |operation.entries|);
      OpsCrashFree(library, record, key, operation.entries, fields);
    }
  }

  /** `RecordOutcome` one entry in. */
  lemma RecordUnfold(library: Library, record: PhpArray, entries: PhpArray, fields: PhpArray)
    requires entries != []
    ensures var step := EntryOutcome(library, record, entries[0].0, entries[0].1, fields);
            RecordOutcome(library, record, entries, fields)
            == if step.Done? then RecordOutcome(library, record, entries[1..], step.value) else step
  {
  }

  /** Reaching operation `j` of entry `i > 0` passes the first entry and then reaches it from the rest. */
  lemma ReachesShift(library: Library, record: PhpArray, entries: PhpArray, i: nat, j: nat)
    requires 0 < i && OpAt(entries, i, j) && ReachesOp(library, record, entries, i, j)
    ensures EntryCrashFree(library, record, entries[0].0, entries[0].1)
    ensures entries[1..][i - 1] == entries[i]
    ensures OpAt(entries[1..], i - 1, j) && ReachesOp(library, record, entries[1..], i - 1, j)
  {
    var rest := entries[1..];
    assert rest[i - 1] == entries[i];
    forall e | 0 <= e < i - 1
      ensures EntryCrashFree(library, record, rest[e].0, rest[e].1)
    {
      assert rest[e] == entries[e + 1];
    }
  }

  /** An entry whose operation `j` is unknown, with none failing before it, ends in `[]`. */
  lemma EntryAbortAt(library: Library, record: PhpArray, key: string, operation: Value, fields: PhpArray, j: nat)
    requires !IsNumeric(key) && operation.Arr? && j < |operation.entries|
    requires !IsKnownOp(operation.entries[j].0)
    requires NoCrashBefore(library, record, operation.entries, j)
    ensures EntryOutcome(library, record, key, operation, fields) == Aborted
  {
    OpsAbortAt(library, record, key, operation.entries, fields, j);
  }

  /** A record that reaches an unknown operation ends the call with `[]`. */
  lemma {:induction false} EntriesAbortAt(library: Library, record: PhpArray, entries: PhpArray, fields: PhpArray, i: nat, j: nat)
    requires OpAt(entries, i, j) && !IsKnownOp(entries[i].1.entries[j].0)
    requires ReachesOp(library, record, entries, i, j)
    ensures RecordOutcome(library, record, entries, fields) == Aborted
    decreases i
  {
    var key, operation := entries[0].0, entries[0].1;
    RecordUnfold(library, record, entries, fields);
    if i == 0 {
      EntryAbortAt(library, record, key, operation, fields, j);
    } else {
      ReachesShift(library, record, entries, i, j);
      EntryNotCrashed(library, record, key, operation, fields);
      var step := EntryOutcome(library, record, key, operation, fields);
      if step.Done? {
        EntriesAbortAt(library, record, entries[1..], step.value, i - 1, j);
        assert RecordOutcome(library, record, entries, fields) == RecordOutcome(library, record, entries[1..], step.value);
      } else {
        assert step == Aborted;
      }
    }
  }

  /**
   * An unknown operation name that the first record reaches (no TypeError
   * before it) makes the whole result `[]`, whatever the records hold.
   */
  lemma UnknownOpGivesEmpty(library: Library, arrays: seq<PhpArray>, filterKeys: Value, i: nat, j: nat)
    requires OpAt(Elements(filterKeys), i, j) && !IsKnownOp(Elements(filterKeys)[i].1.entries[j].0)
    requires arrays != [] ==> ReachesOp(library, arrays[0], Elements(filterKeys), i, j)
    ensures Projection(library, arrays, filterKeys) == Some([])
  {
    if arrays != [] {
      EntriesAbortAt(library, arrays[0], Elements(filterKeys), [], i, j);
    }
  }

  /** A parameter `s::x` contributes the literal `x`. */
  lemma ConcatLiteral(record: PhpArray, x: string)
    ensures Concat(record, [Str("s::" + x)]) == Some(x)
  {
    var p := "s::" + x;
    var f := (q: Value) => Piece(record, q);
    assert p[..3] == "s::";
    assert p[3..] == x;
    assert Piece(record, Str(p)) == Some(x);
    assert [Str(p)][0] == Str(p) && [Str(p)][1..] == [];
    assert JoinAll(f, []) == Some("");
    assert JoinAll(f, [Str(p)]) == Some(x + "");
    assert x + "" == x;
  }

  /** The string a field-name parameter contributes: its value as a string, `''` when unset. */
  lemma ConcatFieldOrEmpty(record: PhpArray, field: string)
    requires !StartsWith(field, "s::")
    ensures Concat(record, [Str(field)]) == Some(if IsSet(record, field) then StrVal(Item(record, field)) else "")
  {
    var piece := StrVal(Coalesce(record, field, Str("")));
    assert [Str(field)][1..] == [];
    assert Concat(record, []) == Some("");
    assert Resolve(record, Str(field)) == Some(Coalesce(record, field, Str("")));
    assert Concat(record, [Str(field)]) == Some(piece + "");
    assert piece + "" == piece;
  }

  /** `concat` joins its parameters with no separator. */
  lemma ConcatAppend(record: PhpArray, ps: seq<Value>, qs: seq<Value>)
    requires Concat(record, ps).Some? && Concat(record, qs).Some?
    ensures Concat(record, ps + qs) == Some(Concat(record, ps).value + Concat(record, qs).value)
  {
    JoinAllAppend((p: Value) => Piece(record, p), ps, qs);
  }

  /** The two parameters of the example resolve to "Mr. " and the record's "Lee". */
  lemma ExampleConcat()
    ensures Concat([("name", Str("Lee"))], [Str("s::Mr. "), Str("name")]) == Some("Mr. Lee")
  {
    var record := [("name", Str("Lee"))];
    assert StartsWith("s::Mr. ", "s::");
    assert !StartsWith("name", "s::") by {
      assert "name"[..3][0] != "s::"[0];
    }
    assert Resolve(record, Str("s::Mr. ")) == Some(Str("Mr. "));
    ConcatFieldOrEmpty(record, "name");
    assert Lookup(record, "name") == Some(Str("Lee"));
    assert IsSet(record, "name") && Item(record, "name") == Str("Lee");
    assert Concat(record, [Str("name")]) == Some("Lee");
    assert [Str("s::Mr. "), Str("name")][1..] == [Str("name")];
    assert "Mr. " + "Lee" == "Mr. Lee";
  }

  /** The example's one operation sets the field "full". */
  lemma ExampleOps(library: Library)
    ensures OpsOutcome(library, [("name", Str("Lee"))], "full",
                       [("concat", Arr([("0", Str("s::Mr. ")), ("1", Str("name"))]))], [])
            == Done([("full", Str("Mr. Lee"))])
  {
    var record := [("name", Str("Lee"))];
    var params := [("0", Str("s::Mr. ")), ("1", Str("name"))];
    assert ValuesOf(params) == [Str("s::Mr. "), Str("name")];
    ExampleConcat();
    assert OpEffect(library, record, "concat", Arr(params)) == SetTo(Str("Mr. Lee"));
    assert Assign([], "full", Str("Mr. Lee")) == [("full", Str("Mr. Lee"))];
    assert [("concat", Arr(params))][1..] == [];
  }

  lemma FullIsNotNumeric()
    ensures !IsNumeric("full")
  {
    assert SkipSpace("full", 0) == 0;
    assert SkipSign("full", 0) == 0;
    assert SkipDigits("full", 0) == 0;
  }

  /** `{"full": {"concat": ["s::Mr. ", "name"]}}` on `{"name": "Lee"}` gives `{"full": "Mr. Lee"}`. */
  lemma ConcatExample(library: Library)
    ensures Projection(library, [[("name", Str("Lee"))]],
                       Arr([("full", Arr([("concat", Arr([("0", Str("s::Mr. ")), ("1", Str("name"))]))]))]))
            == Some([[("full", Str("Mr. Lee"))]])
  {
    var record := [("name", Str("Lee"))];
    var params := [("0", Str("s::Mr. ")), ("1", Str("name"))];
    var ops := [("concat", Arr(params))];
    var out := [("full", Str("Mr. Lee"))];
    ExampleOps(library);
    FullIsNotNumeric();
    var entries := [("full", Arr(ops))];
    assert EntryOutcome(library, record, "full", Arr(ops), []) == Done(out);
    assert entries[1..] == [];
    assert RecordOutcome(library, record, entries, []) == Done(out);
    assert [record][1..] == [];
    assert RunOutcome(library, [record][1..], entries) == Done([]);
    assert [out] + [] == [out];
    assert RunOutcome(library, [record], entries) == Done([out]);
  }

  // ---------------------------------------------------------------------
  // A plain list of field names
  // ---------------------------------------------------------------------

  /** `$filterKeys` as a list of field names (`['name', 'age']`). */
  predicate FieldList(entries: PhpArray) {
    forall i :: 0 <= i < |entries| ==> IsNumeric(entries[i].0) && entries[i].1.Str?
  }

  function FieldNames(entries: PhpArray): (names: seq<string>)
    requires FieldList(entries)
    ensures forall k :: k in names <==> exists i :: 0 <= i < |entries| && entries[i].1 == Str(k)
  {
    if entries == [] then []
    else
      var rest := FieldNames(entries[1..]);
      FieldNamesStep(entries, rest);
      [entries[0].1.s] + rest
  }

  /** The step of `FieldNames`: the head's name goes in front of the tail's. */
  lemma FieldNamesStep(entries: PhpArray, rest: seq<string>)
    requires entries != [] && entries[0].1.Str?
    requires forall k :: k in rest <==> exists i :: 0 <= i < |entries[1..]| && entries[1..][i].1 == Str(k)
    ensures forall k :: k in [entries[0].1.s] + rest <==> exists i :: 0 <= i < |entries| && entries[i].1 == Str(k)
  {
    var tail := entries[1..];
    forall k
      ensures k in [entries[0].1.s] + rest <==> exists i :: 0 <= i < |entries| && entries[i].1 == Str(k)
    {
      if k in rest {
        var i :| 0 <= i < |tail| && tail[i].1 == Str(k);
        assert entries[i + 1].1 == Str(k);
      }
      if k == entries[0].1.s {
        assert entries[0].1 == Str(k);
      }
      if exists i :: 0 <= i < |entries| && entries[i].1 == Str(k) {
        var i :| 0 <= i < |entries| && entries[i].1 == Str(k);
        if i > 0 {
          assert tail[i - 1].1 == Str(k);
        }
      }
    }
  }

  /**
   * With a list of field names, each record keeps exactly the named
   * fields it has set, with their values, and gains no other field.
   */
  lemma {:induction false} FieldListKeepsSetFields(library: Library, record: PhpArray, entries: PhpArray, fields: PhpArray, k: string)
    requires FieldList(entries)
    ensures RecordOutcome(library, record, entries, fields).Done?
    ensures Lookup(RecordOutcome(library, record, entries, fields).value, k)
            == if k in FieldNames(entries) && IsSet(record, k) then Lookup(record, k) else Lookup(fields, k)
    decreases |entries|
  {
    if entries != [] {
      var name := entries[0].1.s;
      assert FieldList(entries[1..]) by {
        forall i | 0 <= i < |entries[1..]| ensures IsNumeric(entries[1..][i].0) && entries[1..][i].1.Str? {
          assert entries[1..][i] == entries[i + 1];
        }
      }
      var next := if IsSet(record, name) then Assign(fields, name, Item(record, name)) else fields;
      assert EntryOutcome(library, record, entries[0].0, entries[0].1, fields) == Done(next);
      FieldListKeepsSetFields(library, record, entries[1..], next, k);
      assert FieldNames(entries) == [name] + FieldNames(entries[1..]);
    }
  }
}
