/**
 * The `SwartzDB` object. Its state is what `get` reads back from each
 * `.sdb` file once both encryption layers are removed and the JSON is
 * decoded: a collection of records per file name. `remove_row` and
 * `update_row` rebuild a collection in a loop and write it back with
 * `put`; `add_row` and `addJsonDirect` append to it and write it back;
 * `get_row` and `getKeys` only read it.
 */
module Store {
  import opened PhpValue
  import opened Conditions
  import opened Rows
  import Schema

  /**
   * The shaping at the end of `get`: an empty collection gives `[]`, the
   * form "" the records as they are, "reverse" the records reversed; any
   * other form reaches the end of the function, which returns null (None).
   */
  function Shape(decoded: seq<PhpArray>, form: string): (r: Option<seq<PhpArray>>)
    ensures r.Some? <==> decoded == [] || form == "" || form == "reverse"
    ensures r.Some? ==> |r.value| == |decoded| && forall x :: x in r.value <==> x in decoded
    ensures r.Some? && form == "reverse" ==> r.value == Reverse(decoded)
    ensures r.Some? && form != "reverse" ==> r.value == decoded
  {
    if decoded == [] then Some([])
    else if form == "" then Some(decoded)
    else if form == "reverse" then
      var rev := Reverse(decoded);
      assert forall x :: x in rev <==> x in decoded by {
        forall x ensures x in rev <==> x in decoded {
          if x in decoded {
            var i :| 0 <= i < |decoded| && decoded[i] == x;
            assert rev[|decoded| - 1 - i] == x;
          }
        }
      }
      Some(rev)
    else None
  }

  /** Reading a collection reversed twice gives it back. */
  lemma ShapeReverseTwice(decoded: seq<PhpArray>)
    ensures Shape(Shape(decoded, "reverse").value, "reverse") == Some(decoded)
  {
    ReverseReverse(decoded);
  }

  class SwartzDB {
    /** The decoded collection in each file; a name not in the map has no readable file. */
    var files: map<string, seq<PhpArray>>
    /** PHP 8's `<=>`, which every condition leaf compares with. */
    const cmp: Comparator

    constructor(cmp: Comparator, files: map<string, seq<PhpArray>>)
      ensures this.cmp == cmp && this.files == files
    {
      this.cmp := cmp;
      this.files := files;
    }

    /** `get($file, $form)`: None is the null returned when the file cannot be read. */
    function Get(file: string, form: string): (r: Option<seq<PhpArray>>)
      reads this
      ensures file !in files ==> r == None
      ensures file in files && form == "" ==> r == Some(files[file])
      ensures file in files && form == "reverse" ==> r == Some(Reverse(files[file]))
      ensures file in files && files[file] != [] && form != "" && form != "reverse" ==> r == None
    {
      if file in files then Shape(files[file], form) else None
    }

    /** The records a row operation visits: `foreach` over the null of an unreadable file visits none. */
    function Stored(file: string): seq<PhpArray>
      reads this
    {
      if file in files then files[file] else []
    }

    /** `put($file, json_encode($content))`: the file now holds `content`. */
    method Put(file: string, content: seq<PhpArray>)
      modifies this
      ensures files == old(files)[file := content]
      ensures Get(file, "") == Some(content)
    {
      files := files[file := content];
    }

    /** `get($file)` as the row operations call it, with an unreadable file as no records. */
    method ReadAll(file: string) returns (data: seq<PhpArray>, readable: bool)
      ensures data == Stored(file)
      ensures readable <==> file in files
    {
      var got := Get(file, "");
      readable := got.Some?;
      data := if got.Some? then got.value else [];
    }

    /**
     * `remove_row`: the file afterwards holds exactly the rows the
     * conditions do not match, in their original order (an unreadable file
     * becomes an empty collection).
     */
    method RemoveRow(file: string, conditions: Value)
      modifies this
      ensures files == old(files)[file := Reject(cmp, old(Stored(file)), conditions)]
    {
      var data, _ := ReadAll(file);
      var newData := [];
      var i := 0;
      while i < |data|
        invariant 0 <= i <= |data|
        invariant newData == Reject(cmp, data[..i], conditions)
        modifies {}
      {
        var matched, _ := EvaluateConditions(cmp, data[i], conditions);
        if !matched {
          newData := newData + [data[i]];
        }
        RejectStep(cmp, data, i, conditions);
        i := i + 1;
      }
      assert data[..i] == data;
      Put(file, newData);
    }

    /**
     * `update_row`: every matching row gets each `$newValues` field. An
     * unreadable file makes `array_values(null)` fail before anything is
     * written (`written` is false).
     */
    method UpdateRow(file: string, conditions: Value, newValues: PhpArray) returns (written: bool)
      modifies this
      ensures written <==> file in old(files)
      ensures written ==> files == old(files)[file := UpdateAll(cmp, old(files[file]), conditions, newValues)]
      ensures !written ==> files == old(files)
    {
      var data, readable := ReadAll(file);
      if !readable {
        return false;
      }
      ghost var rows := data;
      ghost var target := UpdateAll(cmp, rows, conditions, newValues);
      var i := 0;
      while i < |data|
        invariant 0 <= i <= |data| == |rows|
        invariant forall k :: 0 <= k < i ==> data[k] == target[k]
        invariant forall k :: i <= k < |data| ==> data[k] == rows[k]
        modifies {}
      {
        var row := data[i];
        var matched, _ := EvaluateConditions(cmp, row, conditions);
        ghost var before := data;
        if matched {
          var patched := PatchRow(row, newValues);
          data := data[i := patched];
        }
        UpdateStep(cmp, rows, conditions, newValues, before, data, i);
        i := i + 1;
      }
      assert data == target;
      Put(file, data);
      written := true;
    }

    /** `add_row`: the record goes at the end (an unreadable file starts a new collection). */
    method AddRow(file: string, code: PhpArray)
      modifies this
      ensures files == old(files)[file := old(Stored(file)) + [code]]
    {
      var dataV, _ := ReadAll(file);
      dataV := dataV + [code];
      Put(file, dataV);
    }

    /**
     * `addJsonDirect` with a list of records (passed as separate arguments
     * or as one list): `array_merge` appends them. An unreadable file makes
     * `array_merge(null, …)` fail before anything is written.
     */
    method AddJsonDirect(file: string, code: seq<PhpArray>) returns (written: bool)
      modifies this
      ensures written <==> file in old(files)
      ensures written ==> files == old(files)[file := old(files[file]) + code]
      ensures !written ==> files == old(files)
    {
      var dataV, readable := ReadAll(file);
      if !readable {
        return false;
      }
      Put(file, dataV + code);
      written := true;
    }

    /**
     * `get_row`: the matching rows in their stored order, or reversed for
     * the form "reverse"; the collection is not changed.
     */
    method GetRow(file: string, conditions: Value, form: string) returns (r: seq<PhpArray>)
      ensures r == if form == "reverse" then Reverse(Select(cmp, Stored(file), conditions))
                   else Select(cmp, Stored(file), conditions)
    {
      var recvDD, _ := ReadAll(file);
      var filteredData := [];
      var i := 0;
      while i < |recvDD|
        invariant 0 <= i <= |recvDD|
        invariant filteredData == Select(cmp, recvDD[..i], conditions)
      {
        var matched, _ := EvaluateConditions(cmp, recvDD[i], conditions);
        if matched {
          filteredData := filteredData + [recvDD[i]];
        }
        SelectStep(cmp, recvDD, i, conditions);
        i := i + 1;
      }
      assert recvDD[..i] == recvDD;
      if filteredData == [] {
        return [];
      }
      r := if form == "reverse" then Reverse(filteredData) else filteredData;
    }

    /**
     * `getKeys`: the schema of the collection, built from the last
     * `count($result)` flattened paths; an unreadable file has the empty schema.
     */
    method GetKeys(file: string) returns (schema: Schema.Trie)
      ensures schema == if file in files then Schema.SchemaOf(files[file]) else Schema.Node([])
    {
      var result, readable := ReadAll(file);
      if !readable {
        return Schema.Node([]);
      }
      var list := Schema.AsList(result);
      var keys := Schema.CollectKeys(Arr(list), list, "", []);
      assert keys == Schema.Flatten(result);
      var lastKeys := Schema.Unique(Schema.TailSlice(keys, |result|));
      schema := Schema.DisplayInputArray(lastKeys);
    }
  }

  /**
   * The inner loop of `update_row`, `foreach ($newValues as $f => $v)
   * $data[$key][$f] = $v;`, on the row at `$key`.
   */
  method PatchRow(row: PhpArray, newValues: PhpArray) returns (patched: PhpArray)
    ensures patched == Patch(row, newValues)
  {
    patched := row;
    var j := 0;
    while j < |newValues|
      invariant 0 <= j <= |newValues|
      invariant Patch(patched, newValues[j..]) == Patch(row, newValues)
    {
      assert newValues[j..][1..] == newValues[j + 1..];
      patched := Assign(patched, newValues[j].0, newValues[j].1);
      j := j + 1;
    }
  }

  /**
   * One step of the row loop in `SwartzDB.UpdateRow`: row `i` now holds
   * what `UpdateAll` puts there, and the later rows are untouched.
   */
  lemma UpdateStep(cmp: Comparator, rows: seq<PhpArray>, conditions: Value, newValues: PhpArray,
                   before: seq<PhpArray>, after: seq<PhpArray>, i: nat)
    requires i < |rows| == |before|
    requires forall k :: 0 <= k < i ==> before[k] == UpdateAll(cmp, rows, conditions, newValues)[k]
    requires forall k :: i <= k < |before| ==> before[k] == rows[k]
    requires after == if Matches(cmp, rows[i], conditions) then before[i := Patch(rows[i], newValues)] else before
    ensures |after| == |rows|
    ensures forall k :: 0 <= k < i + 1 ==> after[k] == UpdateAll(cmp, rows, conditions, newValues)[k]
    ensures forall k :: i + 1 <= k < |after| ==> after[k] == rows[k]
  {
  }

  /**
   * After `remove_row`, `get_row` with the same conditions finds nothing,
   * and a second `remove_row` leaves the file as it is.
   */
  lemma RemoveThenSelect(cmp: Comparator, rows: seq<PhpArray>, conditions: Value)
    ensures Select(cmp, Reject(cmp, rows, conditions), conditions) == []
    ensures Reject(cmp, Reject(cmp, rows, conditions), conditions) == Reject(cmp, rows, conditions)
  {
    RejectIdempotent(cmp, rows, conditions);
    var left := Reject(cmp, rows, conditions);
    forall i | 0 <= i < |left|
      ensures !Matches(cmp, left[i], conditions)
    {
      assert left[i] in left;
    }
    SelectNone(cmp, left, conditions);
  }
}
