/**
 * The schema `getKeys` reports for a collection. A recursive closure
 * flattens the records into key paths `i[k1][k2]…`. The last
 * `count($result)` paths are kept without duplicates, and
 * `displayInputArray` rebuilds them into a nested array of empty arrays:
 * here a trie of field names.
 */
module Schema {
  import opened PhpValue

  // ---------------------------------------------------------------------
  // Flattening
  // ---------------------------------------------------------------------

  /** `$parentKey !== '' ? $parentKey . '[' . $key . ']' : $key`. */
  function CurrentKey(parentKey: string, key: string): string {
    if parentKey != "" then parentKey + "[" + key + "]" else key
  }

  lemma StartsWithTrans(a: string, b: string, c: string)
    requires StartsWith(a, b) && StartsWith(b, c)
    ensures StartsWith(a, c)
  {
    assert a[..|c|] == a[..|b|][..|c|];
  }

  lemma StartsWithAppend(a: string, b: string)
    ensures StartsWith(a + b, a)
  {
    assert (a + b)[..|a|] == a;
  }

  /**
   * The paths the closure appends to `$keys` for the entries of one array:
   * one per scalar leaf, in depth-first order, each under `parentKey`.
   */
  function KeyPaths(ghost outer: Value, entries: PhpArray, parentKey: string): (paths: seq<string>)
    requires forall i :: 0 <= i < |entries| ==> entries[i].1 < outer
    ensures parentKey != "" ==> forall p :: p in paths ==> StartsWith(p, parentKey + "[")
    decreases outer, |entries|
  {
    if entries == [] then []
    else
      var key, value := entries[0].0, entries[0].1;
      var currentKey := CurrentKey(parentKey, key);
      var here := if value.Arr? then KeyPaths(value, value.entries, currentKey) else [currentKey];
      var rest := KeyPaths(outer, entries[1..], parentKey);
      assert parentKey != "" ==> forall p :: p in here ==> StartsWith(p, parentKey + "[") by {
        if parentKey != "" {
          StartsWithAppend(parentKey + "[", key + "]");
          assert currentKey == (parentKey + "[") + (key + "]");
          if value.Arr? {
            StartsWithAppend(currentKey, "[");
            forall p | p in here ensures StartsWith(p, parentKey + "[") {
              StartsWithTrans(p, currentKey + "[", currentKey);
              StartsWithTrans(p, currentKey, parentKey + "[");
            }
          }
        }
      }
      here + rest
  }

  /** The decoded collection as the PHP list `[0 => record0, 1 => record1, …]`. */
  function AsList(rows: seq<PhpArray>): (list: PhpArray)
    ensures |list| == |rows|
    ensures forall i :: 0 <= i < |rows| ==> list[i] == (NatToString(i), Arr(rows[i]))
  {
    seq(|rows|, i requires 0 <= i < |rows| => (NatToString(i), Arr(rows[i])))
  }

  /** `$removeDuplicatesRecursive($result)`: every leaf path of the collection. */
  function Flatten(rows: seq<PhpArray>): seq<string> {
    KeyPaths(Arr(AsList(rows)), AsList(rows), "")
  }

  /**
   * `array_slice($keys, -$n)`: the last `n` paths, or all of them when
   * there are fewer, or when `n` is 0 (`-0` is offset 0).
   */
  function TailSlice(keys: seq<string>, n: nat): (r: seq<string>)
    ensures n == 0 || n >= |keys| ==> r == keys
    ensures 0 < n < |keys| ==> |r| == n && keys == keys[..|keys| - n] + r
  {
    if n == 0 || n >= |keys| then keys else keys[|keys| - n..]
  }

  /** `array_values(array_unique($s))`: first occurrences, in order. */
  function Unique(s: seq<string>): (r: seq<string>)
    ensures forall x :: x in r <==> x in s
    ensures forall i, j :: 0 <= i < j < |r| ==> r[i] != r[j]
  {
    if s == [] then []
    else
      var front := Unique(s[..|s| - 1]);
      assert s == s[..|s| - 1] + [s[|s| - 1]];
      if s[|s| - 1] in front then front else front + [s[|s| - 1]]
  }

  // ---------------------------------------------------------------------
  // Parsing a path
  // ---------------------------------------------------------------------

  /**
   * Group 1 of `preg_match('/^\d+\[(.*?)\]$/', $item)`: after the leading
   * digits and `[`, up to the closing `]` at the end (or just before a final
   * newline), with no newline inside.
   */
  function PathMiddle(item: string): (r: Option<string>)
    ensures r.Some? ==> '\n' !in r.value
    ensures r.Some? ==>
              var d := SkipDigits(item, 0);
              d > 0 && (item == item[..d] + "[" + r.value + "]" || item == item[..d] + "[" + r.value + "]\n")
  {
    var d := SkipDigits(item, 0);
    if d == 0 || d >= |item| || item[d] != '[' then None
    else
      var close :=
        if item[|item| - 1] == ']' then |item| - 1
        else if |item| >= 2 && item[|item| - 1] == '\n' && item[|item| - 2] == ']' then |item| - 2
        else d;
      if close <= d || '\n' in item[d + 1..close] then None
      else
        assert item == item[..d] + [item[d]] + item[d + 1..close] + item[close..];
        assert item[close..] == if close == |item| - 1 then "]" else "]\n";
        Some(item[d + 1..close])
  }

  /** The first index at or after `i` where "][" starts, or `|s|` when there is none. */
  function FindSep(s: string, i: nat): (j: nat)
    requires i <= |s|
    ensures i <= j <= |s|
    ensures j < |s| ==> j + 1 < |s| && s[j] == ']' && s[j + 1] == '['
    ensures forall k :: i <= k < j && k + 1 < |s| ==> !(s[k] == ']' && s[k + 1] == '[')
    decreases |s| - i
  {
    if i + 1 >= |s| then |s|
    else if s[i] == ']' && s[i + 1] == '[' then i
    else FindSep(s, i + 1)
  }

  /** `explode('][', $s)`. */
  function Explode(s: string): (parts: seq<string>)
    ensures |parts| >= 1
    ensures Join(parts) == s
    decreases |s|
  {
    var j := FindSep(s, 0);
    if j == |s| then [s]
    else
      var rest := Explode(s[j + 2..]);
      assert s == s[..j] + "][" + s[j + 2..];
      assert ([s[..j]] + rest)[0] == s[..j] && ([s[..j]] + rest)[1..] == rest;
      [s[..j]] + rest
  }

  // ---------------------------------------------------------------------
  // The nested result
  // ---------------------------------------------------------------------

  /** A nested PHP array whose leaves are all `[]`. */
  datatype Trie = Node(children: seq<(string, Trie)>)

  /**
   * `foreach ($keys as $key)` walking `$nestedArray` down from the root,
   * creating each missing level as `[]` and leaving existing ones as they are.
   */
  function InsertPath(t: Trie, keys: seq<string>): (r: Trie)
    ensures HasPath(r, keys)
    decreases |keys|
  {
    if keys == [] then t
    else
      var child := match Lookup(t.children, keys[0]) case Some(c) => c case None => Node([]);
      Node(Assign(t.children, keys[0], InsertPath(child, keys[1..])))
  }

  /** The trie spells the key sequence `p` from its root. */
  predicate HasPath(t: Trie, p: seq<string>)
    decreases |p|
  {
    p == [] ||
    match Lookup(t.children, p[0])
    case Some(c) => HasPath(c, p[1..])
    case None => false
  }

  /** After inserting `keys`, the paths are the old ones and the prefixes of `keys`. */
  lemma {:induction false} InsertPathSpells(t: Trie, keys: seq<string>, p: seq<string>)
    ensures HasPath(InsertPath(t, keys), p) <==> HasPath(t, p) || p <= keys
    decreases |keys|
  {
    if keys != [] && p != [] {
      var child := match Lookup(t.children, keys[0]) case Some(c) => c case None => Node([]);
      InsertPathSpells(child, keys[1..], p[1..]);
      if p[0] == keys[0] {
        assert p <= keys <==> p[1..] <= keys[1..];
        if Lookup(t.children, keys[0]).None? {
          assert !HasPath(Node([]), p[1..]) <== p[1..] != [];
        }
      }
    }
  }

  /** The paths every matched item of `$inputArray` contributes. */
  function ItemKeys(item: string): seq<string> {
    match PathMiddle(item)
    case Some(m) => Explode(m)
    case None => []
  }

  /** `displayInputArray($inputArray)` from the current item on. */
  function BuildTrie(t: Trie, items: seq<string>): Trie
    decreases |items|
  {
    if items == [] then t
    else BuildTrie(if PathMiddle(items[0]).Some? then InsertPath(t, ItemKeys(items[0])) else t, items[1..])
  }

  /** The item is matched and `p` is a prefix of its key list. */
  predicate Spells(item: string, p: seq<string>) {
    PathMiddle(item).Some? && p <= ItemKeys(item)
  }

  /** Some item of the list spells `p`. */
  predicate SomeSpells(items: seq<string>, p: seq<string>) {
    exists i :: 0 <= i < |items| && Spells(items[i], p)
  }

  lemma SomeSpellsCons(items: seq<string>, p: seq<string>)
    requires items != []
    ensures SomeSpells(items, p) <==> Spells(items[0], p) || SomeSpells(items[1..], p)
  {
    if SomeSpells(items, p) && !Spells(items[0], p) {
      var i :| 0 <= i < |items| && Spells(items[i], p);
      assert items[1..][i - 1] == items[i];
    }
    if SomeSpells(items[1..], p) {
      var i :| 0 <= i < |items[1..]| && Spells(items[1..][i], p);
      assert items[1..][i] == items[i + 1];
    }
  }

  /**
   * The result of `displayInputArray` spells exactly the prefixes of the
   * key lists of the matched items (and what the starting trie had).
   */
  lemma {:induction false} BuildTrieSpells(t: Trie, items: seq<string>, p: seq<string>)
    ensures HasPath(BuildTrie(t, items), p) <==> HasPath(t, p) || SomeSpells(items, p)
    decreases |items|
  {
    if items != [] {
      var next := if PathMiddle(items[0]).Some? then InsertPath(t, ItemKeys(items[0])) else t;
      assert BuildTrie(t, items) == BuildTrie(next, items[1..]);
      BuildTrieSpells(next, items[1..], p);
      if PathMiddle(items[0]).Some? {
        InsertPathSpells(t, ItemKeys(items[0]), p);
      }
      SomeSpellsCons(items, p);
    }
  }

  /** What `getKeys` builds from a readable collection; an empty one has the empty schema. */
  function SchemaOf(rows: seq<PhpArray>): (r: Trie)
    ensures rows == [] ==> r == Node([])
  {
    BuildTrie(Node([]), Unique(TailSlice(Flatten(rows), |rows|)))
  }

  /** Whether some item spells `p` depends only on which items there are. */
  lemma SomeSpellsMembers(a: seq<string>, b: seq<string>, p: seq<string>)
    requires forall x :: x in a <==> x in b
    ensures SomeSpells(a, p) <==> SomeSpells(b, p)
  {
    if SomeSpells(a, p) {
      var i :| 0 <= i < |a| && Spells(a[i], p);
      assert a[i] in b;
    }
    if SomeSpells(b, p) {
      var i :| 0 <= i < |b| && Spells(b[i], p);
      assert b[i] in a;
    }
  }

  /**
   * The schema spells `p` exactly when one of the last `count($result)`
   * flattened paths parses into a key list that `p` is a prefix of.
   */
  lemma SchemaSpells(rows: seq<PhpArray>, p: seq<string>)
    ensures HasPath(SchemaOf(rows), p) <==> p == [] || SomeSpells(TailSlice(Flatten(rows), |rows|), p)
  {
    var sliced := TailSlice(Flatten(rows), |rows|);
    BuildTrieSpells(Node([]), Unique(sliced), p);
    assert HasPath(Node([]), p) <==> p == [];
    SomeSpellsMembers(Unique(sliced), sliced, p);
  }

  /** The flattener finds one path per field: `0[a]` and `0[b]` for the record `{"a": 1, "b": 2}`. */
  lemma FlattenExample()
    ensures Flatten([[("a", Int(1)), ("b", Int(2))]]) == ["0[a]", "0[b]"]
  {
    var rec: PhpArray := [("a", Int(1)), ("b", Int(2))];
    var rows := [rec];
    assert NatToString(0) == "0";
    var list := AsList(rows);
    assert list == [("0", Arr(rec))];
    assert CurrentKey("0", "a") == "0[a]" && CurrentKey("0", "b") == "0[b]";
    assert rec[1..] == [("b", Int(2))] && rec[1..][1..] == [];
    assert KeyPaths(Arr(rec), rec[1..][1..], "0") == [];
    assert KeyPaths(Arr(rec), rec[1..], "0") == ["0[b]"];
    assert KeyPaths(Arr(rec), rec, "0") == ["0[a]", "0[b]"];
    assert KeyPaths(Arr(list), list[1..], "") == [];
  }

  /** The path `0[b]` parses into the key list `["b"]`. */
  lemma ExamplePath()
    ensures ItemKeys("0[b]") == ["b"]
  {
    PathRoundTrip(0, ["b"]);
    assert NatToString(0) == "0";
    assert BracketPath("0", ["b"]) == "0[b]";
  }

  /** The trie built from that single path. */
  lemma ExampleTrie()
    ensures BuildTrie(Node([]), ["0[b]"]) == Node([("b", Node([]))])
  {
    ExamplePath();
    assert InsertPath(Node([]), []) == Node([]);
    assert InsertPath(Node([]), ["b"]) == Node([("b", Node([]))]);
    assert ["0[b]"][1..] == [];
  }

  /**
   * The slice keeps `count($result)` paths, one per record, not one per
   * field: for the single record `{"a": 1, "b": 2}` the schema has only `b`.
   */
  lemma OnePathPerRecord()
    ensures SchemaOf([[("a", Int(1)), ("b", Int(2))]]) == Node([("b", Node([]))])
  {
    var rows := [[("a", Int(1)), ("b", Int(2))]];
    FlattenExample();
    var sliced := TailSlice(Flatten(rows), |rows|);
    assert sliced == ["0[b]"];
    assert ["0[b]"][..0] == [];
    assert Unique(sliced) == ["0[b]"];
    ExampleTrie();
  }

  // ---------------------------------------------------------------------
  // Paths round-trip
  // ---------------------------------------------------------------------

  /** The path the closure builds for a leaf reached through `keys` below `parentKey`. */
  function BracketPath(parentKey: string, keys: seq<string>): string
    decreases |keys|
  {
    if keys == [] then parentKey else BracketPath(parentKey + "[" + keys[0] + "]", keys[1..])
  }

  /** `implode('][', $keys)`. */
  function Join(keys: seq<string>): string
    requires keys != []
  {
    if |keys| == 1 then keys[0] else keys[0] + "][" + Join(keys[1..])
  }

  /** A field name that survives the round trip: no `]` and no newline. */
  predicate PlainKey(k: string) {
    forall i :: 0 <= i < |k| ==> k[i] != ']' && k[i] != '\n'
  }

  lemma {:induction false} BracketPathIsJoin(parentKey: string, keys: seq<string>)
    requires keys != []
    ensures BracketPath(parentKey, keys) == parentKey + "[" + Join(keys) + "]"
    decreases |keys|
  {
    if |keys| > 1 {
      BracketPathIsJoin(parentKey + "[" + keys[0] + "]", keys[1..]);
      assert parentKey + "[" + keys[0] + "]" + "[" + Join(keys[1..]) + "]"
             == parentKey + "[" + (keys[0] + "][" + Join(keys[1..])) + "]";
    }
  }

  lemma {:induction false} JoinHasNoNewline(keys: seq<string>)
    requires keys != [] && forall i :: 0 <= i < |keys| ==> PlainKey(keys[i])
    ensures '\n' !in Join(keys)
  {
    if |keys| > 1 {
      assert PlainKey(keys[0]);
      JoinHasNoNewline(keys[1..]);
      assert forall i :: 0 <= i < |keys[0]| ==> keys[0][i] != '\n';
    }
  }

  lemma {:induction false} ExplodeJoin(keys: seq<string>)
    requires keys != [] && forall i :: 0 <= i < |keys| ==> PlainKey(keys[i])
    ensures Explode(Join(keys)) == keys
  {
    var k := keys[0];
    assert PlainKey(k);
    var s := Join(keys);
    var j := FindSep(s, 0);
    if |keys| == 1 {
      assert forall i :: 0 <= i < |s| ==> s[i] != ']';
      assert j == |s|;
    } else {
      var rest := Join(keys[1..]);
      assert s == k + "][" + rest;
      assert s[|k|] == ']' && s[|k| + 1] == '[';
      assert forall i :: 0 <= i < |k| ==> s[i] != ']';
      assert j == |k|;
      assert s[..j] == k;
      assert s[j + 2..] == rest;
      ExplodeJoin(keys[1..]);
    }
  }

  lemma DigitsThenBracket(d: string, rest: string)
    requires d != [] && forall i :: 0 <= i < |d| ==> IsDigit(d[i])
    requires rest != [] && rest[0] == '['
    ensures SkipDigits(d + rest, 0) == |d|
  {
    var s := d + rest;
    assert !IsDigit(s[|d|]);
    assert forall i :: 0 <= i < |d| ==> IsDigit(s[i]);
  }

  /** `preg_match` finds the middle of a path `digits[middle]`. */
  lemma MiddleOfPath(d: string, m: string)
    requires d != [] && forall i :: 0 <= i < |d| ==> IsDigit(d[i])
    requires '\n' !in m
    ensures PathMiddle(d + "[" + m + "]") == Some(m)
  {
    var item := d + "[" + m + "]";
    assert item == d + ("[" + m + "]");
    DigitsThenBracket(d, "[" + m + "]");
    assert item[|d|] == '[';
    assert item[|item| - 1] == ']';
    assert item[|d| + 1..|item| - 1] == m;
  }

  /**
   * The paths of fields with plain names parse back into their key lists:
   * `displayInputArray` recovers the nesting that the flattener encoded.
   */
  lemma PathRoundTrip(n: nat, keys: seq<string>)
    requires keys != [] && forall i :: 0 <= i < |keys| ==> PlainKey(keys[i])
    ensures ItemKeys(BracketPath(NatToString(n), keys)) == keys
  {
    BracketPathIsJoin(NatToString(n), keys);
    JoinHasNoNewline(keys);
    MiddleOfPath(NatToString(n), Join(keys));
    ExplodeJoin(keys);
  }

  /** One step of the closure's loop: the paths of entry `i` come before those of the rest. */
  lemma KeyPathsStep(outer: Value, entries: PhpArray, parentKey: string, i: nat, before: seq<string>, here: seq<string>)
    requires forall k :: 0 <= k < |entries| ==> entries[k].1 < outer
    requires i < |entries|
    requires var key, value := entries[i].0, entries[i].1;
             here == if value.Arr? then KeyPaths(value, value.entries, CurrentKey(parentKey, key))
                     else [CurrentKey(parentKey, key)]
    ensures before + KeyPaths(outer, entries[i..], parentKey) == (before + here) + KeyPaths(outer, entries[i + 1..], parentKey)
  {
    assert entries[i..][0] == entries[i] && entries[i..][1..] == entries[i + 1..];
  }

  // ---------------------------------------------------------------------
  // The paths the closure builds are bracket paths of the records' fields
  // ---------------------------------------------------------------------

  /** `[k] + l` for each key list `l`. */
  function PrefixAll(k: string, ls: seq<seq<string>>): (r: seq<seq<string>>)
    ensures |r| == |ls| && forall i :: 0 <= i < |ls| ==> r[i] == [k] + ls[i]
  {
    seq(|ls|, i requires 0 <= i < |ls| => [k] + ls[i])
  }

  /** The bracket path under `parentKey` of each key list. */
  function Brackets(parentKey: string, ls: seq<seq<string>>): (r: seq<string>)
    ensures |r| == |ls| && forall i :: 0 <= i < |ls| ==> r[i] == BracketPath(parentKey, ls[i])
  {
    seq(|ls|, i requires 0 <= i < |ls| => BracketPath(parentKey, ls[i]))
  }

  /**
   * The key lists that lead from an array to each of its scalar leaves,
   * in depth-first order; none is empty.
   */
  function LeafKeys(ghost outer: Value, entries: PhpArray): (ls: seq<seq<string>>)
    requires forall i :: 0 <= i < |entries| ==> entries[i].1 < outer
    ensures forall i :: 0 <= i < |ls| ==> ls[i] != []
    decreases outer, |entries|
  {
    if entries == [] then []
    else
      var key, value := entries[0].0, entries[0].1;
      var here := if value.Arr? then PrefixAll(key, LeafKeys(value, value.entries)) else [[key]];
      here + LeafKeys(outer, entries[1..])
  }

  lemma BracketsAppend(parentKey: string, xs: seq<seq<string>>, ys: seq<seq<string>>)
    ensures Brackets(parentKey, xs + ys) == Brackets(parentKey, xs) + Brackets(parentKey, ys)
  {
    var l, r := Brackets(parentKey, xs + ys), Brackets(parentKey, xs) + Brackets(parentKey, ys);
    assert forall i :: 0 <= i < |xs| ==> (xs + ys)[i] == xs[i];
    assert forall i :: |xs| <= i < |xs| + |ys| ==> (xs + ys)[i] == ys[i - |xs|];
    assert forall i :: 0 <= i < |l| ==> l[i] == r[i];
  }

  lemma BracketsPrefix(parentKey: string, k: string, ls: seq<seq<string>>)
    ensures Brackets(parentKey, PrefixAll(k, ls)) == Brackets(parentKey + "[" + k + "]", ls)
  {
    forall i | 0 <= i < |ls|
      ensures BracketPath(parentKey, [k] + ls[i]) == BracketPath(parentKey + "[" + k + "]", ls[i])
    {
      assert ([k] + ls[i])[0] == k && ([k] + ls[i])[1..] == ls[i];
    }
  }

  /**
   * Below a non-empty parent key, the closure's paths are exactly the
   * bracket paths of the array's leaf key lists, in the same order.
   */
  lemma {:induction false} KeyPathsAreBracketPaths(outer: Value, entries: PhpArray, parentKey: string)
    requires forall i :: 0 <= i < |entries| ==> entries[i].1 < outer
    requires parentKey != ""
    ensures KeyPaths(outer, entries, parentKey) == Brackets(parentKey, LeafKeys(outer, entries))
    decreases outer, |entries|
  {
    if entries != [] {
      var key, value := entries[0].0, entries[0].1;
      var ck := CurrentKey(parentKey, key);
      assert ck == parentKey + "[" + key + "]";
      var here := if value.Arr? then PrefixAll(key, LeafKeys(value, value.entries)) else [[key]];
      if value.Arr? {
        KeyPathsAreBracketPaths(value, value.entries, ck);
        BracketsPrefix(parentKey, key, LeafKeys(value, value.entries));
      } else {
        assert [key][0] == key && [key][1..] == [];
        assert BracketPath(parentKey, [key]) == BracketPath(ck, []) == ck;
        assert Brackets(parentKey, here)[0] == ck;
        assert Brackets(parentKey, here) == [ck];
      }
      KeyPathsAreBracketPaths(outer, entries[1..], parentKey);
      BracketsAppend(parentKey, here, LeafKeys(outer, entries[1..]));
    }
  }

  /** The bracket paths of the records from the `i`-th on, each under its index. */
  function RecordPaths(rows: seq<PhpArray>, i: nat): seq<string>
    requires i <= |rows|
    decreases |rows| - i
  {
    if i == |rows| then []
    else Brackets(NatToString(i), LeafKeys(Arr(rows[i]), rows[i])) + RecordPaths(rows, i + 1)
  }

  lemma {:induction false} FlattenFrom(rows: seq<PhpArray>, i: nat)
    requires i <= |rows|
    ensures var list := AsList(rows);
            KeyPaths(Arr(list), list[i..], "") == RecordPaths(rows, i)
    decreases |rows| - i
  {
    var list := AsList(rows);
    if i < |rows| {
      assert list[i..][0] == list[i] && list[i..][1..] == list[i + 1..];
      assert CurrentKey("", NatToString(i)) == NatToString(i);
      KeyPathsAreBracketPaths(Arr(rows[i]), rows[i], NatToString(i));
      FlattenFrom(rows, i + 1);
    } else {
      assert list[i..] == [];
    }
  }

  /**
   * The closure's flattening lists, record by record, the path
   * `i[k1][k2]…` of every scalar leaf reached through `k1, k2, …` in record `i`.
   */
  lemma FlattenIsBracketPaths(rows: seq<PhpArray>)
    ensures Flatten(rows) == RecordPaths(rows, 0)
  {
    FlattenFrom(rows, 0);
    assert AsList(rows)[0..] == AsList(rows);
  }

  lemma {:induction false} InRecordPaths(rows: seq<PhpArray>, j: nat, i: nat, l: seq<string>)
    requires j <= i < |rows| && l in LeafKeys(Arr(rows[i]), rows[i])
    ensures BracketPath(NatToString(i), l) in RecordPaths(rows, j)
    decreases i - j
  {
    if j < i {
      InRecordPaths(rows, j + 1, i, l);
    } else {
      var ls := LeafKeys(Arr(rows[i]), rows[i]);
      var n :| 0 <= n < |ls| && ls[n] == l;
      assert Brackets(NatToString(i), ls)[n] == BracketPath(NatToString(i), l);
    }
  }

  /**
   * Every leaf of every record, reached through plain field names, has its
   * path among the flattened ones, and that path parses back into the keys.
   */
  lemma FlattenedPathsParse(rows: seq<PhpArray>, i: nat, l: seq<string>)
    requires i < |rows| && l in LeafKeys(Arr(rows[i]), rows[i])
    requires forall k :: 0 <= k < |l| ==> PlainKey(l[k])
    ensures BracketPath(NatToString(i), l) in Flatten(rows)
    ensures ItemKeys(BracketPath(NatToString(i), l)) == l
  {
    FlattenIsBracketPaths(rows);
    InRecordPaths(rows, 0, i, l);
    PathRoundTrip(i, l);
  }

  // ---------------------------------------------------------------------
  // getKeys as the source runs it
  // ---------------------------------------------------------------------

  /**
   * The closure `$removeDuplicatesRecursive($array, $parentKey)`, with the
   * `$keys` it appends to by reference passed in and handed back.
   */
  method CollectKeys(ghost outer: Value, entries: PhpArray, parentKey: string, keys: seq<string>)
    returns (keysOut: seq<string>)
    requires forall i :: 0 <= i < |entries| ==> entries[i].1 < outer
    ensures keysOut == keys + KeyPaths(outer, entries, parentKey)
    decreases outer
  {
    keysOut := keys;
    var i := 0;
    assert entries[0..] == entries;
    while i < |entries|
      invariant 0 <= i <= |entries|
      invariant keysOut + KeyPaths(outer, entries[i..], parentKey) == keys + KeyPaths(outer, entries, parentKey)
    {
      var key, value := entries[i].0, entries[i].1;
      var currentKey := if parentKey != "" then parentKey + "[" + key + "]" else key;
      ghost var here := if value.Arr? then KeyPaths(value, value.entries, currentKey) else [currentKey];
      ghost var before := keysOut;
      KeyPathsStep(outer, entries, parentKey, i, before, here);
      if value.Arr? {
        keysOut := CollectKeys(value, value.entries, currentKey, keysOut);
      } else {
        keysOut := keysOut + [currentKey];
      }
      assert keysOut == before + here;
      i := i + 1;
    }
    assert entries[i..] == [];
  }

  /** `displayInputArray($inputArray)`. */
  method DisplayInputArray(inputArray: seq<string>) returns (result: Trie)
    ensures result == BuildTrie(Node([]), inputArray)
  {
    result := Node([]);
    var n := 0;
    while n < |inputArray|
      invariant 0 <= n <= |inputArray|
      invariant BuildTrie(result, inputArray[n..]) == BuildTrie(Node([]), inputArray)
    {
      assert inputArray[n..][0] == inputArray[n] && inputArray[n..][1..] == inputArray[n + 1..];
      var matches := PathMiddle(inputArray[n]);
      if matches.Some? {
        var keys := Explode(matches.value);
        result := InsertPath(result, keys);
      }
      n := n + 1;
    }
  }
}
