# SwartzDB in Dafny

SwartzDB (`SwartzDB/connect.php`) is a schema-less record store written in PHP. Each collection is one `.sdb` file. The file holds a JSON list of records under two layers of encryption. This project models the logic above the file system and openssl:

- the condition language that selects rows;
- the row operations `remove_row`, `update_row`, `get_row`, `add_row` and `addJsonDirect`, and the shaping of the result at the end of `get`;
- the projection engine `filter`;
- `aggregate` and `array_intersect_recursive`;
- the schema that `getKeys` builds with `displayInputArray`;
- the order of the two encryption layers.

Values are a small datatype `Value = Null | Bool | Int | Str | Arr`. A PHP array is an ordered list of key/value pairs. An integer key is held as its canonical decimal string, which is how PHP identifies the keys `5` and `"5"`. Assigning to an existing key keeps its position; assigning a new key appends it. PHP 8 semantics are assumed throughout.

The store is the class `Store.SwartzDB`. Its field `files` maps a file name to the decoded collection in that file; a name outside the map is a file that cannot be read, for which `get` returns null. `remove_row` and `update_row` read the collection, rebuild it in a loop as the source does, and write it back with `Put`. `add_row` and `addJsonDirect` append to the collection and write it back, with no loop. `get_row` and `getKeys` only read. Each method's loop is proved equal to a recursive specification function:

- `Matches` and `Probes` for the evaluator;
- `Select`, `Reject` and `UpdateAll` for rows;
- `Projection` for `filter`;
- `Intersection`;
- `SchemaOf`.

The properties are proved about those functions.

PHP's loose comparison is not modelled. The evaluator takes a `Comparator`, standing for PHP 8's `<=>`, and derives `>`, `<`, `>=`, `<=`, `==` and `!=` from it as the engine does. In particular, `$a > $b` is evaluated as `$b < $a`.

`evaluateConditions` is declared three times in the source (310-382, 398-470, 505-581), with the same text each time. It is modelled once. The `$logicalOperator` parameter is always `'AND'` at every call (323, 385, 473, 585), so only that case is modelled.

## Model

| member | source | states |
|---|---|---|
| Conditions.SwitchOp | SwartzDB/connect.php:346-366 | `switch` picks `>`, `<`, `>=`, `<=`, `!=` for exactly those strings; every other string takes the equality branch, and so do null, integers, arrays and `false` (loose `switch`); `true` picks `>` |
| Conditions.EvaluateConditions | SwartzDB/connect.php:310-382 | the loop with its early `break` returns exactly the recursive verdict `Matches`, and looks up exactly the fields `Probes` lists, in order; a non-array conditions value gives false |
| Conditions.EvaluateEntry | SwartzDB/connect.php:318-378 | one entry of the outer loop: a group's verdict for "AND"/"OR", otherwise the leaf's `isset` test and comparison, reading the fields `EntryProbes` lists |
| Conditions.EvaluateGroup | SwartzDB/connect.php:319-331 | the sub-condition loop returns `GroupHolds`: AND starts true and stops at the first false sub-condition, OR starts false and stops at the first true one |
| ConditionLaws.GroupQuantifier | SwartzDB/connect.php:318-331 | an AND group holds iff every sub-condition matches (so an empty one holds); an OR group holds iff some sub-condition matches (so an empty one fails) |
| ConditionLaws.GroupEntry | SwartzDB/connect.php:318-331 | the same of an "AND"/"OR" entry, for any group value, a non-array one included |
| ConditionLaws.AllQuantifier | SwartzDB/connect.php:317-379 | the entries of a conditions array hold together iff each entry holds |
| ConditionLaws.MatchesIsConjunction | SwartzDB/connect.php:310-316 | a conditions value matches iff it is an array all of whose entries hold: an empty array matches every row, a non-array matches none |
| ConditionLaws.SingletonGroups | SwartzDB/connect.php:318-339 | `{"AND": [p]}` and `{"OR": [p]}` select exactly the rows `p` selects |
| ConditionLaws.MissingFieldFails | SwartzDB/connect.php:340-369 | a leaf on a field that is absent or null makes the whole conditions array false, whatever its operator, `!=` included |
| ConditionLaws.OperatorLeaf | SwartzDB/connect.php:343-366 | a leaf `[operator, value]` is false on an unset field; on a set field `>`, `<`, `>=`, `<=` and `!=` compare as named, `true` compares as `>` (the loose `switch` matches the first case), and `==`, every other string, null, integers, arrays and `false` mean equality |
| Conditions.LeafHolds | SwartzDB/connect.php:340-369 | a leaf is false on a field that is absent or null; with a non-array condition it holds iff the set field equals the condition |
| Conditions.Matches | SwartzDB/connect.php:310-316 | only an array of conditions can match, and the empty array matches every row |
| ConditionLaws.BareLeaf | SwartzDB/connect.php:367-369 | a leaf with a non-array value is equality on a set field, false on an unset one |
| ConditionLaws.GroupStopsAtDecider | SwartzDB/connect.php:324-330 | once a sub-condition decides a group, the group has its value and no later sub-condition is read |
| ConditionLaws.StopsAtFirstFalse | SwartzDB/connect.php:371-373 | a false entry makes the array false, and nothing after it is read |
| ConditionLaws.EntriesStopAtFirstFalse | SwartzDB/connect.php:371-373 | the fields read by a list of entries are those read up to its first false entry |
| ConditionLaws.ProbesDecide | SwartzDB/connect.php:310-382 | two rows that agree on every field the evaluator reads get the same verdict and have the same fields read |
| ConditionLaws.AllProbesDecide | SwartzDB/connect.php:317-379 | the same for a list of entries |
| ConditionLaws.EntryProbesDecide | SwartzDB/connect.php:318-378 | the same for one entry |
| ConditionLaws.GroupProbesDecide | SwartzDB/connect.php:322-331 | the same for a group |
| Rows.Select | SwartzDB/connect.php:584-588 | the rows kept are exactly the input rows the conditions match, no more of them than there were |
| Rows.Reject | SwartzDB/connect.php:384-388 | the rows kept are exactly the input rows the conditions do not match |
| Rows.SelectAppend | SwartzDB/connect.php:584-588 | selection distributes over concatenation, so it keeps the rows' relative order |
| Rows.RejectAppend | SwartzDB/connect.php:384-388 | so does rejection |
| Rows.SelectRejectPartition | SwartzDB/connect.php:384-388 | the selected and the rejected rows together are the collection: their lengths add up, and so do their multisets |
| Rows.SelectNone | SwartzDB/connect.php:584-594 | when no row matches, the selection is empty |
| Rows.SelectIdempotent | SwartzDB/connect.php:584-588 | selecting twice selects the same rows |
| Rows.RejectIdempotent | SwartzDB/connect.php:384-388 | rejecting twice leaves the same rows |
| Rows.Patch | SwartzDB/connect.php:474-476 | every `$newValues` field is present afterwards, and every other field reads as before |
| Rows.PatchLookup | SwartzDB/connect.php:474-476 | after the patch, each `$newValues` field reads its new value and every other field its old value (or stays missing) |
| Rows.PatchKeepsKeyOrder | SwartzDB/connect.php:474-476 | fields a row already had keep their positions, new fields follow, and no key ends up twice |
| Rows.UpdateAll | SwartzDB/connect.php:472-478 | the loop keeps the row count; a matching row is patched and every other row is unchanged |
| Rows.UpdateFields | SwartzDB/connect.php:472-478 | after `update_row`, a `$newValues` field of a matching row has its new value, and every other field of every row keeps its old one |
| Store.Shape | SwartzDB/connect.php:247-258 | an empty collection gives `[]`; form `""` gives the records as they are; `"reverse"` gives them reversed; any other form returns nothing (null); the shaped result has the same length and the same records |
| Store.ShapeReverseTwice | SwartzDB/connect.php:255-256 | reading reversed twice gives the collection back |
| Store.SwartzDB.Get | SwartzDB/connect.php:229-258 | an unreadable file gives null; form `""` gives the collection, `"reverse"` the collection reversed; a non-empty collection with any other form gives nothing (null) |
| Store.SwartzDB.Put | SwartzDB/connect.php:269-291 | the file now holds the content, which `get` reads back; no other file changes |
| Store.SwartzDB.ReadAll | SwartzDB/connect.php:236-243 | the records a row operation sees, with the readable flag set iff the file can be read |
| Store.SwartzDB.RemoveRow | SwartzDB/connect.php:384-390 | the file afterwards holds exactly the rows the conditions do not match, in their order; no other file changes |
| Store.RemoveThenSelect | SwartzDB/connect.php:384-390 | after `remove_row`, no remaining row matches, and a second `remove_row` changes nothing |
| Store.SwartzDB.UpdateRow | SwartzDB/connect.php:472-480 | a readable file afterwards holds `UpdateAll` of its rows; an unreadable file makes `array_values(null)` fail, and nothing is written |
| Store.PatchRow | SwartzDB/connect.php:474-476 | the inner loop turns the row into `Patch(row, newValues)` |
| Store.SwartzDB.GetRow | SwartzDB/connect.php:584-597 | returns the matching rows in stored order, or reversed for `"reverse"`; `[]` when none matches; changes no file |
| Store.SwartzDB.AddRow | SwartzDB/connect.php:484-490 | the record is appended to the collection; an unreadable file starts a new collection |
| Store.SwartzDB.AddJsonDirect | SwartzDB/connect.php:491-498 | the records are appended in order; an unreadable file makes `array_merge(null, …)` fail, and nothing is written |
| Store.SwartzDB.GetKeys | SwartzDB/connect.php:601-622 | an unreadable file gives the empty schema; otherwise the result is `SchemaOf` the collection |
| Projection.Resolve | SwartzDB/connect.php:124-126 | an array parameter is the TypeError of `str_starts_with`; an `s::` literal resolves to the text after the prefix; any other name resolves to the field's value when the field is set, and to `''` when it is absent or null |
| Projection.JoinAllFails | SwartzDB/connect.php:123-128 | `implode` over the pieces fails exactly when one piece fails |
| Projection.Concat | SwartzDB/connect.php:123-128 | `concat` fails (a TypeError) exactly when one of its parameters is an array |
| Projection.ConcatLiteral | SwartzDB/connect.php:124-125 | a single parameter `s::x` gives exactly `x` |
| Projection.ConcatAppend | SwartzDB/connect.php:123-128 | `concat` of two parameter lists is the two results joined, with no separator |
| Projection.ConcatFieldOrEmpty | SwartzDB/connect.php:124-126 | a field-name parameter contributes the field's value as a string, or `''` when the field is unset |
| Projection.ChangeCase | SwartzDB/connect.php:131-145 | an array parameter is a TypeError; an `s::` literal gives its text upper- or lower-cased; an unset field gives `''`; a set field gives its string value upper- or lower-cased, and an array field is a TypeError |
| Projection.CaseVariants | SwartzDB/connect.php:131-145 | `uppercase` and `lowercase` of one parameter fail together; when they set the field, each result is the other with its case changed |
| Projection.ConcatExample | SwartzDB/connect.php:122-129 | `{"full": {"concat": ["s::Mr. ", "name"]}}` on `{"name": "Lee"}` gives `[{"full": "Mr. Lee"}]` |
| Projection.OpEffect | SwartzDB/connect.php:121-209 | an operation ends the call with `[]` exactly when its name is unknown (the `default` case); `sum`, `difference` and `date_format` always `break`, so they never do |
| Projection.Filter | SwartzDB/connect.php:108-218 | the nested loops compute `Projection`: the records built entry by entry, `[]` after an unknown operation, nothing after a TypeError |
| Projection.OpsOutcome | SwartzDB/connect.php:120-210 | applying one entry's operations in order changes no field of `$filtered` but the entry's own |
| Projection.EntryOutcome | SwartzDB/connect.php:114-211 | a numeric key fails exactly on an array offset; only a non-numeric key with an array of operations can end the call with `[]`; a non-numeric key with a scalar value is skipped; a numeric key copies the field its offset names when that field is set, with its value, and changes nothing otherwise; no field but the entry's target changes |
| Projection.RecordOutcome | SwartzDB/connect.php:114-212 | the entries of one record change no field outside their targets |
| Projection.Projection | SwartzDB/connect.php:108-218 | no records give `[]`; a non-empty result holds one record per input record |
| Projection.ApplyOps | SwartzDB/connect.php:120-210 | the loop over one entry's operations computes `OpsOutcome` |
| Projection.ProjectRecord | SwartzDB/connect.php:112-212 | the loop over `$filterKeys` for one record computes `RecordOutcome` |
| Projection.OneOutputPerRecord | SwartzDB/connect.php:111-215 | a run that completes emits exactly one output record per input record; the i-th is the projection of the i-th input |
| Projection.FilterShape | SwartzDB/connect.php:108-218 | the result of `filter` is `[]`, a fatal error, or one projected record per input record |
| Projection.KnownOpsDoNotAbort | SwartzDB/connect.php:120-210 | with only known operation names, one entry's operations never end the call with `[]` |
| Projection.KnownEntriesDoNotAbort | SwartzDB/connect.php:114-212 | the same for all the entries of one record |
| Projection.KnownOpsEmitEveryRecord | SwartzDB/connect.php:111-217 | with only known operation names, `filter` never gives the `[]` of an unknown operation |
| Projection.UnknownOpGivesEmpty | SwartzDB/connect.php:111-207 | an unknown operation name anywhere in `$filterKeys` that the first record reaches (no array offset or failing operation before it) makes the whole result `[]`, whatever the records hold; with no records the result is `[]` too |
| Projection.OpsAbortAt | SwartzDB/connect.php:120-207 | in one entry, an unknown operation reached with no failing operation before it ends the call with `[]` |
| Projection.OpsCrashFree | SwartzDB/connect.php:120-210 | operations none of which fails raise no TypeError |
| Projection.EntryAbortAt | SwartzDB/connect.php:119-207 | an entry with an unknown operation and no failing operation before it ends the call with `[]` |
| Projection.EntryNotCrashed | SwartzDB/connect.php:114-211 | an entry with no array offset and no failing operation raises no TypeError |
| Projection.EntriesAbortAt | SwartzDB/connect.php:114-207 | in one record, an unknown operation reached with no TypeError before it ends the call with `[]` |
| Projection.FieldNames | SwartzDB/connect.php:115-118 | the names a list of field names holds |
| Projection.FieldListKeepsSetFields | SwartzDB/connect.php:115-118 | with a list of field names, a record keeps exactly the named fields it has set, with their values, and gains no other field |
| Aggregate.Min | SwartzDB/connect.php:95-96 | `min` is an element of the list and bounds every element from below |
| Aggregate.Max | SwartzDB/connect.php:97-98 | `max` is an element of the list and bounds every element from above |
| Aggregate.Aggregate | SwartzDB/connect.php:87-105 | an empty list gives null, COUNT included; SUM is the sum; AVG is sum over count; MIN and MAX are elements of the list that bound all others; COUNT is the length; any other name is the InvalidArgumentException; the name is upper-cased first |
| Aggregate.CaseInsensitive | SwartzDB/connect.php:92 | the operation name is matched without regard to letter case |
| Aggregate.SumAtLeast | SwartzDB/connect.php:93-94 | a lower bound of every element, times the count, bounds the sum from below |
| Aggregate.SumAtMost | SwartzDB/connect.php:93-94 | an upper bound of every element, times the count, bounds the sum from above |
| Aggregate.AverageWithinBounds | SwartzDB/connect.php:95-100 | the AVG quotient lies between MIN and MAX |
| Intersect.IntersectRecursive | SwartzDB/connect.php:19-32 | the loop with its recursive call computes `Intersection` |
| Intersect.IntersectionSound | SwartzDB/connect.php:19-32 | every key of the intersection is a key of the second array, and everything in it is also in the first array: identical scalars, arrays within arrays |
| Intersect.IntersectFromWithin | SwartzDB/connect.php:21-30 | the loop adds only entries held by the first array |
| Intersect.VisitWithin | SwartzDB/connect.php:22-29 | so does one step of it |
| Intersect.IntersectFromKeys | SwartzDB/connect.php:21-30 | the loop adds only keys it visits |
| Intersect.IntersectFromKeepsOther | SwartzDB/connect.php:21-30 | a key the loop does not visit keeps its value |
| Intersect.IntersectionComplete | SwartzDB/connect.php:27-28 | a non-null scalar held identically under the same key by both arrays is in the intersection |
| Intersect.DenseEntry | SwartzDB/connect.php:21-30 | in an array with no key twice, no null and no empty nested array, each entry reads back under its key and is appended by assigning it |
| Intersect.SelfIntersection | SwartzDB/connect.php:19-32 | such an array intersected with itself gives it back unchanged |
| Schema.LeafKeys | SwartzDB/connect.php:607-616 | the key lists that lead to the scalar leaves of an array; none is empty |
| Schema.KeyPathsAreBracketPaths | SwartzDB/connect.php:607-616 | under a non-empty parent key, the closure collects exactly the bracket path of each leaf key list, in depth-first order |
| Schema.FlattenIsBracketPaths | SwartzDB/connect.php:607-617 | flattening the collection lists, record by record, the path `i[k1][k2]…` of each leaf reached through `k1, k2, …` in record `i` |
| Schema.FlattenedPathsParse | SwartzDB/connect.php:607-628 | for every leaf of every record reached through field names without `]` or newline, its path is among the flattened ones and parses back into its key list |
| Schema.KeyPaths | SwartzDB/connect.php:607-616 | every path the closure collects under a non-empty parent key starts with that key and `[` |
| Schema.CollectKeys | SwartzDB/connect.php:607-617 | the closure, appending to `$keys` by reference, appends exactly `KeyPaths` |
| Schema.TailSlice | SwartzDB/connect.php:618 | `array_slice($keys, -n)` keeps the last `n` paths, or all of them when there are no more than `n`, or when `n` is 0 |
| Schema.Unique | SwartzDB/connect.php:618 | `array_values(array_unique(…))` keeps the same paths, each once |
| Schema.FindSep | SwartzDB/connect.php:628 | the first `][` at or after a position, or the end when there is none |
| Schema.InsertPathSpells | SwartzDB/connect.php:629-635 | after the walk, the trie spells exactly the paths it spelled before plus the prefixes of the key list |
| Schema.BuildTrieSpells | SwartzDB/connect.php:623-639 | `displayInputArray` spells exactly the prefixes of the key lists of the items that match the pattern |
| Schema.DisplayInputArray | SwartzDB/connect.php:623-639 | the loop computes `BuildTrie` over its input |
| Schema.SchemaSpells | SwartzDB/connect.php:601-639 | the schema spells a key list iff one of the last `count($result)` flattened paths parses into a list that it is a prefix of |
| Schema.PathRoundTrip | SwartzDB/connect.php:609-628 | a bracket path `n[k1][k2]…` over a non-empty key list with no `]` or newline in any key parses back into `[k1, k2, …]`; `FlattenedPathsParse` applies it to the paths the closure actually collects |
| Schema.PathMiddle | SwartzDB/connect.php:626 | a match is the text between `[` after the leading digits and the final `]` (before an optional final newline), with no newline inside |
| Schema.Explode | SwartzDB/connect.php:628 | at least one part, and the parts joined with `][` give the string back |
| Schema.InsertPath | SwartzDB/connect.php:629-635 | after the walk the trie has the whole key list as a path |
| Schema.FlattenExample | SwartzDB/connect.php:607-617 | the record `{"a": 1, "b": 2}` flattens to the paths `0[a]` and `0[b]` |
| Schema.OnePathPerRecord | SwartzDB/connect.php:618 | the slice keeps one path per record, not one per field: for that record the schema holds only `b` |
| Sealing.UnsealSeal | SwartzDB/connect.php:244-277 | with a cipher whose decryption inverts its encryption under both keys, `get` reads back what `put` wrote (the `Ekey` layer inside, the `key` layer outside), and `decall` (653-654) undoes `encall` (676-677) in the same way |
| PhpValue.Assign | SwartzDB/connect.php:475 | `$a[$k] = $v`: an existing key keeps its place, a new one goes last, `$k` reads `$v`, and every other key reads as before |
| PhpValue.AssignKeepsUnique | SwartzDB/connect.php:475 | assignment never creates a duplicate key |
| PhpValue.IsNumeric | SwartzDB/connect.php:115 | a numeric string holds a digit, and every non-empty string of digits is numeric |
| PhpValue.UpperIdempotent | SwartzDB/connect.php:132-136 | upper-casing twice, or after lower-casing, is upper-casing once |
| PhpValue.LowerIdempotent | SwartzDB/connect.php:140-144 | lower-casing twice, or after upper-casing, is lower-casing once |
| PhpValue.Lookup | SwartzDB/connect.php:348 | `$row[$key]` is found iff the key is present, and then it is the value stored under it |

## Left out

- Encryption: `Encrypt` and `Decrypt` wrap `openssl_encrypt` and `openssl_decrypt`. The cipher is a parameter of `Sealing`. Its inverse property is a hypothesis of `Sealing.UnsealSeal`, not an axiom.
- File I/O: file reads, `safeWrite` with its lock, `create`, `integrity`, `backup`, `restore` and `delete`. `Put` assigns the map entry; a failed write is not modelled.
- JSON: `json_encode` and `json_decode` are not modelled; a file's content is its decoded collection. A file whose text does not decrypt or decode is also read as `[]` by `get`; in the model such a file is simply an empty collection.
- Loose comparison: PHP's `==` and `<=>` between values of different types are the `Comparator` parameter. Floats are not in `Value`.
- Store.SwartzDB.Get and Store.Shape: the null that `get` returns for an unknown form is `None`. The `catch` branch is not reached in the model.
- `filter`'s `sum`, `difference` and `date_format`: these use `floatval` and PHP's date parser, which the model cannot see. They are the `Library` parameter: given the operation name, its parameters and the record, it returns the effect on the field: a value to set, no change, or a TypeError, but never the `[]` of an unknown operation, since each of those cases ends in `break`. So `difference` subtracting `params[0]` from itself and `date_format` setting no field for an empty value are not stated.
- `uppercase` and `lowercase`: `strtoupper` and `strtolower` change ASCII letters only, as they do since PHP 8.2 (earlier versions follow the C locale). This holds for strings; an integer or boolean field goes through `strval` first.
- Aggregate.Aggregate: AVG is returned as the exact pair (sum, count) rather than a float. `array_sum` is unbounded, with no integer overflow to float. Lists are integer lists only.
- Store.SwartzDB.UpdateRow: a row that is not an array makes `$data[$key][$f] = $v` fail or convert the row; only array rows are modelled. `$newValues` is an array.
- Store.SwartzDB.AddJsonDirect: a single record passed alone, rather than a list of records, has its fields spliced into the list by `array_merge`. Only lists of records are modelled.
- The runtime redeclaration of `evaluateConditions` in three methods (310, 398, 505). None of the declarations is guarded by `function_exists`. So any second call of `remove_row`, `update_row` or `get_row` in one request is fatal, the same method called twice included. It is modelled as one shared evaluator. Lemmas that chain these operations, such as `Store.RemoveThenSelect` (a second `remove_row` changes nothing, and no remaining row matches), describe calls made in separate requests.
- The `$logicalOperator` branches other than 'AND': no call passes anything else.
- Schema.DisplayInputArray: the walk through `$nestedArray` by reference is the recursive function `InsertPath`, not an in-place update.
- Schema.CollectKeys: a scalar at the top level of the collection (a record that is not an array) is not modelled, since a record is a `PhpArray`.
- `reportError`, `reportWarn`, `refresh`, `applyHtmlEntities`, `safe`, `idgen` and `refer_to`: these are HTML output, `htmlentities`, `rand` and dynamic globals.
