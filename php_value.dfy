/**
 * PHP values as they occur in SwartzDB's decoded records, in the
 * conditions given to the row operations and in projection specifications,
 * together with the handful of PHP array and string primitives the store
 * relies on (PHP 8 semantics).
 */
module PhpValue {

  datatype Option<+T> = None | Some(value: T)

  /**
   * A PHP value. Floats are not part of the model. An array is an ordered
   * list of key/value pairs; an integer key is held as its canonical decimal
   * string, which is exactly how PHP identifies the keys 5 and "5".
   */
  datatype Value =
    | Null
    | Bool(b: bool)
    | Int(i: int)
    | Str(s: string)
    | Arr(entries: seq<(string, Value)>)

  /** A PHP array, and so also one record of a collection. */
  type PhpArray = seq<(string, Value)>

  // ---------------------------------------------------------------------
  // Arrays as ordered maps
  // ---------------------------------------------------------------------

  /** `array_keys($a)`. */
  function KeysOf<V>(a: seq<(string, V)>): (ks: seq<string>)
    ensures |ks| == |a|
    ensures forall i :: 0 <= i < |a| ==> ks[i] == a[i].0
  {
    if a == [] then [] else [a[0].0] + KeysOf(a[1..])
  }

  /** `array_values($a)`. */
  function ValuesOf<V>(a: seq<(string, V)>): (vs: seq<V>)
    ensures |vs| == |a|
    ensures forall i :: 0 <= i < |a| ==> vs[i] == a[i].1
  {
    if a == [] then [] else [a[0].1] + ValuesOf(a[1..])
  }

  /** A PHP array never holds a key twice. */
  ghost predicate UniqueKeys<V>(a: seq<(string, V)>) {
    forall i, j :: 0 <= i < j < |a| ==> a[i].0 != a[j].0
  }

  /** The value stored under `k`, if the array has that key. */
  function Lookup<V>(a: seq<(string, V)>, k: string): (r: Option<V>)
    ensures r.Some? <==> k in KeysOf(a)
    ensures r.Some? ==> (k, r.value) in a
    ensures UniqueKeys(a) ==> forall i :: 0 <= i < |a| && a[i].0 == k ==> r == Some(a[i].1)
  {
    if a == [] then None
    else if a[0].0 == k then Some(a[0].1)
    else
      assert KeysOf(a) == [a[0].0] + KeysOf(a[1..]);
      Lookup(a[1..], k)
  }

  lemma ConsAppend<T>(x: T, s: seq<T>, y: T)
    ensures [x] + (s + [y]) == ([x] + s) + [y]
  {
  }

  lemma AppendTail<T>(a: seq<T>, b: seq<T>)
    requires a != []
    ensures a + b != [] && (a + b)[0] == a[0] && (a + b)[1..] == a[1..] + b
  {
  }

  lemma Assoc<T>(x: seq<T>, y: seq<T>, z: seq<T>)
    ensures x + (y + z) == (x + y) + z
  {
  }

  lemma KeysOfCons<V>(x: (string, V), a: seq<(string, V)>)
    ensures KeysOf([x] + a) == [x.0] + KeysOf(a)
  {
    assert ([x] + a)[1..] == a;
  }

  lemma LookupCons<V>(x: (string, V), a: seq<(string, V)>, k: string)
    ensures Lookup([x] + a, k) == if x.0 == k then Some(x.1) else Lookup(a, k)
  {
    assert ([x] + a)[0] == x && ([x] + a)[1..] == a;
  }

  /** Replacing the first entry, whose key is `k`, keeps the keys and changes only `k`. */
  lemma AssignAtHead<V>(head: (string, V), tail: seq<(string, V)>, k: string, v: V)
    requires head.0 == k
    ensures KeysOf([(k, v)] + tail) == KeysOf([head] + tail)
    ensures Lookup([(k, v)] + tail, k) == Some(v)
    ensures forall k' :: k' != k ==> Lookup([(k, v)] + tail, k') == Lookup([head] + tail, k')
  {
    KeysOfCons((k, v), tail);
    KeysOfCons(head, tail);
    LookupCons((k, v), tail, k);
    forall k' | k' != k
      ensures Lookup([(k, v)] + tail, k') == Lookup([head] + tail, k')
    {
      LookupCons((k, v), tail, k');
      LookupCons(head, tail, k');
    }
  }

  /** Keeping a first entry whose key is not `k` in front of an assigned tail keeps its keys in place. */
  lemma KeysBehindHead(head: string, tail: seq<string>, rest: seq<string>, k: string)
    requires head != k
    requires rest == if k in tail then tail else tail + [k]
    ensures [head] + rest == if k in [head] + tail then [head] + tail else [head] + tail + [k]
  {
    assert k in [head] + tail <==> k in tail;
  }

  /** And its lookups agree with the assigned tail's. */
  lemma LookupsBehindHead<V>(head: (string, V), tail: seq<(string, V)>, rest: seq<(string, V)>, k: string, v: V)
    requires head.0 != k
    requires Lookup(rest, k) == Some(v)
    requires forall k' :: k' != k ==> Lookup(rest, k') == Lookup(tail, k')
    ensures Lookup([head] + rest, k) == Some(v)
    ensures forall k' :: k' != k ==> Lookup([head] + rest, k') == Lookup([head] + tail, k')
  {
    LookupCons(head, rest, k);
    forall k' | k' != k
      ensures Lookup([head] + rest, k') == Lookup([head] + tail, k')
    {
      LookupCons(head, rest, k');
      LookupCons(head, tail, k');
    }
  }

  /** `$a[$k] = $v`: an existing key keeps its place, a new key goes last. */
  function Assign<V>(a: seq<(string, V)>, k: string, v: V): (r: seq<(string, V)>)
    ensures KeysOf(r) == if k in KeysOf(a) then KeysOf(a) else KeysOf(a) + [k]
    ensures Lookup(r, k) == Some(v)
    ensures forall k' :: k' != k ==> Lookup(r, k') == Lookup(a, k')
  {
    if a == [] then [(k, v)]
    else
      var head, tail := a[0], a[1..];
      assert a == [head] + tail;
      if head.0 == k then
        AssignAtHead(head, tail, k, v);
        [(k, v)] + tail
      else
        var rest := Assign(tail, k, v);
        KeysOfCons(head, rest);
        KeysOfCons(head, tail);
        KeysBehindHead(head.0, KeysOf(tail), KeysOf(rest), k);
        LookupsBehindHead(head, tail, rest, k, v);
        [head] + rest
  }

  /** No string occurs twice in `ks`. */
  ghost predicate Distinct(ks: seq<string>) {
    forall i, j :: 0 <= i < j < |ks| ==> ks[i] != ks[j]
  }

  /** The tail of a PHP array has unique keys, none of them the head's. */
  lemma UniqueTail<V>(a: seq<(string, V)>)
    requires UniqueKeys(a) && a != []
    ensures UniqueKeys(a[1..]) && a[0].0 !in KeysOf(a[1..])
  {
    var tail := a[1..];
    forall i, j | 0 <= i < j < |tail|
      ensures tail[i].0 != tail[j].0
    {
      assert tail[i] == a[i + 1] && tail[j] == a[j + 1];
    }
    var ks := KeysOf(tail);
    forall i | 0 <= i < |ks|
      ensures ks[i] != a[0].0
    {
      assert ks[i] == a[i + 1].0;
    }
  }

  lemma UniqueIsDistinct<V>(a: seq<(string, V)>)
    ensures UniqueKeys(a) <==> Distinct(KeysOf(a))
  {
    var ks := KeysOf(a);
    assert forall i :: 0 <= i < |a| ==> ks[i] == a[i].0;
  }

  lemma DistinctSnoc(ks: seq<string>, k: string)
    requires Distinct(ks) && k !in ks
    ensures Distinct(ks + [k])
  {
    var ks' := ks + [k];
    forall i, j | 0 <= i < j < |ks'|
      ensures ks'[i] != ks'[j]
    {
      assert ks'[i] == ks[i];
      if j < |ks| {
        assert ks'[j] == ks[j];
      } else {
        assert ks[i] in ks;
      }
    }
  }

  lemma AssignKeepsUnique<V>(a: seq<(string, V)>, k: string, v: V)
    requires UniqueKeys(a)
    ensures UniqueKeys(Assign(a, k, v))
  {
    var r := Assign(a, k, v);
    UniqueIsDistinct(a);
    UniqueIsDistinct(r);
    if k !in KeysOf(a) {
      DistinctSnoc(KeysOf(a), k);
    }
  }

  /** The entries `foreach` visits: a non-array is not iterated at all. */
  function Elements(v: Value): PhpArray {
    if v.Arr? then v.entries else []
  }

  /** Every entry after `$a[$k] = $v` is the new one or was already there. */
  lemma {:induction false} AssignEntries<V>(a: seq<(string, V)>, k: string, v: V)
    ensures forall i :: 0 <= i < |Assign(a, k, v)| ==> Assign(a, k, v)[i] == (k, v) || Assign(a, k, v)[i] in a
  {
    var r := Assign(a, k, v);
    if a == [] {
      assert r == [(k, v)];
    } else if a[0].0 == k {
      assert r == [(k, v)] + a[1..];
      forall i | 0 < i < |r|
        ensures r[i] in a
      {
        assert r[i] == a[i];
      }
    } else {
      var rest := Assign(a[1..], k, v);
      AssignEntries(a[1..], k, v);
      assert r == [a[0]] + rest;
      forall i | 0 <= i < |r|
        ensures r[i] == (k, v) || r[i] in a
      {
        if i == 0 {
          assert r[0] == a[0];
        } else {
          assert r[i] == rest[i - 1];
          assert rest[i - 1] == (k, v) || rest[i - 1] in a[1..];
        }
      }
    }
  }

  /** Assigning a key the array does not have appends the entry. */
  lemma {:induction false} AssignNewKey<V>(a: seq<(string, V)>, k: string, v: V)
    requires k !in KeysOf(a)
    ensures Assign(a, k, v) == a + [(k, v)]
  {
    if a != [] {
      var head, tail := a[0], a[1..];
      assert a == [head] + tail;
      KeysOfCons(head, tail);
      assert k != head.0 && k !in KeysOf(tail);
      AssignNewKey(tail, k, v);
      ConsAppend(head, tail, (k, v));
    }
  }

  /** `isset($a[$k])`: the key is present and its value is not null. */
  predicate IsSet(a: PhpArray, k: string) {
    Lookup(a, k).Some? && Lookup(a, k).value != Null
  }

  /** `$a[$k]` for a key that may be missing: a missing key reads as null. */
  function Item(a: PhpArray, k: string): Value {
    match Lookup(a, k)
    case Some(v) => v
    case None => Null
  }

  /** `$a[$k] ?? $default`. */
  function Coalesce(a: PhpArray, k: string, default: Value): (r: Value)
    ensures IsSet(a, k) ==> r == Item(a, k)
    ensures !IsSet(a, k) ==> r == default
  {
    if IsSet(a, k) then Item(a, k) else default
  }

  /** `array_reverse($s)` on a list. */
  function Reverse<T>(s: seq<T>): (r: seq<T>)
    ensures |r| == |s|
    ensures forall i :: 0 <= i < |s| ==> r[i] == s[|s| - 1 - i]
  {
    if s == [] then [] else Reverse(s[1..]) + [s[0]]
  }

  lemma ReverseReverse<T>(s: seq<T>)
    ensures Reverse(Reverse(s)) == s
  {
    assert forall i :: 0 <= i < |s| ==> Reverse(Reverse(s))[i] == s[i];
  }

  // ---------------------------------------------------------------------
  // Strings
  // ---------------------------------------------------------------------

  predicate IsDigit(c: char) { '0' <= c <= '9' }

  /** The decimal form of a natural number. */
  function NatToString(n: nat): (s: string)
    ensures |s| > 0
    ensures forall i :: 0 <= i < |s| ==> IsDigit(s[i])
  {
    var d := ('0' as int + n % 10) as char;
    if n < 10 then [d] else NatToString(n / 10) + [d]
  }

  /** The decimal form PHP gives an integer (`strval`, array keys). */
  function IntToString(n: int): string {
    if n < 0 then "-" + NatToString(-n) else NatToString(n)
  }

  /** `str_starts_with($s, $prefix)`. */
  predicate StartsWith(s: string, prefix: string) {
    |prefix| <= |s| && s[..|prefix|] == prefix
  }

  function UpperChar(c: char): char {
    if 'a' <= c <= 'z' then (c as int - 32) as char else c
  }

  function LowerChar(c: char): char {
    if 'A' <= c <= 'Z' then (c as int + 32) as char else c
  }

  /** `strtoupper`, which since PHP 8.2 maps only the ASCII letters. */
  function Upper(s: string): (r: string)
    ensures |r| == |s|
    ensures forall i :: 0 <= i < |s| ==> r[i] == UpperChar(s[i])
  {
    if s == [] then [] else [UpperChar(s[0])] + Upper(s[1..])
  }

  /** `strtolower`, ASCII letters only. */
  function Lower(s: string): (r: string)
    ensures |r| == |s|
    ensures forall i :: 0 <= i < |s| ==> r[i] == LowerChar(s[i])
  {
    if s == [] then [] else [LowerChar(s[0])] + Lower(s[1..])
  }

  /** Upper-casing forgets any earlier change of case. */
  lemma UpperIdempotent(s: string)
    ensures Upper(Upper(s)) == Upper(s)
    ensures Upper(Lower(s)) == Upper(s)
  {
    assert forall i :: 0 <= i < |s| ==> UpperChar(UpperChar(s[i])) == UpperChar(s[i]);
    assert forall i :: 0 <= i < |s| ==> UpperChar(LowerChar(s[i])) == UpperChar(s[i]);
  }

  /** And so does lower-casing. */
  lemma LowerIdempotent(s: string)
    ensures Lower(Lower(s)) == Lower(s)
    ensures Lower(Upper(s)) == Lower(s)
  {
    assert forall i :: 0 <= i < |s| ==> LowerChar(LowerChar(s[i])) == LowerChar(s[i]);
    assert forall i :: 0 <= i < |s| ==> LowerChar(UpperChar(s[i])) == LowerChar(s[i]);
  }

  /** `strval($v)`; an array converts to "Array" (with a warning). */
  function StrVal(v: Value): string {
    match v
    case Null => ""
    case Bool(b) => if b then "1" else ""
    case Int(i) => IntToString(i)
    case Str(s) => s
    case Arr(_) => "Array"
  }

  /**
   * The string a value becomes when passed to a string parameter of a
   * built-in function in non-strict mode; an array is a TypeError (None).
   */
  function CoerceStr(v: Value): Option<string> {
    if v.Arr? then None else Some(StrVal(v))
  }

  /** The key a value selects when used as an array offset; an array is an illegal offset (None). */
  function OffsetKey(v: Value): Option<string> {
    match v
    case Null => Some("")
    case Bool(b) => Some(if b then "1" else "0")
    case Int(i) => Some(IntToString(i))
    case Str(s) => Some(s)
    case Arr(_) => None
  }

  // `is_numeric` on a string (PHP 8): optional leading whitespace, an optional
  // sign, digits with an optional fraction (at least one digit in all), an
  // optional exponent, optional trailing whitespace.

  predicate IsSpace(c: char) {
    c == ' ' || c == '\t' || c == '\n' || c == '\r' || c == 11 as char || c == 12 as char
  }

  /** The first index at or after `i` that is not a whitespace character. */
  function SkipSpace(s: string, i: nat): (j: nat)
    requires i <= |s|
    ensures i <= j <= |s|
    decreases |s| - i
  {
    if i < |s| && IsSpace(s[i]) then SkipSpace(s, i + 1) else i
  }

  /** The first index at or after `i` that is not a decimal digit. */
  function SkipDigits(s: string, i: nat): (j: nat)
    requires i <= |s|
    ensures i <= j <= |s|
    ensures forall k :: i <= k < j ==> IsDigit(s[k])
    ensures j < |s| ==> !IsDigit(s[j])
    decreases |s| - i
  {
    if i < |s| && IsDigit(s[i]) then SkipDigits(s, i + 1) else i
  }

  /** The index after an optional `+` or `-` at `i`. */
  function SkipSign(s: string, i: nat): (j: nat)
    requires i <= |s|
    ensures i <= j <= |s|
  {
    if i < |s| && (s[i] == '+' || s[i] == '-') then i + 1 else i
  }

  /** The index after the exponent at `i`, or `i` itself when there is none. */
  function SkipExponent(s: string, i: nat): (j: nat)
    requires i <= |s|
    ensures i <= j <= |s|
  {
    if i < |s| && (s[i] == 'e' || s[i] == 'E') then
      var k := SkipSign(s, i + 1);
      var m := SkipDigits(s, k);
      if m > k then m else i
    else i
  }

  predicate IsNumeric(s: string)
    ensures IsNumeric(s) ==> exists i :: 0 <= i < |s| && IsDigit(s[i])
    ensures s != [] && (forall i :: 0 <= i < |s| ==> IsDigit(s[i])) ==> IsNumeric(s)
  {
    var a := SkipSign(s, SkipSpace(s, 0));
    var b := SkipDigits(s, a);
    var c := if b < |s| && s[b] == '.' then SkipDigits(s, b + 1) else b;
    var mantissa := b > a || c > b + 1;
    mantissa && SkipSpace(s, SkipExponent(s, c)) == |s|
  }
}
