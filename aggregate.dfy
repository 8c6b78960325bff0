/**
 * `aggregate($arr, $operation)` over a list of integers: SUM, MIN, MAX,
 * AVG or COUNT, chosen by the operation name in any letter case.
 */
module Aggregate {
  import opened PhpValue

  /**
   * The value `aggregate` returns: null for an empty list, an integer, the
   * exact quotient `sum / count` for AVG, or the InvalidArgumentException
   * an unknown operation name raises.
   */
  datatype AggResult = NoValue | Number(n: int) | Average(sum: int, count: nat) | Unsupported

  /** `array_sum`; a list without negative numbers has a sum that is not negative. */
  function Sum(xs: seq<int>): (r: int)
    ensures (forall x :: x in xs ==> 0 <= x) ==> 0 <= r
  {
    if xs == [] then 0
    else
      assert xs[0] in xs && forall x :: x in xs[1..] ==> x in xs;
      xs[0] + Sum(xs[1..])
  }

  /** `min` of a non-empty list. */
  function Min(xs: seq<int>): (m: int)
    requires xs != []
    ensures m in xs
    ensures forall x :: x in xs ==> m <= x
  {
    if |xs| == 1 then xs[0]
    else
      var rest := Min(xs[1..]);
      assert forall x :: x in xs ==> x == xs[0] || x in xs[1..];
      if xs[0] <= rest then xs[0] else rest
  }

  /** `max` of a non-empty list. */
  function Max(xs: seq<int>): (m: int)
    requires xs != []
    ensures m in xs
    ensures forall x :: x in xs ==> x <= m
  {
    if |xs| == 1 then xs[0]
    else
      var rest := Max(xs[1..]);
      assert forall x :: x in xs ==> x == xs[0] || x in xs[1..];
      if xs[0] >= rest then xs[0] else rest
  }

  function Aggregate(arr: seq<int>, operation: string): (r: AggResult)
    ensures arr == [] ==> r == NoValue
    ensures arr != [] && Upper(operation) == "SUM" ==> r == Number(Sum(arr))
    ensures arr != [] && Upper(operation) == "AVG" ==> r == Average(Sum(arr), |arr|)
    ensures arr != [] && Upper(operation) == "MIN" ==> r.Number? && r.n in arr && forall x :: x in arr ==> r.n <= x
    ensures arr != [] && Upper(operation) == "MAX" ==> r.Number? && r.n in arr && forall x :: x in arr ==> x <= r.n
    ensures arr != [] && Upper(operation) == "COUNT" ==> r == Number(|arr|)
    ensures arr != [] && Upper(operation) !in ["SUM", "MIN", "MAX", "AVG", "COUNT"] ==> r == Unsupported
  {
    if arr == [] then NoValue
    else
      var op := Upper(operation);
      if op == "SUM" then Number(Sum(arr))
      else if op == "MIN" then Number(Min(arr))
      else if op == "MAX" then Number(Max(arr))
      else if op == "AVG" then Average(Sum(arr), |arr|)
      else if op == "COUNT" then Number(|arr|)
      else Unsupported
  }

  /** The operation name is matched without regard to letter case. */
  lemma CaseInsensitive(arr: seq<int>, operation: string)
    ensures Aggregate(arr, Upper(operation)) == Aggregate(arr, operation)
    ensures Aggregate(arr, Lower(operation)) == Aggregate(arr, operation)
  {
    UpperIdempotent(operation);
  }

  lemma MulStep(n: nat, m: int)
    ensures (n + 1) * m == n * m + m
  {
  }

  /** A lower bound of every element bounds the sum: `count * m <= sum`. */
  lemma {:induction false} SumAtLeast(xs: seq<int>, m: int)
    requires forall x :: x in xs ==> m <= x
    ensures |xs| * m <= Sum(xs)
  {
    if xs != [] {
      assert xs[0] in xs;
      assert forall x :: x in xs[1..] ==> x in xs;
      SumAtLeast(xs[1..], m);
      MulStep(|xs[1..]|, m);
    }
  }

  /** An upper bound of every element bounds the sum: `sum <= count * m`. */
  lemma {:induction false} SumAtMost(xs: seq<int>, m: int)
    requires forall x :: x in xs ==> x <= m
    ensures Sum(xs) <= |xs| * m
  {
    if xs != [] {
      assert xs[0] in xs;
      assert forall x :: x in xs[1..] ==> x in xs;
      SumAtMost(xs[1..], m);
      MulStep(|xs[1..]|, m);
    }
  }

  /** The AVG quotient lies between MIN and MAX: `count * min <= sum <= count * max`. */
  lemma AverageWithinBounds(arr: seq<int>)
    requires arr != []
    ensures var avg := Aggregate(arr, "AVG");
            avg.count == |arr| > 0 &&
            avg.count * Aggregate(arr, "MIN").n <= avg.sum <= avg.count * Aggregate(arr, "MAX").n
  {
    assert Upper("AVG") == "AVG" && Upper("MIN") == "MIN" && Upper("MAX") == "MAX";
    SumAtLeast(arr, Min(arr));
    SumAtMost(arr, Max(arr));
  }
}
