/**
 Combinations of parameters as numbers in mixed radix, one digit per parameter, and their order
 (include/faiss/AutoTune.cpp); `ranges` holds the numbers of values of the parameters.
 */
module MixedRadix {
  import opened Arithmetic

  function Combinations(ranges: seq<nat>): nat {
    if ranges == [] then 1 else ranges[0] * Combinations(ranges[1..])
  }

  ghost predicate AllPositive(ranges: seq<nat>) {
    forall i :: 0 <= i < |ranges| ==> ranges[i] > 0
  }

  /** The lowest digit of a number, and the number its other digits make. */
  function Digit(c: nat, r: nat): nat
    requires r > 0
  {
    c % r
  }

  function Higher(c: nat, r: nat): nat
    requires r > 0
  {
    c / r
  }

  /** Every digit of c1 is at least that of c2. */
  predicate Ge(ranges: seq<nat>, c1: nat, c2: nat)
    requires AllPositive(ranges)
  {
    if ranges == [] then true
    else
      var r := ranges[0];
      Digit(c1, r) >= Digit(c2, r) && Ge(ranges[1..], Higher(c1, r), Higher(c2, r))
  }

  lemma {:induction false} PositiveFactors(ranges: seq<nat>)
    ensures Combinations(ranges) > 0 <==> AllPositive(ranges)
  {
    if ranges != [] {
      PositiveFactors(ranges[1..]);
      assert AllPositive(ranges) <==> ranges[0] > 0 && AllPositive(ranges[1..]);
      assert Combinations(ranges) == ranges[0] * Combinations(ranges[1..]);
    }
  }

  lemma {:induction false} GeReflexive(ranges: seq<nat>, c: nat)
    requires AllPositive(ranges)
    ensures Ge(ranges, c, c)
  {
    if ranges != [] {
      GeReflexive(ranges[1..], c / ranges[0]);
    }
  }

  lemma HigherBelow(ranges: seq<nat>, a: nat)
    requires AllPositive(ranges) && ranges != [] && a < Combinations(ranges)
    ensures AllPositive(ranges[1..]) && Higher(a, ranges[0]) < Combinations(ranges[1..])
  {
    QuotientBelow(a, ranges[0], Combinations(ranges[1..]));
  }

  lemma FromDigits(a: nat, r: nat)
    requires r > 0
    ensures a == Higher(a, r) * r + Digit(a, r)
  {
    QuotientEquation(a, r);
  }

  lemma NoDigitsLeft(ranges: seq<nat>)
    requires ranges == []
    ensures forall a: nat, b: nat :: Ge(ranges, a, b)
  {
  }

  lemma GeDigit(ranges: seq<nat>, a: nat, b: nat)
    requires AllPositive(ranges) && ranges != []
    ensures var r := ranges[0];
      Ge(ranges, a, b) <==> Digit(a, r) >= Digit(b, r) && Ge(ranges[1..], Higher(a, r), Higher(b, r))
  {
  }

  /** The values that combination c picks, one for each parameter. */
  function Picks(ranges: seq<nat>, c: nat): (r: seq<nat>)
    requires AllPositive(ranges)
    ensures |r| == |ranges| && forall i :: 0 <= i < |r| ==> r[i] < ranges[i]
  {
    if ranges == [] then [] else [c % ranges[0]] + Picks(ranges[1..], c / ranges[0])
  }

  /** x is at least y in every place. */
  ghost predicate Pointwise(x: seq<nat>, y: seq<nat>) {
    |x| == |y| && forall i :: 0 <= i < |x| ==> x[i] >= y[i]
  }

  lemma PointwiseMore(x: seq<nat>, y: seq<nat>)
    requires |x| == |y| > 0
    ensures Pointwise(x, y) <==> x[0] >= y[0] && Pointwise(x[1..], y[1..])
  {
    if Pointwise(x[1..], y[1..]) {
      assert forall i :: 0 < i < |x| ==> x[i] == x[1..][i - 1] && y[i] == y[1..][i - 1];
    }
  }

  /** The comparison is parameter by parameter. */
  lemma {:induction false} GeIsPointwise(ranges: seq<nat>, a: nat, b: nat)
    requires AllPositive(ranges)
    ensures Ge(ranges, a, b) <==> Pointwise(Picks(ranges, a), Picks(ranges, b))
  {
    if ranges != [] {
      var r := ranges[0];
      GeDigit(ranges, a, b);
      GeIsPointwise(ranges[1..], a / r, b / r);
      PointwiseMore(Picks(ranges, a), Picks(ranges, b));
      hide Ge, Pointwise;
    }
  }

  lemma ChoiceFits(high: nat, n: nat, r: nat, low: nat)
    requires high < n && low < r
    ensures high * r + low < r * n && (high * r + low) / r == high && (high * r + low) % r == low
  {
    DivMod(high, r, low);
    MulMonotone(high + 1, n, r);
  }

  /** Every choice of values is that of some combination. */
  lemma {:induction false} EveryChoice(ranges: seq<nat>, values: seq<nat>) returns (c: nat)
    requires |values| == |ranges| && forall i :: 0 <= i < |ranges| ==> values[i] < ranges[i]
    ensures AllPositive(ranges) && c < Combinations(ranges) && Picks(ranges, c) == values
  {
    if ranges == [] {
      c := 0;
    } else {
      var r, n := ranges[0], Combinations(ranges[1..]);
      var high := EveryChoice(ranges[1..], values[1..]);
      c := high * r + values[0];
      ChoiceFits(high, n, r, values[0]);
      assert values == [values[0]] + values[1..];
    }
  }

  lemma {:induction false} GeTransitive(ranges: seq<nat>, a: nat, b: nat, c: nat)
    requires AllPositive(ranges) && Ge(ranges, a, b) && Ge(ranges, b, c)
    ensures Ge(ranges, a, c)
  {
    if ranges != [] {
      hide Ge, Digit, Higher;
      var r := ranges[0];
      GeDigit(ranges, a, b);
      GeDigit(ranges, b, c);
      GeDigit(ranges, a, c);
      GeTransitive(ranges[1..], Higher(a, r), Higher(b, r), Higher(c, r));
    }
  }

  /** Combination numbers in range are told apart by their digits. */
  lemma {:induction false} GeAntisymmetric(ranges: seq<nat>, a: nat, b: nat)
    requires AllPositive(ranges) && Ge(ranges, a, b) && Ge(ranges, b, a)
    requires a < Combinations(ranges) && b < Combinations(ranges)
    ensures a == b
  {
    if ranges != [] {
      hide Ge, Digit, Higher, Combinations;
      var r := ranges[0];
      GeDigit(ranges, a, b);
      GeDigit(ranges, b, a);
      HigherBelow(ranges, a);
      HigherBelow(ranges, b);
      GeAntisymmetric(ranges[1..], Higher(a, r), Higher(b, r));
      FromDigits(a, r);
      FromDigits(b, r);
    }
  }

  /** Combination 0 is the least. */
  lemma {:induction false} GeZero(ranges: seq<nat>, c: nat)
    requires AllPositive(ranges)
    ensures Ge(ranges, c, 0)
  {
    if ranges != [] {
      GeZero(ranges[1..], c / ranges[0]);
    }
  }

  /** The last combination is the greatest. */
  lemma {:induction false} GeLast(ranges: seq<nat>, c: nat)
    requires AllPositive(ranges) && c < Combinations(ranges)
    ensures Combinations(ranges) > 0 && Ge(ranges, Combinations(ranges) - 1, c)
  {
    if ranges != [] {
      var r, n := ranges[0], Combinations(ranges[1..]);
      QuotientBelow(c, r, n);
      GeLast(ranges[1..], c / r);
      LastDigit(r, n);
    }
  }

  lemma LastDigit(r: nat, n: nat)
    requires r > 0 && n > 0
    ensures r * n > 0 && (r * n - 1) % r == r - 1 && (r * n - 1) / r == n - 1
  {
    assert (n - 1) * r + (r - 1) == r * n - 1;
    DivMod(n - 1, r, r - 1);
  }
}
