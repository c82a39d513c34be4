/** Money held as whole minor units (cents), and when two totals agree. */
module Money {
  import opened Options

  /** Relative tolerance for "these two totals agree". */
  const EPSILON := 0.02

  /** Whole minor units of a major-unit amount; exact halves go up, also below zero. */
  function ToMinor(amount: real): int { (amount * 100.0 + 0.5).Floor }

  function MinorOf(amount: Option<real>): int { if amount.None? then 0 else ToMinor(amount.value) }

  /** Each amount is rounded before it is added; absent amounts count as nothing. */
  function SumMinor(amounts: seq<Option<real>>): int {
    if amounts == [] then 0 else SumMinor(amounts[..|amounts| - 1]) + MinorOf(amounts[|amounts| - 1])
  }

  function Abs(x: real): real { if x < 0.0 then -x else x }

  function Max(x: real, y: real): real { if x < y then y else x }

  /** Agreement within a relative tolerance of the second amount, with an absolute floor. */
  predicate ApproxEqualMinor(a: int, b: int, epsilon: real) {
    Abs(a as real - b as real) <= Max(ToMinor(epsilon) as real, epsilon * Abs(b as real))
  }

  // ---- rounding ----------------------------------------------------------------------------------

  /** The nearest whole number of cents, halves away from zero, as the documentation describes it. */
  function HalfAwayFromZero(amount: real): int {
    if amount < 0.0 then -ToMinor(-amount) else ToMinor(amount)
  }

  predicate HalfCent(amount: real) { amount * 100.0 + 0.5 == (amount * 100.0 + 0.5).Floor as real }

  /** The code departs from the documented rounding exactly on negative half cents. */
  lemma RoundingIsHalfAwayIff(amount: real)
    ensures ToMinor(amount) == HalfAwayFromZero(amount) <==> !(amount < 0.0 && HalfCent(amount))
  {
    if amount < 0.0 {
      var x := amount * 100.0 + 0.5;
      var y := -amount * 100.0 + 0.5;
      assert y == 1.0 - x;
      assert x.Floor as real <= x < x.Floor as real + 1.0;
      assert y.Floor as real <= y < y.Floor as real + 1.0;
    }
  }

  /** Rounding moves an amount by at most half a cent. */
  lemma RoundingError(amount: real)
    ensures Abs(ToMinor(amount) as real - amount * 100.0) <= 0.5
  {
    assert (amount * 100.0 + 0.5).Floor as real <= amount * 100.0 + 0.5;
  }

  lemma WholeCents(amount: real, cents: int)
    requires amount * 100.0 == cents as real
    ensures ToMinor(amount) == cents
  {
    var f := (cents as real + 0.5).Floor;
    assert f as real <= cents as real + 0.5 < f as real + 1.0;
  }

  // ---- sums ---------------------------------------------------------------------------------------

  lemma {:induction false} SumAppend(xs: seq<Option<real>>, ys: seq<Option<real>>)
    ensures SumMinor(xs + ys) == SumMinor(xs) + SumMinor(ys)
  {
    if ys == [] {
      assert xs + ys == xs;
    } else {
      SumAppend(xs, ys[..|ys| - 1]);
      assert (xs + ys)[..|xs + ys| - 1] == xs + ys[..|ys| - 1];
    }
  }

  /** Taking one amount out takes exactly its cents out. */
  lemma SumWithout(xs: seq<Option<real>>, i: nat)
    requires i < |xs|
    ensures SumMinor(xs) == SumMinor(xs[..i] + xs[i + 1..]) + MinorOf(xs[i])
  {
    hide MinorOf;
    SumAppend(xs[..i], xs[i + 1..]);
    SumAppend(xs[..i + 1], xs[i + 1..]);
    assert xs == xs[..i + 1] + xs[i + 1..];
    assert xs[..i + 1][..i] == xs[..i];
  }

  /** The order of the lines does not matter. */
  lemma {:induction false} SumIsOrderFree(xs: seq<Option<real>>, ys: seq<Option<real>>)
    requires multiset(xs) == multiset(ys)
    ensures SumMinor(xs) == SumMinor(ys)
  {
    if xs == [] {
      assert |multiset(ys)| == 0;
    } else {
      hide MinorOf;
      var init, last := xs[..|xs| - 1], xs[|xs| - 1];
      var i := Position(xs, ys);
      RestIsPermutation(xs, ys, i);
      SumIsOrderFree(init, ys[..i] + ys[i + 1..]);
      SumWithout(ys, i);
    }
  }

  lemma Position(xs: seq<Option<real>>, ys: seq<Option<real>>) returns (i: nat)
    requires multiset(xs) == multiset(ys) && xs != []
    ensures i < |ys| && ys[i] == xs[|xs| - 1]
  {
    assert xs[|xs| - 1] in multiset(ys);
    i :| 0 <= i < |ys| && ys[i] == xs[|xs| - 1];
  }

  lemma RestIsPermutation(xs: seq<Option<real>>, ys: seq<Option<real>>, i: nat)
    requires multiset(xs) == multiset(ys) && xs != [] && i < |ys| && ys[i] == xs[|xs| - 1]
    ensures multiset(xs[..|xs| - 1]) == multiset(ys[..i] + ys[i + 1..])
  {
    assert xs == xs[..|xs| - 1] + [xs[|xs| - 1]];
    assert ys == ys[..i] + [ys[i]] + ys[i + 1..];
    var rest := multiset(ys[..i] + ys[i + 1..]);
    assert multiset(ys) == rest + multiset{ys[i]};
    assert multiset(xs[..|xs| - 1]) == multiset(xs) - multiset{xs[|xs| - 1]};
    assert rest == multiset(ys) - multiset{ys[i]};
  }

  /** The exact sum, before any rounding. */
  function ExactSum(amounts: seq<Option<real>>): real {
    if amounts == [] then 0.0
    else
      ExactSum(amounts[..|amounts| - 1])
      + (if amounts[|amounts| - 1].None? then 0.0 else amounts[|amounts| - 1].value)
  }

  /** The cents of a sum lie within half a cent per amount of the exact sum. */
  lemma {:induction false} SumError(amounts: seq<Option<real>>)
    ensures Abs(SumMinor(amounts) as real - ExactSum(amounts) * 100.0) <= |amounts| as real * 0.5
  {
    if amounts != [] {
      var init, last := amounts[..|amounts| - 1], amounts[|amounts| - 1];
      SumError(init);
      if last.Some? { RoundingError(last.value); }
      hide ToMinor;
      TriangleStep(SumMinor(init), ExactSum(init), MinorOf(last), if last.None? then 0.0 else last.value, |init|);
    }
  }

  lemma TriangleStep(sum: int, exact: real, minor: int, amount: real, n: nat)
    requires Abs(sum as real - exact * 100.0) <= n as real * 0.5 && Abs(minor as real - amount * 100.0) <= 0.5
    ensures Abs((sum + minor) as real - (exact + amount) * 100.0) <= (n + 1) as real * 0.5
  {
  }

  /** Every present amount is a whole number of cents. */
  ghost predicate AllCents(amounts: seq<Option<real>>) {
    forall i :: 0 <= i < |amounts| && amounts[i].Some? ==> amounts[i].value * 100.0 == ToMinor(amounts[i].value) as real
  }

  /** Amounts printed to the cent sum without any error. */
  lemma {:induction false} CentsSumExactly(amounts: seq<Option<real>>)
    requires AllCents(amounts)
    ensures SumMinor(amounts) as real == ExactSum(amounts) * 100.0
  {
    if amounts != [] {
      hide ToMinor;
      CentsSumExactly(amounts[..|amounts| - 1]);
    }
  }
}
