/** Confidence scores: multiplied deductions, floored to three decimals. */
module Confidence {
  import opened Money
  import opened Options

  /** One multiplicative deduction and the reason shown for it. */
  datatype Deduction<R> = Deduction(factor: real, reason: R)

  datatype Assessment<R> = Assessment(score: real, reasons: seq<R>)

  const FAILED_CHECK_FACTOR := 0.5
  const WARNING_FACTOR := 0.9
  /** Results scoring below this go to a human. */
  const REVIEW_BAR := 0.95

  function Clamp01(x: real): (c: real)
    ensures 0.0 <= c <= 1.0
    ensures 0.0 <= x <= 1.0 ==> c == x
  {
    if x < 0.0 then 0.0 else if x > 1.0 then 1.0 else x
  }

  /** Floors to three decimals; the billionth absorbs float noise. */
  function Floor3(x: real): real { (x * 1000.0 + 0.000000001).Floor as real / 1000.0 }

  /** The product of the factors that apply. */
  function Product<R>(deductions: seq<Option<Deduction<R>>>): (p: real)
    ensures 0.0 <= p <= 1.0
  {
    if deductions == [] then 1.0
    else
      var before := Product(deductions[..|deductions| - 1]);
      var last := deductions[|deductions| - 1];
      if last.None? then before else Times(before, Clamp01(last.value.factor))
  }

  function Times(x: real, y: real): (p: real)
    requires 0.0 <= x <= 1.0 && 0.0 <= y <= 1.0
    ensures p == x * y && 0.0 <= p <= x && p <= y
  {
    var p := x * y;
    ProductBelow(x, y, p);
    p
  }

  lemma ProductBelow(x: real, y: real, p: real)
    requires 0.0 <= x <= 1.0 && 0.0 <= y <= 1.0 && p == x * y
    ensures 0.0 <= p <= x && p <= y
  {
    NonNegative(x, y);
    NonNegative(x, 1.0 - y);
    NonNegative(y, 1.0 - x);
    Distributes(x, y);
    Distributes(y, x);
    assert y * x == x * y;
  }

  lemma NonNegative(x: real, y: real)
    requires x >= 0.0 && y >= 0.0
    ensures x * y >= 0.0
  {
  }

  lemma Distributes(x: real, y: real)
    ensures x * (1.0 - y) == x - x * y
  {
  }

  function Reasons<R>(deductions: seq<Option<Deduction<R>>>): seq<R> {
    if deductions == [] then []
    else
      var last := deductions[|deductions| - 1];
      Reasons(deductions[..|deductions| - 1]) + (if last.None? then [] else [last.value.reason])
  }

  function Scored<R>(deductions: seq<Option<Deduction<R>>>): Assessment<R> {
    Assessment(Floor3(Product(deductions)), Reasons(deductions))
  }

  method ScoreFrom<R>(deductions: seq<Option<Deduction<R>>>) returns (a: Assessment<R>)
    ensures a == Scored(deductions)
  {
    hide Clamp01;
    hide Product;
    hide Reasons;
    var score := 1.0;
    var reasons: seq<R> := [];
    NothingDeducted(deductions);
    for i := 0 to |deductions|
      invariant score == Product(deductions[..i]) && reasons == Reasons(deductions[..i])
    {
      ProductOfNext(deductions, i);
      if deductions[i].Some? {
        score := score * Clamp01(deductions[i].value.factor);
        reasons := reasons + [deductions[i].value.reason];
      }
    }
    assert deductions[..|deductions|] == deductions;
    a := Assessment(Floor3(score), reasons);
  }

  lemma NothingDeducted<R>(deductions: seq<Option<Deduction<R>>>)
    ensures Product(deductions[..0]) == 1.0 && Reasons(deductions[..0]) == []
  {
  }

  lemma ProductOfNext<R>(deductions: seq<Option<Deduction<R>>>, i: nat)
    requires i < |deductions|
    ensures Product(deductions[..i + 1])
         == if deductions[i].None? then Product(deductions[..i])
             else Product(deductions[..i]) * Clamp01(deductions[i].value.factor)
    ensures Reasons(deductions[..i + 1])
         == Reasons(deductions[..i]) + (if deductions[i].None? then [] else [deductions[i].value.reason])
  {
    hide Clamp01;
    assert deductions[..i + 1][..i] == deductions[..i];
  }

  // ---- the review bar ---------------------------------------------------------------------------

  /** Flooring never lifts a score by more than the absorbed noise, and keeps the order. */
  lemma FloorKeepsOrder(x: real, y: real)
    requires x <= y
    ensures Floor3(x) <= Floor3(y)
    ensures Floor3(x) <= x + 0.000000000001
  {
    var u, v := x * 1000.0 + 0.000000001, y * 1000.0 + 0.000000001;
    assert u.Floor as real <= u && v < v.Floor as real + 1.0;
  }

  /** A score clears the bar exactly when the unrounded product does, up to the noise. */
  lemma FloorAtBar(x: real)
    ensures Floor3(x) >= REVIEW_BAR <==> x >= 0.949999999999
  {
    var u := x * 1000.0 + 0.000000001;
    assert u.Floor as real <= u < u.Floor as real + 1.0;
  }

  /** A score of whole thousandths. */
  ghost predicate Thousandths(x: real) { x * 1000.0 == (x * 1000.0).Floor as real }

  lemma FloorKeepsThousandths(x: real)
    requires Thousandths(x)
    ensures Floor3(x) == x
  {
    var k := (x * 1000.0).Floor;
    var u := x * 1000.0 + 0.000000001;
    assert u.Floor as real <= u < u.Floor as real + 1.0;
    assert u.Floor == k;
  }

  lemma {:induction false} ProductBelowEach<R>(deductions: seq<Option<Deduction<R>>>, i: nat)
    requires i < |deductions| && deductions[i].Some?
    ensures Product(deductions) <= Clamp01(deductions[i].value.factor)
  {
    if i < |deductions| - 1 { ProductBelowEach(deductions[..|deductions| - 1], i); }
  }

  lemma {:induction false} NoDeductions<R>(deductions: seq<Option<Deduction<R>>>)
    ensures Reasons(deductions) == [] <==> forall i :: 0 <= i < |deductions| ==> deductions[i].None?
    ensures Reasons(deductions) == [] ==> Product(deductions) == 1.0
  {
    if deductions != [] {
      var init := deductions[..|deductions| - 1];
      NoDeductions(init);
      assert forall i :: 0 <= i < |init| ==> init[i] == deductions[i];
    }
  }

  /** When every deduction costs enough, one of any kind sends a result to review, and only a deduction does. */
  lemma AnyDeductionGoesToReview<R>(deductions: seq<Option<Deduction<R>>>)
    requires forall i :: 0 <= i < |deductions| && deductions[i].Some? ==> deductions[i].value.factor <= WARNING_FACTOR
    ensures Scored(deductions).score >= REVIEW_BAR <==> Scored(deductions).reasons == []
    ensures Scored(deductions).reasons == [] ==> Scored(deductions).score == 1.0
  {
    NoDeductions(deductions);
    FloorAtBar(Product(deductions));
    if Reasons(deductions) == [] {
      FloorKeepsThousandths(1.0);
    } else {
      var i :| 0 <= i < |deductions| && deductions[i].Some?;
      ProductBelowEach(deductions, i);
    }
  }

  // ---- combining ----------------------------------------------------------------------------------

  function ClampedProduct<R>(assessments: seq<Assessment<R>>): (p: real)
    ensures 0.0 <= p <= 1.0
  {
    if assessments == [] then 1.0
    else Times(ClampedProduct(assessments[..|assessments| - 1]), Clamp01(assessments[|assessments| - 1].score))
  }

  function AllReasons<R>(assessments: seq<Assessment<R>>): seq<R> {
    if assessments == [] then []
    else AllReasons(assessments[..|assessments| - 1]) + assessments[|assessments| - 1].reasons
  }

  function Combine<R>(assessments: seq<Assessment<R>>): Assessment<R> {
    Assessment(Floor3(ClampedProduct(assessments)), AllReasons(assessments))
  }

  lemma {:induction false} ClampedBelowEach<R>(assessments: seq<Assessment<R>>, i: nat)
    requires i < |assessments|
    ensures ClampedProduct(assessments) <= Clamp01(assessments[i].score)
  {
    if i < |assessments| - 1 { ClampedBelowEach(assessments[..|assessments| - 1], i); }
  }

  lemma {:induction false} ReasonIsKept<R>(assessments: seq<Assessment<R>>, i: nat, reason: R)
    requires i < |assessments| && reason in assessments[i].reasons
    ensures reason in Combine(assessments).reasons
  {
    if i < |assessments| - 1 { ReasonIsKept(assessments[..|assessments| - 1], i, reason); }
  }

  /** Combining never lifts a result above any of its parts, and keeps every reason of each. */
  lemma CombineNeverRaises<R>(assessments: seq<Assessment<R>>, i: nat)
    requires i < |assessments|
    requires 0.0 <= assessments[i].score <= 1.0 && Thousandths(assessments[i].score)
    ensures Combine(assessments).score <= assessments[i].score
    ensures forall reason :: reason in assessments[i].reasons ==> reason in Combine(assessments).reasons
  {
    forall reason | reason in assessments[i].reasons ensures reason in Combine(assessments).reasons {
      ReasonIsKept(assessments, i, reason);
    }
    ClampedBelowEach(assessments, i);
    FloorKeepsOrder(ClampedProduct(assessments), assessments[i].score);
    FloorKeepsThousandths(assessments[i].score);
  }

  /** A product, kept as it is in the proofs. */
  function Mul(x: real, y: real): real { x * y }

  lemma MulInTurn(x: real, y: real, z: real)
    ensures Mul(Mul(x, y), z) == Mul(x, Mul(y, z))
  {
  }

  /** Scores multiplied from the front. */
  function PlainProduct<R>(assessments: seq<Assessment<R>>): real {
    if assessments == [] then 1.0 else Mul(assessments[0].score, PlainProduct(assessments[1..]))
  }

  lemma {:induction false} PlainMore<R>(assessments: seq<Assessment<R>>, last: Assessment<R>)
    ensures PlainProduct(assessments + [last]) == Mul(PlainProduct(assessments), last.score)
  {
    if assessments == [] {
      assert [last][1..] == [] && [] + [last] == [last];
    } else {
      hide Mul;
      PlainMore(assessments[1..], last);
      assert (assessments + [last])[1..] == assessments[1..] + [last];
      MulInTurn(assessments[0].score, PlainProduct(assessments[1..]), last.score);
    }
  }

  lemma LastFactor<R>(assessments: seq<Assessment<R>>)
    requires assessments != [] && 0.0 <= assessments[|assessments| - 1].score <= 1.0
    ensures ClampedProduct(assessments)
         == Mul(ClampedProduct(assessments[..|assessments| - 1]), assessments[|assessments| - 1].score)
  {
    var before, last := ClampedProduct(assessments[..|assessments| - 1]), assessments[|assessments| - 1].score;
    TimesIsMul(before, last);
    hide Times;
    hide Mul;
    assert ClampedProduct(assessments) == Times(before, Clamp01(last));
  }

  lemma TimesIsMul(x: real, y: real)
    requires 0.0 <= x <= 1.0 && 0.0 <= y <= 1.0
    ensures Times(x, y) == Mul(x, y)
  {
  }

  /** Proper scores combine to their product, floored. */
  lemma {:induction false} CombineMultiplies<R>(assessments: seq<Assessment<R>>)
    requires forall i :: 0 <= i < |assessments| ==> 0.0 <= assessments[i].score <= 1.0
    ensures ClampedProduct(assessments) == PlainProduct(assessments)
    ensures Combine(assessments).score == Floor3(PlainProduct(assessments))
  {
    hide Floor3;
    if assessments != [] {
      hide Mul;
      var init, last := assessments[..|assessments| - 1], assessments[|assessments| - 1];
      CombineMultiplies(init);
      LastFactor(assessments);
      hide ClampedProduct;
      hide PlainProduct;
      assert assessments == init + [last];
      PlainMore(init, last);
    }
  }

  /** Flooring takes away less than a thousandth, and leaves whole thousandths. */
  lemma FloorIsThousandths(x: real)
    ensures Floor3(x) * 1000.0 == (Floor3(x) * 1000.0).Floor as real
    ensures x - 0.001 < Floor3(x) <= x + 0.000000000001
  {
    var u := x * 1000.0 + 0.000000001;
    assert u.Floor as real <= u < u.Floor as real + 1.0;
    assert Floor3(x) * 1000.0 == u.Floor as real;
  }

  // ---- fill rate ----------------------------------------------------------------------------------

  function Missing(fields: seq<(string, bool)>): (labels: seq<string>)
    ensures |labels| <= |fields|
    ensures forall name :: name in labels <==> (name, false) in fields
  {
    if fields == [] then []
    else
      assert fields == fields[..|fields| - 1] + [fields[|fields| - 1]];
      Missing(fields[..|fields| - 1]) + (if fields[|fields| - 1].1 then [] else [fields[|fields| - 1].0])
  }

  /** The fraction found of the fields looked for, naming those that were not. */
  function Completeness(fields: seq<(string, bool)>): Option<Deduction<seq<string>>> {
    var missing := Missing(fields);
    if |fields| == 0 || missing == [] then None
    else Some(Deduction((|fields| - |missing|) as real / |fields| as real, missing))
  }

  /** One missing field is enough for review only while fewer than twenty fields are looked for. */
  lemma OneMissingFieldGoesToReviewIff(fields: seq<(string, bool)>)
    requires |Missing(fields)| == 1
    ensures Completeness(fields).Some?
    ensures Scored([Completeness(fields)]).score < REVIEW_BAR <==> |fields| < 20
  {
    var d := Completeness(fields);
    assert [d][..0] == [];
    var n := |fields| as real;
    Fraction(n);
    assert Product([d]) == d.value.factor;
    FloorAtBar(d.value.factor);
  }

  lemma Fraction(n: real)
    requires n >= 1.0
    ensures 0.0 <= (n - 1.0) / n <= 1.0
    ensures n >= 20.0 ==> (n - 1.0) / n >= 0.95
    ensures n <= 19.0 ==> (n - 1.0) / n <= 0.9475
  {
    QuotientAtMost(n - 1.0, n, 1.0);
    QuotientAtMost(n - 1.0, n, 0.9475);
    QuotientAtLeast(n - 1.0, n, 0.0);
    QuotientAtLeast(n - 1.0, n, 0.95);
  }

  lemma QuotientAtMost(a: real, b: real, c: real)
    requires b > 0.0
    ensures a / b <= c <==> a <= c * b
  {
    var q := a / b;
    assert q * b == a;
    assert (c - q) * b == c * b - a;
    if q <= c {
      assert (c - q) * b >= 0.0;
    } else {
      assert (q - c) * b > 0.0;
    }
  }

  lemma QuotientAtLeast(a: real, b: real, c: real)
    requires b > 0.0
    ensures a / b >= c <==> a >= c * b
  {
    var q := a / b;
    assert q * b == a;
    assert (c - q) * b == c * b - a;
    if q >= c {
      assert (q - c) * b >= 0.0;
    } else {
      assert (c - q) * b > 0.0;
    }
  }
}
