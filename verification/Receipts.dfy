/** Receipts: the reconciliation of printed totals, and collapsing to a single line. */
module Receipts {
  import opened Money
  import opened Options
  import opened Text

  datatype LineItem = LineItem(description: string, qty: Option<real>, unitPrice: Option<real>, total: Option<real>)

  datatype Merchant = Merchant(name: Option<string>, address: Option<string>, tin: Option<string>)

  datatype Verdict = High | Low

  /** A warning the model wrote, or one of the two that reconciliation raises. */
  datatype Warning =
    Printed(text: string) | LinesMismatch(lineSum: int, subtotal: int) | TotalMismatch(composed: int, total: int)

  datatype Receipt = Receipt(
    merchant: Merchant, dateTime: Option<string>, currency: Option<string>, lineItems: seq<LineItem>,
    subtotal: Option<real>, tax: Option<real>, tip: Option<real>, total: Option<real>,
    paymentMethod: Option<string>, confidence: Verdict, warnings: seq<Warning>)

  // ---- reconciliation --------------------------------------------------------------------------

  /** The totals of the lines that carry one. */
  function LineTotals(items: seq<LineItem>): (totals: seq<Option<real>>)
    ensures forall i :: 0 <= i < |totals| ==> totals[i].Some?
  {
    if items == [] then []
    else LineTotals(items[..|items| - 1]) + (if items[|items| - 1].total.Some? then [items[|items| - 1].total] else [])
  }

  /** The printed lines sum to the printed subtotal, or there is nothing to compare. */
  predicate LinesAgree(r: Receipt, epsilon: real) {
    LineTotals(r.lineItems) == [] || r.subtotal.None?
    || ApproxEqualMinor(SumMinor(LineTotals(r.lineItems)), ToMinor(r.subtotal.value), epsilon)
  }

  function Composed(r: Receipt): int { SumMinor([r.subtotal, r.tax, r.tip]) }

  /** Subtotal, tax and tip make up the printed total, or there is nothing to compare. */
  predicate TotalsAgree(r: Receipt, epsilon: real) {
    (r.subtotal.None? && r.tax.None? && r.tip.None?) || r.total.None?
    || ApproxEqualMinor(Composed(r), ToMinor(r.total.value), epsilon)
  }

  /** A reconciled receipt: the printed fields, a verdict of its own, and a warning for every mismatch. */
  function Reconciled(r: Receipt, epsilon: real): Receipt {
    r.(confidence := if LinesAgree(r, epsilon) && TotalsAgree(r, epsilon) then High else Low,
       warnings := r.warnings
         + (if LinesAgree(r, epsilon) then []
             else [LinesMismatch(SumMinor(LineTotals(r.lineItems)), ToMinor(r.subtotal.value))])
         + (if TotalsAgree(r, epsilon) then [] else [TotalMismatch(Composed(r), ToMinor(r.total.value))]))
  }

  method ReconcileTotals(r: Receipt, epsilon: real) returns (result: Receipt)
    ensures result == Reconciled(r, epsilon)
  {
    var warnings := r.warnings;
    var confidence := High;
    var itemTotals := LineTotals(r.lineItems);
    if |itemTotals| > 0 && r.subtotal.Some? {
      var lineSum, subtotal := SumMinor(itemTotals), ToMinor(r.subtotal.value);
      if !ApproxEqualMinor(lineSum, subtotal, epsilon) {
        confidence := Low;
        warnings := warnings + [LinesMismatch(lineSum, subtotal)];
      }
    }
    var hasComponents := r.subtotal.Some? || r.tax.Some? || r.tip.Some?;
    if hasComponents && r.total.Some? {
      var composed, total := SumMinor([r.subtotal, r.tax, r.tip]), ToMinor(r.total.value);
      if !ApproxEqualMinor(composed, total, epsilon) {
        confidence := Low;
        warnings := warnings + [TotalMismatch(composed, total)];
      }
    }
    result := r.(confidence := confidence, warnings := warnings);
  }

  lemma ToleranceIsTwoCents()
    ensures ToMinor(EPSILON) == 2
  {
    WholeCents(EPSILON, 2);
  }

  /** Amounts that add up exactly pass the line check as long as rounding them cannot exceed the tolerance. */
  lemma ExactLinesAgree(r: Receipt)
    requires r.subtotal.Some? && ExactSum(LineTotals(r.lineItems)) == r.subtotal.value
    requires (|LineTotals(r.lineItems)| + 1) as real <= 2.0 * Max(2.0, EPSILON * Abs(ToMinor(r.subtotal.value) as real))
    ensures LinesAgree(r, EPSILON)
  {
    var totals := LineTotals(r.lineItems);
    ToleranceIsTwoCents();
    SumError(totals);
    RoundingError(r.subtotal.value);
    hide SumMinor;
    hide ExactSum;
    hide ToMinor;
    Within(SumMinor(totals) as real, ToMinor(r.subtotal.value) as real, r.subtotal.value * 100.0, |totals|);
  }

  lemma Within(sum: real, subtotal: real, exact: real, n: nat)
    requires Abs(sum - exact) <= n as real * 0.5 && Abs(subtotal - exact) <= 0.5
    ensures Abs(sum - subtotal) * 2.0 <= (n + 1) as real
  {
  }

  /** A receipt printed in whole cents whose sums are right is never flagged, however long it is. */
  lemma CentReceiptIsNeverFlagged(r: Receipt)
    requires AllCents(LineTotals(r.lineItems) + [r.subtotal, r.tax, r.tip, r.total])
    requires r.subtotal.Some? ==> LineTotals(r.lineItems) == [] || ExactSum(LineTotals(r.lineItems)) == r.subtotal.value
    requires r.total.Some? && (r.subtotal.Some? || r.tax.Some? || r.tip.Some?) ==>
          ExactSum([r.subtotal, r.tax, r.tip]) == r.total.value
    ensures Reconciled(r, EPSILON).confidence == High && Reconciled(r, EPSILON).warnings == r.warnings
  {
    ToleranceIsTwoCents();
    CentsOfPart(LineTotals(r.lineItems), [r.subtotal, r.tax, r.tip, r.total]);
    assert [r.subtotal, r.tax, r.tip] + [r.total] == [r.subtotal, r.tax, r.tip, r.total];
    CentsOfPart([r.subtotal, r.tax, r.tip], [r.total]);
    CentsSumExactly(LineTotals(r.lineItems));
    CentsSumExactly([r.subtotal, r.tax, r.tip]);
    hide SumMinor;
    hide ExactSum;
    hide LineTotals;
    assert r.subtotal == [r.subtotal, r.tax, r.tip][0];
    assert r.total == [r.total][0];
  }

  lemma CentsOfPart(xs: seq<Option<real>>, ys: seq<Option<real>>)
    requires AllCents(xs + ys)
    ensures AllCents(xs) && AllCents(ys)
  {
    forall i | 0 <= i < |xs| && xs[i].Some? ensures xs[i].value * 100.0 == ToMinor(xs[i].value) as real {
      assert xs[i] == (xs + ys)[i];
    }
    forall i | 0 <= i < |ys| && ys[i].Some? ensures ys[i].value * 100.0 == ToMinor(ys[i].value) as real {
      assert ys[i] == (xs + ys)[|xs| + i];
    }
  }

  function Or0(amount: Option<real>): real { if amount.Some? then amount.value else 0.0 }

  // ---- what is flagged --------------------------------------------------------------------------

  function Larger(x: real, y: real): real { if x >= y then x else y }

  /** Two amounts are further apart than two cents and than two per cent of the second. */
  predicate FarApart(amount: real, printed: real) {
    var apart, size := if amount >= printed then amount - printed else printed - amount,
                       if printed >= 0.0 then printed else -printed;
    apart > Larger(0.02, 0.02 * size)
  }

  /** The lines that carry a total, added up exactly, and whether there is one. */
  function LineSum(items: seq<LineItem>): real {
    if items == [] then 0.0 else LineSum(items[..|items| - 1]) + Or0(items[|items| - 1].total)
  }

  predicate AnyLineTotal(items: seq<LineItem>) { exists i :: 0 <= i < |items| && items[i].total.Some? }

  predicate InCents(amount: real) { amount * 100.0 == (amount * 100.0).Floor as real }

  /** Every amount of the receipt is printed in whole cents. */
  predicate Printed(r: Receipt) {
    && (forall i :: 0 <= i < |r.lineItems| && r.lineItems[i].total.Some? ==> InCents(r.lineItems[i].total.value))
    && (forall amount :: amount in [r.subtotal, r.tax, r.tip, r.total] && amount.Some? ==> InCents(amount.value))
  }

  predicate LinesOff(r: Receipt) {
    AnyLineTotal(r.lineItems) && r.subtotal.Some? && FarApart(LineSum(r.lineItems), r.subtotal.value)
  }

  predicate TotalOff(r: Receipt) {
    (r.subtotal.Some? || r.tax.Some? || r.tip.Some?) && r.total.Some?
    && FarApart(Or0(r.subtotal) + Or0(r.tax) + Or0(r.tip), r.total.value)
  }

  lemma CentsRound(amount: real)
    requires InCents(amount)
    ensures ToMinor(amount) as real == amount * 100.0
  {
    WholeCents(amount, (amount * 100.0).Floor);
  }

  lemma ApproxMeans(a: int, b: int, amount: real, printed: real)
    requires a as real == amount * 100.0 && b as real == printed * 100.0
    ensures ApproxEqualMinor(a, b, EPSILON) <==> !FarApart(amount, printed)
  {
    ToleranceIsTwoCents();
    hide ToMinor;
  }

  lemma {:induction false} LinesInCents(items: seq<LineItem>)
    requires forall i :: 0 <= i < |items| && items[i].total.Some? ==> InCents(items[i].total.value)
    ensures SumMinor(LineTotals(items)) as real == LineSum(items) * 100.0
    ensures LineTotals(items) != [] <==> AnyLineTotal(items)
  {
    if items != [] {
      var init, last := items[..|items| - 1], items[|items| - 1];
      LinesInCents(init);
      if last.total.Some? {
        CentsRound(last.total.value);
        SumAppend(LineTotals(init), [last.total]);
        OneAmount(last.total);
      }
      assert LineTotals(items) == LineTotals(init) + (if last.total.Some? then [last.total] else []);
      assert LineTotals(init) + [] == LineTotals(init);
      AnyMore(items);
      hide ToMinor;
      hide InCents;
      hide SumMinor;
    }
  }

  lemma OneAmount(amount: Option<real>)
    ensures SumMinor([amount]) == MinorOf(amount)
  {
    assert [amount][..0] == [];
  }

  lemma AnyMore(items: seq<LineItem>)
    requires items != []
    ensures AnyLineTotal(items) <==> AnyLineTotal(items[..|items| - 1]) || items[|items| - 1].total.Some?
  {
    var init := items[..|items| - 1];
    if i :| 0 <= i < |init| && init[i].total.Some? { assert items[i].total.Some?; }
  }

  lemma ComposedInCents(r: Receipt)
    requires Printed(r)
    ensures Composed(r) as real == (Or0(r.subtotal) + Or0(r.tax) + Or0(r.tip)) * 100.0
  {
    var s, t, u := r.subtotal, r.tax, r.tip;
    var all := [r.subtotal, r.tax, r.tip, r.total];
    assert all[0] in all && all[1] in all && all[2] in all;
    AmountInCents(s);
    AmountInCents(t);
    AmountInCents(u);
    assert [s, t, u] == [s] + [t] + [u];
    SumAppend([s] + [t], [u]);
    SumAppend([s], [t]);
    OneAmount(s);
    OneAmount(t);
    OneAmount(u);
    hide MinorOf;
    hide SumMinor;
    hide InCents;
  }

  lemma AmountInCents(amount: Option<real>)
    requires amount.Some? ==> InCents(amount.value)
    ensures MinorOf(amount) as real == Or0(amount) * 100.0
  {
    if amount.Some? { CentsRound(amount.value); }
  }

  /**
   On a receipt printed in whole cents, the line warning is added exactly when the exact sum of the lines is
   further than two cents and two per cent from the subtotal, the total warning exactly when subtotal, tax
   and tip are that far from the total, and the verdict is high exactly when neither is; each warning names
   the two amounts in cents.
   */
  lemma FlaggedIffFarApart(r: Receipt)
    requires Printed(r)
    ensures var result := Reconciled(r, EPSILON);
            var sum, subtotal := LineSum(r.lineItems) * 100.0, Or0(r.subtotal) * 100.0;
            var parts, total := (Or0(r.subtotal) + Or0(r.tax) + Or0(r.tip)) * 100.0, Or0(r.total) * 100.0;
            && (result.confidence == High <==> !LinesOff(r) && !TotalOff(r))
            && result.warnings
               == r.warnings
                  + (if LinesOff(r) then [LinesMismatch(sum.Floor, subtotal.Floor)] else [])
                  + (if TotalOff(r) then [TotalMismatch(parts.Floor, total.Floor)] else [])
  {
    LinesAgreeIff(r);
    TotalsAgreeIff(r);
    hide LinesAgree;
    hide TotalsAgree;
    hide Printed;
    hide LineSum;
    hide Or0;
    hide LineTotals;
    hide SumMinor;
    hide ToMinor;
    hide Composed;
    hide FarApart;
    hide AnyLineTotal;
  }

  lemma LinesAgreeIff(r: Receipt)
    requires Printed(r)
    ensures LinesAgree(r, EPSILON) <==> !LinesOff(r)
    ensures (LineSum(r.lineItems) * 100.0).Floor == SumMinor(LineTotals(r.lineItems))
    ensures r.subtotal.Some? ==> (Or0(r.subtotal) * 100.0).Floor == ToMinor(r.subtotal.value)
  {
    var all := [r.subtotal, r.tax, r.tip, r.total];
    assert all[0] in all;
    LinesInCents(r.lineItems);
    AmountInCents(r.subtotal);
    var sum := SumMinor(LineTotals(r.lineItems));
    assert (sum as real).Floor == sum && (MinorOf(r.subtotal) as real).Floor == MinorOf(r.subtotal);
    if r.subtotal.Some? { ApproxMeans(sum, ToMinor(r.subtotal.value), LineSum(r.lineItems), r.subtotal.value); }
    hide ToMinor;
    hide FarApart;
    hide ApproxEqualMinor;
    hide InCents;
    hide LineSum;
    hide SumMinor;
    hide LineTotals;
  }

  lemma TotalsAgreeIff(r: Receipt)
    requires Printed(r)
    ensures TotalsAgree(r, EPSILON) <==> !TotalOff(r)
    ensures ((Or0(r.subtotal) + Or0(r.tax) + Or0(r.tip)) * 100.0).Floor == Composed(r)
    ensures r.total.Some? ==> (Or0(r.total) * 100.0).Floor == ToMinor(r.total.value)
  {
    var all := [r.subtotal, r.tax, r.tip, r.total];
    assert all[3] in all;
    ComposedInCents(r);
    AmountInCents(r.total);
    assert (Composed(r) as real).Floor == Composed(r) && (MinorOf(r.total) as real).Floor == MinorOf(r.total);
    if r.total.Some? {
      ApproxMeans(Composed(r), ToMinor(r.total.value), Or0(r.subtotal) + Or0(r.tax) + Or0(r.tip), r.total.value);
    }
    hide ToMinor;
    hide FarApart;
    hide ApproxEqualMinor;
    hide InCents;
    hide SumMinor;
    hide Composed;
  }

  // ---- one line -----------------------------------------------------------------------------------

  /** The subtotal, or what it can be recovered from. */
  function SubtotalAmount(r: Receipt): Option<real> {
    if r.subtotal.Some? then r.subtotal
    else if LineTotals(r.lineItems) != [] then Some(ExactSum(LineTotals(r.lineItems)))
    else if r.total.Some? then Some(r.total.value - Or0(r.tax) - Or0(r.tip))
    else None
  }

  function DescribeReceipt(r: Receipt): string {
    var merchant := if r.merchant.name.Some? then Trim(r.merchant.name.value) else "";
    var count := |r.lineItems|;
    if count == 0 then (if merchant != "" then merchant else "Receipt")
    else if merchant != "" then merchant + " (" + NatToString(count) + " items)"
    else NatToString(count) + " items"
  }

  /** A line recovered from a grand total alone makes up that total again with tax and tip. */
  function CollapseToSingleLineItem(r: Receipt): (c: Receipt)
    ensures |c.lineItems| <= 1
    ensures |r.lineItems| != 1 && r.subtotal.None? && LineTotals(r.lineItems) == [] && r.total.Some? ==>
              |c.lineItems| == 1 && c.lineItems[0].total == Some(r.total.value - Or0(r.tax) - Or0(r.tip))
  {
    if |r.lineItems| == 1 then r
    else
      match SubtotalAmount(r)
      case None => r.(lineItems := [])
      case Some(amount) => r.(lineItems := [LineItem(DescribeReceipt(r), Some(1.0), Some(amount), Some(amount))])
  }

  /** Collapsing a collapsed receipt changes nothing. */
  lemma CollapseIsIdempotent(r: Receipt)
    ensures CollapseToSingleLineItem(CollapseToSingleLineItem(r)) == CollapseToSingleLineItem(r)
  {
    assert LineTotals([]) == [];
  }

  /** Collapsing touches the lines only: verdict, warnings and every printed amount stay. */
  lemma CollapseKeepsTheRest(r: Receipt, epsilon: real)
    ensures CollapseToSingleLineItem(r).(lineItems := r.lineItems) == r
    ensures |CollapseToSingleLineItem(r).lineItems| <= 1
    ensures TotalsAgree(CollapseToSingleLineItem(r), epsilon) <==> TotalsAgree(r, epsilon)
  {
  }

  lemma OneLineTotals(item: LineItem)
    requires item.total.Some?
    ensures LineTotals([item]) == [item.total] && SumMinor([item.total]) == ToMinor(item.total.value)
  {
    assert [item][..0] == [];
    assert LineTotals([]) == [];
    assert [item.total][..0] == [];
  }

  /** The synthesized line always agrees with the subtotal it was made from. */
  lemma CollapsedLinesAgree(r: Receipt, epsilon: real)
    requires |r.lineItems| != 1 && epsilon >= 0.0
    ensures LinesAgree(CollapseToSingleLineItem(r), epsilon)
  {
    var c := CollapseToSingleLineItem(r);
    if |c.lineItems| == 1 {
      OneLineTotals(c.lineItems[0]);
      FloorIsNotNegative(epsilon);
    }
  }

  lemma FloorIsNotNegative(epsilon: real)
    requires epsilon >= 0.0
    ensures ToMinor(epsilon) >= 0
  {
    assert epsilon * 100.0 + 0.5 >= 0.0;
  }

  datatype LineItemMode = Itemized | Single

  /**
   What is reported for a receipt: reconciled as printed first, collapsed only afterwards. The mode decides the
   lines alone.
   */
  function Reported(r: Receipt, mode: LineItemMode): (reported: Receipt)
    ensures reported.(lineItems := r.lineItems) == Reconciled(r, EPSILON)
  {
    if mode.Single? then CollapseToSingleLineItem(Reconciled(r, EPSILON)) else Reconciled(r, EPSILON)
  }

  /** Collapsing before reconciling would hide every line mismatch: only the totals would still count. */
  lemma CollapsingFirstHidesLineMismatches(r: Receipt)
    requires |r.lineItems| != 1
    ensures Reconciled(CollapseToSingleLineItem(r), EPSILON).confidence == High <==> TotalsAgree(r, EPSILON)
    ensures Reported(r, Single).confidence == High <==> LinesAgree(r, EPSILON) && TotalsAgree(r, EPSILON)
  {
    CollapsedLinesAgree(r, EPSILON);
    CollapseKeepsTheRest(r, EPSILON);
  }

  lemma {:induction false} LineTotalsSum(items: seq<LineItem>)
    ensures ExactSum(LineTotals(items)) == LineSum(items)
  {
    if items != [] {
      hide *;
      var init, last := items[..|items| - 1], items[|items| - 1];
      LineTotalsSum(init);
      LastLine(items);
      SumLast(LineTotals(init), last.total);
    } else {
      assert LineTotals(items) == [];
    }
  }

  lemma LastLine(items: seq<LineItem>)
    requires items != []
    ensures var init, last := items[..|items| - 1], items[|items| - 1];
            && LineTotals(items) == (if last.total.Some? then LineTotals(init) + [last.total] else LineTotals(init))
            && LineSum(items) == LineSum(init) + Or0(last.total)
            && (last.total.None? ==> Or0(last.total) == 0.0)
            && (last.total.Some? ==> Or0(last.total) == last.total.value)
  {
  }

  lemma SumLast(amounts: seq<Option<real>>, last: Option<real>)
    ensures ExactSum(amounts + [last]) == ExactSum(amounts) + (if last.None? then 0.0 else last.value)
  {
    assert (amounts + [last])[..|amounts|] == amounts;
  }

  lemma {:induction false} AnyLineTotalIff(items: seq<LineItem>)
    ensures LineTotals(items) != [] <==> AnyLineTotal(items)
  {
    if items != [] { AnyLineTotalIff(items[..|items| - 1]); }
  }

  /**
   A receipt is reported with its own lines, or in single mode with one line for the subtotal: the printed one,
   else the sum of the lines, else what the total leaves after tax and tip; without any of these with none.
   */
  lemma ReportedLines(r: Receipt)
    ensures Reported(r, Itemized).lineItems == r.lineItems
    ensures var lines := Reported(r, Single).lineItems;
            && (|r.lineItems| == 1 ==> lines == r.lineItems)
            && (|r.lineItems| != 1 ==>
                  && (lines != [] <==> r.subtotal.Some? || AnyLineTotal(r.lineItems) || r.total.Some?)
                  && (lines != [] ==>
                        && |lines| == 1 && lines[0].qty == Some(1.0) && lines[0].unitPrice == lines[0].total
                        && lines[0].total
                           == Some(if r.subtotal.Some? then r.subtotal.value
                                   else if AnyLineTotal(r.lineItems) then LineSum(r.lineItems)
                                   else Or0(r.total) - Or0(r.tax) - Or0(r.tip))))
  {
    LineTotalsSum(r.lineItems);
    AnyLineTotalIff(r.lineItems);
    hide LinesAgree;
    hide TotalsAgree;
    hide LineSum;
    hide AnyLineTotal;
  }

  /** That line names the merchant, and after it the number of lines it stands for. */
  lemma SingleLineNamesTheMerchant(r: Receipt)
    requires |r.lineItems| != 1 && r.subtotal.Some?
    ensures var text := Reported(r, Single).lineItems[0].description;
            var merchant := if r.merchant.name.Some? then Trim(r.merchant.name.value) else "";
            && merchant <= text && text != ""
            && (r.lineItems != [] ==>
                  if merchant == "" then text == NatToString(|r.lineItems|) + " items"
                  else text[|merchant|..] == " (" + NatToString(|r.lineItems|) + " items)")
  {
    hide LinesAgree;
    hide TotalsAgree;
    hide Trim;
    hide NatToString;
  }
}
