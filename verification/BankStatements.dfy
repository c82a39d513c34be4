/** The deterministic reconciliation of a bank statement after the model has extracted it. */
module BankStatements {
  import opened Money
  import opened Options
  import opened Receipts

  datatype Transaction = Transaction(debit: Option<real>, credit: Option<real>, balance: Option<real>)

  datatype Statement =
    Statement(openingBalance: Option<real>, closingBalance: Option<real>, transactions: seq<Transaction>)

  datatype Summary = Summary(totalCredits: real, totalDebits: real, netFlow: real, transactionCount: nat)

  datatype StatementWarning = BalanceMismatch(derived: int, closing: int) | BalanceMissing

  function Credits(ts: seq<Transaction>): (amounts: seq<Option<real>>)
    ensures |amounts| == |ts|
  {
    seq(|ts|, i requires 0 <= i < |ts| => ts[i].credit)
  }

  function Debits(ts: seq<Transaction>): (amounts: seq<Option<real>>)
    ensures |amounts| == |ts|
  {
    seq(|ts|, i requires 0 <= i < |ts| => ts[i].debit)
  }

  /** Opening balance plus credits less debits, in cents. */
  function DerivedClosing(opening: real, ts: seq<Transaction>): int {
    ToMinor(opening) + SumMinor(Credits(ts)) - SumMinor(Debits(ts))
  }

  predicate Reconciles(s: Statement) {
    s.openingBalance.Some? && s.closingBalance.Some?
    && ApproxEqualMinor(DerivedClosing(s.openingBalance.value, s.transactions), ToMinor(s.closingBalance.value),
        EPSILON)
  }

  method ReconcileStatement(s: Statement)
    returns (summary: Summary, confidence: Verdict, warnings: seq<StatementWarning>)
    ensures confidence == High <==> Reconciles(s)
    ensures warnings == if Reconciles(s) then []
                        else if s.openingBalance.None? || s.closingBalance.None? then [BalanceMissing]
                        else [BalanceMismatch(DerivedClosing(s.openingBalance.value, s.transactions),
                            ToMinor(s.closingBalance.value))]
    ensures summary.netFlow == summary.totalCredits - summary.totalDebits
    ensures summary.totalCredits * 100.0 == SumMinor(Credits(s.transactions)) as real
    ensures summary.totalDebits * 100.0 == SumMinor(Debits(s.transactions)) as real
    ensures summary.transactionCount == |s.transactions|
  {
    var creditsMinor := SumMinor(Credits(s.transactions));
    var debitsMinor := SumMinor(Debits(s.transactions));
    warnings := [];
    confidence := High;
    if s.openingBalance.Some? && s.closingBalance.Some? {
      var derived := ToMinor(s.openingBalance.value) + creditsMinor - debitsMinor;
      var closing := ToMinor(s.closingBalance.value);
      if !ApproxEqualMinor(derived, closing, EPSILON) {
        confidence := Low;
        warnings := warnings + [BalanceMismatch(derived, closing)];
      }
    } else {
      confidence := Low;
      warnings := warnings + [BalanceMissing];
    }
    summary := Summary(creditsMinor as real / 100.0, debitsMinor as real / 100.0,
        (creditsMinor - debitsMinor) as real / 100.0, |s.transactions|);
  }

  /** What the listed transactions bring in and take out, added up exactly. */
  function CreditSum(ts: seq<Transaction>): real {
    if ts == [] then 0.0 else CreditSum(ts[..|ts| - 1]) + Or0(ts[|ts| - 1].credit)
  }

  function DebitSum(ts: seq<Transaction>): real {
    if ts == [] then 0.0 else DebitSum(ts[..|ts| - 1]) + Or0(ts[|ts| - 1].debit)
  }

  predicate Cents(amount: Option<real>) { amount.Some? ==> InCents(amount.value) }

  /** Every amount of the statement is printed in whole cents. */
  predicate InWholeCents(s: Statement) {
    && Cents(s.openingBalance) && Cents(s.closingBalance)
    && forall i :: 0 <= i < |s.transactions| ==> Cents(s.transactions[i].credit) && Cents(s.transactions[i].debit)
  }

  lemma {:induction false} SumsInCents(ts: seq<Transaction>)
    requires forall i :: 0 <= i < |ts| ==> Cents(ts[i].credit) && Cents(ts[i].debit)
    ensures SumMinor(Credits(ts)) as real == CreditSum(ts) * 100.0
    ensures SumMinor(Debits(ts)) as real == DebitSum(ts) * 100.0
  {
    if ts != [] {
      var init, last := ts[..|ts| - 1], ts[|ts| - 1];
      SumsInCents(init);
      AmountInCents(last.credit);
      AmountInCents(last.debit);
      assert Credits(ts)[..|ts| - 1] == Credits(init) && Debits(ts)[..|ts| - 1] == Debits(init);
      hide MinorOf;
      hide Cents;
    }
  }

  /**
   A statement printed in whole cents is high exactly when both balances are printed and opening plus
   credits less debits is within two cents or two per cent of the closing balance; the summary is exact.
   */
  lemma ReconcilesIffClose(s: Statement)
    requires InWholeCents(s)
    ensures Reconciles(s)
       <==> s.openingBalance.Some? && s.closingBalance.Some?
            && !FarApart(s.openingBalance.value + CreditSum(s.transactions) - DebitSum(s.transactions),
                         s.closingBalance.value)
    ensures s.openingBalance.Some? ==>
              DerivedClosing(s.openingBalance.value, s.transactions) as real
              == (s.openingBalance.value + CreditSum(s.transactions) - DebitSum(s.transactions)) * 100.0
    ensures SumMinor(Credits(s.transactions)) as real == CreditSum(s.transactions) * 100.0
    ensures SumMinor(Debits(s.transactions)) as real == DebitSum(s.transactions) * 100.0
  {
    SumsInCents(s.transactions);
    AmountInCents(s.openingBalance);
    AmountInCents(s.closingBalance);
    if s.openingBalance.Some? && s.closingBalance.Some? {
      ApproxMeans(DerivedClosing(s.openingBalance.value, s.transactions), ToMinor(s.closingBalance.value),
                  s.openingBalance.value + CreditSum(s.transactions) - DebitSum(s.transactions),
                  s.closingBalance.value);
    }
    hide ToMinor;
    hide FarApart;
    hide ApproxEqualMinor;
    hide SumMinor;
  }

  /** Every printed balance follows to the cent from the one before it, and the last one is the closing balance. */
  predicate ChainsTo(start: int, ts: seq<Transaction>, closing: int)
    decreases |ts|
  {
    if ts == [] then start == closing
    else
      ts[0].balance.Some?
      && ToMinor(ts[0].balance.value) == start + MinorOf(ts[0].credit) - MinorOf(ts[0].debit)
      && ChainsTo(ToMinor(ts[0].balance.value), ts[1..], closing)
  }

  lemma {:induction false} ChainSum(start: int, ts: seq<Transaction>, closing: int)
    requires ChainsTo(start, ts, closing)
    ensures start + SumMinor(Credits(ts)) - SumMinor(Debits(ts)) == closing
    decreases |ts|
  {
    if ts != [] {
      ChainSum(ToMinor(ts[0].balance.value), ts[1..], closing);
      FirstOut(Credits(ts));
      FirstOut(Debits(ts));
      assert Credits(ts)[1..] == Credits(ts[1..]) && Debits(ts)[1..] == Debits(ts[1..]);
    }
  }

  lemma FirstOut(amounts: seq<Option<real>>)
    requires amounts != []
    ensures SumMinor(amounts) == MinorOf(amounts[0]) + SumMinor(amounts[1..])
  {
    hide MinorOf;
    SumWithout(amounts, 0);
    assert amounts[..0] + amounts[1..] == amounts[1..];
  }

  /** A statement whose running balances chain to the cent is never flagged. */
  lemma ChainedStatementIsNeverFlagged(s: Statement)
    requires s.openingBalance.Some? && s.closingBalance.Some?
    requires ChainsTo(ToMinor(s.openingBalance.value), s.transactions, ToMinor(s.closingBalance.value))
    ensures Reconciles(s)
  {
    ChainSum(ToMinor(s.openingBalance.value), s.transactions, ToMinor(s.closingBalance.value));
    ToleranceIsTwoCents();
  }

  /** The order in which transactions are listed does not change the verdict. */
  lemma ListingOrderDoesNotMatter(s: Statement, ts: seq<Transaction>)
    requires multiset(Credits(s.transactions)) == multiset(Credits(ts))
    requires multiset(Debits(s.transactions)) == multiset(Debits(ts))
    ensures Reconciles(s) <==> Reconciles(s.(transactions := ts))
  {
    SumIsOrderFree(Credits(s.transactions), Credits(ts));
    SumIsOrderFree(Debits(s.transactions), Debits(ts));
  }
}
