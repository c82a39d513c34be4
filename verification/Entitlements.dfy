/**
 Pricing, trial and quota decisions over a subscription, and what they add up to over
 whole runs of documents. Times are milliseconds, money is integer minor units.
 */
module Entitlements {
  import opened Options

  const DAY_MS := 24 * 60 * 60 * 1000

  datatype Billing =
    | TrialBilling
    | PerDocument(unitPrice: nat, perPageSurcharge: Option<nat>, minimumCharge: Option<nat>)
    | Monthly(basePrice: nat, includedDocuments: Option<nat>, overageUnitPrice: Option<nat>)

  datatype TrialPolicy = TrialPolicy(
    durationDays: Option<nat>, includedDocuments: Option<nat>, maxPages: Option<nat>, maxFileSize: Option<nat>)

  datatype TrialWindow = TrialWindow(
    startedAt: int, endsAt: Option<int>, documentsRemaining: Option<int>, maxPages: Option<nat>,
        maxFileSize: Option<nat>)

  datatype Limits = Limits(documentsPerPeriod: Option<nat>, maxPages: Option<nat>, maxFileSize: Option<nat>)

  datatype Plan = Plan(billing: Billing, limits: Limits, trial: Option<TrialPolicy>)

  datatype Status = Trialing | Active | PastDue | Canceled | Expired | Suspended

  datatype Usage = Usage(documents: int, pages: int, tokens: int, amount: int)

  datatype Subscription = Subscription(
    id: nat, plan: Plan, status: Status, trial: Option<TrialWindow>, periodEnd: int,
    cancelAtPeriodEnd: bool, usage: Usage, hasPaymentMethod: bool, updatedAt: int)

  datatype Decision = Allow | QuotaExceeded

  /** One metered document: its pages, the tokens it cost and the clock when it is metered. */
  datatype Doc = Doc(pages: int, tokens: int, at: int)

  function Max(a: int, b: int): int { if a < b then b else a }
  function Min(a: int, b: int): int { if a < b then a else b }

  function EffectiveStatus(sub: Subscription, now: int): Status {
    if sub.status == Suspended then Suspended
    else if sub.status == Trialing && sub.trial.Some? then
      var t := sub.trial.value;
      var timeUp := t.endsAt.Some? && now >= t.endsAt.value;
      var docsUp := t.documentsRemaining.Some? && t.documentsRemaining.value <= 0;
      if timeUp || docsUp then (if sub.hasPaymentMethod then Active else Expired) else Trialing
    else if sub.cancelAtPeriodEnd && now >= sub.periodEnd then Expired
    else sub.status
  }

  /** The stored status lapses when the trial runs out, or the period of a cancelled subscription ends. */
  lemma StatusLapsesIff(sub: Subscription, now: int)
    ensures var trial := sub.status == Trialing && sub.trial.Some?;
            var trialOver := trial
              && ((sub.trial.value.endsAt.Some? && sub.trial.value.endsAt.value <= now)
                  || (sub.trial.value.documentsRemaining.Some? && sub.trial.value.documentsRemaining.value <= 0));
            var periodOver := !trial && sub.status != Suspended && sub.cancelAtPeriodEnd && sub.periodEnd <= now;
            && (EffectiveStatus(sub, now) != sub.status <==> trialOver || (periodOver && sub.status != Expired))
            && (EffectiveStatus(sub, now) != sub.status ==>
                  EffectiveStatus(sub, now) == if trialOver && sub.hasPaymentMethod then Active else Expired)
  {
  }

  function ResolveTrialWindow(policy: TrialPolicy, now: int): TrialWindow {
    TrialWindow(
      now,
      if policy.durationDays.Some? then Some(now + policy.durationDays.value * DAY_MS) else None,
      if policy.includedDocuments.Some? then Some(policy.includedDocuments.value) else None,
      policy.maxPages,
      policy.maxFileSize)
  }

  /** The month-long period end is a parameter: calendar months are not part of this model. */
  function CreateSubscription(id: nat, plan: Plan, now: int, periodEnd: int): Subscription {
    var trial := if plan.trial.Some? then Some(ResolveTrialWindow(plan.trial.value, now)) else None;
    var status := if trial.Some? then Trialing else Active;
    Subscription(id, plan, status, trial, periodEnd, false, Usage(0, 0, 0, 0), false, now)
  }

  function Tighter(a: Option<nat>, b: Option<nat>): Option<nat> {
    if a.None? then b else if b.None? then a else Some(Min(a.value, b.value))
  }

  /** A size stays within a ceiling, if there is one. */
  predicate Within(size: nat, ceiling: Option<nat>) { ceiling.Some? ==> size <= ceiling.value }

  predicate TrialApplies(sub: Subscription, now: int) { EffectiveStatus(sub, now) == Trialing && sub.trial.Some? }

  /** While trialing, a trial's own ceilings only ever narrow the plan: a size passes iff it passes both. */
  function EffectiveLimits(sub: Subscription, now: int): (limits: Limits)
    ensures limits.documentsPerPeriod == sub.plan.limits.documentsPerPeriod
    ensures forall pages: nat ::
              Within(pages, limits.maxPages)
              <==> Within(pages, sub.plan.limits.maxPages)
                   && (TrialApplies(sub, now) ==> Within(pages, sub.trial.value.maxPages))
    ensures forall bytes: nat ::
              Within(bytes, limits.maxFileSize)
              <==> Within(bytes, sub.plan.limits.maxFileSize)
                   && (TrialApplies(sub, now) ==> Within(bytes, sub.trial.value.maxFileSize))
  {
    var base := sub.plan.limits;
    if EffectiveStatus(sub, now) != Trialing || sub.trial.None? then base
    else base.(maxPages := Tighter(base.maxPages, sub.trial.value.maxPages),
               maxFileSize := Tighter(base.maxFileSize, sub.trial.value.maxFileSize))
  }

  /** The tighter of the plan's limit and a monthly plan's allowance: what passes the cap passes both. */
  function PeriodDocumentCap(billing: Billing, limit: Option<nat>): (cap: Option<nat>)
    ensures forall n: nat ::
              Within(n, cap) <==> Within(n, limit) && (billing.Monthly? ==> Within(n, billing.includedDocuments))
    ensures cap.Some? <==> limit.Some? || (billing.Monthly? && billing.includedDocuments.Some?)
  {
    var billingCap := if billing.Monthly? then billing.includedDocuments else None;
    Tighter(billingCap, limit)
  }

  predicate OverageAllowed(billing: Billing) { billing.Monthly? && billing.overageUnitPrice.Some? }

  function CheckDocumentQuota(sub: Subscription, now: int): Decision {
    if EffectiveStatus(sub, now) == Trialing && (sub.trial.None? || sub.trial.value.documentsRemaining.Some?) then
      var remaining := if sub.trial.None? then 0 else sub.trial.value.documentsRemaining.value;
      if remaining <= 0 then QuotaExceeded else Allow
    else
      var cap := PeriodDocumentCap(sub.plan.billing, sub.plan.limits.documentsPerPeriod);
      if cap.None? then Allow
      else if sub.usage.documents >= cap.value && !OverageAllowed(sub.plan.billing) then QuotaExceeded
      else Allow
  }

  /** The document is paid for by a counted, unexpired trial allowance. */
  predicate TrialCovers(sub: Subscription, now: int) {
    EffectiveStatus(sub, now) == Trialing && sub.trial.Some? &&
    sub.trial.value.documentsRemaining.Some? && sub.trial.value.documentsRemaining.value > 0
  }

  function PerDocumentPrice(billing: Billing, pages: int): nat
    requires billing.PerDocument?
  {
    var surcharge := (if billing.perPageSurcharge.Some? then billing.perPageSurcharge.value else 0) * Max(0, pages);
    Max(billing.unitPrice + surcharge, if billing.minimumCharge.Some? then billing.minimumCharge.value else 0)
  }

  function QuoteDocument(sub: Subscription, pages: int, now: int): Option<nat> {
    if TrialCovers(sub, now) then None
    else match sub.plan.billing
      case TrialBilling => None
      case PerDocument(_, _, _) => Some(PerDocumentPrice(sub.plan.billing, pages))
      case Monthly(_, included, overage) =>
        if included.None? || sub.usage.documents < included.value then None
        else overage
  }

  /** An uncovered document costs the least that meets both the price for its pages and the minimum. */
  lemma QuoteIsLeast(sub: Subscription, pages: nat, now: int)
    requires !TrialCovers(sub, now) && sub.plan.billing.PerDocument?
    ensures var b := sub.plan.billing;
            var quote := QuoteDocument(sub, pages, now);
            var price := b.unitPrice + (if b.perPageSurcharge.Some? then b.perPageSurcharge.value * pages else 0);
            && quote.Some? && quote.value >= price
            && (b.minimumCharge.Some? ==> quote.value >= b.minimumCharge.value)
            && (quote.value == price || quote == b.minimumCharge)
            && forall fewer: int :: fewer <= 0 ==> QuoteDocument(sub, fewer, now) == QuoteDocument(sub, 0, now)
  {
  }

  /** A document of a monthly plan costs the overage price, and that only beyond the allowance. */
  lemma MonthlyQuote(sub: Subscription, pages: int, now: int)
    requires !TrialCovers(sub, now) && sub.plan.billing.Monthly?
    ensures var b := sub.plan.billing;
            QuoteDocument(sub, pages, now)
            == if b.includedDocuments.Some? && b.includedDocuments.value <= sub.usage.documents then b.overageUnitPrice
               else None
  {
  }

  function Charge(quote: Option<nat>): nat { if quote.Some? then quote.value else 0 }

  /** The record `recordDocumentUsage` writes back for one document, given the record it read. */
  function RecordUsage(sub: Subscription, doc: Doc): Subscription {
    var trialing := EffectiveStatus(sub, doc.at) == Trialing;
    sub.(usage := Usage(sub.usage.documents + 1,
                        sub.usage.pages + Max(0, doc.pages),
                        sub.usage.tokens + doc.tokens,
                        sub.usage.amount + Charge(QuoteDocument(sub, doc.pages, doc.at))),
         trial := if trialing && sub.trial.Some? && sub.trial.value.documentsRemaining.Some?
                  then Some(sub.trial.value.(
                    documentsRemaining := Some(Max(0, sub.trial.value.documentsRemaining.value - 1))))
                  else sub.trial,
         updatedAt := doc.at)
  }

  /** The most one document can cost under a plan, whatever the trial and allowance say. */
  function FullPrice(plan: Plan, pages: int): nat {
    match plan.billing
    case TrialBilling => 0
    case PerDocument(_, _, _) => PerDocumentPrice(plan.billing, pages)
    case Monthly(_, _, overage) => Charge(overage)
  }

  lemma ChargeAtMostFullPrice(sub: Subscription, pages: int, now: int)
    ensures Charge(QuoteDocument(sub, pages, now)) <= FullPrice(sub.plan, pages)
  {
  }

  // ---- sequential runs --------------------------------------------------------------

  /** The subscription after metering `docs` in order, each call reading what the last one wrote. */
  function After(sub: Subscription, docs: seq<Doc>): Subscription {
    if docs == [] then sub else RecordUsage(After(sub, docs[..|docs| - 1]), docs[|docs| - 1])
  }

  /** Document `i` of the run is covered by the trial. */
  predicate CoveredAt(sub: Subscription, docs: seq<Doc>, i: nat)
    requires i < |docs|
  {
    TrialCovers(After(sub, docs[..i]), docs[i].at)
  }

  /** How many documents of the run the trial covers. */
  function CoveredCount(sub: Subscription, docs: seq<Doc>): nat {
    if docs == [] then 0
    else CoveredCount(sub, docs[..|docs| - 1]) + (if CoveredAt(sub, docs, |docs| - 1) then 1 else 0)
  }

  predicate ClockNeverRunsBack(docs: seq<Doc>) {
    forall i, j :: 0 <= i < j < |docs| ==> docs[i].at <= docs[j].at
  }

  /** What a run never changes, and the direction in which the trial allowance moves. */
  lemma {:induction false} RunFrame(sub: Subscription, docs: seq<Doc>)
    ensures var s := After(sub, docs);
            s.plan == sub.plan && s.status == sub.status && s.hasPaymentMethod == sub.hasPaymentMethod &&
            s.cancelAtPeriodEnd == sub.cancelAtPeriodEnd && s.periodEnd == sub.periodEnd && s.id == sub.id &&
            s.trial.Some? == sub.trial.Some? && s.usage.documents == sub.usage.documents + |docs| &&
            (s.trial.Some? ==>
               s.trial.value.endsAt == sub.trial.value.endsAt &&
               s.trial.value.documentsRemaining.Some? == sub.trial.value.documentsRemaining.Some?)
  {
    if docs != [] { RunFrame(sub, docs[..|docs| - 1]); }
  }

  lemma {:induction false} RemainingNeverGrows(sub: Subscription, docs: seq<Doc>, i: nat)
    requires i <= |docs|
    requires sub.status == Trialing && sub.trial.Some? && sub.trial.value.documentsRemaining.Some?
    ensures After(sub, docs).trial.Some? && After(sub, docs[..i]).trial.Some?
    ensures var late := After(sub, docs).trial.value.documentsRemaining;
            var early := After(sub, docs[..i]).trial.value.documentsRemaining;
            late.Some? && early.Some? && late.value <= early.value
    decreases |docs|
  {
    RunFrame(sub, docs);
    RunFrame(sub, docs[..i]);
    if i < |docs| {
      RemainingNeverGrows(sub, docs[..|docs| - 1], i);
      assert docs[..|docs| - 1][..i] == docs[..i];
      RunFrame(sub, docs[..|docs| - 1]);
    } else {
      assert docs[..i] == docs;
    }
  }

  /** Once the trial stops covering documents it never covers another one. */
  lemma CoverageIsAPrefix(sub: Subscription, docs: seq<Doc>, i: nat, j: nat)
    requires i < j < |docs| && ClockNeverRunsBack(docs)
    requires CoveredAt(sub, docs, j)
    ensures CoveredAt(sub, docs, i)
  {
    RunFrame(sub, docs[..j]);
    RunFrame(sub, docs[..i]);
    assert docs[..j][..i] == docs[..i];
    RemainingNeverGrows(sub, docs[..j], i);
  }

  lemma CoveredAtPrefix(sub: Subscription, docs: seq<Doc>, n: nat, i: nat)
    requires i < n <= |docs|
    ensures CoveredAt(sub, docs, i) == CoveredAt(sub, docs[..n], i)
  {
    assert docs[..i] == docs[..n][..i];
  }

  /** The covered documents are exactly the first `CoveredCount` of the run. */
  lemma {:induction false} CoveredExactlyTheFirst(sub: Subscription, docs: seq<Doc>)
    requires ClockNeverRunsBack(docs)
    ensures CoveredCount(sub, docs) <= |docs|
    ensures forall i :: 0 <= i < |docs| ==> (CoveredAt(sub, docs, i) <==> i < CoveredCount(sub, docs))
  {
    if docs != [] {
      hide CoveredAt;
      var n := |docs| - 1;
      var init := docs[..n];
      CoveredExactlyTheFirst(sub, init);
      forall i | 0 <= i < n ensures CoveredAt(sub, docs, i) == CoveredAt(sub, init, i) {
        CoveredAtPrefix(sub, docs, n, i);
      }
      if CoveredAt(sub, docs, n) && n > 0 { CoverageIsAPrefix(sub, docs, n - 1, n); }
    }
  }

  /** A counted trial loses nothing: what is left plus what was covered is what was granted. */
  lemma {:induction false} TrialAllowanceConserved(sub: Subscription, docs: seq<Doc>)
    requires sub.status == Trialing && sub.trial.Some? && sub.trial.value.documentsRemaining.Some?
    requires sub.trial.value.documentsRemaining.value >= 0
    ensures After(sub, docs).trial.Some? && After(sub, docs).trial.value.documentsRemaining.Some?
    ensures After(sub, docs).trial.value.documentsRemaining.value >= 0
    ensures After(sub, docs).trial.value.documentsRemaining.value + CoveredCount(sub, docs)
            == sub.trial.value.documentsRemaining.value
  {
    if docs != [] {
      TrialAllowanceConserved(sub, docs[..|docs| - 1]);
      RunFrame(sub, docs[..|docs| - 1]);
    }
  }

  function SumPrices(billing: Billing, docs: seq<Doc>): nat
    requires billing.PerDocument?
  {
    if docs == [] then 0 else SumPrices(billing, docs[..|docs| - 1]) + PerDocumentPrice(billing, docs[|docs| - 1].pages)
  }

  /** What a fresh subscription has accrued after `docs`, as a closed form. */
  function AccruedClosedForm(plan: Plan, docs: seq<Doc>, covered: nat): nat
    requires covered <= |docs|
  {
    match plan.billing
    case TrialBilling => 0
    case PerDocument(_, _, _) => SumPrices(plan.billing, docs[covered..])
    case Monthly(_, included, overage) =>
      if included.None? then 0 else Charge(overage) * Max(0, |docs| - Max(included.value, covered))
  }

  /** One more document adds its charge to the closed form. */
  lemma ClosedFormStep(sub: Subscription, docs: seq<Doc>)
    requires docs != [] && ClockNeverRunsBack(docs) && sub.usage.documents == 0
    requires CoveredCount(sub, docs) <= |docs| && CoveredCount(sub, docs[..|docs| - 1]) <= |docs| - 1
    ensures AccruedClosedForm(sub.plan, docs, CoveredCount(sub, docs))
            == AccruedClosedForm(sub.plan, docs[..|docs| - 1], CoveredCount(sub, docs[..|docs| - 1]))
               + Charge(QuoteDocument(After(sub, docs[..|docs| - 1]), docs[|docs| - 1].pages, docs[|docs| - 1].at))
  {
    var n := |docs| - 1;
    CoverageAtTheEnd(sub, docs);
    RunFrame(sub, docs[..n]);
    ClosedFormStepAt(After(sub, docs[..n]), docs, CoveredCount(sub, docs[..n]), CoveredCount(sub, docs));
  }

  lemma ClosedFormStepAt(s: Subscription, docs: seq<Doc>, t0: nat, t: nat)
    requires docs != [] && s.usage.documents == |docs| - 1
    requires var n := |docs| - 1; if TrialCovers(s, docs[n].at) then t == n + 1 && t0 == n else t == t0 <= n
    ensures AccruedClosedForm(s.plan, docs, t)
            == AccruedClosedForm(s.plan, docs[..|docs| - 1], t0)
               + Charge(QuoteDocument(s, docs[|docs| - 1].pages, docs[|docs| - 1].at))
  {
    if s.plan.billing.PerDocument? {
      PerDocumentStep(s.plan.billing, docs, t0, t);
    } else if s.plan.billing.Monthly? && s.plan.billing.includedDocuments.Some? {
      MonthlyStep(Charge(s.plan.billing.overageUnitPrice), |docs| - 1, s.plan.billing.includedDocuments.value, t0, t);
    }
  }

  /** Either the last document is covered and so were all before it, or the count stands still. */
  lemma CoverageAtTheEnd(sub: Subscription, docs: seq<Doc>)
    requires docs != [] && ClockNeverRunsBack(docs)
    ensures var n := |docs| - 1;
            if TrialCovers(After(sub, docs[..n]), docs[n].at)
            then CoveredCount(sub, docs) == n + 1 && CoveredCount(sub, docs[..n]) == n
            else CoveredCount(sub, docs) == CoveredCount(sub, docs[..n]) <= n
  {
    var n := |docs| - 1;
    CoveredExactlyTheFirst(sub, docs);
    assert CoveredAt(sub, docs, n) == TrialCovers(After(sub, docs[..n]), docs[n].at);
  }

  lemma PerDocumentStep(billing: Billing, docs: seq<Doc>, t0: nat, t: nat)
    requires billing.PerDocument? && docs != []
    requires var n := |docs| - 1; (t == n + 1 && t0 == n) || t == t0 <= n
    ensures SumPrices(billing, docs[t..])
            == SumPrices(billing, docs[..|docs| - 1][t0..])
               + (if t == |docs| then 0 else PerDocumentPrice(billing, docs[|docs| - 1].pages))
  {
    if t == t0 {
      assert docs[t..][..|docs[t..]| - 1] == docs[..|docs| - 1][t0..];
    }
  }

  lemma MonthlyStep(price: nat, n: nat, included: nat, t0: nat, t: nat)
    requires (t == n + 1 && t0 == n) || t == t0 <= n
    ensures price * Max(0, n + 1 - Max(included, t))
            == price * Max(0, n - Max(included, t0)) + (if t == n + 1 || n < included then 0 else price)
  {
    if t <= n && n >= included {
      assert n + 1 - Max(included, t) == (n - Max(included, t0)) + 1;
    }
  }

  /** Over any run with a clock that never runs back the accrued amount is the closed form. */
  lemma {:induction false} AccrualHasClosedForm(sub: Subscription, docs: seq<Doc>)
    requires ClockNeverRunsBack(docs) && sub.usage == Usage(0, 0, 0, 0)
    ensures CoveredCount(sub, docs) <= |docs|
    ensures After(sub, docs).usage.amount == AccruedClosedForm(sub.plan, docs, CoveredCount(sub, docs))
  {
    CoveredExactlyTheFirst(sub, docs);
    if docs != [] {
      var init := docs[..|docs| - 1];
      AccrualHasClosedForm(sub, init);
      ClosedFormStep(sub, docs);
    } else {
      assert docs[0..] == [];
    }
  }

  function PagesOf(docs: seq<Doc>): nat {
    if docs == [] then 0
    else PagesOf(docs[..|docs| - 1]) + (if docs[|docs| - 1].pages > 0 then docs[|docs| - 1].pages else 0)
  }

  lemma {:induction false} PriceOfAll(billing: Billing, docs: seq<Doc>, perPage: nat)
    requires billing.PerDocument? && billing.minimumCharge.None?
    requires perPage == if billing.perPageSurcharge.Some? then billing.perPageSurcharge.value else 0
    ensures SumPrices(billing, docs) == billing.unitPrice * |docs| + perPage * PagesOf(docs)
  {
    if docs != [] {
      var n, last := |docs| - 1, docs[|docs| - 1];
      var pages := if last.pages > 0 then last.pages else 0;
      PriceOfAll(billing, docs[..n], perPage);
      OneMore(billing.unitPrice, n, 1);
      OneMore(perPage, PagesOf(docs[..n]), pages);
      assert PerDocumentPrice(billing, last.pages) == billing.unitPrice + perPage * pages;
      hide PerDocumentPrice;
    }
  }

  lemma OneMore(price: nat, n: nat, more: nat)
    ensures price * (n + more) == price * n + price * more
  {
  }

  /** Without a minimum, documents are paid one by one and page by page, but for those the trial covers. */
  lemma PaidByDocumentAndPage(sub: Subscription, docs: seq<Doc>)
    requires ClockNeverRunsBack(docs) && sub.usage == Usage(0, 0, 0, 0)
    requires sub.plan.billing.PerDocument? && sub.plan.billing.minimumCharge.None?
    ensures var b, covered := sub.plan.billing, CoveredCount(sub, docs);
            && covered <= |docs|
            && After(sub, docs).usage.amount
               == b.unitPrice * (|docs| - covered)
                  + (if b.perPageSurcharge.Some? then b.perPageSurcharge.value * PagesOf(docs[covered..]) else 0)
  {
    AccrualHasClosedForm(sub, docs);
    var b := sub.plan.billing;
    var perPage := if b.perPageSurcharge.Some? then b.perPageSurcharge.value else 0;
    PriceOfAll(b, docs[CoveredCount(sub, docs)..], perPage);
    hide SumPrices;
    hide CoveredCount;
    hide After;
  }

  /** A monthly plan with overage is paid by the documents beyond both the allowance and the trial. */
  lemma PaidByOverage(sub: Subscription, docs: seq<Doc>)
    requires ClockNeverRunsBack(docs) && sub.usage == Usage(0, 0, 0, 0)
    requires sub.plan.billing.Monthly?
    ensures var b, covered := sub.plan.billing, CoveredCount(sub, docs);
            After(sub, docs).usage.amount
            == if b.includedDocuments.None? || b.overageUnitPrice.None?
                  || |docs| <= b.includedDocuments.value || |docs| <= covered then 0
               else if covered <= b.includedDocuments.value then
                 b.overageUnitPrice.value * (|docs| - b.includedDocuments.value)
               else b.overageUnitPrice.value * (|docs| - covered)
  {
    AccrualHasClosedForm(sub, docs);
    hide *;
    MonthlyForm(sub.plan, docs, CoveredCount(sub, docs));
  }

  lemma MonthlyForm(plan: Plan, docs: seq<Doc>, covered: nat)
    requires plan.billing.Monthly? && covered <= |docs|
    ensures var b := plan.billing;
            AccruedClosedForm(plan, docs, covered)
            == if b.includedDocuments.None? || b.overageUnitPrice.None?
                  || |docs| <= b.includedDocuments.value || |docs| <= covered then 0
               else if covered <= b.includedDocuments.value then
                 b.overageUnitPrice.value * (|docs| - b.includedDocuments.value)
               else b.overageUnitPrice.value * (|docs| - covered)
  {
    var b := plan.billing;
    if b.includedDocuments.Some? && b.overageUnitPrice.Some? {
      Beyond(b.overageUnitPrice.value, |docs|, b.includedDocuments.value, covered);
    }
    hide SumPrices;
    hide Max;
  }

  lemma Beyond(price: nat, n: nat, included: nat, covered: nat)
    ensures price * Max(0, n - Max(included, covered))
         == if n <= included || n <= covered then 0
            else if covered <= included then price * (n - included)
            else price * (n - covered)
  {
  }

  function TokensOf(docs: seq<Doc>): int {
    if docs == [] then 0 else TokensOf(docs[..|docs| - 1]) + docs[|docs| - 1].tokens
  }

  /** Over any run the record counts every document, page and token. */
  lemma {:induction false} UsageAddsUp(sub: Subscription, docs: seq<Doc>)
    ensures var before, after := sub.usage, After(sub, docs).usage;
            && after.documents == before.documents + |docs|
            && after.pages == before.pages + PagesOf(docs)
            && after.tokens == before.tokens + TokensOf(docs)
    ensures docs != [] ==> After(sub, docs).updatedAt == docs[|docs| - 1].at
  {
    if docs != [] { UsageAddsUp(sub, docs[..|docs| - 1]); }
  }

  /** How many documents of the run come before the trial ends. */
  function CountBefore(docs: seq<Doc>, end: Option<int>): nat {
    if docs == [] then 0
    else CountBefore(docs[..|docs| - 1], end) + (if end.None? || docs[|docs| - 1].at < end.value then 1 else 0)
  }

  lemma {:induction false} AllBefore(docs: seq<Doc>, end: Option<int>)
    requires ClockNeverRunsBack(docs) && docs != []
    requires end.None? || docs[|docs| - 1].at < end.value
    ensures CountBefore(docs, end) == |docs|
  {
    if |docs| > 1 { AllBefore(docs[..|docs| - 1], end); }
  }

  /** A counted trial covers exactly as many documents as it grants, or as come before it ends if these are fewer. */
  lemma {:induction false} TrialCoversGranted(sub: Subscription, docs: seq<Doc>)
    requires ClockNeverRunsBack(docs)
    requires sub.status == Trialing && sub.trial.Some? && sub.trial.value.documentsRemaining.Some?
    requires sub.trial.value.documentsRemaining.value >= 0
    ensures var granted, before := sub.trial.value.documentsRemaining.value, CountBefore(docs, sub.trial.value.endsAt);
            CoveredCount(sub, docs) == if before <= granted then before else granted
  {
    if docs != [] {
      var init, last := docs[..|docs| - 1], docs[|docs| - 1];
      TrialCoversGranted(sub, init);
      TrialAllowanceConserved(sub, init);
      RunFrame(sub, init);
      if sub.trial.value.endsAt.None? || last.at < sub.trial.value.endsAt.value {
        AllBefore(docs, sub.trial.value.endsAt);
        if init != [] { AllBefore(init, sub.trial.value.endsAt); }
      }
      hide After;
      hide RecordUsage;
    }
  }

  /** A new subscription's trial covers what its policy includes, for as many days as it lasts. */
  lemma NewTrialCovers(id: nat, plan: Plan, now: int, periodEnd: int, docs: seq<Doc>)
    requires ClockNeverRunsBack(docs) && plan.trial.Some? && plan.trial.value.includedDocuments.Some?
    ensures var granted: int := plan.trial.value.includedDocuments.value;
            var days := plan.trial.value.durationDays;
            var end := if days.Some? then Some(now + days.value * 86_400_000) else None;
            CoveredCount(CreateSubscription(id, plan, now, periodEnd), docs)
            == if CountBefore(docs, end) <= granted then CountBefore(docs, end) else granted
  {
    TrialCoversGranted(CreateSubscription(id, plan, now, periodEnd), docs);
  }

  /** A new subscription without a trial is active and covers nothing. */
  lemma NewWithoutTrial(id: nat, plan: Plan, now: int, periodEnd: int)
    requires plan.trial.None?
    ensures var s := CreateSubscription(id, plan, now, periodEnd);
            && s.status == Active && s.plan == plan && s.id == id && s.periodEnd == periodEnd && s.trial.None?
            && forall later :: !TrialCovers(s, later)
  {
  }

  // ---- runs gated by the quota check ------------------------------------------------

  /** The subscription when each document is metered only if the quota check lets it through. */
  function GatedAfter(sub: Subscription, docs: seq<Doc>): Subscription {
    if docs == [] then sub
    else
      var s := GatedAfter(sub, docs[..|docs| - 1]);
      var d := docs[|docs| - 1];
      if CheckDocumentQuota(s, d.at) == Allow then RecordUsage(s, d) else s
  }

  function GatedCovered(sub: Subscription, docs: seq<Doc>): nat {
    if docs == [] then 0
    else GatedCovered(sub, docs[..|docs| - 1])
         + (if TrialCovers(GatedAfter(sub, docs[..|docs| - 1]), docs[|docs| - 1].at) then 1 else 0)
  }

  function ExpectedProcessed(plan: Plan, offered: nat, covered: nat): int {
    var cap := PeriodDocumentCap(plan.billing, plan.limits.documentsPerPeriod);
    if cap.None? || OverageAllowed(plan.billing) then offered else Max(covered, Min(offered, cap.value))
  }

  predicate TrialConsistent(sub: Subscription) { sub.status == Trialing ==> sub.trial.Some? }

  lemma {:induction false} GatedFrame(sub: Subscription, docs: seq<Doc>)
    ensures var s := GatedAfter(sub, docs);
            s.plan == sub.plan && s.status == sub.status && s.trial.Some? == sub.trial.Some? &&
            s.hasPaymentMethod == sub.hasPaymentMethod && s.cancelAtPeriodEnd == sub.cancelAtPeriodEnd &&
            (s.trial.Some? ==>
               s.trial.value.endsAt == sub.trial.value.endsAt &&
               s.trial.value.documentsRemaining.Some? == sub.trial.value.documentsRemaining.Some?)
  {
    if docs != [] { GatedFrame(sub, docs[..|docs| - 1]); }
  }

  /** While the trial still covers documents nothing has been refused and every one was covered. */
  lemma {:induction false} GatedCoverage(sub: Subscription, docs: seq<Doc>, later: int)
    requires ClockNeverRunsBack(docs) && sub.usage.documents == 0
    requires forall i :: 0 <= i < |docs| ==> docs[i].at <= later
    requires TrialCovers(GatedAfter(sub, docs), later)
    ensures GatedCovered(sub, docs) == |docs|
  {
    if docs != [] {
      var n := |docs| - 1;
      var init := docs[..n];
      GatedFrame(sub, init);
      GatedFrame(sub, docs);
      assert TrialCovers(GatedAfter(sub, init), docs[n].at);
      GatedCoverage(sub, init, docs[n].at);
    }
  }

  /**
   Gating every document with the quota check processes exactly the expected number: all of
   them with overage or without a cap, otherwise the cap, or the trial's documents if more.
   */
  lemma {:induction false} QuotaGateIsExact(sub: Subscription, docs: seq<Doc>)
    requires ClockNeverRunsBack(docs) && sub.usage.documents == 0 && TrialConsistent(sub)
    ensures GatedCovered(sub, docs) <= |docs|
    ensures GatedAfter(sub, docs).usage.documents == ExpectedProcessed(sub.plan, |docs|, GatedCovered(sub, docs))
  {
    if docs != [] {
      var n := |docs| - 1;
      var init := docs[..n];
      QuotaGateIsExact(sub, init);
      GatedFrame(sub, init);
      if TrialCovers(GatedAfter(sub, init), docs[n].at) { GatedCoverage(sub, init, docs[n].at); }
      GateStep(GatedAfter(sub, init), docs[n], n, GatedCovered(sub, init));
    }
  }

  lemma GateStep(s: Subscription, d: Doc, n: nat, covered: nat)
    requires TrialConsistent(s) && covered <= n && s.usage.documents == ExpectedProcessed(s.plan, n, covered)
    requires TrialCovers(s, d.at) ==> covered == n
    ensures (if CheckDocumentQuota(s, d.at) == Allow then s.usage.documents + 1 else s.usage.documents)
            == ExpectedProcessed(s.plan, n + 1, covered + (if TrialCovers(s, d.at) then 1 else 0))
  {
  }

  /** A number of documents that the plan's own fields allow in one period. */
  predicate Allowed(plan: Plan, n: nat) {
    && (plan.limits.documentsPerPeriod.Some? ==> n <= plan.limits.documentsPerPeriod.value)
    && (plan.billing.Monthly? && plan.billing.includedDocuments.Some? ==> n <= plan.billing.includedDocuments.value)
  }

  /**
   In the plan's own fields: a monthly plan with overage processes everything that is offered, any
   other plan the most that is covered by the trial or allowed in the period.
   */
  lemma ProcessedIsTheMostAllowed(sub: Subscription, docs: seq<Doc>)
    requires ClockNeverRunsBack(docs) && sub.usage.documents == 0 && TrialConsistent(sub)
    ensures var overage := sub.plan.billing.Monthly? && sub.plan.billing.overageUnitPrice.Some?;
            var processed, covered := GatedAfter(sub, docs).usage.documents, GatedCovered(sub, docs);
            && 0 <= processed <= |docs| && covered <= |docs|
            && (overage ==> processed == |docs|)
            && (!overage ==> processed <= covered || Allowed(sub.plan, processed))
            && forall n: nat :: n <= |docs| && (n <= covered || Allowed(sub.plan, n)) ==> n <= processed
  {
    QuotaGateIsExact(sub, docs);
    var cap := PeriodDocumentCap(sub.plan.billing, sub.plan.limits.documentsPerPeriod);
    forall n: nat ensures Within(n, cap) <==> Allowed(sub.plan, n) {}
    if cap.Some? { assert Within(cap.value, cap); }
    hide PeriodDocumentCap;
  }

  /** Hard-stop plans therefore never process more than the cap or the trial, whichever is larger. */
  lemma HardStopNeverExceedsCap(sub: Subscription, docs: seq<Doc>)
    requires ClockNeverRunsBack(docs) && sub.usage.documents == 0 && TrialConsistent(sub)
    requires !OverageAllowed(sub.plan.billing)
    requires PeriodDocumentCap(sub.plan.billing, sub.plan.limits.documentsPerPeriod).Some?
    ensures GatedAfter(sub, docs).usage.documents
            <= Max(PeriodDocumentCap(sub.plan.billing, sub.plan.limits.documentsPerPeriod).value,
                GatedCovered(sub, docs))
  {
    QuotaGateIsExact(sub, docs);
  }
}
