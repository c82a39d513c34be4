/** The confidence score of a receipt, read through the caller's field map. */
module ReceiptConfidence {
  import opened Confidence
  import opened Options
  import opened ReceiptFields
  import opened Receipts
  import Texts = Text

  /** What the caller was sent: the canonical receipt, or one projected onto a field map. */
  datatype Output = Canonical(receipt: Receipt) | Projected(record: map<string, Value>, fieldMap: FieldMap)

  datatype Reason = TotalsDoNotReconcile | Raised(warning: Warning) | NotFound(labels: seq<string>)

  function Get(record: map<string, Value>, name: string): Option<Value> {
    if name in record then Some(record[name]) else None
  }

  function CanonicalField(r: Receipt, path: Path): Option<Value> {
    match path
    case ScalarAt(p) => Some(Plain(ScalarValue(r, p)))
    case LineItemsPath => Some(ItemList(ProjectItems(r.lineItems, [])))
    case ConfidencePath => Some(VerdictValue(r.confidence))
    case WarningsPath => Some(WarningList(r.warnings))
    case ItemField(_) => None
  }

  predicate Selected(m: FieldMap, path: Path) {
    if path.LineItemsPath? then ItemsSelected(m) else NameOf(m, path).Some?
  }

  /** A field read off the output: nothing when the caller's map did not select it. */
  function SelectedReceiptField(o: Output, path: Path): Option<Option<Value>> {
    match o
    case Canonical(r) => Some(CanonicalField(r, path))
    case Projected(record, m) =>
      if path.LineItemsPath? then
        (if ItemsSelected(m) then Some(Get(record, OrDefault(NameOf(m, path), "lineItems"))) else None)
      else
        match NameOf(m, path)
        case None => None
        case Some(name) => Some(Get(record, name))
  }

  /** Neither missing, nor null, nor blank text, nor an empty list. */
  predicate IsPresent(v: Option<Value>) {
    match v
    case None => false
    case Some(Plain(Text(t))) => t.Some? && Texts.Trim(t.value) != ""
    case Some(Plain(Number(n))) => n.Some?
    case Some(VerdictValue(_)) => true
    case Some(WarningList(ws)) => |ws| > 0
    case Some(ItemList(items)) => |items| > 0
  }

  function VerdictOf(o: Output): Verdict {
    match o
    case Canonical(r) => r.confidence
    case Projected(record, m) =>
      if Get(record, OrDefault(NameOf(m, ConfidencePath), "confidence")) == Some(VerdictValue(High)) then High else Low
  }

  function WarningsOf(o: Output): seq<Warning> {
    match o
    case Canonical(r) => r.warnings
    case Projected(record, m) =>
      var v := Get(record, OrDefault(NameOf(m, WarningsPath), "warnings"));
      if v.Some? && v.value.WarningList? then v.value.warnings else []
  }

  /** The fields a receipt is parsed for. */
  const KEY_FIELDS: seq<(Path, string)> :=
    [(ScalarAt(MerchantName), "merchant name"), (ScalarAt(DateTime), "date"), (ScalarAt(Total), "total"),
        (LineItemsPath, "line items")]

  function Found(o: Output, fields: seq<(Path, string)>): (found: seq<(string, bool)>)
    ensures |found| <= |fields|
  {
    if fields == [] then []
    else
      var last := fields[|fields| - 1];
      var selected := SelectedReceiptField(o, last.0);
      Found(o, fields[..|fields| - 1]) + (if selected.Some? then [(last.1, IsPresent(selected.value))] else [])
  }

  function WarningDeductions(warnings: seq<Warning>): (ds: seq<Option<Deduction<Reason>>>)
    ensures |ds| == |warnings|
    ensures forall i :: 0 <= i < |ds| ==> ds[i] == Some(Deduction(WARNING_FACTOR, Raised(warnings[i])))
  {
    seq(|warnings|, i requires 0 <= i < |warnings| => Some(Deduction(WARNING_FACTOR, Raised(warnings[i]))))
  }

  /** Half for a failed check, a tenth per warning, then the fill rate. */
  function Deductions(
      verdict: Verdict, warnings: seq<Warning>, found: seq<(string, bool)>): seq<Option<Deduction<Reason>>> {
    (if verdict.Low? then [Some(Deduction(FAILED_CHECK_FACTOR, TotalsDoNotReconcile))] else [])
      + WarningDeductions(warnings) + [FillRate(found)]
  }

  function FillRate(found: seq<(string, bool)>): Option<Deduction<Reason>> {
    match Completeness(found)
    case None => None
    case Some(d) => Some(Deduction(d.factor, NotFound(d.reason)))
  }

  function Assessed(o: Output): Assessment<Reason> {
    Scored(Deductions(VerdictOf(o), WarningsOf(o), Found(o, KEY_FIELDS)))
  }

  // ---- the score in the receipt's own terms ------------------------------------------------------------

  predicate Filled(t: Option<string>) { t.Some? && Texts.Trim(t.value) != "" }

  /** The key fields that are there, of four. */
  function FieldsThere(r: Receipt): nat {
    (if Filled(r.merchant.name) then 1 else 0) + (if Filled(r.dateTime) then 1 else 0)
    + (if r.total.Some? then 1 else 0) + (if r.lineItems != [] then 1 else 0)
  }

  function Tenths(n: nat): real { if n == 0 then 1.0 else Mul(Tenths(n - 1), 0.9) }

  lemma OneMoreFactor(before: seq<Option<Deduction<Reason>>>, last: Option<Deduction<Reason>>)
    ensures Product(before + [last])
         == if last.None? then Product(before) else Mul(Product(before), Clamp01(last.value.factor))
    ensures Reasons(before + [last]) == Reasons(before) + (if last.None? then [] else [last.value.reason])
  {
    hide Clamp01;
    hide Times;
    assert (before + [last])[..|before|] == before;
  }

  function Raisings(warnings: seq<Warning>): (reasons: seq<Reason>)
    ensures |reasons| == |warnings| && forall i :: 0 <= i < |warnings| ==> reasons[i] == Raised(warnings[i])
  {
    seq(|warnings|, i requires 0 <= i < |warnings| => Raised(warnings[i]))
  }

  lemma {:induction false} WarningsCost(warnings: seq<Warning>, before: seq<Option<Deduction<Reason>>>)
    ensures Product(before + WarningDeductions(warnings)) == Mul(Product(before), Tenths(|warnings|))
    ensures Reasons(before + WarningDeductions(warnings)) == Reasons(before) + Raisings(warnings)
  {
    if warnings == [] {
      assert before + WarningDeductions(warnings) == before;
      assert Reasons(before) + Raisings(warnings) == Reasons(before);
      TimesOne(Product(before));
    } else {
      hide *;
      var init := warnings[..|warnings| - 1];
      WarningsCost(init, before);
      LastWarning(warnings, before);
      TenthsMore(|init|);
      MulInTurn(Product(before), Tenths(|init|), 0.9);
      Regroup(Reasons(before), Raisings(init), [Raised(warnings[|warnings| - 1])]);
    }
  }

  lemma LastWarning(warnings: seq<Warning>, before: seq<Option<Deduction<Reason>>>)
    requires warnings != []
    ensures var n := |warnings| - 1;
            var so := before + WarningDeductions(warnings[..n]);
            && Product(before + WarningDeductions(warnings)) == Mul(Product(so), 0.9)
            && Reasons(before + WarningDeductions(warnings)) == Reasons(so) + [Raised(warnings[n])]
            && Raisings(warnings) == Raisings(warnings[..n]) + [Raised(warnings[n])]
  {
    var n := |warnings| - 1;
    var last := Some(Deduction(WARNING_FACTOR, Raised(warnings[n])));
    assert before + WarningDeductions(warnings) == before + WarningDeductions(warnings[..n]) + [last];
    assert Clamp01(0.9) == 0.9;
    OneMoreFactor(before + WarningDeductions(warnings[..n]), last);
    hide Product;
    hide Reasons;
    hide Mul;
  }

  lemma TenthsMore(n: nat)
    ensures Tenths(n + 1) == Mul(Tenths(n), 0.9)
  {
  }

  lemma Regroup(a: seq<Reason>, b: seq<Reason>, c: seq<Reason>)
    ensures a + b + c == a + (b + c)
  {
  }

  /** The names of the key fields that are not there. */
  function NotThere(r: Receipt): seq<string> {
    (if Filled(r.merchant.name) then [] else ["merchant name"]) + (if Filled(r.dateTime) then [] else ["date"])
    + (if r.total.Some? then [] else ["total"]) + (if r.lineItems != [] then [] else ["line items"])
  }

  lemma FoundOnReceipt(r: Receipt)
    ensures Found(Canonical(r), KEY_FIELDS)
         == [("merchant name", Filled(r.merchant.name)), ("date", Filled(r.dateTime)), ("total", r.total.Some?),
             ("line items", r.lineItems != [])]
  {
    var o := Canonical(r);
    var f := KEY_FIELDS;
    assert f[..4] == f && f[..3][..2] == f[..2] && f[..2][..1] == f[..1] && f[..1][..0] == [];
    assert f[..4][..3] == f[..3];
    hide IsPresent;
    PresentOnReceipt(r);
    hide CanonicalField;
    assert Found(o, f[..1]) == [("merchant name", Filled(r.merchant.name))];
    assert Found(o, f[..2]) == Found(o, f[..1]) + [("date", Filled(r.dateTime))];
    assert Found(o, f[..3]) == Found(o, f[..2]) + [("total", r.total.Some?)];
  }

  lemma PresentOnReceipt(r: Receipt)
    ensures IsPresent(CanonicalField(r, ScalarAt(MerchantName))) == Filled(r.merchant.name)
    ensures IsPresent(CanonicalField(r, ScalarAt(DateTime))) == Filled(r.dateTime)
    ensures IsPresent(CanonicalField(r, ScalarAt(Total))) == r.total.Some?
    ensures IsPresent(CanonicalField(r, LineItemsPath)) == (r.lineItems != [])
  {
  }

  lemma MissingOfFour(a: (string, bool), b: (string, bool), c: (string, bool), d: (string, bool))
    ensures Missing([a, b, c, d])
         == (if a.1 then [] else [a.0]) + (if b.1 then [] else [b.0]) + (if c.1 then [] else [c.0])
            + (if d.1 then [] else [d.0])
  {
    assert [a, b, c, d][..3] == [a, b, c] && [a, b, c][..2] == [a, b] && [a, b][..1] == [a] && [a][..0] == [];
    assert Missing([a]) == if a.1 then [] else [a.0];
    assert Missing([a, b]) == Missing([a]) + (if b.1 then [] else [b.0]);
    assert Missing([a, b, c]) == Missing([a, b]) + (if c.1 then [] else [c.0]);
  }

  lemma FillOfReceipt(r: Receipt)
    ensures FillRate(Found(Canonical(r), KEY_FIELDS))
         == if NotThere(r) == [] then None else Some(Deduction(FieldsThere(r) as real / 4.0, NotFound(NotThere(r))))
    ensures |NotThere(r)| == 4 - FieldsThere(r)
  {
    hide *;
    FoundOnReceipt(r);
    FoundFour(r);
    FillOfFour(Found(Canonical(r), KEY_FIELDS));
    ThereOrNot(r);
  }

  lemma FoundFour(r: Receipt)
    ensures |Found(Canonical(r), KEY_FIELDS)| == 4
    ensures Missing(Found(Canonical(r), KEY_FIELDS)) == NotThere(r)
  {
    FoundOnReceipt(r);
    MissingOfFour(("merchant name", Filled(r.merchant.name)), ("date", Filled(r.dateTime)), ("total", r.total.Some?),
                  ("line items", r.lineItems != []));
    hide Found;
    hide Missing;
    hide Filled;
  }

  lemma ThereOrNot(r: Receipt)
    ensures |NotThere(r)| == 4 - FieldsThere(r) && 4 - |NotThere(r)| == FieldsThere(r)
  {
    hide Filled;
  }

  lemma FillOfFour(found: seq<(string, bool)>)
    requires |found| == 4
    ensures FillRate(found)
         == if Missing(found) == [] then None
            else Some(Deduction((4 - |Missing(found)|) as real / 4.0, NotFound(Missing(found))))
  {
    hide Missing;
  }

  /**
   The receipt's score is half for a low verdict, nine tenths for every warning and the share of the four key
   fields that are there, all multiplied and floored; its reasons name each of these in that order.
   */
  lemma ScoreOfReceipt(r: Receipt)
    ensures var there, share := FieldsThere(r), FieldsThere(r) as real / 4.0;
            var a := Assessed(Canonical(r));
            && a.score == Floor3(Mul(Mul(if r.confidence.Low? then 0.5 else 1.0, Tenths(|r.warnings|)), share))
            && a.reasons
               == (if r.confidence.Low? then [TotalsDoNotReconcile] else []) + Raisings(r.warnings)
                  + (if there < 4 then [NotFound(NotThere(r))] else [])
  {
    var first := if r.confidence.Low? then [Some(Deduction(FAILED_CHECK_FACTOR, TotalsDoNotReconcile))] else [];
    var fill := FillRate(Found(Canonical(r), KEY_FIELDS));
    AssessedParts(r);
    FirstFactor(r.confidence);
    ShareIs(r);
    hide *;
    WarningsCost(r.warnings, first);
    FillOfReceipt(r);
    OneMoreFactor(first + WarningDeductions(r.warnings), fill);
    TimesOne(Mul(if r.confidence.Low? then 0.5 else 1.0, Tenths(|r.warnings|)));
  }

  lemma TimesOne(x: real)
    ensures Mul(x, 1.0) == x
  {
  }

  lemma ShareIs(r: Receipt)
    ensures var share := FieldsThere(r) as real / 4.0;
            Clamp01(share) == share && (FieldsThere(r) < 4 <==> NotThere(r) != [])
            && (NotThere(r) == [] ==> share == 1.0)
  {
    FillOfReceipt(r);
    hide Filled;
    hide NotThere;
  }

  lemma AssessedParts(r: Receipt)
    ensures var first := if r.confidence.Low? then [Some(Deduction(FAILED_CHECK_FACTOR, TotalsDoNotReconcile))] else [];
            var all := first + WarningDeductions(r.warnings) + [FillRate(Found(Canonical(r), KEY_FIELDS))];
            Assessed(Canonical(r)) == Assessment(Floor3(Product(all)), Reasons(all))
  {
    hide Product;
    hide Reasons;
    hide Floor3;
    hide Found;
    hide FillRate;
    hide WarningDeductions;
  }

  lemma FirstFactor(verdict: Verdict)
    ensures var first := if verdict.Low? then [Some(Deduction(FAILED_CHECK_FACTOR, TotalsDoNotReconcile))] else [];
      && Product(first) == (if verdict.Low? then 0.5 else 1.0)
      && Reasons(first) == (if verdict.Low? then [TotalsDoNotReconcile] else [])
  {
    var one := Some(Deduction(FAILED_CHECK_FACTOR, TotalsDoNotReconcile));
    assert [one][..0] == [];
    assert Clamp01(0.5) == 0.5;
  }

  method AssessReceiptParsing(o: Output) returns (a: Assessment<Reason>)
    ensures a == Assessed(o)
  {
    hide SelectedReceiptField;
    hide IsPresent;
    hide Scored;
    var found: seq<(string, bool)> := [];
    for i := 0 to |KEY_FIELDS|
      invariant found == Found(o, KEY_FIELDS[..i])
    {
      assert KEY_FIELDS[..i + 1][..i] == KEY_FIELDS[..i];
      var selected := SelectedReceiptField(o, KEY_FIELDS[i].0);
      if selected.Some? {
        found := found + [(KEY_FIELDS[i].1, IsPresent(selected.value))];
      }
    }
    assert KEY_FIELDS[..|KEY_FIELDS|] == KEY_FIELDS;
    a := ScoreFrom(Deductions(VerdictOf(o), WarningsOf(o), found));
  }

  // ---- the review bar -----------------------------------------------------------------------------

  lemma FillRateIsLow(found: seq<(string, bool)>)
    requires |found| <= 4
    ensures FillRate(found).Some? ==> FillRate(found).value.factor <= 0.75
  {
    if FillRate(found).Some? {
      QuotientAtMost((|found| - |Missing(found)|) as real, |found| as real, 0.75);
    }
  }

  /** A receipt clears the review bar exactly when nothing at all was held against it. */
  lemma ClearsTheBarIffNoReasons(o: Output)
    ensures Assessed(o).score >= REVIEW_BAR <==> Assessed(o).reasons == []
    ensures Assessed(o).reasons == [] ==> Assessed(o).score == 1.0
  {
    hide Scored;
    var found := Found(o, KEY_FIELDS);
    FillRateIsLow(found);
    var ds := Deductions(VerdictOf(o), WarningsOf(o), found);
    hide FillRate;
    hide Found;
    AnyDeductionGoesToReview(ds);
  }

  // ---- renaming -------------------------------------------------------------------------------------

  /** The key fields of the receipt itself, restricted to those a map selects. */
  function FoundIn(r: Receipt, m: FieldMap, fields: seq<(Path, string)>): seq<(string, bool)> {
    if fields == [] then []
    else
      var last := fields[|fields| - 1];
      FoundIn(r, m, fields[..|fields| - 1])
          + (if Selected(m, last.0) then [(last.1, IsPresent(CanonicalField(r, last.0)))] else [])
  }

  predicate KeyPath(path: Path) { path.ScalarAt? || path.LineItemsPath? }

  lemma ReadBackIsPresent(r: Receipt, m: FieldMap, path: Path)
    requires Accepted(m) && Faithful(r, m) && KeyPath(path)
    ensures SelectedReceiptField(Projected(Projection(r, m), m), path).Some? <==> Selected(m, path)
    ensures Selected(m, path) ==>
      IsPresent(SelectedReceiptField(Projected(Projection(r, m), m), path).value) == IsPresent(CanonicalField(r, path))
  {
    hide Faithful;
    hide Projection;
    hide ProjectItem;
    if Selected(m, path) {
      if path.LineItemsPath? {
        var k := |ScalarSlots(m)|;
        assert Slots(m)[k] == ItemsSlot(m);
        FaithfulAt(r, m, k);
      } else {
        UniqueIn(m);
        var i := NameOfFound(m, path);
        var k := SlotForEntry(m, i);
        hide Slots;
        FaithfulAt(r, m, k);
      }
    }
  }

  lemma {:induction false} FoundThroughMap(r: Receipt, m: FieldMap, fields: seq<(Path, string)>)
    requires Accepted(m) && Faithful(r, m) && forall i :: 0 <= i < |fields| ==> KeyPath(fields[i].0)
    ensures Found(Projected(Projection(r, m), m), fields) == FoundIn(r, m, fields)
  {
    if fields != [] {
      hide Accepted;
      hide Faithful;
      hide Projection;
      hide IsPresent;
      hide SelectedReceiptField;
      hide Selected;
      hide CanonicalField;
      FoundThroughMap(r, m, fields[..|fields| - 1]);
      ReadBackIsPresent(r, m, fields[|fields| - 1].0);
    }
  }

  lemma VerdictThroughMap(r: Receipt, m: FieldMap)
    requires Faithful(r, m)
    ensures VerdictOf(Projected(Projection(r, m), m)) == r.confidence
    ensures WarningsOf(Projected(Projection(r, m), m)) == r.warnings
  {
    hide Faithful;
    hide Projection;
    VerdictReadBack(r, m);
  }

  /** Score and reasons of a projected receipt are those of the receipt itself, over the key fields the map selects. */
  lemma AssessedThroughMap(r: Receipt, m: FieldMap)
    requires Accepted(m) && NoDefaultTaken(m)
    ensures Assessed(Projected(Projection(r, m), m))
         == Scored(Deductions(r.confidence, r.warnings, FoundIn(r, m, KEY_FIELDS)))
  {
    FaithfulIffNoDefaultTaken(r, m);
    KeyFieldsAreKeys();
    hide *;
    FoundThroughMap(r, m, KEY_FIELDS);
    VerdictThroughMap(r, m);
    AssessedIs(Projected(Projection(r, m), m));
  }

  lemma KeyFieldsAreKeys()
    ensures forall i :: 0 <= i < |KEY_FIELDS| ==> KeyPath(KEY_FIELDS[i].0)
  {
  }

  lemma AssessedIs(o: Output)
    ensures Assessed(o) == Scored(Deductions(VerdictOf(o), WarningsOf(o), Found(o, KEY_FIELDS)))
  {
  }

  /** Two maps select the same key fields, under whatever names. */
  ghost predicate SameKeyFields(m: FieldMap, n: FieldMap) {
    forall i :: 0 <= i < |KEY_FIELDS| ==> Selected(m, KEY_FIELDS[i].0) == Selected(n, KEY_FIELDS[i].0)
  }

  lemma {:induction false} FoundInSame(r: Receipt, m: FieldMap, n: FieldMap, fields: seq<(Path, string)>)
    requires forall i :: 0 <= i < |fields| ==> Selected(m, fields[i].0) == Selected(n, fields[i].0)
    ensures FoundIn(r, m, fields) == FoundIn(r, n, fields)
  {
    if fields != [] {
      hide Selected;
      FoundInSame(r, m, n, fields[..|fields| - 1]);
    }
  }

  /** Renaming fields changes neither the score nor the reasons. */
  lemma RenamingKeepsTheScore(r: Receipt, m: FieldMap, n: FieldMap)
    requires Accepted(m) && NoDefaultTaken(m) && Accepted(n) && NoDefaultTaken(n) && SameKeyFields(m, n)
    ensures Assessed(Projected(Projection(r, m), m)) == Assessed(Projected(Projection(r, n), n))
  {
    FoundInSame(r, m, n, KEY_FIELDS);
    hide *;
    AssessedThroughMap(r, m);
    AssessedThroughMap(r, n);
  }

  lemma {:induction false} FoundInAll(r: Receipt, m: FieldMap, fields: seq<(Path, string)>)
    requires forall i :: 0 <= i < |fields| ==> Selected(m, fields[i].0)
    ensures FoundIn(r, m, fields) == Found(Canonical(r), fields)
  {
    if fields != [] {
      hide Selected;
      hide IsPresent;
      hide CanonicalField;
      FoundInAll(r, m, fields[..|fields| - 1]);
    }
  }

  /** A map that selects all key fields scores like the canonical receipt. */
  lemma FullSelectionScoresLikeCanonical(r: Receipt, m: FieldMap)
    requires Accepted(m) && NoDefaultTaken(m) && forall i :: 0 <= i < |KEY_FIELDS| ==> Selected(m, KEY_FIELDS[i].0)
    ensures Assessed(Projected(Projection(r, m), m)) == Assessed(Canonical(r))
  {
    FoundInAll(r, m, KEY_FIELDS);
    assert VerdictOf(Canonical(r)) == r.confidence && WarningsOf(Canonical(r)) == r.warnings;
    hide *;
    AssessedThroughMap(r, m);
    AssessedIs(Canonical(r));
  }
}
