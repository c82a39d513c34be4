/** The caller's field map: projecting a receipt onto chosen names, the schema for it, and reading through it. */
module ReceiptFields {
  import opened Options
  import opened Receipts
  import opened Text

  datatype ScalarPath =
    MerchantName | MerchantAddress | MerchantTin | DateTime | Currency | Subtotal | Tax | Tip | Total | PaymentMethod

  datatype ItemKey = Description | Qty | UnitPrice | ItemTotal

  /** The paths a field map may select. */
  datatype Path = ScalarAt(scalar: ScalarPath) | LineItemsPath | ItemField(key: ItemKey) | ConfidencePath | WarningsPath

  datatype Entry = Entry(path: Path, name: string)

  type FieldMap = seq<Entry>

  // ---- values and types ---------------------------------------------------------------------------

  datatype Scalar = Text(text: Option<string>) | Number(number: Option<real>)

  datatype Value =
    | Plain(scalar: Scalar)
    | VerdictValue(verdict: Verdict)
    | WarningList(warnings: seq<Warning>)
    | ItemList(items: seq<map<string, Scalar>>)

  datatype ScalarType = NullableText | NullableNumber | RequiredText

  datatype Type =
    PlainType(scalar: ScalarType) | VerdictType | WarningListType | ItemListType(shape: map<string, ScalarType>)

  predicate ScalarHasType(v: Scalar, t: ScalarType) {
    match t
    case NullableText => v.Text?
    case NullableNumber => v.Number?
    case RequiredText => v.Text? && v.text.Some?
  }

  predicate ItemHasShape(item: map<string, Scalar>, shape: map<string, ScalarType>) {
    item.Keys == shape.Keys && forall name :: name in shape ==> ScalarHasType(item[name], shape[name])
  }

  predicate HasType(v: Value, t: Type) {
    match t
    case PlainType(s) => v.Plain? && ScalarHasType(v.scalar, s)
    case VerdictType => v.VerdictValue?
    case WarningListType => v.WarningList?
    case ItemListType(shape) => v.ItemList? && forall i :: 0 <= i < |v.items| ==> ItemHasShape(v.items[i], shape)
  }

  function ScalarTypeOf(p: ScalarPath): ScalarType {
    if p in {Subtotal, Tax, Tip, Total} then NullableNumber else NullableText
  }

  function ItemTypeOf(k: ItemKey): ScalarType { if k.Description? then RequiredText else NullableNumber }

  function ScalarValue(r: Receipt, p: ScalarPath): Scalar {
    match p
    case MerchantName => Text(r.merchant.name)
    case MerchantAddress => Text(r.merchant.address)
    case MerchantTin => Text(r.merchant.tin)
    case DateTime => Text(r.dateTime)
    case Currency => Text(r.currency)
    case Subtotal => Number(r.subtotal)
    case Tax => Number(r.tax)
    case Tip => Number(r.tip)
    case Total => Number(r.total)
    case PaymentMethod => Text(r.paymentMethod)
  }

  function ItemValue(item: LineItem, k: ItemKey): Scalar {
    match k
    case Description => Text(Some(item.description))
    case Qty => Number(item.qty)
    case UnitPrice => Number(item.unitPrice)
    case ItemTotal => Number(item.total)
  }

  // ---- accepted field maps ---------------------------------------------------------------------------

  const MAX_OUTPUT_NAME_LENGTH := 64

  predicate NameStart(c: char) { 'A' <= c <= 'Z' || 'a' <= c <= 'z' || c == '_' }

  /** An identifier of at most 64 characters that is not one of the object internals. */
  predicate OutputName(s: string) {
    && 1 <= |s| <= MAX_OUTPUT_NAME_LENGTH
    && NameStart(s[0]) && (forall i :: 0 <= i < |s| ==> NameStart(s[i]) || IsDigit(s[i]))
    && s !in {"__proto__", "constructor", "prototype"}
  }

  /** What the request schema accepts: some fields, every path once, proper names, every name once. */
  predicate Accepted(m: FieldMap) {
    && m != []
    && (forall i :: 0 <= i < |m| ==> OutputName(m[i].name))
    && (forall i, j :: 0 <= i < j < |m| ==> m[i].path != m[j].path)
    && (forall i, j :: 0 <= i < j < |m| ==> m[i].name != m[j].name)
  }

  /** A map is built up of entries with proper names, each for a path and under a name that are not taken. */
  lemma AcceptedOneMore(m: FieldMap, e: Entry)
    requires m == [] || Accepted(m)
    ensures Accepted(m + [e])
       <==> OutputName(e.name) && forall f :: f in m ==> f.path != e.path && f.name != e.name
    ensures !Accepted([])
  {
    var n := m + [e];
    if Accepted(n) {
      forall f | f in m ensures f.path != e.path && f.name != e.name {
        var i :| 0 <= i < |m| && m[i] == f;
        assert n[i] == f && n[|m|] == e;
      }
      assert n[|m|] == e;
    }
  }

  /** Refused: no name, a long one, the object internals, a digit in front, and any mark that ends a name in a path. */
  lemma NamesRefused(s: string)
    ensures s == "" || |s| > 64 || s in {"__proto__", "constructor", "prototype"} ==> !OutputName(s)
    ensures s != "" && '0' <= s[0] <= '9' ==> !OutputName(s)
    ensures (exists i :: 0 <= i < |s| && s[i] in " .,-+$#@/()[]{}\"'") ==> !OutputName(s)
    ensures OutputName("_Total2") && OutputName("total_to_pay")
  {
  }

  function NameOf(m: FieldMap, path: Path): Option<string> {
    if m == [] then None else if m[0].path == path then Some(m[0].name) else NameOf(m[1..], path)
  }

  lemma {:induction false} NameOfEntry(m: FieldMap, i: nat)
    requires i < |m| && forall i, j :: 0 <= i < j < |m| ==> m[i].path != m[j].path
    ensures NameOf(m, m[i].path) == Some(m[i].name)
  {
    if i > 0 {
      assert m[0].path != m[i].path;
      NameOfEntry(m[1..], i - 1);
    }
  }

  lemma {:induction false} NameOfFound(m: FieldMap, path: Path) returns (i: nat)
    requires NameOf(m, path).Some?
    ensures i < |m| && m[i].path == path && m[i].name == NameOf(m, path).value
  {
    if m[0].path == path {
      i := 0;
    } else {
      i := NameOfFound(m[1..], path);
      i := i + 1;
    }
  }

  // ---- what is emitted -------------------------------------------------------------------------------

  /** One part of the projected receipt: where it goes and what it carries. */
  datatype Slot = Slot(name: string, source: Source)

  datatype Source =
    FromScalar(path: ScalarPath) | FromItems(subs: seq<(ItemKey, string)>) | FromConfidence | FromWarnings

  /** The item fields selected one by one, with their names. */
  function LineItemSubPaths(m: FieldMap): seq<(ItemKey, string)> {
    if m == [] then []
    else
      var last := m[|m| - 1];
      LineItemSubPaths(m[..|m| - 1]) + (if last.path.ItemField? then [(last.path.key, last.name)] else [])
  }

  function ScalarSlots(m: FieldMap): seq<Slot> {
    if m == [] then []
    else
      var last := m[|m| - 1];
      ScalarSlots(m[..|m| - 1]) + (if last.path.ScalarAt? then [Slot(last.name, FromScalar(last.path.scalar))] else [])
  }

  function OrDefault(name: Option<string>, default: string): string { if name.Some? then name.value else default }

  predicate ItemsSelected(m: FieldMap) { NameOf(m, LineItemsPath).Some? || LineItemSubPaths(m) != [] }

  function ItemsSlot(m: FieldMap): Slot {
    Slot(OrDefault(NameOf(m, LineItemsPath), "lineItems"), FromItems(LineItemSubPaths(m)))
  }

  /** Everything a projection emits, in order: scalars, the item array, and always the verdict. */
  function Slots(m: FieldMap): seq<Slot> {
    ScalarSlots(m) + (if ItemsSelected(m) then [ItemsSlot(m)] else [])
      + [Slot(OrDefault(NameOf(m, ConfidencePath), "confidence"), FromConfidence),
         Slot(OrDefault(NameOf(m, WarningsPath), "warnings"), FromWarnings)]
  }

  /** Building an object from entries: a later entry replaces an earlier one of the same name. */
  function FromEntries<V>(entries: seq<(string, V)>): map<string, V> {
    if entries == [] then map[]
    else FromEntries(entries[..|entries| - 1])[entries[|entries| - 1].0 := entries[|entries| - 1].1]
  }

  function CanonicalItem(item: LineItem): map<string, Scalar> {
    map["description" := ItemValue(item, Description), "qty" := ItemValue(item, Qty),
        "unitPrice" := ItemValue(item, UnitPrice), "total" := ItemValue(item, ItemTotal)]
  }

  const CANONICAL_SHAPE: map<string, ScalarType> :=
    map["description" := RequiredText, "qty" := NullableNumber, "unitPrice" := NullableNumber,
        "total" := NullableNumber]

  function SubEntries(item: LineItem, subs: seq<(ItemKey, string)>): (entries: seq<(string, Scalar)>)
    ensures |entries| == |subs|
    ensures forall i :: 0 <= i < |subs| ==> entries[i] == (subs[i].1, ItemValue(item, subs[i].0))
  {
    seq(|subs|, i requires 0 <= i < |subs| => (subs[i].1, ItemValue(item, subs[i].0)))
  }

  function SubTypes(subs: seq<(ItemKey, string)>): (entries: seq<(string, ScalarType)>)
    ensures |entries| == |subs|
    ensures forall i :: 0 <= i < |subs| ==> entries[i] == (subs[i].1, ItemTypeOf(subs[i].0))
  {
    seq(|subs|, i requires 0 <= i < |subs| => (subs[i].1, ItemTypeOf(subs[i].0)))
  }

  /** An item keeps its canonical keys unless some of its fields were selected one by one. */
  function ProjectItem(item: LineItem, subs: seq<(ItemKey, string)>): map<string, Scalar> {
    if subs == [] then CanonicalItem(item) else FromEntries(SubEntries(item, subs))
  }

  function ItemShape(subs: seq<(ItemKey, string)>): map<string, ScalarType> {
    if subs == [] then CANONICAL_SHAPE else FromEntries(SubTypes(subs))
  }

  function ProjectItems(items: seq<LineItem>, subs: seq<(ItemKey, string)>): (projected: seq<map<string, Scalar>>)
    ensures |projected| == |items|
    ensures forall i :: 0 <= i < |items| ==> projected[i] == ProjectItem(items[i], subs)
  {
    seq(|items|, i requires 0 <= i < |items| => ProjectItem(items[i], subs))
  }

  function SourceValue(r: Receipt, source: Source): Value {
    match source
    case FromScalar(p) => Plain(ScalarValue(r, p))
    case FromItems(subs) => ItemList(ProjectItems(r.lineItems, subs))
    case FromConfidence => VerdictValue(r.confidence)
    case FromWarnings => WarningList(r.warnings)
  }

  function SourceType(source: Source): Type {
    match source
    case FromScalar(p) => PlainType(ScalarTypeOf(p))
    case FromItems(subs) => ItemListType(ItemShape(subs))
    case FromConfidence => VerdictType
    case FromWarnings => WarningListType
  }

  function SlotValues(r: Receipt, slots: seq<Slot>): (entries: seq<(string, Value)>)
    ensures |entries| == |slots|
    ensures forall i :: 0 <= i < |slots| ==> entries[i] == (slots[i].name, SourceValue(r, slots[i].source))
  {
    seq(|slots|, i requires 0 <= i < |slots| => (slots[i].name, SourceValue(r, slots[i].source)))
  }

  function SlotTypes(slots: seq<Slot>): (entries: seq<(string, Type)>)
    ensures |entries| == |slots|
    ensures forall i :: 0 <= i < |slots| ==> entries[i] == (slots[i].name, SourceType(slots[i].source))
  {
    seq(|slots|, i requires 0 <= i < |slots| => (slots[i].name, SourceType(slots[i].source)))
  }

  /** The receipt under the caller's names. */
  function Projection(r: Receipt, m: FieldMap): map<string, Value> { FromEntries(SlotValues(r, Slots(m))) }

  function ResultShape(m: FieldMap): map<string, Type> { FromEntries(SlotTypes(Slots(m))) }

  method ProjectReceipt(r: Receipt, m: FieldMap) returns (record: map<string, Value>)
    ensures record == Projection(r, m)
  {
    hide ScalarValue;
    var entries: seq<(string, Value)> := [];
    for i := 0 to |m|
      invariant entries == SlotValues(r, ScalarSlots(m[..i]))
    {
      ScalarSlotsNext(m, i);
      if m[i].path.ScalarAt? {
        entries := entries + [(m[i].name, Plain(ScalarValue(r, m[i].path.scalar)))];
      }
    }
    assert m[..|m|] == m;
    var subs := LineItemSubPaths(m);
    var arrayName := NameOf(m, LineItemsPath);
    if arrayName.Some? || |subs| > 0 {
      entries := entries + [(OrDefault(arrayName, "lineItems"), ItemList(ProjectItems(r.lineItems, subs)))];
    }
    entries := entries + [(OrDefault(NameOf(m, ConfidencePath), "confidence"), VerdictValue(r.confidence))];
    entries := entries + [(OrDefault(NameOf(m, WarningsPath), "warnings"), WarningList(r.warnings))];
    assert entries == SlotValues(r, Slots(m));
    record := FromEntries(entries);
  }

  method BuildReceiptResultSchema(m: FieldMap) returns (shape: map<string, Type>)
    ensures shape == ResultShape(m)
  {
    hide FromEntries;
    NoEntries<Type>();
    shape := map[];
    for i := 0 to |m|
      invariant shape == FromEntries(SlotTypes(ScalarSlots(m[..i])))
    {
      ScalarSlotsNext(m, i);
      if m[i].path.ScalarAt? {
        AssignLast(ScalarSlots(m[..i]), Slot(m[i].name, FromScalar(m[i].path.scalar)));
        shape := shape[m[i].name := PlainType(ScalarTypeOf(m[i].path.scalar))];
      }
    }
    assert m[..|m|] == m;
    var subs := LineItemSubPaths(m);
    var arrayName := NameOf(m, LineItemsPath);
    ghost var slots := ScalarSlots(m);
    if arrayName.Some? || |subs| > 0 {
      AssignLast(slots, ItemsSlot(m));
      slots := slots + [ItemsSlot(m)];
      shape := shape[OrDefault(arrayName, "lineItems") := ItemListType(ItemShape(subs))];
    }
    var confidence := Slot(OrDefault(NameOf(m, ConfidencePath), "confidence"), FromConfidence);
    var warnings := Slot(OrDefault(NameOf(m, WarningsPath), "warnings"), FromWarnings);
    AssignLast(slots, confidence);
    shape := shape[confidence.name := VerdictType];
    AssignLast(slots + [confidence], warnings);
    shape := shape[warnings.name := WarningListType];
    assert slots + [confidence] + [warnings] == Slots(m);
  }

  lemma ScalarSlotsNext(m: FieldMap, i: nat)
    requires i < |m|
    ensures ScalarSlots(m[..i + 1])
         == if m[i].path.ScalarAt? then ScalarSlots(m[..i]) + [Slot(m[i].name, FromScalar(m[i].path.scalar))]
             else ScalarSlots(m[..i])
  {
    assert m[..i + 1][..i] == m[..i];
  }

  lemma NoEntries<V>()
    ensures FromEntries<V>([]) == map[]
  {
  }

  lemma AssignLast(slots: seq<Slot>, slot: Slot)
    ensures FromEntries(SlotTypes(slots + [slot]))
         == FromEntries(SlotTypes(slots))[slot.name := SourceType(slot.source)]
  {
    assert SlotTypes(slots + [slot])[..|slots|] == SlotTypes(slots);
  }

  // ---- projection and schema agree ------------------------------------------------------------------

  /** The payload has exactly the schema's keys, each with a value of its type. */
  ghost predicate Validates(record: map<string, Value>, shape: map<string, Type>) {
    record.Keys == shape.Keys && forall name :: name in shape ==> HasType(record[name], shape[name])
  }

  lemma {:induction false} SameNamesSameKeys<V, W>(vs: seq<(string, V)>, ws: seq<(string, W)>, ok: (V, W) -> bool)
    requires |vs| == |ws| && forall i :: 0 <= i < |vs| ==> vs[i].0 == ws[i].0 && ok(vs[i].1, ws[i].1)
    ensures FromEntries(vs).Keys == FromEntries(ws).Keys
    ensures forall name :: name in FromEntries(ws) ==> ok(FromEntries(vs)[name], FromEntries(ws)[name])
  {
    if vs != [] { SameNamesSameKeys(vs[..|vs| - 1], ws[..|ws| - 1], ok); }
  }

  lemma ScalarIsTyped(r: Receipt, p: ScalarPath)
    ensures ScalarHasType(ScalarValue(r, p), ScalarTypeOf(p))
  {
  }

  lemma ItemIsTyped(item: LineItem, subs: seq<(ItemKey, string)>)
    ensures ItemHasShape(ProjectItem(item, subs), ItemShape(subs))
  {
    if subs != [] {
      forall i | 0 <= i < |subs| ensures ScalarHasType(ItemValue(item, subs[i].0), ItemTypeOf(subs[i].0)) {}
      hide ScalarHasType;
      SameNamesSameKeys(SubEntries(item, subs), SubTypes(subs), (v, t) => ScalarHasType(v, t));
    }
  }

  lemma SourceIsTyped(r: Receipt, source: Source)
    ensures HasType(SourceValue(r, source), SourceType(source))
  {
    match source
    case FromScalar(p) => ScalarIsTyped(r, p);
    case FromItems(subs) =>
      hide ItemHasShape;
      hide ProjectItem;
      forall i | 0 <= i < |r.lineItems| ensures ItemHasShape(ProjectItem(r.lineItems[i], subs), ItemShape(subs)) {
        ItemIsTyped(r.lineItems[i], subs);
      }
    case _ =>
  }

  /** For every receipt and every field map, the projection validates under the schema built from the same map. */
  lemma ProjectionValidates(r: Receipt, m: FieldMap)
    ensures Validates(Projection(r, m), ResultShape(m))
  {
    hide HasType;
    var slots := Slots(m);
    forall i | 0 <= i < |slots| ensures HasType(SourceValue(r, slots[i].source), SourceType(slots[i].source)) {
      SourceIsTyped(r, slots[i].source);
    }
    SameNamesSameKeys(SlotValues(r, slots), SlotTypes(slots), (v, t) => HasType(v, t));
  }

  // ---- reading through the map --------------------------------------------------------------------------

  ghost predicate DistinctNames(slots: seq<Slot>) {
    forall i, j :: 0 <= i < j < |slots| ==> slots[i].name != slots[j].name
  }

  /** The last entry of a name decides. */
  lemma {:induction false} LastEntryWins<V>(entries: seq<(string, V)>, i: nat)
    requires i < |entries| && forall j :: i < j < |entries| ==> entries[j].0 != entries[i].0
    ensures entries[i].0 in FromEntries(entries) && FromEntries(entries)[entries[i].0] == entries[i].1
  {
    if i < |entries| - 1 {
      assert entries[|entries| - 1].0 != entries[i].0;
      LastEntryWins(entries[..|entries| - 1], i);
    }
  }

  /** Reading every emitted name gives the canonical value it was emitted for. */
  ghost predicate Faithful(r: Receipt, m: FieldMap) {
    forall i :: 0 <= i < |Slots(m)| ==>
      Slots(m)[i].name in Projection(r, m) && Projection(r, m)[Slots(m)[i].name] == SourceValue(r, Slots(m)[i].source)
  }

  lemma DistinctIsFaithful(r: Receipt, m: FieldMap)
    requires DistinctNames(Slots(m))
    ensures Faithful(r, m)
  {
    hide Slots;
    var slots := Slots(m);
    forall i | 0 <= i < |slots|
      ensures slots[i].name in Projection(r, m) && Projection(r, m)[slots[i].name] == SourceValue(r, slots[i].source) {
      LastEntryWins(SlotValues(r, slots), i);
    }
  }

  /** A name chosen at the top level: for a scalar, the item array or the verdict, not inside an item. */
  predicate Chosen(m: FieldMap, name: string) {
    exists i :: 0 <= i < |m| && !m[i].path.ItemField? && m[i].name == name
  }

  /** No chosen name is one of the default names the projection falls back to. */
  predicate NoDefaultTaken(m: FieldMap) {
    && (NameOf(m, ConfidencePath).None? ==> !Chosen(m, "confidence"))
    && (NameOf(m, WarningsPath).None? ==> !Chosen(m, "warnings"))
    && (NameOf(m, LineItemsPath).None? && ItemsSelected(m) ==> !Chosen(m, "lineItems"))
  }

  predicate InScalars(s: Slot, m: FieldMap) {
    s.source.FromScalar? && exists i :: 0 <= i < |m| && m[i] == Entry(ScalarAt(s.source.path), s.name)
  }

  lemma {:induction false} ScalarSlotsAreEntries(m: FieldMap)
    ensures forall k :: 0 <= k < |ScalarSlots(m)| ==> InScalars(ScalarSlots(m)[k], m)
    ensures forall i :: 0 <= i < |m| && m[i].path.ScalarAt? ==>
              Slot(m[i].name, FromScalar(m[i].path.scalar)) in ScalarSlots(m)
  {
    if m != [] {
      var init := m[..|m| - 1];
      ScalarSlotsAreEntries(init);
      forall k | 0 <= k < |ScalarSlots(m)| ensures InScalars(ScalarSlots(m)[k], m) {
        if k < |ScalarSlots(init)| {
          assert InScalars(ScalarSlots(init)[k], init);
          var i :| 0 <= i < |init| && init[i]
              == Entry(ScalarAt(ScalarSlots(init)[k].source.path), ScalarSlots(init)[k].name);
          assert m[i] == init[i];
        } else {
          assert m[|m| - 1] == Entry(ScalarAt(ScalarSlots(m)[k].source.path), ScalarSlots(m)[k].name);
        }
      }
    }
  }

  ghost predicate UniqueNames(m: FieldMap) { forall i, j :: 0 <= i < j < |m| ==> m[i].name != m[j].name }

  lemma {:induction false} ScalarSlotsDistinct(m: FieldMap)
    requires UniqueNames(m)
    ensures DistinctNames(ScalarSlots(m))
  {
    if m != [] {
      var init := m[..|m| - 1];
      ScalarSlotsDistinct(init);
      ScalarSlotsAreEntries(init);
      forall k | 0 <= k < |ScalarSlots(init)| ensures ScalarSlots(init)[k].name != m[|m| - 1].name {
        assert InScalars(ScalarSlots(init)[k], init);
      }
    }
  }

  function PathOf(source: Source): Path {
    match source
    case FromScalar(p) => ScalarAt(p)
    case FromItems(_) => LineItemsPath
    case FromConfidence => ConfidencePath
    case FromWarnings => WarningsPath
  }

  function DefaultName(path: Path): string {
    if path.LineItemsPath? then "lineItems" else if path.ConfidencePath? then "confidence" else "warnings"
  }

  ghost predicate UniquePaths(m: FieldMap) { forall i, j :: 0 <= i < j < |m| ==> m[i].path != m[j].path }

  /** Where the entry `i` ends up. */
  lemma SlotForEntry(m: FieldMap, i: nat) returns (k: nat)
    requires i < |m| && !m[i].path.ItemField? && UniquePaths(m)
    ensures k < |Slots(m)| && Slots(m)[k].name == m[i].name && PathOf(Slots(m)[k].source) == m[i].path
  {
    ScalarSlotsAreEntries(m);
    NameOfEntry(m, i);
    var n := |ScalarSlots(m)|;
    match m[i].path
    case ScalarAt(p) =>
      k :| 0 <= k < n && ScalarSlots(m)[k] == Slot(m[i].name, FromScalar(p));
    case LineItemsPath => k := n;
    case ConfidencePath => k := if ItemsSelected(m) then n + 1 else n;
    case WarningsPath => k := if ItemsSelected(m) then n + 2 else n + 1;
  }

  /** Where an unmapped part ends up. */
  lemma SlotForDefault(m: FieldMap, path: Path) returns (k: nat)
    requires path in {LineItemsPath, ConfidencePath, WarningsPath} && NameOf(m, path).None?
    requires path.LineItemsPath? ==> ItemsSelected(m)
    ensures k < |Slots(m)| && Slots(m)[k].name == DefaultName(path) && PathOf(Slots(m)[k].source) == path
  {
    var n := |ScalarSlots(m)|;
    match path
    case LineItemsPath => k := n;
    case ConfidencePath => k := if ItemsSelected(m) then n + 1 else n;
    case WarningsPath => k := if ItemsSelected(m) then n + 2 else n + 1;
  }

  lemma KindsDiffer(r: Receipt, a: Source, b: Source)
    requires PathOf(a) != PathOf(b) && !PathOf(b).ScalarAt?
    ensures SourceValue(r, a) != SourceValue(r, b)
  {
  }

  lemma TakenDefaultIsUnfaithful(r: Receipt, m: FieldMap, i: nat, path: Path)
    requires UniquePaths(m) && i < |m| && !m[i].path.ItemField? && m[i].name == DefaultName(path)
    requires path in {LineItemsPath, ConfidencePath, WarningsPath} && NameOf(m, path).None?
    requires path.LineItemsPath? ==> ItemsSelected(m)
    ensures !Faithful(r, m)
  {
    NameOfEntry(m, i);
    var a := SlotForEntry(m, i);
    var b := SlotForDefault(m, path);
    hide *;
    KindsDiffer(r, Slots(m)[a].source, Slots(m)[b].source);
    FaithfulAt(r, m, a);
    FaithfulAt(r, m, b);
  }

  lemma FaithfulAt(r: Receipt, m: FieldMap, k: nat)
    requires k < |Slots(m)|
    ensures Faithful(r, m) ==>
          Slots(m)[k].name in Projection(r, m)
          && Projection(r, m)[Slots(m)[k].name] == SourceValue(r, Slots(m)[k].source)
  {
  }

  /** A slot is named by an entry of the map, or by its default when the map has none. */
  predicate NamedBy(m: FieldMap, s: Slot) {
    || (exists i :: 0 <= i < |m| && m[i] == Entry(PathOf(s.source), s.name))
    || (PathOf(s.source) in {LineItemsPath, ConfidencePath, WarningsPath} && NameOf(m, PathOf(s.source)).None?
        && s.name == DefaultName(PathOf(s.source)) && (PathOf(s.source).LineItemsPath? ==> ItemsSelected(m)))
  }

  lemma NamedOrDefault(m: FieldMap, s: Slot)
    requires s.name == OrDefault(NameOf(m, PathOf(s.source)), DefaultName(PathOf(s.source)))
    requires PathOf(s.source) in {LineItemsPath, ConfidencePath, WarningsPath}
    requires (PathOf(s.source).LineItemsPath? ==> ItemsSelected(m))
    ensures NamedBy(m, s)
  {
    if NameOf(m, PathOf(s.source)).Some? {
      var i := NameOfFound(m, PathOf(s.source));
      assert m[i] == Entry(PathOf(s.source), s.name);
    }
  }

  lemma SlotsAreNamed(m: FieldMap, k: nat)
    requires k < |Slots(m)|
    ensures NamedBy(m, Slots(m)[k])
  {
    var n := |ScalarSlots(m)|;
    if k < n {
      ScalarSlotsAreEntries(m);
      assert InScalars(ScalarSlots(m)[k], m);
    } else {
      hide NamedBy;
      NamedOrDefault(m, Slots(m)[k]);
    }
  }

  lemma SlotPathsDiffer(m: FieldMap, j: nat, k: nat)
    requires j < k < |Slots(m)| && k >= |ScalarSlots(m)|
    ensures PathOf(Slots(m)[j].source) != PathOf(Slots(m)[k].source)
  {
    if j < |ScalarSlots(m)| { ScalarsFirst(m, j); } else { TailSlots(m, j); }
    TailSlots(m, k);
    hide *;
  }

  /** The verdict comes last, and the items before it. */
  lemma TailSlots(m: FieldMap, k: nat)
    requires |ScalarSlots(m)| <= k < |Slots(m)|
    ensures k >= |Slots(m)| - 3
    ensures PathOf(Slots(m)[k].source)
         == if k == |Slots(m)| - 1 then WarningsPath else if k == |Slots(m)| - 2 then ConfidencePath else LineItemsPath
  {
    hide ScalarSlots;
    hide ItemsSelected;
  }

  lemma ScalarsFirst(m: FieldMap, j: nat)
    requires j < |ScalarSlots(m)|
    ensures Slots(m)[j].source.FromScalar? && PathOf(Slots(m)[j].source).ScalarAt?
  {
    ScalarSlotsAreEntries(m);
    assert InScalars(ScalarSlots(m)[j], m);
  }

  lemma NamesDiffer(m: FieldMap, a: Slot, b: Slot)
    requires Accepted(m) && NoDefaultTaken(m) && NamedBy(m, a) && NamedBy(m, b) && PathOf(a.source) != PathOf(b.source)
    ensures a.name != b.name
  {
  }

  lemma DefaultsFreeIsDistinct(m: FieldMap)
    requires Accepted(m) && NoDefaultTaken(m)
    ensures DistinctNames(Slots(m))
  {
    hide Accepted;
    hide NoDefaultTaken;
    hide NamedBy;
    UniqueIn(m);
    ScalarSlotsDistinct(m);
    forall j, k | 0 <= j < k < |Slots(m)| ensures Slots(m)[j].name != Slots(m)[k].name {
      if k >= |ScalarSlots(m)| {
        SlotPathsDiffer(m, j, k);
        SlotsAreNamed(m, j);
        SlotsAreNamed(m, k);
        NamesDiffer(m, Slots(m)[j], Slots(m)[k]);
      }
    }
  }

  lemma UniqueIn(m: FieldMap)
    requires Accepted(m)
    ensures UniqueNames(m) && UniquePaths(m)
  {
  }

  /**
   For an accepted map, every receipt is read back faithfully exactly when no chosen name is a default name
   still in use.
   */
  lemma FaithfulIffNoDefaultTaken(r: Receipt, m: FieldMap)
    requires Accepted(m)
    ensures Faithful(r, m) <==> NoDefaultTaken(m)
  {
    hide Faithful;
    if NoDefaultTaken(m) {
      DefaultsFreeIsDistinct(m);
      DistinctIsFaithful(r, m);
    } else {
      UniqueIn(m);
      if NameOf(m, ConfidencePath).None? && Chosen(m, "confidence") {
        var i :| 0 <= i < |m| && !m[i].path.ItemField? && m[i].name == "confidence";
        TakenDefaultIsUnfaithful(r, m, i, ConfidencePath);
      } else if NameOf(m, WarningsPath).None? && Chosen(m, "warnings") {
        var i :| 0 <= i < |m| && !m[i].path.ItemField? && m[i].name == "warnings";
        TakenDefaultIsUnfaithful(r, m, i, WarningsPath);
      } else {
        var i :| 0 <= i < |m| && !m[i].path.ItemField? && m[i].name == "lineItems";
        TakenDefaultIsUnfaithful(r, m, i, LineItemsPath);
      }
    }
  }

  /** A map that passes every check of the request and loses the total of every receipt. */
  lemma TotalNamedConfidence(r: Receipt)
    ensures var m := [Entry(ScalarAt(Total), "confidence")];
            && Accepted(m) && !Faithful(r, m)
            && Projection(r, m) == map["confidence" := VerdictValue(r.confidence),
                "warnings" := WarningList(r.warnings)]
  {
    var m := [Entry(ScalarAt(Total), "confidence")];
    SlotsOfTotal();
    FaithfulIffNoDefaultTaken(r, m);
    assert m[0].name == "confidence" && !m[0].path.ItemField?;
    hide Faithful;
    hide Slots;
    var total, verdict, warnings := SourceValue(r, FromScalar(Total)), VerdictValue(r.confidence),
        WarningList(r.warnings);
    ThreeEntries("confidence", total, verdict, "warnings", warnings);
    assert SlotValues(r, Slots(m)) == [("confidence", total), ("confidence", verdict), ("warnings", warnings)];
  }

  lemma SlotsOfTotal()
    ensures Slots([Entry(ScalarAt(Total), "confidence")])
         == [Slot("confidence", FromScalar(Total)), Slot("confidence", FromConfidence), Slot("warnings", FromWarnings)]
  {
    var m := [Entry(ScalarAt(Total), "confidence")];
    assert m[1..] == [] && m[..0] == [];
    assert ScalarSlots(m) == ScalarSlots([]) + [Slot("confidence", FromScalar(Total))];
    assert LineItemSubPaths([]) == [] && LineItemSubPaths(m) == [];
  }

  lemma ThreeEntries<V>(a: string, x: V, y: V, b: string, z: V)
    ensures FromEntries([(a, x), (a, y), (b, z)]) == map[a := y][b := z]
  {
    var two: seq<(string, V)>, one: seq<(string, V)> := [(a, x), (a, y)], [(a, x)];
    assert [(a, x), (a, y), (b, z)][..2] == two && two[..1] == one && one[..0] == [];
    assert FromEntries(one) == map[a := x];
    assert FromEntries(two) == map[a := y];
  }

  // ---- nothing is lost ------------------------------------------------------------------------------------

  /** Every scalar is selected, and every item field, whole or one by one. */
  ghost predicate SelectsEverything(m: FieldMap) {
    && (forall p: ScalarPath :: NameOf(m, ScalarAt(p)).Some?)
    && ItemsSelected(m)
    && (LineItemSubPaths(m) == [] || forall k: ItemKey :: HasSub(LineItemSubPaths(m), k))
  }

  predicate HasSub(subs: seq<(ItemKey, string)>, k: ItemKey) { exists i :: 0 <= i < |subs| && subs[i].0 == k }

  lemma ScalarReadBack(r: Receipt, s: Receipt, m: FieldMap, p: ScalarPath)
    requires Accepted(m) && Faithful(r, m) && Faithful(s, m) && NameOf(m, ScalarAt(p)).Some?
    requires Projection(r, m) == Projection(s, m)
    ensures ScalarValue(r, p) == ScalarValue(s, p)
  {
    hide Accepted;
    hide Slots;
    hide Projection;
    hide ScalarValue;
    hide Faithful;
    UniqueIn(m);
    var i := NameOfFound(m, ScalarAt(p));
    var k := SlotForEntry(m, i);
    FaithfulAt(r, m, k);
    FaithfulAt(s, m, k);
  }

  lemma ItemsReadBack(r: Receipt, s: Receipt, m: FieldMap)
    requires Accepted(m) && Faithful(r, m) && Faithful(s, m) && ItemsSelected(m) && Projection(r, m) == Projection(s, m)
    ensures ProjectItems(r.lineItems, LineItemSubPaths(m)) == ProjectItems(s.lineItems, LineItemSubPaths(m))
  {
    hide Projection;
    hide Faithful;
    var k := |ScalarSlots(m)|;
    assert Slots(m)[k] == ItemsSlot(m);
    FaithfulAt(r, m, k);
    FaithfulAt(s, m, k);
  }

  lemma VerdictReadBack(r: Receipt, m: FieldMap)
    requires Faithful(r, m)
    ensures OrDefault(NameOf(m, ConfidencePath), "confidence") in Projection(r, m)
    ensures OrDefault(NameOf(m, WarningsPath), "warnings") in Projection(r, m)
    ensures Projection(r, m)[OrDefault(NameOf(m, ConfidencePath), "confidence")] == VerdictValue(r.confidence)
    ensures Projection(r, m)[OrDefault(NameOf(m, WarningsPath), "warnings")] == WarningList(r.warnings)
  {
    hide Projection;
    hide Faithful;
    FaithfulAt(r, m, |Slots(m)| - 2);
    FaithfulAt(r, m, |Slots(m)| - 1);
  }

  lemma {:induction false} SubsAreEntries(m: FieldMap)
    ensures forall k :: 0 <= k < |LineItemSubPaths(m)| ==> SubEntry(m, LineItemSubPaths(m)[k])
  {
    if m != [] {
      var init := m[..|m| - 1];
      SubsAreEntries(init);
      forall k | 0 <= k < |LineItemSubPaths(m)| ensures SubEntry(m, LineItemSubPaths(m)[k]) {
        if k < |LineItemSubPaths(init)| {
          assert SubEntry(init, LineItemSubPaths(init)[k]);
          var i :| 0 <= i < |init| && init[i]
              == Entry(ItemField(LineItemSubPaths(init)[k].0), LineItemSubPaths(init)[k].1);
          assert m[i] == init[i];
        } else {
          assert m[|m| - 1] == Entry(ItemField(LineItemSubPaths(m)[k].0), LineItemSubPaths(m)[k].1);
        }
      }
    }
  }

  predicate SubEntry(m: FieldMap, sub: (ItemKey, string)) {
    exists i :: 0 <= i < |m| && m[i] == Entry(ItemField(sub.0), sub.1)
  }

  ghost predicate DistinctSubs(subs: seq<(ItemKey, string)>) {
    forall i, j :: 0 <= i < j < |subs| ==> subs[i].1 != subs[j].1
  }

  lemma {:induction false} SubNamesDistinct(m: FieldMap)
    requires UniqueNames(m)
    ensures DistinctSubs(LineItemSubPaths(m))
  {
    if m != [] {
      var init := m[..|m| - 1];
      SubNamesDistinct(init);
      SubsAreEntries(init);
      forall k | 0 <= k < |LineItemSubPaths(init)| ensures LineItemSubPaths(init)[k].1 != m[|m| - 1].name {
        assert SubEntry(init, LineItemSubPaths(init)[k]);
      }
    }
  }

  lemma ItemFieldReadBack(a: LineItem, b: LineItem, subs: seq<(ItemKey, string)>, k: ItemKey)
    requires DistinctSubs(subs) && ProjectItem(a, subs) == ProjectItem(b, subs) && (subs == [] || HasSub(subs, k))
    ensures ItemValue(a, k) == ItemValue(b, k)
  {
    if subs == [] {
      var x, y := CanonicalItem(a), CanonicalItem(b);
      assert x["description"] == y["description"] && x["qty"] == y["qty"] && x["unitPrice"] == y["unitPrice"]
          && x["total"] == y["total"];
    } else {
      hide ItemValue;
      var i :| 0 <= i < |subs| && subs[i].0 == k;
      LastEntryWins(SubEntries(a, subs), i);
      LastEntryWins(SubEntries(b, subs), i);
    }
  }

  lemma SameItem(a: LineItem, b: LineItem, subs: seq<(ItemKey, string)>)
    requires DistinctSubs(subs) && ProjectItem(a, subs) == ProjectItem(b, subs)
    requires subs == [] || forall k: ItemKey :: HasSub(subs, k)
    ensures a == b
  {
    hide ProjectItem;
    hide HasSub;
    ItemFieldReadBack(a, b, subs, Description);
    ItemFieldReadBack(a, b, subs, Qty);
    ItemFieldReadBack(a, b, subs, UnitPrice);
    ItemFieldReadBack(a, b, subs, ItemTotal);
  }

  /** With everything selected, two receipts that project alike are the same receipt. */
  lemma FullMapIsInvertible(r: Receipt, s: Receipt, m: FieldMap)
    requires Accepted(m) && NoDefaultTaken(m) && SelectsEverything(m) && Projection(r, m) == Projection(s, m)
    ensures r == s
  {
    FaithfulIffNoDefaultTaken(r, m);
    FaithfulIffNoDefaultTaken(s, m);
    SelectedParts(m);
    UniqueIn(m);
    SubNamesDistinct(m);
    hide *;
    forall p: ScalarPath ensures ScalarValue(r, p) == ScalarValue(s, p) { ScalarReadBack(r, s, m, p); }
    ItemsReadBack(r, s, m);
    SameItems(r.lineItems, s.lineItems, LineItemSubPaths(m));
    VerdictReadBack(r, m);
    VerdictReadBack(s, m);
    SameScalars(r, s);
  }

  lemma SelectedParts(m: FieldMap)
    requires SelectsEverything(m)
    ensures forall p: ScalarPath :: NameOf(m, ScalarAt(p)).Some?
    ensures ItemsSelected(m) && (LineItemSubPaths(m) == [] || forall k: ItemKey :: HasSub(LineItemSubPaths(m), k))
  {
  }

  lemma SameItems(xs: seq<LineItem>, ys: seq<LineItem>, subs: seq<(ItemKey, string)>)
    requires DistinctSubs(subs) && ProjectItems(xs, subs) == ProjectItems(ys, subs)
    requires subs == [] || forall k: ItemKey :: HasSub(subs, k)
    ensures xs == ys
  {
    hide ProjectItem;
    hide ProjectItems;
    hide HasSub;
    assert |ProjectItems(xs, subs)| == |xs| && |ProjectItems(ys, subs)| == |ys|;
    forall i | 0 <= i < |xs| ensures xs[i] == ys[i] {
      assert ProjectItems(xs, subs)[i] == ProjectItems(ys, subs)[i];
      SameItem(xs[i], ys[i], subs);
    }
  }

  lemma SameScalars(r: Receipt, s: Receipt)
    requires forall p: ScalarPath :: ScalarValue(r, p) == ScalarValue(s, p)
    requires r.lineItems == s.lineItems && r.confidence == s.confidence && r.warnings == s.warnings
    ensures r == s
  {
    assert ScalarValue(r, MerchantName) == ScalarValue(s, MerchantName);
    assert ScalarValue(r, MerchantAddress) == ScalarValue(s, MerchantAddress);
    assert ScalarValue(r, MerchantTin) == ScalarValue(s, MerchantTin);
    assert ScalarValue(r, DateTime) == ScalarValue(s, DateTime);
    assert ScalarValue(r, Currency) == ScalarValue(s, Currency);
    assert ScalarValue(r, Subtotal) == ScalarValue(s, Subtotal);
    assert ScalarValue(r, Tax) == ScalarValue(s, Tax);
    assert ScalarValue(r, Tip) == ScalarValue(s, Tip);
    assert ScalarValue(r, Total) == ScalarValue(s, Total);
    assert ScalarValue(r, PaymentMethod) == ScalarValue(s, PaymentMethod);
  }

  // ---- what stands under a name ---------------------------------------------------------------------------

  /** The scalar is the receipt's own field. */
  predicate IsField(r: Receipt, p: ScalarPath, v: Scalar) {
    && (p == MerchantName ==> v == Text(r.merchant.name)) && (p == MerchantAddress ==> v == Text(r.merchant.address))
    && (p == MerchantTin ==> v == Text(r.merchant.tin)) && (p == DateTime ==> v == Text(r.dateTime))
    && (p == Currency ==> v == Text(r.currency)) && (p == PaymentMethod ==> v == Text(r.paymentMethod))
    && (p == Subtotal ==> v == Number(r.subtotal)) && (p == Tax ==> v == Number(r.tax))
    && (p == Tip ==> v == Number(r.tip)) && (p == Total ==> v == Number(r.total))
  }

  /** The scalar is the item's own field. */
  predicate IsItemField(item: LineItem, k: ItemKey, v: Scalar) {
    && (k == Description ==> v == Text(Some(item.description))) && (k == Qty ==> v == Number(item.qty))
    && (k == UnitPrice ==> v == Number(item.unitPrice)) && (k == ItemTotal ==> v == Number(item.total))
  }

  lemma ScalarIsField(r: Receipt, p: ScalarPath)
    ensures IsField(r, p, ScalarValue(r, p))
  {
  }

  /** A field of the receipt stands under the name that was chosen for it. */
  lemma FieldStandsUnderItsName(r: Receipt, m: FieldMap, i: nat, p: ScalarPath)
    requires Accepted(m) && NoDefaultTaken(m) && i < |m| && m[i].path == ScalarAt(p)
    ensures m[i].name in Projection(r, m) && Projection(r, m)[m[i].name].Plain?
    ensures IsField(r, p, Projection(r, m)[m[i].name].scalar)
  {
    FaithfulIffNoDefaultTaken(r, m);
    UniqueIn(m);
    var k := SlotForEntry(m, i);
    FaithfulAt(r, m, k);
    ScalarIsField(r, p);
    hide *;
    PathIsScalar(Slots(m)[k].source, p);
    ScalarSource(r, p);
  }

  lemma PathIsScalar(source: Source, p: ScalarPath)
    requires PathOf(source) == ScalarAt(p)
    ensures source == FromScalar(p)
  {
  }

  lemma ScalarSource(r: Receipt, p: ScalarPath)
    ensures SourceValue(r, FromScalar(p)) == Plain(ScalarValue(r, p))
  {
  }

  lemma {:induction false} SubIsThere(m: FieldMap, i: nat) returns (j: nat)
    requires i < |m| && m[i].path.ItemField?
    ensures j < |LineItemSubPaths(m)| && LineItemSubPaths(m)[j] == (m[i].path.key, m[i].name)
  {
    if i == |m| - 1 {
      j := |LineItemSubPaths(m[..i])|;
    } else {
      j := SubIsThere(m[..|m| - 1], i);
    }
  }

  /** The name the items stand under. */
  function ItemsName(m: FieldMap): string { OrDefault(NameOf(m, LineItemsPath), "lineItems") }

  /** A field of the items that was selected by itself stands in every item, under the name chosen for it. */
  lemma ItemFieldStandsUnderItsName(r: Receipt, m: FieldMap, i: nat, at: nat)
    requires Accepted(m) && NoDefaultTaken(m) && i < |m| && m[i].path.ItemField? && at < |r.lineItems|
    ensures ItemsName(m) in Projection(r, m) && Projection(r, m)[ItemsName(m)].ItemList?
    ensures var items := Projection(r, m)[ItemsName(m)].items;
      && |items| == |r.lineItems|
      && m[i].name in items[at] && IsItemField(r.lineItems[at], m[i].path.key, items[at][m[i].name])
  {
    var j := SubIsThere(m, i);
    FaithfulIffNoDefaultTaken(r, m);
    UniqueIn(m);
    SubNamesDistinct(m);
    var subs := LineItemSubPaths(m);
    var k := |ScalarSlots(m)|;
    assert Slots(m)[k] == Slot(ItemsName(m), FromItems(subs));
    FaithfulAt(r, m, k);
    hide Projection;
    hide Slots;
    hide ItemsName;
    hide LineItemSubPaths;
    hide NoDefaultTaken;
    hide Faithful;
    hide Accepted;
    LastEntryWins(SubEntries(r.lineItems[at], subs), j);
  }

  // ---- what validates -----------------------------------------------------------------------------------------

  lemma TypeStands(m: FieldMap, k: nat)
    requires DistinctNames(Slots(m)) && k < |Slots(m)|
    ensures Slots(m)[k].name in ResultShape(m) && ResultShape(m)[Slots(m)[k].name] == SourceType(Slots(m)[k].source)
  {
    hide Slots;
    LastEntryWins(SlotTypes(Slots(m)), k);
  }

  /** What validates has a number, or nothing, under the name of an amount, and a text, or nothing, under any other. */
  lemma ValidAmounts(record: map<string, Value>, m: FieldMap, i: nat, p: ScalarPath)
    requires Accepted(m) && NoDefaultTaken(m) && i < |m| && m[i].path == ScalarAt(p)
    requires Validates(record, ResultShape(m))
    ensures m[i].name in record && record[m[i].name].Plain?
    ensures record[m[i].name].scalar.Number? <==> p in {Subtotal, Tax, Tip, Total}
  {
    DefaultsFreeIsDistinct(m);
    UniqueIn(m);
    var k := SlotForEntry(m, i);
    TypeStands(m, k);
    hide ResultShape;
    hide Slots;
    hide NoDefaultTaken;
    hide Accepted;
  }

  /**
   It has an array of items, each with a text under the name of the description and a number, or nothing, under
   that of any other field selected by itself; and the verdict and the warnings.
   */
  lemma ValidItems(record: map<string, Value>, m: FieldMap, i: nat, at: nat)
    requires Accepted(m) && NoDefaultTaken(m) && i < |m| && m[i].path.ItemField? && Validates(record, ResultShape(m))
    ensures ItemsName(m) in record && record[ItemsName(m)].ItemList?
    ensures var items := record[ItemsName(m)].items;
            at < |items| ==>
              && m[i].name in items[at]
              && (m[i].path.key.Description? <==> items[at][m[i].name].Text?)
              && (items[at][m[i].name].Text? ==> items[at][m[i].name].text.Some?)
  {
    var j := SubIsThere(m, i);
    DefaultsFreeIsDistinct(m);
    UniqueIn(m);
    SubNamesDistinct(m);
    var subs := LineItemSubPaths(m);
    var k := |ScalarSlots(m)|;
    assert Slots(m)[k] == Slot(ItemsName(m), FromItems(subs));
    TypeStands(m, k);
    hide ResultShape;
    hide Slots;
    hide ItemsName;
    hide LineItemSubPaths;
    hide NoDefaultTaken;
    hide Accepted;
    LastEntryWins(SubTypes(subs), j);
  }

  lemma ValidVerdict(record: map<string, Value>, m: FieldMap)
    requires Accepted(m) && NoDefaultTaken(m) && Validates(record, ResultShape(m))
    ensures var name := OrDefault(NameOf(m, ConfidencePath), "confidence"); name in record && record[name].VerdictValue?
    ensures var name := OrDefault(NameOf(m, WarningsPath), "warnings"); name in record && record[name].WarningList?
  {
    DefaultsFreeIsDistinct(m);
    TypeStands(m, |Slots(m)| - 2);
    TypeStands(m, |Slots(m)| - 1);
    hide ResultShape;
    hide NoDefaultTaken;
    hide Accepted;
  }

  // ---- what is left out is gone -------------------------------------------------------------------------------

  const EMPTY_RECEIPT := Receipt(Merchant(None, None, None), None, None, [], None, None, None, None, None, High, [])

  const EMPTY_ITEM := LineItem("", None, None, None)

  /** An empty receipt but for one scalar. */
  function OnlyScalar(p: ScalarPath): Receipt {
    match p
    case MerchantName => EMPTY_RECEIPT.(merchant := Merchant(Some("x"), None, None))
    case MerchantAddress => EMPTY_RECEIPT.(merchant := Merchant(None, Some("x"), None))
    case MerchantTin => EMPTY_RECEIPT.(merchant := Merchant(None, None, Some("x")))
    case DateTime => EMPTY_RECEIPT.(dateTime := Some("x"))
    case Currency => EMPTY_RECEIPT.(currency := Some("x"))
    case Subtotal => EMPTY_RECEIPT.(subtotal := Some(1.0))
    case Tax => EMPTY_RECEIPT.(tax := Some(1.0))
    case Tip => EMPTY_RECEIPT.(tip := Some(1.0))
    case Total => EMPTY_RECEIPT.(total := Some(1.0))
    case PaymentMethod => EMPTY_RECEIPT.(paymentMethod := Some("x"))
  }

  /** An empty item but for one field. */
  function OnlyField(k: ItemKey): LineItem {
    match k
    case Description => EMPTY_ITEM.(description := "x")
    case Qty => EMPTY_ITEM.(qty := Some(1.0))
    case UnitPrice => EMPTY_ITEM.(unitPrice := Some(1.0))
    case ItemTotal => EMPTY_ITEM.(total := Some(1.0))
  }

  lemma SameSourcesSameProjection(r: Receipt, s: Receipt, m: FieldMap)
    requires forall k :: 0 <= k < |Slots(m)| ==>
               SourceValue(r, Slots(m)[k].source) == SourceValue(s, Slots(m)[k].source)
    ensures Projection(r, m) == Projection(s, m)
  {
    hide Slots;
    assert SlotValues(r, Slots(m)) == SlotValues(s, Slots(m));
  }

  lemma DroppedScalar(m: FieldMap, p: ScalarPath)
    requires NameOf(m, ScalarAt(p)).None?
    ensures Projection(OnlyScalar(p), m) == Projection(EMPTY_RECEIPT, m) && OnlyScalar(p) != EMPTY_RECEIPT
  {
    hide Projection;
    forall k | 0 <= k < |Slots(m)|
      ensures SourceValue(OnlyScalar(p), Slots(m)[k].source) == SourceValue(EMPTY_RECEIPT, Slots(m)[k].source)
    {
      NotFromScalar(m, p, k);
      hide Slots;
      SameExcept(p, Slots(m)[k].source);
    }
    SameSourcesSameProjection(OnlyScalar(p), EMPTY_RECEIPT, m);
  }

  lemma NotFromScalar(m: FieldMap, p: ScalarPath, k: nat)
    requires NameOf(m, ScalarAt(p)).None? && k < |Slots(m)|
    ensures Slots(m)[k].source != FromScalar(p)
  {
    if k < |ScalarSlots(m)| {
      ScalarSlotsAreEntries(m);
      assert InScalars(ScalarSlots(m)[k], m);
      NoEntryFor(m, ScalarAt(p));
    }
  }

  lemma {:induction false} NoEntryFor(m: FieldMap, path: Path)
    requires NameOf(m, path).None?
    ensures forall i :: 0 <= i < |m| ==> m[i].path != path
  {
    if m != [] {
      NoEntryFor(m[1..], path);
      assert forall i :: 1 <= i < |m| ==> m[i] == m[1..][i - 1];
    }
  }

  lemma SameExcept(p: ScalarPath, source: Source)
    requires source != FromScalar(p)
    ensures SourceValue(OnlyScalar(p), source) == SourceValue(EMPTY_RECEIPT, source)
  {
  }

  lemma DroppedItems(m: FieldMap)
    requires !ItemsSelected(m)
    ensures Projection(EMPTY_RECEIPT.(lineItems := [EMPTY_ITEM]), m) == Projection(EMPTY_RECEIPT, m)
  {
    hide Projection;
    var r := EMPTY_RECEIPT.(lineItems := [EMPTY_ITEM]);
    forall k | 0 <= k < |Slots(m)|
      ensures SourceValue(r, Slots(m)[k].source) == SourceValue(EMPTY_RECEIPT, Slots(m)[k].source) {
      if k < |ScalarSlots(m)| {
        ScalarSlotsAreEntries(m);
        assert InScalars(ScalarSlots(m)[k], m);
      }
    }
    SameSourcesSameProjection(r, EMPTY_RECEIPT, m);
  }

  lemma DroppedItemField(m: FieldMap, key: ItemKey)
    requires LineItemSubPaths(m) != [] && !HasSub(LineItemSubPaths(m), key)
    ensures Projection(EMPTY_RECEIPT.(lineItems := [OnlyField(key)]), m)
         == Projection(EMPTY_RECEIPT.(lineItems := [EMPTY_ITEM]), m)
    ensures OnlyField(key) != EMPTY_ITEM
  {
    hide Projection;
    var r, s := EMPTY_RECEIPT.(lineItems := [OnlyField(key)]), EMPTY_RECEIPT.(lineItems := [EMPTY_ITEM]);
    var subs := LineItemSubPaths(m);
    SameItemWithout(subs, key);
    forall k | 0 <= k < |Slots(m)| ensures SourceValue(r, Slots(m)[k].source) == SourceValue(s, Slots(m)[k].source) {
      hide ProjectItem;
      if k < |ScalarSlots(m)| {
        ScalarSlotsAreEntries(m);
        assert InScalars(ScalarSlots(m)[k], m);
      } else {
        assert ProjectItems(r.lineItems, subs) == ProjectItems(s.lineItems, subs);
      }
    }
    SameSourcesSameProjection(r, s, m);
  }

  lemma SameItemWithout(subs: seq<(ItemKey, string)>, key: ItemKey)
    requires subs != [] && !HasSub(subs, key)
    ensures ProjectItem(OnlyField(key), subs) == ProjectItem(EMPTY_ITEM, subs)
  {
    assert SubEntries(OnlyField(key), subs) == SubEntries(EMPTY_ITEM, subs);
  }

  /** A faithful map loses nothing exactly when it selects everything. */
  lemma InvertibleIffEverythingSelected(m: FieldMap)
    requires Accepted(m) && NoDefaultTaken(m)
    ensures (forall r, s :: Projection(r, m) == Projection(s, m) ==> r == s) <==> SelectsEverything(m)
  {
    if SelectsEverything(m) {
      hide *;
      forall r, s | Projection(r, m) == Projection(s, m) ensures r == s { FullMapIsInvertible(r, s, m); }
    } else {
      hide Projection;
      hide ItemsSelected;
      hide HasSub;
      hide NameOf;
      if p: ScalarPath :| NameOf(m, ScalarAt(p)).None? {
        DroppedScalar(m, p);
      } else if !ItemsSelected(m) {
        DroppedItems(m);
      } else {
        var key: ItemKey :| !HasSub(LineItemSubPaths(m), key);
        DroppedItemField(m, key);
      }
    }
  }
}
