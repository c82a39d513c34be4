/** Rebuilding the reading order of two-column pages from the blocks' boxes. */
module ReadingOrder {
  import opened Lists
  import opened Options
  import opened Sorting
  import opened Text

  datatype Box = Box(x0: real, y0: real, x1: real, y1: real)

  datatype Block = Block(page: nat, bbox: Option<Box>, content: string)

  // ---- the gutter ------------------------------------------------------------------------------------

  /** A gap at least this wide in the middle of the page separates two columns. */
  const MIN_GUTTER_WIDTH := 0.15

  /** A block that has a box and some text. */
  predicate Usable(b: Block) { b.bbox.Some? && Trim(b.content) != "" }

  datatype Region = Region(page: nat, bbox: Box, content: string)

  function Located(b: Block): Region
    requires Usable(b)
  {
    Region(b.page, b.bbox.value, b.content)
  }

  function Center(b: Region): real { (b.bbox.x0 + b.bbox.x1) / 2.0 }

  function Centers(blocks: seq<Region>): (centers: seq<real>)
    ensures |centers| == |blocks| && forall i :: 0 <= i < |blocks| ==> centers[i] == Center(blocks[i])
  {
    seq(|blocks|, i requires 0 <= i < |blocks| => Center(blocks[i]))
  }

  predicate AtMost(x: real, y: real) { x <= y }

  lemma AtMostIsOrder()
    ensures TotalPreorder<real>(AtMost)
  {
  }

  function Middle(centers: seq<real>, i: nat): real
    requires 0 < i < |centers|
  {
    (centers[i] + centers[i - 1]) / 2.0
  }

  function Gap(centers: seq<real>, i: nat): real
    requires 0 < i < |centers|
  {
    centers[i] - centers[i - 1]
  }

  /** The gap before the `i`-th centre lies in the middle band of the page. */
  predicate InBand(centers: seq<real>, i: nat)
    requires 0 < i < |centers|
  {
    0.3 < Middle(centers, i) < 0.7
  }

  /** The widest gap of the band among those before the `i`-th centre, and its middle. */
  function Widest(centers: seq<real>, i: nat): (real, Option<real>)
    requires i <= |centers|
  {
    if i <= 1 then (0.0, None)
    else
      var (widest, gutter) := Widest(centers, i - 1);
      if Gap(centers, i - 1) > widest && InBand(centers, i - 1) then (Gap(centers, i - 1), Some(Middle(centers, i - 1)))
      else (widest, gutter)
  }

  function GutterOf(centers: seq<real>): Option<real> {
    var (widest, gutter) := Widest(centers, |centers|);
    if widest >= MIN_GUTTER_WIDTH then gutter else None
  }

  function Gutter(blocks: seq<Region>): Option<real> { GutterOf(StableSort(Centers(blocks), AtMost)) }

  method DetectGutter(blocks: seq<Region>) returns (result: Option<real>)
    ensures result == Gutter(blocks)
  {
    hide StableSort;
    var centers := StableSort(Centers(blocks), AtMost);
    var widest := 0.0;
    var gutter: Option<real> := None;
    var i := 1;
    while i < |centers|
      invariant 1 <= i && (i <= |centers| || (i == 1 && centers == []))
      invariant i <= |centers| ==> (widest, gutter) == Widest(centers, i)
      invariant centers == [] ==> widest == 0.0
    {
      var gap := centers[i] - centers[i - 1];
      var mid := (centers[i] + centers[i - 1]) / 2.0;
      if gap > widest && mid > 0.3 && mid < 0.7 {
        widest := gap;
        gutter := Some(mid);
      }
      i := i + 1;
    }
    result := if widest >= MIN_GUTTER_WIDTH then gutter else None;
  }

  // ---- what a gutter is -----------------------------------------------------------------------------

  /** Gap `i` lies in the band, is wide enough, and is the first of the widest there. */
  ghost predicate WidestInBand(centers: seq<real>, i: nat) {
    0 < i < |centers| && InBand(centers, i) && Gap(centers, i) >= MIN_GUTTER_WIDTH
    && (forall k :: 0 < k < |centers| && InBand(centers, k) ==> Gap(centers, k) <= Gap(centers, i))
    && (forall k :: 0 < k < i && InBand(centers, k) ==> Gap(centers, k) < Gap(centers, i))
  }

  lemma {:induction false} WidestIs(centers: seq<real>, i: nat) returns (at: nat)
    requires i <= |centers|
    ensures Widest(centers, i).0 >= 0.0 && (Widest(centers, i).1.None? ==> Widest(centers, i).0 == 0.0)
    ensures forall k :: 0 < k < i && InBand(centers, k) ==> Gap(centers, k) <= Widest(centers, i).0
    ensures Widest(centers, i).1.Some? ==>
      && 0 < at < i && InBand(centers, at) && Widest(centers, i) == (Gap(centers, at), Some(Middle(centers, at)))
      && (forall k :: 0 < k < at && InBand(centers, k) ==> Gap(centers, k) < Gap(centers, at))
  {
    at := 0;
    if i > 1 {
      at := WidestIs(centers, i - 1);
      if Gap(centers, i - 1) > Widest(centers, i - 1).0 && InBand(centers, i - 1) { at := i - 1; }
    }
  }

  /**
   A gutter is reported exactly when some gap of the band is wide enough, and it is the middle of the first
   widest one.
   */
  lemma GutterIsWidestGap(centers: seq<real>)
    ensures GutterOf(centers).None?
       <==> forall k :: 0 < k < |centers| && InBand(centers, k) ==> Gap(centers, k) < MIN_GUTTER_WIDTH
    ensures GutterOf(centers).Some? ==>
          exists i: nat :: WidestInBand(centers, i) && GutterOf(centers) == Some(Middle(centers, i))
  {
    var at := WidestIs(centers, |centers|);
    if GutterOf(centers).Some? {
      assert WidestInBand(centers, at);
    }
  }

  lemma {:induction false} SortedCentersHold(blocks: seq<Region>, b: Region) returns (k: nat)
    requires b in blocks
    ensures SortedBy(StableSort(Centers(blocks), AtMost), AtMost)
    ensures k < |StableSort(Centers(blocks), AtMost)| && StableSort(Centers(blocks), AtMost)[k] == Center(b)
  {
    AtMostIsOrder();
    SortIsOrderedPermutation(Centers(blocks), AtMost);
    var sorted := StableSort(Centers(blocks), AtMost);
    var j :| 0 <= j < |blocks| && blocks[j] == b;
    assert Centers(blocks)[j] == Center(b);
    assert Center(b) in multiset(Centers(blocks));
    assert Center(b) in multiset(sorted);
    k :| 0 <= k < |sorted| && sorted[k] == Center(b);
  }

  /**
   Behind a reported gutter lies an empty strip of the page at least 0.15 wide: no block's centre is strictly
   inside it, and a block whose centre lies left of it reads in the left column.
   */
  lemma GutterStripIsEmpty(blocks: seq<Region>) returns (left: real, right: real)
    requires Gutter(blocks).Some?
    ensures right - left >= 0.15 && Gutter(blocks) == Some((left + right) / 2.0)
    ensures 0.3 < Gutter(blocks).value < 0.7
    ensures forall b: Region :: b in blocks ==>
              b.bbox.x0 + b.bbox.x1 <= 2.0 * left || b.bbox.x0 + b.bbox.x1 >= 2.0 * right
    ensures forall b: Region ::
              b in blocks && b.bbox.x0 + b.bbox.x1 <= 2.0 * left && b.bbox.x0 <= b.bbox.x1 ==>
                b.bbox.x0 < Gutter(blocks).value
  {
    var sorted := StableSort(Centers(blocks), AtMost);
    GutterIsWidestGap(sorted);
    hide GutterOf;
    hide StableSort;
    var i: nat :| WidestInBand(sorted, i) && GutterOf(sorted) == Some(Middle(sorted, i));
    left, right := sorted[i - 1], sorted[i];
    forall b: Region | b in blocks
      ensures b.bbox.x0 + b.bbox.x1 <= 2.0 * left || b.bbox.x0 + b.bbox.x1 >= 2.0 * right
    {
      var k := SortedCentersHold(blocks, b);
      if k < i - 1 { assert AtMost(sorted[k], sorted[i - 1]); }
      if k > i { assert AtMost(sorted[i], sorted[k]); }
    }
  }

  // ---- one page ---------------------------------------------------------------------------------------

  function Column(b: Region, gutter: Option<real>): nat {
    if gutter.Some? && b.bbox.x0 >= gutter.value then 1 else 0
  }

  function Rank(b: Region, gutter: Option<real>): real { Column(b, gutter) as real + b.bbox.y0 }

  predicate ReadsBefore(a: Region, b: Region, gutter: Option<real>) { Rank(a, gutter) <= Rank(b, gutter) }

  function ByRank(gutter: Option<real>): (Region, Region) -> bool { (a, b) => ReadsBefore(a, b, gutter) }

  /** The blocks of one page, column after column. */
  function OrderPage(blocks: seq<Region>): seq<Region> { StableSort(blocks, ByRank(Gutter(blocks))) }

  lemma RankIsOrder(gutter: Option<real>)
    ensures TotalPreorder(ByRank(gutter))
  {
    var le := ByRank(gutter);
    assert forall a: Region, b: Region :: le(a, b) <==> ReadsBefore(a, b, gutter);
  }

  predicate OnPage(b: Region) { 0.0 <= b.bbox.y0 < 1.0 }

  /** What starts left of the gutter comes before what starts right of it; on each side from top to bottom. */
  predicate InColumnOrder(a: Region, b: Region, gutter: Option<real>) {
    if gutter.Some? && (a.bbox.x0 < gutter.value) != (b.bbox.x0 < gutter.value) then a.bbox.x0 < gutter.value
    else a.bbox.y0 <= b.bbox.y0
  }

  lemma RankDecides(a: Region, b: Region, gutter: Option<real>)
    requires OnPage(a) && OnPage(b) && ReadsBefore(a, b, gutter)
    ensures InColumnOrder(a, b, gutter)
  {
    assert Column(a, gutter) in {0, 1} && Column(b, gutter) in {0, 1};
  }

  /** A page's blocks, each once, column after column and from top to bottom in each. */
  lemma PageReadsByColumns(blocks: seq<Region>)
    requires forall b: Region :: b in blocks ==> OnPage(b)
    ensures multiset(OrderPage(blocks)) == multiset(blocks)
    ensures forall i, j :: 0 <= i < j < |OrderPage(blocks)| ==>
              InColumnOrder(OrderPage(blocks)[i], OrderPage(blocks)[j], Gutter(blocks))
  {
    var gutter, order := Gutter(blocks), OrderPage(blocks);
    hide Gutter;
    RankIsOrder(gutter);
    SortIsOrderedPermutation(blocks, ByRank(gutter));
    hide StableSort;
    hide OrderPage;
    hide OnPage;
    hide ReadsBefore;
    hide InColumnOrder;
    forall i, j | 0 <= i < j < |order| ensures InColumnOrder(order[i], order[j], gutter) {
      assert order[i] in multiset(order) && order[j] in multiset(order);
      assert ByRank(gutter)(order[i], order[j]);
      RankDecides(order[i], order[j], gutter);
    }
  }

  // ---- all pages -----------------------------------------------------------------------------------------

  function UsableBlocks(blocks: seq<Block>): seq<Region> {
    if blocks == [] then []
    else
      UsableBlocks(blocks[..|blocks| - 1])
      + (if Usable(blocks[|blocks| - 1]) then [Located(blocks[|blocks| - 1])] else [])
  }

  function OnSamePage(blocks: seq<Region>, page: nat): seq<Region> { Filter(blocks, (b: Region) => b.page == page) }

  /** The pages in the order they are first seen, each once. */
  function DistinctPages(blocks: seq<Region>): seq<nat> {
    if blocks == [] then []
    else
      var before, page := DistinctPages(blocks[..|blocks| - 1]), blocks[|blocks| - 1].page;
      if page in before then before else before + [page]
  }

  predicate PageAtMost(p: nat, q: nat) { p <= q }

  function SortedPages(blocks: seq<Region>): seq<nat> { StableSort(DistinctPages(blocks), PageAtMost) }

  /** The blocks of the listed pages, page after page. */
  function ReadPages(blocks: seq<Region>, pages: seq<nat>): seq<Region> {
    if pages == [] then []
    else ReadPages(blocks, pages[..|pages| - 1]) + OrderPage(OnSamePage(blocks, pages[|pages| - 1]))
  }

  function ReadingOrder(blocks: seq<Block>): seq<Region> {
    ReadPages(UsableBlocks(blocks), SortedPages(UsableBlocks(blocks)))
  }

  ghost predicate NoRepeats<T>(xs: seq<T>) { forall i, j :: 0 <= i < j < |xs| ==> xs[i] != xs[j] }

  lemma {:induction false} PagesAreDistinct(blocks: seq<Region>)
    ensures NoRepeats(DistinctPages(blocks))
    ensures forall p :: p in DistinctPages(blocks) <==> HasPage(blocks, p)
  {
    if blocks != [] {
      var init := blocks[..|blocks| - 1];
      PagesAreDistinct(init);
      assert blocks == init + [blocks[|blocks| - 1]];
      forall p ensures HasPage(blocks, p) <==> HasPage(init, p) || blocks[|blocks| - 1].page == p {
        HasPageLast(blocks, p);
      }
    }
  }

  predicate HasPage(blocks: seq<Region>, p: nat) { exists i :: 0 <= i < |blocks| && blocks[i].page == p }

  lemma HasPageLast(blocks: seq<Region>, p: nat)
    requires blocks != []
    ensures HasPage(blocks, p) <==> HasPage(blocks[..|blocks| - 1], p) || blocks[|blocks| - 1].page == p
  {
    var init := blocks[..|blocks| - 1];
    if i :| 0 <= i < |init| && init[i].page == p { assert blocks[i].page == p; }
  }

  lemma {:induction false} NoRepeatsCounts<T>(xs: seq<T>, x: T)
    requires NoRepeats(xs)
    ensures multiset(xs)[x] == if x in xs then 1 else 0
  {
    if xs != [] {
      var init := xs[..|xs| - 1];
      assert xs == init + [xs[|xs| - 1]];
      NoRepeatsCounts(init, x);
      assert forall i :: 0 <= i < |init| ==> init[i] == xs[i];
    }
  }

  /** Sorting the distinct pages puts them in strictly ascending order. */
  lemma PagesAscend(blocks: seq<Region>)
    ensures forall i, j :: 0 <= i < j < |SortedPages(blocks)| ==> SortedPages(blocks)[i] < SortedPages(blocks)[j]
    ensures forall p :: p in SortedPages(blocks) <==> HasPage(blocks, p)
  {
    var distinct, sorted := DistinctPages(blocks), SortedPages(blocks);
    PagesAreDistinct(blocks);
    assert TotalPreorder<nat>(PageAtMost);
    SortIsOrderedPermutation(distinct, PageAtMost);
    hide StableSort;
    forall p ensures p in sorted <==> p in distinct { assert p in multiset(sorted) <==> p in multiset(distinct); }
    forall i, j | 0 <= i < j < |sorted| ensures sorted[i] < sorted[j] {
      assert PageAtMost(sorted[i], sorted[j]);
      NoRepeatsCounts(distinct, sorted[i]);
      if sorted[i] == sorted[j] { TwoOccurrences(sorted, i, j); }
    }
  }

  lemma TwoOccurrences(xs: seq<nat>, i: nat, j: nat)
    requires i < j < |xs| && xs[i] == xs[j]
    ensures multiset(xs)[xs[i]] >= 2
  {
    assert xs == xs[..j] + [xs[j]] + xs[j + 1..];
    assert xs[i] in xs[..j];
    assert xs[i] in multiset(xs[..j]);
  }

  lemma {:induction false} ReadPagesCounts(blocks: seq<Region>, pages: seq<nat>, x: Region)
    requires NoRepeats(pages) && forall b: Region :: b in blocks ==> OnPage(b)
    ensures multiset(ReadPages(blocks, pages))[x] == if x.page in pages then multiset(blocks)[x] else 0
  {
    if pages != [] {
      var init, p := pages[..|pages| - 1], pages[|pages| - 1];
      assert forall i :: 0 <= i < |init| ==> init[i] == pages[i];
      assert pages == init + [p];
      ReadPagesCounts(blocks, init, x);
      var onPage := OnSamePage(blocks, p);
      SamePageBlocks(blocks, p);
      PageReadsByColumns(onPage);
      FilterCounts(blocks, (b: Region) => b.page == p, x);
      hide OrderPage;
      hide Filter;
      assert ReadPages(blocks, pages) == ReadPages(blocks, init) + OrderPage(onPage);
    }
  }

  lemma SamePageBlocks(blocks: seq<Region>, p: nat)
    requires forall b: Region :: b in blocks ==> OnPage(b)
    ensures forall b: Region :: b in OnSamePage(blocks, p) ==> b.page == p && OnPage(b)
  {
    FilterElements(blocks, (b: Region) => b.page == p);
  }

  /** Page by page, and by columns within a page. */
  predicate InReadingOrder(a: Region, b: Region, blocks: seq<Region>) {
    a.page < b.page || (a.page == b.page && InColumnOrder(a, b, Gutter(OnSamePage(blocks, a.page))))
  }

  ghost predicate Ascending(pages: seq<nat>) { forall i, j :: 0 <= i < j < |pages| ==> pages[i] < pages[j] }

  lemma {:induction false} ReadPagesOrdered(blocks: seq<Region>, pages: seq<nat>)
    requires Ascending(pages) && forall b: Region :: b in blocks ==> OnPage(b)
    ensures forall i :: 0 <= i < |ReadPages(blocks, pages)| ==> ReadPages(blocks, pages)[i].page in pages
    ensures forall i, j :: 0 <= i < j < |ReadPages(blocks, pages)| ==>
              InReadingOrder(ReadPages(blocks, pages)[i], ReadPages(blocks, pages)[j], blocks)
  {
    if pages != [] {
      var init, p := pages[..|pages| - 1], pages[|pages| - 1];
      assert forall i :: 0 <= i < |init| ==> init[i] == pages[i];
      ReadPagesOrdered(blocks, init);
      LastPageOrdered(blocks, p);
      var front, last := ReadPages(blocks, init), OrderPage(OnSamePage(blocks, p));
      assert ReadPages(blocks, pages) == front + last;
      assert forall i :: 0 <= i < |front| ==> front[i].page in init;
      hide *;
      BothOrdered(blocks, front, last, init, p);
    }
  }

  lemma LastPageOrdered(blocks: seq<Region>, p: nat)
    requires forall b: Region :: b in blocks ==> OnPage(b)
    ensures forall i :: 0 <= i < |OrderPage(OnSamePage(blocks, p))| ==> OrderPage(OnSamePage(blocks, p))[i].page == p
    ensures forall i, j :: 0 <= i < j < |OrderPage(OnSamePage(blocks, p))| ==>
      InReadingOrder(OrderPage(OnSamePage(blocks, p))[i], OrderPage(OnSamePage(blocks, p))[j], blocks)
  {
    var onPage := OnSamePage(blocks, p);
    SamePageBlocks(blocks, p);
    PageReadsByColumns(onPage);
    hide OrderPage;
    hide InColumnOrder;
    hide Gutter;
    hide OnSamePage;
    var last := OrderPage(onPage);
    forall i | 0 <= i < |last| ensures last[i].page == p { assert last[i] in multiset(last); }
  }

  lemma BothOrdered(blocks: seq<Region>, front: seq<Region>, last: seq<Region>, init: seq<nat>, p: nat)
    requires Ascending(init + [p])
    requires forall i :: 0 <= i < |front| ==> front[i].page in init
    requires forall i :: 0 <= i < |last| ==> last[i].page == p
    requires forall i, j :: 0 <= i < j < |front| ==> InReadingOrder(front[i], front[j], blocks)
    requires forall i, j :: 0 <= i < j < |last| ==> InReadingOrder(last[i], last[j], blocks)
    ensures forall i :: 0 <= i < |front + last| ==> (front + last)[i].page in init + [p]
    ensures forall i, j :: 0 <= i < j < |front + last| ==> InReadingOrder((front + last)[i], (front + last)[j], blocks)
  {
    forall i, j | 0 <= i < j < |front + last| ensures InReadingOrder((front + last)[i], (front + last)[j], blocks) {
      if i < |front| <= j {
        var k :| 0 <= k < |init| && init[k] == front[i].page;
        assert (init + [p])[k] < (init + [p])[|init|];
      }
    }
  }

  /** How many blocks of the document have this page, this box and this text, which is not blank. */
  function Occurrences(blocks: seq<Block>, r: Region): nat {
    if blocks == [] then 0
    else
      var last := blocks[|blocks| - 1];
      Occurrences(blocks[..|blocks| - 1], r)
      + (if last.page == r.page && last.bbox == Some(r.bbox) && last.content == r.content && Trim(r.content) != ""
         then 1 else 0)
  }

  lemma {:induction false} UsableCounts(blocks: seq<Block>, r: Region)
    ensures multiset(UsableBlocks(blocks))[r] == Occurrences(blocks, r)
  {
    if blocks != [] {
      hide Trim;
      UsableCounts(blocks[..|blocks| - 1], r);
    }
  }

  /** Every usable block is read exactly once; pages ascend, and each page reads column by column, top to bottom. */
  lemma EveryBlockOnceInOrder(blocks: seq<Block>)
    requires forall b: Region :: b in UsableBlocks(blocks) ==> OnPage(b)
    ensures forall r: Region :: multiset(ReadingOrder(blocks))[r] == Occurrences(blocks, r)
    ensures forall i, j :: 0 <= i < j < |ReadingOrder(blocks)| ==>
              InReadingOrder(ReadingOrder(blocks)[i], ReadingOrder(blocks)[j], UsableBlocks(blocks))
  {
    var usable := UsableBlocks(blocks);
    var pages := SortedPages(usable);
    PagesAscend(usable);
    hide *;
    ReadingOrderIs(blocks);
    IsAscending(pages);
    ReadPagesOrdered(usable, pages);
    forall x: Region ensures multiset(ReadPages(usable, pages))[x] == Occurrences(blocks, x) {
      ReadPagesCounts(usable, pages, x);
      PageOf(usable, x);
      UsableCounts(blocks, x);
    }
  }

  lemma ReadingOrderIs(blocks: seq<Block>)
    ensures ReadingOrder(blocks) == ReadPages(UsableBlocks(blocks), SortedPages(UsableBlocks(blocks)))
  {
  }

  lemma IsAscending(pages: seq<nat>)
    requires forall i, j :: 0 <= i < j < |pages| ==> pages[i] < pages[j]
    ensures Ascending(pages) && NoRepeats(pages)
  {
  }

  lemma PageOf(blocks: seq<Region>, x: Region)
    ensures !HasPage(blocks, x.page) ==> multiset(blocks)[x] == 0
  {
    if multiset(blocks)[x] > 0 {
      assert x in blocks;
      var i :| 0 <= i < |blocks| && blocks[i] == x;
      assert HasPage(blocks, x.page);
    }
  }

  // ---- the text -----------------------------------------------------------------------------------------

  function JoinWith(parts: seq<string>, separator: string): string {
    if parts == [] then ""
    else if |parts| == 1 then parts[0]
    else JoinWith(parts[..|parts| - 1], separator) + separator + parts[|parts| - 1]
  }

  function PageText(blocks: seq<Region>): string { JoinWith(Texts(OrderPage(blocks)), "\n") }

  function Texts(blocks: seq<Region>): (texts: seq<string>)
    ensures |texts| == |blocks| && forall i :: 0 <= i < |blocks| ==> texts[i] == Trim(blocks[i].content)
  {
    seq(|blocks|, i requires 0 <= i < |blocks| => Trim(blocks[i].content))
  }

  function PageTexts(blocks: seq<Region>, pages: seq<nat>): (texts: seq<string>)
    ensures |texts| == |pages| && forall i :: 0 <= i < |pages| ==> texts[i] == PageText(OnSamePage(blocks, pages[i]))
  {
    seq(|pages|, i requires 0 <= i < |pages| => PageText(OnSamePage(blocks, pages[i])))
  }

  /** The text handed to the model: empty when no block has both a box and text. */
  function ReconstructReadingOrder(blocks: seq<Block>): string {
    var usable := UsableBlocks(blocks);
    if usable == [] then "" else Trim(JoinWith(PageTexts(usable, SortedPages(usable)), "\n\n"))
  }

  predicate NonBlank(s: string) { s != "" && Trimmed(s) }

  lemma {:induction false} JoinedNonBlank(parts: seq<string>, separator: string)
    requires parts != [] && forall i :: 0 <= i < |parts| ==> NonBlank(parts[i])
    ensures NonBlank(JoinWith(parts, separator))
  {
    if |parts| > 1 { JoinedNonBlank(parts[..|parts| - 1], separator); }
  }

  lemma TrimmedTexts(blocks: seq<Region>)
    requires forall b: Region :: b in blocks ==> Trim(b.content) != ""
    ensures forall i :: 0 <= i < |blocks| ==> NonBlank(Texts(blocks)[i])
  {
    forall i | 0 <= i < |blocks| ensures NonBlank(Texts(blocks)[i]) {
      assert blocks[i] in blocks;
      TrimStartOnce(blocks[i].content);
      TrimEndOnce(TrimStart(blocks[i].content));
    }
  }

  lemma {:induction false} UsableHaveText(blocks: seq<Block>)
    ensures forall b: Region :: b in UsableBlocks(blocks) ==> Trim(b.content) != ""
  {
    if blocks != [] {
      hide Trim;
      UsableHaveText(blocks[..|blocks| - 1]);
    }
  }

  lemma PageTextNonBlank(usable: seq<Region>, p: nat)
    requires HasPage(usable, p) && forall b: Region :: b in usable ==> Trim(b.content) != ""
    ensures NonBlank(PageText(OnSamePage(usable, p)))
  {
    hide Trim;
    hide JoinWith;
    hide NonBlank;
    var onPage := OnSamePage(usable, p);
    FilterElements(usable, (b: Region) => b.page == p);
    hide Filter;
    var i :| 0 <= i < |usable| && usable[i].page == p;
    assert usable[i] in onPage;
    RankIsOrder(Gutter(onPage));
    SortIsOrderedPermutation(onPage, ByRank(Gutter(onPage)));
    hide StableSort;
    hide Gutter;
    var order := OrderPage(onPage);
    forall b: Region | b in order ensures Trim(b.content) != "" { assert b in multiset(order); }
    assert usable[i] in multiset(onPage);
    assert usable[i] in multiset(order);
    TrimmedTexts(order);
    JoinedNonBlank(Texts(order), "\n");
  }

  // ---- what the text is -----------------------------------------------------------------------------

  /** Blocks read one after another: a new line for each, and a blank line before the first of another page. */
  function Transcript(order: seq<Region>): string {
    if order == [] then ""
    else if |order| == 1 then Trim(order[0].content)
    else
      var init, last := order[..|order| - 1], order[|order| - 1];
      Transcript(init) + (if init[|init| - 1].page == last.page then "\n" else "\n\n") + Trim(last.content)
  }

  lemma TranscriptOfOne(last: Region)
    ensures Transcript([last]) == Trim(last.content) && Texts([last]) == [Trim(last.content)]
  {
  }

  lemma TranscriptUnfolds(init: seq<Region>, last: Region)
    requires init != []
    ensures Transcript(init + [last])
         == Transcript(init) + (if init[|init| - 1].page == last.page then "\n" else "\n\n") + Trim(last.content)
  {
    hide Trim;
    var order := init + [last];
    assert order[..|order| - 1] == init && order[|order| - 1] == last && |order| > 1;
  }

  lemma JoinOfOne(last: string, separator: string)
    ensures JoinWith([last], separator) == last
  {
  }

  lemma JoinUnfolds(init: seq<string>, last: string, separator: string)
    requires init != []
    ensures JoinWith(init + [last], separator) == JoinWith(init, separator) + separator + last
  {
    assert (init + [last])[..|init|] == init;
  }

  lemma TextsUnfold(init: seq<Region>, last: Region)
    ensures Texts(init + [last]) == Texts(init) + [Trim(last.content)]
  {
  }

  lemma {:induction false} TranscriptOfPage(blocks: seq<Region>, p: nat)
    requires blocks != [] && forall b: Region :: b in blocks ==> b.page == p
    ensures Transcript(blocks) == JoinWith(Texts(blocks), "\n")
  {
    hide *;
    var init, last := blocks[..|blocks| - 1], blocks[|blocks| - 1];
    assert blocks == init + [last];
    if init != [] {
      TextsUnfold(init, last);
      TranscriptUnfolds(init, last);
      JoinUnfolds(Texts(init), Trim(last.content), "\n");
      assert init[|init| - 1] in blocks && last in blocks;
      TranscriptOfPage(init, p);
    } else {
      assert blocks == [last];
      TranscriptOfOne(last);
      JoinOfOne(Trim(last.content), "\n");
    }
  }

  lemma {:induction false} TranscriptOfBoth(front: seq<Region>, blocks: seq<Region>, p: nat)
    requires front != [] && front[|front| - 1].page != p
    requires blocks != [] && forall b: Region :: b in blocks ==> b.page == p
    ensures Transcript(front + blocks) == Transcript(front) + "\n\n" + Transcript(blocks)
  {
    hide *;
    var init, last := blocks[..|blocks| - 1], blocks[|blocks| - 1];
    assert blocks == init + [last];
    assert last in blocks;
    if init != [] {
      TranscriptUnfolds(init, last);
      assert front + blocks == (front + init) + [last];
      assert init[|init| - 1] in blocks && (front + init)[|front + init| - 1] == init[|init| - 1];
      TranscriptUnfolds(front + init, last);
      TranscriptOfBoth(front, init, p);
      Regroup(Transcript(front) + "\n\n", Transcript(init), "\n", Trim(last.content));
    } else {
      assert blocks == [last];
      TranscriptUnfolds(front, last);
      TranscriptOfOne(last);
    }
  }

  lemma Regroup(a: string, b: string, c: string, d: string)
    ensures a + b + c + d == a + (b + c + d)
  {
  }

  lemma OrderedPage(usable: seq<Region>, p: nat)
    requires HasPage(usable, p)
    ensures OrderPage(OnSamePage(usable, p)) != []
    ensures forall b: Region :: b in OrderPage(OnSamePage(usable, p)) ==> b.page == p
  {
    var onPage := OnSamePage(usable, p);
    FilterElements(usable, (b: Region) => b.page == p);
    hide Filter;
    var i :| 0 <= i < |usable| && usable[i].page == p;
    assert usable[i] in onPage;
    RankIsOrder(Gutter(onPage));
    SortIsOrderedPermutation(onPage, ByRank(Gutter(onPage)));
    hide StableSort;
    hide Gutter;
    var order := OrderPage(onPage);
    assert usable[i] in multiset(order);
    forall b: Region | b in order ensures b.page == p {
      assert b in multiset(order);
      assert b in multiset(onPage);
      assert b in onPage;
    }
  }

  lemma ReadPagesUnfolds(usable: seq<Region>, pages: seq<nat>, p: nat)
    ensures ReadPages(usable, []) == []
    ensures ReadPages(usable, pages + [p]) == ReadPages(usable, pages) + OrderPage(OnSamePage(usable, p))
    ensures PageTexts(usable, pages + [p])
         == PageTexts(usable, pages) + [LastText(usable, p)]
  {
    hide OrderPage;
    assert (pages + [p])[..|pages|] == pages;
  }

  lemma {:induction false} TranscriptOfPages(usable: seq<Region>, pages: seq<nat>)
    requires pages != [] && NoRepeats(pages) && forall p :: p in pages ==> HasPage(usable, p)
    ensures ReadPages(usable, pages) != []
    ensures ReadPages(usable, pages)[|ReadPages(usable, pages)| - 1].page == pages[|pages| - 1]
    ensures JoinWith(PageTexts(usable, pages), "\n\n") == Transcript(ReadPages(usable, pages))
  {
    var init, p := pages[..|pages| - 1], pages[|pages| - 1];
    hide *;
    WithoutLast(pages);
    ReadPagesUnfolds(usable, init, p);
    var front, last, text := ReadPages(usable, init), OrderPage(OnSamePage(usable, p)), LastText(usable, p);
    OnePage(usable, p);
    LastOfBoth(front, last);
    if init != [] {
      forall q | q in init ensures HasPage(usable, q) { assert q in pages; }
      TranscriptOfPages(usable, init);
      JoinUnfolds(PageTexts(usable, init), text, "\n\n");
      TranscriptOfBoth(front, last, p);
    } else {
      NoPages(usable);
      assert front + last == last && PageTexts(usable, init) + [text] == [text];
      JoinOfOne(text, "\n\n");
    }
  }

  function LastText(usable: seq<Region>, p: nat): string {
    JoinWith(Texts(OrderPage(OnSamePage(usable, p))), "\n")
  }

  lemma OnePage(usable: seq<Region>, p: nat)
    requires HasPage(usable, p)
    ensures var last := OrderPage(OnSamePage(usable, p));
            && last != [] && (forall b: Region :: b in last ==> b.page == p) && last[|last| - 1].page == p
            && Transcript(last) == LastText(usable, p)
  {
    var last := OrderPage(OnSamePage(usable, p));
    OrderedPage(usable, p);
    hide OrderPage;
    hide JoinWith;
    hide Transcript;
    TranscriptOfPage(last, p);
    assert last[|last| - 1] in last;
  }

  lemma NoPages(usable: seq<Region>)
    ensures PageTexts(usable, []) == [] && ReadPages(usable, []) == []
  {
  }

  lemma LastOfBoth(front: seq<Region>, last: seq<Region>)
    requires last != []
    ensures front + last != [] && (front + last)[|front + last| - 1] == last[|last| - 1]
  {
  }

  lemma WithoutLast(pages: seq<nat>)
    requires pages != [] && NoRepeats(pages)
    ensures pages == pages[..|pages| - 1] + [pages[|pages| - 1]] && pages[|pages| - 1] in pages
    ensures NoRepeats(pages[..|pages| - 1])
    ensures |pages| > 1 ==> pages[..|pages| - 1][|pages| - 2] != pages[|pages| - 1]
  {
  }

  /** The text handed to the model is the transcript of the reading order. */
  lemma TextIsTheTranscript(blocks: seq<Block>)
    ensures ReconstructReadingOrder(blocks) == Transcript(ReadingOrder(blocks))
  {
    var usable := UsableBlocks(blocks);
    var pages := SortedPages(usable);
    if usable == [] {
      NothingToRead(blocks);
    } else {
      assert HasPage(usable, usable[0].page);
      PagesAscend(usable);
      hide *;
      assert pages != [];
      IsAscending(pages);
      TranscriptOfPages(usable, pages);
      ReadingOrderIs(blocks);
      UsableHaveText(blocks);
      forall i | 0 <= i < |pages| ensures NonBlank(PageTexts(usable, pages)[i]) {
        assert pages[i] in pages;
        PageTextNonBlank(usable, pages[i]);
      }
      JoinedNonBlank(PageTexts(usable, pages), "\n\n");
      ReconstructIs(blocks);
    }
  }

  lemma NothingToRead(blocks: seq<Block>)
    requires UsableBlocks(blocks) == []
    ensures ReadingOrder(blocks) == [] && ReconstructReadingOrder(blocks) == "" && Transcript([]) == ""
  {
    assert SortedPages([]) == [];
  }

  /** The caller falls back to the provider's own text exactly when there is no usable geometry. */
  lemma EmptyIffNothingUsable(blocks: seq<Block>)
    ensures ReconstructReadingOrder(blocks) == ""
       <==> forall i :: 0 <= i < |blocks| ==> blocks[i].bbox.None? || Trim(blocks[i].content) == ""
  {
    UsableIffAny(blocks);
    assert forall i :: 0 <= i < |blocks| ==>
        (Usable(blocks[i]) <==> blocks[i].bbox.Some? && Trim(blocks[i].content) != "");
    var usable := UsableBlocks(blocks);
    if usable != [] {
      var pages := SortedPages(usable);
      UsableHaveText(blocks);
      PagesAscend(usable);
      assert HasPage(usable, usable[0].page);
      hide *;
      forall i | 0 <= i < |pages| ensures NonBlank(PageTexts(usable, pages)[i]) {
        assert pages[i] in pages;
        PageTextNonBlank(usable, pages[i]);
      }
      JoinedNonBlank(PageTexts(usable, pages), "\n\n");
      ReconstructIs(blocks);
    }
  }

  lemma ReconstructIs(blocks: seq<Block>)
    requires UsableBlocks(blocks) != []
    requires NonBlank(JoinWith(PageTexts(UsableBlocks(blocks), SortedPages(UsableBlocks(blocks))), "\n\n"))
    ensures ReconstructReadingOrder(blocks) != ""
    ensures ReconstructReadingOrder(blocks)
         == JoinWith(PageTexts(UsableBlocks(blocks), SortedPages(UsableBlocks(blocks))), "\n\n")
  {
    hide JoinWith;
    hide SortedPages;
    hide PageTexts;
    TrimKeeps(JoinWith(PageTexts(UsableBlocks(blocks), SortedPages(UsableBlocks(blocks))), "\n\n"));
  }

  lemma {:induction false} UsableIffAny(blocks: seq<Block>)
    ensures UsableBlocks(blocks) == [] <==> forall i :: 0 <= i < |blocks| ==> !Usable(blocks[i])
  {
    if blocks != [] {
      hide Usable;
      var init := blocks[..|blocks| - 1];
      UsableIffAny(init);
      assert forall i :: 0 <= i < |init| ==> init[i] == blocks[i];
    }
  }
}
