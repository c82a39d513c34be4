/** Mapping the upstream layout responses of a document's chunks into one document. */
module GlmMapper {
  import opened Lists
  import opened Options
  import opened Text

  datatype BlockLabel = ImageBlock | TextBlock | FormulaBlock | TableBlock

  type Box = (real, real, real, real)

  datatype Detail = Detail(labelText: string, bbox: Box, content: Option<string>)

  datatype Dimensions = Dimensions(width: nat, height: nat)

  /** One chunk's answer; every part of it may be missing. */
  datatype Response = Response(
    mdResults: Option<string>, layoutDetails: Option<seq<Option<seq<Detail>>>>, dims: Option<seq<Dimensions>>,
        totalTokens: Option<nat>)

  datatype Block = Block(index: nat, page: nat, kind: BlockLabel, bbox: Box, content: string)

  datatype Page = Page(page: nat, markdown: string, size: Option<Dimensions>)

  datatype Document = Document(markdown: string, pages: seq<Page>, blocks: seq<Block>, tokensUsed: nat)

  /** Unknown labels degrade to images. */
  function ToBlockLabel(labelText: string): BlockLabel {
    match labelText
    case "text" => TextBlock
    case "formula" => FormulaBlock
    case "table" => TableBlock
    case _ => ImageBlock
  }

  function OrElse<T>(value: Option<T>, default: T): T { if value.Some? then value.value else default }

  // ---- one response -------------------------------------------------------------------------------

  function Details(r: Response): seq<Option<seq<Detail>>> { OrElse(r.layoutDetails, []) }

  function MaxOf(a: nat, b: nat): nat { if a < b then b else a }

  /** At least one page, and enough for every size and every list of details. */
  function PageCount(r: Response): (n: nat)
    ensures n >= 1 && n >= |Details(r)|
  {
    MaxOf(MaxOf(|OrElse(r.dims, [])|, |Details(r)|), 1)
  }

  function MakeBlock(d: Detail, index: nat, page: nat): Block {
    Block(index, page, ToBlockLabel(d.labelText), d.bbox, OrElse(d.content, ""))
  }

  /** The blocks of one page's details, counted on from `start`. */
  function PageBlocks(details: seq<Detail>, start: nat, page: nat): (blocks: seq<Block>)
    ensures |blocks| == |details|
    ensures forall i :: 0 <= i < |blocks| ==> blocks[i] == MakeBlock(details[i], start + i, page)
  {
    seq(|details|, i requires 0 <= i < |details| => MakeBlock(details[i], start + i, page))
  }

  /** The blocks of the pages' details, page by page, counted through. */
  function ListBlocks(pages: seq<Option<seq<Detail>>>, offset: nat): seq<Block> {
    if pages == [] then []
    else
      var before := ListBlocks(pages[..|pages| - 1], offset);
      before + PageBlocks(OrElse(pages[|pages| - 1], []), |before|, offset + |pages|)
  }

  function BlocksOf(r: Response, offset: nat): seq<Block> { ListBlocks(Details(r), offset) }

  method ToBlocks(r: Response, pageOffset: nat) returns (blocks: seq<Block>)
    ensures blocks == BlocksOf(r, pageOffset)
  {
    hide *;
    var pages := Details(r);
    NoBlocks(r, pageOffset);
    blocks := [];
    var index := 0;
    for pageIndex := 0 to |pages|
      invariant blocks == ListBlocks(pages[..pageIndex], pageOffset) && index == |blocks|
    {
      var page := pageOffset + pageIndex + 1;
      var details := OrElse(pages[pageIndex], []);
      ghost var before := blocks;
      for j := 0 to |details|
        invariant index == |before| + j
        invariant blocks == before + PageBlocks(details[..j], |before|, page)
      {
        PageBlocksNext(details, j, |before|, page);
        blocks := blocks + [MakeBlock(details[j], index, page)];
        index := index + 1;
      }
      assert details[..|details|] == details;
      ListBlocksNext(pages, pageIndex, pageOffset);
    }
    assert pages[..|pages|] == pages;
  }

  lemma NoBlocks(r: Response, offset: nat)
    ensures ListBlocks(Details(r)[..0], offset) == []
    ensures BlocksOf(r, offset) == ListBlocks(Details(r), offset)
  {
  }

  lemma PageBlocksNext(details: seq<Detail>, j: nat, start: nat, page: nat)
    requires j < |details|
    ensures PageBlocks(details[..j + 1], start, page)
         == PageBlocks(details[..j], start, page) + [MakeBlock(details[j], start + j, page)]
  {
    hide MakeBlock;
  }

  lemma ListBlocksNext(pages: seq<Option<seq<Detail>>>, i: nat, offset: nat)
    requires i < |pages|
    ensures ListBlocks(pages[..i + 1], offset)
         == ListBlocks(pages[..i], offset)
             + PageBlocks(OrElse(pages[i], []), |ListBlocks(pages[..i], offset)|, offset + i + 1)
  {
    hide PageBlocks;
    assert pages[..i + 1][..i] == pages[..i];
  }

  function MakePage(r: Response, offset: nat, i: nat): Page {
    var dims := OrElse(r.dims, []);
    Page(offset + i + 1, if i == 0 then Trim(OrElse(r.mdResults, "")) else "",
         if i < |dims| then Some(dims[i]) else None)
  }

  function PagesOf(r: Response, offset: nat): (pages: seq<Page>)
    ensures |pages| == PageCount(r)
    ensures forall i :: 0 <= i < |pages| ==> pages[i] == MakePage(r, offset, i)
  {
    seq(PageCount(r), i requires 0 <= i < PageCount(r) => MakePage(r, offset, i))
  }

  method ToPages(r: Response, pageOffset: nat) returns (pages: seq<Page>)
    ensures pages == PagesOf(r, pageOffset)
  {
    var dims := OrElse(r.dims, []);
    var markdown := Trim(OrElse(r.mdResults, ""));
    pages := [];
    for i := 0 to PageCount(r)
      invariant |pages| == i
      invariant forall k :: 0 <= k < i ==> pages[k] == MakePage(r, pageOffset, k)
    {
      pages := pages + [Page(pageOffset + i + 1, if i == 0 then markdown else "",
                             if i < |dims| then Some(dims[i]) else None)];
    }
  }

  // ---- all responses ----------------------------------------------------------------------------------

  function AllPages(rs: seq<Response>): seq<Page> {
    if rs == [] then []
    else
      var before := AllPages(rs[..|rs| - 1]);
      before + PagesOf(rs[|rs| - 1], |before|)
  }

  function AllBlocks(rs: seq<Response>): seq<Block> {
    if rs == [] then []
    else AllBlocks(rs[..|rs| - 1]) + BlocksOf(rs[|rs| - 1], |AllPages(rs[..|rs| - 1])|)
  }

  function AllTokens(rs: seq<Response>): nat {
    if rs == [] then 0 else AllTokens(rs[..|rs| - 1]) + OrElse(rs[|rs| - 1].totalTokens, 0)
  }

  function Reindexed(blocks: seq<Block>): (result: seq<Block>)
    ensures |result| == |blocks|
    ensures forall i :: 0 <= i < |blocks| ==> result[i] == blocks[i].(index := i)
  {
    seq(|blocks|, i requires 0 <= i < |blocks| => blocks[i].(index := i))
  }

  /** The pages' texts that are not empty, a blank line between each two. */
  function JoinMarkdown(pages: seq<Page>): string {
    if pages == [] then ""
    else
      var before, last := JoinMarkdown(pages[..|pages| - 1]), pages[|pages| - 1].markdown;
      if last == "" then before else if before == "" then last else before + "\n\n" + last
  }

  function Mapped(rs: seq<Response>): Document {
    Document(Trim(JoinMarkdown(AllPages(rs))), AllPages(rs), Reindexed(AllBlocks(rs)), AllTokens(rs))
  }

  method MapLayoutParsing(rs: seq<Response>) returns (doc: Document)
    ensures doc == Mapped(rs)
  {
    hide BlocksOf;
    hide MakePage;
    var pages: seq<Page> := [];
    var blocks: seq<Block> := [];
    var pageOffset := 0;
    var tokensUsed := 0;
    for i := 0 to |rs|
      invariant pages == AllPages(rs[..i]) && blocks == AllBlocks(rs[..i]) && pageOffset == |pages|
      invariant tokensUsed == AllTokens(rs[..i])
    {
      assert rs[..i + 1][..i] == rs[..i];
      var responsePages := ToPages(rs[i], pageOffset);
      var responseBlocks := ToBlocks(rs[i], pageOffset);
      blocks := blocks + responseBlocks;
      pages := pages + responsePages;
      pageOffset := pageOffset + |responsePages|;
      tokensUsed := tokensUsed + OrElse(rs[i].totalTokens, 0);
    }
    assert rs[..|rs|] == rs;
    for i := 0 to |blocks|
      invariant |blocks| == |AllBlocks(rs)|
      invariant forall k :: 0 <= k < i ==> blocks[k] == AllBlocks(rs)[k].(index := k)
      invariant forall k :: i <= k < |blocks| ==> blocks[k] == AllBlocks(rs)[k]
    {
      blocks := blocks[i := blocks[i].(index := i)];
    }
    assert blocks == Reindexed(AllBlocks(rs));
    doc := Document(Trim(JoinMarkdown(pages)), pages, blocks, tokensUsed);
  }

  // ---- numbering -----------------------------------------------------------------------------------------

  /** Pages are numbered from 1 without gaps, at least one for every response. */
  lemma {:induction false} PagesAreNumbered(rs: seq<Response>)
    ensures |AllPages(rs)| >= |rs|
    ensures forall i :: 0 <= i < |AllPages(rs)| ==> AllPages(rs)[i].page == i + 1
  {
    if rs != [] { PagesAreNumbered(rs[..|rs| - 1]); }
  }

  /** Block pages never go back, and lie between two bounds. */
  predicate Ascending(blocks: seq<Block>, low: nat, high: nat) {
    && (forall i :: 0 <= i < |blocks| ==> low < blocks[i].page <= high)
    && (forall i, j :: 0 <= i < j < |blocks| ==> blocks[i].page <= blocks[j].page)
  }

  lemma {:induction false} ListBlocksAscend(pages: seq<Option<seq<Detail>>>, offset: nat)
    ensures Ascending(ListBlocks(pages, offset), offset, offset + |pages|)
  {
    if pages != [] {
      ListBlocksAscend(pages[..|pages| - 1], offset);
      AscendingConcat(ListBlocks(pages[..|pages| - 1], offset), offset, offset + |pages| - 1,
                      PageBlocks(OrElse(pages[|pages| - 1], []), |ListBlocks(pages[..|pages| - 1], offset)|,
                          offset + |pages|), offset + |pages|);
    }
  }

  lemma AscendingConcat(xs: seq<Block>, low: nat, middle: nat, ys: seq<Block>, high: nat)
    requires Ascending(xs, low, middle) && Ascending(ys, middle, high) && low <= middle <= high
    ensures Ascending(xs + ys, low, high)
  {
  }

  lemma AscendingWider(xs: seq<Block>, low: nat, middle: nat, high: nat)
    requires Ascending(xs, low, middle) && middle <= high
    ensures Ascending(xs, low, high)
  {
  }

  /** Blocks come in page order and lie on the document's pages. */
  lemma {:induction false} BlocksAscend(rs: seq<Response>)
    ensures Ascending(AllBlocks(rs), 0, |AllPages(rs)|)
  {
    if rs != [] {
      var init, last := rs[..|rs| - 1], rs[|rs| - 1];
      var offset := |AllPages(init)|;
      BlocksAscend(init);
      ListBlocksAscend(Details(last), offset);
      hide Ascending;
      AscendingWider(BlocksOf(last, offset), offset, offset + |Details(last)|, |AllPages(rs)|);
      AscendingConcat(AllBlocks(init), 0, offset, BlocksOf(last, offset), |AllPages(rs)|);
    }
  }

  /** The mapped document: pages 1 to the page count, block `i` with index `i`, in page order, on existing pages. */
  lemma DocumentIsNumbered(rs: seq<Response>)
    ensures forall i :: 0 <= i < |Mapped(rs).pages| ==> Mapped(rs).pages[i].page == i + 1
    ensures forall i :: 0 <= i < |Mapped(rs).blocks| ==> Mapped(rs).blocks[i].index == i
    ensures var blocks := Mapped(rs).blocks;
            && (forall i :: 0 <= i < |blocks| ==> 1 <= blocks[i].page <= |Mapped(rs).pages|)
            && (forall i, j :: 0 <= i < j < |blocks| ==> blocks[i].page <= blocks[j].page)
  {
    PagesAreNumbered(rs);
    BlocksAscend(rs);
  }

  // ---- what the document carries -------------------------------------------------------------------------

  /** The pages one response stands for: one at least, and one for every size and every list of details. */
  function PagesIn(r: Response): nat {
    var sizes, lists := if r.dims.Some? then |r.dims.value| else 0,
                        if r.layoutDetails.Some? then |r.layoutDetails.value| else 0;
    if sizes >= lists && sizes >= 1 then sizes else if lists >= 1 then lists else 1
  }

  function PagesBefore(rs: seq<Response>): nat {
    if rs == [] then 0 else PagesBefore(rs[..|rs| - 1]) + PagesIn(rs[|rs| - 1])
  }

  /** The details of consecutive pages, each with its page. */
  function OnPages(lists: seq<Option<seq<Detail>>>, offset: nat): seq<(Detail, nat)> {
    if lists == [] then []
    else
      OnPages(lists[..|lists| - 1], offset)
      + (if lists[|lists| - 1].Some? then OnPage(lists[|lists| - 1].value, offset + |lists|) else [])
  }

  function OnPage(details: seq<Detail>, page: nat): (placed: seq<(Detail, nat)>)
    ensures |placed| == |details| && forall i :: 0 <= i < |details| ==> placed[i] == (details[i], page)
  {
    seq(|details|, i requires 0 <= i < |details| => (details[i], page))
  }

  /** Every detail of the responses, in order, with its page in the whole document. */
  function Given(rs: seq<Response>): seq<(Detail, nat)> {
    if rs == [] then []
    else
      var init, last := rs[..|rs| - 1], rs[|rs| - 1];
      Given(init) + (if last.layoutDetails.Some? then OnPages(last.layoutDetails.value, PagesBefore(init)) else [])
  }

  /** The block carries the detail: its box, its text or none, and its label, an image for any unknown one. */
  predicate Carries(b: Block, d: Detail, page: nat) {
    && b.page == page && b.bbox == d.bbox && b.content == (if d.content.Some? then d.content.value else "")
    && (b.kind == TextBlock <==> d.labelText == "text")
    && (b.kind == FormulaBlock <==> d.labelText == "formula")
    && (b.kind == TableBlock <==> d.labelText == "table")
  }

  predicate CarryAll(blocks: seq<Block>, given: seq<(Detail, nat)>) {
    |blocks| == |given| && forall k :: 0 <= k < |blocks| ==> Carries(blocks[k], given[k].0, given[k].1)
  }

  lemma MadeCarries(d: Detail, index: nat, page: nat)
    ensures Carries(MakeBlock(d, index, page), d, page)
  {
  }

  lemma CarryBoth(xs: seq<Block>, ys: seq<Block>, given: seq<(Detail, nat)>, more: seq<(Detail, nat)>)
    requires CarryAll(xs, given) && CarryAll(ys, more)
    ensures CarryAll(xs + ys, given + more)
  {
    hide Carries;
  }

  lemma PageCarries(details: seq<Detail>, start: nat, page: nat)
    ensures CarryAll(PageBlocks(details, start, page), OnPage(details, page))
  {
    forall k | 0 <= k < |details| ensures Carries(PageBlocks(details, start, page)[k], details[k], page) {
      MadeCarries(details[k], start + k, page);
    }
    hide Carries;
    hide MakeBlock;
  }

  lemma {:induction false} ListCarries(lists: seq<Option<seq<Detail>>>, offset: nat)
    ensures CarryAll(ListBlocks(lists, offset), OnPages(lists, offset))
  {
    if lists != [] {
      var init, last := lists[..|lists| - 1], lists[|lists| - 1];
      ListCarries(init, offset);
      var before := ListBlocks(init, offset);
      var details := if last.Some? then last.value else [];
      PageCarries(details, |before|, offset + |lists|);
      CarryBoth(before, PageBlocks(details, |before|, offset + |lists|), OnPages(init, offset),
          OnPage(details, offset + |lists|));
      assert OnPage([], offset + |lists|) == [];
    }
  }

  lemma CountIsPagesIn(r: Response)
    ensures PageCount(r) == PagesIn(r)
  {
  }

  lemma {:induction false} AllPagesCount(rs: seq<Response>)
    ensures |AllPages(rs)| == PagesBefore(rs)
  {
    if rs != [] {
      AllPagesCount(rs[..|rs| - 1]);
      CountIsPagesIn(rs[|rs| - 1]);
    }
  }

  lemma {:induction false} BlocksCarry(rs: seq<Response>)
    ensures CarryAll(AllBlocks(rs), Given(rs))
  {
    if rs != [] {
      var init, last := rs[..|rs| - 1], rs[|rs| - 1];
      BlocksCarry(init);
      AllPagesCount(init);
      var lists := if last.layoutDetails.Some? then last.layoutDetails.value else [];
      ListCarries(lists, |AllPages(init)|);
      CarryBoth(AllBlocks(init), ListBlocks(lists, |AllPages(init)|), Given(init), OnPages(lists, |AllPages(init)|));
      assert OnPages([], |AllPages(init)|) == [];
      hide CarryAll;
      hide AllPages;
      hide ListBlocks;
    }
  }

  /** Every detail becomes one block of the document, in order and on its page, and nothing else does. */
  lemma EveryDetailIsABlock(rs: seq<Response>)
    ensures CarryAll(Mapped(rs).blocks, Given(rs))
  {
    BlocksCarry(rs);
    hide Carries;
    forall k | 0 <= k < |AllBlocks(rs)| ensures Carries(Reindexed(AllBlocks(rs))[k], Given(rs)[k].0, Given(rs)[k].1) {
      IndexIsNotCarried(AllBlocks(rs)[k], k, Given(rs)[k].0, Given(rs)[k].1);
    }
  }

  lemma IndexIsNotCarried(b: Block, index: nat, d: Detail, page: nat)
    requires Carries(b, d, page)
    ensures Carries(b.(index := index), d, page)
  {
  }

  lemma {:induction false} PageOfResponse(rs: seq<Response>, i: nat, k: nat)
    requires i < |rs| && k < PagesIn(rs[i])
    ensures PagesBefore(rs[..i]) + k < |AllPages(rs)|
    ensures AllPages(rs)[PagesBefore(rs[..i]) + k] == MakePage(rs[i], PagesBefore(rs[..i]), k)
  {
    var n := |rs| - 1;
    AllPagesCount(rs[..n]);
    CountIsPagesIn(rs[n]);
    hide MakePage;
    hide PagesIn;
    if i < n {
      PageOfResponse(rs[..n], i, k);
      assert rs[..n][..i] == rs[..i];
    }
  }

  /** A response's markdown, trimmed, stands on its first page alone, and each of its sizes on its own page. */
  lemma PagesCarry(rs: seq<Response>, i: nat, k: nat)
    requires i < |rs| && k < PagesIn(rs[i])
    ensures |Mapped(rs).pages| == PagesBefore(rs) && PagesBefore(rs[..i]) + k < PagesBefore(rs)
    ensures var page, r := Mapped(rs).pages[PagesBefore(rs[..i]) + k], rs[i];
      && (k == 0 ==> page.markdown == if r.mdResults.Some? then Trim(r.mdResults.value) else "")
      && (k > 0 ==> page.markdown == "")
      && page.size == (if r.dims.Some? && k < |r.dims.value| then Some(r.dims.value[k]) else None)
  {
    AllPagesCount(rs);
    PageOfResponse(rs, i, k);
    hide Trim;
    hide AllPages;
    hide PagesBefore;
    NothingToTrim();
  }

  lemma NothingToTrim()
    ensures Trim("") == ""
  {
  }

  /** The tokens of the responses that report any add up. */
  lemma {:induction false} TokensAddUp(rs: seq<Response>, r: Response)
    ensures Mapped([]).tokensUsed == 0
    ensures Mapped(rs + [r]).tokensUsed
         == Mapped(rs).tokensUsed + (if r.totalTokens.Some? then r.totalTokens.value else 0)
  {
    hide JoinMarkdown;
    hide Trim;
    hide AllPages;
    hide AllBlocks;
    assert (rs + [r])[..|rs|] == rs;
  }

  /** The text of a single response is its markdown, trimmed. */
  lemma OneResponseText(r: Response)
    ensures Mapped([]).markdown == ""
    ensures Mapped([r]).markdown == if r.mdResults.Some? then Trim(r.mdResults.value) else ""
  {
    FirstPageText(r);
    NothingToTrim();
    if r.mdResults.Some? { TrimTwice(r.mdResults.value); }
    hide Trim;
    hide PagesOf;
    assert [r][..0] == [];
    assert AllPages([r]) == [] + PagesOf(r, 0);
    assert [] + PagesOf(r, 0) == PagesOf(r, 0);
    hide AllPages;
    hide AllBlocks;
  }

  lemma FirstPageText(r: Response)
    ensures JoinMarkdown(PagesOf(r, 0)) == if r.mdResults.Some? then Trim(r.mdResults.value) else ""
  {
    var pages := PagesOf(r, 0);
    assert forall k :: 1 <= k < |pages| ==> pages[k].markdown == "";
    NothingToTrim();
    hide JoinMarkdown;
    hide Trim;
    OnlyTheFirst(pages, |pages|);
    assert pages[..|pages|] == pages;
  }

  lemma {:induction false} OnlyTheFirst(pages: seq<Page>, n: nat)
    requires 1 <= n <= |pages| && forall k :: 1 <= k < |pages| ==> pages[k].markdown == ""
    ensures JoinMarkdown(pages[..n]) == pages[0].markdown
  {
    assert pages[..n][..n - 1] == pages[..n - 1];
    if n > 1 {
      OnlyTheFirst(pages, n - 1);
    } else {
      assert JoinMarkdown([]) == "" && pages[..0] == [];
    }
  }

  // ---- chunking does not matter -----------------------------------------------------------------------------

  function ShiftPages(pages: seq<Page>, delta: nat): (shifted: seq<Page>)
    ensures |shifted| == |pages|
    ensures forall i :: 0 <= i < |pages| ==> shifted[i] == pages[i].(page := pages[i].page + delta)
  {
    seq(|pages|, i requires 0 <= i < |pages| => pages[i].(page := pages[i].page + delta))
  }

  function ShiftBlocks(blocks: seq<Block>, delta: nat): (shifted: seq<Block>)
    ensures |shifted| == |blocks|
    ensures forall i :: 0 <= i < |blocks| ==> shifted[i] == blocks[i].(page := blocks[i].page + delta)
  {
    seq(|blocks|, i requires 0 <= i < |blocks| => blocks[i].(page := blocks[i].page + delta))
  }

  lemma ShiftPagesAppend(xs: seq<Page>, ys: seq<Page>, delta: nat)
    ensures ShiftPages(xs + ys, delta) == ShiftPages(xs, delta) + ShiftPages(ys, delta)
  {
  }

  lemma ShiftBlocksAppend(xs: seq<Block>, ys: seq<Block>, delta: nat)
    ensures ShiftBlocks(xs + ys, delta) == ShiftBlocks(xs, delta) + ShiftBlocks(ys, delta)
  {
  }

  lemma PagesOfShift(r: Response, offset: nat, delta: nat)
    ensures PagesOf(r, offset + delta) == ShiftPages(PagesOf(r, offset), delta)
  {
  }

  lemma PageBlocksShift(details: seq<Detail>, start: nat, page: nat, delta: nat)
    ensures PageBlocks(details, start, page + delta) == ShiftBlocks(PageBlocks(details, start, page), delta)
  {
  }

  lemma {:induction false} ListBlocksShift(pages: seq<Option<seq<Detail>>>, offset: nat, delta: nat)
    ensures ListBlocks(pages, offset + delta) == ShiftBlocks(ListBlocks(pages, offset), delta)
  {
    if pages != [] {
      var init, last := pages[..|pages| - 1], OrElse(pages[|pages| - 1], []);
      ListBlocksShift(init, offset, delta);
      var before := ListBlocks(init, offset);
      ListBlocksLast(pages, offset);
      ListBlocksLast(pages, offset + delta);
      hide *;
      PageBlocksShift(last, |before|, offset + |pages|, delta);
      ShiftBlocksAppend(before, PageBlocks(last, |before|, offset + |pages|), delta);
    }
  }

  lemma ListBlocksLast(pages: seq<Option<seq<Detail>>>, offset: nat)
    requires pages != []
    ensures ListBlocks(pages, offset)
         == ListBlocks(pages[..|pages| - 1], offset)
          + PageBlocks(OrElse(pages[|pages| - 1], []), |ListBlocks(pages[..|pages| - 1], offset)|, offset + |pages|)
  {
  }

  lemma AllPagesLast(rs: seq<Response>, r: Response)
    ensures AllPages(rs + [r]) == AllPages(rs) + PagesOf(r, |AllPages(rs)|)
    ensures AllBlocks(rs + [r]) == AllBlocks(rs) + BlocksOf(r, |AllPages(rs)|)
  {
    hide PagesOf;
    hide BlocksOf;
    assert (rs + [r])[..|rs|] == rs;
  }

  lemma {:induction false} PagesOfBoth(xs: seq<Response>, ys: seq<Response>)
    ensures AllPages(xs + ys) == AllPages(xs) + ShiftPages(AllPages(ys), |AllPages(xs)|)
    ensures AllBlocks(xs + ys) == AllBlocks(xs) + ShiftBlocks(AllBlocks(ys), |AllPages(xs)|)
  {
    if ys == [] {
      assert xs + ys == xs;
    } else {
      var init, last := ys[..|ys| - 1], ys[|ys| - 1];
      assert ys == init + [last];
      hide *;
      PagesOfBoth(xs, init);
      AllPagesLast(init, last);
      AllPagesLast(xs + init, last);
      AppendAssociative(xs, init, [last]);
      PagesWithOneMore(xs, init, last);
      BlocksWithOneMore(xs, init, last);
    }
  }

  lemma PagesWithOneMore(xs: seq<Response>, init: seq<Response>, last: Response)
    requires AllPages(xs + init) == AllPages(xs) + ShiftPages(AllPages(init), |AllPages(xs)|)
    ensures AllPages(xs + init) + PagesOf(last, |AllPages(xs + init)|)
         == AllPages(xs) + ShiftPages(AllPages(init) + PagesOf(last, |AllPages(init)|), |AllPages(xs)|)
  {
    hide *;
    var a, b := AllPages(xs), AllPages(init);
    PagesOfShift(last, |b|, |a|);
    ShiftPagesAppend(b, PagesOf(last, |b|), |a|);
    AppendAssociative(a, ShiftPages(b, |a|), PagesOf(last, |b| + |a|));
  }

  lemma BlocksOfShift(r: Response, offset: nat, delta: nat)
    ensures BlocksOf(r, offset + delta) == ShiftBlocks(BlocksOf(r, offset), delta)
  {
    ListBlocksShift(Details(r), offset, delta);
  }

  lemma BlocksWithOneMore(xs: seq<Response>, init: seq<Response>, last: Response)
    requires |AllPages(xs + init)| == |AllPages(xs)| + |AllPages(init)|
    requires AllBlocks(xs + init) == AllBlocks(xs) + ShiftBlocks(AllBlocks(init), |AllPages(xs)|)
    ensures AllBlocks(xs + init) + BlocksOf(last, |AllPages(xs + init)|)
         == AllBlocks(xs) + ShiftBlocks(AllBlocks(init) + BlocksOf(last, |AllPages(init)|), |AllPages(xs)|)
  {
    hide *;
    BlocksOfShift(last, |AllPages(init)|, |AllPages(xs)|);
    ShiftBlocksAppend(AllBlocks(init), BlocksOf(last, |AllPages(init)|), |AllPages(xs)|);
    AppendAssociative(AllBlocks(xs), ShiftBlocks(AllBlocks(init), |AllPages(xs)|),
        BlocksOf(last, |AllPages(xs + init)|));
  }

  lemma {:induction false} TokensOfBoth(xs: seq<Response>, ys: seq<Response>)
    ensures AllTokens(xs + ys) == AllTokens(xs) + AllTokens(ys)
  {
    if ys == [] {
      assert xs + ys == xs;
    } else {
      TokensOfBoth(xs, ys[..|ys| - 1]);
      assert (xs + ys)[..|xs + ys| - 1] == xs + ys[..|ys| - 1];
    }
  }

  /** A later part's block in the whole document: its page and its index are moved behind the earlier part. */
  predicate MovedBlock(b: Block, original: Block, pages: nat, blocks: nat) {
    b == original.(page := original.page + pages, index := original.index + blocks)
  }

  /** The blocks of the earlier part as they are, then those of the later part, moved. */
  predicate MovedBehind(whole: seq<Block>, first: seq<Block>, second: seq<Block>, pages: nat) {
    && |whole| == |first| + |second|
    && whole[..|first|] == first
    && forall j :: 0 <= j < |second| ==> MovedBlock(whole[|first| + j], second[j], pages, |first|)
  }

  /** Mapping two runs of responses together is mapping them apart, the second moved behind the first. */
  lemma MappingIsCompositional(xs: seq<Response>, ys: seq<Response>)
    ensures Mapped(xs + ys).pages == Mapped(xs).pages + ShiftPages(Mapped(ys).pages, |Mapped(xs).pages|)
    ensures var whole, first, second, pages := Mapped(xs + ys).blocks, Mapped(xs).blocks, Mapped(ys).blocks,
        |Mapped(xs).pages|;
            && |whole| == |first| + |second| && whole[..|first|] == first
            && forall j :: 0 <= j < |second| ==>
                 whole[|first| + j]
                 == second[j].(page := second[j].page + pages, index := second[j].index + |first|)
    ensures Mapped(xs + ys).tokensUsed == Mapped(xs).tokensUsed + Mapped(ys).tokensUsed
  {
    hide *;
    PagesCompose(xs, ys);
    BlocksCompose(xs, ys);
    MovedMeans(Mapped(xs + ys).blocks, Mapped(xs).blocks, Mapped(ys).blocks, |Mapped(xs).pages|);
  }

  lemma PagesCompose(xs: seq<Response>, ys: seq<Response>)
    ensures Mapped(xs + ys).pages == Mapped(xs).pages + ShiftPages(Mapped(ys).pages, |Mapped(xs).pages|)
    ensures Mapped(xs + ys).tokensUsed == Mapped(xs).tokensUsed + Mapped(ys).tokensUsed
  {
    hide *;
    PagesOfBoth(xs, ys);
    TokensOfBoth(xs, ys);
    MappedIs(xs);
    MappedIs(ys);
    MappedIs(xs + ys);
  }

  lemma BlocksCompose(xs: seq<Response>, ys: seq<Response>)
    ensures MovedBehind(Mapped(xs + ys).blocks, Mapped(xs).blocks, Mapped(ys).blocks, |Mapped(xs).pages|)
  {
    hide *;
    PagesOfBoth(xs, ys);
    MappedIs(xs);
    MappedIs(ys);
    MappedIs(xs + ys);
    ReindexedBehind(AllBlocks(xs), AllBlocks(ys), |AllPages(xs)|);
  }

  lemma MovedMeans(whole: seq<Block>, first: seq<Block>, second: seq<Block>, pages: nat)
    requires MovedBehind(whole, first, second, pages)
    ensures |whole| == |first| + |second| && whole[..|first|] == first
    ensures forall j :: 0 <= j < |second| ==>
              whole[|first| + j] == second[j].(page := second[j].page + pages, index := second[j].index + |first|)
  {
  }

  lemma MappedIs(rs: seq<Response>)
    ensures Mapped(rs).pages == AllPages(rs) && Mapped(rs).blocks == Reindexed(AllBlocks(rs))
    ensures Mapped(rs).tokensUsed == AllTokens(rs)
  {
  }

  lemma ReindexedBehind(a: seq<Block>, b: seq<Block>, pages: nat)
    ensures MovedBehind(Reindexed(a + ShiftBlocks(b, pages)), Reindexed(a), Reindexed(b), pages)
  {
    hide MovedBlock;
    var whole := Reindexed(a + ShiftBlocks(b, pages));
    ReindexedFront(a, ShiftBlocks(b, pages));
    forall j | 0 <= j < |b| ensures MovedBlock(whole[|a| + j], Reindexed(b)[j], pages, |a|) {
      ReindexedAt(a, b, pages, j);
    }
  }

  lemma ReindexedFront(a: seq<Block>, b: seq<Block>)
    ensures Reindexed(a + b)[..|a|] == Reindexed(a)
  {
    hide Reindexed;
  }

  lemma ReindexedAt(a: seq<Block>, b: seq<Block>, pages: nat, j: nat)
    requires j < |b|
    ensures MovedBlock(Reindexed(a + ShiftBlocks(b, pages))[|a| + j], Reindexed(b)[j], pages, |a|)
  {
    hide Reindexed;
    hide ShiftBlocks;
    assert (a + ShiftBlocks(b, pages))[|a| + j] == ShiftBlocks(b, pages)[j];
  }

  // ---- the text -------------------------------------------------------------------------------------------------

  predicate CleanPages(pages: seq<Page>) {
    forall i :: 0 <= i < |pages| ==> pages[i].markdown == "" || Trimmed(pages[i].markdown)
  }

  lemma TrimIsTrimmed(s: string)
    ensures Trim(s) == "" || Trimmed(Trim(s))
  {
    TrimStartOnce(s);
    TrimEndOnce(TrimStart(s));
  }

  lemma {:induction false} PagesAreClean(rs: seq<Response>)
    ensures CleanPages(AllPages(rs))
  {
    if rs != [] {
      PagesAreClean(rs[..|rs| - 1]);
      TrimIsTrimmed(OrElse(rs[|rs| - 1].mdResults, ""));
    }
  }

  lemma {:induction false} JoinedIsTrimmed(pages: seq<Page>)
    requires CleanPages(pages)
    ensures JoinMarkdown(pages) == "" || Trimmed(JoinMarkdown(pages))
  {
    if pages != [] { JoinedIsTrimmed(pages[..|pages| - 1]); }
  }

  function Paragraphs(s: string, t: string): string { if t == "" then s else if s == "" then t else s + "\n\n" + t }

  lemma ParagraphsAssociate(s: string, t: string, u: string)
    ensures Paragraphs(Paragraphs(s, t), u) == Paragraphs(s, Paragraphs(t, u))
  {
    if s != "" && t != "" && u != "" {
      AppendAssociative(s + "\n\n", t + "\n\n", u);
      AppendAssociative(s + "\n\n", t, "\n\n");
    }
  }

  lemma {:induction false} JoinOfBoth(xs: seq<Page>, ys: seq<Page>)
    ensures JoinMarkdown(xs + ys) == Paragraphs(JoinMarkdown(xs), JoinMarkdown(ys))
  {
    if ys == [] {
      assert xs + ys == xs;
    } else {
      JoinOfBoth(xs, ys[..|ys| - 1]);
      assert (xs + ys)[..|xs + ys| - 1] == xs + ys[..|ys| - 1];
      ParagraphsAssociate(JoinMarkdown(xs), JoinMarkdown(ys[..|ys| - 1]), ys[|ys| - 1].markdown);
    }
  }

  lemma {:induction false} JoinIgnoresNumbers(pages: seq<Page>, delta: nat)
    ensures JoinMarkdown(ShiftPages(pages, delta)) == JoinMarkdown(pages)
  {
    if pages != [] {
      JoinIgnoresNumbers(pages[..|pages| - 1], delta);
      assert ShiftPages(pages, delta)[..|pages| - 1] == ShiftPages(pages[..|pages| - 1], delta);
    }
  }

  /**
   The document's text is the pages' texts as they are: trimming at the end removes nothing, and parts join
   with a blank line.
   */
  lemma MarkdownIsCompositional(xs: seq<Response>, ys: seq<Response>)
    ensures Mapped(xs).markdown == JoinMarkdown(AllPages(xs))
    ensures Mapped(xs + ys).markdown == Paragraphs(Mapped(xs).markdown, Mapped(ys).markdown)
  {
    hide Trim;
    hide JoinMarkdown;
    hide AllPages;
    MarkdownIsJoined(xs);
    MarkdownIsJoined(ys);
    MarkdownIsJoined(xs + ys);
    PagesOfBoth(xs, ys);
    JoinOfBoth(AllPages(xs), ShiftPages(AllPages(ys), |AllPages(xs)|));
    JoinIgnoresNumbers(AllPages(ys), |AllPages(xs)|);
  }

  lemma MarkdownIsJoined(rs: seq<Response>)
    ensures Mapped(rs).markdown == JoinMarkdown(AllPages(rs))
  {
    PagesAreClean(rs);
    JoinedIsTrimmed(AllPages(rs));
    if JoinMarkdown(AllPages(rs)) != "" { TrimKeeps(JoinMarkdown(AllPages(rs))); }
  }
}
