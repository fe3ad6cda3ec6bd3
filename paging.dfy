/** renderTablePage's page slice and renderPagination's pager, as values
    describing what is drawn. */
module Paging {
  import opened Wrappers
  import opened JsText

  /** Records shown per page. */
  const PAGE_SIZE: nat := 50

  function Min(a: int, b: int): int { if a <= b then a else b }

  /** `Math.ceil(n / pageSize)`. */
  function PageTotal(n: nat): nat {
    (n + PAGE_SIZE - 1) / PAGE_SIZE
  }

  /** The number of pages is the least one whose pages hold all records. */
  lemma PageTotalSpec(n: nat)
    ensures n <= PageTotal(n) * PAGE_SIZE
    ensures PageTotal(n) == 0 || (PageTotal(n) - 1) * PAGE_SIZE < n
    ensures PageTotal(n) == 0 <==> n == 0
  {
  }

  /** `currentData.slice(start, Math.min(start + pageSize, n))` with
      `start = (page - 1) * pageSize`. */
  function PageOf<T>(data: seq<T>, page: int): seq<T> {
    var start := (page - 1) * PAGE_SIZE;
    Slice(data, start, Min(start + PAGE_SIZE, |data|))
  }

  /** A page in range is the matching run of 1 to 50 records. */
  lemma PageInRange<T>(data: seq<T>, page: int)
    requires 1 <= page <= PageTotal(|data|)
    ensures (page - 1) * PAGE_SIZE < Min(page * PAGE_SIZE, |data|) <= |data|
    ensures PageOf(data, page) == data[(page - 1) * PAGE_SIZE .. Min(page * PAGE_SIZE, |data|)]
    ensures 1 <= |PageOf(data, page)| <= PAGE_SIZE
  {
    PageTotalSpec(|data|);
    assert (page - 1) * PAGE_SIZE <= (PageTotal(|data|) - 1) * PAGE_SIZE;
  }

  /** A page past the last shows nothing. */
  lemma PagePastEnd<T>(data: seq<T>, page: int)
    requires page > PageTotal(|data|)
    ensures PageOf(data, page) == []
  {
    PageTotalSpec(|data|);
    assert (page - 1) * PAGE_SIZE >= PageTotal(|data|) * PAGE_SIZE;
  }

  /** Pages 1 to k, one after another. */
  function Pages<T>(data: seq<T>, k: nat): seq<T> {
    if k == 0 then [] else Pages(data, k - 1) + PageOf(data, k)
  }

  lemma {:induction false} PagesPrefix<T>(data: seq<T>, k: nat)
    requires k <= PageTotal(|data|)
    ensures Min(k * PAGE_SIZE, |data|) >= 0
    ensures Pages(data, k) == data[..Min(k * PAGE_SIZE, |data|)]
  {
    if k > 0 {
      PagesPrefix(data, k - 1);
      PageInRange(data, k);
      assert Min((k - 1) * PAGE_SIZE, |data|) == (k - 1) * PAGE_SIZE;
      assert data[..(k - 1) * PAGE_SIZE] + data[(k - 1) * PAGE_SIZE .. Min(k * PAGE_SIZE, |data|)]
          == data[..Min(k * PAGE_SIZE, |data|)];
    }
  }

  /** Paging through every page shows each record once, in order. */
  lemma PagesCoverData<T>(data: seq<T>)
    ensures Pages(data, PageTotal(|data|)) == data
  {
    PagesPrefix(data, PageTotal(|data|));
    PageTotalSpec(|data|);
  }

  /** The pager under the table: the previous button is disabled on the
      first page, the next one on the last. */
  datatype Pager = Pager(prevDisabled: bool, nextDisabled: bool, page: int, total: nat)

  /** renderPagination: no pager at all for a single page or none. */
  function Pagination(n: nat, page: int): Option<Pager> {
    var total := PageTotal(n);
    if total <= 1 then None else Some(Pager(page == 1, page == total, page, total))
  }

  /** What renderTablePage draws. */
  datatype TableView<T> = NoData | Table(rows: seq<T>, pager: Option<Pager>)

  function RenderTablePage<T>(data: seq<T>, page: int): TableView<T> {
    if |data| == 0 then NoData else Table(PageOf(data, page), Pagination(|data|, page))
  }

  /** A click on the previous button of the pager `drawn`: its handler
      decrements the current page if that button is drawn and enabled.
      `drawn` need not be the pager of `page`: the buttons are redrawn only
      when the delayed re-render runs. */
  function PrevOn(drawn: Option<Pager>, page: int): int {
    if drawn.Some? && !drawn.value.prevDisabled then page - 1 else page
  }

  /** A click on the next button of the pager `drawn`. */
  function NextOn(drawn: Option<Pager>, page: int): int {
    if drawn.Some? && !drawn.value.nextDisabled then page + 1 else page
  }

  /** The page after a click on the previous button as drawn for `page`. */
  function AfterPrev(n: nat, page: int): int {
    PrevOn(Pagination(n, page), page)
  }

  /** The page after a click on the next button as drawn for `page`. */
  function AfterNext(n: nat, page: int): int {
    NextOn(Pagination(n, page), page)
  }

  /** The pages the handlers keep `currentPage` on: the first page, or one
      that starts inside the data. */
  predicate PageValid(n: nat, page: int) {
    page == 1 || (1 < page && (page - 1) * PAGE_SIZE < n)
  }

  /** These are exactly the pages from 1 to the page total (1 when there is
      no data). */
  lemma PageValidRange(n: nat, page: int)
    ensures PageValid(n, page) <==> 1 <= page <= (if PageTotal(n) == 0 then 1 else PageTotal(n))
  {
    PageTotalSpec(n);
    if 1 < page && (page - 1) * PAGE_SIZE < n {
      assert (page - 1) * PAGE_SIZE < PageTotal(n) * PAGE_SIZE;
    }
    if 1 < page <= PageTotal(n) {
      assert (page - 1) * PAGE_SIZE <= (PageTotal(n) - 1) * PAGE_SIZE;
    }
  }

  /** Clicking either button from a valid page lands on a valid page, and
      moves by one exactly when the button is drawn and not at its end. */
  lemma NavigationStaysInRange(n: nat, page: int)
    requires PageValid(n, page)
    ensures PageValid(n, AfterPrev(n, page)) && PageValid(n, AfterNext(n, page))
    ensures AfterPrev(n, page) == (if PageTotal(n) > 1 && page > 1 then page - 1 else page)
    ensures AfterNext(n, page) == (if page < PageTotal(n) then page + 1 else page)
  {
    PageValidRange(n, page);
    PageValidRange(n, AfterPrev(n, page));
    PageValidRange(n, AfterNext(n, page));
  }

  /** A table is drawn exactly when there is data; a valid page of it is
      never empty, and the pager shows whenever there is more than one page. */
  lemma RenderSpec<T>(data: seq<T>, page: int)
    requires PageValid(|data|, page)
    ensures RenderTablePage(data, page).NoData? <==> |data| == 0
    ensures RenderTablePage(data, page).Table? ==>
      && 1 <= page <= PageTotal(|data|)
      && (page - 1) * PAGE_SIZE < Min(page * PAGE_SIZE, |data|) <= |data|
      && RenderTablePage(data, page).rows == data[(page - 1) * PAGE_SIZE .. Min(page * PAGE_SIZE, |data|)]
      && 1 <= |RenderTablePage(data, page).rows| <= PAGE_SIZE
      && (RenderTablePage(data, page).pager.Some? <==> |data| > PAGE_SIZE)
  {
    PageValidRange(|data|, page);
    if |data| > 0 {
      PageTotalSpec(|data|);
      PageInRange(data, page);
    }
  }

  /** Clicking twice before the re-render acts twice on the same buttons:
      with 100 records, two clicks on "previous" from page 2 reach page 0,
      which shows nothing and still offers "previous", and two clicks on
      "next" from page 1 reach page 3, past the last page. */
  lemma DoubleClickLeavesRange<T>(data: seq<T>)
    requires |data| == 100
    ensures var drawn := Pagination(|data|, 2);
      PrevOn(drawn, PrevOn(drawn, 2)) == 0 && !PageValid(|data|, 0)
    ensures PageOf(data, 0) == [] && Pagination(|data|, 0) == Some(Pager(false, false, 0, 2))
    ensures var drawn := Pagination(|data|, 1);
      NextOn(drawn, NextOn(drawn, 1)) == 3 && !PageValid(|data|, 3) && PageOf(data, 3) == []
  {
    assert PageTotal(100) == 2;
  }
}
