/**
 * `src/utils/page.request.ts` and `src/utils/page.response.ts`: the query
 * parameters of a page read and the page wrapper returned to the client.
 */
module Paging {

  /** Query-string page number and size (defaults 1 and 10), kept as given. */
  datatype PageRequest = PageRequest(pageNo: int, pageSize: int)

  const DEFAULT_PAGE_REQUEST: PageRequest := PageRequest(1, 10)

  function Max(a: int, b: int): int {
    if a >= b then a else b
  }

  /** `getPageNo()`: the stored page number, not clamped. */
  function GetPageNo(req: PageRequest): (pageNo: int)
    ensures pageNo == req.pageNo
  {
    req.pageNo
  }

  /** `getLimit()`: the page size, raised to the floor of 10. */
  function GetLimit(req: PageRequest): (limit: int)
    ensures limit >= 10 && limit >= req.pageSize
    ensures limit == 10 || limit == req.pageSize
  {
    Max(10, req.pageSize)
  }

  /** `getOffset()`: the rows of all earlier pages, a page number below 1 read as 1. */
  function GetOffset(req: PageRequest): (offset: int)
    ensures offset >= 0
    ensures req.pageNo <= 1 ==> offset == 0
  {
    (Max(1, req.pageNo) - 1) * Max(10, req.pageSize)
  }

  /** The offset is a whole number of pages: a non-negative multiple of the limit, zero from page 1 down. */
  lemma OffsetIsWholePages(req: PageRequest)
    ensures GetOffset(req) >= 0
    ensures GetOffset(req) == (Max(1, req.pageNo) - 1) * GetLimit(req)
    ensures req.pageNo <= 1 ==> GetOffset(req) == 0
    ensures req.pageNo >= 1 ==> GetOffset(req) == (req.pageNo - 1) * GetLimit(req)
  {
    var pages := Max(1, req.pageNo) - 1;
    var limit := GetLimit(req);
    assert pages >= 0 && limit > 0;
    assert pages * limit >= 0;
  }

  /** The defaults read the first ten rows; page 6 of size 20 starts after row 100. */
  lemma DefaultsAndExample()
    ensures GetOffset(DEFAULT_PAGE_REQUEST) == 0 && GetLimit(DEFAULT_PAGE_REQUEST) == 10
    ensures GetOffset(PageRequest(6, 20)) == 100 && GetLimit(PageRequest(6, 20)) == 20
  {
  }

  /** A page number below 1 reads the first page, while `getPageNo()` still reports it as given. */
  lemma PageNoNotClamped(req: PageRequest)
    requires req.pageNo < 1
    ensures GetOffset(req) == 0 && GetPageNo(req) == req.pageNo
  {
  }

  /** `Page<T>`: the items of one page and what the client is told about them. */
  datatype Page<T> = Page(limit: int, currentPage: int, totalCount: int, items: seq<T>)

  /** `new Page(limit, pageNo, items)`: `totalCount` counts this page's items, not the table. */
  function NewPage<T>(limit: int, pageNo: int, items: seq<T>): (page: Page<T>)
    ensures page.totalCount == |page.items|
    ensures page.items == items && page.limit == limit && page.currentPage == pageNo
  {
    Page(limit, pageNo, |items|, items)
  }
}
