/**
 * The page store as the database façade and the B+Tree see it: pages by id,
 * the page count that bounds valid ids, and the free list. This is the
 * handler's contract (ReadPage, WritePage, AllocatePage) without the file
 * text. TextRoundTrip.WriteThenRead relates one page of it to the text store.
 */
module PageStore {
  import opened Results
  import opened TextStore

  datatype Pages = Pages(pages: map<nat, Page>, pageCount: nat, freeList: seq<nat>)

  /** Every stored page sits under its own id, and that id is valid. */
  predicate Valid(s: Pages) {
    forall id :: id in s.pages ==> 0 < id <= s.pageCount && s.pages[id].header.id == id
  }

  /** ReadPage: the id must be valid, then the page must have been written. */
  function Read(s: Pages, id: nat): (r: Result<Page>)
    ensures (id == 0 || id > s.pageCount) <==> r == Err(InvalidPageId)
    ensures r == Err(PageNotFound) <==> 0 < id <= s.pageCount && id !in s.pages
    ensures r.Ok? ==> id in s.pages && r.value == s.pages[id]
  {
    if id == 0 || id > s.pageCount then Err(InvalidPageId)
    else if id !in s.pages then Err(PageNotFound)
    else Ok(s.pages[id])
  }

  /** WritePage: store the page under its id, raising the page count to that id if needed. */
  function Write(s: Pages, page: Page): (r: Pages)
    ensures r.pageCount >= s.pageCount && r.pageCount >= page.header.id
    ensures r.freeList == s.freeList
  {
    var id := page.header.id;
    Pages(s.pages[id := page], if id > s.pageCount then id else s.pageCount, s.freeList)
  }

  /** AllocatePage: the allocation rule of the handler, and a blank page under the new id. */
  function Allocate(s: Pages): (r: (Pages, Page))
    ensures r.1 == BlankPage(r.1.header.id)
    ensures r.0.pages == s.pages
    ensures |s.freeList| > 0 ==> r.1.header.id == s.freeList[0] && r.0.pageCount == s.pageCount
    ensures |s.freeList| == 0 ==> r.1.header.id == s.pageCount + 1 && r.0.pageCount == r.1.header.id
  {
    var a := TextStore.Allocate(s.pageCount, s.freeList);
    (Pages(s.pages, a.pageCount, a.freeList), BlankPage(a.id))
  }

  /** A written page reads back, under any id but 0. */
  lemma ReadAfterWrite(s: Pages, page: Page)
    requires page.header.id > 0
    ensures Read(Write(s, page), page.header.id) == Ok(page)
  {
  }

  /** Writing one page leaves every other valid id reading as before. */
  lemma WriteFrame(s: Pages, page: Page, id: nat)
    requires id != page.header.id && id <= s.pageCount
    ensures Read(Write(s, page), id) == Read(s, id)
  {
  }

  lemma WriteValid(s: Pages, page: Page)
    requires Valid(s) && page.header.id > 0
    ensures Valid(Write(s, page))
  {
  }

  /** With an empty free list the new id is valid afterwards and no page is stored under it. */
  lemma AllocateFresh(s: Pages)
    requires Valid(s) && s.freeList == []
    ensures var r := Allocate(s);
      && Valid(r.0)
      && Read(s, r.1.header.id) == Err(InvalidPageId)
      && Read(r.0, r.1.header.id) == Err(PageNotFound)
  {
  }
}
