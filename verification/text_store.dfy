/**
 * The text paged store of twoDB/database/storage/text_file_handler.go.
 *
 * The whole database file is one string: a `# DATABASE HEADER` block of
 * `KEY=VALUE` lines followed by `# PAGE` sections of `PageID: n`, `LSN: n`,
 * `Type: t` and `key: value` lines. The handler's in-memory bookkeeping
 * (page size, page count, free list) sits beside the file text in `Store`.
 */
module TextStore {
  import opened Results
  import opened GoStrings
  import opened Decimal

  const HeaderSection: string := "# DATABASE HEADER"
  const PageSection: string := "# PAGE"
  const DefaultPageSize: nat := 4096

  datatype PageHeader = PageHeader(lsn: nat, id: nat, pageType: string)

  /** A page: its header and an unordered string-keyed payload. */
  datatype Page = Page(header: PageHeader, data: map<string, string>)

  /** The file text and the handler's bookkeeping fields. */
  datatype Store = Store(content: string, pageSize: int, pageCount: nat, freeList: seq<nat>)

  /** The header lines above the page count. */
  function TopLines(): seq<string> {
    [HeaderSection, "PAGESIZE=" + Format(DefaultPageSize), "ENCODING=UTF-8", "VERSION=1.0"]
  }

  /** The header lines of a database file recording `count` pages, the last one empty. */
  function HeaderLines(count: nat): seq<string> {
    TopLines() + [CountText(count), ""]
  }

  /**
   * The text every freshly created database file starts with, each header
   * line newline-terminated:
   * `# DATABASE HEADER\nPAGESIZE=4096\nENCODING=UTF-8\nVERSION=1.0\nPAGES=0\n\n`.
   */
  function InitialContent(): string {
    Unlines(HeaderLines(0))
  }

  /** The handler state before the header has been read. */
  function Unloaded(content: string): Store {
    Store(content, DefaultPageSize, 0, [])
  }

  /**
   * NewTextFileHandler: `existing` is the text of the file when it already
   * exists, None when it has to be created.
   */
  function Open(existing: Option<string>): (st: Store)
    ensures existing.None? ==> st.content == InitialContent()
    ensures existing.Some? ==> st.content == existing.value
  {
    var content := if existing.Some? then existing.value else InitialContent();
    LoadMetadata(Unloaded(content))
  }

  // ---------------------------------------------------------------------------
  // LoadMetadata

  datatype HeaderScan = HeaderScan(inHeader: bool, st: Store)

  /** One `DEALLOCATED_PAGES` element scanned with %d into a fresh variable: 0 when the scan fails. */
  function ScannedId(item: string): nat {
    match ScanUint(item)
    case Some(v) => v
    case None => 0
  }

  /** The `DEALLOCATED_PAGES` elements, in textual order. */
  function FreeIds(items: seq<string>): (ids: seq<nat>)
    ensures |ids| == |items|
    ensures forall i :: 0 <= i < |items| ==> ids[i] == ScannedId(items[i])
  {
    if items == [] then [] else [ScannedId(items[0])] + FreeIds(items[1..])
  }

  /** One non-empty header line: a `KEY=VALUE` setting, anything else ignored. */
  function ApplyHeaderLine(line: string, st: Store): (r: Store)
    ensures r.content == st.content
    ensures Index(line, "=") == -1 ==> r == st
    ensures Index(line, "=") >= 0 ==>
      var key := TrimSpace(line[..Index(line, "=")]);
      var value := TrimSpace(line[Index(line, "=") + 1..]);
      && (key != "PAGESIZE" && key != "PAGES" && key != "DEALLOCATED_PAGES" ==> r == st)
      && (key == "DEALLOCATED_PAGES" ==> r == st.(freeList := st.freeList + FreeIds(Split(value, ','))))
      && (key == "PAGES" ==> r == if ScanUint(value).Some? then st.(pageCount := ScanUint(value).value) else st)
      && (key == "PAGESIZE" ==> r == if ScanInt(value).Some? then st.(pageSize := ScanInt(value).value) else st)
  {
    var parts := SplitN2(line, "=");
    if |parts| != 2 then st
    else
      var key := TrimSpace(parts[0]);
      var value := TrimSpace(parts[1]);
      if key == "PAGESIZE" then
        (match ScanInt(value) case Some(v) => st.(pageSize := v) case None => st)
      else if key == "PAGES" then
        (match ScanUint(value) case Some(v) => st.(pageCount := v) case None => st)
      else if key == "DEALLOCATED_PAGES" then
        st.(freeList := st.freeList + FreeIds(Split(value, ',')))
      else st
  }

  /**
   * The header loop: the header marker switches reading on, the first line
   * starting with `# PAGE` stops it, and only non-empty lines read while it
   * is on are applied.
   */
  function LoadLines(lines: seq<string>, hs: HeaderScan): HeaderScan
  {
    if lines == [] then hs
    else
      var line := lines[0];
      if line == HeaderSection then LoadLines(lines[1..], hs.(inHeader := true))
      else if HasPrefix(line, PageSection) then hs
      else if hs.inHeader && line != "" then LoadLines(lines[1..], hs.(st := ApplyHeaderLine(line, hs.st)))
      else LoadLines(lines[1..], hs)
  }

  /** LoadMetadata: read the header of the file text into the bookkeeping fields. */
  function LoadMetadata(st: Store): (r: Store)
    ensures r.content == st.content
  {
    LoadLinesKeepsContent(ScanLines(st.content), HeaderScan(false, st));
    LoadLines(ScanLines(st.content), HeaderScan(false, st)).st
  }

  lemma {:induction false} LoadLinesKeepsContent(lines: seq<string>, hs: HeaderScan)
    ensures LoadLines(lines, hs).st.content == hs.st.content
  {
    if lines != [] {
      var line := lines[0];
      if line == HeaderSection {
        LoadLinesKeepsContent(lines[1..], hs.(inHeader := true));
      } else if !HasPrefix(line, PageSection) {
        if hs.inHeader && line != "" {
          LoadLinesKeepsContent(lines[1..], hs.(st := ApplyHeaderLine(line, hs.st)));
        } else {
          LoadLinesKeepsContent(lines[1..], hs);
        }
      }
    }
  }

  // ---------------------------------------------------------------------------
  // ReadPage

  /** The text ReadPage and WritePage look for to locate a page. */
  function Marker(id: nat): string {
    "PageID: " + Format(id)
  }

  datatype PageScan = PageScan(inTarget: bool, found: bool, lsn: nat, pageType: string, data: map<string, string>)

  const StartScan: PageScan := PageScan(false, false, 0, "", map[])

  /** One `key: value` pair of the target page, after trimming: LSN, Type and PageID are header fields. */
  function ApplyField(key: string, value: string, ps: PageScan): (r: PageScan)
    ensures r.inTarget == ps.inTarget && r.found == ps.found
    ensures key !in {"LSN", "Type", "PageID"} ==> r == ps.(data := ps.data[key := value])
  {
    if key == "LSN" then
      (match ScanUint(value) case Some(v) => ps.(lsn := v) case None => ps)
    else if key == "Type" then ps.(pageType := value)
    else if key == "PageID" then ps
    else ps.(data := ps.data[key := value])
  }

  /** One non-empty line of the target page: a `key: value` pair, anything else ignored. */
  function ApplyPageLine(line: string, ps: PageScan): (r: PageScan)
    ensures r.inTarget == ps.inTarget && r.found == ps.found
    ensures Index(line, ": ") == -1 ==> r == ps
  {
    var parts := SplitN2(line, ": ");
    if |parts| != 2 then ps
    else ApplyField(TrimSpace(parts[0]), TrimSpace(parts[1]), ps)
  }

  /**
   * One line of the ReadPage loop that does not end the target page: a
   * `# PAGE` line leaves the target page, a line containing the marker enters
   * it, and the non-empty lines of the target page are parsed.
   */
  function ScanLine(line: string, marker: string, ps: PageScan): (r: PageScan)
    ensures Contains(line, marker) ==> r.inTarget && r.found
    ensures r.found == (ps.found || Contains(line, marker))
    ensures r.inTarget ==> ps.inTarget || Contains(line, marker)
  {
    var ps1 := if HasPrefix(line, PageSection) then ps.(inTarget := false) else ps;
    var ps2 := if Contains(line, marker) then ps1.(inTarget := true, found := true) else ps1;
    if ps2.inTarget && line != "" then ApplyPageLine(line, ps2) else ps2
  }

  /** The ReadPage loop: a `# PAGE` line ends the target page once it has been entered. */
  function ScanPage(lines: seq<string>, marker: string, ps: PageScan): PageScan
  {
    if lines == [] then ps
    else if HasPrefix(lines[0], PageSection) && ps.inTarget then ps
    else ScanPage(lines[1..], marker, ScanLine(lines[0], marker, ps))
  }

  /** ReadPage: the page whose marker the file text contains, parsed from its section. */
  function ReadPage(st: Store, id: nat): (r: Result<Page>)
    ensures (id == 0 || id > st.pageCount) <==> r == Err(InvalidPageId)
    ensures r.Ok? ==> r.value.header.id == id
  {
    if id == 0 || id > st.pageCount then Err(InvalidPageId)
    else
      var ps := ScanPage(ScanLines(st.content), Marker(id), StartScan);
      if !ps.found then Err(PageNotFound)
      else Ok(Page(PageHeader(ps.lsn, id, ps.pageType), ps.data))
  }

  // ---------------------------------------------------------------------------
  // WritePage

  /** `order` lists the keys of `data`, each once: one possible Go map iteration order. */
  predicate IsKeyOrder(order: seq<string>, data: map<string, string>) {
    && (forall i :: 0 <= i < |order| ==> order[i] in data)
    && (forall k :: k in data ==> k in order)
    && (forall i, j :: 0 <= i < j < |order| ==> order[i] != order[j])
  }

  /** The payload lines, in the given order. */
  function PayloadLines(data: map<string, string>, order: seq<string>): (ls: seq<string>)
    requires forall i :: 0 <= i < |order| ==> order[i] in data
    ensures |ls| == |order|
    ensures forall i :: 0 <= i < |order| ==> ls[i] == order[i] + ": " + data[order[i]]
  {
    if order == [] then [] else [order[0] + ": " + data[order[0]]] + PayloadLines(data, order[1..])
  }

  /** The lines of a page section: marker line, header lines, then the payload. */
  function SectionLines(page: Page, order: seq<string>): seq<string>
    requires forall i :: 0 <= i < |order| ==> order[i] in page.data
  {
    [PageSection,
     Marker(page.header.id),
     "LSN: " + Format(page.header.lsn),
     "Type: " + page.header.pageType]
    + PayloadLines(page.data, order)
  }

  /** The text WritePage builds for a page. */
  function Section(page: Page, order: seq<string>): string
    requires forall i :: 0 <= i < |order| ==> order[i] in page.data
  {
    Unlines(SectionLines(page, order))
  }

  /**
   * Where the new section goes: in place of the section that contains the
   * first occurrence of the marker (from the `# PAGE` before it up to the next
   * `# PAGE` or the end of the text), or appended after a newline. When no
   * `# PAGE` precedes the first marker the Go slice expression panics.
   */
  function Splice(content: string, marker: string, section: string): (r: Result<string>)
    ensures Index(content, marker) == -1 ==> r == Ok(content + "\n" + section)
    ensures Index(content, marker) >= 0 ==>
      var s := LastIndex(content[..Index(content, marker)], PageSection);
      && (s == -1 <==> r == Err(Panic))
      && (s >= 0 ==> r.Ok? && HasPrefix(r.value, content[..s] + section))
  {
    var i := Index(content, marker);
    if i == -1 then Ok(content + "\n" + section)
    else
      var s := LastIndex(content[..i], PageSection);
      if s == -1 then Err(Panic)
      else
        var e := Index(content[s + |PageSection|..], PageSection);
        if e == -1 then Ok(content[..s] + section)
        else Ok(content[..s] + section + content[s + |PageSection| + e..])
  }

  /** The header text recording a page count. */
  function CountText(n: nat): string {
    "PAGES=" + Format(n)
  }

  /**
   * WritePage: splice the page's section into the file text, then, when the
   * page id exceeds the page count, raise the count to it and rewrite the first
   * `PAGES=<old>` in the text to `PAGES=<new>`. `order` is the iteration order
   * Go happens to choose for the payload map.
   */
  function WritePage(st: Store, page: Page, order: seq<string>): (r: Result<Store>)
    requires IsKeyOrder(order, page.data)
    ensures r.Ok? ==> r.value.pageCount == (if page.header.id > st.pageCount then page.header.id else st.pageCount)
    ensures r.Ok? ==> r.value.pageSize == st.pageSize && r.value.freeList == st.freeList
    ensures r.Err? ==> r == Err(Panic)
  {
    var spliced := Splice(st.content, Marker(page.header.id), Section(page, order));
    if spliced.Err? then Err(Panic)
    else if page.header.id > st.pageCount then
      Ok(st.(content := ReplaceFirst(spliced.value, CountText(st.pageCount), CountText(page.header.id)),
             pageCount := page.header.id))
    else Ok(st.(content := spliced.value))
  }

  // ---------------------------------------------------------------------------
  // AllocatePage

  /** A new page object: empty payload, LSN 0, no type. */
  function BlankPage(id: nat): Page {
    Page(PageHeader(0, id, ""), map[])
  }

  /** What the allocator hands out, and the page count and free list it leaves behind. */
  datatype Allocation = Allocation(id: nat, pageCount: nat, freeList: seq<nat>)

  /**
   * The allocation rule of AllocatePage: the head of the free list when there
   * is one, otherwise the page count plus one, which also becomes the new
   * page count.
   */
  function Allocate(pageCount: nat, freeList: seq<nat>): (a: Allocation)
    ensures |freeList| > 0 ==> a.id == freeList[0] && a.freeList == freeList[1..] && a.pageCount == pageCount
    ensures |freeList| == 0 ==> a.id == pageCount + 1 && a.pageCount == a.id && a.freeList == []
  {
    if |freeList| > 0 then Allocation(freeList[0], pageCount, freeList[1..])
    else Allocation(pageCount + 1, pageCount + 1, [])
  }

  /**
   * AllocatePage: a blank page under the allocated id. The file's header is
   * not rewritten and nothing is written to the file.
   */
  function AllocatePage(st: Store): (r: (Store, Page))
    ensures r.1 == BlankPage(r.1.header.id)
    ensures r.0.content == st.content && r.0.pageSize == st.pageSize
    ensures |st.freeList| > 0 ==>
      r.1.header.id == st.freeList[0] && r.0.freeList == st.freeList[1..] && r.0.pageCount == st.pageCount
    ensures |st.freeList| == 0 ==>
      r.1.header.id == st.pageCount + 1 && r.0.pageCount == r.1.header.id && r.0.freeList == []
  {
    var a := Allocate(st.pageCount, st.freeList);
    (st.(pageCount := a.pageCount, freeList := a.freeList), BlankPage(a.id))
  }
}
