/**
 * What a reopened file remembers. AllocatePage raises the page count in
 * memory only, so the later WritePage of the new page never finds its id
 * above the count and never rewrites the header's `PAGES=` line: the page is
 * in the file, but a handler opened on that file again rejects its id.
 * The corrected allocator writes the raised count into the header at once.
 */
module TextReopen {
  import opened Results
  import opened GoStrings
  import opened Decimal
  import opened TextStore
  import opened TextRoundTrip
  import opened TextHeader

  /**
   * AllocatePage as evidently intended: the same allocation, and when the
   * page count is raised the header's `PAGES=<old>` becomes `PAGES=<new>`.
   */
  function AllocatePagePersisted(st: Store): (r: (Store, Page))
    ensures r.1 == AllocatePage(st).1
    ensures r.0.pageCount == AllocatePage(st).0.pageCount && r.0.freeList == AllocatePage(st).0.freeList
    ensures r.0.pageSize == st.pageSize
    ensures |st.freeList| > 0 ==> r.0.content == st.content
  {
    var a := AllocatePage(st);
    if a.0.pageCount > st.pageCount then
      (a.0.(content := ReplaceFirst(st.content, CountText(st.pageCount), CountText(a.0.pageCount))), a.1)
    else a
  }

  /** The header at the start of the file records the handler's page count. */
  predicate HeaderRecordsCount(st: Store) {
    HasPrefix(st.content, Unlines(HeaderLines(st.pageCount)))
  }

  /** Two digit strings that both start x and are both followed there by a newline are the same. */
  lemma DigitsBeforeNewline(x: string, a: string, b: string)
    requires AllDigits(a) && AllDigits(b)
    requires HasPrefix(x, a + "\n") && HasPrefix(x, b + "\n")
    ensures a == b
  {
    assert x[..|a| + 1] == a + "\n";
    assert x[..|b| + 1] == b + "\n";
    assert x[|a|] == (a + "\n")[|a|] == '\n';
    assert x[|b|] == (b + "\n")[|b|] == '\n';
    assert forall i :: 0 <= i < |a| ==> x[i] == (a + "\n")[i];
    assert forall i :: 0 <= i < |b| ==> x[i] == (b + "\n")[i];
    assert x[..|a|] == a;
  }

  /** A prefix made of two parts: the second part starts where the first ends. */
  lemma PrefixParts(c: string, p: string, q: string)
    requires HasPrefix(c, p + q)
    ensures HasPrefix(c, p) && HasPrefix(c[|p|..], q)
  {
    assert c[..|p| + |q|] == p + q;
    assert c[..|p|] == (p + q)[..|p|];
    assert c[|p|..][..|q|] == (p + q)[|p|..];
  }

  /** What follows `PAGES=` after the top header lines: the count's digits and a newline. */
  lemma CountDigits(c: string, t: string, n: nat)
    requires HasPrefix(c, t + (CountText(n) + "\n\n"))
    ensures |t| + 6 <= |c| && HasPrefix(c[|t| + 6..], Format(n) + "\n")
  {
    var a := Format(n) + "\n";
    AppendAssoc("PAGES=", Format(n), "\n\n");
    AppendAssoc(t, "PAGES=", Format(n) + "\n\n");
    AppendAssoc(Format(n), "\n", "\n");
    assert t + (CountText(n) + "\n\n") == (t + "PAGES=") + (a + "\n");
    PrefixParts(c, t + "PAGES=", a + "\n");
    PrefixParts(c[|t| + 6..], a, "\n");
  }

  /** The header at the start of a file determines the page count it records. */
  lemma HeaderCountUnique(c: string, n: nat, k: nat)
    ensures HasPrefix(c, Unlines(HeaderLines(n))) && HasPrefix(c, Unlines(HeaderLines(k))) ==> n == k
  {
    if HasPrefix(c, Unlines(HeaderLines(n))) && HasPrefix(c, Unlines(HeaderLines(k))) {
      var t := Unlines(TopLines());
      HeaderText(n);
      HeaderText(k);
      CountDigits(c, t, n);
      CountDigits(c, t, k);
      DigitsBeforeNewline(c[|t| + 6..], Format(n), Format(k));
      FormatInjective(n, k);
    }
  }

  /** As written: allocating a new page leaves a header that no longer records the count. */
  lemma AllocationForgetsCount(st: Store)
    requires HeaderRecordsCount(st) && st.freeList == []
    ensures !HeaderRecordsCount(AllocatePage(st).0)
  {
    HeaderCountUnique(st.content, st.pageCount, st.pageCount + 1);
  }

  /** The corrected allocator keeps the header's count in step with the handler's. */
  lemma PersistedAllocationRecordsCount(st: Store)
    requires HeaderRecordsCount(st)
    ensures HeaderRecordsCount(AllocatePagePersisted(st).0)
  {
    if |st.freeList| == 0 {
      var h := Unlines(HeaderLines(st.pageCount));
      var rest := st.content[|h|..];
      assert st.content == h + rest;
      RewriteCount(st.pageCount, st.pageCount + 1, rest);
    }
  }

  /** Splicing a section keeps any prefix in which no `# PAGE` starts. */
  lemma SpliceKeepsPrefix(content: string, h: string, id: nat, sec: string)
    requires HasPrefix(content, h)
    requires forall p :: OccursAt(content, PageSection, p) ==> p >= |h|
    requires Splice(content, Marker(id), sec).Ok?
    ensures HasPrefix(Splice(content, Marker(id), sec).value, h)
  {
    var p0, q := SpliceShape(content, id, sec);
    assert p0[..|h|] == content[..|h|] == h;
    assert (p0 + sec + q)[..|h|] == p0[..|h|];
  }

  /** Splicing a section into a file keeps the header at its start. */
  lemma SpliceKeepsHeader(content: string, n: nat, id: nat, sec: string)
    requires HasPrefix(content, Unlines(HeaderLines(n)))
    requires Splice(content, Marker(id), sec).Ok?
    ensures HasPrefix(Splice(content, Marker(id), sec).value, Unlines(HeaderLines(n)))
  {
    var h := Unlines(HeaderLines(n));
    assert content == h + content[|h|..];
    forall p | OccursAt(content, PageSection, p)
      ensures p >= |h|
    {
      NoSectionInHeader(n, content[|h|..], p);
    }
    SpliceKeepsPrefix(content, h, id, sec);
  }

  /** Rewriting the header's count from n to k gives the header for k. */
  lemma RewriteKeepsHeader(s: string, n: nat, k: nat)
    requires HasPrefix(s, Unlines(HeaderLines(n)))
    ensures HasPrefix(ReplaceFirst(s, CountText(n), CountText(k)), Unlines(HeaderLines(k)))
  {
    var h := Unlines(HeaderLines(n));
    var rest := s[|h|..];
    assert s == h + rest;
    RewriteCount(n, k, rest);
  }

  /**
   * A write that raises the page count keeps the header in step: when the
   * header recorded the old count, the rewritten `PAGES=` line records the
   * page's id, which is the new count.
   */
  lemma RaisedWriteRecordsCount(st: Store, page: Page, order: seq<string>)
    requires IsKeyOrder(order, page.data)
    requires HeaderRecordsCount(st) && page.header.id > st.pageCount
    requires WritePage(st, page, order).Ok?
    ensures WritePage(st, page, order).value.pageCount == page.header.id
    ensures HeaderRecordsCount(WritePage(st, page, order).value)
  {
    var sec := Section(page, order);
    RaisedWrite(st, page, order);
    SpliceKeepsHeader(st.content, st.pageCount, page.header.id, sec);
    RewriteKeepsHeader(Splice(st.content, Marker(page.header.id), sec).value, st.pageCount, page.header.id);
  }

  /** Writing the first page of a fresh file: where it lands and what the file says. */
  lemma FirstWrite(st: Store, page: Page, order: seq<string>, n: nat)
    requires IsKeyOrder(order, page.data) && Serialisable(page) && page.header.id == 1
    requires n <= 1 && st == Store(Unlines(HeaderLines(n)), DefaultPageSize, 1, [])
    ensures var w := WritePage(st, page, order);
      && w.Ok?
      && ReadPage(w.value, 1) == Ok(page)
      && Open(Some(w.value.content)) == Store(w.value.content, DefaultPageSize, n, [])
  {
    var h := Unlines(HeaderLines(n));
    var ls := SectionLines(page, order);
    var u := Unlines(ls[1..]);
    NoMarkerInHeader(n, 1);
    var w := WritePage(st, page, order);
    assert w == Ok(st.(content := h + "\n" + Section(page, order)));
    assert Section(page, order) == PageSection + "\n" + u;
    AppendAssoc(h, "\n", PageSection + "\n" + u);
    LoadHeaderThenPages(n, u);
    WriteThenRead(st, page, order);
  }

  /**
   * As written: the first page of a new file is written and reads back, yet
   * the file still says `PAGES=0`, so a handler opened on it again rejects
   * page 1 as an invalid id.
   */
  lemma ReopenLosesFirstPage(page: Page, order: seq<string>)
    requires IsKeyOrder(order, page.data) && Serialisable(page) && page.header.id == 1
    ensures var st := AllocatePage(Open(None)).0;
      var w := WritePage(st, page, order);
      && w.Ok?
      && ReadPage(w.value, 1) == Ok(page)
      && ReadPage(Open(Some(w.value.content)), 1) == Err(InvalidPageId)
  {
    OpenNew();
    var st := AllocatePage(Open(None)).0;
    assert st == Store(Unlines(HeaderLines(0)), DefaultPageSize, 1, []);
    FirstWrite(st, page, order, 0);
  }

  /** Corrected: with the count persisted, reopening the file gives back the written page. */
  lemma ReopenKeepsFirstPage(page: Page, order: seq<string>)
    requires IsKeyOrder(order, page.data) && Serialisable(page) && page.header.id == 1
    ensures var st := AllocatePagePersisted(Open(None)).0;
      var w := WritePage(st, page, order);
      && w.Ok?
      && Open(Some(w.value.content)) == w.value
      && ReadPage(Open(Some(w.value.content)), 1) == Ok(page)
  {
    OpenNew();
    var h0 := Unlines(HeaderLines(0));
    RewriteCount(0, 1, "");
    assert h0 + "" == h0;
    assert Unlines(HeaderLines(1)) + "" == Unlines(HeaderLines(1));
    var st := AllocatePagePersisted(Open(None)).0;
    assert st == Store(Unlines(HeaderLines(1)), DefaultPageSize, 1, []);
    FirstWrite(st, page, order, 1);
  }
}
