/**
 * Properties of the text paged store beyond the write/read round trip: what
 * decides whether ReadPage finds a page, how the header is read, how fresh
 * page ids grow, and what becomes of the page count once the file is reopened.
 */
module TextFacts {
  import opened Results
  import opened GoStrings
  import opened Decimal
  import opened TextStore
  import opened TextRoundTrip
  import opened TextLines

  // ---------------------------------------------------------------------------
  // When ReadPage finds a page

  predicate SomeLineContains(lines: seq<string>, m: string) {
    exists line :: line in lines && Contains(line, m)
  }

  /** The loop reports the page found exactly when some line it reads carries the marker. */
  lemma {:induction false} ScanPageFound(lines: seq<string>, m: string, ps: PageScan)
    requires ps.inTarget ==> ps.found
    ensures ScanPage(lines, m, ps).found <==> ps.found || SomeLineContains(lines, m)
  {
    if lines != [] && !(HasPrefix(lines[0], PageSection) && ps.inTarget) {
      var next := ScanLine(lines[0], m, ps);
      ScanPageFound(lines[1..], m, next);
      assert lines == [lines[0]] + lines[1..];
      if SomeLineContains(lines, m) {
        var line :| line in lines && Contains(line, m);
        assert line == lines[0] || line in lines[1..];
      }
    }
  }

  /** A valid id is found exactly when the file text contains its marker anywhere. */
  lemma ReadPageFound(st: Store, id: nat)
    requires 0 < id <= st.pageCount
    ensures ReadPage(st, id) == Err(PageNotFound) <==> !Contains(st.content, Marker(id))
    ensures ReadPage(st, id).Ok? <==> Contains(st.content, Marker(id))
  {
    var m := Marker(id);
    var lines := ScanLines(st.content);
    MarkerShape(id);
    assert m[|m| - 1] != '\r';
    ScanPageFound(lines, m, StartScan);
    if Contains(st.content, m) {
      var line := TextInLine(st.content, m);
    }
    if SomeLineContains(lines, m) {
      var line :| line in lines && Contains(line, m);
      LineInText(st.content, m, line);
    }
  }

  /** The marker of id n is a prefix of the marker of 10n + d. */
  lemma MarkerExtends(n: nat, d: nat)
    requires 0 < n && d < 10
    ensures Marker(10 * n + d) == Marker(n) + [DigitChar(d)]
  {
    var v := 10 * n + d;
    assert v / 10 == n && v % 10 == d;
    assert Format(v) == Format(n) + [DigitChar(d)];
    AppendAssoc("PageID: ", Format(n), [DigitChar(d)]);
  }

  /**
   * The marker is matched as a substring: a file that carries the marker of
   * page 10n + d yields a page for n, whether or not page n was ever written.
   */
  lemma LongerIdFound(st: Store, n: nat, d: nat)
    requires 0 < n <= st.pageCount && d < 10
    requires Contains(st.content, Marker(10 * n + d))
    ensures ReadPage(st, n).Ok?
  {
    var big := Marker(10 * n + d);
    MarkerExtends(n, d);
    var p := Index(st.content, big);
    assert st.content[p..p + |Marker(n)|] == big[..|Marker(n)|];
    OccursAtWitness(st.content, Marker(n), p);
    ReadPageFound(st, n);
  }

  // ---------------------------------------------------------------------------
  // Where WritePage puts a section that is already in the file

  /** The last `# PAGE` in the first i characters, read back in the whole text. */
  lemma SectionStart(content: string, i: nat)
    requires i <= |content| && LastIndex(content[..i], PageSection) >= 0
    ensures var s := LastIndex(content[..i], PageSection);
      && OccursAt(content, PageSection, s) && s + |PageSection| <= i
      && forall k :: s < k && k + |PageSection| <= i ==> !OccursAt(content, PageSection, k)
  {
    var cut := content[..i];
    var s := LastIndex(cut, PageSection);
    assert cut[s..s + |PageSection|] == content[s..s + |PageSection|];
    forall k | s < k && k + |PageSection| <= i
      ensures !OccursAt(content, PageSection, k)
    {
      assert !OccursAt(cut, PageSection, k);
      assert cut[k..k + |PageSection|] == content[k..k + |PageSection|];
    }
  }

  /** Where the section starting at s ends: at the next `# PAGE`, or at the end of the text. */
  lemma SectionEnd(content: string, s: nat) returns (e: nat)
    requires OccursAt(content, PageSection, s)
    ensures var f := Index(content[s + |PageSection|..], PageSection);
      e == if f == -1 then |content| else s + |PageSection| + f
    ensures s + |PageSection| <= e <= |content|
    ensures e == |content| || OccursAt(content, PageSection, e)
    ensures forall k :: s + |PageSection| <= k < e ==> !OccursAt(content, PageSection, k)
  {
    var tail := content[s + |PageSection|..];
    var f := Index(tail, PageSection);
    if f == -1 {
      e := |content|;
    } else {
      e := s + |PageSection| + f;
      assert tail[f..f + |PageSection|] == content[e..e + |PageSection|];
    }
    forall k | s + |PageSection| <= k < e
      ensures !OccursAt(content, PageSection, k)
    {
      var j := k - (s + |PageSection|);
      if OccursAt(content, PageSection, k) {
        assert tail[j..j + |PageSection|] == content[k..k + |PageSection|];
        assert OccursAt(tail, PageSection, j);
      }
    }
  }

  /**
   * When the marker is present, the new section replaces exactly the text from
   * the last `# PAGE` before the first marker up to the next `# PAGE` after
   * it, or to the end of the file; the text on either side is kept as it was.
   */
  lemma SpliceReplacesSection(content: string, marker: string, section: string) returns (s: nat, e: nat)
    requires Index(content, marker) >= 0
    requires Splice(content, marker, section).Ok?
    ensures s <= Index(content, marker) && OccursAt(content, PageSection, s)
    ensures forall k :: s < k && k + |PageSection| <= Index(content, marker) ==> !OccursAt(content, PageSection, k)
    ensures s + |PageSection| <= e <= |content|
    ensures e == |content| || OccursAt(content, PageSection, e)
    ensures forall k :: s + |PageSection| <= k < e ==> !OccursAt(content, PageSection, k)
    ensures Splice(content, marker, section) == Ok(content[..s] + section + content[e..])
  {
    var i := Index(content, marker);
    s := LastIndex(content[..i], PageSection);
    SectionStart(content, i);
    e := SectionEnd(content, s);
    if e == |content| {
      assert content[..s] + section + content[e..] == content[..s] + section;
    }
  }

  // ---------------------------------------------------------------------------
  // Which ids AllocatePage hands out

  /** The ids of k allocations in a row. */
  function AllocatedIds(st: Store, k: nat): (ids: seq<nat>)
    ensures |ids| == k
    decreases k
  {
    if k == 0 then []
    else
      var a := AllocatePage(st);
      [a.1.header.id] + AllocatedIds(a.0, k - 1)
  }

  /**
   * Allocation drains the free list in order and then counts upwards from
   * the page count: the i-th id is the i-th free id, or past the free list
   * the page count plus how far past it is.
   */
  lemma {:induction false} AllocatedIdsOrder(st: Store, k: nat)
    ensures forall i :: 0 <= i < k ==>
      AllocatedIds(st, k)[i] == if i < |st.freeList| then st.freeList[i] else st.pageCount + 1 + (i - |st.freeList|)
    decreases k
  {
    if k > 0 {
      var a := AllocatePage(st);
      AllocatedIdsOrder(a.0, k - 1);
      var ids := AllocatedIds(st, k);
      assert ids == [a.1.header.id] + AllocatedIds(a.0, k - 1);
      forall i | 0 < i < k
        ensures ids[i] == if i < |st.freeList| then st.freeList[i] else st.pageCount + 1 + (i - |st.freeList|)
      {
        assert ids[i] == AllocatedIds(a.0, k - 1)[i - 1];
        if i < |st.freeList| {
          assert st.freeList[1..][i - 1] == st.freeList[i];
        }
      }
    }
  }

  /** With an empty free list every allocation yields a new id, each above the last. */
  lemma FreshIdsIncrease(st: Store, k: nat)
    requires st.freeList == []
    ensures forall i, j :: 0 <= i < j < k ==> st.pageCount < AllocatedIds(st, k)[i] < AllocatedIds(st, k)[j]
  {
    AllocatedIdsOrder(st, k);
  }

  /** A page allocated from the count is an id ReadPage rejected before and accepts after. */
  lemma AllocateOpensId(st: Store)
    requires st.freeList == []
    ensures var a := AllocatePage(st);
      && ReadPage(st, a.1.header.id) == Err(InvalidPageId)
      && ReadPage(a.0, a.1.header.id) != Err(InvalidPageId)
  {
  }
}
