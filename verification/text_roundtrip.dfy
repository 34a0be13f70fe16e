/**
 * WritePage followed by ReadPage of the same id gives the page back.
 *
 * ReadPage scans the file from the top and enters the first line that
 * contains the page's marker; WritePage puts the new section exactly where
 * that first marker was (or at the end when there was none). What lies
 * before the section therefore never contains the marker, the section parses
 * back into the page, and what follows it starts with `# PAGE` and ends the
 * scan. The payload has to be text the line format can carry.
 */
module TextRoundTrip {
  import opened Results
  import opened GoStrings
  import opened Decimal
  import opened TextStore

  /** A payload entry whose `key: value` line reads back as the same entry. */
  predicate EntryRoundTrips(key: string, value: string) {
    && key != "LSN" && key != "Type" && key != "PageID"
    && '\n' !in key && '\n' !in value
    && !Contains(key, ": ")
    && Trimmed(key) && Trimmed(value)
    && !HasPrefix(key + ": " + value, PageSection)
  }

  /** A page the text format can carry. */
  predicate Serialisable(page: Page) {
    && 0 < page.header.id
    && page.header.lsn <= MaxUint64
    && '\n' !in page.header.pageType && Trimmed(page.header.pageType)
    && forall k :: k in page.data ==> EntryRoundTrips(k, page.data[k])
  }

  /**
   * The header's `PAGES=<count>` text occurs, and its first occurrence ends
   * before every `# PAGE` in the file: the count sits in the header.
   */
  predicate CountInHeader(st: Store) {
    var j := Index(st.content, CountText(st.pageCount));
    && j >= 0
    && forall p :: 0 <= p <= |st.content| && OccursAt(st.content, PageSection, p) ==> j + |CountText(st.pageCount)| <= p
  }

  // ---------------------------------------------------------------------------
  // Where a marker cannot occur

  lemma NotContains(s: string, m: string)
    requires forall p :: !OccursAt(s, m, p)
    ensures !Contains(s, m)
  {
    ContainsIff(s, m);
  }

  lemma OccursAtWitness(s: string, m: string, p: int)
    requires OccursAt(s, m, p)
    ensures Contains(s, m)
  {
    ContainsIff(s, m);
  }

  /** The marker's characters: it starts with `P`, ends with a digit, and has no `#`, `A`, `=` or newline. */
  lemma MarkerShape(id: nat)
    ensures var m := Marker(id);
      && |m| >= 9 && m[0] == 'P' && IsDigit(m[|m| - 1])
      && forall i :: 0 <= i < |m| ==> m[i] != '#' && m[i] != 'A' && m[i] != '=' && m[i] != '\n' && m[i] != '\r'
  {
    var m := Marker(id);
    var f := Format(id);
    assert m == "PageID: " + f;
    forall i | 0 <= i < |m|
      ensures m[i] != '#' && m[i] != 'A' && m[i] != '=' && m[i] != '\n' && m[i] != '\r'
    {
      if i >= 8 {
        assert m[i] == f[i - 8];
      }
    }
    assert m[|m| - 1] == f[|f| - 1];
  }

  /** A piece of a text without the marker has no marker either. */
  lemma NoMarkerInSlice(s: string, m: string, lo: int, hi: int)
    requires 0 <= lo <= hi <= |s|
    requires !Contains(s, m)
    ensures !Contains(s[lo..hi], m)
  {
    forall p ensures !OccursAt(s[lo..hi], m, p) {
      NotOccursAt(s, m, lo + p);
      if 0 <= p && p + |m| <= hi - lo {
        var t := s[lo..hi];
        var u := t[p..p + |m|];
        var v := s[lo + p..lo + p + |m|];
        forall i | 0 <= i < |m| ensures u[i] == v[i] { }
        assert u == v;
      }
    }
    NotContains(s[lo..hi], m);
  }

  /** Text before the first occurrence of the marker does not contain it. */
  lemma NoMarkerBeforeFirst(s: string, m: string, k: int)
    requires |m| > 0
    requires 0 <= k <= |s|
    requires Index(s, m) == -1 || k <= Index(s, m)
    ensures !Contains(s[..k], m)
  {
    forall p ensures !OccursAt(s[..k], m, p) {
      if 0 <= p && p + |m| <= k {
        assert s[..k][p..p + |m|] == s[p..p + |m|];
        assert !OccursAt(s, m, p);
      }
    }
    NotContains(s[..k], m);
  }

  /** Appending a character the marker does not end with creates no marker. */
  lemma NoMarkerAppendChar(a: string, c: char, id: nat)
    requires !Contains(a, Marker(id))
    requires !IsDigit(c)
    ensures !Contains(a + [c], Marker(id))
  {
    var m := Marker(id);
    MarkerShape(id);
    forall p | OccursAt(a + [c], m, p)
      ensures false
    {
      if p + |m| <= |a| {
        assert (a + [c])[p..p + |m|] == a[p..p + |m|];
        OccursAtWitness(a, m, p);
      }
    }
    NotContains(a + [c], m);
  }

  /** A `# PAGE` glued to marker-free text creates no marker. */
  lemma NoMarkerBeforePageSection(a: string, id: nat)
    requires !Contains(a, Marker(id))
    ensures !Contains(a + PageSection, Marker(id))
  {
    var m := Marker(id);
    var s := a + PageSection;
    MarkerShape(id);
    forall p | OccursAt(s, m, p)
      ensures false
    {
      if p + |m| <= |a| {
        assert s[p..p + |m|] == a[p..p + |m|];
        OccursAtWitness(a, m, p);
      }
    }
    NotContains(s, m);
  }

  lemma NotOccursAt(s: string, m: string, p: int)
    requires !Contains(s, m)
    ensures !OccursAt(s, m, p)
  {
    ContainsIff(s, m);
  }

  /** One differing character rules an occurrence out. */
  lemma CharMismatch(s: string, m: string, p: int, i: int)
    requires 0 <= i < |m| && 0 <= p + i < |s|
    requires s[p + i] != m[i]
    ensures !OccursAt(s, m, p)
  {
    if 0 <= p && p + |m| <= |s| {
      assert s[p..p + |m|][i] != m[i];
    }
  }

  /** No marker can overlap the rewritten `PAGES=<n>` text. */
  lemma NoMarkerOverlapsCount(a: string, b: string, newCount: nat, id: nat, p: int)
    requires 0 <= p
    requires |a| < p + |Marker(id)| && p < |a| + |CountText(newCount)|
    ensures !OccursAt(a + CountText(newCount) + b, Marker(id), p)
  {
    var m := Marker(id);
    var r := CountText(newCount);
    var s' := a + r + b;
    MarkerShape(id);
    assert r[..6] == "PAGES=";
    var q := |a| + 1;
    if p <= q < p + |m| {
      assert s'[q] == r[1] == 'A';
      CharMismatch(s', m, p, q - p);
    } else if p + |m| <= q {
      assert s'[|a|] == r[0] == 'P';
      CharMismatch(s', m, p, |m| - 1);
    } else if p <= |a| + 5 {
      assert s'[|a| + 5] == r[5] == '=';
      CharMismatch(s', m, p, |a| + 5 - p);
    } else {
      assert s'[p] == r[p - |a|] == Format(newCount)[p - |a| - 6];
      CharMismatch(s', m, p, 0);
    }
  }

  /**
   * Rewriting `PAGES=<old>` to `PAGES=<new>` creates no marker: the marker
   * has no `A` and no `=`, starts with a letter and ends with a digit.
   */
  lemma NoMarkerAfterCountRewrite(a: string, b: string, oldCount: nat, newCount: nat, id: nat)
    requires !Contains(a + CountText(oldCount) + b, Marker(id))
    ensures !Contains(a + CountText(newCount) + b, Marker(id))
  {
    var m := Marker(id);
    var o := CountText(oldCount);
    var r := CountText(newCount);
    var s := a + o + b;
    var s' := a + r + b;
    forall p ensures !OccursAt(s', m, p) {
      if 0 <= p && p + |m| <= |a| {
        NotOccursAt(s, m, p);
        OccursLeftOfSwap(a, o, r, b, m, p);
      } else if p >= |a| + |r| {
        NotOccursAt(s, m, p - |r| + |o|);
        OccursRightOfSwap(a, o, r, b, m, p);
      } else if p >= 0 {
        NoMarkerOverlapsCount(a, b, newCount, id, p);
      }
    }
    NotContains(s', m);
  }

  /** Swapping the middle of a text keeps any occurrence that lies wholly before it. */
  lemma OccursLeftOfSwap(a: string, o: string, r: string, b: string, m: string, p: int)
    requires 0 <= p && p + |m| <= |a|
    requires !OccursAt(a + o + b, m, p)
    ensures !OccursAt(a + r + b, m, p)
  {
    var s, s' := a + o + b, a + r + b;
    assert s[p..p + |m|] == a[p..p + |m|];
    assert s'[p..p + |m|] == a[p..p + |m|];
  }

  /** Swapping the middle of a text shifts any occurrence that lies wholly after it. */
  lemma OccursRightOfSwap(a: string, o: string, r: string, b: string, m: string, p: int)
    requires p >= |a| + |r|
    requires !OccursAt(a + o + b, m, p - |r| + |o|)
    ensures !OccursAt(a + r + b, m, p)
  {
    var s, s' := a + o + b, a + r + b;
    var p0 := p - |r| + |o|;
    var k := p - |a| - |r|;
    if p + |m| <= |s'| {
      assert s'[p..p + |m|] == b[k..k + |m|];
      assert s[p0..p0 + |m|] == b[k..k + |m|];
    }
  }

  // ---------------------------------------------------------------------------
  // First occurrences under extension

  /** Text appended after an occurrence does not move the first occurrence. */
  lemma IndexPrefix(s: string, t: string, sub: string)
    requires Index(s, sub) >= 0
    ensures Index(s + t, sub) == Index(s, sub)
  {
    var j := Index(s, sub);
    assert (s + t)[j..j + |sub|] == s[j..j + |sub|];
    assert OccursAt(s + t, sub, j);
    var r := Index(s + t, sub);
    assert 0 <= r <= j;
    assert (s + t)[r..r + |sub|] == s[r..r + |sub|];
    assert OccursAt(s, sub, r);
  }

  // ---------------------------------------------------------------------------
  // The ReadPage loop over the written text

  /** Lines outside the target page that do not contain the marker change nothing. */
  lemma SkipLine(line: string, rest: seq<string>, m: string, ps: PageScan)
    requires !ps.inTarget
    requires !Contains(line, m)
    ensures ScanPage([line] + rest, m, ps) == ScanPage(rest, m, ps)
  {
    assert ([line] + rest)[1..] == rest;
  }

  /** A complete first line is scanned on its own, whatever follows the text. */
  lemma FirstLineScan(a: string, t: string)
    requires IndexChar(a, '\n') >= 0
    ensures var k := IndexChar(a, '\n');
      ScanLines(a + t) == [DropCR(a[..k])] + ScanLines(a[k + 1..] + t)
  {
    var k := IndexChar(a, '\n');
    var s := a + t;
    assert IndexChar(s, '\n') == k by { IndexCharAppend(a, t, '\n'); }
    assert s[..k] == a[..k];
    assert s[k + 1..] == a[k + 1..] + t;
    ScanLinesStep(s);
  }

  /** The first line of marker-free text, and what follows it, are marker-free. */
  lemma FirstLineNoMarker(a: string, k: int, m: string)
    requires 0 <= k < |a|
    requires !Contains(a, m)
    ensures !Contains(DropCR(a[..k]), m) && !Contains(a[k + 1..], m)
  {
    var line := DropCR(a[..k]);
    DropCRIsPrefix(a[..k]);
    assert a[..k][..|line|] == a[..|line|];
    NoMarkerInSlice(a, m, 0, |line|);
    NoMarkerInSlice(a, m, k + 1, |a|);
    assert a[k + 1..|a|] == a[k + 1..];
  }

  /** Outside the target page, the first complete line of marker-free text is skipped. */
  lemma SkipFirstLine(a: string, t: string, id: nat, ps: PageScan) returns (a': string)
    requires !ps.inTarget
    requires IndexChar(a, '\n') >= 0
    requires !Contains(a, Marker(id))
    ensures |a'| < |a| && !Contains(a', Marker(id))
    ensures ScanPage(ScanLines(a + t), Marker(id), ps) == ScanPage(ScanLines(a' + t), Marker(id), ps)
  {
    var m := Marker(id);
    var k := IndexChar(a, '\n');
    a' := a[k + 1..];
    FirstLineScan(a, t);
    FirstLineNoMarker(a, k, m);
    SkipLine(DropCR(a[..k]), ScanLines(a' + t), m, ps);
  }

  /** A last partial line of marker-free text merges with the `# PAGE` line that follows it. */
  lemma LastLineOfPrefix(a: string, t: string, rest: string, id: nat)
    requires t == PageSection + "\n" + rest
    requires IndexChar(a, '\n') == -1
    requires !Contains(a, Marker(id))
    ensures ScanLines(a + t) == [a + PageSection] + ScanLines(rest)
    ensures !Contains(a + PageSection, Marker(id))
  {
    var line := a + PageSection;
    var s := a + t;
    AppendAssoc(a, PageSection + "\n", rest);
    AppendAssoc(a, PageSection, "\n");
    assert s == line + "\n" + rest;
    IndexCharFirst(line, '\n', rest);
    ScanLinesStep(s);
    assert s[..|line|] == line;
    assert s[|line| + 1..] == rest;
    assert DropCR(line) == line;
    NoMarkerBeforePageSection(a, id);
  }

  /**
   * Marker-free text followed by a `# PAGE` line is skipped by the loop,
   * whether or not the text ends in a newline.
   */
  lemma {:induction false} SkipPrefix(a: string, t: string, rest: string, id: nat, ps: PageScan)
    requires t == PageSection + "\n" + rest
    requires !ps.inTarget
    requires !Contains(a, Marker(id))
    ensures ScanPage(ScanLines(a + t), Marker(id), ps) == ScanPage(ScanLines(rest), Marker(id), ps)
    decreases |a|
  {
    if IndexChar(a, '\n') >= 0 {
      var a' := SkipFirstLine(a, t, id, ps);
      SkipPrefix(a', t, rest, id, ps);
    } else {
      LastLineOfPrefix(a, t, rest, id);
      SkipLine(a + PageSection, ScanLines(rest), Marker(id), ps);
    }
  }

  /** A line inside the target page that does not start a new section is parsed. */
  lemma ParseLine(line: string, rest: seq<string>, m: string, ps: PageScan)
    requires ps.inTarget && ps.found
    requires !HasPrefix(line, PageSection) && line != ""
    ensures ScanPage([line] + rest, m, ps) == ScanPage(rest, m, ApplyPageLine(line, ps))
  {
    assert ps.(inTarget := true, found := true) == ps;
    assert ScanLine(line, m, ps) == ApplyPageLine(line, ps);
    assert ([line] + rest)[1..] == rest;
  }

  /** `key: value` splits at the separator after the key when the key holds no separator. */
  lemma SplitKeyValue(key: string, value: string)
    requires !Contains(key, ": ")
    ensures SplitN2(key + ": " + value, ": ") == [key, value]
  {
    var s := key + ": " + value;
    var n := |key|;
    assert s[n..n + 2] == ": ";
    forall p | 0 <= p < n
      ensures !OccursAt(s, ": ", p)
    {
      if p + 2 <= n {
        assert s[p..p + 2] == key[p..p + 2];
        NotOccursAt(key, ": ", p);
      } else {
        assert s[p + 1] == ':';
        CharMismatch(s, ": ", p, 1);
      }
    }
    assert OccursAt(s, ": ", n);
    assert Index(s, ": ") == n;
    assert s[..n] == key;
    assert s[n + 2..] == value;
  }

  /** A `key: value` line with a trimmed, separator-free key applies that pair. */
  lemma ApplyKeyValue(key: string, value: string, ps: PageScan)
    requires !Contains(key, ": ") && Trimmed(key) && Trimmed(value)
    ensures ApplyPageLine(key + ": " + value, ps) == ApplyField(key, value, ps)
  {
    SplitKeyValue(key, value);
    TrimSpaceOfTrimmed(key);
    TrimSpaceOfTrimmed(value);
  }

  lemma ParseEntry(key: string, value: string, ps: PageScan)
    requires EntryRoundTrips(key, value)
    ensures ApplyPageLine(key + ": " + value, ps) == ps.(data := ps.data[key := value])
  {
    ApplyKeyValue(key, value, ps);
  }

  /** The map the payload loop builds: each listed key set to its value, in order. */
  function StoreEntries(acc: map<string, string>, data: map<string, string>, order: seq<string>): map<string, string>
    requires forall i :: 0 <= i < |order| ==> order[i] in data
    decreases order
  {
    if order == [] then acc else StoreEntries(acc[order[0] := data[order[0]]], data, order[1..])
  }

  lemma {:induction false} StoreCovers(acc: map<string, string>, data: map<string, string>, order: seq<string>)
    requires forall i :: 0 <= i < |order| ==> order[i] in data
    ensures forall k :: k in StoreEntries(acc, data, order) <==> k in acc || k in order
    ensures forall k :: k in order ==> StoreEntries(acc, data, order)[k] == data[k]
    ensures forall k :: k in acc && k !in order ==> StoreEntries(acc, data, order)[k] == acc[k]
    decreases order
  {
    if order != [] {
      StoreCovers(acc[order[0] := data[order[0]]], data, order[1..]);
      forall k | k in order ensures StoreEntries(acc, data, order)[k] == data[k] {
        if k !in order[1..] {
          assert k == order[0];
        }
      }
    }
  }

  /** Storing every key of the page, in any key order, rebuilds the page's map. */
  lemma StoreAll(data: map<string, string>, order: seq<string>)
    requires IsKeyOrder(order, data)
    ensures StoreEntries(map[], data, order) == data
  {
    StoreCovers(map[], data, order);
  }

  /** A line built from newline-free parts is scannable when it does not end in a carriage return. */
  lemma ScannableConcat(a: string, b: string)
    requires '\n' !in a && '\n' !in b
    requires b != [] && b[|b| - 1] != '\r'
    ensures Scannable(a + b)
  {
    assert (a + b)[|a + b| - 1] == b[|b| - 1];
  }

  lemma EntryLineScannable(key: string, value: string)
    requires EntryRoundTrips(key, value)
    ensures Scannable(key + ": " + value)
  {
    if value != [] {
      ScannableConcat(key + ": ", value);
    } else {
      assert key + ": " + value == key + ": ";
      ScannableConcat(key, ": ");
    }
  }

  lemma {:induction false} ScanPayload(data: map<string, string>, order: seq<string>, tail: seq<string>, m: string, ps: PageScan)
    requires forall i :: 0 <= i < |order| ==> order[i] in data
    requires forall k :: k in data ==> EntryRoundTrips(k, data[k])
    requires ps.inTarget && ps.found
    ensures ScanPage(PayloadLines(data, order) + tail, m, ps)
         == ScanPage(tail, m, ps.(data := StoreEntries(ps.data, data, order)))
  {
    if order == [] {
      assert PayloadLines(data, order) + tail == tail;
    } else {
      var k := order[0];
      var line := k + ": " + data[k];
      var rest := PayloadLines(data, order[1..]) + tail;
      assert PayloadLines(data, order) + tail == [line] + rest;
      assert line != "" by { assert line[|k|] == ':'; }
      ParseLine(line, rest, m, ps);
      ParseEntry(k, data[k], ps);
      ScanPayload(data, order[1..], tail, m, ps.(data := ps.data[k := data[k]]));
    }
  }

  /** Dropping a carriage return keeps a `# PAGE` prefix. */
  lemma DropCRKeepsSection(x: string)
    requires HasPrefix(x, PageSection)
    ensures HasPrefix(DropCR(x), PageSection)
  {
    if |x| > 0 && x[|x| - 1] == '\r' {
      assert x[5] == 'E' by { assert x[..6][5] == x[5]; }
      assert DropCR(x)[..6] == x[..6];
    }
  }

  /** The first newline of text starting with `# PAGE` comes after it. */
  lemma NewlineAfterSection(q: string)
    requires HasPrefix(q, PageSection)
    ensures IndexChar(q, '\n') == -1 || IndexChar(q, '\n') >= |PageSection|
  {
    assert '\n' !in q[..6];
    assert forall j | 0 <= j < 6 :: q[..6][j] == q[j];
  }

  /** The first line of text starting with `# PAGE` starts with `# PAGE`. */
  lemma NextSectionLine(q: string)
    requires HasPrefix(q, PageSection)
    ensures ScanLines(q) != [] && HasPrefix(ScanLines(q)[0], PageSection)
  {
    NewlineAfterSection(q);
    var k := IndexChar(q, '\n');
    var e := if k == -1 then |q| else k;
    assert q[..e][..6] == q[..6];
    DropCRKeepsSection(q[..e]);
    assert ScanLines(q)[0] == DropCR(q[..e]);
  }

  /** A `# PAGE` line, or the end of the text, ends the entered page. */
  lemma EndStep(tail: seq<string>, m: string, ps: PageScan)
    requires ps.inTarget
    requires tail == [] || HasPrefix(tail[0], PageSection)
    ensures ScanPage(tail, m, ps) == ps
  {
  }

  lemma ShiftLines(a: string, b: string, c: string, d: string, p: seq<string>, t: seq<string>)
    ensures ([a, b, c, d] + p)[1..] + t == [b] + ([c] + ([d] + (p + t)))
  {
  }

  /** A key without a colon holds no `: ` separator. */
  lemma NoSeparator(key: string)
    requires ':' !in key
    ensures !Contains(key, ": ")
  {
    forall p ensures !OccursAt(key, ": ", p) {
      if 0 <= p < |key| {
        CharMismatch(key, ": ", p, 0);
      }
    }
    NotContains(key, ": ");
  }

  lemma ContainsSelf(s: string)
    ensures Contains(s, s)
  {
    assert s[0..|s|] == s;
    OccursAtWitness(s, s, 0);
  }

  lemma MarkerSplit(id: nat)
    ensures Marker(id) == "PageID" + ": " + Format(id)
  {
  }

  /** The PageID field is not stored: the id comes from the request. */
  lemma PageIdFieldIgnored(value: string, ps: PageScan)
    ensures ApplyField("PageID", value, ps) == ps
  {
  }

  /** The marker line, met outside any page, enters the page and sets nothing else. */
  lemma MarkerLine(id: nat)
    ensures ScanLine(Marker(id), Marker(id), StartScan) == StartScan.(inTarget := true, found := true)
  {
    MarkerEnters(id);
    MarkerApplies(id, StartScan.(inTarget := true, found := true));
  }

  lemma MarkerEnters(id: nat)
    ensures ScanLine(Marker(id), Marker(id), StartScan)
         == ApplyPageLine(Marker(id), StartScan.(inTarget := true, found := true))
  {
    ContainsSelf(Marker(id));
    NotSectionLine("PageID: ", Format(id));
  }

  lemma MarkerApplies(id: nat, ps: PageScan)
    ensures ApplyPageLine(Marker(id), ps) == ps
  {
    MarkerSplit(id);
    NoSeparator("PageID");
    FormatTrimmed(id);
    ApplyKeyValue("PageID", Format(id), ps);
    PageIdFieldIgnored(Format(id), ps);
  }

  /** The marker line enters the page. */
  lemma MarkerStep(id: nat, rest: seq<string>)
    ensures ScanPage([Marker(id)] + rest, Marker(id), StartScan)
         == ScanPage(rest, Marker(id), StartScan.(inTarget := true, found := true))
  {
    MarkerLine(id);
    assert ([Marker(id)] + rest)[1..] == rest;
  }

  lemma ApplyLsnLine(lsn: nat, ps: PageScan)
    requires lsn <= MaxUint64
    ensures ApplyPageLine("LSN: " + Format(lsn), ps) == ps.(lsn := lsn)
  {
    var f := Format(lsn);
    assert "LSN: " + f == "LSN" + ": " + f;
    NoSeparator("LSN");
    FormatTrimmed(lsn);
    ApplyKeyValue("LSN", f, ps);
    ScanUintFormat(lsn);
  }

  /** A line that starts with something other than `#` is no section line. */
  lemma NotSectionLine(head: string, tail: string)
    requires head != [] && head[0] != '#'
    ensures head + tail != "" && !HasPrefix(head + tail, PageSection)
  {
    assert (head + tail)[0] == head[0];
  }

  /** The LSN line of the entered page stores the LSN. */
  lemma LsnStep(lsn: nat, rest: seq<string>, m: string, ps: PageScan)
    requires lsn <= MaxUint64
    requires ps.inTarget && ps.found
    ensures ScanPage(["LSN: " + Format(lsn)] + rest, m, ps) == ScanPage(rest, m, ps.(lsn := lsn))
  {
    var line := "LSN: " + Format(lsn);
    ApplyLsnLine(lsn, ps);
    NotSectionLine("LSN: ", Format(lsn));
    ParseLine(line, rest, m, ps);
  }

  lemma ApplyTypeLine(pageType: string, ps: PageScan)
    requires Trimmed(pageType)
    ensures ApplyPageLine("Type: " + pageType, ps) == ps.(pageType := pageType)
  {
    assert "Type: " + pageType == "Type" + ": " + pageType;
    NoSeparator("Type");
    ApplyKeyValue("Type", pageType, ps);
  }

  /** The Type line of the entered page stores the page type. */
  lemma TypeStep(pageType: string, rest: seq<string>, m: string, ps: PageScan)
    requires Trimmed(pageType)
    requires ps.inTarget && ps.found
    ensures ScanPage(["Type: " + pageType] + rest, m, ps) == ScanPage(rest, m, ps.(pageType := pageType))
  {
    var line := "Type: " + pageType;
    ApplyTypeLine(pageType, ps);
    NotSectionLine("Type: ", pageType);
    ParseLine(line, rest, m, ps);
  }

  /** The section's lines after `# PAGE`, followed by the next section or nothing, parse into the page. */
  lemma ScanSectionBody(page: Page, order: seq<string>, tail: seq<string>)
    requires IsKeyOrder(order, page.data)
    requires Serialisable(page)
    requires tail == [] || HasPrefix(tail[0], PageSection)
    ensures ScanPage(SectionLines(page, order)[1..] + tail, Marker(page.header.id), StartScan)
         == PageScan(true, true, page.header.lsn, page.header.pageType, page.data)
  {
    var h := page.header;
    var m := Marker(h.id);
    var lsnLine := "LSN: " + Format(h.lsn);
    var typeLine := "Type: " + h.pageType;
    var payload := PayloadLines(page.data, order);
    assert SectionLines(page, order) == [PageSection, m, lsnLine, typeLine] + payload;
    ShiftLines(PageSection, m, lsnLine, typeLine, payload, tail);
    MarkerStep(h.id, [lsnLine] + ([typeLine] + (payload + tail)));
    var ps1 := StartScan.(inTarget := true, found := true);
    LsnStep(h.lsn, [typeLine] + (payload + tail), m, ps1);
    var ps2 := ps1.(lsn := h.lsn);
    TypeStep(h.pageType, payload + tail, m, ps2);
    var ps3 := ps2.(pageType := h.pageType);
    ScanPayload(page.data, order, tail, m, ps3);
    StoreAll(page.data, order);
    EndStep(tail, m, ps3.(data := page.data));
  }

  lemma SectionScannable(page: Page, order: seq<string>)
    requires IsKeyOrder(order, page.data)
    requires Serialisable(page)
    ensures forall i :: 0 <= i < |SectionLines(page, order)| ==> Scannable(SectionLines(page, order)[i])
  {
    var ls := SectionLines(page, order);
    var h := page.header;
    MarkerShape(h.id);
    var f := Format(h.lsn);
    assert IsDigit(f[|f| - 1]);
    ScannableConcat("LSN: ", f);
    if h.pageType != [] {
      ScannableConcat("Type: ", h.pageType);
    }
    forall i | 4 <= i < |ls| ensures Scannable(ls[i]) {
      var k := order[i - 4];
      EntryLineScannable(k, page.data[k]);
    }
  }

  /**
   * The written text is marker-free text, then the section, then nothing or
   * the next section: ReadPage of that text yields the page.
   */
  lemma ReadSection(prefix: string, page: Page, order: seq<string>, q: string)
    requires IsKeyOrder(order, page.data)
    requires Serialisable(page)
    requires !Contains(prefix, Marker(page.header.id))
    requires q == [] || HasPrefix(q, PageSection)
    ensures ScanPage(ScanLines(prefix + Section(page, order) + q), Marker(page.header.id), StartScan)
         == PageScan(true, true, page.header.lsn, page.header.pageType, page.data)
  {
    var ls := SectionLines(page, order);
    var body := ls[1..];
    var sec := Section(page, order);
    var rest := Unlines(body) + q;
    var t := sec + q;
    assert sec == PageSection + "\n" + Unlines(body);
    AppendAssoc(PageSection + "\n", Unlines(body), q);
    AppendAssoc(prefix, sec, q);
    SkipPrefix(prefix, t, rest, page.header.id, StartScan);
    SectionScannable(page, order);
    ScanUnlines(body, q);
    if q != [] {
      NextSectionLine(q);
    }
    ScanSectionBody(page, order, ScanLines(q));
  }

  // ---------------------------------------------------------------------------
  // The round trip

  /** The text WritePage produces, before any page-count rewrite, is prefix + section + rest. */
  lemma SpliceShape(content: string, id: nat, sec: string) returns (prefix: string, q: string)
    requires Splice(content, Marker(id), sec).Ok?
    ensures Splice(content, Marker(id), sec).value == prefix + sec + q
    ensures !Contains(prefix, Marker(id))
    ensures q == [] || HasPrefix(q, PageSection)
    ensures Index(content, Marker(id)) == -1 ==> prefix == content + "\n"
    ensures Index(content, Marker(id)) >= 0 ==>
      |prefix| <= |content| && prefix == content[..|prefix|] && OccursAt(content, PageSection, |prefix|)
  {
    if Index(content, Marker(id)) == -1 {
      prefix, q := SpliceAppendShape(content, id, sec);
    } else {
      prefix, q := SpliceReplaceShape(content, id, sec);
    }
  }

  /** A page not yet in the file is appended after a newline. */
  lemma SpliceAppendShape(content: string, id: nat, sec: string) returns (prefix: string, q: string)
    requires Index(content, Marker(id)) == -1
    ensures Splice(content, Marker(id), sec) == Ok(prefix + sec + q)
    ensures !Contains(prefix, Marker(id)) && q == [] && prefix == content + "\n"
  {
    var m := Marker(id);
    MarkerShape(id);
    NoMarkerBeforeFirst(content, m, |content|);
    assert content[..|content|] == content;
    NoMarkerAppendChar(content, '\n', id);
    prefix, q := content + "\n", [];
    assert prefix + sec + q == prefix + sec;
  }

  /** A page already in the file has its section replaced, up to the next `# PAGE` or the end. */
  lemma SpliceReplaceShape(content: string, id: nat, sec: string) returns (prefix: string, q: string)
    requires Index(content, Marker(id)) >= 0
    requires Splice(content, Marker(id), sec).Ok?
    ensures Splice(content, Marker(id), sec).value == prefix + sec + q
    ensures !Contains(prefix, Marker(id))
    ensures q == [] || HasPrefix(q, PageSection)
    ensures |prefix| <= |content| && prefix == content[..|prefix|] && OccursAt(content, PageSection, |prefix|)
  {
    var m := Marker(id);
    MarkerShape(id);
    var i := Index(content, m);
    var cut := content[..i];
    var s := LastIndex(cut, PageSection);
    assert cut[s..s + 6] == content[s..s + 6];
    NoMarkerBeforeFirst(content, m, s);
    prefix := content[..s];
    var after := content[s + |PageSection|..];
    var e := Index(after, PageSection);
    if e == -1 {
      q := [];
      assert prefix + sec + q == prefix + sec;
    } else {
      q := content[s + |PageSection| + e..];
      assert q[..6] == after[e..e + 6];
    }
  }

  /** The first occurrence of a text inside a prefix of the content stays the first. */
  lemma IndexInPrefix(content: string, prefix: string, o: string)
    requires Index(content, o) >= 0
    requires prefix == content + "\n"
      || (|prefix| <= |content| && prefix == content[..|prefix|] && Index(content, o) + |o| <= |prefix|)
    ensures Index(prefix, o) == Index(content, o) && Index(content, o) + |o| <= |prefix|
  {
    var j := Index(content, o);
    if prefix == content + "\n" {
      IndexPrefix(content, "\n", o);
    } else {
      assert prefix[j..j + |o|] == content[j..j + |o|];
      OccursAtWitness(prefix, o, j);
      IndexPrefix(prefix, content[|prefix|..], o);
      assert prefix + content[|prefix|..] == content;
    }
  }

  /** Replacing the first occurrence, when it lies in the prefix, rewrites only the prefix. */
  lemma ReplaceInPrefix(prefix: string, rest: string, o: string, r: string)
    requires Index(prefix, o) >= 0
    ensures var j := Index(prefix, o);
      ReplaceFirst(prefix + rest, o, r) == prefix[..j] + r + prefix[j + |o|..] + rest
  {
    var j := Index(prefix, o);
    IndexPrefix(prefix, rest, o);
    assert (prefix + rest)[..j] == prefix[..j];
    assert (prefix + rest)[j + |o|..] == prefix[j + |o|..] + rest;
  }

  /** A store whose text is marker-free text, the section, then nothing or the next section, reads the page back. */
  lemma ReadBack(st: Store, page: Page, order: seq<string>, prefix: string, q: string)
    requires IsKeyOrder(order, page.data)
    requires Serialisable(page)
    requires page.header.id <= st.pageCount
    requires !Contains(prefix, Marker(page.header.id))
    requires q == [] || HasPrefix(q, PageSection)
    requires st.content == prefix + Section(page, order) + q
    ensures ReadPage(st, page.header.id) == Ok(page)
  {
    ReadSection(prefix, page, order, q);
  }

  /** The content of a WritePage that raises the page count. */
  lemma RaisedWrite(st: Store, page: Page, order: seq<string>)
    requires IsKeyOrder(order, page.data)
    requires page.header.id > st.pageCount
    requires WritePage(st, page, order).Ok?
    ensures Splice(st.content, Marker(page.header.id), Section(page, order)).Ok?
    ensures WritePage(st, page, order).value.content
         == ReplaceFirst(Splice(st.content, Marker(page.header.id), Section(page, order)).value,
                         CountText(st.pageCount), CountText(page.header.id))
  {
  }

  /** Rewriting a first occurrence that lies in a prefix of the content rewrites only that prefix. */
  lemma RewriteInPrefix(content: string, p0: string, rest: string, o: string, r: string)
    requires Index(content, o) >= 0
    requires p0 == content + "\n"
      || (|p0| <= |content| && p0 == content[..|p0|] && Index(content, o) + |o| <= |p0|)
    ensures var j := Index(p0, o);
      && 0 <= j && j + |o| <= |p0|
      && ReplaceFirst(p0 + rest, o, r) == p0[..j] + r + p0[j + |o|..] + rest
  {
    IndexInPrefix(content, p0, o);
    ReplaceInPrefix(p0, rest, o, r);
  }

  /** A text is what precedes an occurrence, the occurrence, and what follows it. */
  lemma SplitAround(s: string, o: string, j: int)
    requires OccursAt(s, o, j)
    ensures s[..j] + o + s[j + |o|..] == s
  {
    assert s == s[..j] + s[j..j + |o|] + s[j + |o|..];
  }

  /** The count rewrite of spliced text keeps the part before the section marker-free. */
  lemma RaisedCore(content: string, p0: string, sec: string, q: string, oldCount: nat, id: nat)
    returns (prefix: string)
    requires Index(content, CountText(oldCount)) >= 0
    requires p0 == content + "\n"
      || (|p0| <= |content| && p0 == content[..|p0|] && Index(content, CountText(oldCount)) + |CountText(oldCount)| <= |p0|)
    requires !Contains(p0, Marker(id))
    ensures ReplaceFirst(p0 + sec + q, CountText(oldCount), CountText(id)) == prefix + sec + q
    ensures !Contains(prefix, Marker(id))
  {
    var o := CountText(oldCount);
    var r := CountText(id);
    RewriteInPrefix(content, p0, sec + q, o, r);
    var j := Index(p0, o);
    SplitAround(p0, o, j);
    var a, b := p0[..j], p0[j + |o|..];
    NoMarkerAfterCountRewrite(a, b, oldCount, id, id);
    prefix := a + r + b;
    assert p0 + sec + q == p0 + (sec + q);
  }

  /** The text WritePage leaves when it raises the page count. */
  lemma RaisedShape(st: Store, page: Page, order: seq<string>) returns (prefix: string, q: string)
    requires IsKeyOrder(order, page.data)
    requires page.header.id > st.pageCount && CountInHeader(st)
    requires WritePage(st, page, order).Ok?
    ensures WritePage(st, page, order).value.content == prefix + Section(page, order) + q
    ensures !Contains(prefix, Marker(page.header.id))
    ensures q == [] || HasPrefix(q, PageSection)
  {
    RaisedWrite(st, page, order);
    var p0;
    p0, q := SpliceShape(st.content, page.header.id, Section(page, order));
    if Index(st.content, Marker(page.header.id)) >= 0 {
      assert OccursAt(st.content, PageSection, |p0|);
    }
    prefix := RaisedCore(st.content, p0, Section(page, order), q, st.pageCount, page.header.id);
  }

  /**
   * WritePage then ReadPage of the same id returns the page that was written,
   * for any payload iteration order. When the id raises the page count the
   * count text has to sit in the header, so that rewriting it does not touch
   * the section.
   */
  lemma WriteThenRead(st: Store, page: Page, order: seq<string>)
    requires IsKeyOrder(order, page.data)
    requires Serialisable(page)
    requires page.header.id > st.pageCount ==> CountInHeader(st)
    ensures WritePage(st, page, order).Ok? ==> ReadPage(WritePage(st, page, order).value, page.header.id) == Ok(page)
  {
    var w := WritePage(st, page, order);
    if w.Ok? {
      var prefix, q;
      if page.header.id > st.pageCount {
        prefix, q := RaisedShape(st, page, order);
      } else {
        prefix, q := SpliceShape(st.content, page.header.id, Section(page, order));
      }
      ReadBack(w.value, page, order, prefix, q);
    }
  }
}
