/**
 * The header of the database file as LoadMetadata reads it: the header lines
 * of a fresh file, where reading stops, and what a file whose header is
 * followed by page sections loads as.
 */
module TextHeader {
  import opened Results
  import opened GoStrings
  import opened Decimal
  import opened TextStore
  import opened TextLines

  /** Lines of the header loop, none of which is a `# PAGE` line, read one after another. */
  lemma {:induction false} LoadLinesConcat(a: seq<string>, b: seq<string>, hs: HeaderScan)
    requires forall i :: 0 <= i < |a| ==> !HasPrefix(a[i], PageSection)
    ensures LoadLines(a + b, hs) == LoadLines(b, LoadLines(a, hs))
  {
    if a == [] {
      assert a + b == b;
    } else {
      assert (a + b)[1..] == a[1..] + b;
      assert (a + b)[0] == a[0];
      var line := a[0];
      var next :=
        if line == HeaderSection then hs.(inHeader := true)
        else if hs.inHeader && line != "" then hs.(st := ApplyHeaderLine(line, hs.st))
        else hs;
      LoadLinesConcat(a[1..], b, next);
    }
  }

  /** Nothing after the first `# PAGE` line is read. */
  lemma LoadStopsAtPage(a: seq<string>, line: string, rest: seq<string>, hs: HeaderScan)
    requires forall i :: 0 <= i < |a| ==> !HasPrefix(a[i], PageSection)
    requires HasPrefix(line, PageSection)
    ensures LoadLines(a + [line] + rest, hs) == LoadLines(a, hs)
  {
    assert a + [line] + rest == a + ([line] + rest);
    LoadLinesConcat(a, [line] + rest, hs);
    assert line != HeaderSection by {
      assert HeaderSection[..|PageSection|] != PageSection by {
        assert HeaderSection[2] != PageSection[2];
      }
    }
  }

  /** Before the header marker no line is applied, whatever it says. */
  lemma {:induction false} LoadIgnoresBeforeHeader(a: seq<string>, hs: HeaderScan)
    requires !hs.inHeader
    requires forall i :: 0 <= i < |a| ==> a[i] != HeaderSection
    ensures LoadLines(a, hs) == hs
  {
    if a != [] && !HasPrefix(a[0], PageSection) {
      LoadIgnoresBeforeHeader(a[1..], hs);
    }
  }

  /** A `KEY=VALUE` line with a trimmed key free of `=` and a trimmed value. */
  lemma SettingLine(key: string, value: string)
    requires '=' !in key && Trimmed(key) && Trimmed(value)
    ensures var line := key + "=" + value;
      && Index(line, "=") == |key|
      && TrimSpace(line[..|key|]) == key
      && TrimSpace(line[|key| + 1..]) == value
  {
    var line := key + "=" + value;
    assert line[|key|..|key| + 1] == "=";
    assert OccursAt(line, "=", |key|);
    forall j | 0 <= j < |key|
      ensures !OccursAt(line, "=", j)
    {
      assert line[j] == key[j];
      assert line[j..j + 1][0] == line[j];
    }
    assert line[..|key|] == key;
    assert line[|key| + 1..] == value;
    TrimSpaceOfTrimmed(key);
    TrimSpaceOfTrimmed(value);
  }

  /** A `PAGESIZE=` line sets the page size to the number it carries. */
  lemma SizeLine(n: nat, st: Store)
    requires n <= MaxInt64
    ensures ApplyHeaderLine("PAGESIZE" + "=" + Format(n), st) == st.(pageSize := n)
  {
    FormatTrimmed(n);
    SettingLine("PAGESIZE", Format(n));
    ScanIntFormat(n);
  }

  lemma PageSizeLine(st: Store)
    ensures ApplyHeaderLine(HeaderLines(0)[1], st) == st.(pageSize := DefaultPageSize)
  {
    assert HeaderLines(0)[1] == "PAGESIZE" + "=" + Format(DefaultPageSize);
    SizeLine(DefaultPageSize, st);
  }

  /** A setting whose key LoadMetadata does not know leaves the store as it was. */
  lemma UnknownSetting(key: string, value: string, st: Store)
    requires '=' !in key && Trimmed(key) && Trimmed(value)
    requires key != "PAGESIZE" && key != "PAGES" && key != "DEALLOCATED_PAGES"
    ensures ApplyHeaderLine(key + "=" + value, st) == st
  {
    SettingLine(key, value);
  }

  lemma EncodingLine(st: Store)
    ensures ApplyHeaderLine(HeaderLines(0)[2], st) == st
  {
    assert HeaderLines(0)[2] == "ENCODING" + "=" + "UTF-8";
    assert "ENCODING"[1] != "PAGES"[1];
    UnknownSetting("ENCODING", "UTF-8", st);
  }

  lemma VersionLine(st: Store)
    ensures ApplyHeaderLine(HeaderLines(0)[3], st) == st
  {
    assert HeaderLines(0)[3] == "VERSION" + "=" + "1.0";
    UnknownSetting("VERSION", "1.0", st);
  }

  lemma CountLine(n: nat, st: Store)
    requires n <= MaxUint64
    ensures ApplyHeaderLine(CountText(n), st) == st.(pageCount := n)
  {
    assert CountText(n) == "PAGES" + "=" + Format(n);
    FormatTrimmed(n);
    SettingLine("PAGES", Format(n));
    ScanUintFormat(n);
  }

  /** A header line that the loop applies. */
  predicate SettingText(line: string) {
    line != HeaderSection && !HasPrefix(line, PageSection) && line != ""
  }

  /** One applied line inside the header. */
  lemma LoadSettingStep(line: string, rest: seq<string>, hs: HeaderScan)
    requires hs.inHeader && SettingText(line)
    ensures LoadLines([line] + rest, hs) == LoadLines(rest, hs.(st := ApplyHeaderLine(line, hs.st)))
  {
    assert ([line] + rest)[1..] == rest;
  }

  /** The blank line that ends the header changes nothing. */
  lemma LoadBlank(hs: HeaderScan)
    ensures LoadLines([""], hs) == hs
  {
    assert "" != HeaderSection;
    assert [""][1..] == [];
  }

  /** Four settings and the blank line that ends the header, read inside the header. */
  lemma LoadSettings(a: string, b: string, c: string, d: string, hs: HeaderScan)
    requires hs.inHeader
    requires SettingText(a) && SettingText(b) && SettingText(c) && SettingText(d)
    ensures LoadLines([a, b, c, d, ""], hs)
      == hs.(st := ApplyHeaderLine(d, ApplyHeaderLine(c, ApplyHeaderLine(b, ApplyHeaderLine(a, hs.st)))))
  {
    assert [a, b, c, d, ""] == [a] + [b, c, d, ""];
    assert [b, c, d, ""] == [b] + [c, d, ""];
    assert [c, d, ""] == [c] + [d, ""];
    assert [d, ""] == [d] + [""];
    var s1 := ApplyHeaderLine(a, hs.st);
    LoadSettingStep(a, [b, c, d, ""], hs);
    var s2 := ApplyHeaderLine(b, s1);
    LoadSettingStep(b, [c, d, ""], hs.(st := s1));
    var s3 := ApplyHeaderLine(c, s2);
    LoadSettingStep(c, [d, ""], hs.(st := s2));
    var s4 := ApplyHeaderLine(d, s3);
    LoadSettingStep(d, [""], hs.(st := s3));
    LoadBlank(hs.(st := s4));
  }

  lemma HeaderLineTexts(n: nat)
    ensures forall i :: 1 <= i < 5 ==> SettingText(HeaderLines(n)[i])
  {
    var ls := HeaderLines(n);
    forall i | 1 <= i < 5
      ensures SettingText(ls[i])
    {
      assert ls[i][0] != '#';
    }
  }

  /** No header line starts with `# PAGE`. */
  lemma HeaderLinesNotPages(n: nat)
    ensures forall i :: 0 <= i < |HeaderLines(n)| ==> !HasPrefix(HeaderLines(n)[i], PageSection)
  {
    var ls := HeaderLines(n);
    forall i | 0 <= i < |ls|
      ensures !HasPrefix(ls[i], PageSection)
    {
      if i == 0 {
        assert ls[0][2] != PageSection[2];
      } else if 0 < i < 5 {
        assert ls[i][0] != '#';
      }
    }
  }

  /** Reading the header lines of a file that records n pages. */
  lemma LoadHeaderLines(n: nat, st: Store)
    requires n <= MaxUint64
    ensures LoadLines(HeaderLines(n), HeaderScan(false, st))
      == HeaderScan(true, st.(pageSize := DefaultPageSize, pageCount := n))
  {
    var ls := HeaderLines(n);
    HeaderLineTexts(n);
    assert ls[1..] == [ls[1], ls[2], ls[3], ls[4], ""];
    var hs1 := HeaderScan(true, st);
    assert LoadLines(ls, HeaderScan(false, st)) == LoadLines(ls[1..], hs1);
    LoadSettings(ls[1], ls[2], ls[3], ls[4], hs1);
    var st2 := st.(pageSize := DefaultPageSize);
    PageSizeLine(st);
    assert ls[1] == HeaderLines(0)[1] && ls[2] == HeaderLines(0)[2] && ls[3] == HeaderLines(0)[3];
    EncodingLine(st2);
    VersionLine(st2);
    CountLine(n, st2);
  }

  /** The header lines are read back by the scanner as written. */
  lemma HeaderLinesScannable(n: nat)
    ensures forall i :: 0 <= i < |HeaderLines(n)| ==> Scannable(HeaderLines(n)[i])
  {
    var ls := HeaderLines(n);
    forall i | 0 <= i < |ls|
      ensures Scannable(ls[i])
    {
      if i == 1 || i == 4 {
        var f := if i == 1 then Format(DefaultPageSize) else Format(n);
        var key := if i == 1 then "PAGESIZE=" else "PAGES=";
        assert ls[i] == key + f;
        assert IsDigit(f[|f| - 1]);
        assert forall j :: 0 <= j < |f| ==> f[j] != '\n';
        assert '\n' !in ls[i];
      }
    }
  }

  /** A freshly created file loads as an empty database with the default page size. */
  lemma OpenNew()
    ensures Open(None) == Store(InitialContent(), DefaultPageSize, 0, [])
  {
    var c := InitialContent();
    var ls := HeaderLines(0);
    HeaderLinesScannable(0);
    ScanUnlines(ls, "");
    assert Unlines(ls) + "" == c;
    assert ScanLines(c) == ls;
    LoadHeaderLines(0, Unloaded(c));
    assert LoadMetadata(Unloaded(c)) == Unloaded(c).(pageSize := DefaultPageSize, pageCount := 0);
  }

  // ---------------------------------------------------------------------------
  // Where the page count sits in the header

  lemma UnlinesPair(a: string, b: string)
    ensures Unlines([a, b]) == a + "\n" + (b + "\n")
  {
    assert [a, b][1..] == [b];
    assert [b][1..] == [];
    assert Unlines([b]) == b + "\n" + Unlines([]);
    assert b + "\n" + "" == b + "\n";
  }

  lemma HeaderText(n: nat)
    ensures Unlines(HeaderLines(n)) == Unlines(TopLines()) + (CountText(n) + "\n\n")
  {
    UnlinesConcat(TopLines(), [CountText(n), ""]);
    UnlinesPair(CountText(n), "");
  }

  /** A text lacking one of the characters of m does not contain m. */
  lemma MissingChar(s: string, m: string, k: int)
    requires 0 <= k < |m| && m[k] !in s
    ensures !Contains(s, m)
  {
    forall p
      ensures !OccursAt(s, m, p)
    {
      if 0 <= p && p + |m| <= |s| {
        assert s[p..p + |m|][k] == s[p + k];
      }
    }
    ContainsIff(s, m);
  }

  /** `PAGESIZE=4096` does not contain `PAGES=<n>`: its only `P` is followed by `AGESI`. */
  lemma PageSizeLineNoCount(n: nat)
    ensures !Contains("PAGESIZE=" + Format(DefaultPageSize), CountText(n))
  {
    var line := "PAGESIZE=" + Format(DefaultPageSize);
    var m := CountText(n);
    var f := Format(DefaultPageSize);
    assert line[1..] == "AGESIZE=" + f;
    assert 'P' !in f by {
      forall j | 0 <= j < |f|
        ensures f[j] != 'P'
      {
        assert IsDigit(f[j]);
      }
    }
    assert 'P' !in line[1..];
    assert m[0] == 'P' && m[5] == '=';
    forall p
      ensures !OccursAt(line, m, p)
    {
      if p == 0 && |m| <= |line| {
        assert line[p..p + |m|][5] == line[5] == 'I';
      } else if 0 < p && p + |m| <= |line| {
        assert line[p..p + |m|][0] == line[p] == line[1..][p - 1];
      }
    }
    ContainsIff(line, m);
  }

  lemma NoPInTopLines()
    ensures 'P' !in HeaderSection && 'P' !in "ENCODING=UTF-8" && 'P' !in "VERSION=1.0"
  {
  }

  lemma TopLinesNoCount(n: nat)
    ensures forall i :: 0 <= i < |TopLines()| ==> !Contains(TopLines()[i], CountText(n))
  {
    var m := CountText(n);
    assert m[0] == 'P';
    NoPInTopLines();
    MissingChar(HeaderSection, m, 0);
    PageSizeLineNoCount(n);
    MissingChar("ENCODING=UTF-8", m, 0);
    MissingChar("VERSION=1.0", m, 0);
    var tl := TopLines();
    forall i | 0 <= i < |tl|
      ensures !Contains(tl[i], m)
    {
      assert i == 0 || i == 1 || i == 2 || i == 3;
    }
  }

  lemma TopLinesScannable()
    ensures forall i :: 0 <= i < |TopLines()| ==> Scannable(TopLines()[i])
  {
    HeaderLinesScannable(0);
    forall i | 0 <= i < |TopLines()|
      ensures Scannable(TopLines()[i])
    {
      assert TopLines()[i] == HeaderLines(0)[i];
    }
  }

  lemma CountTextShape(n: nat)
    ensures CountText(n) != [] && '\n' !in CountText(n) && CountText(n)[|CountText(n)| - 1] != '\r'
  {
    var m := CountText(n);
    forall j | 0 <= j < |m|
      ensures m[j] != '\n'
    {
      assert j < 6 || IsDigit(Format(n)[j - 6]);
    }
    assert m[|m| - 1] == Format(n)[|Format(n)| - 1];
  }

  /** The lines above the page count do not contain `PAGES=<n>`, so neither does their text. */
  lemma NoCountInTop(n: nat)
    ensures !Contains(Unlines(TopLines()), CountText(n))
  {
    CountTextShape(n);
    TopLinesScannable();
    TopLinesNoCount(n);
    NotInUnlines(TopLines(), CountText(n));
  }

  /** The first `PAGES=<n>` of a file that starts with the header is the header's own. */
  lemma CountIndex(n: nat, rest: string)
    ensures Index(Unlines(HeaderLines(n)) + rest, CountText(n)) == |Unlines(TopLines())|
  {
    var t := Unlines(TopLines());
    var m := CountText(n);
    var s := Unlines(HeaderLines(n)) + rest;
    HeaderText(n);
    assert s == t + m + ("\n\n" + rest);
    assert s[|t|..|t| + |m|] == m;
    assert OccursAt(s, m, |t|);
    assert s[..|t|] == t;
    assert s[|t| - 1] == '\n';
    CountTextShape(n);
    NoCountInTop(n);
    forall p | 0 <= p < |t| && OccursAt(s, m, p)
      ensures false
    {
      NoStraddle(s, m, p, |t| - 1);
      OccursInSlice(s, m, p, 0, |t|);
    }
  }

  /** ReplaceFirst where the first occurrence is known. */
  lemma ReplaceAt(s: string, t: string, o: string, r: string, tail: string)
    requires s == t + (o + tail) && Index(s, o) == |t|
    ensures ReplaceFirst(s, o, r) == t + (r + tail)
  {
    assert s[..|t|] == t;
    assert s[|t| + |o|..] == tail;
  }

  /** Rewriting the first `PAGES=<n>` of such a file rewrites the header's page count. */
  lemma RewriteCount(n: nat, k: nat, rest: string)
    ensures ReplaceFirst(Unlines(HeaderLines(n)) + rest, CountText(n), CountText(k)) == Unlines(HeaderLines(k)) + rest
  {
    var t := Unlines(TopLines());
    var s := Unlines(HeaderLines(n)) + rest;
    CountIndex(n, rest);
    HeaderText(n);
    HeaderText(k);
    AppendAssoc(t, CountText(n) + "\n\n", rest);
    AppendAssoc(CountText(n), "\n\n", rest);
    ReplaceAt(s, t, CountText(n), CountText(k), "\n\n" + rest);
    AppendAssoc(t, CountText(k) + "\n\n", rest);
    AppendAssoc(CountText(k), "\n\n", rest);
  }

  // ---------------------------------------------------------------------------
  // Page markers and page sections after the header

  /** No header line has a `g`, and every page marker has one (`PageID`). */
  lemma NoMarkerInHeader(n: nat, id: nat)
    ensures !Contains(Unlines(HeaderLines(n)), Marker(id))
  {
    var m := Marker(id);
    var f := Format(id);
    assert m[2] == 'g';
    assert m[|m| - 1] == f[|f| - 1];
    assert '\n' !in m by {
      forall j | 0 <= j < |m|
        ensures m[j] != '\n'
      {
        assert j < 8 || IsDigit(f[j - 8]);
      }
    }
    var ls := HeaderLines(n);
    HeaderLinesScannable(n);
    forall i | 0 <= i < |ls|
      ensures !Contains(ls[i], m)
    {
      if i == 1 || i == 4 {
        var g := if i == 1 then Format(DefaultPageSize) else Format(n);
        var key := if i == 1 then "PAGESIZE=" else "PAGES=";
        assert ls[i] == key + g;
        assert forall j :: 0 <= j < |g| ==> g[j] != 'g';
        assert 'g' !in ls[i];
      } else {
        assert i == 0 || i == 2 || i == 3 || i == 5;
        assert 'g' !in ls[i];
      }
      MissingChar(ls[i], m, 2);
    }
    NotInUnlines(ls, m);
  }

  /** A character that is not a newline and is in none of the lines is not in their joined text. */
  lemma {:induction false} CharNotInUnlines(ls: seq<string>, c: char)
    requires c != '\n'
    requires forall i :: 0 <= i < |ls| ==> c !in ls[i]
    ensures c !in Unlines(ls)
  {
    if ls != [] {
      CharNotInUnlines(ls[1..], c);
    }
  }

  /** The header's only `#` is its first character, which opens `# DATABASE HEADER`. */
  lemma HashOnlyFirst(n: nat)
    ensures var h := Unlines(HeaderLines(n));
      |h| > 2 && h[2] == HeaderSection[2] && '#' !in h[1..]
  {
    var ls := HeaderLines(n);
    var tail := ls[1..];
    forall i | 0 <= i < |tail|
      ensures '#' !in tail[i]
    {
      if i == 0 || i == 3 {
        var g := if i == 0 then Format(DefaultPageSize) else Format(n);
        var key := if i == 0 then "PAGESIZE=" else "PAGES=";
        assert tail[i] == key + g;
        assert forall j :: 0 <= j < |g| ==> g[j] != '#';
      } else {
        assert i == 1 || i == 2 || i == 4;
      }
    }
    CharNotInUnlines(tail, '#');
    var h := Unlines(ls);
    assert h == ls[0] + "\n" + Unlines(tail);
    assert h[1..] == ls[0][1..] + "\n" + Unlines(tail);
    assert '#' !in ls[0][1..];
  }

  /** A `# PAGE` puts `#` at its start and `P` two characters on. */
  lemma SectionChars(s: string, p: int)
    requires OccursAt(s, PageSection, p)
    ensures s[p] == '#' && s[p + 2] == 'P'
  {
    assert s[p..p + |PageSection|][0] == s[p];
    assert s[p..p + |PageSection|][2] == s[p + 2];
  }

  /** No `# PAGE` starts inside the header, whatever text follows it. */
  lemma NoSectionInHeader(n: nat, rest: string, p: int)
    requires OccursAt(Unlines(HeaderLines(n)) + rest, PageSection, p)
    ensures p >= |Unlines(HeaderLines(n))|
  {
    var h := Unlines(HeaderLines(n));
    var s := h + rest;
    HashOnlyFirst(n);
    SectionChars(s, p);
    assert s[2] == h[2];
  }

  /** Loading stops at the section: only the lines before it and the blank line count. */
  lemma LoadThenSection(ls: seq<string>, rest: seq<string>, hs: HeaderScan)
    requires forall i :: 0 <= i < |ls| ==> !HasPrefix(ls[i], PageSection)
    ensures LoadLines(ls + [""] + [PageSection] + rest, hs) == LoadLines([""], LoadLines(ls, hs))
  {
    var a := ls + [""];
    assert forall i :: 0 <= i < |a| ==> !HasPrefix(a[i], PageSection);
    LoadStopsAtPage(a, PageSection, rest, hs);
    LoadLinesConcat(ls, [""], hs);
  }

  /**
   * A file holding the header for n pages followed by page sections loads with
   * page count n: the header loop stops at the first `# PAGE` line.
   */
  lemma LoadHeaderThenPages(n: nat, u: string)
    requires n <= MaxUint64
    ensures var c := Unlines(HeaderLines(n)) + ("\n" + (PageSection + "\n" + u));
      LoadMetadata(Unloaded(c)) == Store(c, DefaultPageSize, n, [])
  {
    var ls := HeaderLines(n);
    var c := Unlines(ls) + ("\n" + (PageSection + "\n" + u));
    HeaderLinesScannable(n);
    assert Scannable(PageSection);
    ScanThenBlank(ls, PageSection, u);
    HeaderLinesNotPages(n);
    var hs0 := HeaderScan(false, Unloaded(c));
    LoadThenSection(ls, ScanLines(u), hs0);
    LoadHeaderLines(n, Unloaded(c));
    LoadBlank(HeaderScan(true, Store(c, DefaultPageSize, n, [])));
  }
}
