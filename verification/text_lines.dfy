/**
 * Where a pattern without newlines can sit in a text the line scanner reads:
 * every scanned line is a piece of the text, and every occurrence of such a
 * pattern lies within one scanned line.
 */
module TextLines {
  import opened GoStrings

  lemma ContainsInSlice(s: string, lo: int, hi: int, m: string)
    requires 0 <= lo <= hi <= |s|
    requires Contains(s[lo..hi], m)
    ensures Contains(s, m)
  {
    var t := s[lo..hi];
    var q := Index(t, m);
    assert 0 <= q && q + |m| <= |t|;
    var u := t[q..q + |m|];
    var v := s[lo + q..lo + q + |m|];
    forall i | 0 <= i < |m| ensures u[i] == v[i] {
      assert u[i] == t[q + i];
    }
    assert u == v;
    assert OccursAt(s, m, lo + q);
    ContainsIff(s, m);
  }

  lemma OccursInSlice(s: string, m: string, p: int, lo: int, hi: int)
    requires OccursAt(s, m, p)
    requires 0 <= lo <= p && p + |m| <= hi <= |s|
    ensures Contains(s[lo..hi], m)
  {
    var t := s[lo..hi];
    var u := t[p - lo..p - lo + |m|];
    var v := s[p..p + |m|];
    forall i | 0 <= i < |m| ensures u[i] == v[i] {
      assert u[i] == t[p - lo + i];
    }
    assert u == v;
    assert OccursAt(t, m, p - lo);
    ContainsIff(t, m);
  }

  /** An occurrence of a newline-free pattern does not straddle a newline. */
  lemma NoStraddle(s: string, m: string, p: int, i: int)
    requires OccursAt(s, m, p)
    requires '\n' !in m
    requires 0 <= i < |s| && s[i] == '\n'
    ensures i < p || p + |m| <= i
  {
    forall j | p <= j < p + |m|
      ensures s[j] != '\n'
    {
      assert s[j] == s[p..p + |m|][j - p];
    }
  }

  /** Dropping a trailing carriage return keeps an occurrence that does not end in one. */
  lemma OccursAfterDropCR(x: string, m: string, p: int)
    requires OccursAt(x, m, p) && m != [] && m[|m| - 1] != '\r'
    ensures Contains(DropCR(x), m)
  {
    DropCRIsPrefix(x);
    var line := DropCR(x);
    if |line| < |x| {
      assert x[p + |m| - 1] == x[p..p + |m|][|m| - 1];
      assert p + |m| <= |line|;
    }
    OccursInSlice(x, m, p, 0, |line|);
    assert x[0..|line|] == line;
  }

  /** The scanner's last line, when no newline is left. */
  lemma ScanLinesLast(s: string)
    requires s != [] && IndexChar(s, '\n') == -1
    ensures ScanLines(s) == [DropCR(s)]
  {
  }

  lemma LinePrefixInText(x: string, s: string, m: string)
    requires HasPrefix(s, x)
    requires Contains(DropCR(x), m)
    ensures Contains(s, m)
  {
    DropCRIsPrefix(x);
    var n := |DropCR(x)|;
    assert s[0..n] == DropCR(x);
    ContainsInSlice(s, 0, n, m);
  }

  lemma SuffixInText(s: string, j: nat, m: string)
    requires j <= |s|
    requires Contains(s[j..], m)
    ensures Contains(s, m)
  {
    assert s[j..] == s[j..|s|];
    ContainsInSlice(s, j, |s|, m);
  }

  /** Every line the scanner yields is a piece of the text. */
  lemma {:induction false} LineInText(s: string, m: string, line: string)
    requires line in ScanLines(s)
    requires Contains(line, m)
    ensures Contains(s, m)
    decreases |s|
  {
    var i := IndexChar(s, '\n');
    if i == -1 {
      ScanLinesLast(s);
      LinePrefixInText(s, s, m);
    } else {
      var rest := s[i + 1..];
      ScanLinesStep(s);
      if line == DropCR(s[..i]) {
        LinePrefixInText(s[..i], s, m);
      } else {
        assert line in ScanLines(rest);
        LineInText(rest, m, line);
        SuffixInText(s, i + 1, m);
      }
    }
  }

  lemma OccursInSuffix(s: string, m: string, p: int, j: int)
    requires OccursAt(s, m, p)
    requires 0 <= j <= p
    ensures Contains(s[j..], m)
  {
    OccursInSlice(s, m, p, j, |s|);
    assert s[j..] == s[j..|s|];
  }

  /** An occurrence that ends before a line's end is found in the scanned line. */
  lemma OccurrenceInFirstLine(s: string, m: string, p: int, i: int)
    requires OccursAt(s, m, p) && m != [] && m[|m| - 1] != '\r'
    requires 0 <= i <= |s| && p + |m| <= i
    ensures Contains(DropCR(s[..i]), m)
  {
    OccursInSlice(s, m, p, 0, i);
    var x := s[..i];
    assert x == s[0..i];
    OccursAfterDropCR(x, m, Index(x, m));
  }

  /** The first line of a text holds an occurrence that ends before its newline. */
  lemma FirstLineHas(s: string, m: string, p: int) returns (line: string)
    requires m != [] && m[|m| - 1] != '\r' && OccursAt(s, m, p)
    requires IndexChar(s, '\n') >= 0 && p + |m| <= IndexChar(s, '\n')
    ensures line in ScanLines(s) && Contains(line, m)
  {
    var i := IndexChar(s, '\n');
    ScanLinesStep(s);
    OccurrenceInFirstLine(s, m, p, i);
    line := DropCR(s[..i]);
  }

  /** The only line of a text without newlines holds every occurrence in it. */
  lemma OnlyLineHas(s: string, m: string, p: int) returns (line: string)
    requires m != [] && m[|m| - 1] != '\r' && OccursAt(s, m, p)
    requires IndexChar(s, '\n') == -1
    ensures line in ScanLines(s) && Contains(line, m)
  {
    ScanLinesLast(s);
    OccurrenceInFirstLine(s, m, p, |s|);
    assert s[..|s|] == s;
    line := DropCR(s);
  }

  /** A line scanned after the first newline is a line of the whole text. */
  lemma LaterLine(s: string, line: string)
    requires IndexChar(s, '\n') >= 0
    requires line in ScanLines(s[IndexChar(s, '\n') + 1..])
    ensures line in ScanLines(s)
  {
    ScanLinesStep(s);
  }

  /**
   * A pattern without newlines that does not end in a carriage return, found
   * in a text, is found in one of the lines the scanner yields.
   */
  lemma {:induction false} TextInLine(s: string, m: string) returns (line: string)
    requires m != [] && '\n' !in m && m[|m| - 1] != '\r'
    requires Contains(s, m)
    ensures line in ScanLines(s) && Contains(line, m)
    decreases |s|
  {
    var p := Index(s, m);
    var i := IndexChar(s, '\n');
    if i == -1 {
      line := OnlyLineHas(s, m, p);
    } else {
      NoStraddle(s, m, p, i);
      if p + |m| <= i {
        line := FirstLineHas(s, m, p);
      } else {
        OccursInSuffix(s, m, p, i + 1);
        line := TextInLine(s[i + 1..], m);
        LaterLine(s, line);
      }
    }
  }

  /** A newline-free text that no line contains is not contained in the lines joined. */
  lemma NotInUnlines(ls: seq<string>, m: string)
    requires m != [] && '\n' !in m && m[|m| - 1] != '\r'
    requires forall i :: 0 <= i < |ls| ==> Scannable(ls[i])
    requires forall i :: 0 <= i < |ls| ==> !Contains(ls[i], m)
    ensures !Contains(Unlines(ls), m)
  {
    var t := Unlines(ls);
    ScanUnlines(ls, "");
    assert t + "" == t;
    forall p | OccursAt(t, m, p)
      ensures false
    {
      ContainsIff(t, m);
      var line := TextInLine(t, m);
    }
    ContainsIff(t, m);
  }

  /** A blank line, then one more line and the rest. */
  lemma ScanBlankThenLine(h: string, u: string)
    requires Scannable(h)
    ensures ScanLines("\n" + (h + "\n" + u)) == [""] + [h] + ScanLines(u)
  {
    var r := "\n" + (h + "\n" + u);
    assert r == "" + "\n" + (h + "\n" + u);
    ScanLinesCons("", h + "\n" + u);
    ScanLinesCons(h, u);
    AppendAssoc([""], [h], ScanLines(u));
  }

  /** Scanned lines that precede a text whose scan is already known. */
  lemma ScanUnlinesThen(ls: seq<string>, r: string, tail: seq<string>)
    requires forall i :: 0 <= i < |ls| ==> Scannable(ls[i])
    requires ScanLines(r) == tail
    ensures ScanLines(Unlines(ls) + r) == ls + tail
  {
    ScanUnlines(ls, r);
  }

  /** Scanning lines, then a blank line, then one more line and the rest. */
  lemma ScanThenBlank(ls: seq<string>, h: string, u: string)
    requires forall i :: 0 <= i < |ls| ==> Scannable(ls[i])
    requires Scannable(h)
    ensures ScanLines(Unlines(ls) + ("\n" + (h + "\n" + u))) == ls + [""] + [h] + ScanLines(u)
  {
    var t := ScanLines(u);
    ScanBlankThenLine(h, u);
    ScanUnlinesThen(ls, "\n" + (h + "\n" + u), [""] + [h] + t);
    AppendAssoc(ls, [""], [h]);
    AppendAssoc(ls, [""] + [h], t);
  }
}
