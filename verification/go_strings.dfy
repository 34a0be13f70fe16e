/**
 * The behaviour of the Go library string routines the storage layer relies on
 * (`strings`, `strconv.ParseBool`/`FormatBool`, `bufio.ScanLines`), written out
 * over `seq<char>`. Characters are Unicode scalar values, so comparing strings
 * character by character orders them exactly as Go orders their UTF-8 bytes.
 */
module GoStrings {

  /** unicode.IsSpace */
  predicate IsSpace(c: char) {
    || c == '\t' || c == '\n' || c == '\U{000B}' || c == '\U{000C}' || c == '\r' || c == ' '
    || c == '\U{0085}' || c == '\U{00A0}' || c == '\U{1680}'
    || ('\U{2000}' <= c <= '\U{200A}')
    || c == '\U{2028}' || c == '\U{2029}' || c == '\U{202F}' || c == '\U{205F}' || c == '\U{3000}'
  }

  // ---------------------------------------------------------------------------
  // Trimming

  function TrimLeft(s: string): (r: string)
    ensures |r| <= |s| && r == s[|s| - |r|..]
    ensures r == [] || !IsSpace(r[0])
    ensures forall i :: 0 <= i < |s| - |r| ==> IsSpace(s[i])
  {
    if s != [] && IsSpace(s[0]) then TrimLeft(s[1..]) else s
  }

  function TrimRight(s: string): (r: string)
    ensures |r| <= |s| && r == s[..|r|]
    ensures r == [] || !IsSpace(r[|r| - 1])
    ensures forall i :: |r| <= i < |s| ==> IsSpace(s[i])
  {
    if s != [] && IsSpace(s[|s| - 1]) then TrimRight(s[..|s| - 1]) else s
  }

  /** strings.TrimSpace */
  function TrimSpace(s: string): (r: string)
    ensures r == [] || (!IsSpace(r[0]) && !IsSpace(r[|r| - 1]))
  {
    TrimRight(TrimLeft(s))
  }

  /** A string with no surrounding white space is its own trimmed form. */
  predicate Trimmed(s: string) {
    s == [] || (!IsSpace(s[0]) && !IsSpace(s[|s| - 1]))
  }

  lemma TrimSpaceOfTrimmed(s: string)
    requires Trimmed(s)
    ensures TrimSpace(s) == s
  {
  }

  // ---------------------------------------------------------------------------
  // Searching

  predicate HasPrefix(s: string, prefix: string) {
    |prefix| <= |s| && s[..|prefix|] == prefix
  }

  predicate OccursAt(s: string, sub: string, i: int) {
    0 <= i && i + |sub| <= |s| && s[i..i + |sub|] == sub
  }

  function IndexFrom(s: string, sub: string, from: nat): (r: int)
    requires from <= |s| + 1
    ensures r == -1 || (from <= r && OccursAt(s, sub, r))
    ensures forall j :: from <= j && (r == -1 || j < r) ==> !OccursAt(s, sub, j)
    decreases |s| + 1 - from
  {
    if from + |sub| > |s| then -1
    else if s[from..from + |sub|] == sub then from
    else IndexFrom(s, sub, from + 1)
  }

  /** strings.Index: the first occurrence of `sub`, or -1. */
  function Index(s: string, sub: string): (r: int)
    ensures r == -1 || OccursAt(s, sub, r)
    ensures forall j :: (r == -1 || j < r) ==> !OccursAt(s, sub, j)
  {
    IndexFrom(s, sub, 0)
  }

  /** strings.Contains */
  predicate Contains(s: string, sub: string) {
    Index(s, sub) >= 0
  }

  lemma ContainsIff(s: string, sub: string)
    ensures Contains(s, sub) <==> exists i :: OccursAt(s, sub, i)
  {
    if Contains(s, sub) {
      assert OccursAt(s, sub, Index(s, sub));
    }
  }

  function LastIndexBelow(s: string, sub: string, below: int): (r: int)
    requires below <= |s| + 1
    ensures r == -1 || (0 <= r < below && OccursAt(s, sub, r))
    ensures forall j :: r < j < below ==> !OccursAt(s, sub, j)
    decreases below
  {
    if below <= 0 then -1
    else if OccursAt(s, sub, below - 1) then below - 1
    else LastIndexBelow(s, sub, below - 1)
  }

  /** strings.LastIndex: the last occurrence of `sub`, or -1. */
  function LastIndex(s: string, sub: string): (r: int)
    ensures r == -1 || OccursAt(s, sub, r)
    ensures forall j :: r < j ==> !OccursAt(s, sub, j)
  {
    LastIndexBelow(s, sub, |s| + 1)
  }

  /** strings.IndexByte for a single character. */
  function IndexChar(s: string, c: char): (r: int)
    ensures -1 <= r < |s|
    ensures r >= 0 ==> s[r] == c && c !in s[..r]
    ensures r == -1 ==> c !in s
  {
    if s == [] then -1
    else if s[0] == c then 0
    else
      var k := IndexChar(s[1..], c);
      if k == -1 then -1
      else
        assert s[..k + 1] == [s[0]] + s[1..][..k];
        k + 1
  }

  // ---------------------------------------------------------------------------
  // Splitting, joining, replacing

  /** strings.SplitN(s, sep, 2) for a non-empty separator: cut at the first occurrence. */
  function SplitN2(s: string, sep: string): (r: seq<string>)
    requires sep != []
    ensures Index(s, sep) == -1 ==> r == [s]
    ensures Index(s, sep) >= 0 ==> |r| == 2 && |r[0]| == Index(s, sep) && s == r[0] + sep + r[1]
  {
    var i := Index(s, sep);
    if i == -1 then [s]
    else
      assert s == s[..i] + sep + s[i + |sep|..] by { assert s[i..i + |sep|] == sep; }
      [s[..i], s[i + |sep|..]]
  }

  /** strings.Split with a one-character separator. */
  function Split(s: string, sep: char): (r: seq<string>)
    ensures |r| >= 1
    ensures forall k :: 0 <= k < |r| ==> sep !in r[k]
    decreases |s|
  {
    var i := IndexChar(s, sep);
    if i == -1 then [s] else [s[..i]] + Split(s[i + 1..], sep)
  }

  /** strings.Join with a one-character separator. */
  function Join(xs: seq<string>, sep: char): string
  {
    if xs == [] then ""
    else if |xs| == 1 then xs[0]
    else xs[0] + [sep] + Join(xs[1..], sep)
  }

  /** Splitting a joined list gives the list back when no element holds the separator. */
  lemma {:induction false} SplitJoin(xs: seq<string>, sep: char)
    requires |xs| >= 1
    requires forall k :: 0 <= k < |xs| ==> sep !in xs[k]
    ensures Split(Join(xs, sep), sep) == xs
  {
    if |xs| == 1 {
      assert IndexChar(xs[0], sep) == -1;
    } else {
      var s := Join(xs, sep);
      var rest := Join(xs[1..], sep);
      assert s == xs[0] + [sep] + rest;
      assert IndexChar(s, sep) == |xs[0]| by {
        assert s[|xs[0]|] == sep;
        forall j | 0 <= j < |xs[0]| ensures s[j] != sep {
          assert s[j] == xs[0][j];
        }
      }
      assert s[..|xs[0]|] == xs[0];
      assert s[|xs[0]| + 1..] == rest;
      SplitJoin(xs[1..], sep);
    }
  }

  lemma JoinCons(x: string, r: seq<string>, sep: char)
    requires |r| >= 1
    ensures Join([x] + r, sep) == x + [sep] + Join(r, sep)
  {
    assert ([x] + r)[1..] == r;
  }

  /** Joining a split string gives the string back. */
  lemma {:induction false} JoinSplit(s: string, sep: char)
    ensures Join(Split(s, sep), sep) == s
    decreases |s|
  {
    var i := IndexChar(s, sep);
    if i != -1 {
      var r := Split(s[i + 1..], sep);
      JoinSplit(s[i + 1..], sep);
      JoinCons(s[..i], r, sep);
      assert s == s[..i] + [sep] + s[i + 1..];
    }
  }

  /** strings.Replace(s, pattern, replacement, 1) */
  function ReplaceFirst(s: string, pattern: string, replacement: string): (r: string)
    ensures Index(s, pattern) == -1 ==> r == s
    ensures Index(s, pattern) >= 0 ==>
      var i := Index(s, pattern); r == s[..i] + replacement + s[i + |pattern|..]
  {
    var i := Index(s, pattern);
    if i == -1 then s else s[..i] + replacement + s[i + |pattern|..]
  }

  // ---------------------------------------------------------------------------
  // Line scanning

  /** bufio.ScanLines drops one trailing carriage return from each line. */
  function DropCR(line: string): string {
    if |line| > 0 && line[|line| - 1] == '\r' then line[..|line| - 1] else line
  }

  /**
   * The lines a bufio.Scanner with the default split function yields: the text
   * is cut at every newline, a final unterminated line is kept, and an empty
   * remainder after the last newline yields nothing.
   */
  function ScanLines(s: string): seq<string>
    decreases |s|
  {
    if s == [] then []
    else
      var i := IndexChar(s, '\n');
      if i == -1 then [DropCR(s)] else [DropCR(s[..i])] + ScanLines(s[i + 1..])
  }

  lemma {:induction false} IndexCharAppend(a: string, b: string, c: char)
    requires IndexChar(a, c) >= 0
    ensures IndexChar(a + b, c) == IndexChar(a, c)
  {
    if a[0] != c {
      assert (a + b)[1..] == a[1..] + b;
      IndexCharAppend(a[1..], b, c);
    }
  }

  /** Dropping a carriage return leaves a prefix of the line. */
  lemma DropCRIsPrefix(line: string)
    ensures |DropCR(line)| <= |line| && DropCR(line) == line[..|DropCR(line)|]
  {
  }

  /** One step of the scanner: the line up to the first newline, then the rest. */
  lemma ScanLinesStep(s: string)
    requires IndexChar(s, '\n') >= 0
    ensures var i := IndexChar(s, '\n');
      ScanLines(s) == [DropCR(s[..i])] + ScanLines(s[i + 1..])
  {
  }

  /** Lines, each terminated by a newline. */
  function Unlines(ls: seq<string>): (s: string)
    ensures ls != [] ==> s != [] && s[|s| - 1] == '\n'
  {
    if ls == [] then "" else ls[0] + "\n" + Unlines(ls[1..])
  }

  lemma {:induction false} UnlinesConcat(xs: seq<string>, ys: seq<string>)
    ensures Unlines(xs + ys) == Unlines(xs) + Unlines(ys)
  {
    if xs == [] {
      assert xs + ys == ys;
    } else {
      assert (xs + ys)[1..] == xs[1..] + ys;
      UnlinesConcat(xs[1..], ys);
      AppendAssoc(xs[0] + "\n", Unlines(xs[1..]), Unlines(ys));
    }
  }

  /** A line the scanner reads back exactly as written. */
  predicate Scannable(line: string) {
    '\n' !in line && DropCR(line) == line
  }

  lemma {:induction false} IndexCharFirst(x: string, c: char, t: string)
    requires c !in x
    ensures IndexChar(x + [c] + t, c) == |x|
  {
    if x != [] {
      assert (x + [c] + t)[1..] == x[1..] + [c] + t;
      IndexCharFirst(x[1..], c, t);
    }
  }

  /** One scannable line followed by a newline scans as that line. */
  lemma ScanLinesCons(line: string, rest: string)
    requires Scannable(line)
    ensures ScanLines(line + "\n" + rest) == [line] + ScanLines(rest)
  {
    var s := line + "\n" + rest;
    IndexCharFirst(line, '\n', rest);
    assert s[..|line|] == line;
    assert s[|line| + 1..] == rest;
  }

  lemma AppendAssoc<T>(a: seq<T>, b: seq<T>, c: seq<T>)
    ensures (a + b) + c == a + (b + c)
  {
  }

  /** Newline-terminated lines scan back as themselves, whatever text follows. */
  lemma {:induction false} ScanUnlines(ls: seq<string>, rest: string)
    requires forall i :: 0 <= i < |ls| ==> Scannable(ls[i])
    ensures ScanLines(Unlines(ls) + rest) == ls + ScanLines(rest)
  {
    if ls == [] {
      assert Unlines(ls) + rest == rest;
    } else {
      var tailText := Unlines(ls[1..]) + rest;
      calc {
        ScanLines(Unlines(ls) + rest);
        { AppendAssoc(ls[0] + "\n", Unlines(ls[1..]), rest); }
        ScanLines(ls[0] + "\n" + tailText);
        { ScanLinesCons(ls[0], tailText); }
        [ls[0]] + ScanLines(tailText);
        { ScanUnlines(ls[1..], rest); }
        [ls[0]] + (ls[1..] + ScanLines(rest));
        { AppendAssoc([ls[0]], ls[1..], ScanLines(rest)); assert [ls[0]] + ls[1..] == ls; }
        ls + ScanLines(rest);
      }
    }
  }

  // ---------------------------------------------------------------------------
  // Booleans

  /** strconv.FormatBool */
  function FormatBool(b: bool): string {
    if b then "true" else "false"
  }

  /** strconv.ParseBool with its error ignored: unrecognised text reads as false. */
  function ParseBool(s: string): bool {
    s == "1" || s == "t" || s == "T" || s == "TRUE" || s == "true" || s == "True"
  }

  lemma ParseFormatBool(b: bool)
    ensures ParseBool(FormatBool(b)) == b
  {
  }
}
