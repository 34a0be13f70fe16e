/**
 * Go's `<` on strings: byte-wise lexicographic order of the UTF-8 encoding,
 * which for well-formed text is the lexicographic order of code points, and
 * `sort.SearchStrings`, the binary search the B+Tree uses to place a key.
 */
module StringOrder {

  /** a < b as Go compares strings. */
  predicate Below(a: string, b: string)
    decreases |a|
  {
    if a == [] then b != []
    else if b == [] then false
    else if a[0] != b[0] then a[0] < b[0]
    else Below(a[1..], b[1..])
  }

  lemma {:induction false} BelowAsym(a: string, b: string)
    ensures Below(a, b) ==> !Below(b, a)
    decreases |a|
  {
    if a != [] && b != [] && a[0] == b[0] {
      BelowAsym(a[1..], b[1..]);
    }
  }

  lemma BelowIrreflexive(a: string)
    ensures !Below(a, a)
  {
    BelowAsym(a, a);
  }

  lemma {:induction false} BelowTransitive(a: string, b: string, c: string)
    ensures Below(a, b) && Below(b, c) ==> Below(a, c)
    decreases |a|
  {
    if a != [] && b != [] && c != [] && a[0] == b[0] && b[0] == c[0] {
      BelowTransitive(a[1..], b[1..], c[1..]);
    }
  }

  lemma {:induction false} BelowTotal(a: string, b: string)
    ensures a == b || Below(a, b) || Below(b, a)
    decreases |a|
  {
    if a != [] && b != [] && a[0] == b[0] {
      BelowTotal(a[1..], b[1..]);
      assert a == [a[0]] + a[1..] && b == [b[0]] + b[1..];
    }
  }

  /** a <= b <= c implies a <= c, written with Below alone. */
  lemma NotBelowTransitive(a: string, b: string, c: string)
    ensures !Below(b, a) && !Below(c, b) ==> !Below(c, a)
  {
    BelowTotal(a, b);
    BelowTransitive(c, a, b);
  }

  /** a <= b < c implies a < c. */
  lemma NotBelowThenBelow(a: string, b: string, c: string)
    ensures !Below(b, a) && Below(b, c) ==> Below(a, c)
  {
    BelowTotal(a, b);
    BelowTransitive(a, b, c);
  }

  /** Non-decreasing in Go's string order. */
  predicate Sorted(a: seq<string>) {
    forall i, j :: 0 <= i < j < |a| ==> !Below(a[j], a[i])
  }

  /** The loop of sort.Search over [lo, hi) with the predicate `a[h] >= x`. */
  function SearchRange(a: seq<string>, x: string, lo: nat, hi: nat): (r: nat)
    requires lo <= hi <= |a|
    ensures lo <= r <= hi
    decreases hi - lo
  {
    if lo < hi then
      var h := (lo + hi) / 2;
      if Below(a[h], x) then SearchRange(a, x, h + 1, hi) else SearchRange(a, x, lo, h)
    else lo
  }

  /** sort.SearchStrings: where x would be inserted into a. */
  function SearchStrings(a: seq<string>, x: string): (r: nat)
    ensures r <= |a|
  {
    SearchRange(a, x, 0, |a|)
  }

  /** In a sorted list, everything up to a key below x is below x. */
  lemma BelowUpTo(a: seq<string>, x: string, h: nat)
    requires Sorted(a) && h < |a| && Below(a[h], x)
    ensures forall k :: 0 <= k <= h ==> Below(a[k], x)
  {
    forall k | 0 <= k < h
      ensures Below(a[k], x)
    {
      NotBelowThenBelow(a[k], a[h], x);
    }
  }

  /** In a sorted list, nothing from a key not below x onwards is below x. */
  lemma NotBelowFrom(a: seq<string>, x: string, h: nat)
    requires Sorted(a) && h < |a| && !Below(a[h], x)
    ensures forall k :: h <= k < |a| ==> !Below(a[k], x)
  {
    forall k | h < k < |a|
      ensures !Below(a[k], x)
    {
      NotBelowTransitive(x, a[h], a[k]);
    }
  }

  lemma {:induction false} SearchRangeSplits(a: seq<string>, x: string, lo: nat, hi: nat)
    requires lo <= hi <= |a| && Sorted(a)
    requires forall k :: 0 <= k < lo ==> Below(a[k], x)
    requires forall k :: hi <= k < |a| ==> !Below(a[k], x)
    ensures var r := SearchRange(a, x, lo, hi);
      && (forall k :: 0 <= k < r ==> Below(a[k], x))
      && (forall k :: r <= k < |a| ==> !Below(a[k], x))
    decreases hi - lo
  {
    if lo < hi {
      var h := (lo + hi) / 2;
      if Below(a[h], x) {
        BelowUpTo(a, x, h);
        SearchRangeSplits(a, x, h + 1, hi);
      } else {
        NotBelowFrom(a, x, h);
        SearchRangeSplits(a, x, lo, h);
      }
    }
  }

  /**
   * On a sorted list the search returns the first position whose key is not
   * below x: every key before it is below x, none after.
   */
  lemma SearchStringsSplits(a: seq<string>, x: string)
    requires Sorted(a)
    ensures var r := SearchStrings(a, x);
      && (forall k :: 0 <= k < r ==> Below(a[k], x))
      && (forall k :: r <= k < |a| ==> !Below(a[k], x))
  {
    SearchRangeSplits(a, x, 0, |a|);
  }

  /** Inserting x where the search puts it keeps the list sorted. */
  lemma InsertKeepsSorted(a: seq<string>, x: string)
    requires Sorted(a)
    ensures var r := SearchStrings(a, x);
      Sorted(a[..r] + [x] + a[r..])
  {
    var r := SearchStrings(a, x);
    SearchStringsSplits(a, x);
    var b := a[..r] + [x] + a[r..];
    forall i, j | 0 <= i < j < |b|
      ensures !Below(b[j], b[i])
    {
      if j < r {
        assert b[i] == a[i] && b[j] == a[j];
      } else if j == r {
        assert b[i] == a[i];
        BelowAsym(a[i], x);
      } else if i < r {
        assert b[i] == a[i] && b[j] == a[j - 1];
        BelowAsym(a[i], x);
        NotBelowTransitive(a[i], x, a[j - 1]);
      } else if i == r {
        assert b[j] == a[j - 1];
      } else {
        assert b[i] == a[i - 1] && b[j] == a[j - 1];
      }
    }
  }

  /** Removing one key keeps a list sorted. */
  lemma RemoveKeepsSorted(a: seq<string>, i: nat)
    requires Sorted(a) && i < |a|
    ensures Sorted(a[..i] + a[i + 1..])
  {
    var b := a[..i] + a[i + 1..];
    forall p, q | 0 <= p < q < |b|
      ensures !Below(b[q], b[p])
    {
      var p' := if p < i then p else p + 1;
      var q' := if q < i then q else q + 1;
      assert b[p] == a[p'] && b[q] == a[q'];
    }
  }
}
