/**
 * Decimal text for non-negative integers, as the storage layer writes it
 * (`fmt.Sprintf("%d")`, `strconv.FormatUint`) and reads it back
 * (`fmt.Sscanf(.., "%d", ..)`, `strconv.ParseUint(.., 10, 32)`). Each reader
 * keeps the Go routine's own treatment of malformed and out-of-range text.
 */
module Decimal {
  import opened GoStrings
  import opened Results

  const MaxUint32: nat := 0xFFFF_FFFF
  const MaxUint64: nat := 0xFFFF_FFFF_FFFF_FFFF
  const MaxInt64: int := 0x7FFF_FFFF_FFFF_FFFF
  const MinInt64: int := -0x8000_0000_0000_0000

  predicate IsDigit(c: char) { '0' <= c <= '9' }

  predicate AllDigits(s: string) {
    forall i :: 0 <= i < |s| ==> IsDigit(s[i])
  }

  function DigitValue(c: char): nat
    requires IsDigit(c)
  {
    c as int - '0' as int
  }

  function DigitChar(d: nat): (c: char)
    requires d < 10
    ensures IsDigit(c) && DigitValue(c) == d
  {
    ('0' as int + d) as char
  }

  /** Reads digits left to right onto an accumulator, the way every Go parser does. */
  function Accumulate(s: string, acc: nat): nat
    requires AllDigits(s)
  {
    if s == [] then acc else Accumulate(s[1..], acc * 10 + DigitValue(s[0]))
  }

  /** The number a string of digits denotes. */
  function Value(s: string): nat
    requires AllDigits(s)
  {
    Accumulate(s, 0)
  }

  lemma {:induction false} AccumulateSnoc(s: string, c: char, acc: nat)
    requires AllDigits(s) && IsDigit(c)
    ensures Accumulate(s + [c], acc) == Accumulate(s, acc) * 10 + DigitValue(c)
  {
    if s == [] {
      assert s + [c] == [c];
    } else {
      assert (s + [c])[1..] == s[1..] + [c];
      AccumulateSnoc(s[1..], c, acc * 10 + DigitValue(s[0]));
    }
  }

  /** The accumulator never shrinks while digits are read. */
  lemma {:induction false} AccumulateGrows(s: string, acc: nat)
    requires AllDigits(s)
    ensures Accumulate(s, acc) >= acc
  {
    if s != [] {
      AccumulateGrows(s[1..], acc * 10 + DigitValue(s[0]));
    }
  }

  /** `%d` formatting of a non-negative integer: digits only, no leading zero. */
  function Format(n: nat): (s: string)
    ensures |s| >= 1 && AllDigits(s)
    ensures |s| > 1 ==> s[0] != '0'
  {
    if n < 10 then [DigitChar(n)] else Format(n / 10) + [DigitChar(n % 10)]
  }

  /** Formatting then reading the digits gives the number back. */
  lemma {:induction false} ValueFormat(n: nat)
    ensures Value(Format(n)) == n
  {
    if n < 10 {
      assert Format(n) == [DigitChar(n)];
      assert Format(n)[1..] == [];
      assert Accumulate(Format(n), 0) == Accumulate([], n);
    } else {
      var f := Format(n / 10);
      assert Format(n) == f + [DigitChar(n % 10)];
      ValueFormat(n / 10);
      AccumulateSnoc(f, DigitChar(n % 10), 0);
      assert Value(Format(n)) == (n / 10) * 10 + n % 10;
    }
  }

  /** Distinct numbers have distinct decimal forms. */
  lemma FormatInjective(m: nat, n: nat)
    requires Format(m) == Format(n)
    ensures m == n
  {
    ValueFormat(m);
    ValueFormat(n);
  }

  /** Decimal text has no surrounding white space. */
  lemma FormatTrimmed(n: nat)
    ensures Trimmed(Format(n))
  {
    var f := Format(n);
    assert IsDigit(f[0]) && IsDigit(f[|f| - 1]);
  }

  // ---------------------------------------------------------------------------
  // strconv.ParseUint(s, 10, 32), error ignored

  function ParseUint32From(s: string, acc: nat): (r: nat)
    requires acc <= MaxUint32
    ensures r <= MaxUint32
  {
    if s == [] then acc
    else if !IsDigit(s[0]) then 0
    else
      var n := acc * 10 + DigitValue(s[0]);
      if n > MaxUint32 then MaxUint32 else ParseUint32From(s[1..], n)
  }

  /**
   * The value strconv.ParseUint(s, 10, 32) returns, whatever error it reports:
   * 0 for empty text or a non-digit met first, and the 32-bit maximum as soon
   * as the digits read so far exceed it.
   */
  function ParseUint32(s: string): (r: nat)
    ensures r <= MaxUint32
  {
    if s == [] then 0 else ParseUint32From(s, 0)
  }

  lemma {:induction false} ParseUint32FromDigits(s: string, acc: nat)
    requires AllDigits(s) && acc <= MaxUint32
    requires Accumulate(s, acc) <= MaxUint32
    ensures ParseUint32From(s, acc) == Accumulate(s, acc)
  {
    if s != [] {
      var n := acc * 10 + DigitValue(s[0]);
      AccumulateGrows(s[1..], n);
      ParseUint32FromDigits(s[1..], n);
    }
  }

  /** Pointer components below 2^32 survive formatting and parsing. */
  lemma ParseUint32Format(n: nat)
    requires n <= MaxUint32
    ensures ParseUint32(Format(n)) == n
  {
    ValueFormat(n);
    ParseUint32FromDigits(Format(n), 0);
  }

  // ---------------------------------------------------------------------------
  // fmt.Sscanf(s, "%d", &x)

  /**
   * The longest prefix of decimal digits: with the %d verb fmt reads only
   * digits into the token (underscores are accepted only by %v).
   */
  function NumberToken(s: string): (tok: string)
    ensures HasPrefix(s, tok) && AllDigits(tok)
    ensures |tok| < |s| ==> !IsDigit(s[|tok|])
  {
    if s != [] && IsDigit(s[0]) then [s[0]] + NumberToken(s[1..]) else []
  }

  /**
   * Sscanf with "%d" into a 64-bit unsigned variable: `Some(v)` when it stores
   * `v`, `None` when it reports an error and leaves the variable as it was.
   * Leading white space is skipped, no sign is accepted, the token is the run
   * of digits that follows (so `1_0` stores 1), at least one digit is needed,
   * and values beyond 64 bits are rejected; text after the token is ignored.
   */
  function ScanUint(s: string): (r: Option<nat>)
    ensures r.Some? ==> r.value <= MaxUint64
  {
    var tok := NumberToken(TrimLeft(s));
    if tok == [] then None
    else if Value(tok) > MaxUint64 then None
    else Some(Value(tok))
  }

  /**
   * Sscanf with "%d" into a 64-bit signed variable: as ScanUint, but one
   * leading `+` or `-` is accepted and the range is that of int64.
   */
  function ScanInt(s: string): (r: Option<int>)
    ensures r.Some? ==> MinInt64 <= r.value <= MaxInt64
  {
    var t := TrimLeft(s);
    var negative := t != [] && t[0] == '-';
    var body := if t != [] && (t[0] == '+' || t[0] == '-') then t[1..] else t;
    var tok := NumberToken(body);
    if tok == [] then None
    else
      var magnitude: int := Value(tok);
      var v := if negative then 0 - magnitude else magnitude;
      if v < MinInt64 || v > MaxInt64 then None else Some(v)
  }

  lemma {:induction false} NumberTokenOfDigits(s: string)
    requires AllDigits(s)
    ensures NumberToken(s) == s
  {
    if s != [] {
      NumberTokenOfDigits(s[1..]);
    }
  }

  /** What WritePage stores with %d, ReadPage and LoadMetadata scan back. */
  lemma ScanUintFormat(n: nat)
    requires n <= MaxUint64
    ensures ScanUint(Format(n)) == Some(n)
  {
    var s := Format(n);
    assert !IsSpace(s[0]) by { assert IsDigit(s[0]); }
    assert TrimLeft(s) == s;
    NumberTokenOfDigits(s);
    ValueFormat(n);
  }

  lemma ScanIntFormat(n: nat)
    requires n <= MaxInt64
    ensures ScanInt(Format(n)) == Some(n)
  {
    var s := Format(n);
    assert !IsSpace(s[0]) by { assert IsDigit(s[0]); }
    assert TrimLeft(s) == s;
    NumberTokenOfDigits(s);
    ValueFormat(n);
  }

  lemma {:induction false} NumberTokenStops(d: string, rest: string)
    requires AllDigits(d) && (rest == [] || !IsDigit(rest[0]))
    ensures NumberToken(d + rest) == d
  {
    if d != [] {
      assert (d + rest)[1..] == d[1..] + rest;
      NumberTokenStops(d[1..], rest);
    }
  }

  /**
   * %d reads the digits up to the first character that is not one, whatever
   * that character is: `1_0` and `1x` both store 1.
   */
  lemma ScanUintStops(d: string, rest: string)
    requires d != [] && AllDigits(d) && Value(d) <= MaxUint64
    requires rest == [] || !IsDigit(rest[0])
    ensures ScanUint(d + rest) == Some(Value(d))
  {
    var s := d + rest;
    assert !IsSpace(s[0]) by { assert s[0] == d[0] && IsDigit(d[0]); }
    assert TrimLeft(s) == s;
    NumberTokenStops(d, rest);
  }
}
