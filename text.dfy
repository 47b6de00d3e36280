/**
 * The ordinal string operations of .NET that the snapshot code relies on:
 * String.IndexOf with StringComparison.Ordinal, String.TrimEnd(), the
 * line-bounded "." of a regular expression, int.Parse on a string of decimal
 * digits, and the zero-padding custom numeric format ("000", "0000").
 */
module Text {
  import opened Wrappers

  /** The largest value of a C# int; int.Parse throws OverflowException above it. */
  const Int32Max: int := 0x7FFF_FFFF

  /** `pat` occurs in `s` starting at index `i`. */
  predicate OccursAt(s: string, i: int, pat: string) {
    0 <= i && i + |pat| <= |s| && s[i..i + |pat|] == pat
  }

  /** An occurrence inside a slice is an occurrence in the whole string. */
  lemma OccursInSlice(s: string, lo: nat, hi: nat, k: nat, pat: string)
    requires lo <= hi <= |s| && OccursAt(s[lo..hi], k, pat)
    ensures OccursAt(s, lo + k, pat)
  {
    var inner := s[lo..hi];
    assert |inner| == hi - lo && k + |pat| <= |inner|;
    forall i | 0 <= i < |pat| ensures s[lo + k..lo + k + |pat|][i] == pat[i] {
      assert inner[k..k + |pat|][i] == pat[i];
      assert inner[k + i] == s[lo + k + i];
    }
    assert s[lo + k..lo + k + |pat|] == pat;
  }

  /** Ordinal s.IndexOf(pat, from): the first occurrence at or after `from`, or -1. */
  function IndexOfFrom(s: string, pat: string, from: nat): (r: int)
    ensures -1 <= r
    ensures r >= 0 ==> from <= r && OccursAt(s, r, pat)
    ensures r >= 0 ==> forall i :: from <= i < r ==> !OccursAt(s, i, pat)
    ensures r == -1 ==> forall i :: from <= i ==> !OccursAt(s, i, pat)
    decreases |s| - from
  {
    if from + |pat| > |s| then -1
    else if OccursAt(s, from, pat) then from
    else IndexOfFrom(s, pat, from + 1)
  }

  /** Ordinal s.IndexOf(pat). */
  function IndexOf(s: string, pat: string): int {
    IndexOfFrom(s, pat, 0)
  }

  /** char.IsWhiteSpace: the Unicode White_Space characters. */
  predicate IsWhiteSpace(c: char) {
    var n := c as int;
    (0x09 <= n <= 0x0D) || n == 0x20 || n == 0x85 || n == 0xA0 || n == 0x1680
    || (0x2000 <= n <= 0x200A) || n == 0x2028 || n == 0x2029 || n == 0x202F
    || n == 0x205F || n == 0x3000
  }

  /**
   * The characters TrimEnd removes include tab, line feed, carriage return,
   * space, no-break space and the ideographic space, but not the zero-width
   * space or the byte order mark, which are not White_Space.
   */
  lemma WhiteSpaceCharacters()
    ensures IsWhiteSpace('\t') && IsWhiteSpace('\n') && IsWhiteSpace('\r') && IsWhiteSpace(' ')
    ensures IsWhiteSpace('\U{A0}') && IsWhiteSpace('\U{3000}')
    ensures !IsWhiteSpace('\U{200B}') && !IsWhiteSpace('\U{FEFF}') && !IsWhiteSpace('0')
  {
  }

  /** s.TrimEnd(): `s` without its trailing white space. */
  function TrimEnd(s: string): (r: string)
    ensures |r| <= |s| && r == s[..|r|]
    ensures r == [] || !IsWhiteSpace(r[|r| - 1])
    ensures forall i :: |r| <= i < |s| ==> IsWhiteSpace(s[i])
  {
    if s != [] && IsWhiteSpace(s[|s| - 1]) then TrimEnd(s[..|s| - 1]) else s
  }

  /** The three properties of TrimEnd's contract determine its result. */
  lemma {:induction false} TrimEndUnique(s: string, r: string)
    requires |r| <= |s| && r == s[..|r|]
    requires r == [] || !IsWhiteSpace(r[|r| - 1])
    requires forall i :: |r| <= i < |s| ==> IsWhiteSpace(s[i])
    ensures TrimEnd(s) == r
  {
    var t := TrimEnd(s);
    if |t| < |r| {
      assert false;
    } else if |r| < |t| {
      assert false;
    }
  }

  /**
   * Where the regular-expression item ".+" stops when it starts at `p`: the
   * first line feed at or after `p`, or the end of `s` ("." matches every
   * character except '\n' outside single-line mode).
   */
  function LineEnd(s: string, p: nat): (q: nat)
    requires p <= |s|
    ensures p <= q <= |s|
    ensures q == |s| || s[q] == '\n'
    ensures forall i :: p <= i < q ==> s[i] != '\n'
    decreases |s| - p
  {
    if p == |s| || s[p] == '\n' then p else LineEnd(s, p + 1)
  }

  predicate IsDigit(c: char) {
    '0' <= c <= '9'
  }

  predicate AllDigits(s: string) {
    forall i :: 0 <= i < |s| ==> IsDigit(s[i])
  }

  function DigitValue(c: char): (d: nat)
    requires IsDigit(c)
  {
    (c as int) - ('0' as int)
  }

  function DigitChar(d: nat): (c: char)
    requires d < 10
  {
    ((('0' as int) + d) as char)
  }

  /** The value of a string of decimal digits, most significant first. */
  function DigitsValue(s: string): nat
    requires AllDigits(s)
  {
    if s == [] then 0 else DigitsValue(s[..|s| - 1]) * 10 + DigitValue(s[|s| - 1])
  }

  /** Leading zeros do not change the value of a digit string. */
  lemma {:induction false} LeadingZero(s: string)
    requires AllDigits(s)
    ensures AllDigits(['0'] + s) && DigitsValue(['0'] + s) == DigitsValue(s)
  {
    if s != [] {
      assert (['0'] + s)[..|s|] == ['0'] + s[..|s| - 1];
      LeadingZero(s[..|s| - 1]);
    }
  }

  /** n.ToString(): the shortest decimal digit string of `n`. */
  function Decimal(n: nat): (r: string)
    ensures AllDigits(r) && r != []
    ensures DigitsValue(r) == n
  {
    if n < 10 then [DigitChar(n)]
    else
      var r := Decimal(n / 10) + [DigitChar(n % 10)];
      assert r[..|r| - 1] == Decimal(n / 10);
      r
  }

  function Pow10(w: nat): (p: nat)
    ensures p >= 1
  {
    if w == 0 then 1 else 10 * Pow10(w - 1)
  }

  /** A number below 10^w needs at most w digits. */
  lemma {:induction false} DecimalLength(n: nat, w: nat)
    ensures 1 <= w && n < Pow10(w) ==> |Decimal(n)| <= w
  {
    if 1 <= w && n < Pow10(w) && n >= 10 {
      DecimalLength(n / 10, w - 1);
    }
  }

  /**
   * The custom numeric format of `w` zeros ("000") applied to `n`: the decimal
   * digits of `n`, with '0' characters prepended until there are `w` of them.
   */
  function PadNumber(n: nat, w: nat): (r: string)
    ensures AllDigits(r) && DigitsValue(r) == n
    ensures |r| == if |Decimal(n)| >= w then |Decimal(n)| else w
    ensures 1 <= w && n < Pow10(w) ==> |r| == w
    decreases w
  {
    DecimalLength(n, w);
    if |Decimal(n)| >= w then Decimal(n)
    else
      LeadingZero(PadNumber(n, w - 1));
      ['0'] + PadNumber(n, w - 1)
  }

  /** Padded numbers are distinct exactly when the numbers are. */
  lemma PadNumberInjective(a: nat, b: nat, w: nat)
    ensures PadNumber(a, w) == PadNumber(b, w) <==> a == b
  {
    if PadNumber(a, w) == PadNumber(b, w) {
      assert DigitsValue(PadNumber(a, w)) == DigitsValue(PadNumber(b, w));
    }
  }

  /** Why int.Parse rejects a string. */
  datatype NumberError = NotANumber | Overflow

  /**
   * int.Parse restricted to strings of decimal digits: a non-empty digit string
   * whose value fits in a C# int parses to that value.
   */
  function ParseInt32(s: string): (r: Result<nat, NumberError>)
    ensures r.Success? <==> s != [] && AllDigits(s) && DigitsValue(s) <= Int32Max
    ensures r.Success? ==> r.value == DigitsValue(s)
    ensures r == Failure(Overflow) <==> s != [] && AllDigits(s) && DigitsValue(s) > Int32Max
  {
    if s == [] || !AllDigits(s) then Failure(NotANumber)
    else if DigitsValue(s) > Int32Max then Failure(Overflow)
    else Success(DigitsValue(s))
  }

  /** Parsing the decimal text of a number gives the number back. */
  lemma ParseDecimal(n: nat)
    requires n <= Int32Max
    ensures ParseInt32(Decimal(n)) == Success(n)
  {
  }

  /** int.Parse accepts the zero-padded text as well. */
  lemma ParsePadded(n: nat, w: nat)
    requires n <= Int32Max
    ensures ParseInt32(PadNumber(n, w)) == Success(n)
  {
  }
}
