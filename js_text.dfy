/**
 * The JavaScript string operations the front end relies on: `trim`, the
 * `\s` character class, the default order of `Array.prototype.sort()`
 * (modelled by code point), and number-to-text for template strings.
 */
module JsText {
  import opened Common
  import opened Sorting

  /**
   * ECMAScript WhiteSpace and LineTerminator code points: the characters
   * `String.prototype.trim` removes and the regular-expression class `\s` matches.
   */
  predicate IsJsSpace(c: char) {
    c == '\t' || c == '\n' || c == '\U{B}' || c == '\U{C}' || c == '\r' || c == ' ' ||
    c == '\U{A0}' || c == '\U{1680}' || ('\U{2000}' <= c <= '\U{200A}') ||
    c == '\U{2028}' || c == '\U{2029}' || c == '\U{202F}' || c == '\U{205F}' ||
    c == '\U{3000}' || c == '\U{FEFF}'
  }

  predicate AllSpace(s: string) {
    forall i :: 0 <= i < |s| ==> IsJsSpace(s[i])
  }

  /** The length of the leading run of white space. */
  function LeadingSpace(s: string): (n: nat)
    ensures n <= |s|
    ensures AllSpace(s[..n])
    ensures n < |s| ==> !IsJsSpace(s[n])
  {
    if s != [] && IsJsSpace(s[0]) then
      var n := 1 + LeadingSpace(s[1..]);
      assert forall i :: 1 <= i < n ==> s[..n][i] == s[1..][..n - 1][i - 1];
      n
    else 0
  }

  /** The length of the trailing run of white space. */
  function TrailingSpace(s: string): (n: nat)
    ensures n <= |s|
    ensures AllSpace(s[|s| - n..])
    ensures n < |s| ==> !IsJsSpace(s[|s| - 1 - n])
  {
    if s != [] && IsJsSpace(s[|s| - 1]) then
      var n := 1 + TrailingSpace(s[..|s| - 1]);
      assert s[|s| - n..] == s[..|s| - 1][|s| - n..] + [s[|s| - 1]];
      n
    else 0
  }

  /**
   * `String.prototype.trim`: the text between the leading and the trailing
   * white space. What remains neither starts nor ends with white space, and
   * everything cut off on either side is white space.
   */
  function Trim(s: string): (r: string)
    ensures r == [] || (!IsJsSpace(r[0]) && !IsJsSpace(r[|r| - 1]))
    ensures LeadingSpace(s) + |r| <= |s| && s[LeadingSpace(s)..LeadingSpace(s) + |r|] == r
    ensures AllSpace(s[..LeadingSpace(s)]) && AllSpace(s[LeadingSpace(s) + |r|..])
  {
    var a := LeadingSpace(s);
    var t := s[a..];
    var b := TrailingSpace(t);
    var r := t[..|t| - b];
    assert s[a..a + |r|] == r;
    assert s[a + |r|..] == t[|t| - b..];
    TrimEnds(t, b);
    r
  }

  /** Cutting the trailing run off a text that starts with no white space leaves no white space at either end. */
  lemma TrimEnds(t: string, b: nat)
    requires b == TrailingSpace(t) && (t != [] ==> !IsJsSpace(t[0]))
    ensures var r := t[..|t| - b];
            r == [] || (!IsJsSpace(r[0]) && !IsJsSpace(r[|r| - 1]))
  {
    var r := t[..|t| - b];
    if r != [] {
      assert r[0] == t[0];
      assert r[|r| - 1] == t[|t| - 1 - b];
    }
  }

  /** Text that neither starts nor ends with white space is its own trim. */
  lemma TrimUnspaced(r: string)
    requires r == [] || (!IsJsSpace(r[0]) && !IsJsSpace(r[|r| - 1]))
    ensures Trim(r) == r
  {
    if r != [] {
      assert LeadingSpace(r) == 0;
      assert r[0..] == r;
      assert TrailingSpace(r) == 0;
      assert r[..|r|] == r;
    }
  }

  /** Trimming twice is trimming once. */
  lemma TrimIdempotent(s: string)
    ensures Trim(Trim(s)) == Trim(s)
  {
    TrimUnspaced(Trim(s));
  }

  /**
   * `normalizeQuery` (frontend/src/App.tsx:768-770): trim, then lower-case
   * with the host's `toLocaleLowerCase`, which is passed in as `lower`.
   */
  function NormalizeQuery(lower: string -> string, s: string): string {
    lower(Trim(s))
  }

  /**
   * Lexicographic order of two strings by code point. `Array.prototype.sort()`
   * without a comparator compares UTF-16 code units instead; the two orders
   * agree except between characters above U+FFFF and those in U+E000-U+FFFF.
   */
  function CodePointCompare(a: string, b: string): (r: int)
    ensures -1 <= r <= 1
  {
    if a == [] && b == [] then 0
    else if a == [] then -1
    else if b == [] then 1
    else if a[0] < b[0] then -1
    else if a[0] > b[0] then 1
    else CodePointCompare(a[1..], b[1..])
  }

  /** Code-point order is antisymmetric: only equal strings compare level. */
  lemma {:induction false} CodePointCompareZero(a: string, b: string)
    ensures CodePointCompare(a, b) == 0 <==> a == b
    decreases |a|
  {
    if a != [] && b != [] && a[0] == b[0] {
      CodePointCompareZero(a[1..], b[1..]);
      assert a == [a[0]] + a[1..] && b == [b[0]] + b[1..];
    }
  }

  /** Swapping the strings flips the sign. */
  lemma {:induction false} CodePointCompareFlip(a: string, b: string)
    ensures CodePointCompare(a, b) == -CodePointCompare(b, a)
    decreases |a|
  {
    if a != [] && b != [] && a[0] == b[0] {
      CodePointCompareFlip(a[1..], b[1..]);
    }
  }

  /** "Before or level with" in code-point order is transitive. */
  lemma {:induction false} CodePointCompareTransitive(a: string, b: string, c: string)
    requires CodePointCompare(a, b) <= 0 && CodePointCompare(b, c) <= 0
    ensures CodePointCompare(a, c) <= 0
    decreases |a|
  {
    if a != [] && b != [] && c != [] && a[0] == b[0] && b[0] == c[0] {
      CodePointCompareTransitive(a[1..], b[1..], c[1..]);
    }
  }

  /** Code-point order is a consistent comparator. */
  lemma CodePointCompareConsistent()
    ensures Consistent(CodePointCompare)
  {
    forall a, b ensures CodePointCompare(a, b) < 0 <==> CodePointCompare(b, a) > 0 {
      CodePointCompareFlip(a, b);
    }
    forall a, b, c | CodePointCompare(a, b) <= 0 && CodePointCompare(b, c) <= 0
      ensures CodePointCompare(a, c) <= 0
    {
      CodePointCompareTransitive(a, b, c);
    }
  }

  /** Every element strictly precedes every later one in code-point order. */
  ghost predicate StrictlyAscending(s: seq<string>) {
    forall i, j :: 0 <= i < j < |s| ==> CodePointCompare(s[i], s[j]) < 0
  }

  /**
   * `Array.from(set).sort()` on strings: sorting distinct strings in
   * code-point order gives a strictly ascending sequence of the same strings.
   */
  lemma SortDistinctStrings(s: seq<string>)
    requires NoDup(s)
    ensures StrictlyAscending(SortBy(CodePointCompare, s))
    ensures NoDup(SortBy(CodePointCompare, s))
    ensures Elements(SortBy(CodePointCompare, s)) == Elements(s)
  {
    var r := SortBy(CodePointCompare, s);
    CodePointCompareConsistent();
    SortBySorted(CodePointCompare, s);
    PermutationKeepsNoDup(s, r);
    forall i, j | 0 <= i < j < |r| ensures CodePointCompare(r[i], r[j]) < 0 {
      CodePointCompareZero(r[i], r[j]);
    }
    forall x ensures x in r <==> x in s {
      SortByMembers(CodePointCompare, s, x);
    }
  }

  /** `String(n)` for a non-negative integer: its decimal digits. */
  function Decimal(n: nat): (r: string)
    ensures r != []
    ensures forall i :: 0 <= i < |r| ==> '0' <= r[i] <= '9'
    ensures |r| > 1 ==> r[0] != '0'
  {
    if n < 10 then [DigitChar(n)]
    else Decimal(n / 10) + [DigitChar(n % 10)]
  }

  function DigitChar(d: nat): (c: char)
    requires d < 10
    ensures '0' <= c <= '9'
  {
    ['0', '1', '2', '3', '4', '5', '6', '7', '8', '9'][d]
  }

  /** The value of a string of decimal digits. */
  function DecimalValue(s: string): nat
    requires forall i :: 0 <= i < |s| ==> '0' <= s[i] <= '9'
  {
    if s == [] then 0
    else 10 * DecimalValue(s[..|s| - 1]) + (s[|s| - 1] as int - '0' as int)
  }

  /** Reading the decimal text of `n` back gives `n`. */
  lemma {:induction false} DecimalRoundTrip(n: nat)
    ensures DecimalValue(Decimal(n)) == n
  {
    if n >= 10 {
      DecimalRoundTrip(n / 10);
      var d := Decimal(n);
      assert d[..|d| - 1] == Decimal(n / 10);
    }
  }
}
