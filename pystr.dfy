/** The few Python string operations the core relies on: `str.find`, `str.strip`
    (over `str.isspace`), ASCII `str.lower`, the ordering `<` on strings and
    `str(int)`. Each is given the meaning CPython gives it. */
module PyStr {

  // ---------------------------------------------------------------------------
  // Substring search: str.find(sub, start) and `sub in s`
  // ---------------------------------------------------------------------------

  /** `sub` occurs in `s` starting at index `i`. */
  predicate OccursAt(s: string, sub: string, i: int) {
    0 <= i && i + |sub| <= |s| && s[i..i + |sub|] == sub
  }

  /** Python's `sub in s`. */
  ghost predicate Contains(s: string, sub: string) {
    exists i :: OccursAt(s, sub, i)
  }

  /** No occurrence of `sub` in `s` starts at or after `start`. */
  ghost predicate NoneFrom(s: string, sub: string, start: int) {
    forall j :: start <= j ==> !OccursAt(s, sub, j)
  }

  /** `i` is the first index at or after `start` where `sub` occurs in `s`. */
  ghost predicate FirstFrom(s: string, sub: string, start: int, i: int) {
    start <= i && OccursAt(s, sub, i) && forall j :: start <= j < i ==> !OccursAt(s, sub, j)
  }

  /** Python's `s.find(sub, start)` for a non-negative `start`: the first
      occurrence at or after `start`, or -1 when there is none. */
  function Find(s: string, sub: string, start: nat): (r: int)
    ensures r == -1 || FirstFrom(s, sub, start, r)
    ensures r == -1 <==> NoneFrom(s, sub, start)
    decreases |s| + 1 - start
  {
    if start > |s| then -1
    else if OccursAt(s, sub, start) then start
    else Find(s, sub, start + 1)
  }

  /** An occurrence inside the slice `s[a..b]` is an occurrence in `s` that
      lies within `a..b`. */
  lemma OccursInSlice(s: string, a: int, b: int, sub: string, j: int)
    requires 0 <= a <= b <= |s|
    requires OccursAt(s[a..b], sub, j)
    ensures OccursAt(s, sub, a + j) && a <= a + j && a + j + |sub| <= b
  {
    var inSlice, inWhole := s[a..b][j..j + |sub|], s[a + j..a + j + |sub|];
    forall k | 0 <= k < |sub| ensures inSlice[k] == inWhole[k] {
      assert inSlice[k] == s[a..b][j + k];
    }
    assert inSlice == inWhole;
  }

  /** A slice that holds no occurrence of `sub` lying wholly within it. */
  lemma SliceWithout(s: string, a: int, b: int, sub: string)
    requires 0 <= a <= b <= |s|
    requires forall j :: a <= j && j + |sub| <= b ==> !OccursAt(s, sub, j)
    ensures !Contains(s[a..b], sub)
  {
    if j :| OccursAt(s[a..b], sub, j) {
      OccursInSlice(s, a, b, sub, j);
    }
  }

  // ---------------------------------------------------------------------------
  // Whitespace and str.strip()
  // ---------------------------------------------------------------------------

  /** CPython's `str.isspace` for one character: the characters of bidirectional
      class WS, B or S and those of category Zs. */
  predicate IsSpace(c: char) {
    ('\t' <= c <= '\r') || ('\U{1C}' <= c <= ' ') || c == '\U{85}' || c == '\U{A0}'
    || c == '\U{1680}' || ('\U{2000}' <= c <= '\U{200A}') || c == '\U{2028}'
    || c == '\U{2029}' || c == '\U{202F}' || c == '\U{205F}' || c == '\U{3000}'
  }

  predicate AllSpace(s: string) {
    forall i :: 0 <= i < |s| ==> IsSpace(s[i])
  }

  /** Neither end of `s` is whitespace: what `strip()` always returns. */
  predicate IsStripped(s: string) {
    s == [] || (!IsSpace(s[0]) && !IsSpace(s[|s| - 1]))
  }

  /** Length of the whitespace run that starts `s`. */
  function LeadingSpaces(s: string): (n: nat)
    ensures n <= |s| && forall i :: 0 <= i < n ==> IsSpace(s[i])
    ensures n < |s| ==> !IsSpace(s[n])
  {
    if s == [] || !IsSpace(s[0]) then 0 else 1 + LeadingSpaces(s[1..])
  }

  /** Length of the whitespace run that ends `s`. */
  function TrailingSpaces(s: string): (n: nat)
    ensures n <= |s| && forall i :: |s| - n <= i < |s| ==> IsSpace(s[i])
    ensures n < |s| ==> !IsSpace(s[|s| - n - 1])
  {
    if s == [] || !IsSpace(s[|s| - 1]) then 0 else 1 + TrailingSpaces(s[..|s| - 1])
  }

  /** Python's `s.strip()` with no argument: `s` without its leading and trailing
      whitespace. The result is the slice of `s` that starts after the leading
      whitespace and is followed only by whitespace. */
  function Strip(s: string): (r: string)
    ensures IsStripped(r)
    ensures LeadingSpaces(s) + |r| <= |s|
    ensures r == s[LeadingSpaces(s)..LeadingSpaces(s) + |r|]
    ensures forall i :: LeadingSpaces(s) + |r| <= i < |s| ==> IsSpace(s[i])
  {
    var t := s[LeadingSpaces(s)..];
    t[..|t| - TrailingSpaces(t)]
  }

  lemma {:induction false} LeadingSpacesOf(a: string, t: string)
    requires AllSpace(a)
    requires t == [] || !IsSpace(t[0])
    ensures LeadingSpaces(a + t) == |a|
  {
    if a != [] {
      assert (a + t)[1..] == a[1..] + t;
      LeadingSpacesOf(a[1..], t);
    }
  }

  lemma {:induction false} TrailingSpacesOf(t: string, b: string)
    requires AllSpace(b)
    requires t == [] || !IsSpace(t[|t| - 1])
    ensures TrailingSpaces(t + b) == |b|
  {
    if b != [] {
      assert (t + b)[..|t + b| - 1] == t + b[..|b| - 1];
      TrailingSpacesOf(t, b[..|b| - 1]);
    }
  }

  /** `strip()` is determined by its result: a stripped text framed by
      whitespace on both sides strips to exactly that text. */
  lemma StripFrames(a: string, m: string, b: string)
    requires AllSpace(a) && AllSpace(b) && IsStripped(m)
    ensures Strip(a + m + b) == m
  {
    if m == [] {
      assert a + m + b == (a + b) + [];
      LeadingSpacesOf(a + b, []);
    } else {
      assert a + m + b == a + (m + b);
      LeadingSpacesOf(a, m + b);
      assert (a + m + b)[|a|..] == m + b;
      TrailingSpacesOf(m, b);
    }
  }

  /** `strip()` leaves an already stripped text unchanged. */
  lemma StripStripped(s: string)
    requires IsStripped(s)
    ensures Strip(s) == s
  {
    StripFrames([], s, []);
    assert [] + s + [] == s;
  }

  /** Stripping cannot create an occurrence of `sub`: the result is a slice. */
  lemma StripKeepsAbsent(s: string, sub: string)
    requires !Contains(s, sub)
    ensures !Contains(Strip(s), sub)
  {
    var a := LeadingSpaces(s);
    var r := Strip(s);
    if j :| OccursAt(r, sub, j) {
      OccursInSlice(s, a, a + |r|, sub, j);
    }
  }

  // ---------------------------------------------------------------------------
  // str.lower() and the ordering of strings
  // ---------------------------------------------------------------------------

  /** Lower-casing of one character, for the ASCII letters. */
  function LowerChar(c: char): char {
    if 'A' <= c <= 'Z' then (c as int - 'A' as int + 'a' as int) as char else c
  }

  /** `s.lower()` for ASCII text. */
  function Lower(s: string): (r: string)
    ensures |r| == |s|
    ensures forall i :: 0 <= i < |s| ==> r[i] == LowerChar(s[i])
  {
    seq(|s|, i requires 0 <= i < |s| => LowerChar(s[i]))
  }

  /** Python's `a < b` on strings: lexicographic by code point, a proper prefix
      coming first. */
  predicate LexLess(a: string, b: string) {
    if a == [] then b != []
    else if b == [] then false
    else if a[0] != b[0] then a[0] < b[0]
    else LexLess(a[1..], b[1..])
  }

  lemma {:induction false} LexLessIrreflexive(a: string)
    ensures !LexLess(a, a)
  {
    if a != [] { LexLessIrreflexive(a[1..]); }
  }

  lemma {:induction false} LexLessTransitive(a: string, b: string, c: string)
    requires LexLess(a, b) && LexLess(b, c)
    ensures LexLess(a, c)
  {
    if a != [] && b != [] && c != [] && a[0] == b[0] && b[0] == c[0] {
      LexLessTransitive(a[1..], b[1..], c[1..]);
    }
  }

  lemma {:induction false} LexLessTotal(a: string, b: string)
    ensures a == b || LexLess(a, b) || LexLess(b, a)
  {
    if a != [] && b != [] && a[0] == b[0] {
      LexLessTotal(a[1..], b[1..]);
      if a[1..] == b[1..] {
        assert a == [a[0]] + a[1..] && b == [b[0]] + b[1..];
      }
    }
  }

  // ---------------------------------------------------------------------------
  // str(int)
  // ---------------------------------------------------------------------------

  function DigitChar(d: nat): char
    requires d < 10
  {
    ('0' as int + d) as char
  }

  predicate IsDigit(c: char) {
    '0' <= c <= '9'
  }

  /** Decimal digits of `n`, most significant first, with no leading zero. */
  function NatDigits(n: nat): (r: string)
    ensures |r| > 0 && (forall i :: 0 <= i < |r| ==> IsDigit(r[i]))
    ensures r[0] == '0' ==> n == 0
    decreases n
  {
    if n < 10 then [DigitChar(n)] else NatDigits(n / 10) + [DigitChar(n % 10)]
  }

  /** `str(n)` for an int: a minus sign for negative values, then the digits. */
  function Decimal(n: int): (r: string)
    ensures |r| > 0
    ensures n < 0 <==> r[0] == '-'
  {
    if n < 0 then "-" + NatDigits(-n) else NatDigits(n)
  }

  /** Value of a run of decimal digits. */
  function ParseDigits(s: string): nat
    requires forall i :: 0 <= i < |s| ==> IsDigit(s[i])
  {
    if s == [] then 0
    else
      assert IsDigit(s[|s| - 1]);
      ParseDigits(s[..|s| - 1]) * 10 + (s[|s| - 1] as int - '0' as int)
  }

  /** Value of an optionally signed decimal numeral. */
  function ParseDecimal(s: string): int
    requires |s| > 0
    requires forall i :: 0 < i < |s| ==> IsDigit(s[i])
    requires s[0] == '-' || IsDigit(s[0])
  {
    var magnitude: int := if s[0] == '-' then ParseDigits(s[1..]) else ParseDigits(s);
    if s[0] == '-' then -magnitude else magnitude
  }

  lemma {:induction false} NatDigitsRoundTrip(n: nat)
    ensures ParseDigits(NatDigits(n)) == n
    decreases n
  {
    if n >= 10 {
      NatDigitsRoundTrip(n / 10);
      var r := NatDigits(n);
      assert r[..|r| - 1] == NatDigits(n / 10);
    }
  }

  /** `str(n)` reads back as `n`: the decimal text names the value exactly. */
  lemma DecimalRoundTrip(n: int)
    ensures ParseDecimal(Decimal(n)) == n
  {
    if n < 0 {
      NatDigitsRoundTrip(-n);
      assert Decimal(n)[1..] == NatDigits(-n);
    } else {
      NatDigitsRoundTrip(n);
    }
  }
}
