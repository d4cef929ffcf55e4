/**
 * Character classes and scanning helpers shared by the pattern matchers of
 * pdfextract.py. Python's `re` works on Unicode strings; this model keeps the
 * ASCII part of each class: `\d` is 0-9, `\s` (and `str.strip`) is the set of
 * characters below 128 for which `str.isspace` holds, and IGNORECASE folds only
 * A-Z onto a-z.
 */
module Chars {
  import opened Options

  /** `\d`, ASCII part. */
  predicate IsDigit(c: char) {
    '0' <= c <= '9'
  }

  /** `\s`: tab, line feed, vertical tab, form feed, carriage return, the four
      information separators 0x1C-0x1F, and space. */
  predicate IsSpace(c: char) {
    var n := c as int;
    9 <= n <= 13 || 28 <= n <= 32
  }

  predicate IsUpper(c: char) {
    'A' <= c <= 'Z'
  }

  predicate IsLower(c: char) {
    'a' <= c <= 'z'
  }

  predicate IsLetter(c: char) {
    IsUpper(c) || IsLower(c)
  }

  /** `[A-Z\s.]` compiled with IGNORECASE. */
  predicate IsNameChar(c: char) {
    IsLetter(c) || IsSpace(c) || c == '.'
  }

  /** `[A-Z+]`, case-sensitive. */
  predicate IsGradeChar(c: char) {
    IsUpper(c) || c == '+'
  }

  /** Case folding used by IGNORECASE: upper-case letters go to lower case,
      every other character is left alone. */
  function Lower(c: char): (r: char)
    ensures IsLetter(r) <==> IsLetter(c)
    ensures !IsLetter(c) ==> r == c
    ensures IsLetter(c) ==> IsLower(r) && (IsLower(c) ==> r == c)
  {
    if IsUpper(c) then (c as int + 32) as char else c
  }

  /** The lower-case word w occurs at s[i..], ignoring case. */
  predicate CiMatch(s: string, i: nat, w: string) {
    i + |w| <= |s| && forall k :: 0 <= k < |w| ==> Lower(s[i + k]) == w[k]
  }

  /** The word w occurs at s[i..], case-sensitively. */
  predicate Match(s: string, i: nat, w: string) {
    i + |w| <= |s| && s[i..i + |w|] == w
  }

  /** Every character of s[lo..lo + n] satisfies p. */
  predicate All(s: string, lo: nat, n: nat, p: char -> bool) {
    lo + n <= |s| && forall k :: lo <= k < lo + n ==> p(s[k])
  }

  /** The length of the longest run of characters satisfying p that starts at
      s[i] (what a greedy `p+` or `p*` consumes before backtracking). */
  function Span(s: string, i: nat, p: char -> bool): (n: nat)
    requires i <= |s|
    ensures All(s, i, n, p)
    ensures i + n == |s| || !p(s[i + n])
    decreases |s| - i
  {
    if i < |s| && p(s[i]) then 1 + Span(s, i + 1, p) else 0
  }

  /** A run of p that is followed by a character outside p, or by the end of
      s, is exactly the span at its start. */
  lemma SpanUnique(s: string, i: nat, n: nat, p: char -> bool)
    requires All(s, i, n, p)
    requires i + n == |s| || !p(s[i + n])
    ensures Span(s, i, p) == n
  {
  }

  /** Every run of p at s[i] fits inside the span at s[i]. */
  lemma SpanBound(s: string, i: nat, n: nat, p: char -> bool)
    requires All(s, i, n, p)
    ensures n <= Span(s, i, p)
  {
  }

  /** A word whose first letter is not whitespace cannot start inside a run of
      whitespace. */
  lemma CiMatchNotSpace(s: string, i: nat, w: string)
    requires CiMatch(s, i, w) && w != [] && IsLower(w[0])
    ensures !IsSpace(s[i])
  {
    assert Lower(s[i]) == w[0];
  }

  /** The least index in [lo, hi] satisfying p: how `re.search` scans start
      positions from left to right. */
  function First(p: nat -> bool, lo: nat, hi: nat): (r: Option<nat>)
    ensures r.Some? ==> lo <= r.value <= hi && p(r.value)
    ensures r.Some? ==> forall j :: lo <= j < r.value ==> !p(j)
    ensures r.None? ==> forall j :: lo <= j <= hi ==> !p(j)
    decreases hi - lo
  {
    if lo > hi then None
    else if p(lo) then Some(lo)
    else First(p, lo + 1, hi)
  }

  /** The greatest index in [lo, hi] satisfying p: where a greedy group that
      has to backtrack finally stops. */
  function Last(p: nat -> bool, lo: nat, hi: nat): (r: Option<nat>)
    ensures r.Some? ==> lo <= r.value <= hi && p(r.value)
    ensures r.Some? ==> forall j :: r.value < j <= hi ==> !p(j)
    ensures r.None? ==> forall j :: lo <= j <= hi ==> !p(j)
    decreases hi - lo
  {
    if lo > hi then None
    else if p(hi) then Some(hi)
    else if hi == lo then None
    else Last(p, lo, hi - 1)
  }

  /** The length of the longest run of characters satisfying p that ends
      just before s[j]. */
  function SpanBack(s: string, j: nat, p: char -> bool): (n: nat)
    requires j <= |s|
    ensures n <= j && All(s, j - n, n, p)
    ensures n == j || !p(s[j - n - 1])
  {
    if 0 < j && p(s[j - 1]) then 1 + SpanBack(s, j - 1, p) else 0
  }

  /** A run of p that ends before s[j] and is preceded by a character
      outside p, or by the start of s, is exactly the span back from j. */
  lemma SpanBackUnique(s: string, j: nat, n: nat, p: char -> bool)
    requires n <= j <= |s| && All(s, j - n, n, p)
    requires n == j || !p(s[j - n - 1])
    ensures SpanBack(s, j, p) == n
  {
  }

  /** The number of whitespace characters at the end of s. */
  function TrailingSpaces(s: string): (n: nat)
    ensures n <= |s| && All(s, |s| - n, n, IsSpace)
    ensures n == |s| || !IsSpace(s[|s| - n - 1])
  {
    SpanBack(s, |s|, IsSpace)
  }

  /** s is whitespace only. */
  predicate AllSpace(s: string) {
    forall k :: 0 <= k < |s| ==> IsSpace(s[k])
  }

  /** Python's `str.strip()` with no argument: whitespace is removed from both
      ends. */
  function Strip(s: string): (r: string)
    ensures r != [] ==> !IsSpace(r[0]) && !IsSpace(r[|r| - 1])
    ensures |r| <= |s|
  {
    var lo := Span(s, 0, IsSpace);
    if lo == |s| then []
    else
      var t := TrailingSpaces(s);
      assert !IsSpace(s[lo]);
      s[lo..|s| - t]
  }

  /** Only a string of whitespace strips to nothing. */
  lemma StripEmpty(s: string)
    ensures Strip(s) == [] <==> AllSpace(s)
  {
    var lo := Span(s, 0, IsSpace);
    if lo < |s| {
      assert !IsSpace(s[lo]);
    }
  }

  /** The leading whitespace of a + t + b, when t is not all whitespace. */
  lemma LeadingPadded(a: string, t: string, b: string)
    requires AllSpace(a) && !AllSpace(t)
    ensures Span(a + t + b, 0, IsSpace) == |a| + Span(t, 0, IsSpace)
  {
    var x, l := a + t + b, Span(t, 0, IsSpace);
    forall k | 0 <= k < |a| + l ensures IsSpace(x[k]) {
      if k < |a| { assert x[k] == a[k]; } else { assert x[k] == t[k - |a|]; }
    }
    assert x[|a| + l] == t[l];
    SpanUnique(x, 0, |a| + l, IsSpace);
  }

  /** The trailing whitespace of a + t + b, when t is not all whitespace. */
  lemma TrailingPadded(a: string, t: string, b: string)
    requires AllSpace(b) && !AllSpace(t)
    ensures TrailingSpaces(a + t + b) == |b| + TrailingSpaces(t)
  {
    var x, m := a + t + b, TrailingSpaces(t);
    forall k | |x| - (|b| + m) <= k < |x| ensures IsSpace(x[k]) {
      if k < |a| + |t| { assert x[k] == t[k - |a|]; } else { assert x[k] == b[k - |a| - |t|]; }
    }
    assert x[|x| - (|b| + m) - 1] == t[|t| - m - 1];
    SpanBackUnique(x, |x|, |b| + m, IsSpace);
  }

  /** Whitespace around a string does not change what it strips to. */
  lemma StripPadded(a: string, t: string, b: string)
    requires AllSpace(a) && AllSpace(b)
    ensures Strip(a + t + b) == Strip(t)
  {
    if AllSpace(t) {
      AllSpacePadded(a, t, b);
      StripEmpty(a + t + b);
      StripEmpty(t);
    } else {
      StripPaddedText(a, t, b);
    }
  }

  lemma AllSpacePadded(a: string, t: string, b: string)
    requires AllSpace(a) && AllSpace(t) && AllSpace(b)
    ensures AllSpace(a + t + b)
  {
    var x := a + t + b;
    forall k | 0 <= k < |x| ensures IsSpace(x[k]) {
      if k < |a| { assert x[k] == a[k]; }
      else if k < |a| + |t| { assert x[k] == t[k - |a|]; }
      else { assert x[k] == b[k - |a| - |t|]; }
    }
  }

  lemma StripPaddedText(a: string, t: string, b: string)
    requires AllSpace(a) && AllSpace(b) && !AllSpace(t)
    ensures Strip(a + t + b) == Strip(t)
  {
    var x := a + t + b;
    var l, m := Span(t, 0, IsSpace), TrailingSpaces(t);
    LeadingPadded(a, t, b);
    TrailingPadded(a, t, b);
    StripAt(t);
    StripAt(x);
    SliceOfPadded(a, t, b, l, |t| - m);
    assert Strip(x) == x[|a| + l..|a| + (|t| - m)];
  }

  lemma SliceOfPadded(a: string, t: string, b: string, lo: nat, hi: nat)
    requires lo <= hi <= |t|
    ensures (a + t + b)[|a| + lo..|a| + hi] == t[lo..hi]
  {
    var x := a + t + b;
    forall k | |a| + lo <= k < |a| + hi ensures x[k] == t[k - |a|] {
    }
  }

  /** A string that is not all whitespace strips to the part between its
      leading and its trailing whitespace. */
  lemma StripAt(s: string)
    requires !AllSpace(s)
    ensures Span(s, 0, IsSpace) < |s| - TrailingSpaces(s)
    ensures Strip(s) == s[Span(s, 0, IsSpace)..|s| - TrailingSpaces(s)]
  {
    var lo := Span(s, 0, IsSpace);
    if lo == |s| {
      assert false;
    }
    assert !IsSpace(s[lo]);
  }

  /** Whitespace at the front of a slice does not change what it strips to. */
  lemma StripSkipsLeadingSpaces(s: string, p: nat, lead: nat, stop: nat)
    requires p + lead <= stop <= |s|
    requires All(s, p, lead, IsSpace)
    ensures Strip(s[p..stop]) == Strip(s[p + lead..stop])
  {
    var pad := s[p..p + lead];
    assert s[p..stop] == pad + s[p + lead..stop] + [];
    assert AllSpace(pad) by {
      forall k | 0 <= k < |pad| ensures IsSpace(pad[k]) {
        assert pad[k] == s[p + k];
      }
    }
    StripPadded(pad, s[p + lead..stop], []);
  }

  /** A string without whitespace at either end strips to itself. */
  lemma StripTrimmed(t: string)
    requires t != [] ==> !IsSpace(t[0]) && !IsSpace(t[|t| - 1])
    ensures Strip(t) == t
  {
    if t != [] {
      SpanUnique(t, 0, 0, IsSpace);
      SpanBackUnique(t, |t|, 0, IsSpace);
    }
  }

  /** Stripping twice is stripping once. */
  lemma StripIdempotent(s: string)
    ensures Strip(Strip(s)) == Strip(s)
  {
    StripTrimmed(Strip(s));
  }

  /** Python's `int()` of a string of ASCII digits, in base ten. */
  function Value(d: string): nat
    requires forall k :: 0 <= k < |d| ==> IsDigit(d[k])
  {
    if d == [] then 0
    else
      var c := d[|d| - 1];
      assert IsDigit(c);
      10 * Value(d[..|d| - 1]) + (c as int - '0' as int)
  }

  /** Leading zeros do not change the integer a digit string denotes. */
  lemma {:induction false} ValueLeadingZero(d: string)
    requires forall k :: 0 <= k < |d| ==> IsDigit(d[k])
    ensures Value("0" + d) == Value(d)
  {
    if d != [] {
      assert ("0" + d)[..|d|] == "0" + d[..|d| - 1];
      ValueLeadingZero(d[..|d| - 1]);
    }
  }

  /** Two digits denote ten times the first plus the second. */
  lemma ValueOfTwo(d: string)
    requires |d| == 2 && IsDigit(d[0]) && IsDigit(d[1])
    ensures Value(d) == 10 * (d[0] as int - '0' as int) + (d[1] as int - '0' as int)
  {
    var h := d[..1];
    assert h[0] == d[0] && h[..0] == [];
    assert Value(h) == h[0] as int - '0' as int;
  }

  function Pow10(n: nat): (r: nat)
    ensures r >= 1
  {
    if n == 0 then 1 else 10 * Pow10(n - 1)
  }

  /** A string of n digits denotes a number below 10^n. */
  lemma {:induction false} ValueBound(d: string)
    requires forall k :: 0 <= k < |d| ==> IsDigit(d[k])
    ensures Value(d) < Pow10(|d|)
  {
    if d != [] {
      ValueBound(d[..|d| - 1]);
    }
  }
}
