/** The few Python string built-ins the chat server relies on, with their
    Python semantics: `str.find`, slicing with negative and out-of-range
    bounds, `str.strip()` with no argument, and `str(n)` for a natural number. */
module PyText {

  /** `s.find(c)`: the index of the first occurrence of `c`, or -1. */
  function Find(s: string, c: char): (r: int)
    ensures -1 <= r < |s|
    ensures r == -1 <==> c !in s
    ensures r >= 0 ==> s[r] == c && c !in s[..r]
  {
    if s == [] then -1
    else if s[0] == c then 0
    else
      var k := Find(s[1..], c);
      assert s[1..][..k + 1] == s[1..k + 2];
      if k == -1 then -1 else k + 1
  }

  /** How Python turns one bound of a slice into an index of a sequence of
      length `n`: a negative bound counts from the end, and the result is
      clamped to `0..n`. */
  function SliceBound(i: int, n: nat): (r: nat)
    ensures r <= n
    ensures 0 <= i <= n ==> r == i
    ensures i > n ==> r == n
    ensures i < 0 && -i <= n ==> r == n + i
    ensures i < 0 && -i > n ==> r == 0
  {
    if i < 0 then (if i + n < 0 then 0 else i + n)
    else if i > n then n
    else i
  }

  /** `s[start:stop]` for arbitrary integer bounds: empty when the
      normalised start is not below the normalised stop. */
  function Slice(s: string, start: int, stop: int): (r: string)
    ensures 0 <= start <= stop <= |s| ==> r == s[start..stop]
    ensures 0 <= stop <= start ==> r == []
    ensures var lo := SliceBound(start, |s|); lo + |r| <= |s| && r == s[lo..lo + |r|]
    ensures var lo, hi := SliceBound(start, |s|), SliceBound(stop, |s|);
            |r| == if lo < hi then hi - lo else 0
  {
    var lo, hi := SliceBound(start, |s|), SliceBound(stop, |s|);
    if lo < hi then s[lo..hi] else []
  }

  /** The characters for which Python's `str.isspace()` holds, which are
      exactly the ones `str.strip()` removes. */
  predicate IsSpace(c: char)
  {
    c == ' ' || '\t' <= c <= '\r' || '\U{001C}' <= c <= '\U{001F}' ||
    c == '\U{0085}' || c == '\U{00A0}' || c == '\U{1680}' ||
    '\U{2000}' <= c <= '\U{200A}' || c == '\U{2028}' || c == '\U{2029}' ||
    c == '\U{202F}' || c == '\U{205F}' || c == '\U{3000}'
  }

  /** Every character of `s[lo..hi]` is white space. */
  predicate AllSpace(s: string, lo: nat, hi: nat)
    requires lo <= hi <= |s|
  {
    forall k :: lo <= k < hi ==> IsSpace(s[k])
  }

  /** Neither end of `s` is white space: stripping leaves it alone. */
  predicate IsStripped(s: string)
  {
    s == [] || (!IsSpace(s[0]) && !IsSpace(s[|s| - 1]))
  }

  /** Where `s.strip()` starts: the first index at or after `i` that is not
      white space. */
  function StripStart(s: string, i: nat): (k: nat)
    requires i <= |s|
    ensures i <= k <= |s| && AllSpace(s, i, k)
    ensures k == |s| || !IsSpace(s[k])
    decreases |s| - i
  {
    if i == |s| || !IsSpace(s[i]) then i else StripStart(s, i + 1)
  }

  /** Where `s.strip()` ends: the last index at or before `j`, and not below
      `lo`, that follows a character other than white space. */
  function StripEnd(s: string, lo: nat, j: nat): (k: nat)
    requires lo <= j <= |s|
    ensures lo <= k <= j && AllSpace(s, k, j)
    ensures k == lo || !IsSpace(s[k - 1])
    decreases j
  {
    if j == lo || !IsSpace(s[j - 1]) then j else StripEnd(s, lo, j - 1)
  }

  /** `s.strip()`: `s` without its leading and trailing white space. */
  function Strip(s: string): (r: string)
    ensures r == [] <==> AllSpace(s, 0, |s|)
    ensures IsStripped(r)
  {
    var lo := StripStart(s, 0);
    var hi := StripEnd(s, lo, |s|);
    s[lo..hi]
  }

  /** What `s.strip()` keeps is an infix of `s`. */
  lemma StripInfix(s: string)
    ensures var lo := StripStart(s, 0);
            lo + |Strip(s)| <= |s| && Strip(s) == s[lo..lo + |Strip(s)|]
  {
  }

  /** `s.strip()` removes exactly the white space at both ends: what it
      keeps is `s[lo..hi]` with only white space before `lo` and after
      `hi`. With `Strip`'s own contract (the result has no white space at
      either end) this fixes the result. */
  lemma StripTrimsEnds(s: string)
    ensures exists lo, hi :: 0 <= lo <= hi <= |s| && AllSpace(s, 0, lo) && AllSpace(s, hi, |s|) &&
                             Strip(s) == s[lo..hi]
  {
    var lo := StripStart(s, 0);
    var hi := StripEnd(s, lo, |s|);
    assert AllSpace(s, 0, lo) && AllSpace(s, hi, |s|) && Strip(s) == s[lo..hi];
  }

  lemma {:induction false} StripUnchanged(s: string)
    requires IsStripped(s)
    ensures Strip(s) == s
  {
  }

  lemma {:induction false} StripIdempotent(s: string)
    ensures Strip(Strip(s)) == Strip(s)
  {
    StripUnchanged(Strip(s));
  }

  /** A character missing from `s` is missing from every infix of it. */
  lemma NotInInfix(s: string, c: char, lo: nat, hi: nat)
    requires lo <= hi <= |s| && c !in s
    ensures c !in s[lo..hi]
  {
  }

  predicate IsDigit(c: char)
  {
    '0' <= c <= '9'
  }

  function Digit(d: nat): (c: char)
    requires d < 10
    ensures IsDigit(c) && c as int - '0' as int == d
  {
    ('0' as int + d) as char
  }

  /** `str(n)`: the decimal digits of `n`, most significant first, with no
      leading zero. */
  function Decimal(n: nat): (r: string)
    ensures r != []
    ensures forall k :: 0 <= k < |r| ==> IsDigit(r[k])
    ensures |r| > 1 ==> r[0] != '0'
  {
    if n < 10 then [Digit(n)]
    else Decimal(n / 10) + [Digit(n % 10)]
  }

  /** The number a string of decimal digits denotes (`int(s)`). */
  function DecimalValue(s: string): nat
    requires forall k :: 0 <= k < |s| ==> IsDigit(s[k])
  {
    if s == [] then 0
    else
      assert IsDigit(s[|s| - 1]);
      DecimalValue(s[..|s| - 1]) * 10 + (s[|s| - 1] as int - '0' as int)
  }

  lemma {:induction false} DecimalRoundTrip(n: nat)
    ensures DecimalValue(Decimal(n)) == n
  {
    if n < 10 {
      assert Decimal(n)[..0] == [];
    } else {
      var d := Decimal(n / 10);
      assert (d + [Digit(n % 10)])[..|d|] == d;
      DecimalRoundTrip(n / 10);
    }
  }

  lemma DecimalInjective(m: nat, n: nat)
    requires Decimal(m) == Decimal(n)
    ensures m == n
  {
    DecimalRoundTrip(m);
    DecimalRoundTrip(n);
  }
}
