/**
 * The text side of date-token resolution in daily.py: normalising a token
 * (`lower()` then `strip()`), the `YYYY-MM-DD` check of `_validate_date`,
 * the keywords `translate_date` recognises, and `compute_date`.
 */
module Resolver {
  import opened Wrappers
  import opened Calendar

  /** `str.isspace()`: the code points Python's `strip()` removes. */
  predicate IsSpace(c: char) {
    var n := c as int;
    (9 <= n <= 13) || (0x1C <= n <= 0x20) || n == 0x85 || n == 0xA0 || n == 0x1680 ||
    (0x2000 <= n <= 0x200A) || n == 0x2028 || n == 0x2029 || n == 0x202F ||
    n == 0x205F || n == 0x3000
  }

  predicate AllSpace(s: string) {
    forall k :: 0 <= k < |s| ==> IsSpace(s[k])
  }

  /** `lower()` on one character (ASCII letters only). */
  function LowerChar(c: char): (r: char)
    ensures 'A' <= c <= 'Z' ==> r as int == c as int + 32
    ensures !('A' <= c <= 'Z') ==> r == c
  {
    if 'A' <= c <= 'Z' then (c as int + 32) as char else c
  }

  function Lower(s: string): (r: string)
    ensures |r| == |s|
    ensures forall k :: 0 <= k < |s| ==> r[k] == LowerChar(s[k])
  {
    seq(|s|, k requires 0 <= k < |s| => LowerChar(s[k]))
  }

  /** The number of whitespace characters at the start of `s`. */
  function LeadingSpaces(s: string): (n: nat)
    ensures n <= |s|
    ensures forall k :: 0 <= k < n ==> IsSpace(s[k])
    ensures n < |s| ==> !IsSpace(s[n])
    decreases |s|
  {
    if s == [] || !IsSpace(s[0]) then 0 else 1 + LeadingSpaces(s[1..])
  }

  /** The number of whitespace characters at the end of `s`. */
  function TrailingSpaces(s: string): (n: nat)
    ensures n <= |s|
    ensures forall k :: |s| - n <= k < |s| ==> IsSpace(s[k])
    ensures n < |s| ==> !IsSpace(s[|s| - 1 - n])
    decreases |s|
  {
    if s == [] || !IsSpace(s[|s| - 1]) then 0 else 1 + TrailingSpaces(s[..|s| - 1])
  }

  /** `strip()`: `s` without its leading and trailing whitespace. */
  function Strip(s: string): (r: string)
    ensures r == [] <==> AllSpace(s)
    ensures r != [] ==> !IsSpace(r[0]) && !IsSpace(r[|r| - 1])
  {
    var t := s[LeadingSpaces(s)..];
    t[..|t| - TrailingSpaces(t)]
  }

  /** What `strip()` keeps is a slice of `s` with only whitespace around it. */
  lemma StripSplit(s: string) returns (i: int, j: int)
    ensures 0 <= i <= j <= |s| && Strip(s) == s[i..j]
    ensures AllSpace(s[..i]) && AllSpace(s[j..])
  {
    i := LeadingSpaces(s);
    var t := s[i..];
    var b := TrailingSpaces(t);
    j := |s| - b;
    assert t[..|t| - b] == s[i..j];
    assert forall k :: 0 <= k < b ==> s[j..][k] == t[|t| - b + k];
  }

  /** Whatever `s` surrounds with whitespace, `strip()` returns exactly it,
      provided it does not itself start or end with whitespace. */
  lemma StripExactly(s: string, i: int, j: int)
    requires 0 <= i <= j <= |s|
    requires AllSpace(s[..i]) && AllSpace(s[j..])
    requires i < j ==> !IsSpace(s[i]) && !IsSpace(s[j - 1])
    ensures Strip(s) == s[i..j]
  {
    assert forall k :: 0 <= k < i ==> s[..i][k] == s[k];
    if i == j {
      assert forall k :: j <= k < |s| ==> s[j..][k - j] == s[k];
      assert AllSpace(s);
    } else {
      var a := LeadingSpaces(s);
      assert a == i;
      var t := s[a..];
      forall k | j - i <= k < |t| ensures IsSpace(t[k]) {
        assert t[k] == s[j..][k - (j - i)];
      }
      assert t[j - i - 1] == s[j - 1];
      var b := TrailingSpaces(t);
      assert b == |t| - (j - i);
      assert t[..|t| - b] == s[i..j];
    }
  }

  /** `lower()` then `strip()`, as `translate_date` does first. */
  function Normalize(token: string): string {
    Strip(Lower(token))
  }

  lemma LowerKeepsSpace(s: string)
    requires AllSpace(s)
    ensures Lower(s) == s
  {
  }

  lemma LowerConcat(x: string, y: string)
    ensures Lower(x + y) == Lower(x) + Lower(y)
  {
  }

  lemma AllSpaceConcat(x: string, y: string)
    requires AllSpace(x) && AllSpace(y)
    ensures AllSpace(x + y)
  {
    assert forall k :: |x| <= k < |x + y| ==> (x + y)[k] == y[k - |x|];
  }

  lemma SlicesOfThree(a: string, b: string, c: string)
    ensures (a + b + c)[..|a|] == a
    ensures (a + b + c)[|a|..|a| + |b|] == b
    ensures (a + b + c)[|a| + |b|..] == c
  {
  }

  lemma Regroup(p: string, f: string, r: string, b: string, q: string)
    ensures p + (f + r + b) + q == (p + f) + r + (b + q)
  {
  }

  /** `strip()` of `r` with whitespace around it is `r`, when `r` neither
      starts nor ends with whitespace. */
  lemma StripAround(before: string, r: string, after: string)
    requires AllSpace(before) && AllSpace(after)
    requires r != [] ==> !IsSpace(r[0]) && !IsSpace(r[|r| - 1])
    ensures Strip(before + r + after) == r
  {
    var whole := before + r + after;
    SlicesOfThree(before, r, after);
    var i, j := |before|, |before| + |r|;
    if r != [] {
      assert whole[i] == r[0] && whole[j - 1] == r[|r| - 1];
    }
    StripExactly(whole, i, j);
  }

  /** `strip()` removes any whitespace put around a string. */
  lemma StripPadding(p: string, x: string, q: string)
    requires AllSpace(p) && AllSpace(q)
    ensures Strip(p + x + q) == Strip(x)
  {
    var r := Strip(x);
    var i, j := StripSplit(x);
    var front, back := x[..i], x[j..];
    assert x == front + r + back;
    AllSpaceConcat(p, front);
    AllSpaceConcat(back, q);
    Regroup(p, front, r, back, q);
    StripAround(p + front, r, back + q);
  }

  /** Case and surrounding whitespace make no difference to a token. */
  lemma NormalizeIgnoresPadding(p: string, s: string, q: string)
    requires AllSpace(p) && AllSpace(q)
    ensures Normalize(p + s + q) == Normalize(s)
  {
    LowerKeepsSpace(p);
    LowerKeepsSpace(q);
    LowerConcat(p, s);
    LowerConcat(p + s, q);
    assert Lower(p + s + q) == p + Lower(s) + q;
    StripPadding(p, Lower(s), q);
  }

  /** A `YYYY-MM-DD` token is its own normal form. */
  lemma NormalizeKeepsDateShape(s: string)
    requires IsDateShape(s)
    ensures Normalize(s) == s
  {
    assert Lower(s) == s;
    StripExactly(s, 0, |s|);
  }

  lemma StripIdempotent(s: string)
    ensures Strip(Strip(s)) == Strip(s)
  {
    var r := Strip(s);
    StripExactly(r, 0, |r|);
  }

  /** Why `_validate_date` rejects a token. */
  datatype DateError = EmptyDate | BadFormat(token: string)

  /** `_validate_date`: `None` when the token is accepted, otherwise the
      error `IllegalDateException` carries. */
  function ValidateDate(t: string): (r: Option<DateError>)
    ensures r.None? <==> IsDateShape(Strip(t))
    ensures r == Some(EmptyDate) <==> t == ""
    ensures r.Some? && t != "" ==> r == Some(BadFormat(t))
  {
    if t == "" then Some(EmptyDate)
    else if !IsDateShape(Strip(t)) then Some(BadFormat(t))
    else None
  }

  const TodayWords: set<string> := {"today", "t"}
  const YesterdayWords: set<string> := {"yesterday", "y"}
  const LastWords: set<string> := {"last", "l"}

  predicate IsKeyword(t: string) {
    t in TodayWords || t in YesterdayWords || t in LastWords
  }

  /** No keyword looks like a date, so the two ways of resolving never overlap. */
  lemma KeywordIsNoDate(t: string)
    requires IsKeyword(t)
    ensures !IsDateShape(t)
  {
  }

  /** `compute_date(offset)`: the key of the day `offset` days from `today`. */
  function ComputeDate(today: Date, offset: int): (r: string)
    requires ValidDate(today)
    ensures |r| > 0
    ensures 0 <= AddDays(today, offset).year <= 9999 ==>
              IsDateShape(r) && DateOf(r) == AddDays(today, offset)
  {
    var d := AddDays(today, offset);
    if 0 <= d.year <= 9999 then FormatRoundTrip(d); Format(d) else Format(d)
  }
}
