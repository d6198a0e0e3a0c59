/**
 The character classes and string helpers the converters rely on: ASCII
 decimal digits (`\d` in the time pattern, `int()` on a digit group),
 Python's notion of whitespace (`\s` and `str.strip`), and `str.strip`
 itself.
 */
module Text {

  predicate IsDigit(c: char) {
    '0' <= c <= '9'
  }

  function DigitValue(c: char): (d: nat)
    requires IsDigit(c)
    ensures d < 10
  {
    c as int - '0' as int
  }

  function DigitChar(d: nat): (c: char)
    requires d < 10
    ensures IsDigit(c) && DigitValue(c) == d
  {
    ('0' as int + d) as char
  }

  predicate AllDigits(s: string) {
    forall i :: 0 <= i < |s| ==> IsDigit(s[i])
  }

  /** `int(s)` for a string of ASCII decimal digits. */
  function DecimalValue(s: string): (n: nat)
    requires AllDigits(s)
    ensures |s| <= 1 ==> n <= 9
    ensures |s| <= 2 ==> n <= 99
  {
    if |s| == 0 then 0
    else 10 * DecimalValue(s[..|s| - 1]) + DigitValue(s[|s| - 1])
  }

  /** The characters for which Python's `str.isspace()` holds; the same set
      is matched by `\s` in a `str` pattern and removed by `str.strip()`. */
  predicate IsSpace(c: char) {
    || '\t' <= c <= '\r'
    || '\U{1c}' <= c <= '\U{1f}'
    || c == ' ' || c == '\U{85}' || c == '\U{a0}' || c == '\U{1680}'
    || '\U{2000}' <= c <= '\U{200a}'
    || c == '\U{2028}' || c == '\U{2029}' || c == '\U{202f}' || c == '\U{205f}'
    || c == '\U{3000}'
  }

  /** `s[lo..hi]` is all whitespace. */
  predicate SpacesBetween(s: string, lo: nat, hi: nat)
    requires lo <= hi <= |s|
  {
    forall i :: lo <= i < hi ==> IsSpace(s[i])
  }

  /** Length of the run of whitespace starting at `i`. */
  function SpaceRun(s: string, i: nat): (n: nat)
    requires i <= |s|
    ensures i + n <= |s|
    ensures SpacesBetween(s, i, i + n)
    ensures i + n < |s| ==> !IsSpace(s[i + n])
    decreases |s| - i
  {
    if i == |s| || !IsSpace(s[i]) then 0 else 1 + SpaceRun(s, i + 1)
  }

  /** Length of the run of whitespace ending just before `j`. */
  function SpaceRunBefore(s: string, j: nat): (n: nat)
    requires j <= |s|
    ensures n <= j
    ensures SpacesBetween(s, j - n, j)
    ensures n < j ==> !IsSpace(s[j - n - 1])
  {
    if j == 0 || !IsSpace(s[j - 1]) then 0 else 1 + SpaceRunBefore(s, j - 1)
  }

  /** Python's `str.strip()` with no argument: the result is a slice of `s`
      with only whitespace cut off either end, and nothing left to cut. */
  function Strip(s: string): (r: string)
    ensures exists i, j :: 0 <= i <= j <= |s| && r == s[i..j] && SpacesBetween(s, 0, i) && SpacesBetween(s, j, |s|)
    ensures r == [] || (!IsSpace(r[0]) && !IsSpace(r[|r| - 1]))
  {
    var lo := SpaceRun(s, 0);
    if lo == |s| then
      assert s[lo..lo] == [];
      []
    else
      var hi := |s| - SpaceRunBefore(s, |s|);
      assert !IsSpace(s[lo]);
      s[lo..hi]
  }

  /** Stripping is idempotent: a stripped string has nothing left to strip. */
  lemma StripIdempotent(s: string)
    ensures Strip(Strip(s)) == Strip(s)
  {
    var r := Strip(s);
    if r != [] {
      assert SpaceRun(r, 0) == 0;
      assert SpaceRunBefore(r, |r|) == 0;
      assert r[0..|r|] == r;
    }
  }
}
