/**
 * The few pieces of PHP string behaviour the literal handlers rely on: the
 * character classes of PCRE patterns compiled without the `u` flag, `trim`
 * and `rtrim` with a character list, and reading `$s[$i]`.
 *
 * A PHP string is a byte string; here every `char` stands for one byte.
 */
module PhpStrings {
  import opened Wrappers

  /** The PCRE class `\d` without Unicode properties: an ASCII digit. */
  predicate IsDigit(c: char) {
    '0' <= c <= '9'
  }

  /**
   * The PCRE class `\s` with the default character tables: space, horizontal
   * tab, line feed, vertical tab, form feed and carriage return.
   */
  predicate IsSpace(c: char) {
    c == ' ' || c == '\t' || c == '\n' || c as int == 11 || c as int == 12 || c == '\r'
  }

  predicate AllDigits(s: string) {
    forall i :: 0 <= i < |s| ==> IsDigit(s[i])
  }

  /** The number of characters from `cs` at the front of `s`. */
  function LeadingCount(s: string, cs: set<char>): (n: nat)
    ensures n <= |s|
    ensures forall i :: 0 <= i < n ==> s[i] in cs
    ensures n < |s| ==> s[n] !in cs
  {
    if |s| > 0 && s[0] in cs then 1 + LeadingCount(s[1..], cs) else 0
  }

  /** The length of `s` without the characters from `cs` at its end. */
  function KeptLength(s: string, cs: set<char>): (n: nat)
    ensures n <= |s|
    ensures forall i :: n <= i < |s| ==> s[i] in cs
    ensures n > 0 ==> s[n - 1] !in cs
  {
    if |s| > 0 && s[|s| - 1] in cs then KeptLength(s[..|s| - 1], cs) else |s|
  }

  /**
   * PHP `ltrim($s, $chars)` for a character list without `..` ranges:
   * drops the longest prefix made only of characters in `cs`.
   */
  function LTrim(s: string, cs: set<char>): (r: string)
    ensures |r| <= |s| && r == s[|s| - |r|..]
    ensures |r| > 0 ==> r[0] !in cs
    ensures forall i :: 0 <= i < |s| - |r| ==> s[i] in cs
  {
    s[LeadingCount(s, cs)..]
  }

  /**
   * PHP `rtrim($s, $chars)` for a character list without `..` ranges:
   * drops the longest suffix made only of characters in `cs`.
   */
  function RTrim(s: string, cs: set<char>): (r: string)
    ensures |r| <= |s| && r == s[..|r|]
    ensures |r| > 0 ==> r[|r| - 1] !in cs
    ensures forall i :: |r| <= i < |s| ==> s[i] in cs
  {
    s[..KeptLength(s, cs)]
  }

  /** PHP `trim($s, $chars)`: both ends at once. */
  function Trim(s: string, cs: set<char>): (r: string)
    ensures var k := LeadingCount(s, cs); k + |r| <= |s| && r == s[k..k + |r|]
    ensures forall i :: LeadingCount(s, cs) + |r| <= i < |s| ==> s[i] in cs
    ensures |r| > 0 ==> r[0] !in cs && r[|r| - 1] !in cs
  {
    var t := LTrim(s, cs);
    var r := RTrim(t, cs);
    assert t == s[LeadingCount(s, cs)..];
    assert r == s[LeadingCount(s, cs)..LeadingCount(s, cs) + |r|];
    r
  }

  /**
   * Reading `$s[$i]`: a non-negative offset counts from the front, a negative
   * one from the end; outside the string PHP warns and yields "" (None here).
   */
  function CharAt(s: string, i: int): (r: Option<char>)
    ensures r.Some? <==> -|s| <= i < |s|
    ensures 0 <= i < |s| ==> r == Some(s[i])
    ensures -|s| <= i < 0 ==> r == Some(s[|s| + i])
  {
    if 0 <= i < |s| then Some(s[i])
    else if -|s| <= i < 0 then Some(s[|s| + i])
    else None
  }

  /** A prefix of characters from `cs` in front of a string that starts outside `cs` is what ltrim removes. */
  lemma LTrimDropsPrefix(p: string, t: string, cs: set<char>)
    requires forall i :: 0 <= i < |p| ==> p[i] in cs
    requires |t| > 0 && t[0] !in cs
    ensures LTrim(p + t, cs) == t
  {
    var s := p + t;
    assert s[|p|] == t[0];
  }

  /** A suffix of characters from `cs` behind a string that ends outside `cs` is what rtrim removes. */
  lemma RTrimDropsSuffix(t: string, q: string, cs: set<char>)
    requires forall i :: 0 <= i < |q| ==> q[i] in cs
    requires |t| > 0 && t[|t| - 1] !in cs
    ensures RTrim(t + q, cs) == t
  {
    var s := t + q;
    assert s[|t| - 1] == t[|t| - 1];
  }

  /**
   * What a pattern anchored by `^…$` (no multi-line flag) must match: PCRE's
   * `$` holds at the very end and also just before one final line feed.
   */
  function Subject(value: string): string {
    if |value| > 0 && value[|value| - 1] == '\n' then value[..|value| - 1] else value
  }
}
