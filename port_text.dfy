/**
 * The string handling the port-registry reducer relies on: the first line of
 * a description (Python's `str.splitlines()[0]`), the case-insensitive test
 * for the "unassigned" placeholder, decimal digit strings (what `int()` is
 * given) and the range pattern `^(\d+)-(\d+)$`.
 */
module PortText {
  import opened Results

  /** The characters at which Python's `str.splitlines` breaks a line. */
  predicate IsLineBreak(c: char) {
    c == '\n' || c == '\r' || c == '\U{000B}' || c == '\U{000C}' ||
    c == '\U{001C}' || c == '\U{001D}' || c == '\U{001E}' ||
    c == '\U{0085}' || c == '\U{2028}' || c == '\U{2029}'
  }

  predicate NoLineBreak(s: string) {
    forall i :: 0 <= i < |s| ==> !IsLineBreak(s[i])
  }

  /**
   * The first line of a description: the longest prefix without a line
   * break. The empty description gives the empty line, and so does one that
   * starts with a line break (Python's `"\n".splitlines()[0] == ""`).
   */
  function FirstLine(s: string): string {
    if s == [] || IsLineBreak(s[0]) then [] else [s[0]] + FirstLine(s[1..])
  }

  /** The first line is a prefix without a line break that stops at a break or at the end. */
  lemma {:induction false} FirstLineShape(s: string)
    ensures var r := FirstLine(s);
      && r <= s
      && NoLineBreak(r)
      && (|r| < |s| ==> IsLineBreak(s[|r|]))
  {
    if s != [] && !IsLineBreak(s[0]) {
      FirstLineShape(s[1..]);
    }
  }

  /** The properties of FirstLine determine it: any break-free prefix that ends at a break or at the end is it. */
  lemma {:induction false} FirstLineUnique(s: string, t: string)
    requires t <= s && NoLineBreak(t)
    requires |t| < |s| ==> IsLineBreak(s[|t|])
    ensures t == FirstLine(s)
  {
    var r := FirstLine(s);
    FirstLineShape(s);
    assert |r| == |t|;
    assert r == s[..|r|] && t == s[..|t|];
  }

  /** A description without any line break is its own first line. */
  lemma FirstLineOfLine(s: string)
    requires NoLineBreak(s)
    ensures FirstLine(s) == s
  {
    FirstLineUnique(s, s);
  }

  /** ASCII lower-casing of one character. */
  function LowerChar(c: char): char {
    if 'A' <= c <= 'Z' then (c as int + 32) as char else c
  }

  /** ASCII lower-casing of a string, character by character. */
  function Lower(s: string): string {
    seq(|s|, i requires 0 <= i < |s| => LowerChar(s[i]))
  }

  const Unassigned: string := "unassigned"

  /** The test `description.lower() == "unassigned"`. */
  predicate IsUnassigned(line: string) {
    Lower(line) == Unassigned
  }

  /** Upper-case counterpart of a lower-case ASCII letter. */
  function UpperChar(c: char): char
    requires 'a' <= c <= 'z'
  {
    (c as int - 32) as char
  }

  /**
   * The placeholder test accepts exactly the ten-letter words that spell
   * "unassigned" with each letter in either case.
   */
  lemma UnassignedSpelling(line: string)
    ensures IsUnassigned(line) <==>
      |line| == |Unassigned| &&
      forall i :: 0 <= i < |line| ==> line[i] == Unassigned[i] || line[i] == UpperChar(Unassigned[i])
  {
    if |line| == |Unassigned| {
      if IsUnassigned(line) {
        forall i | 0 <= i < |line|
          ensures line[i] == Unassigned[i] || line[i] == UpperChar(Unassigned[i])
        {
          assert LowerChar(line[i]) == Unassigned[i];
        }
      }
      if forall i :: 0 <= i < |line| ==> line[i] == Unassigned[i] || line[i] == UpperChar(Unassigned[i]) {
        forall i | 0 <= i < |line| ensures Lower(line)[i] == Unassigned[i] {
          assert line[i] == Unassigned[i] || line[i] == UpperChar(Unassigned[i]);
        }
      }
    }
  }

  // ---------------------------------------------------------------------
  // Decimal digit strings

  predicate IsDigit(c: char) {
    '0' <= c <= '9'
  }

  /** A non-empty string of ASCII decimal digits (what `\d+` and `int()` accept here). */
  predicate IsDigits(s: string) {
    |s| > 0 && forall i :: 0 <= i < |s| ==> IsDigit(s[i])
  }

  /** The value of a string of decimal digits, most significant first. */
  function DigitsValue(s: string): nat
    requires forall i :: 0 <= i < |s| ==> IsDigit(s[i])
  {
    if s == [] then 0
    else
      assert IsDigit(s[|s| - 1]);
      DigitsValue(s[..|s| - 1]) * 10 + (s[|s| - 1] as int - '0' as int)
  }

  function DigitChar(d: nat): char
    requires d < 10
  {
    ('0' as int + d) as char
  }

  /** The decimal rendering of a natural number, without leading zeros. */
  function Decimal(n: nat): (r: string)
    ensures IsDigits(r)
    ensures DigitsValue(r) == n
    ensures |r| > 1 ==> r[0] != '0'
  {
    if n < 10 then [DigitChar(n)]
    else
      var r := Decimal(n / 10) + [DigitChar(n % 10)];
      assert r[..|r| - 1] == Decimal(n / 10);
      r
  }

  // ---------------------------------------------------------------------
  // The range pattern ^(\d+)-(\d+)$

  /** Python's `$` also matches just before a single newline that ends the string. */
  function StripFinalNewline(s: string): (r: string)
    ensures r == s || (s == r + "\n")
  {
    if |s| > 0 && s[|s| - 1] == '\n' then s[..|s| - 1] else s
  }

  /** The index of the first '-' in `s`, or `|s|` when there is none. */
  function FindDash(s: string): (k: nat)
    ensures k <= |s|
    ensures forall i :: 0 <= i < k ==> s[i] != '-'
    ensures k < |s| ==> s[k] == '-'
  {
    if s == [] || s[0] == '-' then 0 else 1 + FindDash(s[1..])
  }

  /**
   * `PORT_RANGE.match(spec)`: the two digit groups of a spec of the form
   * "<digits>-<digits>" (optionally followed by one newline), as numbers.
   */
  function MatchRange(spec: string): Option<(nat, nat)> {
    var t := StripFinalNewline(spec);
    var k := FindDash(t);
    if k < |t| && IsDigits(t[..k]) && IsDigits(t[k + 1..]) then
      Some((DigitsValue(t[..k]), DigitsValue(t[k + 1..])))
    else
      None
  }

  /**
   * The pattern matches exactly when the spec, less one final newline, is
   * digits, a dash and digits; the groups are the two digit strings.
   */
  lemma MatchRangeMeaning(spec: string)
    ensures var t := StripFinalNewline(spec);
      && (MatchRange(spec).Some? <==> exists k :: 0 <= k < |t| && IsRangeAt(t, k))
      && (forall k :: 0 <= k < |t| && IsRangeAt(t, k) ==>
            MatchRange(spec) == Some((DigitsValue(t[..k]), DigitsValue(t[k + 1..]))))
  {
    var t := StripFinalNewline(spec);
    var k := FindDash(t);
    if MatchRange(spec).Some? {
      assert IsRangeAt(t, k);
    }
    forall j | 0 <= j < |t| && IsRangeAt(t, j)
      ensures MatchRange(spec) == Some((DigitsValue(t[..j]), DigitsValue(t[j + 1..])))
    {
      RangeDashFirst(t, j);
    }
  }

  /** In "<digits>-<digits>" the dash of the range is the first dash. */
  lemma RangeDashFirst(t: string, j: nat)
    requires j < |t| && IsRangeAt(t, j)
    ensures FindDash(t) == j
  {
    forall i | 0 <= i < j ensures t[i] != '-' {
      assert t[i] == t[..j][i];
    }
  }

  /** `t` reads "<digits>-<digits>" with the dash at index `k`. */
  predicate IsRangeAt(t: string, k: nat)
    requires k < |t|
  {
    t[k] == '-' && IsDigits(t[..k]) && IsDigits(t[k + 1..])
  }
}
