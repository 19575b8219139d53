/**
 * Python's `int(s)` on a string, in base 10: whitespace at either end is
 * skipped, one optional sign may follow, and then come decimal digits in
 * groups that single underscores may separate (`int("1_000") == 1000`).
 * Any other string raises `ValueError`, which is `None` here.
 */
module PortInt {
  import opened Results
  import opened PortText

  /**
   * The whitespace `int()` skips at either end of a string: the ASCII
   * characters " \t\n\v\f\r", and the non-ASCII characters `str.isspace`
   * accepts (which `int()` first turns into a plain space). The ASCII
   * separators U+001C..U+001F pass `str.isspace` but are not skipped.
   */
  predicate IsSpace(c: char) {
    c == ' ' || ('\t' <= c <= '\r') ||
    c == '\U{0085}' || c == '\U{00A0}' || c == '\U{1680}' ||
    ('\U{2000}' <= c <= '\U{200A}') || c == '\U{2028}' || c == '\U{2029}' ||
    c == '\U{202F}' || c == '\U{205F}' || c == '\U{3000}'
  }

  predicate AllSpace(s: string) {
    forall i :: 0 <= i < |s| ==> IsSpace(s[i])
  }

  /** `s` without its leading whitespace. */
  function TrimStart(s: string): string
    decreases |s|
  {
    if s != [] && IsSpace(s[0]) then TrimStart(s[1..]) else s
  }

  /** `s` without its trailing whitespace. */
  function TrimEnd(s: string): string
    decreases |s|
  {
    if s != [] && IsSpace(s[|s| - 1]) then TrimEnd(s[..|s| - 1]) else s
  }

  /** What trimming the start leaves is a suffix of `s`. */
  lemma {:induction false} TrimStartSuffix(s: string)
    ensures var r := TrimStart(s);
      |r| <= |s| && r == s[|s| - |r|..]
    decreases |s|
  {
    if s != [] && IsSpace(s[0]) {
      TrimStartSuffix(s[1..]);
      var r := TrimStart(s[1..]);
      assert s[1..][|s| - 1 - |r|..] == s[|s| - |r|..];
    }
  }

  /** What trimming the start removes is spaces, and what it leaves does not start with one. */
  lemma {:induction false} TrimStartShape(s: string)
    ensures var r := TrimStart(s);
      && |r| <= |s| && r == s[|s| - |r|..]
      && AllSpace(s[..|s| - |r|])
      && (r != [] ==> !IsSpace(r[0]))
    decreases |s|
  {
    TrimStartSuffix(s);
    if s != [] && IsSpace(s[0]) {
      var r := TrimStart(s[1..]);
      TrimStartShape(s[1..]);
      var cut := s[..|s| - |r|];
      assert forall i :: 1 <= i < |cut| ==> cut[i] == s[1..][..|s| - 1 - |r|][i - 1];
    }
  }

  /** What trimming the end leaves: a prefix that does not end with a space, before nothing but spaces. */
  lemma {:induction false} TrimEndShape(s: string)
    ensures var r := TrimEnd(s);
      && r <= s
      && AllSpace(s[|r|..])
      && (r != [] ==> !IsSpace(r[|r| - 1]))
    decreases |s|
  {
    if s != [] && IsSpace(s[|s| - 1]) {
      var r := TrimEnd(s[..|s| - 1]);
      TrimEndShape(s[..|s| - 1]);
      assert forall i :: |r| <= i < |s| - 1 ==> s[i] == s[..|s| - 1][i];
    }
  }

  /** `s.strip()`. */
  function Strip(s: string): string {
    TrimEnd(TrimStart(s))
  }

  /** Decimal digits, where a single underscore may stand between two digits. */
  predicate IsDigitGroups(s: string) {
    && |s| > 0 && IsDigit(s[0]) && IsDigit(s[|s| - 1])
    && (forall i :: 0 <= i < |s| ==> IsDigit(s[i]) || s[i] == '_')
    && (forall i :: 0 <= i < |s| - 1 ==> s[i] == '_' ==> s[i + 1] != '_')
  }

  /** The digits of `s`, underscores removed. */
  function DropUnderscores(s: string): (r: string)
    requires forall i :: 0 <= i < |s| ==> IsDigit(s[i]) || s[i] == '_'
    ensures forall i :: 0 <= i < |r| ==> IsDigit(r[i])
    ensures |s| > 0 && IsDigit(s[0]) ==> |r| > 0 && r[0] == s[0]
    decreases |s|
  {
    if s == [] then []
    else
      assert forall i :: 0 <= i < |s| - 1 ==> s[1..][i] == s[i + 1];
      (if s[0] == '_' then [] else [s[0]]) + DropUnderscores(s[1..])
  }

  /** `int(s)`: the value of the (signed) digit groups `s` holds between its spaces. */
  function ParseInt(s: string): Option<int> {
    ReadSigned(Strip(s))
  }

  /** What `int()` reads once the spaces are stripped: an optional sign, then digit groups. */
  function ReadSigned(t: string): Option<int> {
    var signed := |t| > 0 && (t[0] == '+' || t[0] == '-');
    var body := if signed then t[1..] else t;
    if IsDigitGroups(body) then
      var v: int := DigitsValue(DropUnderscores(body));
      Some(if signed && t[0] == '-' then -v else v)
    else
      None
  }

  /** A digit string without underscores loses nothing. */
  lemma {:induction false} DropUnderscoresOfDigits(s: string)
    requires forall i :: 0 <= i < |s| ==> IsDigit(s[i])
    ensures DropUnderscores(s) == s
    decreases |s|
  {
    if s != [] {
      assert forall i :: 0 <= i < |s| - 1 ==> s[1..][i] == s[i + 1];
      DropUnderscoresOfDigits(s[1..]);
      assert s == [s[0]] + s[1..];
    }
  }

  /** A string of digits neither starts nor ends with a space. */
  lemma StripDigits(s: string)
    requires IsDigits(s)
    ensures Strip(s) == s
  {
    assert TrimStart(s) == s;
  }

  /** Digits alone form a single digit group. */
  lemma DigitsAreGroups(d: string)
    requires IsDigits(d)
    ensures IsDigitGroups(d)
  {
  }

  /** Unsigned digits without underscores are read as their decimal value. */
  lemma ReadDigits(s: string)
    requires IsDigits(s)
    ensures ReadSigned(s) == Some(DigitsValue(s))
  {
    DropUnderscoresOfDigits(s);
  }

  /** A plain string of digits is read as its decimal value. */
  lemma ParseIntDigits(s: string)
    requires IsDigits(s)
    ensures ParseInt(s) == Some(DigitsValue(s))
  {
    StripDigits(s);
    ReadDigits(s);
  }

  /** `str(n)`: the decimal rendering of an integer, with a minus sign when it is negative. */
  function Render(n: int): (r: string)
    ensures |r| > 0
  {
    if n < 0 then "-" + Decimal(-n) else Decimal(n)
  }

  /** A minus sign and digits are read as the negated value. */
  lemma ReadNegative(d: string)
    requires IsDigits(d)
    ensures ReadSigned("-" + d) == Some(-(DigitsValue(d) as int))
  {
    assert ("-" + d)[0] == '-' && ("-" + d)[1..] == d;
    DigitsAreGroups(d);
    DropUnderscoresOfDigits(d);
  }

  /** A minus sign and digits neither start nor end with a space. */
  lemma StripNegative(d: string)
    requires IsDigits(d)
    ensures Strip("-" + d) == "-" + d
  {
    var s := "-" + d;
    assert TrimStart(s) == s;
    assert s[|s| - 1] == d[|d| - 1];
  }

  /** Reading back a rendered integer gives that integer. */
  lemma ParseIntRender(n: int)
    ensures ParseInt(Render(n)) == Some(n)
  {
    if n < 0 {
      StripNegative(Decimal(-n));
      ReadNegative(Decimal(-n));
    } else {
      ParseIntDigits(Decimal(n));
    }
  }

  /** Leading spaces do not change what `s` strips to. */
  lemma {:induction false} TrimStartPadded(a: string, s: string)
    requires AllSpace(a)
    ensures TrimStart(a + s) == TrimStart(s)
    decreases |a|
  {
    if a != [] {
      assert (a + s)[0] == a[0];
      assert (a + s)[1..] == a[1..] + s;
      assert AllSpace(a[1..]) by {
        assert forall i :: 0 <= i < |a| - 1 ==> a[1..][i] == a[i + 1];
      }
      TrimStartPadded(a[1..], s);
    } else {
      assert a + s == s;
    }
  }

  /** Trailing spaces do not change what `s` strips to at its end. */
  lemma {:induction false} TrimEndPadded(s: string, b: string)
    requires AllSpace(b)
    ensures TrimEnd(s + b) == TrimEnd(s)
    decreases |b|
  {
    if b != [] {
      var front := b[..|b| - 1];
      assert (s + b)[|s + b| - 1] == b[|b| - 1] && IsSpace(b[|b| - 1]);
      assert (s + b)[..|s + b| - 1] == s + front;
      assert AllSpace(front) by {
        assert forall i :: 0 <= i < |front| ==> front[i] == b[i];
      }
      TrimEndPadded(s, front);
    } else {
      assert s + b == s;
    }
  }

  /** Trailing spaces survive the trimming of leading ones only where something else remains. */
  lemma {:induction false} StripPaddedEnd(s: string, b: string)
    requires AllSpace(b)
    ensures TrimEnd(TrimStart(s + b)) == TrimEnd(TrimStart(s))
    decreases |s|
  {
    if s == [] {
      assert s + b == b;
      TrimStartPadded(b, []);
      assert b + [] == b;
    } else if IsSpace(s[0]) {
      assert (s + b)[1..] == s[1..] + b;
      StripPaddedEnd(s[1..], b);
    } else {
      TrimEndPadded(s, b);
    }
  }

  /** Whitespace around a spec does not change what `int()` reads. */
  lemma ParseIntPadded(a: string, s: string, b: string)
    requires AllSpace(a) && AllSpace(b)
    ensures ParseInt(a + s + b) == ParseInt(s)
  {
    assert a + s + b == a + (s + b);
    TrimStartPadded(a, s + b);
    StripPaddedEnd(s, b);
  }

  /**
   * A character that is neither whitespace, a digit, an underscore nor a
   * sign makes `int()` raise, wherever it stands.
   */
  lemma ParseIntRejects(s: string, i: nat)
    requires i < |s|
    requires !IsSpace(s[i]) && !IsDigit(s[i]) && s[i] != '_' && s[i] != '+' && s[i] != '-'
    ensures ParseInt(s) == None
  {
    var u := TrimStart(s);
    var k := |s| - |u|;
    var t := TrimEnd(u);
    TrimStartShape(s);
    TrimEndShape(u);
    assert forall j :: 0 <= j < k ==> s[j] == s[..k][j];
    assert forall j :: k + |t| <= j < |s| ==> s[j] == u[|t|..][j - k - |t|];
    assert t[i - k] == s[i];
    ReadSignedRejects(t, i - k);
  }

  /** After the spaces are stripped, anything but a leading sign, digits and underscores is rejected. */
  lemma ReadSignedRejects(t: string, i: nat)
    requires i < |t|
    requires !IsDigit(t[i]) && t[i] != '_'
    requires i == 0 ==> t[i] != '+' && t[i] != '-'
    ensures ReadSigned(t) == None
  {
    var signed := |t| > 0 && (t[0] == '+' || t[0] == '-');
    var body := if signed then t[1..] else t;
    if signed {
      assert body[i - 1] == t[i];
    } else {
      assert body[i] == t[i];
    }
  }
}
