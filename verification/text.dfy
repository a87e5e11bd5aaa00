/** The string operations the conversion tool relies on: ASCII lower-casing, suffix tests,
    integer parsing and printing, and the extension after the last dot of a path. */
module Text {
  import opened Wrappers

  // ---------------------------------------------------------------------------
  // Lower-casing (ASCII only)
  // ---------------------------------------------------------------------------

  predicate IsUpper(c: char) { 'A' <= c <= 'Z' }

  /** Lower-cases one character; only the ASCII capitals change. */
  function LowerChar(c: char): (r: char)
    ensures !IsUpper(r)
    ensures !IsUpper(c) ==> r == c
    ensures IsUpper(c) ==> 'a' <= r <= 'z' && r as int - c as int == 'a' as int - 'A' as int
  {
    if IsUpper(c) then (c as int - 'A' as int + 'a' as int) as char else c
  }

  /** The lower-cased form of a string, character by character. */
  function Lower(s: string): (r: string)
    ensures |r| == |s|
    ensures forall i :: 0 <= i < |s| ==> r[i] == LowerChar(s[i])
    decreases |s|
  {
    if s == [] then [] else Lower(s[..|s| - 1]) + [LowerChar(s[|s| - 1])]
  }

  /** Lower-casing twice is lower-casing once. */
  lemma LowerIdempotent(s: string)
    ensures Lower(Lower(s)) == Lower(s)
  {
    assert forall i :: 0 <= i < |s| ==> Lower(Lower(s))[i] == Lower(s)[i];
  }

  /** A string with no capital letter is its own lower-cased form. */
  lemma LowerOfLowerCase(s: string)
    requires forall i :: 0 <= i < |s| ==> !IsUpper(s[i])
    ensures Lower(s) == s
  {
  }

  // ---------------------------------------------------------------------------
  // Suffixes
  // ---------------------------------------------------------------------------

  /** Python's `s.endswith(suffix)`. */
  predicate EndsWith(s: string, suffix: string)
  {
    |suffix| <= |s| && s[|s| - |suffix|..] == suffix
  }

  // ---------------------------------------------------------------------------
  // Integers as decimal text
  // ---------------------------------------------------------------------------

  predicate IsDigit(c: char) { '0' <= c <= '9' }

  predicate AllDigits(s: string)
  {
    forall i :: 0 <= i < |s| ==> IsDigit(s[i])
  }

  function DigitValue(c: char): (r: nat)
    requires IsDigit(c)
    ensures r < 10
  {
    c as int - '0' as int
  }

  function DigitChar(d: nat): (r: char)
    requires d < 10
    ensures IsDigit(r) && DigitValue(r) == d
  {
    (d + '0' as int) as char
  }

  /** The value of a string of decimal digits, most significant digit first. */
  function DigitsValue(s: string): nat
    requires AllDigits(s)
    decreases |s|
  {
    if s == [] then 0 else DigitsValue(s[..|s| - 1]) * 10 + DigitValue(s[|s| - 1])
  }

  /** The shape of an integer literal: it ends in a digit, every character after the first
      is a digit, and the first is a digit or a sign. */
  predicate IsIntLiteral(s: string)
  {
    |s| > 0 && IsDigit(s[|s| - 1]) &&
    (IsDigit(s[0]) || s[0] == '+' || s[0] == '-') &&
    forall i :: 0 < i < |s| ==> IsDigit(s[i])
  }

  /** The integers Python's `int()` reads from a string, restricted to ASCII: an optional
      `+` or `-` followed by at least one decimal digit. Anything else is a parse error. */
  function ParseInt(s: string): (r: Option<int>)
    ensures r.Some? <==> IsIntLiteral(s)
    ensures r.Some? && s[0] != '-' ==> r.value >= 0
    ensures r.Some? && s[0] == '-' ==> r.value <= 0
  {
    if |s| > 0 && (s[0] == '+' || s[0] == '-') then
      var digits := s[1..];
      if digits != [] && AllDigits(digits) then
        Some(if s[0] == '-' then -(DigitsValue(digits) as int) else DigitsValue(digits))
      else
        None
    else if s != [] && AllDigits(s) then
      Some(DigitsValue(s))
    else
      None
  }

  /** Python's `str(n)` for a natural number: decimal digits without leading zeros. */
  function NatToString(n: nat): (r: string)
    ensures |r| > 0 && AllDigits(r)
    ensures (r[0] == '0') == (n == 0)
    ensures |r| > 1 ==> r[0] != '0'
    decreases n
  {
    if n < 10 then [DigitChar(n)] else NatToString(n / 10) + [DigitChar(n % 10)]
  }

  /** Reading back a printed natural number gives the number. */
  lemma {:induction false} DigitsValueOfNatToString(n: nat)
    ensures DigitsValue(NatToString(n)) == n
    decreases n
  {
    if n >= 10 {
      var s := NatToString(n);
      assert s[..|s| - 1] == NatToString(n / 10);
      DigitsValueOfNatToString(n / 10);
    }
  }

  /** Python's `int(str(n)) == n` for natural numbers, with and without a sign in front. */
  lemma ParseNatToString(n: nat)
    ensures ParseInt(NatToString(n)) == Some(n)
    ensures ParseInt("+" + NatToString(n)) == Some(n)
    ensures ParseInt("-" + NatToString(n)) == Some(-(n as int))
  {
    DigitsValueOfNatToString(n);
    assert ("+" + NatToString(n))[1..] == NatToString(n);
    assert ("-" + NatToString(n))[1..] == NatToString(n);
  }

  /** A leading zero does not change the value of a digit string. */
  lemma {:induction false} DigitsValueLeadingZero(d: string)
    requires AllDigits(d)
    ensures AllDigits("0" + d) && DigitsValue("0" + d) == DigitsValue(d)
    decreases |d|
  {
    assert forall i :: 0 <= i < |"0" + d| ==> IsDigit(("0" + d)[i]);
    if d != [] {
      var init := d[..|d| - 1];
      assert ("0" + d)[..|"0" + d| - 1] == "0" + init;
      DigitsValueLeadingZero(init);
    }
  }

  /** Leading zeros are accepted and ignored: `int("0" + s) == int(s)` for a digit string s,
      also after a sign. */
  lemma ParseIntLeadingZero(d: string)
    requires d != [] && AllDigits(d)
    ensures ParseInt("0" + d) == ParseInt(d) == Some(DigitsValue(d) as int)
    ensures ParseInt("+" + ("0" + d)) == ParseInt("+" + d)
    ensures ParseInt("-" + ("0" + d)) == ParseInt("-" + d)
  {
    var z := "0" + d;
    DigitsValueLeadingZero(d);
    assert IsDigit(d[0]) && z[0] == '0';
    assert ParseInt(z) == Some(DigitsValue(d) as int);
    assert ParseInt(d) == Some(DigitsValue(d) as int);
    SignedParse('+', z);
    SignedParse('+', d);
    SignedParse('-', z);
    SignedParse('-', d);
  }

  lemma SignedParse(sign: char, d: string)
    requires sign == '+' || sign == '-'
    requires d != [] && AllDigits(d)
    ensures ParseInt([sign] + d)
            == Some(if sign == '-' then -(DigitsValue(d) as int) else DigitsValue(d) as int)
  {
    assert ([sign] + d)[1..] == d;
  }

  // ---------------------------------------------------------------------------
  // Extensions
  // ---------------------------------------------------------------------------

  /** The text after the last `.` of a string, or None when it has no `.`. */
  function LastDotExtension(s: string): (r: Option<string>)
    ensures r.None? ==> '.' !in s
    ensures r.Some? ==> '.' !in r.value && |r.value| < |s|
    ensures r.Some? ==> s[|s| - |r.value| - 1..] == "." + r.value
    decreases |s|
  {
    if s == [] then None
    else if s[|s| - 1] == '.' then Some([])
    else match LastDotExtension(s[..|s| - 1])
      case None => None
      case Some(e) => Some(e + [s[|s| - 1]])
  }

  /** A string that ends in `.` followed by dot-free text has that text as its extension. */
  lemma {:induction false} LastDotExtensionOfSuffix(s: string, e: string)
    requires '.' !in e
    requires EndsWith(s, "." + e)
    ensures LastDotExtension(s) == Some(e)
    decreases |e|
  {
    if e != [] {
      var init := s[..|s| - 1];
      assert init[|init| - |e[..|e| - 1]| - 1..] == "." + e[..|e| - 1];
      LastDotExtensionOfSuffix(init, e[..|e| - 1]);
      assert e[..|e| - 1] + [s[|s| - 1]] == e;
    }
  }

  /** For a dot-free extension, "ends in `.e`" and "the extension after the last dot is e"
      say the same thing. */
  lemma EndsWithDotIffExtension(s: string, e: string)
    requires '.' !in e
    ensures EndsWith(s, "." + e) <==> LastDotExtension(s) == Some(e)
  {
    if EndsWith(s, "." + e) {
      LastDotExtensionOfSuffix(s, e);
    }
  }
}
