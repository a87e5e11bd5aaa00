/** Normalisation of the requested output size (main.py, get_image_size): a percentage string
    ending in `%`, or the sentinel `100%` meaning "keep the original size". */
module ImageSize {
  import opened Wrappers
  import opened Text

  /** SAME_OUTPUT_SIZE: the size that means "no resize". */
  const SameOutputSize: string := "100%"

  /** The size with `%` appended when it does not already end in one. */
  function WithPercent(s: string): (r: string)
    requires s != []
    ensures |r| > 0 && r[|r| - 1] == '%'
  {
    if s[|s| - 1] != '%' then s + "%" else s
  }

  /** The numeric part of a size: the size without its trailing `%`, if it has one. */
  function NumericPart(s: string): string
  {
    if s != [] && s[|s| - 1] == '%' then s[..|s| - 1] else s
  }

  /** The sizes the tool hands on: text ending in `%` whose numeric part is an integer of at
      most 100. The sentinel is one of them. */
  predicate IsNormalized(r: string)
  {
    |r| > 0 && r[|r| - 1] == '%' &&
    var n := ParseInt(r[..|r| - 1]);
    n.Some? && n.value <= 100
  }

  /** get_image_size: an absent or empty size, a numeric part that does not parse as an
      integer, or an integer above 100 give the sentinel; otherwise the size, with `%`
      appended when it lacked one. */
  function GetImageSize(size: Option<string>): (r: string)
    ensures IsNormalized(r)
    ensures size == None || size == Some("") ==> r == SameOutputSize
    ensures r == SameOutputSize || (size.Some? && size.value != [] && r == WithPercent(size.value))
  {
    SentinelIsNormalized();
    if size.None? || size.value == [] then
      SameOutputSize
    else
      var s := WithPercent(size.value);
      match ParseInt(s[..|s| - 1])
      case None => SameOutputSize
      case Some(n) => if n > 100 then SameOutputSize else s
  }

  /** The sentinel is a normalised size. */
  lemma SentinelIsNormalized()
    ensures IsNormalized(SameOutputSize)
  {
    assert ParseInt(SameOutputSize[..3]) == Some(100) by {
      assert SameOutputSize[..3] == "100";
      assert DigitsValue("100"[..2]) == 10 by { assert "100"[..2][..1] == "1"; }
    }
  }

  /** The outcome is decided by the numeric part alone: an integer n <= 100 gives the numeric
      part followed by `%`, anything else gives the sentinel. */
  lemma GetImageSizeByNumericPart(s: string)
    requires s != []
    ensures var p := ParseInt(NumericPart(s));
            GetImageSize(Some(s)) == if p.Some? && p.value <= 100 then NumericPart(s) + "%"
                                     else SameOutputSize
  {
    var w := WithPercent(s);
    assert w[..|w| - 1] == NumericPart(s);
    assert w == NumericPart(s) + "%";
  }

  /** A size with and without its `%` normalises to the same thing. */
  lemma PercentSignOptional(p: string)
    requires p != [] && p[|p| - 1] != '%'
    ensures GetImageSize(Some(p)) == GetImageSize(Some(p + "%"))
  {
    GetImageSizeByNumericPart(p);
    GetImageSizeByNumericPart(p + "%");
    assert NumericPart(p + "%") == p;
  }

  /** The fixed points of get_image_size are exactly the normalised sizes. */
  lemma GetImageSizeFixedPoints(r: string)
    ensures GetImageSize(Some(r)) == r <==> IsNormalized(r)
  {
    if IsNormalized(r) {
      assert WithPercent(r) == r;
    }
  }

  /** Normalising a normalised size changes nothing. */
  lemma GetImageSizeIdempotent(size: Option<string>)
    ensures GetImageSize(Some(GetImageSize(size))) == GetImageSize(size)
  {
    GetImageSizeFixedPoints(GetImageSize(size));
  }

  /** str(n) and str(n) + "%" both give str(n) + "%" for 0 <= n <= 100, and the sentinel
      for n > 100. */
  lemma GetImageSizeOfNumber(n: nat)
    ensures var t := NatToString(n);
            GetImageSize(Some(t)) == GetImageSize(Some(t + "%")) ==
            if n <= 100 then t + "%" else SameOutputSize
  {
    var t := NatToString(n);
    ParseNatToString(n);
    GetImageSizeByNumericPart(t);
    PercentSignOptional(t);
  }

  /** A negative number passes through: "-n" gives "-n%", since only values above 100 are
      coerced to the sentinel. */
  lemma NegativeSizePassesThrough(n: nat)
    ensures GetImageSize(Some("-" + NatToString(n))) == "-" + NatToString(n) + "%"
  {
    ParseNatToString(n);
    GetImageSizeByNumericPart("-" + NatToString(n));
  }

  /** Text that is not a number falls back to the sentinel, with or without a `%`. */
  lemma NonNumericIsSentinel(s: string)
    requires s != []
    requires exists i :: 0 <= i < |NumericPart(s)| && !IsDigit(NumericPart(s)[i]) &&
                         (i > 0 || (NumericPart(s)[i] != '+' && NumericPart(s)[i] != '-'))
    ensures GetImageSize(Some(s)) == SameOutputSize
  {
    GetImageSizeByNumericPart(s);
  }

  /** Worked examples: "50" and "50%" give "50%"; "050" gives "050%"; "abc", "%",
      "150" give the sentinel. */
  lemma SizeExamples()
    ensures GetImageSize(Some("50")) == "50%"
    ensures GetImageSize(Some("50%")) == "50%"
    ensures GetImageSize(Some("050")) == "050%"
    ensures GetImageSize(Some("abc")) == SameOutputSize
    ensures GetImageSize(Some("%")) == SameOutputSize
    ensures GetImageSize(Some("150")) == SameOutputSize
  {
    FiftyPercent();
    LeadingZeroKept();
    OverHundredIsSentinel();
    NonNumericExamples();
  }

  lemma FiftyPercent()
    ensures GetImageSize(Some("50")) == "50%" && GetImageSize(Some("50%")) == "50%"
  {
    GetImageSizeOfNumber(50);
    assert NatToString(50) == "50" by { assert NatToString(5) == "5"; }
  }

  /** Leading zeros pass through: "050" is the integer 50, so it is kept as "050%". */
  lemma LeadingZeroKept()
    ensures GetImageSize(Some("050")) == "050%"
  {
    assert ParseInt("050") == Some(50) by {
      assert NatToString(50) == "50" by { assert NatToString(5) == "5"; }
      DigitsValueOfNatToString(50);
      ParseIntLeadingZero("50");
      assert "0" + "50" == "050";
    }
    assert NumericPart("050") == "050";
    GetImageSizeByNumericPart("050");
  }

  lemma OverHundredIsSentinel()
    ensures GetImageSize(Some("150")) == SameOutputSize
  {
    GetImageSizeOfNumber(150);
    assert NatToString(150) == "150" by {
      assert NatToString(1) == "1";
      assert NatToString(15) == "15";
    }
  }

  lemma NonNumericExamples()
    ensures GetImageSize(Some("abc")) == SameOutputSize && GetImageSize(Some("%")) == SameOutputSize
  {
    assert NumericPart("abc") == "abc" && !IsDigit("abc"[0]);
    NonNumericIsSentinel("abc");
    assert NumericPart("%") == "";
  }
}
