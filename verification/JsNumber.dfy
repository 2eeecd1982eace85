/** Numbers as ECMA-262 prints them, section 6.1.6.1.20. */
module JsNumber {
  import opened Prelude

  /** digits without zeros at either end; the value is 0.digits times 10^n. */
  datatype Number =
    | NaN
    | Infinity(negative: bool)
    | Zero(negative: bool)
    | Finite(negative: bool, digits: string, n: int)

  predicate IsDigit(c: char) {
    '0' <= c <= '9'
  }

  predicate AllDigits(s: string) {
    forall i :: 0 <= i < |s| ==> IsDigit(s[i])
  }

  ghost predicate Canonical(x: Number) {
    x.Finite? ==>
      x.digits != "" && AllDigits(x.digits) && x.digits[0] != '0' && x.digits[|x.digits| - 1] != '0'
  }

  function Zeros(k: nat): (s: string)
    ensures |s| == k && forall i :: 0 <= i < k ==> s[i] == '0'
  {
    if k == 0 then "" else "0" + Zeros(k - 1)
  }

  /** strconv.Itoa on a natural number. */
  function Itoa(k: nat): (s: string)
    ensures s != "" && AllDigits(s)
  {
    if k < 10 then ["0123456789"[k]] else Itoa(k / 10) + ["0123456789"[k % 10]]
  }

  function DigitsValue(s: string): nat
    requires AllDigits(s)
  {
    if s == "" then 0 else DigitsValue(s[..|s| - 1]) * 10 + (s[|s| - 1] as nat - '0' as nat)
  }

  lemma {:induction false} ItoaDenotes(k: nat)
    ensures DigitsValue(Itoa(k)) == k
  {
    if k >= 10 {
      assert Itoa(k)[..|Itoa(k)| - 1] == Itoa(k / 10);
      ItoaDenotes(k / 10);
    }
  }

  /** The four layouts, chosen by the position n of the decimal point among the k digits. */
  function Layout(digits: string, n: int): string
    requires digits != ""
  {
    var k := |digits|;
    if k <= n <= 21 then digits + Zeros(n - k)
    else if 0 < n <= 21 then digits[..n] + "." + digits[n..]
    else if -6 < n <= 0 then "0." + Zeros(-n) + digits
    else
      (if k > 1 then digits[..1] + "." + digits[1..] else digits) + "e" + SignedText(n - 1)
  }

  function SignedText(e: int): string {
    if e >= 0 then "+" + Itoa(e) else "-" + Itoa(-e)
  }

  function NumberString(x: Number): string
    requires Canonical(x)
  {
    match x
    case NaN => "NaN"
    case Infinity(negative) => if negative then "-Infinity" else "Infinity"
    case Zero(_) => "0"
    case Finite(negative, digits, n) => (if negative then "-" else "") + Layout(digits, n)
  }

  // ---------------------------------------------------------------------------
  // Reading a decimal literal: -?digits(.digits)?([eE][+-]?digits)?

  datatype Literal = Literal(negative: bool, whole: string, fraction: string, exponent: int)

  ghost predicate IsLiteral(l: Literal) {
    l.whole != "" && AllDigits(l.whole) && AllDigits(l.fraction)
  }

  function ScanExponent(s: string): Option<int> {
    var sign := s != "" && (s[0] == '+' || s[0] == '-');
    var digits := if sign then s[1..] else s;
    if digits == "" || !AllDigits(digits) then None
    else
      var magnitude: int := DigitsValue(digits);
      Some(if sign && s[0] == '-' then -magnitude else magnitude)
  }

  /** First e or E, or -1. */
  function ExponentMark(s: string): (r: int)
    ensures -1 <= r < |s|
  {
    if s == "" then -1
    else if s[0] == 'e' || s[0] == 'E' then 0
    else
      var k := ExponentMark(s[1..]);
      if k < 0 then -1 else k + 1
  }

  function ScanMantissa(negative: bool, s: string, exponent: int): (r: Option<Literal>)
    ensures r.Some? ==> IsLiteral(r.value)
  {
    var dot := IndexOf(s, '.');
    var whole := if dot < 0 then s else s[..dot];
    var fraction := if dot < 0 then "" else s[dot + 1..];
    if whole == "" || !AllDigits(whole) || !AllDigits(fraction) || (dot >= 0 && fraction == "") then None
    else Some(Literal(negative, whole, fraction, exponent))
  }

  function ScanUnsigned(negative: bool, s: string): (r: Option<Literal>)
    ensures r.Some? ==> IsLiteral(r.value)
  {
    var mark := ExponentMark(s);
    if mark < 0 then ScanMantissa(negative, s, 0)
    else match ScanExponent(s[mark + 1..])
      case None => None
      case Some(exponent) => ScanMantissa(negative, s[..mark], exponent)
  }

  function Scan(s: string): (r: Option<Literal>)
    ensures r.Some? ==> IsLiteral(r.value)
  {
    if s != "" && s[0] == '-' then ScanUnsigned(true, s[1..]) else ScanUnsigned(false, s)
  }

  function Normalise(negative: bool, digits: string, n: int): (x: Number)
    requires AllDigits(digits)
    ensures Canonical(x) && (x.Zero? || x.Finite?)
    decreases |digits|
  {
    if digits == "" then Zero(negative)
    else if digits[0] == '0' then Normalise(negative, digits[1..], n - 1)
    else if digits[|digits| - 1] == '0' then Normalise(negative, digits[..|digits| - 1], n)
    else Finite(negative, digits, n)
  }

  /** Number(text), on a decimal literal: the exact value, not rounded to a double. */
  function ToNumber(l: Literal): (x: Number)
    requires IsLiteral(l)
    ensures Canonical(x) && (x.Zero? || x.Finite?)
  {
    Normalise(l.negative, l.whole + l.fraction, |l.whole| + l.exponent)
  }

  // ---------------------------------------------------------------------------
  // Values.

  ghost function Pow10(e: int): (p: real)
    ensures p > 0.0
    decreases if e < 0 then -e else e
  {
    if e == 0 then 1.0
    else if e > 0 then 10.0 * Pow10(e - 1)
    else Pow10(e + 1) / 10.0
  }

  ghost function Scaled(negative: bool, digits: nat, e: int): real {
    if negative then -(digits as real * Pow10(e)) else digits as real * Pow10(e)
  }

  lemma ScaledByTen(negative: bool, digits: nat, e: int)
    ensures Scaled(negative, digits * 10, e) == Scaled(negative, digits, e + 1)
  {
    var d, p := digits as real, Pow10(e);
    assert Pow10(e + 1) == 10.0 * p;
    assert (d * 10.0) * p == d * (10.0 * p);
  }

  /** digits times 10^(n - k), k being the number of digits. */
  ghost function Value(x: Number): real
    requires Canonical(x) && (x.Zero? || x.Finite?)
  {
    if x.Zero? then 0.0
    else Scaled(x.negative, DigitsValue(x.digits), x.n - |x.digits|)
  }

  /** The mathematical value of a literal: all its digits, scaled by the exponent and the fraction's length. */
  ghost function LiteralValue(l: Literal): real
    requires IsLiteral(l)
  {
    Scaled(l.negative, DigitsValue(l.whole + l.fraction), l.exponent - |l.fraction|)
  }

  lemma {:induction false} LeadingZero(s: string)
    requires AllDigits(s) && s != "" && s[0] == '0'
    ensures DigitsValue(s) == DigitsValue(s[1..])
    decreases |s|
  {
    if |s| > 1 {
      LeadingZero(s[..|s| - 1]);
      assert s[1..][..|s| - 2] == s[..|s| - 1][1..];
    }
  }

  lemma {:induction false} NormaliseKeepsValue(negative: bool, digits: string, n: int)
    requires AllDigits(digits)
    ensures Value(Normalise(negative, digits, n)) == Scaled(negative, DigitsValue(digits), n - |digits|)
    decreases |digits|
  {
    if digits == "" {
    } else if digits[0] == '0' {
      LeadingZero(digits);
      NormaliseKeepsValue(negative, digits[1..], n - 1);
      assert n - 1 - |digits[1..]| == n - |digits|;
    } else if digits[|digits| - 1] == '0' {
      var shorter := digits[..|digits| - 1];
      NormaliseKeepsValue(negative, shorter, n);
      assert n - |shorter| == n - |digits| + 1;
      ScaledByTen(negative, DigitsValue(shorter), n - |digits|);
    }
  }

  /** Reading a literal gives the number it denotes. */
  lemma ToNumberIsExact(l: Literal)
    requires IsLiteral(l)
    ensures Value(ToNumber(l)) == LiteralValue(l)
  {
    NormaliseKeepsValue(l.negative, l.whole + l.fraction, |l.whole| + l.exponent);
    assert |l.whole| + l.exponent - |l.whole + l.fraction| == l.exponent - |l.fraction|;
  }

  /** An exponent is written exactly for numbers below 10^-6 and from 10^21 on. */
  lemma ExponentShown(digits: string, n: int)
    requires digits != "" && AllDigits(digits)
    ensures 'e' in Layout(digits, n) <==> !(-6 < n <= 21)
    ensures '.' in Layout(digits, n) <==> if -6 < n <= 21 then n < |digits| else |digits| > 1
  {
    forall s | AllDigits(s) ensures 'e' !in s && '.' !in s {
    }
    if !(-6 < n <= 21) {
      var rest := "e" + SignedText(n - 1);
      assert rest[0] == 'e' && 'e' in rest;
      assert '.' !in SignedText(n - 1);
    }
  }

  // ---------------------------------------------------------------------------
  // Printing followed by reading.

  lemma NormaliseLeadingZero(negative: bool, digits: string, n: int)
    requires AllDigits(digits) && digits != "" && digits[0] == '0'
    ensures Normalise(negative, digits, n) == Normalise(negative, digits[1..], n - 1)
  {
  }

  lemma NormaliseTrailingZero(negative: bool, digits: string, n: int)
    requires AllDigits(digits) && digits != "" && digits[0] != '0' && digits[|digits| - 1] == '0'
    ensures Normalise(negative, digits, n) == Normalise(negative, digits[..|digits| - 1], n)
  {
  }

  lemma {:induction false} NormaliseTrailing(negative: bool, digits: string, right: nat, n: int)
    requires Canonical(Finite(negative, digits, n))
    ensures AllDigits(digits + Zeros(right))
    ensures Normalise(negative, digits + Zeros(right), n) == Finite(negative, digits, n)
  {
    var all := digits + Zeros(right);
    if right > 0 {
      ZerosSplit(right);
      NormaliseTrailing(negative, digits, right - 1, n);
      hide Zeros, Normalise;
      assert all[..|all| - 1] == digits + Zeros(right - 1);
      NormaliseTrailingZero(negative, all, n);
    } else {
      assert all == digits;
    }
  }

  lemma {:induction false} NormaliseCanonical(negative: bool, left: nat, digits: string, right: nat, n: int)
    requires Canonical(Finite(negative, digits, n))
    ensures AllDigits(Zeros(left) + digits + Zeros(right))
    ensures Normalise(negative, Zeros(left) + digits + Zeros(right), n + left) == Finite(negative, digits, n)
    decreases left
  {
    hide Normalise;
    var all := Zeros(left) + digits + Zeros(right);
    if left > 0 {
      ZerosSplit(left);
      NormaliseCanonical(negative, left - 1, digits, right, n);
      hide Zeros;
      assert all[1..] == Zeros(left - 1) + digits + Zeros(right);
      NormaliseLeadingZero(negative, all, n + left);
    } else {
      NormaliseTrailing(negative, digits, right, n);
      assert all == digits + Zeros(right);
    }
  }

  lemma ZerosSplit(k: nat)
    requires k > 0
    ensures Zeros(k)[1..] == Zeros(k - 1) == Zeros(k)[..k - 1]
  {
  }

  lemma {:induction false} NoExponentMark(s: string)
    requires 'e' !in s && 'E' !in s
    ensures ExponentMark(s) == -1
  {
    if s != "" {
      NoExponentMark(s[1..]);
    }
  }

  lemma {:induction false} ExponentMarkAfter(s: string, t: string)
    requires 'e' !in s && 'E' !in s
    ensures ExponentMark(s + "e" + t) == |s|
  {
    if s != "" {
      assert (s + "e" + t)[1..] == s[1..] + "e" + t;
      ExponentMarkAfter(s[1..], t);
    }
  }

  lemma ScanWhole(negative: bool, s: string, exponent: int)
    requires s != "" && AllDigits(s)
    ensures ScanMantissa(negative, s, exponent) == Some(Literal(negative, s, "", exponent))
    ensures 'e' !in s && 'E' !in s
  {
  }

  lemma ScanDotted(negative: bool, whole: string, fraction: string, exponent: int)
    requires whole != "" && AllDigits(whole) && fraction != "" && AllDigits(fraction)
    ensures ScanMantissa(negative, whole + "." + fraction, exponent) ==
            Some(Literal(negative, whole, fraction, exponent))
    ensures 'e' !in whole + "." + fraction && 'E' !in whole + "." + fraction
  {
    var s := whole + "." + fraction;
    var dot := IndexOf(s, '.');
    assert s[|whole|] == '.';
    assert dot == |whole|;
    assert s[..dot] == whole && s[dot + 1..] == fraction;
  }

  lemma ScanPoint(negative: bool, whole: string, fraction: string)
    requires whole != "" && AllDigits(whole) && fraction != "" && AllDigits(fraction)
    ensures ScanUnsigned(negative, whole + "." + fraction) == Some(Literal(negative, whole, fraction, 0))
  {
    hide ScanMantissa, AllDigits;
    ScanDotted(negative, whole, fraction, 0);
    NoExponentMark(whole + "." + fraction);
  }

  lemma ScanSignedExponent(e: int)
    ensures ScanExponent(SignedText(e)) == Some(e)
  {
    ItoaDenotes(if e >= 0 then e else -e);
  }

  lemma ScanScientific(negative: bool, mantissa: string, e: int)
    requires 'e' !in mantissa && 'E' !in mantissa
    ensures ScanUnsigned(negative, mantissa + "e" + SignedText(e)) == ScanMantissa(negative, mantissa, e)
  {
    hide SignedText, ScanMantissa, ScanExponent;
    var s := mantissa + "e" + SignedText(e);
    ExponentMarkAfter(mantissa, SignedText(e));
    hide ExponentMark;
    assert s[|mantissa| + 1..] == SignedText(e) && s[..|mantissa|] == mantissa;
    ScanSignedExponent(e);
  }

  ghost predicate ReadsAs(negative: bool, text: string, digits: string, n: int) {
    var l := ScanUnsigned(negative, text);
    l.Some? && ToNumber(l.value) == Finite(negative, digits, n)
  }

  lemma ReadsLiteral(text: string, l: Literal, left: nat, digits: string, right: nat, n: int)
    requires Canonical(Finite(l.negative, digits, n))
    requires IsLiteral(l) && ScanUnsigned(l.negative, text) == Some(l)
    requires l.whole + l.fraction == Zeros(left) + digits + Zeros(right)
    requires |l.whole| + l.exponent == n + left
    ensures ReadsAs(l.negative, text, digits, n)
  {
    hide Zeros, ScanUnsigned, Normalise;
    NormaliseCanonical(l.negative, left, digits, right, n);
  }

  lemma IntegerLayoutReads(negative: bool, digits: string, n: int)
    requires Canonical(Finite(negative, digits, n)) && |digits| <= n
    ensures ReadsAs(negative, digits + Zeros(n - |digits|), digits, n)
  {
    hide Zeros, ScanMantissa, ReadsAs;
    var s := digits + Zeros(n - |digits|);
    ScanWhole(negative, s, 0);
    NoExponentMark(s);
    assert Zeros(0) + digits + Zeros(n - |digits|) == s + "";
    ReadsLiteral(s, Literal(negative, s, "", 0), 0, digits, n - |digits|, n);
  }

  lemma PointLayoutReads(negative: bool, digits: string, n: int)
    requires Canonical(Finite(negative, digits, n)) && 0 < n < |digits|
    ensures ReadsAs(negative, digits[..n] + "." + digits[n..], digits, n)
  {
    hide Zeros, ScanUnsigned, ReadsAs;
    var s := digits[..n] + "." + digits[n..];
    ScanPoint(negative, digits[..n], digits[n..]);
    assert Zeros(0) + digits + Zeros(0) == digits[..n] + digits[n..];
    ReadsLiteral(s, Literal(negative, digits[..n], digits[n..], 0), 0, digits, 0, n);
  }

  lemma SmallLayoutReads(negative: bool, digits: string, n: int)
    requires Canonical(Finite(negative, digits, n)) && n <= 0
    ensures ReadsAs(negative, "0." + Zeros(-n) + digits, digits, n)
  {
    hide Zeros, ScanMantissa, ScanUnsigned, ReadsAs;
    var fraction := Zeros(-n) + digits;
    var s := "0" + "." + fraction;
    assert ScanUnsigned(negative, s) == Some(Literal(negative, "0", fraction, 0)) by {
      ScanPoint(negative, "0", fraction);
    }
    assert "0." + Zeros(-n) + digits == s;
    assert Zeros(1 - n) + digits + Zeros(0) == "0" + fraction;
    ReadsLiteral(s, Literal(negative, "0", fraction, 0), 1 - n, digits, 0, n);
  }

  lemma ScientificLayoutReads(mantissa: string, l: Literal, digits: string, n: int)
    requires Canonical(Finite(l.negative, digits, n))
    requires 'e' !in mantissa && 'E' !in mantissa
    requires ScanMantissa(l.negative, mantissa, n - 1) == Some(l)
    requires IsLiteral(l) && l.whole + l.fraction == digits && |l.whole| + l.exponent == n
    ensures ReadsAs(l.negative, mantissa + "e" + SignedText(n - 1), digits, n)
  {
    assert Zeros(0) + digits + Zeros(0) == digits;
    hide Zeros, ScanMantissa, ScanUnsigned, SignedText, ReadsAs, DigitsValue, AllDigits;
    ScanScientific(l.negative, mantissa, n - 1);
    ReadsLiteral(mantissa + "e" + SignedText(n - 1), l, 0, digits, 0, n);
  }

  lemma OneDigitScientific(negative: bool, digits: string, n: int)
    requires Canonical(Finite(negative, digits, n)) && |digits| == 1
    ensures ReadsAs(negative, digits + "e" + SignedText(n - 1), digits, n)
  {
    ScanWhole(negative, digits, n - 1);
    assert digits + "" == digits;
    hide ScanMantissa, ReadsAs, SignedText;
    ScientificLayoutReads(digits, Literal(negative, digits, "", n - 1), digits, n);
  }

  lemma ManyDigitsScientific(negative: bool, digits: string, n: int)
    requires Canonical(Finite(negative, digits, n)) && |digits| > 1
    ensures ReadsAs(negative, digits[..1] + "." + digits[1..] + "e" + SignedText(n - 1), digits, n)
  {
    var head, tail := digits[..1], digits[1..];
    ScanDotted(negative, head, tail, n - 1);
    assert head + tail == digits;
    hide ScanMantissa, ReadsAs, SignedText;
    ScientificLayoutReads(head + "." + tail, Literal(negative, head, tail, n - 1), digits, n);
  }

  /** Each layout is read back as the digits and the exponent it was laid out from. */
  lemma LayoutReads(negative: bool, digits: string, n: int)
    requires Canonical(Finite(negative, digits, n))
    ensures ReadsAs(negative, Layout(digits, n), digits, n)
  {
    hide ReadsAs;
    var k := |digits|;
    if k <= n <= 21 {
      IntegerLayoutReads(negative, digits, n);
    } else if 0 < n <= 21 {
      PointLayoutReads(negative, digits, n);
    } else if -6 < n <= 0 {
      SmallLayoutReads(negative, digits, n);
    } else {
      hide SignedText;
      if k > 1 {
        ManyDigitsScientific(negative, digits, n);
      } else {
        OneDigitScientific(negative, digits, n);
      }
    }
  }

  lemma LayoutStartsWithDigit(digits: string, n: int)
    requires digits != "" && AllDigits(digits)
    ensures Layout(digits, n) != "" && IsDigit(Layout(digits, n)[0])
  {
  }

  /** Digits and exponent are recoverable from the printed text, in all four layouts; of the zeros,
      negative zero alone loses its sign. */
  lemma NumberStringReads(x: Number)
    requires Canonical(x) && (x.Zero? || x.Finite?)
    ensures Scan(NumberString(x)).Some?
    ensures ToNumber(Scan(NumberString(x)).value) == x <==> x != Zero(true)
  {
    if x.Finite? {
      LayoutReads(x.negative, x.digits, x.n);
      LayoutStartsWithDigit(x.digits, x.n);
      assert NumberString(x) == (if x.negative then "-" else "") + Layout(x.digits, x.n);
      if x.negative {
        assert NumberString(x)[1..] == Layout(x.digits, x.n);
      } else {
        assert NumberString(x) == Layout(x.digits, x.n);
      }
    } else {
      ScanWhole(false, "0", 0);
      NoExponentMark("0");
      assert "0" + "" == "0" && "0"[1..] == "";
    }
  }

  /** The printed text denotes exactly digits times 10^(n - k). */
  lemma NumberStringDenotes(x: Number)
    requires Canonical(x) && (x.Zero? || x.Finite?)
    ensures Scan(NumberString(x)).Some? && LiteralValue(Scan(NumberString(x)).value) == Value(x)
  {
    NumberStringReads(x);
    ToNumberIsExact(Scan(NumberString(x)).value);
    if x == Zero(true) {
      ScanWhole(false, "0", 0);
      NoExponentMark("0");
      assert "0" + "" == "0" && "0"[1..] == "";
    }
  }

  predicate IsNumberChar(c: char) {
    IsDigit(c) || c == '.' || c == 'e' || c == '+' || c == '-'
  }

  predicate NumberChars(s: string) {
    forall i :: 0 <= i < |s| ==> IsNumberChar(s[i])
  }

  lemma NumberCharsConcat(a: string, b: string)
    requires NumberChars(a) && NumberChars(b)
    ensures NumberChars(a + b)
  {
    hide IsNumberChar;
  }

  lemma LayoutChars(digits: string, n: int)
    requires digits != "" && AllDigits(digits)
    ensures Layout(digits, n) != "" && NumberChars(Layout(digits, n))
  {
    assert NumberChars(digits);
    var k := |digits|;
    if k <= n <= 21 {
      NumberCharsConcat(digits, Zeros(n - k));
    } else if 0 < n <= 21 {
      NumberCharsConcat(digits[..n], ".");
      NumberCharsConcat(digits[..n] + ".", digits[n..]);
    } else if -6 < n <= 0 {
      NumberCharsConcat("0.", Zeros(-n));
      NumberCharsConcat("0." + Zeros(-n), digits);
    } else {
      var mantissa := if k > 1 then digits[..1] + "." + digits[1..] else digits;
      NumberCharsConcat(digits[..1], ".");
      NumberCharsConcat(digits[..1] + ".", digits[1..]);
      NumberCharsConcat(mantissa, "e");
      assert NumberChars(SignedText(n - 1));
      hide NumberChars, SignedText;
      NumberCharsConcat(mantissa + "e", SignedText(n - 1));
    }
  }

  /** The characters a finite number is printed with. */
  lemma NumberStringChars(x: Number)
    requires Canonical(x) && (x.Zero? || x.Finite?)
    ensures NumberString(x) != "" && forall i :: 0 <= i < |NumberString(x)| ==> IsNumberChar(NumberString(x)[i])
  {
    if x.Finite? {
      LayoutChars(x.digits, x.n);
      hide Layout;
    }
  }
}
