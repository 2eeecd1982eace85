/** Which literals the condition validator accepts, apart from how it scans them. */
module Literals {
  import opened Prelude
  import opened JsNumber
  import opened JsText
  import opened Condition

  // ---------------------------------------------------------------------------
  // Timestamps.

  /** s has the given form: d stands for a digit, T for either case of that letter, and the rest for itself. */
  ghost predicate HasForm(s: string, form: string) {
    |s| == |form| && forall i :: 0 <= i < |s| ==> FitsAt(s[i], form[i])
  }

  ghost predicate FitsAt(c: char, f: char) {
    if f == 'd' then IsDigit(c) else if f == 'T' then c == 'T' || c == 't' else c == f
  }

  ghost predicate IsFraction(s: string) {
    s == "" || (|s| > 1 && s[0] == '.' && AllDigits(s[1..]))
  }

  ghost predicate IsOffset(s: string) {
    s == "Z" || s == "z" || HasForm(s, "+dd:dd") || HasForm(s, "-dd:dd")
  }

  ghost predicate IsTimestamp(date: string, fraction: string, offset: string) {
    HasForm(date, "dddd-dd-ddTdd:dd:dd") && IsFraction(fraction) && IsOffset(offset)
  }

  lemma DateTimeForm(s: string)
    requires |s| == 19
    ensures IsDateTime(s) <==> HasForm(s, "dddd-dd-ddTdd:dd:dd")
  {
    var form := "dddd-dd-ddTdd:dd:dd";
    if HasForm(s, form) {
      assert FitsAt(s[0], form[0]) && FitsAt(s[1], form[1]) && FitsAt(s[2], form[2]) && FitsAt(s[3], form[3]);
      assert FitsAt(s[4], form[4]) && FitsAt(s[5], form[5]) && FitsAt(s[6], form[6]) && FitsAt(s[7], form[7]);
      assert FitsAt(s[8], form[8]) && FitsAt(s[9], form[9]) && FitsAt(s[10], form[10]) && FitsAt(s[11], form[11]);
      assert FitsAt(s[12], form[12]) && FitsAt(s[13], form[13]) && FitsAt(s[14], form[14]) && FitsAt(s[15], form[15]);
      assert FitsAt(s[16], form[16]) && FitsAt(s[17], form[17]) && FitsAt(s[18], form[18]);
    }
  }

  lemma ZoneIsOffset(s: string)
    ensures IsZone(s) <==> IsOffset(s)
  {
    if |s| == 6 {
      forall sign: char ensures HasForm(s, [sign] + "dd:dd") <==>
        (FitsAt(s[0], sign) && IsDigit(s[1]) && IsDigit(s[2]) && s[3] == ':' && IsDigit(s[4]) && IsDigit(s[5])) {
        var form := [sign] + "dd:dd";
        if HasForm(s, form) {
          assert FitsAt(s[0], form[0]) && FitsAt(s[1], form[1]) && FitsAt(s[2], form[2]);
          assert FitsAt(s[3], form[3]) && FitsAt(s[4], form[4]) && FitsAt(s[5], form[5]);
        }
      }
      assert ['+'] + "dd:dd" == "+dd:dd" && ['-'] + "dd:dd" == "-dd:dd";
    } else if |s| == 1 {
      assert s == [s[0]];
    }
  }

  lemma {:induction false} SkipsDigits(digits: string, rest: string)
    requires AllDigits(digits) && (rest != "" ==> !IsDigit(rest[0]))
    ensures SkipDigits(digits + rest) == rest
  {
    if digits == "" {
      assert digits + rest == rest;
    } else {
      assert (digits + rest)[1..] == digits[1..] + rest;
      SkipsDigits(digits[1..], rest);
    }
  }

  lemma OffsetStart(s: string)
    requires IsOffset(s)
    ensures s != "" && !IsDigit(s[0]) && s[0] != '.'
  {
    assert HasForm(s, "+dd:dd") ==> FitsAt(s[0], "+dd:dd"[0]);
    assert HasForm(s, "-dd:dd") ==> FitsAt(s[0], "-dd:dd"[0]);
  }

  ghost predicate FractionThenOffset(s: string, fraction: string, offset: string) {
    s == fraction + offset && IsFraction(fraction) && IsOffset(offset)
  }

  lemma PointAndDigits(digits: string)
    requires digits != "" && AllDigits(digits)
    ensures IsFraction("." + digits)
  {
    assert ("." + digits)[1..] == digits;
  }

  lemma FractionTaken(s: string) returns (fraction: string, offset: string)
    requires IsFractionAndZone(s) && !IsZone(s)
    ensures FractionThenOffset(s, fraction, offset)
  {
    var body := s[1..];
    offset := SkipDigits(body);
    var digits := body[..|body| - |offset|];
    assert s == "." + body && IsDigit(body[0]) && body == digits + offset;
    fraction := "." + digits;
    ZoneIsOffset(offset);
    hide IsZone, IsOffset, IsFractionAndZone, IsFraction, IsDigit, AllDigits;
    OffsetStart(offset);
    assert digits == "" ==> body == offset;
    PointAndDigits(digits);
    ConcatAssociates(".", digits, offset);
  }

  lemma FractionRead(s: string, fraction: string, offset: string)
    requires FractionThenOffset(s, fraction, offset)
    ensures IsFractionAndZone(s)
  {
    hide IsZone, IsOffset, SkipDigits;
    ZoneIsOffset(offset);
    if fraction == "" {
      assert s == offset;
    } else {
      OffsetStart(offset);
      assert s[1..] == fraction[1..] + offset;
      SkipsDigits(fraction[1..], offset);
      assert s[1] == fraction[1..][0];
    }
  }

  lemma FractionAndOffset(s: string)
    ensures IsFractionAndZone(s) <==> exists fraction, offset :: FractionThenOffset(s, fraction, offset)
  {
    ZoneIsOffset(s);
    assert IsOffset(s) ==> FractionThenOffset(s, "", s) by {
      assert s == "" + s;
    }
    hide *;
    if IsFractionAndZone(s) && !IsZone(s) {
      var fraction, offset := FractionTaken(s);
    }
    if fraction, offset :| FractionThenOffset(s, fraction, offset) {
      FractionRead(s, fraction, offset);
    }
  }

  /** A timestamp is a date and a time of day, perhaps a fraction, and an offset; nothing else is accepted. */
  lemma Rfc3339Exactly(s: string)
    ensures IsRfc3339(s) <==> exists date, fraction, offset ::
              s == date + fraction + offset && IsTimestamp(date, fraction, offset)
  {
    hide IsDateTime, IsFractionAndZone, HasForm, IsFraction, IsOffset;
    if IsRfc3339(s) {
      DateTimeForm(s[..19]);
      FractionAndOffset(s[19..]);
      var fraction, offset :| FractionThenOffset(s[19..], fraction, offset);
      assert s == s[..19] + fraction + offset;
    }
    if date, fraction, offset :| s == date + fraction + offset && IsTimestamp(date, fraction, offset) {
      FormLength(date);
      OffsetStart(offset);
      assert s[..19] == date && s[19..] == fraction + offset;
      DateTimeForm(s[..19]);
      FractionRead(s[19..], fraction, offset);
    }
  }

  lemma FormLength(date: string)
    requires HasForm(date, "dddd-dd-ddTdd:dd:dd")
    ensures |date| == 19
  {
  }

  // ---------------------------------------------------------------------------
  // Address ranges.

  ghost predicate IsNumber(s: string, most: nat) {
    s != "" && AllDigits(s) && DigitsValue(s) <= most
  }

  /** Four numbers of at most three digits, none above 255. */
  ghost predicate IsFourOctets(addr: string) {
    exists a, b, c, d ::
      addr == a + "." + b + "." + c + "." + d && IsByte(a) && IsByte(b) && IsByte(c) && IsByte(d)
  }

  ghost predicate IsByte(s: string) {
    |s| <= 3 && IsNumber(s, 255)
  }

  ghost predicate IsRange(addr: string, prefix: string) {
    if ':' in addr then IsNumber(prefix, 128) && forall c :: c in addr ==> IsIpv6Char(c)
    else IsFourOctets(addr) && IsNumber(prefix, 32)
  }

  lemma {:induction false} LastIndexIs(s: string, c: char, i: nat)
    requires i < |s| && s[i] == c && c !in s[i + 1..]
    ensures LastIndexOf(s, c) == i
  {
    if i < |s| - 1 {
      assert s[|s| - 1] == s[i + 1..][|s| - i - 2];
      assert s[..|s| - 1][i + 1..] == s[i + 1..][..|s| - i - 2];
      LastIndexIs(s[..|s| - 1], c, i);
    }
  }

  lemma FirstIndexIs(s: string, c: char, i: nat)
    requires i < |s| && s[i] == c && c !in s[..i]
    ensures IndexOf(s, c) == i
  {
    assert s[i] in s;
  }

  lemma SplitFirst(a: string, rest: string)
    requires '.' !in a
    ensures SplitOn(a + "." + rest, '.') == [a] + SplitOn(rest, '.')
  {
    var s := a + "." + rest;
    assert s[..|a|] == a && s[|a| + 1..] == rest && s[|a|] == '.';
    FirstIndexIs(s, '.', |a|);
    SplitStep(s, '.');
  }

  lemma SplitNone(a: string)
    requires '.' !in a
    ensures SplitOn(a, '.') == [a]
  {
    SplitStep(a, '.');
  }

  lemma DigitsHaveNoDot(s: string)
    requires AllDigits(s)
    ensures '.' !in s && '/' !in s
  {
  }

  lemma FourPieces(addr: string, r: seq<string>)
    requires r == SplitOn(addr, '.') && |r| == 4
    ensures addr == r[0] + "." + r[1] + "." + r[2] + "." + r[3]
  {
    PiecesJoin(addr);
    var tail := r[1..];
    assert Rejoined(r) == r[0] + "." + Rejoined(tail);
    assert Rejoined(tail) == r[1] + "." + Rejoined(tail[1..]);
    assert Rejoined(tail[1..]) == r[2] + "." + Rejoined(tail[1..][1..]);
    assert Rejoined(tail[1..][1..]) == r[3];
    hide Rejoined;
    JoinAssociates(r[0], r[1], r[2], r[3]);
  }

  lemma JoinAssociates(a: string, b: string, c: string, d: string)
    ensures a + "." + (b + "." + (c + "." + d)) == a + "." + b + "." + c + "." + d
  {
  }

  ghost function Rejoined(pieces: seq<string>): string
    requires pieces != []
  {
    if |pieces| == 1 then pieces[0] else pieces[0] + "." + Rejoined(pieces[1..])
  }

  lemma {:induction false} PiecesJoin(s: string)
    ensures Rejoined(SplitOn(s, '.')) == s
    decreases |s|
  {
    SplitStep(s, '.');
    var at := IndexOf(s, '.');
    if at >= 0 {
      var rest := SplitOn(s[at + 1..], '.');
      PiecesJoin(s[at + 1..]);
      assert ([s[..at]] + rest)[1..] == rest;
      hide SplitOn;
    }
  }

  lemma OctetIsByte(s: string)
    ensures IsOctet(s) <==> IsByte(s)
  {
    hide DigitsValue, AllDigits;
  }

  lemma ByteHasNoDot(s: string)
    requires IsByte(s)
    ensures '.' !in s
  {
    hide DigitsValue;
  }

  lemma FourBytesSplit(a: string, b: string, c: string, d: string)
    requires IsByte(a) && IsByte(b) && IsByte(c) && IsByte(d)
    ensures SplitOn(a + "." + b + "." + c + "." + d, '.') == [a, b, c, d]
  {
    hide *;
    ByteHasNoDot(a);
    ByteHasNoDot(b);
    ByteHasNoDot(c);
    ByteHasNoDot(d);
    JoinAssociates(a, b, c, d);
    SplitFirst(a, b + "." + (c + "." + d));
    SplitFirst(b, c + "." + d);
    SplitFirst(c, d);
    SplitNone(d);
  }

  ghost predicate SplitsIntoOctets(r: seq<string>) {
    |r| == 4 && forall i :: 0 <= i < 4 ==> IsOctet(r[i])
  }

  lemma SplitIntoOctets(a: string, b: string, c: string, d: string)
    ensures SplitsIntoOctets([a, b, c, d]) <==> IsByte(a) && IsByte(b) && IsByte(c) && IsByte(d)
  {
    var r := [a, b, c, d];
    OctetIsByte(a);
    OctetIsByte(b);
    OctetIsByte(c);
    OctetIsByte(d);
    hide IsOctet, IsByte;
    if SplitsIntoOctets(r) {
      assert IsOctet(r[0]) && IsOctet(r[1]) && IsOctet(r[2]) && IsOctet(r[3]);
    }
  }

  lemma FourOctets(addr: string, a: string, b: string, c: string, d: string)
    requires addr == a + "." + b + "." + c + "." + d && IsByte(a) && IsByte(b) && IsByte(c) && IsByte(d)
    ensures IsFourOctets(addr)
  {
    hide IsByte;
  }

  lemma OctetsThen(addr: string)
    requires SplitsIntoOctets(SplitOn(addr, '.'))
    ensures IsFourOctets(addr)
  {
    var r := SplitOn(addr, '.');
    assert |r| == 4;
    hide *;
    FourPieces(addr, r);
    assert r == [r[0], r[1], r[2], r[3]];
    SplitIntoOctets(r[0], r[1], r[2], r[3]);
    FourOctets(addr, r[0], r[1], r[2], r[3]);
  }

  lemma OctetsExactly(addr: string)
    ensures SplitsIntoOctets(SplitOn(addr, '.')) <==> IsFourOctets(addr)
  {
    hide IsByte, SplitOn, SplitsIntoOctets;
    if SplitsIntoOctets(SplitOn(addr, '.')) {
      OctetsThen(addr);
    }
    if IsFourOctets(addr) {
      var a, b, c, d :| addr == a + "." + b + "." + c + "." + d && IsByte(a) && IsByte(b) && IsByte(c) && IsByte(d);
      FourBytesSplit(a, b, c, d);
      SplitIntoOctets(a, b, c, d);
    }
  }

  lemma CidrOf(addr: string, prefix: string)
    requires AllDigits(prefix)
    ensures var s := addr + "/" + prefix; var slash := LastIndexOf(s, '/');
            slash == |addr| && s[..slash] == addr && s[slash + 1..] == prefix
  {
    var s := addr + "/" + prefix;
    DigitsHaveNoDot(prefix);
    assert s[|addr| + 1..] == prefix;
    LastIndexIs(s, '/', |addr|);
  }

  /** An address range is four octets and a prefix up to 32, or hexadecimal digits, colons and points with at least
      one colon, and a prefix up to 128; nothing else is accepted. */
  lemma CidrExactly(s: string)
    ensures IsCidr(s) <==> exists addr, prefix :: s == addr + "/" + prefix && IsRange(addr, prefix)
  {
    hide DigitsValue, IsOctet, SplitOn, IsIpv6Char, IsFourOctets;
    if IsCidr(s) {
      var slash := LastIndexOf(s, '/');
      var (addr, prefix) := (s[..slash], s[slash + 1..]);
      OctetsExactly(addr);
      assert s == addr + "/" + prefix;
      assert IsRange(addr, prefix);
    }
    if addr, prefix :| s == addr + "/" + prefix && IsRange(addr, prefix) {
      CidrOf(addr, prefix);
      OctetsExactly(addr);
    }
  }

  // ---------------------------------------------------------------------------
  // Integers.

  /** The number is an integer that a double holds without doubt. */
  ghost predicate IsWhole(x: Number, v: int)
    requires Canonical(x) && (x.Zero? || x.Finite?)
  {
    JsNumber.Value(x) == v as real && -9007199254740991 <= v <= 9007199254740991
  }

  /** Ten to the power k. */
  function Power(k: nat): (p: nat)
    ensures p > 0
  {
    if k == 0 then 1 else 10 * Power(k - 1)
  }

  lemma {:induction false} PowerIs(k: nat)
    ensures Power(k) as real == Pow10(k)
  {
    if k > 0 {
      PowerIs(k - 1);
    }
  }

  lemma TenCancels(p: real, q: real)
    ensures (q / 10.0) * (10.0 * p) == q * p
  {
    var t := q / 10.0;
    assert q == t * 10.0;
    assert t * (10.0 * p) == (t * 10.0) * p;
  }

  lemma {:induction false} PowersCancel(k: int)
    requires k >= 0
    ensures Pow10(-k) * Pow10(k) == 1.0
  {
    if k > 0 {
      PowersCancel(k - 1);
      TenCancels(Pow10(k - 1), Pow10(1 - k));
    }
  }

  /** d with k zeros behind it. */
  ghost function Shifted(d: nat, k: nat): nat {
    d * Power(k)
  }

  lemma ShiftedNext(d: nat, k: nat)
    ensures Shifted(d, 0) == d
    ensures k > 0 ==> Shifted(d, k) == Shifted(d, k - 1) * 10
  {
    if k > 0 {
      assert d * Power(k - 1) * 10 == d * (10 * Power(k - 1));
    }
  }

  lemma {:induction false} WithZeros(digits: string, k: nat)
    requires AllDigits(digits)
    ensures AllDigits(digits + Zeros(k)) && DigitsValue(digits + Zeros(k)) == Shifted(DigitsValue(digits), k)
  {
    var all := digits + Zeros(k);
    ShiftedNext(DigitsValue(digits), k);
    hide Shifted;
    if k == 0 {
      assert all == digits;
    } else {
      ZerosSplit(k);
      assert all[..|all| - 1] == digits + Zeros(k - 1);
      WithZeros(digits, k - 1);
    }
  }

  /** A number of n digits that starts with none of zero is at least 10^(n - 1). */
  lemma {:induction false} LeadingDigit(s: string)
    requires s != "" && AllDigits(s) && s[0] != '0'
    ensures DigitsValue(s) >= Power(|s| - 1)
  {
    if |s| > 1 {
      LeadingDigit(s[..|s| - 1]);
    }
  }

  lemma {:induction false} PowerGrows(a: nat, b: nat)
    requires a <= b
    ensures Power(a) <= Power(b)
  {
    if a < b {
      PowerGrows(a, b - 1);
    }
  }

  lemma SixteenDigits()
    ensures Power(16) == 10000000000000000
  {
    assert Power(4) == 10000;
    assert Power(8) == 10000 * Power(4);
    assert Power(12) == 10000 * Power(8);
    assert Power(16) == 10000 * Power(12);
  }

  lemma ProductAsReal(a: int, b: int)
    ensures (a * b) as real == a as real * b as real
  {
  }

  lemma ValueIs(x: Number)
    requires Canonical(x) && x.Finite?
    ensures AllDigits(x.digits)
    ensures var v := Scaled(false, DigitsValue(x.digits), x.n - |x.digits|);
            JsNumber.Value(x) == if x.negative then -v else v
  {
    hide DigitsValue, Pow10;
  }

  lemma WholeProduct(d: nat, k: nat)
    ensures Scaled(false, d, k) == Shifted(d, k) as real
  {
    assert Shifted(d, k) == d * Power(k) && Scaled(false, d, k) == d as real * Pow10(k);
    hide *;
    PowerIs(k);
    ProductAsReal(d, Power(k));
  }

  lemma PowerNext(k: nat)
    requires k > 0
    ensures Power(k) == 10 * Power(k - 1)
  {
  }

  /** With no digit behind the point, the value is that of the digits and the zeros that follow. */
  lemma WholeValue(x: Number)
    requires Canonical(x) && x.Finite? && |x.digits| <= x.n
    ensures AllDigits(x.digits + Zeros(x.n - |x.digits|))
    ensures var v: int := DigitsValue(x.digits + Zeros(x.n - |x.digits|));
            JsNumber.Value(x) == if x.negative then -(v as real) else v as real
  {
    var k := x.n - |x.digits|;
    hide *;
    ValueIs(x);
    WithZeros(x.digits, k);
    WholeProduct(DigitsValue(x.digits), k);
  }

  lemma LastDigitCounts(x: Number)
    requires Canonical(x) && x.Finite?
    ensures DigitsValue(x.digits) % 10 != 0
  {
  }

  lemma Unscale(u: real, d: real, p: real, q: real)
    requires u == d * q && q * p == 1.0
    ensures u * p == d
  {
    assert u * p == d * (q * p);
  }

  /** With a digit behind the point, the value is no integer, for the last digit is not zero. */
  lemma FractionValue(x: Number, v: int)
    requires Canonical(x) && x.Finite? && x.n < |x.digits|
    ensures JsNumber.Value(x) != v as real
  {
    hide *;
    ValueIs(x);
    LastDigitCounts(x);
    NoWholeQuotient(DigitsValue(x.digits), |x.digits| - x.n, if x.negative then -v else v);
  }

  lemma NoWholeQuotient(d: nat, k: int, v: int)
    requires k > 0 && d % 10 != 0
    ensures Scaled(false, d, -k) != v as real
  {
    assert Scaled(false, d, -k) == d as real * Pow10(-k);
    hide *;
    if Scaled(false, d, -k) == v as real {
      PowersCancel(k);
      Unscale(v as real, d as real, Pow10(k), Pow10(-k));
      PowerIs(k);
      ProductAsReal(v, Power(k));
      PowerNext(k);
      NotTenfold(v, Power(k - 1), d);
    }
  }

  lemma NotTenfold(u: int, p: int, d: int)
    requires d % 10 != 0
    ensures u * (10 * p) != d
  {
    assert u * (10 * p) == 10 * (u * p);
  }

  /** A number passes as an integer exactly when it is one, of magnitude below 2^53. */
  lemma SafeIntegerExactly(x: Number)
    requires Canonical(x) && (x.Zero? || x.Finite?)
    ensures IsSafeInteger(x) <==> exists v :: IsWhole(x, v)
  {
    if x.Zero? {
      assert IsWhole(x, 0);
    } else if |x.digits| <= x.n {
      WholeValue(x);
      var all := x.digits + Zeros(x.n - |x.digits|);
      var v := DigitsValue(all);
      LeadingDigit(all);
      if v <= MAX_SAFE_INTEGER {
        assert IsWhole(x, if x.negative then -v else v);
        SixteenDigits();
        if x.n > 16 {
          PowerGrows(16, x.n - 1);
        }
      }
      hide DigitsValue, JsNumber.Value, Power;
    } else {
      forall v ensures !IsWhole(x, v) {
        FractionValue(x, v);
      }
    }
  }
}
