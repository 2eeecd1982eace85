/** Exactly which texts the condition parser accepts, and as what, whoever wrote them. */
module AcceptedText {
  import opened Prelude
  import opened JsNumber
  import opened JsText
  import opened JsonStrings
  import opened Condition
  import opened ConditionCel
  import opened CelTokens
  import opened CelReading
  import opened ParsedReading

  // ---------------------------------------------------------------------------
  // The texts.

  ghost predicate IsSymbol(op: CompareOp, t: string) {
    match op
    case Eq => t == "=="
    case Neq => t == "!="
    case Lt => t == "<"
    case Lte => t == "<="
    case Gt => t == ">"
    case Gte => t == ">="
  }

  /** The first declaration of the name gives it the type. */
  ghost predicate FirstDeclares(params: seq<Param>, name: string, typ: ParamType) {
    exists i ::
      && 0 <= i < |params| && params[i] == Param(name, typ)
      && forall k :: 0 <= k < i ==> params[k].name != name
  }

  /** head"c"), with something but no quotation mark between the quotation marks. */
  ghost predicate IsCall(t: string, head: string, c: string) {
    t == head + "\"" + c + "\")" && c != "" && '"' !in c
  }

  /** Nothing, or e or E, perhaps a sign, and digits. */
  ghost predicate IsExponent(t: string, e: int) {
    (t == "" && e == 0) || exists mark, sign, digits :: IsExponentOf(t, e, mark, sign, digits)
  }

  ghost predicate IsExponentOf(t: string, e: int, mark: string, sign: string, digits: string) {
    && t == mark + sign + digits && (mark == "e" || mark == "E") && (sign == "" || sign == "+" || sign == "-")
    && digits != "" && AllDigits(digits)
    && e == if sign == "-" then -(DigitsValue(digits) as int) else DigitsValue(digits)
  }

  ghost predicate IsFraction(point: string, fraction: string) {
    if fraction == "" then point == "" else point == "." + fraction && AllDigits(fraction)
  }

  /** Perhaps a minus, digits, perhaps a point and digits, perhaps an exponent. */
  ghost predicate IsNumeral(t: string, l: Literal) {
    exists point, exponent ::
      && t == SignOf(l) + l.whole + point + exponent
      && l.whole != "" && AllDigits(l.whole) && IsFraction(point, l.fraction) && IsExponent(exponent, l.exponent)
  }

  function SignOf(l: Literal): string {
    if l.negative then "-" else ""
  }

  ghost predicate IsLiteralOf(t: string, typ: ParamType, v: Value) {
    match typ
    case Str => v.StringValue? && IsStringLiteral(t, v.text) && forall c :: c in t ==> !IsLineTerminator(c)
    case Bool => (t == "true" && v == BoolValue(true)) || (t == "false" && v == BoolValue(false))
    case Int => exists l ::
      IsLiteral(l) && l.fraction == "" && l.exponent == 0 && t == SignOf(l) + l.whole && v == NumberValue(ToNumber(l))
    case Double => exists l :: IsLiteral(l) && IsNumeral(t, l) && v == NumberValue(ToNumber(l))
    case _ => false
  }

  /** What a parameter of the type may be compared with. */
  ghost predicate IsOperand(params: seq<Param>, typ: ParamType, param: string, op: CompareOp, t: string, leaf: Leaf) {
    match typ
    case Timestamp =>
      && op != Eq && op != Neq
      && (|| (leaf == TimeLeaf(param, op, TimeParam(t)) && IsWord(t) && FirstDeclares(params, t, Timestamp))
          || exists c :: leaf == TimeLeaf(param, op, TimeLiteral(c)) && IsCall(t, "timestamp(", c))
    case IpAddress => false
    case _ => exists v :: leaf == ValueLeaf(param, op, v) && IsLiteralOf(t, typ, v)
  }

  /** An operator and an operand, white space around both, none of it a line break once the operand has begun. */
  ghost predicate IsComparison(params: seq<Param>, param: string, t: string, leaf: Leaf) {
    exists left, symbol, mid, operand, right ::
      Spaced(t, left, symbol, mid, operand, right) && Compares(params, param, symbol, operand, leaf)
  }

  ghost predicate Compares(params: seq<Param>, param: string, symbol: string, operand: string, leaf: Leaf) {
    exists op, typ ::
      && IsSymbol(op, symbol) && FirstDeclares(params, param, typ)
      && IsOperand(params, typ, param, op, operand, leaf)
  }

  ghost predicate Spaced(t: string, left: string, symbol: string, mid: string, operand: string, right: string) {
    && t == left + (symbol + (mid + (operand + right)))
    && Spaces(left) && Spaces(mid) && Spaces(right) && !HasLineTerminator(operand + right)
  }

  ghost predicate IsLeafText(t: string, params: seq<Param>, leaf: Leaf) {
    exists param, rest ::
      && t == param + rest && IsWord(param)
      && (|| IsComparison(params, param, rest, leaf)
          || (leaf.IpLeaf? && leaf.param == param && IsCall(rest, ".in_cidr(", leaf.cidr)
              && FirstDeclares(params, param, IpAddress)))
  }

  // ---------------------------------------------------------------------------
  // Names and calls.

  lemma {:induction false} ParamTypeExactly(params: seq<Param>, name: string)
    ensures forall t :: ParamTypeOf(params, name) == Some(t) <==> FirstDeclares(params, name, t)
  {
    if params != [] {
      var rest := params[1..];
      ParamTypeExactly(rest, name);
      forall t ensures ParamTypeOf(params, name) == Some(t) <==> FirstDeclares(params, name, t) {
        if params[0].name == name {
          assert FirstDeclares(params, name, params[0].typ);
        } else if FirstDeclares(rest, name, t) {
          var i :| 0 <= i < |rest| && rest[i] == Param(name, t) && forall k :: 0 <= k < i ==> rest[k].name != name;
          assert params[i + 1] == Param(name, t) && forall k :: 0 < k < i + 1 ==> params[k] == rest[k - 1];
        } else if FirstDeclares(params, name, t) {
          FirstDeclaredLater(params, name, t);
        }
      }
    }
  }

  lemma FirstDeclaredLater(params: seq<Param>, name: string, t: ParamType)
    requires params != [] && params[0].name != name && FirstDeclares(params, name, t)
    ensures FirstDeclares(params[1..], name, t)
  {
    var i :| 0 <= i < |params| && params[i] == Param(name, t) && forall k :: 0 <= k < i ==> params[k].name != name;
    assert params[1..][i - 1] == Param(name, t) && forall k :: 0 <= k < i - 1 ==> params[1..][k] == params[k + 1];
  }

  lemma EnclosedExactly(t: string, head: string, c: string)
    ensures Enclosed(t, head) == Some(c) <==> IsCall(t, head, c)
  {
    assert head + "\"" + c + "\")" == head + ("\"" + c + "\"") + ")" == head + ("\"" + (c + "\")"));
    if Enclosed(t, head) == Some(c) {
      assert c != "";
      var d := EnclosedText(t, head);
    }
    if IsCall(t, head, c) {
      EnclosedReads(head, c);
    }
  }

  // ---------------------------------------------------------------------------
  // Numerals.

  lemma MantissaTaken(s: string, l: Literal) returns (point: string)
    requires ScanMantissa(l.negative, s, l.exponent) == Some(l)
    ensures s == l.whole + point && IsFraction(point, l.fraction)
  {
    hide AllDigits;
    var dot := IndexOf(s, '.');
    if dot < 0 {
      point := "";
      assert s == l.whole + "";
    } else {
      point := "." + l.fraction;
      assert s == s[..dot] + "." + s[dot + 1..];
      ConcatAssociates(l.whole, ".", l.fraction);
    }
  }

  lemma MantissaReads(l: Literal, point: string)
    requires l.whole != "" && AllDigits(l.whole) && IsFraction(point, l.fraction)
    ensures ScanMantissa(l.negative, l.whole + point, l.exponent) == Some(l)
    ensures 'e' !in l.whole + point && 'E' !in l.whole + point
  {
    hide ScanMantissa, AllDigits;
    if l.fraction == "" {
      assert l.whole + point == l.whole;
      ScanWhole(l.negative, l.whole, l.exponent);
    } else {
      ConcatAssociates(l.whole, ".", l.fraction);
      ScanDotted(l.negative, l.whole, l.fraction, l.exponent);
    }
  }

  lemma SignTaken(s: string)
    requires s != ""
    ensures s[0] == '+' ==> s == "+" + s[1..]
    ensures s[0] == '-' ==> s == "-" + s[1..]
  {
  }

  lemma ExponentTaken(t: string, e: int)
    requires t != "" && (t[0] == 'e' || t[0] == 'E') && ScanExponent(t[1..]) == Some(e)
    ensures IsExponent(t, e)
  {
    var s := t[1..];
    var mark := [t[0]];
    hide AllDigits, DigitsValue, IsExponent;
    assert t == mark + s;
    SignTaken(s);
    var sign := if s[0] == '+' then "+" else if s[0] == '-' then "-" else "";
    var digits := if sign == "" then s else s[1..];
    assert sign + digits == s;
    ConcatAssociates(mark, sign, digits);
    assert IsExponentOf(t, e, mark, sign, digits);
    ExponentIs(t, e, mark, sign, digits);
  }

  lemma ExponentIs(t: string, e: int, mark: string, sign: string, digits: string)
    requires IsExponentOf(t, e, mark, sign, digits)
    ensures IsExponent(t, e)
  {
  }

  lemma SignedDigits(sign: string, digits: string)
    requires (sign == "" || sign == "+" || sign == "-") && digits != "" && AllDigits(digits)
    ensures ScanExponent(sign + digits) ==
            Some(if sign == "-" then -(DigitsValue(digits) as int) else DigitsValue(digits))
  {
    var s := sign + digits;
    assert IsDigit(digits[0]);
    hide AllDigits, DigitsValue;
    if sign == "" {
      assert s == digits;
    } else {
      assert s[1..] == digits && s[0] == sign[0];
    }
  }

  lemma ExponentReads(t: string, e: int)
    requires t != "" && IsExponent(t, e)
    ensures (t[0] == 'e' || t[0] == 'E') && ScanExponent(t[1..]) == Some(e)
  {
    var mark, sign, digits :| IsExponentOf(t, e, mark, sign, digits);
    hide IsExponent, DigitsValue, ScanExponent, AllDigits;
    ConcatAssociates(mark, sign, digits);
    assert t[1..] == sign + digits;
    SignedDigits(sign, digits);
  }

  lemma {:induction false} MarkAt(s: string, i: nat)
    requires i < |s| && (s[i] == 'e' || s[i] == 'E') && 'e' !in s[..i] && 'E' !in s[..i]
    ensures ExponentMark(s) == i
  {
    if i > 0 {
      assert s[0] in s[..i] && s[1..][..i - 1] == s[..i][1..];
      MarkAt(s[1..], i - 1);
    }
  }

  lemma {:induction false} MarkIsMark(s: string)
    ensures var i := ExponentMark(s); i >= 0 ==> s[i] == 'e' || s[i] == 'E'
  {
    if s != "" {
      MarkIsMark(s[1..]);
    }
  }

  ghost predicate IsUnsigned(s: string, l: Literal) {
    exists point, exponent :: IsUnsignedOf(s, l, point, exponent)
  }

  ghost predicate IsUnsignedOf(s: string, l: Literal, point: string, exponent: string) {
    && s == l.whole + point + exponent && l.whole != "" && AllDigits(l.whole)
    && IsFraction(point, l.fraction) && IsExponent(exponent, l.exponent)
  }

  lemma NoExponent()
    ensures IsExponent("", 0)
  {
  }

  lemma MantissaKeeps(negative: bool, s: string, e: int, l: Literal)
    requires ScanMantissa(negative, s, e) == Some(l)
    ensures l.negative == negative && l.exponent == e
  {
    hide AllDigits;
  }

  lemma UnsignedUnfolds(negative: bool, s: string, l: Literal)
    requires ScanUnsigned(negative, s) == Some(l)
    ensures var mark := ExponentMark(s);
            && (mark < 0 ==> ScanMantissa(negative, s, l.exponent) == Some(l) && l.exponent == 0)
            && (mark >= 0 ==> ScanExponent(s[mark + 1..]) == Some(l.exponent))
            && (mark >= 0 ==> ScanMantissa(negative, s[..mark], l.exponent) == Some(l))
  {
    var mark := ExponentMark(s);
    hide ScanMantissa, ScanExponent, ExponentMark;
    if mark < 0 {
      MantissaKeeps(negative, s, 0, l);
    } else {
      MantissaKeeps(negative, s[..mark], ScanExponent(s[mark + 1..]).value, l);
    }
  }

  lemma UnsignedIs(s: string, l: Literal, point: string, exponent: string)
    requires s == l.whole + point + exponent && l.whole != "" && AllDigits(l.whole)
    requires IsFraction(point, l.fraction) && IsExponent(exponent, l.exponent)
    ensures IsUnsigned(s, l)
  {
    hide AllDigits, IsFraction, IsExponent;
    assert IsUnsignedOf(s, l, point, exponent);
  }

  lemma MantissaWhole(negative: bool, s: string, e: int, l: Literal)
    requires ScanMantissa(negative, s, e) == Some(l)
    ensures l.whole != "" && AllDigits(l.whole)
  {
    hide AllDigits;
  }

  lemma UnsignedScans(s: string, l: Literal)
    requires ScanUnsigned(l.negative, s) == Some(l)
    ensures IsUnsigned(s, l)
  {
    hide *;
    var mark := ExponentMark(s);
    UnsignedUnfolds(l.negative, s, l);
    if mark < 0 {
      var point := MantissaTaken(s, l);
      MantissaWhole(l.negative, s, l.exponent, l);
      NoExponent();
      assert l.whole + point + "" == s;
      UnsignedIs(s, l, point, "");
    } else {
      var (front, exponent) := (s[..mark], s[mark..]);
      var point := MantissaTaken(front, l);
      MantissaWhole(l.negative, front, l.exponent, l);
      MarkIsMark(s);
      assert exponent[0] == s[mark] && exponent[1..] == s[mark + 1..];
      ExponentTaken(exponent, l.exponent);
      assert s == front + exponent;
      UnsignedIs(s, l, point, exponent);
    }
  }

  lemma ScansPlain(negative: bool, s: string, l: Literal)
    requires 'e' !in s && 'E' !in s && ScanMantissa(negative, s, 0) == Some(l)
    ensures ScanUnsigned(negative, s) == Some(l)
  {
    hide ScanMantissa, ExponentMark;
    NoExponentMark(s);
  }

  lemma ScansMarked(negative: bool, front: string, exponent: string, e: int, l: Literal)
    requires 'e' !in front && 'E' !in front && exponent != "" && (exponent[0] == 'e' || exponent[0] == 'E')
    requires ScanExponent(exponent[1..]) == Some(e) && ScanMantissa(negative, front, e) == Some(l)
    ensures ScanUnsigned(negative, front + exponent) == Some(l)
  {
    var (s, i) := (front + exponent, |front|);
    assert s[..i] == front && s[i] == exponent[0] && s[i + 1..] == exponent[1..];
    hide ScanMantissa, ScanExponent, ExponentMark;
    MarkAt(s, i);
  }

  lemma ScansUnsigned(s: string, l: Literal)
    requires IsUnsigned(s, l)
    ensures ScanUnsigned(l.negative, s) == Some(l)
  {
    var point, exponent :| IsUnsignedOf(s, l, point, exponent);
    assert exponent == "" ==> l.exponent == 0 && s == l.whole + point;
    MantissaReads(l, point);
    assert IsExponent(exponent, l.exponent) && s == l.whole + point + exponent;
    hide *;
    if exponent == "" {
      ScansPlain(l.negative, s, l);
    } else {
      ExponentReads(exponent, l.exponent);
      ScansMarked(l.negative, l.whole + point, exponent, l.exponent, l);
    }
  }

  lemma SignedIs(t: string, l: Literal)
    ensures IsNumeral(t, l) <==> SignOf(l) <= t && IsUnsigned(t[|SignOf(l)|..], l)
  {
    var sign := SignOf(l);
    hide IsExponent, AllDigits, IsFraction, SignOf;
    if IsNumeral(t, l) {
      var point, exponent :| t == sign + l.whole + point + exponent && l.whole != "" && AllDigits(l.whole)
                             && IsFraction(point, l.fraction) && IsExponent(exponent, l.exponent);
      assert t == sign + (l.whole + point + exponent);
      assert IsUnsignedOf(t[|sign|..], l, point, exponent);
    }
    if sign <= t && IsUnsigned(t[|sign|..], l) {
      var point, exponent :| IsUnsignedOf(t[|sign|..], l, point, exponent);
      assert t == sign + t[|sign|..];
      assert t == sign + l.whole + point + exponent;
    }
  }

  lemma UnsignedStart(s: string, l: Literal)
    requires IsUnsigned(s, l)
    ensures s != "" && IsDigit(s[0])
  {
    var point, exponent :| IsUnsignedOf(s, l, point, exponent);
    hide IsExponent, IsFraction, IsUnsigned;
    assert s[0] == l.whole[0];
  }

  lemma NegativeKept(negative: bool, s: string, l: Literal)
    requires ScanUnsigned(negative, s) == Some(l)
    ensures l.negative == negative
  {
    hide AllDigits, ScanExponent;
  }

  /** A text is read as a number exactly when it is a numeral. */
  lemma ScanExactly(t: string, l: Literal)
    ensures Scan(t) == Some(l) <==> IsNumeral(t, l)
  {
    SignedIs(t, l);
    assert t[0..] == t;
    hide ScanUnsigned, IsUnsigned, IsNumeral;
    if Scan(t) == Some(l) {
      if t != "" && t[0] == '-' {
        NegativeKept(true, t[1..], l);
        UnsignedScans(t[1..], l);
      } else {
        NegativeKept(false, t, l);
        UnsignedScans(t, l);
      }
    }
    if IsNumeral(t, l) {
      UnsignedStart(t[|SignOf(l)|..], l);
      ScansUnsigned(t[|SignOf(l)|..], l);
    }
  }

  // ---------------------------------------------------------------------------
  // Literals and operands.

  lemma StringLiteralExactly(t: string, v: Value)
    ensures ParseCelLiteral(t, Str) == Some(v) <==> IsLiteralOf(t, Str, v)
  {
    hide Unquote, IsStringLiteral, IsLineTerminator;
    if v.StringValue? {
      UnquoteExactly(t, v.text);
      if IsStringLiteral(t, v.text) {
        Quoted(t, v.text);
      }
    }
  }

  lemma Quoted(t: string, v: string)
    requires IsStringLiteral(t, v)
    ensures |t| >= 2 && t[0] == '"' && t[|t| - 1] == '"'
  {
    hide Spells;
  }

  lemma TailDigit(t: string, front: string, tail: string)
    requires IsIntegerText(t) && t == front + tail && front != "" && tail != ""
    ensures IsDigit(tail[0])
  {
    var digits := if t[0] == '-' then t[1..] else t;
    var i := |front| - (|t| - |digits|);
    assert digits[i] == tail[0];
  }

  lemma TailStart(l: Literal, point: string, exponent: string)
    requires IsFraction(point, l.fraction) && IsExponent(exponent, l.exponent) && point + exponent != ""
    ensures !IsDigit((point + exponent)[0])
  {
    if point == "" {
      assert point + exponent == exponent;
      ExponentReads(exponent, l.exponent);
    }
    hide IsExponent, AllDigits;
  }

  lemma DigitsOnly(t: string, l: Literal)
    requires IsIntegerText(t) && IsNumeral(t, l)
    ensures l.fraction == "" && l.exponent == 0 && t == SignOf(l) + l.whole
  {
    hide IsIntegerText, AllDigits, SignOf, DigitsValue;
    var point, exponent :| t == SignOf(l) + l.whole + point + exponent && l.whole != "" && AllDigits(l.whole)
                           && IsFraction(point, l.fraction) && IsExponent(exponent, l.exponent);
    var (front, tail) := (SignOf(l) + l.whole, point + exponent);
    assert t == front + tail;
    if tail != "" {
      TailDigit(t, front, tail);
      TailStart(l, point, exponent);
      assert false;
    }
    assert point == "" && exponent == "" && t == front;
  }

  lemma WholeNumeral(t: string, l: Literal)
    requires IsLiteral(l) && l.fraction == "" && l.exponent == 0 && t == SignOf(l) + l.whole
    ensures IsIntegerText(t) && IsNumeral(t, l)
  {
    assert l.negative ==> t[1..] == l.whole;
    assert !l.negative ==> t == l.whole && IsDigit(t[0]);
    assert t == SignOf(l) + l.whole + "" + "";
    NoExponent();
    hide IsExponent, AllDigits;
    assert IsFraction("", l.fraction);
  }

  lemma NumberLiteralExactly(t: string, typ: ParamType, v: Value)
    requires typ == Int || typ == Double
    ensures ParseCelLiteral(t, typ) == Some(v) <==> IsLiteralOf(t, typ, v)
  {
    hide Scan, IsNumeral, IsIntegerText, AllDigits, ToNumber;
    if ParseCelLiteral(t, typ) == Some(v) {
      var l := Scan(t).value;
      ScanExactly(t, l);
      if typ == Int {
        DigitsOnly(t, l);
      }
    }
    if IsLiteralOf(t, typ, v) {
      if typ == Int {
        var l :| IsLiteral(l) && l.fraction == "" && l.exponent == 0 && t == SignOf(l) + l.whole
                 && v == NumberValue(ToNumber(l));
        WholeNumeral(t, l);
        ScanExactly(t, l);
      } else {
        var l :| IsLiteral(l) && IsNumeral(t, l) && v == NumberValue(ToNumber(l));
        ScanExactly(t, l);
      }
    }
  }

  lemma LiteralExactly(t: string, typ: ParamType, v: Value)
    ensures ParseCelLiteral(t, typ) == Some(v) <==> IsLiteralOf(t, typ, v)
  {
    if typ == Str {
      StringLiteralExactly(t, v);
    } else if typ == Int || typ == Double {
      NumberLiteralExactly(t, typ, v);
    }
  }

  lemma OperandExactly(params: seq<Param>, typ: ParamType, param: string, op: CompareOp, t: string, leaf: Leaf)
    requires FirstDeclares(params, param, typ)
    ensures ParseRhs(param, op, t, params) == Some(leaf) <==> IsOperand(params, typ, param, op, t, leaf)
  {
    ParamTypeExactly(params, param);
    ParamTypeExactly(params, t);
    assert forall v :: !IsLiteralOf(t, IpAddress, v);
    hide FirstDeclares, ParamTypeOf, ParseCelLiteral, IsLiteralOf, Enclosed, IsCall;
    forall v ensures ParseCelLiteral(t, typ) == Some(v) <==> IsLiteralOf(t, typ, v) {
      LiteralExactly(t, typ, v);
    }
    forall c ensures Enclosed(t, TIMESTAMP) == Some(c) <==> IsCall(t, "timestamp(", c) {
      EnclosedExactly(t, TIMESTAMP, c);
    }
    if IsWord(t) {
      forall c ensures !IsCall(t, "timestamp(", c) {
        WordIsNoCall(t, c);
      }
    }
  }

  lemma WordIsNoCall(t: string, c: string)
    requires IsWord(t)
    ensures !IsCall(t, "timestamp(", c)
  {
    assert |t| > 9 ==> IsWordChar(t[9]);
  }

  // ---------------------------------------------------------------------------
  // Comparisons.

  /** Neither white space nor = stands at the start of an operand, and no white space at its end. */
  ghost predicate Solid(t: string) {
    Trimmed(t) && t[0] != '='
  }

  lemma WordIsSolid(t: string)
    requires IsWord(t)
    ensures Solid(t)
  {
    assert IsWordChar(t[0]) && IsWordChar(t[|t| - 1]);
  }

  lemma CallIsSolid(t: string, c: string)
    requires IsCall(t, "timestamp(", c)
    ensures Solid(t)
  {
    assert t[0] == 't' && t[|t| - 1] == ')';
  }

  lemma NumberTextSolid(t: string)
    requires Scan(t).Some?
    ensures Solid(t)
  {
    var l := Scan(t).value;
    ScanExactly(t, l);
    hide Scan, Solid;
    var point, exponent :| t == SignOf(l) + l.whole + point + exponent && l.whole != "" && AllDigits(l.whole)
                           && IsFraction(point, l.fraction) && IsExponent(exponent, l.exponent);
    NumeralEnds(t, l, point, exponent);
  }

  lemma ExponentEnds(t: string, e: int)
    requires IsExponent(t, e) && t != ""
    ensures IsDigit(t[|t| - 1])
  {
    var mark, sign, digits :| IsExponentOf(t, e, mark, sign, digits);
    hide DigitsValue, IsExponent;
    assert t[|t| - 1] == digits[|digits| - 1];
  }

  lemma NumeralEnds(t: string, l: Literal, point: string, exponent: string)
    requires t == SignOf(l) + l.whole + point + exponent && l.whole != "" && AllDigits(l.whole)
    requires IsFraction(point, l.fraction) && IsExponent(exponent, l.exponent)
    ensures Solid(t)
  {
    assert t[0] == '-' || IsDigit(t[0]);
    assert IsDigit(t[|t| - 1]) by {
      hide IsExponent;
      if exponent != "" {
        ExponentEnds(exponent, l.exponent);
        assert t[|t| - 1] == exponent[|exponent| - 1];
      } else if point != "" {
        assert t[|t| - 1] == point[|point| - 1] == l.fraction[|l.fraction| - 1];
      } else {
        assert t[|t| - 1] == l.whole[|l.whole| - 1];
      }
    }
  }

  lemma LiteralIsSolid(t: string, typ: ParamType, v: Value)
    requires ParseCelLiteral(t, typ) == Some(v)
    ensures Solid(t)
  {
    hide Scan, Unquote, IsIntegerText, ToNumber;
    if typ == Int || typ == Double {
      NumberTextSolid(t);
    }
  }

  lemma OperandIsSolid(param: string, op: CompareOp, t: string, params: seq<Param>)
    requires ParseRhs(param, op, t, params).Some?
    ensures Solid(t)
  {
    hide ParseCelLiteral, Enclosed, ParamTypeOf, Solid, IsWord;
    if ParamTypeOf(params, param) == Some(Timestamp) {
      if Enclosed(t, TIMESTAMP).Some? {
        var c := Enclosed(t, TIMESTAMP).value;
        EnclosedExactly(t, TIMESTAMP, c);
        CallIsSolid(t, c);
      } else {
        WordIsSolid(t);
      }
    } else {
      var typ := ParamTypeOf(params, param).value;
      LiteralIsSolid(t, typ, ParseCelLiteral(t, typ).value);
    }
  }

  lemma OperatorTaken(s: string)
    requires ParseOperator(s).Some?
    ensures var (op, after) := ParseOperator(s).value;
            |after| <= |s| && s == s[..|s| - |after|] + after && IsSymbol(op, s[..|s| - |after|])
  {
    assert |s| >= 2 ==> s[..2] == [s[0], s[1]];
    assert |s| >= 1 ==> s[..1] == [s[0]];
  }

  lemma OperatorGiven(op: CompareOp, symbol: string, after: string)
    requires IsSymbol(op, symbol) && (after != "" ==> after[0] != '=')
    ensures ParseOperator(symbol + after) == Some((op, after))
    ensures !IsSpace((symbol + after)[0]) && !IsWordChar((symbol + after)[0]) && (symbol + after)[0] != '.'
  {
    var s := symbol + after;
    assert s[|symbol|..] == after;
    assert after != "" ==> s[|symbol|] == after[0];
  }

  lemma StartKept(s: string)
    requires s == "" || !IsSpace(s[0])
    ensures TrimStart(s) == s
  {
  }

  lemma ComparisonTaken(params: seq<Param>, param: string, t: string, leaf: Leaf)
    requires ParseComparison(param, t, params) == Some(leaf)
    ensures IsComparison(params, param, t, leaf)
  {
    var (op, after) := ParseOperator(TrimStart(t)).value;
    var rest := TrimStart(after);
    var operand := Trim(rest);
    assert rest != "" && !HasLineTerminator(rest) && ParseRhs(param, op, operand, params) == Some(leaf);
    assert operand == TrimEnd(TrimStart(rest));
    assert ParamTypeOf(params, param).Some?;
    hide *;
    var typ := ParamTypeOf(params, param).value;
    ParamTypeExactly(params, param);
    OperandExactly(params, typ, param, op, operand, leaf);
    var left := LeadingSpaces(t);
    OperatorTaken(TrimStart(t));
    var symbol := TrimStart(t)[..|TrimStart(t)| - |after|];
    var mid := LeadingSpaces(after);
    StartKept(rest);
    var right := TrailingSpaces(rest);
    ComparisonIs(params, param, t, leaf, left, symbol, mid, operand, right, op, typ);
  }

  lemma ComparisonIs(params: seq<Param>, param: string, t: string, leaf: Leaf, left: string, symbol: string,
      mid: string, operand: string, right: string, op: CompareOp, typ: ParamType)
    requires t == left + (symbol + (mid + (operand + right)))
    requires Spaces(left) && Spaces(mid) && Spaces(right) && !HasLineTerminator(operand + right)
    requires IsSymbol(op, symbol) && FirstDeclares(params, param, typ)
    requires IsOperand(params, typ, param, op, operand, leaf)
    ensures IsComparison(params, param, t, leaf)
  {
    assert Spaced(t, left, symbol, mid, operand, right) && Compares(params, param, symbol, operand, leaf);
    hide Spaces, HasLineTerminator, IsSymbol, FirstDeclares, IsOperand, Spaced, Compares;
  }

  lemma ComparesAs(params: seq<Param>, param: string, symbol: string, operand: string, leaf: Leaf)
    returns (op: CompareOp)
    requires Compares(params, param, symbol, operand, leaf)
    ensures IsSymbol(op, symbol) && ParseRhs(param, op, operand, params) == Some(leaf)
  {
    hide IsSymbol, FirstDeclares, IsOperand, ParseRhs;
    var found, typ :| IsSymbol(found, symbol) && FirstDeclares(params, param, typ)
      && IsOperand(params, typ, param, found, operand, leaf);
    op := found;
    OperandExactly(params, typ, param, op, operand, leaf);
  }

  lemma ComparisonGiven(params: seq<Param>, param: string, t: string, leaf: Leaf)
    requires IsComparison(params, param, t, leaf)
    ensures ParseComparison(param, t, params) == Some(leaf)
    ensures t != "" && !IsWordChar(t[0]) && t[0] != '.'
  {
    hide Spaced, Compares, ParseComparison, IsWordChar, ParseRhs, IsSymbol;
    var left, symbol, mid, operand, right :|
      Spaced(t, left, symbol, mid, operand, right) && Compares(params, param, symbol, operand, leaf);
    var op := ComparesAs(params, param, symbol, operand, leaf);
    SpacedReads(param, op, params, t, left, symbol, mid, operand, right);
  }

  lemma SpacedReads(param: string, op: CompareOp, params: seq<Param>, t: string, left: string, symbol: string,
      mid: string, operand: string, right: string)
    requires Spaced(t, left, symbol, mid, operand, right) && IsSymbol(op, symbol)
    requires ParseRhs(param, op, operand, params).Some?
    ensures ParseComparison(param, t, params) == ParseRhs(param, op, operand, params)
    ensures t != "" && !IsWordChar(t[0]) && t[0] != '.'
  {
    var rest := operand + right;
    var after := mid + rest;
    assert t == left + (symbol + after) && Spaces(left) && Spaces(mid) && Spaces(right) && !HasLineTerminator(rest);
    OperandIsSolid(param, op, operand, params);
    SolidThen(operand, right);
    hide *;
    SpacesThenSolid(mid, rest);
    OperatorGiven(op, symbol, after);
    TrimStartAfter(left, symbol + after);
    StartKept(symbol + after);
    TrimStartAfter(mid, rest);
    StartKept(rest);
    ParsesAs(param, t, op, after, rest, operand, params);
    SpacesFirst(left, symbol + after);
  }

  lemma SolidThen(operand: string, right: string)
    requires Solid(operand) && Spaces(right)
    ensures var rest := operand + right;
            rest != "" && !IsSpace(rest[0]) && rest[0] != '=' && Trim(rest) == operand
  {
    assert "" + operand + right == operand + right;
    TrimPadding("", operand, right);
    hide IsSpace;
  }

  lemma SpacesThenSolid(mid: string, rest: string)
    requires Spaces(mid) && rest != "" && rest[0] != '='
    ensures mid + rest != "" && (mid + rest)[0] != '='
  {
    assert mid != "" ==> IsSpace(mid[0]);
  }

  lemma SpacesFirst(left: string, s: string)
    requires Spaces(left) && s != "" && !IsWordChar(s[0]) && s[0] != '.'
    ensures left + s != "" && !IsWordChar((left + s)[0]) && (left + s)[0] != '.'
  {
    assert left != "" ==> IsSpace(left[0]);
  }

  lemma ParsesAs(param: string, t: string, op: CompareOp, after: string, rest: string, operand: string,
      params: seq<Param>)
    requires ParseOperator(TrimStart(t)) == Some((op, after)) && TrimStart(after) == rest && Trim(rest) == operand
    requires rest != "" && !HasLineTerminator(rest)
    ensures ParseComparison(param, t, params) == ParseRhs(param, op, operand, params)
  {
    hide ParseOperator, TrimStart, Trim, HasLineTerminator, ParseRhs;
  }

  // ---------------------------------------------------------------------------
  // One leaf.

  lemma LeafTaken(t: string, params: seq<Param>, leaf: Leaf)
    requires ParseLeaf(t, params) == Some(leaf)
    ensures IsLeafText(t, params, leaf)
  {
    var w := WordLength(t);
    var (param, rest) := (t[..w], t[w..]);
    assert t == param + rest && IsWord(param);
    ParamTypeExactly(params, param);
    hide WordLength, Enclosed, ParseComparison, ParamTypeOf, FirstDeclares, IsWord, IsComparison, IsCall;
    match Enclosed(rest, IN_CIDR) {
      case Some(c) => EnclosedExactly(rest, IN_CIDR, c);
      case None => ComparisonTaken(params, param, rest, leaf);
    }
  }

  lemma LeafGiven(t: string, params: seq<Param>, leaf: Leaf)
    requires IsLeafText(t, params, leaf)
    ensures ParseLeaf(t, params) == Some(leaf)
  {
    hide WordLength, Enclosed, ParseComparison, ParamTypeOf, FirstDeclares, IsWord, IsComparison, IsCall, IsWordChar;
    var param, rest :| t == param + rest && IsWord(param)
      && (IsComparison(params, param, rest, leaf)
          || (leaf.IpLeaf? && leaf.param == param && IsCall(rest, ".in_cidr(", leaf.cidr)
              && FirstDeclares(params, param, IpAddress)));
    if IsComparison(params, param, rest, leaf) {
      ComparisonGiven(params, param, rest, leaf);
      NoCall(rest);
      LeafAfterWord(param, rest, params);
    } else {
      CallGiven(param, rest, leaf.cidr, params);
    }
  }

  lemma NoCall(rest: string)
    requires rest != "" && rest[0] != '.'
    ensures Enclosed(rest, IN_CIDR) == None
  {
    assert (IN_CIDR + "\"")[0] == '.';
  }

  lemma CallGiven(param: string, rest: string, c: string, params: seq<Param>)
    requires IsWord(param) && IsCall(rest, ".in_cidr(", c) && FirstDeclares(params, param, IpAddress)
    ensures ParseLeaf(param + rest, params) == Some(IpLeaf(param, c))
  {
    EnclosedExactly(rest, IN_CIDR, c);
    ParamTypeExactly(params, param);
    assert rest[0] == '.' && !IsWordChar('.');
    assert param != "";
    hide WordLength, Enclosed, ParseComparison, ParamTypeOf, FirstDeclares, IsWord, IsCall, IsWordChar;
    WordLengthOfWord(param, rest);
  }

  /** A text is accepted as a comparison exactly when it is the text of one. */
  lemma LeafExactly(t: string, params: seq<Param>, leaf: Leaf)
    ensures ParseLeaf(t, params) == Some(leaf) <==> IsLeafText(t, params, leaf)
  {
    hide ParseLeaf, IsLeafText;
    if ParseLeaf(t, params) == Some(leaf) {
      LeafTaken(t, params, leaf);
    }
    if IsLeafText(t, params, leaf) {
      LeafGiven(t, params, leaf);
    }
  }

  // ---------------------------------------------------------------------------
  // A whole text.

  /** How many backslashes end the text. */
  function Backslashes(t: string): nat {
    if t != "" && t[|t| - 1] == '\\' then 1 + Backslashes(t[..|t| - 1]) else 0
  }

  /** The splitter sees the end of the leaf's literal: no backslash stands before the closing quotation mark, but for
      those that come in pairs. */
  ghost predicate Closes(leaf: Leaf) {
    match leaf
    case IpLeaf(_, cidr) => Backslashes(cidr) % 2 == 0
    case TimeLeaf(_, _, TimeLiteral(text)) => Backslashes(text) % 2 == 0
    case _ => true
  }

  function Symbol(op: LogicOp): string {
    if op == And then "&&" else "||"
  }

  /** Comparisons joined by the operator, white space around each; every one but the last closes its literal. */
  ghost predicate AreLeaves(t: string, params: seq<Param>, op: LogicOp, leaves: seq<Leaf>)
    decreases |leaves|
  {
    if |leaves| <= 1 then |leaves| == 1 && IsLeafText(Trim(t), params, leaves[0])
    else exists left, right ::
      && t == left + Symbol(op) + right
      && IsLeafText(Trim(left), params, leaves[0]) && Closes(leaves[0])
      && AreLeaves(right, params, op, leaves[1..])
  }

  /** A call's scan ends outside quotes exactly when its literal closes. */
  lemma {:induction false} CallCloses(c: string, depth: nat)
    requires '"' !in c
    ensures ScanTo(c + "\")", depth + 1, true) == Some((depth, false)) <==> Backslashes(c) % 2 == 0
    ensures ScanTo(c + "\")", depth + 1, true).Some?
    decreases |c|
  {
    var t := c + "\")";
    assert ScanTo("", depth, false) == Some((depth, false)) && ScanTo("", depth + 1, true) == Some((depth + 1, true));
    assert ")"[1..] == "";
    if c == "" {
      assert t[1..] == ")";
    } else if c[0] == '\\' && |c| == 1 {
      assert t[2..] == ")";
      assert Backslashes(c) == 1;
    } else if c[0] == '\\' {
      assert t[2..] == c[2..] + "\")";
      CallCloses(c[2..], depth);
      PairAside(c);
    } else {
      assert t[1..] == c[1..] + "\")";
      CallCloses(c[1..], depth);
      OtherAside(c);
    }
  }

  lemma {:induction false} PairAside(c: string)
    requires |c| >= 2 && c[0] == '\\'
    ensures Backslashes(c) % 2 == Backslashes(c[2..]) % 2
    decreases |c|
  {
    if |c| > 2 {
      if c[|c| - 1] == '\\' {
        assert c[..|c| - 1][2..] == c[2..][..|c| - 3];
        PairAside(c[..|c| - 1]);
      }
    } else if c[1] == '\\' {
      assert c[..1][..0] == "";
    }
  }

  lemma {:induction false} OtherAside(c: string)
    requires c != "" && c[0] != '\\'
    ensures Backslashes(c) == Backslashes(c[1..])
    decreases |c|
  {
    if |c| > 1 && c[|c| - 1] == '\\' {
      assert c[..|c| - 1][1..] == c[1..][..|c| - 2];
      OtherAside(c[..|c| - 1]);
    }
  }

  lemma EnclosedCloses(t: string, head: string, c: string)
    requires IsCall(t, head, c) && CallHead(head)
    ensures ScanTo(t, 0, false) == Some((0, false)) <==> Backslashes(c) % 2 == 0
    ensures ScanTo(t, 0, false).Some?
  {
    assert t == head + ("\"" + (c + "\")")) && '"' !in c;
    hide *;
    HeadScans(head, "\"" + (c + "\")"));
    QuoteOpens(c + "\")", 1);
    CallCloses(c, 0);
  }

  lemma StringCloses(t: string)
    requires ParseCelLiteral(t, Str).Some?
    ensures ScanTo(t, 0, false) == Some((0, false))
  {
    assert t[0] == '"' && UnquoteBody(t[1..]).Some? && UnquoteBody(t[1..]).value.1 == "";
    hide UnquoteBody;
    UnquoteScans(t[1..], 0);
    assert ScanTo("", 0, false) == Some((0, false));
    assert ScanTo(t, 0, false) == ScanTo(t[1..], 0, true);
  }

  lemma LiteralCloses(t: string, typ: ParamType)
    requires ParseCelLiteral(t, typ).Some?
    ensures ScanTo(t, 0, false) == Some((0, false))
  {
    if typ == Str {
      StringCloses(t);
    } else if typ == Bool {
      hide ScanTo;
      ScanInert(t, 0);
    } else {
      hide Scan, ScanTo, IsIntegerText, ToNumber;
      NumberTextInert(t);
      ScanInert(t, 0);
    }
  }

  lemma OperandCloses(param: string, op: CompareOp, t: string, params: seq<Param>, leaf: Leaf)
    requires ParseRhs(param, op, t, params) == Some(leaf)
    ensures ScanTo(t, 0, false).Some?
    ensures ScanTo(t, 0, false) == Some((0, false)) <==> Closes(leaf)
  {
    hide ParseCelLiteral, Enclosed, ParamTypeOf, IsWord, ScanTo, Backslashes;
    if ParamTypeOf(params, param) == Some(Timestamp) {
      if Enclosed(t, TIMESTAMP).Some? {
        var c := Enclosed(t, TIMESTAMP).value;
        EnclosedExactly(t, TIMESTAMP, c);
        hide IsCall;
        CallHeads();
        EnclosedCloses(t, TIMESTAMP, c);
      } else {
        WordIsInert(t);
        ScanInert(t, 0);
      }
    } else {
      LiteralCloses(t, ParamTypeOf(params, param).value);
    }
  }

  lemma PaddedClose(t: string, right: string)
    requires ScanTo(t, 0, false).Some? && Spaces(right)
    ensures ScanTo(t + right, 0, false) == ScanTo(t, 0, false)
  {
    hide Spaces;
    var (d, q) := ScanTo(t, 0, false).value;
    ScanConcat(t, right, 0, false);
    SpacesScan(right, d, q);
  }

  lemma ComparisonCloses(param: string, t: string, params: seq<Param>, leaf: Leaf)
    requires ParseComparison(param, t, params) == Some(leaf)
    ensures ScanTo(t, 0, false).Some?
    ensures ScanTo(t, 0, false) == Some((0, false)) <==> Closes(leaf)
  {
    var (op, after) := ParseOperator(TrimStart(t)).value;
    var rest := TrimStart(after);
    var operand := Trim(rest);
    assert ParseRhs(param, op, operand, params) == Some(leaf) && operand == TrimEnd(TrimStart(rest));
    hide *;
    OperandCloses(param, op, operand, params, leaf);
    var inner := LeadingSpaces(rest);
    var right := TrailingSpaces(TrimStart(rest));
    PaddedClose(operand, right);
    ScanPastSpaces(inner, TrimStart(rest));
    var gap := LeadingSpaces(after);
    ScanPastSpaces(gap, rest);
    var symbol := OperatorText(TrimStart(t));
    ScanPast(symbol, after);
    var left := LeadingSpaces(t);
    ScanPastSpaces(left, TrimStart(t));
  }

  /** Where the scan of a leaf's text ends. */
  lemma LeafCloses(t: string, params: seq<Param>, leaf: Leaf)
    requires ParseLeaf(t, params) == Some(leaf)
    ensures ScanTo(t, 0, false).Some?
    ensures ScanTo(t, 0, false) == Some((0, false)) <==> Closes(leaf)
  {
    var w := WordLength(t);
    var (word, rest) := (t[..w], t[w..]);
    assert t == word + rest;
    WordPrefixInert(word);
    var call := Enclosed(rest, IN_CIDR);
    assert call.None? ==> ParseComparison(word, rest, params) == Some(leaf);
    assert call.Some? ==> leaf == IpLeaf(word, call.value);
    assert leaf.IpLeaf? ==> (Closes(leaf) <==> Backslashes(leaf.cidr) % 2 == 0);
    hide *;
    ScanPast(word, rest);
    if call.Some? {
      CallHeads();
      EnclosedExactly(rest, IN_CIDR, call.value);
      EnclosedCloses(rest, IN_CIDR, call.value);
    } else {
      ComparisonCloses(word, rest, params, leaf);
    }
  }

  lemma PartCloses(t: string, params: seq<Param>, leaf: Leaf)
    requires ParseLeaf(Trim(t), params) == Some(leaf)
    ensures ScanTo(t, 0, false).Some?
    ensures ScanTo(t, 0, false) == Some((0, false)) <==> Closes(leaf)
  {
    assert Trim(t) == TrimEnd(TrimStart(t));
    hide *;
    LeafCloses(Trim(t), params, leaf);
    var left := LeadingSpaces(t);
    var right := TrailingSpaces(TrimStart(t));
    PaddedClose(Trim(t), right);
    ScanPastSpaces(left, TrimStart(t));
  }

  /** No split stands within text that scans; after it the search goes on in the state reached. */
  lemma {:induction false} NextSplitPast(a: string, u: string, depth: nat, inQuote: bool)
    requires ScanTo(a, depth, inQuote).Some?
    ensures var (d, q) := ScanTo(a, depth, inQuote).value;
            NextSplit(a + u, depth, inQuote) == |a| + NextSplit(u, d, q)
    decreases |a|
  {
    hide NextSplit;
    if a == "" {
      assert a + u == u;
    } else {
      var t := a + u;
      assert t[0] == a[0] && (|a| >= 2 ==> t[1] == a[1]);
      NextSplitMoves(t, depth, inQuote);
      assert !SplitsHere(t, depth, inQuote);
      var (k, d, q) := Consumed(t, depth, inQuote);
      assert k <= |a| && t[k..] == a[k..] + u && d >= 0;
      assert ScanTo(a, depth, inQuote) == ScanTo(a[k..], d, q);
      NextSplitPast(a[k..], u, d, q);
    }
  }

  lemma SplitIsHere(t: string, depth: int, inQuote: bool)
    requires t != "" && NextSplit(t, depth, inQuote) == 0
    ensures SplitsHere(t, depth, inQuote)
  {
  }

  lemma SymbolSplits(op: LogicOp, right: string)
    ensures var u := Symbol(op) + right;
            |u| >= 2 && SplitsHere(u, 0, false) && NextSplit(u, 0, false) == 0 && OpAt(u) == op && u[2..] == right
  {
  }

  lemma OpIsSymbol(u: string, op: LogicOp)
    requires (StartsWithOp(u, And) || StartsWithOp(u, Or)) && OpAt(u) == op
    ensures |u| >= 2 && u == Symbol(op) + u[2..]
  {
  }

  lemma NoSplitLeft(d: nat, q: bool)
    ensures NextSplit("", d, q) == 0
  {
  }

  lemma ParsesTo(first: string, rest: seq<string>, params: seq<Param>, leaf: Leaf, leaves: seq<Leaf>)
    requires ParseLeaf(first, params) == Some(leaf) && ParseLeaves(rest, params) == Some(leaves)
    ensures ParseLeaves([first] + rest, params) == Some([leaf] + leaves)
  {
    hide ParseLeaf;
    assert ([first] + rest)[1..] == rest;
  }

  lemma NothingParses(params: seq<Param>)
    ensures ParseLeaves([], params) == Some([])
  {
  }

  lemma OneGiven(t: string, params: seq<Param>, op: LogicOp, leaf: Leaf)
    requires IsLeafText(Trim(t), params, leaf)
    ensures ParseLeaves(TextParts(t), params) == Some([leaf]) && SeparatedBy(t, op)
  {
    hide *;
    LeafExactly(Trim(t), params, leaf);
    PartCloses(t, params, leaf);
    var (d, q) := ScanTo(t, 0, false).value;
    NextSplitPast(t, "", 0, false);
    assert t + "" == t && t[..|t|] == t;
    NoSplitLeft(d, q);
    PartsStep(t, op);
    NothingParses(params);
    ParsesTo(Trim(t), [], params, leaf, []);
    assert [Trim(t)] + [] == [Trim(t)] && [leaf] + [] == [leaf];
  }

  lemma MoreGiven(left: string, right: string, params: seq<Param>, op: LogicOp, leaf: Leaf, leaves: seq<Leaf>)
    requires IsLeafText(Trim(left), params, leaf) && Closes(leaf)
    requires ParseLeaves(TextParts(right), params) == Some(leaves) && SeparatedBy(right, op)
    ensures var t := left + Symbol(op) + right;
            ParseLeaves(TextParts(t), params) == Some([leaf] + leaves) && SeparatedBy(t, op)
  {
    hide *;
    var (t, u) := (left + Symbol(op) + right, Symbol(op) + right);
    assert t == left + u;
    LeafExactly(Trim(left), params, leaf);
    PartCloses(left, params, leaf);
    NextSplitPast(left, u, 0, false);
    SymbolSplits(op, right);
    assert t[..|left|] == left && t[|left|..] == u && t[|left| + 2..] == u[2..];
    PartsStep(t, op);
    ParsesTo(Trim(left), TextParts(right), params, leaf, leaves);
  }

  lemma LeavesUnfold(t: string, params: seq<Param>, op: LogicOp, leaves: seq<Leaf>)
    returns (left: string, right: string)
    requires AreLeaves(t, params, op, leaves)
    ensures leaves != []
    ensures |leaves| == 1 ==> IsLeafText(Trim(t), params, leaves[0])
    ensures |leaves| > 1 ==>
              && t == left + Symbol(op) + right && IsLeafText(Trim(left), params, leaves[0]) && Closes(leaves[0])
              && AreLeaves(right, params, op, leaves[1..])
  {
    left, right := "", "";
    hide IsLeafText, Trim, Closes, Symbol;
    if |leaves| > 1 {
      left, right :| t == left + Symbol(op) + right && IsLeafText(Trim(left), params, leaves[0]) && Closes(leaves[0])
        && AreLeaves(right, params, op, leaves[1..]);
    }
  }

  /** Such texts are split into their comparisons. */
  lemma {:induction false} LeavesGiven(t: string, params: seq<Param>, op: LogicOp, leaves: seq<Leaf>)
    requires AreLeaves(t, params, op, leaves)
    ensures ParseLeaves(TextParts(t), params) == Some(leaves) && SeparatedBy(t, op)
    decreases |leaves|
  {
    hide *;
    var left, right := LeavesUnfold(t, params, op, leaves);
    if |leaves| == 1 {
      assert leaves == [leaves[0]];
      OneGiven(t, params, op, leaves[0]);
    } else {
      LeavesGiven(right, params, op, leaves[1..]);
      MoreGiven(left, right, params, op, leaves[0], leaves[1..]);
      assert leaves == [leaves[0]] + leaves[1..];
    }
  }

  lemma OneLeaf(t: string, params: seq<Param>, op: LogicOp, leaf: Leaf)
    requires IsLeafText(Trim(t), params, leaf)
    ensures AreLeaves(t, params, op, [leaf])
  {
    hide IsLeafText, Trim;
  }

  lemma MoreLeaves(left: string, right: string, params: seq<Param>, op: LogicOp, leaf: Leaf, leaves: seq<Leaf>)
    requires IsLeafText(Trim(left), params, leaf) && Closes(leaf) && AreLeaves(right, params, op, leaves)
    ensures AreLeaves(left + Symbol(op) + right, params, op, [leaf] + leaves)
  {
    assert leaves != [];
    assert ([leaf] + leaves)[1..] == leaves && ([leaf] + leaves)[0] == leaf;
    hide IsLeafText, Trim, Closes;
  }

  /** Text that is split into comparisons is such a text. */
  lemma {:induction false} LeavesTaken(t: string, params: seq<Param>, op: LogicOp, leaves: seq<Leaf>)
    requires ParseLeaves(TextParts(t), params) == Some(leaves) && SeparatedBy(t, op)
    ensures AreLeaves(t, params, op, leaves)
    decreases |t|
  {
    hide *;
    var e := NextSplit(t, 0, false);
    PartsStep(t, op);
    var parts := TextParts(t);
    var leaf, more := FirstLeaf(parts, params);
    LeafExactly(parts[0], params, leaf);
    assert t == t[..e] + t[e..];
    if e == |t| {
      assert t[..e] == t && parts == [Trim(t)] && parts[1..] == [];
      NothingParses(params);
      OneLeaf(t, params, op, leaf);
      assert leaves == [leaf];
    } else {
      var (left, u) := (t[..e], t[e..]);
      assert parts[0] == Trim(left) && parts[1..] == TextParts(t[e + 2..]) && u[2..] == t[e + 2..];
      PartCloses(left, params, leaf);
      NextSplitPast(left, u, 0, false);
      var (d, q) := ScanTo(left, 0, false).value;
      SplitIsHere(u, d, q);
      SplitState(u, d, q);
      OpIsSymbol(u, op);
      LeavesTaken(t[e + 2..], params, op, more);
      MoreLeaves(left, u[2..], params, op, leaf, more);
      assert t == left + Symbol(op) + u[2..];
    }
  }

  lemma SplitState(t: string, depth: int, inQuote: bool)
    requires SplitsHere(t, depth, inQuote)
    ensures depth == 0 && !inQuote
  {
  }

  /** Where one operator stands at every split, the splitter gives it and the parts. */
  lemma {:induction false} SplitSucceeds(body: string, t: string, start: nat, op: LogicOp, seen: Option<LogicOp>,
      done: seq<string>)
    requires start <= |body| && t == body[start..] && SeparatedBy(t, op) && (seen == None || seen == Some(op))
    ensures SplitFrom(body, start, 0, false, start, seen, done) ==
            Some((if |TextParts(t)| == 1 && seen == None then And else op, done + TextParts(t)))
    decreases |t|
  {
    hide *;
    var e := NextSplit(t, 0, false);
    SplitOnce(body, t, start, seen, done);
    PartsStep(t, op);
    var first := [Trim(t[..e])];
    if e == |t| {
      assert t[..e] == t && first + [] == first;
    } else {
      var u := t[e + 2..];
      assert u == body[start + e + 2..];
      SplitSucceeds(body, u, start + e + 2, op, Some(op), done + first);
      ConcatAssociates(done, first, TextParts(u));
    }
  }

  function TreeOf(op: LogicOp, leaves: seq<Leaf>): Node {
    if |leaves| == 1 then LeafNode(leaves[0])
    else GroupNode(op, seq(|leaves|, i requires 0 <= i < |leaves| => LeafNode(leaves[i])))
  }

  lemma TreeIs(op: LogicOp, leaves: seq<Leaf>)
    ensures TreeOf(op, leaves) == if |leaves| == 1 then LeafNode(leaves[0]) else GroupNode(op, Map(leaves, AsNode))
  {
    assert |leaves| != 1 ==> TreeOf(op, leaves).children == Map(leaves, AsNode);
  }

  lemma ParsedFrom(name: string, params: seq<Param>, body: string, op: LogicOp, parts: seq<string>, leaves: seq<Leaf>)
    requires SplitFrom(Trim(body), 0, 0, false, 0, None, []) == Some((op, parts))
    requires ParseLeaves(parts, params) == Some(leaves)
    ensures Parsed(name, params, body) == Some(ConditionDef(name, params, TreeOf(op, leaves)))
  {
    TreeIs(op, leaves);
    hide SplitFrom, ParseLeaves, TreeOf, Trim;
  }

  lemma TextGiven(name: string, params: seq<Param>, body: string, op: LogicOp, leaves: seq<Leaf>)
    requires AreLeaves(body, params, op, leaves)
    ensures Parsed(name, params, body) == Some(ConditionDef(name, params, TreeOf(op, leaves)))
  {
    hide *;
    var t := Trim(body);
    var parts := TextParts(body);
    LeavesGiven(body, params, op, leaves);
    TrimmedParts(body, op);
    assert t[0..] == t && [] + parts == parts;
    SplitSucceeds(t, t, 0, op, None, []);
    var found := if |parts| == 1 then And else op;
    ParsedFrom(name, params, body, found, parts, leaves);
    OneLength(parts, params);
    SameTree(op, found, leaves);
  }

  lemma {:induction false} OneLength(parts: seq<string>, params: seq<Param>)
    requires ParseLeaves(parts, params).Some?
    ensures |ParseLeaves(parts, params).value| == |parts|
  {
    hide ParseLeaf;
    if parts != [] {
      OneLength(parts[1..], params);
    }
  }

  lemma SameTree(op: LogicOp, found: LogicOp, leaves: seq<Leaf>)
    requires |leaves| == 1 || op == found
    ensures TreeOf(op, leaves) == TreeOf(found, leaves)
  {
  }

  lemma NameKept(name: string, params: seq<Param>, body: string)
    requires Parsed(name, params, body).Some?
    ensures Parsed(name, params, body).value.name == name
  {
    hide SplitFrom, ParseLeaves, Trim;
  }

  /** A text is accepted exactly when it is comparisons joined by one operator, each but the last with a literal that
      closes, and it is accepted as those comparisons in that order. */
  lemma TextAcceptedExactly(name: string, params: seq<Param>, body: string, def: ConditionDef)
    ensures Parsed(name, params, body) == Some(def) <==>
            exists op, leaves ::
              AreLeaves(body, params, op, leaves) && def == ConditionDef(name, params, TreeOf(op, leaves))
  {
    hide *;
    if Parsed(name, params, body) == Some(def) {
      var op, leaves := AcceptedLeaves(name, params, body);
      LeavesTaken(body, params, op, leaves);
      TreeIs(op, leaves);
      NameKept(name, params, body);
    }
    if op, leaves :| AreLeaves(body, params, op, leaves) && def == ConditionDef(name, params, TreeOf(op, leaves)) {
      TextGiven(name, params, body, op, leaves);
    }
  }
}
