/** The tokens of the Common Expression Language (section Syntax of its specification), as far as
    conditions use them, and what the text of a leaf needs so as to consist of them. */
module CelTokens {
  import opened Prelude
  import opened JsNumber
  import opened JsText
  import opened Condition
  import opened ConditionCel

  /** WHITESPACE of the specification: fewer characters than ECMAScript's. */
  predicate IsCelSpace(c: char) {
    c == '\t' || c == '\n' || c == FF || c == '\r' || c == ' '
  }

  const CEL_LITERALS: set<string> := {"true", "false", "null"}

  const CEL_KEYWORDS: set<string> := {
    "in", "as", "break", "const", "continue", "else", "for", "function", "if", "import", "let", "loop",
    "package", "namespace", "return", "var", "void", "while"
  }

  /** IDENT of the specification. */
  predicate IsCelName(w: string) {
    IsWord(w) && !IsDigit(w[0]) && w !in CEL_LITERALS && w !in CEL_KEYWORDS
  }

  /** What a word on the right of an operator may be: a name, a literal, or a number without point and sign. */
  predicate IsCelOperand(w: string) {
    IsCelName(w) || w in CEL_LITERALS || (w != "" && IsDigit(w[0]) && Scan(w).Some?)
  }

  predicate IsNumberPart(c: char) {
    IsDigit(c) || c == 'e' || c == 'E' || c == '.' || c == '+' || c == '-'
  }

  /** Length of the longest prefix of characters that numbers are written with. */
  function RunLength(s: string): (n: nat)
    ensures n <= |s|
  {
    if s != "" && IsNumberPart(s[0]) then 1 + RunLength(s[1..]) else 0
  }

  predicate IsPunctuation(c: char) {
    c in {'=', '!', '<', '>', '&', '|', '(', ')', '[', ']', '{', '}', '.', ',', '-', '+', '?', ':', '*', '/', '%'}
  }

  predicate HexDigits(t: string, from: nat, to: nat) {
    to <= |t| && forall i :: from <= i < to ==> HexValue(t[i]) >= 0
  }

  predicate IsOctal(c: char) {
    '0' <= c <= '7'
  }

  /** Length of the escape sequence that starts t, 0 when there is none: ESCAPE of the specification. */
  function EscapeLength(t: string): (n: nat)
    requires t != "" && t[0] == '\\'
    ensures n <= |t|
  {
    if |t| < 2 then 0
    else if t[1] in {'a', 'b', 'f', 'n', 'r', 't', 'v', '\\', '?', '"', '\'', '`'} then 2
    else if t[1] == 'x' || t[1] == 'X' then (if HexDigits(t, 2, 4) then 4 else 0)
    else if t[1] == 'u' then (if HexDigits(t, 2, 6) then 6 else 0)
    else if t[1] == 'U' then (if HexDigits(t, 2, 10) then 10 else 0)
    else if |t| >= 4 && '0' <= t[1] <= '3' && IsOctal(t[2]) && IsOctal(t[3]) then 4
    else 0
  }

  /** Where the lexer stands: before a comparison, inside one, inside a string. */
  datatype Place = Before | Within | InString

  /** The text consists of tokens, a comparison starts with a name, and every string is closed. */
  predicate Lexes(t: string, at: Place)
    decreases |t|
  {
    if t == "" then !at.InString?
    else if at.InString? then
      if t[0] == '\\' then EscapeLength(t) > 0 && Lexes(t[EscapeLength(t)..], InString)
      else t[0] != '\n' && t[0] != '\r' && Lexes(t[1..], if t[0] == '"' then Within else InString)
    else if at.Within? && IsDigit(t[0]) then
      var n := RunLength(t);
      Scan(t[..n]).Some? && (n < |t| ==> !IsWordChar(t[n])) && Lexes(t[n..], Within)
    else if IsWordChar(t[0]) then
      var w := WordLength(t);
      (IsCelName(t[..w]) || (at.Within? && t[..w] in CEL_LITERALS)) && Lexes(t[w..], Within)
    else if t[0] == '"' then Lexes(t[1..], InString)
    else if IsCelSpace(t[0]) then Lexes(t[1..], at)
    else
      && IsPunctuation(t[0])
      && Lexes(t[1..], if t[0] == '(' || t[0] == '&' || t[0] == '|' then Before else Within)
  }

  /** The two things that ECMAScript text may hold and CEL text may not: white space that CEL lacks, outside
      strings, and the escape of a solidus, inside them. */
  predicate Portable(t: string, inQuote: bool)
    decreases |t|
  {
    if t == "" then true
    else if inQuote && t[0] == '\\' && |t| >= 2 then t[1] != '/' && Portable(t[2..], true)
    else if inQuote then Portable(t[1..], t[0] != '"')
    else (IsSpace(t[0]) ==> IsCelSpace(t[0])) && Portable(t[1..], t[0] == '"')
  }

  /** t without the CEL white space it starts with. */
  function SkipSpaces(t: string): (u: string)
    ensures |u| <= |t|
  {
    if t != "" && IsCelSpace(t[0]) then SkipSpaces(t[1..]) else t
  }

  // ---------------------------------------------------------------------------
  // What text in front of b does to b.

  predicate Spaces(s: string) {
    forall i :: 0 <= i < |s| ==> IsSpace(s[i])
  }

  predicate CelSpaces(s: string) {
    forall i :: 0 <= i < |s| ==> IsCelSpace(s[i])
  }

  /** b does not go on with the word or number before it. */
  predicate Apart(b: string) {
    b == "" || IsSpace(b[0])
  }

  lemma {:induction false} SpacesThen(p: string, b: string, at: Place)
    requires Spaces(p) && (at.Before? || at.Within?)
    ensures Lexes(p + b, at) <==> CelSpaces(p) && Lexes(b, at)
    decreases |p|
  {
    if p == "" {
      assert p + b == b;
    } else {
      var t := p + b;
      assert t[0] == p[0] && t[1..] == p[1..] + b;
      assert CelSpaces(p) <==> IsCelSpace(p[0]) && CelSpaces(p[1..]) by {
        assert forall i :: 0 < i < |p| ==> p[i] == p[1..][i - 1];
      }
      SpaceFirst(t, at);
      hide Lexes, IsSpace, IsCelSpace;
      SpacesThen(p[1..], b, at);
    }
  }

  lemma SpaceFirst(t: string, at: Place)
    requires t != "" && IsSpace(t[0]) && (at.Before? || at.Within?)
    ensures Lexes(t, at) <==> IsCelSpace(t[0]) && Lexes(t[1..], at)
  {
    hide IsCelName, EscapeLength;
  }

  lemma WordThen(w: string, b: string, at: Place)
    requires IsWord(w) && (b == "" || !IsWordChar(b[0]))
    requires at.Before? || (at.Within? && !IsDigit(w[0]))
    ensures Lexes(w + b, at) <==> (IsCelName(w) || (at.Within? && w in CEL_LITERALS)) && Lexes(b, Within)
  {
    WordLengthOfWord(w, b);
    assert (w + b)[0] == w[0] && IsWordChar(w[0]);
    hide IsCelName, EscapeLength, CEL_LITERALS, WordLength;
  }

  lemma PunctuationThen(c: char, b: string, at: Place)
    requires c in {'=', '!', '<', '>', '.', ')', '-', '('} && (at.Before? || at.Within?)
    ensures Lexes([c] + b, at) <==> Lexes(b, if c == '(' then Before else Within)
  {
    assert ([c] + b)[1..] == b;
    hide IsCelName, EscapeLength;
  }

  lemma SymbolThen(op: CompareOp, b: string)
    ensures Lexes(CompareText(op) + b, Within) <==> Lexes(b, Within)
  {
    var s := CompareText(op);
    hide Lexes;
    if |s| == 2 {
      assert s + b == [s[0]] + ([s[1]] + b);
      PunctuationThen(s[0], [s[1]] + b, Within);
      PunctuationThen(s[1], b, Within);
    } else {
      assert s + b == [s[0]] + b;
      PunctuationThen(s[0], b, Within);
    }
  }

  lemma CallNames()
    ensures IsCelName("in_cidr") && IsCelName("timestamp")
  {
    var w, v := "in_cidr", "timestamp";
    assert |w| == 7 && w[0] == 'i' && w[1] == 'n' && w[2] == '_';
    assert |v| == 9 && v[0] == 't';
  }

  lemma CallThen(name: string, b: string)
    requires IsCelName(name)
    ensures Lexes(name + "(" + b, Within) <==> Lexes(b, Before)
  {
    var rest := "(" + b;
    assert name + "(" + b == name + rest;
    hide Lexes;
    WordThen(name, rest, Within);
    PunctuationThen('(', b, Within);
    assert rest == ['('] + b;
  }

  lemma CidrThen(b: string)
    ensures Lexes(IN_CIDR + b, Within) <==> Lexes(b, Before)
  {
    CallNames();
    hide Lexes, IsCelName;
    CallThen("in_cidr", b);
    PunctuationThen('.', "in_cidr" + "(" + b, Within);
    assert IN_CIDR + b == ['.'] + ("in_cidr" + "(" + b);
  }

  lemma TimestampThen(b: string)
    ensures Lexes(TIMESTAMP + b, Within) <==> Lexes(b, Before)
  {
    CallNames();
    hide Lexes, IsCelName;
    CallThen("timestamp", b);
    assert TIMESTAMP + b == "timestamp" + "(" + b;
  }

  // Strings.

  lemma QuotedCharThen(c: char, b: string)
    ensures Lexes(QuoteChar(c) + b, InString) <==> Lexes(b, InString)
  {
    var q := QuoteChar(c);
    var t := q + b;
    if |q| == 6 {
      HexRoundTrip(c as nat / 16);
      HexRoundTrip(c as nat % 16);
      assert HexDigits(t, 2, 6) by {
        assert HexValue('0') == 0;
        assert t[4] == q[4] && t[5] == q[5];
      }
      assert t[6..] == b;
    } else if |q| == 2 {
      assert t[2..] == b;
    } else {
      assert t[1..] == b;
    }
  }

  lemma {:induction false} QuotedThen(s: string, b: string)
    ensures Lexes(QuoteBody(s) + b, InString) <==> Lexes(b, InString)
    decreases |s|
  {
    if s == "" {
      assert QuoteBody(s) + b == b;
    } else {
      var rest := QuoteBody(s[1..]) + b;
      assert QuoteBody(s) + b == QuoteChar(s[0]) + rest;
      hide Lexes, QuoteChar, QuoteBody;
      QuotedCharThen(s[0], rest);
      QuotedThen(s[1..], b);
    }
  }

  lemma MarkThen(b: string, at: Place)
    requires at.Before? || at.Within?
    ensures Lexes("\"" + b, at) <==> Lexes(b, InString)
    ensures Lexes("\"" + b, InString) <==> Lexes(b, Within)
  {
    assert ("\"" + b)[1..] == b;
    hide IsCelName, EscapeLength;
  }

  /** A JSON string literal is a CEL string literal, whatever characters it holds. */
  lemma QuoteThen(s: string, b: string, at: Place)
    requires at.Before? || at.Within?
    ensures Lexes(Quote(s) + b, at) <==> Lexes(b, Within)
  {
    var rest := "\"" + b;
    assert Quote(s) + b == "\"" + (QuoteBody(s) + rest);
    hide Lexes, Quote, QuoteBody;
    MarkThen(QuoteBody(s) + rest, at);
    QuotedThen(s, rest);
    MarkThen(b, Within);
  }

  lemma QuotedCallThen(s: string, b: string)
    ensures Lexes(Quote(s) + ")" + b, Before) <==> Lexes(b, Within)
  {
    assert Quote(s) + ")" + b == Quote(s) + (")" + b);
    assert ")" + b == [')'] + b;
    hide Lexes, Quote;
    QuoteThen(s, ")" + b, Before);
    PunctuationThen(')', b, Within);
  }

  // Numbers.

  predicate NumberRun(s: string) {
    forall i :: 0 <= i < |s| ==> IsNumberPart(s[i])
  }

  lemma {:induction false} RunLengthOfRun(s: string, b: string)
    requires NumberRun(s) && (b == "" || !IsNumberPart(b[0]))
    ensures RunLength(s + b) == |s| && (s + b)[..|s|] == s && (s + b)[|s|..] == b
    decreases |s|
  {
    if s == "" {
      assert s + b == b;
    } else {
      assert (s + b)[0] == s[0] && (s + b)[1..] == s[1..] + b;
      assert forall i :: 0 < i < |s| ==> s[i] == s[1..][i - 1];
      hide IsNumberPart;
      RunLengthOfRun(s[1..], b);
    }
  }

  lemma MantissaRuns(negative: bool, s: string, exponent: int)
    requires ScanMantissa(negative, s, exponent).Some?
    ensures NumberRun(s) && s != "" && IsDigit(s[0])
  {
    var dot := IndexOf(s, '.');
    if dot < 0 {
      assert AllDigits(s);
    } else {
      var (whole, fraction) := (s[..dot], s[dot + 1..]);
      assert AllDigits(whole) && AllDigits(fraction);
      assert s[0] == whole[0];
      forall i | 0 <= i < |s| ensures IsDigit(s[i]) || s[i] == '.' {
        assert i < dot ==> s[i] == whole[i];
        assert i > dot ==> s[i] == fraction[i - dot - 1];
      }
    }
  }

  lemma RunConcat(a: string, b: string)
    requires NumberRun(a) && NumberRun(b)
    ensures NumberRun(a + b)
  {
  }

  lemma {:induction false} MarkIsE(s: string)
    requires ExponentMark(s) >= 0
    ensures IsNumberPart(s[ExponentMark(s)])
  {
    if s[0] != 'e' && s[0] != 'E' {
      MarkIsE(s[1..]);
    }
  }

  lemma ExponentRuns(s: string)
    requires ScanExponent(s).Some?
    ensures NumberRun(s)
  {
    if s != "" && (s[0] == '+' || s[0] == '-') {
      assert s == [s[0]] + s[1..];
      assert AllDigits(s[1..]);
    }
  }

  lemma UnsignedRuns(negative: bool, u: string)
    requires ScanUnsigned(negative, u).Some?
    ensures NumberRun(u) && u != "" && IsDigit(u[0])
  {
    var mark := ExponentMark(u);
    hide ScanMantissa, ScanExponent, ExponentMark, IsDigit;
    if mark < 0 {
      MantissaRuns(negative, u, 0);
    } else {
      MarkIsE(u);
      ExponentRuns(u[mark + 1..]);
      MantissaRuns(negative, u[..mark], ScanExponent(u[mark + 1..]).value);
      assert u == u[..mark] + ([u[mark]] + u[mark + 1..]);
      RunConcat([u[mark]], u[mark + 1..]);
      RunConcat(u[..mark], [u[mark]] + u[mark + 1..]);
    }
  }

  lemma ApartFromNumber(b: string)
    requires Apart(b) && b != ""
    ensures !IsNumberPart(b[0]) && !IsWordChar(b[0])
  {
  }

  /** What lexing does with text that starts with a digit, inside a comparison. */
  lemma DigitFirst(t: string, n: nat)
    requires t != "" && IsDigit(t[0]) && n == RunLength(t)
    ensures Lexes(t, Within) <==>
            Scan(t[..n]).Some? && (n < |t| ==> !IsWordChar(t[n])) && Lexes(t[n..], Within)
  {
    hide Scan, RunLength, IsWordChar, IsCelName, EscapeLength;
  }

  lemma DigitThen(u: string, b: string)
    requires Scan(u).Some? && NumberRun(u) && u != "" && IsDigit(u[0]) && Apart(b)
    ensures Lexes(u + b, Within) <==> Lexes(b, Within)
  {
    assert (u + b)[0] == u[0];
    hide Lexes, Scan, IsDigit, NumberRun, RunLength, Apart;
    if b != "" {
      ApartFromNumber(b);
    }
    RunLengthOfRun(u, b);
    DigitFirst(u + b, |u|);
  }

  lemma SignThen(u: string, b: string)
    requires Scan(u).Some? && NumberRun(u) && u != "" && IsDigit(u[0]) && Apart(b)
    ensures NumberRun("-" + u)
    ensures Lexes("-" + u + b, Within) <==> Lexes(b, Within)
  {
    assert "-" + u + b == ['-'] + (u + b);
    assert NumberRun("-");
    hide Lexes, Scan, NumberRun, IsDigit, Apart;
    RunConcat("-", u);
    DigitThen(u, b);
    PunctuationThen('-', u + b, Within);
  }

  lemma DigitIsNoSign(u: string)
    requires u != "" && IsDigit(u[0])
    ensures u[0] != '-'
  {
  }

  lemma SignMatters(u: string)
    requires u != "" && u[0] != '-' && ScanUnsigned(true, u).Some?
    ensures Scan(u).Some?
  {
    hide ExponentMark, ScanExponent;
  }

  /** Text that reads as a decimal literal is a number token, after a sign or none. */
  lemma NumberThen(s: string, b: string)
    requires Scan(s).Some? && Apart(b)
    ensures NumberRun(s)
    ensures Lexes(s + b, Within) <==> Lexes(b, Within)
  {
    hide Lexes, ScanUnsigned, NumberRun, IsDigit, Apart;
    if s != "" && s[0] == '-' {
      var u := s[1..];
      assert s == "-" + u;
      UnsignedRuns(true, u);
      DigitIsNoSign(u);
      SignMatters(u);
      SignThen(u, b);
    } else {
      UnsignedRuns(false, s);
      DigitThen(s, b);
    }
  }

  /** A word that starts with a digit, on the right of an operator. */
  lemma DigitWordThen(w: string, b: string)
    requires IsWord(w) && IsDigit(w[0]) && Apart(b)
    ensures Lexes(w + b, Within) <==> Scan(w).Some? && Lexes(b, Within)
  {
    var t := w + b;
    if Scan(w).Some? {
      hide Lexes, IsDigit;
      NumberThen(w, b);
    } else {
      var n := RunLength(t);
      assert t[0] == w[0];
      if b != "" {
        ApartFromNumber(b);
      }
      hide Lexes, Scan, IsDigit, IsWordChar, Apart;
      RunStops(w, b);
      DigitFirst(t, n);
      if n == |w| {
        assert t[..n] == w;
      } else {
        assert t[n] == w[n];
      }
    }
  }

  lemma {:induction false} RunStops(w: string, b: string)
    requires b == "" || !IsNumberPart(b[0])
    ensures RunLength(w + b) <= |w|
    decreases |w|
  {
    if w == "" {
      assert w + b == b;
    } else {
      assert (w + b)[0] == w[0] && (w + b)[1..] == w[1..] + b;
      hide IsNumberPart;
      RunStops(w[1..], b);
    }
  }

  /** A word on the right of an operator. */
  lemma OperandThen(w: string, b: string)
    requires IsWord(w) && Apart(b)
    ensures Lexes(w + b, Within) <==> IsCelOperand(w) && Lexes(b, Within)
  {
    if IsDigit(w[0]) {
      DigitIsNoLiteral(w);
      hide Lexes, CEL_LITERALS, Scan;
      DigitWordThen(w, b);
    } else {
      assert b == "" || !IsWordChar(b[0]);
      hide Lexes, CEL_LITERALS, Scan;
      WordThen(w, b, Within);
    }
  }

  lemma DigitIsNoLiteral(w: string)
    requires w != "" && IsDigit(w[0])
    ensures w !in CEL_LITERALS && !IsCelName(w)
  {
  }

  // ---------------------------------------------------------------------------
  // Printed leaves.

  /** A comparison with any white space around its operator, up to its right-hand side and what follows. */
  lemma ComparisonThen(param: string, gap: string, op: CompareOp, next: string, rest: string)
    requires IsWord(param) && Spaces(gap) && Spaces(next)
    ensures Lexes(param + (gap + (CompareText(op) + (next + rest))), Before) <==>
            IsCelName(param) && CelSpaces(gap) && CelSpaces(next) && Lexes(rest, Within)
  {
    var u := next + rest;
    var v := CompareText(op) + u;
    var w := gap + v;
    assert !IsWordChar(w[0]) by {
      assert gap != "" ==> IsSpace(gap[0]);
    }
    hide Lexes, IsWordChar, IsSpace, IsCelSpace, IsCelName, CelSpaces, CompareText;
    WordThen(param, w, Before);
    SpacesThen(gap, v, Within);
    SymbolThen(op, u);
    SpacesThen(next, rest, Within);
  }

  lemma AddressThen(param: string, cidr: string, b: string)
    requires IsWord(param)
    ensures Lexes(param + (IN_CIDR + Quote(cidr) + ")") + b, Before) <==> IsCelName(param) && Lexes(b, Within)
  {
    var call := Quote(cidr) + ")" + b;
    var rest := IN_CIDR + call;
    assert param + (IN_CIDR + Quote(cidr) + ")") + b == param + rest;
    assert !IsWordChar(rest[0]);
    hide Lexes, Quote, IsCelName;
    WordThen(param, rest, Before);
    CidrThen(call);
    QuotedCallThen(cidr, b);
  }

  lemma TimeThen(text: string, b: string)
    ensures Lexes(TIMESTAMP + Quote(text) + ")" + b, Within) <==> Lexes(b, Within)
  {
    var call := Quote(text) + ")" + b;
    assert TIMESTAMP + Quote(text) + ")" + b == TIMESTAMP + call;
    hide Lexes, Quote;
    TimestampThen(call);
    QuotedCallThen(text, b);
  }

  lemma ConstantIsName(w: string)
    requires w in {"NaN", "Infinity"}
    ensures IsWord(w) && IsCelName(w)
  {
    if w == "NaN" {
      assert w[0] == 'N' && w[1] == 'a' && w[2] == 'N';
    } else {
      assert w == "Infinity" && w[0] == 'I' && w[1] == 'n' && |w| == 8;
    }
  }

  lemma NumberStringThen(x: JsDouble, b: string)
    requires Apart(b)
    ensures Lexes(NumberString(x) + b, Within) <==> Lexes(b, Within)
  {
    hide Lexes, IsCelName, IsWord;
    match x
    case NaN =>
      ConstantIsName("NaN");
      OperandThen("NaN", b);
    case Infinity(negative) =>
      ConstantIsName("Infinity");
      OperandThen("Infinity", b);
      if negative {
        PunctuationThen('-', "Infinity" + b, Within);
        assert "-Infinity" + b == ['-'] + ("Infinity" + b);
      }
    case _ =>
      hide NumberString;
      NumberStringReads(x);
      NumberThen(NumberString(x), b);
  }

  lemma LiteralWords()
    ensures IsWord("true") && IsWord("false") && IsWord("null")
    ensures IsCelOperand("true") && IsCelOperand("false") && IsCelOperand("null")
  {
  }

  lemma LiteralThen(value: Value, b: string)
    requires Apart(b)
    ensures Lexes(CelLiteral(value) + b, Within) <==> Lexes(b, Within)
  {
    LiteralWords();
    hide Lexes, IsWord, IsCelOperand, Quote, NumberString;
    match value
    case StringValue(text) => QuoteThen(text, b, Within);
    case NumberValue(number) => NumberStringThen(number, b);
    case BoolValue(flag) => OperandThen(if flag then "true" else "false", b);
    case NullValue => OperandThen("null", b);
  }

  /** The names in a leaf are names to CEL; on the right it may also be one that CEL takes for a constant. */
  ghost predicate NamedLeaf(leaf: Leaf) {
    IsCelName(leaf.param) && (leaf.TimeLeaf? && leaf.rhs.TimeParam? ==> IsCelOperand(leaf.rhs.param))
  }

  ghost predicate NamedNode(node: Node) {
    match node
    case LeafNode(leaf) => NamedLeaf(leaf)
    case GroupNode(_, children) => forall c :: c in children ==> NamedNode(c)
  }

  /** A printed leaf consists of tokens exactly when its names are names: its strings and numbers always do. */
  lemma LeafThen(leaf: Leaf, b: string)
    requires Worded(leaf) && Apart(b)
    ensures Lexes(LeafToCel(leaf) + b, Before) <==> NamedLeaf(leaf) && Lexes(b, Within)
  {
    hide Lexes, Quote, IsCelName, IsCelOperand, IsWord, CompareText, CelLiteral;
    SpaceIsSpaces();
    hide Spaces, CelSpaces;
    match leaf
    case TimeLeaf(param, op, TimeLiteral(text)) =>
      var rhs := TIMESTAMP + Quote(text) + ")";
      PrintedComparison(param, op, rhs, b);
      ComparisonThen(param, " ", op, " ", rhs + b);
      TimeThen(text, b);
    case TimeLeaf(param, op, TimeParam(other)) =>
      PrintedComparison(param, op, other, b);
      ComparisonThen(param, " ", op, " ", other + b);
      OperandThen(other, b);
    case IpLeaf(param, cidr) =>
      AddressThen(param, cidr, b);
    case ValueLeaf(param, op, value) =>
      PrintedComparison(param, op, CelLiteral(value), b);
      ComparisonThen(param, " ", op, " ", CelLiteral(value) + b);
      LiteralThen(value, b);
  }

  lemma PrintedComparison(param: string, op: CompareOp, rhs: string, b: string)
    ensures param + " " + CompareText(op) + " " + rhs + b == param + (" " + (CompareText(op) + (" " + (rhs + b))))
  {
    hide CompareText;
  }

  lemma SpaceIsSpaces()
    ensures Spaces(" ") && CelSpaces(" ")
  {
  }
}
