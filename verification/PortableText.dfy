/** Accepted text of a valid leaf: what keeps it from consisting of CEL tokens. */
module PortableText {
  import opened Prelude
  import opened JsText
  import opened JsNumber
  import opened Condition
  import opened ConditionCel
  import opened CelTokens
  import opened CelReading
  import opened ParsedReading

  // ---------------------------------------------------------------------------
  // Portable text, piece by piece.

  lemma {:induction false} SpacesPortable(p: string, b: string)
    requires Spaces(p)
    ensures Portable(p + b, false) <==> CelSpaces(p) && Portable(b, false)
    decreases |p|
  {
    if p == "" {
      assert p + b == b;
    } else {
      var t := p + b;
      assert t[0] == p[0] && t[1..] == p[1..] + b && IsSpace(p[0]);
      assert CelSpaces(p) <==> IsCelSpace(p[0]) && CelSpaces(p[1..]) by {
        assert forall i :: 0 < i < |p| ==> p[i] == p[1..][i - 1];
      }
      assert Portable(t, false) <==> IsCelSpace(p[0]) && Portable(t[1..], false);
      hide Portable, IsSpace, IsCelSpace;
      SpacesPortable(p[1..], b);
    }
  }

  /** Neither white space nor a quotation mark. */
  predicate Solid(s: string) {
    forall i :: 0 <= i < |s| ==> s[i] != '"' && !IsSpace(s[i])
  }

  lemma {:induction false} SolidPortable(s: string, b: string)
    requires Solid(s)
    ensures Portable(s + b, false) <==> Portable(b, false)
    decreases |s|
  {
    if s == "" {
      assert s + b == b;
    } else {
      var t := s + b;
      assert t[0] == s[0] && t[1..] == s[1..] + b;
      assert Portable(t, false) <==> Portable(t[1..], false);
      hide Portable, IsSpace;
      SolidPortable(s[1..], b);
    }
  }

  lemma {:induction false} PlainPortable(c: string, b: string)
    requires PlainText(c)
    ensures Portable(c + b, true) <==> Portable(b, true)
    decreases |c|
  {
    if c == "" {
      assert c + b == b;
    } else {
      var t := c + b;
      assert t[0] == c[0] && t[1..] == c[1..] + b && IsPlainChar(c[0]);
      assert Portable(t, true) <==> Portable(t[1..], true);
      hide Portable, IsPlainChar;
      PlainPortable(c[1..], b);
    }
  }

  lemma MarkPortable(b: string)
    ensures Portable("\"" + b, false) <==> Portable(b, true)
    ensures Portable("\"" + b, true) <==> Portable(b, false)
  {
    assert ("\"" + b)[1..] == b;
  }

  lemma WordsAreSolid()
    ensures forall w: string :: IsWord(w) ==> Solid(w)
    ensures forall op :: Solid(CompareText(op))
    ensures Solid(IN_CIDR) && Solid(TIMESTAMP) && Solid(")")
  {
    assert forall c :: IsWordChar(c) ==> !IsSpace(c);
  }

  lemma QuotedCallPortable(c: string, b: string)
    requires PlainText(c)
    ensures Portable(Quote(c) + ")" + b, false) <==> Portable(b, false)
  {
    QuoteOfPlain(c);
    WordsAreSolid();
    var u := "\"" + (")" + b);
    assert Quote(c) + ")" + b == "\"" + (c + u);
    hide *;
    MarkPortable(c + u);
    PlainPortable(c, u);
    MarkPortable(")" + b);
    SolidPortable(")", b);
  }

  lemma PaddingPortable(right: string)
    requires Spaces(right)
    ensures Lexes(right, Within) <==> CelSpaces(right)
    ensures Portable(right, false) <==> CelSpaces(right)
    ensures Apart(right)
  {
    assert right + "" == right;
    assert Lexes("", Within) && Portable("", false);
    hide Lexes, Portable, IsCelSpace;
    SpacesThen(right, "", Within);
    SpacesPortable(right, "");
  }

  // ---------------------------------------------------------------------------
  // Right-hand sides.

  lemma JsonEscapes(t: string)
    requires t != "" && t[0] == '\\' && EscapeAt(t).Some?
    ensures EscapeLength(t) == if t[1] == '/' then 0 else EscapeAt(t).value.1
  {
    if t[1] == 'u' {
      var h := t[2..6];
      assert h[0] == t[2] && h[1] == t[3] && h[2] == t[4] && h[3] == t[5];
    }
  }

  lemma HexPortable(u: string)
    requires |u| >= 4 && Hex4(u[..4]) >= 0
    ensures Portable(u, true) <==> Portable(u[4..], true)
  {
    var h := u[..4];
    assert HexValue(h[0]) >= 0 && HexValue(h[1]) >= 0 && HexValue(h[2]) >= 0 && HexValue(h[3]) >= 0;
    hide Hex4;
    assert u[1..][1..] == u[2..] && u[2..][1..] == u[3..] && u[3..][1..] == u[4..];
    assert Portable(u, true) == Portable(u[1..], true);
    assert Portable(u[1..], true) == Portable(u[2..], true);
    assert Portable(u[2..], true) == Portable(u[3..], true);
    assert Portable(u[3..], true) == Portable(u[4..], true);
  }

  lemma JsonEscapePortable(t: string)
    requires t != "" && t[0] == '\\' && EscapeAt(t).Some?
    ensures var n := EscapeAt(t).value.1;
            n <= |t| && (Portable(t, true) <==> t[1] != '/' && Portable(t[n..], true))
  {
    var u := t[2..];
    assert Portable(t, true) <==> t[1] != '/' && Portable(u, true);
    hide Portable, Hex4, HexValue;
    if t[1] == 'u' {
      assert u[..4] == t[2..6] && u[4..] == t[6..];
      HexPortable(u);
    }
  }

  /** One escape, read by JSON: both readings go on after it, or refuse its solidus. */
  lemma EscapeThen(t: string)
    requires t != "" && t[0] == '\\' && EscapeAt(t).Some?
    ensures var n := EscapeAt(t).value.1;
            && n <= |t|
            && (Lexes(t, InString) <==> t[1] != '/' && Lexes(t[n..], InString))
            && (Portable(t, true) <==> t[1] != '/' && Portable(t[n..], true))
  {
    assert EscapeAt(t).value.1 > 0;
    JsonEscapes(t);
    JsonEscapePortable(t);
    hide EscapeAt, EscapeLength, Portable;
  }

  /** A string that JSON reads is a CEL string exactly when no solidus in it is escaped. */
  lemma {:induction false} JsonThen(t: string)
    requires UnquoteBody(t).Some?
    ensures var rest := UnquoteBody(t).value.1;
            && (Lexes(t, InString) ==> Lexes(rest, Within))
            && (Portable(t, true) ==> Portable(rest, false))
            && (Lexes(rest, Within) && Portable(rest, false) ==> (Lexes(t, InString) <==> Portable(t, true)))
    decreases |t|
  {
    if t[0] == '\\' {
      var n := EscapedChar(t).value.1;
      assert UnquoteBody(t).value.1 == UnquoteBody(t[n..]).value.1;
      hide EscapedChar, EscapeAt, EscapeLength, Portable, Lexes;
      PairOfEscapes(t);
      EscapeThen(t);
      if n != EscapeAt(t).value.1 {
        EscapeThen(t[6..]);
        assert t[6..][6..] == t[12..] && t[6..][1] == t[7];
      }
      JsonThen(t[n..]);
    } else if t[0] != '"' {
      JsonThen(t[1..]);
    }
  }

  lemma SameEscapedChar(t: string, b: string)
    requires t != "" && t[0] == '\\' && EscapedChar(t).Some?
    ensures (t + b)[0] == '\\' && EscapedChar(t + b) == EscapedChar(t)
  {
    hide EscapeAt;
    PairOfEscapes(t);
    SameEscape(t, t + b, EscapeAt(t).value.1);
    if EscapedChar(t).value.1 != EscapeAt(t).value.1 {
      assert (t + b)[6..] == t[6..] + b;
      SameEscape(t[6..], t[6..] + b, 6);
    }
  }

  /** The text read is followed by what it is followed by. */
  lemma {:induction false} UnquoteBefore(t: string, b: string)
    requires UnquoteBody(t).Some?
    ensures UnquoteBody(t + b).Some? && UnquoteBody(t + b).value.1 == UnquoteBody(t).value.1 + b
    decreases |t|
  {
    assert (t + b)[0] == t[0] && (t + b)[1..] == t[1..] + b;
    if t[0] == '\\' {
      var n := EscapedChar(t).value.1;
      SameEscapedChar(t, b);
      assert (t + b)[n..] == t[n..] + b;
      hide EscapedChar;
      UnquoteBefore(t[n..], b);
    } else if t[0] != '"' {
      UnquoteBefore(t[1..], b);
    }
  }

  lemma StringPortable(rhs: string, right: string)
    requires rhs != "" && rhs[0] == '"' && Unquote(rhs).Some? && Spaces(right)
    ensures Lexes(rhs + right, Within) <==> Portable(rhs + right, false)
  {
    var body := rhs[1..];
    assert UnquoteBody(body).Some? && UnquoteBody(body).value.1 == "";
    var t := body + right;
    assert "" + right == right && rhs + right == "\"" + t;
    hide *;
    UnquoteBefore(body, right);
    PaddingPortable(right);
    JsonThen(t);
    MarkThen(t, Within);
    MarkPortable(t);
  }

  lemma WordPortable(w: string, right: string)
    requires IsWord(w) && Spaces(right)
    ensures Lexes(w + right, Within) <==> IsCelOperand(w) && Portable(w + right, false)
  {
    WordsAreSolid();
    hide IsWord, Lexes, Portable, CelSpaces, IsCelOperand;
    PaddingPortable(right);
    OperandThen(w, right);
    SolidPortable(w, right);
  }

  lemma RunIsSolid(s: string)
    requires NumberRun(s)
    ensures Solid(s)
  {
  }

  lemma LiteralPortable(rhs: string, t: ParamType, right: string)
    requires ParseCelLiteral(rhs, t).Some? && Spaces(right)
    ensures Lexes(rhs + right, Within) <==> Portable(rhs + right, false)
  {
    if t.Str? {
      assert rhs != "" && rhs[0] == '"' && Unquote(rhs).Some?;
      hide *;
      StringPortable(rhs, right);
    } else if t.Bool? {
      LiteralWords();
      hide IsWord, IsCelOperand, Lexes, Portable;
      WordPortable(rhs, right);
    } else {
      hide Scan, Lexes, Portable, CelSpaces;
      NumberThen(rhs, "");
      RunIsSolid(rhs);
      PaddingPortable(right);
      NumberThen(rhs, right);
      SolidPortable(rhs, right);
    }
  }

  lemma EnclosedIsQuoted(s: string, open: string, c: string)
    requires Enclosed(s, open) == Some(c) && PlainText(c)
    ensures s == open + Quote(c) + ")"
  {
    hide Enclosed, PlainText, QuoteBody;
    var inside := EnclosedText(s, open);
    QuoteOfPlain(c);
    assert open + ("\"" + (c + "\")")) == open + ("\"" + c + "\"") + ")";
  }

  lemma CallBefore(a: string, open: string, quoted: string, b: string)
    ensures a + (open + quoted + ")") + b == a + (open + (quoted + ")" + b))
    ensures open + quoted + ")" + b == open + (quoted + ")" + b)
  {
  }

  lemma TimePortable(rhs: string, text: string, right: string)
    requires Enclosed(rhs, TIMESTAMP) == Some(text) && PlainText(text) && Spaces(right)
    ensures Lexes(rhs + right, Within) <==> Portable(rhs + right, false)
  {
    var call := Quote(text) + ")" + right;
    WordsAreSolid();
    hide *;
    EnclosedIsQuoted(rhs, TIMESTAMP, text);
    CallBefore("", TIMESTAMP, Quote(text), right);
    PaddingPortable(right);
    TimeThen(text, right);
    SolidPortable(TIMESTAMP, call);
    QuotedCallPortable(text, right);
  }

  /** The name on the right, if there is one, is an operand to CEL. */
  ghost predicate NamedRight(leaf: Leaf) {
    leaf.TimeLeaf? && leaf.rhs.TimeParam? ==> IsCelOperand(leaf.rhs.param)
  }

  lemma ValidTextIsPlain(params: seq<Param>, leaf: Leaf)
    requires ValidLeaf(params, leaf)
    ensures leaf.TimeLeaf? && leaf.rhs.TimeLiteral? ==> PlainText(leaf.rhs.rfc3339)
    ensures leaf.IpLeaf? ==> PlainText(leaf.cidr)
  {
    hide IsCidr, IsRfc3339, PlainText;
    match leaf
    case TimeLeaf(_, _, TimeLiteral(text)) => Rfc3339IsPlain(text);
    case IpLeaf(_, cidr) => CidrIsPlain(cidr);
    case _ =>
  }

  lemma RhsPortable(param: string, op: CompareOp, rhs: string, params: seq<Param>, right: string)
    requires ParseRhs(param, op, rhs, params).Some? && ValidLeaf(params, ParseRhs(param, op, rhs, params).value)
    requires Spaces(right)
    ensures Lexes(rhs + right, Within) <==>
            NamedRight(ParseRhs(param, op, rhs, params).value) && Portable(rhs + right, false)
  {
    var leaf := ParseRhs(param, op, rhs, params).value;
    ValidTextIsPlain(params, leaf);
    hide ParseCelLiteral, Enclosed, Lexes, Portable, IsCelOperand, PlainText, ValidLeaf, IsWord;
    if leaf.ValueLeaf? {
      LiteralPortable(rhs, ParamTypeOf(params, param).value, right);
    } else if leaf.rhs.TimeLiteral? {
      TimePortable(rhs, leaf.rhs.rfc3339, right);
    } else {
      WordPortable(rhs, right);
    }
  }

  // ---------------------------------------------------------------------------
  // Whole leaves.

  lemma ComparisonPortable(param: string, gap: string, op: CompareOp, next: string, rest: string)
    requires IsWord(param) && Spaces(gap) && Spaces(next)
    ensures Portable(param + (gap + (CompareText(op) + (next + rest))), false) <==>
            CelSpaces(gap) && CelSpaces(next) && Portable(rest, false)
  {
    var u := next + rest;
    var v := CompareText(op) + u;
    WordsAreSolid();
    assert Solid(CompareText(op));
    hide *;
    SolidPortable(param, gap + v);
    SpacesPortable(gap, v);
    SolidPortable(CompareText(op), u);
    SpacesPortable(next, rest);
  }

  lemma OperatorIsText(s: string)
    requires ParseOperator(s).Some?
    ensures var (op, after) := ParseOperator(s).value; s == CompareText(op) + after
  {
  }

  lemma {:induction false} TrimStartTwice(s: string)
    ensures TrimStart(TrimStart(s)) == TrimStart(s)
  {
    if s != "" && IsSpace(s[0]) {
      TrimStartTwice(s[1..]);
    }
  }

  /** The pieces of an accepted comparison after its parameter. */
  lemma ComparisonPieces(param: string, s: string, params: seq<Param>)
    returns (gap: string, op: CompareOp, next: string, rhs: string, pad: string)
    requires ParseComparison(param, s, params).Some?
    ensures s == gap + (CompareText(op) + (next + (rhs + pad))) && Spaces(gap) && Spaces(next) && Spaces(pad)
    ensures ParseRhs(param, op, rhs, params) == ParseComparison(param, s, params)
  {
    var found := ParseOperator(TrimStart(s)).value;
    op := found.0;
    var rest := TrimStart(found.1);
    rhs := Trim(rest);
    assert ParseRhs(param, op, rhs, params) == ParseComparison(param, s, params);
    assert Trim(rest) == TrimEnd(TrimStart(rest));
    hide ParseRhs, ParseComparison, ParseOperator, TrimStart, TrimEnd, Trim, CompareText, Spaces;
    gap := LeadingSpaces(s);
    OperatorIsText(TrimStart(s));
    next := LeadingSpaces(found.1);
    TrimStartTwice(found.1);
    pad := TrailingSpaces(rest);
  }

  lemma ComparisonLexes(param: string, s: string, params: seq<Param>, right: string)
    requires IsWord(param) && ParseComparison(param, s, params).Some? && Spaces(right)
    requires ValidLeaf(params, ParseComparison(param, s, params).value)
    ensures var leaf := ParseComparison(param, s, params).value;
            Lexes(param + s + right, Before) <==>
              IsCelName(param) && NamedRight(leaf) && Portable(param + s + right, false)
  {
    hide *;
    var gap, op, next, rhs, pad := ComparisonPieces(param, s, params);
    var rest := rhs + (pad + right);
    Regrouped(param, gap, CompareText(op), next, rhs, pad, right);
    SpacesConcat(pad, right);
    RhsPortable(param, op, rhs, params, pad + right);
    ComparisonThen(param, gap, op, next, rest);
    ComparisonPortable(param, gap, op, next, rest);
  }

  lemma SpacesConcat(a: string, b: string)
    requires Spaces(a) && Spaces(b)
    ensures Spaces(a + b)
  {
  }

  lemma Regrouped(a: string, b: string, c: string, d: string, e: string, f: string, g: string)
    ensures a + (b + (c + (d + (e + f)))) + g == a + (b + (c + (d + (e + (f + g)))))
  {
  }

  lemma AddressLexes(param: string, s: string, cidr: string, right: string)
    requires IsWord(param) && Enclosed(s, IN_CIDR) == Some(cidr) && PlainText(cidr) && Spaces(right)
    ensures Lexes(param + s + right, Before) <==> IsCelName(param) && Portable(param + s + right, false)
  {
    var call := Quote(cidr) + ")" + right;
    WordsAreSolid();
    hide *;
    EnclosedIsQuoted(s, IN_CIDR, cidr);
    CallBefore(param, IN_CIDR, Quote(cidr), right);
    AddressThen(param, cidr, right);
    PaddingPortable(right);
    SolidPortable(param, IN_CIDR + call);
    SolidPortable(IN_CIDR, call);
    QuotedCallPortable(cidr, right);
  }

  lemma LeafPieces(s: string, params: seq<Param>) returns (word: string, rest: string)
    requires ParseLeaf(s, params).Some?
    ensures s == word + rest && IsWord(word) && ParseLeaf(s, params).value.param == word
    ensures match Enclosed(rest, IN_CIDR)
            case Some(cidr) => ParseLeaf(s, params).value == IpLeaf(word, cidr)
            case None => ParseComparison(word, rest, params) == ParseLeaf(s, params)
  {
    var w := WordLength(s);
    word, rest := s[..w], s[w..];
    hide Enclosed, WordLength, ParseOperator, ParseCelLiteral;
  }

  /** Accepted text of a valid leaf, with the white space after it, consists of CEL tokens exactly when the names in
      it are CEL names, the white space is CEL white space, and no solidus is escaped. */
  lemma LeafPortable(s: string, params: seq<Param>, right: string)
    requires ParseLeaf(s, params).Some? && ValidLeaf(params, ParseLeaf(s, params).value) && Spaces(right)
    ensures Lexes(s + right, Before) <==> NamedLeaf(ParseLeaf(s, params).value) && Portable(s + right, false)
  {
    var leaf := ParseLeaf(s, params).value;
    assert NamedLeaf(leaf) <==> IsCelName(leaf.param) && NamedRight(leaf);
    assert leaf.IpLeaf? ==> NamedRight(leaf);
    ValidTextIsPlain(params, leaf);
    hide *;
    var word, rest := LeafPieces(s, params);
    if Enclosed(rest, IN_CIDR).Some? {
      AddressLexes(word, rest, leaf.cidr, right);
    } else {
      ComparisonLexes(word, rest, params, right);
    }
  }

  // ---------------------------------------------------------------------------
  // Whole texts.

  lemma PartPortable(raw: string, params: seq<Param>)
    requires ParseLeaf(Trim(raw), params).Some? && ValidLeaf(params, ParseLeaf(Trim(raw), params).value)
    ensures Lexes(raw, Before) <==> NamedLeaf(ParseLeaf(Trim(raw), params).value) && Portable(raw, false)
  {
    assert Trim(raw) == TrimEnd(TrimStart(raw));
    hide *;
    var left := LeadingSpaces(raw);
    var right := TrailingSpaces(TrimStart(raw));
    var s := Trim(raw);
    LeafPortable(s, params, right);
    SpacesThen(left, s + right, Before);
    SpacesPortable(left, s + right);
  }

  /** Where the scanner reads to, portability is that of the two halves. */
  lemma {:induction false} PortableConcat(a: string, b: string, depth: nat, inQuote: bool)
    requires ScanTo(a, depth, inQuote).Some?
    ensures Portable(a + b, inQuote) <==> Portable(a, inQuote) && Portable(b, ScanTo(a, depth, inQuote).value.1)
    decreases |a|
  {
    if a == "" {
      assert a + b == b;
    } else {
      assert (a + b)[0] == a[0] && (a + b)[1..] == a[1..] + b;
      hide IsSpace, IsCelSpace;
      if inQuote && a[0] == '\\' {
        assert (a + b)[1] == a[1] && (a + b)[2..] == a[2..] + b;
        PortableConcat(a[2..], b, depth, true);
      } else if inQuote {
        PortableConcat(a[1..], b, depth, a[0] != '"');
      } else if a[0] == '"' {
        PortableConcat(a[1..], b, depth, true);
      } else if a[0] == '(' {
        PortableConcat(a[1..], b, depth + 1, false);
      } else if a[0] == ')' {
        PortableConcat(a[1..], b, depth - 1, false);
      } else {
        PortableConcat(a[1..], b, depth, false);
      }
    }
  }

  lemma OperatorPortable(rest: string)
    requires StartsWithOp(rest, And) || StartsWithOp(rest, Or)
    ensures Portable(rest, false) <==> Portable(rest[2..], false)
  {
    assert rest[1..][1..] == rest[2..] && !IsSpace('&') && !IsSpace('|');
    hide IsSpace;
    assert Portable(rest, false) == Portable(rest[1..], false);
  }

  /** The loop splits outside quotes only. */
  lemma {:induction false} SplitOutsideQuotes(t: string, depth: nat, inQuote: bool)
    requires NextSplit(t, depth, inQuote) < |t|
    requires ScanTo(t[..NextSplit(t, depth, inQuote)], depth, inQuote).Some?
    ensures !ScanTo(t[..NextSplit(t, depth, inQuote)], depth, inQuote).value.1
    decreases |t|
  {
    hide NextSplit;
    NextSplitMoves(t, depth, inQuote);
    var n := NextSplit(t, depth, inQuote);
    if !SplitsHere(t, depth, inQuote) {
      var (k, d, q) := Consumed(t, depth, inQuote);
      assert t[..n][0] == t[0] && t[..n][k..] == t[k..][..n - k];
      SplitOutsideQuotes(t[k..], d, q);
    } else {
      assert t[..n] == "";
    }
  }

  lemma PortableSplit(t: string, params: seq<Param>, e: nat, u: string)
    requires e == NextSplit(t, 0, false) && e + 2 <= |t| && u == t[e + 2..]
    requires ParseLeaf(Trim(t[..e]), params).Some?
    ensures Portable(t, false) <==> Portable(t[..e], false) && Portable(u, false)
  {
    var (raw, rest) := (t[..e], t[e..]);
    assert t == raw + rest && rest[2..] == u;
    hide *;
    LeafScans(Trim(raw), params);
    PaddedScans(raw);
    SplitOutsideQuotes(t, 0, false);
    SplitIsAtOp(t, 0, false);
    PortableConcat(raw, rest, 0, false);
    OperatorPortable(rest);
  }

  ghost predicate AllNamedLeaves(leaves: seq<Leaf>) {
    forall leaf :: leaf in leaves ==> NamedLeaf(leaf)
  }

  lemma NamedCons(leaf: Leaf, rest: seq<Leaf>)
    ensures AllNamedLeaves([leaf] + rest) <==> NamedLeaf(leaf) && AllNamedLeaves(rest)
  {
    hide NamedLeaf;
    assert forall l :: l in [leaf] + rest <==> l == leaf || l in rest;
  }

  lemma {:induction false} PartsPortable(t: string, params: seq<Param>)
    requires ParseLeaves(TextParts(t), params).Some?
    requires forall leaf :: leaf in ParseLeaves(TextParts(t), params).value ==> ValidLeaf(params, leaf)
    ensures PartsLex(t) <==> AllNamedLeaves(ParseLeaves(TextParts(t), params).value) && Portable(t, false)
    decreases |t|
  {
    hide *;
    var e := NextSplit(t, 0, false);
    PartsStep(t, And);
    PartsLexStep(t);
    var leaf, rest := FirstLeaf(TextParts(t), params);
    assert leaf in [leaf] + rest && forall l :: l in rest ==> l in [leaf] + rest;
    PartPortable(t[..e], params);
    NamedCons(leaf, rest);
    if e == |t| {
      assert t[..e] == t;
      NoParts(params);
    } else {
      var u := t[e + 2..];
      PortableSplit(t, params, e, u);
      PartsPortable(u, params);
    }
  }

  lemma NoParts(params: seq<Param>)
    ensures ParseLeaves([], params) == Some([]) && AllNamedLeaves([])
  {
  }
}
