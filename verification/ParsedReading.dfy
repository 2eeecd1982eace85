/** Text that the condition parser accepts, whoever wrote it, read by the CEL grammar. */
module ParsedReading {
  import opened Prelude
  import opened JsText
  import opened JsNumber
  import opened Condition
  import opened ConditionCel
  import opened CelTokens
  import opened CelReading

  // ---------------------------------------------------------------------------
  // White space.

  lemma {:induction false} SpacesScan(p: string, depth: nat, inQuote: bool)
    requires Spaces(p)
    ensures ScanTo(p, depth, inQuote) == Some((depth, inQuote))
    decreases |p|
  {
    if p != "" {
      assert IsSpace(p[0]);
      SpacesScan(p[1..], depth, inQuote);
    }
  }

  lemma {:induction false} LeadingSpaces(s: string) returns (left: string)
    ensures s == left + TrimStart(s) && Spaces(left)
    ensures TrimStart(s) == "" || !IsSpace(TrimStart(s)[0])
  {
    left := "";
    if s != "" && IsSpace(s[0]) {
      hide IsSpace;
      var l := LeadingSpaces(s[1..]);
      left := [s[0]] + l;
    }
  }

  lemma {:induction false} TrailingSpaces(s: string) returns (right: string)
    ensures s == TrimEnd(s) + right && Spaces(right)
    decreases |s|
  {
    right := "";
    if s != "" && IsSpace(s[|s| - 1]) {
      hide IsSpace;
      var r := TrailingSpaces(s[..|s| - 1]);
      right := r + [s[|s| - 1]];
    }
  }

  lemma {:induction false} TrimStartAfter(left: string, x: string)
    requires Spaces(left)
    ensures TrimStart(left + x) == TrimStart(x)
    decreases |left|
  {
    if left == "" {
      assert left + x == x;
    } else {
      assert (left + x)[0] == left[0] && (left + x)[1..] == left[1..] + x;
      hide IsSpace;
      TrimStartAfter(left[1..], x);
    }
  }

  // ---------------------------------------------------------------------------
  // A comparison that parses opens every parenthesis it closes, and has no operator outside quotes.

  lemma ScanPast(a: string, b: string)
    requires Inert(a)
    ensures ScanTo(a + b, 0, false) == ScanTo(b, 0, false)
  {
    ScanInert(a, 0);
    ScanConcat(a, b, 0, false);
  }

  lemma ScanPastSpaces(a: string, b: string)
    requires Spaces(a)
    ensures ScanTo(a + b, 0, false) == ScanTo(b, 0, false)
  {
    SpacesScan(a, 0, false);
    ScanConcat(a, b, 0, false);
  }

  /** The end of a call, from inside its string: a backslash at the end of the text hides the quotation mark. */
  lemma {:induction false} CallEnds(c: string, depth: nat)
    requires '"' !in c
    ensures ScanTo(c + "\")", depth + 1, true).Some?
    decreases |c|
  {
    var t := c + "\")";
    assert ScanTo("", depth, false).Some? && ScanTo("", depth + 1, true).Some?;
    assert ")"[1..] == "";
    if c == "" {
      assert t[1..] == ")";
    } else if c[0] == '\\' && |c| == 1 {
      assert t[2..] == ")";
    } else if c[0] == '\\' {
      assert t[2..] == c[2..] + "\")";
      CallEnds(c[2..], depth);
    } else {
      assert t[1..] == c[1..] + "\")";
      CallEnds(c[1..], depth);
    }
  }

  lemma CallTail(rest: string, q: nat)
    requires q + 2 == |rest| && rest[q] == '"' && rest[q + 1] == ')'
    ensures rest == rest[..q] + "\")"
  {
  }

  lemma PrefixSplits(s: string, p: string)
    requires HasPrefix(s, p)
    ensures s == p + s[|p|..]
  {
  }

  lemma EnclosedText(s: string, open: string) returns (c: string)
    requires Enclosed(s, open).Some?
    ensures s == open + ("\"" + (c + "\")")) && '"' !in c && Enclosed(s, open) == Some(c)
  {
    var p := open + "\"";
    var rest := s[|open| + 1..];
    var q := IndexOf(rest, '"');
    c := rest[..q];
    hide Enclosed, HasPrefix, IndexOf;
    PrefixSplits(s, p);
    CallTail(rest, q);
    ConcatAssociates(open, "\"", c + "\")");
  }

  /** An inert word and an opening parenthesis. */
  ghost predicate CallHead(open: string) {
    open != "" && open[|open| - 1] == '(' && Inert(open[..|open| - 1])
  }

  lemma HeadScans(open: string, rest: string)
    requires CallHead(open)
    ensures ScanTo(open + rest, 0, false) == ScanTo(rest, 1, false)
  {
    var word := open[..|open| - 1];
    ScanPast(word, "(" + rest);
    assert open + rest == word + ("(" + rest);
    assert ("(" + rest)[1..] == rest;
  }

  lemma EnclosedScans(s: string, open: string)
    requires Enclosed(s, open).Some? && CallHead(open)
    ensures ScanTo(s, 0, false).Some?
  {
    hide *;
    var c := EnclosedText(s, open);
    HeadScans(open, "\"" + (c + "\")"));
    QuoteOpens(c + "\")", 1);
    CallEnds(c, 0);
  }

  lemma QuoteOpens(t: string, depth: nat)
    ensures ScanTo("\"" + t, depth, false) == ScanTo(t, depth, true)
  {
    assert ("\"" + t)[1..] == t;
  }

  lemma CallHeads()
    ensures CallHead(IN_CIDR) && CallHead(TIMESTAMP)
  {
  }

  lemma HexScans(u: string, depth: nat)
    requires |u| >= 4 && Hex4(u[..4]) >= 0
    ensures ScanTo(u, depth, true) == ScanTo(u[4..], depth, true)
  {
    var h := u[..4];
    assert HexValue(h[0]) >= 0 && HexValue(h[1]) >= 0 && HexValue(h[2]) >= 0 && HexValue(h[3]) >= 0;
    assert u[1..][1..] == u[2..] && u[2..][1..] == u[3..] && u[3..][1..] == u[4..];
    assert ScanTo(u, depth, true) == ScanTo(u[1..], depth, true);
    assert ScanTo(u[1..], depth, true) == ScanTo(u[2..], depth, true);
    assert ScanTo(u[2..], depth, true) == ScanTo(u[3..], depth, true);
  }

  lemma EscapeScans(t: string, depth: nat)
    requires t != "" && t[0] == '\\' && EscapeAt(t).Some?
    ensures var n := EscapeAt(t).value.1;
            n <= |t| && ScanTo(t, depth, true) == ScanTo(t[n..], depth, true)
  {
    if t[1] == 'u' {
      assert t[2..][..4] == t[2..6] && t[2..][4..] == t[6..];
      hide Hex4;
      HexScans(t[2..], depth);
    }
  }

  /** A pair of surrogate escapes is two escapes, one after the other. */
  lemma PairOfEscapes(t: string)
    requires t != "" && t[0] == '\\' && EscapedChar(t).Some?
    ensures EscapeAt(t).Some?
    ensures var n := EscapedChar(t).value.1;
            (n == EscapeAt(t).value.1 && !IsHighSurrogate(EscapeAt(t).value.0)) ||
            (n == 12 <= |t| && EscapeAt(t).value.1 == 6 && t[1] == 'u' && t[6] == '\\' && EscapeAt(t[6..]).Some?
              && EscapeAt(t[6..]).value.1 == 6 && t[7] == 'u')
  {
    hide Hex4;
  }

  /** Where JSON.parse reads a string, the scanner reads the same quotation. */
  lemma {:induction false} UnquoteScans(t: string, depth: nat)
    requires UnquoteBody(t).Some?
    ensures ScanTo(t, depth, true) == ScanTo(UnquoteBody(t).value.1, depth, false)
    decreases |t|
  {
    if t[0] == '\\' {
      var n := EscapedChar(t).value.1;
      assert UnquoteBody(t).value.1 == UnquoteBody(t[n..]).value.1;
      hide EscapedChar, EscapeAt, ScanTo;
      PairOfEscapes(t);
      EscapeScans(t, depth);
      if n != EscapeAt(t).value.1 {
        EscapeScans(t[6..], depth);
        assert t[6..][6..] == t[12..];
      }
      UnquoteScans(t[n..], depth);
    } else if t[0] != '"' {
      UnquoteScans(t[1..], depth);
    }
  }

  lemma NumberTextInert(s: string)
    requires Scan(s).Some?
    ensures Inert(s)
  {
    hide Scan, Lexes;
    NumberThen(s, "");
  }

  lemma LiteralTextScans(rhs: string, t: ParamType)
    requires ParseCelLiteral(rhs, t).Some?
    ensures ScanTo(rhs, 0, false).Some?
  {
    if t.Str? {
      UnquoteScans(rhs[1..], 0);
    } else if t.Bool? {
      ScanInert(rhs, 0);
    } else {
      NumberTextInert(rhs);
      ScanInert(rhs, 0);
    }
  }

  lemma RhsScans(param: string, op: CompareOp, rhs: string, params: seq<Param>)
    requires ParseRhs(param, op, rhs, params).Some?
    ensures ScanTo(rhs, 0, false).Some?
  {
    var t := ParamTypeOf(params, param).value;
    if t.Timestamp? {
      if Enclosed(rhs, TIMESTAMP).Some? {
        hide *;
        CallHeads();
        EnclosedScans(rhs, TIMESTAMP);
      } else {
        ScanInert(rhs, 0);
      }
    } else {
      LiteralTextScans(rhs, t);
    }
  }

  lemma OperatorText(s: string) returns (symbol: string)
    requires ParseOperator(s).Some?
    ensures s == symbol + ParseOperator(s).value.1 && Inert(symbol)
  {
    symbol := s[..|s| - |ParseOperator(s).value.1|];
  }

  lemma ComparisonTextScans(param: string, s: string, params: seq<Param>)
    requires ParseComparison(param, s, params).Some?
    ensures ScanTo(s, 0, false).Some?
  {
    var (op, after) := ParseOperator(TrimStart(s)).value;
    var rest := TrimStart(after);
    var rhs := Trim(rest);
    assert ParseRhs(param, op, rhs, params).Some?;
    hide *;
    RhsScans(param, op, rhs, params);
    PaddedScans(rest);
    var gap := LeadingSpaces(after);
    ScanPastSpaces(gap, rest);
    var symbol := OperatorText(TrimStart(s));
    ScanPast(symbol, after);
    var left := LeadingSpaces(s);
    ScanPastSpaces(left, TrimStart(s));
  }

  lemma PaddedScans(s: string)
    requires ScanTo(Trim(s), 0, false).Some?
    ensures ScanTo(s, 0, false).Some?
  {
    assert Trim(s) == TrimEnd(TrimStart(s));
    hide *;
    var left := LeadingSpaces(s);
    var right := TrailingSpaces(TrimStart(s));
    ScanPastSpaces(left, TrimStart(s));
    ScanConcat(Trim(s), right, 0, false);
    var (d, q) := ScanTo(Trim(s), 0, false).value;
    SpacesScan(right, d, q);
  }

  lemma LeafScans(s: string, params: seq<Param>)
    requires ParseLeaf(s, params).Some?
    ensures ScanTo(s, 0, false).Some? && s != "" && IsWordChar(s[0])
  {
    var w := WordLength(s);
    var (word, rest) := (s[..w], s[w..]);
    assert s == word + rest;
    WordPrefixInert(word);
    assert Enclosed(rest, IN_CIDR).None? ==> ParseComparison(word, rest, params).Some?;
    assert IsWordChar(s[0]);
    hide *;
    ScanPast(word, rest);
    if Enclosed(rest, IN_CIDR).Some? {
      CallHeads();
      EnclosedScans(rest, IN_CIDR);
    } else {
      ComparisonTextScans(word, rest, params);
    }
  }

  lemma WordPrefixInert(word: string)
    requires forall i :: 0 <= i < |word| ==> IsWordChar(word[i])
    ensures Inert(word)
  {
  }

  // ---------------------------------------------------------------------------
  // Where the text is split.

  /** How many characters the loop consumes next, and in which state it goes on. */
  function Consumed(t: string, depth: int, inQuote: bool): (r: (nat, int, bool))
    requires t != ""
    ensures 0 < r.0 <= |t|
  {
    if inQuote then
      if t[0] == '\\' then (if |t| < 2 then 1 else 2, depth, true) else (1, depth, t[0] != '"')
    else if t[0] == '"' then (1, depth, true)
    else if t[0] == '(' then (1, depth + 1, false)
    else if t[0] == ')' then (1, depth - 1, false)
    else (1, depth, false)
  }

  predicate SplitsHere(t: string, depth: int, inQuote: bool) {
    !inQuote && depth == 0 && |t| >= 2 && (t[0] == '&' || t[0] == '|') && t[1] == t[0]
  }

  /** Length of t up to its next split, as the loop decides it. */
  function NextSplit(t: string, depth: int, inQuote: bool): (n: nat)
    ensures n <= |t|
    decreases |t|
  {
    if t == "" || SplitsHere(t, depth, inQuote) then 0
    else
      var (k, d, q) := Consumed(t, depth, inQuote);
      k + NextSplit(t[k..], d, q)
  }

  lemma {:induction false} NextSplitMoves(t: string, depth: int, inQuote: bool)
    ensures NextSplit(t, depth, inQuote) ==
            if t == "" || SplitsHere(t, depth, inQuote) then 0
            else var (k, d, q) := Consumed(t, depth, inQuote); k + NextSplit(t[k..], d, q)
  {
    hide Consumed, SplitsHere;
  }

  lemma {:induction false} SplitIsAtOp(t: string, depth: int, inQuote: bool)
    ensures var n := NextSplit(t, depth, inQuote);
            n < |t| ==> StartsWithOp(t[n..], And) || StartsWithOp(t[n..], Or)
    decreases |t|
  {
    if t != "" && !SplitsHere(t, depth, inQuote) {
      var (k, d, q) := Consumed(t, depth, inQuote);
      hide Consumed, SplitsHere, StartsWithOp;
      SplitIsAtOp(t[k..], d, q);
      assert t[k..][NextSplit(t[k..], d, q)..] == t[NextSplit(t, depth, inQuote)..];
    }
  }

  /** The comparison that the grammar reads ends at the split, unless the text closes what it did not open. */
  lemma {:induction false} AtomIsPart(t: string, depth: nat, inQuote: bool)
    requires ScanTo(t[..NextSplit(t, depth, inQuote)], depth, inQuote).Some?
    ensures AtomLength(t, depth, inQuote) == NextSplit(t, depth, inQuote)
    decreases |t|
  {
    hide NextSplit;
    NextSplitMoves(t, depth, inQuote);
    if t != "" && !SplitsHere(t, depth, inQuote) {
      var (k, d, q) := Consumed(t, depth, inQuote);
      var n := NextSplit(t, depth, inQuote);
      assert t[..n][0] == t[0] && t[..n][k..] == t[k..][..n - k];
      AtomIsPart(t[k..], d, q);
    }
  }

  lemma {:induction false} SplitAfterSpaces(left: string, u: string)
    requires Spaces(left)
    ensures NextSplit(left + u, 0, false) == |left| + NextSplit(u, 0, false)
    decreases |left|
  {
    if left == "" {
      assert left + u == u;
    } else {
      var t := left + u;
      assert IsSpace(left[0]) && t[0] == left[0] && t[1..] == left[1..] + u;
      assert !SplitsHere(t, 0, false) && Consumed(t, 0, false) == (1, 0, false);
      hide *;
      NextSplitMoves(t, 0, false);
      SplitAfterSpaces(left[1..], u);
    }
  }

  function OpAt(t: string): LogicOp {
    if StartsWithOp(t, And) then And else Or
  }

  /** What is left to do once the loop has reached a split or the end. */
  function AtSplit(body: string, e: nat, start: nat, seen: Option<LogicOp>, done: seq<string>): Option<(LogicOp,
      seq<string>)>
    requires start <= e <= |body|
  {
    if e == |body| then Some((if seen.Some? then seen.value else And, done + [Trim(body[start..])]))
    else SplitFrom(body, e, 0, false, start, seen, done)
  }

  lemma {:induction false} SplitFromMoves(body: string, i: nat, depth: int, inQuote: bool, start: nat,
      seen: Option<LogicOp>, done: seq<string>)
    requires start <= i < |body| && !SplitsHere(body[i..], depth, inQuote)
    ensures var (k, d, q) := Consumed(body[i..], depth, inQuote);
            SplitFrom(body, i, depth, inQuote, start, seen, done) == SplitFrom(body, i + k, d, q, start, seen, done)
  {
    var t := body[i..];
    assert t[0] == body[i] && (|t| >= 2 ==> t[1] == body[i + 1]);
    hide Trim;
    if inQuote && t[0] == '\\' && |t| == 1 {
      assert SplitFrom(body, i + 2, depth, true, start, seen, done) ==
        SplitFrom(body, i + 1, depth, true, start, seen, done);
    }
  }

  lemma {:induction false} SplitHasReached(body: string, i: nat, depth: int, inQuote: bool, start: nat,
      seen: Option<LogicOp>, done: seq<string>)
    requires start <= i <= |body| && (i == |body| || SplitsHere(body[i..], depth, inQuote))
    ensures SplitFrom(body, i, depth, inQuote, start, seen, done) == AtSplit(body, i, start, seen, done)
  {
    hide Trim;
  }

  lemma {:induction false} SplitReaches(body: string, t: string, i: nat, depth: int, inQuote: bool, start: nat,
      seen: Option<LogicOp>, done: seq<string>)
    requires start <= i <= |body| && t == body[i..]
    ensures SplitFrom(body, i, depth, inQuote, start, seen, done)
         == AtSplit(body, i + NextSplit(t, depth, inQuote), start, seen, done)
    decreases |t|
  {
    hide *;
    NextSplitMoves(t, depth, inQuote);
    if t == "" || SplitsHere(t, depth, inQuote) {
      SplitHasReached(body, i, depth, inQuote, start, seen, done);
    } else {
      var (k, d, q) := Consumed(t, depth, inQuote);
      var u := t[k..];
      assert u == body[i + k..];
      SplitFromMoves(body, i, depth, inQuote, start, seen, done);
      SplitReaches(body, u, i + k, d, q, start, seen, done);
    }
  }

  lemma SplitAtOp(body: string, e: nat, start: nat, seen: Option<LogicOp>, done: seq<string>)
    requires start <= e < |body| && (StartsWithOp(body[e..], And) || StartsWithOp(body[e..], Or))
    ensures var op := OpAt(body[e..]);
            SplitFrom(body, e, 0, false, start, seen, done) ==
            if seen.Some? && seen.value != op then None
            else SplitFrom(body, e + 2, 0, false, e + 2, Some(op), done + [Trim(body[start..e])])
  {
    assert body[e..][0] == body[e] && body[e..][1] == body[e + 1];
  }

  /** The parts of a text between its splits. */
  function TextParts(t: string): (parts: seq<string>)
    ensures parts != []
    decreases |t|
  {
    var e := NextSplit(t, 0, false);
    SplitIsAtOp(t, 0, false);
    if e == |t| then [Trim(t)] else [Trim(t[..e])] + TextParts(t[e + 2..])
  }

  predicate SeparatedBy(t: string, op: LogicOp)
    decreases |t|
  {
    var e := NextSplit(t, 0, false);
    SplitIsAtOp(t, 0, false);
    e < |t| ==> OpAt(t[e..]) == op && SeparatedBy(t[e + 2..], op)
  }

  lemma {:induction false} PartsStep(t: string, op: LogicOp)
    ensures var e := NextSplit(t, 0, false);
            && (e < |t| ==> e + 2 <= |t| && (StartsWithOp(t[e..], And) || StartsWithOp(t[e..], Or)))
            && TextParts(t) == [Trim(t[..e])] + (if e == |t| then [] else TextParts(t[e + 2..]))
            && (SeparatedBy(t, op) <==> e < |t| ==> OpAt(t[e..]) == op && SeparatedBy(t[e + 2..], op))
  {
    var e := NextSplit(t, 0, false);
    SplitIsAtOp(t, 0, false);
    hide NextSplit, Trim;
    assert e == |t| ==> t[..e] == t;
  }

  lemma {:induction false} SplitOnce(body: string, t: string, start: nat, seen: Option<LogicOp>, done: seq<string>)
    requires start <= |body| && t == body[start..]
    ensures var e := NextSplit(t, 0, false);
            && (e < |t| ==> e + 2 <= |t|)
            && SplitFrom(body, start, 0, false, start, seen, done) ==
               if e == |t| then Some((if seen.Some? then seen.value else And, done + [Trim(t)]))
               else if seen.Some? && seen.value != OpAt(t[e..]) then None
               else SplitFrom(body, start + e + 2, 0, false, start + e + 2, Some(OpAt(t[e..])), done + [Trim(t[..e])])
  {
    var e := NextSplit(t, 0, false);
    var at := start + e;
    hide SplitFrom, Trim, NextSplit, OpAt;
    SplitReaches(body, t, start, 0, false, start, seen, done);
    if e < |t| {
      SplitIsAtOp(t, 0, false);
      assert t[e..] == body[at..] && t[..e] == body[start..at];
      SplitAtOp(body, at, start, seen, done);
    }
  }

  /** The loop's answer: the parts, when one operator stands at every split. */
  lemma {:induction false} SplitFinds(body: string, t: string, start: nat, seen: Option<LogicOp>, done: seq<string>)
    requires start <= |body| && t == body[start..] && SplitFrom(body, start, 0, false, start, seen, done).Some?
    ensures var (op, parts) := SplitFrom(body, start, 0, false, start, seen, done).value;
            parts == done + TextParts(t) && SeparatedBy(t, op) && (seen.Some? ==> op == seen.value)
    decreases |t|
  {
    hide *;
    var e := NextSplit(t, 0, false);
    var op := SplitFrom(body, start, 0, false, start, seen, done).value.0;
    SplitOnce(body, t, start, seen, done);
    PartsStep(t, op);
    var first := [Trim(t[..e])];
    if e == |t| {
      assert t[..e] == t && first + [] == first;
    } else {
      var u := t[e + 2..];
      assert u == body[start + e + 2..];
      SplitFinds(body, u, start + e + 2, Some(OpAt(t[e..])), done + first);
      ConcatAssociates(done, first, TextParts(u));
    }
  }

  // ---------------------------------------------------------------------------
  // Reading the parts.

  lemma {:induction false} LeadingCelSpaces(t: string) returns (left: string)
    ensures t == left + SkipSpaces(t) && CelSpaces(left) && Spaces(left)
    ensures SkipSpaces(t) == "" || !IsCelSpace(SkipSpaces(t)[0])
  {
    left := "";
    if t != "" && IsCelSpace(t[0]) {
      assert IsSpace(t[0]);
      hide IsSpace, IsCelSpace;
      var l := LeadingCelSpaces(t[1..]);
      left := [t[0]] + l;
    }
  }

  lemma {:induction false} SkipSpacesTwice(t: string)
    ensures SkipSpaces(SkipSpaces(t)) == SkipSpaces(t)
  {
    if t != "" && IsCelSpace(t[0]) {
      SkipSpacesTwice(t[1..]);
    }
  }

  lemma SameReading(t: string, u: string, truth: string -> bool)
    requires u == SkipSpaces(t)
    ensures ReadPrimary(t, truth) == ReadPrimary(u, truth)
  {
    SkipSpacesTwice(t);
    hide SkipSpaces, ReadOr, AtomLength, TrimEnd, Lexes;
  }

  /** Text v that trims to a comparison starts with it, or with white space. */
  lemma PartStarts(v: string)
    requires Trim(v) != "" && IsWordChar(Trim(v)[0])
    ensures v != "" && v[0] != '(' && (IsSpace(v[0]) || Trim(v) == TrimEnd(v))
  {
    if v != "" && !IsSpace(v[0]) {
      var right := TrailingSpaces(v);
      assert TrimStart(v) == v;
    }
  }

  /** The grammar reads the text up to the next split as one comparison, where that text parses as one and consists
      of tokens. */
  lemma PartReads(t: string, params: seq<Param>, truth: string -> bool)
    requires ParseLeaf(Trim(t[..NextSplit(t, 0, false)]), params).Some?
    ensures var e := NextSplit(t, 0, false);
            ReadPrimary(t, truth) == if Lexes(t[..e], Before) then Some((truth(Trim(t[..e])), t[e..])) else None
  {
    hide *;
    var e := NextSplit(t, 0, false);
    var raw := t[..e];
    LeafScans(Trim(raw), params);
    PaddedScans(raw);
    var left := LeadingCelSpaces(t);
    var u := SkipSpaces(t);
    SplitAfterSpaces(left, u);
    var n := NextSplit(u, 0, false);
    var v := u[..n];
    assert raw == left + v && u[n..] == t[e..];
    ScanPastSpaces(left, v);
    AtomIsPart(u, 0, false);
    TrimAfter(left, v);
    PartStarts(v);
    SpacesThen(left, v, Before);
    if IsSpace(v[0]) {
      SpaceFirst(v, Before);
    }
    SameReading(t, u, truth);
    PrimaryIsAtom(u, n, truth);
  }

  lemma TrimAfter(left: string, v: string)
    requires Spaces(left)
    ensures Trim(left + v) == Trim(v)
  {
    hide Spaces, TrimStart, TrimEnd;
    TrimStartAfter(left, v);
  }

  /** Each text between splits consists of tokens. */
  predicate PartsLex(t: string)
    decreases |t|
  {
    var e := NextSplit(t, 0, false);
    SplitIsAtOp(t, 0, false);
    Lexes(t[..e], Before) && (e < |t| ==> PartsLex(t[e + 2..]))
  }

  lemma PartsLexStep(t: string)
    ensures var e := NextSplit(t, 0, false);
            && (e < |t| ==> e + 2 <= |t|)
            && (PartsLex(t) <==> Lexes(t[..e], Before) && (e < |t| ==> PartsLex(t[e + 2..])))
  {
    SplitIsAtOp(t, 0, false);
    hide NextSplit, Lexes;
  }

  /** What a comparison's text evaluates to when each leaf does so. */
  function Recognised(params: seq<Param>, truth: Leaf -> bool): string -> bool {
    (t: string) => match ParseLeaf(t, params) case Some(leaf) => truth(leaf) case None => false
  }

  function NodesOf(leaves: seq<Leaf>): seq<Node> {
    Map(leaves, AsNode)
  }

  lemma FirstLeaf(parts: seq<string>, params: seq<Param>) returns (leaf: Leaf, rest: seq<Leaf>)
    requires parts != [] && ParseLeaves(parts, params).Some?
    ensures ParseLeaf(parts[0], params) == Some(leaf) && ParseLeaves(parts[1..], params) == Some(rest)
    ensures ParseLeaves(parts, params) == Some([leaf] + rest)
    ensures NodesOf([leaf] + rest) == [LeafNode(leaf)] + NodesOf(rest)
  {
    leaf := ParseLeaf(parts[0], params).value;
    rest := ParseLeaves(parts[1..], params).value;
    MapCons(leaf, rest, AsNode);
  }

  lemma FirstNode(leaf: Leaf, rest: seq<Node>, truth: Leaf -> bool)
    ensures EvalAll([LeafNode(leaf)] + rest, truth) == (truth(leaf) && EvalAll(rest, truth))
    ensures EvalAny([LeafNode(leaf)] + rest, truth) == (truth(leaf) || EvalAny(rest, truth))
  {
    var nodes := [LeafNode(leaf)] + rest;
    assert nodes[0] == LeafNode(leaf) && nodes[1..] == rest;
  }

  lemma {:induction false} AndPartsRead(t: string, v: bool, params: seq<Param>, truth: Leaf -> bool)
    requires SeparatedBy(t, And) && ParseLeaves(TextParts(t), params).Some?
    ensures ReadAnd(v, t, Recognised(params, truth)) ==
            if !PartsLex(t) then None
            else Some((v && EvalAll(NodesOf(ParseLeaves(TextParts(t), params).value), truth), ""))
    decreases |t|
  {
    var known := Recognised(params, truth);
    var e := NextSplit(t, 0, false);
    PartsStep(t, And);
    PartsLexStep(t);
    var leaf, rest := FirstLeaf(TextParts(t), params);
    FirstNode(leaf, NodesOf(rest), truth);
    assert known(TextParts(t)[0]) == truth(leaf);
    assert e < |t| ==> StartsWithOp(t[e..], And);
    assert EvalAll([], truth) && NodesOf([]) == [] && ParseLeaves([], params) == Some([]);
    var w := v && truth(leaf);
    hide ReadPrimary, ReadAnd, TextParts, ParseLeaves, NextSplit, Trim, NodesOf, SeparatedBy;
    hide EvalAll, Recognised, PartsLex, Lexes;
    PartReads(t, params, known);
    if !Lexes(t[..e], Before) {
      AndFails(v, t, known);
    } else if e == |t| {
      assert t[e..] == "" && rest == [];
      AndEnds(v, t, truth(leaf), "", known);
    } else {
      var u := t[e + 2..];
      assert t[e..][2..] == u;
      AndGoesOn(v, t, truth(leaf), t[e..], u, known);
      AndPartsRead(u, w, params, truth);
    }
  }

  lemma {:induction false} OrPartsRead(t: string, v: bool, params: seq<Param>, truth: Leaf -> bool)
    requires SeparatedBy(t, Or) && ParseLeaves(TextParts(t), params).Some?
    ensures ReadOr(v, t, Recognised(params, truth)) ==
            if !PartsLex(t) then None
            else Some((v || EvalAny(NodesOf(ParseLeaves(TextParts(t), params).value), truth), ""))
    decreases |t|
  {
    var known := Recognised(params, truth);
    var e := NextSplit(t, 0, false);
    PartsStep(t, Or);
    PartsLexStep(t);
    var leaf, rest := FirstLeaf(TextParts(t), params);
    FirstNode(leaf, NodesOf(rest), truth);
    assert known(TextParts(t)[0]) == truth(leaf);
    assert e < |t| ==> StartsWithOp(t[e..], Or);
    assert !StartsWithOp(t[e..], And);
    assert !EvalAny([], truth) && NodesOf([]) == [] && ParseLeaves([], params) == Some([]);
    var w := v || truth(leaf);
    hide ReadPrimary, ReadAnd, ReadOr, TextParts, ParseLeaves, NextSplit, Trim, NodesOf, SeparatedBy;
    hide EvalAny, Recognised, PartsLex, Lexes;
    PartReads(t, params, known);
    if !Lexes(t[..e], Before) {
      AndFails(v, t, known);
    } else {
      AndEnds(true, t, truth(leaf), t[e..], known);
      if e == |t| {
        assert t[e..] == "" && rest == [];
        OrEnds(v, t, truth(leaf), "", known);
      } else {
        var u := t[e + 2..];
        assert t[e..][2..] == u;
        OrGoesOn(v, t, truth(leaf), t[e..], u, known);
        OrPartsRead(u, w, params, truth);
      }
    }
  }

  // Padding.

  lemma PartsAfterSpaces(left: string, t: string, op: LogicOp)
    requires Spaces(left)
    ensures TextParts(left + t) == TextParts(t) && (SeparatedBy(left + t, op) <==> SeparatedBy(t, op))
  {
    hide *;
    var (e, x) := (NextSplit(t, 0, false), left + t);
    SplitAfterSpaces(left, t);
    PartsStep(t, op);
    PartsStep(x, op);
    assert x[..|left| + e] == left + t[..e] && x[|left| + e..] == t[e..];
    TrimAfter(left, t[..e]);
    if e < |t| {
      assert x[|left| + e + 2..] == t[e + 2..];
    }
  }

  lemma {:induction false} SpacesDoNotSplit(p: string, depth: int, inQuote: bool)
    requires Spaces(p)
    ensures NextSplit(p, depth, inQuote) == |p|
    decreases |p|
  {
    if p != "" {
      assert IsSpace(p[0]);
      hide IsSpace;
      SpacesDoNotSplit(p[1..], depth, inQuote);
    }
  }

  /** White space at the end moves no split. */
  lemma {:induction false} SplitBeforeSpaces(t: string, right: string, depth: int, inQuote: bool)
    requires Spaces(right)
    ensures var e := NextSplit(t, depth, inQuote);
            NextSplit(t + right, depth, inQuote) == if e < |t| then e else |t| + |right|
    decreases |t|
  {
    var x := t + right;
    hide NextSplit;
    NextSplitMoves(t, depth, inQuote);
    NextSplitMoves(x, depth, inQuote);
    if t == "" {
      assert x == right;
      SpacesDoNotSplit(right, depth, inQuote);
    } else {
      SplitsHereBefore(t, right, depth, inQuote);
      if !SplitsHere(t, depth, inQuote) {
        var (k, d, q) := Consumed(t, depth, inQuote);
        if k == 1 && Consumed(x, depth, inQuote).0 == 2 {
          assert t[1..] == "" && x[2..] == right[1..];
          NextSplitMoves("", d, q);
          SpacesDoNotSplit(right[1..], d, q);
        } else {
          assert x[k..] == t[k..] + right;
          SplitBeforeSpaces(t[k..], right, d, q);
        }
      }
    }
  }

  lemma SplitsHereBefore(t: string, right: string, depth: int, inQuote: bool)
    requires Spaces(right) && t != ""
    ensures SplitsHere(t + right, depth, inQuote) <==> SplitsHere(t, depth, inQuote)
  {
    if |t| == 1 && right != "" {
      assert IsSpace(right[0]) && (t + right)[1] == right[0];
    }
  }

  lemma {:induction false} TrimEndBefore(s: string, right: string)
    requires Spaces(right)
    ensures TrimEnd(s + right) == TrimEnd(s)
    decreases |right|
  {
    if right == "" {
      assert s + right == s;
    } else {
      var init := right[..|right| - 1];
      assert (s + right)[|s + right| - 1] == right[|right| - 1] && (s + right)[..|s + right| - 1] == s + init;
      hide IsSpace;
      TrimEndBefore(s, init);
    }
  }

  lemma {:induction false} TrimStartOfSpaces(p: string)
    requires Spaces(p)
    ensures TrimStart(p) == ""
    decreases |p|
  {
    if p != "" {
      assert IsSpace(p[0]);
      hide IsSpace;
      TrimStartOfSpaces(p[1..]);
    }
  }

  lemma {:induction false} TrimBefore(s: string, right: string)
    requires Spaces(right)
    ensures Trim(s + right) == Trim(s)
    decreases |s|
  {
    if s == "" {
      assert s + right == right;
      TrimStartOfSpaces(right);
    } else if IsSpace(s[0]) {
      assert (s + right)[0] == s[0] && (s + right)[1..] == s[1..] + right;
      hide IsSpace, TrimEnd;
      TrimBefore(s[1..], right);
    } else {
      assert (s + right)[0] == s[0];
      hide IsSpace, TrimEnd;
      TrimEndBefore(s, right);
    }
  }

  lemma {:induction false} PartsBeforeSpaces(t: string, right: string, op: LogicOp)
    requires Spaces(right)
    ensures TextParts(t + right) == TextParts(t) && (SeparatedBy(t + right, op) <==> SeparatedBy(t, op))
    decreases |t|
  {
    hide *;
    var (e, x) := (NextSplit(t, 0, false), t + right);
    SplitBeforeSpaces(t, right, 0, false);
    PartsStep(t, op);
    PartsStep(x, op);
    if e == |t| {
      assert x[..|x|] == t[..e] + right;
      TrimBefore(t[..e], right);
    } else {
      var u := t[e + 2..];
      assert x[..e] == t[..e] && x[e + 2..] == u + right;
      assert x[e] == t[e] && x[e + 1] == t[e + 1];
      PartsBeforeSpaces(u, right, op);
      SameOp(t[e..], x[e..]);
    }
  }

  lemma SameOp(t: string, x: string)
    requires |t| >= 2 && |x| >= 2 && t[0] == x[0] && t[1] == x[1]
    ensures OpAt(t) == OpAt(x)
  {
  }

  /** The parts of a text are those of the trimmed text. */
  lemma TrimmedParts(body: string, op: LogicOp)
    ensures TextParts(body) == TextParts(Trim(body)) && (SeparatedBy(body, op) <==> SeparatedBy(Trim(body), op))
  {
    assert Trim(body) == TrimEnd(TrimStart(body));
    hide *;
    var left := LeadingSpaces(body);
    var right := TrailingSpaces(TrimStart(body));
    PartsAfterSpaces(left, TrimStart(body), op);
    PartsBeforeSpaces(Trim(body), right, op);
  }

  /** Accepted text: its parts parse, one operator stands at every split, and the tree is made of their leaves. */
  lemma AcceptedLeaves(name: string, params: seq<Param>, body: string) returns (op: LogicOp, leaves: seq<Leaf>)
    requires Parsed(name, params, body).Some?
    ensures ParseLeaves(TextParts(body), params) == Some(leaves) && leaves != []
    ensures SeparatedBy(body, op)
    ensures var def := Parsed(name, params, body).value;
            def.tree == (if |leaves| == 1 then LeafNode(leaves[0]) else GroupNode(op, Map(leaves, AsNode)))
              && def.params == params
  {
    var t := Trim(body);
    var found := SplitFrom(t, 0, 0, false, 0, None, []).value;
    op := found.0;
    assert t[0..] == t;
    SplitFinds(t, t, 0, None, []);
    assert found.1 == TextParts(t);
    leaves := ParseLeaves(found.1, params).value;
    TrimmedParts(body, op);
    hide SplitFrom, Trim, TextParts, ParseLeaf;
  }

  /** A conjunction that is read up to the end is the whole expression; one that is not read is none. */
  lemma WholeConjunction(t: string, b: Option<bool>, known: string -> bool)
    requires ReadAnd(true, t, known) == if b.Some? then Some((b.value, "")) else None
    ensures ReadCel(t, known) == b
  {
    hide ReadAnd;
  }

  lemma WholeDisjunction(t: string, b: Option<bool>, known: string -> bool)
    requires ReadOr(false, t, known) == if b.Some? then Some((b.value, "")) else None
    ensures ReadCel(t, known) == b
  {
    hide ReadOr;
  }

  lemma TreeMeans(op: LogicOp, leaves: seq<Leaf>, truth: Leaf -> bool)
    requires leaves != []
    ensures var tree := if |leaves| == 1 then LeafNode(leaves[0]) else GroupNode(op, Map(leaves, AsNode));
            Eval(tree, truth) == if op == And then EvalAll(NodesOf(leaves), truth) else EvalAny(NodesOf(leaves), truth)
  {
    if |leaves| == 1 {
      assert leaves == [leaves[0]] + [] && NodesOf(leaves) == [LeafNode(leaves[0])] + [];
      FirstNode(leaves[0], [], truth);
    }
  }

  /** Whatever text the parser accepts, the grammar reads it as the tree that the parser returns; or it does not read
      it at all, exactly when a text between its operators does not consist of CEL tokens. */
  lemma AcceptedTextMeansTree(name: string, params: seq<Param>, body: string, truth: Leaf -> bool)
    requires Parsed(name, params, body).Some?
    ensures ReadCel(body, Recognised(params, truth)) ==
            if PartsLex(body) then Some(Eval(Parsed(name, params, body).value.tree, truth)) else None
  {
    var known := Recognised(params, truth);
    var op, leaves := AcceptedLeaves(name, params, body);
    TreeMeans(op, leaves, truth);
    var nodes := NodesOf(leaves);
    hide *;
    if op == And {
      AndPartsRead(body, true, params, truth);
      WholeConjunction(body, if PartsLex(body) then Some(EvalAll(nodes, truth)) else None, known);
    } else {
      OrPartsRead(body, false, params, truth);
      WholeDisjunction(body, if PartsLex(body) then Some(EvalAny(nodes, truth)) else None, known);
    }
  }
}
