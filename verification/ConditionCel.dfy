/**
  Condition trees printed as CEL text, and the restricted subset of that text parsed back by a scanner
  that minds quotes and parentheses.
*/
module ConditionCel {
  import opened Prelude
  import opened JsNumber
  import opened JsText
  import opened Condition

  // ---------------------------------------------------------------------------
  // Printing.

  function CompareText(op: CompareOp): string {
    match op
    case Eq => "=="
    case Neq => "!="
    case Lt => "<"
    case Lte => "<="
    case Gt => ">"
    case Gte => ">="
  }

  function LogicChar(op: LogicOp): char {
    if op == And then '&' else '|'
  }

  function LogicText(op: LogicOp): string {
    [' ', LogicChar(op), LogicChar(op), ' ']
  }

  function CelLiteral(v: Value): string {
    match v
    case StringValue(text) => Quote(text)
    case NumberValue(number) => NumberString(number)
    case BoolValue(flag) => if flag then "true" else "false"
    case NullValue => "null"
  }

  const IN_CIDR: string := ".in_cidr("
  const TIMESTAMP: string := "timestamp("

  function LeafToCel(leaf: Leaf): string {
    match leaf
    case TimeLeaf(param, op, TimeLiteral(text)) => param + " " + CompareText(op) + " " + (TIMESTAMP + Quote(text) + ")")
    case TimeLeaf(param, op, TimeParam(other)) => param + " " + CompareText(op) + " " + other
    case IpLeaf(param, cidr) => param + (IN_CIDR + Quote(cidr) + ")")
    case ValueLeaf(param, op, value) => param + " " + CompareText(op) + " " + CelLiteral(value)
  }

  function Join(parts: seq<string>, sep: string): string
    requires parts != []
  {
    if |parts| == 1 then parts[0] else parts[0] + sep + Join(parts[1..], sep)
  }

  /** The root and one-child groups carry no parentheses. */
  function NodeToCel(node: Node, top: bool): string
    decreases node, 1
  {
    match node
    case LeafNode(leaf) => LeafToCel(leaf)
    case GroupNode(op, children) =>
      if children == [] then "true"
      else if |children| == 1 then NodeToCel(children[0], top)
      else
        var inner := Join(ChildTexts(children), LogicText(op));
        if top then inner else "(" + inner + ")"
  }

  function ChildTexts(children: seq<Node>): (texts: seq<string>)
    ensures |texts| == |children|
    decreases children, 0
  {
    if children == [] then [] else [NodeToCel(children[0], false)] + ChildTexts(children[1..])
  }

  // ---------------------------------------------------------------------------
  // Splitting at the top level.

  /** Reads t from a given nesting depth and quotation state. None when t closes a parenthesis it did not
      open, ends inside an escape, or has an & or | at depth 0 outside quotes. */
  function ScanTo(t: string, depth: nat, inQuote: bool): Option<(nat, bool)>
    decreases |t|
  {
    if t == "" then Some((depth, inQuote))
    else if inQuote then
      if t[0] == '\\' then (if |t| < 2 then None else ScanTo(t[2..], depth, true))
      else ScanTo(t[1..], depth, t[0] != '"')
    else if t[0] == '"' then ScanTo(t[1..], depth, true)
    else if t[0] == '(' then ScanTo(t[1..], depth + 1, false)
    else if t[0] == ')' then (if depth == 0 then None else ScanTo(t[1..], depth - 1, false))
    else if depth == 0 && (t[0] == '&' || t[0] == '|') then None
    else ScanTo(t[1..], depth, false)
  }

  /** Balanced text with no logical operator at its top level. */
  predicate Atomic(t: string) {
    ScanTo(t, 0, false) == Some((0, false))
  }

  function SplitFrom(body: string, i: nat, depth: int, inQuote: bool, start: nat, op: Option<LogicOp>,
      parts: seq<string>)
    : Option<(LogicOp, seq<string>)>
    requires start <= i && start <= |body|
    decreases |body| - i
  {
    if i >= |body| then Some((if op.Some? then op.value else And, parts + [Trim(body[start..])]))
    else if inQuote then
      if body[i] == '\\' then SplitFrom(body, i + 2, depth, true, start, op, parts)
      else SplitFrom(body, i + 1, depth, body[i] != '"', start, op, parts)
    else if body[i] == '"' then SplitFrom(body, i + 1, depth, true, start, op, parts)
    else if body[i] == '(' then SplitFrom(body, i + 1, depth + 1, false, start, op, parts)
    else if body[i] == ')' then SplitFrom(body, i + 1, depth - 1, false, start, op, parts)
    else if depth == 0 && (body[i] == '&' || body[i] == '|') && i + 1 < |body| && body[i + 1] == body[i] then
      var found := if body[i] == '&' then And else Or;
      if op.Some? && op.value != found then None
      else SplitFrom(body, i + 2, depth, false, i + 2, Some(found), parts + [Trim(body[start..i])])
    else SplitFrom(body, i + 1, depth, false, start, op, parts)
  }

  method TopLevelSplit(body: string) returns (r: Option<(LogicOp, seq<string>)>)
    ensures r == SplitFrom(body, 0, 0, false, 0, None, [])
  {
    var parts: seq<string> := [];
    var depth := 0;
    var inQuote := false;
    var start := 0;
    var op: Option<LogicOp> := None;
    var i := 0;
    while i < |body|
      invariant 0 <= i && start <= |body| && start <= i
      invariant SplitFrom(body, 0, 0, false, 0, None, []) == SplitFrom(body, i, depth, inQuote, start, op, parts)
      decreases |body| - i
    {
      var ch := body[i];
      if inQuote {
        if ch == '\\' {
          i := i + 2;
          continue;
        }
        if ch == '"' {
          inQuote := false;
        }
        i := i + 1;
        continue;
      }
      if ch == '"' {
        inQuote := true;
      } else if ch == '(' {
        depth := depth + 1;
      } else if ch == ')' {
        depth := depth - 1;
      } else if depth == 0 && (ch == '&' || ch == '|') && i + 1 < |body| && body[i + 1] == ch {
        var found := if ch == '&' then And else Or;
        if op.Some? && op.value != found {
          return None;
        }
        op := Some(found);
        parts := parts + [Trim(body[start..i])];
        i := i + 1;
        start := i + 1;
      }
      i := i + 1;
    }
    parts := parts + [Trim(body[start..])];
    return Some((if op.Some? then op.value else And, parts));
  }

  lemma {:induction false} ScanConcat(a: string, b: string, depth: nat, inQuote: bool)
    requires ScanTo(a, depth, inQuote).Some?
    ensures var (d, q) := ScanTo(a, depth, inQuote).value; ScanTo(a + b, depth, inQuote) == ScanTo(b, d, q)
    decreases |a|
  {
    if a == "" {
      assert a + b == b;
    } else {
      assert (a + b)[1..] == a[1..] + b;
      if inQuote && a[0] == '\\' {
        assert (a + b)[2..] == a[2..] + b;
        ScanConcat(a[2..], b, depth, true);
      } else if inQuote {
        ScanConcat(a[1..], b, depth, a[0] != '"');
      } else if a[0] == '"' {
        ScanConcat(a[1..], b, depth, true);
      } else if a[0] == '(' {
        ScanConcat(a[1..], b, depth + 1, false);
      } else if a[0] == ')' {
        ScanConcat(a[1..], b, depth - 1, false);
      } else {
        ScanConcat(a[1..], b, depth, false);
      }
    }
  }

  lemma {:induction false} ScanDeeper(t: string, depth: nat, inQuote: bool, k: nat)
    requires ScanTo(t, depth, inQuote).Some?
    ensures var (d, q) := ScanTo(t, depth, inQuote).value; ScanTo(t, depth + k, inQuote) == Some((d + k, q))
    decreases |t|
  {
    if t == "" {
    } else if inQuote && t[0] == '\\' {
      ScanDeeper(t[2..], depth, true, k);
    } else if inQuote {
      ScanDeeper(t[1..], depth, t[0] != '"', k);
    } else if t[0] == '"' {
      ScanDeeper(t[1..], depth, true, k);
    } else if t[0] == '(' {
      ScanDeeper(t[1..], depth + 1, false, k);
    } else if t[0] == ')' {
      ScanDeeper(t[1..], depth - 1, false, k);
    } else {
      ScanDeeper(t[1..], depth, false, k);
    }
  }

  /** Text with no quotation mark, parenthesis or logical character. */
  ghost predicate Inert(t: string) {
    forall i :: 0 <= i < |t| ==> t[i] != '"' && t[i] != '(' && t[i] != ')' && t[i] != '&' && t[i] != '|'
  }

  lemma {:induction false} ScanInert(t: string, depth: nat)
    requires Inert(t)
    ensures ScanTo(t, depth, false) == Some((depth, false))
    decreases |t|
  {
    if t != "" {
      ScanInert(t[1..], depth);
    }
  }

  lemma ScanQuoteChar(c: char, depth: nat)
    ensures ScanTo(QuoteChar(c), depth, true) == Some((depth, true))
  {
    var q := QuoteChar(c);
    if |q| == 6 {
      assert ScanTo(q[6..], depth, true) == Some((depth, true));
      assert ScanTo(q[5..], depth, true) == Some((depth, true));
      assert ScanTo(q[4..], depth, true) == Some((depth, true));
      assert ScanTo(q[3..], depth, true) == Some((depth, true));
      assert ScanTo(q[2..], depth, true) == Some((depth, true));
    } else if |q| == 2 {
      assert q[2..] == "";
    } else {
      assert q[1..] == "";
    }
  }

  lemma {:induction false} ScanQuoteBody(s: string, depth: nat)
    ensures ScanTo(QuoteBody(s), depth, true) == Some((depth, true))
  {
    if s != "" {
      ScanQuoteChar(s[0], depth);
      ScanConcat(QuoteChar(s[0]), QuoteBody(s[1..]), depth, true);
      ScanQuoteBody(s[1..], depth);
    }
  }

  /** A string literal is skipped, whatever characters it holds. */
  lemma ScanQuote(s: string, depth: nat)
    ensures ScanTo(Quote(s), depth, false) == Some((depth, false))
  {
    ScanQuoteBody(s, depth);
    ScanConcat(QuoteBody(s), "\"", depth, true);
    assert Quote(s)[1..] == QuoteBody(s) + "\"";
    assert "\""[1..] == "";
    assert ScanTo("\"", depth, true) == Some((depth, false));
  }

  lemma {:induction false} SplitSkips(body: string, i: nat, t: string, depth: nat, inQuote: bool,
                                      start: nat, op: Option<LogicOp>, parts: seq<string>)
    requires start <= i && i + |t| <= |body| && body[i..i + |t|] == t
    requires ScanTo(t, depth, inQuote).Some?
    ensures var (d, q) := ScanTo(t, depth, inQuote).value;
            SplitFrom(body, i, depth, inQuote, start, op, parts) == SplitFrom(body, i + |t|, d, q, start, op, parts)
    decreases |t|
  {
    if t != "" {
      assert body[i] == t[0];
      assert body[i + 1..i + |t|] == t[1..];
      if inQuote && t[0] == '\\' {
        assert body[i + 2..i + |t|] == t[2..];
        SplitSkips(body, i + 2, t[2..], depth, true, start, op, parts);
      } else if inQuote {
        SplitSkips(body, i + 1, t[1..], depth, t[0] != '"', start, op, parts);
      } else if t[0] == '"' {
        SplitSkips(body, i + 1, t[1..], depth, true, start, op, parts);
      } else if t[0] == '(' {
        SplitSkips(body, i + 1, t[1..], depth + 1, false, start, op, parts);
      } else if t[0] == ')' {
        SplitSkips(body, i + 1, t[1..], depth - 1, false, start, op, parts);
      } else {
        SplitSkips(body, i + 1, t[1..], depth, false, start, op, parts);
      }
    }
  }

  ghost predicate Leaflike(t: string) {
    Atomic(t) && Trimmed(t)
  }

  lemma SplitAtSeparator(body: string, j: nat, start: nat, op: LogicOp, seen: Option<LogicOp>, done: seq<string>)
    requires start <= j && j + 4 <= |body| && body[j..j + 4] == LogicText(op)
    requires seen == None || seen == Some(op)
    ensures SplitFrom(body, j, 0, false, start, seen, done)
         == SplitFrom(body, j + 4, 0, false, j + 3, Some(op), done + [Trim(body[start..j + 1])])
  {
    var sep := body[j..j + 4];
    assert body[j] == sep[0] && body[j + 1] == sep[1] && body[j + 2] == sep[2] && body[j + 3] == sep[3];
    assert SplitFrom(body, j, 0, false, start, seen, done) == SplitFrom(body, j + 1, 0, false, start, seen, done);
    var done' := done + [Trim(body[start..j + 1])];
    assert SplitFrom(body, j + 1, 0, false, start, seen, done) ==
      SplitFrom(body, j + 3, 0, false, j + 3, Some(op), done');
    assert SplitFrom(body, j + 3, 0, false, j + 3, Some(op), done') ==
      SplitFrom(body, j + 4, 0, false, j + 3, Some(op), done');
  }

  lemma SplitAtEnd(body: string, start: nat, seen: Option<LogicOp>, done: seq<string>)
    requires start <= |body|
    ensures SplitFrom(body, |body|, 0, false, start, seen, done)
         == Some((if seen.Some? then seen.value else And, done + [Trim(body[start..])]))
  {
  }

  lemma {:induction false} SplitRest(body: string, i: nat, start: nat, parts: seq<string>, op: LogicOp,
                                     seen: Option<LogicOp>, done: seq<string>)
    requires parts != [] && forall p :: p in parts ==> Leaflike(p)
    requires start <= i <= |body| && body[i..] == Join(parts, LogicText(op))
    requires forall c :: c in body[start..i] ==> IsSpace(c)
    requires seen == None || seen == Some(op)
    ensures SplitFrom(body, i, 0, false, start, seen, done)
         == Some((if |parts| > 1 || seen.Some? then op else And, done + parts))
    decreases |parts|
  {
    hide SplitFrom, Trim, ScanTo, Trimmed;
    var first := parts[0];
    var j := i + |first|;
    assert first in parts;
    var sep := LogicText(op);
    if |parts| == 1 {
      assert body[i..] == first;
      SplitSkips(body, i, first, 0, false, start, seen, done);
      SplitAtEnd(body, start, seen, done);
      assert body[start..] == body[start..i] + first + "";
      TrimPadding(body[start..i], first, "");
      assert parts == [first];
    } else {
      var rest := parts[1..];
      var tail := Join(rest, sep);
      Slices(body, i, first, sep, tail);
      SplitSkips(body, i, first, 0, false, start, seen, done);
      SplitAtSeparator(body, j, start, op, seen, done);
      assert body[j] == body[j..j + 4][0] == ' ' && body[j + 3] == body[j..j + 4][3] == ' ';
      assert body[start..j + 1] == body[start..i] + body[i..j] + [body[j]];
      TrimPadding(body[start..i], first, " ");
      assert body[j + 3..j + 4] == " ";
      SplitRest(body, j + 4, j + 3, rest, op, Some(op), done + [first]);
      ConcatAssociates(done, [first], rest);
      assert [first] + rest == parts;
    }
  }

  lemma Slices(body: string, i: nat, a: string, b: string, c: string)
    requires i <= |body| && body[i..] == a + b + c
    ensures i + |a| + |b| <= |body|
    ensures body[i..i + |a|] == a && body[i + |a|..i + |a| + |b|] == b && body[i + |a| + |b|..] == c
  {
    assert |body| - i == |body[i..]|;
    assert body[i..i + |a|] == body[i..][..|a|];
    assert body[i + |a|..i + |a| + |b|] == body[i..][|a|..|a| + |b|];
    assert body[i + |a| + |b|..] == body[i..][|a| + |b|..];
  }

  /** Leaf-like texts joined by one operator are split into exactly that operator and those texts, whatever
      their string literals hold; a single text counts as an "and" of one. */
  lemma SplitOfJoin(parts: seq<string>, op: LogicOp)
    requires parts != [] && forall p :: p in parts ==> Leaflike(p)
    ensures SplitFrom(Join(parts, LogicText(op)), 0, 0, false, 0, None, []) ==
            Some((if |parts| > 1 then op else And, parts))
  {
    var body := Join(parts, LogicText(op));
    assert body[0..] == body && body[0..0] == "";
    SplitRest(body, 0, 0, parts, op, None, []);
    assert [] + parts == parts;
  }

  // ---------------------------------------------------------------------------
  // Parsing one comparison.

  /** Length of the longest prefix of word characters. */
  function WordLength(s: string): (n: nat)
    ensures n <= |s|
    ensures forall i :: 0 <= i < n ==> IsWordChar(s[i])
    ensures n < |s| ==> !IsWordChar(s[n])
  {
    if s != "" && IsWordChar(s[0]) then 1 + WordLength(s[1..]) else 0
  }

  /** The inside of open"..."), when s is exactly that and the inside is non-empty and holds no quotation mark. */
  function Enclosed(s: string, open: string): Option<string> {
    if !HasPrefix(s, open + "\"") then None
    else
      var rest := s[|open| + 1..];
      var q := IndexOf(rest, '"');
      if q > 0 && q + 2 == |rest| && rest[q + 1] == ')' then Some(rest[..q]) else None
  }

  /** The comparison operator at the start of s, two-character ones first, and what follows it. */
  function ParseOperator(s: string): Option<(CompareOp, string)> {
    if |s| >= 2 && s[0] == '=' && s[1] == '=' then Some((Eq, s[2..]))
    else if |s| >= 2 && s[0] == '!' && s[1] == '=' then Some((Neq, s[2..]))
    else if |s| >= 2 && s[0] == '<' && s[1] == '=' then Some((Lte, s[2..]))
    else if |s| >= 2 && s[0] == '>' && s[1] == '=' then Some((Gte, s[2..]))
    else if |s| >= 1 && s[0] == '<' then Some((Lt, s[1..]))
    else if |s| >= 1 && s[0] == '>' then Some((Gt, s[1..]))
    else None
  }

  function ParamTypeOf(params: seq<Param>, name: string): Option<ParamType> {
    if params == [] then None
    else if params[0].name == name then Some(params[0].typ)
    else ParamTypeOf(params[1..], name)
  }

  predicate HasLineTerminator(s: string) {
    exists i :: 0 <= i < |s| && IsLineTerminator(s[i])
  }

  predicate IsIntegerText(s: string) {
    var digits := if s != "" && s[0] == '-' then s[1..] else s;
    digits != "" && AllDigits(digits)
  }

  function ParseCelLiteral(rhs: string, t: ParamType): Option<Value> {
    match t
    case Str =>
      if |rhs| >= 2 && rhs[0] == '"' && rhs[|rhs| - 1] == '"' && !HasLineTerminator(rhs) && Unquote(rhs).Some?
      then Some(StringValue(Unquote(rhs).value)) else None
    case Bool =>
      if rhs == "true" then Some(BoolValue(true)) else if rhs == "false" then Some(BoolValue(false)) else None
    case Int =>
      if IsIntegerText(rhs) && Scan(rhs).Some? then Some(NumberValue(ToNumber(Scan(rhs).value))) else None
    case Double =>
      if Scan(rhs).Some? then Some(NumberValue(ToNumber(Scan(rhs).value))) else None
    case _ => None
  }

  function ParseRhs(param: string, op: CompareOp, rhs: string, params: seq<Param>): Option<Leaf> {
    match ParamTypeOf(params, param)
    case Some(Timestamp) =>
      if op == Eq || op == Neq then None
      else if Enclosed(rhs, TIMESTAMP).Some? then Some(TimeLeaf(param, op, TimeLiteral(Enclosed(rhs, TIMESTAMP).value)))
      else if IsWord(rhs) && ParamTypeOf(params, rhs) == Some(Timestamp) then Some(TimeLeaf(param, op, TimeParam(rhs)))
      else None
    case Some(t) =>
      (match ParseCelLiteral(rhs, t)
       case Some(v) => Some(ValueLeaf(param, op, v))
       case None => None)
    case None => None
  }

  function ParseComparison(param: string, s: string, params: seq<Param>): Option<Leaf> {
    match ParseOperator(TrimStart(s))
    case None => None
    case Some((op, after)) =>
      var rest := TrimStart(after);
      if rest == "" || HasLineTerminator(rest) then None
      else ParseRhs(param, op, Trim(rest), params)
  }

  function ParseLeaf(s: string, params: seq<Param>): Option<Leaf> {
    var w := WordLength(s);
    if w == 0 then None
    else match Enclosed(s[w..], IN_CIDR)
      case Some(cidr) => if ParamTypeOf(params, s[..w]) == Some(IpAddress) then Some(IpLeaf(s[..w], cidr)) else None
      case None => ParseComparison(s[..w], s[w..], params)
  }

  function ParseLeaves(parts: seq<string>, params: seq<Param>): Option<seq<Leaf>> {
    if parts == [] then Some([])
    else match ParseLeaf(parts[0], params)
      case None => None
      case Some(leaf) =>
        match ParseLeaves(parts[1..], params)
        case None => None
        case Some(rest) => Some([leaf] + rest)
  }

  function AsNode(leaf: Leaf): Node {
    LeafNode(leaf)
  }

  function Parsed(name: string, params: seq<Param>, body: string): Option<ConditionDef> {
    match SplitFrom(Trim(body), 0, 0, false, 0, None, [])
    case None => None
    case Some((op, parts)) =>
      match ParseLeaves(parts, params)
      case None => None
      case Some(leaves) =>
        Some(ConditionDef(name, params, if |leaves| == 1 then LeafNode(leaves[0])
          else GroupNode(op, Map(leaves, AsNode))))
  }

  function Following(leaves: seq<Leaf>, rest: Option<seq<Leaf>>): Option<seq<Leaf>> {
    if rest.None? then None else Some(leaves + rest.value)
  }

  method TryParseCondition(name: string, params: seq<Param>, body: string) returns (r: Option<ConditionDef>)
    ensures r == Parsed(name, params, body)
  {
    var split := TopLevelSplit(Trim(body));
    if split.None? {
      return None;
    }
    var parts := split.value.1;
    var leaves: seq<Leaf> := [];
    assert parts[0..] == parts;
    assert forall r: seq<Leaf> :: [] + r == r;
    for i := 0 to |parts|
      invariant ParseLeaves(parts, params) == Following(leaves, ParseLeaves(parts[i..], params))
    {
      var leaf := ParseLeaf(parts[i], params);
      if leaf.None? {
        return None;
      }
      assert parts[i..][1..] == parts[i + 1..];
      ghost var before := leaves;
      leaves := leaves + [leaf.value];
      if ParseLeaves(parts[i + 1..], params).Some? {
        ConcatAssociates(before, [leaf.value], ParseLeaves(parts[i + 1..], params).value);
      }
    }
    assert leaves + [] == leaves;
    var tree := if |leaves| == 1 then LeafNode(leaves[0]) else GroupNode(split.value.0, Map(leaves, AsNode));
    return Some(ConditionDef(name, params, tree));
  }

  // ---------------------------------------------------------------------------
  // A printed leaf, scanned and parsed.

  /** Not lost in print: a string without raw line separators, a number that is not negative zero. */
  ghost predicate SurvivesValue(v: Value) {
    match v
    case StringValue(text) => LS !in text && PS !in text
    case NumberValue(number) => number != Zero(true)
    case BoolValue(_) => true
    case NullValue => false
  }

  ghost predicate Survives(leaf: Leaf) {
    leaf.ValueLeaf? ==> SurvivesValue(leaf.value)
  }

  lemma {:induction false} ParamTypeIsDeclared(params: seq<Param>, name: string)
    requires ValidParams(params)
    ensures forall u :: DeclaredAs(params, name, u) <==> ParamTypeOf(params, name) == Some(u)
  {
    if params != [] {
      var rest := params[1..];
      assert forall i :: 0 <= i < |rest| ==> rest[i] == params[i + 1];
      assert forall p :: p in params <==> p in rest || p == params[0];
      ParamTypeIsDeclared(rest, name);
      forall u ensures DeclaredAs(params, name, u) <==> ParamTypeOf(params, name) == Some(u) {
        assert DeclaredAs(params, name, u) <==> DeclaredAs(rest, name, u) || Param(name, u) == params[0];
      }
    }
  }

  lemma {:induction false} WordLengthOfWord(word: string, rest: string)
    requires IsWord(word)
    requires rest == "" || !IsWordChar(rest[0])
    ensures WordLength(word + rest) == |word|
    ensures (word + rest)[..|word|] == word && (word + rest)[|word|..] == rest
  {
    var s := word + rest;
    assert s[0] == word[0] && IsWordChar(word[0]);
    if |word| > 1 {
      assert s[1..] == word[1..] + rest;
      assert forall i :: 0 <= i < |word| - 1 ==> word[1..][i] == word[i + 1];
      WordLengthOfWord(word[1..], rest);
    } else {
      assert s[1..] == rest;
    }
  }

  lemma EnclosedReads(open: string, inside: string)
    requires inside != "" && '"' !in inside
    ensures Enclosed(open + ("\"" + inside + "\"") + ")", open) == Some(inside)
  {
    var s := open + ("\"" + inside + "\"") + ")";
    assert s == (open + "\"") + (inside + "\")");
    var rest := s[|open| + 1..];
    assert rest == inside + "\")";
    var q := IndexOf(rest, '"');
    assert rest[|inside|] == '"';
    assert q <= |inside|;
    assert rest[..q] == inside;
  }

  lemma PlainCharQuotes(c: char)
    requires IsPlainChar(c)
    ensures QuoteChar(c) == [c] && c != '"'
  {
  }

  lemma {:induction false} QuoteOfPlain(s: string)
    requires PlainText(s)
    ensures QuoteBody(s) == s && '"' !in s
  {
    if s != "" {
      assert PlainText(s[1..]) by {
        assert forall i :: 0 <= i < |s| - 1 ==> s[1..][i] == s[i + 1];
      }
      assert IsPlainChar(s[0]);
      hide IsPlainChar, PlainText, QuoteChar;
      PlainCharQuotes(s[0]);
      QuoteOfPlain(s[1..]);
      assert s == [s[0]] + s[1..];
    }
  }

  lemma TrimStartSpace(s: string)
    requires s != "" && !IsSpace(s[0])
    ensures TrimStart(" " + s) == s
  {
    assert (" " + s)[1..] == s;
  }

  lemma OperatorReads(op: CompareOp, after: string)
    requires after != "" && after[0] == ' '
    ensures ParseOperator(CompareText(op) + after) == Some((op, after))
    ensures !IsSpace((CompareText(op) + after)[0])
  {
    var s := CompareText(op) + after;
    assert s[|CompareText(op)|..] == after;
    assert s[|CompareText(op)|] == ' ';
  }

  lemma LeafAfterWord(word: string, rest: string, params: seq<Param>)
    requires IsWord(word) && rest != "" && !IsWordChar(rest[0]) && Enclosed(rest, IN_CIDR) == None
    ensures ParseLeaf(word + rest, params) == ParseComparison(word, rest, params)
  {
    hide Enclosed, ParseComparison, WordLength;
    WordLengthOfWord(word, rest);
  }

  lemma ComparisonAfterSpaces(param: string, s: string, op: CompareOp, after: string, rhs: string, params: seq<Param>)
    requires ParseOperator(TrimStart(s)) == Some((op, after)) && TrimStart(after) == rhs
    requires Trim(rhs) == rhs && rhs != ""
    ensures ParseComparison(param, s, params) ==
            if HasLineTerminator(rhs) then None else ParseRhs(param, op, rhs, params)
  {
    hide ParseRhs, ParseOperator, Trim, TrimStart, HasLineTerminator;
  }

  /** param, operator and right-hand side are read back as written. */
  lemma ComparisonReads(param: string, op: CompareOp, rhs: string, params: seq<Param>)
    requires IsWord(param) && Trimmed(rhs)
    ensures ParseLeaf(param + " " + CompareText(op) + " " + rhs, params) ==
            if HasLineTerminator(rhs) then None else ParseRhs(param, op, rhs, params)
  {
    var after := " " + rhs;
    var mid := CompareText(op) + after;
    var s := " " + mid;
    assert param + " " + CompareText(op) + " " + rhs == param + s;
    assert Enclosed(s, IN_CIDR) == None by {
      assert s[0] == ' ' && (IN_CIDR + "\"")[0] == '.';
    }
    assert !IsWordChar(s[0]) && rhs != "" && !IsSpace(rhs[0]) && mid != "";
    hide *;
    OperatorReads(op, after);
    TrimStartSpace(mid);
    TrimStartSpace(rhs);
    TrimPadding("", rhs, "");
    assert "" + rhs + "" == rhs;
    LeafAfterWord(param, s, params);
    ComparisonAfterSpaces(param, s, op, after, rhs, params);
  }

  lemma WordIsInert(s: string)
    requires IsWord(s)
    ensures Inert(s) && Trimmed(s) && !HasLineTerminator(s)
  {
    assert forall c :: IsWordChar(c) ==> !IsSpace(c);
    assert forall i :: 0 <= i < |s| ==> IsWordChar(s[i]);
  }

  lemma InertConcat(a: string, b: string)
    requires Inert(a) && Inert(b)
    ensures Inert(a + b)
  {
  }

  /** A call with one string literal scans as one piece. */
  lemma CallScans(prefix: string, text: string)
    requires Inert(prefix)
    ensures Atomic(prefix + "(" + Quote(text) + ")")
  {
    hide Quote, Inert;
    var call := "(" + (Quote(text) + ")");
    ScanQuote(text, 1);
    ScanConcat(Quote(text), ")", 1, false);
    assert ScanTo(")", 1, false) == Some((0, false)) by { assert ")"[1..] == ""; }
    assert call[1..] == Quote(text) + ")";
    assert ScanTo(call, 0, false) == Some((0, false));
    ScanInert(prefix, 0);
    ScanConcat(prefix, call, 0, false);
    assert prefix + "(" + Quote(text) + ")" == prefix + call;
  }

  /** Names are word characters, which is all that printing needs of a leaf. */
  ghost predicate Worded(leaf: Leaf) {
    IsWord(leaf.param) && (leaf.TimeLeaf? && leaf.rhs.TimeParam? ==> IsWord(leaf.rhs.param))
  }

  lemma NumberIsInert(x: JsDouble)
    ensures Inert(NumberString(x)) && Trimmed(NumberString(x)) && !HasLineTerminator(NumberString(x))
  {
    if x.Zero? || x.Finite? {
      NumberStringChars(x);
      hide NumberString;
      assert forall c :: IsNumberChar(c) ==> !IsSpace(c);
    }
  }

  lemma ComparisonPrefix(param: string, op: CompareOp)
    requires IsWord(param)
    ensures Inert(param + " " + CompareText(op) + " ")
  {
    WordIsInert(param);
    assert Inert(" ") && Inert(CompareText(op));
  }

  lemma TimeCallScans(param: string, op: CompareOp, text: string)
    requires IsWord(param)
    ensures Atomic(param + " " + CompareText(op) + " " + (TIMESTAMP + Quote(text) + ")"))
  {
    var lead := param + " " + CompareText(op) + " ";
    var prefix := lead + "timestamp";
    ComparisonPrefix(param, op);
    assert Inert("timestamp");
    InertConcat(lead, "timestamp");
    hide Quote, Atomic, Inert, CompareText;
    CallScans(prefix, text);
    assert lead + (TIMESTAMP + Quote(text) + ")") == prefix + "(" + Quote(text) + ")";
  }

  lemma CidrCallScans(param: string, cidr: string)
    requires IsWord(param)
    ensures Atomic(param + (IN_CIDR + Quote(cidr) + ")"))
  {
    var prefix := param + ".in_cidr";
    WordIsInert(param);
    assert Inert(".in_cidr");
    InertConcat(param, ".in_cidr");
    hide Quote, Atomic, Inert;
    CallScans(prefix, cidr);
    assert param + (IN_CIDR + Quote(cidr) + ")") == prefix + "(" + Quote(cidr) + ")";
  }

  lemma ComparisonScans(param: string, op: CompareOp, rhs: string)
    requires IsWord(param) && Atomic(rhs)
    ensures Atomic(param + " " + CompareText(op) + " " + rhs)
  {
    var prefix := param + " " + CompareText(op) + " ";
    ComparisonPrefix(param, op);
    hide ScanTo, Inert, CompareText;
    ScanInert(prefix, 0);
    ScanConcat(prefix, rhs, 0, false);
  }

  lemma TrimmedEnds(t: string)
    requires t != "" && IsWordChar(t[0]) && !IsSpace(t[|t| - 1])
    ensures Trimmed(t)
  {
  }

  /** Every printed leaf is balanced, has no operator outside its string literals, and is trimmed. */
  lemma LeafIsLeaflike(leaf: Leaf)
    requires Worded(leaf)
    ensures Leaflike(LeafToCel(leaf))
    ensures IsWordChar(LeafToCel(leaf)[0])
  {
    hide Atomic, IsSpace, Trimmed, CompareText, CelLiteral, Quote;
    var t := LeafToCel(leaf);
    assert t[0] == leaf.param[0] && IsWordChar(t[0]);
    NoSpaceAtEnd(')');
    match leaf
    case TimeLeaf(param, op, TimeLiteral(text)) =>
      TimeCallScans(param, op, text);
      TrimmedEnds(t);
    case TimeLeaf(param, op, TimeParam(other)) =>
      WordScans(other);
      ComparisonScans(param, op, other);
      assert t[|t| - 1] == other[|other| - 1];
      TrimmedEnds(t);
    case IpLeaf(param, cidr) =>
      CidrCallScans(param, cidr);
      TrimmedEnds(t);
    case ValueLeaf(param, op, value) =>
      LiteralScans(value);
      ComparisonScans(param, op, CelLiteral(value));
      LastIsNoSpace(CelLiteral(value));
      assert t[|t| - 1] == CelLiteral(value)[|CelLiteral(value)| - 1];
      TrimmedEnds(t);
  }

  lemma NoSpaceAtEnd(c: char)
    requires c == ')'
    ensures !IsSpace(c)
  {
  }

  lemma LastIsNoSpace(t: string)
    requires Trimmed(t)
    ensures t != "" && !IsSpace(t[|t| - 1])
  {
  }

  lemma WordScans(s: string)
    requires IsWord(s)
    ensures Atomic(s) && s != "" && !IsSpace(s[|s| - 1])
  {
    WordIsInert(s);
    ScanInert(s, 0);
  }

  lemma LiteralScans(value: Value)
    ensures Leaflike(CelLiteral(value))
  {
    match value
    case StringValue(text) =>
      ScanQuote(text, 0);
    case NumberValue(number) =>
      NumberIsInert(number);
      ScanInert(NumberString(number), 0);
    case _ =>
      ScanInert(CelLiteral(value), 0);
  }

  lemma {:induction false} QuotedLineTerminators(s: string)
    ensures HasLineTerminator(QuoteBody(s)) <==> LS in s || PS in s
  {
    if s != "" {
      var q, rest := QuoteChar(s[0]), QuoteBody(s[1..]);
      QuotedLineTerminators(s[1..]);
      LineTerminatorsOf(q, rest);
      QuotedCharTerminators(s[0]);
    }
  }

  lemma LineTerminatorsOf(a: string, b: string)
    ensures HasLineTerminator(a + b) <==> HasLineTerminator(a) || HasLineTerminator(b)
  {
    if HasLineTerminator(a) {
      var i :| 0 <= i < |a| && IsLineTerminator(a[i]);
      assert IsLineTerminator((a + b)[i]);
    } else if HasLineTerminator(b) {
      var i :| 0 <= i < |b| && IsLineTerminator(b[i]);
      assert IsLineTerminator((a + b)[|a| + i]);
    }
  }

  lemma QuotedCharTerminators(c: char)
    ensures HasLineTerminator(QuoteChar(c)) <==> c == LS || c == PS
  {
    var q := QuoteChar(c);
    if c == LS || c == PS {
      assert IsLineTerminator(q[0]);
    }
  }

  /** A fitting value is read back exactly when it survives printing. */
  lemma LiteralReads(value: Value, t: ParamType)
    requires ValueFits(value, t)
    ensures Leaflike(CelLiteral(value))
    ensures !HasLineTerminator(CelLiteral(value)) && ParseCelLiteral(CelLiteral(value), t) == Some(value) <==>
            SurvivesValue(value)
  {
    LiteralScans(value);
    match value
    case StringValue(text) =>
      UnquoteQuote(text);
      QuotedLineTerminators(text);
      LineTerminatorsOf("\"", QuoteBody(text));
      LineTerminatorsOf("\"" + QuoteBody(text), "\"");
    case NumberValue(number) =>
      NumberIsInert(number);
      NumberStringReads(number);
      if t == Int {
        IntegerText(number);
      }
    case _ =>
  }

  lemma IntegerText(x: JsDouble)
    requires IsSafeInteger(x)
    ensures IsIntegerText(NumberString(x))
  {
    if x.Finite? {
      var text := x.digits + Zeros(x.n - |x.digits|);
      assert NumberString(x) == (if x.negative then "-" else "") + text;
      assert AllDigits(text) && text[0] != '-';
      if x.negative {
        assert NumberString(x)[1..] == text;
      } else {
        assert NumberString(x) == text;
      }
    }
  }

  lemma TimeParamReads(param: string, op: OrderOp, other: string, params: seq<Param>)
    requires IsWord(param) && IsWord(other)
    requires ParamTypeOf(params, param) == Some(Timestamp) && ParamTypeOf(params, other) == Some(Timestamp)
    ensures var leaf := TimeLeaf(param, op, TimeParam(other)); ParseLeaf(LeafToCel(leaf), params) == Some(leaf)
  {
    WordIsInert(other);
    NotACall(other, TIMESTAMP);
    hide IsWord, Enclosed, HasLineTerminator, Trimmed, Inert, ParseLeaf, ParamTypeOf, CompareText;
    ComparisonReads(param, op, other, params);
  }

  lemma IpReads(param: string, cidr: string, params: seq<Param>)
    requires IsWord(param) && IsCidr(cidr) && ParamTypeOf(params, param) == Some(IpAddress)
    ensures var leaf := IpLeaf(param, cidr); ParseLeaf(LeafToCel(leaf), params) == Some(leaf)
  {
    hide IsCidr, PlainText, QuoteBody, IsWord, ParamTypeOf, WordLength, Enclosed;
    CidrIsPlain(cidr);
    QuoteOfPlain(cidr);
    EnclosedReads(IN_CIDR, cidr);
    var call := IN_CIDR + Quote(cidr) + ")";
    assert call[0] == '.';
    WordLengthOfWord(param, call);
    WordNotEmpty(param);
  }

  lemma WordNotEmpty(s: string)
    requires IsWord(s)
    ensures s != ""
  {
  }

  lemma ValueReads(param: string, op: CompareOp, value: Value, t: ParamType, params: seq<Param>)
    requires IsWord(param) && ParamTypeOf(params, param) == Some(t) && ValueFits(value, t)
    ensures var leaf := ValueLeaf(param, op, value);
            ParseLeaf(LeafToCel(leaf), params) == Some(leaf) <==> Survives(leaf)
  {
    hide IsWord, ParamTypeOf, ParseLeaf, ParseCelLiteral, CelLiteral, CompareText, HasLineTerminator;
    hide SurvivesValue, Trimmed, Atomic;
    LiteralReads(value, t);
    ComparisonReads(param, op, CelLiteral(value), params);
  }

  /** A valid leaf is read back exactly when its value survives printing. */
  lemma LeafReads(leaf: Leaf, params: seq<Param>)
    requires ValidParams(params) && ValidLeaf(params, leaf)
    ensures Worded(leaf)
    ensures ParseLeaf(LeafToCel(leaf), params) == Some(leaf) <==> Survives(leaf)
  {
    ParamTypeIsDeclared(params, leaf.param);
    DeclaredIsWord(params, leaf.param);
    if leaf.TimeLeaf? && leaf.rhs.TimeParam? {
      ParamTypeIsDeclared(params, leaf.rhs.param);
      DeclaredIsWord(params, leaf.rhs.param);
    }
    hide ParseLeaf, LeafToCel, IsWord, ParamTypeOf, DeclaredAs, IsCidr, IsRfc3339, ValidParams, ValueFits;
    match leaf
    case TimeLeaf(param, op, TimeLiteral(text)) => TimeLiteralReads(param, op, text, params);
    case TimeLeaf(param, op, TimeParam(other)) => TimeParamReads(param, op, other, params);
    case IpLeaf(param, cidr) => IpReads(param, cidr, params);
    case ValueLeaf(param, op, value) =>
      var t :| DeclaredAs(params, param, t) && ValueFits(value, t);
      ValueReads(param, op, value, t, params);
  }

  lemma DeclaredIsWord(params: seq<Param>, name: string)
    requires ValidParams(params)
    ensures (exists t :: DeclaredAs(params, name, t)) ==> IsWord(name)
  {
    hide IsWord;
    if t :| DeclaredAs(params, name, t) {
      assert IsConditionName(Param(name, t).name);
    }
  }

  lemma NotACall(word: string, open: string)
    requires IsWord(word) && (open == TIMESTAMP || open == IN_CIDR)
    ensures Enclosed(word, open) == None
  {
    assert (open + "\"")[|open|] == '"';
  }

  lemma PlainCall(text: string)
    requires text != "" && PlainText(text)
    ensures var rhs := TIMESTAMP + Quote(text) + ")";
            !HasLineTerminator(rhs) && Trimmed(rhs) && Enclosed(rhs, TIMESTAMP) == Some(text)
  {
    hide Enclosed, PlainText, HasLineTerminator, IsSpace, QuoteBody;
    QuoteOfPlain(text);
    var rhs := TIMESTAMP + ("\"" + text + "\"") + ")";
    EnclosedReads(TIMESTAMP, text);
    CallTrimmed(rhs);
    hide Quote;
    PlainHasNoTerminator(text);
    NoTerminators();
    LineTerminatorsOf(TIMESTAMP + "\"", text);
    LineTerminatorsOf(TIMESTAMP + "\"" + text, "\")");
    assert rhs == TIMESTAMP + "\"" + text + "\")";
  }

  lemma CallTrimmed(t: string)
    requires t != "" && t[0] == 't' && t[|t| - 1] == ')'
    ensures Trimmed(t)
  {
  }

  lemma NoTerminators()
    ensures !HasLineTerminator(TIMESTAMP + "\"") && !HasLineTerminator("\")")
  {
  }

  lemma TimeLiteralReads(param: string, op: OrderOp, text: string, params: seq<Param>)
    requires IsWord(param) && IsRfc3339(text) && ParamTypeOf(params, param) == Some(Timestamp)
    ensures var leaf := TimeLeaf(param, op, TimeLiteral(text)); ParseLeaf(LeafToCel(leaf), params) == Some(leaf)
  {
    Rfc3339IsPlain(text);
    PlainCall(text);
    hide Quote, IsRfc3339, Enclosed, HasLineTerminator, Trimmed, ParseLeaf;
    ComparisonReads(param, op, TIMESTAMP + Quote(text) + ")", params);
  }

  lemma PlainHasNoTerminator(s: string)
    requires PlainText(s)
    ensures !HasLineTerminator(s)
  {
    assert forall c :: IsPlainChar(c) ==> !IsLineTerminator(c);
  }

  // ---------------------------------------------------------------------------
  // Whole trees.

  /** One-child groups replaced by their child, at every level. */
  function Collapse(node: Node): Node
    decreases node, 1
  {
    match node
    case LeafNode(_) => node
    case GroupNode(op, children) =>
      if |children| == 1 then Collapse(children[0]) else GroupNode(op, CollapseAll(children))
  }

  function CollapseAll(children: seq<Node>): (r: seq<Node>)
    ensures |r| == |children|
    decreases children, 0
  {
    if children == [] then [] else [Collapse(children[0])] + CollapseAll(children[1..])
  }

  /** A leaf, or one group of leaves. */
  predicate Flat(node: Node) {
    node.GroupNode? ==> AllLeaves(node.children)
  }

  ghost predicate AllSurvive(node: Node) {
    match node
    case LeafNode(leaf) => Survives(leaf)
    case GroupNode(_, children) => forall c :: c in children ==> AllSurvive(c)
  }

  /** No group is empty and every leaf is worded. */
  ghost predicate WordedNode(node: Node) {
    match node
    case LeafNode(leaf) => Worded(leaf)
    case GroupNode(_, children) => children != [] && forall c :: c in children ==> WordedNode(c)
  }

  ghost predicate Collapsed(node: Node) {
    node.GroupNode? ==> |node.children| > 1 && forall c :: c in node.children ==> Collapsed(c)
  }

  lemma {:induction false} CollapseKeeps(node: Node, params: seq<Param>)
    requires ValidNode(params, node)
    ensures Collapsed(Collapse(node)) && ValidNode(params, Collapse(node))
    ensures AllSurvive(Collapse(node)) <==> AllSurvive(node)
    ensures forall top :: NodeToCel(Collapse(node), top) == NodeToCel(node, top)
    decreases node, 1
  {
    match node
    case LeafNode(_) =>
    case GroupNode(op, children) =>
      if |children| == 1 {
        CollapseKeeps(children[0], params);
        assert forall c :: c in children <==> c == children[0];
      } else {
        CollapseAllKeeps(children, params);
      }
  }

  lemma {:induction false} CollapseAllKeeps(children: seq<Node>, params: seq<Param>)
    requires forall c :: c in children ==> ValidNode(params, c)
    ensures forall c :: c in CollapseAll(children) ==> Collapsed(c) && ValidNode(params, c)
    ensures (forall c :: c in CollapseAll(children) ==> AllSurvive(c)) <==>
            (forall c :: c in children ==> AllSurvive(c))
    ensures ChildTexts(CollapseAll(children)) == ChildTexts(children)
    decreases children, 0
  {
    if children != [] {
      var rest := CollapseAll(children[1..]);
      CollapseKeeps(children[0], params);
      CollapseAllKeeps(children[1..], params);
      assert forall c :: c in children <==> c == children[0] || c in children[1..];
      assert forall c :: c in CollapseAll(children) <==> c == Collapse(children[0]) || c in rest;
      assert CollapseAll(children)[1..] == rest;
    }
  }

  lemma {:induction false} JoinScans(parts: seq<string>, op: LogicOp, depth: nat)
    requires parts != [] && depth > 0 && forall p :: p in parts ==> Atomic(p)
    ensures ScanTo(Join(parts, LogicText(op)), depth, false) == Some((depth, false))
  {
    assert parts[0] in parts;
    ScanDeeper(parts[0], 0, false, depth);
    if |parts| > 1 {
      var sep, rest := LogicText(op), Join(parts[1..], LogicText(op));
      JoinScans(parts[1..], op, depth);
      assert ScanTo(sep, depth, false) == Some((depth, false)) by {
        assert ScanTo(sep[3..], depth, false) == ScanTo(sep[2..], depth, false) == ScanTo(sep[1..], depth, false);
      }
      hide ScanTo;
      ScanConcat(sep, rest, depth, false);
      ScanConcat(parts[0], sep + rest, depth, false);
      ConcatAssociates(parts[0], sep, rest);
    }
  }

  lemma ParenthesesScan(inner: string)
    requires ScanTo(inner, 1, false) == Some((1, false))
    ensures Leaflike("(" + inner + ")")
  {
    ScanConcat(inner, ")", 1, false);
    assert ScanTo(")", 1, false) == Some((0, false)) by { assert ")"[1..] == ""; }
    var t := "(" + inner + ")";
    assert t[1..] == inner + ")";
    assert t[0] == '(' && t[|t| - 1] == ')' && !IsSpace('(') && !IsSpace(')');
  }

  /** Below the root, every printed node is one balanced piece. */
  lemma {:induction false} NodeScans(node: Node)
    requires WordedNode(node)
    ensures Leaflike(NodeToCel(node, false))
    decreases node, 1
  {
    match node
    case LeafNode(leaf) => LeafIsLeaflike(leaf);
    case GroupNode(op, children) =>
      if |children| == 1 {
        NodeScans(children[0]);
      } else {
        ChildrenScan(children);
        JoinScans(ChildTexts(children), op, 1);
        ParenthesesScan(Join(ChildTexts(children), LogicText(op)));
      }
  }

  lemma {:induction false} ChildrenScan(children: seq<Node>)
    requires forall c :: c in children ==> WordedNode(c)
    ensures forall p :: p in ChildTexts(children) ==> Leaflike(p)
    decreases children, 0
  {
    if children != [] {
      NodeScans(children[0]);
      ChildrenScan(children[1..]);
    }
  }

  lemma {:induction false} ValidIsWorded(node: Node, params: seq<Param>)
    requires ValidParams(params) && ValidNode(params, node)
    ensures WordedNode(node)
  {
    match node
    case LeafNode(leaf) => LeafReads(leaf, params);
    case GroupNode(_, children) =>
      forall c | c in children ensures WordedNode(c) {
        ValidIsWorded(c, params);
      }
  }

  function LeavesOf(children: seq<Node>): (r: seq<Leaf>)
    requires AllLeaves(children)
    ensures |r| == |children| && forall i :: 0 <= i < |r| ==> r[i] == children[i].leaf
  {
    if children == [] then [] else [children[0].leaf] + LeavesOf(children[1..])
  }

  lemma ParseLeavesStep(text: string, rest: seq<string>, params: seq<Param>)
    ensures ParseLeaves([text] + rest, params) == Ahead(ParseLeaf(text, params), ParseLeaves(rest, params))
  {
    hide ParseLeaf;
    assert ([text] + rest)[1..] == rest;
  }

  lemma ParenthesesDoNotParse(text: string, params: seq<Param>)
    requires text != "" && text[0] == '('
    ensures ParseLeaf(text, params) == None
  {
    hide Enclosed, ParseComparison;
  }

  predicate AllLeaves(children: seq<Node>) {
    forall i :: 0 <= i < |children| ==> children[i].LeafNode?
  }

  /** What reading the printed children as leaves gives: the leaves, if there are no groups and all survive. */
  ghost predicate ReadsChildren(leaves: Option<seq<Leaf>>, children: seq<Node>) {
    if AllLeaves(children)
    then leaves == Some(LeavesOf(children)) <==> forall c :: c in children ==> AllSurvive(c)
    else leaves == None
  }

  function Ahead(head: Option<Leaf>, tail: Option<seq<Leaf>>): Option<seq<Leaf>> {
    if head.None? then None else Following([head.value], tail)
  }

  lemma LeafAhead(leaf: Leaf, rest: seq<Node>, head: Option<Leaf>, tail: Option<seq<Leaf>>)
    requires head == Some(leaf) <==> Survives(leaf)
    requires ReadsChildren(tail, rest)
    ensures ReadsChildren(Ahead(head, tail), [LeafNode(leaf)] + rest)
  {
    var children := [LeafNode(leaf)] + rest;
    assert children[1..] == rest;
    assert AllLeaves(children) <==> AllLeaves(rest) by {
      assert forall i :: 0 < i < |children| ==> children[i] == rest[i - 1];
    }
    assert (forall c :: c in children ==> AllSurvive(c)) <==>
      Survives(leaf) && forall c :: c in rest ==> AllSurvive(c) by {
      assert LeafNode(leaf) in children;
      assert forall c :: c in children <==> c == LeafNode(leaf) || c in rest;
    }
    hide AllSurvive;
    if AllLeaves(rest) {
      assert LeavesOf(children) == [leaf] + LeavesOf(rest);
      hide LeavesOf;
      SameHead(head, leaf, tail, LeavesOf(rest));
    }
  }

  lemma GroupAhead(group: Node, rest: seq<Node>)
    requires group.GroupNode?
    ensures ReadsChildren(None, [group] + rest)
  {
    assert ([group] + rest)[0] == group;
  }

  /** The children of a group are read back when they are leaves that survive; one nested group spoils them all. */
  lemma {:induction false} ChildrenRead(children: seq<Node>, params: seq<Param>)
    requires ValidParams(params)
    requires forall c :: c in children ==> Collapsed(c) && ValidNode(params, c)
    ensures ReadsChildren(ParseLeaves(ChildTexts(children), params), children)
  {
    if children == [] {
      assert LeavesOf(children) == [];
    } else {
      var first, rest := children[0], children[1..];
      var text := NodeToCel(first, false);
      assert children == [first] + rest;
      assert ChildTexts(children) == [text] + ChildTexts(rest);
      assert ValidNode(params, first) && Collapsed(first);
      match first {
        case LeafNode(leaf) =>
          assert ValidLeaf(params, leaf) && text == LeafToCel(leaf);
          hide *;
          ChildrenRead(rest, params);
          ParseLeavesStep(text, ChildTexts(rest), params);
          LeafReads(leaf, params);
          LeafAhead(leaf, rest, ParseLeaf(text, params), ParseLeaves(ChildTexts(rest), params));
        case GroupNode(_, _) =>
          assert text[0] == '(';
          hide *;
          ParseLeavesStep(text, ChildTexts(rest), params);
          ParenthesesDoNotParse(text, params);
          GroupAhead(first, rest);
          GroupAheadIsNone(ParseLeaves(ChildTexts(rest), params));
      }
    }
  }

  lemma GroupAheadIsNone(tail: Option<seq<Leaf>>)
    ensures Ahead(None, tail) == None
  {
  }

  lemma SameHead(head: Option<Leaf>, leaf: Leaf, tail: Option<seq<Leaf>>, leaves: seq<Leaf>)
    ensures (head.Some? && Following([head.value], tail) == Some([leaf] + leaves)) <==>
            head == Some(leaf) && tail == Some(leaves)
  {
    if head.Some? && tail.Some? {
      var whole := [head.value] + tail.value;
      assert whole[0] == head.value && whole[1..] == tail.value;
      var wanted := [leaf] + leaves;
      assert wanted[0] == leaf && wanted[1..] == leaves;
    }
  }

  lemma NodesOfLeaves(leaves: seq<Leaf>, children: seq<Node>)
    requires AllLeaves(children)
    ensures Map(leaves, AsNode) == children <==> leaves == LeavesOf(children)
  {
    var nodes := Map(leaves, AsNode);
    if nodes == children {
      assert forall i :: 0 <= i < |leaves| ==> nodes[i] == LeafNode(leaves[i]) == children[i];
    }
  }

  lemma LeafConditionParses(params: seq<Param>, leaf: Leaf)
    requires ValidParams(params) && ValidLeaf(params, leaf)
    ensures var text := LeafToCel(leaf);
            && Trimmed(text)
            && SplitFrom(text, 0, 0, false, 0, None, []) == Some((And, [text]))
            && (ParseLeaves([text], params) == Some([leaf]) <==> Survives(leaf))
  {
    var text := LeafToCel(leaf);
    assert Join([text], LogicText(And)) == text;
    assert ParseLeaves([], params) == Some([]);
    hide *;
    LeafReads(leaf, params);
    LeafIsLeaflike(leaf);
    LeaflikeIsTrimmed(text);
    SplitOfJoin([text], And);
    ParseLeavesStep(text, [], params);
    assert [text] + [] == [text];
    SameHead(ParseLeaf(text, params), leaf, Some([]), []);
    assert [leaf] + [] == [leaf];
    AheadOf(ParseLeaf(text, params), Some([]));
  }

  lemma LeaflikeIsTrimmed(t: string)
    requires Leaflike(t)
    ensures Trimmed(t)
  {
  }

  lemma AheadOf(head: Option<Leaf>, tail: Option<seq<Leaf>>)
    ensures Ahead(head, tail) == if head.None? then None else Following([head.value], tail)
  {
  }

  lemma GroupConditionParses(params: seq<Param>, op: LogicOp, children: seq<Node>)
    requires ValidParams(params) && |children| > 1
    requires forall c :: c in children ==> Collapsed(c) && ValidNode(params, c)
    ensures var texts := ChildTexts(children);
            var text := Join(texts, LogicText(op));
            && Trimmed(text)
            && SplitFrom(text, 0, 0, false, 0, None, []) == Some((op, texts))
  {
    forall c | c in children ensures WordedNode(c) {
      ValidIsWorded(c, params);
    }
    ChildrenScan(children);
    hide SplitFrom, NodeToCel, ChildTexts, ScanTo, Join, ValidNode, Collapsed;
    SplitOfJoin(ChildTexts(children), op);
    JoinTrimmed(ChildTexts(children), op);
  }

  /** Parsing the printed text, in any surrounding white space, gives back the tree with its one-child groups
      collapsed exactly when that is a leaf or one flat group and every value survives printing; where a
      nested group remains it gives nothing. */
  lemma PrintedConditionParses(def: ConditionDef, left: string, right: string)
    requires ValidCondition(def)
    requires forall c :: c in left || c in right ==> IsSpace(c)
    ensures var tree := Collapse(def.tree);
            var parsed := Parsed(def.name, def.params, left + NodeToCel(def.tree, true) + right);
            && (parsed == Some(def.(tree := tree)) <==> Flat(tree) && AllSurvive(def.tree))
            && (!Flat(tree) ==> parsed == None)
  {
    var tree := Collapse(def.tree);
    CollapseKeeps(def.tree, def.params);
    var text := NodeToCel(tree, true);
    match tree
    case LeafNode(leaf) =>
      assert Flat(tree) && (AllSurvive(tree) <==> Survives(leaf));
      hide SplitFrom, LeafToCel, Trimmed, ValidNode, Collapse, ParseLeaves, Trim, Survives;
      LeafConditionParses(def.params, leaf);
      TrimPadding(left, text, right);
      ParsedCount([text], def.params);
      OneLeaf(def, tree, leaf, ParseLeaves([text], def.params));
    case GroupNode(op, children) =>
      var texts := ChildTexts(children);
      assert AllSurvive(tree) <==> forall c :: c in children ==> AllSurvive(c);
      assert Flat(tree) <==> AllLeaves(children);
      assert text == Join(texts, LogicText(op));
      hide SplitFrom, Trimmed, ValidNode, Collapse, ParseLeaves, Trim, NodeToCel, ChildTexts, Join, AllSurvive;
      GroupConditionParses(def.params, op, children);
      ChildrenRead(children, def.params);
      ParsedCount(texts, def.params);
      TrimPadding(left, text, right);
      if ParseLeaves(texts, def.params).Some? && AllLeaves(children) {
        NodesOfLeaves(ParseLeaves(texts, def.params).value, children);
      }
  }

  lemma OneLeaf(def: ConditionDef, tree: Node, leaf: Leaf, leaves: Option<seq<Leaf>>)
    requires tree == LeafNode(leaf) && (leaves.Some? ==> |leaves.value| == 1)
    ensures (leaves.Some? && def.(tree := LeafNode(leaves.value[0])) == def.(tree := tree)) <==> leaves == Some([leaf])
  {
    if leaves.Some? {
      assert leaves.value == [leaves.value[0]];
    }
  }

  lemma {:induction false} ParsedCount(parts: seq<string>, params: seq<Param>)
    ensures ParseLeaves(parts, params).Some? ==> |ParseLeaves(parts, params).value| == |parts|
  {
    hide ParseLeaf;
    if parts != [] {
      ParsedCount(parts[1..], params);
    }
  }

  lemma {:induction false} JoinTrimmed(parts: seq<string>, op: LogicOp)
    requires parts != [] && forall p :: p in parts ==> Trimmed(p)
    ensures Trimmed(Join(parts, LogicText(op)))
  {
    hide IsSpace;
    assert parts[0] in parts;
    if |parts| > 1 {
      JoinTrimmed(parts[1..], op);
      var rest := Join(parts[1..], LogicText(op));
      var whole := Join(parts, LogicText(op));
      assert whole[0] == parts[0][0] && whole[|whole| - 1] == rest[|rest| - 1];
    }
  }
}
