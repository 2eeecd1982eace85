/** Attribute conditions: trees of comparisons over typed parameters, and their static validation. */
module Condition {
  import opened Prelude
  import opened JsNumber
  import opened JsText

  datatype ParamType = Timestamp | IpAddress | Str | Int | Double | Bool

  datatype Param = Param(name: string, typ: ParamType)

  datatype CompareOp = Eq | Neq | Lt | Lte | Gt | Gte

  type OrderOp = op: CompareOp | op != Eq && op != Neq witness Lt

  /** A JavaScript number, as an exact canonical decimal. */
  type JsDouble = x: Number | Canonical(x) witness NaN

  /** A literal. JSON has no NaN and no infinity: a copy made through it holds null in their place. */
  datatype Value = StringValue(text: string) | NumberValue(number: JsDouble) | BoolValue(flag: bool) | NullValue

  datatype TimeRhs = TimeLiteral(rfc3339: string) | TimeParam(param: string)

  datatype Leaf =
    | TimeLeaf(param: string, order: OrderOp, rhs: TimeRhs)
    | IpLeaf(param: string, cidr: string)
    | ValueLeaf(param: string, op: CompareOp, value: Value)

  datatype LogicOp = And | Or

  datatype Node = LeafNode(leaf: Leaf) | GroupNode(op: LogicOp, children: seq<Node>)

  datatype ConditionDef = ConditionDef(name: string, params: seq<Param>, tree: Node)

  // ---------------------------------------------------------------------------
  // Identifiers.

  predicate IsWordChar(c: char) {
    'a' <= c <= 'z' || 'A' <= c <= 'Z' || '0' <= c <= '9' || c == '_'
  }

  predicate IsWord(s: string) {
    s != "" && forall i :: 0 <= i < |s| ==> IsWordChar(s[i])
  }

  const RESERVED_WORDS: set<string> := {
    "this", "self", "type", "relation", "relations", "define", "model", "schema", "from",
    "or", "and", "but", "not", "with", "module", "extend", "condition"
  }

  const CEL_RESERVED: set<string> := {
    "true", "false", "null", "int", "uint", "double", "bool", "bytes", "string", "timestamp", "duration",
    "ipaddress", "list", "map", "any", "in", "as", "break", "const", "continue", "else", "for", "function",
    "if", "import", "let", "loop", "package", "namespace", "return", "var", "void", "while"
  }

  predicate IsIdentifier(name: string) {
    IsWord(name) && name !in RESERVED_WORDS
  }

  predicate IsConditionName(name: string) {
    IsIdentifier(name) && name !in CEL_RESERVED
  }

  // ---------------------------------------------------------------------------
  // Literal formats.

  function SkipDigits(s: string): (r: string)
    ensures |r| <= |s|
    ensures s == s[..|s| - |r|] + r && AllDigits(s[..|s| - |r|])
  {
    if s != "" && IsDigit(s[0]) then SkipDigits(s[1..]) else s
  }

  predicate IsZone(z: string) {
    || (|z| == 1 && (z[0] == 'Z' || z[0] == 'z'))
    || (|z| == 6 && (z[0] == '+' || z[0] == '-') && IsDigit(z[1]) && IsDigit(z[2]) && z[3] == ':' && IsDigit(z[4])
         && IsDigit(z[5]))
  }

  predicate IsDateTime(s: string)
    requires |s| == 19
  {
    && IsDigit(s[0]) && IsDigit(s[1]) && IsDigit(s[2]) && IsDigit(s[3]) && s[4] == '-'
    && IsDigit(s[5]) && IsDigit(s[6]) && s[7] == '-' && IsDigit(s[8]) && IsDigit(s[9])
    && (s[10] == 'T' || s[10] == 't')
    && IsDigit(s[11]) && IsDigit(s[12]) && s[13] == ':' && IsDigit(s[14]) && IsDigit(s[15]) && s[16] == ':'
    && IsDigit(s[17]) && IsDigit(s[18])
  }

  /** A zone, or a fraction of at least one digit and a zone. */
  predicate IsFractionAndZone(s: string) {
    || IsZone(s)
    || (|s| >= 2 && s[0] == '.' && IsDigit(s[1]) && IsZone(SkipDigits(s[1..])))
  }

  predicate IsRfc3339(s: string) {
    |s| > 19 && IsDateTime(s[..19]) && IsFractionAndZone(s[19..])
  }

  function LastIndexOf(s: string, c: char): (r: int)
    ensures -1 <= r < |s|
    ensures r >= 0 ==> s[r] == c
  {
    if s == "" then -1
    else if s[|s| - 1] == c then |s| - 1
    else LastIndexOf(s[..|s| - 1], c)
  }

  function SplitOn(s: string, c: char): (r: seq<string>)
    ensures r != []
    decreases |s|
  {
    var i := IndexOf(s, c);
    if i < 0 then [s] else [s[..i]] + SplitOn(s[i + 1..], c)
  }

  predicate IsOctet(s: string) {
    1 <= |s| <= 3 && AllDigits(s) && DigitsValue(s) <= 255
  }

  predicate IsIpv6Char(c: char) {
    IsDigit(c) || 'a' <= c <= 'f' || 'A' <= c <= 'F' || c == ':' || c == '.'
  }

  predicate IsCidr(s: string) {
    var slash := LastIndexOf(s, '/');
    && slash >= 0
    && var addr, prefix := s[..slash], s[slash + 1..];
       && prefix != "" && AllDigits(prefix)
       && if ':' in addr then DigitsValue(prefix) <= 128 && forall i :: 0 <= i < |addr| ==> IsIpv6Char(addr[i])
          else
            var octets := SplitOn(addr, '.');
            && |octets| == 4
            && (forall i :: 0 <= i < 4 ==> IsOctet(octets[i]))
            && DigitsValue(prefix) <= 32
  }

  predicate IsPlainChar(c: char) {
    IsWordChar(c) || c == '-' || c == '+' || c == ':' || c == '.' || c == '/'
  }

  /** Text that a JSON string literal holds without escapes. */
  ghost predicate PlainText(s: string) {
    forall i :: 0 <= i < |s| ==> IsPlainChar(s[i])
  }

  lemma PlainConcat(a: string, b: string)
    requires PlainText(a) && PlainText(b)
    ensures PlainText(a + b)
  {
  }

  lemma DigitsArePlain(s: string)
    requires AllDigits(s)
    ensures PlainText(s)
  {
  }

  lemma ZoneIsPlain(z: string)
    requires IsZone(z)
    ensures PlainText(z)
  {
  }

  lemma FractionIsPlain(s: string)
    requires IsFractionAndZone(s)
    ensures PlainText(s)
  {
    hide PlainText, AllDigits, IsZone, SkipDigits;
    if IsZone(s) {
      ZoneIsPlain(s);
    } else {
      var zone := SkipDigits(s[1..]);
      var fraction := s[1..][..|s[1..]| - |zone|];
      DigitsArePlain(fraction);
      ZoneIsPlain(zone);
      PlainConcat(fraction, zone);
      PlainPoint();
      PlainConcat(".", fraction + zone);
      assert s == "." + s[1..];
    }
  }

  lemma PlainPoint()
    ensures PlainText(".") && PlainText("/")
  {
  }

  lemma Rfc3339IsPlain(s: string)
    requires IsRfc3339(s)
    ensures s != "" && PlainText(s)
  {
    assert PlainText(s[..19]) by {
      hide IsFractionAndZone;
    }
    FractionIsPlain(s[19..]);
    PlainConcat(s[..19], s[19..]);
    assert s == s[..19] + s[19..];
  }

  lemma PlainOne(c: char)
    requires IsPlainChar(c)
    ensures PlainText([c])
  {
  }

  lemma SplitStep(s: string, c: char)
    ensures var at := IndexOf(s, c);
            if at < 0 then SplitOn(s, c) == [s]
            else SplitOn(s, c) == [s[..at]] + SplitOn(s[at + 1..], c) && s == s[..at] + [c] + s[at + 1..]
  {
    hide IndexOf;
  }

  lemma {:induction false} SplitPieces(s: string, c: char)
    requires IsPlainChar(c)
    requires forall piece :: piece in SplitOn(s, c) ==> PlainText(piece)
    ensures PlainText(s)
    decreases |s|
  {
    hide PlainText, SplitOn, IsPlainChar;
    SplitStep(s, c);
    var at := IndexOf(s, c);
    if at < 0 {
      assert s in SplitOn(s, c);
    } else {
      var head, tail := s[..at], s[at + 1..];
      SplitPieces(tail, c);
      assert head in SplitOn(s, c);
      PlainOne(c);
      PlainConcat(head, [c]);
      PlainConcat(head + [c], tail);
    }
  }

  lemma Ipv4IsPlain(addr: string)
    requires forall i :: 0 <= i < |SplitOn(addr, '.')| ==> IsOctet(SplitOn(addr, '.')[i])
    ensures PlainText(addr)
  {
    hide PlainText, SplitOn, DigitsValue, AllDigits;
    var octets := SplitOn(addr, '.');
    forall piece | piece in octets ensures PlainText(piece) {
      var i :| 0 <= i < |octets| && octets[i] == piece;
      assert IsOctet(octets[i]);
      DigitsArePlain(piece);
    }
    SplitPieces(addr, '.');
  }

  lemma Ipv6IsPlain(addr: string)
    requires forall i :: 0 <= i < |addr| ==> IsIpv6Char(addr[i])
    ensures PlainText(addr)
  {
  }

  lemma CidrIsPlain(s: string)
    requires IsCidr(s)
    ensures s != "" && PlainText(s)
  {
    hide PlainText, SplitOn, DigitsValue, AllDigits, IsOctet, IsIpv6Char;
    var slash := LastIndexOf(s, '/');
    var addr, prefix := s[..slash], s[slash + 1..];
    DigitsArePlain(prefix);
    if ':' in addr {
      Ipv6IsPlain(addr);
    } else {
      Ipv4IsPlain(addr);
    }
    PlainPoint();
    PlainConcat(addr, "/");
    PlainConcat(addr + "/", prefix);
    assert s == addr + "/" + prefix;
  }

  // ---------------------------------------------------------------------------
  // Validation, collecting every violation in order.

  datatype ConditionError = BadName | DupParam | UnknownParam | TypeMismatch | BadCidr | BadTimestamp | EmptyGroup

  /** The parameter's type; with duplicates, the last declaration wins (a Map being filled). */
  function DeclaredType(params: seq<Param>, name: string): Option<ParamType> {
    if params == [] then None
    else if params[|params| - 1].name == name then Some(params[|params| - 1].typ)
    else DeclaredType(params[..|params| - 1], name)
  }

  function When(bad: bool, e: ConditionError): seq<ConditionError> {
    if bad then [e] else []
  }

  function ParamErrors(params: seq<Param>): seq<ConditionError> {
    if params == [] then []
    else
      var last := |params| - 1;
      ParamErrors(params[..last])
      + When(!IsConditionName(params[last].name), BadName)
      + When(exists i :: 0 <= i < last && params[i].name == params[last].name, DupParam)
  }

  function ExpectParam(params: seq<Param>, name: string, wanted: set<ParamType>): seq<ConditionError> {
    match DeclaredType(params, name)
    case None => [UnknownParam]
    case Some(t) => When(t !in wanted, TypeMismatch)
  }

  predicate ValueFits(v: Value, t: ParamType) {
    match t
    case Str => v.StringValue?
    case Int => v.NumberValue? && IsSafeInteger(v.number)
    case Double => v.NumberValue? && (v.number.Zero? || v.number.Finite?)
    case Bool => v.BoolValue?
    case _ => false
  }

  const MAX_SAFE_INTEGER: nat := 9007199254740991

  predicate IsSafeInteger(x: Number)
    requires Canonical(x)
  {
    x.Zero? || (x.Finite? && |x.digits| <= x.n <= 16
      && DigitsValue(x.digits + Zeros(x.n - |x.digits|)) <= MAX_SAFE_INTEGER)
  }

  function LeafErrors(params: seq<Param>, leaf: Leaf): seq<ConditionError> {
    match leaf
    case TimeLeaf(param, _, rhs) =>
      ExpectParam(params, param, {Timestamp})
      + (match rhs
         case TimeLiteral(text) => When(!IsRfc3339(text), BadTimestamp)
         case TimeParam(other) => ExpectParam(params, other, {Timestamp}))
    case IpLeaf(param, cidr) =>
      ExpectParam(params, param, {IpAddress}) + When(!IsCidr(cidr), BadCidr)
    case ValueLeaf(param, op, value) =>
      ExpectParam(params, param, {Str, Int, Double, Bool})
      + (match DeclaredType(params, param)
         case Some(t) =>
           if t in {Str, Int, Double, Bool} then
             When(!ValueFits(value, t), TypeMismatch) + When(t == Bool && op != Eq && op != Neq, TypeMismatch)
           else []
         case None => [])
  }

  function NodeErrors(params: seq<Param>, node: Node): seq<ConditionError>
    decreases node, 1
  {
    match node
    case LeafNode(leaf) => LeafErrors(params, leaf)
    case GroupNode(_, children) => When(children == [], EmptyGroup) + ChildErrors(params, children)
  }

  function ChildErrors(params: seq<Param>, children: seq<Node>): seq<ConditionError>
    decreases children, 0
  {
    if children == [] then [] else NodeErrors(params, children[0]) + ChildErrors(params, children[1..])
  }

  function ConditionErrors(def: ConditionDef): seq<ConditionError> {
    When(!IsConditionName(def.name), BadName) + ParamErrors(def.params) + NodeErrors(def.params, def.tree)
  }

  // ---------------------------------------------------------------------------
  // What validity means.

  ghost predicate DeclaredAs(params: seq<Param>, name: string, typ: ParamType) {
    Param(name, typ) in params
  }

  ghost predicate ValidLeaf(params: seq<Param>, leaf: Leaf) {
    match leaf
    case TimeLeaf(param, _, rhs) =>
      && DeclaredAs(params, param, Timestamp)
      && (match rhs
          case TimeLiteral(text) => IsRfc3339(text)
          case TimeParam(other) => DeclaredAs(params, other, Timestamp))
    case IpLeaf(param, cidr) => DeclaredAs(params, param, IpAddress) && IsCidr(cidr)
    case ValueLeaf(param, op, value) =>
      exists t :: DeclaredAs(params, param, t) && ValueFits(value, t) && (t == Bool ==> op == Eq || op == Neq)
  }

  ghost predicate ValidNode(params: seq<Param>, node: Node) {
    match node
    case LeafNode(leaf) => ValidLeaf(params, leaf)
    case GroupNode(_, children) => children != [] && forall c :: c in children ==> ValidNode(params, c)
  }

  ghost predicate ValidParams(params: seq<Param>) {
    && (forall p :: p in params ==> IsConditionName(p.name))
    && (forall i, j :: 0 <= i < j < |params| ==> params[i].name != params[j].name)
  }

  ghost predicate ValidCondition(def: ConditionDef) {
    IsConditionName(def.name) && ValidParams(def.params) && ValidNode(def.params, def.tree)
  }

  lemma ValidParamsStep(params: seq<Param>)
    requires params != []
    ensures var last := |params| - 1;
            ValidParams(params) <==>
              && ValidParams(params[..last])
              && IsConditionName(params[last].name)
              && !exists i :: 0 <= i < last && params[i].name == params[last].name
  {
    hide IsConditionName;
    var last := |params| - 1;
    var init := params[..last];
    assert params == init + [params[last]];
    assert forall i :: 0 <= i < last ==> init[i] == params[i];
    assert forall p :: p in params <==> p in init || p == params[last];
  }

  lemma {:induction false} ParamErrorsMeaning(params: seq<Param>)
    ensures ParamErrors(params) == [] <==> ValidParams(params)
  {
    if params != [] {
      hide IsConditionName, ValidParams;
      ParamErrorsMeaning(params[..|params| - 1]);
      ValidParamsStep(params);
    }
  }

  lemma {:induction false} DeclaredTypeMeaning(params: seq<Param>, name: string)
    requires ValidParams(params)
    ensures forall u :: DeclaredAs(params, name, u) <==> DeclaredType(params, name) == Some(u)
  {
    if params != [] {
      var last := |params| - 1;
      var init := params[..last];
      assert params == init + [params[last]];
      assert forall p :: p in params <==> p in init || p == params[last];
      assert forall i :: 0 <= i < last ==> init[i] == params[i];
      DeclaredTypeMeaning(init, name);
      forall u ensures DeclaredAs(params, name, u) <==> DeclaredType(params, name) == Some(u) {
        assert DeclaredAs(params, name, u) <==> DeclaredAs(init, name, u) || Param(name, u) == params[last];
      }
    }
  }

  lemma LeafErrorsMeaning(params: seq<Param>, leaf: Leaf)
    requires ValidParams(params)
    ensures LeafErrors(params, leaf) == [] <==> ValidLeaf(params, leaf)
  {
    DeclaredTypeMeaning(params, leaf.param);
    if leaf.TimeLeaf? && leaf.rhs.TimeParam? {
      DeclaredTypeMeaning(params, leaf.rhs.param);
    }
  }

  lemma {:induction false} NodeErrorsMeaning(params: seq<Param>, node: Node)
    requires ValidParams(params)
    ensures NodeErrors(params, node) == [] <==> ValidNode(params, node)
    decreases node, 1
  {
    match node
    case LeafNode(leaf) => LeafErrorsMeaning(params, leaf);
    case GroupNode(_, children) => ChildErrorsMeaning(params, children);
  }

  lemma {:induction false} ChildErrorsMeaning(params: seq<Param>, children: seq<Node>)
    requires ValidParams(params)
    ensures ChildErrors(params, children) == [] <==> forall c :: c in children ==> ValidNode(params, c)
    decreases children, 0
  {
    if children != [] {
      NodeErrorsMeaning(params, children[0]);
      ChildErrorsMeaning(params, children[1..]);
      assert forall c :: c in children <==> c == children[0] || c in children[1..];
    }
  }

  /** No error is reported exactly when the condition is valid. */
  lemma ConditionErrorsMeaning(def: ConditionDef)
    ensures ConditionErrors(def) == [] <==> ValidCondition(def)
  {
    ParamErrorsMeaning(def.params);
    if ValidParams(def.params) {
      NodeErrorsMeaning(def.params, def.tree);
    }
  }
}
