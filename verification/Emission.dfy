/** What the compiler emits for a model, line by line. */
module Emission {
  import opened Prelude
  import opened JsNumber
  import opened JsText
  import opened Condition
  import opened ConditionCel
  import opened ModelIr
  import opened AuthModel
  import opened Sorting
  import opened Compiler
  import opened AcceptedText

  // ---------------------------------------------------------------------------
  // One line.

  ghost predicate IsSubject(ref: SubjectRef, r: Ref) {
    match ref
    case User(condition) => r == Ref("user", None, false, condition)
    case Group(group, condition) => r == Ref(group, Some("member"), false, condition)
  }

  ghost predicate AreSubjects(refs: seq<SubjectRef>, rs: seq<Ref>) {
    |rs| == |refs| && forall i :: 0 <= i < |refs| ==> IsSubject(refs[i], rs[i])
  }

  ghost predicate IsParentLine(p: ParentRef, line: Relation) {
    && line.name == p.relationName && line.rewrite == This && |line.refs| == |p.parentTypes|
    && forall i :: 0 <= i < |p.parentTypes| ==> line.refs[i] == Ref(p.parentTypes[i], None, false, None)
  }

  ghost predicate IsRoleLine(role: Role, line: Relation) {
    line.name == role.name && line.rewrite == This && AreSubjects(role.assignableBy, line.refs)
  }

  /** The granting roles, and then the same permission on the parents of each inherited relation. */
  ghost predicate AreOperands(perm: Permission, operands: seq<Userset>) {
    var (grants, inherits) := (perm.grantedByRoles, perm.inheritFromParents);
    && |operands| == |grants| + |inherits|
    && (forall i :: 0 <= i < |grants| ==> operands[i] == Computed("", grants[i]))
    && forall i :: 0 <= i < |inherits| ==> operands[|grants| + i] == TupleTo(inherits[i], "can_" + perm.name)
  }

  /** One operand stands alone; several are a union. */
  ghost predicate IsPermissionLine(perm: Permission, line: Relation) {
    && line.name == "can_" + perm.name && line.refs == []
    && exists operands ::
         AreOperands(perm, operands) && line.rewrite == if |operands| == 1 then operands[0] else Union(operands)
  }

  /** Parents, then roles, then permissions. */
  ghost predicate AreLines(r: ResourceType, lines: seq<Relation>) {
    var (p, q) := (|r.parents|, |r.parents| + |r.roles|);
    && |lines| == q + |r.permissions|
    && (forall i :: 0 <= i < p ==> IsParentLine(r.parents[i], lines[i]))
    && (forall i :: p <= i < q ==> IsRoleLine(r.roles[i - p], lines[i]))
    && forall i :: q <= i < |lines| ==> IsPermissionLine(r.permissions[i - q], lines[i])
  }

  /** The properties of an object: names that are array indices first, in increasing order. */
  ghost predicate IsResourceDef(r: ResourceType, td: TypeDef) {
    && td.name == r.name
    && exists lines, order ::
         AreLines(r, lines) && IsOrder(lines, (x: Relation) => IndexKey(x.name), order)
         && Lists(td.relations, lines, order)
  }

  ghost predicate IsGroupDef(g: GroupType, td: TypeDef) {
    && td.name == g.name && |td.relations| == 1
    && td.relations[0].name == "member" && td.relations[0].rewrite == This
    && AreSubjects(g.memberTypes, td.relations[0].refs)
  }

  ghost predicate IsTypeName(t: ParamType, name: string) {
    match t
    case Timestamp => name == "TYPE_NAME_TIMESTAMP"
    case IpAddress => name == "TYPE_NAME_IPADDRESS"
    case Str => name == "TYPE_NAME_STRING"
    case Int => name == "TYPE_NAME_INT"
    case Double => name == "TYPE_NAME_DOUBLE"
    case Bool => name == "TYPE_NAME_BOOL"
  }

  ghost predicate AreParameters(ps: seq<Param>, parameters: seq<(string, string)>, order: seq<nat>) {
    && IsOrder(ps, (p: Param) => IndexKey(p.name), order) && |parameters| == |order|
    && forall k :: 0 <= k < |order| ==>
         order[k] < |ps| && parameters[k].0 == ps[order[k]].name && IsTypeName(ps[order[k]].typ, parameters[k].1)
  }

  ghost predicate IsLiteralText(v: Value, t: string) {
    match v
    case StringValue(text) => t == Quote(text)
    case NumberValue(number) => t == NumberString(number)
    case BoolValue(flag) => t == if flag then "true" else "false"
    case NullValue => t == "null"
  }

  /** A comparison, a single space on either side of its operator. */
  ghost predicate IsLeafLine(leaf: Leaf, t: string) {
    match leaf
    case IpLeaf(param, cidr) => t == param + ".in_cidr(" + Quote(cidr) + ")"
    case TimeLeaf(param, op, rhs) =>
      exists symbol ::
        && IsSymbol(op, symbol)
        && t == param + " " + symbol + " "
           + (if rhs.TimeLiteral? then "timestamp(" + Quote(rhs.rfc3339) + ")" else rhs.param)
    case ValueLeaf(param, op, value) =>
      exists symbol, literal ::
        IsSymbol(op, symbol) && IsLiteralText(value, literal) && t == param + " " + symbol + " " + literal
  }

  /** Several texts with the operator between each and the next. */
  ghost predicate AreJoined(texts: seq<string>, op: LogicOp, t: string) {
    if |texts| <= 1 then |texts| == 1 && t == texts[0]
    else exists rest :: t == texts[0] + " " + AcceptedText.Symbol(op) + " " + rest && AreJoined(texts[1..], op, rest)
  }

  /** A group's children joined by its operator, in parentheses but for the outermost; a single child stands for its
      group. */
  ghost predicate IsCelText(node: Node, top: bool, t: string)
    decreases node
  {
    match node
    case LeafNode(leaf) => IsLeafLine(leaf, t)
    case GroupNode(op, children) =>
      if children == [] then t == "true"
      else if |children| == 1 then IsCelText(children[0], top, t)
      else exists texts: seq<string>, inner ::
        && |texts| == |children| && (forall i :: 0 <= i < |children| ==> IsCelText(children[i], false, texts[i]))
        && AreJoined(texts, op, inner) && t == if top then inner else "(" + inner + ")"
  }

  ghost predicate IsConditionDef(def: ConditionDef, c: ConditionJson) {
    && c.name == def.name && c.expression.Some? && IsCelText(def.tree, true, c.expression.value)
    && exists order :: AreParameters(def.params, c.parameters, order)
  }

  /** The user type, the groups, the resources, and the conditions by name, each with exactly its own lines. */
  ghost predicate IsEmitted(ir: ModelIR, m: Model) {
    var g := |ir.groups|;
    && m.schemaVersion == Some("1.1")
    && |m.types| == 1 + g + |ir.resources|
    && m.types[0] == TypeDef("user", [])
    && (forall i :: 0 <= i < g ==> IsGroupDef(ir.groups[i], m.types[1 + i]))
    && (forall i :: 0 <= i < |ir.resources| ==> IsResourceDef(ir.resources[i], m.types[1 + g + i]))
    && exists order :: AreConditions(ConditionsOf(ir), m.conditions, order)
  }

  ghost predicate AreConditions(cs: seq<ConditionDef>, emitted: seq<ConditionJson>, order: seq<nat>) {
    && IsOrder(cs, (c: ConditionDef) => IndexKey(c.name), order) && |emitted| == |order|
    && forall k :: 0 <= k < |order| ==> order[k] < |cs| && IsConditionDef(cs[order[k]], emitted[k])
  }

  // ---------------------------------------------------------------------------
  // Names that are array indices.

  lemma {:induction false} ItoaShape(k: nat)
    ensures k > 0 ==> Itoa(k)[0] != '0'
  {
    if k >= 10 {
      ItoaShape(k / 10);
    }
  }

  lemma {:induction false} DigitsAreItoa(s: string)
    requires s != "" && AllDigits(s) && (|s| == 1 || s[0] != '0')
    ensures s == Itoa(DigitsValue(s))
  {
    var (front, d) := (s[..|s| - 1], s[|s| - 1] as nat - '0' as nat);
    assert s == front + [s[|s| - 1]] && ["0123456789"[d]] == [s[|s| - 1]];
    if front == "" {
      assert DigitsValue(s) == d;
    } else {
      DigitsAreItoa(front);
      assert DigitsValue(front) > 0 by {
        FrontIsPositive(front);
      }
      assert DigitsValue(s) / 10 == DigitsValue(front) && DigitsValue(s) % 10 == d;
    }
  }

  lemma {:induction false} FrontIsPositive(s: string)
    requires s != "" && AllDigits(s) && s[0] != '0'
    ensures DigitsValue(s) > 0
  {
    if |s| > 1 {
      FrontIsPositive(s[..|s| - 1]);
    }
  }

  /** A name stands among the indices exactly when it is one as JavaScript writes it, below 2^32 - 1. */
  lemma IndexKeyExactly(name: string)
    ensures IndexKey(name) < NOT_AN_INDEX <==> exists k: nat :: k < 0xFFFF_FFFF && name == Itoa(k)
    ensures forall k: nat :: k < 0xFFFF_FFFF && name == Itoa(k) ==> IndexKey(name) == k
  {
    hide Itoa, DigitsValue;
    forall k: nat | k < 0xFFFF_FFFF && name == Itoa(k) ensures IndexKey(name) == k {
      ItoaDenotes(k);
      ItoaShape(k);
      if k == 0 {
        assert |Itoa(0)| == 1 by {
          ZeroIsShort();
        }
      }
    }
    if IndexKey(name) < NOT_AN_INDEX {
      DigitsAreItoa(name);
    }
  }

  lemma ZeroIsShort()
    ensures |Itoa(0)| == 1
  {
  }

  // ---------------------------------------------------------------------------
  // What is emitted.

  lemma OperandsEmitted(perm: Permission)
    ensures AreOperands(perm, PermissionChildren(perm)) && IsPermissionLine(perm, EmitPermission(perm))
  {
    hide Map;
    assert AreOperands(perm, PermissionChildren(perm));
  }

  lemma LinesEmitted(r: ResourceType)
    ensures AreLines(r, ResourceRelations(r))
  {
    hide Map, EmitPermission, IsPermissionLine;
    forall perm ensures IsPermissionLine(perm, EmitPermission(perm)) {
      OperandsEmitted(perm);
    }
  }

  lemma SameOrder<T>(s: seq<T>, key: T -> int, key': T -> int, order: seq<nat>)
    requires IsOrder(s, key, order) && forall x :: x in s ==> key(x) == key'(x)
    ensures IsOrder(s, key', order)
  {
    forall j, k | 0 <= j < k < |order| ensures Precedes(s, key', order[j], order[k]) {
      assert Precedes(s, key, order[j], order[k]);
      assert s[order[j]] in s && s[order[k]] in s;
    }
  }

  lemma ResourceEmitted(r: ResourceType)
    ensures IsResourceDef(r, EmitResource(r))
  {
    var lines := ResourceRelations(r);
    hide ResourceRelations, StableSort, IsOrder, Lists, AreLines, IndexKey;
    LinesEmitted(r);
    var order := StableSortOrder(lines, RelationKey);
    SameOrder(lines, RelationKey, (x: Relation) => IndexKey(x.name), order);
  }

  lemma MappedOrder<S, T>(s: seq<S>, f: S -> T, key: T -> int, key': S -> int, order: seq<nat>)
    requires IsOrder(Map(s, f), key, order) && forall x :: x in s ==> key(f(x)) == key'(x)
    ensures IsOrder(s, key', order)
  {
    var t := Map(s, f);
    forall j, k | 0 <= j < k < |order| ensures Precedes(s, key', order[j], order[k]) {
      assert Precedes(t, key, order[j], order[k]);
      assert s[order[j]] in s && s[order[k]] in s;
    }
  }

  lemma SymbolPrinted(op: CompareOp)
    ensures IsSymbol(op, CompareText(op))
  {
  }

  lemma LeafPrinted(leaf: Leaf)
    ensures IsLeafLine(leaf, LeafToCel(leaf))
  {
    hide Quote, NumberString, CompareText, IsSymbol;
    match leaf
    case IpLeaf(param, cidr) => ConcatAssociates(param, IN_CIDR, Quote(cidr) + ")");
    case TimeLeaf(_, op, _) => SymbolPrinted(op);
    case ValueLeaf(_, op, value) =>
      SymbolPrinted(op);
      assert IsLiteralText(value, CelLiteral(value));
  }

  lemma {:induction false} JoinedPrinted(texts: seq<string>, op: LogicOp)
    requires texts != []
    ensures AreJoined(texts, op, Join(texts, LogicText(op)))
  {
    if |texts| > 1 {
      var rest := Join(texts[1..], LogicText(op));
      JoinedPrinted(texts[1..], op);
      assert LogicText(op) == " " + AcceptedText.Symbol(op) + " ";
      assert Join(texts, LogicText(op)) == texts[0] + " " + AcceptedText.Symbol(op) + " " + rest;
    }
  }

  lemma {:induction false} NodePrinted(node: Node, top: bool)
    ensures IsCelText(node, top, NodeToCel(node, top))
    decreases node, 1
  {
    match node
    case LeafNode(leaf) => LeafPrinted(leaf);
    case GroupNode(op, children) =>
      if |children| == 1 {
        NodePrinted(children[0], top);
      } else if children != [] {
        var texts := ChildTexts(children);
        ChildrenPrinted(children);
        hide LeafToCel, IsLeafLine;
        JoinedPrinted(texts, op);
      }
  }

  lemma {:induction false} ChildrenPrinted(children: seq<Node>)
    ensures forall i :: 0 <= i < |children| ==> IsCelText(children[i], false, ChildTexts(children)[i])
    decreases children, 0
  {
    if children != [] {
      NodePrinted(children[0], false);
      ChildrenPrinted(children[1..]);
      hide IsCelText, NodeToCel;
      assert forall i :: 0 < i < |children| ==> ChildTexts(children)[i] == ChildTexts(children[1..])[i - 1];
      assert forall i :: 0 < i < |children| ==> children[i] == children[1..][i - 1];
    }
  }

  lemma ConditionEmitted(def: ConditionDef)
    ensures IsConditionDef(def, EmitCondition(def))
  {
    NodePrinted(def.tree, true);
    hide IsCelText;
    var all := Map(def.params, EmitParam);
    hide StableSort, IsOrder, NodeToCel, Map, IndexKey;
    var order := StableSortOrder(all, ParameterKey);
    MappedOrder(def.params, EmitParam, ParameterKey, (p: Param) => IndexKey(p.name), order);
    assert AreParameters(def.params, EmitCondition(def).parameters, order);
  }

  lemma ConditionsEmitted(ir: ModelIR)
    ensures exists order :: AreConditions(ConditionsOf(ir), Emit(ir).conditions, order)
  {
    var cs := ConditionsOf(ir);
    var all := Map(cs, EmitCondition);
    forall c ensures IsConditionDef(c, EmitCondition(c)) && ConditionJsonKey(EmitCondition(c)) == IndexKey(c.name) {
      ConditionEmitted(c);
    }
    hide StableSort, IsOrder, EmitCondition, Map, IndexKey, IsConditionDef, ConditionJsonKey;
    var order := StableSortOrder(all, ConditionJsonKey);
    MappedOrder(cs, EmitCondition, ConditionJsonKey, (c: ConditionDef) => IndexKey(c.name), order);
    assert AreConditions(cs, Emit(ir).conditions, order);
  }

  lemma GroupEmitted(g: GroupType)
    ensures IsGroupDef(g, EmitGroup(g))
  {
    hide Map;
  }

  lemma EmittedTypes(ir: ModelIR)
    ensures var (types, g) := (Emit(ir).types, |ir.groups|);
            && |types| == 1 + g + |ir.resources| && types[0] == TypeDef("user", [])
            && (forall i :: 0 <= i < g ==> types[1 + i] == EmitGroup(ir.groups[i]))
            && (forall i :: 0 <= i < |ir.resources| ==> types[1 + g + i] == EmitResource(ir.resources[i]))
  {
    hide Map, EmitGroup, EmitResource, StableSort, EmitCondition;
  }

  lemma GroupsEmitted(ir: ModelIR)
    ensures |Emit(ir).types| == 1 + |ir.groups| + |ir.resources|
    ensures forall i :: 0 <= i < |ir.groups| ==> IsGroupDef(ir.groups[i], Emit(ir).types[1 + i])
  {
    hide *;
    EmittedTypes(ir);
    forall i | 0 <= i < |ir.groups| ensures IsGroupDef(ir.groups[i], Emit(ir).types[1 + i]) {
      GroupEmitted(ir.groups[i]);
    }
  }

  lemma ResourcesEmitted(ir: ModelIR)
    ensures |Emit(ir).types| == 1 + |ir.groups| + |ir.resources|
    ensures forall i :: 0 <= i < |ir.resources| ==>
              IsResourceDef(ir.resources[i], Emit(ir).types[1 + |ir.groups| + i])
  {
    hide *;
    EmittedTypes(ir);
    forall i | 0 <= i < |ir.resources|
      ensures IsResourceDef(ir.resources[i], Emit(ir).types[1 + |ir.groups| + i])
    {
      ResourceEmitted(ir.resources[i]);
    }
  }

  lemma VersionEmitted(ir: ModelIR)
    ensures Emit(ir).schemaVersion == Some("1.1")
  {
    hide Map, StableSort;
  }

  /** The compiler emits exactly the lines of the model, in order. */
  lemma EmitExactly(ir: ModelIR)
    ensures IsEmitted(ir, Emit(ir))
  {
    hide Emit, EmitGroup, EmitResource, IsGroupDef, IsResourceDef, AreConditions;
    VersionEmitted(ir);
    EmittedTypes(ir);
    GroupsEmitted(ir);
    ResourcesEmitted(ir);
    ConditionsEmitted(ir);
  }
}
