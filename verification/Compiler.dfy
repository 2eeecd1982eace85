/** Model to relation definitions: what compileIrToDsl emits, as the transformer reads it back into JSON. */
module Compiler {
  import opened Prelude
  import opened JsNumber
  import opened Condition
  import opened ConditionCel
  import opened ModelIr
  import opened Validator
  import opened AuthModel
  import opened Sorting

  // ---------------------------------------------------------------------------
  // Objects with one property per name list integer-like names first, in increasing order.

  const NOT_AN_INDEX: int := 0x1_0000_0000

  /** The value of an array-index name; every other name comes after all of those. */
  function IndexKey(name: string): int {
    if name != "" && AllDigits(name) && (|name| == 1 || name[0] != '0') && DigitsValue(name) < 0xFFFF_FFFF
    then DigitsValue(name) else NOT_AN_INDEX
  }

  function RelationKey(r: Relation): int { IndexKey(r.name) }
  function ConditionJsonKey(c: ConditionJson): int { IndexKey(c.name) }
  function ParameterKey(p: (string, string)): int { IndexKey(p.0) }

  // ---------------------------------------------------------------------------
  // Emitting.

  function EmitSubject(ref: SubjectRef): Ref {
    match ref
    case User(condition) => Ref("user", None, false, condition)
    case Group(group, condition) => Ref(group, Some("member"), false, condition)
  }

  function EmitParentType(typ: string): Ref {
    Ref(typ, None, false, None)
  }

  function EmitParent(p: ParentRef): Relation {
    Relation(p.relationName, This, Map(p.parentTypes, EmitParentType))
  }

  function EmitRole(role: Role): Relation {
    Relation(role.name, This, Map(role.assignableBy, EmitSubject))
  }

  function EmitGrant(role: string): Userset {
    Computed("", role)
  }

  function EmitInherit(can: string): string -> Userset {
    relation => TupleTo(relation, can)
  }

  function PermissionChildren(perm: Permission): seq<Userset> {
    Map(perm.grantedByRoles, EmitGrant) + Map(perm.inheritFromParents, EmitInherit(CanName(perm.name)))
  }

  /** A single operand stands alone; several are a union. */
  function EmitPermission(perm: Permission): Relation {
    var children := PermissionChildren(perm);
    Relation(CanName(perm.name), if |children| == 1 then children[0] else Union(children), [])
  }

  function EmitGroup(g: GroupType): TypeDef {
    TypeDef(g.name, [Relation("member", This, Map(g.memberTypes, EmitSubject))])
  }

  function ResourceRelations(r: ResourceType): seq<Relation> {
    Map(r.parents, EmitParent) + Map(r.roles, EmitRole) + Map(r.permissions, EmitPermission)
  }

  function EmitResource(r: ResourceType): TypeDef {
    TypeDef(r.name, StableSort(ResourceRelations(r), RelationKey))
  }

  function TypeNameOf(t: ParamType): string {
    match t
    case Timestamp => "TYPE_NAME_TIMESTAMP"
    case IpAddress => "TYPE_NAME_IPADDRESS"
    case Str => "TYPE_NAME_STRING"
    case Int => "TYPE_NAME_INT"
    case Double => "TYPE_NAME_DOUBLE"
    case Bool => "TYPE_NAME_BOOL"
  }

  function EmitParam(p: Param): (string, string) {
    (p.name, TypeNameOf(p.typ))
  }

  function EmitCondition(def: ConditionDef): ConditionJson {
    ConditionJson(def.name, StableSort(Map(def.params, EmitParam), ParameterKey), Some(NodeToCel(def.tree, true)))
  }

  function Emit(ir: ModelIR): Model {
    Model(Some("1.1"),
          [TypeDef("user", [])] + Map(ir.groups, EmitGroup) + Map(ir.resources, EmitResource),
          StableSort(Map(ConditionsOf(ir), EmitCondition), ConditionJsonKey))
  }

  method EmitRelations(r: ResourceType) returns (relLines: seq<Relation>)
    ensures relLines == ResourceRelations(r)
  {
    hide Map, EmitParent, EmitRole, EmitPermission;
    relLines := [];
    for i := 0 to |r.parents|
      invariant relLines == Map(r.parents, EmitParent)[..i]
    {
      relLines := relLines + [EmitParent(r.parents[i])];
    }
    ghost var parents := relLines;
    for i := 0 to |r.roles|
      invariant relLines == parents + Map(r.roles, EmitRole)[..i]
    {
      relLines := relLines + [EmitRole(r.roles[i])];
    }
    ghost var roles := relLines;
    for i := 0 to |r.permissions|
      invariant relLines == roles + Map(r.permissions, EmitPermission)[..i]
    {
      relLines := relLines + [EmitPermission(r.permissions[i])];
    }
  }

  method EmitDsl(ir: ModelIR) returns (m: Model)
    ensures m == Emit(ir)
  {
    hide Map, EmitGroup, EmitCondition, StableSort, ResourceRelations;
    var types := [TypeDef("user", [])];
    for i := 0 to |ir.groups|
      invariant types == [TypeDef("user", [])] + Map(ir.groups, EmitGroup)[..i]
    {
      types := types + [EmitGroup(ir.groups[i])];
    }
    ghost var groups := types;
    for i := 0 to |ir.resources|
      invariant types == groups + Map(ir.resources, EmitResource)[..i]
    {
      var relations := EmitRelations(ir.resources[i]);
      types := types + [TypeDef(ir.resources[i].name, StableSort(relations, RelationKey))];
    }
    var blocks: seq<ConditionJson> := [];
    var conditions := ConditionsOf(ir);
    for i := 0 to |conditions|
      invariant blocks == Map(conditions, EmitCondition)[..i]
    {
      blocks := blocks + [EmitCondition(conditions[i])];
    }
    assert Map(ir.groups, EmitGroup)[..|ir.groups|] == Map(ir.groups, EmitGroup);
    assert Map(ir.resources, EmitResource)[..|ir.resources|] == Map(ir.resources, EmitResource);
    assert blocks == Map(conditions, EmitCondition);
    m := Model(Some("1.1"), types, StableSort(blocks, ConditionJsonKey));
  }

  datatype CompileResult = IrInvalid(errors: seq<ValidationError>) | Compiled(model: Model)

  /** Only a well-formed model is compiled; any other is refused with all its errors. */
  method CompileIrToDsl(ir: ModelIR) returns (r: CompileResult)
    ensures r.Compiled? <==> WellFormed(ir)
    ensures r == if WellFormed(ir) then Compiled(Emit(ir)) else IrInvalid(Errors(ir))
  {
    var errors := ValidateModelIR(ir);
    if |errors| > 0 {
      return IrInvalid(errors);
    }
    var m := EmitDsl(ir);
    return Compiled(m);
  }
}
