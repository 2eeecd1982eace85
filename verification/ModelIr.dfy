/** The five-primitive model and its well-formedness. */
module ModelIr {
  import opened Prelude
  import opened Condition

  datatype SubjectRef =
    | User(condition: Option<string>)
    | Group(group: string, condition: Option<string>)

  datatype GroupType = GroupType(name: string, memberTypes: seq<SubjectRef>)

  datatype ParentRef = ParentRef(relationName: string, parentTypes: seq<string>)

  datatype Role = Role(name: string, assignableBy: seq<SubjectRef>)

  datatype Permission = Permission(name: string, grantedByRoles: seq<string>, inheritFromParents: seq<string>)

  datatype ResourceType =
    ResourceType(name: string, parents: seq<ParentRef>, roles: seq<Role>, permissions: seq<Permission>)

  /** conditions is absent, not empty, when a model has none. */
  datatype ModelIR = ModelIR(groups: seq<GroupType>, resources: seq<ResourceType>,
      conditions: Option<seq<ConditionDef>>)

  function ConditionsOf(ir: ModelIR): seq<ConditionDef> {
    if ir.conditions.None? then [] else ir.conditions.value
  }

  // ---------------------------------------------------------------------------
  // Names.

  function GroupNames(gs: seq<GroupType>): (r: seq<string>)
    ensures |r| == |gs| && forall i :: 0 <= i < |r| ==> r[i] == gs[i].name
  {
    seq(|gs|, i requires 0 <= i < |gs| => gs[i].name)
  }

  function ResourceNames(rs: seq<ResourceType>): (r: seq<string>)
    ensures |r| == |rs| && forall i :: 0 <= i < |r| ==> r[i] == rs[i].name
  {
    seq(|rs|, i requires 0 <= i < |rs| => rs[i].name)
  }

  function TypeNames(ir: ModelIR): seq<string> {
    GroupNames(ir.groups) + ResourceNames(ir.resources)
  }

  function ParentNames(ps: seq<ParentRef>): (r: seq<string>)
    ensures |r| == |ps| && forall i :: 0 <= i < |r| ==> r[i] == ps[i].relationName
  {
    seq(|ps|, i requires 0 <= i < |ps| => ps[i].relationName)
  }

  /** The first parent relation of the name. */
  function ParentNamed(ps: seq<ParentRef>, name: string): Option<ParentRef> {
    if ps == [] then None else if ps[0].relationName == name then Some(ps[0]) else ParentNamed(ps[1..], name)
  }

  function RoleNames(rs: seq<Role>): (r: seq<string>)
    ensures |r| == |rs| && forall i :: 0 <= i < |r| ==> r[i] == rs[i].name
  {
    seq(|rs|, i requires 0 <= i < |rs| => rs[i].name)
  }

  function PermissionNames(ps: seq<Permission>): (r: seq<string>)
    ensures |r| == |ps| && forall i :: 0 <= i < |r| ==> r[i] == ps[i].name
  {
    seq(|ps|, i requires 0 <= i < |ps| => ps[i].name)
  }

  function CanName(permission: string): string {
    "can_" + permission
  }

  function CanNames(ps: seq<Permission>): (r: seq<string>)
    ensures |r| == |ps| && forall i :: 0 <= i < |r| ==> r[i] == CanName(ps[i].name)
  {
    seq(|ps|, i requires 0 <= i < |ps| => CanName(ps[i].name))
  }

  function ConditionNames(cs: seq<ConditionDef>): (r: seq<string>)
    ensures |r| == |cs| && forall i :: 0 <= i < |r| ==> r[i] == cs[i].name
  {
    seq(|cs|, i requires 0 <= i < |cs| => cs[i].name)
  }

  /** The relations of a resource, in the order they are claimed. */
  function RelationNames(r: ResourceType): seq<string> {
    ParentNames(r.parents) + RoleNames(r.roles) + CanNames(r.permissions)
  }

  // ---------------------------------------------------------------------------
  // Well-formedness, as a predicate.

  ghost predicate GroupResolves(ref: SubjectRef, ir: ModelIR) {
    ref.Group? ==> ref.group in GroupNames(ir.groups)
  }

  ghost predicate ConditionResolves(ref: SubjectRef, ir: ModelIR) {
    ref.condition.Some? ==> ref.condition.value in ConditionNames(ConditionsOf(ir))
  }

  ghost predicate GoodSubjects(refs: seq<SubjectRef>, ir: ModelIR) {
    refs != [] && forall ref :: ref in refs ==> GroupResolves(ref, ir)
  }

  ghost predicate GoodParent(p: ParentRef, ir: ModelIR) {
    && IsIdentifier(p.relationName)
    && p.parentTypes != []
    && Distinct(p.parentTypes)
    && forall t :: t in p.parentTypes ==> t in ResourceNames(ir.resources)
  }

  ghost predicate GoodRole(role: Role, ir: ModelIR) {
    IsIdentifier(role.name) && GoodSubjects(role.assignableBy, ir)
  }

  ghost predicate HasPermission(r: ResourceType, name: string) {
    name in PermissionNames(r.permissions)
  }

  /** A permission inherited along a relation exists on every type that the relation may point to. */
  ghost predicate InheritanceResolves(perm: Permission, r: ResourceType, ir: ModelIR) {
    forall p, parent | p in r.parents && p.relationName in perm.inheritFromParents ::
      parent in ir.resources && parent.name in p.parentTypes ==> HasPermission(parent, perm.name)
  }

  ghost predicate GoodPermission(perm: Permission, r: ResourceType, ir: ModelIR) {
    && IsIdentifier(perm.name)
    && perm.grantedByRoles != []
    && (forall role :: role in perm.grantedByRoles ==> role in RoleNames(r.roles))
    && (forall rel :: rel in perm.inheritFromParents ==> rel in ParentNames(r.parents))
    && InheritanceResolves(perm, r, ir)
  }

  ghost predicate GoodResource(r: ResourceType, ir: ModelIR) {
    && Distinct(RelationNames(r))
    && (forall p :: p in r.parents ==> GoodParent(p, ir))
    && (forall role :: role in r.roles ==> GoodRole(role, ir))
    && (forall perm :: perm in r.permissions ==> GoodPermission(perm, r, ir))
  }

  ghost predicate GoodTypeNames(ir: ModelIR) {
    && Distinct(TypeNames(ir))
    && forall i :: 0 <= i < |TypeNames(ir)| ==> TypeNames(ir)[i] != "user" && IsIdentifier(TypeNames(ir)[i])
  }

  ghost predicate GoodConditions(ir: ModelIR) {
    && Distinct(ConditionNames(ConditionsOf(ir)))
    && (forall c :: c in ConditionsOf(ir) ==> ValidCondition(c))
    && (forall g, ref :: g in ir.groups && ref in g.memberTypes ==> ConditionResolves(ref, ir))
    && (forall r, role, ref ::
         r in ir.resources && role in r.roles && ref in role.assignableBy ==> ConditionResolves(ref, ir))
  }

  ghost predicate WellFormed(ir: ModelIR) {
    && GoodTypeNames(ir)
    && (forall g :: g in ir.groups ==> GoodSubjects(g.memberTypes, ir))
    && (forall r :: r in ir.resources ==> GoodResource(r, ir))
    && GoodConditions(ir)
  }
}
