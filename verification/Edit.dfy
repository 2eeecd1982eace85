/** The editing operations: each refuses, or changes a copy made through JSON, and leaves its argument alone. */
module Edit {
  import opened Prelude
  import opened Sorting
  import opened Condition
  import opened ModelIr
  import opened JsonCopy

  /** f applied to the first element that satisfies p. */
  function UpdateFirst<T(!new)>(s: seq<T>, p: T -> bool, f: T -> T): (r: seq<T>)
    ensures |r| == |s|
    ensures (forall x :: x in s ==> !p(x)) ==> r == s
  {
    if s == [] then []
    else if p(s[0]) then [f(s[0])] + s[1..]
    else [s[0]] + UpdateFirst(s[1..], p, f)
  }

  function ResourceIs(name: string): ResourceType -> bool { (r: ResourceType) => r.name == name }
  function RoleIs(name: string): Role -> bool { (r: Role) => r.name == name }
  function PermissionIs(name: string): Permission -> bool { (p: Permission) => p.name == name }
  function ParentIs(name: string): ParentRef -> bool { (p: ParentRef) => p.relationName == name }
  function Differs(name: string): string -> bool { (s: string) => s != name }
  function RefersElsewhere(name: string): SubjectRef -> bool { (ref: SubjectRef) => !(ref.Group? && ref.group == name) }

  function OnResource(ir: ModelIR, typ: string, f: ResourceType -> ResourceType): ModelIR {
    ir.(resources := UpdateFirst(ir.resources, ResourceIs(typ), f))
  }

  function OnPermission(name: string, f: Permission -> Permission): ResourceType -> ResourceType {
    (r: ResourceType) => r.(permissions := UpdateFirst(r.permissions, PermissionIs(name), f))
  }

  function OnRole(name: string, f: Role -> Role): ResourceType -> ResourceType {
    (r: ResourceType) => r.(roles := UpdateFirst(r.roles, RoleIs(name), f))
  }

  function Find<T>(s: seq<T>, p: T -> bool): (r: Option<T>)
    ensures r.Some? ==> r.value in s && p(r.value)
    ensures r.None? ==> forall x :: x in s ==> !p(x)
  {
    if s == [] then None else if p(s[0]) then Some(s[0]) else Find(s[1..], p)
  }

  // ---------------------------------------------------------------------------
  // Types.

  function AddResource(ir: ModelIR, name: string): ModelIR {
    if name in TypeNames(ir) then ir else ir.(resources := ir.resources + [ResourceType(name, [], [], [])])
  }

  function AddGroup(ir: ModelIR, name: string): ModelIR {
    if name in TypeNames(ir) then ir else ir.(groups := ir.groups + [GroupType(name, [User(None)])])
  }

  /** The parent relation without one of its types; none when no type is left. */
  function ParentWithout(name: string): ParentRef -> Option<ParentRef> {
    (p: ParentRef) => var types := Filter(p.parentTypes, Differs(name));
      if types == [] then None else Some(p.(parentTypes := types))
  }

  /** The name of a parent relation that disappears with a type. */
  function Orphaned(name: string): ParentRef -> Option<string> {
    (p: ParentRef) => if ParentWithout(name)(p).None? then Some(p.relationName) else None
  }

  function InheritsKept(removed: seq<string>): Permission -> Permission {
    (p: Permission) => p.(inheritFromParents := Filter(p.inheritFromParents, rel => rel !in removed))
  }

  function RoleWithout(name: string): Role -> Role {
    (role: Role) => role.(assignableBy := Filter(role.assignableBy, RefersElsewhere(name)))
  }

  function GroupWithout(name: string): GroupType -> GroupType {
    (g: GroupType) => g.(memberTypes := Filter(g.memberTypes, RefersElsewhere(name)))
  }

  function ResourceWithout(name: string): ResourceType -> ResourceType {
    (r: ResourceType) =>
      r.(parents := FilterMap(r.parents, ParentWithout(name)),
         roles := Map(r.roles, RoleWithout(name)),
         permissions := Map(r.permissions, InheritsKept(FilterMap(r.parents, Orphaned(name)))))
  }

  function TypeRemoved(ir: ModelIR, name: string): ModelIR {
    ir.(groups := Map(Filter(ir.groups, (g: GroupType) => g.name != name), GroupWithout(name)),
        resources := Map(Filter(ir.resources, (r: ResourceType) => r.name != name), ResourceWithout(name)))
  }

  // ---------------------------------------------------------------------------
  // Parent relations.

  function ParentExtended(typ: string): ParentRef -> ParentRef {
    (p: ParentRef) => if typ in p.parentTypes then p else p.(parentTypes := p.parentTypes + [typ])
  }

  function ParentConnected(relation: string, parent: string): ResourceType -> ResourceType {
    (r: ResourceType) =>
      if exists p :: p in r.parents && p.relationName == relation
      then r.(parents := UpdateFirst(r.parents, ParentIs(relation), ParentExtended(parent)))
      else r.(parents := r.parents + [ParentRef(relation, [parent])])
  }

  function ConnectParent(ir: ModelIR, child: string, parent: string, relation: string): ModelIR {
    if Find(ir.resources, ResourceIs(child)).None? || Find(ir.resources, ResourceIs(parent)).None? then ir
    else OnResource(ir, child, ParentConnected(relation, parent))
  }

  /** What is left of a parent relation; parent is absent when the whole relation goes. */
  function ParentCut(relation: string, parent: Option<string>): ParentRef -> Option<ParentRef> {
    (p: ParentRef) =>
      if p.relationName != relation then Some(p)
      else if parent.None? then None
      else ParentWithout(parent.value)(p)
  }

  function ParentDisconnected(relation: string, parent: Option<string>): ResourceType -> ResourceType {
    (r: ResourceType) =>
      var gone := exists p :: p in r.parents && ParentCut(relation, parent)(p).None?;
      r.(parents := FilterMap(r.parents, ParentCut(relation, parent)),
         permissions := if gone then Map(r.permissions, InheritsKept([relation])) else r.permissions)
  }

  function Disconnected(ir: ModelIR, child: string, relation: string, parent: Option<string>): ModelIR {
    OnResource(ir, child, ParentDisconnected(relation, parent))
  }

  // ---------------------------------------------------------------------------
  // The matrix of roles and permissions.

  function Toggle(s: seq<string>, x: string): seq<string> {
    if x in s then Filter(s, Differs(x)) else s + [x]
  }

  function GrantToggled(role: string): Permission -> Permission {
    (p: Permission) => p.(grantedByRoles := Toggle(p.grantedByRoles, role))
  }

  function ToggleCell(ir: ModelIR, typ: string, permission: string, role: string): ModelIR {
    OnResource(ir, typ, OnPermission(permission, GrantToggled(role)))
  }

  function InheritToggled(relation: string): Permission -> Permission {
    (p: Permission) => p.(inheritFromParents := Toggle(p.inheritFromParents, relation))
  }

  function ToggleInherit(ir: ModelIR, typ: string, permission: string, relation: string): ModelIR {
    OnResource(ir, typ, OnPermission(permission, InheritToggled(relation)))
  }

  function RoleAdded(name: string): ResourceType -> ResourceType {
    (r: ResourceType) => if name in RoleNames(r.roles) then r else r.(roles := r.roles + [Role(name, [User(None)])])
  }

  function AddRole(ir: ModelIR, typ: string, name: string): ModelIR {
    OnResource(ir, typ, RoleAdded(name))
  }

  function GrantsKept(name: string): Permission -> Permission {
    (p: Permission) => p.(grantedByRoles := Filter(p.grantedByRoles, Differs(name)))
  }

  function RoleRemoved(name: string): ResourceType -> ResourceType {
    (r: ResourceType) =>
      r.(roles := Filter(r.roles, (role: Role) => role.name != name),
         permissions := Map(r.permissions, GrantsKept(name)))
  }

  function WithoutRole(ir: ModelIR, typ: string, name: string): ModelIR {
    OnResource(ir, typ, RoleRemoved(name))
  }

  function Renamed(from: string, to: string): string -> string {
    (s: string) => if s == from then to else s
  }

  function RoleRenamed(from: string, to: string): Role -> Role {
    (role: Role) => role.(name := Renamed(from, to)(role.name))
  }

  function GrantsRenamed(from: string, to: string): Permission -> Permission {
    (p: Permission) => p.(grantedByRoles := Map(p.grantedByRoles, Renamed(from, to)))
  }

  function RolesRenamed(from: string, to: string): ResourceType -> ResourceType {
    (r: ResourceType) =>
      if from !in RoleNames(r.roles) then r
      else r.(roles := Map(r.roles, RoleRenamed(from, to)), permissions := Map(r.permissions, GrantsRenamed(from, to)))
  }

  function WithRoleRenamed(ir: ModelIR, typ: string, from: string, to: string): ModelIR {
    OnResource(ir, typ, RolesRenamed(from, to))
  }

  function SubjectsSet(refs: seq<SubjectRef>): Role -> Role {
    (role: Role) => role.(assignableBy := refs)
  }

  function SetRoleAssignableBy(ir: ModelIR, typ: string, role: string, refs: seq<SubjectRef>): ModelIR {
    OnResource(ir, typ, OnRole(role, SubjectsSet(refs)))
  }

  function PermissionAdded(name: string): ResourceType -> ResourceType {
    (r: ResourceType) =>
      if name in PermissionNames(r.permissions) then r
      else r.(permissions := r.permissions + [Permission(name, [], [])])
  }

  function AddPermission(ir: ModelIR, typ: string, name: string): ModelIR {
    OnResource(ir, typ, PermissionAdded(name))
  }

  function PermissionRemoved(name: string): ResourceType -> ResourceType {
    (r: ResourceType) => r.(permissions := Filter(r.permissions, (p: Permission) => p.name != name))
  }

  function RemovePermission(ir: ModelIR, typ: string, name: string): ModelIR {
    OnResource(ir, typ, PermissionRemoved(name))
  }

  function PermissionRenamed(from: string, to: string): Permission -> Permission {
    (p: Permission) => p.(name := Renamed(from, to)(p.name))
  }

  function PermissionsRenamed(from: string, to: string): ResourceType -> ResourceType {
    (r: ResourceType) => r.(permissions := Map(r.permissions, PermissionRenamed(from, to)))
  }

  function WithPermissionRenamed(ir: ModelIR, typ: string, from: string, to: string): ModelIR {
    OnResource(ir, typ, PermissionsRenamed(from, to))
  }

  // ---------------------------------------------------------------------------
  // Conditions.

  function MapSubjects(ir: ModelIR, f: SubjectRef -> SubjectRef): ModelIR {
    ir.(groups := Map(ir.groups, MembersMapped(f)), resources := Map(ir.resources, AssignmentsMapped(f)))
  }

  function MembersMapped(f: SubjectRef -> SubjectRef): GroupType -> GroupType {
    (g: GroupType) => g.(memberTypes := Map(g.memberTypes, f))
  }

  function RoleMapped(f: SubjectRef -> SubjectRef): Role -> Role {
    (role: Role) => role.(assignableBy := Map(role.assignableBy, f))
  }

  function AssignmentsMapped(f: SubjectRef -> SubjectRef): ResourceType -> ResourceType {
    (r: ResourceType) => r.(roles := Map(r.roles, RoleMapped(f)))
  }

  function AddCondition(ir: ModelIR, def: ConditionDef): ModelIR {
    if def.name in ConditionNames(ConditionsOf(ir)) then ir else ir.(conditions := Some(ConditionsOf(ir) + [def]))
  }

  function Replaced(name: string, def: ConditionDef): ConditionDef -> ConditionDef {
    (c: ConditionDef) => if c.name == name then def else c
  }

  function UpdateCondition(ir: ModelIR, name: string, def: ConditionDef): ModelIR {
    if name !in ConditionNames(ConditionsOf(ir)) then ir
    else ir.(conditions := Some(Map(ConditionsOf(ir), Replaced(name, def))))
  }

  function ConditionRenamed(from: string, to: string): ConditionDef -> ConditionDef {
    (c: ConditionDef) => c.(name := Renamed(from, to)(c.name))
  }

  function SubjectRenamed(from: string, to: string): SubjectRef -> SubjectRef {
    (ref: SubjectRef) => if ref.condition == Some(from) then ref.(condition := Some(to)) else ref
  }

  function WithConditionRenamed(ir: ModelIR, from: string, to: string): ModelIR {
    var names := ConditionNames(ConditionsOf(ir));
    if from == to || from !in names || to in names then ir
    else MapSubjects(ir.(conditions :=
      Some(Map(ConditionsOf(ir), ConditionRenamed(from, to)))), SubjectRenamed(from, to))
  }

  function Unconditioned(name: string): SubjectRef -> SubjectRef {
    (ref: SubjectRef) => if ref.condition == Some(name) then ref.(condition := None) else ref
  }

  /** The conditions, absent when there are none. */
  function OrAbsent(cs: seq<ConditionDef>): Option<seq<ConditionDef>> {
    if cs == [] then None else Some(cs)
  }

  function WithoutCondition(ir: ModelIR, name: string): ModelIR {
    if name !in ConditionNames(ConditionsOf(ir)) then ir
    else MapSubjects(ir.(conditions :=
      OrAbsent(Filter(ConditionsOf(ir), (c: ConditionDef) => c.name != name))), Unconditioned(name))
  }

  function SubjectConditioned(index: int, condition: Option<string>): Role -> Role {
    (role: Role) =>
      if 0 <= index < |role.assignableBy|
      then role.(assignableBy := role.assignableBy[index := role.assignableBy[index].(condition := condition)])
      else role
  }

  function SetAssignmentCondition(ir: ModelIR, typ: string, role: string, index: int,
      condition: Option<string>): ModelIR {
    OnResource(ir, typ, OnRole(role, SubjectConditioned(index, condition)))
  }

  // ---------------------------------------------------------------------------
  // The nineteen edits.

  datatype Operation =
    | AddingResource(name: string)
    | AddingGroup(name: string)
    | RemovingType(name: string)
    | ConnectingParent(child: string, parent: string, relation: string)
    | DisconnectingParent(child: string, relation: string, only: Option<string>)
    | TogglingCell(typ: string, permission: string, role: string)
    | AddingRole(typ: string, name: string)
    | RemovingRole(typ: string, name: string)
    | RenamingRole(typ: string, from: string, to: string)
    | SettingSubjects(typ: string, role: string, refs: seq<SubjectRef>)
    | AddingPermission(typ: string, name: string)
    | RemovingPermission(typ: string, name: string)
    | RenamingPermission(typ: string, from: string, to: string)
    | TogglingInherit(typ: string, permission: string, relation: string)
    | AddingCondition(def: ConditionDef)
    | UpdatingCondition(name: string, def: ConditionDef)
    | RenamingCondition(from: string, to: string)
    | RemovingCondition(name: string)
    | SettingCondition(typ: string, role: string, index: int, condition: Option<string>)

  /** The change that an edit makes to the copy. */
  function Apply(ir: ModelIR, e: Operation): ModelIR {
    match e
    case AddingResource(name) => AddResource(ir, name)
    case AddingGroup(name) => AddGroup(ir, name)
    case RemovingType(name) => TypeRemoved(ir, name)
    case ConnectingParent(child, parent, relation) => ConnectParent(ir, child, parent, relation)
    case DisconnectingParent(child, relation, only) => Disconnected(ir, child, relation, only)
    case TogglingCell(typ, permission, role) => ToggleCell(ir, typ, permission, role)
    case AddingRole(typ, name) => AddRole(ir, typ, name)
    case RemovingRole(typ, name) => WithoutRole(ir, typ, name)
    case RenamingRole(typ, from, to) => WithRoleRenamed(ir, typ, from, to)
    case SettingSubjects(typ, role, refs) => SetRoleAssignableBy(ir, typ, role, refs)
    case AddingPermission(typ, name) => AddPermission(ir, typ, name)
    case RemovingPermission(typ, name) => RemovePermission(ir, typ, name)
    case RenamingPermission(typ, from, to) => WithPermissionRenamed(ir, typ, from, to)
    case TogglingInherit(typ, permission, relation) => ToggleInherit(ir, typ, permission, relation)
    case AddingCondition(def) => AddCondition(ir, def)
    case UpdatingCondition(name, def) => UpdateCondition(ir, name, def)
    case RenamingCondition(from, to) => WithConditionRenamed(ir, from, to)
    case RemovingCondition(name) => WithoutCondition(ir, name)
    case SettingCondition(typ, role, index, condition) => SetAssignmentCondition(ir, typ, role, index, condition)
  }

  /** The edit does not find what it needs, or finds what it would add, and gives back its argument itself. */
  predicate Skips(ir: ModelIR, e: Operation) {
    match e
    case AddingResource(name) => name in TypeNames(ir)
    case AddingGroup(name) => name in TypeNames(ir)
    case RemovingType(_) => false
    case ConnectingParent(child, parent, _) =>
      Find(ir.resources, ResourceIs(child)).None? || Find(ir.resources, ResourceIs(parent)).None?
    case DisconnectingParent(child, _, _) => Find(ir.resources, ResourceIs(child)).None?
    case TogglingCell(typ, permission, _) => LacksPermission(ir, typ, permission)
    case AddingRole(typ, name) =>
      var r := Find(ir.resources, ResourceIs(typ));
      r.None? || name in RoleNames(r.value.roles)
    case RemovingRole(typ, _) => Find(ir.resources, ResourceIs(typ)).None?
    case RenamingRole(typ, from, _) => LacksRole(ir, typ, from)
    case SettingSubjects(typ, role, _) => LacksRole(ir, typ, role)
    case AddingPermission(typ, name) =>
      var r := Find(ir.resources, ResourceIs(typ));
      r.None? || name in PermissionNames(r.value.permissions)
    case RemovingPermission(typ, _) => Find(ir.resources, ResourceIs(typ)).None?
    case RenamingPermission(typ, from, _) => LacksPermission(ir, typ, from)
    case TogglingInherit(typ, permission, _) => LacksPermission(ir, typ, permission)
    case AddingCondition(def) => def.name in ConditionNames(ConditionsOf(ir))
    case UpdatingCondition(name, _) => name !in ConditionNames(ConditionsOf(ir))
    case RenamingCondition(from, to) =>
      from == to || from !in ConditionNames(ConditionsOf(ir)) || to in ConditionNames(ConditionsOf(ir))
    case RemovingCondition(name) => name !in ConditionNames(ConditionsOf(ir))
    case SettingCondition(typ, role, index, _) =>
      var r := Find(ir.resources, ResourceIs(typ));
      r.None? ||
      var target := Find(r.value.roles, RoleIs(role));
      target.None? || !(0 <= index < |target.value.assignableBy|)
  }

  predicate LacksRole(ir: ModelIR, typ: string, role: string) {
    var r := Find(ir.resources, ResourceIs(typ));
    r.None? || role !in RoleNames(r.value.roles)
  }

  predicate LacksPermission(ir: ModelIR, typ: string, permission: string) {
    var r := Find(ir.resources, ResourceIs(typ));
    r.None? || permission !in PermissionNames(r.value.permissions)
  }

  /** A condition that an edit brings in is copied too. */
  function CopiedEdit(e: Operation): Operation {
    match e
    case AddingCondition(def) => AddingCondition(CopiedDef(def))
    case UpdatingCondition(name, def) => UpdatingCondition(name, CopiedDef(def))
    case _ => e
  }

  function Edited(ir: ModelIR, e: Operation): ModelIR {
    if Skips(ir, e) then ir else Apply(Copied(ir), CopiedEdit(e))
  }

  lemma {:induction false} FindAt<T(!new)>(s: seq<T>, p: T -> bool, k: nat)
    requires k <= |s| && (forall i :: 0 <= i < k ==> !p(s[i])) && (k < |s| ==> p(s[k]))
    ensures Find(s, p) == if k < |s| then Some(s[k]) else None
  {
    if k > 0 {
      FindAt(s[1..], p, k - 1);
    }
  }

  // ---------------------------------------------------------------------------
  // The operations that change a copy in loops.

  /** Position of the first resource of that name, or the number of resources. */
  method IndexOfResource(rs: seq<ResourceType>, name: string) returns (k: nat)
    ensures k <= |rs|
    ensures forall i :: 0 <= i < k ==> rs[i].name != name
    ensures k < |rs| ==> rs[k].name == name
  {
    k := 0;
    while k < |rs| && rs[k].name != name
      invariant k <= |rs| && forall i :: 0 <= i < k ==> rs[i].name != name
    {
      k := k + 1;
    }
  }

  lemma {:induction false} UpdateFirstAt<T(!new)>(s: seq<T>, p: T -> bool, f: T -> T, k: nat)
    requires k <= |s| && (forall i :: 0 <= i < k ==> !p(s[i])) && (k < |s| ==> p(s[k]))
    ensures UpdateFirst(s, p, f) == if k < |s| then s[k := f(s[k])] else s
  {
    if k > 0 {
      UpdateFirstAt(s[1..], p, f, k - 1);
    }
  }

  /** The references that do not name the removed group, and the members and roles that hold them. */
  method StripGroupRefs(refs: seq<SubjectRef>, name: string) returns (kept: seq<SubjectRef>)
    ensures kept == Filter(refs, RefersElsewhere(name))
  {
    kept := [];
    for i := 0 to |refs|
      invariant kept == Filter(refs[..i], RefersElsewhere(name))
    {
      FilterNext(refs, i, RefersElsewhere(name));
      if !(refs[i].Group? && refs[i].group == name) {
        kept := kept + [refs[i]];
      }
    }
    assert refs[..|refs|] == refs;
  }

  method RemoveOutOf(r: ResourceType, name: string) returns (there: ResourceType)
    ensures there == ResourceWithout(name)(r)
  {
    hide Filter, FilterMap, Map;
    var removed: seq<string> := [];
    var parents: seq<ParentRef> := [];
    FilterMapNone(r.parents[..0], Orphaned(name));
    FilterMapNone(r.parents[..0], ParentWithout(name));
    for i := 0 to |r.parents|
      invariant removed == FilterMap(r.parents[..i], Orphaned(name))
      invariant parents == FilterMap(r.parents[..i], ParentWithout(name))
    {
      FilterMapNext(r.parents, i, Orphaned(name));
      FilterMapNext(r.parents, i, ParentWithout(name));
      var types := Filter(r.parents[i].parentTypes, Differs(name));
      if |types| == 0 {
        removed := removed + [r.parents[i].relationName];
      } else {
        parents := parents + [r.parents[i].(parentTypes := types)];
      }
    }
    assert r.parents[..|r.parents|] == r.parents;
    var roles := r.roles;
    for i := 0 to |roles|
      invariant |roles| == |r.roles|
      invariant forall k :: 0 <= k < |roles| ==> roles[k] == if k < i then RoleWithout(name)(r.roles[k]) else r.roles[k]
    {
      var assignableBy := StripGroupRefs(roles[i].assignableBy, name);
      roles := roles[i := roles[i].(assignableBy := assignableBy)];
    }
    var permissions := r.permissions;
    for i := 0 to |permissions|
      invariant |permissions| == |r.permissions|
      invariant forall k :: 0 <= k < |permissions| ==>
                  permissions[k] == if k < i then InheritsKept(removed)(r.permissions[k]) else r.permissions[k]
    {
      permissions := permissions[i := InheritsKept(removed)(permissions[i])];
    }
    assert roles == Map(r.roles, RoleWithout(name));
    assert permissions == Map(r.permissions, InheritsKept(removed));
    there := r.(parents := parents, roles := roles, permissions := permissions);
  }

  method RemoveType(ir: ModelIR, name: string) returns (next: ModelIR)
    ensures next == Edited(ir, RemovingType(name))
  {
    hide Filter, Map, ResourceWithout, Copied;
    next := Copied(ir);
    ghost var copy := next;
    var groups := Filter(next.groups, (g: GroupType) => g.name != name);
    var resources := Filter(next.resources, (r: ResourceType) => r.name != name);
    ghost var (keptGroups, keptResources) := (groups, resources);
    for i := 0 to |groups|
      invariant |groups| == |keptGroups|
      invariant forall k :: 0 <= k < |groups| ==>
                  groups[k] == if k < i then GroupWithout(name)(keptGroups[k]) else keptGroups[k]
    {
      var memberTypes := StripGroupRefs(groups[i].memberTypes, name);
      groups := groups[i := groups[i].(memberTypes := memberTypes)];
    }
    for i := 0 to |resources|
      invariant |resources| == |keptResources|
      invariant forall k :: 0 <= k < |resources| ==>
                  resources[k] == if k < i then ResourceWithout(name)(keptResources[k]) else keptResources[k]
    {
      var there := RemoveOutOf(resources[i], name);
      resources := resources[i := there];
    }
    assert groups == Map(keptGroups, GroupWithout(name));
    assert resources == Map(keptResources, ResourceWithout(name));
    next := next.(groups := groups, resources := resources);
    assert next == TypeRemoved(copy, name);
  }

  method CutOut(c: ResourceType, relation: string, parent: Option<string>) returns (there: ResourceType)
    ensures there == ParentDisconnected(relation, parent)(c)
  {
    hide Filter, FilterMap, Map;
    var relationRemoved := false;
    var parents: seq<ParentRef> := [];
    FilterMapNone(c.parents[..0], ParentCut(relation, parent));
    for i := 0 to |c.parents|
      invariant parents == FilterMap(c.parents[..i], ParentCut(relation, parent))
      invariant relationRemoved <==> exists p :: p in c.parents[..i] && ParentCut(relation, parent)(p).None?
    {
      var p := c.parents[i];
      FilterMapNext(c.parents, i, ParentCut(relation, parent));
      assert c.parents[..i + 1] == c.parents[..i] + [p];
      if p.relationName != relation {
        parents := parents + [p];
      } else if parent.None? {
        relationRemoved := true;
      } else {
        var types := Filter(p.parentTypes, Differs(parent.value));
        assert ParentWithout(parent.value)(p) == if types == [] then None else Some(p.(parentTypes := types));
        if |types| == 0 {
          relationRemoved := true;
        } else {
          parents := parents + [p.(parentTypes := types)];
        }
      }
    }
    assert c.parents[..|c.parents|] == c.parents;
    var permissions := c.permissions;
    if relationRemoved {
      for i := 0 to |permissions|
        invariant |permissions| == |c.permissions|
        invariant forall k :: 0 <= k < |permissions| ==>
                    permissions[k] == if k < i then InheritsKept([relation])(c.permissions[k]) else c.permissions[k]
      {
        permissions := permissions[i := InheritsKept([relation])(permissions[i])];
      }
      assert permissions == Map(c.permissions, InheritsKept([relation]));
    }
    there := c.(parents := parents, permissions := permissions);
  }

  method DisconnectParent(ir: ModelIR, child: string, relation: string, parent: Option<string>) returns (next: ModelIR)
    ensures next == Edited(ir, DisconnectingParent(child, relation, parent))
  {
    hide UpdateFirst, Find, ParentDisconnected;
    var k := IndexOfResource(ir.resources, child);
    FindAt(ir.resources, ResourceIs(child), k);
    if k == |ir.resources| {
      return ir;
    }
    var copy := Copied(ir);
    UpdateFirstAt(copy.resources, ResourceIs(child), ParentDisconnected(relation, parent), k);
    var there := CutOut(copy.resources[k], relation, parent);
    next := copy.(resources := copy.resources[k := there]);
  }

  method RemoveRole(ir: ModelIR, typ: string, name: string) returns (next: ModelIR)
    ensures next == Edited(ir, RemovingRole(typ, name))
  {
    hide Filter, Map, UpdateFirst, Find;
    var copy := Copied(ir);
    var k := IndexOfResource(ir.resources, typ);
    FindAt(ir.resources, ResourceIs(typ), k);
    UpdateFirstAt(ir.resources, ResourceIs(typ), RoleRemoved(name), k);
    if k == |ir.resources| {
      return ir;
    }
    var res := ir.resources[k];
    var permissions := res.permissions;
    for i := 0 to |permissions|
      invariant |permissions| == |res.permissions|
      invariant forall k :: 0 <= k < |permissions| ==>
                  permissions[k] == if k < i then GrantsKept(name)(res.permissions[k]) else res.permissions[k]
    {
      permissions := permissions[i := GrantsKept(name)(permissions[i])];
    }
    assert permissions == Map(res.permissions, GrantsKept(name));
    next := copy.(resources := copy.resources[k :=
      res.(roles := Filter(res.roles, (role: Role) => role.name != name), permissions := permissions)]);
  }

  method RenameRole(ir: ModelIR, typ: string, from: string, to: string) returns (next: ModelIR)
    ensures next == Edited(ir, RenamingRole(typ, from, to))
  {
    hide Map, UpdateFirst, Find;
    var copy := Copied(ir);
    var k := IndexOfResource(ir.resources, typ);
    FindAt(ir.resources, ResourceIs(typ), k);
    UpdateFirstAt(ir.resources, ResourceIs(typ), RolesRenamed(from, to), k);
    if k == |ir.resources| || from !in RoleNames(ir.resources[k].roles) {
      return ir;
    }
    var res := ir.resources[k];
    var roles := res.roles;
    for i := 0 to |roles|
      invariant |roles| == |res.roles|
      invariant forall k :: 0 <= k < |roles| ==>
                  roles[k] == if k < i then RoleRenamed(from, to)(res.roles[k]) else res.roles[k]
    {
      assert RoleRenamed(from, to)(roles[i]) ==
        roles[i].(name := if roles[i].name == from then to else roles[i].name) by {
        assert Renamed(from, to)(roles[i].name) == if roles[i].name == from then to else roles[i].name;
      }
      if roles[i].name == from {
        roles := roles[i := roles[i].(name := to)];
      }
    }
    var permissions := res.permissions;
    for i := 0 to |permissions|
      invariant |permissions| == |res.permissions|
      invariant forall k :: 0 <= k < |permissions| ==>
                  permissions[k] == if k < i then GrantsRenamed(from, to)(res.permissions[k]) else res.permissions[k]
    {
      permissions := permissions[i :=
        permissions[i].(grantedByRoles := Map(permissions[i].grantedByRoles, Renamed(from, to)))];
    }
    assert roles == Map(res.roles, RoleRenamed(from, to));
    assert permissions == Map(res.permissions, GrantsRenamed(from, to));
    next := copy.(resources := copy.resources[k := res.(roles := roles, permissions := permissions)]);
  }

  method RenamePermission(ir: ModelIR, typ: string, from: string, to: string) returns (next: ModelIR)
    ensures next == Edited(ir, RenamingPermission(typ, from, to))
  {
    hide Map, UpdateFirst, Find;
    var copy := Copied(ir);
    var k := IndexOfResource(ir.resources, typ);
    FindAt(ir.resources, ResourceIs(typ), k);
    UpdateFirstAt(ir.resources, ResourceIs(typ), PermissionsRenamed(from, to), k);
    if k == |ir.resources| || from !in PermissionNames(ir.resources[k].permissions) {
      return ir;
    }
    var res := ir.resources[k];
    var permissions := res.permissions;
    for i := 0 to |permissions|
      invariant |permissions| == |res.permissions|
      invariant forall k :: 0 <= k < |permissions| ==>
                  permissions[k] == (if k < i then PermissionRenamed(from, to)(res.permissions[k])
                                     else res.permissions[k])
    {
      assert PermissionRenamed(from, to)(permissions[i]) ==
        permissions[i].(name := if permissions[i].name == from then to else permissions[i].name) by {
        assert Renamed(from, to)(permissions[i].name) ==
          if permissions[i].name == from then to else permissions[i].name;
      }
      if permissions[i].name == from {
        permissions := permissions[i := permissions[i].(name := to)];
      }
    }
    assert permissions == Map(res.permissions, PermissionRenamed(from, to));
    next := copy.(resources := copy.resources[k := res.(permissions := permissions)]);
  }

  /** Every subject reference of the copy replaced, group by group and role by role. */
  method FixSubjects(ir: ModelIR, f: SubjectRef -> SubjectRef) returns (next: ModelIR)
    ensures next == MapSubjects(ir, f)
  {
    hide Map;
    var groups := ir.groups;
    for i := 0 to |groups|
      invariant |groups| == |ir.groups|
      invariant forall k :: 0 <= k < |groups| ==>
                  groups[k] == if k < i then MembersMapped(f)(ir.groups[k]) else ir.groups[k]
    {
      groups := groups[i := groups[i].(memberTypes := Map(groups[i].memberTypes, f))];
    }
    var resources := ir.resources;
    for i := 0 to |resources|
      invariant |resources| == |ir.resources|
      invariant forall k :: 0 <= k < |resources| ==>
                  resources[k] == if k < i then AssignmentsMapped(f)(ir.resources[k]) else ir.resources[k]
    {
      var was := resources[i].roles;
      var roles := was;
      for j := 0 to |roles|
        invariant |roles| == |was|
        invariant forall k :: 0 <= k < |roles| ==> roles[k] == if k < j then RoleMapped(f)(was[k]) else was[k]
      {
        roles := roles[j := roles[j].(assignableBy := Map(roles[j].assignableBy, f))];
      }
      assert roles == Map(was, RoleMapped(f));
      resources := resources[i := resources[i].(roles := roles)];
    }
    assert groups == Map(ir.groups, MembersMapped(f)) && resources == Map(ir.resources, AssignmentsMapped(f));
    next := ir.(groups := groups, resources := resources);
  }

  method RenameCondition(ir: ModelIR, from: string, to: string) returns (next: ModelIR)
    ensures next == Edited(ir, RenamingCondition(from, to))
  {
    hide Map, MapSubjects;
    if from == to || from !in ConditionNames(ConditionsOf(ir)) || to in ConditionNames(ConditionsOf(ir)) {
      return ir;
    }
    var copy := Copied(ir);
    var conds := ConditionsOf(copy);
    CopiedNames(ConditionsOf(ir));
    var renamed := conds;
    for i := 0 to |renamed|
      invariant |renamed| == |conds|
      invariant forall k :: 0 <= k < |renamed| ==>
                  renamed[k] == if k < i then ConditionRenamed(from, to)(conds[k]) else conds[k]
    {
      assert ConditionRenamed(from, to)(renamed[i]) ==
        renamed[i].(name := if renamed[i].name == from then to else renamed[i].name) by {
        assert Renamed(from, to)(renamed[i].name) == if renamed[i].name == from then to else renamed[i].name;
      }
      if renamed[i].name == from {
        renamed := renamed[i := renamed[i].(name := to)];
      }
    }
    assert renamed == Map(conds, ConditionRenamed(from, to));
    next := FixSubjects(copy.(conditions := Some(renamed)), SubjectRenamed(from, to));
  }

  method RemoveCondition(ir: ModelIR, name: string) returns (next: ModelIR)
    ensures next == Edited(ir, RemovingCondition(name))
  {
    hide Filter, Map, MapSubjects;
    if name !in ConditionNames(ConditionsOf(ir)) {
      return ir;
    }
    var copy := Copied(ir);
    CopiedNames(ConditionsOf(ir));
    var left := Filter(ConditionsOf(copy), (c: ConditionDef) => c.name != name);
    next := FixSubjects(copy.(conditions := if |left| == 0 then None else Some(left)), Unconditioned(name));
  }
}
