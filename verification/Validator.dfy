/** validateModelIR: every violation is collected, in the order the rules are checked. */
module Validator {
  import opened Prelude
  import opened Condition
  import opened ModelIr

  datatype ErrorCode =
    | BadIdentifier | DupType | DupRelation | UnknownParent | UnknownRole | UnknownGroup | EmptyGrant | ReservedUser
    | ParentMissingPermission | DupParentRelation | EmptySubjects | ConditionUnknown | DupCondition
    | InCondition(error: ConditionError)

  /** Which element of the model a violation is reported on. */
  datatype Place =
    | GroupAt(g: nat)
    | ResourceAt(r: nat)
    | ParentAt(r: nat, p: nat)
    | RoleAt(r: nat, role: nat)
    | PermissionAt(r: nat, perm: nat)
    | ConditionAt(c: nat)

  datatype ValidationError = ValidationError(code: ErrorCode, place: Place)

  function Flag(bad: bool, code: ErrorCode, place: Place): seq<ValidationError> {
    if bad then [ValidationError(code, place)] else []
  }

  // ---------------------------------------------------------------------------
  // The errors as a function of the model; each list is what the first n elements contribute.

  function TypePlace(ir: ModelIR, i: nat): Place {
    if i < |ir.groups| then GroupAt(i) else ResourceAt(i - |ir.groups|)
  }

  function TypeErrors(ir: ModelIR, n: nat): seq<ValidationError>
    requires n <= |TypeNames(ir)|
  {
    if n == 0 then []
    else
      var name, place := TypeNames(ir)[n - 1], TypePlace(ir, n - 1);
      TypeErrors(ir, n - 1)
      + (if name == "user" then [ValidationError(ReservedUser, place)]
        else Flag(!IsIdentifier(name), BadIdentifier, place))
      + Flag(name in TypeNames(ir)[..n - 1], DupType, place)
  }

  function SubjectErrors(refs: seq<SubjectRef>, groups: set<string>, place: Place, n: nat): seq<ValidationError>
    requires n <= |refs|
  {
    if n == 0 then []
    else
      SubjectErrors(refs, groups, place, n - 1)
      + Flag(refs[n - 1].Group? && refs[n - 1].group !in groups, UnknownGroup, place)
  }

  function SubjectListErrors(refs: seq<SubjectRef>, groups: set<string>, place: Place): seq<ValidationError> {
    Flag(refs == [], EmptySubjects, place) + SubjectErrors(refs, groups, place, |refs|)
  }

  function GroupErrors(ir: ModelIR, groups: set<string>, n: nat): seq<ValidationError>
    requires n <= |ir.groups|
  {
    if n == 0 then []
    else GroupErrors(ir, groups, n - 1) + SubjectListErrors(ir.groups[n - 1].memberTypes, groups, GroupAt(n - 1))
  }

  function ParentTypeErrors(types: seq<string>, resources: set<string>, place: Place, n: nat): seq<ValidationError>
    requires n <= |types|
  {
    if n == 0 then []
    else
      ParentTypeErrors(types, resources, place, n - 1)
      + Flag(types[n - 1] in types[..n - 1], DupParentRelation, place)
      + Flag(types[n - 1] !in resources, UnknownParent, place)
  }

  function ParentErrors(ps: seq<ParentRef>, resources: set<string>, ri: nat, n: nat): seq<ValidationError>
    requires n <= |ps|
  {
    if n == 0 then []
    else
      var p, place := ps[n - 1], ParentAt(ri, n - 1);
      ParentErrors(ps, resources, ri, n - 1)
      + Flag(!IsIdentifier(p.relationName), BadIdentifier, place)
      + Flag(p.relationName in ParentNames(ps)[..n - 1], DupParentRelation, place)
      + Flag(p.parentTypes == [], UnknownParent, place)
      + ParentTypeErrors(p.parentTypes, resources, place, |p.parentTypes|)
  }

  function RoleErrors(r: ResourceType, groups: set<string>, ri: nat, n: nat): seq<ValidationError>
    requires n <= |r.roles|
  {
    if n == 0 then []
    else
      var role, place := r.roles[n - 1], RoleAt(ri, n - 1);
      RoleErrors(r, groups, ri, n - 1)
      + Flag(!IsIdentifier(role.name), BadIdentifier, place)
      + Flag(role.name in ParentNames(r.parents) || role.name in RoleNames(r.roles)[..n - 1], DupRelation, place)
      + SubjectListErrors(role.assignableBy, groups, place)
  }

  function GrantErrors(grants: seq<string>, roles: set<string>, place: Place, n: nat): seq<ValidationError>
    requires n <= |grants|
  {
    if n == 0 then []
    else GrantErrors(grants, roles, place, n - 1) + Flag(grants[n - 1] !in roles, UnknownRole, place)
  }

  /** Permission names by resource name; of two resources with one name the later counts. */
  function PermsOf(rs: seq<ResourceType>, name: string): Option<seq<string>> {
    if rs == [] then None
    else if rs[|rs| - 1].name == name then Some(PermissionNames(rs[|rs| - 1].permissions))
    else PermsOf(rs[..|rs| - 1], name)
  }

  function MissingErrors(types: seq<string>, perm: string, rs: seq<ResourceType>, place: Place,
      n: nat): seq<ValidationError>
    requires n <= |types|
  {
    if n == 0 then []
    else
      var perms := PermsOf(rs, types[n - 1]);
      MissingErrors(types, perm, rs, place, n - 1)
      + Flag(perms.Some? && perm !in perms.value, ParentMissingPermission, place)
  }

  function InheritErrors(perm: Permission, r: ResourceType, rs: seq<ResourceType>, place: Place,
      n: nat): seq<ValidationError>
    requires n <= |perm.inheritFromParents|
  {
    if n == 0 then []
    else
      InheritErrors(perm, r, rs, place, n - 1)
      + match ParentNamed(r.parents, perm.inheritFromParents[n - 1])
        case None => [ValidationError(UnknownParent, place)]
        case Some(p) => MissingErrors(p.parentTypes, perm.name, rs, place, |p.parentTypes|)
  }

  function GrantListErrors(perm: Permission, roles: set<string>, place: Place): seq<ValidationError> {
    Flag(perm.grantedByRoles == [], EmptyGrant, place)
    + GrantErrors(perm.grantedByRoles, roles, place, |perm.grantedByRoles|)
  }

  function PermissionNameErrors(r: ResourceType, ri: nat, k: nat): seq<ValidationError>
    requires k < |r.permissions|
  {
    var can := CanNames(r.permissions)[k];
    Flag(!IsIdentifier(r.permissions[k].name), BadIdentifier, PermissionAt(ri, k))
    + Flag(can in ParentNames(r.parents) || can in RoleNames(r.roles) || can in CanNames(r.permissions)[..k],
           DupRelation, PermissionAt(ri, k))
  }

  function PermissionErrors(r: ResourceType, rs: seq<ResourceType>, ri: nat, n: nat): seq<ValidationError>
    requires n <= |r.permissions|
  {
    if n == 0 then []
    else
      var perm, place := r.permissions[n - 1], PermissionAt(ri, n - 1);
      PermissionErrors(r, rs, ri, n - 1)
      + (PermissionNameErrors(r, ri, n - 1)
         + GrantListErrors(perm, SetOf(RoleNames(r.roles)), place)
         + InheritErrors(perm, r, rs, place, |perm.inheritFromParents|))
  }

  function OneResourceErrors(ir: ModelIR, ri: nat): seq<ValidationError>
    requires ri < |ir.resources|
  {
    var r := ir.resources[ri];
    ParentErrors(r.parents, SetOf(ResourceNames(ir.resources)), ri, |r.parents|)
    + RoleErrors(r, SetOf(GroupNames(ir.groups)), ri, |r.roles|)
    + PermissionErrors(r, ir.resources, ri, |r.permissions|)
  }

  function ResourceErrors(ir: ModelIR, n: nat): seq<ValidationError>
    requires n <= |ir.resources|
  {
    if n == 0 then [] else ResourceErrors(ir, n - 1) + OneResourceErrors(ir, n - 1)
  }

  function Lifted(errors: seq<ConditionError>, place: Place): (r: seq<ValidationError>)
    ensures |r| == |errors|
  {
    if errors == [] then [] else [ValidationError(InCondition(errors[0]), place)] + Lifted(errors[1..], place)
  }

  function ConditionDefErrors(cs: seq<ConditionDef>, n: nat): seq<ValidationError>
    requires n <= |cs|
  {
    if n == 0 then []
    else
      ConditionDefErrors(cs, n - 1)
      + Flag(cs[n - 1].name in ConditionNames(cs)[..n - 1], DupCondition, ConditionAt(n - 1))
      + Lifted(ConditionErrors(cs[n - 1]), ConditionAt(n - 1))
  }

  function RefConditionErrors(refs: seq<SubjectRef>, names: set<string>, place: Place, n: nat): seq<ValidationError>
    requires n <= |refs|
  {
    if n == 0 then []
    else
      RefConditionErrors(refs, names, place, n - 1)
      + Flag(refs[n - 1].condition.Some? && refs[n - 1].condition.value !in names, ConditionUnknown, place)
  }

  function GroupConditionErrors(ir: ModelIR, names: set<string>, n: nat): seq<ValidationError>
    requires n <= |ir.groups|
  {
    if n == 0 then []
    else
      var refs := ir.groups[n - 1].memberTypes;
      GroupConditionErrors(ir, names, n - 1) + RefConditionErrors(refs, names, GroupAt(n - 1), |refs|)
  }

  function RoleConditionErrors(roles: seq<Role>, names: set<string>, ri: nat, n: nat): seq<ValidationError>
    requires n <= |roles|
  {
    if n == 0 then []
    else
      var refs := roles[n - 1].assignableBy;
      RoleConditionErrors(roles, names, ri, n - 1) + RefConditionErrors(refs, names, RoleAt(ri, n - 1), |refs|)
  }

  function ResourceConditionErrors(ir: ModelIR, names: set<string>, n: nat): seq<ValidationError>
    requires n <= |ir.resources|
  {
    if n == 0 then []
    else
      var roles := ir.resources[n - 1].roles;
      ResourceConditionErrors(ir, names, n - 1) + RoleConditionErrors(roles, names, n - 1, |roles|)
  }

  function Errors(ir: ModelIR): seq<ValidationError> {
    var names := SetOf(ConditionNames(ConditionsOf(ir)));
    TypeErrors(ir, |TypeNames(ir)|)
    + GroupErrors(ir, SetOf(GroupNames(ir.groups)), |ir.groups|)
    + ResourceErrors(ir, |ir.resources|)
    + ConditionDefErrors(ConditionsOf(ir), |ConditionsOf(ir)|)
    + GroupConditionErrors(ir, names, |ir.groups|)
    + ResourceConditionErrors(ir, names, |ir.resources|)
  }

  // ---------------------------------------------------------------------------
  // The collecting loops.

  method CheckTypeNames(ir: ModelIR) returns (errors: seq<ValidationError>)
    ensures errors == TypeErrors(ir, |TypeNames(ir)|)
  {
    hide IsIdentifier;
    errors := [];
    var seenType: set<string> := {};
    var names := TypeNames(ir);
    for i := 0 to |names|
      invariant errors == TypeErrors(ir, i)
      invariant seenType == SetOf(names[..i])
    {
      var place := TypePlace(ir, i);
      ghost var before := errors;
      if names[i] == "user" {
        errors := errors + [ValidationError(ReservedUser, place)];
      } else if !IsIdentifier(names[i]) {
        errors := errors + [ValidationError(BadIdentifier, place)];
      }
      if names[i] in seenType {
        errors := errors + [ValidationError(DupType, place)];
      }
      seenType := seenType + {names[i]};
      assert names[..i + 1] == names[..i] + [names[i]];
    }
  }

  method CheckSubjects(refs: seq<SubjectRef>, groups: set<string>, place: Place) returns (errors: seq<ValidationError>)
    ensures errors == SubjectListErrors(refs, groups, place)
  {
    errors := [];
    if |refs| == 0 {
      errors := [ValidationError(EmptySubjects, place)];
    }
    ghost var first := errors;
    for i := 0 to |refs|
      invariant errors == first + SubjectErrors(refs, groups, place, i)
    {
      if refs[i].Group? && refs[i].group !in groups {
        errors := errors + [ValidationError(UnknownGroup, place)];
      }
    }
  }

  method CheckGroups(ir: ModelIR, groups: set<string>) returns (errors: seq<ValidationError>)
    ensures errors == GroupErrors(ir, groups, |ir.groups|)
  {
    errors := [];
    for i := 0 to |ir.groups|
      invariant errors == GroupErrors(ir, groups, i)
    {
      var more := CheckSubjects(ir.groups[i].memberTypes, groups, GroupAt(i));
      errors := errors + more;
    }
  }

  method CheckParentTypes(types: seq<string>, resources: set<string>, place: Place)
    returns (errors: seq<ValidationError>)
    ensures errors == ParentTypeErrors(types, resources, place, |types|)
  {
    errors := [];
    var seenPt: set<string> := {};
    for i := 0 to |types|
      invariant errors == ParentTypeErrors(types, resources, place, i)
      invariant seenPt == SetOf(types[..i])
    {
      if types[i] in seenPt {
        errors := errors + [ValidationError(DupParentRelation, place)];
      }
      seenPt := seenPt + {types[i]};
      if types[i] !in resources {
        errors := errors + [ValidationError(UnknownParent, place)];
      }
      assert types[..i + 1] == types[..i] + [types[i]];
    }
  }

  /** Parents claim their relation names first, so only a repeated parent can collide here. */
  method CheckParents(ps: seq<ParentRef>, resources: set<string>, ri: nat)
    returns (errors: seq<ValidationError>, parentRelSeen: set<string>)
    ensures errors == ParentErrors(ps, resources, ri, |ps|)
    ensures parentRelSeen == SetOf(ParentNames(ps))
  {
    hide ParentTypeErrors, ParentNames;
    hide IsIdentifier;
    errors, parentRelSeen := [], {};
    var names := ParentNames(ps);
    for i := 0 to |ps|
      invariant errors == ParentErrors(ps, resources, ri, i)
      invariant parentRelSeen == SetOf(names[..i])
    {
      var p, place := ps[i], ParentAt(ri, i);
      if !IsIdentifier(p.relationName) {
        errors := errors + [ValidationError(BadIdentifier, place)];
      }
      if p.relationName in parentRelSeen {
        errors := errors + [ValidationError(DupParentRelation, place)];
      } else {
        parentRelSeen := parentRelSeen + {p.relationName};
      }
      if |p.parentTypes| == 0 {
        errors := errors + [ValidationError(UnknownParent, place)];
      }
      var more := CheckParentTypes(p.parentTypes, resources, place);
      errors := errors + more;
      assert names[..i + 1] == names[..i] + [names[i]];
    }
    assert names[..|names|] == names;
  }

  method CheckRoles(r: ResourceType, groups: set<string>, ri: nat, claimedByParents: set<string>)
    returns (errors: seq<ValidationError>, relationNamespace: set<string>)
    requires claimedByParents == SetOf(ParentNames(r.parents))
    ensures errors == RoleErrors(r, groups, ri, |r.roles|)
    ensures relationNamespace == claimedByParents + SetOf(RoleNames(r.roles))
  {
    hide SubjectListErrors, RoleNames, ParentNames;
    hide IsIdentifier;
    errors, relationNamespace := [], claimedByParents;
    var names := RoleNames(r.roles);
    for i := 0 to |r.roles|
      invariant errors == RoleErrors(r, groups, ri, i)
      invariant relationNamespace == claimedByParents + SetOf(names[..i])
    {
      var role, place := r.roles[i], RoleAt(ri, i);
      if !IsIdentifier(role.name) {
        errors := errors + [ValidationError(BadIdentifier, place)];
      }
      if role.name in relationNamespace {
        errors := errors + [ValidationError(DupRelation, place)];
      } else {
        relationNamespace := relationNamespace + {role.name};
      }
      var more := CheckSubjects(role.assignableBy, groups, place);
      errors := errors + more;
      assert names[..i + 1] == names[..i] + [names[i]];
    }
    assert names[..|names|] == names;
  }

  method CheckGrants(perm: Permission, roles: set<string>, place: Place) returns (errors: seq<ValidationError>)
    ensures errors == GrantListErrors(perm, roles, place)
  {
    errors := [];
    if |perm.grantedByRoles| == 0 {
      errors := [ValidationError(EmptyGrant, place)];
    }
    ghost var first := errors;
    for i := 0 to |perm.grantedByRoles|
      invariant errors == first + GrantErrors(perm.grantedByRoles, roles, place, i)
    {
      if perm.grantedByRoles[i] !in roles {
        errors := errors + [ValidationError(UnknownRole, place)];
      }
    }
  }

  method CheckInherits(perm: Permission, r: ResourceType, rs: seq<ResourceType>, place: Place)
    returns (errors: seq<ValidationError>)
    ensures errors == InheritErrors(perm, r, rs, place, |perm.inheritFromParents|)
  {
    errors := [];
    for i := 0 to |perm.inheritFromParents|
      invariant errors == InheritErrors(perm, r, rs, place, i)
    {
      var parentRef := ParentNamed(r.parents, perm.inheritFromParents[i]);
      if parentRef.None? {
        errors := errors + [ValidationError(UnknownParent, place)];
      } else {
        ghost var before := errors;
        var types := parentRef.value.parentTypes;
        for j := 0 to |types|
          invariant errors == before + MissingErrors(types, perm.name, rs, place, j)
        {
          var perms := PermsOf(rs, types[j]);
          if perms.Some? && perm.name !in perms.value {
            errors := errors + [ValidationError(ParentMissingPermission, place)];
          }
        }
      }
    }
  }

  method CheckPermissions(r: ResourceType, rs: seq<ResourceType>, ri: nat, claimed: set<string>)
    returns (errors: seq<ValidationError>)
    requires claimed == SetOf(ParentNames(r.parents)) + SetOf(RoleNames(r.roles))
    ensures errors == PermissionErrors(r, rs, ri, |r.permissions|)
  {
    hide ParentNames, RoleNames, CanNames;
    hide IsIdentifier, GrantListErrors, InheritErrors, CanName;
    errors := [];
    var relationNamespace := claimed;
    var names := CanNames(r.permissions);
    for i := 0 to |r.permissions|
      invariant errors == PermissionErrors(r, rs, ri, i)
      invariant relationNamespace == claimed + SetOf(names[..i])
    {
      var perm, place := r.permissions[i], PermissionAt(ri, i);
      var own: seq<ValidationError> := [];
      if !IsIdentifier(perm.name) {
        own := own + [ValidationError(BadIdentifier, place)];
      }
      if names[i] in relationNamespace {
        own := own + [ValidationError(DupRelation, place)];
      } else {
        relationNamespace := relationNamespace + {names[i]};
      }
      assert own == PermissionNameErrors(r, ri, i);
      var grants := CheckGrants(perm, SetOf(RoleNames(r.roles)), place);
      var inherits := CheckInherits(perm, r, rs, place);
      errors := errors + (own + grants + inherits);
      assert names[..i + 1] == names[..i] + [names[i]];
    }
  }

  method CheckResources(ir: ModelIR) returns (errors: seq<ValidationError>)
    ensures errors == ResourceErrors(ir, |ir.resources|)
  {
    hide IsIdentifier;
    errors := [];
    for i := 0 to |ir.resources|
      invariant errors == ResourceErrors(ir, i)
    {
      var r := ir.resources[i];
      var parentErrors, parentRelSeen := CheckParents(r.parents, SetOf(ResourceNames(ir.resources)), i);
      var roleErrors, relationNamespace := CheckRoles(r, SetOf(GroupNames(ir.groups)), i, parentRelSeen);
      var permissionErrors := CheckPermissions(r, ir.resources, i, relationNamespace);
      errors := errors + (parentErrors + roleErrors + permissionErrors);
    }
  }

  method CheckConditions(cs: seq<ConditionDef>) returns (errors: seq<ValidationError>, conditionNames: set<string>)
    ensures errors == ConditionDefErrors(cs, |cs|)
    ensures conditionNames == SetOf(ConditionNames(cs))
  {
    hide ConditionErrors;
    errors, conditionNames := [], {};
    var names := ConditionNames(cs);
    for i := 0 to |cs|
      invariant errors == ConditionDefErrors(cs, i)
      invariant conditionNames == SetOf(names[..i])
    {
      if cs[i].name in conditionNames {
        errors := errors + [ValidationError(DupCondition, ConditionAt(i))];
      }
      conditionNames := conditionNames + {cs[i].name};
      errors := errors + Lifted(ConditionErrors(cs[i]), ConditionAt(i));
      assert names[..i + 1] == names[..i] + [names[i]];
    }
    assert names[..|names|] == names;
  }

  method CheckRefConditions(refs: seq<SubjectRef>, names: set<string>, place: Place)
    returns (errors: seq<ValidationError>)
    ensures errors == RefConditionErrors(refs, names, place, |refs|)
  {
    errors := [];
    for i := 0 to |refs|
      invariant errors == RefConditionErrors(refs, names, place, i)
    {
      if refs[i].condition.Some? && refs[i].condition.value !in names {
        errors := errors + [ValidationError(ConditionUnknown, place)];
      }
    }
  }

  method ValidateModelIR(ir: ModelIR) returns (errors: seq<ValidationError>)
    ensures errors == Errors(ir)
    ensures errors == [] <==> WellFormed(ir)
  {
    hide WellFormed;
    ErrorsMeaning(ir);
    var typeErrors := CheckTypeNames(ir);
    var groupErrors := CheckGroups(ir, SetOf(GroupNames(ir.groups)));
    var resourceErrors := CheckResources(ir);
    var conditionErrors, names := CheckConditions(ConditionsOf(ir));
    var refErrors := CheckConditionRefs(ir, names);
    errors := typeErrors + groupErrors + resourceErrors + conditionErrors + refErrors;
    hide TypeErrors, GroupErrors, ResourceErrors, ConditionDefErrors, GroupConditionErrors, ResourceConditionErrors;
    ConcatAssociates(typeErrors + groupErrors + resourceErrors + conditionErrors,
                     GroupConditionErrors(ir, names, |ir.groups|), ResourceConditionErrors(ir, names, |ir.resources|));
  }

  method CheckRoleConditions(roles: seq<Role>, names: set<string>, ri: nat) returns (errors: seq<ValidationError>)
    ensures errors == RoleConditionErrors(roles, names, ri, |roles|)
  {
    errors := [];
    for j := 0 to |roles|
      invariant errors == RoleConditionErrors(roles, names, ri, j)
    {
      var more := CheckRefConditions(roles[j].assignableBy, names, RoleAt(ri, j));
      errors := errors + more;
    }
  }

  method CheckConditionRefs(ir: ModelIR, names: set<string>) returns (errors: seq<ValidationError>)
    ensures errors == GroupConditionErrors(ir, names, |ir.groups|) + ResourceConditionErrors(ir, names, |ir.resources|)
  {
    hide RoleConditionErrors, RefConditionErrors;
    errors := [];
    for i := 0 to |ir.groups|
      invariant errors == GroupConditionErrors(ir, names, i)
    {
      var more := CheckRefConditions(ir.groups[i].memberTypes, names, GroupAt(i));
      errors := errors + more;
    }
    ghost var before := errors;
    for i := 0 to |ir.resources|
      invariant errors == before + ResourceConditionErrors(ir, names, i)
    {
      var more := CheckRoleConditions(ir.resources[i].roles, names, i);
      errors := errors + more;
    }
  }

  // ---------------------------------------------------------------------------
  // No error is reported exactly for the well-formed models.

  lemma {:induction false} TypeErrorsMeaning(ir: ModelIR, n: nat)
    requires n <= |TypeNames(ir)|
    ensures TypeErrors(ir, n) == [] <==>
            && Distinct(TypeNames(ir)[..n])
            && forall i :: 0 <= i < n ==> TypeNames(ir)[i] != "user" && IsIdentifier(TypeNames(ir)[i])
  {
    if n > 0 {
      hide IsIdentifier, TypeNames;
      TypeErrorsMeaning(ir, n - 1);
      DistinctStep(TypeNames(ir), n);
      hide Distinct;
    }
  }

  lemma DistinctStep<T>(s: seq<T>, n: nat)
    requires 0 < n <= |s|
    ensures Distinct(s[..n]) <==> Distinct(s[..n - 1]) && s[n - 1] !in s[..n - 1]
  {
    assert forall i :: 0 <= i < n - 1 ==> s[..n][i] == s[..n - 1][i];
    assert s[..n][n - 1] == s[n - 1];
  }

  lemma {:induction false} SubjectErrorsMeaning(refs: seq<SubjectRef>, ir: ModelIR, place: Place, n: nat)
    requires n <= |refs|
    ensures SubjectErrors(refs, SetOf(GroupNames(ir.groups)), place, n) == [] <==>
            forall i :: 0 <= i < n ==> GroupResolves(refs[i], ir)
  {
    if n > 0 {
      SubjectErrorsMeaning(refs, ir, place, n - 1);
    }
  }

  lemma SubjectListMeaning(refs: seq<SubjectRef>, ir: ModelIR, place: Place)
    ensures SubjectListErrors(refs, SetOf(GroupNames(ir.groups)), place) == [] <==> GoodSubjects(refs, ir)
  {
    SubjectErrorsMeaning(refs, ir, place, |refs|);
  }

  lemma {:induction false} GroupErrorsMeaning(ir: ModelIR, n: nat)
    requires n <= |ir.groups|
    ensures GroupErrors(ir, SetOf(GroupNames(ir.groups)), n) == [] <==>
            forall i :: 0 <= i < n ==> GoodSubjects(ir.groups[i].memberTypes, ir)
  {
    if n > 0 {
      GroupErrorsMeaning(ir, n - 1);
      SubjectListMeaning(ir.groups[n - 1].memberTypes, ir, GroupAt(n - 1));
    }
  }

  lemma {:induction false} ParentTypeErrorsMeaning(types: seq<string>, resources: seq<string>, place: Place, n: nat)
    requires n <= |types|
    ensures ParentTypeErrors(types, SetOf(resources), place, n) == [] <==>
            Distinct(types[..n]) && forall t :: t in types[..n] ==> t in resources
  {
    if n > 0 {
      ParentTypeErrorsMeaning(types, resources, place, n - 1);
      DistinctStep(types, n);
      assert types[..n] == types[..n - 1] + [types[n - 1]];
    }
  }

  lemma {:induction false} ParentErrorsMeaning(ps: seq<ParentRef>, ir: ModelIR, ri: nat, n: nat)
    requires n <= |ps|
    ensures ParentErrors(ps, SetOf(ResourceNames(ir.resources)), ri, n) == [] <==>
            Distinct(ParentNames(ps)[..n]) && forall i :: 0 <= i < n ==> GoodParent(ps[i], ir)
  {
    hide IsIdentifier;
    if n > 0 {
      var p := ps[n - 1];
      ParentErrorsMeaning(ps, ir, ri, n - 1);
      DistinctStep(ParentNames(ps), n);
      ParentTypeErrorsMeaning(p.parentTypes, ResourceNames(ir.resources), ParentAt(ri, n - 1), |p.parentTypes|);
      assert p.parentTypes[..|p.parentTypes|] == p.parentTypes;
    }
  }

  lemma {:induction false} RoleErrorsMeaning(r: ResourceType, ir: ModelIR, ri: nat, n: nat)
    requires n <= |r.roles|
    ensures RoleErrors(r, SetOf(GroupNames(ir.groups)), ri, n) == [] <==>
            && Distinct(RoleNames(r.roles)[..n])
            && (forall i :: 0 <= i < n ==> r.roles[i].name !in ParentNames(r.parents))
            && (forall i :: 0 <= i < n ==> GoodRole(r.roles[i], ir))
  {
    hide IsIdentifier;
    if n > 0 {
      RoleErrorsMeaning(r, ir, ri, n - 1);
      DistinctStep(RoleNames(r.roles), n);
      SubjectListMeaning(r.roles[n - 1].assignableBy, ir, RoleAt(ri, n - 1));
    }
  }

  lemma {:induction false} GrantErrorsMeaning(grants: seq<string>, roles: seq<string>, place: Place, n: nat)
    requires n <= |grants|
    ensures GrantErrors(grants, SetOf(roles), place, n) == [] <==> forall role :: role in grants[..n] ==> role in roles
  {
    if n > 0 {
      GrantErrorsMeaning(grants, roles, place, n - 1);
      assert grants[..n] == grants[..n - 1] + [grants[n - 1]];
    }
  }

  lemma {:induction false} ParentNamedMeaning(ps: seq<ParentRef>, name: string)
    requires Distinct(ParentNames(ps))
    ensures match ParentNamed(ps, name)
            case None => name !in ParentNames(ps)
            case Some(p) => name in ParentNames(ps) && forall q :: q in ps && q.relationName == name <==> q == p
  {
    hide ParentNames;
    if ps != [] {
      var names, rest := ParentNames(ps), ps[1..];
      assert names == [ps[0].relationName] + ParentNames(rest);
      assert Distinct(ParentNames(rest)) && ps[0].relationName !in ParentNames(rest) by {
        assert forall i :: 0 <= i < |rest| ==> ParentNames(rest)[i] == names[i + 1];
      }
      ParentNamedMeaning(rest, name);
      hide Distinct;
      forall q | q in rest ensures q.relationName in ParentNames(rest) {
        var i :| 0 <= i < |rest| && rest[i] == q;
        assert ParentNames(rest)[i] == q.relationName;
      }
      assert forall q :: q in ps <==> q == ps[0] || q in rest;
    }
  }

  lemma {:induction false} PermsOfMeaning(rs: seq<ResourceType>, name: string)
    requires Distinct(ResourceNames(rs))
    ensures match PermsOf(rs, name)
            case None => forall r :: r in rs ==> r.name != name
            case Some(perms) => exists r :: r in rs && r.name == name && PermissionNames(r.permissions) == perms
                                            && forall q :: q in rs && q.name == name ==> q == r
  {
    if rs != [] {
      var last := |rs| - 1;
      var init := rs[..last];
      assert forall i :: 0 <= i < last ==> ResourceNames(init)[i] == ResourceNames(rs)[i];
      PermsOfMeaning(init, name);
      assert rs == init + [rs[last]];
      forall q | q in init ensures q.name != rs[last].name {
        var i :| 0 <= i < last && init[i] == q;
        assert ResourceNames(rs)[i] != ResourceNames(rs)[last];
      }
      if rs[last].name == name {
        assert rs[last] in rs;
      }
    }
  }

  /** Every resource of one of the types has the permission. */
  ghost predicate AllHave(types: seq<string>, perm: string, rs: seq<ResourceType>) {
    forall parent :: parent in rs && parent.name in types ==> HasPermission(parent, perm)
  }

  lemma OneMissingMeaning(typ: string, perm: string, rs: seq<ResourceType>)
    requires Distinct(ResourceNames(rs))
    ensures AllHave([typ], perm, rs) <==> !(PermsOf(rs, typ).Some? && perm !in PermsOf(rs, typ).value)
  {
    hide PermsOf, ResourceNames, Distinct, PermissionNames;
    PermsOfMeaning(rs, typ);
    if PermsOf(rs, typ).Some? {
      var r :| r in rs && r.name == typ && PermissionNames(r.permissions) == PermsOf(rs, typ).value
               && forall q :: q in rs && q.name == typ ==> q == r;
      assert HasPermission(r, perm) <==> perm in PermsOf(rs, typ).value;
    }
  }

  lemma {:induction false} MissingErrorsMeaning(types: seq<string>, perm: string, rs: seq<ResourceType>, place: Place,
      n: nat)
    requires n <= |types| && Distinct(ResourceNames(rs))
    ensures MissingErrors(types, perm, rs, place, n) == [] <==> AllHave(types[..n], perm, rs)
  {
    hide PermsOf, ResourceNames, Distinct, HasPermission;
    if n > 0 {
      MissingErrorsMeaning(types, perm, rs, place, n - 1);
      OneMissingMeaning(types[n - 1], perm, rs);
      assert forall t :: t in types[..n] <==> t in types[..n - 1] || t in [types[n - 1]];
    }
  }

  ghost predicate InheritResolves(rel: string, perm: Permission, r: ResourceType, rs: seq<ResourceType>) {
    rel in ParentNames(r.parents)
    && forall p :: p in r.parents && p.relationName == rel ==> AllHave(p.parentTypes, perm.name, rs)
  }

  lemma OneInheritMeaning(rel: string, perm: Permission, r: ResourceType, rs: seq<ResourceType>, place: Place)
    requires Distinct(ResourceNames(rs)) && Distinct(ParentNames(r.parents))
    ensures InheritResolves(rel, perm, r, rs) <==>
            match ParentNamed(r.parents, rel)
            case None => false
            case Some(p) => MissingErrors(p.parentTypes, perm.name, rs, place, |p.parentTypes|) == []
  {
    hide Distinct, ResourceNames, ParentNames, AllHave, MissingErrors, ParentNamed;
    ParentNamedMeaning(r.parents, rel);
    match ParentNamed(r.parents, rel)
    case None =>
    case Some(p) =>
      MissingErrorsMeaning(p.parentTypes, perm.name, rs, place, |p.parentTypes|);
      assert p.parentTypes[..|p.parentTypes|] == p.parentTypes;
      assert p in r.parents && p.relationName == rel;
  }

  lemma {:induction false} InheritErrorsMeaning(perm: Permission, r: ResourceType, rs: seq<ResourceType>, place: Place,
      n: nat)
    requires n <= |perm.inheritFromParents| && Distinct(ResourceNames(rs)) && Distinct(ParentNames(r.parents))
    ensures InheritErrors(perm, r, rs, place, n) == [] <==>
            forall i :: 0 <= i < n ==> InheritResolves(perm.inheritFromParents[i], perm, r, rs)
  {
    hide Distinct, ResourceNames, ParentNames, InheritResolves, MissingErrors, ParentNamed;
    if n > 0 {
      InheritErrorsMeaning(perm, r, rs, place, n - 1);
      OneInheritMeaning(perm.inheritFromParents[n - 1], perm, r, rs, place);
    }
  }

  lemma InheritanceMeaning(perm: Permission, r: ResourceType, ir: ModelIR)
    requires forall rel :: rel in perm.inheritFromParents ==> rel in ParentNames(r.parents)
    ensures InheritanceResolves(perm, r, ir) <==>
            forall i ::
              0 <= i < |perm.inheritFromParents| ==> InheritResolves(perm.inheritFromParents[i], perm, r, ir.resources)
  {
    hide IsIdentifier;
    var inherits := perm.inheritFromParents;
    if forall i :: 0 <= i < |inherits| ==> InheritResolves(inherits[i], perm, r, ir.resources) {
      forall p, parent | p in r.parents && p.relationName in inherits && parent in ir.resources
        && parent.name in p.parentTypes
        ensures HasPermission(parent, perm.name)
      {
        var i :| 0 <= i < |inherits| && inherits[i] == p.relationName;
        assert InheritResolves(inherits[i], perm, r, ir.resources);
        assert AllHave(p.parentTypes, perm.name, ir.resources);
      }
    }
  }

  lemma OnePermissionMeaning(r: ResourceType, ir: ModelIR, ri: nat, k: nat)
    requires k < |r.permissions| && Distinct(ResourceNames(ir.resources)) && Distinct(ParentNames(r.parents))
    ensures var perm, place := r.permissions[k], PermissionAt(ri, k);
            GoodPermission(perm, r, ir) <==>
              && IsIdentifier(perm.name)
              && GrantListErrors(perm, SetOf(RoleNames(r.roles)), place) == []
              && InheritErrors(perm, r, ir.resources, place, |perm.inheritFromParents|) == []
  {
    hide IsIdentifier, InheritErrors, InheritanceResolves, Distinct;
    var perm, place := r.permissions[k], PermissionAt(ri, k);
    GrantErrorsMeaning(perm.grantedByRoles, RoleNames(r.roles), place, |perm.grantedByRoles|);
    assert perm.grantedByRoles[..|perm.grantedByRoles|] == perm.grantedByRoles;
    InheritErrorsMeaning(perm, r, ir.resources, place, |perm.inheritFromParents|);
    if forall rel :: rel in perm.inheritFromParents ==> rel in ParentNames(r.parents) {
      InheritanceMeaning(perm, r, ir);
    } else {
      var rel :| rel in perm.inheritFromParents && rel !in ParentNames(r.parents);
      var i :| 0 <= i < |perm.inheritFromParents| && perm.inheritFromParents[i] == rel;
      assert !InheritResolves(perm.inheritFromParents[i], perm, r, ir.resources);
    }
  }

  /** No parent and no role has the relation name of the k-th permission. */
  ghost predicate Unclaimed(r: ResourceType, k: nat)
    requires k < |r.permissions|
  {
    CanNames(r.permissions)[k] !in ParentNames(r.parents) && CanNames(r.permissions)[k] !in RoleNames(r.roles)
  }

  lemma PermissionNameMeaning(r: ResourceType, ri: nat, k: nat)
    requires k < |r.permissions|
    ensures PermissionNameErrors(r, ri, k) == [] <==>
            IsIdentifier(r.permissions[k].name) && Unclaimed(r, k)
              && CanNames(r.permissions)[k] !in CanNames(r.permissions)[..k]
  {
    hide IsIdentifier;
  }

  lemma {:induction false} PermissionErrorsMeaning(r: ResourceType, ir: ModelIR, ri: nat, n: nat)
    requires n <= |r.permissions| && Distinct(ResourceNames(ir.resources)) && Distinct(ParentNames(r.parents))
    ensures PermissionErrors(r, ir.resources, ri, n) == [] <==>
            && Distinct(CanNames(r.permissions)[..n])
            && (forall i :: 0 <= i < n ==> Unclaimed(r, i))
            && (forall i :: 0 <= i < n ==> GoodPermission(r.permissions[i], r, ir))
  {
    hide IsIdentifier, InheritErrors, GrantListErrors, GoodPermission, CanName, ResourceNames;
    if n > 0 {
      PermissionErrorsMeaning(r, ir, ri, n - 1);
      DistinctStep(CanNames(r.permissions), n);
      OnePermissionMeaning(r, ir, ri, n - 1);
      PermissionNameMeaning(r, ri, n - 1);
      hide Distinct, PermissionNameErrors, Unclaimed;
    }
  }

  lemma ResourceMeaning(ir: ModelIR, ri: nat)
    requires ri < |ir.resources| && Distinct(ResourceNames(ir.resources))
    ensures OneResourceErrors(ir, ri) == [] <==> GoodResource(ir.resources[ri], ir)
  {
    hide IsIdentifier;
    hide CanName, GoodParent, GoodRole, GoodPermission, Distinct, ResourceNames, ParentErrors;
    hide RoleErrors, PermissionErrors;
    var r := ir.resources[ri];
    var parents, roles, cans := ParentNames(r.parents), RoleNames(r.roles), CanNames(r.permissions);
    ParentErrorsMeaning(r.parents, ir, ri, |r.parents|);
    RoleErrorsMeaning(r, ir, ri, |r.roles|);
    assert parents[..|parents|] == parents && roles[..|roles|] == roles && cans[..|cans|] == cans;
    DistinctParts(parents, roles);
    DistinctParts(parents + roles, cans);
    if Distinct(parents) {
      PermissionErrorsMeaning(r, ir, ri, |r.permissions|);
    }
    assert forall i :: 0 <= i < |cans| ==> (cans[i] !in parents + roles <==> Unclaimed(r, i));
  }

  lemma {:induction false} ResourceErrorsMeaning(ir: ModelIR, n: nat)
    requires n <= |ir.resources| && Distinct(ResourceNames(ir.resources))
    ensures ResourceErrors(ir, n) == [] <==> forall i :: 0 <= i < n ==> GoodResource(ir.resources[i], ir)
  {
    hide OneResourceErrors, GoodResource, Distinct, ResourceNames;
    if n > 0 {
      ResourceErrorsMeaning(ir, n - 1);
      ResourceMeaning(ir, n - 1);
    }
  }

  lemma {:induction false} ConditionDefErrorsMeaning(cs: seq<ConditionDef>, n: nat)
    requires n <= |cs|
    ensures ConditionDefErrors(cs, n) == [] <==>
            Distinct(ConditionNames(cs)[..n]) && forall i :: 0 <= i < n ==> ValidCondition(cs[i])
  {
    if n > 0 {
      var names := ConditionNames(cs);
      assert names[n - 1] == cs[n - 1].name;
      hide *;
      ConditionDefErrorsMeaning(cs, n - 1);
      DistinctStep(names, n);
      ConditionErrorsMeaning(cs[n - 1]);
      ConditionDefStep(cs, n);
      assert (forall i :: 0 <= i < n ==> ValidCondition(cs[i])) <==>
             ValidCondition(cs[n - 1]) && forall i :: 0 <= i < n - 1 ==> ValidCondition(cs[i]);
    }
  }

  lemma ConditionDefStep(cs: seq<ConditionDef>, n: nat)
    requires 0 < n <= |cs|
    ensures ConditionDefErrors(cs, n) == [] <==>
            && ConditionDefErrors(cs, n - 1) == []
            && cs[n - 1].name !in ConditionNames(cs)[..n - 1]
            && ConditionErrors(cs[n - 1]) == []
  {
    hide ConditionErrors, ConditionNames;
  }

  lemma {:induction false} RefConditionErrorsMeaning(refs: seq<SubjectRef>, ir: ModelIR, place: Place, n: nat)
    requires n <= |refs|
    ensures RefConditionErrors(refs, SetOf(ConditionNames(ConditionsOf(ir))), place, n) == [] <==>
            forall i :: 0 <= i < n ==> ConditionResolves(refs[i], ir)
  {
    if n > 0 {
      RefConditionErrorsMeaning(refs, ir, place, n - 1);
    }
  }

  ghost predicate AllConditionsResolve(refs: seq<SubjectRef>, ir: ModelIR) {
    forall ref :: ref in refs ==> ConditionResolves(ref, ir)
  }

  lemma {:induction false} GroupConditionErrorsMeaning(ir: ModelIR, n: nat)
    requires n <= |ir.groups|
    ensures GroupConditionErrors(ir, SetOf(ConditionNames(ConditionsOf(ir))), n) == [] <==>
            forall i :: 0 <= i < n ==> AllConditionsResolve(ir.groups[i].memberTypes, ir)
  {
    if n > 0 {
      var refs := ir.groups[n - 1].memberTypes;
      GroupConditionErrorsMeaning(ir, n - 1);
      RefConditionErrorsMeaning(refs, ir, GroupAt(n - 1), |refs|);
    }
  }

  lemma {:induction false} RoleConditionErrorsMeaning(roles: seq<Role>, ir: ModelIR, ri: nat, n: nat)
    requires n <= |roles|
    ensures RoleConditionErrors(roles, SetOf(ConditionNames(ConditionsOf(ir))), ri, n) == [] <==>
            forall i :: 0 <= i < n ==> AllConditionsResolve(roles[i].assignableBy, ir)
  {
    if n > 0 {
      var refs := roles[n - 1].assignableBy;
      RoleConditionErrorsMeaning(roles, ir, ri, n - 1);
      RefConditionErrorsMeaning(refs, ir, RoleAt(ri, n - 1), |refs|);
    }
  }

  ghost predicate RolesResolve(r: ResourceType, ir: ModelIR) {
    forall role :: role in r.roles ==> AllConditionsResolve(role.assignableBy, ir)
  }

  lemma {:induction false} ResourceConditionErrorsMeaning(ir: ModelIR, n: nat)
    requires n <= |ir.resources|
    ensures ResourceConditionErrors(ir, SetOf(ConditionNames(ConditionsOf(ir))), n) == [] <==>
            forall i :: 0 <= i < n ==> RolesResolve(ir.resources[i], ir)
  {
    if n > 0 {
      ResourceConditionErrorsMeaning(ir, n - 1);
      RoleConditionErrorsMeaning(ir.resources[n - 1].roles, ir, n - 1, |ir.resources[n - 1].roles|);
    }
  }

  lemma AllRefsResolve(ir: ModelIR)
    ensures (forall g, ref :: g in ir.groups && ref in g.memberTypes ==> ConditionResolves(ref, ir)) <==>
            forall i :: 0 <= i < |ir.groups| ==> AllConditionsResolve(ir.groups[i].memberTypes, ir)
    ensures (forall r, role, ref ::
            r in ir.resources && role in r.roles && ref in role.assignableBy ==> ConditionResolves(ref, ir)) <==>
            forall i :: 0 <= i < |ir.resources| ==> RolesResolve(ir.resources[i], ir)
  {
    hide ConditionResolves;
  }

  lemma ConditionsMeaning(ir: ModelIR)
    ensures var cs := ConditionsOf(ir);
            var names := SetOf(ConditionNames(cs));
            GoodConditions(ir) <==>
              && ConditionDefErrors(cs, |cs|) == []
              && GroupConditionErrors(ir, names, |ir.groups|) == []
              && ResourceConditionErrors(ir, names, |ir.resources|) == []
  {
    var cs := ConditionsOf(ir);
    ConditionDefErrorsMeaning(cs, |cs|);
    assert ConditionNames(cs)[..|cs|] == ConditionNames(cs);
    GroupConditionErrorsMeaning(ir, |ir.groups|);
    ResourceConditionErrorsMeaning(ir, |ir.resources|);
    hide ConditionDefErrors, GroupConditionErrors, ResourceConditionErrors, ValidCondition, ConditionNames, Distinct,
      ConditionResolves,
      AllConditionsResolve, RolesResolve;
    AllRefsResolve(ir);
  }

  lemma TypesMeaning(ir: ModelIR)
    ensures TypeErrors(ir, |TypeNames(ir)|) == [] <==> GoodTypeNames(ir)
    ensures GoodTypeNames(ir) ==> Distinct(ResourceNames(ir.resources))
  {
    hide IsIdentifier, TypeErrors;
    var names := TypeNames(ir);
    TypeErrorsMeaning(ir, |names|);
    assert names[..|names|] == names;
    hide TypeNames;
    DistinctParts(GroupNames(ir.groups), ResourceNames(ir.resources));
  }

  /** The validator returns no errors exactly when the model is well formed. */
  lemma ErrorsMeaning(ir: ModelIR)
    ensures Errors(ir) == [] <==> WellFormed(ir)
  {
    hide TypeErrors, GroupErrors, ResourceErrors, ConditionDefErrors, GroupConditionErrors, ResourceConditionErrors;
    hide GoodTypeNames, GoodConditions, GoodResource, GoodSubjects, Distinct;
    TypesMeaning(ir);
    GroupErrorsMeaning(ir, |ir.groups|);
    ConditionsMeaning(ir);
    if GoodTypeNames(ir) {
      ResourceErrorsMeaning(ir, |ir.resources|);
    }
    assert (forall g :: g in ir.groups ==> GoodSubjects(g.memberTypes, ir))
      <==> forall i :: 0 <= i < |ir.groups| ==> GoodSubjects(ir.groups[i].memberTypes, ir);
    assert (forall r :: r in ir.resources ==> GoodResource(r, ir))
      <==> forall i :: 0 <= i < |ir.resources| ==> GoodResource(ir.resources[i], ir);
  }
}
