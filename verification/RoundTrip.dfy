/** Exactly which models come back from what they emit. */
module RoundTrip {
  import opened Prelude
  import opened Sorting
  import opened JsNumber
  import opened Condition
  import opened ConditionCel
  import opened ModelIr
  import opened Validator
  import opened AuthModel
  import opened Compiler
  import opened Decompiler
  import opened ConditionRoundTrip

  function ParentKey(p: ParentRef): int { IndexKey(p.relationName) }
  function RoleKey(r: Role): int { IndexKey(r.name) }
  function PermissionKey(p: Permission): int { NOT_AN_INDEX }

  // ---------------------------------------------------------------------------
  // One relation.

  /** Every condition named in refs is one of conds. */
  ghost predicate Covered(refs: seq<SubjectRef>, conds: set<string>) {
    forall ref :: ref in refs && ref.condition.Some? ==> ref.condition.value in conds
  }

  lemma SubjectReads(ref: SubjectRef)
    ensures IsSubjectRef(EmitSubject(ref)) && ToSubjectRef(EmitSubject(ref)) == ref
            && EmitSubject(ref).condition == ref.condition
  {
  }

  lemma SubjectsRead(refs: seq<SubjectRef>, conds: set<string>)
    ensures Map(Map(refs, EmitSubject), ToSubjectRef) == refs
    ensures AllSubjectRefs(Map(refs, EmitSubject)) <==> refs != []
    ensures HasForeignCondition(Map(refs, EmitSubject), conds) <==> !Covered(refs, conds)
  {
    var sent := Map(refs, EmitSubject);
    forall i | 0 <= i < |refs|
      ensures IsSubjectRef(sent[i]) && ToSubjectRef(sent[i]) == refs[i] && sent[i].condition == refs[i].condition {
      SubjectReads(refs[i]);
    }
    hide IsSubjectRef, ToSubjectRef, EmitSubject;
    if !Covered(refs, conds) {
      var ref :| ref in refs && ref.condition.Some? && ref.condition.value !in conds;
      var i :| 0 <= i < |refs| && refs[i] == ref;
      assert sent[i] in sent;
    }
  }

  lemma RoleClassified(role: Role, conds: set<string>)
    requires role.assignableBy != []
    ensures ClassifyDirect(role.name, EmitRole(role).refs, conds) ==
            if Covered(role.assignableBy, conds) then AsRole(role) else AsAdvanced(CONDITION)
  {
    SubjectsRead(role.assignableBy, conds);
  }

  lemma ParentClassified(p: ParentRef, conds: set<string>)
    requires p.parentTypes != [] && "user" !in p.parentTypes
    ensures ClassifyDirect(p.relationName, EmitParent(p).refs, conds) == AsParent(p)
  {
    var sent := Map(p.parentTypes, EmitParentType);
    assert sent[0] in sent && !IsSubjectRef(sent[0]) by {
      assert p.parentTypes[0] in p.parentTypes;
    }
    assert Map(sent, TypeOfRef) == p.parentTypes;
    assert forall r :: r in sent ==> IsResourceTypeRef(r);
  }

  lemma CanNameReads(name: string)
    ensures StartsWithCan(CanName(name)) && CanName(name)[4..] == name && CanName(name) != "member"
    ensures IndexKey(CanName(name)) == NOT_AN_INDEX
  {
  }

  lemma CanNameOf(name: string)
    requires StartsWithCan(name)
    ensures CanName(name[4..]) == name && IndexKey(name) == NOT_AN_INDEX
  {
    assert name == "can_" + name[4..];
  }

  lemma ChildrenStep(child: Userset, rest: seq<Userset>, name: string, roleNames: set<string>, parentRels: set<string>)
    ensures var c := ClassifyChild(child, name, roleNames, parentRels);
            ClassifyChildren([child] + rest, name, roleNames, parentRels) ==
            if c.Refused? then c
            else Decompiler.Ahead(c.roles, c.parents, ClassifyChildren(rest, name, roleNames, parentRels))
  {
    assert ([child] + rest)[1..] == rest;
  }

  lemma {:induction false} InheritsClassified(rels: seq<string>, can: string, roleNames: set<string>,
      parentRels: set<string>)
    requires forall rel :: rel in rels ==> rel != "" && rel in parentRels
    ensures ClassifyChildren(Map(rels, EmitInherit(can)), can, roleNames, parentRels) == Granting([], rels)
  {
    if rels != [] {
      var tail := rels[1..];
      assert rels == [rels[0]] + tail && rels[0] in rels;
      assert forall rel :: rel in tail ==> rel in rels;
      MapCons(rels[0], tail, EmitInherit(can));
      ChildrenStep(EmitInherit(can)(rels[0]), Map(tail, EmitInherit(can)), can, roleNames, parentRels);
      InheritsClassified(tail, can, roleNames, parentRels);
    }
  }

  lemma {:induction false} GrantsClassified(roles: seq<string>, rels: seq<string>, can: string, roleNames: set<string>,
      parentRels: set<string>)
    requires forall role :: role in roles ==> role != "" && role in roleNames
    requires forall rel :: rel in rels ==> rel != "" && rel in parentRels
    ensures ClassifyChildren(Map(roles, EmitGrant) + Map(rels, EmitInherit(can)), can, roleNames, parentRels) ==
            Granting(roles, rels)
  {
    var inherits := Map(rels, EmitInherit(can));
    if roles == [] {
      assert Map(roles, EmitGrant) + inherits == inherits;
      InheritsClassified(rels, can, roleNames, parentRels);
    } else {
      var tail := roles[1..];
      assert roles == [roles[0]] + tail && roles[0] in roles;
      assert forall role :: role in tail ==> role in roles;
      MapCons(roles[0], tail, EmitGrant);
      hide Map, ClassifyChildren;
      ConcatAssociates([EmitGrant(roles[0])], Map(tail, EmitGrant), inherits);
      ChildrenStep(EmitGrant(roles[0]), Map(tail, EmitGrant) + inherits, can, roleNames, parentRels);
      GrantsClassified(tail, rels, can, roleNames, parentRels);
    }
  }

  /** Grouping an emitted permission's operands as roles, then parents, gives the permission back. */
  lemma PermissionClassified(perm: Permission, roleNames: set<string>, parentRels: set<string>)
    requires perm.grantedByRoles != []
    requires forall role :: role in perm.grantedByRoles ==> role != "" && role in roleNames
    requires forall rel :: rel in perm.inheritFromParents ==> rel != "" && rel in parentRels
    ensures ClassifyRewrite(CanName(perm.name), EmitPermission(perm).rewrite, roleNames, parentRels) ==
            AsPermission(perm)
    ensures !EmitPermission(perm).rewrite.This?
  {
    CanNameReads(perm.name);
    GrantsClassified(perm.grantedByRoles, perm.inheritFromParents, CanName(perm.name), roleNames, parentRels);
    var children := PermissionChildren(perm);
    assert children[0] == EmitGrant(perm.grantedByRoles[0]);
    assert |children| == 1 ==> children == [children[0]];
  }

  // ---------------------------------------------------------------------------
  // One resource.

  lemma MappedAll<S, T>(s: seq<S>, f: S -> T, p: T -> bool)
    ensures (forall y :: y in Map(s, f) ==> p(y)) <==> forall x :: x in s ==> p(f(x))
  {
    var sent := Map(s, f);
    if forall y :: y in sent ==> p(y) {
      forall x | x in s ensures p(f(x)) {
        var i :| 0 <= i < |s| && s[i] == x;
        assert sent[i] in sent;
      }
    }
    if forall x :: x in s ==> p(f(x)) {
      forall y | y in sent ensures p(y) {
        var i :| 0 <= i < |sent| && sent[i] == y;
        assert s[i] in s;
      }
    }
  }

  lemma NothingSelectedOf<S, T, U>(s: seq<S>, f: S -> T, g: T -> Option<U>)
    ensures FilterMap(Map(s, f), g) == [] <==> forall x :: x in s ==> g(f(x)).None?
  {
    hide FilterMap, Map;
    NothingSelected(Map(s, f), g);
    MappedAll(s, f, (y: T) => g(y).None?);
  }

  /** What the validator guarantees of a resource, with its conditions among conds. */
  ghost predicate Classifiable(r: ResourceType, conds: set<string>) {
    && (forall p :: p in r.parents ==> p.relationName != "" && p.parentTypes != [] && "user" !in p.parentTypes)
    && (forall role ::
         role in r.roles ==> role.name != "" && role.assignableBy != [] && Covered(role.assignableBy, conds))
    && (forall perm :: perm in r.permissions ==>
          && perm.grantedByRoles != []
          && (forall role :: role in perm.grantedByRoles ==> role in RoleNames(r.roles))
          && (forall rel :: rel in perm.inheritFromParents ==> rel in ParentNames(r.parents)))
  }

  lemma SelectedFromThree<T>(a: seq<Relation>, b: seq<Relation>, c: seq<Relation>, f: Relation -> Option<T>)
    ensures FilterMap(a + b + c, f) == FilterMap(a, f) + FilterMap(b, f) + FilterMap(c, f)
  {
    FilterMapConcat(a + b, c, f);
    FilterMapConcat(a, b, f);
  }

  lemma RoleOutcomes(r: ResourceType, conds: set<string>)
    requires Classifiable(r, conds)
    ensures forall p ::
            p in r.parents ==> RoleOf(conds)(EmitParent(p)).None? && ParentOf(conds)(EmitParent(p)) == Some(p)
    ensures forall role ::
            role in r.roles ==> RoleOf(conds)(EmitRole(role)) == Some(role) && ParentOf(conds)(EmitRole(role)).None?
    ensures forall perm ::
            perm in r.permissions ==>
              RoleOf(conds)(EmitPermission(perm)).None? && ParentOf(conds)(EmitPermission(perm)).None?
  {
    hide ClassifyDirect, Covered;
    forall p | p in r.parents ensures RoleOf(conds)(EmitParent(p)).None? && ParentOf(conds)(EmitParent(p)) == Some(p) {
      ParentClassified(p, conds);
    }
    forall role | role in r.roles
      ensures RoleOf(conds)(EmitRole(role)) == Some(role) && ParentOf(conds)(EmitRole(role)).None? {
      RoleClassified(role, conds);
    }
    forall perm | perm in r.permissions
      ensures RoleOf(conds)(EmitPermission(perm)).None? && ParentOf(conds)(EmitPermission(perm)).None? {
      PermissionIsRewrite(perm);
    }
  }

  lemma RolesSelected(r: ResourceType, conds: set<string>)
    requires Classifiable(r, conds)
    ensures FilterMap(ResourceRelations(r), RoleOf(conds)) == r.roles
    ensures FilterMap(ResourceRelations(r), ParentOf(conds)) == r.parents
  {
    hide FilterMap, Map, Classifiable, EmitParent, EmitRole, EmitPermission, RoleOf, ParentOf;
    var (ps, rs, ms) := (Map(r.parents, EmitParent), Map(r.roles, EmitRole), Map(r.permissions, EmitPermission));
    RoleOutcomes(r, conds);
    NothingSelectedOf(r.parents, EmitParent, RoleOf(conds));
    ReadBackAll(r.roles, EmitRole, RoleOf(conds));
    NothingSelectedOf(r.permissions, EmitPermission, RoleOf(conds));
    SelectedFromThree(ps, rs, ms, RoleOf(conds));
    ReadBackAll(r.parents, EmitParent, ParentOf(conds));
    NothingSelectedOf(r.roles, EmitRole, ParentOf(conds));
    NothingSelectedOf(r.permissions, EmitPermission, ParentOf(conds));
    SelectedFromThree(ps, rs, ms, ParentOf(conds));
  }

  lemma PermissionIsRewrite(perm: Permission)
    requires perm.grantedByRoles != []
    ensures !EmitPermission(perm).rewrite.This?
  {
    assert PermissionChildren(perm)[0] == EmitGrant(perm.grantedByRoles[0]);
  }

  lemma NamesPresent(r: ResourceType, perm: Permission, conds: set<string>)
    requires Classifiable(r, conds) && perm in r.permissions
    ensures perm.grantedByRoles != []
    ensures forall role :: role in perm.grantedByRoles ==> role != "" && role in SetOf(RoleNames(r.roles))
    ensures forall rel :: rel in perm.inheritFromParents ==> rel != "" && rel in SetOf(ParentNames(r.parents))
  {
    forall role | role in perm.grantedByRoles ensures role != "" {
      var i :| 0 <= i < |r.roles| && RoleNames(r.roles)[i] == role;
      assert r.roles[i] in r.roles;
    }
    forall rel | rel in perm.inheritFromParents ensures rel != "" {
      var i :| 0 <= i < |r.parents| && ParentNames(r.parents)[i] == rel;
      assert r.parents[i] in r.parents;
    }
  }

  lemma PermissionOutcomes(r: ResourceType, conds: set<string>, roleNames: set<string>, parentRels: set<string>)
    requires Classifiable(r, conds)
    requires roleNames == SetOf(RoleNames(r.roles)) && parentRels == SetOf(ParentNames(r.parents))
    ensures forall perm :: perm in r.permissions ==>
              && PermissionOf(roleNames, parentRels)(EmitPermission(perm)) == Some(perm)
              && AdvancedRewrite(r.name, roleNames, parentRels)(EmitPermission(perm)).None?
  {
    hide ClassifyRewrite, Classifiable, RoleNames, ParentNames, PermissionChildren;
    forall perm | perm in r.permissions
      ensures PermissionOf(roleNames, parentRels)(EmitPermission(perm)) == Some(perm)
      ensures AdvancedRewrite(r.name, roleNames, parentRels)(EmitPermission(perm)).None?
    {
      NamesPresent(r, perm, conds);
      PermissionClassified(perm, roleNames, parentRels);
    }
  }

  lemma PermissionsSelected(r: ResourceType, conds: set<string>, roleNames: set<string>, parentRels: set<string>)
    requires Classifiable(r, conds)
    requires roleNames == SetOf(RoleNames(r.roles)) && parentRels == SetOf(ParentNames(r.parents))
    ensures FilterMap(ResourceRelations(r), PermissionOf(roleNames, parentRels)) == r.permissions
    ensures FilterMap(ResourceRelations(r), AdvancedRewrite(r.name, roleNames, parentRels)) == []
  {
    var (ps, rs, ms) := (Map(r.parents, EmitParent), Map(r.roles, EmitRole), Map(r.permissions, EmitPermission));
    var (f, g) := (PermissionOf(roleNames, parentRels), AdvancedRewrite(r.name, roleNames, parentRels));
    assert forall p :: p in r.parents ==> f(EmitParent(p)).None? && g(EmitParent(p)).None?;
    assert forall role :: role in r.roles ==> f(EmitRole(role)).None? && g(EmitRole(role)).None?;
    hide FilterMap, Map, Classifiable, EmitPermission, EmitRole, EmitParent, PermissionOf, AdvancedRewrite;
    PermissionOutcomes(r, conds, roleNames, parentRels);
    NothingSelectedOf(r.parents, EmitParent, f);
    NothingSelectedOf(r.roles, EmitRole, f);
    ReadBackAll(r.permissions, EmitPermission, f);
    SelectedFromThree(ps, rs, ms, f);
    NothingSelectedOf(r.parents, EmitParent, g);
    NothingSelectedOf(r.roles, EmitRole, g);
    NothingSelectedOf(r.permissions, EmitPermission, g);
    SelectedFromThree(ps, rs, ms, g);
  }

  lemma DirectOutcomes(r: ResourceType, conds: set<string>)
    requires forall p :: p in r.parents ==> p.parentTypes != [] && "user" !in p.parentTypes
    requires forall role :: role in r.roles ==> role.assignableBy != []
    requires forall perm :: perm in r.permissions ==> perm.grantedByRoles != []
    ensures forall p :: p in r.parents ==> AdvancedDirect(r.name, conds)(EmitParent(p)).None?
    ensures forall role :: role in r.roles ==>
              (AdvancedDirect(r.name, conds)(EmitRole(role)).None? <==> Covered(role.assignableBy, conds))
    ensures forall perm :: perm in r.permissions ==> AdvancedDirect(r.name, conds)(EmitPermission(perm)).None?
  {
    hide ClassifyDirect, Covered;
    forall p | p in r.parents ensures AdvancedDirect(r.name, conds)(EmitParent(p)).None? {
      ParentClassified(p, conds);
    }
    forall role | role in r.roles
      ensures AdvancedDirect(r.name, conds)(EmitRole(role)).None? <==> Covered(role.assignableBy, conds) {
      RoleClassified(role, conds);
    }
    forall perm | perm in r.permissions ensures AdvancedDirect(r.name, conds)(EmitPermission(perm)).None? {
      PermissionIsRewrite(perm);
    }
  }

  /** A direct relation is set aside exactly for a condition outside conds. */
  lemma SetAsideDirectly(r: ResourceType, conds: set<string>)
    requires forall p :: p in r.parents ==> p.parentTypes != [] && "user" !in p.parentTypes
    requires forall role :: role in r.roles ==> role.assignableBy != []
    requires forall perm :: perm in r.permissions ==> perm.grantedByRoles != []
    ensures FilterMap(ResourceRelations(r), AdvancedDirect(r.name, conds)) == [] <==>
            forall role :: role in r.roles ==> Covered(role.assignableBy, conds)
  {
    hide FilterMap, Map, EmitRole, EmitParent, EmitPermission, AdvancedDirect, Covered;
    var g := AdvancedDirect(r.name, conds);
    DirectOutcomes(r, conds);
    NothingSelectedOf(r.parents, EmitParent, g);
    NothingSelectedOf(r.roles, EmitRole, g);
    NothingSelectedOf(r.permissions, EmitPermission, g);
    SelectedFromThree(Map(r.parents, EmitParent), Map(r.roles, EmitRole), Map(r.permissions, EmitPermission), g);
  }

  lemma RoleKeysAgree(rels: seq<Relation>, conds: set<string>)
    ensures KeysAgree(rels, RoleOf(conds), RelationKey, RoleKey)
            && KeysAgree(rels, ParentOf(conds), RelationKey, ParentKey)
  {
    hide IndexKey;
  }

  lemma PermissionKeysAgree(rels: seq<Relation>, roleNames: set<string>, parentRels: set<string>)
    ensures KeysAgree(rels, PermissionOf(roleNames, parentRels), RelationKey, PermissionKey)
  {
    hide IndexKey, ClassifyChildren;
    var f := PermissionOf(roleNames, parentRels);
    forall x | x in rels && f(x).Some? ensures RelationKey(x) == NOT_AN_INDEX {
      CanNameOf(x.name);
    }
  }

  lemma SameNames(roles: seq<Role>, sorted: seq<Role>)
    requires forall x :: x in sorted <==> x in roles
    ensures SetOf(RoleNames(sorted)) == SetOf(RoleNames(roles))
  {
    assert RoleNames(sorted) == Map(sorted, (x: Role) => x.name) && RoleNames(roles) == Map(roles, (x: Role) => x.name);
    SameImage(roles, sorted, (x: Role) => x.name);
  }

  lemma SameParentNames(ps: seq<ParentRef>, sorted: seq<ParentRef>)
    requires forall x :: x in sorted <==> x in ps
    ensures SetOf(ParentNames(sorted)) == SetOf(ParentNames(ps))
  {
    assert ParentNames(sorted) == Map(sorted, (x: ParentRef) => x.relationName)
      && ParentNames(ps) == Map(ps, (x: ParentRef) => x.relationName);
    SameImage(ps, sorted, (x: ParentRef) => x.relationName);
  }

  lemma SameImage<S, T>(s: seq<S>, t: seq<S>, f: S -> T)
    requires forall x :: x in t <==> x in s
    ensures forall y :: y in Map(s, f) <==> y in Map(t, f)
  {
    var (ms, mt) := (Map(s, f), Map(t, f));
    forall y ensures y in ms <==> y in mt {
      if y in ms {
        var i :| 0 <= i < |s| && ms[i] == y;
        assert s[i] in t;
        var k :| 0 <= k < |t| && t[k] == s[i];
        assert mt[k] == y;
      }
      if y in mt {
        var i :| 0 <= i < |t| && mt[i] == y;
        assert t[i] in s;
        var k :| 0 <= k < |s| && s[k] == t[i];
        assert ms[k] == y;
      }
    }
  }

  lemma NothingSetAsideDirectly(r: ResourceType, conds: set<string>)
    requires Classifiable(r, conds)
    ensures FilterMap(ResourceRelations(r), AdvancedDirect(r.name, conds)) == []
  {
    hide FilterMap, AdvancedDirect, ResourceRelations, Covered;
    SetAsideDirectly(r, conds);
  }

  lemma SortedSelects(rels: seq<Relation>, f: Relation -> Option<Advanced>)
    ensures FilterMap(StableSort(rels, RelationKey), f) == [] <==> FilterMap(rels, f) == []
  {
    hide StableSort, IndexKey, FilterMap;
    NothingSelected(rels, f);
    SameElements(rels, RelationKey);
    NothingSelected(StableSort(rels, RelationKey), f);
  }

  /** A resource with more than a lone "member" comes back with its parents and its roles in object order. */
  lemma ResourceReads(r: ResourceType, conds: set<string>)
    requires Classifiable(r, conds)
    ensures ResourceOf(EmitResource(r), conds) ==
            ResourceType(r.name, StableSort(r.parents, ParentKey), StableSort(r.roles, RoleKey), r.permissions)
    ensures ResourceAdvanced(EmitResource(r), conds) == []
  {
    var rels := ResourceRelations(r);
    var roles := StableSort(r.roles, RoleKey);
    var parents := StableSort(r.parents, ParentKey);
    var (roleNames, parentRels) := (SetOf(RoleNames(roles)), SetOf(ParentNames(parents)));
    hide StableSort, ClassifyDirect, ClassifyRewrite, IndexKey, Classifiable, FilterMap, ResourceRelations;
    hide KeysAgree, SortedBy;
    RolesSelected(r, conds);
    SameElements(r.roles, RoleKey);
    SameElements(r.parents, ParentKey);
    SameNames(r.roles, roles);
    SameParentNames(r.parents, parents);
    PermissionsSelected(r, conds, roleNames, parentRels);
    RoleKeysAgree(rels, conds);
    PermissionKeysAgree(rels, roleNames, parentRels);
    FilterMapSort(rels, RoleOf(conds), RelationKey, RoleKey);
    FilterMapSort(rels, ParentOf(conds), RelationKey, ParentKey);
    FilterMapSort(rels, PermissionOf(roleNames, parentRels), RelationKey, PermissionKey);
    StableSortFixes(r.permissions, PermissionKey);
    assert SortedBy(r.permissions, PermissionKey) by {
      ConstantKeySorted(r.permissions);
    }
    NothingSetAsideDirectly(r, conds);
    SortedSelects(rels, AdvancedDirect(r.name, conds));
    SortedSelects(rels, AdvancedRewrite(r.name, roleNames, parentRels));
  }

  lemma ConstantKeySorted(ps: seq<Permission>)
    ensures SortedBy(ps, PermissionKey)
  {
  }

  // ---------------------------------------------------------------------------
  // The whole model.

  function GroupPart(conds: set<string>): TypeDef -> Option<GroupType> {
    (td: TypeDef) => var gs := PartsOf(td, conds).groups; if gs == [] then None else Some(gs[0])
  }

  function ResourcePart(conds: set<string>): TypeDef -> Option<ResourceType> {
    (td: TypeDef) => var rs := PartsOf(td, conds).resources; if rs == [] then None else Some(rs[0])
  }

  lemma {:induction false} PartsSelected(ts: seq<TypeDef>, conds: set<string>)
    ensures AllParts(ts, conds).groups == FilterMap(ts, GroupPart(conds))
    ensures AllParts(ts, conds).resources == FilterMap(ts, ResourcePart(conds))
  {
    if ts != [] {
      OnePart(ts[0], conds);
      hide PartsOf;
      PartsSelected(ts[1..], conds);
    }
  }

  lemma OnePart(td: TypeDef, conds: set<string>)
    ensures |PartsOf(td, conds).groups| <= 1 && |PartsOf(td, conds).resources| <= 1
    ensures PartsOf(td, conds).groups == if GroupPart(conds)(td).Some? then [GroupPart(conds)(td).value] else []
    ensures PartsOf(td, conds).resources == if ResourcePart(conds)(td).Some? then [ResourcePart(conds)(td).value]
            else []
  {
    hide HasForeignCondition, AllSubjectRefs, ResourceOf, ResourceAdvanced, Map;
  }

  ghost predicate LoneMember(r: ResourceType) {
    RelationNames(r) == ["member"]
  }

  lemma SortOne<T>(x: T, key: T -> int)
    ensures StableSort([x], key) == [x]
  {
    assert StableSort([], key) == [];
    SortCons(x, [], key);
  }

  lemma RelationsNamed(r: ResourceType)
    ensures var rels := ResourceRelations(r);
            |rels| == |RelationNames(r)| && forall i :: 0 <= i < |rels| ==> rels[i].name == RelationNames(r)[i]
  {
    hide CanName, PermissionChildren;
  }

  lemma LoneShape(r: ResourceType)
    ensures IsGroupShape(EmitResource(r)) <==> LoneMember(r)
  {
    var rels := ResourceRelations(r);
    RelationsNamed(r);
    hide StableSort, IndexKey, ResourceRelations, RelationNames;
    SameElements(rels, RelationKey);
    if |rels| == 1 {
      assert rels == [rels[0]];
      SortOne(rels[0], RelationKey);
      assert RelationNames(r) == [RelationNames(r)[0]];
    }
  }

  ghost predicate ClassifiableGroup(g: GroupType, conds: set<string>) {
    g.name != "user" && g.memberTypes != [] && Covered(g.memberTypes, conds)
  }

  lemma GroupReads(g: GroupType, conds: set<string>)
    requires ClassifiableGroup(g, conds)
    ensures PartsOf(EmitGroup(g), conds) == Parts([g], [], [])
  {
    SubjectsRead(g.memberTypes, conds);
  }

  lemma ResourcePartReads(r: ResourceType, conds: set<string>)
    requires Classifiable(r, conds) && r.name != "user"
    ensures LoneMember(r) ==> PartsOf(EmitResource(r), conds).resources == []
    ensures var there :=
            ResourceType(r.name, StableSort(r.parents, ParentKey), StableSort(r.roles, RoleKey), r.permissions);
            !LoneMember(r) ==> PartsOf(EmitResource(r), conds) == Parts([], [there], [])
  {
    LoneShape(r);
    assert EmitResource(r).name == r.name;
    hide StableSort, IndexKey, Classifiable, LoneMember, ResourceRelations, EmitResource;
    ResourceReads(r, conds);
  }

  /** A resource comes back as it was exactly when it is not mistaken for a group and its names are in object order. */
  ghost predicate RecoverableResource(r: ResourceType) {
    !LoneMember(r) && SortedBy(r.parents, ParentKey) && SortedBy(r.roles, RoleKey)
  }

  lemma ResourceRecovered(r: ResourceType, conds: set<string>)
    requires Classifiable(r, conds) && r.name != "user"
    ensures ResourcePart(conds)(EmitResource(r)) == Some(r) <==> RecoverableResource(r)
  {
    hide StableSort, IndexKey, Classifiable, PartsOf, LoneMember, EmitResource, SortedBy;
    ResourcePartReads(r, conds);
    StableSortFixes(r.parents, ParentKey);
    StableSortFixes(r.roles, RoleKey);
  }

  lemma TypeNamed(ir: ModelIR)
    requires GoodTypeNames(ir)
    ensures "user" !in ResourceNames(ir.resources) && "user" !in GroupNames(ir.groups)
    ensures forall g :: g in ir.groups ==> g.name != "user"
    ensures forall r :: r in ir.resources ==> r.name != "user"
  {
    hide IsIdentifier;
    var (gs, rs) := (GroupNames(ir.groups), ResourceNames(ir.resources));
    forall i | 0 <= i < |gs| ensures gs[i] != "user" {
      assert TypeNames(ir)[i] == gs[i];
    }
    forall i | 0 <= i < |rs| ensures rs[i] != "user" {
      assert TypeNames(ir)[|gs| + i] == rs[i];
    }
    forall g | g in ir.groups ensures g.name != "user" {
      var i :| 0 <= i < |ir.groups| && ir.groups[i] == g;
      assert gs[i] == g.name;
    }
    forall r | r in ir.resources ensures r.name != "user" {
      var i :| 0 <= i < |ir.resources| && ir.resources[i] == r;
      assert rs[i] == r.name;
    }
  }

  lemma WellFormedClassifies(ir: ModelIR, r: ResourceType, conds: set<string>)
    requires WellFormed(ir) && r in ir.resources
    requires forall role :: role in r.roles ==> Covered(role.assignableBy, conds)
    ensures Classifiable(r, conds) && r.name != "user"
  {
    TypeNamed(ir);
    assert GoodResource(r, ir);
    hide RESERVED_WORDS, WellFormed, GoodTypeNames, GoodConditions, Distinct, InheritanceResolves, Covered;
    assert forall p :: p in r.parents ==> GoodParent(p, ir);
    assert forall role :: role in r.roles ==> GoodRole(role, ir);
    assert forall perm :: perm in r.permissions ==> GoodPermission(perm, r, ir);
  }

  ghost predicate AllCovered(ir: ModelIR, conds: set<string>) {
    && (forall g :: g in ir.groups ==> Covered(g.memberTypes, conds))
    && (forall r, role :: r in ir.resources && role in r.roles ==> Covered(role.assignableBy, conds))
  }

  lemma WellFormedCovers(ir: ModelIR)
    requires WellFormed(ir)
    ensures AllCovered(ir, SetOf(ConditionNames(ConditionsOf(ir))))
  {
    hide GoodTypeNames, GoodSubjects, GoodResource, Distinct, ValidCondition;
    assert GoodConditions(ir);
    var conds := SetOf(ConditionNames(ConditionsOf(ir)));
    forall g | g in ir.groups ensures Covered(g.memberTypes, conds) {
      forall ref | ref in g.memberTypes && ref.condition.Some? ensures ref.condition.value in conds {
        assert ConditionResolves(ref, ir);
      }
    }
    forall r, role | r in ir.resources && role in r.roles ensures Covered(role.assignableBy, conds) {
      forall ref | ref in role.assignableBy && ref.condition.Some? ensures ref.condition.value in conds {
        assert ConditionResolves(ref, ir);
      }
    }
  }

  lemma SplitTypes<T>(ir: ModelIR, f: TypeDef -> Option<T>)
    requires f(TypeDef("user", [])).None?
    ensures FilterMap(Emit(ir).types, f) ==
            FilterMap(Map(ir.groups, EmitGroup), f) + FilterMap(Map(ir.resources, EmitResource), f)
  {
    var user := [TypeDef("user", [])];
    var (gs, rs) := (Map(ir.groups, EmitGroup), Map(ir.resources, EmitResource));
    assert Emit(ir).types == user + gs + rs by {
      hide StableSort, ConditionJsonKey;
    }
    assert FilterMap(user, f) == [];
    hide FilterMap, Map;
    FilterMapConcat(user + gs, rs, f);
    FilterMapConcat(user, gs, f);
  }

  lemma UserIsNoPart(conds: set<string>)
    ensures PartsOf(TypeDef("user", []), conds) == Parts([], [], [])
  {
  }

  lemma GroupsRecovered(ir: ModelIR, conds: set<string>)
    requires WellFormed(ir) && AllCovered(ir, conds)
    ensures FilterMap(Map(ir.groups, EmitGroup), GroupPart(conds)) == ir.groups
    ensures FilterMap(Map(ir.groups, EmitGroup), ResourcePart(conds)) == []
  {
    TypeNamed(ir);
    hide GoodTypeNames, GoodResource, GoodConditions, Covered, PartsOf, Map, FilterMap, StableSort;
    forall g | g in ir.groups
      ensures GroupPart(conds)(EmitGroup(g)) == Some(g) && ResourcePart(conds)(EmitGroup(g)).None? {
      assert GoodSubjects(g.memberTypes, ir);
      GroupReads(g, conds);
    }
    hide *;
    ReadBackAll(ir.groups, EmitGroup, GroupPart(conds));
    NothingSelectedOf(ir.groups, EmitGroup, ResourcePart(conds));
  }

  lemma ResourcesRecovered(ir: ModelIR, conds: set<string>)
    requires WellFormed(ir) && AllCovered(ir, conds)
    ensures FilterMap(Map(ir.resources, EmitResource), ResourcePart(conds)) == ir.resources <==>
            forall r :: r in ir.resources ==> RecoverableResource(r)
    ensures (forall r :: r in ir.resources ==> !LoneMember(r)) ==>
              FilterMap(Map(ir.resources, EmitResource), GroupPart(conds)) == []
  {
    hide WellFormed, Covered, PartsOf, Map, FilterMap, StableSort, RecoverableResource, EmitResource, LoneMember;
    forall r | r in ir.resources
      ensures ResourcePart(conds)(EmitResource(r)) == Some(r) <==> RecoverableResource(r)
      ensures !LoneMember(r) ==> GroupPart(conds)(EmitResource(r)).None?
    {
      WellFormedClassifies(ir, r, conds);
      ResourceRecovered(r, conds);
      ResourcePartReads(r, conds);
    }
    hide *;
    ReadBackAll(ir.resources, EmitResource, ResourcePart(conds));
    if forall r :: r in ir.resources ==> !LoneMember(r) {
      NothingSelectedOf(ir.resources, EmitResource, GroupPart(conds));
    }
  }

  /** Which models come back as they were. */
  ghost predicate Recoverable(ir: ModelIR) {
    && ir.conditions != Some([])
    && SortedBy(ConditionsOf(ir), ConditionKey)
    && (forall c :: c in ConditionsOf(ir) ==> RecoverableCondition(c))
    && (forall r :: r in ir.resources ==> RecoverableResource(r))
  }

  /** With its conditions back, a model is back exactly when each of its resources is. */
  lemma TypesRecovered(ir: ModelIR, conds: set<string>)
    requires WellFormed(ir) && conds == SetOf(ConditionNames(ConditionsOf(ir)))
    ensures var parts := AllParts(Emit(ir).types, conds);
            (parts.groups == ir.groups && parts.resources == ir.resources) <==>
              forall r :: r in ir.resources ==> RecoverableResource(r)
  {
    WellFormedCovers(ir);
    UserIsNoPart(conds);
    assert forall r :: RecoverableResource(r) ==> !LoneMember(r) by {
      hide LoneMember, SortedBy;
    }
    assert GroupPart(conds)(TypeDef("user", [])).None? && ResourcePart(conds)(TypeDef("user", [])).None?;
    hide *;
    PartsSelected(Emit(ir).types, conds);
    SplitTypes(ir, GroupPart(conds));
    SplitTypes(ir, ResourcePart(conds));
    GroupsRecovered(ir, conds);
    ResourcesRecovered(ir, conds);
  }

  lemma EmittedTypes(ir: ModelIR)
    ensures Emit(ir).types == [TypeDef("user", [])] + Map(ir.groups, EmitGroup) + Map(ir.resources, EmitResource)
    ensures Emit(ir).conditions == StableSort(Map(ConditionsOf(ir), EmitCondition), ConditionJsonKey)
  {
    hide Map, StableSort;
  }

  lemma ConditionsKnown(cs: seq<ConditionDef>)
    requires forall c :: c in cs ==> ValidCondition(c) && RecoverableCondition(c)
    ensures Representable(StableSort(Map(cs, EmitCondition), ConditionJsonKey)) == SetOf(ConditionNames(cs))
  {
    hide EmitCondition, ParseCondition, RecoverableCondition, ValidCondition, StableSort, Map, ConditionNames;
    hide SetOf, Representable;
    forall c | c in cs ensures ParseCondition(EmitCondition(c)).Some? {
      ConditionReads(c);
    }
    EveryConditionNamed(cs);
  }

  /** Compiling a valid model and classifying the result gives back exactly that model if and only
      if it is recoverable. */
  lemma RoundTripRecovers(ir: ModelIR)
    requires WellFormed(ir)
    ensures Recovered(Emit(ir)) == ir <==> Recoverable(ir)
  {
    hide *;
    var cs := ConditionsOf(ir);
    ConditionsValid(ir);
    EmittedTypes(ir);
    RecoveredParts(Emit(ir), ir);
    RecoverableParts(ir);
    ConditionsRead(cs);
    if FilterMap(Emit(ir).conditions, ParseCondition) == cs {
      ConditionsKnown(cs);
      TypesRecovered(ir, SetOf(ConditionNames(cs)));
    }
  }

  lemma ConditionsValid(ir: ModelIR)
    requires WellFormed(ir)
    ensures Distinct(ConditionNames(ConditionsOf(ir))) && forall c :: c in ConditionsOf(ir) ==> ValidCondition(c)
  {
    hide Distinct, ValidCondition, GoodTypeNames, GoodResource, GoodSubjects, ConditionResolves;
    assert GoodConditions(ir);
  }

  lemma RecoveredParts(m: Model, ir: ModelIR)
    ensures var parts := AllParts(m.types, Representable(m.conditions));
            Recovered(m) == ir <==>
            && parts.groups == ir.groups && parts.resources == ir.resources
            && FilterMap(m.conditions, ParseCondition) == ConditionsOf(ir) && ir.conditions != Some([])
  {
    hide AllParts, Representable, FilterMap, ParseCondition;
  }

  lemma RecoverableParts(ir: ModelIR)
    ensures Recoverable(ir) <==>
            && ir.conditions != Some([])
            && SortedBy(ConditionsOf(ir), ConditionKey)
            && (forall c :: c in ConditionsOf(ir) ==> RecoverableCondition(c))
            && (forall r :: r in ir.resources ==> RecoverableResource(r))
  {
    hide SortedBy, RecoverableCondition, RecoverableResource;
  }

  // ---------------------------------------------------------------------------
  // What the classifier sets aside.

  lemma {:induction false} AdvancedSelected(ts: seq<TypeDef>, conds: set<string>)
    ensures AllParts(ts, conds).advanced == [] <==> forall td :: td in ts ==> PartsOf(td, conds).advanced == []
  {
    hide PartsOf;
    if ts != [] {
      AdvancedSelected(ts[1..], conds);
      assert forall td :: td in ts <==> td == ts[0] || td in ts[1..];
    }
  }

  lemma GroupSetAside(g: GroupType, conds: set<string>)
    requires g.name != "user" && g.memberTypes != []
    ensures PartsOf(EmitGroup(g), conds).advanced == [] <==> Covered(g.memberTypes, conds)
  {
    SubjectsRead(g.memberTypes, conds);
  }

  /** A resource whose only relation is a parent relation named member. */
  ghost predicate LoneMemberParent(r: ResourceType) {
    LoneMember(r) && r.parents != []
  }

  lemma LoneRelation(r: ResourceType)
    requires LoneMember(r)
    ensures r.parents != [] ==> EmitResource(r).relations == [EmitParent(r.parents[0])]
    ensures r.parents == [] ==> |r.roles| == 1 && EmitResource(r).relations == [EmitRole(r.roles[0])]
  {
    var rels := ResourceRelations(r);
    var can := CanNames(r.permissions);
    assert |r.parents| + |r.roles| + |can| == 1;
    hide IndexKey, CanName, EmitPermission;
    assert |can| == 0 by {
      if |can| > 0 {
        assert can[0] == RelationNames(r)[|r.parents| + |r.roles|];
        CanNameReads(r.permissions[0].name);
      }
    }
    assert |rels| == 1;
    assert rels == [rels[0]];
    SortOne(rels[0], RelationKey);
  }

  lemma LoneResourceSetAside(r: ResourceType, conds: set<string>)
    requires r.name != "user" && LoneMember(r)
    requires forall p :: p in r.parents ==> p.parentTypes != [] && "user" !in p.parentTypes
    requires forall role :: role in r.roles ==> role.assignableBy != []
    ensures PartsOf(EmitResource(r), conds).advanced == [] <==>
            r.parents == [] && forall role :: role in r.roles ==> Covered(role.assignableBy, conds)
  {
    LoneRelation(r);
    LoneShape(r);
    var member := EmitResource(r).relations[0];
    assert EmitResource(r).name == r.name;
    if r.parents != [] {
      var p := r.parents[0];
      assert p in r.parents && p.parentTypes[0] in p.parentTypes;
      assert member.refs[0] in member.refs && !IsSubjectRef(member.refs[0]);
      hide Map, StableSort, HasForeignCondition, LoneMember, Covered;
    } else {
      assert RelationNames(r) == RoleNames(r.roles) + CanNames(r.permissions);
      assert r.roles == [r.roles[0]] by {
        assert |r.roles| == 1;
      }
      SubjectsRead(r.roles[0].assignableBy, conds);
      hide Map, StableSort, HasForeignCondition, AllSubjectRefs, LoneMember, Covered;
    }
  }

  lemma ResourceSetAside(r: ResourceType, conds: set<string>, ir: ModelIR)
    requires WellFormed(ir) && r in ir.resources
    ensures PartsOf(EmitResource(r), conds).advanced == [] <==>
            !LoneMemberParent(r) && forall role :: role in r.roles ==> Covered(role.assignableBy, conds)
  {
    var all := SetOf(ConditionNames(ConditionsOf(ir)));
    WellFormedCovers(ir);
    WellFormedClassifies(ir, r, all);
    hide WellFormed, Covered, StableSort;
    if LoneMember(r) {
      LoneResourceSetAside(r, conds);
    } else {
      LoneShape(r);
      SetAsideDirectly(r, conds);
      hide FilterMap, AdvancedDirect, LoneMember, Classifiable;
      SortedSelects(ResourceRelations(r), AdvancedDirect(r.name, conds));
      if forall role :: role in r.roles ==> Covered(role.assignableBy, conds) {
        assert Classifiable(r, conds) by {
          WellFormedClassifies(ir, r, conds);
        }
        ResourceReads(r, conds);
      }
    }
  }

  lemma TypesSetAside(ir: ModelIR, conds: set<string>)
    requires WellFormed(ir)
    ensures (forall g ::
            g in ir.groups ==> (PartsOf(EmitGroup(g), conds).advanced == [] <==> Covered(g.memberTypes, conds)))
    ensures forall r :: r in ir.resources ==>
              (PartsOf(EmitResource(r), conds).advanced == [] <==>
               !LoneMemberParent(r) && forall role :: role in r.roles ==> Covered(role.assignableBy, conds))
  {
    TypeNamed(ir);
    assert forall g :: g in ir.groups ==> GoodSubjects(g.memberTypes, ir);
    hide WellFormed, PartsOf, EmitGroup, EmitResource, Covered, LoneMemberParent;
    forall g | g in ir.groups ensures PartsOf(EmitGroup(g), conds).advanced == [] <==> Covered(g.memberTypes, conds) {
      GroupSetAside(g, conds);
    }
    forall r | r in ir.resources
      ensures PartsOf(EmitResource(r), conds).advanced == [] <==>
              !LoneMemberParent(r) && forall role :: role in r.roles ==> Covered(role.assignableBy, conds)
    {
      ResourceSetAside(r, conds, ir);
    }
  }

  /** Of an emitted model nothing is set aside exactly when every condition in use parses back and no resource
      has a parent relation "member" as its only relation. */
  lemma EmittedSetAside(ir: ModelIR)
    requires WellFormed(ir)
    ensures SetAside(Emit(ir)) == [] <==>
            && AllCovered(ir, Representable(Emit(ir).conditions))
            && forall r :: r in ir.resources ==> !LoneMemberParent(r)
  {
    var conds := Representable(Emit(ir).conditions);
    var (user, gs, rs) := ([TypeDef("user", [])], Map(ir.groups, EmitGroup), Map(ir.resources, EmitResource));
    EmittedTypes(ir);
    UserIsNoPart(conds);
    hide WellFormed, Representable, PartsOf, EmitGroup, EmitResource, Emit, AllParts, Covered, LoneMemberParent, Map;
    AdvancedSelected(Emit(ir).types, conds);
    TypesSetAside(ir, conds);
    MappedAll(ir.groups, EmitGroup, (td: TypeDef) => PartsOf(td, conds).advanced == []);
    MappedAll(ir.resources, EmitResource, (td: TypeDef) => PartsOf(td, conds).advanced == []);
    assert forall td :: td in user + gs + rs <==> td == user[0] || td in gs || td in rs;
  }

  /** When every condition is a leaf or one flat group, nothing emitted is set aside but a lone parent "member". */
  lemma FlatConditionsSetNothingAside(ir: ModelIR)
    requires WellFormed(ir) && forall c :: c in ConditionsOf(ir) ==> Classified(c)
    ensures SetAside(Emit(ir)) == [] <==> forall r :: r in ir.resources ==> !LoneMemberParent(r)
  {
    var cs := ConditionsOf(ir);
    hide Emit, EmitCondition, ParseCondition, LoneMemberParent, Covered, StableSort, Map, GoodResource;
    hide GoodTypeNames, GoodSubjects, ValidCondition, Classified;
    EmittedSetAside(ir);
    WellFormedCovers(ir);
    assert GoodConditions(ir);
    forall c | c in cs ensures ParseCondition(EmitCondition(c)).Some? {
      ConditionReads(c);
    }
    EveryConditionNamed(cs);
    EmittedTypes(ir);
  }

  lemma OnlyItsOwnName(cs: seq<ConditionDef>, c: ConditionDef)
    requires Distinct(ConditionNames(cs)) && c in cs && ParseCondition(EmitCondition(c)).None?
    ensures c.name !in Representable(StableSort(Map(cs, EmitCondition), ConditionJsonKey))
  {
    hide EmitCondition, ParseCondition, Representable, StableSort, Map;
    NamesKnown(cs);
    if d :| d in cs && d.name == c.name && ParseCondition(EmitCondition(d)).Some? {
      var i :| 0 <= i < |cs| && cs[i] == c;
      var j :| 0 <= j < |cs| && cs[j] == d;
      assert ConditionNames(cs)[i] == ConditionNames(cs)[j];
    }
  }

  /** A nested condition in use is always set aside. */
  lemma NestedConditionSetsAside(ir: ModelIR, c: ConditionDef, r: ResourceType, role: Role, ref: SubjectRef)
    requires WellFormed(ir) && c in ConditionsOf(ir) && !Flat(Collapse(c.tree))
    requires r in ir.resources && role in r.roles && ref in role.assignableBy && ref.condition == Some(c.name)
    ensures SetAside(Emit(ir)) != []
  {
    assert GoodConditions(ir);
    hide Emit, EmitCondition, ParseCondition, Representable, LoneMemberParent, StableSort, Map, WellFormed;
    hide ValidCondition, Flat, Collapse, ConditionNames, Distinct, SetAside;
    EmittedSetAside(ir);
    ConditionReads(c);
    OnlyItsOwnName(ConditionsOf(ir), c);
    EmittedTypes(ir);
    assert !Covered(role.assignableBy, Representable(Emit(ir).conditions));
  }

  lemma EveryBlockParses(cs: seq<ConditionDef>)
    requires forall c :: c in cs ==> ValidCondition(c) && Classified(c)
    ensures FilterMap(StableSort(Map(cs, EmitCondition), ConditionJsonKey), Unparsed) == []
  {
    hide EmitCondition, ParseCondition, StableSort, Map, FilterMap, ValidCondition, Classified, ConditionJsonKey;
    var sent := Map(cs, EmitCondition);
    SameElements(sent, ConditionJsonKey);
    forall c | c in cs ensures Unparsed(EmitCondition(c)).None? {
      ConditionReads(c);
    }
    MappedAll(cs, EmitCondition, (b: ConditionJson) => Unparsed(b).None?);
    NothingSelected(StableSort(sent, ConditionJsonKey), Unparsed);
  }

  /** A recoverable model comes back with full coverage. */
  lemma RecoverableIsFullyCovered(ir: ModelIR)
    requires WellFormed(ir) && Recoverable(ir)
    ensures CoverageOf(Emit(ir)).fullyRepresentable && CoverageOf(Emit(ir)).advanced == []
  {
    var m := Emit(ir);
    assert m.schemaVersion == Some("1.1");
    assert GoodConditions(ir);
    assert forall r :: r in ir.resources ==> !LoneMemberParent(r) by {
      assert forall r :: r in ir.resources ==> RecoverableResource(r);
    }
    assert forall c :: c in ConditionsOf(ir) ==> Classified(c) by {
      assert forall c :: c in ConditionsOf(ir) ==> RecoverableCondition(c);
    }
    assert forall c :: c in ConditionsOf(ir) ==> ValidCondition(c);
    hide WellFormed, Recoverable, Emit, ValidCondition, Classified, LoneMemberParent, Recovered, FilterMap, StableSort;
    hide Map, GoodConditions, SetAside, Errors, Backstop;
    EmittedTypes(ir);
    RoundTripRecovers(ir);
    FullCoverage(m);
    FlatConditionsSetNothingAside(ir);
    EveryBlockParses(ConditionsOf(ir));
    FullCoverageSetsNothingAside(m);
  }

  lemma FullCoverageSetsNothingAside(m: Model)
    requires CoverageOf(m).fullyRepresentable
    ensures CoverageOf(m).advanced == []
  {
    hide Backstop, Errors, AllParts, Recovered;
  }
}
