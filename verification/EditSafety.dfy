/**
  Which edits keep every reference resolved and every name unique: exactly the admissible ones, which a
  caller can check first, and so every run of them from a valid model.
*/
module EditSafety {
  import opened Prelude
  import opened Sorting
  import opened Condition
  import opened ModelIr
  import opened JsonCopy
  import opened Edit
  import opened EditCopy

  // ---------------------------------------------------------------------------
  // Closed models.

  ghost predicate RefClosed(ref: SubjectRef, groups: set<string>, conds: set<string>) {
    (ref.Group? ==> ref.group in groups) && (ref.condition.Some? ==> ref.condition.value in conds)
  }

  ghost predicate RefsClosed(refs: seq<SubjectRef>, groups: set<string>, conds: set<string>) {
    forall ref :: ref in refs ==> RefClosed(ref, groups, conds)
  }

  ghost predicate ParentClosed(p: ParentRef, types: set<string>) {
    forall t :: t in p.parentTypes ==> t in types
  }

  ghost predicate PermissionClosed(perm: Permission, roles: seq<string>, parents: seq<string>) {
    && (forall role :: role in perm.grantedByRoles ==> role in roles)
    && (forall rel :: rel in perm.inheritFromParents ==> rel in parents)
  }

  /** A resource whose parent relations have distinct names and whose references all resolve. */
  ghost predicate ResourceClosed(r: ResourceType, groups: set<string>, types: set<string>, conds: set<string>) {
    && Distinct(ParentNames(r.parents))
    && (forall p :: p in r.parents ==> ParentClosed(p, types))
    && (forall role :: role in r.roles ==> RefsClosed(role.assignableBy, groups, conds))
    && (forall perm :: perm in r.permissions ==> PermissionClosed(perm, RoleNames(r.roles), ParentNames(r.parents)))
  }

  function GroupsOf(ir: ModelIR): set<string> { SetOf(GroupNames(ir.groups)) }
  function TypesOf(ir: ModelIR): set<string> { SetOf(ResourceNames(ir.resources)) }
  function CondsOf(ir: ModelIR): set<string> { SetOf(ConditionNames(ConditionsOf(ir))) }

  ghost predicate UniqueNames(ir: ModelIR) {
    Distinct(TypeNames(ir)) && Distinct(ConditionNames(ConditionsOf(ir)))
  }

  ghost predicate GroupsClosed(ir: ModelIR, groups: set<string>, conds: set<string>) {
    forall g :: g in ir.groups ==> RefsClosed(g.memberTypes, groups, conds)
  }

  ghost predicate ResourcesClosed(ir: ModelIR, groups: set<string>, types: set<string>, conds: set<string>) {
    forall r :: r in ir.resources ==> ResourceClosed(r, groups, types, conds)
  }

  /** No dangling group, parent type, parent relation, role or condition; type, condition and per-resource parent
      relation names unique. */
  ghost predicate Closed(ir: ModelIR) {
    && UniqueNames(ir)
    && GroupsClosed(ir, GroupsOf(ir), CondsOf(ir))
    && ResourcesClosed(ir, GroupsOf(ir), TypesOf(ir), CondsOf(ir))
  }

  // ---------------------------------------------------------------------------
  // One resource changes.

  lemma {:induction false} UpdateFirstAll<T(!new)>(s: seq<T>, p: T -> bool, f: T -> T, good: T -> bool)
    requires forall x :: x in s ==> good(x)
    ensures (forall y :: y in UpdateFirst(s, p, f) ==> good(y)) <==> (Find(s, p).Some? ==> good(f(Find(s, p).value)))
  {
    if s != [] {
      var rest := UpdateFirst(s[1..], p, f);
      if p(s[0]) {
        assert UpdateFirst(s, p, f) == [f(s[0])] + s[1..];
        assert f(s[0]) in UpdateFirst(s, p, f);
      } else {
        UpdateFirstAll(s[1..], p, f, good);
        assert forall y :: y in UpdateFirst(s, p, f) <==> y == s[0] || y in rest;
      }
    }
  }

  lemma {:induction false} UpdateFirstKeeps<T(!new), U>(s: seq<T>, p: T -> bool, f: T -> T, name: T -> U)
    requires forall x :: name(f(x)) == name(x)
    ensures forall i :: 0 <= i < |s| ==> name(UpdateFirst(s, p, f)[i]) == name(s[i])
  {
    if s != [] && !p(s[0]) {
      UpdateFirstKeeps(s[1..], p, f, name);
    }
  }

  /** Changing one resource keeps a model closed exactly when the changed resource is. */
  lemma OnResourceClosed(ir: ModelIR, typ: string, f: ResourceType -> ResourceType)
    requires Closed(ir) && forall r :: f(r).name == r.name
    ensures var found := Find(ir.resources, ResourceIs(typ));
            Closed(OnResource(ir, typ, f)) <==>
            (found.Some? ==> ResourceClosed(f(found.value), GroupsOf(ir), TypesOf(ir), CondsOf(ir)))
  {
    var (gs, ts, cs) := (GroupsOf(ir), TypesOf(ir), CondsOf(ir));
    var there := OnResource(ir, typ, f);
    UpdateFirstKeeps(ir.resources, ResourceIs(typ), f, (r: ResourceType) => r.name);
    assert ResourceNames(there.resources) == ResourceNames(ir.resources);
    assert TypeNames(there) == TypeNames(ir) && ConditionsOf(there) == ConditionsOf(ir);
    assert GroupsOf(there) == gs && TypesOf(there) == ts && CondsOf(there) == cs;
    hide ResourceClosed, RefsClosed, Distinct, UpdateFirst, ResourceNames, ConditionNames, GroupNames;
    UpdateFirstAll(ir.resources, ResourceIs(typ), f, (r: ResourceType) => ResourceClosed(r, gs, ts, cs));
  }

  lemma {:induction false} FilterNames<T(!new)>(s: seq<T>, keep: T -> bool, name: T -> string)
    requires Distinct(Map(s, name))
    ensures Distinct(Map(Filter(s, keep), name))
  {
    if s != [] {
      var rest := Map(s[1..], name);
      assert forall i :: 0 <= i < |rest| ==> rest[i] == Map(s, name)[i + 1];
      FilterNames(s[1..], keep, name);
      if keep(s[0]) {
        var kept := Filter(s[1..], keep);
        assert Filter(s, keep) == [s[0]] + kept;
        forall i | 0 <= i < |kept| ensures name(kept[i]) != name(s[0]) {
          assert kept[i] in s[1..];
          var k :| 0 <= k < |s| - 1 && s[1..][k] == kept[i];
          assert Map(s, name)[0] != Map(s, name)[k + 1];
        }
      } else {
        assert Filter(s, keep) == Filter(s[1..], keep);
      }
    }
  }

  function ParentName(p: ParentRef): string { p.relationName }

  lemma NameOf(ps: seq<ParentRef>, rel: string)
    ensures rel in ParentNames(ps) <==> exists p :: p in ps && p.relationName == rel
  {
    if rel in ParentNames(ps) {
      var i :| 0 <= i < |ps| && ParentNames(ps)[i] == rel;
      assert ps[i] in ps;
    }
    if p :| p in ps && p.relationName == rel {
      var i :| 0 <= i < |ps| && ps[i] == p;
      assert ParentNames(ps)[i] == rel;
    }
  }

  lemma RoleNameOf(rs: seq<Role>, name: string)
    ensures name in RoleNames(rs) <==> exists role :: role in rs && role.name == name
  {
    if name in RoleNames(rs) {
      var i :| 0 <= i < |rs| && RoleNames(rs)[i] == name;
      assert rs[i] in rs;
    }
    if role :| role in rs && role.name == name {
      var i :| 0 <= i < |rs| && rs[i] == role;
      assert RoleNames(rs)[i] == name;
    }
  }

  lemma FirstNameGone(ps: seq<ParentRef>, f: ParentRef -> Option<ParentRef>, y: ParentRef)
    requires ps != [] && Distinct(ParentNames(ps))
            && forall p :: f(p).Some? ==> f(p).value.relationName == p.relationName
    requires y in FilterMap(ps[1..], f)
    ensures y.relationName != ps[0].relationName
  {
    hide FilterMap;
    FilterMapMembers(ps[1..], f, y);
    var p :| p in ps[1..] && f(p) == Some(y);
    var k :| 0 <= k < |ps| - 1 && ps[1..][k] == p;
    assert ParentNames(ps)[0] != ParentNames(ps)[k + 1];
  }

  lemma DistinctAfter(y: ParentRef, rest: seq<ParentRef>)
    requires Distinct(ParentNames(rest)) && forall x :: x in rest ==> x.relationName != y.relationName
    ensures Distinct(ParentNames([y] + rest))
  {
    var names := ParentNames([y] + rest);
    forall i, j | 0 <= i < j < |names| ensures names[i] != names[j] {
      assert names[j] == rest[j - 1].relationName && rest[j - 1] in rest;
      if i > 0 {
        assert names[i] == ParentNames(rest)[i - 1] && names[j] == ParentNames(rest)[j - 1];
      }
    }
  }

  /** Removing relations, wholly or in part, keeps the names of the others distinct. */
  lemma {:induction false} SelectedNamesDistinct(ps: seq<ParentRef>, f: ParentRef -> Option<ParentRef>)
    requires Distinct(ParentNames(ps)) && forall p :: f(p).Some? ==> f(p).value.relationName == p.relationName
    ensures Distinct(ParentNames(FilterMap(ps, f)))
  {
    if ps != [] {
      var rest := FilterMap(ps[1..], f);
      assert forall i :: 0 <= i < |ps| - 1 ==> ParentNames(ps[1..])[i] == ParentNames(ps)[i + 1];
      assert FilterMap(ps, f) == (if f(ps[0]).Some? then [f(ps[0]).value] else []) + rest;
      assert Distinct(ParentNames(ps[1..]));
      hide FilterMap, ParentNames, Distinct;
      SelectedNamesDistinct(ps[1..], f);
      if f(ps[0]).Some? {
        forall y | y in rest ensures y.relationName != ps[0].relationName {
          FirstNameGone(ps, f, y);
        }
        DistinctAfter(f(ps[0]).value, rest);
      } else {
        assert [] + rest == rest;
      }
    }
  }

  lemma ConnectedClosed(r: ResourceType, relation: string, parent: string, gs: set<string>, ts: set<string>,
      cs: set<string>)
    requires ResourceClosed(r, gs, ts, cs) && parent in ts
    ensures ResourceClosed(ParentConnected(relation, parent)(r), gs, ts, cs)
  {
    var there := ParentConnected(relation, parent)(r);
    hide RefsClosed, UpdateFirst;
    if exists p :: p in r.parents && p.relationName == relation {
      UpdateFirstAll(r.parents, ParentIs(relation), ParentExtended(parent), (p: ParentRef) => ParentClosed(p, ts));
      UpdateFirstKeeps(r.parents, ParentIs(relation), ParentExtended(parent), ParentName);
      assert ParentNames(there.parents) == ParentNames(r.parents);
    } else {
      NameOf(r.parents, relation);
      assert ParentNames(there.parents) == ParentNames(r.parents) + [relation];
    }
  }

  lemma CutKeeps(relation: string, parent: Option<string>, p: ParentRef)
    ensures ParentCut(relation, parent)(p).Some? ==>
              var q := ParentCut(relation, parent)(p).value;
              q.relationName == p.relationName && forall t :: t in q.parentTypes ==> t in p.parentTypes
    ensures ParentCut(relation, parent)(p).None? ==> p.relationName == relation
  {
    if p.relationName == relation && parent.Some? {
      WithoutKeeps(parent.value, p);
    }
  }

  lemma WithoutKeeps(name: string, p: ParentRef)
    ensures var types := Filter(p.parentTypes, Differs(name));
            ParentWithout(name)(p) == if types == [] then None else Some(p.(parentTypes := types))
    ensures ParentWithout(name)(p).Some? ==>
              var q := ParentWithout(name)(p).value;
              q.relationName == p.relationName && forall t :: t in q.parentTypes <==> t in p.parentTypes && t != name
  {
  }

  lemma KeptInherits(removed: seq<string>, perm: Permission, rel: string)
    ensures rel in InheritsKept(removed)(perm).inheritFromParents <==> rel in perm.inheritFromParents && rel !in removed
    ensures InheritsKept(removed)(perm).grantedByRoles == perm.grantedByRoles
  {
  }

  lemma DisconnectedClosed(r: ResourceType, relation: string, parent: Option<string>, gs: set<string>, ts: set<string>,
      cs: set<string>)
    requires ResourceClosed(r, gs, ts, cs)
    ensures ResourceClosed(ParentDisconnected(relation, parent)(r), gs, ts, cs)
  {
    var f := ParentCut(relation, parent);
    var there := ParentDisconnected(relation, parent)(r);
    hide RefsClosed, FilterMap, ParentCut;
    forall p: ParentRef ensures f(p).Some? ==> f(p).value.relationName == p.relationName {
      CutKeeps(relation, parent, p);
    }
    SelectedNamesDistinct(r.parents, f);
    forall p' | p' in there.parents ensures ParentClosed(p', ts) {
      FilterMapMembers(r.parents, f, p');
      var p :| p in r.parents && f(p) == Some(p');
      CutKeeps(relation, parent, p);
    }
    forall perm' | perm' in there.permissions
      ensures PermissionClosed(perm', RoleNames(there.roles), ParentNames(there.parents)) {
      CutPermissionClosed(r, relation, parent, perm');
    }
  }

  lemma CutPermissionClosed(r: ResourceType, relation: string, parent: Option<string>, perm': Permission)
    requires forall perm :: perm in r.permissions ==> PermissionClosed(perm, RoleNames(r.roles), ParentNames(r.parents))
    requires perm' in ParentDisconnected(relation, parent)(r).permissions
    ensures PermissionClosed(perm', RoleNames(r.roles), ParentNames(ParentDisconnected(relation, parent)(r).parents))
  {
    var f := ParentCut(relation, parent);
    var there := ParentDisconnected(relation, parent)(r);
    var i :| 0 <= i < |there.permissions| && there.permissions[i] == perm';
    var perm := r.permissions[i];
    assert perm in r.permissions;
    var gone := exists p :: p in r.parents && f(p).None?;
    assert perm' == if gone then InheritsKept([relation])(perm) else perm;
    hide InheritsKept, ParentCut, ParentDisconnected, FilterMap;
    forall rel | rel in perm'.inheritFromParents ensures rel in ParentNames(there.parents) {
      KeptInherits([relation], perm, rel);
      NameOf(r.parents, rel);
      var p :| p in r.parents && p.relationName == rel;
      CutKeeps(relation, parent, p);
      assert f(p).Some?;
      FilterMapMembers(r.parents, f, f(p).value);
      NameOf(there.parents, rel);
    }
  }

  lemma RolesOnlyGrow(r: ResourceType, there: ResourceType, gs: set<string>, ts: set<string>, cs: set<string>)
    requires ResourceClosed(r, gs, ts, cs)
    requires there == r.(roles := there.roles)
    requires forall n :: n in RoleNames(r.roles) ==> n in RoleNames(there.roles)
    ensures ResourceClosed(there, gs, ts, cs) <==>
            forall role :: role in there.roles ==> RefsClosed(role.assignableBy, gs, cs)
  {
    hide RefsClosed, ParentClosed;
  }

  lemma RoleAddedClosed(r: ResourceType, name: string, gs: set<string>, ts: set<string>, cs: set<string>)
    requires ResourceClosed(r, gs, ts, cs)
    ensures ResourceClosed(RoleAdded(name)(r), gs, ts, cs)
  {
    var there := RoleAdded(name)(r);
    if name !in RoleNames(r.roles) {
      assert RoleNames(there.roles) == RoleNames(r.roles) + [name];
      assert RefsClosed([User(None)], gs, cs);
      hide RefsClosed, ResourceClosed;
      RolesOnlyGrow(r, there, gs, ts, cs);
      assert forall role :: role in r.roles ==> RefsClosed(role.assignableBy, gs, cs) by {
        RolesOnlyGrow(r, r, gs, ts, cs);
      }
    }
  }

  lemma RoleRemovedClosed(r: ResourceType, name: string, gs: set<string>, ts: set<string>, cs: set<string>)
    requires ResourceClosed(r, gs, ts, cs)
    ensures ResourceClosed(RoleRemoved(name)(r), gs, ts, cs)
  {
    var there := RoleRemoved(name)(r);
    hide RefsClosed, ParentClosed, Distinct;
    forall perm' | perm' in there.permissions
      ensures PermissionClosed(perm', RoleNames(there.roles), ParentNames(r.parents)) {
      var i :| 0 <= i < |there.permissions| && there.permissions[i] == perm';
      var perm := r.permissions[i];
      assert perm in r.permissions;
      forall role | role in perm'.grantedByRoles ensures role in RoleNames(there.roles) {
        assert role in perm.grantedByRoles && role != name;
        RoleNameOf(r.roles, role);
        RoleNameOf(there.roles, role);
      }
    }
  }

  lemma GrantsFollow(r: ResourceType, from: string, to: string, perm: Permission)
    requires PermissionClosed(perm, RoleNames(r.roles), ParentNames(r.parents))
    ensures PermissionClosed(GrantsRenamed(from, to)(perm), RoleNames(Map(r.roles, RoleRenamed(from, to))),
            ParentNames(r.parents))
  {
    var there := GrantsRenamed(from, to)(perm);
    var roles := Map(r.roles, RoleRenamed(from, to));
    forall role' | role' in there.grantedByRoles ensures role' in RoleNames(roles) {
      var k :| 0 <= k < |there.grantedByRoles| && there.grantedByRoles[k] == role';
      assert perm.grantedByRoles[k] in perm.grantedByRoles;
      var j :| 0 <= j < |r.roles| && RoleNames(r.roles)[j] == perm.grantedByRoles[k];
      assert RoleNames(roles)[j] == role';
    }
  }

  lemma RolesRenamedClosed(r: ResourceType, from: string, to: string, gs: set<string>, ts: set<string>, cs: set<string>)
    requires ResourceClosed(r, gs, ts, cs)
    ensures ResourceClosed(RolesRenamed(from, to)(r), gs, ts, cs)
  {
    var (roles, perms) := (Map(r.roles, RoleRenamed(from, to)), Map(r.permissions, GrantsRenamed(from, to)));
    if from in RoleNames(r.roles) {
      assert RolesRenamed(from, to)(r) == r.(roles := roles, permissions := perms);
      hide RefsClosed, ParentClosed, PermissionClosed, Distinct, Map, RoleNames, ParentNames;
      hide GrantsRenamed, RolesRenamed;
      forall role' | role' in roles ensures RefsClosed(role'.assignableBy, gs, cs) {
        var i :| 0 <= i < |roles| && roles[i] == role';
        assert r.roles[i] in r.roles;
      }
      forall perm' | perm' in perms ensures PermissionClosed(perm', RoleNames(roles), ParentNames(r.parents)) {
        var i :| 0 <= i < |perms| && perms[i] == perm';
        assert r.permissions[i] in r.permissions;
        GrantsFollow(r, from, to, r.permissions[i]);
      }
    }
  }

  lemma OnRoleClosed(r: ResourceType, name: string, f: Role -> Role, gs: set<string>, ts: set<string>, cs: set<string>)
    requires ResourceClosed(r, gs, ts, cs) && forall role :: f(role).name == role.name
    ensures var found := Find(r.roles, RoleIs(name));
            ResourceClosed(OnRole(name, f)(r), gs, ts, cs) <==>
              (found.Some? ==> RefsClosed(f(found.value).assignableBy, gs, cs))
  {
    var there := OnRole(name, f)(r);
    UpdateFirstKeeps(r.roles, RoleIs(name), f, (role: Role) => role.name);
    assert RoleNames(there.roles) == RoleNames(r.roles);
    UpdateFirstAll(r.roles, RoleIs(name), f, (role: Role) => RefsClosed(role.assignableBy, gs, cs));
    hide RefsClosed;
    RolesOnlyGrow(r, there, gs, ts, cs);
  }

  lemma OnPermissionClosed(r: ResourceType, name: string, f: Permission -> Permission, gs: set<string>, ts: set<string>,
      cs: set<string>)
    requires ResourceClosed(r, gs, ts, cs)
    ensures var found := Find(r.permissions, PermissionIs(name));
            ResourceClosed(OnPermission(name, f)(r), gs, ts, cs) <==>
            (found.Some? ==> PermissionClosed(f(found.value), RoleNames(r.roles), ParentNames(r.parents)))
  {
    var there := OnPermission(name, f)(r);
    assert there == r.(permissions := UpdateFirst(r.permissions, PermissionIs(name), f));
    var (roles, parents) := (RoleNames(r.roles), ParentNames(r.parents));
    UpdateFirstAll(r.permissions, PermissionIs(name), f, (perm: Permission) => PermissionClosed(perm, roles, parents));
    hide RefsClosed, ParentClosed, Distinct, PermissionClosed, UpdateFirst, OnPermission;
  }

  lemma Toggled(s: seq<string>, x: string, names: seq<string>)
    requires forall y :: y in s ==> y in names
    ensures (forall y :: y in Toggle(s, x) ==> y in names) <==> x in names
  {
    if x !in s {
      assert x in Toggle(s, x);
    }
  }

  lemma GrantToggledClosed(perm: Permission, role: string, roles: seq<string>, parents: seq<string>)
    requires PermissionClosed(perm, roles, parents)
    ensures PermissionClosed(GrantToggled(role)(perm), roles, parents) <==> role in roles
  {
    Toggled(perm.grantedByRoles, role, roles);
    hide Toggle;
  }

  lemma InheritToggledClosed(perm: Permission, rel: string, roles: seq<string>, parents: seq<string>)
    requires PermissionClosed(perm, roles, parents)
    ensures PermissionClosed(InheritToggled(rel)(perm), roles, parents) <==> rel in parents
  {
    Toggled(perm.inheritFromParents, rel, parents);
    hide Toggle;
  }

  lemma PermissionsKept(r: ResourceType, there: ResourceType, gs: set<string>, ts: set<string>, cs: set<string>)
    requires ResourceClosed(r, gs, ts, cs) && there == r.(permissions := there.permissions)
    requires forall p' :: p' in there.permissions ==>
               (p'.grantedByRoles == [] && p'.inheritFromParents == [])
               || exists p :: p in r.permissions &&
                    p.grantedByRoles == p'.grantedByRoles && p.inheritFromParents == p'.inheritFromParents
    ensures ResourceClosed(there, gs, ts, cs)
  {
    hide RefsClosed, ParentClosed, Distinct;
  }

  lemma PermissionEditsClosed(r: ResourceType, from: string, to: string, gs: set<string>, ts: set<string>,
      cs: set<string>)
    requires ResourceClosed(r, gs, ts, cs)
    ensures ResourceClosed(PermissionAdded(from)(r), gs, ts, cs)
    ensures ResourceClosed(PermissionRemoved(from)(r), gs, ts, cs)
    ensures ResourceClosed(PermissionsRenamed(from, to)(r), gs, ts, cs)
  {
    hide ResourceClosed;
    PermissionsKept(r, PermissionAdded(from)(r), gs, ts, cs);
    PermissionsKept(r, PermissionRemoved(from)(r), gs, ts, cs);
    var renamed := PermissionsRenamed(from, to)(r);
    forall p' | p' in renamed.permissions
      ensures exists p :: p in r.permissions &&
                p.grantedByRoles == p'.grantedByRoles && p.inheritFromParents == p'.inheritFromParents
    {
      var i :| 0 <= i < |renamed.permissions| && renamed.permissions[i] == p';
      assert r.permissions[i] in r.permissions;
    }
    PermissionsKept(r, renamed, gs, ts, cs);
  }

  /** Setting a condition on one assignment keeps the references closed exactly when the condition is known. */
  lemma ConditionedClosed(role: Role, index: int, condition: Option<string>, gs: set<string>, cs: set<string>)
    requires RefsClosed(role.assignableBy, gs, cs)
    ensures RefsClosed(SubjectConditioned(index, condition)(role).assignableBy, gs, cs) <==>
            (0 <= index < |role.assignableBy| && condition.Some? ==> condition.value in cs)
  {
    var there := SubjectConditioned(index, condition)(role).assignableBy;
    if 0 <= index < |role.assignableBy| {
      assert there[index] in there;
      assert role.assignableBy[index] in role.assignableBy;
      forall i | 0 <= i < |there| && i != index ensures RefClosed(there[i], gs, cs) {
        assert there[i] == role.assignableBy[i] && role.assignableBy[i] in role.assignableBy;
      }
      assert forall ref :: ref in there <==> exists i :: 0 <= i < |there| && there[i] == ref;
    }
  }

  // ---------------------------------------------------------------------------
  // Types come and go.

  function GroupName(g: GroupType): string { g.name }
  function ResourceName(r: ResourceType): string { r.name }
  function ConditionName(c: ConditionDef): string { c.name }

  lemma NamesAreMapped(ir: ModelIR)
    ensures GroupNames(ir.groups) == Map(ir.groups, GroupName)
    ensures ResourceNames(ir.resources) == Map(ir.resources, ResourceName)
    ensures ConditionNames(ConditionsOf(ir)) == Map(ConditionsOf(ir), ConditionName)
  {
  }

  lemma MappedName<T>(s: seq<T>, name: T -> string, n: string)
    ensures n in Map(s, name) <==> exists x :: x in s && name(x) == n
  {
    var names := Map(s, name);
    if n in names {
      var i :| 0 <= i < |s| && names[i] == n;
      assert s[i] in s;
    }
    if x :| x in s && name(x) == n {
      var i :| 0 <= i < |s| && s[i] == x;
      assert names[i] == n;
    }
  }

  /** Dropping one name drops exactly that name. */
  lemma NamesLeft<T(!new)>(s: seq<T>, keep: T -> bool, name: T -> string, dropped: string)
    requires forall x :: keep(x) <==> name(x) != dropped
    ensures forall n :: n in Map(Filter(s, keep), name) <==> n in Map(s, name) && n != dropped
  {
    forall n ensures n in Map(Filter(s, keep), name) <==> n in Map(s, name) && n != dropped {
      MappedName(s, name, n);
      MappedName(Filter(s, keep), name, n);
    }
  }

  lemma KeptNames(ir: ModelIR, name: string)
    ensures var there := TypeRemoved(ir, name);
            && GroupNames(there.groups) == Map(Filter(ir.groups, (g: GroupType) => g.name != name), GroupName)
            && ResourceNames(there.resources) ==
                 Map(Filter(ir.resources, (r: ResourceType) => r.name != name), ResourceName)
            && ConditionsOf(there) == ConditionsOf(ir)
  {
    hide Filter;
  }

  lemma RemovedNames(ir: ModelIR, name: string)
    requires UniqueNames(ir)
    ensures UniqueNames(TypeRemoved(ir, name))
    ensures GroupsOf(TypeRemoved(ir, name)) == GroupsOf(ir) - {name}
            && TypesOf(TypeRemoved(ir, name)) == TypesOf(ir) - {name}
    ensures CondsOf(TypeRemoved(ir, name)) == CondsOf(ir)
  {
    var there := TypeRemoved(ir, name);
    var (keepG, keepR) := ((g: GroupType) => g.name != name, (r: ResourceType) => r.name != name);
    NamesAreMapped(ir);
    KeptNames(ir, name);
    hide TypeRemoved, Filter, Map, GroupNames, ResourceNames, ConditionNames, Distinct, ConditionsOf;
    DistinctParts(GroupNames(ir.groups), ResourceNames(ir.resources));
    DistinctParts(GroupNames(there.groups), ResourceNames(there.resources));
    FilterNames(ir.groups, keepG, GroupName);
    FilterNames(ir.resources, keepR, ResourceName);
    NamesLeft(ir.groups, keepG, GroupName, name);
    NamesLeft(ir.resources, keepR, ResourceName, name);
    DistinctlyNamed(GroupNames(ir.groups), ResourceNames(ir.resources), GroupNames(there.groups),
      ResourceNames(there.resources));
  }

  lemma DistinctlyNamed(a: seq<string>, b: seq<string>, a': seq<string>, b': seq<string>)
    requires forall x :: x in a' ==> x in a
    requires forall x :: x in b' ==> x in b
    requires forall i :: 0 <= i < |b| ==> b[i] !in a
    ensures forall i :: 0 <= i < |b'| ==> b'[i] !in a'
  {
    forall i | 0 <= i < |b'| ensures b'[i] !in a' {
      assert b'[i] in b;
    }
  }

  lemma StrippedRefsClosed(refs: seq<SubjectRef>, name: string, gs: set<string>, cs: set<string>)
    requires RefsClosed(refs, gs, cs)
    ensures RefsClosed(Filter(refs, RefersElsewhere(name)), gs - {name}, cs)
  {
  }

  lemma ResourceWithoutClosed(r: ResourceType, name: string, gs: set<string>, ts: set<string>, cs: set<string>)
    requires ResourceClosed(r, gs, ts, cs)
    ensures ResourceClosed(ResourceWithout(name)(r), gs - {name}, ts - {name}, cs)
  {
    var f := ParentWithout(name);
    var there := ResourceWithout(name)(r);
    hide RefsClosed, ParentWithout, FilterMap;
    forall p: ParentRef ensures f(p).Some? ==> f(p).value.relationName == p.relationName {
      WithoutKeeps(name, p);
    }
    SelectedNamesDistinct(r.parents, f);
    forall p' | p' in there.parents ensures ParentClosed(p', ts - {name}) {
      FilterMapMembers(r.parents, f, p');
      var p :| p in r.parents && f(p) == Some(p');
      WithoutKeeps(name, p);
    }
    forall role' | role' in there.roles ensures RefsClosed(role'.assignableBy, gs - {name}, cs) {
      var i :| 0 <= i < |there.roles| && there.roles[i] == role';
      assert r.roles[i] in r.roles;
      StrippedRefsClosed(r.roles[i].assignableBy, name, gs, cs);
    }
    forall perm' | perm' in there.permissions
      ensures PermissionClosed(perm', RoleNames(there.roles), ParentNames(there.parents)) {
      PermissionWithoutClosed(r, name, perm');
    }
  }

  lemma PermissionWithoutClosed(r: ResourceType, name: string, perm': Permission)
    requires forall perm :: perm in r.permissions ==> PermissionClosed(perm, RoleNames(r.roles), ParentNames(r.parents))
    requires perm' in ResourceWithout(name)(r).permissions
    ensures PermissionClosed(perm', RoleNames(ResourceWithout(name)(r).roles),
            ParentNames(ResourceWithout(name)(r).parents))
  {
    var f := ParentWithout(name);
    var there := ResourceWithout(name)(r);
    var removed := FilterMap(r.parents, Orphaned(name));
    var i :| 0 <= i < |there.permissions| && there.permissions[i] == perm';
    var perm := r.permissions[i];
    assert perm in r.permissions && perm' == InheritsKept(removed)(perm);
    assert RoleNames(there.roles) == RoleNames(r.roles);
    assert there.parents == FilterMap(r.parents, f);
    hide InheritsKept, ParentWithout, ResourceWithout, FilterMap, RoleNames;
    KeptInherits(removed, perm, "");
    forall rel | rel in perm'.inheritFromParents ensures rel in ParentNames(there.parents) {
      KeptInherits(removed, perm, rel);
      NameOf(r.parents, rel);
      var p :| p in r.parents && p.relationName == rel;
      if f(p).None? {
        assert Orphaned(name)(p) == Some(rel);
        FilterMapMembers(r.parents, Orphaned(name), rel);
      }
      WithoutKeeps(name, p);
      FilterMapMembers(r.parents, f, f(p).value);
      NameOf(there.parents, rel);
    }
  }

  lemma GroupsLeftClosed(kept: seq<GroupType>, name: string, gs: set<string>, cs: set<string>)
    requires forall g :: g in kept ==> RefsClosed(g.memberTypes, gs, cs)
    ensures forall g' :: g' in Map(kept, GroupWithout(name)) ==> RefsClosed(g'.memberTypes, gs - {name}, cs)
  {
    var left := Map(kept, GroupWithout(name));
    hide RefsClosed;
    forall g' | g' in left ensures RefsClosed(g'.memberTypes, gs - {name}, cs) {
      var i :| 0 <= i < |kept| && left[i] == g';
      assert kept[i] in kept;
      StrippedRefsClosed(kept[i].memberTypes, name, gs, cs);
    }
  }

  lemma ResourcesLeftClosed(kept: seq<ResourceType>, name: string, gs: set<string>, ts: set<string>, cs: set<string>)
    requires forall r :: r in kept ==> ResourceClosed(r, gs, ts, cs)
    ensures forall r' :: r' in Map(kept, ResourceWithout(name)) ==> ResourceClosed(r', gs - {name}, ts - {name}, cs)
  {
    var left := Map(kept, ResourceWithout(name));
    hide ResourceClosed, ResourceWithout;
    forall r' | r' in left ensures ResourceClosed(r', gs - {name}, ts - {name}, cs) {
      var i :| 0 <= i < |kept| && left[i] == r';
      assert kept[i] in kept;
      ResourceWithoutClosed(kept[i], name, gs, ts, cs);
    }
  }

  lemma TypeRemovedClosed(ir: ModelIR, name: string)
    requires Closed(ir)
    ensures Closed(TypeRemoved(ir, name))
  {
    var keptGroups := Filter(ir.groups, (g: GroupType) => g.name != name);
    var keptResources := Filter(ir.resources, (r: ResourceType) => r.name != name);
    var there := TypeRemoved(ir, name);
    assert there.groups == Map(keptGroups, GroupWithout(name));
    assert there.resources == Map(keptResources, ResourceWithout(name));
    hide UniqueNames, ResourceClosed, RefsClosed, TypeRemoved, ResourceWithout, GroupWithout, GroupsOf, TypesOf;
    hide CondsOf, Map, Filter;
    RemovedNames(ir, name);
    GroupsLeftClosed(keptGroups, name, GroupsOf(ir), CondsOf(ir));
    ResourcesLeftClosed(keptResources, name, GroupsOf(ir), TypesOf(ir), CondsOf(ir));
  }

  lemma MoreNamesClosed(r: ResourceType, gs: set<string>, ts: set<string>, cs: set<string>, gs': set<string>,
      ts': set<string>, cs': set<string>)
    requires ResourceClosed(r, gs, ts, cs) && gs <= gs' && ts <= ts' && cs <= cs'
    ensures ResourceClosed(r, gs', ts', cs')
  {
    hide Distinct;
  }

  lemma GrownClosed(ir: ModelIR, there: ModelIR)
    requires Closed(ir) && UniqueNames(there)
    requires GroupsOf(ir) <= GroupsOf(there) && TypesOf(ir) <= TypesOf(there) && CondsOf(ir) <= CondsOf(there)
    requires forall g :: g in there.groups ==> g in ir.groups || g.memberTypes == [User(None)]
    requires forall r ::
            r in there.resources ==> r in ir.resources || (r.parents == [] && r.roles == [] && r.permissions == [])
    ensures Closed(there)
  {
    hide UniqueNames, Distinct, GroupsOf, TypesOf, CondsOf;
    assert forall gs, cs :: RefsClosed([User(None)], gs, cs);
    assert forall refs: seq<SubjectRef> {:trigger RefsClosed(refs, GroupsOf(there), CondsOf(there))} ::
      RefsClosed(refs, GroupsOf(ir), CondsOf(ir)) ==> RefsClosed(refs, GroupsOf(there), CondsOf(there));
    forall r | r in there.resources ensures ResourceClosed(r, GroupsOf(there), TypesOf(there), CondsOf(there)) {
      if r in ir.resources {
        MoreNamesClosed(r, GroupsOf(ir), TypesOf(ir), CondsOf(ir), GroupsOf(there), TypesOf(there), CondsOf(there));
      } else {
        BareResourceClosed(r, GroupsOf(there), TypesOf(there), CondsOf(there));
      }
    }
  }

  lemma BareResourceClosed(r: ResourceType, gs: set<string>, ts: set<string>, cs: set<string>)
    requires r.parents == [] && r.roles == [] && r.permissions == []
    ensures ResourceClosed(r, gs, ts, cs)
  {
  }

  lemma TypeAddedClosed(ir: ModelIR, name: string)
    requires Closed(ir)
    ensures Closed(AddResource(ir, name)) && Closed(AddGroup(ir, name))
  {
    if name !in TypeNames(ir) {
      var (withR, withG) := (AddResource(ir, name), AddGroup(ir, name));
      assert ResourceNames(withR.resources) == ResourceNames(ir.resources) + [name];
      assert GroupNames(withG.groups) == GroupNames(ir.groups) + [name];
      assert UniqueNames(withR) && UniqueNames(withG) by {
        NewNameDistinct(GroupNames(ir.groups), ResourceNames(ir.resources), name);
      }
      hide UniqueNames, Distinct, Closed;
      GrownClosed(ir, withR);
      GrownClosed(ir, withG);
    }
  }

  lemma NewNameDistinct(a: seq<string>, b: seq<string>, name: string)
    requires Distinct(a + b) && name !in a + b
    ensures Distinct(a + (b + [name])) && Distinct((a + [name]) + b)
  {
    DistinctParts(a, b);
    DistinctParts(a, b + [name]);
    DistinctParts(a + [name], b);
  }

  // ---------------------------------------------------------------------------
  // Conditions come, go and change.

  lemma RefersToKnown(ir: ModelIR)
    requires Closed(ir)
    ensures forall ref :: Refers(ir, ref) ==> RefClosed(ref, GroupsOf(ir), CondsOf(ir))
  {
    hide UniqueNames, GroupsOf, TypesOf, CondsOf, RefClosed;
    forall ref | Refers(ir, ref) ensures RefClosed(ref, GroupsOf(ir), CondsOf(ir)) {
      if g :| g in ir.groups && ref in g.memberTypes {
        assert RefsClosed(g.memberTypes, GroupsOf(ir), CondsOf(ir));
      } else {
        var r, role :| r in ir.resources && role in r.roles && ref in role.assignableBy;
        assert ResourceClosed(r, GroupsOf(ir), TypesOf(ir), CondsOf(ir));
        assert RefsClosed(role.assignableBy, GroupsOf(ir), CondsOf(ir));
      }
    }
  }

  /** ref is a group's member or a role's assignee. */
  ghost predicate Refers(ir: ModelIR, ref: SubjectRef) {
    || (exists g :: g in ir.groups && ref in g.memberTypes)
    || (exists r, role :: r in ir.resources && role in r.roles && ref in role.assignableBy)
  }

  /** All but the subject references resolve. */
  ghost predicate Framed(r: ResourceType, types: set<string>) {
    && Distinct(ParentNames(r.parents))
    && (forall p :: p in r.parents ==> ParentClosed(p, types))
    && (forall perm :: perm in r.permissions ==> PermissionClosed(perm, RoleNames(r.roles), ParentNames(r.parents)))
  }

  /** With distinct names, a model is closed exactly when its frames are and every subject reference resolves. */
  lemma ClosedByRefs(ir: ModelIR)
    requires UniqueNames(ir) && forall r :: r in ir.resources ==> Framed(r, TypesOf(ir))
    ensures Closed(ir) <==> forall ref :: Refers(ir, ref) ==> RefClosed(ref, GroupsOf(ir), CondsOf(ir))
  {
    hide UniqueNames, GroupsOf, TypesOf, CondsOf, RefClosed, PermissionClosed, ParentClosed, Distinct;
    var (gs, ts, cs) := (GroupsOf(ir), TypesOf(ir), CondsOf(ir));
    if Closed(ir) {
      RefersToKnown(ir);
    }
    if forall ref :: Refers(ir, ref) ==> RefClosed(ref, gs, cs) {
      forall g | g in ir.groups ensures RefsClosed(g.memberTypes, gs, cs) {
        assert forall ref :: ref in g.memberTypes ==> Refers(ir, ref);
      }
      forall r | r in ir.resources ensures ResourceClosed(r, gs, ts, cs) {
        assert Framed(r, ts);
        forall role | role in r.roles ensures RefsClosed(role.assignableBy, gs, cs) {
          assert forall ref :: ref in role.assignableBy ==> Refers(ir, ref);
        }
      }
    }
  }

  lemma ClosedFrames(ir: ModelIR)
    requires Closed(ir)
    ensures forall r :: r in ir.resources ==> Framed(r, TypesOf(ir))
  {
    hide UniqueNames, GroupsOf, TypesOf, CondsOf, RefsClosed, PermissionClosed, ParentClosed, Distinct;
  }

  lemma ConditionAddedClosed(ir: ModelIR, def: ConditionDef)
    requires Closed(ir)
    ensures Closed(AddCondition(ir, def))
  {
    var there := AddCondition(ir, def);
    if def.name !in ConditionNames(ConditionsOf(ir)) {
      assert ConditionNames(ConditionsOf(there)) == ConditionNames(ConditionsOf(ir)) + [def.name];
      assert UniqueNames(there);
      hide UniqueNames, Distinct, Closed;
      GrownClosed(ir, there);
    }
  }

  /** Replacing a condition is safe when it keeps its name, and otherwise exactly when the new name is free and
      nothing refers to the old one. */
  ghost predicate SafeUpdate(ir: ModelIR, name: string, def: ConditionDef) {
    || name !in CondsOf(ir)
    || def.name == name
    || (def.name !in CondsOf(ir) && forall ref :: Refers(ir, ref) ==> ref.condition != Some(name))
  }

  lemma NameReplaced(names: seq<string>, k: nat, name: string)
    requires Distinct(names) && k < |names|
    ensures SetOf(names[k := name]) == SetOf(names) - {names[k]} + {name}
    ensures Distinct(names[k := name]) <==> name == names[k] || name !in names
  {
    var after := names[k := name];
    forall n ensures n in after <==> (n in names && n != names[k]) || n == name {
      if n in names && n != names[k] {
        var i :| 0 <= i < |names| && names[i] == n;
        assert after[i] == n;
      }
      if n in after {
        var i :| 0 <= i < |after| && after[i] == n;
        if i != k {
          assert names[i] == n;
        }
      }
      if n == name {
        assert after[k] == n;
      }
    }
    if name != names[k] && name in names {
      var i :| 0 <= i < |names| && names[i] == name;
      assert after[i] == after[k] && i != k;
    }
  }

  lemma NamesChanged(cs: seq<ConditionDef>, there: seq<ConditionDef>, k: nat, name: string)
    requires Distinct(ConditionNames(cs)) && k < |cs| == |there|
    requires forall i :: 0 <= i < |cs| ==> there[i].name == if cs[i].name == cs[k].name then name else cs[i].name
    ensures ConditionNames(there) == ConditionNames(cs)[k := name]
  {
    hide *;
    OthersDiffer(ConditionNames(cs), k);
  }

  lemma OthersDiffer(names: seq<string>, k: nat)
    requires Distinct(names) && k < |names|
    ensures forall i :: 0 <= i < |names| && i != k ==> names[i] != names[k]
  {
  }

  lemma ReplacedNames(cs: seq<ConditionDef>, name: string, def: ConditionDef)
    requires Distinct(ConditionNames(cs)) && name in ConditionNames(cs)
    ensures SetOf(ConditionNames(Map(cs, Replaced(name, def)))) == SetOf(ConditionNames(cs)) - {name} + {def.name}
    ensures Distinct(ConditionNames(Map(cs, Replaced(name, def)))) <==>
            def.name == name || def.name !in ConditionNames(cs)
  {
    var names := ConditionNames(cs);
    var k :| 0 <= k < |cs| && names[k] == name;
    NamesChanged(cs, Map(cs, Replaced(name, def)), k, def.name);
    hide ConditionNames, Map, Distinct, SetOf;
    NameReplaced(names, k, def.name);
  }

  lemma ConditionUpdatedClosed(ir: ModelIR, name: string, def: ConditionDef)
    requires Closed(ir)
    ensures Closed(UpdateCondition(ir, name, def)) <==> SafeUpdate(ir, name, def)
  {
    var there := UpdateCondition(ir, name, def);
    if name in CondsOf(ir) {
      var cs := ConditionsOf(ir);
      ReplacedNames(cs, name, def);
      assert CondsOf(there) == CondsOf(ir) - {name} + {def.name};
      assert TypeNames(there) == TypeNames(ir) && GroupsOf(there) == GroupsOf(ir) && TypesOf(there) == TypesOf(ir);
      assert UniqueNames(there) <==> def.name == name || def.name !in CondsOf(ir);
      assert forall ref :: Refers(there, ref) <==> Refers(ir, ref);
      assert there.resources == ir.resources;
      hide UniqueNames, Refers, GroupsOf, TypesOf, CondsOf, ConditionsOf, UpdateCondition, Framed, Closed;
      ClosedFrames(ir);
      RefersToKnown(ir);
      ClosedIsUnique(there);
      if UniqueNames(there) {
        ClosedByRefs(there);
      }
    }
  }

  lemma ClosedIsUnique(ir: ModelIR)
    ensures Closed(ir) ==> UniqueNames(ir)
  {
  }

  lemma MemberMapped(gs: seq<GroupType>, f: SubjectRef -> SubjectRef, g': GroupType, ref': SubjectRef)
    returns (g: GroupType, ref: SubjectRef)
    requires g' in Map(gs, MembersMapped(f)) && ref' in g'.memberTypes
    ensures g in gs && ref in g.memberTypes && ref' == f(ref)
  {
    var i :| 0 <= i < |gs| && Map(gs, MembersMapped(f))[i] == g';
    g := gs[i];
    var k :| 0 <= k < |g'.memberTypes| && g'.memberTypes[k] == ref';
    ref := g.memberTypes[k];
  }

  lemma AssigneeMapped(rs: seq<ResourceType>, f: SubjectRef -> SubjectRef, r': ResourceType, role': Role,
      ref': SubjectRef)
    returns (r: ResourceType, role: Role, ref: SubjectRef)
    requires r' in Map(rs, AssignmentsMapped(f)) && role' in r'.roles && ref' in role'.assignableBy
    ensures r in rs && role in r.roles && ref in role.assignableBy && ref' == f(ref)
  {
    var i :| 0 <= i < |rs| && Map(rs, AssignmentsMapped(f))[i] == r';
    r := rs[i];
    var j :| 0 <= j < |r'.roles| && r'.roles[j] == role';
    role := r.roles[j];
    var k :| 0 <= k < |role'.assignableBy| && role'.assignableBy[k] == ref';
    ref := role.assignableBy[k];
  }

  lemma RefersMapped(ir: ModelIR, there: ModelIR, f: SubjectRef -> SubjectRef)
    requires there.groups == Map(ir.groups, MembersMapped(f))
            && there.resources == Map(ir.resources, AssignmentsMapped(f))
    ensures forall ref' :: Refers(there, ref') ==> exists ref :: Refers(ir, ref) && ref' == f(ref)
  {
    hide Map, MembersMapped, AssignmentsMapped;
    forall ref' | Refers(there, ref') ensures exists ref :: Refers(ir, ref) && ref' == f(ref) {
      if g' :| g' in there.groups && ref' in g'.memberTypes {
        var g, ref := MemberMapped(ir.groups, f, g', ref');
        assert Refers(ir, ref);
      } else {
        var r', role' :| r' in there.resources && role' in r'.roles && ref' in role'.assignableBy;
        var r, role, ref := AssigneeMapped(ir.resources, f, r', role', ref');
        assert Refers(ir, ref);
      }
    }
  }

  lemma MappedFrames(ir: ModelIR, f: SubjectRef -> SubjectRef, types: set<string>)
    requires forall r :: r in ir.resources ==> Framed(r, types)
    ensures forall r' :: r' in Map(ir.resources, AssignmentsMapped(f)) ==> Framed(r', types)
  {
    var left := Map(ir.resources, AssignmentsMapped(f));
    forall r' | r' in left ensures Framed(r', types) {
      var i :| 0 <= i < |ir.resources| && left[i] == r';
      assert Framed(ir.resources[i], types);
      assert RoleNames(r'.roles) == RoleNames(ir.resources[i].roles);
    }
  }

  lemma MappedNames(ir: ModelIR, there: ModelIR, f: SubjectRef -> SubjectRef)
    requires there.groups == Map(ir.groups, MembersMapped(f))
            && there.resources == Map(ir.resources, AssignmentsMapped(f))
    ensures TypeNames(there) == TypeNames(ir) && GroupsOf(there) == GroupsOf(ir) && TypesOf(there) == TypesOf(ir)
  {
    assert GroupNames(there.groups) == GroupNames(ir.groups);
    assert ResourceNames(there.resources) == ResourceNames(ir.resources);
  }

  /** Changing every subject reference by f and the conditions to suit keeps a model closed. */
  lemma MappedClosed(ir: ModelIR, there: ModelIR, f: SubjectRef -> SubjectRef)
    requires Closed(ir)
    requires there.groups == Map(ir.groups, MembersMapped(f))
            && there.resources == Map(ir.resources, AssignmentsMapped(f))
    requires Distinct(ConditionNames(ConditionsOf(there)))
    requires forall ref :: RefClosed(ref, GroupsOf(ir), CondsOf(ir)) ==> RefClosed(f(ref), GroupsOf(ir), CondsOf(there))
    ensures Closed(there)
  {
    assert Distinct(TypeNames(ir));
    hide GroupsOf, TypesOf, CondsOf, ConditionsOf, Framed, Closed, Map, RefClosed, Refers, Distinct, TypeNames;
    MappedNames(ir, there, f);
    ClosedFrames(ir);
    MappedFrames(ir, f, TypesOf(ir));
    RefersMapped(ir, there, f);
    RefersToKnown(ir);
    ClosedByRefs(there);
  }

  lemma RenamedConditionNames(cs: seq<ConditionDef>, from: string, to: string)
    requires Distinct(ConditionNames(cs)) && from in ConditionNames(cs) && to !in ConditionNames(cs)
    ensures SetOf(ConditionNames(Map(cs, ConditionRenamed(from, to)))) == SetOf(ConditionNames(cs)) - {from} + {to}
    ensures Distinct(ConditionNames(Map(cs, ConditionRenamed(from, to))))
  {
    var names := ConditionNames(cs);
    var k :| 0 <= k < |cs| && names[k] == from;
    forall i | 0 <= i < |cs|
      ensures ConditionRenamed(from, to)(cs[i]).name == if cs[i].name == from then to else cs[i].name {
      assert Renamed(from, to)(cs[i].name) == if cs[i].name == from then to else cs[i].name;
    }
    hide Map, Distinct, SetOf, ConditionNames, ConditionRenamed;
    NamesChanged(cs, Map(cs, ConditionRenamed(from, to)), k, to);
    NameReplaced(names, k, to);
  }

  lemma ConditionRenamedClosed(ir: ModelIR, from: string, to: string)
    requires Closed(ir)
    ensures Closed(WithConditionRenamed(ir, from, to))
  {
    var cs := ConditionsOf(ir);
    var names := ConditionNames(cs);
    if from != to && from in names && to !in names {
      var there := WithConditionRenamed(ir, from, to);
      assert ConditionsOf(there) == Map(cs, ConditionRenamed(from, to));
      RenamedConditionNames(cs, from, to);
      assert CondsOf(there) == CondsOf(ir) - {from} + {to};
      assert Distinct(ConditionNames(ConditionsOf(there)));
      assert there.groups == Map(ir.groups, MembersMapped(SubjectRenamed(from, to)));
      assert there.resources == Map(ir.resources, AssignmentsMapped(SubjectRenamed(from, to)));
      hide GroupsOf, CondsOf, ConditionsOf, Closed, Map, Distinct, ConditionNames, WithConditionRenamed;
      MappedClosed(ir, there, SubjectRenamed(from, to));
    }
  }

  lemma ConditionRemovedNames(cs: seq<ConditionDef>, name: string)
    requires Distinct(ConditionNames(cs))
    ensures var kept := Filter(cs, (c: ConditionDef) => c.name != name);
            Distinct(ConditionNames(kept)) && SetOf(ConditionNames(kept)) == SetOf(ConditionNames(cs)) - {name}
  {
    var keep := (c: ConditionDef) => c.name != name;
    var kept := Filter(cs, keep);
    assert ConditionNames(cs) == Map(cs, ConditionName) && ConditionNames(kept) == Map(kept, ConditionName);
    hide ConditionNames, Map, Filter, Distinct;
    FilterNames(cs, keep, ConditionName);
    NamesLeft(cs, keep, ConditionName, name);
  }

  lemma ConditionRemovedClosed(ir: ModelIR, name: string)
    requires Closed(ir)
    ensures Closed(WithoutCondition(ir, name))
  {
    var cs := ConditionsOf(ir);
    if name in ConditionNames(cs) {
      var there := WithoutCondition(ir, name);
      var kept := Filter(cs, (c: ConditionDef) => c.name != name);
      assert ConditionsOf(there) == kept;
      assert there.groups == Map(ir.groups, MembersMapped(Unconditioned(name)));
      assert there.resources == Map(ir.resources, AssignmentsMapped(Unconditioned(name)));
      ConditionRemovedNames(cs, name);
      assert CondsOf(there) == CondsOf(ir) - {name};
      hide GroupsOf, CondsOf, ConditionsOf, Closed, Map, Distinct, ConditionNames, WithoutCondition, Filter;
      MappedClosed(ir, there, Unconditioned(name));
    }
  }

  // ---------------------------------------------------------------------------
  // Any edit, and runs of edits.

  /** What a caller can check first: where the edit finds its target, the names it brings in are known ones. */
  ghost predicate Admissible(ir: ModelIR, e: Operation) {
    match e
    case TogglingCell(typ, permission, role) =>
      var r := Find(ir.resources, ResourceIs(typ));
      r.Some? && permission in PermissionNames(r.value.permissions) ==> role in RoleNames(r.value.roles)
    case TogglingInherit(typ, permission, relation) =>
      var r := Find(ir.resources, ResourceIs(typ));
      r.Some? && permission in PermissionNames(r.value.permissions) ==> relation in ParentNames(r.value.parents)
    case SettingSubjects(typ, role, refs) =>
      var r := Find(ir.resources, ResourceIs(typ));
      r.Some? && role in RoleNames(r.value.roles) ==> RefsClosed(refs, GroupsOf(ir), CondsOf(ir))
    case SettingCondition(typ, role, index, condition) =>
      var r := Find(ir.resources, ResourceIs(typ));
      r.Some? ==>
        var target := Find(r.value.roles, RoleIs(role));
        target.Some? && 0 <= index < |target.value.assignableBy| && condition.Some? ==> condition.value in CondsOf(ir)
    case UpdatingCondition(name, def) => SafeUpdate(ir, name, def)
    case _ => true
  }

  /** An edit of one resource that keeps it closed keeps the model closed. */
  lemma ResourceEditClosed(ir: ModelIR, typ: string, f: ResourceType -> ResourceType)
    requires Closed(ir) && forall r :: f(r).name == r.name
    requires forall r :: ResourceClosed(r, GroupsOf(ir), TypesOf(ir), CondsOf(ir)) ==>
               ResourceClosed(f(r), GroupsOf(ir), TypesOf(ir), CondsOf(ir))
    ensures Closed(OnResource(ir, typ, f))
  {
    var found := Find(ir.resources, ResourceIs(typ));
    assert found.Some? ==> ResourceClosed(found.value, GroupsOf(ir), TypesOf(ir), CondsOf(ir));
    hide *;
    OnResourceClosed(ir, typ, f);
  }

  lemma RoleEditsClosed(ir: ModelIR, typ: string, from: string, to: string)
    requires Closed(ir)
    ensures Closed(AddRole(ir, typ, from)) && Closed(WithoutRole(ir, typ, from))
            && Closed(WithRoleRenamed(ir, typ, from, to))
  {
    var (gs, ts, cs) := (GroupsOf(ir), TypesOf(ir), CondsOf(ir));
    hide Closed, ResourceClosed, OnResource, Filter, Map, RoleNames, GroupsOf, TypesOf, CondsOf;
    forall r | ResourceClosed(r, gs, ts, cs)
      ensures ResourceClosed(RoleAdded(from)(r), gs, ts, cs) && ResourceClosed(RoleRemoved(from)(r), gs, ts, cs)
      ensures ResourceClosed(RolesRenamed(from, to)(r), gs, ts, cs)
    {
      RoleAddedClosed(r, from, gs, ts, cs);
      RoleRemovedClosed(r, from, gs, ts, cs);
      RolesRenamedClosed(r, from, to, gs, ts, cs);
    }
    ResourceEditClosed(ir, typ, RoleAdded(from));
    ResourceEditClosed(ir, typ, RoleRemoved(from));
    ResourceEditClosed(ir, typ, RolesRenamed(from, to));
  }

  lemma OtherEditsClosed(ir: ModelIR, typ: string, from: string, to: string, only: Option<string>)
    requires Closed(ir)
    ensures Closed(AddPermission(ir, typ, from)) && Closed(RemovePermission(ir, typ, from))
    ensures Closed(WithPermissionRenamed(ir, typ, from, to)) && Closed(Disconnected(ir, typ, from, only))
  {
    var (gs, ts, cs) := (GroupsOf(ir), TypesOf(ir), CondsOf(ir));
    hide Closed, ResourceClosed, OnResource, Filter, FilterMap, Map, PermissionNames, GroupsOf, TypesOf, CondsOf;
    forall r | ResourceClosed(r, gs, ts, cs)
      ensures ResourceClosed(PermissionAdded(from)(r), gs, ts, cs)
              && ResourceClosed(PermissionRemoved(from)(r), gs, ts, cs)
      ensures ResourceClosed(PermissionsRenamed(from, to)(r), gs, ts, cs)
              && ResourceClosed(ParentDisconnected(from, only)(r), gs, ts, cs)
    {
      PermissionEditsClosed(r, from, to, gs, ts, cs);
      DisconnectedClosed(r, from, only, gs, ts, cs);
    }
    ResourceEditClosed(ir, typ, PermissionAdded(from));
    ResourceEditClosed(ir, typ, PermissionRemoved(from));
    ResourceEditClosed(ir, typ, PermissionsRenamed(from, to));
    ResourceEditClosed(ir, typ, ParentDisconnected(from, only));
  }

  lemma ConnectClosed(ir: ModelIR, child: string, parent: string, relation: string)
    requires Closed(ir)
    ensures Closed(ConnectParent(ir, child, parent, relation))
  {
    var found := Find(ir.resources, ResourceIs(child));
    var other := Find(ir.resources, ResourceIs(parent));
    assert found.Some? ==> ResourceClosed(found.value, GroupsOf(ir), TypesOf(ir), CondsOf(ir));
    if found.Some? && other.Some? {
      assert parent in TypesOf(ir) by {
        var i :| 0 <= i < |ir.resources| && ir.resources[i] == other.value;
        assert ResourceNames(ir.resources)[i] == parent;
      }
      assert ConnectParent(ir, child, parent, relation) == OnResource(ir, child, ParentConnected(relation, parent));
      hide Closed, ResourceClosed, OnResource, ConnectParent, TypesOf;
      OnResourceClosed(ir, child, ParentConnected(relation, parent));
      ConnectedClosed(found.value, relation, parent, GroupsOf(ir), TypesOf(ir), CondsOf(ir));
    }
  }

  lemma FoundClosed(ir: ModelIR, typ: string)
    requires Closed(ir)
    ensures var r := Find(ir.resources, ResourceIs(typ));
            r.Some? ==> ResourceClosed(r.value, GroupsOf(ir), TypesOf(ir), CondsOf(ir))
  {
    hide ResourceClosed, UniqueNames, RefsClosed;
  }

  /** Changing one permission keeps a model closed exactly when the changed permission is. */
  lemma PermissionEditClosed(ir: ModelIR, typ: string, name: string, f: Permission -> Permission)
    requires Closed(ir)
    ensures var r := Find(ir.resources, ResourceIs(typ));
            Closed(OnResource(ir, typ, OnPermission(name, f))) <==>
            (r.Some? ==> var perm := Find(r.value.permissions, PermissionIs(name));
                         perm.Some? ==> PermissionClosed(f(perm.value), RoleNames(r.value.roles),
                           ParentNames(r.value.parents)))
  {
    assert forall r: ResourceType :: OnPermission(name, f)(r).name == r.name;
    var found := Find(ir.resources, ResourceIs(typ));
    hide *;
    FoundClosed(ir, typ);
    OnResourceClosed(ir, typ, OnPermission(name, f));
    if found.Some? {
      OnPermissionClosed(found.value, name, f, GroupsOf(ir), TypesOf(ir), CondsOf(ir));
    }
  }

  /** Changing one role keeps a model closed exactly when its subjects resolve. */
  lemma RoleEditClosed(ir: ModelIR, typ: string, name: string, f: Role -> Role)
    requires Closed(ir) && forall role :: f(role).name == role.name
    ensures var r := Find(ir.resources, ResourceIs(typ));
            Closed(OnResource(ir, typ, OnRole(name, f))) <==>
            (r.Some? ==> var role := Find(r.value.roles, RoleIs(name));
                         role.Some? ==> RefsClosed(f(role.value).assignableBy, GroupsOf(ir), CondsOf(ir)))
  {
    assert forall r: ResourceType :: OnRole(name, f)(r).name == r.name;
    var found := Find(ir.resources, ResourceIs(typ));
    hide *;
    FoundClosed(ir, typ);
    OnResourceClosed(ir, typ, OnRole(name, f));
    if found.Some? {
      OnRoleClosed(found.value, name, f, GroupsOf(ir), TypesOf(ir), CondsOf(ir));
    }
  }

  lemma FoundPermissionClosed(ir: ModelIR, typ: string, name: string)
    requires Closed(ir)
    ensures var r := Find(ir.resources, ResourceIs(typ));
            r.Some? ==> var perm := Find(r.value.permissions, PermissionIs(name));
                        perm.Some? ==> PermissionClosed(perm.value, RoleNames(r.value.roles),
                          ParentNames(r.value.parents))
  {
    FoundClosed(ir, typ);
    hide Closed, PermissionClosed, RefsClosed, ParentClosed, Distinct;
  }

  lemma FoundRoleClosed(ir: ModelIR, typ: string, name: string)
    requires Closed(ir)
    ensures var r := Find(ir.resources, ResourceIs(typ));
            r.Some? ==> var role := Find(r.value.roles, RoleIs(name));
                        role.Some? ==> RefsClosed(role.value.assignableBy, GroupsOf(ir), CondsOf(ir))
  {
    FoundClosed(ir, typ);
    hide Closed, PermissionClosed, RefsClosed, ParentClosed, Distinct;
  }

  lemma MatrixEditClosed(ir: ModelIR, typ: string, permission: string, name: string)
    requires Closed(ir)
    ensures Closed(ToggleCell(ir, typ, permission, name)) <==> Admissible(ir, TogglingCell(typ, permission, name))
    ensures Closed(ToggleInherit(ir, typ, permission, name)) <==> Admissible(ir, TogglingInherit(typ, permission, name))
  {
    var found := Find(ir.resources, ResourceIs(typ));
    hide Closed, OnResource, OnPermission, PermissionClosed, Find, RoleNames, ParentNames, PermissionNames, Toggle;
    FoundPermissionClosed(ir, typ, permission);
    PermissionEditClosed(ir, typ, permission, GrantToggled(name));
    PermissionEditClosed(ir, typ, permission, InheritToggled(name));
    if found.Some? {
      var perm := Find(found.value.permissions, PermissionIs(permission));
      FoundPermission(found.value.permissions, permission);
      if perm.Some? {
        GrantToggledClosed(perm.value, name, RoleNames(found.value.roles), ParentNames(found.value.parents));
        InheritToggledClosed(perm.value, name, RoleNames(found.value.roles), ParentNames(found.value.parents));
      }
    }
  }

  lemma SubjectsClosed(ir: ModelIR, typ: string, role: string, refs: seq<SubjectRef>)
    requires Closed(ir)
    ensures Closed(SetRoleAssignableBy(ir, typ, role, refs)) <==> Admissible(ir, SettingSubjects(typ, role, refs))
  {
    var found := Find(ir.resources, ResourceIs(typ));
    hide Closed, OnResource, OnRole, RefsClosed, Find, RoleNames;
    RoleEditClosed(ir, typ, role, SubjectsSet(refs));
    if found.Some? {
      FoundRole(found.value.roles, role);
    }
  }

  lemma AssignmentClosed(ir: ModelIR, typ: string, role: string, index: int, condition: Option<string>)
    requires Closed(ir)
    ensures Closed(SetAssignmentCondition(ir, typ, role, index, condition)) <==>
            Admissible(ir, SettingCondition(typ, role, index, condition))
  {
    var f := SubjectConditioned(index, condition);
    var found := Find(ir.resources, ResourceIs(typ));
    var admissible := Admissible(ir, SettingCondition(typ, role, index, condition));
    assert forall x: Role :: f(x).name == x.name;
    assert SetAssignmentCondition(ir, typ, role, index, condition) == OnResource(ir, typ, OnRole(role, f));
    assert found.None? ==> admissible;
    if found.Some? {
      var target := Find(found.value.roles, RoleIs(role));
      assert admissible <==>
        target.Some? && 0 <= index < |target.value.assignableBy| && condition.Some? ==> condition.value in CondsOf(ir);
      hide *;
      FoundRoleClosed(ir, typ, role);
      RoleEditClosed(ir, typ, role, f);
      if target.Some? {
        ConditionedClosed(target.value, index, condition, GroupsOf(ir), CondsOf(ir));
      }
    } else {
      hide *;
      RoleEditClosed(ir, typ, role, f);
    }
  }

  /** One change keeps a closed model closed exactly when it is admissible. */
  lemma ChangeKeepsClosed(ir: ModelIR, e: Operation)
    requires Closed(ir)
    ensures Closed(Apply(ir, e)) <==> Admissible(ir, e)
  {
    hide Closed, Find, SafeUpdate, RefsClosed;
    hide AddResource, AddGroup, TypeRemoved, ConnectParent, Disconnected, ToggleCell, AddRole;
    hide WithoutRole, WithRoleRenamed;
    hide SetRoleAssignableBy, AddPermission, RemovePermission, WithPermissionRenamed, ToggleInherit;
    hide AddCondition, UpdateCondition, WithConditionRenamed, WithoutCondition, SetAssignmentCondition;
    match e
    case AddingResource(name) => TypeAddedClosed(ir, name);
    case AddingGroup(name) => TypeAddedClosed(ir, name);
    case RemovingType(name) => TypeRemovedClosed(ir, name);
    case ConnectingParent(child, parent, relation) => ConnectClosed(ir, child, parent, relation);
    case DisconnectingParent(child, relation, only) => OtherEditsClosed(ir, child, relation, relation, only);
    case TogglingCell(typ, permission, role) => MatrixEditClosed(ir, typ, permission, role);
    case AddingRole(typ, name) => RoleEditsClosed(ir, typ, name, name);
    case RemovingRole(typ, name) => RoleEditsClosed(ir, typ, name, name);
    case RenamingRole(typ, from, to) => RoleEditsClosed(ir, typ, from, to);
    case SettingSubjects(typ, role, refs) => SubjectsClosed(ir, typ, role, refs);
    case AddingPermission(typ, name) => OtherEditsClosed(ir, typ, name, name, None);
    case RemovingPermission(typ, name) => OtherEditsClosed(ir, typ, name, name, None);
    case RenamingPermission(typ, from, to) => OtherEditsClosed(ir, typ, from, to, None);
    case TogglingInherit(typ, permission, relation) => MatrixEditClosed(ir, typ, permission, relation);
    case AddingCondition(def) => ConditionAddedClosed(ir, def);
    case UpdatingCondition(name, def) => ConditionUpdatedClosed(ir, name, def);
    case RenamingCondition(from, to) => ConditionRenamedClosed(ir, from, to);
    case RemovingCondition(name) => ConditionRemovedClosed(ir, name);
    case SettingCondition(typ, role, index, condition) => AssignmentClosed(ir, typ, role, index, condition);
  }

  lemma CopyClosed(ir: ModelIR)
    ensures Closed(Copied(ir)) <==> Closed(ir)
  {
    CopiedNames(ConditionsOf(ir));
    hide ConditionNames, Map, CopiedNode, ResourceClosed, RefsClosed;
  }

  /** One edit of a closed model gives a closed model exactly when it is admissible. */
  lemma EditKeepsClosed(ir: ModelIR, e: Operation)
    requires Closed(ir)
    ensures Closed(Edited(ir, e)) <==> Admissible(ir, e)
  {
    hide *;
    ChangeKeepsClosed(ir, e);
    EditedIsCopied(ir, e);
    CopyClosed(Apply(ir, e));
    if Skips(ir, e) {
      SkippedIsUnchanged(ir, e);
    }
  }

  function Run(ir: ModelIR, edits: seq<Operation>): ModelIR
    decreases |edits|
  {
    if edits == [] then ir else Run(Edited(ir, edits[0]), edits[1..])
  }

  /** Each edit is admissible where it is made. */
  ghost predicate AllAdmissible(ir: ModelIR, edits: seq<Operation>)
    decreases |edits|
  {
    edits != [] ==> Admissible(ir, edits[0]) && AllAdmissible(Edited(ir, edits[0]), edits[1..])
  }

  /** Every run of admissible edits keeps a model closed at every point. */
  lemma {:induction false} RunKeepsClosed(ir: ModelIR, edits: seq<Operation>, n: nat)
    requires Closed(ir) && AllAdmissible(ir, edits) && n <= |edits|
    ensures Closed(Run(ir, edits[..n]))
    decreases n
  {
    hide Closed, Admissible, Edited;
    if n > 0 {
      EditKeepsClosed(ir, edits[0]);
      RunKeepsClosed(Edited(ir, edits[0]), edits[1..], n - 1);
      assert edits[..n][1..] == edits[1..][..n - 1];
    }
  }

  /** Every well-formed model is closed. */
  lemma WellFormedIsClosed(ir: ModelIR)
    requires WellFormed(ir)
    ensures Closed(ir)
  {
    assert GoodTypeNames(ir) && GoodConditions(ir);
    assert UniqueNames(ir);
    hide WellFormed, GoodTypeNames, UniqueNames, ValidCondition, IsIdentifier, Distinct, InheritanceResolves;
    forall r | r in ir.resources ensures Framed(r, TypesOf(ir)) {
      assert GoodResource(r, ir) by {
        WellFormedParts(ir);
      }
      FrameOfGood(r, ir);
    }
    WellFormedParts(ir);
    forall ref | Refers(ir, ref) ensures RefClosed(ref, GroupsOf(ir), CondsOf(ir)) {
      assert GroupResolves(ref, ir) && ConditionResolves(ref, ir) by {
        if g :| g in ir.groups && ref in g.memberTypes {
          assert GoodSubjects(g.memberTypes, ir);
        } else {
          var r, role :| r in ir.resources && role in r.roles && ref in role.assignableBy;
          assert GoodResource(r, ir);
          assert GoodRole(role, ir);
        }
      }
    }
    ClosedByRefs(ir);
  }

  lemma WellFormedParts(ir: ModelIR)
    requires WellFormed(ir)
    ensures forall r :: r in ir.resources ==> GoodResource(r, ir)
    ensures forall g :: g in ir.groups ==> GoodSubjects(g.memberTypes, ir)
  {
    hide GoodResource, GoodSubjects, GoodTypeNames, GoodConditions;
  }

  lemma FrameOfGood(r: ResourceType, ir: ModelIR)
    requires GoodResource(r, ir)
    ensures Framed(r, TypesOf(ir))
  {
    hide IsIdentifier, GoodRole, InheritanceResolves;
    assert RelationNames(r) == ParentNames(r.parents) + (RoleNames(r.roles) + CanNames(r.permissions));
    DistinctParts(ParentNames(r.parents), RoleNames(r.roles) + CanNames(r.permissions));
    assert forall p :: p in r.parents ==> GoodParent(p, ir);
    assert forall perm :: perm in r.permissions ==> GoodPermission(perm, r, ir);
  }

  /** From a valid model, no run of admissible edits ever leaves a dangling reference or a duplicate name. */
  lemma EditingIsSafe(ir: ModelIR, edits: seq<Operation>, n: nat)
    requires WellFormed(ir) && AllAdmissible(ir, edits) && n <= |edits|
    ensures Closed(Run(ir, edits[..n]))
  {
    WellFormedIsClosed(ir);
    RunKeepsClosed(ir, edits, n);
  }
}
