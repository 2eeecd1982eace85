/** Where elements stand after an edit: what stays keeps its order, and what is added comes last. */
module EditOrder {
  import opened Prelude
  import opened Sorting
  import opened Condition
  import opened ModelIr
  import opened JsonCopy
  import opened Edit

  // ---------------------------------------------------------------------------
  // One list.

  /** now[k] is what became of was[at[k]]; either nothing else is there, or nothing is gone and one element is added. */
  ghost predicate EvolvesAt<T(!new)>(was: seq<T>, now: seq<T>, same: (T, T) -> bool, at: seq<nat>) {
    && (|now| == |at| || (|now| == |at| + 1 && |at| == |was|))
    && (forall j, k :: 0 <= j < k < |at| ==> at[j] < at[k])
    && forall k :: 0 <= k < |at| ==> at[k] < |was| && same(was[at[k]], now[k])
  }

  ghost predicate Evolves<T(!new)>(was: seq<T>, now: seq<T>, same: (T, T) -> bool) {
    exists at: seq<nat> :: EvolvesAt(was, now, same, at)
  }

  /** Each element stays where it is. */
  lemma EvolvesInPlace<T(!new)>(was: seq<T>, now: seq<T>, same: (T, T) -> bool)
    requires |now| == |was| && forall k :: 0 <= k < |was| ==> same(was[k], now[k])
    ensures Evolves(was, now, same)
  {
    var at: seq<nat> := seq(|was|, k => k);
    assert EvolvesAt(was, now, same, at);
  }

  lemma EvolvesWithLast<T(!new)>(was: seq<T>, x: T, same: (T, T) -> bool)
    requires forall k :: 0 <= k < |was| ==> same(was[k], was[k])
    ensures Evolves(was, was + [x], same)
  {
    var at: seq<nat> := seq(|was|, k => k);
    assert EvolvesAt(was, was + [x], same, at);
  }

  lemma KeptNext<T(!new)>(was: seq<T>, now: seq<T>, same: (T, T) -> bool, at: seq<nat>, x: T, y: T)
    requires EvolvesAt(was, now, same, at) && |now| == |at| && same(x, y)
    ensures EvolvesAt(was + [x], now + [y], same, at + [|was|])
  {
    var (all, more) := (was + [x], at + [|was|]);
    assert forall k :: 0 <= k < |at| ==> more[k] == at[k] && all[at[k]] == was[at[k]];
  }

  lemma GoneNext<T(!new)>(was: seq<T>, now: seq<T>, same: (T, T) -> bool, at: seq<nat>, x: T)
    requires EvolvesAt(was, now, same, at) && |now| == |at|
    ensures EvolvesAt(was + [x], now, same, at)
  {
  }

  /** Some elements go, and the others become what f makes of them. */
  lemma {:induction false} EvolvesSelected<T(!new)>(s: seq<T>, n: nat, f: T -> Option<T>, same: (T, T) -> bool)
    returns (at: seq<nat>)
    requires n <= |s| && forall x :: x in s && f(x).Some? ==> same(x, f(x).value)
    ensures EvolvesAt(s[..n], FilterMap(s[..n], f), same, at) && |at| == |FilterMap(s[..n], f)|
  {
    if n == 0 {
      at := [];
      FilterMapNone(s[..0], f);
    } else {
      var (x, before) := (s[n - 1], FilterMap(s[..n - 1], f));
      at := EvolvesSelected(s, n - 1, f, same);
      FilterMapNext(s, n - 1, f);
      assert s[..n - 1] + [x] == s[..n] && x in s;
      hide FilterMap, EvolvesAt;
      if f(x).Some? {
        KeptNext(s[..n - 1], before, same, at, x, f(x).value);
        at := at + [n - 1];
      } else {
        GoneNext(s[..n - 1], before, same, at, x);
        assert before + [] == before;
      }
    }
  }

  lemma EvolvesFilterMap<T(!new)>(s: seq<T>, f: T -> Option<T>, same: (T, T) -> bool)
    requires forall x :: x in s && f(x).Some? ==> same(x, f(x).value)
    ensures Evolves(s, FilterMap(s, f), same)
  {
    var at := EvolvesSelected(s, |s|, f, same);
    assert s[..|s|] == s;
  }

  lemma {:induction false} FilterIsFilterMap<T(!new)>(s: seq<T>, keep: T -> bool)
    ensures Filter(s, keep) == FilterMap(s, (x: T) => if keep(x) then Some(x) else None)
  {
    if s != [] {
      FilterIsFilterMap(s[1..], keep);
    }
  }

  lemma EvolvesFilter<T(!new)>(s: seq<T>, keep: T -> bool, same: (T, T) -> bool)
    requires forall x :: x in s ==> same(x, x)
    ensures Evolves(s, Filter(s, keep), same)
  {
    var f := (x: T) => if keep(x) then Some(x) else None;
    FilterIsFilterMap(s, keep);
    EvolvesFilterMap(s, f, same);
  }

  lemma {:induction false} MapOfFilter<T(!new)>(s: seq<T>, keep: T -> bool, f: T -> T)
    ensures Map(Filter(s, keep), f) == FilterMap(s, (x: T) => if keep(x) then Some(f(x)) else None)
  {
    if s != [] {
      MapOfFilter(s[1..], keep, f);
      if keep(s[0]) {
        MapCons(s[0], Filter(s[1..], keep), f);
      } else {
        assert [] + Filter(s[1..], keep) == Filter(s[1..], keep);
      }
    }
  }

  lemma EvolvesMapOfFilter<T(!new)>(s: seq<T>, keep: T -> bool, f: T -> T, same: (T, T) -> bool)
    requires forall x :: x in s ==> same(x, f(x))
    ensures Evolves(s, Map(Filter(s, keep), f), same)
  {
    MapOfFilter(s, keep, f);
    EvolvesFilterMap(s, (x: T) => if keep(x) then Some(f(x)) else None, same);
  }

  lemma EvolvesMap<T(!new)>(s: seq<T>, f: T -> T, same: (T, T) -> bool)
    requires forall x :: x in s ==> same(x, f(x))
    ensures Evolves(s, Map(s, f), same)
  {
    EvolvesInPlace(s, Map(s, f), same);
  }

  lemma {:induction false} UpdatedInPlace<T(!new)>(s: seq<T>, p: T -> bool, f: T -> T, same: (T, T) -> bool)
    requires forall x :: x in s ==> same(x, x) && (p(x) ==> same(x, f(x)))
    ensures forall k :: 0 <= k < |s| ==> same(s[k], UpdateFirst(s, p, f)[k])
  {
    if s != [] {
      var rest := s[1..];
      assert s[0] in s && forall x :: x in rest ==> x in s;
      UpdatedInPlace(rest, p, f, same);
      forall k | 0 <= k < |s| ensures same(s[k], UpdateFirst(s, p, f)[k]) {
        if k > 0 {
          assert rest[k - 1] == s[k];
          assert UpdateFirst(s, p, f)[k] == if p(s[0]) then rest[k - 1] else UpdateFirst(rest, p, f)[k - 1];
        }
      }
    }
  }

  lemma EvolvesUpdated<T(!new)>(s: seq<T>, p: T -> bool, f: T -> T, same: (T, T) -> bool)
    requires forall x :: x in s ==> same(x, x) && (p(x) ==> same(x, f(x)))
    ensures Evolves(s, UpdateFirst(s, p, f), same)
  {
    UpdatedInPlace(s, p, f, same);
    EvolvesInPlace(s, UpdateFirst(s, p, f), same);
  }

  // ---------------------------------------------------------------------------
  // The elements of a model.

  /** The same subject, whatever its condition. */
  ghost predicate SameSubject(a: SubjectRef, b: SubjectRef) {
    a.(condition := None) == b.(condition := None)
  }

  ghost predicate SameText(a: string, b: string) {
    a == b
  }

  ghost predicate SameRoleName(e: Operation, a: string, b: string) {
    a == b || (e.RenamingRole? && a == e.from && b == e.to)
  }

  ghost predicate SamePermissionName(e: Operation, a: string, b: string) {
    a == b || (e.RenamingPermission? && a == e.from && b == e.to)
  }

  ghost predicate GroupEvolves(a: GroupType, b: GroupType) {
    a.name == b.name && Evolves(a.memberTypes, b.memberTypes, SameSubject)
  }

  ghost predicate ParentEvolves(a: ParentRef, b: ParentRef) {
    a.relationName == b.relationName && Evolves(a.parentTypes, b.parentTypes, SameText)
  }

  ghost predicate RoleEvolves(e: Operation, a: Role, b: Role) {
    && SameRoleName(e, a.name, b.name)
    && (Evolves(a.assignableBy, b.assignableBy, SameSubject) || (e.SettingSubjects? && b.assignableBy == e.refs))
  }

  ghost predicate PermissionEvolves(e: Operation, a: Permission, b: Permission) {
    && SamePermissionName(e, a.name, b.name)
    && Evolves(a.grantedByRoles, b.grantedByRoles, (x, y) => SameRoleName(e, x, y))
    && Evolves(a.inheritFromParents, b.inheritFromParents, SameText)
  }

  ghost predicate ResourceEvolves(e: Operation, a: ResourceType, b: ResourceType) {
    && a.name == b.name
    && Evolves(a.parents, b.parents, ParentEvolves)
    && Evolves(a.roles, b.roles, (x, y) => RoleEvolves(e, x, y))
    && Evolves(a.permissions, b.permissions, (x, y) => PermissionEvolves(e, x, y))
  }

  ghost predicate ConditionEvolves(e: Operation, a: ConditionDef, b: ConditionDef) {
    || a.name == b.name
    || (e.RenamingCondition? && a.name == e.from && b.name == e.to)
    || (e.UpdatingCondition? && a.name == e.name && b == e.def)
  }

  /** At every level what stays keeps its order, and what is added comes last. */
  ghost predicate ModelEvolves(e: Operation, a: ModelIR, b: ModelIR) {
    && Evolves(a.groups, b.groups, GroupEvolves)
    && Evolves(a.resources, b.resources, (x, y) => ResourceEvolves(e, x, y))
    && Evolves(ConditionsOf(a), ConditionsOf(b), (x, y) => ConditionEvolves(e, x, y))
  }

  lemma GroupStays(g: GroupType)
    ensures GroupEvolves(g, g)
  {
    EvolvesInPlace(g.memberTypes, g.memberTypes, SameSubject);
  }

  lemma ParentStays(p: ParentRef)
    ensures ParentEvolves(p, p)
  {
    EvolvesInPlace(p.parentTypes, p.parentTypes, SameText);
  }

  lemma RoleStays(e: Operation, role: Role)
    ensures RoleEvolves(e, role, role)
  {
    EvolvesInPlace(role.assignableBy, role.assignableBy, SameSubject);
  }

  lemma PermissionStays(e: Operation, p: Permission)
    ensures PermissionEvolves(e, p, p)
  {
    EvolvesInPlace(p.grantedByRoles, p.grantedByRoles, (x, y) => SameRoleName(e, x, y));
    EvolvesInPlace(p.inheritFromParents, p.inheritFromParents, SameText);
  }

  lemma PartsStay(e: Operation, r: ResourceType)
    ensures forall p :: p in r.parents ==> ParentEvolves(p, p)
    ensures forall x :: x in r.roles ==> RoleEvolves(e, x, x)
    ensures forall p :: p in r.permissions ==> PermissionEvolves(e, p, p)
    ensures Evolves(r.parents, r.parents, ParentEvolves)
    ensures Evolves(r.roles, r.roles, (x, y) => RoleEvolves(e, x, y))
    ensures Evolves(r.permissions, r.permissions, (x, y) => PermissionEvolves(e, x, y))
  {
    forall p ensures ParentEvolves(p, p) {
      ParentStays(p);
    }
    forall x ensures RoleEvolves(e, x, x) {
      RoleStays(e, x);
    }
    forall p ensures PermissionEvolves(e, p, p) {
      PermissionStays(e, p);
    }
    hide *;
    EvolvesInPlace(r.parents, r.parents, ParentEvolves);
    EvolvesInPlace(r.roles, r.roles, (x, y) => RoleEvolves(e, x, y));
    EvolvesInPlace(r.permissions, r.permissions, (x, y) => PermissionEvolves(e, x, y));
  }

  lemma ResourceStays(e: Operation, r: ResourceType)
    ensures ResourceEvolves(e, r, r)
  {
    PartsStay(e, r);
    hide Evolves, ParentEvolves, RoleEvolves, PermissionEvolves;
  }

  lemma ModelStays(e: Operation, ir: ModelIR)
    ensures forall g :: g in ir.groups ==> GroupEvolves(g, g)
    ensures forall r :: r in ir.resources ==> ResourceEvolves(e, r, r)
    ensures Evolves(ir.groups, ir.groups, GroupEvolves)
    ensures Evolves(ir.resources, ir.resources, (x, y) => ResourceEvolves(e, x, y))
    ensures Evolves(ConditionsOf(ir), ConditionsOf(ir), (x, y) => ConditionEvolves(e, x, y))
    ensures ModelEvolves(e, ir, ir)
  {
    forall g ensures GroupEvolves(g, g) {
      GroupStays(g);
    }
    forall r ensures ResourceEvolves(e, r, r) {
      ResourceStays(e, r);
    }
    hide Evolves, GroupEvolves, ResourceEvolves;
    EvolvesInPlace(ir.groups, ir.groups, GroupEvolves);
    EvolvesInPlace(ir.resources, ir.resources, (x, y) => ResourceEvolves(e, x, y));
    EvolvesInPlace(ConditionsOf(ir), ConditionsOf(ir), (x, y) => ConditionEvolves(e, x, y));
  }

  // ---------------------------------------------------------------------------
  // Elements that an edit changes.

  lemma ToggleEvolves(s: seq<string>, x: string, same: (string, string) -> bool)
    requires forall y :: same(y, y)
    ensures Evolves(s, Toggle(s, x), same)
  {
    hide Evolves, Filter;
    if x in s {
      EvolvesFilter(s, Differs(x), same);
    } else {
      EvolvesWithLast(s, x, same);
    }
  }

  lemma GroupWithoutEvolves(name: string, g: GroupType)
    ensures GroupEvolves(g, GroupWithout(name)(g))
  {
    hide Evolves, Filter;
    EvolvesFilter(g.memberTypes, RefersElsewhere(name), SameSubject);
  }

  lemma RoleWithoutEvolves(e: Operation, name: string, role: Role)
    ensures RoleEvolves(e, role, RoleWithout(name)(role))
  {
    hide Evolves, Filter;
    EvolvesFilter(role.assignableBy, RefersElsewhere(name), SameSubject);
  }

  lemma ParentWithoutEvolves(name: string, p: ParentRef)
    ensures ParentWithout(name)(p).Some? ==> ParentEvolves(p, ParentWithout(name)(p).value)
  {
    hide Evolves, Filter;
    EvolvesFilter(p.parentTypes, Differs(name), SameText);
  }

  lemma InheritsKeptEvolves(e: Operation, removed: seq<string>, p: Permission)
    ensures PermissionEvolves(e, p, InheritsKept(removed)(p))
  {
    PermissionStays(e, p);
    hide Evolves, Filter;
    EvolvesFilter(p.inheritFromParents, rel => rel !in removed, SameText);
  }

  lemma GrantsKeptEvolves(e: Operation, name: string, p: Permission)
    ensures PermissionEvolves(e, p, GrantsKept(name)(p))
  {
    PermissionStays(e, p);
    hide Evolves, Filter;
    EvolvesFilter(p.grantedByRoles, Differs(name), (x, y) => SameRoleName(e, x, y));
  }

  lemma GrantToggledEvolves(e: Operation, role: string, p: Permission)
    ensures PermissionEvolves(e, p, GrantToggled(role)(p))
  {
    PermissionStays(e, p);
    hide Evolves, Toggle;
    ToggleEvolves(p.grantedByRoles, role, (x, y) => SameRoleName(e, x, y));
  }

  lemma InheritToggledEvolves(e: Operation, relation: string, p: Permission)
    ensures PermissionEvolves(e, p, InheritToggled(relation)(p))
  {
    PermissionStays(e, p);
    hide Evolves, Toggle;
    ToggleEvolves(p.inheritFromParents, relation, SameText);
  }

  lemma GrantsRenamedEvolves(e: Operation, p: Permission)
    requires e.RenamingRole?
    ensures PermissionEvolves(e, p, GrantsRenamed(e.from, e.to)(p))
  {
    PermissionStays(e, p);
    hide Evolves, Map;
    EvolvesMap(p.grantedByRoles, Renamed(e.from, e.to), (x, y) => SameRoleName(e, x, y));
  }

  lemma RenamedIs(from: string, to: string, name: string)
    ensures Renamed(from, to)(name) == if name == from then to else name
  {
  }

  lemma RoleRenamedEvolves(e: Operation, role: Role)
    requires e.RenamingRole?
    ensures RoleEvolves(e, role, RoleRenamed(e.from, e.to)(role))
  {
    RoleStays(e, role);
    RenamedIs(e.from, e.to, role.name);
    hide Evolves, Renamed;
  }

  lemma PermissionRenamedEvolves(e: Operation, p: Permission)
    requires e.RenamingPermission?
    ensures PermissionEvolves(e, p, PermissionRenamed(e.from, e.to)(p))
  {
    PermissionStays(e, p);
    RenamedIs(e.from, e.to, p.name);
    hide Evolves, Renamed;
  }

  lemma SubjectConditionedEvolves(e: Operation, index: int, condition: Option<string>, role: Role)
    ensures RoleEvolves(e, role, SubjectConditioned(index, condition)(role))
  {
    EvolvesInPlace(role.assignableBy, SubjectConditioned(index, condition)(role).assignableBy, SameSubject);
    hide Evolves;
  }

  lemma ParentExtendedEvolves(typ: string, p: ParentRef)
    ensures ParentEvolves(p, ParentExtended(typ)(p))
  {
    ParentStays(p);
    hide Evolves;
    EvolvesWithLast(p.parentTypes, typ, SameText);
  }

  // ---------------------------------------------------------------------------
  // Resources that an edit changes.

  lemma OnPermissionEvolves(e: Operation, name: string, f: Permission -> Permission, r: ResourceType)
    requires forall p :: PermissionEvolves(e, p, f(p))
    ensures ResourceEvolves(e, r, OnPermission(name, f)(r))
  {
    PartsStay(e, r);
    hide Evolves, UpdateFirst, ParentEvolves, RoleEvolves, PermissionEvolves;
    EvolvesUpdated(r.permissions, PermissionIs(name), f, (x, y) => PermissionEvolves(e, x, y));
  }

  lemma OnRoleEvolves(e: Operation, name: string, f: Role -> Role, r: ResourceType)
    requires forall x :: RoleEvolves(e, x, f(x))
    ensures ResourceEvolves(e, r, OnRole(name, f)(r))
  {
    PartsStay(e, r);
    hide Evolves, UpdateFirst, ParentEvolves, RoleEvolves, PermissionEvolves;
    EvolvesUpdated(r.roles, RoleIs(name), f, (x, y) => RoleEvolves(e, x, y));
  }

  lemma ResourceWithoutEvolves(e: Operation, name: string, r: ResourceType)
    ensures ResourceEvolves(e, r, ResourceWithout(name)(r))
  {
    forall p ensures ParentWithout(name)(p).Some? ==> ParentEvolves(p, ParentWithout(name)(p).value) {
      ParentWithoutEvolves(name, p);
    }
    forall x ensures RoleEvolves(e, x, RoleWithout(name)(x)) {
      RoleWithoutEvolves(e, name, x);
    }
    var gone := FilterMap(r.parents, Orphaned(name));
    forall p ensures PermissionEvolves(e, p, InheritsKept(gone)(p)) {
      InheritsKeptEvolves(e, gone, p);
    }
    hide Evolves, FilterMap, Map, ParentEvolves, RoleEvolves, PermissionEvolves;
    hide ParentWithout, InheritsKept, RoleWithout;
    EvolvesFilterMap(r.parents, ParentWithout(name), ParentEvolves);
    EvolvesMap(r.roles, RoleWithout(name), (x, y) => RoleEvolves(e, x, y));
    EvolvesMap(r.permissions, InheritsKept(gone), (x, y) => PermissionEvolves(e, x, y));
  }

  lemma ParentConnectedEvolves(e: Operation, relation: string, parent: string, r: ResourceType)
    ensures ResourceEvolves(e, r, ParentConnected(relation, parent)(r))
  {
    PartsStay(e, r);
    forall p ensures ParentEvolves(p, ParentExtended(parent)(p)) {
      ParentExtendedEvolves(parent, p);
    }
    hide Evolves, UpdateFirst, ParentEvolves, RoleEvolves, PermissionEvolves, ParentExtended;
    EvolvesUpdated(r.parents, ParentIs(relation), ParentExtended(parent), ParentEvolves);
    EvolvesWithLast(r.parents, ParentRef(relation, [parent]), ParentEvolves);
  }

  lemma ParentCutEvolves(relation: string, parent: Option<string>, p: ParentRef)
    ensures ParentCut(relation, parent)(p).Some? ==> ParentEvolves(p, ParentCut(relation, parent)(p).value)
  {
    ParentStays(p);
    if parent.Some? {
      ParentWithoutEvolves(parent.value, p);
    }
    hide ParentEvolves, ParentWithout;
  }

  lemma ParentDisconnectedEvolves(e: Operation, relation: string, parent: Option<string>, r: ResourceType)
    ensures ResourceEvolves(e, r, ParentDisconnected(relation, parent)(r))
  {
    PartsStay(e, r);
    forall p ensures ParentCut(relation, parent)(p).Some? ==> ParentEvolves(p, ParentCut(relation, parent)(p).value) {
      ParentCutEvolves(relation, parent, p);
    }
    CutEvolves(e, relation, r);
    hide Evolves, FilterMap, Map, ParentEvolves, RoleEvolves, PermissionEvolves, ParentCut, InheritsKept;
    EvolvesFilterMap(r.parents, ParentCut(relation, parent), ParentEvolves);
    var gone := exists p :: p in r.parents && ParentCut(relation, parent)(p).None?;
    assert ParentDisconnected(relation, parent)(r).permissions ==
           if gone then Map(r.permissions, InheritsKept([relation])) else r.permissions;
  }

  lemma CutEvolves(e: Operation, relation: string, r: ResourceType)
    ensures Evolves(r.permissions, Map(r.permissions, InheritsKept([relation])), (x, y) => PermissionEvolves(e, x, y))
  {
    forall p ensures PermissionEvolves(e, p, InheritsKept([relation])(p)) {
      InheritsKeptEvolves(e, [relation], p);
    }
    hide Evolves, Map, PermissionEvolves, InheritsKept;
    EvolvesMap(r.permissions, InheritsKept([relation]), (x, y) => PermissionEvolves(e, x, y));
  }

  lemma RoleAddedEvolves(e: Operation, name: string, r: ResourceType)
    ensures ResourceEvolves(e, r, RoleAdded(name)(r))
  {
    PartsStay(e, r);
    hide Evolves, ParentEvolves, RoleEvolves, PermissionEvolves, RoleNames;
    EvolvesWithLast(r.roles, Role(name, [User(None)]), (x, y) => RoleEvolves(e, x, y));
  }

  lemma RoleRemovedEvolves(e: Operation, name: string, r: ResourceType)
    ensures ResourceEvolves(e, r, RoleRemoved(name)(r))
  {
    PartsStay(e, r);
    forall p ensures PermissionEvolves(e, p, GrantsKept(name)(p)) {
      GrantsKeptEvolves(e, name, p);
    }
    hide Evolves, Filter, Map, ParentEvolves, RoleEvolves, PermissionEvolves, GrantsKept;
    EvolvesFilter(r.roles, (role: Role) => role.name != name, (x, y) => RoleEvolves(e, x, y));
    EvolvesMap(r.permissions, GrantsKept(name), (x, y) => PermissionEvolves(e, x, y));
  }

  lemma RolesRenamedEvolves(e: Operation, r: ResourceType)
    requires e.RenamingRole?
    ensures ResourceEvolves(e, r, RolesRenamed(e.from, e.to)(r))
  {
    PartsStay(e, r);
    forall x ensures RoleEvolves(e, x, RoleRenamed(e.from, e.to)(x)) {
      RoleRenamedEvolves(e, x);
    }
    forall p ensures PermissionEvolves(e, p, GrantsRenamed(e.from, e.to)(p)) {
      GrantsRenamedEvolves(e, p);
    }
    hide Evolves, Map, ParentEvolves, RoleEvolves, PermissionEvolves, RoleRenamed, GrantsRenamed, RoleNames;
    EvolvesMap(r.roles, RoleRenamed(e.from, e.to), (x, y) => RoleEvolves(e, x, y));
    EvolvesMap(r.permissions, GrantsRenamed(e.from, e.to), (x, y) => PermissionEvolves(e, x, y));
  }

  lemma PermissionAddedEvolves(e: Operation, name: string, r: ResourceType)
    ensures ResourceEvolves(e, r, PermissionAdded(name)(r))
  {
    PartsStay(e, r);
    hide Evolves, ParentEvolves, RoleEvolves, PermissionEvolves, PermissionNames;
    EvolvesWithLast(r.permissions, Permission(name, [], []), (x, y) => PermissionEvolves(e, x, y));
  }

  lemma PermissionRemovedEvolves(e: Operation, name: string, r: ResourceType)
    ensures ResourceEvolves(e, r, PermissionRemoved(name)(r))
  {
    PartsStay(e, r);
    hide Evolves, Filter, ParentEvolves, RoleEvolves, PermissionEvolves;
    EvolvesFilter(r.permissions, (p: Permission) => p.name != name, (x, y) => PermissionEvolves(e, x, y));
  }

  lemma PermissionsRenamedEvolves(e: Operation, r: ResourceType)
    requires e.RenamingPermission?
    ensures ResourceEvolves(e, r, PermissionsRenamed(e.from, e.to)(r))
  {
    PartsStay(e, r);
    forall p ensures PermissionEvolves(e, p, PermissionRenamed(e.from, e.to)(p)) {
      PermissionRenamedEvolves(e, p);
    }
    hide Evolves, Map, ParentEvolves, RoleEvolves, PermissionEvolves, PermissionRenamed;
    EvolvesMap(r.permissions, PermissionRenamed(e.from, e.to), (x, y) => PermissionEvolves(e, x, y));
  }

  // ---------------------------------------------------------------------------
  // Models that an edit changes.

  lemma OnResourceEvolves(e: Operation, ir: ModelIR, typ: string, f: ResourceType -> ResourceType)
    requires forall r :: ResourceEvolves(e, r, f(r))
    ensures ModelEvolves(e, ir, OnResource(ir, typ, f))
  {
    ModelStays(e, ir);
    hide Evolves, UpdateFirst, GroupEvolves, ResourceEvolves;
    EvolvesUpdated(ir.resources, ResourceIs(typ), f, (x, y) => ResourceEvolves(e, x, y));
  }

  lemma TypeRemovedEvolves(e: Operation, ir: ModelIR, name: string)
    ensures ModelEvolves(e, ir, TypeRemoved(ir, name))
  {
    ModelStays(e, ir);
    forall g ensures GroupEvolves(g, GroupWithout(name)(g)) {
      GroupWithoutEvolves(name, g);
    }
    forall r ensures ResourceEvolves(e, r, ResourceWithout(name)(r)) {
      ResourceWithoutEvolves(e, name, r);
    }
    hide Evolves, Filter, Map, GroupEvolves, ResourceEvolves, GroupWithout, ResourceWithout;
    EvolvesMapOfFilter(ir.groups, (g: GroupType) => g.name != name, GroupWithout(name), GroupEvolves);
    EvolvesMapOfFilter(ir.resources, (r: ResourceType) => r.name != name, ResourceWithout(name),
                       (x, y) => ResourceEvolves(e, x, y));
  }

  lemma TypeAddedEvolves(e: Operation, ir: ModelIR, name: string)
    ensures ModelEvolves(e, ir, AddResource(ir, name)) && ModelEvolves(e, ir, AddGroup(ir, name))
  {
    ModelStays(e, ir);
    hide Evolves, GroupEvolves, ResourceEvolves, TypeNames;
    EvolvesWithLast(ir.groups, GroupType(name, [User(None)]), GroupEvolves);
    EvolvesWithLast(ir.resources, ResourceType(name, [], [], []), (x, y) => ResourceEvolves(e, x, y));
  }

  /** References changed in their conditions only. */
  lemma MapSubjectsEvolves(e: Operation, ir: ModelIR, f: SubjectRef -> SubjectRef)
    requires forall ref :: SameSubject(ref, f(ref))
    ensures var there := MapSubjects(ir, f);
            && Evolves(ir.groups, there.groups, GroupEvolves)
            && Evolves(ir.resources, there.resources, (x, y) => ResourceEvolves(e, x, y))
            && there.conditions == ir.conditions
  {
    forall g ensures GroupEvolves(g, MembersMapped(f)(g)) {
      MembersMappedEvolves(f, g);
    }
    forall r ensures ResourceEvolves(e, r, AssignmentsMapped(f)(r)) {
      AssignmentsMappedEvolves(e, f, r);
    }
    hide Evolves, Map, GroupEvolves, ResourceEvolves, MembersMapped, AssignmentsMapped;
    EvolvesMap(ir.groups, MembersMapped(f), GroupEvolves);
    EvolvesMap(ir.resources, AssignmentsMapped(f), (x, y) => ResourceEvolves(e, x, y));
  }

  lemma MembersMappedEvolves(f: SubjectRef -> SubjectRef, g: GroupType)
    requires forall ref :: SameSubject(ref, f(ref))
    ensures GroupEvolves(g, MembersMapped(f)(g))
  {
    hide Evolves, Map, SameSubject;
    EvolvesMap(g.memberTypes, f, SameSubject);
  }

  lemma AssignmentsMappedEvolves(e: Operation, f: SubjectRef -> SubjectRef, r: ResourceType)
    requires forall ref :: SameSubject(ref, f(ref))
    ensures ResourceEvolves(e, r, AssignmentsMapped(f)(r))
  {
    PartsStay(e, r);
    forall x ensures RoleEvolves(e, x, RoleMapped(f)(x)) {
      hide Evolves, Map, SameSubject;
      EvolvesMap(x.assignableBy, f, SameSubject);
    }
    hide Evolves, Map, ParentEvolves, RoleEvolves, PermissionEvolves, RoleMapped, SameSubject;
    EvolvesMap(r.roles, RoleMapped(f), (x, y) => RoleEvolves(e, x, y));
  }

  lemma ConditionEditsEvolve(e: Operation, ir: ModelIR)
    requires e.AddingCondition? || e.UpdatingCondition? || e.RenamingCondition? || e.RemovingCondition?
    ensures ModelEvolves(e, ir, Apply(ir, e))
  {
    ModelStays(e, ir);
    var cs := ConditionsOf(ir);
    var same := (x, y) => ConditionEvolves(e, x, y);
    hide Evolves, Filter, Map, GroupEvolves, ResourceEvolves, ConditionNames, MapSubjects;
    match e
    case AddingCondition(def) => EvolvesWithLast(cs, def, same);
    case UpdatingCondition(name, def) => EvolvesMap(cs, Replaced(name, def), same);
    case RenamingCondition(from, to) =>
      forall c ensures ConditionEvolves(e, c, ConditionRenamed(from, to)(c)) {
        RenamedIs(from, to, c.name);
      }
      EvolvesMap(cs, ConditionRenamed(from, to), same);
      MapSubjectsEvolves(e, ir.(conditions := Some(Map(cs, ConditionRenamed(from, to)))), SubjectRenamed(from, to));
    case RemovingCondition(name) =>
      var kept := Filter(cs, (c: ConditionDef) => c.name != name);
      EvolvesFilter(cs, (c: ConditionDef) => c.name != name, same);
      MapSubjectsEvolves(e, ir.(conditions := OrAbsent(kept)), Unconditioned(name));
  }

  /** What an edit of one resource does to it. */
  function ResourceEdit(e: Operation): ResourceType -> ResourceType {
    match e
    case ConnectingParent(_, parent, relation) => ParentConnected(relation, parent)
    case DisconnectingParent(_, relation, only) => ParentDisconnected(relation, only)
    case TogglingCell(_, permission, role) => OnPermission(permission, GrantToggled(role))
    case TogglingInherit(_, permission, relation) => OnPermission(permission, InheritToggled(relation))
    case AddingRole(_, name) => RoleAdded(name)
    case RemovingRole(_, name) => RoleRemoved(name)
    case RenamingRole(_, from, to) => RolesRenamed(from, to)
    case SettingSubjects(_, role, refs) => OnRole(role, SubjectsSet(refs))
    case SettingCondition(_, role, index, condition) => OnRole(role, SubjectConditioned(index, condition))
    case AddingPermission(_, name) => PermissionAdded(name)
    case RemovingPermission(_, name) => PermissionRemoved(name)
    case RenamingPermission(_, from, to) => PermissionsRenamed(from, to)
    case _ => (r: ResourceType) => r
  }

  /** The type of that resource. */
  function TypeOf(e: Operation): string {
    if e.ConnectingParent? || e.DisconnectingParent? then e.child
    else if e.AddingResource? || e.AddingGroup? || e.RemovingType? || e.AddingCondition? || e.UpdatingCondition?
            || e.RenamingCondition? || e.RemovingCondition? then ""
    else e.typ
  }

  lemma ToggledEvolves(e: Operation, r: ResourceType)
    requires e.TogglingCell? || e.TogglingInherit?
    ensures ResourceEvolves(e, r, ResourceEdit(e)(r))
  {
    hide PermissionEvolves, ResourceEvolves, OnPermission, GrantToggled, InheritToggled;
    match e
    case TogglingCell(_, permission, role) =>
      forall p ensures PermissionEvolves(e, p, GrantToggled(role)(p)) {
        GrantToggledEvolves(e, role, p);
      }
      OnPermissionEvolves(e, permission, GrantToggled(role), r);
    case TogglingInherit(_, permission, relation) =>
      forall p ensures PermissionEvolves(e, p, InheritToggled(relation)(p)) {
        InheritToggledEvolves(e, relation, p);
      }
      OnPermissionEvolves(e, permission, InheritToggled(relation), r);
  }

  lemma AssignedEvolves(e: Operation, r: ResourceType)
    requires e.SettingSubjects? || e.SettingCondition?
    ensures ResourceEvolves(e, r, ResourceEdit(e)(r))
  {
    hide ResourceEvolves, OnRole, SubjectConditioned, Evolves;
    match e
    case SettingSubjects(_, role, refs) =>
      assert forall x :: RoleEvolves(e, x, SubjectsSet(refs)(x));
      OnRoleEvolves(e, role, SubjectsSet(refs), r);
    case SettingCondition(_, role, index, condition) =>
      forall x ensures RoleEvolves(e, x, SubjectConditioned(index, condition)(x)) {
        SubjectConditionedEvolves(e, index, condition, x);
      }
      OnRoleEvolves(e, role, SubjectConditioned(index, condition), r);
  }

  lemma ResourceEditEvolves(e: Operation, r: ResourceType)
    ensures ResourceEvolves(e, r, ResourceEdit(e)(r))
  {
    ResourceStays(e, r);
    hide ResourceEvolves, ParentConnected, ParentDisconnected, RoleAdded, RoleRemoved, RolesRenamed, PermissionAdded,
      PermissionRemoved, PermissionsRenamed;
    match e
    case ConnectingParent(_, parent, relation) => ParentConnectedEvolves(e, relation, parent, r);
    case DisconnectingParent(_, relation, only) => ParentDisconnectedEvolves(e, relation, only, r);
    case TogglingCell(_, _, _) => ToggledEvolves(e, r);
    case TogglingInherit(_, _, _) => ToggledEvolves(e, r);
    case AddingRole(_, name) => RoleAddedEvolves(e, name, r);
    case RemovingRole(_, name) => RoleRemovedEvolves(e, name, r);
    case RenamingRole(_, _, _) => RolesRenamedEvolves(e, r);
    case SettingSubjects(_, _, _) => AssignedEvolves(e, r);
    case SettingCondition(_, _, _, _) => AssignedEvolves(e, r);
    case AddingPermission(_, name) => PermissionAddedEvolves(e, name, r);
    case RemovingPermission(_, name) => PermissionRemovedEvolves(e, name, r);
    case RenamingPermission(_, _, _) => PermissionsRenamedEvolves(e, r);
    case _ =>
  }

  lemma AppliesToResource(ir: ModelIR, e: Operation)
    requires !(e.AddingResource? || e.AddingGroup? || e.RemovingType? || e.AddingCondition? || e.UpdatingCondition?
               || e.RenamingCondition? || e.RemovingCondition?)
    ensures Apply(ir, e) == OnResource(ir, TypeOf(e), ResourceEdit(e)) || Apply(ir, e) == ir
  {
    hide OnResource, Find, ParentConnected, ParentDisconnected, RoleAdded, RoleRemoved, RolesRenamed, PermissionAdded,
      PermissionRemoved, PermissionsRenamed, OnRole, OnPermission;
  }

  lemma ApplyKeepsOrder(ir: ModelIR, e: Operation)
    ensures ModelEvolves(e, ir, Apply(ir, e))
  {
    ModelStays(e, ir);
    if e.AddingResource? || e.AddingGroup? {
      TypeAddedEvolves(e, ir, e.name);
      hide ModelEvolves, AddResource, AddGroup;
    } else if e.RemovingType? {
      TypeRemovedEvolves(e, ir, e.name);
      hide ModelEvolves, TypeRemoved;
    } else if e.AddingCondition? || e.UpdatingCondition? || e.RenamingCondition? || e.RemovingCondition? {
      ConditionEditsEvolve(e, ir);
    } else {
      hide *;
      AppliesToResource(ir, e);
      forall r ensures ResourceEvolves(e, r, ResourceEdit(e)(r)) {
        ResourceEditEvolves(e, r);
      }
      OnResourceEvolves(e, ir, TypeOf(e), ResourceEdit(e));
    }
  }

  lemma CopyKeepsNames(ir: ModelIR)
    ensures Copied(ir).groups == ir.groups && Copied(ir).resources == ir.resources
    ensures |ConditionsOf(Copied(ir))| == |ConditionsOf(ir)|
    ensures forall k :: 0 <= k < |ConditionsOf(ir)| ==> ConditionsOf(Copied(ir))[k].name == ConditionsOf(ir)[k].name
  {
  }

  /** Every edit, at every level of the model, keeps what stays in its order and puts what it adds last. */
  lemma EditKeepsOrder(ir: ModelIR, e: Operation)
    ensures ModelEvolves(CopiedEdit(e), ir, Edited(ir, e))
  {
    var e' := CopiedEdit(e);
    hide Apply, Copied, Skips, GroupEvolves, ResourceEvolves;
    if Skips(ir, e) {
      ModelStays(e', ir);
    } else {
      var same := (x, y) => ConditionEvolves(e', x, y);
      CopyKeepsNames(ir);
      ApplyKeepsOrder(Copied(ir), e');
      var (was, now) := (ConditionsOf(Copied(ir)), ConditionsOf(Edited(ir, e)));
      hide CopiedEdit;
      var at :| EvolvesAt(was, now, same, at);
      assert EvolvesAt(ConditionsOf(ir), now, same, at);
    }
  }
}
