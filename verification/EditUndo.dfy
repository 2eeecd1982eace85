/** Which pairs of edits cancel. */
module EditUndo {
  import opened Prelude
  import opened Sorting
  import opened Condition
  import opened ModelIr
  import opened JsonCopy
  import opened Edit
  import opened EditCopy
  import opened EditSafety

  lemma {:induction false} FilterAll<T(!new)>(s: seq<T>, keep: T -> bool)
    ensures Filter(s, keep) == s <==> forall x :: x in s ==> keep(x)
  {
    if s != [] {
      FilterAll(s[1..], keep);
      assert |Filter(s[1..], keep)| <= |s| - 1;
      assert s == [s[0]] + s[1..];
    }
  }

  lemma {:induction false} SelectedIdentity<T>(s: seq<T>, f: T -> Option<T>)
    requires forall x :: x in s && f(x).Some? ==> f(x).value == x
    ensures FilterMap(s, f) == s <==> forall x :: x in s ==> f(x).Some?
  {
    if s != [] {
      var rest := FilterMap(s[1..], f);
      SelectedIdentity(s[1..], f);
      FilterMapShorter(s[1..], f);
      assert s == [s[0]] + s[1..];
      if f(s[0]).Some? {
        assert FilterMap(s, f) == [s[0]] + rest;
      } else {
        assert s[0] in s && |FilterMap(s, f)| < |s|;
      }
    }
  }

  /** A second update of what the first one changed gives the list back exactly when it gives the element back. */
  lemma {:induction false} UpdateBack<T(!new)>(s: seq<T>, p: T -> bool, f: T -> T, g: T -> T)
    requires forall x :: p(x) ==> p(f(x))
    ensures UpdateFirst(UpdateFirst(s, p, f), p, g) == s <==>
            (Find(s, p).Some? ==> g(f(Find(s, p).value)) == Find(s, p).value)
  {
    if s != [] {
      assert s == [s[0]] + s[1..];
      if p(s[0]) {
        assert ([f(s[0])] + s[1..])[1..] == s[1..];
      } else {
        UpdateBack(s[1..], p, f, g);
        assert UpdateFirst(s, p, f)[1..] == UpdateFirst(s[1..], p, f);
      }
    }
  }

  lemma ResourceBack(ir: ModelIR, typ: string, f: ResourceType -> ResourceType, g: ResourceType -> ResourceType)
    requires forall r: ResourceType :: f(r).name == r.name
    ensures var r := Find(ir.resources, ResourceIs(typ));
            OnResource(OnResource(ir, typ, f), typ, g) == ir <==> (r.Some? ==> g(f(r.value)) == r.value)
  {
    hide UpdateFirst, Find;
    UpdateBack(ir.resources, ResourceIs(typ), f, g);
  }

  // ---------------------------------------------------------------------------
  // Two edits, one after the other.

  function Twice(ir: ModelIR, e: Operation, then': Operation): ModelIR {
    Edited(Edited(ir, e), then')
  }

  /** Two edits, neither of which is refused, give the model back exactly when their changes cancel and JSON has
      all its literals. */
  lemma TwoEdits(ir: ModelIR, e: Operation, back: Operation)
    requires !Skips(ir, e) && !Skips(Apply(ir, e), back) && CopiedEdit(back) == back
    requires ConditionsSame(Apply(Apply(ir, e), back), ir)
    ensures Twice(ir, e, back) == Copied(Apply(Apply(ir, e), back))
    ensures Twice(ir, e, back) == ir <==> Apply(Apply(ir, e), back) == ir && JsonStable(ir)
  {
    var there := Apply(ir, e);
    var home := Apply(there, back);
    hide Apply, Skips;
    EditedIsCopied(ir, e);
    CopySkips(there, back);
    EditedIsCopied(Copied(there), back);
    CopyCommutes(there, back);
    CopiedTwice(home);
    CopiedSame(ir);
    hide Edited, JsonStable, Map;
  }

  ghost predicate ConditionsSame(there: ModelIR, ir: ModelIR) {
    there.conditions == ir.conditions
  }

  // ---------------------------------------------------------------------------
  // Toggling.

  /** Toggling twice gives the list back exactly when the name was absent, or stood last and nowhere else. */
  lemma ToggleTwice(s: seq<string>, x: string)
    ensures Toggle(Toggle(s, x), x) == s <==> x !in s || (s[|s| - 1] == x && x !in s[..|s| - 1])
  {
    var once := Toggle(s, x);
    if x !in s {
      FilterConcat(s, [x], Differs(x));
      FilterAll(s, Differs(x));
      assert Filter([x], Differs(x)) == [];
    } else {
      assert x !in once && Toggle(once, x) == once + [x];
      var front := s[..|s| - 1];
      assert s == front + [s[|s| - 1]];
      FilterConcat(front, [s[|s| - 1]], Differs(x));
      FilterAll(front, Differs(x));
      assert [s[|s| - 1]][1..] == [];
      if once + [x] == s {
        assert once == front;
      }
    }
  }

  ghost predicate TogglesBack(s: seq<string>, x: string) {
    x !in s || (s[|s| - 1] == x && x !in s[..|s| - 1])
  }

  lemma PermissionBack(ir: ModelIR, typ: string, name: string, g: Permission -> Permission)
    requires forall p: Permission :: g(p).name == p.name
    requires !LacksPermission(ir, typ, name)
    ensures var r := Find(ir.resources, ResourceIs(typ)); r.Some? && Find(r.value.permissions, PermissionIs(name)).Some?
    ensures var p := Find(Find(ir.resources, ResourceIs(typ)).value.permissions, PermissionIs(name)).value;
            var f := OnPermission(name, g);
            OnResource(OnResource(ir, typ, f), typ, f) == ir <==> g(g(p)) == p
  {
    var f := OnPermission(name, g);
    var r := Find(ir.resources, ResourceIs(typ)).value;
    FoundPermission(r.permissions, name);
    KeepsName(name, g);
    hide Find;
    UpdateBack(r.permissions, PermissionIs(name), g, g);
    assert f(f(r)) ==
      r.(permissions := UpdateFirst(UpdateFirst(r.permissions, PermissionIs(name), g), PermissionIs(name), g));
    hide UpdateFirst, OnPermission, OnResource;
    ResourceBack(ir, typ, f, f);
  }

  lemma {:induction false} UpdatedNames(ps: seq<Permission>, name: string, g: Permission -> Permission)
    requires forall p: Permission :: g(p).name == p.name
    ensures PermissionNames(UpdateFirst(ps, PermissionIs(name), g)) == PermissionNames(ps)
  {
    UpdateFirstKeeps(ps, PermissionIs(name), g, (p: Permission) => p.name);
    hide UpdateFirst;
  }

  lemma {:induction false} UpdatedFound<T(!new)>(s: seq<T>, p: T -> bool, f: T -> T)
    requires forall x :: p(x) ==> p(f(x))
    ensures Find(UpdateFirst(s, p, f), p) == match Find(s, p) case None => None case Some(x) => Some(f(x))
  {
    if s != [] {
      if p(s[0]) {
        assert ([f(s[0])] + s[1..])[0] == f(s[0]);
      } else {
        UpdatedFound(s[1..], p, f);
        assert UpdateFirst(s, p, f)[1..] == UpdateFirst(s[1..], p, f);
      }
    }
  }

  lemma StillHasPermission(ir: ModelIR, typ: string, name: string, g: Permission -> Permission)
    requires forall p: Permission :: g(p).name == p.name
    requires !LacksPermission(ir, typ, name)
    ensures !LacksPermission(OnResource(ir, typ, OnPermission(name, g)), typ, name)
  {
    var f := OnPermission(name, g);
    var r := Find(ir.resources, ResourceIs(typ)).value;
    KeepsName(name, g);
    UpdatedNames(r.permissions, name, g);
    assert f(r).permissions == UpdateFirst(r.permissions, PermissionIs(name), g);
    hide Find, UpdateFirst, OnPermission;
    UpdatedFound(ir.resources, ResourceIs(typ), f);
  }

  function PermissionOf(ir: ModelIR, typ: string, name: string): Option<Permission> {
    match Find(ir.resources, ResourceIs(typ))
    case None => None
    case Some(r) => Find(r.permissions, PermissionIs(name))
  }

  /** An edit that toggles something of one permission, made twice. */
  lemma ToggledTwice(ir: ModelIR, e: Operation, typ: string, name: string, g: Permission -> Permission)
    requires forall p: Permission :: g(p).name == p.name
    requires forall m: ModelIR ::
            Apply(m, e) == OnResource(m, typ, OnPermission(name, g)) && (Skips(m, e) <==> LacksPermission(m, typ, name))
    requires CopiedEdit(e) == e
    ensures var p := PermissionOf(ir, typ, name);
            Twice(ir, e, e) == ir <==> (p.Some? ==> g(g(p.value)) == p.value && JsonStable(ir))
  {
    var there := Apply(ir, e);
    var found := Find(ir.resources, ResourceIs(typ));
    assert found.None? ==> LacksPermission(ir, typ, name);
    if found.Some? {
      FoundPermission(found.value.permissions, name);
    }
    assert PermissionOf(ir, typ, name).None? <==> LacksPermission(ir, typ, name);
    assert ConditionsSame(Apply(there, e), ir);
    hide Find, UpdateFirst, OnPermission, OnResource, Skips, Apply, LacksPermission, JsonStable, ConditionsSame;
    if Skips(ir, e) {
      assert Twice(ir, e, e) == ir;
    } else {
      PermissionBack(ir, typ, name, g);
      StillHasPermission(ir, typ, name, g);
      hide Twice;
      TwoEdits(ir, e, e);
    }
  }

  lemma GrantToggledTwice(p: Permission, role: string)
    ensures GrantToggled(role)(GrantToggled(role)(p)) == p <==> TogglesBack(p.grantedByRoles, role)
  {
    ToggleTwice(p.grantedByRoles, role);
    hide Toggle;
  }

  lemma InheritToggledTwice(p: Permission, relation: string)
    ensures InheritToggled(relation)(InheritToggled(relation)(p)) == p <==> TogglesBack(p.inheritFromParents, relation)
  {
    ToggleTwice(p.inheritFromParents, relation);
    hide Toggle;
  }

  lemma GrantToggledEdits(typ: string, name: string, role: string)
    ensures var e := TogglingCell(typ, name, role);
            && CopiedEdit(e) == e && (forall p: Permission :: GrantToggled(role)(p).name == p.name)
            && forall m: ModelIR ::
                 && Apply(m, e) == OnResource(m, typ, OnPermission(name, GrantToggled(role)))
                 && (Skips(m, e) <==> LacksPermission(m, typ, name))
  {
    hide OnResource, OnPermission, LacksPermission, Toggle;
  }

  lemma InheritToggledEdits(typ: string, name: string, relation: string)
    ensures var e := TogglingInherit(typ, name, relation);
            && CopiedEdit(e) == e && (forall p: Permission :: InheritToggled(relation)(p).name == p.name)
            && forall m: ModelIR ::
                 && Apply(m, e) == OnResource(m, typ, OnPermission(name, InheritToggled(relation)))
                 && (Skips(m, e) <==> LacksPermission(m, typ, name))
  {
    hide OnResource, OnPermission, LacksPermission, Toggle;
  }

  /** Toggling a cell twice gives the model back exactly when there is no such permission, or the role was not granted
      or was granted last and only once, and JSON has all literals. */
  lemma ToggleCellTwice(ir: ModelIR, typ: string, permission: string, role: string)
    ensures var p := PermissionOf(ir, typ, permission);
            Twice(ir, TogglingCell(typ, permission, role), TogglingCell(typ, permission, role)) == ir <==>
            (p.Some? ==> TogglesBack(p.value.grantedByRoles, role) && JsonStable(ir))
  {
    hide *;
    var p := PermissionOf(ir, typ, permission);
    if p.Some? {
      GrantToggledTwice(p.value, role);
    }
    GrantToggledEdits(typ, permission, role);
    ToggledTwice(ir, TogglingCell(typ, permission, role), typ, permission, GrantToggled(role));
  }

  /** So does toggling an inherited relation twice. */
  lemma ToggleInheritTwice(ir: ModelIR, typ: string, permission: string, relation: string)
    ensures var p := PermissionOf(ir, typ, permission);
            Twice(ir, TogglingInherit(typ, permission, relation), TogglingInherit(typ, permission, relation)) == ir <==>
            (p.Some? ==> TogglesBack(p.value.inheritFromParents, relation) && JsonStable(ir))
  {
    hide *;
    var p := PermissionOf(ir, typ, permission);
    if p.Some? {
      InheritToggledTwice(p.value, relation);
    }
    InheritToggledEdits(typ, permission, relation);
    ToggledTwice(ir, TogglingInherit(typ, permission, relation), typ, permission, InheritToggled(relation));
  }

  lemma KeepsName(permission: string, g: Permission -> Permission)
    ensures forall r: ResourceType :: OnPermission(permission, g)(r).name == r.name
  {
    hide UpdateFirst;
  }

  // ---------------------------------------------------------------------------
  // Removing what was added.

  ghost predicate NoEmptyParent(r: ResourceType) {
    forall p :: p in r.parents ==> p.parentTypes != []
  }

  lemma RefsUntouched(refs: seq<SubjectRef>, name: string, gs: set<string>, cs: set<string>)
    requires RefsClosed(refs, gs, cs) && name !in gs
    ensures Filter(refs, RefersElsewhere(name)) == refs
  {
    FilterAll(refs, RefersElsewhere(name));
  }

  lemma ParentUntouched(p: ParentRef, name: string, ts: set<string>)
    requires ParentClosed(p, ts) && name !in ts
    ensures ParentWithout(name)(p) == if p.parentTypes == [] then None else Some(p)
  {
    FilterAll(p.parentTypes, Differs(name));
  }

  lemma InheritsUntouched(perm: Permission, removed: seq<string>)
    requires removed == []
    ensures InheritsKept(removed)(perm) == perm
  {
    FilterAll(perm.inheritFromParents, rel => rel !in removed);
  }

  /** Removing an unused name changes a resource exactly when it has an empty parent relation. */
  lemma ResourceUntouched(r: ResourceType, name: string, gs: set<string>, ts: set<string>, cs: set<string>)
    requires ResourceClosed(r, gs, ts, cs) && name !in gs && name !in ts
    ensures ResourceWithout(name)(r) == r <==> NoEmptyParent(r)
  {
    forall p | p in r.parents ensures ParentWithout(name)(p) == if p.parentTypes == [] then None else Some(p) {
      ParentUntouched(p, name, ts);
    }
    SelectedIdentity(r.parents, ParentWithout(name));
    RolesUntouched(r.roles, name, gs, cs);
    if NoEmptyParent(r) {
      var removed := FilterMap(r.parents, Orphaned(name));
      assert removed == [] by {
        NothingSelected(r.parents, Orphaned(name));
      }
      forall perm | perm in r.permissions ensures InheritsKept(removed)(perm) == perm {
        InheritsUntouched(perm, removed);
      }
      MapSame(r.permissions, InheritsKept(removed));
    }
  }

  lemma RolesUntouched(roles: seq<Role>, name: string, gs: set<string>, cs: set<string>)
    requires name !in gs && forall role :: role in roles ==> RefsClosed(role.assignableBy, gs, cs)
    ensures Map(roles, RoleWithout(name)) == roles
  {
    forall role | role in roles ensures RoleWithout(name)(role) == role {
      RefsUntouched(role.assignableBy, name, gs, cs);
    }
    MapSame(roles, RoleWithout(name));
  }

  lemma GroupsUntouched(groups: seq<GroupType>, name: string, gs: set<string>, cs: set<string>)
    requires name !in gs && forall g :: g in groups ==> RefsClosed(g.memberTypes, gs, cs)
    ensures Map(groups, GroupWithout(name)) == groups
  {
    forall g | g in groups ensures GroupWithout(name)(g) == g {
      RefsUntouched(g.memberTypes, name, gs, cs);
    }
    MapSame(groups, GroupWithout(name));
  }

  lemma ResourcesUntouched(rs: seq<ResourceType>, name: string, gs: set<string>, ts: set<string>, cs: set<string>)
    requires name !in gs && name !in ts && forall r :: r in rs ==> ResourceClosed(r, gs, ts, cs)
    ensures Map(rs, ResourceWithout(name)) == rs <==> forall r :: r in rs ==> NoEmptyParent(r)
  {
    hide ResourceClosed, ResourceWithout, NoEmptyParent;
    forall r | r in rs ensures ResourceWithout(name)(r) == r <==> NoEmptyParent(r) {
      ResourceUntouched(r, name, gs, ts, cs);
    }
    MapSame(rs, ResourceWithout(name));
  }

  lemma FreshNameKept(ir: ModelIR, name: string)
    requires name !in TypeNames(ir)
    ensures name !in GroupsOf(ir) && name !in TypesOf(ir)
    ensures Filter(ir.groups, (g: GroupType) => g.name != name) == ir.groups
    ensures Filter(ir.resources, (r: ResourceType) => r.name != name) == ir.resources
  {
    forall g | g in ir.groups ensures g.name != name {
      var i :| 0 <= i < |ir.groups| && ir.groups[i] == g;
      assert GroupNames(ir.groups)[i] == g.name;
    }
    forall r | r in ir.resources ensures r.name != name {
      var i :| 0 <= i < |ir.resources| && ir.resources[i] == r;
      assert ResourceNames(ir.resources)[i] == r.name;
    }
    FilterAll(ir.groups, (g: GroupType) => g.name != name);
    FilterAll(ir.resources, (r: ResourceType) => r.name != name);
  }

  lemma Untouched(ir: ModelIR, name: string)
    requires Closed(ir) && name !in TypeNames(ir)
    ensures Map(ir.groups, GroupWithout(name)) == ir.groups
    ensures Map(ir.resources, ResourceWithout(name)) == ir.resources <==>
            forall r :: r in ir.resources ==> NoEmptyParent(r)
  {
    hide UniqueNames, ResourceClosed, RefsClosed, NoEmptyParent, GroupsOf, TypesOf, CondsOf;
    hide Filter, Map, ResourceWithout;
    FreshNameKept(ir, name);
    GroupsUntouched(ir.groups, name, GroupsOf(ir), CondsOf(ir));
    ResourcesUntouched(ir.resources, name, GroupsOf(ir), TypesOf(ir), CondsOf(ir));
  }

  lemma AddedThenDropped(ir: ModelIR, name: string)
    requires name !in TypeNames(ir)
    ensures var there := TypeRemoved(AddResource(ir, name), name);
            there == ir.(groups := Map(ir.groups, GroupWithout(name)), resources :=
              Map(ir.resources, ResourceWithout(name)))
    ensures var there := TypeRemoved(AddGroup(ir, name), name);
            there == ir.(groups := Map(ir.groups, GroupWithout(name)), resources :=
              Map(ir.resources, ResourceWithout(name)))
  {
    var (keepG, keepR) := ((g: GroupType) => g.name != name, (r: ResourceType) => r.name != name);
    var (newR, newG) := (ResourceType(name, [], [], []), GroupType(name, [User(None)]));
    assert Filter([newR], keepR) == [] && Filter([newG], keepG) == [];
    assert AddResource(ir, name) == ir.(resources := ir.resources + [newR])
      && AddGroup(ir, name) == ir.(groups := ir.groups + [newG]);
    hide Filter, Map, TypeNames, AddResource, AddGroup, GroupWithout, ResourceWithout;
    FreshNameKept(ir, name);
    FilterConcat(ir.resources, [newR], keepR);
    FilterConcat(ir.groups, [newG], keepG);
    assert ir.resources + [] == ir.resources && ir.groups + [] == ir.groups;
  }

  ghost predicate NoEmptyParents(ir: ModelIR) {
    forall r :: r in ir.resources ==> NoEmptyParent(r)
  }

  /** Removing a type just added gives the model back exactly when no parent relation is empty and JSON
      has all literals. */
  lemma RemovingUndoesAdding(ir: ModelIR, name: string)
    requires Closed(ir) && name !in TypeNames(ir)
    ensures Twice(ir, AddingResource(name), RemovingType(name)) == ir <==> NoEmptyParents(ir) && JsonStable(ir)
    ensures Twice(ir, AddingGroup(name), RemovingType(name)) == ir <==> NoEmptyParents(ir) && JsonStable(ir)
  {
    var (e, e', back) := (AddingResource(name), AddingGroup(name), RemovingType(name));
    assert Apply(Apply(ir, e), back) == TypeRemoved(AddResource(ir, name), name);
    assert Apply(Apply(ir, e'), back) == TypeRemoved(AddGroup(ir, name), name);
    assert !Skips(ir, e) && !Skips(ir, e') && !Skips(Apply(ir, e), back) && !Skips(Apply(ir, e'), back)
      && CopiedEdit(back) == back;
    hide Apply, Skips, TypeRemoved, AddResource, AddGroup, Map, NoEmptyParent, JsonStable, Closed, TypeNames;
    AddedThenDropped(ir, name);
    Untouched(ir, name);
    TwoEdits(ir, e, back);
    TwoEdits(ir, e', back);
    hide Twice;
  }

  lemma RelationUntouched(r: ResourceType, relation: string, parent: string)
    requires relation !in ParentNames(r.parents)
    requires forall perm :: perm in r.permissions ==> relation !in perm.inheritFromParents
    ensures ParentDisconnected(relation, Some(parent))(ParentConnected(relation, parent)(r)) == r
  {
    var f := ParentCut(relation, Some(parent));
    var added := ParentRef(relation, [parent]);
    NameOf(r.parents, relation);
    assert ParentConnected(relation, parent)(r) == r.(parents := r.parents + [added]);
    FilterMapConcat(r.parents, [added], f);
    assert f(added).None? by {
      WithoutKeeps(parent, added);
      assert Filter([parent], Differs(parent)) == [];
    }
    assert FilterMap([added], f) == [];
    SelectedIdentity(r.parents, f);
    forall perm | perm in r.permissions ensures InheritsKept([relation])(perm) == perm {
      FilterAll(perm.inheritFromParents, rel => rel !in [relation]);
    }
    MapSame(r.permissions, InheritsKept([relation]));
    assert added in r.parents + [added];
  }

  /** What cutting leaves of a relation has types, and not the one cut. */
  lemma CutLeaves(ps: seq<ParentRef>, relation: string, parent: string, y: ParentRef)
    requires y in FilterMap(ps, ParentCut(relation, Some(parent))) && y.relationName == relation
    ensures y.parentTypes != [] && parent !in y.parentTypes
  {
    FilterMapMembers(ps, ParentCut(relation, Some(parent)), y);
    var p :| p in ps && ParentCut(relation, Some(parent))(p) == Some(y);
    WithoutKeeps(parent, p);
  }

  lemma {:induction false} UpdatedAndSelected<T(!new)>(s: seq<T>, p: T -> bool, extend: T -> T, f: T -> Option<T>)
    requires forall i, j :: 0 <= i < j < |s| ==> !(p(s[i]) && p(s[j]))
    requires forall x :: x in s && p(x) ==> f(extend(x)) == Some(x)
    requires forall x :: x in s && !p(x) ==> f(x) == Some(x)
    ensures FilterMap(UpdateFirst(s, p, extend), f) == s
  {
    if s != [] {
      var rest := s[1..];
      assert s == [s[0]] + rest && forall i :: 0 <= i < |rest| ==> rest[i] == s[i + 1];
      if p(s[0]) {
        forall x | x in rest ensures f(x) == Some(x) {
          var i :| 0 <= i < |rest| && rest[i] == x;
          assert !p(s[i + 1]);
        }
        SelectedIdentity(rest, f);
        assert ([extend(s[0])] + rest)[1..] == rest;
      } else {
        UpdatedAndSelected(rest, p, extend, f);
        var updated := UpdateFirst(rest, p, extend);
        assert ([s[0]] + updated)[1..] == updated;
      }
    }
  }

  lemma CutOfExtended(p: ParentRef, relation: string, parent: string)
    requires p.relationName == relation && parent !in p.parentTypes && p.parentTypes != []
    ensures ParentCut(relation, Some(parent))(ParentExtended(parent)(p)) == Some(p)
  {
    FilterConcat(p.parentTypes, [parent], Differs(parent));
    FilterAll(p.parentTypes, Differs(parent));
    assert Filter([parent], Differs(parent)) == [];
    assert p.parentTypes + [] == p.parentTypes;
    var q := ParentExtended(parent)(p);
    assert q == p.(parentTypes := p.parentTypes + [parent]) && Filter(q.parentTypes, Differs(parent)) == p.parentTypes;
    hide Filter;
    assert ParentWithout(parent)(q) == Some(p);
  }

  lemma ExtendedAndCut(ps: seq<ParentRef>, relation: string, parent: string)
    requires Distinct(ParentNames(ps))
    requires forall p :: p in ps && p.relationName == relation ==> p.parentTypes != [] && parent !in p.parentTypes
    ensures FilterMap(UpdateFirst(ps, ParentIs(relation), ParentExtended(parent)), ParentCut(relation, Some(parent))) ==
            ps
  {
    var f := ParentCut(relation, Some(parent));
    forall i, j | 0 <= i < j < |ps| ensures !(ps[i].relationName == relation && ps[j].relationName == relation) {
      assert ParentNames(ps)[i] != ParentNames(ps)[j];
    }
    assert forall p: ParentRef :: p.relationName != relation ==> f(p) == Some(p);
    hide ParentCut, ParentExtended, FilterMap, UpdateFirst, ParentNames, Distinct;
    forall p | p in ps && p.relationName == relation ensures f(ParentExtended(parent)(p)) == Some(p) {
      CutOfExtended(p, relation, parent);
    }
    UpdatedAndSelected(ps, ParentIs(relation), ParentExtended(parent), f);
  }

  /** The relation is new, or has a type already and not this one. */
  ghost predicate LinkIsNew(r: ResourceType, relation: string, parent: string) {
    forall p :: p in r.parents && p.relationName == relation ==> p.parentTypes != [] && parent !in p.parentTypes
  }

  lemma FoundParent(ps: seq<ParentRef>, relation: string)
    ensures Find(ps, ParentIs(relation)).Some? <==> relation in ParentNames(ps)
    ensures (exists p :: p in ps && p.relationName == relation) <==> relation in ParentNames(ps)
  {
    NameOf(ps, relation);
  }

  lemma CutNone(ps: seq<ParentRef>, f: ParentRef -> Option<ParentRef>)
    requires |FilterMap(ps, f)| == |ps|
    ensures forall p :: p in ps ==> f(p).Some?
  {
    NoneDropped(ps, f);
  }

  lemma {:induction false} NoneDropped<T>(s: seq<T>, f: T -> Option<T>)
    ensures |FilterMap(s, f)| <= |s| && (|FilterMap(s, f)| == |s| ==> forall x :: x in s ==> f(x).Some?)
  {
    if s != [] {
      NoneDropped(s[1..], f);
    }
  }

  /** One resource: disconnecting gives it back exactly when the link was new. */
  lemma LinkBack(r: ResourceType, relation: string, parent: string)
    requires Distinct(ParentNames(r.parents))
    requires forall perm, rel ::
            perm in r.permissions && rel in perm.inheritFromParents ==> rel in ParentNames(r.parents)
    ensures ParentDisconnected(relation, Some(parent))(ParentConnected(relation, parent)(r)) == r <==>
            LinkIsNew(r, relation, parent)
  {
    var there := ParentConnected(relation, parent)(r);
    var f := ParentCut(relation, Some(parent));
    var home := ParentDisconnected(relation, Some(parent))(there);
    FoundParent(r.parents, relation);
    if relation !in ParentNames(r.parents) {
      hide ParentNames, ParentConnected, ParentDisconnected, Find;
      RelationUntouched(r, relation, parent);
    } else {
      assert there == r.(parents := UpdateFirst(r.parents, ParentIs(relation), ParentExtended(parent)));
      assert home.parents == FilterMap(there.parents, f);
      var p := Find(r.parents, ParentIs(relation)).value;
      if LinkIsNew(r, relation, parent) {
        assert there.permissions == r.permissions;
        hide ParentNames, ParentConnected, FilterMap, UpdateFirst, ParentCut, Find;
        ExtendedAndCut(r.parents, relation, parent);
        CutNone(there.parents, f);
        assert home == there.(parents := home.parents);
      } else {
        hide ParentNames, ParentConnected, ParentDisconnected, FilterMap, UpdateFirst, ParentCut, Find;
        if home == r {
          forall q | q in r.parents && q.relationName == relation
            ensures q.parentTypes != [] && parent !in q.parentTypes {
            CutLeaves(there.parents, relation, parent, q);
          }
        }
      }
    }
  }

  lemma FoundStays(ir: ModelIR, typ: string, f: ResourceType -> ResourceType)
    requires forall r: ResourceType :: f(r).name == r.name
    requires Find(ir.resources, ResourceIs(typ)).Some?
    ensures Find(OnResource(ir, typ, f).resources, ResourceIs(typ)).Some?
  {
    UpdatedFound(ir.resources, ResourceIs(typ), f);
    hide Find, UpdateFirst;
  }

  /** Disconnecting a parent just connected gives the model back exactly when the link was new and JSON
      has all literals. */
  lemma DisconnectingUndoesConnecting(ir: ModelIR, child: string, parent: string, relation: string)
    requires Closed(ir)
    requires Find(ir.resources, ResourceIs(child)).Some? && Find(ir.resources, ResourceIs(parent)).Some?
    ensures Twice(ir, ConnectingParent(child, parent, relation), DisconnectingParent(child, relation, Some(parent))) ==
            ir
       <==> LinkIsNew(Find(ir.resources, ResourceIs(child)).value, relation, parent) && JsonStable(ir)
  {
    var (e, back) := (ConnectingParent(child, parent, relation), DisconnectingParent(child, relation, Some(parent)));
    var (f, g) := (ParentConnected(relation, parent), ParentDisconnected(relation, Some(parent)));
    var r := Find(ir.resources, ResourceIs(child)).value;
    hide *;
    FoundClosed(ir, child);
    InheritsKnown(r, GroupsOf(ir), TypesOf(ir), CondsOf(ir));
    ConnectedName(relation, parent);
    ConnectingEdits(ir, child, parent, relation);
    LinkBack(r, relation, parent);
    ResourceBack(ir, child, f, g);
    TwoEdits(ir, e, back);
  }

  lemma ConnectedName(relation: string, parent: string)
    ensures forall x: ResourceType :: ParentConnected(relation, parent)(x).name == x.name
  {
  }

  /** Neither edit is refused; each changes the one resource. */
  lemma ConnectingEdits(ir: ModelIR, child: string, parent: string, relation: string)
    requires Find(ir.resources, ResourceIs(child)).Some? && Find(ir.resources, ResourceIs(parent)).Some?
    ensures var (e, back) :=
            (ConnectingParent(child, parent, relation), DisconnectingParent(child, relation, Some(parent)));
            var there := OnResource(ir, child, ParentConnected(relation, parent));
            var home := OnResource(there, child, ParentDisconnected(relation, Some(parent)));
            && !Skips(ir, e) && !Skips(there, back) && CopiedEdit(back) == back
            && Apply(ir, e) == there && Apply(there, back) == home && ConditionsSame(home, ir)
  {
    var there := OnResource(ir, child, ParentConnected(relation, parent));
    var back := DisconnectingParent(child, relation, Some(parent));
    ConnectedName(relation, parent);
    hide ParentConnected, ParentDisconnected, Find, UpdateFirst;
    FoundStays(ir, child, ParentConnected(relation, parent));
    assert there.conditions == ir.conditions;
  }

  lemma InheritsKnown(r: ResourceType, gs: set<string>, ts: set<string>, cs: set<string>)
    requires ResourceClosed(r, gs, ts, cs)
    ensures Distinct(ParentNames(r.parents))
    ensures forall perm, rel ::
            perm in r.permissions && rel in perm.inheritFromParents ==> rel in ParentNames(r.parents)
  {
    hide RefsClosed, ParentClosed;
  }

  // ---------------------------------------------------------------------------
  // Renaming back.

  lemma SubjectRenamedBack(ref: SubjectRef, from: string, to: string)
    requires ref.condition != Some(to)
    ensures SubjectRenamed(to, from)(SubjectRenamed(from, to)(ref)) == ref
  {
  }

  lemma {:induction false} MapBack<T>(s: seq<T>, f: T -> T, g: T -> T)
    requires forall x :: x in s ==> g(f(x)) == x
    ensures Map(Map(s, f), g) == s
  {
    forall i | 0 <= i < |s| ensures Map(Map(s, f), g)[i] == s[i] {
      assert s[i] in s;
    }
  }

  lemma SubjectsRenamedBack(ir: ModelIR, from: string, to: string)
    requires forall ref :: Refers(ir, ref) ==> ref.condition != Some(to)
    ensures MapSubjects(MapSubjects(ir, SubjectRenamed(from, to)), SubjectRenamed(to, from)) == ir
  {
    var (f, g) := (SubjectRenamed(from, to), SubjectRenamed(to, from));
    hide Map, SubjectRenamed;
    forall x | x in ir.groups ensures MembersMapped(g)(MembersMapped(f)(x)) == x {
      forall ref | ref in x.memberTypes ensures g(f(ref)) == ref {
        assert Refers(ir, ref);
        SubjectRenamedBack(ref, from, to);
      }
      MapBack(x.memberTypes, f, g);
    }
    MapBack(ir.groups, MembersMapped(f), MembersMapped(g));
    forall r | r in ir.resources ensures AssignmentsMapped(g)(AssignmentsMapped(f)(r)) == r {
      forall role | role in r.roles ensures RoleMapped(g)(RoleMapped(f)(role)) == role {
        forall ref | ref in role.assignableBy ensures g(f(ref)) == ref {
          assert Refers(ir, ref);
          SubjectRenamedBack(ref, from, to);
        }
        MapBack(role.assignableBy, f, g);
      }
      MapBack(r.roles, RoleMapped(f), RoleMapped(g));
    }
    MapBack(ir.resources, AssignmentsMapped(f), AssignmentsMapped(g));
  }

  lemma ConditionsRenamedBack(cs: seq<ConditionDef>, from: string, to: string)
    requires to !in ConditionNames(cs)
    ensures Map(Map(cs, ConditionRenamed(from, to)), ConditionRenamed(to, from)) == cs
  {
    var (f, g) := (ConditionRenamed(from, to), ConditionRenamed(to, from));
    forall c | c in cs ensures g(f(c)) == c {
      var i :| 0 <= i < |cs| && cs[i] == c;
      assert ConditionNames(cs)[i] == c.name && c.name != to;
      assert Renamed(from, to)(c.name) == if c.name == from then to else c.name;
      assert Renamed(to, from)(f(c).name) == c.name;
    }
    hide Map, ConditionRenamed, ConditionNames;
    MapBack(cs, f, g);
  }

  /** Renaming a condition and back gives the model back exactly when JSON has all literals. */
  lemma RenamingBack(ir: ModelIR, from: string, to: string)
    requires Closed(ir) && from != to && from in CondsOf(ir) && to !in CondsOf(ir)
    ensures Twice(ir, RenamingCondition(from, to), RenamingCondition(to, from)) == ir <==> JsonStable(ir)
  {
    var (e, back) := (RenamingCondition(from, to), RenamingCondition(to, from));
    hide *;
    RenamedBack(ir, from, to);
    RenamingEdits(ir, from, to);
    SameConditions(ir);
    TwoEdits(ir, e, back);
  }

  /** Neither edit is refused. */
  lemma RenamingEdits(ir: ModelIR, from: string, to: string)
    requires Closed(ir) && from != to && from in CondsOf(ir) && to !in CondsOf(ir)
    ensures var (e, back) := (RenamingCondition(from, to), RenamingCondition(to, from));
            var there := WithConditionRenamed(ir, from, to);
            && !Skips(ir, e) && !Skips(there, back) && CopiedEdit(back) == back
            && Apply(ir, e) == there && Apply(there, back) == WithConditionRenamed(there, to, from)
  {
    var there := WithConditionRenamed(ir, from, to);
    NamesRenamed(ir, from, to);
    hide Closed, WithConditionRenamed, ConditionsOf, ConditionNames, CondsOf;
    KnownCondition(ir, from);
    KnownCondition(ir, to);
    KnownCondition(there, from);
    KnownCondition(there, to);
  }

  lemma KnownCondition(ir: ModelIR, name: string)
    ensures name in CondsOf(ir) <==> name in ConditionNames(ConditionsOf(ir))
  {
  }

  lemma SameConditions(ir: ModelIR)
    ensures ConditionsSame(ir, ir)
  {
  }

  lemma NamesRenamed(ir: ModelIR, from: string, to: string)
    requires Closed(ir) && from != to && from in CondsOf(ir) && to !in CondsOf(ir)
    ensures CondsOf(WithConditionRenamed(ir, from, to)) == CondsOf(ir) - {from} + {to}
  {
    var there := WithConditionRenamed(ir, from, to);
    assert ConditionsOf(there) == Map(ConditionsOf(ir), ConditionRenamed(from, to));
    assert Distinct(ConditionNames(ConditionsOf(ir)));
    hide WithConditionRenamed, Map, Closed, Distinct;
    RenamedConditionNames(ConditionsOf(ir), from, to);
  }

  lemma RenamedBack(ir: ModelIR, from: string, to: string)
    requires Closed(ir) && from != to && from in CondsOf(ir) && to !in CondsOf(ir)
    ensures WithConditionRenamed(WithConditionRenamed(ir, from, to), to, from) == ir
  {
    var cs := ConditionsOf(ir);
    var renamed := Map(cs, ConditionRenamed(from, to));
    var there := WithConditionRenamed(ir, from, to);
    assert there == MapSubjects(ir.(conditions := Some(renamed)), SubjectRenamed(from, to));
    RenamedConditionNames(cs, from, to);
    assert CondsOf(there) == CondsOf(ir) - {from} + {to} && ConditionsOf(there) == renamed;
    RefersToKnown(ir);
    ConditionsRenamedBack(cs, from, to);
    SubjectsRenamedBack(ir, from, to);
    hide Closed, Map, SubjectRenamed, ConditionRenamed, CondsOf;
    assert WithConditionRenamed(there, to, from) ==
           MapSubjects(there.(conditions :=
             Some(Map(renamed, ConditionRenamed(to, from)))), SubjectRenamed(to, from)) by {
      RenamingApplies(there, to, from);
    }
  }

  lemma RenamingApplies(ir: ModelIR, from: string, to: string)
    requires from != to && from in CondsOf(ir) && to !in CondsOf(ir)
    ensures WithConditionRenamed(ir, from, to) ==
            MapSubjects(ir.(conditions :=
              Some(Map(ConditionsOf(ir), ConditionRenamed(from, to)))), SubjectRenamed(from, to))
  {
    hide Map, MapSubjects;
  }
}
