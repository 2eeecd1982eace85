/** An edit of a copy is a copy of the edit, so what an edit changes can be told apart from what copying changes. */
module EditCopy {
  import opened Prelude
  import opened Sorting
  import opened Condition
  import opened ModelIr
  import opened JsonCopy
  import opened Edit

  lemma {:induction false} UpdateFirstSame<T(!new)>(s: seq<T>, p: T -> bool, f: T -> T)
    requires Find(s, p).Some? ==> f(Find(s, p).value) == Find(s, p).value
    ensures UpdateFirst(s, p, f) == s
  {
    if s != [] && !p(s[0]) {
      UpdateFirstSame(s[1..], p, f);
    }
  }

  lemma UnchangedResource(ir: ModelIR, typ: string, f: ResourceType -> ResourceType)
    requires var r := Find(ir.resources, ResourceIs(typ)); r.Some? ==> f(r.value) == r.value
    ensures OnResource(ir, typ, f) == ir
  {
    UpdateFirstSame(ir.resources, ResourceIs(typ), f);
  }

  lemma UnchangedPermission(ir: ModelIR, typ: string, name: string, f: Permission -> Permission)
    requires LacksPermission(ir, typ, name)
    ensures OnResource(ir, typ, OnPermission(name, f)) == ir
  {
    var r := Find(ir.resources, ResourceIs(typ));
    if r.Some? {
      FoundPermission(r.value.permissions, name);
      hide Find;
      UpdateFirstSame(r.value.permissions, PermissionIs(name), f);
      assert OnPermission(name, f)(r.value) == r.value;
    }
    hide OnPermission, Find, OnResource;
    UnchangedResource(ir, typ, OnPermission(name, f));
  }

  lemma UnchangedRole(ir: ModelIR, typ: string, name: string, f: Role -> Role)
    requires var r := Find(ir.resources, ResourceIs(typ));
             r.Some? ==> var role := Find(r.value.roles, RoleIs(name)); role.Some? ==> f(role.value) == role.value
    ensures OnResource(ir, typ, OnRole(name, f)) == ir
  {
    var r := Find(ir.resources, ResourceIs(typ));
    if r.Some? {
      hide Find;
      UpdateFirstSame(r.value.roles, RoleIs(name), f);
      assert OnRole(name, f)(r.value) == r.value;
    }
    hide OnRole, Find, OnResource;
    UnchangedResource(ir, typ, OnRole(name, f));
  }

  lemma FoundPermission(ps: seq<Permission>, name: string)
    ensures Find(ps, PermissionIs(name)).Some? <==> name in PermissionNames(ps)
  {
    if name in PermissionNames(ps) {
      var i :| 0 <= i < |ps| && PermissionNames(ps)[i] == name;
      assert ps[i] in ps;
    }
    if Find(ps, PermissionIs(name)).Some? {
      var i :| 0 <= i < |ps| && ps[i] == Find(ps, PermissionIs(name)).value;
      assert PermissionNames(ps)[i] == name;
    }
  }

  lemma FoundRole(rs: seq<Role>, name: string)
    ensures Find(rs, RoleIs(name)).Some? <==> name in RoleNames(rs)
  {
    if name in RoleNames(rs) {
      var i :| 0 <= i < |rs| && RoleNames(rs)[i] == name;
      assert rs[i] in rs;
    }
    if Find(rs, RoleIs(name)).Some? {
      var i :| 0 <= i < |rs| && rs[i] == Find(rs, RoleIs(name)).value;
      assert RoleNames(rs)[i] == name;
    }
  }

  /** No permission of the name: renaming it renames nothing. */
  lemma NothingToRename(ps: seq<Permission>, from: string, to: string)
    requires from !in PermissionNames(ps)
    ensures Map(ps, PermissionRenamed(from, to)) == ps
  {
    forall p | p in ps ensures PermissionRenamed(from, to)(p) == p {
      var i :| 0 <= i < |ps| && ps[i] == p;
      assert PermissionNames(ps)[i] == p.name;
      assert Renamed(from, to)(p.name) == p.name;
    }
    MapSame(ps, PermissionRenamed(from, to));
  }

  lemma SkippedMatrix(ir: ModelIR, e: Operation)
    requires e.TogglingCell? || e.TogglingInherit? || e.AddingPermission? || e.RemovingPermission?
            || e.RenamingPermission?
    requires Skips(ir, e)
    ensures Apply(ir, e) == ir
  {
    var r := Find(ir.resources, ResourceIs(e.typ));
    match e
    case TogglingCell(typ, permission, role) =>
      hide OnPermission, GrantToggled, Find, LacksPermission;
      UnchangedPermission(ir, typ, permission, GrantToggled(role));
    case TogglingInherit(typ, permission, relation) =>
      hide OnPermission, InheritToggled, Find, LacksPermission;
      UnchangedPermission(ir, typ, permission, InheritToggled(relation));
    case AddingPermission(typ, name) =>
      hide Find;
      UnchangedResource(ir, typ, PermissionAdded(name));
    case RemovingPermission(typ, name) =>
      hide PermissionRemoved, Find;
      UnchangedResource(ir, typ, PermissionRemoved(name));
    case RenamingPermission(typ, from, to) =>
      if r.Some? {
        NothingToRename(r.value.permissions, from, to);
        assert PermissionsRenamed(from, to)(r.value) == r.value;
      }
      hide PermissionsRenamed, Find, Map;
      UnchangedResource(ir, typ, PermissionsRenamed(from, to));
  }

  lemma SkippedRoles(ir: ModelIR, e: Operation)
    requires e.AddingRole? || e.RemovingRole? || e.RenamingRole? || e.SettingSubjects? || e.SettingCondition?
    requires Skips(ir, e)
    ensures Apply(ir, e) == ir
  {
    var r := Find(ir.resources, ResourceIs(e.typ));
    match e
    case AddingRole(typ, name) =>
      hide Find;
      UnchangedResource(ir, typ, RoleAdded(name));
    case RemovingRole(typ, name) =>
      hide RoleRemoved, Find;
      UnchangedResource(ir, typ, RoleRemoved(name));
    case RenamingRole(typ, from, to) =>
      hide Find, Map;
      UnchangedResource(ir, typ, RolesRenamed(from, to));
    case SettingSubjects(typ, role, refs) =>
      if r.Some? {
        FoundRole(r.value.roles, role);
      }
      hide Find, OnRole, RoleNames;
      UnchangedRole(ir, typ, role, SubjectsSet(refs));
    case SettingCondition(typ, role, index, condition) =>
      hide Find, OnRole;
      UnchangedRole(ir, typ, role, SubjectConditioned(index, condition));
  }

  /** Where an edit gives back its argument, there is nothing it would have changed. */
  lemma SkippedIsUnchanged(ir: ModelIR, e: Operation)
    requires Skips(ir, e)
    ensures Apply(ir, e) == ir
  {
    if e.TogglingCell? || e.TogglingInherit? || e.AddingPermission? || e.RemovingPermission? || e.RenamingPermission? {
      SkippedMatrix(ir, e);
    } else if e.AddingRole? || e.RemovingRole? || e.RenamingRole? || e.SettingSubjects? || e.SettingCondition? {
      SkippedRoles(ir, e);
    } else if e.DisconnectingParent? {
      hide ParentDisconnected, Find;
      UnchangedResource(ir, e.child, ParentDisconnected(e.relation, e.only));
    }
  }

  // ---------------------------------------------------------------------------
  // Copying first or last.

  lemma {:induction false} MapSwaps<T>(s: seq<T>, f: T -> T, g: T -> T, h: T -> T)
    requires forall x :: x in s ==> g(f(x)) == f(h(x))
    ensures Map(Map(s, f), g) == Map(Map(s, h), f)
  {
    forall i | 0 <= i < |s| ensures Map(Map(s, f), g)[i] == Map(Map(s, h), f)[i] {
      assert s[i] in s;
    }
  }

  lemma {:induction false} FilterSwaps<T(!new)>(s: seq<T>, f: T -> T, keep: T -> bool)
    requires forall x :: keep(f(x)) <==> keep(x)
    ensures Filter(Map(s, f), keep) == Map(Filter(s, keep), f)
  {
    if s != [] {
      FilterSwaps(s[1..], f, keep);
      assert Map(s, f) == [f(s[0])] + Map(s[1..], f);
      FilterCons(f(s[0]), Map(s[1..], f), keep);
      if keep(s[0]) {
        MapCons(s[0], Filter(s[1..], keep), f);
      }
    }
  }

  lemma AddedCopyCommutes(ir: ModelIR, def: ConditionDef)
    ensures AddCondition(Copied(ir), CopiedDef(def)) == Copied(AddCondition(ir, def))
  {
    var cs := ConditionsOf(ir);
    CopiedNames(cs);
    MapConcat(cs, [def], CopiedDef);
    assert Map([def], CopiedDef) == [CopiedDef(def)];
    hide ConditionNames, CopiedNode, Map;
  }

  lemma UpdatedCopyCommutes(ir: ModelIR, name: string, def: ConditionDef)
    ensures UpdateCondition(Copied(ir), name, CopiedDef(def)) == Copied(UpdateCondition(ir, name, def))
  {
    var cs := ConditionsOf(ir);
    CopiedNames(cs);
    MapSwaps(cs, CopiedDef, Replaced(name, CopiedDef(def)), Replaced(name, def));
    hide ConditionNames, CopiedNode, Map;
  }

  lemma RenamedCopyCommutes(ir: ModelIR, from: string, to: string)
    ensures WithConditionRenamed(Copied(ir), from, to) == Copied(WithConditionRenamed(ir, from, to))
  {
    var cs := ConditionsOf(ir);
    hide Renamed, ConditionNames, CopiedNode;
    CopiedNames(cs);
    MapSwaps(cs, CopiedDef, ConditionRenamed(from, to), ConditionRenamed(from, to));
    hide Map;
  }

  lemma RemovedCopyCommutes(ir: ModelIR, name: string)
    ensures WithoutCondition(Copied(ir), name) == Copied(WithoutCondition(ir, name))
  {
    var cs := ConditionsOf(ir);
    hide ConditionNames, CopiedNode;
    CopiedNames(cs);
    FilterSwaps(cs, CopiedDef, (c: ConditionDef) => c.name != name);
    hide Map, Filter;
  }

  /** Editing a copy and copying what was edited are the same. */
  lemma CopyCommutes(ir: ModelIR, e: Operation)
    ensures Apply(Copied(ir), CopiedEdit(e)) == Copied(Apply(ir, e))
  {
    match e
    case AddingCondition(def) => AddedCopyCommutes(ir, def);
    case UpdatingCondition(name, def) => UpdatedCopyCommutes(ir, name, def);
    case RenamingCondition(from, to) => RenamedCopyCommutes(ir, from, to);
    case RemovingCondition(name) => RemovedCopyCommutes(ir, name);
    case _ => hide Map, Filter, FilterMap, UpdateFirst, Find, TypeNames;
  }

  lemma CopySkips(ir: ModelIR, e: Operation)
    ensures Skips(Copied(ir), CopiedEdit(e)) <==> Skips(ir, e)
    ensures Skips(Copied(ir), e) <==> Skips(ir, e)
  {
    CopiedNames(ConditionsOf(ir));
    hide ConditionNames, Find, Map, CopiedNode;
  }

  /** An edit gives back its argument, or a copy of what it changes there. */
  lemma EditedIsCopied(ir: ModelIR, e: Operation)
    ensures Edited(ir, e) == if Skips(ir, e) then ir else Copied(Apply(ir, e))
  {
    hide Apply, Skips, Copied;
    CopyCommutes(ir, e);
  }
}
