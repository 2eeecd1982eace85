/**
  What each edit changes, stated without the code: a model is read as the set of facts that it states,
  each edit has a declarative description of the facts that hold afterwards, and the edited model
  states exactly those.
*/
module EditFacts {
  import opened Prelude
  import opened Sorting
  import opened Condition
  import opened ModelIr
  import opened JsonCopy
  import opened Edit
  import opened EditCopy
  import opened EditSafety

  /** What a resource states. */
  datatype Local =
    | Link(relation: string, parent: string)
    | HasRole(role: string)
    | Assigned(role: string, ref: SubjectRef)
    | HasPerm(perm: string)
    | Grants(perm: string, role: string)
    | Inherits(perm: string, relation: string)

  datatype Fact =
    | IsGroup(name: string)
    | IsMember(group: string, ref: SubjectRef)
    | IsResource(name: string)
    | On(typ: string, local: Local)
    | IsCondition(def: ConditionDef)

  ghost predicate SaysLocal(r: ResourceType, l: Local) {
    match l
    case Link(relation, parent) => exists p :: p in r.parents && p.relationName == relation && parent in p.parentTypes
    case HasRole(role) => exists x :: x in r.roles && x.name == role
    case Assigned(role, ref) => exists x :: x in r.roles && x.name == role && ref in x.assignableBy
    case HasPerm(perm) => exists p :: p in r.permissions && p.name == perm
    case Grants(perm, role) => exists p :: p in r.permissions && p.name == perm && role in p.grantedByRoles
    case Inherits(perm, relation) => exists p ::
      p in r.permissions && p.name == perm && relation in p.inheritFromParents
  }

  ghost predicate Says(ir: ModelIR, fact: Fact) {
    match fact
    case IsGroup(name) => exists g :: g in ir.groups && g.name == name
    case IsMember(group, ref) => exists g :: g in ir.groups && g.name == group && ref in g.memberTypes
    case IsResource(name) => exists r :: r in ir.resources && r.name == name
    case On(typ, l) => exists r :: r in ir.resources && r.name == typ && SaysLocal(r, l)
    case IsCondition(def) => def in ConditionsOf(ir)
  }

  /** Closed, and with distinct role and permission names on each resource. */
  ghost predicate Neat(ir: ModelIR) {
    Closed(ir) && forall r :: r in ir.resources ==> NeatResource(r)
  }

  ghost predicate NeatResource(r: ResourceType) {
    Distinct(ParentNames(r.parents)) && Distinct(RoleNames(r.roles)) && Distinct(PermissionNames(r.permissions))
  }

  // ---------------------------------------------------------------------------
  // What holds after an edit, in terms of what held before.

  ghost predicate HasType(ir: ModelIR, name: string) {
    Says(ir, IsGroup(name)) || Says(ir, IsResource(name))
  }

  predicate RefersTo(ref: SubjectRef, group: string) {
    ref.Group? && ref.group == group
  }

  predicate Mentions(fact: Fact, name: string) {
    match fact
    case IsGroup(n) => n == name
    case IsMember(group, ref) => group == name || RefersTo(ref, name)
    case IsResource(n) => n == name
    case On(typ, l) => typ == name || (l.Link? && l.parent == name) || (l.Assigned? && RefersTo(l.ref, name))
    case IsCondition(_) => false
  }

  /** The last link of the relation goes with this one. */
  ghost predicate LastLink(ir: ModelIR, typ: string, relation: string, only: Option<string>) {
    only.None? || forall x :: Says(ir, On(typ, Link(relation, x))) ==> x == only.value
  }

  predicate ConcernsRole(l: Local, role: string) {
    (l.HasRole? || l.Assigned? || l.Grants?) && l.role == role
  }

  predicate ConcernsPermission(l: Local, perm: string) {
    (l.HasPerm? || l.Grants? || l.Inherits?) && l.perm == perm
  }

  function WithRole(l: Local, from: string, to: string): Local {
    if ConcernsRole(l, from) then l.(role := to) else l
  }

  function WithPerm(l: Local, from: string, to: string): Local {
    if ConcernsPermission(l, from) then l.(perm := to) else l
  }

  function WithSubject(fact: Fact, f: SubjectRef -> SubjectRef): Fact {
    match fact
    case IsMember(group, ref) => IsMember(group, f(ref))
    case On(typ, Assigned(role, ref)) => On(typ, Assigned(role, f(ref)))
    case _ => fact
  }

  ghost predicate Knows(ir: ModelIR, condition: string) {
    exists def :: Says(ir, IsCondition(def)) && def.name == condition
  }

  /** What stays when a type goes: no mention of it, and no inheritance along a relation that led only there. */
  ghost predicate StaysWithout(ir: ModelIR, name: string, fact: Fact) {
    && Says(ir, fact) && !Mentions(fact, name)
    && (fact.On? && fact.local.Inherits? ==>
         exists x :: x != name && Says(ir, On(fact.typ, Link(fact.local.relation, x))))
  }

  /** What stays when a parent is cut off: not the link, nor inheritance along the relation if that was
      the last link. */
  ghost predicate StaysCut(ir: ModelIR, child: string, relation: string, only: Option<string>, fact: Fact) {
    && Says(ir, fact)
    && (fact.On? && fact.typ == child ==>
          && !(fact.local.Link? && fact.local.relation == relation && (only.Some? ==> fact.local.parent == only.value))
          && !(fact.local.Inherits? && fact.local.relation == relation && LastLink(ir, child, relation, only)))
  }

  ghost predicate HoldsAfter(ir: ModelIR, e: Operation, fact: Fact) {
    match e
    case AddingResource(name) => Says(ir, fact) || (!HasType(ir, name) && fact == IsResource(name))
    case AddingGroup(name) =>
      Says(ir, fact) || (!HasType(ir, name) && (fact == IsGroup(name) || fact == IsMember(name, User(None))))
    case RemovingType(name) => StaysWithout(ir, name, fact)
    case ConnectingParent(child, parent, relation) =>
      Says(ir, fact)
        || (Says(ir, IsResource(child)) && Says(ir, IsResource(parent)) && fact == On(child, Link(relation, parent)))
    case DisconnectingParent(child, relation, only) => StaysCut(ir, child, relation, only, fact)
    case TogglingCell(typ, perm, role) =>
      if fact == On(typ, Grants(perm, role)) then Says(ir, On(typ, HasPerm(perm))) && !Says(ir, fact)
      else Says(ir, fact)
    case AddingRole(typ, name) =>
      Says(ir, fact) || (Says(ir, IsResource(typ)) && !Says(ir, On(typ, HasRole(name)))
                         && (fact == On(typ, HasRole(name)) || fact == On(typ, Assigned(name, User(None)))))
    case RemovingRole(typ, name) => Says(ir, fact) && !(fact.On? && fact.typ == typ && ConcernsRole(fact.local, name))
    case RenamingRole(typ, from, to) =>
      if fact.On? && fact.typ == typ && Says(ir, On(typ, HasRole(from)))
      then exists l :: Says(ir, On(typ, l)) && WithRole(l, from, to) == fact.local else Says(ir, fact)
    case SettingSubjects(typ, role, refs) =>
      if fact.On? && fact.typ == typ && fact.local.Assigned? && fact.local.role == role
      then Says(ir, On(typ, HasRole(role))) && fact.local.ref in refs else Says(ir, fact)
    case AddingPermission(typ, name) => Says(ir, fact) || (Says(ir, IsResource(typ)) && fact == On(typ, HasPerm(name)))
    case RemovingPermission(typ, name) => Says(ir, fact)
      && !(fact.On? && fact.typ == typ && ConcernsPermission(fact.local, name))
    case RenamingPermission(typ, from, to) =>
      if fact.On? && fact.typ == typ
      then exists l :: Says(ir, On(typ, l)) && WithPerm(l, from, to) == fact.local else Says(ir, fact)
    case TogglingInherit(typ, perm, relation) =>
      if fact == On(typ, Inherits(perm, relation)) then Says(ir, On(typ, HasPerm(perm))) && !Says(ir, fact)
      else Says(ir, fact)
    case AddingCondition(def) => Says(ir, fact) || (!Knows(ir, def.name) && fact == IsCondition(def))
    case UpdatingCondition(name, def) =>
      if fact.IsCondition? then (Says(ir, fact) && fact.def.name != name) || (fact.def == def && Knows(ir, name))
      else Says(ir, fact)
    case RenamingCondition(from, to) =>
      if from == to || !Knows(ir, from) || Knows(ir, to) then Says(ir, fact)
      else if fact.IsCondition? then exists def ::
        Says(ir, IsCondition(def)) && fact.def == ConditionRenamed(from, to)(def)
      else exists before ::
        Says(ir, before) && !before.IsCondition? && WithSubject(before, SubjectRenamed(from, to)) == fact
    case RemovingCondition(name) =>
      if !Knows(ir, name) then Says(ir, fact)
      else if fact.IsCondition? then Says(ir, fact) && fact.def.name != name
      else exists before :: Says(ir, before) && !before.IsCondition? && WithSubject(before, Unconditioned(name)) == fact
    case SettingCondition(typ, role, index, condition) =>
      if fact.On? && fact.typ == typ && fact.local.Assigned? && fact.local.role == role
      then Reassigned(ir, typ, role, index, condition, fact.local.ref) else Says(ir, fact)
  }

  /** ref is assigned once the assignment at that index has the condition. */
  ghost predicate Reassigned(ir: ModelIR, typ: string, role: string, index: int, condition: Option<string>,
      ref: SubjectRef) {
    exists r, x ::
      r in ir.resources && r.name == typ && x in r.roles && x.name == role && AssignedWith(x, index, condition, ref)
  }

  ghost predicate AssignedWith(x: Role, index: int, condition: Option<string>, ref: SubjectRef) {
    exists k ::
      0 <= k < |x.assignableBy| &&
      ref == if k == index then x.assignableBy[k].(condition := condition) else x.assignableBy[k]
  }

  // ---------------------------------------------------------------------------
  // One resource.

  lemma {:induction false} UpdatedMembers<T(!new)>(s: seq<T>, p: T -> bool, f: T -> T, y: T)
    requires forall x, z :: x in s && z in s && p(x) && p(z) ==> x == z
    requires forall i, j :: 0 <= i < j < |s| ==> !(p(s[i]) && p(s[j]))
    ensures y in UpdateFirst(s, p, f) <==> (y in s && !p(y)) || exists x :: x in s && p(x) && y == f(x)
  {
    if s != [] {
      var rest := s[1..];
      assert s == [s[0]] + rest;
      assert forall i :: 0 <= i < |rest| ==> rest[i] == s[i + 1];
      if p(s[0]) {
        forall x | x in rest ensures !p(x) {
          var i :| 0 <= i < |rest| && rest[i] == x;
          assert p(s[0]) && s[i + 1] == x;
        }
      } else {
        UpdatedMembers(rest, p, f, y);
      }
    }
  }

  lemma ResourcesUnique(ir: ModelIR)
    requires Closed(ir)
    ensures forall x, y :: x in ir.resources && y in ir.resources && x.name == y.name ==> x == y
    ensures forall i, j :: 0 <= i < j < |ir.resources| ==> ir.resources[i].name != ir.resources[j].name
  {
    var names := ResourceNames(ir.resources);
    assert Distinct(names) by {
      DistinctParts(GroupNames(ir.groups), names);
    }
    forall x, y | x in ir.resources && y in ir.resources && x.name == y.name ensures x == y {
      var i :| 0 <= i < |ir.resources| && ir.resources[i] == x;
      var j :| 0 <= j < |ir.resources| && ir.resources[j] == y;
      assert names[i] == names[j];
    }
    forall i, j | 0 <= i < j < |ir.resources| ensures ir.resources[i].name != ir.resources[j].name {
      assert names[i] != names[j];
    }
  }

  lemma ChangedMember(ir: ModelIR, typ: string, f: ResourceType -> ResourceType, y: ResourceType)
    requires Closed(ir)
    ensures y in OnResource(ir, typ, f).resources <==>
            (y in ir.resources && y.name != typ) || exists x :: x in ir.resources && x.name == typ && y == f(x)
  {
    ResourcesUnique(ir);
    hide Closed, UpdateFirst;
    UpdatedMembers(ir.resources, ResourceIs(typ), f, y);
  }

  /** Changing one resource changes what it states and nothing else. */
  lemma OnResourceFacts(ir: ModelIR, typ: string, f: ResourceType -> ResourceType, fact: Fact)
    requires Closed(ir) && forall r :: f(r).name == r.name
    ensures Says(OnResource(ir, typ, f), fact) <==>
            if fact.On? && fact.typ == typ
              then exists r :: r in ir.resources && r.name == typ && SaysLocal(f(r), fact.local)
            else Says(ir, fact)
  {
    var there := OnResource(ir, typ, f);
    assert there == ir.(resources := there.resources);
    hide Closed, SaysLocal, OnResource;
    if fact.IsResource? || fact.On? {
      var name := if fact.IsResource? then fact.name else fact.typ;
      if y :| y in there.resources && y.name == name && (fact.On? ==> SaysLocal(y, fact.local)) {
        ChangedMember(ir, typ, f, y);
      }
      if x :| x in ir.resources && x.name == name &&
              (fact.On? ==> SaysLocal(if name == typ then f(x) else x, fact.local)) {
        var y := if name == typ then f(x) else x;
        ChangedMember(ir, typ, f, y);
        assert y in there.resources && y.name == name;
      }
    }
  }

  /** The one resource of a type decides what is stated on the type. */
  lemma OnType(ir: ModelIR, r: ResourceType, l: Local)
    requires Closed(ir) && r in ir.resources
    ensures Says(ir, On(r.name, l)) <==> SaysLocal(r, l)
  {
    ResourcesUnique(ir);
    hide Closed, SaysLocal;
  }

  lemma NeatParents(r: ResourceType)
    requires NeatResource(r)
    ensures forall x, y :: x in r.parents && y in r.parents && x.relationName == y.relationName ==> x == y
    ensures forall i, j :: 0 <= i < j < |r.parents| ==> r.parents[i].relationName != r.parents[j].relationName
  {
    var names := ParentNames(r.parents);
    forall x, y | x in r.parents && y in r.parents && x.relationName == y.relationName ensures x == y {
      var i :| 0 <= i < |r.parents| && r.parents[i] == x;
      var j :| 0 <= j < |r.parents| && r.parents[j] == y;
      assert names[i] == names[j];
    }
    forall i, j | 0 <= i < j < |r.parents| ensures r.parents[i].relationName != r.parents[j].relationName {
      assert names[i] != names[j];
    }
  }

  lemma NeatRoles(r: ResourceType)
    requires NeatResource(r)
    ensures forall x, y :: x in r.roles && y in r.roles && x.name == y.name ==> x == y
    ensures forall i, j :: 0 <= i < j < |r.roles| ==> r.roles[i].name != r.roles[j].name
  {
    var names := RoleNames(r.roles);
    forall x, y | x in r.roles && y in r.roles && x.name == y.name ensures x == y {
      var i :| 0 <= i < |r.roles| && r.roles[i] == x;
      var j :| 0 <= j < |r.roles| && r.roles[j] == y;
      assert names[i] == names[j];
    }
    forall i, j | 0 <= i < j < |r.roles| ensures r.roles[i].name != r.roles[j].name {
      assert names[i] != names[j];
    }
  }

  lemma NeatPermissions(r: ResourceType)
    requires NeatResource(r)
    ensures forall x, y :: x in r.permissions && y in r.permissions && x.name == y.name ==> x == y
    ensures forall i, j :: 0 <= i < j < |r.permissions| ==> r.permissions[i].name != r.permissions[j].name
  {
    var names := PermissionNames(r.permissions);
    forall x, y | x in r.permissions && y in r.permissions && x.name == y.name ensures x == y {
      var i :| 0 <= i < |r.permissions| && r.permissions[i] == x;
      var j :| 0 <= j < |r.permissions| && r.permissions[j] == y;
      assert names[i] == names[j];
    }
    forall i, j | 0 <= i < j < |r.permissions| ensures r.permissions[i].name != r.permissions[j].name {
      assert names[i] != names[j];
    }
  }

  lemma ExtendedParents(r: ResourceType, relation: string, parent: string, y: ParentRef)
    requires NeatResource(r)
    ensures y in UpdateFirst(r.parents, ParentIs(relation), ParentExtended(parent)) <==>
            (y in r.parents && y.relationName != relation)
              || exists x :: x in r.parents && x.relationName == relation && y == ParentExtended(parent)(x)
  {
    NeatParents(r);
    hide NeatResource, UpdateFirst;
    UpdatedMembers(r.parents, ParentIs(relation), ParentExtended(parent), y);
  }

  lemma ConnectedLocal(r: ResourceType, relation: string, parent: string, l: Local)
    requires NeatResource(r)
    ensures SaysLocal(ParentConnected(relation, parent)(r), l) <==> SaysLocal(r, l) || l == Link(relation, parent)
  {
    var there := ParentConnected(relation, parent)(r);
    if l.Link? {
      if exists p :: p in r.parents && p.relationName == relation {
        assert there.parents == UpdateFirst(r.parents, ParentIs(relation), ParentExtended(parent));
        ExtendedLinks(r, relation, parent, l);
      } else {
        assert there.parents == r.parents + [ParentRef(relation, [parent])];
        assert ParentRef(relation, [parent]) in there.parents;
      }
    }
  }

  lemma ExtendedKeeps(parent: string, x: ParentRef)
    ensures ParentExtended(parent)(x).relationName == x.relationName
    ensures forall t :: t in ParentExtended(parent)(x).parentTypes <==> t in x.parentTypes || t == parent
  {
  }

  lemma ExtendedLinks(r: ResourceType, relation: string, parent: string, l: Local)
    requires NeatResource(r) && l.Link? && exists p :: p in r.parents && p.relationName == relation
    ensures var there := r.(parents := UpdateFirst(r.parents, ParentIs(relation), ParentExtended(parent)));
            SaysLocal(there, l) <==> SaysLocal(r, l) || l == Link(relation, parent)
  {
    var parents := UpdateFirst(r.parents, ParentIs(relation), ParentExtended(parent));
    var there := r.(parents := parents);
    hide UpdateFirst, NeatResource, ParentExtended, ParentIs;
    if SaysLocal(r, l) {
      var x :| x in r.parents && x.relationName == l.relation && l.parent in x.parentTypes;
      ExtendedKeeps(parent, x);
      var y := if x.relationName == relation then ParentExtended(parent)(x) else x;
      ExtendedParents(r, relation, parent, y);
      assert y in parents;
    }
    if l == Link(relation, parent) {
      var p :| p in r.parents && p.relationName == relation;
      ExtendedKeeps(parent, p);
      ExtendedParents(r, relation, parent, ParentExtended(parent)(p));
      assert ParentExtended(parent)(p) in parents;
    }
    if SaysLocal(there, l) {
      var y :| y in parents && y.relationName == l.relation && l.parent in y.parentTypes;
      ExtendedParents(r, relation, parent, y);
      if !(y in r.parents && y.relationName != relation) {
        var x :| x in r.parents && x.relationName == relation && y == ParentExtended(parent)(x);
        ExtendedKeeps(parent, x);
      }
    }
  }

  /** What cutting leaves of one parent relation. */
  lemma CutLinks(relation: string, only: Option<string>, p: ParentRef)
    ensures var c := ParentCut(relation, only)(p);
            && (c.Some? ==> c.value.relationName == p.relationName)
            && (c.Some? ==> forall t :: t in c.value.parentTypes <==>
                  t in p.parentTypes && !(p.relationName == relation && (only.Some? ==> t == only.value)))
            && (c.None? <==>
                  p.relationName == relation && (only.Some? ==> forall t :: t in p.parentTypes ==> t == only.value))
  {
    if p.relationName == relation && only.Some? {
      WithoutKeeps(only.value, p);
      var types := Filter(p.parentTypes, Differs(only.value));
      if types == [] {
        forall t | t in p.parentTypes ensures t == only.value {
          assert t != only.value ==> t in types;
        }
      } else {
        assert types[0] in types;
      }
    }
  }

  lemma DisconnectedLinks(r: ResourceType, relation: string, only: Option<string>, l: Local)
    requires l.Link?
    ensures SaysLocal(ParentDisconnected(relation, only)(r), l) <==>
            SaysLocal(r, l) && !(l.relation == relation && (only.Some? ==> l.parent == only.value))
  {
    var f := ParentCut(relation, only);
    var there := ParentDisconnected(relation, only)(r);
    assert there.parents == FilterMap(r.parents, f);
    hide FilterMap, ParentCut, ParentDisconnected;
    if y :| y in there.parents && y.relationName == l.relation && l.parent in y.parentTypes {
      FilterMapMembers(r.parents, f, y);
      var p :| p in r.parents && f(p) == Some(y);
      CutLinks(relation, only, p);
      assert p.relationName == l.relation && l.parent in p.parentTypes;
    }
    if p :| p in r.parents && p.relationName == l.relation && l.parent in p.parentTypes {
      CutLinks(relation, only, p);
      if !(l.relation == relation && (only.Some? ==> l.parent == only.value)) {
        assert f(p).Some?;
        FilterMapMembers(r.parents, f, f(p).value);
        assert f(p).value in there.parents && l.parent in f(p).value.parentTypes;
      }
    }
  }

  /** The relation goes, as the code decides it, exactly when every link along it is cut. */
  lemma RelationGone(r: ResourceType, relation: string, only: Option<string>)
    requires NeatResource(r) && relation in ParentNames(r.parents)
    ensures (exists p :: p in r.parents && ParentCut(relation, only)(p).None?) <==>
            only.None? || forall x :: SaysLocal(r, Link(relation, x)) ==> x == only.value
  {
    NeatParents(r);
    NameOf(r.parents, relation);
    var p :| p in r.parents && p.relationName == relation;
    hide NeatResource, ParentCut, ParentNames;
    CutLinks(relation, only, p);
    forall q | q in r.parents && ParentCut(relation, only)(q).None? ensures q == p {
      CutLinks(relation, only, q);
    }
    assert forall x :: SaysLocal(r, Link(relation, x)) <==> x in p.parentTypes;
  }

  // ---------------------------------------------------------------------------
  // Roles and permissions of one resource.

  lemma UpdatedPermissions(r: ResourceType, name: string, f: Permission -> Permission, y: Permission)
    requires NeatResource(r)
    ensures y in UpdateFirst(r.permissions, PermissionIs(name), f) <==>
            (y in r.permissions && y.name != name) || exists x :: x in r.permissions && x.name == name && y == f(x)
  {
    NeatPermissions(r);
    hide NeatResource, UpdateFirst;
    UpdatedMembers(r.permissions, PermissionIs(name), f, y);
  }

  lemma UpdatedRoles(r: ResourceType, name: string, f: Role -> Role, y: Role)
    requires NeatResource(r)
    ensures y in UpdateFirst(r.roles, RoleIs(name), f) <==>
            (y in r.roles && y.name != name) || exists x :: x in r.roles && x.name == name && y == f(x)
  {
    NeatRoles(r);
    hide NeatResource, UpdateFirst;
    UpdatedMembers(r.roles, RoleIs(name), f, y);
  }

  /** A fact about a permission, as a property of the permission. */
  ghost predicate OfPermission(p: Permission, l: Local) {
    && ConcernsPermission(l, p.name)
    && (l.Grants? ==> l.role in p.grantedByRoles) && (l.Inherits? ==> l.relation in p.inheritFromParents)
  }

  lemma PermissionFacts(r: ResourceType, l: Local)
    requires l.HasPerm? || l.Grants? || l.Inherits?
    ensures SaysLocal(r, l) <==> exists p :: p in r.permissions && OfPermission(p, l)
  {
    if SaysLocal(r, l) {
      var p :| p in r.permissions && p.name == l.perm && (l.Grants? ==> l.role in p.grantedByRoles)
        && (l.Inherits? ==> l.relation in p.inheritFromParents);
      assert OfPermission(p, l);
    }
  }

  /** Changing the one permission of a name changes what is stated of it, and nothing else. */
  lemma OnPermissionLocal(r: ResourceType, name: string, f: Permission -> Permission, l: Local)
    requires NeatResource(r) && forall p :: f(p).name == p.name
    ensures var there := OnPermission(name, f)(r);
            SaysLocal(there, l) <==>
            if ConcernsPermission(l, name)
            then exists p :: p in r.permissions && p.name == name && OfPermission(f(p), l) else SaysLocal(r, l)
  {
    var there := OnPermission(name, f)(r);
    assert there == r.(permissions := UpdateFirst(r.permissions, PermissionIs(name), f));
    if l.HasPerm? || l.Grants? || l.Inherits? {
      assert forall p :: OfPermission(p, l) ==> p.name == l.perm;
      hide *;
      PermissionFacts(r, l);
      PermissionFacts(there, l);
      assert ConcernsPermission(l, name) <==> l.perm == name;
      if y :| y in there.permissions && OfPermission(y, l) {
        UpdatedPermissions(r, name, f, y);
      }
      if x :| x in r.permissions && x.name == name && OfPermission(f(x), l) {
        UpdatedPermissions(r, name, f, f(x));
        assert f(x) in there.permissions;
      }
      if x :| x in r.permissions && x.name != name && OfPermission(x, l) {
        UpdatedPermissions(r, name, f, x);
        assert x in there.permissions;
      }
    }
  }

  lemma ToggledMember(s: seq<string>, x: string, y: string)
    ensures y in Toggle(s, x) <==> if y == x then x !in s else y in s
  {
  }

  /** A fact about the one permission of a name. */
  lemma NamedPermission(r: ResourceType, name: string, l: Local)
    requires NeatResource(r) && ConcernsPermission(l, name)
    ensures SaysLocal(r, HasPerm(name)) <==> exists p :: p in r.permissions && p.name == name
    ensures forall p :: p in r.permissions && p.name == name ==> (SaysLocal(r, l) <==> OfPermission(p, l))
  {
    NeatPermissions(r);
    PermissionFacts(r, l);
    hide NeatResource;
    forall p | p in r.permissions && p.name == name ensures SaysLocal(r, l) <==> OfPermission(p, l) {
      if SaysLocal(r, l) {
        var q :| q in r.permissions && OfPermission(q, l);
        assert q == p;
      }
    }
  }

  lemma GrantToggledOf(p: Permission, role: string, l: Local)
    ensures OfPermission(GrantToggled(role)(p), l) <==>
            if l == Grants(p.name, role) then role !in p.grantedByRoles else OfPermission(p, l)
  {
    if l.Grants? {
      ToggledMember(p.grantedByRoles, role, l.role);
    }
  }

  lemma GrantToggledLocal(r: ResourceType, name: string, role: string, l: Local)
    requires NeatResource(r)
    ensures SaysLocal(OnPermission(name, GrantToggled(role))(r), l) <==>
            if l == Grants(name, role) then SaysLocal(r, HasPerm(name)) && !SaysLocal(r, l) else SaysLocal(r, l)
  {
    OnPermissionLocal(r, name, GrantToggled(role), l);
    if ConcernsPermission(l, name) {
      NamedPermission(r, name, l);
      PermissionFacts(r, l);
      assert forall p ::
        OfPermission(p, l) ==> p.name == name && (l == Grants(name, role) ==> role in p.grantedByRoles);
      assert forall p: Permission ::
        l == Grants(name, role) && p.name == name && role in p.grantedByRoles ==> OfPermission(p, l);
      hide NeatResource, OnPermission, SaysLocal, GrantToggled, OfPermission, Toggle;
      forall p ensures OfPermission(GrantToggled(role)(p), l) <==>
        if l == Grants(p.name, role) then role !in p.grantedByRoles else OfPermission(p, l) {
        GrantToggledOf(p, role, l);
      }
    }
  }

  lemma InheritToggledOf(p: Permission, relation: string, l: Local)
    ensures OfPermission(InheritToggled(relation)(p), l) <==>
            if l == Inherits(p.name, relation) then relation !in p.inheritFromParents else OfPermission(p, l)
  {
    if l.Inherits? {
      ToggledMember(p.inheritFromParents, relation, l.relation);
    }
  }

  lemma InheritToggledLocal(r: ResourceType, name: string, relation: string, l: Local)
    requires NeatResource(r)
    ensures SaysLocal(OnPermission(name, InheritToggled(relation))(r), l) <==>
            if l == Inherits(name, relation) then SaysLocal(r, HasPerm(name)) && !SaysLocal(r, l) else SaysLocal(r, l)
  {
    OnPermissionLocal(r, name, InheritToggled(relation), l);
    if ConcernsPermission(l, name) {
      NamedPermission(r, name, l);
      PermissionFacts(r, l);
      assert forall p ::
        OfPermission(p, l) ==> p.name == name && (l == Inherits(name, relation) ==> relation in p.inheritFromParents);
      assert forall p: Permission ::
        l == Inherits(name, relation) && p.name == name && relation in p.inheritFromParents ==> OfPermission(p, l);
      hide NeatResource, OnPermission, SaysLocal, InheritToggled, OfPermission, Toggle;
      forall p ensures OfPermission(InheritToggled(relation)(p), l) <==>
          if l == Inherits(p.name, relation) then relation !in p.inheritFromParents else OfPermission(p, l) {
        InheritToggledOf(p, relation, l);
      }
    }
  }

  lemma RoleAddedLocal(r: ResourceType, name: string, l: Local)
    ensures SaysLocal(RoleAdded(name)(r), l) <==>
            SaysLocal(r, l) || (!SaysLocal(r, HasRole(name)) && (l == HasRole(name) || l == Assigned(name, User(None))))
  {
    RoleNameOf(r.roles, name);
    var added := Role(name, [User(None)]);
    if name !in RoleNames(r.roles) {
      assert RoleAdded(name)(r) == r.(roles := r.roles + [added]);
      assert added in r.roles + [added];
    }
  }

  lemma SubjectsSetLocal(r: ResourceType, name: string, refs: seq<SubjectRef>, l: Local)
    requires NeatResource(r)
    ensures SaysLocal(OnRole(name, SubjectsSet(refs))(r), l) <==>
            if l.Assigned? && l.role == name then SaysLocal(r, HasRole(name)) && l.ref in refs else SaysLocal(r, l)
  {
    OnRoleLocal(r, name, SubjectsSet(refs), l);
    hide NeatResource, OnRole;
  }

  /** A fact about a role, as a property of the role. */
  ghost predicate OfRole(x: Role, l: Local) {
    (l.HasRole? || l.Assigned?) && l.role == x.name && (l.Assigned? ==> l.ref in x.assignableBy)
  }

  lemma RoleFacts(r: ResourceType, l: Local)
    requires l.HasRole? || l.Assigned?
    ensures SaysLocal(r, l) <==> exists x :: x in r.roles && OfRole(x, l)
  {
    if SaysLocal(r, l) {
      var x :| x in r.roles && x.name == l.role && (l.Assigned? ==> l.ref in x.assignableBy);
      assert OfRole(x, l);
    }
  }

  lemma OnRoleLocal(r: ResourceType, name: string, f: Role -> Role, l: Local)
    requires NeatResource(r) && forall x :: f(x).name == x.name
    ensures var there := OnRole(name, f)(r);
            SaysLocal(there, l) <==>
            if (l.HasRole? || l.Assigned?) && l.role == name
            then exists x :: x in r.roles && x.name == name && OfRole(f(x), l) else SaysLocal(r, l)
  {
    var there := OnRole(name, f)(r);
    assert there == r.(roles := UpdateFirst(r.roles, RoleIs(name), f));
    if l.HasRole? || l.Assigned? {
      assert forall x :: OfRole(x, l) ==> x.name == l.role;
      hide *;
      RoleFacts(r, l);
      RoleFacts(there, l);
      if y :| y in there.roles && OfRole(y, l) {
        UpdatedRoles(r, name, f, y);
      }
      if x :| x in r.roles && x.name == name && OfRole(f(x), l) {
        UpdatedRoles(r, name, f, f(x));
        assert f(x) in there.roles;
      }
      if x :| x in r.roles && x.name != name && OfRole(x, l) {
        UpdatedRoles(r, name, f, x);
        assert x in there.roles;
      }
    }
  }

  lemma PermissionAddedLocal(r: ResourceType, name: string, l: Local)
    ensures SaysLocal(PermissionAdded(name)(r), l) <==> SaysLocal(r, l) || l == HasPerm(name)
  {
    var added := Permission(name, [], []);
    if name in PermissionNames(r.permissions) {
      var i :| 0 <= i < |r.permissions| && PermissionNames(r.permissions)[i] == name;
      assert r.permissions[i] in r.permissions;
    } else {
      assert PermissionAdded(name)(r) == r.(permissions := r.permissions + [added]);
      assert added in r.permissions + [added];
    }
  }

  lemma PermissionRemovedLocal(r: ResourceType, name: string, l: Local)
    ensures SaysLocal(PermissionRemoved(name)(r), l) <==> SaysLocal(r, l) && !ConcernsPermission(l, name)
  {
  }

  // ---------------------------------------------------------------------------
  // Every role or permission changed alike.

  lemma MappedPermissions(r: ResourceType, there: ResourceType, f: Permission -> Permission, l: Local)
    requires (l.HasPerm? || l.Grants? || l.Inherits?) && there.permissions == Map(r.permissions, f)
    ensures SaysLocal(there, l) <==> exists p :: p in r.permissions && OfPermission(f(p), l)
  {
    PermissionFacts(there, l);
    hide SaysLocal, OfPermission;
    if p' :| p' in there.permissions && OfPermission(p', l) {
      var i :| 0 <= i < |r.permissions| && there.permissions[i] == p';
      assert r.permissions[i] in r.permissions;
    }
    if p :| p in r.permissions && OfPermission(f(p), l) {
      var i :| 0 <= i < |r.permissions| && r.permissions[i] == p;
      assert there.permissions[i] in there.permissions;
    }
  }

  lemma MappedRoles(r: ResourceType, there: ResourceType, f: Role -> Role, l: Local)
    requires (l.HasRole? || l.Assigned?) && there.roles == Map(r.roles, f)
    ensures SaysLocal(there, l) <==> exists x :: x in r.roles && OfRole(f(x), l)
  {
    RoleFacts(there, l);
    hide SaysLocal, OfRole;
    if x' :| x' in there.roles && OfRole(x', l) {
      var i :| 0 <= i < |r.roles| && there.roles[i] == x';
      assert r.roles[i] in r.roles;
    }
    if x :| x in r.roles && OfRole(f(x), l) {
      var i :| 0 <= i < |r.roles| && r.roles[i] == x;
      assert there.roles[i] in there.roles;
    }
  }

  lemma KeptInheritsOf(p: Permission, removed: seq<string>, l: Local)
    ensures OfPermission(InheritsKept(removed)(p), l) <==> OfPermission(p, l) && !(l.Inherits? && l.relation in removed)
  {
    if l.Inherits? {
      KeptInherits(removed, p, l.relation);
    }
  }

  lemma KeptInheritsLocal(r: ResourceType, there: ResourceType, removed: seq<string>, l: Local)
    requires (l.HasPerm? || l.Grants? || l.Inherits?) && there.permissions == Map(r.permissions, InheritsKept(removed))
    ensures SaysLocal(there, l) <==> SaysLocal(r, l) && !(l.Inherits? && l.relation in removed)
  {
    MappedPermissions(r, there, InheritsKept(removed), l);
    PermissionFacts(r, l);
    hide SaysLocal, OfPermission, InheritsKept, Map;
    forall p ensures OfPermission(InheritsKept(removed)(p), l) <==>
      OfPermission(p, l) && !(l.Inherits? && l.relation in removed) {
      KeptInheritsOf(p, removed, l);
    }
  }

  lemma SamePermissions(r: ResourceType, there: ResourceType, l: Local)
    requires (l.HasPerm? || l.Grants? || l.Inherits?) && there.permissions == r.permissions
    ensures SaysLocal(there, l) <==> SaysLocal(r, l)
  {
    PermissionFacts(r, l);
    PermissionFacts(there, l);
  }

  lemma DisconnectedPermissions(r: ResourceType, relation: string, only: Option<string>, l: Local)
    requires NeatResource(r) && (l.HasPerm? || l.Grants? || l.Inherits?)
    requires l.Inherits? && l.relation == relation && SaysLocal(r, l) ==> relation in ParentNames(r.parents)
    ensures SaysLocal(ParentDisconnected(relation, only)(r), l) <==>
            SaysLocal(r, l) && !(l.Inherits? && l.relation == relation
                                 && (only.None? || forall x :: SaysLocal(r, Link(relation, x)) ==> x == only.value))
  {
    var there := ParentDisconnected(relation, only)(r);
    var gone := exists p :: p in r.parents && ParentCut(relation, only)(p).None?;
    assert there.permissions == if gone then Map(r.permissions, InheritsKept([relation])) else r.permissions;
    hide *;
    if relation in ParentNames(r.parents) {
      RelationGone(r, relation, only);
    }
    if gone {
      KeptInheritsLocal(r, there, [relation], l);
      var p :| p in r.parents && ParentCut(relation, only)(p).None?;
      CutLinks(relation, only, p);
      NameOf(r.parents, relation);
    } else {
      SamePermissions(r, there, l);
    }
  }

  lemma DisconnectedLocal(r: ResourceType, relation: string, only: Option<string>, l: Local)
    requires NeatResource(r)
    requires l.Inherits? && l.relation == relation && SaysLocal(r, l) ==> relation in ParentNames(r.parents)
    ensures SaysLocal(ParentDisconnected(relation, only)(r), l) <==>
            && SaysLocal(r, l)
            && !(l.Link? && l.relation == relation && (only.Some? ==> l.parent == only.value))
            && !(l.Inherits? && l.relation == relation
                 && (only.None? || forall x :: SaysLocal(r, Link(relation, x)) ==> x == only.value))
  {
    if l.Link? {
      DisconnectedLinks(r, relation, only, l);
    } else if l.HasRole? || l.Assigned? {
      assert ParentDisconnected(relation, only)(r).roles == r.roles;
    } else {
      DisconnectedPermissions(r, relation, only, l);
    }
  }

  lemma GrantsKeptOf(p: Permission, name: string, l: Local)
    ensures OfPermission(GrantsKept(name)(p), l) <==> OfPermission(p, l) && !(l.Grants? && l.role == name)
  {
  }

  lemma RoleRemovedLocal(r: ResourceType, name: string, l: Local)
    ensures SaysLocal(RoleRemoved(name)(r), l) <==> SaysLocal(r, l) && !ConcernsRole(l, name)
  {
    var there := RoleRemoved(name)(r);
    if l.HasPerm? || l.Grants? || l.Inherits? {
      assert there.permissions == Map(r.permissions, GrantsKept(name));
      MappedPermissions(r, there, GrantsKept(name), l);
      PermissionFacts(r, l);
      hide SaysLocal, OfPermission, GrantsKept, Map, RoleRemoved;
      forall p ensures OfPermission(GrantsKept(name)(p), l) <==> OfPermission(p, l) && !(l.Grants? && l.role == name) {
        GrantsKeptOf(p, name, l);
      }
    } else {
      assert there.roles == Filter(r.roles, (role: Role) => role.name != name) && there.parents == r.parents;
    }
  }

  /** The facts renamed. */
  ghost predicate Image(r: ResourceType, l: Local, f: Local -> Local) {
    exists k :: SaysLocal(r, k) && f(k) == l
  }

  lemma IdentityImage(r: ResourceType, l: Local, f: Local -> Local)
    requires forall k :: f(k) == l <==> k == l
    ensures Image(r, l, f) <==> SaysLocal(r, l)
  {
    hide SaysLocal;
    if SaysLocal(r, l) {
      assert f(l) == l;
    }
  }

  function RoleRenaming(from: string, to: string): Local -> Local { (l: Local) => WithRole(l, from, to) }
  function PermRenaming(from: string, to: string): Local -> Local { (l: Local) => WithPerm(l, from, to) }

  lemma GrantsRenamedOf(p: Permission, from: string, to: string, l: Local)
    ensures OfPermission(GrantsRenamed(from, to)(p), l) <==>
            exists k :: OfPermission(p, k) && WithRole(k, from, to) == l
  {
    var there := GrantsRenamed(from, to)(p);
    if OfPermission(there, l) {
      if l.Grants? {
        var i :| 0 <= i < |there.grantedByRoles| && there.grantedByRoles[i] == l.role;
        var k := Grants(l.perm, p.grantedByRoles[i]);
        assert p.grantedByRoles[i] in p.grantedByRoles;
        assert OfPermission(p, k) && WithRole(k, from, to) == l;
      } else {
        assert OfPermission(p, l) && WithRole(l, from, to) == l;
      }
    }
    if k :| OfPermission(p, k) && WithRole(k, from, to) == l {
      if k.Grants? {
        var i :| 0 <= i < |p.grantedByRoles| && p.grantedByRoles[i] == k.role;
        assert there.grantedByRoles[i] == l.role;
      }
    }
  }

  lemma RoleRenamedOf(x: Role, from: string, to: string, l: Local)
    ensures OfRole(RoleRenamed(from, to)(x), l) <==> exists k :: OfRole(x, k) && WithRole(k, from, to) == l
  {
    assert Renamed(from, to)(x.name) == if x.name == from then to else x.name;
    if OfRole(RoleRenamed(from, to)(x), l) {
      var k := if l.HasRole? then HasRole(x.name) else Assigned(x.name, l.ref);
      assert OfRole(x, k) && WithRole(k, from, to) == l;
    }
  }

  lemma PermissionRenamedOf(p: Permission, from: string, to: string, l: Local)
    ensures OfPermission(PermissionRenamed(from, to)(p), l) <==>
            exists k :: OfPermission(p, k) && WithPerm(k, from, to) == l
  {
    assert Renamed(from, to)(p.name) == if p.name == from then to else p.name;
    if OfPermission(PermissionRenamed(from, to)(p), l) {
      var k := l.(perm := p.name);
      assert OfPermission(p, k) && WithPerm(k, from, to) == l;
    }
  }

  lemma ImageOfPermissions(r: ResourceType, l: Local, f: Local -> Local, g: Permission -> Permission)
    requires l.HasPerm? || l.Grants? || l.Inherits?
    requires forall k :: f(k) == l ==> k.HasPerm? || k.Grants? || k.Inherits?
    requires forall p :: OfPermission(g(p), l) <==> exists k :: OfPermission(p, k) && f(k) == l
    ensures (exists p :: p in r.permissions && OfPermission(g(p), l)) <==> Image(r, l, f)
  {
    hide SaysLocal, OfPermission;
    if p :| p in r.permissions && OfPermission(g(p), l) {
      var k :| OfPermission(p, k) && f(k) == l;
      PermissionFacts(r, k);
      assert SaysLocal(r, k);
    }
    if k :| SaysLocal(r, k) && f(k) == l {
      PermissionFacts(r, k);
      var p :| p in r.permissions && OfPermission(p, k);
      assert OfPermission(g(p), l);
    }
  }

  lemma ImageOfRoles(r: ResourceType, l: Local, f: Local -> Local, g: Role -> Role)
    requires l.HasRole? || l.Assigned?
    requires forall k :: f(k) == l ==> k.HasRole? || k.Assigned?
    requires forall x :: OfRole(g(x), l) <==> exists k :: OfRole(x, k) && f(k) == l
    ensures (exists x :: x in r.roles && OfRole(g(x), l)) <==> Image(r, l, f)
  {
    hide SaysLocal, OfRole;
    if x :| x in r.roles && OfRole(g(x), l) {
      var k :| OfRole(x, k) && f(k) == l;
      RoleFacts(r, k);
      assert SaysLocal(r, k);
    }
    if k :| SaysLocal(r, k) && f(k) == l {
      RoleFacts(r, k);
      var x :| x in r.roles && OfRole(x, k);
      assert OfRole(g(x), l);
    }
  }

  lemma RenamedRolesImage(r: ResourceType, there: ResourceType, from: string, to: string, l: Local)
    requires (l.HasRole? || l.Assigned?) && there.roles == Map(r.roles, RoleRenamed(from, to))
    ensures SaysLocal(there, l) <==> Image(r, l, RoleRenaming(from, to))
  {
    var f := RoleRenaming(from, to);
    hide SaysLocal, OfRole, RoleRenamed, Map, Image;
    MappedRoles(r, there, RoleRenamed(from, to), l);
    forall x ensures OfRole(RoleRenamed(from, to)(x), l) <==> exists k :: OfRole(x, k) && f(k) == l {
      RoleRenamedOf(x, from, to, l);
    }
    ImageOfRoles(r, l, f, RoleRenamed(from, to));
  }

  lemma RenamedGrantsImage(r: ResourceType, there: ResourceType, from: string, to: string, l: Local)
    requires (l.HasPerm? || l.Grants? || l.Inherits?)
            && there.permissions == Map(r.permissions, GrantsRenamed(from, to))
    ensures SaysLocal(there, l) <==> Image(r, l, RoleRenaming(from, to))
  {
    var f := RoleRenaming(from, to);
    hide SaysLocal, OfPermission, GrantsRenamed, Map, Image;
    MappedPermissions(r, there, GrantsRenamed(from, to), l);
    forall p ensures OfPermission(GrantsRenamed(from, to)(p), l) <==> exists k :: OfPermission(p, k) && f(k) == l {
      GrantsRenamedOf(p, from, to, l);
    }
    ImageOfPermissions(r, l, f, GrantsRenamed(from, to));
  }

  lemma RenamedLinksImage(r: ResourceType, there: ResourceType, from: string, to: string, l: Local)
    requires l.Link? && there.parents == r.parents
    ensures SaysLocal(there, l) <==> Image(r, l, RoleRenaming(from, to))
  {
    IdentityImage(r, l, RoleRenaming(from, to));
    hide Image;
  }

  lemma RolesRenamedLocal(r: ResourceType, from: string, to: string, l: Local)
    ensures SaysLocal(RolesRenamed(from, to)(r), l) <==>
            if SaysLocal(r, HasRole(from)) then Image(r, l, RoleRenaming(from, to)) else SaysLocal(r, l)
  {
    var there := RolesRenamed(from, to)(r);
    RoleNameOf(r.roles, from);
    assert SaysLocal(r, HasRole(from)) <==> from in RoleNames(r.roles);
    hide SaysLocal, Image;
    if from in RoleNames(r.roles) {
      assert there ==
        r.(roles := Map(r.roles, RoleRenamed(from, to)), permissions := Map(r.permissions, GrantsRenamed(from, to)));
      hide *;
      if l.Link? {
        RenamedLinksImage(r, there, from, to, l);
      } else if l.HasRole? || l.Assigned? {
        RenamedRolesImage(r, there, from, to, l);
      } else {
        RenamedGrantsImage(r, there, from, to, l);
      }
    }
  }

  lemma PermissionsRenamedLocal(r: ResourceType, from: string, to: string, l: Local)
    ensures SaysLocal(PermissionsRenamed(from, to)(r), l) <==> Image(r, l, PermRenaming(from, to))
  {
    var there := PermissionsRenamed(from, to)(r);
    assert there == r.(permissions := Map(r.permissions, PermissionRenamed(from, to)));
    var f := PermRenaming(from, to);
    if l.HasPerm? || l.Grants? || l.Inherits? {
      hide SaysLocal, OfPermission, PermissionsRenamed, PermissionRenamed, Map;
      MappedPermissions(r, there, PermissionRenamed(from, to), l);
      forall p ensures OfPermission(PermissionRenamed(from, to)(p), l) <==>
        exists k :: OfPermission(p, k) && f(k) == l {
        PermissionRenamedOf(p, from, to, l);
      }
      ImageOfPermissions(r, l, f, PermissionRenamed(from, to));
    } else {
      IdentityImage(r, l, f);
      assert SaysLocal(there, l) <==> SaysLocal(r, l);
    }
  }

  // ---------------------------------------------------------------------------
  // The edits of one resource.

  /** The resource of a type, which alone decides what is stated on it. */
  lemma TheResource(ir: ModelIR, typ: string) returns (found: Option<ResourceType>)
    requires Neat(ir)
    ensures found.None? ==> (forall r :: r in ir.resources ==> r.name != typ)
    ensures found.None? ==> !Says(ir, IsResource(typ)) && forall l :: !Says(ir, On(typ, l))
    ensures found.Some? ==> found.value in ir.resources && found.value.name == typ
    ensures found.Some? ==> NeatResource(found.value) && Says(ir, IsResource(typ))
    ensures found.Some? ==> forall l :: Says(ir, On(typ, l)) <==> SaysLocal(found.value, l)
    ensures found.Some? ==> forall r :: r in ir.resources && r.name == typ ==> r == found.value
  {
    found := Find(ir.resources, ResourceIs(typ));
    ResourcesUnique(ir);
    hide SaysLocal, NeatResource, Find, Closed;
    if found.Some? {
      forall l ensures Says(ir, On(typ, l)) <==> SaysLocal(found.value, l) {
        OnType(ir, found.value, l);
      }
    }
  }

  /** A fact after one resource has changed by f, given the fact on that resource. */
  lemma ChangedResource(ir: ModelIR, typ: string, f: ResourceType -> ResourceType, fact: Fact)
    returns (found: Option<ResourceType>)
    requires Neat(ir) && forall r :: f(r).name == r.name
    ensures found.None? ==> (Says(OnResource(ir, typ, f), fact) <==> Says(ir, fact))
    ensures found.None? ==> !Says(ir, IsResource(typ)) && forall l :: !Says(ir, On(typ, l))
    ensures found.Some? ==> found.value in ir.resources && found.value.name == typ
    ensures found.Some? ==> NeatResource(found.value) && Says(ir, IsResource(typ))
    ensures found.Some? ==> forall l :: Says(ir, On(typ, l)) <==> SaysLocal(found.value, l)
    ensures found.Some? ==>
              (Says(OnResource(ir, typ, f), fact) <==>
               if fact.On? && fact.typ == typ then SaysLocal(f(found.value), fact.local) else Says(ir, fact))
  {
    found := TheResource(ir, typ);
    OnResourceFacts(ir, typ, f, fact);
    hide SaysLocal, NeatResource, OnResource, Closed;
  }

  lemma ConnectFacts(ir: ModelIR, child: string, parent: string, relation: string, fact: Fact)
    requires Neat(ir)
    ensures Says(ConnectParent(ir, child, parent, relation), fact) <==>
            HoldsAfter(ir, ConnectingParent(child, parent, relation), fact)
  {
    var f := ParentConnected(relation, parent);
    FoundIsStated(ir, child);
    FoundIsStated(ir, parent);
    hide Neat, SaysLocal, NeatResource, OnResource, ParentConnected, Find;
    assert forall r :: f(r).name == r.name by {
      ConnectedName(relation, parent);
    }
    var found := ChangedResource(ir, child, f, fact);
    if found.Some? && fact.On? && fact.typ == child {
      ConnectedLocal(found.value, relation, parent, fact.local);
    }
  }

  lemma ConnectedName(relation: string, parent: string)
    ensures forall r :: ParentConnected(relation, parent)(r).name == r.name
  {
  }

  lemma FoundIsStated(ir: ModelIR, typ: string)
    ensures Find(ir.resources, ResourceIs(typ)).Some? <==> Says(ir, IsResource(typ))
  {
  }

  lemma DisconnectedFacts(ir: ModelIR, child: string, relation: string, only: Option<string>, fact: Fact)
    requires Neat(ir)
    ensures Says(Disconnected(ir, child, relation, only), fact) <==> StaysCut(ir, child, relation, only, fact)
  {
    var f := ParentDisconnected(relation, only);
    assert Closed(ir);
    assert Disconnected(ir, child, relation, only) == OnResource(ir, child, f);
    DisconnectedName(relation, only);
    hide Neat, SaysLocal, NeatResource, OnResource, ParentDisconnected, Closed, Disconnected, Says;
    var found := ChangedResource(ir, child, f, fact);
    if found.Some? && fact.On? && fact.typ == child {
      InheritedRelation(ir, found.value, fact.local);
      DisconnectedLocal(found.value, relation, only, fact.local);
      assert LastLink(ir, child, relation, only) <==>
             only.None? || forall x :: SaysLocal(found.value, Link(relation, x)) ==> x == only.value;
    }
  }

  lemma DisconnectedName(relation: string, only: Option<string>)
    ensures forall r :: ParentDisconnected(relation, only)(r).name == r.name
  {
  }

  lemma InheritedRelation(ir: ModelIR, r: ResourceType, l: Local)
    requires Closed(ir) && r in ir.resources
    ensures l.Inherits? && SaysLocal(r, l) ==> l.relation in ParentNames(r.parents)
  {
    assert ResourceClosed(r, GroupsOf(ir), TypesOf(ir), CondsOf(ir));
    hide Closed, ParentNames, RefsClosed, ParentClosed, Distinct;
    if l.Inherits? && SaysLocal(r, l) {
      var p :| p in r.permissions && p.name == l.perm && l.relation in p.inheritFromParents;
      assert PermissionClosed(p, RoleNames(r.roles), ParentNames(r.parents));
    }
  }

  lemma CellFacts(ir: ModelIR, typ: string, perm: string, role: string, fact: Fact)
    requires Neat(ir)
    ensures Says(ToggleCell(ir, typ, perm, role), fact) <==> HoldsAfter(ir, TogglingCell(typ, perm, role), fact)
  {
    var f := OnPermission(perm, GrantToggled(role));
    hide Neat, SaysLocal, NeatResource, OnResource, UpdateFirst, GrantToggled;
    assert forall r :: f(r).name == r.name;
    hide OnPermission, Says;
    var found := ChangedResource(ir, typ, f, fact);
    if found.Some? && fact.On? && fact.typ == typ {
      GrantToggledLocal(found.value, perm, role, fact.local);
    }
  }

  lemma InheritFacts(ir: ModelIR, typ: string, perm: string, relation: string, fact: Fact)
    requires Neat(ir)
    ensures Says(ToggleInherit(ir, typ, perm, relation), fact) <==>
            HoldsAfter(ir, TogglingInherit(typ, perm, relation), fact)
  {
    var f := OnPermission(perm, InheritToggled(relation));
    hide Neat, SaysLocal, NeatResource, OnResource, UpdateFirst, InheritToggled;
    assert forall r :: f(r).name == r.name;
    hide OnPermission, Says;
    var found := ChangedResource(ir, typ, f, fact);
    if found.Some? && fact.On? && fact.typ == typ {
      InheritToggledLocal(found.value, perm, relation, fact.local);
    }
  }

  lemma AddRoleFacts(ir: ModelIR, typ: string, name: string, fact: Fact)
    requires Neat(ir)
    ensures Says(AddRole(ir, typ, name), fact) <==> HoldsAfter(ir, AddingRole(typ, name), fact)
  {
    var f := RoleAdded(name);
    hide Neat, SaysLocal, NeatResource, OnResource;
    assert forall r :: f(r).name == r.name;
    hide RoleAdded, Says;
    var found := ChangedResource(ir, typ, f, fact);
    if found.Some? && fact.On? && fact.typ == typ {
      RoleAddedLocal(found.value, name, fact.local);
    }
  }

  lemma RemoveRoleFacts(ir: ModelIR, typ: string, name: string, fact: Fact)
    requires Neat(ir)
    ensures Says(WithoutRole(ir, typ, name), fact) <==> HoldsAfter(ir, RemovingRole(typ, name), fact)
  {
    var f := RoleRemoved(name);
    hide Neat, SaysLocal, NeatResource, OnResource, Filter, Map;
    assert forall r :: f(r).name == r.name;
    hide RoleRemoved, Says;
    var found := ChangedResource(ir, typ, f, fact);
    if found.Some? && fact.On? && fact.typ == typ {
      RoleRemovedLocal(found.value, name, fact.local);
    }
  }

  lemma RenameRoleFacts(ir: ModelIR, typ: string, from: string, to: string, fact: Fact)
    requires Neat(ir)
    ensures Says(WithRoleRenamed(ir, typ, from, to), fact) <==> HoldsAfter(ir, RenamingRole(typ, from, to), fact)
  {
    var f := RolesRenamed(from, to);
    hide Neat, SaysLocal, NeatResource, OnResource, Map;
    assert forall r :: f(r).name == r.name;
    hide RolesRenamed;
    var found := ChangedResource(ir, typ, f, fact);
    if found.Some? && fact.On? && fact.typ == typ {
      RolesRenamedLocal(found.value, from, to, fact.local);
      hide WithRole;
      assert Image(found.value, fact.local, RoleRenaming(from, to)) <==>
        exists l :: Says(ir, On(typ, l)) && WithRole(l, from, to) == fact.local;
    }
  }

  lemma SubjectsFacts(ir: ModelIR, typ: string, role: string, refs: seq<SubjectRef>, fact: Fact)
    requires Neat(ir)
    ensures Says(SetRoleAssignableBy(ir, typ, role, refs), fact) <==>
            HoldsAfter(ir, SettingSubjects(typ, role, refs), fact)
  {
    var f := OnRole(role, SubjectsSet(refs));
    hide Neat, SaysLocal, NeatResource, OnResource, UpdateFirst, SubjectsSet;
    assert forall r :: f(r).name == r.name;
    hide OnRole;
    var found := ChangedResource(ir, typ, f, fact);
    if found.Some? && fact.On? && fact.typ == typ {
      SubjectsSetLocal(found.value, role, refs, fact.local);
    }
  }

  lemma AddPermissionFacts(ir: ModelIR, typ: string, name: string, fact: Fact)
    requires Neat(ir)
    ensures Says(AddPermission(ir, typ, name), fact) <==> HoldsAfter(ir, AddingPermission(typ, name), fact)
  {
    var f := PermissionAdded(name);
    hide Neat, SaysLocal, NeatResource, OnResource;
    assert forall r :: f(r).name == r.name;
    hide PermissionAdded, Says;
    var found := ChangedResource(ir, typ, f, fact);
    if found.Some? && fact.On? && fact.typ == typ {
      PermissionAddedLocal(found.value, name, fact.local);
    }
  }

  lemma RemovePermissionFacts(ir: ModelIR, typ: string, name: string, fact: Fact)
    requires Neat(ir)
    ensures Says(RemovePermission(ir, typ, name), fact) <==> HoldsAfter(ir, RemovingPermission(typ, name), fact)
  {
    var f := PermissionRemoved(name);
    hide Neat, SaysLocal, NeatResource, OnResource, Filter;
    assert forall r :: f(r).name == r.name;
    hide PermissionRemoved, Says;
    var found := ChangedResource(ir, typ, f, fact);
    if found.Some? && fact.On? && fact.typ == typ {
      PermissionRemovedLocal(found.value, name, fact.local);
    }
  }

  lemma RenamePermissionFacts(ir: ModelIR, typ: string, from: string, to: string, fact: Fact)
    requires Neat(ir)
    ensures Says(WithPermissionRenamed(ir, typ, from, to), fact) <==>
            HoldsAfter(ir, RenamingPermission(typ, from, to), fact)
  {
    var f := PermissionsRenamed(from, to);
    hide Neat, SaysLocal, NeatResource, OnResource, Map;
    assert forall r :: f(r).name == r.name;
    hide PermissionsRenamed;
    var found := ChangedResource(ir, typ, f, fact);
    if found.Some? && fact.On? && fact.typ == typ {
      PermissionsRenamedLocal(found.value, from, to, fact.local);
      hide WithPerm;
      assert Image(found.value, fact.local, PermRenaming(from, to)) <==>
        exists l :: Says(ir, On(typ, l)) && WithPerm(l, from, to) == fact.local;
    }
  }

  lemma ConditionedOf(x: Role, role: string, index: int, condition: Option<string>, l: Local)
    requires x.name == role
    ensures OfRole(SubjectConditioned(index, condition)(x), l) <==>
            && (l.HasRole? || l.Assigned?) && l.role == role
            && (l.Assigned? ==> AssignedWith(x, index, condition, l.ref))
  {
    var there := SubjectConditioned(index, condition)(x).assignableBy;
    assert |there| == |x.assignableBy|;
    assert forall k ::
      0 <= k < |there| ==>
        there[k] == if k == index then x.assignableBy[k].(condition := condition) else x.assignableBy[k];
    if l.Assigned? {
      assert l.ref in there <==> exists k :: 0 <= k < |there| && there[k] == l.ref;
    }
  }

  lemma ConditionedLocal(r: ResourceType, role: string, index: int, condition: Option<string>, l: Local)
    requires NeatResource(r)
    ensures SaysLocal(OnRole(role, SubjectConditioned(index, condition))(r), l) <==>
            if l.Assigned? && l.role == role
            then exists x :: x in r.roles && x.name == role && AssignedWith(x, index, condition, l.ref)
            else SaysLocal(r, l)
  {
    var f := SubjectConditioned(index, condition);
    assert forall x: Role :: f(x).name == x.name;
    hide NeatResource, OnRole, SubjectConditioned, OfRole, AssignedWith;
    OnRoleLocal(r, role, f, l);
    if (l.HasRole? || l.Assigned?) && l.role == role {
      forall x: Role | x.name == role
        ensures OfRole(f(x), l) <==> (l.Assigned? ==> AssignedWith(x, index, condition, l.ref)) {
        ConditionedOf(x, role, index, condition, l);
      }
    }
  }

  lemma AssignmentFacts(ir: ModelIR, typ: string, role: string, index: int, condition: Option<string>, fact: Fact)
    requires Neat(ir)
    ensures Says(SetAssignmentCondition(ir, typ, role, index, condition), fact) <==>
            HoldsAfter(ir, SettingCondition(typ, role, index, condition), fact)
  {
    var f := OnRole(role, SubjectConditioned(index, condition));
    hide Neat, SaysLocal, NeatResource, OnResource, UpdateFirst;
    assert forall r :: f(r).name == r.name;
    hide OnRole, SubjectConditioned;
    var found := ChangedResource(ir, typ, f, fact);
    var only := TheResource(ir, typ);
    if found.Some? && fact.On? && fact.typ == typ {
      ConditionedLocal(found.value, role, index, condition, fact.local);
    }
  }

  // ---------------------------------------------------------------------------
  // The edits of types.

  lemma TypeStated(ir: ModelIR, name: string)
    ensures HasType(ir, name) <==> name in TypeNames(ir)
  {
    NamesAreMapped(ir);
    MappedName(ir.groups, GroupName, name);
    MappedName(ir.resources, ResourceName, name);
  }

  lemma AddedResourceFacts(ir: ModelIR, name: string, fact: Fact)
    ensures Says(AddResource(ir, name), fact) <==> HoldsAfter(ir, AddingResource(name), fact)
  {
    TypeStated(ir, name);
    if name !in TypeNames(ir) {
      var r := ResourceType(name, [], [], []);
      var there := AddResource(ir, name);
      assert there == ir.(resources := ir.resources + [r]);
      assert r in there.resources;
      assert forall l :: !SaysLocal(r, l);
      hide SaysLocal, TypeNames, HasType, AddResource;
      assert forall x :: x in there.resources <==> x in ir.resources || x == r;
    }
  }

  lemma AddedGroupFacts(ir: ModelIR, name: string, fact: Fact)
    ensures Says(AddGroup(ir, name), fact) <==> HoldsAfter(ir, AddingGroup(name), fact)
  {
    TypeStated(ir, name);
    if name !in TypeNames(ir) {
      var g := GroupType(name, [User(None)]);
      var there := AddGroup(ir, name);
      assert there == ir.(groups := ir.groups + [g]);
      assert g in there.groups;
      hide SaysLocal, TypeNames, HasType, AddGroup;
      assert forall x :: x in there.groups <==> x in ir.groups || x == g;
    }
  }

  lemma RoleWithoutOf(x: Role, name: string, l: Local)
    ensures OfRole(RoleWithout(name)(x), l) <==> OfRole(x, l) && !(l.Assigned? && RefersTo(l.ref, name))
  {
  }

  /** The links of a relation that stay when a type goes. */
  lemma WithoutLinks(name: string, p: ParentRef)
    ensures var c := ParentWithout(name)(p);
            && (c.Some? ==> c.value.relationName == p.relationName)
            && (c.Some? ==> forall t :: t in c.value.parentTypes <==> t in p.parentTypes && t != name)
            && (c.None? <==> forall t :: t in p.parentTypes ==> t == name)
  {
    WithoutKeeps(name, p);
    var types := Filter(p.parentTypes, Differs(name));
    if types == [] {
      forall t | t in p.parentTypes ensures t == name {
        assert t != name ==> t in types;
      }
    } else {
      assert types[0] in types;
    }
  }

  lemma WithoutLink(r: ResourceType, name: string, l: Local)
    requires l.Link?
    ensures SaysLocal(ResourceWithout(name)(r), l) <==> SaysLocal(r, l) && l.parent != name
  {
    var f := ParentWithout(name);
    var there := ResourceWithout(name)(r);
    assert there.parents == FilterMap(r.parents, f);
    hide FilterMap, ParentWithout, ResourceWithout;
    if y :| y in there.parents && y.relationName == l.relation && l.parent in y.parentTypes {
      FilterMapMembers(r.parents, f, y);
      var p :| p in r.parents && f(p) == Some(y);
      WithoutLinks(name, p);
      assert p.relationName == l.relation && l.parent in p.parentTypes;
    }
    if p :| p in r.parents && p.relationName == l.relation && l.parent in p.parentTypes {
      WithoutLinks(name, p);
      if l.parent != name {
        FilterMapMembers(r.parents, f, f(p).value);
        assert f(p).value in there.parents && l.parent in f(p).value.parentTypes;
      }
    }
  }

  lemma WithoutAssignment(r: ResourceType, name: string, l: Local)
    requires l.HasRole? || l.Assigned?
    ensures SaysLocal(ResourceWithout(name)(r), l) <==> SaysLocal(r, l) && !(l.Assigned? && RefersTo(l.ref, name))
  {
    var there := ResourceWithout(name)(r);
    assert there.roles == Map(r.roles, RoleWithout(name));
    hide SaysLocal, OfRole, Map, ResourceWithout, RoleWithout;
    MappedRoles(r, there, RoleWithout(name), l);
    RoleFacts(r, l);
    forall x ensures OfRole(RoleWithout(name)(x), l) <==> OfRole(x, l) && !(l.Assigned? && RefersTo(l.ref, name)) {
      RoleWithoutOf(x, name, l);
    }
  }

  /** A relation is orphaned, as the code decides it, exactly when no link along it stays. */
  lemma OrphanedRelation(r: ResourceType, name: string, relation: string)
    requires NeatResource(r) && relation in ParentNames(r.parents)
    ensures relation in FilterMap(r.parents, Orphaned(name)) <==>
            !exists x :: x != name && SaysLocal(r, Link(relation, x))
  {
    NeatParents(r);
    NameOf(r.parents, relation);
    FilterMapMembers(r.parents, Orphaned(name), relation);
    var p :| p in r.parents && p.relationName == relation;
    hide NeatResource, ParentNames, FilterMap, ParentWithout;
    WithoutLinks(name, p);
    forall q | q in r.parents && Orphaned(name)(q) == Some(relation) ensures q == p {
      WithoutLinks(name, q);
    }
    assert forall x :: SaysLocal(r, Link(relation, x)) <==> x in p.parentTypes;
  }

  lemma WithoutPermission(r: ResourceType, name: string, l: Local)
    requires NeatResource(r) && (l.HasPerm? || l.Grants? || l.Inherits?)
    requires l.Inherits? && SaysLocal(r, l) ==> l.relation in ParentNames(r.parents)
    ensures SaysLocal(ResourceWithout(name)(r), l) <==>
            SaysLocal(r, l) && (l.Inherits? ==> exists x :: x != name && SaysLocal(r, Link(l.relation, x)))
  {
    var there := ResourceWithout(name)(r);
    var removed := FilterMap(r.parents, Orphaned(name));
    assert there.permissions == Map(r.permissions, InheritsKept(removed));
    KeptInheritsLocal(r, there, removed, l);
    if l.Inherits? && SaysLocal(r, l) {
      OrphanedRelation(r, name, l.relation);
    }
    hide NeatResource, ResourceWithout, FilterMap, Map, InheritsKept, ParentNames;
  }

  lemma WithoutLocal(r: ResourceType, name: string, l: Local)
    requires NeatResource(r) && (l.Inherits? && SaysLocal(r, l) ==> l.relation in ParentNames(r.parents))
    ensures SaysLocal(ResourceWithout(name)(r), l) <==>
            && SaysLocal(r, l) && !(l.Link? && l.parent == name) && !(l.Assigned? && RefersTo(l.ref, name))
            && (l.Inherits? ==> exists x :: x != name && SaysLocal(r, Link(l.relation, x)))
  {
    if l.Link? {
      WithoutLink(r, name, l);
    } else if l.HasRole? || l.Assigned? {
      WithoutAssignment(r, name, l);
    } else {
      WithoutPermission(r, name, l);
    }
  }

  lemma LeftGroups(ir: ModelIR, name: string, g': GroupType)
    ensures g' in TypeRemoved(ir, name).groups <==>
            exists g :: g in ir.groups && g.name != name && g' == GroupWithout(name)(g)
  {
    var kept := Filter(ir.groups, (g: GroupType) => g.name != name);
    var left := Map(kept, GroupWithout(name));
    hide Filter, Map, GroupWithout;
    if g' in left {
      var i :| 0 <= i < |kept| && left[i] == g';
      assert kept[i] in kept;
    }
    if g :| g in ir.groups && g.name != name && g' == GroupWithout(name)(g) {
      assert g in kept;
      var i :| 0 <= i < |kept| && kept[i] == g;
      assert left[i] == g';
    }
  }

  lemma LeftResources(ir: ModelIR, name: string, r': ResourceType)
    ensures r' in TypeRemoved(ir, name).resources <==>
            exists r :: r in ir.resources && r.name != name && r' == ResourceWithout(name)(r)
  {
    var kept := Filter(ir.resources, (r: ResourceType) => r.name != name);
    var left := Map(kept, ResourceWithout(name));
    hide Filter, Map, ResourceWithout;
    if r' in left {
      var i :| 0 <= i < |kept| && left[i] == r';
      assert kept[i] in kept;
    }
    if r :| r in ir.resources && r.name != name && r' == ResourceWithout(name)(r) {
      assert r in kept;
      var i :| 0 <= i < |kept| && kept[i] == r;
      assert left[i] == r';
    }
  }

  lemma GroupWithoutOf(g: GroupType, name: string)
    ensures GroupWithout(name)(g).name == g.name
    ensures forall ref :: ref in GroupWithout(name)(g).memberTypes <==> ref in g.memberTypes && !RefersTo(ref, name)
  {
  }

  lemma RemovedGroupFacts(ir: ModelIR, name: string, fact: Fact)
    requires fact.IsGroup? || fact.IsMember?
    ensures Says(TypeRemoved(ir, name), fact) <==> Says(ir, fact) && !Mentions(fact, name)
  {
    var there := TypeRemoved(ir, name);
    forall g' ensures g' in there.groups <==>
      exists g :: g in ir.groups && g.name != name && g' == GroupWithout(name)(g) {
      LeftGroups(ir, name, g');
    }
    forall g ensures GroupWithout(name)(g).name == g.name
             ensures forall ref ::
                     ref in GroupWithout(name)(g).memberTypes <==> ref in g.memberTypes && !RefersTo(ref, name) {
      GroupWithoutOf(g, name);
    }
    hide TypeRemoved, GroupWithout;
    if Says(ir, fact) && !Mentions(fact, name) {
      var g :| g in ir.groups && g.name == (if fact.IsGroup? then fact.name else fact.group)
        && (fact.IsMember? ==> fact.ref in g.memberTypes);
      assert GroupWithout(name)(g) in there.groups;
    }
  }

  lemma WithoutName(name: string)
    ensures forall r :: ResourceWithout(name)(r).name == r.name
  {
  }

  lemma OnlyLeft(ir: ModelIR, name: string, r: ResourceType)
    requires Closed(ir) && r in ir.resources && r.name != name
    ensures ResourceWithout(name)(r) in TypeRemoved(ir, name).resources
    ensures forall r' :: r' in TypeRemoved(ir, name).resources && r'.name == r.name ==> r' == ResourceWithout(name)(r)
  {
    ResourcesUnique(ir);
    WithoutName(name);
    hide Closed, TypeRemoved, ResourceWithout;
    LeftResources(ir, name, ResourceWithout(name)(r));
    forall r' | r' in TypeRemoved(ir, name).resources && r'.name == r.name ensures r' == ResourceWithout(name)(r) {
      LeftResources(ir, name, r');
    }
  }

  /** The one resource of a name decides what is stated on the name. */
  lemma OnlyOne(ir: ModelIR, r: ResourceType, l: Local)
    requires r in ir.resources && forall x :: x in ir.resources && x.name == r.name ==> x == r
    ensures Says(ir, IsResource(r.name)) && (Says(ir, On(r.name, l)) <==> SaysLocal(r, l))
  {
    hide SaysLocal;
  }

  lemma LeftOf(ir: ModelIR, name: string, r: ResourceType, l: Local)
    requires Neat(ir) && r in ir.resources && r.name != name
    ensures Says(TypeRemoved(ir, name), IsResource(r.name))
    ensures Says(TypeRemoved(ir, name), On(r.name, l)) <==> SaysLocal(ResourceWithout(name)(r), l)
  {
    assert Closed(ir);
    WithoutName(name);
    hide *;
    OnlyLeft(ir, name, r);
    OnlyOne(TypeRemoved(ir, name), ResourceWithout(name)(r), l);
  }

  lemma NothingLeftOf(ir: ModelIR, name: string, typ: string)
    requires typ == name || forall r :: r in ir.resources ==> r.name != typ
    ensures !Says(TypeRemoved(ir, name), IsResource(typ)) && forall l :: !Says(TypeRemoved(ir, name), On(typ, l))
  {
    var there := TypeRemoved(ir, name);
    WithoutName(name);
    hide TypeRemoved, ResourceWithout, SaysLocal;
    forall r' | r' in there.resources ensures r'.name != typ {
      LeftResources(ir, name, r');
    }
  }

  lemma RemovedNameFacts(ir: ModelIR, name: string, typ: string)
    requires Neat(ir)
    ensures Says(TypeRemoved(ir, name), IsResource(typ)) <==> Says(ir, IsResource(typ)) && typ != name
  {
    hide *;
    var found := TheResource(ir, typ);
    if found.Some? && typ != name {
      LeftOf(ir, name, found.value, HasRole(name));
    } else {
      NothingLeftOf(ir, name, typ);
    }
  }

  lemma RemovedLocalFacts(ir: ModelIR, name: string, typ: string, l: Local)
    requires Neat(ir)
    ensures Says(TypeRemoved(ir, name), On(typ, l)) <==>
            && Says(ir, On(typ, l)) && typ != name && !(l.Link? && l.parent == name)
                 && !(l.Assigned? && RefersTo(l.ref, name))
            && (l.Inherits? ==> exists x :: x != name && Says(ir, On(typ, Link(l.relation, x))))
  {
    assert Closed(ir);
    hide *;
    var found := TheResource(ir, typ);
    if found.Some? && typ != name {
      LeftOf(ir, name, found.value, l);
      InheritedRelation(ir, found.value, l);
      WithoutLocal(found.value, name, l);
    } else {
      NothingLeftOf(ir, name, typ);
    }
  }

  lemma TypeRemovedFacts(ir: ModelIR, name: string, fact: Fact)
    requires Neat(ir)
    ensures Says(TypeRemoved(ir, name), fact) <==> StaysWithout(ir, name, fact)
  {
    if fact.IsGroup? || fact.IsMember? {
      RemovedGroupFacts(ir, name, fact);
    } else if fact.IsCondition? {
      assert ConditionsOf(TypeRemoved(ir, name)) == ConditionsOf(ir);
    } else {
      hide TypeRemoved, Says, Neat;
      if fact.IsResource? {
        RemovedNameFacts(ir, name, fact.name);
      } else {
        RemovedLocalFacts(ir, name, fact.typ, fact.local);
      }
    }
  }

  // ---------------------------------------------------------------------------
  // The edits of conditions.

  lemma Known(ir: ModelIR, name: string)
    ensures Knows(ir, name) <==> name in ConditionNames(ConditionsOf(ir))
  {
    NamesAreMapped(ir);
    MappedName(ConditionsOf(ir), ConditionName, name);
    hide ConditionsOf;
    if def :| def in ConditionsOf(ir) && ConditionName(def) == name {
      assert Says(ir, IsCondition(def));
    }
  }

  lemma AddedConditionFacts(ir: ModelIR, def: ConditionDef, fact: Fact)
    ensures Says(AddCondition(ir, def), fact) <==> HoldsAfter(ir, AddingCondition(def), fact)
  {
    Known(ir, def.name);
    hide SaysLocal, Knows, ConditionNames;
  }

  lemma MappedConditions(cs: seq<ConditionDef>, f: ConditionDef -> ConditionDef, c: ConditionDef)
    ensures c in Map(cs, f) <==> exists d :: d in cs && c == f(d)
  {
    if c in Map(cs, f) {
      var i :| 0 <= i < |cs| && Map(cs, f)[i] == c;
      assert cs[i] in cs;
    }
    if d :| d in cs && c == f(d) {
      var i :| 0 <= i < |cs| && cs[i] == d;
      assert Map(cs, f)[i] == c;
    }
  }

  lemma UpdatedConditionFacts(ir: ModelIR, name: string, def: ConditionDef, fact: Fact)
    requires Neat(ir)
    ensures Says(UpdateCondition(ir, name, def), fact) <==> HoldsAfter(ir, UpdatingCondition(name, def), fact)
  {
    Known(ir, name);
    var there := UpdateCondition(ir, name, def);
    hide SaysLocal, Neat;
    if fact.IsCondition? {
      if name in ConditionNames(ConditionsOf(ir)) {
        MappedConditions(ConditionsOf(ir), Replaced(name, def), fact.def);
        assert ConditionsOf(there) == Map(ConditionsOf(ir), Replaced(name, def));
      } else {
        assert there == ir && fact == IsCondition(fact.def);
      }
    }
  }

  lemma LocalAfter(r: ResourceType, f: SubjectRef -> SubjectRef, l: Local)
    requires SaysLocal(r, l)
    ensures SaysLocal(AssignmentsMapped(f)(r), if l.Assigned? then Assigned(l.role, f(l.ref)) else l)
  {
    var there := AssignmentsMapped(f)(r);
    if l.HasRole? || l.Assigned? {
      var x :| x in r.roles && x.name == l.role && (l.Assigned? ==> l.ref in x.assignableBy);
      var i :| 0 <= i < |r.roles| && r.roles[i] == x;
      assert there.roles[i] == RoleMapped(f)(x) && there.roles[i] in there.roles;
      if l.Assigned? {
        var k :| 0 <= k < |x.assignableBy| && x.assignableBy[k] == l.ref;
        assert there.roles[i].assignableBy[k] == f(l.ref);
      }
    }
  }

  lemma LocalBefore(r: ResourceType, f: SubjectRef -> SubjectRef, l: Local) returns (before: Local)
    requires SaysLocal(AssignmentsMapped(f)(r), l)
    ensures SaysLocal(r, before) && l == if before.Assigned? then Assigned(before.role, f(before.ref)) else before
  {
    var there := AssignmentsMapped(f)(r);
    before := l;
    if l.HasRole? || l.Assigned? {
      var x' :| x' in there.roles && x'.name == l.role && (l.Assigned? ==> l.ref in x'.assignableBy);
      var i :| 0 <= i < |r.roles| && there.roles[i] == x';
      assert r.roles[i] in r.roles;
      if l.Assigned? {
        var k :| 0 <= k < |x'.assignableBy| && x'.assignableBy[k] == l.ref;
        assert r.roles[i].assignableBy[k] in r.roles[i].assignableBy;
        before := Assigned(l.role, r.roles[i].assignableBy[k]);
      }
    }
  }

  /** Every subject reference has changed by f. */
  ghost predicate SubjectsMapped(ir: ModelIR, there: ModelIR, f: SubjectRef -> SubjectRef) {
    there.groups == Map(ir.groups, MembersMapped(f)) && there.resources == Map(ir.resources, AssignmentsMapped(f))
  }

  lemma GroupAfter(ir: ModelIR, there: ModelIR, f: SubjectRef -> SubjectRef, g: GroupType) returns (g': GroupType)
    requires SubjectsMapped(ir, there, f) && g in ir.groups
    ensures g' in there.groups && g' == MembersMapped(f)(g)
  {
    hide MembersMapped, AssignmentsMapped;
    var i :| 0 <= i < |ir.groups| && ir.groups[i] == g;
    g' := there.groups[i];
  }

  lemma GroupBefore(ir: ModelIR, there: ModelIR, f: SubjectRef -> SubjectRef, g': GroupType) returns (g: GroupType)
    requires SubjectsMapped(ir, there, f) && g' in there.groups
    ensures g in ir.groups && g' == MembersMapped(f)(g)
  {
    hide MembersMapped, AssignmentsMapped;
    var i :| 0 <= i < |ir.groups| && there.groups[i] == g';
    g := ir.groups[i];
  }

  lemma ResourceAfter(ir: ModelIR, there: ModelIR, f: SubjectRef -> SubjectRef, r: ResourceType)
    returns (r': ResourceType)
    requires SubjectsMapped(ir, there, f) && r in ir.resources
    ensures r' in there.resources && r' == AssignmentsMapped(f)(r)
  {
    hide MembersMapped, AssignmentsMapped;
    var i :| 0 <= i < |ir.resources| && ir.resources[i] == r;
    r' := there.resources[i];
  }

  lemma ResourceBefore(ir: ModelIR, there: ModelIR, f: SubjectRef -> SubjectRef, r': ResourceType)
    returns (r: ResourceType)
    requires SubjectsMapped(ir, there, f) && r' in there.resources
    ensures r in ir.resources && r' == AssignmentsMapped(f)(r)
  {
    hide MembersMapped, AssignmentsMapped;
    var i :| 0 <= i < |ir.resources| && there.resources[i] == r';
    r := ir.resources[i];
  }

  lemma MembersAfter(g: GroupType, f: SubjectRef -> SubjectRef, ref: SubjectRef)
    ensures MembersMapped(f)(g).name == g.name
    ensures ref in MembersMapped(f)(g).memberTypes <==> exists m :: m in g.memberTypes && f(m) == ref
  {
    var there := MembersMapped(f)(g).memberTypes;
    if ref in there {
      var k :| 0 <= k < |there| && there[k] == ref;
      assert g.memberTypes[k] in g.memberTypes;
    }
    if m :| m in g.memberTypes && f(m) == ref {
      var k :| 0 <= k < |g.memberTypes| && g.memberTypes[k] == m;
      assert there[k] == ref;
    }
  }

  lemma GroupFactAfter(ir: ModelIR, there: ModelIR, f: SubjectRef -> SubjectRef, name: string, ref: SubjectRef)
    requires SubjectsMapped(ir, there, f)
    ensures Says(ir, IsGroup(name)) ==> Says(there, IsGroup(name))
    ensures Says(ir, IsMember(name, ref)) ==> Says(there, IsMember(name, f(ref)))
  {
    hide MembersMapped, SubjectsMapped, SaysLocal;
    if g :| g in ir.groups && g.name == name {
      var g' := GroupAfter(ir, there, f, g);
      MembersAfter(g, f, ref);
    }
    if g :| g in ir.groups && g.name == name && ref in g.memberTypes {
      var g' := GroupAfter(ir, there, f, g);
      MembersAfter(g, f, f(ref));
    }
  }

  lemma MemberBefore(ir: ModelIR, there: ModelIR, f: SubjectRef -> SubjectRef, name: string, ref: SubjectRef)
    returns (before: SubjectRef)
    requires SubjectsMapped(ir, there, f) && Says(there, IsMember(name, ref))
    ensures Says(ir, IsMember(name, before)) && f(before) == ref
  {
    hide MembersMapped, SubjectsMapped, SaysLocal;
    var g' :| g' in there.groups && g'.name == name && ref in g'.memberTypes;
    var g := GroupBefore(ir, there, f, g');
    MembersAfter(g, f, ref);
    before :| before in g.memberTypes && f(before) == ref;
  }

  lemma NamesBefore(ir: ModelIR, there: ModelIR, f: SubjectRef -> SubjectRef, name: string)
    requires SubjectsMapped(ir, there, f)
    ensures Says(there, IsGroup(name)) ==> Says(ir, IsGroup(name))
    ensures Says(there, IsResource(name)) ==> Says(ir, IsResource(name))
  {
    hide SubjectsMapped, SaysLocal;
    if g' :| g' in there.groups && g'.name == name {
      var g := GroupBefore(ir, there, f, g');
      assert g.name == name;
    }
    if r' :| r' in there.resources && r'.name == name {
      var r := ResourceBefore(ir, there, f, r');
      assert r.name == name;
    }
  }

  lemma ResourceFactAfter(ir: ModelIR, there: ModelIR, f: SubjectRef -> SubjectRef, typ: string, l: Local)
    requires SubjectsMapped(ir, there, f)
    ensures Says(ir, IsResource(typ)) ==> Says(there, IsResource(typ))
    ensures Says(ir, On(typ, l)) ==> Says(there, On(typ, if l.Assigned? then Assigned(l.role, f(l.ref)) else l))
  {
    MappedResourceName(f);
    hide AssignmentsMapped, SubjectsMapped, SaysLocal;
    if r :| r in ir.resources && r.name == typ {
      var r' := ResourceAfter(ir, there, f, r);
    }
    if r :| r in ir.resources && r.name == typ && SaysLocal(r, l) {
      var r' := ResourceAfter(ir, there, f, r);
      LocalAfter(r, f, l);
    }
  }

  lemma MappedResourceName(f: SubjectRef -> SubjectRef)
    ensures forall r :: AssignmentsMapped(f)(r).name == r.name
  {
  }

  lemma ResourceFactBefore(ir: ModelIR, there: ModelIR, f: SubjectRef -> SubjectRef, typ: string, l: Local)
    returns (before: Local)
    requires SubjectsMapped(ir, there, f) && Says(there, On(typ, l))
    ensures Says(ir, On(typ, before)) && l == if before.Assigned? then Assigned(before.role, f(before.ref)) else before
  {
    MappedResourceName(f);
    hide AssignmentsMapped, SubjectsMapped, SaysLocal;
    var r' :| r' in there.resources && r'.name == typ && SaysLocal(r', l);
    var r := ResourceBefore(ir, there, f, r');
    before := LocalBefore(r, f, l);
  }

  lemma FactAfter(ir: ModelIR, there: ModelIR, f: SubjectRef -> SubjectRef, before: Fact)
    requires !before.IsCondition? && Says(ir, before) && SubjectsMapped(ir, there, f)
    ensures Says(there, WithSubject(before, f))
  {
    hide Says, SubjectsMapped;
    match before
    case IsGroup(name) => GroupFactAfter(ir, there, f, name, User(None));
    case IsMember(group, ref) => GroupFactAfter(ir, there, f, group, ref);
    case IsResource(name) => ResourceFactAfter(ir, there, f, name, HasRole(name));
    case On(typ, l) => ResourceFactAfter(ir, there, f, typ, l);
  }

  lemma FactBefore(ir: ModelIR, there: ModelIR, f: SubjectRef -> SubjectRef, fact: Fact) returns (before: Fact)
    requires !fact.IsCondition? && Says(there, fact) && SubjectsMapped(ir, there, f)
    ensures Says(ir, before) && !before.IsCondition? && WithSubject(before, f) == fact
  {
    hide Says, SubjectsMapped;
    before := fact;
    match fact
    case IsGroup(name) => NamesBefore(ir, there, f, name);
    case IsMember(group, ref) => {
      var m := MemberBefore(ir, there, f, group, ref);
      before := IsMember(group, m);
    }
    case IsResource(name) => NamesBefore(ir, there, f, name);
    case On(typ, l) => {
      var k := ResourceFactBefore(ir, there, f, typ, l);
      before := On(typ, k);
    }
  }

  /** What is stated once every subject reference has changed by f. */
  lemma MappedFacts(ir: ModelIR, there: ModelIR, f: SubjectRef -> SubjectRef, fact: Fact)
    requires !fact.IsCondition? && SubjectsMapped(ir, there, f)
    ensures Says(there, fact) <==>
            exists before :: Says(ir, before) && !before.IsCondition? && WithSubject(before, f) == fact
  {
    hide *;
    if Says(there, fact) {
      var before := FactBefore(ir, there, f, fact);
    }
    if before :| Says(ir, before) && !before.IsCondition? && WithSubject(before, f) == fact {
      FactAfter(ir, there, f, before);
    }
  }

  lemma RenamingMaps(ir: ModelIR, from: string, to: string)
    ensures from == to || !Knows(ir, from) || Knows(ir, to) ==> WithConditionRenamed(ir, from, to) == ir
    ensures from != to && Knows(ir, from) && !Knows(ir, to) ==>
              && SubjectsMapped(ir, WithConditionRenamed(ir, from, to), SubjectRenamed(from, to))
              && ConditionsOf(WithConditionRenamed(ir, from, to)) == Map(ConditionsOf(ir), ConditionRenamed(from, to))
  {
    Known(ir, from);
    Known(ir, to);
    hide Knows, Map, ConditionNames;
  }

  lemma RenamedDefinition(ir: ModelIR, from: string, to: string, def: ConditionDef)
    requires from != to && Knows(ir, from) && !Knows(ir, to)
    ensures Says(WithConditionRenamed(ir, from, to), IsCondition(def)) <==>
            exists d :: Says(ir, IsCondition(d)) && def == ConditionRenamed(from, to)(d)
  {
    assert forall d :: Says(ir, IsCondition(d)) <==> d in ConditionsOf(ir);
    assert Says(WithConditionRenamed(ir, from, to), IsCondition(def)) <==>
      def in ConditionsOf(WithConditionRenamed(ir, from, to));
    hide *;
    RenamingMaps(ir, from, to);
    MappedConditions(ConditionsOf(ir), ConditionRenamed(from, to), def);
  }

  lemma RenamedConditionFacts(ir: ModelIR, from: string, to: string, fact: Fact)
    ensures Says(WithConditionRenamed(ir, from, to), fact) <==> HoldsAfter(ir, RenamingCondition(from, to), fact)
  {
    RenamingMaps(ir, from, to);
    hide Says, WithConditionRenamed, SubjectsMapped, Knows, ConditionsOf, Map;
    if from != to && Knows(ir, from) && !Knows(ir, to) {
      if fact.IsCondition? {
        RenamedDefinition(ir, from, to, fact.def);
        assert fact == IsCondition(fact.def);
      } else {
        MappedFacts(ir, WithConditionRenamed(ir, from, to), SubjectRenamed(from, to), fact);
      }
    }
  }

  lemma RemovedDefinition(ir: ModelIR, name: string, def: ConditionDef)
    requires Knows(ir, name)
    ensures Says(WithoutCondition(ir, name), IsCondition(def)) <==> Says(ir, IsCondition(def)) && def.name != name
  {
    Known(ir, name);
    assert ConditionsOf(WithoutCondition(ir, name)) == Filter(ConditionsOf(ir), (c: ConditionDef) => c.name != name);
    hide WithoutCondition, ConditionNames, Knows, ConditionsOf;
  }

  lemma RemovalMaps(ir: ModelIR, name: string)
    ensures !Knows(ir, name) ==> WithoutCondition(ir, name) == ir
    ensures Knows(ir, name) ==> SubjectsMapped(ir, WithoutCondition(ir, name), Unconditioned(name))
  {
    Known(ir, name);
    hide Knows, Filter, Map, ConditionNames;
  }

  lemma RemovedConditionFacts(ir: ModelIR, name: string, fact: Fact)
    ensures Says(WithoutCondition(ir, name), fact) <==> HoldsAfter(ir, RemovingCondition(name), fact)
  {
    RemovalMaps(ir, name);
    hide Says, WithoutCondition, SubjectsMapped, Knows;
    if Knows(ir, name) {
      if fact.IsCondition? {
        RemovedDefinition(ir, name, fact.def);
        assert fact == IsCondition(fact.def);
      } else {
        MappedFacts(ir, WithoutCondition(ir, name), Unconditioned(name), fact);
      }
    }
  }

  // ---------------------------------------------------------------------------
  // Every edit.

  lemma RoleEditFacts(ir: ModelIR, e: Operation, fact: Fact)
    requires Neat(ir)
    requires e.AddingRole? || e.RemovingRole? || e.RenamingRole? || e.SettingSubjects? || e.SettingCondition?
    ensures Says(Apply(ir, e), fact) <==> HoldsAfter(ir, e, fact)
  {
    hide Says, Neat, Reassigned, WithRole, ConcernsRole;
    match e
    case AddingRole(typ, name) => AddRoleFacts(ir, typ, name, fact);
    case RemovingRole(typ, name) => RemoveRoleFacts(ir, typ, name, fact);
    case RenamingRole(typ, from, to) => RenameRoleFacts(ir, typ, from, to, fact);
    case SettingSubjects(typ, role, refs) => SubjectsFacts(ir, typ, role, refs, fact);
    case SettingCondition(typ, role, index, condition) => AssignmentFacts(ir, typ, role, index, condition, fact);
  }

  lemma PermissionEditFacts(ir: ModelIR, e: Operation, fact: Fact)
    requires Neat(ir)
    requires e.TogglingCell? || e.TogglingInherit? || e.AddingPermission? || e.RemovingPermission?
            || e.RenamingPermission?
    ensures Says(Apply(ir, e), fact) <==> HoldsAfter(ir, e, fact)
  {
    hide Says, Neat, WithPerm, ConcernsPermission;
    match e
    case TogglingCell(typ, perm, role) => CellFacts(ir, typ, perm, role, fact);
    case TogglingInherit(typ, perm, relation) => InheritFacts(ir, typ, perm, relation, fact);
    case AddingPermission(typ, name) => AddPermissionFacts(ir, typ, name, fact);
    case RemovingPermission(typ, name) => RemovePermissionFacts(ir, typ, name, fact);
    case RenamingPermission(typ, from, to) => RenamePermissionFacts(ir, typ, from, to, fact);
  }

  /** Each change of a neat model changes exactly the facts that its description names, and no other. */
  lemma ChangeIsExact(ir: ModelIR, e: Operation, fact: Fact)
    requires Neat(ir)
    ensures Says(Apply(ir, e), fact) <==> HoldsAfter(ir, e, fact)
  {
    hide Says, Neat, StaysWithout, StaysCut, HasType, Knows, WithSubject;
    match e
    case AddingResource(name) => AddedResourceFacts(ir, name, fact);
    case AddingGroup(name) => AddedGroupFacts(ir, name, fact);
    case RemovingType(name) => TypeRemovedFacts(ir, name, fact);
    case ConnectingParent(child, parent, relation) => ConnectFacts(ir, child, parent, relation, fact);
    case DisconnectingParent(child, relation, only) => DisconnectedFacts(ir, child, relation, only, fact);
    case AddingCondition(def) => AddedConditionFacts(ir, def, fact);
    case UpdatingCondition(name, def) => UpdatedConditionFacts(ir, name, def, fact);
    case RenamingCondition(from, to) => RenamedConditionFacts(ir, from, to, fact);
    case RemovingCondition(name) => RemovedConditionFacts(ir, name, fact);
    case _ => {
      hide Apply, HoldsAfter;
      if e.AddingRole? || e.RemovingRole? || e.RenamingRole? || e.SettingSubjects? || e.SettingCondition? {
        RoleEditFacts(ir, e, fact);
      } else {
        PermissionEditFacts(ir, e, fact);
      }
    }
  }

  /** A condition comes out as its copy; every other fact stays what it is. */
  ghost predicate CopyOf(there: ConditionDef, was: ConditionDef) {
    there == CopiedDef(was)
  }

  lemma CopyStates(ir: ModelIR, fact: Fact)
    ensures Says(Copied(ir), fact) <==>
            if fact.IsCondition?
            then exists was :: Says(ir, IsCondition(was)) && CopyOf(fact.def, was) else Says(ir, fact)
  {
    hide SaysLocal;
    if fact.IsCondition? {
      MappedConditions(ConditionsOf(ir), CopiedDef, fact.def);
      hide Map, CopiedDef;
      assert forall was :: Says(ir, IsCondition(was)) <==> was in ConditionsOf(ir);
    }
  }

  /** What holds after an edit: what did, where it is refused; otherwise what its description says, each condition
      as its copy. */
  ghost predicate HoldsAfterEdit(ir: ModelIR, e: Operation, fact: Fact) {
    if Skips(ir, e) then Says(ir, fact)
    else if fact.IsCondition? then exists was :: HoldsAfter(ir, e, IsCondition(was)) && CopyOf(fact.def, was)
    else HoldsAfter(ir, e, fact)
  }

  /** Each edit of a neat model changes exactly the facts that its description names, and no other. */
  lemma EditChangesExactly(ir: ModelIR, e: Operation, fact: Fact)
    requires Neat(ir)
    ensures Says(Edited(ir, e), fact) <==> HoldsAfterEdit(ir, e, fact)
  {
    EditedIsCopied(ir, e);
    hide Neat, Says, HoldsAfter, Apply, Edited, Skips, CopyOf;
    if !Skips(ir, e) {
      CopyStates(Apply(ir, e), fact);
      if fact.IsCondition? {
        forall was ensures Says(Apply(ir, e), IsCondition(was)) <==> HoldsAfter(ir, e, IsCondition(was)) {
          ChangeIsExact(ir, e, IsCondition(was));
        }
      } else {
        ChangeIsExact(ir, e, fact);
      }
    }
  }

  /** What stays when a type goes. */
  lemma RemovedTypeFacts(ir: ModelIR, name: string, fact: Fact)
    requires Neat(ir)
    ensures Says(Edited(ir, RemovingType(name)), fact) <==>
            if fact.IsCondition?
            then exists was :: Says(ir, IsCondition(was)) && CopyOf(fact.def, was) else StaysWithout(ir, name, fact)
  {
    EditChangesExactly(ir, RemovingType(name), fact);
    assert !Skips(ir, RemovingType(name));
    assert forall was :: HoldsAfter(ir, RemovingType(name), IsCondition(was)) <==> Says(ir, IsCondition(was));
    hide Says, Neat, Edited, CopyOf;
  }

  /** What stays when a parent is cut off. */
  lemma DisconnectFacts(ir: ModelIR, child: string, relation: string, only: Option<string>, fact: Fact)
    requires Neat(ir) && Says(ir, IsResource(child))
    ensures Says(Edited(ir, DisconnectingParent(child, relation, only)), fact) <==>
            if fact.IsCondition? then exists was :: Says(ir, IsCondition(was)) && CopyOf(fact.def, was)
            else StaysCut(ir, child, relation, only, fact)
  {
    var e := DisconnectingParent(child, relation, only);
    EditChangesExactly(ir, e, fact);
    FoundIsStated(ir, child);
    assert !Skips(ir, e);
    assert forall was :: HoldsAfter(ir, e, IsCondition(was)) <==> Says(ir, IsCondition(was));
    hide Says, Neat, Edited, CopyOf, LastLink;
  }

  /** Every well-formed model is neat. */
  lemma WellFormedIsNeat(ir: ModelIR)
    requires WellFormed(ir)
    ensures Neat(ir)
  {
    WellFormedIsClosed(ir);
    forall r | r in ir.resources ensures NeatResource(r) {
      assert GoodResource(r, ir);
      hide Closed, WellFormed;
      var (ps, rs, cs) := (ParentNames(r.parents), RoleNames(r.roles), CanNames(r.permissions));
      DistinctParts(ps + rs, cs);
      DistinctParts(ps, rs);
      forall i, j | 0 <= i < j < |r.permissions| ensures r.permissions[i].name != r.permissions[j].name {
        assert cs[i] != cs[j];
      }
    }
    hide NeatResource, Closed, WellFormed;
  }
}
