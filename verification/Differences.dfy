/** What each reported change says about the two models, stated over their lists. */
module Differences {
  import opened Prelude
  import opened TextOrder
  import opened ModelIr
  import opened ModelDiff

  /** x is the last element of the name. */
  ghost predicate LastNamed<T(!new)>(s: seq<T>, name: T -> string, n: string, x: T) {
    exists i ::
      && 0 <= i < |s| && s[i] == x && name(x) == n
      && forall k :: i < k < |s| ==> name(s[k]) != n
  }

  ghost predicate IsResource(ir: ModelIR, typ: string, r: ResourceType) {
    LastNamed(ir.resources, (x: ResourceType) => x.name, typ, r)
  }

  ghost predicate IsRole(r: ResourceType, name: string, role: Role) {
    LastNamed(r.roles, (x: Role) => x.name, name, role)
  }

  ghost predicate IsPermission(r: ResourceType, name: string, p: Permission) {
    LastNamed(r.permissions, (x: Permission) => x.name, name, p)
  }

  ghost predicate IsType(ir: ModelIR, typ: string) {
    (exists g :: g in ir.groups && g.name == typ) || exists r :: r in ir.resources && r.name == typ
  }

  ghost predicate HasRole(r: ResourceType, name: string) {
    exists role :: role in r.roles && role.name == name
  }

  ghost predicate HasPermission(r: ResourceType, name: string) {
    exists p :: p in r.permissions && p.name == name
  }

  /** Whom a role can be assigned to: users, or the members of a group; conditions aside. */
  ghost predicate AssignedTo(role: Role, key: string) {
    exists ref :: ref in role.assignableBy && (if ref.Group? then key == ref.group + "#member" else key == "user")
  }

  /** A parent relation and one of its types, joined by NUL. */
  ghost predicate Joins(r: ResourceType, text: string) {
    exists p, t :: p in r.parents && t in p.parentTypes && text == p.relationName + "\0" + t
  }

  /** The lists are what came and what went, each sorted, and something did. */
  ghost predicate ListsDifference(had: string -> bool, has: string -> bool, added: seq<string>, removed: seq<string>) {
    && Ascending(added, Itself) && (forall x :: x in added <==> has(x) && !had(x))
    && Ascending(removed, Itself) && (forall x :: x in removed <==> had(x) && !has(x))
    && (added != [] || removed != [])
  }

  ghost predicate AssignmentsDiffer(a: Role, b: Role, added: seq<string>, removed: seq<string>) {
    ListsDifference(x => AssignedTo(a, x), x => AssignedTo(b, x), added, removed)
  }

  ghost predicate SaysIn(fr: ResourceType, tr: ResourceType, c: Change) {
    match c
    case RoleAdded(_, role) => HasRole(tr, role) && !HasRole(fr, role)
    case RoleRemoved(_, role) => HasRole(fr, role) && !HasRole(tr, role)
    case RoleAssignableChanged(_, role, added, removed) =>
      exists a, b :: IsRole(fr, role, a) && IsRole(tr, role, b) && AssignmentsDiffer(a, b, added, removed)
    case PermissionAdded(_, permission) => HasPermission(tr, permission) && !HasPermission(fr, permission)
    case PermissionRemoved(_, permission) => HasPermission(fr, permission) && !HasPermission(tr, permission)
    case GrantChanged(_, permission, added, removed) =>
      exists a, b ::
        IsPermission(fr, permission, a) && IsPermission(tr, permission, b)
        && ListsDifference(x => x in a.grantedByRoles, x => x in b.grantedByRoles, added, removed)
    case InheritChanged(_, permission, added, removed) =>
      exists a, b ::
        IsPermission(fr, permission, a) && IsPermission(tr, permission, b)
        && ListsDifference(x => x in a.inheritFromParents, x => x in b.inheritFromParents, added, removed)
    case ParentAdded(_, relation, parent) =>
      var text := relation + "\0" + parent; '\0' !in relation && Joins(tr, text) && !Joins(fr, text)
    case ParentRemoved(_, relation, parent) =>
      var text := relation + "\0" + parent; '\0' !in relation && Joins(fr, text) && !Joins(tr, text)
    case _ => false
  }

  ghost predicate Says(from: ModelIR, to: ModelIR, c: Change) {
    match c
    case TypeAdded(typ) => IsType(to, typ) && !IsType(from, typ)
    case TypeRemoved(typ) => IsType(from, typ) && !IsType(to, typ)
    case _ => exists fr, tr :: IsResource(from, c.typ, fr) && IsResource(to, c.typ, tr) && SaysIn(fr, tr, c)
  }

  // ---------------------------------------------------------------------------
  // The maps and sets that are compared.

  lemma {:induction false} ByNameIs<T(!new)>(s: seq<T>, name: T -> string, n: string)
    ensures n in ByName(s, name) <==> exists x :: x in s && name(x) == n
    ensures forall x :: LastNamed(s, name, n, x) <==> n in ByName(s, name) && ByName(s, name)[n] == x
  {
    if s != [] {
      var (front, last) := (s[..|s| - 1], s[|s| - 1]);
      assert forall x :: x in s <==> x in front || x == last;
      assert forall i :: 0 <= i < |front| ==> front[i] == s[i];
      ByNameIs(front, name, n);
      forall x ensures LastNamed(s, name, n, x) <==> n in ByName(s, name) && ByName(s, name)[n] == x {
        LastNamedNext(front, last, name, n, x);
        assert front + [last] == s;
      }
    }
  }

  lemma LastNamedNext<T(!new)>(front: seq<T>, last: T, name: T -> string, n: string, x: T)
    ensures LastNamed(front + [last], name, n, x) <==>
            if name(last) == n then x == last else LastNamed(front, name, n, x)
  {
    var s := front + [last];
    assert s[|front|] == last;
    if name(last) != n {
      if i :| 0 <= i < |front| && front[i] == x && name(x) == n && forall k :: i < k < |front| ==> name(front[k]) != n {
        assert s[i] == x && forall k :: i < k < |s| ==> name(s[k]) != n;
      }
      if i :| 0 <= i < |s| && s[i] == x && name(x) == n && forall k :: i < k < |s| ==> name(s[k]) != n {
        assert front[i] == x && forall k :: i < k < |front| ==> front[k] == s[k];
      }
    }
  }

  lemma ResourcesAre(ir: ModelIR, typ: string)
    ensures forall r :: IsResource(ir, typ, r) <==>
              typ in ResourceMap(ir.resources) && ResourceMap(ir.resources)[typ] == r
  {
    ByNameIs(ir.resources, ResourceName, typ);
    forall r ensures IsResource(ir, typ, r) <==> LastNamed(ir.resources, ResourceName, typ, r) {
    }
    hide ByName, LastNamed;
  }

  lemma RolesAre(r: ResourceType, n: string)
    ensures n in RoleMap(r.roles) <==> HasRole(r, n)
    ensures forall role :: IsRole(r, n, role) <==> n in RoleMap(r.roles) && RoleMap(r.roles)[n] == role
  {
    ByNameIs(r.roles, RoleName, n);
    forall role ensures IsRole(r, n, role) <==> LastNamed(r.roles, RoleName, n, role) {
    }
    hide ByName, LastNamed;
  }

  lemma PermissionsAre(r: ResourceType, n: string)
    ensures n in PermissionMap(r.permissions) <==> HasPermission(r, n)
    ensures forall p :: IsPermission(r, n, p) <==>
              n in PermissionMap(r.permissions) && PermissionMap(r.permissions)[n] == p
  {
    ByNameIs(r.permissions, PermissionName, n);
    forall p ensures IsPermission(r, n, p) <==> LastNamed(r.permissions, PermissionName, n, p) {
    }
    hide ByName, LastNamed;
  }

  lemma KeysAre(role: Role, key: string)
    ensures key in SubjectKeys(role) <==> AssignedTo(role, key)
  {
  }

  lemma PairsAre(r: ResourceType, text: string)
    ensures text in ParentPairs(r) <==> Joins(r, text)
  {
  }

  lemma HalvesAre(text: string, relation: string, typ: string)
    requires '\0' in text
    ensures Halves(text) == (relation, typ) <==> '\0' !in relation && text == relation + "\0" + typ
  {
    if '\0' !in relation && text == relation + "\0" + typ {
      PairHalves(relation, typ);
    }
    var i := IndexOf(text, '\0');
    assert text == text[..i] + "\0" + text[i + 1..];
  }

  lemma JoinedHasNul(r: ResourceType, text: string)
    requires Joins(r, text)
    ensures '\0' in text
  {
    var p, t :| p in r.parents && t in p.parentTypes && text == p.relationName + "\0" + t;
    assert text[|p.relationName|] == '\0';
  }

  lemma DifferIs(from: set<string>, to: set<string>, had: string -> bool, has: string -> bool, added: seq<string>,
      removed: seq<string>)
    requires forall x :: x in from <==> had(x)
    requires forall x :: x in to <==> has(x)
    ensures Differ(from, to, added, removed) <==> ListsDifference(had, has, added, removed)
  {
    hide Listed, Ascending;
    DifferMeaning(from, to);
    if ListsDifference(had, has, added, removed) {
      ListingUnique(added, Listed(to - from), Itself);
      ListingUnique(removed, Listed(from - to), Itself);
    }
  }

  lemma PairsExactly(fr: ResourceType, tr: ResourceType, relation: string, typ: string)
    ensures (exists pair :: pair in ParentPairs(tr) - ParentPairs(fr) && Halves(pair) == (relation, typ)) <==>
            (var text := relation + "\0" + typ; '\0' !in relation && Joins(tr, text) && !Joins(fr, text))
  {
    var text := relation + "\0" + typ;
    PairsAre(tr, text);
    PairsAre(fr, text);
    assert text[|relation|] == '\0';
    HalvesAre(text, relation, typ);
    forall pair | pair in ParentPairs(tr) - ParentPairs(fr) && Halves(pair) == (relation, typ)
      ensures '\0' !in relation && pair == text
    {
      PairsAre(tr, pair);
      JoinedHasNul(tr, pair);
      HalvesAre(pair, relation, typ);
    }
  }

  // ---------------------------------------------------------------------------
  // Changes.

  lemma AssignmentsAre(a: Role, b: Role, added: seq<string>, removed: seq<string>)
    ensures Differ(SubjectKeys(a), SubjectKeys(b), added, removed) <==> AssignmentsDiffer(a, b, added, removed)
  {
    forall x ensures x in SubjectKeys(a) <==> AssignedTo(a, x) {
      KeysAre(a, x);
    }
    forall x ensures x in SubjectKeys(b) <==> AssignedTo(b, x) {
      KeysAre(b, x);
    }
    hide SubjectKeys, AssignedTo, Differ, ListsDifference;
    DifferIs(SubjectKeys(a), SubjectKeys(b), x => AssignedTo(a, x), x => AssignedTo(b, x), added, removed);
  }

  lemma AssignableExactly(fr: ResourceType, tr: ResourceType, c: Change)
    requires c.RoleAssignableChanged?
    ensures ReportsIn(fr, tr, c) <==> SaysIn(fr, tr, c)
  {
    RolesAre(fr, c.role);
    RolesAre(tr, c.role);
    hide RoleMap, SubjectKeys, HasRole, IsRole, Differ, AssignmentsDiffer;
    if HasRole(fr, c.role) && HasRole(tr, c.role) {
      AssignmentsAre(RoleMap(fr.roles)[c.role], RoleMap(tr.roles)[c.role], c.added, c.removed);
    }
  }

  lemma PermissionExactly(fr: ResourceType, tr: ResourceType, c: Change)
    requires c.GrantChanged? || c.InheritChanged?
    ensures ReportsIn(fr, tr, c) <==> SaysIn(fr, tr, c)
  {
    PermissionsAre(fr, c.permission);
    PermissionsAre(tr, c.permission);
    hide PermissionMap, HasPermission, IsPermission, Differ, ListsDifference;
    if HasPermission(fr, c.permission) && HasPermission(tr, c.permission) {
      var (a, b) := (PermissionMap(fr.permissions)[c.permission], PermissionMap(tr.permissions)[c.permission]);
      if c.GrantChanged? {
        DifferIs(SetOf(a.grantedByRoles), SetOf(b.grantedByRoles), x => x in a.grantedByRoles,
                 x => x in b.grantedByRoles, c.added, c.removed);
      } else {
        DifferIs(SetOf(a.inheritFromParents), SetOf(b.inheritFromParents), x => x in a.inheritFromParents,
                 x => x in b.inheritFromParents, c.added, c.removed);
      }
    }
  }

  lemma ChangeExactly(fr: ResourceType, tr: ResourceType, c: Change)
    ensures ReportsIn(fr, tr, c) <==> SaysIn(fr, tr, c)
  {
    hide RoleMap, PermissionMap, ParentPairs, SubjectKeys, Halves, HasRole, HasPermission, IsRole, IsPermission, Joins,
      Differ, ListsDifference, AssignedTo;
    match c
    case RoleAdded(_, role) =>
      RolesAre(fr, role);
      RolesAre(tr, role);
    case RoleRemoved(_, role) =>
      RolesAre(fr, role);
      RolesAre(tr, role);
    case RoleAssignableChanged(_, _, _, _) => AssignableExactly(fr, tr, c);
    case PermissionAdded(_, permission) =>
      PermissionsAre(fr, permission);
      PermissionsAre(tr, permission);
    case PermissionRemoved(_, permission) =>
      PermissionsAre(fr, permission);
      PermissionsAre(tr, permission);
    case GrantChanged(_, _, _, _) => PermissionExactly(fr, tr, c);
    case InheritChanged(_, _, _, _) => PermissionExactly(fr, tr, c);
    case ParentAdded(_, relation, parent) => PairsExactly(fr, tr, relation, parent);
    case ParentRemoved(_, relation, parent) => PairsExactly(tr, fr, relation, parent);
    case _ =>
  }

  lemma TypesAre(ir: ModelIR, typ: string)
    ensures typ in TypeSet(ir) <==> IsType(ir, typ)
  {
    var (groups, resources) := (GroupNames(ir.groups), ResourceNames(ir.resources));
    assert typ in TypeSet(ir) <==> typ in groups || typ in resources;
    if g :| g in ir.groups && g.name == typ {
      var i :| 0 <= i < |ir.groups| && ir.groups[i] == g;
      assert groups[i] == typ;
    }
    if r :| r in ir.resources && r.name == typ {
      var i :| 0 <= i < |ir.resources| && ir.resources[i] == r;
      assert resources[i] == typ;
    }
    hide TypeSet;
  }

  /** A change is reported exactly when the lists of the two models say so. */
  lemma ReportsExactly(from: ModelIR, to: ModelIR, c: Change)
    ensures Reports(from, to, c) <==> Says(from, to, c)
  {
    hide TypeSet, IsType, ResourceMap, IsResource, ReportsIn, SaysIn;
    if c.TypeAdded? || c.TypeRemoved? {
      TypesAre(from, c.typ);
      TypesAre(to, c.typ);
    } else {
      ResourcesAre(from, c.typ);
      ResourcesAre(to, c.typ);
      if c.typ in ResourceMap(from.resources) && c.typ in ResourceMap(to.resources) {
        ChangeExactly(ResourceMap(from.resources)[c.typ], ResourceMap(to.resources)[c.typ], c);
      }
    }
  }

  /** The list that comes out holds exactly those changes, and the text of each comes before that of the next. */
  lemma DiffExactly(from: ModelIR, to: ModelIR, r: seq<Change>)
    ensures IsDiff(from, to, r) <==> Ascending(r, JsonText) && forall c :: c in r <==> Says(from, to, c)
  {
    forall c ensures Reports(from, to, c) <==> Says(from, to, c) {
      ReportsExactly(from, to, c);
    }
    hide Reports, Says, Ascending;
  }

  /** Where relation names hold no NUL, as identifiers do, a joined text is there exactly when its two halves are. */
  lemma JoinsWithoutNul(r: ResourceType, relation: string, typ: string)
    requires '\0' !in relation && forall p :: p in r.parents ==> '\0' !in p.relationName
    ensures Joins(r, relation + "\0" + typ) <==>
            exists p :: p in r.parents && p.relationName == relation && typ in p.parentTypes
  {
    var text := relation + "\0" + typ;
    assert text[|relation|] == '\0';
    HalvesAre(text, relation, typ);
    forall p, t | p in r.parents && t in p.parentTypes && text == p.relationName + "\0" + t
      ensures p.relationName == relation && t == typ
    {
      HalvesAre(text, p.relationName, t);
    }
  }
}
