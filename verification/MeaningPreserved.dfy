/** Compiling and decompiling keep every relation's meaning. */
module MeaningPreserved {
  import opened Prelude
  import opened Sorting
  import opened Condition
  import opened ModelIr
  import opened Validator
  import opened AuthModel
  import opened Compiler
  import opened Decompiler
  import opened RoundTrip
  import opened Meaning
  import Partition

  // ---------------------------------------------------------------------------
  // Looking names up.

  lemma {:induction false} RelationFound(rs: seq<Relation>, name: string)
    ensures RelationNamed(rs, name).None? ==> forall x :: x in rs ==> x.name != name
    ensures RelationNamed(rs, name).Some? ==>
            RelationNamed(rs, name).value in rs && RelationNamed(rs, name).value.name == name
  {
    if rs != [] {
      RelationFound(rs[1..], name);
    }
  }

  lemma {:induction false} TypeFound(ts: seq<TypeDef>, name: string)
    ensures AuthModel.TypeNamed(ts, name).None? ==> forall x :: x in ts ==> x.name != name
    ensures var x := AuthModel.TypeNamed(ts, name); x.Some? ==> x.value in ts && x.value.name == name
  {
    if ts != [] {
      TypeFound(ts[1..], name);
    }
  }

  lemma {:induction false} GroupFound(gs: seq<GroupType>, name: string)
    ensures GroupNamed(gs, name).None? <==> name !in GroupNames(gs)
    ensures var x := GroupNamed(gs, name); x.Some? ==> x.value in gs && x.value.name == name
  {
    if gs != [] {
      GroupFound(gs[1..], name);
      assert GroupNames(gs) == [gs[0].name] + GroupNames(gs[1..]);
    }
  }

  lemma {:induction false} ResourceFound(rs: seq<ResourceType>, name: string)
    ensures ResourceNamed(rs, name).None? <==> name !in ResourceNames(rs)
    ensures var x := ResourceNamed(rs, name); x.Some? ==> x.value in rs && x.value.name == name
  {
    if rs != [] {
      ResourceFound(rs[1..], name);
      assert ResourceNames(rs) == [rs[0].name] + ResourceNames(rs[1..]);
    }
  }

  lemma {:induction false} ParentFound(ps: seq<ParentRef>, name: string)
    ensures ParentNamed(ps, name).None? <==> name !in ParentNames(ps)
    ensures var x := ParentNamed(ps, name); x.Some? ==> x.value in ps && x.value.relationName == name
  {
    if ps != [] {
      ParentFound(ps[1..], name);
      assert ParentNames(ps) == [ps[0].relationName] + ParentNames(ps[1..]);
    }
  }

  lemma {:induction false} RoleFound(rs: seq<Role>, name: string)
    ensures RoleNamed(rs, name).None? <==> name !in RoleNames(rs)
    ensures var x := RoleNamed(rs, name); x.Some? ==> x.value in rs && x.value.name == name
  {
    if rs != [] {
      RoleFound(rs[1..], name);
      assert RoleNames(rs) == [rs[0].name] + RoleNames(rs[1..]);
    }
  }

  lemma {:induction false} CanFound(ps: seq<Permission>, can: string)
    ensures CanNamed(ps, can).None? <==> can !in CanNames(ps)
    ensures var x := CanNamed(ps, can); x.Some? ==> x.value in ps && CanName(x.value.name) == can
  {
    hide CanName;
    if ps != [] {
      CanFound(ps[1..], can);
      assert CanNames(ps) == [CanName(ps[0].name)] + CanNames(ps[1..]);
    }
  }

  /** With distinct names, an element is the one its name finds. */
  lemma DistinctApart(a: seq<string>, b: seq<string>, i: nat, j: nat)
    requires Distinct(a + b)
    ensures i < |a| && j < |b| ==> a[i] != b[j]
    ensures i < |a| && j < |a| && a[i] == a[j] ==> i == j
    ensures i < |b| && j < |b| && b[i] == b[j] ==> i == j
  {
    if i < |a| && j < |b| {
      assert (a + b)[i] == a[i] && (a + b)[|a| + j] == b[j];
    }
    if i < |b| && j < |b| {
      assert (a + b)[|a| + i] == b[i] && (a + b)[|a| + j] == b[j];
    }
    if i < |a| && j < |a| {
      assert (a + b)[i] == a[i] && (a + b)[j] == a[j];
    }
  }

  lemma OwnParent(r: ResourceType, i: nat)
    requires Distinct(RelationNames(r)) && i < |r.parents|
    ensures DefIn(r, r.parents[i].relationName) == Some(Linking(r.parents[i].parentTypes))
  {
    var name := r.parents[i].relationName;
    var names := ParentNames(r.parents);
    ParentFound(r.parents, name);
    assert names[i] == name;
    var j :| 0 <= j < |r.parents| && r.parents[j] == ParentNamed(r.parents, name).value;
    var rest := RoleNames(r.roles) + CanNames(r.permissions);
    assert RelationNames(r) == names + rest;
    DistinctApart(names, rest, i, j);
  }

  lemma OwnRole(r: ResourceType, i: nat)
    requires Distinct(RelationNames(r)) && i < |r.roles|
    ensures DefIn(r, r.roles[i].name) == Some(Assignable(r.roles[i].assignableBy))
  {
    var name := r.roles[i].name;
    var (ps, rs, cs) := (ParentNames(r.parents), RoleNames(r.roles), CanNames(r.permissions));
    hide CanName;
    ParentFound(r.parents, name);
    RoleFound(r.roles, name);
    assert rs[i] == name;
    assert RelationNames(r) == (ps + rs) + cs;
    if name in ps {
      var k :| 0 <= k < |ps| && ps[k] == name;
      assert (ps + rs)[|ps| + i] == name && (ps + rs)[k] == name;
      DistinctApart(ps + rs, cs, |ps| + i, k);
    }
    var j :| 0 <= j < |r.roles| && r.roles[j] == RoleNamed(r.roles, name).value;
    assert (ps + rs)[|ps| + i] == name && (ps + rs)[|ps| + j] == name;
    DistinctApart(ps + rs, cs, |ps| + i, |ps| + j);
  }

  lemma OwnPermission(r: ResourceType, i: nat)
    requires Distinct(RelationNames(r)) && i < |r.permissions|
    ensures DefIn(r, CanName(r.permissions[i].name)) == Some(Granted(r.permissions[i]))
  {
    var name := CanName(r.permissions[i].name);
    var (ps, rs, cs) := (ParentNames(r.parents), RoleNames(r.roles), CanNames(r.permissions));
    hide CanName;
    ParentFound(r.parents, name);
    RoleFound(r.roles, name);
    CanFound(r.permissions, name);
    assert cs[i] == name;
    assert RelationNames(r) == (ps + rs) + cs;
    if name in ps {
      var k :| 0 <= k < |ps| && ps[k] == name;
      assert (ps + rs)[k] == name;
      DistinctApart(ps + rs, cs, k, i);
    }
    if name in rs {
      var k :| 0 <= k < |rs| && rs[k] == name;
      assert (ps + rs)[|ps| + k] == name;
      DistinctApart(ps + rs, cs, |ps| + k, i);
    }
    var j :| 0 <= j < |r.permissions| && r.permissions[j] == CanNamed(r.permissions, name).value;
    assert cs[j] == name;
    DistinctApart(ps + rs, cs, i, j);
  }

  lemma NotIn(r: ResourceType, name: string)
    requires name !in RelationNames(r)
    ensures DefIn(r, name).None?
  {
    ParentFound(r.parents, name);
    RoleFound(r.roles, name);
    CanFound(r.permissions, name);
  }

  lemma OwnGroup(ir: ModelIR, i: nat)
    requires Distinct(TypeNames(ir)) && i < |ir.groups|
    ensures forall name :: DefOn(ir, ir.groups[i].name, name) ==
              if name == "member" then Some(Assignable(ir.groups[i].memberTypes)) else None
  {
    var typ := ir.groups[i].name;
    GroupFound(ir.groups, typ);
    assert GroupNames(ir.groups)[i] == typ;
    var j :| 0 <= j < |ir.groups| && ir.groups[j] == GroupNamed(ir.groups, typ).value;
    DistinctApart(GroupNames(ir.groups), ResourceNames(ir.resources), i, j);
  }

  lemma OwnResource(ir: ModelIR, i: nat)
    requires Distinct(TypeNames(ir)) && i < |ir.resources|
    ensures forall name :: DefOn(ir, ir.resources[i].name, name) == DefIn(ir.resources[i], name)
  {
    var typ := ir.resources[i].name;
    GroupFound(ir.groups, typ);
    ResourceFound(ir.resources, typ);
    assert ResourceNames(ir.resources)[i] == typ;
    if typ in GroupNames(ir.groups) {
      var k :| 0 <= k < |ir.groups| && GroupNames(ir.groups)[k] == typ;
      DistinctApart(GroupNames(ir.groups), ResourceNames(ir.resources), k, i);
    }
    var j :| 0 <= j < |ir.resources| && ir.resources[j] == ResourceNamed(ir.resources, typ).value;
    DistinctApart(GroupNames(ir.groups), ResourceNames(ir.resources), i, j);
  }

  lemma NoSuchType(ir: ModelIR, typ: string)
    requires typ !in TypeNames(ir)
    ensures forall name :: DefOn(ir, typ, name).None?
  {
    GroupFound(ir.groups, typ);
    ResourceFound(ir.resources, typ);
  }

  lemma InheritsFromWellFormed(ir: ModelIR)
    requires WellFormed(ir)
    ensures InheritsAlongParents(ir)
  {
    hide GoodTypeNames, GoodSubjects, GoodConditions, Distinct, InheritanceResolves, IsIdentifier;
    forall typ, name, rel | DefOn(ir, typ, name).Some? && DefOn(ir, typ, name).value.Granted?
                            && rel in DefOn(ir, typ, name).value.perm.inheritFromParents
      ensures DefOn(ir, typ, rel).Some? && DefOn(ir, typ, rel).value.Linking?
    {
      ResourceFound(ir.resources, typ);
      var r := ResourceNamed(ir.resources, typ).value;
      CanFound(r.permissions, name);
      assert GoodResource(r, ir);
      assert GoodPermission(CanNamed(r.permissions, name).value, r, ir);
      ParentFound(r.parents, rel);
    }
  }

  // ---------------------------------------------------------------------------
  // Emitted definitions say what the model does.

  /** x and def agree on one name, in some resource's terms. */
  ghost predicate Agree(x: Option<Relation>, def: Option<Def>, name: string) {
    (x.Some? <==> def.Some?)
      && (def.Some? ==> exists roleNames, parentRels :: Says(x.value, def.value, name, roleNames, parentRels))
  }

  lemma EmittedSubjectsSay(name: string, refs: seq<SubjectRef>)
    ensures Says(Relation(name, This, Map(refs, EmitSubject)), Assignable(refs), name, {}, {})
  {
    SubjectsRead(refs, {});
    if refs == [] {
      assert Map(refs, EmitSubject) == [];
    }
  }

  lemma EmittedParentSays(p: ParentRef)
    requires "user" !in p.parentTypes
    ensures Says(EmitParent(p), Linking(p.parentTypes), p.relationName, {}, {})
  {
    var sent := Map(p.parentTypes, EmitParentType);
    forall r | r in sent ensures IsResourceTypeRef(r) {
      var i :| 0 <= i < |sent| && sent[i] == r;
      assert p.parentTypes[i] in p.parentTypes;
    }
    assert Map(sent, TypeOfRef) == p.parentTypes;
  }

  lemma EmittedPermissionSays(r: ResourceType, perm: Permission, conds: set<string>)
    requires Classifiable(r, conds) && perm in r.permissions
    ensures Says(EmitPermission(perm), Granted(perm), CanName(perm.name), SetOf(RoleNames(r.roles)),
            SetOf(ParentNames(r.parents)))
  {
    hide ClassifyRewrite, CanName, PermissionChildren, Classifiable;
    NamesPresent(r, perm, conds);
    PermissionClassified(perm, SetOf(RoleNames(r.roles)), SetOf(ParentNames(r.parents)));
  }

  lemma ParentAgrees(r: ResourceType, conds: set<string>, i: nat)
    requires Classifiable(r, conds) && Distinct(RelationNames(r)) && i < |r.parents|
    ensures var x := EmitParent(r.parents[i]); Agree(Some(x), DefIn(r, x.name), x.name)
  {
    assert r.parents[i] in r.parents;
    hide DefIn, Says, Distinct;
    OwnParent(r, i);
    EmittedParentSays(r.parents[i]);
  }

  lemma RoleAgrees(r: ResourceType, i: nat)
    requires Distinct(RelationNames(r)) && i < |r.roles|
    ensures var x := EmitRole(r.roles[i]); Agree(Some(x), DefIn(r, x.name), x.name)
  {
    hide DefIn, Says, Distinct;
    OwnRole(r, i);
    EmittedSubjectsSay(r.roles[i].name, r.roles[i].assignableBy);
  }

  lemma PermissionAgrees(r: ResourceType, conds: set<string>, i: nat)
    requires Classifiable(r, conds) && Distinct(RelationNames(r)) && i < |r.permissions|
    ensures var x := EmitPermission(r.permissions[i]); Agree(Some(x), DefIn(r, x.name), x.name)
  {
    assert r.permissions[i] in r.permissions;
    hide DefIn, Says, Distinct, CanName, PermissionChildren;
    OwnPermission(r, i);
    EmittedPermissionSays(r, r.permissions[i], conds);
  }

  /** The i-th relation of a resource, and what its name means there. */
  lemma RelationSays(r: ResourceType, conds: set<string>, i: nat)
    requires Classifiable(r, conds) && Distinct(RelationNames(r)) && i < |ResourceRelations(r)|
    ensures var x := ResourceRelations(r)[i]; Agree(Some(x), DefIn(r, x.name), x.name)
  {
    hide DefIn, Says, CanName, PermissionChildren, RelationNames, Distinct, EmitParent, EmitRole;
    hide EmitPermission, Agree, Classifiable;
    ThirdOfThree(Map(r.parents, EmitParent), Map(r.roles, EmitRole), Map(r.permissions, EmitPermission), i);
    if i < |r.parents| {
      ParentAgrees(r, conds, i);
    } else if i < |r.parents| + |r.roles| {
      RoleAgrees(r, i - |r.parents|);
    } else {
      PermissionAgrees(r, conds, i - |r.parents| - |r.roles|);
    }
  }

  lemma EmittedResourceAgrees(r: ResourceType, conds: set<string>, name: string)
    requires Classifiable(r, conds) && Distinct(RelationNames(r))
    ensures Agree(RelationNamed(EmitResource(r).relations, name), DefIn(r, name), name)
  {
    var rels := ResourceRelations(r);
    RelationsNamed(r);
    hide StableSort, DefIn, ResourceRelations, RelationNames, Agree, Classifiable, Distinct, IndexKey;
    SameElements(rels, RelationKey);
    RelationFound(EmitResource(r).relations, name);
    var x := RelationNamed(EmitResource(r).relations, name);
    if x.Some? {
      var i :| 0 <= i < |rels| && rels[i] == x.value;
      RelationSays(r, conds, i);
    } else {
      NotIn(r, name);
      NothingAgrees(name);
    }
  }

  lemma NothingAgrees(name: string)
    ensures Agree(None, None, name)
  {
  }

  lemma EmittedGroupAgrees(g: GroupType, name: string)
    ensures Agree(RelationNamed(EmitGroup(g).relations, name), if name == "member" then Some(Assignable(g.memberTypes))
            else None, name)
  {
    EmittedSubjectsSay("member", g.memberTypes);
    var rels := EmitGroup(g).relations;
    assert rels[1..] == [] && RelationNamed(rels[1..], name) == None;
    hide Map;
  }

  lemma GroupAgrees(ir: ModelIR, i: nat, name: string)
    requires WellFormed(ir) && i < |ir.groups|
    ensures Agree(RelationNamed(EmitGroup(ir.groups[i]).relations, name), DefOn(ir, ir.groups[i].name, name), name)
  {
    assert GoodTypeNames(ir);
    hide WellFormed, Distinct, DefOn, Agree, EmitGroup;
    OwnGroup(ir, i);
    EmittedGroupAgrees(ir.groups[i], name);
  }

  lemma ResourceAgrees(ir: ModelIR, i: nat, name: string)
    requires WellFormed(ir) && i < |ir.resources|
    ensures Agree(RelationNamed(EmitResource(ir.resources[i]).relations, name), DefOn(ir, ir.resources[i].name, name),
            name)
  {
    var r := ir.resources[i];
    var conds := SetOf(ConditionNames(ConditionsOf(ir)));
    assert r in ir.resources;
    assert GoodTypeNames(ir) && GoodResource(r, ir);
    hide WellFormed, Distinct, DefOn, Agree, EmitResource, Classifiable;
    OwnResource(ir, i);
    WellFormedCovers(ir);
    WellFormedClassifies(ir, r, conds);
    EmittedResourceAgrees(r, conds, name);
  }

  lemma NeitherAgrees(ir: ModelIR, typ: string, name: string)
    requires typ !in TypeNames(ir)
    ensures Agree(None, DefOn(ir, typ, name), name)
  {
    hide TypeNames;
    NoSuchType(ir, typ);
  }

  lemma ThirdOfThree<T>(a: seq<T>, b: seq<T>, c: seq<T>, i: nat)
    requires i < |a| + |b| + |c|
    ensures (a + b + c)[i] == if i < |a| then a[i] else if i < |a| + |b| then b[i - |a|] else c[i - |a| - |b|]
  {
  }

  lemma EmittedKeepsName(g: GroupType, r: ResourceType)
    ensures EmitGroup(g).name == g.name && EmitResource(r).name == r.name
  {
    hide StableSort, ResourceRelations;
  }

  lemma EmittedAt(ir: ModelIR, i: nat)
    requires i <= |ir.groups| + |ir.resources|
    ensures |Emit(ir).types| == |ir.groups| + |ir.resources| + 1
    ensures i == 0 ==> Emit(ir).types[i] == TypeDef("user", [])
    ensures 1 <= i <= |ir.groups| ==>
            Emit(ir).types[i] == EmitGroup(ir.groups[i - 1]) && Emit(ir).types[i].name == ir.groups[i - 1].name
    ensures |ir.groups| < i ==>
              var r := ir.resources[i - 1 - |ir.groups|];
                Emit(ir).types[i] == EmitResource(r) && Emit(ir).types[i].name == r.name
  {
    hide *;
    var (gs, rs) := (Map(ir.groups, EmitGroup), Map(ir.resources, EmitResource));
    EmittedTypes(ir);
    ThirdOfThree([TypeDef("user", [])], gs, rs, i);
    if 1 <= i <= |gs| {
      EmittedKeepsName(ir.groups[i - 1], ResourceType("", [], [], []));
    } else if |gs| < i {
      EmittedKeepsName(GroupType("", []), ir.resources[i - 1 - |gs|]);
    }
  }

  lemma UserAgrees(ir: ModelIR, name: string)
    requires WellFormed(ir)
    ensures Agree(RelationNamed([], name), DefOn(ir, "user", name), name)
  {
    NotUser(ir);
    NeitherAgrees(ir, "user", name);
    hide DefOn, Agree, WellFormed;
    assert RelationNamed([], name) == None;
  }

  lemma EmittedTypeAgrees(ir: ModelIR, i: nat, name: string)
    requires WellFormed(ir) && i < |Emit(ir).types|
    ensures var td := Emit(ir).types[i]; Agree(RelationNamed(td.relations, name), DefOn(ir, td.name, name), name)
  {
    hide *;
    EmittedAt(ir, 0);
    EmittedAt(ir, i);
    if i == 0 {
      UserAgrees(ir, name);
    } else if i <= |ir.groups| {
      GroupAgrees(ir, i - 1, name);
    } else {
      var k := i - 1 - |ir.groups|;
      ResourceAgrees(ir, k, name);
    }
  }

  lemma EmittedNoType(ir: ModelIR, typ: string)
    requires forall td :: td in Emit(ir).types ==> td.name != typ
    ensures typ !in TypeNames(ir)
  {
    hide Emit, EmitGroup, EmitResource;
    EmittedAt(ir, 0);
    if i :| 0 <= i < |ir.groups| && ir.groups[i].name == typ {
      EmittedAt(ir, i + 1);
    }
    if i :| 0 <= i < |ir.resources| && ir.resources[i].name == typ {
      EmittedAt(ir, i + 1 + |ir.groups|);
    }
  }

  lemma EmittedAgrees(ir: ModelIR, typ: string, name: string)
    requires WellFormed(ir)
    ensures Agree(RelationOn(Emit(ir), typ, name), DefOn(ir, typ, name), name)
  {
    RelationLookup(Emit(ir), typ, name);
    hide *;
    var types := Emit(ir).types;
    TypeFound(types, typ);
    var found := AuthModel.TypeNamed(types, typ);
    if found.None? {
      EmittedNoType(ir, typ);
      NeitherAgrees(ir, typ, name);
    } else {
      var i :| 0 <= i < |types| && types[i] == found.value;
      EmittedTypeAgrees(ir, i, name);
    }
  }

  lemma RelationLookup(m: Model, typ: string, name: string)
    ensures var td := AuthModel.TypeNamed(m.types, typ);
            RelationOn(m, typ, name) == if td.None? then None else RelationNamed(td.value.relations, name)
  {
  }

  lemma NotUser(ir: ModelIR)
    requires WellFormed(ir)
    ensures "user" !in TypeNames(ir)
  {
    assert GoodTypeNames(ir);
  }

  lemma AgreeingRepresents(m: Model, ir: ModelIR)
    requires forall typ, name {:trigger DefOn(ir, typ, name)} ::
            Agree(RelationOn(m, typ, name), DefOn(ir, typ, name), name)
    ensures Represents(m, ir)
  {
    hide DefOn, RelationOn, Says;
  }

  lemma EmittedRepresents(ir: ModelIR)
    requires WellFormed(ir)
    ensures InheritsAlongParents(ir) && Represents(Emit(ir), ir)
  {
    hide *;
    InheritsFromWellFormed(ir);
    forall typ, name ensures Agree(RelationOn(Emit(ir), typ, name), DefOn(ir, typ, name), name) {
      EmittedAgrees(ir, typ, name);
    }
    AgreeingRepresents(Emit(ir), ir);
  }

  /** Compiling keeps the meaning of every relation, over every store, by derivations of the same length. */
  lemma CompilingKeepsMeaning(ir: ModelIR, st: Store, subject: Obj, relation: string, obj: Obj)
    requires WellFormed(ir)
    ensures forall n: nat ::
            Holds(Emit(ir), st, subject, relation, obj, n) <==> IrHolds(ir, st, subject, relation, obj, n)
    ensures Means(Emit(ir), st, subject, relation, obj) <==> IrMeans(ir, st, subject, relation, obj)
  {
    hide *;
    EmittedRepresents(ir);
    MeansAlike(Emit(ir), ir, st, subject, relation, obj);
    forall n: nat
      ensures Holds(Emit(ir), st, subject, relation, obj, n) <==> IrHolds(ir, st, subject, relation, obj, n) {
      HoldsAlike(Emit(ir), ir, st, subject, relation, obj, n);
    }
  }

  // ---------------------------------------------------------------------------
  // With full coverage, recovered primitives say what the definitions do.

  lemma {:induction false} PartsPresent(ts: seq<TypeDef>, conds: set<string>, td: TypeDef)
    requires td in ts
    ensures forall g :: g in PartsOf(td, conds).groups ==> g in AllParts(ts, conds).groups
    ensures forall r :: r in PartsOf(td, conds).resources ==> r in AllParts(ts, conds).resources
  {
    hide PartsOf;
    if td != ts[0] {
      PartsPresent(ts[1..], conds, td);
    }
  }

  lemma PartsKeepName(td: TypeDef, conds: set<string>)
    ensures forall g :: g in PartsOf(td, conds).groups ==> g.name == td.name
    ensures forall r :: r in PartsOf(td, conds).resources ==> r.name == td.name
  {
    hide Map, FilterMap, HasForeignCondition, AllSubjectRefs, ResourceAdvanced;
  }

  lemma {:induction false} PartsNamed(ts: seq<TypeDef>, conds: set<string>, typ: string)
    requires forall td :: td in ts ==> td.name != typ
    ensures forall g :: g in AllParts(ts, conds).groups ==> g.name != typ
    ensures forall r :: r in AllParts(ts, conds).resources ==> r.name != typ
  {
    hide PartsOf;
    if ts != [] {
      PartsKeepName(ts[0], conds);
      assert ts[0] in ts;
      PartsNamed(ts[1..], conds, typ);
    }
  }

  lemma ParsedGroupAgrees(ir: ModelIR, td: TypeDef, conds: set<string>, name: string)
    requires Distinct(TypeNames(ir)) && td.name != "user" && IsGroupShape(td) && PartsOf(td, conds).advanced == []
    requires forall g :: g in PartsOf(td, conds).groups ==> g in ir.groups
    ensures Agree(RelationNamed(td.relations, name), DefOn(ir, td.name, name), name)
  {
    var member := td.relations[0];
    assert td.relations[1..] == [] && RelationNamed(td.relations[1..], name) == None;
    hide DefOn, Distinct, TypeNames, HasForeignCondition, Map;
    var g := PartsOf(td, conds).groups[0];
    assert g in PartsOf(td, conds).groups;
    var i :| 0 <= i < |ir.groups| && ir.groups[i] == g;
    OwnGroup(ir, i);
    assert Says(member, Assignable(g.memberTypes), "member", {}, {});
  }

  lemma RolePresent(td: TypeDef, conds: set<string>, x: Relation)
    requires x in td.relations
    ensures RoleOf(conds)(x).Some? ==> RoleOf(conds)(x).value in ResourceOf(td, conds).roles
    ensures ParentOf(conds)(x).Some? ==> ParentOf(conds)(x).value in ResourceOf(td, conds).parents
    ensures var r := ResourceOf(td, conds);
            var p := PermissionOf(SetOf(RoleNames(r.roles)), SetOf(ParentNames(r.parents)))(x);
            p.Some? ==> p.value in r.permissions
  {
    var r := ResourceOf(td, conds);
    var f := PermissionOf(SetOf(RoleNames(r.roles)), SetOf(ParentNames(r.parents)));
    hide FilterMap, RoleOf, ParentOf, PermissionOf;
    if RoleOf(conds)(x).Some? {
      FilterMapMembers(td.relations, RoleOf(conds), RoleOf(conds)(x).value);
    }
    if ParentOf(conds)(x).Some? {
      FilterMapMembers(td.relations, ParentOf(conds), ParentOf(conds)(x).value);
    }
    if f(x).Some? {
      FilterMapMembers(td.relations, f, f(x).value);
    }
  }

  /** Every name of the recovered resource is the name of a relation. */
  lemma RecoveredNames(td: TypeDef, conds: set<string>, name: string)
    requires name in RelationNames(ResourceOf(td, conds))
    ensures exists x :: x in td.relations && x.name == name
  {
    var r := ResourceOf(td, conds);
    var f := PermissionOf(SetOf(RoleNames(r.roles)), SetOf(ParentNames(r.parents)));
    hide FilterMap, RoleOf, ParentOf, PermissionOf, CanName;
    if name in ParentNames(r.parents) {
      var i :| 0 <= i < |r.parents| && ParentNames(r.parents)[i] == name;
      FilterMapMembers(td.relations, ParentOf(conds), r.parents[i]);
      var x :| x in td.relations && ParentOf(conds)(x) == Some(r.parents[i]);
      OutcomeNames(x, conds, SetOf(RoleNames(r.roles)), SetOf(ParentNames(r.parents)));
    } else if name in RoleNames(r.roles) {
      var i :| 0 <= i < |r.roles| && RoleNames(r.roles)[i] == name;
      FilterMapMembers(td.relations, RoleOf(conds), r.roles[i]);
      var x :| x in td.relations && RoleOf(conds)(x) == Some(r.roles[i]);
      OutcomeNames(x, conds, SetOf(RoleNames(r.roles)), SetOf(ParentNames(r.parents)));
    } else {
      var i :| 0 <= i < |r.permissions| && CanNames(r.permissions)[i] == name;
      FilterMapMembers(td.relations, f, r.permissions[i]);
      var x :| x in td.relations && f(x) == Some(r.permissions[i]);
      OutcomeNames(x, conds, SetOf(RoleNames(r.roles)), SetOf(ParentNames(r.parents)));
    }
  }

  lemma OutcomeNames(x: Relation, conds: set<string>, roleNames: set<string>, parentRels: set<string>)
    ensures RoleOf(conds)(x).Some? ==> RoleOf(conds)(x).value.name == x.name
    ensures ParentOf(conds)(x).Some? ==> ParentOf(conds)(x).value.relationName == x.name
    ensures PermissionOf(roleNames, parentRels)(x).Some? ==>
            CanName(PermissionOf(roleNames, parentRels)(x).value.name) == x.name
  {
    hide ClassifyDirect, ClassifyRewrite, CanName;
    Partition.DirectName(x.name, x.refs, conds);
    Partition.RewriteName(x.name, x.rewrite, roleNames, parentRels);
  }

  lemma OutcomeSays(x: Relation, conds: set<string>, roleNames: set<string>, parentRels: set<string>)
    ensures RoleOf(conds)(x).Some? ==>
            Says(x, Assignable(RoleOf(conds)(x).value.assignableBy), x.name, roleNames, parentRels)
    ensures ParentOf(conds)(x).Some? ==>
            Says(x, Linking(ParentOf(conds)(x).value.parentTypes), x.name, roleNames, parentRels)
    ensures var p := PermissionOf(roleNames, parentRels)(x);
            p.Some? ==> Says(x, Granted(p.value), x.name, roleNames, parentRels)
  {
    hide ClassifyRewrite, HasForeignCondition;
  }

  lemma ParsedResourceAgrees(td: TypeDef, conds: set<string>, name: string)
    requires ResourceAdvanced(td, conds) == [] && Distinct(RelationNames(ResourceOf(td, conds)))
    ensures Agree(RelationNamed(td.relations, name), DefIn(ResourceOf(td, conds), name), name)
  {
    var r := ResourceOf(td, conds);
    var (roleNames, parentRels) := (SetOf(RoleNames(r.roles)), SetOf(ParentNames(r.parents)));
    var (g, h) := (AdvancedDirect(td.name, conds), AdvancedRewrite(td.name, roleNames, parentRels));
    assert FilterMap(td.relations, g) == [] && FilterMap(td.relations, h) == [];
    RelationFound(td.relations, name);
    var found := RelationNamed(td.relations, name);
    hide FilterMap, ResourceOf, ResourceAdvanced, Distinct, RelationNames, DefIn, RelationNamed, Says;
    hide CanName, ClassifyDirect, ClassifyRewrite;
    NothingSelected(td.relations, g);
    NothingSelected(td.relations, h);
    if found.None? {
      if name in RelationNames(r) {
        RecoveredNames(td, conds, name);
      }
      NotIn(r, name);
    } else {
      var x := found.value;
      assert g(x).None? && h(x).None?;
      RolePresent(td, conds, x);
      OutcomeNames(x, conds, roleNames, parentRels);
      OutcomeSays(x, conds, roleNames, parentRels);
      if x.rewrite.This? {
        if RoleOf(conds)(x).Some? {
          var i :| 0 <= i < |r.roles| && r.roles[i] == RoleOf(conds)(x).value;
          OwnRole(r, i);
        } else {
          var i :| 0 <= i < |r.parents| && r.parents[i] == ParentOf(conds)(x).value;
          OwnParent(r, i);
        }
      } else {
        var i :| 0 <= i < |r.permissions| && r.permissions[i] == PermissionOf(roleNames, parentRels)(x).value;
        OwnPermission(r, i);
      }
    }
  }

  lemma ParsedTypeAgrees(ir: ModelIR, td: TypeDef, conds: set<string>, name: string)
    requires WellFormed(ir) && PartsOf(td, conds).advanced == []
    requires forall g :: g in PartsOf(td, conds).groups ==> g in ir.groups
    requires forall r :: r in PartsOf(td, conds).resources ==> r in ir.resources
    ensures Agree(RelationNamed(td.relations, name), DefOn(ir, td.name, name), name)
  {
    assert Distinct(TypeNames(ir)) by {
      assert GoodTypeNames(ir);
    }
    hide DefOn, TypeNames, Agree, GoodTypeNames, GoodConditions, GoodSubjects, RelationNamed, Distinct;
    if td.name == "user" {
      assert td.relations == [] by {
        assert |Map(td.relations, OnUser)| == |td.relations|;
      }
      UserAgrees(ir, name);
    } else if IsGroupShape(td) {
      hide PartsOf, WellFormed;
      ParsedGroupAgrees(ir, td, conds, name);
    } else {
      var r := ResourceOf(td, conds);
      assert r in PartsOf(td, conds).resources;
      assert GoodResource(r, ir);
      hide WellFormed, ResourceOf, ResourceAdvanced;
      ParsedResourceAgrees(td, conds, name);
      var i :| 0 <= i < |ir.resources| && ir.resources[i] == r;
      PartsKeepName(td, conds);
      OwnResource(ir, i);
    }
  }

  lemma ParsedAgrees(m: Model, typ: string, name: string)
    requires CoverageOf(m).fullyRepresentable
    ensures Agree(RelationOn(m, typ, name), DefOn(Recovered(m), typ, name), name)
  {
    var conds := Representable(m.conditions);
    var parts := AllParts(m.types, conds);
    assert Recovered(m).groups == parts.groups && Recovered(m).resources == parts.resources by {
      hide AllParts, Representable;
    }
    assert SetAside(m) == parts.advanced;
    RelationLookup(m, typ, name);
    hide *;
    FullCoverage(m);
    TypeFound(m.types, typ);
    AdvancedSelected(m.types, conds);
    var found := AuthModel.TypeNamed(m.types, typ);
    if found.None? {
      PartsNamed(m.types, conds, typ);
      NotAmong(Recovered(m), typ);
      NeitherAgrees(Recovered(m), typ, name);
    } else {
      PartsPresent(m.types, conds, found.value);
      ParsedTypeAgrees(Recovered(m), found.value, conds, name);
    }
  }

  lemma NotAmong(ir: ModelIR, typ: string)
    requires (forall g :: g in ir.groups ==> g.name != typ) && (forall r :: r in ir.resources ==> r.name != typ)
    ensures typ !in TypeNames(ir)
  {
  }

  lemma ParsedRepresents(m: Model)
    requires CoverageOf(m).fullyRepresentable
    ensures WellFormed(Recovered(m)) && InheritsAlongParents(Recovered(m)) && Represents(m, Recovered(m))
  {
    hide *;
    FullCoverage(m);
    InheritsFromWellFormed(Recovered(m));
    forall typ, name ensures Agree(RelationOn(m, typ, name), DefOn(Recovered(m), typ, name), name) {
      ParsedAgrees(m, typ, name);
    }
    AgreeingRepresents(m, Recovered(m));
  }

  /** Decompiling with full coverage keeps the meaning of every relation, over every store, although the operands
      of a union are regrouped; and so does compiling the result again. */
  lemma DecompilingKeepsMeaning(m: Model, st: Store, subject: Obj, relation: string, obj: Obj)
    requires CoverageOf(m).fullyRepresentable
    ensures Means(m, st, subject, relation, obj) <==> IrMeans(Recovered(m), st, subject, relation, obj)
    ensures Means(m, st, subject, relation, obj) <==> Means(Emit(Recovered(m)), st, subject, relation, obj)
  {
    hide *;
    ParsedRepresents(m);
    MeansAlike(m, Recovered(m), st, subject, relation, obj);
    CompilingKeepsMeaning(Recovered(m), st, subject, relation, obj);
  }
}
