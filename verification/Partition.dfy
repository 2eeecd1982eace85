/** Classification loses no relation and places none twice, whatever the model. */
module Partition {
  import opened Prelude
  import opened Sorting
  import opened ModelIr
  import opened AuthModel
  import opened Decompiler
  import opened RoundTrip

  type Place = (string, string)

  function RelationAt(typ: string): Relation -> Place { (r: Relation) => (typ, r.name) }
  function ParentAt(typ: string): ParentRef -> Place { (p: ParentRef) => (typ, p.relationName) }
  function RoleAt(typ: string): Role -> Place { (role: Role) => (typ, role.name) }
  function PermissionAt(typ: string): Permission -> Place { (perm: Permission) => (typ, CanName(perm.name)) }
  function GroupAt(g: GroupType): Place { (g.name, "member") }
  function AdvancedAt(a: Advanced): Place { (a.typ, a.relation) }

  /** Every relation of every type. */
  function Declared(ts: seq<TypeDef>): multiset<Place> {
    if ts == [] then multiset{} else multiset(Map(ts[0].relations, RelationAt(ts[0].name))) + Declared(ts[1..])
  }

  function OfResource(r: ResourceType): multiset<Place> {
    multiset(Map(r.parents, ParentAt(r.name))) + multiset(Map(r.roles, RoleAt(r.name)))
      + multiset(Map(r.permissions, PermissionAt(r.name)))
  }

  function OfResources(rs: seq<ResourceType>): multiset<Place> {
    if rs == [] then multiset{} else OfResource(rs[0]) + OfResources(rs[1..])
  }

  /** Where the classifier put relations. */
  function Placed(p: Parts): multiset<Place> {
    multiset(Map(p.groups, GroupAt)) + OfResources(p.resources) + multiset(Map(p.advanced, AdvancedAt))
  }

  function MaybeAt<T>(x: Option<T>, at: T -> Place): multiset<Place> {
    if x.None? then multiset{} else multiset{at(x.value)}
  }

  lemma SelectedCons<T>(x: Relation, rest: seq<Relation>, f: Relation -> Option<T>, at: T -> Place)
    ensures multiset(Map(FilterMap([x] + rest, f), at)) == MaybeAt(f(x), at) + multiset(Map(FilterMap(rest, f), at))
  {
    FilterMapCons(x, rest, f);
    if f(x).Some? {
      MapCons(f(x).value, FilterMap(rest, f), at);
    }
  }

  lemma DirectName(name: string, refs: seq<Ref>, conds: set<string>)
    ensures var c := ClassifyDirect(name, refs, conds);
            (c.AsRole? ==> c.role.name == name) && (c.AsParent? ==> c.parent.relationName == name)
  {
    hide Map, HasForeignCondition, AllSubjectRefs, AllResourceRefs;
  }

  lemma RewriteName(name: string, u: Userset, roleNames: set<string>, parentRels: set<string>)
    ensures var c := ClassifyRewrite(name, u, roleNames, parentRels);
            c.AsPermission? ==> CanName(c.permission.name) == name
  {
    hide ClassifyChildren, CanName, StartsWithCan;
    if StartsWithCan(name) {
      CanNameOf(name);
    }
  }

  /** Each relation has exactly one of the five outcomes, under its own name. */
  lemma OneOutcome(x: Relation, typ: string, conds: set<string>, roleNames: set<string>, parentRels: set<string>)
    ensures multiset{RelationAt(typ)(x)} ==
            MaybeAt(ParentOf(conds)(x), ParentAt(typ)) + MaybeAt(RoleOf(conds)(x), RoleAt(typ))
            + MaybeAt(PermissionOf(roleNames, parentRels)(x), PermissionAt(typ))
            + MaybeAt(AdvancedDirect(typ, conds)(x), AdvancedAt)
              + MaybeAt(AdvancedRewrite(typ, roleNames, parentRels)(x), AdvancedAt)
  {
    hide ClassifyDirect, ClassifyRewrite, CanName, ClassifyChildren;
    DirectName(x.name, x.refs, conds);
    RewriteName(x.name, x.rewrite, roleNames, parentRels);
  }

  lemma {:induction false} EveryOutcome(rels: seq<Relation>, typ: string, conds: set<string>, roleNames: set<string>,
      parentRels: set<string>)
    ensures multiset(Map(rels, RelationAt(typ))) ==
            multiset(Map(FilterMap(rels, ParentOf(conds)), ParentAt(typ)))
              + multiset(Map(FilterMap(rels, RoleOf(conds)), RoleAt(typ)))
            + multiset(Map(FilterMap(rels, PermissionOf(roleNames, parentRels)), PermissionAt(typ)))
            + multiset(Map(FilterMap(rels, AdvancedDirect(typ, conds)), AdvancedAt))
            + multiset(Map(FilterMap(rels, AdvancedRewrite(typ, roleNames, parentRels)), AdvancedAt))
  {
    if rels != [] {
      var (x, rest) := (rels[0], rels[1..]);
      assert rels == [x] + rest;
      hide *;
      EveryOutcome(rest, typ, conds, roleNames, parentRels);
      OneOutcome(x, typ, conds, roleNames, parentRels);
      SelectedCons(x, rest, ParentOf(conds), ParentAt(typ));
      SelectedCons(x, rest, RoleOf(conds), RoleAt(typ));
      SelectedCons(x, rest, PermissionOf(roleNames, parentRels), PermissionAt(typ));
      SelectedCons(x, rest, AdvancedDirect(typ, conds), AdvancedAt);
      SelectedCons(x, rest, AdvancedRewrite(typ, roleNames, parentRels), AdvancedAt);
      MapCons(x, rest, RelationAt(typ));
    }
  }

  lemma {:induction false} OfResourcesConcat(a: seq<ResourceType>, b: seq<ResourceType>)
    ensures OfResources(a + b) == OfResources(a) + OfResources(b)
  {
    hide OfResource;
    if a == [] {
      assert a + b == b;
    } else {
      assert (a + b)[1..] == a[1..] + b;
      OfResourcesConcat(a[1..], b);
    }
  }

  lemma PlacedAdds(a: Parts, b: Parts)
    ensures Placed(AddParts(a, b)) == Placed(a) + Placed(b)
  {
    hide OfResources;
    MapConcat(a.groups, b.groups, GroupAt);
    MapConcat(a.advanced, b.advanced, AdvancedAt);
    OfResourcesConcat(a.resources, b.resources);
  }

  lemma UserPlaced(rels: seq<Relation>)
    ensures Placed(Parts([], [], Map(rels, OnUser))) == multiset(Map(rels, RelationAt("user")))
  {
    assert Map(Map(rels, OnUser), AdvancedAt) == Map(rels, RelationAt("user"));
  }

  lemma OnePlaced(td: TypeDef, g: GroupType, a: Advanced)
    requires IsGroupShape(td) && g.name == td.name && a.typ == td.name && a.relation == "member"
    ensures Placed(Parts([g], [], [])) == Placed(Parts([], [], [a])) == multiset(Map(td.relations, RelationAt(td.name)))
  {
    assert Map(td.relations, RelationAt(td.name)) == [(td.name, "member")];
    assert Map([g], GroupAt) == [(td.name, "member")];
    assert Map([a], AdvancedAt) == [(td.name, "member")];
  }

  lemma ResourcePlaced(td: TypeDef, conds: set<string>)
    ensures Placed(Parts([], [ResourceOf(td, conds)], ResourceAdvanced(td, conds))) ==
            multiset(Map(td.relations, RelationAt(td.name)))
  {
    var r := ResourceOf(td, conds);
    var (roleNames, parentRels) := (SetOf(RoleNames(r.roles)), SetOf(ParentNames(r.parents)));
    hide FilterMap, Map, RoleOf, ParentOf, PermissionOf, AdvancedDirect, AdvancedRewrite;
    EveryOutcome(td.relations, td.name, conds, roleNames, parentRels);
    MapConcat(FilterMap(td.relations, AdvancedDirect(td.name, conds)),
              FilterMap(td.relations, AdvancedRewrite(td.name, roleNames, parentRels)), AdvancedAt);
    assert OfResources([r]) == OfResource(r) + OfResources([]);
  }

  lemma TypePlaced(td: TypeDef, conds: set<string>)
    ensures Placed(PartsOf(td, conds)) == multiset(Map(td.relations, RelationAt(td.name)))
  {
    hide HasForeignCondition, AllSubjectRefs, Placed, ResourceOf, ResourceAdvanced, Map;
    UserPlaced(td.relations);
    if td.name != "user" && IsGroupShape(td) {
      var p := PartsOf(td, conds);
      if p.groups != [] {
        OnePlaced(td, p.groups[0], Advanced(td.name, "member", CONDITION));
      } else {
        OnePlaced(td, GroupType(td.name, []), p.advanced[0]);
      }
    } else {
      ResourcePlaced(td, conds);
    }
  }

  lemma {:induction false} TypesPlaced(ts: seq<TypeDef>, conds: set<string>)
    ensures Placed(AllParts(ts, conds)) == Declared(ts)
  {
    if ts != [] {
      hide PartsOf, Placed, Map;
      TypePlaced(ts[0], conds);
      TypesPlaced(ts[1..], conds);
      PlacedAdds(PartsOf(ts[0], conds), AllParts(ts[1..], conds));
    } else {
      assert Placed(Parts([], [], [])) == multiset{};
    }
  }

  /** For every model: the relations declared are, each once, the group members, parents, roles and permissions
      recovered, and the relations set aside. */
  lemma NothingLost(m: Model)
    ensures var ir := Recovered(m);
            Declared(m.types) ==
              multiset(Map(ir.groups, GroupAt)) + OfResources(ir.resources) + multiset(Map(SetAside(m), AdvancedAt))
  {
    hide AllParts, Declared, OfResources, Map, FilterMap, ParseCondition;
    TypesPlaced(m.types, Representable(m.conditions));
  }
}
