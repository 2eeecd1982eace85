/** Relation definitions back to the model: classification, coverage and the validation backstop. */
module Decompiler {
  import opened Prelude
  import opened Condition
  import opened ConditionCel
  import opened ModelIr
  import opened Validator
  import opened AuthModel
  import opened Sorting

  datatype Reason = INTERSECTION | EXCLUSION | CONDITION | NON_ROLE_UNION | CROSS_TYPE_USERSET | UNCLASSIFIABLE

  datatype Advanced = Advanced(typ: string, relation: string, reason: Reason)

  datatype Note = SchemaNote(version: string) | ConditionNote(names: seq<string>)

  datatype Coverage =
    Coverage(fullyRepresentable: bool, advanced: seq<Advanced>, validationErrors: seq<ValidationError>,
      notes: seq<Note>)

  // ---------------------------------------------------------------------------
  // Conditions.

  function FromTypeName(s: string): Option<ParamType> {
    if s == "TYPE_NAME_TIMESTAMP" then Some(Timestamp)
    else if s == "TYPE_NAME_IPADDRESS" then Some(IpAddress)
    else if s == "TYPE_NAME_STRING" then Some(Str)
    else if s == "TYPE_NAME_INT" then Some(Int)
    else if s == "TYPE_NAME_DOUBLE" then Some(Double)
    else if s == "TYPE_NAME_BOOL" then Some(Bool)
    else None
  }

  /** All parameters, or nothing when one has a type outside the subset. */
  function ParseParams(ps: seq<(string, string)>): Option<seq<Param>> {
    if ps == [] then Some([])
    else match FromTypeName(ps[0].1)
      case None => None
      case Some(t) =>
        match ParseParams(ps[1..])
        case None => None
        case Some(rest) => Some([Param(ps[0].0, t)] + rest)
  }

  function ParseCondition(c: ConditionJson): Option<ConditionDef> {
    match ParseParams(c.parameters)
    case None => None
    case Some(params) => if c.expression.None? then None else Parsed(c.name, params, c.expression.value)
  }

  function Unparsed(c: ConditionJson): Option<string> {
    if ParseCondition(c).None? then Some(c.name) else None
  }

  function Representable(cs: seq<ConditionJson>): set<string> {
    set c | c in cs && ParseCondition(c).Some? :: c.name
  }

  // ---------------------------------------------------------------------------
  // References and direct relations.

  predicate IsSubjectRef(r: Ref) {
    !r.wildcard && ((r.relation == None && r.typ == "user") || r.relation == Some("member"))
  }

  predicate IsResourceTypeRef(r: Ref) {
    !r.wildcard && r.condition == None && r.relation == None && r.typ != "user"
  }

  function ToSubjectRef(r: Ref): SubjectRef {
    if r.relation == Some("member") then Group(r.typ, r.condition) else User(r.condition)
  }

  function TypeOfRef(r: Ref): string {
    r.typ
  }

  predicate HasForeignCondition(refs: seq<Ref>, conds: set<string>) {
    exists r :: r in refs && r.condition.Some? && r.condition.value !in conds
  }

  predicate AllSubjectRefs(refs: seq<Ref>) {
    refs != [] && forall r :: r in refs ==> IsSubjectRef(r)
  }

  predicate AllResourceRefs(refs: seq<Ref>) {
    refs != [] && forall r :: r in refs ==> IsResourceTypeRef(r)
  }

  datatype DirectClass = AsRole(role: Role) | AsParent(parent: ParentRef) | AsAdvanced(reason: Reason)

  function ClassifyDirect(name: string, refs: seq<Ref>, conds: set<string>): DirectClass {
    if HasForeignCondition(refs, conds) then AsAdvanced(CONDITION)
    else if AllSubjectRefs(refs) then AsRole(Role(name, Map(refs, ToSubjectRef)))
    else if AllResourceRefs(refs) then AsParent(ParentRef(name, Map(refs, TypeOfRef)))
    else AsAdvanced(UNCLASSIFIABLE)
  }

  // ---------------------------------------------------------------------------
  // Rewritten relations.

  datatype ChildrenClass = Granting(roles: seq<string>, parents: seq<string>) | Refused(reason: Reason)

  function ClassifyChild(child: Userset, name: string, roleNames: set<string>, parentRels: set<string>): ChildrenClass {
    match child
    case This => Refused(UNCLASSIFIABLE)
    case Computed(target, relation) =>
      if target != "" then Refused(CROSS_TYPE_USERSET)
      else if relation != "" && relation in roleNames then Granting([relation], [])
      else Refused(NON_ROLE_UNION)
    case TupleTo(tupleset, computed) =>
      if tupleset != "" && tupleset in parentRels && computed == name then Granting([], [tupleset])
      else Refused(CROSS_TYPE_USERSET)
    case _ => Refused(UNCLASSIFIABLE)
  }

  /** The first refused child decides; otherwise roles and parent relations are collected apart, in order. */
  function ClassifyChildren(children: seq<Userset>, name: string, roleNames: set<string>,
      parentRels: set<string>): ChildrenClass {
    if children == [] then Granting([], [])
    else match ClassifyChild(children[0], name, roleNames, parentRels)
      case Refused(reason) => Refused(reason)
      case Granting(roles, parents) =>
        Ahead(roles, parents, ClassifyChildren(children[1..], name, roleNames, parentRels))
  }

  function Ahead(roles: seq<string>, parents: seq<string>, rest: ChildrenClass): ChildrenClass {
    match rest
    case Refused(reason) => Refused(reason)
    case Granting(moreRoles, moreParents) => Granting(roles + moreRoles, parents + moreParents)
  }

  function ChildrenOf(u: Userset): seq<Userset> {
    match u
    case Union(children) => children
    case Computed(_, _) => [u]
    case TupleTo(_, _) => [u]
    case _ => []
  }

  predicate StartsWithCan(name: string) {
    |name| >= 4 && name[0] == 'c' && name[1] == 'a' && name[2] == 'n' && name[3] == '_'
  }

  datatype PermClass = AsPermission(permission: Permission) | Unpermitted(reason: Reason)

  function ClassifyRewrite(name: string, u: Userset, roleNames: set<string>, parentRels: set<string>): PermClass {
    if u.Intersection? then Unpermitted(INTERSECTION)
    else if u.Difference? then Unpermitted(EXCLUSION)
    else if !StartsWithCan(name) then Unpermitted(NON_ROLE_UNION)
    else match ClassifyChildren(ChildrenOf(u), name, roleNames, parentRels)
      case Refused(reason) => Unpermitted(reason)
      case Granting(roles, parents) =>
        if roles == [] then Unpermitted(NON_ROLE_UNION)
        else AsPermission(Permission(name[4..], roles, parents))
  }

  method ClassifyPermission(name: string, u: Userset, roleNames: set<string>, parentRels: set<string>)
    returns (r: PermClass)
    ensures r == ClassifyRewrite(name, u, roleNames, parentRels)
  {
    if u.Intersection? {
      return Unpermitted(INTERSECTION);
    }
    if u.Difference? {
      return Unpermitted(EXCLUSION);
    }
    if !StartsWithCan(name) {
      return Unpermitted(NON_ROLE_UNION);
    }
    var children := ChildrenOf(u);
    var grantedByRoles: seq<string> := [];
    var inheritFromParents: seq<string> := [];
    ghost var whole := ClassifyChildren(children, name, roleNames, parentRels);
    AheadOfNothing(whole);
    for i := 0 to |children|
      invariant whole ==
              Ahead(grantedByRoles, inheritFromParents, ClassifyChildren(children[i..], name, roleNames, parentRels))
    {
      var child := ClassifyChild(children[i], name, roleNames, parentRels);
      if child.Refused? {
        return Unpermitted(child.reason);
      }
      AheadTwice(grantedByRoles, inheritFromParents, child.roles, child.parents,
                 ClassifyChildren(children[i + 1..], name, roleNames, parentRels));
      assert children[i..][1..] == children[i + 1..];
      grantedByRoles := grantedByRoles + child.roles;
      inheritFromParents := inheritFromParents + child.parents;
    }
    if |grantedByRoles| == 0 {
      return Unpermitted(NON_ROLE_UNION);
    }
    return AsPermission(Permission(name[4..], grantedByRoles, inheritFromParents));
  }

  lemma AheadOfNothing(c: ChildrenClass)
    ensures Ahead([], [], c) == c
  {
  }

  lemma AheadTwice(a: seq<string>, b: seq<string>, c: seq<string>, d: seq<string>, rest: ChildrenClass)
    ensures Ahead(a, b, Ahead(c, d, rest)) == Ahead(a + c, b + d, rest)
  {
  }

  // ---------------------------------------------------------------------------
  // One type.

  function RoleOf(conds: set<string>): Relation -> Option<Role> {
    (r: Relation) =>
      if !r.rewrite.This? then None
      else match ClassifyDirect(r.name, r.refs, conds) case AsRole(role) => Some(role) case _ => None
  }

  function ParentOf(conds: set<string>): Relation -> Option<ParentRef> {
    (r: Relation) =>
      if !r.rewrite.This? then None
      else match ClassifyDirect(r.name, r.refs, conds) case AsParent(parent) => Some(parent) case _ => None
  }

  function AdvancedDirect(typ: string, conds: set<string>): Relation -> Option<Advanced> {
    (r: Relation) =>
      if !r.rewrite.This? then None
      else match ClassifyDirect(r.name, r.refs, conds)
        case AsAdvanced(reason) => Some(Advanced(typ, r.name, reason))
        case _ => None
  }

  function PermissionOf(roleNames: set<string>, parentRels: set<string>): Relation -> Option<Permission> {
    (r: Relation) =>
      if r.rewrite.This? then None
      else match ClassifyRewrite(r.name, r.rewrite, roleNames, parentRels)
        case AsPermission(permission) => Some(permission)
        case _ => None
  }

  function AdvancedRewrite(typ: string, roleNames: set<string>, parentRels: set<string>): Relation -> Option<Advanced> {
    (r: Relation) =>
      if r.rewrite.This? then None
      else match ClassifyRewrite(r.name, r.rewrite, roleNames, parentRels)
        case Unpermitted(reason) => Some(Advanced(typ, r.name, reason))
        case _ => None
  }

  /** What one type definition contributes to the model and to the list of advanced relations. */
  datatype Parts = Parts(groups: seq<GroupType>, resources: seq<ResourceType>, advanced: seq<Advanced>)

  function ResourceOf(td: TypeDef, conds: set<string>): ResourceType {
    var roles := FilterMap(td.relations, RoleOf(conds));
    var parents := FilterMap(td.relations, ParentOf(conds));
    ResourceType(td.name, parents, roles,
                 FilterMap(td.relations, PermissionOf(SetOf(RoleNames(roles)), SetOf(ParentNames(parents)))))
  }

  function ResourceAdvanced(td: TypeDef, conds: set<string>): seq<Advanced> {
    var r := ResourceOf(td, conds);
    FilterMap(td.relations, AdvancedDirect(td.name, conds))
    + FilterMap(td.relations, AdvancedRewrite(td.name, SetOf(RoleNames(r.roles)), SetOf(ParentNames(r.parents))))
  }

  function OnUser(r: Relation): Advanced {
    Advanced("user", r.name, UNCLASSIFIABLE)
  }

  predicate IsGroupShape(td: TypeDef) {
    |td.relations| == 1 && td.relations[0].name == "member"
  }

  function PartsOf(td: TypeDef, conds: set<string>): Parts {
    if td.name == "user" then Parts([], [], Map(td.relations, OnUser))
    else if IsGroupShape(td) then
      var member := td.relations[0];
      if member.rewrite.This? && AllSubjectRefs(member.refs) && !HasForeignCondition(member.refs, conds)
      then Parts([GroupType(td.name, Map(member.refs, ToSubjectRef))], [], [])
      else
        var reason := if HasForeignCondition(member.refs, conds) then CONDITION else UNCLASSIFIABLE;
        Parts([], [], [Advanced(td.name, "member", reason)])
    else Parts([], [ResourceOf(td, conds)], ResourceAdvanced(td, conds))
  }

  function AddParts(a: Parts, b: Parts): Parts {
    Parts(a.groups + b.groups, a.resources + b.resources, a.advanced + b.advanced)
  }

  function AllParts(ts: seq<TypeDef>, conds: set<string>): Parts {
    if ts == [] then Parts([], [], []) else AddParts(PartsOf(ts[0], conds), AllParts(ts[1..], conds))
  }

  // ---------------------------------------------------------------------------
  // The whole model.

  function Recovered(m: Model): ModelIR {
    var parts := AllParts(m.types, Representable(m.conditions));
    var conditions := FilterMap(m.conditions, ParseCondition);
    ModelIR(parts.groups, parts.resources, if conditions == [] then None else Some(conditions))
  }

  function NotesOf(m: Model): seq<Note> {
    var unparsed := FilterMap(m.conditions, Unparsed);
    (if m.schemaVersion.Some? && m.schemaVersion.value != "1.1" then [SchemaNote(m.schemaVersion.value)] else [])
    + (if unparsed != [] then [ConditionNote(unparsed)] else [])
  }

  /** The relation a validation error is reported against, when it is on a type. */
  function ErrorEntry(ir: ModelIR, e: ValidationError): Option<Advanced> {
    match e.place
    case GroupAt(g) => if g < |ir.groups| then Some(Advanced(ir.groups[g].name, "member", UNCLASSIFIABLE)) else None
    case ConditionAt(_) => None
    case ResourceAt(r) => if r < |ir.resources| then Some(Advanced(ir.resources[r].name, "", UNCLASSIFIABLE)) else None
    case ParentAt(r, p) =>
      if r >= |ir.resources| then None
      else Some(Advanced(ir.resources[r].name,
                         if p < |ir.resources[r].parents| then ir.resources[r].parents[p].relationName
                         else "", UNCLASSIFIABLE))
    case RoleAt(r, i) =>
      if r >= |ir.resources| then None
      else Some(Advanced(ir.resources[r].name,
                         if i < |ir.resources[r].roles| then ir.resources[r].roles[i].name else "", UNCLASSIFIABLE))
    case PermissionAt(r, i) =>
      if r >= |ir.resources| then None
      else Some(Advanced(ir.resources[r].name,
                         if i < |ir.resources[r].permissions| then CanName(ir.resources[r].permissions[i].name)
                         else "", UNCLASSIFIABLE))
  }

  function AddEntry(advanced: seq<Advanced>, entry: Option<Advanced>): seq<Advanced> {
    if entry.None? then advanced
    else if exists a :: a in advanced && a.typ == entry.value.typ && a.relation == entry.value.relation then advanced
    else advanced + [entry.value]
  }

  function Backstop(advanced: seq<Advanced>, ir: ModelIR, errors: seq<ValidationError>): seq<Advanced>
    decreases |errors|
  {
    if errors == [] then advanced else Backstop(AddEntry(advanced, ErrorEntry(ir, errors[0])), ir, errors[1..])
  }

  function CoverageOf(m: Model): Coverage {
    var ir := Recovered(m);
    var errors := Errors(ir);
    var advanced := Backstop(AllParts(m.types, Representable(m.conditions)).advanced, ir, errors);
    Coverage(advanced == [] && NotesOf(m) == [] && errors == [], advanced, errors, NotesOf(m))
  }

  /** Relations that classification itself set aside, before validation. */
  function SetAside(m: Model): seq<Advanced> {
    AllParts(m.types, Representable(m.conditions)).advanced
  }

  lemma {:induction false} BackstopGrows(advanced: seq<Advanced>, ir: ModelIR, errors: seq<ValidationError>)
    ensures |advanced| <= |Backstop(advanced, ir, errors)|
    decreases |errors|
  {
    if errors != [] {
      BackstopGrows(AddEntry(advanced, ErrorEntry(ir, errors[0])), ir, errors[1..]);
    }
  }

  /** Full coverage is exactly: nothing set aside, a well-formed result, schema 1.1, every condition in the subset. */
  lemma FullCoverage(m: Model)
    ensures CoverageOf(m).fullyRepresentable <==>
            && SetAside(m) == []
            && WellFormed(Recovered(m))
            && (m.schemaVersion.Some? ==> m.schemaVersion.value == "1.1")
            && FilterMap(m.conditions, Unparsed) == []
  {
    hide Errors, AllParts, FilterMap, Representable;
    ErrorsMeaning(Recovered(m));
    BackstopGrows(SetAside(m), Recovered(m), Errors(Recovered(m)));
  }

  // ---------------------------------------------------------------------------
  // The loops that compute it.

  method ParseConditions(m: Model)
    returns (conditions: seq<ConditionDef>, representable: set<string>, unrepresentable: seq<string>)
    ensures conditions == FilterMap(m.conditions, ParseCondition)
    ensures representable == Representable(m.conditions)
    ensures unrepresentable == FilterMap(m.conditions, Unparsed)
  {
    hide ParseCondition, Parsed, FilterMap, Representable;
    conditions, representable, unrepresentable := [], {}, [];
    var cs := m.conditions;
    NothingParsed();
    for i := 0 to |cs|
      invariant conditions == FilterMap(cs[..i], ParseCondition)
      invariant representable == Representable(cs[..i])
      invariant unrepresentable == FilterMap(cs[..i], Unparsed)
    {
      FilterMapNext(cs, i, ParseCondition);
      FilterMapNext(cs, i, Unparsed);
      RepresentableNext(cs, i);
      ParseConditionUnfolds(cs[i]);
      var params := ParseParameters(cs[i].parameters);
      var parsed: Option<ConditionDef> := None;
      if params.Some? && cs[i].expression.Some? {
        parsed := TryParseCondition(cs[i].name, params.value, cs[i].expression.value);
      }
      if parsed.Some? {
        conditions := conditions + [parsed.value];
        representable := representable + {cs[i].name};
      } else {
        unrepresentable := unrepresentable + [cs[i].name];
      }
    }
    assert cs[..|cs|] == cs;
  }

  lemma NothingParsed()
    ensures FilterMap([], ParseCondition) == [] && FilterMap([], Unparsed) == [] && Representable([]) == {}
  {
  }

  lemma RepresentableNext(cs: seq<ConditionJson>, i: nat)
    requires i < |cs|
    ensures Representable(cs[..i + 1]) ==
            Representable(cs[..i]) + (if ParseCondition(cs[i]).Some? then {cs[i].name} else {})
  {
    hide ParseCondition;
    assert cs[..i + 1] == cs[..i] + [cs[i]];
  }

  lemma ParseConditionUnfolds(c: ConditionJson)
    ensures ParseCondition(c) ==
            if ParseParams(c.parameters).Some? && c.expression.Some?
            then Parsed(c.name, ParseParams(c.parameters).value, c.expression.value) else None
  {
  }

  function JoinParams(done: seq<Param>, rest: Option<seq<Param>>): Option<seq<Param>> {
    if rest.None? then None else Some(done + rest.value)
  }

  method ParseParameters(ps: seq<(string, string)>) returns (r: Option<seq<Param>>)
    ensures r == ParseParams(ps)
  {
    var params: seq<Param> := [];
    assert forall s: seq<Param> :: [] + s == s;
    assert ps[0..] == ps;
    for i := 0 to |ps|
      invariant ParseParams(ps) == JoinParams(params, ParseParams(ps[i..]))
    {
      var t := FromTypeName(ps[i].1);
      if t.None? {
        return None;
      }
      assert ps[i..][1..] == ps[i + 1..];
      if ParseParams(ps[i + 1..]).Some? {
        ConcatAssociates(params, [Param(ps[i].0, t.value)], ParseParams(ps[i + 1..]).value);
      }
      params := params + [Param(ps[i].0, t.value)];
    }
    assert params + [] == params;
    return Some(params);
  }

  /** First pass: direct relations become roles and parents. */
  method ParseDirect(td: TypeDef, conds: set<string>)
    returns (roles: seq<Role>, parents: seq<ParentRef>, advanced: seq<Advanced>)
    ensures roles == FilterMap(td.relations, RoleOf(conds))
    ensures parents == FilterMap(td.relations, ParentOf(conds))
    ensures advanced == FilterMap(td.relations, AdvancedDirect(td.name, conds))
  {
    hide FilterMap, ClassifyDirect;
    var rels := td.relations;
    roles, parents, advanced := [], [], [];
    FilterMapNone([], RoleOf(conds));
    FilterMapNone([], ParentOf(conds));
    FilterMapNone([], AdvancedDirect(td.name, conds));
    for i := 0 to |rels|
      invariant roles == FilterMap(rels[..i], RoleOf(conds))
      invariant parents == FilterMap(rels[..i], ParentOf(conds))
      invariant advanced == FilterMap(rels[..i], AdvancedDirect(td.name, conds))
    {
      FilterMapNext(rels, i, RoleOf(conds));
      FilterMapNext(rels, i, ParentOf(conds));
      FilterMapNext(rels, i, AdvancedDirect(td.name, conds));
      if rels[i].rewrite.This? {
        match ClassifyDirect(rels[i].name, rels[i].refs, conds) {
          case AsRole(role) => roles := roles + [role];
          case AsParent(parent) => parents := parents + [parent];
          case AsAdvanced(reason) => advanced := advanced + [Advanced(td.name, rels[i].name, reason)];
        }
      }
    }
    assert rels[..|rels|] == rels;
  }

  /** Second pass, knowing the roles and parents: the deferred relations become permissions. */
  method ParseRewrites(td: TypeDef, roleNames: set<string>, parentRels: set<string>)
    returns (permissions: seq<Permission>, advanced: seq<Advanced>)
    ensures permissions == FilterMap(td.relations, PermissionOf(roleNames, parentRels))
    ensures advanced == FilterMap(td.relations, AdvancedRewrite(td.name, roleNames, parentRels))
  {
    hide FilterMap, ClassifyRewrite;
    var rels := td.relations;
    permissions, advanced := [], [];
    FilterMapNone([], PermissionOf(roleNames, parentRels));
    FilterMapNone([], AdvancedRewrite(td.name, roleNames, parentRels));
    for i := 0 to |rels|
      invariant permissions == FilterMap(rels[..i], PermissionOf(roleNames, parentRels))
      invariant advanced == FilterMap(rels[..i], AdvancedRewrite(td.name, roleNames, parentRels))
    {
      FilterMapNext(rels, i, PermissionOf(roleNames, parentRels));
      FilterMapNext(rels, i, AdvancedRewrite(td.name, roleNames, parentRels));
      if !rels[i].rewrite.This? {
        var c := ClassifyPermission(rels[i].name, rels[i].rewrite, roleNames, parentRels);
        if c.AsPermission? {
          permissions := permissions + [c.permission];
        } else {
          advanced := advanced + [Advanced(td.name, rels[i].name, c.reason)];
        }
      }
    }
    assert rels[..|rels|] == rels;
  }

  method ParseResource(td: TypeDef, conds: set<string>) returns (r: ResourceType, advanced: seq<Advanced>)
    ensures r == ResourceOf(td, conds) && advanced == ResourceAdvanced(td, conds)
  {
    hide FilterMap;
    var roles, parents, direct := ParseDirect(td, conds);
    var permissions, rewrites := ParseRewrites(td, SetOf(RoleNames(roles)), SetOf(ParentNames(parents)));
    r := ResourceType(td.name, parents, roles, permissions);
    advanced := direct + rewrites;
  }

  method ParseTypes(ts: seq<TypeDef>, conds: set<string>) returns (parts: Parts)
    ensures parts == AllParts(ts, conds)
  {
    hide AllParts, ResourceOf, ResourceAdvanced, HasForeignCondition, AllSubjectRefs, Map;
    var groups: seq<GroupType> := [];
    var resources: seq<ResourceType> := [];
    var advanced: seq<Advanced> := [];
    NoParts(AllParts(ts, conds));
    assert ts[0..] == ts;
    for i := 0 to |ts|
      invariant AllParts(ts, conds) == AddParts(Parts(groups, resources, advanced), AllParts(ts[i..], conds))
    {
      var td := ts[i];
      ghost var before := Parts(groups, resources, advanced);
      AllPartsNext(ts, i, conds);
      AddPartsAssociates(before, PartsOf(td, conds), AllParts(ts[i + 1..], conds));
      if td.name == "user" {
        advanced := advanced + Map(td.relations, OnUser);
      } else if IsGroupShape(td) {
        var member := td.relations[0];
        var unrepCond := HasForeignCondition(member.refs, conds);
        if member.rewrite.This? && AllSubjectRefs(member.refs) && !unrepCond {
          groups := groups + [GroupType(td.name, Map(member.refs, ToSubjectRef))];
        } else {
          advanced := advanced + [Advanced(td.name, "member", if unrepCond then CONDITION else UNCLASSIFIABLE)];
        }
      } else {
        var r, more := ParseResource(td, conds);
        resources := resources + [r];
        advanced := advanced + more;
      }
      assert Parts(groups, resources, advanced) == AddParts(before, PartsOf(td, conds));
    }
    AllPartsEnd(ts[|ts|..], conds);
    parts := Parts(groups, resources, advanced);
    assert AddParts(parts, Parts([], [], [])) == parts;
  }

  lemma NoParts(p: Parts)
    ensures AddParts(Parts([], [], []), p) == p
  {
  }

  lemma AllPartsNext(ts: seq<TypeDef>, i: nat, conds: set<string>)
    requires i < |ts|
    ensures AllParts(ts[i..], conds) == AddParts(PartsOf(ts[i], conds), AllParts(ts[i + 1..], conds))
  {
    hide PartsOf;
    assert ts[i..][1..] == ts[i + 1..];
  }

  lemma AllPartsEnd(ts: seq<TypeDef>, conds: set<string>)
    requires ts == []
    ensures AllParts(ts, conds) == Parts([], [], [])
  {
  }

  method ApplyBackstop(setAside: seq<Advanced>, ir: ModelIR, errors: seq<ValidationError>)
    returns (advanced: seq<Advanced>)
    ensures advanced == Backstop(setAside, ir, errors)
  {
    hide AddEntry, ErrorEntry;
    advanced := setAside;
    for i := 0 to |errors|
      invariant Backstop(setAside, ir, errors) == Backstop(advanced, ir, errors[i..])
    {
      assert errors[i..][1..] == errors[i + 1..];
      advanced := AddEntry(advanced, ErrorEntry(ir, errors[i]));
    }
  }

  method ParseDslToIr(m: Model) returns (ir: ModelIR, coverage: Coverage)
    ensures ir == Recovered(m) && coverage == CoverageOf(m)
  {
    hide AllParts, FilterMap, Errors, Backstop, Representable;
    var parsedConditions, representable, unrepresentable := ParseConditions(m);
    var parts := ParseTypes(m.types, representable);
    ir := ModelIR(parts.groups, parts.resources, None);
    if |parsedConditions| > 0 {
      ir := ir.(conditions := Some(parsedConditions));
    }
    var notes: seq<Note> := [];
    if m.schemaVersion.Some? && m.schemaVersion.value != "1.1" {
      notes := notes + [SchemaNote(m.schemaVersion.value)];
    }
    if |unrepresentable| > 0 {
      notes := notes + [ConditionNote(unrepresentable)];
    }
    var validationErrors := ValidateModelIR(ir);
    var advanced := ApplyBackstop(parts.advanced, ir, validationErrors);
    coverage := Coverage(|advanced| == 0 && |notes| == 0 && |validationErrors| == 0, advanced, validationErrors, notes);
  }

  lemma AddPartsAssociates(a: Parts, b: Parts, c: Parts)
    ensures AddParts(AddParts(a, b), c) == AddParts(a, AddParts(b, c))
  {
  }
}
