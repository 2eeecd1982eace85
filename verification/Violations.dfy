/** Which violations the validator reports, where, and how often, stated over the model. */
module Violations {
  import opened Prelude
  import opened Condition
  import opened ModelIr
  import opened Validator

  ghost function Total(n: nat, f: nat -> nat): nat {
    if n == 0 then 0 else Total(n - 1, f) + f(n - 1)
  }

  ghost function Once(holds: bool): nat {
    if holds then 1 else 0
  }

  // ---------------------------------------------------------------------------
  // What is wrong with one element of the model.

  /** The i-th type name, groups before resources. */
  ghost function TypeTimes(ir: ModelIR, i: nat, code: ErrorCode): nat
    requires i < |TypeNames(ir)|
  {
    var name := TypeNames(ir)[i];
    match code
    case ReservedUser => Once(name == "user")
    case BadIdentifier => Once(name != "user" && !IsIdentifier(name))
    case DupType => Once(exists k :: 0 <= k < i && TypeNames(ir)[k] == name)
    case _ => 0
  }

  ghost predicate IsGroup(ir: ModelIR, name: string) {
    exists g :: g in ir.groups && g.name == name
  }

  ghost predicate IsResource(ir: ModelIR, name: string) {
    exists r :: r in ir.resources && r.name == name
  }

  ghost predicate IsCondition(ir: ModelIR, name: string) {
    exists c :: c in ConditionsOf(ir) && c.name == name
  }

  ghost predicate NamesNoGroup(ir: ModelIR, ref: SubjectRef) {
    ref.Group? && !IsGroup(ir, ref.group)
  }

  ghost predicate NamesNoCondition(ir: ModelIR, ref: SubjectRef) {
    ref.condition.Some? && !IsCondition(ir, ref.condition.value)
  }

  ghost function SubjectTimes(ir: ModelIR, refs: seq<SubjectRef>, code: ErrorCode): nat {
    match code
    case EmptySubjects => Once(refs == [])
    case UnknownGroup => Tally(|refs|, (k: nat) => k < |refs| && NamesNoGroup(ir, refs[k]))
    case ConditionUnknown => Tally(|refs|, (k: nat) => k < |refs| && NamesNoCondition(ir, refs[k]))
    case _ => 0
  }

  ghost function ParentTimes(ir: ModelIR, r: ResourceType, p: nat, code: ErrorCode): nat
    requires p < |r.parents|
  {
    var (name, types) := (r.parents[p].relationName, r.parents[p].parentTypes);
    match code
    case BadIdentifier => Once(!IsIdentifier(name))
    case DupParentRelation =>
      Once(exists k :: 0 <= k < p && r.parents[k].relationName == name)
      + Tally(|types|, (k: nat) => k < |types| && types[k] in types[..k])
    case UnknownParent => Once(types == []) + Tally(|types|, (k: nat) => k < |types| && !IsResource(ir, types[k]))
    case _ => 0
  }

  ghost predicate IsParent(r: ResourceType, name: string) {
    exists p :: p in r.parents && p.relationName == name
  }

  ghost predicate IsRole(r: ResourceType, name: string) {
    exists role :: role in r.roles && role.name == name
  }

  ghost function RoleTimes(r: ResourceType, k: nat, code: ErrorCode): nat
    requires k < |r.roles|
  {
    var name := r.roles[k].name;
    match code
    case BadIdentifier => Once(!IsIdentifier(name))
    case DupRelation => Once(IsParent(r, name) || exists j :: 0 <= j < k && r.roles[j].name == name)
    case _ => 0
  }

  /** Of the resources of the name, the last lacks the permission. */
  ghost predicate Lacks(ir: ModelIR, name: string, perm: string) {
    exists i ::
      && 0 <= i < |ir.resources| && ir.resources[i].name == name
      && (forall k :: i < k < |ir.resources| ==> ir.resources[k].name != name)
      && !exists p :: p in ir.resources[i].permissions && p.name == perm
  }

  ghost predicate NamedFirst(ps: seq<ParentRef>, i: nat, name: string) {
    && i < |ps| && ps[i].relationName == name
    && forall k :: 0 <= k < i ==> ps[k].relationName != name
  }

  /** How many types of the first parent relation of the name lack the permission. */
  ghost function LackTimes(ir: ModelIR, r: ResourceType, relation: string, perm: string): nat {
    if exists i: nat :: NamedFirst(r.parents, i, relation) then
      var i: nat :| NamedFirst(r.parents, i, relation);
      LackingTypes(ir, r.parents[i].parentTypes, perm)
    else 0
  }

  ghost function LackingTypes(ir: ModelIR, types: seq<string>, perm: string): nat {
    Tally(|types|, (k: nat) => k < |types| && Lacks(ir, types[k], perm))
  }

  ghost function PermissionTimes(ir: ModelIR, r: ResourceType, k: nat, code: ErrorCode): nat
    requires k < |r.permissions|
  {
    var perm := r.permissions[k];
    var (can, grants, inherits) := ("can_" + perm.name, perm.grantedByRoles, perm.inheritFromParents);
    match code
    case BadIdentifier => Once(!IsIdentifier(perm.name))
    case DupRelation =>
      Once(IsParent(r, can) || IsRole(r, can) || exists j :: 0 <= j < k && r.permissions[j].name == perm.name)
    case EmptyGrant => Once(grants == [])
    case UnknownRole => Tally(|grants|, (j: nat) => j < |grants| && !IsRole(r, grants[j]))
    case UnknownParent => Tally(|inherits|, (j: nat) => j < |inherits| && !IsParent(r, inherits[j]))
    case ParentMissingPermission =>
      Total(|inherits|, (j: nat) => if j < |inherits| then LackTimes(ir, r, inherits[j], perm.name) else 0)
    case _ => 0
  }

  // Within a condition.

  /** The last declaration of the name gives it the type. */
  ghost predicate Declares(params: seq<Param>, name: string, typ: ParamType) {
    exists i ::
      && 0 <= i < |params| && params[i] == Param(name, typ)
      && forall j :: i < j < |params| ==> params[j].name != name
  }

  ghost predicate Undeclared(params: seq<Param>, name: string) {
    forall p :: p in params ==> p.name != name
  }

  ghost predicate DeclaredOtherwise(params: seq<Param>, name: string, wanted: ParamType) {
    exists t :: t != wanted && Declares(params, name, t)
  }

  ghost predicate Misfits(params: seq<Param>, name: string, value: Value) {
    exists t :: Declares(params, name, t) && !ValueFits(value, t)
  }

  ghost function LeafTimes(params: seq<Param>, leaf: Leaf, error: ConditionError): nat {
    match error
    case UnknownParam =>
      Once(Undeclared(params, leaf.param))
      + Once(leaf.TimeLeaf? && leaf.rhs.TimeParam? && Undeclared(params, leaf.rhs.param))
    case TypeMismatch =>
      (match leaf
       case TimeLeaf(param, _, rhs) =>
         Once(DeclaredOtherwise(params, param, Timestamp))
         + Once(rhs.TimeParam? && DeclaredOtherwise(params, rhs.param, Timestamp))
       case IpLeaf(param, _) => Once(DeclaredOtherwise(params, param, IpAddress))
       case ValueLeaf(param, op, value) =>
         Once(Misfits(params, param, value)) + Once(Declares(params, param, Bool) && op != Eq && op != Neq))
    case BadTimestamp => Once(leaf.TimeLeaf? && leaf.rhs.TimeLiteral? && !IsRfc3339(leaf.rhs.rfc3339))
    case BadCidr => Once(leaf.IpLeaf? && !IsCidr(leaf.cidr))
    case _ => 0
  }

  /** Every leaf of the tree, and every group without children. */
  ghost function NodeTimes(params: seq<Param>, node: Node, error: ConditionError): nat
    decreases node, 1
  {
    match node
    case LeafNode(leaf) => LeafTimes(params, leaf, error)
    case GroupNode(_, children) => Once(children == [] && error == EmptyGroup) + NodesTimes(params, children, error)
  }

  ghost function NodesTimes(params: seq<Param>, nodes: seq<Node>, error: ConditionError): nat
    decreases nodes, 0
  {
    if nodes == [] then 0 else NodeTimes(params, nodes[0], error) + NodesTimes(params, nodes[1..], error)
  }

  ghost predicate DeclaredBefore(params: seq<Param>, k: nat)
    requires k < |params|
  {
    exists i :: 0 <= i < k && params[i].name == params[k].name
  }

  ghost function ParamTimes(params: seq<Param>, n: nat, error: ConditionError): nat {
    match error
    case BadName => Tally(n, (k: nat) => k < |params| && !IsConditionName(params[k].name))
    case DupParam =>
      Tally(n, (k: nat) => k < |params| && DeclaredBefore(params, k))
    case _ => 0
  }

  ghost function DefinitionTimes(def: ConditionDef, error: ConditionError): nat {
    Once(error == BadName && !IsConditionName(def.name)) + ParamTimes(def.params, |def.params|, error)
    + NodeTimes(def.params, def.tree, error)
  }

  ghost function ConditionTimes(cs: seq<ConditionDef>, k: nat, code: ErrorCode): nat
    requires k < |cs|
  {
    match code
    case DupCondition => Once(exists j :: 0 <= j < k && cs[j].name == cs[k].name)
    case InCondition(error) => DefinitionTimes(cs[k], error)
    case _ => 0
  }

  /** How often the code is due at the place, whatever the rest of the model holds. */
  ghost function Times(ir: ModelIR, code: ErrorCode, place: Place): nat {
    match place
    case GroupAt(g) =>
      if g < |ir.groups| then TypeTimes(ir, g, code) + SubjectTimes(ir, ir.groups[g].memberTypes, code) else 0
    case ResourceAt(r) => if r < |ir.resources| then TypeTimes(ir, |ir.groups| + r, code) else 0
    case ParentAt(r, p) =>
      if r < |ir.resources| && p < |ir.resources[r].parents| then ParentTimes(ir, ir.resources[r], p, code) else 0
    case RoleAt(r, k) =>
      if r < |ir.resources| && k < |ir.resources[r].roles|
      then RoleTimes(ir.resources[r], k, code) + SubjectTimes(ir, ir.resources[r].roles[k].assignableBy, code) else 0
    case PermissionAt(r, k) =>
      if r < |ir.resources| && k < |ir.resources[r].permissions|
      then PermissionTimes(ir, ir.resources[r], k, code) else 0
    case ConditionAt(c) =>
      if c < |ConditionsOf(ir)| then ConditionTimes(ConditionsOf(ir), c, code) else 0
  }

  // ---------------------------------------------------------------------------
  // Counting in the validator's lists.

  ghost function Occurs(s: seq<ValidationError>, e: ValidationError): nat {
    multiset(s)[e]
  }

  lemma OccursConcat(a: seq<ValidationError>, b: seq<ValidationError>, e: ValidationError)
    ensures Occurs(a + b, e) == Occurs(a, e) + Occurs(b, e)
  {
  }

  lemma OccursOne(bad: bool, code: ErrorCode, place: Place, e: ValidationError)
    ensures Occurs(Flag(bad, code, place), e) == Once(bad && e == ValidationError(code, place))
    ensures Occurs([ValidationError(code, place)], e) == Once(e == ValidationError(code, place))
    ensures Occurs([], e) == 0
  {
  }

  lemma NothingOccurs(s: seq<ValidationError>, e: ValidationError)
    requires s == []
    ensures Occurs(s, e) == 0
  {
  }

  lemma FlagsOccur(bad: bool, code: ErrorCode, place: Place, e: ValidationError)
    ensures Occurs(Flag(bad, code, place), e) == if e.place == place && e.code == code then Once(bad) else 0
  {
    OccursOne(bad, code, place, e);
    hide Occurs, Flag;
  }

  lemma FlagAdds(before: seq<ValidationError>, bad: bool, code: ErrorCode, place: Place, e: ValidationError)
    ensures Occurs(before + Flag(bad, code, place), e) ==
            Occurs(before, e) + if e.place == place && e.code == code then Once(bad) else 0
  {
    hide *;
    OccursConcat(before, Flag(bad, code, place), e);
    FlagsOccur(bad, code, place, e);
  }

  lemma NamesAre(ir: ModelIR)
    ensures forall name :: name in SetOf(GroupNames(ir.groups)) <==> IsGroup(ir, name)
    ensures forall name :: name in SetOf(ResourceNames(ir.resources)) <==> IsResource(ir, name)
    ensures forall name :: name in SetOf(ConditionNames(ConditionsOf(ir))) <==> IsCondition(ir, name)
  {
    forall name ensures name in SetOf(GroupNames(ir.groups)) <==> IsGroup(ir, name) {
      if g :| g in ir.groups && g.name == name {
        var i :| 0 <= i < |ir.groups| && ir.groups[i] == g;
        assert GroupNames(ir.groups)[i] == name;
      }
    }
    forall name ensures name in SetOf(ResourceNames(ir.resources)) <==> IsResource(ir, name) {
      if r :| r in ir.resources && r.name == name {
        var i :| 0 <= i < |ir.resources| && ir.resources[i] == r;
        assert ResourceNames(ir.resources)[i] == name;
      }
    }
    var cs := ConditionsOf(ir);
    forall name ensures name in SetOf(ConditionNames(cs)) <==> IsCondition(ir, name) {
      if c :| c in cs && c.name == name {
        var i :| 0 <= i < |cs| && cs[i] == c;
        assert ConditionNames(cs)[i] == name;
      }
    }
  }

  /** The names that references are looked up in. */
  datatype Known = Known(groups: set<string>, resources: set<string>, conditions: set<string>)

  ghost function KnownOf(ir: ModelIR): Known {
    Known(SetOf(GroupNames(ir.groups)), SetOf(ResourceNames(ir.resources)), SetOf(ConditionNames(ConditionsOf(ir))))
  }

  ghost predicate Knows(ir: ModelIR, k: Known) {
    && (forall name :: name in k.groups <==> IsGroup(ir, name))
    && (forall name :: name in k.resources <==> IsResource(ir, name))
    && (forall name :: name in k.conditions <==> IsCondition(ir, name))
  }

  lemma KnownNames(ir: ModelIR)
    ensures Knows(ir, KnownOf(ir))
  {
    NamesAre(ir);
    hide GroupNames, ResourceNames, ConditionNames, IsGroup, IsResource, IsCondition;
  }

  lemma RelationNamesAre(r: ResourceType)
    ensures forall name :: name in ParentNames(r.parents) <==> IsParent(r, name)
    ensures forall name :: name in RoleNames(r.roles) <==> IsRole(r, name)
  {
    forall name ensures name in ParentNames(r.parents) <==> IsParent(r, name) {
      if p :| p in r.parents && p.relationName == name {
        var i :| 0 <= i < |r.parents| && r.parents[i] == p;
        assert ParentNames(r.parents)[i] == name;
      }
    }
    forall name ensures name in RoleNames(r.roles) <==> IsRole(r, name) {
      if x :| x in r.roles && x.name == name {
        var i :| 0 <= i < |r.roles| && r.roles[i] == x;
        assert RoleNames(r.roles)[i] == name;
      }
    }
  }

  /** Where the place stands in the list of elements of its kind, of resource ri where they are a resource's; or -1. */
  ghost function Index(place: Place, kind: Place, ri: nat): (i: int)
    ensures -1 <= i
  {
    match place
    case GroupAt(g) => if kind.GroupAt? then g else -1
    case ResourceAt(r) => -1
    case ParentAt(r, p) => if kind.ParentAt? && r == ri then p else -1
    case RoleAt(r, k) => if kind.RoleAt? && r == ri then k else -1
    case PermissionAt(r, k) => if kind.PermissionAt? && r == ri then k else -1
    case ConditionAt(c) => if kind.ConditionAt? then c else -1
  }

  lemma IndexAt(place: Place, ri: nat, k: nat)
    ensures place == GroupAt(k) <==> Index(place, GroupAt(0), ri) == k
    ensures place == ParentAt(ri, k) <==> Index(place, ParentAt(0, 0), ri) == k
    ensures place == RoleAt(ri, k) <==> Index(place, RoleAt(0, 0), ri) == k
    ensures place == PermissionAt(ri, k) <==> Index(place, PermissionAt(0, 0), ri) == k
    ensures place == ConditionAt(k) <==> Index(place, ConditionAt(0), ri) == k
  {
  }

  // Types.

  /** The position of the place among the type names, or -1. */
  ghost function TypeIndex(ir: ModelIR, place: Place): (i: int)
    ensures -1 <= i < |TypeNames(ir)|
  {
    match place
    case GroupAt(g) => if g < |ir.groups| then g else -1
    case ResourceAt(r) => if r < |ir.resources| then |ir.groups| + r else -1
    case _ => -1
  }

  lemma TypeUnfolds(ir: ModelIR, n: nat)
    requires 0 < n <= |TypeNames(ir)|
    ensures var (name, place) := (TypeNames(ir)[n - 1], TypePlace(ir, n - 1));
            TypeErrors(ir, n) == TypeErrors(ir, n - 1) + Flag(name == "user", ReservedUser, place)
            + Flag(name != "user" && !IsIdentifier(name), BadIdentifier, place)
            + Flag(name in TypeNames(ir)[..n - 1], DupType, place)
  {
    hide TypeNames, IsIdentifier, TypePlace;
  }

  lemma TypeTimesAre(ir: ModelIR, i: nat, code: ErrorCode)
    requires i < |TypeNames(ir)|
    ensures var name := TypeNames(ir)[i];
            TypeTimes(ir, i, code) ==
            match code
            case ReservedUser => Once(name == "user")
            case BadIdentifier => Once(name != "user" && !IsIdentifier(name))
            case DupType => Once(name in TypeNames(ir)[..i])
            case _ => 0
  {
    hide TypeNames, IsIdentifier;
    assert TypeNames(ir)[i] in TypeNames(ir)[..i] <==> exists k :: 0 <= k < i && TypeNames(ir)[k] == TypeNames(ir)[i];
  }

  lemma TypeStep(ir: ModelIR, n: nat, e: ValidationError)
    requires 0 < n <= |TypeNames(ir)|
    ensures Occurs(TypeErrors(ir, n), e) == Occurs(TypeErrors(ir, n - 1), e) +
            (if e.place == TypePlace(ir, n - 1) then TypeTimes(ir, n - 1, e.code) else 0)
  {
    hide *;
    var (name, place, before) := (TypeNames(ir)[n - 1], TypePlace(ir, n - 1), TypeErrors(ir, n - 1));
    var (reserved, bad, taken) :=
      (name == "user", name != "user" && !IsIdentifier(name), name in TypeNames(ir)[..n - 1]);
    var first := before + Flag(reserved, ReservedUser, place);
    TypeUnfolds(ir, n);
    TypeTimesAre(ir, n - 1, e.code);
    FlagAdds(first + Flag(bad, BadIdentifier, place), taken, DupType, place, e);
    FlagAdds(first, bad, BadIdentifier, place, e);
    FlagAdds(before, reserved, ReservedUser, place, e);
  }

  lemma TypePlaceIndex(ir: ModelIR, i: nat, place: Place)
    requires i < |TypeNames(ir)|
    ensures place == TypePlace(ir, i) <==> TypeIndex(ir, place) == i
  {
  }

  ghost function NamesDue(ir: ModelIR, n: nat, e: ValidationError): nat
    requires n <= |TypeNames(ir)|
  {
    var i := TypeIndex(ir, e.place);
    if 0 <= i < n then TypeTimes(ir, i, e.code) else 0
  }

  lemma NamesDueStep(ir: ModelIR, n: nat, e: ValidationError)
    requires 0 < n <= |TypeNames(ir)|
    ensures NamesDue(ir, n, e) == NamesDue(ir, n - 1, e) +
            if e.place == TypePlace(ir, n - 1) then TypeTimes(ir, n - 1, e.code) else 0
  {
    TypePlaceIndex(ir, n - 1, e.place);
    hide TypeIndex, TypeTimes, TypeNames, TypePlace;
  }

  lemma NoNamesReported(ir: ModelIR, e: ValidationError)
    ensures Occurs(TypeErrors(ir, 0), e) == NamesDue(ir, 0, e) == 0
  {
    hide Occurs;
    NothingOccurs([], e);
  }

  lemma {:induction false} TypesCounted(ir: ModelIR, n: nat, e: ValidationError)
    requires n <= |TypeNames(ir)|
    ensures Occurs(TypeErrors(ir, n), e) == NamesDue(ir, n, e)
  {
    hide *;
    if n == 0 {
      NoNamesReported(ir, e);
    } else {
      TypesCounted(ir, n - 1, e);
      TypeStep(ir, n, e);
      NamesDueStep(ir, n, e);
    }
  }

  // Subjects.

  lemma {:induction false} SubjectsCounted(ir: ModelIR, known: Known, refs: seq<SubjectRef>, place: Place, n: nat,
      e: ValidationError)
    requires n <= |refs| && Knows(ir, known)
    ensures Occurs(SubjectErrors(refs, known.groups, place, n), e) ==
            if e == ValidationError(UnknownGroup, place)
            then Tally(n, (k: nat) => k < |refs| && NamesNoGroup(ir, refs[k])) else 0
  {
    hide Occurs, Flag, IsGroup, IsResource, IsCondition;
    if n > 0 {
      var bad := refs[n - 1].Group? && refs[n - 1].group !in known.groups;
      SubjectsCounted(ir, known, refs, place, n - 1, e);
      OccursConcat(SubjectErrors(refs, known.groups, place, n - 1), Flag(bad, UnknownGroup, place), e);
      OccursOne(bad, UnknownGroup, place, e);
    } else {
      NothingOccurs([], e);
    }
  }

  lemma {:induction false} RefConditionsCounted(ir: ModelIR, known: Known, refs: seq<SubjectRef>, place: Place, n: nat,
      e: ValidationError)
    requires n <= |refs| && Knows(ir, known)
    ensures Occurs(RefConditionErrors(refs, known.conditions, place, n), e) ==
            if e == ValidationError(ConditionUnknown, place)
            then Tally(n, (k: nat) => k < |refs| && NamesNoCondition(ir, refs[k])) else 0
  {
    hide Occurs, Flag, IsGroup, IsResource, IsCondition;
    if n > 0 {
      var bad := refs[n - 1].condition.Some? && refs[n - 1].condition.value !in known.conditions;
      RefConditionsCounted(ir, known, refs, place, n - 1, e);
      OccursConcat(RefConditionErrors(refs, known.conditions, place, n - 1), Flag(bad, ConditionUnknown, place), e);
      OccursOne(bad, ConditionUnknown, place, e);
    } else {
      NothingOccurs([], e);
    }
  }

  /** What the two passes over a list of subjects report together. */
  lemma SubjectListCounted(ir: ModelIR, known: Known, refs: seq<SubjectRef>, place: Place, e: ValidationError)
    requires Knows(ir, known)
    ensures Occurs(SubjectListErrors(refs, known.groups, place), e)
            + Occurs(RefConditionErrors(refs, known.conditions, place, |refs|), e)
            == if e.place == place then SubjectTimes(ir, refs, e.code) else 0
  {
    SubjectsCounted(ir, known, refs, place, |refs|, e);
    RefConditionsCounted(ir, known, refs, place, |refs|, e);
    hide Occurs, Flag, NamesNoGroup, NamesNoCondition, RefConditionErrors, SubjectErrors, Tally, Knows;
    OccursConcat(Flag(refs == [], EmptySubjects, place), SubjectErrors(refs, known.groups, place, |refs|), e);
    OccursOne(refs == [], EmptySubjects, place, e);
  }

  // Groups.

  /** What the two passes over the first n groups report, and what is due there. */
  ghost function GroupsReported(ir: ModelIR, known: Known, n: nat, e: ValidationError): nat
    requires n <= |ir.groups|
  {
    Occurs(GroupErrors(ir, known.groups, n), e) + Occurs(GroupConditionErrors(ir, known.conditions, n), e)
  }

  ghost function GroupsDue(ir: ModelIR, n: nat, e: ValidationError): nat
    requires n <= |ir.groups|
  {
    var g := Index(e.place, GroupAt(0), 0);
    if 0 <= g < n then SubjectTimes(ir, ir.groups[g].memberTypes, e.code) else 0
  }

  lemma GroupsDueStep(ir: ModelIR, n: nat, e: ValidationError)
    requires 0 < n <= |ir.groups|
    ensures GroupsDue(ir, n, e) == GroupsDue(ir, n - 1, e) +
            if e.place == GroupAt(n - 1) then SubjectTimes(ir, ir.groups[n - 1].memberTypes, e.code) else 0
  {
    IndexAt(e.place, 0, n - 1);
    hide Index, SubjectTimes;
  }

  lemma GroupStep(ir: ModelIR, known: Known, n: nat, e: ValidationError)
    requires 0 < n <= |ir.groups| && Knows(ir, known)
    ensures GroupsReported(ir, known, n, e) == GroupsReported(ir, known, n - 1, e) +
            if e.place == GroupAt(n - 1) then SubjectTimes(ir, ir.groups[n - 1].memberTypes, e.code) else 0
  {
    hide Occurs, Knows, SubjectListErrors, RefConditionErrors, SubjectTimes;
    var (refs, place) := (ir.groups[n - 1].memberTypes, GroupAt(n - 1));
    SubjectListCounted(ir, known, refs, place, e);
    OccursConcat(GroupErrors(ir, known.groups, n - 1), SubjectListErrors(refs, known.groups, place), e);
    OccursConcat(GroupConditionErrors(ir, known.conditions, n - 1),
                 RefConditionErrors(refs, known.conditions, place, |refs|), e);
  }

  lemma NoGroupsReported(ir: ModelIR, known: Known, e: ValidationError)
    ensures GroupsReported(ir, known, 0, e) == GroupsDue(ir, 0, e) == 0
  {
    hide Occurs;
    NothingOccurs([], e);
  }

  lemma {:induction false} GroupsCounted(ir: ModelIR, known: Known, n: nat, e: ValidationError)
    requires n <= |ir.groups| && Knows(ir, known)
    ensures GroupsReported(ir, known, n, e) == GroupsDue(ir, n, e)
  {
    hide *;
    if n == 0 {
      NoGroupsReported(ir, known, e);
    } else {
      GroupsCounted(ir, known, n - 1, e);
      GroupStep(ir, known, n, e);
      GroupsDueStep(ir, n, e);
    }
  }

  // Parents.

  ghost function TypesDue(ir: ModelIR, types: seq<string>, n: nat, code: ErrorCode): nat {
    match code
    case DupParentRelation => Tally(n, (k: nat) => k < |types| && types[k] in types[..k])
    case UnknownParent => Tally(n, (k: nat) => k < |types| && !IsResource(ir, types[k]))
    case _ => 0
  }

  lemma TypesDueStep(ir: ModelIR, types: seq<string>, n: nat, code: ErrorCode)
    requires 0 < n <= |types|
    ensures TypesDue(ir, types, n, code) == TypesDue(ir, types, n - 1, code) +
            match code
            case DupParentRelation => Once(types[n - 1] in types[..n - 1])
            case UnknownParent => Once(!IsResource(ir, types[n - 1]))
            case _ => 0
  {
    hide IsResource;
  }

  lemma ParentTypeStep(ir: ModelIR, known: Known, types: seq<string>, place: Place, n: nat, e: ValidationError)
    requires 0 < n <= |types| && Knows(ir, known)
    ensures var (again, absent) := (types[n - 1] in types[..n - 1], !IsResource(ir, types[n - 1]));
            ParentTypeErrors(types, known.resources, place, n) ==
            ParentTypeErrors(types, known.resources, place, n - 1)
              + Flag(again, DupParentRelation, place) + Flag(absent, UnknownParent, place)
  {
    hide Flag, IsResource, IsGroup, IsCondition;
  }

  lemma {:induction false} ParentTypesCounted(ir: ModelIR, known: Known, types: seq<string>, place: Place, n: nat,
      e: ValidationError)
    requires n <= |types| && Knows(ir, known)
    ensures Occurs(ParentTypeErrors(types, known.resources, place, n), e) ==
            if e.place == place then TypesDue(ir, types, n, e.code) else 0
  {
    if n == 0 {
      hide Occurs;
      NothingOccurs([], e);
    } else {
      hide *;
      var before := ParentTypeErrors(types, known.resources, place, n - 1);
      var (again, absent) := (types[n - 1] in types[..n - 1], !IsResource(ir, types[n - 1]));
      ParentTypeStep(ir, known, types, place, n, e);
      ParentTypesCounted(ir, known, types, place, n - 1, e);
      TypesDueStep(ir, types, n, e.code);
      FlagAdds(before + Flag(again, DupParentRelation, place), absent, UnknownParent, place, e);
      FlagAdds(before, again, DupParentRelation, place, e);
    }
  }

  lemma EarlierParent(ps: seq<ParentRef>, p: nat)
    requires p < |ps|
    ensures ps[p].relationName in ParentNames(ps)[..p] <==>
            exists k :: 0 <= k < p && ps[k].relationName == ps[p].relationName
  {
    var (names, name) := (ParentNames(ps), ps[p].relationName);
    if k :| 0 <= k < p && ps[k].relationName == name {
      assert names[..p][k] == name;
    }
  }

  lemma ParentTimesAre(ir: ModelIR, r: ResourceType, p: nat, code: ErrorCode)
    requires p < |r.parents|
    ensures var (name, types) := (r.parents[p].relationName, r.parents[p].parentTypes);
            ParentTimes(ir, r, p, code) == TypesDue(ir, types, |types|, code) +
            match code
            case BadIdentifier => Once(!IsIdentifier(name))
            case DupParentRelation => Once(name in ParentNames(r.parents)[..p])
            case UnknownParent => Once(types == [])
            case _ => 0
  {
    EarlierParent(r.parents, p);
    hide IsIdentifier, Tally, IsResource, ParentNames;
  }

  lemma ParentUnfolds(r: ResourceType, resources: set<string>, ri: nat, p: nat)
    requires p < |r.parents|
    ensures var (place, name, types) := (ParentAt(ri, p), r.parents[p].relationName, r.parents[p].parentTypes);
            ParentErrors(r.parents, resources, ri, p + 1) ==
            ParentErrors(r.parents, resources, ri, p) + Flag(!IsIdentifier(name), BadIdentifier, place)
            + Flag(name in ParentNames(r.parents)[..p], DupParentRelation, place)
            + Flag(types == [], UnknownParent, place) + ParentTypeErrors(types, resources, place, |types|)
  {
    hide Flag, IsIdentifier, ParentNames, ParentTypeErrors;
  }

  lemma ParentStep(ir: ModelIR, known: Known, r: ResourceType, ri: nat, p: nat, e: ValidationError)
    requires p < |r.parents| && Knows(ir, known)
    ensures Occurs(ParentErrors(r.parents, known.resources, ri, p + 1), e) ==
            Occurs(ParentErrors(r.parents, known.resources, ri, p), e)
            + if e.place == ParentAt(ri, p) then ParentTimes(ir, r, p, e.code) else 0
  {
    hide *;
    var (place, name, types) := (ParentAt(ri, p), r.parents[p].relationName, r.parents[p].parentTypes);
    var before := ParentErrors(r.parents, known.resources, ri, p);
    var (taken, bad) := (name in ParentNames(r.parents)[..p], !IsIdentifier(name));
    var named := before + Flag(bad, BadIdentifier, place);
    var claimed := named + Flag(taken, DupParentRelation, place);
    ParentUnfolds(r, known.resources, ri, p);
    ParentTypesCounted(ir, known, types, place, |types|, e);
    ParentTimesAre(ir, r, p, e.code);
    OccursConcat(claimed + Flag(types == [], UnknownParent, place),
                 ParentTypeErrors(types, known.resources, place, |types|), e);
    FlagAdds(claimed, types == [], UnknownParent, place, e);
    FlagAdds(named, taken, DupParentRelation, place, e);
    FlagAdds(before, bad, BadIdentifier, place, e);
  }

  ghost function ParentsDue(ir: ModelIR, r: ResourceType, ri: nat, n: nat, e: ValidationError): nat
    requires n <= |r.parents|
  {
    var p := Index(e.place, ParentAt(0, 0), ri);
    if 0 <= p < n then ParentTimes(ir, r, p, e.code) else 0
  }

  lemma ParentsDueStep(ir: ModelIR, r: ResourceType, ri: nat, n: nat, e: ValidationError)
    requires 0 < n <= |r.parents|
    ensures ParentsDue(ir, r, ri, n, e) == ParentsDue(ir, r, ri, n - 1, e) +
            if e.place == ParentAt(ri, n - 1) then ParentTimes(ir, r, n - 1, e.code) else 0
  {
    IndexAt(e.place, ri, n - 1);
    hide Index, ParentTimes;
  }

  lemma NoParentsReported(ir: ModelIR, known: Known, r: ResourceType, ri: nat, e: ValidationError)
    ensures Occurs(ParentErrors(r.parents, known.resources, ri, 0), e) == ParentsDue(ir, r, ri, 0, e) == 0
  {
    hide Occurs;
    NothingOccurs([], e);
  }

  lemma {:induction false} ParentsCounted(ir: ModelIR, known: Known, r: ResourceType, ri: nat, n: nat,
      e: ValidationError)
    requires n <= |r.parents| && Knows(ir, known)
    ensures Occurs(ParentErrors(r.parents, known.resources, ri, n), e) == ParentsDue(ir, r, ri, n, e)
  {
    hide *;
    if n == 0 {
      NoParentsReported(ir, known, r, ri, e);
    } else {
      ParentsCounted(ir, known, r, ri, n - 1, e);
      ParentStep(ir, known, r, ri, n - 1, e);
      ParentsDueStep(ir, r, ri, n, e);
    }
  }

  // Roles.

  lemma EarlierRole(roles: seq<Role>, k: nat)
    requires k < |roles|
    ensures roles[k].name in RoleNames(roles)[..k] <==> exists j :: 0 <= j < k && roles[j].name == roles[k].name
  {
    var (names, name) := (RoleNames(roles), roles[k].name);
    if j :| 0 <= j < k && roles[j].name == name {
      assert names[..k][j] == name;
    }
  }

  lemma RoleTimesAre(r: ResourceType, k: nat, code: ErrorCode)
    requires k < |r.roles|
    ensures var name := r.roles[k].name;
            RoleTimes(r, k, code) ==
            match code
            case BadIdentifier => Once(!IsIdentifier(name))
            case DupRelation => Once(name in ParentNames(r.parents) || name in RoleNames(r.roles)[..k])
            case _ => 0
  {
    EarlierRole(r.roles, k);
    RelationNamesAre(r);
    hide IsIdentifier, ParentNames, RoleNames, IsParent;
  }

  ghost function RolesReported(known: Known, r: ResourceType, ri: nat, n: nat, e: ValidationError): nat
    requires n <= |r.roles|
  {
    Occurs(RoleErrors(r, known.groups, ri, n), e) + Occurs(RoleConditionErrors(r.roles, known.conditions, ri, n), e)
  }

  lemma RoleStep(ir: ModelIR, known: Known, r: ResourceType, ri: nat, k: nat, e: ValidationError)
    requires k < |r.roles| && Knows(ir, known)
    ensures RolesReported(known, r, ri, k + 1, e) == RolesReported(known, r, ri, k, e)
            + if e.place == RoleAt(ri, k)
              then RoleTimes(r, k, e.code) + SubjectTimes(ir, r.roles[k].assignableBy, e.code) else 0
  {
    var (role, place) := (r.roles[k], RoleAt(ri, k));
    var (bad, taken) := (!IsIdentifier(role.name),
                         role.name in ParentNames(r.parents) || role.name in RoleNames(r.roles)[..k]);
    var (before, refs) := (RoleErrors(r, known.groups, ri, k), role.assignableBy);
    var (a, b, c) := (Flag(bad, BadIdentifier, place), Flag(taken, DupRelation, place),
                      SubjectListErrors(refs, known.groups, place));
    var conditions := RoleConditionErrors(r.roles, known.conditions, ri, k);
    var d := RefConditionErrors(refs, known.conditions, place, |refs|);
    assert RolesReported(known, r, ri, k, e) == Occurs(before, e) + Occurs(conditions, e);
    assert RolesReported(known, r, ri, k + 1, e) == Occurs(before + a + b + c, e) + Occurs(conditions + d, e) by {
      assert RoleErrors(r, known.groups, ri, k + 1) == before + a + b + c;
      assert RoleConditionErrors(r.roles, known.conditions, ri, k + 1) == conditions + d;
      hide Occurs;
    }
    hide *;
    RoleTimesAre(r, k, e.code);
    SubjectListCounted(ir, known, refs, place, e);
    OccursConcat(conditions, d, e);
    OccursConcat(before + a + b, c, e);
    OccursConcat(before + a, b, e);
    OccursConcat(before, a, e);
    FlagsOccur(bad, BadIdentifier, place, e);
    FlagsOccur(taken, DupRelation, place, e);
  }

  ghost function RolesDue(ir: ModelIR, r: ResourceType, ri: nat, n: nat, e: ValidationError): nat
    requires n <= |r.roles|
  {
    var k := Index(e.place, RoleAt(0, 0), ri);
    if 0 <= k < n then RoleTimes(r, k, e.code) + SubjectTimes(ir, r.roles[k].assignableBy, e.code) else 0
  }

  lemma RolesDueStep(ir: ModelIR, r: ResourceType, ri: nat, n: nat, e: ValidationError)
    requires 0 < n <= |r.roles|
    ensures RolesDue(ir, r, ri, n, e) == RolesDue(ir, r, ri, n - 1, e) +
            if e.place == RoleAt(ri, n - 1)
            then RoleTimes(r, n - 1, e.code) + SubjectTimes(ir, r.roles[n - 1].assignableBy, e.code) else 0
  {
    IndexAt(e.place, ri, n - 1);
    hide Index, SubjectTimes, RoleTimes;
  }

  lemma NoRolesReported(ir: ModelIR, known: Known, r: ResourceType, ri: nat, e: ValidationError)
    ensures RolesReported(known, r, ri, 0, e) == RolesDue(ir, r, ri, 0, e) == 0
  {
    hide Occurs;
    NothingOccurs([], e);
  }

  lemma {:induction false} RolesCounted(ir: ModelIR, known: Known, r: ResourceType, ri: nat, n: nat, e: ValidationError)
    requires n <= |r.roles| && Knows(ir, known)
    ensures RolesReported(known, r, ri, n, e) == RolesDue(ir, r, ri, n, e)
  {
    hide *;
    if n == 0 {
      NoRolesReported(ir, known, r, ri, e);
    } else {
      RolesCounted(ir, known, r, ri, n - 1, e);
      RoleStep(ir, known, r, ri, n - 1, e);
      RolesDueStep(ir, r, ri, n, e);
    }
  }

  lemma OnceIs(holds: bool)
    ensures Once(holds) == if holds then 1 else 0
  {
  }

  // Permissions.

  lemma {:induction false} GrantsCounted(r: ResourceType, grants: seq<string>, place: Place, n: nat, e: ValidationError)
    requires n <= |grants|
    ensures Occurs(GrantErrors(grants, SetOf(RoleNames(r.roles)), place, n), e) ==
            if e == ValidationError(UnknownRole, place)
            then Tally(n, (j: nat) => j < |grants| && !IsRole(r, grants[j])) else 0
  {
    var roles := SetOf(RoleNames(r.roles));
    if n > 0 {
      GrantsCounted(r, grants, place, n - 1, e);
      RelationNamesAre(r);
      OccursConcat(GrantErrors(grants, roles, place, n - 1), Flag(grants[n - 1] !in roles, UnknownRole, place), e);
      OccursOne(grants[n - 1] !in roles, UnknownRole, place, e);
      hide Occurs, Flag, RoleNames, IsRole;
    } else {
      assert Occurs([], e) == 0;
    }
  }

  lemma {:induction false} LastOfName(rs: seq<ResourceType>, name: string)
    ensures match PermsOf(rs, name)
            case None => forall i :: 0 <= i < |rs| ==> rs[i].name != name
            case Some(perms) =>
              exists i ::
                && 0 <= i < |rs| && rs[i].name == name && perms == PermissionNames(rs[i].permissions)
                && forall k :: i < k < |rs| ==> rs[k].name != name
  {
    if rs != [] {
      var last := |rs| - 1;
      LastOfName(rs[..last], name);
      hide PermissionNames;
      if rs[last].name != name && PermsOf(rs, name).Some? {
        var i :| 0 <= i < last && rs[..last][i].name == name
          && PermsOf(rs, name).value == PermissionNames(rs[..last][i].permissions)
          && forall k :: i < k < last ==> rs[..last][k].name != name;
        assert rs[i] == rs[..last][i];
        assert forall k :: i < k < last ==> rs[k] == rs[..last][k];
      }
    }
  }

  lemma LacksIs(ir: ModelIR, name: string, perm: string)
    ensures Lacks(ir, name, perm) <==>
            PermsOf(ir.resources, name).Some? && perm !in PermsOf(ir.resources, name).value
  {
    var rs := ir.resources;
    LastOfName(rs, name);
    hide PermsOf;
    if PermsOf(rs, name).Some? {
      var i :| 0 <= i < |rs| && rs[i].name == name && PermsOf(rs, name).value == PermissionNames(rs[i].permissions)
        && forall k :: i < k < |rs| ==> rs[k].name != name;
      NamedPermission(rs[i].permissions, perm);
      hide PermissionNames;
      if Lacks(ir, name, perm) {
        var j :| 0 <= j < |rs| && rs[j].name == name
          && (forall k :: j < k < |rs| ==> rs[k].name != name)
          && !exists p :: p in rs[j].permissions && p.name == perm;
        assert i == j;
      }
    }
  }

  lemma NamedPermission(ps: seq<Permission>, name: string)
    ensures name in PermissionNames(ps) <==> exists p :: p in ps && p.name == name
  {
    if p :| p in ps && p.name == name {
      var i :| 0 <= i < |ps| && ps[i] == p;
      assert PermissionNames(ps)[i] == name;
    }
  }

  lemma {:induction false} MissingCounted(ir: ModelIR, types: seq<string>, perm: string, place: Place, n: nat,
      e: ValidationError)
    requires n <= |types|
    ensures Occurs(MissingErrors(types, perm, ir.resources, place, n), e) ==
            if e == ValidationError(ParentMissingPermission, place)
            then Tally(n, (k: nat) => k < |types| && Lacks(ir, types[k], perm)) else 0
  {
    hide Occurs, Flag, Lacks, PermsOf;
    if n > 0 {
      var perms := PermsOf(ir.resources, types[n - 1]);
      var bad := perms.Some? && perm !in perms.value;
      var before := MissingErrors(types, perm, ir.resources, place, n - 1);
      var p := (k: nat) => k < |types| && Lacks(ir, types[k], perm);
      assert MissingErrors(types, perm, ir.resources, place, n) == before + Flag(bad, ParentMissingPermission, place);
      assert Tally(n, p) == Tally(n - 1, p) + Once(Lacks(ir, types[n - 1], perm));
      hide *;
      MissingCounted(ir, types, perm, place, n - 1, e);
      LacksIs(ir, types[n - 1], perm);
      OccursConcat(before, Flag(bad, ParentMissingPermission, place), e);
      OccursOne(bad, ParentMissingPermission, place, e);
      OnceIs(bad && e == ValidationError(ParentMissingPermission, place));
      OnceIs(bad);
    } else {
      NothingOccurs([], e);
    }
  }

  lemma {:induction false} FoundFirst(ps: seq<ParentRef>, name: string)
    ensures match ParentNamed(ps, name)
            case None => forall p :: p in ps ==> p.relationName != name
            case Some(p) => exists i: nat :: NamedFirst(ps, i, name) && ps[i] == p
  {
    if ps != [] {
      FoundFirst(ps[1..], name);
      assert forall p :: p in ps <==> p == ps[0] || p in ps[1..];
      if ps[0].relationName == name {
        assert NamedFirst(ps, 0, name);
      } else if ParentNamed(ps[1..], name).Some? {
        var i: nat :| NamedFirst(ps[1..], i, name) && ps[1..][i] == ParentNamed(ps[1..], name).value;
        assert NamedFirst(ps, i + 1, name);
      }
    }
  }

  lemma LackTimesAre(ir: ModelIR, r: ResourceType, relation: string, perm: string)
    ensures ParentNamed(r.parents, relation).Some? <==> IsParent(r, relation)
    ensures LackTimes(ir, r, relation, perm) ==
            match ParentNamed(r.parents, relation)
            case None => 0
            case Some(p) => LackingTypes(ir, p.parentTypes, perm)
  {
    FoundFirst(r.parents, relation);
    hide ParentNamed, LackingTypes;
    if i: nat :| NamedFirst(r.parents, i, relation) {
      assert r.parents[i] in r.parents;
      assert forall j: nat :: NamedFirst(r.parents, j, relation) ==> j == i;
    }
  }

  /** What one inherited relation contributes. */
  lemma InheritStep(ir: ModelIR, r: ResourceType, perm: Permission, place: Place, n: nat, e: ValidationError)
    requires 0 < n <= |perm.inheritFromParents|
    ensures var relation := perm.inheritFromParents[n - 1];
            Occurs(InheritErrors(perm, r, ir.resources, place, n), e) ==
            Occurs(InheritErrors(perm, r, ir.resources, place, n - 1), e)
            + (if e == ValidationError(UnknownParent, place) then Once(!IsParent(r, relation)) else 0)
            + (if e == ValidationError(ParentMissingPermission, place)
               then LackTimes(ir, r, relation, perm.name) else 0)
  {
    var relation := perm.inheritFromParents[n - 1];
    var found := ParentNamed(r.parents, relation);
    var before := InheritErrors(perm, r, ir.resources, place, n - 1);
    LackTimesAre(ir, r, relation, perm.name);
    OnceIs(!IsParent(r, relation));
    match found
    case None =>
      assert InheritErrors(perm, r, ir.resources, place, n) == before + [ValidationError(UnknownParent, place)];
      hide *;
      OccursConcat(before, [ValidationError(UnknownParent, place)], e);
      OccursOne(true, UnknownParent, place, e);
      OnceIs(e == ValidationError(UnknownParent, place));
    case Some(p) =>
      var types := p.parentTypes;
      var more := MissingErrors(types, perm.name, ir.resources, place, |types|);
      MissingCounted(ir, types, perm.name, place, |types|, e);
      assert InheritErrors(perm, r, ir.resources, place, n) == before + more;
      hide Occurs, MissingErrors, InheritErrors, Lacks, Tally, IsParent, ParentNamed, LackTimes;
      OccursConcat(before, more, e);
  }

  lemma {:induction false} InheritsCounted(ir: ModelIR, r: ResourceType, perm: Permission, place: Place, n: nat,
      e: ValidationError)
    requires n <= |perm.inheritFromParents|
    ensures var inherits := perm.inheritFromParents;
            Occurs(InheritErrors(perm, r, ir.resources, place, n), e) ==
            (if e == ValidationError(UnknownParent, place)
             then Tally(n, (j: nat) => j < |inherits| && !IsParent(r, inherits[j])) else 0)
            + (if e == ValidationError(ParentMissingPermission, place)
               then Total(n, (j: nat) => if j < |inherits| then LackTimes(ir, r, inherits[j], perm.name) else 0) else 0)
  {
    hide Occurs, LackTimes, IsParent;
    var inherits := perm.inheritFromParents;
    var p := (j: nat) => j < |inherits| && !IsParent(r, inherits[j]);
    var f := (j: nat) => if j < |inherits| then LackTimes(ir, r, inherits[j], perm.name) else 0;
    if n > 0 {
      assert Tally(n, p) == Tally(n - 1, p) + Once(!IsParent(r, inherits[n - 1]));
      assert Total(n, f) == Total(n - 1, f) + LackTimes(ir, r, inherits[n - 1], perm.name);
      hide *;
      InheritsCounted(ir, r, perm, place, n - 1, e);
      InheritStep(ir, r, perm, place, n, e);
    } else {
      NothingOccurs([], e);
    }
  }

  lemma EarlierPermission(ps: seq<Permission>, k: nat)
    requires k < |ps|
    ensures CanNames(ps)[k] == "can_" + ps[k].name
    ensures CanNames(ps)[k] in CanNames(ps)[..k] <==> exists j :: 0 <= j < k && ps[j].name == ps[k].name
  {
    var names := CanNames(ps);
    assert forall j :: 0 <= j < |ps| ==> names[j] == "can_" + ps[j].name;
    if j :| 0 <= j < k && ps[j].name == ps[k].name {
      assert names[..k][j] == names[k];
    }
    if names[k] in names[..k] {
      var j :| 0 <= j < k && names[..k][j] == names[k];
      assert ps[j].name == names[j][4..] == names[k][4..] == ps[k].name;
    }
  }

  ghost function NameTimes(r: ResourceType, k: nat, code: ErrorCode): nat
    requires k < |r.permissions|
  {
    var can := CanNames(r.permissions)[k];
    match code
    case BadIdentifier => Once(!IsIdentifier(r.permissions[k].name))
    case DupRelation =>
      Once(can in ParentNames(r.parents) || can in RoleNames(r.roles) || can in CanNames(r.permissions)[..k])
    case _ => 0
  }

  lemma PermissionTimesAre(ir: ModelIR, r: ResourceType, k: nat, code: ErrorCode)
    requires k < |r.permissions|
    ensures var perm := r.permissions[k];
            PermissionTimes(ir, r, k, code) ==
            NameTimes(r, k, code) + GrantTimes(r, perm.grantedByRoles, code) + InheritTimes(ir, r, perm, code)
  {
    EarlierPermission(r.permissions, k);
    RelationNamesAre(r);
    hide IsIdentifier, ParentNames, RoleNames, CanNames, IsParent, IsRole, LackTimes, Tally, Total;
  }

  lemma PermissionNameCounted(r: ResourceType, ri: nat, k: nat, e: ValidationError)
    requires k < |r.permissions|
    ensures Occurs(PermissionNameErrors(r, ri, k), e) ==
            if e.place == PermissionAt(ri, k) then NameTimes(r, k, e.code) else 0
  {
    var (can, place) := (CanNames(r.permissions)[k], PermissionAt(ri, k));
    var bad := !IsIdentifier(r.permissions[k].name);
    var taken := can in ParentNames(r.parents) || can in RoleNames(r.roles) || can in CanNames(r.permissions)[..k];
    assert PermissionNameErrors(r, ri, k) == Flag(bad, BadIdentifier, place) + Flag(taken, DupRelation, place);
    hide Occurs, Flag, IsIdentifier, ParentNames, RoleNames, CanNames;
    OccursConcat(Flag(bad, BadIdentifier, place), Flag(taken, DupRelation, place), e);
    FlagsOccur(bad, BadIdentifier, place, e);
    FlagsOccur(taken, DupRelation, place, e);
  }

  /** What is due for the granting roles and the inherited relations of a permission. */
  ghost function GrantTimes(r: ResourceType, grants: seq<string>, code: ErrorCode): nat {
    match code
    case EmptyGrant => Once(grants == [])
    case UnknownRole => Tally(|grants|, (j: nat) => j < |grants| && !IsRole(r, grants[j]))
    case _ => 0
  }

  ghost function InheritTimes(ir: ModelIR, r: ResourceType, perm: Permission, code: ErrorCode): nat {
    var inherits := perm.inheritFromParents;
    match code
    case UnknownParent => Tally(|inherits|, (j: nat) => j < |inherits| && !IsParent(r, inherits[j]))
    case ParentMissingPermission =>
      Total(|inherits|, (j: nat) => if j < |inherits| then LackTimes(ir, r, inherits[j], perm.name) else 0)
    case _ => 0
  }

  lemma GrantListCounted(r: ResourceType, perm: Permission, place: Place, e: ValidationError)
    ensures Occurs(GrantListErrors(perm, SetOf(RoleNames(r.roles)), place), e) ==
            if e.place == place then GrantTimes(r, perm.grantedByRoles, e.code) else 0
  {
    var (grants, roles) := (perm.grantedByRoles, SetOf(RoleNames(r.roles)));
    GrantsCounted(r, grants, place, |grants|, e);
    hide Occurs, Flag, GrantErrors, Tally, IsRole, RoleNames;
    OccursConcat(Flag(grants == [], EmptyGrant, place), GrantErrors(grants, roles, place, |grants|), e);
    FlagsOccur(grants == [], EmptyGrant, place, e);
  }

  lemma InheritListCounted(ir: ModelIR, r: ResourceType, perm: Permission, place: Place, e: ValidationError)
    ensures Occurs(InheritErrors(perm, r, ir.resources, place, |perm.inheritFromParents|), e) ==
            if e.place == place then InheritTimes(ir, r, perm, e.code) else 0
  {
    InheritsCounted(ir, r, perm, place, |perm.inheritFromParents|, e);
    hide Occurs, InheritErrors, Tally, Total, LackTimes, IsParent;
  }

  lemma PermissionStep(ir: ModelIR, r: ResourceType, ri: nat, k: nat, e: ValidationError)
    requires k < |r.permissions|
    ensures Occurs(PermissionErrors(r, ir.resources, ri, k + 1), e) ==
            Occurs(PermissionErrors(r, ir.resources, ri, k), e)
            + if e.place == PermissionAt(ri, k) then PermissionTimes(ir, r, k, e.code) else 0
  {
    var (perm, place) := (r.permissions[k], PermissionAt(ri, k));
    var before := PermissionErrors(r, ir.resources, ri, k);
    var (a, b) := (PermissionNameErrors(r, ri, k), GrantListErrors(perm, SetOf(RoleNames(r.roles)), place));
    var c := InheritErrors(perm, r, ir.resources, place, |perm.inheritFromParents|);
    assert PermissionErrors(r, ir.resources, ri, k + 1) == before + (a + b + c);
    hide *;
    PermissionTimesAre(ir, r, k, e.code);
    PermissionNameCounted(r, ri, k, e);
    GrantListCounted(r, perm, place, e);
    InheritListCounted(ir, r, perm, place, e);
    OccursConcat(before, a + b + c, e);
    OccursConcat(a + b, c, e);
    OccursConcat(a, b, e);
  }

  ghost function PermissionsDue(ir: ModelIR, r: ResourceType, ri: nat, n: nat, e: ValidationError): nat
    requires n <= |r.permissions|
  {
    var k := Index(e.place, PermissionAt(0, 0), ri);
    if 0 <= k < n then PermissionTimes(ir, r, k, e.code) else 0
  }

  lemma PermissionsDueStep(ir: ModelIR, r: ResourceType, ri: nat, n: nat, e: ValidationError)
    requires 0 < n <= |r.permissions|
    ensures PermissionsDue(ir, r, ri, n, e) == PermissionsDue(ir, r, ri, n - 1, e) +
            if e.place == PermissionAt(ri, n - 1) then PermissionTimes(ir, r, n - 1, e.code) else 0
  {
    IndexAt(e.place, ri, n - 1);
    hide Index, PermissionTimes;
  }

  lemma NoPermissionsReported(ir: ModelIR, r: ResourceType, ri: nat, e: ValidationError)
    ensures Occurs(PermissionErrors(r, ir.resources, ri, 0), e) == PermissionsDue(ir, r, ri, 0, e) == 0
  {
    hide Occurs;
    NothingOccurs([], e);
  }

  lemma {:induction false} PermissionsCounted(ir: ModelIR, r: ResourceType, ri: nat, n: nat, e: ValidationError)
    requires n <= |r.permissions|
    ensures Occurs(PermissionErrors(r, ir.resources, ri, n), e) == PermissionsDue(ir, r, ri, n, e)
  {
    hide *;
    if n == 0 {
      NoPermissionsReported(ir, r, ri, e);
    } else {
      PermissionsCounted(ir, r, ri, n - 1, e);
      PermissionStep(ir, r, ri, n - 1, e);
      PermissionsDueStep(ir, r, ri, n, e);
    }
  }

  // Resources.

  /** The resource that an element belongs to, or -1. */
  ghost function ResourceIndex(place: Place): (i: int)
    ensures -1 <= i
  {
    match place
    case ParentAt(r, _) => r
    case RoleAt(r, _) => r
    case PermissionAt(r, _) => r
    case _ => -1
  }

  /** What is due at a parent, a role or a permission of the resource. */
  ghost function OneResourceDue(ir: ModelIR, ri: nat, e: ValidationError): nat
    requires ri < |ir.resources|
  {
    var r := ir.resources[ri];
    ParentsDue(ir, r, ri, |r.parents|, e) + RolesDue(ir, r, ri, |r.roles|, e)
    + PermissionsDue(ir, r, ri, |r.permissions|, e)
  }

  ghost function ResourcesReported(ir: ModelIR, known: Known, n: nat, e: ValidationError): nat
    requires n <= |ir.resources|
  {
    Occurs(ResourceErrors(ir, n), e) + Occurs(ResourceConditionErrors(ir, known.conditions, n), e)
  }

  lemma ResourceStep(ir: ModelIR, known: Known, ri: nat, e: ValidationError)
    requires ri < |ir.resources| && known == KnownOf(ir)
    ensures ResourcesReported(ir, known, ri + 1, e) == ResourcesReported(ir, known, ri, e) + OneResourceDue(ir, ri, e)
  {
    var r := ir.resources[ri];
    var (a, b, c) := (ParentErrors(r.parents, known.resources, ri, |r.parents|),
                      RoleErrors(r, known.groups, ri, |r.roles|),
                      PermissionErrors(r, ir.resources, ri, |r.permissions|));
    var (before, conditions) := (ResourceErrors(ir, ri), ResourceConditionErrors(ir, known.conditions, ri));
    var d := RoleConditionErrors(r.roles, known.conditions, ri, |r.roles|);
    assert ResourcesReported(ir, known, ri, e) == Occurs(before, e) + Occurs(conditions, e);
    assert ResourcesReported(ir, known, ri + 1, e) == Occurs(before + (a + b + c), e) + Occurs(conditions + d, e) by {
      assert ResourceErrors(ir, ri + 1) == before + OneResourceErrors(ir, ri);
      assert OneResourceErrors(ir, ri) == a + b + c;
      assert ResourceConditionErrors(ir, known.conditions, ri + 1) == conditions + d;
      hide Occurs;
    }
    assert RolesReported(known, r, ri, |r.roles|, e) == Occurs(b, e) + Occurs(d, e);
    assert OneResourceDue(ir, ri, e) == ParentsDue(ir, r, ri, |r.parents|, e) + RolesDue(ir, r, ri, |r.roles|, e)
      + PermissionsDue(ir, r, ri, |r.permissions|, e);
    hide *;
    KnownNames(ir);
    ParentsCounted(ir, known, r, ri, |r.parents|, e);
    RolesCounted(ir, known, r, ri, |r.roles|, e);
    PermissionsCounted(ir, r, ri, |r.permissions|, e);
    OccursConcat(before, a + b + c, e);
    OccursConcat(a + b, c, e);
    OccursConcat(a, b, e);
    OccursConcat(conditions, d, e);
  }

  ghost function ResourcesDue(ir: ModelIR, n: nat, e: ValidationError): nat
    requires n <= |ir.resources|
  {
    var ri := ResourceIndex(e.place);
    if 0 <= ri < n then OneResourceDue(ir, ri, e) else 0
  }

  lemma ResourcesDueStep(ir: ModelIR, n: nat, e: ValidationError)
    requires 0 < n <= |ir.resources|
    ensures ResourcesDue(ir, n, e) == ResourcesDue(ir, n - 1, e) + OneResourceDue(ir, n - 1, e)
  {
    if ResourceIndex(e.place) != n - 1 {
      NotOfResource(ir, n - 1, e);
    }
    hide OneResourceDue, ResourceIndex;
  }

  lemma NotOfResource(ir: ModelIR, ri: nat, e: ValidationError)
    requires ri < |ir.resources| && ResourceIndex(e.place) != ri
    ensures OneResourceDue(ir, ri, e) == 0
  {
    hide ParentTimes, RoleTimes, SubjectTimes, PermissionTimes;
  }

  lemma NoResourcesReported(ir: ModelIR, known: Known, e: ValidationError)
    ensures ResourcesReported(ir, known, 0, e) == ResourcesDue(ir, 0, e) == 0
  {
    hide Occurs;
    NothingOccurs([], e);
  }

  lemma {:induction false} ResourcesCounted(ir: ModelIR, known: Known, n: nat, e: ValidationError)
    requires n <= |ir.resources| && known == KnownOf(ir)
    ensures ResourcesReported(ir, known, n, e) == ResourcesDue(ir, n, e)
  {
    hide *;
    if n == 0 {
      NoResourcesReported(ir, known, e);
    } else {
      ResourcesCounted(ir, known, n - 1, e);
      ResourceStep(ir, known, n - 1, e);
      ResourcesDueStep(ir, n, e);
    }
  }

  // Conditions.

  lemma {:induction false} DeclaredTypeIs(params: seq<Param>, name: string)
    ensures DeclaredType(params, name) == None <==> Undeclared(params, name)
    ensures forall t :: Declares(params, name, t) <==> DeclaredType(params, name) == Some(t)
  {
    if params != [] {
      var last := |params| - 1;
      var init := params[..last];
      assert params == init + [params[last]];
      assert forall p :: p in params <==> p in init || p == params[last];
      DeclaredTypeIs(init, name);
      forall t ensures Declares(params, name, t) <==> DeclaredType(params, name) == Some(t) {
        if params[last].name == name {
          assert Declares(params, name, t) ==> t == params[last].typ;
        } else if Declares(init, name, t) {
          var i :| 0 <= i < last && init[i] == Param(name, t) && forall j :: i < j < last ==> init[j].name != name;
          assert params[i] == Param(name, t) && forall j :: i < j < last ==> params[j] == init[j];
        }
      }
    }
  }

  ghost function Collected(s: seq<ConditionError>, error: ConditionError): nat {
    multiset(s)[error]
  }

  lemma CollectedConcat(a: seq<ConditionError>, b: seq<ConditionError>, error: ConditionError)
    ensures Collected(a + b, error) == Collected(a, error) + Collected(b, error)
  {
  }

  lemma CollectedWhen(bad: bool, e: ConditionError, error: ConditionError)
    ensures Collected(When(bad, e), error) == Once(bad && error == e)
    ensures Collected([], error) == 0
  {
  }

  lemma WhenAdds(before: seq<ConditionError>, bad: bool, e: ConditionError, error: ConditionError)
    ensures Collected(before + When(bad, e), error) == Collected(before, error) + if error == e then Once(bad) else 0
  {
    CollectedConcat(before, When(bad, e), error);
    CollectedWhen(bad, e, error);
    hide Collected, When;
  }

  lemma ExpectCounted(params: seq<Param>, name: string, wanted: ParamType, error: ConditionError)
    ensures Collected(ExpectParam(params, name, {wanted}), error) ==
            match error
            case UnknownParam => Once(Undeclared(params, name))
            case TypeMismatch => Once(DeclaredOtherwise(params, name, wanted))
            case _ => 0
  {
    DeclaredTypeIs(params, name);
    hide Declares, Undeclared, DeclaredType;
  }

  lemma MisfitsAre(params: seq<Param>, name: string, value: Value)
    ensures Misfits(params, name, value) <==>
            var t := DeclaredType(params, name); t.Some? && !ValueFits(value, t.value)
  {
    DeclaredTypeIs(params, name);
    hide Declares, Undeclared, DeclaredType, ValueFits;
  }

  lemma ValueLeafCounted(params: seq<Param>, leaf: Leaf, error: ConditionError)
    requires leaf.ValueLeaf?
    ensures Collected(LeafErrors(params, leaf), error) == LeafTimes(params, leaf, error)
  {
    hide *;
    var (param, order) := (leaf.param, leaf.op != Eq && leaf.op != Neq);
    ValueLeafUnfolds(params, leaf, error);
    DeclaredTypeIs(params, param);
    MisfitsAre(params, param, leaf.value);
    match DeclaredType(params, param) {
      case None =>
        Unfound(params, leaf);
        CollectedOne(UnknownParam, error);
      case Some(t) =>
        ValueErrors(params, leaf, t);
        var misfit := !ValueFits(leaf.value, t);
        WhenAdds(When(misfit, TypeMismatch), t == Bool && order, TypeMismatch, error);
        CollectedWhen(misfit, TypeMismatch, error);
    }
  }

  lemma ValueLeafUnfolds(params: seq<Param>, leaf: Leaf, error: ConditionError)
    requires leaf.ValueLeaf?
    ensures LeafTimes(params, leaf, error) ==
            match error
            case UnknownParam => Once(Undeclared(params, leaf.param))
            case TypeMismatch =>
              Once(Misfits(params, leaf.param, leaf.value))
              + Once(Declares(params, leaf.param, Bool) && leaf.op != Eq && leaf.op != Neq)
            case _ => 0
    ensures Once(true) == 1 && Once(false) == 0
  {
    hide Undeclared, Misfits, Declares;
  }

  lemma Unfound(params: seq<Param>, leaf: Leaf)
    requires leaf.ValueLeaf? && DeclaredType(params, leaf.param) == None
    ensures LeafErrors(params, leaf) == [UnknownParam]
  {
    hide DeclaredType;
  }

  lemma CollectedOne(e: ConditionError, error: ConditionError)
    ensures Collected([e], error) == Once(error == e)
  {
  }

  lemma ValueErrors(params: seq<Param>, leaf: Leaf, t: ParamType)
    requires leaf.ValueLeaf? && DeclaredType(params, leaf.param) == Some(t)
    ensures LeafErrors(params, leaf) ==
            When(!ValueFits(leaf.value, t), TypeMismatch)
            + When(t == Bool && leaf.op != Eq && leaf.op != Neq, TypeMismatch)
  {
    hide DeclaredType, IsSafeInteger;
  }

  lemma LeafCounted(params: seq<Param>, leaf: Leaf, error: ConditionError)
    ensures Collected(LeafErrors(params, leaf), error) == LeafTimes(params, leaf, error)
  {
    hide Declares, Undeclared, DeclaredOtherwise, Misfits, ExpectParam, IsRfc3339, IsCidr;
    CollectedWhen(false, BadName, error);
    match leaf {
      case TimeLeaf(param, _, rhs) =>
        ExpectCounted(params, param, Timestamp, error);
        if rhs.TimeParam? {
          ExpectCounted(params, rhs.param, Timestamp, error);
        }
      case IpLeaf(param, _) =>
        ExpectCounted(params, param, IpAddress, error);
      case ValueLeaf(_, _, _) =>
        ValueLeafCounted(params, leaf, error);
    }
  }

  lemma {:induction false} NodeCounted(params: seq<Param>, node: Node, error: ConditionError)
    ensures Collected(NodeErrors(params, node), error) == NodeTimes(params, node, error)
    decreases node, 1
  {
    hide LeafErrors, LeafTimes;
    match node
    case LeafNode(leaf) => LeafCounted(params, leaf, error);
    case GroupNode(_, children) => NodesCounted(params, children, error);
  }

  lemma {:induction false} NodesCounted(params: seq<Param>, nodes: seq<Node>, error: ConditionError)
    ensures Collected(ChildErrors(params, nodes), error) == NodesTimes(params, nodes, error)
    decreases nodes, 0
  {
    hide NodeErrors, NodeTimes;
    if nodes != [] {
      NodeCounted(params, nodes[0], error);
      NodesCounted(params, nodes[1..], error);
    }
  }

  lemma {:induction false} ParamsCounted(params: seq<Param>, n: nat, error: ConditionError)
    requires n <= |params|
    ensures Collected(ParamErrors(params[..n]), error) == ParamTimes(params, n, error)
  {
    hide *;
    if n == 0 {
      NoParams(params, error);
    } else {
      var bad := !IsConditionName(params[n - 1].name);
      var again := DeclaredBefore(params, n - 1);
      ParamsStep(params, n);
      ParamDueStep(params, n, error);
      ParamsCounted(params, n - 1, error);
      var before := ParamErrors(params[..n - 1]);
      WhenAdds(before + When(bad, BadName), again, DupParam, error);
      WhenAdds(before, bad, BadName, error);
    }
  }

  lemma NoParams(params: seq<Param>, error: ConditionError)
    ensures Collected(ParamErrors(params[..0]), error) == ParamTimes(params, 0, error) == 0
  {
    CollectedWhen(false, BadName, error);
    hide Collected, IsConditionName, DeclaredBefore;
  }

  lemma ParamsStep(params: seq<Param>, n: nat)
    requires 0 < n <= |params|
    ensures ParamErrors(params[..n]) ==
            ParamErrors(params[..n - 1]) + When(!IsConditionName(params[n - 1].name), BadName)
            + When(DeclaredBefore(params, n - 1), DupParam)
  {
    hide IsConditionName, When;
    var init := params[..n];
    assert init[..n - 1] == params[..n - 1];
    assert forall i :: 0 <= i < n ==> init[i] == params[i];
  }

  lemma ParamDueStep(params: seq<Param>, n: nat, error: ConditionError)
    requires 0 < n <= |params|
    ensures ParamTimes(params, n, error) == ParamTimes(params, n - 1, error) +
            match error
            case BadName => Once(!IsConditionName(params[n - 1].name))
            case DupParam => Once(DeclaredBefore(params, n - 1))
            case _ => 0
  {
    hide IsConditionName, DeclaredBefore;
  }

  lemma DefinitionListed(def: ConditionDef)
    ensures ConditionErrors(def) ==
            When(!IsConditionName(def.name), BadName) + ParamErrors(def.params[..|def.params|])
            + NodeErrors(def.params, def.tree)
  {
    assert def.params[..|def.params|] == def.params;
    hide IsConditionName, ParamErrors, NodeErrors, When;
  }

  lemma DefinitionUnfolds(def: ConditionDef, error: ConditionError)
    ensures multiset(ConditionErrors(def))[error] == Collected(ConditionErrors(def), error)
    ensures DefinitionTimes(def, error) ==
            Once(error == BadName && !IsConditionName(def.name)) + ParamTimes(def.params, |def.params|, error)
            + NodeTimes(def.params, def.tree, error)
  {
    hide ConditionErrors, IsConditionName, ParamTimes, NodeTimes;
  }

  /** On every definition, every error is collected as often as the definition has it, wherever in it. */
  lemma DefinitionExactly(def: ConditionDef, error: ConditionError)
    ensures multiset(ConditionErrors(def))[error] == DefinitionTimes(def, error)
  {
    hide *;
    var (bad, n) := (!IsConditionName(def.name), |def.params|);
    var (params, nodes) := (ParamErrors(def.params[..n]), NodeErrors(def.params, def.tree));
    DefinitionUnfolds(def, error);
    DefinitionListed(def);
    CollectedConcat(When(bad, BadName) + params, nodes, error);
    CollectedConcat(When(bad, BadName), params, error);
    CollectedWhen(bad, BadName, error);
    ParamsCounted(def.params, n, error);
    NodeCounted(def.params, def.tree, error);
  }

  lemma EarlierCondition(cs: seq<ConditionDef>, k: nat)
    requires k < |cs|
    ensures cs[k].name in ConditionNames(cs)[..k] <==> exists j :: 0 <= j < k && cs[j].name == cs[k].name
  {
    var (names, name) := (ConditionNames(cs), cs[k].name);
    assert names[k] == name;
    if j :| 0 <= j < k && cs[j].name == name {
      assert names[..k][j] == name;
    }
  }

  lemma {:induction false} LiftedOccurs(errors: seq<ConditionError>, place: Place, e: ValidationError)
    ensures Occurs(Lifted(errors, place), e) ==
            if e.place == place && e.code.InCondition? then multiset(errors)[e.code.error] else 0
  {
    if errors == [] {
    } else {
      var rest := errors[1..];
      assert errors == [errors[0]] + rest;
      assert Lifted(errors, place) == [ValidationError(InCondition(errors[0]), place)] + Lifted(rest, place);
      LiftedOccurs(rest, place, e);
    }
  }

  lemma ConditionUnfolds(cs: seq<ConditionDef>, k: nat)
    requires k < |cs|
    ensures ConditionDefErrors(cs, k + 1) ==
            ConditionDefErrors(cs, k) + Flag(cs[k].name in ConditionNames(cs)[..k], DupCondition, ConditionAt(k))
            + Lifted(ConditionErrors(cs[k]), ConditionAt(k))
  {
    hide ConditionErrors, ConditionNames, Lifted, Flag;
  }

  lemma ConditionTimesAre(cs: seq<ConditionDef>, k: nat, code: ErrorCode)
    requires k < |cs|
    ensures ConditionTimes(cs, k, code) ==
            match code
            case DupCondition => Once(cs[k].name in ConditionNames(cs)[..k])
            case InCondition(error) => multiset(ConditionErrors(cs[k]))[error]
            case _ => 0
  {
    EarlierCondition(cs, k);
    hide ConditionErrors, ConditionNames, DefinitionTimes;
    if code.InCondition? {
      DefinitionExactly(cs[k], code.error);
    }
  }

  lemma ConditionStep(cs: seq<ConditionDef>, k: nat, e: ValidationError)
    requires k < |cs|
    ensures Occurs(ConditionDefErrors(cs, k + 1), e) == Occurs(ConditionDefErrors(cs, k), e)
            + if e.place == ConditionAt(k) then ConditionTimes(cs, k, e.code) else 0
  {
    hide *;
    var (place, errors, taken) := (ConditionAt(k), ConditionErrors(cs[k]), cs[k].name in ConditionNames(cs)[..k]);
    var before := ConditionDefErrors(cs, k);
    ConditionUnfolds(cs, k);
    ConditionTimesAre(cs, k, e.code);
    LiftedOccurs(errors, place, e);
    OccursConcat(before + Flag(taken, DupCondition, place), Lifted(errors, place), e);
    FlagAdds(before, taken, DupCondition, place, e);
  }

  ghost function ConditionsDue(cs: seq<ConditionDef>, n: nat, e: ValidationError): nat
    requires n <= |cs|
  {
    var k := Index(e.place, ConditionAt(0), 0);
    if 0 <= k < n then ConditionTimes(cs, k, e.code) else 0
  }

  lemma ConditionsDueStep(cs: seq<ConditionDef>, n: nat, e: ValidationError)
    requires 0 < n <= |cs|
    ensures ConditionsDue(cs, n, e) == ConditionsDue(cs, n - 1, e) +
            if e.place == ConditionAt(n - 1) then ConditionTimes(cs, n - 1, e.code) else 0
  {
    IndexAt(e.place, 0, n - 1);
    hide Index, ConditionTimes;
  }

  lemma NoConditionsReported(cs: seq<ConditionDef>, e: ValidationError)
    ensures Occurs(ConditionDefErrors(cs, 0), e) == ConditionsDue(cs, 0, e) == 0
  {
    hide Occurs;
    NothingOccurs([], e);
  }

  lemma {:induction false} ConditionsCounted(cs: seq<ConditionDef>, n: nat, e: ValidationError)
    requires n <= |cs|
    ensures Occurs(ConditionDefErrors(cs, n), e) == ConditionsDue(cs, n, e)
  {
    hide *;
    if n == 0 {
      NoConditionsReported(cs, e);
    } else {
      ConditionsCounted(cs, n - 1, e);
      ConditionStep(cs, n - 1, e);
      ConditionsDueStep(cs, n, e);
    }
  }

  // The whole list.

  lemma TimesAddUp(ir: ModelIR, e: ValidationError)
    ensures Times(ir, e.code, e.place) ==
            NamesDue(ir, |TypeNames(ir)|, e) + GroupsDue(ir, |ir.groups|, e) + ResourcesDue(ir, |ir.resources|, e)
            + ConditionsDue(ConditionsOf(ir), |ConditionsOf(ir)|, e)
  {
    hide TypeTimes, SubjectTimes, ParentTimes, RoleTimes, PermissionTimes, ConditionTimes;
  }

  /** What the six passes of the validator report. */
  lemma PassesAddUp(ir: ModelIR, known: Known, e: ValidationError)
    requires known == KnownOf(ir)
    ensures Occurs(Errors(ir), e) ==
            Occurs(TypeErrors(ir, |TypeNames(ir)|), e) + GroupsReported(ir, known, |ir.groups|, e)
            + ResourcesReported(ir, known, |ir.resources|, e)
            + Occurs(ConditionDefErrors(ConditionsOf(ir), |ConditionsOf(ir)|), e)
  {
    var (types, groups, resources) := (TypeErrors(ir, |TypeNames(ir)|), GroupErrors(ir, known.groups, |ir.groups|),
                                       ResourceErrors(ir, |ir.resources|));
    var conditions := ConditionDefErrors(ConditionsOf(ir), |ConditionsOf(ir)|);
    var (groupRefs, roleRefs) := (GroupConditionErrors(ir, known.conditions, |ir.groups|),
                                  ResourceConditionErrors(ir, known.conditions, |ir.resources|));
    PassesListed(ir, known);
    GroupPasses(ir, known, e);
    ResourcePasses(ir, known, e);
    hide *;
    OccursConcat(types + groups + resources + conditions + groupRefs, roleRefs, e);
    OccursConcat(types + groups + resources + conditions, groupRefs, e);
    OccursConcat(types + groups + resources, conditions, e);
    OccursConcat(types + groups, resources, e);
    OccursConcat(types, groups, e);
  }

  lemma PassesListed(ir: ModelIR, known: Known)
    requires known == KnownOf(ir)
    ensures Errors(ir) ==
            TypeErrors(ir, |TypeNames(ir)|) + GroupErrors(ir, known.groups, |ir.groups|)
            + ResourceErrors(ir, |ir.resources|) + ConditionDefErrors(ConditionsOf(ir), |ConditionsOf(ir)|)
            + GroupConditionErrors(ir, known.conditions, |ir.groups|)
            + ResourceConditionErrors(ir, known.conditions, |ir.resources|)
  {
    hide TypeErrors, GroupErrors, ResourceErrors, ConditionDefErrors, GroupConditionErrors, ResourceConditionErrors,
      TypeNames, GroupNames, ResourceNames, ConditionNames;
  }

  lemma GroupPasses(ir: ModelIR, known: Known, e: ValidationError)
    ensures GroupsReported(ir, known, |ir.groups|, e) ==
            Occurs(GroupErrors(ir, known.groups, |ir.groups|), e)
            + Occurs(GroupConditionErrors(ir, known.conditions, |ir.groups|), e)
  {
    hide GroupErrors, GroupConditionErrors, Occurs;
  }

  lemma ResourcePasses(ir: ModelIR, known: Known, e: ValidationError)
    ensures ResourcesReported(ir, known, |ir.resources|, e) ==
            Occurs(ResourceErrors(ir, |ir.resources|), e)
            + Occurs(ResourceConditionErrors(ir, known.conditions, |ir.resources|), e)
  {
    hide ResourceErrors, ResourceConditionErrors, Occurs;
  }

  /** On every model, every violation is reported at its place, as often as it is there, and nothing else is. */
  lemma ViolationsExactly(ir: ModelIR, code: ErrorCode, place: Place)
    ensures multiset(Errors(ir))[ValidationError(code, place)] == Times(ir, code, place)
  {
    var (e, known) := (ValidationError(code, place), KnownOf(ir));
    assert multiset(Errors(ir))[e] == Occurs(Errors(ir), e);
    hide *;
    KnownNames(ir);
    PassesAddUp(ir, known, e);
    TypesCounted(ir, |TypeNames(ir)|, e);
    GroupsCounted(ir, known, |ir.groups|, e);
    ResourcesCounted(ir, known, |ir.resources|, e);
    ConditionsCounted(ConditionsOf(ir), |ConditionsOf(ir)|, e);
    TimesAddUp(ir, e);
  }
}
