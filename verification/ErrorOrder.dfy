/** In which order the validator lists what it finds. */
module ErrorOrder {
  import opened Prelude
  import opened Condition
  import opened ModelIr
  import opened Validator

  /** The passes of the validator: type names, the members of groups, resources, conditions, and then the conditions
      that members and assignments refer to. */
  ghost function Pass(e: ValidationError): nat {
    match e.place
    case GroupAt(_) =>
      if e.code == ConditionUnknown then 4 else if e.code in {EmptySubjects, UnknownGroup} then 1 else 0
    case ResourceAt(_) => 0
    case ConditionAt(_) => 3
    case _ => if e.code == ConditionUnknown then 5 else 2
  }

  /** The group, the resource or the condition, as they are listed. */
  ghost function Major(ir: ModelIR, e: ValidationError): nat {
    match e.place
    case GroupAt(g) => g
    case ResourceAt(r) => |ir.groups| + r
    case ParentAt(r, _) => r
    case RoleAt(r, _) => r
    case PermissionAt(r, _) => r
    case ConditionAt(c) => c
  }

  /** Of a resource, its parents, then its roles, then its permissions. */
  ghost function Kind(e: ValidationError): nat {
    match e.place
    case RoleAt(_, _) => 1
    case PermissionAt(_, _) => 2
    case _ => 0
  }

  ghost function Minor(e: ValidationError): nat {
    match e.place
    case ParentAt(_, p) => p
    case RoleAt(_, k) => k
    case PermissionAt(_, k) => k
    case _ => 0
  }

  /** At one place: its name, whether the name is taken, whether its list is empty, and then what the list names. */
  ghost function Step(e: ValidationError): nat {
    match e.code
    case ReservedUser => 0
    case BadIdentifier => 0
    case DupType => 1
    case DupRelation => 1
    case DupCondition => 1
    case EmptySubjects => 2
    case EmptyGrant => 2
    case UnknownGroup => 3
    case UnknownRole => 3
    case InCondition(_) => 3
    case _ => 4
  }

  ghost predicate NotAfter(ir: ModelIR, a: ValidationError, b: ValidationError) {
    if Pass(a) != Pass(b) then Pass(a) < Pass(b)
    else if Major(ir, a) != Major(ir, b) then Major(ir, a) < Major(ir, b)
    else if Kind(a) != Kind(b) then Kind(a) < Kind(b)
    else if Minor(a) != Minor(b) then Minor(a) < Minor(b)
    else Step(a) <= Step(b)
  }

  ghost predicate InOrder(ir: ModelIR, s: seq<ValidationError>) {
    forall i, j :: 0 <= i < j < |s| ==> NotAfter(ir, s[i], s[j])
  }

  ghost predicate AllBefore(ir: ModelIR, a: seq<ValidationError>, b: seq<ValidationError>) {
    forall x, y :: x in a && y in b ==> NotAfter(ir, x, y)
  }

  lemma OrderedConcat(ir: ModelIR, a: seq<ValidationError>, b: seq<ValidationError>)
    requires InOrder(ir, a) && InOrder(ir, b) && AllBefore(ir, a, b)
    ensures InOrder(ir, a + b)
  {
    hide NotAfter;
    forall i, j | 0 <= i < j < |a + b| ensures NotAfter(ir, (a + b)[i], (a + b)[j]) {
      if i < |a| && j >= |a| {
        assert a[i] in a && b[j - |a|] in b;
      }
    }
  }

  lemma FlagInOrder(ir: ModelIR, bad: bool, code: ErrorCode, place: Place)
    ensures InOrder(ir, Flag(bad, code, place))
    ensures forall e :: e in Flag(bad, code, place) ==> e == ValidationError(code, place)
  {
  }

  // ---------------------------------------------------------------------------
  // One place.

  /** All at the place, with steps in the range. */
  ghost predicate Here(s: seq<ValidationError>, place: Place, low: nat, high: nat) {
    forall e :: e in s ==> e.place == place && low <= Step(e) <= high
  }

  /** Two lists at one place, of one pass, one after the other. */
  lemma StepsInOrder(ir: ModelIR, a: seq<ValidationError>, b: seq<ValidationError>, place: Place, low: nat, mid: nat,
      high: nat)
    requires InOrder(ir, a) && InOrder(ir, b) && low <= mid <= high
    requires Here(a, place, low, mid) && Here(b, place, mid, high)
    requires forall x, y :: x in a && y in b ==> Pass(x) == Pass(y)
    ensures InOrder(ir, a + b) && Here(a + b, place, low, high)
  {
    forall x, y | x in a && y in b ensures NotAfter(ir, x, y) {
      hide Step, Pass;
    }
    OrderedConcat(ir, a, b);
    hide InOrder, NotAfter, Pass, Step;
  }

  /** All of one pass. */
  ghost predicate OfPass(s: seq<ValidationError>, pass: nat) {
    forall e :: e in s ==> Pass(e) == pass
  }

  lemma MoreAt(ir: ModelIR, a: seq<ValidationError>, bad: bool, code: ErrorCode, place: Place, low: nat, pass: nat)
    requires InOrder(ir, a) && OfPass(a, pass) && Pass(ValidationError(code, place)) == pass
    requires Here(a, place, low, Step(ValidationError(code, place))) && low <= Step(ValidationError(code, place))
    ensures var (s, step) := (a + Flag(bad, code, place), Step(ValidationError(code, place)));
            InOrder(ir, s) && OfPass(s, pass) && Here(s, place, low, step)
  {
    var (b, step) := (Flag(bad, code, place), Step(ValidationError(code, place)));
    FlagInOrder(ir, bad, code, place);
    hide Flag, InOrder, Pass, Step;
    StepsInOrder(ir, a, b, place, low, step, step);
  }

  /** The first n elements of a list whose elements are at places of growing minor or major position. */
  ghost predicate Prefix(ir: ModelIR, s: seq<ValidationError>, pass: nat, n: nat) {
    InOrder(ir, s) && OfPass(s, pass) && forall e :: e in s ==> Major(ir, e) < n
  }

  /** What the k-th element contributes. */
  ghost predicate Level(ir: ModelIR, s: seq<ValidationError>, pass: nat, k: nat) {
    InOrder(ir, s) && OfPass(s, pass) && forall e :: e in s ==> Major(ir, e) == k
  }

  lemma LevelOf(ir: ModelIR, s: seq<ValidationError>, pass: nat, place: Place, low: nat, high: nat, k: nat)
    requires InOrder(ir, s) && OfPass(s, pass) && Here(s, place, low, high)
    requires Major(ir, ValidationError(DupType, place)) == k
    ensures Level(ir, s, pass, k)
  {
    hide InOrder, OfPass, Step;
  }

  lemma NextElement(ir: ModelIR, a: seq<ValidationError>, b: seq<ValidationError>, pass: nat, n: nat)
    requires Prefix(ir, a, pass, n) && Level(ir, b, pass, n)
    ensures Prefix(ir, a + b, pass, n + 1)
  {
    hide Pass, Kind, Minor, Step;
    assert AllBefore(ir, a, b);
    hide InOrder, NotAfter;
    OrderedConcat(ir, a, b);
  }

  /** The same within a resource. */
  ghost predicate Inner(ir: ModelIR, s: seq<ValidationError>, pass: nat, ri: nat, kind: nat, n: nat) {
    && InOrder(ir, s) && OfPass(s, pass)
    && forall e :: e in s ==> Major(ir, e) == ri && Kind(e) == kind && Minor(e) < n
  }

  lemma NextInner(ir: ModelIR, a: seq<ValidationError>, b: seq<ValidationError>, pass: nat, ri: nat, kind: nat, n: nat)
    requires Inner(ir, a, pass, ri, kind, n) && InOrder(ir, b) && OfPass(b, pass)
    requires forall e :: e in b ==> Major(ir, e) == ri && Kind(e) == kind && Minor(e) == n
    ensures Inner(ir, a + b, pass, ri, kind, n + 1)
  {
    hide Pass, Step;
    assert AllBefore(ir, a, b);
    hide InOrder, NotAfter, Major, Kind, Minor;
    OrderedConcat(ir, a, b);
  }

  lemma NothingInOrder(ir: ModelIR, pass: nat, ri: nat, kind: nat)
    ensures Prefix(ir, [], pass, 0) && Inner(ir, [], pass, ri, kind, 0) && InOrder(ir, []) && OfPass([], pass)
  {
  }

  // ---------------------------------------------------------------------------
  // The lists of the validator.

  lemma NoneOfModel(ir: ModelIR, names: set<string>)
    ensures TypeErrors(ir, 0) == [] && GroupErrors(ir, names, 0) == [] && ResourceErrors(ir, 0) == []
    ensures GroupConditionErrors(ir, names, 0) == [] && ResourceConditionErrors(ir, names, 0) == []
  {
  }

  lemma NoneOfConditions(cs: seq<ConditionDef>)
    ensures ConditionDefErrors(cs, 0) == []
  {
  }

  lemma NoneOfParents(ps: seq<ParentRef>, resources: set<string>, ri: nat)
    ensures ParentErrors(ps, resources, ri, 0) == []
  {
  }

  lemma NoneOfRoles(roles: seq<Role>, names: set<string>, ri: nat)
    ensures RoleConditionErrors(roles, names, ri, 0) == []
  {
  }

  lemma NoneOfResource(r: ResourceType, groups: set<string>, rs: seq<ResourceType>, ri: nat)
    ensures RoleErrors(r, groups, ri, 0) == [] && PermissionErrors(r, rs, ri, 0) == []
  {
  }

  /** Equal elements. */
  lemma SameInOrder(ir: ModelIR, s: seq<ValidationError>, e: ValidationError)
    requires forall x :: x in s ==> x == e
    ensures InOrder(ir, s) && OfPass(s, Pass(e)) && Here(s, e.place, Step(e), Step(e))
  {
    hide Pass, Major, Kind, Minor, Step;
    assert forall i :: 0 <= i < |s| ==> s[i] in s;
  }

  lemma {:induction false} SubjectErrorsSame(refs: seq<SubjectRef>, groups: set<string>, place: Place, n: nat)
    requires n <= |refs|
    ensures forall x :: x in SubjectErrors(refs, groups, place, n) ==> x == ValidationError(UnknownGroup, place)
  {
    if n > 0 {
      SubjectErrorsSame(refs, groups, place, n - 1);
    }
  }

  lemma {:induction false} RefErrorsSame(refs: seq<SubjectRef>, names: set<string>, place: Place, n: nat)
    requires n <= |refs|
    ensures forall x :: x in RefConditionErrors(refs, names, place, n) ==> x == ValidationError(ConditionUnknown, place)
  {
    if n > 0 {
      RefErrorsSame(refs, names, place, n - 1);
    }
  }

  lemma {:induction false} GrantErrorsSame(grants: seq<string>, roles: set<string>, place: Place, n: nat)
    requires n <= |grants|
    ensures forall x :: x in GrantErrors(grants, roles, place, n) ==> x == ValidationError(UnknownRole, place)
  {
    if n > 0 {
      GrantErrorsSame(grants, roles, place, n - 1);
    }
  }

  /** An empty list, and then what the list names, at one place. */
  lemma SubjectListInOrder(ir: ModelIR, refs: seq<SubjectRef>, groups: set<string>, place: Place, pass: nat)
    requires (place.GroupAt? && pass == 1) || (place.RoleAt? && pass == 2)
    ensures var s := SubjectListErrors(refs, groups, place); InOrder(ir, s) && OfPass(s, pass) && Here(s, place, 2, 3)
  {
    var (a, b) := (Flag(refs == [], EmptySubjects, place), SubjectErrors(refs, groups, place, |refs|));
    FlagInOrder(ir, refs == [], EmptySubjects, place);
    SubjectErrorsSame(refs, groups, place, |refs|);
    hide Flag, SubjectErrors, InOrder;
    SameInOrder(ir, b, ValidationError(UnknownGroup, place));
    StepsInOrder(ir, a, b, place, 2, 3, 3);
  }

  lemma TypeElementInOrder(ir: ModelIR, name: string, taken: bool, place: Place)
    requires place.GroupAt? || place.ResourceAt?
    ensures var s := Flag(name == "user", ReservedUser, place)
              + Flag(name != "user" && !IsIdentifier(name), BadIdentifier, place) + Flag(taken, DupType, place);
            InOrder(ir, s) && OfPass(s, 0) && Here(s, place, 0, 1)
  {
    var (reserved, bad) := (name == "user", name != "user" && !IsIdentifier(name));
    var first := Flag(reserved, ReservedUser, place);
    FlagInOrder(ir, reserved, ReservedUser, place);
    hide Flag, InOrder, IsIdentifier;
    MoreAt(ir, first, bad, BadIdentifier, place, 0, 0);
    MoreAt(ir, first + Flag(bad, BadIdentifier, place), taken, DupType, place, 0, 0);
  }

  ghost function TypeElement(ir: ModelIR, i: nat): seq<ValidationError>
    requires i < |TypeNames(ir)|
  {
    var (name, place) := (TypeNames(ir)[i], TypePlace(ir, i));
    Flag(name == "user", ReservedUser, place) + Flag(name != "user" && !IsIdentifier(name), BadIdentifier, place)
    + Flag(name in TypeNames(ir)[..i], DupType, place)
  }

  lemma TypeUnfolds(ir: ModelIR, n: nat)
    requires 0 < n <= |TypeNames(ir)|
    ensures TypeErrors(ir, n) == TypeErrors(ir, n - 1) + TypeElement(ir, n - 1)
  {
    hide IsIdentifier, TypeNames, TypePlace;
  }

  lemma TypeLevel(ir: ModelIR, i: nat)
    requires i < |TypeNames(ir)|
    ensures Level(ir, TypeElement(ir, i), 0, i)
  {
    var (name, place) := (TypeNames(ir)[i], TypePlace(ir, i));
    var taken := name in TypeNames(ir)[..i];
    assert (place.GroupAt? || place.ResourceAt?) && Major(ir, ValidationError(DupType, place)) == i;
    hide InOrder, OfPass, Here, IsIdentifier, TypeNames, TypePlace, Flag, Level, Major;
    TypeElementInOrder(ir, name, taken, place);
    LevelOf(ir, TypeElement(ir, i), 0, place, 0, 1, i);
  }

  lemma {:induction false} TypesInOrder(ir: ModelIR, n: nat)
    requires n <= |TypeNames(ir)|
    ensures Prefix(ir, TypeErrors(ir, n), 0, n)
  {
    hide *;
    if n == 0 {
      NothingInOrder(ir, 0, 0, 0);
      NoneOfModel(ir, {});
    } else {
      TypesInOrder(ir, n - 1);
      TypeLevel(ir, n - 1);
      TypeUnfolds(ir, n);
      NextElement(ir, TypeErrors(ir, n - 1), TypeElement(ir, n - 1), 0, n - 1);
    }
  }

  lemma {:induction false} GroupsInOrder(ir: ModelIR, groups: set<string>, n: nat)
    requires n <= |ir.groups|
    ensures Prefix(ir, GroupErrors(ir, groups, n), 1, n)
  {
    if n == 0 {
      NothingInOrder(ir, 1, 0, 0);
    } else {
      var (before, refs, place) := (GroupErrors(ir, groups, n - 1), ir.groups[n - 1].memberTypes, GroupAt(n - 1));
      assert GroupErrors(ir, groups, n) == before + SubjectListErrors(refs, groups, place);
      assert Major(ir, ValidationError(DupType, place)) == n - 1;
      hide *;
      GroupsInOrder(ir, groups, n - 1);
      SubjectListInOrder(ir, refs, groups, place, 1);
      LevelOf(ir, SubjectListErrors(refs, groups, place), 1, place, 2, 3, n - 1);
      NextElement(ir, before, SubjectListErrors(refs, groups, place), 1, n - 1);
    }
  }

  lemma RefsInOrder(ir: ModelIR, refs: seq<SubjectRef>, names: set<string>, place: Place, pass: nat)
    requires (place.GroupAt? && pass == 4) || (place.RoleAt? && pass == 5)
    ensures var s := RefConditionErrors(refs, names, place, |refs|);
            InOrder(ir, s) && OfPass(s, pass) && Here(s, place, 4, 4)
  {
    RefErrorsSame(refs, names, place, |refs|);
    hide RefConditionErrors, InOrder;
    SameInOrder(ir, RefConditionErrors(refs, names, place, |refs|), ValidationError(ConditionUnknown, place));
  }

  lemma {:induction false} GroupRefsInOrder(ir: ModelIR, names: set<string>, n: nat)
    requires n <= |ir.groups|
    ensures Prefix(ir, GroupConditionErrors(ir, names, n), 4, n)
  {
    if n == 0 {
      NothingInOrder(ir, 4, 0, 0);
    } else {
      var (before, refs, place) :=
        (GroupConditionErrors(ir, names, n - 1), ir.groups[n - 1].memberTypes, GroupAt(n - 1));
      var more := RefConditionErrors(refs, names, place, |refs|);
      assert GroupConditionErrors(ir, names, n) == before + more;
      assert Major(ir, ValidationError(DupType, place)) == n - 1;
      hide *;
      GroupRefsInOrder(ir, names, n - 1);
      RefsInOrder(ir, refs, names, place, 4);
      LevelOf(ir, more, 4, place, 4, 4, n - 1);
      NextElement(ir, before, more, 4, n - 1);
    }
  }

  // Conditions.

  lemma {:induction false} LiftedHere(errors: seq<ConditionError>, place: Place)
    ensures forall e :: e in Lifted(errors, place) ==> e.place == place && e.code.InCondition?
  {
    if errors != [] {
      LiftedHere(errors[1..], place);
    }
  }

  lemma LiftedInOrder(ir: ModelIR, errors: seq<ConditionError>, c: nat)
    ensures var s := Lifted(errors, ConditionAt(c)); InOrder(ir, s) && OfPass(s, 3) && Here(s, ConditionAt(c), 3, 3)
  {
    LiftedHere(errors, ConditionAt(c));
    hide Lifted;
  }

  /** What a condition contributes. */
  ghost function ConditionElement(cs: seq<ConditionDef>, k: nat): seq<ValidationError>
    requires k < |cs|
  {
    Flag(cs[k].name in ConditionNames(cs)[..k], DupCondition, ConditionAt(k))
    + Lifted(ConditionErrors(cs[k]), ConditionAt(k))
  }

  lemma ConditionElementInOrder(ir: ModelIR, cs: seq<ConditionDef>, k: nat)
    requires k < |cs|
    ensures Level(ir, ConditionElement(cs, k), 3, k)
  {
    var (taken, place) := (cs[k].name in ConditionNames(cs)[..k], ConditionAt(k));
    var (a, b) := (Flag(taken, DupCondition, place), Lifted(ConditionErrors(cs[k]), place));
    FlagInOrder(ir, taken, DupCondition, place);
    LiftedInOrder(ir, ConditionErrors(cs[k]), k);
    hide ConditionErrors, ConditionNames, Lifted, Flag, InOrder;
    StepsInOrder(ir, a, b, place, 1, 3, 3);
    LevelOf(ir, a + b, 3, place, 1, 3, k);
  }

  lemma ConditionUnfolds(cs: seq<ConditionDef>, n: nat)
    requires 0 < n <= |cs|
    ensures ConditionDefErrors(cs, n) == ConditionDefErrors(cs, n - 1) + ConditionElement(cs, n - 1)
  {
    hide ConditionErrors, ConditionNames, Lifted, Flag;
  }

  lemma {:induction false} ConditionsInOrder(ir: ModelIR, cs: seq<ConditionDef>, n: nat)
    requires n <= |cs|
    ensures Prefix(ir, ConditionDefErrors(cs, n), 3, n)
  {
    hide *;
    if n == 0 {
      NothingInOrder(ir, 3, 0, 0);
      NoneOfConditions(cs);
    } else {
      ConditionsInOrder(ir, cs, n - 1);
      ConditionElementInOrder(ir, cs, n - 1);
      ConditionUnfolds(cs, n);
      NextElement(ir, ConditionDefErrors(cs, n - 1), ConditionElement(cs, n - 1), 3, n - 1);
    }
  }

  // Parents.

  lemma {:induction false} ParentTypesHere(types: seq<string>, resources: set<string>, place: Place, n: nat)
    requires n <= |types|
    ensures forall e :: e in ParentTypeErrors(types, resources, place, n) ==>
              e.place == place && e.code in {DupParentRelation, UnknownParent}
  {
    if n > 0 {
      ParentTypesHere(types, resources, place, n - 1);
    }
  }

  lemma SameStepInOrder(ir: ModelIR, s: seq<ValidationError>, place: Place, step: nat, pass: nat)
    requires Here(s, place, step, step) && OfPass(s, pass)
    ensures InOrder(ir, s)
  {
    hide Pass, Step;
    assert forall i :: 0 <= i < |s| ==> s[i] in s;
  }

  ghost function ParentElement(ps: seq<ParentRef>, resources: set<string>, ri: nat, k: nat): seq<ValidationError>
    requires k < |ps|
  {
    Flag(!IsIdentifier(ps[k].relationName), BadIdentifier, ParentAt(ri, k))
    + (Flag(ps[k].relationName in ParentNames(ps)[..k], DupParentRelation, ParentAt(ri, k))
       + Flag(ps[k].parentTypes == [], UnknownParent, ParentAt(ri, k))
       + ParentTypeErrors(ps[k].parentTypes, resources, ParentAt(ri, k), |ps[k].parentTypes|))
  }

  lemma ParentElementInOrder(ir: ModelIR, ps: seq<ParentRef>, resources: set<string>, ri: nat, k: nat)
    requires k < |ps|
    ensures var s := ParentElement(ps, resources, ri, k);
            InOrder(ir, s) && OfPass(s, 2) && Here(s, ParentAt(ri, k), 0, 4)
  {
    var (name, types, place) := (ps[k].relationName, ps[k].parentTypes, ParentAt(ri, k));
    var (bad, taken) := (!IsIdentifier(name), name in ParentNames(ps)[..k]);
    var a := Flag(bad, BadIdentifier, place);
    var b := Flag(taken, DupParentRelation, place) + Flag(types == [], UnknownParent, place)
      + ParentTypeErrors(types, resources, place, |types|);
    FlagInOrder(ir, bad, BadIdentifier, place);
    FlagInOrder(ir, taken, DupParentRelation, place);
    FlagInOrder(ir, types == [], UnknownParent, place);
    ParentTypesHere(types, resources, place, |types|);
    hide Flag, ParentTypeErrors, IsIdentifier, ParentNames, InOrder;
    assert Here(b, place, 4, 4) && OfPass(b, 2);
    SameStepInOrder(ir, b, place, 4, 2);
    StepsInOrder(ir, a, b, place, 0, 4, 4);
  }

  lemma ParentUnfolds(ps: seq<ParentRef>, resources: set<string>, ri: nat, n: nat)
    requires 0 < n <= |ps|
    ensures ParentErrors(ps, resources, ri, n) ==
            ParentErrors(ps, resources, ri, n - 1) + ParentElement(ps, resources, ri, n - 1)
  {
    hide Flag, ParentTypeErrors, IsIdentifier, ParentNames;
  }

  lemma InnerPlace(ir: ModelIR, s: seq<ValidationError>, place: Place, low: nat, high: nat, ri: nat, kind: nat, k: nat)
    requires Here(s, place, low, high)
    requires kind < 3 && place == [ParentAt(ri, k), RoleAt(ri, k), PermissionAt(ri, k)][kind]
    ensures forall e :: e in s ==> Major(ir, e) == ri && Kind(e) == kind && Minor(e) == k
  {
    hide Step;
  }

  lemma {:induction false} ParentsInOrder(ir: ModelIR, ps: seq<ParentRef>, resources: set<string>, ri: nat, n: nat)
    requires n <= |ps|
    ensures Inner(ir, ParentErrors(ps, resources, ri, n), 2, ri, 0, n)
  {
    hide *;
    if n == 0 {
      NothingInOrder(ir, 2, ri, 0);
      NoneOfParents(ps, resources, ri);
    } else {
      var more := ParentElement(ps, resources, ri, n - 1);
      ParentsInOrder(ir, ps, resources, ri, n - 1);
      ParentElementInOrder(ir, ps, resources, ri, n - 1);
      InnerPlace(ir, more, ParentAt(ri, n - 1), 0, 4, ri, 0, n - 1);
      ParentUnfolds(ps, resources, ri, n);
      NextInner(ir, ParentErrors(ps, resources, ri, n - 1), more, 2, ri, 0, n - 1);
    }
  }

  // Roles.

  ghost function RoleElement(r: ResourceType, groups: set<string>, ri: nat, k: nat): seq<ValidationError>
    requires k < |r.roles|
  {
    var taken := r.roles[k].name in ParentNames(r.parents) || r.roles[k].name in RoleNames(r.roles)[..k];
    Flag(!IsIdentifier(r.roles[k].name), BadIdentifier, RoleAt(ri, k)) + Flag(taken, DupRelation, RoleAt(ri, k))
    + SubjectListErrors(r.roles[k].assignableBy, groups, RoleAt(ri, k))
  }

  lemma RoleElementInOrder(ir: ModelIR, r: ResourceType, groups: set<string>, ri: nat, k: nat)
    requires k < |r.roles|
    ensures var s := RoleElement(r, groups, ri, k); InOrder(ir, s) && OfPass(s, 2) && Here(s, RoleAt(ri, k), 0, 3)
  {
    var (name, place) := (r.roles[k].name, RoleAt(ri, k));
    var (bad, taken) := (!IsIdentifier(name), name in ParentNames(r.parents) || name in RoleNames(r.roles)[..k]);
    var (a, b) := (Flag(bad, BadIdentifier, place), Flag(taken, DupRelation, place));
    var c := SubjectListErrors(r.roles[k].assignableBy, groups, place);
    FlagInOrder(ir, bad, BadIdentifier, place);
    SubjectListInOrder(ir, r.roles[k].assignableBy, groups, place, 2);
    hide Flag, SubjectListErrors, IsIdentifier, ParentNames, RoleNames, InOrder;
    MoreAt(ir, a, taken, DupRelation, place, 0, 2);
    StepsInOrder(ir, a + b, c, place, 0, 2, 3);
  }

  lemma RoleUnfolds(r: ResourceType, groups: set<string>, ri: nat, n: nat)
    requires 0 < n <= |r.roles|
    ensures RoleErrors(r, groups, ri, n) == RoleErrors(r, groups, ri, n - 1) + RoleElement(r, groups, ri, n - 1)
  {
    hide Flag, SubjectListErrors, IsIdentifier, ParentNames, RoleNames;
  }

  lemma {:induction false} RolesInOrder(ir: ModelIR, r: ResourceType, groups: set<string>, ri: nat, n: nat)
    requires n <= |r.roles|
    ensures Inner(ir, RoleErrors(r, groups, ri, n), 2, ri, 1, n)
  {
    hide *;
    if n == 0 {
      NothingInOrder(ir, 2, ri, 1);
      NoneOfResource(r, groups, ir.resources, ri);
    } else {
      var more := RoleElement(r, groups, ri, n - 1);
      RolesInOrder(ir, r, groups, ri, n - 1);
      RoleElementInOrder(ir, r, groups, ri, n - 1);
      InnerPlace(ir, more, RoleAt(ri, n - 1), 0, 3, ri, 1, n - 1);
      RoleUnfolds(r, groups, ri, n);
      NextInner(ir, RoleErrors(r, groups, ri, n - 1), more, 2, ri, 1, n - 1);
    }
  }

  lemma RoleRefsUnfold(roles: seq<Role>, names: set<string>, ri: nat, n: nat)
    requires 0 < n <= |roles|
    ensures var refs := roles[n - 1].assignableBy;
            RoleConditionErrors(roles, names, ri, n) ==
            RoleConditionErrors(roles, names, ri, n - 1) + RefConditionErrors(refs, names, RoleAt(ri, n - 1), |refs|)
  {
    hide RefConditionErrors;
  }

  lemma {:induction false} RoleRefsInOrder(ir: ModelIR, roles: seq<Role>, names: set<string>, ri: nat, n: nat)
    requires n <= |roles|
    ensures Inner(ir, RoleConditionErrors(roles, names, ri, n), 5, ri, 1, n)
  {
    hide *;
    if n == 0 {
      NothingInOrder(ir, 5, ri, 1);
      NoneOfRoles(roles, names, ri);
    } else {
      var (refs, place) := (roles[n - 1].assignableBy, RoleAt(ri, n - 1));
      var more := RefConditionErrors(refs, names, place, |refs|);
      RoleRefsInOrder(ir, roles, names, ri, n - 1);
      RefsInOrder(ir, refs, names, place, 5);
      InnerPlace(ir, more, place, 4, 4, ri, 1, n - 1);
      RoleRefsUnfold(roles, names, ri, n);
      NextInner(ir, RoleConditionErrors(roles, names, ri, n - 1), more, 5, ri, 1, n - 1);
    }
  }

  // Permissions.

  lemma {:induction false} MissingHere(types: seq<string>, perm: string, rs: seq<ResourceType>, place: Place, n: nat)
    requires n <= |types|
    ensures forall e :: e in MissingErrors(types, perm, rs, place, n) ==>
              e == ValidationError(ParentMissingPermission, place)
  {
    hide PermsOf;
    if n > 0 {
      MissingHere(types, perm, rs, place, n - 1);
    }
  }

  lemma {:induction false} InheritsHere(perm: Permission, r: ResourceType, rs: seq<ResourceType>, place: Place, n: nat)
    requires n <= |perm.inheritFromParents|
    ensures forall e :: e in InheritErrors(perm, r, rs, place, n) ==>
              e.place == place && e.code in {UnknownParent, ParentMissingPermission}
  {
    hide ParentNamed, MissingErrors;
    if n > 0 {
      InheritsHere(perm, r, rs, place, n - 1);
      var found := ParentNamed(r.parents, perm.inheritFromParents[n - 1]);
      if found.Some? {
        MissingHere(found.value.parentTypes, perm.name, rs, place, |found.value.parentTypes|);
      }
    }
  }

  ghost function PermissionElement(r: ResourceType, rs: seq<ResourceType>, ri: nat, k: nat): seq<ValidationError>
    requires k < |r.permissions|
  {
    var (perm, place) := (r.permissions[k], PermissionAt(ri, k));
    PermissionNameErrors(r, ri, k) + GrantListErrors(perm, SetOf(RoleNames(r.roles)), place)
    + InheritErrors(perm, r, rs, place, |perm.inheritFromParents|)
  }

  lemma PermissionNameInOrder(ir: ModelIR, r: ResourceType, ri: nat, k: nat)
    requires k < |r.permissions|
    ensures var s := PermissionNameErrors(r, ri, k);
            InOrder(ir, s) && OfPass(s, 2) && Here(s, PermissionAt(ri, k), 0, 1)
  {
    var (can, place) := (CanNames(r.permissions)[k], PermissionAt(ri, k));
    var bad := !IsIdentifier(r.permissions[k].name);
    var taken := can in ParentNames(r.parents) || can in RoleNames(r.roles) || can in CanNames(r.permissions)[..k];
    FlagInOrder(ir, bad, BadIdentifier, place);
    hide Flag, IsIdentifier, ParentNames, RoleNames, CanNames, InOrder;
    MoreAt(ir, Flag(bad, BadIdentifier, place), taken, DupRelation, place, 0, 2);
  }

  lemma GrantListInOrder(ir: ModelIR, perm: Permission, roles: set<string>, place: Place)
    requires place.PermissionAt?
    ensures var s := GrantListErrors(perm, roles, place); InOrder(ir, s) && OfPass(s, 2) && Here(s, place, 2, 3)
  {
    var grants := perm.grantedByRoles;
    var (a, b) := (Flag(grants == [], EmptyGrant, place), GrantErrors(grants, roles, place, |grants|));
    FlagInOrder(ir, grants == [], EmptyGrant, place);
    GrantErrorsSame(grants, roles, place, |grants|);
    hide Flag, GrantErrors, InOrder;
    SameInOrder(ir, b, ValidationError(UnknownRole, place));
    StepsInOrder(ir, a, b, place, 2, 3, 3);
  }

  lemma InheritsInOrder(ir: ModelIR, perm: Permission, r: ResourceType, rs: seq<ResourceType>, place: Place)
    requires place.PermissionAt?
    ensures var s := InheritErrors(perm, r, rs, place, |perm.inheritFromParents|);
            InOrder(ir, s) && OfPass(s, 2) && Here(s, place, 4, 4)
  {
    InheritsHere(perm, r, rs, place, |perm.inheritFromParents|);
    hide InheritErrors, InOrder;
    SameStepInOrder(ir, InheritErrors(perm, r, rs, place, |perm.inheritFromParents|), place, 4, 2);
  }

  lemma PermissionElementInOrder(ir: ModelIR, r: ResourceType, ri: nat, k: nat)
    requires k < |r.permissions|
    ensures var s := PermissionElement(r, ir.resources, ri, k);
            InOrder(ir, s) && OfPass(s, 2) && Here(s, PermissionAt(ri, k), 0, 4)
  {
    var (perm, place) := (r.permissions[k], PermissionAt(ri, k));
    var (a, b) := (PermissionNameErrors(r, ri, k), GrantListErrors(perm, SetOf(RoleNames(r.roles)), place));
    var c := InheritErrors(perm, r, ir.resources, place, |perm.inheritFromParents|);
    assert PermissionElement(r, ir.resources, ri, k) == a + b + c;
    hide *;
    PermissionNameInOrder(ir, r, ri, k);
    GrantListInOrder(ir, perm, SetOf(RoleNames(r.roles)), place);
    InheritsInOrder(ir, perm, r, ir.resources, place);
    SamePass(a, b, 2);
    Wider(a, place, 0, 1, 2);
    StepsInOrder(ir, a, b, place, 0, 2, 3);
    BothOfPass(a, b, 2);
    SamePass(a + b, c, 2);
    Wider(a + b, place, 0, 3, 4);
    StepsInOrder(ir, a + b, c, place, 0, 4, 4);
    BothOfPass(a + b, c, 2);
  }

  lemma Wider(s: seq<ValidationError>, place: Place, low: nat, high: nat, higher: nat)
    requires Here(s, place, low, high) && high <= higher
    ensures Here(s, place, low, higher)
  {
    hide Step;
  }

  lemma PermissionUnfolds(r: ResourceType, rs: seq<ResourceType>, ri: nat, n: nat)
    requires 0 < n <= |r.permissions|
    ensures PermissionErrors(r, rs, ri, n) == PermissionErrors(r, rs, ri, n - 1) + PermissionElement(r, rs, ri, n - 1)
  {
    hide PermissionNameErrors, GrantListErrors, InheritErrors, RoleNames;
  }

  lemma {:induction false} PermissionsInOrder(ir: ModelIR, r: ResourceType, ri: nat, n: nat)
    requires n <= |r.permissions|
    ensures Inner(ir, PermissionErrors(r, ir.resources, ri, n), 2, ri, 2, n)
  {
    hide *;
    if n == 0 {
      NothingInOrder(ir, 2, ri, 2);
      NoneOfResource(r, {}, ir.resources, ri);
    } else {
      var more := PermissionElement(r, ir.resources, ri, n - 1);
      PermissionsInOrder(ir, r, ri, n - 1);
      PermissionElementInOrder(ir, r, ri, n - 1);
      InnerPlace(ir, more, PermissionAt(ri, n - 1), 0, 4, ri, 2, n - 1);
      PermissionUnfolds(r, ir.resources, ri, n);
      NextInner(ir, PermissionErrors(r, ir.resources, ri, n - 1), more, 2, ri, 2, n - 1);
    }
  }

  // Resources.

  lemma KindsInOrder(ir: ModelIR, a: seq<ValidationError>, b: seq<ValidationError>, c: seq<ValidationError>, ri: nat,
      x: nat, y: nat, z: nat)
    requires Inner(ir, a, 2, ri, 0, x) && Inner(ir, b, 2, ri, 1, y) && Inner(ir, c, 2, ri, 2, z)
    ensures Level(ir, a + b + c, 2, ri)
  {
    hide Pass, Major, Kind, Minor, Step;
    assert AllBefore(ir, a, b) && AllBefore(ir, a + b, c);
    hide InOrder, NotAfter;
    OrderedConcat(ir, a, b);
    OrderedConcat(ir, a + b, c);
  }

  lemma OneResourceInOrder(ir: ModelIR, ri: nat)
    requires ri < |ir.resources|
    ensures Level(ir, OneResourceErrors(ir, ri), 2, ri)
  {
    var (r, resources, groups) :=
      (ir.resources[ri], SetOf(ResourceNames(ir.resources)), SetOf(GroupNames(ir.groups)));
    var (a, b) := (ParentErrors(r.parents, resources, ri, |r.parents|), RoleErrors(r, groups, ri, |r.roles|));
    var c := PermissionErrors(r, ir.resources, ri, |r.permissions|);
    assert OneResourceErrors(ir, ri) == a + b + c;
    hide *;
    ParentsInOrder(ir, r.parents, resources, ri, |r.parents|);
    RolesInOrder(ir, r, groups, ri, |r.roles|);
    PermissionsInOrder(ir, r, ri, |r.permissions|);
    KindsInOrder(ir, a, b, c, ri, |r.parents|, |r.roles|, |r.permissions|);
  }

  lemma ResourceUnfolds(ir: ModelIR, names: set<string>, n: nat)
    requires 0 < n <= |ir.resources|
    ensures ResourceErrors(ir, n) == ResourceErrors(ir, n - 1) + OneResourceErrors(ir, n - 1)
    ensures var roles := ir.resources[n - 1].roles;
            ResourceConditionErrors(ir, names, n) ==
            ResourceConditionErrors(ir, names, n - 1) + RoleConditionErrors(roles, names, n - 1, |roles|)
  {
    hide OneResourceErrors, RoleConditionErrors;
  }

  lemma {:induction false} ResourcesInOrder(ir: ModelIR, n: nat)
    requires n <= |ir.resources|
    ensures Prefix(ir, ResourceErrors(ir, n), 2, n)
  {
    hide *;
    if n == 0 {
      NothingInOrder(ir, 2, 0, 0);
      NoneOfModel(ir, {});
    } else {
      ResourcesInOrder(ir, n - 1);
      OneResourceInOrder(ir, n - 1);
      ResourceUnfolds(ir, {}, n);
      NextElement(ir, ResourceErrors(ir, n - 1), OneResourceErrors(ir, n - 1), 2, n - 1);
    }
  }

  lemma InnerIs(ir: ModelIR, s: seq<ValidationError>, pass: nat, ri: nat, kind: nat, n: nat)
    requires Inner(ir, s, pass, ri, kind, n)
    ensures Level(ir, s, pass, ri)
  {
    hide InOrder, OfPass, Major, Kind, Minor;
  }

  lemma {:induction false} ResourceRefsInOrder(ir: ModelIR, names: set<string>, n: nat)
    requires n <= |ir.resources|
    ensures Prefix(ir, ResourceConditionErrors(ir, names, n), 5, n)
  {
    hide *;
    if n == 0 {
      NothingInOrder(ir, 5, 0, 0);
      NoneOfModel(ir, names);
    } else {
      var roles := ir.resources[n - 1].roles;
      var more := RoleConditionErrors(roles, names, n - 1, |roles|);
      ResourceRefsInOrder(ir, names, n - 1);
      RoleRefsInOrder(ir, roles, names, n - 1, |roles|);
      InnerIs(ir, more, 5, n - 1, 1, |roles|);
      ResourceUnfolds(ir, names, n);
      NextElement(ir, ResourceConditionErrors(ir, names, n - 1), more, 5, n - 1);
    }
  }

  // All passes.

  ghost predicate UpTo(ir: ModelIR, s: seq<ValidationError>, pass: nat) {
    InOrder(ir, s) && forall e :: e in s ==> Pass(e) <= pass
  }

  lemma NextPass(ir: ModelIR, a: seq<ValidationError>, b: seq<ValidationError>, pass: nat, n: nat)
    requires UpTo(ir, a, pass) && Prefix(ir, b, pass + 1, n)
    ensures UpTo(ir, a + b, pass + 1)
  {
    hide Pass, Major, Kind, Minor, Step;
    assert AllBefore(ir, a, b);
    hide InOrder, NotAfter;
    OrderedConcat(ir, a, b);
  }

  lemma FirstPass(ir: ModelIR, a: seq<ValidationError>, n: nat)
    requires Prefix(ir, a, 0, n)
    ensures UpTo(ir, a, 0)
  {
    hide InOrder, Pass, Major;
  }

  lemma PassesListed(ir: ModelIR)
    ensures var (names, groups) := (SetOf(ConditionNames(ConditionsOf(ir))), SetOf(GroupNames(ir.groups)));
            Errors(ir) ==
            TypeErrors(ir, |TypeNames(ir)|) + GroupErrors(ir, groups, |ir.groups|)
            + ResourceErrors(ir, |ir.resources|) + ConditionDefErrors(ConditionsOf(ir), |ConditionsOf(ir)|)
            + GroupConditionErrors(ir, names, |ir.groups|) + ResourceConditionErrors(ir, names, |ir.resources|)
  {
    hide TypeErrors, GroupErrors, ResourceErrors, ConditionDefErrors, GroupConditionErrors, ResourceConditionErrors,
      TypeNames, GroupNames, ConditionNames;
  }

  /** Violations are listed pass by pass, within a pass in the order of the model, and at one place in the order of the
      rules. */
  lemma ErrorsInOrder(ir: ModelIR)
    ensures InOrder(ir, Errors(ir))
  {
    hide *;
    var (cs, groups) := (ConditionsOf(ir), SetOf(GroupNames(ir.groups)));
    var names := SetOf(ConditionNames(cs));
    var (a, b, c) := (TypeErrors(ir, |TypeNames(ir)|), GroupErrors(ir, groups, |ir.groups|),
                      ResourceErrors(ir, |ir.resources|));
    var (d, e, f) := (ConditionDefErrors(cs, |cs|), GroupConditionErrors(ir, names, |ir.groups|),
                      ResourceConditionErrors(ir, names, |ir.resources|));
    PassesListed(ir);
    TypesInOrder(ir, |TypeNames(ir)|);
    GroupsInOrder(ir, groups, |ir.groups|);
    ResourcesInOrder(ir, |ir.resources|);
    ConditionsInOrder(ir, cs, |cs|);
    GroupRefsInOrder(ir, names, |ir.groups|);
    ResourceRefsInOrder(ir, names, |ir.resources|);
    FirstPass(ir, a, |TypeNames(ir)|);
    NextPass(ir, a, b, 0, |ir.groups|);
    NextPass(ir, a + b, c, 1, |ir.resources|);
    NextPass(ir, a + b + c, d, 2, |cs|);
    NextPass(ir, a + b + c + d, e, 3, |ir.groups|);
    NextPass(ir, a + b + c + d + e, f, 4, |ir.resources|);
    Ordered(ir, a + b + c + d + e + f, 5);
  }

  lemma Ordered(ir: ModelIR, s: seq<ValidationError>, pass: nat)
    requires UpTo(ir, s, pass)
    ensures InOrder(ir, s)
  {
    hide InOrder, Pass;
  }

  lemma SamePass(a: seq<ValidationError>, b: seq<ValidationError>, pass: nat)
    requires OfPass(a, pass) && OfPass(b, pass)
    ensures forall x, y :: x in a && y in b ==> Pass(x) == Pass(y)
  {
    hide Pass;
  }

  lemma BothOfPass(a: seq<ValidationError>, b: seq<ValidationError>, pass: nat)
    requires OfPass(a, pass) && OfPass(b, pass)
    ensures OfPass(a + b, pass)
  {
    hide Pass;
  }
}