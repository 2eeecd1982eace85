/** Exactly on which types search and decision agree, over every server. */
module Agreement {
  import opened Prelude
  import opened Condition
  import opened ModelIr
  import opened AuthModel
  import Compiler
  import opened Meaning
  import opened MeaningPreserved
  import opened Witness
  import opened Explained

  // ---------------------------------------------------------------------------
  // Whether a relation admits anyone.

  /** A user is among the subjects, or among the members of a group among them, n groups deep at most. */
  ghost predicate Reaches(ir: ModelIR, refs: seq<SubjectRef>, n: nat)
    decreases n, 0
  {
    exists ref :: ref in refs && (ref.User? || (n > 0 && GroupReaches(ir, ref.group, n - 1)))
  }

  ghost predicate GroupReaches(ir: ModelIR, group: string, n: nat)
    decreases n, 1
  {
    GroupNamed(ir.groups, group).Some? && Reaches(ir, GroupNamed(ir.groups, group).value.memberTypes, n)
  }

  /** Some subject can have the relation on the type: a resource as a parent, a user in a role. */
  ghost predicate AdmitsAnyone(ir: ModelIR, typ: string, relation: string) {
    match DefOn(ir, typ, relation)
    case Some(Linking(types)) => types != []
    case Some(Assignable(refs)) => Reaches(ir, refs, |ir.groups| + 1)
    case _ => false
  }

  ghost function Stage(ir: ModelIR, n: nat): set<string> {
    set g | g in GroupNames(ir.groups) && GroupReaches(ir, g, n)
  }

  lemma StageHas(ir: ModelIR, group: string, n: nat)
    ensures group in Stage(ir, n) <==> GroupReaches(ir, group, n)
  {
    GroupFound(ir.groups, group);
    hide Reaches;
  }

  lemma {:induction false} ReachesStage(ir: ModelIR, refs: seq<SubjectRef>, n: nat)
    requires n > 0
    ensures Reaches(ir, refs, n) <==> exists ref :: ref in refs && (ref.User? || ref.group in Stage(ir, n - 1))
  {
    var m := n - 1;
    forall g ensures g in Stage(ir, m) <==> GroupReaches(ir, g, m) {
      StageHas(ir, g, m);
    }
    hide Stage, GroupReaches;
  }

  lemma SameReach(ir: ModelIR, refs: seq<SubjectRef>, j: nat, k: nat)
    requires Stage(ir, j) == Stage(ir, k)
    ensures Reaches(ir, refs, j + 1) <==> Reaches(ir, refs, k + 1)
  {
    hide Stage, Reaches;
    ReachesStage(ir, refs, j + 1);
    ReachesStage(ir, refs, k + 1);
  }

  lemma SameStages(ir: ModelIR, j: nat, k: nat)
    requires Stage(ir, j) == Stage(ir, k)
    ensures Stage(ir, j + 1) == Stage(ir, k + 1)
  {
    var (a, b) := (Stage(ir, j + 1), Stage(ir, k + 1));
    hide Stage;
    forall g ensures g in a <==> g in b {
      StageHas(ir, g, j + 1);
      StageHas(ir, g, k + 1);
      if GroupNamed(ir.groups, g).Some? {
        SameReach(ir, GroupNamed(ir.groups, g).value.memberTypes, j, k);
      }
      hide Reaches;
    }
  }

  lemma {:induction false} ReachesMore(ir: ModelIR, refs: seq<SubjectRef>, n: nat)
    requires Reaches(ir, refs, n)
    ensures Reaches(ir, refs, n + 1)
    decreases n
  {
    var ref :| ref in refs && (ref.User? || (n > 0 && GroupReaches(ir, ref.group, n - 1)));
    if ref.Group? {
      ReachesMore(ir, GroupNamed(ir.groups, ref.group).value.memberTypes, n - 1);
      assert GroupReaches(ir, ref.group, n);
    }
  }

  lemma StageGrows(ir: ModelIR, n: nat)
    ensures Stage(ir, n) <= Stage(ir, n + 1)
  {
    forall g | g in Stage(ir, n) ensures g in Stage(ir, n + 1) {
      ReachesMore(ir, GroupNamed(ir.groups, g).value.memberTypes, n);
    }
  }

  /** Among the first n stages two neighbours are equal, or the n-th has n groups. */
  lemma {:induction false} StageSettles(ir: ModelIR, n: nat) returns (k: nat)
    ensures (k < n && Stage(ir, k) == Stage(ir, k + 1)) || (k == n && |Stage(ir, n)| >= n)
  {
    k := 0;
    if n > 0 {
      hide Stage;
      k := StageSettles(ir, n - 1);
      if !(k < n - 1 && Stage(ir, k) == Stage(ir, k + 1)) {
        StageGrows(ir, n - 1);
        if Stage(ir, n - 1) != Stage(ir, n) {
          SmallerSubset(Stage(ir, n - 1), Stage(ir, n));
          k := n;
        }
      }
    }
  }

  lemma SmallerSubset<T>(a: set<T>, b: set<T>)
    requires a < b
    ensures |a| < |b|
  {
    var x :| x in b && x !in a;
    assert b == a + (b - a) && |b| == |a| + |b - a| && b - a != {};
  }

  lemma {:induction false} StaysSettled(ir: ModelIR, k: nat, n: nat)
    requires Stage(ir, k) == Stage(ir, k + 1) && k <= n
    ensures Stage(ir, n) == Stage(ir, k)
    decreases n - k
  {
    if k < n {
      hide Stage;
      StaysSettled(ir, k, n - 1);
      SameStages(ir, n - 1, k);
    }
  }

  lemma {:induction false} NamesAreFew(names: seq<string>, s: set<string>)
    requires forall x :: x in s ==> x in names
    ensures |s| <= |names|
  {
    if names == [] {
      assert s == {};
    } else {
      var rest := s - {names[0]};
      forall x | x in rest ensures x in names[1..] {
        assert names == [names[0]] + names[1..];
      }
      NamesAreFew(names[1..], rest);
      assert |s| <= |rest| + 1 by {
        if names[0] in s {
          assert s == rest + {names[0]};
        } else {
          assert s == rest;
        }
      }
    }
  }

  /** Going deeper than there are groups finds nobody new, so the bound loses nothing. */
  lemma ReachesBounded(ir: ModelIR, refs: seq<SubjectRef>, n: nat)
    requires Reaches(ir, refs, n)
    ensures Reaches(ir, refs, |ir.groups| + 1)
  {
    var bound := |ir.groups| + 1;
    var k := StageSettles(ir, bound);
    NamesAreFew(GroupNames(ir.groups), Stage(ir, bound));
    hide Stage, Reaches, GroupReaches;
    if n <= bound {
      ReachesUpTo(ir, refs, n, bound);
    } else {
      StaysSettled(ir, k, n - 1);
      StaysSettled(ir, k, bound - 1);
      SameReach(ir, refs, n - 1, bound - 1);
    }
  }

  lemma {:induction false} ReachesUpTo(ir: ModelIR, refs: seq<SubjectRef>, n: nat, m: nat)
    requires Reaches(ir, refs, n) && n <= m
    ensures Reaches(ir, refs, m)
    decreases m - n
  {
    hide Reaches;
    if n < m {
      ReachesMore(ir, refs, n);
      ReachesUpTo(ir, refs, n + 1, m);
    }
  }

  // ---------------------------------------------------------------------------
  // A relation that admits anyone holds for somebody in some store.

  lemma {:induction false} HoldsInMore(ir: ModelIR, few: Store, more: Store, subject: Obj, relation: string, obj: Obj,
      n: nat)
    requires few.tuples <= more.tuples && few.holds == more.holds
    requires IrHolds(ir, few, subject, relation, obj, n)
    ensures IrHolds(ir, more, subject, relation, obj, n)
    decreases n
  {
    hide DefOn, DefAdmits;
    assert forall t, r, o :: Applies(few, t, r, o) ==> Applies(more, t, r, o);
    match DefOn(ir, obj.typ, relation).value
    case Granted(perm) =>
      if role :| role in perm.grantedByRoles && IrHolds(ir, few, subject, role, obj, n - 1) {
        HoldsInMore(ir, few, more, subject, role, obj, n - 1);
      } else {
        var rel, parent :| rel in perm.inheritFromParents && Links(ir, few, rel, obj, parent)
          && IrHolds(ir, few, subject, relation, parent, n - 1);
        assert Links(ir, more, rel, obj, parent);
        HoldsInMore(ir, few, more, subject, relation, parent, n - 1);
      }
    case def =>
      var t: Tuple :| Applies(few, t, relation, obj) && DefAdmits(def, t) &&
        match t.user
        case Direct(o) => subject == o
        case Members(o, r) => IrHolds(ir, few, subject, r, o, n - 1)
        case Everyone(typ) => subject.typ == typ;
      if t.user.Members? {
        HoldsInMore(ir, few, more, subject, t.user.relation, t.user.obj, n - 1);
      }
  }

  const SOMEONE: Obj := Obj("user", "u")

  /** The store in which every condition holds. */
  function Unconditional(tuples: set<Tuple>): Store {
    Store(tuples, (c: string) => true)
  }

  /** One tuple makes the subject have the relation. */
  lemma OneTuple(ir: ModelIR, subject: Obj, obj: Obj, relation: string, condition: Option<string>)
    requires DefOn(ir, obj.typ, relation).Some? && !DefOn(ir, obj.typ, relation).value.Granted?
    requires DefAdmits(DefOn(ir, obj.typ, relation).value, Tuple(Direct(subject), relation, obj, condition))
    ensures IrHolds(ir, Unconditional({Tuple(Direct(subject), relation, obj, condition)}), subject, relation, obj, 1)
  {
    var t := Tuple(Direct(subject), relation, obj, condition);
    hide DefOn, DefAdmits;
    assert Applies(Unconditional({t}), t, relation, obj);
  }

  /** One more tuple lets the members of a group have the relation. */
  lemma ThroughGroup(ir: ModelIR, tuples: set<Tuple>, subject: Obj, obj: Obj, relation: string, group: Obj,
      condition: Option<string>, n: nat)
      returns (all: set<Tuple>)
    requires DefOn(ir, obj.typ, relation).Some? && !DefOn(ir, obj.typ, relation).value.Granted?
    requires DefAdmits(DefOn(ir, obj.typ, relation).value, Tuple(Members(group, "member"), relation, obj, condition))
    requires IrHolds(ir, Unconditional(tuples), subject, "member", group, n)
    ensures IrHolds(ir, Unconditional(all), subject, relation, obj, n + 1)
  {
    var t := Tuple(Members(group, "member"), relation, obj, condition);
    all := tuples + {t};
    hide DefOn, DefAdmits;
    assert Unconditional(tuples).holds == Unconditional(all).holds;
    HoldsInMore(ir, Unconditional(tuples), Unconditional(all), subject, "member", group, n);
    assert Applies(Unconditional(all), t, relation, obj);
  }

  lemma {:induction false} SomeoneReaches(ir: ModelIR, obj: Obj, relation: string, refs: seq<SubjectRef>, n: nat)
      returns (tuples: set<Tuple>, k: nat)
    requires DefOn(ir, obj.typ, relation) == Some(Assignable(refs)) && Reaches(ir, refs, n)
    ensures IrHolds(ir, Unconditional(tuples), SOMEONE, relation, obj, k)
    decreases n
  {
    var ref :| ref in refs && (ref.User? || (n > 0 && GroupReaches(ir, ref.group, n - 1)));
    if ref.User? {
      var t := Tuple(Direct(SOMEONE), relation, obj, ref.condition);
      assert SubjectAdmits(ref, t);
      OneTuple(ir, SOMEONE, obj, relation, ref.condition);
      tuples, k := {t}, 1;
    } else {
      var group := Obj(ref.group, "g");
      assert SubjectAdmits(ref, Tuple(Members(group, "member"), relation, obj, ref.condition));
      var few, m := SomeoneReaches(ir, group, "member", GroupNamed(ir.groups, ref.group).value.memberTypes, n - 1);
      tuples := ThroughGroup(ir, few, SOMEONE, obj, relation, group, ref.condition, m);
      k := m + 1;
    }
  }

  lemma SomeoneHas(ir: ModelIR, obj: Obj, relation: string) returns (st: Store, subject: Obj)
    requires AdmitsAnyone(ir, obj.typ, relation)
    ensures IrMeans(ir, st, subject, relation, obj)
  {
    match DefOn(ir, obj.typ, relation)
    case Some(Linking(types)) => {
      subject := Obj(types[0], "p");
      OneTuple(ir, subject, obj, relation, None);
      st := Unconditional({Tuple(Direct(subject), relation, obj, None)});
    }
    case Some(Assignable(refs)) => {
      var tuples, k := SomeoneReaches(ir, obj, relation, refs, |ir.groups| + 1);
      st, subject := Unconditional(tuples), SOMEONE;
    }
  }

  // ---------------------------------------------------------------------------
  // A relation that admits nobody holds for nobody.

  lemma {:induction false} HolderIsReached(ir: ModelIR, st: Store, subject: Obj, relation: string, obj: Obj,
      refs: seq<SubjectRef>, n: nat)
    requires DefOn(ir, obj.typ, relation) == Some(Assignable(refs)) && IrHolds(ir, st, subject, relation, obj, n)
    requires WellFormed(ir) && forall ref :: ref in refs ==> GroupResolves(ref, ir)
    ensures Reaches(ir, refs, n)
    decreases n
  {
    var t: Tuple :| Applies(st, t, relation, obj) && DefAdmits(Assignable(refs), t) &&
      match t.user
      case Direct(o) => subject == o
      case Members(o, r) => IrHolds(ir, st, subject, r, o, n - 1)
      case Everyone(typ) => subject.typ == typ;
    var ref :| ref in refs && SubjectAdmits(ref, t);
    if ref.Group? {
      GroupFound(ir.groups, ref.group);
      var g := GroupNamed(ir.groups, ref.group).value;
      assert GoodSubjects(g.memberTypes, ir);
      hide WellFormed, IrHolds, Applies;
      HolderIsReached(ir, st, subject, "member", t.user.obj, g.memberTypes, n - 1);
      assert GroupReaches(ir, ref.group, n - 1);
    }
  }

  lemma RefsResolve(ir: ModelIR, typ: string, relation: string, refs: seq<SubjectRef>)
    requires WellFormed(ir) && DefOn(ir, typ, relation) == Some(Assignable(refs))
    ensures forall ref :: ref in refs ==> GroupResolves(ref, ir)
  {
    GroupFound(ir.groups, typ);
    ResourceFound(ir.resources, typ);
    match GroupNamed(ir.groups, typ)
    case Some(g) => assert GoodSubjects(g.memberTypes, ir);
    case None =>
      var r := ResourceNamed(ir.resources, typ).value;
      RoleFound(r.roles, relation);
      assert GoodResource(r, ir);
      assert GoodRole(RoleNamed(r.roles, relation).value, ir);
  }

  lemma ParentTypesPresent(ir: ModelIR, typ: string, relation: string, types: seq<string>)
    requires WellFormed(ir) && DefOn(ir, typ, relation) == Some(Linking(types))
    ensures types != []
  {
    ResourceFound(ir.resources, typ);
    var r := ResourceNamed(ir.resources, typ).value;
    ParentFound(r.parents, relation);
    assert GoodResource(r, ir);
    assert GoodParent(ParentNamed(r.parents, relation).value, ir);
  }

  lemma NobodyHas(ir: ModelIR, st: Store, subject: Obj, relation: string, obj: Obj)
    requires WellFormed(ir) && !AdmitsAnyone(ir, obj.typ, relation)
    requires DefOn(ir, obj.typ, relation).Some? ==> !DefOn(ir, obj.typ, relation).value.Granted?
    ensures !IrMeans(ir, st, subject, relation, obj)
  {
    forall n: nat ensures !IrHolds(ir, st, subject, relation, obj, n) {
      if IrHolds(ir, st, subject, relation, obj, n) {
        match DefOn(ir, obj.typ, relation)
        case Some(Linking(types)) => ParentTypesPresent(ir, obj.typ, relation, types);
        case Some(Assignable(refs)) => {
          RefsResolve(ir, obj.typ, relation, refs);
          HolderIsReached(ir, st, subject, relation, obj, refs, n);
          ReachesBounded(ir, refs, n);
        }
      }
    }
  }

  // ---------------------------------------------------------------------------
  // A faithful server, whatever the model, the store and the subject.

  ghost function Listed(s: set<string>): (r: seq<string>)
    ensures forall x :: x in r <==> x in s
    decreases |s|
  {
    if s == {} then []
    else
      var x :| x in s;
      [x] + Listed(s - {x})
  }

  /** The texts of the parents that tuples link to the object. */
  ghost function LinkTexts(ir: ModelIR, st: Store, relation: string, obj: Obj): set<string> {
    set t | t in st.tuples && t.user.Direct? && Links(ir, st, relation, obj, t.user.obj) :: Text(t.user.obj)
  }

  lemma LinkTextsList(ir: ModelIR, st: Store, relation: string, obj: Obj, text: string)
    ensures text in LinkTexts(ir, st, relation, obj) <==>
            exists parent :: text == Text(parent) && Links(ir, st, relation, obj, parent)
  {
    hide DefOn, DefAdmits, Text;
  }

  ghost function CheckText(ir: ModelIR, st: Store, subject: Obj, relation: string, text: string): Answer<bool> {
    match SplitObject(text)
    case None => Answered(false)
    case Some(parts) => Answered(IrMeans(ir, st, subject, relation, Obj(parts.0, parts.1)))
  }

  ghost function ReadText(ir: ModelIR, st: Store, text: string, relation: string): Answer<seq<string>> {
    match SplitObject(text)
    case None => Answered([])
    case Some(parts) => Answered(Listed(LinkTexts(ir, st, relation, Obj(parts.0, parts.1))))
  }

  ghost function Server(ir: ModelIR, st: Store, subject: Obj): Setting {
    Setting(ir, Gateway((user, relation, text) => CheckText(ir, st, subject, relation, text),
                        (text, relation) => ReadText(ir, st, text, relation)))
  }

  lemma ServerIsFaithful(ir: ModelIR, st: Store, subject: Obj)
    ensures Faithful(Server(ir, st, subject), st, subject)
  {
    var s := Server(ir, st, subject);
    hide IrMeans, DefOn, Links, LinkTexts, SplitObject, Text;
    forall role, o: Obj | ':' !in o.typ
      ensures s.gateway.check(Text(subject), role, Text(o)) == Answered(IrMeans(s.ir, st, subject, role, o))
    {
      TextSplits(o);
    }
    forall o: Obj, rel: string, t: string | ':' !in o.typ
      ensures t in s.gateway.read(Text(o), rel).value <==> IsLinkText(s.ir, st, rel, o, t)
    {
      TextSplits(o);
      LinkTextsList(ir, st, rel, o, t);
    }
  }

  // ---------------------------------------------------------------------------
  // Where search and decision agree.

  /** The type has the permission, or nothing on it that bears the permission's relation name admits anyone. */
  ghost predicate Unmistaken(ir: ModelIR, typ: string, name: string) {
    LookupPermission(ir.resources, typ, name).Some? || !AdmitsAnyone(ir, typ, CanName(name))
  }

  ghost predicate Agree(s: Setting, st: Store, subject: Obj, name: string, obj: Obj) {
    Can(s, Text(subject), name, Text(obj)) <==> Means(Compiler.Emit(s.ir), st, subject, CanName(name), obj)
  }

  /** Without the permission on its type the search has nothing to expand. */
  lemma NothingToExpand(s: Setting, user: string, name: string, obj: Obj)
    requires ':' !in obj.typ && LookupPermission(s.ir.resources, obj.typ, name).None?
    ensures !Can(s, user, name, Text(obj))
    ensures Search(s, user, name, Text(obj), 0, {}) == Answered(Outcome(NotFound(false), {VisitKey(name, Text(obj))}))
  {
    PermissionOnObject(s, obj, name);
    hide LookupPermission, PermissionOn, Text;
    forall n: nat ensures !CanWithin(s, user, name, Text(obj), n) {
    }
    assert {} + {VisitKey(name, Text(obj))} == {VisitKey(name, Text(obj))};
  }

  lemma {:induction false} NoPermissionNoGrant(ir: ModelIR, typ: string, name: string)
    requires WellFormed(ir) && DefOn(ir, typ, CanName(name)).Some? && DefOn(ir, typ, CanName(name)).value.Granted?
    ensures LookupPermission(ir.resources, typ, name).Some?
  {
    LookupIsNamed(ir.resources, typ, name);
    var r := ResourceNamed(ir.resources, typ).value;
    NamedApart(r.permissions, name);
    hide CanName, LookupPermission, WellFormed;
  }

  /** One type, one store, one server that decides roles by the model: what the search looks for the model allows, where
      the server lists no other parents than the model admits; and what the model allows the search looks for, where it
      lists all of them and is not mistaken about the name. */
  lemma SearchAgreesWithDecision(s: Setting, st: Store, subject: Obj, name: string, obj: Obj)
    requires WellFormed(s.ir) && Decides(s, st, subject) && ':' !in obj.typ
    ensures var allowed := Means(Compiler.Emit(s.ir), st, subject, CanName(name), obj);
            && (ListsOnlyLinks(s, st) && Can(s, Text(subject), name, Text(obj)) ==> allowed)
            && (ListsLinks(s, st) && Unmistaken(s.ir, obj.typ, name) && allowed ==>
                 Can(s, Text(subject), name, Text(obj)))
  {
    hide Means, IrMeans, Can, Decides, ListsLinks, ListsOnlyLinks, WellFormed, LookupPermission;
    hide AdmitsAnyone, CanName, Text;
    if LookupPermission(s.ir.resources, obj.typ, name).Some? {
      PermittedTypeAgrees(s, st, subject, name, obj);
    } else {
      NothingToExpand(s, Text(subject), name, obj);
      CompilingKeepsMeaning(s.ir, st, subject, CanName(name), obj);
      if DefOn(s.ir, obj.typ, CanName(name)).Some? && DefOn(s.ir, obj.typ, CanName(name)).value.Granted? {
        NoPermissionNoGrant(s.ir, obj.typ, name);
      } else if Unmistaken(s.ir, obj.typ, name) {
        NobodyHas(s.ir, st, subject, CanName(name), obj);
      }
    }
  }

  /** Otherwise some server, store and subject make the model allow where the search misses cleanly. */
  lemma MistakenSearchMisses(ir: ModelIR, obj: Obj, name: string) returns (s: Setting, st: Store, subject: Obj)
    requires WellFormed(ir) && ':' !in obj.typ && !Unmistaken(ir, obj.typ, name)
    ensures s.ir == ir && Faithful(s, st, subject)
    ensures Means(Compiler.Emit(ir), st, subject, CanName(name), obj)
    ensures Search(s, Text(subject), name, Text(obj), 0, {}).Answered?
         && Search(s, Text(subject), name, Text(obj), 0, {}).value.result == NotFound(false)
    ensures !Can(s, Text(subject), name, Text(obj))
  {
    hide Means, IrMeans, Can, Faithful, WellFormed, LookupPermission, AdmitsAnyone, CanName, Text, Search;
    st, subject := SomeoneHas(ir, obj, CanName(name));
    s := Server(ir, st, subject);
    ServerIsFaithful(ir, st, subject);
    CompilingKeepsMeaning(ir, st, subject, CanName(name), obj);
    NothingToExpand(s, Text(subject), name, obj);
  }

  /** Search and decision agree on every object of the type, for every faithful server, store and subject, if and only
      if the type has the permission, or no role or parent relation that bears its relation name admits anyone. */
  lemma AgreementExactly(ir: ModelIR, typ: string, name: string)
    requires WellFormed(ir) && ':' !in typ
    ensures Unmistaken(ir, typ, name) <==>
            forall s: Setting, st: Store, subject: Obj, id: string ::
              s.ir == ir && Faithful(s, st, subject) ==> Agree(s, st, subject, name, Obj(typ, id))
  {
    hide Unmistaken, Decides, ListsLinks, ListsOnlyLinks, WellFormed, Means, Can;
    if Unmistaken(ir, typ, name) {
      forall s: Setting, st: Store, subject: Obj, id: string | s.ir == ir && Faithful(s, st, subject)
        ensures Agree(s, st, subject, name, Obj(typ, id))
      {
        SearchAgreesWithDecision(s, st, subject, name, Obj(typ, id));
      }
    } else {
      var s, st, subject := MistakenSearchMisses(ir, Obj(typ, ""), name);
      assert !Agree(s, st, subject, name, Obj(typ, ""));
    }
  }

  /** A path found proves that the compiled model allows, for every server that lists at most the parents that the model
      admits; a clean miss proves that it denies, for every server that lists at least those, stale tuples besides or
      not, where the search is not mistaken about the name. */
  lemma ExplanationAgreesWithDecision(s: Setting, st: Store, subject: Obj, name: string, obj: Obj)
    requires Decides(s, st, subject) && WellFormed(s.ir) && ':' !in obj.typ
    requires Search(s, Text(subject), name, Text(obj), 0, {}).Answered?
    ensures var r := Search(s, Text(subject), name, Text(obj), 0, {}).value.result;
            var allowed := Means(Compiler.Emit(s.ir), st, subject, CanName(name), obj);
            && (ListsOnlyLinks(s, st) && r.found ==> allowed)
            && (ListsLinks(s, st) && Unmistaken(s.ir, obj.typ, name) && !r.found && !r.truncated ==> !allowed)
  {
    var r := Search(s, Text(subject), name, Text(obj), 0, {}).value.result;
    hide Means, CanWithin, Decides, ListsLinks, ListsOnlyLinks, WellFormed, Unmistaken, Search, Text, CanName;
    SearchAgreesWithDecision(s, st, subject, name, obj);
    if r.found {
      FoundPathIsReal(s, Text(subject), name, Text(obj));
    } else if !r.truncated {
      CleanMissIsComplete(s, Text(subject), name, Text(obj));
    }
  }

  // ---------------------------------------------------------------------------
  // The smallest model on which they disagree.

  /** A document type with a role can_read and no permission read. */
  const CAN_ROLE: ModelIR := ModelIR([], [ResourceType("doc", [], [Role("can_read", [User(None)])], [])], None)

  lemma CanRoleIsWellFormed()
    ensures WellFormed(CAN_ROLE)
  {
    var r := CAN_ROLE.resources[0];
    assert IsIdentifier("doc") && IsIdentifier("can_read");
    hide IsIdentifier;
    assert RelationNames(r) == ["can_read"] && TypeNames(CAN_ROLE) == ["doc"];
    assert GoodResource(r, CAN_ROLE) by {
      assert GoodRole(r.roles[0], CAN_ROLE);
    }
    assert GoodTypeNames(CAN_ROLE) && GoodConditions(CAN_ROLE);
    hide GoodResource, GoodTypeNames, GoodConditions;
  }

  /** The model allows, by the role; the search looks for the permission, and misses cleanly. */
  lemma RoleNamedCan() returns (s: Setting, st: Store, subject: Obj)
    ensures WellFormed(CAN_ROLE) && s.ir == CAN_ROLE && Faithful(s, st, subject)
    ensures Means(Compiler.Emit(CAN_ROLE), st, subject, "can_read", Obj("doc", "1"))
    ensures Search(s, Text(subject), "read", "doc:1", 0, {}).Answered?
         && Search(s, Text(subject), "read", "doc:1", 0, {}).value.result == NotFound(false)
  {
    CanRoleIsWellFormed();
    var obj := Obj("doc", "1");
    var refs := [User(None)];
    assert CanName("read") == "can_read" && Text(obj) == "doc:1";
    assert DefOn(CAN_ROLE, "doc", "can_read") == Some(Assignable(refs));
    assert refs[0] in refs && Reaches(CAN_ROLE, refs, 1);
    assert !Unmistaken(CAN_ROLE, "doc", "read");
    hide *;
    s, st, subject := MistakenSearchMisses(CAN_ROLE, obj, "read");
  }
}
