/** The witness search over a parent graph that may be cyclic. */
module Witness {
  import opened Prelude
  import opened ModelIr

  const MAX_DEPTH: nat := 8

  /** What a call to the authorization server gives back: an error, or a value. */
  datatype Answer<+T> = Failed | Answered(value: T)

  /** Check(user, relation, object) and Read(object, relation) over one fixed tuple store. */
  datatype Gateway = Gateway(
    check: (string, string, string) -> Answer<bool>,
    read: (string, string) -> Answer<seq<string>>)

  datatype Setting = Setting(ir: ModelIR, gateway: Gateway)

  datatype ReasonStep =
    | RoleStep(role: string, on: string, direct: bool, group: Option<string>, groupObject: Option<string>)
    | ParentStep(relation: string, parent: string, parentObject: string)

  datatype WitnessResult = WitnessResult(found: bool, path: seq<ReasonStep>, truncated: bool)

  function NotFound(truncated: bool): WitnessResult {
    WitnessResult(false, [], truncated)
  }

  /** "type:id" cut at its first colon. */
  function SplitObject(obj: string): Option<(string, string)> {
    var i := IndexOf(obj, ':');
    if i < 0 then None else Some((obj[..i], obj[i + 1..]))
  }

  function TypeOr(obj: string, fallback: string): string {
    match SplitObject(obj)
    case Some(parts) => parts.0
    case None => fallback
  }

  function VisitKey(permission: string, obj: string): string {
    permission + "|" + obj
  }

  lemma VisitKeyInjective(permission: string, a: string, b: string)
    requires VisitKey(permission, a) == VisitKey(permission, b)
    ensures a == b
  {
    assert a == VisitKey(permission, a)[|permission| + 1..];
    assert b == VisitKey(permission, b)[|permission| + 1..];
  }

  function PermissionNamed(ps: seq<Permission>, name: string): Option<Permission> {
    if ps == [] then None
    else if ps[0].name == name then Some(ps[0])
    else PermissionNamed(ps[1..], name)
  }

  /** Only the first resource of that name is looked at, even when it lacks the permission. */
  function LookupPermission(rs: seq<ResourceType>, typ: string, name: string): Option<Permission> {
    if rs == [] then None
    else if rs[0].name == typ then PermissionNamed(rs[0].permissions, name)
    else LookupPermission(rs[1..], typ, name)
  }

  ghost predicate NamedFirst(ps: seq<Permission>, name: string, p: Permission) {
    exists j ::
      && 0 <= j < |ps| && ps[j] == p && p.name == name
      && forall k :: 0 <= k < j ==> ps[k].name != name
  }

  lemma {:induction false} PermissionNamedIs(ps: seq<Permission>, name: string, p: Permission)
    ensures PermissionNamed(ps, name) == Some(p) <==> NamedFirst(ps, name, p)
  {
    if ps != [] && ps[0].name != name {
      var rest := ps[1..];
      PermissionNamedIs(rest, name, p);
      if j :| 0 <= j < |rest| && rest[j] == p && p.name == name && forall k :: 0 <= k < j ==> rest[k].name != name {
        assert ps[j + 1] == p && forall k :: 0 < k < j + 1 ==> ps[k] == rest[k - 1];
      }
      if j :| 0 <= j < |ps| && ps[j] == p && p.name == name && forall k :: 0 <= k < j ==> ps[k].name != name {
        assert rest[j - 1] == p && forall k :: 0 <= k < j - 1 ==> rest[k] == ps[k + 1];
      }
    } else if ps != [] {
      assert PermissionNamed(ps, name) == Some(ps[0]);
      assert NamedFirst(ps, name, p) <==> p == ps[0];
    }
  }

  ghost predicate FirstOfType(rs: seq<ResourceType>, typ: string, i: nat) {
    i < |rs| && rs[i].name == typ && forall k :: 0 <= k < i ==> rs[k].name != typ
  }

  /** p is the first permission of the name on the first resource of the type. */
  ghost predicate IsPermissionOf(rs: seq<ResourceType>, typ: string, name: string, p: Permission) {
    exists i: nat :: FirstOfType(rs, typ, i) && NamedFirst(rs[i].permissions, name, p)
  }

  lemma FirstOfRest(rs: seq<ResourceType>, typ: string, i: nat)
    requires rs != [] && rs[0].name != typ
    ensures FirstOfType(rs, typ, i + 1) <==> FirstOfType(rs[1..], typ, i)
  {
    if FirstOfType(rs[1..], typ, i) {
      assert forall k :: 0 < k < i + 1 ==> rs[k] == rs[1..][k - 1];
    }
  }

  lemma IsPermissionOfRest(rs: seq<ResourceType>, typ: string, name: string, p: Permission)
    requires rs != [] && rs[0].name != typ
    ensures IsPermissionOf(rs, typ, name, p) <==> IsPermissionOf(rs[1..], typ, name, p)
  {
    hide NamedFirst;
    if i: nat :| FirstOfType(rs[1..], typ, i) && NamedFirst(rs[1..][i].permissions, name, p) {
      FirstOfRest(rs, typ, i);
      assert FirstOfType(rs, typ, i + 1) && rs[i + 1] == rs[1..][i];
    }
    if i: nat :| FirstOfType(rs, typ, i) && NamedFirst(rs[i].permissions, name, p) {
      FirstOfRest(rs, typ, i - 1);
      assert FirstOfType(rs[1..], typ, i - 1) && rs[i] == rs[1..][i - 1];
    }
  }

  lemma {:induction false} LookupExactly(rs: seq<ResourceType>, typ: string, name: string, p: Permission)
    ensures LookupPermission(rs, typ, name) == Some(p) <==> IsPermissionOf(rs, typ, name, p)
  {
    if rs != [] {
      if rs[0].name == typ {
        PermissionNamedIs(rs[0].permissions, name, p);
        hide NamedFirst;
        assert FirstOfType(rs, typ, 0);
        assert forall i: nat :: FirstOfType(rs, typ, i) ==> i == 0;
      } else {
        LookupExactly(rs[1..], typ, name, p);
        hide IsPermissionOf;
        IsPermissionOfRest(rs, typ, name, p);
      }
    }
  }

  method FindPermission(ir: ModelIR, typ: string, permission: string) returns (r: Option<Permission>)
    ensures r == LookupPermission(ir.resources, typ, permission)
    ensures forall p :: r == Some(p) <==> IsPermissionOf(ir.resources, typ, permission, p)
  {
    forall p ensures LookupPermission(ir.resources, typ, permission) == Some(p) <==>
      IsPermissionOf(ir.resources, typ, permission, p) {
      LookupExactly(ir.resources, typ, permission, p);
    }
    hide IsPermissionOf;
    for i := 0 to |ir.resources|
      invariant LookupPermission(ir.resources, typ, permission) == LookupPermission(ir.resources[i..], typ, permission)
    {
      if ir.resources[i].name != typ {
        continue;
      }
      var ps := ir.resources[i].permissions;
      for j := 0 to |ps|
        invariant PermissionNamed(ps, permission) == PermissionNamed(ps[j..], permission)
      {
        if ps[j].name == permission {
          return Some(ps[j]);
        }
      }
      return None;
    }
    return None;
  }

  // ---------------------------------------------------------------------------
  // What a permission means: the least relation closed under its two rules.

  function PermissionOn(s: Setting, permission: string, obj: string): Option<Permission> {
    match SplitObject(obj)
    case None => None
    case Some(parts) => LookupPermission(s.ir.resources, parts.0, permission)
  }

  ghost predicate HoldsRole(s: Setting, user: string, role: string, obj: string) {
    s.gateway.check(user, role, obj) == Answered(true)
  }

  /** Some granting role of the permission checks true on the object itself. */
  ghost predicate Grants(s: Setting, user: string, permission: string, obj: string) {
    match PermissionOn(s, permission, obj)
    case None => false
    case Some(perm) => exists role :: role in perm.grantedByRoles && HoldsRole(s, user, role, obj)
  }

  /** A stored tuple makes `parent` a parent of `object` along an inherited relation. */
  ghost predicate Inherits(s: Setting, permission: string, obj: string, relation: string, parent: string) {
    match PermissionOn(s, permission, obj)
    case None => false
    case Some(perm) =>
      && relation in perm.inheritFromParents
      && var tuples := s.gateway.read(obj, relation);
         tuples.Answered? && parent in tuples.value
  }

  ghost predicate CanWithin(s: Setting, user: string, permission: string, obj: string, n: nat)
    decreases n
  {
    || Grants(s, user, permission, obj)
    || (n > 0 && exists relation, parent ::
          Inherits(s, permission, obj, relation, parent) && CanWithin(s, user, permission, parent, n - 1))
  }

  ghost predicate Can(s: Setting, user: string, permission: string, obj: string) {
    exists n: nat :: CanWithin(s, user, permission, obj, n)
  }

  /** A chain of n inherited parent tuples starts at the object, through objects that differ from each other
      and from those seen, none of which grants the permission itself. */
  ghost predicate FreshChain(s: Setting, user: string, permission: string, obj: string, n: nat, seen: set<string>)
    decreases n
  {
    || n == 0
    || (&& VisitKey(permission, obj) !in seen
        && !Grants(s, user, permission, obj)
        && exists relation, parent ::
             && Inherits(s, permission, obj, relation, parent)
             && FreshChain(s, user, permission, parent, n - 1, seen + {VisitKey(permission, obj)}))
  }

  /** Some parent along an inherited relation starts such a chain. */
  ghost predicate FreshParent(s: Setting, user: string, permission: string, obj: string, n: nat, seen: set<string>) {
    exists relation, parent ::
      Inherits(s, permission, obj, relation, parent) && FreshChain(s, user, permission, parent, n, seen)
  }

  lemma {:induction false} FreshOfMore(s: Setting, user: string, permission: string, obj: string, n: nat,
      seen: set<string>, more: set<string>)
    requires FreshChain(s, user, permission, obj, n, more) && seen <= more
    ensures FreshChain(s, user, permission, obj, n, seen)
    decreases n
  {
    if n > 0 {
      var key := VisitKey(permission, obj);
      var relation, parent :|
        Inherits(s, permission, obj, relation, parent) && FreshChain(s, user, permission, parent, n - 1, more + {key});
      hide Inherits, Grants, VisitKey;
      FreshOfMore(s, user, permission, parent, n - 1, seen + {key}, more + {key});
    }
  }

  lemma FreshParentOfMore(s: Setting, user: string, permission: string, obj: string, n: nat, seen: set<string>,
      more: set<string>)
    requires FreshParent(s, user, permission, obj, n, more) && seen <= more
    ensures FreshParent(s, user, permission, obj, n, seen)
  {
    hide Inherits, FreshChain;
    var relation, parent :|
      Inherits(s, permission, obj, relation, parent) && FreshChain(s, user, permission, parent, n, more);
    FreshOfMore(s, user, permission, parent, n, seen, more);
  }

  /** Can is a fixpoint of the two rules: it unfolds, one step at a time, in both directions. */
  lemma CanUnfolds(s: Setting, user: string, permission: string, obj: string)
    ensures Can(s, user, permission, obj) <==>
            Grants(s, user, permission, obj)
            || exists relation, parent ::
                 Inherits(s, permission, obj, relation, parent) && Can(s, user, permission, parent)
  {
    if Grants(s, user, permission, obj) {
      assert CanWithin(s, user, permission, obj, 0);
    } else if Can(s, user, permission, obj) {
      var n: nat :| CanWithin(s, user, permission, obj, n);
      var relation, parent :|
        Inherits(s, permission, obj, relation, parent) && CanWithin(s, user, permission, parent, n - 1);
      assert Can(s, user, permission, parent);
    }
    if relation, parent :|
      Inherits(s, permission, obj, relation, parent) && Can(s, user, permission, parent)
    {
      var n: nat :| CanWithin(s, user, permission, parent, n);
      assert CanWithin(s, user, permission, obj, n + 1);
    }
  }

  /** ... and it is the least one: any set of objects closed under both rules contains it. */
  lemma {:induction false} CanIsLeast(s: Setting, user: string, permission: string, closed: string -> bool, obj: string,
      n: nat)
    requires forall o :: Grants(s, user, permission, o) ==> closed(o)
    requires forall o, relation, parent :: Inherits(s, permission, o, relation, parent) && closed(parent) ==> closed(o)
    requires CanWithin(s, user, permission, obj, n)
    ensures closed(obj)
    decreases n
  {
    if !Grants(s, user, permission, obj) {
      var relation, parent :|
        Inherits(s, permission, obj, relation, parent) && CanWithin(s, user, permission, parent, n - 1);
      CanIsLeast(s, user, permission, closed, parent, n - 1);
    }
  }

  // ---------------------------------------------------------------------------
  // The search, as a function of the visited set it starts from.

  datatype Outcome = Outcome(result: WitnessResult, visited: set<string>)

  function GrantingRole(s: Setting, user: string, roles: seq<string>, obj: string): Answer<Option<string>> {
    if roles == [] then Answered(None)
    else match s.gateway.check(user, roles[0], obj)
      case Failed => Failed
      case Answered(true) => Answered(Some(roles[0]))
      case Answered(false) => GrantingRole(s, user, roles[1..], obj)
  }

  /** The group object of a "<group>#member" subject. */
  function MemberUserset(subject: string): Option<string> {
    var hash := IndexOf(subject, '#');
    if hash > 0 && subject[hash + 1..] == "member" then Some(subject[..hash]) else None
  }

  /** First group among the tuples whose membership checks true. */
  function ConfirmedGroup(s: Setting, user: string, tuples: seq<string>): Answer<Option<string>> {
    if tuples == [] then Answered(None)
    else match MemberUserset(tuples[0])
      case None => ConfirmedGroup(s, user, tuples[1..])
      case Some(group) =>
        match s.gateway.check(user, "member", group)
        case Failed => Failed
        case Answered(true) => Answered(Some(group))
        case Answered(false) => ConfirmedGroup(s, user, tuples[1..])
  }

  /** The role step, and whether it is incomplete (neither direct nor through a confirmed group). */
  function ClassifiedRole(s: Setting, user: string, role: string, obj: string, onType: string): Answer<(ReasonStep,
      bool)> {
    match s.gateway.read(obj, role)
    case Failed => Failed
    case Answered(tuples) =>
      if user in tuples then Answered((RoleStep(role, onType, true, None, None), false))
      else match ConfirmedGroup(s, user, tuples)
        case Failed => Failed
        case Answered(None) => Answered((RoleStep(role, onType, false, None, None), true))
        case Answered(Some(group)) =>
          Answered((RoleStep(role, onType, false, Some(TypeOr(group, group)), Some(group)), false))
  }

  function Search(s: Setting, user: string, permission: string, obj: string, depth: nat,
      visited: set<string>): Answer<Outcome>
    requires depth <= MAX_DEPTH + 1
    decreases MAX_DEPTH + 1 - depth, 2, 0
  {
    var key := VisitKey(permission, obj);
    if depth > MAX_DEPTH then Answered(Outcome(NotFound(true), visited))
    else if key in visited then Answered(Outcome(NotFound(false), visited))
    else match PermissionOn(s, permission, obj)
      case None => Answered(Outcome(NotFound(false), visited + {key}))
      case Some(perm) =>
        match GrantingRole(s, user, perm.grantedByRoles, obj)
        case Failed => Failed
        case Answered(None) =>
          SearchParents(s, user, permission, obj, perm.inheritFromParents, depth, visited + {key}, false)
        case Answered(Some(role)) =>
          match ClassifiedRole(s, user, role, obj, TypeOr(obj, obj))
          case Failed => Failed
          case Answered(c) => Answered(Outcome(WitnessResult(true, [c.0], c.1), visited + {key}))
  }

  function SearchParents(s: Setting, user: string, permission: string, obj: string, relations: seq<string>,
                         depth: nat, visited: set<string>, sawTruncation: bool): Answer<Outcome>
    requires depth <= MAX_DEPTH
    decreases MAX_DEPTH + 1 - depth, 1, |relations|
  {
    if relations == [] then Answered(Outcome(NotFound(sawTruncation), visited))
    else match s.gateway.read(obj, relations[0])
      case Failed => Failed
      case Answered(tuples) =>
        match SearchTuples(s, user, permission, relations[0], tuples, depth, visited, sawTruncation)
        case Failed => Failed
        case Answered(out) =>
          if out.result.found then Answered(out)
          else SearchParents(s, user, permission, obj, relations[1..], depth, out.visited, out.result.truncated)
  }

  function SearchTuples(s: Setting, user: string, permission: string, relation: string, tuples: seq<string>,
                        depth: nat, visited: set<string>, sawTruncation: bool): Answer<Outcome>
    requires depth <= MAX_DEPTH
    decreases MAX_DEPTH + 1 - depth, 0, |tuples|
  {
    if tuples == [] then Answered(Outcome(NotFound(sawTruncation), visited))
    else match Search(s, user, permission, tuples[0], depth + 1, visited)
      case Failed => Failed
      case Answered(out) =>
        if out.result.found then
          var step := ParentStep(relation, TypeOr(tuples[0], relation), tuples[0]);
          Answered(Outcome(WitnessResult(true, [step] + out.result.path, out.result.truncated), out.visited))
        else
          SearchTuples(s, user, permission, relation, tuples[1..], depth, out.visited, sawTruncation
            || out.result.truncated)
  }

  // ---------------------------------------------------------------------------
  // What the role step reports, by the stored tuples and the server's answers.

  /** t is the part of the object before its first colon, or the fallback when it has none. */
  ghost predicate IsTypeOf(t: string, obj: string, fallback: string) {
    if ':' in obj then ':' !in t && t + ":" <= obj else t == fallback
  }

  lemma TypeOrIsType(obj: string, fallback: string)
    ensures IsTypeOf(TypeOr(obj, fallback), obj, fallback)
  {
    var i := IndexOf(obj, ':');
    if i >= 0 {
      assert obj[..i] + ":" == obj[..i + 1];
      assert ':' !in obj[..i];
    }
  }

  /** The tuples hold the members of group g, and the server says that the user is one. */
  ghost predicate Confirmed(s: Setting, user: string, tuples: seq<string>, g: string) {
    g != "" && '#' !in g && g + "#member" in tuples && s.gateway.check(user, "member", g) == Answered(true)
  }

  /** g is confirmed by some tuple, and no group in a tuple before that one is. */
  ghost predicate FirstConfirmed(s: Setting, user: string, tuples: seq<string>, g: string) {
    exists i :: 0 <= i < |tuples| && tuples[i] == g + "#member" && Confirmed(s, user, tuples, g)
      && forall h :: !Confirmed(s, user, tuples[..i], h)
  }

  /** The step reports a direct role exactly when the user is among the stored tuples, a group exactly when it is the
      first one confirmed, and it is incomplete exactly when it reports neither. */
  ghost predicate ReportsRole(s: Setting, user: string, role: string, obj: string, step: ReasonStep, incomplete: bool) {
    && step.RoleStep? && step.role == role
    && s.gateway.read(obj, role).Answered?
    && var tuples := s.gateway.read(obj, role).value;
       && (step.direct <==> user in tuples)
       && (step.group.Some? <==> step.groupObject.Some?)
       && (step.groupObject.Some? <==> !step.direct && exists g :: Confirmed(s, user, tuples, g))
       && (step.groupObject.Some? ==>
             && FirstConfirmed(s, user, tuples, step.groupObject.value)
             && IsTypeOf(step.group.value, step.groupObject.value, step.groupObject.value))
       && (incomplete <==> user !in tuples && !exists g :: Confirmed(s, user, tuples, g))
  }

  lemma UsersetRead(t: string)
    requires MemberUserset(t).Some?
    ensures var g := MemberUserset(t).value; g != "" && '#' !in g && t == g + "#member"
  {
    var hash := IndexOf(t, '#');
    assert t == t[..hash] + [t[hash]] + t[hash + 1..];
    assert '#' !in t[..hash];
  }

  /** The group of a userset is what stands before its "#member". */
  lemma UsersetOf(t: string, g: string)
    ensures MemberUserset(t) == Some(g) <==> g != "" && '#' !in g && t == g + "#member"
  {
    if MemberUserset(t).Some? {
      UsersetRead(t);
    }
    if g != "" && '#' !in g && t == g + "#member" {
      assert t[|g|] == '#' && t[..|g|] == g && t[|g| + 1..] == "member";
      assert forall k :: 0 <= k < |g| ==> t[k] == g[k];
      assert IndexOf(t, '#') == |g|;
    }
  }

  lemma FirstUserset(t: string)
    ensures forall g :: MemberUserset(t) == Some(g) <==> g != "" && '#' !in g && t == g + "#member"
  {
    forall g ensures MemberUserset(t) == Some(g) <==> g != "" && '#' !in g && t == g + "#member" {
      UsersetOf(t, g);
    }
  }

  /** The first tuple, or a later one, confirms a group. */
  lemma ConfirmedBefore(s: Setting, user: string, t: string, rest: seq<string>, g: string)
    ensures Confirmed(s, user, [t] + rest, g) <==>
            (MemberUserset(t) == Some(g) && s.gateway.check(user, "member", g) == Answered(true))
            || Confirmed(s, user, rest, g)
  {
    FirstUserset(t);
    assert forall x :: x in [t] + rest <==> x == t || x in rest;
    hide MemberUserset;
  }

  lemma FirstConfirmedLater(s: Setting, user: string, t: string, rest: seq<string>, g: string)
    requires FirstConfirmed(s, user, rest, g)
    requires forall h :: MemberUserset(t) == Some(h) ==> s.gateway.check(user, "member", h) != Answered(true)
    ensures FirstConfirmed(s, user, [t] + rest, g)
  {
    var i :| 0 <= i < |rest| && rest[i] == g + "#member" && Confirmed(s, user, rest, g)
      && forall h :: !Confirmed(s, user, rest[..i], h);
    var tuples := [t] + rest;
    var before := rest[..i];
    assert tuples[i + 1] == rest[i] && tuples[..i + 1] == [t] + before;
    hide Confirmed, MemberUserset;
    ConfirmedBefore(s, user, t, rest, g);
    forall h ensures !Confirmed(s, user, [t] + before, h) {
      ConfirmedBefore(s, user, t, before, h);
    }
  }

  lemma FirstConfirmedNow(s: Setting, user: string, t: string, rest: seq<string>, g: string)
    requires MemberUserset(t) == Some(g) && s.gateway.check(user, "member", g) == Answered(true)
    ensures FirstConfirmed(s, user, [t] + rest, g)
  {
    var tuples := [t] + rest;
    ConfirmedBefore(s, user, t, rest, g);
    FirstUserset(t);
    assert tuples[0] == t && tuples[..0] == [];
    hide MemberUserset;
  }

  lemma {:induction false} ConfirmedGroupIsFirst(s: Setting, user: string, tuples: seq<string>)
    ensures match ConfirmedGroup(s, user, tuples)
            case Failed => true
            case Answered(None) => forall g :: !Confirmed(s, user, tuples, g)
            case Answered(Some(g)) => FirstConfirmed(s, user, tuples, g)
  {
    if tuples != [] {
      var (t, rest) := (tuples[0], tuples[1..]);
      assert tuples == [t] + rest;
      ConfirmedGroupIsFirst(s, user, rest);
      var now := MemberUserset(t);
      hide MemberUserset, Confirmed, FirstConfirmed;
      forall g ensures Confirmed(s, user, tuples, g) <==>
        (now == Some(g) && s.gateway.check(user, "member", g) == Answered(true)) || Confirmed(s, user, rest, g) {
        ConfirmedBefore(s, user, t, rest, g);
      }
      if now.Some? && s.gateway.check(user, "member", now.value) == Answered(true) {
        FirstConfirmedNow(s, user, t, rest, now.value);
      } else if ConfirmedGroup(s, user, tuples).Answered? && ConfirmedGroup(s, user, tuples).value.Some? {
        FirstConfirmedLater(s, user, t, rest, ConfirmedGroup(s, user, tuples).value.value);
      }
    }
  }

  lemma ClassifiedRoleReports(s: Setting, user: string, role: string, obj: string, onType: string)
    requires ClassifiedRole(s, user, role, obj, onType).Answered?
    ensures var c := ClassifiedRole(s, user, role, obj, onType).value;
            ReportsRole(s, user, role, obj, c.0, c.1) && c.0.on == onType
  {
    var tuples := s.gateway.read(obj, role).value;
    ConfirmedGroupIsFirst(s, user, tuples);
    hide ConfirmedGroup, TypeOr, IsTypeOf;
    if ConfirmedGroup(s, user, tuples).Answered? && ConfirmedGroup(s, user, tuples).value.Some? {
      var g := ConfirmedGroup(s, user, tuples).value.value;
      TypeOrIsType(g, g);
      assert FirstConfirmed(s, user, tuples, g) ==> Confirmed(s, user, tuples, g);
    }
  }

  // ---------------------------------------------------------------------------
  // Properties of the search.

  /** The role is the first of those listed that checks true. */
  ghost predicate FirstHolding(s: Setting, user: string, roles: seq<string>, obj: string, role: string) {
    exists i :: 0 <= i < |roles| && roles[i] == role && HoldsRole(s, user, role, obj)
      && forall k :: 0 <= k < i ==> !HoldsRole(s, user, roles[k], obj)
  }

  /** Every parent step leaves an object with no granting role that checks true, by a stored tuple along an inherited
      relation; the last step is the first granting role that checks true, reported as the tuples and the server have
      it, and the path is partial exactly when it is incomplete there. */
  ghost predicate RealPath(s: Setting, user: string, permission: string, obj: string, path: seq<ReasonStep>,
      partial: bool)
    decreases |path|
  {
    && path != []
    && match path[0]
       case RoleStep(role, on, _, _, _) =>
         && |path| == 1
         && PermissionOn(s, permission, obj).Some?
         && FirstHolding(s, user, PermissionOn(s, permission, obj).value.grantedByRoles, obj, role)
         && IsTypeOf(on, obj, obj)
         && ReportsRole(s, user, role, obj, path[0], partial)
       case ParentStep(relation, parent, parentObject) =>
         && !Grants(s, user, permission, obj)
         && Inherits(s, permission, obj, relation, parentObject)
         && IsTypeOf(parent, parentObject, relation)
         && RealPath(s, user, permission, parentObject, path[1..], partial)
  }

  /** The objects a path passes through, its start included. */
  function PathObjects(obj: string, path: seq<ReasonStep>): seq<string>
    decreases |path|
  {
    if path == [] || path[0].RoleStep? then [obj]
    else [obj] + PathObjects(path[0].parentObject, path[1..])
  }

  /** Everything newly visited between the two sets grants nothing itself and has all its parents visited. */
  ghost predicate Exhausted(s: Setting, user: string, permission: string, before: set<string>, after: set<string>) {
    forall o {:trigger VisitKey(permission, o)} ::
      VisitKey(permission, o) in after && VisitKey(permission, o) !in before ==>
        && !Grants(s, user, permission, o)
        && forall relation, parent ::
             Inherits(s, permission, o, relation, parent) ==> VisitKey(permission, parent) in after
  }

  /** What every part of the search guarantees about its outcome. */
  ghost predicate Guarantee(s: Setting, user: string, permission: string, visited: set<string>, out: Outcome) {
    && visited <= out.visited
    && (!out.result.found && !out.result.truncated ==> Exhausted(s, user, permission, visited, out.visited))
  }

  ghost predicate FreshObjects(permission: string, objects: seq<string>, visited: set<string>) {
    && Distinct(objects)
    && forall o :: o in objects ==> VisitKey(permission, o) !in visited
  }

  lemma {:induction false} GrantingRoleDecides(s: Setting, user: string, roles: seq<string>, obj: string)
    ensures match GrantingRole(s, user, roles, obj)
            case Failed => true
            case Answered(Some(role)) => FirstHolding(s, user, roles, obj, role)
            case Answered(None) => forall role :: role in roles ==> !HoldsRole(s, user, role, obj)
  {
    if roles != [] {
      GrantingRoleDecides(s, user, roles[1..], obj);
      if s.gateway.check(user, roles[0], obj) == Answered(true) {
        assert roles[0] == roles[0];
      } else if GrantingRole(s, user, roles, obj).Answered? && GrantingRole(s, user, roles, obj).value.Some? {
        FirstHoldingLater(s, user, roles, obj, GrantingRole(s, user, roles, obj).value.value);
      }
    }
  }

  lemma FirstHoldingLater(s: Setting, user: string, roles: seq<string>, obj: string, role: string)
    requires roles != [] && !HoldsRole(s, user, roles[0], obj) && FirstHolding(s, user, roles[1..], obj, role)
    ensures FirstHolding(s, user, roles, obj, role)
  {
    var rest := roles[1..];
    var i :| 0 <= i < |rest| && rest[i] == role && HoldsRole(s, user, role, obj)
      && forall k :: 0 <= k < i ==> !HoldsRole(s, user, rest[k], obj);
    hide HoldsRole;
    assert roles[i + 1] == role;
    assert forall k :: 0 < k < i + 1 ==> roles[k] == rest[k - 1];
  }

  /** A role that checks true, reported, is a path of one step. */
  lemma RoleIsPath(s: Setting, user: string, permission: string, obj: string, role: string)
    requires PermissionOn(s, permission, obj).Some?
    requires FirstHolding(s, user, PermissionOn(s, permission, obj).value.grantedByRoles, obj, role)
    requires ClassifiedRole(s, user, role, obj, TypeOr(obj, obj)).Answered?
    ensures var c := ClassifiedRole(s, user, role, obj, TypeOr(obj, obj)).value;
            RealPath(s, user, permission, obj, [c.0], c.1) && c.0.RoleStep?
  {
    hide ClassifiedRole, ReportsRole, PermissionOn, FirstHolding, TypeOr, IsTypeOf;
    TypeOrIsType(obj, obj);
    ClassifiedRoleReports(s, user, role, obj, TypeOr(obj, obj));
    StepOf(s, user, role, obj, ClassifiedRole(s, user, role, obj, TypeOr(obj, obj)).value);
  }

  lemma StepOf(s: Setting, user: string, role: string, obj: string, c: (ReasonStep, bool))
    requires ReportsRole(s, user, role, obj, c.0, c.1)
    ensures c.0.RoleStep? && c.0.role == role
  {
  }

  lemma {:induction false} SearchGuarantee(s: Setting, user: string, permission: string, obj: string, depth: nat,
      visited: set<string>)
    requires depth <= MAX_DEPTH + 1
    requires Search(s, user, permission, obj, depth, visited).Answered?
    ensures var out := Search(s, user, permission, obj, depth, visited).value;
            && Guarantee(s, user, permission, visited, out)
            && (out.result.found ==>
                  && RealPath(s, user, permission, obj, out.result.path, out.result.truncated)
                  && |out.result.path| <= MAX_DEPTH + 1 - depth
                  && FreshObjects(permission, PathObjects(obj, out.result.path), visited))
            && (!out.result.found && !out.result.truncated ==> VisitKey(permission, obj) in out.visited)
            && (!out.result.found && out.result.truncated ==>
                  FreshChain(s, user, permission, obj, MAX_DEPTH + 1 - depth, visited))
    decreases MAX_DEPTH + 1 - depth, 2, 0
  {
    var key := VisitKey(permission, obj);
    var perm := PermissionOn(s, permission, obj);
    if depth <= MAX_DEPTH && key !in visited {
      forall o | VisitKey(permission, o) == key ensures o == obj {
        VisitKeyInjective(permission, o, obj);
      }
      if perm.Some? {
        hide ClassifiedRole, ReportsRole, FirstHolding, IsTypeOf, TypeOr;
        GrantingRoleDecides(s, user, perm.value.grantedByRoles, obj);
        var found := GrantingRole(s, user, perm.value.grantedByRoles, obj);
        if found.Answered? && found.value.Some? {
          RoleIsPath(s, user, permission, obj, found.value.value);
        }
        if found == Answered(None) {
          ParentsGuarantee(s, user, permission, obj, perm.value.inheritFromParents, depth, visited + {key}, false);
        }
      }
    }
  }

  lemma {:induction false} ParentsGuarantee(s: Setting, user: string, permission: string, obj: string,
      relations: seq<string>,
                                            depth: nat, visited: set<string>, sawTruncation: bool)
    requires depth <= MAX_DEPTH
    requires PermissionOn(s, permission, obj).Some? && !Grants(s, user, permission, obj)
    requires forall r :: r in relations ==> r in PermissionOn(s, permission, obj).value.inheritFromParents
    requires VisitKey(permission, obj) in visited
    requires SearchParents(s, user, permission, obj, relations, depth, visited, sawTruncation).Answered?
    ensures var out := SearchParents(s, user, permission, obj, relations, depth, visited, sawTruncation).value;
            && Guarantee(s, user, permission, visited, out)
            && (out.result.found ==>
                  && RealPath(s, user, permission, obj, out.result.path, out.result.truncated)
                  && |out.result.path| <= MAX_DEPTH + 1 - depth
                  && out.result.path[0].ParentStep?
                  && FreshObjects(permission, PathObjects(obj, out.result.path)[1..], visited))
            && (!out.result.found && !out.result.truncated ==>
                  && !sawTruncation
                  && forall r, p ::
                       r in relations && Inherits(s, permission, obj, r, p) ==> VisitKey(permission, p) in out.visited)
            && (!out.result.found && out.result.truncated ==>
                  sawTruncation || FreshParent(s, user, permission, obj, MAX_DEPTH - depth, visited))
    decreases MAX_DEPTH + 1 - depth, 1, |relations|
  {
    if relations != [] {
      var tuples := s.gateway.read(obj, relations[0]).value;
      TuplesGuarantee(s, user, permission, obj, relations[0], tuples, depth, visited, sawTruncation);
      var first := SearchTuples(s, user, permission, relations[0], tuples, depth, visited, sawTruncation).value;
      if !first.result.found {
        ParentsGuarantee(s, user, permission, obj, relations[1..], depth, first.visited, first.result.truncated);
        if FreshParent(s, user, permission, obj, MAX_DEPTH - depth, first.visited) {
          FreshParentOfMore(s, user, permission, obj, MAX_DEPTH - depth, visited, first.visited);
        }
      }
    }
  }

  lemma {:induction false} TuplesGuarantee(s: Setting, user: string, permission: string, obj: string, relation: string,
      tuples: seq<string>,
                                           depth: nat, visited: set<string>, sawTruncation: bool)
    requires depth <= MAX_DEPTH && !Grants(s, user, permission, obj)
    requires forall t :: t in tuples ==> Inherits(s, permission, obj, relation, t)
    requires VisitKey(permission, obj) in visited
    requires SearchTuples(s, user, permission, relation, tuples, depth, visited, sawTruncation).Answered?
    ensures var out := SearchTuples(s, user, permission, relation, tuples, depth, visited, sawTruncation).value;
            && Guarantee(s, user, permission, visited, out)
            && (out.result.found ==>
                  && RealPath(s, user, permission, obj, out.result.path, out.result.truncated)
                  && |out.result.path| <= MAX_DEPTH + 1 - depth
                  && out.result.path[0].ParentStep?
                  && FreshObjects(permission, PathObjects(obj, out.result.path)[1..], visited))
            && (!out.result.found && !out.result.truncated ==>
                  && !sawTruncation
                  && forall t :: t in tuples ==> VisitKey(permission, t) in out.visited)
            && (!out.result.found && out.result.truncated ==>
                  sawTruncation || FreshParent(s, user, permission, obj, MAX_DEPTH - depth, visited))
    decreases MAX_DEPTH + 1 - depth, 0, |tuples|
  {
    if tuples != [] {
      hide Search, FreshChain, Grants, PermissionOn, TypeOr, IsTypeOf, FirstHolding, ReportsRole, VisitKey, SplitObject;
      SearchGuarantee(s, user, permission, tuples[0], depth + 1, visited);
      var first := Search(s, user, permission, tuples[0], depth + 1, visited).value;
      assert tuples[0] in tuples && Inherits(s, permission, obj, relation, tuples[0]);
      if first.result.found {
        var step := ParentStep(relation, TypeOr(tuples[0], relation), tuples[0]);
        var path := [step] + first.result.path;
        assert path[1..] == first.result.path;
        TypeOrIsType(tuples[0], relation);
        assert PathObjects(obj, path)[1..] == PathObjects(tuples[0], first.result.path);
      } else {
        TuplesGuarantee(s, user, permission, obj, relation, tuples[1..], depth, first.visited, sawTruncation
          || first.result.truncated);
        if FreshParent(s, user, permission, obj, MAX_DEPTH - depth, first.visited) {
          FreshParentOfMore(s, user, permission, obj, MAX_DEPTH - depth, visited, first.visited);
        }
      }
    }
  }

  /** A visited set that is exhausted from nothing contains no object that can. */
  lemma {:induction false} ExhaustedRefutes(s: Setting, user: string, permission: string, after: set<string>,
      obj: string, n: nat)
    requires Exhausted(s, user, permission, {}, after)
    requires VisitKey(permission, obj) in after
    ensures !CanWithin(s, user, permission, obj, n)
    decreases n
  {
    if n > 0 {
      forall relation, parent | Inherits(s, permission, obj, relation, parent)
        ensures !CanWithin(s, user, permission, parent, n - 1)
      {
        ExhaustedRefutes(s, user, permission, after, parent, n - 1);
      }
    }
  }

  lemma {:induction false} RealPathProves(s: Setting, user: string, permission: string, obj: string,
      path: seq<ReasonStep>, partial: bool)
    requires RealPath(s, user, permission, obj, path, partial)
    ensures CanWithin(s, user, permission, obj, |path| - 1)
    decreases |path|
  {
    if path[0].ParentStep? {
      RealPathProves(s, user, permission, path[0].parentObject, path[1..], partial);
    }
  }

  /** A clean "not found" is a proof that no chain of parents reaches a granting role, cycles or not. */
  lemma CleanMissIsComplete(s: Setting, user: string, permission: string, obj: string)
    requires Search(s, user, permission, obj, 0, {}).Answered?
    requires var r := Search(s, user, permission, obj, 0, {}).value.result; !r.found && !r.truncated
    ensures !Can(s, user, permission, obj)
  {
    SearchGuarantee(s, user, permission, obj, 0, {});
    var after := Search(s, user, permission, obj, 0, {}).value.visited;
    forall n: nat ensures !CanWithin(s, user, permission, obj, n) {
      ExhaustedRefutes(s, user, permission, after, obj, n);
    }
  }

  lemma {:induction false} CanWithinLonger(s: Setting, user: string, permission: string, obj: string, n: nat, m: nat)
    requires CanWithin(s, user, permission, obj, n) && n <= m
    ensures CanWithin(s, user, permission, obj, m)
    decreases n
  {
    if !Grants(s, user, permission, obj) {
      var relation, parent :|
        Inherits(s, permission, obj, relation, parent) && CanWithin(s, user, permission, parent, n - 1);
      CanWithinLonger(s, user, permission, parent, n - 1, m - 1);
      hide Inherits, Grants;
    }
  }

  /** A reported path is real, at most nine steps long, visits no object twice, and proves the permission, by eight
      parents at most; it is marked as truncated exactly when its last step is incomplete. */
  lemma FoundPathIsReal(s: Setting, user: string, permission: string, obj: string)
    requires Search(s, user, permission, obj, 0, {}).Answered?
    requires Search(s, user, permission, obj, 0, {}).value.result.found
    ensures var r := Search(s, user, permission, obj, 0, {}).value.result;
            && RealPath(s, user, permission, obj, r.path, r.truncated)
            && |r.path| <= 9
            && Distinct(PathObjects(obj, r.path))
            && CanWithin(s, user, permission, obj, MAX_DEPTH)
            && Can(s, user, permission, obj)
  {
    var r := Search(s, user, permission, obj, 0, {}).value.result;
    SearchGuarantee(s, user, permission, obj, 0, {});
    RealPathProves(s, user, permission, obj, r.path, r.truncated);
    hide Search, RealPath, CanWithin;
    CanWithinLonger(s, user, permission, obj, |r.path| - 1, MAX_DEPTH);
  }

  /** A permission that holds, but by no chain of eight parents or fewer, is never found: the search is cut short. */
  lemma DeepPermissionIsCut(s: Setting, user: string, permission: string, obj: string)
    requires Search(s, user, permission, obj, 0, {}).Answered?
    requires Can(s, user, permission, obj) && !CanWithin(s, user, permission, obj, MAX_DEPTH)
    ensures var r := Search(s, user, permission, obj, 0, {}).value.result; !r.found && r.truncated
  {
    hide Search, CanWithin;
    var r := Search(s, user, permission, obj, 0, {}).value.result;
    if r.found {
      FoundPathIsReal(s, user, permission, obj);
    } else if !r.truncated {
      CleanMissIsComplete(s, user, permission, obj);
    }
  }

  /** Where no chain of nine parents starts that avoids cycles, the search decides the permission. */
  lemma ShallowSearchDecides(s: Setting, user: string, permission: string, obj: string)
    requires Search(s, user, permission, obj, 0, {}).Answered?
    requires !FreshChain(s, user, permission, obj, MAX_DEPTH + 1, {})
    ensures Search(s, user, permission, obj, 0, {}).value.result.found <==> Can(s, user, permission, obj)
  {
    SearchGuarantee(s, user, permission, obj, 0, {});
    if Search(s, user, permission, obj, 0, {}).value.result.found {
      FoundPathIsReal(s, user, permission, obj);
    } else {
      CleanMissIsComplete(s, user, permission, obj);
    }
  }

  /** A fresh chain needs as many objects as it has steps. */
  lemma {:induction false} FreshChainNeedsObjects(s: Setting, user: string, permission: string, obj: string, n: nat,
                                                  seen: set<string>, objects: set<string>)
    requires obj in objects && FreshChain(s, user, permission, obj, n, seen)
    requires forall o, relation, parent :: o in objects && Inherits(s, permission, o, relation, parent) ==>
               parent in objects || VisitKey(permission, parent) in seen
    ensures n <= |objects|
    decreases n
  {
    if n > 0 {
      var key := VisitKey(permission, obj);
      var relation, parent :|
        Inherits(s, permission, obj, relation, parent) && FreshChain(s, user, permission, parent, n - 1, seen + {key});
      hide Inherits, Grants;
      if n > 1 {
        assert VisitKey(permission, parent) !in seen + {key};
        assert parent in objects && parent != obj;
        FreshChainNeedsObjects(s, user, permission, parent, n - 1, seen + {key}, objects - {obj});
      }
      assert |objects - {obj}| == |objects| - 1;
    }
  }

  /** In particular where an object and its ancestors are at most eight objects, however they are linked. */
  lemma SmallGraphDecides(s: Setting, user: string, permission: string, obj: string, objects: set<string>)
    requires Search(s, user, permission, obj, 0, {}).Answered?
    requires obj in objects && |objects| <= MAX_DEPTH
    requires forall o, relation, parent ::
            o in objects && Inherits(s, permission, o, relation, parent) ==> parent in objects
    ensures Search(s, user, permission, obj, 0, {}).value.result.found <==> Can(s, user, permission, obj)
  {
    hide Search, Inherits, Can;
    if FreshChain(s, user, permission, obj, MAX_DEPTH + 1, {}) {
      FreshChainNeedsObjects(s, user, permission, obj, MAX_DEPTH + 1, {}, objects);
    } else {
      ShallowSearchDecides(s, user, permission, obj);
    }
  }

  // ---------------------------------------------------------------------------
  // The two loops, one turn at a time.

  /** What is left of the loop over the parents along one relation, from the j-th tuple on. */
  lemma TuplesStep(s: Setting, user: string, permission: string, relation: string, tuples: seq<string>, j: nat,
                   depth: nat, visited: set<string>, sawTruncation: bool)
    requires depth <= MAX_DEPTH && j < |tuples|
    ensures SearchTuples(s, user, permission, relation, tuples[j..], depth, visited, sawTruncation) ==
            match Search(s, user, permission, tuples[j], depth + 1, visited)
            case Failed => Failed
            case Answered(out) =>
              if out.result.found then
                var step := ParentStep(relation, TypeOr(tuples[j], relation), tuples[j]);
                Answered(Outcome(WitnessResult(true, [step] + out.result.path, out.result.truncated), out.visited))
              else
                SearchTuples(s, user, permission, relation, tuples[j + 1..], depth, out.visited, sawTruncation
                  || out.result.truncated)
  {
    assert tuples[j..][1..] == tuples[j + 1..];
    hide Search, TypeOr;
  }

  /** What is left of the loop over the inherited relations, from the i-th on. */
  lemma ParentsStep(s: Setting, user: string, permission: string, obj: string, relations: seq<string>, i: nat,
                    depth: nat, visited: set<string>, sawTruncation: bool)
    requires depth <= MAX_DEPTH && i < |relations|
    ensures SearchParents(s, user, permission, obj, relations[i..], depth, visited, sawTruncation) ==
            match s.gateway.read(obj, relations[i])
            case Failed => Failed
            case Answered(tuples) =>
              match SearchTuples(s, user, permission, relations[i], tuples, depth, visited, sawTruncation)
              case Failed => Failed
              case Answered(out) =>
                if out.result.found then Answered(out)
                else SearchParents(s, user, permission, obj, relations[i
                  + 1..], depth, out.visited, out.result.truncated)
  {
    assert relations[i..][1..] == relations[i + 1..];
    hide SearchTuples;
  }

  lemma LoopsEnd(s: Setting, user: string, permission: string, obj: string, relation: string, depth: nat,
      visited: set<string>, sawTruncation: bool)
    requires depth <= MAX_DEPTH
    ensures SearchTuples(s, user, permission, relation, [], depth, visited, sawTruncation) ==
            Answered(Outcome(NotFound(sawTruncation), visited))
    ensures SearchParents(s, user, permission, obj, [], depth, visited, sawTruncation) ==
            Answered(Outcome(NotFound(sawTruncation), visited))
  {
  }

  // ---------------------------------------------------------------------------
  // What the depth bound and the shared visited set cost: a witness of three steps that is missed.

  /** Nodes 0 to 9 of one resource type; node 0 has parents 1 and 8, every other node the next one. */
  function Node(k: nat): string
    requires k <= 9
  {
    "n:" + ["0123456789"[k]]
  }

  function LadderParents(obj: string, relation: string): Answer<seq<string>> {
    if relation != "parent" || |obj| != 3 || obj[..2] != "n:" || !('0' <= obj[2] <= '8') then Answered([])
    else if obj[2] == '0' then Answered([Node(1), Node(8)])
    else Answered([Node((obj[2] - '0') as nat + 1)])
  }

  const LADDER: Setting := Setting(
    ModelIR([], [ResourceType("n", [ParentRef("parent", ["n"])], [Role("viewer", [User(None)])],
                              [Permission("read", ["viewer"], ["parent"])])], None),
    Gateway((user, relation, obj) => Answered(relation == "viewer" && obj == "n:9"), LadderParents))

  lemma LadderNode(k: nat)
    requires k <= 9
    ensures PermissionOn(LADDER, "read", Node(k)) == Some(Permission("read", ["viewer"], ["parent"]))
    ensures forall user :: LADDER.gateway.check(user, "viewer", Node(k)) == Answered(k == 9)
    ensures k <= 8 ==>
            LADDER.gateway.read(Node(k), "parent") == Answered(if k == 0 then [Node(1), Node(8)] else [Node(k + 1)])
  {
    var s := Node(k);
    assert s[0] == 'n' && s[1] == ':';
    assert IndexOf(s, ':') == 1;
    assert s[..1] == "n";
    assert s[..2] == "n:";
  }

  /** A rung that grants nothing ends as its only relation does. */
  lemma RungMisses(user: string, k: nat, depth: nat, visited: set<string>, after: set<string>)
    requires k <= 8 && depth <= MAX_DEPTH
    requires VisitKey("read", Node(k)) !in visited
    requires SearchTuples(LADDER, user, "read", "parent", if k == 0 then [Node(1), Node(8)] else [Node(k + 1)], depth,
                          visited + {VisitKey("read", Node(k))}, false) == Answered(Outcome(NotFound(true), after))
    ensures Search(LADDER, user, "read", Node(k), depth, visited) == Answered(Outcome(NotFound(true), after))
  {
    LadderNode(k);
    assert GrantingRole(LADDER, user, ["viewer"], Node(k)) == Answered(None);
    assert SearchParents(LADDER, user, "read", Node(k), [], depth, after, true) ==
      Answered(Outcome(NotFound(true), after));
    assert ["parent"][1..] == [];
  }

  lemma NodesDiffer(j: nat, k: nat)
    requires j <= 9 && k <= 9 && j != k
    ensures VisitKey("read", Node(j)) != VisitKey("read", Node(k))
  {
    assert Node(j)[2] != Node(k)[2];
    if VisitKey("read", Node(j)) == VisitKey("read", Node(k)) {
      VisitKeyInjective("read", Node(j), Node(k));
    }
  }

  /** Going up the ladder from node k at depth k runs into the depth limit and marks every node on the way. */
  lemma {:induction false} LadderClimb(user: string, k: nat, visited: set<string>) returns (after: set<string>)
    requires 1 <= k <= 8
    requires forall j: nat :: k <= j <= 8 ==> VisitKey("read", Node(j)) !in visited
    ensures Search(LADDER, user, "read", Node(k), k, visited) == Answered(Outcome(NotFound(true), after))
    ensures VisitKey("read", Node(8)) in after
    decreases 9 - k
  {
    LadderNode(k);
    var seen := visited + {VisitKey("read", Node(k))};
    if k < 8 {
      forall j: nat | k < j <= 8 ensures VisitKey("read", Node(j)) !in seen {
        NodesDiffer(j, k);
      }
      after := LadderClimb(user, k + 1, seen);
    } else {
      after := seen;
    }
    assert [Node(k + 1)][1..] == [];
    assert SearchTuples(LADDER, user, "read", "parent", [], k, after, true) == Answered(Outcome(NotFound(true), after));
    RungMisses(user, k, k, visited, after);
  }

  lemma LadderWitness(user: string)
    ensures CanWithin(LADDER, user, "read", Node(0), 2)
  {
    LadderNode(0);
    LadderNode(8);
    LadderNode(9);
    assert "viewer" in ["viewer"] && HoldsRole(LADDER, user, "viewer", Node(9));
    assert Inherits(LADDER, "read", Node(8), "parent", Node(9));
    assert CanWithin(LADDER, user, "read", Node(8), 1);
    assert Inherits(LADDER, "read", Node(0), "parent", Node(8));
  }

  lemma FirstRungFresh(seen: set<string>)
    requires seen == {VisitKey("read", Node(0))}
    ensures forall j: nat :: 1 <= j <= 8 ==> VisitKey("read", Node(j)) !in seen
  {
    forall j: nat | 1 <= j <= 8 ensures VisitKey("read", Node(j)) !in seen {
      NodesDiffer(j, 0);
    }
  }

  lemma LadderMisses(user: string, after: set<string>)
    requires Search(LADDER, user, "read", Node(1), 1, {VisitKey("read", Node(0))}) ==
            Answered(Outcome(NotFound(true), after))
    requires VisitKey("read", Node(8)) in after
    ensures Search(LADDER, user, "read", Node(0), 0, {}) == Answered(Outcome(NotFound(true), after))
  {
    var key := VisitKey("read", Node(0));
    hide *;
    assert {} + {key} == {key};
    AlreadyVisited(user, Node(8), 1, after);
    TwoTuplesMiss(LADDER, user, "read", "parent", Node(1), Node(8), 0, {key}, after);
    RungMisses(user, 0, 0, {}, after);
  }

  /** The witness node 0, node 8, node 9 exists, but node 8 was already expanded at depth 8 and is not
      expanded again: the search misses it, and says so. */
  lemma ShortWitnessMissed(user: string)
    ensures Search(LADDER, user, "read", Node(0), 0, {}).Answered?
    ensures Search(LADDER, user, "read", Node(0), 0, {}).value.result == NotFound(true)
    ensures CanWithin(LADDER, user, "read", Node(0), 2)
  {
    hide *;
    LadderWitness(user);
    var seen := {VisitKey("read", Node(0))};
    FirstRungFresh(seen);
    var after := LadderClimb(user, 1, seen);
    LadderMisses(user, after);
  }

  lemma TwoTuplesMiss(s: Setting, user: string, permission: string, relation: string, a: string, b: string, depth: nat,
                      visited: set<string>, after: set<string>)
    requires depth <= MAX_DEPTH
    requires Search(s, user, permission, a, depth + 1, visited) == Answered(Outcome(NotFound(true), after))
    requires Search(s, user, permission, b, depth + 1, after) == Answered(Outcome(NotFound(false), after))
    ensures SearchTuples(s, user, permission, relation, [a, b], depth, visited, false) ==
            Answered(Outcome(NotFound(true), after))
  {
    var parents := [a, b];
    assert parents[0..] == parents && parents[2..] == [];
    hide Search, SearchTuples, SearchParents;
    TuplesStep(s, user, permission, relation, parents, 0, depth, visited, false);
    TuplesStep(s, user, permission, relation, parents, 1, depth, after, true);
    LoopsEnd(s, user, permission, a, relation, depth, after, true);
  }

  lemma AlreadyVisited(user: string, obj: string, depth: nat, visited: set<string>)
    requires depth <= MAX_DEPTH && VisitKey("read", obj) in visited
    ensures Search(LADDER, user, "read", obj, depth, visited) == Answered(Outcome(NotFound(false), visited))
  {
  }

  // ---------------------------------------------------------------------------
  // The engine itself: one object per explanation, whose visited set the search keeps marking.

  lemma GroupStep(s: Setting, user: string, tuples: seq<string>, i: nat)
    requires i < |tuples|
    ensures ConfirmedGroup(s, user, tuples[i..]) ==
            match MemberUserset(tuples[i])
            case None => ConfirmedGroup(s, user, tuples[i + 1..])
            case Some(group) =>
              match s.gateway.check(user, "member", group)
              case Failed => Failed
              case Answered(true) => Answered(Some(group))
              case Answered(false) => ConfirmedGroup(s, user, tuples[i + 1..])
  {
    assert tuples[i..][1..] == tuples[i + 1..];
    hide MemberUserset;
  }

  lemma NoGroupLeft(s: Setting, user: string)
    ensures ConfirmedGroup(s, user, []) == Answered(None)
  {
  }

  method ClassifyRoleStep(s: Setting, user: string, role: string, obj: string, onType: string)
    returns (r: Answer<(ReasonStep, bool)>)
    ensures r == ClassifiedRole(s, user, role, obj, onType)
    ensures r.Answered? ==> ReportsRole(s, user, role, obj, r.value.0, r.value.1) && r.value.0.on == onType
  {
    if ClassifiedRole(s, user, role, obj, onType).Answered? {
      ClassifiedRoleReports(s, user, role, obj, onType);
    }
    hide ReportsRole;
    hide ConfirmedGroup, MemberUserset, TypeOr;
    var tuples := s.gateway.read(obj, role);
    if tuples.Failed? {
      return Failed;
    }
    for i := 0 to |tuples.value|
      invariant user !in tuples.value[..i]
    {
      if tuples.value[i] == user {
        return Answered((RoleStep(role, onType, true, None, None), false));
      }
    }
    assert user !in tuples.value && tuples.value[0..] == tuples.value;
    for i := 0 to |tuples.value|
      invariant ConfirmedGroup(s, user, tuples.value) == ConfirmedGroup(s, user, tuples.value[i..])
    {
      GroupStep(s, user, tuples.value, i);
      var group := MemberUserset(tuples.value[i]);
      if group.Some? {
        var allowed := s.gateway.check(user, "member", group.value);
        if allowed.Failed? {
          return Failed;
        }
        if allowed.value {
          return Answered((RoleStep(role, onType, false, Some(TypeOr(group.value, group.value)), group), false));
        }
      }
    }
    assert tuples.value[|tuples.value|..] == [];
    NoGroupLeft(s, user);
    return Answered((RoleStep(role, onType, false, None, None), true));
  }

  /** The loop over the granting roles: the first one that checks true. */
  method FirstGrantingRole(s: Setting, user: string, roles: seq<string>, obj: string)
    returns (r: Answer<Option<string>>)
    ensures r == GrantingRole(s, user, roles, obj)
    ensures r.Answered? && r.value.Some? ==> FirstHolding(s, user, roles, obj, r.value.value)
    ensures r == Answered(None) ==> forall role :: role in roles ==> !HoldsRole(s, user, role, obj)
  {
    GrantingRoleDecides(s, user, roles, obj);
    hide FirstHolding;
    for i := 0 to |roles|
      invariant GrantingRole(s, user, roles, obj) == GrantingRole(s, user, roles[i..], obj)
    {
      var allowed := s.gateway.check(user, roles[i], obj);
      if allowed.Failed? {
        return Failed;
      }
      if allowed.value {
        return Answered(Some(roles[i]));
      }
    }
    return Answered(None);
  }

  class Explanation {
    const setting: Setting
    var visited: set<string>
    ghost var expanded: seq<string>  // the keys expanded so far, in order

    /** Each (permission, object) has been expanded at most once. */
    ghost predicate Valid()
      reads this
    {
      && Distinct(expanded)
      && visited == set k | k in expanded
    }

    constructor (setting: Setting)
      ensures Valid() && this.setting == setting && visited == {} && expanded == []
    {
      this.setting := setting;
      visited := {};
      expanded := [];
    }

    method FindWitness(user: string, permission: string, obj: string, depth: nat) returns (r: Answer<WitnessResult>)
      requires Valid() && depth <= MAX_DEPTH + 1
      modifies this
      ensures Valid() && old(expanded) <= expanded
      ensures match Search(setting, user, permission, obj, depth, old(visited))
              case Failed => r.Failed?
              case Answered(out) => r == Answered(out.result) && visited == out.visited
      decreases MAX_DEPTH + 1 - depth
    {
      hide ClassifiedRole, LookupPermission, VisitKey, GrantingRole, SearchParents, SearchTuples;
      if depth > MAX_DEPTH {
        return Answered(NotFound(true));
      }
      var visitKey := VisitKey(permission, obj);
      if visitKey in visited {
        return Answered(NotFound(false));
      }
      visited := visited + {visitKey};
      expanded := expanded + [visitKey];

      var parts := SplitObject(obj);
      if parts.None? {
        return Answered(NotFound(false));
      }
      var perm := FindPermission(setting.ir, parts.value.0, permission);
      if perm.None? {
        return Answered(NotFound(false));
      }

      var role := FirstGrantingRole(setting, user, perm.value.grantedByRoles, obj);
      if role.Failed? {
        return Failed;
      }
      if role.value.Some? {
        var step := ClassifyRoleStep(setting, user, role.value.value, obj, parts.value.0);
        if step.Failed? {
          return Failed;
        }
        return Answered(WitnessResult(true, [step.value.0], step.value.1));
      }

      var sawTruncation := false;
      var relations := perm.value.inheritFromParents;
      ghost var whole := SearchParents(setting, user, permission, obj, relations, depth, visited, false);
      for i := 0 to |relations|
        invariant Valid() && old(expanded) <= expanded
        invariant whole == SearchParents(setting, user, permission, obj, relations[i..], depth, visited, sawTruncation)
      {
        ParentsStep(setting, user, permission, obj, relations, i, depth, visited, sawTruncation);
        var tuples := setting.gateway.read(obj, relations[i]);
        if tuples.Failed? {
          return Failed;
        }
        ghost var part :=
          SearchTuples(setting, user, permission, relations[i], tuples.value, depth, visited, sawTruncation);
        for j := 0 to |tuples.value|
          invariant Valid() && old(expanded) <= expanded
          invariant part == SearchTuples(setting, user, permission, relations[i], tuples.value[j..], depth, visited,
                  sawTruncation)
        {
          TuplesStep(setting, user, permission, relations[i], tuples.value, j, depth, visited, sawTruncation);
          var child := FindWitness(user, permission, tuples.value[j], depth + 1);
          if child.Failed? {
            return Failed;
          }
          if child.value.found {
            var step := ParentStep(relations[i], TypeOr(tuples.value[j], relations[i]), tuples.value[j]);
            return Answered(WitnessResult(true, [step] + child.value.path, child.value.truncated));
          }
          if child.value.truncated {
            sawTruncation := true;
          }
        }
        assert tuples.value[|tuples.value|..] == [];
        LoopsEnd(setting, user, permission, obj, relations[i], depth, visited, sawTruncation);
      }
      assert relations[|relations|..] == [];
      LoopsEnd(setting, user, permission, obj, "", depth, visited, sawTruncation);
      return Answered(NotFound(sawTruncation));
    }
  }

  // ---------------------------------------------------------------------------
  // Explanations: a path for an allowed decision, the missing links for a denied one.

  datatype MissingLink =
    | RoleLink(anyOf: seq<string>, on: string)
    | ParentLink(relation: string, needs: string)

  datatype ReasonResult =
    | Allowed(path: Option<seq<ReasonStep>>, truncated: bool)
    | Denied(missing: seq<MissingLink>)

  function MissingLinks(ir: ModelIR, onType: string, permission: string): seq<MissingLink> {
    match LookupPermission(ir.resources, onType, permission)
    case None => []
    case Some(perm) =>
      (if perm.grantedByRoles != [] then [RoleLink(perm.grantedByRoles, onType)] else [])
      + Map(perm.inheritFromParents, relation => ParentLink(relation, "can_" + permission))
  }

  /** One link for all granting roles, if there are any, and then one for each inherited relation, in order. */
  ghost predicate LinksOf(p: Permission, onType: string, permission: string, links: seq<MissingLink>) {
    var k := if p.grantedByRoles == [] then 0 else 1;
    && |links| == k + |p.inheritFromParents|
    && (k == 1 ==> links[0] == RoleLink(p.grantedByRoles, onType))
    && forall i :: 0 <= i < |p.inheritFromParents| ==>
         links[k + i] == ParentLink(p.inheritFromParents[i], "can_" + permission)
  }

  lemma LinksExactly(ir: ModelIR, onType: string, permission: string)
    ensures var links := MissingLinks(ir, onType, permission);
            && (forall p ::
                 IsPermissionOf(ir.resources, onType, permission, p) ==> LinksOf(p, onType, permission, links))
            && (links != [] ==> exists p :: IsPermissionOf(ir.resources, onType, permission, p))
  {
    forall p ensures LookupPermission(ir.resources, onType, permission) == Some(p) <==>
      IsPermissionOf(ir.resources, onType, permission, p) {
      LookupExactly(ir.resources, onType, permission, p);
    }
    hide IsPermissionOf, LookupPermission;
  }

  method DenyLinks(ir: ModelIR, onType: string, permission: string) returns (links: seq<MissingLink>)
    ensures links == MissingLinks(ir, onType, permission)
  {
    hide LookupPermission, IsPermissionOf;
    links := [];
    var perm := FindPermission(ir, onType, permission);
    if perm.Some? {
      if |perm.value.grantedByRoles| > 0 {
        links := links + [RoleLink(perm.value.grantedByRoles, onType)];
      }
      ghost var roleLinks := links;
      var relations := perm.value.inheritFromParents;
      for i := 0 to |relations|
        invariant links == roleLinks + Map(relations, relation => ParentLink(relation, "can_" + permission))[..i]
      {
        links := links + [ParentLink(relations[i], "can_" + permission)];
      }
    }
  }

  /** Supplying the link would be enough: the role checks true, or a parent along it has the permission. */
  ghost predicate Supplied(s: Setting, user: string, permission: string, obj: string, link: MissingLink) {
    match link
    case RoleLink(anyOf, _) => exists role :: role in anyOf && HoldsRole(s, user, role, obj)
    case ParentLink(relation, needs) =>
      needs == "can_" + permission
      && exists parent :: Inherits(s, permission, obj, relation, parent) && Can(s, user, permission, parent)
  }

  /** The links a denial lists are exactly the ways to have the permission: it holds as soon as one is supplied,
      and only then. */
  lemma DenialListsEveryWay(s: Setting, user: string, permission: string, obj: string)
    requires SplitObject(obj).Some?
    ensures Can(s, user, permission, obj) <==>
            exists link ::
              link in MissingLinks(s.ir, TypeOr(obj, obj), permission) && Supplied(s, user, permission, obj, link)
  {
    CanUnfolds(s, user, permission, obj);
    var links := MissingLinks(s.ir, TypeOr(obj, obj), permission);
    var perm := PermissionOn(s, permission, obj);
    if Grants(s, user, permission, obj) {
      assert perm.value.grantedByRoles != [];
      assert links[0] == RoleLink(perm.value.grantedByRoles, TypeOr(obj, obj));
      assert links[0] in links && Supplied(s, user, permission, obj, links[0]);
    }
    forall relation, parent | Inherits(s, permission, obj, relation, parent) && Can(s, user, permission, parent)
      ensures exists link :: link in links && Supplied(s, user, permission, obj, link)
    {
      var link := ParentLink(relation, "can_" + permission);
      var parentLinks := Map(perm.value.inheritFromParents, r => ParentLink(r, "can_" + permission));
      var i :| 0 <= i < |parentLinks| && perm.value.inheritFromParents[i] == relation;
      assert parentLinks[i] == link && link in parentLinks;
      assert Supplied(s, user, permission, obj, link);
    }
  }

  method Explain(s: Setting, decision: bool, user: string, permission: string, obj: string)
    returns (r: Answer<ReasonResult>)
    ensures r.Answered? ==> r.value.Allowed? == decision
    ensures r.Answered? && !decision ==> r.value == Denied(MissingLinks(s.ir, TypeOr(obj, obj), permission))
    // An allowed decision is explained by a real path, marked as truncated exactly when its last step is incomplete,
    // or is marked as truncated.
    ensures r.Answered? && decision && r.value.path.Some? ==>
              && RealPath(s, user, permission, obj, r.value.path.value, r.value.truncated)
              && |r.value.path.value| <= 9
    ensures r.Answered? && decision && r.value.path.None? ==> r.value.truncated
    // With no chain of nine parents that avoids cycles, the path is given exactly when the permission holds.
    ensures r.Answered? && decision && !FreshChain(s, user, permission, obj, MAX_DEPTH + 1, {}) ==>
              (r.value.path.Some? <==> Can(s, user, permission, obj))
    ensures r.Failed? <==> decision && Search(s, user, permission, obj, 0, {}).Failed?
  {
    if decision {
      var cx := new Explanation(s);
      var w := cx.FindWitness(user, permission, obj, 0);
      if w.Failed? {
        return Failed;
      }
      SearchGuarantee(s, user, permission, obj, 0, {});
      if !FreshChain(s, user, permission, obj, MAX_DEPTH + 1, {}) {
        ShallowSearchDecides(s, user, permission, obj);
      }
      if w.value.found {
        return Answered(Allowed(Some(w.value.path), w.value.truncated));
      }
      return Answered(Allowed(None, true));
    }
    var missing := DenyLinks(s.ir, TypeOr(obj, obj), permission);
    return Answered(Denied(missing));
  }
}
