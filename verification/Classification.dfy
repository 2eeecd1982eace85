/** What each declared relation becomes, stated over the definitions alone. */
module Classification {
  import opened Prelude
  import opened Sorting
  import opened ModelIr
  import opened Condition
  import opened ConditionCel
  import opened Validator
  import opened AuthModel
  import opened Compiler
  import opened Decompiler

  // ---------------------------------------------------------------------------
  // Direct relations.

  ghost predicate KnownConditions(refs: seq<Ref>, conds: set<string>) {
    forall r :: r in refs && r.condition.Some? ==> r.condition.value in conds
  }

  /** user or group#member. */
  ghost predicate OfSubjects(refs: seq<Ref>) {
    refs != [] && forall r :: r in refs ==>
      !r.wildcard && (r.relation == Some("member") || (r.relation == None && r.typ == "user"))
  }

  /** Types other than user, without a condition. */
  ghost predicate OfTypes(refs: seq<Ref>) {
    refs != [] && forall r :: r in refs ==>
      !r.wildcard && r.relation == None && r.condition == None && r.typ != "user"
  }

  ghost predicate Restates(subject: SubjectRef, r: Ref) {
    && subject.condition == r.condition
    && if r.relation == Some("member") then subject.Group? && subject.group == r.typ else subject.User?
  }

  ghost predicate RestatesAll(subjects: seq<SubjectRef>, refs: seq<Ref>) {
    |subjects| == |refs| && forall i :: 0 <= i < |refs| ==> Restates(subjects[i], refs[i])
  }

  ghost predicate BecomesRole(conds: set<string>, x: Relation, role: Role) {
    && x.rewrite.This? && KnownConditions(x.refs, conds) && OfSubjects(x.refs)
    && role.name == x.name && RestatesAll(role.assignableBy, x.refs)
  }

  ghost predicate BecomesParent(conds: set<string>, x: Relation, p: ParentRef) {
    && x.rewrite.This? && KnownConditions(x.refs, conds) && OfTypes(x.refs)
    && p.relationName == x.name && |p.parentTypes| == |x.refs|
    && forall i :: 0 <= i < |x.refs| ==> p.parentTypes[i] == x.refs[i].typ
  }

  /** A direct relation that becomes neither, and why. */
  ghost predicate DirectAside(conds: set<string>, x: Relation, reason: Reason) {
    && x.rewrite.This?
    && if KnownConditions(x.refs, conds) then !OfSubjects(x.refs) && !OfTypes(x.refs) && reason == UNCLASSIFIABLE
       else reason == CONDITION
  }

  lemma NotBoth(refs: seq<Ref>)
    ensures OfSubjects(refs) ==> !OfTypes(refs)
  {
    if OfSubjects(refs) {
      assert refs[0] in refs;
    }
  }

  lemma RestatedOnce(a: seq<SubjectRef>, b: seq<SubjectRef>, refs: seq<Ref>)
    requires RestatesAll(a, refs) && RestatesAll(b, refs)
    ensures a == b
  {
    forall i | 0 <= i < |refs| ensures a[i] == b[i] {
      assert Restates(a[i], refs[i]) && Restates(b[i], refs[i]);
    }
  }

  lemma SubjectsRestate(refs: seq<Ref>)
    ensures RestatesAll(Map(refs, ToSubjectRef), refs)
  {
  }

  lemma ConditionsAreKnown(refs: seq<Ref>, conds: set<string>)
    ensures HasForeignCondition(refs, conds) <==> !KnownConditions(refs, conds)
    ensures AllSubjectRefs(refs) <==> OfSubjects(refs)
    ensures AllResourceRefs(refs) <==> OfTypes(refs)
  {
  }

  lemma RoleExactly(conds: set<string>, x: Relation, role: Role)
    ensures RoleOf(conds)(x) == Some(role) <==> BecomesRole(conds, x, role)
  {
    ConditionsAreKnown(x.refs, conds);
    SubjectsRestate(x.refs);
    hide KnownConditions, OfSubjects, OfTypes, RestatesAll, Map, ToSubjectRef, HasForeignCondition, AllSubjectRefs;
    hide AllResourceRefs;
    if BecomesRole(conds, x, role) {
      RestatedOnce(role.assignableBy, Map(x.refs, ToSubjectRef), x.refs);
    }
  }

  lemma ParentExactly(conds: set<string>, x: Relation, p: ParentRef)
    ensures ParentOf(conds)(x) == Some(p) <==> BecomesParent(conds, x, p)
  {
    ConditionsAreKnown(x.refs, conds);
    NotBoth(x.refs);
    hide KnownConditions, OfSubjects, OfTypes, HasForeignCondition, AllSubjectRefs, AllResourceRefs;
    if BecomesParent(conds, x, p) {
      assert p.parentTypes == Map(x.refs, TypeOfRef);
    }
  }

  lemma DirectExactly(typ: string, conds: set<string>, x: Relation, a: Advanced)
    ensures AdvancedDirect(typ, conds)(x) == Some(a) <==>
            a.typ == typ && a.relation == x.name && DirectAside(conds, x, a.reason)
  {
    ConditionsAreKnown(x.refs, conds);
    hide KnownConditions, OfSubjects, OfTypes, HasForeignCondition, AllSubjectRefs, AllResourceRefs, Map;
  }

  // ---------------------------------------------------------------------------
  // Rewritten relations.

  /** The operands of a union, or the one operand of a rewrite that stands alone. */
  ghost predicate HasOperands(u: Userset, operands: seq<Userset>) {
    || (u.Union? && operands == u.children)
    || ((u.Computed? || u.TupleTo?) && operands == [u])
  }

  /** A role of the type itself. */
  ghost predicate GrantsRole(u: Userset, roles: set<string>) {
    u.Computed? && u.target == "" && u.relation != "" && u.relation in roles
  }

  /** The same relation on a parent. */
  ghost predicate FromParent(u: Userset, name: string, parents: set<string>) {
    u.TupleTo? && u.tupleset != "" && u.tupleset in parents && u.computed == name
  }

  ghost predicate Fits(u: Userset, name: string, roles: set<string>, parents: set<string>) {
    GrantsRole(u, roles) || FromParent(u, name, parents)
  }

  /** Why an operand does not fit. */
  ghost predicate Misfit(u: Userset, reason: Reason) {
    reason == if u.TupleTo? || (u.Computed? && u.target != "") then CROSS_TYPE_USERSET
              else if u.Computed? then NON_ROLE_UNION
              else UNCLASSIFIABLE
  }

  ghost function RoleOperand(): (Userset, string) -> bool {
    (u: Userset, role: string) => u.Computed? && role == u.relation
  }

  ghost function ParentOperand(): (Userset, string) -> bool {
    (u: Userset, relation: string) => u.TupleTo? && relation == u.tupleset
  }

  /** The reason of the first operand that does not fit. */
  ghost predicate FirstMisfit(operands: seq<Userset>, name: string, roles: set<string>, parents: set<string>,
      reason: Reason) {
    exists i :: 0 <= i < |operands| && !Fits(operands[i], name, roles, parents) && Misfit(operands[i], reason)
      && forall k :: 0 <= k < i ==> Fits(operands[k], name, roles, parents)
  }

  ghost predicate AllFit(operands: seq<Userset>, name: string, roles: set<string>, parents: set<string>) {
    forall u :: u in operands ==> Fits(u, name, roles, parents)
  }

  ghost predicate GrantedBy(operands: seq<Userset>, perm: Permission, name: string, roles: set<string>,
      parents: set<string>) {
    && AllFit(operands, name, roles, parents)
    && (exists u :: u in operands && u.Computed?)
    && Picks(operands, perm.grantedByRoles, RoleOperand())
    && Picks(operands, perm.inheritFromParents, ParentOperand())
  }

  /** The first operand that does not fit gives the reason; where all fit, none of them is a role. */
  ghost predicate RefusedFor(operands: seq<Userset>, name: string, roles: set<string>, parents: set<string>,
      reason: Reason) {
    || FirstMisfit(operands, name, roles, parents, reason)
    || (&& reason == NON_ROLE_UNION && AllFit(operands, name, roles, parents)
        && forall u :: u in operands ==> !u.Computed?)
  }

  ghost predicate BecomesPermission(roles: set<string>, parents: set<string>, x: Relation, perm: Permission) {
    && !x.rewrite.This? && x.name == "can_" + perm.name
    && exists operands :: HasOperands(x.rewrite, operands) && GrantedBy(operands, perm, x.name, roles, parents)
  }

  /** A rewritten relation that is no permission, and why. */
  ghost predicate RewriteAside(roles: set<string>, parents: set<string>, x: Relation, reason: Reason) {
    match x.rewrite
    case This => false
    case Intersection(_) => reason == INTERSECTION
    case Difference(_, _) => reason == EXCLUSION
    case _ =>
      if !("can_" <= x.name) then reason == NON_ROLE_UNION
      else exists operands :: HasOperands(x.rewrite, operands) && RefusedFor(operands, x.name, roles, parents, reason)
  }

  lemma OperandOnce(u: Userset, a: seq<Userset>, b: seq<Userset>)
    requires HasOperands(u, a) && HasOperands(u, b)
    ensures a == b
  {
  }

  lemma PicksCons<S, T(!new)>(x: S, s: seq<S>, r: seq<T>, becomes: (S, T) -> bool)
    ensures (exists y :: becomes(x, y)) ==>
              (Picks([x] + s, r, becomes) <==> r != [] && becomes(x, r[0]) && Picks(s, r[1..], becomes))
    ensures !(exists y :: becomes(x, y)) ==> (Picks([x] + s, r, becomes) <==> Picks(s, r, becomes))
  {
    var t := [x] + s;
    assert t[0] == x && t[1..] == s;
  }

  lemma RolePicked(u: Userset, rest: seq<Userset>, roles: seq<string>)
    requires Picks(rest, roles, RoleOperand())
    ensures Picks([u] + rest, (if u.Computed? then [u.relation] else []) + roles, RoleOperand())
  {
    PicksCons(u, rest, (if u.Computed? then [u.relation] else []) + roles, RoleOperand());
    if u.Computed? {
      assert RoleOperand()(u, u.relation) && ([u.relation] + roles)[1..] == roles;
    } else {
      assert [] + roles == roles;
    }
  }

  lemma ParentPicked(u: Userset, rest: seq<Userset>, parents: seq<string>)
    requires Picks(rest, parents, ParentOperand())
    ensures Picks([u] + rest, (if u.TupleTo? then [u.tupleset] else []) + parents, ParentOperand())
  {
    PicksCons(u, rest, (if u.TupleTo? then [u.tupleset] else []) + parents, ParentOperand());
    if u.TupleTo? {
      assert ParentOperand()(u, u.tupleset) && ([u.tupleset] + parents)[1..] == parents;
    } else {
      assert [] + parents == parents;
    }
  }

  lemma ChildExactly(u: Userset, name: string, roles: set<string>, parents: set<string>)
    ensures match ClassifyChild(u, name, roles, parents)
            case Refused(reason) => !Fits(u, name, roles, parents) && Misfit(u, reason)
            case Granting(rs, ps) =>
              && Fits(u, name, roles, parents)
              && rs == (if u.Computed? then [u.relation] else []) && ps == (if u.TupleTo? then [u.tupleset] else [])
  {
  }

  lemma FirstMisfitLater(u: Userset, rest: seq<Userset>, name: string, roles: set<string>, parents: set<string>,
      reason: Reason)
    requires Fits(u, name, roles, parents) && FirstMisfit(rest, name, roles, parents, reason)
    ensures FirstMisfit([u] + rest, name, roles, parents, reason)
  {
    hide Fits, Misfit;
    var i :| 0 <= i < |rest| && !Fits(rest[i], name, roles, parents) && Misfit(rest[i], reason)
      && forall k :: 0 <= k < i ==> Fits(rest[k], name, roles, parents);
    var all := [u] + rest;
    assert all[i + 1] == rest[i] && forall k :: 0 < k < i + 1 ==> all[k] == rest[k - 1];
  }

  lemma {:induction false} ChildrenExactly(operands: seq<Userset>, name: string, roles: set<string>,
      parents: set<string>)
    ensures match ClassifyChildren(operands, name, roles, parents)
            case Refused(reason) => FirstMisfit(operands, name, roles, parents, reason)
            case Granting(rs, ps) =>
              && AllFit(operands, name, roles, parents)
              && Picks(operands, rs, RoleOperand()) && Picks(operands, ps, ParentOperand())
              && (rs == [] <==> forall u :: u in operands ==> !u.Computed?)
  {
    if operands != [] {
      var (u, rest) := (operands[0], operands[1..]);
      assert operands == [u] + rest;
      ChildExactly(u, name, roles, parents);
      ChildrenExactly(rest, name, roles, parents);
      var (now, later) := (ClassifyChild(u, name, roles, parents), ClassifyChildren(rest, name, roles, parents));
      assert forall x :: x in operands <==> x == u || x in rest;
      hide ClassifyChild, Fits, Misfit, Picks;
      if now.Refused? {
        assert operands[0] == u;
      } else if later.Refused? {
        FirstMisfitLater(u, rest, name, roles, parents, later.reason);
      } else {
        RolePicked(u, rest, later.roles);
        ParentPicked(u, rest, later.parents);
      }
    }
  }

  lemma StartsWithCanIs(name: string)
    ensures StartsWithCan(name) <==> "can_" <= name
    ensures StartsWithCan(name) ==> name == "can_" + name[4..]
  {
  }

  lemma OperandsOf(u: Userset)
    requires u.Union? || u.Computed? || u.TupleTo?
    ensures HasOperands(u, ChildrenOf(u))
  {
  }

  /** What the classifier gives for a rewrite with operands, under a name that starts with can_. */
  lemma RewriteUnfolds(name: string, u: Userset, roles: set<string>, parents: set<string>)
    requires (u.Union? || u.Computed? || u.TupleTo?) && StartsWithCan(name)
    ensures ClassifyRewrite(name, u, roles, parents) ==
            match ClassifyChildren(ChildrenOf(u), name, roles, parents)
            case Refused(reason) => Unpermitted(reason)
            case Granting(rs, ps) =>
              if rs == [] then Unpermitted(NON_ROLE_UNION) else AsPermission(Permission(name[4..], rs, ps))
  {
    hide ClassifyChildren, StartsWithCan, ChildrenOf;
  }

  /** The classifier's answer, accepted or refused, is what the operands say. */
  lemma AnswerExactly(x: Relation, roles: set<string>, parents: set<string>)
    requires !x.rewrite.This?
    ensures match ClassifyRewrite(x.name, x.rewrite, roles, parents)
            case AsPermission(perm) => BecomesPermission(roles, parents, x, perm)
            case Unpermitted(reason) => RewriteAside(roles, parents, x, reason)
  {
    var u := x.rewrite;
    StartsWithCanIs(x.name);
    if !u.Intersection? && !u.Difference? && StartsWithCan(x.name) {
      var operands := ChildrenOf(u);
      hide ClassifyRewrite, ClassifyChildren, ChildrenOf, StartsWithCan, AllFit, FirstMisfit, Picks, HasOperands;
      RewriteUnfolds(x.name, u, roles, parents);
      OperandsOf(u);
      ChildrenExactly(operands, x.name, roles, parents);
    }
  }

  lemma MisfitOnce(operands: seq<Userset>, name: string, roles: set<string>, parents: set<string>, a: Reason, b: Reason)
    requires FirstMisfit(operands, name, roles, parents, a)
    ensures FirstMisfit(operands, name, roles, parents, b) ==> a == b
    ensures !AllFit(operands, name, roles, parents)
  {
    hide Fits;
  }

  lemma RoleOperandOnce(operands: seq<Userset>, a: seq<string>, b: seq<string>)
    requires Picks(operands, a, RoleOperand()) && Picks(operands, b, RoleOperand())
    ensures a == b
  {
    hide Picks;
    PickedOnce(operands, a, b, RoleOperand());
  }

  lemma ParentOperandOnce(operands: seq<Userset>, a: seq<string>, b: seq<string>)
    requires Picks(operands, a, ParentOperand()) && Picks(operands, b, ParentOperand())
    ensures a == b
  {
    hide Picks;
    PickedOnce(operands, a, b, ParentOperand());
  }

  lemma PermissionOnce(x: Relation, roles: set<string>, parents: set<string>, a: Permission, b: Permission)
    requires BecomesPermission(roles, parents, x, a) && BecomesPermission(roles, parents, x, b)
    ensures a == b
  {
    var p :| HasOperands(x.rewrite, p) && GrantedBy(p, a, x.name, roles, parents);
    var q :| HasOperands(x.rewrite, q) && GrantedBy(q, b, x.name, roles, parents);
    assert a.name == x.name[4..] == b.name;
    OperandOnce(x.rewrite, p, q);
    hide Picks, AllFit, HasOperands;
    RoleOperandOnce(p, a.grantedByRoles, b.grantedByRoles);
    ParentOperandOnce(p, a.inheritFromParents, b.inheritFromParents);
  }

  lemma PermissionOrReason(x: Relation, roles: set<string>, parents: set<string>, perm: Permission, reason: Reason)
    requires BecomesPermission(roles, parents, x, perm)
    ensures !RewriteAside(roles, parents, x, reason)
  {
    var p :| HasOperands(x.rewrite, p) && GrantedBy(p, perm, x.name, roles, parents);
    assert "can_" <= x.name;
    hide Picks, Fits, Misfit;
    forall q | HasOperands(x.rewrite, q) ensures !RefusedFor(q, x.name, roles, parents, reason) {
      OperandOnce(x.rewrite, p, q);
      if FirstMisfit(q, x.name, roles, parents, reason) {
        MisfitOnce(q, x.name, roles, parents, reason, reason);
      }
    }
  }

  lemma ReasonOnce(x: Relation, roles: set<string>, parents: set<string>, a: Reason, b: Reason)
    requires RewriteAside(roles, parents, x, a) && RewriteAside(roles, parents, x, b)
    ensures a == b
  {
    hide Fits, Misfit, FirstMisfit, AllFit;
    if (x.rewrite.Union? || x.rewrite.Computed? || x.rewrite.TupleTo?) && "can_" <= x.name {
      var p :| HasOperands(x.rewrite, p) && RefusedFor(p, x.name, roles, parents, a);
      var q :| HasOperands(x.rewrite, q) && RefusedFor(q, x.name, roles, parents, b);
      OperandOnce(x.rewrite, p, q);
      if FirstMisfit(p, x.name, roles, parents, a) {
        MisfitOnce(p, x.name, roles, parents, a, b);
      } else if FirstMisfit(p, x.name, roles, parents, b) {
        MisfitOnce(p, x.name, roles, parents, b, a);
      }
    }
  }

  /** A rewritten relation becomes a permission exactly when it is a role or an inherited relation, or a union of such
      with a role among them, under a name that starts with can_; its lists are those operands, in order. */
  lemma PermissionExactly(roles: set<string>, parents: set<string>, x: Relation, perm: Permission)
    ensures PermissionOf(roles, parents)(x) == Some(perm) <==> BecomesPermission(roles, parents, x, perm)
  {
    if !x.rewrite.This? {
      var c := ClassifyRewrite(x.name, x.rewrite, roles, parents);
      AnswerExactly(x, roles, parents);
      hide ClassifyRewrite, BecomesPermission, RewriteAside;
      if BecomesPermission(roles, parents, x, perm) {
        match c
        case AsPermission(other) => PermissionOnce(x, roles, parents, perm, other);
        case Unpermitted(reason) => PermissionOrReason(x, roles, parents, perm, reason);
      }
    }
  }

  /** Otherwise it is set aside, for exactly one reason. */
  lemma ReasonExactly(typ: string, roles: set<string>, parents: set<string>, x: Relation, a: Advanced)
    ensures AdvancedRewrite(typ, roles, parents)(x) == Some(a) <==>
            a.typ == typ && a.relation == x.name && RewriteAside(roles, parents, x, a.reason)
  {
    if !x.rewrite.This? {
      var c := ClassifyRewrite(x.name, x.rewrite, roles, parents);
      AnswerExactly(x, roles, parents);
      hide ClassifyRewrite, BecomesPermission, RewriteAside;
      if RewriteAside(roles, parents, x, a.reason) {
        match c
        case AsPermission(perm) => PermissionOrReason(x, roles, parents, perm, a.reason);
        case Unpermitted(reason) => ReasonOnce(x, roles, parents, reason, a.reason);
      }
    }
  }

  // ---------------------------------------------------------------------------
  // Types.

  ghost function RoleFrom(conds: set<string>): (Relation, Role) -> bool {
    (x, role) => BecomesRole(conds, x, role)
  }

  ghost function ParentFrom(conds: set<string>): (Relation, ParentRef) -> bool {
    (x, p) => BecomesParent(conds, x, p)
  }

  ghost function DirectAsideFrom(typ: string, conds: set<string>): (Relation, Advanced) -> bool {
    (x: Relation, a: Advanced) => a.typ == typ && a.relation == x.name && DirectAside(conds, x, a.reason)
  }

  ghost function PermissionFrom(roles: set<string>, parents: set<string>): (Relation, Permission) -> bool {
    (x, perm) => BecomesPermission(roles, parents, x, perm)
  }

  ghost function RewriteAsideFrom(typ: string, roles: set<string>, parents: set<string>): (Relation, Advanced) -> bool {
    (x: Relation, a: Advanced) => a.typ == typ && a.relation == x.name && RewriteAside(roles, parents, x, a.reason)
  }

  ghost predicate OnlyMember(td: TypeDef) {
    |td.relations| == 1 && td.relations[0].name == "member"
  }

  ghost predicate BecomesGroup(conds: set<string>, td: TypeDef, g: GroupType) {
    && td.name != "user" && OnlyMember(td) && g.name == td.name
    && var member := td.relations[0];
       && member.rewrite.This? && KnownConditions(member.refs, conds) && OfSubjects(member.refs)
       && RestatesAll(g.memberTypes, member.refs)
  }

  /** Roles and parents are read first, then the permissions that refer to them. */
  ghost predicate BecomesResource(conds: set<string>, td: TypeDef, r: ResourceType) {
    && td.name != "user" && !OnlyMember(td) && r.name == td.name
    && Picks(td.relations, r.roles, RoleFrom(conds))
    && Picks(td.relations, r.parents, ParentFrom(conds))
    && Picks(td.relations, r.permissions, PermissionFrom(SetOf(RoleNames(r.roles)), SetOf(ParentNames(r.parents))))
  }

  ghost predicate AllOf(typ: string, relations: seq<Relation>, list: seq<Advanced>) {
    && |list| == |relations|
    && forall i :: 0 <= i < |relations| ==> list[i] == Advanced(typ, relations[i].name, UNCLASSIFIABLE)
  }

  /** What is set aside of a type: all relations of user; the member of what is no group; of a resource the direct
      relations that are neither roles nor parents, then the rewritten ones that are no permissions. */
  ghost predicate AsideOf(conds: set<string>, td: TypeDef, list: seq<Advanced>) {
    if td.name == "user" then AllOf("user", td.relations, list)
    else if OnlyMember(td) then
      if exists g :: BecomesGroup(conds, td, g) then list == []
      else
        var known := KnownConditions(td.relations[0].refs, conds);
        list == [Advanced(td.name, "member", if known then UNCLASSIFIABLE else CONDITION)]
    else exists r, direct, rewritten ::
      && BecomesResource(conds, td, r) && list == direct + rewritten
      && Picks(td.relations, direct, DirectAsideFrom(td.name, conds))
      && Picks(td.relations, rewritten,
               RewriteAsideFrom(td.name, SetOf(RoleNames(r.roles)), SetOf(ParentNames(r.parents))))
  }

  ghost function GroupFrom(conds: set<string>): (TypeDef, GroupType) -> bool {
    (td, g) => BecomesGroup(conds, td, g)
  }

  ghost function ResourceFrom(conds: set<string>): (TypeDef, ResourceType) -> bool {
    (td, r) => BecomesResource(conds, td, r)
  }

  lemma ResourceExactly(td: TypeDef, conds: set<string>)
    requires td.name != "user" && !OnlyMember(td)
    ensures BecomesResource(conds, td, ResourceOf(td, conds))
    ensures AsideOf(conds, td, ResourceAdvanced(td, conds))
  {
    var r := ResourceOf(td, conds);
    var (roles, parents) := (SetOf(RoleNames(r.roles)), SetOf(ParentNames(r.parents)));
    hide FilterMap, Picks, RoleOf, ParentOf, AdvancedDirect, PermissionOf, AdvancedRewrite, BecomesRole, BecomesParent;
    hide DirectAside, BecomesPermission, RewriteAside;
    forall x, y ensures RoleOf(conds)(x) == Some(y) <==> RoleFrom(conds)(x, y) {
      RoleExactly(conds, x, y);
    }
    forall x, y ensures ParentOf(conds)(x) == Some(y) <==> ParentFrom(conds)(x, y) {
      ParentExactly(conds, x, y);
    }
    forall x, y ensures PermissionOf(roles, parents)(x) == Some(y) <==> PermissionFrom(roles, parents)(x, y) {
      PermissionExactly(roles, parents, x, y);
    }
    forall x, y ensures AdvancedDirect(td.name, conds)(x) == Some(y) <==> DirectAsideFrom(td.name, conds)(x, y) {
      DirectExactly(td.name, conds, x, y);
    }
    forall x, y
      ensures AdvancedRewrite(td.name, roles, parents)(x) == Some(y) <==>
              RewriteAsideFrom(td.name, roles, parents)(x, y)
    {
      ReasonExactly(td.name, roles, parents, x, y);
    }
    FilterMapPicks(td.relations, RoleOf(conds), RoleFrom(conds));
    FilterMapPicks(td.relations, ParentOf(conds), ParentFrom(conds));
    FilterMapPicks(td.relations, PermissionOf(roles, parents), PermissionFrom(roles, parents));
    FilterMapPicks(td.relations, AdvancedDirect(td.name, conds), DirectAsideFrom(td.name, conds));
    FilterMapPicks(td.relations, AdvancedRewrite(td.name, roles, parents), RewriteAsideFrom(td.name, roles, parents));
  }

  lemma RoleOnce(conds: set<string>, x: Relation, a: Role, b: Role)
    requires BecomesRole(conds, x, a) && BecomesRole(conds, x, b)
    ensures a == b
  {
    RoleExactly(conds, x, a);
    RoleExactly(conds, x, b);
    hide BecomesRole, RoleOf;
  }

  lemma ParentOnce(conds: set<string>, x: Relation, a: ParentRef, b: ParentRef)
    requires BecomesParent(conds, x, a) && BecomesParent(conds, x, b)
    ensures a == b
  {
    ParentExactly(conds, x, a);
    ParentExactly(conds, x, b);
    hide BecomesParent, ParentOf;
  }

  /** A type becomes at most one resource. */
  lemma ResourceOnce(conds: set<string>, td: TypeDef, a: ResourceType, b: ResourceType)
    requires BecomesResource(conds, td, a) && BecomesResource(conds, td, b)
    ensures a == b
  {
    hide Picks, BecomesRole, BecomesParent, BecomesPermission, RoleNames, ParentNames;
    forall x, y, z | RoleFrom(conds)(x, y) && RoleFrom(conds)(x, z) ensures y == z {
      RoleOnce(conds, x, y, z);
    }
    forall x, y, z | ParentFrom(conds)(x, y) && ParentFrom(conds)(x, z) ensures y == z {
      ParentOnce(conds, x, y, z);
    }
    PickedOnce(td.relations, a.roles, b.roles, RoleFrom(conds));
    PickedOnce(td.relations, a.parents, b.parents, ParentFrom(conds));
    var (roles, parents) := (SetOf(RoleNames(a.roles)), SetOf(ParentNames(a.parents)));
    forall x, y, z | PermissionFrom(roles, parents)(x, y) && PermissionFrom(roles, parents)(x, z) ensures y == z {
      PermissionOnce(x, roles, parents, y, z);
    }
    PickedOnce(td.relations, a.permissions, b.permissions, PermissionFrom(roles, parents));
  }

  lemma GroupOnce(conds: set<string>, td: TypeDef, a: GroupType, b: GroupType)
    requires BecomesGroup(conds, td, a) && BecomesGroup(conds, td, b)
    ensures a == b
  {
    RestatedOnce(a.memberTypes, b.memberTypes, td.relations[0].refs);
  }

  lemma NoResource(conds: set<string>, td: TypeDef)
    requires td.name == "user" || OnlyMember(td)
    ensures forall r :: !ResourceFrom(conds)(td, r)
  {
  }

  lemma NoGroup(conds: set<string>, td: TypeDef)
    requires td.name == "user" || !OnlyMember(td)
    ensures forall g :: !GroupFrom(conds)(td, g)
  {
  }

  lemma PicksOne<S, T(!new)>(x: S, becomes: (S, T) -> bool)
    ensures forall y | becomes(x, y) :: Picks([x], [y], becomes)
    ensures (forall y :: !becomes(x, y)) ==> Picks([x], [], becomes)
  {
    assert [x][1..] == [];
    forall y | becomes(x, y) ensures Picks([x], [y], becomes) {
      assert [y][1..] == [];
    }
  }

  lemma MemberExactly(conds: set<string>, td: TypeDef)
    requires td.name != "user" && OnlyMember(td)
    ensures var (refs, p) := (td.relations[0].refs, PartsOf(td, conds));
            && p.resources == []
            && (td.relations[0].rewrite.This? && KnownConditions(refs, conds) && OfSubjects(refs) ==>
                  p.groups == [GroupType(td.name, Map(refs, ToSubjectRef))] && p.advanced == [])
            && (!(td.relations[0].rewrite.This? && KnownConditions(refs, conds) && OfSubjects(refs)) ==>
                  var reason := if KnownConditions(refs, conds) then UNCLASSIFIABLE else CONDITION;
                  p.groups == [] && p.advanced == [Advanced(td.name, "member", reason)])
  {
    ConditionsAreKnown(td.relations[0].refs, conds);
    hide KnownConditions, OfSubjects, HasForeignCondition, AllSubjectRefs, Map;
  }

  lemma GroupExactly(conds: set<string>, td: TypeDef)
    requires td.name != "user" && OnlyMember(td)
    ensures var p := PartsOf(td, conds);
            Picks([td], p.groups, GroupFrom(conds)) && AsideOf(conds, td, p.advanced)
  {
    var refs := td.relations[0].refs;
    MemberExactly(conds, td);
    SubjectsRestate(refs);
    hide KnownConditions, OfSubjects, RestatesAll, Map, PartsOf, Picks;
    PicksOne(td, GroupFrom(conds));
    var g := GroupType(td.name, Map(refs, ToSubjectRef));
    assert BecomesGroup(conds, td, g) <==>
      td.relations[0].rewrite.This? && KnownConditions(refs, conds) && OfSubjects(refs);
    assert GroupFrom(conds)(td, g) <==> BecomesGroup(conds, td, g);
  }

  /** One type: its group or resource, if any, and what is set aside of it. */
  lemma TypeExactly(td: TypeDef, conds: set<string>)
    ensures var p := PartsOf(td, conds);
            && Picks([td], p.groups, GroupFrom(conds)) && Picks([td], p.resources, ResourceFrom(conds))
            && AsideOf(conds, td, p.advanced)
  {
    PicksOne(td, GroupFrom(conds));
    PicksOne(td, ResourceFrom(conds));
    assert IsGroupShape(td) <==> OnlyMember(td);
    if td.name == "user" {
      NoGroup(conds, td);
      NoResource(conds, td);
      hide Picks, BecomesGroup, BecomesResource;
    } else if OnlyMember(td) {
      MemberExactly(conds, td);
      hide Picks, BecomesResource, BecomesGroup;
      NoResource(conds, td);
      GroupExactly(conds, td);
    } else {
      ResourceExactly(td, conds);
      NoGroup(conds, td);
      assert ResourceFrom(conds)(td, ResourceOf(td, conds));
      hide Picks, BecomesResource, BecomesGroup, ResourceOf, ResourceAdvanced, AsideOf;
    }
  }

  lemma {:induction false} PicksConcat<S, T(!new)>(a: seq<S>, b: seq<S>, p: seq<T>, q: seq<T>, becomes: (S, T) -> bool)
    requires Picks(a, p, becomes) && Picks(b, q, becomes)
    ensures Picks(a + b, p + q, becomes)
  {
    if a == [] {
      assert a + b == b && p + q == q;
    } else {
      assert (a + b)[0] == a[0] && (a + b)[1..] == a[1..] + b;
      if exists y :: becomes(a[0], y) {
        assert (p + q)[0] == p[0] && (p + q)[1..] == p[1..] + q;
        PicksConcat(a[1..], b, p[1..], q, becomes);
      } else {
        PicksConcat(a[1..], b, p, q, becomes);
      }
    }
  }

  lemma {:induction false} TypesExactly(ts: seq<TypeDef>, conds: set<string>) returns (lists: seq<seq<Advanced>>)
    ensures var p := AllParts(ts, conds);
            && Picks(ts, p.groups, GroupFrom(conds)) && Picks(ts, p.resources, ResourceFrom(conds))
            && p.advanced == Flattened(lists)
    ensures |lists| == |ts| && forall i :: 0 <= i < |ts| ==> AsideOf(conds, ts[i], lists[i])
  {
    lists := [];
    if ts != [] {
      var rest := TypesExactly(ts[1..], conds);
      var (p, q) := (PartsOf(ts[0], conds), AllParts(ts[1..], conds));
      assert AllParts(ts, conds) == AddParts(p, q);
      lists := [p.advanced] + rest;
      assert lists[1..] == rest && ts == [ts[0]] + ts[1..];
      hide PartsOf, AllParts, Picks, AsideOf, GroupFrom, ResourceFrom;
      TypeExactly(ts[0], conds);
      PicksConcat([ts[0]], ts[1..], p.groups, q.groups, GroupFrom(conds));
      PicksConcat([ts[0]], ts[1..], p.resources, q.resources, ResourceFrom(conds));
    }
  }

  // ---------------------------------------------------------------------------
  // Conditions, and the whole model.

  /** The definition that a condition reads to: the parameters in order, each of a known type, and the parsed text. */
  ghost predicate ReadsTo(c: ConditionJson, def: ConditionDef) {
    && c.expression.Some? && def.name == c.name && |def.params| == |c.parameters|
    && (forall i :: 0 <= i < |c.parameters| ==>
          c.parameters[i] == (def.params[i].name, TypeNameOf(def.params[i].typ)))
    && Parsed(c.name, def.params, c.expression.value) == Some(def)
  }

  lemma TypeNameReads(s: string, t: ParamType)
    ensures FromTypeName(s) == Some(t) <==> s == TypeNameOf(t)
  {
  }

  ghost predicate NamesParams(ps: seq<(string, string)>, params: seq<Param>) {
    |params| == |ps| && forall i :: 0 <= i < |ps| ==> ps[i] == (params[i].name, TypeNameOf(params[i].typ))
  }

  lemma {:induction false} ParamsExactly(ps: seq<(string, string)>, params: seq<Param>)
    ensures ParseParams(ps) == Some(params) <==> NamesParams(ps, params)
  {
    hide FromTypeName, TypeNameOf;
    if ps == [] {
    } else if params != [] {
      var (p, rest) := (params[0], params[1..]);
      ParamsExactly(ps[1..], rest);
      TypeNameReads(ps[0].1, p.typ);
      assert params == [p] + rest;
      assert NamesParams(ps, params) <==> ps[0] == (p.name, TypeNameOf(p.typ)) && NamesParams(ps[1..], rest) by {
        assert forall i :: 0 < i < |ps| ==> ps[i] == ps[1..][i - 1];
        assert forall i :: 0 < i < |params| ==> params[i] == rest[i - 1];
        if NamesParams(ps, params) {
          forall i | 0 <= i < |ps| - 1 ensures ps[1..][i] == (rest[i].name, TypeNameOf(rest[i].typ)) {
            assert ps[i + 1] == (params[i + 1].name, TypeNameOf(params[i + 1].typ));
          }
        }
      }
      var read := ParseParams(ps);
      if read == Some(params) {
        assert read.value[0] == p && read.value[1..] == rest;
      }
    }
  }

  lemma {:induction false} ParsedKeepsParams(name: string, params: seq<Param>, body: string)
    ensures Parsed(name, params, body).Some? ==>
              Parsed(name, params, body).value.params == params && Parsed(name, params, body).value.name == name
  {
    hide SplitFrom, ParseLeaves;
  }

  lemma ConditionExactly(c: ConditionJson, def: ConditionDef)
    ensures ParseCondition(c) == Some(def) <==> ReadsTo(c, def)
  {
    hide Parsed, TypeNameOf;
    ParamsExactly(c.parameters, def.params);
    if ParseParams(c.parameters).Some? && c.expression.Some? {
      ParsedKeepsParams(c.name, ParseParams(c.parameters).value, c.expression.value);
    }
    hide ParseParams;
  }

  ghost function ConditionFrom(): (ConditionJson, ConditionDef) -> bool {
    (c, def) => ReadsTo(c, def)
  }

  ghost function UnreadFrom(): (ConditionJson, string) -> bool {
    (c: ConditionJson, name: string) => name == c.name && !exists def :: ReadsTo(c, def)
  }

  /** Some condition of the name reads to a definition. */
  ghost predicate Readable(m: Model, name: string) {
    exists c, def :: c in m.conditions && c.name == name && ReadsTo(c, def)
  }

  lemma ConditionsExactly(m: Model)
    ensures Picks(m.conditions, ConditionsOf(Recovered(m)), ConditionFrom())
    ensures Picks(m.conditions, FilterMap(m.conditions, Unparsed), UnreadFrom())
    ensures forall name :: name in Representable(m.conditions) <==> Readable(m, name)
  {
    forall c, def ensures ParseCondition(c) == Some(def) <==> ReadsTo(c, def) {
      ConditionExactly(c, def);
    }
    hide ReadsTo, Picks, FilterMap, ParseCondition;
    FilterMapPicks(m.conditions, ParseCondition, ConditionFrom());
    forall c, name ensures Unparsed(c) == Some(name) <==> UnreadFrom()(c, name) {
      assert ParseCondition(c).Some? ==> ReadsTo(c, ParseCondition(c).value);
    }
    FilterMapPicks(m.conditions, Unparsed, UnreadFrom());
    forall name ensures name in Representable(m.conditions) <==> Readable(m, name) {
      if name in Representable(m.conditions) {
        var c :| c in m.conditions && ParseCondition(c).Some? && c.name == name;
        assert ReadsTo(c, ParseCondition(c).value);
      }
    }
  }

  /** The recovered model and what is set aside, of any model: by which types and relations become what, in order. */
  lemma RecoveredExactly(m: Model) returns (conds: set<string>, lists: seq<seq<Advanced>>)
    ensures forall name :: name in conds <==> Readable(m, name)
    ensures var ir := Recovered(m);
            && Picks(m.types, ir.groups, GroupFrom(conds)) && Picks(m.types, ir.resources, ResourceFrom(conds))
            && Picks(m.conditions, ConditionsOf(ir), ConditionFrom()) && ir.conditions != Some([])
    ensures SetAside(m) == Flattened(lists) && |lists| == |m.types|
    ensures forall i :: 0 <= i < |m.types| ==> AsideOf(conds, m.types[i], lists[i])
  {
    conds := Representable(m.conditions);
    hide Picks, Representable, Readable, AllParts, FilterMap, AsideOf, GroupFrom, ResourceFrom;
    ConditionsExactly(m);
    lists := TypesExactly(m.types, conds);
  }

  // ---------------------------------------------------------------------------
  // Coverage.

  /** The type and relation that an error is about; none for an error in a condition. */
  ghost predicate About(ir: ModelIR, e: ValidationError, typ: string, relation: string) {
    match e.place
    case ConditionAt(_) => false
    case GroupAt(g) => g < |ir.groups| && typ == ir.groups[g].name && relation == "member"
    case ResourceAt(r) => r < |ir.resources| && typ == ir.resources[r].name && relation == ""
    case ParentAt(r, p) =>
      && r < |ir.resources| && typ == ir.resources[r].name
      && relation == if p < |ir.resources[r].parents| then ir.resources[r].parents[p].relationName else ""
    case RoleAt(r, k) =>
      && r < |ir.resources| && typ == ir.resources[r].name
      && relation == if k < |ir.resources[r].roles| then ir.resources[r].roles[k].name else ""
    case PermissionAt(r, k) =>
      && r < |ir.resources| && typ == ir.resources[r].name
      && relation == if k < |ir.resources[r].permissions| then "can_" + ir.resources[r].permissions[k].name else ""
  }

  ghost predicate Listed(advanced: seq<Advanced>, typ: string, relation: string) {
    exists a :: a in advanced && a.typ == typ && a.relation == relation
  }

  /** To what is set aside, an entry is added for each error about a relation not listed yet: at[k] is the error that
      the k-th added entry is for, the first one about its relation. */
  ghost predicate Backstopped(aside: seq<Advanced>, ir: ModelIR, errors: seq<ValidationError>, added: seq<Advanced>,
      at: seq<nat>) {
    && |added| == |at|
    && (forall e, typ, relation :: e in errors && About(ir, e, typ, relation) ==> Listed(aside + added, typ, relation))
    && (forall k :: 0 <= k < |at| ==> AddedFor(ir, errors, added[k], at[k]))
    && (forall k :: 0 <= k < |at| ==> !Listed(aside + added[..k], added[k].typ, added[k].relation))
    && forall i, k :: 0 <= i < k < |at| ==> at[i] < at[k]
  }

  ghost predicate AddedFor(ir: ModelIR, errors: seq<ValidationError>, a: Advanced, at: nat) {
    && a.reason == UNCLASSIFIABLE && at < |errors| && About(ir, errors[at], a.typ, a.relation)
    && forall j :: 0 <= j < at ==> !About(ir, errors[j], a.typ, a.relation)
  }

  lemma EntryExactly(ir: ModelIR, e: ValidationError, a: Advanced)
    ensures ErrorEntry(ir, e) == Some(a) <==> About(ir, e, a.typ, a.relation) && a.reason == UNCLASSIFIABLE
  {
  }

  lemma EntryOnce(ir: ModelIR, e: ValidationError, typ: string, relation: string)
    ensures About(ir, e, typ, relation) <==>
            ErrorEntry(ir, e).Some? && ErrorEntry(ir, e).value == Advanced(typ, relation, UNCLASSIFIABLE)
  {
    EntryExactly(ir, e, Advanced(typ, relation, UNCLASSIFIABLE));
    hide About, ErrorEntry;
  }

  function Shifted(at: seq<nat>): (r: seq<nat>)
    ensures |r| == |at| && forall k :: 0 <= k < |at| ==> r[k] == at[k] + 1
  {
    seq(|at|, k requires 0 <= k < |at| => at[k] + 1)
  }

  lemma ListedLonger(a: seq<Advanced>, b: seq<Advanced>, typ: string, relation: string)
    requires a <= b && Listed(a, typ, relation)
    ensures Listed(b, typ, relation)
  {
    var x :| x in a && x.typ == typ && x.relation == relation;
    assert x in b;
  }

  lemma AddedLater(ir: ModelIR, e: ValidationError, rest: seq<ValidationError>, a: Advanced, at: nat)
    requires AddedFor(ir, rest, a, at) && !About(ir, e, a.typ, a.relation)
    ensures AddedFor(ir, [e] + rest, a, at + 1)
  {
    hide About;
    var errors := [e] + rest;
    assert errors[at + 1] == rest[at] && forall j :: 0 < j < at + 1 ==> errors[j] == rest[j - 1];
  }

  /** An error about nothing new adds no entry. */
  lemma SkipStep(aside: seq<Advanced>, ir: ModelIR, e: ValidationError, rest: seq<ValidationError>,
      added: seq<Advanced>, at: seq<nat>)
    requires Backstopped(aside, ir, rest, added, at)
    requires forall typ, relation :: About(ir, e, typ, relation) ==> Listed(aside, typ, relation)
    ensures Backstopped(aside, ir, [e] + rest, added, Shifted(at))
  {
    hide About, AddedFor, Listed;
    forall typ, relation | About(ir, e, typ, relation) ensures Listed(aside + added, typ, relation) {
      ListedLonger(aside, aside + added, typ, relation);
    }
    forall k | 0 <= k < |at| ensures AddedFor(ir, [e] + rest, added[k], Shifted(at)[k]) {
      if About(ir, e, added[k].typ, added[k].relation) {
        ListedLonger(aside, aside + added[..k], added[k].typ, added[k].relation);
      }
      AddedLater(ir, e, rest, added[k], at[k]);
    }
  }

  /** An error about something new adds the next entry. */
  lemma AddStep(aside: seq<Advanced>, ir: ModelIR, e: ValidationError, rest: seq<ValidationError>, entry: Advanced,
      added: seq<Advanced>, at: seq<nat>)
    requires Backstopped(aside + [entry], ir, rest, added, at) && entry.reason == UNCLASSIFIABLE
    requires forall typ, relation :: About(ir, e, typ, relation) <==> typ == entry.typ && relation == entry.relation
    requires !Listed(aside, entry.typ, entry.relation)
    ensures Backstopped(aside, ir, [e] + rest, [entry] + added, [0] + Shifted(at))
  {
    var (next, all, more, errors) := (aside + [entry], [entry] + added, [0] + Shifted(at), [e] + rest);
    ConcatAssociates(aside, [entry], added);
    assert next + added == aside + all;
    assert forall x :: x in errors <==> x == e || x in rest;
    assert AddedFor(ir, errors, entry, 0);
    EntryIsListed(aside, entry, added);
    forall k | 0 <= k < |more|
      ensures AddedFor(ir, errors, all[k], more[k]) && !Listed(aside + all[..k], all[k].typ, all[k].relation)
    {
      if k > 0 {
        var j := k - 1;
        assert AddedFor(ir, rest, added[j], at[j]) && !Listed(next + added[..j], added[j].typ, added[j].relation);
        hide *;
        NextEntry(aside, ir, e, rest, entry, added, j, at[j]);
        assert all[k] == added[j];
      } else {
        assert aside + all[..0] == aside;
        hide *;
      }
    }
    hide About, AddedFor, Listed;
  }

  lemma EntryIsListed(aside: seq<Advanced>, entry: Advanced, added: seq<Advanced>)
    ensures Listed(aside + ([entry] + added), entry.typ, entry.relation)
  {
    assert entry in aside + ([entry] + added);
  }

  lemma NextEntry(aside: seq<Advanced>, ir: ModelIR, e: ValidationError, rest: seq<ValidationError>, entry: Advanced,
      added: seq<Advanced>, j: nat, at: nat)
    requires j < |added| && AddedFor(ir, rest, added[j], at)
    requires forall typ, relation :: About(ir, e, typ, relation) <==> typ == entry.typ && relation == entry.relation
    requires !Listed(aside + [entry] + added[..j], added[j].typ, added[j].relation)
    ensures AddedFor(ir, [e] + rest, added[j], at + 1)
    ensures !Listed(aside + ([entry] + added)[..j + 1], added[j].typ, added[j].relation)
  {
    var a := added[j];
    assert aside + ([entry] + added)[..j + 1] == aside + [entry] + added[..j];
    assert aside + [entry] + added[..j] == aside + ([entry] + added[..j]);
    hide About, AddedFor, Listed;
    EntryIsListed(aside, entry, added[..j]);
    AddedLater(ir, e, rest, a, at);
  }

  lemma {:induction false} BackstopExactly(aside: seq<Advanced>, ir: ModelIR, errors: seq<ValidationError>)
    returns (added: seq<Advanced>, at: seq<nat>)
    ensures Backstopped(aside, ir, errors, added, at) && Backstop(aside, ir, errors) == aside + added
    decreases |errors|
  {
    added, at := [], [];
    if errors == [] {
      assert aside + added == aside;
    } else {
      var (e, rest) := (errors[0], errors[1..]);
      var entry := ErrorEntry(ir, e);
      var next := AddEntry(aside, entry);
      assert Backstop(next, ir, rest) == Backstop(aside, ir, errors) && errors == [e] + rest;
      forall typ, relation
        ensures About(ir, e, typ, relation) <==> entry == Some(Advanced(typ, relation, UNCLASSIFIABLE))
      {
        EntryOnce(ir, e, typ, relation);
      }
      if entry.Some? {
        EntryExactly(ir, e, entry.value);
      }
      assert entry.None? || Listed(aside, entry.value.typ, entry.value.relation) ==> next == aside;
      assert entry.Some? && !Listed(aside, entry.value.typ, entry.value.relation) ==> next == aside + [entry.value];
      hide About, ErrorEntry, Backstop, Backstopped, Listed, AddEntry;
      added, at := BackstopExactly(next, ir, rest);
      if entry.None? || Listed(aside, entry.value.typ, entry.value.relation) {
        SkipStep(aside, ir, e, rest, added, at);
        at := Shifted(at);
      } else {
        AddStep(aside, ir, e, rest, entry.value, added, at);
        ConcatAssociates(aside, [entry.value], added);
        added, at := [entry.value] + added, [0] + Shifted(at);
      }
    }
  }

  /** The notes: the version, when it is not 1.1, and the names of the conditions that do not read, if any. */
  ghost predicate NotesSay(m: Model, notes: seq<Note>, unread: seq<string>) {
    && Picks(m.conditions, unread, UnreadFrom())
    && notes == (match m.schemaVersion
                 case Some(v) => if v == "1.1" then [] else [SchemaNote(v)]
                 case None => []) + (if unread == [] then [] else [ConditionNote(unread)])
  }

  /** The coverage of any model: the errors of the recovered model, the notes, and the advanced list. */
  lemma CoverageExactly(m: Model) returns (unread: seq<string>, added: seq<Advanced>, at: seq<nat>)
    ensures var c := CoverageOf(m);
            && c.validationErrors == Errors(Recovered(m))
            && NotesSay(m, c.notes, unread)
            && c.advanced == SetAside(m) + added
            && Backstopped(SetAside(m), Recovered(m), c.validationErrors, added, at)
            && (c.fullyRepresentable <==> c.advanced == [] && c.notes == [] && c.validationErrors == [])
  {
    unread := FilterMap(m.conditions, Unparsed);
    ConditionsExactly(m);
    hide Picks, FilterMap, Errors, AllParts, Recovered, Representable, Backstopped, Backstop;
    added, at := BackstopExactly(SetAside(m), Recovered(m), Errors(Recovered(m)));
  }
}
