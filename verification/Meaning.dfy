/** What the five primitives mean over a tuple store, and that compiling and decompiling keep it. */
module Meaning {
  import opened Prelude
  import opened ModelIr
  import opened AuthModel
  import opened Decompiler

  // ---------------------------------------------------------------------------
  // The model, read directly.

  datatype Def = Assignable(refs: seq<SubjectRef>) | Linking(types: seq<string>) | Granted(perm: Permission)

  function GroupNamed(gs: seq<GroupType>, name: string): Option<GroupType> {
    if gs == [] then None else if gs[0].name == name then Some(gs[0]) else GroupNamed(gs[1..], name)
  }

  function ResourceNamed(rs: seq<ResourceType>, name: string): Option<ResourceType> {
    if rs == [] then None else if rs[0].name == name then Some(rs[0]) else ResourceNamed(rs[1..], name)
  }

  function RoleNamed(rs: seq<Role>, name: string): Option<Role> {
    if rs == [] then None else if rs[0].name == name then Some(rs[0]) else RoleNamed(rs[1..], name)
  }

  function CanNamed(ps: seq<Permission>, can: string): Option<Permission> {
    if ps == [] then None else if CanName(ps[0].name) == can then Some(ps[0]) else CanNamed(ps[1..], can)
  }

  function DefIn(r: ResourceType, name: string): Option<Def> {
    match ParentNamed(r.parents, name)
    case Some(p) => Some(Linking(p.parentTypes))
    case None =>
      match RoleNamed(r.roles, name)
      case Some(role) => Some(Assignable(role.assignableBy))
      case None => match CanNamed(r.permissions, name) case Some(perm) => Some(Granted(perm)) case None => None
  }

  function DefOn(ir: ModelIR, typ: string, name: string): Option<Def> {
    match GroupNamed(ir.groups, typ)
    case Some(g) => if name == "member" then Some(Assignable(g.memberTypes)) else None
    case None => match ResourceNamed(ir.resources, typ) case Some(r) => DefIn(r, name) case None => None
  }

  ghost predicate SubjectAdmits(ref: SubjectRef, t: Tuple) {
    && ref.condition == t.condition
    && match ref
       case User(_) => t.user.Direct? && t.user.obj.typ == "user"
       case Group(group, _) => t.user.Members? && t.user.obj.typ == group && t.user.relation == "member"
  }

  ghost predicate DefAdmits(def: Def, t: Tuple) {
    match def
    case Assignable(refs) => exists ref :: ref in refs && SubjectAdmits(ref, t)
    case Linking(types) => t.condition == None && t.user.Direct? && t.user.obj.typ in types
    case Granted(_) => false
  }

  ghost predicate Links(ir: ModelIR, st: Store, relation: string, obj: Obj, parent: Obj) {
    && DefOn(ir, obj.typ, relation).Some?
    && exists t: Tuple ::
         Applies(st, t, relation, obj) && DefAdmits(DefOn(ir, obj.typ, relation).value, t) && t.user == Direct(parent)
  }

  /** The subject has the relation to the object by a derivation of at most n steps: it is assigned, itself or
      through a group; or a granting role holds, or the same permission on a linked parent. */
  ghost predicate IrHolds(ir: ModelIR, st: Store, subject: Obj, relation: string, obj: Obj, n: nat)
    decreases n
  {
    && n > 0
    && DefOn(ir, obj.typ, relation).Some?
    && match DefOn(ir, obj.typ, relation).value
       case Granted(perm) =>
         || (exists role :: role in perm.grantedByRoles && IrHolds(ir, st, subject, role, obj, n - 1))
         || (exists rel, parent :: rel in perm.inheritFromParents && Links(ir, st, rel, obj, parent)
               && IrHolds(ir, st, subject, relation, parent, n - 1))
       case def =>
         exists t: Tuple :: Applies(st, t, relation, obj) && DefAdmits(def, t) &&
           match t.user
           case Direct(o) => subject == o
           case Members(o, r) => IrHolds(ir, st, subject, r, o, n - 1)
           case Everyone(typ) => subject.typ == typ
  }

  ghost predicate IrMeans(ir: ModelIR, st: Store, subject: Obj, relation: string, obj: Obj) {
    exists n: nat :: IrHolds(ir, st, subject, relation, obj, n)
  }

  // ---------------------------------------------------------------------------
  // A relation definition that says the same as the model.

  /** x, defined on a resource with these roles and parents, classifies as def. */
  ghost predicate Says(x: Relation, def: Def, name: string, roleNames: set<string>, parentRels: set<string>) {
    match def
    case Assignable(refs) => x.rewrite.This? && (forall r :: r in x.refs ==> IsSubjectRef(r))
      && Map(x.refs, ToSubjectRef) == refs
    case Linking(types) =>
      x.rewrite.This? && (forall r :: r in x.refs ==> IsResourceTypeRef(r)) && Map(x.refs, TypeOfRef) == types
    case Granted(perm) =>
      !x.rewrite.This? && ClassifyRewrite(name, x.rewrite, roleNames, parentRels) == AsPermission(perm)
  }

  /** On every type every name is defined in both or in neither, and where it is, alike. */
  ghost predicate Represents(m: Model, ir: ModelIR) {
    forall typ, name {:trigger DefOn(ir, typ, name)} ::
      var (x, def) := (RelationOn(m, typ, name), DefOn(ir, typ, name));
      (x.Some? <==> def.Some?)
        && (def.Some? ==> exists roleNames, parentRels :: Says(x.value, def.value, name, roleNames, parentRels))
  }

  lemma RefAdmits(r: Ref, t: Tuple)
    requires IsSubjectRef(r)
    ensures Admits(r, t) <==> SubjectAdmits(ToSubjectRef(r), t)
  {
  }

  lemma RefsAdmit(x: Relation, def: Def, name: string, roleNames: set<string>, parentRels: set<string>, t: Tuple)
    requires Says(x, def, name, roleNames, parentRels) && !def.Granted?
    ensures (exists ref :: ref in x.refs && Admits(ref, t)) <==> DefAdmits(def, t)
  {
    hide IsSubjectRef, ToSubjectRef, SubjectAdmits;
    if def.Assignable? {
      hide Admits;
      var refs := def.refs;
      if ref :| ref in x.refs && Admits(ref, t) {
        var i :| 0 <= i < |x.refs| && x.refs[i] == ref;
        RefAdmits(ref, t);
        assert refs[i] in refs && SubjectAdmits(refs[i], t);
      }
      if ref :| ref in refs && SubjectAdmits(ref, t) {
        var i :| 0 <= i < |refs| && refs[i] == ref;
        RefAdmits(x.refs[i], t);
        assert x.refs[i] in x.refs;
      }
    } else {
      if ref :| ref in x.refs && Admits(ref, t) {
        var i :| 0 <= i < |x.refs| && x.refs[i] == ref;
        assert def.types[i] == ref.typ;
      }
      if DefAdmits(def, t) {
        var i :| 0 <= i < |def.types| && def.types[i] == t.user.obj.typ;
        assert x.refs[i] in x.refs && Admits(x.refs[i], t);
      }
    }
  }

  /** What a classified permission's operands derive: its roles here, or itself on a linked parent. */
  ghost predicate ChildrenDerive(m: Model, st: Store, subject: Obj, name: string, obj: Obj, c: ChildrenClass, n: nat)
    requires c.Granting?
  {
    || (exists role :: role in c.roles && Holds(m, st, subject, role, obj, n))
    || (exists rel, parent ::
         rel in c.parents && LinkedTo(m, st, rel, obj, parent) && Holds(m, st, subject, name, parent, n))
  }

  lemma ChildDerives(m: Model, st: Store, subject: Obj, name: string, obj: Obj, child: Userset, roleNames: set<string>,
      parentRels: set<string>, n: nat)
    requires ClassifyChild(child, name, roleNames, parentRels).Granting?
    ensures Derives(m, st, subject, name, obj, child, n) <==>
            ChildrenDerive(m, st, subject, name, obj, ClassifyChild(child, name, roleNames, parentRels), n)
  {
    hide Holds, LinkedTo;
    var c := ClassifyChild(child, name, roleNames, parentRels);
    match child
    case Computed(target, relation) =>
      assert c.roles == [relation] && c.parents == [];
      assert relation in c.roles;
    case TupleTo(tupleset, computed) =>
      assert c.roles == [] && c.parents == [tupleset];
      assert tupleset in c.parents;
      if o: Obj :| LinkedTo(m, st, tupleset, obj, o) && Holds(m, st, subject, computed, o, n) {
        assert ChildrenDerive(m, st, subject, name, obj, c, n);
      }
    case _ =>
  }

  lemma {:induction false} ChildrenDeriveAlike(m: Model, st: Store, subject: Obj, name: string, obj: Obj,
      children: seq<Userset>,
                                               roleNames: set<string>, parentRels: set<string>, n: nat)
    requires ClassifyChildren(children, name, roleNames, parentRels).Granting?
    ensures (exists c :: c in children && Derives(m, st, subject, name, obj, c, n)) <==>
            ChildrenDerive(m, st, subject, name, obj, ClassifyChildren(children, name, roleNames, parentRels), n)
  {
    hide Derives, Holds, LinkedTo, ClassifyChild;
    if children != [] {
      var head := ClassifyChild(children[0], name, roleNames, parentRels);
      var tail := ClassifyChildren(children[1..], name, roleNames, parentRels);
      ChildDerives(m, st, subject, name, obj, children[0], roleNames, parentRels, n);
      ChildrenDeriveAlike(m, st, subject, name, obj, children[1..], roleNames, parentRels, n);
      assert forall c :: c in children <==> c == children[0] || c in children[1..];
      DeriveEither(m, st, subject, name, obj, head, tail, n);
    }
  }

  lemma DeriveEither(m: Model, st: Store, subject: Obj, name: string, obj: Obj, a: ChildrenClass, b: ChildrenClass,
      n: nat)
    requires a.Granting? && b.Granting?
    ensures ChildrenDerive(m, st, subject, name, obj, Granting(a.roles + b.roles, a.parents + b.parents), n) <==>
            ChildrenDerive(m, st, subject, name, obj, a, n) || ChildrenDerive(m, st, subject, name, obj, b, n)
  {
    hide Holds, LinkedTo;
  }

  /** A rewrite that classifies as a permission derives what the permission says, whatever the order of its operands. */
  lemma PermissionDerives(m: Model, st: Store, subject: Obj, name: string, obj: Obj, u: Userset, roleNames: set<string>,
                          parentRels: set<string>, perm: Permission, n: nat)
    requires ClassifyRewrite(name, u, roleNames, parentRels) == AsPermission(perm)
    ensures Derives(m, st, subject, name, obj, u, n) <==>
            ChildrenDerive(m, st, subject, name, obj, Granting(perm.grantedByRoles, perm.inheritFromParents), n)
  {
    hide ClassifyChild, Holds, LinkedTo, ChildrenDerive, Assigned, StartsWithCan;
    var children := ChildrenOf(u);
    ChildrenDeriveAlike(m, st, subject, name, obj, children, roleNames, parentRels, n);
    if !u.Union? {
      assert children == [u];
      assert u in children && forall c :: c in children ==> c == u;
    }
  }

  /** An inherited relation is a parent relation. */
  ghost predicate InheritsAlongParents(ir: ModelIR) {
    forall typ, name, rel {:trigger DefOn(ir, typ, name), DefOn(ir, typ, rel)} ::
      DefOn(ir, typ, name).Some? && DefOn(ir, typ, name).value.Granted?
        && rel in DefOn(ir, typ, name).value.perm.inheritFromParents
      ==> DefOn(ir, typ, rel).Some? && DefOn(ir, typ, rel).value.Linking?
  }

  lemma LinksAlike(m: Model, ir: ModelIR, st: Store, relation: string, obj: Obj, parent: Obj)
    requires Represents(m, ir) && DefOn(ir, obj.typ, relation).Some? && DefOn(ir, obj.typ, relation).value.Linking?
    ensures LinkedTo(m, st, relation, obj, parent) <==> Links(ir, st, relation, obj, parent)
  {
    var def := DefOn(ir, obj.typ, relation).value;
    var x := RelationOn(m, obj.typ, relation).value;
    var roleNames, parentRels :| Says(x, def, relation, roleNames, parentRels);
    hide Applies, Admits, DefAdmits, Says, DefOn, RelationOn;
    forall t: Tuple ensures (exists ref :: ref in x.refs && Admits(ref, t)) <==> DefAdmits(def, t) {
      RefsAdmit(x, def, relation, roleNames, parentRels, t);
    }
  }

  ghost predicate AlikeAt(m: Model, ir: ModelIR, st: Store, subject: Obj, k: nat) {
    forall r, o :: Holds(m, st, subject, r, o, k) <==> IrHolds(ir, st, subject, r, o, k)
  }

  lemma {:induction false} HoldsAlike(m: Model, ir: ModelIR, st: Store, subject: Obj, relation: string, obj: Obj,
      n: nat)
    requires Represents(m, ir) && InheritsAlongParents(ir)
    ensures Holds(m, st, subject, relation, obj, n) <==> IrHolds(ir, st, subject, relation, obj, n)
    decreases n
  {
    if n > 0 && DefOn(ir, obj.typ, relation).Some? {
      var def := DefOn(ir, obj.typ, relation).value;
      var x := RelationOn(m, obj.typ, relation).value;
      var roleNames, parentRels :| Says(x, def, relation, roleNames, parentRels);
      var k := n - 1;
      forall r, o ensures Holds(m, st, subject, r, o, k) <==> IrHolds(ir, st, subject, r, o, k) {
        HoldsAlike(m, ir, st, subject, r, o, k);
      }
      if def.Granted? {
        GrantedAlike(m, ir, st, subject, relation, obj, def.perm, x, roleNames, parentRels, n);
      } else {
        AssignedAlike(m, ir, st, subject, relation, obj, def, x, roleNames, parentRels, n);
      }
    }
  }

  lemma GrantedAlike(m: Model, ir: ModelIR, st: Store, subject: Obj, relation: string, obj: Obj, perm: Permission,
      x: Relation,
                     roleNames: set<string>, parentRels: set<string>, n: nat)
    requires Represents(m, ir) && InheritsAlongParents(ir) && n > 0
    requires DefOn(ir, obj.typ, relation) == Some(Granted(perm)) && RelationOn(m, obj.typ, relation) == Some(x)
    requires Says(x, Granted(perm), relation, roleNames, parentRels)
    requires AlikeAt(m, ir, st, subject, n - 1)
    ensures Holds(m, st, subject, relation, obj, n) <==> IrHolds(ir, st, subject, relation, obj, n)
  {
    PermissionDerives(m, st, subject, relation, obj, x.rewrite, roleNames, parentRels, perm, n - 1);
    forall rel, parent | rel in perm.inheritFromParents
      ensures LinkedTo(m, st, rel, obj, parent) <==> Links(ir, st, rel, obj, parent)
    {
      assert DefOn(ir, obj.typ, rel).Some?;
      LinksAlike(m, ir, st, rel, obj, parent);
    }
    hide Represents, InheritsAlongParents, Says, DefOn, RelationOn, Derives, LinkedTo, Links;
  }

  lemma AssignedAlike(m: Model, ir: ModelIR, st: Store, subject: Obj, relation: string, obj: Obj, def: Def, x: Relation,
                      roleNames: set<string>, parentRels: set<string>, n: nat)
    requires n > 0 && !def.Granted?
    requires DefOn(ir, obj.typ, relation) == Some(def) && RelationOn(m, obj.typ, relation) == Some(x)
    requires Says(x, def, relation, roleNames, parentRels)
    requires AlikeAt(m, ir, st, subject, n - 1)
    ensures Holds(m, st, subject, relation, obj, n) <==> IrHolds(ir, st, subject, relation, obj, n)
  {
    forall t: Tuple ensures (exists ref :: ref in x.refs && Admits(ref, t)) <==> DefAdmits(def, t) {
      RefsAdmit(x, def, relation, roleNames, parentRels, t);
    }
    assert Derives(m, st, subject, relation, obj, x.rewrite, n - 1) <==> Assigned(m, st, subject, relation, obj, n - 1);
    hide Says, DefOn, RelationOn, Derives, DefAdmits, Admits, Applies;
  }

  lemma MeansAlike(m: Model, ir: ModelIR, st: Store, subject: Obj, relation: string, obj: Obj)
    requires Represents(m, ir) && InheritsAlongParents(ir)
    ensures Means(m, st, subject, relation, obj) <==> IrMeans(ir, st, subject, relation, obj)
  {
    hide Represents, InheritsAlongParents;
    forall n: nat ensures Holds(m, st, subject, relation, obj, n) <==> IrHolds(ir, st, subject, relation, obj, n) {
      HoldsAlike(m, ir, st, subject, relation, obj, n);
    }
  }

  // ---------------------------------------------------------------------------
  // The meaning is a fixpoint of its rules.

  lemma {:induction false} IrHoldsLonger(ir: ModelIR, st: Store, subject: Obj, relation: string, obj: Obj, n: nat,
      k: nat)
    requires IrHolds(ir, st, subject, relation, obj, n) && n <= k
    ensures IrHolds(ir, st, subject, relation, obj, k)
    decreases n
  {
    hide DefOn, DefAdmits, Applies, Links;
    match DefOn(ir, obj.typ, relation).value
    case Granted(perm) =>
      if role :| role in perm.grantedByRoles && IrHolds(ir, st, subject, role, obj, n - 1) {
        IrHoldsLonger(ir, st, subject, role, obj, n - 1, k - 1);
      } else {
        var rel, parent :| rel in perm.inheritFromParents && Links(ir, st, rel, obj, parent)
          && IrHolds(ir, st, subject, relation, parent, n - 1);
        IrHoldsLonger(ir, st, subject, relation, parent, n - 1, k - 1);
      }
    case def =>
      var t: Tuple :| Applies(st, t, relation, obj) && DefAdmits(def, t) &&
        match t.user
        case Direct(o) => subject == o
        case Members(o, r) => IrHolds(ir, st, subject, r, o, n - 1)
        case Everyone(typ) => subject.typ == typ;
      if t.user.Members? {
        IrHoldsLonger(ir, st, subject, t.user.relation, t.user.obj, n - 1, k - 1);
      }
  }

  /** A permission holds exactly when a granting role does, or the same permission on a linked parent. */
  lemma PermissionUnfolds(ir: ModelIR, st: Store, subject: Obj, can: string, obj: Obj, perm: Permission)
    requires DefOn(ir, obj.typ, can) == Some(Granted(perm))
    ensures IrMeans(ir, st, subject, can, obj) <==>
            || (exists role :: role in perm.grantedByRoles && IrMeans(ir, st, subject, role, obj))
            || (exists rel, parent :: rel in perm.inheritFromParents && Links(ir, st, rel, obj, parent) && IrMeans(ir,
                 st, subject, can, parent))
  {
    hide DefOn, DefAdmits, Applies, Links;
    if n: nat :| IrHolds(ir, st, subject, can, obj, n) {
      var k: nat := n - 1;
      if role :| role in perm.grantedByRoles && IrHolds(ir, st, subject, role, obj, k) {
        assert IrMeans(ir, st, subject, role, obj);
      } else {
        var rel, parent :| rel in perm.inheritFromParents && Links(ir, st, rel, obj, parent)
          && IrHolds(ir, st, subject, can, parent, k);
        assert IrMeans(ir, st, subject, can, parent);
      }
    }
    if role :| role in perm.grantedByRoles && IrMeans(ir, st, subject, role, obj) {
      var n: nat :| IrHolds(ir, st, subject, role, obj, n);
      assert IrHolds(ir, st, subject, can, obj, n + 1);
    }
    if rel, parent :| rel in perm.inheritFromParents && Links(ir, st, rel, obj, parent) && IrMeans(ir, st, subject, can,
      parent) {
      var n: nat :| IrHolds(ir, st, subject, can, parent, n);
      assert IrHolds(ir, st, subject, can, obj, n + 1);
    }
  }
}
