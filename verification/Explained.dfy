/** Explanations agree with the decisions of the compiled model. */
module Explained {
  import opened Prelude
  import opened Condition
  import opened ModelIr
  import opened AuthModel
  import Compiler
  import RoundTrip
  import opened Meaning
  import opened MeaningPreserved
  import opened Witness

  function Text(o: Obj): string {
    o.typ + ":" + o.id
  }

  /** The server decides roles by the meaning of the model. */
  ghost predicate Decides(s: Setting, st: Store, subject: Obj) {
    forall role, o: Obj :: ':' !in o.typ ==>
      s.gateway.check(Text(subject), role, Text(o)) == Answered(IrMeans(s.ir, st, subject, role, o))
  }

  ghost predicate IsLinkText(ir: ModelIR, st: Store, rel: string, o: Obj, t: string) {
    exists parent :: t == Text(parent) && Links(ir, st, rel, o, parent)
  }

  ghost predicate LinkingOn(ir: ModelIR, typ: string, rel: string) {
    ':' !in typ && DefOn(ir, typ, rel).Some? && DefOn(ir, typ, rel).value.Linking?
  }

  /** The server answers every read, and lists at least the parents that the model admits. */
  ghost predicate ListsLinks(s: Setting, st: Store) {
    && (forall o: Obj, rel: string :: s.gateway.read(Text(o), rel).Answered?)
    && (forall o: Obj, rel: string, t: string :: LinkingOn(s.ir, o.typ, rel) && IsLinkText(s.ir, st, rel, o, t) ==>
          t in s.gateway.read(Text(o), rel).value)
  }

  /** The server lists at most the parents that the model admits: no tuple is left from an earlier model. */
  ghost predicate ListsOnlyLinks(s: Setting, st: Store) {
    forall o: Obj, rel: string, t: string ::
      LinkingOn(s.ir, o.typ, rel) && s.gateway.read(Text(o), rel).Answered?
        && t in s.gateway.read(Text(o), rel).value ==>
        IsLinkText(s.ir, st, rel, o, t)
  }

  ghost predicate Faithful(s: Setting, st: Store, subject: Obj) {
    Decides(s, st, subject) && ListsLinks(s, st) && ListsOnlyLinks(s, st)
  }

  lemma TextSplits(o: Obj)
    requires ':' !in o.typ
    ensures SplitObject(Text(o)) == Some((o.typ, o.id))
  {
    var text := Text(o);
    assert text[|o.typ|] == ':';
    assert text[..|o.typ|] == o.typ && text[|o.typ| + 1..] == o.id;
  }

  lemma {:induction false} NamedApart(ps: seq<Permission>, name: string)
    ensures CanNamed(ps, CanName(name)) == PermissionNamed(ps, name)
  {
    if ps != [] {
      RoundTrip.CanNameReads(name);
      RoundTrip.CanNameReads(ps[0].name);
      assert CanName(ps[0].name) == CanName(name) ==> ps[0].name == name;
      hide CanName;
      NamedApart(ps[1..], name);
    }
  }

  lemma {:induction false} LookupIsNamed(rs: seq<ResourceType>, typ: string, name: string)
    ensures LookupPermission(rs, typ, name) ==
            if ResourceNamed(rs, typ).None? then None
            else PermissionNamed(ResourceNamed(rs, typ).value.permissions, name)
  {
    if rs != [] {
      LookupIsNamed(rs[1..], typ, name);
    }
  }

  /** A permission found by its name is what can_name means on that type. */
  lemma LookupIsGrant(ir: ModelIR, typ: string, name: string)
    requires WellFormed(ir) && LookupPermission(ir.resources, typ, name).Some?
    ensures DefOn(ir, typ, CanName(name)) == Some(Granted(LookupPermission(ir.resources, typ, name).value))
  {
    LookupIsNamed(ir.resources, typ, name);
    ResourceFound(ir.resources, typ);
    var r := ResourceNamed(ir.resources, typ).value;
    assert GoodTypeNames(ir) && GoodResource(r, ir);
    hide *;
    NamedApart(r.permissions, name);
    CanFound(r.permissions, CanName(name));
    var i :| 0 <= i < |ir.resources| && ir.resources[i] == r;
    var k :| 0 <= k < |r.permissions| && r.permissions[k] == CanNamed(r.permissions, CanName(name)).value;
    NamesDistinct(ir, r);
    OwnResource(ir, i);
    OwnPermission(r, k);
  }

  lemma NamesDistinct(ir: ModelIR, r: ResourceType)
    requires WellFormed(ir) && r in ir.resources
    ensures Distinct(TypeNames(ir)) && Distinct(RelationNames(r))
  {
    assert GoodTypeNames(ir) && GoodResource(r, ir);
  }

  lemma {:induction false} PermissionFound(ps: seq<Permission>, name: string)
    ensures PermissionNamed(ps, name).Some? <==> name in PermissionNames(ps)
    ensures PermissionNamed(ps, name).Some? ==> PermissionNamed(ps, name).value in ps
  {
    if ps != [] {
      PermissionFound(ps[1..], name);
      assert PermissionNames(ps) == [ps[0].name] + PermissionNames(ps[1..]);
    }
  }

  lemma WordHasNoColon(name: string)
    requires IsIdentifier(name)
    ensures ':' !in name
  {
  }

  lemma LookupFound(ir: ModelIR, typ: string, name: string) returns (r: ResourceType)
    requires WellFormed(ir) && LookupPermission(ir.resources, typ, name).Some?
    ensures r in ir.resources && r.name == typ && GoodResource(r, ir)
    ensures forall x :: DefOn(ir, typ, x) == DefIn(r, x)
    ensures var perm := LookupPermission(ir.resources, typ, name).value;
            perm in r.permissions && perm.name == name && GoodPermission(perm, r, ir)
  {
    LookupIsNamed(ir.resources, typ, name);
    ResourceFound(ir.resources, typ);
    r := ResourceNamed(ir.resources, typ).value;
    PermissionFound(r.permissions, name);
    PermissionKeepsName(r.permissions, name);
    assert GoodResource(r, ir);
    hide WellFormed, DefOn, DefIn, LookupPermission, PermissionNamed, GoodPermission, Distinct;
    NamesDistinct(ir, r);
    var i :| 0 <= i < |ir.resources| && ir.resources[i] == r;
    OwnResource(ir, i);
  }

  lemma {:induction false} PermissionKeepsName(ps: seq<Permission>, name: string)
    requires PermissionNamed(ps, name).Some?
    ensures PermissionNamed(ps, name).value.name == name
  {
    if ps[0].name != name {
      PermissionKeepsName(ps[1..], name);
    }
  }

  lemma LookupPresent(ir: ModelIR, r: ResourceType, name: string)
    requires Distinct(TypeNames(ir)) && r in ir.resources && HasPermission(r, name)
    ensures LookupPermission(ir.resources, r.name, name).Some?
  {
    hide LookupPermission, PermissionNamed, Distinct, TypeNames;
    LookupIsNamed(ir.resources, r.name, name);
    PermissionFound(r.permissions, name);
    var i :| 0 <= i < |ir.resources| && ir.resources[i] == r;
    OnlyOfItsName(ir, i);
  }

  lemma OnlyOfItsName(ir: ModelIR, i: nat)
    requires Distinct(TypeNames(ir)) && i < |ir.resources|
    ensures ResourceNamed(ir.resources, ir.resources[i].name) == Some(ir.resources[i])
  {
    var typ := ir.resources[i].name;
    ResourceFound(ir.resources, typ);
    assert ResourceNames(ir.resources)[i] == typ;
    var j :| 0 <= j < |ir.resources| && ir.resources[j] == ResourceNamed(ir.resources, typ).value;
    DistinctApart(GroupNames(ir.groups), ResourceNames(ir.resources), i, j);
  }

  /** A linked parent along an inherited relation has the permission too, and its type is an identifier. */
  lemma ParentHasPermission(ir: ModelIR, st: Store, obj: Obj, name: string, rel: string, parent: Obj)
    requires WellFormed(ir) && LookupPermission(ir.resources, obj.typ, name).Some?
    requires rel in LookupPermission(ir.resources, obj.typ, name).value.inheritFromParents
            && Links(ir, st, rel, obj, parent)
    ensures DefOn(ir, obj.typ, rel).Some? && DefOn(ir, obj.typ, rel).value.Linking?
    ensures LookupPermission(ir.resources, parent.typ, name).Some? && ':' !in parent.typ
  {
    var r := LookupFound(ir, obj.typ, name);
    var perm := LookupPermission(ir.resources, obj.typ, name).value;
    NamesDistinct(ir, r);
    hide LookupPermission, DefOn, WellFormed, Distinct, IsIdentifier, TypeNames;
    ParentFound(r.parents, rel);
    var p := ParentNamed(r.parents, rel).value;
    assert GoodParent(p, ir);
    assert DefIn(r, rel) == Some(Linking(p.parentTypes));
    assert parent.typ in ResourceNames(ir.resources);
    ResourceFound(ir.resources, parent.typ);
    var there := ResourceNamed(ir.resources, parent.typ).value;
    assert HasPermission(there, perm.name) by {
      assert InheritanceResolves(perm, r, ir);
    }
    LookupPresent(ir, there, name);
    ResourceNameIsIdentifier(ir, there);
    WordHasNoColon(parent.typ);
  }

  lemma ResourceNameIsIdentifier(ir: ModelIR, r: ResourceType)
    requires WellFormed(ir) && r in ir.resources
    ensures IsIdentifier(r.name)
  {
    hide IsIdentifier, GoodConditions, GoodResource, GoodSubjects;
    var i :| 0 <= i < |ir.resources| && ir.resources[i] == r;
    assert TypeNames(ir)[|ir.groups| + i] == r.name;
  }

  // ---------------------------------------------------------------------------
  // The search and the model speak of the same permission.

  /** The object's type has the permission, so that the search has something to expand. */
  ghost predicate Asks(ir: ModelIR, obj: Obj, name: string) {
    ':' !in obj.typ && LookupPermission(ir.resources, obj.typ, name).Some?
  }

  lemma PermissionOnObject(s: Setting, obj: Obj, name: string)
    requires ':' !in obj.typ
    ensures PermissionOn(s, name, Text(obj)) == LookupPermission(s.ir.resources, obj.typ, name)
  {
    hide IndexOf, LookupPermission;
    TextSplits(obj);
  }

  lemma GrantsMeansRole(s: Setting, st: Store, subject: Obj, name: string, obj: Obj)
    requires Decides(s, st, subject) && Asks(s.ir, obj, name)
    ensures var perm := LookupPermission(s.ir.resources, obj.typ, name).value;
            Grants(s, Text(subject), name, Text(obj)) <==>
            exists role :: role in perm.grantedByRoles && IrMeans(s.ir, st, subject, role, obj)
  {
    PermissionOnObject(s, obj, name);
    hide IrMeans, LookupPermission, PermissionOn, Text;
    assert forall role :: HoldsRole(s, Text(subject), role, Text(obj)) <==> IrMeans(s.ir, st, subject, role, obj);
  }

  lemma InheritsIsLinking(ir: ModelIR, obj: Obj, name: string, rel: string)
    requires WellFormed(ir) && Asks(ir, obj, name)
    requires rel in LookupPermission(ir.resources, obj.typ, name).value.inheritFromParents
    ensures LinkingOn(ir, obj.typ, rel)
  {
    LookupIsGrant(ir, obj.typ, name);
    InheritsFromWellFormed(ir);
    hide LookupPermission, WellFormed, DefOn;
  }

  lemma InheritsIsLink(s: Setting, st: Store, name: string, obj: Obj, rel: string, t: string)
    requires ListsOnlyLinks(s, st) && WellFormed(s.ir) && Asks(s.ir, obj, name)
    requires Inherits(s, name, Text(obj), rel, t)
    ensures rel in LookupPermission(s.ir.resources, obj.typ, name).value.inheritFromParents
    ensures IsLinkText(s.ir, st, rel, obj, t)
  {
    PermissionOnObject(s, obj, name);
    InheritsIsLinking(s.ir, obj, name, rel);
    hide LookupPermission, PermissionOn, Text, IsLinkText, LinkingOn, WellFormed;
  }

  lemma LinkIsInherited(s: Setting, st: Store, name: string, obj: Obj, rel: string, parent: Obj)
    requires ListsLinks(s, st) && WellFormed(s.ir) && Asks(s.ir, obj, name) && Links(s.ir, st, rel, obj, parent)
    requires rel in LookupPermission(s.ir.resources, obj.typ, name).value.inheritFromParents
    ensures Inherits(s, name, Text(obj), rel, Text(parent))
  {
    PermissionOnObject(s, obj, name);
    InheritsIsLinking(s.ir, obj, name, rel);
    hide LookupPermission, PermissionOn, Text, Links, LinkingOn, WellFormed;
    assert IsLinkText(s.ir, st, rel, obj, Text(parent));
  }

  lemma {:induction false} SearchedIsMeant(s: Setting, st: Store, subject: Obj, name: string, obj: Obj, n: nat)
    requires Decides(s, st, subject) && ListsOnlyLinks(s, st) && WellFormed(s.ir) && Asks(s.ir, obj, name)
    requires CanWithin(s, Text(subject), name, Text(obj), n)
    ensures IrMeans(s.ir, st, subject, CanName(name), obj)
    decreases n
  {
    var perm := LookupPermission(s.ir.resources, obj.typ, name).value;
    var (user, text) := (Text(subject), Text(obj));
    assert Grants(s, user, name, text) || (n > 0 && exists rel, t ::
             Inherits(s, name, text, rel, t) && CanWithin(s, user, name, t, n - 1));
    LookupIsGrant(s.ir, obj.typ, name);
    hide *;
    PermissionUnfolds(s.ir, st, subject, CanName(name), obj, perm);
    GrantsMeansRole(s, st, subject, name, obj);
    if !Grants(s, user, name, text) {
      var rel, t :| Inherits(s, name, text, rel, t) && CanWithin(s, user, name, t, n - 1);
      InheritsIsLink(s, st, name, obj, rel, t);
      var parent := LinkedParent(s.ir, st, rel, obj, t);
      ParentAsks(s.ir, st, obj, name, rel, parent);
      SearchedIsMeant(s, st, subject, name, parent, n - 1);
    }
  }

  lemma LinkedParent(ir: ModelIR, st: Store, rel: string, obj: Obj, t: string) returns (parent: Obj)
    requires IsLinkText(ir, st, rel, obj, t)
    ensures t == Text(parent) && Links(ir, st, rel, obj, parent)
  {
    hide Text, Links;
    parent :| t == Text(parent) && Links(ir, st, rel, obj, parent);
  }

  lemma ParentAsks(ir: ModelIR, st: Store, obj: Obj, name: string, rel: string, parent: Obj)
    requires WellFormed(ir) && Asks(ir, obj, name)
    requires rel in LookupPermission(ir.resources, obj.typ, name).value.inheritFromParents
            && Links(ir, st, rel, obj, parent)
    ensures Asks(ir, parent, name)
  {
    hide WellFormed, Links, LookupPermission, DefOn;
    ParentHasPermission(ir, st, obj, name, rel, parent);
  }

  lemma {:induction false} MeantIsSearched(s: Setting, st: Store, subject: Obj, name: string, obj: Obj, n: nat)
    requires Decides(s, st, subject) && ListsLinks(s, st) && WellFormed(s.ir) && Asks(s.ir, obj, name)
    requires IrHolds(s.ir, st, subject, CanName(name), obj, n)
    ensures Can(s, Text(subject), name, Text(obj))
    decreases n
  {
    var perm := LookupPermission(s.ir.resources, obj.typ, name).value;
    LookupIsGrant(s.ir, obj.typ, name);
    HoldsGranted(s.ir, st, subject, CanName(name), obj, perm, n);
    hide *;
    GrantsMeansRole(s, st, subject, name, obj);
    CanUnfolds(s, Text(subject), name, Text(obj));
    if role :| role in perm.grantedByRoles && IrHolds(s.ir, st, subject, role, obj, n - 1) {
      HoldsMeans(s.ir, st, subject, role, obj, n - 1);
    } else {
      var rel, parent :| rel in perm.inheritFromParents && Links(s.ir, st, rel, obj, parent)
        && IrHolds(s.ir, st, subject, CanName(name), parent, n - 1);
      LinkIsInherited(s, st, name, obj, rel, parent);
      ParentAsks(s.ir, st, obj, name, rel, parent);
      MeantIsSearched(s, st, subject, name, parent, n - 1);
    }
  }

  lemma HoldsMeans(ir: ModelIR, st: Store, subject: Obj, relation: string, obj: Obj, n: nat)
    requires IrHolds(ir, st, subject, relation, obj, n)
    ensures IrMeans(ir, st, subject, relation, obj)
  {
    hide IrHolds;
  }

  lemma HoldsGranted(ir: ModelIR, st: Store, subject: Obj, can: string, obj: Obj, perm: Permission, n: nat)
    requires DefOn(ir, obj.typ, can) == Some(Granted(perm)) && IrHolds(ir, st, subject, can, obj, n)
    ensures n > 0
    ensures || (exists role :: role in perm.grantedByRoles && IrHolds(ir, st, subject, role, obj, n - 1))
            || (exists rel, parent :: rel in perm.inheritFromParents && Links(ir, st, rel, obj, parent)
                  && IrHolds(ir, st, subject, can, parent, n - 1))
  {
    hide DefOn, Links;
  }

  /** On a type that has the permission, what the search looks for the compiled model decides, where the server lists
      no other parents than the model admits; and what the model decides the search looks for, where it lists all. */
  lemma PermittedTypeAgrees(s: Setting, st: Store, subject: Obj, name: string, obj: Obj)
    requires Decides(s, st, subject) && WellFormed(s.ir) && Asks(s.ir, obj, name)
    ensures var allowed := Means(Compiler.Emit(s.ir), st, subject, CanName(name), obj);
            && (ListsOnlyLinks(s, st) && Can(s, Text(subject), name, Text(obj)) ==> allowed)
            && (ListsLinks(s, st) && allowed ==> Can(s, Text(subject), name, Text(obj)))
  {
    var (user, text) := (Text(subject), Text(obj));
    CompilingKeepsMeaning(s.ir, st, subject, CanName(name), obj);
    hide Decides, ListsLinks, ListsOnlyLinks, WellFormed, Asks, Text, Means, Compiler.Emit, CanName, CanWithin, IrHolds;
    if Can(s, user, name, text) && ListsOnlyLinks(s, st) {
      var n: nat :| CanWithin(s, user, name, text, n);
      SearchedIsMeant(s, st, subject, name, obj, n);
    }
    if IrMeans(s.ir, st, subject, CanName(name), obj) && ListsLinks(s, st) {
      var n: nat :| IrHolds(s.ir, st, subject, CanName(name), obj, n);
      MeantIsSearched(s, st, subject, name, obj, n);
    }
  }
}
