/** Which of several paths the search finds. */
module FirstPath {
  import opened Prelude
  import opened ModelIr
  import opened Witness

  /** A chain of at most n parents leads from the object, past none of the objects on the path, to one that grants. */
  ghost predicate Leads(s: Setting, user: string, permission: string, obj: string, on: set<string>, n: nat)
    decreases n
  {
    && VisitKey(permission, obj) !in on
    && (|| Grants(s, user, permission, obj)
        || (n > 0 && exists relation, parent ::
              Inherits(s, permission, obj, relation, parent) && Leads(s, user, permission, parent, on, n - 1)))
  }

  ghost predicate NeverLeads(s: Setting, user: string, permission: string, obj: string, on: set<string>) {
    forall n: nat :: !Leads(s, user, permission, obj, on, n)
  }

  /** No tuple along the relation leads anywhere. */
  ghost predicate LeadsNowhere(s: Setting, user: string, permission: string, obj: string, relation: string,
      on: set<string>) {
    && s.gateway.read(obj, relation).Answered?
    && forall t :: t in s.gateway.read(obj, relation).value ==> NeverLeads(s, user, permission, t, on)
  }

  /** The parent is the k-th tuple along the relation, and none before it leads anywhere. */
  ghost predicate FirstTuple(s: Setting, user: string, permission: string, obj: string, relation: string,
      parent: string, on: set<string>, k: nat) {
    && s.gateway.read(obj, relation).Answered?
    && var tuples := s.gateway.read(obj, relation).value;
       && k < |tuples| && tuples[k] == parent
       && forall j :: 0 <= j < k ==> NeverLeads(s, user, permission, tuples[j], on)
  }

  /** No parent before this one, in the order of the relations and of their tuples, leads anywhere. */
  ghost predicate FirstStep(s: Setting, user: string, permission: string, obj: string, relation: string,
      parent: string, on: set<string>) {
    && PermissionOn(s, permission, obj).Some?
    && var relations := PermissionOn(s, permission, obj).value.inheritFromParents;
       exists i: nat, k: nat ::
         && i < |relations| && relations[i] == relation && FirstTuple(s, user, permission, obj, relation, parent, on, k)
         && forall j :: 0 <= j < i ==> LeadsNowhere(s, user, permission, obj, relations[j], on)
  }

  /** Each step of the path goes to the first parent that leads anywhere without coming back to the path. */
  ghost predicate FirstWay(s: Setting, user: string, permission: string, obj: string, path: seq<ReasonStep>,
      on: set<string>)
    decreases |path|
  {
    path != [] && path[0].ParentStep? ==>
      var here := on + {VisitKey(permission, obj)};
      && FirstStep(s, user, permission, obj, path[0].relation, path[0].parentObject, here)
      && FirstWay(s, user, permission, path[0].parentObject, path[1..], here)
  }

  // ---------------------------------------------------------------------------
  // What has been visited in vain.

  /** Whatever was visited off the path grants nothing, and its parents were visited too. */
  ghost predicate Dead(s: Setting, user: string, permission: string, on: set<string>, visited: set<string>) {
    on <= visited &&
    forall o {:trigger VisitKey(permission, o)} ::
      VisitKey(permission, o) in visited && VisitKey(permission, o) !in on ==>
        && !Grants(s, user, permission, o)
        && forall relation, parent ::
             Inherits(s, permission, o, relation, parent) ==> VisitKey(permission, parent) in visited
  }

  lemma {:induction false} DeadLeadsNowhere(s: Setting, user: string, permission: string, on: set<string>,
      visited: set<string>, obj: string, n: nat)
    requires Dead(s, user, permission, on, visited) && VisitKey(permission, obj) in visited
    ensures !Leads(s, user, permission, obj, on, n)
    decreases n
  {
    hide Grants, Inherits, VisitKey;
    if n > 0 && VisitKey(permission, obj) !in on {
      forall relation, parent | Inherits(s, permission, obj, relation, parent)
        ensures !Leads(s, user, permission, parent, on, n - 1)
      {
        DeadLeadsNowhere(s, user, permission, on, visited, parent, n - 1);
      }
    }
  }

  lemma DeadNever(s: Setting, user: string, permission: string, on: set<string>, visited: set<string>, obj: string)
    requires Dead(s, user, permission, on, visited) && VisitKey(permission, obj) in visited
    ensures NeverLeads(s, user, permission, obj, on)
  {
    forall n: nat ensures !Leads(s, user, permission, obj, on, n) {
      DeadLeadsNowhere(s, user, permission, on, visited, obj, n);
    }
  }

  lemma StillDead(s: Setting, user: string, permission: string, on: set<string>, visited: set<string>,
      after: set<string>)
    requires Dead(s, user, permission, on, visited)
    requires visited <= after && Exhausted(s, user, permission, visited, after)
    ensures Dead(s, user, permission, on, after)
  {
    hide Grants, Inherits, VisitKey;
  }

  lemma OnThePath(s: Setting, user: string, permission: string, on: set<string>, visited: set<string>, obj: string)
    requires Dead(s, user, permission, on, visited)
    ensures var key := VisitKey(permission, obj); Dead(s, user, permission, on + {key}, visited + {key})
  {
    hide Grants, Inherits, VisitKey;
  }

  // ---------------------------------------------------------------------------
  // The search.

  ghost predicate NoDeepParent(s: Setting, user: string, permission: string, obj: string, n: nat, on: set<string>) {
    forall relation, parent ::
      Inherits(s, permission, obj, relation, parent) ==> !FreshChain(s, user, permission, parent, n, on)
  }

  lemma DeepOnlyBelow(s: Setting, user: string, permission: string, obj: string, n: nat, on: set<string>)
    requires n > 0 && !FreshChain(s, user, permission, obj, n, on)
    requires VisitKey(permission, obj) !in on && !Grants(s, user, permission, obj)
    ensures NoDeepParent(s, user, permission, obj, n - 1, on + {VisitKey(permission, obj)})
  {
    hide Grants, Inherits, VisitKey;
  }

  lemma {:induction false} SearchFirst(s: Setting, user: string, permission: string, obj: string, depth: nat,
      visited: set<string>, on: set<string>)
    requires depth <= MAX_DEPTH + 1 && Search(s, user, permission, obj, depth, visited).Answered?
    requires Dead(s, user, permission, on, visited)
    requires !FreshChain(s, user, permission, obj, MAX_DEPTH + 1 - depth, on)
    ensures var out := Search(s, user, permission, obj, depth, visited).value;
            out.result.found ==> FirstWay(s, user, permission, obj, out.result.path, on)
    decreases MAX_DEPTH + 1 - depth, 2, 0
  {
    var key := VisitKey(permission, obj);
    var perm := PermissionOn(s, permission, obj);
    assert depth <= MAX_DEPTH;
    if key !in visited && perm.Some? {
      var found := GrantingRole(s, user, perm.value.grantedByRoles, obj);
      if found == Answered(None) {
        GrantingRoleDecides(s, user, perm.value.grantedByRoles, obj);
        assert !Grants(s, user, permission, obj);
        hide GrantingRole, Grants, FreshChain, Dead, PermissionOn, ClassifiedRole;
        OnThePath(s, user, permission, on, visited, obj);
        DeepOnlyBelow(s, user, permission, obj, MAX_DEPTH + 1 - depth, on);
        ParentsFirst(s, user, permission, obj, perm.value.inheritFromParents, 0, depth, visited + {key}, false,
                     on + {key});
      }
    }
  }

  lemma {:induction false} ParentsFirst(s: Setting, user: string, permission: string, obj: string,
      relations: seq<string>, i: nat, depth: nat, visited: set<string>, saw: bool, on: set<string>)
    requires depth <= MAX_DEPTH && i <= |relations|
    requires PermissionOn(s, permission, obj).Some?
    requires relations == PermissionOn(s, permission, obj).value.inheritFromParents
    requires SearchParents(s, user, permission, obj, relations[i..], depth, visited, saw).Answered?
    requires Dead(s, user, permission, on, visited)
    requires NoDeepParent(s, user, permission, obj, MAX_DEPTH - depth, on)
    requires forall j :: 0 <= j < i ==> LeadsNowhere(s, user, permission, obj, relations[j], on)
    ensures var out := SearchParents(s, user, permission, obj, relations[i..], depth, visited, saw).value;
            out.result.found ==>
              && out.result.path != [] && out.result.path[0].ParentStep?
              && var step := out.result.path[0];
                 && FirstStep(s, user, permission, obj, step.relation, step.parentObject, on)
                 && FirstWay(s, user, permission, step.parentObject, out.result.path[1..], on)
    decreases MAX_DEPTH + 1 - depth, 1, |relations| - i
  {
    if i < |relations| {
      var relation := relations[i];
      assert relations[i..][0] == relation && relations[i..][1..] == relations[i + 1..];
      var tuples := s.gateway.read(obj, relation).value;
      assert forall t :: t in tuples ==> Inherits(s, permission, obj, relation, t) by {
        assert relation in relations;
      }
      hide Dead, NeverLeads, FirstWay, NoDeepParent, Inherits, PermissionOn;
      assert tuples[0..] == tuples;
      TuplesFirst(s, user, permission, obj, relation, tuples, 0, depth, visited, saw, on);
      var first := SearchTuples(s, user, permission, relation, tuples, depth, visited, saw).value;
      if !first.result.found {
        ParentsFirst(s, user, permission, obj, relations, i + 1, depth, first.visited, first.result.truncated, on);
      }
    }
  }

  /** A parent searched in vain, with no chain below it that is cut off, leads nowhere. */
  lemma MissedTuple(s: Setting, user: string, permission: string, t: string, depth: nat, visited: set<string>,
      on: set<string>)
    requires depth <= MAX_DEPTH && Search(s, user, permission, t, depth + 1, visited).Answered?
    requires !Search(s, user, permission, t, depth + 1, visited).value.result.found
    requires Dead(s, user, permission, on, visited) && !FreshChain(s, user, permission, t, MAX_DEPTH - depth, on)
    ensures var after := Search(s, user, permission, t, depth + 1, visited).value.visited;
            Dead(s, user, permission, on, after) && NeverLeads(s, user, permission, t, on)
  {
    var first := Search(s, user, permission, t, depth + 1, visited).value;
    assert on <= visited;
    hide Search, FreshChain, NeverLeads, RealPath, VisitKey, Dead, Exhausted, FreshObjects;
    SearchGuarantee(s, user, permission, t, depth + 1, visited);
    if first.result.truncated {
      FreshOfMore(s, user, permission, t, MAX_DEPTH - depth, on, visited);
      assert false;
    }
    StillDead(s, user, permission, on, visited, first.visited);
    DeadNever(s, user, permission, on, first.visited, t);
  }

  lemma TuplesUnfold(s: Setting, user: string, permission: string, relation: string, tuples: seq<string>, k: nat,
      depth: nat, visited: set<string>, saw: bool)
    requires depth <= MAX_DEPTH && k < |tuples|
    requires SearchTuples(s, user, permission, relation, tuples[k..], depth, visited, saw).Answered?
    ensures Search(s, user, permission, tuples[k], depth + 1, visited).Answered?
    ensures var out := SearchTuples(s, user, permission, relation, tuples[k..], depth, visited, saw);
            var first := Search(s, user, permission, tuples[k], depth + 1, visited).value;
            && (first.result.found ==>
                  && out.value.result.found && |out.value.result.path| == |first.result.path| + 1
                  && out.value.result.path[0].ParentStep? && out.value.result.path[0].relation == relation
                  && out.value.result.path[0].parentObject == tuples[k]
                  && out.value.result.path[1..] == first.result.path)
            && (!first.result.found ==>
                  out == SearchTuples(s, user, permission, relation, tuples[k + 1..], depth, first.visited,
                                      saw || first.result.truncated))
  {
    assert tuples[k..][0] == tuples[k] && tuples[k..][1..] == tuples[k + 1..];
    hide Search, TypeOr;
  }

  lemma {:induction false} TuplesFirst(s: Setting, user: string, permission: string, obj: string, relation: string,
      tuples: seq<string>, k: nat, depth: nat, visited: set<string>, saw: bool, on: set<string>)
    requires depth <= MAX_DEPTH && k <= |tuples|
    requires s.gateway.read(obj, relation) == Answered(tuples)
    requires forall t :: t in tuples ==> Inherits(s, permission, obj, relation, t)
    requires SearchTuples(s, user, permission, relation, tuples[k..], depth, visited, saw).Answered?
    requires Dead(s, user, permission, on, visited)
    requires NoDeepParent(s, user, permission, obj, MAX_DEPTH - depth, on)
    requires forall j :: 0 <= j < k ==> NeverLeads(s, user, permission, tuples[j], on)
    ensures var out := SearchTuples(s, user, permission, relation, tuples[k..], depth, visited, saw).value;
            && (out.result.found ==>
                  && out.result.path != [] && out.result.path[0].ParentStep? && out.result.path[0].relation == relation
                  && (exists at: nat ::
                       FirstTuple(s, user, permission, obj, relation, out.result.path[0].parentObject, on, at))
                  && FirstWay(s, user, permission, out.result.path[0].parentObject, out.result.path[1..], on))
            && (!out.result.found ==>
                  Dead(s, user, permission, on, out.visited) && LeadsNowhere(s, user, permission, obj, relation, on))
    decreases MAX_DEPTH + 1 - depth, 0, |tuples| - k
  {
    if k < |tuples| {
      var t := tuples[k];
      TuplesUnfold(s, user, permission, relation, tuples, k, depth, visited, saw);
      assert t in tuples && Inherits(s, permission, obj, relation, t);
      assert !FreshChain(s, user, permission, t, MAX_DEPTH - depth, on) by {
        hide Inherits, FreshChain;
      }
      var first := Search(s, user, permission, t, depth + 1, visited).value;
      hide Search, SearchTuples, FreshChain, Inherits, NeverLeads, FirstWay, NoDeepParent, Dead;
      if first.result.found {
        SearchFirst(s, user, permission, t, depth + 1, visited, on);
        assert FirstTuple(s, user, permission, obj, relation, t, on, k);
      } else {
        MissedTuple(s, user, permission, t, depth, visited, on);
        TuplesFirst(s, user, permission, obj, relation, tuples, k + 1, depth, first.visited, saw
          || first.result.truncated, on);
      }
    }
  }

  /** Where no chain of nine parents starts that avoids cycles, the path found is the first: each step goes to the first
      parent, in the order of relations and tuples, that leads to an object that grants without coming back. */
  lemma FoundPathIsFirst(s: Setting, user: string, permission: string, obj: string)
    requires Search(s, user, permission, obj, 0, {}).Answered?
    requires Search(s, user, permission, obj, 0, {}).value.result.found
    requires !FreshChain(s, user, permission, obj, MAX_DEPTH + 1, {})
    ensures FirstWay(s, user, permission, obj, Search(s, user, permission, obj, 0, {}).value.result.path, {})
  {
    hide Search, FreshChain, FirstWay;
    SearchFirst(s, user, permission, obj, 0, {}, {});
  }
}
