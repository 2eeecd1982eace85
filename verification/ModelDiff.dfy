/** The structural difference of two models, as one sorted list. */
module ModelDiff {
  import opened Prelude
  import opened JsText
  import opened TextOrder
  import opened ModelIr

  datatype Change =
    | TypeAdded(typ: string)
    | TypeRemoved(typ: string)
    | RoleAdded(typ: string, role: string)
    | RoleRemoved(typ: string, role: string)
    | RoleAssignableChanged(typ: string, role: string, added: seq<string>, removed: seq<string>)
    | PermissionAdded(typ: string, permission: string)
    | PermissionRemoved(typ: string, permission: string)
    | GrantChanged(typ: string, permission: string, added: seq<string>, removed: seq<string>)
    | InheritChanged(typ: string, permission: string, added: seq<string>, removed: seq<string>)
    | ParentAdded(typ: string, relationName: string, parentType: string)
    | ParentRemoved(typ: string, relationName: string, parentType: string)

  // ---------------------------------------------------------------------------
  // The JSON text of a change, which orders the list.

  function KindName(c: Change): string {
    match c
    case TypeAdded(_) => "TYPE_ADDED"
    case TypeRemoved(_) => "TYPE_REMOVED"
    case RoleAdded(_, _) => "ROLE_ADDED"
    case RoleRemoved(_, _) => "ROLE_REMOVED"
    case RoleAssignableChanged(_, _, _, _) => "ROLE_ASSIGNABLE_CHANGED"
    case PermissionAdded(_, _) => "PERMISSION_ADDED"
    case PermissionRemoved(_, _) => "PERMISSION_REMOVED"
    case GrantChanged(_, _, _, _) => "GRANT_CHANGED"
    case InheritChanged(_, _, _, _) => "PERMISSION_INHERIT_CHANGED"
    case ParentAdded(_, _, _) => "PARENT_ADDED"
    case ParentRemoved(_, _, _) => "PARENT_REMOVED"
  }

  /** Array items, from the first to the closing bracket. */
  function Items(ss: seq<string>): string {
    if ss == [] then "]" else Quote(ss[0]) + (if |ss| == 1 then "]" else "," + Items(ss[1..]))
  }

  function ArrayText(ss: seq<string>): string {
    "[" + Items(ss)
  }

  function AddedRemoved(added: seq<string>, removed: seq<string>): string {
    ",\"added\":" + (ArrayText(added) + (",\"removed\":" + (ArrayText(removed) + "}")))
  }

  /** What follows the type's name. */
  function Rest(c: Change): string {
    match c
    case TypeAdded(_) => "}"
    case TypeRemoved(_) => "}"
    case RoleAdded(_, role) => ",\"role\":" + (Quote(role) + "}")
    case RoleRemoved(_, role) => ",\"role\":" + (Quote(role) + "}")
    case RoleAssignableChanged(_, role, added, removed) => ",\"role\":" + (Quote(role) + AddedRemoved(added, removed))
    case PermissionAdded(_, permission) => ",\"permission\":" + (Quote(permission) + "}")
    case PermissionRemoved(_, permission) => ",\"permission\":" + (Quote(permission) + "}")
    case GrantChanged(_, permission, added, removed) => ",\"permission\":"
      + (Quote(permission) + AddedRemoved(added, removed))
    case InheritChanged(_, permission, added, removed) => ",\"permission\":"
      + (Quote(permission) + AddedRemoved(added, removed))
    case ParentAdded(_, relation, parent) =>
      ",\"relationName\":" + (Quote(relation) + (",\"parentType\":" + (Quote(parent) + "}")))
    case ParentRemoved(_, relation, parent) =>
      ",\"relationName\":" + (Quote(relation) + (",\"parentType\":" + (Quote(parent) + "}")))
  }

  function JsonText(c: Change): string {
    "{\"kind\":" + (Quote(KindName(c)) + (",\"type\":" + (Quote(c.typ) + Rest(c))))
  }

  lemma SamePrefix(p: string, x: string, y: string)
    requires p + x == p + y
    ensures x == y
  {
    assert x == (p + x)[|p|..] && y == (p + y)[|p|..];
  }

  /** A quoted string can be told from whatever follows it. */
  lemma QuotedApart(a: string, x: string, b: string, y: string)
    requires Quote(a) + x == Quote(b) + y
    ensures a == b && x == y
  {
    assert (Quote(a) + x)[1..] == QuoteBody(a) + "\"" + x;
    assert (Quote(b) + y)[1..] == QuoteBody(b) + "\"" + y;
    UnquoteQuoteBody(a, x);
    UnquoteQuoteBody(b, y);
  }

  lemma ItemsStart(ss: seq<string>, x: string)
    ensures Items(ss) + x != "" && (Items(ss) + x)[0] == if ss == [] then ']' else '"'
  {
  }

  lemma {:induction false} ItemsApart(a: seq<string>, x: string, b: seq<string>, y: string)
    requires Items(a) + x == Items(b) + y
    ensures a == b && x == y
  {
    ItemsStart(a, x);
    ItemsStart(b, y);
    if a == [] {
      SamePrefix("]", x, y);
    } else {
      var (u, v) := ((if |a| == 1 then "]" else "," + Items(a[1..]))
        + x, (if |b| == 1 then "]" else "," + Items(b[1..])) + y);
      ConcatAssociates(Quote(a[0]), if |a| == 1 then "]" else "," + Items(a[1..]), x);
      ConcatAssociates(Quote(b[0]), if |b| == 1 then "]" else "," + Items(b[1..]), y);
      hide Quote, Items;
      QuotedApart(a[0], u, b[0], v);
      assert a == [a[0]] + a[1..] && b == [b[0]] + b[1..];
      if |a| == 1 || |b| == 1 {
        assert u[0] == v[0];
        SamePrefix("]", x, y);
      } else {
        ConcatAssociates(",", Items(a[1..]), x);
        ConcatAssociates(",", Items(b[1..]), y);
        SamePrefix(",", Items(a[1..]) + x, Items(b[1..]) + y);
        ItemsApart(a[1..], x, b[1..], y);
      }
    }
  }

  lemma ArraysApart(a: seq<string>, x: string, b: seq<string>, y: string)
    requires ArrayText(a) + x == ArrayText(b) + y
    ensures a == b && x == y
  {
    ConcatAssociates("[", Items(a), x);
    ConcatAssociates("[", Items(b), y);
    SamePrefix("[", Items(a) + x, Items(b) + y);
    ItemsApart(a, x, b, y);
  }

  lemma ListsApart(a: seq<string>, a': seq<string>, b: seq<string>, b': seq<string>)
    requires AddedRemoved(a, a') == AddedRemoved(b, b')
    ensures a == b && a' == b'
  {
    hide ArrayText;
    var (x, y) := (",\"removed\":" + (ArrayText(a') + "}"), ",\"removed\":" + (ArrayText(b') + "}"));
    SamePrefix(",\"added\":", ArrayText(a) + x, ArrayText(b) + y);
    ArraysApart(a, x, b, y);
    SamePrefix(",\"removed\":", ArrayText(a') + "}", ArrayText(b') + "}");
    ArraysApart(a', "}", b', "}");
  }

  /** Two changes are told apart by the text that follows their kind and type. */
  lemma RestApart(c: Change, d: Change)
    requires c.typ == d.typ && KindName(c) == KindName(d) && Rest(c) == Rest(d)
    ensures c == d
  {
    hide Quote, AddedRemoved;
    match c
    case TypeAdded(_) =>
    case TypeRemoved(_) =>
    case RoleAdded(_, role) =>
      SamePrefix(",\"role\":", Quote(role) + "}", Quote(d.role) + "}");
      QuotedApart(role, "}", d.role, "}");
    case RoleRemoved(_, role) =>
      SamePrefix(",\"role\":", Quote(role) + "}", Quote(d.role) + "}");
      QuotedApart(role, "}", d.role, "}");
    case RoleAssignableChanged(_, role, added, removed) =>
      var (x, y) := (AddedRemoved(added, removed), AddedRemoved(d.added, d.removed));
      SamePrefix(",\"role\":", Quote(role) + x, Quote(d.role) + y);
      QuotedApart(role, x, d.role, y);
      ListsApart(added, removed, d.added, d.removed);
    case PermissionAdded(_, permission) =>
      SamePrefix(",\"permission\":", Quote(permission) + "}", Quote(d.permission) + "}");
      QuotedApart(permission, "}", d.permission, "}");
    case PermissionRemoved(_, permission) =>
      SamePrefix(",\"permission\":", Quote(permission) + "}", Quote(d.permission) + "}");
      QuotedApart(permission, "}", d.permission, "}");
    case GrantChanged(_, permission, added, removed) =>
      var (x, y) := (AddedRemoved(added, removed), AddedRemoved(d.added, d.removed));
      SamePrefix(",\"permission\":", Quote(permission) + x, Quote(d.permission) + y);
      QuotedApart(permission, x, d.permission, y);
      ListsApart(added, removed, d.added, d.removed);
    case InheritChanged(_, permission, added, removed) =>
      var (x, y) := (AddedRemoved(added, removed), AddedRemoved(d.added, d.removed));
      SamePrefix(",\"permission\":", Quote(permission) + x, Quote(d.permission) + y);
      QuotedApart(permission, x, d.permission, y);
      ListsApart(added, removed, d.added, d.removed);
    case ParentAdded(_, relation, parent) =>
      ParentsApart(relation, parent, d.relationName, d.parentType);
    case ParentRemoved(_, relation, parent) =>
      ParentsApart(relation, parent, d.relationName, d.parentType);
  }

  lemma ParentsApart(a: string, a': string, b: string, b': string)
    requires ",\"relationName\":" + (Quote(a) + (",\"parentType\":" + (Quote(a') + "}"))) ==
             ",\"relationName\":" + (Quote(b) + (",\"parentType\":" + (Quote(b') + "}")))
    ensures a == b && a' == b'
  {
    hide Quote;
    var (x, y) := (",\"parentType\":" + (Quote(a') + "}"), ",\"parentType\":" + (Quote(b') + "}"));
    SamePrefix(",\"relationName\":", Quote(a) + x, Quote(b) + y);
    QuotedApart(a, x, b, y);
    SamePrefix(",\"parentType\":", Quote(a') + "}", Quote(b') + "}");
    QuotedApart(a', "}", b', "}");
  }

  /** No two changes have the same JSON text. */
  lemma JsonTextInjective(c: Change, d: Change)
    requires JsonText(c) == JsonText(d)
    ensures c == d
  {
    hide Quote, Rest, KindName;
    var (x, y) := (",\"type\":" + (Quote(c.typ) + Rest(c)), ",\"type\":" + (Quote(d.typ) + Rest(d)));
    SamePrefix("{\"kind\":", Quote(KindName(c)) + x, Quote(KindName(d)) + y);
    QuotedApart(KindName(c), x, KindName(d), y);
    SamePrefix(",\"type\":", Quote(c.typ) + Rest(c), Quote(d.typ) + Rest(d));
    QuotedApart(c.typ, Rest(c), d.typ, Rest(d));
    RestApart(c, d);
  }

  // ---------------------------------------------------------------------------
  // What is compared.

  function SubjectKey(ref: SubjectRef): string {
    match ref
    case Group(group, _) => group + "#member"
    case User(_) => "user"
  }

  function SubjectKeys(role: Role): set<string> {
    set ref | ref in role.assignableBy :: SubjectKey(ref)
  }

  /** A later element of a name stands for an earlier one. */
  function ByName<T>(s: seq<T>, name: T -> string): map<string, T> {
    if s == [] then map[] else ByName(s[..|s| - 1], name)[name(s[|s| - 1]) := s[|s| - 1]]
  }

  function ResourceName(r: ResourceType): string { r.name }
  function RoleName(role: Role): string { role.name }
  function PermissionName(p: Permission): string { p.name }

  function ResourceMap(rs: seq<ResourceType>): map<string, ResourceType> { ByName(rs, ResourceName) }
  function RoleMap(rs: seq<Role>): map<string, Role> { ByName(rs, RoleName) }
  function PermissionMap(ps: seq<Permission>): map<string, Permission> { ByName(ps, PermissionName) }

  /** A relation and a type in one string, cut again at the first NUL. */
  function Pair(relation: string, typ: string): string {
    relation + "\0" + typ
  }

  function ParentPairs(r: ResourceType): set<string> {
    set p, t | p in r.parents && t in p.parentTypes :: Pair(p.relationName, t)
  }

  method SplitPair(pair: string) returns (relation: string, typ: string)
    ensures (relation, typ) == Halves(pair)
  {
    for i := 0 to |pair|
      invariant '\0' !in pair[..i]
    {
      if pair[i] == '\0' {
        FirstNul(pair, i);
        return pair[..i], pair[i + 1..];
      }
    }
    assert pair[..|pair|] == pair;
    return pair, "";
  }

  function Halves(pair: string): (string, string) {
    var i := IndexOf(pair, '\0');
    if i < 0 then (pair, "") else (pair[..i], pair[i + 1..])
  }

  lemma FirstNul(pair: string, i: nat)
    requires i < |pair| && pair[i] == '\0' && '\0' !in pair[..i]
    ensures IndexOf(pair, '\0') == i
  {
    assert pair[i] in pair;
  }

  lemma PairHalves(relation: string, typ: string)
    requires '\0' !in relation
    ensures Halves(Pair(relation, typ)) == (relation, typ)
  {
    var pair := Pair(relation, typ);
    assert pair[..|relation|] == relation && pair[|relation| + 1..] == typ;
    FirstNul(pair, |relation|);
  }

  lemma CutAt(s: string, i: nat)
    requires i < |s|
    ensures s == s[..i] + ([s[i]] + s[i + 1..])
  {
  }

  lemma HalvesApart(a: string, b: string)
    requires '\0' in a && '\0' in b && Halves(a) == Halves(b)
    ensures a == b
  {
    CutAt(a, IndexOf(a, '\0'));
    CutAt(b, IndexOf(b, '\0'));
  }

  // ---------------------------------------------------------------------------
  // Which changes are reported.

  predicate Differ(from: set<string>, to: set<string>, added: seq<string>, removed: seq<string>) {
    from != to && added == Listed(to - from) && removed == Listed(from - to)
  }

  /** c is a difference between the resource fr and its later self tr. */
  ghost predicate ReportsIn(fr: ResourceType, tr: ResourceType, c: Change) {
    var (fRoles, tRoles) := (RoleMap(fr.roles), RoleMap(tr.roles));
    var (fPerms, tPerms) := (PermissionMap(fr.permissions), PermissionMap(tr.permissions));
    match c
    case RoleAdded(_, role) => role in tRoles && role !in fRoles
    case RoleRemoved(_, role) => role in fRoles && role !in tRoles
    case RoleAssignableChanged(_, role, added, removed) =>
      role in fRoles && role in tRoles && Differ(SubjectKeys(fRoles[role]), SubjectKeys(tRoles[role]), added, removed)
    case PermissionAdded(_, permission) => permission in tPerms && permission !in fPerms
    case PermissionRemoved(_, permission) => permission in fPerms && permission !in tPerms
    case GrantChanged(_, permission, added, removed) =>
      permission in fPerms && permission in tPerms
      && Differ(SetOf(fPerms[permission].grantedByRoles), SetOf(tPerms[permission].grantedByRoles), added, removed)
    case InheritChanged(_, permission, added, removed) =>
      permission in fPerms && permission in tPerms
      && Differ(SetOf(fPerms[permission].inheritFromParents), SetOf(tPerms[permission].inheritFromParents), added,
           removed)
    case ParentAdded(_, relation, parent) => exists pair ::
      pair in ParentPairs(tr) - ParentPairs(fr) && Halves(pair) == (relation, parent)
    case ParentRemoved(_, relation, parent) => exists pair ::
      pair in ParentPairs(fr) - ParentPairs(tr) && Halves(pair) == (relation, parent)
    case _ => false
  }

  function TypeSet(ir: ModelIR): set<string> {
    SetOf(TypeNames(ir))
  }

  /** c is a difference between the models. */
  ghost predicate Reports(from: ModelIR, to: ModelIR, c: Change) {
    match c
    case TypeAdded(typ) => typ in TypeSet(to) && typ !in TypeSet(from)
    case TypeRemoved(typ) => typ in TypeSet(from) && typ !in TypeSet(to)
    case _ =>
      && c.typ in ResourceMap(from.resources) && c.typ in ResourceMap(to.resources)
      && ReportsIn(ResourceMap(from.resources)[c.typ], ResourceMap(to.resources)[c.typ], c)
  }

  // ---------------------------------------------------------------------------
  // The loops, over sets and maps in any order.

  method SetDiff(from: set<string>, to: set<string>) returns (added: seq<string>, removed: seq<string>)
    ensures added == Listed(to - from) && removed == Listed(from - to)
  {
    added := Missing(from, to);
    removed := Missing(to, from);
  }

  /** The elements of to that from lacks, sorted. */
  method Missing(from: set<string>, to: set<string>) returns (missing: seq<string>)
    ensures missing == Listed(to - from)
  {
    hide Listed, SortByText, Ascending, TextLess;
    missing := [];
    var todo := to;
    while todo != {}
      invariant todo <= to && Distinct(missing)
      invariant forall x :: x in missing <==> x in to - from && x !in todo
    {
      var x :| x in todo;
      if x !in from {
        AppendDistinct(missing, x);
        missing := missing + [x];
      }
      todo := todo - {x};
    }
    SortedIsListed(missing, to - from);
    missing := SortByText(missing, Itself);
  }

  lemma AppendDistinct<T>(s: seq<T>, x: T)
    requires Distinct(s) && x !in s
    ensures Distinct(s + [x])
  {
  }

  lemma DifferMeaning(from: set<string>, to: set<string>)
    ensures from != to <==> Listed(to - from) != [] || Listed(from - to) != []
  {
    hide Listed;
    if Listed(to - from) == [] && Listed(from - to) == [] {
      forall x ensures x in from <==> x in to {
        assert x in Listed(to - from) <==> x in to - from;
        assert x in Listed(from - to) <==> x in from - to;
      }
      assert from == to;
    }
    if from == to {
      assert to - from == {} && from - to == {};
      ListedNone(to - from);
      ListedNone(from - to);
    }
  }

  lemma ListedNone(names: set<string>)
    requires names == {}
    ensures Listed(names) == []
  {
  }

  lemma ConcatDistinct(a: seq<Change>, b: seq<Change>)
    requires Distinct(a) && Distinct(b) && forall c :: !(c in a && c in b)
    ensures Distinct(a + b)
  {
    forall i, j | 0 <= i < j < |a + b| ensures (a + b)[i] != (a + b)[j] {
      if i < |a| && j >= |a| {
        assert a[i] in a && b[j - |a|] in b;
      }
    }
  }

  method AddChange(changes: seq<Change>, c: Change) returns (more: seq<Change>)
    requires Distinct(changes) && c !in changes
    ensures Distinct(more) && more == changes + [c]
  {
    AppendDistinct(changes, c);
    more := changes + [c];
  }

  predicate IsRoleUpdate(c: Change) {
    c.RoleAdded? || c.RoleAssignableChanged?
  }

  method DiffRoles(name: string, fr: ResourceType, tr: ResourceType) returns (changes: seq<Change>)
    ensures Distinct(changes)
    ensures forall c :: c in changes <==> c.typ == name && (IsRoleUpdate(c) || c.RoleRemoved?) && ReportsIn(fr, tr, c)
  {
    hide RoleMap, PermissionMap, ParentPairs, SubjectKeys, Listed, Halves;
    changes := [];
    var (fRoles, tRoles) := (RoleMap(fr.roles), RoleMap(tr.roles));
    var todo := tRoles.Keys;
    while todo != {}
      invariant todo <= tRoles.Keys && Distinct(changes)
      invariant forall c ::
              c in changes <==> c.typ == name && IsRoleUpdate(c) && ReportsIn(fr, tr, c) && c.role !in todo
    {
      var rn :| rn in todo;
      todo := todo - {rn};
      if rn !in fRoles {
        changes := AddChange(changes, RoleAdded(name, rn));
      } else {
        DifferMeaning(SubjectKeys(fRoles[rn]), SubjectKeys(tRoles[rn]));
        var added, removed := SetDiff(SubjectKeys(fRoles[rn]), SubjectKeys(tRoles[rn]));
        if |added| > 0 || |removed| > 0 {
          changes := AddChange(changes, RoleAssignableChanged(name, rn, added, removed));
        }
      }
    }
    todo := fRoles.Keys;
    while todo != {}
      invariant todo <= fRoles.Keys && Distinct(changes)
      invariant forall c :: c in changes <==>
                  c.typ == name && ReportsIn(fr, tr, c) && (IsRoleUpdate(c) || (c.RoleRemoved? && c.role !in todo))
    {
      var rn :| rn in todo;
      todo := todo - {rn};
      if rn !in tRoles {
        changes := AddChange(changes, RoleRemoved(name, rn));
      }
    }
  }

  predicate IsPermissionUpdate(c: Change) {
    c.PermissionAdded? || c.GrantChanged? || c.InheritChanged?
  }

  /** The changes of a permission that both sides have. */
  method PermissionUpdates(name: string, pn: string, fp: Permission, tp: Permission) returns (changes: seq<Change>)
    ensures Distinct(changes)
    ensures forall c :: c in changes <==>
              || (exists added, removed :: c == GrantChanged(name, pn, added, removed)
                    && Differ(SetOf(fp.grantedByRoles), SetOf(tp.grantedByRoles), added, removed))
              || (exists added, removed :: c == InheritChanged(name, pn, added, removed)
                    && Differ(SetOf(fp.inheritFromParents), SetOf(tp.inheritFromParents), added, removed))
  {
    hide Listed, SetOf;
    changes := [];
    DifferMeaning(SetOf(fp.grantedByRoles), SetOf(tp.grantedByRoles));
    DifferMeaning(SetOf(fp.inheritFromParents), SetOf(tp.inheritFromParents));
    var gAdded, gRemoved := SetDiff(SetOf(fp.grantedByRoles), SetOf(tp.grantedByRoles));
    if |gAdded| > 0 || |gRemoved| > 0 {
      changes := AddChange(changes, GrantChanged(name, pn, gAdded, gRemoved));
    }
    var iAdded, iRemoved := SetDiff(SetOf(fp.inheritFromParents), SetOf(tp.inheritFromParents));
    if |iAdded| > 0 || |iRemoved| > 0 {
      changes := AddChange(changes, InheritChanged(name, pn, iAdded, iRemoved));
    }
  }

  method DiffPermissions(name: string, fr: ResourceType, tr: ResourceType) returns (changes: seq<Change>)
    ensures Distinct(changes)
    ensures forall c ::
            c in changes <==> c.typ == name && (IsPermissionUpdate(c) || c.PermissionRemoved?) && ReportsIn(fr, tr, c)
  {
    hide RoleMap, PermissionMap, ParentPairs, SubjectKeys, Listed, Halves, SetOf, Differ;
    changes := [];
    var (fPerms, tPerms) := (PermissionMap(fr.permissions), PermissionMap(tr.permissions));
    var todo := tPerms.Keys;
    while todo != {}
      invariant todo <= tPerms.Keys && Distinct(changes)
      invariant forall c ::
              c in changes <==> c.typ == name && IsPermissionUpdate(c) && ReportsIn(fr, tr, c) && c.permission !in todo
    {
      var pn :| pn in todo;
      todo := todo - {pn};
      if pn !in fPerms {
        changes := AddChange(changes, PermissionAdded(name, pn));
      } else {
        var more := PermissionUpdates(name, pn, fPerms[pn], tPerms[pn]);
        ConcatDistinct(changes, more);
        changes := changes + more;
      }
    }
    todo := fPerms.Keys;
    while todo != {}
      invariant todo <= fPerms.Keys && Distinct(changes)
      invariant forall c :: c in changes <==>
                  c.typ == name && ReportsIn(fr, tr, c)
                    && (IsPermissionUpdate(c) || (c.PermissionRemoved? && c.permission !in todo))
    {
      var pn :| pn in todo;
      todo := todo - {pn};
      if pn !in tPerms {
        changes := AddChange(changes, PermissionRemoved(name, pn));
      }
    }
  }

  function ParentChange(name: string, added: bool, pair: string): Change {
    var (relation, parent) := Halves(pair);
    if added then ParentAdded(name, relation, parent) else ParentRemoved(name, relation, parent)
  }

  lemma PairsHaveNul(r: ResourceType, pair: string)
    requires pair in ParentPairs(r)
    ensures '\0' in pair
  {
    var p, t :| p in r.parents && t in p.parentTypes && pair == Pair(p.relationName, t);
    assert pair[|p.relationName|] == '\0';
  }

  lemma ParentChangesApart(name: string, added: bool, r: ResourceType, a: string, b: string)
    requires a in ParentPairs(r) && b in ParentPairs(r) && ParentChange(name, added, a) == ParentChange(name, added, b)
    ensures a == b
  {
    PairsHaveNul(r, a);
    PairsHaveNul(r, b);
    HalvesApart(a, b);
  }

  /** The pairs of one side that the other lacks, as changes. */
  method MissingParents(name: string, added: bool, fr: ResourceType, tr: ResourceType) returns (changes: seq<Change>)
    ensures Distinct(changes)
    ensures forall c :: c in changes <==> exists pair ::
            pair in ParentPairs(tr) - ParentPairs(fr) && c == ParentChange(name, added, pair)
  {
    hide ParentPairs, Halves;
    changes := [];
    var (fp, tp) := (ParentPairs(fr), ParentPairs(tr));
    var todo := tp;
    while todo != {}
      invariant todo <= tp && Distinct(changes)
      invariant forall c :: c in changes <==> exists pair ::
              pair in tp - fp && pair !in todo && c == ParentChange(name, added, pair)
    {
      var pair :| pair in todo;
      todo := todo - {pair};
      if pair !in fp {
        var relation, parent := SplitPair(pair);
        ghost var c := ParentChange(name, added, pair);
        forall other | other in tp && ParentChange(name, added, other) == c ensures other == pair {
          ParentChangesApart(name, added, tr, other, pair);
        }
        hide ParentChange;
        changes := AddChange(changes, if added then ParentAdded(name, relation, parent)
          else ParentRemoved(name, relation, parent));
      }
    }
  }

  method DiffParents(name: string, fr: ResourceType, tr: ResourceType) returns (changes: seq<Change>)
    ensures Distinct(changes)
    ensures forall c :: c in changes <==> c.typ == name && (c.ParentAdded? || c.ParentRemoved?) && ReportsIn(fr, tr, c)
  {
    var added := MissingParents(name, true, fr, tr);
    var removed := MissingParents(name, false, tr, fr);
    hide ParentPairs, Halves, RoleMap, PermissionMap, Distinct;
    ConcatDistinct(added, removed);
    changes := added + removed;
  }

  method DiffTypes(from: ModelIR, to: ModelIR) returns (changes: seq<Change>)
    ensures Distinct(changes)
    ensures forall c :: c in changes <==> (c.TypeAdded? || c.TypeRemoved?) && Reports(from, to, c)
  {
    hide ReportsIn, TypeSet, ResourceMap;
    changes := [];
    var (fromTypes, toTypes) := (TypeSet(from), TypeSet(to));
    var todo := toTypes;
    while todo != {}
      invariant todo <= toTypes && Distinct(changes)
      invariant forall c :: c in changes <==> c.TypeAdded? && Reports(from, to, c) && c.typ !in todo
    {
      var t :| t in todo;
      todo := todo - {t};
      if t !in fromTypes {
        changes := AddChange(changes, TypeAdded(t));
      }
    }
    todo := fromTypes;
    while todo != {}
      invariant todo <= fromTypes && Distinct(changes)
      invariant forall c ::
              c in changes <==> Reports(from, to, c) && (c.TypeAdded? || (c.TypeRemoved? && c.typ !in todo))
    {
      var t :| t in todo;
      todo := todo - {t};
      if t !in toTypes {
        changes := AddChange(changes, TypeRemoved(t));
      }
    }
  }

  method DiffResource(name: string, fr: ResourceType, tr: ResourceType) returns (changes: seq<Change>)
    ensures Distinct(changes)
    ensures forall c :: c in changes <==> c.typ == name && ReportsIn(fr, tr, c)
  {
    var roles := DiffRoles(name, fr, tr);
    var permissions := DiffPermissions(name, fr, tr);
    var parents := DiffParents(name, fr, tr);
    hide Distinct, ParentPairs, Halves, RoleMap, PermissionMap, Differ;
    ConcatDistinct(roles, permissions);
    ConcatDistinct(roles + permissions, parents);
    changes := roles + permissions + parents;
  }

  /** r lists, in ascending order of their JSON text, exactly the differences between the models. */
  ghost predicate IsDiff(from: ModelIR, to: ModelIR, r: seq<Change>) {
    Ascending(r, JsonText) && forall c :: c in r <==> Reports(from, to, c)
  }

  method DiffModels(from: ModelIR, to: ModelIR) returns (r: seq<Change>)
    ensures IsDiff(from, to, r)
  {
    var changes := DiffTypes(from, to);
    var (fromRes, toRes) := (ResourceMap(from.resources), ResourceMap(to.resources));
    var todo := toRes.Keys;
    hide ResourceMap, TypeSet, ReportsIn, Distinct, JsonText, SortByText, Ascending;
    while todo != {}
      invariant todo <= toRes.Keys && Distinct(changes)
      invariant forall c :: c in changes <==> Reports(from, to, c) && (c.TypeAdded? || c.TypeRemoved? || c.typ !in todo)
    {
      var name :| name in todo;
      todo := todo - {name};
      if name in fromRes {
        var more := DiffResource(name, fromRes[name], toRes[name]);
        NoTypeChange(fromRes[name], toRes[name]);
        ConcatDistinct(changes, more);
        changes := changes + more;
      }
    }
    SortedChanges(changes);
    r := SortByText(changes, JsonText);
    forall c ensures c in r <==> c in changes {
      SortByTextMember(changes, JsonText, c);
    }
  }

  lemma NoTypeChange(fr: ResourceType, tr: ResourceType)
    ensures forall c :: ReportsIn(fr, tr, c) ==> !c.TypeAdded? && !c.TypeRemoved?
  {
    hide ParentPairs, Halves, RoleMap, PermissionMap, Differ;
  }

  lemma SortedChanges(changes: seq<Change>)
    requires Distinct(changes)
    ensures Ascending(SortByText(changes, JsonText), JsonText)
  {
    hide JsonText;
    forall i, j | 0 <= i < j < |changes| ensures JsonText(changes[i]) != JsonText(changes[j]) {
      if JsonText(changes[i]) == JsonText(changes[j]) {
        JsonTextInjective(changes[i], changes[j]);
      }
    }
    SortByTextAscends(changes, JsonText);
  }

  // ---------------------------------------------------------------------------
  // What the list says.

  /** There is one such list: whatever order maps are iterated in, the answer is the same. */
  lemma DiffIsDetermined(from: ModelIR, to: ModelIR, a: seq<Change>, b: seq<Change>)
    requires IsDiff(from, to, a) && IsDiff(from, to, b)
    ensures a == b
  {
    hide Ascending, Reports, JsonText;
    ListingUnique(a, b, JsonText);
  }

  /** The change seen from the other side. */
  function Mirror(c: Change): Change {
    match c
    case TypeAdded(typ) => TypeRemoved(typ)
    case TypeRemoved(typ) => TypeAdded(typ)
    case RoleAdded(typ, role) => RoleRemoved(typ, role)
    case RoleRemoved(typ, role) => RoleAdded(typ, role)
    case RoleAssignableChanged(typ, role, added, removed) => RoleAssignableChanged(typ, role, removed, added)
    case PermissionAdded(typ, permission) => PermissionRemoved(typ, permission)
    case PermissionRemoved(typ, permission) => PermissionAdded(typ, permission)
    case GrantChanged(typ, permission, added, removed) => GrantChanged(typ, permission, removed, added)
    case InheritChanged(typ, permission, added, removed) => InheritChanged(typ, permission, removed, added)
    case ParentAdded(typ, relation, parent) => ParentRemoved(typ, relation, parent)
    case ParentRemoved(typ, relation, parent) => ParentAdded(typ, relation, parent)
  }

  lemma MirrorReports(from: ModelIR, to: ModelIR, c: Change)
    ensures Reports(from, to, c) <==> Reports(to, from, Mirror(c))
  {
    hide ResourceMap, TypeSet, ParentPairs, Halves, RoleMap, PermissionMap, SubjectKeys, Listed, SetOf;
  }

  /** Swapping the models swaps added and removed throughout. */
  lemma SwapMirrors(from: ModelIR, to: ModelIR, there: seq<Change>, back: seq<Change>)
    requires IsDiff(from, to, there) && IsDiff(to, from, back)
    ensures forall c :: c in there <==> Mirror(c) in back
    ensures |there| == |back|
  {
    forall c ensures c in there <==> Mirror(c) in back {
      MirrorReports(from, to, c);
    }
    assert forall c :: Mirror(Mirror(c)) == c;
    MirrorLength(there, back);
  }

  lemma MirrorTwice(c: Change)
    ensures Mirror(Mirror(c)) == c
  {
  }

  lemma MirroredMembers(there: seq<Change>, back: seq<Change>)
    requires forall c :: c in there <==> Mirror(c) in back
    ensures forall c :: c in Map(there, Mirror) <==> c in back
  {
    hide Mirror;
    var mirrored := Map(there, Mirror);
    forall c ensures c in mirrored <==> c in back {
      MirrorTwice(c);
      if c in mirrored {
        var i :| 0 <= i < |there| && mirrored[i] == c;
        assert there[i] in there;
      }
      if c in back {
        assert Mirror(c) in there;
        var i :| 0 <= i < |there| && there[i] == Mirror(c);
        assert mirrored[i] == c;
      }
    }
  }

  lemma MirroredDistinct(there: seq<Change>)
    requires Distinct(there)
    ensures Distinct(Map(there, Mirror))
  {
    hide Mirror;
    var mirrored := Map(there, Mirror);
    forall i, j | 0 <= i < j < |mirrored| ensures mirrored[i] != mirrored[j] {
      MirrorTwice(there[i]);
      MirrorTwice(there[j]);
    }
  }

  lemma MirrorLength(there: seq<Change>, back: seq<Change>)
    requires Ascending(there, JsonText) && Ascending(back, JsonText) && forall c :: c in there <==> Mirror(c) in back
    ensures |there| == |back|
  {
    hide JsonText, Ascending;
    AscendingDistinct(there);
    AscendingDistinct(back);
    var mirrored := Map(there, Mirror);
    MirroredMembers(there, back);
    MirroredDistinct(there);
    hide Map, Distinct, Mirror;
    DistinctCount(mirrored);
    DistinctCount(back);
    assert ChangeSet(mirrored) == ChangeSet(back);
  }

  lemma AscendingDistinct(s: seq<Change>)
    requires Ascending(s, JsonText)
    ensures Distinct(s)
  {
    hide JsonText;
    forall i, j | 0 <= i < j < |s| ensures s[i] != s[j] {
      TextLessStrict(JsonText(s[i]), JsonText(s[j]));
    }
  }

  ghost function ChangeSet(s: seq<Change>): set<Change> {
    set c | c in s
  }

  lemma {:induction false} DistinctCount(s: seq<Change>)
    requires Distinct(s)
    ensures |ChangeSet(s)| == |s|
  {
    if s != [] {
      var (front, last) := (s[..|s| - 1], s[|s| - 1]);
      assert s == front + [last] && last !in front;
      DistinctCount(front);
      assert ChangeSet(s) == ChangeSet(front) + {last};
    }
  }

  // ---------------------------------------------------------------------------
  // When the list is empty.

  ghost function NamesOf<T>(s: seq<T>, name: T -> string): set<string> {
    set x | x in s :: name(x)
  }

  /** Elements of one name are one element. */
  ghost predicate UniqueBy<T(!new)>(s: seq<T>, name: T -> string) {
    forall x, y :: x in s && y in s && name(x) == name(y) ==> x == y
  }

  lemma {:induction false} ByNameHolds<T>(s: seq<T>, name: T -> string)
    ensures forall n :: n in ByName(s, name) ==> ByName(s, name)[n] in s && name(ByName(s, name)[n]) == n
    ensures forall i :: 0 <= i < |s| ==> name(s[i]) in ByName(s, name)
  {
    if s != [] {
      ByNameHolds(s[..|s| - 1], name);
      assert s == s[..|s| - 1] + [s[|s| - 1]];
    }
  }

  lemma ByNameFinds<T(!new)>(s: seq<T>, name: T -> string)
    ensures ByName(s, name).Keys == NamesOf(s, name)
    ensures UniqueBy(s, name) ==> forall x :: x in s ==> name(x) in ByName(s, name) && ByName(s, name)[name(x)] == x
  {
    ByNameHolds(s, name);
    hide ByName;
    forall x | x in s ensures name(x) in ByName(s, name) {
      var i :| 0 <= i < |s| && s[i] == x;
    }
  }

  lemma DistinctIsUnique<T(!new)>(s: seq<T>, name: T -> string)
    requires Distinct(Map(s, name))
    ensures UniqueBy(s, name)
  {
    forall x, y | x in s && y in s && name(x) == name(y) ensures x == y {
      var i :| 0 <= i < |s| && s[i] == x;
      var j :| 0 <= j < |s| && s[j] == y;
      assert Map(s, name)[i] == Map(s, name)[j];
    }
  }

  /** Equal roles, subject keys, grants, inherits and parent pairs. */
  ghost predicate SameResource(fr: ResourceType, tr: ResourceType) {
    && NamesOf(fr.roles, RoleName) == NamesOf(tr.roles, RoleName)
    && (forall a, b :: a in fr.roles && b in tr.roles && a.name == b.name ==> SubjectKeys(a) == SubjectKeys(b))
    && NamesOf(fr.permissions, PermissionName) == NamesOf(tr.permissions, PermissionName)
    && (forall a, b :: a in fr.permissions && b in tr.permissions && a.name == b.name ==> SamePermission(a, b))
    && ParentPairs(fr) == ParentPairs(tr)
  }

  predicate SamePermission(a: Permission, b: Permission) {
    SetOf(a.grantedByRoles) == SetOf(b.grantedByRoles) && SetOf(a.inheritFromParents) == SetOf(b.inheritFromParents)
  }

  ghost predicate SameStructure(from: ModelIR, to: ModelIR) {
    && TypeSet(from) == TypeSet(to)
    && forall fr, tr :: fr in from.resources && tr in to.resources && fr.name == tr.name ==> SameResource(fr, tr)
  }

  ghost predicate DistinctlyNamed(r: ResourceType) {
    UniqueBy(r.roles, RoleName) && UniqueBy(r.permissions, PermissionName)
  }

  ghost predicate NoChange(fr: ResourceType, tr: ResourceType) {
    forall c :: !ReportsIn(fr, tr, c)
  }

  /** The maps on both sides, name by name. */
  ghost predicate SameMaps(fr: ResourceType, tr: ResourceType) {
    && RoleMap(fr.roles).Keys == RoleMap(tr.roles).Keys
    && (forall n ::
         n in RoleMap(fr.roles) && n in RoleMap(tr.roles) ==>
           SubjectKeys(RoleMap(fr.roles)[n]) == SubjectKeys(RoleMap(tr.roles)[n]))
    && PermissionMap(fr.permissions).Keys == PermissionMap(tr.permissions).Keys
    && (forall n :: n in PermissionMap(fr.permissions) && n in PermissionMap(tr.permissions) ==>
          SamePermission(PermissionMap(fr.permissions)[n], PermissionMap(tr.permissions)[n]))
    && ParentPairs(fr) == ParentPairs(tr)
  }

  lemma SameMapsUnchanged(fr: ResourceType, tr: ResourceType)
    requires SameMaps(fr, tr)
    ensures NoChange(fr, tr)
  {
    hide RoleMap, PermissionMap, SubjectKeys, ParentPairs, Halves, Listed, SetOf;
  }

  lemma UnchangedNames(fr: ResourceType, tr: ResourceType, n: string)
    requires NoChange(fr, tr)
    ensures n in RoleMap(fr.roles) <==> n in RoleMap(tr.roles)
    ensures n in PermissionMap(fr.permissions) <==> n in PermissionMap(tr.permissions)
  {
    hide RoleMap, PermissionMap, SubjectKeys, ParentPairs, Halves, Listed, SetOf;
    assert !ReportsIn(fr, tr, RoleAdded("", n)) && !ReportsIn(fr, tr, RoleRemoved("", n));
    assert !ReportsIn(fr, tr, PermissionAdded("", n)) && !ReportsIn(fr, tr, PermissionRemoved("", n));
  }

  lemma UnchangedParts(fr: ResourceType, tr: ResourceType, n: string)
    requires NoChange(fr, tr)
    ensures n in RoleMap(fr.roles) && n in RoleMap(tr.roles) ==>
            SubjectKeys(RoleMap(fr.roles)[n]) == SubjectKeys(RoleMap(tr.roles)[n])
    ensures n in PermissionMap(fr.permissions) && n in PermissionMap(tr.permissions) ==>
              SamePermission(PermissionMap(fr.permissions)[n], PermissionMap(tr.permissions)[n])
  {
    hide RoleMap, PermissionMap, SubjectKeys, ParentPairs, Halves, Listed, SetOf;
    if n in RoleMap(fr.roles) && n in RoleMap(tr.roles) {
      var (f, t) := (SubjectKeys(RoleMap(fr.roles)[n]), SubjectKeys(RoleMap(tr.roles)[n]));
      assert !ReportsIn(fr, tr, RoleAssignableChanged("", n, Listed(t - f), Listed(f - t)));
    }
    if n in PermissionMap(fr.permissions) && n in PermissionMap(tr.permissions) {
      var (a, b) := (PermissionMap(fr.permissions)[n], PermissionMap(tr.permissions)[n]);
      var (f, t) := (SetOf(a.grantedByRoles), SetOf(b.grantedByRoles));
      assert !ReportsIn(fr, tr, GrantChanged("", n, Listed(t - f), Listed(f - t)));
      var (g, u) := (SetOf(a.inheritFromParents), SetOf(b.inheritFromParents));
      assert !ReportsIn(fr, tr, InheritChanged("", n, Listed(u - g), Listed(g - u)));
    }
  }

  lemma UnchangedParents(fr: ResourceType, tr: ResourceType)
    requires NoChange(fr, tr)
    ensures ParentPairs(fr) == ParentPairs(tr)
  {
    hide RoleMap, PermissionMap, SubjectKeys, ParentPairs, Halves, Listed;
    forall pair ensures pair in ParentPairs(fr) <==> pair in ParentPairs(tr) {
      var (relation, parent) := Halves(pair);
      assert !ReportsIn(fr, tr, ParentAdded("", relation, parent))
        && !ReportsIn(fr, tr, ParentRemoved("", relation, parent));
    }
  }

  lemma SameMapsIffUnchanged(fr: ResourceType, tr: ResourceType)
    ensures NoChange(fr, tr) <==> SameMaps(fr, tr)
  {
    if SameMaps(fr, tr) {
      SameMapsUnchanged(fr, tr);
    }
    if NoChange(fr, tr) {
      hide RoleMap, PermissionMap, SubjectKeys, ParentPairs, NoChange, SamePermission;
      UnchangedParents(fr, tr);
      forall n ensures n in RoleMap(fr.roles) <==> n in RoleMap(tr.roles)
               ensures n in PermissionMap(fr.permissions) <==> n in PermissionMap(tr.permissions) {
        UnchangedNames(fr, tr, n);
      }
      forall n | n in RoleMap(fr.roles) && n in RoleMap(tr.roles)
        ensures SubjectKeys(RoleMap(fr.roles)[n]) == SubjectKeys(RoleMap(tr.roles)[n]) {
        UnchangedParts(fr, tr, n);
      }
      forall n | n in PermissionMap(fr.permissions) && n in PermissionMap(tr.permissions)
        ensures SamePermission(PermissionMap(fr.permissions)[n], PermissionMap(tr.permissions)[n]) {
        UnchangedParts(fr, tr, n);
      }
    }
  }

  /** With distinct names, the maps say what the lists do. */
  lemma MapsAreLists(fr: ResourceType, tr: ResourceType)
    requires DistinctlyNamed(fr) && DistinctlyNamed(tr)
    ensures SameMaps(fr, tr) <==> SameResource(fr, tr)
  {
    ByNameFinds(fr.roles, RoleName);
    ByNameFinds(tr.roles, RoleName);
    ByNameFinds(fr.permissions, PermissionName);
    ByNameFinds(tr.permissions, PermissionName);
    ByNameHolds(fr.roles, RoleName);
    ByNameHolds(tr.roles, RoleName);
    ByNameHolds(fr.permissions, PermissionName);
    ByNameHolds(tr.permissions, PermissionName);
    hide ByName, SubjectKeys, ParentPairs, SamePermission, NamesOf, UniqueBy;
  }

  lemma ResourceUnchanged(fr: ResourceType, tr: ResourceType)
    requires DistinctlyNamed(fr) && DistinctlyNamed(tr)
    ensures NoChange(fr, tr) <==> SameResource(fr, tr)
  {
    hide *;
    SameMapsIffUnchanged(fr, tr);
    MapsAreLists(fr, tr);
  }

  lemma WellFormedNames(ir: ModelIR, r: ResourceType)
    requires WellFormed(ir) && r in ir.resources
    ensures DistinctlyNamed(r)
  {
    assert GoodResource(r, ir);
    var (ps, rs, cs) := (ParentNames(r.parents), RoleNames(r.roles), CanNames(r.permissions));
    DistinctParts(ps + rs, cs);
    DistinctParts(ps, rs);
    assert rs == Map(r.roles, RoleName);
    assert Distinct(cs);
    forall i, j | 0 <= i < j < |r.permissions| ensures r.permissions[i].name != r.permissions[j].name {
      assert cs[i] != cs[j];
    }
    hide WellFormed, GoodResource, CanName, CanNames, RelationNames;
    DistinctIsUnique(r.roles, RoleName);
    DistinctIsUnique(r.permissions, PermissionName);
  }

  lemma WellFormedResources(ir: ModelIR)
    requires WellFormed(ir)
    ensures UniqueBy(ir.resources, ResourceName)
  {
    assert GoodTypeNames(ir);
    DistinctParts(GroupNames(ir.groups), ResourceNames(ir.resources));
    assert ResourceNames(ir.resources) == Map(ir.resources, ResourceName);
    DistinctIsUnique(ir.resources, ResourceName);
  }

  lemma TypeChangesAre(from: ModelIR, to: ModelIR)
    ensures (forall c: Change :: (c.TypeAdded? || c.TypeRemoved?) ==> !Reports(from, to, c)) <==>
            TypeSet(from) == TypeSet(to)
  {
    hide TypeSet, ResourceMap, ReportsIn;
    if forall c: Change :: (c.TypeAdded? || c.TypeRemoved?) ==> !Reports(from, to, c) {
      forall t ensures t in TypeSet(from) <==> t in TypeSet(to) {
        assert !Reports(from, to, TypeAdded(t)) && !Reports(from, to, TypeRemoved(t));
      }
    }
  }

  function Retyped(c: Change, typ: string): Change
    requires !c.TypeAdded? && !c.TypeRemoved?
  {
    c.(typ := typ)
  }

  lemma RetypedReports(fr: ResourceType, tr: ResourceType, c: Change, name: string)
    requires !c.TypeAdded? && !c.TypeRemoved?
    ensures ReportsIn(fr, tr, c) <==> ReportsIn(fr, tr, Retyped(c, name))
    ensures Retyped(c, name).typ == name && !Retyped(c, name).TypeAdded? && !Retyped(c, name).TypeRemoved?
  {
    hide RoleMap, PermissionMap, ParentPairs, Halves, SubjectKeys, Differ, SetOf;
  }

  /** Changes on one resource do not depend on how the change names the type. */
  lemma ResourceChangesAre(from: ModelIR, to: ModelIR, name: string)
    requires name in ResourceMap(from.resources) && name in ResourceMap(to.resources)
    ensures (forall c: Change :: c.typ == name && !c.TypeAdded? && !c.TypeRemoved? ==> !Reports(from, to, c)) <==>
            NoChange(ResourceMap(from.resources)[name], ResourceMap(to.resources)[name])
  {
    var (fr, tr) := (ResourceMap(from.resources)[name], ResourceMap(to.resources)[name]);
    NoTypeChange(fr, tr);
    hide ResourceMap, TypeSet, ReportsIn;
    if forall c: Change :: c.typ == name && !c.TypeAdded? && !c.TypeRemoved? ==> !Reports(from, to, c) {
      forall c ensures !ReportsIn(fr, tr, c) {
        if !c.TypeAdded? && !c.TypeRemoved? {
          RetypedReports(fr, tr, c, name);
          assert !Reports(from, to, Retyped(c, name));
        }
      }
    }
  }

  lemma OtherChangesNeedBoth(from: ModelIR, to: ModelIR)
    ensures forall c :: Reports(from, to, c) && !c.TypeAdded? && !c.TypeRemoved? ==>
              c.typ in ResourceMap(from.resources) && c.typ in ResourceMap(to.resources)
  {
    hide ReportsIn, ResourceMap, TypeSet;
  }

  lemma NothingListed(from: ModelIR, to: ModelIR, r: seq<Change>)
    requires IsDiff(from, to, r)
    ensures r == [] <==> forall c :: !Reports(from, to, c)
  {
    hide Reports, Ascending;
    if r != [] {
      assert r[0] in r;
    }
  }

  ghost predicate NoCommonChange(from: ModelIR, to: ModelIR) {
    forall name :: name in ResourceMap(from.resources) && name in ResourceMap(to.resources) ==>
      NoChange(ResourceMap(from.resources)[name], ResourceMap(to.resources)[name])
  }

  lemma NothingReported(from: ModelIR, to: ModelIR)
    ensures (forall c :: !Reports(from, to, c)) <==> TypeSet(from) == TypeSet(to) && NoCommonChange(from, to)
  {
    hide Reports, NoChange, ResourceMap, TypeSet;
    TypeChangesAre(from, to);
    OtherChangesNeedBoth(from, to);
    forall name | name in ResourceMap(from.resources) && name in ResourceMap(to.resources)
      ensures (forall c: Change :: c.typ == name && !c.TypeAdded? && !c.TypeRemoved? ==> !Reports(from, to, c)) <==>
              NoChange(ResourceMap(from.resources)[name], ResourceMap(to.resources)[name])
    {
      ResourceChangesAre(from, to, name);
    }
  }

  lemma NoCommonChangeIsSame(from: ModelIR, to: ModelIR)
    requires WellFormed(from) && WellFormed(to)
    ensures NoCommonChange(from, to) <==>
            forall fr, tr :: fr in from.resources && tr in to.resources && fr.name == tr.name ==> SameResource(fr, tr)
  {
    WellFormedResources(from);
    WellFormedResources(to);
    ByNameFinds(from.resources, ResourceName);
    ByNameFinds(to.resources, ResourceName);
    ByNameHolds(from.resources, ResourceName);
    ByNameHolds(to.resources, ResourceName);
    hide WellFormed, NoChange, SameResource, ByName, UniqueBy, NamesOf, DistinctlyNamed;
    forall fr, tr | fr in from.resources && tr in to.resources ensures NoChange(fr, tr) <==> SameResource(fr, tr) {
      WellFormedNames(from, fr);
      WellFormedNames(to, tr);
      ResourceUnchanged(fr, tr);
    }
    if NoCommonChange(from, to) {
      forall fr, tr | fr in from.resources && tr in to.resources && fr.name == tr.name ensures SameResource(fr, tr) {
        assert fr.name in ResourceMap(from.resources) && fr.name in ResourceMap(to.resources);
      }
    }
    if forall fr, tr :: fr in from.resources && tr in to.resources && fr.name == tr.name ==> SameResource(fr, tr) {
      forall name | name in ResourceMap(from.resources) && name in ResourceMap(to.resources)
        ensures NoChange(ResourceMap(from.resources)[name], ResourceMap(to.resources)[name]) {
        assert ResourceMap(from.resources)[name] in from.resources && ResourceMap(to.resources)[name] in to.resources;
      }
    }
  }

  /** Between valid models the list is empty exactly when type names match and every resource common to both has
      equal roles, subject keys, grants, inherits and parent pairs. */
  lemma EmptyMeansSame(from: ModelIR, to: ModelIR, r: seq<Change>)
    requires WellFormed(from) && WellFormed(to) && IsDiff(from, to, r)
    ensures r == [] <==> SameStructure(from, to)
  {
    hide WellFormed, IsDiff, Reports, NoCommonChange, SameResource, TypeSet;
    NothingListed(from, to, r);
    NothingReported(from, to);
    NoCommonChangeIsSame(from, to);
  }

  // ---------------------------------------------------------------------------
  // What is not compared.

  function BareRef(ref: SubjectRef): SubjectRef { ref.(condition := None) }
  function BareRole(role: Role): Role { role.(assignableBy := Map(role.assignableBy, BareRef)) }

  /** The resource with no condition on any assignment. */
  function BareResource(r: ResourceType): ResourceType { r.(roles := Map(r.roles, BareRole)) }

  lemma BareKeys(role: Role)
    ensures SubjectKeys(BareRole(role)) == SubjectKeys(role)
  {
    var (refs, bare) := (role.assignableBy, BareRole(role).assignableBy);
    forall k | k in SubjectKeys(role) ensures k in SubjectKeys(BareRole(role)) {
      var ref :| ref in refs && SubjectKey(ref) == k;
      var i :| 0 <= i < |refs| && refs[i] == ref;
      assert bare[i] in bare && SubjectKey(bare[i]) == k;
    }
    forall k | k in SubjectKeys(BareRole(role)) ensures k in SubjectKeys(role) {
      var ref :| ref in bare && SubjectKey(ref) == k;
      var i :| 0 <= i < |bare| && bare[i] == ref;
      assert refs[i] in refs && SubjectKey(refs[i]) == k;
    }
  }

  lemma {:induction false} ByNameMapped<T>(s: seq<T>, name: T -> string, f: T -> T)
    requires forall x :: name(f(x)) == name(x)
    ensures forall n :: n in ByName(Map(s, f), name) <==> n in ByName(s, name)
    ensures forall n :: n in ByName(s, name) ==> ByName(Map(s, f), name)[n] == f(ByName(s, name)[n])
  {
    if s != [] {
      var (front, last) := (s[..|s| - 1], s[|s| - 1]);
      ByNameMapped(front, name, f);
      assert s == front + [last] && Map([last], f) == [f(last)];
      MapConcat(front, [last], f);
      assert Map(s, f)[..|s| - 1] == Map(front, f);
      hide Map;
    }
  }

  lemma BareRoles(r: ResourceType)
    ensures RoleMap(BareResource(r).roles).Keys == RoleMap(r.roles).Keys
    ensures forall n ::
            n in RoleMap(r.roles) ==> SubjectKeys(RoleMap(BareResource(r).roles)[n]) == SubjectKeys(RoleMap(r.roles)[n])
  {
    ByNameMapped(r.roles, RoleName, BareRole);
    hide ByName, SubjectKeys, BareRole, Map;
    forall n | n in RoleMap(r.roles)
      ensures SubjectKeys(RoleMap(BareResource(r).roles)[n]) == SubjectKeys(RoleMap(r.roles)[n]) {
      BareKeys(RoleMap(r.roles)[n]);
    }
  }

  /** Equal but for the conditions of assignments. */
  ghost predicate Alike(fr: ResourceType, tr: ResourceType) {
    && fr.parents == tr.parents && fr.permissions == tr.permissions
    && RoleMap(fr.roles).Keys == RoleMap(tr.roles).Keys
    && forall n :: n in RoleMap(fr.roles) ==> SubjectKeys(RoleMap(fr.roles)[n]) == SubjectKeys(RoleMap(tr.roles)[n])
  }

  lemma BareAlike(fr: ResourceType, tr: ResourceType)
    requires BareResource(fr) == BareResource(tr)
    ensures Alike(fr, tr)
  {
    BareRoles(fr);
    BareRoles(tr);
    assert fr.parents == tr.parents && fr.permissions == tr.permissions;
    hide BareResource, RoleMap, SubjectKeys;
  }

  lemma AlikeReportsNothing(fr: ResourceType, tr: ResourceType, c: Change)
    requires Alike(fr, tr)
    ensures !ReportsIn(fr, tr, c)
  {
    assert ParentPairs(fr) == ParentPairs(tr);
    hide RoleMap, PermissionMap, SubjectKeys, ParentPairs, Halves, Listed;
  }

  lemma BareNames(rs: seq<ResourceType>)
    ensures ResourceNames(Map(rs, BareResource)) == ResourceNames(rs)
  {
    hide BareRole;
  }

  /** Conditions, those attached to role assignments included, and the members of groups are not compared. */
  lemma ConditionsAndMembersUnseen(from: ModelIR, to: ModelIR, c: Change)
    requires Map(from.resources, BareResource) == Map(to.resources, BareResource)
            && GroupNames(from.groups) == GroupNames(to.groups)
    ensures !Reports(from, to, c)
  {
    BareNames(from.resources);
    BareNames(to.resources);
    assert TypeSet(from) == TypeSet(to);
    hide Map, BareResource, ReportsIn, TypeSet, ByName, ResourceNames;
    ByNameMapped(from.resources, ResourceName, BareResource);
    ByNameMapped(to.resources, ResourceName, BareResource);
    var (fs, ts) := (ResourceMap(from.resources), ResourceMap(to.resources));
    if !c.TypeAdded? && !c.TypeRemoved? && c.typ in fs && c.typ in ts {
      assert BareResource(fs[c.typ]) == BareResource(ts[c.typ]);
      BareAlike(fs[c.typ], ts[c.typ]);
      AlikeReportsNothing(fs[c.typ], ts[c.typ], c);
    }
  }
}
