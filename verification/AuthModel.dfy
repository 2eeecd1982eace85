/** Authorization models as JSON: relation rewrites, type restrictions, and what a relation means over a tuple store. */
module AuthModel {
  import opened Prelude

  /** One entry of a type restriction: type, type#relation, or type:*, optionally "with" a condition. */
  datatype Ref = Ref(typ: string, relation: Option<string>, wildcard: bool, condition: Option<string>)

  /** target is a computed userset's object field, empty when absent. */
  datatype Userset =
    | This
    | Computed(target: string, relation: string)
    | TupleTo(tupleset: string, computed: string)
    | Union(children: seq<Userset>)
    | Intersection(children: seq<Userset>)
    | Difference(base: Userset, subtract: Userset)

  datatype Relation = Relation(name: string, rewrite: Userset, refs: seq<Ref>)

  datatype TypeDef = TypeDef(name: string, relations: seq<Relation>)

  /** parameters pairs each name with its type name. */
  datatype ConditionJson = ConditionJson(name: string, parameters: seq<(string, string)>, expression: Option<string>)

  datatype Model = Model(schemaVersion: Option<string>, types: seq<TypeDef>, conditions: seq<ConditionJson>)

  // ---------------------------------------------------------------------------
  // Tuples.

  datatype Obj = Obj(typ: string, id: string)

  datatype TupleUser = Direct(obj: Obj) | Members(obj: Obj, relation: string) | Everyone(typ: string)

  datatype Tuple = Tuple(user: TupleUser, relation: string, obj: Obj, condition: Option<string>)

  /** The stored tuples, and which conditions hold in the context of the request. */
  datatype Store = Store(tuples: set<Tuple>, holds: string -> bool)

  ghost predicate Applies(st: Store, t: Tuple, relation: string, obj: Obj) {
    t in st.tuples && t.relation == relation && t.obj == obj && (t.condition.Some? ==> st.holds(t.condition.value))
  }

  ghost predicate Admits(ref: Ref, t: Tuple) {
    && ref.condition == t.condition
    && match t.user
       case Direct(o) => ref.typ == o.typ && ref.relation == None && !ref.wildcard
       case Members(o, r) => ref.typ == o.typ && ref.relation == Some(r) && !ref.wildcard
       case Everyone(typ) => ref.typ == typ && ref.relation == None && ref.wildcard
  }

  // ---------------------------------------------------------------------------
  // Which subjects a relation holds for: derivations of at most n steps.

  ghost function RelationNamed(rs: seq<Relation>, name: string): Option<Relation> {
    if rs == [] then None else if rs[0].name == name then Some(rs[0]) else RelationNamed(rs[1..], name)
  }

  ghost function TypeNamed(ts: seq<TypeDef>, name: string): Option<TypeDef> {
    if ts == [] then None else if ts[0].name == name then Some(ts[0]) else TypeNamed(ts[1..], name)
  }

  ghost function RelationOn(m: Model, typ: string, name: string): Option<Relation> {
    match TypeNamed(m.types, typ)
    case None => None
    case Some(td) => RelationNamed(td.relations, name)
  }

  ghost predicate Holds(m: Model, st: Store, subject: Obj, relation: string, obj: Obj, n: nat)
    decreases n, 0
  {
    && n > 0
    && RelationOn(m, obj.typ, relation).Some?
    && var def := RelationOn(m, obj.typ, relation).value;
       Derives(m, st, subject, relation, obj, def.rewrite, n - 1)
  }

  ghost predicate Derives(m: Model, st: Store, subject: Obj, relation: string, obj: Obj, u: Userset, n: nat)
    decreases n, 2, u
  {
    match u
    case This => Assigned(m, st, subject, relation, obj, n)
    case Computed(target, r) => target == "" && Holds(m, st, subject, r, obj, n)
    case TupleTo(tupleset, computed) =>
      exists o: Obj :: LinkedTo(m, st, tupleset, obj, o) && Holds(m, st, subject, computed, o, n)
    case Union(children) => exists c :: c in children && Derives(m, st, subject, relation, obj, c, n)
    case Intersection(children) => forall c :: c in children ==> Derives(m, st, subject, relation, obj, c, n)
    case Difference(base, subtract) =>
      Derives(m, st, subject, relation, obj, base, n) && !Derives(m, st, subject, relation, obj, subtract, n)
  }

  /** A tuple that the relation's type restriction admits. */
  ghost predicate Admitted(m: Model, st: Store, t: Tuple, relation: string, obj: Obj) {
    && Applies(st, t, relation, obj)
    && RelationOn(m, obj.typ, relation).Some?
    && exists ref :: ref in RelationOn(m, obj.typ, relation).value.refs && Admits(ref, t)
  }

  ghost predicate LinkedTo(m: Model, st: Store, relation: string, obj: Obj, parent: Obj) {
    exists t: Tuple :: Admitted(m, st, t, relation, obj) && t.user == Direct(parent)
  }

  ghost predicate Assigned(m: Model, st: Store, subject: Obj, relation: string, obj: Obj, n: nat)
    decreases n, 1
  {
    exists t: Tuple :: Admitted(m, st, t, relation, obj) &&
      match t.user
      case Direct(o) => subject == o
      case Members(o, r) => Holds(m, st, subject, r, o, n)
      case Everyone(typ) => subject.typ == typ
  }

  /** The meaning of a relation: some derivation, of any length. */
  ghost predicate Means(m: Model, st: Store, subject: Obj, relation: string, obj: Obj) {
    exists n: nat :: Holds(m, st, subject, relation, obj, n)
  }
}
