/** Conditions through the compiler and back: exactly which come back as they were. */
module ConditionRoundTrip {
  import opened Prelude
  import opened Sorting
  import opened JsText
  import opened Condition
  import opened ConditionCel
  import opened ModelIr
  import opened AuthModel
  import opened Compiler
  import opened Decompiler

  function ParamKey(p: Param): int { IndexKey(p.name) }
  function ConditionKey(c: ConditionDef): int { IndexKey(c.name) }

  // ---------------------------------------------------------------------------
  // Mapping and sorting.

  lemma {:induction false} MapInsert<S, T>(x: S, s: seq<S>, f: S -> T, key: S -> int, key': T -> int)
    requires forall y :: y in [x] + s ==> key'(f(y)) == key(y)
    ensures Map(Insert(x, s, key), f) == Insert(f(x), Map(s, f), key')
  {
    assert x in [x] + s;
    if s == [] {
      assert Insert(x, s, key) == [x];
    } else {
      var tail := s[1..];
      assert s == [s[0]] + tail && s[0] in [x] + s;
      MapCons(s[0], tail, f);
      if key(x) <= key(s[0]) {
        MapCons(x, s, f);
        InsertFront(f(x), Map(s, f), key');
      } else {
        assert forall y :: y in [x] + tail ==> y in [x] + s;
        hide Map;
        MapInsert(x, tail, f, key, key');
        InsertBehind(x, s[0], tail, key);
        InsertBehind(f(x), f(s[0]), Map(tail, f), key');
        MapCons(s[0], Insert(x, tail, key), f);
      }
    }
  }

  lemma {:induction false} MapSort<S, T>(s: seq<S>, f: S -> T, key: S -> int, key': T -> int)
    requires forall y :: y in s ==> key'(f(y)) == key(y)
    ensures Map(StableSort(s, key), f) == StableSort(Map(s, f), key')
  {
    if s != [] {
      var tail := s[1..];
      assert s == [s[0]] + tail;
      SortedTailWithin(s, key);
      hide Map, StableSort, Insert;
      MapSort(tail, f, key, key');
      SortCons(s[0], tail, key);
      MapInsert(s[0], StableSort(tail, key), f, key, key');
      MapCons(s[0], tail, f);
      SortCons(f(s[0]), Map(tail, f), key');
    }
  }

  /** Each element, sent out and read back, is itself exactly when the whole sequence is. */
  lemma {:induction false} ReadBackAll<S, T>(s: seq<S>, out: S -> T, back: T -> Option<S>)
    ensures FilterMap(Map(s, out), back) == s <==> forall x :: x in s ==> back(out(x)) == Some(x)
  {
    if s != [] {
      var tail := s[1..];
      assert s == [s[0]] + tail;
      ReadBackAll(tail, out, back);
      FilterMapShorter(Map(tail, out), back);
      MapCons(s[0], tail, out);
      FilterMapCons(out(s[0]), Map(tail, out), back);
      hide FilterMap, Map;
      assert forall x :: x in s <==> x == s[0] || x in tail;
    }
  }

  // ---------------------------------------------------------------------------
  // Conditions.

  lemma TypeNamesRead(t: ParamType)
    ensures FromTypeName(TypeNameOf(t)) == Some(t)
  {
  }

  lemma {:induction false} ParamsRead(ps: seq<Param>)
    ensures ParseParams(Map(ps, EmitParam)) == Some(ps)
  {
    if ps != [] {
      assert ps == [ps[0]] + ps[1..];
      MapCons(ps[0], ps[1..], EmitParam);
      TypeNamesRead(ps[0].typ);
      hide FromTypeName, TypeNameOf, Map;
      ParamsRead(ps[1..]);
      assert ([EmitParam(ps[0])] + Map(ps[1..], EmitParam))[1..] == Map(ps[1..], EmitParam);
    }
  }

  lemma EmittedParamsRead(ps: seq<Param>)
    ensures ParseParams(StableSort(Map(ps, EmitParam), ParameterKey)) == Some(StableSort(ps, ParamKey))
  {
    hide StableSort, Map, IndexKey;
    MapSort(ps, EmitParam, ParamKey, ParameterKey);
    ParamsRead(StableSort(ps, ParamKey));
  }

  lemma SortedParamsValid(ps: seq<Param>)
    requires ValidParams(ps)
    ensures ValidParams(StableSort(ps, ParamKey))
    ensures forall p :: p in StableSort(ps, ParamKey) <==> p in ps
  {
    hide IsConditionName, IndexKey, StableSort, SortedBy;
    var sorted := StableSort(ps, ParamKey);
    StableSortSorts(ps, ParamKey);
    SameElements(ps, ParamKey);
    forall i, j | 0 <= i < j < |sorted| ensures sorted[i].name != sorted[j].name {
      assert sorted[i] in ps && sorted[j] in ps;
      if sorted[i].name == sorted[j].name {
        assert sorted[i] == sorted[j];
        assert sorted == sorted[..j] + [sorted[j]] + sorted[j + 1..];
        assert sorted[i] in multiset(sorted[..j]) by {
          assert sorted[..j][i] == sorted[i];
        }
        assert multiset(ps)[sorted[j]] >= 2;
        TwicePresent(ps, sorted[j]);
      }
    }
  }

  lemma TwicePresent(ps: seq<Param>, p: Param)
    requires multiset(ps)[p] >= 2
    ensures exists i, j :: 0 <= i < j < |ps| && ps[i] == p && ps[j] == p
  {
    var i :| 0 <= i < |ps| && ps[i] == p;
    assert ps == ps[..i] + [p] + ps[i + 1..];
    var rest := ps[..i] + ps[i + 1..];
    assert multiset(ps) == multiset(ps[..i]) + multiset{p} + multiset(ps[i + 1..]);
    assert p in multiset(ps[..i]) || p in multiset(ps[i + 1..]);
    if p in multiset(ps[..i]) {
      var k :| 0 <= k < i && ps[..i][k] == p;
      assert ps[k] == p;
    } else {
      var k :| 0 <= k < |ps| - i - 1 && ps[i + 1..][k] == p;
      assert ps[i + 1 + k] == p;
    }
  }

  lemma {:induction false} ValidNodeDepends(node: Node, ps: seq<Param>, qs: seq<Param>)
    requires forall p :: p in ps <==> p in qs
    requires ValidNode(ps, node)
    ensures ValidNode(qs, node)
  {
    match node
    case LeafNode(_) =>
    case GroupNode(_, children) =>
      forall c | c in children ensures ValidNode(qs, c) {
        ValidNodeDepends(c, ps, qs);
      }
  }

  /** Parameters in object order, no one-child group, no nesting, and every value survives printing. */
  ghost predicate RecoverableCondition(def: ConditionDef) {
    SortedBy(def.params, ParamKey) && Collapse(def.tree) == def.tree && Flat(def.tree) && AllSurvive(def.tree)
  }

  lemma {:induction false} SplitGivesParts(body: string, i: nat, depth: int, inQuote: bool, start: nat,
      op: Option<LogicOp>, parts: seq<string>)
    requires start <= i && start <= |body|
    requires SplitFrom(body, i, depth, inQuote, start, op, parts).Some?
    ensures SplitFrom(body, i, depth, inQuote, start, op, parts).value.1 != []
    decreases |body| - i
  {
    if i < |body| {
      if inQuote {
        if body[i] == '\\' {
          SplitGivesParts(body, i + 2, depth, true, start, op, parts);
        } else {
          SplitGivesParts(body, i + 1, depth, body[i] != '"', start, op, parts);
        }
      } else if body[i] == '"' {
        SplitGivesParts(body, i + 1, depth, true, start, op, parts);
      } else if body[i] == '(' {
        SplitGivesParts(body, i + 1, depth + 1, false, start, op, parts);
      } else if body[i] == ')' {
        SplitGivesParts(body, i + 1, depth - 1, false, start, op, parts);
      } else if depth == 0 && (body[i] == '&' || body[i] == '|') && i + 1 < |body| && body[i + 1] == body[i] {
        SplitGivesParts(body, i + 2, depth, false, i + 2, Some(if body[i] == '&' then And else Or),
          parts + [Trim(body[start..i])]);
      } else {
        SplitGivesParts(body, i + 1, depth, false, start, op, parts);
      }
    }
  }

  lemma {:induction false} CollapseOfLeaves(children: seq<Node>)
    requires AllLeaves(children)
    ensures CollapseAll(children) == children
  {
    if children != [] {
      assert forall i :: 0 <= i < |children| - 1 ==> children[1..][i] == children[i + 1];
      CollapseOfLeaves(children[1..]);
      assert children[0].LeafNode?;
    }
  }

  /** What the parser returns has no one-child group. */
  lemma ParsedIsCollapsed(name: string, params: seq<Param>, body: string)
    requires Parsed(name, params, body).Some?
    ensures var def := Parsed(name, params, body).value;
            def.name == name && def.params == params && Collapse(def.tree) == def.tree
  {
    hide SplitFrom, ParseLeaves, Trim;
    SplitGivesParts(Trim(body), 0, 0, false, 0, None, []);
    var (op, parts) := SplitFrom(Trim(body), 0, 0, false, 0, None, []).value;
    ParsedCount(parts, params);
    var leaves := ParseLeaves(parts, params).value;
    if |leaves| > 1 {
      CollapseOfLeaves(Map(leaves, AsNode));
    }
  }

  /** After one-child groups collapse, a leaf or one flat group, all of whose values survive printing. */
  ghost predicate Classified(def: ConditionDef) {
    Flat(Collapse(def.tree)) && AllSurvive(def.tree)
  }

  /** A valid condition comes back as it was exactly when it is recoverable; its name always does, unless a
      nested group remains: then nothing does. */
  lemma ConditionReads(def: ConditionDef)
    requires ValidCondition(def)
    ensures ParseCondition(EmitCondition(def)) == Some(def) <==> RecoverableCondition(def)
    ensures ParseCondition(EmitCondition(def)).Some? ==> ParseCondition(EmitCondition(def)).value.name == def.name
    ensures Classified(def) ==> ParseCondition(EmitCondition(def)).Some?
    ensures !Flat(Collapse(def.tree)) ==> ParseCondition(EmitCondition(def)).None?
  {
    var sorted := StableSort(def.params, ParamKey);
    var there := def.(params := sorted);
    var text := NodeToCel(def.tree, true);
    EmittedReads(def, sorted, text);
    SortedParamsValid(def.params);
    ValidNodeDepends(def.tree, def.params, sorted);
    StableSortFixes(def.params, ParamKey);
    hide StableSort, SortedBy, ParseParams, Parsed, NodeToCel, ValidNode, ParseCondition, IsConditionName;
    hide Trim, Flat, AllSurvive, Collapse;
    hide EmitCondition, ValidParams, ValidLeaf;
    PrintedConditionParses(there, "", "");
    assert "" + text + "" == text;
    if Parsed(def.name, sorted, text).Some? {
      ParsedIsCollapsed(def.name, sorted, text);
    }
  }

  lemma EmittedReads(def: ConditionDef, sorted: seq<Param>, text: string)
    requires sorted == StableSort(def.params, ParamKey) && text == NodeToCel(def.tree, true)
    ensures ParseCondition(EmitCondition(def)) == Parsed(def.name, sorted, text)
  {
    EmittedParamsRead(def.params);
    hide StableSort, Parsed, NodeToCel, ParseParams, Map;
  }

  lemma {:induction false} KeysCarried(s: seq<ConditionDef>)
    requires forall c :: c in s ==> ValidCondition(c)
    ensures var read := FilterMap(Map(s, EmitCondition), ParseCondition);
            |read| <= |s| && (|read| == |s| ==> forall i :: 0 <= i < |s| ==> read[i].name == s[i].name)
  {
    if s != [] {
      var tail := s[1..];
      assert s == [s[0]] + tail;
      ConditionReads(s[0]);
      MapCons(s[0], tail, EmitCondition);
      FilterMapCons(EmitCondition(s[0]), Map(tail, EmitCondition), ParseCondition);
      hide Map, FilterMap, ParseCondition, EmitCondition, ValidCondition;
      KeysCarried(tail);
    }
  }

  lemma ConditionKeysAgree(cs: seq<ConditionDef>)
    requires forall c :: c in cs ==> ValidCondition(c)
    ensures KeysAgree(Map(cs, EmitCondition), ParseCondition, ConditionJsonKey, ConditionKey)
  {
    var sent := Map(cs, EmitCondition);
    hide ParseCondition, ValidCondition, IndexKey, NodeToCel, StableSort;
    forall x | x in sent && ParseCondition(x).Some?
      ensures ConditionKey(ParseCondition(x).value) == ConditionJsonKey(x) {
      var i :| 0 <= i < |sent| && sent[i] == x;
      assert cs[i] in cs && x == EmitCondition(cs[i]);
      ConditionReads(cs[i]);
    }
  }

  lemma SameKeysSorted(a: seq<ConditionDef>, b: seq<ConditionDef>)
    requires |a| == |b| && forall i :: 0 <= i < |a| ==> a[i].name == b[i].name
    ensures SortedBy(a, ConditionKey) <==> SortedBy(b, ConditionKey)
  {
    hide IndexKey;
    assert forall i :: 0 <= i < |a| ==> ConditionKey(a[i]) == ConditionKey(b[i]);
  }

  /** All conditions come back, in order, exactly when each is recoverable and their names are in object order. */
  lemma ConditionsRead(cs: seq<ConditionDef>)
    requires forall c :: c in cs ==> ValidCondition(c)
    ensures FilterMap(StableSort(Map(cs, EmitCondition), ConditionJsonKey), ParseCondition) == cs <==>
            SortedBy(cs, ConditionKey) && forall c :: c in cs ==> RecoverableCondition(c)
  {
    hide Map, FilterMap, ParseCondition, EmitCondition, ValidCondition, StableSort, RecoverableCondition;
    hide KeysAgree, IndexKey, SortedBy;
    var sent := Map(cs, EmitCondition);
    var read := FilterMap(sent, ParseCondition);
    forall c | c in cs ensures ParseCondition(EmitCondition(c)) == Some(c) <==> RecoverableCondition(c) {
      ConditionReads(c);
    }
    ConditionKeysAgree(cs);
    KeysCarried(cs);
    ReadBackAll(cs, EmitCondition, ParseCondition);
    FilterMapSort(sent, ParseCondition, ConditionJsonKey, ConditionKey);
    StableSortFixes(read, ConditionKey);
    StableSortSorts(read, ConditionKey);
    SameElements(read, ConditionKey);
    if StableSort(read, ConditionKey) == cs {
      SameKeysSorted(read, cs);
    }
  }

  /** The names the classifier knows are those of the conditions that parse back. */
  lemma NamesKnown(cs: seq<ConditionDef>)
    ensures forall name :: name in Representable(StableSort(Map(cs, EmitCondition), ConditionJsonKey)) <==>
              exists c :: c in cs && c.name == name && ParseCondition(EmitCondition(c)).Some?
  {
    hide ParseCondition, StableSort, IndexKey, NodeToCel;
    var sent := Map(cs, EmitCondition);
    var blocks := StableSort(sent, ConditionJsonKey);
    SameElements(sent, ConditionJsonKey);
    forall name ensures name in Representable(blocks) <==>
      exists c :: c in cs && c.name == name && ParseCondition(EmitCondition(c)).Some? {
      if name in Representable(blocks) {
        var b :| b in blocks && ParseCondition(b).Some? && b.name == name;
        var i :| 0 <= i < |sent| && sent[i] == b;
        assert cs[i] in cs && cs[i].name == name && ParseCondition(EmitCondition(cs[i])).Some?;
      }
      if c :| c in cs && c.name == name && ParseCondition(EmitCondition(c)).Some? {
        var i :| 0 <= i < |cs| && cs[i] == c;
        assert sent[i] == EmitCondition(c) && sent[i] in blocks;
      }
    }
  }

  lemma EveryConditionNamed(cs: seq<ConditionDef>)
    requires forall c :: c in cs ==> ParseCondition(EmitCondition(c)).Some?
    ensures Representable(StableSort(Map(cs, EmitCondition), ConditionJsonKey)) == SetOf(ConditionNames(cs))
  {
    hide ParseCondition, EmitCondition, StableSort;
    NamesKnown(cs);
    forall name ensures name in SetOf(ConditionNames(cs)) <==> exists c :: c in cs && c.name == name {
      if name in ConditionNames(cs) {
        var i :| 0 <= i < |cs| && ConditionNames(cs)[i] == name;
        assert cs[i] in cs;
      }
      if c :| c in cs && c.name == name {
        var i :| 0 <= i < |cs| && cs[i] == c;
        assert ConditionNames(cs)[i] == name;
      }
    }
  }
}
