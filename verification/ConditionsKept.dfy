/** The conditions of a decompiled model mean what their source text means. */
module ConditionsKept {
  import opened Prelude
  import opened Sorting
  import opened JsNumber
  import opened JsText
  import opened Condition
  import opened ConditionCel
  import opened CelTokens
  import opened CelReading
  import opened ParsedReading
  import opened PortableText
  import opened ModelIr
  import opened AuthModel
  import opened Compiler
  import opened Decompiler

  /** A name that the validator accepts is a name to CEL unless it starts with a digit. */
  lemma ValidNames(params: seq<Param>, name: string, typ: ParamType)
    requires ValidParams(params) && DeclaredAs(params, name, typ)
    ensures IsWord(name) && (IsCelName(name) <==> !IsDigit(name[0]))
  {
    assert IsConditionName(name);
    assert CEL_LITERALS + CEL_KEYWORDS <= CEL_RESERVED;
  }

  lemma TreeNames(op: LogicOp, leaves: seq<Leaf>, tree: Node)
    requires leaves != []
    requires tree == if |leaves| == 1 then LeafNode(leaves[0]) else GroupNode(op, Map(leaves, AsNode))
    ensures NamedNode(tree) <==> AllNamedLeaves(leaves)
  {
    hide NamedLeaf;
    if |leaves| == 1 {
      assert forall leaf :: leaf in leaves <==> leaf == leaves[0];
    } else {
      forall i | 0 <= i < |leaves|
        ensures tree.children[i] in tree.children && (NamedNode(tree.children[i]) <==> NamedLeaf(leaves[i]))
      {
        assert tree.children[i] == LeafNode(leaves[i]);
      }
      NamedAt(leaves);
    }
  }

  lemma NamedAt(leaves: seq<Leaf>)
    ensures AllNamedLeaves(leaves) <==> forall i :: 0 <= i < |leaves| ==> NamedLeaf(leaves[i])
  {
    hide NamedLeaf;
    if !AllNamedLeaves(leaves) {
      var leaf :| leaf in leaves && !NamedLeaf(leaf);
      var i :| 0 <= i < |leaves| && leaves[i] == leaf;
    }
  }

  lemma TreeLeavesValid(op: LogicOp, leaves: seq<Leaf>, tree: Node, params: seq<Param>, leaf: Leaf)
    requires leaf in leaves && ValidNode(params, tree)
    requires tree == if |leaves| == 1 then LeafNode(leaves[0]) else GroupNode(op, Map(leaves, AsNode))
    ensures ValidLeaf(params, leaf)
  {
    hide ValidLeaf;
    var i :| 0 <= i < |leaves| && leaves[i] == leaf;
    if |leaves| > 1 {
      assert tree.children[i] == LeafNode(leaf);
      assert ValidNode(params, LeafNode(leaf));
    }
  }

  /** Accepted text of a valid condition means the parsed tree; it is not read at all exactly when a parameter's name
      is none to CEL, white space outside its strings is none to CEL, or a solidus is escaped in them. */
  lemma ValidTextMeansTree(name: string, params: seq<Param>, body: string, truth: Leaf -> bool)
    requires Parsed(name, params, body).Some? && ValidCondition(Parsed(name, params, body).value)
    ensures var tree := Parsed(name, params, body).value.tree;
            ReadCel(body, Recognised(params, truth)) ==
            if NamedNode(tree) && Portable(body, false) then Some(Eval(tree, truth)) else None
  {
    var def := Parsed(name, params, body).value;
    assert ValidNode(def.params, def.tree);
    hide *;
    var op, leaves := AcceptedLeaves(name, params, body);
    forall leaf | leaf in leaves ensures ValidLeaf(params, leaf) {
      TreeLeavesValid(op, leaves, def.tree, params, leaf);
    }
    PartsPortable(body, params);
    TreeNames(op, leaves, def.tree);
    AcceptedTextMeansTree(name, params, body, truth);
  }

  // ---------------------------------------------------------------------------
  // A valid condition whose source text CEL does not read.

  const SOLIDUS: string := "\"\\/\""

  lemma SolidusLiteral(params: seq<Param>)
    requires params == [Param("s", Str)]
    ensures ParseRhs("s", Eq, SOLIDUS, params) == Some(ValueLeaf("s", Eq, StringValue("/")))
    ensures Trimmed(SOLIDUS) && Atomic(SOLIDUS) && !HasLineTerminator(SOLIDUS) && !Portable(SOLIDUS, false)
  {
    var t := SOLIDUS[1..];
    assert t == "\\/\"" && t[2..] == "\"" && t[2..][1..] == "" && ['/'] + "" == "/";
    assert EscapeAt(t) == Some(('/' as int, 2)) && '/' as int as char == '/';
    assert UnquoteBody(t[2..]) == Some(("", ""));
    assert UnquoteBody(t) == Some(("/", ""));
    assert ScanTo(t, 0, true) == ScanTo(t[2..], 0, true) == ScanTo("", 0, false);
    assert Portable(SOLIDUS, false) == Portable(t, true);
  }

  lemma SolidusValid(params: seq<Param>, def: ConditionDef)
    requires params == [Param("s", Str)]
    requires def == ConditionDef("c", params, LeafNode(ValueLeaf("s", Eq, StringValue("/"))))
    ensures ValidCondition(def) && IsWord("s")
  {
    assert params[0] in params && DeclaredAs(params, "s", Str) && ValueFits(StringValue("/"), Str);
    assert IsConditionName("s") && IsConditionName("c");
  }

  lemma SolidusText(body: string)
    requires body == "s == " + SOLIDUS
    ensures body == "s" + " " + CompareText(Eq) + " " + SOLIDUS
    ensures body == "s" + (" " + (CompareText(Eq) + (" " + SOLIDUS)))
    ensures IsWordChar(body[0]) && !IsSpace(body[|body| - 1])
  {
    assert body[|body| - 1] == '"';
  }

  lemma SolidusParses(params: seq<Param>, body: string)
    requires params == [Param("s", Str)] && body == "s == " + SOLIDUS
    ensures Parsed("c", params, body) == Some(ConditionDef("c", params, LeafNode(ValueLeaf("s", Eq, StringValue("/")))))
    ensures !Portable(body, false)
  {
    var leaf := ValueLeaf("s", Eq, StringValue("/"));
    SolidusLiteral(params);
    SolidusText(body);
    assert IsWord("s");
    WordsAreSolid();
    hide *;
    ComparisonReads("s", Eq, SOLIDUS, params);
    ComparisonScans("s", Eq, SOLIDUS);
    TrimmedEnds(body);
    AloneParses("c", params, body, leaf);
    SpaceIsSpaces();
    ComparisonPortable("s", " ", Eq, " ", SOLIDUS);
  }

  lemma AloneParses(name: string, params: seq<Param>, body: string, leaf: Leaf)
    requires Atomic(body) && Trimmed(body) && ParseLeaf(body, params) == Some(leaf)
    ensures Parsed(name, params, body) == Some(ConditionDef(name, params, LeafNode(leaf)))
  {
    assert ParseLeaves([body], params) == Some([leaf] + []);
    hide ParseLeaf, SplitFrom, Trim, Trimmed, ScanTo;
    SplitOfJoin([body], And);
    assert Join([body], LogicText(And)) == body;
    TrimPadding("", body, "");
    assert "" + body + "" == body && [leaf] + [] == [leaf];
  }

  /** s == "\/" with a string parameter s. */
  lemma SolidusNotRead(truth: Leaf -> bool)
    ensures var params := [Param("s", Str)];
            var body := "s == " + SOLIDUS;
            && Parsed("c", params, body) ==
                 Some(ConditionDef("c", params, LeafNode(ValueLeaf("s", Eq, StringValue("/")))))
            && ValidCondition(Parsed("c", params, body).value)
            && ReadCel(body, Recognised(params, truth)) == None
  {
    hide *;
    var params := [Param("s", Str)];
    var body := "s == " + SOLIDUS;
    SolidusParses(params, body);
    SolidusValid(params, Parsed("c", params, body).value);
    ValidTextMeansTree("c", params, body, truth);
  }

  /** What full coverage says of one condition: it is recovered as it parses, valid, and emitted. */
  lemma RecoveredCondition(m: Model, c: ConditionJson) returns (def: ConditionDef)
    requires CoverageOf(m).fullyRepresentable && c in m.conditions
    ensures def in ConditionsOf(Recovered(m)) && EmitCondition(def) in Emit(Recovered(m)).conditions
    ensures c.expression.Some? && Parsed(c.name, def.params, c.expression.value) == Some(def)
    ensures ValidCondition(def) && def.name == c.name
  {
    FullCoverage(m);
    NothingUnparsed(m.conditions, c);
    def := ParseCondition(c).value;
    var params := ParseParams(c.parameters).value;
    assert def == Parsed(c.name, params, c.expression.value).value && def.params == params && def.name == c.name;
    RecoveredConditions(m);
    FilterMapMembers(m.conditions, ParseCondition, def);
    EmittedConditions(Recovered(m), def);
    assert GoodConditions(Recovered(m));
    hide Parsed, ParseParams, Recovered, Emit, EmitCondition, CoverageOf;
  }

  /** With full coverage, every condition of the source comes back under its name. The text emitted for it is read
      exactly when its parameters' names are names to CEL; its source text reads to the same truth value, for every
      valuation of comparisons, those of the source being valued as the comparisons they are printed as, unless it is
      not portable, when it is not read at all. */
  lemma DecompilingKeepsConditions(m: Model, c: ConditionJson, truth: string -> bool) returns (def: ConditionDef)
    requires CoverageOf(m).fullyRepresentable && c in m.conditions
    ensures def in ConditionsOf(Recovered(m)) && def.name == c.name
            && EmitCondition(def) in Emit(Recovered(m)).conditions
    ensures c.expression.Some? && EmitCondition(def).expression.Some?
    ensures var emitted := ReadCel(EmitCondition(def).expression.value, truth);
            var source := ReadCel(c.expression.value, Recognised(def.params, Printed(truth)));
            && (emitted.Some? <==> NamedNode(def.tree))
            && source == if Portable(c.expression.value, false) then emitted else None
  {
    def := RecoveredCondition(m, c);
    ValidIsWorded(def.tree, def.params);
    assert EmitCondition(def).expression == Some(NodeToCel(def.tree, true));
    hide *;
    ValidTextMeansTree(c.name, def.params, c.expression.value, Printed(truth));
    PrintedTextMeansTree(def.tree, truth);
  }

  lemma {:induction false} NothingUnparsed(cs: seq<ConditionJson>, c: ConditionJson)
    requires FilterMap(cs, Unparsed) == [] && c in cs
    ensures ParseCondition(c).Some?
  {
    if ParseCondition(c).None? {
      assert Unparsed(c) == Some(c.name);
      FilterMapMembers(cs, Unparsed, c.name);
    }
  }

  lemma RecoveredConditions(m: Model)
    ensures ConditionsOf(Recovered(m)) == FilterMap(m.conditions, ParseCondition)
  {
    hide FilterMap, ParseCondition;
  }

  lemma EmittedConditions(ir: ModelIR, def: ConditionDef)
    requires def in ConditionsOf(ir)
    ensures EmitCondition(def) in Emit(ir).conditions
  {
    var cs := ConditionsOf(ir);
    var i :| 0 <= i < |cs| && cs[i] == def;
    var out := Map(cs, EmitCondition);
    assert out[i] == EmitCondition(def) && out[i] in out;
    hide EmitCondition, StableSort, Map;
    SameElements(out, ConditionJsonKey);
  }
}
