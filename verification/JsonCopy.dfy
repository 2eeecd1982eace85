/** JSON.parse(JSON.stringify(v)): what a copy made through JSON keeps of a model. */
module JsonCopy {
  import opened Prelude
  import opened JsNumber
  import opened Condition
  import opened ModelIr

  /** A number as JSON holds it: no sign on zero, and null for what is not finite. */
  function CopiedValue(v: Value): Value {
    match v
    case NumberValue(number) =>
      (match number
       case Zero(_) => NumberValue(Zero(false))
       case Finite(_, _, _) => v
       case _ => NullValue)
    case _ => v
  }

  function CopiedLeaf(leaf: Leaf): Leaf {
    match leaf
    case ValueLeaf(param, op, value) => ValueLeaf(param, op, CopiedValue(value))
    case _ => leaf
  }

  function CopiedNode(node: Node): Node
    decreases node, 1
  {
    match node
    case LeafNode(leaf) => LeafNode(CopiedLeaf(leaf))
    case GroupNode(op, children) => GroupNode(op, CopiedNodes(children))
  }

  function CopiedNodes(nodes: seq<Node>): (r: seq<Node>)
    ensures |r| == |nodes|
    decreases nodes, 0
  {
    if nodes == [] then [] else [CopiedNode(nodes[0])] + CopiedNodes(nodes[1..])
  }

  function CopiedDef(def: ConditionDef): ConditionDef {
    def.(tree := CopiedNode(def.tree))
  }

  /** Numbers occur in condition trees only, so the rest of a model is copied as it is. */
  function Copied(ir: ModelIR): ModelIR {
    match ir.conditions
    case None => ir
    case Some(cs) => ir.(conditions := Some(Map(cs, CopiedDef)))
  }

  // ---------------------------------------------------------------------------
  // What a copy keeps.

  /** JSON has the value: it is no negative zero, no infinity and no NaN. */
  predicate StableValue(v: Value) {
    v.NumberValue? ==> v.number.Finite? || v.number == Zero(false)
  }

  predicate StableNode(node: Node)
    decreases node, 1
  {
    match node
    case LeafNode(leaf) => leaf.ValueLeaf? ==> StableValue(leaf.value)
    case GroupNode(_, children) => StableNodes(children)
  }

  predicate StableNodes(nodes: seq<Node>)
    decreases nodes, 0
  {
    nodes != [] ==> StableNode(nodes[0]) && StableNodes(nodes[1..])
  }

  /** Every literal of every condition is one that JSON has. */
  predicate JsonStable(ir: ModelIR) {
    forall def :: def in ConditionsOf(ir) ==> StableNode(def.tree)
  }

  /** A tree is copied as it is exactly when JSON has all its literals. */
  lemma {:induction false} CopiedNodeSame(node: Node)
    ensures CopiedNode(node) == node <==> StableNode(node)
    decreases node, 1
  {
    match node
    case LeafNode(_) =>
    case GroupNode(_, children) => CopiedNodesSame(children);
  }

  lemma {:induction false} CopiedNodesSame(nodes: seq<Node>)
    ensures CopiedNodes(nodes) == nodes <==> StableNodes(nodes)
    decreases nodes, 0
  {
    if nodes != [] {
      CopiedNodeSame(nodes[0]);
      CopiedNodesSame(nodes[1..]);
      assert nodes == [nodes[0]] + nodes[1..];
    }
  }

  lemma {:induction false} CopiedNodeStable(node: Node)
    ensures StableNode(CopiedNode(node))
    decreases node, 1
  {
    match node
    case LeafNode(_) =>
    case GroupNode(_, children) => CopiedNodesStable(children);
  }

  lemma {:induction false} CopiedNodesStable(nodes: seq<Node>)
    ensures StableNodes(CopiedNodes(nodes))
    decreases nodes, 0
  {
    if nodes != [] {
      CopiedNodeStable(nodes[0]);
      CopiedNodesStable(nodes[1..]);
      assert CopiedNodes(nodes)[1..] == CopiedNodes(nodes[1..]);
    }
  }

  lemma {:induction false} MapSame<T>(s: seq<T>, f: T -> T)
    ensures Map(s, f) == s <==> forall x :: x in s ==> f(x) == x
  {
    if Map(s, f) == s {
      forall x | x in s ensures f(x) == x {
        var i :| 0 <= i < |s| && s[i] == x;
      }
    }
  }

  /** A model is copied as it is exactly when JSON has all its literals. */
  lemma CopiedSame(ir: ModelIR)
    ensures Copied(ir) == ir <==> JsonStable(ir)
  {
    forall def: ConditionDef ensures CopiedDef(def) == def <==> StableNode(def.tree) {
      CopiedNodeSame(def.tree);
    }
    MapSame(ConditionsOf(ir), CopiedDef);
    hide StableNode, CopiedDef;
  }

  lemma CopyIsStable(ir: ModelIR)
    ensures JsonStable(Copied(ir))
  {
    if ir.conditions.Some? {
      var cs := Map(ir.conditions.value, CopiedDef);
      forall def | def in cs ensures StableNode(def.tree) {
        var i :| 0 <= i < |cs| && cs[i] == def;
        CopiedNodeStable(ir.conditions.value[i].tree);
      }
    }
  }

  /** A copy is copied as it is. */
  lemma CopiedTwice(ir: ModelIR)
    ensures Copied(Copied(ir)) == Copied(ir)
  {
    CopyIsStable(ir);
    CopiedSame(Copied(ir));
  }

  lemma CopiedNames(cs: seq<ConditionDef>)
    ensures ConditionNames(Map(cs, CopiedDef)) == ConditionNames(cs)
  {
    hide CopiedNode;
  }
}
