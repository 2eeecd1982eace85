/** Printed conditions, read by the CEL grammar. */
module CelReading {
  import opened Prelude
  import opened JsText
  import opened Condition
  import opened ConditionCel
  import opened CelTokens

  /** Length of the comparison that starts t: up to the first operator or closing parenthesis that is
      neither quoted nor nested. */
  function AtomLength(t: string, depth: nat, inQuote: bool): (n: nat)
    ensures n <= |t|
    decreases |t|
  {
    if t == "" then 0
    else if inQuote then
      if t[0] == '\\' && |t| >= 2 then 2 + AtomLength(t[2..], depth, true)
      else 1 + AtomLength(t[1..], depth, t[0] != '"')
    else if t[0] == '"' then 1 + AtomLength(t[1..], depth, true)
    else if t[0] == '(' then 1 + AtomLength(t[1..], depth + 1, false)
    else if t[0] == ')' then (if depth == 0 then 0 else 1 + AtomLength(t[1..], depth - 1, false))
    else if depth == 0 && (t[0] == '&' || t[0] == '|') && |t| >= 2 && t[1] == t[0] then 0
    else 1 + AtomLength(t[1..], depth, false)
  }

  predicate StartsWithOp(t: string, op: LogicOp) {
    |t| >= 2 && t[0] == LogicChar(op) && t[1] == LogicChar(op)
  }

  /** A parenthesised expression, or a comparison that consists of tokens; truth says what each comparison's
      text evaluates to. */
  function ReadPrimary(t: string, truth: string -> bool): (r: Option<(bool, string)>)
    ensures r.Some? ==> |r.value.1| < |t|
    decreases |t|, 0
  {
    var u := SkipSpaces(t);
    if u == "" then None
    else if u[0] == '(' then
      match ReadOr(false, u[1..], truth)
      case None => None
      case Some((v, rest)) => if rest == "" || rest[0] != ')' then None else Some((v, SkipSpaces(rest[1..])))
    else
      var n := AtomLength(u, 0, false);
      if n == 0 || !Lexes(u[..n], Before) then None else Some((truth(TrimEnd(u[..n])), u[n..]))
  }

  /** A conjunction, after conjuncts of truth value v. */
  function ReadAnd(v: bool, t: string, truth: string -> bool): (r: Option<(bool, string)>)
    ensures r.Some? ==> |r.value.1| < |t|
    decreases |t|, 1
  {
    match ReadPrimary(t, truth)
    case None => None
    case Some((w, rest)) => if StartsWithOp(rest, And) then ReadAnd(v && w, rest[2..], truth) else Some((v && w, rest))
  }

  /** A disjunction, after disjuncts of truth value v. */
  function ReadOr(v: bool, t: string, truth: string -> bool): (r: Option<(bool, string)>)
    ensures r.Some? ==> |r.value.1| < |t|
    decreases |t|, 2
  {
    match ReadAnd(true, t, truth)
    case None => None
    case Some((w, rest)) => if StartsWithOp(rest, Or) then ReadOr(v || w, rest[2..], truth) else Some((v || w, rest))
  }

  /** The truth value of a whole text, when it is one expression. */
  function ReadCel(t: string, truth: string -> bool): Option<bool> {
    match ReadOr(false, t, truth)
    case Some((v, rest)) => if rest == "" then Some(v) else None
    case None => None
  }

  // ---------------------------------------------------------------------------
  // The truth value of a tree.

  function Eval(node: Node, truth: Leaf -> bool): bool
    decreases node, 1
  {
    match node
    case LeafNode(leaf) => truth(leaf)
    case GroupNode(And, children) => EvalAll(children, truth)
    case GroupNode(Or, children) => EvalAny(children, truth)
  }

  function EvalAll(children: seq<Node>, truth: Leaf -> bool): bool
    decreases children, 0
  {
    children == [] || (Eval(children[0], truth) && EvalAll(children[1..], truth))
  }

  function EvalAny(children: seq<Node>, truth: Leaf -> bool): bool
    decreases children, 0
  {
    children != [] && (Eval(children[0], truth) || EvalAny(children[1..], truth))
  }

  /** What a leaf evaluates to when its printed text does so. */
  function Printed(truth: string -> bool): Leaf -> bool {
    (leaf: Leaf) => truth(LeafToCel(leaf))
  }

  // ---------------------------------------------------------------------------
  // Reading printed text.

  /** What may follow an expression: nothing, or a closing parenthesis. */
  predicate Closes(rest: string) {
    rest == "" || rest[0] == ')'
  }

  predicate Separated(rest: string, op: LogicOp) {
    |rest| >= 4 && rest[0] == ' ' && rest[1] == LogicChar(op) && rest[2] == LogicChar(op) && rest[3] == ' '
  }

  /** What may follow a printed child: an end, or a separator. */
  predicate Follows(rest: string) {
    Closes(rest) || Separated(rest, And) || Separated(rest, Or)
  }

  lemma {:induction false} AtomEnds(a: string, rest: string, depth: nat, inQuote: bool)
    requires ScanTo(a, depth, inQuote) == Some((0, false))
    requires Closes(rest) || StartsWithOp(rest, And) || StartsWithOp(rest, Or)
    ensures AtomLength(a + rest, depth, inQuote) == |a|
    decreases |a|
  {
    if a == "" {
      assert a + rest == rest;
    } else {
      assert (a + rest)[1..] == a[1..] + rest;
      if inQuote && a[0] == '\\' {
        assert (a + rest)[2..] == a[2..] + rest;
        AtomEnds(a[2..], rest, depth, true);
      } else if inQuote {
        AtomEnds(a[1..], rest, depth, a[0] != '"');
      } else if a[0] == '"' {
        AtomEnds(a[1..], rest, depth, true);
      } else if a[0] == '(' {
        AtomEnds(a[1..], rest, depth + 1, false);
      } else if a[0] == ')' {
        AtomEnds(a[1..], rest, depth - 1, false);
      } else {
        AtomEnds(a[1..], rest, depth, false);
      }
    }
  }

  /** What reading a primary does with text u that starts a comparison of length n. */
  lemma PrimaryIsAtom(u: string, n: nat, truth: string -> bool)
    requires u != "" && !IsCelSpace(u[0]) && u[0] != '('
    requires AtomLength(u, 0, false) == n && n > 0
    ensures ReadPrimary(u, truth) == if Lexes(u[..n], Before) then Some((truth(TrimEnd(u[..n])), u[n..])) else None
  {
    hide AtomLength, IsCelSpace, TrimEnd, Lexes;
  }

  lemma AtomBeforeEnd(a: string, rest: string, truth: string -> bool)
    requires Leaflike(a) && IsWordChar(a[0]) && Closes(rest)
    ensures ReadPrimary(a + rest, truth) == if Lexes(a, Before) then Some((truth(a), rest)) else None
  {
    var t := a + rest;
    WordCharIsPlain(a[0]);
    hide AtomLength, IsSpace, IsWordChar, IsCelSpace, TrimEnd, SkipSpaces, ScanTo, ReadPrimary, Lexes;
    AtomEnds(a, rest, 0, false);
    assert t[0] == a[0] && t[..|a|] == a && t[|a|..] == rest && a + "" == a;
    TrimEndPadding(a, "");
    PrimaryIsAtom(t, |a|, truth);
  }

  lemma SpaceAfterAtom(a: string)
    requires Leaflike(a)
    ensures ScanTo(a + " ", 0, false) == Some((0, false)) && TrimEnd(a + " ") == a
  {
    SpaceScans();
    hide ScanTo, IsSpace, TrimEnd;
    ScanConcat(a, " ", 0, false);
    TrimEndPadding(a, " ");
  }

  lemma AtomBeforeSpace(a: string, u: string, truth: string -> bool)
    requires Leaflike(a) && IsWordChar(a[0]) && (StartsWithOp(u, And) || StartsWithOp(u, Or))
    ensures ReadPrimary(a + " " + u, truth) == if Lexes(a + " ", Before) then Some((truth(a), u)) else None
  {
    var b := a + " ";
    var t := b + u;
    WordCharIsPlain(a[0]);
    assert a != "";
    hide *;
    SpaceAfterAtom(a);
    AtomEnds(b, u, 0, false);
    assert t[0] == a[0] && t[..|b|] == b && t[|b|..] == u;
    PrimaryIsAtom(t, |b|, truth);
  }

  /** A printed leaf is read as itself where its names are names, and the space after it is skipped. */
  lemma AtomReads(leaf: Leaf, rest: string, truth: string -> bool)
    requires Worded(leaf) && Follows(rest)
    ensures ReadPrimary(LeafToCel(leaf) + rest, truth) ==
            if NamedLeaf(leaf) then Some((truth(LeafToCel(leaf)), SkipSpaces(rest))) else None
  {
    var a := LeafToCel(leaf);
    LeafIsLeaflike(leaf);
    NothingLexes();
    if Closes(rest) {
      hide *;
      LeafThen(leaf, "");
      assert a + "" == a;
      ClosedIsTrimmed(rest);
      AtomBeforeEnd(a, rest, truth);
    } else {
      var op := if Separated(rest, And) then And else Or;
      hide *;
      LeafThen(leaf, " ");
      SeparatorAfter(rest, op);
      ConcatAssociates(a, " ", rest[1..]);
      AtomBeforeSpace(a, rest[1..], truth);
    }
  }

  lemma WordCharIsPlain(c: char)
    requires IsWordChar(c)
    ensures !IsCelSpace(c) && c != '('
  {
  }

  lemma NothingLexes()
    ensures Lexes("", Within) && Lexes(" ", Within) && Apart("") && Apart(" ")
  {
    assert " "[1..] == "";
  }

  lemma SpaceScans()
    ensures ScanTo(" ", 0, false) == Some((0, false))
    ensures IsSpace(' ')
  {
    assert " "[1..] == "";
  }

  lemma ClosedIsTrimmed(rest: string)
    requires Closes(rest)
    ensures SkipSpaces(rest) == rest && !StartsWithOp(rest, And) && !StartsWithOp(rest, Or)
  {
  }

  lemma SeparatorAfter(rest: string, op: LogicOp)
    requires Separated(rest, op)
    ensures rest == " " + rest[1..] && StartsWithOp(rest[1..], op)
    ensures SkipSpaces(rest) == rest[1..]
    ensures rest[1..][2..] == " " + rest[4..]
  {
    var u := rest[1..];
    assert u[0] == LogicChar(op) && u[1] == LogicChar(op) && !IsCelSpace(LogicChar(op));
    assert SkipSpaces(u) == u;
    assert u[2..] == rest[3..] == [rest[3]] + rest[4..];
  }

  lemma SpaceBefore(v: bool, t: string, truth: string -> bool)
    ensures ReadPrimary(" " + t, truth) == ReadPrimary(t, truth)
    ensures ReadAnd(v, " " + t, truth) == ReadAnd(v, t, truth)
    ensures ReadOr(v, " " + t, truth) == ReadOr(v, t, truth)
  {
    assert (" " + t)[1..] == t;
    assert SkipSpaces(" " + t) == SkipSpaces(t);
  }

  /** A printed node below the root reads as one primary with the node's truth value. */
  lemma {:induction false} ChildReads(node: Node, rest: string, truth: string -> bool)
    requires WordedNode(node) && Follows(rest)
    ensures ReadPrimary(NodeToCel(node, false) + rest, truth) ==
            if NamedNode(node) then Some((Eval(node, Printed(truth)), SkipSpaces(rest))) else None
    decreases node, 2
  {
    match node
    case LeafNode(leaf) =>
      hide ReadPrimary, LeafToCel, NamedLeaf;
      AtomReads(leaf, rest, truth);
    case GroupNode(op, children) =>
      if |children| == 1 {
        OneChild(op, children, truth);
        ChildReads(children[0], rest, truth);
      } else {
        var inner := Join(ChildTexts(children), LogicText(op));
        GroupReads(op, children, ")" + rest, truth);
        hide ReadPrimary, Eval, NamedNode;
        ParenthesesRead(inner, rest, truth);
      }
  }

  ghost predicate AllNamed(children: seq<Node>) {
    forall c :: c in children ==> NamedNode(c)
  }

  lemma OneChild(op: LogicOp, children: seq<Node>, truth: string -> bool)
    requires |children| == 1
    ensures Eval(GroupNode(op, children), Printed(truth)) == Eval(children[0], Printed(truth))
    ensures NamedNode(GroupNode(op, children)) <==> NamedNode(children[0])
  {
    assert children[1..] == [];
    assert forall c :: c in children <==> c == children[0];
    if op == And {
      assert EvalAll(children, Printed(truth)) == (Eval(children[0], Printed(truth)) && EvalAll([], Printed(truth)));
    } else {
      assert EvalAny(children, Printed(truth)) == (Eval(children[0], Printed(truth)) || EvalAny([], Printed(truth)));
    }
  }

  lemma ParenthesesRead(inner: string, rest: string, truth: string -> bool)
    requires var r := ReadOr(false, inner + (")" + rest), truth); r.None? || r.value.1 == ")" + rest
    ensures var r := ReadOr(false, inner + (")" + rest), truth);
            ReadPrimary("(" + inner + ")" + rest, truth) ==
            if r.None? then None else Some((r.value.0, SkipSpaces(rest)))
  {
    var t := "(" + inner + ")" + rest;
    assert t[0] == '(' && SkipSpaces(t) == t;
    assert t[1..] == inner + (")" + rest);
    assert (")" + rest)[1..] == rest;
    hide ReadOr, Lexes, SkipSpaces;
  }

  /** Two or more printed children joined by their operator read as the group's truth value. */
  lemma {:induction false} GroupReads(op: LogicOp, children: seq<Node>, rest: string, truth: string -> bool)
    requires |children| > 1 && forall c :: c in children ==> WordedNode(c)
    requires Closes(rest)
    ensures ReadOr(false, Join(ChildTexts(children), LogicText(op)) + rest, truth) ==
            if NamedNode(GroupNode(op, children)) then Some((Eval(GroupNode(op, children), Printed(truth)), rest))
            else None
    decreases children, 1
  {
    assert NamedNode(GroupNode(op, children)) <==> AllNamed(children);
    if op == And {
      AndListReads(children, true, rest, truth);
      hide ReadAnd, AllNamed, Join, ChildTexts, EvalAll;
      ClosedIsTrimmed(rest);
    } else {
      OrListReads(children, false, rest, truth);
    }
  }

  lemma AndGoesOn(v: bool, t: string, w: bool, u: string, tail: string, truth: string -> bool)
    requires ReadPrimary(t, truth) == Some((w, u)) && StartsWithOp(u, And) && u[2..] == tail
    ensures ReadAnd(v, t, truth) == ReadAnd(v && w, tail, truth)
  {
    hide ReadPrimary;
  }

  lemma AndStep(v: bool, t: string, w: bool, u: string, tail: string, truth: string -> bool)
    requires ReadPrimary(t, truth) == Some((w, u)) && StartsWithOp(u, And) && u[2..] == " " + tail
    ensures ReadAnd(v, t, truth) == ReadAnd(v && w, tail, truth)
  {
    SpaceBefore(v && w, tail, truth);
    AndGoesOn(v, t, w, u, " " + tail, truth);
    hide ReadPrimary, ReadAnd;
  }

  lemma AndEnds(v: bool, t: string, w: bool, u: string, truth: string -> bool)
    requires ReadPrimary(t, truth) == Some((w, u)) && !StartsWithOp(u, And)
    ensures ReadAnd(v, t, truth) == Some((v && w, u))
  {
    hide ReadPrimary;
  }

  lemma AndFails(v: bool, t: string, truth: string -> bool)
    requires ReadPrimary(t, truth).None?
    ensures ReadAnd(v, t, truth).None? && ReadOr(v, t, truth).None?
  {
    hide ReadPrimary;
  }

  lemma OrGoesOn(v: bool, t: string, w: bool, u: string, tail: string, truth: string -> bool)
    requires ReadAnd(true, t, truth) == Some((w, u)) && StartsWithOp(u, Or) && u[2..] == tail
    ensures ReadOr(v, t, truth) == ReadOr(v || w, tail, truth)
  {
    hide ReadAnd;
  }

  lemma OrStep(v: bool, t: string, w: bool, u: string, tail: string, truth: string -> bool)
    requires ReadAnd(true, t, truth) == Some((w, u)) && StartsWithOp(u, Or) && u[2..] == " " + tail
    ensures ReadOr(v, t, truth) == ReadOr(v || w, tail, truth)
  {
    SpaceBefore(v || w, tail, truth);
    OrGoesOn(v, t, w, u, " " + tail, truth);
    hide ReadAnd, ReadOr;
  }

  lemma OrEnds(v: bool, t: string, w: bool, u: string, truth: string -> bool)
    requires ReadAnd(true, t, truth) == Some((w, u)) && !StartsWithOp(u, Or)
    ensures ReadOr(v, t, truth) == Some((v || w, u))
  {
    hide ReadAnd;
  }

  /** The pieces of a printed list: the first child, the separator, the printed rest. */
  lemma ListText(children: seq<Node>, op: LogicOp, rest: string) returns (tail: string, after: string)
    requires |children| > 1
    ensures tail == Join(ChildTexts(children[1..]), LogicText(op)) + rest
    ensures Join(ChildTexts(children), LogicText(op)) + rest == NodeToCel(children[0], false) + after
    ensures Separated(after, op) && after[4..] == tail
  {
    tail := Join(ChildTexts(children[1..]), LogicText(op)) + rest;
    after := LogicText(op) + tail;
    assert ChildTexts(children) == [NodeToCel(children[0], false)] + ChildTexts(children[1..]);
    assert ChildTexts(children)[1..] == ChildTexts(children[1..]);
  }

  lemma OneText(child: Node, op: LogicOp)
    ensures Join(ChildTexts([child]), LogicText(op)) == NodeToCel(child, false)
  {
    assert ChildTexts([child]) == [NodeToCel(child, false)];
  }

  lemma FirstChild(children: seq<Node>, truth: string -> bool)
    requires children != []
    ensures var (e, rest) := (Eval(children[0], Printed(truth)), children[1..]);
            && EvalAll(children, Printed(truth)) == (e && EvalAll(rest, Printed(truth)))
            && EvalAny(children, Printed(truth)) == (e || EvalAny(rest, Printed(truth)))
    ensures AllNamed(children) <==> NamedNode(children[0]) && AllNamed(children[1..])
  {
    assert children == [children[0]] + children[1..];
    assert forall c :: c in children <==> c == children[0] || c in children[1..];
    hide NamedNode;
  }

  /** Reads the children from the first on as one conjunction, given the value v read before them. */
  lemma {:induction false} AndListReads(children: seq<Node>, v: bool, rest: string, truth: string -> bool)
    requires children != [] && forall c :: c in children ==> WordedNode(c)
    requires Closes(rest)
    ensures ReadAnd(v, Join(ChildTexts(children), LogicText(And)) + rest, truth) ==
            if AllNamed(children) then Some((v && EvalAll(children, Printed(truth)), rest)) else None
    decreases children, 0
  {
    var child := children[0];
    assert child in children;
    ClosedIsTrimmed(rest);
    var e := Eval(child, Printed(truth));
    FirstChild(children, truth);
    var text := Join(ChildTexts(children), LogicText(And)) + rest;
    if |children| == 1 {
      assert children == [child] && EvalAll([], Printed(truth));
      hide ReadPrimary, ReadAnd, SkipSpaces, Join, ChildTexts, NodeToCel, Eval, EvalAll, NamedNode;
      OneText(child, And);
      ChildReads(child, rest, truth);
      if NamedNode(child) {
        AndEnds(v, text, e, rest, truth);
      } else {
        AndFails(v, text, truth);
      }
    } else {
      hide ReadPrimary, ReadAnd, SkipSpaces, Join, ChildTexts, NodeToCel, Eval, EvalAll, NamedNode, AllNamed;
      var tail, after := ListText(children, And, rest);
      ChildReads(child, after, truth);
      SeparatorAfter(after, And);
      if NamedNode(child) {
        AndStep(v, text, e, after[1..], tail, truth);
        AndListReads(children[1..], v && e, rest, truth);
      } else {
        AndFails(v, text, truth);
      }
    }
  }

  /** Reads the children from the first on as one disjunction, given the value v read before them. */
  lemma {:induction false} OrListReads(children: seq<Node>, v: bool, rest: string, truth: string -> bool)
    requires children != [] && forall c :: c in children ==> WordedNode(c)
    requires Closes(rest)
    ensures ReadOr(v, Join(ChildTexts(children), LogicText(Or)) + rest, truth) ==
            if AllNamed(children) then Some((v || EvalAny(children, Printed(truth)), rest)) else None
    decreases children, 0
  {
    var child := children[0];
    assert child in children;
    ClosedIsTrimmed(rest);
    var e := Eval(child, Printed(truth));
    FirstChild(children, truth);
    var text := Join(ChildTexts(children), LogicText(Or)) + rest;
    if |children| == 1 {
      assert children == [child] && !EvalAny([], Printed(truth));
      hide ReadPrimary, ReadAnd, ReadOr, SkipSpaces, Join, ChildTexts, NodeToCel, Eval, EvalAny, NamedNode;
      OneText(child, Or);
      ChildReads(child, rest, truth);
      if NamedNode(child) {
        AndEnds(true, text, e, rest, truth);
        OrEnds(v, text, e, rest, truth);
      } else {
        AndFails(v, text, truth);
      }
    } else {
      hide ReadPrimary, ReadAnd, ReadOr, SkipSpaces, Join, ChildTexts, NodeToCel, Eval, EvalAny, NamedNode, AllNamed;
      var tail, after := ListText(children, Or, rest);
      ChildReads(child, after, truth);
      SeparatorAfter(after, Or);
      if NamedNode(child) {
        AndEnds(true, text, e, after[1..], truth);
        OrStep(v, text, e, after[1..], tail, truth);
        OrListReads(children[1..], v || e, rest, truth);
      } else {
        AndFails(v, text, truth);
      }
    }
  }

  /** Read by the CEL grammar, the printed text of a tree without empty groups has the tree's truth value under
      every valuation of its comparisons; it is not read at all exactly when a parameter has a name that CEL does
      not take for a name. */
  lemma {:induction false} PrintedTextMeansTree(node: Node, truth: string -> bool)
    requires WordedNode(node)
    ensures ReadCel(NodeToCel(node, true), truth) ==
            if NamedNode(node) then Some(Eval(node, Printed(truth))) else None
  {
    match node
    case LeafNode(leaf) =>
      var text := LeafToCel(leaf);
      assert text + "" == text;
      assert NodeToCel(node, true) == text == NodeToCel(node, false);
      ClosedIsTrimmed("");
      ChildReads(node, "", truth);
      hide ReadPrimary, SkipSpaces, LeafToCel, NamedNode, Eval;
      if NamedNode(node) {
        AndEnds(true, text, Eval(node, Printed(truth)), "", truth);
        OrEnds(false, text, Eval(node, Printed(truth)), "", truth);
      } else {
        AndFails(false, text, truth);
      }
    case GroupNode(op, children) =>
      if |children| == 1 {
        OneChild(op, children, truth);
        PrintedTextMeansTree(children[0], truth);
      } else {
        var inner := Join(ChildTexts(children), LogicText(op));
        GroupReads(op, children, "", truth);
        assert inner + "" == inner;
      }
  }
}
