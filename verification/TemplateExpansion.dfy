/** What rendering a template amounts to: every placeholder replaced at once, left to right. */
module TemplateExpansion {
  import opened Prelude
  import opened EventMapping

  /** A template as characters and placeholders. */
  datatype Piece = Char(c: char) | Hole(path: string)

  function Pieces(s: string): seq<Piece>
    decreases |s|
  {
    if s == "" then []
    else match PlaceholderAt(s)
      case None => [Char(s[0])] + Pieces(s[1..])
      case Some(path) => [Hole(path)] + Pieces(s[|path| + 4..])
  }

  function PieceText(p: Piece): string {
    match p
    case Char(c) => [c]
    case Hole(path) => Braced(path)
  }

  function TextOf(ps: seq<Piece>): string {
    if ps == [] then "" else PieceText(ps[0]) + TextOf(ps[1..])
  }

  /** The value of a path, when it has a plain one. */
  function PlainValue(ev: Event, item: Option<string>, path: string): Option<string> {
    match ScalarValue(ev, path, item)
    case Some(v) => if Plain(v) then Some(v) else None
    case None => None
  }

  /** Every placeholder replaced by its value, at once. */
  function Expanded(s: string, ev: Event, item: Option<string>): Option<string>
    decreases |s|
  {
    if s == "" then Some("")
    else match PlaceholderAt(s)
      case None => Prepended([s[0]], Expanded(s[1..], ev, item))
      case Some(path) =>
        (match PlainValue(ev, item, path)
         case None => None
         case Some(v) => Prepended(v, Expanded(s[|path| + 4..], ev, item)))
  }

  function Prepended(a: string, b: Option<string>): Option<string> {
    if b.None? then None else Some(a + b.value)
  }

  predicate NoBraces(s: string) {
    forall i :: 0 <= i < |s| ==> s[i] != '{' && s[i] != '}'
  }

  predicate TidyPiece(p: Piece) {
    match p
    case Char(c) => c != '{' && c != '}'
    case Hole(path) => path != "" && NoBraces(path)
  }

  /** Braces stand only around the paths of placeholders. */
  predicate Tidy(ps: seq<Piece>) {
    forall i :: 0 <= i < |ps| ==> TidyPiece(ps[i])
  }

  // ---------------------------------------------------------------------------
  // Replacing one path.

  function Chars(v: string): (ps: seq<Piece>)
    ensures |ps| == |v| && forall i :: 0 <= i < |v| ==> ps[i] == Char(v[i])
  {
    if v == "" then [] else [Char(v[0])] + Chars(v[1..])
  }

  function Filled(p: Piece, path: string, v: string): seq<Piece> {
    if p == Hole(path) then Chars(v) else [p]
  }

  function FilledAll(ps: seq<Piece>, path: string, v: string): seq<Piece> {
    if ps == [] then [] else Filled(ps[0], path, v) + FilledAll(ps[1..], path, v)
  }

  lemma {:induction false} TextConcat(a: seq<Piece>, b: seq<Piece>)
    ensures TextOf(a + b) == TextOf(a) + TextOf(b)
  {
    if a == [] {
      assert a + b == b;
    } else {
      assert (a + b)[0] == a[0] && (a + b)[1..] == a[1..] + b;
      TextConcat(a[1..], b);
      ConcatAssociates(PieceText(a[0]), TextOf(a[1..]), TextOf(b));
    }
  }

  lemma {:induction false} TextOfChars(v: string)
    ensures TextOf(Chars(v)) == v
  {
    if v != "" {
      TextOfChars(v[1..]);
      assert Chars(v)[1..] == Chars(v[1..]);
      assert v == [v[0]] + v[1..];
    }
  }

  /** The pattern does not start inside a, so a stays. */
  lemma {:induction false} Passes(a: string, rest: string, pattern: string, v: string)
    requires pattern != "" && forall i :: 0 <= i < |a| ==> !(pattern <= a[i..] + rest)
    ensures ReplaceAll(a + rest, pattern, v) == a + ReplaceAll(rest, pattern, v)
  {
    if a == "" {
      assert a + rest == rest;
    } else {
      var s := a + rest;
      assert a[0..] + rest == s && s[0] == a[0] && s[1..] == a[1..] + rest;
      forall i | 0 <= i < |a[1..]| ensures !(pattern <= a[1..][i..] + rest) {
        assert a[1..][i..] == a[i + 1..];
      }
      Passes(a[1..], rest, pattern, v);
      assert a == [a[0]] + a[1..];
      ConcatAssociates([a[0]], a[1..], ReplaceAll(rest, pattern, v));
    }
  }

  lemma SamePlaceholder(path: string, q: string, rest: string)
    requires NoBraces(path) && NoBraces(q) && Braced(path) <= Braced(q) + rest
    ensures path == q
  {
    var (pattern, t) := (Braced(path), Braced(q) + rest);
    assert forall k :: 0 <= k < |pattern| ==> pattern[k] == t[k];
    assert forall k :: 0 <= k < |path| ==> pattern[k + 2] == path[k];
    assert forall k :: 0 <= k < |q| ==> t[k + 2] == q[k];
    assert pattern[|path| + 2] == '}' && t[|q| + 2] == '}';
    var k := if |path| < |q| then |path| else |q|;
    assert pattern[k + 2] == t[k + 2];
  }

  /** Another placeholder does not contain the start of this one. */
  lemma OtherPlaceholder(path: string, q: string, rest: string, i: nat)
    requires path != "" && NoBraces(path) && q != "" && NoBraces(q) && q != path && i < |Braced(q)|
    ensures !(Braced(path) <= Braced(q)[i..] + rest)
  {
    var (pattern, a) := (Braced(path), Braced(q));
    if i == 0 {
      assert a[0..] == a;
      if pattern <= a + rest {
        SamePlaceholder(path, q, rest);
      }
    } else {
      var t := a[i..] + rest;
      assert pattern[0] == '{' && pattern[1] == '{';
      assert t[0] == a[i] && (i + 1 < |a| ==> t[1] == a[i + 1]);
    }
  }

  /** In tidy text, replacing a placeholder's text replaces that placeholder, everywhere, and nothing else. */
  lemma {:induction false} ReplaceFills(ps: seq<Piece>, path: string, v: string)
    requires Tidy(ps) && path != "" && NoBraces(path)
    ensures ReplaceAll(TextOf(ps), Braced(path), v) == TextOf(FilledAll(ps, path, v))
  {
    if ps != [] {
      var (p, rest) := (ps[0], TextOf(ps[1..]));
      assert TidyPiece(p);
      ReplaceFills(ps[1..], path, v);
      TextConcat(Filled(p, path, v), FilledAll(ps[1..], path, v));
      if p == Hole(path) {
        TextOfChars(v);
        assert TextOf(ps)[|Braced(path)|..] == rest;
      } else {
        PieceStays(p, rest, path, v);
        assert TextOf([p]) == PieceText(p) by {
          assert [p][1..] == [];
        }
      }
    }
  }

  lemma PieceStays(p: Piece, rest: string, path: string, v: string)
    requires TidyPiece(p) && p != Hole(path) && path != "" && NoBraces(path)
    ensures ReplaceAll(PieceText(p) + rest, Braced(path), v) == PieceText(p) + ReplaceAll(rest, Braced(path), v)
  {
    var a := PieceText(p);
    forall i | 0 <= i < |a| ensures !(Braced(path) <= a[i..] + rest) {
      if p.Hole? {
        OtherPlaceholder(path, p.path, rest, i);
      } else {
        assert (a[i..] + rest)[0] == p.c && Braced(path)[0] == '{';
      }
    }
    hide ReplaceAll;
    Passes(a, rest, Braced(path), v);
  }

  // ---------------------------------------------------------------------------
  // Replacing every path.

  /** The text with every placeholder replaced by its value, where all have one. */
  function FullText(ps: seq<Piece>, ev: Event, item: Option<string>): string {
    if ps == [] then ""
    else
      (match ps[0]
       case Char(c) => [c]
       case Hole(path) => if PlainValue(ev, item, path).Some? then PlainValue(ev, item, path).value else "")
      + FullText(ps[1..], ev, item)
  }

  lemma {:induction false} FullTextConcat(a: seq<Piece>, b: seq<Piece>, ev: Event, item: Option<string>)
    ensures FullText(a + b, ev, item) == FullText(a, ev, item) + FullText(b, ev, item)
  {
    if a == [] {
      assert a + b == b;
    } else {
      assert (a + b)[0] == a[0] && (a + b)[1..] == a[1..] + b;
      hide PlainValue;
      FullTextConcat(a[1..], b, ev, item);
    }
  }

  lemma {:induction false} FullTextOfChars(v: string, ev: Event, item: Option<string>)
    ensures FullText(Chars(v), ev, item) == v
  {
    if v != "" {
      FullTextOfChars(v[1..], ev, item);
      assert Chars(v)[1..] == Chars(v[1..]);
      assert v == [v[0]] + v[1..];
    }
  }

  lemma {:induction false} FillingKeepsFullText(ps: seq<Piece>, path: string, v: string, ev: Event,
      item: Option<string>)
    requires PlainValue(ev, item, path) == Some(v)
    ensures FullText(FilledAll(ps, path, v), ev, item) == FullText(ps, ev, item)
  {
    if ps != [] {
      FillingKeepsFullText(ps[1..], path, v, ev, item);
      FullTextConcat(Filled(ps[0], path, v), FilledAll(ps[1..], path, v), ev, item);
      FullTextOfChars(v, ev, item);
      assert [ps[0]][1..] == [];
      hide PlainValue;
    }
  }

  /** What is left to fill after a path has been filled: the other placeholders, in text that is still tidy. */
  lemma {:induction false} FillingLeaves(ps: seq<Piece>, path: string, v: string)
    requires Tidy(ps) && NoBraces(v)
    ensures Tidy(FilledAll(ps, path, v))
    ensures forall q :: Hole(q) in FilledAll(ps, path, v) ==> Hole(q) in ps && q != path
  {
    if ps != [] {
      assert TidyPiece(ps[0]);
      var rest := ps[1..];
      assert Tidy(rest) && ps == [ps[0]] + rest;
      FillingLeaves(rest, path, v);
      var front := Filled(ps[0], path, v);
      assert Tidy(front) && forall q :: Hole(q) in front ==> Hole(q) == ps[0] && q != path;
      hide TidyPiece, Filled, NoBraces;
    }
  }

  predicate TidyPath(path: string, ev: Event, item: Option<string>) {
    path != "" && NoBraces(path) && (PlainValue(ev, item, path).Some? ==> NoBraces(PlainValue(ev, item, path).value))
  }

  lemma SubstitutedStep(text: string, paths: seq<string>, ev: Event, item: Option<string>)
    requires paths != []
    ensures Substituted(text, paths, ev, item) ==
            match PlainValue(ev, item, paths[0])
            case None => None
            case Some(v) => Substituted(ReplaceAll(text, Braced(paths[0]), v), paths[1..], ev, item)
  {
    hide ScalarValue, Plain, ReplaceAll;
  }

  /** All the paths substituted one after the other fill every placeholder, or fail when one has no plain value. */
  lemma {:induction false} SubstitutedFills(ps: seq<Piece>, paths: seq<string>, ev: Event, item: Option<string>)
    requires Tidy(ps)
    requires forall q :: Hole(q) in ps ==> q in paths
    requires forall q :: q in paths ==> TidyPath(q, ev, item)
    ensures Substituted(TextOf(ps), paths, ev, item) ==
            if forall q :: q in paths ==> PlainValue(ev, item, q).Some? then Some(FullText(ps, ev, item)) else None
    decreases |paths|
  {
    if paths == [] {
      forall p | p in ps ensures p.Char? {
        match p
        case Char(_) =>
        case Hole(q) => assert false;
      }
      NothingToFill(ps, ev, item);
    } else {
      var path := paths[0];
      var value := PlainValue(ev, item, path);
      var later := paths[1..];
      SubstitutedStep(TextOf(ps), paths, ev, item);
      assert TidyPath(path, ev, item) && paths == [path] + later;
      assert forall q :: q in later ==> q in paths;
      if value.Some? {
        var v := value.value;
        var filled := FilledAll(ps, path, v);
        assert path != "" && NoBraces(path) && NoBraces(v);
        hide *;
        FillingLeaves(ps, path, v);
        ReplaceFills(ps, path, v);
        FillingKeepsFullText(ps, path, v, ev, item);
        SubstitutedFills(filled, later, ev, item);
      }
    }
  }

  lemma {:induction false} NothingToFill(ps: seq<Piece>, ev: Event, item: Option<string>)
    requires forall p :: p in ps ==> p.Char?
    ensures TextOf(ps) == FullText(ps, ev, item)
  {
    if ps != [] {
      assert ps[0] in ps;
      hide PlainValue, Braced;
      NothingToFill(ps[1..], ev, item);
    }
  }

  lemma PlaceholderText(s: string)
    requires PlaceholderAt(s).Some?
    ensures var path := PlaceholderAt(s).value; |path| + 4 <= |s| && s == Braced(path) + s[|path| + 4..]
  {
    var k := IndexOf(s[2..], '}');
    var path := s[2..k + 2];
    assert s[..2] == "{{" && s[k + 2..k + 4] == "}}";
    assert s == s[..2] + path + s[k + 2..k + 4] + s[k + 4..];
  }

  lemma {:induction false} PiecesOfText(s: string)
    ensures TextOf(Pieces(s)) == s
    decreases |s|
  {
    if s != "" {
      hide PlaceholderAt, Braced;
      match PlaceholderAt(s)
      case None => {
        PiecesOfText(s[1..]);
        assert s == [s[0]] + s[1..];
      }
      case Some(path) => {
        PlaceholderText(s);
        PiecesOfText(s[|path| + 4..]);
      }
    }
  }

  lemma {:induction false} HolesOfText(s: string, q: string)
    ensures Hole(q) in Pieces(s) <==> q in Placeholders(s)
    decreases |s|
  {
    if s != "" {
      match PlaceholderAt(s)
      case None => HolesOfText(s[1..], q);
      case Some(path) => {
        PlaceholderText(s);
        hide PlaceholderAt;
        HolesOfText(s[|path| + 4..], q);
      }
    }
  }

  lemma {:induction false} ExpandedIsFull(s: string, ev: Event, item: Option<string>)
    ensures Expanded(s, ev, item) ==
            if forall q :: q in Placeholders(s) ==> PlainValue(ev, item, q).Some?
            then Some(FullText(Pieces(s), ev, item)) else None
    decreases |s|
  {
    if s != "" {
      hide PlainValue;
      match PlaceholderAt(s)
      case None => {
        ExpandedIsFull(s[1..], ev, item);
        assert Pieces(s)[1..] == Pieces(s[1..]);
      }
      case Some(path) => {
        var rest := s[|path| + 4..];
        ExpandedIsFull(rest, ev, item);
        assert Pieces(s)[1..] == Pieces(rest);
        assert Placeholders(s) == [path] + Placeholders(rest);
      }
    }
  }

  /** Where no brace stands outside a placeholder, nor in a value, substituting the paths one after the other
      replaces every placeholder by its value at once; a value that is missing or not plain stops both. */
  lemma SubstitutionIsExpansion(text: string, ev: Event, item: Option<string>)
    requires Tidy(Pieces(text))
    requires forall q ::
            q in Placeholders(text) && PlainValue(ev, item, q).Some? ==> NoBraces(PlainValue(ev, item, q).value)
    ensures Substituted(text, Placeholders(text), ev, item) == Expanded(text, ev, item)
  {
    var ps := Pieces(text);
    PiecesOfText(text);
    forall q ensures Hole(q) in ps <==> q in Placeholders(text) {
      HolesOfText(text, q);
    }
    ExpandedIsFull(text, ev, item);
    forall q | q in Placeholders(text) ensures TidyPath(q, ev, item) {
      assert Hole(q) in ps;
      var i :| 0 <= i < |ps| && ps[i] == Hole(q);
      assert TidyPiece(ps[i]);
    }
    SubstitutedFills(ps, Placeholders(text), ev, item);
  }

  lemma PlaceholderReads(path: string, rest: string)
    requires path != "" && NoBraces(path)
    ensures PlaceholderAt(Braced(path) + rest) == Some(path) && (Braced(path) + rest)[|path| + 4..] == rest
  {
    var s := Braced(path) + rest;
    var t := s[2..];
    assert |Braced(path)| == |path| + 4 && t == path + "}}" + rest;
    var k := IndexOf(t, '}');
    assert t[|path|] == '}' && s[|path| + 3] == '}';
    assert k <= |path|;
    assert forall i :: 0 <= i < |path| ==> t[i] == path[i];
    assert s[2..|path| + 2] == path;
  }

  function Swapped(a: string, path: string, v: string): string {
    if a == path then v else Braced(a)
  }

  lemma FilledHole(a: string, path: string, v: string)
    ensures TextOf(Filled(Hole(a), path, v)) == Swapped(a, path, v) && TextOf([Hole(a)]) == Braced(a)
    ensures FilledAll([Hole(a)], path, v) == Filled(Hole(a), path, v)
  {
    TextOfChars(v);
    assert [Hole(a)][1..] == [] && TextOf([]) == "" && FilledAll([], path, v) == [];
    assert Braced(a) + "" == Braced(a);
    assert Filled(Hole(a), path, v) + [] == Filled(Hole(a), path, v);
    hide Braced;
  }

  /** Two placeholders in a row, and the value of one of them. */
  lemma ReplaceOfTwo(a: string, b: string, path: string, v: string)
    requires a != "" && b != "" && path != "" && NoBraces(a) && NoBraces(b) && NoBraces(path)
    ensures ReplaceAll(Braced(a) + Braced(b), Braced(path), v) == Swapped(a, path, v) + Swapped(b, path, v)
  {
    var (x, y) := ([Hole(a)], [Hole(b)]);
    assert Tidy(x + y);
    assert FilledAll(x + y, path, v) == Filled(Hole(a), path, v) + FilledAll(y, path, v) by {
      assert (x + y)[0] == Hole(a) && (x + y)[1..] == y;
    }
    hide *;
    ReplaceFills(x + y, path, v);
    FilledHole(a, path, v);
    FilledHole(b, path, v);
    TextConcat(x, y);
    TextConcat(Filled(Hole(a), path, v), Filled(Hole(b), path, v));
  }

  lemma {:induction false} PlaceholdersOfTwo(a: string, b: string)
    requires a != "" && b != "" && NoBraces(a) && NoBraces(b)
    ensures Placeholders(Braced(a) + Braced(b)) == [a, b]
  {
    assert Braced(a) + Braced(b) != "" && Braced(b) != "";
    hide PlaceholderAt, Braced, NoBraces;
    PlaceholderReads(a, Braced(b));
    PlaceholderReads(b, "");
    assert Braced(b) + "" == Braced(b);
    assert Placeholders(Braced(b)) == [b] + Placeholders("");
    assert Placeholders("") == [];
  }

  lemma {:induction false} ExpandedHole(path: string, rest: string, v: string, ev: Event, item: Option<string>)
    requires path != "" && NoBraces(path) && PlainValue(ev, item, path) == Some(v)
    ensures Expanded(Braced(path) + rest, ev, item) == Prepended(v, Expanded(rest, ev, item))
  {
    PlaceholderReads(path, rest);
    assert Braced(path) + rest != "";
    hide PlaceholderAt, PlainValue, NoBraces, Braced;
  }

  /** A value that reads as a placeholder is substituted in its turn, so braces in values do matter. */
  lemma {:induction false} ValueSubstitutedAgain(a: string, b: string, v: string, ev: Event, item: Option<string>)
    requires a != "" && b != "" && a != b && NoBraces(a) && NoBraces(b)
    requires PlainValue(ev, item, a) == Some(Braced(b)) && PlainValue(ev, item, b) == Some(v)
    ensures var text := Braced(a) + Braced(b);
            && Substituted(text, Placeholders(text), ev, item) == Some(v + v)
            && Expanded(text, ev, item) == Some(Braced(b) + v)
  {
    var text := Braced(a) + Braced(b);
    var again := Braced(b) + Braced(b);
    assert Swapped(a, a, Braced(b)) == Swapped(b, a, Braced(b)) == Braced(b) && Swapped(b, b, v) == v;
    assert Substituted(v + v, [], ev, item) == Some(v + v) && Expanded("", ev, item) == Some("");
    assert v + "" == v;
    hide Substituted, Expanded, ReplaceAll, Placeholders, PlaceholderAt, Swapped, PlainValue, NoBraces, Braced;
    assert [a, b][1..] == [b] && [b][1..] == [];
    assert Braced(b) + "" == Braced(b);
    PlaceholdersOfTwo(a, b);
    SubstitutedStep(text, [a, b], ev, item);
    ReplaceOfTwo(a, b, a, Braced(b));
    SubstitutedStep(again, [b], ev, item);
    ReplaceOfTwo(b, b, b, v);
    ExpandedHole(a, Braced(b), Braced(b), ev, item);
    ExpandedHole(b, "", v, ev, item);
  }
}
