/** Exactly which tidy templates render by substitution as they expand, whatever the event holds. */
module TemplateAgreement {
  import opened Prelude
  import opened EventMapping
  import opened TemplateExpansion

  // ---------------------------------------------------------------------------
  // One placeholder, or one without a value.

  /** The path has a value in some event. */
  predicate Resolvable(path: string) {
    path in {"item", "type", "subject", "subject.id", "subject.type"} || ATTRIBUTES <= path
  }

  lemma UnresolvedHasNone(path: string, ev: Event, item: Option<string>)
    requires !Resolvable(path)
    ensures PlainValue(ev, item, path).None?
  {
  }

  lemma {:induction false} MissingStops(text: string, paths: seq<string>, q: string, ev: Event, item: Option<string>)
    requires q in paths && PlainValue(ev, item, q).None?
    ensures Substituted(text, paths, ev, item).None?
    decreases |paths|
  {
    hide PlainValue, ReplaceAll, Substituted;
    SubstitutedStep(text, paths, ev, item);
    var v := PlainValue(ev, item, paths[0]);
    if v.Some? {
      MissingStops(ReplaceAll(text, Braced(paths[0]), v.value), paths[1..], q, ev, item);
    }
  }

  lemma {:induction false} FilledHasNoHole(ps: seq<Piece>, path: string, v: string)
    requires forall p :: p in ps ==> p.Char? || p == Hole(path)
    ensures forall p :: p in FilledAll(ps, path, v) ==> p.Char?
  {
    if ps != [] {
      assert ps[0] in ps && forall p :: p in ps[1..] ==> p in ps;
      FilledHasNoHole(ps[1..], path, v);
      assert forall p :: p in Filled(ps[0], path, v) ==> p.Char?;
      hide Filled;
    }
  }

  lemma OnePathFills(ps: seq<Piece>, path: string, ev: Event, item: Option<string>)
    requires Tidy(ps) && path != "" && NoBraces(path) && PlainValue(ev, item, path).Some?
    requires forall p :: p in ps ==> p.Char? || p == Hole(path)
    ensures Substituted(TextOf(ps), [path], ev, item) == Some(FullText(ps, ev, item))
  {
    var v := PlainValue(ev, item, path).value;
    var filled := FilledAll(ps, path, v);
    assert [path][1..] == [] && Substituted(TextOf(filled), [], ev, item) == Some(TextOf(filled));
    hide *;
    SubstitutedStep(TextOf(ps), [path], ev, item);
    ReplaceFills(ps, path, v);
    FillingKeepsFullText(ps, path, v, ev, item);
    FilledHasNoHole(ps, path, v);
    NothingToFill(filled, ev, item);
  }

  lemma HolesAreListed(text: string, q: string)
    requires Tidy(Pieces(text)) && q in Placeholders(text)
    ensures q != "" && NoBraces(q)
  {
    HolesOfText(text, q);
    var ps := Pieces(text);
    var i :| 0 <= i < |ps| && ps[i] == Hole(q);
    assert TidyPiece(ps[i]);
  }

  /** At most one placeholder: both readings agree, whatever its value holds. */
  lemma OneHoleAgrees(text: string, ev: Event, item: Option<string>)
    requires Tidy(Pieces(text)) && |Placeholders(text)| <= 1
    ensures Substituted(text, Placeholders(text), ev, item) == Expanded(text, ev, item)
  {
    var ps := Pieces(text);
    var paths := Placeholders(text);
    assert paths == [] || paths == [paths[0]];
    assert Substituted(text, [], ev, item) == Some(text);
    forall p | p in ps && p.Hole? ensures p.path in paths {
      HolesOfText(text, p.path);
    }
    hide Substituted, Expanded, Placeholders, Pieces, FullText, TextOf, PlainValue, Tidy, NoBraces;
    PiecesOfText(text);
    ExpandedIsFull(text, ev, item);
    if paths == [] {
      NothingToFill(ps, ev, item);
    } else {
      var path := paths[0];
      HolesAreListed(text, path);
      if PlainValue(ev, item, path).Some? {
        forall p | p in ps ensures p.Char? || p == Hole(path) {
          assert p.Hole? ==> p.path == path;
        }
        OnePathFills(ps, path, ev, item);
      } else {
        MissingStops(text, paths, path, ev, item);
      }
    }
  }

  lemma UnresolvedAgrees(text: string, q: string, ev: Event, item: Option<string>)
    requires q in Placeholders(text) && !Resolvable(q)
    ensures Substituted(text, Placeholders(text), ev, item) == Expanded(text, ev, item)
  {
    UnresolvedHasNone(q, ev, item);
    hide Substituted, Expanded, PlainValue, Placeholders;
    ExpandedIsFull(text, ev, item);
    MissingStops(text, Placeholders(text), q, ev, item);
  }

  // ---------------------------------------------------------------------------
  // Two placeholders with values: every path gets the last one's placeholder, and a letter, for its value.

  /** What each placeholder is replaced by. */
  function Bait(last: string): seq<Piece> {
    [Hole(last), Char('x')]
  }

  function Baited(p: Piece, path: string, last: string): seq<Piece> {
    if p == Hole(path) then Bait(last) else [p]
  }

  function BaitedAll(ps: seq<Piece>, path: string, last: string): seq<Piece> {
    if ps == [] then [] else Baited(ps[0], path, last) + BaitedAll(ps[1..], path, last)
  }

  /** The pieces after every path has been replaced in turn. */
  function Run(ps: seq<Piece>, paths: seq<string>, last: string): seq<Piece>
    decreases |paths|
  {
    if paths == [] then ps else Run(BaitedAll(ps, paths[0], last), paths[1..], last)
  }

  /** The pieces after every placeholder has been replaced at once. */
  function AtOnce(ps: seq<Piece>, last: string): seq<Piece> {
    if ps == [] then [] else (if ps[0].Hole? then Bait(last) else [ps[0]]) + AtOnce(ps[1..], last)
  }

  function HoleCount(ps: seq<Piece>): nat {
    if ps == [] then 0 else (if ps[0].Hole? then 1 else 0) + HoleCount(ps[1..])
  }

  lemma {:induction false} HoleCountConcat(a: seq<Piece>, b: seq<Piece>)
    ensures HoleCount(a + b) == HoleCount(a) + HoleCount(b)
  {
    if a == [] {
      assert a + b == b;
    } else {
      assert (a + b)[0] == a[0] && (a + b)[1..] == a[1..] + b;
      HoleCountConcat(a[1..], b);
    }
  }

  lemma OnePiece(p: Piece, last: string)
    ensures HoleCount([p]) == (if p.Hole? then 1 else 0) && HoleCount(Bait(last)) == 1
    ensures TextOf([p]) == PieceText(p) && TextOf(Bait(last)) == Braced(last) + "x"
  {
    assert [p][1..] == [];
    var bait := Bait(last);
    assert bait[1..] == [Char('x')] && [Char('x')][1..] == [];
    assert TextOf([Char('x')]) == "x";
  }

  /** Replacing keeps the number of placeholders, and adds a piece for each one replaced. */
  lemma {:induction false} BaitCounts(ps: seq<Piece>, path: string, last: string)
    ensures HoleCount(BaitedAll(ps, path, last)) == HoleCount(ps)
    ensures |BaitedAll(ps, path, last)| >= |ps|
    ensures Hole(path) in ps ==> |BaitedAll(ps, path, last)| > |ps|
    ensures (forall p :: p in ps ==> p.Char? || p == Hole(path)) ==> |BaitedAll(ps, path, last)| == |ps| + HoleCount(ps)
  {
    if ps != [] {
      var rest := ps[1..];
      assert ps == [ps[0]] + rest;
      BaitCounts(rest, path, last);
      OnePiece(ps[0], last);
      HoleCountConcat(Baited(ps[0], path, last), BaitedAll(rest, path, last));
    }
  }

  lemma {:induction false} BaitLeaves(ps: seq<Piece>, path: string, last: string)
    requires Tidy(ps) && last != "" && NoBraces(last)
    ensures Tidy(BaitedAll(ps, path, last))
    ensures forall q :: Hole(q) in BaitedAll(ps, path, last) ==> q == last || (Hole(q) in ps && q != path)
  {
    if ps != [] {
      var rest := ps[1..];
      assert TidyPiece(ps[0]) && Tidy(rest) && ps == [ps[0]] + rest;
      BaitLeaves(rest, path, last);
      var front := Baited(ps[0], path, last);
      assert Tidy(front) && forall q :: Hole(q) in front ==> q == last || (Hole(q) == ps[0] && q != path);
      hide TidyPiece, Baited, NoBraces;
    }
  }

  lemma {:induction false} BaitText(ps: seq<Piece>, path: string, last: string)
    ensures TextOf(FilledAll(ps, path, Braced(last) + "x")) == TextOf(BaitedAll(ps, path, last))
  {
    if ps != [] {
      var v := Braced(last) + "x";
      BaitText(ps[1..], path, last);
      OnePiece(ps[0], last);
      TextOfChars(v);
      TextConcat(Filled(ps[0], path, v), FilledAll(ps[1..], path, v));
      TextConcat(Baited(ps[0], path, last), BaitedAll(ps[1..], path, last));
      hide Bait, Braced, TextOf;
    }
  }

  /** Every listed path has the bait for its value. */
  ghost predicate Baiting(paths: seq<string>, last: string, ev: Event, item: Option<string>) {
    forall q :: q in paths ==> q != "" && NoBraces(q) && PlainValue(ev, item, q) == Some(Braced(last) + "x")
  }

  lemma {:induction false} SubstitutedRuns(ps: seq<Piece>, paths: seq<string>, last: string, ev: Event,
      item: Option<string>)
    requires Tidy(ps) && last != "" && NoBraces(last) && Baiting(paths, last, ev, item)
    ensures Substituted(TextOf(ps), paths, ev, item) == Some(TextOf(Run(ps, paths, last)))
    decreases |paths|
  {
    if paths != [] {
      var (path, later, v) := (paths[0], paths[1..], Braced(last) + "x");
      var next := BaitedAll(ps, path, last);
      assert path in paths && forall q :: q in later ==> q in paths;
      assert Baiting(later, last, ev, item) && Run(ps, paths, last) == Run(next, later, last);
      assert path != "" && NoBraces(path) && PlainValue(ev, item, path) == Some(v);
      hide *;
      SubstitutedStep(TextOf(ps), paths, ev, item);
      ReplaceFills(ps, path, v);
      BaitText(ps, path, last);
      BaitLeaves(ps, path, last);
      SubstitutedRuns(next, later, last, ev, item);
    } else {
      hide TextOf;
    }
  }

  /** A run keeps the number of placeholders and never loses a piece; none but the last path's are
      left of those listed. */
  lemma {:induction false} RunKeeps(ps: seq<Piece>, paths: seq<string>, last: string)
    requires Tidy(ps) && last != "" && NoBraces(last)
    ensures HoleCount(Run(ps, paths, last)) == HoleCount(ps) && |Run(ps, paths, last)| >= |ps|
    ensures forall q :: Hole(q) in Run(ps, paths, last) ==> q == last || (Hole(q) in ps && q !in paths)
    decreases |paths|
  {
    if paths != [] {
      var next := BaitedAll(ps, paths[0], last);
      assert paths == [paths[0]] + paths[1..];
      hide HoleCount, BaitedAll, Tidy, NoBraces;
      BaitCounts(ps, paths[0], last);
      BaitLeaves(ps, paths[0], last);
      RunKeeps(next, paths[1..], last);
    }
  }

  lemma {:induction false} RunSplits(ps: seq<Piece>, init: seq<string>, last: string)
    ensures Run(ps, init + [last], last) == BaitedAll(Run(ps, init, last), last, last)
    decreases |init|
  {
    var paths := init + [last];
    hide BaitedAll;
    if init == [] {
      assert paths == [last] && paths[1..] == [];
      assert Run(BaitedAll(ps, last, last), [], last) == BaitedAll(ps, last, last);
    } else {
      assert paths[0] == init[0] && paths[1..] == init[1..] + [last];
      RunSplits(BaitedAll(ps, init[0], last), init[1..], last);
    }
  }

  lemma {:induction false} AtOnceCounts(ps: seq<Piece>, last: string)
    ensures |AtOnce(ps, last)| == |ps| + HoleCount(ps) && HoleCount(AtOnce(ps, last)) == HoleCount(ps)
    ensures forall p :: p in AtOnce(ps, last) ==> p.Char? || p == Hole(last)
  {
    if ps != [] {
      AtOnceCounts(ps[1..], last);
      OnePiece(ps[0], last);
      HoleCountConcat(if ps[0].Hole? then Bait(last) else [ps[0]], AtOnce(ps[1..], last));
    }
  }

  lemma {:induction false} AtOnceText(ps: seq<Piece>, last: string, ev: Event, item: Option<string>)
    requires forall q :: Hole(q) in ps ==> PlainValue(ev, item, q) == Some(Braced(last) + "x")
    ensures TextOf(AtOnce(ps, last)) == FullText(ps, ev, item)
  {
    if ps != [] {
      assert ps[0] in ps && forall p :: p in ps[1..] ==> p in ps;
      hide PlainValue, Braced;
      AtOnceText(ps[1..], last, ev, item);
      OnePiece(ps[0], last);
      TextConcat(if ps[0].Hole? then Bait(last) else [ps[0]], AtOnce(ps[1..], last));
    }
  }

  function Times(k: nat, m: nat): nat {
    if k == 0 then 0 else m + Times(k - 1, m)
  }

  /** The length of a text whose placeholders are all the same. */
  lemma {:induction false} TextLength(ps: seq<Piece>, last: string)
    requires forall p :: p in ps ==> p.Char? || p == Hole(last)
    ensures |TextOf(ps)| == |ps| + Times(HoleCount(ps), |last| + 3)
  {
    if ps != [] {
      var rest := ps[1..];
      assert ps[0] in ps && forall p :: p in rest ==> p in ps;
      assert |PieceText(ps[0])| == if ps[0].Hole? then |last| + 4 else 1;
      assert |TextOf(ps)| == |PieceText(ps[0])| + |TextOf(rest)|;
      hide TextOf, PieceText;
      TextLength(rest, last);
    }
  }

  /** Replacing in turn ends with a longer text than replacing at once. */
  lemma RunIsLonger(ps: seq<Piece>, paths: seq<string>, last: string)
    requires Tidy(ps) && last != "" && NoBraces(last) && |paths| >= 2 && paths[|paths| - 1] == last
    requires Hole(paths[0]) in ps && forall q :: Hole(q) in ps ==> q in paths
    ensures |TextOf(Run(ps, paths, last))| > |TextOf(AtOnce(ps, last))|
  {
    var init := paths[..|paths| - 1];
    var before := Run(ps, init, last);
    var first := BaitedAll(ps, init[0], last);
    assert paths == init + [last] && before == Run(first, init[1..], last);
    assert forall q :: q in paths ==> q in init || q == last;
    hide *;
    BaitCounts(ps, init[0], last);
    BaitLeaves(ps, init[0], last);
    RunKeeps(first, init[1..], last);
    RunKeeps(ps, init, last);
    forall p | p in before ensures p.Char? || p == Hole(last) {
      if p.Hole? {
        assert p == Hole(p.path);
      }
    }
    RunSplits(ps, init, last);
    BaitCounts(before, last, last);
    BaitLeavesLast(before, last);
    AtOnceCounts(ps, last);
    TextLength(Run(ps, paths, last), last);
    TextLength(AtOnce(ps, last), last);
  }

  lemma {:induction false} BaitLeavesLast(ps: seq<Piece>, last: string)
    requires forall p :: p in ps ==> p.Char? || p == Hole(last)
    ensures forall p :: p in BaitedAll(ps, last, last) ==> p.Char? || p == Hole(last)
  {
    if ps != [] {
      assert ps[0] in ps && forall p :: p in ps[1..] ==> p in ps;
      BaitLeavesLast(ps[1..], last);
    }
  }

  function AttributeNames(paths: seq<string>): set<string> {
    set path | path in paths && ATTRIBUTES <= path :: path[|ATTRIBUTES|..]
  }

  /** An event in which every resolvable path among those listed has one and the same value. */
  function Uniform(paths: seq<string>, w: string): Event {
    Event(w, w, w, map name | name in AttributeNames(paths) :: Scalar(w))
  }

  lemma UniformValue(paths: seq<string>, w: string, q: string)
    requires q in paths && Resolvable(q) && Plain(w)
    ensures PlainValue(Uniform(paths, w), Some(w), q) == Some(w)
  {
    if ATTRIBUTES <= q {
      assert q[|ATTRIBUTES|..] in AttributeNames(paths);
      assert ScalarValue(Uniform(paths, w), q, Some(w)) == Some(w);
    }
  }

  lemma BaitIsPlain(last: string)
    requires Plain(last)
    ensures Plain(Braced(last) + "x")
  {
    var w := Braced(last) + "x";
    forall i | 0 <= i < |w| ensures !Forbidden(w[i]) {
      assert 2 <= i < |last| + 2 ==> w[i] == last[i - 2];
    }
  }

  /** Two placeholders or more, all with values: an event whose values are placeholders themselves tells
      the readings apart. */
  lemma TwoHolesDiffer(text: string, last: string, ev: Event, item: Option<string>)
    requires Tidy(Pieces(text)) && |Placeholders(text)| >= 2 && last == Placeholders(text)[|Placeholders(text)| - 1]
    requires Baiting(Placeholders(text), last, ev, item)
    ensures Substituted(text, Placeholders(text), ev, item) != Expanded(text, ev, item)
  {
    var (ps, paths) := (Pieces(text), Placeholders(text));
    assert last in paths && paths[0] in paths && last != "" && NoBraces(last);
    forall q ensures Hole(q) in ps <==> q in paths {
      HolesOfText(text, q);
    }
    assert forall q :: q in paths ==> PlainValue(ev, item, q) == Some(Braced(last) + "x");
    hide *;
    PiecesOfText(text);
    SubstitutedRuns(ps, paths, last, ev, item);
    ExpandedIsFull(text, ev, item);
    AtOnceText(ps, last, ev, item);
    RunIsLonger(ps, paths, last);
  }

  ghost predicate AlwaysAgrees(text: string) {
    forall ev: Event, item: Option<string> ::
      Substituted(text, Placeholders(text), ev, item) == Expanded(text, ev, item)
  }

  /** A tidy template with plain paths renders by substitution as it expands, for every event and fan-out item, if and
      only if it has at most one placeholder, or one whose path has a value in no event. */
  lemma AgreesExactly(text: string)
    requires Tidy(Pieces(text)) && forall q :: q in Placeholders(text) ==> Plain(q)
    ensures AlwaysAgrees(text) <==>
            |Placeholders(text)| <= 1 || exists q :: q in Placeholders(text) && !Resolvable(q)
  {
    hide Substituted, Expanded, Placeholders, Pieces, PlainValue, Plain, Tidy, Resolvable;
    var paths := Placeholders(text);
    if |paths| <= 1 {
      forall ev: Event, item: Option<string> ensures Substituted(text, paths, ev, item) == Expanded(text, ev, item) {
        OneHoleAgrees(text, ev, item);
      }
    } else if q :| q in paths && !Resolvable(q) {
      forall ev: Event, item: Option<string> ensures Substituted(text, paths, ev, item) == Expanded(text, ev, item) {
        UnresolvedAgrees(text, q, ev, item);
      }
    } else {
      var last := paths[|paths| - 1];
      var w := Braced(last) + "x";
      var ev := Uniform(paths, w);
      BaitIsPlain(last);
      forall q | q in paths ensures q != "" && NoBraces(q) && PlainValue(ev, Some(w), q) == Some(w) {
        HolesAreListed(text, q);
        UniformValue(paths, w, q);
      }
      TwoHolesDiffer(text, last, ev, Some(w));
    }
  }
}
