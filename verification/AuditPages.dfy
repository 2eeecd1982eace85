/** Reading the audit log page by page: newest first, with a cursor of millisecond precision. */
module AuditPages {
  import opened Prelude

  /** A stored row; at is in microseconds, as the database keeps it. */
  datatype Row = Row(id: int, at: int, actor: string, action: string, data: string)

  /** A served row; at is in milliseconds, as the ISO text shows it. */
  datatype Entry = Entry(id: int, at: int, actor: string, action: string, data: string)

  /** The instant in microseconds, always a whole millisecond, and the id. */
  datatype Cursor = Cursor(at: int, id: int)

  datatype Query = Query(action: string, actor: string, from: Option<int>, to: Option<int>, limit: nat,
      cursor: Option<Cursor>)

  datatype Result = Result(entries: seq<Entry>, next: Option<Cursor>)

  function Millis(at: int): int { at / 1000 }
  function Truncated(at: int): int { 1000 * Millis(at) }

  function EntryOf(r: Row): Entry {
    Entry(r.id, Millis(r.at), r.actor, r.action, r.data)
  }

  function CursorOf(r: Row): Cursor {
    Cursor(Truncated(r.at), r.id)
  }

  // ---------------------------------------------------------------------------
  // LIKE patterns.

  /** SQL LIKE: % matches any run, _ any character, and \ makes the next character literal. */
  predicate Like(s: string, pattern: string)
    decreases |pattern| + |s|
  {
    if pattern == "" then s == ""
    else if pattern[0] == '%' then Like(s, pattern[1..]) || (s != "" && Like(s[1..], pattern))
    else if pattern[0] == '\\' then |pattern| > 1 && s != "" && s[0] == pattern[1] && Like(s[1..], pattern[2..])
    else if pattern[0] == '_' then s != "" && Like(s[1..], pattern[1..])
    else s != "" && s[0] == pattern[0] && Like(s[1..], pattern[1..])
  }

  predicate IsLikeSpecial(c: char) {
    c == '\\' || c == '%' || c == '_'
  }

  function EscapedChar(c: char): string {
    if IsLikeSpecial(c) then ['\\', c] else [c]
  }

  function Escaped(s: string): string {
    if s == "" then "" else EscapedChar(s[0]) + Escaped(s[1..])
  }

  lemma EscapedFrom(s: string, i: nat)
    requires i < |s|
    ensures Escaped(s[i..]) == EscapedChar(s[i]) + Escaped(s[i + 1..])
  {
    assert s[i..][1..] == s[i + 1..];
  }

  method EscapeLike(s: string) returns (r: string)
    ensures r == Escaped(s)
  {
    r := "";
    assert s[0..] == s;
    for i := 0 to |s|
      invariant r + Escaped(s[i..]) == Escaped(s)
    {
      EscapedFrom(s, i);
      hide Escaped;
      ConcatAssociates(r, EscapedChar(s[i]), Escaped(s[i + 1..]));
      ghost var was := r;
      if IsLikeSpecial(s[i]) {
        r := r + ['\\'];
      }
      r := r + [s[i]];
      assert r == was + EscapedChar(s[i]);
    }
    assert s[|s|..] == "" && r + "" == r;
  }

  lemma {:induction false} AnythingLike(s: string)
    ensures Like(s, "%")
  {
    assert "%"[1..] == "";
    if s != "" {
      AnythingLike(s[1..]);
    }
  }

  /** The escaped prefix followed by % matches exactly the strings that start with it, whatever characters it has. */
  lemma {:induction false} LikeIsPrefix(s: string, prefix: string)
    ensures Like(s, Escaped(prefix) + "%") <==> prefix <= s
  {
    var pattern := Escaped(prefix) + "%";
    if prefix == "" {
      assert pattern == "%";
      AnythingLike(s);
    } else {
      var rest := Escaped(prefix[1..]) + "%";
      if IsLikeSpecial(prefix[0]) {
        assert pattern == ['\\', prefix[0]] + rest && pattern[2..] == rest;
      } else {
        assert pattern == [prefix[0]] + rest && pattern[1..] == rest;
      }
      if s != "" {
        LikeIsPrefix(s[1..], prefix[1..]);
        assert prefix <= s <==> prefix[0] == s[0] && prefix[1..] <= s[1..] by {
          assert s == [s[0]] + s[1..] && prefix == [prefix[0]] + prefix[1..];
        }
      }
    }
  }

  // ---------------------------------------------------------------------------
  // The table and the query.

  /** a comes before b: later, or at the same time with a larger id. */
  predicate Before(a: Row, b: Row) {
    a.at > b.at || (a.at == b.at && a.id > b.id)
  }

  function InsertRow(r: Row, rows: seq<Row>): seq<Row> {
    if rows == [] then [r]
    else if Before(rows[0], r) then [rows[0]] + InsertRow(r, rows[1..])
    else [r] + rows
  }

  /** ORDER BY occurred_at DESC, id DESC. */
  function Ordered(table: seq<Row>): seq<Row> {
    if table == [] then [] else InsertRow(table[0], Ordered(table[1..]))
  }

  datatype Cond =
    | ActionLike(pattern: string)
    | ActionIs(action: string)
    | ActorIs(actor: string)
    | NotBefore(at: int)
    | NotAfter(at: int)
    | BelowCursor(cursor: Cursor)

  predicate Below(c: Cursor, r: Row) {
    r.at < c.at || (r.at == c.at && r.id < c.id)
  }

  predicate Holds(cond: Cond, r: Row) {
    match cond
    case ActionLike(pattern) => Like(r.action, pattern)
    case ActionIs(action) => r.action == action
    case ActorIs(actor) => r.actor == actor
    case NotBefore(at) => r.at >= at
    case NotAfter(at) => r.at <= at
    case BelowCursor(c) => Below(c, r)
  }

  /** What the database answers: the rows that satisfy every condition, in order, no more than limit. */
  function Select(table: seq<Row>, conds: seq<Cond>, limit: nat): seq<Row> {
    Take(Filter(Ordered(table), (r: Row) => forall c :: c in conds ==> Holds(c, r)), limit)
  }

  function Take<T>(s: seq<T>, n: nat): (r: seq<T>)
    ensures |r| <= n && |r| <= |s| && r == s[..|r|]
  {
    if n < |s| then s[..n] else s
  }

  /** What the caller asked for, the page aside: a trailing * asks for a prefix. */
  predicate Wanted(q: Query, r: Row) {
    && (q.action != "" ==>
          if q.action[|q.action| - 1] == '*' then q.action[..|q.action| - 1] <= r.action else r.action == q.action)
    && (q.actor != "" ==> r.actor == q.actor)
    && (q.from.Some? ==> r.at >= q.from.value)
    && (q.to.Some? ==> r.at <= q.to.value)
  }

  predicate Eligible(q: Query, r: Row) {
    Wanted(q, r) && (q.cursor.Some? ==> Below(q.cursor.value, r))
  }

  function IsEligible(q: Query): Row -> bool { (r: Row) => Eligible(q, r) }
  function IsBelow(c: Cursor): Row -> bool { (r: Row) => Below(c, r) }

  function Matching(table: seq<Row>, q: Query): seq<Row> {
    Filter(Ordered(table), IsEligible(q))
  }

  function Page(table: seq<Row>, q: Query): Result {
    var rows := Matching(table, q);
    var page := Take(rows, q.limit);
    Result(Map(page, EntryOf), if |rows| > q.limit && page != [] then Some(CursorOf(page[|page| - 1])) else None)
  }

  lemma {:induction false} FilterSame<T(!new)>(s: seq<T>, p: T -> bool, q: T -> bool)
    requires forall x :: x in s ==> p(x) == q(x)
    ensures Filter(s, p) == Filter(s, q)
  {
    if s != [] {
      FilterSame(s[1..], p, q);
    }
  }

  /** The conditions gathered for a query. */
  function Conditions(q: Query): seq<Cond> {
    ActionConditions(q.action)
    + (if q.actor == "" then [] else [ActorIs(q.actor)])
    + (if q.from.None? then [] else [NotBefore(q.from.value)])
    + (if q.to.None? then [] else [NotAfter(q.to.value)])
    + (if q.cursor.None? then [] else [BelowCursor(q.cursor.value)])
  }

  function ActionConditions(action: string): seq<Cond> {
    if action == "" then []
    else if action[|action| - 1] == '*' then [ActionLike(Escaped(action[..|action| - 1]) + "%")]
    else [ActionIs(action)]
  }

  method Gather(q: Query) returns (conds: seq<Cond>)
    ensures conds == Conditions(q)
  {
    conds := [];
    if q.action != "" {
      if q.action[|q.action| - 1] == '*' {
        var prefix := EscapeLike(q.action[..|q.action| - 1]);
        conds := conds + [ActionLike(prefix + "%")];
      } else {
        conds := conds + [ActionIs(q.action)];
      }
    }
    ghost var wanted := ActionConditions(q.action);
    assert conds == wanted;
    if q.actor != "" {
      conds := conds + [ActorIs(q.actor)];
    }
    wanted := wanted + (if q.actor == "" then [] else [ActorIs(q.actor)]);
    assert conds == wanted;
    if q.from.Some? {
      conds := conds + [NotBefore(q.from.value)];
    }
    wanted := wanted + (if q.from.None? then [] else [NotBefore(q.from.value)]);
    assert conds == wanted;
    if q.to.Some? {
      conds := conds + [NotAfter(q.to.value)];
    }
    wanted := wanted + (if q.to.None? then [] else [NotAfter(q.to.value)]);
    assert conds == wanted;
    if q.cursor.Some? {
      conds := conds + [BelowCursor(q.cursor.value)];
    }
  }

  ghost predicate AllHold(conds: seq<Cond>, r: Row) {
    forall c :: c in conds ==> Holds(c, r)
  }

  lemma BothHold(a: seq<Cond>, b: seq<Cond>, r: Row)
    ensures AllHold(a + b, r) <==> AllHold(a, r) && AllHold(b, r)
  {
    hide Holds;
  }

  lemma ActionSays(action: string, r: Row)
    ensures AllHold(ActionConditions(action), r) <==>
            (action != "" ==>
              if action[|action| - 1] == '*' then action[..|action| - 1] <= r.action else r.action == action)
  {
    hide Like, Escaped;
    if action != "" {
      LikeIsPrefix(r.action, action[..|action| - 1]);
      var c := ActionConditions(action)[0];
      assert c in ActionConditions(action);
    }
  }

  /** The conditions hold of exactly the rows the query asks for. */
  lemma ConditionsSay(q: Query, r: Row)
    ensures AllHold(Conditions(q), r) <==> Eligible(q, r)
  {
    var a := ActionConditions(q.action);
    var b: seq<Cond> := if q.actor == "" then [] else [ActorIs(q.actor)];
    var c: seq<Cond> := if q.from.None? then [] else [NotBefore(q.from.value)];
    var d: seq<Cond> := if q.to.None? then [] else [NotAfter(q.to.value)];
    var e: seq<Cond> := if q.cursor.None? then [] else [BelowCursor(q.cursor.value)];
    assert Conditions(q) == a + b + c + d + e;
    assert AllHold(b, r) <==> (q.actor != "" ==> r.actor == q.actor) by {
      assert b != [] ==> b[0] in b;
    }
    assert AllHold(c, r) <==> (q.from.Some? ==> r.at >= q.from.value) by {
      assert c != [] ==> c[0] in c;
    }
    assert AllHold(d, r) <==> (q.to.Some? ==> r.at <= q.to.value) by {
      assert d != [] ==> d[0] in d;
    }
    assert AllHold(e, r) <==> (q.cursor.Some? ==> Below(q.cursor.value, r)) by {
      assert e != [] ==> e[0] in e;
    }
    ActionSays(q.action, r);
    hide AllHold, ActionConditions, Conditions, Below;
    BothHold(a + b + c + d, e, r);
    BothHold(a + b + c, d, r);
    BothHold(a + b, c, r);
    BothHold(a, b, r);
  }

  lemma SelectIsMatching(table: seq<Row>, q: Query, limit: nat)
    ensures Select(table, Conditions(q), limit) == Take(Matching(table, q), limit)
  {
    hide Filter, Ordered, Conditions, Eligible;
    forall r: Row ensures (forall c :: c in Conditions(q) ==> Holds(c, r)) <==> Eligible(q, r) {
      ConditionsSay(q, r);
    }
    FilterSame(Ordered(table), (r: Row) => forall c :: c in Conditions(q) ==> Holds(c, r), IsEligible(q));
  }

  method Serve(fetched: seq<Row>) returns (entries: seq<Entry>)
    ensures entries == Map(fetched, EntryOf)
  {
    hide *;
    entries := [];
    for i := 0 to |fetched|
      invariant |entries| == i && forall k :: 0 <= k < i ==> entries[k] == EntryOf(fetched[k])
    {
      entries := entries + [EntryOf(fetched[i])];
    }
  }

  /** The entry shows the row, its time to the millisecond. */
  ghost predicate Shows(e: Entry, r: Row) {
    && e.id == r.id && e.actor == r.actor && e.action == r.action && e.data == r.data
    && 1000 * e.at <= r.at < 1000 * e.at + 1000
  }

  ghost predicate Newer(a: Row, b: Row) {
    a.at > b.at || (a.at == b.at && a.id > b.id)
  }

  /** A row the query asks for, that the page leaves to later ones. */
  ghost predicate Remains(table: seq<Row>, q: Query, rows: seq<Row>, x: Row) {
    x in table && Eligible(q, x) && x !in rows
  }

  /** Rows asked for, newest first, no more than fit; none that remains is newer, and none remains unless they fill
      the page. */
  ghost predicate Foremost(table: seq<Row>, q: Query, rows: seq<Row>) {
    && |rows| <= q.limit
    && (forall i :: 0 <= i < |rows| ==> rows[i] in table && Eligible(q, rows[i]))
    && (forall i, j :: 0 <= i < j < |rows| ==> Newer(rows[i], rows[j]))
    && (forall x, i :: Remains(table, q, rows, x) && 0 <= i < |rows| ==> Newer(rows[i], x))
    && ((exists x :: Remains(table, q, rows, x)) ==> |rows| == q.limit)
  }

  /** The page shows these rows. A cursor at the last of them, cut to the millisecond, is given exactly when a row
      remains. */
  ghost predicate IsPageOf(table: seq<Row>, q: Query, page: Result, rows: seq<Row>) {
    && Foremost(table, q, rows)
    && |page.entries| == |rows|
    && (forall i :: 0 <= i < |rows| ==> Shows(page.entries[i], rows[i]))
    && (page.next.Some? <==> rows != [] && exists x :: Remains(table, q, rows, x))
    && (page.next.Some? ==> PointsAt(page.next.value, rows[|rows| - 1]))
  }

  ghost predicate PointsAt(c: Cursor, last: Row) {
    c.id == last.id && c.at % 1000 == 0 && c.at <= last.at < c.at + 1000
  }

  lemma NotAgain(rows: seq<Row>, k: nat, x: Row)
    requires Descending(rows) && k <= |rows| && x in rows[..k]
    ensures x !in rows[k..]
  {
    var i :| 0 <= i < k && rows[..k][i] == x;
    forall j | k <= j < |rows| ensures rows[j] != x {
      assert Before(rows[i], rows[j]);
    }
  }

  /** What remains is what follows the page. */
  lemma RemainsAre(table: seq<Row>, q: Query, k: nat, x: Row)
    requires DistinctIds(table) && k <= |Matching(table, q)|
    ensures Remains(table, q, Matching(table, q)[..k], x) <==> x in Matching(table, q)[k..]
  {
    var rows := Matching(table, q);
    MatchingDescends(table, q);
    assert rows == rows[..k] + rows[k..];
    hide Matching, Eligible, Descending;
    if x in rows[..k] {
      NotAgain(rows, k, x);
    }
  }

  lemma RemainsOlder(table: seq<Row>, q: Query, k: nat, x: Row, i: nat)
    requires DistinctIds(table) && i < k <= |Matching(table, q)| && Remains(table, q, Matching(table, q)[..k], x)
    ensures Newer(Matching(table, q)[i], x)
  {
    var rows := Matching(table, q);
    RemainsAre(table, q, k, x);
    MatchingDescends(table, q);
    hide Matching, Remains, DistinctIds;
    var j :| 0 <= j < |rows| - k && rows[k..][j] == x;
    assert Before(rows[i], rows[k + j]);
  }

  lemma SomeRemains(table: seq<Row>, q: Query, k: nat)
    requires DistinctIds(table) && k <= |Matching(table, q)|
    ensures k < |Matching(table, q)| <==> exists x :: Remains(table, q, Matching(table, q)[..k], x)
  {
    var rows := Matching(table, q);
    forall x ensures Remains(table, q, rows[..k], x) <==> x in rows[k..] {
      RemainsAre(table, q, k, x);
    }
    hide Matching, Remains, DistinctIds;
    if k < |rows| {
      assert rows[k] in rows[k..];
    }
  }

  lemma EntryShows(r: Row)
    ensures Shows(EntryOf(r), r)
    ensures PointsAt(CursorOf(r), r)
  {
  }

  lemma NewerIs(rows: seq<Row>)
    requires Descending(rows)
    ensures forall i, j :: 0 <= i < j < |rows| ==> Newer(rows[i], rows[j])
  {
    forall i, j | 0 <= i < j < |rows| ensures Newer(rows[i], rows[j]) {
      assert Before(rows[i], rows[j]);
    }
  }

  lemma PageIsForemost(table: seq<Row>, q: Query)
    requires DistinctIds(table)
    ensures Foremost(table, q, Take(Matching(table, q), q.limit))
  {
    var all := Matching(table, q);
    var rows := Take(all, q.limit);
    MatchingDescends(table, q);
    hide Matching, Eligible, Descending, Remains, DistinctIds, Newer;
    SomeRemains(table, q, |rows|);
    NewerIs(all);
    forall x, i | Remains(table, q, rows, x) && 0 <= i < |rows| ensures Newer(rows[i], x) {
      RemainsOlder(table, q, |rows|, x, i);
    }
  }

  lemma PageExactly(table: seq<Row>, q: Query)
    requires DistinctIds(table)
    ensures IsPageOf(table, q, Page(table, q), Take(Matching(table, q), q.limit))
  {
    var all := Matching(table, q);
    var rows := Take(all, q.limit);
    PageParts(table, q, rows);
    hide Matching, Remains, DistinctIds, Page, Shows, PointsAt, EntryOf, CursorOf, Foremost;
    PageIsForemost(table, q);
    SomeRemains(table, q, |rows|);
    forall r: Row ensures Shows(EntryOf(r), r) {
      EntryShows(r);
    }
    if rows != [] {
      EntryShows(rows[|rows| - 1]);
    }
  }

  method QueryPage(table: seq<Row>, q: Query) returns (r: Result)
    ensures r == Page(table, q)
    ensures DistinctIds(table) ==> exists rows :: IsPageOf(table, q, r, rows)
  {
    hide *;
    if DistinctIds(table) {
      PageExactly(table, q);
    }
    ghost var rows := Matching(table, q);
    PageParts(table, q, Take(rows, q.limit));
    SelectIsMatching(table, q, q.limit + 1);
    TakeOneMore(rows, q.limit);
    var conds := Gather(q);
    var fetched := Select(table, conds, q.limit + 1);
    var hasMore := |fetched| > q.limit;
    if hasMore {
      fetched := fetched[..q.limit];
    }
    var entries := Serve(fetched);
    r := Result(entries, if hasMore && |fetched| > 0 then Some(CursorOf(fetched[|fetched| - 1])) else None);
  }

  lemma TakeOneMore<T>(s: seq<T>, limit: nat)
    ensures var more := Take(s, limit + 1);
            && (|more| > limit <==> |s| > limit)
            && (if |more| > limit then more[..limit] else more) == Take(s, limit)
  {
  }

  lemma PageParts(table: seq<Row>, q: Query, page: seq<Row>)
    requires page == Take(Matching(table, q), q.limit)
    ensures Page(table, q) ==
            Result(Map(page, EntryOf), if |Matching(table, q)| > q.limit && |page| > 0
              then Some(CursorOf(page[|page| - 1])) else None)
  {
    hide Matching, Take, Map;
  }

  // ---------------------------------------------------------------------------
  // Order.

  ghost predicate Descending(rows: seq<Row>) {
    forall i, j :: 0 <= i < j < |rows| ==> Before(rows[i], rows[j])
  }

  ghost predicate DistinctIds(rows: seq<Row>) {
    forall i, j :: 0 <= i < j < |rows| ==> rows[i].id != rows[j].id
  }

  lemma {:induction false} InsertAdds(r: Row, rows: seq<Row>)
    ensures multiset(InsertRow(r, rows)) == multiset{r} + multiset(rows)
  {
    if rows != [] {
      assert rows == [rows[0]] + rows[1..];
      InsertAdds(r, rows[1..]);
    }
  }

  lemma {:induction false} InsertKeepsOrder(r: Row, rows: seq<Row>)
    requires Descending(rows) && forall x :: x in rows ==> x.id != r.id
    ensures Descending(InsertRow(r, rows))
  {
    if rows != [] {
      var rest := InsertRow(r, rows[1..]);
      if Before(rows[0], r) {
        InsertKeepsOrder(r, rows[1..]);
        InsertAdds(r, rows[1..]);
        forall j | 0 <= j < |rest| ensures Before(rows[0], rest[j]) {
          assert rest[j] in multiset(rest);
          assert rest[j] == r || rest[j] in rows[1..];
        }
      } else {
        assert rows[0] in rows && Before(r, rows[0]);
      }
    }
  }

  /** The order is strict, and holds each row of the table once. */
  lemma {:induction false} OrderedSorts(table: seq<Row>)
    requires DistinctIds(table)
    ensures Descending(Ordered(table)) && multiset(Ordered(table)) == multiset(table)
  {
    if table != [] {
      assert table == [table[0]] + table[1..];
      OrderedSorts(table[1..]);
      var rest := Ordered(table[1..]);
      forall x | x in rest ensures x.id != table[0].id {
        assert x in multiset(rest) && x in table[1..];
      }
      InsertKeepsOrder(table[0], rest);
      InsertAdds(table[0], rest);
    }
  }

  lemma {:induction false} FilterDescending(rows: seq<Row>, p: Row -> bool)
    requires Descending(rows)
    ensures Descending(Filter(rows, p))
  {
    if rows != [] {
      FilterDescending(rows[1..], p);
      var rest := Filter(rows[1..], p);
      if p(rows[0]) {
        assert Filter(rows, p) == [rows[0]] + rest;
        forall j | 0 <= j < |rest| ensures Before(rows[0], rest[j]) {
          assert rest[j] in rows[1..];
        }
      } else {
        assert Filter(rows, p) == rest;
      }
    }
  }

  lemma MatchingDescends(table: seq<Row>, q: Query)
    requires DistinctIds(table)
    ensures Descending(Matching(table, q))
    ensures forall r :: r in Matching(table, q) <==> r in table && Eligible(q, r)
  {
    hide Filter, Eligible, Descending;
    OrderedSorts(table);
    FilterDescending(Ordered(table), IsEligible(q));
    assert forall r :: r in Ordered(table) <==> r in multiset(Ordered(table));
  }

  // ---------------------------------------------------------------------------
  // Following cursors.

  function Rest(q: Query, last: Row): Query {
    q.(cursor := Some(CursorOf(last)))
  }

  /** Rows below the cursor of a row come after it, and below any cursor that it was below. */
  lemma BelowIsAfter(last: Row, r: Row)
    ensures Below(CursorOf(last), r) ==> Before(last, r)
    ensures forall c: Cursor :: Below(c, last) && Below(CursorOf(last), r) ==> Below(c, r)
  {
  }

  lemma {:induction false} FilterTwice<T(!new)>(s: seq<T>, p: T -> bool, q: T -> bool, both: T -> bool)
    requires forall x :: x in s ==> both(x) == (p(x) && q(x))
    ensures Filter(Filter(s, p), q) == Filter(s, both)
  {
    if s != [] {
      var (x, rest) := (s[0], s[1..]);
      assert s == [x] + rest && x in s && forall y :: y in rest ==> y in s;
      hide Filter;
      FilterTwice(rest, p, q, both);
      FilterCons(x, rest, p);
      FilterCons(x, rest, both);
      FilterCons(x, Filter(rest, p), q);
      assert [] + Filter(rest, p) == Filter(rest, p) && [] + Filter(rest, both) == Filter(rest, both);
    } else {
      assert Filter(s, p) == [];
    }
  }

  lemma {:induction false} FilterNone<T(!new)>(s: seq<T>, p: T -> bool)
    requires forall x :: x in s ==> !p(x)
    ensures Filter(s, p) == []
  {
    if s != [] {
      FilterNone(s[1..], p);
    }
  }

  /** The page after row k - 1 is taken from the rows that follow it, less those above its cursor. */
  lemma NextMatching(table: seq<Row>, q: Query, k: nat)
    requires DistinctIds(table) && 0 < k <= |Matching(table, q)|
    ensures var rows := Matching(table, q);
            Matching(table, Rest(q, rows[k - 1])) == Filter(rows[k..], IsBelow(CursorOf(rows[k - 1])))
  {
    hide *;
    var rows := Matching(table, q);
    var last := rows[k - 1];
    var below := IsBelow(CursorOf(last));
    MatchingDescends(table, q);
    forall r | r in Ordered(table) ensures IsEligible(Rest(q, last))(r) == (IsEligible(q)(r) && below(r)) {
      EligibleNext(q, last, r);
    }
    MatchingIs(table, q);
    MatchingIs(table, Rest(q, last));
    FilterTwice(Ordered(table), IsEligible(q), below, IsEligible(Rest(q, last)));
    assert rows == rows[..k] + rows[k..];
    FilterConcat(rows[..k], rows[k..], below);
    NoneAbove(rows, k);
    FilterNone(rows[..k], below);
    assert [] + Filter(rows[k..], below) == Filter(rows[k..], below);
  }

  lemma MatchingIs(table: seq<Row>, q: Query)
    ensures Matching(table, q) == Filter(Ordered(table), IsEligible(q))
  {
    hide Filter, Ordered;
  }

  lemma EligibleNext(q: Query, last: Row, r: Row)
    requires Eligible(q, last)
    ensures IsEligible(Rest(q, last))(r) == (IsEligible(q)(r) && IsBelow(CursorOf(last))(r))
  {
    BelowIsAfter(last, r);
  }

  lemma NoneAbove(rows: seq<Row>, k: nat)
    requires Descending(rows) && 0 < k <= |rows|
    ensures forall r :: r in rows[..k] ==> !IsBelow(CursorOf(rows[k - 1]))(r)
  {
    forall r | r in rows[..k] ensures !Below(CursorOf(rows[k - 1]), r) {
      var i :| 0 <= i < k && rows[..k][i] == r;
      BelowIsAfter(rows[k - 1], r);
      assert i < k - 1 ==> Before(rows[i], rows[k - 1]);
    }
  }

  /** All pages, one after another, until none is announced. */
  function Follow(table: seq<Row>, q: Query): seq<Entry>
    requires DistinctIds(table) && q.limit > 0
    decreases |Matching(table, q)|
  {
    var page := Page(table, q);
    if page.next.None? then page.entries
    else
      NextMatching(table, q, q.limit);
      page.entries + Follow(table, q.(cursor := page.next))
  }

  /** Entries of some of the rows, in their order, each row at most once. */
  ghost predicate Subsequence(entries: seq<Entry>, rows: seq<Row>) {
    if rows == [] then entries == []
    else
      || Subsequence(entries, rows[1..])
      || (entries != [] && entries[0] == EntryOf(rows[0]) && Subsequence(entries[1..], rows[1..]))
  }

  lemma {:induction false} SubsequenceOfFiltered(entries: seq<Entry>, rows: seq<Row>, p: Row -> bool)
    requires Subsequence(entries, Filter(rows, p))
    ensures Subsequence(entries, rows)
  {
    if rows != [] {
      var rest := Filter(rows[1..], p);
      if p(rows[0]) {
        assert Filter(rows, p) == [rows[0]] + rest && Filter(rows, p)[1..] == rest;
        if Subsequence(entries, rest) {
          SubsequenceOfFiltered(entries, rows[1..], p);
        } else {
          SubsequenceOfFiltered(entries[1..], rows[1..], p);
        }
      } else {
        assert Filter(rows, p) == rest;
        SubsequenceOfFiltered(entries, rows[1..], p);
      }
    }
  }

  lemma {:induction false} SubsequencePage(a: seq<Row>, entries: seq<Entry>, b: seq<Row>)
    requires Subsequence(entries, b)
    ensures Subsequence(Map(a, EntryOf) + entries, a + b)
  {
    if a == [] {
      assert Map(a, EntryOf) + entries == entries && a + b == b;
    } else {
      var whole := Map(a, EntryOf) + entries;
      assert whole[1..] == Map(a[1..], EntryOf) + entries && (a + b)[1..] == a[1..] + b;
      SubsequencePage(a[1..], entries, b);
    }
  }

  /** Following cursors always ends, and serves matching rows newest first, none of them twice, whatever the times. */
  lemma {:induction false} FollowServesOnce(table: seq<Row>, q: Query)
    requires DistinctIds(table) && q.limit > 0
    ensures Subsequence(Follow(table, q), Matching(table, q))
    decreases |Matching(table, q)|
  {
    hide *;
    var rows := Matching(table, q);
    if |rows| <= q.limit {
      FollowEnds(table, q);
      WholeSubsequence(rows);
    } else {
      var k := q.limit;
      var next := Rest(q, rows[k - 1]);
      NextMatching(table, q, k);
      RestKeepsLimit(q, rows[k - 1]);
      FollowUnfolds(table, q);
      assert |Matching(table, next)| < |rows| by {
        FilterShorter(rows[k..], IsBelow(CursorOf(rows[k - 1])));
      }
      FollowServesOnce(table, next);
      SubsequenceOfFiltered(Follow(table, next), rows[k..], IsBelow(CursorOf(rows[k - 1])));
      SubsequencePage(rows[..k], Follow(table, next), rows[k..]);
      assert rows == rows[..k] + rows[k..];
    }
  }

  lemma WholeSubsequence(rows: seq<Row>)
    ensures Subsequence(Map(rows, EntryOf), rows)
  {
    assert Subsequence([], []);
    SubsequencePage(rows, [], []);
    assert Map(rows, EntryOf) + [] == Map(rows, EntryOf) && rows + [] == rows;
  }

  lemma {:induction false} SubsequenceFrom(entries: seq<Entry>, rows: seq<Row>, i: nat, j: nat)
    requires Subsequence(entries, rows) && i < j < |entries|
    ensures exists x, y :: 0 <= x < y < |rows| && entries[i] == EntryOf(rows[x]) && entries[j] == EntryOf(rows[y])
    decreases |rows|
  {
    var rest := rows[1..];
    if Subsequence(entries, rest) {
      SubsequenceFrom(entries, rest, i, j);
      var x, y :| 0 <= x < y < |rest| && entries[i] == EntryOf(rest[x]) && entries[j] == EntryOf(rest[y]);
      assert rows[x + 1] == rest[x] && rows[y + 1] == rest[y];
    } else if i > 0 {
      SubsequenceFrom(entries[1..], rest, i - 1, j - 1);
      var x, y :| 0 <= x < y < |rest| && entries[1..][i - 1] == EntryOf(rest[x])
        && entries[1..][j - 1] == EntryOf(rest[y]);
      assert rows[x + 1] == rest[x] && rows[y + 1] == rest[y];
    } else {
      var y := EntryServed(entries[1..], rest, j - 1);
      assert rows[y + 1] == rest[y];
      assert entries[0] == EntryOf(rows[0]) && entries[j] == EntryOf(rows[y + 1]);
    }
  }

  lemma {:induction false} EntryServed(entries: seq<Entry>, rows: seq<Row>, j: nat) returns (y: nat)
    requires Subsequence(entries, rows) && j < |entries|
    ensures y < |rows| && entries[j] == EntryOf(rows[y])
    decreases |rows|
  {
    var rest := rows[1..];
    if Subsequence(entries, rest) {
      y := EntryServed(entries, rest, j);
      y := y + 1;
    } else if j > 0 {
      y := EntryServed(entries[1..], rest, j - 1);
      y := y + 1;
    } else {
      y := 0;
    }
  }

  /** No row is served twice. */
  lemma NoRowTwice(table: seq<Row>, q: Query, i: nat, j: nat)
    requires DistinctIds(table) && q.limit > 0 && i < j < |Follow(table, q)|
    ensures Follow(table, q)[i].id != Follow(table, q)[j].id
  {
    var rows := Matching(table, q);
    hide Follow, Matching, Subsequence;
    FollowServesOnce(table, q);
    SubsequenceFrom(Follow(table, q), rows, i, j);
    MatchingDescends(table, q);
    var x, y :| 0 <= x < y < |rows| && Follow(table, q)[i] == EntryOf(rows[x])
      && Follow(table, q)[j] == EntryOf(rows[y]);
    assert Before(rows[x], rows[y]);
    assert rows[x] in table && rows[y] in table;
    assert rows[x] != rows[y];
  }

  // ---------------------------------------------------------------------------
  // When nothing is skipped.

  /** Each row lies below the cursor made of the row before it. */
  ghost predicate Seamless(rows: seq<Row>) {
    forall i :: 0 < i < |rows| ==> Below(CursorOf(rows[i - 1]), rows[i])
  }

  lemma {:induction false} FilterEvery<T(!new)>(s: seq<T>, p: T -> bool)
    ensures |Filter(s, p)| == |s| <==> forall x :: x in s ==> p(x)
    ensures |Filter(s, p)| == |s| ==> Filter(s, p) == s
  {
    if s != [] {
      FilterEvery(s[1..], p);
      assert s == [s[0]] + s[1..];
    }
  }

  /** Below the cursor of one row, and then everything after it. */
  lemma SeamlessBelow(rows: seq<Row>, k: nat, i: nat)
    requires Descending(rows) && Seamless(rows) && 0 < k <= i < |rows|
    ensures Below(CursorOf(rows[k - 1]), rows[i])
  {
    assert Below(CursorOf(rows[k - 1]), rows[k]);
    assert k < i ==> Before(rows[k], rows[i]);
  }

  lemma SeamlessRest(rows: seq<Row>, k: nat)
    requires Descending(rows) && Seamless(rows) && 0 < k <= |rows|
    ensures Seamless(rows[k..]) && Filter(rows[k..], IsBelow(CursorOf(rows[k - 1]))) == rows[k..]
  {
    var below := IsBelow(CursorOf(rows[k - 1]));
    forall r | r in rows[k..] ensures below(r) {
      var i :| 0 <= i < |rows| - k && rows[k..][i] == r;
      SeamlessBelow(rows, k, k + i);
    }
    FilterEvery(rows[k..], below);
    forall i | 0 < i < |rows| - k ensures Below(CursorOf(rows[k..][i - 1]), rows[k..][i]) {
      assert rows[k..][i - 1] == rows[k + i - 1] && rows[k..][i] == rows[k + i];
    }
  }

  lemma {:induction false} SeamlessServesAll(table: seq<Row>, q: Query)
    requires DistinctIds(table) && q.limit > 0 && Seamless(Matching(table, q))
    ensures Follow(table, q) == Map(Matching(table, q), EntryOf)
    decreases |Matching(table, q)|
  {
    hide *;
    var rows := Matching(table, q);
    var k := q.limit;
    if |rows| > k {
      var next := Rest(q, rows[k - 1]);
      NextMatching(table, q, k);
      FollowUnfolds(table, q);
      MatchingDescends(table, q);
      SeamlessRest(rows, k);
      RestKeepsLimit(q, rows[k - 1]);
      SeamlessServesAll(table, next);
      assert rows == rows[..k] + rows[k..];
      MapConcat(rows[..k], rows[k..], EntryOf);
    } else {
      FollowEnds(table, q);
    }
  }

  lemma RestKeepsLimit(q: Query, last: Row)
    ensures Rest(q, last).limit == q.limit
  {
  }

  lemma FollowEnds(table: seq<Row>, q: Query)
    requires DistinctIds(table) && 0 < q.limit && |Matching(table, q)| <= q.limit
    ensures Follow(table, q) == Map(Matching(table, q), EntryOf)
  {
    hide Matching, Map, DistinctIds;
  }

  lemma FollowUnfolds(table: seq<Row>, q: Query)
    requires DistinctIds(table) && 0 < q.limit < |Matching(table, q)|
    ensures var rows := Matching(table, q);
            Follow(table, q) == Map(rows[..q.limit], EntryOf) + Follow(table, Rest(q, rows[q.limit - 1]))
  {
    NextMatching(table, q, q.limit);
    hide Matching, Map, DistinctIds;
  }

  lemma {:induction false} FollowIsShort(table: seq<Row>, q: Query)
    requires DistinctIds(table) && q.limit > 0
    ensures |Follow(table, q)| <= |Matching(table, q)|
    decreases |Matching(table, q)|
  {
    if |Matching(table, q)| > q.limit {
      NextMatching(table, q, q.limit);
      FollowIsShort(table, Rest(q, Matching(table, q)[q.limit - 1]));
    }
  }

  /** With one row a page, serving as many rows as match means that nothing was skipped. */
  lemma {:induction false} OneByOne(table: seq<Row>, q: Query)
    requires DistinctIds(table) && q.limit == 1 && |Follow(table, q)| == |Matching(table, q)|
    ensures Seamless(Matching(table, q))
    decreases |Matching(table, q)|
  {
    var rows := Matching(table, q);
    if |rows| > 1 {
      var below := IsBelow(CursorOf(rows[0]));
      NextMatching(table, q, 1);
      var next := Rest(q, rows[0]);
      FollowIsShort(table, next);
      FilterEvery(rows[1..], below);
      assert Matching(table, next) == rows[1..];
      OneByOne(table, next);
      forall i | 0 < i < |rows| ensures Below(CursorOf(rows[i - 1]), rows[i]) {
        if i == 1 {
          assert rows[1] in rows[1..];
        } else {
          assert rows[1..][i - 2] == rows[i - 1] && rows[1..][i - 1] == rows[i];
        }
      }
    }
  }

  /** The first row of each page but the first lies below the cursor made of the last row of the page before. */
  ghost predicate PagesMeet(rows: seq<Row>, limit: nat)
    requires limit > 0
    decreases |rows|
  {
    |rows| > limit ==> Below(CursorOf(rows[limit - 1]), rows[limit]) && PagesMeet(rows[limit..], limit)
  }

  /** All of the rows after a page lie below its cursor exactly when the first of them does. */
  lemma FirstDecides(rows: seq<Row>, k: nat)
    requires Descending(rows) && 0 < k < |rows|
    ensures Filter(rows[k..], IsBelow(CursorOf(rows[k - 1]))) == rows[k..] <==> Below(CursorOf(rows[k - 1]), rows[k])
    ensures |Filter(rows[k..], IsBelow(CursorOf(rows[k - 1])))| == |rows[k..]| <==>
            Below(CursorOf(rows[k - 1]), rows[k])
  {
    var below := IsBelow(CursorOf(rows[k - 1]));
    FilterEvery(rows[k..], below);
    assert rows[k..][0] == rows[k] && rows[k] in rows[k..];
    if Below(CursorOf(rows[k - 1]), rows[k]) {
      forall r | r in rows[k..] ensures below(r) {
        var i :| 0 <= i < |rows| - k && rows[k..][i] == r;
        assert i > 0 ==> Before(rows[k], rows[k + i]);
      }
    }
  }

  /** For one page size: the pages together are all matching rows, newest first, exactly when they meet. */
  lemma {:induction false} PageSizeIsComplete(table: seq<Row>, q: Query)
    requires DistinctIds(table) && q.limit > 0
    ensures Follow(table, q) == Map(Matching(table, q), EntryOf) <==> PagesMeet(Matching(table, q), q.limit)
    ensures |Follow(table, q)| == |Matching(table, q)| ==> PagesMeet(Matching(table, q), q.limit)
    decreases |Matching(table, q)|
  {
    var rows := Matching(table, q);
    var k := q.limit;
    assert PagesMeet(rows, k) <==> |rows| > k ==> Below(CursorOf(rows[k - 1]), rows[k]) && PagesMeet(rows[k..], k);
    hide *;
    if |rows| <= k {
      FollowEnds(table, q);
    } else {
      var next := Rest(q, rows[k - 1]);
      var (tail, rest) := (rows[k..], Follow(table, next));
      NextMatching(table, q, k);
      MatchingDescends(table, q);
      FirstDecides(rows, k);
      RestKeepsLimit(q, rows[k - 1]);
      FollowIsShort(table, next);
      PageThenRest(table, q, rest, tail);
      if Below(CursorOf(rows[k - 1]), rows[k]) {
        PageSizeIsComplete(table, next);
      } else {
        assert |rest| < |tail| by {
          FilterShorter(tail, IsBelow(CursorOf(rows[k - 1])));
        }
        assert |Map(tail, EntryOf)| == |tail|;
      }
    }
  }

  lemma FilterShorter<T(!new)>(s: seq<T>, p: T -> bool)
    ensures |Filter(s, p)| <= |s|
  {
  }

  /** The first page is right; the rest decides. */
  lemma PageThenRest(table: seq<Row>, q: Query, rest: seq<Entry>, tail: seq<Row>)
    requires DistinctIds(table) && 0 < q.limit < |Matching(table, q)|
    requires rest == Follow(table, Rest(q, Matching(table, q)[q.limit - 1])) && tail == Matching(table, q)[q.limit..]
    ensures Follow(table, q) == Map(Matching(table, q), EntryOf) <==> rest == Map(tail, EntryOf)
    ensures |Follow(table, q)| == |Matching(table, q)| <==> |rest| == |tail|
  {
    var rows := Matching(table, q);
    var first := rows[..q.limit];
    assert rows == first + tail;
    assert |Map(first, EntryOf)| == q.limit;
    hide *;
    FollowUnfolds(table, q);
    MapConcat(first, tail, EntryOf);
    SameAfter(Map(first, EntryOf), rest, Map(tail, EntryOf));
  }

  lemma SameAfter<T>(a: seq<T>, b: seq<T>, c: seq<T>)
    ensures a + b == a + c <==> b == c
  {
    assert b == (a + b)[|a|..] && c == (a + c)[|a|..];
  }

  lemma MatchingIgnoresLimit(table: seq<Row>, q: Query, limit: nat)
    ensures Matching(table, q.(limit := limit)) == Matching(table, q)
  {
    FilterSame(Ordered(table), IsEligible(q.(limit := limit)), IsEligible(q));
  }

  /** The pages together are all matching rows, newest first, for every page size, exactly when each matching row
      lies below the truncated cursor of the one before it. */
  lemma PagesAreComplete(table: seq<Row>, q: Query)
    requires DistinctIds(table)
    ensures (forall limit: nat ::
            limit > 0 ==> Follow(table, q.(limit := limit)) == Map(Matching(table, q), EntryOf)) <==>
            Seamless(Matching(table, q))
  {
    hide Follow, Matching, Seamless;
    if Seamless(Matching(table, q)) {
      forall limit: nat | limit > 0 ensures Follow(table, q.(limit := limit)) == Map(Matching(table, q), EntryOf) {
        MatchingIgnoresLimit(table, q, limit);
        SeamlessServesAll(table, q.(limit := limit));
      }
    }
    if forall limit: nat :: limit > 0 ==> Follow(table, q.(limit := limit)) == Map(Matching(table, q), EntryOf) {
      MatchingIgnoresLimit(table, q, 1);
      OneByOne(table, q.(limit := 1));
    }
  }

  /** So it is when all times are whole milliseconds. */
  lemma WholeMillisecondsAreComplete(table: seq<Row>, q: Query)
    requires DistinctIds(table) && q.limit > 0 && forall r :: r in table ==> r.at % 1000 == 0
    ensures Follow(table, q) == Map(Matching(table, q), EntryOf)
  {
    var rows := Matching(table, q);
    MatchingDescends(table, q);
    forall i | 0 < i < |rows| ensures Below(CursorOf(rows[i - 1]), rows[i]) {
      assert rows[i - 1] in rows && Before(rows[i - 1], rows[i]);
    }
    SeamlessServesAll(table, q);
  }

  /** Two rows within one millisecond: a page of one skips the earlier row. */
  lemma SkippedRow(a: Row, b: Row, q: Query)
    requires a.at == 1500 && b.at == 1200 && a.id != b.id
    requires q == Query("", "", None, None, 1, None)
    ensures Matching([a, b], q) == [a, b] && |Follow([a, b], q)| == 1
  {
    assert [a, b][1..] == [b] && [b][1..] == [] && Ordered([]) == [];
    assert Ordered([b]) == [b];
    assert Ordered([a, b]) == [a, b];
    FilterEvery([a, b], IsEligible(q));
    MatchingIs([a, b], q);
    assert !Seamless(Matching([a, b], q)) by {
      assert !Below(CursorOf(a), b);
    }
    assert DistinctIds([a, b]);
    hide *;
    FollowIsShort([a, b], q);
    FollowServesSome([a, b], q);
    if |Follow([a, b], q)| == 2 {
      OneByOne([a, b], q);
    }
  }

  lemma FollowServesSome(table: seq<Row>, q: Query)
    requires DistinctIds(table) && q.limit > 0 && Matching(table, q) != []
    ensures Follow(table, q) != []
  {
    hide Matching, DistinctIds;
  }
}
