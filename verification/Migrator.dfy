/** One boot, and many instances that boot, crash and restart. */
module Migrator {
  import opened Prelude

  datatype Migration = Migration(tag: string, when: int, hash: string, statements: seq<string>)

  /** A bookkeeping row; its time may be null. */
  datatype Row = Row(hash: string, createdAt: Option<int>)

  /** What is committed: the statements executed, in order, and the bookkeeping table. */
  datatype Db = Db(schema: seq<string>, rows: seq<Row>)

  const EMPTY: Db := Db([], [])

  // ---------------------------------------------------------------------------
  // One boot.

  /** White space, as unicode.IsSpace has it. */
  predicate IsUnicodeSpace(c: char) {
    || '\t' <= c <= '\r' || c == ' ' || c == '\U{85}' || c == '\U{A0}' || c == '\U{1680}'
    || '\U{2000}' <= c <= '\U{200A}' || c == '\U{2028}' || c == '\U{2029}' || c == '\U{202F}' || c == '\U{205F}'
         || c == '\U{3000}'
  }

  function TrimmedLeft(s: string): string {
    if s != "" && IsUnicodeSpace(s[0]) then TrimmedLeft(s[1..]) else s
  }

  function TrimmedRight(s: string): string {
    if s != "" && IsUnicodeSpace(s[|s| - 1]) then TrimmedRight(s[..|s| - 1]) else s
  }

  /** What strings.TrimSpace leaves. */
  function TrimSpace(s: string): string {
    TrimmedRight(TrimmedLeft(s))
  }

  predicate IsBlank(statement: string) {
    TrimSpace(statement) == ""
  }

  ghost predicate HasText(s: string) {
    exists i :: 0 <= i < |s| && !IsUnicodeSpace(s[i])
  }

  lemma {:induction false} TrimmedLeftKeepsText(s: string)
    ensures HasText(TrimmedLeft(s)) <==> HasText(s)
  {
    if s != "" && IsUnicodeSpace(s[0]) {
      TrimmedLeftKeepsText(s[1..]);
      if i :| 0 <= i < |s| && !IsUnicodeSpace(s[i]) {
        assert s[1..][i - 1] == s[i];
      }
    }
  }

  lemma {:induction false} TrimmedRightToNothing(s: string)
    ensures TrimmedRight(s) == "" <==> !HasText(s)
  {
    if s != "" && IsUnicodeSpace(s[|s| - 1]) {
      var front := s[..|s| - 1];
      TrimmedRightToNothing(front);
      if i :| 0 <= i < |s| && !IsUnicodeSpace(s[i]) {
        assert front[i] == s[i];
      }
    }
  }

  /** A statement is blank exactly when it has no character but white space. */
  lemma BlankMeaning(s: string)
    ensures IsBlank(s) <==> !HasText(s)
  {
    TrimmedLeftKeepsText(s);
    TrimmedRightToNothing(TrimmedLeft(s));
  }

  function RowOf(m: Migration): Row {
    Row(m.hash, Some(m.when))
  }

  /** The later of two times, with null later than any. */
  function Later(a: Option<int>, b: Option<int>): Option<int> {
    if a.None? || b.None? then None else if a.value < b.value then b else a
  }

  /** The time of the first row in descending order, nulls first; none when there is no row. */
  function LastOf(rows: seq<Row>): Option<int> {
    if rows == [] then None
    else if |rows| == 1 then rows[0].createdAt
    else Later(rows[0].createdAt, LastOf(rows[1..]))
  }

  predicate Due(last: Option<int>, m: Migration) {
    last.None? || m.when > last.value
  }

  function Executable(statements: seq<string>): seq<string> {
    Filter(statements, s => !IsBlank(s))
  }

  /** The first n statements of m executed. */
  function Partly(db: Db, m: Migration, n: nat): Db
    requires n <= |m.statements|
  {
    db.(schema := db.schema + Executable(m.statements[..n]))
  }

  function ApplyOne(db: Db, m: Migration): Db {
    Db(db.schema + Executable(m.statements), db.rows + [RowOf(m)])
  }

  /** The first n migrations, skipping those that are not due. */
  function AppliedUpTo(db: Db, migs: seq<Migration>, last: Option<int>, n: nat): Db
    requires n <= |migs|
  {
    if n == 0 then db
    else
      var before := AppliedUpTo(db, migs, last, n - 1);
      if Due(last, migs[n - 1]) then ApplyOne(before, migs[n - 1]) else before
  }

  function Applied(db: Db, migs: seq<Migration>): Db {
    AppliedUpTo(db, migs, LastOf(db.rows), |migs|)
  }

  /** What can fail on the way: the connection before or in the transaction, one statement, one record, the commit. */
  datatype Faults = Faults(ensure: bool, begin: bool, lock: bool, read: bool, execute: string -> bool,
      record: string -> bool, commit: bool)

  /** Nothing that the first n migrations need fails. */
  predicate RunsUpTo(migs: seq<Migration>, last: Option<int>, faults: Faults, n: nat)
    requires n <= |migs|
  {
    forall i :: 0 <= i < n && Due(last, migs[i]) ==>
      !faults.record(migs[i].hash) && forall s :: s in Executable(migs[i].statements) ==> !faults.execute(s)
  }

  // What a boot does, stated over the rows and the statements themselves.

  /** No row yet, a row whose time is null, or every row earlier. */
  ghost predicate IsLater(rows: seq<Row>, m: Migration) {
    || rows == []
    || (exists r :: r in rows && r.createdAt.None?)
    || forall r :: r in rows ==> r.createdAt.Some? && r.createdAt.value < m.when
  }

  ghost function Statements(migs: seq<Migration>): seq<string> {
    if migs == [] then [] else Statements(migs[..|migs| - 1]) + migs[|migs| - 1].statements
  }

  ghost predicate Records(rows: seq<Row>, migs: seq<Migration>) {
    |rows| == |migs| && forall i :: 0 <= i < |rows| ==> rows[i] == Row(migs[i].hash, Some(migs[i].when))
  }

  /** The due migrations come in order, and of their statements those that are more than white space are executed, in
      order and as often as they stand there. */
  ghost predicate Booted(db: Db, migs: seq<Migration>, db': Db) {
    exists due: seq<Migration>, executed: seq<string>, rows: seq<Row> ::
      && Selects(migs, due, m => IsLater(db.rows, m))
      && Selects(Statements(due), executed, HasText)
      && Records(rows, due)
      && db' == Db(db.schema + executed, db.rows + rows)
  }

  /** Nothing that the due migrations need fails. */
  ghost predicate NothingFails(rows: seq<Row>, migs: seq<Migration>, faults: Faults) {
    forall m :: m in migs && IsLater(rows, m) ==>
      !faults.record(m.hash) && forall s :: s in m.statements && HasText(s) ==> !faults.execute(s)
  }

  class Database {
    var committed: Db
    var bookkeeping: bool

    constructor ()
      ensures committed == EMPTY && !bookkeeping
    {
      committed := EMPTY;
      bookkeeping := false;
    }

    /** All due migrations in one transaction, or none. */
    method ApplyMigrations(migs: seq<Migration>, faults: Faults) returns (ok: bool)
      modifies this
      ensures ok <==> !faults.ensure && !faults.begin && !faults.lock && !faults.read && !faults.commit
                      && NothingFails(old(committed.rows), migs, faults)
      ensures committed == if ok then Applied(old(committed), migs) else old(committed)
      ensures ok ==> Booted(old(committed), migs, committed)
      ensures ok ==> bookkeeping
    {
      hide LastOf, IsBlank, IsLater, NothingFails, Booted;
      RunsExactly(committed.rows, migs, faults);
      BootExecutes(committed, migs);
      if faults.ensure {
        return false;
      }
      bookkeeping := true;
      if faults.begin || faults.lock || faults.read {
        return false;
      }
      var last := LastOf(committed.rows);
      var work := committed;
      for i := 0 to |migs|
        invariant committed == old(committed) && bookkeeping
        invariant work == AppliedUpTo(committed, migs, last, i)
        invariant RunsUpTo(migs, last, faults, i)
      {
        if last.Some? && migs[i].when <= last.value {
          continue;
        }
        ghost var before := work;
        var statements := migs[i].statements;
        for j := 0 to |statements|
          invariant committed == old(committed) && bookkeeping
          invariant work == Partly(before, migs[i], j)
          invariant forall s :: s in Executable(statements[..j]) ==> !faults.execute(s)
        {
          NextExecutable(statements, j);
          if !IsBlank(statements[j]) {
            if faults.execute(statements[j]) {
              Unexecutable(statements, j);
              return false;
            }
            work := work.(schema := work.schema + [statements[j]]);
          }
        }
        assert statements[..|statements|] == statements;
        if faults.record(migs[i].hash) {
          return false;
        }
        work := work.(rows := work.rows + [Row(migs[i].hash, Some(migs[i].when))]);
      }
      if faults.commit {
        return false;
      }
      committed := work;
      return true;
    }
  }

  lemma NextExecutable(statements: seq<string>, j: nat)
    requires j < |statements|
    ensures Executable(statements[..j + 1]) ==
            Executable(statements[..j]) + (if IsBlank(statements[j]) then [] else [statements[j]])
  {
    hide IsBlank;
    FilterNext(statements, j, s => !IsBlank(s));
  }

  lemma Unexecutable(statements: seq<string>, j: nat)
    requires j < |statements| && !IsBlank(statements[j])
    ensures statements[j] in Executable(statements)
  {
    hide IsBlank;
  }

  /** A migration is due when it is later than every row, or when no time is read. */
  lemma DueMeaning(rows: seq<Row>, m: Migration)
    ensures Due(LastOf(rows), m) <==> IsLater(rows, m)
  {
    LastOfMeaning(rows);
    hide LastOf;
    if LastOf(rows).Some? {
      var r :| r in rows && r.createdAt == LastOf(rows);
    }
  }

  lemma RunsExactly(rows: seq<Row>, migs: seq<Migration>, faults: Faults)
    ensures RunsUpTo(migs, LastOf(rows), faults, |migs|) <==> NothingFails(rows, migs, faults)
  {
    forall m | m in migs ensures Due(LastOf(rows), m) <==> IsLater(rows, m) {
      DueMeaning(rows, m);
    }
    forall m, s | m in migs && s in m.statements ensures s in Executable(m.statements) <==> HasText(s) {
      BlankMeaning(s);
      hide IsBlank, HasText;
    }
    hide LastOf, IsLater, Due, Executable, HasText;
  }

  lemma {:induction false} StatementsExecuted(migs: seq<Migration>)
    ensures Selects(Statements(migs), Executable(Statements(migs)), HasText)
  {
    var all := Statements(migs);
    forall s ensures !IsBlank(s) <==> HasText(s) {
      BlankMeaning(s);
    }
    hide IsBlank, HasText;
    FilterSelects(all, s => !IsBlank(s));
    SelectsAlike(all, Executable(all), s => !IsBlank(s), HasText);
  }

  lemma ExecutableConcat(a: seq<string>, b: seq<string>)
    ensures Executable(a + b) == Executable(a) + Executable(b)
  {
    hide IsBlank;
    FilterConcat(a, b, s => !IsBlank(s));
  }

  ghost function DueUpTo(migs: seq<Migration>, last: Option<int>, n: nat): seq<Migration>
    requires n <= |migs|
  {
    Filter(migs[..n], m => Due(last, m))
  }

  ghost function DoneBy(db: Db, due: seq<Migration>): Db {
    Db(db.schema + Executable(Statements(due)), db.rows + Map(due, RowOf))
  }

  lemma StatementsNext(due: seq<Migration>, m: Migration)
    ensures Statements(due + [m]) == Statements(due) + m.statements
  {
    assert (due + [m])[..|due|] == due;
  }

  lemma RowsNext(due: seq<Migration>, m: Migration)
    ensures Map(due + [m], RowOf) == Map(due, RowOf) + [RowOf(m)]
  {
    MapConcat(due, [m], RowOf);
    assert Map([m], RowOf) == [RowOf(m)];
    hide Map, RowOf;
  }

  lemma DoneIs(db: Db, due: seq<Migration>, m: Migration)
    ensures DoneBy(db, due) == Db(db.schema + Executable(Statements(due)), db.rows + Map(due, RowOf))
    ensures ApplyOne(db, m) == Db(db.schema + Executable(m.statements), db.rows + [RowOf(m)])
  {
    hide Executable, Statements, Map, RowOf;
  }

  lemma DoneNext(db: Db, due: seq<Migration>, m: Migration)
    ensures DoneBy(db, due + [m]) == ApplyOne(DoneBy(db, due), m)
  {
    hide *;
    DoneIs(db, due, m);
    DoneIs(db, due + [m], m);
    DoneIs(DoneBy(db, due), due, m);
    StatementsNext(due, m);
    ExecutableConcat(Statements(due), m.statements);
    RowsNext(due, m);
    ConcatAssociates(db.schema, Executable(Statements(due)), Executable(m.statements));
    ConcatAssociates(db.rows, Map(due, RowOf), [RowOf(m)]);
  }

  lemma NothingDone(db: Db)
    ensures DoneBy(db, []) == db
  {
    NothingExecutable();
  }

  lemma DueNext(migs: seq<Migration>, last: Option<int>, n: nat)
    requires 0 < n <= |migs|
    ensures DueUpTo(migs, last, n) ==
            DueUpTo(migs, last, n - 1) + if Due(last, migs[n - 1]) then [migs[n - 1]] else []
    ensures DueUpTo(migs, last, 0) == []
  {
    FilterNext(migs, n - 1, m => Due(last, m));
  }

  lemma NothingApplied(db: Db, migs: seq<Migration>, last: Option<int>)
    ensures AppliedUpTo(db, migs, last, 0) == DoneBy(db, DueUpTo(migs, last, 0))
  {
    NothingDone(db);
    assert migs[..0] == [];
    hide DoneBy;
  }

  lemma {:induction false} AppliesDue(db: Db, migs: seq<Migration>, last: Option<int>, n: nat)
    requires n <= |migs|
    ensures AppliedUpTo(db, migs, last, n) == DoneBy(db, DueUpTo(migs, last, n))
  {
    hide *;
    if n == 0 {
      NothingApplied(db, migs, last);
    } else {
      AppliesDue(db, migs, last, n - 1);
      AppliedNext(db, migs, last, n);
      DueNext(migs, last, n);
      if Due(last, migs[n - 1]) {
        DoneNext(db, DueUpTo(migs, last, n - 1), migs[n - 1]);
      } else {
        assert DueUpTo(migs, last, n) == DueUpTo(migs, last, n - 1);
      }
    }
  }

  lemma BootExecutes(db: Db, migs: seq<Migration>)
    ensures Booted(db, migs, Applied(db, migs))
  {
    var last := LastOf(db.rows);
    var due := DueUpTo(migs, last, |migs|);
    assert migs[..|migs|] == migs;
    forall m ensures Due(last, m) <==> IsLater(db.rows, m) {
      DueMeaning(db.rows, m);
    }
    FilterSelects(migs, m => Due(last, m));
    hide LastOf, Due, IsLater, Executable, HasText;
    SelectsAlike(migs, due, m => Due(last, m), m => IsLater(db.rows, m));
    StatementsExecuted(due);
    AppliesDue(db, migs, last, |migs|);
    assert Records(Map(due, RowOf), due);
  }

  // ---------------------------------------------------------------------------
  // Boots one after another.

  /** What applying all of migs to an empty database leaves. */
  function Whole(migs: seq<Migration>): Db {
    if migs == [] then EMPTY else ApplyOne(Whole(migs[..|migs| - 1]), migs[|migs| - 1])
  }

  ghost predicate Increasing(migs: seq<Migration>) {
    forall i, j :: 0 <= i < j < |migs| ==> migs[i].when < migs[j].when
  }

  function Max(a: nat, b: nat): nat {
    if a < b then b else a
  }

  lemma {:induction false} LastOfSnoc(rows: seq<Row>, r: Row)
    ensures LastOf(rows + [r]) == if rows == [] then r.createdAt else Later(LastOf(rows), r.createdAt)
  {
    if |rows| > 1 {
      assert (rows + [r])[1..] == rows[1..] + [r];
      LastOfSnoc(rows[1..], r);
    } else if |rows| == 1 {
      assert (rows + [r])[1..] == [r];
    }
  }

  /** No time is read exactly when there is no row or some row has none; otherwise it is the largest. */
  lemma {:induction false} LastOfMeaning(rows: seq<Row>)
    ensures LastOf(rows).None? <==> rows == [] || exists r :: r in rows && r.createdAt.None?
    ensures LastOf(rows).Some? ==>
              && (exists r :: r in rows && r.createdAt == LastOf(rows))
              && forall r :: r in rows ==> r.createdAt.Some? && r.createdAt.value <= LastOf(rows).value
  {
    if rows != [] {
      LastOfMeaning(rows[1..]);
      assert forall r :: r in rows <==> r == rows[0] || r in rows[1..];
    }
  }

  lemma {:induction false} WholeIsDone(migs: seq<Migration>)
    ensures Whole(migs) == DoneBy(EMPTY, migs)
  {
    if migs == [] {
      NothingDone(EMPTY);
    } else {
      var (front, m) := (migs[..|migs| - 1], migs[|migs| - 1]);
      WholeIsDone(front);
      hide DoneBy, ApplyOne;
      DoneNext(EMPTY, front, m);
      assert front + [m] == migs;
    }
  }

  lemma WholeRows(migs: seq<Migration>)
    ensures Whole(migs).rows == Map(migs, RowOf)
  {
    WholeIsDone(migs);
    assert EMPTY.rows + Map(migs, RowOf) == Map(migs, RowOf);
    hide Whole, Map, Statements, Executable;
  }

  lemma WholeExecutes(migs: seq<Migration>)
    ensures Selects(Statements(migs), Whole(migs).schema, HasText)
  {
    WholeIsDone(migs);
    StatementsExecuted(migs);
    assert EMPTY.schema + Executable(Statements(migs)) == Executable(Statements(migs));
    hide Whole, Executable, Statements, Selects;
  }

  lemma WholeNext(journal: seq<Migration>, n: nat)
    requires 0 < n <= |journal|
    ensures Whole(journal[..n]) == ApplyOne(Whole(journal[..n - 1]), journal[n - 1])
  {
    assert journal[..n][..n - 1] == journal[..n - 1];
  }

  lemma AppliedNext(db: Db, migs: seq<Migration>, last: Option<int>, n: nat)
    requires 0 < n <= |migs|
    ensures var before := AppliedUpTo(db, migs, last, n - 1);
            AppliedUpTo(db, migs, last, n) == if Due(last, migs[n - 1]) then ApplyOne(before, migs[n - 1]) else before
  {
  }

  lemma LastNext(journal: seq<Migration>, n: nat)
    requires 0 < n <= |journal|
    ensures LastOf(Whole(journal[..n]).rows) ==
            if n == 1 then Some(journal[0].when)
            else Later(LastOf(Whole(journal[..n - 1]).rows), Some(journal[n - 1].when))
  {
    var (front, r) := (Whole(journal[..n - 1]).rows, RowOf(journal[n - 1]));
    assert r.createdAt == Some(journal[n - 1].when);
    assert Whole(journal[..n]).rows == front + [r] by {
      WholeNext(journal, n);
    }
    WholeLength(journal[..n - 1]);
    hide Whole, LastOf, Later;
    LastOfSnoc(front, r);
  }

  lemma LaterOf(a: int, b: int)
    ensures Later(Some(a), Some(b)) == Some(if a < b then b else a)
  {
  }

  lemma LaterThan(journal: seq<Migration>, i: nat, j: nat)
    requires Increasing(journal) && i < j < |journal|
    ensures journal[i].when < journal[j].when
  {
  }

  lemma {:induction false} LastOfWhole(journal: seq<Migration>, n: nat)
    requires 0 < n <= |journal|
    ensures var last := LastOf(Whole(journal[..n]).rows);
            last.Some? && (forall i :: 0 <= i < n ==> journal[i].when <= last.value)
              && (Increasing(journal) ==> last.value == journal[n - 1].when)
  {
    hide *;
    LastNext(journal, n);
    if n > 1 {
      LastOfWhole(journal, n - 1);
      LaterOf(LastOf(Whole(journal[..n - 1]).rows).value, journal[n - 1].when);
      if Increasing(journal) {
        LaterThan(journal, n - 2, n - 1);
      }
    }
  }

  /** A release that boots over the first p migrations leaves the first p and its own. */
  lemma {:induction false} BootUpTo(journal: seq<Migration>, p: nat, v: nat, n: nat)
    requires Increasing(journal) && p <= |journal| && n <= v <= |journal|
    ensures AppliedUpTo(Whole(journal[..p]), journal[..v], LastOf(Whole(journal[..p]).rows), n) ==
            Whole(journal[..Max(p, n)])
  {
    var (db, migs) := (Whole(journal[..p]), journal[..v]);
    var last := LastOf(db.rows);
    if n > 0 {
      assert migs[n - 1] == journal[n - 1];
      assert p == 0 ==> last == None;
      assert 0 < p < n ==> journal[p - 1].when < journal[n - 1].when;
      hide Whole, LastOf, AppliedUpTo, Increasing, ApplyOne;
      BootUpTo(journal, p, v, n - 1);
      AppliedNext(db, migs, last, n);
      if p > 0 {
        LastOfWhole(journal, p);
      }
      if n > p {
        WholeNext(journal, n);
      }
    }
  }

  lemma BootOverPrefix(journal: seq<Migration>, p: nat, v: nat)
    requires Increasing(journal) && p <= |journal| && v <= |journal|
    ensures Applied(Whole(journal[..p]), journal[..v]) == Whole(journal[..Max(p, v)])
  {
    BootUpTo(journal, p, v, v);
  }

  lemma {:induction false} NothingDue(db: Db, migs: seq<Migration>, last: Option<int>, n: nat)
    requires n <= |migs| && forall i :: 0 <= i < n ==> !Due(last, migs[i])
    ensures AppliedUpTo(db, migs, last, n) == db
  {
    if n > 0 {
      NothingDue(db, migs, last, n - 1);
    }
  }

  lemma {:induction false} FirstBoot(migs: seq<Migration>, n: nat)
    requires n <= |migs|
    ensures AppliedUpTo(EMPTY, migs, None, n) == Whole(migs[..n])
  {
    if n > 0 {
      FirstBoot(migs, n - 1);
      assert migs[..n][..n - 1] == migs[..n - 1];
    }
  }

  lemma WholeLength(migs: seq<Migration>)
    ensures |Whole(migs).rows| == |migs|
  {
    WholeRows(migs);
  }

  lemma BootEmpty(migs: seq<Migration>)
    ensures Applied(EMPTY, migs) == Whole(migs)
  {
    FirstBoot(migs, |migs|);
    assert migs[..|migs|] == migs;
  }

  /** A migration no later than the one before it is lost when a release between them boots first. */
  lemma LostMigration(journal: seq<Migration>, i: nat)
    requires i + 1 < |journal| && journal[i + 1].when <= journal[i].when
    ensures Applied(Applied(EMPTY, journal[..i + 1]), journal[..i + 2]) == Whole(journal[..i + 1])
    ensures Whole(journal[..i + 1]) != Whole(journal[..i + 2])
  {
    var second := journal[..i + 2];
    var db := Whole(journal[..i + 1]);
    hide LastOf, Whole, AppliedUpTo, Increasing;
    BootEmpty(journal[..i + 1]);
    LastOfWhole(journal, i + 1);
    WholeLength(journal[..i + 1]);
    WholeLength(second);
    NothingDue(db, second, LastOf(db.rows), i + 2);
  }

  lemma {:induction false} AdjacentIncreasing(migs: seq<Migration>, i: nat, j: nat)
    requires forall k :: 0 <= k && k + 1 < |migs| ==> migs[k].when < migs[k + 1].when
    requires i < j < |migs|
    ensures migs[i].when < migs[j].when
    decreases j
  {
    if i < j - 1 {
      AdjacentIncreasing(migs, i, j - 1);
    }
    assert migs[j - 1].when < migs[j - 1 + 1].when;
  }

  ghost predicate TwoBootsComplete(journal: seq<Migration>, v: nat, w: nat)
    requires v <= |journal| && w <= |journal|
  {
    Applied(Applied(EMPTY, journal[..v]), journal[..w]) == Whole(journal[..Max(v, w)])
  }

  /** Two releases booting one after the other leave all their migrations, whichever they are, exactly when the
      journal's times strictly increase. */
  lemma BootsCompleteIffIncreasing(journal: seq<Migration>)
    ensures Increasing(journal) <==>
            forall v: nat, w: nat :: v <= |journal| && w <= |journal| ==> TwoBootsComplete(journal, v, w)
  {
    if Increasing(journal) {
      forall v: nat, w: nat | v <= |journal| && w <= |journal| ensures TwoBootsComplete(journal, v, w) {
        BootEmpty(journal[..v]);
        BootOverPrefix(journal, v, w);
      }
    } else if forall k :: 0 <= k && k + 1 < |journal| ==> journal[k].when < journal[k + 1].when {
      forall i, j | 0 <= i < j < |journal| ensures journal[i].when < journal[j].when {
        AdjacentIncreasing(journal, i, j);
      }
    } else {
      var k :| 0 <= k && k + 1 < |journal| && journal[k].when >= journal[k + 1].when;
      LostMigration(journal, k);
      assert !TwoBootsComplete(journal, k + 1, k + 2);
    }
  }

  // ---------------------------------------------------------------------------
  // Many instances.

  datatype Phase =
    | Idle                       // not running: never started, crashed, or aborted
    | Started
    | SchemaEnsured
    | TableEnsured
    | Begun                      // in a transaction, waiting for the lock
    | Locked                     // holding the lock, before the bookkeeping table is read
    | Working(last: Option<int>, next: nat, statement: nat, work: Db)
    | Finished

  /** The release decides how much of the journal the instance carries. */
  datatype Instance = Instance(release: nat, phase: Phase)

  datatype System = System(committed: Db, bookkeeping: bool, lock: Option<nat>, instances: seq<Instance>)

  datatype Action =
    | Join                          // one more instance
    | Start(i: nat, release: nat)   // a boot, or a reboot with any release
    | EnsureSchema(i: nat)
    | EnsureTable(i: nat)
    | Begin(i: nat)
    | Acquire(i: nat)
    | ReadLast(i: nat)
    | Advance(i: nat)               // skip a migration, execute or skip a statement, or record a migration
    | Commit(i: nat, heard: bool)   // heard is false when the commit happens but its acknowledgement is lost
    | Crash(i: nat)                 // or any error: the transaction rolls back and its lock is released

  predicate InTransaction(phase: Phase) {
    phase.Locked? || phase.Working?
  }

  function SetPhase(s: System, i: nat, phase: Phase): System
    requires i < |s.instances|
  {
    s.(instances := s.instances[i := s.instances[i].(phase := phase)])
  }

  /** One step of the migration loop. */
  function Advanced(journal: seq<Migration>, phase: Phase): Phase
    requires phase.Working? && phase.next < |journal|
  {
    var m := journal[phase.next];
    if !Due(phase.last, m) then phase.(next := phase.next + 1, statement := 0)
    else if phase.statement < |m.statements| then
      var s := m.statements[phase.statement];
      phase.(statement := phase.statement + 1,
             work := if IsBlank(s) then phase.work else phase.work.(schema := phase.work.schema + [s]))
    else phase.(next := phase.next + 1, statement := 0, work := phase.work.(rows := phase.work.rows + [RowOf(m)]))
  }

  /** What an action does, when it can happen. */
  function Step(journal: seq<Migration>, s: System, a: Action): Option<System> {
    if a.Join? then Some(s.(instances := s.instances + [Instance(0, Idle)]))
    else if a.i >= |s.instances| then None
    else
      var (i, me) := (a.i, s.instances[a.i]);
      match a
      case Start(_, release) =>
        if (me.phase.Idle? || me.phase.Finished?) && release <= |journal|
        then Some(s.(instances := s.instances[i := Instance(release, Started)])) else None
      case EnsureSchema(_) => if me.phase.Started? then Some(SetPhase(s, i, SchemaEnsured)) else None
      case EnsureTable(_) => if me.phase.SchemaEnsured? then Some(SetPhase(s, i, TableEnsured).(bookkeeping := true))
        else None
      case Begin(_) => if me.phase.TableEnsured? then Some(SetPhase(s, i, Begun)) else None
      case Acquire(_) => if me.phase.Begun? && s.lock.None? then Some(SetPhase(s, i, Locked).(lock := Some(i)))
        else None
      case ReadLast(_) =>
        if me.phase.Locked? then Some(SetPhase(s, i, Working(LastOf(s.committed.rows), 0, 0, s.committed))) else None
      case Advance(_) =>
        if me.phase.Working? && me.phase.next < me.release && me.phase.next < |journal|
        then Some(SetPhase(s, i, Advanced(journal, me.phase))) else None
      case Commit(_, heard) =>
        if me.phase.Working? && me.phase.next == me.release
        then Some(SetPhase(s, i, if heard then Finished else Idle).(committed := me.phase.work, lock := None)) else None
      case Crash(_) =>
        Some(SetPhase(s, i, Idle).(lock := if InTransaction(me.phase) then None else s.lock))
      case Join => None
  }

  /** A transaction under way has done exactly its part of one whole boot. */
  ghost predicate OnTrack(journal: seq<Migration>, committed: Db, me: Instance) {
    me.release <= |journal| &&
    (me.phase.Working? ==>
      && me.phase.last == LastOf(committed.rows)
      && me.phase.next <= me.release
      && var done := AppliedUpTo(committed, journal[..me.release], me.phase.last, me.phase.next);
         if me.phase.statement == 0 then me.phase.work == done
         else
           && me.phase.next < me.release
           && me.phase.statement <= |journal[me.phase.next].statements|
           && Due(me.phase.last, journal[me.phase.next])
           && me.phase.work == Partly(done, journal[me.phase.next], me.phase.statement))
  }

  predicate PastTable(phase: Phase) {
    phase.TableEnsured? || phase.Begun? || InTransaction(phase)
  }

  /** The lock has one holder, which alone is past acquiring it, and every transaction is on track. */
  ghost predicate Inv(journal: seq<Migration>, s: System) {
    && (s.lock.Some? ==> s.lock.value < |s.instances| && InTransaction(s.instances[s.lock.value].phase))
    && (forall i :: 0 <= i < |s.instances| && InTransaction(s.instances[i].phase) ==> s.lock == Some(i))
    && (forall i :: 0 <= i < |s.instances| ==> OnTrack(journal, s.committed, s.instances[i]))
    && (forall i :: 0 <= i < |s.instances| && PastTable(s.instances[i].phase) ==> s.bookkeeping)
  }

  lemma AdvanceKeepsTrack(journal: seq<Migration>, committed: Db, me: Instance)
    requires OnTrack(journal, committed, me) && me.phase.Working? && me.phase.next < me.release
    ensures OnTrack(journal, committed, me.(phase := Advanced(journal, me.phase)))
  {
    var migs := journal[..me.release];
    var (last, k, j) := (me.phase.last, me.phase.next, me.phase.statement);
    var m := journal[k];
    assert migs[k] == m;
    var done := AppliedUpTo(committed, migs, last, k);
    hide LastOf, IsBlank, Executable;
    if Due(last, m) {
      assert m.statements[..0] == [] && Executable([]) == [] by {
        NothingExecutable();
      }
      assert me.phase.work == Partly(done, m, j);
      if j < |m.statements| {
        NextExecutable(m.statements, j);
      } else {
        assert m.statements[..j] == m.statements;
      }
    }
  }

  lemma NothingExecutable()
    ensures Executable([]) == []
  {
  }

  lemma CommitIsABoot(journal: seq<Migration>, committed: Db, me: Instance)
    requires OnTrack(journal, committed, me) && me.phase.Working? && me.phase.next == me.release
    ensures me.phase.work == Applied(committed, journal[..me.release])
  {
    hide AppliedUpTo, LastOf;
  }

  lemma UnrelatedTrack(journal: seq<Migration>, committed: Db, committed': Db, me: Instance)
    requires OnTrack(journal, committed, me) && !me.phase.Working?
    ensures OnTrack(journal, committed', me)
  {
  }

  /** Every step keeps the invariant, and changes what is committed only by whole boots, as if they came
      one after another. */
  lemma CommitKeepsInv(journal: seq<Migration>, s: System, a: Action)
    requires Inv(journal, s) && a.Commit? && Step(journal, s, a).Some?
    ensures var s' := Step(journal, s, a).value;
            Inv(journal, s') && s'.committed == Applied(s.committed, journal[..s.instances[a.i].release])
  {
    var s' := Step(journal, s, a).value;
    hide OnTrack, Applied, Advanced, LastOf;
    CommitIsABoot(journal, s.committed, s.instances[a.i]);
    forall k | 0 <= k < |s'.instances| ensures OnTrack(journal, s'.committed, s'.instances[k]) {
      if k == a.i {
        FreshTrack(journal, s'.committed, s'.instances[k], s.instances[k], s.committed);
      } else {
        UnrelatedTrack(journal, s.committed, s'.committed, s.instances[k]);
      }
    }
  }

  /** The holder of the lock goes on inside its transaction. */
  lemma WorkKeepsInv(journal: seq<Migration>, s: System, a: Action)
    requires Inv(journal, s) && (a.Advance? || a.ReadLast?) && Step(journal, s, a).Some?
    ensures var s' := Step(journal, s, a).value; Inv(journal, s') && s'.committed == s.committed
  {
    assert a.Advance? ==> Advanced(journal, s.instances[a.i].phase).Working?;
    hide OnTrack, Applied, Advanced, LastOf;
    if a.Advance? {
      AdvanceKeepsTrack(journal, s.committed, s.instances[a.i]);
    } else {
      ReadTrack(journal, s.committed, s.instances[a.i]);
    }
  }

  /** An instance joins, boots, acquires the lock or crashes. */
  lemma QuietStepKeepsInv(journal: seq<Migration>, s: System, a: Action)
    requires Inv(journal, s) && !a.Commit? && !a.Advance? && !a.ReadLast? && Step(journal, s, a).Some?
    ensures var s' := Step(journal, s, a).value; Inv(journal, s') && s'.committed == s.committed
  {
    var s' := Step(journal, s, a).value;
    hide OnTrack, Applied, Advanced, LastOf;
    if a.Join? {
      JoinTrack(journal, s.committed);
    } else if a.Start? {
      StartTrack(journal, s.committed, a.release);
    } else {
      FreshTrack(journal, s.committed, s'.instances[a.i], s.instances[a.i], s.committed);
    }
  }

  lemma StepKeepsInv(journal: seq<Migration>, s: System, a: Action)
    requires Inv(journal, s) && Step(journal, s, a).Some?
    ensures var s' := Step(journal, s, a).value;
            && Inv(journal, s')
            && s'.committed == if a.Commit? then Applied(s.committed, journal[..s.instances[a.i].release])
                 else s.committed
  {
    hide Inv, OnTrack, Applied, Advanced, LastOf;
    if a.Commit? {
      CommitKeepsInv(journal, s, a);
    } else if a.Advance? || a.ReadLast? {
      WorkKeepsInv(journal, s, a);
    } else {
      QuietStepKeepsInv(journal, s, a);
    }
  }

  lemma FreshTrack(journal: seq<Migration>, committed': Db, me': Instance, me: Instance, committed: Db)
    requires OnTrack(journal, committed, me) && me'.release == me.release && !me'.phase.Working?
    ensures OnTrack(journal, committed', me')
  {
  }

  lemma ReadTrack(journal: seq<Migration>, committed: Db, me: Instance)
    requires OnTrack(journal, committed, me)
    ensures OnTrack(journal, committed, me.(phase := Working(LastOf(committed.rows), 0, 0, committed)))
  {
    hide LastOf;
  }

  lemma JoinTrack(journal: seq<Migration>, committed: Db)
    ensures OnTrack(journal, committed, Instance(0, Idle))
  {
  }

  lemma StartTrack(journal: seq<Migration>, committed: Db, release: nat)
    requires release <= |journal|
    ensures OnTrack(journal, committed, Instance(release, Started))
  {
  }

  // ---------------------------------------------------------------------------
  // Every run.

  /** Actions one after another; one that cannot happen does not. */
  function Execute(journal: seq<Migration>, s: System, actions: seq<Action>): System
    decreases |actions|
  {
    if actions == [] then s
    else Execute(journal, match Step(journal, s, actions[0]) case Some(s') => s' case None => s, actions[1..])
  }

  const INITIAL: System := System(EMPTY, false, None, [])

  /** The rows are a prefix of the journal, the schema is what exactly those migrations leave, and whoever finished
      has its whole release in it. */
  ghost predicate Safe(journal: seq<Migration>, s: System) {
    && |s.committed.rows| <= |journal|
    && s.committed == Whole(journal[..|s.committed.rows|])
    && forall i ::
         0 <= i < |s.instances| && s.instances[i].phase.Finished? ==> s.instances[i].release <= |s.committed.rows|
  }

  lemma StepKeepsSafe(journal: seq<Migration>, s: System, a: Action)
    requires Increasing(journal) && Inv(journal, s) && Safe(journal, s) && Step(journal, s, a).Some?
    ensures Safe(journal, Step(journal, s, a).value)
  {
    StepKeepsInv(journal, s, a);
    if a.Commit? {
      var (p, v) := (|s.committed.rows|, s.instances[a.i].release);
      assert OnTrack(journal, s.committed, s.instances[a.i]);
      hide OnTrack, Inv, LastOf, Whole, Applied, Increasing;
      BootOverPrefix(journal, p, v);
      WholeLength(journal[..Max(p, v)]);
    } else {
      hide OnTrack, Inv, LastOf, Whole, Applied, Increasing, Advanced;
    }
  }

  lemma {:induction false} ExecuteKeeps(journal: seq<Migration>, s: System, actions: seq<Action>)
    requires Inv(journal, s)
    ensures Inv(journal, Execute(journal, s, actions))
    ensures Increasing(journal) && Safe(journal, s) ==> Safe(journal, Execute(journal, s, actions))
    decreases |actions|
  {
    hide Inv, Safe, Step, Increasing;
    if actions != [] {
      var next := Step(journal, s, actions[0]);
      if next.Some? {
        StepKeepsInv(journal, s, actions[0]);
        if Increasing(journal) && Safe(journal, s) {
          StepKeepsSafe(journal, s, actions[0]);
        }
        ExecuteKeeps(journal, next.value, actions[1..]);
      } else {
        ExecuteKeeps(journal, s, actions[1..]);
      }
    }
  }

  lemma IncreasingRowsDistinct(migs: seq<Migration>)
    requires Increasing(migs)
    ensures Distinct(Whole(migs).rows)
  {
    WholeRows(migs);
    hide Whole;
    var rows := Map(migs, RowOf);
    assert forall i :: 0 <= i < |migs| ==> rows[i].createdAt == Some(migs[i].when);
  }

  /** For a journal of strictly increasing times and every interleaving of instances joining, booting, crashing and
      restarting with any release: the committed rows are a duplicate-free prefix of the journal, the schema is exactly
      theirs, at most one instance is in a transaction, and whoever finished has its whole release applied. */
  lemma EveryRunIsSafe(journal: seq<Migration>, actions: seq<Action>)
    requires Increasing(journal)
    ensures var s := Execute(journal, INITIAL, actions);
            && |s.committed.rows| <= |journal|
            && Records(s.committed.rows, journal[..|s.committed.rows|])
            && Distinct(s.committed.rows)
            && Selects(Statements(journal[..|s.committed.rows|]), s.committed.schema, HasText)
            && (forall i, j ::
                 0 <= i < j < |s.instances| ==>
                   !(InTransaction(s.instances[i].phase) && InTransaction(s.instances[j].phase)))
            && (forall i ::
                 0 <= i < |s.instances| && s.instances[i].phase.Finished? ==>
                   s.instances[i].release <= |s.committed.rows|)
  {
    assert Inv(journal, INITIAL);
    assert Safe(journal, INITIAL);
    var s := Execute(journal, INITIAL, actions);
    hide Execute, Whole, Distinct, OnTrack, Selects, HasText;
    ExecuteKeeps(journal, INITIAL, actions);
    var done := journal[..|s.committed.rows|];
    WholeRows(done);
    WholeExecutes(done);
    IncreasingRowsDistinct(done);
  }

  /** Whoever holds the lock can always go on to commit a whole boot. */
  lemma {:induction false} HolderCanCommit(journal: seq<Migration>, s: System, i: nat) returns (steps: nat)
    requires Inv(journal, s) && i < |s.instances| && s.instances[i].phase.Working?
    ensures var actions := seq(steps, _ => Advance(i)) + [Commit(i, true)];
            var s' := Execute(journal, s, actions);
            && s'.committed == Applied(s.committed, journal[..s.instances[i].release])
            && s'.lock == None && i < |s'.instances| && s'.instances[i].phase.Finished?
    decreases |journal| - s.instances[i].phase.next,
              if s.instances[i].phase.next < |journal|
              then |journal[s.instances[i].phase.next].statements| - s.instances[i].phase.statement else 0
  {
    var me := s.instances[i];
    assert OnTrack(journal, s.committed, me);
    if me.phase.next == me.release {
      steps := 0;
      StepKeepsInv(journal, s, Commit(i, true));
      var one := seq(0, _ => Advance(i)) + [Commit(i, true)];
      assert one == [Commit(i, true)] && one[1..] == [];
      CommitStep(journal, s, i);
      ExecuteOne(journal, s, one);
    } else {
      StepKeepsInv(journal, s, Advance(i));
      var s1 := Step(journal, s, Advance(i)).value;
      var rest := HolderCanCommit(journal, s1, i);
      steps := rest + 1;
      var actions := seq(steps, _ => Advance(i)) + [Commit(i, true)];
      assert actions[1..] == seq(rest, _ => Advance(i)) + [Commit(i, true)];
      ExecuteOne(journal, s, actions);
    }
  }

  lemma ExecuteOne(journal: seq<Migration>, s: System, actions: seq<Action>)
    requires actions != [] && Step(journal, s, actions[0]).Some?
    ensures Execute(journal, s, actions) == Execute(journal, Step(journal, s, actions[0]).value, actions[1..])
  {
  }

  lemma CommitStep(journal: seq<Migration>, s: System, i: nat)
    requires i < |s.instances| && s.instances[i].phase.Working? && s.instances[i].phase.next == s.instances[i].release
    ensures var s' := Step(journal, s, Commit(i, true));
            s'.Some? && s'.value.lock == None && |s'.value.instances| == |s.instances|
              && s'.value.instances[i].phase.Finished?
            && Execute(journal, s'.value, []) == s'.value
  {
  }
}
