/** Events to tuples: guarded rendering and interruptible delivery. */
module EventMapping {
  import opened Prelude
  import opened Sorting
  import opened JsText
  import opened Condition

  datatype Attribute = Scalar(text: string) | List(items: seq<string>) | Other

  datatype Event = Event(typ: string, subjectType: string, subjectId: string, attributes: map<string, Attribute>)

  datatype Predicate = Predicate(field: string, equals: string)

  datatype Template = Template(user: string, relation: string, obj: string)

  datatype Rule = Rule(eventType: string, predicates: seq<Predicate>, template: Template, op: string, priority: int,
      fanOut: Option<string>)

  datatype Rendered = Rendered(user: string, relation: string, obj: string)

  // ---------------------------------------------------------------------------
  // Values and matching.

  const ATTRIBUTES := "attributes."

  /** The scalar a path stands for; item is present only during fan-out. */
  function ScalarValue(ev: Event, path: string, item: Option<string>): Option<string> {
    if path == "item" then item
    else if path == "type" then Some(ev.typ)
    else if path == "subject" || path == "subject.id" then Some(ev.subjectId)
    else if path == "subject.type" then Some(ev.subjectType)
    else if ATTRIBUTES <= path && path[|ATTRIBUTES|..] in ev.attributes && ev.attributes[path[|ATTRIBUTES|..]].Scalar?
    then Some(ev.attributes[path[|ATTRIBUTES|..]].text)
    else None
  }

  predicate Satisfied(ev: Event, p: Predicate) {
    ScalarValue(ev, p.field, None) == Some(p.equals)
  }

  function ListNamed(ev: Event, name: string): seq<string> {
    if name in ev.attributes && ev.attributes[name].List? then ev.attributes[name].items else []
  }

  predicate Matches(rule: Rule, ev: Event) {
    && rule.eventType == ev.typ
    && (forall p :: p in rule.predicates ==> Satisfied(ev, p))
    && (rule.fanOut.Some? ==> ListNamed(ev, rule.fanOut.value) != [])
  }

  method MatchRule(rule: Rule, ev: Event) returns (r: bool)
    ensures r <==> Matches(rule, ev)
  {
    if rule.eventType != ev.typ {
      return false;
    }
    for i := 0 to |rule.predicates|
      invariant forall p :: p in rule.predicates[..i] ==> Satisfied(ev, p)
    {
      var v := ScalarValue(ev, rule.predicates[i].field, None);
      if v.None? || v.value != rule.predicates[i].equals {
        assert rule.predicates[i] in rule.predicates;
        return false;
      }
    }
    assert rule.predicates[..|rule.predicates|] == rule.predicates;
    if rule.fanOut.Some? {
      return |ListNamed(ev, rule.fanOut.value)| > 0;
    }
    return true;
  }

  // ---------------------------------------------------------------------------
  // Rendering.

  /** Characters a substituted value, or an id, must not have. */
  predicate Forbidden(c: char) {
    c == ':' || c == '#' || c == '*' || IsSpace(c)
  }

  predicate Plain(s: string) {
    forall i :: 0 <= i < |s| ==> !Forbidden(s[i])
  }

  /** The type before the first colon, when it is a word. */
  function TypePrefix(s: string): Option<string> {
    var i := IndexOf(s, ':');
    if i >= 0 && IsWord(s[..i]) then Some(s[..i]) else None
  }

  /** type:id, with nothing in the id that would make it a userset, a wildcard or two tokens. */
  predicate IsTypeId(s: string) {
    TypePrefix(s).Some? && var id := s[|TypePrefix(s).value| + 1..]; id != "" && Plain(id)
  }

  /** The path of the placeholder that s starts with. */
  function PlaceholderAt(s: string): Option<string> {
    if |s| < 2 || s[0] != '{' || s[1] != '{' then None
    else
      var k := IndexOf(s[2..], '}');
      if k > 0 && k + 3 < |s| && s[k + 3] == '}' then Some(s[2..k + 2]) else None
  }

  /** The paths of all placeholders, from left to right. */
  function Placeholders(s: string): seq<string>
    decreases |s|
  {
    if s == "" then []
    else match PlaceholderAt(s)
      case None => Placeholders(s[1..])
      case Some(path) => [path] + Placeholders(s[|path| + 4..])
  }

  /** Every occurrence of a non-empty pattern replaced, leftmost first, none overlapping. */
  function ReplaceAll(s: string, pattern: string, value: string): string
    requires pattern != ""
    decreases |s|
  {
    if s == "" then ""
    else if pattern <= s then value + ReplaceAll(s[|pattern|..], pattern, value)
    else [s[0]] + ReplaceAll(s[1..], pattern, value)
  }

  function Braced(path: string): string {
    "{{" + path + "}}"
  }

  /** The paths substituted one after the other; none when a value is missing or not plain. */
  function Substituted(text: string, paths: seq<string>, ev: Event, item: Option<string>): Option<string>
    decreases |paths|
  {
    if paths == [] then Some(text)
    else match ScalarValue(ev, paths[0], item)
      case None => None
      case Some(v) => if Plain(v) then Substituted(ReplaceAll(text, Braced(paths[0]), v), paths[1..], ev, item)
        else None
  }

  function Render(t: Template, ev: Event, item: Option<string>): Option<Rendered> {
    if TypePrefix(t.user).None? || TypePrefix(t.obj).None? then None
    else
      var u := Substituted(t.user, Placeholders(t.user), ev, item);
      var r := Substituted(t.relation, Placeholders(t.relation), ev, item);
      var o := Substituted(t.obj, Placeholders(t.obj), ev, item);
      if u.Some? && r.Some? && o.Some? && IsTypeId(u.value) && IsTypeId(o.value) && IsWord(r.value)
      then Some(Rendered(u.value, r.value, o.value)) else None
  }

  method Substitute(text: string, ev: Event, item: Option<string>) returns (r: Option<string>)
    ensures r == Substituted(text, Placeholders(text), ev, item)
  {
    hide ScalarValue, ReplaceAll, Placeholders, Plain;
    var paths := Placeholders(text);
    var out := text;
    assert paths[0..] == paths;
    for i := 0 to |paths|
      invariant Substituted(text, paths, ev, item) == Substituted(out, paths[i..], ev, item)
    {
      assert paths[i..][1..] == paths[i + 1..];
      var value := ScalarValue(ev, paths[i], item);
      if value.None? {
        return None;
      }
      if !Plain(value.value) {
        return None;
      }
      out := ReplaceAll(out, Braced(paths[i]), value.value);
    }
    return Some(out);
  }

  method RenderTuple(t: Template, ev: Event, item: Option<string>) returns (r: Option<Rendered>)
    ensures r == Render(t, ev, item)
  {
    hide Substituted, Placeholders, IsTypeId, TypePrefix, IsWord;
    if TypePrefix(t.user).None? || TypePrefix(t.obj).None? {
      return None;
    }
    var u := Substitute(t.user, ev, item);
    var rel := Substitute(t.relation, ev, item);
    var o := Substitute(t.obj, ev, item);
    if u.None? || rel.None? || o.None? {
      return None;
    }
    if !IsTypeId(u.value) || !IsTypeId(o.value) || !IsWord(rel.value) {
      return None;
    }
    return Some(Rendered(u.value, rel.value, o.value));
  }

  // ---------------------------------------------------------------------------
  // The guard: no event decides a type.

  /** A prefix without braces survives the replacement of a braced pattern. */
  lemma {:induction false} PrefixSurvives(front: string, rest: string, pattern: string, value: string)
    requires pattern != "" && pattern[0] == '{' && '{' !in front
    ensures ReplaceAll(front + rest, pattern, value) == front + ReplaceAll(rest, pattern, value)
  {
    if front == "" {
      assert front + rest == rest;
    } else {
      var s := front + rest;
      assert s[0] == front[0] && s[1..] == front[1..] + rest;
      assert !(pattern <= s);
      PrefixSurvives(front[1..], rest, pattern, value);
      assert front == [front[0]] + front[1..];
      ConcatAssociates([front[0]], front[1..], ReplaceAll(rest, pattern, value));
    }
  }

  lemma {:induction false} SubstitutionKeepsPrefix(front: string, rest: string, paths: seq<string>, ev: Event,
      item: Option<string>)
    requires '{' !in front
    ensures var r := Substituted(front + rest, paths, ev, item); r.Some? ==> front <= r.value
    decreases |paths|
  {
    if paths != [] {
      var v := ScalarValue(ev, paths[0], item);
      if v.Some? && Plain(v.value) {
        PrefixSurvives(front, rest, Braced(paths[0]), v.value);
        SubstitutionKeepsPrefix(front, ReplaceAll(rest, Braced(paths[0]), v.value), paths[1..], ev, item);
      }
    }
  }

  lemma PrefixIsFirst(s: string, front: string)
    requires IsWord(front) && front + ":" <= s
    ensures TypePrefix(s) == Some(front)
  {
    assert s[|front|] == ':' && s[..|front|] == front;
    assert ':' !in front;
  }

  lemma RenderedType(text: string, ev: Event, item: Option<string>)
    requires TypePrefix(text).Some?
    ensures var r := Substituted(text, Placeholders(text), ev, item);
            r.Some? ==> TypePrefix(r.value) == TypePrefix(text)
  {
    var front := TypePrefix(text).value;
    var rest := text[|front| + 1..];
    assert text == (front + ":") + rest;
    assert '{' !in front + ":";
    hide Substituted, Placeholders, IndexOf, IsWord;
    SubstitutionKeepsPrefix(front + ":", rest, Placeholders(text), ev, item);
    var r := Substituted(text, Placeholders(text), ev, item);
    if r.Some? {
      PrefixIsFirst(r.value, front);
    }
  }

  /** Whatever the event holds, the type of a rendered user or object is the one written in the template, and the
      rest is a plain id: no userset, no wildcard, no second colon. */
  lemma EventsNeverChooseTypes(t: Template, ev: Event, item: Option<string>)
    requires Render(t, ev, item).Some?
    ensures var r := Render(t, ev, item).value;
            && TypePrefix(r.user) == TypePrefix(t.user) && TypePrefix(r.obj) == TypePrefix(t.obj)
            && IsTypeId(r.user) && IsTypeId(r.obj) && IsWord(r.relation)
  {
    hide Substituted, Placeholders, IsTypeId, TypePrefix, IsWord;
    RenderedType(t.user, ev, item);
    RenderedType(t.obj, ev, item);
  }

  // ---------------------------------------------------------------------------
  // Delivery: what is done for each event, in order.

  function PriorityOf(rule: Rule): int { rule.priority }

  function FanOutItems(rule: Rule, ev: Event): seq<Option<string>> {
    if rule.fanOut.None? then [None] else Map(ListNamed(ev, rule.fanOut.value), (x: string) => Some(x))
  }

  datatype Task = Unmatched | Unrendered | Write(op: string, tuple: Rendered)

  function TaskFor(rule: Rule, ev: Event): Option<string> -> Task {
    (item: Option<string>) =>
      match Render(rule.template, ev, item)
      case None => Unrendered
      case Some(tuple) => Write(rule.op, tuple)
  }

  function RuleTasks(rule: Rule, ev: Event): seq<Task> {
    Map(FanOutItems(rule, ev), TaskFor(rule, ev))
  }

  function RulesTasks(rules: seq<Rule>, ev: Event): seq<Task> {
    if rules == [] then [] else RuleTasks(rules[0], ev) + RulesTasks(rules[1..], ev)
  }

  function MatchedRules(rules: seq<Rule>, ev: Event): seq<Rule> {
    Filter(rules, rule => Matches(rule, ev))
  }

  function EventTasks(ev: Event, sorted: seq<Rule>): seq<Task> {
    var matched := MatchedRules(sorted, ev);
    if matched == [] then [Unmatched] else RulesTasks(matched, ev)
  }

  function TasksOf(events: seq<Event>, sorted: seq<Rule>): seq<Task> {
    if events == [] then [] else EventTasks(events[0], sorted) + TasksOf(events[1..], sorted)
  }

  /** The tasks of a delivery: rules by ascending priority, those of equal priority in their own order. */
  function Tasks(events: seq<Event>, rules: seq<Rule>): seq<Task> {
    TasksOf(events, StableSort(rules, PriorityOf))
  }

  datatype ApplyResult = ApplyResult(applied: nat, skipped: nat, failed: nat)

  const ZERO: ApplyResult := ApplyResult(0, 0, 0)

  datatype Outage = Up | LostBefore | LostAfter

  /** What the tuple store refuses for good, and in which calls it is out of reach, before or after the
      write took effect. */
  datatype Upstream = Upstream(rejects: (string, Rendered) -> bool, outage: nat -> Outage)

  datatype Delivery = Delivery(res: ApplyResult, store: set<Rendered>, calls: nat, aborted: bool)

  /** A write as a set operation; every operation but "write" deletes. */
  function Effect(store: set<Rendered>, op: string, tuple: Rendered): set<Rendered> {
    if op == "write" then store + {tuple} else store - {tuple}
  }

  datatype WriteOutcome = Done | NothingToDo | Rejected | Transient

  function WriteOutcomeOf(up: Upstream, store: set<Rendered>, calls: nat, op: string, tuple: Rendered): WriteOutcome {
    if up.outage(calls) != Up then Transient
    else if up.rejects(op, tuple) then Rejected
    else if Effect(store, op, tuple) == store then NothingToDo
    else Done
  }

  function StoreAfter(up: Upstream, store: set<Rendered>, calls: nat, op: string, tuple: Rendered): set<Rendered> {
    if up.outage(calls) == LostBefore || up.rejects(op, tuple) then store else Effect(store, op, tuple)
  }

  function Counted(res: ApplyResult, outcome: WriteOutcome): ApplyResult {
    match outcome
    case Done => res.(applied := res.applied + 1)
    case NothingToDo => res.(skipped := res.skipped + 1)
    case _ => res.(failed := res.failed + 1)
  }

  function Do(up: Upstream, d: Delivery, task: Task): Delivery {
    if d.aborted then d
    else match task
      case Unmatched => d.(res := d.res.(skipped := d.res.skipped + 1))
      case Unrendered => d.(res := d.res.(failed := d.res.failed + 1))
      case Write(op, tuple) =>
        var outcome := WriteOutcomeOf(up, d.store, d.calls, op, tuple);
        var store := StoreAfter(up, d.store, d.calls, op, tuple);
        if outcome.Transient? then d.(store := store, calls := d.calls + 1, aborted := true)
        else Delivery(Counted(d.res, outcome), store, d.calls + 1, false)
  }

  function After(up: Upstream, d: Delivery, tasks: seq<Task>): Delivery
    decreases |tasks|
  {
    if tasks == [] then d else After(up, Do(up, d, tasks[0]), tasks[1..])
  }

  lemma {:induction false} AfterConcat(up: Upstream, d: Delivery, a: seq<Task>, b: seq<Task>)
    ensures After(up, d, a + b) == After(up, After(up, d, a), b)
    decreases |a|
  {
    if a == [] {
      assert a + b == b;
    } else {
      assert (a + b)[1..] == a[1..] + b;
      hide Do;
      AfterConcat(up, Do(up, d, a[0]), a[1..], b);
    }
  }

  lemma {:induction false} AbortedStays(up: Upstream, d: Delivery, tasks: seq<Task>)
    requires d.aborted
    ensures After(up, d, tasks) == d
  {
    if tasks != [] {
      AbortedStays(up, d, tasks[1..]);
    }
  }

  /** The tuple store behind the gateway. */
  class Sink {
    const upstream: Upstream
    var store: set<Rendered>
    var calls: nat

    constructor (upstream: Upstream, store: set<Rendered>)
      ensures this.upstream == upstream && this.store == store && calls == 0
    {
      this.upstream := upstream;
      this.store := store;
      calls := 0;
    }

    method WriteTuple(op: string, tuple: Rendered) returns (outcome: WriteOutcome)
      modifies this
      ensures outcome == WriteOutcomeOf(upstream, old(store), old(calls), op, tuple)
      ensures store == StoreAfter(upstream, old(store), old(calls), op, tuple) && calls == old(calls) + 1
    {
      var outage := upstream.outage(calls);
      calls := calls + 1;
      if outage == LostBefore {
        return Transient;
      }
      if upstream.rejects(op, tuple) {
        return if outage == Up then Rejected else Transient;
      }
      var next := Effect(store, op, tuple);
      outcome := if outage != Up then Transient else if next == store then NothingToDo else Done;
      store := next;
    }

    ghost function State(res: ApplyResult, aborted: bool): Delivery
      reads this
    {
      Delivery(res, store, calls, aborted)
    }
  }

  method ApplyEvents(events: seq<Event>, rules: seq<Rule>, sink: Sink) returns (r: Option<ApplyResult>)
    modifies sink
    ensures var d := After(sink.upstream, old(sink.State(ZERO, false)), Tasks(events, rules));
            && sink.store == d.store && sink.calls == d.calls
            && r == if d.aborted then None else Some(d.res)
  {
    hide Matches, Render, Do, After, StableSort, Filter, RulesTasks, EventTasks;
    var up := sink.upstream;
    var sorted := StableSort(rules, PriorityOf);
    ghost var start := sink.State(ZERO, false);
    var res := ZERO;
    assert events[0..] == events;
    for i := 0 to |events|
      invariant After(up, start, TasksOf(events, sorted)) ==
              After(up, sink.State(res, false), TasksOf(events[i..], sorted))
    {
      var ev := events[i];
      assert events[i..][1..] == events[i + 1..];
      ghost var before := sink.State(res, false);
      ghost var rest := TasksOf(events[i + 1..], sorted);
      AfterConcat(up, before, EventTasks(ev, sorted), rest);
      EventUnfolds(ev, sorted);
      var matched := Match(sorted, ev);
      if |matched| == 0 {
        res := res.(skipped := res.skipped + 1);
        AfterOne(up, before, Unmatched);
        continue;
      }
      var aborted;
      res, aborted := ApplyMatched(matched, ev, sink, res);
      if aborted {
        AbortedStays(up, sink.State(res, true), rest);
        return None;
      }
    }
    AfterNone(up, sink.State(res, false));
    return Some(res);
  }

  lemma EventUnfolds(ev: Event, sorted: seq<Rule>)
    ensures EventTasks(ev, sorted) == if MatchedRules(sorted, ev) == [] then [Unmatched]
            else RulesTasks(MatchedRules(sorted, ev), ev)
  {
  }

  lemma AfterOne(up: Upstream, d: Delivery, task: Task)
    ensures After(up, d, [task]) == Do(up, d, task)
    ensures !d.aborted && task == Unmatched ==> Do(up, d, task) == d.(res := d.res.(skipped := d.res.skipped + 1))
  {
    assert [task][1..] == [];
    assert After(up, Do(up, d, task), []) == Do(up, d, task);
  }

  lemma AfterNone(up: Upstream, d: Delivery)
    ensures After(up, d, []) == d
  {
  }

  method Match(sorted: seq<Rule>, ev: Event) returns (matched: seq<Rule>)
    ensures matched == MatchedRules(sorted, ev)
  {
    hide Matches;
    matched := [];
    for i := 0 to |sorted|
      invariant matched == MatchedRules(sorted[..i], ev)
    {
      FilterNext(sorted, i, rule => Matches(rule, ev));
      var m := MatchRule(sorted[i], ev);
      if m {
        matched := matched + [sorted[i]];
      }
    }
    assert sorted[..|sorted|] == sorted;
  }

  method ApplyMatched(matched: seq<Rule>, ev: Event, sink: Sink, before: ApplyResult)
    returns (res: ApplyResult, aborted: bool)
    modifies sink
    ensures sink.State(res, aborted) == After(sink.upstream, old(sink.State(before, false)), RulesTasks(matched, ev))
  {
    hide Render, Do, After, RuleTasks;
    var up := sink.upstream;
    ghost var start := sink.State(before, false);
    res, aborted := before, false;
    assert matched[0..] == matched;
    for i := 0 to |matched|
      invariant After(up, start, RulesTasks(matched, ev)) ==
              After(up, sink.State(res, false), RulesTasks(matched[i..], ev))
    {
      assert matched[i..][1..] == matched[i + 1..];
      ghost var rest := RulesTasks(matched[i + 1..], ev);
      AfterConcat(up, sink.State(res, false), RuleTasks(matched[i], ev), rest);
      res, aborted := ApplyRule(matched[i], ev, sink, res);
      if aborted {
        AbortedStays(up, sink.State(res, true), rest);
        return;
      }
    }
    AfterNone(up, sink.State(res, false));
    aborted := false;
  }

  method ApplyRule(rule: Rule, ev: Event, sink: Sink, before: ApplyResult) returns (res: ApplyResult, aborted: bool)
    modifies sink
    ensures sink.State(res, aborted) == After(sink.upstream, old(sink.State(before, false)), RuleTasks(rule, ev))
  {
    hide Render, WriteOutcomeOf, StoreAfter, After;
    var up := sink.upstream;
    ghost var start := sink.State(before, false);
    var items := FanOutItems(rule, ev);
    ghost var tasks := RuleTasks(rule, ev);
    res, aborted := before, false;
    assert tasks[0..] == tasks;
    for i := 0 to |items|
      invariant After(up, start, tasks) == After(up, sink.State(res, false), tasks[i..])
    {
      ghost var was := sink.State(res, false);
      AfterNext(up, was, tasks, i);
      var tuple := RenderTuple(rule.template, ev, items[i]);
      if tuple.None? {
        assert tasks[i] == Unrendered;
        res := res.(failed := res.failed + 1);
        continue;
      }
      assert tasks[i] == Write(rule.op, tuple.value);
      var outcome := sink.WriteTuple(rule.op, tuple.value);
      if outcome.Transient? {
        AbortedStays(up, sink.State(res, true), tasks[i + 1..]);
        return res, true;
      }
      res := Counted(res, outcome);
    }
    AfterNone(up, sink.State(res, false));
    assert tasks[|items|..] == [];
  }

  lemma AfterNext(up: Upstream, d: Delivery, tasks: seq<Task>, i: nat)
    requires i < |tasks|
    ensures After(up, d, tasks[i..]) == After(up, Do(up, d, tasks[i]), tasks[i + 1..])
  {
    assert tasks[i..][1..] == tasks[i + 1..];
  }

  // ---------------------------------------------------------------------------
  // What a delivery leaves, and why retrying is safe.

  predicate Accepted(up: Upstream, task: Task) {
    task.Write? && !up.rejects(task.op, task.tuple)
  }

  /** The store after every accepted write of the tasks, in order. */
  function Settled(up: Upstream, store: set<Rendered>, tasks: seq<Task>): set<Rendered>
    decreases |tasks|
  {
    if tasks == [] then store
    else Settled(up, if Accepted(up, tasks[0]) then Effect(store, tasks[0].op, tasks[0].tuple) else store, tasks[1..])
  }

  ghost predicate Touched(up: Upstream, tasks: seq<Task>, tuple: Rendered) {
    exists task :: task in tasks && Accepted(up, task) && task.tuple == tuple
  }

  /** The two stores differ at most on tuples that the tasks write or delete. */
  ghost predicate DifferWithin(up: Upstream, tasks: seq<Task>, a: set<Rendered>, b: set<Rendered>) {
    forall tuple {:trigger tuple in a} {:trigger tuple in b} ::
      !Touched(up, tasks, tuple) ==> (tuple in a <==> tuple in b)
  }

  /** The last accepted task on a tuple decides whether it is there; nothing else does. */
  lemma {:induction false} SettledAt(up: Upstream, store: set<Rendered>, tasks: seq<Task>, tuple: Rendered)
    ensures !Touched(up, tasks, tuple) ==> (tuple in Settled(up, store, tasks) <==> tuple in store)
    ensures Touched(up, tasks, tuple) ==>
              exists i :: 0 <= i < |tasks| && Accepted(up, tasks[i]) && tasks[i].tuple == tuple
                && (forall k :: i < k < |tasks| && Accepted(up, tasks[k]) ==> tasks[k].tuple != tuple)
                && (tuple in Settled(up, store, tasks) <==> tasks[i].op == "write")
    decreases |tasks|
  {
    if tasks != [] {
      var rest := tasks[1..];
      var next := if Accepted(up, tasks[0]) then Effect(store, tasks[0].op, tasks[0].tuple) else store;
      SettledAt(up, next, rest, tuple);
      assert forall task :: task in tasks <==> task == tasks[0] || task in rest;
      if Touched(up, rest, tuple) {
        var i :| 0 <= i < |rest| && Accepted(up, rest[i]) && rest[i].tuple == tuple
          && (forall k :: i < k < |rest| && Accepted(up, rest[k]) ==> rest[k].tuple != tuple)
          && (tuple in Settled(up, next, rest) <==> rest[i].op == "write");
        assert tasks[i + 1] == rest[i];
        forall k | i + 1 < k < |tasks| && Accepted(up, tasks[k]) ensures tasks[k].tuple != tuple {
          assert tasks[k] == rest[k - 1];
        }
      } else if Touched(up, tasks, tuple) {
        assert Accepted(up, tasks[0]) && tasks[0].tuple == tuple;
        forall k | 0 < k < |tasks| && Accepted(up, tasks[k]) ensures tasks[k].tuple != tuple {
          assert tasks[k] == rest[k - 1] && rest[k - 1] in rest;
        }
      }
    }
  }

  /** Where two stores start does not matter on the tuples that the tasks touch. */
  lemma {:induction false} SettlesAlike(up: Upstream, a: set<Rendered>, b: set<Rendered>, tasks: seq<Task>)
    requires DifferWithin(up, tasks, a, b)
    ensures Settled(up, a, tasks) == Settled(up, b, tasks)
    decreases |tasks|
  {
    if tasks == [] {
      assert forall tuple :: !Touched(up, tasks, tuple);
      assert a == b;
    } else {
      var (task, rest) := (tasks[0], tasks[1..]);
      var a' := if Accepted(up, task) then Effect(a, task.op, task.tuple) else a;
      var b' := if Accepted(up, task) then Effect(b, task.op, task.tuple) else b;
      forall tuple | !Touched(up, rest, tuple) ensures tuple in a' <==> tuple in b' {
        assert forall t :: t in tasks <==> t == task || t in rest;
        if !(Accepted(up, task) && task.tuple == tuple) {
          assert !Touched(up, tasks, tuple);
        }
      }
      SettlesAlike(up, a', b', rest);
    }
  }

  lemma DoChanges(up: Upstream, d: Delivery, task: Task)
    ensures forall tuple ::
            tuple in Do(up, d, task).store && tuple !in d.store ==> Accepted(up, task) && task.tuple == tuple
    ensures forall tuple ::
            tuple !in Do(up, d, task).store && tuple in d.store ==> Accepted(up, task) && task.tuple == tuple
  {
  }

  /** However far a delivery gets, it changes only tuples that its tasks touch. */
  lemma {:induction false} DeliveryChanges(up: Upstream, d: Delivery, tasks: seq<Task>)
    ensures DifferWithin(up, tasks, d.store, After(up, d, tasks).store)
    decreases |tasks|
  {
    if tasks != [] {
      var next := Do(up, d, tasks[0]);
      hide Do, Accepted;
      DoChanges(up, d, tasks[0]);
      DeliveryChanges(up, next, tasks[1..]);
      assert forall t :: t in tasks <==> t == tasks[0] || t in tasks[1..];
      forall tuple | !Touched(up, tasks, tuple) ensures tuple in d.store <==> tuple in After(up, d, tasks).store {
        assert !Touched(up, tasks[1..], tuple);
        assert tuple in next.store <==> tuple in After(up, next, tasks[1..]).store;
      }
    }
  }

  /** A delivery that is not cut short does every accepted write, and counts every task once. */
  lemma {:induction false} DeliveryCompletes(up: Upstream, d: Delivery, tasks: seq<Task>)
    requires !After(up, d, tasks).aborted
    ensures After(up, d, tasks).store == Settled(up, d.store, tasks)
    ensures var (was, now) := (d.res, After(up, d, tasks).res);
            now.applied + now.skipped + now.failed == was.applied + was.skipped + was.failed + |tasks|
    decreases |tasks|
  {
    if tasks != [] {
      if d.aborted {
        AbortedStays(up, d, tasks);
      } else {
        var next := Do(up, d, tasks[0]);
        if next.aborted {
          AbortedStays(up, next, tasks[1..]);
        } else {
          DeliveryCompletes(up, next, tasks[1..]);
        }
      }
    }
  }

  /** The n-th redelivery of the same events, after n that may each have been cut short. */
  function Redelivered(up: Upstream, store: set<Rendered>, calls: nat, tasks: seq<Task>, n: nat): Delivery {
    if n == 0 then After(up, Delivery(ZERO, store, calls, false), tasks)
    else
      var before := Redelivered(up, store, calls, tasks, n - 1);
      After(up, Delivery(ZERO, before.store, before.calls, false), tasks)
  }

  lemma DifferTransitive(up: Upstream, tasks: seq<Task>, a: set<Rendered>, b: set<Rendered>, c: set<Rendered>)
    requires DifferWithin(up, tasks, a, b) && DifferWithin(up, tasks, b, c)
    ensures DifferWithin(up, tasks, a, c)
  {
    hide Touched;
    forall tuple | !Touched(up, tasks, tuple) ensures tuple in a <==> tuple in c {
      assert tuple in a <==> tuple in b;
    }
  }

  lemma {:induction false} RedeliveryChanges(up: Upstream, store: set<Rendered>, calls: nat, tasks: seq<Task>, n: nat)
    ensures DifferWithin(up, tasks, store, Redelivered(up, store, calls, tasks, n).store)
  {
    hide DifferWithin, After;
    if n == 0 {
      DeliveryChanges(up, Delivery(ZERO, store, calls, false), tasks);
    } else {
      var before := Redelivered(up, store, calls, tasks, n - 1);
      RedeliveryChanges(up, store, calls, tasks, n - 1);
      DeliveryChanges(up, Delivery(ZERO, before.store, before.calls, false), tasks);
      DifferTransitive(up, tasks, store, before.store, Redelivered(up, store, calls, tasks, n).store);
    }
  }

  /** Retry converges: after any number of deliveries cut short anywhere by transient errors, one that completes
      leaves the store of a single uninterrupted delivery, even when rules write and delete the same tuple. */
  lemma RetryConverges(up: Upstream, store: set<Rendered>, calls: nat, events: seq<Event>, rules: seq<Rule>, n: nat)
    requires !Redelivered(up, store, calls, Tasks(events, rules), n).aborted
    ensures Redelivered(up, store, calls, Tasks(events, rules), n).store == Settled(up, store, Tasks(events, rules))
  {
    var tasks := Tasks(events, rules);
    hide Tasks, After, Settled, DifferWithin;
    if n == 0 {
      DeliveryCompletes(up, Delivery(ZERO, store, calls, false), tasks);
    } else {
      var before := Redelivered(up, store, calls, tasks, n - 1);
      DeliveryCompletes(up, Delivery(ZERO, before.store, before.calls, false), tasks);
      RedeliveryChanges(up, store, calls, tasks, n - 1);
      SettlesAlike(up, store, before.store, tasks);
    }
  }

  /** Delivering once more what was delivered completely changes nothing. */
  lemma SettledTwice(up: Upstream, store: set<Rendered>, tasks: seq<Task>)
    ensures Settled(up, Settled(up, store, tasks), tasks) == Settled(up, store, tasks)
  {
    forall tuple | !Touched(up, tasks, tuple) ensures tuple in store <==> tuple in Settled(up, store, tasks) {
      SettledAt(up, store, tasks, tuple);
    }
    SettlesAlike(up, Settled(up, store, tasks), store, tasks);
  }
}
