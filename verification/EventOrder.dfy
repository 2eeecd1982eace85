/** Which rules a delivery applies, in which order, and which of them decides what is stored. */
module EventOrder {
  import opened Prelude
  import opened Sorting
  import opened JsText
  import opened Condition
  import opened EventMapping

  // ---------------------------------------------------------------------------
  // Rules in order.

  /** Rule i comes before rule j: its priority is lower, or equal while it was given before. */
  ghost predicate Before(rules: seq<Rule>, i: nat, j: nat)
    requires i < |rules| && j < |rules|
  {
    rules[i].priority < rules[j].priority || (rules[i].priority == rules[j].priority && i < j)
  }

  /** The rules that match the event, each once, in that order. */
  ghost predicate Applies(rules: seq<Rule>, ev: Event, order: seq<nat>) {
    && (forall k :: 0 <= k < |order| ==> order[k] < |rules| && Matches(rules[order[k]], ev))
    && (forall i: nat :: i < |rules| && Matches(rules[i], ev) ==> i in order)
    && forall j, k :: 0 <= j < k < |order| ==> Before(rules, order[j], order[k])
  }

  lemma SelectedOrder(rules: seq<Rule>, sorted: seq<Rule>, matched: seq<Rule>, ev: Event, order: seq<nat>,
      at: seq<nat>)
    returns (chosen: seq<nat>)
    requires IsOrder(rules, PriorityOf, order) && Lists(sorted, rules, order)
    requires SelectsAt(sorted, matched, rule => Matches(rule, ev), at)
    ensures Applies(rules, ev, chosen) && Lists(matched, rules, chosen)
  {
    hide Matches;
    chosen := seq(|at|, k requires 0 <= k < |at| => order[at[k]]);
    forall k | 0 <= k < |chosen| ensures chosen[k] < |rules| && Matches(rules[chosen[k]], ev) {
      assert at[k] in at && sorted[at[k]] == rules[order[at[k]]];
    }
    forall i: nat | i < |rules| && Matches(rules[i], ev) ensures i in chosen {
      assert i in order;
      var j: nat :| j < |order| && order[j] == i;
      assert sorted[j] == rules[i] && j in at;
      var k :| 0 <= k < |at| && at[k] == j;
      assert chosen[k] == i;
    }
    forall j, k | 0 <= j < k < |chosen| ensures Before(rules, chosen[j], chosen[k]) {
      assert Precedes(rules, PriorityOf, order[at[j]], order[at[k]]);
    }
  }

  /** The rules applied to an event are exactly those that match it, by ascending priority, and those of equal
      priority as they were given. */
  lemma MatchedInOrder(rules: seq<Rule>, ev: Event) returns (order: seq<nat>)
    ensures Applies(rules, ev, order)
    ensures Lists(MatchedRules(StableSort(rules, PriorityOf), ev), rules, order)
  {
    var sorted := StableSort(rules, PriorityOf);
    var all := StableSortOrder(rules, PriorityOf);
    FilterSelects(sorted, rule => Matches(rule, ev));
    var at :| SelectsAt(sorted, MatchedRules(sorted, ev), rule => Matches(rule, ev), at);
    hide *;
    order := SelectedOrder(rules, sorted, MatchedRules(sorted, ev), ev, all, at);
  }

  // ---------------------------------------------------------------------------
  // The tasks of one rule.

  /** How often a rule is applied to an event: once, or once for each item of the list it fans out over. */
  ghost function Rounds(rule: Rule, ev: Event): nat {
    match rule.fanOut
    case None => 1
    case Some(name) => if name in ev.attributes && ev.attributes[name].List? then |ev.attributes[name].items| else 0
  }

  ghost function ItemAt(rule: Rule, ev: Event, k: nat): Option<string>
    requires k < Rounds(rule, ev)
  {
    match rule.fanOut
    case None => None
    case Some(name) => Some(ev.attributes[name].items[k])
  }

  lemma RuleTasksExactly(rule: Rule, ev: Event)
    ensures |RuleTasks(rule, ev)| == Rounds(rule, ev)
    ensures forall k :: 0 <= k < Rounds(rule, ev) ==>
              RuleTasks(rule, ev)[k] == match Render(rule.template, ev, ItemAt(rule, ev, k))
                                        case None => Unrendered
                                        case Some(tuple) => Write(rule.op, tuple)
  {
    hide Render;
  }

  /** Round k of the rule renders the tuple, and the store accepts it. */
  ghost predicate RuleWrites(up: Upstream, rule: Rule, ev: Event, k: nat, tuple: Rendered) {
    && k < Rounds(rule, ev)
    && Render(rule.template, ev, ItemAt(rule, ev, k)) == Some(tuple)
    && !up.rejects(rule.op, tuple)
  }

  lemma RoundWrites(up: Upstream, rule: Rule, ev: Event, k: nat, tuple: Rendered)
    requires k < |RuleTasks(rule, ev)|
    ensures var task := RuleTasks(rule, ev)[k];
            && (Accepted(up, task) && task.tuple == tuple <==> RuleWrites(up, rule, ev, k, tuple))
            && (RuleWrites(up, rule, ev, k, tuple) ==> task == Write(rule.op, tuple))
  {
    RuleTasksExactly(rule, ev);
    hide RuleTasks, Render, ItemAt, Rounds;
  }

  lemma RuleTouches(up: Upstream, rule: Rule, ev: Event, tuple: Rendered)
    ensures Touched(up, RuleTasks(rule, ev), tuple) <==> exists k: nat :: RuleWrites(up, rule, ev, k, tuple)
  {
    RuleTasksExactly(rule, ev);
    var tasks := RuleTasks(rule, ev);
    hide RuleTasks, Render, ItemAt, Rounds;
    if task :| task in tasks && Accepted(up, task) && task.tuple == tuple {
      var k: nat :| k < |tasks| && tasks[k] == task;
      RoundWrites(up, rule, ev, k, tuple);
    }
    if k: nat :| RuleWrites(up, rule, ev, k, tuple) {
      RoundWrites(up, rule, ev, k, tuple);
      assert tasks[k] in tasks;
    }
  }

  /** The last round of a rule that writes the tuple leaves it as the rule's operation says. */
  lemma RuleDecides(up: Upstream, rule: Rule, ev: Event, store: set<Rendered>, tuple: Rendered) returns (k: nat)
    requires Touched(up, RuleTasks(rule, ev), tuple)
    ensures RuleWrites(up, rule, ev, k, tuple)
    ensures forall j: nat :: RuleWrites(up, rule, ev, j, tuple) ==> j <= k
    ensures tuple in Settled(up, store, RuleTasks(rule, ev)) <==> rule.op == "write"
  {
    var tasks := RuleTasks(rule, ev);
    RuleTasksExactly(rule, ev);
    assert forall j: nat :: RuleWrites(up, rule, ev, j, tuple) ==> j < |tasks|;
    hide RuleTasks, Render, ItemAt, Rounds, Accepted, Settled, Touched, RuleWrites;
    SettledAt(up, store, tasks, tuple);
    var i :| 0 <= i < |tasks| && Accepted(up, tasks[i]) && tasks[i].tuple == tuple
      && (forall k :: i < k < |tasks| && Accepted(up, tasks[k]) ==> tasks[k].tuple != tuple)
      && (tuple in Settled(up, store, tasks) <==> tasks[i].op == "write");
    k := i;
    RoundWrites(up, rule, ev, k, tuple);
    forall j: nat | RuleWrites(up, rule, ev, j, tuple) ensures j <= k {
      RoundWrites(up, rule, ev, j, tuple);
    }
  }

  // ---------------------------------------------------------------------------
  // Lists of tasks one after the other.

  lemma {:induction false} SettledConcat(up: Upstream, store: set<Rendered>, a: seq<Task>, b: seq<Task>)
    ensures Settled(up, store, a + b) == Settled(up, Settled(up, store, a), b)
    decreases |a|
  {
    hide Effect;
    if a == [] {
      assert a + b == b;
    } else {
      assert (a + b)[1..] == a[1..] + b;
      SettledConcat(up, if Accepted(up, a[0]) then Effect(store, a[0].op, a[0].tuple) else store, a[1..], b);
    }
  }

  lemma TouchedConcat(up: Upstream, a: seq<Task>, b: seq<Task>, tuple: Rendered)
    ensures Touched(up, a + b, tuple) <==> Touched(up, a, tuple) || Touched(up, b, tuple)
  {
    hide Accepted;
    assert forall task :: task in a + b <==> task in a || task in b;
  }

  lemma NothingTouched(up: Upstream, tuple: Rendered)
    ensures !Touched(up, [], tuple)
  {
  }

  /** Of several lists of tasks, the last that touches the tuple decides, whatever was stored before. */
  lemma {:induction false} LastListDecides(up: Upstream, store: set<Rendered>, lists: seq<seq<Task>>, tuple: Rendered)
    returns (j: nat, before: set<Rendered>)
    requires Touched(up, Flattened(lists), tuple)
    ensures j < |lists| && Touched(up, lists[j], tuple)
    ensures forall k :: j < k < |lists| ==> !Touched(up, lists[k], tuple)
    ensures tuple in Settled(up, store, Flattened(lists)) <==> tuple in Settled(up, before, lists[j])
    decreases |lists|
  {
    if lists == [] {
      NothingTouched(up, tuple);
      assert false;
    } else {
      var (head, rest) := (lists[0], Flattened(lists[1..]));
      assert Flattened(lists) == head + rest;
      hide Touched, Settled, Flattened;
      TouchedConcat(up, head, rest, tuple);
      SettledConcat(up, store, head, rest);
      if Touched(up, rest, tuple) {
        var i;
        i, before := LastListDecides(up, Settled(up, store, head), lists[1..], tuple);
        j := i + 1;
        assert lists[j] == lists[1..][i];
        assert forall k :: j < k < |lists| ==> lists[k] == lists[1..][k - 1];
      } else {
        j, before := 0, store;
        SettledAt(up, Settled(up, store, head), rest, tuple);
        ListsUntouched(up, lists[1..], tuple);
        assert forall k :: 0 < k < |lists| ==> lists[k] == lists[1..][k - 1];
      }
    }
  }

  lemma {:induction false} ListsUntouched(up: Upstream, lists: seq<seq<Task>>, tuple: Rendered)
    ensures Touched(up, Flattened(lists), tuple) <==>
            exists k :: 0 <= k < |lists| && Touched(up, lists[k], tuple)
  {
    if lists == [] {
      NothingTouched(up, tuple);
    } else {
      var (head, rest) := (lists[0], lists[1..]);
      assert Flattened(lists) == head + Flattened(rest);
      hide Touched, Flattened;
      TouchedConcat(up, head, Flattened(rest), tuple);
      ListsUntouched(up, rest, tuple);
      assert forall k :: 0 < k < |lists| ==> lists[k] == rest[k - 1];
      if k :| 0 <= k < |rest| && Touched(up, rest[k], tuple) {
        assert lists[k + 1] == rest[k];
      }
    }
  }

  lemma {:induction false} RulesFlatten(rules: seq<Rule>, ev: Event)
    ensures RulesTasks(rules, ev) == Flattened(Map(rules, rule => RuleTasks(rule, ev)))
  {
    hide RuleTasks;
    if rules != [] {
      RulesFlatten(rules[1..], ev);
    }
  }

  lemma {:induction false} EventsFlatten(events: seq<Event>, sorted: seq<Rule>)
    ensures TasksOf(events, sorted) == Flattened(Map(events, ev => EventTasks(ev, sorted)))
  {
    hide EventTasks;
    if events != [] {
      EventsFlatten(events[1..], sorted);
    }
  }

  // ---------------------------------------------------------------------------
  // One event.

  /** A round of a rule at one of the events. */
  datatype Way = Way(event: nat, rule: nat, round: nat)

  /** Round k of rule i matches the event and writes the tuple. */
  ghost predicate EventWrites(up: Upstream, rules: seq<Rule>, ev: Event, i: nat, k: nat, tuple: Rendered) {
    i < |rules| && Matches(rules[i], ev) && RuleWrites(up, rules[i], ev, k, tuple)
  }

  ghost predicate SoonerInEvent(rules: seq<Rule>, i: nat, k: nat, i': nat, k': nat)
    requires i < |rules| && i' < |rules|
  {
    Before(rules, i, i') || (i == i' && k < k')
  }

  lemma EventLists(rules: seq<Rule>, ev: Event) returns (order: seq<nat>, lists: seq<seq<Task>>)
    ensures Applies(rules, ev, order) && |lists| == |order|
    ensures forall j :: 0 <= j < |order| ==> lists[j] == RuleTasks(rules[order[j]], ev)
    ensures EventTasks(ev, StableSort(rules, PriorityOf)) == if order == [] then [Unmatched] else Flattened(lists)
  {
    var sorted := StableSort(rules, PriorityOf);
    var matched := MatchedRules(sorted, ev);
    order := MatchedInOrder(rules, ev);
    RulesFlatten(matched, ev);
    lists := Map(matched, rule => RuleTasks(rule, ev));
    hide Matches, RuleTasks, StableSort, MatchedRules, Before, RulesTasks, Flattened;
  }

  lemma UnmatchedTouchesNothing(up: Upstream, tuple: Rendered)
    ensures !Touched(up, [Unmatched], tuple)
  {
  }

  lemma EventTouches(up: Upstream, rules: seq<Rule>, ev: Event, tuple: Rendered)
    ensures Touched(up, EventTasks(ev, StableSort(rules, PriorityOf)), tuple) <==>
            exists i: nat, k: nat :: EventWrites(up, rules, ev, i, k, tuple)
  {
    var order, lists := EventLists(rules, ev);
    ListsUntouched(up, lists, tuple);
    UnmatchedTouchesNothing(up, tuple);
    hide EventTasks, StableSort, Touched, RuleTasks, Flattened, Before, RuleWrites;
    if j :| 0 <= j < |lists| && Touched(up, lists[j], tuple) {
      RuleTouches(up, rules[order[j]], ev, tuple);
      var k: nat :| RuleWrites(up, rules[order[j]], ev, k, tuple);
      assert EventWrites(up, rules, ev, order[j], k, tuple);
    }
    if i: nat, k: nat :| EventWrites(up, rules, ev, i, k, tuple) {
      assert i in order;
      var j :| 0 <= j < |order| && order[j] == i;
      RuleTouches(up, rules[i], ev, tuple);
      assert Touched(up, lists[j], tuple);
    }
  }

  lemma EventDecides(up: Upstream, store: set<Rendered>, rules: seq<Rule>, ev: Event, tuple: Rendered)
    returns (i: nat, k: nat)
    requires Touched(up, EventTasks(ev, StableSort(rules, PriorityOf)), tuple)
    ensures EventWrites(up, rules, ev, i, k, tuple)
    ensures forall i': nat, k': nat :: EventWrites(up, rules, ev, i', k', tuple) ==>
              (i' == i && k' == k) || SoonerInEvent(rules, i', k', i, k)
    ensures tuple in Settled(up, store, EventTasks(ev, StableSort(rules, PriorityOf))) <==> rules[i].op == "write"
  {
    var order, lists := EventLists(rules, ev);
    UnmatchedTouchesNothing(up, tuple);
    hide EventTasks, StableSort, Touched, RuleTasks, Flattened, Before, RuleWrites, Settled;
    var j, before := LastListDecides(up, store, lists, tuple);
    i := order[j];
    k := RuleDecides(up, rules[i], ev, before, tuple);
    forall i': nat, k': nat | EventWrites(up, rules, ev, i', k', tuple)
      ensures (i' == i && k' == k) || SoonerInEvent(rules, i', k', i, k)
    {
      assert i' in order;
      var j' :| 0 <= j' < |order| && order[j'] == i';
      RuleTouches(up, rules[i'], ev, tuple);
      assert Touched(up, lists[j'], tuple);
      assert j' < j ==> Before(rules, i', i);
    }
  }

  // ---------------------------------------------------------------------------
  // A whole delivery.

  ghost predicate Writes(up: Upstream, events: seq<Event>, rules: seq<Rule>, w: Way, tuple: Rendered) {
    w.event < |events| && EventWrites(up, rules, events[w.event], w.rule, w.round, tuple)
  }

  /** Events in order, for each event its rules in order, for each rule its rounds in order. */
  ghost predicate Sooner(rules: seq<Rule>, w: Way, w': Way)
    requires w.rule < |rules| && w'.rule < |rules|
  {
    w.event < w'.event || (w.event == w'.event && SoonerInEvent(rules, w.rule, w.round, w'.rule, w'.round))
  }

  /** The last way in which the delivery writes the tuple. */
  ghost predicate Last(up: Upstream, events: seq<Event>, rules: seq<Rule>, w: Way, tuple: Rendered) {
    && Writes(up, events, rules, w, tuple)
    && forall w' :: Writes(up, events, rules, w', tuple) ==> w' == w || Sooner(rules, w', w)
  }

  lemma DeliveryLists(events: seq<Event>, rules: seq<Rule>) returns (lists: seq<seq<Task>>)
    ensures |lists| == |events| && Tasks(events, rules) == Flattened(lists)
    ensures forall e :: 0 <= e < |events| ==> lists[e] == EventTasks(events[e], StableSort(rules, PriorityOf))
  {
    var sorted := StableSort(rules, PriorityOf);
    EventsFlatten(events, sorted);
    lists := Map(events, ev => EventTasks(ev, sorted));
    hide EventTasks, StableSort, Flattened;
  }

  lemma DeliveryTouches(up: Upstream, events: seq<Event>, rules: seq<Rule>, tuple: Rendered)
    ensures Touched(up, Tasks(events, rules), tuple) <==> exists w :: Writes(up, events, rules, w, tuple)
  {
    var lists := DeliveryLists(events, rules);
    ListsUntouched(up, lists, tuple);
    hide Tasks, EventTasks, StableSort, Touched, Flattened, EventWrites;
    if e :| 0 <= e < |lists| && Touched(up, lists[e], tuple) {
      EventTouches(up, rules, events[e], tuple);
      var i: nat, k: nat :| EventWrites(up, rules, events[e], i, k, tuple);
      assert Writes(up, events, rules, Way(e, i, k), tuple);
    }
    if w :| Writes(up, events, rules, w, tuple) {
      EventTouches(up, rules, events[w.event], tuple);
      assert Touched(up, lists[w.event], tuple);
    }
  }

  lemma LastWayDecides(up: Upstream, store: set<Rendered>, events: seq<Event>, rules: seq<Rule>, tuple: Rendered)
    returns (w: Way)
    requires Touched(up, Tasks(events, rules), tuple)
    ensures Last(up, events, rules, w, tuple)
    ensures tuple in Settled(up, store, Tasks(events, rules)) <==> rules[w.rule].op == "write"
  {
    var lists := DeliveryLists(events, rules);
    hide Tasks, EventTasks, StableSort, Touched, Flattened, Settled, RuleWrites, SoonerInEvent;
    var e, before := LastListDecides(up, store, lists, tuple);
    var i, k := EventDecides(up, before, rules, events[e], tuple);
    w := Way(e, i, k);
    forall w' | Writes(up, events, rules, w', tuple) ensures w' == w || Sooner(rules, w', w) {
      EventTouches(up, rules, events[w'.event], tuple);
      assert Touched(up, lists[w'.event], tuple);
    }
  }

  /** After any deliveries cut short and one that completes: a tuple that no matching rule renders, or that the store
      refuses, is as it was; any other is stored exactly when the last rule that writes it, by event, priority and
      position, says "write". */
  lemma LastRuleDecides(up: Upstream, store: set<Rendered>, calls: nat, events: seq<Event>, rules: seq<Rule>, n: nat,
      tuple: Rendered)
    requires !Redelivered(up, store, calls, Tasks(events, rules), n).aborted
    ensures var after := Redelivered(up, store, calls, Tasks(events, rules), n).store;
            && ((forall w :: !Writes(up, events, rules, w, tuple)) ==> (tuple in after <==> tuple in store))
            && ((exists w :: Writes(up, events, rules, w, tuple)) ==>
                  exists w :: Last(up, events, rules, w, tuple) && (tuple in after <==> rules[w.rule].op == "write"))
  {
    RetryConverges(up, store, calls, events, rules, n);
    DeliveryTouches(up, events, rules, tuple);
    SettledAt(up, store, Tasks(events, rules), tuple);
    hide Tasks, Touched, Settled, Redelivered, Writes, Last;
    if exists w :: Writes(up, events, rules, w, tuple) {
      var w := LastWayDecides(up, store, events, rules, tuple);
    }
  }

  // ---------------------------------------------------------------------------
  // The counters.

  /** A tuple that does not render, or that the store refuses. */
  ghost predicate Fails(up: Upstream, task: Task) {
    task == Unrendered || (task.Write? && up.rejects(task.op, task.tuple))
  }

  /** The k-th task changes what is stored. */
  ghost predicate Changes(up: Upstream, store: set<Rendered>, tasks: seq<Task>, k: nat) {
    k < |tasks| && Settled(up, store, tasks[..k + 1]) != Settled(up, store, tasks[..k])
  }

  lemma AfterPrefix(up: Upstream, d: Delivery, tasks: seq<Task>, n: nat)
    requires 0 < n <= |tasks|
    ensures After(up, d, tasks[..n]) == Do(up, After(up, d, tasks[..n - 1]), tasks[n - 1])
    ensures After(up, d, tasks[..n - 1]).aborted ==> After(up, d, tasks[..n]).aborted
  {
    assert tasks[..n] == tasks[..n - 1] + [tasks[n - 1]];
    AfterConcat(up, d, tasks[..n - 1], [tasks[n - 1]]);
    AfterOne(up, After(up, d, tasks[..n - 1]), tasks[n - 1]);
    hide After;
  }

  lemma DoCounts(up: Upstream, d: Delivery, task: Task)
    requires !Do(up, d, task).aborted
    ensures var (was, now) := (d.res, Do(up, d, task).res);
            && now.failed == was.failed + (if Fails(up, task) then 1 else 0)
            && now.applied == was.applied + (if Do(up, d, task).store != d.store then 1 else 0)
  {
  }

  lemma {:induction false} CountsUpTo(up: Upstream, d: Delivery, tasks: seq<Task>, n: nat)
    requires n <= |tasks| && !After(up, d, tasks[..n]).aborted
    ensures var (was, now) := (d.res, After(up, d, tasks[..n]).res);
            && now.failed == was.failed + Tally(n, (k: nat) => k < |tasks| && Fails(up, tasks[k]))
            && now.applied == was.applied + Tally(n, (k: nat) => Changes(up, d.store, tasks, k))
  {
    hide Fails, Settled, Do;
    if n > 0 {
      AfterPrefix(up, d, tasks, n);
      CountsUpTo(up, d, tasks, n - 1);
      DoCounts(up, After(up, d, tasks[..n - 1]), tasks[n - 1]);
      DeliveryCompletes(up, d, tasks[..n - 1]);
      DeliveryCompletes(up, d, tasks[..n]);
    }
  }

  /** A delivery that completes counts as failed what does not render or is refused, as applied what changes the store,
      and everything else as skipped. */
  lemma DeliveryCounts(up: Upstream, d: Delivery, tasks: seq<Task>)
    requires !After(up, d, tasks).aborted
    ensures var (was, now) := (d.res, After(up, d, tasks).res);
            && now.failed == was.failed + Tally(|tasks|, (k: nat) => k < |tasks| && Fails(up, tasks[k]))
            && now.applied == was.applied + Tally(|tasks|, (k: nat) => Changes(up, d.store, tasks, k))
            && now.applied + now.skipped + now.failed == was.applied + was.skipped + was.failed + |tasks|
  {
    assert tasks[..|tasks|] == tasks;
    CountsUpTo(up, d, tasks, |tasks|);
    hide After, Fails, Changes;
    DeliveryCompletes(up, d, tasks);
  }

  // ---------------------------------------------------------------------------
  // What the paths and the templates stand for.

  /** The value v stands at the path. */
  ghost predicate StandsAt(ev: Event, path: string, item: Option<string>, v: string) {
    || (path == "item" && item == Some(v))
    || (path == "type" && v == ev.typ)
    || (path in {"subject", "subject.id"} && v == ev.subjectId)
    || (path == "subject.type" && v == ev.subjectType)
    || exists name :: path == "attributes." + name && name in ev.attributes && ev.attributes[name] == Scalar(v)
  }

  lemma AttributePath(path: string)
    requires ATTRIBUTES <= path
    ensures path !in {"item", "type", "subject", "subject.id", "subject.type"}
    ensures path == "attributes." + path[|ATTRIBUTES|..]
  {
    assert path[0] == 'a';
  }

  lemma ScalarValueExactly(ev: Event, path: string, item: Option<string>, v: string)
    ensures ScalarValue(ev, path, item) == Some(v) <==> StandsAt(ev, path, item, v)
  {
    if ATTRIBUTES <= path {
      AttributePath(path);
      var rest := path[|ATTRIBUTES|..];
      assert forall name :: path == "attributes." + name ==> name == rest;
    } else {
      assert forall name :: ATTRIBUTES <= ATTRIBUTES + name;
    }
  }

  /** A rule matches events of its type at which every predicate's value stands, and that give it a round at all. */
  lemma MatchesExactly(rule: Rule, ev: Event)
    ensures Matches(rule, ev) <==>
            && ev.typ == rule.eventType
            && (forall p :: p in rule.predicates ==> StandsAt(ev, p.field, None, p.equals))
            && Rounds(rule, ev) > 0
  {
    forall p | p in rule.predicates ensures Satisfied(ev, p) <==> StandsAt(ev, p.field, None, p.equals) {
      ScalarValueExactly(ev, p.field, None, p.equals);
    }
    hide ScalarValue, StandsAt, Satisfied;
  }

  ghost predicate Filled(text: string, ev: Event, item: Option<string>, r: string) {
    Substituted(text, Placeholders(text), ev, item) == Some(r)
  }

  /** A tuple is rendered exactly when each of its three parts is its own template filled, the types of user and object
      are written in theirs, and what comes out is type:id, a word, and type:id. */
  lemma RenderExactly(t: Template, ev: Event, item: Option<string>, r: Rendered)
    ensures Render(t, ev, item) == Some(r) <==>
            && TypePrefix(t.user).Some? && TypePrefix(t.obj).Some?
            && Filled(t.user, ev, item, r.user) && Filled(t.relation, ev, item, r.relation)
            && Filled(t.obj, ev, item, r.obj)
            && IsTypeId(r.user) && IsWord(r.relation) && IsTypeId(r.obj)
  {
    hide Substituted, Placeholders, TypePrefix, IsTypeId, IsWord;
  }

  /** Not empty, and no colon, #, * or white space: no second type, no userset, no wildcard, no second word. */
  ghost predicate IsGuarded(id: string) {
    id != "" && forall c :: c in id ==> c != ':' && c != '#' && c != '*' && !IsSpace(c)
  }

  /** type:id with the type that stands at the start of the template. */
  ghost predicate IsGuardedAs(text: string, template: string) {
    exists typ, id :: IsWord(typ) && typ + ":" <= template && text == typ + ":" + id && IsGuarded(id)
  }

  lemma PlainExactly(s: string)
    ensures Plain(s) <==> forall c :: c in s ==> c != ':' && c != '#' && c != '*' && !IsSpace(c)
  {
    hide IsSpace;
    assert forall i :: 0 <= i < |s| ==> s[i] in s;
  }

  lemma PrefixTaken(s: string)
    requires TypePrefix(s).Some?
    ensures var typ := TypePrefix(s).value; IsWord(typ) && typ + ":" <= s && s == typ + ":" + s[|typ| + 1..]
  {
    hide IsWord;
    var i := IndexOf(s, ':');
    assert s[..i] + ":" == s[..i + 1];
  }

  lemma IdTaken(s: string)
    requires IsTypeId(s)
    ensures var (typ, id) := (TypePrefix(s).value, s[|TypePrefix(s).value| + 1..]);
            IsWord(typ) && s == typ + ":" + id && IsGuarded(id)
  {
    PrefixTaken(s);
    PlainExactly(s[|TypePrefix(s).value| + 1..]);
    hide TypePrefix, IsWord, Plain, IsSpace;
  }

  /** A token is type:id exactly when it is a word, a colon and a guarded id. */
  lemma TypeIdExactly(s: string)
    ensures IsTypeId(s) <==> exists typ, id :: IsWord(typ) && s == typ + ":" + id && IsGuarded(id)
  {
    hide TypePrefix, IsWord, Plain, IsSpace;
    if IsTypeId(s) {
      IdTaken(s);
    }
    if typ, id :| IsWord(typ) && s == typ + ":" + id && IsGuarded(id) {
      PrefixIsFirst(s, typ);
      assert s[|typ| + 1..] == id;
      PlainExactly(id);
    }
  }

  /** Whatever an event holds: the rendered user and object are the template's own type and one guarded id. */
  lemma RenderedIsGuarded(t: Template, ev: Event, item: Option<string>, r: Rendered)
    requires Render(t, ev, item) == Some(r)
    ensures IsGuardedAs(r.user, t.user) && IsGuardedAs(r.obj, t.obj)
    ensures r.relation != "" && forall c :: c in r.relation ==> IsWordChar(c)
  {
    hide Substituted, Placeholders, IsTypeId, TypePrefix, Render, IsSpace, IsWordChar;
    EventsNeverChooseTypes(t, ev, item);
    GuardedFrom(r.user, t.user);
    GuardedFrom(r.obj, t.obj);
  }

  lemma GuardedFrom(text: string, template: string)
    requires IsTypeId(text) && TypePrefix(text) == TypePrefix(template)
    ensures IsGuardedAs(text, template)
  {
    IdTaken(text);
    PrefixTaken(template);
    hide IsWord, IsGuarded, TypePrefix;
  }
}
