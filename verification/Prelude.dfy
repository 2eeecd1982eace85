/** Small vocabulary shared by every module: optional values and sequence helpers. */
module Prelude {

  datatype Option<+T> = None | Some(value: T)

  /** No two positions hold the same element. */
  ghost predicate Distinct<T>(s: seq<T>) {
    forall i, j :: 0 <= i < j < |s| ==> s[i] != s[j]
  }

  /** The elements of s that satisfy keep, in order. */
  function Filter<T(!new)>(s: seq<T>, keep: T -> bool): (r: seq<T>)
    ensures |r| <= |s|
    ensures forall x :: x in r <==> x in s && keep(x)
  {
    if s == [] then []
    else (if keep(s[0]) then [s[0]] else []) + Filter(s[1..], keep)
  }

  lemma FilterCons<T(!new)>(x: T, s: seq<T>, keep: T -> bool)
    ensures Filter([x] + s, keep) == (if keep(x) then [x] else []) + Filter(s, keep)
  {
    assert ([x] + s)[1..] == s;
  }

  lemma FilterNext<T(!new)>(s: seq<T>, i: nat, keep: T -> bool)
    requires i < |s|
    ensures Filter(s[..i + 1], keep) == Filter(s[..i], keep) + (if keep(s[i]) then [s[i]] else [])
  {
    assert s[..i + 1] == s[..i] + [s[i]];
    FilterConcat(s[..i], [s[i]], keep);
    assert [s[i]][1..] == [];
  }

  lemma {:induction false} FilterConcat<T(!new)>(a: seq<T>, b: seq<T>, keep: T -> bool)
    ensures Filter(a + b, keep) == Filter(a, keep) + Filter(b, keep)
  {
    if a == [] {
      assert a + b == b;
    } else {
      assert (a + b)[1..] == a[1..] + b && (a + b)[0] == a[0];
      FilterConcat(a[1..], b, keep);
    }
  }

  /** r holds the elements of s that satisfy keep, each as often as s does and in the order of s. */
  ghost predicate Selects<T(!new)>(s: seq<T>, r: seq<T>, keep: T -> bool) {
    exists at: seq<nat> :: SelectsAt(s, r, keep, at)
  }

  ghost predicate SelectsAt<T(!new)>(s: seq<T>, r: seq<T>, keep: T -> bool, at: seq<nat>) {
    && |at| == |r|
    && (forall j, k :: 0 <= j < k < |at| ==> at[j] < at[k])
    && (forall k :: 0 <= k < |at| ==> at[k] < |s| && r[k] == s[at[k]])
    && (forall i: nat :: i < |s| ==> (keep(s[i]) <==> i in at))
  }

  lemma KeepsNext<T(!new)>(s: seq<T>, r: seq<T>, keep: T -> bool, at: seq<nat>, x: T)
    requires SelectsAt(s, r, keep, at) && keep(x)
    ensures SelectsAt(s + [x], r + [x], keep, at + [|s|])
  {
    var (all, more) := (s + [x], at + [|s|]);
    assert forall k :: 0 <= k < |at| ==> more[k] == at[k];
    forall i: nat | i < |all| ensures keep(all[i]) <==> i in more {
      if i < |s| {
        assert all[i] == s[i];
        assert i in more <==> i in at;
      } else {
        assert more[|at|] == i;
      }
    }
  }

  lemma RefusesNext<T(!new)>(s: seq<T>, r: seq<T>, keep: T -> bool, at: seq<nat>, x: T)
    requires SelectsAt(s, r, keep, at) && !keep(x)
    ensures SelectsAt(s + [x], r, keep, at)
  {
    var all := s + [x];
    forall i: nat | i < |all| ensures keep(all[i]) <==> i in at {
      if i < |s| {
        assert all[i] == s[i];
      }
    }
  }

  lemma {:induction false} FilterSelects<T(!new)>(s: seq<T>, keep: T -> bool)
    ensures Selects(s, Filter(s, keep), keep)
  {
    if s == [] {
      assert SelectsAt(s, [], keep, []);
    } else {
      var (front, x) := (s[..|s| - 1], s[|s| - 1]);
      assert front + [x] == s;
      FilterSelects(front, keep);
      FilterConcat(front, [x], keep);
      assert Filter([x], keep) == (if keep(x) then [x] else []) by {
        assert [x][1..] == [];
      }
      var at :| SelectsAt(front, Filter(front, keep), keep, at);
      hide Filter, SelectsAt;
      if keep(x) {
        KeepsNext(front, Filter(front, keep), keep, at, x);
      } else {
        assert Filter(s, keep) == Filter(front, keep);
        RefusesNext(front, Filter(front, keep), keep, at, x);
      }
    }
  }

  lemma SelectsAlike<T(!new)>(s: seq<T>, r: seq<T>, keep: T -> bool, keep': T -> bool)
    requires Selects(s, r, keep) && forall x :: x in s ==> (keep(x) <==> keep'(x))
    ensures Selects(s, r, keep')
  {
    var at :| SelectsAt(s, r, keep, at);
    assert SelectsAt(s, r, keep', at);
  }

  /** f applied to every element, in order. */
  function Map<S, T>(s: seq<S>, f: S -> T): (r: seq<T>)
    ensures |r| == |s|
    ensures forall i :: 0 <= i < |s| ==> r[i] == f(s[i])
  {
    if s == [] then [] else [f(s[0])] + Map(s[1..], f)
  }

  lemma MapCons<S, T>(x: S, s: seq<S>, f: S -> T)
    ensures Map([x] + s, f) == [f(x)] + Map(s, f)
  {
    assert ([x] + s)[1..] == s;
  }

  lemma {:induction false} MapConcat<S, T>(a: seq<S>, b: seq<S>, f: S -> T)
    ensures Map(a + b, f) == Map(a, f) + Map(b, f)
  {
  }

  /** The lists one after the other. */
  function Flattened<T>(lists: seq<seq<T>>): seq<T> {
    if lists == [] then [] else lists[0] + Flattened(lists[1..])
  }

  /** For how many k below n the predicate holds. */
  ghost function Tally(n: nat, p: nat -> bool): nat {
    if n == 0 then 0 else Tally(n - 1, p) + (if p(n - 1) then 1 else 0)
  }

  /** Position of the first c in s, or -1, as strings.Index and String.indexOf return it. */
  function IndexOf(s: string, c: char): (r: int)
    ensures -1 <= r < |s|
    ensures r >= 0 ==> s[r] == c && c !in s[..r]
    ensures r < 0 <==> c !in s
  {
    if s == [] then -1
    else if s[0] == c then 0
    else
      var k := IndexOf(s[1..], c);
      assert k >= 0 ==> s[..k + 1] == [s[0]] + s[1..][..k];
      if k < 0 then -1 else k + 1
  }

  predicate HasPrefix(s: string, p: string) {
    p <= s
  }

  lemma DistinctParts(a: seq<string>, b: seq<string>)
    ensures Distinct(a + b) <==> Distinct(a) && Distinct(b) && forall i :: 0 <= i < |b| ==> b[i] !in a
  {
    var s := a + b;
    if Distinct(s) {
      assert forall i :: 0 <= i < |b| ==> s[|a| + i] == b[i];
      assert forall i :: 0 <= i < |a| ==> s[i] == a[i];
    }
  }

  lemma ConcatAssociates<T>(a: seq<T>, b: seq<T>, c: seq<T>)
    ensures (a + b) + c == a + (b + c)
  {
  }

  function SetOf<T>(s: seq<T>): set<T> {
    set x | x in s
  }
}
