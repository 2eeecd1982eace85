/** Stable sorting by an integer key, and selecting from a sorted sequence. */
module Sorting {
  import opened Prelude

  predicate SortedBy<T>(s: seq<T>, key: T -> int) {
    forall i, j :: 0 <= i < j < |s| ==> key(s[i]) <= key(s[j])
  }

  /** x placed before the first element whose key is not smaller. */
  function Insert<T>(x: T, s: seq<T>, key: T -> int): seq<T> {
    if s == [] then [x]
    else if key(x) <= key(s[0]) then [x] + s
    else [s[0]] + Insert(x, s[1..], key)
  }

  function StableSort<T>(s: seq<T>, key: T -> int): seq<T> {
    if s == [] then [] else Insert(s[0], StableSort(s[1..], key), key)
  }

  lemma {:induction false} InsertBound<T>(x: T, s: seq<T>, key: T -> int, low: int)
    requires low <= key(x) && forall i :: 0 <= i < |s| ==> low <= key(s[i])
    ensures forall i :: 0 <= i < |Insert(x, s, key)| ==> low <= key(Insert(x, s, key)[i])
  {
    if s != [] && key(x) > key(s[0]) {
      InsertBound(x, s[1..], key, low);
    }
  }

  lemma {:induction false} InsertAdds<T>(x: T, s: seq<T>, key: T -> int)
    ensures multiset(Insert(x, s, key)) == multiset{x} + multiset(s)
  {
    if s != [] {
      assert s == [s[0]] + s[1..];
      if key(x) > key(s[0]) {
        InsertAdds(x, s[1..], key);
      }
    }
  }

  lemma {:induction false} InsertKeeps<T>(x: T, s: seq<T>, key: T -> int)
    requires SortedBy(s, key)
    ensures SortedBy(Insert(x, s, key), key)
  {
    if s != [] && key(x) > key(s[0]) {
      InsertKeeps(x, s[1..], key);
      InsertBound(x, s[1..], key, key(s[0]));
    }
  }

  /** The result is sorted and holds the same elements. */
  lemma {:induction false} StableSortSorts<T>(s: seq<T>, key: T -> int)
    ensures SortedBy(StableSort(s, key), key)
    ensures multiset(StableSort(s, key)) == multiset(s)
  {
    if s != [] {
      StableSortSorts(s[1..], key);
      InsertKeeps(s[0], StableSort(s[1..], key), key);
      InsertAdds(s[0], StableSort(s[1..], key), key);
      assert s == [s[0]] + s[1..];
    }
  }

  lemma SameElements<T>(s: seq<T>, key: T -> int)
    ensures |StableSort(s, key)| == |s|
    ensures forall x :: x in StableSort(s, key) <==> x in s
  {
    StableSortSorts(s, key);
    var r := StableSort(s, key);
    assert |multiset(r)| == |r| && |multiset(s)| == |s|;
    assert forall x :: x in r <==> x in multiset(r);
    assert forall x :: x in s <==> x in multiset(s);
  }

  lemma InsertFront<T>(x: T, s: seq<T>, key: T -> int)
    requires s != [] ==> key(x) <= key(s[0])
    ensures Insert(x, s, key) == [x] + s
  {
  }

  /** Sorting leaves a sequence alone exactly when it is sorted already. */
  lemma {:induction false} StableSortFixes<T>(s: seq<T>, key: T -> int)
    ensures StableSort(s, key) == s <==> SortedBy(s, key)
  {
    StableSortSorts(s, key);
    if SortedBy(s, key) && s != [] {
      assert forall i :: 0 <= i < |s| - 1 ==> s[1..][i] == s[i + 1];
      StableSortFixes(s[1..], key);
      InsertFront(s[0], s[1..], key);
      assert s == [s[0]] + s[1..];
    }
  }

  // The order of a stable sort, by positions.

  /** Position i of s comes before position j: its key is smaller, or equal while it stands before. */
  ghost predicate Precedes<T>(s: seq<T>, key: T -> int, i: nat, j: nat)
    requires i < |s| && j < |s|
  {
    key(s[i]) < key(s[j]) || (key(s[i]) == key(s[j]) && i < j)
  }

  /** The positions of s, each once, by key and those of equal key by position. */
  ghost predicate IsOrder<T>(s: seq<T>, key: T -> int, order: seq<nat>) {
    && (forall k :: 0 <= k < |order| ==> order[k] < |s|)
    && (forall i: nat :: i < |s| ==> i in order)
    && forall j, k :: 0 <= j < k < |order| ==> Precedes(s, key, order[j], order[k])
  }

  lemma {:induction false} InsertPlace<T>(x: T, s: seq<T>, key: T -> int) returns (p: nat)
    ensures p <= |s| && Insert(x, s, key) == s[..p] + [x] + s[p..]
    ensures forall k :: 0 <= k < p ==> key(s[k]) < key(x)
    ensures p < |s| ==> key(x) <= key(s[p])
  {
    if s == [] || key(x) <= key(s[0]) {
      p := 0;
    } else {
      var q := InsertPlace(x, s[1..], key);
      p := q + 1;
      assert s[..p] == [s[0]] + s[1..][..q] && s[p..] == s[1..][q..];
      assert forall k :: 0 < k < p ==> s[k] == s[1..][k - 1];
    }
  }

  /** The positions of the rest, one further, with the first element's put at p. */
  function PlacedOrder(order: seq<nat>, p: nat): (r: seq<nat>)
    requires p <= |order|
    ensures |r| == |order| + 1
    ensures forall k :: 0 <= k < |r| ==> r[k] == if k < p then order[k] + 1 else if k == p then 0 else order[k - 1] + 1
  {
    var shifted := seq(|order|, k requires 0 <= k < |order| => order[k] + 1);
    shifted[..p] + [0] + shifted[p..]
  }

  lemma PlacedIsOrder<T>(s: seq<T>, key: T -> int, order: seq<nat>, p: nat)
    requires s != [] && IsOrder(s[1..], key, order) && p <= |order|
    requires forall k :: 0 <= k < p ==> key(s[1..][order[k]]) < key(s[0])
    requires forall k :: p <= k < |order| ==> key(s[0]) <= key(s[1..][order[k]])
    ensures IsOrder(s, key, PlacedOrder(order, p))
  {
    var r := PlacedOrder(order, p);
    forall i: nat | i < |s| ensures i in r {
      if i == 0 {
        assert r[p] == 0;
      } else {
        assert i - 1 in order;
        var k :| 0 <= k < |order| && order[k] == i - 1;
        assert r[if k < p then k else k + 1] == i;
      }
    }
    forall j, k | 0 <= j < k < |r| ensures Precedes(s, key, r[j], r[k]) {
      var (a, b) := (if j < p then j else j - 1, if k < p then k else k - 1);
      if j != p && k != p {
        assert Precedes(s[1..], key, order[a], order[b]);
      }
    }
  }

  /** r lists the elements of s in the given order. */
  ghost predicate Lists<T>(r: seq<T>, s: seq<T>, order: seq<nat>) {
    |r| == |order| && forall k :: 0 <= k < |order| ==> order[k] < |s| && r[k] == s[order[k]]
  }

  lemma PlacedLists<T>(s: seq<T>, rest: seq<T>, order: seq<nat>, p: nat)
    requires s != [] && Lists(rest, s[1..], order) && p <= |rest|
    ensures Lists(rest[..p] + [s[0]] + rest[p..], s, PlacedOrder(order, p))
  {
  }

  lemma NotSmallerFrom<T>(s: seq<T>, key: T -> int, p: nat, low: int)
    requires SortedBy(s, key) && p <= |s| && (p < |s| ==> low <= key(s[p]))
    ensures forall k :: p <= k < |s| ==> low <= key(s[k])
  {
    assert forall k :: p < k < |s| ==> key(s[p]) <= key(s[k]);
  }

  lemma ListedKeys<T>(r: seq<T>, s: seq<T>, key: T -> int, order: seq<nat>, p: nat, x: int)
    requires Lists(r, s, order) && p <= |r|
    requires forall k :: 0 <= k < p ==> key(r[k]) < x
    requires forall k :: p <= k < |r| ==> x <= key(r[k])
    ensures forall k :: 0 <= k < p ==> key(s[order[k]]) < x
    ensures forall k :: p <= k < |order| ==> x <= key(s[order[k]])
  {
  }

  lemma SortUnfolds<T>(s: seq<T>, key: T -> int)
    ensures StableSort(s, key) == if s == [] then [] else Insert(s[0], StableSort(s[1..], key), key)
  {
  }

  lemma NothingOrdered<T>(s: seq<T>, key: T -> int)
    requires s == []
    ensures IsOrder(s, key, []) && Lists(s, s, [])
  {
  }

  /** A stable sort lists its elements in that order. */
  lemma {:induction false} StableSortOrder<T>(s: seq<T>, key: T -> int) returns (order: seq<nat>)
    ensures IsOrder(s, key, order) && Lists(StableSort(s, key), s, order)
  {
    hide *;
    SortUnfolds(s, key);
    if s == [] {
      order := [];
      NothingOrdered(s, key);
    } else {
      var (x, rest) := (s[0], StableSort(s[1..], key));
      var before := StableSortOrder(s[1..], key);
      StableSortSorts(s[1..], key);
      var p := InsertPlace(x, rest, key);
      NotSmallerFrom(rest, key, p, key(x));
      order := Placed(s, rest, key, before, p);
    }
  }

  lemma Placed<T>(s: seq<T>, rest: seq<T>, key: T -> int, before: seq<nat>, p: nat) returns (order: seq<nat>)
    requires s != [] && IsOrder(s[1..], key, before) && Lists(rest, s[1..], before) && p <= |rest|
    requires forall k :: 0 <= k < p ==> key(rest[k]) < key(s[0])
    requires forall k :: p <= k < |rest| ==> key(s[0]) <= key(rest[k])
    ensures IsOrder(s, key, order) && Lists(rest[..p] + [s[0]] + rest[p..], s, order)
  {
    order := PlacedOrder(before, p);
    ListedKeys(rest, s[1..], key, before, p, key(s[0]));
    PlacedLists(s, rest, before, p);
    hide Lists, Precedes;
    PlacedIsOrder(s, key, before, p);
  }

  /** The defined results of f, in order. */
  function FilterMap<S, T>(s: seq<S>, f: S -> Option<T>): seq<T> {
    if s == [] then []
    else (if f(s[0]).Some? then [f(s[0]).value] else []) + FilterMap(s[1..], f)
  }

  lemma FilterMapCons<S, T>(x: S, s: seq<S>, f: S -> Option<T>)
    ensures FilterMap([x] + s, f) == if f(x).Some? then [f(x).value] + FilterMap(s, f) else FilterMap(s, f)
  {
    assert ([x] + s)[1..] == s;
  }

  lemma {:induction false} FilterMapConcat<S, T>(a: seq<S>, b: seq<S>, f: S -> Option<T>)
    ensures FilterMap(a + b, f) == FilterMap(a, f) + FilterMap(b, f)
  {
    if a == [] {
      assert a + b == b;
    } else {
      var tail := a[1..];
      assert a == [a[0]] + tail;
      assert a + b == [a[0]] + (tail + b);
      hide FilterMap;
      FilterMapConcat(tail, b, f);
      FilterMapCons(a[0], tail + b, f);
      FilterMapCons(a[0], tail, f);
    }
  }

  lemma {:induction false} FilterMapMembers<S, T>(s: seq<S>, f: S -> Option<T>, y: T)
    ensures y in FilterMap(s, f) <==> exists x :: x in s && f(x) == Some(y)
  {
    if s != [] {
      FilterMapMembers(s[1..], f, y);
    }
  }

  ghost predicate KeysAgree<S, T>(s: seq<S>, f: S -> Option<T>, key: S -> int, key': T -> int) {
    forall x :: x in s && f(x).Some? ==> key'(f(x).value) == key(x)
  }

  lemma InsertBehind<T>(x: T, y: T, s: seq<T>, key: T -> int)
    requires key(x) > key(y)
    ensures Insert(x, [y] + s, key) == [y] + Insert(x, s, key)
  {
    assert ([y] + s)[1..] == s;
  }

  lemma {:induction false} FilterMapInsert<S, T>(x: S, s: seq<S>, f: S -> Option<T>, key: S -> int, key': T -> int)
    requires SortedBy(s, key) && KeysAgree([x] + s, f, key, key')
    ensures FilterMap(Insert(x, s, key), f) ==
            if f(x).Some? then Insert(f(x).value, FilterMap(s, f), key') else FilterMap(s, f)
  {
    hide FilterMap;
    assert x in [x] + s;
    if s == [] {
      InsertFront(x, s, key);
      FilterMapCons(x, s, f);
      FilterMapNone(s, f);
      if f(x).Some? {
        InsertFront(f(x).value, [], key');
      }
    } else if key(x) <= key(s[0]) {
      InsertFront(x, s, key);
      FilterMapCons(x, s, f);
      if f(x).Some? {
        FilterMapBound(s, f, key, key', key(x));
        InsertFront(f(x).value, FilterMap(s, f), key');
      }
    } else {
      var tail := s[1..];
      assert s == [s[0]] + tail;
      assert forall y :: y in [x] + tail ==> y in [x] + s;
      FilterMapInsert(x, tail, f, key, key');
      InsertBehind(x, s[0], tail, key);
      FilterMapCons(s[0], Insert(x, tail, key), f);
      FilterMapCons(s[0], tail, f);
      if f(x).Some? && f(s[0]).Some? {
        assert s[0] in [x] + s;
        InsertBehind(f(x).value, f(s[0]).value, FilterMap(tail, f), key');
      }
    }
  }

  lemma FilterMapNone<S, T>(s: seq<S>, f: S -> Option<T>)
    requires s == []
    ensures FilterMap(s, f) == []
  {
  }

  lemma {:induction false} FilterMapBound<S, T>(s: seq<S>, f: S -> Option<T>, key: S -> int, key': T -> int, low: int)
    requires KeysAgree(s, f, key, key') && SortedBy(s, key) && (s != [] ==> low <= key(s[0]))
    ensures FilterMap(s, f) != [] ==> low <= key'(FilterMap(s, f)[0])
  {
    if s != [] && f(s[0]).None? {
      assert forall i :: 0 <= i < |s| - 1 ==> s[1..][i] == s[i + 1];
      FilterMapBound(s[1..], f, key, key', low);
    }
  }

  lemma SortCons<T>(x: T, s: seq<T>, key: T -> int)
    ensures StableSort([x] + s, key) == Insert(x, StableSort(s, key), key)
  {
    assert ([x] + s)[1..] == s;
  }

  lemma KeysAgreeWithin<S, T>(s: seq<S>, a: seq<S>, f: S -> Option<T>, key: S -> int, key': T -> int)
    requires KeysAgree(s, f, key, key') && forall x :: x in a ==> x in s
    ensures KeysAgree(a, f, key, key')
  {
  }

  lemma SortedTailWithin<T>(s: seq<T>, key: T -> int)
    requires s != []
    ensures forall y :: y in [s[0]] + StableSort(s[1..], key) ==> y in s
    ensures forall y :: y in s[1..] ==> y in s
  {
    SameElements(s[1..], key);
    StableSortSorts(s[1..], key);
    var rest := StableSort(s[1..], key);
    forall y | y in [s[0]] + rest ensures y in s {
      if y != s[0] {
        assert y in multiset(rest) && y in multiset(s[1..]);
      }
    }
  }

  /** Selecting from a sorted sequence is sorting the selection. */
  lemma {:induction false} FilterMapSort<S, T>(s: seq<S>, f: S -> Option<T>, key: S -> int, key': T -> int)
    requires KeysAgree(s, f, key, key')
    ensures FilterMap(StableSort(s, key), f) == StableSort(FilterMap(s, f), key')
  {
    if s != [] {
      var tail := s[1..];
      var rest := StableSort(tail, key);
      assert s == [s[0]] + tail;
      hide FilterMap, StableSort, Insert, SortedBy, KeysAgree;
      SortedTailWithin(s, key);
      KeysAgreeWithin(s, tail, f, key, key');
      KeysAgreeWithin(s, [s[0]] + rest, f, key, key');
      FilterMapSort(tail, f, key, key');
      StableSortSorts(tail, key);
      SortCons(s[0], tail, key);
      FilterMapInsert(s[0], rest, f, key, key');
      FilterMapCons(s[0], tail, f);
      if f(s[0]).Some? {
        SortCons(f(s[0]).value, FilterMap(tail, f), key');
      }
    }
  }

  lemma FilterMapNext<S, T>(s: seq<S>, i: nat, f: S -> Option<T>)
    requires i < |s|
    ensures FilterMap(s[..i + 1], f) == FilterMap(s[..i], f) + (if f(s[i]).Some? then [f(s[i]).value] else [])
  {
    assert s[..i + 1] == s[..i] + [s[i]];
    FilterMapConcat(s[..i], [s[i]], f);
    assert [s[i]][1..] == [];
  }

  lemma {:induction false} FilterMapShorter<S, T>(s: seq<S>, f: S -> Option<T>)
    ensures |FilterMap(s, f)| <= |s|
  {
    if s != [] {
      FilterMapShorter(s[1..], f);
    }
  }

  lemma {:induction false} NothingSelected<S, T>(s: seq<S>, f: S -> Option<T>)
    ensures FilterMap(s, f) == [] <==> forall x :: x in s ==> f(x).None?
  {
    if s != [] {
      NothingSelected(s[1..], f);
    }
  }

  // ---------------------------------------------------------------------------
  // Selection by a relation.

  /** r lists, in the order of s, what each element of s becomes, and nothing for one that becomes nothing. */
  ghost predicate Picks<S, T(!new)>(s: seq<S>, r: seq<T>, becomes: (S, T) -> bool) {
    if s == [] then r == []
    else if exists y :: becomes(s[0], y) then
      r != [] && becomes(s[0], r[0]) && Picks(s[1..], r[1..], becomes)
    else Picks(s[1..], r, becomes)
  }

  lemma {:induction false} FilterMapPicks<S(!new), T(!new)>(s: seq<S>, f: S -> Option<T>, becomes: (S, T) -> bool)
    requires forall x, y :: x in s ==> (f(x) == Some(y) <==> becomes(x, y))
    ensures Picks(s, FilterMap(s, f), becomes)
  {
    if s != [] {
      assert forall x :: x in s[1..] ==> x in s;
      FilterMapPicks(s[1..], f, becomes);
      assert s[0] in s;
      if f(s[0]).Some? {
        assert becomes(s[0], f(s[0]).value);
        assert FilterMap(s, f)[1..] == FilterMap(s[1..], f);
      } else {
        assert forall y :: !becomes(s[0], y);
        assert FilterMap(s, f) == FilterMap(s[1..], f);
      }
    }
  }

  /** Where nothing becomes two things, a selection is determined. */
  lemma {:induction false} PickedOnce<S, T(!new)>(s: seq<S>, a: seq<T>, b: seq<T>, becomes: (S, T) -> bool)
    requires Picks(s, a, becomes) && Picks(s, b, becomes)
    requires forall x, y, z :: x in s && becomes(x, y) && becomes(x, z) ==> y == z
    ensures a == b
  {
    if s != [] {
      assert s[0] in s && forall x :: x in s[1..] ==> x in s;
      if exists y :: becomes(s[0], y) {
        PickedOnce(s[1..], a[1..], b[1..], becomes);
        assert a == [a[0]] + a[1..] && b == [b[0]] + b[1..];
      } else {
        PickedOnce(s[1..], a, b, becomes);
      }
    }
  }
}
