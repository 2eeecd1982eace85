/** Strings in code point order, and sets of strings as their one ascending listing. */
module TextOrder {
  import opened Prelude

  /** bytes.Compare(a, b) < 0 on UTF-8, which is code point order. */
  predicate TextLess(a: string, b: string) {
    b != "" && (a == "" || a[0] < b[0] || (a[0] == b[0] && TextLess(a[1..], b[1..])))
  }

  lemma {:induction false} TextLessTransitive(a: string, b: string, c: string)
    requires TextLess(a, b) && TextLess(b, c)
    ensures TextLess(a, c)
  {
    if a != "" && a[0] == b[0] && b[0] == c[0] {
      TextLessTransitive(a[1..], b[1..], c[1..]);
    }
  }

  lemma {:induction false} TextLessTotal(a: string, b: string)
    ensures a == b || TextLess(a, b) || TextLess(b, a)
  {
    if a != "" && b != "" && a[0] == b[0] {
      TextLessTotal(a[1..], b[1..]);
      assert a == [a[0]] + a[1..] && b == [b[0]] + b[1..];
    }
  }

  lemma {:induction false} TextLessStrict(a: string, b: string)
    requires TextLess(a, b)
    ensures a != b && !TextLess(b, a)
  {
    if a != "" && a[0] == b[0] {
      TextLessStrict(a[1..], b[1..]);
    }
  }

  // ---------------------------------------------------------------------------
  // Listings, by the text of their elements.

  ghost predicate Ascending<T>(s: seq<T>, text: T -> string) {
    forall i, j :: 0 <= i < j < |s| ==> TextLess(text(s[i]), text(s[j]))
  }

  function InsertByText<T>(x: T, s: seq<T>, text: T -> string): seq<T> {
    if s == [] then [x]
    else if TextLess(text(s[0]), text(x)) then [s[0]] + InsertByText(x, s[1..], text)
    else [x] + s
  }

  function SortByText<T>(s: seq<T>, text: T -> string): seq<T> {
    if s == [] then [] else InsertByText(s[0], SortByText(s[1..], text), text)
  }

  lemma {:induction false} InsertByTextMember<T>(x: T, s: seq<T>, text: T -> string, y: T)
    ensures y in InsertByText(x, s, text) <==> y == x || y in s
  {
    if s != [] && TextLess(text(s[0]), text(x)) {
      InsertByTextMember(x, s[1..], text, y);
      assert s == [s[0]] + s[1..];
    }
  }

  lemma {:induction false} SortByTextMember<T>(s: seq<T>, text: T -> string, y: T)
    ensures y in SortByText(s, text) <==> y in s
  {
    if s != [] {
      SortByTextMember(s[1..], text, y);
      InsertByTextMember(s[0], SortByText(s[1..], text), text, y);
      assert s == [s[0]] + s[1..];
    }
  }

  lemma {:induction false} InsertByTextAscends<T>(x: T, s: seq<T>, text: T -> string)
    requires Ascending(s, text) && forall i :: 0 <= i < |s| ==> text(s[i]) != text(x)
    ensures Ascending(InsertByText(x, s, text), text)
  {
    if s != [] {
      if TextLess(text(s[0]), text(x)) {
        var (tail, rest) := (s[1..], InsertByText(x, s[1..], text));
        assert forall i :: 0 <= i < |tail| ==> tail[i] == s[i + 1];
        InsertByTextAscends(x, tail, text);
        forall j | 0 <= j < |rest| ensures TextLess(text(s[0]), text(rest[j])) {
          InsertByTextMember(x, tail, text, rest[j]);
          if rest[j] != x {
            var k :| 0 <= k < |tail| && tail[k] == rest[j];
            assert s[k + 1] == rest[j];
          }
        }
      } else {
        TextLessTotal(text(x), text(s[0]));
        forall j | 0 <= j < |s| ensures TextLess(text(x), text(s[j])) {
          if j > 0 {
            TextLessTransitive(text(x), text(s[0]), text(s[j]));
          }
        }
      }
    }
  }

  /** Elements of distinct texts come out strictly ascending. */
  lemma {:induction false} SortByTextAscends<T>(s: seq<T>, text: T -> string)
    requires forall i, j :: 0 <= i < j < |s| ==> text(s[i]) != text(s[j])
    ensures Ascending(SortByText(s, text), text)
  {
    if s != [] {
      var (tail, rest) := (s[1..], SortByText(s[1..], text));
      SortByTextAscends(tail, text);
      forall i | 0 <= i < |rest| ensures text(rest[i]) != text(s[0]) {
        SortByTextMember(tail, text, rest[i]);
        assert rest[i] in rest;
        var k :| 0 <= k < |tail| && tail[k] == rest[i];
        assert s[k + 1] == rest[i];
      }
      InsertByTextAscends(s[0], rest, text);
    }
  }

  /** Two ascending listings of the same elements are the same. */
  lemma {:induction false} ListingUnique<T>(a: seq<T>, b: seq<T>, text: T -> string)
    requires Ascending(a, text) && Ascending(b, text) && forall x :: x in a <==> x in b
    ensures a == b
  {
    if a == [] {
      assert forall i :: 0 <= i < |b| ==> b[i] in b;
    } else {
      assert a[0] in a && a[0] in b;
      assert b != [];
      assert b[0] in b && b[0] in a;
      SmallestFirst(a, b, text);
      forall x ensures x in a[1..] <==> x in b[1..] {
        TailMembers(a, x, text);
        TailMembers(b, x, text);
      }
      assert forall i :: 0 <= i < |a| - 1 ==> a[1..][i] == a[i + 1];
      assert forall i :: 0 <= i < |b| - 1 ==> b[1..][i] == b[i + 1];
      ListingUnique(a[1..], b[1..], text);
      assert a == [a[0]] + a[1..] && b == [b[0]] + b[1..];
    }
  }

  lemma SmallestFirst<T>(a: seq<T>, b: seq<T>, text: T -> string)
    requires Ascending(a, text) && Ascending(b, text) && a != [] && b != [] && a[0] in b && b[0] in a
    ensures a[0] == b[0]
  {
    var i :| 0 <= i < |b| && b[i] == a[0];
    var j :| 0 <= j < |a| && a[j] == b[0];
    if i > 0 && j > 0 {
      TextLessStrict(text(b[0]), text(b[i]));
    }
  }

  lemma TailMembers<T>(s: seq<T>, x: T, text: T -> string)
    requires Ascending(s, text) && s != []
    ensures x in s[1..] <==> x in s && x != s[0]
  {
    assert s == [s[0]] + s[1..];
    if x in s[1..] {
      var k :| 0 <= k < |s| - 1 && s[1..][k] == x;
      assert s[k + 1] == x;
      TextLessStrict(text(s[0]), text(s[k + 1]));
    }
  }

  // ---------------------------------------------------------------------------
  // Sets of strings.

  function Itself(s: string): string { s }

  predicate Least(names: set<string>, x: string) {
    x in names && forall y :: y in names ==> x == y || TextLess(x, y)
  }

  lemma {:induction false} LeastExists(names: set<string>)
    requires names != {}
    ensures exists x :: Least(names, x)
    decreases |names|
  {
    var z :| z in names;
    var rest := names - {z};
    if rest == {} {
      assert names == {z} + rest;
      assert Least(names, z);
    } else {
      LeastExists(rest);
      var y :| Least(rest, y);
      TextLessTotal(z, y);
      if TextLess(z, y) {
        forall w | w in names ensures z == w || TextLess(z, w) {
          if w != z && w != y {
            assert w in rest;
            TextLessTransitive(z, y, w);
          }
        }
        assert Least(names, z);
      } else {
        assert Least(names, y);
      }
    }
  }

  lemma LeastIsUnique(names: set<string>, x: string, y: string)
    requires Least(names, x) && Least(names, y)
    ensures x == y
  {
    if x != y {
      TextLessStrict(x, y);
    }
  }

  function LeastOf(names: set<string>): (x: string)
    requires names != {}
    ensures Least(names, x)
  {
    LeastExists(names);
    assert forall x, y :: Least(names, x) && Least(names, y) ==> x == y by {
      forall x, y | Least(names, x) && Least(names, y) ensures x == y {
        LeastIsUnique(names, x, y);
      }
    }
    var x :| Least(names, x);
    x
  }

  /** The elements of a set, ascending. */
  function Listed(names: set<string>): (r: seq<string>)
    ensures Ascending(r, Itself)
    ensures forall x :: x in r <==> x in names
    decreases |names|
  {
    if names == {} then []
    else
      var x := LeastOf(names);
      var rest := Listed(names - {x});
      assert forall j :: 0 <= j < |rest| ==> rest[j] in names - {x};
      [x] + rest
  }

  /** Whatever order a set's elements are taken in, sorting them gives its listing. */
  lemma SortedIsListed(s: seq<string>, names: set<string>)
    requires Distinct(s) && forall x :: x in s <==> x in names
    ensures SortByText(s, Itself) == Listed(names)
  {
    SortByTextAscends(s, Itself);
    forall x ensures x in SortByText(s, Itself) <==> x in Listed(names) {
      SortByTextMember(s, Itself, x);
    }
    ListingUnique(SortByText(s, Itself), Listed(names), Itself);
  }
}
