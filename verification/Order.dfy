/** Strict total orders, and the sorted list of a finite set: what ORDER BY does to the rows of a
    query and encoding/json to the keys of a map. */
module Order {

  ghost predicate Total<T(!new)>(less: (T, T) -> bool) {
    && (forall a :: !less(a, a))
    && (forall a, b :: less(a, b) || a == b || less(b, a))
    && (forall a, b, c :: less(a, b) && less(b, c) ==> less(a, c))
  }

  predicate Least<T>(x: T, s: set<T>, less: (T, T) -> bool) {
    x in s && forall y :: y in s ==> y == x || less(x, y)
  }

  lemma {:induction false} LeastExists<T(!new)>(s: set<T>, less: (T, T) -> bool)
    requires Total(less) && s != {}
    ensures exists x :: Least(x, s, less)
  {
    var x :| x in s;
    if s == {x} {
      assert Least(x, s, less);
    } else {
      LeastExists(s - {x}, less);
      var y :| Least(y, s - {x}, less);
      var z := if less(x, y) then x else y;
      forall w | w in s
        ensures w == z || less(z, w)
      {
        assert w == x || w in s - {x};
      }
      assert Least(z, s, less);
    }
  }

  function TheLeast<T(==, !new)>(s: set<T>, less: (T, T) -> bool): (x: T)
    requires Total(less) && s != {}
    ensures Least(x, s, less)
  {
    LeastExists(s, less);
    var x :| Least(x, s, less);
    x
  }

  function Sorted<T(==, !new)>(s: set<T>, less: (T, T) -> bool): (r: seq<T>)
    requires Total(less)
    ensures |r| == |s|
  {
    if s == {} then [] else [TheLeast(s, less)] + Sorted(s - {TheLeast(s, less)}, less)
  }

  ghost predicate Ascending<T>(r: seq<T>, less: (T, T) -> bool) {
    forall i, j :: 0 <= i < j < |r| ==> less(r[i], r[j])
  }

  /** The sorted list holds exactly the elements of the set, each once, in ascending order. */
  lemma {:induction false} SortedIsAscending<T(!new)>(s: set<T>, less: (T, T) -> bool)
    requires Total(less)
    ensures Ascending(Sorted(s, less), less)
    ensures forall x :: x in Sorted(s, less) <==> x in s
  {
    if s != {} {
      var x := TheLeast(s, less);
      var rest := Sorted(s - {x}, less);
      SortedIsAscending(s - {x}, less);
      forall i | 0 <= i < |rest|
        ensures less(x, rest[i])
      {
        assert rest[i] in s - {x};
      }
      assert Ascending([x] + rest, less);
    }
  }

  /** An ascending list is determined by its elements. */
  lemma {:induction false} AscendingIsUnique<T(!new)>(a: seq<T>, b: seq<T>, less: (T, T) -> bool)
    requires Total(less) && Ascending(a, less) && Ascending(b, less)
    requires forall x :: x in a <==> x in b
    ensures a == b
  {
    assert forall i :: 0 <= i < |a| ==> a[i] in b;
    assert forall i :: 0 <= i < |b| ==> b[i] in a;
    if a != [] && b != [] {
      assert a[0] in b && b[0] in a;
      assert a[0] == b[0];
      assert a == [a[0]] + a[1..] && b == [b[0]] + b[1..];
      forall x
        ensures x in a[1..] <==> x in b[1..]
      {
        assert x in a <==> x == a[0] || x in a[1..];
        assert x in b <==> x == b[0] || x in b[1..];
        assert a[0] !in a[1..] && b[0] !in b[1..];
      }
      AscendingIsUnique(a[1..], b[1..], less);
    }
  }

  /** Any ascending list of the elements of a set is its sorted list. */
  lemma SortedIsThe<T(!new)>(s: set<T>, r: seq<T>, less: (T, T) -> bool)
    requires Total(less) && Ascending(r, less) && forall x :: x in r <==> x in s
    ensures Sorted(s, less) == r
  {
    SortedIsAscending(s, less);
    AscendingIsUnique(Sorted(s, less), r, less);
  }

  function Count<T>(s: seq<T>, p: T -> bool): nat {
    if s == [] then 0 else Count(s[..|s| - 1], p) + if p(s[|s| - 1]) then 1 else 0
  }

  function Found<T>(s: seq<T>, p: T -> bool): set<T> {
    set x | x in s && p(x)
  }

  /** Counting along a list without repetitions is counting the set of the elements found. */
  lemma {:induction false} CountIsCardinality<T>(s: seq<T>, p: T -> bool)
    requires forall i, j :: 0 <= i < j < |s| ==> s[i] != s[j]
    ensures Count(s, p) == |Found(s, p)|
  {
    if s != [] {
      var rest, last := s[..|s| - 1], s[|s| - 1];
      CountIsCardinality(rest, p);
      assert s == rest + [last] && last !in rest;
      assert Found(s, p) == Found(rest, p) + if p(last) then {last} else {};
    }
  }

  /** Lexicographic order of pairs of strings, such as (tenant_id, id). */
  predicate PairLess(a: (string, string), b: (string, string)) {
    StringLess(a.0, b.0) || (a.0 == b.0 && StringLess(a.1, b.1))
  }

  lemma PairOrderIsTotal()
    ensures Total(PairLess)
  {
    StringOrderIsTotal();
  }

  /** Byte-wise order of strings; on canonical UUID text it is the order of the UUIDs. */
  predicate StringLess(a: string, b: string) {
    if b == "" then false
    else if a == "" then true
    else if a[0] != b[0] then a[0] < b[0]
    else StringLess(a[1..], b[1..])
  }

  lemma {:induction false} StringLessIrreflexive(a: string)
    ensures !StringLess(a, a)
  {
    if a != "" {
      StringLessIrreflexive(a[1..]);
    }
  }

  lemma {:induction false} StringLessConnected(a: string, b: string)
    ensures StringLess(a, b) || a == b || StringLess(b, a)
  {
    if a != "" && b != "" && a[0] == b[0] {
      StringLessConnected(a[1..], b[1..]);
      if a[1..] == b[1..] {
        assert a == [a[0]] + a[1..] && b == [b[0]] + b[1..];
      }
    }
  }

  lemma {:induction false} StringLessTransitive(a: string, b: string, c: string)
    requires StringLess(a, b) && StringLess(b, c)
    ensures StringLess(a, c)
  {
    if a != "" && a[0] == b[0] && b[0] == c[0] {
      StringLessTransitive(a[1..], b[1..], c[1..]);
    }
  }

  lemma StringOrderIsTotal()
    ensures Total(StringLess)
  {
    forall a { StringLessIrreflexive(a); }
    forall a, b { StringLessConnected(a, b); }
    forall a, b, c | StringLess(a, b) && StringLess(b, c) { StringLessTransitive(a, b, c); }
  }
}
