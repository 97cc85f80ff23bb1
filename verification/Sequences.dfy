/** Facts about finite sequences that the document model leans on. */
module Sequences {

  ghost predicate Distinct<T(!new)>(s: seq<T>) {
    forall i, j :: 0 <= i < j < |s| ==> s[i] != s[j]
  }

  function Elements<T>(s: seq<T>): set<T> {
    set x | x in s
  }

  lemma ElementsCons<T>(s: seq<T>)
    requires s != []
    ensures Elements(s) == {s[0]} + Elements(s[1..])
  {
  }

  lemma HasElement<T>(s: seq<T>)
    ensures s == [] || exists x :: x in s
  {
    if s != [] { assert s[0] in s; }
  }

  /** A duplicate-free sequence is as long as its set of elements is large. */
  lemma {:induction false} DistinctCardinality<T(!new)>(s: seq<T>)
    requires Distinct(s)
    ensures |Elements(s)| == |s|
  {
    if s != [] {
      var n := |s| - 1;
      DistinctCardinality(s[..n]);
      assert Elements(s) == Elements(s[..n]) + {s[n]};
    }
  }

  lemma DistinctBound<T(!new)>(s: seq<T>, universe: set<T>)
    requires Distinct(s)
    requires forall x :: x in s ==> x in universe
    ensures |s| <= |universe|
  {
    DistinctCardinality(s);
    SubsetCardinality(Elements(s), universe);
  }

  lemma {:induction false} SubsetCardinality<T>(a: set<T>, b: set<T>)
    requires a <= b
    ensures |a| <= |b|
    ensures |a| == |b| ==> a == b
  {
    if a != {} {
      var x :| x in a;
      SubsetCardinality(a - {x}, b - {x});
      assert a == (a - {x}) + {x} && b == (b - {x}) + {x};
    }
  }

  ghost predicate SortedBy<T(!new)>(less: (T, T) -> bool, s: seq<T>) {
    forall i, j :: 0 <= i < j < |s| ==> less(s[i], s[j])
  }

  lemma SortedEmpty<T(!new)>(less: (T, T) -> bool)
    ensures SortedBy(less, [])
  {
  }

  lemma SortedCons<T(!new)>(less: (T, T) -> bool, x: T, s: seq<T>)
    requires SortedBy(less, s) && forall y :: y in s ==> less(x, y)
    ensures SortedBy(less, [x] + s)
  {
  }

  lemma SortedJoin<T(!new)>(less: (T, T) -> bool, s: seq<T>, t: seq<T>)
    requires SortedBy(less, s) && SortedBy(less, t) && forall x, y :: x in s && y in t ==> less(x, y)
    ensures SortedBy(less, s + t)
  {
  }

  /** A set has at most one listing that an asymmetric relation sorts. */
  lemma {:induction false} SortedListingIsUnique<T(!new)>(less: (T, T) -> bool, s: seq<T>, t: seq<T>)
    requires SortedBy(less, s) && SortedBy(less, t)
    requires forall x :: x in s <==> x in t
    requires forall x, y :: x in s && y in s && less(x, y) ==> !less(y, x)
    ensures s == t
  {
    if s != [] { assert s[0] in t; }
    if t != [] { assert t[0] in s; }
    if s != [] {
      assert s[0] in t;
      assert t[0] in s;
      assert s[0] == t[0];
      forall x ensures x in s[1..] <==> x in t[1..] {
        if x in s[1..] { assert x in t && less(s[0], x); assert x != t[0]; }
        if x in t[1..] { assert x in s && less(t[0], x); assert x != s[0]; }
      }
      SortedListingIsUnique(less, s[1..], t[1..]);
      assert s == [s[0]] + s[1..] && t == [t[0]] + t[1..];
    }
  }

  /** `x` stands somewhere before `y` in `s`. */
  ghost predicate Precedes<T>(s: seq<T>, x: T, y: T) {
    exists i, j :: 0 <= i < j < |s| && s[i] == x && s[j] == y
  }

  function Filter<T(!new,==)>(s: seq<T>, keep: set<T>): (r: seq<T>)
    ensures forall x :: x in r <==> x in s && x in keep
  {
    if s == [] then []
    else (if s[0] in keep then [s[0]] else []) + Filter(s[1..], keep)
  }

  lemma {:induction false} FilterSorted<T(!new)>(less: (T, T) -> bool, s: seq<T>, keep: set<T>)
    requires SortedBy(less, s)
    ensures SortedBy(less, Filter(s, keep))
  {
    if s != [] {
      FilterSorted(less, s[1..], keep);
      var rest := Filter(s[1..], keep);
      forall x | x in rest ensures less(s[0], x) { assert x in s[1..]; }
    }
  }

  /** Insertion right behind the (first) occurrence of `p`. */
  function InsertBehind<T(!new,==)>(s: seq<T>, p: T, x: T): (r: seq<T>)
    ensures forall y :: y in r <==> y in s || (y == x && p in s)
  {
    if s == [] then []
    else if s[0] == p then [p, x] + s[1..]
    else [s[0]] + InsertBehind(s[1..], p, x)
  }

  lemma {:induction false} InsertBehindAt<T(!new)>(s: seq<T>, t: nat, x: T)
    requires Distinct(s) && t < |s|
    ensures InsertBehind(s, s[t], x) == s[..t + 1] + [x] + s[t + 1..]
  {
    if t == 0 {
      assert s[..1] == [s[0]];
    } else {
      InsertBehindAt(s[1..], t - 1, x);
      assert s[1..][t - 1] == s[t];
      assert s[1..][..t] == s[1..t + 1];
      assert s[1..][t..] == s[t + 1..];
      assert [s[0]] + s[1..t + 1] == s[..t + 1];
    }
  }
}
