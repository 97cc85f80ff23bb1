/**
 The document tree of internal/crdt/doc.go as a value: items keyed by id and, for
 every parent, the sorted list of its children. Document order is recursive
 preorder from the root; it is characterised here as the listing of the connected
 items sorted by their root paths.
 */
module Rga {
  import opened Sequences
  import opened Ids

  datatype Item = Item(id: Id, after: Id, ch: string, deleted: bool)

  datatype Tree = Tree(items: map<Id, Item>, children: map<Id, seq<Id>>)

  const EMPTY := Tree(map[], map[])

  /** One code point; characters are Unicode scalar values. */
  predicate SingleCodePoint(ch: string) {
    |ch| == 1
  }

  function Kids(t: Tree, parent: Id): seq<Id> {
    if parent in t.children then t.children[parent] else []
  }

  ghost predicate SortedSiblings(kids: seq<Id>) {
    forall i, j :: 0 <= i < j < |kids| ==> SibLess(kids[i], kids[j])
  }

  ghost predicate ItemOk(items: map<Id, Item>, k: Id)
    requires k in items
  {
    var item := items[k];
    ValidId(k) && item.id == k && SingleCodePoint(item.ch)
  }

  ghost predicate ItemsOk(items: map<Id, Item>) {
    Root !in items && forall k {:trigger ItemOk(items, k)} :: k in items ==> ItemOk(items, k)
  }

  ghost predicate ParentKnown(items: map<Id, Item>, k: Id)
    requires k in items
  {
    items[k].after == Root || items[k].after in items
  }

  /** Stated behind a trigger of its own: following parents would not stop. */
  ghost predicate ParentsKnown(items: map<Id, Item>) {
    forall k {:trigger ParentKnown(items, k)} :: k in items ==> ParentKnown(items, k)
  }

  ghost predicate ListOk(t: Tree, p: Id) {
    p in t.children ==> t.children[p] != [] && SortedSiblings(t.children[p])
  }

  ghost predicate Listed(t: Tree, k: Id)
    requires k in t.items
  {
    k in Kids(t, t.items[k].after)
  }

  /**
   The child lists are exactly the sorted lists of the items that name each parent.
   The explicit triggers keep each part out of proofs that do not mention it.
   */
  ghost predicate Linked(t: Tree) {
    && ItemsOk(t.items)
    && (forall p {:trigger ListOk(t, p)} :: ListOk(t, p))
    && (forall k {:trigger Listed(t, k)} :: k in t.items ==> Listed(t, k))
    && (forall p, k :: k in Kids(t, p) ==> k in t.items && t.items[k].after == p)
  }

  lemma {:induction false} SortedSiblingsUnique(a: seq<Id>, b: seq<Id>)
    requires SortedSiblings(a) && SortedSiblings(b)
    requires forall x :: x in a <==> x in b
    ensures a == b
  {
    var less := (x: Id, y: Id) => SibLess(x, y);
    forall x, y | less(x, y) ensures !less(y, x) { SiblingOrderTotal(x, y); }
    SortedListingIsUnique(less, a, b);
  }

  /** The child lists carry no information of their own: the items determine them. */
  lemma LinksAreDetermined(t: Tree, u: Tree)
    requires Linked(t) && Linked(u) && t.items == u.items
    ensures t == u
  {
    forall p ensures Kids(t, p) == Kids(u, p) {
      forall x ensures x in Kids(t, p) <==> x in Kids(u, p) {
        assert x in Kids(t, p) ==> Listed(u, x);
        assert x in Kids(u, p) ==> Listed(t, x);
      }
      assert ListOk(t, p) && ListOk(u, p);
      SortedSiblingsUnique(Kids(t, p), Kids(u, p));
    }
    forall p ensures p in t.children <==> p in u.children {
      assert Kids(t, p) == Kids(u, p);
      assert ListOk(t, p) && ListOk(u, p);
    }
    assert t.children.Keys == u.children.Keys;
    forall p | p in t.children ensures t.children[p] == u.children[p] {
      assert Kids(t, p) == Kids(u, p);
    }
  }

  // ----- root paths ---------------------------------------------------------

  function End(p: seq<Id>): Id {
    if p == [] then Root else p[|p| - 1]
  }

  /** `p` climbs down from the root along `after` links; the empty path ends at the root. */
  ghost predicate IsPath(items: map<Id, Item>, p: seq<Id>) {
    p == [] ||
    (End(p) in items && items[End(p)].after == End(p[..|p| - 1]) && IsPath(items, p[..|p| - 1]))
  }

  ghost predicate Connected(items: map<Id, Item>, k: Id) {
    exists p :: IsPath(items, p) && End(p) == k
  }

  /** Every item hangs, through known parents, from the root. */
  ghost predicate Rooted(items: map<Id, Item>) {
    forall k {:trigger Connected(items, k)} :: k in items ==> Connected(items, k)
  }

  ghost predicate WellFormed(t: Tree) {
    Linked(t) && Rooted(t.items)
  }

  lemma {:induction false} PathIsUnique(items: map<Id, Item>, p: seq<Id>, q: seq<Id>)
    requires Root !in items
    requires IsPath(items, p) && IsPath(items, q) && End(p) == End(q)
    ensures p == q
  {
    if p != [] && q != [] {
      PathIsUnique(items, p[..|p| - 1], q[..|q| - 1]);
      assert p == p[..|p| - 1] + [End(p)] && q == q[..|q| - 1] + [End(q)];
    }
  }

  lemma {:induction false} PathPrefix(items: map<Id, Item>, p: seq<Id>, n: nat)
    requires IsPath(items, p) && n <= |p|
    ensures IsPath(items, p[..n])
    ensures n < |p| ==> p[n] in items && items[p[n]].after == End(p[..n])
  {
    if n < |p| - 1 {
      PathPrefix(items, p[..|p| - 1], n);
      assert p[..|p| - 1][..n] == p[..n];
    } else if n == |p| {
      assert p[..n] == p;
    }
  }

  lemma PathIsDistinct(items: map<Id, Item>, p: seq<Id>)
    requires Root !in items && IsPath(items, p)
    ensures Distinct(p)
    ensures |p| <= |items|
    ensures Root !in p
  {
    forall i, j | 0 <= i < j < |p| ensures p[i] != p[j] {
      if p[i] == p[j] {
        PathPrefix(items, p, i + 1);
        PathPrefix(items, p, j + 1);
        assert |p[..i + 1]| == i + 1;
        PathIsUnique(items, p[..i + 1], p[..j + 1]);
      }
    }
    forall x | x in p ensures x in items {
      var i :| 0 <= i < |p| && p[i] == x;
      PathPrefix(items, p, i);
    }
    DistinctBound(p, items.Keys);
  }

  lemma PathExtends(items: map<Id, Item>, p: seq<Id>, k: Id)
    requires IsPath(items, p) && k in items && items[k].after == End(p)
    ensures IsPath(items, p + [k]) && End(p + [k]) == k
  {
    assert (p + [k])[..|p|] == p;
  }

  /** The path of a connected id; unique when the root is not an item. */
  ghost function PathTo(items: map<Id, Item>, k: Id): (p: seq<Id>)
    requires Connected(items, k)
    ensures IsPath(items, p) && End(p) == k
  {
    var p :| IsPath(items, p) && End(p) == k;
    p
  }

  lemma PathToIs(items: map<Id, Item>, p: seq<Id>)
    requires Root !in items && IsPath(items, p)
    ensures Connected(items, End(p)) && PathTo(items, End(p)) == p
  {
    PathIsUnique(items, p, PathTo(items, End(p)));
  }

  /** `a` stands before `b`: decided by their root paths alone. */
  ghost predicate Before(items: map<Id, Item>, a: Id, b: Id) {
    Connected(items, a) && Connected(items, b) && PathLess(PathTo(items, a), PathTo(items, b))
  }

  lemma BeforeIsAsymmetric(items: map<Id, Item>, a: Id, b: Id)
    ensures !(Before(items, a, b) && Before(items, b, a))
  {
    if Before(items, a, b) && Before(items, b, a) {
      PathLessAsymmetric(PathTo(items, a), PathTo(items, b));
    }
  }

  lemma BeforeIsTransitive(items: map<Id, Item>, a: Id, b: Id, c: Id)
    requires Before(items, a, b) && Before(items, b, c)
    ensures Before(items, a, c)
  {
    PathLessTransitive(PathTo(items, a), PathTo(items, b), PathTo(items, c));
  }

  lemma BeforeIsTotal(items: map<Id, Item>, a: Id, b: Id)
    requires Root !in items && Connected(items, a) && Connected(items, b) && a != b
    ensures Before(items, a, b) || Before(items, b, a)
  {
    PathIsDistinct(items, PathTo(items, a));
    PathIsDistinct(items, PathTo(items, b));
    PathLessTotal(PathTo(items, a), PathTo(items, b));
  }

  ghost function BeforeIn(items: map<Id, Item>): (Id, Id) -> bool {
    (a: Id, b: Id) => Before(items, a, b)
  }

  // ----- recursive preorder -------------------------------------------------

  ghost predicate AreKids(t: Tree, prefix: seq<Id>, kids: seq<Id>) {
    IsPath(t.items, prefix) && forall k :: k in kids ==> k in t.items && t.items[k].after == End(prefix)
  }

  lemma Descend(t: Tree, prefix: seq<Id>, kids: seq<Id>)
    requires Linked(t) && kids != [] && AreKids(t, prefix, kids)
    ensures AreKids(t, prefix + [kids[0]], Kids(t, kids[0]))
    ensures AreKids(t, prefix, kids[1..])
    ensures |prefix| < |t.items|
  {
    assert kids[0] in kids;
    PathExtends(t.items, prefix, kids[0]);
    PathIsDistinct(t.items, prefix + [kids[0]]);
  }

  /** Preorder of the subtrees of `kids`, children of the end of `prefix`. */
  ghost function Forest(t: Tree, prefix: seq<Id>, kids: seq<Id>): seq<Id>
    requires Linked(t) && AreKids(t, prefix, kids)
    decreases |t.items| - |prefix|, |kids|
  {
    if kids == [] then [] else
      Descend(t, prefix, kids);
      [kids[0]] + Forest(t, prefix + [kids[0]], Kids(t, kids[0])) + Forest(t, prefix, kids[1..])
  }

  /** The document order: recursive preorder from the root. */
  ghost function Order(t: Tree): seq<Id>
    requires Linked(t)
  {
    Forest(t, [], Kids(t, Root))
  }

  /** `x` lies in the subtree of one of `kids`. */
  ghost predicate Under(t: Tree, prefix: seq<Id>, kids: seq<Id>, x: Id) {
    Connected(t.items, x) &&
    var p := PathTo(t.items, x);
    |prefix| < |p| && p[..|prefix|] == prefix && p[|prefix|] in kids
  }

  /** `x` lies in the subtree of the first of `kids`. */
  ghost predicate UnderFirst(t: Tree, prefix: seq<Id>, kids: seq<Id>, x: Id)
    requires kids != []
  {
    Connected(t.items, x) &&
    var p := PathTo(t.items, x);
    |prefix| < |p| && p[..|prefix|] == prefix && p[|prefix|] == kids[0]
  }

  lemma UnderChild(t: Tree, prefix: seq<Id>, kids: seq<Id>, x: Id)
    requires Linked(t) && kids != [] && AreKids(t, prefix, kids)
    requires Under(t, prefix + [kids[0]], Kids(t, kids[0]), x)
    ensures Under(t, prefix, kids, x)
    ensures Before(t.items, kids[0], x) && UnderFirst(t, prefix, kids, x)
  {
    var p, p' := PathTo(t.items, x), prefix + [kids[0]];
    assert p[..|prefix|] == p'[..|prefix|] == prefix;
    assert p[|prefix|] == p[..|p'|][|prefix|] == p'[|prefix|];
    PathExtends(t.items, prefix, kids[0]);
    PathToIs(t.items, p');
    PathLessPrefix(p', p);
  }

  lemma UnderOrdered(t: Tree, prefix: seq<Id>, kids: seq<Id>, x: Id, y: Id)
    requires Linked(t) && kids != [] && SortedSiblings(kids) && AreKids(t, prefix, kids)
    requires UnderFirst(t, prefix, kids, x) && Under(t, prefix, kids[1..], y)
    ensures Before(t.items, x, y)
  {
    var p, q := PathTo(t.items, x), PathTo(t.items, y);
    SiblingOrderTotal(p[|prefix|], q[|prefix|]);
    PathLessFork(p, q, |prefix|);
  }

  lemma FirstIsUnder(t: Tree, prefix: seq<Id>, kids: seq<Id>)
    requires Linked(t) && kids != [] && AreKids(t, prefix, kids)
    ensures UnderFirst(t, prefix, kids, kids[0])
  {
    assert kids[0] in kids;
    PathExtends(t.items, prefix, kids[0]);
    PathToIs(t.items, prefix + [kids[0]]);
    assert (prefix + [kids[0]])[..|prefix|] == prefix;
  }

  lemma {:induction false} ForestUnder(t: Tree, prefix: seq<Id>, kids: seq<Id>)
    requires Linked(t) && AreKids(t, prefix, kids)
    ensures forall x :: x in Forest(t, prefix, kids) ==> Under(t, prefix, kids, x)
    decreases |t.items| - |prefix|, |kids|
  {
    hide Before, IsPath, Connected;
    if kids != [] {
      Descend(t, prefix, kids);
      var below, rest := Forest(t, prefix + [kids[0]], Kids(t, kids[0])), Forest(t, prefix, kids[1..]);
      ForestUnder(t, prefix + [kids[0]], Kids(t, kids[0]));
      ForestUnder(t, prefix, kids[1..]);
      FirstIsUnder(t, prefix, kids);
      forall x | x in below ensures Under(t, prefix, kids, x) { UnderChild(t, prefix, kids, x); }
    }
  }

  lemma {:induction false} ForestSorted(t: Tree, prefix: seq<Id>, kids: seq<Id>)
    requires Linked(t) && AreKids(t, prefix, kids) && SortedSiblings(kids)
    ensures SortedBy(BeforeIn(t.items), Forest(t, prefix, kids))
    decreases |t.items| - |prefix|, |kids|
  {
    hide Before, IsPath, Connected, Under, SortedBy;
    if kids == [] {
      SortedEmpty(BeforeIn(t.items));
    } else {
      var k, p' := kids[0], prefix + [kids[0]];
      Descend(t, prefix, kids);
      assert ListOk(t, k);
      var below, rest := Forest(t, p', Kids(t, k)), Forest(t, prefix, kids[1..]);
      ForestSorted(t, p', Kids(t, k));
      ForestSorted(t, prefix, kids[1..]);
      ForestUnder(t, p', Kids(t, k));
      ForestUnder(t, prefix, kids[1..]);
      FirstIsUnder(t, prefix, kids);
      forall x | x in below
        ensures BeforeIn(t.items)(k, x) && UnderFirst(t, prefix, kids, x)
      {
        UnderChild(t, prefix, kids, x);
      }
      SortedCons(BeforeIn(t.items), k, below);
      forall x, y | x in [k] + below && y in rest
        ensures BeforeIn(t.items)(x, y)
      {
        UnderOrdered(t, prefix, kids, x, y);
      }
      SortedJoin(BeforeIn(t.items), [k] + below, rest);
    }
  }

  lemma {:induction false} ForestComplete(t: Tree, prefix: seq<Id>, kids: seq<Id>, q: seq<Id>)
    requires Linked(t) && AreKids(t, prefix, kids)
    requires IsPath(t.items, q) && |prefix| < |q| && q[..|prefix|] == prefix && q[|prefix|] in kids
    ensures End(q) in Forest(t, prefix, kids)
    decreases |t.items| - |prefix|, |kids|
  {
    var k, n := kids[0], |prefix|;
    Descend(t, prefix, kids);
    if q[n] != k {
      ForestComplete(t, prefix, kids[1..], q);
    } else if n + 1 < |q| {
      PathPrefix(t.items, q, n + 1);
      assert q[..n + 1] == prefix + [k] && Listed(t, q[n + 1]);
      ForestComplete(t, prefix + [k], Kids(t, k), q);
    }
  }

  /** The recursive preorder lists exactly the items connected to the root, sorted by root path. */
  lemma OrderIsSortedListing(t: Tree)
    requires Linked(t)
    ensures SortedBy(BeforeIn(t.items), Order(t))
    ensures forall x :: x in Order(t) <==> x in t.items && Connected(t.items, x)
    ensures Distinct(Order(t))
  {
    var kids := Kids(t, Root);
    assert ListOk(t, Root);
    ForestSorted(t, [], kids);
    ForestUnder(t, [], kids);
    forall x | x in Order(t) ensures x in t.items && Connected(t.items, x) {
      assert Under(t, [], kids, x);
      PathPrefix(t.items, PathTo(t.items, x), |PathTo(t.items, x)|);
    }
    forall x | x in t.items && Connected(t.items, x) ensures x in Order(t) {
      var q := PathTo(t.items, x);
      assert q != [];
      PathPrefix(t.items, q, 0);
      assert q[..0] == [] && Listed(t, q[0]);
      ForestComplete(t, [], kids, q);
    }
    forall i, j | 0 <= i < j < |Order(t)| ensures Order(t)[i] != Order(t)[j] {
      assert BeforeIn(t.items)(Order(t)[i], Order(t)[j]);
      BeforeIsAsymmetric(t.items, Order(t)[i], Order(t)[j]);
    }
  }

  /** Any listing of the connected items that root paths sort is the document order. */
  lemma OrderIsUnique(t: Tree, s: seq<Id>)
    requires Linked(t)
    requires SortedBy(BeforeIn(t.items), s)
    requires forall x :: x in s <==> x in t.items && Connected(t.items, x)
    ensures s == Order(t)
  {
    OrderIsSortedListing(t);
    forall x, y | BeforeIn(t.items)(x, y) ensures !BeforeIn(t.items)(y, x) {
      BeforeIsAsymmetric(t.items, x, y);
    }
    SortedListingIsUnique(BeforeIn(t.items), s, Order(t));
  }

  /** Parents stand before their children. */
  lemma ParentsComeFirst(t: Tree, x: Id)
    requires Linked(t) && x in Order(t) && x in t.items && t.items[x].after != Root
    ensures Precedes(Order(t), t.items[x].after, x)
  {
    OrderIsSortedListing(t);
    var p, a := PathTo(t.items, x), t.items[x].after;
    var up := p[..|p| - 1];
    PathPrefix(t.items, p, |p| - 1);
    PathToIs(t.items, up);
    PathLessPrefix(up, p);
    PrecedesIffBefore(t, a, x);
  }

  lemma PrecedesIffBefore(t: Tree, a: Id, b: Id)
    requires Linked(t) && a in Order(t) && b in Order(t)
    ensures Precedes(Order(t), a, b) <==> Before(t.items, a, b)
  {
    OrderIsSortedListing(t);
    var o := Order(t);
    var i :| 0 <= i < |o| && o[i] == a;
    var j :| 0 <= j < |o| && o[j] == b;
    if i < j {
      assert BeforeIn(t.items)(o[i], o[j]);
    } else {
      assert i > j ==> BeforeIn(t.items)(o[j], o[i]);
      BeforeIsAsymmetric(t.items, a, b);
    }
  }
}
