/**
 What inserting and deleting do to the tree and to its order
 (internal/crdt/doc.go:42-91), and the strong list order they keep.
 */
module RgaEdits {
  import opened Sequences
  import opened Ids
  import opened Rga

  /** The insertion point scan of `insertChild`: behind every child that sorts before `id`. */
  function InsertSorted(kids: seq<Id>, id: Id): (r: seq<Id>)
    ensures forall x :: x in r <==> x in kids || x == id
  {
    if kids == [] then [id]
    else if CompareSibling(kids[0], id) < 0 then [kids[0]] + InsertSorted(kids[1..], id)
    else if kids[0] == id then kids
    else [id] + kids
  }

  lemma {:induction false} InsertSortedKeepsOrder(kids: seq<Id>, id: Id)
    requires id.Atom? && SortedSiblings(kids) && forall k :: k in kids ==> k.Atom?
    ensures SortedSiblings(InsertSorted(kids, id))
    ensures id !in kids && (forall k :: k in kids ==> SibLess(id, k)) ==> InsertSorted(kids, id) == [id] + kids
  {
    if kids != [] {
      SiblingOrderTotal(kids[0], id);
      if SibLess(kids[0], id) {
        InsertSortedKeepsOrder(kids[1..], id);
        var rest := InsertSorted(kids[1..], id);
        forall x | x in rest ensures SibLess(kids[0], x) {}
      } else if kids[0] != id {
        forall j | 0 <= j < |kids| ensures SibLess(id, kids[j]) {
          if j > 0 { SiblingOrderTransitive(id, kids[0], kids[j]); }
        }
      }
    }
  }

  function InsertItem(t: Tree, id: Id, after: Id, ch: string): Tree {
    Tree(t.items[id := Item(id, after, ch, false)],
         t.children[after := InsertSorted(Kids(t, after), id)])
  }

  function Tombstone(t: Tree, id: Id): Tree
    requires id in t.items
  {
    t.(items := t.items[id := t.items[id].(deleted := true)])
  }

  lemma KidsAreAtoms(t: Tree, p: Id)
    requires Linked(t)
    ensures forall k :: k in Kids(t, p) ==> k.Atom?
  {
    forall k | k in Kids(t, p) ensures k.Atom? { assert ItemOk(t.items, k); }
  }

  // ----- agreement on parents ----------------------------------------------

  /** The two maps give every common id the same parent. */
  ghost predicate Agree(a: map<Id, Item>, b: map<Id, Item>) {
    forall k {:trigger k in a, k in b} :: k in a && k in b ==> a[k].after == b[k].after
  }

  lemma {:induction false} PathCarriesOver(a: map<Id, Item>, b: map<Id, Item>, p: seq<Id>)
    requires Root !in a && Root !in b && Agree(a, b) && Rooted(b)
    requires IsPath(a, p) && (p == [] || End(p) in b)
    ensures IsPath(b, p)
  {
    if p != [] {
      var up := p[..|p| - 1];
      var q := PathTo(b, End(p));
      PathPrefix(b, q, |q| - 1);
      assert b[End(p)].after == End(up) == End(q[..|q| - 1]);
      PathCarriesOver(a, b, up);
    }
  }

  lemma SamePath(a: map<Id, Item>, b: map<Id, Item>, k: Id)
    requires Root !in a && Root !in b && Agree(a, b) && Rooted(a) && Rooted(b)
    requires k in a && k in b
    ensures PathTo(a, k) == PathTo(b, k)
  {
    PathCarriesOver(a, b, PathTo(a, k));
    PathToIs(b, PathTo(a, k));
  }

  lemma SameBefore(a: map<Id, Item>, b: map<Id, Item>, x: Id, y: Id)
    requires Root !in a && Root !in b && Agree(a, b) && Rooted(a) && Rooted(b)
    requires x in a && x in b && y in a && y in b
    ensures Before(a, x, y) <==> Before(b, x, y)
  {
    SamePath(a, b, x);
    SamePath(a, b, y);
  }

  lemma OrderListsItems(t: Tree)
    requires WellFormed(t)
    ensures forall x :: x in Order(t) <==> x in t.items
    ensures Distinct(Order(t))
  {
    OrderIsSortedListing(t);
  }

  /** Two documents whose common items agree on parents never disagree on the order of a common pair. */
  lemma StrongListOrder(t: Tree, u: Tree, a: Id, b: Id)
    requires WellFormed(t) && WellFormed(u) && Agree(t.items, u.items)
    requires a in t.items && a in u.items && b in t.items && b in u.items
    ensures Precedes(Order(t), a, b) <==> Precedes(Order(u), a, b)
  {
    OrderListsItems(t);
    OrderListsItems(u);
    SameBefore(t.items, u.items, a, b);
    PrecedesIffBefore(t, a, b);
    PrecedesIffBefore(u, a, b);
  }

  /** A document holding some of `u`'s items lists them in `u`'s order. */
  lemma OrderOfPart(t: Tree, u: Tree)
    requires WellFormed(t) && WellFormed(u) && Agree(t.items, u.items) && t.items.Keys <= u.items.Keys
    ensures Order(t) == Filter(Order(u), t.items.Keys)
  {
    OrderIsSortedListing(u);
    var s := Filter(Order(u), t.items.Keys);
    FilterSorted(BeforeIn(u.items), Order(u), t.items.Keys);
    forall i, j | 0 <= i < j < |s| ensures BeforeIn(t.items)(s[i], s[j]) {
      assert BeforeIn(u.items)(s[i], s[j]);
      assert s[i] in s && s[j] in s;
      SameBefore(t.items, u.items, s[i], s[j]);
    }
    OrderIsUnique(t, s);
  }

  // ----- deleting -------------------------------------------------------------

  lemma TombstoneKeepsLinks(t: Tree, id: Id)
    requires Linked(t) && id in t.items
    ensures Linked(Tombstone(t, id))
  {
    var u := Tombstone(t, id);
    assert ItemOk(t.items, id);
    forall k | k in u.items ensures ItemOk(u.items, k) { assert ItemOk(t.items, k); }
    forall p ensures Kids(u, p) == Kids(t, p) && ListOk(u, p) { assert ListOk(t, p); }
    forall k | k in u.items ensures Listed(u, k) { assert Listed(t, k); }
  }

  /** A deletion hides an item and moves nothing. */
  lemma TombstoneKeepsTree(t: Tree, id: Id)
    requires WellFormed(t) && id in t.items
    ensures WellFormed(Tombstone(t, id))
    ensures Order(Tombstone(t, id)) == Order(t)
  {
    var u := Tombstone(t, id);
    TombstoneKeepsLinks(t, id);
    forall k | k in u.items ensures Connected(u.items, k) {
      SamePathsAfterRelabel(t.items, u.items, PathTo(t.items, k));
    }
    OrderOfPart(u, t);
    OrderListsItems(t);
    FilterAll(Order(t), u.items.Keys);
  }

  lemma {:induction false} SamePathsAfterRelabel(a: map<Id, Item>, b: map<Id, Item>, p: seq<Id>)
    requires a.Keys <= b.Keys && Agree(a, b) && IsPath(a, p)
    ensures IsPath(b, p)
  {
    if p != [] {
      SamePathsAfterRelabel(a, b, p[..|p| - 1]);
    }
  }

  lemma {:induction false} FilterAll(s: seq<Id>, keep: set<Id>)
    requires forall x :: x in s ==> x in keep
    ensures Filter(s, keep) == s
  {
    if s != [] { FilterAll(s[1..], keep); }
  }

  // ----- inserting ------------------------------------------------------------

  ghost predicate CanInsert(t: Tree, id: Id, after: Id, ch: string) {
    ValidId(id) && SingleCodePoint(ch) && id !in t.items && (after == Root || after in t.items)
  }

  lemma InsertKeepsLinks(t: Tree, id: Id, after: Id, ch: string)
    requires Linked(t) && CanInsert(t, id, after, ch)
    ensures Linked(InsertItem(t, id, after, ch))
  {
    var u := InsertItem(t, id, after, ch);
    forall k | k in u.items ensures ItemOk(u.items, k) {
      if k != id { assert ItemOk(t.items, k); }
    }
    assert ListOk(t, after);
    KidsAreAtoms(t, after);
    InsertSortedKeepsOrder(Kids(t, after), id);
    assert Kids(u, after) == InsertSorted(Kids(t, after), id);
    assert id in Kids(u, after);
    forall p ensures p != after ==> Kids(u, p) == Kids(t, p) ensures ListOk(u, p) { assert ListOk(t, p); }
    forall k | k in u.items ensures Listed(u, k) {
      if k != id { assert Listed(t, k); }
    }
    forall p, k | k in Kids(u, p) ensures k in u.items && u.items[k].after == p {
      if k != id { assert k in Kids(t, p); }
    }
  }

  lemma InsertKeepsTree(t: Tree, id: Id, after: Id, ch: string)
    requires WellFormed(t) && CanInsert(t, id, after, ch)
    ensures WellFormed(InsertItem(t, id, after, ch))
  {
    var u := InsertItem(t, id, after, ch);
    InsertKeepsLinks(t, id, after, ch);
    forall k | k in u.items ensures Connected(u.items, k) {
      if k == id {
        ConnectedOrRoot(t.items, after);
        var p :| IsPath(t.items, p) && End(p) == after;
        SamePathsAfterRelabel(t.items, u.items, p);
        PathExtends(u.items, p, id);
      } else {
        SamePathsAfterRelabel(t.items, u.items, PathTo(t.items, k));
      }
    }
  }

  lemma ConnectedOrRoot(items: map<Id, Item>, k: Id)
    requires Rooted(items) && (k == Root || k in items)
    ensures Connected(items, k)
  {
    if k == Root { assert IsPath(items, []) && End([]) == Root; }
  }

  /** The sequence `s` with `x` placed right behind `p`, or in front when `p` is the root. */
  function PlaceBehind(s: seq<Id>, p: Id, x: Id): seq<Id> {
    if p == Root then [x] + s else InsertBehind(s, p, x)
  }

  /** `id` would come before every present child of `after`. */
  ghost predicate Outranks(t: Tree, id: Id, after: Id) {
    forall k :: k in Kids(t, after) ==> SibLess(id, k)
  }

  /** An item that outranks its siblings stands immediately behind its parent. */
  lemma NewestStandsBehindParent(t: Tree, id: Id, after: Id, ch: string)
    requires WellFormed(t) && CanInsert(t, id, after, ch) && Outranks(t, id, after)
    ensures WellFormed(InsertItem(t, id, after, ch))
    ensures Order(InsertItem(t, id, after, ch)) == PlaceBehind(Order(t), after, id)
  {
    var u := InsertItem(t, id, after, ch);
    InsertKeepsTree(t, id, after, ch);
    OrderListsItems(t);
    OrderIsTheListing(t, Order(t));
    NewestPlaced(t, u, id, after, Order(t));
    OrderIsTheListing(u, PlaceBehind(Order(t), after, id));
  }

  lemma PlaceBehindSplits(s: seq<Id>, p: Id, x: Id) returns (n: nat)
    requires Distinct(s) && (p == Root || p in s)
    ensures n <= |s| && PlaceBehind(s, p, x) == s[..n] + [x] + s[n..]
    ensures if p == Root then n == 0 else n > 0 && s[n - 1] == p
  {
    if p == Root {
      n := 0;
    } else {
      var i :| 0 <= i < |s| && s[i] == p;
      InsertBehindAt(s, i, x);
      n := i + 1;
    }
  }

  lemma NewestPlaced(t: Tree, u: Tree, id: Id, after: Id, o: seq<Id>)
    requires AddsNewest(t, u, id, after) && Lists(t, o) && Distinct(o)
    requires after == Root || after in t.items
    ensures Lists(u, PlaceBehind(o, after, id))
  {
    var n := PlaceBehindSplits(o, after, id);
    PlacedIsSorted(t, u, id, after, o, n);
  }

  /** `u` is `t` with the newest child `id` of `after` added. */
  ghost predicate AddsNewest(t: Tree, u: Tree, id: Id, after: Id) {
    && WellFormed(t) && WellFormed(u) && Outranks(t, id, after) && Agree(t.items, u.items)
    && id !in t.items && u.items.Keys == t.items.Keys + {id} && u.items[id].after == after
  }

  lemma UpToParent(t: Tree, u: Tree, id: Id, after: Id, x: Id)
    requires AddsNewest(t, u, id, after) && x in t.items && after in t.items
    requires x == after || Before(t.items, x, after)
    ensures Before(u.items, x, id)
  {
    BeforeChild(u, id);
    if x != after {
      SameBefore(u.items, t.items, x, after);
      BeforeIsTransitive(u.items, x, after, id);
    }
  }

  /** `o` lists the items in document order. */
  ghost predicate Lists(t: Tree, o: seq<Id>) {
    SortedBy(BeforeIn(t.items), o) && forall x :: x in o <==> x in t.items
  }

  lemma OrderAt(t: Tree, o: seq<Id>, i: nat, j: nat)
    requires Lists(t, o) && i < j < |o|
    ensures o[i] in t.items && o[j] in t.items && Before(t.items, o[i], o[j])
  {
    assert BeforeIn(t.items)(o[i], o[j]);
    assert o[i] in o && o[j] in o;
  }

  lemma PlacedAgainst(t: Tree, u: Tree, id: Id, after: Id, o: seq<Id>, n: nat, j: nat)
    requires AddsNewest(t, u, id, after) && Lists(t, o) && n <= |o| && j < |o|
    requires after == Root ==> n == 0
    requires after != Root ==> n > 0 && o[n - 1] == after
    ensures if j < n then Before(u.items, o[j], id) else Before(u.items, id, o[j])
  {
    assert o[j] in o;
    if after == Root {
      BeforeSibling(t, u, id, after, o[j]);
    } else {
      assert o[n - 1] in o;
      if j < n {
        if j < n - 1 { OrderAt(t, o, j, n - 1); }
        UpToParent(t, u, id, after, o[j]);
      } else {
        OrderAt(t, o, n - 1, j);
        BeforeSibling(t, u, id, after, o[j]);
      }
    }
  }

  lemma StillBefore(t: Tree, u: Tree, id: Id, after: Id, o: seq<Id>, a: nat, b: nat)
    requires AddsNewest(t, u, id, after) && Lists(t, o) && a < b < |o|
    ensures Before(u.items, o[a], o[b])
  {
    OrderAt(t, o, a, b);
    SameBefore(u.items, t.items, o[a], o[b]);
  }

  lemma PlacedIsSorted(t: Tree, u: Tree, id: Id, after: Id, o: seq<Id>, n: nat)
    requires AddsNewest(t, u, id, after) && Lists(t, o) && n <= |o|
    requires after == Root ==> n == 0
    requires after != Root ==> n > 0 && o[n - 1] == after
    ensures Lists(u, o[..n] + [id] + o[n..])
  {
    var less := BeforeIn(u.items);
    forall a, b | 0 <= a < b < |o| ensures less(o[a], o[b]) {
      StillBefore(t, u, id, after, o, a, b);
    }
    forall j | 0 <= j < |o| ensures j < n ==> less(o[j], id) ensures n <= j ==> less(id, o[j]) {
      PlacedAgainst(t, u, id, after, o, n, j);
    }
    PlacedSorted(less, o, n, id);
  }

  lemma OrderIsTheListing(t: Tree, o: seq<Id>)
    requires WellFormed(t)
    ensures Lists(t, o) <==> o == Order(t)
  {
    OrderIsSortedListing(t);
    if Lists(t, o) { OrderIsUnique(t, o); }
  }

  lemma PlacedSorted(less: (Id, Id) -> bool, o: seq<Id>, n: nat, x: Id)
    requires n <= |o|
    requires SortedBy(less, o)
    requires forall j :: 0 <= j < n ==> less(o[j], x)
    requires forall j :: n <= j < |o| ==> less(x, o[j])
    ensures SortedBy(less, o[..n] + [x] + o[n..])
    ensures forall y :: y in o[..n] + [x] + o[n..] <==> y in o || y == x
  {
    var s := o[..n] + [x] + o[n..];
    forall a, b | 0 <= a < b < |s| ensures less(s[a], s[b]) {
      var i, j := if a < n then a else a - 1, if b < n then b else b - 1;
      assert a != n ==> s[a] == o[i];
      assert b != n ==> s[b] == o[j];
    }
    assert o == o[..n] + o[n..];
  }

  lemma BeforeChild(u: Tree, id: Id)
    requires WellFormed(u) && id in u.items && u.items[id].after in u.items
    ensures Before(u.items, u.items[id].after, id)
  {
    var a := u.items[id].after;
    PathExtends(u.items, PathTo(u.items, a), id);
    PathToIs(u.items, PathTo(u.items, a) + [id]);
    PathLessPrefix(PathTo(u.items, a), PathTo(u.items, a) + [id]);
  }

  /** Whatever follows the parent follows the parent's newest child. */
  lemma BeforeSibling(t: Tree, u: Tree, id: Id, after: Id, y: Id)
    requires WellFormed(t) && WellFormed(u) && Outranks(t, id, after)
    requires t.items.Keys < u.items.Keys && Agree(t.items, u.items)
    requires id in u.items && u.items[id].after == after && id !in t.items && y in t.items
    requires after == Root || (after in t.items && Before(t.items, after, y))
    ensures Before(u.items, id, y)
  {
    ConnectedOrRoot(t.items, after);
    var p, q := PathTo(t.items, after), PathTo(t.items, y);
    SamePathsAfterRelabel(t.items, u.items, p);
    SamePathsAfterRelabel(t.items, u.items, q);
    PathToIs(u.items, q);
    PathExtends(u.items, p, id);
    PathToIs(u.items, p + [id]);
    if after == Root { PathIsUnique(t.items, p, []); PathLessPrefix(p, q); }
    if |p| < |q| && q[..|p|] == p {
      PathPrefix(t.items, q, |p|);
      assert Listed(t, q[|p|]);
    }
    FirstChildPath(p, id, q);
  }
}
