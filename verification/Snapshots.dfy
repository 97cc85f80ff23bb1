/**
 Rebuilding a document: from an item list (internal/crdt/doc.go:188-218), from a
 text (236-255), and the elision of chains (143-184) that wire and disk rely on.
 */
module Snapshots {
  import opened Sequences
  import opened Ids
  import opened Rga
  import opened RgaEdits
  import opened Ops
  import opened Views

  datatype Loaded<+T> = Ok(value: T) | Failed(error: Error)

  // ----- item lists -------------------------------------------------------------

  function Register(known: map<Id, Item>, list: seq<Item>): Loaded<map<Id, Item>>
    decreases |list|
  {
    if list == [] then Ok(known)
    else if list[0].id == Root then Failed(EmptyId)
    else if !ValidId(list[0].id) then Failed(InvalidId)
    else if !SingleCodePoint(list[0].ch) then Failed(NotOneCodePoint)
    else if list[0].id in known then Failed(DuplicateId)
    else Register(known[list[0].id := list[0]], list[1..])
  }

  function LinkChild(t: Tree, item: Item): Tree {
    t.(children := t.children[item.after := InsertSorted(Kids(t, item.after), item.id)])
  }

  function LinkAll(t: Tree, list: seq<Item>): Loaded<Tree>
    decreases |list|
  {
    if list == [] then Ok(t)
    else if list[0].after != Root && list[0].after !in t.items then Failed(UnknownParent)
    else LinkAll(LinkChild(t, list[0]), list[1..])
  }

  function FromItems(list: seq<Item>): Loaded<Tree> {
    match Register(map[], list)
    case Failed(e) => Failed(e)
    case Ok(items) => LinkAll(Tree(items, map[]), list)
  }

  ghost predicate DistinctIds(list: seq<Item>) {
    forall i, j :: 0 <= i < j < |list| ==> list[i].id != list[j].id
  }

  ghost predicate GoodItem(item: Item) {
    ValidId(item.id) && SingleCodePoint(item.ch)
  }

  /** `items` holds the entries of `list` on top of `base`. */
  ghost predicate Registers(base: map<Id, Item>, list: seq<Item>, items: map<Id, Item>) {
    && (forall k :: k in base ==> k in items && items[k] == base[k])
    && (forall i :: 0 <= i < |list| ==> list[i].id in items && items[list[i].id] == list[i])
    && (forall k :: k in items && k !in base ==> exists i :: 0 <= i < |list| && list[i].id == k)
  }

  /** Good items under distinct ids that `base` does not have. */
  ghost predicate NewList(base: map<Id, Item>, list: seq<Item>) {
    DistinctIds(list) && forall i :: 0 <= i < |list| ==> GoodItem(list[i]) && list[i].id !in base
  }

  lemma NewListCons(base: map<Id, Item>, list: seq<Item>)
    requires list != [] && GoodItem(list[0]) && list[0].id !in base
    ensures NewList(base, list) <==> NewList(base[list[0].id := list[0]], list[1..])
  {
    var item, rest := list[0], list[1..];
    assert forall i :: 0 < i < |list| ==> list[i] == rest[i - 1];
    assert forall i :: 0 <= i < |rest| ==> rest[i] == list[i + 1];
    if NewList(base, list) {
      forall i | 0 <= i < |rest| ensures rest[i].id !in base[item.id := item] { assert list[0].id != list[i + 1].id; }
    }
  }

  lemma {:induction false} RegisterExact(base: map<Id, Item>, list: seq<Item>)
    ensures Register(base, list).Ok? <==> NewList(base, list)
    ensures Register(base, list).Ok? ==> Registers(base, list, Register(base, list).value)
    decreases |list|
  {
    if list != [] {
      var item, rest := list[0], list[1..];
      if GoodItem(item) && item.id !in base {
        RegisterExact(base[item.id := item], rest);
        NewListCons(base, list);
      }
    }
  }

  /** The ids in `done` are linked; the others are not yet. */
  ghost predicate PartLinked(t: Tree, done: set<Id>) {
    && (forall p {:trigger ListOk(t, p)} :: ListOk(t, p))
    && done <= t.items.Keys && (forall k {:trigger Listed(t, k)} :: k in done ==> Listed(t, k))
    && (forall p, k :: k in Kids(t, p) ==> k in done && k in t.items && t.items[k].after == p)
  }

  lemma LinkChildStep(t: Tree, done: set<Id>, item: Item)
    requires ItemsOk(t.items) && PartLinked(t, done)
    requires item.id in t.items && t.items[item.id] == item && item.id !in done
    ensures PartLinked(LinkChild(t, item), done + {item.id})
  {
    var u := LinkChild(t, item);
    assert ListOk(t, item.after) && ItemOk(t.items, item.id);
    forall k | k in Kids(t, item.after) ensures k.Atom? { assert ItemOk(t.items, k); }
    InsertSortedKeepsOrder(Kids(t, item.after), item.id);
    assert Kids(u, item.after) == InsertSorted(Kids(t, item.after), item.id);
    assert item.id in Kids(u, item.after);
    forall p ensures (p != item.after ==> Kids(u, p) == Kids(t, p)) && ListOk(u, p) { assert ListOk(t, p); }
    forall k | k in done + {item.id} ensures k in u.items && Listed(u, k) {
      if k != item.id {
        assert k in done;
        LinkedStays(t, u, done, k);
      }
    }
  }

  lemma LinkedStays(t: Tree, u: Tree, done: set<Id>, k: Id)
    requires PartLinked(t, done) && k in done && u.items == t.items
    requires forall p, x :: x in Kids(t, p) ==> x in Kids(u, p)
    ensures k in u.items && Listed(u, k)
  {
    assert k in t.items && Listed(t, k);
  }

  function IdsOf(list: seq<Item>): set<Id> {
    if list == [] then {} else {list[0].id} + IdsOf(list[1..])
  }

  lemma {:induction false} IdsOfHolds(list: seq<Item>, k: Id)
    ensures k in IdsOf(list) <==> exists i :: 0 <= i < |list| && list[i].id == k
  {
    if list != [] {
      IdsOfHolds(list[1..], k);
      if i :| 0 <= i < |list| && list[i].id == k {
        assert i > 0 ==> list[1..][i - 1].id == k;
      }
      if i :| 0 <= i < |list[1..]| && list[1..][i].id == k {
        assert list[i + 1].id == k;
      }
    }
  }

  lemma {:induction false} LinkAllExact(t: Tree, done: set<Id>, list: seq<Item>)
    requires ItemsOk(t.items) && PartLinked(t, done) && DistinctIds(list)
    requires forall i :: 0 <= i < |list| ==>
      list[i].id in t.items && t.items[list[i].id] == list[i] && list[i].id !in done
    ensures LinkAll(t, list).Ok? <==> forall i :: 0 <= i < |list| ==> list[i].after == Root || list[i].after in t.items
    ensures LinkAll(t, list).Ok? ==>
      LinkAll(t, list).value.items == t.items &&
      PartLinked(LinkAll(t, list).value, done + IdsOf(list))
    decreases |list|
  {
    if list == [] {
      assert done + IdsOf(list) == done;
    } else if list[0].after == Root || list[0].after in t.items {
      var rest, done' := list[1..], done + {list[0].id};
      LinkChildStep(t, done, list[0]);
      forall i | 0 <= i < |rest| ensures rest[i] == list[i + 1] && rest[i].id !in done' {
        assert list[0].id != list[i + 1].id;
      }
      LinkAllExact(LinkChild(t, list[0]), done', rest);
      assert forall i :: 0 < i < |list| ==> list[i] == rest[i - 1];
      assert done' + IdsOf(rest) == done + IdsOf(list);
    }
  }

  ghost predicate HasParent(list: seq<Item>, item: Item) {
    item.after == Root || exists j :: 0 <= j < |list| && list[j].id == item.after
  }

  /**
   `FromItems` accepts exactly the lists of good, distinct items with known parents,
   in any order and even with parent cycles, and links every item under its parent.
   */
  lemma FromItemsExact(list: seq<Item>)
    ensures FromItems(list).Ok? <==>
      DistinctIds(list) && forall i :: 0 <= i < |list| ==> GoodItem(list[i]) && HasParent(list, list[i])
    ensures FromItems(list).Ok? ==>
      Linked(FromItems(list).value) && ParentsKnown(FromItems(list).value.items) &&
      Registers(map[], list, FromItems(list).value.items)
  {
    RegisterExact(map[], list);
    if Register(map[], list).Ok? {
      var items := Register(map[], list).value;
      RegisteredItemsOk(list, items);
      LinkAllExact(Tree(items, map[]), {}, list);
      forall i | 0 <= i < |list|
        ensures HasParent(list, list[i]) <==> list[i].after == Root || list[i].after in items
      {}
      if FromItems(list).Ok? {
        forall k | k in items ensures k in {} + IdsOf(list) { IdsOfHolds(list, k); }
        PartLinkedIsLinked(FromItems(list).value, {} + IdsOf(list));
        RegisteredParents(list, items);
      }
    }
  }

  lemma {:induction false} RegisterStops(base: map<Id, Item>, list: seq<Item>, n: nat)
    requires n < |list| && NewList(base, list[..n])
    requires !GoodItem(list[n]) || list[n].id in base || exists i :: 0 <= i < n && list[i].id == list[n].id
    ensures Register(base, list) == Failed(
      if list[n].id == Root then EmptyId else if !ValidId(list[n].id) then InvalidId
      else if |list[n].ch| != 1 then NotOneCodePoint else DuplicateId)
    decreases n
  {
    if n > 0 {
      var item := list[0];
      assert list[..n][0] == item && list[..n][1..] == list[1..][..n - 1];
      NewListCons(base, list[..n]);
      if i :| 0 <= i < n && list[i].id == list[n].id { assert i > 0 ==> list[1..][i - 1] == list[i]; }
      RegisterStops(base[item.id := item], list[1..], n - 1);
    }
  }

  /**
   Why a list is refused: for the first entry that is malformed or repeats an id, whatever
   the parents are; if there is none, for a parent that no entry has.
   */
  lemma FromItemsRefuses(list: seq<Item>, n: nat)
    requires n < |list|
    ensures DistinctIds(list[..n]) && (forall i :: 0 <= i < n ==> GoodItem(list[i])) &&
            (!GoodItem(list[n]) || exists i :: 0 <= i < n && list[i].id == list[n].id) ==>
      FromItems(list) == Failed(
        if list[n].id == Root then EmptyId else if !ValidId(list[n].id) then InvalidId
        else if |list[n].ch| != 1 then NotOneCodePoint else DuplicateId)
    ensures DistinctIds(list) && (forall i :: 0 <= i < |list| ==> GoodItem(list[i])) && !HasParent(list, list[n]) ==>
      FromItems(list) == Failed(UnknownParent)
  {
    if DistinctIds(list[..n]) && (forall i :: 0 <= i < n ==> GoodItem(list[i])) &&
       (!GoodItem(list[n]) || exists i :: 0 <= i < n && list[i].id == list[n].id)
    {
      RegisterStops(map[], list, n);
    }
    if DistinctIds(list) && (forall i :: 0 <= i < |list| ==> GoodItem(list[i])) && !HasParent(list, list[n]) {
      RegisterExact(map[], list);
      FromItemsExact(list);
      LinkAllFails(Tree(Register(map[], list).value, map[]), list);
    }
  }

  lemma {:induction false} LinkAllFails(t: Tree, list: seq<Item>)
    ensures LinkAll(t, list).Failed? ==> LinkAll(t, list).error == UnknownParent
    decreases |list|
  {
    if list != [] { LinkAllFails(LinkChild(t, list[0]), list[1..]); }
  }

  lemma PartLinkedIsLinked(u: Tree, done: set<Id>)
    requires ItemsOk(u.items) && PartLinked(u, done) && u.items.Keys <= done
    ensures Linked(u)
  {
  }

  lemma RegisteredParents(list: seq<Item>, items: map<Id, Item>)
    requires Registers(map[], list, items)
    requires forall i :: 0 <= i < |list| ==> list[i].after == Root || list[i].after in items
    ensures ParentsKnown(items)
  {
    forall k | k in items ensures ParentKnown(items, k) {
      var i :| 0 <= i < |list| && list[i].id == k;
    }
  }

  lemma RegisteredItemsOk(list: seq<Item>, items: map<Id, Item>)
    requires Registers(map[], list, items)
    requires forall i :: 0 <= i < |list| ==> GoodItem(list[i])
    ensures ItemsOk(items)
  {
    forall k | k in items ensures ItemOk(items, k) && k != Root {
      var i :| 0 <= i < |list| && list[i].id == k;
      assert GoodItem(list[i]);
    }
  }

  /** `list` holds the items of `t`, each once. */
  ghost predicate Enumerates(list: seq<Item>, t: Tree) {
    DistinctIds(list) && forall x :: x in list <==> x.id in t.items && t.items[x.id] == x
  }

  lemma PermutationEnumerates(t: Tree, list: seq<Item>)
    requires WellFormed(t) && multiset(list) == multiset(Listing(t))
    ensures Enumerates(list, t)
  {
    forall x ensures x in list <==> x.id in t.items && t.items[x.id] == x {
      assert x in list <==> x in multiset(list);
      assert x in Listing(t) <==> x in multiset(Listing(t));
      ListingHolds(t, x);
    }
    forall i, j | 0 <= i < j < |list| ensures list[i].id != list[j].id {
      assert list[i] in list && list[j] in list;
      if list[i] == list[j] {
        ListingOnce(t, list[i]);
        TwiceIsTwo(list, i, j);
      }
    }
  }

  lemma EnumeratedIsAccepted(t: Tree, list: seq<Item>, i: nat)
    requires WellFormed(t) && Enumerates(list, t) && i < |list|
    ensures GoodItem(list[i]) && HasParent(list, list[i])
  {
    var item := list[i];
    assert item in list && ItemOk(t.items, item.id);
    if item.after != Root {
      RootedParents(t.items, item.id);
      assert ItemOk(t.items, item.after) && t.items[item.after] in list;
    }
  }

  lemma RegisteredIsEnumerated(t: Tree, list: seq<Item>, items: map<Id, Item>)
    requires WellFormed(t) && Enumerates(list, t) && Registers(map[], list, items)
    ensures items == t.items
  {
    forall k | k in items ensures k in t.items && items[k] == t.items[k] {
      var i :| 0 <= i < |list| && list[i].id == k;
      assert list[i] in list;
    }
    forall k | k in t.items ensures k in items {
      assert ItemOk(t.items, k) && t.items[k] in list;
    }
  }

  /** `FromItems` of the items of a document, shuffled in any way, is the document. */
  lemma RebuildFromAnyPermutation(t: Tree, list: seq<Item>)
    requires WellFormed(t) && multiset(list) == multiset(Listing(t))
    ensures FromItems(list) == Ok(t)
  {
    PermutationEnumerates(t, list);
    forall i | 0 <= i < |list| ensures GoodItem(list[i]) && HasParent(list, list[i]) {
      EnumeratedIsAccepted(t, list, i);
    }
    FromItemsExact(list);
    RegisteredIsEnumerated(t, list, FromItems(list).value.items);
    LinksAreDetermined(FromItems(list).value, t);
  }

  lemma RootedParents(items: map<Id, Item>, k: Id)
    requires Rooted(items) && Root !in items && k in items
    ensures ParentKnown(items, k)
  {
    assert Connected(items, k);
    var p := PathTo(items, k);
    var up := p[..|p| - 1];
    assert IsPath(items, up) && items[k].after == End(up);
    assert up == [] || End(up) in items;
  }

  lemma ListingHolds(t: Tree, x: Item)
    requires WellFormed(t)
    ensures x in Listing(t) <==> x.id in t.items && t.items[x.id] == x
  {
    OrderListsItems(t);
    var o := Order(t);
    if x in Listing(t) {
      var i :| 0 <= i < |o| && Listing(t)[i] == x;
      assert o[i] in o;
      assert ItemOk(t.items, o[i]);
    }
    if x.id in t.items && t.items[x.id] == x {
      assert x.id in o;
      var i :| 0 <= i < |o| && o[i] == x.id;
      assert Listing(t)[i] == x;
    }
  }

  lemma ListingOnce(t: Tree, x: Item)
    requires WellFormed(t)
    ensures multiset(Listing(t))[x] <= 1
  {
    OrderListsItems(t);
    var o, all := Order(t), Listing(t);
    forall i, j | 0 <= i < j < |all| ensures all[i] != all[j] {
      assert o[i] in o && o[j] in o;
      assert ItemOk(t.items, o[i]) && ItemOk(t.items, o[j]);
    }
    DistinctCountsOnce(all, x);
  }

  lemma {:induction false} DistinctCountsOnce<T(!new)>(s: seq<T>, x: T)
    requires Distinct(s)
    ensures multiset(s)[x] <= 1
  {
    if s != [] {
      DistinctCountsOnce(s[1..], x);
      assert s == [s[0]] + s[1..];
      if x == s[0] { assert x !in s[1..]; }
    }
  }

  lemma TwiceIsTwo<T>(s: seq<T>, i: nat, j: nat)
    requires i < j < |s| && s[i] == s[j]
    ensures multiset(s)[s[i]] >= 2
  {
    assert s == s[..j] + [s[j]] + s[j + 1..];
    assert s[i] in s[..j];
  }
}
