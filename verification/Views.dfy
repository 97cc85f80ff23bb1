/** What a document shows: visible ids, text and item listing, all read off the document order. */
module Views {
  import opened Sequences
  import opened Ids
  import opened Rga

  predicate Alive(items: map<Id, Item>, id: Id) {
    id in items && !items[id].deleted
  }

  function VisibleOf(items: map<Id, Item>, ids: seq<Id>): seq<Id> {
    if ids == [] then []
    else (if Alive(items, ids[0]) then [ids[0]] else []) + VisibleOf(items, ids[1..])
  }

  function TextOf(items: map<Id, Item>, ids: seq<Id>): string {
    if ids == [] then ""
    else (if Alive(items, ids[0]) then items[ids[0]].ch else "") + TextOf(items, ids[1..])
  }

  function ItemsAt(items: map<Id, Item>, ids: seq<Id>): seq<Item>
    requires forall k :: k in ids ==> k in items
  {
    seq(|ids|, i requires 0 <= i < |ids| => items[ids[i]])
  }

  /** `Materialize`: the text of the live items in document order. */
  ghost function Text(t: Tree): string
    requires Linked(t)
  {
    TextOf(t.items, Order(t))
  }

  ghost function VisibleIds(t: Tree): seq<Id>
    requires Linked(t)
  {
    VisibleOf(t.items, Order(t))
  }

  /** `Items`: every item connected to the root, tombstones included, in document order. */
  ghost function Listing(t: Tree): seq<Item>
    requires Linked(t)
  {
    OrderIsSortedListing(t);
    ItemsAt(t.items, Order(t))
  }

  lemma {:induction false} VisibleConcat(items: map<Id, Item>, a: seq<Id>, b: seq<Id>)
    ensures VisibleOf(items, a + b) == VisibleOf(items, a) + VisibleOf(items, b)
    ensures TextOf(items, a + b) == TextOf(items, a) + TextOf(items, b)
  {
    if a == [] {
      assert a + b == b;
    } else {
      VisibleConcat(items, a[1..], b);
      assert (a + b)[1..] == a[1..] + b && (a + b)[0] == a[0];
      Regroup(if Alive(items, a[0]) then [a[0]] else [], VisibleOf(items, a[1..]), VisibleOf(items, b));
      Regroup(if Alive(items, a[0]) then items[a[0]].ch else "", TextOf(items, a[1..]), TextOf(items, b));
    }
  }

  lemma Regroup<T>(a: seq<T>, b: seq<T>, c: seq<T>)
    ensures a + (b + c) == (a + b) + c
  {
  }

  lemma {:induction false} VisibleElements(items: map<Id, Item>, ids: seq<Id>)
    ensures forall x :: x in VisibleOf(items, ids) <==> x in ids && Alive(items, x)
  {
    if ids != [] { VisibleElements(items, ids[1..]); }
  }

  /** The visible ids spell the text: one code point each. */
  lemma {:induction false} TextSpellsVisible(items: map<Id, Item>, ids: seq<Id>)
    requires ItemsOk(items)
    ensures |TextOf(items, ids)| == |VisibleOf(items, ids)|
    ensures forall i :: 0 <= i < |VisibleOf(items, ids)| ==>
      var v := VisibleOf(items, ids)[i]; v in items && items[v].ch == [TextOf(items, ids)[i]]
  {
    if ids != [] {
      TextSpellsVisible(items, ids[1..]);
      assert ids[0] in items ==> ItemOk(items, ids[0]);
    }
  }

  lemma {:induction false} VisibleIsDistinct(items: map<Id, Item>, ids: seq<Id>)
    requires Distinct(ids)
    ensures Distinct(VisibleOf(items, ids))
  {
    if ids != [] {
      VisibleIsDistinct(items, ids[1..]);
      VisibleElements(items, ids[1..]);
      assert ids[0] !in ids[1..];
    }
  }
}
