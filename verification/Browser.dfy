/**
 The document as the browser keeps it (static/crdt.js:41-51, 74-143, 191-240): the
 same operations under JavaScript's string order. Two theorems tie it to the other
 modules: with re-ranked sites it is exactly the document they speak of, and with the
 sites as they are it has the same items and the same children of each parent, sorted
 by the browser's order.
 */
module Browser {
  import opened Ids
  import opened Utf16
  import opened Rga
  import opened RgaEdits
  import opened Ops
  import opened Snapshots
  import opened Chains

  function BrowserCompare(a: Id, b: Id): int {
    if a == b then 0
    else if a.Root? then -1
    else if b.Root? then 1
    else if a.clock > b.clock then -1
    else if a.clock < b.clock then 1
    else if JsStrLess(a.site, b.site) then -1
    else if JsStrLess(b.site, a.site) then 1
    else 0
  }

  function BrowserSorted(kids: seq<Id>, id: Id): (r: seq<Id>)
    ensures forall x :: x in r <==> x in kids || x == id
  {
    if kids == [] then [id]
    else if BrowserCompare(kids[0], id) < 0 then [kids[0]] + BrowserSorted(kids[1..], id)
    else if kids[0] == id then kids
    else [id] + kids
  }

  function BrowserChild(t: Tree, parent: Id, id: Id): Tree {
    t.(children := t.children[parent := BrowserSorted(Kids(t, parent), id)])
  }

  function BrowserInsert(t: Tree, id: Id, after: Id, ch: string): Outcome {
    if id == Root then Outcome(t, false, Some(EmptyId))
    else if !ValidId(id) then Outcome(t, false, Some(InvalidId))
    else if !SingleCodePoint(ch) then Outcome(t, false, Some(NotOneCodePoint))
    else if id in t.items then Outcome(t, false, None)
    else if after != Root && after !in t.items then Outcome(t, false, Some(UnknownParent))
    else Outcome(BrowserChild(t.(items := t.items[id := Item(id, after, ch, false)]), after, id), true, None)
  }

  function BrowserApply(t: Tree, op: Op): Outcome {
    match op
    case Ins(id, after, ch) => BrowserInsert(t, id, after, ch)
    case Del(id) => if ValidId(id) then Delete(t, id) else Outcome(t, false, Some(InvalidId))
    case Unknown(_) => Outcome(t, false, Some(UnknownOp))
  }

  function BrowserRun(t: Tree, ops: seq<Op>): Outcome
    decreases |ops|
  {
    if ops == [] then Outcome(t, false, None)
    else
      var first := BrowserApply(t, ops[0]);
      if first.error.Some? then first
      else
        var rest := BrowserRun(first.tree, ops[1..]);
        rest.(changed := first.changed || rest.changed)
  }

  function BrowserApplyBatch(t: Tree, ops: seq<Op>): Outcome {
    if ops == [] then Outcome(t, false, Some(EmptyBatch)) else BrowserRun(t, ops)
  }

  function BrowserLinkAll(t: Tree, list: seq<Item>): Loaded<Tree>
    decreases |list|
  {
    if list == [] then Ok(t)
    else if list[0].after != Root && list[0].after !in t.items then Failed(UnknownParent)
    else BrowserLinkAll(BrowserChild(t, list[0].after, list[0].id), list[1..])
  }

  function BrowserFromItems(list: seq<Item>): Loaded<Tree> {
    match Register(map[], list)
    case Failed(e) => Failed(e)
    case Ok(items) => BrowserLinkAll(Tree(items, map[]), list)
  }

  // ----- re-ranked documents ---------------------------------------------------------------

  function RankedId(id: Id): Id {
    if id.Root? then Root else Atom(Ranked(id.site), id.clock)
  }

  function UnrankedId(id: Id): Id {
    if id.Root? then Root else Atom(Unranked(id.site), id.clock)
  }

  lemma RankedIdIs(id: Id)
    ensures UnrankedId(RankedId(id)) == id && RankedId(UnrankedId(id)) == id
    ensures ValidId(RankedId(id)) <==> ValidId(id)
    ensures RankedId(id) == Root <==> id == Root
  {
    if id.Atom? { RankRoundTrip(id.site); }
  }

  lemma RankedIdsDiffer(a: Id, b: Id)
    ensures RankedId(a) == RankedId(b) <==> a == b
  {
    RankedIdIs(a);
    RankedIdIs(b);
  }

  function RankedIds(s: seq<Id>): (r: seq<Id>)
    ensures |r| == |s| && forall i :: 0 <= i < |s| ==> r[i] == RankedId(s[i])
  {
    seq(|s|, i requires 0 <= i < |s| => RankedId(s[i]))
  }

  function RankedItem(item: Item): Item {
    Item(RankedId(item.id), RankedId(item.after), item.ch, item.deleted)
  }

  function RankedList(list: seq<Item>): (r: seq<Item>)
    ensures |r| == |list| && forall i :: 0 <= i < |list| ==> r[i] == RankedItem(list[i])
  {
    seq(|list|, i requires 0 <= i < |list| => RankedItem(list[i]))
  }

  function RankedKeys(keys: set<Id>): set<Id> {
    set k | k in keys :: RankedId(k)
  }

  lemma RankedKeysHold(keys: set<Id>)
    ensures forall k :: RankedId(k) in RankedKeys(keys) <==> k in keys
    ensures forall r :: r in RankedKeys(keys) <==> UnrankedId(r) in keys
  {
    forall k ensures RankedId(k) in RankedKeys(keys) <==> k in keys {
      if j :| j in keys && RankedId(j) == RankedId(k) { RankedIdsDiffer(j, k); }
    }
    forall r ensures r in RankedKeys(keys) <==> UnrankedId(r) in keys {
      RankedIdIs(r);
      if j :| j in keys && RankedId(j) == r { RankedIdIs(j); }
    }
  }

  function RankedItems(items: map<Id, Item>): map<Id, Item> {
    RankedKeysHold(items.Keys);
    map r | r in RankedKeys(items.Keys) :: RankedItem(items[UnrankedId(r)])
  }

  function RankedChildren(children: map<Id, seq<Id>>): map<Id, seq<Id>> {
    RankedKeysHold(children.Keys);
    map r | r in RankedKeys(children.Keys) :: RankedIds(children[UnrankedId(r)])
  }

  lemma ItemsAt(items: map<Id, Item>, r: Id)
    ensures r in RankedItems(items) <==> UnrankedId(r) in items
    ensures r in RankedItems(items) ==> RankedItems(items)[r] == RankedItem(items[UnrankedId(r)])
  {
    RankedKeysHold(items.Keys);
  }

  lemma ChildrenAt(children: map<Id, seq<Id>>, r: Id)
    ensures r in RankedChildren(children) <==> UnrankedId(r) in children
    ensures r in RankedChildren(children) ==> RankedChildren(children)[r] == RankedIds(children[UnrankedId(r)])
  {
    RankedKeysHold(children.Keys);
  }

  /** The document with every site re-ranked: what the other modules take a browser's document to be. */
  function RankedTree(t: Tree): Tree {
    Tree(RankedItems(t.items), RankedChildren(t.children))
  }

  function RankedOp(op: Op): Op {
    match op
    case Ins(id, after, ch) => Ins(RankedId(id), RankedId(after), ch)
    case Del(id) => Del(RankedId(id))
    case Unknown(id) => Unknown(RankedId(id))
  }

  function RankedOps(ops: seq<Op>): (r: seq<Op>)
    ensures |r| == |ops| && forall i :: 0 <= i < |ops| ==> r[i] == RankedOp(ops[i])
  {
    seq(|ops|, i requires 0 <= i < |ops| => RankedOp(ops[i]))
  }

  // ----- the browser's document, re-ranked --------------------------------------------------

  lemma ComparesRanked(a: Id, b: Id)
    ensures BrowserCompare(a, b) == CompareSibling(RankedId(a), RankedId(b))
  {
    RankedIdsDiffer(a, b);
    if a.Atom? && b.Atom? {
      JsOrderIsRanked(a.site, b.site);
      JsOrderIsRanked(b.site, a.site);
    }
  }

  lemma {:induction false} SortsRanked(kids: seq<Id>, id: Id)
    ensures RankedIds(BrowserSorted(kids, id)) == InsertSorted(RankedIds(kids), RankedId(id))
  {
    if kids != [] {
      ComparesRanked(kids[0], id);
      RankedIdsDiffer(kids[0], id);
      assert RankedIds(kids)[1..] == RankedIds(kids[1..]);
      SortsRanked(kids[1..], id);
    }
  }

  lemma KidsRanked(t: Tree, p: Id)
    ensures Kids(RankedTree(t), RankedId(p)) == RankedIds(Kids(t, p))
    ensures RankedId(p) in RankedTree(t).items <==> p in t.items
    ensures p in t.items ==> RankedTree(t).items[RankedId(p)] == RankedItem(t.items[p])
  {
    hide RankedItems, RankedChildren;
    RankedIdIs(p);
    ItemsAt(t.items, RankedId(p));
    ChildrenAt(t.children, RankedId(p));
  }

  lemma ItemsWith(items: map<Id, Item>, id: Id, item: Item)
    ensures RankedItems(items[id := item]) == RankedItems(items)[RankedId(id) := RankedItem(item)]
  {
    hide RankedItems, RankedId, UnrankedId, RankedItem;
    var x, y := RankedItems(items[id := item]), RankedItems(items)[RankedId(id) := RankedItem(item)];
    forall r ensures (r in x <==> r in y) && (r in x ==> x[r] == y[r]) {
      ItemsAt(items, r);
      ItemsAt(items[id := item], r);
      RankedIdIs(r);
      RankedIdIs(id);
    }
  }

  lemma ChildrenWith(children: map<Id, seq<Id>>, p: Id, kids: seq<Id>)
    ensures RankedChildren(children[p := kids]) == RankedChildren(children)[RankedId(p) := RankedIds(kids)]
  {
    hide RankedChildren, RankedId, UnrankedId, RankedIds;
    var x, y := RankedChildren(children[p := kids]), RankedChildren(children)[RankedId(p) := RankedIds(kids)];
    forall r ensures (r in x <==> r in y) && (r in x ==> x[r] == y[r]) {
      ChildrenAt(children, r);
      ChildrenAt(children[p := kids], r);
      RankedIdIs(r);
      RankedIdIs(p);
    }
  }

  lemma ChildRanked(t: Tree, p: Id, id: Id)
    ensures var u := RankedTree(t);
      RankedTree(BrowserChild(t, p, id)) ==
      u.(children := u.children[RankedId(p) := InsertSorted(Kids(u, RankedId(p)), RankedId(id))])
  {
    KidsRanked(t, p);
    SortsRanked(Kids(t, p), id);
    ChildrenWith(t.children, p, BrowserSorted(Kids(t, p), id));
  }

  function RankedOutcome(out: Outcome): Outcome {
    out.(tree := RankedTree(out.tree))
  }

  lemma InsertRanked(t: Tree, id: Id, after: Id, ch: string)
    ensures RankedOutcome(BrowserInsert(t, id, after, ch)) == Insert(RankedTree(t), RankedId(id), RankedId(after), ch)
  {
    hide RankedItems, RankedChildren, BrowserSorted, InsertSorted, RankedId, Ranked;
    RankedIdIs(id);
    RankedIdIs(after);
    KidsRanked(t, id);
    KidsRanked(t, after);
    var item := Item(id, after, ch, false);
    ItemsWith(t.items, id, item);
    ChildRanked(t.(items := t.items[id := item]), after, id);
  }

  lemma DeleteRanked(t: Tree, id: Id)
    ensures RankedOutcome(Delete(t, id)) == Delete(RankedTree(t), RankedId(id))
  {
    hide RankedItems, RankedChildren;
    KidsRanked(t, id);
    if id in t.items { ItemsWith(t.items, id, t.items[id].(deleted := true)); }
  }

  /** With the sites re-ranked, the browser does exactly what the model's uncapped run does. */
  lemma {:induction false} BrowserRunIsRanked(t: Tree, ops: seq<Op>)
    ensures RankedOutcome(BrowserRun(t, ops)) == JsRun(RankedTree(t), RankedOps(ops))
    decreases |ops|
  {
    hide RankedTree;
    if ops != [] {
      var op := ops[0];
      match op {
        case Ins(id, after, ch) => InsertRanked(t, id, after, ch);
        case Del(id) =>
          RankedIdIs(id);
          DeleteRanked(t, id);
        case Unknown(_) =>
      }
      assert RankedOps(ops)[1..] == RankedOps(ops[1..]);
      BrowserRunIsRanked(BrowserApply(t, op).tree, ops[1..]);
    }
  }

  // ----- the browser's document beside the server's -------------------------------------------

  ghost predicate SortedInBrowser(kids: seq<Id>) {
    forall i, j :: 0 <= i < j < |kids| ==> BrowserLess(kids[i], kids[j])
  }

  predicate BrowserLess(a: Id, b: Id) {
    a.Atom? && b.Atom? && BrowserCompare(a, b) < 0
  }

  ghost predicate SameKids(b: Tree, t: Tree, p: Id) {
    && (p in b.children <==> p in t.children) && SortedInBrowser(Kids(b, p))
    && forall k :: k in Kids(b, p) <==> k in Kids(t, p)
  }

  /** The same items and the same children of each parent, sorted by the browser's order. */
  ghost predicate BrowserForm(b: Tree, t: Tree) {
    b.items == t.items && forall p {:trigger SameKids(b, t, p)} :: SameKids(b, t, p)
  }

  lemma MemberRanked(s: seq<Id>, k: Id)
    ensures RankedId(k) in RankedIds(s) <==> k in s
    ensures k in RankedIds(s) <==> UnrankedId(k) in s
  {
    hide RankedId, UnrankedId;
    RankedIdIs(k);
    if k in s {
      var i :| 0 <= i < |s| && s[i] == k;
      assert RankedIds(s)[i] == RankedId(k);
    }
    if RankedId(k) in RankedIds(s) {
      var i :| 0 <= i < |s| && RankedIds(s)[i] == RankedId(k);
      RankedIdIs(s[i]);
    }
    if k in RankedIds(s) {
      var i :| 0 <= i < |s| && RankedIds(s)[i] == k;
      RankedIdIs(s[i]);
    }
    if UnrankedId(k) in s {
      var i :| 0 <= i < |s| && s[i] == UnrankedId(k);
      assert RankedIds(s)[i] == k;
    }
  }

  lemma SortedRanked(kids: seq<Id>)
    ensures SortedInBrowser(kids) <==> SortedSiblings(RankedIds(kids))
  {
    forall i, j | 0 <= i < j < |kids|
      ensures BrowserLess(kids[i], kids[j]) <==> SibLess(RankedIds(kids)[i], RankedIds(kids)[j])
    {
      ComparesRanked(kids[i], kids[j]);
    }
  }

  /** Being in the browser's form is, with the sites re-ranked, being linked. */
  lemma FormIsLinked(b: Tree, t: Tree)
    requires Linked(t) && BrowserForm(b, t)
    ensures Linked(RankedTree(b))
  {
    hide RankedTree, RankedId, UnrankedId, SortedInBrowser, SortedSiblings;
    var u := RankedTree(b);
    forall r ensures r in u.items ==> UnrankedId(r) in t.items && ItemOk(u.items, r) && Listed(u, r)
      ensures ListOk(u, r)
      ensures forall k :: k in Kids(u, r) ==> k in u.items && u.items[k].after == r
    {
      FormAt(b, t, r);
      assert SameKids(b, t, UnrankedId(r)) && ListOk(t, UnrankedId(r));
    }
    RankedIdIs(Root);
    KidsRanked(b, Root);
  }

  lemma FormAt(b: Tree, t: Tree, r: Id)
    requires Linked(t) && BrowserForm(b, t)
    ensures var u := RankedTree(b);
      && (r in u.items ==> UnrankedId(r) in t.items && ItemOk(u.items, r) && Listed(u, r)) && ListOk(u, r)
      && forall k :: k in Kids(u, r) ==> k in u.items && u.items[k].after == r
  {
    hide RankedTree, RankedId, UnrankedId, SortedInBrowser, SortedSiblings;
    var u, p := RankedTree(b), UnrankedId(r);
    RankedIdIs(r);
    KidsRanked(b, p);
    ChildKeyRanked(b, p);
    assert SameKids(b, t, p) && ListOk(t, p);
    SortedRanked(Kids(b, p));
    assert p in t.children ==> Kids(t, p)[0] in Kids(b, p);
    if r in u.items {
      assert ItemOk(t.items, p) && Listed(t, p);
      var q := t.items[p].after;
      assert SameKids(b, t, q);
      KidsRanked(b, q);
      RankedIdIs(p);
      MemberRanked(Kids(b, q), p);
    }
    forall k | k in Kids(u, r) ensures k in u.items && u.items[k].after == r {
      MemberRanked(Kids(b, p), k);
      KidsRanked(b, UnrankedId(k));
      RankedIdIs(k);
    }
  }

  lemma ChildKeyRanked(t: Tree, p: Id)
    ensures RankedId(p) in RankedTree(t).children <==> p in t.children
  {
    RankedIdIs(p);
    ChildrenAt(t.children, RankedId(p));
  }

  lemma NothingSorted()
    ensures SortedSiblings([])
  {
  }

  lemma LinkedIsForm(b: Tree, t: Tree)
    requires Linked(t) && b.items == t.items && Linked(RankedTree(b))
    ensures BrowserForm(b, t)
  {
    forall p ensures SameKids(b, t, p) { LinkedAt(b, t, p); }
  }

  lemma LinkedAt(b: Tree, t: Tree, p: Id)
    requires Linked(t) && b.items == t.items && Linked(RankedTree(b))
    ensures SameKids(b, t, p)
  {
    hide RankedTree, RankedId, UnrankedId, SortedInBrowser, SortedSiblings;
    var u, r := RankedTree(b), RankedId(p);
    KidsRanked(b, p);
    ChildKeyRanked(b, p);
    SortedRanked(Kids(b, p));
    NothingSorted();
    assert ListOk(u, r) && ListOk(t, p);
    RankedIdIs(p);
    forall k ensures k in Kids(b, p) <==> k in Kids(t, p) {
      MemberRanked(Kids(b, p), k);
      KidsRanked(b, k);
      RankedIdIs(k);
      if k in t.items {
        assert Listed(t, k) && Listed(u, RankedId(k));
        RankedIdIs(t.items[k].after);
      }
    }
    assert p in b.children ==> Kids(b, p) != [] && Kids(b, p)[0] in Kids(t, p);
    assert p in t.children ==> Kids(t, p) != [] && Kids(t, p)[0] in Kids(b, p);
  }

  lemma {:induction false} JsRunKeepsLinks(t: Tree, ops: seq<Op>)
    requires Linked(t)
    ensures Linked(JsRun(t, ops).tree)
    decreases |ops|
  {
    hide Linked;
    if ops != [] {
      var op, out := ops[0], JsApply(t, ops[0]);
      if out.changed {
        if op.Ins? { InsertKeepsLinks(t, op.id, op.after, op.ch); } else { TombstoneKeepsLinks(t, op.id); }
      }
      if out.error.None? { JsRunKeepsLinks(out.tree, ops[1..]); }
    }
  }

  /** Items, changes and errors do not depend on the order of siblings. */
  lemma SameItemsAtOnce(b: Tree, t: Tree, op: Op)
    requires b.items == t.items
    ensures var x, y := BrowserApply(b, op), JsApply(t, op);
      x.tree.items == y.tree.items && x.changed == y.changed && x.error == y.error
  {
  }

  lemma {:induction false} SameItems(b: Tree, t: Tree, ops: seq<Op>)
    requires b.items == t.items
    ensures var x, y := BrowserRun(b, ops), JsRun(t, ops);
      x.tree.items == y.tree.items && x.changed == y.changed && x.error == y.error
    decreases |ops|
  {
    if ops != [] {
      hide BrowserApply, JsApply;
      SameItemsAtOnce(b, t, ops[0]);
      SameItems(BrowserApply(b, ops[0]).tree, JsApply(t, ops[0]).tree, ops[1..]);
    }
  }

  /**
   Whatever batch the server accepts, the browser accepts, too, and its document stays
   the server's in browser form: for any sites.
   */
  lemma BrowserFollows(b: Tree, t: Tree, ops: seq<Op>)
    requires Linked(t) && BrowserForm(b, t) && Run(t, ops).error.None?
    ensures var x, y := BrowserRun(b, ops), Run(t, ops);
      x.error.None? && x.changed == y.changed && BrowserForm(x.tree, y.tree)
  {
    hide Linked, RankedTree, BrowserForm;
    UncappedAgrees(t, ops);
    FormKeepsItems(b, t);
    SameItems(b, t, ops);
    FormIsLinked(b, t);
    BrowserRunIsRanked(b, ops);
    JsRunKeepsLinks(RankedTree(b), RankedOps(ops));
    JsRunKeepsLinks(t, ops);
    LinkedIsForm(BrowserRun(b, ops).tree, Run(t, ops).tree);
  }

  lemma FormKeepsItems(b: Tree, t: Tree)
    requires BrowserForm(b, t)
    ensures b.items == t.items
  {
  }

  // ----- when the two documents are one -----------------------------------------------------------

  lemma {:induction false} SortedInBrowserIsUnique(a: seq<Id>, b: seq<Id>)
    requires SortedInBrowser(a) && SortedInBrowser(b) && forall k :: k in a <==> k in b
    ensures a == b
  {
    SortedRanked(a);
    SortedRanked(b);
    forall k ensures k in RankedIds(a) <==> k in RankedIds(b) {
      MemberRanked(a, k);
      MemberRanked(b, k);
    }
    SortedSiblingsUnique(RankedIds(a), RankedIds(b));
    forall i | 0 <= i < |a| ensures a[i] == b[i] {
      assert RankedIds(a)[i] == RankedIds(b)[i];
      RankedIdsDiffer(a[i], b[i]);
    }
  }

  lemma SortedEverywhere(b: Tree, t: Tree)
    requires Linked(t) && BrowserForm(b, t)
    ensures b == t <==> forall p {:trigger Kids(t, p)} :: SortedInBrowser(Kids(t, p))
  {
    hide SortedInBrowser, Linked;
    if b == t {
      forall p ensures SortedInBrowser(Kids(t, p)) { assert SameKids(b, t, p); }
    }
    if forall p {:trigger Kids(t, p)} :: SortedInBrowser(Kids(t, p)) {
      forall p ensures (p in b.children <==> p in t.children) && Kids(b, p) == Kids(t, p) {
        assert SameKids(b, t, p);
        SortedInBrowserIsUnique(Kids(b, p), Kids(t, p));
      }
      assert b.children == t.children by {
        forall p | p in b.children ensures p in t.children && b.children[p] == t.children[p] {
          assert Kids(b, p) == Kids(t, p);
        }
      }
    }
  }

  /** No two children of one parent with one clock have sites that the two orders tell apart. */
  ghost predicate PlainSiblings(items: map<Id, Item>) {
    forall x, y :: x in items && y in items ==> SiblingsAgree(items, x, y)
  }

  ghost predicate SiblingsAgree(items: map<Id, Item>, x: Id, y: Id)
    requires x in items && y in items
  {
    x.Atom? && y.Atom? && items[x].after == items[y].after && x.clock == y.clock ==> !PartAcross(x.site, y.site)
  }

  lemma OrdersAgreeOnSiblings(x: Id, y: Id)
    requires SibLess(x, y)
    ensures BrowserLess(x, y) <==> (x.clock == y.clock ==> !PartAcross(x.site, y.site))
    ensures PartAcross(x.site, y.site) <==> PartAcross(y.site, x.site)
  {
    OrdersAgreeExactlyWhen(x.site, y.site);
    OrdersAgreeExactlyWhen(y.site, x.site);
    PartsBothWays(x.site, y.site);
    StrLessTotal(x.site, y.site);
    JsOrderIsRanked(x.site, y.site);
    JsOrderIsRanked(y.site, x.site);
    StrLessTotal(Ranked(x.site), Ranked(y.site));
    RankRoundTrip(x.site);
    RankRoundTrip(y.site);
  }

  lemma {:induction false} PartsBothWays(a: string, b: string)
    ensures PartAcross(a, b) <==> PartAcross(b, a)
  {
    if a != "" && b != "" && a[0] == b[0] { PartsBothWays(a[1..], b[1..]); }
  }

  lemma PlainIsSorted(t: Tree, p: Id)
    requires Linked(t) && PlainSiblings(t.items)
    ensures SortedInBrowser(Kids(t, p))
  {
    var kids := Kids(t, p);
    assert ListOk(t, p);
    forall i, j | 0 <= i < j < |kids| ensures BrowserLess(kids[i], kids[j]) {
      assert kids[i] in kids && kids[j] in kids && SibLess(kids[i], kids[j]);
      assert SiblingsAgree(t.items, kids[i], kids[j]);
      OrdersAgreeOnSiblings(kids[i], kids[j]);
    }
  }

  lemma SortedIsPlain(t: Tree, x: Id, y: Id)
    requires Linked(t) && x in t.items && y in t.items && SortedInBrowser(Kids(t, t.items[x].after))
    ensures SiblingsAgree(t.items, x, y)
  {
    var kids := Kids(t, t.items[x].after);
    if t.items[y].after == t.items[x].after {
      assert Listed(t, x) && Listed(t, y) && ListOk(t, t.items[x].after);
      var i :| 0 <= i < |kids| && kids[i] == x;
      var j :| 0 <= j < |kids| && kids[j] == y;
      if i < j { OrdersAgreeOnSiblings(x, y); }
      if j < i { OrdersAgreeOnSiblings(y, x); }
      if x.Atom? { NotAcrossItself(x.site); }
    }
  }

  lemma {:induction false} NotAcrossItself(s: string)
    ensures !PartAcross(s, s)
  {
    if s != "" { NotAcrossItself(s[1..]); }
  }

  /**
   Server and browser hold one document exactly when no two siblings of one clock have
   sites whose first difference sets a character beyond U+FFFF against one from U+E000.
   */
  lemma OneDocumentExactlyWhen(b: Tree, t: Tree)
    requires Linked(t) && BrowserForm(b, t)
    ensures b == t <==> PlainSiblings(t.items)
  {
    hide BrowserForm, SortedInBrowser, SiblingsAgree;
    SortedEverywhere(b, t);
    if PlainSiblings(t.items) {
      forall p ensures SortedInBrowser(Kids(t, p)) { PlainIsSorted(t, p); }
    }
    if b == t {
      forall x, y | x in t.items && y in t.items ensures SiblingsAgree(t.items, x, y) {
        assert SortedInBrowser(Kids(t, t.items[x].after));
        SortedIsPlain(t, x, y);
      }
    }
  }

  /** On sites without characters beyond U+FFFF, ASCII ones among them, the browser's document is the server's. */
  lemma PlainSitesAgree(b: Tree, t: Tree)
    requires Linked(t) && BrowserForm(b, t)
    requires forall x, c :: x in t.items && x.Atom? && c in x.site ==> c < '\U{10000}'
    ensures b == t
  {
    hide BrowserForm, Linked;
    forall x, y | x in t.items && y in t.items ensures SiblingsAgree(t.items, x, y) {
      if x.Atom? && y.Atom? { PlainStringsAgree(x.site, y.site); }
    }
    OneDocumentExactlyWhen(b, t);
  }

  // ----- rebuilding --------------------------------------------------------------------------------

  function RankedLoaded(loaded: Loaded<Tree>): Loaded<Tree> {
    match loaded
    case Ok(t) => Ok(RankedTree(t))
    case Failed(e) => Failed(e)
  }

  lemma {:induction false} RegisterRanked(known: map<Id, Item>, list: seq<Item>)
    ensures Register(RankedItems(known), RankedList(list)) ==
      match Register(known, list) case Ok(items) => Ok(RankedItems(items)) case Failed(e) => Failed(e)
    decreases |list|
  {
    hide RankedItems, RankedId;
    if list != [] {
      var item := list[0];
      RankedIdIs(item.id);
      ItemsAt(known, RankedId(item.id));
      ItemsWith(known, item.id, item);
      assert RankedList(list)[1..] == RankedList(list[1..]);
      RegisterRanked(known[item.id := item], list[1..]);
    }
  }

  lemma {:induction false} LinkAllRanked(t: Tree, list: seq<Item>)
    ensures LinkAll(RankedTree(t), RankedList(list)) == RankedLoaded(BrowserLinkAll(t, list))
    decreases |list|
  {
    hide RankedTree, RankedId, BrowserSorted, InsertSorted;
    if list != [] {
      var item := list[0];
      RankedIdIs(item.after);
      KidsRanked(t, item.after);
      ChildRanked(t, item.after, item.id);
      assert RankedList(list)[1..] == RankedList(list[1..]);
      LinkAllRanked(BrowserChild(t, item.after, item.id), list[1..]);
    }
  }

  lemma {:induction false} SameLinking(b: Tree, t: Tree, list: seq<Item>)
    requires b.items == t.items
    ensures var x, y := BrowserLinkAll(b, list), LinkAll(t, list);
      if y.Ok? then x.Ok? && x.value.items == y.value.items else x == y
    decreases |list|
  {
    if list != [] { SameLinking(BrowserChild(b, list[0].after, list[0].id), LinkChild(t, list[0]), list[1..]); }
  }

  /** The browser accepts the item lists the server accepts, and builds the same document in its own form. */
  lemma BrowserFromItemsFollows(list: seq<Item>)
    ensures var x, y := BrowserFromItems(list), FromItems(list);
      if y.Ok? then x.Ok? && BrowserForm(x.value, y.value) else x == y
  {
    hide RankedTree, Linked, BrowserForm, Register;
    FromItemsExact(list);
    FromItemsExact(RankedList(list));
    RegisterRanked(map[], list);
    if Register(map[], list).Ok? {
      var t := Tree(Register(map[], list).value, map[]);
      SameLinking(t, t, list);
      LinkAllRanked(t, list);
      RankedNothing(t.items);
      if FromItems(list).Ok? { LinkedIsForm(BrowserFromItems(list).value, FromItems(list).value); }
    }
  }

  lemma RankedNothing(items: map<Id, Item>)
    ensures RankedItems(map[]) == map[] && RankedTree(Tree(items, map[])) == Tree(RankedItems(items), map[])
  {
  }

  /** In a chain nothing has a sibling: building one is the same under either order. */
  lemma ChainsAgree(site: string, text: string)
    requires ValidSite(site)
    ensures BrowserForm(Chain(site, text), Chain(site, text))
    ensures text != "" ==>
      var n := |text|;
      BrowserInsert(Chain(site, text[..n - 1]), Link(site, n), Link(site, n - 1), [text[n - 1]]) ==
      Outcome(Chain(site, text), true, None)
  {
    hide SortedInBrowser, Chain;
    var t := Chain(site, text);
    ChainShape(site, text);
    forall p ensures SameKids(t, t, p) { ChainKidsAgree(t, site, text, p); }
    if text != "" { ChainStepAgrees(site, text); }
  }

  lemma ChainStepAgrees(site: string, text: string)
    requires ValidSite(site) && text != ""
    ensures var n := |text|;
      BrowserInsert(Chain(site, text[..n - 1]), Link(site, n), Link(site, n - 1), [text[n - 1]]) ==
      Outcome(Chain(site, text), true, None)
  {
    hide Linked, Rooted;
    var n := |text|;
    var init := Chain(site, text[..n - 1]);
    ChainShape(site, text[..n - 1]);
    ChainEndIsLeaf(init, site, text[..n - 1]);
    if n > 1 { assert HoldsChainItem(init.items, site, text[..n - 1], n - 1); }
    assert Link(site, n) !in init.items by { assert init.items.Keys == LinkSet(site, n - 1); }
  }

  lemma ChainKidsAgree(t: Tree, site: string, text: string, p: Id)
    requires Linked(t) && ChainItems(t.items, site, text)
    ensures SortedInBrowser(Kids(t, p))
  {
    var kids := Kids(t, p);
    if |kids| >= 2 {
      OnlyChild(t, site, text, kids[0]);
      OnlyChild(t, site, text, kids[1]);
      KidsDiffer(t, p);
    }
  }

  lemma KidsDiffer(t: Tree, p: Id)
    requires Linked(t) && |Kids(t, p)| >= 2
    ensures Kids(t, p)[0] != Kids(t, p)[1]
  {
    assert ListOk(t, p) && SibLess(Kids(t, p)[0], Kids(t, p)[1]);
    SiblingOrderTotal(Kids(t, p)[0], Kids(t, p)[1]);
  }

  lemma OnlyChild(t: Tree, site: string, text: string, k: Id)
    requires ChainItems(t.items, site, text) && k in t.items
    ensures k.Atom? && k.site == site && t.items[k].after == Link(site, k.clock - 1)
  {
    assert k in LinkSet(site, |text|);
    var i :| 1 <= i <= |text| && k == Atom(site, i);
    assert HoldsChainItem(t.items, site, text, i);
  }

  lemma PartedOrders()
    ensures StrLess("\U{FF61}", "\U{1F600}") && JsStrLess("\U{1F600}", "\U{FF61}")
    ensures !JsStrLess("\U{FF61}", "\U{1F600}")
  {
    var a, b := "\U{FF61}", "\U{1F600}";
    assert a[1..] == "" && b[1..] == "";
    assert Units(a) == [0xFF61] && Units(b) == [0xD83D, 0xDE00];
  }

  /** Two items of one clock and parent that server and browser put in opposite order. */
  lemma SitesCanPart()
    ensures var x, y := Atom("\U{FF61}", 1), Atom("\U{1F600}", 1);
      var ops := [Ins(x, Root, "a"), Ins(y, Root, "b")];
      && Run(EMPTY, ops).error.None? && Kids(Run(EMPTY, ops).tree, Root) == [x, y]
      && BrowserRun(EMPTY, ops).error.None? && Kids(BrowserRun(EMPTY, ops).tree, Root) == [y, x]
  {
    hide StrLess, JsStrLess;
    var x, y := Atom("\U{FF61}", 1), Atom("\U{1F600}", 1);
    var p, q := Ins(x, Root, "a"), Ins(y, Root, "b");
    PartedOrders();
    var t := Apply(EMPTY, p).tree;
    assert t == BrowserApply(EMPTY, p).tree && Kids(t, Root) == [x] && |t.items| == 1;
    assert [p, q][1..] == [q] && [q][1..] == [];
    assert [x][1..] == [];
    assert InsertSorted([x], y) == [x, y] && BrowserSorted([x], y) == [y, x];
    assert Run(t, [q]).error.None? && Run(t, [q]).tree == Apply(t, q).tree;
    assert BrowserRun(t, [q]).error.None? && BrowserRun(t, [q]).tree == BrowserApply(t, q).tree;
  }
}
