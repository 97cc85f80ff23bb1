/**
 Local edits: deletions followed by inserts each of which outranks its siblings, the
 situation Lamport clocks create. The resulting order is stated pairwise.
 */
module Growth {
  import opened Sequences
  import opened Ids
  import opened Rga
  import opened RgaEdits
  import opened Ops
  import opened Views

  /** `y` stands after `p`; everything stands after the head. */
  ghost predicate Behind(items: map<Id, Item>, p: Id, y: Id) {
    p == Root || Before(items, p, y)
  }

  /** Each operation inserts a new item that outranks the siblings it finds. */
  ghost predicate NewestRun(t: Tree, ins: seq<Op>)
    decreases |ins|
  {
    ins == [] ||
    (ins[0].Ins? && CanInsert(t, ins[0].id, ins[0].after, ins[0].ch) && Outranks(t, ins[0].id, ins[0].after) &&
     NewestRun(InsertItem(t, ins[0].id, ins[0].after, ins[0].ch), ins[1..]))
  }

  /** `y` was there when the `i`-th insert happened. */
  ghost predicate Earlier(items: map<Id, Item>, ins: seq<Op>, i: nat, y: Id) {
    y in items || exists m :: 0 <= m < i && m < |ins| && ins[m].id == y
  }

  /** The `i`-th insert stands immediately behind its parent as far as earlier items are concerned. */
  ghost predicate GrownAt(base: map<Id, Item>, items: map<Id, Item>, dead: seq<Id>, ins: seq<Op>, i: nat)
    requires i < |ins|
  {
    && ins[i].Ins? && ins[i].id !in base && ins[i].id in items
    && items[ins[i].id] == Item(ins[i].id, ins[i].after, ins[i].ch, ins[i].id in dead)
    && (ins[i].after == Root || Earlier(base, ins, i, ins[i].after))
    && !(exists m :: 0 <= m < i && ins[m].id == ins[i].id)
    && forall y :: Earlier(base, ins, i, y) ==> (Before(items, ins[i].id, y) <==> Behind(items, ins[i].after, y))
  }

  function InsIds(ins: seq<Op>): seq<Id> {
    seq(|ins|, i requires 0 <= i < |ins| => ins[i].id)
  }

  /** `u` is `t` with `ins` inserted and the ids in `dead`, old or new, deleted. */
  ghost predicate Grown(t: Tree, u: Tree, dead: seq<Id>, ins: seq<Op>) {
    && WellFormed(t) && WellFormed(u)
    && u.items.Keys == t.items.Keys + Elements(InsIds(ins))
    && (forall k :: k in dead ==> k in u.items)
    && (forall k :: k in t.items ==> u.items[k] == t.items[k].(deleted := t.items[k].deleted || k in dead))
    && (forall i {:trigger GrownAt(t.items, u.items, dead, ins, i)} :: 0 <= i < |ins| ==>
      GrownAt(t.items, u.items, dead, ins, i))
  }

  lemma NewestRelation(t: Tree, u: Tree, id: Id, after: Id, y: Id)
    requires AddsNewest(t, u, id, after) && y in t.items && (after == Root || after in t.items)
    ensures Before(u.items, id, y) <==> Behind(t.items, after, y)
  {
    if Behind(t.items, after, y) {
      BeforeSibling(t, u, id, after, y);
    } else {
      if y != after {
        assert Connected(t.items, y) && Connected(t.items, after);
        BeforeIsTotal(t.items, after, y);
      }
      UpToParent(t, u, id, after, y);
      BeforeIsAsymmetric(u.items, id, y);
    }
  }

  lemma SameBehind(a: map<Id, Item>, b: map<Id, Item>, p: Id, y: Id)
    requires Root !in a && Root !in b && Agree(a, b) && Rooted(a) && Rooted(b)
    requires p == Root || (p in a && p in b)
    requires y in a && y in b
    ensures Behind(a, p, y) <==> Behind(b, p, y)
  {
    if p != Root { SameBefore(a, b, p, y); }
  }

  lemma {:induction false} GrowRun(t: Tree, ins: seq<Op>)
    requires WellFormed(t) && NewestRun(t, ins)
    ensures JsRun(t, ins).error.None? && Grown(t, JsRun(t, ins).tree, [], ins)
    decreases |ins|
  {
    if ins == [] {
      NothingGrown(t);
    } else {
      var op := ins[0];
      var t1 := InsertItem(t, op.id, op.after, op.ch);
      InsertKeepsTree(t, op.id, op.after, op.ch);
      assert Insert(t, op.id, op.after, op.ch) == Outcome(t1, true, None);
      GrowRun(t1, ins[1..]);
      assert JsRun(t, ins).tree == JsRun(t1, ins[1..]).tree;
      GrowMore(t, t1, JsRun(t1, ins[1..]).tree, ins);
    }
  }

  lemma NothingGrown(t: Tree)
    requires WellFormed(t)
    ensures Grown(t, t, [], [])
  {
    assert Elements(InsIds([])) == {};
  }

  lemma InsIdsCons(ins: seq<Op>)
    requires ins != []
    ensures Elements(InsIds(ins)) == {ins[0].id} + Elements(InsIds(ins[1..]))
  {
    ElementsCons(InsIds(ins));
    assert InsIds(ins)[1..] == InsIds(ins[1..]);
  }

  lemma GrowMore(t: Tree, t1: Tree, u: Tree, ins: seq<Op>)
    requires WellFormed(t) && NewestRun(t, ins) && ins != []
    requires t1 == InsertItem(t, ins[0].id, ins[0].after, ins[0].ch) && Grown(t1, u, [], ins[1..])
    ensures Grown(t, u, [], ins)
  {
    hide WellFormed, GrownAt;
    InsIdsCons(ins);
    forall i | 0 <= i < |ins| ensures GrownAt(t.items, u.items, [], ins, i) {
      if i == 0 {
        FirstGrown(t, t1, u, ins);
      } else {
        LaterGrown(t, t1, u, ins, i);
      }
    }
  }

  lemma FirstGrown(t: Tree, t1: Tree, u: Tree, ins: seq<Op>)
    requires WellFormed(t) && NewestRun(t, ins) && ins != []
    requires t1 == InsertItem(t, ins[0].id, ins[0].after, ins[0].ch) && Grown(t1, u, [], ins[1..])
    ensures GrownAt(t.items, u.items, [], ins, 0)
  {
    var id, after := ins[0].id, ins[0].after;
    assert AddsNewest(t, t1, id, after);
    forall y | Earlier(t.items, ins, 0, y) ensures Before(u.items, id, y) <==> Behind(u.items, after, y) {
      NewestRelation(t, t1, id, after, y);
      SameBefore(t1.items, u.items, id, y);
      SameBehind(t.items, u.items, after, y);
    }
  }

  lemma LaterGrown(t: Tree, t1: Tree, u: Tree, ins: seq<Op>, i: nat)
    requires ins != [] && 0 < i < |ins|
    requires t1.items.Keys == t.items.Keys + {ins[0].id} && ins[0].id !in t.items
    requires Grown(t1, u, [], ins[1..])
    ensures GrownAt(t.items, u.items, [], ins, i)
  {
    var rest := ins[1..];
    assert GrownAt(t1.items, u.items, [], rest, i - 1) && rest[i - 1] == ins[i];
    forall y ensures Earlier(t.items, ins, i, y) <==> Earlier(t1.items, rest, i - 1, y) {
      if m :| 0 <= m < i && ins[m].id == y { assert m > 0 ==> rest[m - 1].id == y; }
      if m :| 0 <= m < i - 1 && rest[m].id == y { assert ins[m + 1].id == y; }
      assert ins[0].id == y ==> Earlier(t.items, ins, i, y);
    }
    if m :| 0 <= m < i && ins[m].id == ins[i].id { assert m > 0 ==> rest[m - 1].id == rest[i - 1].id; }
  }

  /** One inserted item against one earlier item. */
  lemma GrownStep(t: Tree, u: Tree, dead: seq<Id>, ins: seq<Op>, i: nat, y: Id)
    requires Grown(t, u, dead, ins) && i < |ins| && Earlier(t.items, ins, i, y)
    ensures ins[i].Ins? && ins[i].id in u.items && y in u.items && y != ins[i].id
    ensures Before(u.items, ins[i].id, y) <==> Behind(u.items, ins[i].after, y)
    ensures Before(u.items, y, ins[i].id) <==> !Behind(u.items, ins[i].after, y)
  {
    assert GrownAt(t.items, u.items, dead, ins, i);
    if m :| 0 <= m < i && ins[m].id == y { assert GrownAt(t.items, u.items, dead, ins, m); }
    EitherBefore(u.items, y, ins[i].id);
  }

  lemma EitherBefore(items: map<Id, Item>, x: Id, y: Id)
    requires Root !in items && Rooted(items) && x in items && y in items && x != y
    ensures Before(items, x, y) <==> !Before(items, y, x)
  {
    assert Connected(items, x) && Connected(items, y);
    BeforeIsTotal(items, x, y);
    BeforeIsAsymmetric(items, x, y);
  }

  // ----- deletions ---------------------------------------------------------------

  function Deletions(ids: seq<Id>): seq<Op> {
    seq(|ids|, i requires 0 <= i < |ids| => Del(ids[i]))
  }

  ghost predicate Killed(t: Tree, u: Tree, dead: seq<Id>) {
    && WellFormed(t) && WellFormed(u) && u.items.Keys == t.items.Keys
    && (forall k :: k in t.items ==> u.items[k] == t.items[k].(deleted := t.items[k].deleted || k in dead))
    && Order(u) == Order(t) && u.children == t.children
  }

  lemma {:induction false} KillRun(t: Tree, dead: seq<Id>)
    requires WellFormed(t) && forall k :: k in dead ==> k in t.items
    ensures JsRun(t, Deletions(dead)).error.None?
    ensures Killed(t, JsRun(t, Deletions(dead)).tree, dead)
    decreases |dead|
  {
    if dead != [] {
      var id, ops := dead[0], Deletions(dead);
      assert id in dead && ItemOk(t.items, id);
      var t1 := JsApply(t, ops[0]).tree;
      assert t1 == if t.items[id].deleted then t else Tombstone(t, id);
      if !t.items[id].deleted { TombstoneKeepsTree(t, id); }
      assert ops[1..] == Deletions(dead[1..]);
      KillRun(t1, dead[1..]);
    }
  }

  lemma {:induction false} RunConcat(t: Tree, a: seq<Op>, b: seq<Op>)
    requires JsRun(t, a).error.None?
    ensures JsRun(t, a + b).tree == JsRun(JsRun(t, a).tree, b).tree
    ensures JsRun(t, a + b).error == JsRun(JsRun(t, a).tree, b).error
    decreases |a|
  {
    if a == [] {
      assert a + b == b;
    } else {
      assert (a + b)[1..] == a[1..] + b;
      RunConcat(JsApply(t, a[0]).tree, a[1..], b);
    }
  }

  /** Deleting `dead` and then inserting the newest items `ins`. */
  lemma EditRun(t: Tree, dead: seq<Id>, ins: seq<Op>)
    requires WellFormed(t) && forall k :: k in dead ==> k in t.items
    requires NewestRun(JsRun(t, Deletions(dead)).tree, ins)
    ensures JsRun(t, Deletions(dead) + ins).error.None?
    ensures Grown(t, JsRun(t, Deletions(dead) + ins).tree, dead, ins)
  {
    KillRun(t, dead);
    var mid := JsRun(t, Deletions(dead)).tree;
    RunConcat(t, Deletions(dead), ins);
    GrowRun(mid, ins);
    var u := JsRun(mid, ins).tree;
    forall i | 0 <= i < |ins| ensures GrownAt(t.items, u.items, dead, ins, i) {
      assert GrownAt(mid.items, u.items, [], ins, i);
      forall y ensures Earlier(t.items, ins, i, y) <==> Earlier(mid.items, ins, i, y) {}
    }
  }

  // ----- one edit after another ------------------------------------------------------

  lemma EarlierThen(base: map<Id, Item>, mid: map<Id, Item>, a: seq<Op>, b: seq<Op>, i: nat, y: Id)
    requires mid.Keys == base.Keys + Elements(InsIds(a)) && i <= |b|
    ensures Earlier(base, a + b, |a| + i, y) <==> Earlier(mid, b, i, y)
  {
    var ab := a + b;
    if Earlier(base, ab, |a| + i, y) && y !in base {
      var m :| 0 <= m < |a| + i && m < |ab| && ab[m].id == y;
      if m < |a| { assert InsIds(a)[m] == y; } else { assert b[m - |a|].id == y; }
    }
    if y in mid && y !in base {
      var m :| 0 <= m < |a| && InsIds(a)[m] == y;
      assert ab[m].id == y;
    }
    if m :| 0 <= m < i && m < |b| && b[m].id == y { assert ab[|a| + m].id == y; }
  }

  lemma EarlierPrefix(base: map<Id, Item>, a: seq<Op>, b: seq<Op>, i: nat, y: Id)
    requires i <= |a|
    ensures Earlier(base, a + b, i, y) <==> Earlier(base, a, i, y)
  {
    if m :| 0 <= m < i && m < |a| && a[m].id == y { assert (a + b)[m].id == y; }
  }

  lemma GrownKnows(t: Tree, u: Tree, dead: seq<Id>, ins: seq<Op>, i: nat, y: Id)
    requires Grown(t, u, dead, ins) && i <= |ins| && Earlier(t.items, ins, i, y)
    ensures y in u.items
  {
    if m :| 0 <= m < i && ins[m].id == y { assert GrownAt(t.items, u.items, dead, ins, m); }
  }

  lemma GrownEarlier(t: Tree, m: Tree, u: Tree, d1: seq<Id>, a: seq<Op>, d2: seq<Id>, b: seq<Op>, i: nat)
    requires Grown(t, m, d1, a) && Grown(m, u, d2, b) && i < |a|
    ensures GrownAt(t.items, u.items, d1 + d2, a + b, i)
  {
    assert GrownAt(t.items, m.items, d1, a, i);
    assert (a + b)[i] == a[i];
    var p := a[i].after;
    if p != Root { GrownKnows(t, m, d1, a, i, p); EarlierPrefix(t.items, a, b, i, p); }
    forall y | Earlier(t.items, a + b, i, y) ensures Before(u.items, a[i].id, y) <==> Behind(u.items, p, y) {
      EarlierPrefix(t.items, a, b, i, y);
      GrownKnows(t, m, d1, a, i, y);
      SameBefore(m.items, u.items, a[i].id, y);
      SameBehind(m.items, u.items, p, y);
    }
    if n :| 0 <= n < i && (a + b)[n].id == a[i].id { assert a[n].id == a[i].id; }
  }

  lemma GrownAfter(t: Tree, m: Tree, u: Tree, d1: seq<Id>, a: seq<Op>, d2: seq<Id>, b: seq<Op>, i: nat)
    requires Grown(t, m, d1, a) && Grown(m, u, d2, b) && i < |b|
    ensures GrownAt(t.items, u.items, d1 + d2, a + b, |a| + i)
  {
    assert GrownAt(m.items, u.items, d2, b, i);
    assert (a + b)[|a| + i] == b[i];
    forall y ensures Earlier(t.items, a + b, |a| + i, y) <==> Earlier(m.items, b, i, y) {
      EarlierThen(t.items, m.items, a, b, i, y);
    }
    forall n | 0 <= n < |a| + i ensures (a + b)[n].id != b[i].id {
      if n < |a| { assert InsIds(a)[n] in Elements(InsIds(a)); } else { assert (a + b)[n] == b[n - |a|]; }
    }
  }

  /** Edits compose, also where the second one deletes what the first one typed. */
  lemma GrownThen(t: Tree, m: Tree, u: Tree, d1: seq<Id>, a: seq<Op>, d2: seq<Id>, b: seq<Op>)
    requires Grown(t, m, d1, a) && Grown(m, u, d2, b)
    ensures Grown(t, u, d1 + d2, a + b)
  {
    hide GrownAt, WellFormed;
    assert InsIds(a + b) == InsIds(a) + InsIds(b);
    assert Elements(InsIds(a + b)) == Elements(InsIds(a)) + Elements(InsIds(b));
    forall i | 0 <= i < |a + b| ensures GrownAt(t.items, u.items, d1 + d2, a + b, i) {
      if i < |a| { GrownEarlier(t, m, u, d1, a, d2, b, i); } else { GrownAfter(t, m, u, d1, a, d2, b, i - |a|); }
    }
  }

  // ----- Lamport clocks -------------------------------------------------------------

  ghost predicate ClocksUpTo(items: map<Id, Item>, c: int) {
    0 <= c && forall k :: k in items && k.Atom? ==> k.clock <= c
  }

  /** Consecutive clocks of one site, parents that are known by then. */
  ghost predicate Clocked(items: map<Id, Item>, ins: seq<Op>, site: string, c: int) {
    forall i :: 0 <= i < |ins| ==>
      ins[i].Ins? && ins[i].id == Atom(site, c + 1 + i) && SingleCodePoint(ins[i].ch) &&
      (ins[i].after == Root || Earlier(items, ins, i, ins[i].after))
  }

  /** Ids allocated past every clock in the document outrank all siblings. */
  lemma {:induction false} ClockedIsNewest(t: Tree, ins: seq<Op>, site: string, c: int)
    requires WellFormed(t) && ValidSite(site) && ClocksUpTo(t.items, c) && Clocked(t.items, ins, site, c)
    ensures NewestRun(t, ins)
    decreases |ins|
  {
    if ins != [] {
      var op, rest := ins[0], ins[1..];
      assert CanInsert(t, op.id, op.after, op.ch);
      forall k | k in Kids(t, op.after) ensures SibLess(op.id, k) { assert ItemOk(t.items, k); }
      var t1 := InsertItem(t, op.id, op.after, op.ch);
      InsertKeepsTree(t, op.id, op.after, op.ch);
      forall i | 0 <= i < |rest| && rest[i].after != Root ensures Earlier(t1.items, rest, i, rest[i].after) {
        var p := rest[i].after;
        assert rest[i] == ins[i + 1] && Earlier(t.items, ins, i + 1, p);
        if p !in t1.items {
          var m :| 0 <= m < i + 1 && ins[m].id == p;
          assert rest[m - 1].id == p;
        }
      }
      ClockedIsNewest(t1, rest, site, c + 1);
    }
  }

  // ----- visible sequences ------------------------------------------------------------

  lemma {:induction false} VisibleSorted(less: (Id, Id) -> bool, items: map<Id, Item>, ids: seq<Id>)
    requires SortedBy(less, ids)
    ensures SortedBy(less, VisibleOf(items, ids))
  {
    if ids != [] {
      VisibleSorted(less, items, ids[1..]);
      VisibleElements(items, ids[1..]);
      forall x | x in VisibleOf(items, ids[1..]) ensures less(ids[0], x) { assert x in ids[1..]; }
    }
  }

  /** The visible ids are the one listing of the live items that document order sorts. */
  lemma VisibleIdsAre(t: Tree, s: seq<Id>)
    requires WellFormed(t)
    ensures s == VisibleIds(t) <==>
      SortedBy(BeforeIn(t.items), s) && forall x :: x in s <==> Alive(t.items, x)
  {
    var less, v := BeforeIn(t.items), VisibleIds(t);
    OrderIsSortedListing(t);
    OrderListsItems(t);
    VisibleSorted(less, t.items, Order(t));
    VisibleElements(t.items, Order(t));
    forall x ensures x in v <==> Alive(t.items, x) {}
    forall x, y | less(x, y) ensures !less(y, x) { BeforeIsAsymmetric(t.items, x, y); }
    if SortedBy(less, s) && forall x :: x in s <==> Alive(t.items, x) {
      SortedListingIsUnique(less, s, v);
    }
  }
}
