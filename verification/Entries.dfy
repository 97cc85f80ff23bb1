/**
 Undo and redo of an entry of the undo stack (static/app.js:942-1048): any sequence of
 deletions and inserts that took one document to another, merged batches included.
 */
module Entries {
  import opened Sequences
  import opened Ids
  import opened Rga
  import opened RgaEdits
  import opened Ops
  import opened Views
  import opened Growth
  import opened Edits
  import opened Undo

  function InsertedIds(ops: seq<Op>): seq<Id> {
    InsIds(Inserted(ops))
  }

  /** The entry took `t` to `u`: fresh newest inserts, and deletions each of which hid something. */
  ghost predicate Told(t: Tree, u: Tree, ops: seq<Op>) {
    && Grown(t, u, Deleted(ops), Inserted(ops)) && Distinct(Deleted(ops))
    && (forall i :: 0 <= i < |ops| ==> !ops[i].Unknown?)
    && (forall d :: d in Deleted(ops) && d in t.items ==> Alive(t.items, d))
  }

  /** The items the entry itself both typed and deleted. */
  function TakenBack(ops: seq<Op>): set<Id> {
    set d | d in Deleted(ops) && d in InsertedIds(ops)
  }

  /** The document after `undo` has taken back the entry; for an undo entry, after `redo`. */
  ghost function Undone(u: Tree, ops: seq<Op>, site: string, c: int): (w: Tree)
    requires WellFormed(u)
    ensures WellFormed(w)
  {
    JsRunStays(u, InverseOps(u.items, ops, site, c).ops);
    JsRun(u, InverseOps(u.items, ops, site, c).ops).tree
  }

  // ----- the inverse runs ---------------------------------------------------------------------

  lemma {:induction false} DeletedHolds(ops: seq<Op>, i: nat)
    requires i < |ops| && ops[i].Del?
    ensures ops[i].id in Deleted(ops)
    decreases |ops|
  {
    if i < |ops| - 1 { DeletedHolds(ops[..|ops| - 1], i); }
  }

  lemma DistinctReverse<T(!new)>(s: seq<T>)
    requires Distinct(s)
    ensures Distinct(Reverse(s))
  {
  }

  lemma ToldIsInvertible(t: Tree, u: Tree, ops: seq<Op>)
    requires Told(t, u, ops)
    ensures WellFormed(t) && WellFormed(u) && Invertible(u.items, ops)
    ensures forall k :: k in InsertedIds(ops) ==> k in u.items && k !in t.items
    ensures forall k :: k in Deleted(ops) ==> k in u.items
    ensures u.items.Keys == t.items.Keys + Elements(InsertedIds(ops))
    ensures Distinct(InsertedIds(ops))
  {
    forall i | 0 <= i < |ops| ensures ops[i].Ins? || (ops[i].Del? && ops[i].id in u.items) {
      if ops[i].Del? { DeletedHolds(ops, i); }
    }
    var ins := Inserted(ops);
    forall k | k in InsertedIds(ops) ensures k in u.items && k !in t.items {
      var i :| 0 <= i < |ins| && InsIds(ins)[i] == k;
      assert GrownAt(t.items, u.items, Deleted(ops), ins, i);
    }
    forall i, j | 0 <= i < j < |ins| ensures ins[i].id != ins[j].id {
      assert GrownAt(t.items, u.items, Deleted(ops), ins, j);
    }
  }

  /** Applying the inverse of an entry succeeds, deletes what it typed and revives what it deleted. */
  lemma InverseRuns(u: Tree, ops: seq<Op>, site: string, c: int)
    requires WellFormed(u) && ValidSite(site) && ClocksUpTo(u.items, c) && Invertible(u.items, ops)
    requires forall k :: k in InsertedIds(ops) || k in Deleted(ops) ==> k in u.items
    ensures var inv := InverseOps(u.items, ops, site, c);
      && JsRun(u, inv.ops).error.None? && inv.clock == c + |Deleted(ops)|
      && ClocksUpTo(Undone(u, ops, site, c).items, inv.clock)
    ensures Grown(u, Undone(u, ops, site, c), Reverse(InsertedIds(ops)),
                  Revive(u.items, Reverse(Deleted(ops)), site, c))
  {
    hide Grown, Deleted, Inserted, WellFormed;
    var inv := InverseOps(u.items, ops, site, c).ops;
    InverseSplits(u.items, ops, site, c);
    forall k | k in Reverse(Deleted(ops)) ensures k in u.items { ReverseMembers(Deleted(ops), k); }
    ReviveIsClocked(u, Reverse(Deleted(ops)), site, c);
    forall i | 0 <= i < |inv| && inv[i].Del? ensures inv[i].id in u.items {
      DeletedHolds(inv, i);
      ReverseMembers(InsertedIds(ops), inv[i].id);
    }
    MixedRun(u, inv, site, c);
  }

  /** The inverse of an entry that took nothing back is an entry again, and takes nothing back either. */
  lemma InverseIsTold(t: Tree, u: Tree, ops: seq<Op>, site: string, c: int)
    requires Told(t, u, ops) && TakenBack(ops) == {} && ValidSite(site) && ClocksUpTo(u.items, c)
    ensures var inv := InverseOps(u.items, ops, site, c).ops;
      Told(u, Undone(u, ops, site, c), inv) && TakenBack(inv) == {}
  {
    hide Grown;
    ToldIsInvertible(t, u, ops);
    InverseRuns(u, ops, site, c);
    InverseSplits(u.items, ops, site, c);
    DistinctReverse(InsertedIds(ops));
    var inv := InverseOps(u.items, ops, site, c).ops;
    forall d | d in Deleted(inv) ensures Alive(u.items, d) && d !in InsertedIds(inv) {
      ReverseMembers(InsertedIds(ops), d);
      assert d !in TakenBack(ops);
      GrownAlive(t, u, Deleted(ops), Inserted(ops), d);
      GrownAlive(u, Undone(u, ops, site, c), Deleted(inv), Inserted(inv), d);
    }
  }

  // ----- undo --------------------------------------------------------------------------------------

  /** The visible ids with every deleted one replaced by its copy. */
  function Restored(v: seq<Id>, ops: seq<Op>, site: string, c: int): seq<Id> {
    Copied(v, Reverse(Deleted(ops)), site, c)
  }

  lemma ToldAlive(t: Tree, u: Tree, ops: seq<Op>, x: Id)
    requires Told(t, u, ops)
    ensures Alive(u.items, x) <==> (Alive(t.items, x) || x in InsertedIds(ops)) && x !in Deleted(ops)
    ensures x in InsertedIds(ops) ==> x !in t.items
    ensures x in Deleted(ops) ==> Alive(t.items, x) || x in InsertedIds(ops)
  {
    GrownAlive(t, u, Deleted(ops), Inserted(ops), x);
    assert x in InsertedIds(ops) <==> x in Elements(InsertedIds(ops));
  }

  lemma UndoneIsRevived(t: Tree, u: Tree, ops: seq<Op>, site: string, c: int)
    requires Told(t, u, ops) && ValidSite(site) && ClocksUpTo(u.items, c)
    ensures Revived(u, Undone(u, ops, site, c), Reverse(InsertedIds(ops)), Reverse(Deleted(ops)), site, c)
  {
    hide Grown;
    ToldIsInvertible(t, u, ops);
    InverseRuns(u, ops, site, c);
    DistinctReverse(Deleted(ops));
    forall k ensures k in Reverse(InsertedIds(ops)) <==> k in InsertedIds(ops) { ReverseMembers(InsertedIds(ops), k); }
    forall k ensures k in Reverse(Deleted(ops)) <==> k in Deleted(ops) { ReverseMembers(Deleted(ops), k); }
  }

  lemma OldLines(t: Tree, u: Tree, ops: seq<Op>)
    requires Told(t, u, ops) && TakenBack(ops) == {}
    ensures Lines(u, Reverse(InsertedIds(ops)), Reverse(Deleted(ops)), VisibleIds(t))
  {
    var v, dead, ids := VisibleIds(t), Reverse(InsertedIds(ops)), Reverse(Deleted(ops));
    VisibleFacts(t);
    forall i, j | 0 <= i < j < |v| ensures BeforeIn(u.items)(v[i], v[j]) {
      GrownKeepsOrder(t, u, Deleted(ops), Inserted(ops), v[i], v[j]);
    }
    forall x ensures x in v <==> x in ids || (Alive(u.items, x) && x !in dead)
      ensures x in ids ==> !Alive(u.items, x)
    {
      ToldAlive(t, u, ops, x);
      ReverseMembers(InsertedIds(ops), x);
      ReverseMembers(Deleted(ops), x);
      assert x !in TakenBack(ops);
    }
  }

  /** Parents and order of old items are the same before and after the entry. */
  lemma RevivableStays(t: Tree, u: Tree, dead: seq<Id>, ins: seq<Op>, v: seq<Id>, ids: seq<Id>)
    requires Grown(t, u, dead, ins) && forall x :: x in v || x in ids ==> x in t.items
    ensures Revivable(u.items, v, ids) <==> Revivable(t.items, v, ids)
  {
    hide Grown, InPlace, Behind, ParentOf;
    forall x, y | (x in v || x in ids) && (y in v || y in ids)
      ensures Behind(u.items, ParentOf(u.items, x), y) <==> Behind(t.items, ParentOf(t.items, x), y)
      ensures InPlace(u.items, x, y) <==> InPlace(t.items, x, y)
    {
      SameParents(t, u, dead, ins, x, y);
      InPlaceStays(t, u, dead, ins, x, y);
    }
  }

  lemma SameParents(t: Tree, u: Tree, dead: seq<Id>, ins: seq<Op>, x: Id, y: Id)
    requires Grown(t, u, dead, ins) && x in t.items && y in t.items
    ensures ParentOf(u.items, x) == ParentOf(t.items, x)
    ensures Behind(u.items, ParentOf(u.items, x), y) <==> Behind(t.items, ParentOf(t.items, x), y)
  {
    hide GrownAt;
    RootedParentsOf(t, x);
    SameBehind(t.items, u.items, ParentOf(t.items, x), y);
  }

  lemma InPlaceStays(t: Tree, u: Tree, dead: seq<Id>, ins: seq<Op>, x: Id, y: Id)
    requires Grown(t, u, dead, ins) && x in t.items && y in t.items
    ensures InPlace(u.items, x, y) <==> InPlace(t.items, x, y)
  {
    hide GrownAt;
    RootedParentsOf(t, x);
    RootedParentsOf(t, y);
    SameParents(t, u, dead, ins, x, y);
    SameParents(t, u, dead, ins, y, x);
    SameBefore(t.items, u.items, x, y);
    SameBefore(t.items, u.items, y, x);
    var p := ParentOf(t.items, y);
    if p != Root { SameParents(t, u, dead, ins, x, p); }
  }

  /**
   Undo puts every deleted character back in its place if and only if the entry took
   nothing back that it had typed itself, and the deleted items are revivable in the
   document before the entry.
   */
  lemma UndoRestoresExactlyWhenRevivable(t: Tree, u: Tree, ops: seq<Op>, site: string, c: int)
    requires Told(t, u, ops) && ValidSite(site) && ClocksUpTo(u.items, c)
    ensures VisibleIds(Undone(u, ops, site, c)) == Restored(VisibleIds(t), ops, site, c) <==>
      TakenBack(ops) == {} && Revivable(t.items, VisibleIds(t), Reverse(Deleted(ops)))
  {
    hide GrownAt, Revivable, Lines;
    var w, v, ids := Undone(u, ops, site, c), VisibleIds(t), Reverse(Deleted(ops));
    UndoneIsRevived(t, u, ops, site, c);
    if d :| d in TakenBack(ops) {
      NotListed(t, u, ops, d);
      StrayCopy(u, w, Reverse(InsertedIds(ops)), ids, v, site, c, d);
    } else {
      OldLines(t, u, ops);
      RevivalIsExactlyRevivable(u, w, Reverse(InsertedIds(ops)), ids, v, site, c);
      OldIdsAreOld(t, u, ops);
      RevivableStays(t, u, Deleted(ops), Inserted(ops), v, ids);
    }
  }

  lemma NotListed(t: Tree, u: Tree, ops: seq<Op>, d: Id)
    requires Told(t, u, ops) && d in TakenBack(ops)
    ensures d in Reverse(Deleted(ops)) && d !in VisibleIds(t) && forall k :: k in VisibleIds(t) ==> k in u.items
  {
    ReverseMembers(Deleted(ops), d);
    ToldAlive(t, u, ops, d);
    VisibleFacts(t);
  }

  lemma OldIdsAreOld(t: Tree, u: Tree, ops: seq<Op>)
    requires Told(t, u, ops) && TakenBack(ops) == {}
    ensures forall x :: x in VisibleIds(t) || x in Reverse(Deleted(ops)) ==> x in t.items
  {
    VisibleFacts(t);
    forall x | x in Reverse(Deleted(ops)) ensures x in t.items {
      ReverseMembers(Deleted(ops), x);
      ToldAlive(t, u, ops, x);
      assert x !in TakenBack(ops);
    }
  }

  /** Undo shows one character too many for each one the entry both typed and deleted. */
  lemma UndoShowsTakenBack(t: Tree, u: Tree, ops: seq<Op>, site: string, c: int)
    requires Told(t, u, ops) && ValidSite(site) && ClocksUpTo(u.items, c)
    ensures |VisibleIds(Undone(u, ops, site, c))| == |VisibleIds(t)| + |TakenBack(ops)|
  {
    hide Told, Revived, WellFormed, Shown, Undone;
    ToldIsInvertible(t, u, ops);
    UndoneIsRevived(t, u, ops, site, c);
    RevivalCount(u, Undone(u, ops, site, c), Reverse(InsertedIds(ops)), Reverse(Deleted(ops)), site, c);
    ShownCount(t);
    UndoLeaves(t, u, ops);
    ExchangeCount(Shown(t), Elements(Deleted(ops)), TakenBack(ops));
    ToldIsDistinct(t, u, ops);
    DistinctCardinality(Deleted(ops));
  }

  lemma ToldIsDistinct(t: Tree, u: Tree, ops: seq<Op>)
    requires Told(t, u, ops)
    ensures Distinct(Deleted(ops)) && Distinct(InsertedIds(ops))
  {
    ToldIsInvertible(t, u, ops);
  }

  lemma UndoLeaves(t: Tree, u: Tree, ops: seq<Op>)
    requires Told(t, u, ops)
    ensures WellFormed(t) && WellFormed(u)
    ensures Shown(u) - Elements(Reverse(InsertedIds(ops))) == Shown(t) - Elements(Deleted(ops))
    ensures TakenBack(ops) !! Shown(t) && Elements(Deleted(ops)) <= Shown(t) + TakenBack(ops)
    ensures TakenBack(ops) <= Elements(Deleted(ops))
  {
    hide GrownAt;
    forall x ensures x in Shown(u) - Elements(Reverse(InsertedIds(ops))) <==> x in Shown(t) - Elements(Deleted(ops))
      ensures x in TakenBack(ops) ==> x !in Shown(t)
      ensures x in Deleted(ops) ==> x in Shown(t) + TakenBack(ops)
    {
      ToldAlive(t, u, ops, x);
      ReverseMembers(InsertedIds(ops), x);
      VisibleFacts(t);
      VisibleFacts(u);
    }
  }

  // ----- redo ----------------------------------------------------------------------------------------

  /** The document after undo and redo, with the clock at `c` and then at `c2`. */
  ghost function Redone(u: Tree, ops: seq<Op>, site: string, c: int, c2: int): (z: Tree)
    requires WellFormed(u)
    ensures WellFormed(z)
  {
    Undone(Undone(u, ops, site, c), InverseOps(u.items, ops, site, c).ops, site, c2)
  }

  /** The visible ids with every typed one replaced by its copy. */
  function Retyped(v: seq<Id>, ops: seq<Op>, site: string, c2: int): seq<Id> {
    Copied(v, InsertedIds(ops), site, c2)
  }

  /** The undo entry speaks of items the undone document has. */
  lemma InverseIsKnown(t: Tree, u: Tree, ops: seq<Op>, site: string, c: int)
    requires Told(t, u, ops) && ValidSite(site) && ClocksUpTo(u.items, c)
    ensures var w, inv := Undone(u, ops, site, c), InverseOps(u.items, ops, site, c).ops;
      && WellFormed(w) && Invertible(w.items, inv) && forall k :: k in InsertedIds(inv) || k in Deleted(inv) ==>
        k in w.items
  {
    hide GrownAt, WellFormed, Deleted, Inserted, InverseOps, JsRun;
    var w, inv := Undone(u, ops, site, c), InverseOps(u.items, ops, site, c).ops;
    ToldIsInvertible(t, u, ops);
    InverseRuns(u, ops, site, c);
    InverseSplits(u.items, ops, site, c);
    forall k | k in InsertedIds(inv) || k in Deleted(inv) ensures k in w.items { ReverseMembers(InsertedIds(ops), k); }
    forall i | 0 <= i < |inv| && inv[i].Del? ensures inv[i].id in w.items { DeletedHolds(inv, i); }
  }

  lemma RedoneIsRevived(t: Tree, u: Tree, ops: seq<Op>, site: string, c: int, c2: int)
    requires Told(t, u, ops) && ValidSite(site) && ClocksUpTo(u.items, c) &&
      ClocksUpTo(Undone(u, ops, site, c).items, c2)
    ensures var w, ids := Undone(u, ops, site, c), Reverse(Deleted(ops));
      var back := Reverse(InsIds(Revive(u.items, ids, site, c)));
      Revived(w, Redone(u, ops, site, c, c2), back, InsertedIds(ops), site, c2)
    ensures var w, inv := Undone(u, ops, site, c), InverseOps(u.items, ops, site, c).ops;
      var again := InverseOps(w.items, inv, site, c2).ops;
      |inv| == |ops| && |again| == |inv| && JsRun(w, again).error.None?
  {
    hide Grown, Told, Deleted, Inserted, InverseOps, JsRun, Revive, InsIds;
    ToldIsInvertible(t, u, ops);
    InverseIsKnown(t, u, ops, site, c);
    var w, ids, inv := Undone(u, ops, site, c), Reverse(Deleted(ops)), InverseOps(u.items, ops, site, c).ops;
    var back := InsIds(Revive(u.items, ids, site, c));
    InverseSplits(u.items, ops, site, c);
    InverseReversed(t, u, ops, site, c);
    assert InsertedIds(inv) == back;
    forall k | k in Reverse(back) ensures k in w.items { ReverseMembers(back, k); }
    forall k | k in InsertedIds(ops) ensures k in w.items {
      ReverseMembers(InsertedIds(ops), k);
    }
    InverseRuns(w, inv, site, c2);
    InverseSplits(w.items, inv, site, c2);
  }

  lemma InverseReversed(t: Tree, u: Tree, ops: seq<Op>, site: string, c: int)
    requires Told(t, u, ops)
    ensures Reverse(Deleted(InverseOps(u.items, ops, site, c).ops)) == InsertedIds(ops)
  {
    ToldIsInvertible(t, u, ops);
    InverseSplits(u.items, ops, site, c);
    ReverseTwice(InsertedIds(ops));
  }

  /** What was typed was never blocked by what had been there before. */
  lemma TypedIsUnblocked(t: Tree, u: Tree, ops: seq<Op>)
    requires Told(t, u, ops)
    ensures Unblocked(u.items, VisibleIds(u), InsertedIds(ops))
  {
    hide GrownAt;
    var v, ins := VisibleIds(u), Inserted(ops);
    VisibleFacts(u);
    forall i, j | 0 <= i < j < |v| && v[j] in InsIds(ins) && v[i] !in InsIds(ins)
      ensures !Behind(u.items, ParentOf(u.items, v[j]), v[i])
    {
      var m :| 0 <= m < |ins| && InsIds(ins)[m] == v[j];
      assert v[i] in v;
      ToldAlive(t, u, ops, v[i]);
      GrownStep(t, u, Deleted(ops), ins, m, v[i]);
      BeforeIsAsymmetric(u.items, v[i], v[j]);
      TypedParent(t, u, ops, m);
    }
  }

  lemma TypedParent(t: Tree, u: Tree, ops: seq<Op>, m: nat)
    requires Told(t, u, ops) && m < |Inserted(ops)|
    ensures var op := Inserted(ops)[m];
      op.Ins? && op.id in u.items && u.items[op.id].after == ParentOf(u.items, op.id) == op.after
  {
    assert GrownAt(t.items, u.items, Deleted(ops), Inserted(ops), m);
  }

  /**
   Redo puts every typed character back in its place if and only if the entry took
   nothing back and, of any two typed items, the later one stands first exactly if its
   parent stands at or before the other's.
   */
  lemma RedoRestoresExactlyWhenInPlace(t: Tree, u: Tree, ops: seq<Op>, site: string, c: int, c2: int)
    requires Told(t, u, ops) && ValidSite(site) && ClocksUpTo(u.items, c) &&
      ClocksUpTo(Undone(u, ops, site, c).items, c2)
    ensures VisibleIds(Redone(u, ops, site, c, c2)) == Retyped(VisibleIds(u), ops, site, c2) <==>
      TakenBack(ops) == {} && AllInPlace(u.items, InsertedIds(ops))
  {
    hide GrownAt, AllInPlace, Unblocked;
    var w, z, inv := Undone(u, ops, site, c), Redone(u, ops, site, c, c2), InverseOps(u.items, ops, site, c).ops;
    if d :| d in TakenBack(ops) {
      RedoneIsRevived(t, u, ops, site, c, c2);
      TakenBackIsHidden(t, u, ops, site, c, d);
      var back := Reverse(InsIds(Revive(u.items, Reverse(Deleted(ops)), site, c)));
      StrayCopy(w, z, back, InsertedIds(ops), VisibleIds(u), site, c2, d);
    } else {
      InverseIsTold(t, u, ops, site, c);
      InverseReversed(t, u, ops, site, c);
      UndoRestoresExactlyWhenRevivable(u, w, inv, site, c2);
      TypedIsUnblocked(t, u, ops);
    }
  }

  lemma TakenBackIsHidden(t: Tree, u: Tree, ops: seq<Op>, site: string, c: int, d: Id)
    requires Told(t, u, ops) && ValidSite(site) && ClocksUpTo(u.items, c) && d in TakenBack(ops)
    ensures d in InsertedIds(ops) && d !in VisibleIds(u)
    ensures forall k :: k in VisibleIds(u) ==> k in Undone(u, ops, site, c).items
  {
    hide GrownAt;
    ToldAlive(t, u, ops, d);
    VisibleFacts(u);
    UndoneIsRevived(t, u, ops, site, c);
  }

  /** Redo, too, shows one character too many for each one the entry both typed and deleted. */
  lemma RedoShowsTakenBack(t: Tree, u: Tree, ops: seq<Op>, site: string, c: int, c2: int)
    requires Told(t, u, ops) && ValidSite(site) && ClocksUpTo(u.items, c) &&
      ClocksUpTo(Undone(u, ops, site, c).items, c2)
    ensures |VisibleIds(Redone(u, ops, site, c, c2))| == |VisibleIds(u)| + |TakenBack(ops)|
  {
    hide Told, Revived, WellFormed, Shown, Undone, Redone;
    ToldIsInvertible(t, u, ops);
    var w, ids := Undone(u, ops, site, c), Reverse(Deleted(ops));
    var back := InsIds(Revive(u.items, ids, site, c));
    UndoneIsRevived(t, u, ops, site, c);
    RedoneIsRevived(t, u, ops, site, c, c2);
    RevivalCount(w, Redone(u, ops, site, c, c2), Reverse(back), InsertedIds(ops), site, c2);
    ShownCount(u);
    RedoLeaves(t, u, w, ops, site, c);
    ExchangeCount(Shown(u), Elements(InsertedIds(ops)), TakenBack(ops));
    DistinctCardinality(InsertedIds(ops));
  }

  lemma RedoLeaves(t: Tree, u: Tree, w: Tree, ops: seq<Op>, site: string, c: int)
    requires Told(t, u, ops) && Revived(u, w, Reverse(InsertedIds(ops)), Reverse(Deleted(ops)), site, c)
    ensures WellFormed(u) && WellFormed(w)
    ensures Shown(w) - Elements(Reverse(InsIds(Revive(u.items, Reverse(Deleted(ops)), site, c)))) ==
      Shown(u) - Elements(InsertedIds(ops))
    ensures TakenBack(ops) !! Shown(u) && Elements(InsertedIds(ops)) <= Shown(u) + TakenBack(ops)
    ensures TakenBack(ops) <= Elements(InsertedIds(ops))
  {
    hide GrownAt;
    var back := InsIds(Revive(u.items, Reverse(Deleted(ops)), site, c));
    forall x ensures x in Shown(w) - Elements(Reverse(back)) <==> x in Shown(u) - Elements(InsertedIds(ops))
      ensures x in TakenBack(ops) ==> x !in Shown(u)
      ensures x in InsertedIds(ops) ==> x in Shown(u) + TakenBack(ops)
    {
      ToldAlive(t, u, ops, x);
      RevivedShows(u, w, Reverse(InsertedIds(ops)), Reverse(Deleted(ops)), site, c, x);
      ReviveIds(u.items, Reverse(Deleted(ops)), site, c);
      ReverseMembers(InsertedIds(ops), x);
      ReverseMembers(back, x);
      VisibleFacts(u);
    }
  }

  // ----- the text ------------------------------------------------------------------------------------

  lemma RestoredCarries(t: Tree, u: Tree, ops: seq<Op>, site: string, c: int, text: string)
    requires Told(t, u, ops) && ValidSite(site) && ClocksUpTo(u.items, c) && text == Text(t)
    ensures Carry(Undone(u, ops, site, c).items, Restored(VisibleIds(t), ops, site, c), text)
  {
    hide GrownAt;
    TextIsWhatIsCarried(t, text);
    CarryStays(t, u, Deleted(ops), Inserted(ops), VisibleIds(t), text);
    UndoneIsRevived(t, u, ops, site, c);
    CopiedCarries(u, Undone(u, ops, site, c), Reverse(InsertedIds(ops)), Reverse(Deleted(ops)), VisibleIds(t), site,
      c, text);
  }

  /** Then undo restores the text. */
  lemma UndoRestoresText(t: Tree, u: Tree, ops: seq<Op>, site: string, c: int, text: string)
    requires Told(t, u, ops) && ValidSite(site) && ClocksUpTo(u.items, c) && text == Text(t)
    requires TakenBack(ops) == {} && Revivable(t.items, VisibleIds(t), Reverse(Deleted(ops)))
    ensures Text(Undone(u, ops, site, c)) == text
  {
    hide GrownAt, Revivable, Carry;
    UndoRestoresExactlyWhenRevivable(t, u, ops, site, c);
    RestoredCarries(t, u, ops, site, c, text);
    TextIsWhatIsCarried(Undone(u, ops, site, c), text);
  }

  /** Where no letter occurs twice, the text decides which id stands where. */
  lemma LettersFixIds(items: map<Id, Item>, a: seq<Id>, b: seq<Id>, text: string)
    requires Carry(items, a, text) && Carry(items, b, text) && Distinct(text) && forall x :: x in a <==> x in b
    ensures a == b
  {
    forall i | 0 <= i < |a| ensures a[i] == b[i] {
      assert a[i] in b;
      var j :| 0 <= j < |b| && b[j] == a[i];
      assert items[a[i]].ch == [text[i]] == [text[j]];
    }
  }

  /** On a text without repeated letters the condition is also necessary for the text itself. */
  lemma UndoRestoresTextExactlyWhenRevivable(t: Tree, u: Tree, ops: seq<Op>, site: string, c: int, text: string)
    requires Told(t, u, ops) && ValidSite(site) && ClocksUpTo(u.items, c) && text == Text(t) && Distinct(text)
    ensures Text(Undone(u, ops, site, c)) == text <==>
      TakenBack(ops) == {} && Revivable(t.items, VisibleIds(t), Reverse(Deleted(ops)))
  {
    hide GrownAt, Revivable, Carry, Lines, Distinct;
    var w, ids, v := Undone(u, ops, site, c), Reverse(Deleted(ops)), VisibleIds(t);
    VisibleFacts(t);
    VisibleFacts(w);
    UndoShowsTakenBack(t, u, ops, site, c);
    if TakenBack(ops) == {} {
      if Revivable(t.items, v, ids) { UndoRestoresText(t, u, ops, site, c, text); }
      if Text(w) == text { SameTextSameIds(t, u, ops, site, c, text); }
    }
  }

  lemma SameTextSameIds(t: Tree, u: Tree, ops: seq<Op>, site: string, c: int, text: string)
    requires Told(t, u, ops) && ValidSite(site) && ClocksUpTo(u.items, c) && text == Text(t) && Distinct(text)
    requires TakenBack(ops) == {} && Text(Undone(u, ops, site, c)) == text
    ensures Revivable(t.items, VisibleIds(t), Reverse(Deleted(ops)))
  {
    hide GrownAt, Revivable, Carry, Lines, Distinct;
    var w, v, ids := Undone(u, ops, site, c), VisibleIds(t), Reverse(Deleted(ops));
    RestoredCarries(t, u, ops, site, c, text);
    TextIsWhatIsCarried(w, text);
    UndoneIsRevived(t, u, ops, site, c);
    OldLines(t, u, ops);
    VisibleFacts(w);
    forall x ensures x in Restored(v, ops, site, c) <==> x in VisibleIds(w) {
      CopiedIsAlive(u, w, Reverse(InsertedIds(ops)), ids, v, site, c, x);
    }
    LettersFixIds(w.items, VisibleIds(w), Restored(v, ops, site, c), text);
    UndoRestoresExactlyWhenRevivable(t, u, ops, site, c);
  }

  /** Redo restores the edited text under its condition, and on a text without repeated letters only then. */
  lemma RedoRestoresText(t: Tree, u: Tree, ops: seq<Op>, site: string, c: int, c2: int, text: string)
    requires Told(t, u, ops) && ValidSite(site) && ClocksUpTo(u.items, c) &&
      ClocksUpTo(Undone(u, ops, site, c).items, c2)
    requires text == Text(u)
    ensures TakenBack(ops) == {} && AllInPlace(u.items, InsertedIds(ops)) ==> Text(Redone(u, ops, site, c, c2)) == text
    ensures Distinct(text) && Text(Redone(u, ops, site, c, c2)) == text ==>
      TakenBack(ops) == {} && AllInPlace(u.items, InsertedIds(ops))
  {
    hide GrownAt, AllInPlace, Unblocked, Distinct;
    var w, z, inv := Undone(u, ops, site, c), Redone(u, ops, site, c, c2), InverseOps(u.items, ops, site, c).ops;
    RedoShowsTakenBack(t, u, ops, site, c, c2);
    VisibleFacts(u);
    VisibleFacts(z);
    if TakenBack(ops) == {} {
      InverseIsTold(t, u, ops, site, c);
      InverseReversed(t, u, ops, site, c);
      TypedIsUnblocked(t, u, ops);
      if AllInPlace(u.items, InsertedIds(ops)) { UndoRestoresText(u, w, inv, site, c2, text); }
      if Distinct(text) { UndoRestoresTextExactlyWhenRevivable(u, w, inv, site, c2, text); }
    }
  }
}
