/**
 Undo of an entry at any later moment (static/app.js:961-1048): after other entries were
 typed or undone, after operations of other authors, in any order. An undo batch is an
 entry too, so all of it holds of redo.
 */
module Later {
  import opened Sequences
  import opened Ids
  import opened Rga
  import opened RgaEdits
  import opened Ops
  import opened Views
  import opened Growth
  import opened Edits
  import opened Undo
  import opened Entries
  import opened Stacks

  /** The document has been through the entry: what it typed is there, what it deleted is deleted, each once. */
  ghost predicate Happened(items: map<Id, Item>, ops: seq<Op>) {
    && Known(items, ops) && Distinct(InsertedIds(ops)) && Distinct(Deleted(ops))
    && forall d :: d in Deleted(ops) ==> !Alive(items, d)
  }

  // ----- an entry that has happened stays so -------------------------------------------------

  lemma ToldHappened(t: Tree, u: Tree, ops: seq<Op>)
    requires Told(t, u, ops)
    ensures Happened(u.items, ops)
  {
    hide Grown;
    ToldIsInvertible(t, u, ops);
    forall d | d in Deleted(ops) ensures !Alive(u.items, d) { ToldAlive(t, u, ops, d); }
  }

  /** `b` is `a` some operations later: nothing vanished, moved or came alive. */
  ghost predicate Onwards(a: map<Id, Item>, b: map<Id, Item>) {
    Keeps(a, b) && forall k :: k in a && a[k].deleted ==> b[k].deleted
  }

  /** Whatever operations arrive, from whomever, even where the batch fails half-way. */
  lemma {:induction false} RunsOnwards(t: Tree, ops: seq<Op>)
    ensures Onwards(t.items, JsRun(t, ops).tree.items)
    decreases |ops|
  {
    hide JsApply;
    if ops != [] {
      StepsOnwards(t, ops[0]);
      RunsOnwards(JsApply(t, ops[0]).tree, ops[1..]);
    }
  }

  lemma StepsOnwards(t: Tree, op: Op)
    ensures Onwards(t.items, JsApply(t, op).tree.items)
  {
  }

  lemma HappenedStays(t: Tree, ops: seq<Op>, more: seq<Op>)
    requires Happened(t.items, ops)
    ensures Happened(JsRun(t, more).tree.items, ops)
  {
    hide Onwards, Known, JsRun;
    RunsOnwards(t, more);
    StaysHappened(t.items, JsRun(t, more).tree.items, ops);
  }

  lemma StaysHappened(a: map<Id, Item>, b: map<Id, Item>, ops: seq<Op>)
    requires Happened(a, ops) && Onwards(a, b)
    ensures Happened(b, ops)
  {
    KnownStays(a, b, ops);
  }

  /** A further batch typed into the entry, whatever happened since the last one. */
  lemma HappenedThen(m: Tree, u: Tree, ops: seq<Op>, more: seq<Op>)
    requires Happened(m.items, ops) && Told(m, u, more)
    ensures Happened(u.items, ops + more)
  {
    hide Grown;
    ToldHappened(m, u, more);
    ToldOnwards(m, u, more);
    StaysHappened(m.items, u.items, ops);
    KnownParts(u.items, ops, more);
    SplitConcat(ops, more);
    ToldIsInvertible(m, u, more);
    forall d | d in Deleted(more) ensures d !in Deleted(ops) { NotYetDeleted(m, u, ops, more, d); }
    DistinctTogether(Deleted(ops), Deleted(more));
    InsertedConcat(ops, more);
    DistinctTogether(InsertedIds(ops), InsertedIds(more));
  }

  lemma ToldOnwards(t: Tree, u: Tree, ops: seq<Op>)
    requires Told(t, u, ops)
    ensures Onwards(t.items, u.items)
  {
    hide GrownAt;
  }

  lemma NotYetDeleted(m: Tree, u: Tree, ops: seq<Op>, more: seq<Op>, d: Id)
    requires Happened(m.items, ops) && Told(m, u, more) && d in Deleted(more)
    ensures d !in Deleted(ops)
  {
    hide Grown;
  }

  // ----- undo, whenever it comes ----------------------------------------------------------------

  /** What undo is to show, in document order: what is visible and not typed by the entry, and what it deleted. */
  ghost function Returning(t: Tree, ops: seq<Op>): (v: seq<Id>)
    requires WellFormed(t)
  {
    Filter(Order(t), set k | k in t.items && (k in Deleted(ops) || (Alive(t.items, k) && k !in InsertedIds(ops))))
  }

  lemma ReturningLines(t: Tree, ops: seq<Op>)
    requires WellFormed(t) && Happened(t.items, ops)
    ensures Lines(t, Reverse(InsertedIds(ops)), Reverse(Deleted(ops)), Returning(t, ops))
  {
    hide Order;
    var keep := set k | k in t.items && (k in Deleted(ops) || (Alive(t.items, k) && k !in InsertedIds(ops)));
    OrderListsItems(t);
    OrderIsSortedListing(t);
    FilterSorted(BeforeIn(t.items), Order(t), keep);
    forall x
      ensures x in Reverse(Deleted(ops)) <==> x in Deleted(ops)
      ensures x in Reverse(InsertedIds(ops)) <==> x in InsertedIds(ops)
    {
      ReverseMembers(Deleted(ops), x);
      ReverseMembers(InsertedIds(ops), x);
    }
  }

  lemma LaterIsRevived(t: Tree, ops: seq<Op>, site: string, c: int)
    requires WellFormed(t) && ValidSite(site) && ClocksUpTo(t.items, c) && Happened(t.items, ops)
    ensures JsRun(t, InverseOps(t.items, ops, site, c).ops).error.None?
    ensures Revived(t, Undone(t, ops, site, c), Reverse(InsertedIds(ops)), Reverse(Deleted(ops)), site, c)
  {
    hide Grown, WellFormed, InverseOps, JsRun;
    InverseRuns(t, ops, site, c);
    DistinctReverse(Deleted(ops));
    forall k ensures k in Reverse(InsertedIds(ops)) <==> k in InsertedIds(ops) { ReverseMembers(InsertedIds(ops), k); }
    forall k ensures k in Reverse(Deleted(ops)) <==> k in Deleted(ops) { ReverseMembers(Deleted(ops), k); }
  }

  /**
   `w` shows as much as there is to show, nothing the entry typed, and what it deleted
   in its place exactly if that was revivable in `t`.
   */
  ghost predicate ReturnsExactly(t: Tree, w: Tree, ops: seq<Op>, site: string, c: int)
    requires WellFormed(t) && WellFormed(w)
  {
    var v, ids := Returning(t, ops), Reverse(Deleted(ops));
    && (VisibleIds(w) == Copied(v, ids, site, c) <==> Revivable(t.items, v, ids))
    && |VisibleIds(w)| == |v| && forall k :: k in InsertedIds(ops) ==> !Alive(w.items, k)
  }

  /**
   Undo at any later moment: nothing the entry typed is left, as much is visible as there
   is to show, and every deleted character returns to its place among it if and only if
   what the entry deleted is revivable in the document as it is then.
   */
  lemma UndoLaterExactlyWhen(t: Tree, ops: seq<Op>, site: string, c: int)
    requires WellFormed(t) && ValidSite(site) && ClocksUpTo(t.items, c) && Happened(t.items, ops)
    ensures ReturnsExactly(t, Undone(t, ops, site, c), ops, site, c)
  {
    hide Grown, Lines, Revivable, Undone, WellFormed, Known, Deleted, Inserted, InsertedIds;
    var w, v, ids, dead := Undone(t, ops, site, c), Returning(t, ops), Reverse(Deleted(ops)), Reverse(InsertedIds(ops));
    LaterIsRevived(t, ops, site, c);
    ReturningLines(t, ops);
    RevivalIsExactlyRevivable(t, w, dead, ids, v, site, c);
    AsMuchIsShown(t, w, dead, ids, v, site, c);
    forall k | k in InsertedIds(ops) ensures !Alive(w.items, k) { TypedIsGone(t, w, ops, site, c, k); }
  }

  lemma TypedIsGone(t: Tree, w: Tree, ops: seq<Op>, site: string, c: int, k: Id)
    requires Revived(t, w, Reverse(InsertedIds(ops)), Reverse(Deleted(ops)), site, c) && k in InsertedIds(ops)
    ensures !Alive(w.items, k)
  {
    hide GrownAt;
    ReverseMembers(InsertedIds(ops), k);
    GrownAlive(t, w, Reverse(InsertedIds(ops)), Revive(t.items, Reverse(Deleted(ops)), site, c), k);
  }

  lemma AsMuchIsShown(t: Tree, w: Tree, dead: seq<Id>, ids: seq<Id>, v: seq<Id>, site: string, c: int)
    requires Revived(t, w, dead, ids, site, c) && Lines(t, dead, ids, v) && WellFormed(w)
    ensures |VisibleIds(w)| == |v|
  {
    hide GrownAt, WellFormed;
    RevivedIsWellFormed(t, w, dead, ids, site, c);
    var copied := Copied(v, ids, site, c);
    VisibleFacts(w);
    forall x ensures x in Elements(copied) <==> x in Elements(VisibleIds(w)) {
      CopiedIsAlive(t, w, dead, ids, v, site, c, x);
    }
    assert Elements(copied) == Elements(VisibleIds(w));
    forall i, j | 0 <= i < j < |copied| ensures copied[i] != copied[j] {
      DistinctLines(t, dead, ids, v, i, j);
      CopiesDiffer(t, w, dead, ids, v, site, c, i, j);
    }
    DistinctCardinality(copied);
    DistinctCardinality(VisibleIds(w));
  }

  lemma CopiesDiffer(t: Tree, w: Tree, dead: seq<Id>, ids: seq<Id>, v: seq<Id>, site: string, c: int, i: nat, j: nat)
    requires Revived(t, w, dead, ids, site, c) && Lines(t, dead, ids, v) && i < |v| && j < |v| && v[i] != v[j]
    ensures CopyOf(ids, v[i], site, c) != CopyOf(ids, v[j], site, c)
  {
    hide Grown;
    assert v[i] in v && v[j] in v;
    CopyIsNew(t, w, dead, ids, site, c, v[i]);
    CopyIsNew(t, w, dead, ids, site, c, v[j]);
    LinesAreKnown(t, w, dead, ids, v, site, c, v[i]);
    LinesAreKnown(t, w, dead, ids, v, site, c, v[j]);
  }

  lemma CopyIsNew(t: Tree, w: Tree, dead: seq<Id>, ids: seq<Id>, site: string, c: int, x: Id)
    requires Revived(t, w, dead, ids, site, c)
    ensures x in ids ==> CopyOf(ids, x, site, c) !in t.items
  {
    hide GrownAt;
    var r := Revive(t.items, ids, site, c);
    if x in ids {
      assert InsIds(r)[IndexOf(ids, x)] == CopyOf(ids, x, site, c);
      GrownAlive(t, w, dead, r, CopyOf(ids, x, site, c));
    }
  }

  /** Then the text shown is what the returning items spell. */
  lemma UndoLaterShows(t: Tree, ops: seq<Op>, site: string, c: int, text: string)
    requires WellFormed(t) && ValidSite(site) && ClocksUpTo(t.items, c) && Happened(t.items, ops)
    requires Carry(t.items, Returning(t, ops), text)
    ensures Revivable(t.items, Returning(t, ops), Reverse(Deleted(ops))) ==> Text(Undone(t, ops, site, c)) == text
  {
    hide Grown, Revivable, Undone, Carry, Known;
    var w, v, ids := Undone(t, ops, site, c), Returning(t, ops), Reverse(Deleted(ops));
    LaterIsRevived(t, ops, site, c);
    UndoLaterExactlyWhen(t, ops, site, c);
    CopiedCarries(t, w, Reverse(InsertedIds(ops)), ids, v, site, c, text);
    TextIsWhatIsCarried(w, text);
  }

  /** Right after an entry that took nothing back, what returns is what was visible before it. */
  lemma ReturningIsOld(t: Tree, u: Tree, ops: seq<Op>)
    requires Told(t, u, ops) && TakenBack(ops) == {}
    ensures WellFormed(u) && Returning(u, ops) == VisibleIds(t)
  {
    hide Grown, Lines;
    ToldIsInvertible(t, u, ops);
    ToldHappened(t, u, ops);
    OldLines(t, u, ops);
    ReturningLines(u, ops);
    SameLines(u, Reverse(InsertedIds(ops)), Reverse(Deleted(ops)), VisibleIds(t), Returning(u, ops));
  }

  lemma SameLines(t: Tree, dead: seq<Id>, ids: seq<Id>, a: seq<Id>, b: seq<Id>)
    requires Lines(t, dead, ids, a) && Lines(t, dead, ids, b)
    ensures a == b
  {
    var less := BeforeIn(t.items);
    forall x, y ensures !(less(x, y) && less(y, x)) { BeforeIsAsymmetric(t.items, x, y); }
    SortedListingIsUnique(less, a, b);
  }

  /** The undo batch has happened as well: redo is undo of it, at any later moment. */
  lemma InverseHappened(t: Tree, ops: seq<Op>, site: string, c: int)
    requires WellFormed(t) && ValidSite(site) && ClocksUpTo(t.items, c) && Happened(t.items, ops)
    ensures var inv, w := InverseOps(t.items, ops, site, c), Undone(t, ops, site, c);
      Happened(w.items, inv.ops) && ClocksUpTo(w.items, inv.clock)
  {
    hide Grown, Inserted, Deleted, WellFormed, InverseOps;
    var inv, w := InverseOps(t.items, ops, site, c), Undone(t, ops, site, c);
    UndoneKnown(t, ops, site, c);
    LaterIsRevived(t, ops, site, c);
    InverseSplits(t.items, ops, site, c);
    DistinctReverse(InsertedIds(ops));
    forall d | d in Deleted(inv.ops) ensures !Alive(w.items, d) {
      ReverseMembers(InsertedIds(ops), d);
      TypedIsGone(t, w, ops, site, c, d);
    }
    ReviveIds(t.items, Reverse(Deleted(ops)), site, c);
  }
}
