/**
 Several entries of the undo stack (static/app.js:942-1048): undoing them one after the
 other, last one first, is undoing all their operations as one entry, and redoing them
 is redoing that entry. What holds of one entry thereby holds of any number.
 */
module Stacks {
  import opened Sequences
  import opened Ids
  import opened Rga
  import opened Ops
  import opened Views
  import opened Growth
  import opened Edits
  import opened Undo
  import opened Entries
  import opened Bursts

  /** All operations of the entries, oldest first. */
  function Flat(entries: seq<seq<Op>>): seq<Op>
    decreases |entries|
  {
    if entries == [] then [] else Flat(entries[..|entries| - 1]) + entries[|entries| - 1]
  }

  /** A document and clock, and the batches that led there in the order they were made. */
  datatype Stage = Stage(tree: Tree, batches: seq<seq<Op>>, clock: int)

  /** The entries are taken back from the last to the first. */
  ghost function UndoneAll(m: Tree, entries: seq<seq<Op>>, site: string, c: int): (r: Stage)
    requires WellFormed(m)
    ensures WellFormed(r.tree)
    decreases |entries|
  {
    if entries == [] then Stage(m, [], c) else
      var n := |entries| - 1;
      var inv := InverseOps(m.items, entries[n], site, c);
      var rest := UndoneAll(Undone(m, entries[n], site, c), entries[..n], site, inv.clock);
      rest.(batches := [inv.ops] + rest.batches)
  }

  /** The redo stack holds the undo batches in the order they were made; the last one is redone first. */
  ghost function RedoneAll(m: Tree, entries: seq<seq<Op>>, site: string, c: int): (z: Stage)
    requires WellFormed(m)
    ensures WellFormed(z.tree)
  {
    var r := UndoneAll(m, entries, site, c);
    UndoneAll(r.tree, r.batches, site, r.clock)
  }

  lemma {:induction false} FlatCons(ops: seq<Op>, rest: seq<seq<Op>>)
    ensures Flat([ops] + rest) == ops + Flat(rest)
    decreases |rest|
  {
    var all := [ops] + rest;
    if rest == [] {
      assert all == [ops] && all[..0] == [];
    } else {
      var n := |rest| - 1;
      assert all[..|all| - 1] == [ops] + rest[..n] && all[|all| - 1] == rest[n];
      FlatCons(ops, rest[..n]);
      assert (ops + Flat(rest[..n])) + rest[n] == ops + (Flat(rest[..n]) + rest[n]);
    }
  }

  // ----- entries the document knows --------------------------------------------------------------

  /** The document has every item the operations speak of. */
  ghost predicate Known(items: map<Id, Item>, ops: seq<Op>) {
    Invertible(items, ops) && forall k :: k in InsertedIds(ops) || k in Deleted(ops) ==> k in items
  }

  lemma KnownParts(items: map<Id, Item>, a: seq<Op>, b: seq<Op>)
    ensures Known(items, a + b) <==> Known(items, a) && Known(items, b)
  {
    SplitConcat(a, b);
    InsertedConcat(a, b);
    if Known(items, a + b) {
      forall i | 0 <= i < |a| ensures a[i].Ins? || (a[i].Del? && a[i].id in items) { assert a[i] == (a + b)[i]; }
      forall i | 0 <= i < |b| ensures b[i].Ins? || (b[i].Del? && b[i].id in items) { assert b[i] == (a + b)[|a| + i]; }
    }
  }

  lemma InsertedConcat(a: seq<Op>, b: seq<Op>)
    ensures InsertedIds(a + b) == InsertedIds(a) + InsertedIds(b)
  {
    SplitConcat(a, b);
  }

  lemma ToldIsKnown(t: Tree, u: Tree, ops: seq<Op>)
    requires Told(t, u, ops)
    ensures WellFormed(t) && WellFormed(u) && Known(u.items, ops)
  {
    ToldIsInvertible(t, u, ops);
  }

  /** `b` has all items of `a`, under the same parents and with the same characters. */
  ghost predicate Keeps(a: map<Id, Item>, b: map<Id, Item>) {
    forall k :: k in a ==> k in b && b[k].after == a[k].after && b[k].ch == a[k].ch
  }

  lemma KnownStays(a: map<Id, Item>, b: map<Id, Item>, ops: seq<Op>)
    requires Known(a, ops) && Keeps(a, b)
    ensures Known(b, ops)
  {
  }

  lemma GrownKeeps(t: Tree, u: Tree, dead: seq<Id>, ins: seq<Op>)
    requires Grown(t, u, dead, ins)
    ensures Keeps(t.items, u.items)
  {
  }

  /** What undoing a known entry leaves: the items are kept, the clock covers them, the undo batch is known. */
  lemma UndoneKnown(m: Tree, ops: seq<Op>, site: string, c: int)
    requires WellFormed(m) && ValidSite(site) && ClocksUpTo(m.items, c) && Known(m.items, ops)
    ensures var inv, w := InverseOps(m.items, ops, site, c), Undone(m, ops, site, c);
      && JsRun(m, inv.ops).error.None? && |inv.ops| == |ops| && inv.clock == c + |Deleted(ops)|
      && ClocksUpTo(w.items, inv.clock) && Keeps(m.items, w.items) && Known(w.items, inv.ops)
  {
    hide WellFormed, Deleted, Inserted, InverseOps, JsRun, GrownAt, ClocksUpTo;
    var inv, w := InverseOps(m.items, ops, site, c), Undone(m, ops, site, c);
    InverseRuns(m, ops, site, c);
    InverseSplits(m.items, ops, site, c);
    GrownKeeps(m, w, Reverse(InsertedIds(ops)), Revive(m.items, Reverse(Deleted(ops)), site, c));
    forall k | k in InsertedIds(inv.ops) || k in Deleted(inv.ops) ensures k in w.items {
      ReverseMembers(InsertedIds(ops), k);
    }
    forall i | 0 <= i < |inv.ops| && inv.ops[i].Del? ensures inv.ops[i].id in w.items { DeletedHolds(inv.ops, i); }
  }

  // ----- one after the other is all at once ---------------------------------------------------------

  /** The inverse of two batches is the inverse of the second followed by that of the first. */
  lemma {:induction false} InverseConcat(items: map<Id, Item>, a: seq<Op>, b: seq<Op>, site: string, clock: int)
    ensures var second := InverseOps(items, b, site, clock);
      var first := InverseOps(items, a, site, second.clock);
      InverseOps(items, a + b, site, clock) == Inverse(second.ops + first.ops, first.clock)
    decreases |b|
  {
    if b == [] {
      assert a + b == a;
    } else {
      var n := |b| - 1;
      assert (a + b)[..|a + b| - 1] == a + b[..n] && (a + b)[|a + b| - 1] == b[n];
      InverseConcat(items, a, b[..n], site, if b[n].Del? && b[n].id in items then clock + 1 else clock);
    }
  }

  /** The inverse depends on parents and characters of the items it revives, and on nothing else. */
  lemma {:induction false} InverseElsewhere(a: map<Id, Item>, b: map<Id, Item>, ops: seq<Op>, site: string, clock: int)
    requires Invertible(a, ops) && Keeps(a, b)
    ensures InverseOps(b, ops, site, clock) == InverseOps(a, ops, site, clock)
    decreases |ops|
  {
    if ops != [] {
      var n := |ops| - 1;
      assert ops[n].Ins? || (ops[n].Del? && ops[n].id in a);
      assert Invertible(a, ops[..n]);
      InverseElsewhere(a, b, ops[..n], site, if ops[n].Del? then clock + 1 else clock);
    }
  }

  /** Undoing two entries in stack order is undoing their concatenation. */
  lemma UndoneTwice(m: Tree, a: seq<Op>, b: seq<Op>, site: string, c: int)
    requires WellFormed(m) && ValidSite(site) && ClocksUpTo(m.items, c) && Known(m.items, a + b)
    ensures var w, second := Undone(m, b, site, c), InverseOps(m.items, b, site, c);
      var first := InverseOps(w.items, a, site, second.clock);
      && Undone(w, a, site, second.clock) == Undone(m, a + b, site, c)
      && InverseOps(m.items, a + b, site, c) == Inverse(second.ops + first.ops, first.clock)
  {
    hide WellFormed, InverseOps, JsRun, Deleted, Inserted, InsertedIds;
    KnownParts(m.items, a, b);
    UndoneKnown(m, b, site, c);
    InverseConcat(m.items, a, b, site, c);
    var w, second := Undone(m, b, site, c), InverseOps(m.items, b, site, c);
    InverseElsewhere(m.items, w.items, a, site, second.clock);
    RunConcat(m, second.ops, InverseOps(m.items, a, site, second.clock).ops);
  }

  /**
   Undoing any number of consecutive entries, last one first, is undoing the one entry
   of all their operations; the undo batches together are its undo batch.
   */
  lemma {:induction false} UndoneAllIsUndone(m: Tree, entries: seq<seq<Op>>, site: string, c: int)
    requires WellFormed(m) && ValidSite(site) && ClocksUpTo(m.items, c) && Known(m.items, Flat(entries))
    ensures var r, inv := UndoneAll(m, entries, site, c), InverseOps(m.items, Flat(entries), site, c);
      && r.tree == Undone(m, Flat(entries), site, c) && r.clock == inv.clock && Flat(r.batches) == inv.ops
    decreases |entries|
  {
    hide WellFormed, InverseOps, Known, ClocksUpTo;
    if entries == [] {
      NothingUndone(m, site, c);
    } else {
      var n := |entries| - 1;
      var init, last := entries[..n], entries[n];
      var inv, w := InverseOps(m.items, last, site, c), Undone(m, last, site, c);
      KnownParts(m.items, Flat(init), last);
      UndoneKnown(m, last, site, c);
      KnownStays(m.items, w.items, Flat(init));
      UndoneAllIsUndone(w, init, site, inv.clock);
      UndoneTwice(m, Flat(init), last, site, c);
      FlatCons(inv.ops, UndoneAll(w, init, site, inv.clock).batches);
    }
  }

  lemma NothingUndone(m: Tree, site: string, c: int)
    requires WellFormed(m)
    ensures Undone(m, [], site, c) == m && InverseOps(m.items, [], site, c) == Inverse([], c) && Flat([]) == []
  {
  }

  /** Redoing all of them, first one first, is redoing that entry. */
  lemma RedoneAllIsRedone(m: Tree, entries: seq<seq<Op>>, site: string, c: int)
    requires WellFormed(m) && ValidSite(site) && ClocksUpTo(m.items, c) && Known(m.items, Flat(entries))
    ensures RedoneAll(m, entries, site, c).tree ==
      Redone(m, Flat(entries), site, c, InverseOps(m.items, Flat(entries), site, c).clock)
  {
    hide WellFormed, InverseOps, Known, ClocksUpTo, UndoneAll, Undone;
    var r := UndoneAll(m, entries, site, c);
    UndoneAllIsUndone(m, entries, site, c);
    UndoneKnown(m, Flat(entries), site, c);
    UndoneAllIsUndone(r.tree, r.batches, site, r.clock);
  }

  // ----- exactness of several undos -------------------------------------------------------------------

  /** The entries took `t` to `m`, one after the other. */
  ghost predicate Followed(t: Tree, m: Tree, entries: seq<seq<Op>>)
    decreases |entries|
  {
    if entries == [] then t == m && WellFormed(t)
    else
      var last := entries[|entries| - 1];
      exists u {:trigger Told(u, m, last)} :: Followed(t, u, entries[..|entries| - 1]) && Told(u, m, last)
  }

  lemma FollowedNowhere(t: Tree)
    requires WellFormed(t)
    ensures Followed(t, t, [])
  {
  }

  lemma FollowedMore(t: Tree, u: Tree, m: Tree, entries: seq<seq<Op>>, last: seq<Op>)
    requires Followed(t, u, entries) && Told(u, m, last)
    ensures Followed(t, m, entries + [last])
  {
    hide Told;
    var all := entries + [last];
    assert all[..|all| - 1] == entries && all[|all| - 1] == last;
    assert Followed(t, u, all[..|all| - 1]) && Told(u, m, all[|all| - 1]);
  }

  lemma ToldThen(t: Tree, u: Tree, m: Tree, a: seq<Op>, b: seq<Op>)
    requires Told(t, u, a) && Told(u, m, b)
    ensures Told(t, m, a + b)
  {
    hide Grown, Deleted, Inserted;
    SplitConcat(a, b);
    GrownThen(t, u, m, Deleted(a), Inserted(a), Deleted(b), Inserted(b));
    ToldIsInvertible(t, u, a);
    forall d | d in Deleted(b) ensures d !in Deleted(a) && (d in t.items ==> Alive(t.items, d)) {
      ToldAlive(t, u, a, d);
      ToldAlive(u, m, b, d);
    }
    DistinctTogether(Deleted(a), Deleted(b));
  }

  lemma DistinctTogether<T(!new)>(a: seq<T>, b: seq<T>)
    requires Distinct(a) && Distinct(b) && forall x :: x in b ==> x !in a
    ensures Distinct(a + b)
  {
    assert b[0..|b|] == b;
    DistinctConcat(a, b, 0, |b|);
  }

  /** Together they are one entry. */
  lemma {:induction false} FollowedIsTold(t: Tree, m: Tree, entries: seq<seq<Op>>)
    requires Followed(t, m, entries)
    ensures Told(t, m, Flat(entries))
    decreases |entries|
  {
    hide Told;
    if entries == [] {
      NothingIsTold(t);
    } else {
      var n := |entries| - 1;
      var last := entries[n];
      var u {:trigger Told(u, m, last)} :| Followed(t, u, entries[..n]) && Told(u, m, last);
      FollowedIsTold(t, u, entries[..n]);
      ToldThen(t, u, m, Flat(entries[..n]), last);
    }
  }

  /**
   Undoing any number of entries puts every character back in its place if and only if
   none of them deleted what one of them had typed, and what they deleted was revivable
   before the first. Each character typed and deleted among them comes out surplus.
   */
  lemma UndoAllExactlyWhen(t: Tree, m: Tree, entries: seq<seq<Op>>, site: string, c: int)
    requires Followed(t, m, entries) && WellFormed(t) && WellFormed(m) && ValidSite(site) && ClocksUpTo(m.items, c)
    ensures var ops, w := Flat(entries), UndoneAll(m, entries, site, c).tree;
      var exact := TakenBack(ops) == {} && Revivable(t.items, VisibleIds(t), Reverse(Deleted(ops)));
      && (VisibleIds(w) == Restored(VisibleIds(t), ops, site, c) <==> exact)
      && (exact ==> Text(w) == Text(t)) && (Distinct(Text(t)) ==> (Text(w) == Text(t) <==> exact))
      && |Text(w)| == |Text(t)| + |TakenBack(ops)|
  {
    hide Told, Revivable, Undone, UndoneAll, Distinct, Flat;
    var ops, w := Flat(entries), UndoneAll(m, entries, site, c).tree;
    FollowedIsTold(t, m, entries);
    ToldIsKnown(t, m, ops);
    UndoneAllIsUndone(m, entries, site, c);
    UndoRestoresExactlyWhenRevivable(t, m, ops, site, c);
    UndoShowsTakenBack(t, m, ops, site, c);
    VisibleFacts(t);
    VisibleFacts(w);
    if TakenBack(ops) == {} && Revivable(t.items, VisibleIds(t), Reverse(Deleted(ops))) {
      UndoRestoresText(t, m, ops, site, c, Text(t));
    }
    if Distinct(Text(t)) { UndoRestoresTextExactlyWhenRevivable(t, m, ops, site, c, Text(t)); }
  }

  /** The same for redoing all of them; here what they typed must be in place for retyping. */
  lemma RedoAllExactlyWhen(t: Tree, m: Tree, entries: seq<seq<Op>>, site: string, c: int)
    requires Followed(t, m, entries) && WellFormed(m) && ValidSite(site) && ClocksUpTo(m.items, c)
    ensures var ops, z := Flat(entries), RedoneAll(m, entries, site, c).tree;
      var exact := TakenBack(ops) == {} && AllInPlace(m.items, InsertedIds(ops));
      && (VisibleIds(z) == Retyped(VisibleIds(m), ops, site, UndoneAll(m, entries, site, c).clock) <==> exact)
      && (exact ==> Text(z) == Text(m)) && (Distinct(Text(m)) ==> (Text(z) == Text(m) <==> exact))
      && |Text(z)| == |Text(m)| + |TakenBack(ops)|
  {
    hide Told, AllInPlace, Undone, Redone, UndoneAll, RedoneAll, Distinct, Flat, InverseOps;
    var ops, z, c2 := Flat(entries), RedoneAll(m, entries, site, c).tree, UndoneAll(m, entries, site, c).clock;
    FollowedIsTold(t, m, entries);
    ToldIsKnown(t, m, ops);
    UndoneAllIsUndone(m, entries, site, c);
    RedoneAllIsRedone(m, entries, site, c);
    UndoneKnown(m, ops, site, c);
    RedoRestoresExactlyWhenInPlace(t, m, ops, site, c, c2);
    RedoShowsTakenBack(t, m, ops, site, c, c2);
    RedoRestoresText(t, m, ops, site, c, c2, Text(m));
    VisibleFacts(m);
    VisibleFacts(z);
  }

  // ----- entries as typing builds them ------------------------------------------------------------------

  function Join(sessions: seq<seq<string>>): seq<string>
    decreases |sessions|
  {
    if sessions == [] then [] else Join(sessions[..|sessions| - 1]) + sessions[|sessions| - 1]
  }

  /** One burst of texts after the other, with a pause between them: an entry for each. */
  ghost function Sessions(t: Tree, sessions: seq<seq<string>>, site: string, clock: int): (r: Stage)
    requires WellFormed(t)
    ensures WellFormed(r.tree) && |r.batches| == |sessions|
    decreases |sessions|
  {
    if sessions == [] then Stage(t, [], clock) else
      var n := |sessions| - 1;
      var before := Sessions(t, sessions[..n], site, clock);
      var b := Typing(before.tree, sessions[n], site, before.clock);
      Stage(b.tree, before.batches + [b.ops], b.clock)
  }

  lemma {:induction false} TypingJoins(t: Tree, a: seq<string>, b: seq<string>, site: string, clock: int)
    requires WellFormed(t)
    ensures var first := Typing(t, a, site, clock);
      var second := Typing(first.tree, b, site, first.clock);
      Typing(t, a + b, site, clock) == Burst(second.tree, first.ops + second.ops, second.clock)
    decreases |b|
  {
    hide LocalDiff, JsRun;
    var first := Typing(t, a, site, clock);
    if b == [] {
      assert a + b == a;
    } else {
      var n := |b| - 1;
      assert (a + b)[..|a + b| - 1] == a + b[..n] && (a + b)[|a + b| - 1] == b[n];
      TypingJoins(t, a, b[..n], site, clock);
      var mid := Typing(first.tree, b[..n], site, first.clock);
      var d := LocalDiff(mid.tree, b[n], site, mid.clock);
      assert (first.ops + mid.ops) + d.ops == first.ops + (mid.ops + d.ops);
    }
  }

  /** Typing with pauses and typing without lead to the same document; the entries split the one entry. */
  lemma {:induction false} SessionsAreOneBurst(t: Tree, sessions: seq<seq<string>>, site: string, clock: int)
    requires WellFormed(t)
    ensures var r := Sessions(t, sessions, site, clock);
      Typing(t, Join(sessions), site, clock) == Burst(r.tree, Flat(r.batches), r.clock)
    decreases |sessions|
  {
    hide Typing;
    if sessions == [] {
      BurstOfNothing(t, site, clock);
    } else {
      var n := |sessions| - 1;
      SessionsAreOneBurst(t, sessions[..n], site, clock);
      TypingJoins(t, Join(sessions[..n]), sessions[n], site, clock);
      var before := Sessions(t, sessions[..n], site, clock);
      assert Sessions(t, sessions, site, clock).batches[..n] == before.batches;
    }
  }

  lemma BurstOfNothing(t: Tree, site: string, clock: int)
    requires WellFormed(t)
    ensures Typing(t, [], site, clock) == Burst(t, [], clock)
  {
  }

  /** Undo and redo of several entries are undo and redo of the burst that typed the same texts without a pause. */
  lemma SessionsUndoAndRedo(t: Tree, sessions: seq<seq<string>>, site: string, clock: int)
    requires WellFormed(t) && ValidSite(site) && ClocksUpTo(t.items, clock)
    ensures var s, texts := Sessions(t, sessions, site, clock), Join(sessions);
      var r := UndoneAll(s.tree, s.batches, site, s.clock);
      && r.tree == UndoneBurst(t, texts, site, clock) && r.clock == UndoneClock(t, texts, site, clock)
      && RedoneAll(s.tree, s.batches, site, s.clock).tree == RedoneBurst(t, texts, site, clock)
  {
    hide Told, Typing, UndoneAll, RedoneAll, Undone, InverseOps, Sessions, Flat, Join;
    var s := Sessions(t, sessions, site, clock);
    var b := Typing(t, Join(sessions), site, clock);
    SessionsAreOneBurst(t, sessions, site, clock);
    TypingIsTold(t, Join(sessions), site, clock);
    ToldIsKnown(t, b.tree, b.ops);
    UndoneAllIsUndone(s.tree, s.batches, site, s.clock);
    RedoneAllIsRedone(s.tree, s.batches, site, s.clock);
  }

  lemma {:induction false} SessionsAreFollowed(t: Tree, sessions: seq<seq<string>>, site: string, clock: int)
    requires WellFormed(t) && ValidSite(site) && ClocksUpTo(t.items, clock)
    ensures var s := Sessions(t, sessions, site, clock);
      Followed(t, s.tree, s.batches) && ClocksUpTo(s.tree.items, s.clock)
    decreases |sessions|
  {
    hide Told, Typing, ClocksUpTo, Followed;
    FollowedNowhere(t);
    if sessions != [] {
      var n := |sessions| - 1;
      var before := Sessions(t, sessions[..n], site, clock);
      var b := Typing(before.tree, sessions[n], site, before.clock);
      SessionsAreFollowed(t, sessions[..n], site, clock);
      TypingIsTold(before.tree, sessions[n], site, before.clock);
      FollowedMore(t, before.tree, b.tree, before.batches, b.ops);
    }
  }
}
