/**
 Entries as typing builds them (static/app.js:942-954, 2772-2793): the diffs of
 successive texts, merged while they follow each other quickly. A single edit is a
 burst of one text.
 */
module Bursts {
  import opened Sequences
  import opened Ids
  import opened Rga
  import opened RgaEdits
  import opened Ops
  import opened Views
  import opened Growth
  import opened Edits
  import opened Undo
  import opened Entries

  /** The operations by which a tab adopts a new text. */
  ghost function LocalDiff(t: Tree, newText: string, site: string, clock: int): Diff
    requires WellFormed(t)
  {
    VisibleFacts(t);
    DiffToOps(Text(t), VisibleIds(t), newText, site, clock)
  }

  /** The text shown after `texts` were adopted one after the other. */
  function LastText(start: string, texts: seq<string>): string {
    if texts == [] then start else texts[|texts| - 1]
  }

  /** A document, the operations that led to it, and the clock then. */
  datatype Burst = Burst(tree: Tree, ops: seq<Op>, clock: int)

  /** One text after the other is adopted; the entry holds all their operations. */
  ghost function Typing(t: Tree, texts: seq<string>, site: string, clock: int): (b: Burst)
    requires WellFormed(t)
    ensures WellFormed(b.tree)
    decreases |texts|
  {
    if texts == [] then Burst(t, [], clock) else
      var n := |texts| - 1;
      Adopted(Typing(t, texts[..n], site, clock), texts[n], site)
  }

  ghost function Adopted(b: Burst, newText: string, site: string): (b': Burst)
    requires WellFormed(b.tree)
    ensures WellFormed(b'.tree)
  {
    var d := LocalDiff(b.tree, newText, site, b.clock);
    JsRunStays(b.tree, d.ops);
    Burst(JsRun(b.tree, d.ops).tree, b.ops + d.ops, d.clock)
  }

  lemma SpliceKinds(ids: seq<Id>, lo: nat, hi: nat, chars: string, site: string, c: int)
    requires lo <= hi <= |ids|
    ensures var ops := SpliceOps(ids, lo, hi, chars, site, c); forall i :: 0 <= i < |ops| ==> !ops[i].Unknown?
    ensures var run := TypeRun(site, c, Anchor(ids, lo), chars); forall i :: 0 <= i < |run| ==> run[i].Ins?
  {
  }

  lemma SplitSplice(ids: seq<Id>, lo: nat, hi: nat, chars: string, site: string, c: int)
    requires lo <= hi <= |ids|
    ensures var ops := SpliceOps(ids, lo, hi, chars, site, c);
      && Deleted(ops) == ids[lo..hi] && Inserted(ops) == TypeRun(site, c, Anchor(ids, lo), chars)
      && forall i :: 0 <= i < |ops| ==> !ops[i].Unknown?
  {
    hide Deletions, Deleted, Inserted;
    var run := TypeRun(site, c, Anchor(ids, lo), chars);
    SpliceKinds(ids, lo, hi, chars, site, c);
    SplitConcat(Deletions(ids[lo..hi]), run);
    SplitDeletions(ids[lo..hi]);
    SplitInserts(run);
  }

  lemma SpliceIsTold(t: Tree, m: Tree, ops: seq<Op>, lo: nat, hi: nat, chars: string, site: string, c: int)
    requires Told(t, m, ops) && ValidSite(site) && ClocksUpTo(m.items, c) && lo <= hi <= |VisibleIds(m)|
    ensures var more := SpliceOps(VisibleIds(m), lo, hi, chars, site, c);
      Told(t, JsRun(m, more).tree, ops + more)
  {
    hide Grown, JsRun, SpliceOps, TypeRun;
    ToldIsInvertible(t, m, ops);
    var v := VisibleIds(m);
    var more, dead := SpliceOps(v, lo, hi, chars, site, c), v[lo..hi];
    SpliceGrows(m, lo, hi, chars, site, c);
    SplitSplice(v, lo, hi, chars, site, c);
    SplitConcat(ops, more);
    GrownThen(t, m, JsRun(m, more).tree, Deleted(ops), Inserted(ops), dead, Inserted(more));
    NewlyDead(t, m, ops, lo, hi);
  }

  lemma NewlyDead(t: Tree, m: Tree, ops: seq<Op>, lo: nat, hi: nat)
    requires Told(t, m, ops) && lo <= hi <= |VisibleIds(m)|
    ensures var dead := VisibleIds(m)[lo..hi];
      Distinct(Deleted(ops) + dead) && forall d :: d in dead && d in t.items ==> Alive(t.items, d)
  {
    var v := VisibleIds(m);
    VisibleFacts(m);
    forall d | d in v[lo..hi] ensures d !in Deleted(ops) && (d in t.items ==> Alive(t.items, d)) {
      assert d in v;
      ToldAlive(t, m, ops, d);
    }
    DistinctConcat(Deleted(ops), v, lo, hi);
  }

  lemma DistinctConcat<T(!new)>(a: seq<T>, v: seq<T>, lo: nat, hi: nat)
    requires Distinct(a) && Distinct(v) && lo <= hi <= |v| && forall x :: x in v[lo..hi] ==> x !in a
    ensures Distinct(a + v[lo..hi])
  {
    var b := v[lo..hi];
    forall i, j | 0 <= i < j < |a + b| ensures (a + b)[i] != (a + b)[j] {
      if j >= |a| { assert b[j - |a|] in b; }
    }
  }

  lemma NothingIsTold(t: Tree)
    requires WellFormed(t)
    ensures Told(t, t, [])
  {
    NothingGrown(t);
  }

  lemma AdoptedIsTold(t: Tree, b: Burst, newText: string, site: string)
    requires Told(t, b.tree, b.ops) && ValidSite(site) && ClocksUpTo(b.tree.items, b.clock)
    ensures var b' := Adopted(b, newText, site);
      && Told(t, b'.tree, b'.ops) && ClocksUpTo(b'.tree.items, b'.clock) && b'.clock >= b.clock
      && Text(b'.tree) == newText
  {
    hide Told, JsRun, SpliceOps;
    ToldIsInvertible(t, b.tree, b.ops);
    VisibleFacts(b.tree);
    var a, v := Text(b.tree), VisibleIds(b.tree);
    var s := EditSpan(a, newText);
    DiffReaches(b.tree, a, v, newText, site, b.clock);
    DiffIsSplice(a, v, newText, site, b.clock);
    SpliceIsTold(t, b.tree, b.ops, s.lo, s.roOld, newText[s.lo..s.roNew], site, b.clock);
  }

  /** A burst shows its last text, and is an entry that can be undone. */
  lemma {:induction false} TypingIsTold(t: Tree, texts: seq<string>, site: string, clock: int)
    requires WellFormed(t) && ValidSite(site) && ClocksUpTo(t.items, clock)
    ensures var b := Typing(t, texts, site, clock);
      && Told(t, b.tree, b.ops) && ClocksUpTo(b.tree.items, b.clock) && b.clock >= clock
      && Text(b.tree) == LastText(Text(t), texts)
    decreases |texts|
  {
    hide Told;
    if texts == [] {
      NothingIsTold(t);
    } else {
      var n := |texts| - 1;
      TypingIsTold(t, texts[..n], site, clock);
      AdoptedIsTold(t, Typing(t, texts[..n], site, clock), texts[n], site);
    }
  }

  ghost predicate Shows(b: Burst, a: string, v: seq<Id>) {
    WellFormed(b.tree) && ClocksUpTo(b.tree.items, b.clock) && Text(b.tree) == a && VisibleIds(b.tree) == v &&
      |v| == |a|
  }

  /** What a burst shows and holds after one more text. */
  lemma AdoptedShows(b: Burst, newText: string, site: string, a: string, v: seq<Id>)
    requires Shows(b, a, v) && ValidSite(site)
    ensures InRange(a, newText, EditSpan(a, newText))
    ensures var s, b' := EditSpan(a, newText), Adopted(b, newText, site);
      && Shows(b', newText, v[..s.lo] + NewIds(site, b.clock, s.roNew - s.lo) + v[s.roOld..])
      && b'.clock == b.clock + s.roNew - s.lo
      && Deleted(b'.ops) == Deleted(b.ops) + v[s.lo..s.roOld]
      && Inserted(b'.ops) == Inserted(b.ops) + TypeRun(site, b.clock, Anchor(v, s.lo), newText[s.lo..s.roNew])
  {
    hide JsRun, SpliceOps, EditSpan, Deleted, Inserted, NewIds, Text, VisibleIds;
    var d := LocalDiff(b.tree, newText, site, b.clock);
    DiffReaches(b.tree, a, v, newText, site, b.clock);
    DiffIsSplice(a, v, newText, site, b.clock);
    var s := EditSpan(a, newText);
    SplitConcat(b.ops, d.ops);
    SplitSplice(v, s.lo, s.roOld, newText[s.lo..s.roNew], site, b.clock);
    VisibleFacts(JsRun(b.tree, d.ops).tree);
  }

  lemma MoreTyping(t: Tree, texts: seq<string>, newText: string, site: string, clock: int)
    requires WellFormed(t)
    ensures Typing(t, texts + [newText], site, clock) == Adopted(Typing(t, texts, site, clock), newText, site)
  {
    assert (texts + [newText])[..|texts|] == texts;
  }

  lemma BurstStarts(t: Tree, site: string, clock: int)
    requires WellFormed(t) && ClocksUpTo(t.items, clock)
    ensures Typing(t, [], site, clock) == Burst(t, [], clock) &&
      Shows(Typing(t, [], site, clock), Text(t), VisibleIds(t))
    ensures Deleted([]) == [] && Inserted([]) == []
  {
    VisibleFacts(t);
  }

  // ----- undo and redo of a burst ---------------------------------------------------------------

  /** The document after undo of the burst, at the clock the burst left. */
  ghost function UndoneBurst(t: Tree, texts: seq<string>, site: string, clock: int): (w: Tree)
    requires WellFormed(t)
    ensures WellFormed(w)
  {
    var b := Typing(t, texts, site, clock);
    Undone(b.tree, b.ops, site, b.clock)
  }

  /** The clock after undo: one tick for each revived item. */
  ghost function UndoneClock(t: Tree, texts: seq<string>, site: string, clock: int): int
    requires WellFormed(t)
  {
    var b := Typing(t, texts, site, clock);
    InverseOps(b.tree.items, b.ops, site, b.clock).clock
  }

  ghost function RedoneBurst(t: Tree, texts: seq<string>, site: string, clock: int): (z: Tree)
    requires WellFormed(t)
    ensures WellFormed(z)
  {
    var b := Typing(t, texts, site, clock);
    Redone(b.tree, b.ops, site, b.clock, UndoneClock(t, texts, site, clock))
  }

  lemma BurstClocks(t: Tree, texts: seq<string>, site: string, clock: int)
    requires WellFormed(t) && ValidSite(site) && ClocksUpTo(t.items, clock)
    ensures var b := Typing(t, texts, site, clock);
      && Told(t, b.tree, b.ops) && ClocksUpTo(b.tree.items, b.clock)
      && ClocksUpTo(UndoneBurst(t, texts, site, clock).items, UndoneClock(t, texts, site, clock))
  {
    hide Told;
    var b := Typing(t, texts, site, clock);
    TypingIsTold(t, texts, site, clock);
    ToldIsInvertible(t, b.tree, b.ops);
    InverseRuns(b.tree, b.ops, site, b.clock);
  }

  /**
   Undo of any burst: every deleted character returns to its place if and only if the
   burst deleted nothing it had typed and what it deleted was revivable before it.
   */
  lemma BurstUndoesExactlyWhen(t: Tree, texts: seq<string>, site: string, clock: int)
    requires WellFormed(t) && ValidSite(site) && ClocksUpTo(t.items, clock)
    ensures var b, w := Typing(t, texts, site, clock), UndoneBurst(t, texts, site, clock);
      var exact := TakenBack(b.ops) == {} && Revivable(t.items, VisibleIds(t), Reverse(Deleted(b.ops)));
      && (VisibleIds(w) == Restored(VisibleIds(t), b.ops, site, b.clock) <==> exact)
      && (exact ==> Text(w) == Text(t)) && (Distinct(Text(t)) ==> (Text(w) == Text(t) <==> exact))
      && |Text(w)| == |Text(t)| + |TakenBack(b.ops)|
  {
    hide Told, Revivable, Undone, Distinct;
    var b, w := Typing(t, texts, site, clock), UndoneBurst(t, texts, site, clock);
    BurstClocks(t, texts, site, clock);
    UndoRestoresExactlyWhenRevivable(t, b.tree, b.ops, site, b.clock);
    UndoShowsTakenBack(t, b.tree, b.ops, site, b.clock);
    VisibleFacts(t);
    VisibleFacts(w);
    if TakenBack(b.ops) == {} && Revivable(t.items, VisibleIds(t), Reverse(Deleted(b.ops))) {
      UndoRestoresText(t, b.tree, b.ops, site, b.clock, Text(t));
    }
    if Distinct(Text(t)) { UndoRestoresTextExactlyWhenRevivable(t, b.tree, b.ops, site, b.clock, Text(t)); }
  }

  /**
   Redo of any burst: every typed character returns to its place if and only if the
   burst deleted nothing it had typed and what it typed is in place for retyping.
   */
  lemma BurstRedoesExactlyWhen(t: Tree, texts: seq<string>, site: string, clock: int)
    requires WellFormed(t) && ValidSite(site) && ClocksUpTo(t.items, clock)
    ensures var b, z := Typing(t, texts, site, clock), RedoneBurst(t, texts, site, clock);
      var exact := TakenBack(b.ops) == {} && AllInPlace(b.tree.items, InsertedIds(b.ops));
      && (VisibleIds(z) == Retyped(VisibleIds(b.tree), b.ops, site, UndoneClock(t, texts, site, clock)) <==> exact)
      && (exact ==> Text(z) == Text(b.tree)) && (Distinct(Text(b.tree)) ==> (Text(z) == Text(b.tree) <==> exact))
      && |Text(z)| == |Text(b.tree)| + |TakenBack(b.ops)|
  {
    hide Told, AllInPlace, Undone, Redone, Distinct;
    var b, z, c2 := Typing(t, texts, site, clock), RedoneBurst(t, texts, site, clock),
      UndoneClock(t, texts, site, clock);
    BurstClocks(t, texts, site, clock);
    RedoRestoresExactlyWhenInPlace(t, b.tree, b.ops, site, b.clock, c2);
    RedoShowsTakenBack(t, b.tree, b.ops, site, b.clock, c2);
    RedoRestoresText(t, b.tree, b.ops, site, b.clock, c2, Text(b.tree));
    VisibleFacts(b.tree);
    VisibleFacts(z);
  }

  // ----- typing without deleting ---------------------------------------------------------------------

  /** A burst that deletes nothing is always undone exactly, down to the ids. */
  lemma TypingAlwaysUndoes(t: Tree, texts: seq<string>, site: string, clock: int)
    requires WellFormed(t) && ValidSite(site) && ClocksUpTo(t.items, clock)
    requires Deleted(Typing(t, texts, site, clock).ops) == []
    ensures VisibleIds(UndoneBurst(t, texts, site, clock)) == VisibleIds(t)
    ensures Text(UndoneBurst(t, texts, site, clock)) == Text(t)
  {
    hide UndoneBurst;
    var b := Typing(t, texts, site, clock);
    BurstUndoesExactlyWhen(t, texts, site, clock);
    assert Reverse(Deleted(b.ops)) == [];
    assert Restored(VisibleIds(t), b.ops, site, b.clock) == VisibleIds(t);
  }

  /** Each typed item hangs off the one typed before it: the caret only moved by typing. */
  ghost predicate Onward(ins: seq<Op>) {
    forall m {:trigger ins[m]} :: 0 < m < |ins| ==> ins[m].Ins? && ins[m].after == ins[m - 1].id
  }

  lemma {:induction false} OnwardInOrder(t: Tree, u: Tree, ops: seq<Op>, m: nat, n: nat)
    requires Told(t, u, ops) && Onward(Inserted(ops)) && m < n < |Inserted(ops)|
    ensures Before(u.items, Inserted(ops)[m].id, Inserted(ops)[n].id)
    decreases n
  {
    hide GrownAt, Onward;
    TypedParent(t, u, ops, n);
    OnwardParent(Inserted(ops), n);
    ToldNotRoot(t, u, ops, n - 1);
    BeforeChild(u, Inserted(ops)[n].id);
    if m < n - 1 {
      OnwardInOrder(t, u, ops, m, n - 1);
      BeforeIsTransitive(u.items, Inserted(ops)[m].id, Inserted(ops)[n - 1].id, Inserted(ops)[n].id);
    }
  }

  lemma OnwardParent(ins: seq<Op>, n: nat)
    requires Onward(ins) && 0 < n < |ins|
    ensures ins[n].Ins? && ins[n].after == ins[n - 1].id
  {
  }

  lemma ToldNotRoot(t: Tree, u: Tree, ops: seq<Op>, m: nat)
    requires Told(t, u, ops) && m < |Inserted(ops)|
    ensures Inserted(ops)[m].id != Root && Inserted(ops)[m].id in u.items
  {
    assert GrownAt(t.items, u.items, Deleted(ops), Inserted(ops), m);
  }

  lemma OnwardIsInPlace(t: Tree, u: Tree, ops: seq<Op>)
    requires Told(t, u, ops) && Onward(Inserted(ops))
    ensures AllInPlace(u.items, InsertedIds(ops))
  {
    hide GrownAt, Onward, Told;
    var ins := Inserted(ops);
    forall m, n | 0 <= m < n < |ins| ensures InPlace(u.items, InsertedIds(ops)[m], InsertedIds(ops)[n]) {
      OnwardPair(t, u, ops, m, n);
    }
  }

  lemma BehindOwnParent(u: Tree, x: Id, q: Id)
    requires WellFormed(u) && x in u.items && (q == x || Before(u.items, x, q))
    ensures Behind(u.items, ParentOf(u.items, x), q)
  {
    var p := ParentOf(u.items, x);
    RootedParentsOf(u, x);
    if p != Root {
      BeforeChild(u, x);
      if q != x { BeforeIsTransitive(u.items, p, x, q); }
    }
  }

  lemma OnwardPair(t: Tree, u: Tree, ops: seq<Op>, m: nat, n: nat)
    requires Told(t, u, ops) && Onward(Inserted(ops)) && m < n < |Inserted(ops)|
    ensures InPlace(u.items, Inserted(ops)[m].id, Inserted(ops)[n].id)
  {
    hide Told, Onward, ParentOf, WellFormed;
    ToldIsInvertible(t, u, ops);
    var ins := Inserted(ops);
    var x, y, q := ins[m].id, ins[n].id, ins[n - 1].id;
    OnwardInOrder(t, u, ops, m, n);
    BeforeIsAsymmetric(u.items, x, y);
    TypedParent(t, u, ops, n);
    OnwardParent(ins, n);
    ToldNotRoot(t, u, ops, m);
    ToldNotRoot(t, u, ops, n - 1);
    if m < n - 1 { OnwardInOrder(t, u, ops, m, n - 1); }
    BehindOwnParent(u, x, q);
  }

  /** A burst typed onward, deleting none of what it typed, is always redone exactly. */
  lemma TypingOnwardAlwaysRedoes(t: Tree, texts: seq<string>, site: string, clock: int)
    requires WellFormed(t) && ValidSite(site) && ClocksUpTo(t.items, clock)
    requires var b := Typing(t, texts, site, clock); TakenBack(b.ops) == {} && Onward(Inserted(b.ops))
    ensures Text(RedoneBurst(t, texts, site, clock)) == Text(Typing(t, texts, site, clock).tree)
  {
    hide Told, AllInPlace, RedoneBurst;
    var b := Typing(t, texts, site, clock);
    BurstRedoesExactlyWhen(t, texts, site, clock);
    BurstClocks(t, texts, site, clock);
    OnwardIsInPlace(t, b.tree, b.ops);
  }
}
