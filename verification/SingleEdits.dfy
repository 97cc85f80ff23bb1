/**
 One edit, its undo and its redo; text typed left to right (static/app.js:942-1048,
 2772-2793).
 */
module SingleEdits {
  import opened Sequences
  import opened Ids
  import opened Rga
  import opened RgaEdits
  import opened Ops
  import opened Views
  import opened Growth
  import opened Edits
  import opened Undo
  import opened Entries
  import opened Bursts
  import opened Chains

  // ----- subtrees are intervals -----------------------------------------------------------

  lemma {:induction false} BetweenPaths(p: seq<Id>, x: seq<Id>, d: Id)
    requires p == [] || PathLess(p, x)
    requires PathLess(x, p + [d]) && x != []
    ensures |p| < |x| && x[..|p|] == p
  {
    if p != [] {
      if p[0] == x[0] {
        assert (p + [d])[1..] == p[1..] + [d];
        assert x[1..] != [] && (p[1..] == [] || PathLess(p[1..], x[1..]));
        BetweenPaths(p[1..], x[1..], d);
        assert x[..|p|] == [x[0]] + x[1..][..|p| - 1];
      } else {
        SiblingOrderTotal(p[0], x[0]);
      }
    }
  }

  /** What stands between an item and its parent hangs below that parent. */
  lemma BetweenHangsBelow(t: Tree, x: Id, d: Id)
    requires WellFormed(t) && x in t.items && d in t.items
    requires Behind(t.items, t.items[d].after, x) && Before(t.items, x, d)
    ensures var p, q := t.items[d].after, t.items[x].after;
      q == p || (q != Root && Behind(t.items, p, q))
    ensures !Behind(t.items, t.items[d].after, t.items[d].after) || t.items[d].after == Root
  {
    var p := t.items[d].after;
    RootedParentsOf(t, d);
    ConnectedOrRoot(t.items, p);
    var pp, px := PathTo(t.items, p), PathTo(t.items, x);
    PathExtends(t.items, pp, d);
    PathToIs(t.items, pp + [d]);
    if p == Root { PathIsUnique(t.items, pp, []); }
    BetweenPaths(pp, px, d);
    var up := px[..|px| - 1];
    PathPrefix(t.items, px, |px| - 1);
    PathToIs(t.items, up);
    if |up| == |pp| {
      assert up == pp;
    } else {
      assert up[..|pp|] == pp;
      PathLessPrefix(pp, up);
      assert up != [] && End(up) in t.items;
    }
    BeforeIsAsymmetric(t.items, p, p);
  }

  // ----- one edit -----------------------------------------------------------------------------

  /**
   Whatever is visible between an item of the stretch and its parent is itself in the
   stretch and hangs from the same parent.
   */
  ghost predicate StretchRevivable(items: map<Id, Item>, v: seq<Id>, lo: nat, hi: nat)
    requires lo <= hi <= |v|
  {
    forall i, j :: 0 <= i < j < |v| && lo <= j < hi && Behind(items, ParentOf(items, v[j]), v[i]) ==>
      lo <= i && ParentOf(items, v[i]) == ParentOf(items, v[j])
  }

  lemma SiblingsInPlace(t: Tree, x: Id, y: Id)
    requires WellFormed(t) && x in t.items && y in t.items && Before(t.items, x, y)
    ensures InPlace(t.items, y, x) <==>
      (Behind(t.items, ParentOf(t.items, y), x) ==> ParentOf(t.items, x) == ParentOf(t.items, y))
  {
    var p, q := ParentOf(t.items, y), ParentOf(t.items, x);
    if Behind(t.items, p, x) {
      BetweenHangsBelow(t, x, y);
    } else if q != Root {
      RootedParentsOf(t, x);
      BeforeChild(t, x);
      if Behind(t.items, p, q) { BeforeIsTransitive(t.items, p, q, x); }
    }
  }

  lemma StretchMembers(v: seq<Id>, lo: nat, hi: nat, i: nat)
    requires Distinct(v) && lo <= hi <= |v| && i < |v|
    ensures v[i] in Reverse(v[lo..hi]) <==> lo <= i < hi
  {
    ReverseMembers(v[lo..hi], v[i]);
    if lo <= i < hi { assert v[lo..hi][i - lo] == v[i]; }
  }

  lemma StretchPair(t: Tree, v: seq<Id>, i: nat, j: nat)
    requires WellFormed(t) && v == VisibleIds(t) && i < j < |v|
    ensures InPlace(t.items, v[j], v[i]) <==>
      (Behind(t.items, ParentOf(t.items, v[j]), v[i]) ==> ParentOf(t.items, v[i]) == ParentOf(t.items, v[j]))
  {
    hide InPlace, ParentOf, Behind;
    VisibleFacts(t);
    assert v[i] in v && v[j] in v;
    SiblingsInPlace(t, v[i], v[j]);
  }

  /** For the stretch a single edit deletes, the general condition is the simple one. */
  lemma StretchIsRevivable(t: Tree, lo: nat, hi: nat)
    requires WellFormed(t) && lo <= hi <= |VisibleIds(t)|
    ensures Revivable(t.items, VisibleIds(t), Reverse(VisibleIds(t)[lo..hi])) <==>
      StretchRevivable(t.items, VisibleIds(t), lo, hi)
  {
    hide InPlace, ParentOf, Behind, VisibleIds, StretchRevivable, Revivable;
    var v := VisibleIds(t);
    VisibleFacts(t);
    if StretchRevivable(t.items, v, lo, hi) { StretchToRevivable(t, v, lo, hi); }
    if Revivable(t.items, v, Reverse(v[lo..hi])) { RevivableToStretch(t, v, lo, hi); }
  }

  lemma StretchToRevivable(t: Tree, v: seq<Id>, lo: nat, hi: nat)
    requires WellFormed(t) && v == VisibleIds(t) && Distinct(v) && lo <= hi <= |v| &&
      StretchRevivable(t.items, v, lo, hi)
    ensures Revivable(t.items, v, Reverse(v[lo..hi]))
  {
    hide InPlace, ParentOf, Behind, VisibleIds, Linked, Rooted, Distinct;
    var ids := Reverse(v[lo..hi]);
    forall i, j | 0 <= i < j < |v| && v[j] in ids && v[i] !in ids
      ensures !Behind(t.items, ParentOf(t.items, v[j]), v[i])
    {
      StretchMembers(v, lo, hi, i);
      StretchMembers(v, lo, hi, j);
    }
    forall m, n | 0 <= m < n < |ids| ensures InPlace(t.items, ids[m], ids[n]) {
      StretchPair(t, v, hi - 1 - n, hi - 1 - m);
    }
  }

  lemma RevivableToStretch(t: Tree, v: seq<Id>, lo: nat, hi: nat)
    requires WellFormed(t) && v == VisibleIds(t) && Distinct(v) && lo <= hi <= |v|
    requires Revivable(t.items, v, Reverse(v[lo..hi]))
    ensures StretchRevivable(t.items, v, lo, hi)
  {
    hide InPlace, ParentOf, Behind, VisibleIds, Linked, Rooted, Distinct;
    var ids := Reverse(v[lo..hi]);
    forall i, j | 0 <= i < j < |v| && lo <= j < hi && Behind(t.items, ParentOf(t.items, v[j]), v[i])
      ensures lo <= i && ParentOf(t.items, v[i]) == ParentOf(t.items, v[j])
    {
      StretchMembers(v, lo, hi, i);
      StretchMembers(v, lo, hi, j);
      assert InPlace(t.items, ids[hi - 1 - j], ids[hi - 1 - i]);
      StretchPair(t, v, i, j);
    }
  }

  lemma OneText(t: Tree, newText: string, site: string, clock: int)
    requires WellFormed(t)
    ensures Typing(t, [newText], site, clock).ops == LocalDiff(t, newText, site, clock).ops
  {
    hide JsRun, LocalDiff;
    assert [newText][..0] == [];
    assert Typing(t, [], site, clock) == Burst(t, [], clock);
  }

  lemma OneSplice(ids: seq<Id>, lo: nat, hi: nat, chars: string, site: string, c: int)
    requires lo <= hi <= |ids|
    ensures var ops := SpliceOps(ids, lo, hi, chars, site, c);
      && Deleted(ops) == ids[lo..hi] && InsertedIds(ops) == NewIds(site, c, |chars|) && Onward(Inserted(ops))
  {
    hide SpliceOps, Deleted, Inserted;
    SplitSplice(ids, lo, hi, chars, site, c);
  }

  lemma NothingTakenBack(t: Tree, u: Tree, ops: seq<Op>)
    requires Told(t, u, ops) && forall d :: d in Deleted(ops) ==> d in t.items
    ensures TakenBack(ops) == {}
  {
    hide Told;
    ToldIsInvertible(t, u, ops);
  }

  lemma EditSplits(a: string, ids: seq<Id>, newText: string, site: string, clock: int)
    requires |ids| == |a|
    ensures InRange(a, newText, EditSpan(a, newText))
    ensures var s, ops := EditSpan(a, newText), DiffToOps(a, ids, newText, site, clock).ops;
      && Deleted(ops) == ids[s.lo..s.roOld] && InsertedIds(ops) == NewIds(site, clock, s.roNew - s.lo)
      && Onward(Inserted(ops))
  {
    hide Deleted, Inserted, InsertedIds, Onward, EditSpan, SpliceOps, NewIds, DiffToOps;
    DiffIsSplice(a, ids, newText, site, clock);
    var s := EditSpan(a, newText);
    OneSplice(ids, s.lo, s.roOld, newText[s.lo..s.roNew], site, clock);
  }

  /** The operations of one edit: a stretch deleted, then a run typed onward; nothing is taken back. */
  lemma SingleEdit(t: Tree, newText: string, site: string, clock: int)
    requires WellFormed(t) && ValidSite(site) && ClocksUpTo(t.items, clock)
    ensures |VisibleIds(t)| == |Text(t)| && InRange(Text(t), newText, EditSpan(Text(t), newText))
    ensures var b, s := Typing(t, [newText], site, clock), EditSpan(Text(t), newText);
      && Deleted(b.ops) == VisibleIds(t)[s.lo..s.roOld] && TakenBack(b.ops) == {} && Onward(Inserted(b.ops))
      && InsertedIds(b.ops) == NewIds(site, clock, s.roNew - s.lo) && Text(b.tree) == newText
  {
    hide Told, Typing, Deleted, Inserted, InsertedIds, TakenBack, Onward, EditSpan, NewIds, ClocksUpTo, DiffToOps,
      Text, VisibleIds;
    var v, b := VisibleIds(t), Typing(t, [newText], site, clock);
    VisibleFacts(t);
    EditSplits(Text(t), v, newText, site, clock);
    OneText(t, newText, site, clock);
    TypingIsTold(t, [newText], site, clock);
    forall d | d in Deleted(b.ops) ensures d in t.items { assert d in v; }
    NothingTakenBack(t, b.tree, b.ops);
  }

  /**
   Edit, undo, redo: the edit shows the new text; undo puts every deleted character back
   in its place if and only if the deleted stretch is revivable; redo always shows the
   new text again.
   */
  lemma EditUndoRedo(t: Tree, newText: string, site: string, clock: int)
    requires WellFormed(t) && ValidSite(site) && ClocksUpTo(t.items, clock)
    ensures |VisibleIds(t)| == |Text(t)| && InRange(Text(t), newText, EditSpan(Text(t), newText))
    ensures var b, s := Typing(t, [newText], site, clock), EditSpan(Text(t), newText);
      var w, z := UndoneBurst(t, [newText], site, clock), RedoneBurst(t, [newText], site, clock);
      var exact := StretchRevivable(t.items, VisibleIds(t), s.lo, s.roOld);
      && Text(b.tree) == newText && Text(z) == newText
      && (VisibleIds(w) == Restored(VisibleIds(t), b.ops, site, b.clock) <==> exact)
      && (exact ==> Text(w) == Text(t)) && (Distinct(Text(t)) ==> (Text(w) == Text(t) <==> exact))
  {
    hide Revivable, StretchRevivable, UndoneBurst, RedoneBurst, Distinct, Onward;
    var s := EditSpan(Text(t), newText);
    SingleEdit(t, newText, site, clock);
    StretchIsRevivable(t, s.lo, s.roOld);
    BurstUndoesExactlyWhen(t, [newText], site, clock);
    TypingOnwardAlwaysRedoes(t, [newText], site, clock);
  }

  // ----- text typed left to right --------------------------------------------------------------

  /** Where every visible item hangs off its left neighbour, anything is revivable in any order. */
  lemma TypedTextIsRevivable(t: Tree, ids: seq<Id>)
    requires WellFormed(t) && Distinct(ids) && forall x :: x in ids ==> x in VisibleIds(t)
    requires forall j :: 0 <= j < |VisibleIds(t)| ==> ParentOf(t.items, VisibleIds(t)[j]) == Anchor(VisibleIds(t), j)
    ensures Revivable(t.items, VisibleIds(t), ids)
  {
    hide InPlace, Behind;
    var v := VisibleIds(t);
    forall i, j | 0 <= i < j < |v| ensures !Behind(t.items, ParentOf(t.items, v[j]), v[i]) { NeverBehind(t, i, j - 1); }
    forall m, n | 0 <= m < n < |ids| ensures InPlace(t.items, ids[m], ids[n]) {
      assert ids[m] in ids && ids[n] in ids;
      assert ids[m] in v && ids[n] in v;
      var i :| 0 <= i < |v| && v[i] == ids[m];
      var j :| 0 <= j < |v| && v[j] == ids[n];
      NeighboursInPlace(t, i, j);
    }
  }

  lemma NeverBehind(t: Tree, i: nat, j: nat)
    requires WellFormed(t) && i <= j < |VisibleIds(t)|
    ensures !Behind(t.items, VisibleIds(t)[j], VisibleIds(t)[i])
  {
    VisibleFacts(t);
    assert VisibleIds(t)[j] in VisibleIds(t);
    BeforeIsAsymmetric(t.items, VisibleIds(t)[i], VisibleIds(t)[j]);
  }

  /** Among items that hang off their left neighbours, order and order of parents agree. */
  lemma NeighboursInPlace(t: Tree, i: nat, j: nat)
    requires WellFormed(t) && i < |VisibleIds(t)| && j < |VisibleIds(t)| && i != j
    requires forall j :: 0 <= j < |VisibleIds(t)| ==> ParentOf(t.items, VisibleIds(t)[j]) == Anchor(VisibleIds(t), j)
    ensures InPlace(t.items, VisibleIds(t)[i], VisibleIds(t)[j])
  {
    hide ParentOf, VisibleIds;
    var v := VisibleIds(t);
    VisibleFacts(t);
    assert v[i] in v && v[j] in v;
    BeforeIsAsymmetric(t.items, v[i], v[j]);
    AnchorsInOrder(t, v, i, j);
  }

  lemma AnchorsInOrder(t: Tree, v: seq<Id>, i: nat, j: nat)
    requires WellFormed(t) && v == VisibleIds(t) && i < |v| && j < |v| && i != j
    ensures AtOrBefore(t.items, Anchor(v, j), Anchor(v, i)) <==> j < i
    ensures Before(t.items, v[j], v[i]) <==> j < i
  {
    hide VisibleIds;
    VisibleInOrder(t, v, i, j);
    if i > 0 { VisibleInOrder(t, v, i - 1, i - 1); }
    if j > 0 { VisibleInOrder(t, v, j - 1, if i > 0 then i - 1 else j - 1); }
  }

  lemma VisibleInOrder(t: Tree, v: seq<Id>, i: nat, j: nat)
    requires WellFormed(t) && v == VisibleIds(t) && i < |v| && j < |v|
    ensures Before(t.items, v[j], v[i]) <==> j < i
    ensures v[i] in t.items && v[i] != Root
  {
    VisibleFacts(t);
    assert v[i] in v && v[j] in v;
    BeforeIsAsymmetric(t.items, v[i], v[j]);
    if j < i { assert BeforeIn(t.items)(v[j], v[i]); }
    if i < j { assert BeforeIn(t.items)(v[i], v[j]); }
  }

  /** On a linear chain a burst is undone exactly if and only if it deletes nothing it had typed. */
  lemma ChainBurstsUndoExactlyWhen(site: string, text: string, texts: seq<string>, own: string, clock: int)
    requires ValidSite(site) && ValidSite(own) && WellFormed(Chain(site, text)) &&
      ClocksUpTo(Chain(site, text).items, clock)
    ensures var t := Chain(site, text);
      var b, w := Typing(t, texts, own, clock), UndoneBurst(t, texts, own, clock);
      (VisibleIds(w) == Restored(VisibleIds(t), b.ops, own, b.clock) <==> TakenBack(b.ops) == {}) &&
      (Text(w) == text <==> TakenBack(b.ops) == {})
  {
    hide Told, Revivable, UndoneBurst, Chain;
    var t := Chain(site, text);
    var b, w := Typing(t, texts, own, clock), UndoneBurst(t, texts, own, clock);
    ChainText(site, text);
    BurstUndoesExactlyWhen(t, texts, own, clock);
    BurstClocks(t, texts, own, clock);
    if TakenBack(b.ops) == {} {
      ChainIsTyped(site, text);
      DeletedIsShown(t, b.tree, b.ops);
      TypedTextIsRevivable(t, Reverse(Deleted(b.ops)));
    }
  }

  lemma DeletedIsShown(t: Tree, u: Tree, ops: seq<Op>)
    requires Told(t, u, ops) && TakenBack(ops) == {}
    ensures WellFormed(t) && Distinct(Reverse(Deleted(ops))) && forall x :: x in Reverse(Deleted(ops)) ==>
      x in VisibleIds(t)
  {
    DistinctReverse(Deleted(ops));
    VisibleFacts(t);
    forall x | x in Reverse(Deleted(ops)) ensures x in VisibleIds(t) {
      ReverseMembers(Deleted(ops), x);
      ToldAlive(t, u, ops, x);
      assert x !in TakenBack(ops);
    }
  }

  lemma ChainIsTyped(site: string, text: string)
    requires ValidSite(site)
    ensures WellFormed(Chain(site, text))
    ensures var v := VisibleIds(Chain(site, text));
      forall j :: 0 <= j < |v| ==> ParentOf(Chain(site, text).items, v[j]) == Anchor(v, j)
  {
    var t := Chain(site, text);
    ChainText(site, text);
    ChainShape(site, text);
    forall j | 0 <= j < |VisibleIds(t)| ensures ParentOf(t.items, VisibleIds(t)[j]) == Anchor(VisibleIds(t), j) {
      assert VisibleIds(t)[j] == Link(site, j + 1) && HoldsChainItem(t.items, site, text, j + 1);
    }
  }
}
