/**
 Bursts that only type: conditions on the texts alone under which undo and redo are
 exact (static/crdt.js:245-293, static/app.js:942-1048).
 */
module PureTyping {
  import opened Ids
  import opened Rga
  import opened Ops
  import opened Views
  import opened Growth
  import opened Edits
  import opened Undo
  import opened Entries
  import opened Bursts

  /** `b` is `a` with something typed at one place. */
  ghost predicate TypesInto(a: string, b: string) {
    exists p :: 0 <= p <= |a| && TypedAt(a, b, p)
  }

  predicate TypedAt(a: string, b: string, p: nat)
    requires p <= |a|
  {
    |b| >= |a| && b[..p] == a[..p] && b[|b| - (|a| - p)..] == a[p..]
  }

  /** Each text extends the one before it. */
  ghost predicate OnlyTypes(start: string, texts: seq<string>)
    decreases |texts|
  {
    texts == [] ||
    (TypesInto(LastText(start, texts[..|texts| - 1]), texts[|texts| - 1]) && OnlyTypes(start, texts[..|texts| - 1]))
  }

  /** Each text extends the one before it at its end. */
  ghost predicate OnlyAppends(start: string, texts: seq<string>)
    decreases |texts|
  {
    texts == [] ||
    (LastText(start, texts[..|texts| - 1]) <= texts[|texts| - 1] && OnlyAppends(start, texts[..|texts| - 1]))
  }

  // ----- the span of an extension -------------------------------------------------------

  lemma {:induction false} PrefixReaches(a: string, b: string, p: nat)
    requires p <= |a| && p <= |b| && a[..p] == b[..p]
    ensures CommonPrefix(a, b) >= p
  {
    if p > 0 {
      assert a[0] == a[..p][0] && b[0] == b[..p][0];
      assert a[1..][..p - 1] == a[..p][1..] && b[1..][..p - 1] == b[..p][1..];
      PrefixReaches(a[1..], b[1..], p - 1);
    }
  }

  lemma {:induction false} TrimsAll(a: string, b: string, s: Span)
    requires InRange(a, b, s) && s.roOld <= s.roNew && forall k :: s.lo <= k < s.roOld ==>
      a[k] == b[k + s.roNew - s.roOld]
    ensures TrimEnd(a, b, s).roOld == s.lo
    decreases s.roOld
  {
    if s.roOld > s.lo {
      assert a[s.roOld - 1] == b[s.roOld - 1 + s.roNew - s.roOld];
      TrimsAll(a, b, Span(s.lo, s.roOld - 1, s.roNew - 1));
    }
  }

  /** An extension replaces nothing. */
  lemma ExtensionSpan(a: string, b: string)
    requires TypesInto(a, b)
    ensures var s := EditSpan(a, b); s.lo == s.roOld && s.roNew - s.lo == |b| - |a|
  {
    var p :| 0 <= p <= |a| && TypedAt(a, b, p);
    PrefixReaches(a, b, p);
    CommonPrefixAgrees(a, b);
    var s := Span(CommonPrefix(a, b), |a|, |b|);
    forall k | s.lo <= k < s.roOld ensures a[k] == b[k + s.roNew - s.roOld] {
      assert a[k] == a[p..][k - p] == b[|b| - (|a| - p)..][k - p];
    }
    TrimsAll(a, b, s);
    SpanIsTight(a, b);
    assert |a[EditSpan(a, b).roOld..]| == |b[EditSpan(a, b).roNew..]|;
  }

  lemma AppendingSpan(a: string, b: string)
    requires a <= b
    ensures EditSpan(a, b) == Span(|a|, |a|, |b|)
  {
    PrefixReaches(a, b, |a|);
    assert TypedAt(a, b, |a|);
    ExtensionSpan(a, b);
  }

  // ----- undo ------------------------------------------------------------------------------

  lemma {:induction false} OnlyTypesDeletesNothing(t: Tree, texts: seq<string>, site: string, clock: int)
    requires WellFormed(t) && ValidSite(site) && ClocksUpTo(t.items, clock) && OnlyTypes(Text(t), texts)
    ensures Deleted(Typing(t, texts, site, clock).ops) == []
    decreases |texts|
  {
    hide Adopted, EditSpan, Text, VisibleIds, TypesInto, Told, LastText;
    if texts != [] {
      var n := |texts| - 1;
      var b := Typing(t, texts[..n], site, clock);
      OnlyTypesDeletesNothing(t, texts[..n], site, clock);
      TypingIsTold(t, texts[..n], site, clock);
      VisibleFacts(b.tree);
      ExtensionSpan(Text(b.tree), texts[n]);
      AdoptedShows(b, texts[n], site, Text(b.tree), VisibleIds(b.tree));
    }
  }

  /** A burst that only types is always undone exactly, down to the ids. */
  lemma PureTypingUndoes(t: Tree, texts: seq<string>, site: string, clock: int)
    requires WellFormed(t) && ValidSite(site) && ClocksUpTo(t.items, clock) && OnlyTypes(Text(t), texts)
    ensures VisibleIds(UndoneBurst(t, texts, site, clock)) == VisibleIds(t)
    ensures Text(UndoneBurst(t, texts, site, clock)) == Text(t)
  {
    hide UndoneBurst, Typing, OnlyTypes;
    OnlyTypesDeletesNothing(t, texts, site, clock);
    TypingAlwaysUndoes(t, texts, site, clock);
  }

  // ----- redo --------------------------------------------------------------------------------

  /** What is appended hangs together, and ends the visible ids. */
  ghost predicate EndsTyping(ins: seq<Op>, v: seq<Id>) {
    Onward(ins) && (ins != [] ==> v != [] && v[|v| - 1] == ins[|ins| - 1].id)
  }

  lemma RunEndsTyping(ins: seq<Op>, v: seq<Id>, site: string, clock: int, chars: string)
    requires EndsTyping(ins, v) && forall i :: 0 <= i < |ins| ==> ins[i].Ins?
    ensures EndsTyping(ins + TypeRun(site, clock, Anchor(v, |v|), chars), v + NewIds(site, clock, |chars|))
  {
    hide Onward;
    var run := TypeRun(site, clock, Anchor(v, |v|), chars);
    var all := ins + run;
    forall m | 0 < m < |all| ensures all[m].Ins? && all[m].after == all[m - 1].id {
      if m < |ins| { OnwardParent(ins, m); }
    }
    OnwardIf(all);
  }

  lemma OnwardIf(ins: seq<Op>)
    requires forall m :: 0 < m < |ins| ==> ins[m].Ins? && ins[m].after == ins[m - 1].id
    ensures Onward(ins)
  {
  }

  lemma {:induction false} AppendingIsOnward(t: Tree, texts: seq<string>, site: string, clock: int)
    requires WellFormed(t) && ValidSite(site) && ClocksUpTo(t.items, clock) && OnlyAppends(Text(t), texts)
    ensures var b := Typing(t, texts, site, clock);
      EndsTyping(Inserted(b.ops), VisibleIds(b.tree)) && Deleted(b.ops) == []
    decreases |texts|
  {
    hide Adopted, EditSpan, Text, VisibleIds, Told, EndsTyping, Anchor, TypeRun, NewIds, Inserted, LastText;
    if texts == [] {
      BurstStarts(t, site, clock);
      NothingEnds(VisibleIds(t));
    } else {
      var n := |texts| - 1;
      var b := Typing(t, texts[..n], site, clock);
      AppendingIsOnward(t, texts[..n], site, clock);
      TypingIsTold(t, texts[..n], site, clock);
      VisibleFacts(b.tree);
      var a, v := Text(b.tree), VisibleIds(b.tree);
      AppendingSpan(a, texts[n]);
      AdoptedShows(b, texts[n], site, a, v);
      InsertedAreInserts(b.ops);
      RunEndsTyping(Inserted(b.ops), v, site, b.clock, texts[n][|a|..]);
      Ends(texts[n], a, v, NewIds(site, b.clock, |texts[n]| - |a|));
    }
  }

  lemma NothingEnds(v: seq<Id>)
    ensures EndsTyping([], v)
  {
  }

  lemma Ends(text: string, a: string, v: seq<Id>, ids: seq<Id>)
    requires |a| == |v| <= |text|
    ensures text[|a|..|text|] == text[|a|..] && v[..|a|] + ids + v[|a|..] == v + ids && v[|a|..|a|] == []
  {
  }

  lemma {:induction false} InsertedAreInserts(ops: seq<Op>)
    ensures forall i :: 0 <= i < |Inserted(ops)| ==> Inserted(ops)[i].Ins?
    decreases |ops|
  {
    if ops != [] { InsertedAreInserts(ops[..|ops| - 1]); }
  }

  /** Text typed at the end is always undone and redone exactly. */
  lemma AppendingUndoesAndRedoes(t: Tree, texts: seq<string>, site: string, clock: int)
    requires WellFormed(t) && ValidSite(site) && ClocksUpTo(t.items, clock) && OnlyAppends(Text(t), texts)
    ensures Text(UndoneBurst(t, texts, site, clock)) == Text(t)
    ensures Text(RedoneBurst(t, texts, site, clock)) == LastText(Text(t), texts)
  {
    hide UndoneBurst, RedoneBurst, Typing, OnlyAppends, Told, Text, VisibleIds, Onward, Inserted, Deleted;
    AppendingIsOnward(t, texts, site, clock);
    TypingAlwaysUndoes(t, texts, site, clock);
    var ops := Typing(t, texts, site, clock).ops;
    assert TakenBack(ops) == {};
    TypingIsTold(t, texts, site, clock);
    TypingOnwardAlwaysRedoes(t, texts, site, clock);
  }
}
