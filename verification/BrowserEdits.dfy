/**
 What the browser shows and the operations it makes of it (static/crdt.js:145-176,
 245-293, static/app.js:961-980), under its own string order: re-ranked, all of it is
 what the modules on editing speak of, so that their results hold for any sites.
 */
module BrowserEdits {
  import opened Ids
  import opened Utf16
  import opened Rga
  import opened Ops
  import opened Views
  import opened Growth
  import opened Edits
  import opened Undo
  import opened Entries
  import opened Bursts
  import opened Browser

  /** Preorder below `kids`, at most `depth` levels deep: no path is longer than the document has items. */
  function Below(t: Tree, kids: seq<Id>, depth: nat): seq<Id>
    decreases depth, |kids|
  {
    if kids == [] || depth == 0 then []
    else [kids[0]] + Below(t, Kids(t, kids[0]), depth - 1) + Below(t, kids[1..], depth)
  }

  function Walked(t: Tree): seq<Id> {
    Below(t, Kids(t, Root), |t.items|)
  }

  function BrowserText(t: Tree): string {
    TextOf(t.items, Walked(t))
  }

  function BrowserVisible(t: Tree): seq<Id> {
    VisibleOf(t.items, Walked(t))
  }

  // ----- the walk -------------------------------------------------------------------------

  lemma {:induction false} BelowIsForest(t: Tree, prefix: seq<Id>, kids: seq<Id>, depth: nat)
    requires Linked(t) && AreKids(t, prefix, kids) && depth == |t.items| - |prefix|
    ensures Below(t, kids, depth) == Forest(t, prefix, kids)
    decreases depth, |kids|
  {
    hide Linked;
    if kids != [] {
      Descend(t, prefix, kids);
      BelowIsForest(t, prefix + [kids[0]], Kids(t, kids[0]), depth - 1);
      BelowIsForest(t, prefix, kids[1..], depth);
    }
  }

  /** On a linked document the walk is the document order. */
  lemma WalkedIsOrder(t: Tree)
    requires Linked(t)
    ensures Walked(t) == Order(t)
  {
    BelowIsForest(t, [], Kids(t, Root), |t.items|);
  }

  lemma {:induction false} BelowRanked(t: Tree, kids: seq<Id>, depth: nat)
    ensures RankedIds(Below(t, kids, depth)) == Below(RankedTree(t), RankedIds(kids), depth)
    decreases depth, |kids|
  {
    hide RankedTree, RankedId;
    if kids != [] && depth > 0 {
      KidsRanked(t, kids[0]);
      BelowRanked(t, Kids(t, kids[0]), depth - 1);
      BelowRanked(t, kids[1..], depth);
      assert RankedIds(kids)[1..] == RankedIds(kids[1..]);
      RankedConcat([kids[0]] + Below(t, Kids(t, kids[0]), depth - 1), Below(t, kids[1..], depth));
      RankedConcat([kids[0]], Below(t, Kids(t, kids[0]), depth - 1));
    }
  }

  lemma RankedConcat(a: seq<Id>, b: seq<Id>)
    ensures RankedIds(a + b) == RankedIds(a) + RankedIds(b)
  {
  }

  lemma {:induction false} RankedCount(keys: set<Id>)
    ensures |RankedKeys(keys)| == |keys|
  {
    hide RankedKeys, RankedId;
    if keys == {} {
      RankedKeysHold(keys);
      assert RankedKeys(keys) == {};
    } else {
      var k :| k in keys;
      RankedCount(keys - {k});
      OneMoreKey(keys - {k}, k);
      assert keys - {k} + {k} == keys;
    }
  }

  lemma OneMoreKey(keys: set<Id>, k: Id)
    requires k !in keys
    ensures RankedId(k) !in RankedKeys(keys) && RankedKeys(keys + {k}) == RankedKeys(keys) + {RankedId(k)}
  {
    RankedKeysHold(keys);
  }

  lemma RankedTreeCount(t: Tree)
    ensures |RankedTree(t).items| == |t.items|
  {
    hide RankedKeys, RankedId, RankedChildren, RankedItem;
    RankedKeysHold(t.items.Keys);
    RankedCount(t.items.Keys);
    assert RankedItems(t.items).Keys == RankedKeys(t.items.Keys);
    MapCount(t.items);
    MapCount(RankedItems(t.items));
  }

  lemma MapCount(m: map<Id, Item>)
    ensures |m| == |m.Keys|
  {
  }

  lemma WalkedRanked(t: Tree)
    ensures RankedIds(Walked(t)) == Walked(RankedTree(t))
  {
    hide RankedTree, Below;
    BelowRanked(t, Kids(t, Root), |t.items|);
    KidsRanked(t, Root);
    RankedTreeCount(t);
  }

  lemma {:induction false} ShownRanked(t: Tree, ids: seq<Id>)
    ensures TextOf(RankedTree(t).items, RankedIds(ids)) == TextOf(t.items, ids)
    ensures VisibleOf(RankedTree(t).items, RankedIds(ids)) == RankedIds(VisibleOf(t.items, ids))
  {
    hide RankedTree, RankedId, Ranked;
    if ids != [] {
      KidsRanked(t, ids[0]);
      assert RankedIds(ids)[1..] == RankedIds(ids[1..]);
      assert RankedIds(ids)[0] == RankedId(ids[0]);
      ShownRanked(t, ids[1..]);
    }
  }

  /** The browser shows the text of the re-ranked document, under the re-ranked ids. */
  lemma BrowserShows(t: Tree)
    requires Linked(RankedTree(t))
    ensures Text(RankedTree(t)) == BrowserText(t) && VisibleIds(RankedTree(t)) == RankedIds(BrowserVisible(t))
  {
    hide RankedTree, Linked;
    WalkedRanked(t);
    ShownRanked(t, Walked(t));
    WalkedIsOrder(RankedTree(t));
  }

  // ----- its operations ----------------------------------------------------------------------

  lemma DeletionsRanked(ids: seq<Id>)
    ensures RankedOps(Deletions(ids)) == Deletions(RankedIds(ids))
  {
  }

  lemma TypeRunRanked(site: string, clock: int, after: Id, chars: string)
    ensures RankedOps(TypeRun(site, clock, after, chars)) == TypeRun(Ranked(site), clock, RankedId(after), chars)
  {
  }

  lemma OpsConcat(a: seq<Op>, b: seq<Op>)
    ensures RankedOps(a + b) == RankedOps(a) + RankedOps(b)
  {
  }

  /** The operations of a diff, re-ranked, are those of the diff on the re-ranked ids. */
  lemma DiffRanked(a: string, ids: seq<Id>, b: string, site: string, clock: int)
    requires |ids| == |a|
    ensures var d, r := DiffToOps(a, ids, b, site, clock), DiffToOps(a, RankedIds(ids), b, Ranked(site), clock);
      RankedOps(d.ops) == r.ops && d.clock == r.clock
  {
    hide EditSpan, TypeRun, Deletions;
    var s := EditSpan(a, b);
    SpanIsTight(a, b);
    var run := TypeRun(site, clock, Anchor(ids, s.lo), b[s.lo..s.roNew]);
    DeletionsRanked(ids[s.lo..s.roOld]);
    TypeRunRanked(site, clock, Anchor(ids, s.lo), b[s.lo..s.roNew]);
    OpsConcat(Deletions(ids[s.lo..s.roOld]), run);
    assert RankedIds(ids)[s.lo..s.roOld] == RankedIds(ids[s.lo..s.roOld]);
    assert RankedId(Anchor(ids, s.lo)) == Anchor(RankedIds(ids), s.lo);
  }

  lemma {:induction false} InverseRanked(t: Tree, ops: seq<Op>, site: string, clock: int)
    ensures var inv, r := InverseOps(t.items, ops, site, clock),
                          InverseOps(RankedTree(t).items, RankedOps(ops), Ranked(site), clock);
      RankedOps(inv.ops) == r.ops && inv.clock == r.clock
    decreases |ops|
  {
    hide RankedTree, RankedId, Ranked;
    if ops != [] {
      var last, init := ops[|ops| - 1], ops[..|ops| - 1];
      assert RankedOps(ops)[..|ops| - 1] == RankedOps(init);
      KidsRanked(t, last.id);
      InverseRanked(t, init, site, if last.Del? && last.id in t.items then clock + 1 else clock);
      RankedAtom(site, clock + 1);
      OpsConcat(if last.Ins? then [Del(last.id)] else if last.Del? && last.id in t.items then
                  [Ins(Atom(site, clock + 1), t.items[last.id].after, t.items[last.id].ch)] else [],
                InverseOps(t.items, init, site, if last.Del? && last.id in t.items then clock + 1 else clock).ops);
    }
  }

  lemma RankedAtom(site: string, clock: int)
    ensures RankedId(Atom(site, clock)) == Atom(Ranked(site), clock)
  {
  }

  // ----- the editing results, carried over --------------------------------------------------------

  /** The operations by which the browser adopts a text. */
  function BrowserDiff(b: Tree, newText: string, site: string, clock: int): Diff
    requires |BrowserVisible(b)| == |BrowserText(b)|
  {
    DiffToOps(BrowserText(b), BrowserVisible(b), newText, site, clock)
  }

  /** Adopting a text in the browser is adopting it in the re-ranked document; the text is then shown. */
  lemma BrowserAdopts(b: Tree, newText: string, site: string, clock: int)
    requires WellFormed(RankedTree(b)) && ValidSite(site) && ClocksUpTo(RankedTree(b).items, clock)
    ensures |BrowserVisible(b)| == |BrowserText(b)|
    ensures var d := BrowserDiff(b, newText, site, clock);
      var run, u := BrowserRun(b, d.ops), Typing(RankedTree(b), [newText], Ranked(site), clock);
      && run.error.None? && RankedTree(run.tree) == u.tree && RankedOps(d.ops) == u.ops && d.clock == u.clock
      && BrowserText(run.tree) == newText
  {
    hide RankedTree, BrowserText, BrowserVisible, DiffToOps, BrowserRun, JsRun, Ranked, Rooted;
    var t := RankedTree(b);
    RankRoundTrip(site);
    BrowserShows(b);
    VisibleFacts(t);
    var d := DiffToOps(BrowserText(b), BrowserVisible(b), newText, site, clock);
    DiffRanked(BrowserText(b), BrowserVisible(b), newText, site, clock);
    BrowserRunIsRanked(b, d.ops);
    OneTyping(t, newText, Ranked(site), clock);
    DiffReaches(t, Text(t), VisibleIds(t), newText, Ranked(site), clock);
    BrowserShows(BrowserRun(b, d.ops).tree);
  }

  lemma OneTyping(t: Tree, newText: string, site: string, clock: int)
    requires WellFormed(t)
    ensures var d := LocalDiff(t, newText, site, clock);
      Typing(t, [newText], site, clock) == Burst(JsRun(t, d.ops).tree, d.ops, d.clock)
  {
    hide JsRun, LocalDiff;
    assert [newText][..0] == [];
    assert Typing(t, [], site, clock) == Burst(t, [], clock);
    var d := LocalDiff(t, newText, site, clock);
    assert [] + d.ops == d.ops;
  }

  /** Undoing in the browser is undoing in the re-ranked document. */
  lemma BrowserUndoes(b: Tree, ops: seq<Op>, site: string, clock: int)
    requires WellFormed(RankedTree(b))
    ensures var inv := InverseOps(b.items, ops, site, clock);
      var w := BrowserRun(b, inv.ops).tree;
      && RankedTree(w) == Undone(RankedTree(b), RankedOps(ops), Ranked(site), clock)
      && BrowserText(w) == Text(Undone(RankedTree(b), RankedOps(ops), Ranked(site), clock))
  {
    hide RankedTree, BrowserText, BrowserRun, JsRun, InverseOps, Ranked, Rooted;
    var inv := InverseOps(b.items, ops, site, clock);
    InverseRanked(b, ops, site, clock);
    BrowserRunIsRanked(b, inv.ops);
    assert RankedTree(BrowserRun(b, inv.ops).tree) == Undone(RankedTree(b), RankedOps(ops), Ranked(site), clock);
    BrowserShows(BrowserRun(b, inv.ops).tree);
  }
}
