/**
 Three-way text merge (static/app.js:3254-3265): both sides' diffs against a common
 base, applied as concurrent operations.
 */
module Merge {
  import opened Sequences
  import opened Ids
  import opened Rga
  import opened RgaEdits
  import opened Ops
  import opened Convergence
  import opened Views
  import opened Growth
  import opened Edits
  import opened Chains
  import opened Docs

  const BASE := "base"
  const MINE := "mine"
  const THEIR := "their"

  lemma SitesAreValid()
    ensures ValidSite(BASE) && ValidSite(MINE) && ValidSite(THEIR)
    ensures StrLess(MINE, THEIR) && MINE != BASE && THEIR != BASE
  {
    assert MINE[0] == 'm' && THEIR[0] == 't' && BASE[0] == 'b';
  }

  /** One side's operations: the diff of its text against the base chain. */
  function SideOps(base: string, side: string, site: string): seq<Op> {
    DiffToOps(base, Links(BASE, |base|), side, site, |base|).ops
  }

  // ----- typed runs in a known order -------------------------------------------------------

  lemma TypeRunTail(site: string, c: int, after: Id, chars: string)
    requires chars != ""
    ensures TypeRun(site, c, after, chars)[0] == Ins(Atom(site, c + 1), after, [chars[0]])
    ensures TypeRun(site, c, after, chars)[1..] == TypeRun(site, c + 1, Atom(site, c + 1), chars[1..])
    ensures NewIds(site, c, |chars|) == [Atom(site, c + 1)] + NewIds(site, c + 1, |chars| - 1)
  {
  }

  ghost predicate Unused(items: map<Id, Item>, site: string, c: int, n: nat) {
    forall x :: x in NewIds(site, c, n) ==> x !in items
  }

  /** A run whose first id outranks the anchor's children outranks all along. */
  lemma {:induction false} TypeRunIsNewest(t: Tree, site: string, c: int, after: Id, chars: string)
    requires WellFormed(t) && ValidSite(site) && c >= 0 && (after == Root || after in t.items)
    requires Unused(t.items, site, c, |chars|) && Outranks(t, Atom(site, c + 1), after)
    ensures NewestRun(t, TypeRun(site, c, after, chars))
    decreases |chars|
  {
    if chars != "" {
      var id := Atom(site, c + 1);
      TypeRunTail(site, c, after, chars);
      assert id in NewIds(site, c, |chars|);
      var u := InsertItem(t, id, after, [chars[0]]);
      InsertKeepsTree(t, id, after, [chars[0]]);
      NewHasNoKids(t, u, id, after);
      forall x | x in NewIds(site, c + 1, |chars| - 1) ensures x !in u.items {
        assert x in NewIds(site, c, |chars|);
      }
      TypeRunIsNewest(u, site, c + 1, id, chars[1..]);
    }
  }

  lemma NewHasNoKids(t: Tree, u: Tree, id: Id, after: Id)
    requires WellFormed(t) && WellFormed(u) && id !in t.items && id != Root && after != id
    requires u.items.Keys == t.items.Keys + {id} && Agree(t.items, u.items) && u.items[id].after == after
    ensures Kids(u, id) == []
  {
    forall k ensures k !in Kids(u, id) {
      if k in t.items { Snapshots.RootedParents(t.items, k); }
      assert k in Kids(u, id) ==> k in u.items;
    }
    HasElement(Kids(u, id));
  }

  /** A typed run lands as a block right behind position `p`. */
  lemma {:induction false} TypedBlock(t: Tree, site: string, c: int, after: Id, chars: string, p: nat)
    requires WellFormed(t) && NewestRun(t, TypeRun(site, c, after, chars)) && p <= |Order(t)|
    requires if after == Root then p == 0 else p > 0 && Order(t)[p - 1] == after
    ensures JsRun(t, TypeRun(site, c, after, chars)).error.None?
    ensures WellFormed(JsRun(t, TypeRun(site, c, after, chars)).tree)
    ensures Order(JsRun(t, TypeRun(site, c, after, chars)).tree) ==
      Order(t)[..p] + NewIds(site, c, |chars|) + Order(t)[p..]
    decreases |chars|
  {
    var ins, o := TypeRun(site, c, after, chars), Order(t);
    if chars == "" {
      assert o == o[..p] + [] + o[p..];
    } else {
      var id := Atom(site, c + 1);
      TypeRunTail(site, c, after, chars);
      var u := InsertItem(t, id, after, [chars[0]]);
      NewestStandsBehindParent(t, id, after, [chars[0]]);
      PlacedAt(t, o, after, id, p);
      assert JsApply(t, ins[0]) == Outcome(u, true, None);
      TypedBlock(u, site, c + 1, id, chars[1..], p + 1);
      Regroup(o, p, id, NewIds(site, c + 1, |chars| - 1));
    }
  }

  lemma PlacedAt(t: Tree, o: seq<Id>, after: Id, id: Id, p: nat)
    requires WellFormed(t) && o == Order(t) && p <= |o|
    requires if after == Root then p == 0 else p > 0 && o[p - 1] == after
    ensures PlaceBehind(o, after, id) == o[..p] + [id] + o[p..]
  {
    hide Order, Linked, Rooted;
    OrderListsItems(t);
    if after != Root { InsertBehindAt(o, p - 1, id); }
  }

  lemma Regroup(o: seq<Id>, p: nat, id: Id, rest: seq<Id>)
    requires p <= |o|
    ensures var s := o[..p] + [id] + o[p..];
      s[..p + 1] + rest + s[p + 1..] == o[..p] + ([id] + rest) + o[p..]
  {
  }

  // ----- the closed form ---------------------------------------------------------------------

  /** The base text from i to j without the stretches that either side deleted. */
  function Kept(base: string, a: Span, b: Span, i: nat, j: nat): string
    requires i <= j <= |base|
    decreases j - i
  {
    if i == j then ""
    else (if a.lo <= i < a.roOld || b.lo <= i < b.roOld then "" else [base[i]]) + Kept(base, a, b, i + 1, j)
  }

  /**
   Both deletions gone, each insertion a contiguous block at its own place, mine first
   when the places coincide.
   */
  function Merged(base: string, a: Span, u: string, b: Span, v: string): string
    requires a.lo <= |base| && b.lo <= |base|
  {
    if a.lo <= b.lo
    then Kept(base, a, b, 0, a.lo) + u + Kept(base, a, b, a.lo, b.lo) + v + Kept(base, a, b, b.lo, |base|)
    else Kept(base, a, b, 0, b.lo) + v + Kept(base, a, b, b.lo, a.lo) + u + Kept(base, a, b, a.lo, |base|)
  }

  function MergedText(base: string, mine: string, theirs: string): string {
    SpanIsTight(base, mine);
    SpanIsTight(base, theirs);
    var a, b := EditSpan(base, mine), EditSpan(base, theirs);
    Merged(base, a, mine[a.lo..a.roNew], b, theirs[b.lo..b.roNew])
  }

  // ----- splicing both sides into the chain -------------------------------------------------------

  /** A splice whose typed run outranks what it finds at its anchor, position `p` of the order. */
  lemma SpliceOnto(t: Tree, ids: seq<Id>, lo: nat, hi: nat, chars: string, site: string, c: int, p: nat)
    requires WellFormed(t) && ValidSite(site) && c >= 0 && lo <= hi <= |ids| && p <= |Order(t)|
    requires forall k :: k in ids ==> k in t.items
    requires var after := Anchor(ids, lo);
      (if after == Root then p == 0 else p > 0 && Order(t)[p - 1] == after) && Outranks(t, Atom(site, c + 1), after)
    requires Unused(t.items, site, c, |chars|)
    ensures var run := JsRun(t, SpliceOps(ids, lo, hi, chars, site, c));
      run.error.None? && Grown(t, run.tree, ids[lo..hi], TypeRun(site, c, Anchor(ids, lo), chars)) &&
      Order(run.tree) == Order(t)[..p] + NewIds(site, c, |chars|) + Order(t)[p..]
  {
    var dead, after := ids[lo..hi], Anchor(ids, lo);
    var ins := TypeRun(site, c, after, chars);
    KillRun(t, dead);
    var mid := JsRun(t, Deletions(dead)).tree;
    assert lo > 0 ==> ids[lo - 1] in ids;
    SameKids(t, mid, after);
    TypeRunIsNewest(mid, site, c, after, chars);
    EditRun(t, dead, ins);
    RunConcat(t, Deletions(dead), ins);
    TypedBlock(mid, site, c, after, chars, p);
  }

  lemma SameKids(t: Tree, u: Tree, p: Id)
    requires t.children == u.children
    ensures Kids(t, p) == Kids(u, p)
  {
  }

  ghost predicate BaseItem(items: map<Id, Item>, base: string, a: Span, b: Span, k: nat)
    requires k < |base|
  {
    Link(BASE, k + 1) in items && items[Link(BASE, k + 1)].ch == [base[k]] &&
    items[Link(BASE, k + 1)].after == Link(BASE, k) &&
    (items[Link(BASE, k + 1)].deleted <==> a.lo <= k < a.roOld || b.lo <= k < b.roOld)
  }

  /** The base chain with the stretches of both sides deleted; other items are not constrained. */
  ghost predicate HoldsBase(items: map<Id, Item>, base: string, a: Span, b: Span) {
    forall k {:trigger BaseItem(items, base, a, b, k)} :: 0 <= k < |base| ==> BaseItem(items, base, a, b, k)
  }

  const NOTHING := Span(0, 0, 0)

  lemma ChainHoldsBase(base: string)
    ensures var t, n := Chain(BASE, base), |base|;
      WellFormed(t) && Order(t) == Links(BASE, n) && VisibleIds(t) == Links(BASE, n) &&
      t.items.Keys == LinkSet(BASE, n) && HoldsBase(t.items, base, NOTHING, NOTHING)
  {
    SitesAreValid();
    ChainText(BASE, base);
    ChainShape(BASE, base);
    var t := Chain(BASE, base);
    forall k | 0 <= k < |base| ensures BaseItem(t.items, base, NOTHING, NOTHING, k) {
      assert HoldsChainItem(t.items, BASE, base, k + 1);
    }
  }

  lemma LinkSlice(n: nat, lo: nat, hi: nat, k: nat)
    requires lo <= hi <= n && k < n
    ensures Link(BASE, k + 1) in Links(BASE, n)[lo..hi] <==> lo <= k < hi
  {
    if lo <= k < hi { assert Links(BASE, n)[lo..hi][k - lo] == Link(BASE, k + 1); }
  }

  lemma BaseItemAfter(
      t: Tree, u: Tree, base: string, s: Span, b: Span, c: Span, ins: seq<Op>, k: nat)
    requires c.lo <= c.roOld <= |base| && HoldsBase(t.items, base, s, b) && (s == NOTHING || s == c) && k < |base|
    requires Grown(t, u, Links(BASE, |base|)[c.lo..c.roOld], ins)
    ensures BaseItem(u.items, base, c, b, k)
  {
    assert BaseItem(t.items, base, s, b, k);
    LinkSlice(|base|, c.lo, c.roOld, k);
  }

  /** Live ids carrying the letters of `text` spell it. */
  lemma {:induction false} CarriedText(items: map<Id, Item>, ids: seq<Id>, text: string)
    requires Carry(items, ids, text) && forall k :: k in ids ==> Alive(items, k)
    ensures TextOf(items, ids) == text
  {
    if ids != [] {
      assert ids[0] in ids;
      CarriedText(items, ids[1..], text[1..]);
      assert text == [text[0]] + text[1..];
    }
  }

  /** The base ids from i to j show the kept letters. */
  lemma {:induction false} KeptText(items: map<Id, Item>, base: string, a: Span, b: Span, i: nat, j: nat)
    requires HoldsBase(items, base, a, b) && i <= j <= |base|
    ensures TextOf(items, Links(BASE, |base|)[i..j]) == Kept(base, a, b, i, j)
    decreases j - i
  {
    var ids := Links(BASE, |base|)[i..j];
    if i < j {
      assert ids[0] == Link(BASE, i + 1) && ids[1..] == Links(BASE, |base|)[i + 1..j];
      assert BaseItem(items, base, a, b, i);
      KeptText(items, base, a, b, i + 1, j);
    }
  }

  /** The typed letters of a side are live and in place. */
  ghost predicate HoldsTyped(items: map<Id, Item>, site: string, c: int, after: Id, v: string) {
    forall i {:trigger TypedItem(items, site, c, after, v, i)} :: 0 <= i < |v| ==>
      TypedItem(items, site, c, after, v, i)
  }

  ghost predicate TypedItem(items: map<Id, Item>, site: string, c: int, after: Id, v: string, i: nat)
    requires i < |v|
  {
    var id := Atom(site, c + 1 + i);
    id in items && items[id] == Item(id, if i == 0 then after else Atom(site, c + i), [v[i]], false)
  }

  lemma GrownHoldsTyped(t: Tree, u: Tree, dead: seq<Id>, site: string, c: int, after: Id, v: string)
    requires Grown(t, u, dead, TypeRun(site, c, after, v)) && forall k :: k in dead ==> k in t.items
    ensures HoldsTyped(u.items, site, c, after, v)
  {
    forall i | 0 <= i < |v| ensures TypedItem(u.items, site, c, after, v, i) {
      assert GrownAt(t.items, u.items, dead, TypeRun(site, c, after, v), i);
    }
  }

  lemma TypedText(items: map<Id, Item>, site: string, c: int, after: Id, v: string)
    requires HoldsTyped(items, site, c, after, v)
    ensures TextOf(items, NewIds(site, c, |v|)) == v
  {
    var ids := NewIds(site, c, |v|);
    forall i | 0 <= i < |v| ensures ids[i] in items && items[ids[i]].ch == [v[i]] && Alive(items, ids[i]) {
      assert TypedItem(items, site, c, after, v, i);
    }
    CarriedText(items, ids, v);
  }

  /** `t` is the base chain with `b` spliced to `v` by the other side. */
  ghost predicate TheirsIn(t: Tree, base: string, b: Span, v: string) {
    && WellFormed(t) && b.lo <= b.roOld <= |base| && HoldsBase(t.items, base, NOTHING, b)
    && t.items.Keys == LinkSet(BASE, |base|) + Elements(NewIds(THEIR, |base|, |v|))
    && HoldsTyped(t.items, THEIR, |base|, Link(BASE, b.lo), v)
    && Order(t) == Links(BASE, |base|)[..b.lo] + NewIds(THEIR, |base|, |v|) + Links(BASE, |base|)[b.lo..]
  }

  lemma TheirsGoIn(base: string, b: Span, v: string)
    requires b.lo <= b.roOld <= |base|
    ensures var run := JsRun(Chain(BASE, base), SpliceOps(Links(BASE, |base|), b.lo, b.roOld, v, THEIR, |base|));
      run.error.None? && TheirsIn(run.tree, base, b, v)
  {
    hide JsRun, SpliceOps, TheirsIn, Chain, HoldsBase;
    var t, n := Chain(BASE, base), |base|;
    var ids := Links(BASE, n);
    SitesAreValid();
    ChainHoldsBase(base);
    BaseIsKnown(t, base, ids);
    assert Anchor(ids, b.lo) == Link(BASE, b.lo);
    forall k | k in Kids(t, Link(BASE, b.lo)) ensures SibLess(Atom(THEIR, n + 1), k) { assert k in LinkSet(BASE, n); }
    forall x | x in NewIds(THEIR, n, |v|) ensures x !in t.items {}
    SpliceOnto(t, ids, b.lo, b.roOld, v, THEIR, n, b.lo);
    var u := JsRun(t, SpliceOps(ids, b.lo, b.roOld, v, THEIR, n)).tree;
    TheirsAreIn(t, u, base, b, v);
  }

  lemma TheirsAreIn(t: Tree, u: Tree, base: string, b: Span, v: string)
    requires HoldsBase(t.items, base, NOTHING, NOTHING) && t.items.Keys == LinkSet(BASE, |base|)
    requires b.lo <= b.roOld <= |base|
    requires Grown(t, u, Links(BASE, |base|)[b.lo..b.roOld], TypeRun(THEIR, |base|, Link(BASE, b.lo), v))
    requires Order(u) == Links(BASE, |base|)[..b.lo] + NewIds(THEIR, |base|, |v|) + Links(BASE, |base|)[b.lo..]
    ensures TheirsIn(u, base, b, v)
  {
    var ins := TypeRun(THEIR, |base|, Link(BASE, b.lo), v);
    forall k | 0 <= k < |base| ensures BaseItem(u.items, base, NOTHING, b, k) {
      BaseItemAfter(t, u, base, NOTHING, NOTHING, b, ins, k);
      assert BaseItem(u.items, base, b, NOTHING, k);
    }
    BaseIsKnown(t, base, Links(BASE, |base|));
    forall k | k in Links(BASE, |base|)[b.lo..b.roOld] ensures k in t.items { assert k in Links(BASE, |base|); }
    GrownHoldsTyped(t, u, Links(BASE, |base|)[b.lo..b.roOld], THEIR, |base|, Link(BASE, b.lo), v);
    assert InsIds(ins) == NewIds(THEIR, |base|, |v|);
  }

  lemma BaseIsKnown(t: Tree, base: string, ids: seq<Id>)
    requires LinkSet(BASE, |base|) <= t.items.Keys && ids == Links(BASE, |base|)
    ensures forall k :: k in ids ==> k in t.items
  {
    forall k | k in ids ensures k in t.items { assert k in LinkSet(BASE, |base|); }
  }

  /** Every child of a base position in `t` yields to a new item of mine. */
  lemma MineOutranks(t: Tree, base: string, b: Span, v: string, lo: nat)
    requires TheirsIn(t, base, b, v) && lo <= |base|
    ensures Outranks(t, Atom(MINE, |base| + 1), Link(BASE, lo))
  {
    SitesAreValid();
    forall k | k in Kids(t, Link(BASE, lo)) ensures SibLess(Atom(MINE, |base| + 1), k) {
      if k !in LinkSet(BASE, |base|) {
        assert k in t.items && k in NewIds(THEIR, |base|, |v|);
        var i :| 0 <= i < |v| && NewIds(THEIR, |base|, |v|)[i] == k;
        assert TypedItem(t.items, THEIR, |base|, Link(BASE, b.lo), v, i);
      }
    }
  }

  /** Mine on top of theirs. */
  lemma MineGoIn(t: Tree, base: string, a: Span, u: string, b: Span, v: string)
    requires TheirsIn(t, base, b, v) && a.lo <= a.roOld <= |base|
    ensures var run := JsRun(t, SpliceOps(Links(BASE, |base|), a.lo, a.roOld, u, MINE, |base|));
      var p := if a.lo <= b.lo then a.lo else a.lo + |v|;
      run.error.None? && WellFormed(run.tree) && p <= |Order(t)| &&
      HoldsBase(run.tree.items, base, a, b) &&
      HoldsTyped(run.tree.items, THEIR, |base|, Link(BASE, b.lo), v) &&
      HoldsTyped(run.tree.items, MINE, |base|, Link(BASE, a.lo), u) &&
      Order(run.tree) == Order(t)[..p] + NewIds(MINE, |base|, |u|) + Order(t)[p..]
  {
    var n, ids := |base|, Links(BASE, |base|);
    var p := if a.lo <= b.lo then a.lo else a.lo + |v|;
    SitesAreValid();
    BaseIsKnown(t, base, ids);
    assert Anchor(ids, a.lo) == Link(BASE, a.lo);
    assert a.lo > 0 ==> Order(t)[p - 1] == ids[a.lo - 1];
    MineOutranks(t, base, b, v, a.lo);
    forall x | x in t.items ensures x !in NewIds(MINE, n, |u|) {
      assert x in LinkSet(BASE, n) || x in NewIds(THEIR, n, |v|);
    }
    SpliceOnto(t, ids, a.lo, a.roOld, u, MINE, n, p);
    var w := JsRun(t, SpliceOps(ids, a.lo, a.roOld, u, MINE, n)).tree;
    MineAreIn(t, w, base, a, u, b, v);
  }

  lemma MineAreIn(t: Tree, w: Tree, base: string, a: Span, u: string, b: Span, v: string)
    requires TheirsIn(t, base, b, v) && a.lo <= a.roOld <= |base|
    requires Grown(t, w, Links(BASE, |base|)[a.lo..a.roOld], TypeRun(MINE, |base|, Link(BASE, a.lo), u))
    ensures HoldsBase(w.items, base, a, b)
    ensures HoldsTyped(w.items, THEIR, |base|, Link(BASE, b.lo), v)
    ensures HoldsTyped(w.items, MINE, |base|, Link(BASE, a.lo), u)
  {
    var dead, ins := Links(BASE, |base|)[a.lo..a.roOld], TypeRun(MINE, |base|, Link(BASE, a.lo), u);
    forall k | 0 <= k < |base| ensures BaseItem(w.items, base, a, b, k) {
      BaseItemAfter(t, w, base, NOTHING, b, a, ins, k);
    }
    BaseIsKnown(t, base, Links(BASE, |base|));
    forall k | k in dead ensures k in t.items { assert k in Links(BASE, |base|); }
    GrownHoldsTyped(t, w, dead, MINE, |base|, Link(BASE, a.lo), u);
    forall i | 0 <= i < |v| ensures TypedItem(w.items, THEIR, |base|, Link(BASE, b.lo), v, i) {
      assert TypedItem(t.items, THEIR, |base|, Link(BASE, b.lo), v, i);
      assert Atom(THEIR, |base| + 1 + i) !in dead;
    }
  }

  /** The order of all items, tombstones included, once both sides are in. */
  function MergeOrder(ids: seq<Id>, mine: seq<Id>, their: seq<Id>, a: nat, b: nat): seq<Id>
    requires a <= |ids| && b <= |ids|
  {
    if a <= b then ids[..a] + mine + ids[a..b] + their + ids[b..]
    else ids[..b] + their + ids[b..a] + mine + ids[a..]
  }

  /** What the document shows in the end. */
  lemma MergedShows(items: map<Id, Item>, base: string, a: Span, u: string, b: Span, v: string, order: seq<Id>)
    requires a.lo <= |base| && b.lo <= |base| && HoldsBase(items, base, a, b)
    requires HoldsTyped(items, THEIR, |base|, Link(BASE, b.lo), v) &&
      HoldsTyped(items, MINE, |base|, Link(BASE, a.lo), u)
    requires order ==
      MergeOrder(Links(BASE, |base|), NewIds(MINE, |base|, |u|), NewIds(THEIR, |base|, |v|), a.lo, b.lo)
    ensures TextOf(items, order) == Merged(base, a, u, b, v)
  {
    var ids, n := Links(BASE, |base|), |base|;
    var mine, their := NewIds(MINE, n, |u|), NewIds(THEIR, n, |v|);
    TypedText(items, MINE, n, Link(BASE, a.lo), u);
    TypedText(items, THEIR, n, Link(BASE, b.lo), v);
    var lo, hi := if a.lo <= b.lo then a.lo else b.lo, if a.lo <= b.lo then b.lo else a.lo;
    KeptText(items, base, a, b, 0, lo);
    KeptText(items, base, a, b, lo, hi);
    KeptText(items, base, a, b, hi, n);
    assert ids[0..lo] == ids[..lo] && ids[hi..n] == ids[hi..];
    if a.lo <= b.lo {
      FiveTexts(items, ids[..lo], mine, ids[lo..hi], their, ids[hi..]);
    } else {
      FiveTexts(items, ids[..lo], their, ids[lo..hi], mine, ids[hi..]);
    }
  }

  lemma FiveTexts(items: map<Id, Item>, a: seq<Id>, b: seq<Id>, c: seq<Id>, d: seq<Id>, e: seq<Id>)
    ensures TextOf(items, a + b + c + d + e) ==
      TextOf(items, a) + TextOf(items, b) + TextOf(items, c) + TextOf(items, d) + TextOf(items, e)
  {
    VisibleConcat(items, a, b);
    VisibleConcat(items, a + b, c);
    VisibleConcat(items, a + b + c, d);
    VisibleConcat(items, a + b + c + d, e);
  }

  // ----- the result ------------------------------------------------------------------------------

  ghost function TheirsTree(base: string, theirs: string): Tree {
    JsRun(Chain(BASE, base), SideOps(base, theirs, THEIR)).tree
  }

  /** The document that `merge3` reads its result off: theirs applied to the base, then mine. */
  ghost function MergeTree(base: string, mine: string, theirs: string): Tree {
    JsRun(TheirsTree(base, theirs), SideOps(base, mine, MINE)).tree
  }

  lemma SideIsSplice(base: string, side: string, site: string)
    ensures var s := EditSpan(base, side);
      InRange(base, side, s) &&
      SideOps(base, side, site) == SpliceOps(Links(BASE, |base|), s.lo, s.roOld, side[s.lo..s.roNew], site, |base|)
  {
    DiffIsSplice(base, Links(BASE, |base|), side, site, |base|);
  }

  /** Three-way merge in closed form: both sides apply, and the text is as `MergedText` says. */
  lemma MergeClosedForm(base: string, mine: string, theirs: string)
    ensures JsRun(Chain(BASE, base), SideOps(base, theirs, THEIR)).error.None?
    ensures JsRun(TheirsTree(base, theirs), SideOps(base, mine, MINE)).error.None?
    ensures WellFormed(TheirsTree(base, theirs)) && WellFormed(MergeTree(base, mine, theirs))
    ensures Text(MergeTree(base, mine, theirs)) == MergedText(base, mine, theirs)
  {
    var a, b := EditSpan(base, mine), EditSpan(base, theirs);
    SideIsSplice(base, mine, MINE);
    SideIsSplice(base, theirs, THEIR);
    MergeSplices(base, a, mine[a.lo..a.roNew], b, theirs[b.lo..b.roNew]);
  }

  lemma MergeSplices(base: string, a: Span, u: string, b: Span, v: string)
    requires a.lo <= a.roOld <= |base| && b.lo <= b.roOld <= |base|
    ensures var ids := Links(BASE, |base|);
      var theirs := JsRun(Chain(BASE, base), SpliceOps(ids, b.lo, b.roOld, v, THEIR, |base|));
      var both := JsRun(theirs.tree, SpliceOps(ids, a.lo, a.roOld, u, MINE, |base|));
      theirs.error.None? && both.error.None? && WellFormed(theirs.tree) && WellFormed(both.tree) &&
      Text(both.tree) == Merged(base, a, u, b, v)
  {
    var ids := Links(BASE, |base|);
    TheirsGoIn(base, b, v);
    var t := JsRun(Chain(BASE, base), SpliceOps(ids, b.lo, b.roOld, v, THEIR, |base|)).tree;
    MineShow(t, base, a, u, b, v);
  }

  lemma MineShow(t: Tree, base: string, a: Span, u: string, b: Span, v: string)
    requires TheirsIn(t, base, b, v) && a.lo <= a.roOld <= |base|
    ensures var run := JsRun(t, SpliceOps(Links(BASE, |base|), a.lo, a.roOld, u, MINE, |base|));
      run.error.None? && WellFormed(run.tree) && Text(run.tree) == Merged(base, a, u, b, v)
  {
    var ids, mine, their := Links(BASE, |base|), NewIds(MINE, |base|, |u|), NewIds(THEIR, |base|, |v|);
    MineGoIn(t, base, a, u, b, v);
    var w := JsRun(t, SpliceOps(ids, a.lo, a.roOld, u, MINE, |base|)).tree;
    MineOrder(Order(t), Order(w), ids, mine, their, a.lo, b.lo);
    MergedShows(w.items, base, a, u, b, v, Order(w));
  }

  lemma MineOrder(o: seq<Id>, o': seq<Id>, ids: seq<Id>, mine: seq<Id>, their: seq<Id>, a: nat, b: nat)
    requires a <= |ids| && b <= |ids| && o == ids[..b] + their + ids[b..]
    requires var p := if a <= b then a else a + |their|; p <= |o| && o' == o[..p] + mine + o[p..]
    ensures o' == MergeOrder(ids, mine, their, a, b)
  {
    OrderSplit(ids, mine, their, a, b);
  }

  lemma OrderSplit(ids: seq<Id>, mine: seq<Id>, their: seq<Id>, a: nat, b: nat)
    requires a <= |ids| && b <= |ids|
    ensures var o, p := ids[..b] + their + ids[b..], if a <= b then a else a + |their|;
      o[..p] + mine + o[p..] == MergeOrder(ids, mine, their, a, b)
  {
    var o := ids[..b] + their + ids[b..];
    if a <= b {
      assert o[..a] == ids[..a] && o[a..] == ids[a..b] + their + ids[b..];
    } else {
      assert o[..a + |their|] == ids[..b] + their + ids[b..a] && o[a + |their|..] == ids[a..];
    }
  }

  // ----- independence of the order of the sides ------------------------------------------------------

  lemma {:induction false} SpliceOpsAreCausal(known: set<Id>, dead: seq<Id>, ins: seq<Op>)
    requires AllInserts(ins) && forall k :: k in dead ==> k in known
    ensures Causal(known, Deletions(dead) + ins)
    decreases |dead|
  {
    var ops := Deletions(dead) + ins;
    if dead == [] {
      assert ops == ins;
      InsertsAreCausal(known, ins);
    } else {
      assert dead[0] in dead && ops[1..] == Deletions(dead[1..]) + ins;
      SpliceOpsAreCausal(known, dead[1..], ins);
    }
  }

  ghost predicate AllInserts(ins: seq<Op>) {
    forall i :: 0 <= i < |ins| ==> ins[i].Ins?
  }

  lemma {:induction false} InsertsAreCausal(known: set<Id>, ins: seq<Op>)
    requires AllInserts(ins)
    ensures Causal(known, ins)
    decreases |ins|
  {
    if ins != [] { InsertsAreCausal(Learn(known, ins[0]), ins[1..]); }
  }

  lemma {:induction false} CausalGrows(known: set<Id>, more: set<Id>, ops: seq<Op>)
    requires known <= more && Causal(known, ops)
    ensures Causal(more, ops)
    decreases |ops|
  {
    if ops != [] { CausalGrows(Learn(known, ops[0]), Learn(more, ops[0]), ops[1..]); }
  }

  lemma {:induction false} AcceptsGrows(known: set<Id>, more: set<Id>, ops: seq<Op>)
    requires known <= more && JsAccepts(known, ops)
    ensures JsAccepts(more, ops)
    decreases |ops|
  {
    if ops != [] { AcceptsGrows(Learn(known, ops[0]), Learn(more, ops[0]), ops[1..]); }
  }

  lemma {:induction false} CausalConcat(known: set<Id>, a: seq<Op>, b: seq<Op>)
    requires Causal(known, a) && Causal(known, b)
    ensures Causal(known, a + b)
    decreases |a|
  {
    if a == [] {
      assert a + b == b;
    } else {
      assert (a + b)[1..] == a[1..] + b;
      CausalGrows(known, Learn(known, a[0]), b);
      CausalConcat(Learn(known, a[0]), a[1..], b);
    }
  }

  /** The operations of one side: valid, causal and accepted on the base, ids of its own site. */
  ghost predicate SideFits(t: Tree, ops: seq<Op>, site: string) {
    && AllValid(ops) && Causal(t.items.Keys, ops) && JsRun(t, ops).error.None?
    && (forall i :: 0 <= i < |ops| && ops[i].Ins? ==> ops[i].id.Atom? && ops[i].id.site == site)
    && OnePayload(Elements(ops))
  }

  lemma SpliceFits(base: string, s: Span, v: string, site: string)
    requires s.lo <= s.roOld <= |base| && ValidSite(site)
    ensures SideFits(Chain(BASE, base), SpliceOps(Links(BASE, |base|), s.lo, s.roOld, v, site, |base|), site)
  {
    SpliceRunsOnChain(base, s, v, site);
    SpliceIsCausal(base, s, v, site);
    SpliceIsValid(Links(BASE, |base|), s.lo, s.roOld, v, site, |base|);
    SpliceInserts(Links(BASE, |base|), s.lo, s.roOld, v, site, |base|);
  }

  lemma SpliceRunsOnChain(base: string, s: Span, v: string, site: string)
    requires s.lo <= s.roOld <= |base| && ValidSite(site)
    ensures JsRun(Chain(BASE, base), SpliceOps(Links(BASE, |base|), s.lo, s.roOld, v, site, |base|)).error.None?
  {
    SitesAreValid();
    ChainHoldsBase(base);
    var t := Chain(BASE, base);
    forall k | k in t.items && k.Atom? ensures k.clock <= |base| { assert k in LinkSet(BASE, |base|); }
    SpliceGrows(t, s.lo, s.roOld, v, site, |base|);
  }

  lemma SpliceIsCausal(base: string, s: Span, v: string, site: string)
    requires s.lo <= s.roOld <= |base|
    ensures Causal(Chain(BASE, base).items.Keys, SpliceOps(Links(BASE, |base|), s.lo, s.roOld, v, site, |base|))
  {
    var ids := Links(BASE, |base|);
    ChainHoldsBase(base);
    BaseIsKnown(Chain(BASE, base), base, ids);
    SpliceOpsAreCausal(Chain(BASE, base).items.Keys, ids[s.lo..s.roOld], TypeRun(site, |base|, Anchor(ids, s.lo), v));
  }

  lemma SpliceInserts(ids: seq<Id>, lo: nat, hi: nat, v: string, site: string, n: nat)
    requires lo <= hi <= |ids|
    ensures var ops := SpliceOps(ids, lo, hi, v, site, n);
      OnePayload(Elements(ops)) && forall i :: 0 <= i < |ops| && ops[i].Ins? ==>
        ops[i].id.Atom? && ops[i].id.site == site
  {
    var ops, ins := SpliceOps(ids, lo, hi, v, site, n), TypeRun(site, n, Anchor(ids, lo), v);
    forall x | x in Elements(ops) && x.Ins? ensures x in ins {
      var i :| 0 <= i < |ops| && ops[i] == x;
    }
    forall x, y | x in Elements(ops) && y in Elements(ops) && x.Ins? && y.Ins? && x.id == y.id ensures x == y {
      var i :| 0 <= i < |ins| && ins[i] == x;
      var j :| 0 <= j < |ins| && ins[j] == y;
    }
  }

  lemma SpliceIsValid(ids: seq<Id>, lo: nat, hi: nat, v: string, site: string, n: nat)
    requires lo <= hi <= |ids| && ValidSite(site) && ids == Links(BASE, |ids|)
    ensures AllValid(SpliceOps(ids, lo, hi, v, site, n))
  {
    SitesAreValid();
    var ops := SpliceOps(ids, lo, hi, v, site, n);
    forall i | 0 <= i < |ops| ensures ValidateOp(ops[i]).None? {
      if i < hi - lo { assert ops[i] == Del(ids[lo + i]); }
    }
  }

  /** Sides of different sites can be applied in either order. */
  lemma SidesCommute(t: Tree, a: seq<Op>, b: seq<Op>, siteA: string, siteB: string)
    requires WellFormed(t) && siteA != siteB && SideFits(t, a, siteA) && SideFits(t, b, siteB)
    ensures JsRun(JsRun(t, a).tree, b).error.None? && JsRun(JsRun(t, b).tree, a).error.None?
    ensures JsRun(JsRun(t, a).tree, b).tree == JsRun(JsRun(t, b).tree, a).tree
  {
    SideAfterSide(t, a, b);
    SideAfterSide(t, b, a);
    RunConcat(t, a, b);
    RunConcat(t, b, a);
    CausalConcat(t.items.Keys, a, b);
    CausalConcat(t.items.Keys, b, a);
    ElementsConcat(a, b);
    ElementsConcat(b, a);
    OnePayloadOfBoth(a, b, siteA, siteB);
    DeliveriesConverge(t, a + b, b + a);
  }

  lemma SideAfterSide(t: Tree, a: seq<Op>, b: seq<Op>)
    requires WellFormed(t) && JsRun(t, a).error.None? && JsRun(t, b).error.None? && AllValid(b)
    ensures JsRun(JsRun(t, a).tree, b).error.None?
  {
    var u := JsRun(t, a).tree;
    JsRunStays(t, a);
    RunDelivers(t, a);
    JsRunSucceedsExactlyWhenAccepted(t, b);
    AcceptsGrows(t.items.Keys, u.items.Keys, b);
    JsRunSucceedsExactlyWhenAccepted(u, b);
  }

  lemma ElementsConcat(a: seq<Op>, b: seq<Op>)
    ensures Elements(a + b) == Elements(a) + Elements(b)
  {
  }

  lemma OnePayloadOfBoth(a: seq<Op>, b: seq<Op>, siteA: string, siteB: string)
    requires OnePayload(Elements(a)) && OnePayload(Elements(b)) && siteA != siteB
    requires forall i :: 0 <= i < |a| && a[i].Ins? ==> a[i].id.Atom? && a[i].id.site == siteA
    requires forall i :: 0 <= i < |b| && b[i].Ins? ==> b[i].id.Atom? && b[i].id.site == siteB
    ensures OnePayload(Elements(a) + Elements(b))
  {
    forall x | x in Elements(a) && x.Ins? ensures x.id.Atom? && x.id.site == siteA {
      var i :| 0 <= i < |a| && a[i] == x;
    }
    forall x | x in Elements(b) && x.Ins? ensures x.id.Atom? && x.id.site == siteB {
      var i :| 0 <= i < |b| && b[i] == x;
    }
  }

  /** The merge does not depend on which side's operations come first. */
  lemma MergeIgnoresTurn(base: string, mine: string, theirs: string)
    ensures JsRun(Chain(BASE, base), SideOps(base, mine, MINE)).error.None?
    ensures JsRun(JsRun(Chain(BASE, base), SideOps(base, mine, MINE)).tree, SideOps(base, theirs, THEIR)).tree ==
      MergeTree(base, mine, theirs)
  {
    var a, b := EditSpan(base, mine), EditSpan(base, theirs);
    SitesAreValid();
    ChainHoldsBase(base);
    SideIsSplice(base, mine, MINE);
    SideIsSplice(base, theirs, THEIR);
    SpliceFits(base, a, mine[a.lo..a.roNew], MINE);
    SpliceFits(base, b, theirs[b.lo..b.roNew], THEIR);
    SidesCommute(Chain(BASE, base), SideOps(base, mine, MINE), SideOps(base, theirs, THEIR), MINE, THEIR);
  }

  /** `merge3` as the browser runs it. */
  method Merge3(base: string, mine: string, theirs: string) returns (merged: string)
    ensures merged == MergedText(base, mine, theirs)
  {
    var n := |base|;
    SitesAreValid();
    ChainHoldsBase(base);
    MergeClosedForm(base, mine, theirs);
    var d, error := Doc.BuildFromString(BASE, base);
    if error.Some? { return mine; }
    var ids := d.VisibleIDs();
    var clock := d.MaxClock();
    ChainClock(d.State(), base, clock);
    var dTheirs := ComputeDiff(base, ids, theirs, THEIR, clock);
    var dMine := ComputeDiff(base, ids, mine, MINE, clock);
    if dTheirs.ops != [] {
      var changed, failed := d.JsApplyBatch(dTheirs.ops);
      if failed.Some? { return mine; }
    }
    if dMine.ops != [] {
      var changed, failed := d.JsApplyBatch(dMine.ops);
      if failed.Some? { return mine; }
    }
    merged := d.Materialize();
  }

  lemma ChainClock(t: Tree, base: string, clock: int)
    requires t == Chain(BASE, base) && IsMaxClock(t.items, clock)
    ensures clock == |base|
  {
    SitesAreValid();
    ChainShape(BASE, base);
    assert base != "" ==> HoldsChainItem(t.items, BASE, base, |base|);
    forall k | k in t.items ensures k.Atom? && k.clock <= |base| { assert k in LinkSet(BASE, |base|); }
  }
}
