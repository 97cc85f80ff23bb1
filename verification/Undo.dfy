/**
 Inverse operations (static/app.js:961-980): inserts become tombstones, deletions come
 back as fresh inserts behind the old parent. The main result says when a set of
 tombstones, revived one after the other, comes back in its old places.
 */
module Undo {
  import opened Sequences
  import opened Ids
  import opened Rga
  import opened RgaEdits
  import opened Ops
  import opened Views
  import opened Snapshots
  import opened Growth
  import opened Edits

  datatype Inverse = Inverse(ops: seq<Op>, clock: int)

  /** Last operation first; deletions of ids the document no longer has are dropped. */
  function InverseOps(items: map<Id, Item>, ops: seq<Op>, site: string, clock: int): Inverse
    decreases |ops|
  {
    if ops == [] then Inverse([], clock)
    else
      var last, init := ops[|ops| - 1], ops[..|ops| - 1];
      match last
      case Ins(id, _, _) =>
        var rest := InverseOps(items, init, site, clock);
        Inverse([Del(id)] + rest.ops, rest.clock)
      case Del(id) =>
        if id !in items then InverseOps(items, init, site, clock)
        else
          var rest := InverseOps(items, init, site, clock + 1);
          Inverse([Ins(Atom(site, clock + 1), items[id].after, items[id].ch)] + rest.ops, rest.clock)
      case Unknown(_) => InverseOps(items, init, site, clock)
  }

  function Reverse<T>(s: seq<T>): seq<T> {
    seq(|s|, i requires 0 <= i < |s| => s[|s| - 1 - i])
  }

  lemma ReverseMembers<T>(s: seq<T>, x: T)
    ensures x in Reverse(s) <==> x in s
  {
    if x in s {
      var i :| 0 <= i < |s| && s[i] == x;
      assert Reverse(s)[|s| - 1 - i] == x;
    }
  }

  function Original(items: map<Id, Item>, k: Id): Item {
    if k in items then items[k] else Item(k, Root, "", true)
  }

  /** Fresh copies of `ids`, each behind the parent of its original. */
  function Revive(items: map<Id, Item>, ids: seq<Id>, site: string, clock: int): seq<Op> {
    seq(|ids|, i requires 0 <= i < |ids| =>
      var item := Original(items, ids[i]);
      Ins(Atom(site, clock + 1 + i), item.after, item.ch))
  }

  // ----- the inverse of a batch, deletions and inserts apart --------------------------------

  function Deleted(ops: seq<Op>): seq<Id>
    decreases |ops|
  {
    if ops == [] then [] else
      var last := ops[|ops| - 1];
      Deleted(ops[..|ops| - 1]) + if last.Del? then [last.id] else []
  }

  function Inserted(ops: seq<Op>): seq<Op>
    decreases |ops|
  {
    if ops == [] then [] else
      var last := ops[|ops| - 1];
      Inserted(ops[..|ops| - 1]) + if last.Ins? then [last] else []
  }

  lemma {:induction false} SplitConcat(a: seq<Op>, b: seq<Op>)
    ensures Deleted(a + b) == Deleted(a) + Deleted(b)
    ensures Inserted(a + b) == Inserted(a) + Inserted(b)
    decreases |b|
  {
    if b == [] {
      assert a + b == a;
    } else {
      var n := |b| - 1;
      assert (a + b)[..|a + b| - 1] == a + b[..n];
      SplitConcat(a, b[..n]);
    }
  }

  lemma {:induction false} SplitDeletions(ids: seq<Id>)
    ensures Deleted(Deletions(ids)) == ids && Inserted(Deletions(ids)) == []
    decreases |ids|
  {
    if ids != [] {
      var n := |ids| - 1;
      assert Deletions(ids)[..n] == Deletions(ids[..n]);
      SplitDeletions(ids[..n]);
    }
  }

  lemma {:induction false} SplitInserts(ins: seq<Op>)
    requires forall i :: 0 <= i < |ins| ==> ins[i].Ins?
    ensures Deleted(ins) == [] && Inserted(ins) == ins
    decreases |ins|
  {
    if ins != [] { SplitInserts(ins[..|ins| - 1]); }
  }

  /** Inserts, and deletions of items the document has. */
  ghost predicate Invertible(items: map<Id, Item>, ops: seq<Op>) {
    forall i :: 0 <= i < |ops| ==> ops[i].Ins? || (ops[i].Del? && ops[i].id in items)
  }

  /** The inverse deletes what was inserted and revives what was deleted, each in reverse. */
  lemma {:induction false} InverseSplits(items: map<Id, Item>, ops: seq<Op>, site: string, clock: int)
    requires Invertible(items, ops)
    ensures var inv := InverseOps(items, ops, site, clock);
      && Deleted(inv.ops) == Reverse(InsIds(Inserted(ops)))
      && Inserted(inv.ops) == Revive(items, Reverse(Deleted(ops)), site, clock)
      && inv.clock == clock + |Deleted(ops)| && |inv.ops| == |ops|
      && forall i :: 0 <= i < |inv.ops| ==> !inv.ops[i].Unknown?
    decreases |ops|
  {
    hide InsIds, Revive, Reverse, Deleted, Inserted;
    if ops == [] {
      NothingToInvert(items, site, clock);
    } else {
      var last, init := ops[|ops| - 1], ops[..|ops| - 1];
      SplitLast(ops);
      if last.Ins? {
        InverseSplits(items, init, site, clock);
        InverseOfInsert(init, last, InverseOps(items, init, site, clock).ops);
      } else {
        InverseSplits(items, init, site, clock + 1);
        InverseOfDelete(items, init, last, InverseOps(items, init, site, clock + 1).ops, site, clock);
      }
    }
  }

  lemma NothingToInvert(items: map<Id, Item>, site: string, clock: int)
    ensures Deleted([]) == [] && Inserted([]) == []
    ensures Reverse(InsIds([])) == [] && Revive(items, Reverse([]), site, clock) == []
  {
  }

  lemma SplitLast(ops: seq<Op>)
    requires ops != []
    ensures var init, last := ops[..|ops| - 1], ops[|ops| - 1];
      && Deleted(ops) == (if last.Del? then Deleted(init) + [last.id] else Deleted(init))
      && Inserted(ops) == (if last.Ins? then Inserted(init) + [last] else Inserted(init))
  {
  }

  lemma InverseOfInsert(init: seq<Op>, last: Op, rest: seq<Op>)
    requires last.Ins? && Deleted(rest) == Reverse(InsIds(Inserted(init)))
    ensures Deleted([Del(last.id)] + rest) == Reverse(InsIds(Inserted(init) + [last]))
    ensures Inserted([Del(last.id)] + rest) == Inserted(rest)
  {
    SplitConcat([Del(last.id)], rest);
    assert [Del(last.id)][..0] == [];
    ReverseSnoc(InsIds(Inserted(init)), last.id);
    assert InsIds(Inserted(init) + [last]) == InsIds(Inserted(init)) + [last.id];
  }

  lemma InverseOfDelete(items: map<Id, Item>, init: seq<Op>, last: Op, rest: seq<Op>, site: string, clock: int)
    requires last.Del? && last.id in items && Inserted(rest) == Revive(items, Reverse(Deleted(init)), site, clock + 1)
    ensures var op := Ins(Atom(site, clock + 1), items[last.id].after, items[last.id].ch);
      && Inserted([op] + rest) == Revive(items, Reverse(Deleted(init) + [last.id]), site, clock)
      && Deleted([op] + rest) == Deleted(rest)
  {
    hide Revive, Reverse;
    var op := Ins(Atom(site, clock + 1), items[last.id].after, items[last.id].ch);
    SplitConcat([op], rest);
    assert [op][..0] == [];
    ReverseSnoc(Deleted(init), last.id);
    ReviveCons(items, last.id, Reverse(Deleted(init)), site, clock);
  }

  lemma ReverseSnoc<T>(s: seq<T>, x: T)
    ensures Reverse(s + [x]) == [x] + Reverse(s)
  {
  }

  lemma ReviveCons(items: map<Id, Item>, k: Id, ids: seq<Id>, site: string, clock: int)
    ensures var item := Original(items, k);
      Revive(items, [k] + ids, site, clock) ==
      [Ins(Atom(site, clock + 1), item.after, item.ch)] + Revive(items, ids, site, clock + 1)
  {
  }

  lemma ReverseTwice<T>(s: seq<T>)
    ensures Reverse(Reverse(s)) == s
  {
  }

  lemma ReviveIds(items: map<Id, Item>, ids: seq<Id>, site: string, clock: int)
    ensures InsIds(Revive(items, ids, site, clock)) == NewIds(site, clock, |ids|)
  {
  }

  // ----- running a batch of deletions and newest inserts -------------------------------------

  lemma KilledIsGrown(t: Tree, u: Tree, dead: seq<Id>)
    requires Killed(t, u, dead) && forall k :: k in dead ==> k in t.items
    ensures Grown(t, u, dead, [])
  {
    assert Elements(InsIds([])) == {};
  }

  lemma GrownClocks(t: Tree, u: Tree, dead: seq<Id>, ins: seq<Op>, site: string, clock: int)
    requires Grown(t, u, dead, ins) && ClocksUpTo(t.items, clock)
    requires forall i :: 0 <= i < |ins| ==> ins[i].id == Atom(site, clock + 1 + i)
    ensures ClocksUpTo(u.items, clock + |ins|)
  {
    forall k | k in u.items && k.Atom? ensures k.clock <= clock + |ins| {
      if k !in t.items { var i :| 0 <= i < |ins| && InsIds(ins)[i] == k; }
    }
  }

  /** Deletions and inserts may be mixed as long as the inserts draw consecutive fresh clocks. */
  lemma {:induction false} MixedRun(t: Tree, ops: seq<Op>, site: string, c: int)
    requires WellFormed(t) && ValidSite(site) && ClocksUpTo(t.items, c) && Invertible(t.items, ops)
    requires Clocked(t.items, Inserted(ops), site, c)
    ensures JsRun(t, ops).error.None?
    ensures Grown(t, JsRun(t, ops).tree, Deleted(ops), Inserted(ops))
    ensures ClocksUpTo(JsRun(t, ops).tree.items, c + |Inserted(ops)|)
    decreases |ops|
  {
    hide GrownAt, Clocked, ClocksUpTo, Deleted, Inserted, JsRun, WellFormed;
    if ops == [] {
      NothingRuns(t);
      NothingGrown(t);
    } else {
      var init, last := ops[..|ops| - 1], ops[|ops| - 1];
      assert ops == init + [last];
      SplitLast(ops);
      ClockedPrefix(t.items, Inserted(init), Inserted(ops), site, c);
      MixedRun(t, init, site, c);
      RunConcat(t, init, [last]);
      MixedStep(t, JsRun(t, init).tree, init, last, site, c);
    }
  }

  lemma NothingRuns(t: Tree)
    ensures JsRun(t, []).error.None? && JsRun(t, []).tree == t && Deleted([]) == [] && Inserted([]) == []
  {
  }

  lemma ClockedPrefix(items: map<Id, Item>, a: seq<Op>, b: seq<Op>, site: string, c: int)
    requires Clocked(items, b, site, c) && a <= b
    ensures Clocked(items, a, site, c)
  {
    forall i | 0 <= i < |a| && a[i].after != Root ensures Earlier(items, a, i, a[i].after) {
      assert a[i] == b[i];
      assert b == a + b[|a|..];
      EarlierPrefix(items, a, b[|a|..], i, a[i].after);
    }
  }

  lemma MixedStep(t: Tree, m: Tree, init: seq<Op>, last: Op, site: string, c: int)
    requires WellFormed(t) && ValidSite(site) && Grown(t, m, Deleted(init), Inserted(init))
    requires ClocksUpTo(m.items, c + |Inserted(init)|)
    requires Invertible(t.items, [last]) && Clocked(t.items, Inserted(init + [last]), site, c)
    ensures var ops, run := init + [last], JsRun(m, [last]);
      && run.error.None? && Grown(t, run.tree, Deleted(ops), Inserted(ops))
      && ClocksUpTo(run.tree.items, c + |Inserted(ops)|)
  {
    hide Grown, Deleted, Inserted, JsRun, WellFormed;
    assert [last][0] == last;
    assert (init + [last])[..|init|] == init;
    SplitLast(init + [last]);
    if last.Del? {
      OneDeletion(t, m, Deleted(init), Inserted(init), last.id, c + |Inserted(init)|);
      assert [last] == Deletions([last.id]);
    } else {
      OneInsert(t, m, Deleted(init), Inserted(init), last, site, c);
    }
  }

  lemma OneDeletion(t: Tree, m: Tree, dead: seq<Id>, ins: seq<Op>, id: Id, c: int)
    requires Grown(t, m, dead, ins) && ClocksUpTo(m.items, c) && id in t.items
    ensures var run := JsRun(m, Deletions([id]));
      run.error.None? && Grown(t, run.tree, dead + [id], ins) && ClocksUpTo(run.tree.items, c)
  {
    hide GrownAt;
    var u := JsRun(m, Deletions([id])).tree;
    KillRun(m, [id]);
    KilledIsGrown(m, u, [id]);
    GrownThen(t, m, u, dead, ins, [id], []);
    assert ins + [] == ins;
    GrownClocks(m, u, [id], [], "", c);
  }

  lemma OneInsert(t: Tree, m: Tree, dead: seq<Id>, ins: seq<Op>, op: Op, site: string, c: int)
    requires Grown(t, m, dead, ins) && ClocksUpTo(m.items, c + |ins|) && ValidSite(site)
    requires Clocked(t.items, ins + [op], site, c)
    ensures var run := JsRun(m, [op]);
      run.error.None? && Grown(t, run.tree, dead, ins + [op]) && ClocksUpTo(run.tree.items, c + |ins| + 1)
  {
    assert WellFormed(t) && WellFormed(m);
    hide GrownAt, Grown, Linked, Rooted, ClocksUpTo;
    var n, u := |ins|, JsRun(m, [op]).tree;
    assert (ins + [op])[n] == op;
    if op.after != Root {
      EarlierPrefix(t.items, ins, [op], n, op.after);
      GrownKnows(t, m, dead, ins, n, op.after);
    }
    assert Clocked(m.items, [op], site, c + n);
    ClockedIsNewest(m, [op], site, c + n);
    GrowRun(m, [op]);
    GrownThen(t, m, u, dead, ins, [], [op]);
    assert dead + [] == dead;
    GrownClocks(m, u, [], [op], site, c + n);
  }

  lemma RootedParentsOf(t: Tree, k: Id)
    requires WellFormed(t) && k in t.items
    ensures t.items[k].after == Root || t.items[k].after in t.items
  {
    RootedParents(t.items, k);
  }

  lemma ReviveIsClocked(t: Tree, ids: seq<Id>, site: string, clock: int)
    requires WellFormed(t) && forall k :: k in ids ==> k in t.items
    ensures Clocked(t.items, Revive(t.items, ids, site, clock), site, clock)
  {
    var r := Revive(t.items, ids, site, clock);
    forall i | 0 <= i < |ids|
      ensures SingleCodePoint(r[i].ch) && (r[i].after == Root || Earlier(t.items, r, i, r[i].after))
    {
      assert ids[i] in ids && ItemOk(t.items, ids[i]);
      RootedParentsOf(t, ids[i]);
    }
  }

  // ----- copies against items and copies --------------------------------------------------------

  function ParentOf(items: map<Id, Item>, k: Id): Id {
    Original(items, k).after
  }

  /** `p` stands at or before `q`; the head stands before everything. */
  ghost predicate AtOrBefore(items: map<Id, Item>, p: Id, q: Id) {
    p == Root || !Behind(items, q, p)
  }

  /** `w` is `t` after the deletion of `dead` with the items `ids` revived in this order. */
  ghost predicate Revived(t: Tree, w: Tree, dead: seq<Id>, ids: seq<Id>, site: string, clock: int) {
    && Grown(t, w, dead, Revive(t.items, ids, site, clock)) && Distinct(ids)
    && (forall k :: k in ids || k in dead ==> k in t.items)
  }

  /** A copy stands immediately behind the old parent of its original, as far as old items are concerned. */
  lemma CopyAgainstOld(t: Tree, w: Tree, dead: seq<Id>, ids: seq<Id>, site: string, clock: int, m: nat, y: Id)
    requires Revived(t, w, dead, ids, site, clock) && m < |ids| && y in t.items
    ensures var x, p := Atom(site, clock + 1 + m), ParentOf(t.items, ids[m]);
      && (p == Root || p in t.items)
      && (Before(w.items, x, y) <==> Behind(t.items, p, y)) && (Before(w.items, y, x) <==> !Behind(t.items, p, y))
  {
    hide GrownAt;
    assert ids[m] in ids;
    RootedParentsOf(t, ids[m]);
    GrownStep(t, w, dead, Revive(t.items, ids, site, clock), m, y);
    SameBehind(t.items, w.items, ParentOf(t.items, ids[m]), y);
  }

  /** Of two copies the later one comes first exactly if its parent stands at or before the other's. */
  lemma CopyAgainstCopy(t: Tree, w: Tree, dead: seq<Id>, ids: seq<Id>, site: string, clock: int, m: nat, n: nat)
    requires Revived(t, w, dead, ids, site, clock) && m < n < |ids|
    ensures var x, y := Atom(site, clock + 1 + n), Atom(site, clock + 1 + m);
      var first := AtOrBefore(t.items, ParentOf(t.items, ids[n]), ParentOf(t.items, ids[m]));
      (Before(w.items, x, y) <==> first) && (Before(w.items, y, x) <==> !first)
  {
    hide GrownAt;
    var r, y, p := Revive(t.items, ids, site, clock), Atom(site, clock + 1 + m), ParentOf(t.items, ids[n]);
    assert r[m].id == y;
    assert Earlier(t.items, r, n, y);
    GrownStep(t, w, dead, r, n, y);
    assert ids[n] in ids;
    RootedParentsOf(t, ids[n]);
    if p != Root { CopyAgainstOld(t, w, dead, ids, site, clock, m, p); }
  }

  // ----- when a revival is exact ------------------------------------------------------------------

  function IndexOf<T(==)>(s: seq<T>, x: T): (i: nat)
    requires x in s
    ensures i < |s| && s[i] == x
  {
    if s[0] == x then 0 else 1 + IndexOf(s[1..], x)
  }

  /** The copy of a revived item; other items stand for themselves. */
  function CopyOf(ids: seq<Id>, x: Id, site: string, clock: int): Id {
    if x in ids then Atom(site, clock + 1 + IndexOf(ids, x)) else x
  }

  /** The ids `v` with every revived one replaced by its copy. */
  function Copied(v: seq<Id>, ids: seq<Id>, site: string, clock: int): seq<Id> {
    seq(|v|, i requires 0 <= i < |v| => CopyOf(ids, v[i], site, clock))
  }

  /**
   The items `ids`, revived in this order, come back in their places among `v`: nothing
   that stayed stands between one of them and its parent, and of any two the one revived
   later stands first exactly if its parent stands at or before the other's.
   */
  ghost predicate Revivable(items: map<Id, Item>, v: seq<Id>, ids: seq<Id>) {
    Unblocked(items, v, ids) && AllInPlace(items, ids)
  }

  ghost predicate Unblocked(items: map<Id, Item>, v: seq<Id>, ids: seq<Id>) {
    forall i, j :: 0 <= i < j < |v| && v[j] in ids && v[i] !in ids ==> !Behind(items, ParentOf(items, v[j]), v[i])
  }

  ghost predicate AllInPlace(items: map<Id, Item>, ids: seq<Id>) {
    forall m, n :: 0 <= m < n < |ids| ==> InPlace(items, ids[m], ids[n])
  }

  ghost predicate InPlace(items: map<Id, Item>, x: Id, later: Id) {
    Before(items, later, x) <==> AtOrBefore(items, ParentOf(items, later), ParentOf(items, x))
  }

  /** `v` lists the revived items and those that stay, in document order. */
  ghost predicate Lines(t: Tree, dead: seq<Id>, ids: seq<Id>, v: seq<Id>) {
    && SortedBy(BeforeIn(t.items), v)
    && (forall x :: x in v <==> x in ids || (Alive(t.items, x) && x !in dead))
    && (forall x :: x in ids ==> !Alive(t.items, x) || x in dead)
  }

  lemma CopiedIsAlive(t: Tree, w: Tree, dead: seq<Id>, ids: seq<Id>, v: seq<Id>, site: string, clock: int, x: Id)
    requires Revived(t, w, dead, ids, site, clock) && Lines(t, dead, ids, v)
    ensures x in Copied(v, ids, site, clock) <==> Alive(w.items, x)
  {
    hide GrownAt, WellFormed, SortedBy;
    var r, c := Revive(t.items, ids, site, clock), Copied(v, ids, site, clock);
    GrownAlive(t, w, dead, r, x);
    ReviveIds(t.items, ids, site, clock);
    if i :| 0 <= i < |c| && c[i] == x {
      assert v[i] in v;
      if v[i] in ids { assert NewIds(site, clock, |ids|)[IndexOf(ids, v[i])] == x; }
    }
    if Alive(w.items, x) {
      if x in InsIds(r) {
        var m :| 0 <= m < |ids| && NewIds(site, clock, |ids|)[m] == x;
        assert ids[m] in ids && IndexOf(ids, ids[m]) == m;
        var i :| 0 <= i < |v| && v[i] == ids[m];
        assert c[i] == x;
      } else {
        var i :| 0 <= i < |v| && v[i] == x;
        assert c[i] == x;
      }
    }
  }

  /** Whether the pair at `i` and `j` of the listing with copies is in order. */
  ghost predicate PairInPlace(items: map<Id, Item>, ids: seq<Id>, v: seq<Id>, i: nat, j: nat)
    requires i < |v| && j < |v|
  {
    if v[i] in ids && v[j] in ids then
      (if IndexOf(ids, v[i]) < IndexOf(ids, v[j]) then InPlace(items, v[i], v[j]) else InPlace(items, v[j], v[i]))
    else v[j] in ids ==> !Behind(items, ParentOf(items, v[j]), v[i])
  }

  lemma TwoCopies(t: Tree, w: Tree, dead: seq<Id>, ids: seq<Id>, site: string, clock: int, a: Id, b: Id)
    requires Revived(t, w, dead, ids, site, clock) && a in ids && b in ids && Before(t.items, a, b)
    ensures Before(w.items, CopyOf(ids, a, site, clock), CopyOf(ids, b, site, clock)) <==>
      if IndexOf(ids, a) < IndexOf(ids, b) then InPlace(t.items, a, b) else InPlace(t.items, b, a)
  {
    hide Grown, ParentOf, AtOrBefore;
    BeforeIsAsymmetric(t.items, a, b);
    var m, n := IndexOf(ids, a), IndexOf(ids, b);
    assert m != n;
    if m < n {
      CopyAgainstCopy(t, w, dead, ids, site, clock, m, n);
    } else {
      CopyAgainstCopy(t, w, dead, ids, site, clock, n, m);
    }
  }

  lemma CopyInFront(t: Tree, w: Tree, dead: seq<Id>, ids: seq<Id>, site: string, clock: int, a: Id, b: Id)
    requires Revived(t, w, dead, ids, site, clock) && a in ids && b in t.items && Before(t.items, a, b)
    ensures Before(w.items, CopyOf(ids, a, site, clock), b)
  {
    hide GrownAt;
    CopyAgainstOld(t, w, dead, ids, site, clock, IndexOf(ids, a), b);
    if ParentOf(t.items, a) != Root {
      BeforeChild(t, a);
      BeforeIsTransitive(t.items, ParentOf(t.items, a), a, b);
    }
  }

  /** The pairs of the listing with copies, one by one. */
  lemma CopiedPair(t: Tree, w: Tree, dead: seq<Id>, ids: seq<Id>, v: seq<Id>, site: string, clock: int, i: nat, j: nat)
    requires Revived(t, w, dead, ids, site, clock) && Lines(t, dead, ids, v) && i < j < |v|
    ensures Before(w.items, CopyOf(ids, v[i], site, clock), CopyOf(ids, v[j], site, clock)) <==>
      PairInPlace(t.items, ids, v, i, j)
  {
    hide Grown, InPlace, ParentOf, Behind;
    var a, b := v[i], v[j];
    assert a in v && b in v && BeforeIn(t.items)(a, b);
    LinesAreKnown(t, w, dead, ids, v, site, clock, a);
    LinesAreKnown(t, w, dead, ids, v, site, clock, b);
    if a in ids && b in ids { TwoCopies(t, w, dead, ids, site, clock, a, b); }
    else if b in ids { CopyAgainstOld(t, w, dead, ids, site, clock, IndexOf(ids, b), a); }
    else if a in ids { CopyInFront(t, w, dead, ids, site, clock, a, b); }
    else { StayInOrder(t, w, dead, ids, site, clock, a, b); }
  }

  lemma LinesAreKnown(t: Tree, w: Tree, dead: seq<Id>, ids: seq<Id>, v: seq<Id>, site: string, clock: int, x: Id)
    requires Revived(t, w, dead, ids, site, clock) && Lines(t, dead, ids, v) && x in v
    ensures x in t.items
  {
  }

  lemma StayInOrder(t: Tree, w: Tree, dead: seq<Id>, ids: seq<Id>, site: string, clock: int, a: Id, b: Id)
    requires Revived(t, w, dead, ids, site, clock) && a in t.items && b in t.items
    ensures Before(w.items, a, b) <==> Before(t.items, a, b)
  {
    SameBefore(t.items, w.items, a, b);
  }

  /** A revival puts every item back in its place if and only if it is revivable. */
  lemma RevivalIsExactlyRevivable(t: Tree, w: Tree, dead: seq<Id>, ids: seq<Id>, v: seq<Id>, site: string, clock: int)
    requires Revived(t, w, dead, ids, site, clock) && Lines(t, dead, ids, v)
    ensures VisibleIds(w) == Copied(v, ids, site, clock) <==> Revivable(t.items, v, ids)
  {
    hide Grown, GrownAt, InPlace, ParentOf;
    var c := Copied(v, ids, site, clock);
    forall x ensures x in c <==> Alive(w.items, x) { CopiedIsAlive(t, w, dead, ids, v, site, clock, x); }
    RevivedIsWellFormed(t, w, dead, ids, site, clock);
    VisibleIdsAre(w, c);
    if SortedBy(BeforeIn(w.items), c) { SortedIsRevivable(t, w, dead, ids, v, site, clock); }
    if Revivable(t.items, v, ids) { RevivableIsSorted(t, w, dead, ids, v, site, clock); }
  }

  lemma RevivedIsWellFormed(t: Tree, w: Tree, dead: seq<Id>, ids: seq<Id>, site: string, clock: int)
    requires Revived(t, w, dead, ids, site, clock)
    ensures WellFormed(t) && WellFormed(w)
  {
  }

  lemma RevivableIsSorted(t: Tree, w: Tree, dead: seq<Id>, ids: seq<Id>, v: seq<Id>, site: string, clock: int)
    requires Revived(t, w, dead, ids, site, clock) && Lines(t, dead, ids, v) && Revivable(t.items, v, ids)
    ensures SortedBy(BeforeIn(w.items), Copied(v, ids, site, clock))
  {
    hide Revived, Lines, InPlace, ParentOf, Behind;
    var c := Copied(v, ids, site, clock);
    forall i, j | 0 <= i < j < |c| ensures BeforeIn(w.items)(c[i], c[j]) {
      CopiedPair(t, w, dead, ids, v, site, clock, i, j);
      DistinctLines(t, dead, ids, v, i, j);
    }
  }

  lemma DistinctLines(t: Tree, dead: seq<Id>, ids: seq<Id>, v: seq<Id>, i: nat, j: nat)
    requires Lines(t, dead, ids, v) && i < j < |v|
    ensures v[i] != v[j]
  {
    assert BeforeIn(t.items)(v[i], v[j]);
    BeforeIsAsymmetric(t.items, v[i], v[j]);
  }

  lemma SortedIsRevivable(t: Tree, w: Tree, dead: seq<Id>, ids: seq<Id>, v: seq<Id>, site: string, clock: int)
    requires Revived(t, w, dead, ids, site, clock) && Lines(t, dead, ids, v)
    requires SortedBy(BeforeIn(w.items), Copied(v, ids, site, clock))
    ensures Revivable(t.items, v, ids)
  {
    hide Revived, InPlace, ParentOf;
    var c := Copied(v, ids, site, clock);
    forall i, j | 0 <= i < j < |v| && v[j] in ids && v[i] !in ids
      ensures !Behind(t.items, ParentOf(t.items, v[j]), v[i])
    {
      assert BeforeIn(w.items)(c[i], c[j]);
      CopiedPair(t, w, dead, ids, v, site, clock, i, j);
    }
    forall m, n | 0 <= m < n < |ids| ensures InPlace(t.items, ids[m], ids[n]) {
      assert ids[m] in v && ids[n] in v;
      IndexOfAt(t, w, dead, ids, site, clock, m);
      IndexOfAt(t, w, dead, ids, site, clock, n);
      var i :| 0 <= i < |v| && v[i] == ids[m];
      var j :| 0 <= j < |v| && v[j] == ids[n];
      if i < j {
        assert BeforeIn(w.items)(c[i], c[j]);
        CopiedPair(t, w, dead, ids, v, site, clock, i, j);
      } else if j < i {
        assert BeforeIn(w.items)(c[j], c[i]);
        CopiedPair(t, w, dead, ids, v, site, clock, j, i);
      }
    }
  }

  lemma IndexOfAt(t: Tree, w: Tree, dead: seq<Id>, ids: seq<Id>, site: string, clock: int, m: nat)
    requires Revived(t, w, dead, ids, site, clock) && m < |ids|
    ensures IndexOf(ids, ids[m]) == m
    ensures forall n :: m < n < |ids| ==> ids[n] != ids[m]
  {
  }

  /** Copies show the letters of their originals. */
  lemma CopiedCarries(t: Tree, w: Tree, dead: seq<Id>, ids: seq<Id>, v: seq<Id>, site: string, clock: int, text: string)
    requires Revived(t, w, dead, ids, site, clock) && Carry(t.items, v, text)
    ensures Carry(w.items, Copied(v, ids, site, clock), text)
  {
    var r, c := Revive(t.items, ids, site, clock), Copied(v, ids, site, clock);
    forall i | 0 <= i < |c| ensures c[i] in w.items && w.items[c[i]].ch == [text[i]] {
      if v[i] in ids { assert GrownAt(t.items, w.items, dead, r, IndexOf(ids, v[i])); }
    }
  }

  /** A copy of an item that `v` does not list is visible all the same. */
  lemma StrayCopy(t: Tree, w: Tree, dead: seq<Id>, ids: seq<Id>, v: seq<Id>, site: string, clock: int, d: Id)
    requires Revived(t, w, dead, ids, site, clock) && d in ids && d !in v && forall k :: k in v ==> k in t.items
    ensures WellFormed(w) && CopyOf(ids, d, site, clock) in VisibleIds(w)
    ensures CopyOf(ids, d, site, clock) !in Copied(v, ids, site, clock)
  {
    hide GrownAt, WellFormed;
    var r, m, x := Revive(t.items, ids, site, clock), IndexOf(ids, d), CopyOf(ids, d, site, clock);
    assert InsIds(r)[m] == x;
    GrownAlive(t, w, dead, r, x);
    VisibleFacts(w);
    forall k | k in v ensures CopyOf(ids, k, site, clock) != x {
      assert k in ids && IndexOf(ids, k) == m ==> k == d;
    }
  }

  // ----- how much is visible -----------------------------------------------------------------------

  ghost function Shown(t: Tree): set<Id>
    requires WellFormed(t)
  {
    Elements(VisibleIds(t))
  }

  lemma ShownCount(t: Tree)
    requires WellFormed(t)
    ensures |Shown(t)| == |VisibleIds(t)| && forall x :: x in Shown(t) <==> Alive(t.items, x)
  {
    VisibleFacts(t);
    DistinctCardinality(VisibleIds(t));
  }

  /** Exchanging `gone` for as many new elements, where `extra` of `gone` had not been there. */
  lemma ExchangeCount<T>(v: set<T>, gone: set<T>, extra: set<T>)
    requires extra <= gone && extra !! v && gone <= v + extra
    ensures |v - gone| + |gone| == |v| + |extra|
  {
    assert v == (v - gone) + (gone * v);
    assert gone == (gone * v) + extra;
  }

  lemma RevivedShows(t: Tree, w: Tree, dead: seq<Id>, ids: seq<Id>, site: string, clock: int, x: Id)
    requires Revived(t, w, dead, ids, site, clock)
    ensures WellFormed(t) && WellFormed(w)
    ensures x in Shown(w) <==> x in Shown(t) - Elements(dead) || x in NewIds(site, clock, |ids|)
    ensures x in NewIds(site, clock, |ids|) ==> x !in Shown(t)
  {
    hide GrownAt;
    GrownAlive(t, w, dead, Revive(t.items, ids, site, clock), x);
    ReviveIds(t.items, ids, site, clock);
    VisibleFacts(t);
    VisibleFacts(w);
  }

  lemma UnionCount<T>(whole: set<T>, a: set<T>, b: set<T>)
    requires a !! b && forall x :: x in whole <==> x in a || x in b
    ensures |whole| == |a| + |b|
  {
    assert whole == a + b;
  }

  /** What stayed and one copy of each revived item. */
  lemma RevivalCount(t: Tree, w: Tree, dead: seq<Id>, ids: seq<Id>, site: string, clock: int)
    requires Revived(t, w, dead, ids, site, clock)
    ensures WellFormed(t) && WellFormed(w) && |VisibleIds(w)| == |Shown(t) - Elements(dead)| + |ids|
  {
    hide Revived, Shown, WellFormed;
    RevivedIsWellFormed(t, w, dead, ids, site, clock);
    ShownCount(w);
    var copies := NewIds(site, clock, |ids|);
    forall x ensures x in Shown(w) <==> x in Shown(t) - Elements(dead) || x in Elements(copies)
      ensures x in Elements(copies) ==> x !in Shown(t)
    {
      RevivedShows(t, w, dead, ids, site, clock, x);
    }
    UnionCount(Shown(w), Shown(t) - Elements(dead), Elements(copies));
    DistinctCardinality(copies);
  }
}
