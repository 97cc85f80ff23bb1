/**
 Delivery of one set of operations in any causal order, with repetitions
 (internal/crdt/op.go:68-104): same items, same child lists, same text.
 */
module Convergence {
  import opened Sequences
  import opened Ids
  import opened Rga
  import opened RgaEdits
  import opened Ops

  /** Every id is inserted with one payload only. */
  ghost predicate OnePayload(ops: set<Op>) {
    forall x, y :: x in ops && y in ops && x.Ins? && y.Ins? && x.id == y.id ==> x == y
  }

  function InsertedBy(ops: set<Op>): set<Id> {
    set x | x in ops && x.Ins? :: x.id
  }

  function DeletedBy(ops: set<Op>): set<Id> {
    set x | x in ops && x.Del? :: x.id
  }

  /** The ids whose deletion arrives when they are known; other deletions are dropped. */
  function Effective(known: set<Id>, ops: seq<Op>): set<Id>
    decreases |ops|
  {
    if ops == [] then {} else
      (if ops[0].Del? && ops[0].id in known then {ops[0].id} else {}) + Effective(Learn(known, ops[0]), ops[1..])
  }

  /** Deletions arrive after the insert they target. */
  predicate Causal(known: set<Id>, ops: seq<Op>)
    decreases |ops|
  {
    ops == [] || ((ops[0].Del? ==> ops[0].id in known) && Causal(Learn(known, ops[0]), ops[1..]))
  }

  lemma {:induction false} CausalDeletesTakeEffect(known: set<Id>, ops: seq<Op>)
    requires Causal(known, ops)
    ensures Effective(known, ops) == DeletedBy(Elements(ops))
    decreases |ops|
  {
    if ops != [] {
      ElementsCons(ops);
      CausalDeletesTakeEffect(Learn(known, ops[0]), ops[1..]);
    }
  }

  /** `item` is what `base` and `ops` make of `k` when the ids in `dead` die. */
  ghost predicate DeliveredItem(base: map<Id, Item>, ops: set<Op>, dead: set<Id>, k: Id, item: Item) {
    if k in base then item == base[k].(deleted := base[k].deleted || k in dead)
    else Ins(k, item.after, item.ch) in ops && item.id == k && (item.deleted <==> k in dead)
  }

  ghost predicate Delivered(base: map<Id, Item>, ops: set<Op>, dead: set<Id>, items: map<Id, Item>) {
    && items.Keys == base.Keys + InsertedBy(ops)
    && forall k :: k in items ==> DeliveredItem(base, ops, dead, k, items[k])
  }

  lemma InsertedPlus(op: Op, rest: set<Op>)
    ensures InsertedBy({op} + rest) == (if op.Ins? then {op.id} else {}) + InsertedBy(rest)
  {
    forall k | k in (if op.Ins? then {op.id} else {}) + InsertedBy(rest) ensures k in InsertedBy({op} + rest) {
      if op.Ins? && k == op.id {
        assert op in {op} + rest;
      } else {
        var x :| x in rest && x.Ins? && x.id == k;
        assert x in {op} + rest;
      }
    }
  }

  lemma {:induction false} EffectiveIsKnown(known: set<Id>, ops: seq<Op>)
    ensures Effective(known, ops) <= known + InsertedBy(Elements(ops))
    decreases |ops|
  {
    if ops != [] {
      ElementsCons(ops);
      InsertedPlus(ops[0], Elements(ops[1..]));
      EffectiveIsKnown(Learn(known, ops[0]), ops[1..]);
    }
  }

  /** One accepted operation, seen on the items alone. */
  ghost predicate Stepped(base: map<Id, Item>, op: Op, mid: map<Id, Item>) {
    match op
    case Ins(id, after, ch) => mid == if id in base then base else base[id := Item(id, after, ch, false)]
    case Del(id) => mid == if id in base then base[id := base[id].(deleted := true)] else base
    case Unknown(_) => false
  }

  lemma ApplySteps(t: Tree, op: Op)
    requires Linked(t) && JsApply(t, op).error.None?
    ensures Linked(JsApply(t, op).tree) && Stepped(t.items, op, JsApply(t, op).tree.items)
    ensures JsApply(t, op).tree.items.Keys == Learn(t.items.Keys, op)
  {
    if op.Ins? && op.id !in t.items { InsertKeepsLinks(t, op.id, op.after, op.ch); }
    if op.Del? && op.id in t.items && !t.items[op.id].deleted { TombstoneKeepsLinks(t, op.id); }
  }

  /** What an accepted delivery leaves depends only on the set of operations and the effective deletions. */
  lemma {:induction false} RunDelivers(t: Tree, ops: seq<Op>)
    requires Linked(t) && JsRun(t, ops).error.None?
    ensures Delivered(t.items, Elements(ops), Effective(t.items.Keys, ops), JsRun(t, ops).tree.items)
    decreases |ops|
  {
    if ops != [] {
      var u := JsApply(t, ops[0]).tree;
      ApplySteps(t, ops[0]);
      RunDelivers(u, ops[1..]);
      RunDeliversStep(t, ops, u);
    }
  }

  lemma RunDeliversStep(t: Tree, ops: seq<Op>, u: Tree)
    requires ops != [] && JsApply(t, ops[0]) == Outcome(u, JsApply(t, ops[0]).changed, None)
    requires Stepped(t.items, ops[0], u.items)
    requires u.items.Keys == Learn(t.items.Keys, ops[0])
    requires Delivered(u.items, Elements(ops[1..]), Effective(u.items.Keys, ops[1..]), JsRun(u, ops[1..]).tree.items)
    ensures Delivered(t.items, Elements(ops), Effective(t.items.Keys, ops), JsRun(t, ops).tree.items)
  {
    var rest := ops[1..];
    assert JsRun(t, ops).tree == JsRun(u, rest).tree;
    ElementsCons(ops);
    DeliveryComposes(t.items, u.items, ops[0], Elements(rest), Effective(u.items.Keys, rest),
      JsRun(u, rest).tree.items);
  }

  lemma DeliveryComposes(
      base: map<Id, Item>, mid: map<Id, Item>, op: Op, rest: set<Op>, dead: set<Id>, items: map<Id, Item>)
    requires Stepped(base, op, mid) && Delivered(mid, rest, dead, items)
    ensures Delivered(base, {op} + rest, (if op.Del? && op.id in base.Keys then {op.id} else {}) + dead, items)
  {
    InsertedPlus(op, rest);
    var dead' := (if op.Del? && op.id in base then {op.id} else {}) + dead;
    forall k | k in items ensures DeliveredItem(base, {op} + rest, dead', k, items[k]) {
      assert DeliveredItem(mid, rest, dead, k, items[k]);
    }
  }

  lemma DeliveredIsDetermined(base: map<Id, Item>, ops: set<Op>, dead: set<Id>, a: map<Id, Item>, b: map<Id, Item>)
    requires OnePayload(ops) && Delivered(base, ops, dead, a) && Delivered(base, ops, dead, b)
    ensures a == b
  {
    forall k | k in a ensures a[k] == b[k] {
      assert DeliveredItem(base, ops, dead, k, a[k]) && DeliveredItem(base, ops, dead, k, b[k]);
      if k !in base {
        assert Ins(k, a[k].after, a[k].ch) == Ins(k, b[k].after, b[k].ch);
      }
    }
  }

  /** Two accepted deliveries of one set of operations agree exactly when the same deletions take effect. */
  lemma DeliveriesAgreeExactlyOnEffect(t: Tree, a: seq<Op>, b: seq<Op>)
    requires WellFormed(t) && OnePayload(Elements(a)) && Elements(a) == Elements(b)
    requires JsRun(t, a).error.None? && JsRun(t, b).error.None?
    ensures JsRun(t, a).tree == JsRun(t, b).tree <==>
      Effective(t.items.Keys, a) - Dead(t) == Effective(t.items.Keys, b) - Dead(t)
  {
    RunDelivers(t, a);
    RunDelivers(t, b);
    JsRunStays(t, a);
    JsRunStays(t, b);
    var da, db := Effective(t.items.Keys, a), Effective(t.items.Keys, b);
    var x, y := JsRun(t, a).tree, JsRun(t, b).tree;
    EffectiveIsKnown(t.items.Keys, a);
    EffectiveIsKnown(t.items.Keys, b);
    if da - Dead(t) == db - Dead(t) {
      assert Delivered(t.items, Elements(b), da, y.items) by {
        forall k | k in t.items ensures t.items[k].deleted || (k in da <==> k in db) {
          assert k in da - Dead(t) <==> k in db - Dead(t);
        }
        forall k | k !in t.items ensures k in da <==> k in db {
          assert k in da - Dead(t) <==> k in db - Dead(t);
        }
      }
      DeliveredIsDetermined(t.items, Elements(a), da, x.items, y.items);
      LinksAreDetermined(x, y);
    }
    if x == y {
      forall k ensures k in da - Dead(t) <==> k in db - Dead(t) {
        assert k in da || k in db ==> k in x.items;
      }
    }
  }

  function Dead(t: Tree): set<Id> {
    set k | k in t.items && t.items[k].deleted
  }

  /** Any two causal deliveries of one set of operations end in one document, repetitions included. */
  lemma DeliveriesConverge(t: Tree, a: seq<Op>, b: seq<Op>)
    requires WellFormed(t) && OnePayload(Elements(a)) && Elements(a) == Elements(b)
    requires JsRun(t, a).error.None? && JsRun(t, b).error.None?
    requires Causal(t.items.Keys, a) && Causal(t.items.Keys, b)
    ensures JsRun(t, a).tree == JsRun(t, b).tree
  {
    CausalDeletesTakeEffect(t.items.Keys, a);
    CausalDeletesTakeEffect(t.items.Keys, b);
    DeliveriesAgreeExactlyOnEffect(t, a, b);
  }

  /** Convergence on the server: orders that respect parents and insert-before-delete succeed and agree. */
  lemma Converge(t: Tree, a: seq<Op>, b: seq<Op>)
    requires WellFormed(t) && OnePayload(Elements(a)) && Elements(a) == Elements(b)
    requires AllValid(a) && AllValid(b)
    requires Accepts(t.items.Keys, a) && Accepts(t.items.Keys, b)
    requires Causal(t.items.Keys, a) && Causal(t.items.Keys, b)
    ensures Run(t, a).error.None? && Run(t, b).error.None?
    ensures Run(t, a).tree == Run(t, b).tree
  {
    RunSucceedsExactlyWhenAccepted(t, a);
    RunSucceedsExactlyWhenAccepted(t, b);
    UncappedAgrees(t, a);
    UncappedAgrees(t, b);
    DeliveriesConverge(t, a, b);
  }

  /** Without causal delivery of deletions the same operations can leave different documents. */
  lemma EarlyDeletionIsLost(x: Id, ch: string) returns (a: seq<Op>, b: seq<Op>)
    requires ValidId(x) && SingleCodePoint(ch)
    ensures Elements(a) == Elements(b) && OnePayload(Elements(a))
    ensures Run(EMPTY, a).error.None? && Run(EMPTY, b).error.None?
    ensures Run(EMPTY, a).tree != Run(EMPTY, b).tree
  {
    var ins, del := Ins(x, Root, ch), Del(x);
    a, b := [ins, del], [del, ins];
    var t := Insert(EMPTY, x, Root, ch).tree;
    assert |EMPTY.items| == 0;
    assert Run(t, [del]) == Outcome(Tombstone(t, x), true, None) by { assert [del][1..] == []; }
    assert Run(EMPTY, [ins]) == Outcome(t, true, None) by { assert [ins][1..] == []; }
    assert a[1..] == [del] && b[1..] == [ins];
    assert Run(EMPTY, a).tree.items[x].deleted && !Run(EMPTY, b).tree.items[x].deleted;
  }

  // ----- replay ---------------------------------------------------------------

  /** Nothing in `op` is news to the document. */
  predicate Contained(t: Tree, op: Op) {
    match op
    case Ins(id, _, _) => id in t.items
    case Del(id) => id !in t.items || t.items[id].deleted
    case Unknown(_) => false
  }

  /** A batch reports no change exactly when the document contains it, and then it leaves the document alone. */
  lemma {:induction false} UnchangedExactlyWhenContained(t: Tree, ops: seq<Op>)
    requires Linked(t) && AllValid(ops) && Run(t, ops).error.None?
    ensures !Run(t, ops).changed <==> forall i :: 0 <= i < |ops| ==> Contained(t, ops[i])
    ensures !Run(t, ops).changed ==> Run(t, ops).tree == t
    decreases |ops|
  {
    if ops != [] {
      assert ValidateOp(ops[0]).None?;
      assert Apply(t, ops[0]).changed <==> !Contained(t, ops[0]);
      if !Apply(t, ops[0]).changed {
        UnchangedExactlyWhenContained(t, ops[1..]);
        assert forall i :: 0 < i < |ops| ==> ops[i] == ops[1..][i - 1];
      }
    }
  }

  /** Replaying anything out of a causal delivery changes nothing. */
  lemma ReplayIsIdle(t: Tree, ops: seq<Op>, again: seq<Op>)
    requires WellFormed(t) && AllValid(ops)
    requires Accepts(t.items.Keys, ops) && Causal(t.items.Keys, ops)
    requires Elements(again) <= Elements(ops)
    ensures var u := Run(t, ops).tree; Run(u, again) == Outcome(u, false, None)
  {
    RunSucceedsExactlyWhenAccepted(t, ops);
    UncappedAgrees(t, ops);
    RunDelivers(t, ops);
    CausalDeletesTakeEffect(t.items.Keys, ops);
    RunStays(t, ops);
    var u := Run(t, ops).tree;
    forall i | 0 <= i < |again| ensures ValidateOp(again[i]).None? && Contained(u, again[i]) {
      assert again[i] in Elements(again);
      var j :| 0 <= j < |ops| && ops[j] == again[i];
      assert ops[j] in Elements(ops);
    }
    ContainedIsAccepted(u, again);
    RunSucceedsExactlyWhenAccepted(u, again);
    UnchangedExactlyWhenContained(u, again);
  }

  lemma {:induction false} ContainedIsAccepted(t: Tree, ops: seq<Op>)
    requires forall i :: 0 <= i < |ops| ==> Contained(t, ops[i])
    ensures Accepts(t.items.Keys, ops)
    decreases |ops|
  {
    if ops != [] {
      assert Contained(t, ops[0]);
      assert Learn(t.items.Keys, ops[0]) == t.items.Keys;
      ContainedIsAccepted(t, ops[1..]);
    }
  }

  // ----- one total order for everybody -----------------------------------------

  /** Replicas that saw different parts of one set of operations agree on parents. */
  lemma ReplicasAgree(t: Tree, a: seq<Op>, b: seq<Op>)
    requires WellFormed(t) && OnePayload(Elements(a) + Elements(b))
    requires JsRun(t, a).error.None? && JsRun(t, b).error.None?
    ensures Agree(JsRun(t, a).tree.items, JsRun(t, b).tree.items)
  {
    RunDelivers(t, a);
    RunDelivers(t, b);
    var x, y := JsRun(t, a).tree.items, JsRun(t, b).tree.items;
    forall k | k in x && k in y ensures x[k].after == y[k].after {
      if k !in t.items {
        assert Ins(k, x[k].after, x[k].ch) == Ins(k, y[k].after, y[k].ch);
      }
    }
  }

  /** Strong list order: the replica with all operations fixes the order in which every other one lists its items. */
  lemma OneOrderForAll(t: Tree, all: seq<Op>, some: seq<Op>)
    requires WellFormed(t) && OnePayload(Elements(all)) && Elements(some) <= Elements(all)
    requires JsRun(t, all).error.None? && JsRun(t, some).error.None?
    ensures WellFormed(JsRun(t, all).tree) && WellFormed(JsRun(t, some).tree)
    ensures Order(JsRun(t, some).tree) == Filter(Order(JsRun(t, all).tree), JsRun(t, some).tree.items.Keys)
  {
    JsRunStays(t, all);
    JsRunStays(t, some);
    RunDelivers(t, all);
    RunDelivers(t, some);
    assert Elements(all) + Elements(some) == Elements(all);
    ReplicasAgree(t, some, all);
    OrderOfPart(JsRun(t, some).tree, JsRun(t, all).tree);
  }

  /** In particular a batch never reorders what is already there. */
  lemma BatchKeepsOrder(t: Tree, ops: seq<Op>, x: Id, y: Id)
    requires WellFormed(t) && JsRun(t, ops).error.None?
    requires x in t.items && y in t.items
    ensures WellFormed(JsRun(t, ops).tree)
    ensures Precedes(Order(JsRun(t, ops).tree), x, y) <==> Precedes(Order(t), x, y)
  {
    JsRunStays(t, ops);
    RunDelivers(t, ops);
    StrongListOrder(t, JsRun(t, ops).tree, x, y);
  }
}
