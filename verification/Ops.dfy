/** Operations and batches on the document value (internal/crdt/op.go, static/crdt.js:100-141). */
module Ops {
  import opened Ids
  import opened Rga
  import opened RgaEdits

  const MAX_OPS_PER_BATCH: nat := 4096
  const MAX_ITEMS: nat := 2_000_000

  datatype Op = Ins(id: Id, after: Id, ch: string) | Del(id: Id) | Unknown(id: Id)

  datatype Error = EmptyId | InvalidId | NotOneCodePoint | UnknownParent | DocumentTooLarge
                 | UnknownOp | EmptyBatch | TooManyOps | DuplicateId

  datatype Option<+T> = None | Some(value: T)

  /** A document after an operation, whether it changed, and the error if there was one. */
  datatype Outcome = Outcome(tree: Tree, changed: bool, error: Option<Error>)

  function Insert(t: Tree, id: Id, after: Id, ch: string): Outcome {
    if id == Root then Outcome(t, false, Some(EmptyId))
    else if !ValidId(id) then Outcome(t, false, Some(InvalidId))
    else if !SingleCodePoint(ch) then Outcome(t, false, Some(NotOneCodePoint))
    else if id in t.items then Outcome(t, false, None)
    else if after != Root && after !in t.items then Outcome(t, false, Some(UnknownParent))
    else Outcome(InsertItem(t, id, after, ch), true, None)
  }

  function Delete(t: Tree, id: Id): Outcome {
    if id !in t.items || t.items[id].deleted then Outcome(t, false, None)
    else Outcome(Tombstone(t, id), true, None)
  }

  function ValidateOp(op: Op): Option<Error> {
    match op
    case Ins(id, after, ch) =>
      if !ValidId(id) then Some(InvalidId)
      else if after != Root && !ValidId(after) then Some(InvalidId)
      else if !SingleCodePoint(ch) then Some(NotOneCodePoint)
      else None
    case Del(id) => if !ValidId(id) then Some(InvalidId) else None
    case Unknown(_) => Some(UnknownOp)
  }

  /** The server's `Apply`: validation and the size cap come before the change. */
  function Apply(t: Tree, op: Op): Outcome {
    if ValidateOp(op).Some? then Outcome(t, false, ValidateOp(op))
    else match op
      case Ins(id, after, ch) =>
        if |t.items| >= MAX_ITEMS && id !in t.items then Outcome(t, false, Some(DocumentTooLarge))
        else Insert(t, id, after, ch)
      case Del(id) => Delete(t, id)
      case Unknown(_) => Outcome(t, false, Some(UnknownOp))
  }

  /** Operations one after the other, stopping at the first error with what was done so far. */
  function Run(t: Tree, ops: seq<Op>): Outcome
    decreases |ops|
  {
    if ops == [] then Outcome(t, false, None)
    else
      var first := Apply(t, ops[0]);
      if first.error.Some? then first
      else
        var rest := Run(first.tree, ops[1..]);
        rest.(changed := first.changed || rest.changed)
  }

  predicate AllValid(ops: seq<Op>) {
    forall i :: 0 <= i < |ops| ==> ValidateOp(ops[i]).None?
  }

  /** The error of the first operation that is malformed. */
  function FirstInvalid(ops: seq<Op>): (e: Option<Error>)
    ensures e.None? <==> AllValid(ops)
  {
    if ops == [] then None
    else if ValidateOp(ops[0]).Some? then ValidateOp(ops[0])
    else
      var e := FirstInvalid(ops[1..]);
      assert e.None? ==> forall i :: 0 <= i < |ops| ==> i == 0 || ops[i] == ops[1..][i - 1];
      e
  }

  function ValidateBatch(ops: seq<Op>): Option<Error> {
    if ops == [] then Some(EmptyBatch)
    else if |ops| > MAX_OPS_PER_BATCH then Some(TooManyOps)
    else FirstInvalid(ops)
  }

  function ApplyBatch(t: Tree, ops: seq<Op>): Outcome {
    if ValidateBatch(ops).Some? then Outcome(t, false, ValidateBatch(ops)) else Run(t, ops)
  }

  /**
   The browser's `apply`: no validation pass, no size cap. Siblings are ordered by code
   points here; module `Browser` says what becomes of it under the browser's own order.
   */
  function JsApply(t: Tree, op: Op): Outcome {
    match op
    case Ins(id, after, ch) => Insert(t, id, after, ch)
    case Del(id) => if ValidId(id) then Delete(t, id) else Outcome(t, false, Some(InvalidId))
    case Unknown(_) => Outcome(t, false, Some(UnknownOp))
  }

  function JsRun(t: Tree, ops: seq<Op>): Outcome
    decreases |ops|
  {
    if ops == [] then Outcome(t, false, None)
    else
      var first := JsApply(t, ops[0]);
      if first.error.Some? then first
      else
        var rest := JsRun(first.tree, ops[1..]);
        rest.(changed := first.changed || rest.changed)
  }

  function JsApplyBatch(t: Tree, ops: seq<Op>): Outcome {
    if ops == [] then Outcome(t, false, Some(EmptyBatch)) else JsRun(t, ops)
  }

  // ----- invariants and acceptance -------------------------------------------

  lemma InsertStays(t: Tree, id: Id, after: Id, ch: string)
    requires WellFormed(t)
    ensures WellFormed(Insert(t, id, after, ch).tree)
  {
    if Insert(t, id, after, ch).changed { InsertKeepsTree(t, id, after, ch); }
  }

  lemma DeleteStays(t: Tree, id: Id)
    requires WellFormed(t)
    ensures WellFormed(Delete(t, id).tree)
  {
    if Delete(t, id).changed { TombstoneKeepsTree(t, id); }
  }

  lemma {:induction false} RunStays(t: Tree, ops: seq<Op>)
    requires WellFormed(t)
    ensures WellFormed(Run(t, ops).tree)
    decreases |ops|
  {
    if ops != [] {
      var op := ops[0];
      if op.Ins? { InsertStays(t, op.id, op.after, op.ch); }
      if op.Del? { DeleteStays(t, op.id); }
      if Apply(t, op).error.None? { RunStays(Apply(t, op).tree, ops[1..]); }
    }
  }

  lemma {:induction false} JsRunStays(t: Tree, ops: seq<Op>)
    requires WellFormed(t)
    ensures WellFormed(JsRun(t, ops).tree)
    decreases |ops|
  {
    if ops != [] {
      var op := ops[0];
      if op.Ins? { InsertStays(t, op.id, op.after, op.ch); }
      if op.Del? { DeleteStays(t, op.id); }
      if JsApply(t, op).error.None? { JsRunStays(JsApply(t, op).tree, ops[1..]); }
    }
  }

  /** The ids known once `op` was delivered. */
  function Learn(known: set<Id>, op: Op): set<Id> {
    if op.Ins? then known + {op.id} else known
  }

  /** What a batch needs: every insert is known already or has a known parent and room. */
  predicate Accepts(known: set<Id>, ops: seq<Op>)
    decreases |ops|
  {
    ops == [] ||
    ((ops[0].Ins? && ops[0].id !in known ==>
        (ops[0].after == Root || ops[0].after in known) && |known| < 2_000_000) &&
     Accepts(Learn(known, ops[0]), ops[1..]))
  }

  /** A well-formed batch fails exactly when some insert comes before its parent or finds the document full. */
  lemma {:induction false} RunSucceedsExactlyWhenAccepted(t: Tree, ops: seq<Op>)
    requires Linked(t) && AllValid(ops)
    ensures Run(t, ops).error.None? <==> Accepts(t.items.Keys, ops)
    decreases |ops|
  {
    if ops != [] {
      assert ValidateOp(ops[0]).None?;
      var first := Apply(t, ops[0]);
      assert |t.items| == |t.items.Keys|;
      if first.error.None? {
        if ops[0].Ins? && first.changed { InsertKeepsLinks(t, ops[0].id, ops[0].after, ops[0].ch); }
        if ops[0].Del? && first.changed { TombstoneKeepsLinks(t, ops[0].id); }
        assert first.tree.items.Keys == Learn(t.items.Keys, ops[0]);
        RunSucceedsExactlyWhenAccepted(first.tree, ops[1..]);
      }
    }
  }

  /** The browser has no size cap: only parents matter. */
  predicate JsAccepts(known: set<Id>, ops: seq<Op>)
    decreases |ops|
  {
    ops == [] ||
    ((ops[0].Ins? && ops[0].id !in known ==> ops[0].after == Root || ops[0].after in known) &&
     JsAccepts(Learn(known, ops[0]), ops[1..]))
  }

  lemma {:induction false} JsRunSucceedsExactlyWhenAccepted(t: Tree, ops: seq<Op>)
    requires Linked(t) && AllValid(ops)
    ensures JsRun(t, ops).error.None? <==> JsAccepts(t.items.Keys, ops)
    decreases |ops|
  {
    if ops != [] {
      assert ValidateOp(ops[0]).None?;
      var first := JsApply(t, ops[0]);
      if first.error.None? {
        if ops[0].Ins? && first.changed { InsertKeepsLinks(t, ops[0].id, ops[0].after, ops[0].ch); }
        if ops[0].Del? && first.changed { TombstoneKeepsLinks(t, ops[0].id); }
        assert first.tree.items.Keys == Learn(t.items.Keys, ops[0]);
        JsRunSucceedsExactlyWhenAccepted(first.tree, ops[1..]);
      }
    }
  }

  /** Whatever batch the server accepts, the uncapped run applies to the same document with the same result. */
  lemma {:induction false} UncappedAgrees(t: Tree, ops: seq<Op>)
    requires Run(t, ops).error.None?
    ensures JsRun(t, ops) == Run(t, ops)
    decreases |ops|
  {
    if ops != [] {
      assert Apply(t, ops[0]) == JsApply(t, ops[0]);
      UncappedAgrees(Apply(t, ops[0]).tree, ops[1..]);
    }
  }

  // ----- what the server's batch accepts ------------------------------------------------

  /** A site without a colon, and a positive clock. */
  predicate Readable(id: Id) {
    id.Atom? && |id.site| > 0 && (forall i :: 0 <= i < |id.site| ==> id.site[i] != ':') && id.clock >= 1
  }

  /** A readable id; for an insert, the head or a readable parent, and one code point. */
  predicate WellMade(op: Op) {
    !op.Unknown? && Readable(op.id) && (op.Ins? ==> (op.after == Root || Readable(op.after)) && |op.ch| == 1)
  }

  lemma WellMadeIsValid(op: Op)
    ensures ValidateOp(op).None? <==> WellMade(op)
    ensures !WellMade(op) ==> ValidateOp(op) == Some(
      if op.Unknown? then UnknownOp
      else if Readable(op.id) && op.Ins? && (op.after == Root || Readable(op.after)) then NotOneCodePoint
      else InvalidId)
  {
    ReadableIsValid(op.id);
    if op.Ins? { ReadableIsValid(op.after); }
  }

  /** An insert changes something exactly if its id is readable and new, its value one code point, its parent there. */
  lemma InsertedExactlyWhen(t: Tree, id: Id, after: Id, ch: string)
    ensures var out := Insert(t, id, after, ch);
      var error := if id == Root then EmptyId else if !Readable(id) then InvalidId
        else if |ch| != 1 then NotOneCodePoint else UnknownParent;
      && (out.error.None? <==> Readable(id) && |ch| == 1 && (id in t.items || after == Root || after in t.items))
      && (out.changed <==> out.error.None? && id !in t.items)
      && out.tree.items == (if out.changed then t.items[id := Item(id, after, ch, false)] else t.items)
      && (out.error.Some? ==> out.error.value == error)
  {
    ReadableIsValid(id);
  }

  lemma ReadableIsValid(id: Id)
    ensures Readable(id) <==> ValidId(id)
  {
    if id.Atom? { assert ':' in id.site <==> exists i :: 0 <= i < |id.site| && id.site[i] == ':'; }
  }

  /**
   The server's batch succeeds if and only if it has 1 to 4096 operations, each well made,
   and every insert finds its parent and room for itself; then it is the operations one
   after the other.
   */
  lemma BatchAcceptedExactlyWhen(t: Tree, ops: seq<Op>)
    requires Linked(t)
    ensures ApplyBatch(t, ops).error.None? <==>
      1 <= |ops| <= 4096 && (forall i :: 0 <= i < |ops| ==> WellMade(ops[i])) && Accepts(t.items.Keys, ops)
    ensures ApplyBatch(t, ops).error.None? ==> ApplyBatch(t, ops) == Run(t, ops)
  {
    forall i | 0 <= i < |ops| ensures ValidateOp(ops[i]).None? <==> WellMade(ops[i]) { WellMadeIsValid(ops[i]); }
    if AllValid(ops) { RunSucceedsExactlyWhenAccepted(t, ops); }
  }

  /** A batch of a wrong size, or with an operation that is not well made, changes nothing; the error says which. */
  lemma BatchRefusedUnread(t: Tree, ops: seq<Op>, n: nat)
    ensures ops == [] ==> ApplyBatch(t, ops) == Outcome(t, false, Some(EmptyBatch))
    ensures |ops| > 4096 ==> ApplyBatch(t, ops) == Outcome(t, false, Some(TooManyOps))
    ensures |ops| <= 4096 && n < |ops| && !WellMade(ops[n]) && (forall i :: 0 <= i < n ==> WellMade(ops[i])) ==>
      ApplyBatch(t, ops) == Outcome(t, false, Some(
        if ops[n].Unknown? then UnknownOp
        else if Readable(ops[n].id) && ops[n].Ins? && (ops[n].after == Root || Readable(ops[n].after))
        then NotOneCodePoint
        else InvalidId))
  {
    if 0 < |ops| <= 4096 && n < |ops| && !WellMade(ops[n]) && (forall i :: 0 <= i < n ==> WellMade(ops[i])) {
      FirstInvalidIs(ops, n);
      WellMadeIsValid(ops[n]);
    }
  }

  lemma {:induction false} FirstInvalidIs(ops: seq<Op>, n: nat)
    requires n < |ops| && !WellMade(ops[n]) && forall i :: 0 <= i < n ==> WellMade(ops[i])
    ensures FirstInvalid(ops) == ValidateOp(ops[n]) && FirstInvalid(ops).Some?
    decreases n
  {
    WellMadeIsValid(ops[0]);
    if n > 0 { FirstInvalidIs(ops[1..], n - 1); }
  }

  /**
   A well-made batch that fails has applied the operations before the first insert that
   finds no parent or no room, and nothing after it.
   */
  lemma {:induction false} BatchFailsAt(t: Tree, ops: seq<Op>) returns (n: nat)
    requires Linked(t) && |ops| <= 4096 && (forall i :: 0 <= i < |ops| ==> WellMade(ops[i]))
    requires ApplyBatch(t, ops).error.Some? && ops != []
    ensures n < |ops| && Accepts(t.items.Keys, ops[..n]) && !Accepts(t.items.Keys, ops[..n + 1])
    ensures var before := Run(t, ops[..n]).tree;
      && ops[n].Ins? && ApplyBatch(t, ops).tree == before && ops[n].id !in before.items
      && ApplyBatch(t, ops).error == Some(if |before.items| >= 2_000_000 then DocumentTooLarge else UnknownParent)
  {
    forall i | 0 <= i < |ops| ensures ValidateOp(ops[i]).None? { WellMadeIsValid(ops[i]); }
    n := RunFailsAt(t, ops);
    RunSucceedsExactlyWhenAccepted(t, ops[..n]);
    RunSucceedsExactlyWhenAccepted(t, ops[..n + 1]);
  }

  lemma {:induction false} RunFailsAt(t: Tree, ops: seq<Op>) returns (n: nat)
    requires AllValid(ops) && Run(t, ops).error.Some?
    ensures n < |ops| && Run(t, ops[..n]).error.None? && Run(t, ops[..n + 1]).error.Some?
    ensures var before := Run(t, ops[..n]).tree;
      && ops[n].Ins? && Run(t, ops).tree == before && ops[n].id !in before.items
      && Run(t, ops).error == Some(if |before.items| >= 2_000_000 then DocumentTooLarge else UnknownParent)
    decreases |ops|
  {
    var first := Apply(t, ops[0]);
    assert ValidateOp(ops[0]).None?;
    if first.error.Some? {
      n := 0;
      assert ops[..1] == [ops[0]];
    } else {
      forall i | 0 <= i < |ops[1..]| ensures ValidateOp(ops[1..][i]).None? { assert ops[1..][i] == ops[i + 1]; }
      var m := RunFailsAt(first.tree, ops[1..]);
      n := m + 1;
      assert ops[..n][1..] == ops[1..][..m] && ops[..n + 1][1..] == ops[1..][..m + 1];
    }
  }

  // ----- what the browser's batch accepts -----------------------------------------------

  /** The browser does not read the parent of an insert: it only looks it up. */
  predicate JsWellMade(op: Op) {
    !op.Unknown? && Readable(op.id) && (op.Ins? ==> |op.ch| == 1)
  }

  /**
   The browser's batch succeeds if and only if it is not empty, every operation has a
   readable id and at most a code point, and every insert finds its parent; what is not
   well made is found out only when its turn comes.
   */
  lemma JsBatchAcceptedExactlyWhen(t: Tree, ops: seq<Op>)
    requires Linked(t)
    ensures JsApplyBatch(t, ops).error.None? <==>
      ops != [] && (forall i :: 0 <= i < |ops| ==> JsWellMade(ops[i])) && JsAccepts(t.items.Keys, ops)
    ensures ops != [] ==> JsApplyBatch(t, ops) == JsRun(t, ops)
  {
    JsRunAcceptedExactlyWhen(t, ops);
  }

  lemma {:induction false} JsRunAcceptedExactlyWhen(t: Tree, ops: seq<Op>)
    requires Linked(t)
    ensures JsRun(t, ops).error.None? <==>
      (forall i :: 0 <= i < |ops| ==> JsWellMade(ops[i])) && JsAccepts(t.items.Keys, ops)
    decreases |ops|
  {
    if ops != [] {
      var op, first := ops[0], JsApply(t, ops[0]);
      ReadableIsValid(op.id);
      assert forall i :: 0 <= i < |ops| ==> i == 0 || ops[i] == ops[1..][i - 1];
      if first.error.None? {
        if op.Ins? && first.changed { InsertKeepsLinks(t, op.id, op.after, op.ch); }
        if op.Del? && first.changed { TombstoneKeepsLinks(t, op.id); }
        assert first.tree.items.Keys == Learn(t.items.Keys, op);
        JsRunAcceptedExactlyWhen(first.tree, ops[1..]);
        assert forall i :: 0 <= i < |ops[1..]| ==> ops[1..][i] == ops[i + 1];
      }
    }
  }
}
