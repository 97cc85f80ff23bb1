/**
 The editing state of a browser tab (static/app.js:942-1048, 2371-2382, 2772-2793):
 document, Lamport clock, unsent operations and the undo and redo stacks.
 */
module Editors {
  import opened Sequences
  import opened Ids
  import opened Rga
  import opened Ops
  import opened Views
  import opened Growth
  import opened Edits
  import opened Undo
  import opened Entries
  import opened Bursts
  import opened SingleEdits
  import opened Stacks
  import opened Later
  import opened Docs

  const MAX_UNDO_DEPTH: nat := 100
  const UNDO_COALESCE_MS: int := 800

  datatype Entry = Entry(ops: seq<Op>, at: int)

  /** The undo stack after a new batch: merged into a recent entry or pushed, oldest dropped. */
  function Pushed(stack: seq<Entry>, ops: seq<Op>, now: int): seq<Entry> {
    if ops == [] then stack
    else if Merges(stack, now) then stack[|stack| - 1 := Entry(stack[|stack| - 1].ops + ops, now)]
    else Stacked(stack, Entry(ops, now))
  }

  predicate Merges(stack: seq<Entry>, now: int) {
    stack != [] && now - stack[|stack| - 1].at <= UNDO_COALESCE_MS
  }

  function Stacked(stack: seq<Entry>, entry: Entry): seq<Entry> {
    var longer := stack + [entry];
    if |longer| > MAX_UNDO_DEPTH then longer[1..] else longer
  }

  /**
   A batch within 800 ms of the newest entry joins it and dates it anew; any other becomes
   an entry of its own, for which the oldest of 100 makes place. An empty one leaves the stack.
   */
  lemma PushedExactly(stack: seq<Entry>, ops: seq<Op>, now: int)
    requires |stack| <= 100
    ensures |Pushed(stack, ops, now)| <= 100
    ensures var n := |stack|;
      Pushed(stack, ops, now) ==
        if ops == [] then stack
        else if n > 0 && now - stack[n - 1].at <= 800 then stack[..n - 1] + [Entry(stack[n - 1].ops + ops, now)]
        else (if n == 100 then stack[1..] else stack) + [Entry(ops, now)]
  {
    if |stack| == 100 { assert (stack + [Entry(ops, now)])[1..] == stack[1..] + [Entry(ops, now)]; }
  }

  /** Every readable id of the batch lies within the clock. */
  ghost predicate OpsUpTo(ops: seq<Op>, c: int) {
    forall k :: 0 <= k < |ops| && ValidId(ops[k].id) ==> ops[k].id.clock <= c
  }

  /** An operation of the batch has just this clock. */
  ghost predicate ClockedBy(ops: seq<Op>, c: int) {
    exists k :: 0 <= k < |ops| && ValidId(ops[k].id) && ops[k].id.clock == c
  }

  /** Every readable id the batch inserts lies within the clock. */
  ghost predicate FreshUpTo(ops: seq<Op>, c: int) {
    forall k :: 0 <= k < |ops| && ops[k].Ins? && ValidId(ops[k].id) ==> ops[k].id.clock <= c
  }

  class Editor {
    const site: string
    var doc: Doc
    var localClock: int
    var pendingOps: seq<Op>
    var undoStack: seq<Entry>
    var redoStack: seq<Entry>

    ghost predicate Sound()
      reads this, doc
    {
      ValidSite(site) && WellFormed(doc.State()) && 0 <= localClock
    }

    /** The clock covers the document: whatever is typed next outranks what is there. */
    ghost predicate Valid()
      reads this, doc
    {
      Sound() && ClocksUpTo(doc.items, localClock)
    }

    /** The document has been through every entry on either stack, whatever happened since. */
    ghost predicate Ready()
      reads this, doc
    {
      AllHappened(doc.items, undoStack) && AllHappened(doc.items, redoStack)
    }

    constructor (site: string)
      requires ValidSite(site)
      ensures Valid() && Ready() && fresh(doc) && doc.State() == EMPTY
    {
      this.site := site;
      doc := new Doc();
      localClock, pendingOps, undoStack, redoStack := 0, [], [], [];
    }

    method BumpClockFromDoc()
      requires Sound()
      modifies this`localClock
      ensures Valid() && localClock >= old(localClock)
      ensures ClocksUpTo(doc.items, old(localClock)) ==> localClock == old(localClock)
      ensures localClock > old(localClock) ==> exists k :: k in doc.items && k.Atom? && k.clock == localClock
    {
      var max := doc.MaxClock();
      if max > localClock { localClock := max; }
    }

    method PushUndoEntry(ops: seq<Op>, now: int)
      modifies this`undoStack, this`redoStack
      ensures undoStack == Pushed(old(undoStack), ops, now)
      ensures redoStack == if ops == [] then old(redoStack) else []
    {
      if ops == [] { return; }
      if |undoStack| > 0 && now - undoStack[|undoStack| - 1].at <= UNDO_COALESCE_MS {
        var last := undoStack[|undoStack| - 1];
        undoStack := undoStack[|undoStack| - 1 := Entry(last.ops + ops, now)];
      } else {
        undoStack := undoStack + [Entry(ops, now)];
        if |undoStack| > MAX_UNDO_DEPTH { undoStack := undoStack[1..]; }
      }
      redoStack := [];
    }

    /** Adopts a new text as local operations; the document then shows exactly that text. */
    method ApplyLocalText(newText: string, now: int)
      requires Valid()
      modifies this, doc
      ensures Valid() && doc == old(doc) && Text(doc.State()) == newText
      ensures old(Text(doc.State())) == newText ==>
        doc.State() == old(doc.State()) && pendingOps == old(pendingOps) && undoStack == old(undoStack) &&
        redoStack == old(redoStack) && localClock == old(localClock)
      ensures old(Text(doc.State())) != newText ==>
        var d := LocalDiff(old(doc.State()), newText, site, old(localClock));
        d.ops != [] && doc.State() == JsRun(old(doc.State()), d.ops).tree && localClock == d.clock &&
        pendingOps == old(pendingOps) + d.ops && undoStack == Pushed(old(undoStack), d.ops, now) && redoStack == []
      ensures old(Ready()) ==> Ready()
    {
      hide JsRun, SpliceOps, EditSpan, Happened, Pushed;
      ghost var t := doc.State();
      var oldText := doc.Materialize();
      var oldIds := doc.VisibleIDs();
      if oldText == newText { return; }
      BumpClockFromDoc();
      VisibleFacts(t);
      var diff := ComputeDiff(oldText, oldIds, newText, site, localClock);
      DiffReaches(t, oldText, oldIds, newText, site, localClock);
      DiffIsSplice(oldText, oldIds, newText, site, localClock);
      if diff.ops == [] { return; }
      localClock := diff.clock;
      var changed, error := doc.JsApplyBatch(diff.ops);
      if error.Some? { return; }
      pendingOps := pendingOps + diff.ops;
      PushUndoEntry(diff.ops, now);
      if old(Ready()) { DiffHappens(t, newText, site, old(localClock), old(undoStack), now); }
    }

    /** A batch of another author. If it does not fit, a snapshot is requested and the clock stays. */
    method ApplyRemoteOps(ops: seq<Op>) returns (ok: bool)
      requires Valid()
      modifies this`localClock, doc
      ensures Sound() && (ok ==> Valid()) && doc == old(doc)
      ensures ok <==> ops == [] || JsRun(old(doc.State()), ops).error.None?
      ensures doc.State() == if ops == [] then old(doc.State()) else JsRun(old(doc.State()), ops).tree
      ensures ok ==> OpsUpTo(ops, localClock)
      ensures localClock >= old(localClock) && (!ok ==> localClock == old(localClock))
      ensures localClock > old(localClock) ==> ClockedBy(ops, localClock)
      ensures old(Ready()) ==> Ready()
    {
      hide JsRun, Happened;
      if ops == [] { return true; }
      ghost var t := doc.State();
      JsRunStays(t, ops);
      if Ready() {
        StackStays(t, ops, undoStack);
        StackStays(t, ops, redoStack);
      }
      var changed, error := doc.JsApplyBatch(ops);
      if error.Some? { return false; }
      RaisedClocks(t, ops, localClock);
      BumpClockFromOps(ops);
      return true;
    }

    /** Builds the inverse of a batch, last operation first, drawing fresh clocks for the revivals. */
    method InverseOf(ops: seq<Op>) returns (inverse: seq<Op>)
      modifies this`localClock
      ensures Inverse(inverse, localClock) == InverseOps(doc.items, ops, site, old(localClock))
    {
      inverse := [];
      var i := |ops| - 1;
      assert ops[..|ops|] == ops;
      while i >= 0
        invariant -1 <= i < |ops|
        invariant var rest := InverseOps(doc.items, ops[..i + 1], site, localClock);
          InverseOps(doc.items, ops, site, old(localClock)) == Inverse(inverse + rest.ops, rest.clock)
      {
        var op := ops[i];
        assert ops[..i + 1][..i] == ops[..i];
        match op {
          case Ins(id, _, _) =>
            inverse := inverse + [Del(id)];
          case Del(id) =>
            if id in doc.items {
              var item := doc.items[id];
              localClock := localClock + 1;
              inverse := inverse + [Ins(Atom(site, localClock), item.after, item.ch)];
            }
          case Unknown(_) =>
        }
        i := i - 1;
      }
    }

    method BumpClockFromOps(ops: seq<Op>)
      modifies this`localClock
      ensures localClock >= old(localClock) && OpsUpTo(ops, localClock)
      ensures OpsUpTo(ops, old(localClock)) ==> localClock == old(localClock)
      ensures localClock > old(localClock) ==> ClockedBy(ops, localClock)
    {
      for n := 0 to |ops|
        invariant localClock >= old(localClock) && OpsUpTo(ops[..n], localClock)
        invariant OpsUpTo(ops, old(localClock)) ==> localClock == old(localClock)
        invariant localClock > old(localClock) ==> ClockedBy(ops, localClock)
      {
        assert ops[..n + 1] == ops[..n] + [ops[n]];
        if ValidId(ops[n].id) && ops[n].id.clock > localClock { localClock := ops[n].id.clock; }
      }
      assert ops[..|ops|] == ops;
    }

    /** Applies a ready-made batch and queues it; on failure nothing is queued. */
    method ApplyOpsLocal(ops: seq<Op>) returns (ok: bool)
      requires Valid()
      modifies this`localClock, this`pendingOps, doc
      ensures Sound() && (ok || FreshUpTo(ops, old(localClock)) ==> Valid())
      ensures ok <==> ops == [] || JsRun(old(doc.State()), ops).error.None?
      ensures doc.State() == if ops == [] then old(doc.State()) else JsRun(old(doc.State()), ops).tree
      ensures pendingOps == if ok then old(pendingOps) + ops else old(pendingOps)
      ensures ok ==> OpsUpTo(ops, localClock)
      ensures localClock >= old(localClock)
      ensures !ok || OpsUpTo(ops, old(localClock)) ==> localClock == old(localClock)
    {
      if ops == [] { return true; }
      BumpClockFromDoc();
      ghost var t := doc.State();
      JsRunStays(t, ops);
      var changed, error := doc.JsApplyBatch(ops);
      if FreshUpTo(ops, localClock) { RunClocks(t, ops, localClock); }
      if error.Some? { return false; }
      RaisedClocks(t, ops, localClock);
      BumpClockFromOps(ops);
      pendingOps := pendingOps + ops;
      return true;
    }

    /** Takes back the last entry; its inverse goes to the redo stack. */
    method UndoLast(now: int)
      requires Valid()
      modifies this, doc
      ensures Valid() && doc == old(doc)
      ensures old(undoStack) == [] ==>
        doc.State() == old(doc.State()) && pendingOps == old(pendingOps) && undoStack == [] &&
        redoStack == old(redoStack) && localClock == old(localClock)
      ensures old(undoStack) != [] ==>
        var n := |old(undoStack)| - 1;
        var entry := old(undoStack)[n];
        var inv := InverseOps(old(doc.items), entry.ops, site, old(localClock));
        var run := JsRun(old(doc.State()), inv.ops);
        localClock >= inv.clock && (OpsUpTo(entry.ops, inv.clock) ==> localClock == inv.clock) &&
        doc.State() == (if inv.ops == [] then old(doc.State()) else run.tree) &&
        if inv.ops == [] then
          undoStack == old(undoStack)[..n] && redoStack == old(redoStack) && pendingOps == old(pendingOps)
        else if run.error.Some? then
          undoStack == old(undoStack) && redoStack == old(redoStack) && pendingOps == old(pendingOps)
        else
          undoStack == old(undoStack)[..n] && redoStack == old(redoStack) + [Entry(inv.ops, now)] &&
          pendingOps == old(pendingOps) + inv.ops
      ensures old(Ready()) ==> Ready()
      ensures old(Ready()) && old(undoStack) != [] ==>
        var n := |old(undoStack)| - 1;
        var ops := old(undoStack)[n].ops;
        var inv := InverseOps(old(doc.items), ops, site, old(localClock));
        && doc.State() == Undone(old(doc.State()), ops, site, old(localClock)) && localClock == inv.clock
        && ReturnsExactly(old(doc.State()), doc.State(), ops, site, old(localClock))
        && inv.ops != [] && JsRun(old(doc.State()), inv.ops).error.None?
    {
      hide JsRun, InverseOps, OpsUpTo, FreshUpTo, Undone, Happened, ReturnsExactly;
      if |undoStack| == 0 { return; }
      var entry := undoStack[|undoStack| - 1];
      undoStack := undoStack[..|undoStack| - 1];
      if old(Ready()) { UndoKeepsReady(doc.State(), entry.ops, undoStack, redoStack, site, localClock, now); }
      InverseClocks(doc.items, entry.ops, site, localClock);
      var ops := InverseOf(entry.ops);
      if ops == [] { return; }
      var ok := ApplyOpsLocal(ops);
      if !ok {
        undoStack := undoStack + [entry];
        return;
      }
      redoStack := redoStack + [Entry(ops, now)];
    }

    /** Redo: the inverse of the undo batch, back on the undo stack. */
    method RedoLast(now: int)
      requires Valid()
      modifies this, doc
      ensures Valid() && doc == old(doc)
      ensures old(redoStack) == [] ==>
        doc.State() == old(doc.State()) && pendingOps == old(pendingOps) && undoStack == old(undoStack) &&
        redoStack == [] && localClock == old(localClock)
      ensures old(redoStack) != [] ==>
        var n := |old(redoStack)| - 1;
        var entry := old(redoStack)[n];
        var inv := InverseOps(old(doc.items), entry.ops, site, old(localClock));
        var run := JsRun(old(doc.State()), inv.ops);
        localClock >= inv.clock && (OpsUpTo(entry.ops, inv.clock) ==> localClock == inv.clock) &&
        doc.State() == (if inv.ops == [] then old(doc.State()) else run.tree) &&
        if inv.ops == [] then
          undoStack == old(undoStack) && redoStack == old(redoStack)[..n] && pendingOps == old(pendingOps)
        else if run.error.Some? then
          undoStack == old(undoStack) && redoStack == old(redoStack) && pendingOps == old(pendingOps)
        else
          undoStack == old(undoStack) + [Entry(inv.ops, now)] && redoStack == old(redoStack)[..n] &&
          pendingOps == old(pendingOps) + inv.ops
      ensures old(Ready()) ==> Ready()
      ensures old(Ready()) && old(redoStack) != [] ==>
        var n := |old(redoStack)| - 1;
        var ops := old(redoStack)[n].ops;
        var inv := InverseOps(old(doc.items), ops, site, old(localClock));
        && doc.State() == Undone(old(doc.State()), ops, site, old(localClock)) && localClock == inv.clock
        && ReturnsExactly(old(doc.State()), doc.State(), ops, site, old(localClock))
        && inv.ops != [] && JsRun(old(doc.State()), inv.ops).error.None?
    {
      hide JsRun, InverseOps, OpsUpTo, FreshUpTo, Undone, Happened, ReturnsExactly;
      if |redoStack| == 0 { return; }
      var entry := redoStack[|redoStack| - 1];
      redoStack := redoStack[..|redoStack| - 1];
      if old(Ready()) { UndoKeepsReady(doc.State(), entry.ops, redoStack, undoStack, site, localClock, now); }
      InverseClocks(doc.items, entry.ops, site, localClock);
      var ops := InverseOf(entry.ops);
      if ops == [] { return; }
      var ok := ApplyOpsLocal(ops);
      if !ok {
        redoStack := redoStack + [entry];
        return;
      }
      undoStack := undoStack + [Entry(ops, now)];
    }

    /**
     A whole session: the texts are typed fast enough to become one entry, which is then
     undone and redone. What each step shows is exactly what the burst theorems say.
     */
    method TypeUndoRedo(texts: seq<string>, times: seq<int>, undoAt: int, redoAt: int)
      returns (typed: string, undone: string, redone: string)
      requires Valid() && texts != [] && OneBurst(Text(doc.State()), texts, times) && !Merges(undoStack, times[0])
      modifies this, doc
      ensures Valid() && doc == old(doc)
      ensures var t, c := old(doc.State()), old(localClock);
        var b := Typing(t, texts, site, c);
        var undoes := TakenBack(b.ops) == {} && Revivable(t.items, VisibleIds(t), Reverse(Deleted(b.ops)));
        var redoes := TakenBack(b.ops) == {} && AllInPlace(b.tree.items, InsertedIds(b.ops));
        && typed == texts[|texts| - 1] && doc.State() == RedoneBurst(t, texts, site, c)
        && (undoes ==> undone == Text(t)) && (Distinct(Text(t)) ==> (undone == Text(t) <==> undoes))
        && (redoes ==> redone == typed) && (Distinct(typed) ==> (redone == typed <==> redoes))
        && |undone| == |Text(t)| + |TakenBack(b.ops)| && |redone| == |typed| + |TakenBack(b.ops)|
      ensures |texts| == 1 ==> redone == typed
    {
      hide Told, Typing, JsRun, InverseOps, Revivable, AllInPlace, Undone, LocalDiff, OpsUpTo, Distinct, UndoneBurst,
        RedoneBurst, UndoneClock, TakenBack, Deleted, Inserted, Text, VisibleIds, InsertedIds, Merges;
      ghost var t, c := doc.State(), localClock;
      TypeAll(texts, times);
      ghost var b := Typing(t, texts, site, c);
      typed := doc.Materialize();
      BurstIsUndoable(t, texts, site, c);
      UndoLast(undoAt);
      undone := doc.Materialize();
      BurstIsRedoable(t, texts, site, c);
      RedoLast(redoAt);
      redone := doc.Materialize();
      BurstUndoesExactlyWhen(t, texts, site, c);
      BurstRedoesExactlyWhen(t, texts, site, c);
      if |texts| == 1 { OneTextRedoes(t, texts, site, c); }
    }

    /** Takes back the last `k` entries, one after the other. */
    method UndoMany(k: nat, now: int)
      requires Valid() && Ready() && k <= |undoStack|
      modifies this, doc
      ensures Valid() && Ready() && doc == old(doc)
      ensures var n := |old(undoStack)| - k;
        var r := UndoneAll(old(doc.State()), OpsOf(old(undoStack)[n..]), site, old(localClock));
        && doc.State() == r.tree && localClock == r.clock && pendingOps == old(pendingOps) + Flat(r.batches)
        && undoStack == old(undoStack)[..n] && OpsOf(redoStack) == OpsOf(old(redoStack)) + r.batches
    {
      hide UndoneAll, Undone, InverseOps, JsRun, OpsUpTo, AllHappened, ReturnsExactly, Flat, OpsOf, Linked, Rooted,
        ClocksUpTo;
      ghost var todo := OpsOf(undoStack[|undoStack| - k..]);
      ghost var start := Stage(doc.State(), [], localClock);
      ghost var done: seq<seq<Op>> := [];
      NothingDone(start.tree, todo, site, start.clock, pendingOps, OpsOf(redoStack), undoStack);
      for i := 0 to k
        invariant Valid() && Ready() && doc == old(doc)
        invariant undoStack == old(undoStack)[..|old(undoStack)| - i]
        invariant SoFar(start, todo, Stage(doc.State(), done, localClock), k - i, site)
        invariant pendingOps == old(pendingOps) + Flat(done)
        invariant OpsOf(redoStack) == OpsOf(old(redoStack)) + done
      {
        ghost var t, c, ops := doc.State(), localClock, undoStack[|undoStack| - 1].ops;
        ghost var batch := InverseOps(doc.items, ops, site, localClock).ops;
        EntryAt(old(undoStack), k, i);
        OneMore(start, todo, Stage(t, done, c), k - i, site);
        OpsOfSnoc(redoStack, Entry(batch, now));
        FlatSnoc(done, batch);
        UndoLast(now);
        done := done + [batch];
      }
      AllDone(start, todo, Stage(doc.State(), done, localClock), site);
    }

    /** Takes back the last `k` entries, one after the other. */
    method RedoMany(k: nat, now: int)
      requires Valid() && Ready() && k <= |redoStack|
      modifies this, doc
      ensures Valid() && Ready() && doc == old(doc)
      ensures var n := |old(redoStack)| - k;
        var r := UndoneAll(old(doc.State()), OpsOf(old(redoStack)[n..]), site, old(localClock));
        && doc.State() == r.tree && localClock == r.clock && pendingOps == old(pendingOps) + Flat(r.batches)
        && redoStack == old(redoStack)[..n] && OpsOf(undoStack) == OpsOf(old(undoStack)) + r.batches
    {
      hide UndoneAll, Undone, InverseOps, JsRun, OpsUpTo, AllHappened, ReturnsExactly, Flat, OpsOf, Linked, Rooted,
        ClocksUpTo;
      ghost var todo := OpsOf(redoStack[|redoStack| - k..]);
      ghost var start := Stage(doc.State(), [], localClock);
      ghost var done: seq<seq<Op>> := [];
      NothingDone(start.tree, todo, site, start.clock, pendingOps, OpsOf(undoStack), redoStack);
      for i := 0 to k
        invariant Valid() && Ready() && doc == old(doc)
        invariant redoStack == old(redoStack)[..|old(redoStack)| - i]
        invariant SoFar(start, todo, Stage(doc.State(), done, localClock), k - i, site)
        invariant pendingOps == old(pendingOps) + Flat(done)
        invariant OpsOf(undoStack) == OpsOf(old(undoStack)) + done
      {
        ghost var t, c, ops := doc.State(), localClock, redoStack[|redoStack| - 1].ops;
        ghost var batch := InverseOps(doc.items, ops, site, localClock).ops;
        EntryAt(old(redoStack), k, i);
        OneMore(start, todo, Stage(t, done, c), k - i, site);
        OpsOfSnoc(undoStack, Entry(batch, now));
        FlatSnoc(done, batch);
        RedoLast(now);
        done := done + [batch];
      }
      AllDone(start, todo, Stage(doc.State(), done, localClock), site);
    }

    /** Texts typed in quick succession become one entry of the undo stack. */
    method TypeAll(texts: seq<string>, times: seq<int>)
      requires Valid() && texts != [] && OneBurst(Text(doc.State()), texts, times) && !Merges(undoStack, times[0])
      modifies this, doc
      ensures Valid() && doc == old(doc)
      ensures var b := Typing(old(doc.State()), texts, site, old(localClock));
        && doc.State() == b.tree && localClock == b.clock && Text(b.tree) == texts[|texts| - 1] && b.ops != []
        && undoStack == Stacked(old(undoStack), Entry(b.ops, times[|texts| - 1])) && redoStack == []
        && pendingOps == old(pendingOps) + b.ops
      ensures old(Ready()) ==> Ready()
    {
      hide AllHappened, Along, Typing, JsRun, LocalDiff, Pushed, Text, Linked, Rooted, ClocksUpTo;
      ghost var start, c := Now(), localClock;
      TypingStarts(start, site);
      for i := 0 to |texts|
        invariant Valid() && doc == old(doc)
        invariant Along(start, Now(), Typing(start.tree, texts[..i], site, c), Prior(times, i),
          LastText(Text(start.tree), texts[..i]))
        invariant i > 0 ==> Typing(start.tree, texts[..i], site, c).ops != []
        invariant old(Ready()) ==> Ready()
      {
        ghost var v, b := Now(), Typing(start.tree, texts[..i], site, c);
        TypingGoesOn(start.tree, texts, i, site, c);
        AlongIs(start, v, b, Prior(times, i), LastText(Text(start.tree), texts[..i]));
        ApplyLocalText(texts[i], times[i]);
        ghost var text := LastText(Text(start.tree), texts[..i]);
        AlongNext(start, v, Now(), b, Prior(times, i), times[i], text, texts[i], site);
      }
      assert texts[..|texts|] == texts;
      AlongIs(start, Now(), Typing(start.tree, texts, site, c), times[|texts| - 1], texts[|texts| - 1]);
    }

    /** Bursts with pauses between them: an entry for each, in order, on top of the stack. */
    method TypeSessions(sessions: seq<seq<string>>, times: seq<seq<int>>)
      requires Valid() && Ready() && sessions != [] && |sessions| <= MAX_UNDO_DEPTH
      requires Paced(Text(doc.State()), sessions, times) && !Merges(undoStack, times[0][0])
      modifies this, doc
      ensures Valid() && Ready() && doc == old(doc) && redoStack == [] && |undoStack| >= |sessions|
      ensures var s := Sessions(old(doc.State()), sessions, site, old(localClock));
        && doc.State() == s.tree && localClock == s.clock && OpsOf(undoStack[|undoStack| - |sessions|..]) == s.batches
        && Text(s.tree) == LastText(old(Text(doc.State())), Join(sessions))
    {
      hide Typing, Sessions, Join, OpsOf, Text, Stacked, Merges, OneBurst, LastText, AllHappened, Linked, Rooted,
        ClocksUpTo;
      ghost var t, c, a := doc.State(), localClock, Text(doc.State());
      NoSessions(t, a, site, c);
      for i := 0 to |sessions|
        invariant Valid() && Ready() && doc == old(doc)
        invariant var s := Sessions(t, sessions[..i], site, c);
          doc.State() == s.tree && localClock == s.clock && Text(s.tree) == LastText(a, Join(sessions[..i]))
        invariant i <= |undoStack|
        invariant OnTop(undoStack, i, Sessions(t, sessions[..i], site, c).batches)
        invariant i == 0 ==> undoStack == old(undoStack)
        invariant i > 0 ==> redoStack == [] && undoStack != [] && |times[i - 1]| > 0
        invariant i > 0 ==> undoStack[|undoStack| - 1].at == times[i - 1][|times[i - 1]| - 1]
      {
        ghost var before, s := undoStack, Sessions(t, sessions[..i], site, c);
        ghost var b := Typing(s.tree, sessions[i], site, s.clock);
        SessionNext(t, a, sessions, times, i, site, c, undoStack);
        TypeAll(sessions[i], times[i]);
        StackedOnTop(before, Entry(b.ops, times[i][|times[i]| - 1]), i, s.batches);
      }
      assert sessions[..|sessions|] == sessions;
    }

    /**
     Several entries are typed, then all undone, then all redone. What is shown after the
     undos and after the redos is what the same texts typed as one entry would show.
     */
    method TypeUndoRedoAll(sessions: seq<seq<string>>, times: seq<seq<int>>, undoAt: int, redoAt: int)
      returns (typed: string, undone: string, redone: string)
      requires Valid() && Ready() && sessions != [] && |sessions| <= MAX_UNDO_DEPTH
      requires Paced(Text(doc.State()), sessions, times) && !Merges(undoStack, times[0][0])
      modifies this, doc
      ensures Valid() && Ready() && doc == old(doc)
      ensures var t, c, texts := old(doc.State()), old(localClock), Join(sessions);
        var b := Typing(t, texts, site, c);
        var undoes := TakenBack(b.ops) == {} && Revivable(t.items, VisibleIds(t), Reverse(Deleted(b.ops)));
        var redoes := TakenBack(b.ops) == {} && AllInPlace(b.tree.items, InsertedIds(b.ops));
        && typed == LastText(Text(t), texts) && doc.State() == RedoneBurst(t, texts, site, c)
        && (undoes ==> undone == Text(t)) && (Distinct(Text(t)) ==> (undone == Text(t) <==> undoes))
        && (redoes ==> redone == typed) && (Distinct(typed) ==> (redone == typed <==> redoes))
        && |undone| == |Text(t)| + |TakenBack(b.ops)| && |redone| == |typed| + |TakenBack(b.ops)|
    {
      hide Told, Typing, Sessions, UndoneAll, Join, OpsOf, Revivable, AllInPlace, Distinct, UndoneBurst, RedoneBurst,
        UndoneClock, TakenBack, Deleted, Inserted, Text, VisibleIds, InsertedIds, Merges, AllHappened, Flat, LastText;
      ghost var t, c, texts := doc.State(), localClock, Join(sessions);
      TypeSessions(sessions, times);
      ghost var s := Sessions(t, sessions, site, c);
      SessionsAreOneBurst(t, sessions, site, c);
      SessionsUndoAndRedo(t, sessions, site, c);
      typed := doc.Materialize();
      UndoMany(|sessions|, undoAt);
      ghost var r := UndoneAll(s.tree, s.batches, site, s.clock);
      undone := doc.Materialize();
      AllOnStack(redoStack, r.batches);
      RedoMany(|redoStack|, redoAt);
      redone := doc.Materialize();
      BurstUndoesExactlyWhen(t, texts, site, c);
      BurstRedoesExactlyWhen(t, texts, site, c);
    }

    ghost function Now(): Snapshot
      reads this, doc
    {
      Snapshot(doc.State(), localClock, pendingOps, undoStack, redoStack)
    }
  }

  datatype Snapshot = Snapshot(tree: Tree, clock: int, pending: seq<Op>, undo: seq<Entry>, redo: seq<Entry>)

  /** From `start`, one entry `b` has been typed so far, last at `at`; the document shows `text`. */
  ghost predicate Along(start: Snapshot, v: Snapshot, b: Burst, at: int, text: string) {
    && WellFormed(b.tree) && v.tree == b.tree && v.clock == b.clock && Text(b.tree) == text
    && v.pending == start.pending + b.ops
    && if b.ops == [] then v.undo == start.undo else v.undo == Stacked(start.undo, Entry(b.ops, at)) && v.redo == []
  }

  lemma AlongIs(start: Snapshot, v: Snapshot, b: Burst, at: int, text: string)
    requires Along(start, v, b, at, text)
    ensures WellFormed(b.tree) && v.tree == b.tree && v.clock == b.clock && Text(b.tree) == text
    ensures v.pending == start.pending + b.ops
    ensures b.ops != [] ==> v.undo == Stacked(start.undo, Entry(b.ops, at)) && v.redo == []
  {
  }

  lemma AlongNext(start: Snapshot, v: Snapshot, v': Snapshot, b: Burst, at: int, now: int, text: string,
                  newText: string, site: string)
    requires Along(start, v, b, at, text)
    requires if b.ops == [] then !Merges(start.undo, now) else now - at <= UNDO_COALESCE_MS
    requires WellFormed(v'.tree) && Text(v'.tree) == newText
    requires var d := LocalDiff(v.tree, newText, site, v.clock);
      d.ops != [] && v' == Snapshot(JsRun(v.tree, d.ops).tree, d.clock, v.pending + d.ops,
        Pushed(v.undo, d.ops, now), [])
    ensures var b' := Adopted(b, newText, site); b'.ops != [] && Along(start, v', b', now, newText)
  {
    hide LocalDiff, JsRun, Text, Merges, Stacked, Pushed;
    var d := LocalDiff(v.tree, newText, site, v.clock);
    NextEntry(start.undo, b.ops, d.ops, at, now);
    assert (start.pending + b.ops) + d.ops == start.pending + (b.ops + d.ops);
  }

  function Prior(times: seq<int>, i: nat): int
    requires i <= |times|
  {
    if i == 0 then 0 else times[i - 1]
  }

  /** Each text differs from the one before it and follows it within the coalescing window. */
  predicate OneBurst(start: string, texts: seq<string>, times: seq<int>) {
    && |times| == |texts|
    && forall i :: 0 <= i < |texts| ==>
      texts[i] != LastText(start, texts[..i]) && (i > 0 ==> times[i] - times[i - 1] <= UNDO_COALESCE_MS)
  }

  /** A first batch opens an entry, a quick further one extends it. */
  lemma NextEntry(stack: seq<Entry>, ops: seq<Op>, more: seq<Op>, at: int, now: int)
    requires more != []
    ensures ops == [] && !Merges(stack, now) ==> Pushed(stack, more, now) == Stacked(stack, Entry(ops + more, now))
    ensures now - at <= UNDO_COALESCE_MS ==>
      Pushed(Stacked(stack, Entry(ops, at)), more, now) == Stacked(stack, Entry(ops + more, now))
  {
    if ops == [] { assert ops + more == more; }
  }

  lemma TypingStarts(start: Snapshot, site: string)
    requires WellFormed(start.tree)
    ensures Typing(start.tree, [], site, start.clock) == Burst(start.tree, [], start.clock)
    ensures Along(start, start, Burst(start.tree, [], start.clock), 0, Text(start.tree))
  {
  }

  lemma TypingGoesOn(t: Tree, texts: seq<string>, i: nat, site: string, c: int)
    requires WellFormed(t) && i < |texts|
    ensures Typing(t, texts[..i + 1], site, c) == Adopted(Typing(t, texts[..i], site, c), texts[i], site)
    ensures i == 0 ==> Typing(t, texts[..i], site, c).ops == []
  {
    hide Adopted;
    assert texts[..i + 1][..i] == texts[..i];
  }

  // ----- the stacks ----------------------------------------------------------------------------

  ghost predicate AllHappened(items: map<Id, Item>, stack: seq<Entry>) {
    forall i :: 0 <= i < |stack| ==> stack[i].ops != [] && Happened(items, stack[i].ops)
  }

  lemma StackStays(t: Tree, more: seq<Op>, stack: seq<Entry>)
    requires AllHappened(t.items, stack)
    ensures AllHappened(JsRun(t, more).tree.items, stack)
  {
    hide Happened, JsRun;
    forall i | 0 <= i < |stack| ensures Happened(JsRun(t, more).tree.items, stack[i].ops) {
      HappenedStays(t, stack[i].ops, more);
    }
  }

  /** A diff goes onto the stack, merged or not. */
  lemma DiffHappens(t: Tree, newText: string, site: string, c: int, stack: seq<Entry>, now: int)
    requires WellFormed(t) && ValidSite(site) && ClocksUpTo(t.items, c) && AllHappened(t.items, stack)
    ensures var d := LocalDiff(t, newText, site, c);
      AllHappened(JsRun(t, d.ops).tree.items, Pushed(stack, d.ops, now))
  {
    hide Happened, JsRun, Told, LocalDiff;
    var d := LocalDiff(t, newText, site, c);
    var u := JsRun(t, d.ops).tree;
    NothingIsTold(t);
    AdoptedIsTold(t, Burst(t, [], c), newText, site);
    assert [] + d.ops == d.ops;
    ToldHappened(t, u, d.ops);
    StackStays(t, d.ops, stack);
    if Merges(stack, now) { HappenedThen(t, u, stack[|stack| - 1].ops, d.ops); }
  }

  lemma KnownUpTo(items: map<Id, Item>, ops: seq<Op>, c: int)
    requires Known(items, ops) && ClocksUpTo(items, c)
    ensures OpsUpTo(ops, c)
  {
    forall k | 0 <= k < |ops| && ValidId(ops[k].id) ensures ops[k].id.clock <= c {
      if ops[k].Ins? { InsertedHolds(ops, k); }
    }
  }

  /** Undo of an entry that has happened succeeds, and leaves every other entry, and its own undo batch, ready. */
  lemma UndoKeepsReady(t: Tree, ops: seq<Op>, rest: seq<Entry>, other: seq<Entry>, site: string, c: int, now: int)
    requires WellFormed(t) && ValidSite(site) && ClocksUpTo(t.items, c) && ops != [] && Happened(t.items, ops)
    requires AllHappened(t.items, rest) && AllHappened(t.items, other)
    ensures var inv, w := InverseOps(t.items, ops, site, c), Undone(t, ops, site, c);
      && inv.ops != [] && JsRun(t, inv.ops).error.None? && w == JsRun(t, inv.ops).tree && OpsUpTo(ops, inv.clock)
      && AllHappened(w.items, rest) && AllHappened(w.items, other + [Entry(inv.ops, now)])
      && ReturnsExactly(t, w, ops, site, c)
  {
    hide Known, JsRun, InverseOps, OpsUpTo, ReturnsExactly, ClocksUpTo, Linked, Rooted;
    var inv := InverseOps(t.items, ops, site, c);
    UndoneKnown(t, ops, site, c);
    InverseHappened(t, ops, site, c);
    StackStays(t, inv.ops, rest);
    StackStays(t, inv.ops, other);
    KnownUpTo(t.items, ops, c);
    OpsUpToMore(ops, c, inv.clock);
    UndoLaterExactlyWhen(t, ops, site, c);
  }

  // ----- several entries -------------------------------------------------------------------------

  function OpsOf(stack: seq<Entry>): (r: seq<seq<Op>>)
    ensures |r| == |stack| && forall i :: 0 <= i < |stack| ==> r[i] == stack[i].ops
  {
    seq(|stack|, i requires 0 <= i < |stack| => stack[i].ops)
  }

  /** Of the entries `todo` undone from `start`, the first `left` are still to do at `now`. */
  ghost predicate SoFar(start: Stage, todo: seq<seq<Op>>, now: Stage, left: nat, site: string) {
    && WellFormed(start.tree) && WellFormed(now.tree) && left <= |todo|
    && var rest := UndoneAll(now.tree, todo[..left], site, now.clock);
      UndoneAll(start.tree, todo, site, start.clock) == rest.(batches := now.batches + rest.batches)
  }

  lemma NothingDone(t: Tree, todo: seq<seq<Op>>, site: string, c: int, pending: seq<Op>, other: seq<seq<Op>>,
                    stack: seq<Entry>)
    requires WellFormed(t)
    ensures SoFar(Stage(t, [], c), todo, Stage(t, [], c), |todo|, site)
    ensures pending == pending + Flat([]) && other == other + [] && stack[..|stack|] == stack
  {
    assert todo[..|todo|] == todo;
    var r := UndoneAll(t, todo, site, c);
    assert [] + r.batches == r.batches;
  }

  lemma EntryAt(stack: seq<Entry>, k: nat, i: nat)
    requires i < k <= |stack|
    ensures var todo, n := OpsOf(stack[|stack| - k..]), |stack| - i;
      && |todo| == k && todo[k - i - 1] == stack[..n][n - 1].ops && stack[..n][..n - 1] == stack[..n - 1]
  {
  }

  lemma OneMore(start: Stage, todo: seq<seq<Op>>, now: Stage, left: nat, site: string)
    requires SoFar(start, todo, now, left, site) && left > 0
    ensures var inv := InverseOps(now.tree.items, todo[left - 1], site, now.clock);
      var next := Stage(Undone(now.tree, todo[left - 1], site, now.clock), now.batches + [inv.ops], inv.clock);
      SoFar(start, todo, next, left - 1, site)
  {
    hide Undone, InverseOps, WellFormed;
    var inv := InverseOps(now.tree.items, todo[left - 1], site, now.clock);
    assert todo[..left][..left - 1] == todo[..left - 1];
    var rest := UndoneAll(Undone(now.tree, todo[left - 1], site, now.clock), todo[..left - 1], site, inv.clock);
    assert now.batches + ([inv.ops] + rest.batches) == (now.batches + [inv.ops]) + rest.batches;
  }

  lemma AllDone(start: Stage, todo: seq<seq<Op>>, now: Stage, site: string)
    requires SoFar(start, todo, now, 0, site)
    ensures now == UndoneAll(start.tree, todo, site, start.clock)
  {
    assert now.batches + [] == now.batches;
  }

  lemma OpsOfSnoc(stack: seq<Entry>, entry: Entry)
    ensures OpsOf(stack + [entry]) == OpsOf(stack) + [entry.ops]
  {
  }

  lemma FlatSnoc(entries: seq<seq<Op>>, ops: seq<Op>)
    ensures Flat(entries + [ops]) == Flat(entries) + ops
  {
    assert (entries + [ops])[..|entries|] == entries;
  }

  /** Each burst follows the last text of the one before it, after a pause that opens a new entry. */
  predicate Paced(start: string, sessions: seq<seq<string>>, times: seq<seq<int>>) {
    && |times| == |sessions|
    && forall i :: 0 <= i < |sessions| ==>
      && sessions[i] != [] && OneBurst(LastText(start, Join(sessions[..i])), sessions[i], times[i])
      && (i > 0 ==> |times[i - 1]| > 0 && times[i][0] - times[i - 1][|times[i - 1]| - 1] > UNDO_COALESCE_MS)
  }

  /** The last `n` entries of the stack. */
  ghost predicate OnTop(stack: seq<Entry>, n: nat, batches: seq<seq<Op>>)
    requires n <= |stack|
  {
    OpsOf(stack[|stack| - n..]) == batches
  }

  lemma NoSessions(t: Tree, a: string, site: string, c: int)
    requires WellFormed(t)
    ensures Sessions(t, [], site, c) == Stage(t, [], c) && Join([]) == [] && LastText(a, []) == a
    ensures forall stack: seq<Entry> :: OnTop(stack, 0, [])
  {
  }

  lemma SessionNext(t: Tree, a: string, sessions: seq<seq<string>>, times: seq<seq<int>>, i: nat, site: string, c: int,
                    stack: seq<Entry>)
    requires WellFormed(t) && Paced(a, sessions, times) && i < |sessions|
    requires if i == 0 then !Merges(stack, times[0][0])
      else stack != [] && stack[|stack| - 1].at == times[i - 1][|times[i - 1]| - 1]
    ensures sessions[i] != [] && OneBurst(LastText(a, Join(sessions[..i])), sessions[i], times[i])
    ensures |times[i]| == |sessions[i]|
    ensures !Merges(stack, times[i][0])
    ensures var before := Sessions(t, sessions[..i], site, c);
      var b := Typing(before.tree, sessions[i], site, before.clock);
      Sessions(t, sessions[..i + 1], site, c) == Stage(b.tree, before.batches + [b.ops], b.clock)
    ensures LastText(a, Join(sessions[..i + 1])) == sessions[i][|sessions[i]| - 1]
  {
    hide Typing;
    assert sessions[..i + 1][..i] == sessions[..i];
    assert Join(sessions[..i + 1]) == Join(sessions[..i]) + sessions[i];
  }

  lemma StackedOnTop(stack: seq<Entry>, entry: Entry, n: nat, batches: seq<seq<Op>>)
    requires n <= |stack| && n < MAX_UNDO_DEPTH && OnTop(stack, n, batches)
    ensures n + 1 <= |Stacked(stack, entry)| && OnTop(Stacked(stack, entry), n + 1, batches + [entry.ops])
    ensures Stacked(stack, entry) != [] && Stacked(stack, entry)[|Stacked(stack, entry)| - 1] == entry
  {
    var s := Stacked(stack, entry);
    assert s[|s| - (n + 1)..] == stack[|stack| - n..] + [entry];
    OpsOfSnoc(stack[|stack| - n..], entry);
  }

  lemma AllOnStack(stack: seq<Entry>, batches: seq<seq<Op>>)
    requires OpsOf(stack) == OpsOf([]) + batches
    ensures |stack| == |batches| && OpsOf(stack[|stack| - |stack|..]) == batches
  {
    assert stack[0..] == stack;
  }

  // ----- clocks ------------------------------------------------------------------------------

  lemma {:induction false} RunClocks(t: Tree, ops: seq<Op>, c: int)
    requires WellFormed(t) && ClocksUpTo(t.items, c) && FreshUpTo(ops, c)
    ensures ClocksUpTo(JsRun(t, ops).tree.items, c)
    decreases |ops|
  {
    hide WellFormed, JsApply;
    if ops != [] {
      var out := JsApply(t, ops[0]);
      StepClocks(t, ops[0], c);
      if out.error.None? {
        forall k | 0 <= k < |ops[1..]| ensures ops[1..][k] == ops[k + 1] {}
        RunClocks(out.tree, ops[1..], c);
      }
    }
  }

  lemma StepClocks(t: Tree, op: Op, c: int)
    requires WellFormed(t) && ClocksUpTo(t.items, c) && (op.Ins? && ValidId(op.id) ==> op.id.clock <= c)
    ensures WellFormed(JsApply(t, op).tree) && ClocksUpTo(JsApply(t, op).tree.items, c)
  {
    if op.Ins? { InsertStays(t, op.id, op.after, op.ch); }
    if op.Del? { DeleteStays(t, op.id); }
    forall k | k in JsApply(t, op).tree.items && k.Atom? ensures k.clock <= c {
      assert k in t.items || (k == op.id && op.Ins? && ValidId(k));
    }
  }

  lemma RaisedClocks(t: Tree, ops: seq<Op>, c: int)
    requires WellFormed(t) && ClocksUpTo(t.items, c)
    ensures forall c2 :: c2 >= c && OpsUpTo(ops, c2) ==> ClocksUpTo(JsRun(t, ops).tree.items, c2)
  {
    forall c2 | c2 >= c && OpsUpTo(ops, c2) ensures ClocksUpTo(JsRun(t, ops).tree.items, c2) { RunClocks(t, ops, c2); }
  }

  /** The inverse draws its ids one after the other from the clock, which never falls. */
  lemma {:induction false} InverseClocks(items: map<Id, Item>, ops: seq<Op>, site: string, clock: int)
    ensures var inv := InverseOps(items, ops, site, clock);
      && inv.clock >= clock && FreshUpTo(inv.ops, inv.clock)
      && forall c :: c >= inv.clock && OpsUpTo(ops, c) ==> OpsUpTo(inv.ops, c)
    decreases |ops|
  {
    if ops != [] {
      var last, init := ops[|ops| - 1], ops[..|ops| - 1];
      InverseClocks(items, init, site, if last.Del? && last.id in items then clock + 1 else clock);
      var inv := InverseOps(items, ops, site, clock);
      forall c | c >= inv.clock && OpsUpTo(ops, c) ensures OpsUpTo(inv.ops, c) {
        assert OpsUpTo(init, c);
        assert ops[|ops| - 1] == last;
      }
    }
  }

  // ----- the session -----------------------------------------------------------------------

  lemma {:induction false} InsertedHolds(ops: seq<Op>, i: nat)
    requires i < |ops| && ops[i].Ins?
    ensures ops[i].id in InsertedIds(ops)
    decreases |ops|
  {
    hide Inserted, Deleted;
    var n := |ops| - 1;
    var init := ops[..n];
    SplitLast(ops);
    assert ops[n].Ins? ==> InsertedIds(ops) == InsertedIds(init) + [ops[n].id];
    if i < n { InsertedHolds(init, i); }
  }

  lemma BurstIsUndoable(t: Tree, texts: seq<string>, site: string, c: int)
    requires WellFormed(t) && ValidSite(site) && ClocksUpTo(t.items, c)
    ensures var b := Typing(t, texts, site, c);
      var inv := InverseOps(b.tree.items, b.ops, site, b.clock);
      && |inv.ops| == |b.ops| && OpsUpTo(b.ops, inv.clock) && JsRun(b.tree, inv.ops).error.None?
      && JsRun(b.tree, inv.ops).tree == UndoneBurst(t, texts, site, c) && inv.clock == UndoneClock(t, texts, site, c)
  {
    hide Told, JsRun, OpsUpTo;
    var b := Typing(t, texts, site, c);
    BurstClocks(t, texts, site, c);
    ToldIsInvertible(t, b.tree, b.ops);
    ToldIsKnown(t, b.tree, b.ops);
    KnownUpTo(b.tree.items, b.ops, b.clock);
    InverseRuns(b.tree, b.ops, site, b.clock);
    InverseSplits(b.tree.items, b.ops, site, b.clock);
    OpsUpToMore(b.ops, b.clock, InverseOps(b.tree.items, b.ops, site, b.clock).clock);
  }

  lemma OpsUpToMore(ops: seq<Op>, c: int, c2: int)
    requires OpsUpTo(ops, c) && c <= c2
    ensures OpsUpTo(ops, c2)
  {
  }

  lemma BurstIsRedoable(t: Tree, texts: seq<string>, site: string, c: int)
    requires WellFormed(t) && ValidSite(site) && ClocksUpTo(t.items, c)
    ensures var b, w, c2 := Typing(t, texts, site, c), UndoneBurst(t, texts, site, c), UndoneClock(t, texts, site, c);
      var inv := InverseOps(b.tree.items, b.ops, site, b.clock);
      var again := InverseOps(w.items, inv.ops, site, c2);
      && |again.ops| == |inv.ops| && JsRun(w, again.ops).error.None?
      && JsRun(w, again.ops).tree == RedoneBurst(t, texts, site, c)
  {
    hide Told, JsRun;
    var b, w, c2 := Typing(t, texts, site, c), UndoneBurst(t, texts, site, c), UndoneClock(t, texts, site, c);
    BurstClocks(t, texts, site, c);
    RedoneIsRevived(t, b.tree, b.ops, site, b.clock, c2);
  }

  lemma OneTextRedoes(t: Tree, texts: seq<string>, site: string, c: int)
    requires WellFormed(t) && ValidSite(site) && ClocksUpTo(t.items, c) && |texts| == 1
    ensures Text(RedoneBurst(t, texts, site, c)) == texts[0]
  {
    hide RedoneBurst, UndoneBurst, StretchRevivable;
    assert texts == [texts[0]];
    EditUndoRedo(t, texts[0], site, c);
  }
}
