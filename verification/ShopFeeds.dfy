/**
 The store as its subscribers see it, one key at a time: every critical section of
 the store (internal/store/store.go) is a step that the delivery protocol allows the
 room, so that `Protocol`'s results hold of a room kept by `Shops`.
 */
module ShopFeeds {
  import opened Rga
  import opened Ops
  import opened Rooms
  import opened Shops
  import opened ShopLaws
  import opened ShopOutcomes
  import P = Protocol

  function StampsOf(log: Log, key: string): set<P.Stamp> {
    set st | st in log && st.key == key :: P.Stamp(st.generation, st.version)
  }

  /** What was ever published under `key`. */
  function KeyLog(log: Log, key: string): map<P.Stamp, Tree> {
    map at | at in StampsOf(log, key) && RoomStamp(key, at.generation, at.version) in log ::
      log[RoomStamp(key, at.generation, at.version)]
  }

  function KeyRoom(s: Shop, key: string): Option<P.Stamp> {
    if key in s.rooms then Some(P.Stamp(s.rooms[key].meta.generation, s.rooms[key].meta.version)) else None
  }

  /** `w` is the world of `key`: the room as it is and every document it ever had. */
  ghost predicate Sees(w: P.World, log: Log, s: Shop, key: string) {
    w.log == KeyLog(log, key) && w.room == KeyRoom(s, key)
  }

  lemma KeyLogHolds(log: Log, key: string, at: P.Stamp)
    ensures var st := RoomStamp(key, at.generation, at.version);
      (at in KeyLog(log, key) <==> st in log) && (st in log ==> KeyLog(log, key)[at] == log[st])
  {
    var st := RoomStamp(key, at.generation, at.version);
    if st in log { assert P.Stamp(st.generation, st.version) == at; }
  }

  lemma RecordHolds(log: Log, s: Shop, st: RoomStamp)
    ensures var here := st.key in s.rooms && st == StampOf(st.key, s.rooms[st.key]);
      && (st in Record(log, s) <==> st in log || here)
      && (st in Record(log, s) ==> Record(log, s)[st] == if here then s.rooms[st.key].tree else log[st])
  {
    if st.key in s.rooms && st == StampOf(st.key, s.rooms[st.key]) { assert st in Stamps(s.rooms); }
  }

  /** Recording adds to a key's log exactly the room now held under it. */
  lemma KeyLogRecords(log: Log, s: Shop, key: string)
    ensures KeyLog(Record(log, s), key) ==
      if key in s.rooms then KeyLog(log, key)[KeyRoom(s, key).value := s.rooms[key].tree] else KeyLog(log, key)
  {
    hide KeyLog, Record;
    var a := KeyLog(Record(log, s), key);
    var b := if key in s.rooms then KeyLog(log, key)[KeyRoom(s, key).value := s.rooms[key].tree] else KeyLog(log, key);
    forall at ensures (at in a <==> at in b) && (at in a ==> a[at] == b[at]) {
      KeyLogHolds(log, key, at);
      KeyLogHolds(Record(log, s), key, at);
      RecordHolds(log, s, RoomStamp(key, at.generation, at.version));
    }
  }

  /** A room under another stamp than before is under a stamp never used before. */
  lemma ChangedStampIsNew(log: Log, s: Shop, s': Shop, key: string)
    requires ShopOk(log, s) && Advances(s, s') && key in s'.rooms && KeyRoom(s', key) != KeyRoom(s, key)
    ensures StampOf(key, s'.rooms[key]) !in log
  {
    var st := StampOf(key, s'.rooms[key]);
    assert KeyAdvances(s, s', key);
    assert st in log ==> Past(s, st);
  }

  lemma HeldIsLogged(log: Log, s: Shop, key: string)
    requires ShopOk(log, s) && key in s.rooms
    ensures var r := s.rooms[key];
      && r.meta.generation >= 1 && r.meta.version >= 1 && WellFormed(r.tree)
      && StampOf(key, r) in log && log[StampOf(key, r)] == r.tree
  {
    assert RoomHolds(log, s, key);
  }

  /** The room's next world, with the batch `ops` committed if there was one. */
  ghost function NextWorld(w: P.World, log: Log, s': Shop, key: string, ops: Option<seq<Op>>): P.World {
    var next := w.(log := KeyLog(Record(log, s'), key), room := KeyRoom(s', key));
    if ops.None? || key !in s'.rooms then next
    else next.(committed := w.committed + {P.Event(next.room.value.version, next.room.value.generation, ops.value,
      false)})
  }

  lemma AnyStepIsPublished(log: Log, s: Shop, s': Shop, key: string, w: P.World)
    requires ShopOk(log, s) && Keeps(log, s, s') && Sees(w, log, s, key)
    ensures var w' := NextWorld(w, log, s', key, None);
      Sees(w', Record(log, s'), s', key) && (w' == w || P.Publish(w, w') || P.Vanish(w, w'))
  {
    hide ShopOk, Record, KeyLog, Advances, WellFormed;
    KeyLogRecords(log, s', key);
    if key in s'.rooms {
      HeldIsLogged(Record(log, s'), s', key);
      if KeyRoom(s', key) == KeyRoom(s, key) {
        SameStampSameTree(log, s, s', key);
        KeyLogHolds(log, key, KeyRoom(s, key).value);
      } else {
        ChangedStampIsNew(log, s, s', key);
        KeyLogHolds(log, key, KeyRoom(s', key).value);
        assert P.NewStamp(w, KeyRoom(s', key).value);
      }
    }
  }

  lemma SameStampSameTree(log: Log, s: Shop, s': Shop, key: string)
    requires ShopOk(log, s) && Advances(s, s') && key in s'.rooms && KeyRoom(s', key) == KeyRoom(s, key)
    ensures key in s.rooms && s'.rooms[key].tree == s.rooms[key].tree
    ensures StampOf(key, s.rooms[key]) in log && log[StampOf(key, s.rooms[key])] == s.rooms[key].tree
  {
    assert KeyAdvances(s, s', key);
    HeldIsLogged(log, s, key);
  }

  /** The batch a call commits under `key`, if it is granted and changes the document. */
  ghost function BatchOf(s: Shop, call: Call, now: int, later: int, key: string): Option<seq<Op>>
    requires TreesOk(s)
  {
    var reply := Step(s, call, now, later).reply;
    if call.ApplyOps? && call.key == key && reply.Granted? && reply.changed then Some(call.ops) else None
  }

  /** What a committed batch makes of its room. */
  lemma BatchDelivers(log: Log, s: Shop, call: Call, now: int, later: int, key: string)
    requires ShopOk(log, s) && TreesOk(s) && BatchOf(s, call, now, later, key).Some?
    ensures var s' := Step(s, call, now, later).shop;
      && ShopOk(Record(log, s'), s') && Advances(s, s') && Advances(Live(s, key, now), s') && key in s'.rooms
      && IsBatchOf(s'.rooms[key], Found(s, key, now), call.ops, call.ttl, call.author, now, later, s.nextGeneration,
                   true)
  {
    hide ShopOk, Record, Advances, IsBatchOf, ApplyLive;
    StepKeeps(log, s, call, now, later);
    ApplyDelivers(log, s, key, call.ops, call.ttl, call.author, call.allowed, now, later);
    LiveKeeps(log, s, key, now);
    TreesHold(log, Live(s, key, now));
    ApplyLiveKeeps(log, Live(s, key, now), key, call.ops, call.ttl, call.author, call.allowed, now, later);
  }

  function BaseOf(before: Option<Room>): Tree {
    if before.Some? then before.value.tree else EMPTY
  }

  lemma BatchApplies(r: Room, before: Option<Room>, ops: seq<Op>, ttl: int, author: string, now: int, later: int,
                     lastGeneration: int)
    requires IsBatchOf(r, before, ops, ttl, author, now, later, lastGeneration, true)
    ensures var out := ApplyBatch(BaseOf(before), ops); out.error.None? && out.changed && out.tree == r.tree
    ensures if before.None? then r.meta.version == 1 else
      r.meta.version == before.value.meta.version + 1 && r.meta.generation == before.value.meta.generation
  {
    hide ApplyBatch, CapturedFrom, WellFormed;
    BatchChangesExactly(BaseOf(before), ops);
  }

  lemma Commits(w: P.World, at: P.Stamp, base: Tree, ops: seq<Op>)
    requires P.NewStamp(w, at) && P.CommitBase(w, at, base)
    requires var out := ApplyBatch(base, ops); out.error.None? && out.changed
    ensures P.Commit(w, w.(log := w.log[at := ApplyBatch(base, ops).tree], room := Some(at),
                           committed := w.committed + {P.Event(at.version, at.generation, ops, false)}))
  {
  }

  lemma BatchIsCommitted(log: Log, s: Shop, call: Call, now: int, later: int, key: string, w: P.World)
    requires ShopOk(log, s) && TreesOk(s) && Sees(w, log, s, key) && BatchOf(s, call, now, later, key).Some?
    ensures P.Commit(w, NextWorld(w, log, Step(s, call, now, later).shop, key, BatchOf(s, call, now, later, key)))
  {
    hide ShopOk, Record, KeyLog, Advances, WellFormed, ApplyBatch, IsBatchOf, ApplyTurn, P.Commit, Expired;
    var s', before := Step(s, call, now, later).shop, Found(s, key, now);
    BatchDelivers(log, s, call, now, later, key);
    var r, at := s'.rooms[key], KeyRoom(s', key).value;
    BatchApplies(r, before, call.ops, call.ttl, call.author, now, later, s.nextGeneration);
    KeyLogRecords(log, s', key);
    HeldIsLogged(Record(log, s'), s', key);
    BatchIsMoved(log, s, s', key, r, now);
    ChangedStampIsNew(log, s, s', key);
    KeyLogHolds(log, key, at);
    if before.Some? {
      HeldIsLogged(log, s, key);
      KeyLogHolds(log, key, KeyRoom(s, key).value);
    }
    Commits(w, at, BaseOf(before), call.ops);
  }

  /** A batch that changes a room moves its stamp. */
  lemma BatchIsMoved(log: Log, s: Shop, s': Shop, key: string, r: Room, now: int)
    requires ShopOk(log, s) && Advances(Live(s, key, now), s') && key in s'.rooms && r == s'.rooms[key]
    requires Found(s, key, now).Some? ==> r.meta.version == Found(s, key, now).value.meta.version + 1
    ensures KeyRoom(s', key) != KeyRoom(s, key)
  {
    assert KeyAdvances(Live(s, key, now), s', key);
    if key in s.rooms { assert RoomHolds(log, s, key); }
  }

  /**
   Every critical section is, for every key, a step of that key's world: nothing, a
   removal, a new document under a new stamp, or a committed batch, which is what the
   handler will note.
   */
  lemma StepIsAWorldStep(log: Log, s: Shop, call: Call, now: int, later: int, key: string, w: P.World)
    requires ShopOk(log, s) && TreesOk(s) && Sees(w, log, s, key)
    ensures var s', batch := Step(s, call, now, later).shop, BatchOf(s, call, now, later, key);
      var w' := NextWorld(w, log, s', key, batch);
      && Sees(w', Record(log, s'), s', key)
      && (if batch.Some? then P.Commit(w, w') else w' == w || P.Publish(w, w') || P.Vanish(w, w'))
      && (w' == w || P.Next(w, w'))
  {
    hide ShopOk, Step, P.Commit, P.Publish, P.Vanish, Record;
    StepKeeps(log, s, call, now, later);
    AnyStepIsPublished(log, s, Step(s, call, now, later).shop, key, w);
    if BatchOf(s, call, now, later, key).Some? { BatchIsCommitted(log, s, call, now, later, key, w); }
  }

  // ----- runs -----------------------------------------------------------------------------------

  lemma WorldsGoOn(run: seq<P.World>, w: P.World)
    requires P.IsRun(run) && P.Next(run[|run| - 1], w)
    ensures P.IsRun(run + [w])
  {
    hide P.Next, P.Init;
    var longer := run + [w];
    forall i | 0 <= i < |longer| - 1 ensures P.Next(longer[i], longer[i + 1]) {
      if i < |run| - 1 { assert P.Next(run[i], run[i + 1]); }
    }
  }

  lemma {:induction false} ServedOnward(log: Log, s: Shop, ms: seq<Moment>, key: string, run: seq<P.World>)
    returns (longer: seq<P.World>)
    requires ShopOk(log, s) && P.IsRun(run) && Sees(run[|run| - 1], log, s, key)
    ensures P.IsRun(longer)
    ensures var (log', s') := Serve(log, s, ms); Sees(longer[|longer| - 1], log', s', key)
    decreases |ms|
  {
    hide ShopOk, Step, Record, P.Next, P.IsRun, Sees, NextWorld;
    NonEmptyRun(run);
    if ms == [] {
      longer := run;
    } else {
      ShopTrees(log, s);
      var m, w := ms[0], run[|run| - 1];
      var s1 := Step(s, m.call, m.now, m.later).shop;
      StepKeeps(log, s, m.call, m.now, m.later);
      StepIsAWorldStep(log, s, m.call, m.now, m.later, key, w);
      var w1 := NextWorld(w, log, s1, key, BatchOf(s, m.call, m.now, m.later, key));
      if w1 == w {
        longer := ServedOnward(Record(log, s1), s1, ms[1..], key, run);
      } else {
        WorldsGoOn(run, w1);
        longer := ServedOnward(Record(log, s1), s1, ms[1..], key, run + [w1]);
      }
    }
    NonEmptyRun(longer);
  }

  lemma ShopTrees(log: Log, s: Shop)
    requires ShopOk(log, s)
    ensures TreesOk(s)
  {
    TreesHold(log, s);
  }

  lemma NonEmptyRun(run: seq<P.World>)
    requires P.IsRun(run)
    ensures run != []
  {
  }

  /** Every run of a fresh store is, for every key, a run of that key's world. */
  lemma StoreRunIsAWorldRun(seed: int, maxRooms: nat, maxTotal: nat, ms: seq<Moment>, key: string)
    returns (run: seq<P.World>)
    ensures P.IsRun(run) && ShopOk(map[], NewShop(seed, maxRooms, maxTotal))
    ensures var (log, s) := Serve(map[], NewShop(seed, maxRooms, maxTotal), ms); Sees(run[|run| - 1], log, s, key)
  {
    NewShopIsOk(seed, maxRooms, maxTotal);
    var w := P.World(map[], None, {}, None, map[], {}, P.NEWCOMER);
    var none: Log := map[];
    assert StampsOf(none, key) == {};
    assert P.IsRun([w]);
    run := ServedOnward(none, NewShop(seed, maxRooms, maxTotal), ms, key, [w]);
  }
}
