/**
 The persister (internal/store/persist.go) as interleaved atomic steps: swap of the marks,
 removal of a file, snapshot under the lock, rename, re-check under the lock. Mutators
 of the store run between any two of them. File operations succeed.
 */
module Persistence {
  import opened Rga
  import opened Wire
  import opened Rooms
  import opened Shops
  import opened ShopLaws

  const NANOS_PER_SECOND: int := 1_000_000_000

  /** A room on disk; times are in whole seconds. */
  datatype Snapshot = Snapshot(key: string, lock: Lock, frame: Frame, ttlSeconds: int, expiresAt: int, version: int,
                               generation: int, updatedAt: int, updatedBy: string, history: seq<HistoryEntry>)

  /** Durations truncate toward zero, clock readings toward the past. */
  function WholeSeconds(ttl: int): int {
    if ttl >= 0 then ttl / NANOS_PER_SECOND else -(-ttl / NANOS_PER_SECOND)
  }

  /** `snap` is what `writeSnapshot` takes of the room. */
  ghost predicate Takes(snap: Snapshot, key: string, r: Room) {
    && snap == Snapshot(key, r.meta.lock, snap.frame, WholeSeconds(r.meta.ttl), r.meta.expiresAt / NANOS_PER_SECOND,
                        r.meta.version, r.meta.generation, r.meta.updatedAt / NANOS_PER_SECOND, r.meta.updatedBy,
                        r.meta.history)
    && WellFormed(r.tree) && Describes(snap.frame, r.tree) && snap.frame.content == r.meta.content
  }

  /** The second an instant is in. */
  predicate InSecond(seconds: int, nanos: int) {
    seconds * 1_000_000_000 <= nanos < seconds * 1_000_000_000 + 1_000_000_000
  }

  /** A file is its room, with the times rounded down to the second and the ttl toward zero. */
  lemma TakenExactly(snap: Snapshot, key: string, r: Room)
    requires Takes(snap, key, r)
    ensures snap.key == key && snap.lock == r.meta.lock && snap.frame.content == r.meta.content
    ensures snap.version == r.meta.version && snap.generation == r.meta.generation
    ensures snap.updatedBy == r.meta.updatedBy && snap.history == r.meta.history
    ensures WellFormed(r.tree) && Describes(snap.frame, r.tree)
    ensures InSecond(snap.expiresAt, r.meta.expiresAt) && InSecond(snap.updatedAt, r.meta.updatedAt)
    ensures if r.meta.ttl >= 0 then InSecond(snap.ttlSeconds, r.meta.ttl) else InSecond(-snap.ttlSeconds, -r.meta.ttl)
  {
  }

  /** `snap` has the durable part of the room: everything but the expiry and who refreshed it when. */
  ghost predicate Agrees(snap: Snapshot, key: string, r: Room) {
    && snap.key == key && snap.lock == r.meta.lock && snap.ttlSeconds == WholeSeconds(r.meta.ttl)
    && snap.version == r.meta.version && snap.generation == r.meta.generation && snap.history == r.meta.history
    && WellFormed(r.tree) && Describes(snap.frame, r.tree) && snap.frame.content == r.meta.content
  }

  datatype Job =
    | NoJob
    | Erasing(key: string)
    | Renaming(key: string, snap: Snapshot)
    | Rechecking(key: string, snap: Snapshot)

  datatype Phase = Idle | Flushing(removing: set<string>, writing: set<string>, job: Job)

  datatype World = World(shop: Shop, disk: map<string, Snapshot>, phase: Phase)

  datatype Event =
    | Mutate(call: Call, now: int, later: int)
    | Swap
    | RemoveFile(key: string)
    | TakeSnapshot(key: string, now: int, snap: Snapshot)
    | Erase
    | Rename
    | Recheck
    | Finish

  function SaltOf(lock: Lock): string {
    if lock.Locked? then lock.salt else ""
  }

  predicate Stale(snap: Snapshot, m: Meta) {
    m.version != snap.version || m.generation != snap.generation || SaltOf(m.lock) != SaltOf(snap.lock) ||
    |m.history| != |snap.history|
  }

  function Swapped(s: Shop): Shop {
    s.(dirty := {}, deleted := {})
  }

  function Rechecked(w: World, key: string, snap: Snapshot): World {
    if key !in w.shop.rooms then w.(disk := w.disk - {key})
    else if Stale(snap, w.shop.rooms[key].meta) then w.(shop := w.shop.(dirty := w.shop.dirty + {key}))
    else w
  }

  ghost predicate Enabled(w: World, e: Event) {
    match e
    case Mutate(_, _, _) => TreesOk(w.shop)
    case Swap => w.phase.Idle? && (w.shop.dirty != {} || w.shop.deleted != {})
    case RemoveFile(key) => w.phase.Flushing? && w.phase.job.NoJob? && key in w.phase.removing
    case TakeSnapshot(key, now, snap) =>
      && w.phase.Flushing? && w.phase.job.NoJob? && w.phase.removing == {} && key in w.phase.writing
      && (var s := Live(w.shop, key, now); key in s.rooms ==> Takes(snap, key, s.rooms[key]))
    case Erase => w.phase.Flushing? && w.phase.job.Erasing?
    case Rename => w.phase.Flushing? && w.phase.job.Renaming?
    case Recheck => w.phase.Flushing? && w.phase.job.Rechecking?
    case Finish => w.phase.Flushing? && w.phase.job.NoJob? && w.phase.removing == {} && w.phase.writing == {}
  }

  ghost function Next(w: World, e: Event): World
    requires Enabled(w, e)
  {
    match e
    case Mutate(call, now, later) => w.(shop := Step(w.shop, call, now, later).shop)
    case Swap => World(Swapped(w.shop), w.disk, Flushing(w.shop.deleted, w.shop.dirty, NoJob))
    case RemoveFile(key) => World(w.shop, w.disk - {key}, w.phase.(removing := w.phase.removing - {key}))
    case TakeSnapshot(key, now, snap) =>
      var s := Live(w.shop, key, now);
      var job := if key in s.rooms then Renaming(key, snap) else Erasing(key);
      World(s, w.disk, Flushing({}, w.phase.writing - {key}, job))
    case Erase => World(w.shop, w.disk - {w.phase.job.key}, w.phase.(job := NoJob))
    case Rename =>
      var job := w.phase.job;
      World(w.shop, w.disk[job.key := job.snap], w.phase.(job := Rechecking(job.key, job.snap)))
    case Recheck => Rechecked(w, w.phase.job.key, w.phase.job.snap).(phase := w.phase.(job := NoJob))
    case Finish => w.(phase := Idle)
  }

  // ----- the invariant ---------------------------------------------------------------------------

  /** Disk and memory agree on the key: both without the room, or both with the same durable part. */
  ghost predicate Synced(shop: Shop, disk: map<string, Snapshot>, key: string) {
    if key in shop.rooms then key in disk && Agrees(disk[key], key, shop.rooms[key]) else key !in disk
  }

  /** The running flush still has the key to do. */
  predicate InFlight(phase: Phase, key: string) {
    phase.Flushing? &&
    (key in phase.removing || key in phase.writing || phase.job == Erasing(key) ||
     (phase.job.Renaming? && phase.job.key == key))
  }

  ghost predicate KeyOk(w: World, key: string) {
    && (Synced(w.shop, w.disk, key) || Marked(w.shop, key) || InFlight(w.phase, key))
    && (w.phase.Flushing? ==>
          && (key in w.phase.removing && key in w.shop.rooms ==> key in w.shop.dirty || key in w.phase.writing)
          && (w.phase.job == Erasing(key) && key in w.shop.rooms ==> key in w.shop.dirty)
          && (w.phase.job.Renaming? && w.phase.job.key == key ==>
                Marked(w.shop, key) || (key in w.shop.rooms && Agrees(w.phase.job.snap, key, w.shop.rooms[key]))))
  }

  ghost predicate PhaseOk(phase: Phase) {
    phase.Flushing? && phase.removing != {} ==> phase.job.NoJob?
  }

  ghost predicate WorldOk(log: Log, w: World) {
    ShopOk(log, w.shop) && PhaseOk(w.phase) && forall k {:trigger KeyOk(w, k)} :: KeyOk(w, k)
  }

  lemma DurableAgrees(snap: Snapshot, key: string, r: Room, r': Room)
    requires Agrees(snap, key, r) && Durable(r) == Durable(r')
    ensures Agrees(snap, key, r')
  {
    assert Durable(r).meta.ttl == r.meta.ttl && Durable(r').meta.ttl == r'.meta.ttl;
  }

  /** A change of the store without the persister: what was in order stays in order or is marked. */
  lemma AdvanceKeepsKey(w: World, s': Shop, key: string)
    requires KeyOk(w, key) && KeyAdvances(w.shop, s', key) && MarksOk(s') && MarksOk(w.shop)
    ensures KeyOk(w.(shop := s'), key)
  {
    var s := w.shop;
    if key in s.rooms && key in s'.rooms && Durable(s.rooms[key]) == Durable(s'.rooms[key]) {
      if key in w.disk && Agrees(w.disk[key], key, s.rooms[key]) {
        DurableAgrees(w.disk[key], key, s.rooms[key], s'.rooms[key]);
      }
      if w.phase.Flushing? && w.phase.job.Renaming? && Agrees(w.phase.job.snap, key, s.rooms[key]) {
        DurableAgrees(w.phase.job.snap, key, s.rooms[key], s'.rooms[key]);
      }
    }
  }

  lemma MutateKeeps(log: Log, w: World, call: Call, now: int, later: int)
    requires WorldOk(log, w) && TreesOk(w.shop)
    ensures var w' := Next(w, Mutate(call, now, later)); WorldOk(Record(log, w'.shop), w')
  {
    var s' := Step(w.shop, call, now, later).shop;
    StepKeeps(log, w.shop, call, now, later);
    forall k ensures KeyOk(w.(shop := s'), k) {
      assert KeyOk(w, k) && KeyAdvances(w.shop, s', k);
      AdvanceKeepsKey(w, s', k);
    }
  }

  lemma RemarkedKeeps(log: Log, s: Shop, dirty: set<string>, deleted: set<string>)
    requires ShopOk(log, s) && (forall k :: k in s.rooms && k in deleted ==> k in dirty)
    ensures ShopOk(log, s.(dirty := dirty, deleted := deleted))
  {
    RemovalHolds(log, s, s.(dirty := dirty, deleted := deleted));
  }

  lemma SwapKeeps(log: Log, w: World)
    requires WorldOk(log, w) && Enabled(w, Swap)
    ensures WorldOk(log, Next(w, Swap))
  {
    RemarkedKeeps(log, w.shop, {}, {});
    forall k ensures KeyOk(Next(w, Swap), k) { assert KeyOk(w, k); }
  }

  lemma TakeKeeps(log: Log, w: World, key: string, now: int, snap: Snapshot)
    requires WorldOk(log, w) && Enabled(w, TakeSnapshot(key, now, snap))
    ensures WorldOk(log, Next(w, TakeSnapshot(key, now, snap)))
  {
    var s := Live(w.shop, key, now);
    LiveKeeps(log, w.shop, key, now);
    forall k ensures KeyOk(Next(w, TakeSnapshot(key, now, snap)), k) {
      assert KeyOk(w, k) && KeyAdvances(w.shop, s, k);
      AdvanceKeepsKey(w, s, k);
      TakeKeepsKey(w, key, now, snap, k);
    }
  }

  lemma RecheckKeepsKey(w: World, k: string)
    requires KeyOk(w, k) && PhaseOk(w.phase) && Enabled(w, Recheck)
    ensures KeyOk(Next(w, Recheck), k)
  {
    hide Agrees, Step;
  }

  lemma FileStepKeepsKey(w: World, e: Event, k: string)
    requires KeyOk(w, k) && PhaseOk(w.phase) && Enabled(w, e) && (e.RemoveFile? || e.Erase? || e.Rename? || e.Finish?)
    ensures KeyOk(Next(w, e), k)
  {
    hide Agrees, Step;
  }

  lemma TakeKeepsKey(w: World, key: string, now: int, snap: Snapshot, k: string)
    requires PhaseOk(w.phase) && Enabled(w, TakeSnapshot(key, now, snap)) &&
      KeyOk(w.(shop := Live(w.shop, key, now)), k)
    ensures KeyOk(Next(w, TakeSnapshot(key, now, snap)), k)
  {
  }

  lemma RecheckKeeps(log: Log, w: World)
    requires WorldOk(log, w) && Enabled(w, Recheck)
    ensures WorldOk(log, Next(w, Recheck))
  {
    RemarkedKeeps(log, w.shop, w.shop.dirty + {w.phase.job.key}, w.shop.deleted);
    forall k ensures KeyOk(Next(w, Recheck), k) { RecheckKeepsKey(w, k); }
  }

  /** Were the re-check left out, the marks alone would still keep the invariant: it is a second line of defence. */
  lemma RecheckIsRedundant(log: Log, w: World)
    requires WorldOk(log, w) && Enabled(w, Recheck)
    ensures WorldOk(log, w.(phase := w.phase.(job := NoJob)))
  {
    hide Step, Agrees, ShopOk, Synced, Takes, Live;
    forall k ensures KeyOk(w.(phase := w.phase.(job := NoJob)), k) { assert KeyOk(w, k); }
  }

  /**
   The re-check under the lock: the file of a room that is gone is removed; a file that has
   another version, generation, salt or trail length than the room gets the room marked
   again; otherwise nothing happens.
   */
  lemma RecheckExactly(w: World)
    requires Enabled(w, Recheck)
    ensures var key, snap, w' := w.phase.job.key, w.phase.job.snap, Next(w, Recheck);
      && w'.phase == w.phase.(job := NoJob)
      && if key !in w.shop.rooms then w'.shop == w.shop && w'.disk == w.disk - {key}
         else
           var m := w.shop.rooms[key].meta;
           var salt := if m.lock.Locked? then m.lock.salt else "";
           var written := if snap.lock.Locked? then snap.lock.salt else "";
           var again := m.version != snap.version || m.generation != snap.generation || salt != written ||
                        |m.history| != |snap.history|;
           w'.disk == w.disk && w'.shop == w.shop.(dirty := if again then w.shop.dirty + {key} else w.shop.dirty)
  {
  }

  lemma FileStepKeeps(log: Log, w: World, e: Event)
    requires WorldOk(log, w) && Enabled(w, e) && (e.RemoveFile? || e.Erase? || e.Rename? || e.Finish?)
    ensures WorldOk(log, Next(w, e))
  {
    hide Step, ShopOk, KeyOk;
    forall k ensures KeyOk(Next(w, e), k) { FileStepKeepsKey(w, e, k); }
  }

  /** The log grows with what mutators publish. */
  ghost function LogAfter(log: Log, w: World, e: Event): Log
    requires Enabled(w, e)
  {
    if e.Mutate? then Record(log, Next(w, e).shop) else log
  }

  /** Every atomic step of the persister and every mutator keeps the invariant. */
  lemma NextKeeps(log: Log, w: World, e: Event)
    requires WorldOk(log, w) && Enabled(w, e)
    ensures WorldOk(LogAfter(log, w, e), Next(w, e))
  {
    match e
    case Mutate(call, now, later) => MutateKeeps(log, w, call, now, later);
    case Swap => SwapKeeps(log, w);
    case TakeSnapshot(key, now, snap) => TakeKeeps(log, w, key, now, snap);
    case Recheck => RecheckKeeps(log, w);
    case _ => FileStepKeeps(log, w, e);
  }

  /** `es` can happen one after the other. */
  ghost predicate Runs(w: World, es: seq<Event>)
    decreases |es|
  {
    es == [] || (Enabled(w, es[0]) && Runs(Next(w, es[0]), es[1..]))
  }

  ghost function End(w: World, es: seq<Event>): World
    requires Runs(w, es)
    decreases |es|
  {
    if es == [] then w else End(Next(w, es[0]), es[1..])
  }

  ghost function LogOf(log: Log, w: World, es: seq<Event>): Log
    requires Runs(w, es)
    decreases |es|
  {
    if es == [] then log else LogOf(LogAfter(log, w, es[0]), Next(w, es[0]), es[1..])
  }

  lemma {:induction false} RunsKeep(log: Log, w: World, es: seq<Event>)
    requires WorldOk(log, w) && Runs(w, es)
    ensures WorldOk(LogOf(log, w, es), End(w, es))
    decreases |es|
  {
    if es != [] {
      NextKeeps(log, w, es[0]);
      RunsKeep(LogAfter(log, w, es[0]), Next(w, es[0]), es[1..]);
    }
  }

  /** No flush runs and nothing is marked. */
  predicate Quiescent(w: World) {
    w.phase.Idle? && w.shop.dirty == {} && w.shop.deleted == {}
  }

  /**
   Over every interleaving from a store and a directory that agree: whenever disk and
   memory differ on a key, the key is marked or in the running flush; at quiescence they
   differ on none, and a room that is gone has no file.
   */
  lemma DiskFollowsMemory(log: Log, w: World, es: seq<Event>, key: string)
    requires ShopOk(log, w.shop) && w.phase.Idle? && (forall k :: Synced(w.shop, w.disk, k)) && Runs(w, es)
    ensures var w' := End(w, es);
      && (Synced(w'.shop, w'.disk, key) || Marked(w'.shop, key) || InFlight(w'.phase, key))
      && (Quiescent(w') ==> Synced(w'.shop, w'.disk, key))
  {
    forall k ensures KeyOk(w, k) { assert Synced(w.shop, w.disk, k); }
    RunsKeep(log, w, es);
    assert KeyOk(End(w, es), key);
  }
}
