/**
 The flusher and the loader of internal/store/persist.go around a store and a directory.
 Each atomic step of `Persistence` is a method here; `WriteSnapshot` and `FlushDirty` run
 them without interruption, `Persistence` lets mutators run between them.
 */
module Persisters {
  import opened Rga
  import opened Ops
  import opened Views
  import opened Chains
  import opened Wire
  import opened Docs
  import opened Rooms
  import opened Shops
  import opened ShopLaws
  import opened Stores
  import opened Persistence
  import opened Restart

  /** Every room's text is its document's. */
  ghost predicate Sound(s: Shop) {
    forall k :: k in s.rooms ==> WellFormed(s.rooms[k].tree) && s.rooms[k].meta.content == Text(s.rooms[k].tree)
  }

  lemma HeldRoomsAreSound(log: Log, s: Shop)
    requires ShopOk(log, s)
    ensures Sound(s)
  {
    forall k | k in s.rooms ensures WellFormed(s.rooms[k].tree) && s.rooms[k].meta.content == Text(s.rooms[k].tree) {
      assert RoomHolds(log, s, k);
    }
  }

  lemma TakenIsFresh(w: World, key: string, snap: Snapshot)
    requires key in w.shop.rooms && Takes(snap, key, w.shop.rooms[key])
    ensures Rechecked(w, key, snap) == w
  {
  }

  lemma UnmarkedIsSynced(w: World, key: string)
    requires KeyOk(w, key) && w.phase.Idle? && !Marked(w.shop, key)
    ensures Synced(w.shop, w.disk, key)
  {
  }

  ghost predicate SameBut(disk: map<string, Snapshot>, disk': map<string, Snapshot>, key: string) {
    forall k :: k != key ==> (k in disk <==> k in disk') && (k in disk ==> disk'[k] == disk[k])
  }

  /** The removals of a flush settle every marked key but those it still has to write. */
  lemma RemovalSyncs(log: Log, w: World, disk: map<string, Snapshot>, key: string)
    requires WorldOk(log, w) && w.phase.Idle?
    requires disk == w.disk - w.shop.deleted
    ensures Synced(Swapped(w.shop), disk, key) || key in w.shop.dirty
  {
    hide AllHold, AllPast, Agrees, Total;
    assert KeyOk(w, key);
  }

  /** A snapshot settles its own key and leaves the others as they were. */
  lemma WriteSyncs(s: Shop, disk: map<string, Snapshot>, disk': map<string, Snapshot>, key: string, now: int, k: string)
    requires SameBut(disk, disk', key)
    requires if key in Live(s, key, now).rooms then key in disk' && Takes(disk'[key], key, Live(s, key, now).rooms[key])
      else key !in disk'
    ensures Synced(Live(s, key, now), disk', k) <==> k == key || Synced(s, disk, k)
  {
  }

  /** Every key agrees on disk and in memory but those still to be written. */
  ghost predicate SyncedBut(s: Shop, disk: map<string, Snapshot>, writing: set<string>) {
    forall k :: Synced(s, disk, k) || k in writing
  }

  lemma SyncedButOneLess(s: Shop, disk: map<string, Snapshot>, disk': map<string, Snapshot>, key: string, now: int,
                         writing: set<string>)
    requires SyncedBut(s, disk, writing) && SameBut(disk, disk', key)
    requires if key in Live(s, key, now).rooms then key in disk' && Takes(disk'[key], key, Live(s, key, now).rooms[key])
      else key !in disk'
    ensures SyncedBut(Live(s, key, now), disk', writing - {key})
  {
    hide Takes, Synced, SameBut;
    forall k ensures Synced(Live(s, key, now), disk', k) || k in writing - {key} {
      WriteSyncs(s, disk, disk', key, now, k);
    }
  }

  class Persister {
    const store: Store
    var disk: map<string, Snapshot>

    constructor (store: Store, disk: map<string, Snapshot>)
      ensures this.store == store && this.disk == disk
    {
      this.store := store;
      this.disk := disk;
    }

    ghost function View(phase: Phase): World
      reads this, store
    {
      World(store.View(), disk, phase)
    }

    /** The first critical section of `writeSnapshot`. */
    method TakeSnapshot(key: string, now: int) returns (snap: Option<Snapshot>)
      requires store.Valid() && Sound(store.View())
      modifies store
      ensures store.Valid() && store.View() == Live(old(store.View()), key, now)
      ensures if key in store.rooms then snap.Some? && Takes(snap.value, key, store.rooms[key]) else snap.None?
      ensures snap.Some? ==> InSecond(snap.value.expiresAt, store.rooms[key].meta.expiresAt)
      ensures snap.Some? ==> InSecond(snap.value.updatedAt, store.rooms[key].meta.updatedAt)
    {
      hide Booked, TextOf, VisibleOf, IsChain, InSecond;
      var item := store.GetLiveLocked(key, now);
      if item.None? { return None; }
      var c := item.value;
      assert WellFormed(c.doc.State());
      var site, linear := c.doc.LinearChain();
      var listing: seq<Item> := [];
      if !linear { listing := c.doc.Items(); site := ""; }
      snap := Some(Snapshot(key, c.meta.lock, Frame(c.meta.content, site, listing), WholeSeconds(c.meta.ttl),
                            c.meta.expiresAt / NANOS_PER_SECOND, c.meta.version, c.meta.generation,
                            c.meta.updatedAt / NANOS_PER_SECOND, c.meta.updatedBy, c.meta.history));
      assert IsChainSite(c.doc.State(), if linear then Some(site) else None);
      TakenExactly(snap.value, key, store.rooms[key]);
    }

    method RemoveFile(key: string)
      modifies this`disk
      ensures SameBut(old(disk), disk, key) && key !in disk
    {
      disk := disk - {key};
    }

    /** Writing aside and renaming: the file changes in one step. */
    method RenameInto(key: string, snap: Snapshot)
      modifies this`disk
      ensures SameBut(old(disk), disk, key) && key in disk && disk[key] == snap
    {
      disk := disk[key := snap];
    }

    /** The last critical section of `writeSnapshot`. */
    method Recheck(key: string, snap: Snapshot)
      requires store.Valid()
      modifies this, store
      ensures store.Valid() && View(Idle) == Rechecked(old(View(Idle)), key, snap)
      ensures if key in old(store.items) then disk == old(disk) else disk == old(disk) - {key}
    {
      hide Booked;
      if key !in store.items {
        disk := disk - {key};
        return;
      }
      var m := store.items[key].meta;
      if m.version != snap.version || m.generation != snap.generation || SaltOf(m.lock) != SaltOf(snap.lock) ||
         |m.history| != |snap.history| {
        store.MarkDirtyLocked(key);
      }
    }

    /** Uninterrupted, the re-check finds nothing stale. */
    method WriteSnapshot(key: string, now: int)
      requires store.Valid() && Sound(store.View())
      modifies this, store
      ensures store.Valid() && store.View() == Live(old(store.View()), key, now)
      ensures SameBut(old(disk), disk, key)
      ensures if key in store.rooms then key in disk && Takes(disk[key], key, store.rooms[key]) else key !in disk
      ensures key in disk ==> InSecond(disk[key].expiresAt, store.rooms[key].meta.expiresAt)
      ensures key in disk ==> InSecond(disk[key].updatedAt, store.rooms[key].meta.updatedAt)
    {
      hide Booked, Takes, Stale, Rechecked, SameBut;
      var taken := TakeSnapshot(key, now);
      if taken.None? {
        RemoveFile(key);
        return;
      }
      RenameInto(key, taken.value);
      TakenIsFresh(View(Idle), key, taken.value);
      Recheck(key, taken.value);
    }

    method RemoveFiles(removing: set<string>)
      modifies this`disk
      ensures disk == old(disk) - removing
    {
      var rest := removing;
      while rest != {}
        invariant rest <= removing && disk == old(disk) - (removing - rest)
        decreases rest
      {
        var key :| key in rest;
        assert old(disk) - (removing - rest) - {key} == old(disk) - (removing - (rest - {key}));
        disk := disk - {key};
        rest := rest - {key};
      }
      assert removing - {} == removing;
    }

    method WriteSnapshots(writing: set<string>, clock: string -> int, ghost log: Log)
      requires store.Valid() && ShopOk(log, store.View()) && store.dirty == {} && SyncedBut(store.View(), disk, writing)
      modifies this, store
      ensures store.Valid() && ShopOk(log, store.View()) && store.dirty == {} && SyncedBut(store.View(), disk, {})
    {
      hide Booked, ShopOk, SyncedBut, SameBut, Takes;
      var rest := writing;
      while rest != {}
        invariant store.Valid() && ShopOk(log, store.View()) && store.dirty == {}
        invariant SyncedBut(store.View(), disk, rest)
        decreases rest
      {
        var key :| key in rest;
        ghost var s, before := store.View(), disk;
        HeldRoomsAreSound(log, s);
        LiveKeeps(log, s, key, clock(key));
        WriteSnapshot(key, clock(key));
        SyncedButOneLess(s, before, disk, key, clock(key), rest);
        rest := rest - {key};
      }
    }

    /** An uninterrupted flush: removals, then snapshots. Afterwards disk and memory agree on every key. */
    method FlushDirty(clock: string -> int, ghost log: Log)
      requires store.Valid() && WorldOk(log, View(Idle))
      modifies this, store
      ensures store.Valid() && WorldOk(log, View(Idle)) && store.dirty == {}
      ensures forall k :: Synced(store.View(), disk, k)
    {
      hide Booked, ShopOk, Synced;
      ghost var s, files := store.View(), disk;
      if store.dirty == {} && store.deleted == {} {
        forall k ensures Synced(store.View(), disk, k) { UnmarkedIsSynced(View(Idle), k); }
        return;
      }
      var writing, removing := store.SwapMarks();
      RemoveFiles(removing);
      RemarkedKeeps(log, s, {}, {});
      forall k ensures Synced(store.View(), disk, k) || k in writing {
        RemovalSyncs(log, World(s, files, Idle), disk, k);
      }
      WriteSnapshots(writing, clock, log);
      forall k ensures KeyOk(View(Idle), k) { }
    }

    // ----- start-up -------------------------------------------------------------------------------

    method RestoredDoc(frame: Frame, updatedBy: string) returns (doc: Doc, error: Option<Error>)
      ensures fresh(doc)
      ensures match RestoredTree(frame, updatedBy)
        case Ok(t) => error == None && doc.State() == t
        case Failed(e) => error == Some(e)
    {
      var own := if updatedBy == "" then SERVER_SITE else updatedBy;
      if frame.itemsSite != "" || |frame.items| == 0 {
        doc, error := Doc.BuildFromString(if frame.itemsSite != "" then frame.itemsSite else own, frame.content);
        return;
      }
      doc := new Doc();
      error := doc.FromItems(frame.items);
      if error.Some? { doc, error := Doc.BuildFromString(own, frame.content); }
    }

    /** Loads one file that has not expired; `full` says that the room limit stops the loading. */
    method LoadFile(f: File) returns (full: bool)
      requires store.Valid() && f.key !in store.rooms
      modifies store
      ensures store.Valid()
      ensures var s, t := old(store.View()), RestoredTree(f.snap.frame, f.snap.updatedBy);
        && full == (t.Ok? && |s.rooms| >= s.maxRooms)
        && store.View() == if t.Failed? || full then s else LoadOne(s, f.key, RestoredRoom(f.snap))
    {
      hide Booked, Total, RoomBytes, RestoredTree;
      var doc, error := RestoredDoc(f.snap.frame, f.snap.updatedBy);
      MirrorsSize(store.items, store.rooms);
      if error.Some? { return false; }
      if |store.items| >= store.maxRooms { return true; }
      var item := Clipboard(doc, RestoredMeta(f.snap));
      var newBytes := store.BytesOf(item);
      BookedAt(store.rooms, store.sizeBy, store.total, f.key);
      if store.total + newBytes <= store.maxTotal { store.RestoreLocked(f.key, item, newBytes); }
      return false;
    }

    /** Reads the directory in its order and removes the files it finds expired. */
    method LoadPersisted(files: seq<File>, now: int)
      requires store.Valid() && FreshKeys(store.View(), files)
      modifies this, store
      ensures store.Valid() && store.View() == LoadAll(old(store.View()), files, now)
      ensures disk == DiskAfter(old(store.View()), old(disk), files, now)
    {
      hide Booked, Total, RoomBytes, RestoredTree, RestoredRoom;
      var n := 0;
      while n < |files|
        invariant 0 <= n <= |files| && store.Valid() && FreshKeys(store.View(), files[n..])
        invariant LoadAll(old(store.View()), files, now) == LoadAll(store.View(), files[n..], now)
        invariant DiskAfter(old(store.View()), old(disk), files, now) == DiskAfter(store.View(), disk, files[n..], now)
      {
        var f := files[n];
        assert files[n..][0] == f && files[n..][1..] == files[n + 1..];
        HandleKeepsFresh(store.View(), files[n..], now);
        n := n + 1;
        if f.snap.key != f.key || f.snap.ttlSeconds <= 0 { continue; }
        if f.snap.expiresAt * NANOS_PER_SECOND <= now {
          disk := disk - {f.key};
          continue;
        }
        var full := LoadFile(f);
        if full { break; }
      }
    }
  }
}
