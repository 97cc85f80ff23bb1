/**
 Start-up: `loadPersisted` (internal/store/persist.go:228-353) over a directory of
 snapshots, and the round trip through disk. Files are well-formed JSON under valid
 keys and carry no legacy plaintext passwords.
 */
module Restart {
  import opened Sequences
  import opened Rga
  import opened Ops
  import opened Views
  import opened Snapshots
  import opened Chains
  import opened Wire
  import opened Rooms
  import opened Shops
  import opened ShopLaws
  import opened Persistence

  /** A directory entry: the key its name spells, and its content. */
  datatype File = File(key: string, snap: Snapshot)

  function OwnSite(updatedBy: string): string {
    if updatedBy == "" then SERVER_SITE else updatedBy
  }

  function RestoredTree(frame: Frame, updatedBy: string): Loaded<Tree> {
    if frame.itemsSite != "" || frame.items == [] then
      BuildFromString(if frame.itemsSite != "" then frame.itemsSite else OwnSite(updatedBy), frame.content)
    else
      match FromItems(frame.items)
      case Ok(t) => Ok(t)
      case Failed(_) => BuildFromString(OwnSite(updatedBy), frame.content)
  }

  /**
   A list of items that can be rebuilt is; an elided chain, a missing list and one that
   cannot be rebuilt give the text typed in one go: on the chain's site, else its author's,
   else the server's.
   */
  lemma RestoredTreeExactly(frame: Frame, updatedBy: string)
    ensures var author := if updatedBy != "" then updatedBy else "server";
      var site := if frame.itemsSite != "" then frame.itemsSite else author;
      RestoredTree(frame, updatedBy) ==
        if frame.itemsSite == "" && frame.items != [] && FromItems(frame.items).Ok? then FromItems(frame.items)
        else if frame.content != "" && exists i :: 0 <= i < |site| && site[i] == ':' then Failed(InvalidId)
        else Ok(Chain(site, frame.content))
  {
    hide FromItems;
    BuiltExactlyWhen(if frame.itemsSite != "" then frame.itemsSite else OwnSite(updatedBy), frame.content);
  }

  function Trimmed(h: seq<HistoryEntry>): seq<HistoryEntry> {
    if |h| > MAX_HISTORY_ENTRIES then h[|h| - MAX_HISTORY_ENTRIES..] else h
  }

  function ScopedLock(lock: Lock): Lock {
    if lock.Locked? then lock.(scope := ScopeOf(lock.scope)) else lock
  }

  function RestoredMeta(snap: Snapshot): Meta {
    Meta(snap.frame.content, snap.ttlSeconds * NANOS_PER_SECOND, snap.expiresAt * NANOS_PER_SECOND, snap.version,
         snap.generation, ScopedLock(snap.lock), snap.updatedAt * NANOS_PER_SECOND, snap.updatedBy,
         Trimmed(snap.history))
  }

  predicate Loadable(f: File, now: int) {
    f.snap.key == f.key && f.snap.ttlSeconds > 0 && f.snap.expiresAt * NANOS_PER_SECOND > now &&
    RestoredTree(f.snap.frame, f.snap.updatedBy).Ok?
  }

  function RestoredRoom(snap: Snapshot): Room
    requires RestoredTree(snap.frame, snap.updatedBy).Ok?
  {
    Room(RestoredTree(snap.frame, snap.updatedBy).value, RestoredMeta(snap))
  }

  /** A loadable file that does not fit the byte budget is skipped; once the room limit is reached, loading ends. */
  ghost function LoadAll(s: Shop, files: seq<File>, now: int): Shop
    decreases |files|
  {
    if files == [] then s
    else if !Loadable(files[0], now) then LoadAll(s, files[1..], now)
    else if |s.rooms| >= s.maxRooms then s
    else LoadAll(LoadOne(s, files[0].key, RestoredRoom(files[0].snap)), files[1..], now)
  }

  ghost function LoadOne(s: Shop, key: string, r: Room): Shop {
    if Total(s.rooms) + RoomBytes(r) > s.maxTotal then s
    else Counted(s, r.meta.generation).(rooms := s.rooms[key := r])
  }

  /** The file is of this key and has a lifetime, which is over: loading removes it. */
  predicate RunOut(f: File, now: int) {
    f.snap.key == f.key && f.snap.ttlSeconds > 0 && f.snap.expiresAt * NANOS_PER_SECOND <= now
  }

  /** The directory after loading: without the files that have run out, as far as loading got. */
  ghost function DiskAfter(s: Shop, disk: map<string, Snapshot>, files: seq<File>, now: int): map<string, Snapshot>
    decreases |files|
  {
    if files == [] then disk
    else if RunOut(files[0], now) then DiskAfter(s, disk - {files[0].key}, files[1..], now)
    else if !Loadable(files[0], now) then DiskAfter(s, disk, files[1..], now)
    else if |s.rooms| >= s.maxRooms then disk
    else DiskAfter(LoadOne(s, files[0].key, RestoredRoom(files[0].snap)), disk, files[1..], now)
  }

  /** Whatever the directory holds, loading stays within the limits. */
  lemma {:induction false} LoadingRespectsLimits(s: Shop, files: seq<File>, now: int)
    requires |s.rooms| <= s.maxRooms && Total(s.rooms) <= s.maxTotal
    requires forall i :: 0 <= i < |files| ==> files[i].key !in s.rooms
    requires forall i, j :: 0 <= i < j < |files| ==> files[i].key != files[j].key
    ensures var s' := LoadAll(s, files, now); |s'.rooms| <= s'.maxRooms && Total(s'.rooms) <= s'.maxTotal
    decreases |files|
  {
    hide RoomBytes, RestoredRoom, RestoredTree, Total;
    if files == [] {
    } else if !Loadable(files[0], now) {
      LoadingRespectsLimits(s, files[1..], now);
    } else if |s.rooms| < s.maxRooms {
      var key, r := files[0].key, RestoredRoom(files[0].snap);
      TotalWith(s.rooms, key, r);
      assert s.rooms[key := r].Keys == s.rooms.Keys + {key};
      LoadingRespectsLimits(LoadOne(s, key, r), files[1..], now);
    }
  }

  /** The lock with its scope: "edit" where none was given. */
  function LockBack(lock: Lock): Lock {
    if lock.Locked? && lock.scope == "" then lock.(scope := "edit") else lock
  }

  // ----- the round trip ------------------------------------------------------------------------------

  /** Elided chain, item list or empty document: the tree comes back as it was. */
  lemma TreeSurvives(frame: Frame, t: Tree, updatedBy: string)
    requires WellFormed(t) && Describes(frame, t)
    ensures RestoredTree(frame, updatedBy) == Ok(t)
  {
    var found :| IsChainSite(t, found) &&
      frame.itemsSite == (if found.Some? then found.value else "") &&
      frame.items == if found.Some? then [] else Listing(t);
    if t.items == map[] {
      EmptyItemsEmptyTree(t);
    } else if found.Some? {
      ElisionIsExact(t, found.value);
    } else {
      ListingIsNonEmpty(t);
      RebuildFromAnyPermutation(t, Listing(t));
    }
  }

  /**
   What the file of a room gives back: the room, with the times the file has in whole
   seconds, the author it names, and a lock that says its scope.
   */
  lemma RoomSurvivesRestart(log: Log, snap: Snapshot, key: string, r: Room)
    requires Agrees(snap, key, r) && RoomOk(log, key, r)
    ensures RestoredTree(snap.frame, snap.updatedBy) == Ok(r.tree)
    ensures RestoredRoom(snap) == Room(r.tree, r.meta.(
              ttl := snap.ttlSeconds * 1_000_000_000, expiresAt := snap.expiresAt * 1_000_000_000,
              updatedAt := snap.updatedAt * 1_000_000_000, updatedBy := snap.updatedBy, lock := LockBack(r.meta.lock)))
    ensures RoomBytes(RestoredRoom(snap)) == RoomBytes(r)
  {
    TreeSurvives(snap.frame, r.tree, snap.updatedBy);
  }

  /** A room comes back with the author, ttl and times it was written with, less than a second short of them. */
  lemma TimesSurviveRestart(log: Log, snap: Snapshot, key: string, r: Room)
    requires Takes(snap, key, r) && RoomOk(log, key, r)
    ensures RestoredTree(snap.frame, snap.updatedBy).Ok?
    ensures var r' := RestoredRoom(snap);
      && r.meta.expiresAt - 1_000_000_000 < r'.meta.expiresAt <= r.meta.expiresAt
      && r.meta.updatedAt - 1_000_000_000 < r'.meta.updatedAt <= r.meta.updatedAt
      && r'.meta.updatedBy == r.meta.updatedBy
      && (r.meta.ttl >= 0 ==> r.meta.ttl - 1_000_000_000 < r'.meta.ttl <= r.meta.ttl)
  {
    hide Agrees, RoomOk, RestoredRoom;
    TakenAgrees(snap, key, r);
    RoomSurvivesRestart(log, snap, key, r);
    TakenExactly(snap, key, r);
  }

  lemma TakenAgrees(snap: Snapshot, key: string, r: Room)
    requires Takes(snap, key, r)
    ensures Agrees(snap, key, r)
  {
  }

  /** The file outlives the restart: it has not expired by whole seconds, and its ttl is a second or more. */
  predicate Outlives(snap: Snapshot, now: int) {
    snap.ttlSeconds > 0 && snap.expiresAt * NANOS_PER_SECOND > now
  }

  /** The files are the disk in some directory order. */
  ghost predicate ListsDisk(disk: map<string, Snapshot>, files: seq<File>) {
    && (forall i :: 0 <= i < |files| ==> files[i].key in disk && disk[files[i].key] == files[i].snap)
    && (forall i, j :: 0 <= i < j < |files| ==> files[i].key != files[j].key)
    && (forall k :: k in disk ==> exists i :: 0 <= i < |files| && files[i].key == k)
  }

  ghost predicate FileOk(log: Log, pending: map<string, Room>, f: File) {
    f.key in pending && Agrees(f.snap, f.key, pending[f.key]) && RoomOk(log, f.key, pending[f.key])
  }

  lemma LoadableExactly(log: Log, pending: map<string, Room>, f: File, now: int)
    requires FileOk(log, pending, f)
    ensures Loadable(f, now) <==> Outlives(f.snap, now)
    ensures RestoredTree(f.snap.frame, f.snap.updatedBy).Ok?
    ensures RoomBytes(RestoredRoom(f.snap)) == RoomBytes(pending[f.key])
  {
    RoomSurvivesRestart(log, f.snap, f.key, pending[f.key]);
  }

  /** `f` has been dealt with: its room is there exactly if it outlives the restart. */
  ghost predicate Settled(rooms: map<string, Room>, f: File, now: int) {
    if Outlives(f.snap, now) then
      f.key in rooms && RestoredTree(f.snap.frame, f.snap.updatedBy).Ok? && rooms[f.key] == RestoredRoom(f.snap)
    else f.key !in rooms
  }

  ghost predicate FreshKeys(s: Shop, files: seq<File>) {
    && (forall i :: 0 <= i < |files| ==> files[i].key !in s.rooms)
    && (forall i, j :: 0 <= i < j < |files| ==> files[i].key != files[j].key)
  }

  ghost function Handle(s: Shop, f: File, now: int): Shop {
    if Loadable(f, now) then LoadOne(s, f.key, RestoredRoom(f.snap)) else s
  }

  ghost predicate Covers(files: seq<File>, k: string) {
    exists i :: 0 <= i < |files| && files[i].key == k
  }

  lemma CoversMore(files: seq<File>, k: string)
    requires files != []
    ensures Covers(files, k) <==> k == files[0].key || Covers(files[1..], k)
  {
    if Covers(files, k) && k != files[0].key {
      var i :| 0 <= i < |files| && files[i].key == k;
      assert files[1..][i - 1].key == k;
    }
    if Covers(files[1..], k) {
      var i :| 0 <= i < |files[1..]| && files[1..][i].key == k;
      assert files[i + 1].key == k;
    }
  }

  lemma HandleKeepsFresh(s: Shop, files: seq<File>, now: int)
    requires FreshKeys(s, files) && files != []
    ensures FreshKeys(Handle(s, files[0], now), files[1..])
    ensures var s' := Handle(s, files[0], now);
      forall k :: k in s.rooms ==> k in s'.rooms && s'.rooms[k] == s.rooms[k]
    ensures Handle(s, files[0], now).rooms.Keys <= s.rooms.Keys + {files[0].key}
  {
    hide Total, RoomBytes, RestoredRoom;
  }

  /** Loading only adds rooms, and only under the files' keys. */
  lemma {:induction false} LoadingOnlyAdds(s: Shop, files: seq<File>, now: int)
    requires FreshKeys(s, files)
    ensures var s' := LoadAll(s, files, now);
      && (forall k :: k in s.rooms ==> k in s'.rooms && s'.rooms[k] == s.rooms[k])
      && (forall k :: k in s'.rooms && k !in s.rooms ==> Covers(files, k))
    decreases |files|
  {
    hide Total, RoomBytes, RestoredRoom, Covers;
    if files != [] {
      var next := Handle(s, files[0], now);
      HandleKeepsFresh(s, files, now);
      LoadingOnlyAdds(next, files[1..], now);
      forall k | k in LoadAll(next, files[1..], now).rooms && k !in s.rooms ensures Covers(files, k) {
        CoversMore(files, k);
      }
    }
  }

  /** The room that a file describes. */
  predicate GivenBy(r: Room, snap: Snapshot) {
    && RestoredTree(snap.frame, snap.updatedBy) == Ok(r.tree) && r.meta.content == snap.frame.content
    && r.meta.expiresAt == snap.expiresAt * 1_000_000_000 && r.meta.ttl == snap.ttlSeconds * 1_000_000_000
    && r.meta.updatedAt == snap.updatedAt * 1_000_000_000 && r.meta.updatedBy == snap.updatedBy
    && r.meta.version == snap.version && r.meta.generation == snap.generation && r.meta.lock == LockBack(snap.lock)
    && r.meta.history == if |snap.history| > 20 then snap.history[|snap.history| - 20..] else snap.history
  }

  lemma LoadableIsGiven(f: File, now: int)
    requires Loadable(f, now)
    ensures f.snap.key == f.key && f.snap.ttlSeconds > 0
    ensures now < RestoredRoom(f.snap).meta.expiresAt && GivenBy(RestoredRoom(f.snap), f.snap)
  {
  }

  /** Whatever the directory holds, a loaded room is live, and it is what its own file says. */
  lemma {:induction false} LoadedIsItsFile(s: Shop, files: seq<File>, now: int, key: string) returns (n: nat)
    requires FreshKeys(s, files) && key !in s.rooms && key in LoadAll(s, files, now).rooms
    ensures n < |files| && files[n].key == key == files[n].snap.key && files[n].snap.ttlSeconds > 0
    ensures var r := LoadAll(s, files, now).rooms[key]; now < r.meta.expiresAt && GivenBy(r, files[n].snap)
    decreases |files|
  {
    hide RestoredTree, Total, RoomBytes, GivenBy, RestoredRoom, Loadable, FreshKeys, Covers;
    var next := Handle(s, files[0], now);
    HandleKeepsFresh(s, files, now);
    LoadingOnlyAdds(next, files[1..], now);
    if key in next.rooms {
      n := 0;
      LoadableIsGiven(files[0], now);
    } else {
      var m := LoadedIsItsFile(next, files[1..], now, key);
      n := m + 1;
    }
  }

  /**
   One more file at the end of the directory, whatever came before: it becomes a room
   exactly if it is its key's, has a ttl and has not expired, its document can be had, and
   there is room for it and its bytes. Stopping early at a full store loses nothing.
   */
  lemma {:induction false} LoadsEachThatFits(s: Shop, files: seq<File>, f: File, now: int)
    ensures var before, after := LoadAll(s, files, now), LoadAll(s, files + [f], now);
      var tree := RestoredTree(f.snap.frame, f.snap.updatedBy);
      if f.snap.key == f.key && f.snap.ttlSeconds > 0 && now < f.snap.expiresAt * 1_000_000_000 && tree.Ok? &&
         |before.rooms| < before.maxRooms && Total(before.rooms) + RoomBytes(RestoredRoom(f.snap)) <= before.maxTotal
      then
        GivenBy(RestoredRoom(f.snap), f.snap) &&
        after.rooms == before.rooms[f.key := RestoredRoom(f.snap)]
      else after == before
    decreases |files|
  {
    hide Total, RoomBytes, RestoredTree, RestoredRoom, GivenBy;
    if files == [] {
      assert (files + [f])[1..] == [];
      if Loadable(f, now) { LoadableIsGiven(f, now); }
    } else {
      assert (files + [f])[1..] == files[1..] + [f];
      LoadsEachThatFits(Handle(s, files[0], now), files[1..], f, now);
    }
  }

  /** One file of the pending ones: there is room for it, and for the rest afterwards. */
  lemma HandleSettles(log: Log, s: Shop, pending: map<string, Room>, f: File, now: int)
    requires FileOk(log, pending, f) && f.key !in s.rooms
    requires |s.rooms| < s.maxRooms && Total(s.rooms) + Total(pending) <= s.maxTotal
    ensures var s' := Handle(s, f, now);
      && Settled(s'.rooms, f, now) && |s'.rooms| <= |s.rooms| + 1
      && Total(s'.rooms) + Total(pending - {f.key}) <= s'.maxTotal && s'.maxRooms == s.maxRooms
  {
    hide RoomOk, Agrees, Total, RoomBytes, RestoredRoom, RestoredTree;
    LoadableExactly(log, pending, f, now);
    TotalWithout(pending, f.key);
    var r := RestoredRoom(f.snap);
    TotalWith(s.rooms, f.key, r);
    assert s.rooms[f.key := r].Keys == s.rooms.Keys + {f.key};
  }

  /** With room for everything pending, every file is settled. */
  lemma {:induction false} LoadingSettles(log: Log, s: Shop, pending: map<string, Room>, files: seq<File>, now: int)
    requires FreshKeys(s, files) && forall i :: 0 <= i < |files| ==> FileOk(log, pending, files[i])
    requires |s.rooms| + |files| <= s.maxRooms && Total(s.rooms) + Total(pending) <= s.maxTotal
    ensures forall i :: 0 <= i < |files| ==> Settled(LoadAll(s, files, now).rooms, files[i], now)
    decreases |files|
  {
    hide Total, RoomBytes, RestoredRoom, RoomOk, Agrees, Outlives, Covers, RestoredTree;
    if files != [] {
      var f, rest := files[0], files[1..];
      var next := Handle(s, f, now);
      HandleSettles(log, s, pending, f, now);
      HandleKeepsFresh(s, files, now);
      forall i | 0 <= i < |rest|
        ensures FileOk(log, pending - {f.key}, rest[i])
      {
        assert FileOk(log, pending, files[i + 1]);
      }
      LoadingSettles(log, next, pending - {f.key}, rest, now);
      StaySettled(next, f, rest, now);
      forall i | 0 <= i < |files| ensures Settled(LoadAll(s, files, now).rooms, files[i], now) {
        if i > 0 { assert files[i] == rest[i - 1]; }
      }
    }
  }

  lemma StaySettled(s: Shop, f: File, rest: seq<File>, now: int)
    requires FreshKeys(s, rest) && Settled(s.rooms, f, now) && forall i :: 0 <= i < |rest| ==> rest[i].key != f.key
    ensures Settled(LoadAll(s, rest, now).rooms, f, now)
  {
    hide RestoredRoom, RestoredTree, LoadAll;
    LoadingOnlyAdds(s, rest, now);
  }

  lemma RestartSettles(log: Log, s: Shop, disk: map<string, Snapshot>, files: seq<File>, seed: int, now: int,
      key: string)
    requires ShopOk(log, s) && (forall k :: Synced(s, disk, k)) && ListsDisk(disk, files)
    ensures var rooms' := LoadAll(NewShop(seed, s.maxRooms, s.maxTotal), files, now).rooms;
      && (key in rooms' ==> key in s.rooms)
      && (key in s.rooms ==> key in disk && Settled(rooms', File(key, disk[key]), now) &&
                             Agrees(disk[key], key, s.rooms[key]) && RoomOk(log, key, s.rooms[key]))
  {
    hide RoomOk, Agrees, Total, RoomBytes, RestoredRoom, LoadAll;
    var empty := NewShop(seed, s.maxRooms, s.maxTotal);
    forall i | 0 <= i < |files| ensures FileOk(log, s.rooms, files[i]) {
      assert Synced(s, disk, files[i].key) && RoomHolds(log, s, files[i].key);
    }
    FilesAreFew(s, files);
    EmptyTotal();
    LoadingSettles(log, empty, s.rooms, files, now);
    LoadingOnlyAdds(empty, files, now);
    assert Synced(s, disk, key);
    if key in s.rooms {
      var i :| 0 <= i < |files| && files[i].key == key;
      assert Settled(LoadAll(empty, files, now).rooms, files[i], now) && files[i] == File(key, disk[key]);
      assert FileOk(log, s.rooms, files[i]);
    }
  }

  /**
   Restarting from a disk that agrees with memory, in any directory order: exactly the
   rooms come back whose file has a ttl of a second or more and has not expired, each as
   it was but for the times, the author and the spelled-out scope, which are the file's.
   */
  lemma RestartRestores(log: Log, s: Shop, disk: map<string, Snapshot>, files: seq<File>, seed: int, now: int,
      key: string)
    requires ShopOk(log, s) && (forall k :: Synced(s, disk, k)) && ListsDisk(disk, files)
    ensures var rooms' := LoadAll(NewShop(seed, s.maxRooms, s.maxTotal), files, now).rooms;
      && (key in rooms' <==>
            key in s.rooms && key in disk && disk[key].ttlSeconds > 0 && now < disk[key].expiresAt * 1_000_000_000)
      && (key in rooms' ==> now < rooms'[key].meta.expiresAt)
      && (key in rooms' ==>
            rooms'[key] == Room(s.rooms[key].tree, s.rooms[key].meta.(
              ttl := disk[key].ttlSeconds * 1_000_000_000, expiresAt := disk[key].expiresAt * 1_000_000_000,
              updatedAt := disk[key].updatedAt * 1_000_000_000, updatedBy := disk[key].updatedBy,
              lock := LockBack(s.rooms[key].meta.lock))))
  {
    hide RoomOk, Agrees, Total, RoomBytes, RestoredRoom, LoadAll;
    RestartSettles(log, s, disk, files, seed, now, key);
    if key in s.rooms { RoomSurvivesRestart(log, disk[key], key, s.rooms[key]); }
  }

  lemma EmptyTotal()
    ensures Total(map[]) == 0
  {
  }

  lemma FilesAreFew(s: Shop, files: seq<File>)
    requires forall i :: 0 <= i < |files| ==> files[i].key in s.rooms
    requires forall i, j :: 0 <= i < j < |files| ==> files[i].key != files[j].key
    ensures |files| <= |s.rooms|
  {
    var keys := seq(|files|, i requires 0 <= i < |files| => files[i].key);
    forall k | k in keys ensures k in s.rooms.Keys {
      var i :| 0 <= i < |keys| && keys[i] == k;
      assert files[i].key in s.rooms;
    }
    DistinctBound(keys, s.rooms.Keys);
  }

  lemma {:induction false} LoadingMarksNothing(s: Shop, files: seq<File>, now: int)
    ensures var s' := LoadAll(s, files, now);
      && s'.dirty == s.dirty && s'.deleted == s.deleted && s'.maxRooms == s.maxRooms && s'.maxTotal == s.maxTotal
      && s'.nextGeneration >= s.nextGeneration
    decreases |files|
  {
    hide Total, RoomBytes, RestoredRoom, Loadable;
    if files != [] {
      LoadingMarksNothing(Handle(s, files[0], now), files[1..], now);
      LoadingMarksNothing(s, files[1..], now);
    }
  }

  lemma RestoredIsOk(log: Log, snap: Snapshot, key: string, r: Room)
    requires Agrees(snap, key, r) && RoomOk(log, key, r)
    ensures RestoredTree(snap.frame, snap.updatedBy).Ok? && RoomOk(log, key, RestoredRoom(snap))
  {
    RoomSurvivesRestart(log, snap, key, r);
    SameTrail(log, key, r.meta, RestoredMeta(snap));
  }

  /** The restarted store continues the old one's log and trails exactly when no old generation is still to come. */
  lemma RestartKeeps(log: Log, s: Shop, disk: map<string, Snapshot>, files: seq<File>, seed: int, now: int)
    requires ShopOk(log, s) && (forall k :: Synced(s, disk, k)) && ListsDisk(disk, files)
    ensures var s' := LoadAll(NewShop(seed, s.maxRooms, s.maxTotal), files, now);
      ShopOk(log, s') <==> forall st :: st in log ==> st.generation <= s'.nextGeneration
  {
    hide RoomOk, Agrees, Total, RoomBytes, LoadAll, RestoredTree, RestoredRoom;
    var empty := NewShop(seed, s.maxRooms, s.maxTotal);
    var s' := LoadAll(empty, files, now);
    EmptyTotal();
    assert forall i :: 0 <= i < |files| ==> files[i].key !in empty.rooms;
    LoadingRespectsLimits(empty, files, now);
    LoadingMarksNothing(empty, files, now);
    if forall st :: st in log ==> st.generation <= s'.nextGeneration {
      forall k | k in s'.rooms
        ensures k in s.rooms && StampOf(k, s'.rooms[k]) == StampOf(k, s.rooms[k]) && RoomHolds(log, s', k)
      {
        RestartSettles(log, s, disk, files, seed, now, k);
        RestoredIsOk(log, disk[k], k, s.rooms[k]);
        RoomSurvivesRestart(log, disk[k], k, s.rooms[k]);
        StampInLog(log, k, s'.rooms[k]);
      }
      forall st | st in log ensures Past(s', st) { assert Past(s, st); }
    } else {
      var st :| st in log && st.generation > s'.nextGeneration;
      assert !Past(s', st);
    }
  }

  lemma StampInLog(log: Log, key: string, r: Room)
    requires RoomOk(log, key, r)
    ensures StampOf(key, r) in log
  {
  }

  // ----- the directory afterwards ------------------------------------------------------------------

  /** Among files that fit, exactly those that have run out are removed. */
  lemma {:induction false} DiskAfterExactly(log: Log, s: Shop, pending: map<string, Room>, disk: map<string, Snapshot>,
                                            files: seq<File>, now: int, key: string)
    requires FreshKeys(s, files) && forall i :: 0 <= i < |files| ==> FileOk(log, pending, files[i])
    requires |s.rooms| + |files| <= s.maxRooms && Total(s.rooms) + Total(pending) <= s.maxTotal
    ensures var gone := exists i :: 0 <= i < |files| && files[i].key == key && RunOut(files[i], now);
      (key in DiskAfter(s, disk, files, now) <==> key in disk && !gone) &&
      (key in DiskAfter(s, disk, files, now) ==> DiskAfter(s, disk, files, now)[key] == disk[key])
    decreases |files|
  {
    hide Total, RoomBytes, RestoredRoom, RoomOk, Agrees, RestoredTree;
    if files != [] {
      var f, rest := files[0], files[1..];
      HandleSettles(log, s, pending, f, now);
      HandleKeepsFresh(s, files, now);
      forall i | 0 <= i < |rest|
        ensures FileOk(log, pending - {f.key}, rest[i])
      {
        assert FileOk(log, pending, files[i + 1]);
      }
      var disk1 := if RunOut(f, now) then disk - {f.key} else disk;
      DiskAfterExactly(log, Handle(s, f, now), pending - {f.key}, disk1, rest, now, key);
      GoneMore(files, now, key);
    }
  }

  lemma GoneMore(files: seq<File>, now: int, key: string)
    requires files != []
    ensures (exists i :: 0 <= i < |files| && files[i].key == key && RunOut(files[i], now)) <==>
      (files[0].key == key && RunOut(files[0], now)) ||
      (exists i :: 0 <= i < |files[1..]| && files[1..][i].key == key && RunOut(files[1..][i], now))
  {
    if i :| 0 <= i < |files| && files[i].key == key && RunOut(files[i], now) {
      assert i > 0 ==> files[1..][i - 1] == files[i];
    }
    if i :| 0 <= i < |files[1..]| && files[1..][i].key == key && RunOut(files[1..][i], now) {
      assert files[i + 1] == files[1..][i];
    }
  }

  /** Loading ends at this file: it would become a room, but the room limit is reached. */
  ghost predicate EndsAt(s: Shop, files: seq<File>, j: nat, now: int)
    requires j < |files|
  {
    Loadable(files[j], now) && |LoadAll(s, files[..j], now).rooms| >= s.maxRooms
  }

  /** The file of the key that has run out and is reached. */
  ghost predicate Reached(s: Shop, files: seq<File>, i: nat, now: int, key: string)
    requires i < |files|
  {
    && files[i].key == key == files[i].snap.key && files[i].snap.ttlSeconds > 0
    && files[i].snap.expiresAt * 1_000_000_000 <= now
    && forall j :: 0 <= j < i ==> !EndsAt(s, files, j, now)
  }

  ghost predicate ReachedAny(s: Shop, files: seq<File>, now: int, key: string) {
    exists i :: 0 <= i < |files| && Reached(s, files, i, now, key)
  }

  lemma NothingReached(s: Shop, files: seq<File>, now: int, key: string)
    ensures files == [] ==> !ReachedAny(s, files, now, key)
    ensures files != [] && EndsAt(s, files, 0, now) ==> !ReachedAny(s, files, now, key)
  {
    hide RestoredTree, LoadAll;
    if files != [] && EndsAt(s, files, 0, now) { assert !Reached(s, files, 0, now, key); }
  }

  lemma ReachedFirstOrLater(s: Shop, files: seq<File>, now: int, key: string)
    requires files != [] && !EndsAt(s, files, 0, now)
    ensures ReachedAny(s, files, now, key) <==>
      (files[0].key == key && RunOut(files[0], now)) || ReachedAny(Handle(s, files[0], now), files[1..], now, key)
  {
    hide EndsAt, Handle;
    assert Reached(s, files, 0, now, key) <==> files[0].key == key && RunOut(files[0], now);
    if i :| 0 <= i < |files| && Reached(s, files, i, now, key) {
      if i > 0 { ReachedLater(s, files, i - 1, now, key); }
    }
    if i :| 0 <= i < |files[1..]| && Reached(Handle(s, files[0], now), files[1..], i, now, key) {
      ReachedLater(s, files, i, now, key);
    }
  }

  /** Whatever the directory holds, exactly the files that have run out are removed, as far as loading gets. */
  lemma {:induction false} RemovedExactly(s: Shop, disk: map<string, Snapshot>, files: seq<File>, now: int, key: string)
    ensures var disk' := DiskAfter(s, disk, files, now);
      && (key in disk' <==> key in disk && !ReachedAny(s, files, now, key))
      && (key in disk' ==> disk'[key] == disk[key])
    decreases |files|
  {
    hide RestoredTree, RestoredRoom, Total, RoomBytes, EndsAt, ReachedAny;
    NothingReached(s, files, now, key);
    if files != [] {
      var f, rest := files[0], files[1..];
      EndsAtFirst(s, files, now);
      if !EndsAt(s, files, 0, now) {
        var disk1 := if RunOut(f, now) then disk - {f.key} else disk;
        RemovedExactly(Handle(s, f, now), disk1, rest, now, key);
        ReachedFirstOrLater(s, files, now, key);
      }
    }
  }

  lemma EndsAtFirst(s: Shop, files: seq<File>, now: int)
    requires files != []
    ensures EndsAt(s, files, 0, now) <==> Loadable(files[0], now) && |s.rooms| >= s.maxRooms
  {
    assert files[..0] == [];
  }

  lemma EndsLater(s: Shop, files: seq<File>, j: nat, now: int)
    requires j + 1 < |files| && !EndsAt(s, files, 0, now)
    ensures EndsAt(Handle(s, files[0], now), files[1..], j, now) <==> EndsAt(s, files, j + 1, now)
  {
    hide RestoredTree, RestoredRoom, Total, RoomBytes;
    EndsAtFirst(s, files, now);
    assert files[..j + 1][0] == files[0] && files[..j + 1][1..] == files[1..][..j];
  }

  lemma ReachedLater(s: Shop, files: seq<File>, i: nat, now: int, key: string)
    requires i + 1 < |files| && !EndsAt(s, files, 0, now)
    ensures Reached(Handle(s, files[0], now), files[1..], i, now, key) <==> Reached(s, files, i + 1, now, key)
  {
    hide EndsAt, Handle;
    forall j | 0 <= j < i
      ensures EndsAt(Handle(s, files[0], now), files[1..], j, now) <==> EndsAt(s, files, j + 1, now)
    {
      EndsLater(s, files, j, now);
    }
    if Reached(Handle(s, files[0], now), files[1..], i, now, key) {
      forall j | 0 <= j < i + 1 ensures !EndsAt(s, files, j, now) {
        if j > 0 { assert !EndsAt(Handle(s, files[0], now), files[1..], j - 1, now); }
      }
    }
  }

  lemma RestartLeavesFiles(log: Log, s: Shop, disk: map<string, Snapshot>, files: seq<File>, seed: int, now: int,
      key: string)
    requires ShopOk(log, s) && (forall k :: Synced(s, disk, k)) && ListsDisk(disk, files)
    ensures var disk' := DiskAfter(NewShop(seed, s.maxRooms, s.maxTotal), disk, files, now);
      && (key in disk' <==> key in disk && !RunOut(File(key, disk[key]), now))
      && (key in disk' ==> disk'[key] == disk[key])
  {
    hide RoomOk, Agrees, Total, RoomBytes, RestoredRoom, RunOut, DiskAfter;
    var empty := NewShop(seed, s.maxRooms, s.maxTotal);
    forall i | 0 <= i < |files| ensures FileOk(log, s.rooms, files[i]) {
      assert Synced(s, disk, files[i].key) && RoomHolds(log, s, files[i].key);
    }
    FilesAreFew(s, files);
    EmptyTotal();
    DiskAfterExactly(log, empty, s.rooms, disk, files, now, key);
    if key in disk {
      var i :| 0 <= i < |files| && files[i].key == key;
      assert files[i] == File(key, disk[key]);
    }
  }

  /** What a restart leaves different on disk and in memory: lifetimes under a second, and locks without a scope. */
  predicate Unsettled(snap: Snapshot, now: int) {
    snap.ttlSeconds <= 0 || (now < snap.expiresAt * 1_000_000_000 && snap.lock.Locked? && snap.lock.scope == "")
  }

  lemma RestoredAgrees(log: Log, snap: Snapshot, key: string, r: Room)
    requires Agrees(snap, key, r) && RoomOk(log, key, r)
    ensures RestoredTree(snap.frame, snap.updatedBy).Ok?
    ensures Agrees(snap, key, RestoredRoom(snap)) <==> ScopedLock(snap.lock) == snap.lock
  {
    RoomSurvivesRestart(log, snap, key, r);
    TruncatesBack(r.meta.ttl);
  }

  lemma TruncatesBack(ttl: int)
    ensures WholeSeconds(WholeSeconds(ttl) * NANOS_PER_SECOND) == WholeSeconds(ttl)
  {
  }

  /**
   After a restart from a disk that agreed with memory, the new store and the remaining
   files agree on a key exactly unless its file is of those two kinds.
   */
  lemma RestartSyncsExactlyWhen(log: Log, s: Shop, disk: map<string, Snapshot>, files: seq<File>, seed: int, now: int,
                                key: string)
    requires ShopOk(log, s) && (forall k :: Synced(s, disk, k)) && ListsDisk(disk, files)
    ensures var empty := NewShop(seed, s.maxRooms, s.maxTotal);
      Synced(LoadAll(empty, files, now), DiskAfter(empty, disk, files, now), key) <==>
      (key in disk ==> !Unsettled(disk[key], now))
  {
    hide RoomOk, Agrees, Total, RoomBytes, RestoredRoom, RestoredTree, LoadAll, DiskAfter;
    RestartSettles(log, s, disk, files, seed, now, key);
    RestartLeavesFiles(log, s, disk, files, seed, now, key);
    assert Synced(s, disk, key);
    if key in s.rooms {
      RestoredAgrees(log, disk[key], key, s.rooms[key]);
      AgreesOnKey(disk[key], key, s.rooms[key]);
    }
  }

  lemma AgreesOnKey(snap: Snapshot, key: string, r: Room)
    requires Agrees(snap, key, r)
    ensures snap.key == key
  {
  }

  /** Then the next process starts where `Persistence.DiskFollowsMemory` starts, with the same log. */
  lemma RestartStartsInOrder(log: Log, s: Shop, disk: map<string, Snapshot>, files: seq<File>, seed: int, now: int)
    requires ShopOk(log, s) && (forall k :: Synced(s, disk, k)) && ListsDisk(disk, files)
    requires forall k :: k in disk ==> !Unsettled(disk[k], now)
    requires forall st :: st in log ==> st.generation <= seed
    ensures var empty := NewShop(seed, s.maxRooms, s.maxTotal);
      var s', disk' := LoadAll(empty, files, now), DiskAfter(empty, disk, files, now);
      && WorldOk(log, World(s', disk', Idle)) && Quiescent(World(s', disk', Idle)) && forall k :: Synced(s', disk', k)
  {
    hide ShopOk, Synced, LoadAll, DiskAfter, Unsettled, ListsDisk;
    var empty := NewShop(seed, s.maxRooms, s.maxTotal);
    var s', disk' := LoadAll(empty, files, now), DiskAfter(empty, disk, files, now);
    LoadingMarksNothing(empty, files, now);
    RestartKeeps(log, s, disk, files, seed, now);
    forall k ensures Synced(s', disk', k) { RestartSyncsExactlyWhen(log, s, disk, files, seed, now, k); }
    forall k ensures KeyOk(World(s', disk', Idle), k) {}
  }
}
