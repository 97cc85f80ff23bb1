/**
 What every run of store operations keeps: the capacity limits, the stamps and the
 documents behind them, the version trail, and the marks the persister lives on
 (internal/store/store.go, internal/store/persist.go:77-91).
 */
module ShopLaws {
  import opened Sequences
  import opened Ids
  import opened Rga
  import opened Ops
  import opened Views
  import opened Chains
  import opened Wire
  import opened Docs
  import opened Rooms
  import opened Shops

  // ----- the budget -----------------------------------------------------------------------

  lemma {:induction false} TotalWithout(rooms: map<string, Room>, key: string)
    requires key in rooms
    ensures Total(rooms) == RoomBytes(rooms[key]) + Total(rooms - {key})
    decreases rooms
  {
    var k :| k in rooms && Total(rooms) == RoomBytes(rooms[k]) + Total(rooms - {k});
    if k != key {
      TotalWithout(rooms - {k}, key);
      TotalWithout(rooms - {key}, k);
      assert rooms - {k} - {key} == rooms - {key} - {k};
    }
  }

  lemma TotalWith(rooms: map<string, Room>, key: string, r: Room)
    ensures Total(rooms[key := r]) ==
      Total(rooms) + RoomBytes(r) - if key in rooms then RoomBytes(rooms[key]) else 0
  {
    TotalWithout(rooms[key := r], key);
    assert rooms[key := r] - {key} == rooms - {key};
    if key in rooms { TotalWithout(rooms, key); } else { assert rooms - {key} == rooms; }
  }

  lemma TotalDrops(rooms: map<string, Room>, key: string)
    ensures Total(rooms - {key}) <= Total(rooms)
  {
    if key in rooms { TotalWithout(rooms, key); } else { assert rooms - {key} == rooms; }
  }

  lemma {:induction false} TotalShrinks(rooms: map<string, Room>, gone: set<string>)
    ensures Total(rooms - gone) <= Total(rooms)
    decreases gone
  {
    if gone == {} {
      assert rooms - gone == rooms;
    } else {
      var k :| k in gone;
      TotalShrinks(rooms, gone - {k});
      TotalDrops(rooms - (gone - {k}), k);
      assert rooms - gone == rooms - (gone - {k}) - {k};
    }
  }

  // ----- the invariant --------------------------------------------------------------------------

  predicate StampLe(a: RoomStamp, b: RoomStamp) {
    a.generation < b.generation || (a.generation == b.generation && a.version <= b.version)
  }

  ghost predicate Past(s: Shop, st: RoomStamp) {
    st.generation <= s.nextGeneration &&
    (st.key in s.rooms ==> StampLe(st, StampOf(st.key, s.rooms[st.key])))
  }

  ghost predicate RoomHolds(log: Log, s: Shop, key: string)
    requires key in s.rooms
  {
    RoomOk(log, key, s.rooms[key]) && s.rooms[key].meta.generation <= s.nextGeneration
  }

  ghost predicate Marked(s: Shop, key: string) {
    key in s.dirty || key in s.deleted
  }

  /** A live room whose key is marked deleted was created again since, and is marked dirty too. */
  ghost predicate MarksOk(s: Shop) {
    forall k :: k in s.rooms && k in s.deleted ==> k in s.dirty
  }

  ghost predicate AllHold(log: Log, s: Shop) {
    forall k :: k in s.rooms ==> RoomHolds(log, s, k)
  }

  ghost predicate AllPast(log: Log, s: Shop) {
    forall st :: st in log ==> Past(s, st)
  }

  ghost predicate ShopOk(log: Log, s: Shop) {
    |s.rooms| <= s.maxRooms && Total(s.rooms) <= s.maxTotal && AllHold(log, s) && AllPast(log, s) && MarksOk(s)
  }

  /** What may happen to one key between two moments of a run. */
  ghost predicate KeyAdvances(s: Shop, s': Shop, key: string) {
    && (Marked(s, key) ==> Marked(s', key))
    && ((key in s.rooms) != (key in s'.rooms) ==> Marked(s', key))
    && (key in s.rooms && key in s'.rooms ==>
          var r, r' := s.rooms[key], s'.rooms[key];
          && (Durable(r) != Durable(r') ==> Marked(s', key))
          && StampLe(StampOf(key, r), StampOf(key, r'))
          && (StampOf(key, r) == StampOf(key, r') ==> r.tree == r'.tree))
    && (key !in s.rooms && key in s'.rooms ==> s'.rooms[key].meta.generation > s.nextGeneration)
  }

  ghost predicate Advances(s: Shop, s': Shop) {
    && s'.maxRooms == s.maxRooms && s'.maxTotal == s.maxTotal && s.nextGeneration <= s'.nextGeneration
    && forall k {:trigger KeyAdvances(s, s', k)} :: KeyAdvances(s, s', k)
  }

  lemma AdvancesReflexive(s: Shop)
    ensures Advances(s, s)
  {
  }

  lemma AdvancesTransitive(log: Log, s: Shop, m: Shop, s': Shop)
    requires ShopOk(log, s) && Advances(s, m) && Advances(m, s')
    ensures Advances(s, s')
  {
    forall k ensures KeyAdvances(s, s', k) {
      assert KeyAdvances(s, m, k) && KeyAdvances(m, s', k);
      assert k in s.rooms ==> RoomHolds(log, s, k);
    }
  }

  // ----- the steps --------------------------------------------------------------------------------

  lemma RemovalKeeps(log: Log, s: Shop, gone: set<string>, s': Shop)
    requires ShopOk(log, s)
    requires s' == s.(rooms := s.rooms - gone, dirty := s.dirty - gone, deleted := s.deleted + gone)
    ensures ShopOk(log, s') && Advances(s, s')
  {
    TotalShrinks(s.rooms, gone);
    SubsetCardinality(s'.rooms.Keys, s.rooms.Keys);
    RemovalHolds(log, s, s');
    forall k ensures KeyAdvances(s, s', k) {}
  }

  lemma RemovalHolds(log: Log, s: Shop, s': Shop)
    requires AllHold(log, s) && AllPast(log, s) && s.nextGeneration <= s'.nextGeneration
    requires forall k :: k in s'.rooms ==> k in s.rooms && s'.rooms[k] == s.rooms[k]
    ensures AllHold(log, s') && AllPast(log, s')
  {
    forall k | k in s'.rooms ensures RoomHolds(log, s', k) { assert RoomHolds(log, s, k); }
    forall st | st in log ensures Past(s', st) { assert Past(s, st); }
  }

  lemma LiveKeeps(log: Log, s: Shop, key: string, now: int)
    requires ShopOk(log, s)
    ensures ShopOk(log, Live(s, key, now)) && Advances(s, Live(s, key, now))
  {
    if Live(s, key, now) != s { RemovalKeeps(log, s, {key}, Live(s, key, now)); }
  }

  lemma CountedKeeps(log: Log, s: Shop, generation: int)
    requires ShopOk(log, s)
    ensures ShopOk(log, Counted(s, generation)) && Advances(s, Counted(s, generation))
  {
    var s' := Counted(s, generation);
    RemovalHolds(log, s, s');
    forall k ensures KeyAdvances(s, s', k) {}
  }

  ghost function Noted(log: Log, key: string, r: Room): Log {
    log[StampOf(key, r) := r.tree]
  }

  ghost function Written(s: Shop, key: string, r: Room, marked: bool): Shop {
    Installed(Counted(s, r.meta.generation), key, r, marked)
  }

  /** `r` may follow what `s` holds under `key`. */
  ghost predicate Follows(s: Shop, key: string, r: Room, marked: bool) {
    if key in s.rooms then
      var before := s.rooms[key];
      && r.meta.generation == before.meta.generation
      && (r.meta.version > before.meta.version || (r.meta.version == before.meta.version && r.tree == before.tree))
      && (!marked ==> Durable(r) == Durable(before))
    else
      marked && r.meta.generation > s.nextGeneration
  }

  lemma NotedExtends(log: Log, s: Shop, key: string, r: Room, marked: bool)
    requires AllPast(log, s) && Follows(s, key, r, marked)
    requires key in s.rooms ==> RoomHolds(log, s, key)
    ensures Extends(log, Noted(log, key, r))
  {
    var st := StampOf(key, r);
    assert st in log ==> Past(s, st);
  }

  lemma WrittenAdvances(s: Shop, key: string, r: Room, marked: bool)
    requires Follows(s, key, r, marked)
    ensures Advances(s, Written(s, key, r, marked))
  {
    forall k ensures KeyAdvances(s, Written(s, key, r, marked), k) {}
  }

  lemma WrittenIsPast(log: Log, s: Shop, key: string, r: Room, marked: bool)
    requires AllPast(log, s) && Follows(s, key, r, marked)
    ensures AllPast(Noted(log, key, r), Written(s, key, r, marked))
  {
    forall st | st in Noted(log, key, r) ensures Past(Written(s, key, r, marked), st) {
      assert st in log ==> Past(s, st);
    }
  }

  lemma WrittenHolds(log: Log, s: Shop, key: string, r: Room, marked: bool)
    requires AllHold(log, s) && Extends(log, Noted(log, key, r)) && RoomOk(Noted(log, key, r), key, r)
    ensures AllHold(Noted(log, key, r), Written(s, key, r, marked))
  {
    forall k | k in s.rooms ensures RoomOk(Noted(log, key, r), k, s.rooms[k]) {
      assert RoomHolds(log, s, k);
      RoomSurvives(log, Noted(log, key, r), k, s.rooms[k]);
    }
    forall k | k in Written(s, key, r, marked).rooms
      ensures RoomHolds(Noted(log, key, r), Written(s, key, r, marked), k)
    {
      assert k in s.rooms ==> RoomHolds(log, s, k);
    }
  }

  lemma WrittenFits(s: Shop, key: string, r: Room, marked: bool)
    requires |s.rooms| <= s.maxRooms && Total(s.rooms) <= s.maxTotal && Fits(s, key, r).None?
    ensures var s' := Written(s, key, r, marked); |s'.rooms| <= s'.maxRooms && Total(s'.rooms) <= s'.maxTotal
  {
    TotalWith(s.rooms, key, r);
    var rooms' := s.rooms[key := r];
    if key in s.rooms { assert rooms'.Keys == s.rooms.Keys; } else { assert rooms'.Keys == s.rooms.Keys + {key}; }
  }

  lemma WrittenKeeps(log: Log, s: Shop, key: string, r: Room, marked: bool)
    requires ShopOk(log, s) && Follows(s, key, r, marked)
    requires RoomOk(Noted(log, key, r), key, r) && Fits(s, key, r).None?
    ensures var log', s' := Noted(log, key, r), Written(s, key, r, marked);
      ShopOk(log', s') && Extends(log, log') && Advances(s, s')
  {
    NotedExtends(log, s, key, r, marked);
    WrittenAdvances(s, key, r, marked);
    WrittenIsPast(log, s, key, r, marked);
    WrittenHolds(log, s, key, r, marked);
    WrittenFits(s, key, r, marked);
  }

  // ----- the log of published documents --------------------------------------------------------------

  ghost function Stamps(rooms: map<string, Room>): set<RoomStamp> {
    set k | k in rooms :: StampOf(k, rooms[k])
  }

  /** Adds the documents of all live rooms under their stamps. */
  ghost function Record(log: Log, s: Shop): Log {
    log + map st | st in Stamps(s.rooms) && st.key in s.rooms :: s.rooms[st.key].tree
  }

  lemma NothingToRecord(log: Log, s: Shop)
    requires AllHold(log, s)
    ensures Record(log, s) == log
  {
    forall st | st in Stamps(s.rooms) ensures st in log && log[st] == s.rooms[st.key].tree {
      var k :| k in s.rooms && st == StampOf(k, s.rooms[k]);
      assert RoomHolds(log, s, k);
    }
  }

  lemma RecordsTheWritten(log: Log, s: Shop, key: string, r: Room, marked: bool)
    requires AllHold(log, s) && Extends(log, Noted(log, key, r))
    ensures Record(log, Written(s, key, r, marked)) == Noted(log, key, r)
  {
    var rooms' := Written(s, key, r, marked).rooms;
    assert key in rooms' && StampOf(key, rooms'[key]) in Stamps(rooms');
    forall st | st in Stamps(rooms') ensures st in Noted(log, key, r) && Noted(log, key, r)[st] == rooms'[st.key].tree {
      var k :| k in rooms' && st == StampOf(k, rooms'[k]);
      assert k != key ==> RoomHolds(log, s, k);
    }
    assert forall st :: st in log ==> st in Noted(log, key, r);
  }

  /** What one critical section keeps, seen with the log of documents published before it. */
  ghost predicate Keeps(log: Log, s: Shop, s': Shop) {
    var log' := Record(log, s');
    ShopOk(log', s') && Extends(log, log') && Advances(s, s')
  }

  lemma SettledKeeps(log: Log, s: Shop, s': Shop)
    requires ShopOk(log, s') && Advances(s, s')
    ensures Keeps(log, s, s')
  {
    NothingToRecord(log, s');
  }

  lemma WriteKeeps(log: Log, s: Shop, key: string, r: Room, marked: bool)
    requires ShopOk(log, s) && Follows(s, key, r, marked)
    requires RoomOk(Noted(log, key, r), key, r) && Fits(s, key, r).None?
    ensures Keeps(log, s, Written(s, key, r, marked))
  {
    WrittenKeeps(log, s, key, r, marked);
    RecordsTheWritten(log, s, key, r, marked);
  }

  lemma KeepsAfterLive(log: Log, s0: Shop, key: string, now: int, s': Shop)
    requires ShopOk(log, s0) && Keeps(log, Live(s0, key, now), s')
    ensures Keeps(log, s0, s')
  {
    LiveKeeps(log, s0, key, now);
    AdvancesTransitive(log, s0, Live(s0, key, now), s');
  }

  // ----- rooms the operations write ----------------------------------------------------------------------

  /** A new generation is the least positive one above the last. */
  lemma LeastNewGeneration(last: int, other: int)
    ensures NewGeneration(last) > last && NewGeneration(last) >= 1
    ensures other > last && other >= 1 ==> NewGeneration(last) <= other
  {
  }

  lemma KnownGeneration(log: Log, s: Shop, key: string)
    requires ShopOk(log, s)
    ensures var g := GenerationFor(s, key);
      g >= 1 && if key in s.rooms then g == s.rooms[key].meta.generation && g <= s.nextGeneration
        else g > s.nextGeneration
  {
    assert key in s.rooms ==> RoomHolds(log, s, key);
  }

  /** Same document, text and trail under the same or the next version. */
  lemma RetouchedIsOk(log: Log, s: Shop, key: string, m: Meta, marked: bool)
    requires ShopOk(log, s) && key in s.rooms
    requires var o := s.rooms[key].meta;
      m.content == o.content && m.history == o.history && m.generation == o.generation &&
      (m.version == o.version || m.version == o.version + 1)
    requires !marked ==> Durable(Room(s.rooms[key].tree, m)) == Durable(s.rooms[key])
    ensures var r := Room(s.rooms[key].tree, m);
      Follows(s, key, r, marked) && RoomOk(Noted(log, key, r), key, r) && Fits(s, key, r).None?
  {
    var o, r := s.rooms[key].meta, Room(s.rooms[key].tree, m);
    assert RoomHolds(log, s, key);
    NotedExtends(log, s, key, r, marked);
    TrailSurvives(log, Noted(log, key, r), key, o, m.version);
    SameTrail(Noted(log, key, r), key, o.(version := m.version), m);
  }

  lemma SameTrail(log: Log, key: string, m: Meta, m': Meta)
    requires TrailOk(log, key, m)
    requires m'.history == m.history && m'.generation == m.generation && m'.version == m.version
    ensures TrailOk(log, key, m')
  {
  }

  /** A new document under the next version, or as the first version of a new incarnation. */
  lemma RewrittenTrail(log: Log, s: Shop, key: string, r: Room)
    requires ShopOk(log, s) && r.meta.generation == GenerationFor(s, key)
    requires if key in s.rooms then r.meta.version == s.rooms[key].meta.version + 1 &&
      r.meta.history == s.rooms[key].meta.history
      else r.meta.version == 1 && r.meta.history == []
    ensures Follows(s, key, r, true) && TrailOk(Noted(log, key, r), key, r.meta)
  {
    KnownGeneration(log, s, key);
    if key in s.rooms {
      assert RoomHolds(log, s, key);
      NotedExtends(log, s, key, r, true);
      TrailSurvives(log, Noted(log, key, r), key, s.rooms[key].meta, r.meta.version);
      SameTrail(Noted(log, key, r), key, s.rooms[key].meta.(version := r.meta.version), r.meta);
    }
  }

  lemma CapturedIsOk(log: Log, key: string, r: Room, manual: bool, later: int)
    requires WellFormed(r.tree) && r.meta.content == Text(r.tree) && Utf8Length(r.meta.content) <= MAX_CONTENT_BYTES
    requires r.meta.version >= 1 && r.meta.generation >= 1 && TrailOk(Noted(log, key, r), key, r.meta)
    ensures var r' := WithHistory(r, manual, later); RoomOk(Noted(log, key, r'), key, r')
  {
    CaptureKeepsTrail(Noted(log, key, r), key, r.meta, manual, later / NANOS_PER_MILLI);
  }

  lemma AdmitKeeps(log: Log, s: Shop, key: string, r: Room, changed: bool)
    requires ShopOk(log, s) && Follows(s, key, r, true) && RoomOk(Noted(log, key, r), key, r)
    ensures Keeps(log, s, Admit(Counted(s, r.meta.generation), key, r, changed).shop)
  {
    var counted := Counted(s, r.meta.generation);
    CountedKeeps(log, s, r.meta.generation);
    if Fits(counted, key, r).None? { WriteKeeps(log, s, key, r, true); } else { SettledKeeps(log, s, counted); }
  }

  // ----- the operations -----------------------------------------------------------------------------------

  lemma SaveTreeSpells(author: string, content: string)
    ensures WellFormed(SaveTree(author, content)) && Text(SaveTree(author, content)) == content
  {
    ChainText(SERVER_SITE, content);
    var site := if author == "" then SERVER_SITE else author;
    if content == "" { EmptyItemsEmptyTree(EMPTY); EmptyIsWellFormed(); }
    else if ValidSite(site) { ChainText(site, content); }
  }

  lemma RefreshKeeps(log: Log, s: Shop, key: string, ttl: int, author: string, claim: Lock, now: int)
    requires ShopOk(log, s) && key in s.rooms && s.rooms[key].meta.ttl == ttl
    ensures Keeps(log, s, Refresh(s, key, ttl, author, claim, now).shop)
  {
    KnownGeneration(log, s, key);
    var turn := Refresh(s, key, ttl, author, claim, now);
    var r := turn.reply.room.value;
    var claims := s.rooms[key].meta.lock.Unlocked? && claim.Locked?;
    RetouchedIsOk(log, s, key, r.meta, claims);
    WriteKeeps(log, s, key, r, claims);
    assert turn.shop == Written(s, key, r, claims);
  }

  lemma ReplaceKeeps(log: Log, s: Shop, key: string, content: string, ttl: int, author: string, claim: Lock, now: int,
                     later: int)
    requires ShopOk(log, s) && Utf8Length(content) <= MAX_CONTENT_BYTES
    ensures Keeps(log, s, Replace(s, key, content, ttl, author, claim, now, later).shop)
  {
    var m := NextMeta(s, key, content, ttl, author, now);
    var r := Room(SaveTree(author, content), m.(lock := ClaimedLock(m.lock, claim)));
    SaveTreeSpells(author, content);
    RewriteKeeps(log, s, key, r, later, true);
  }

  lemma RewriteKeeps(log: Log, s: Shop, key: string, r: Room, later: int, changed: bool)
    requires ShopOk(log, s) && r.meta.generation == GenerationFor(s, key)
    requires if key in s.rooms then r.meta.version == s.rooms[key].meta.version + 1 &&
      r.meta.history == s.rooms[key].meta.history
      else r.meta.version == 1 && r.meta.history == []
    requires WellFormed(r.tree) && r.meta.content == Text(r.tree) && Utf8Length(r.meta.content) <= MAX_CONTENT_BYTES
    ensures Keeps(log, s, Admit(Counted(s, r.meta.generation), key, WithHistory(r, false, later), changed).shop)
    ensures Keeps(log, s, Admit(Counted(s, r.meta.generation), key, r, changed).shop)
  {
    KnownGeneration(log, s, key);
    assert key in s.rooms ==> RoomHolds(log, s, key);
    RewrittenTrail(log, s, key, r);
    CapturedIsOk(log, key, r, false, later);
    AdmitKeeps(log, s, key, r, changed);
    AdmitKeeps(log, s, key, WithHistory(r, false, later), changed);
  }

  lemma SaveLiveKeeps(log: Log, s: Shop, key: string, content: string, ttl: int, author: string, base: int, claim: Lock,
                      allowed: bool, now: int, later: int)
    requires ShopOk(log, s) && Utf8Length(content) <= MAX_CONTENT_BYTES
    ensures Keeps(log, s, SaveLive(s, key, content, ttl, author, base, claim, allowed, now, later).shop)
  {
    if SaveLive(s, key, content, ttl, author, base, claim, allowed, now, later).shop == s {
      SettledKeeps(log, s, s);
    } else if key in s.rooms && s.rooms[key].meta.content == content && s.rooms[key].meta.ttl == ttl {
      RefreshKeeps(log, s, key, ttl, author, claim, now);
    } else {
      ReplaceKeeps(log, s, key, content, ttl, author, claim, now, later);
    }
  }

  lemma SaveKeeps(log: Log, s0: Shop, key: string, content: string, ttl: int, author: string, base: int, claim: Lock,
                  allowed: bool, now: int, later: int)
    requires ShopOk(log, s0)
    ensures Keeps(log, s0, SaveTurn(s0, key, content, ttl, author, base, claim, allowed, now, later).shop)
  {
    if Utf8Length(content) > MAX_CONTENT_BYTES { SettledKeeps(log, s0, s0); return; }
    LiveKeeps(log, s0, key, now);
    SaveLiveKeeps(log, Live(s0, key, now), key, content, ttl, author, base, claim, allowed, now, later);
    KeepsAfterLive(log, s0, key, now, SaveTurn(s0, key, content, ttl, author, base, claim, allowed, now, later).shop);
  }

  lemma TouchedKeeps(log: Log, s: Shop, key: string, ttl: int, author: string, now: int)
    requires ShopOk(log, s) && key in s.rooms
    ensures Keeps(log, s, Touched(s, key, ttl, author, now).shop)
  {
    KnownGeneration(log, s, key);
    var turn := Touched(s, key, ttl, author, now);
    var r := turn.reply.room.value;
    var changes := TtlFor(s, key, ttl) != s.rooms[key].meta.ttl;
    RetouchedIsOk(log, s, key, r.meta, changes);
    WriteKeeps(log, s, key, r, changes);
    assert turn.shop == Written(s, key, r, changes);
  }

  lemma TreesHold(log: Log, s: Shop)
    requires AllHold(log, s)
    ensures TreesOk(s)
  {
    forall k | k in s.rooms ensures WellFormed(s.rooms[k].tree) { assert RoomHolds(log, s, k); }
  }

  lemma ApplyLiveKeeps(log: Log, s: Shop, key: string, ops: seq<Op>, ttl: int, author: string, allowed: bool, now: int,
                       later: int)
    requires ShopOk(log, s) && TreesOk(s)
    ensures Keeps(log, s, ApplyLive(s, key, ops, ttl, author, allowed, now, later).shop)
  {
    EmptyIsWellFormed();
    var shop := ApplyLive(s, key, ops, ttl, author, allowed, now, later).shop;
    var before, counted := TreeAt(s, key), Counted(s, GenerationFor(s, key));
    BatchStays(before, ops);
    var out := BatchOutcome(before, ops);
    if shop == s {
      SettledKeeps(log, s, s);
    } else if shop == counted {
      CountedKeeps(log, s, GenerationFor(s, key));
      SettledKeeps(log, s, counted);
    } else if !out.changed && key in s.rooms {
      TouchedKeeps(log, s, key, ttl, author, now);
    } else {
      var r := Room(out.tree, NextMeta(s, key, Text(out.tree), TtlFor(s, key, ttl), author, now));
      RewriteKeeps(log, s, key, r, later, out.changed);
    }
  }

  lemma ApplyKeeps(log: Log, s0: Shop, key: string, ops: seq<Op>, ttl: int, author: string, allowed: bool, now: int,
                   later: int)
    requires ShopOk(log, s0) && TreesOk(s0)
    ensures Keeps(log, s0, ApplyTurn(s0, key, ops, ttl, author, allowed, now, later).shop)
  {
    LiveKeeps(log, s0, key, now);
    TreesHold(log, Live(s0, key, now));
    ApplyLiveKeeps(log, Live(s0, key, now), key, ops, ttl, author, allowed, now, later);
    KeepsAfterLive(log, s0, key, now, ApplyTurn(s0, key, ops, ttl, author, allowed, now, later).shop);
  }

  lemma RelockedKeeps(log: Log, s: Shop, key: string, lock: Lock, later: int)
    requires ShopOk(log, s) && key in s.rooms
    ensures var m := s.rooms[key].meta;
      Keeps(log, s, Installed(s, key,
        Room(s.rooms[key].tree, m.(lock := lock, version := m.version + 1, updatedAt := later)), true))
  {
    var m := s.rooms[key].meta;
    var r := Room(s.rooms[key].tree, m.(lock := lock, version := m.version + 1, updatedAt := later));
    KnownGeneration(log, s, key);
    RetouchedIsOk(log, s, key, r.meta, true);
    WriteKeeps(log, s, key, r, true);
    assert RoomHolds(log, s, key);
    assert Installed(s, key, r, true) == Written(s, key, r, true);
  }

  lemma SetPasswordShape(s: Shop, key: string, currentOk: bool, next: Secret, scope: string, later: int)
    returns (rewrites: bool)
    ensures rewrites ==> key in s.rooms
    ensures SetPasswordLive(s, key, currentOk, next, scope, later).shop ==
      if !rewrites then s else
        var m := s.rooms[key].meta;
        Installed(s, key, Room(s.rooms[key].tree,
                               m.(lock := Relock(m.lock, next, scope), version := m.version + 1,
                                  updatedAt := later)), true)
  {
    rewrites := SetPasswordLive(s, key, currentOk, next, scope, later).reply.Granted? &&
      SetPasswordLive(s, key, currentOk, next, scope, later).reply.changed;
  }

  lemma SetPasswordLiveKeeps(log: Log, s: Shop, key: string, currentOk: bool, next: Secret, scope: string, later: int)
    requires ShopOk(log, s)
    ensures Keeps(log, s, SetPasswordLive(s, key, currentOk, next, scope, later).shop)
  {
    var rewrites := SetPasswordShape(s, key, currentOk, next, scope, later);
    if rewrites { RelockedKeeps(log, s, key, Relock(s.rooms[key].meta.lock, next, scope), later); }
    else { SettledKeeps(log, s, s); }
  }

  lemma SetPasswordKeeps(log: Log, s0: Shop, key: string, currentOk: bool, next: Secret, scope: string, now: int,
                         later: int)
    requires ShopOk(log, s0)
    ensures Keeps(log, s0, SetPasswordTurn(s0, key, currentOk, next, scope, now, later).shop)
  {
    LiveKeeps(log, s0, key, now);
    SetPasswordLiveKeeps(log, Live(s0, key, now), key, currentOk, next, scope, later);
    KeepsAfterLive(log, s0, key, now, SetPasswordTurn(s0, key, currentOk, next, scope, now, later).shop);
  }

  /** A held room can be written again as it is: its own stamp is in the log already. */
  lemma HeldIsOk(log: Log, s: Shop, key: string)
    requires ShopOk(log, s) && key in s.rooms
    ensures var r := s.rooms[key];
      && RoomOk(Noted(log, key, r), key, r) && Follows(s, key, r, true)
      && 1 <= r.meta.generation <= s.nextGeneration
  {
    var r := s.rooms[key];
    assert RoomHolds(log, s, key);
    NotedExtends(log, s, key, r, true);
    RoomSurvives(log, Noted(log, key, r), key, r);
  }

  lemma RecapturedKeeps(log: Log, s: Shop, key: string, later: int)
    requires ShopOk(log, s) && key in s.rooms
    ensures Keeps(log, s, Admit(s, key, WithHistory(s.rooms[key], true, later), true).shop)
  {
    HeldIsOk(log, s, key);
    CapturedIsOk(log, key, s.rooms[key], true, later);
    AdmitKeeps(log, s, key, WithHistory(s.rooms[key], true, later), true);
  }

  lemma CaptureLiveKeeps(log: Log, s: Shop, key: string, allowed: bool, later: int)
    requires ShopOk(log, s)
    ensures Keeps(log, s, CaptureLive(s, key, allowed, later).shop)
  {
    if key !in s.rooms || Barred(s, key, allowed) || WithHistory(s.rooms[key], true, later) == s.rooms[key] {
      SettledKeeps(log, s, s);
    } else { RecapturedKeeps(log, s, key, later); }
  }

  lemma CaptureKeeps(log: Log, s0: Shop, key: string, allowed: bool, now: int, later: int)
    requires ShopOk(log, s0)
    ensures Keeps(log, s0, CaptureTurn(s0, key, allowed, now, later).shop)
  {
    LiveKeeps(log, s0, key, now);
    CaptureLiveKeeps(log, Live(s0, key, now), key, allowed, later);
    KeepsAfterLive(log, s0, key, now, CaptureTurn(s0, key, allowed, now, later).shop);
  }

  lemma ClearedIsOk(log: Log, key: string, r: Room)
    requires RoomOk(Noted(log, key, r), key, r)
    ensures var r' := r.(meta := r.meta.(history := []));
      RoomOk(Noted(log, key, r'), key, r') && RoomBytes(r') <= RoomBytes(r)
  {
  }

  lemma ClearedKeeps(log: Log, s: Shop, key: string)
    requires ShopOk(log, s) && key in s.rooms
    ensures Keeps(log, s, Installed(s, key, s.rooms[key].(meta := s.rooms[key].meta.(history := [])), true))
  {
    var r := s.rooms[key].(meta := s.rooms[key].meta.(history := []));
    HeldIsOk(log, s, key);
    ClearedIsOk(log, key, s.rooms[key]);
    WriteKeeps(log, s, key, r, true);
    assert Installed(s, key, r, true) == Written(s, key, r, true);
  }

  lemma ClearLiveKeeps(log: Log, s: Shop, key: string, allowed: bool)
    requires ShopOk(log, s)
    ensures Keeps(log, s, ClearLive(s, key, allowed).shop)
  {
    if key !in s.rooms || Barred(s, key, allowed) || s.rooms[key].meta.history == [] {
      SettledKeeps(log, s, s);
    } else {
      ClearedKeeps(log, s, key);
    }
  }

  lemma ClearKeeps(log: Log, s0: Shop, key: string, allowed: bool, now: int)
    requires ShopOk(log, s0)
    ensures Keeps(log, s0, ClearTurn(s0, key, allowed, now).shop)
  {
    LiveKeeps(log, s0, key, now);
    ClearLiveKeeps(log, Live(s0, key, now), key, allowed);
    KeepsAfterLive(log, s0, key, now, ClearTurn(s0, key, allowed, now).shop);
  }

  lemma DeleteKeeps(log: Log, s0: Shop, key: string, allowed: bool, now: int)
    requires ShopOk(log, s0)
    ensures Keeps(log, s0, DeleteTurn(s0, key, allowed, now).shop) && Keeps(log, s0, Removed(s0, key))
  {
    var s := Live(s0, key, now);
    LiveKeeps(log, s0, key, now);
    SettledKeeps(log, s, s);
    RemovalKeeps(log, s, {key}, Removed(s, key));
    SettledKeeps(log, s, Removed(s, key));
    KeepsAfterLive(log, s0, key, now, DeleteTurn(s0, key, allowed, now).shop);
    RemovalKeeps(log, s0, {key}, Removed(s0, key));
    SettledKeeps(log, s0, Removed(s0, key));
  }

  /** Every critical section keeps the invariant and moves each key only forward. */
  lemma StepKeeps(log: Log, s: Shop, call: Call, now: int, later: int)
    requires ShopOk(log, s) && TreesOk(s)
    ensures Keeps(log, s, Step(s, call, now, later).shop)
  {
    hide Keeps, ShopOk, SaveTurn, ApplyTurn, SetPasswordTurn, CaptureTurn, ClearTurn, DeleteTurn, Advances;
    match call
    case Get(key) =>
      LiveKeeps(log, s, key, now);
      SettledKeeps(log, s, Live(s, key, now));
    case Save(key, content, ttl, author, base, claim, allowed) =>
      SaveKeeps(log, s, key, content, ttl, author, base, claim, allowed, now, later);
    case ApplyOps(key, ops, ttl, author, allowed) => ApplyKeeps(log, s, key, ops, ttl, author, allowed, now, later);
    case SetPassword(key, currentOk, next, scope) => SetPasswordKeeps(log, s, key, currentOk, next, scope, now, later);
    case Delete(key) => DeleteKeeps(log, s, key, true, now);
    case DeleteAuth(key, allowed) => DeleteKeeps(log, s, key, allowed, now);
    case CaptureHistory(key, allowed) => CaptureKeeps(log, s, key, allowed, now, later);
    case ClearHistory(key, allowed) => ClearKeeps(log, s, key, allowed, now);
    case CleanupExpired =>
      RemovalKeeps(log, s, ExpiredKeys(s, now), Swept(s, now));
      SettledKeeps(log, s, Swept(s, now));
  }

  // ----- runs -----------------------------------------------------------------------------------------------

  datatype Moment = Moment(call: Call, now: int, later: int)

  function NewShop(seed: int, maxRooms: nat, maxTotal: nat): Shop {
    Shop(map[], seed, {}, {}, maxRooms, maxTotal)
  }

  /** The store and the log of everything it published, after a run of critical sections. */
  ghost function Serve(log: Log, s: Shop, ms: seq<Moment>): (Log, Shop)
    requires ShopOk(log, s)
    decreases |ms|
  {
    if ms == [] then (log, s) else
      TreesHold(log, s);
      var s1 := Step(s, ms[0].call, ms[0].now, ms[0].later).shop;
      StepKeeps(log, s, ms[0].call, ms[0].now, ms[0].later);
      Serve(Record(log, s1), s1, ms[1..])
  }

  lemma ExtendsTransitive(a: Log, b: Log, c: Log)
    requires Extends(a, b) && Extends(b, c)
    ensures Extends(a, c)
  {
  }

  /**
   Over every run: the capacity limits hold, every room's text is its document's, every
   trail tells what was published, published documents stay what they were, and stamps
   only grow.
   */
  lemma {:induction false} RunKeeps(log: Log, s: Shop, ms: seq<Moment>)
    requires ShopOk(log, s)
    ensures var (log', s') := Serve(log, s, ms); ShopOk(log', s') && Extends(log, log') && Advances(s, s')
    decreases |ms|
  {
    if ms == [] {
      AdvancesReflexive(s);
    } else {
      TreesHold(log, s);
      var s1 := Step(s, ms[0].call, ms[0].now, ms[0].later).shop;
      StepKeeps(log, s, ms[0].call, ms[0].now, ms[0].later);
      RunKeeps(Record(log, s1), s1, ms[1..]);
      var (log', s') := Serve(Record(log, s1), s1, ms[1..]);
      ExtendsTransitive(log, Record(log, s1), log');
      AdvancesTransitive(log, s, s1, s');
    }
  }

  lemma NewShopIsOk(seed: int, maxRooms: nat, maxTotal: nat)
    ensures ShopOk(map[], NewShop(seed, maxRooms, maxTotal))
  {
    var none: Log := map[];
    assert none.Keys == {};
  }

  /**
   Between any two moments of a run, a key's stamp never decreases, even across deletion
   and re-creation, and the same stamp means the same document.
   */
  lemma SameStampSameDocument(log: Log, s: Shop, ms: seq<Moment>, key: string)
    requires ShopOk(log, s) && key in s.rooms && key in Serve(log, s, ms).1.rooms
    ensures var r, r' := s.rooms[key], Serve(log, s, ms).1.rooms[key];
      && StampLe(StampOf(key, r), StampOf(key, r'))
      && (StampOf(key, r) == StampOf(key, r') ==> r.tree == r'.tree && r.meta.content == r'.meta.content)
  {
    RunKeeps(log, s, ms);
    var (log', s') := Serve(log, s, ms);
    assert KeyAdvances(s, s', key);
    assert RoomHolds(log, s, key) && RoomHolds(log', s', key);
  }

  // ----- refusals ----------------------------------------------------------------------------------------------

  function KeyOf(call: Call): Option<string> {
    match call
    case CleanupExpired => None
    case _ => Some(call.key)
  }

  /**
   A refused call changes no room that has not expired: at most it removes the expired
   room under its own key and uses up a generation.
   */
  lemma RefusalChangesNoLiveRoom(s: Shop, call: Call, now: int, later: int)
    requires TreesOk(s) && Step(s, call, now, later).reply.Refused?
    ensures KeyOf(call).Some?
    ensures var s', live := Step(s, call, now, later).shop, Live(s, KeyOf(call).value, now);
      (s' == s || s' == live || s' == Counted(live, GenerationFor(live, KeyOf(call).value)))
    ensures var s' := Step(s, call, now, later).shop;
      forall k :: k in s.rooms && !Expired(s.rooms[k], now) ==> k in s'.rooms && s'.rooms[k] == s.rooms[k]
  {
    hide SaveLive, ApplyLive, Fits, Captured, Relock;
    var live := Live(s, KeyOf(call).value, now);
    match call
    case Save(key, content, ttl, author, base, claim, allowed) =>
      if Utf8Length(content) <= MAX_CONTENT_BYTES {
        SaveRefused(live, key, content, ttl, author, base, claim, allowed, now, later);
      }
    case ApplyOps(key, ops, ttl, author, allowed) => ApplyRefused(live, key, ops, ttl, author, allowed, now, later);
    case SetPassword(key, currentOk, next, scope) =>
    case CaptureHistory(key, allowed) =>
    case ClearHistory(key, allowed) =>
    case DeleteAuth(key, allowed) =>
    case _ =>
  }

  ghost predicate RefusedCleanly(s: Shop, key: string, turn: Turn) {
    turn.reply.Refused? ==> turn.shop == s || turn.shop == Counted(s, GenerationFor(s, key))
  }

  lemma SaveRefused(s: Shop, key: string, content: string, ttl: int, author: string, base: int, claim: Lock,
                    allowed: bool, now: int, later: int)
    ensures RefusedCleanly(s, key, SaveLive(s, key, content, ttl, author, base, claim, allowed, now, later))
  {
    hide Fits, Captured;
  }

  lemma ApplyRefused(s: Shop, key: string, ops: seq<Op>, ttl: int, author: string, allowed: bool, now: int, later: int)
    requires TreesOk(s)
    ensures RefusedCleanly(s, key, ApplyLive(s, key, ops, ttl, author, allowed, now, later))
  {
    hide Fits, Captured, ApplyBatch, Total, RoomBytes;
    EmptyIsWellFormed();
    BatchStays(TreeAt(s, key), ops);
  }
}
