/**
 When each call on the store is granted, and what it answers when it is not
 (internal/store/store.go): every condition is on the call, the room found under its key
 and the store's two limits.
 */
module ShopGrants {
  import opened Rga
  import opened Ops
  import opened Views
  import opened Chains
  import opened Docs
  import opened Utf8
  import opened Rooms
  import opened Shops
  import opened ShopLaws
  import opened ShopOutcomes

  /** The stored rooms, without the one under `key` if it has expired. */
  function LiveRooms(s: Shop, key: string, now: int): map<string, Room> {
    if Found(s, key, now).Some? then s.rooms else s.rooms - {key}
  }

  /** The rooms fit the store: not too many, and not too many bytes. */
  ghost predicate Within(s: Shop, rooms: map<string, Room>) {
    |rooms| <= s.maxRooms && Total(rooms) <= s.maxTotal
  }

  /** No lock is in the way of whoever may or may not open it. */
  predicate Opens(found: Option<Room>, allowed: bool) {
    found.Some? && found.value.meta.lock.Locked? ==> allowed
  }

  lemma LiveIs(s: Shop, key: string, now: int)
    ensures var live := Live(s, key, now);
      && live.rooms == LiveRooms(s, key, now) && RoomAt(live, key) == Found(s, key, now)
      && live.maxRooms == s.maxRooms && live.maxTotal == s.maxTotal && live.nextGeneration == s.nextGeneration
  {
    if Found(s, key, now).None? && key !in s.rooms { assert s.rooms - {key} == s.rooms; }
  }

  /** What a room is charged: its text in UTF-8, 192 bytes an item, and 64 bytes and the text for a trail entry. */
  lemma ChargedExactly(r: Room, h: seq<HistoryEntry>, e: HistoryEntry)
    ensures RoomBytes(r.(meta := r.meta.(history := []))) ==
      256 + |Encoded(r.meta.content)| + 192 * if r.tree.items == map[] then |r.meta.content| else |r.tree.items|
    ensures RoomBytes(r.(meta := r.meta.(history := h + [e]))) ==
      RoomBytes(r.(meta := r.meta.(history := h))) + |Encoded(e.text)| + 64
  {
    LengthIsEncoded(r.meta.content);
    LengthIsEncoded(e.text);
    assert (h + [e])[..|h|] == h;
  }

  /** The error of a write that goes past a limit: the number of rooms is looked at first. */
  ghost function LimitError(s: Shop, found: Option<Room>, rooms: map<string, Room>): StoreError {
    if found.None? && |rooms| > s.maxRooms then TooManyRooms else MemoryLimit
  }

  lemma FitsExactly(log: Log, s: Shop, key: string, r: Room)
    requires ShopOk(log, s)
    ensures var rooms := s.rooms[key := r];
      Fits(s, key, r) == if Within(s, rooms) then None else Some(LimitError(s, RoomAt(s, key), rooms))
  {
    hide Total, RoomBytes, AllHold, AllPast;
    AdmittedExactlyWithinLimits(log, s, key, r);
    TotalWith(s.rooms, key, r);
    var rooms := s.rooms[key := r];
    if key in s.rooms { assert rooms.Keys == s.rooms.Keys; } else { assert rooms.Keys == s.rooms.Keys + {key}; }
  }

  // ----- saves ----------------------------------------------------------------------------------

  lemma SaveLiveAnswers(log: Log, s: Shop, key: string, content: string, ttl: int, author: string, base: int,
                        claim: Lock, allowed: bool, now: int, later: int)
    requires ShopOk(log, s)
    ensures var before, r := RoomAt(s, key), SavedRoom(s, key, content, ttl, author, claim, now, later);
      SaveLive(s, key, content, ttl, author, base, claim, allowed, now, later).reply ==
        if !Opens(before, allowed) then Refused(PasswordMismatch)
        else if base > 0 && (before.None? || before.value.meta.version != base) then Refused(VersionConflict)
        else if SameText(before, content, ttl) then Granted(Some(r), false)
        else if !Within(s, s.rooms[key := r]) then Refused(LimitError(s, before, s.rooms[key := r]))
        else Granted(Some(r), true)
  {
    hide Fits, Captured, SaveTree, ShopOk, Total;
    var r := SavedRoom(s, key, content, ttl, author, claim, now, later);
    var counted := Counted(s, GenerationFor(s, key));
    CountedKeeps(log, s, GenerationFor(s, key));
    FitsExactly(log, counted, key, r);
  }

  /**
   A save is granted if and only if its text is at most 1 MiB, a lock on the room opens,
   a base version asked for is the room's, and either nothing but the expiry changes or the
   store with the asked-for room stays within both limits. Otherwise the error is that of
   the first of these that fails.
   */
  lemma SaveGrantedExactlyWhen(log: Log, s: Shop, key: string, content: string, ttl: int, author: string, base: int,
                               claim: Lock, allowed: bool, now: int, later: int) returns (r: Room)
    requires ShopOk(log, s)
    ensures IsSaveOf(r, Found(s, key, now), content, ttl, author, claim, now, later, s.nextGeneration)
    ensures var found, rooms := Found(s, key, now), LiveRooms(s, key, now)[key := r];
      var small := Utf8Length(content) <= 1_048_576;
      var opens := found.Some? && found.value.meta.lock.Locked? ==> allowed;
      var atBase := base <= 0 || (found.Some? && found.value.meta.version == base);
      var same := found.Some? && found.value.meta.content == content && found.value.meta.ttl == ttl;
      var error := if !small then ContentTooLarge else if !opens then PasswordMismatch
        else if !atBase then VersionConflict else LimitError(s, found, rooms);
      var reply := SaveTurn(s, key, content, ttl, author, base, claim, allowed, now, later).reply;
      && (reply.Granted? <==> small && opens && atBase && (same || Within(s, rooms)))
      && (reply.Granted? ==> reply == Granted(Some(r), !same))
      && (reply.Refused? ==> reply.error == error)
  {
    hide SaveLive, IsSaveOf, ShopOk, Utf8Length, SavedRoom, Total;
    LiveKeeps(log, s, key, now);
    LiveIs(s, key, now);
    var live := Live(s, key, now);
    r := SavedRoom(live, key, content, ttl, author, claim, now, later);
    SaveLiveAnswers(log, live, key, content, ttl, author, base, claim, allowed, now, later);
    if SameText(RoomAt(live, key), content, ttl) {
      RefreshedIsSave(log, live, key, content, ttl, author, claim, now, later);
    } else {
      ReplacedIsSave(log, live, key, content, ttl, author, claim, now, later);
    }
  }

  // ----- batches --------------------------------------------------------------------------------

  function TreeOf(found: Option<Room>): Tree {
    if found.Some? then found.value.tree else EMPTY
  }

  /** The room an accepted batch asks for. */
  ghost function BatchRoom(s: Shop, key: string, out: Outcome, ttl: int, author: string, now: int, later: int): Room
    requires WellFormed(out.tree)
  {
    if !out.changed && key in s.rooms then Touched(s, key, ttl, author, now).reply.room.value
    else
      var r := Room(out.tree, NextMeta(s, key, Text(out.tree), TtlFor(s, key, ttl), author, now));
      if out.changed then WithHistory(r, false, later) else r
  }

  lemma TouchedIsBatch(log: Log, s: Shop, key: string, ops: seq<Op>, ttl: int, author: string, now: int, later: int)
    requires ShopOk(log, s) && key in s.rooms
    requires var out := BatchOutcome(s.rooms[key].tree, ops); out.error.None? && !out.changed
    ensures IsBatchOf(Touched(s, key, ttl, author, now).reply.room.value, RoomAt(s, key), ops, ttl, author, now, later,
                      s.nextGeneration, false)
  {
    hide CapturedFrom, BatchOutcome, ShopOk, WellFormed;
    BatchChangesExactly(s.rooms[key].tree, ops);
    KnownGeneration(log, s, key);
    RoomSpells(log, s, key);
  }

  lemma AcceptedIsBatch(log: Log, s: Shop, key: string, ops: seq<Op>, ttl: int, author: string, now: int, later: int)
    requires ShopOk(log, s) && (key in s.rooms || ttl > 0) && WellFormed(BatchOutcome(TreeAt(s, key), ops).tree)
    requires BatchOutcome(TreeAt(s, key), ops).error.None?
    ensures var out := BatchOutcome(TreeAt(s, key), ops);
      var r := BatchRoom(s, key, out, ttl, author, now, later);
      && IsBatchOf(r, RoomAt(s, key), ops, ttl, author, now, later, s.nextGeneration, out.changed)
      && r.tree == out.tree && r.meta.content == Text(out.tree)
  {
    hide Captured, BatchOutcome, ShopOk, WellFormed, Touched;
    var out := BatchOutcome(TreeAt(s, key), ops);
    if !out.changed && key in s.rooms {
      TouchedIsBatch(log, s, key, ops, ttl, author, now, later);
    } else {
      if key in s.rooms { RoomSpells(log, s, key); }
      BatchChangesExactly(TreeAt(s, key), ops);
      KnownGeneration(log, s, key);
    }
  }

  lemma ApplyLiveAnswers(log: Log, s: Shop, key: string, ops: seq<Op>, ttl: int, author: string, allowed: bool,
                         now: int, later: int)
    requires ShopOk(log, s) && TreesOk(s) && WellFormed(BatchOutcome(TreeAt(s, key), ops).tree)
    ensures var before, out := RoomAt(s, key), BatchOutcome(TreeAt(s, key), ops);
      var r := BatchRoom(s, key, out, ttl, author, now, later);
      ApplyLive(s, key, ops, ttl, author, allowed, now, later).reply ==
        if !Opens(before, allowed) then Refused(PasswordMismatch)
        else if before.None? && ttl <= 0 then Refused(TtlRequired)
        else if out.error.Some? then Refused(BadBatch(out.error.value))
        else if Utf8Length(Text(out.tree)) > 1_048_576 then Refused(ContentTooLarge)
        else if !out.changed && before.Some? then Granted(Some(r), false)
        else if !out.changed && ops != [] then Refused(NoEffect)
        else if !Within(s, s.rooms[key := r]) then Refused(LimitError(s, before, s.rooms[key := r]))
        else Granted(Some(r), out.changed)
  {
    hide Fits, Captured, BatchOutcome, Utf8Length, ShopOk, WellFormed, Touched, Total;
    var out := BatchOutcome(TreeAt(s, key), ops);
    var r := BatchRoom(s, key, out, ttl, author, now, later);
    CountedKeeps(log, s, GenerationFor(s, key));
    FitsExactly(log, Counted(s, GenerationFor(s, key)), key, r);
    TouchedIsGranted(s, key, ttl, author, now);
  }

  lemma TouchedIsGranted(s: Shop, key: string, ttl: int, author: string, now: int)
    ensures key in s.rooms ==> var reply := Touched(s, key, ttl, author, now).reply;
      reply.Granted? && reply.room.Some? && !reply.changed
  {
  }

  /** An empty batch, or one the server takes on this document. */
  predicate Acceptable(t: Tree, ops: seq<Op>) {
    ops == [] ||
    (|ops| <= 4096 && (forall i :: 0 <= i < |ops| ==> WellMade(ops[i])) && Accepts(t.items.Keys, ops))
  }

  lemma OutcomeIsRun(t: Tree, ops: seq<Op>)
    requires WellFormed(t)
    ensures BatchOutcome(t, ops).error.None? <==> Acceptable(t, ops)
    ensures WellFormed(BatchOutcome(t, ops).tree)
    ensures BatchOutcome(t, ops).error.Some? ==> BatchOutcome(t, ops).error == ApplyBatch(t, ops).error
    ensures BatchOutcome(t, ops).error.None? ==> BatchOutcome(t, ops).tree == Run(t, ops).tree
    ensures BatchOutcome(t, ops).changed <==> BatchOutcome(t, ops).tree != t
  {
    BatchStays(t, ops);
    BatchChangesExactly(t, ops);
    BatchAcceptedExactlyWhen(t, ops);
  }

  lemma FoundIsWellFormed(log: Log, s: Shop, key: string, now: int)
    requires ShopOk(log, s)
    ensures WellFormed(TreeOf(Found(s, key, now)))
  {
    EmptyIsWellFormed();
    if Found(s, key, now).Some? { RoomSpells(log, s, key); }
  }

  /**
   A batch is granted if and only if a lock on the room opens, a missing room gets a ttl,
   the batch is empty or accepted on the room's document, the resulting text is at most
   1 MiB, and one of these: nothing changes in a room that is there; or something changes,
   or the batch is empty, and the store with the asked-for room stays within both limits.
   Otherwise the error is that of the first of these that fails.
   */
  lemma ApplyGrantedExactlyWhen(log: Log, s: Shop, key: string, ops: seq<Op>, ttl: int, author: string, allowed: bool,
                                now: int, later: int) returns (r: Room)
    requires ShopOk(log, s) && TreesOk(s)
    ensures var found, rooms := Found(s, key, now), LiveRooms(s, key, now)[key := r];
      var t := TreeOf(found);
      var u := Run(t, ops).tree;
      var opens := found.Some? && found.value.meta.lock.Locked? ==> allowed;
      var lasts := found.Some? || ttl > 0;
      var accepted := Acceptable(t, ops);
      var small := Utf8Length(r.meta.content) <= 1_048_576;
      var fits := if u == t && found.Some? then true else (u != t || ops == []) && Within(s, rooms);
      var error := if !opens then PasswordMismatch else if !lasts then TtlRequired
        else if !accepted && ApplyBatch(t, ops).error.Some? then BadBatch(ApplyBatch(t, ops).error.value)
        else if !small then ContentTooLarge else if u == t && ops != [] then NoEffect
        else LimitError(s, found, rooms);
      var reply := ApplyTurn(s, key, ops, ttl, author, allowed, now, later).reply;
      && (lasts && accepted ==> IsBatchOf(r, found, ops, ttl, author, now, later, s.nextGeneration, u != t))
      && (lasts && accepted ==> r.tree == u)
      && (reply.Granted? <==> opens && lasts && accepted && small && fits)
      && (reply.Granted? ==> reply == Granted(Some(r), u != t))
      && (reply.Refused? ==> reply.error == error)
  {
    hide ApplyLive, IsBatchOf, ShopOk, Utf8Length, BatchRoom, Total, WellFormed, Run, Text, BatchOutcome, Acceptable,
      ApplyBatch;
    LiveKeeps(log, s, key, now);
    LiveIs(s, key, now);
    var live := Live(s, key, now);
    TreesHold(log, live);
    var t := TreeOf(Found(s, key, now));
    assert TreeAt(live, key) == t;
    FoundIsWellFormed(log, s, key, now);
    OutcomeIsRun(t, ops);
    r := BatchRoom(live, key, BatchOutcome(t, ops), ttl, author, now, later);
    ApplyLiveAnswers(log, live, key, ops, ttl, author, allowed, now, later);
    if (key in live.rooms || ttl > 0) && BatchOutcome(t, ops).error.None? {
      AcceptedIsBatch(log, live, key, ops, ttl, author, now, later);
    }
  }

  // ----- locks and history ----------------------------------------------------------------------

  /** The scope a password gets: the one asked for, else the one it had, else "edit". */
  function ScopeAsked(held: Lock, scope: string): string {
    if scope != "" then scope else if held.Locked? && held.scope != "" then held.scope else "edit"
  }

  /** The lock asked for: none, the held one under the scope, or a new one. */
  function LockAsked(held: Lock, next: Secret, scope: string): Lock
    requires next.Blank? || (held.Locked? && next.same) || next.derived.Some?
  {
    if next.Blank? then Unlocked
    else if held.Locked? && next.same then
      (if held.scope == "" && ScopeAsked(held, scope) == "edit" then held else held.(scope := ScopeAsked(held, scope)))
    else Locked(next.derived.value.0, next.derived.value.1, ScopeAsked(held, scope))
  }

  /**
   A password change is granted if and only if there is a room, the current password opens
   its lock, and no new key is needed or one was derived. It leaves the lock asked for; the
   room is rewritten under the next version unless its lock stays as it was.
   */
  lemma PasswordGrantedExactlyWhen(s: Shop, key: string, currentOk: bool, next: Secret, scope: string, now: int,
                                   later: int)
    ensures var found := Found(s, key, now);
      var opens := found.Some? && found.value.meta.lock.Locked? ==> currentOk;
      var derivable := next.Blank? || next.derived.Some? ||
        (found.Some? && found.value.meta.lock.Locked? && next.same);
      var error := if found.None? then RoomNotFound else if !opens then PasswordMismatch else DerivationFailed;
      var turn := SetPasswordTurn(s, key, currentOk, next, scope, now, later);
      && (turn.reply.Granted? <==> found.Some? && opens && derivable)
      && (turn.reply.Refused? ==> turn.reply.error == error)
      && (turn.reply.Granted? ==>
        var o, lock := found.value, LockAsked(found.value.meta.lock, next, scope);
        var rekeyed := next.Secret? && !(o.meta.lock.Locked? && next.same);
        var changes := rekeyed || lock != o.meta.lock;
        var r := if changes then
            Room(o.tree, o.meta.(lock := lock, version := o.meta.version + 1, updatedAt := later))
          else o;
        && turn.reply == Granted(Some(r), changes) && turn.shop.rooms == s.rooms[key := r]
        && turn.shop.dirty == s.dirty + if changes then {key} else {})
  {
    if Found(s, key, now).Some? && !SetPasswordTurn(s, key, currentOk, next, scope, now, later).reply.Refused? {
      assert s.rooms[key := s.rooms[key]] == s.rooms;
    }
  }

  /**
   A manual capture is granted if and only if there is a room, its lock opens, and either
   there is nothing to record or the longer trail fits the byte limit. It records the text
   behind the newest of the entries before, 20 at most.
   */
  lemma CaptureGrantedExactlyWhen(log: Log, s: Shop, key: string, allowed: bool, now: int, later: int)
    requires ShopOk(log, s)
    ensures var found, reply := Found(s, key, now), CaptureTurn(s, key, allowed, now, later).reply;
      if found.None? then reply == Refused(RoomNotFound)
      else if found.value.meta.lock.Locked? && !allowed then reply == Refused(PasswordMismatch)
      else
        var m := found.value.meta;
        var longer := m.history + [HistoryEntry(m.content, m.version, later / 1_000_000, m.updatedBy, true)];
        var kept := if |longer| > 20 then longer[|longer| - 20..] else longer;
        var r := Room(found.value.tree, m.(history := kept));
        if m.content == "" || (m.history != [] && m.history[|m.history| - 1].text == m.content) then
          reply == Granted(found, false)
        else if Total(s.rooms[key := r]) <= s.maxTotal then reply == Granted(Some(r), true)
        else reply == Refused(MemoryLimit)
  {
    hide Total, RoomBytes, AllHold, AllPast;
    if Found(s, key, now).Some? {
      var m := s.rooms[key].meta;
      var r := WithHistory(s.rooms[key], true, later);
      FitsExactly(log, s, key, r);
      assert s.rooms[key := r].Keys == s.rooms.Keys;
    }
  }

  /** Clearing empties the trail of a room whose lock opens, and changes nothing else. */
  lemma ClearGrantedExactlyWhen(s: Shop, key: string, allowed: bool, now: int)
    ensures var found, turn := Found(s, key, now), ClearTurn(s, key, allowed, now);
      if found.None? then turn.reply == Refused(RoomNotFound)
      else if found.value.meta.lock.Locked? && !allowed then turn == Turn(s, Refused(PasswordMismatch))
      else
        var r := Room(found.value.tree, found.value.meta.(history := []));
        && turn.reply == Granted(Some(r), found.value.meta.history != [])
        && turn.shop == s.(rooms := s.rooms[key := r], dirty := turn.shop.dirty)
        && turn.shop.dirty == s.dirty + if found.value.meta.history != [] then {key} else {}
  {
    if Found(s, key, now).Some? { assert s.rooms[key := s.rooms[key]] == s.rooms; }
  }

  // ----- removal and reading --------------------------------------------------------------------

  /** The room is gone and its key is left to the persister as deleted, no longer as dirty. */
  ghost predicate GoneFrom(s: Shop, s': Shop, gone: set<string>) {
    && (forall k :: k in s'.rooms <==> k in s.rooms && k !in gone)
    && (forall k :: k in s'.rooms ==> s'.rooms[k] == s.rooms[k])
    && (forall k :: k in s'.dirty <==> k in s.dirty && k !in gone)
    && (forall k :: k in s'.deleted <==> k in s.deleted || k in gone)
    && s'.nextGeneration == s.nextGeneration && s'.maxRooms == s.maxRooms && s'.maxTotal == s.maxTotal
  }

  /** A deletion is granted unless a lock is in its way; then nothing is left under the key. */
  lemma DeleteGrantedExactlyWhen(s: Shop, key: string, allowed: bool, now: int, later: int)
    requires TreesOk(s)
    ensures var found, turn := Found(s, key, now), Step(s, DeleteAuth(key, allowed), now, later);
      if found.Some? && found.value.meta.lock.Locked? && !allowed then turn == Turn(s, Refused(PasswordMismatch))
      else turn.reply.Granted? && GoneFrom(s, turn.shop, {key})
    ensures var turn := Step(s, Delete(key), now, later); turn.reply.Granted? && GoneFrom(s, turn.shop, {key})
  {
  }

  /** A read finds the room that is stored and has not expired, and removes one that has. */
  lemma GetFinds(s: Shop, key: string, now: int)
    ensures var turn := GetTurn(s, key, now);
      if key in s.rooms && now < s.rooms[key].meta.expiresAt then turn == Turn(s, Granted(Some(s.rooms[key]), false))
      else
        && turn.reply == Granted(None, false)
        && (if key in s.rooms then GoneFrom(s, turn.shop, {key}) else turn.shop == s)
  {
  }

  /** The sweep removes exactly the rooms that have expired, as a read of each of them would. */
  lemma CleanupRemovesExpired(s: Shop, now: int, later: int)
    requires TreesOk(s)
    ensures var s' := Step(s, CleanupExpired, now, later).shop;
      exists gone :: GoneFrom(s, s', gone) &&
        forall k :: k in gone <==> k in s.rooms && s.rooms[k].meta.expiresAt <= now
  {
    var gone := set k | k in s.rooms && s.rooms[k].meta.expiresAt <= now;
    assert gone == ExpiredKeys(s, now);
    assert GoneFrom(s, Step(s, CleanupExpired, now, later).shop, gone);
  }
}
