/**
 What a caller of the store can rely on, call by call (internal/store/store.go): the room
 it gets when it is granted, when it is refused, and that other rooms are left alone.
 */
module ShopOutcomes {
  import opened Ids
  import opened Rga
  import opened Ops
  import opened Views
  import opened Chains
  import opened Docs
  import opened Rooms
  import opened Shops
  import opened ShopLaws

  // ----- the changed flag ------------------------------------------------------------------------

  /** `u` has what `t` has, and is deleted wherever `t` is. */
  ghost predicate Above(t: Tree, u: Tree) {
    forall k {:trigger k in u.items} :: k in t.items ==> k in u.items && (t.items[k].deleted ==> u.items[k].deleted)
  }

  /** Something in `u` that `t` has not, or has alive. */
  ghost predicate Shows(t: Tree, u: Tree, k: Id) {
    k in u.items && (k in t.items ==> u.items[k].deleted && !t.items[k].deleted)
  }

  lemma StepShows(t: Tree, op: Op) returns (k: Id)
    ensures Above(t, Apply(t, op).tree)
    ensures !Apply(t, op).changed ==> Apply(t, op).tree == t
    ensures Apply(t, op).changed ==> Shows(t, Apply(t, op).tree, k)
  {
    k := op.id;
  }

  /** A batch reports a change exactly when the document it leaves differs. */
  lemma {:induction false} ChangedExactlyWhenDifferent(t: Tree, ops: seq<Op>)
    ensures Above(t, Run(t, ops).tree)
    ensures Run(t, ops).changed <==> Run(t, ops).tree != t
    decreases |ops|
  {
    if ops != [] {
      var k := StepShows(t, ops[0]);
      var t1 := Apply(t, ops[0]).tree;
      ChangedExactlyWhenDifferent(t1, ops[1..]);
      var u := Run(t1, ops[1..]).tree;
      assert Above(t1, u) && Above(t, t1);
      if Apply(t, ops[0]).error.None? && Apply(t, ops[0]).changed { assert Shows(t, u, k); }
    }
  }

  // ----- admission ---------------------------------------------------------------------------------------

  /** A write is admitted exactly if the store stays within both limits. */
  lemma AdmittedExactlyWithinLimits(log: Log, s: Shop, key: string, r: Room)
    requires ShopOk(log, s)
    ensures var rooms' := s.rooms[key := r];
      Fits(s, key, r).None? <==> |rooms'| <= s.maxRooms && Total(rooms') <= s.maxTotal
  {
    hide Total, RoomBytes, AllHold, AllPast;
    TotalWith(s.rooms, key, r);
    var rooms' := s.rooms[key := r];
    if key in s.rooms { assert rooms'.Keys == s.rooms.Keys; } else { assert rooms'.Keys == s.rooms.Keys + {key}; }
  }

  // ----- saves ---------------------------------------------------------------------------------------

  /** The room the caller finds under `key`: a stored one that has not expired. */
  function Found(s: Shop, key: string, now: int): Option<Room> {
    if key in s.rooms && now < s.rooms[key].meta.expiresAt then Some(s.rooms[key]) else None
  }

  /** What the meta had before a capture that may have happened at `later`. */
  predicate CapturedFrom(m: Meta, trail: seq<HistoryEntry>, later: int) {
    m.history == Captured(m.(history := trail), false, later / NANOS_PER_MILLI)
  }

  /** The asked-for text and ttl, under a new version unless nothing but the expiry (or a claimed lock) changes. */
  ghost predicate IsSaveOf(r: Room, before: Option<Room>, content: string, ttl: int, author: string, claim: Lock,
                           now: int, later: int, lastGeneration: int)
  {
    && WellFormed(r.tree) && Text(r.tree) == content == r.meta.content
    && r.meta.ttl == ttl && r.meta.expiresAt == now + ttl && r.meta.updatedAt == now
    && match before
       case None =>
         && r.meta.version == 1 && r.meta.generation > lastGeneration && r.meta.lock == claim
         && r.meta.updatedBy == author && r.tree == Typed(author, content) && CapturedFrom(r.meta, [], later)
       case Some(o) =>
         var same := o.meta.content == content && o.meta.ttl == ttl;
         && r.meta.generation == o.meta.generation
         && r.meta.lock == (if o.meta.lock.Locked? then o.meta.lock else claim)
         && (r.meta.version == if same && r.meta.lock == o.meta.lock then o.meta.version else o.meta.version + 1)
         && r.meta.updatedBy == (if same && author == "" then o.meta.updatedBy else author)
         && if same then r.tree == o.tree && r.meta.history == o.meta.history
            else r.tree == Typed(author, content) && CapturedFrom(r.meta, o.meta.history, later)
  }

  /** The text as if typed in one go: by its author if ids can carry the name, by the server if not. */
  function Typed(author: string, content: string): Tree {
    Chain(if author != "" && ':' !in author then author else "server", content)
  }

  lemma SaveTreeIsTyped(author: string, content: string)
    ensures SaveTree(author, content) == Typed(author, content)
  {
  }

  function RoomAt(s: Shop, key: string): Option<Room> {
    if key in s.rooms then Some(s.rooms[key]) else None
  }

  predicate SameText(before: Option<Room>, content: string, ttl: int) {
    before.Some? && before.value.meta.content == content && before.value.meta.ttl == ttl
  }

  /** The room a save asks for. */
  function SavedRoom(s: Shop, key: string, content: string, ttl: int, author: string, claim: Lock, now: int,
                     later: int): Room
  {
    if SameText(RoomAt(s, key), content, ttl) then Refresh(s, key, ttl, author, claim, now).reply.room.value
    else
      var m := NextMeta(s, key, content, ttl, author, now);
      WithHistory(Room(SaveTree(author, content), m.(lock := ClaimedLock(m.lock, claim))), false, later)
  }

  lemma RefreshedIsSave(log: Log, s: Shop, key: string, content: string, ttl: int, author: string, claim: Lock,
                        now: int, later: int)
    requires ShopOk(log, s) && SameText(RoomAt(s, key), content, ttl)
    ensures IsSaveOf(SavedRoom(s, key, content, ttl, author, claim, now, later), RoomAt(s, key), content, ttl, author,
                     claim, now, later, s.nextGeneration)
  {
    hide WellFormed, ShopOk, CapturedFrom, Typed;
    KnownGeneration(log, s, key);
    RoomSpells(log, s, key);
  }

  lemma ReplacedIsSave(log: Log, s: Shop, key: string, content: string, ttl: int, author: string, claim: Lock, now: int,
                       later: int)
    requires ShopOk(log, s) && !SameText(RoomAt(s, key), content, ttl)
    ensures IsSaveOf(SavedRoom(s, key, content, ttl, author, claim, now, later), RoomAt(s, key), content, ttl, author,
                     claim, now, later, s.nextGeneration)
  {
    hide Captured, SaveTree, WellFormed, ShopOk, Typed;
    SaveTreeSpells(author, content);
    SaveTreeIsTyped(author, content);
    KnownGeneration(log, s, key);
    if key in s.rooms { RoomSpells(log, s, key); }
  }

  lemma SaveLiveDelivers(log: Log, s: Shop, key: string, content: string, ttl: int, author: string, base: int,
                         claim: Lock, allowed: bool, now: int, later: int)
    requires ShopOk(log, s)
    requires SaveLive(s, key, content, ttl, author, base, claim, allowed, now, later).reply.Granted?
    ensures var turn := SaveLive(s, key, content, ttl, author, base, claim, allowed, now, later);
      && key in turn.shop.rooms && turn.reply.room == Some(turn.shop.rooms[key])
      && IsSaveOf(turn.shop.rooms[key], RoomAt(s, key), content, ttl, author, claim, now, later, s.nextGeneration)
  {
    hide Fits, Captured, SaveTree, ShopOk, IsSaveOf;
    if SameText(RoomAt(s, key), content, ttl) {
      RefreshedIsSave(log, s, key, content, ttl, author, claim, now, later);
    } else {
      ReplacedIsSave(log, s, key, content, ttl, author, claim, now, later);
    }
  }

  /** What a granted save leaves under its key. */
  lemma SaveDelivers(log: Log, s: Shop, key: string, content: string, ttl: int, author: string, base: int, claim: Lock,
                     allowed: bool, now: int, later: int)
    requires ShopOk(log, s)
    requires SaveTurn(s, key, content, ttl, author, base, claim, allowed, now, later).reply.Granted?
    ensures var turn := SaveTurn(s, key, content, ttl, author, base, claim, allowed, now, later);
      && key in turn.shop.rooms && turn.reply.room == Some(turn.shop.rooms[key])
      && IsSaveOf(turn.shop.rooms[key], Found(s, key, now), content, ttl, author, claim, now, later, s.nextGeneration)
  {
    hide SaveLive, IsSaveOf, ShopOk, Utf8Length;
    LiveKeeps(log, s, key, now);
    SaveLiveDelivers(log, Live(s, key, now), key, content, ttl, author, base, claim, allowed, now, later);
  }

  lemma RoomSpells(log: Log, s: Shop, key: string)
    requires ShopOk(log, s) && key in s.rooms
    ensures var r := s.rooms[key];
      WellFormed(r.tree) && Text(r.tree) == r.meta.content && 1 <= r.meta.generation <= s.nextGeneration
  {
    assert RoomHolds(log, s, key);
  }

  /** With a base version, a save lands only on that very version; this is all that makes it a conflict. */
  lemma ConflictExactlyWhenBaseMoved(s: Shop, key: string, content: string, ttl: int, author: string, base: int,
                                     claim: Lock, allowed: bool, now: int, later: int)
    ensures var before := Found(s, key, now);
      SaveTurn(s, key, content, ttl, author, base, claim, allowed, now, later).reply == Refused(VersionConflict) <==>
      && Utf8Length(content) <= 1_048_576 && base > 0
      && (before.Some? && before.value.meta.lock.Locked? ==> allowed)
      && (before.None? || before.value.meta.version != base)
  {
    hide Captured, Utf8Length, Total, RoomBytes;
  }

  // ----- batches ----------------------------------------------------------------------------------------

  lemma BatchChangesExactly(t: Tree, ops: seq<Op>)
    ensures BatchOutcome(t, ops).changed <==> BatchOutcome(t, ops).tree != t
  {
    ChangedExactlyWhenDifferent(t, ops);
  }

  /** The whole batch applied; `changed` is whether the document differs. */
  ghost predicate IsBatchOf(r: Room, before: Option<Room>, ops: seq<Op>, ttl: int, author: string, now: int, later: int,
                            lastGeneration: int, changed: bool)
  {
    var t := if before.Some? then before.value.tree else EMPTY;
    && r.tree == BatchOutcome(t, ops).tree && BatchOutcome(t, ops).error.None?
    && WellFormed(r.tree) && r.meta.content == Text(r.tree)
    && (changed <==> r.tree != t)
    && r.meta.expiresAt == now + r.meta.ttl && r.meta.updatedAt == now
    && match before
       case None =>
         && r.meta.version == 1 && r.meta.generation > lastGeneration && r.meta.lock == Unlocked
         && r.meta.ttl == ttl > 0 && r.meta.updatedBy == author
         && if changed then CapturedFrom(r.meta, [], later) else r.meta.history == []
       case Some(o) =>
         && r.meta.lock == o.meta.lock && r.meta.generation == o.meta.generation
         && r.meta.ttl == (if ttl > 0 then ttl else o.meta.ttl)
         && r.meta.updatedBy == (if !changed && author == "" then o.meta.updatedBy else author)
         && r.meta.version == o.meta.version + (if changed || r.meta.ttl != o.meta.ttl then 1 else 0)
         && if changed then CapturedFrom(r.meta, o.meta.history, later) else r.meta.history == o.meta.history
  }

  lemma ApplyLiveDelivers(log: Log, s: Shop, key: string, ops: seq<Op>, ttl: int, author: string, allowed: bool,
                          now: int, later: int)
    requires ShopOk(log, s) && TreesOk(s)
    requires ApplyLive(s, key, ops, ttl, author, allowed, now, later).reply.Granted?
    ensures var turn := ApplyLive(s, key, ops, ttl, author, allowed, now, later);
      && key in turn.shop.rooms && turn.reply.room == Some(turn.shop.rooms[key])
      && IsBatchOf(turn.shop.rooms[key], RoomAt(s, key), ops, ttl, author, now, later, s.nextGeneration,
                   turn.reply.changed)
  {
    hide Fits, Captured, BatchOutcome, Utf8Length, ShopOk, WellFormed;
    EmptyIsWellFormed();
    BatchStays(TreeAt(s, key), ops);
    BatchChangesExactly(TreeAt(s, key), ops);
    KnownGeneration(log, s, key);
    if key in s.rooms { RoomSpells(log, s, key); }
  }

  /** What a granted batch leaves under its key. */
  lemma ApplyDelivers(log: Log, s: Shop, key: string, ops: seq<Op>, ttl: int, author: string, allowed: bool, now: int,
                      later: int)
    requires ShopOk(log, s) && TreesOk(s)
    requires ApplyTurn(s, key, ops, ttl, author, allowed, now, later).reply.Granted?
    ensures var turn := ApplyTurn(s, key, ops, ttl, author, allowed, now, later);
      && key in turn.shop.rooms && turn.reply.room == Some(turn.shop.rooms[key])
      && IsBatchOf(turn.shop.rooms[key], Found(s, key, now), ops, ttl, author, now, later, s.nextGeneration,
                   turn.reply.changed)
  {
    hide ApplyLive, IsBatchOf, ShopOk;
    LiveKeeps(log, s, key, now);
    TreesHold(log, Live(s, key, now));
    ApplyLiveDelivers(log, Live(s, key, now), key, ops, ttl, author, allowed, now, later);
  }

  // ----- locks and history ----------------------------------------------------------------------------------

  /** Whoever is not admitted past a lock changes nothing behind it. */
  lemma LockedOut(s: Shop, call: Call, now: int, later: int)
    requires TreesOk(s) && KeyOf(call).Some? && !call.Get? && !call.Delete?
    requires Found(s, KeyOf(call).value, now).Some? && Found(s, KeyOf(call).value, now).value.meta.lock.Locked?
    requires if call.SetPassword? then !call.currentOk else !call.allowed
    ensures Step(s, call, now, later).shop == s && Step(s, call, now, later).reply.Refused?
  {
    hide Captured, Fits;
  }

  /** A granted password change leaves the lock asked for, and tells subscribers exactly if the lock changed. */
  lemma PasswordDelivers(s: Shop, key: string, currentOk: bool, next: Secret, scope: string, now: int, later: int)
    requires SetPasswordTurn(s, key, currentOk, next, scope, now, later).reply.Granted?
    requires next.Secret? && next.derived.Some? ==> next.derived.value.0 != SaltAt(s, key)
    ensures Found(s, key, now).Some?
    ensures var o, r := s.rooms[key], SetPasswordTurn(s, key, currentOk, next, scope, now, later).shop.rooms[key];
      && r.tree == o.tree && r.meta.content == o.meta.content && r.meta.history == o.meta.history
      && (r.meta.lock.Locked? <==> next.Secret?)
      && (next.Secret? && o.meta.lock.Locked? && next.same ==>
            r.meta.lock.salt == o.meta.lock.salt && r.meta.lock.hash == o.meta.lock.hash)
      && (next.Secret? && !(o.meta.lock.Locked? && next.same) ==>
            next.derived == Some((r.meta.lock.salt, r.meta.lock.hash)))
      && (next.Secret? && scope != "" ==> ScopeOf(r.meta.lock.scope) == scope)
      && r.meta.version == o.meta.version + if r.meta.lock != o.meta.lock then 1 else 0
  {
  }

  function SaltAt(s: Shop, key: string): string {
    if key in s.rooms && s.rooms[key].meta.lock.Locked? then s.rooms[key].meta.lock.salt else ""
  }

  /** After a granted manual capture the newest entry is the current text; a cleared trail is empty. */
  lemma CaptureDelivers(s: Shop, key: string, allowed: bool, now: int, later: int)
    requires CaptureTurn(s, key, allowed, now, later).reply.Granted?
    ensures Found(s, key, now).Some?
    ensures var o, r := s.rooms[key], CaptureTurn(s, key, allowed, now, later).shop.rooms[key];
      && r.tree == o.tree && r.meta == o.meta.(history := r.meta.history)
      && (o.meta.content != "" ==> r.meta.history != [] && r.meta.history[|r.meta.history| - 1].text == o.meta.content)
  {
    hide Fits;
  }

  // ----- isolation ---------------------------------------------------------------------------------------------

  ghost predicate SameAt(s: Shop, s': Shop, k: string) {
    && (k in s.rooms <==> k in s'.rooms) && (k in s.rooms ==> s'.rooms[k] == s.rooms[k])
    && (k in s.dirty <==> k in s'.dirty) && (k in s.deleted <==> k in s'.deleted)
  }

  lemma SaveElsewhere(s: Shop, key: string, content: string, ttl: int, author: string, base: int, claim: Lock,
                      allowed: bool, now: int, later: int, k: string)
    requires k != key
    ensures SameAt(s, SaveLive(s, key, content, ttl, author, base, claim, allowed, now, later).shop, k)
  {
    hide Fits, Captured, SaveTree;
  }

  lemma ApplyElsewhere(s: Shop, key: string, ops: seq<Op>, ttl: int, author: string, allowed: bool, now: int,
                       later: int, k: string)
    requires TreesOk(s) && k != key
    ensures SameAt(s, ApplyLive(s, key, ops, ttl, author, allowed, now, later).shop, k)
  {
    hide Fits, Captured, ApplyBatch, Utf8Length;
    EmptyIsWellFormed();
    BatchStays(TreeAt(s, key), ops);
  }

  lemma RestElsewhere(s: Shop, call: Call, now: int, later: int, k: string)
    requires TreesOk(s) && KeyOf(call).Some? && KeyOf(call).value != k && !call.Save? && !call.ApplyOps?
    ensures SameAt(s, Step(s, call, now, later).shop, k)
  {
    hide Captured, Fits, Relock;
  }

  /** A call under one key leaves every other room, and every other mark, as it was. */
  lemma OtherRoomsUntouched(s: Shop, call: Call, now: int, later: int, k: string)
    requires TreesOk(s) && KeyOf(call).Some? && KeyOf(call).value != k
    ensures var s' := Step(s, call, now, later).shop;
      && (k in s.rooms <==> k in s'.rooms) && (k in s.rooms ==> s'.rooms[k] == s.rooms[k])
      && (k in s.dirty <==> k in s'.dirty) && (k in s.deleted <==> k in s'.deleted)
  {
    hide SaveLive, ApplyLive;
    match call
    case Save(key, content, ttl, author, base, claim, allowed) =>
      SaveElsewhere(Live(s, key, now), key, content, ttl, author, base, claim, allowed, now, later, k);
    case ApplyOps(key, ops, ttl, author, allowed) =>
      ApplyElsewhere(Live(s, key, now), key, ops, ttl, author, allowed, now, later, k);
    case _ => RestElsewhere(s, call, now, later, k);
  }
}
