/**
 The room store as a value (internal/store/store.go): what each operation, run under
 the store lock, makes of the rooms, the generation counter and the persister's marks.
 `Stores.Store` refines these functions; their laws are in `ShopLaws`.

 Times are integers in nanoseconds. `now` is the clock reading an operation decides
 expiry with, `later` the second reading it stamps history or locks with. Password
 checks enter as booleans, key derivation results as fresh salts and hashes.
 */
module Shops {
  import opened Rga
  import opened Ops
  import opened Views
  import opened Chains
  import opened Docs
  import opened Rooms

  datatype StoreError =
    | ContentTooLarge | TooManyRooms | MemoryLimit | VersionConflict | RoomNotFound | PasswordMismatch
    | TtlRequired | NoEffect | BadBatch(cause: Error) | DerivationFailed

  datatype Shop = Shop(rooms: map<string, Room>, nextGeneration: int, dirty: set<string>, deleted: set<string>,
                       maxRooms: nat, maxTotal: nat)

  datatype Reply = Granted(room: Option<Room>, changed: bool) | Refused(error: StoreError)

  datatype Turn = Turn(shop: Shop, reply: Reply)

  /** A new password: blank, or whether it equals the current one and what deriving it yields. */
  datatype Secret = Blank | Secret(same: bool, derived: Option<(string, string)>)

  datatype Call =
    | Get(key: string)
    | Save(key: string, content: string, ttl: int, author: string, base: int, claim: Lock, allowed: bool)
    | ApplyOps(key: string, ops: seq<Op>, ttl: int, author: string, allowed: bool)
    | SetPassword(key: string, currentOk: bool, next: Secret, scope: string)
    | Delete(key: string)
    | DeleteAuth(key: string, allowed: bool)
    | CaptureHistory(key: string, allowed: bool)
    | ClearHistory(key: string, allowed: bool)
    | CleanupExpired

  const NANOS_PER_MILLI: int := 1_000_000
  const SERVER_SITE := "server"
  const SCOPE_EDIT := "edit"

  // ----- the budget ------------------------------------------------------------------------

  /** Estimated bytes of all rooms. */
  ghost function Total(rooms: map<string, Room>): nat {
    if rooms == map[] then 0 else
      var k :| k in rooms;
      RoomBytes(rooms[k]) + Total(rooms - {k})
  }

  ghost function Fits(s: Shop, key: string, r: Room): Option<StoreError> {
    var oldBytes := if key in s.rooms then RoomBytes(s.rooms[key]) else 0;
    var delta := RoomBytes(r) - oldBytes;
    if key !in s.rooms && |s.rooms| >= s.maxRooms then Some(TooManyRooms)
    else if delta <= 0 then None
    else if Total(s.rooms) + delta > s.maxTotal then Some(MemoryLimit)
    else None
  }

  // ----- the steps operations are made of ------------------------------------------------------

  function Removed(s: Shop, key: string): Shop {
    s.(rooms := s.rooms - {key}, dirty := s.dirty - {key}, deleted := s.deleted + {key})
  }

  /** The room is written; `marked` says whether the persister is told. */
  function Installed(s: Shop, key: string, r: Room, marked: bool): Shop {
    s.(rooms := s.rooms[key := r], dirty := if marked then s.dirty + {key} else s.dirty)
  }

  predicate Expired(r: Room, now: int) {
    r.meta.expiresAt <= now
  }

  /** Expiry is lazy: the operation that meets an expired room removes it. */
  function Live(s: Shop, key: string, now: int): Shop {
    if key in s.rooms && Expired(s.rooms[key], now) then Removed(s, key) else s
  }

  function NewGeneration(last: int): int {
    if last + 1 <= 0 then 1 else last + 1
  }

  /** The generation of the room an operation writes under `key`. */
  function GenerationFor(s: Shop, key: string): int {
    if key in s.rooms && s.rooms[key].meta.generation > 0 then s.rooms[key].meta.generation
    else NewGeneration(s.nextGeneration)
  }

  function Counted(s: Shop, generation: int): Shop {
    if generation > s.nextGeneration then s.(nextGeneration := generation) else s
  }

  predicate Barred(s: Shop, key: string, allowed: bool) {
    key in s.rooms && s.rooms[key].meta.lock.Locked? && !allowed
  }

  ghost function Admit(s: Shop, key: string, r: Room, changed: bool): Turn {
    var error := Fits(s, key, r);
    if error.Some? then Turn(s, Refused(error.value))
    else Turn(Installed(s, key, r, true), Granted(Some(r), changed))
  }

  function WithHistory(r: Room, manual: bool, later: int): Room {
    r.(meta := r.meta.(history := Captured(r.meta, manual, later / NANOS_PER_MILLI)))
  }

  // ----- full-document save -----------------------------------------------------------------------

  function SaveTree(author: string, content: string): Tree {
    match BuildFromString(if author == "" then SERVER_SITE else author, content)
    case Ok(t) => t
    case Failed(_) => Chain(SERVER_SITE, content)
  }

  function ClaimedLock(held: Lock, claim: Lock): Lock {
    if held.Unlocked? then claim else held
  }

  function Refresh(s: Shop, key: string, ttl: int, author: string, claim: Lock, now: int): Turn
    requires key in s.rooms
  {
    var m, g := s.rooms[key].meta, GenerationFor(s, key);
    var claims := m.lock.Unlocked? && claim.Locked?;
    var r := Room(s.rooms[key].tree,
                  m.(generation := g, expiresAt := now + ttl, updatedAt := now,
                     updatedBy := if author != "" then author else m.updatedBy,
                     lock := ClaimedLock(m.lock, claim), version := if claims then m.version + 1 else m.version));
    Turn(Installed(Counted(s, g), key, r, claims), Granted(Some(r), false))
  }

  /** The next version of a room, or the first one of a new incarnation. */
  function Drafted(current: Option<Meta>, generation: int, content: string, ttl: int, author: string, now: int): Meta {
    match current
    case Some(m) =>
      m.(content := content, ttl := ttl, expiresAt := now + ttl, generation := generation, version := m.version + 1,
         updatedAt := now, updatedBy := author)
    case None => Meta(content, ttl, now + ttl, 1, generation, Unlocked, now, author, [])
  }

  function NextMeta(s: Shop, key: string, content: string, ttl: int, author: string, now: int): Meta {
    Drafted(if key in s.rooms then Some(s.rooms[key].meta) else None, GenerationFor(s, key), content, ttl, author, now)
  }

  ghost function Replace(s: Shop, key: string, content: string, ttl: int, author: string, claim: Lock, now: int,
                         later: int): Turn
  {
    var m := NextMeta(s, key, content, ttl, author, now);
    var r := Room(SaveTree(author, content), m.(lock := ClaimedLock(m.lock, claim)));
    Admit(Counted(s, m.generation), key, WithHistory(r, false, later), true)
  }

  ghost function SaveTurn(s0: Shop, key: string, content: string, ttl: int, author: string, base: int, claim: Lock,
                          allowed: bool, now: int, later: int): Turn
  {
    if Utf8Length(content) > MAX_CONTENT_BYTES then Turn(s0, Refused(ContentTooLarge))
    else SaveLive(Live(s0, key, now), key, content, ttl, author, base, claim, allowed, now, later)
  }

  ghost function SaveLive(s: Shop, key: string, content: string, ttl: int, author: string, base: int, claim: Lock,
                          allowed: bool, now: int, later: int): Turn
  {
    if Barred(s, key, allowed) then Turn(s, Refused(PasswordMismatch))
    else if base > 0 && !(key in s.rooms && s.rooms[key].meta.version == base) then Turn(s, Refused(VersionConflict))
    else if key in s.rooms && s.rooms[key].meta.content == content && s.rooms[key].meta.ttl == ttl then
      Refresh(s, key, ttl, author, claim, now)
    else Replace(s, key, content, ttl, author, claim, now, later)
  }

  // ----- operation batches --------------------------------------------------------------------------

  ghost predicate TreesOk(s: Shop) {
    forall k :: k in s.rooms ==> WellFormed(s.rooms[k].tree)
  }

  function TreeAt(s: Shop, key: string): Tree {
    if key in s.rooms then s.rooms[key].tree else EMPTY
  }

  function TtlFor(s: Shop, key: string, ttl: int): int {
    if ttl > 0 || key !in s.rooms then ttl else s.rooms[key].meta.ttl
  }

  function BatchOutcome(t: Tree, ops: seq<Op>): Outcome {
    if ops == [] then Outcome(t, false, None) else ApplyBatch(t, ops)
  }

  lemma BatchStays(t: Tree, ops: seq<Op>)
    requires WellFormed(t)
    ensures WellFormed(BatchOutcome(t, ops).tree)
  {
    if ops != [] && ValidateBatch(ops).None? { RunStays(t, ops); }
  }

  /** A batch that changes nothing still refreshes the room, and tells subscribers when the ttl changed. */
  function Touched(s: Shop, key: string, ttl: int, author: string, now: int): Turn
    requires key in s.rooms
  {
    var m, g, t := s.rooms[key].meta, GenerationFor(s, key), TtlFor(s, key, ttl);
    var changes := t != m.ttl;
    var r := Room(s.rooms[key].tree,
                  m.(expiresAt := now + t, ttl := t, generation := g, updatedAt := now,
                     updatedBy := if author != "" then author else m.updatedBy,
                     version := if changes then m.version + 1 else m.version));
    Turn(Installed(Counted(s, g), key, r, changes), Granted(Some(r), false))
  }

  ghost function ApplyTurn(s0: Shop, key: string, ops: seq<Op>, ttl: int, author: string, allowed: bool, now: int,
                           later: int): Turn
    requires TreesOk(s0)
  {
    ApplyLive(Live(s0, key, now), key, ops, ttl, author, allowed, now, later)
  }

  ghost function ApplyLive(s: Shop, key: string, ops: seq<Op>, ttl: int, author: string, allowed: bool, now: int,
                           later: int): Turn
    requires TreesOk(s)
  {
    if Barred(s, key, allowed) then Turn(s, Refused(PasswordMismatch))
    else if key !in s.rooms && ttl <= 0 then Turn(s, Refused(TtlRequired))
    else
      var counted := Counted(s, GenerationFor(s, key));
      EmptyIsWellFormed();
      var before := TreeAt(s, key);
      BatchStays(before, ops);
      var out := BatchOutcome(before, ops);
      if out.error.Some? then Turn(counted, Refused(BadBatch(out.error.value)))
      else Land(s, key, out, Text(out.tree), ops == [], ttl, author, now, later)
  }

  /** What becomes of the working copy `out` that spells `content`. */
  ghost function Land(s: Shop, key: string, out: Outcome, content: string, touchOnly: bool, ttl: int, author: string,
                      now: int, later: int): Turn
  {
    var counted := Counted(s, GenerationFor(s, key));
    if Utf8Length(content) > MAX_CONTENT_BYTES then Turn(counted, Refused(ContentTooLarge))
    else if !out.changed && key in s.rooms then Touched(s, key, ttl, author, now)
    else if !out.changed && !touchOnly then Turn(counted, Refused(NoEffect))
    else
      var r := Room(out.tree, NextMeta(s, key, content, TtlFor(s, key, ttl), author, now));
      Admit(counted, key, if out.changed then WithHistory(r, false, later) else r, out.changed)
  }

  // ----- locks, history, removal ------------------------------------------------------------------------

  function ScopeOf(scope: string): string {
    if scope == "" then SCOPE_EDIT else scope
  }

  /** The lock `SetPassword` leaves, or the reason it refuses. */
  function Relock(held: Lock, next: Secret, scope: string): Lock {
    if next.Blank? then Unlocked else
    var wanted := if scope == "" && held.Locked? then held.scope else scope;
    if held.Locked? && next.same then
      (if ScopeOf(held.scope) == ScopeOf(wanted) then held else held.(scope := ScopeOf(wanted)))
    else if next.derived.Some? then Locked(next.derived.value.0, next.derived.value.1, ScopeOf(wanted))
    else held
  }

  function SetPasswordTurn(s0: Shop, key: string, currentOk: bool, next: Secret, scope: string, now: int, later: int):
    Turn
  {
    SetPasswordLive(Live(s0, key, now), key, currentOk, next, scope, later)
  }

  function SetPasswordLive(s: Shop, key: string, currentOk: bool, next: Secret, scope: string, later: int): Turn {
    if key !in s.rooms then Turn(s, Refused(RoomNotFound))
    else if Barred(s, key, currentOk) then Turn(s, Refused(PasswordMismatch))
    else
      var r := s.rooms[key];
      var m := r.meta;
      if next.Secret? && !(m.lock.Locked? && next.same) && next.derived.None? then Turn(s, Refused(DerivationFailed))
      else
        var rewrites := !(next.Blank? && m.lock.Unlocked?) && !(next.Secret? && m.lock.Locked? && next.same &&
                          Relock(m.lock, next, scope) == m.lock);
        if !rewrites then Turn(s, Granted(Some(r), false))
        else
          var relocked := r.(meta := m.(lock := Relock(m.lock, next, scope), version := m.version + 1,
            updatedAt := later));
          Turn(Installed(s, key, relocked, true), Granted(Some(relocked), true))
  }

  ghost function CaptureTurn(s0: Shop, key: string, allowed: bool, now: int, later: int): Turn {
    CaptureLive(Live(s0, key, now), key, allowed, later)
  }

  ghost function CaptureLive(s: Shop, key: string, allowed: bool, later: int): Turn {
    if key !in s.rooms then Turn(s, Refused(RoomNotFound))
    else if Barred(s, key, allowed) then Turn(s, Refused(PasswordMismatch))
    else
      var r := WithHistory(s.rooms[key], true, later);
      if r == s.rooms[key] then Turn(s, Granted(Some(r), false)) else Admit(s, key, r, true)
  }

  function ClearTurn(s0: Shop, key: string, allowed: bool, now: int): Turn {
    ClearLive(Live(s0, key, now), key, allowed)
  }

  function ClearLive(s: Shop, key: string, allowed: bool): Turn {
    if key !in s.rooms then Turn(s, Refused(RoomNotFound))
    else if Barred(s, key, allowed) then Turn(s, Refused(PasswordMismatch))
    else
      var r := s.rooms[key];
      if r.meta.history == [] then Turn(s, Granted(Some(r), false))
      else
        var cleared := r.(meta := r.meta.(history := []));
        Turn(Installed(s, key, cleared, true), Granted(Some(cleared), true))
  }

  function DeleteTurn(s0: Shop, key: string, allowed: bool, now: int): Turn {
    var s := Live(s0, key, now);
    if Barred(s, key, allowed) then Turn(s, Refused(PasswordMismatch))
    else Turn(Removed(s, key), Granted(None, true))
  }

  function GetTurn(s0: Shop, key: string, now: int): Turn {
    var s := Live(s0, key, now);
    Turn(s, Granted(if key in s.rooms then Some(s.rooms[key]) else None, false))
  }

  function ExpiredKeys(s: Shop, now: int): set<string> {
    set k | k in s.rooms && Expired(s.rooms[k], now)
  }

  function Swept(s: Shop, now: int): Shop {
    var gone := ExpiredKeys(s, now);
    s.(rooms := s.rooms - gone, dirty := s.dirty - gone, deleted := s.deleted + gone)
  }

  /** One critical section of the store. */
  ghost function Step(s: Shop, call: Call, now: int, later: int): Turn
    requires TreesOk(s)
  {
    match call
    case Get(key) => GetTurn(s, key, now)
    case Save(key, content, ttl, author, base, claim, allowed) =>
      SaveTurn(s, key, content, ttl, author, base, claim, allowed, now, later)
    case ApplyOps(key, ops, ttl, author, allowed) => ApplyTurn(s, key, ops, ttl, author, allowed, now, later)
    case SetPassword(key, currentOk, next, scope) => SetPasswordTurn(s, key, currentOk, next, scope, now, later)
    case Delete(key) => Turn(Removed(s, key), Granted(None, true))
    case DeleteAuth(key, allowed) => DeleteTurn(s, key, allowed, now)
    case CaptureHistory(key, allowed) => CaptureTurn(s, key, allowed, now, later)
    case ClearHistory(key, allowed) => ClearTurn(s, key, allowed, now)
    case CleanupExpired => Turn(Swept(s, now), Granted(None, false))
  }
}
