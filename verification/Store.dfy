/**
 The room store of internal/store/store.go: maps of clipboards and sizes, a running
 total, a generation counter and the persister's marks, updated in place under one lock.
 Every method is one critical section and is tied to the operation of `Shops` it refines.
 No method modifies any document that existed before it: what `Peek` hands out stays as it was.
 */
module Stores {
  import opened Ops
  import opened Chains
  import opened Docs
  import opened Rooms
  import opened Shops
  import opened ShopLaws

  datatype Clipboard = Clipboard(doc: Doc, meta: Meta)

  ghost function Value(c: Clipboard): Room
    reads c.doc
  {
    Room(c.doc.State(), c.meta)
  }

  /** The rooms the clipboards stand for. */
  ghost predicate Mirrors(items: map<string, Clipboard>, rooms: map<string, Room>)
    reads set k | k in items :: items[k].doc
  {
    items.Keys == rooms.Keys && forall k :: k in items ==> Value(items[k]) == rooms[k]
  }

  lemma MirrorsPut(items: map<string, Clipboard>, rooms: map<string, Room>, key: string, item: Clipboard)
    requires Mirrors(items, rooms)
    ensures Mirrors(items[key := item], rooms[key := Value(item)])
  {
  }

  lemma MirrorsRemove(items: map<string, Clipboard>, rooms: map<string, Room>, gone: set<string>)
    requires Mirrors(items, rooms)
    ensures Mirrors(items - gone, rooms - gone)
  {
  }

  lemma MirrorsSize(items: map<string, Clipboard>, rooms: map<string, Room>)
    requires Mirrors(items, rooms)
    ensures |items| == |rooms|
  {
    assert |items| == |items.Keys| && |rooms| == |rooms.Keys|;
  }

  function Without(s: Shop, gone: set<string>): Shop {
    s.(rooms := s.rooms - gone, dirty := s.dirty - gone, deleted := s.deleted + gone)
  }

  lemma SweptNone(s: Shop)
    ensures Without(s, {}) == s
  {
    assert s.rooms - {} == s.rooms;
  }

  lemma WithoutOneMore(s: Shop, gone: set<string>, key: string)
    ensures Removed(Without(s, gone), key) == Without(s, gone + {key})
  {
    assert s.rooms - gone - {key} == s.rooms - (gone + {key});
    assert s.dirty - gone - {key} == s.dirty - (gone + {key});
    assert s.deleted + gone + {key} == s.deleted + (gone + {key});
  }

  /** What a critical section returned, as a reply. */
  ghost predicate Answers(reply: Reply, copy: Option<Clipboard>, error: Option<StoreError>)
    reads if copy.Some? then {copy.value.doc} else {}
  {
    match reply
    case Granted(room, _) =>
      error == None && (if copy.Some? then room == Some(Value(copy.value)) else room == None)
    case Refused(e) => error == Some(e)
  }

  /** The incremental accounting is exact. */
  ghost predicate Booked(rooms: map<string, Room>, sizeBy: map<string, int>, total: int) {
    && sizeBy.Keys == rooms.Keys && total == Total(rooms)
    && (forall k :: k in rooms ==> sizeBy[k] == RoomBytes(rooms[k]))
  }

  function SizeOf(sizeBy: map<string, int>, key: string): int {
    if key in sizeBy then sizeBy[key] else 0
  }

  lemma BookedAt(rooms: map<string, Room>, sizeBy: map<string, int>, total: int, key: string)
    requires Booked(rooms, sizeBy, total)
    ensures (key in sizeBy <==> key in rooms) && total == Total(rooms)
    ensures SizeOf(sizeBy, key) == if key in rooms then RoomBytes(rooms[key]) else 0
  {
  }

  lemma BookedPut(rooms: map<string, Room>, sizeBy: map<string, int>, total: int, key: string, r: Room)
    requires Booked(rooms, sizeBy, total)
    ensures Booked(rooms[key := r], sizeBy[key := RoomBytes(r)], total - SizeOf(sizeBy, key) + RoomBytes(r))
  {
    TotalWith(rooms, key, r);
  }

  lemma BookedRewrite(rooms: map<string, Room>, sizeBy: map<string, int>, total: int, key: string, r: Room)
    requires Booked(rooms, sizeBy, total) && key in rooms && r.tree == rooms[key].tree
    requires r.meta.content == rooms[key].meta.content && r.meta.history == rooms[key].meta.history
    ensures Booked(rooms[key := r], sizeBy, total)
  {
    hide Total;
    TotalWith(rooms, key, r);
  }

  lemma BookedRemove(rooms: map<string, Room>, sizeBy: map<string, int>, total: int, key: string)
    requires Booked(rooms, sizeBy, total)
    ensures Booked(rooms - {key}, sizeBy - {key}, total - SizeOf(sizeBy, key)) && total - SizeOf(sizeBy, key) >= 0
  {
    if key in rooms { TotalWithout(rooms, key); } else { assert rooms - {key} == rooms; }
  }

  lemma CountingKeepsRooms(s: Shop, g: int)
    ensures Counted(s, g).rooms == s.rooms
  {
  }

  class Store {
    var items: map<string, Clipboard>
    var sizeBy: map<string, int>
    var nextGeneration: int
    var total: int
    var dirty: set<string>
    var deleted: set<string>
    const maxRooms: nat
    const maxTotal: nat

    ghost var rooms: map<string, Room>

    ghost function Published(): set<Doc>
      reads this
    {
      set k | k in items :: items[k].doc
    }

    ghost function View(): Shop
      reads this
    {
      Shop(rooms, nextGeneration, dirty, deleted, maxRooms, maxTotal)
    }

    ghost predicate Valid()
      reads this, Published()
    {
      Mirrors(items, rooms) && Booked(rooms, sizeBy, total)
    }

    /** The reply grants the room now held under `key`. */
    ghost predicate Held(reply: Reply, key: string)
      reads this
    {
      reply.Granted? && key in rooms && reply.room == Some(rooms[key])
    }

    constructor (seed: int, maxRooms: nat, maxTotal: nat)
      ensures Valid() && View() == NewShop(seed, maxRooms, maxTotal)
    {
      items, rooms := map[], map[];
      sizeBy := map[];
      nextGeneration := seed;
      total := 0;
      dirty, deleted := {}, {};
      this.maxRooms := maxRooms;
      this.maxTotal := maxTotal;
    }

    // ----- bookkeeping ---------------------------------------------------------------------

    method NewGenerationLocked() returns (g: int)
      modifies this`nextGeneration
      ensures nextGeneration == g == NewGeneration(old(nextGeneration))
    {
      nextGeneration := nextGeneration + 1;
      if nextGeneration <= 0 { nextGeneration := 1; }
      g := nextGeneration;
    }

    method ExistingGenerationLocked(generation: int) returns (g: int)
      modifies this`nextGeneration
      ensures g == if generation > 0 then generation else NewGeneration(old(nextGeneration))
      ensures nextGeneration == if g > old(nextGeneration) then g else old(nextGeneration)
    {
      if generation <= 0 {
        g := NewGenerationLocked();
        return;
      }
      if generation > nextGeneration { nextGeneration := generation; }
      return generation;
    }

    method CanAcceptLocked(isNew: bool, oldBytes: int, newBytes: int) returns (error: Option<StoreError>)
      ensures error ==
        if isNew && |items| >= maxRooms then Some(TooManyRooms)
        else if newBytes > oldBytes && total + newBytes - oldBytes > maxTotal then Some(MemoryLimit)
        else None
    {
      if isNew && |items| >= maxRooms { return Some(TooManyRooms); }
      var delta := newBytes - oldBytes;
      if delta <= 0 { return None; }
      if total + delta > maxTotal { return Some(MemoryLimit); }
      return None;
    }

    /** Takes a room off the books; the clamp never bites while the books are exact. */
    method UnchargeLocked(key: string)
      modifies this`total, this`sizeBy
      ensures sizeBy == old(sizeBy) - {key}
      ensures var left := old(total) - SizeOf(old(sizeBy), key); total == if left < 0 then 0 else left
    {
      if key in sizeBy { total := total - sizeBy[key]; }
      sizeBy := sizeBy - {key};
      if total < 0 { total := 0; }
    }

    method RemoveLocked(key: string)
      requires Valid()
      modifies this
      ensures Valid() && View() == Removed(old(View()), key)
      ensures items == old(items) - {key} && key in deleted && key !in dirty
    {
      hide Booked, RoomBytes, Total;
      BookedRemove(rooms, sizeBy, total, key);
      MirrorsRemove(items, rooms, {key});
      UnchargeLocked(key);
      items, rooms := items - {key}, rooms - {key};
      dirty, deleted := dirty - {key}, deleted + {key};
    }

    method EnterLocked(key: string, item: Clipboard, newBytes: int)
      requires Valid() && newBytes == RoomBytes(Value(item))
      modifies this`items, this`rooms, this`sizeBy, this`total
      ensures Valid() && View() == Installed(old(View()), key, Value(item), false)
      ensures key in items && items[key] == item
    {
      hide Booked, RoomBytes;
      BookedPut(rooms, sizeBy, total, key, Value(item));
      MirrorsPut(items, rooms, key, item);
      if key in sizeBy { total := total - sizeBy[key]; }
      items, rooms := items[key := item], rooms[key := Value(item)];
      sizeBy := sizeBy[key := newBytes];
      total := total + newBytes;
    }

    method PutLocked(key: string, item: Clipboard, newBytes: int)
      requires Valid() && newBytes == RoomBytes(Value(item))
      modifies this
      ensures Valid() && View() == Installed(old(View()), key, Value(item), true)
      ensures key in items && items[key] == item
    {
      hide Booked, RoomBytes;
      EnterLocked(key, item, newBytes);
      dirty := dirty + {key};
    }

    /** `items[key] = current` without touching the books: document, text and trail are the old ones. */
    method RewriteLocked(key: string, meta: Meta, marked: bool)
      requires Valid() && key in items
      requires meta.content == items[key].meta.content && meta.history == items[key].meta.history
      modifies this
      ensures Valid() && View() == Installed(old(View()), key, Room(old(rooms)[key].tree, meta), marked)
      ensures key in items && items[key] == Clipboard(old(items)[key].doc, meta)
      ensures key in rooms && rooms[key] == Room(old(rooms)[key].tree, meta)
    {
      hide Booked;
      ghost var r := Room(rooms[key].tree, meta);
      BookedRewrite(rooms, sizeBy, total, key, r);
      MirrorsPut(items, rooms, key, items[key].(meta := meta));
      items, rooms := items[key := items[key].(meta := meta)], rooms[key := r];
      if marked { dirty := dirty + {key}; }
    }

    method GetLiveLocked(key: string, now: int) returns (found: Option<Clipboard>)
      requires Valid()
      modifies this
      ensures Valid() && View() == Live(old(View()), key, now)
      ensures found == if key in items then Some(items[key]) else None
      ensures key in items ==> key in old(items) && items[key] == old(items)[key]
    {
      if key !in items { return None; }
      if items[key].meta.expiresAt <= now {
        RemoveLocked(key);
        return None;
      }
      return Some(items[key]);
    }

    method MaybeCapture(meta: Meta, manual: bool, later: int) returns (meta': Meta, captured: bool)
      ensures meta' == meta.(history := Captured(meta, manual, later / NANOS_PER_MILLI))
      ensures captured <==> meta' != meta
    {
      if meta.content == "" { return meta, false; }
      var nowMs, n := later / NANOS_PER_MILLI, |meta.history|;
      if n > 0 {
        var last := meta.history[n - 1];
        if last.text == meta.content { return meta, false; }
        if !manual && nowMs - last.at < HISTORY_THROTTLE_MS { return meta, false; }
      }
      var longer := meta.history + [HistoryEntry(meta.content, meta.version, nowMs, meta.updatedBy, manual)];
      assert longer[|longer| - 1].text == meta.content;
      if |longer| > MAX_HISTORY_ENTRIES { longer := longer[|longer| - MAX_HISTORY_ENTRIES..]; }
      assert longer[|longer| - 1].text == meta.content;
      return meta.(history := longer), true;
    }

    method BytesOf(item: Clipboard) returns (bytes: int)
      ensures bytes == RoomBytes(Value(item))
    {
      var trail, h := 0, item.meta.history;
      for i := 0 to |h|
        invariant trail == HistoryBytes(h[..i])
      {
        assert h[..i + 1][..i] == h[..i];
        trail := trail + Utf8Length(h[i].text) + HISTORY_ENTRY_OVERHEAD;
      }
      assert h[..|h|] == h;
      bytes := EstimateBytes(item.meta.content, |item.doc.items|) + trail;
    }

    method CloneOf(item: Clipboard) returns (copy: Clipboard)
      ensures fresh(copy.doc) && Value(copy) == Value(item)
    {
      var doc := item.doc.Clone();
      copy := Clipboard(doc, item.meta);
    }

    /** Writes the room if it fits the limits. */
    method AdmitLocked(key: string, item: Clipboard) returns (error: Option<StoreError>)
      requires Valid()
      modifies this
      ensures Valid() && error == Fits(old(View()), key, Value(item))
      ensures View() == if error.None? then Installed(old(View()), key, Value(item), true) else old(View())
      ensures error.None? ==> key in items && items[key] == item
    {
      hide Booked;
      BookedAt(rooms, sizeBy, total, key);
      MirrorsSize(items, rooms);
      var newBytes := BytesOf(item);
      var oldBytes := 0;
      if key in items { oldBytes := sizeBy[key]; }
      error := CanAcceptLocked(key !in items, oldBytes, newBytes);
      assert error == Fits(View(), key, Value(item));
      if error.None? { PutLocked(key, item, newBytes); }
    }

    /** Drafts the next version around `doc`, captures it if asked to, and stores it if it fits. */
    method WriteVersionLocked(key: string, doc: Doc, content: string, g: int, ttl: int, author: string, claim: Lock,
                              captures: bool, now: int, later: int) returns (error: Option<StoreError>)
      requires Valid()
      modifies this
      ensures Valid()
      ensures var current := if key in old(rooms) then Some(old(rooms)[key].meta) else None;
        var m := Drafted(current, g, content, ttl, author, now);
        var r := Room(doc.State(), m.(lock := ClaimedLock(m.lock, claim)));
        var turn := Admit(old(View()), key, if captures then WithHistory(r, false, later) else r, captures);
        View() == turn.shop &&
        if error.Some? then turn.reply == Refused(error.value)
          else Held(turn.reply, key) && turn.reply.changed == captures
    {
      hide Booked, Fits, Total, RoomBytes, Captured;
      var m := Drafted(if key in items then Some(items[key].meta) else None, g, content, ttl, author, now);
      if claim.Locked? && m.lock.Unlocked? { m := m.(lock := claim); }
      if captures {
        var captured;
        m, captured := MaybeCapture(m, false, later);
      }
      error := AdmitLocked(key, Clipboard(doc, m));
    }

    /** Settles the generation of the next write under `key`. */
    method SettleGenerationLocked(key: string) returns (g: int)
      requires Valid()
      modifies this`nextGeneration
      ensures g == GenerationFor(old(View()), key) && View() == Counted(old(View()), g) && Valid()
    {
      hide Booked;
      if key in items {
        g := ExistingGenerationLocked(items[key].meta.generation);
      } else {
        g := NewGenerationLocked();
      }
    }

    // ----- full-document save ------------------------------------------------------------------

    method RefreshLocked(key: string, ttl: int, author: string, claim: Lock, now: int)
      requires Valid() && key in items
      modifies this
      ensures Valid() && View() == Refresh(old(View()), key, ttl, author, claim, now).shop
      ensures Held(Refresh(old(View()), key, ttl, author, claim, now).reply, key)
    {
      hide Booked, RoomBytes, Installed, Counted, GenerationFor;
      var m := items[key].meta;
      var g := SettleGenerationLocked(key);
      m := m.(generation := g, expiresAt := now + ttl, updatedAt := now);
      if author != "" { m := m.(updatedBy := author); }
      var claims := claim.Locked? && m.lock.Unlocked?;
      if claims { m := m.(lock := claim, version := m.version + 1); }
      RewriteLocked(key, m, claims);
    }

    method ReplaceLocked(key: string, content: string, ttl: int, author: string, claim: Lock, now: int, later: int)
      returns (error: Option<StoreError>)
      requires Valid()
      modifies this
      ensures Valid()
      ensures var turn := Replace(old(View()), key, content, ttl, author, claim, now, later);
        View() == turn.shop && if error.Some? then turn.reply == Refused(error.value) else Held(turn.reply, key)
    {
      hide Booked, Fits, SaveTree, Captured;
      var doc := SavedDoc(author, content);
      var g := SettleGenerationLocked(key);
      error := WriteVersionLocked(key, doc, content, g, ttl, author, claim, true, now, later);
    }

    method SavedDoc(author: string, content: string) returns (doc: Doc)
      ensures fresh(doc) && doc.State() == SaveTree(author, content)
    {
      var site := if author == "" then SERVER_SITE else author;
      var error;
      doc, error := Doc.BuildFromString(site, content);
      if error.Some? { doc, error := Doc.BuildFromString(SERVER_SITE, content); }
    }

    method SaveLocked(key: string, content: string, ttl: int, author: string, base: int, claim: Lock, now: int,
        later: int)
      returns (error: Option<StoreError>)
      requires Valid()
      modifies this
      ensures Valid()
      ensures var turn := SaveLive(old(View()), key, content, ttl, author, base, claim, true, now, later);
        View() == turn.shop && if error.Some? then turn.reply == Refused(error.value) else Held(turn.reply, key)
    {
      hide Booked, Replace, Refresh;
      if base > 0 {
        if key !in items || items[key].meta.version != base { return Some(VersionConflict); }
      }
      if key in items && items[key].meta.content == content && items[key].meta.ttl == ttl {
        RefreshLocked(key, ttl, author, claim, now);
        return None;
      }
      error := ReplaceLocked(key, content, ttl, author, claim, now, later);
    }

    method SaveWithBase(key: string, content: string, ttl: int, author: string, base: int, claim: Lock, allowed: bool,
                        now: int, later: int)
      returns (copy: Option<Clipboard>, error: Option<StoreError>)
      requires Valid()
      modifies this
      ensures Valid() && (copy.Some? ==> fresh(copy.value.doc))
      ensures var turn := SaveTurn(old(View()), key, content, ttl, author, base, claim, allowed, now, later);
        View() == turn.shop && Answers(turn.reply, copy, error)
    {
      hide Booked, Replace, Refresh;
      if Utf8Length(content) > MAX_CONTENT_BYTES { return None, Some(ContentTooLarge); }
      var current := GetLiveLocked(key, now);
      if current.Some? && current.value.meta.lock.Locked? && !allowed { return None, Some(PasswordMismatch); }
      error := SaveLocked(key, content, ttl, author, base, claim, now, later);
      if error.Some? { return None, error; }
      var clone := CloneOf(items[key]);
      copy := Some(clone);
    }

    // ----- operation batches --------------------------------------------------------------------

    /** `s` is the store before the generation was settled. */
    method TouchLocked(key: string, g: int, ttl: int, author: string, now: int, ghost s: Shop)
      requires Valid() && key in items && g == GenerationFor(s, key) && View() == Counted(s, g)
      modifies this
      ensures Valid() && key in s.rooms && View() == Touched(s, key, ttl, author, now).shop
      ensures var reply := Touched(s, key, ttl, author, now).reply; Held(reply, key) && !reply.changed
    {
      hide Booked, Installed, Counted, GenerationFor;
      CountingKeepsRooms(s, g);
      var m := items[key].meta;
      var curTtl := if ttl > 0 then ttl else m.ttl;
      var ttlChanged := curTtl != m.ttl;
      m := m.(expiresAt := now + curTtl, ttl := curTtl, generation := g, updatedAt := now);
      if ttlChanged { m := m.(version := m.version + 1); }
      if author != "" { m := m.(updatedBy := author); }
      RewriteLocked(key, m, ttlChanged);
    }

    /** The clone of the room's document, or a new one, with the batch applied. */
    method WorkingCopy(key: string, ops: seq<Op>) returns (working: Doc, changed: bool, error: Option<Error>)
      requires Valid()
      ensures fresh(working)
      ensures Outcome(working.State(), changed, error) == BatchOutcome(TreeAt(View(), key), ops)
    {
      hide Booked;
      if key in items { working := items[key].doc.Clone(); } else { working := new Doc(); }
      changed, error := false, None;
      if |ops| > 0 { changed, error := working.ApplyBatch(ops); }
    }

    /** Stores the working copy once the limits allow; `s` is the store before the generation was settled. */
    method LandLocked(key: string, working: Doc, content: string, changed: bool, touchOnly: bool, g: int, ttl: int,
                      author: string, now: int, later: int, ghost s: Shop) returns (error: Option<StoreError>)
      requires Valid() && g == GenerationFor(s, key) && View() == Counted(s, g)
      modifies this
      ensures Valid()
      ensures var turn := Land(s, key, Outcome(working.State(), changed, None), content, touchOnly, ttl, author, now,
        later);
        View() == turn.shop &&
        if error.Some? then turn.reply == Refused(error.value)
          else Held(turn.reply, key) && changed == turn.reply.changed
    {
      hide Booked, Admit, Captured, Utf8Length, Touched;
      if Utf8Length(content) > MAX_CONTENT_BYTES { return Some(ContentTooLarge); }
      if !changed && key in items {
        TouchLocked(key, g, ttl, author, now, s);
        return None;
      }
      if !changed && !touchOnly { return Some(NoEffect); }
      var curTtl := ttl;
      if key in items && ttl <= 0 { curTtl := items[key].meta.ttl; }
      error := WriteVersionLocked(key, working, content, g, curTtl, author, Unlocked, changed, now, later);
    }

    method ApplyLocked(key: string, ops: seq<Op>, ttl: int, author: string, now: int, later: int)
      returns (changed: bool, error: Option<StoreError>)
      requires Valid() && TreesOk(View())
      modifies this
      ensures Valid()
      ensures var turn := ApplyLive(old(View()), key, ops, ttl, author, true, now, later);
        View() == turn.shop &&
        if error.Some? then turn.reply == Refused(error.value)
          else Held(turn.reply, key) && changed == turn.reply.changed
    {
      hide Booked, Land;
      if key !in items && ttl <= 0 { return false, Some(TtlRequired); }
      var g := SettleGenerationLocked(key);
      var working, cause;
      working, changed, cause := WorkingCopy(key, ops);
      if cause.Some? { return false, Some(BadBatch(cause.value)); }
      EmptyIsWellFormed();
      BatchStays(TreeAt(View(), key), ops);
      var content := working.Materialize();
      error := LandLocked(key, working, content, changed, |ops| == 0, g, ttl, author, now, later, old(View()));
    }

    /** The batch lands in a working copy; nothing stored changes until the limits have been checked. */
    method ApplyOps(key: string, ops: seq<Op>, ttl: int, author: string, allowed: bool, now: int, later: int)
      returns (copy: Option<Clipboard>, changed: bool, error: Option<StoreError>)
      requires Valid() && TreesOk(View())
      modifies this
      ensures Valid() && (copy.Some? ==> fresh(copy.value.doc))
      ensures var turn := ApplyTurn(old(View()), key, ops, ttl, author, allowed, now, later);
        View() == turn.shop && Answers(turn.reply, copy, error) && (error.None? ==> changed == turn.reply.changed)
    {
      changed, copy := false, None;
      var current := GetLiveLocked(key, now);
      if current.Some? && current.value.meta.lock.Locked? && !allowed { return None, false, Some(PasswordMismatch); }
      changed, error := ApplyLocked(key, ops, ttl, author, now, later);
      if error.Some? { return None, false, error; }
      var clone := CloneOf(items[key]);
      copy := Some(clone);
    }

    // ----- reads, locks, history, removal -------------------------------------------------------

    /** A deep copy; whatever the caller does to it, the store keeps its own. */
    method Get(key: string, now: int) returns (copy: Option<Clipboard>)
      requires Valid()
      modifies this
      ensures Valid() && (copy.Some? ==> fresh(copy.value.doc))
      ensures copy.Some? <==> key in old(items) && now < old(items)[key].meta.expiresAt
      ensures copy.Some? ==> Value(copy.value) == old(Value(items[key]))
      ensures var turn := GetTurn(old(View()), key, now); View() == turn.shop && Answers(turn.reply, copy, None)
    {
      hide Booked;
      var current := GetLiveLocked(key, now);
      if current.None? { return None; }
      var clone := CloneOf(current.value);
      return Some(clone);
    }

    /** The stored clipboard itself: sound because no method modifies a published document. */
    method Peek(key: string, now: int) returns (item: Option<Clipboard>)
      requires Valid()
      modifies this
      ensures Valid() && (item.Some? ==> item.value.doc in Published())
      ensures item == if key in old(items) && now < old(items)[key].meta.expiresAt then Some(old(items)[key]) else None
      ensures var turn := GetTurn(old(View()), key, now); View() == turn.shop && Answers(turn.reply, item, None)
    {
      hide Booked;
      item := GetLiveLocked(key, now);
    }

    method SetPassword(key: string, currentOk: bool, next: Secret, scope: string, now: int, later: int)
      returns (error: Option<StoreError>)
      requires Valid()
      modifies this
      ensures Valid()
      ensures var turn := SetPasswordTurn(old(View()), key, currentOk, next, scope, now, later);
        View() == turn.shop && error == if turn.reply.Refused? then Some(turn.reply.error) else None
    {
      hide Booked, SetPasswordLive;
      var item := GetLiveLocked(key, now);
      error := SetPasswordLocked(key, currentOk, next, scope, later);
    }

    method SetPasswordLocked(key: string, currentOk: bool, next: Secret, scope: string, later: int)
      returns (error: Option<StoreError>)
      requires Valid()
      modifies this
      ensures Valid()
      ensures var turn := SetPasswordLive(old(View()), key, currentOk, next, scope, later);
        View() == turn.shop && error == if turn.reply.Refused? then Some(turn.reply.error) else None
    {
      hide Booked, Relock, RoomBytes, Installed;
      if key !in items { return Some(RoomNotFound); }
      var m := items[key].meta;
      if m.lock.Locked? && !currentOk { return Some(PasswordMismatch); }
      var lock, rewrites;
      lock, rewrites, error := RelockOf(m.lock, next, scope);
      if rewrites { RewriteLocked(key, m.(lock := lock, version := m.version + 1, updatedAt := later), true); }
    }

    method RelockOf(held: Lock, next: Secret, scope: string) returns (lock: Lock, rewrites: bool,
        error: Option<StoreError>)
      ensures error.Some? <==> next.Secret? && !(held.Locked? && next.same) && next.derived.None?
      ensures error.Some? ==> error.value == DerivationFailed && !rewrites
      ensures error.None? ==> lock == Relock(held, next, scope)
      ensures error.None? ==>
        (rewrites <==> !(next.Blank? && held.Unlocked?) && !(next.Secret? && held.Locked? && next.same && lock == held))
    {
      if next.Blank? { return Unlocked, held.Locked?, None; }
      var wanted := if scope == "" && held.Locked? then held.scope else scope;
      wanted := ScopeOf(wanted);
      if held.Locked? && next.same {
        if ScopeOf(held.scope) == wanted { return held, false, None; }
        return held.(scope := wanted), true, None;
      }
      if next.derived.None? { return held, false, Some(DerivationFailed); }
      return Locked(next.derived.value.0, next.derived.value.1, wanted), true, None;
    }

    method CaptureHistory(key: string, allowed: bool, now: int, later: int)
      returns (trail: seq<HistoryEntry>, error: Option<StoreError>)
      requires Valid()
      modifies this
      ensures Valid()
      ensures var turn := CaptureTurn(old(View()), key, allowed, now, later);
        View() == turn.shop &&
        match turn.reply
        case Granted(room, _) => error == None && room.Some? && trail == room.value.meta.history
        case Refused(e) => error == Some(e)
    {
      hide Booked, Fits, Captured;
      trail := [];
      var item := GetLiveLocked(key, now);
      if item.None? { return [], Some(RoomNotFound); }
      if item.value.meta.lock.Locked? && !allowed { return [], Some(PasswordMismatch); }
      var m, captured := MaybeCapture(item.value.meta, true, later);
      if !captured { return m.history, None; }
      error := AdmitLocked(key, item.value.(meta := m));
      if error.None? { trail := m.history; }
    }

    method ClearHistory(key: string, allowed: bool, now: int) returns (error: Option<StoreError>)
      requires Valid()
      modifies this
      ensures Valid()
      ensures var turn := ClearTurn(old(View()), key, allowed, now);
        View() == turn.shop && error == if turn.reply.Refused? then Some(turn.reply.error) else None
      ensures error.None? ==> key in old(items) && key in items
      ensures error.None? ==> items[key] == old(items)[key].(meta := old(items)[key].meta.(history := []))
    {
      hide Booked;
      var item := GetLiveLocked(key, now);
      if item.None? { return Some(RoomNotFound); }
      if item.value.meta.lock.Locked? && !allowed { return Some(PasswordMismatch); }
      if |item.value.meta.history| == 0 { return None; }
      var cleared := item.value.(meta := item.value.meta.(history := []));
      var newBytes := BytesOf(cleared);
      PutLocked(key, cleared, newBytes);
      return None;
    }

    method Delete(key: string)
      requires Valid()
      modifies this
      ensures Valid() && View() == Removed(old(View()), key)
      ensures key !in items && key in deleted && key !in dirty
    {
      hide Booked;
      RemoveLocked(key);
    }

    method DeleteAuth(key: string, allowed: bool, now: int) returns (error: Option<StoreError>)
      requires Valid()
      modifies this
      ensures Valid()
      ensures var turn := DeleteTurn(old(View()), key, allowed, now);
        View() == turn.shop && error == if turn.reply.Refused? then Some(turn.reply.error) else None
      ensures error.None? ==> key !in items && key in deleted && key !in dirty
    {
      hide Booked;
      var item := GetLiveLocked(key, now);
      if item.Some? && item.value.meta.lock.Locked? && !allowed { return Some(PasswordMismatch); }
      RemoveLocked(key);
      return None;
    }

    /** Sweeps the map in whatever order it is iterated. */
    method CleanupExpired(now: int)
      requires Valid()
      modifies this
      ensures Valid() && View() == Swept(old(View()), now)
      ensures forall k :: k in items <==> k in old(items) && now < old(items)[k].meta.expiresAt
    {
      hide Booked;
      var rest := items.Keys;
      ghost var gone: set<string>, s := {}, View();
      SweptNone(s);
      while rest != {}
        invariant Valid() && rest <= items.Keys && gone <= ExpiredKeys(s, now)
        invariant View() == Without(s, gone)
        invariant forall k :: k in ExpiredKeys(s, now) ==> k in gone || k in rest
        decreases rest
      {
        var key :| key in rest;
        rest := rest - {key};
        if items[key].meta.expiresAt <= now {
          RemoveLocked(key);
          WithoutOneMore(s, gone, key);
          gone := gone + {key};
        }
      }
      assert gone == ExpiredKeys(s, now);
    }

    // ----- for the persister ------------------------------------------------------------------------

    /** Hands the marks to a flush and starts empty ones. */
    method SwapMarks() returns (d: set<string>, x: set<string>)
      requires Valid()
      modifies this`dirty, this`deleted
      ensures Valid() && d == old(dirty) && x == old(deleted)
      ensures View() == old(View()).(dirty := {}, deleted := {})
    {
      d, x := dirty, deleted;
      dirty, deleted := {}, {};
    }

    method MarkDirtyLocked(key: string)
      requires Valid()
      modifies this`dirty
      ensures Valid() && View() == old(View()).(dirty := old(dirty) + {key})
    {
      dirty := dirty + {key};
    }

    /** A room loaded from disk: on the books, its generation counted, not marked. */
    method RestoreLocked(key: string, item: Clipboard, newBytes: int)
      requires Valid() && key !in items && newBytes == RoomBytes(Value(item))
      modifies this
      ensures Valid()
      ensures View() == Installed(Counted(old(View()), item.meta.generation), key, Value(item), false)
    {
      hide Booked, RoomBytes;
      if item.meta.generation > nextGeneration { nextGeneration := item.meta.generation; }
      EnterLocked(key, item, newBytes);
    }
  }
}
