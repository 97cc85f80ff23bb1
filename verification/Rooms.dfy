/**
 Rooms as values (internal/model/clipboard.go), their budget and their version trail
 (internal/store/store.go:736-832).
 */
module Rooms {
  import opened Rga
  import opened Views
  import opened Docs

  const MAX_CONTENT_BYTES: nat := 0x10_0000
  const MAX_HISTORY_ENTRIES: nat := 20
  const HISTORY_THROTTLE_MS: int := 5000
  const HISTORY_ENTRY_OVERHEAD: nat := 64
  const BYTES_PER_ITEM: nat := 192
  const ROOM_BASE_BYTES: nat := 256

  datatype Lock = Unlocked | Locked(salt: string, hash: string, scope: string)

  datatype HistoryEntry = HistoryEntry(text: string, version: int, at: int, author: string, manual: bool)

  /** Everything about a room but its document. */
  datatype Meta = Meta(content: string, ttl: int, expiresAt: int, version: int, generation: int, lock: Lock,
                       updatedAt: int, updatedBy: string, history: seq<HistoryEntry>)

  datatype Room = Room(tree: Tree, meta: Meta)

  /** A version of an incarnation of the room under a key. */
  datatype RoomStamp = RoomStamp(key: string, generation: int, version: int)

  function StampOf(key: string, r: Room): RoomStamp {
    RoomStamp(key, r.meta.generation, r.meta.version)
  }

  /** Every document a store ever published, by stamp. */
  type Log = map<RoomStamp, Tree>

  // ----- the budget -------------------------------------------------------------------------

  /** An empty document is charged for the characters of its content, as the source does. */
  function EstimateBytes(content: string, itemCount: nat): nat {
    ROOM_BASE_BYTES + Utf8Length(content) + (if itemCount == 0 then |content| else itemCount) * BYTES_PER_ITEM
  }

  function HistoryBytes(history: seq<HistoryEntry>): nat {
    if history == [] then 0
    else HistoryBytes(history[..|history| - 1]) + Utf8Length(history[|history| - 1].text) + HISTORY_ENTRY_OVERHEAD
  }

  function RoomBytes(r: Room): nat {
    EstimateBytes(r.meta.content, |r.tree.items|) + HistoryBytes(r.meta.history)
  }

  // ----- the version trail ---------------------------------------------------------------------

  /** The trail after a capture attempt; manual captures are not throttled. */
  function Captured(m: Meta, manual: bool, nowMs: int): seq<HistoryEntry> {
    var h := m.history;
    if m.content == "" then h
    else if h != [] && h[|h| - 1].text == m.content then h
    else if h != [] && !manual && nowMs - h[|h| - 1].at < HISTORY_THROTTLE_MS then h
    else
      var longer := h + [HistoryEntry(m.content, m.version, nowMs, m.updatedBy, manual)];
      if |longer| > MAX_HISTORY_ENTRIES then longer[|longer| - MAX_HISTORY_ENTRIES..] else longer
  }

  /** An entry records the content the room had at the version it names. */
  ghost predicate EntryOk(log: Log, key: string, generation: int, e: HistoryEntry) {
    var s := RoomStamp(key, generation, e.version);
    e.text != "" && s in log && WellFormed(log[s]) && Text(log[s]) == e.text
  }

  /** Neighbours differ, and an automatic entry keeps its distance from the one before. */
  ghost predicate Apart(e: HistoryEntry, next: HistoryEntry) {
    e.text != next.text && (!next.manual ==> next.at - e.at >= HISTORY_THROTTLE_MS)
  }

  ghost predicate Chained(h: seq<HistoryEntry>) {
    && (forall i, j :: 0 <= i < j < |h| ==> h[i].version < h[j].version)
    && (forall i, j :: 0 <= i && j == i + 1 && j < |h| ==> Apart(h[i], h[j]))
  }

  ghost predicate EntriesOk(log: Log, key: string, generation: int, version: int, h: seq<HistoryEntry>) {
    forall i :: 0 <= i < |h| ==> EntryOk(log, key, generation, h[i]) && h[i].version <= version
  }

  ghost predicate TrailOk(log: Log, key: string, m: Meta) {
    |m.history| <= MAX_HISTORY_ENTRIES && Chained(m.history) &&
    EntriesOk(log, key, m.generation, m.version, m.history)
  }

  /** What holds of every live room. */
  ghost predicate RoomOk(log: Log, key: string, r: Room) {
    && WellFormed(r.tree) && r.meta.content == Text(r.tree)
    && Utf8Length(r.meta.content) <= MAX_CONTENT_BYTES
    && r.meta.version >= 1 && r.meta.generation >= 1
    && StampOf(key, r) in log && log[StampOf(key, r)] == r.tree
    && TrailOk(log, key, r.meta)
  }

  ghost predicate Extends(log: Log, log': Log) {
    forall s :: s in log ==> s in log' && log'[s] == log[s]
  }

  lemma TrailSurvives(log: Log, log': Log, key: string, m: Meta, version: int)
    requires TrailOk(log, key, m) && Extends(log, log') && m.version <= version
    ensures TrailOk(log', key, m.(version := version))
  {
    forall i | 0 <= i < |m.history| ensures EntryOk(log', key, m.generation, m.history[i]) {
      assert EntryOk(log, key, m.generation, m.history[i]);
    }
  }

  lemma RoomSurvives(log: Log, log': Log, key: string, r: Room)
    requires RoomOk(log, key, r) && Extends(log, log')
    ensures RoomOk(log', key, r)
  {
    TrailSurvives(log, log', key, r.meta, r.meta.version);
    assert r.meta == r.meta.(version := r.meta.version);
  }

  lemma ChainedTail(h: seq<HistoryEntry>, n: nat)
    requires Chained(h) && n <= |h|
    ensures Chained(h[n..])
  {
    forall i, j | 0 <= i && j == i + 1 && j < |h[n..]| ensures Apart(h[n..][i], h[n..][j]) {
      assert Apart(h[n + i], h[n + j]);
    }
  }

  lemma ChainedSnoc(h: seq<HistoryEntry>, e: HistoryEntry)
    requires Chained(h)
    requires h != [] ==> h[|h| - 1].version < e.version && Apart(h[|h| - 1], e)
    ensures Chained(h + [e])
  {
    var n := |h|;
    forall i, j | 0 <= i < j <= n ensures (h + [e])[i].version < (h + [e])[j].version {
      assert j == n && i < n - 1 ==> h[i].version < h[n - 1].version;
    }
  }

  lemma EntriesTail(log: Log, key: string, generation: int, version: int, h: seq<HistoryEntry>, n: nat)
    requires EntriesOk(log, key, generation, version, h) && n <= |h|
    ensures EntriesOk(log, key, generation, version, h[n..])
  {
    forall i | 0 <= i < |h[n..]| ensures EntryOk(log, key, generation, h[n..][i]) {
      assert EntryOk(log, key, generation, h[n + i]);
    }
  }

  lemma SnocKeepsTrail(log: Log, key: string, generation: int, h: seq<HistoryEntry>, e: HistoryEntry)
    requires Chained(h) && EntriesOk(log, key, generation, e.version, h) && EntryOk(log, key, generation, e)
    requires h != [] ==> Apart(h[|h| - 1], e)
    ensures Chained(h + [e]) && EntriesOk(log, key, generation, e.version, h + [e])
  {
    if h != [] {
      assert EntryOk(log, key, generation, h[|h| - 1]);
      assert h[|h| - 1].version != e.version;
    }
    ChainedSnoc(h, e);
  }

  /**
   A capture is skipped exactly for an empty, repeated or throttled text; otherwise the
   trail ends in the new entry, behind the newest of the old ones.
   */
  lemma CapturedExactly(m: Meta, manual: bool, nowMs: int)
    requires |m.history| <= 20
    ensures var h, h' := m.history, Captured(m, manual, nowMs);
      && (h' == h <==> m.content == "" || (h != [] && var last := h[|h| - 1];
            last.text == m.content || (!manual && nowMs - last.at < 5000)))
      && (h' != h ==>
            && |h'| == (if |h| < 20 then |h| + 1 else 20)
            && h'[|h'| - 1] == HistoryEntry(m.content, m.version, nowMs, m.updatedBy, manual)
            && h'[..|h'| - 1] == h[|h| + 1 - |h'|..])
  {
    var h, h' := m.history, Captured(m, manual, nowMs);
    var longer := h + [HistoryEntry(m.content, m.version, nowMs, m.updatedBy, manual)];
    assert longer[|longer| - 1].text == m.content;
    if |longer| > MAX_HISTORY_ENTRIES && h' == longer[1..] {
      assert h'[|h'| - 1] == longer[|longer| - 1];
      assert h'[..|h'| - 1] == h[1..];
    }
  }

  lemma CapturedShape(m: Meta, manual: bool, nowMs: int) returns (cut: nat)
    ensures var e := HistoryEntry(m.content, m.version, nowMs, m.updatedBy, manual);
      var h := m.history;
      Captured(m, manual, nowMs) == h ||
      (cut <= |h| + 1 && |h| + 1 - cut <= MAX_HISTORY_ENTRIES && Captured(m, manual, nowMs) == (h + [e])[cut..] &&
       m.content != "" && (h != [] ==> Apart(h[|h| - 1], e)))
  {
    var longer := m.history + [HistoryEntry(m.content, m.version, nowMs, m.updatedBy, manual)];
    cut := if |longer| > MAX_HISTORY_ENTRIES then |longer| - MAX_HISTORY_ENTRIES else 0;
    assert longer[0..] == longer;
  }

  /**
   A capture keeps the trail in order. At an unchanged version it adds nothing to a
   trail that already names that version: the entry would repeat the text.
   */
  lemma CaptureKeepsTrail(log: Log, key: string, m: Meta, manual: bool, nowMs: int)
    requires var s := RoomStamp(key, m.generation, m.version);
      s in log && WellFormed(log[s]) && Text(log[s]) == m.content
    requires TrailOk(log, key, m)
    ensures TrailOk(log, key, m.(history := Captured(m, manual, nowMs)))
  {
    var h, e := m.history, HistoryEntry(m.content, m.version, nowMs, m.updatedBy, manual);
    var cut := CapturedShape(m, manual, nowMs);
    if Captured(m, manual, nowMs) == h {
      assert m.(history := Captured(m, manual, nowMs)) == m;
      return;
    }
    SnocKeepsTrail(log, key, m.generation, h, e);
    ChainedTail(h + [e], cut);
    EntriesTail(log, key, m.generation, m.version, h + [e], cut);
  }

  /** The part of a room that a disk snapshot must reproduce. */
  function Durable(r: Room): Room {
    r.(meta := r.meta.(expiresAt := 0, updatedAt := 0, updatedBy := ""))
  }
}
