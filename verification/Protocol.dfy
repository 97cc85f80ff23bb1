/**
 Delivery of a room's document to a subscriber: what the server enqueues
 (internal/handler/handler.go:1277-1375, 1416-1473) and what the browser makes of
 the frames (static/app.js:2451-2465, 2481-2589, 2591-2687).
 */
module Protocol {
  import opened Rga
  import opened Ops
  import opened Browser
  import opened Chains
  import opened Wire

  /** A room incarnation and a version of it. */
  datatype Stamp = Stamp(generation: int, version: int)

  datatype Msg =
    | StateMsg(incarnation: Option<int>, version: int, exists_: bool, passwordRequired: bool, frame: Frame)
    | OpsMsg(generation: int, version: int, ops: seq<Op>)

  datatype Event = Event(version: int, generation: int, ops: seq<Op>, full: bool)

  /** What a connection last enqueued. */
  datatype Conn = Conn(lastVersion: int, lastGeneration: int, lastExists: bool)

  const FRESH := Conn(-1, -1, false)

  // ----- the server's board and its choice of frame ---------------------------------------------

  datatype Choice = Nothing | FullState | Diff(ops: seq<Op>)

  /** The board answers only for exactly the version that was read from the store. */
  function Taken(board: Option<Event>, at: Stamp): Option<Event> {
    if board.Some? && board.value.version == at.version && board.value.generation == at.generation then board else None
  }

  /** A diff goes out only to a connection that last sent the immediately preceding version. */
  function Chosen(room: Option<Stamp>, board: Option<Event>, conn: Conn, force: bool, viewLocked: bool): Choice {
    var at := if room.Some? then room.value else Stamp(0, 0);
    var changed := force || room.Some? != conn.lastExists || at.version != conn.lastVersion ||
      at.generation != conn.lastGeneration;
    if !changed then Nothing
    else if force || room.None? then FullState
    else
      var ev := Taken(board, at);
      if ev.Some? && !ev.value.full && |ev.value.ops| > 0 && at.generation == conn.lastGeneration &&
         at.version == conn.lastVersion + 1 && conn.lastExists && !viewLocked
      then Diff(ev.value.ops)
      else FullState
  }

  /**
   Nothing is sent exactly if nothing is forced and the room is as the connection remembers
   it; a diff goes out exactly if the board has the batch of this very version, and the
   connection last sent the version before it of the same incarnation, openly; everything
   else, a missing and a forced room among it, is a full state.
   */
  lemma ChosenExactly(room: Option<Stamp>, board: Option<Event>, conn: Conn, force: bool, viewLocked: bool)
    ensures var choice := Chosen(room, board, conn, force, viewLocked);
      var known := if room.Some? then conn == Conn(room.value.version, room.value.generation, true)
        else conn == Conn(0, 0, false);
      var noted := room.Some? && board.Some? && board.value.ops != [] &&
        board.value == Event(room.value.version, room.value.generation, board.value.ops, false);
      var follows := room.Some? && conn == Conn(room.value.version - 1, room.value.generation, true);
      && (choice == Nothing <==> !force && known)
      && (choice.Diff? <==> !force && !viewLocked && noted && follows)
      && (choice.Diff? ==> choice.ops == board.value.ops)
    ensures Chosen(room, board, Remember(room), false, viewLocked) == Nothing
  {
  }

  class Board {
    var lastEvent: map<string, Event>

    function At(key: string): Option<Event>
      reads this
    {
      if key in lastEvent then Some(lastEvent[key]) else None
    }

    constructor ()
      ensures lastEvent == map[]
    {
      lastEvent := map[];
    }

    method NoteOps(key: string, version: int, generation: int, ops: seq<Op>)
      modifies this
      ensures lastEvent == old(lastEvent)[key := Event(version, generation, ops, false)]
    {
      lastEvent := lastEvent[key := Event(version, generation, ops, false)];
    }

    method NoteFullState(key: string, version: int, generation: int)
      modifies this
      ensures lastEvent == old(lastEvent)[key := Event(version, generation, [], true)]
    {
      lastEvent := lastEvent[key := Event(version, generation, [], true)];
    }

    method ForgetEvent(key: string)
      modifies this
      ensures lastEvent == old(lastEvent) - {key}
    {
      lastEvent := lastEvent - {key};
    }

    method TakeEvent(key: string, version: int, generation: int) returns (ev: Option<Event>)
      ensures ev == Taken(At(key), Stamp(generation, version))
    {
      if key !in lastEvent { return None; }
      var found := lastEvent[key];
      if found.version != version || found.generation != generation { return None; }
      return Some(found);
    }

    /** Which frame to enqueue, and the connection's new memory when the frame fits its buffer. */
    method EnqueueRoomState(key: string, room: Option<Stamp>, conn: Conn, force: bool, viewLocked: bool, fits: bool)
      returns (choice: Choice, next: Conn)
      modifies this
      ensures choice == Chosen(room, old(At(key)), conn, force, viewLocked)
      ensures var known := if room.Some? then Conn(room.value.version, room.value.generation, true)
        else Conn(0, 0, false);
        choice == Nothing <==> !force && conn == known
      ensures next == if choice != Nothing && fits then Remember(room) else conn
      ensures lastEvent == if room.None? then old(lastEvent) - {key} else old(lastEvent)
    {
      var version, generation := 0, 0;
      if room.Some? {
        version, generation := room.value.version, room.value.generation;
      } else {
        ForgetEvent(key);
      }
      var changed := force || room.Some? != conn.lastExists || version != conn.lastVersion ||
        generation != conn.lastGeneration;
      choice, next := Nothing, conn;
      if changed {
        if force || room.None? {
          choice := FullState;
        } else {
          var ev := TakeEvent(key, version, generation);
          if ev.Some? && !ev.value.full && |ev.value.ops| > 0 && generation == conn.lastGeneration &&
             version == conn.lastVersion + 1 && conn.lastExists && !viewLocked {
            choice := Diff(ev.value.ops);
          } else {
            choice := FullState;
          }
        }
        if fits { next := Conn(version, generation, room.Some?); }
      }
    }
  }

  function Remember(room: Option<Stamp>): Conn {
    if room.Some? then Conn(room.value.version, room.value.generation, true) else Conn(0, 0, false)
  }

  // ----- the subscriber ------------------------------------------------------------------------------

  /** A tab that sends no operations: its document and what it knows about it. */
  datatype Client = Client(doc: Tree, knownVersion: int, knownGeneration: int, knownExists: bool)

  const NEWCOMER := Client(EMPTY, 0, 0, false)

  function SnapshotIsStale(c: Client, generation: Option<int>, version: int, exists_: bool): bool {
    if generation.None? then c.knownExists && exists_ && version < c.knownVersion
    else if generation.value < c.knownGeneration then true
    else if generation.value > c.knownGeneration then false
    else if !exists_ && c.knownExists then false
    else if exists_ && !c.knownExists then true
    else exists_ && c.knownExists && version < c.knownVersion
  }

  /**
   A state frame is stale exactly if taking it would lead back: to an earlier incarnation,
   to an earlier version of the same one, or to one that is known to be gone.
   */
  lemma StaleExactlyWhen(c: Client, generation: Option<int>, version: int, exists_: bool)
    ensures var back := version < c.knownVersion && c.knownExists;
      SnapshotIsStale(c, generation, version, exists_) <==>
      if generation.None? then exists_ && back
      else generation.value < c.knownGeneration ||
           (generation.value == c.knownGeneration && exists_ && (!c.knownExists || back))
  {
  }

  function HandleState(c: Client, m: Msg, own: string): Client
    requires m.StateMsg?
  {
    if SnapshotIsStale(c, m.incarnation, m.version, m.exists_) || m.passwordRequired then c
    else Client(Rebuild(m.frame, own), m.version,
                if m.incarnation.Some? then m.incarnation.value else c.knownGeneration, m.exists_)
  }

  function HandleOps(c: Client, m: Msg): Client
    requires m.OpsMsg?
  {
    if m.generation != c.knownGeneration || !c.knownExists then c
    else if m.version <= c.knownVersion || m.version > c.knownVersion + 1 then c
    else if m.ops != [] && BrowserApplyBatch(c.doc, m.ops).error.Some? then
      c.(doc := BrowserApplyBatch(c.doc, m.ops).tree)
    else Client(if m.ops == [] then c.doc else BrowserApplyBatch(c.doc, m.ops).tree, m.version, m.generation, true)
  }

  function Handle(c: Client, m: Msg, own: string): Client {
    match m
    case StateMsg(_, _, _, _, _) => HandleState(c, m, own)
    case OpsMsg(_, _, _) => HandleOps(c, m)
  }

  /** The handlers as the tab runs them; `sync` is set when a snapshot is requested. */
  class Subscriber {
    const own: string
    var doc: Tree
    var knownVersion: int
    var knownGeneration: int
    var knownExists: bool

    function State(): Client
      reads this
    {
      Client(doc, knownVersion, knownGeneration, knownExists)
    }

    constructor (own: string)
      ensures State() == NEWCOMER && this.own == own
    {
      this.own := own;
      doc, knownVersion, knownGeneration, knownExists := EMPTY, 0, 0, false;
    }

    method OnState(m: Msg)
      requires m.StateMsg?
      modifies this
      ensures State() == HandleState(old(State()), m, own)
    {
      if SnapshotIsStale(State(), m.incarnation, m.version, m.exists_) { return; }
      if m.passwordRequired { return; }
      doc := Rebuild(m.frame, own);
      knownVersion := m.version;
      if m.incarnation.Some? { knownGeneration := m.incarnation.value; }
      knownExists := m.exists_;
    }

    method OnOps(m: Msg) returns (sync: bool)
      requires m.OpsMsg?
      modifies this
      ensures State() == HandleOps(old(State()), m)
      ensures doc == if m.generation == old(knownGeneration) && old(knownExists) && m.ops != [] &&
          m.version == old(knownVersion) + 1 then BrowserApplyBatch(old(doc), m.ops).tree else old(doc)
      ensures sync ==> knownVersion == old(knownVersion) && knownGeneration == old(knownGeneration)
      ensures var skips := m.version > old(knownVersion) + 1;
        var fails := m.version == old(knownVersion) + 1 && m.ops != [] &&
          BrowserApplyBatch(old(doc), m.ops).error.Some?;
        sync <==> m.generation > old(knownGeneration) ||
                  (m.generation == old(knownGeneration) && (!old(knownExists) || skips || fails))
    {
      if m.generation < knownGeneration { return false; }
      if m.generation > knownGeneration { return true; }
      if !knownExists { return true; }
      if m.version <= knownVersion { return false; }
      if m.version > knownVersion + 1 { return true; }
      if m.ops != [] {
        var r := BrowserApplyBatch(doc, m.ops);
        doc := r.tree;
        if r.error.Some? { return true; }
      }
      knownVersion := m.version;
      knownGeneration := m.generation;
      knownExists := true;
      return false;
    }
  }

  // ----- the world -----------------------------------------------------------------------------------

  /**
   One room key over time. `log` remembers the document at every stamp the room ever
   had; `committed` the batches that changed it, noted on the board or not; `sent`
   every frame ever enqueued, so that delivery may lose, repeat and reorder at will.
   */
  datatype World = World(log: map<Stamp, Tree>, room: Option<Stamp>, committed: set<Event>, board: Option<Event>,
                         conns: map<nat, Conn>, sent: set<Msg>, client: Client)

  ghost predicate Init(w: World) {
    w == World(map[], None, {}, None, map[], {}, NEWCOMER)
  }

  ghost predicate NewStamp(w: World, s: Stamp) {
    s !in w.log && s.generation > 0 && s.version > 0
  }

  /** A full save, a lock or lifetime change, or a new room: any document under a new stamp. */
  ghost predicate Publish(w: World, w': World) {
    exists s: Stamp, t: Tree :: NewStamp(w, s) && WellFormed(t) && w' == w.(log := w.log[s := t], room := Some(s))
  }

  /** A batch that changed the document: version plus one, or a new room from nothing. */
  ghost predicate Commit(w: World, w': World) {
    exists ops: seq<Op>, s: Stamp, base: Tree ::
      NewStamp(w, s) && CommitBase(w, s, base) &&
      ApplyBatch(base, ops).error.None? && ApplyBatch(base, ops).changed &&
      w' == w.(log := w.log[s := ApplyBatch(base, ops).tree], room := Some(s),
               committed := w.committed + {Event(s.version, s.generation, ops, false)})
  }

  ghost predicate CommitBase(w: World, s: Stamp, base: Tree) {
    if s.version == 1 then base == EMPTY
    else w.room == Some(Stamp(s.generation, s.version - 1)) && w.room.value in w.log && base == w.log[w.room.value]
  }

  ghost predicate Vanish(w: World, w': World) {
    w' == w.(room := None)
  }

  /** Handlers note events late and in any order, or note a full state. */
  ghost predicate Note(w: World, w': World) {
    exists e: Event :: (e in w.committed || e.full) && w' == w.(board := Some(e))
  }

  ghost predicate Forget(w: World, w': World) {
    w' == w.(board := None)
  }

  ghost predicate ConnectAs(w: World, w': World, id: nat) {
    w' == w.(conns := w.conns[id := FRESH])
  }

  ghost predicate Connect(w: World, w': World) {
    exists id: nat :: ConnectAs(w, w', id)
  }

  /** A state frame for a room read at some earlier moment, or for a missing one. */
  ghost predicate IsStateFor(w: World, room: Option<Stamp>, m: Msg) {
    m.StateMsg? &&
    match room
    case None => m.incarnation == None && m.version == 0 && !m.exists_
    case Some(s) =>
      s in w.log && m.incarnation == Some(s.generation) && m.version == s.version && m.exists_ &&
      (m.passwordRequired || (WellFormed(w.log[s]) && Describes(m.frame, w.log[s])))
  }

  ghost predicate IsChosen(w: World, room: Option<Stamp>, choice: Choice, m: Msg) {
    match choice
    case Nothing => false
    case FullState => IsStateFor(w, room, m)
    case Diff(ops) => room.Some? && m == OpsMsg(room.value.generation, room.value.version, ops)
  }

  /** One `enqueueRoomState`: the store is read first, the board later, and a full buffer drops the frame. */
  ghost predicate Enqueue(w: World, w': World) {
    exists id: nat, room: Option<Stamp>, force: bool, viewLocked: bool, m: Msg ::
      EnqueueAs(w, w', id, room, force, viewLocked, m)
  }

  ghost predicate EnqueueAs(w: World, w': World, id: nat, room: Option<Stamp>, force: bool, viewLocked: bool, m: Msg) {
    && id in w.conns && (room.Some? ==> room.value in w.log)
    && IsChosen(w, room, Chosen(room, w.board, w.conns[id], force, viewLocked), m)
    && (w' == w || w' == w.(conns := w.conns[id := Remember(room)], sent := w.sent + {m}))
  }

  ghost predicate Sync(w: World, w': World) {
    exists room: Option<Stamp>, m: Msg :: IsStateFor(w, room, m) && w' == w.(sent := w.sent + {m})
  }

  ghost predicate Deliver(w: World, w': World) {
    exists m: Msg, own: string :: m in w.sent && w' == w.(client := Handle(w.client, m, own))
  }

  ghost predicate Next(w: World, w': World) {
    || Publish(w, w') || Commit(w, w') || Vanish(w, w') || Note(w, w') || Forget(w, w') || Connect(w, w')
    || Enqueue(w, w') || Sync(w, w') || Deliver(w, w')
  }

  // ----- consistency -----------------------------------------------------------------------------------

  ghost predicate LogOk(log: map<Stamp, Tree>) {
    forall s :: s in log ==> s.generation > 0 && s.version > 0 && WellFormed(log[s])
  }

  /** The batch leads from the preceding version to its own. */
  ghost predicate OpsLead(log: map<Stamp, Tree>, generation: int, version: int, ops: seq<Op>) {
    Stamp(generation, version) in log && ops != [] &&
    (version > 1 ==>
      Stamp(generation, version - 1) in log &&
      Run(log[Stamp(generation, version - 1)], ops).error.None? &&
      Run(log[Stamp(generation, version - 1)], ops).tree == log[Stamp(generation, version)])
  }

  ghost predicate EventOk(log: map<Stamp, Tree>, e: Event) {
    e.full || OpsLead(log, e.generation, e.version, e.ops)
  }

  ghost predicate MsgOk(log: map<Stamp, Tree>, m: Msg) {
    match m
    case StateMsg(generation, version, exists_, passwordRequired, frame) =>
      if exists_ then
        generation.Some? && Stamp(generation.value, version) in log &&
        (passwordRequired || (WellFormed(log[Stamp(generation.value, version)]) &&
                              Describes(frame, log[Stamp(generation.value, version)])))
      else generation.None?
    case OpsMsg(generation, version, ops) => OpsLead(log, generation, version, ops)
  }

  /** A client that believes in a room holds, in its own form, the document the server had at what it knows. */
  ghost predicate ClientOk(log: map<Stamp, Tree>, c: Client) {
    c.knownExists ==>
      Stamp(c.knownGeneration, c.knownVersion) in log &&
      BrowserForm(c.doc, log[Stamp(c.knownGeneration, c.knownVersion)])
  }

  ghost predicate Inv(w: World) {
    && LogOk(w.log)
    && (w.room.Some? ==> w.room.value in w.log)
    && (forall e :: e in w.committed ==> EventOk(w.log, e))
    && (w.board.Some? ==> EventOk(w.log, w.board.value))
    && (forall m :: m in w.sent ==> MsgOk(w.log, m))
    && ClientOk(w.log, w.client)
  }

  ghost predicate LogGrows(log: map<Stamp, Tree>, log': map<Stamp, Tree>) {
    forall s :: s in log ==> s in log' && log'[s] == log[s]
  }

  lemma LogOnlyGrows(w: World, w': World)
    requires Inv(w) && LogGrows(w.log, w'.log)
    ensures forall e :: e in w.committed ==> EventOk(w'.log, e)
    ensures w.board.Some? ==> EventOk(w'.log, w.board.value)
    ensures forall m :: m in w.sent ==> MsgOk(w'.log, m)
    ensures ClientOk(w'.log, w.client)
  {
    forall m | m in w.sent ensures MsgOk(w'.log, m) { assert MsgOk(w.log, m); }
    forall e | e in w.committed ensures EventOk(w'.log, e) { assert EventOk(w.log, e); }
  }

  lemma PublishKeeps(w: World, w': World)
    requires Inv(w) && Publish(w, w')
    ensures Inv(w')
  {
    assert LogGrows(w.log, w'.log);
    LogOnlyGrows(w, w');
  }

  lemma CommitKeeps(w: World, w': World)
    requires Inv(w) && Commit(w, w')
    ensures Inv(w')
  {
    var ops, s, base :| NewStamp(w, s) && CommitBase(w, s, base) &&
      ApplyBatch(base, ops).error.None? && ApplyBatch(base, ops).changed &&
      w' == w.(log := w.log[s := ApplyBatch(base, ops).tree], room := Some(s),
               committed := w.committed + {Event(s.version, s.generation, ops, false)});
    assert LogGrows(w.log, w'.log);
    LogOnlyGrows(w, w');
    EmptyIsWellFormed();
    RunStays(base, ops);
    assert EventOk(w'.log, Event(s.version, s.generation, ops, false));
  }

  lemma ChosenIsOk(w: World, room: Option<Stamp>, conn: Conn, force: bool, viewLocked: bool, m: Msg)
    requires Inv(w) && (room.Some? ==> room.value in w.log)
    requires IsChosen(w, room, Chosen(room, w.board, conn, force, viewLocked), m)
    ensures MsgOk(w.log, m)
  {
  }

  lemma SentKeeps(w: World, w': World, m: Msg)
    requires Inv(w) && MsgOk(w.log, m) && w'.sent <= w.sent + {m} && w'.log == w.log && w'.room == w.room
    requires w'.committed == w.committed && w'.board == w.board && w'.client == w.client
    ensures Inv(w')
  {
    hide MsgOk, EventOk, ClientOk, LogOk;
  }

  lemma SendKeeps(w: World, w': World)
    requires Inv(w) && (Enqueue(w, w') || Sync(w, w'))
    ensures Inv(w')
  {
    hide MsgOk, Inv;
    if Enqueue(w, w') {
      var id: nat, room: Option<Stamp>, force, viewLocked, m :| EnqueueAs(w, w', id, room, force, viewLocked, m);
      ChosenIsOk(w, room, w.conns[id], force, viewLocked, m);
      SentKeeps(w, w', m);
    } else {
      var room: Option<Stamp>, m: Msg :| IsStateFor(w, room, m) && w' == w.(sent := w.sent + {m});
      StateIsOk(w, room, m);
      SentKeeps(w, w', m);
    }
  }

  lemma StateIsOk(w: World, room: Option<Stamp>, m: Msg)
    requires Inv(w) && IsStateFor(w, room, m)
    ensures MsgOk(w.log, m)
  {
  }

  /** A diff that follows on takes the client's document to the next one. */
  lemma DiffKeeps(log: map<Stamp, Tree>, c: Client, m: Msg)
    requires LogOk(log) && MsgOk(log, m) && ClientOk(log, c) && m.OpsMsg?
    ensures ClientOk(log, HandleOps(c, m))
    ensures c.knownExists && m.generation == c.knownGeneration && m.version == c.knownVersion + 1 ==>
      HandleOps(c, m).knownVersion == m.version && HandleOps(c, m).knownExists
  {
    hide Linked, Rooted, BrowserRun, Run, BrowserForm;
    var at := Stamp(c.knownGeneration, c.knownVersion);
    if c.knownExists && m.generation == c.knownGeneration && m.version == c.knownVersion + 1 {
      BrowserFollows(c.doc, log[at], m.ops);
    }
  }

  lemma DeliverKeeps(w: World, w': World)
    requires Inv(w) && Deliver(w, w')
    ensures Inv(w')
  {
    hide Rebuild, WellFormed, BrowserRun, Run, Describes, BrowserForm;
    var m, own :| m in w.sent && w' == w.(client := Handle(w.client, m, own));
    assert MsgOk(w.log, m);
    match m {
      case StateMsg(generation, version, exists_, passwordRequired, frame) =>
        if exists_ && !passwordRequired {
          RebuildInvertsDescription(frame, w.log[Stamp(generation.value, version)], own);
        }
      case OpsMsg(generation, version, ops) =>
        if version > 1 && Stamp(generation, version - 1) in w.log {
          DiffKeeps(w.log, w.client, m);
        }
    }
  }

  lemma NextKeeps(w: World, w': World)
    requires Inv(w) && Next(w, w')
    ensures Inv(w')
  {
    if Publish(w, w') {
      PublishKeeps(w, w');
    } else if Commit(w, w') {
      CommitKeeps(w, w');
    } else if Enqueue(w, w') || Sync(w, w') {
      SendKeeps(w, w');
    } else if Deliver(w, w') {
      DeliverKeeps(w, w');
    }
  }

  ghost predicate IsRun(run: seq<World>) {
    run != [] && Init(run[0]) && forall i :: 0 <= i < |run| - 1 ==> Next(run[i], run[i + 1])
  }

  lemma {:induction false} RunKeepsInv(run: seq<World>, n: nat)
    requires IsRun(run) && n < |run|
    ensures Inv(run[n])
  {
    if n > 0 {
      RunKeepsInv(run, n - 1);
      NextKeeps(run[n - 1], run[n]);
    }
  }

  /**
   Subscriber consistency: in every run, whatever is lost, repeated, coalesced or
   reordered, a client that believes the room exists shows the document the server had
   at the generation and version the client knows: the same items under the same
   parents, siblings in the browser's order. It is the very same document exactly when
   no two siblings of one clock have sites that the two orders tell apart.
   */
  lemma SubscriberIsConsistent(run: seq<World>, n: nat)
    requires IsRun(run) && n < |run| && run[n].client.knownExists
    ensures var c := run[n].client;
      Stamp(c.knownGeneration, c.knownVersion) in run[n].log &&
      var t := run[n].log[Stamp(c.knownGeneration, c.knownVersion)];
      && WellFormed(t) && BrowserForm(c.doc, t)
      && (c.doc == t <==> PlainSiblings(t.items))
  {
    hide BrowserForm;
    RunKeepsInv(run, n);
    var c := run[n].client;
    var t := run[n].log[Stamp(c.knownGeneration, c.knownVersion)];
    OneDocumentExactlyWhen(c.doc, t);
  }
}
