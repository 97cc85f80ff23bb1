/**
 Why a diff is sent only to a connection whose last frame was the immediately
 preceding version (internal/handler/handler.go:1340-1375): on a connection that
 delivers in order, no diff ever finds the client missing a version. Rooms are not
 view-protected here.
 */
module InOrder {
  import opened Ops
  import opened Rga
  import opened Wire
  import opened Protocol

  /** What a client knows of the room, without the document. */
  datatype Known = Known(generation: int, version: int, alive: bool)

  function KnownOf(c: Client): Known {
    Known(c.knownGeneration, c.knownVersion, c.knownExists)
  }

  /** What a frame teaches; a diff that follows on is applied. */
  function Learned(k: Known, m: Msg): Known {
    match m
    case StateMsg(incarnation, version, exists_, passwordRequired, _) =>
      var stale := SnapshotIsStale(Client(EMPTY, k.version, k.generation, k.alive), incarnation, version, exists_);
      if stale || passwordRequired
      then k
      else Known(if incarnation.Some? then incarnation.value else k.generation, version, exists_)
    case OpsMsg(generation, version, _) =>
      if generation != k.generation || !k.alive || version != k.version + 1 then k else Known(generation, version, true)
  }

  /** The handlers of a consistent client learn exactly that. */
  lemma HandlersLearn(log: map<Stamp, Tree>, c: Client, m: Msg, own: string)
    requires LogOk(log) && MsgOk(log, m) && ClientOk(log, c)
    ensures KnownOf(Handle(c, m, own)) == Learned(KnownOf(c), m)
  {
    if m.OpsMsg? { DiffKeeps(log, c, m); }
  }

  function After(k: Known, queue: seq<Msg>): Known
    decreases |queue|
  {
    if queue == [] then k else After(Learned(k, queue[0]), queue[1..])
  }

  /** The next frame is no diff from beyond the version that follows the client's. */
  predicate NoGapAt(k: Known, m: Msg) {
    m.OpsMsg? ==>
      m.generation <= k.generation && (m.generation == k.generation && k.alive ==> m.version <= k.version + 1)
  }

  predicate NoGaps(k: Known, queue: seq<Msg>)
    decreases |queue|
  {
    queue == [] || (NoGapAt(k, queue[0]) && NoGaps(Learned(k, queue[0]), queue[1..]))
  }

  /** The client will have caught up with what the connection last sent. */
  predicate CatchesUp(conn: Conn, k: Known) {
    conn.lastExists ==>
      conn.lastGeneration <= k.generation &&
      (conn.lastGeneration == k.generation && k.alive ==> conn.lastVersion <= k.version)
  }

  /** One connection: its memory, the frames under way, and the client's knowledge. */
  datatype Line = Line(conn: Conn, queue: seq<Msg>, known: Known)

  ghost predicate OpenState(room: Option<Stamp>, m: Msg) {
    m.StateMsg? && !m.passwordRequired &&
    match room
    case None => m.incarnation == None && m.version == 0 && !m.exists_
    case Some(s) => m.incarnation == Some(s.generation) && m.version == s.version && m.exists_
  }

  ghost predicate Push(l: Line, l': Line, room: Option<Stamp>, board: Option<Event>, force: bool, m: Msg) {
    && (match Chosen(room, board, l.conn, force, false)
        case Nothing => false
        case FullState => OpenState(room, m)
        case Diff(ops) => room.Some? && m == OpsMsg(room.value.generation, room.value.version, ops))
    && (l' == l || l' == Line(Remember(room), l.queue + [m], l.known))
  }

  ghost predicate Step(l: Line, l': Line) {
    || (exists room: Option<Stamp>, board: Option<Event>, force: bool, m: Msg :: Push(l, l', room, board, force, m))
    || (exists room: Option<Stamp>, m: Msg :: OpenState(room, m) && l' == l.(queue := l.queue + [m]))
    || (l.queue != [] && l' == l.(queue := l.queue[1..], known := Learned(l.known, l.queue[0])))
    || l' == Line(FRESH, [], l.known)
  }

  ghost predicate LineOk(l: Line) {
    NoGaps(l.known, l.queue) && CatchesUp(l.conn, After(l.known, l.queue))
  }

  lemma {:induction false} Append(k: Known, queue: seq<Msg>, m: Msg)
    ensures After(k, queue + [m]) == Learned(After(k, queue), m)
    ensures NoGaps(k, queue + [m]) <==> NoGaps(k, queue) && NoGapAt(After(k, queue), m)
    decreases |queue|
  {
    if queue == [] {
      assert queue + [m] == [m] && [m][1..] == [];
    } else {
      assert (queue + [m])[1..] == queue[1..] + [m];
      Append(Learned(k, queue[0]), queue[1..], m);
    }
  }

  lemma StepKeeps(l: Line, l': Line)
    requires LineOk(l) && Step(l, l')
    ensures LineOk(l')
  {
    if room: Option<Stamp>, board: Option<Event>, force: bool, m: Msg :| Push(l, l', room, board, force, m) {
      Append(l.known, l.queue, m);
    } else if room: Option<Stamp>, m: Msg :| OpenState(room, m) && l' == l.(queue := l.queue + [m]) {
      Append(l.known, l.queue, m);
    }
  }

  ghost predicate IsLineRun(run: seq<Line>) {
    run != [] && run[0] == Line(FRESH, [], KnownOf(NEWCOMER)) && forall i :: 0 <= i < |run| - 1 ==>
      Step(run[i], run[i + 1])
  }

  /**
   No diff ever arrives across a gap at a client that believes the room exists: when it
   is at the head of the line, at most one version is missing.
   */
  lemma {:induction false} DiffsArriveInOrder(run: seq<Line>, n: nat)
    requires IsLineRun(run) && n < |run|
    ensures LineOk(run[n])
    ensures run[n].queue != [] ==> NoGapAt(run[n].known, run[n].queue[0])
  {
    if n > 0 {
      DiffsArriveInOrder(run, n - 1);
      StepKeeps(run[n - 1], run[n]);
    }
  }

  /**
   A client that believes the room gone can still meet a diff: the answer to a request
   for a snapshot, read before the room came up, is sent behind the room's first state.
   */
  lemma DiffMeetsVanishedRoom(op: Op) returns (run: seq<Line>)
    ensures IsLineRun(run) && |run| == 6 && run[5].queue == [OpsMsg(1, 2, [op])] && run[5].known == Known(1, 0, false)
  {
    var frame := Frame("", "", []);
    var up, gone, diff := StateMsg(Some(1), 1, true, false, frame), StateMsg(None, 0, false, false, frame),
      OpsMsg(1, 2, [op]);
    var k0, k1, k2 := KnownOf(NEWCOMER), Known(1, 1, true), Known(1, 0, false);
    var c1, c2 := Conn(1, 1, true), Conn(2, 1, true);
    run := [Line(FRESH, [], k0), Line(c1, [up], k0), Line(c1, [], k1), Line(c1, [gone], k1), Line(c2, [gone, diff], k1),
            Line(c2, [diff], k2)];
    assert Push(run[0], run[1], Some(Stamp(1, 1)), None, true, up);
    assert OpenState(None, gone);
    assert Push(run[3], run[4], Some(Stamp(1, 2)), Some(Event(2, 1, [op], false)), false, diff);
    forall i | 0 <= i < 5 ensures Step(run[i], run[i + 1]) {
      assert i == 1 ==> Learned(k0, up) == k1;
      assert i == 4 ==> Learned(k1, gone) == k2;
    }
  }

  // ----- catching up ----------------------------------------------------------------------------

  /** An enqueue for a room that is there, whose frame, if there is one, fits the buffer. */
  ghost predicate Sends(l: Line, l': Line, at: Stamp, board: Option<Event>, force: bool, m: Msg) {
    match Chosen(Some(at), board, l.conn, force, false)
    case Nothing => l' == l
    case FullState => OpenState(Some(at), m) && l' == Line(Remember(Some(at)), l.queue + [m], l.known)
    case Diff(ops) =>
      m == OpsMsg(at.generation, at.version, ops) && l' == Line(Remember(Some(at)), l.queue + [m], l.known)
  }

  /**
   Catching up: once an enqueue for the room at (g, v) has gone through, a client that reads
   the whole queue knows just that, if and only if it would have known of no later
   incarnation, of no later version of this one, and not that this one is gone.
   */
  lemma CatchesUpExactlyWhen(l: Line, l': Line, at: Stamp, board: Option<Event>, force: bool, m: Msg)
    requires LineOk(l) && Sends(l, l', at, board, force, m)
    ensures var k := After(l.known, l.queue);
      After(l'.known, l'.queue) == Known(at.generation, at.version, true) <==>
      k.generation < at.generation || (k.generation == at.generation && k.alive && k.version <= at.version)
  {
    Append(l.known, l.queue, m);
  }

  /** A frame that did not fit is chosen again: until one goes through, no enqueue finds nothing to send. */
  lemma DroppedIsRetried(l: Line, l': Line, room: Option<Stamp>, board: Option<Event>, board': Option<Event>, m: Msg)
    requires Push(l, l', room, board, false, m) && l'.queue == l.queue
    ensures Chosen(room, board', l'.conn, false, false) != Nothing
  {
    assert |l.queue + [m]| == |l.queue| + 1;
  }

  predicate Before(s: Stamp, at: Stamp) {
    s.generation < at.generation || (s.generation == at.generation && s.version <= at.version)
  }

  /** A step that knows of no room beyond `at`. */
  ghost predicate StepBefore(l: Line, l': Line, at: Stamp) {
    || (exists room: Option<Stamp>, board: Option<Event>, force: bool, m: Msg ::
          (room.Some? ==> Before(room.value, at)) && Push(l, l', room, board, force, m))
    || (exists room: Option<Stamp>, m: Msg ::
          (room.Some? ==> Before(room.value, at)) && OpenState(room, m) && l' == l.(queue := l.queue + [m]))
    || (l.queue != [] && l' == l.(queue := l.queue[1..], known := Learned(l.known, l.queue[0])))
    || l' == Line(FRESH, [], l.known)
  }

  /** What a client knows is not beyond `at`. */
  predicate KnowsBefore(k: Known, at: Stamp) {
    k.generation < at.generation || (k.generation == at.generation && (k.alive ==> k.version <= at.version))
  }

  predicate MsgBefore(m: Msg, at: Stamp) {
    match m
    case StateMsg(incarnation, version, exists_, _, _) =>
      if incarnation.Some? then exists_ && Before(Stamp(incarnation.value, version), at) else !exists_
    case OpsMsg(generation, version, _) => Before(Stamp(generation, version), at)
  }

  ghost predicate LineBefore(l: Line, at: Stamp) {
    KnowsBefore(l.known, at) && forall i :: 0 <= i < |l.queue| ==> MsgBefore(l.queue[i], at)
  }

  lemma LearnedBefore(k: Known, m: Msg, at: Stamp)
    requires KnowsBefore(k, at) && MsgBefore(m, at) && at.generation > 0
    ensures KnowsBefore(Learned(k, m), at)
  {
  }

  lemma QueuedBefore(k: Known, queue: seq<Msg>, at: Stamp)
    requires KnowsBefore(k, at) && at.generation > 0 && forall i :: 0 <= i < |queue| ==> MsgBefore(queue[i], at)
    ensures KnowsBefore(After(k, queue), at)
    decreases |queue|
  {
    if queue != [] {
      assert MsgBefore(queue[0], at);
      LearnedBefore(k, queue[0], at);
      QueuedBefore(Learned(k, queue[0]), queue[1..], at);
    }
  }

  lemma StepKeepsBefore(l: Line, l': Line, at: Stamp)
    requires LineBefore(l, at) && at.generation > 0 && StepBefore(l, l', at)
    ensures LineBefore(l', at) && Step(l, l')
  {
    if l.queue != [] && l' == l.(queue := l.queue[1..], known := Learned(l.known, l.queue[0])) {
      assert MsgBefore(l.queue[0], at);
      LearnedBefore(l.known, l.queue[0], at);
    }
  }

  /** The run of a line on which no room beyond `at` was read. */
  ghost predicate IsRunBefore(run: seq<Line>, at: Stamp) {
    run != [] && run[0] == Line(FRESH, [], KnownOf(NEWCOMER)) && forall i :: 0 <= i < |run| - 1 ==>
      StepBefore(run[i], run[i + 1], at)
  }

  lemma {:induction false} RunStaysBefore(run: seq<Line>, at: Stamp, n: nat)
    requires IsRunBefore(run, at) && at.generation > 0 && n < |run|
    ensures LineBefore(run[n], at) && LineOk(run[n])
  {
    if n > 0 {
      RunStaysBefore(run, at, n - 1);
      StepKeepsBefore(run[n - 1], run[n], at);
      StepKeeps(run[n - 1], run[n]);
    }
  }

  /**
   Over every run, whatever was lost, repeated or dropped: after an enqueue for the newest
   room so far the client catches up with it, unless it has been told that this very
   incarnation is gone.
   */
  lemma ClientCatchesUp(run: seq<Line>, l': Line, at: Stamp, board: Option<Event>, force: bool, m: Msg)
    requires at.generation > 0 && IsRunBefore(run, at) && Sends(run[|run| - 1], l', at, board, force, m)
    ensures var l := run[|run| - 1];
      var k := After(l.known, l.queue);
      After(l'.known, l'.queue) == Known(at.generation, at.version, true) <==>
      !(k.generation == at.generation && !k.alive)
  {
    var l := run[|run| - 1];
    RunStaysBefore(run, at, |run| - 1);
    QueuedBefore(l.known, l.queue, at);
    CatchesUpExactlyWhen(l, l', at, board, force, m);
  }

  /** An incarnation that a client was told is gone never comes back to it: no later frame of it is taken. */
  lemma {:induction false} GoneStaysGone(k: Known, queue: seq<Msg>)
    requires !k.alive && k.generation > 0
    requires forall i :: 0 <= i < |queue| ==> var m := queue[i];
      if m.OpsMsg? then m.generation <= k.generation
      else if m.incarnation.Some? then m.exists_ && m.incarnation.value <= k.generation else !m.exists_
    ensures After(k, queue).generation == k.generation && !After(k, queue).alive
    decreases |queue|
  {
    if queue != [] {
      var m := queue[0];
      GoneStaysGone(Learned(k, m), queue[1..]);
    }
  }
}
