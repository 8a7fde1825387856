/**
 The two sequential halves of src/capture.rs: the loop of the reader thread,
 run against any schedule of the rest of the program, and `stop`, whose join
 is the reader running alone.
 */
module CaptureThread {
  import opened Wrappers
  import opened Bytes
  import opened ByteStream
  import opened FlvTags
  import opened Flv
  import opened CaptureProtocol
  import opened Shutdown
  import opened CaptureTurns
  import opened LoopSpec

  /** The sending half of the queue, and what its receiver took. */
  class Channel {
    var queue: seq<AccessUnit>
    var taken: seq<AccessUnit>
    const receiverAlive: bool

    ghost predicate Valid()
      reads this
    {
      |queue| <= CAPACITY
    }

    constructor (receiverAlive: bool)
      ensures Valid() && queue == [] && taken == [] && this.receiverAlive == receiverAlive
    {
      queue, taken := [], [];
      this.receiverAlive := receiverAlive;
    }

    /** Meanwhile the receiver takes up to `n` access units. */
    method Drain(n: nat)
      requires Valid()
      modifies this
      ensures var k := if n < |old(queue)| then n else |old(queue)|;
              Valid() && taken == old(taken) + old(queue)[..k] && queue == old(queue)[k..]
      ensures taken + queue == old(taken + queue)
    {
      var k := if n < |queue| then n else |queue|;
      assert queue == queue[..k] + queue[k..];
      taken, queue := taken + queue[..k], queue[k..];
    }

    method TrySend(au: AccessUnit) returns (ok: bool)
      requires Valid()
      modifies this`queue
      ensures Valid() && ok == (receiverAlive && |old(queue)| < CAPACITY)
      ensures queue == if ok then old(queue) + [au] else old(queue)
    {
      ok := receiverAlive && |queue| < CAPACITY;
      if ok {
        queue := queue + [au];
      }
    }
  }

  /** The state of the program at the end of the loop. */
  ghost predicate EndsAs(w: World, fed: bytes, end: LoopEnd,
                         log: seq<Entry>, queue: seq<AccessUnit>, taken: seq<AccessUnit>)
  {
    match end
    case Waiting(au) =>
      InSession(w, fed, Sending(au), log, queue, taken) && !ReaderEnabled(w)
    case Interrupted => InSession(w, fed, Checking, log, queue, taken)
    case _ => Finished(w, fed, log, queue, taken)
  }

  /** What does not change while the loop runs: the bytes of the FIFO, what was taken and queued before, and what it is given. */
  datatype Case = Case(fed: bytes, before: seq<AccessUnit>, given: Given, session: bool)

  /**
   What the loop keeps: its place in the stream, the turns it took, the account
   of what it sent, and in a session the machine's state.
   */
  ghost predicate Progress(c: Case, w: World, d: State, p: bytes,
                           log: seq<Entry>, queue: seq<AccessUnit>, taken: seq<AccessUnit>)
  {
    && FlvTags.Valid(d) && |c.fed| >= 13 && c.given.stream == Demux(INITIAL, c.fed[13..])
    && Reaches(INITIAL, c.fed[13..], Attempted(log), d, p)
    && TurnsAs(c.given, log) && |queue| == Backlog(c.given.queued, log)
    && taken + queue == c.before + Kept(log)
    && (c.session ==> Live(w, c.fed, Checking, d, p, log, queue, taken))
  }

  /** What comes next in the stream is what the demuxer finds next. */
  lemma Ahead(c: Case, w: World, d: State, p: bytes,
              log: seq<Entry>, queue: seq<AccessUnit>, taken: seq<AccessUnit>)
    requires Progress(c, w, d, p, log, queue, taken)
    ensures var n := NextAu(d, p).outcome;
            if n.Got? then |log| < |c.given.stream.aus| && c.given.stream.aus[|log|] == n.au
            else |log| == |c.given.stream.aus| && c.given.stream.end == n
  {
    ReachesDemux(INITIAL, c.fed[13..], Attempted(log), d, p);
  }

  lemma Proceeds(c: Case, w: World, d: State, p: bytes, log: seq<Entry>, queue: seq<AccessUnit>, taken: seq<AccessUnit>,
                 w': World, e: Entry, queue': seq<AccessUnit>, taken': seq<AccessUnit>)
    requires Progress(c, w, d, p, log, queue, taken) && NextAu(d, p).outcome.Got? && |log| < |c.given.schedule|
    requires TurnAs(c.given.schedule[|log|], NextAu(d, p).outcome.au, c.given.receiverAlive, |queue|, e)
    requires |queue'| == e.queued + (if e.kept then 1 else 0) && taken' + queue' == taken + queue + Kept([e])
    requires c.session ==> Live(w', c.fed, Checking, NextAu(d, p).st, NextAu(d, p).rest, log + [e], queue', taken')
    ensures Progress(c, w', NextAu(d, p).st, NextAu(d, p).rest, log + [e], queue', taken')
  {
    Ahead(c, w, d, p, log, queue, taken);
    OneMoreTurn(c.given, log, e);
    ReachesOneMore(INITIAL, c.fed[13..], Attempted(log), d, p);
    AttemptedOneMore(log, e);
    KeptConcat(log, [e]);
    Regrouped(c.before, Kept(log), Kept([e]));
  }

  /**
   Sends one access unit: a key picture blocking, any other not. Meanwhile some
   are received. A key picture before a queue that stays full is not sent. `w`
   follows in the state machine.
   */
  method SendOne(tx: Channel, au: AccessUnit, m: Moment, ghost log: seq<Entry>, ghost session: bool, ghost w: World)
    returns (sent: Option<Entry>, ghost w': World)
    requires tx.Valid() && !m.stop
    requires session ==> tx.receiverAlive && InSession(w, w.fifo.fed, Sending(au), log, tx.queue, tx.taken)
    modifies tx
    ensures tx.Valid()
    ensures sent == None ==>
              && Blocked(au, tx.receiverAlive, Left(|old(tx.queue)|, m.drained)) && |tx.queue| == CAPACITY
              && tx.taken + tx.queue == old(tx.taken + tx.queue)
    ensures sent.Some? ==>
              && TurnAs(m, au, tx.receiverAlive, |old(tx.queue)|, sent.value)
              && |tx.queue| == sent.value.queued + (if sent.value.kept then 1 else 0)
              && tx.taken + tx.queue == old(tx.taken + tx.queue) + Kept([sent.value])
    ensures session && sent == None ==>
              InSession(w', w.fifo.fed, Sending(au), log, tx.queue, tx.taken) && !ReaderEnabled(w')
    ensures session && sent.Some? ==>
              InSession(w', w.fifo.fed, Checking, log + [sent.value], tx.queue, tx.taken)
    ensures session ==> w'.reader.demux == w.reader.demux && w'.fifo.pipe == w.fifo.pipe
  {
    w' := w;
    if session {
      w' := ReceivesSome(w, w.fifo.fed, Sending(au), w.reader.demux, w.fifo.pipe, log, tx.queue, tx.taken,
                         if m.drained < |tx.queue| then m.drained else |tx.queue|);
    }
    tx.Drain(m.drained);
    var queued := |tx.queue|;
    if au.keyframe && tx.receiverAlive && queued == CAPACITY {
      if session {
        Waits(w', w.fifo.fed, au, w.reader.demux, w.fifo.pipe, log, tx.queue, tx.taken);
      }
      return None, w';
    }
    if session {
      w' := Sends(w', w.fifo.fed, au, w.reader.demux, w.fifo.pipe, log, tx.queue, tx.taken);
    }
    ghost var queue := tx.queue;
    var kept := tx.TrySend(au);
    sent := Some(Entry(au, kept, queued));
    OneMoreInQueue(tx.taken, queue, Entry(au, kept, queued));
  }

  lemma OneMoreInQueue(taken: seq<AccessUnit>, queue: seq<AccessUnit>, e: Entry)
    ensures taken + (if e.kept then queue + [e.au] else queue) == taken + queue + Kept([e])
  {
    assert Kept([e]) == if e.kept then [e.au] else [];
  }

  /** What holds when the loop has ended behind the header. */
  ghost predicate Ended(c: Case, w: World, end: LoopEnd,
                        log: seq<Entry>, queue: seq<AccessUnit>, taken: seq<AccessUnit>)
  {
    && LoopRuns(c.given, log, end) && |queue| == QueuedAtEnd(c.given, log, end)
    && taken + queue == c.before + Kept(log)
    && (c.session ==> EndsAs(w, c.fed, end, log, queue, taken))
  }

  /** One turn: look at the flag, demux an access unit, and send it. */
  method OneTurn(fifo: ByteReader, demux: FlvH264, tx: Channel, moment: Moment, log: seq<Entry>,
                 ghost c: Case, ghost w: World)
    returns (end: Option<LoopEnd>, log': seq<Entry>, ghost w': World)
    requires demux.Valid() && tx.Valid() && c.given.receiverAlive == tx.receiverAlive
    requires c.given.faulty == fifo.faulty && (c.session ==> tx.receiverAlive)
    requires |log| < |c.given.schedule| && moment == c.given.schedule[|log|]
    requires Progress(c, w, demux.Contents(), fifo.data, log, tx.queue, tx.taken)
    modifies fifo, demux, tx
    ensures demux.Valid() && tx.Valid()
    ensures end == None ==>
              |log'| == |log| + 1 && Progress(c, w', demux.Contents(), fifo.data, log', tx.queue, tx.taken)
    ensures end.Some? ==> log' == log && Ended(c, w', end.value, log, tx.queue, tx.taken)
  {
    ghost var d, p, queue, taken := demux.Contents(), fifo.data, tx.queue, tx.taken;
    Ahead(c, w, d, p, log, queue, taken);
    log', w' := log, w;
    if moment.stop {
      if c.session {
        w' := SeesFlag(w, c.fed, d, p, log, queue, taken);
      }
      return Some(Stopped), log', w';
    }
    var ok, au := demux.NextUnit(fifo);
    if !ok || au.None? {
      if c.session {
        w' := ReadsEnd(w, c.fed, d, p, log, queue, taken);
      }
      return Some(if ok then EndOfStream else Failed), log', w';
    }
    if c.session {
      var w1;
      w1, w' := ReadsNext(w, c.fed, d, p, log, queue, taken);
    }
    var sent;
    sent, w' := SendOne(tx, au.value, moment, log, c.session, w');
    if sent == None {
      return Some(Waiting(au.value)), log', w';
    }
    Proceeds(c, w, d, p, log, queue, taken, w', sent.value, tx.queue, tx.taken);
    log' := log + [sent.value];
    end := None;
  }

  /**
   The loop of the reader thread. Behind a good header it takes the turns that
   `LoopRuns` says and ends for the reason it says, which the stream, the
   schedule and the queue determine; what the receiver took and what is queued
   is exactly what was kept. In a session it leaves a state that the whole
   program can reach, with just this log, queue and receiver.
   */
  method ReadLoop(fifo: ByteReader, tx: Channel, schedule: seq<Moment>)
    returns (log: seq<Entry>, end: LoopEnd, ghost w: World)
    requires tx.Valid()
    modifies fifo, tx
    ensures tx.Valid()
    ensures !GoodHeader(old(fifo.data)) ==>
              end == BadHeader && log == [] && tx.queue == old(tx.queue) && tx.taken == old(tx.taken)
    ensures GoodHeader(old(fifo.data)) ==>
              var g := Given(Demux(INITIAL, old(fifo.data)[13..]), fifo.faulty, schedule, tx.receiverAlive, |old(tx.queue)|);
              LoopRuns(g, log, end) && |tx.queue| == QueuedAtEnd(g, log, end)
    ensures tx.taken + tx.queue == old(tx.taken + tx.queue) + Kept(log)
    ensures tx.receiverAlive ==> FairLog(log)
    ensures tx.receiverAlive && old(tx.queue) == old(tx.taken) == [] ==>
              EndsAs(w, old(fifo.data), end, log, tx.queue, tx.taken)
  {
    log, w := [], FRESH;
    ghost var g := Given(Demux(INITIAL, if |fifo.data| < 13 then [] else fifo.data[13..]), fifo.faulty, schedule,
                         tx.receiverAlive, |tx.queue|);
    ghost var c := Case(fifo.data, tx.taken + tx.queue, g, tx.receiverAlive && tx.queue == tx.taken == []);
    var headerOk := SkipFlvHeader(fifo);
    if !headerOk {
      if c.session {
        w := RefusesHeader(c.fed);
      }
      return log, BadHeader, w;
    }
    if c.session {
      w := PassesHeader(c.fed);
    }
    var demux := new FlvH264();
    assert Attempted(log) == [];
    for i := 0 to |schedule|
      invariant |log| == i && demux.Valid() && tx.Valid()
      invariant Progress(c, w, demux.Contents(), fifo.data, log, tx.queue, tx.taken)
    {
      var ended;
      ended, log, w := OneTurn(fifo, demux, tx, schedule[i], log, c, w);
      if ended.Some? {
        TurnsFollow(g, log);
        return log, ended.value, w;
      }
    }
    TurnsFollow(g, log);
    return log, Interrupted, w;
  }

  // ----- stop -----

  /** The handle the session holds: the recorder, the keeper of the FIFO, the thread, and the state they share. */
  class Capture {
    var child: bool
    var keepOpen: bool
    var reader: bool
    var world: World

    /** What is no longer held is gone from the shared state too. */
    ghost predicate Valid()
      reads this
    {
      && FlvTags.Valid(world.reader.demux)
      && (!child ==> !world.fifo.childAlive)
      && (!keepOpen ==> !world.fifo.keeperOpen)
      && (!reader ==> world.reader.phase == Done)
    }

    constructor (world: World)
      requires FlvTags.Valid(world.reader.demux)
      ensures Valid() && this.world == world && child && keepOpen && reader
    {
      child, keepOpen, reader, this.world := true, true, true, world;
    }

    /** Meanwhile the recorder and the reader move. */
    method Others(moves: seq<Action>)
      requires Valid()
      modifies this`world
      ensures Valid() && world == AfterMoves(old(world), moves)
    {
      for i := 0 to |moves|
        invariant Valid() && world == AfterMoves(old(world), moves[..i])
      {
        AfterOneMore(old(world), moves, i);
        world := AfterMove(world, moves[i]);
      }
      assert moves[..|moves|] == moves;
    }

    /**
     Takes everything down in order, while the recorder and the reader move as
     they like; `returned` says whether the join of the reader came back.
     */
    method Stop(beforeKill: seq<Action>, beforeClose: seq<Action>, beforeJoin: seq<Action>) returns (returned: bool)
      requires Valid()
      modifies this
      ensures Valid() && !child && !keepOpen
      ensures returned <==> !WillBlock(AtJoin(old(world), beforeKill, beforeClose, beforeJoin))
      ensures returned ==> !reader && world.reader.phase == Done
      ensures !old(child) && !old(keepOpen) && !old(reader) ==> returned && world == FlagSet(old(world))
    {
      world := FlagSet(world);
      Others(beforeKill);
      if child {
        child := false;
        world := Killed(world);
      }
      Others(beforeClose);
      if keepOpen {
        keepOpen := false;
        world := Closed(world);
      }
      Others(beforeJoin);
      assert world == AtJoin(old(world), beforeKill, beforeClose, beforeJoin);
      NothingMoves(FlagSet(old(world)), beforeKill, beforeClose, beforeJoin);
      returned := true;
      if reader {
        returned := JoinReader();
        if returned {
          reader := false;
        }
      }
    }

    /** The thread runs until it has finished or waits for something that nobody is left to give it. */
    method JoinReader() returns (finished: bool)
      requires ShutOff(world)
      modifies this`world
      ensures ShutOff(world) && world.host == old(world).host
      ensures finished <==> !WillBlock(old(world))
      ensures finished ==> world.reader.phase == Done
    {
      while ReaderEnabled(world)
        invariant ShutOff(world) && world.host == old(world).host
        invariant WillBlock(world) == WillBlock(old(world))
        decreases Rank(world.reader.phase)
      {
        ReaderStepNearsEnd(world);
        world := ReaderStep(world);
      }
      IdleReader(world);
      finished := world.reader.phase == Done;
    }
  }

  // ----- The shared state while stop runs -----

  function FlagSet(w: World): World
  {
    w.(reader := w.reader.(stopFlag := true))
  }

  function Killed(w: World): World
  {
    w.(fifo := w.fifo.(childAlive := false))
  }

  function Closed(w: World): World
  {
    w.(fifo := w.fifo.(keeperOpen := false))
  }

  /** The moves that do not need the session, which runs `stop`. */
  predicate Outside(a: Action)
  {
    a.RecorderWrites? || a.RecorderExits? || a.ReaderMoves?
  }

  function AfterMove(w: World, a: Action): (w': World)
    requires FlvTags.Valid(w.reader.demux)
    ensures FlvTags.Valid(w'.reader.demux)
    ensures w'.reader.stopFlag == w.reader.stopFlag && w'.fifo.keeperOpen == w.fifo.keeperOpen
    ensures !w.fifo.childAlive ==> !w'.fifo.childAlive
    ensures w.reader.phase == Done ==> w'.reader.phase == Done
  {
    if Outside(a) && Enabled(w, a) then Apply(w, a) else w
  }

  /** The state after those of the moves that are possible. */
  function AfterMoves(w: World, moves: seq<Action>): (w': World)
    requires FlvTags.Valid(w.reader.demux)
    ensures FlvTags.Valid(w'.reader.demux)
    ensures w'.reader.stopFlag == w.reader.stopFlag && w'.fifo.keeperOpen == w.fifo.keeperOpen
    ensures !w.fifo.childAlive ==> !w'.fifo.childAlive
    ensures w.reader.phase == Done ==> w'.reader.phase == Done
  {
    if moves == [] then w else AfterMove(AfterMoves(w, moves[..|moves| - 1]), moves[|moves| - 1])
  }

  /** The state in which `stop` joins the reader. */
  function AtJoin(w: World, beforeKill: seq<Action>, beforeClose: seq<Action>, beforeJoin: seq<Action>): World
    requires FlvTags.Valid(w.reader.demux)
    ensures ShutOff(AtJoin(w, beforeKill, beforeClose, beforeJoin))
  {
    AfterMoves(Closed(AfterMoves(Killed(AfterMoves(FlagSet(w), beforeKill)), beforeClose)), beforeJoin)
  }

  /** Once everything is down nothing moves. */
  lemma NothingMoves(w: World, a: seq<Action>, b: seq<Action>, c: seq<Action>)
    requires FlvTags.Valid(w.reader.demux)
    ensures !w.fifo.childAlive && !w.fifo.keeperOpen && w.reader.phase == Done ==>
              AfterMoves(Killed(AfterMoves(w, a)), b) == w && AfterMoves(Closed(w), c) == w
  {
    if !w.fifo.childAlive && !w.fifo.keeperOpen && w.reader.phase == Done {
      StaysPut(w, a);
      StaysPut(w, b);
      StaysPut(w, c);
    }
  }

  lemma {:induction false} StaysPut(w: World, moves: seq<Action>)
    requires FlvTags.Valid(w.reader.demux) && !w.fifo.childAlive && w.reader.phase == Done
    ensures AfterMoves(w, moves) == w
  {
    if moves != [] {
      StaysPut(w, moves[..|moves| - 1]);
    }
  }

  lemma {:induction false} MovesReach(w: World, moves: seq<Action>)
    requires Reachable(w) && FlvTags.Valid(w.reader.demux)
    ensures Reachable(AfterMoves(w, moves))
  {
    if moves != [] {
      var n := |moves| - 1;
      MovesReach(w, moves[..n]);
      if Outside(moves[n]) && Enabled(AfterMoves(w, moves[..n]), moves[n]) {
        ReachableNext(AfterMoves(w, moves[..n]), moves[n]);
      }
    }
  }

  lemma AfterOneMore(w: World, moves: seq<Action>, i: nat)
    requires FlvTags.Valid(w.reader.demux) && i < |moves|
    ensures AfterMoves(w, moves[..i + 1]) == AfterMove(AfterMoves(w, moves[..i]), moves[i])
  {
    assert moves[..i + 1][..i] == moves[..i];
  }

  lemma MoveBesideHost(w: World, h: Host, a: Action)
    requires FlvTags.Valid(w.reader.demux)
    ensures AfterMove(w.(host := h), a) == AfterMove(w, a).(host := h)
  {
    if a.ReaderMoves? && ReaderEnabled(w) {
      ReaderBesideHost(w, h);
    }
  }

  lemma ReaderBesideHost(w: World, h: Host)
    requires FlvTags.Valid(w.reader.demux) && ReaderEnabled(w)
    ensures ReaderEnabled(w.(host := h)) && ReaderStep(w.(host := h)) == ReaderStep(w).(host := h)
  {
  }

  /** These moves do not depend on the session, nor change where it stands. */
  lemma {:induction false} MovesBesideHost(w: World, h: Host, moves: seq<Action>)
    requires FlvTags.Valid(w.reader.demux)
    ensures AfterMoves(w.(host := h), moves) == AfterMoves(w, moves).(host := h)
  {
    if moves != [] {
      var n := |moves| - 1;
      MovesBesideHost(w, h, moves[..n]);
      MoveBesideHost(AfterMoves(w, moves[..n]), h, moves[n]);
    }
  }

  function Standing(w: World, at: Session): World
  {
    w.(host := w.host.(at := at))
  }

  lemma MovesWhile(w: World, at: Session, moves: seq<Action>)
    requires FlvTags.Valid(w.reader.demux) && Reachable(Standing(w, at))
    ensures Reachable(Standing(AfterMoves(w, moves), at))
  {
    MovesReach(Standing(w, at), moves);
    MovesBesideHost(w, w.host.(at := at), moves);
    MovesBesideHost(w, w.host, moves);
  }

  lemma SetFlag(w: World)
    requires FlvTags.Valid(w.reader.demux) && Reachable(w) && w.host.at == Looping
    ensures Reachable(Standing(FlagSet(w), ToKill))
  {
    ReachableNext(w, Leaves);
    ReachableNext(Standing(w, ToSetFlag), SetsFlag);
    assert Apply(Standing(w, ToSetFlag), SetsFlag) == Standing(FlagSet(w), ToKill);
  }

  /** What `stop` does to the state of a session is a run of the whole program, up to the join. */
  lemma StopIsARun(w: World, beforeKill: seq<Action>, beforeClose: seq<Action>, beforeJoin: seq<Action>)
    requires FlvTags.Valid(w.reader.demux) && Reachable(w) && w.host.at == Looping
    ensures var w' := Standing(AtJoin(w, beforeKill, beforeClose, beforeJoin), ToJoin);
            Reachable(w') && Joining(w')
  {
    SetFlag(w);
    var w1 := AfterMoves(FlagSet(w), beforeKill);
    MovesWhile(FlagSet(w), ToKill, beforeKill);
    ReachableNext(Standing(w1, ToKill), Kills);
    var w2 := AfterMoves(Killed(w1), beforeClose);
    assert Apply(Standing(w1, ToKill), Kills) == Standing(Killed(w1), ToClose);
    MovesWhile(Killed(w1), ToClose, beforeClose);
    ReachableNext(Standing(w2, ToClose), ClosesKeeper);
    assert Apply(Standing(w2, ToClose), ClosesKeeper) == Standing(Closed(w2), ToJoin);
    MovesWhile(Closed(w2), ToJoin, beforeJoin);
  }
}
