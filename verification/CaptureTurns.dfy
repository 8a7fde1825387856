/**
 The turns of the reader loop as steps of the state machine of
 `CaptureProtocol`: what the sequential loop of `CaptureThread` does under any
 schedule is a run of the whole program.
 */
module CaptureTurns {
  import opened Bytes
  import opened FlvTags
  import opened CaptureProtocol
  import opened Shutdown

  /** A reachable state of a live session in which the reader has this log, queue and receiver, and no stop was called. */
  ghost predicate Live(w: World, fed: bytes, phase: Phase, d: State, p: bytes,
                       log: seq<Entry>, queue: seq<AccessUnit>, taken: seq<AccessUnit>)
  {
    && Reachable(w) && Valid(d)
    && w.reader == Reader(phase, true, d, false, log) && w.fifo == Fifo(fed, p, true, true)
    && w.queue == queue && w.receiverAlive && w.host.at == Looping && w.host.shown == taken
  }

  ghost predicate InSession(w: World, fed: bytes, phase: Phase,
                            log: seq<Entry>, queue: seq<AccessUnit>, taken: seq<AccessUnit>)
  {
    Live(w, fed, phase, w.reader.demux, w.fifo.pipe, log, queue, taken)
  }

  /** A reachable state in which the reader has finished. */
  ghost predicate Finished(w: World, fed: bytes, log: seq<Entry>, queue: seq<AccessUnit>, taken: seq<AccessUnit>)
  {
    && Reachable(w) && w.reader.phase == Done && w.fifo.fed == fed
    && w.reader.log == log && w.queue == queue && w.host.shown == taken
  }

  /** The recorder writes everything, and the reader opens the FIFO. */
  lemma Opened(data: bytes) returns (w: World)
    ensures Reachable(w)
    ensures w == FRESH.(reader := FRESH.reader.(phase := Phase.Header), fifo := Fifo(data, data, true, true))
  {
    InitialReachable(FRESH);
    ReachableNext(FRESH, RecorderWrites(data));
    var w1 := Apply(FRESH, RecorderWrites(data));
    assert [] + data == data;
    ReachableNext(w1, ReaderMoves);
    w := Apply(w1, ReaderMoves);
  }

  lemma PassesHeader(data: bytes) returns (w: World)
    requires GoodHeader(data)
    ensures Live(w, data, Checking, INITIAL, data[13..], [], [], [])
  {
    var w1 := Opened(data);
    ReachableNext(w1, ReaderMoves);
    w := Apply(w1, ReaderMoves);
  }

  /** A wrong header ends the loop; a short one does so once the session has stopped. */
  lemma RefusesHeader(data: bytes) returns (w: World)
    requires !GoodHeader(data)
    ensures Finished(w, data, [], [], [])
  {
    var w1 := Opened(data);
    StopReachesJoin(w1);
    var w2 := StopCalled(w1);
    ReachableNext(w2, ReaderMoves);
    w := Apply(w2, ReaderMoves);
  }

  /** The flag is set before the loop looks at it. */
  lemma SeesFlag(w: World, fed: bytes, d: State, p: bytes,
                 log: seq<Entry>, queue: seq<AccessUnit>, taken: seq<AccessUnit>) returns (w': World)
    requires Live(w, fed, Checking, d, p, log, queue, taken)
    ensures Finished(w', fed, log, queue, taken)
  {
    StopReachesJoin(w);
    var w1 := StopCalled(w);
    ReachableNext(w1, ReaderMoves);
    w' := Apply(w1, ReaderMoves);
  }

  /** The loop does not see the flag, and then there is nothing more to read, or it is malformed. */
  lemma ReadsEnd(w: World, fed: bytes, d: State, p: bytes,
                 log: seq<Entry>, queue: seq<AccessUnit>, taken: seq<AccessUnit>) returns (w': World)
    requires Live(w, fed, Checking, d, p, log, queue, taken) && !NextAu(d, p).outcome.Got?
    ensures Finished(w', fed, log, queue, taken)
  {
    ReachableNext(w, ReaderMoves);
    var w1 := Apply(w, ReaderMoves);
    StopReachesJoin(w1);
    var w2 := StopCalled(w1);
    ReachableNext(w2, ReaderMoves);
    w' := Apply(w2, ReaderMoves);
  }

  /** The loop does not see the flag, and demuxes the next access unit: two steps of the reader. */
  lemma ReadsNext(w: World, fed: bytes, d: State, p: bytes,
                  log: seq<Entry>, queue: seq<AccessUnit>, taken: seq<AccessUnit>) returns (w1: World, w': World)
    requires Live(w, fed, Checking, d, p, log, queue, taken) && NextAu(d, p).outcome.Got?
    ensures Step(w, ReaderMoves, w1) && w1.reader.phase == Reading && Step(w1, ReaderMoves, w')
    ensures var n := NextAu(d, p);
            Live(w', fed, Sending(n.outcome.au), n.st, n.rest, log, queue, taken)
  {
    ReachableNext(w, ReaderMoves);
    w1 := Apply(w, ReaderMoves);
    ReachableNext(w1, ReaderMoves);
    w' := Apply(w1, ReaderMoves);
  }

  /** The session takes one access unit off the queue and writes it. */
  lemma ReceivesOne(w: World, fed: bytes, phase: Phase, d: State, p: bytes,
                    log: seq<Entry>, queue: seq<AccessUnit>, taken: seq<AccessUnit>) returns (w1: World, w': World)
    requires Live(w, fed, phase, d, p, log, queue, taken) && queue != []
    ensures Step(w, Receives, w1) && Step(w1, WriteDone, w')
    ensures Live(w', fed, phase, d, p, log, queue[1..], taken + [queue[0]])
  {
    ReachableNext(w, Receives);
    w1 := Apply(w, Receives);
    ReachableNext(w1, WriteDone);
    w' := Apply(w1, WriteDone);
  }

  lemma {:induction false} ReceivesSome(w: World, fed: bytes, phase: Phase, d: State, p: bytes, log: seq<Entry>,
                                        queue: seq<AccessUnit>, taken: seq<AccessUnit>, k: nat) returns (w': World)
    requires Live(w, fed, phase, d, p, log, queue, taken) && k <= |queue|
    ensures Live(w', fed, phase, d, p, log, queue[k..], taken + queue[..k])
    decreases k
  {
    w' := w;
    if k == 0 {
      assert queue[0..] == queue && taken + queue[..0] == taken;
    } else {
      w' := ReceivesSome(w, fed, phase, d, p, log, queue, taken, k - 1);
      var w1;
      w1, w' := ReceivesOne(w', fed, phase, d, p, log, queue[k - 1..], taken + queue[..k - 1]);
      assert queue[k - 1..][1..] == queue[k..];
      assert taken + queue[..k - 1] + [queue[k - 1]] == taken + queue[..k];
    }
  }

  /** The loop sends an access unit, or drops it before a full queue if it is no key picture: one step of the reader. */
  lemma Sends(w: World, fed: bytes, au: AccessUnit, d: State, p: bytes,
              log: seq<Entry>, queue: seq<AccessUnit>, taken: seq<AccessUnit>) returns (w': World)
    requires Live(w, fed, Sending(au), d, p, log, queue, taken) && (au.keyframe ==> |queue| < CAPACITY)
    ensures Step(w, ReaderMoves, w')
    ensures var kept := |queue| < CAPACITY;
            Live(w', fed, Checking, d, p, log + [Entry(au, kept, |queue|)],
                 if kept then queue + [au] else queue, taken)
  {
    ReachableNext(w, ReaderMoves);
    w' := Apply(w, ReaderMoves);
  }

  /** Before a full queue a key picture cannot be sent. */
  lemma Waits(w: World, fed: bytes, au: AccessUnit, d: State, p: bytes,
              log: seq<Entry>, queue: seq<AccessUnit>, taken: seq<AccessUnit>)
    requires Live(w, fed, Sending(au), d, p, log, queue, taken) && au.keyframe && |queue| == CAPACITY
    ensures Valid(w.reader.demux) && !ReaderEnabled(w)
  {
  }
}
