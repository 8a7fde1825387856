/**
 Does `Capture::stop` return? Its last step joins the reader thread, while the
 session task that called it no longer receives from the queue but still holds
 the receiver. The answer is exact: see `StopReturnsIff`.
 */
module Shutdown {
  import opened Wrappers
  import opened Bytes
  import opened FlvTags
  import opened MediaPath
  import opened CaptureProtocol

  /** The flag is set, and nobody can write into the FIFO any more. */
  predicate ShutOff(w: World)
  {
    w.reader.stopFlag && !HasWriter(w.fifo) && Valid(w.reader.demux)
  }

  /** `stop` has set the flag, killed the recorder and closed the keeper, and joins the reader. */
  predicate Joining(w: World)
  {
    w.host.at == ToJoin && ShutOff(w)
  }

  /** The access unit the reader will try to send before it looks at the stop flag again, if it is a key picture. */
  predicate KeyPictureNext(w: World)
    requires Valid(w.reader.demux)
  {
    match w.reader.phase
    case Sending(au) => au.keyframe
    case Reading =>
      var n := NextAu(w.reader.demux, w.fifo.pipe);
      n.outcome.Got? && n.outcome.au.keyframe
    case _ => false
  }

  /** The reader never opened the FIFO, or it has a key picture for a full queue whose receiver is alive. */
  predicate WillBlock(w: World)
    requires Valid(w.reader.demux)
  {
    || w.reader.phase == Opening
    || (w.receiverAlive && |w.queue| >= CAPACITY && KeyPictureNext(w))
  }

  /** How many steps the reader has left at most once the flag is set and no writer is left. */
  function Rank(p: Phase): nat
  {
    match p
    case Done => 0
    case Checking => 1
    case Sending(_) => 2
    case Header => 2
    case Reading => 3
    case Opening => 0
  }

  function StepsLeft(w: World): nat
  {
    if w.host.at == ToJoin then Rank(w.reader.phase) + 2 else if w.receiverAlive then 1 else 0
  }

  /** Joining, or past it: what every action leads to from there. */
  predicate Closing(w: World)
  {
    Joining(w) || (w.host.at == Over && !HasWriter(w.fifo) && Valid(w.reader.demux) && w.reader.phase == Done)
  }

  /** Each reader step brings the end nearer and leaves the verdict as it was. */
  lemma ReaderStepNearsEnd(w: World)
    requires ShutOff(w) && ReaderEnabled(w)
    ensures var w' := ReaderStep(w);
            && ShutOff(w') && w'.host == w.host
            && Rank(w'.reader.phase) < Rank(w.reader.phase) && WillBlock(w') == WillBlock(w)
  {
  }

  /** Any action at all brings the end nearer; nothing but the reader and the join can act. */
  lemma ActionNearsEnd(w: World, a: Action)
    requires Closing(w) && Enabled(w, a)
    ensures var w' := Apply(w, a);
            && Closing(w') && StepsLeft(w') < StepsLeft(w)
            && (w.host.at == ToJoin && WillBlock(w) ==> w'.host.at == ToJoin)
            && (w'.host.at == ToJoin ==> w.host.at == ToJoin && WillBlock(w') == WillBlock(w))
  {
    if a.ReaderMoves? {
      ReaderStepNearsEnd(w);
    }
  }

  /** A reader that cannot step has finished, or will never step again. */
  lemma IdleReader(w: World)
    requires ShutOff(w) && !ReaderEnabled(w)
    ensures w.reader.phase == Done <==> !WillBlock(w)
  {
  }

  ghost predicate Stuck(w: World)
    requires Valid(w.reader.demux)
  {
    forall a :: !Enabled(w, a)
  }

  /** A state in which nothing can act any more is one of the two ends. */
  lemma StuckIsEitherEnd(w: World)
    requires Closing(w) && Stuck(w)
    ensures w.host.at == Over || WillBlock(w)
  {
    assert !Enabled(w, ReaderMoves) && !Enabled(w, Joins);
    if w.host.at == ToJoin {
      IdleReader(w);
    }
  }

  lemma {:induction false} ClosingRun(states: seq<World>, actions: seq<Action>, i: nat)
    requires IsRun(states, actions) && Closing(states[0]) && i < |states|
    ensures Closing(states[i]) && StepsLeft(states[i]) + i <= StepsLeft(states[0])
    ensures states[i].host.at == ToJoin ==> states[0].host.at == ToJoin && WillBlock(states[i]) == WillBlock(states[0])
    ensures states[0].host.at == ToJoin && WillBlock(states[0]) ==> states[i].host.at == ToJoin
  {
    if i > 0 {
      ClosingRun(states, actions, i - 1);
      assert Step(states[i - 1], actions[i - 1], states[i - 1 + 1]);
      ActionNearsEnd(states[i - 1], actions[i - 1]);
    }
  }

  /**
   From the moment `stop` waits for the reader, every run is over within five
   steps; when it can go no further, `stop` has returned exactly if the reader
   was not opening the FIFO and had no key picture for a full queue with a live
   receiver. Otherwise `stop` never returns, in any run.
   */
  lemma StopReturnsIff(states: seq<World>, actions: seq<Action>)
    requires IsRun(states, actions) && Joining(states[0])
    ensures |actions| <= 5
    ensures WillBlock(states[0]) ==> forall i :: 0 <= i < |states| ==> states[i].host.at == ToJoin
    ensures Valid(states[|actions|].reader.demux)
    ensures Stuck(states[|actions|]) ==> (states[|actions|].host.at == Over <==> !WillBlock(states[0]))
  {
    ClosingRun(states, actions, |actions|);
    if WillBlock(states[0]) {
      forall i | 0 <= i < |states|
        ensures states[i].host.at == ToJoin
      {
        ClosingRun(states, actions, i);
      }
    }
    if Stuck(states[|actions|]) {
      StuckIsEitherEnd(states[|actions|]);
    }
  }

  // ----- Both ways of blocking are reachable -----

  ghost predicate Reachable(w: World)
  {
    exists states, actions :: IsRun(states, actions) && Initial(states[0]) && states[|actions|] == w
  }

  lemma ReachableNext(w: World, a: Action)
    requires Reachable(w) && Valid(w.reader.demux) && Enabled(w, a)
    ensures Reachable(Apply(w, a)) && Valid(Apply(w, a).reader.demux)
  {
    var states, actions :| IsRun(states, actions) && Initial(states[0]) && states[|actions|] == w;
    RunExtends(states, actions, a, Apply(w, a));
    var states', actions' := states + [Apply(w, a)], actions + [a];
    assert states'[|actions'|] == Apply(w, a);
    ApplyKeepsValid(w, a);
  }

  lemma ApplyKeepsValid(w: World, a: Action)
    requires Valid(w.reader.demux) && Enabled(w, a)
    ensures Valid(Apply(w, a).reader.demux)
  {
  }

  lemma RunExtends(states: seq<World>, actions: seq<Action>, a: Action, w': World)
    requires IsRun(states, actions) && Step(states[|actions|], a, w')
    ensures IsRun(states + [w'], actions + [a])
  {
    var states', actions' := states + [w'], actions + [a];
    forall i | 0 <= i < |actions'|
      ensures Step(states'[i], actions'[i], states'[i + 1])
    {
      if i < |actions| {
        assert Step(states[i], actions[i], states[i + 1]);
      }
    }
  }

  lemma InitialReachable(w: World)
    requires Initial(w)
    ensures Reachable(w)
  {
    assert IsRun([w], []);
  }

  lemma ReachableInv(w: World)
    requires Reachable(w)
    ensures Inv(w)
  {
    var states, actions :| IsRun(states, actions) && Initial(states[0]) && states[|actions|] == w;
    InitialInv(states[0]);
    RunKeepsInv(states, actions, |actions|);
  }

  /** In every run of a session the receiver is still alive when `stop` joins, so the queue alone decides. */
  lemma SessionBlocksIff(w: World)
    requires Reachable(w) && w.host.at == ToJoin
    ensures Joining(w)
    ensures WillBlock(w) <==> w.reader.phase == Opening || (|w.queue| == CAPACITY && KeyPictureNext(w))
  {
    ReachableInv(w);
  }

  /** From the session loop to the join, with nobody else moving. */
  function StopCalled(w: World): World
  {
    w.(host := w.host.(at := ToJoin), reader := w.reader.(stopFlag := true),
       fifo := w.fifo.(childAlive := false, keeperOpen := false))
  }

  lemma StopReachesJoin(w: World)
    requires Reachable(w) && Valid(w.reader.demux) && w.host.at == Looping
    ensures Reachable(StopCalled(w)) && Joining(StopCalled(w))
  {
    ReachableNext(w, Leaves);
    var w1 := Apply(w, Leaves);
    ReachableNext(w1, SetsFlag);
    var w2 := Apply(w1, SetsFlag);
    ReachableNext(w2, Kills);
    var w3 := Apply(w2, Kills);
    ReachableNext(w3, ClosesKeeper);
    assert Apply(w3, ClosesKeeper) == StopCalled(w);
  }

  const FRESH :=
    World(Fifo([], [], true, true), Reader(Opening, false, INITIAL, false, []), [], true, Host(Looping, [], [], []))

  /** A session that ends before its reader thread got to open the FIFO hangs. */
  lemma EarlyStopBlocks() returns (w: World)
    ensures Reachable(w) && Joining(w) && WillBlock(w) && w.queue == [] && w.reader.phase == Opening
  {
    InitialReachable(FRESH);
    StopReachesJoin(FRESH);
    w := StopCalled(FRESH);
  }

  /** `n` times the same tag. */
  function Repeat(t: Tag, n: nat): bytes
    requires WellFormed(t)
  {
    if n == 0 then [] else TagBytes(t) + Repeat(t, n - 1)
  }

  /** The reader stands before `left` more key pictures, with `4 - left + 1` of them in the queue. */
  predicate Loaded(w: World, t: Tag, au: AccessUnit, left: nat)
    requires WellFormed(t)
  {
    && w.reader.phase == Checking && !w.reader.stopFlag && w.reader.demux == INITIAL
    && w.fifo.pipe == Repeat(t, left) && |w.queue| + left == CAPACITY + 1 && w.receiverAlive
    && w.host.at == Looping
  }

  /** A tag that demuxes to a key picture and leaves the demuxer as it was. */
  ghost predicate Yields(t: Tag, au: AccessUnit)
  {
    && WellFormed(t) && au.keyframe
    && forall rest :: NextAu(INITIAL, TagBytes(t) + rest) == Next(INITIAL, Got(au), rest)
  }

  lemma KeyTagYields(t: Tag, au: AccessUnit)
    requires WellFormed(t) && ApplyTag(INITIAL, t) == Effect(INITIAL, true, Some(au)) && au.keyframe
    ensures Yields(t, au)
  {
    forall rest
      ensures NextAu(INITIAL, TagBytes(t) + rest) == Next(INITIAL, Got(au), rest)
    {
      CutTagInverts(t, rest);
    }
  }

  /** Check the flag and demux the next key picture. */
  lemma DemuxRound(w: World, t: Tag, au: AccessUnit, left: nat) returns (w': World)
    requires Yields(t, au) && left > 0
    requires Reachable(w) && Loaded(w, t, au, left)
    ensures Reachable(w') && w'.reader == w.reader.(phase := Sending(au))
    ensures w' == w.(reader := w'.reader, fifo := w.fifo.(pipe := Repeat(t, left - 1)))
  {
    assert NextAu(INITIAL, TagBytes(t) + Repeat(t, left - 1)) == Next(INITIAL, Got(au), Repeat(t, left - 1));
    ReachableNext(w, ReaderMoves);
    var w1 := Apply(w, ReaderMoves);
    ReachableNext(w1, ReaderMoves);
    w' := Apply(w1, ReaderMoves);
  }

  /** Put it into the queue. */
  lemma SendRound(w: World, w1: World, t: Tag, au: AccessUnit, left: nat) returns (w': World)
    requires WellFormed(t) && left > 1 && Loaded(w, t, au, left) && Reachable(w1)
    requires w1 == w.(reader := w.reader.(phase := Sending(au)), fifo := w.fifo.(pipe := Repeat(t, left - 1)))
    ensures Reachable(w') && Loaded(w', t, au, left - 1)
  {
    ReachableNext(w1, ReaderMoves);
    w' := Apply(w1, ReaderMoves);
  }

  lemma KeyRound(w: World, t: Tag, au: AccessUnit, left: nat) returns (w': World)
    requires Yields(t, au) && left > 1
    requires Reachable(w) && Loaded(w, t, au, left)
    ensures Reachable(w') && Loaded(w', t, au, left - 1)
  {
    var w1 := DemuxRound(w, t, au, left);
    w' := SendRound(w, w1, t, au, left);
  }

  lemma TwoKeyRounds(w: World, t: Tag, au: AccessUnit, left: nat) returns (w': World)
    requires Yields(t, au) && left > 2
    requires Reachable(w) && Loaded(w, t, au, left)
    ensures Reachable(w') && Loaded(w', t, au, left - 2)
  {
    var w1 := KeyRound(w, t, au, left);
    w' := KeyRound(w1, t, au, left - 1);
  }

  /** A key picture from the recorder: one NAL unit of one byte. */
  lemma SomeKeyPicture() returns (t: Tag, au: AccessUnit)
    ensures Yields(t, au)
  {
    var item := Item(0, [0, 0, 0], [0, 0, 0, 0], Picture(1, [0, 0, 0], [[0x65]], []));
    PowValues();
    assert ItemOk(NO_CONTEXT, item);
    PictureEffect(NO_CONTEXT, item);
    t := TagOf(NO_CONTEXT, item);
    au := AuOf(ShownFor(NO_CONTEXT, item)[0]);
    KeyTagYields(t, au);
  }

  /** The recorder writes a header and more, and the reader opens the FIFO and passes the header. */
  lemma HeaderRound(header: bytes, more: bytes) returns (w: World)
    requires |header| == 13 && GoodHeader(header)
    ensures Reachable(w)
    ensures w == FRESH.(reader := FRESH.reader.(phase := Checking, started := true),
                        fifo := Fifo(header + more, more, true, true))
  {
    InitialReachable(FRESH);
    ReachableNext(FRESH, RecorderWrites(header + more));
    var w1 := Apply(FRESH, RecorderWrites(header + more));
    assert [] + (header + more) == header + more;
    ReachableNext(w1, ReaderMoves);
    var w2 := Apply(w1, ReaderMoves);
    assert (header + more)[13..] == more && (header + more)[..3] == header[..3];
    ReachableNext(w2, ReaderMoves);
    w := Apply(w2, ReaderMoves);
  }

  /** The recorder has written a header and five key pictures, and the reader has passed the header. */
  lemma FiveWritten(t: Tag, au: AccessUnit) returns (w: World)
    requires Yields(t, au)
    ensures Reachable(w) && Loaded(w, t, au, 5)
  {
    var header: bytes := SIGNATURE + [1, 1, 0, 0, 0, 9, 0, 0, 0, 0];
    assert header[..3] == SIGNATURE;
    w := HeaderRound(header, Repeat(t, 5));
  }

  lemma FourQueued(t: Tag, au: AccessUnit) returns (w: World)
    requires Yields(t, au)
    ensures Reachable(w) && Loaded(w, t, au, 1)
  {
    var w1 := FiveWritten(t, au);
    var w2 := TwoKeyRounds(w1, t, au, 5);
    w := TwoKeyRounds(w2, t, au, 3);
  }

  /** A session that ends while four key pictures are queued and a fifth is due hangs. */
  lemma FullQueueBlocks() returns (w: World)
    ensures Reachable(w) && Joining(w) && WillBlock(w) && w.reader.phase.Sending? && |w.queue| == CAPACITY
  {
    var t, au := SomeKeyPicture();
    var w1 := FourQueued(t, au);
    var w2 := DemuxRound(w1, t, au, 1);
    StopReachesJoin(w2);
    w := StopCalled(w2);
  }
}
