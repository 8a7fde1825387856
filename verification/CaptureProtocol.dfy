/**
 The capture pipeline of src/capture.rs and src/net.rs as a state machine: the
 recorder and the FIFO, the reader thread, the queue of four access units, the
 session loop, and the order in which `stop` takes it all down. Any
 interleaving of enabled actions is a run.
 */
module CaptureProtocol {
  import opened Bytes
  import opened FlvTags
  import opened Framing
  import opened MediaPath

  const CAPACITY := 4

  /** Where the reader thread stands in `read_loop`. */
  datatype Phase = Opening | Header | Checking | Reading | Sending(au: AccessUnit) | Done

  /** Where the session stands: in its loop, inside `write_frame`, or at a step of `stop`. */
  datatype Session = Looping | Writing(au: AccessUnit) | ToSetFlag | ToKill | ToClose | ToJoin | Over

  /** One attempt to send: whether the queue took the access unit, and how full it was. */
  datatype Entry = Entry(au: AccessUnit, kept: bool, queued: nat)

  /** The FIFO: what the recorder wrote so far, what is still unread, and who holds a write end. */
  datatype Fifo = Fifo(fed: bytes, pipe: bytes, childAlive: bool, keeperOpen: bool)

  /** The reader thread: its place, its demuxer behind the header, the stop flag it polls, and its sends so far. */
  datatype Reader = Reader(phase: Phase, started: bool, demux: State, stopFlag: bool, log: seq<Entry>)

  /** The session: its place, the frames it wrote, and the access units it finished writing or failed to write. */
  datatype Host = Host(at: Session, outbox: seq<Frame>, shown: seq<AccessUnit>, lost: seq<AccessUnit>)

  datatype World = World(fifo: Fifo, reader: Reader, queue: seq<AccessUnit>, receiverAlive: bool, host: Host)

  ghost predicate Initial(w: World)
  {
    && w.fifo == Fifo([], [], true, true)
    && w.reader == Reader(Opening, false, INITIAL, false, [])
    && w.queue == [] && w.receiverAlive
    && w.host == Host(Looping, w.host.outbox, [], []) && NoVideo(w.host.outbox)
  }

  predicate NoVideo(fs: seq<Frame>)
  {
    forall i :: 0 <= i < |fs| ==> fs[i].typ != VIDEO
  }

  predicate HasWriter(f: Fifo)
  {
    f.childAlive || f.keeperOpen
  }

  // ----- The reader thread -----

  /** The reader waits while opening without a writer, for bytes while there is one, or for room for a key picture. */
  predicate ReaderEnabled(w: World)
    requires Valid(w.reader.demux)
  {
    match w.reader.phase
    case Opening => HasWriter(w.fifo)
    case Header => |w.fifo.pipe| >= 13 || !HasWriter(w.fifo)
    case Checking => true
    case Reading => !NextAu(w.reader.demux, w.fifo.pipe).outcome.OutOfBytes? || !HasWriter(w.fifo)
    case Sending(au) => au.keyframe && w.receiverAlive ==> |w.queue| < CAPACITY
    case Done => false
  }

  function ReaderStep(w: World): World
    requires Valid(w.reader.demux) && ReaderEnabled(w)
  {
    var r := w.reader;
    match r.phase
    case Opening => w.(reader := r.(phase := Header))
    case Header =>
      if GoodHeader(w.fifo.pipe)
      then w.(reader := r.(phase := Checking, started := true), fifo := w.fifo.(pipe := w.fifo.pipe[13..]))
      else w.(reader := r.(phase := Done))
    case Checking => w.(reader := r.(phase := if r.stopFlag then Done else Reading))
    case Reading =>
      var n := NextAu(r.demux, w.fifo.pipe);
      if n.outcome.Got?
      then w.(reader := r.(phase := Sending(n.outcome.au), demux := n.st), fifo := w.fifo.(pipe := n.rest))
      else w.(reader := r.(phase := Done))
    case Sending(au) =>
      var kept := w.receiverAlive && |w.queue| < CAPACITY;
      w.(reader := r.(phase := Checking, log := r.log + [Entry(au, kept, |w.queue|)]),
         queue := if kept then w.queue + [au] else w.queue)
  }

  // ----- All actions -----

  datatype Action =
    | RecorderWrites(bs: bytes) | RecorderExits
    | ReaderMoves
    | Receives | WriteDone | WriteFails | Answers(f: Frame)
    | Leaves | SetsFlag | Kills | ClosesKeeper | Joins | DropsReceiver

  predicate Enabled(w: World, a: Action)
    requires Valid(w.reader.demux)
  {
    match a
    case RecorderWrites(_) => w.fifo.childAlive
    case RecorderExits => w.fifo.childAlive
    case ReaderMoves => ReaderEnabled(w)
    case Receives => w.host.at == Looping && w.queue != []
    case WriteDone => w.host.at.Writing?
    case WriteFails => w.host.at.Writing?
    case Answers(f) => w.host.at == Looping && f.typ != VIDEO
    case Leaves => w.host.at == Looping
    case SetsFlag => w.host.at == ToSetFlag
    case Kills => w.host.at == ToKill
    case ClosesKeeper => w.host.at == ToClose
    case Joins => w.host.at == ToJoin && w.reader.phase == Done
    case DropsReceiver => w.host.at == Over && w.receiverAlive
  }

  function Apply(w: World, a: Action): World
    requires Valid(w.reader.demux) && Enabled(w, a)
  {
    match a
    case RecorderWrites(bs) => w.(fifo := w.fifo.(fed := w.fifo.fed + bs, pipe := w.fifo.pipe + bs))
    case RecorderExits => w.(fifo := w.fifo.(childAlive := false))
    case ReaderMoves => ReaderStep(w)
    case Receives => w.(host := w.host.(at := Writing(w.queue[0])), queue := w.queue[1..])
    case WriteDone => w.(host := Written(w.host))
    case WriteFails => w.(host := w.host.(at := ToSetFlag, lost := w.host.lost + [w.host.at.au]))
    case Answers(f) => w.(host := w.host.(outbox := w.host.outbox + [f]))
    case Leaves => w.(host := w.host.(at := ToSetFlag))
    case SetsFlag => w.(host := w.host.(at := ToKill), reader := w.reader.(stopFlag := true))
    case Kills => w.(host := w.host.(at := ToClose), fifo := w.fifo.(childAlive := false))
    case ClosesKeeper => w.(host := w.host.(at := ToJoin), fifo := w.fifo.(keeperOpen := false))
    case Joins => w.(host := w.host.(at := Over))
    case DropsReceiver => w.(receiverAlive := false)
  }

  /** The session has written the frame of the access unit it held. */
  function Written(h: Host): Host
    requires h.at.Writing?
  {
    Host(Looping, h.outbox + [VideoFrame(h.at.au)], h.shown + [h.at.au], h.lost)
  }

  predicate Step(w: World, a: Action, w': World)
  {
    Valid(w.reader.demux) && Enabled(w, a) && w' == Apply(w, a)
  }

  ghost predicate IsRun(states: seq<World>, actions: seq<Action>)
  {
    && |states| == |actions| + 1
    && forall i :: 0 <= i < |actions| ==> Step(states[i], actions[i], states[i + 1])
  }

  // ----- What every run keeps -----

  function Kept(log: seq<Entry>): seq<AccessUnit>
  {
    if log == [] then [] else (if log[0].kept then [log[0].au] else []) + Kept(log[1..])
  }

  function Attempted(log: seq<Entry>): (aus: seq<AccessUnit>)
    ensures |aus| == |log|
  {
    seq(|log|, i requires 0 <= i < |log| => log[i].au)
  }

  /** The access unit the session has taken off the queue and not, or never, finished writing. */
  function InHand(h: Host): seq<AccessUnit>
  {
    if h.at.Writing? then [h.at.au] else h.lost
  }

  /** The access unit the reader has demuxed and not yet sent. */
  function Pending(r: Reader): seq<AccessUnit>
  {
    if r.phase.Sending? then [r.phase.au] else []
  }

  /** Demuxing `s` from `st` gives `aus` first, and then stands at state `d` before the bytes `p`. */
  ghost predicate Reaches(st: State, s: bytes, aus: seq<AccessUnit>, d: State, p: bytes)
    requires Valid(st)
    decreases |aus|
  {
    if aus == [] then d == st && p == s
    else
      var n := NextAu(st, s);
      n.outcome == Got(aus[0]) && Reaches(n.st, n.rest, aus[1..], d, p)
  }

  lemma {:induction false} ReachesOneMore(st: State, s: bytes, aus: seq<AccessUnit>, d: State, p: bytes)
    requires Valid(st) && Valid(d) && Reaches(st, s, aus, d, p) && NextAu(d, p).outcome.Got?
    ensures var n := NextAu(d, p);
            Reaches(st, s, aus + [n.outcome.au], n.st, n.rest)
    decreases |aus|
  {
    var n := NextAu(d, p);
    if aus == [] {
      assert Reaches(n.st, n.rest, [n.outcome.au][1..], n.st, n.rest);
    } else {
      var m := NextAu(st, s);
      ReachesOneMore(m.st, m.rest, aus[1..], d, p);
      assert (aus + [n.outcome.au])[1..] == aus[1..] + [n.outcome.au];
    }
  }

  lemma {:induction false} ReachesExtends(st: State, s: bytes, aus: seq<AccessUnit>, d: State, p: bytes, more: bytes)
    requires Valid(st) && Reaches(st, s, aus, d, p)
    ensures Reaches(st, s + more, aus, d, p + more)
    decreases |aus|
  {
    if aus != [] {
      NextAuExtends(st, s, more);
      var n := NextAu(st, s);
      ReachesExtends(n.st, n.rest, aus[1..], d, p, more);
    }
  }

  /** What has been demuxed is a beginning of what the whole data holds. */
  lemma {:induction false} ReachesDemux(st: State, s: bytes, aus: seq<AccessUnit>, d: State, p: bytes)
    requires Valid(st) && Valid(d) && Reaches(st, s, aus, d, p)
    ensures Demux(st, s) == Run(aus + Demux(d, p).aus, Demux(d, p).end)
    decreases |aus|
  {
    if aus == [] {
      assert aus + Demux(d, p).aus == Demux(d, p).aus;
    } else {
      var n := NextAu(st, s);
      ReachesDemux(n.st, n.rest, aus[1..], d, p);
      HeadOfConcat(aus, Demux(d, p).aus);
    }
  }

  /** A key picture is always kept, and any other is dropped only when the queue is full. */
  predicate FairEntry(e: Entry)
  {
    && (e.au.keyframe ==> e.kept)
    && (!e.kept ==> e.queued == CAPACITY)
  }

  predicate FairLog(log: seq<Entry>)
  {
    forall i :: 0 <= i < |log| ==> FairEntry(log[i])
  }

  /** The video frames of what was written. */
  function VideoOnly(fs: seq<Frame>): seq<Frame>
  {
    if fs == [] then [] else (if fs[0].typ == VIDEO then [fs[0]] else []) + VideoOnly(fs[1..])
  }

  /** The reader stands behind a good header and exactly what it attempted to send, in the bytes written so far. */
  ghost predicate DemuxInv(f: Fifo, r: Reader)
  {
    && Valid(r.demux)
    && (r.phase in {Opening, Header} ==> !r.started)
    && (r.phase in {Checking, Reading} || r.phase.Sending? ==> r.started)
    && (!r.started ==> f.pipe == f.fed && r.log == [] && r.demux == INITIAL)
    && (r.started ==> GoodHeader(f.fed) && Reaches(INITIAL, f.fed[13..], Attempted(r.log) + Pending(r), r.demux, f.pipe))
  }

  /** The queue is bounded, and what it took is accounted for in order: shown, in hand, or still queued. */
  ghost predicate QueueInv(queue: seq<AccessUnit>, log: seq<Entry>, h: Host)
  {
    && |queue| <= CAPACITY
    && FairLog(log)
    && Kept(log) == h.shown + InHand(h) + queue
    && VideoOnly(h.outbox) == VideoFrames(h.shown)
    && (h.at == Looping || h.at.Writing? ==> h.lost == [])
  }

  /** The shutdown order: flag, recorder, keeper, reader, receiver. */
  ghost predicate ShutdownInv(w: World)
  {
    && (w.host.at in {Looping, ToSetFlag, ToKill, ToClose} || w.host.at.Writing? ==> w.fifo.keeperOpen)
    && (w.host.at in {ToKill, ToClose, ToJoin, Over} ==> w.reader.stopFlag)
    && (w.host.at in {ToClose, ToJoin, Over} ==> !w.fifo.childAlive)
    && (w.host.at in {ToJoin, Over} ==> !w.fifo.keeperOpen)
    && (w.host.at == Over ==> w.reader.phase == Done)
    && (w.host.at != Over ==> w.receiverAlive)
  }

  ghost predicate Inv(w: World)
  {
    DemuxInv(w.fifo, w.reader) && QueueInv(w.queue, w.reader.log, w.host) && ShutdownInv(w)
  }

  lemma {:induction false} KeptConcat(a: seq<Entry>, b: seq<Entry>)
    ensures Kept(a + b) == Kept(a) + Kept(b)
  {
    if a == [] {
      assert a + b == b;
    } else {
      HeadOfConcat(a, b);
      KeptConcat(a[1..], b);
      Regrouped(if a[0].kept then [a[0].au] else [], Kept(a[1..]), Kept(b));
    }
  }

  lemma {:induction false} VideoOnlyConcat(a: seq<Frame>, b: seq<Frame>)
    ensures VideoOnly(a + b) == VideoOnly(a) + VideoOnly(b)
  {
    if a == [] {
      assert a + b == b;
    } else {
      HeadOfConcat(a, b);
      VideoOnlyConcat(a[1..], b);
      Regrouped(if a[0].typ == VIDEO then [a[0]] else [], VideoOnly(a[1..]), VideoOnly(b));
    }
  }

  lemma {:induction false} VideoFramesConcat(a: seq<AccessUnit>, b: seq<AccessUnit>)
    ensures VideoFrames(a + b) == VideoFrames(a) + VideoFrames(b)
  {
    if a == [] {
      assert a + b == b;
    } else {
      HeadOfConcat(a, b);
      VideoFramesConcat(a[1..], b);
      Regrouped([VideoFrame(a[0])], VideoFrames(a[1..]), VideoFrames(b));
    }
  }

  lemma {:induction false} NoVideoFrames(fs: seq<Frame>)
    requires NoVideo(fs)
    ensures VideoOnly(fs) == []
  {
    if fs != [] {
      NoVideoFrames(fs[1..]);
    }
  }

  lemma InitialInv(w: World)
    requires Initial(w)
    ensures Inv(w)
  {
    NoVideoFrames(w.host.outbox);
  }

  lemma DemuxInvKept(w: World, a: Action)
    requires DemuxInv(w.fifo, w.reader) && Enabled(w, a)
    ensures DemuxInv(Apply(w, a).fifo, Apply(w, a).reader)
  {
    if a.ReaderMoves? {
      ReaderKeepsDemuxInv(w);
    } else if a.RecorderWrites? {
      WritingKeepsDemuxInv(w.fifo, w.reader, a.bs);
    }
  }

  lemma WritingKeepsDemuxInv(f: Fifo, r: Reader, bs: bytes)
    requires DemuxInv(f, r)
    ensures DemuxInv(f.(fed := f.fed + bs, pipe := f.pipe + bs), r)
  {
    if r.started {
      assert (f.fed + bs)[13..] == f.fed[13..] + bs && (f.fed + bs)[..3] == f.fed[..3];
      ReachesExtends(INITIAL, f.fed[13..], Attempted(r.log) + Pending(r), r.demux, f.pipe, bs);
    }
  }

  lemma ReaderKeepsDemuxInv(w: World)
    requires DemuxInv(w.fifo, w.reader) && ReaderEnabled(w)
    ensures DemuxInv(ReaderStep(w).fifo, ReaderStep(w).reader)
  {
    var r, r' := w.reader, ReaderStep(w).reader;
    if r.phase == Header && r'.started {
      assert Attempted(r'.log) + Pending(r') == [];
    } else if r.phase == Reading && r'.phase.Sending? {
      ReachesOneMore(INITIAL, w.fifo.fed[13..], Attempted(r.log) + Pending(r), r.demux, w.fifo.pipe);
      assert Attempted(r.log) + Pending(r) + [r'.phase.au] == Attempted(r'.log) + Pending(r');
    } else if r.phase.Sending? {
      AttemptedOneMore(r.log, r'.log[|r.log|]);
      assert Attempted(r'.log) + Pending(r') == Attempted(r.log) + Pending(r);
    }
  }

  lemma AttemptedOneMore(log: seq<Entry>, e: Entry)
    ensures Attempted(log + [e]) == Attempted(log) + [e.au]
  {
  }

  lemma QueueInvKept(w: World, a: Action)
    requires Valid(w.reader.demux) && QueueInv(w.queue, w.reader.log, w.host) && ShutdownInv(w) && Enabled(w, a)
    ensures var w' := Apply(w, a); QueueInv(w'.queue, w'.reader.log, w'.host)
  {
    if a.ReaderMoves? {
      ReaderKeepsQueueInv(w);
    } else if a.Receives? {
      ReceiveKeepsQueueInv(w.queue, w.reader.log, w.host);
    } else if a.WriteDone? {
      WriteKeepsQueueInv(w.queue, w.reader.log, w.host);
    } else if a.Answers? {
      VideoOnlyConcat(w.host.outbox, [a.f]);
      assert VideoOnly([a.f]) == [];
    }
  }

  lemma ReaderKeepsQueueInv(w: World)
    requires Valid(w.reader.demux) && QueueInv(w.queue, w.reader.log, w.host) && w.receiverAlive && ReaderEnabled(w)
    ensures var w' := ReaderStep(w); QueueInv(w'.queue, w'.reader.log, w'.host)
  {
    if w.reader.phase.Sending? {
      SendKeepsQueueInv(w.queue, w.reader.log, w.host, w.reader.phase.au);
    }
  }

  lemma SendKeepsQueueInv(queue: seq<AccessUnit>, log: seq<Entry>, h: Host, au: AccessUnit)
    requires QueueInv(queue, log, h) && (au.keyframe ==> |queue| < CAPACITY)
    ensures var kept := |queue| < CAPACITY;
            QueueInv(if kept then queue + [au] else queue, log + [Entry(au, kept, |queue|)], h)
  {
    var e := Entry(au, |queue| < CAPACITY, |queue|);
    KeptConcat(log, [e]);
    assert FairEntry(e);
    if e.kept {
      assert Kept([e]) == [au];
      assert h.shown + InHand(h) + queue + [au] == h.shown + InHand(h) + (queue + [au]);
    } else {
      assert Kept(log) + [] == Kept(log);
    }
  }

  lemma ReceiveKeepsQueueInv(queue: seq<AccessUnit>, log: seq<Entry>, h: Host)
    requires QueueInv(queue, log, h) && h.at == Looping && queue != []
    ensures QueueInv(queue[1..], log, h.(at := Writing(queue[0])))
  {
    assert h.shown + [] + queue == h.shown + [queue[0]] + queue[1..];
  }

  lemma WriteKeepsQueueInv(queue: seq<AccessUnit>, log: seq<Entry>, h: Host)
    requires QueueInv(queue, log, h) && h.at.Writing?
    ensures QueueInv(queue, log, Written(h))
  {
    var au := h.at.au;
    VideoOnlyConcat(h.outbox, [VideoFrame(au)]);
    VideoFramesConcat(h.shown, [au]);
    OneVideo(au);
    assert h.shown + [au] + queue == (h.shown + [au]) + [] + queue;
  }

  lemma OneVideo(au: AccessUnit)
    ensures VideoOnly([VideoFrame(au)]) == [VideoFrame(au)] == VideoFrames([au])
  {
  }

  lemma ShutdownInvKept(w: World, a: Action)
    requires Valid(w.reader.demux) && ShutdownInv(w) && Enabled(w, a)
    ensures ShutdownInv(Apply(w, a))
  {
  }

  lemma StepKeepsInv(w: World, a: Action, w': World)
    requires Inv(w) && Step(w, a, w')
    ensures Inv(w')
  {
    DemuxInvKept(w, a);
    QueueInvKept(w, a);
    ShutdownInvKept(w, a);
  }

  /** Every state of every run keeps the invariants. */
  lemma {:induction false} RunKeepsInv(states: seq<World>, actions: seq<Action>, i: nat)
    requires IsRun(states, actions) && Inv(states[0]) && i < |states|
    ensures Inv(states[i])
  {
    if i > 0 {
      RunKeepsInv(states, actions, i - 1);
      assert Step(states[i - 1], actions[i - 1], states[i - 1 + 1]);
      StepKeepsInv(states[i - 1], actions[i - 1], states[i]);
    }
  }
}
