/**
 What the loop of the reader thread does, said without a loop: which turns it
 takes, and why it ends. For every stream, schedule and queue there is at most
 one such log and end.
 */
module LoopSpec {
  import opened FlvTags
  import opened CaptureProtocol

  /** What else happens during one turn of the loop: the flag the loop sees, and how much is received. */
  datatype Moment = Moment(stop: bool, drained: nat)

  /** How the loop ends; `Waiting` is a blocking send that found no room, `Interrupted` the end of the schedule. */
  datatype LoopEnd = BadHeader | Stopped | EndOfStream | Failed | Waiting(au: AccessUnit) | Interrupted

  /** What the loop is given: the stream behind the header, the other threads, and the queue. */
  datatype Given = Given(stream: Run, faulty: bool, schedule: seq<Moment>, receiverAlive: bool, queued: nat)

  /** How many of `n` queued access units are left when up to `drained` are received. */
  function Left(n: nat, drained: nat): nat
  {
    if drained < n then n - drained else 0
  }

  /** How many are queued after these attempts. */
  function Backlog(queued: nat, log: seq<Entry>): nat
  {
    if log == [] then queued
    else
      var e := log[|log| - 1];
      e.queued + (if e.kept then 1 else 0)
  }

  /** A key picture waits for room while the receiver lives. */
  predicate Blocked(au: AccessUnit, receiverAlive: bool, queued: nat)
  {
    au.keyframe && receiverAlive && queued == CAPACITY
  }

  /** One whole turn: the flag is not set, and the next access unit is sent or dropped. */
  predicate TurnAs(m: Moment, au: AccessUnit, receiverAlive: bool, backlog: nat, e: Entry)
  {
    && !m.stop && e.au == au && e.queued == Left(backlog, m.drained)
    && e.kept == (receiverAlive && e.queued < CAPACITY)
    && !Blocked(au, receiverAlive, e.queued)
  }

  /** All turns taken are whole ones, for the access units of the stream in order. */
  predicate TurnsAs(g: Given, log: seq<Entry>)
  {
    && |log| <= |g.schedule| && |log| <= |g.stream.aus|
    && forall i :: 0 <= i < |log| ==>
         TurnAs(g.schedule[i], g.stream.aus[i], g.receiverAlive, Backlog(g.queued, log[..i]), log[i])
  }

  /** Why there is no further turn. */
  predicate EndsWith(g: Given, log: seq<Entry>, end: LoopEnd)
    requires TurnsAs(g, log)
  {
    var n := |log|;
    if n == |g.schedule| then end == Interrupted
    else if g.schedule[n].stop then end == Stopped
    else if n == |g.stream.aus| then
      end == if g.stream.end == OutOfBytes(false) && !g.faulty then EndOfStream else Failed
    else
      && end == Waiting(g.stream.aus[n])
      && Blocked(g.stream.aus[n], g.receiverAlive, Left(Backlog(g.queued, log), g.schedule[n].drained))
  }

  predicate LoopRuns(g: Given, log: seq<Entry>, end: LoopEnd)
  {
    TurnsAs(g, log) && EndsWith(g, log, end)
  }

  /** How many are queued at the end. */
  function QueuedAtEnd(g: Given, log: seq<Entry>, end: LoopEnd): nat
  {
    if end.Waiting? then CAPACITY else Backlog(g.queued, log)
  }

  lemma TurnAt(g: Given, log: seq<Entry>, i: nat)
    requires TurnsAs(g, log) && i < |log|
    ensures TurnAs(g.schedule[i], g.stream.aus[i], g.receiverAlive, Backlog(g.queued, log[..i]), log[i])
  {
  }

  lemma SameTurn(m: Moment, au: AccessUnit, receiverAlive: bool, backlog: nat, e: Entry, f: Entry)
    requires TurnAs(m, au, receiverAlive, backlog, e) && TurnAs(m, au, receiverAlive, backlog, f)
    ensures e == f
  {
  }

  lemma {:induction false} SameTurns(g: Given, a: seq<Entry>, b: seq<Entry>, k: nat)
    requires TurnsAs(g, a) && TurnsAs(g, b) && k <= |a| && k <= |b|
    ensures a[..k] == b[..k]
  {
    if k > 0 {
      var i := k - 1;
      SameTurns(g, a, b, i);
      TurnAt(g, a, i);
      TurnAt(g, b, i);
      SameTurn(g.schedule[i], g.stream.aus[i], g.receiverAlive, Backlog(g.queued, a[..i]), a[i], b[i]);
      OneLonger(a, i);
      OneLonger(b, i);
    }
  }

  lemma OneLonger(log: seq<Entry>, i: nat)
    requires i < |log|
    ensures log[..i + 1] == log[..i] + [log[i]]
  {
  }

  /** A loop that could take a further turn has not ended. */
  lemma NoEndBefore(g: Given, a: seq<Entry>, b: seq<Entry>, end: LoopEnd)
    requires TurnsAs(g, a) && TurnsAs(g, b) && |a| < |b|
    ensures !EndsWith(g, a, end)
  {
    SameTurns(g, a, b, |a|);
    assert a[..|a|] == a;
    TurnAt(g, b, |a|);
  }

  /** So the stream, the schedule and the queue determine the log and the end. */
  lemma LoopIsDetermined(g: Given, a: seq<Entry>, aEnd: LoopEnd, b: seq<Entry>, bEnd: LoopEnd)
    requires LoopRuns(g, a, aEnd) && LoopRuns(g, b, bEnd)
    ensures a == b && aEnd == bEnd
  {
    if |a| < |b| {
      NoEndBefore(g, a, b, aEnd);
    } else if |b| < |a| {
      NoEndBefore(g, b, a, bEnd);
    } else {
      SameTurns(g, a, b, |a|);
      assert a[..|a|] == a && b[..|b|] == b;
    }
  }

  /** One more whole turn. */
  lemma OneMoreTurn(g: Given, log: seq<Entry>, e: Entry)
    requires TurnsAs(g, log) && |log| < |g.schedule| && |log| < |g.stream.aus|
    requires TurnAs(g.schedule[|log|], g.stream.aus[|log|], g.receiverAlive, Backlog(g.queued, log), e)
    ensures TurnsAs(g, log + [e]) && Backlog(g.queued, log + [e]) == e.queued + (if e.kept then 1 else 0)
  {
    var more := log + [e];
    forall i | 0 <= i < |more|
      ensures TurnAs(g.schedule[i], g.stream.aus[i], g.receiverAlive, Backlog(g.queued, more[..i]), more[i])
    {
      assert more[..i] == log[..i];
      if i == |log| {
        assert log[..i] == log;
      } else {
        assert TurnAs(g.schedule[i], g.stream.aus[i], g.receiverAlive, Backlog(g.queued, log[..i]), log[i]);
      }
    }
  }

  /** What the turns say of the log alone: the stream in order, and while the receiver lives every key picture kept. */
  lemma {:induction false} TurnsFollow(g: Given, log: seq<Entry>)
    requires TurnsAs(g, log) && g.queued <= CAPACITY
    ensures Attempted(log) == g.stream.aus[..|log|] && Backlog(g.queued, log) <= CAPACITY
    ensures g.receiverAlive ==> FairLog(log)
  {
    forall i | 0 <= i < |log|
      ensures Attempted(log)[i] == g.stream.aus[i] && log[i].queued <= CAPACITY
      ensures g.receiverAlive ==> FairEntry(log[i])
    {
      TurnIsFair(g, log, i);
    }
  }

  lemma {:induction false} TurnIsFair(g: Given, log: seq<Entry>, i: nat)
    requires TurnsAs(g, log) && g.queued <= CAPACITY && i < |log|
    ensures log[i].au == g.stream.aus[i] && log[i].queued <= CAPACITY && (g.receiverAlive ==> FairEntry(log[i]))
    ensures log[i].kept ==> log[i].queued < CAPACITY
  {
    assert TurnAs(g.schedule[i], g.stream.aus[i], g.receiverAlive, Backlog(g.queued, log[..i]), log[i]);
    if i > 0 {
      TurnIsFair(g, log, i - 1);
      assert log[..i][i - 1] == log[i - 1];
    }
  }
}
