/**
 The reading half of the session loop (src/net.rs). Each turn of the loop
 starts a fresh `read_frame`; when the other branch of the `select!` wins, the
 started read is dropped together with whatever it had taken off the stream.
 */
module FrameReader {
  import opened Bytes
  import opened Framing

  /**
   How one turn of the loop ends for the read: it completes, and then the loop
   may leave because of what the frame says, or it is abandoned.
   */
  datatype Turn = Completed(leaves: bool) | Abandoned(taken: nat)

  datatype Cursor = Cursor(pos: nat, frames: seq<Frame>, open: bool)

  const START := Cursor(0, [], true)

  /** A read that is still pending after taking `taken` bytes: it lacks a length byte, or a body byte. */
  predicate StillWaiting(s: bytes, taken: nat)
  {
    && taken <= |s|
    && (|| taken < 4
        || (0 < FromBE(s[..4]) <= MAX_FRAME && taken < 4 + FromBE(s[..4])))
  }

  predicate MayTake(s: bytes, r: Cursor, t: Turn)
  {
    r.open && r.pos <= |s| && (t.Abandoned? ==> StillWaiting(s[r.pos..], t.taken))
  }

  function TakeTurn(s: bytes, r: Cursor, t: Turn): (r': Cursor)
    requires MayTake(s, r, t)
    ensures r'.pos <= |s|
  {
    match t
    case Abandoned(taken) => Cursor(r.pos + taken, r.frames, true)
    case Completed(leaves) =>
      match Decode(s[r.pos..])
      case Good(f, rest) => Cursor(|s| - |rest|, r.frames + [f], !leaves)
      case _ => Cursor(r.pos, r.frames, false)
  }

  /** A run of the loop: the states from the first to the last. */
  ghost predicate IsLoopRun(s: bytes, states: seq<Cursor>, turns: seq<Turn>)
  {
    && |states| == |turns| + 1 && states[0] == START
    && forall i :: 0 <= i < |turns| ==>
         MayTake(s, states[i], turns[i]) && states[i + 1] == TakeTurn(s, states[i], turns[i])
  }

  /** Where the `k`-th frame begins. */
  function Boundary(fs: seq<Frame>, k: nat): nat
    requires k <= |fs|
  {
    |FramesBytes(fs[..k])|
  }

  ghost predicate Aligned(fs: seq<Frame>, pos: nat)
  {
    exists k :: 0 <= k <= |fs| && pos == Boundary(fs, k)
  }

  lemma BoundaryStep(fs: seq<Frame>, k: nat)
    requires k < |fs|
    ensures Boundary(fs, k + 1) == Boundary(fs, k) + |FrameBytes(fs[k])|
  {
    assert fs[..k + 1] == fs[..k] + [fs[k]];
    FramesBytesConcat(fs[..k], [fs[k]]);
    assert FramesBytes([fs[k]]) == FrameBytes(fs[k]);
  }

  lemma {:induction false} BoundaryOrder(fs: seq<Frame>, j: nat, k: nat)
    requires j <= k <= |fs|
    ensures Boundary(fs, j) <= Boundary(fs, k)
    decreases k - j
  {
    if j < k {
      BoundaryStep(fs, j);
      BoundaryOrder(fs, j + 1, k);
    }
  }

  /** What lies ahead of the reader at the `k`-th boundary. */
  lemma AheadOfBoundary(fs: seq<Frame>, k: nat)
    requires k <= |fs|
    ensures Boundary(fs, k) <= |FramesBytes(fs)|
    ensures FramesBytes(fs)[Boundary(fs, k)..] == FramesBytes(fs[k..])
  {
    assert fs == fs[..k] + fs[k..];
    FramesBytesConcat(fs[..k], fs[k..]);
  }

  /** From a boundary: a completed read delivers the next frame and stops at the next boundary. */
  lemma CompletedTurn(fs: seq<Frame>, k: nat)
    requires AllFit(fs) && k <= |fs|
    ensures Boundary(fs, k) <= |FramesBytes(fs)|
    ensures Decode(FramesBytes(fs)[Boundary(fs, k)..]) ==
            if k < |fs| then Good(fs[k], FramesBytes(fs[k + 1..])) else NoLength
  {
    AheadOfBoundary(fs, k);
    if k < |fs| {
      assert fs[k..][1..] == fs[k + 1..];
      FrameRoundTripIff(fs[k], FramesBytes(fs[k + 1..]));
    }
  }

  /** A read that has taken something and still waits has taken less than the frame it is in. */
  lemma PendingInsideFrame(f: Frame, rest: bytes, taken: nat)
    requires Fits(f) && StillWaiting(FrameBytes(f) + rest, taken)
    ensures taken < |FrameBytes(f)|
  {
    LengthField(f, rest);
  }

  lemma StrictlyBetween(fs: seq<Frame>, k: nat, pos: nat)
    requires k < |fs| && Boundary(fs, k) < pos < Boundary(fs, k + 1)
    ensures !Aligned(fs, pos)
  {
    forall j | 0 <= j <= |fs|
      ensures pos != Boundary(fs, j)
    {
      if j <= k {
        BoundaryOrder(fs, j, k);
      } else {
        BoundaryOrder(fs, k + 1, j);
      }
    }
  }

  /** An abandoned read leaves a boundary exactly when it had taken something, and then it leaves every boundary. */
  lemma AbandonedTurn(fs: seq<Frame>, k: nat, taken: nat)
    requires AllFit(fs) && k <= |fs|
    requires Boundary(fs, k) <= |FramesBytes(fs)|
    requires StillWaiting(FramesBytes(fs)[Boundary(fs, k)..], taken)
    ensures Aligned(fs, Boundary(fs, k) + taken) <==> taken == 0
  {
    AheadOfBoundary(fs, k);
    if taken > 0 {
      assert FramesBytes(fs[k..]) == FrameBytes(fs[k]) + FramesBytes(fs[k..][1..]);
      PendingInsideFrame(fs[k], FramesBytes(fs[k..][1..]), taken);
      BoundaryStep(fs, k);
      StrictlyBetween(fs, k, Boundary(fs, k) + taken);
    }
  }

  /**
   While every abandoned read had taken nothing, the reader has delivered the first frames, stands behind
   them, and closes only after the last or because a frame told it to.
   */
  lemma {:induction false} CleanRunDelivers(fs: seq<Frame>, states: seq<Cursor>, turns: seq<Turn>, i: nat)
    requires AllFit(fs) && IsLoopRun(FramesBytes(fs), states, turns) && i < |states|
    requires forall j :: 0 <= j < i && turns[j].Abandoned? ==> turns[j].taken == 0
    ensures var k := |states[i].frames|;
            k <= |fs| && states[i].frames == fs[..k] && states[i].pos == Boundary(fs, k)
    ensures !states[i].open ==>
              i > 0 && turns[i - 1].Completed? && (turns[i - 1].leaves || states[i].frames == fs)
  {
    if i > 0 {
      CleanRunDelivers(fs, states, turns, i - 1);
      var r := states[i - 1];
      assert MayTake(FramesBytes(fs), r, turns[i - 1]) && states[i] == TakeTurn(FramesBytes(fs), r, turns[i - 1]);
      var k := |r.frames|;
      CompletedTurn(fs, k);
      if turns[i - 1].Completed? && k < |fs| {
        AheadOfBoundary(fs, k + 1);
        assert fs[..k + 1] == fs[..k] + [fs[k]];
      } else if turns[i - 1].Completed? {
        assert fs[..k] == fs;
      }
    }
  }

  /** A run stays on frame boundaries exactly when no abandoned read had taken a byte. */
  lemma AlignedIffNothingTaken(fs: seq<Frame>, states: seq<Cursor>, turns: seq<Turn>)
    requires AllFit(fs) && IsLoopRun(FramesBytes(fs), states, turns)
    ensures (forall i :: 0 <= i < |states| ==> Aligned(fs, states[i].pos)) <==>
            (forall i :: 0 <= i < |turns| && turns[i].Abandoned? ==> turns[i].taken == 0)
  {
    if forall i :: 0 <= i < |turns| && turns[i].Abandoned? ==> turns[i].taken == 0 {
      forall i | 0 <= i < |states|
        ensures Aligned(fs, states[i].pos)
      {
        CleanRunDelivers(fs, states, turns, i);
      }
    } else {
      var i := FirstTaking(turns);
      CleanRunDelivers(fs, states, turns, i);
      assert MayTake(FramesBytes(fs), states[i], turns[i]);
      AbandonedTurn(fs, |states[i].frames|, turns[i].taken);
      assert !Aligned(fs, states[i + 1].pos);
    }
  }

  lemma FirstTaking(turns: seq<Turn>) returns (i: nat)
    requires exists j :: 0 <= j < |turns| && turns[j].Abandoned? && turns[j].taken != 0
    ensures i < |turns| && turns[i].Abandoned? && turns[i].taken != 0
    ensures forall j :: 0 <= j < i && turns[j].Abandoned? ==> turns[j].taken == 0
  {
    i := 0;
    while !(turns[i].Abandoned? && turns[i].taken != 0)
      invariant i < |turns|
      invariant forall j :: 0 <= j < i && turns[j].Abandoned? ==> turns[j].taken == 0
      invariant exists j :: i <= j < |turns| && turns[j].Abandoned? && turns[j].taken != 0
      decreases |turns| - i
    {
      i := i + 1;
    }
  }

  const A_PING := Frame(PING, [0, 0, 0, 0, 0, 0, 0, 1])

  /**
   A misaligned run: a read of a ping frame is abandoned after its length field,
   and the next one takes the ping's type and payload for a length, which it
   refuses; the loop ends although the client sent a good frame.
   */
  lemma MisalignedRun()
    ensures AllFit([A_PING])
    ensures IsLoopRun(FramesBytes([A_PING]), [START, Cursor(4, [], true), Cursor(4, [], false)], [Abandoned(4), Completed(false)])
  {
    var s := FramesBytes([A_PING]);
    OneFrame(A_PING);
    assert s == s + [];
    LengthField(A_PING, []);
    assert s[0..] == s;
    assert s[4..][..4] == [7, 0, 0, 0];
    Digits();
    ReadBackFits(0x700_0000, 4);
    PowValues();
    assert Decode(s[4..]) == BadLength;
  }

  lemma OneFrame(f: Frame)
    ensures FramesBytes([f]) == FrameBytes(f)
  {
    assert FramesBytes([f]) == FrameBytes(f) + [];
  }

  lemma Digits()
    ensures ToBE(0x700_0000, 4) == [7, 0, 0, 0]
  {
    assert ToBE(7, 1) == [7];
    assert ToBE(0x700, 2) == [7, 0];
    assert ToBE(0x7_0000, 3) == [7, 0, 0];
  }
}
