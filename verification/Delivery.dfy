/**
 What a client sees of a live session: the capture pipeline of
 `CaptureProtocol`, which may drop pictures, put together with the media path
 of `MediaPath`.
 */
module Delivery {
  import opened Bytes
  import opened FlvTags
  import opened Framing
  import opened MediaPath
  import opened CaptureProtocol

  /** The pictures whose send attempts were kept. */
  function Select(shown: seq<Shown>, log: seq<Entry>): seq<Shown>
    requires |shown| == |log|
  {
    if log == [] then [] else (if log[0].kept then [shown[0]] else []) + Select(shown[1..], log[1..])
  }

  lemma {:induction false} KeptAreSelected(shown: seq<Shown>, log: seq<Entry>)
    requires |shown| == |log| && Attempted(log) == AusOf(shown)
    ensures Kept(log) == AusOf(Select(shown, log))
  {
    if log != [] {
      assert AusOf(shown) == [AuOf(shown[0])] + AusOf(shown[1..]);
      assert Attempted(log) == [log[0].au] + Attempted(log[1..]);
      assert Attempted(log)[0] == log[0].au && Attempted(log)[1..] == Attempted(log[1..]);
      KeptAreSelected(shown[1..], log[1..]);
      AusOfConcat(if log[0].kept then [shown[0]] else [], Select(shown[1..], log[1..]));
    }
  }

  lemma {:induction false} SelectedFrom(shown: seq<Shown>, log: seq<Entry>)
    requires |shown| == |log| && AllReadable(shown)
    ensures AllReadable(Select(shown, log))
  {
    if log != [] {
      SelectedFrom(shown[1..], log[1..]);
    }
  }

  lemma {:induction false} AusOfPrefix(shown: seq<Shown>, k: nat)
    requires k <= |shown|
    ensures AusOf(shown[..k]) == AusOf(shown)[..k]
  {
    assert shown == shown[..k] + shown[k..];
    AusOfConcat(shown[..k], shown[k..]);
  }

  lemma {:induction false} OnlyVideoShows(fs: seq<Frame>)
    ensures ClientView(fs) == ClientView(VideoOnly(fs))
  {
    if fs != [] {
      OnlyVideoShows(fs[1..]);
      ClientViewConcat(if fs[0].typ == VIDEO then [fs[0]] else [], VideoOnly(fs[1..]));
      if fs[0].typ == VIDEO {
        assert ClientView([fs[0]]) == ClientShows(fs[0]) + [];
      }
    }
  }

  lemma Beginning(expected: seq<Shown>, first: seq<AccessUnit>, rest: seq<AccessUnit>)
    requires AusOf(expected) == first + rest
    ensures |first| <= |expected| && AusOf(expected[..|first|]) == first
  {
    assert |expected| == |first| + |rest|;
    AusOfPrefix(expected, |first|);
  }

  lemma Regroup(expected: seq<Shown>, tried: seq<AccessUnit>, pending: seq<AccessUnit>, more: seq<AccessUnit>)
    requires AusOf(expected) == tried + pending + more
    ensures |tried| <= |expected| && AusOf(expected[..|tried|]) == tried
  {
    assert tried + pending + more == tried + (pending + more);
    Beginning(expected, tried, pending + more);
  }

  /** What has been demuxed from a stream is the beginning of what the stream holds. */
  lemma DemuxedFirst(st: State, s: bytes, expected: seq<Shown>,
                     tried: seq<AccessUnit>, pending: seq<AccessUnit>, d: State, p: bytes)
    requires Valid(st) && Valid(d) && Reaches(st, s, tried + pending, d, p)
    requires Demux(st, s).aus == AusOf(expected)
    ensures |tried| <= |expected| && AusOf(expected[..|tried|]) == tried
  {
    ReachesDemux(st, s, tried + pending, d, p);
    Regroup(expected, tried, pending, Demux(d, p).aus);
  }

  /** What the reader attempted to send is the beginning of what the encoder put in. */
  lemma AttemptsFollowTheStream(f: Fifo, r: Reader, header: bytes, items: seq<Item>, tail: bytes)
    requires DemuxInv(f, r) && |header| == 13 && StreamOk(NO_CONTEXT, items) && !CutTag(tail).Whole?
    requires f.fed == FlvBytes(header, items) + tail
    ensures var expected := Expected(NO_CONTEXT, items);
            |r.log| <= |expected| && Attempted(r.log) == AusOf(expected[..|r.log|])
    ensures !GoodHeader(header) ==> r.log == []
  {
    if r.started {
      AfterHeader(header, TagsBytes(TagsOf(NO_CONTEXT, items)), tail);
      TagsAreDemuxed(items, tail);
      DemuxedFirst(INITIAL, f.fed[13..], Expected(NO_CONTEXT, items), Attempted(r.log), Pending(r), r.demux, f.pipe);
    }
  }

  /** How many pictures come before the first frame that is too large. */
  function PicturesRead(outbox: seq<Frame>): nat
  {
    |VideoOnly(outbox[..FitCount(outbox)])|
  }

  lemma FirstVideo(outbox: seq<Frame>)
    ensures PicturesRead(outbox) <= |VideoOnly(outbox)|
    ensures VideoOnly(outbox[..FitCount(outbox)]) == VideoOnly(outbox)[..PicturesRead(outbox)]
  {
    var c := FitCount(outbox);
    assert outbox == outbox[..c] + outbox[c..];
    VideoOnlyConcat(outbox[..c], outbox[c..]);
  }

  lemma WholeOutboxRead(outbox: seq<Frame>)
    requires AllCountable(outbox)
    ensures DecodeAll(FramesBytes(outbox)).frames == outbox[..FitCount(outbox)]
  {
    var all := FramesBytes(outbox);
    var k := BrokenStream(outbox, |all|);
    assert all[..|all|] == all;
  }

  lemma AllFitAllRead(outbox: seq<Frame>)
    requires AllFit(outbox)
    ensures PicturesRead(outbox) == |VideoOnly(outbox)|
  {
    assert outbox[..|outbox|] == outbox;
  }

  /** A client of frames that carry the first of some pictures, and no other video, shows the first of those. */
  lemma {:induction false} ClientSeesFirst(outbox: seq<Frame>, aus: seq<AccessUnit>, selected: seq<Shown>, rest: seq<AccessUnit>)
    requires AllCountable(outbox) && VideoOnly(outbox) == VideoFrames(aus) && AusOf(selected) == aus + rest
    requires AllReadable(selected)
    ensures PicturesRead(outbox) <= |aus| <= |selected|
    ensures ClientView(DecodeAll(FramesBytes(outbox)).frames) == selected[..PicturesRead(outbox)]
  {
    Beginning(selected, aus, rest);
    var first := selected[..|aus|];
    FirstPicturesShown(outbox, first);
    assert first[..PicturesRead(outbox)] == selected[..PicturesRead(outbox)];
  }

  lemma {:induction false} FirstPicturesShown(outbox: seq<Frame>, shown: seq<Shown>)
    requires AllCountable(outbox) && VideoOnly(outbox) == VideoFrames(AusOf(shown)) && AllReadable(shown)
    ensures PicturesRead(outbox) <= |shown|
    ensures ClientView(DecodeAll(FramesBytes(outbox)).frames) == shown[..PicturesRead(outbox)]
  {
    WholeOutboxRead(outbox);
    OnlyVideoShows(outbox[..FitCount(outbox)]);
    FirstVideo(outbox);
    FramesOfPrefix(shown, PicturesRead(outbox));
    ClientSeesPictures(shown[..PicturesRead(outbox)]);
  }

  /**
   In every state of every run, whatever the recorder has written so far: the
   client shows, in order, the first of the pictures that were not dropped.
   Every key picture that was tried is among those, and a picture is dropped
   only at a moment when the queue holds four. Behind a header without the
   signature none is ever tried. The client shows all that were written, or
   those before the first frame that is too large.
   */
  lemma {:induction false} ClientSeesSelection(w: World, header: bytes, items: seq<Item>, tail: bytes)
    requires Inv(w) && AllCountable(w.host.outbox)
    requires |header| == 13 && StreamOk(NO_CONTEXT, items) && !CutTag(tail).Whole?
    requires w.fifo.fed == FlvBytes(header, items) + tail
    ensures var expected, log := Expected(NO_CONTEXT, items), w.reader.log;
            && |log| <= |expected|
            && PicturesRead(w.host.outbox) <= |w.host.shown| <= |Select(expected[..|log|], log)|
            && ClientView(DecodeAll(FramesBytes(w.host.outbox)).frames)
               == Select(expected[..|log|], log)[..PicturesRead(w.host.outbox)]
            && (AllFit(w.host.outbox) ==> PicturesRead(w.host.outbox) == |w.host.shown|)
            && forall i :: 0 <= i < |log| ==>
                 && (expected[i].keyframe ==> log[i].kept)
                 && (!log[i].kept ==> log[i].queued == CAPACITY)
    ensures !GoodHeader(header) ==> w.reader.log == []
  {
    var expected, log := Expected(NO_CONTEXT, items), w.reader.log;
    AttemptsFollowTheStream(w.fifo, w.reader, header, items, tail);
    ExpectedReadable(NO_CONTEXT, items);
    SelectionShown(w.queue, log, w.host, expected[..|log|]);
    AttemptedFlags(expected[..|log|], log);
  }

  lemma KeptSplits(queue: seq<AccessUnit>, log: seq<Entry>, h: Host)
    requires QueueInv(queue, log, h)
    ensures Kept(log) == h.shown + (InHand(h) + queue)
  {
  }

  lemma SelectionShown(queue: seq<AccessUnit>, log: seq<Entry>, h: Host, tried: seq<Shown>)
    requires QueueInv(queue, log, h) && AllCountable(h.outbox)
    requires |tried| == |log| && Attempted(log) == AusOf(tried)
    requires AllReadable(tried)
    ensures PicturesRead(h.outbox) <= |h.shown| <= |Select(tried, log)|
    ensures ClientView(DecodeAll(FramesBytes(h.outbox)).frames) == Select(tried, log)[..PicturesRead(h.outbox)]
    ensures AllFit(h.outbox) ==> PicturesRead(h.outbox) == |h.shown|
  {
    if AllFit(h.outbox) {
      AllFitAllRead(h.outbox);
    }
    KeptAreSelected(tried, log);
    SelectedFrom(tried, log);
    KeptSplits(queue, log, h);
    ClientSeesFirst(h.outbox, h.shown, Select(tried, log), InHand(h) + queue);
  }

  lemma {:induction false} AusOfAt(shown: seq<Shown>, i: nat)
    requires i < |shown|
    ensures AusOf(shown)[i] == AuOf(shown[i])
  {
    if i > 0 {
      AusOfAt(shown[1..], i - 1);
    }
  }

  lemma AttemptedFlags(shown: seq<Shown>, log: seq<Entry>)
    requires |shown| == |log| && Attempted(log) == AusOf(shown) && FairLog(log)
    ensures forall i :: 0 <= i < |log| ==>
              (shown[i].keyframe ==> log[i].kept) && (!log[i].kept ==> log[i].queued == CAPACITY)
  {
    forall i | 0 <= i < |log|
      ensures (shown[i].keyframe ==> log[i].kept) && (!log[i].kept ==> log[i].queued == CAPACITY)
    {
      AusOfAt(shown, i);
      assert Attempted(log)[i] == log[i].au;
      assert FairEntry(log[i]);
    }
  }
}
