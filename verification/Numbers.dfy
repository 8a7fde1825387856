/**
 The constants of the original, by what they come to: each is said in numbers
 and bytes, without its name.
 */
module Numbers {
  import opened Bytes
  import opened AnnexB
  import opened FlvTags
  import opened Framing
  import opened MediaPath
  import opened CaptureProtocol
  import RateLimit

  // ----- The limiter: src/net.rs, lines 43 to 49 -----

  /** Calls within 30 seconds of the first are all in its window. */
  lemma {:induction false} WithinWindow(times: seq<int>)
    requires times != [] && RateLimit.Sorted(times) && times[|times| - 1] - times[0] <= 30_000_000_000
    ensures RateLimit.WindowStart(times) == 0
    decreases |times|
  {
    if |times| > 1 {
      WithinWindow(times[..|times| - 1]);
    }
  }

  /** Of nine calls within 30 seconds the last is denied; of fewer it is allowed. */
  lemma NinthIsDenied(times: seq<int>)
    requires 1 <= |times| <= 9 && RateLimit.Sorted(times) && times[|times| - 1] - times[0] <= 30_000_000_000
    ensures RateLimit.OwnAllowed(times) <==> |times| < 9
  {
    WithinWindow(times);
    RateLimit.DeniedIff(times);
  }

  /** One that comes more than 30 seconds after the first opens a window and is allowed. */
  lemma LaterIsAllowed(times: seq<int>, t: int)
    requires times != [] && RateLimit.Sorted(times) && times[|times| - 1] - times[0] <= 30_000_000_000
    requires t - times[0] > 30_000_000_000 && t >= times[|times| - 1]
    ensures RateLimit.OwnAllowed(times + [t])
  {
    WithinWindow(times);
    RateLimit.OneMoreAt(times, t, t, t);
    RateLimit.WrappedSmall(1);
    RateLimit.EntryCountsWindow(times + [t]);
  }

  /** After a call no entry is a minute old. */
  lemma PrunedAfterMinute(calls: seq<RateLimit.Call>, key: nat)
    requires calls != [] && RateLimit.InOrder(calls) && key in RateLimit.HitsAfter(calls)
    ensures calls[|calls| - 1].at - RateLimit.HitsAfter(calls)[key].start < 60_000_000_000
  {
    RateLimit.EntriesAreRecent(calls, key);
  }

  /** And until it is, it stays. */
  lemma KeptForMinute(calls: seq<RateLimit.Call>, c: RateLimit.Call, key: nat)
    requires key in RateLimit.HitsAfter(calls) && key != c.key
    ensures key in RateLimit.HitsAfter(calls + [c]) <==>
            c.at - RateLimit.HitsAfter(calls)[key].start < 60_000_000_000
  {
    RateLimit.TableOfLast(calls, c);
  }

  // ----- The queue: src/net.rs, line 179 -----

  /** Before a queue of four a picture that is no key picture is dropped, and before a shorter one it is queued. */
  lemma FifthIsDropped(w: World, au: AccessUnit)
    requires Valid(w.reader.demux) && w.reader.phase == Sending(au) && !au.keyframe && w.receiverAlive && |w.queue| <= 4
    ensures ReaderEnabled(w)
    ensures ReaderStep(w).queue == if |w.queue| == 4 then w.queue else w.queue + [au]
  {
  }

  // ----- The stream: src/flv.rs, lines 161 to 171 -----

  /** A header is good if there are 13 bytes that begin with F, L and V. */
  lemma HeaderIs(s: bytes)
    ensures GoodHeader(s) <==> |s| >= 13 && s[0] == 0x46 && s[1] == 0x4c && s[2] == 0x56
  {
    assert SIGNATURE == [0x46, 0x4c, 0x56];
    if |s| >= 13 {
      assert s[..3] == [s[0], s[1], s[2]];
    }
  }

  /** A NAL unit behind its start code. */
  lemma StartCodeIs(nal: Nal)
    ensures StartCoded([nal]) == [0, 0, 0, 1] + nal
  {
    assert StartCoded([nal]) == START_CODE + nal + StartCoded([]);
  }

  // ----- The wire: src/proto.rs, lines 8 to 145 -----

  /** Four bytes of length, the highest first, and what they count: the type and the payload. */
  lemma FrameIs(f: Frame)
    requires |f.payload| < 0xff_ffff
    ensures exists h: byte, m: byte, l: byte ::
              FrameBytes(f) == [0, h, m, l, f.typ] + f.payload && h * 65536 + m * 256 + l == 1 + |f.payload|
  {
    var n := 1 + |f.payload|;
    var h: byte, m: byte, l: byte := n / 65536, n / 256 % 256, n % 256;
    assert ToBE(n, LENGTH_BYTES) == ToBE(n / 256, 3) + [n % 256];
    assert ToBE(n / 256, 3) == ToBE(n / 256 / 256, 2) + [n / 256 % 256];
    assert ToBE(n / 256 / 256, 2) == ToBE(n / 256 / 256 / 256, 1) + [n / 256 / 256 % 256];
    assert ToBE(n / 256 / 256 / 256, 1) == [n / 256 / 256 / 256 % 256];
    assert n / 256 / 256 == h && n / 256 / 256 / 256 == 0;
    assert ToBE(n, LENGTH_BYTES) == [0, h, m, l];
    assert FrameBytes(f) == [0, h, m, l, f.typ] + f.payload;
  }

  /** A frame is read if type and payload are at most 8388608 bytes together. */
  lemma FitsIs(f: Frame)
    ensures Fits(f) <==> 1 + |f.payload| <= 8388608
  {
  }

  /** A picture's frame: type 6, one for a key picture or zero, eight bytes of time stamp, and the data. */
  lemma PictureIs(au: AccessUnit)
    ensures var f := VideoFrame(au);
            && f.typ == 6 && |f.payload| == 9 + |au.data|
            && f.payload[0] == (if au.keyframe then 1 else 0)
            && f.payload[1..9] == ToBE(au.ptsUs, 8) && f.payload[9..] == au.data
  {
  }
}
