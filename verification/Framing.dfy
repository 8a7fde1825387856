/** The wire format of src/proto.rs: length-prefixed frames, and the payload of a video frame. */
module Framing {
  import opened Wrappers
  import opened Bytes
  import opened ByteStream

  const MAX_FRAME := 8 * 1024 * 1024

  const VIDEO: byte := 0x06
  const PING: byte := 0x07

  const VIDEO_FLAG_KEY: byte := 0x01

  /** Widths of the length field of a frame and of the time stamp of a video payload. */
  const LENGTH_BYTES: nat := 4
  const STAMP_BYTES: nat := 8

  datatype Frame = Frame(typ: byte, payload: bytes)

  /** The receiver's limit bounds type and payload together. */
  predicate Fits(f: Frame)
  {
    1 + |f.payload| <= MAX_FRAME
  }

  /** A frame as it is written: the length is cut to four bytes, and never checked. */
  function FrameBytes(f: Frame): (s: bytes)
    ensures |s| == 5 + |f.payload|
  {
    ToBE(1 + |f.payload|, LENGTH_BYTES) + [f.typ] + f.payload
  }

  datatype Decoded = Good(frame: Frame, rest: bytes) | NoLength | BadLength | ShortBody

  /** The first frame of the data. */
  function Decode(s: bytes): Decoded
  {
    if |s| < 4 then NoLength
    else
      var len := FromBE(s[..4]);
      if len == 0 || len > MAX_FRAME then BadLength
      else if |s| < 4 + len then ShortBody
      else Good(Frame(s[4], s[5..4 + len]), s[4 + len..])
  }

  lemma LengthField(f: Frame, rest: bytes)
    ensures var s := FrameBytes(f) + rest;
            FromBE(s[..4]) == (1 + |f.payload|) % 0x1_0000_0000
  {
    var s := FrameBytes(f) + rest;
    assert s[..4] == ToBE(1 + |f.payload|, LENGTH_BYTES);
    ReadBackNumber(1 + |f.payload|, 4);
    PowValues();
  }

  /** A written frame is read back exactly when it fits; a larger one is never read back as itself. */
  lemma FrameRoundTripIff(f: Frame, rest: bytes)
    ensures Decode(FrameBytes(f) + rest) == Good(f, rest) <==> Fits(f)
  {
    var s := FrameBytes(f) + rest;
    LengthField(f, rest);
    if Fits(f) {
      assert s[4] == f.typ && s[5..5 + |f.payload|] == f.payload && s[5 + |f.payload|..] == rest;
    }
  }

  /** A frame that is read is what had been written, and it fits. */
  lemma DecodedWasWritten(s: bytes)
    requires Decode(s).Good?
    ensures var d := Decode(s);
            Fits(d.frame) && s == FrameBytes(d.frame) + d.rest
  {
    WriteBackBytes(s[..4]);
    var len := FromBE(s[..4]);
    assert s == s[..4] + [s[4]] + s[5..4 + len] + s[4 + len..];
  }

  datatype Received = Received(frames: seq<Frame>, end: Decoded)

  /** Repeated reading, until the data ends or is refused. */
  function DecodeAll(s: bytes): (r: Received)
    ensures !r.end.Good?
    decreases |s|
  {
    match Decode(s)
    case Good(f, rest) => var more := DecodeAll(rest); Received([f] + more.frames, more.end)
    case other => Received([], other)
  }

  function FramesBytes(fs: seq<Frame>): bytes
  {
    if fs == [] then [] else FrameBytes(fs[0]) + FramesBytes(fs[1..])
  }

  predicate AllFit(fs: seq<Frame>)
  {
    forall i :: 0 <= i < |fs| ==> Fits(fs[i])
  }

  /** Frames written one after the other are read back as the same list. */
  lemma {:induction false} DecodeAllInverts(fs: seq<Frame>, tail: bytes)
    requires AllFit(fs) && !Decode(tail).Good?
    ensures DecodeAll(FramesBytes(fs) + tail) == Received(fs, Decode(tail))
  {
    if fs == [] {
      assert FramesBytes(fs) + tail == tail;
    } else {
      var rest := FramesBytes(fs[1..]) + tail;
      assert FramesBytes(fs) + tail == FrameBytes(fs[0]) + rest;
      FrameRoundTripIff(fs[0], rest);
      DecodeAllInverts(fs[1..], tail);
    }
  }

  lemma {:induction false} FramesBytesConcat(a: seq<Frame>, b: seq<Frame>)
    ensures FramesBytes(a + b) == FramesBytes(a) + FramesBytes(b)
  {
    if a == [] {
      assert a + b == b;
    } else {
      HeadOfConcat(a, b);
      FramesBytesConcat(a[1..], b);
      Regrouped(FrameBytes(a[0]), FramesBytes(a[1..]), FramesBytes(b));
    }
  }

  /** A frame cut short is not read, and not refused either: the reader meets the end of the data. */
  lemma CutFrame(f: Frame, n: nat)
    requires Fits(f) && n < |FrameBytes(f)|
    ensures Decode(FrameBytes(f)[..n]) in {NoLength, ShortBody}
  {
    var s := FrameBytes(f);
    if n >= 4 {
      assert s[..n][..4] == (s + [])[..4];
      LengthField(f, []);
    }
  }

  lemma FirstFrameWhole(fs: seq<Frame>, n: nat)
    requires AllFit(fs) && fs != [] && |FrameBytes(fs[0])| <= n <= |FramesBytes(fs)|
    ensures var more := DecodeAll(FramesBytes(fs[1..])[..n - |FrameBytes(fs[0])|]);
            DecodeAll(FramesBytes(fs)[..n]) == Received([fs[0]] + more.frames, more.end)
  {
    var first := FrameBytes(fs[0]);
    var rest := FramesBytes(fs[1..])[..n - |first|];
    assert FramesBytes(fs)[..n] == first + rest;
    FrameRoundTripIff(fs[0], rest);
  }

  lemma FramesOfPrefixLength(fs: seq<Frame>, k: nat)
    requires 0 < k <= |fs|
    ensures |FramesBytes(fs[..k])| == |FrameBytes(fs[0])| + |FramesBytes(fs[1..][..k - 1])|
  {
    assert fs[..k][1..] == fs[1..][..k - 1];
  }

  /** Of `n` bytes of the stream, the first `k` frames are read, all that lie within them, and then the data ends. */
  predicate ReadsFirst(fs: seq<Frame>, n: nat, k: nat)
    requires n <= |FramesBytes(fs)|
  {
    var r := DecodeAll(FramesBytes(fs)[..n]);
    && k <= |fs| && r.frames == fs[..k] && r.end in {NoLength, ShortBody}
    && |FramesBytes(fs[..k])| <= n && (k < |fs| ==> n < |FramesBytes(fs[..k + 1])|)
    && (n == |FramesBytes(fs)| ==> k == |fs|)
  }

  lemma ReadsOneMore(fs: seq<Frame>, n: nat, k: nat)
    requires AllFit(fs) && fs != [] && |FrameBytes(fs[0])| <= n <= |FramesBytes(fs)|
    requires ReadsFirst(fs[1..], n - |FrameBytes(fs[0])|, k)
    ensures ReadsFirst(fs, n, k + 1)
  {
    FirstFrameWhole(fs, n);
    FramesOfPrefixLength(fs, k + 1);
    assert fs[..k + 1] == [fs[0]] + fs[1..][..k];
    if k + 1 < |fs| {
      FramesOfPrefixLength(fs, k + 2);
    }
  }

  /**
   A connection that breaks after `n` bytes: exactly the frames that lie within
   them are read, in order, and then the reader meets the end of the data.
   */
  lemma {:induction false} PrefixDecodes(fs: seq<Frame>, n: nat) returns (k: nat)
    requires AllFit(fs) && n <= |FramesBytes(fs)|
    ensures ReadsFirst(fs, n, k)
  {
    if fs == [] {
      k := 0;
    } else if n < |FrameBytes(fs[0])| {
      k := 0;
      assert FramesBytes(fs)[..n] == FrameBytes(fs[0])[..n];
      CutFrame(fs[0], n);
      FramesOfPrefixLength(fs, 1);
    } else {
      k := PrefixDecodes(fs[1..], n - |FrameBytes(fs[0])|);
      ReadsOneMore(fs, n, k);
      k := k + 1;
    }
  }

  // ----- Frames that are too large -----

  /** How many frames come before the first that is too large. */
  function FitCount(fs: seq<Frame>): (k: nat)
    ensures k <= |fs| && AllFit(fs[..k]) && (k < |fs| ==> !Fits(fs[k]))
  {
    if fs == [] || !Fits(fs[0]) then 0
    else
      assert forall k: nat :: k < |fs| ==> fs[..k + 1] == [fs[0]] + fs[1..][..k];
      1 + FitCount(fs[1..])
  }

  /** The length of a frame does not wrap around. */
  predicate Countable(f: Frame)
  {
    1 + |f.payload| < 0x1_0000_0000
  }

  predicate AllCountable(fs: seq<Frame>)
  {
    forall i :: 0 <= i < |fs| ==> Countable(fs[i])
  }

  /** A frame that is too large is refused by its length, once that is there. */
  lemma OversizeRefused(f: Frame, rest: bytes, n: nat)
    requires !Fits(f) && Countable(f) && n <= |FrameBytes(f) + rest|
    ensures Decode((FrameBytes(f) + rest)[..n]) == if n < 4 then NoLength else BadLength
  {
    if n >= 4 {
      LengthField(f, rest);
      assert (FrameBytes(f) + rest)[..n][..4] == (FrameBytes(f) + rest)[..4];
    }
  }

  /** Of `n` bytes of any stream, the frames are read that lie within them and come before one that is too large. */
  lemma BrokenStream(fs: seq<Frame>, n: nat) returns (k: nat)
    requires AllCountable(fs) && n <= |FramesBytes(fs)|
    ensures k <= FitCount(fs) && DecodeAll(FramesBytes(fs)[..n]).frames == fs[..k]
    ensures |FramesBytes(fs[..k])| <= n && (k < FitCount(fs) ==> n < |FramesBytes(fs[..k + 1])|)
    ensures n == |FramesBytes(fs)| ==> k == FitCount(fs)
  {
    var c := FitCount(fs);
    var a, b := fs[..c], fs[c..];
    assert fs == a + b;
    FramesBytesConcat(a, b);
    k := BrokenAt(a, b, n);
    assert a[..k] == fs[..k] && (k < c ==> a[..k + 1] == fs[..k + 1]);
  }

  lemma BrokenAt(a: seq<Frame>, b: seq<Frame>, n: nat) returns (k: nat)
    requires AllFit(a) && (b != [] ==> !Fits(b[0]) && Countable(b[0])) && n <= |FramesBytes(a) + FramesBytes(b)|
    ensures k <= |a| && DecodeAll((FramesBytes(a) + FramesBytes(b))[..n]).frames == a[..k]
    ensures |FramesBytes(a[..k])| <= n && (k < |a| ==> n < |FramesBytes(a[..k + 1])|)
    ensures n == |FramesBytes(a) + FramesBytes(b)| ==> k == |a|
  {
    var m := |FramesBytes(a)|;
    if n <= m {
      k := WithinFitting(a, FramesBytes(b), n);
    } else {
      k := |a|;
      assert a[..k] == a;
      UpToOversize(a, b, n - m);
    }
  }

  lemma WithinFitting(a: seq<Frame>, more: bytes, n: nat) returns (k: nat)
    requires AllFit(a) && n <= |FramesBytes(a)|
    ensures k <= |a| && DecodeAll((FramesBytes(a) + more)[..n]).frames == a[..k]
    ensures |FramesBytes(a[..k])| <= n && (k < |a| ==> n < |FramesBytes(a[..k + 1])|)
    ensures n == |FramesBytes(a)| ==> k == |a|
  {
    assert (FramesBytes(a) + more)[..n] == FramesBytes(a)[..n];
    k := PrefixDecodes(a, n);
  }

  lemma UpToOversize(a: seq<Frame>, b: seq<Frame>, n: nat)
    requires AllFit(a) && b != [] && !Fits(b[0]) && Countable(b[0]) && n <= |FramesBytes(b)|
    ensures DecodeAll((FramesBytes(a) + FramesBytes(b))[..|FramesBytes(a)| + n]).frames == a
  {
    StartsOversize(b, n);
    CutInSecond(FramesBytes(a), FramesBytes(b), n);
    DecodeAllInverts(a, FramesBytes(b)[..n]);
  }

  lemma StartsOversize(b: seq<Frame>, n: nat)
    requires b != [] && !Fits(b[0]) && Countable(b[0]) && n <= |FramesBytes(b)|
    ensures !Decode(FramesBytes(b)[..n]).Good?
  {
    OversizeRefused(b[0], FramesBytes(b[1..]), n);
  }

  lemma CutInSecond(a: bytes, b: bytes, n: nat)
    requires n <= |b|
    ensures (a + b)[..|a| + n] == a + b[..n]
  {
  }

  // ----- The methods of proto.rs -----

  /** One frame from the stream; an error when it ends too early or the length is refused. */
  method ReadFrame(r: ByteReader) returns (res: Option<Frame>)
    modifies r
    ensures match Decode(old(r.data))
            case Good(f, rest) => res == Some(f) && r.data == rest
            case BadLength => res == None && r.data == old(r.data)[4..]
            case _ => res == None && r.data == []
  {
    var lenb := r.ReadExact(4);
    if !lenb.Data? {
      return None;
    }
    var len := FromBE(lenb.bytes);
    if len == 0 || len > MAX_FRAME {
      return None;
    }
    var buf := r.ReadExact(len);
    if !buf.Data? {
      return None;
    }
    assert buf.bytes[1..] == old(r.data)[5..4 + len];
    return Some(Frame(buf.bytes[0], buf.bytes[1..]));
  }

  /** Appends a frame; when the stream breaks, the bytes it still took are the first of the frame. */
  method WriteFrame(w: ByteWriter, typ: byte, payload: bytes) returns (ok: bool)
    requires w.Valid()
    modifies w
    ensures w.Valid()
    ensures var all := old(w.data) + FrameBytes(Frame(typ, payload));
            && ok == (|all| <= w.room && w.flushes)
            && w.data == if |all| <= w.room then all else all[..w.room]
  {
    var len := (1 + |payload|) % 0x1_0000_0000;
    CutLength(1 + |payload|);
    CutWhileWriting(w.data, ToBE(len, LENGTH_BYTES), [typ], payload, w.room);
    ok := w.WriteAll(ToBE(len, LENGTH_BYTES));
    if !ok {
      return;
    }
    ok := w.WriteAll([typ]);
    if !ok {
      return;
    }
    ok := w.WriteAll(payload);
    if ok {
      ok := w.Flush();
    }
  }

  /** Writing three pieces in turn cuts off what writing all of them at once would. */
  lemma CutWhileWriting(o: bytes, a: bytes, b: bytes, c: bytes, room: nat)
    requires |o| <= room
    ensures o + a + b + c == o + (a + b + c)
    ensures |o + a| > room ==> (o + a)[..room] == (o + (a + b + c))[..room]
    ensures |o + a + b| > room ==> (o + a + b)[..room] == (o + (a + b + c))[..room]
  {
  }

  lemma CutLength(n: nat)
    ensures ToBE(n % 0x1_0000_0000, 4) == ToBE(n, 4)
  {
    ReadBackNumber(n, 4);
    PowValues();
    WriteBackBytes(ToBE(n, 4));
  }

  // ----- Video payloads -----

  datatype Video = Video(flags: byte, ptsUs: nat, data: bytes)

  method VideoPayload(flags: byte, ptsUs: nat, nal: bytes) returns (out: bytes)
    ensures out == VideoBytes(Video(flags, ptsUs, nal))
    ensures ptsUs < 0x1_0000_0000_0000_0000 ==> ParseVideo(out) == Some(Video(flags, ptsUs, nal))
  {
    out := [];
    out := out + [flags];
    out := out + ToBE(ptsUs, STAMP_BYTES);
    out := out + nal;
    VideoRoundTrip(Video(flags, ptsUs, nal));
  }

  function VideoBytes(v: Video): (s: bytes)
    ensures |s| == 9 + |v.data|
  {
    [v.flags] + ToBE(v.ptsUs, STAMP_BYTES) + v.data
  }

  function ParseVideo(payload: bytes): Option<Video>
  {
    if |payload| < 9 then None
    else Some(Video(payload[0], FromBE(payload[1..9]), payload[9..]))
  }

  /** A payload is parsed back exactly when the time stamp fits its eight bytes. */
  lemma VideoRoundTrip(v: Video)
    ensures ParseVideo(VideoBytes(v)) == Some(v) <==> v.ptsUs < 0x1_0000_0000_0000_0000
  {
    var s := VideoBytes(v);
    assert s[1..9] == ToBE(v.ptsUs, STAMP_BYTES) && s[9..] == v.data;
    ReadBackFits(v.ptsUs, 8);
    PowValues();
  }

  lemma ParsedVideoWasWritten(payload: bytes)
    requires ParseVideo(payload).Some?
    ensures VideoBytes(ParseVideo(payload).value) == payload
  {
    WriteBackBytes(payload[1..9]);
    assert payload == [payload[0]] + payload[1..9] + payload[9..];
  }
}
