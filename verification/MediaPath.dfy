/**
 From the encoder to the client: what an encoder puts into an FLV stream, and
 what a client makes of the frames that the host sends for it.
 */
module MediaPath {
  import opened Wrappers
  import opened Bytes
  import opened AnnexB
  import opened FlvUnits
  import opened FlvTags
  import opened Framing

  // ----- The encoder's side -----

  /** What an encoder writes into one tag. */
  datatype Content =
    | Setup(frameType: nat, cts: bytes, head: bytes, sps: seq<Nal>, pps: seq<Nal>, tail: bytes)
    | Picture(frameType: nat, cts: bytes, nals: seq<Nal>, residue: bytes)
    | Other(kind: byte, data: bytes)

  datatype Item = Item(ts: nat, stream: bytes, prev: bytes, content: Content)

  /** The width of length fields and the parameter sets that hold where an item stands. */
  datatype Context = Context(width: nat, sets: seq<Nal>)

  const NO_CONTEXT := Context(4, [])

  function After(cx: Context, item: Item): Context
    requires ItemOk(cx, item)
  {
    match item.content
    case Setup(_, _, head, sps, pps, _) => Context(head[4] % 4 + 1, sps + pps)
    case _ => cx
  }

  /** The limits of the format: an item that can be written down, and conforming NAL units. */
  predicate ItemOk(cx: Context, item: Item)
  {
    && 1 <= cx.width <= 4 && item.ts < 0x1_0000_0000 && |item.stream| == 3 && |item.prev| == 4
    && match item.content
       case Setup(frameType, cts, head, sps, pps, tail) =>
         && frameType < 16 && |cts| == 3 && |head| == 6 && head[5] % 32 == |sps| && |pps| < 256
         && FitWidth(sps, 2) && FitWidth(pps, 2) && AllConforming(sps) && AllConforming(pps)
         && 5 + |ConfigBytes(head, sps, pps, tail)| < 0x100_0000
       case Picture(frameType, cts, nals, residue) =>
         && frameType < 16 && |cts| == 3 && |residue| < cx.width
         && FitWidth(nals, cx.width) && AllConforming(nals)
         && 5 + |LengthPrefixed(nals, cx.width) + residue| < 0x100_0000
       case Other(kind, data) =>
         |data| < 0x100_0000 && (kind != 9 || |data| < 5 || data[0] % 16 != 7 || data[1] > 1)
  }

  predicate StreamOk(cx: Context, items: seq<Item>)
    decreases |items|
  {
    items == [] || (ItemOk(cx, items[0]) && StreamOk(After(cx, items[0]), items[1..]))
  }

  /** An AVC video tag: frame type and codec, packet type, composition time, and the rest. */
  function AvcData(frameType: nat, packetType: byte, cts: bytes, rest: bytes): bytes
    requires frameType < 16 && |cts| == 3
  {
    [frameType * 16 + 7, packetType] + cts + rest
  }

  function TagOf(cx: Context, item: Item): (t: Tag)
    requires ItemOk(cx, item)
    ensures WellFormed(t)
  {
    match item.content
    case Setup(frameType, cts, head, sps, pps, tail) =>
      Tag(9, item.ts, item.stream, AvcData(frameType, 0, cts, ConfigBytes(head, sps, pps, tail)), item.prev)
    case Picture(frameType, cts, nals, residue) =>
      Tag(9, item.ts, item.stream, AvcData(frameType, 1, cts, LengthPrefixed(nals, cx.width) + residue), item.prev)
    case Other(kind, data) =>
      Tag(kind, item.ts, item.stream, data, item.prev)
  }

  function TagsOf(cx: Context, items: seq<Item>): (tags: seq<Tag>)
    requires StreamOk(cx, items)
    ensures AllWellFormed(tags)
    decreases |items|
  {
    if items == [] then [] else [TagOf(cx, items[0])] + TagsOf(After(cx, items[0]), items[1..])
  }

  // ----- What the client should show -----

  datatype Shown = Shown(keyframe: bool, ptsUs: nat, nals: seq<Nal>)

  /** A picture with its non-empty NAL units, a key picture behind the latest parameter sets; nothing if it is empty. */
  function ShownFor(cx: Context, item: Item): seq<Shown>
  {
    match item.content
    case Picture(frameType, _, nals, _) =>
      var key := frameType == 1;
      var all := (if key then cx.sets else []) + NonEmpty(nals);
      if all == [] then [] else [Shown(key, item.ts * 1000, all)]
    case _ => []
  }

  function Expected(cx: Context, items: seq<Item>): seq<Shown>
    requires StreamOk(cx, items)
    decreases |items|
  {
    if items == [] then [] else ShownFor(cx, items[0]) + Expected(After(cx, items[0]), items[1..])
  }

  // ----- The host: demuxing gives the expected pictures in start-code form -----

  function AuOf(s: Shown): AccessUnit
  {
    AccessUnit(s.keyframe, s.ptsUs, StartCoded(s.nals))
  }

  function AusOf(shown: seq<Shown>): (aus: seq<AccessUnit>)
    ensures |aus| == |shown|
  {
    if shown == [] then [] else [AuOf(shown[0])] + AusOf(shown[1..])
  }

  lemma {:induction false} AusOfConcat(a: seq<Shown>, b: seq<Shown>)
    ensures AusOf(a + b) == AusOf(a) + AusOf(b)
  {
    if a == [] {
      assert a + b == b;
    } else {
      HeadOfConcat(a, b);
      AusOfConcat(a[1..], b);
      Regrouped([AuOf(a[0])], AusOf(a[1..]), AusOf(b));
    }
  }

  function StateOf(cx: Context): State
  {
    State(StartCoded(cx.sets), cx.width)
  }

  lemma AvcDataParts(frameType: nat, packetType: byte, cts: bytes, rest: bytes)
    requires frameType < 16 && |cts| == 3
    ensures var d := AvcData(frameType, packetType, cts, rest);
            |d| >= 5 && d[0] % 16 == 7 && d[0] / 16 == frameType && d[1] == packetType && d[5..] == rest
  {
  }

  lemma PictureEffect(cx: Context, item: Item)
    requires ItemOk(cx, item) && item.content.Picture?
    ensures var e := ApplyTag(StateOf(cx), TagOf(cx, item));
            var shown := ShownFor(cx, item);
            e == Effect(StateOf(cx), true, if shown == [] then None else Some(AuOf(shown[0])))
  {
    var Picture(frameType, cts, nals, residue) := item.content;
    AvcDataParts(frameType, 1, cts, LengthPrefixed(nals, cx.width) + residue);
    ReadUnitsInverts(nals, cx.width, residue);
    var sets := if frameType == 1 then cx.sets else [];
    StartCodedConcat(sets, NonEmpty(nals));
    StartCodedEmpty(sets + NonEmpty(nals));
  }

  lemma SetupEffect(cx: Context, item: Item)
    requires ItemOk(cx, item) && item.content.Setup?
    ensures ApplyTag(StateOf(cx), TagOf(cx, item)) == Effect(StateOf(After(cx, item)), true, None)
  {
    var Setup(frameType, cts, head, sps, pps, tail) := item.content;
    AvcDataParts(frameType, 0, cts, ConfigBytes(head, sps, pps, tail));
    ConfigRoundTrip(head, sps, pps, tail);
    assert ConfigBytes(head, sps, pps, tail)[4] == head[4];
  }

  lemma ItemEffect(cx: Context, item: Item)
    requires ItemOk(cx, item)
    ensures var e := ApplyTag(StateOf(cx), TagOf(cx, item));
            && e.ok && e.st == StateOf(After(cx, item))
            && (if e.au.Some? then [e.au.value] else []) == AusOf(ShownFor(cx, item))
  {
    match item.content
    case Setup(_, _, _, _, _, _) => SetupEffect(cx, item);
    case Picture(_, _, _, _) => PictureEffect(cx, item);
    case Other(_, _) =>
  }

  lemma {:induction false} FoldGivesExpected(cx: Context, items: seq<Item>)
    requires StreamOk(cx, items) && Valid(StateOf(cx))
    ensures var f := FoldTags(StateOf(cx), TagsOf(cx, items));
            f.ok && f.aus == AusOf(Expected(cx, items))
    decreases |items|
  {
    if items != [] {
      var item, next := items[0], After(cx, items[0]);
      ItemEffect(cx, item);
      FoldGivesExpected(next, items[1..]);
      var tags := TagsOf(cx, items);
      assert tags[0] == TagOf(cx, item) && tags[1..] == TagsOf(next, items[1..]);
      AusOfConcat(ShownFor(cx, item), Expected(next, items[1..]));
    }
  }

  // ----- The wire, and the client's side -----

  /** The frame the session loop sends for an access unit. */
  function VideoFrame(au: AccessUnit): Frame
  {
    Frame(VIDEO, VideoBytes(Video(if au.keyframe then VIDEO_FLAG_KEY else 0, au.ptsUs, au.data)))
  }

  function VideoFrames(aus: seq<AccessUnit>): (fs: seq<Frame>)
    ensures |fs| == |aus|
  {
    if aus == [] then [] else [VideoFrame(aus[0])] + VideoFrames(aus[1..])
  }

  /** What a client makes of a frame: a video frame becomes a picture, split at its start codes. */
  function ClientShows(f: Frame): seq<Shown>
  {
    if f.typ != VIDEO then []
    else
      match ParseVideo(f.payload)
      case None => []
      case Some(v) => [Shown(v.flags % 2 == 1, v.ptsUs, SplitStream(v.data))]
  }

  function ClientView(fs: seq<Frame>): seq<Shown>
  {
    if fs == [] then [] else ClientShows(fs[0]) + ClientView(fs[1..])
  }

  lemma {:induction false} ClientViewConcat(a: seq<Frame>, b: seq<Frame>)
    ensures ClientView(a + b) == ClientView(a) + ClientView(b)
  {
    if a == [] {
      assert a + b == b;
    } else {
      HeadOfConcat(a, b);
      ClientViewConcat(a[1..], b);
      Regrouped(ClientShows(a[0]), ClientView(a[1..]), ClientView(b));
    }
  }

  /** A picture that a client can read: its NAL units conform, and its time stamp fits. */
  predicate Readable(s: Shown)
  {
    AllConforming(s.nals) && s.ptsUs < 0x1_0000_0000_0000_0000
  }

  predicate AllReadable(shown: seq<Shown>)
  {
    forall i :: 0 <= i < |shown| ==> Readable(shown[i])
  }

  lemma OnePicture(s: Shown)
    requires Readable(s)
    ensures ClientShows(VideoFrame(AuOf(s))) == [s]
  {
    VideoRoundTrip(Video(if s.keyframe then VIDEO_FLAG_KEY else 0, s.ptsUs, StartCoded(s.nals)));
    SplitRecoversNals(s.nals);
  }

  lemma FirstFrame(shown: seq<Shown>)
    requires shown != []
    ensures var fs := VideoFrames(AusOf(shown));
            fs[0] == VideoFrame(AuOf(shown[0])) && fs[1..] == VideoFrames(AusOf(shown[1..]))
  {
    var aus := AusOf(shown);
    assert aus[0] == AuOf(shown[0]) && aus[1..] == AusOf(shown[1..]);
  }

  lemma {:induction false} ClientSeesPictures(shown: seq<Shown>)
    requires AllReadable(shown)
    ensures ClientView(VideoFrames(AusOf(shown))) == shown
  {
    if shown != [] {
      ClientSeesPictures(shown[1..]);
      OnePicture(shown[0]);
      FirstFrame(shown);
      assert shown == [shown[0]] + shown[1..];
    }
  }

  lemma {:induction false} ExpectedReadable(cx: Context, items: seq<Item>)
    requires StreamOk(cx, items) && AllConforming(cx.sets)
    ensures AllReadable(Expected(cx, items))
    decreases |items|
  {
    if items != [] {
      ExpectedReadable(After(cx, items[0]), items[1..]);
      if items[0].content.Picture? {
        NonEmptyConforms(items[0].content.nals);
      }
    }
  }

  /** Tags hold less than 16 MiB, so parameter sets stay below 32 MiB, and pictures below 80. */
  predicate SetsBounded(cx: Context)
  {
    |StartCoded(cx.sets)| < 0x200_0000
  }

  predicate AllBounded(shown: seq<Shown>)
  {
    forall i :: 0 <= i < |shown| ==> |StartCoded(shown[i].nals)| < 0x500_0000
  }

  lemma SetsStayBounded(cx: Context, item: Item)
    requires ItemOk(cx, item) && SetsBounded(cx)
    ensures SetsBounded(After(cx, item))
  {
    match item.content
    case Setup(_, _, head, sps, pps, tail) =>
      GrowthOfSets(sps);
      GrowthOfSets(pps);
      StartCodedConcat(sps, pps);
    case _ =>
  }

  lemma PictureBounded(cx: Context, item: Item)
    requires ItemOk(cx, item) && SetsBounded(cx)
    ensures AllBounded(ShownFor(cx, item))
  {
    if item.content.Picture? {
      var nals := item.content.nals;
      UnitsBounded(nals, cx.width);
      StartCodedConcat(cx.sets, NonEmpty(nals));
      assert [] + NonEmpty(nals) == NonEmpty(nals);
    }
  }

  lemma UnitsBounded(nals: seq<Nal>, width: nat)
    requires 1 <= width <= 4 && |LengthPrefixed(nals, width)| < 0x100_0000
    ensures |StartCoded(NonEmpty(nals))| < 0x300_0000
  {
    GrowthOfList(nals, width);
    var n := |StartCoded(NonEmpty(nals))|;
    assert (width + 1) * n >= 2 * n;
  }

  lemma {:induction false} ExpectedBounded(cx: Context, items: seq<Item>)
    requires StreamOk(cx, items) && SetsBounded(cx)
    ensures AllBounded(Expected(cx, items))
    decreases |items|
  {
    if items != [] {
      SetsStayBounded(cx, items[0]);
      PictureBounded(cx, items[0]);
      ExpectedBounded(After(cx, items[0]), items[1..]);
    }
  }

  lemma {:induction false} BoundedIsCountable(shown: seq<Shown>)
    requires AllBounded(shown)
    ensures AllCountable(VideoFrames(AusOf(shown)))
  {
    if shown != [] {
      FirstFrame(shown);
      BoundedIsCountable(shown[1..]);
      var fs := VideoFrames(AusOf(shown));
      assert fs == [fs[0]] + fs[1..];
    }
  }

  /** The FLV file an encoder writes: a 13-byte header and the tags of the items. */
  function FlvBytes(header: bytes, items: seq<Item>): bytes
    requires StreamOk(NO_CONTEXT, items)
  {
    header + TagsBytes(TagsOf(NO_CONTEXT, items))
  }

  lemma {:induction false} TagsAreDemuxed(items: seq<Item>, tail: bytes)
    requires StreamOk(NO_CONTEXT, items) && !CutTag(tail).Whole?
    ensures Demux(INITIAL, TagsBytes(TagsOf(NO_CONTEXT, items)) + tail).aus == AusOf(Expected(NO_CONTEXT, items))
  {
    FoldGivesExpected(NO_CONTEXT, items);
    DemuxIsFold(INITIAL, TagsOf(NO_CONTEXT, items), tail);
  }

  /** The bytes the host sends for the pictures of an FLV file when none is dropped; nothing without the signature. */
  function HostWire(flv: bytes): bytes
  {
    if !GoodHeader(flv) then [] else FramesBytes(VideoFrames(Demux(INITIAL, flv[13..]).aus))
  }

  lemma HostSendsExpected(header: bytes, items: seq<Item>, tail: bytes)
    requires |header| == 13 && StreamOk(NO_CONTEXT, items) && !CutTag(tail).Whole?
    ensures HostWire(FlvBytes(header, items) + tail) ==
            if GoodHeader(header) then WireOf(Expected(NO_CONTEXT, items)) else []
  {
    AfterHeader(header, TagsBytes(TagsOf(NO_CONTEXT, items)), tail);
    TagsAreDemuxed(items, tail);
  }

  lemma AfterHeader(header: bytes, tags: bytes, tail: bytes)
    requires |header| == 13
    ensures (header + tags + tail)[13..] == tags + tail
    ensures GoodHeader(header + tags + tail) <==> GoodHeader(header)
  {
    assert (header + tags + tail)[..3] == header[..3];
  }

  /** The bytes that carry pictures. */
  function WireOf(shown: seq<Shown>): bytes
  {
    FramesBytes(VideoFrames(AusOf(shown)))
  }

  /** How many of the pictures come before the first whose frame is too large. */
  function FittingPictures(shown: seq<Shown>): (k: nat)
    ensures k <= |shown|
  {
    FitCount(VideoFrames(AusOf(shown)))
  }

  /** The pictures all fit into frames. */
  predicate PicturesFit(shown: seq<Shown>)
  {
    AllFit(VideoFrames(AusOf(shown)))
  }

  /**
   The main theorem of the media path. Take any stream an encoder can write,
   behind any thirteen bytes of header, cut off anywhere in its last tag; demux
   it, send every access unit as a video frame, and let the connection break
   after any number of bytes. Then the client shows exactly the first pictures
   of the stream: their non-empty NAL units, in order, key pictures behind the
   latest parameter sets, with the key flag and the time stamp in microseconds.
   They are those that lie within the bytes that arrived and come before one
   whose frame is too large; behind a header without the signature there are
   none.
   */
  lemma {:induction false} ClientShowsTheStream(header: bytes, items: seq<Item>, tail: bytes, n: nat) returns (k: nat)
    requires |header| == 13 && StreamOk(NO_CONTEXT, items) && !CutTag(tail).Whole?
    requires n <= |HostWire(FlvBytes(header, items) + tail)|
    ensures k <= FittingPictures(Expected(NO_CONTEXT, items))
    ensures ClientView(DecodeAll(HostWire(FlvBytes(header, items) + tail)[..n]).frames)
         == Expected(NO_CONTEXT, items)[..k]
    ensures GoodHeader(header) ==>
              && |WireOf(Expected(NO_CONTEXT, items)[..k])| <= n
              && (k < FittingPictures(Expected(NO_CONTEXT, items)) ==>
                    n < |WireOf(Expected(NO_CONTEXT, items)[..k + 1])|)
    ensures n == |HostWire(FlvBytes(header, items) + tail)| ==>
              k == if GoodHeader(header) then FittingPictures(Expected(NO_CONTEXT, items)) else 0
  {
    HostSendsExpected(header, items, tail);
    ExpectedReadable(NO_CONTEXT, items);
    ExpectedBounded(NO_CONTEXT, items);
    k := PrefixOfWire(Expected(NO_CONTEXT, items), HostWire(FlvBytes(header, items) + tail), GoodHeader(header), n);
  }

  lemma {:induction false} PrefixOfWire(shown: seq<Shown>, wire: bytes, good: bool, n: nat) returns (k: nat)
    requires AllReadable(shown) && AllBounded(shown)
    requires wire == (if good then WireOf(shown) else []) && n <= |wire|
    ensures k <= FittingPictures(shown) && ClientView(DecodeAll(wire[..n]).frames) == shown[..k]
    ensures good ==> |WireOf(shown[..k])| <= n && (k < FittingPictures(shown) ==> n < |WireOf(shown[..k + 1])|)
    ensures n == |wire| ==> k == if good then FittingPictures(shown) else 0
  {
    if good {
      k := PrefixOfPictures(shown, n);
    } else {
      k := 0;
    }
  }

  lemma {:induction false} PrefixOfPictures(shown: seq<Shown>, n: nat) returns (k: nat)
    requires AllReadable(shown) && AllBounded(shown)
    requires n <= |WireOf(shown)|
    ensures k <= FittingPictures(shown)
    ensures ClientView(DecodeAll(WireOf(shown)[..n]).frames) == shown[..k]
    ensures |WireOf(shown[..k])| <= n && (k < FittingPictures(shown) ==> n < |WireOf(shown[..k + 1])|)
    ensures n == |WireOf(shown)| ==> k == FittingPictures(shown)
  {
    BoundedIsCountable(shown);
    k := BrokenStream(VideoFrames(AusOf(shown)), n);
    FramesOfPrefix(shown, k);
    if k < FittingPictures(shown) {
      FramesOfPrefix(shown, k + 1);
    }
    ClientSeesPictures(shown[..k]);
  }

  /** Over an unbroken connection the client shows the whole stream exactly if the header is right and every picture fits. */
  lemma {:induction false} WholeStreamIff(header: bytes, items: seq<Item>, tail: bytes)
    requires |header| == 13 && StreamOk(NO_CONTEXT, items) && !CutTag(tail).Whole?
    ensures var expected := Expected(NO_CONTEXT, items);
            ClientView(DecodeAll(HostWire(FlvBytes(header, items) + tail)).frames) == expected
            <==> expected == [] || (GoodHeader(header) && PicturesFit(expected))
  {
    var wire, expected := HostWire(FlvBytes(header, items) + tail), Expected(NO_CONTEXT, items);
    var k := ClientShowsTheStream(header, items, tail, |wire|);
    assert wire[..|wire|] == wire;
    assert expected[..k] == expected <==> k == |expected|;
    var fs := VideoFrames(AusOf(expected));
    assert fs[..|fs|] == fs;
  }

  /** A key picture of one NAL unit, the first thing in a stream. */
  function OnePictureItem(nal: Nal): Item
  {
    Item(0, [0, 0, 0], [0, 0, 0, 0], Picture(1, [0, 0, 0], [nal], []))
  }

  lemma OneNal(nal: Nal)
    requires nal != []
    ensures |LengthPrefixed([nal], 4)| == 4 + |nal| && |StartCoded([nal])| == 4 + |nal| && NonEmpty([nal]) == [nal]
  {
    assert LengthPrefixed([nal], 4) == ToBE(|nal|, 4) + nal + LengthPrefixed([], 4);
    assert StartCoded([nal]) == START_CODE + nal + StartCoded([]);
  }

  /** A stream of one such picture is shown exactly if the NAL unit leaves room for 14 bytes in a frame. */
  lemma {:induction false} OnePictureShownIff(header: bytes, nal: Nal)
    requires |header| == 13 && GoodHeader(header) && Conforming(nal) && nal != [] && 9 + |nal| < 0x100_0000
    ensures StreamOk(NO_CONTEXT, [OnePictureItem(nal)])
    ensures Expected(NO_CONTEXT, [OnePictureItem(nal)]) == [Shown(true, 0, [nal])]
    ensures var client := ClientView(DecodeAll(HostWire(FlvBytes(header, [OnePictureItem(nal)]))).frames);
            client == if |nal| + 14 <= MAX_FRAME then [Shown(true, 0, [nal])] else []
  {
    var item, shown := OnePictureItem(nal), Shown(true, 0, [nal]);
    OneNal(nal);
    PowValues();
    assert ItemOk(NO_CONTEXT, item);
    assert NO_CONTEXT.sets + [nal] == [nal];
    assert Expected(NO_CONTEXT, [item]) == [shown] + Expected(After(NO_CONTEXT, item), []);
    WholeWire(header, [item]);
    OneFits(shown);
  }

  /** A picture that no client gets to see: its one NAL unit is as large as a frame may be. */
  lemma LargePictureIsLost(header: bytes)
    requires |header| == 13 && GoodHeader(header)
    ensures var item := OnePictureItem(seq(MAX_FRAME, _ => 0x65));
            && StreamOk(NO_CONTEXT, [item]) && |Expected(NO_CONTEXT, [item])| == 1
            && ClientView(DecodeAll(HostWire(FlvBytes(header, [item]))).frames) == []
  {
    OnePictureShownIff(header, seq(MAX_FRAME, _ => 0x65));
  }

  /** What the client shows of a whole file over an unbroken connection. */
  lemma {:induction false} WholeWire(header: bytes, items: seq<Item>)
    requires |header| == 13 && GoodHeader(header) && StreamOk(NO_CONTEXT, items)
    ensures var expected := Expected(NO_CONTEXT, items);
            ClientView(DecodeAll(HostWire(FlvBytes(header, items))).frames) == expected[..FittingPictures(expected)]
  {
    var wire := HostWire(FlvBytes(header, items));
    assert FlvBytes(header, items) + [] == FlvBytes(header, items);
    var k := ClientShowsTheStream(header, items, [], |wire|);
    assert wire[..|wire|] == wire;
  }

  lemma OneFits(shown: Shown)
    ensures FittingPictures([shown]) == if 10 + |StartCoded(shown.nals)| <= MAX_FRAME then 1 else 0
  {
    FirstFrame([shown]);
  }

  lemma {:induction false} FramesOfPrefix(shown: seq<Shown>, k: nat)
    requires k <= |shown|
    ensures VideoFrames(AusOf(shown))[..k] == VideoFrames(AusOf(shown[..k]))
  {
    if k > 0 {
      FirstFrame(shown);
      FirstFrame(shown[..k]);
      FramesOfPrefix(shown[1..], k - 1);
      assert shown[..k][1..] == shown[1..][..k - 1];
      var fs := VideoFrames(AusOf(shown));
      assert fs[..k] == [fs[0]] + fs[1..][..k - 1];
    }
  }
}
