/**
 The meaning of an FLV byte stream (Adobe FLV v10.1, annex E.4): a sequence of
 tags, folded over the demuxer's state. The class in `Flv` is proved to compute
 these functions.
 */
module FlvTags {
  import opened Wrappers
  import opened Bytes
  import opened AnnexB
  import opened FlvUnits

  // ----- The file header -----

  const SIGNATURE: bytes := ['F' as int, 'L' as int, 'V' as int]

  /** The header and the size field behind it; only the signature is looked at. */
  predicate GoodHeader(s: bytes)
  {
    |s| >= 13 && s[..3] == SIGNATURE
  }

  // ----- Tags as bytes -----

  datatype Tag = Tag(kind: byte, ts: nat, stream: bytes, data: bytes, prev: bytes)

  predicate WellFormed(t: Tag)
  {
    t.ts < 0x1_0000_0000 && |t.stream| == 3 && |t.data| < 0x100_0000 && |t.prev| == 4
  }

  /** A tag as it is written: the high timestamp byte follows the three low ones. */
  function TagBytes(t: Tag): (s: bytes)
    requires WellFormed(t)
    ensures |s| == 11 + |t.data| + 4
  {
    [t.kind] + ToBE(|t.data|, 3) + ToBE(t.ts, 3) + [t.ts / 0x100_0000] + t.stream + t.data + t.prev
  }

  datatype Cut = NoHeader | NoBody | Whole(tag: Tag, rest: bytes)

  /** The first tag of the data, if all of it is there. */
  function CutTag(s: bytes): Cut
  {
    if |s| < 11 then NoHeader
    else
      var n := FromBE(s[1..4]);
      if |s| < 11 + n + 4 then NoBody
      else
        Whole(Tag(s[0], FromBE([s[7]] + s[4..7]), s[8..11], s[11..11 + n], s[11 + n..15 + n]), s[15 + n..])
  }

  lemma Timestamp(ts: nat)
    requires ts < 0x1_0000_0000
    ensures FromBE([ts / 0x100_0000] + ToBE(ts, 3)) == ts
  {
    var low := ToBE(ts, 3);
    var all := [ts / 0x100_0000] + low;
    ReadBackNumber(ts, 3);
    PowValues();
    HighByte(ts / 0x100_0000, low);
  }

  lemma HighByte(high: byte, low: bytes)
    requires |low| == 3
    ensures FromBE([high] + low) == high * 0x100_0000 + FromBE(low)
  {
    var s := [high] + low;
    assert s[..3] == [high] + low[..2];
    assert s[..3][..2] == [high] + low[..1];
    assert s[..3][..2][..1] == [high];
    assert FromBE([high]) == high;
    assert FromBE(s[..3][..2]) == high * 256 + low[0];
    assert FromBE(s[..3]) == FromBE(s[..3][..2]) * 256 + low[1];
    assert FromBE(s) == FromBE(s[..3]) * 256 + low[2];
    assert FromBE(low) == (FromBE(low[..2][..1]) * 256 + low[1]) * 256 + low[2];
    assert FromBE(low[..2][..1]) == low[0];
  }

  lemma CutTagInverts(t: Tag, rest: bytes)
    requires WellFormed(t)
    ensures CutTag(TagBytes(t) + rest) == Whole(t, rest)
  {
    var s := TagBytes(t) + rest;
    var n := |t.data|;
    PowValues();
    ReadBackFits(n, 3);
    Timestamp(t.ts);
    assert s[1..4] == ToBE(n, 3);
    assert s[4..7] == ToBE(t.ts, 3) && s[7] == t.ts / 0x100_0000;
    assert s[8..11] == t.stream;
    assert s[11..11 + n] == t.data && s[11 + n..15 + n] == t.prev && s[15 + n..] == rest;
  }

  lemma TimestampBytes(high: byte, low: bytes)
    requires |low| == 3
    ensures var ts := FromBE([high] + low);
            ts < 0x1_0000_0000 && ts / 0x100_0000 == high && ToBE(ts, 3) == low
  {
    var ts := FromBE([high] + low);
    HighByte(high, low);
    FromBEBound(low);
    PowValues();
    WriteBackBytes([high] + low);
    WriteBackBytes(low);
    assert ToBE(ts, 4) == [high] + low;
    assert ToBE(ts, 4)[1..] == low;
    LowDigits(ts);
  }

  lemma LowDigits(n: nat)
    ensures ToBE(n, 4)[1..] == ToBE(n, 3)
  {
    assert ToBE(n, 4) == ToBE(n / 256, 3) + [n % 256];
    assert ToBE(n / 256, 3) == ToBE(n / 256 / 256, 2) + [n / 256 % 256];
    assert ToBE(n / 256 / 256, 2) == ToBE(n / 256 / 256 / 256, 1) + [n / 256 / 256 % 256];
    assert ToBE(n / 256 / 256, 1) == [n / 256 / 256 % 256];
  }

  /** A whole tag takes exactly 11 bytes, its data and 4 more, and they are its encoding. */
  lemma CutTagDecomposes(s: bytes)
    requires CutTag(s).Whole?
    ensures var c := CutTag(s);
            WellFormed(c.tag) && s == TagBytes(c.tag) + c.rest && |s| == 15 + |c.tag.data| + |c.rest|
  {
    var c := CutTag(s);
    var n := |c.tag.data|;
    FromBEBound(s[1..4]);
    WriteBackBytes(s[1..4]);
    PowValues();
    TimestampBytes(s[7], s[4..7]);
    assert s[..11] == [s[0]] + s[1..4] + s[4..7] + [s[7]] + s[8..11];
    assert s == s[..11] + s[11..11 + n] + s[11 + n..15 + n] + s[15 + n..];
  }

  /** A tag is there if its eleven bytes of header, as many as its length field says, and four more are. */
  lemma WholeIff(s: bytes)
    ensures CutTag(s).NoHeader? <==> |s| < 11
    ensures CutTag(s).Whole? <==> |s| >= 15 && |s| >= 15 + s[1] as int * 65536 + s[2] as int * 256 + s[3] as int
  {
    if |s| >= 11 {
      LengthIs(s[1..4]);
    }
  }

  lemma LengthIs(low: bytes)
    requires |low| == 3
    ensures FromBE(low) == low[0] as int * 65536 + low[1] as int * 256 + low[2] as int
  {
    assert FromBE(low) == FromBE(low[..2]) * 256 + low[2];
    assert FromBE(low[..2]) == FromBE(low[..2][..1]) * 256 + low[1];
    assert FromBE(low[..2][..1]) == low[0];
  }

  // ----- What one tag does -----

  datatype AccessUnit = AccessUnit(keyframe: bool, ptsUs: nat, data: bytes)

  /** The demuxer's state: stored parameter sets in start-code form, and the width of length fields. */
  datatype State = State(spsPps: bytes, width: nat)

  const INITIAL := State([], 4)

  predicate Valid(st: State)
  {
    1 <= st.width <= 4
  }

  datatype Effect = Effect(st: State, ok: bool, au: Option<AccessUnit>)

  /** A record replaces the parameter sets when it is complete; its length width is kept even when it is truncated. */
  function ApplyConfig(st: State, rec: bytes): (e: Effect)
  {
    if |rec| < 7 then Effect(st, false, None)
    else
      var width := rec[4] % 4 + 1;
      match ReadConfig(rec)
      case None => Effect(State(st.spsPps, width), false, None)
      case Some(c) => Effect(State(StartCoded(c.sps + c.pps), width), true, None)
  }

  /** A picture becomes an access unit, a key picture with the stored parameter sets in front; nothing becomes none. */
  function ApplyPicture(st: State, key: bool, ptsUs: nat, body: bytes): (e: Effect)
    requires Valid(st)
  {
    var units := ReadUnits(body, st.width);
    if !units.complete then Effect(st, false, None)
    else
      var data := (if key then st.spsPps else []) + StartCoded(NonEmpty(units.nals));
      Effect(st, true, if data == [] then None else Some(AccessUnit(key, ptsUs, data)))
  }

  /** A tag the demuxer passes over: not video, too short, not AVC, or neither configuration nor picture. */
  predicate Ignored(t: Tag)
  {
    t.kind != 9 || |t.data| < 5 || t.data[0] % 16 != 7 || t.data[1] > 1
  }

  function ApplyTag(st: State, t: Tag): (e: Effect)
    requires Valid(st)
    ensures Valid(e.st)
  {
    if Ignored(t) then Effect(st, true, None)
    else if t.data[1] == 0 then ApplyConfig(st, t.data[5..])
    else ApplyPicture(st, t.data[0] / 16 == 1, t.ts * 1000, t.data[5..])
  }

  // ----- Whole streams -----

  datatype Outcome = Got(au: AccessUnit) | OutOfBytes(inBody: bool) | Malformed

  datatype Next = Next(st: State, outcome: Outcome, rest: bytes)

  /** The next access unit of the data, passing over tags that yield none. */
  function NextAu(st: State, s: bytes): (n: Next)
    requires Valid(st)
    ensures Valid(n.st)
    ensures n.outcome.Got? ==> |n.rest| < |s|
    decreases |s|
  {
    match CutTag(s)
    case NoHeader => Next(st, OutOfBytes(false), [])
    case NoBody => Next(st, OutOfBytes(true), [])
    case Whole(tag, rest) =>
      var e := ApplyTag(st, tag);
      if !e.ok then Next(e.st, Malformed, rest)
      else if e.au.Some? then Next(e.st, Got(e.au.value), rest)
      else NextAu(e.st, rest)
  }

  datatype Run = Run(aus: seq<AccessUnit>, end: Outcome)

  /** All access units, until the data runs out or is malformed. */
  function Demux(st: State, s: bytes): (r: Run)
    requires Valid(st)
    ensures !r.end.Got?
    decreases |s|
  {
    var n := NextAu(st, s);
    if n.outcome.Got? then
      var more := Demux(n.st, n.rest);
      Run([n.outcome.au] + more.aus, more.end)
    else Run([], n.outcome)
  }

  datatype Folded = Folded(aus: seq<AccessUnit>, st: State, ok: bool)

  /** The same on a list of tags: each changes the state and may add one access unit. */
  function FoldTags(st: State, tags: seq<Tag>): (f: Folded)
    requires Valid(st)
    ensures Valid(f.st)
    decreases |tags|
  {
    if tags == [] then Folded([], st, true)
    else
      var e := ApplyTag(st, tags[0]);
      if !e.ok then Folded([], e.st, false)
      else
        var more := FoldTags(e.st, tags[1..]);
        Folded((if e.au.Some? then [e.au.value] else []) + more.aus, more.st, more.ok)
  }

  predicate AllWellFormed(tags: seq<Tag>)
  {
    forall i :: 0 <= i < |tags| ==> WellFormed(tags[i])
  }

  function TagsBytes(tags: seq<Tag>): bytes
    requires AllWellFormed(tags)
  {
    if tags == [] then [] else TagBytes(tags[0]) + TagsBytes(tags[1..])
  }

  /** Demuxing across one tag. */
  lemma DemuxOverTag(st: State, t: Tag, rest: bytes)
    requires Valid(st) && WellFormed(t)
    ensures var e := ApplyTag(st, t);
            Demux(st, TagBytes(t) + rest) ==
            if !e.ok then Run([], Malformed)
            else
              var more := Demux(e.st, rest);
              Run((if e.au.Some? then [e.au.value] else []) + more.aus, more.end)
  {
    CutTagInverts(t, rest);
    var e, s := ApplyTag(st, t), TagBytes(t) + rest;
    if e.ok && e.au.None? {
      assert NextAu(st, s) == NextAu(e.st, rest);
      assert [] + Demux(e.st, rest).aus == Demux(e.st, rest).aus;
    }
  }

  /** Demuxing a byte stream is folding over its tags, whatever incomplete tag it ends with. */
  lemma {:induction false} DemuxIsFold(st: State, tags: seq<Tag>, tail: bytes)
    requires Valid(st) && AllWellFormed(tags) && !CutTag(tail).Whole?
    ensures var f := FoldTags(st, tags);
            Demux(st, TagsBytes(tags) + tail) ==
            Run(f.aus, if f.ok then OutOfBytes(CutTag(tail).NoBody?) else Malformed)
    decreases |tags|
  {
    if tags == [] {
      assert TagsBytes(tags) + tail == tail;
    } else {
      var rest := TagsBytes(tags[1..]) + tail;
      assert TagsBytes(tags) + tail == TagBytes(tags[0]) + rest;
      DemuxOverTag(st, tags[0], rest);
      var e := ApplyTag(st, tags[0]);
      if e.ok {
        DemuxIsFold(e.st, tags[1..], tail);
      }
    }
  }

  /** Every byte string is a list of tags and an incomplete one, so the fold describes every run of the demuxer. */
  lemma {:induction false} EveryStreamIsTags(s: bytes) returns (tags: seq<Tag>, tail: bytes)
    ensures AllWellFormed(tags) && !CutTag(tail).Whole? && s == TagsBytes(tags) + tail
    decreases |s|
  {
    if CutTag(s).Whole? {
      CutTagDecomposes(s);
      var c := CutTag(s);
      var more;
      more, tail := EveryStreamIsTags(c.rest);
      tags := [c.tag] + more;
      assert tags[1..] == more;
      assert TagBytes(c.tag) + (TagsBytes(more) + tail) == TagsBytes(tags) + tail;
    } else {
      tags, tail := [], s;
    }
  }

  // ----- Malformed pictures and records -----

  /** A video tag of H.264 with this packet type: 0 for a record, 1 for a picture. */
  predicate IsAvc(t: Tag, packetType: byte)
  {
    WellFormed(t) && t.kind == 9 && |t.data| >= 5 && t.data[0] % 16 == 7 && t.data[1] == packetType
  }

  /** A list of NAL units behind length fields of this width, and a residue shorter than one. */
  ghost predicate IsPictureBody(body: bytes, width: nat)
  {
    exists nals, residue :: FitWidth(nals, width) && |residue| < width && body == LengthPrefixed(nals, width) + residue
  }

  /** The run ends at a picture exactly if its body is no such list. */
  lemma MalformedPictureEnds(st: State, t: Tag, rest: bytes)
    requires Valid(st) && IsAvc(t, 1)
    ensures ApplyTag(st, t).ok <==> IsPictureBody(t.data[5..], st.width)
    ensures !IsPictureBody(t.data[5..], st.width) ==> Demux(st, TagBytes(t) + rest) == Run([], Malformed)
  {
    AcceptedIffLengthPrefixed(t.data[5..], st.width);
    DemuxOverTag(st, t, rest);
  }

  /**
   And at a record exactly if it is shorter than seven bytes, or encodes no
   parameter sets; the stored sets stay, and the width it gives is kept.
   */
  lemma MalformedRecordEnds(st: State, t: Tag, rest: bytes)
    requires Valid(st) && IsAvc(t, 0)
    ensures ApplyTag(st, t).ok <==> |t.data| >= 12 && exists c :: Encodes(t.data[5..], c)
    ensures !ApplyTag(st, t).ok ==>
              ApplyTag(st, t).st == if |t.data| >= 12 then State(st.spsPps, t.data[9] % 4 + 1) else st
    ensures !ApplyTag(st, t).ok ==> Demux(st, TagBytes(t) + rest) == Run([], Malformed)
  {
    var rec := t.data[5..];
    if |rec| >= 7 {
      if ReadConfig(rec).Some? {
        ConfigAcceptedIff(rec, ReadConfig(rec).value);
      }
      forall c | Encodes(rec, c)
        ensures ReadConfig(rec).Some?
      {
        ConfigAcceptedIff(rec, c);
      }
    }
    DemuxOverTag(st, t, rest);
  }

  // ----- Data that arrives in pieces -----

  lemma CutTagExtends(s: bytes, more: bytes)
    requires CutTag(s).Whole?
    ensures CutTag(s + more) == Whole(CutTag(s).tag, CutTag(s).rest + more)
  {
    CutTagDecomposes(s);
    var c := CutTag(s);
    assert s + more == TagBytes(c.tag) + (c.rest + more);
    CutTagInverts(c.tag, c.rest + more);
  }

  /** A result that did not need the end of the data stays the same when more arrives. */
  lemma {:induction false} NextAuExtends(st: State, s: bytes, more: bytes)
    requires Valid(st) && !NextAu(st, s).outcome.OutOfBytes?
    ensures var n := NextAu(st, s);
            NextAu(st, s + more) == Next(n.st, n.outcome, n.rest + more)
    decreases |s|
  {
    CutTagExtends(s, more);
    var e := ApplyTag(st, CutTag(s).tag);
    if e.ok && e.au.None? {
      NextAuExtends(e.st, CutTag(s).rest, more);
    }
  }
}
