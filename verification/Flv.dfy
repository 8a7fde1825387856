/** The streaming demuxer of src/flv.rs. */
module Flv {
  import opened Wrappers
  import opened Bytes
  import opened ByteStream
  import opened AnnexB
  import opened FlvUnits
  import opened FlvTags

  /** The NAL units of a picture body, appended to `out` behind start codes. */
  method AvccToAnnexb(body: bytes, width: nat, out0: bytes) returns (ok: bool, out: bytes)
    ensures !(1 <= width <= 4) ==> !ok && out == out0
    ensures 1 <= width <= 4 ==>
              && ok == ReadUnits(body, width).complete
              && out == out0 + StartCoded(NonEmpty(ReadUnits(body, width).nals))
  {
    out := out0;
    if width == 0 || width > 4 {
      return false, out;
    }
    var src := body;
    while |src| >= width
      invariant ReadUnits(src, width).complete == ReadUnits(body, width).complete
      invariant out + StartCoded(NonEmpty(ReadUnits(src, width).nals))
             == out0 + StartCoded(NonEmpty(ReadUnits(body, width).nals))
      decreases |src|
    {
      var len: nat := 0;
      for k := 0 to width
        invariant len == FromBE(src[..k])
      {
        assert src[..k + 1][..k] == src[..k];
        len := len * 256 + src[k];
      }
      ghost var units := ReadUnits(src, width).nals;
      src := src[width..];
      if len == 0 {
        assert units == [[]] + ReadUnits(src, width).nals;
        assert NonEmpty(units) == NonEmpty(ReadUnits(src, width).nals);
        continue;
      }
      if |src| < len {
        return false, out;
      }
      ghost var more := ReadUnits(src[len..], width).nals;
      assert units == [src[..len]] + more;
      FirstOfUnits(src[..len], more);
      Regrouped(out, START_CODE + src[..len], StartCoded(NonEmpty(more)));
      Regrouped(out, START_CODE, src[..len]);
      out := out + START_CODE;
      out := out + src[..len];
      src := src[len..];
    }
    ok := true;
  }

  lemma FirstOfUnits(nal: Nal, more: seq<Nal>)
    requires nal != []
    ensures StartCoded(NonEmpty([nal] + more)) == START_CODE + nal + StartCoded(NonEmpty(more))
  {
    HeadOfConcat([nal], more);
    assert [nal][1..] + more == more;
    assert ([nal] + NonEmpty(more))[1..] == NonEmpty(more);
  }

  /** What `read_tag` reports: an error, the end, a tag without an access unit, or an access unit. */
  datatype TagRead = Bad | End | Skipped | Unit(au: AccessUnit)

  class FlvH264 {
    var spsPps: bytes
    var naluSizeLen: nat

    constructor ()
      ensures Contents() == INITIAL
    {
      spsPps, naluSizeLen := [], 4;
    }

    ghost predicate Valid()
      reads this
    {
      1 <= naluSizeLen <= 4
    }

    ghost function Contents(): State
      reads this
    {
      State(spsPps, naluSizeLen)
    }

    method ParseAvcc(rec: bytes) returns (ok: bool)
      modifies this
      ensures ok == ApplyConfig(old(Contents()), rec).ok
      ensures Contents() == ApplyConfig(old(Contents()), rec).st
    {
      if |rec| < 7 {
        return false;
      }
      naluSizeLen := rec[4] % 4 + 1;
      var i: nat := 5;
      var numSps := rec[i] % 32;
      i := i + 1;
      var got, out, next := TakeSetsFrom(rec, i, numSps, []);
      if !got {
        return false;
      }
      i := next;
      assert out == StartCoded(TakeSets(rec[6..], numSps).value.sets);
      ConfigStages(old(Contents()), rec, i);
      if i >= |rec| {
        spsPps := out;
        return true;
      }
      var numPps := rec[i];
      i := i + 1;
      got, out, next := TakeSetsFrom(rec, i, numPps, out);
      if !got {
        return false;
      }
      spsPps := out;
      return true;
    }

    /** What is decided once the SPS list has been read, up to `i`. */
    static lemma ConfigStages(st: State, rec: bytes, i: nat)
      requires |rec| >= 7 && i <= |rec|
      requires TakeSets(rec[6..], rec[5] % 32).Some?
      requires rec[i..] == TakeSets(rec[6..], rec[5] % 32).value.rest
      ensures var sps, width := TakeSets(rec[6..], rec[5] % 32).value.sets, rec[4] % 4 + 1;
              ApplyConfig(st, rec) ==
              if i == |rec| then Effect(State(StartCoded(sps), width), true, None)
              else
                match TakeSets(rec[i + 1..], rec[i])
                case None => Effect(State(st.spsPps, width), false, None)
                case Some(second) => Effect(State(StartCoded(sps) + StartCoded(second.sets), width), true, None)
    {
      var first := TakeSets(rec[6..], rec[5] % 32).value;
      if i == |rec| {
        assert first.sets + [] == first.sets;
      } else {
        assert first.rest[0] == rec[i] && first.rest[1..] == rec[i + 1..];
        var second := TakeSets(rec[i + 1..], rec[i]);
        if second.Some? {
          StartCodedConcat(first.sets, second.value.sets);
        }
      }
    }

    /** The loop that the SPS and the PPS lists share. */
    static method TakeSetsFrom(rec: bytes, from: nat, count: nat, out0: bytes) returns (ok: bool, out: bytes, next: nat)
      requires from <= |rec|
      ensures ok == TakeSets(rec[from..], count).Some?
      ensures ok ==> next <= |rec| && rec[next..] == TakeSets(rec[from..], count).value.rest
      ensures ok ==> out == out0 + StartCoded(TakeSets(rec[from..], count).value.sets)
    {
      var i: nat := from;
      out := out0;
      ghost var done: seq<Nal> := [];
      BehindBehind([], done, TakeSets(rec[from..], count));
      for k := 0 to count
        invariant i <= |rec|
        invariant out == out0 + StartCoded(done)
        invariant TakeSets(rec[from..], count) == Behind(done, TakeSets(rec[i..], count - k))
      {
        if i + 2 > |rec| {
          return false, out, i;
        }
        TakeAt(rec, i, count - k);
        var n := FromBE(rec[i..i + 2]);
        i := i + 2;
        if i + n > |rec| {
          return false, out, i;
        }
        AppendOne(done, rec[i..i + n]);
        BehindBehind(done, [rec[i..i + n]], TakeSets(rec[i + n..], count - k - 1));
        out := out + START_CODE;
        out := out + rec[i..i + n];
        done := done + [rec[i..i + n]];
        i := i + n;
      }
      assert done + [] == done;
      return true, out, i;
    }

    static lemma AppendOne(done: seq<Nal>, nal: Nal)
      ensures StartCoded(done + [nal]) == StartCoded(done) + START_CODE + nal
    {
      StartCodedConcat(done, [nal]);
      assert StartCoded([nal]) == START_CODE + nal;
    }

    method ReadTag(r: ByteReader) returns (res: TagRead)
      requires Valid()
      modifies this, r
      ensures Valid()
      ensures match CutTag(old(r.data))
              case NoHeader =>
                Contents() == old(Contents()) && r.data == [] && res == if r.faulty then Bad else End
              case NoBody =>
                Contents() == old(Contents()) && r.data == [] && res == Bad
              case Whole(tag, rest) =>
                var e := ApplyTag(old(Contents()), tag);
                && Contents() == e.st && r.data == rest
                && res == if !e.ok then Bad else if e.au.Some? then Unit(e.au.value) else Skipped
    {
      var hdr := r.ReadExact(11);
      match hdr {
        case UnexpectedEof => return End;
        case Fault => return Bad;
        case Data(_) =>
      }
      ghost var s := old(r.data);
      assert hdr.bytes[1..4] == s[1..4] && hdr.bytes[4..7] == s[4..7];
      var tagType := hdr.bytes[0];
      var dataSize := FromBE(hdr.bytes[1..4]);
      var ts := FromBE([hdr.bytes[7]] + hdr.bytes[4..7]);
      var body := r.ReadExact(dataSize);
      if !body.Data? {
        return Bad;
      }
      var prev := r.ReadExact(4);
      if !prev.Data? {
        return Bad;
      }
      var data := body.bytes;
      assert CutTag(s) == Whole(Tag(tagType, ts, s[8..11], data, prev.bytes), r.data);
      res := HandleTag(CutTag(s).tag, tagType, ts, data);
    }

    /** The part of `read_tag` that follows the reading. */
    method HandleTag(ghost tag: Tag, tagType: byte, ts: nat, data: bytes) returns (res: TagRead)
      requires Valid()
      requires tag.kind == tagType && tag.ts == ts && tag.data == data
      modifies this
      ensures Valid()
      ensures var e := ApplyTag(old(Contents()), tag);
              && Contents() == e.st
              && res == if !e.ok then Bad else if e.au.Some? then Unit(e.au.value) else Skipped
    {
      if tagType != 9 {
        return Skipped;
      }
      if |data| < 5 {
        return Skipped;
      }
      var codec := data[0] % 16;
      var frameType := data[0] / 16;
      if codec != 7 {
        return Skipped;
      }
      var packetType := data[1];
      var ptsUs := ts * 1000;
      if packetType == 0 {
        var ok := ParseAvcc(data[5..]);
        return if ok then Skipped else Bad;
      } else if packetType == 1 {
        var annexb := [];
        var isKey := frameType == 1;
        if isKey && spsPps != [] {
          annexb := annexb + spsPps;
        }
        assert annexb == if isKey then spsPps else [];
        var ok;
        ok, annexb := AvccToAnnexb(data[5..], naluSizeLen, annexb);
        if !ok {
          return Bad;
        }
        if annexb == [] {
          return Skipped;
        }
        return Unit(AccessUnit(isKey, ptsUs, annexb));
      } else {
        return Skipped;
      }
    }

    /** One access unit from the stream, None at its end. */
    method NextUnit(r: ByteReader) returns (ok: bool, au: Option<AccessUnit>)
      requires Valid()
      modifies this, r
      ensures Valid()
      ensures var n := NextAu(old(Contents()), old(r.data));
              && Contents() == n.st && r.data == n.rest
              && match n.outcome
                 case Got(a) => ok && au == Some(a)
                 case OutOfBytes(inBody) => ok == (!inBody && !r.faulty) && au == None
                 case Malformed => !ok && au == None
    {
      while true
        invariant Valid()
        invariant NextAu(Contents(), r.data) == NextAu(old(Contents()), old(r.data))
        decreases |r.data|
      {
        ghost var s := r.data;
        var res := ReadTag(r);
        match res {
          case Bad => return false, None;
          case End => return true, None;
          case Unit(a) => return true, Some(a);
          case Skipped =>
            assert CutTag(s).Whole?;
            CutTagDecomposes(s);
        }
      }
    }
  }

  /** Reads the 13 bytes before the first tag. */
  method SkipFlvHeader(r: ByteReader) returns (ok: bool)
    modifies r
    ensures ok <==> GoodHeader(old(r.data))
    ensures ok ==> r.data == old(r.data)[13..]
  {
    var hdr := r.ReadExact(13);
    if !hdr.Data? {
      return false;
    }
    assert hdr.bytes[0..3] == old(r.data)[..3];
    return hdr.bytes[0..3] == SIGNATURE;
  }
}
