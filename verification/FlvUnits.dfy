/**
 The two length-prefixed formats inside an AVC video tag: the NAL units of a
 picture, and the parameter sets of an AVCDecoderConfigurationRecord
 (ISO/IEC 14496-15). For each, the reader of the demuxer, the encoder's side,
 and the proof that the reader accepts exactly what the encoder writes.
 */
module FlvUnits {
  import opened Wrappers
  import opened Bytes
  import opened AnnexB

  // ----- Length-prefixed NAL units -----

  /** NAL units read off a picture body; `complete` says that the body was not cut inside one. */
  datatype Units = Units(nals: seq<Nal>, complete: bool)

  /** The NAL units of a body with length fields of `width` bytes; a residue shorter than a length field is ignored. */
  function ReadUnits(src: bytes, width: nat): Units
    requires 1 <= width <= 4
    decreases |src|
  {
    if |src| < width then Units([], true)
    else
      var n := FromBE(src[..width]);
      var body := src[width..];
      if |body| < n then Units([], false)
      else
        var more := ReadUnits(body[n..], width);
        Units([body[..n]] + more.nals, more.complete)
  }

  /** The encoder's side: every NAL unit preceded by its length. */
  function LengthPrefixed(nals: seq<Nal>, width: nat): bytes
  {
    if nals == [] then [] else ToBE(|nals[0]|, width) + nals[0] + LengthPrefixed(nals[1..], width)
  }

  predicate FitWidth(nals: seq<Nal>, width: nat)
  {
    forall i :: 0 <= i < |nals| ==> |nals[i]| < Pow256(width)
  }

  lemma ReadFirstUnit(nal: Nal, width: nat, tail: bytes)
    requires 1 <= width <= 4 && |nal| < Pow256(width)
    ensures var more := ReadUnits(tail, width);
            ReadUnits(ToBE(|nal|, width) + nal + tail, width) == Units([nal] + more.nals, more.complete)
  {
    var field := ToBE(|nal|, width);
    Pieces(field, nal, tail);
    ReadBackFits(|nal|, width);
  }

  lemma {:induction false} ReadUnitsInverts(nals: seq<Nal>, width: nat, residue: bytes)
    requires 1 <= width <= 4 && FitWidth(nals, width) && |residue| < width
    ensures ReadUnits(LengthPrefixed(nals, width) + residue, width) == Units(nals, true)
  {
    if nals == [] {
      assert LengthPrefixed(nals, width) + residue == residue;
    } else {
      var field, tail := ToBE(|nals[0]|, width), LengthPrefixed(nals[1..], width) + residue;
      assert LengthPrefixed(nals, width) + residue == field + nals[0] + tail;
      ReadFirstUnit(nals[0], width, tail);
      ReadUnitsInverts(nals[1..], width, residue);
    }
  }

  /** One more unit in front of an encoding. */
  lemma PrependUnit(field: bytes, nal: Nal, more: seq<Nal>, width: nat, tail: bytes)
    requires field == ToBE(|nal|, width) && |nal| < Pow256(width) && FitWidth(more, width)
    ensures FitWidth([nal] + more, width)
    ensures field + nal + (LengthPrefixed(more, width) + tail) == LengthPrefixed([nal] + more, width) + tail
  {
    HeadOfConcat([nal], more);
    assert [nal][1..] + more == more;
    Regrouped(field + nal, LengthPrefixed(more, width), tail);
  }

  /** A body read completely is the encoding of what was read, and a residue. */
  lemma {:induction false} ReadUnitsDecomposes(src: bytes, width: nat) returns (residue: bytes)
    requires 1 <= width <= 4 && ReadUnits(src, width).complete
    ensures FitWidth(ReadUnits(src, width).nals, width) && |residue| < width
    ensures src == LengthPrefixed(ReadUnits(src, width).nals, width) + residue
    decreases |src|
  {
    if |src| < width {
      residue := src;
    } else {
      var n := FromBE(src[..width]);
      var body := src[width..];
      FromBEBound(src[..width]);
      WriteBackBytes(src[..width]);
      residue := ReadUnitsDecomposes(body[n..], width);
      Thirds(src, width, width + n);
      assert body[..n] == src[width..width + n] && body[n..] == src[width + n..];
      PrependUnit(src[..width], body[..n], ReadUnits(body[n..], width).nals, width, residue);
    }
  }

  /** A body is accepted exactly when it is the length-prefixed encoding of some list and a short residue. */
  lemma AcceptedIffLengthPrefixed(src: bytes, width: nat)
    requires 1 <= width <= 4
    ensures ReadUnits(src, width).complete <==>
            exists nals, residue ::
              FitWidth(nals, width) && |residue| < width && src == LengthPrefixed(nals, width) + residue
  {
    if ReadUnits(src, width).complete {
      var residue := ReadUnitsDecomposes(src, width);
    }
    forall nals, residue | FitWidth(nals, width) && |residue| < width && src == LengthPrefixed(nals, width) + residue
      ensures ReadUnits(src, width).complete
    {
      ReadUnitsInverts(nals, width, residue);
    }
  }

  lemma UnitGrowth(width: int, k: int)
    requires 1 <= width <= 4 && k >= 1
    ensures (width + 1) * (4 + k) <= 5 * (width + k)
  {
    assert (4 - width) * (k - 1) >= 0;
    assert 5 * (width + k) - (width + 1) * (4 + k) == (4 - width) * (k - 1);
  }

  /** Start codes in place of length fields: the output is at most 5/(width+1) times the encoding. */
  lemma {:induction false} GrowthOfList(nals: seq<Nal>, width: nat)
    requires 1 <= width <= 4
    ensures (width + 1) * |StartCoded(NonEmpty(nals))| <= 5 * |LengthPrefixed(nals, width)|
  {
    if nals != [] {
      var k := |nals[0]|;
      GrowthOfList(nals[1..], width);
      var more := StartCoded(NonEmpty(nals[1..]));
      if k == 0 {
        assert NonEmpty(nals) == NonEmpty(nals[1..]);
      } else {
        assert NonEmpty(nals)[1..] == NonEmpty(nals[1..]);
        assert |StartCoded(NonEmpty(nals))| == 4 + k + |more|;
        UnitGrowth(width, k);
        assert (width + 1) * (4 + k + |more|) == (width + 1) * (4 + k) + (width + 1) * |more|;
      }
    }
  }

  /** Parameter sets, whose length fields are two bytes wide, at most double; empty ones are kept. */
  lemma {:induction false} GrowthOfSets(nals: seq<Nal>)
    ensures |StartCoded(nals)| <= 2 * |LengthPrefixed(nals, 2)|
  {
    if nals != [] {
      GrowthOfSets(nals[1..]);
    }
  }

  lemma GrowthBound(src: bytes, width: nat)
    requires 1 <= width <= 4 && ReadUnits(src, width).complete
    ensures (width + 1) * |StartCoded(NonEmpty(ReadUnits(src, width).nals))| <= 5 * |src|
    ensures width == 4 ==> |StartCoded(NonEmpty(ReadUnits(src, width).nals))| <= |src|
  {
    var residue := ReadUnitsDecomposes(src, width);
    GrowthOfList(ReadUnits(src, width).nals, width);
  }

  function OneByteNals(count: nat, b: byte): seq<Nal>
  {
    if count == 0 then [] else [[b]] + OneByteNals(count - 1, b)
  }

  /** The bound is reached, at any length, by one-byte NAL units. */
  lemma {:induction false} GrowthReached(count: nat, b: byte, width: nat)
    requires 1 <= width <= 4
    ensures var nals := OneByteNals(count, b);
            (width + 1) * |StartCoded(NonEmpty(nals))| == 5 * |LengthPrefixed(nals, width)|
  {
    if count > 0 {
      GrowthReached(count - 1, b, width);
      var fewer := OneByteNals(count - 1, b);
      HeadOfConcat([[b]], fewer);
      HeadOfConcat([[b]], NonEmpty(fewer));
      var k := |StartCoded(NonEmpty(fewer))|;
      assert |StartCoded(NonEmpty(OneByteNals(count, b)))| == 5 + k;
      assert (width + 1) * (5 + k) == 5 * (width + 1) + (width + 1) * k;
    }
  }

  // ----- The decoder configuration record -----

  /** The parameter sets of a configuration record. */
  datatype Config = Config(sps: seq<Nal>, pps: seq<Nal>)

  datatype Taken = Taken(sets: seq<Nal>, rest: bytes)

  /** What was taken, behind what had been taken before. */
  function Behind(done: seq<Nal>, t: Option<Taken>): Option<Taken>
  {
    match t
    case None => None
    case Some(more) => Some(Taken(done + more.sets, more.rest))
  }

  lemma BehindBehind(a: seq<Nal>, b: seq<Nal>, t: Option<Taken>)
    ensures Behind(a + b, t) == Behind(a, Behind(b, t))
    ensures Behind([], t) == t
  {
    if t.Some? {
      Regrouped(a, b, t.value.sets);
      assert [] + t.value.sets == t.value.sets;
    }
  }

  /** `count` parameter sets, each preceded by a two-byte length; None when the data ends too early. */
  function TakeSets(s: bytes, count: nat): Option<Taken>
    decreases count
  {
    if count == 0 then Some(Taken([], s))
    else if |s| < 2 then None
    else
      var n := FromBE(s[..2]);
      if |s| < 2 + n then None
      else
        Behind([s[2..2 + n]], TakeSets(s[2 + n..], count - 1))
  }

  /** The parameter sets of a record of at least seven bytes; None when it is truncated. */
  function ReadConfig(rec: bytes): Option<Config>
    requires |rec| >= 7
  {
    match TakeSets(rec[6..], rec[5] % 32)
    case None => None
    case Some(first) =>
      if first.rest == [] then Some(Config(first.sets, []))
      else
        match TakeSets(first.rest[1..], first.rest[0])
        case None => None
        case Some(second) => Some(Config(first.sets, second.sets))
  }

  /** The same at an offset of the record. */
  lemma TakeAt(rec: bytes, i: nat, count: nat)
    requires i + 2 <= |rec| && count > 0
    ensures var n := FromBE(rec[i..i + 2]);
            TakeSets(rec[i..], count) ==
            if i + 2 + n > |rec| then None
            else Behind([rec[i + 2..i + 2 + n]], TakeSets(rec[i + 2 + n..], count - 1))
  {
    var s, n := rec[i..], FromBE(rec[i..i + 2]);
    assert s[..2] == rec[i..i + 2];
    if i + 2 + n <= |rec| {
      assert s[2..2 + n] == rec[i + 2..i + 2 + n] && s[2 + n..] == rec[i + 2 + n..];
    }
  }

  lemma TakeFirstSet(nal: Nal, tail: bytes, count: nat)
    requires count > 0 && |nal| < Pow256(2)
    ensures TakeSets(ToBE(|nal|, 2) + nal + tail, count) == Behind([nal], TakeSets(tail, count - 1))
  {
    Pieces(ToBE(|nal|, 2), nal, tail);
    ReadBackFits(|nal|, 2);
  }

  lemma {:induction false} TakeSetsInverts(sets: seq<Nal>, tail: bytes)
    requires FitWidth(sets, 2)
    ensures TakeSets(LengthPrefixed(sets, 2) + tail, |sets|) == Some(Taken(sets, tail))
  {
    if sets == [] {
      assert LengthPrefixed(sets, 2) + tail == tail;
    } else {
      var more := LengthPrefixed(sets[1..], 2) + tail;
      assert LengthPrefixed(sets, 2) + tail == ToBE(|sets[0]|, 2) + sets[0] + more;
      TakeFirstSet(sets[0], more, |sets|);
      TakeSetsInverts(sets[1..], tail);
      assert [sets[0]] + sets[1..] == sets;
    }
  }

  lemma {:induction false} TakeSetsDecomposes(s: bytes, count: nat)
    requires TakeSets(s, count).Some?
    ensures var t := TakeSets(s, count).value;
            |t.sets| == count && FitWidth(t.sets, 2) && s == LengthPrefixed(t.sets, 2) + t.rest
    decreases count
  {
    if count > 0 {
      var n := FromBE(s[..2]);
      FromBEBound(s[..2]);
      WriteBackBytes(s[..2]);
      TakeSetsDecomposes(s[2 + n..], count - 1);
      var more := TakeSets(s[2 + n..], count - 1).value;
      Thirds(s, 2, 2 + n);
      PrependUnit(s[..2], s[2..2 + n], more.sets, 2, more.rest);
    }
  }

  /** The bytes of a record: six fixed ones, the SPS list, and the PPS list with its count and whatever follows. */
  function ConfigBytes(head: bytes, sps: seq<Nal>, pps: seq<Nal>, tail: bytes): bytes
    requires |pps| < 256
  {
    head + LengthPrefixed(sps, 2) + [|pps|] + LengthPrefixed(pps, 2) + tail
  }

  lemma ConfigParts(head: bytes, sps: bytes, count: byte, pps: bytes, tail: bytes)
    requires |head| == 6
    ensures var rec, rest := head + sps + [count] + pps + tail, [count] + (pps + tail);
            |rec| >= 7 && rec[6..] == sps + rest && rec[5] == head[5] && rest[0] == count && rest[1..] == pps + tail
  {
  }

  /** Reading inverts writing, for every list the count fields can hold. */
  lemma ConfigRoundTrip(head: bytes, sps: seq<Nal>, pps: seq<Nal>, tail: bytes)
    requires |head| == 6 && head[5] % 32 == |sps| && |pps| < 256
    requires FitWidth(sps, 2) && FitWidth(pps, 2)
    ensures |ConfigBytes(head, sps, pps, tail)| >= 7
    ensures ReadConfig(ConfigBytes(head, sps, pps, tail)) == Some(Config(sps, pps))
  {
    ConfigParts(head, LengthPrefixed(sps, 2), |pps|, LengthPrefixed(pps, 2), tail);
    TakeSetsInverts(sps, [|pps|] + (LengthPrefixed(pps, 2) + tail));
    TakeSetsInverts(pps, tail);
  }

  /** The record holds exactly these parameter sets: both lists, or the SPS list alone when the record ends there. */
  ghost predicate Encodes(rec: bytes, c: Config)
    requires |rec| >= 7
  {
    && FitWidth(c.sps, 2) && FitWidth(c.pps, 2) && |c.sps| == rec[5] % 32
    && (|| (c.pps == [] && rec[6..] == LengthPrefixed(c.sps, 2))
        || (|c.pps| < 256 && exists tail :: rec == ConfigBytes(rec[..6], c.sps, c.pps, tail)))
  }

  lemma ConfigReadIsEncoded(rec: bytes)
    requires |rec| >= 7 && ReadConfig(rec).Some?
    ensures Encodes(rec, ReadConfig(rec).value)
  {
    var c, body := ReadConfig(rec).value, rec[6..];
    TakeSetsDecomposes(body, rec[5] % 32);
    var first := TakeSets(body, rec[5] % 32).value;
    if first.rest == [] {
      assert LengthPrefixed(c.sps, 2) + [] == LengthPrefixed(c.sps, 2);
    } else {
      TakeSetsDecomposes(first.rest[1..], first.rest[0]);
      var tail := TakeSets(first.rest[1..], first.rest[0]).value.rest;
      Reassemble(rec[..6], LengthPrefixed(c.sps, 2), first.rest, LengthPrefixed(c.pps, 2), tail);
      assert rec == rec[..6] + body;
      assert rec == ConfigBytes(rec[..6], c.sps, c.pps, tail);
    }
  }

  lemma Reassemble(head: bytes, sps: bytes, rest: bytes, pps: bytes, tail: bytes)
    requires rest != [] && rest[1..] == pps + tail
    ensures head + (sps + rest) == head + sps + [rest[0]] + pps + tail
  {
    assert rest == [rest[0]] + rest[1..];
  }

  lemma ConfigEncodedIsRead(rec: bytes, c: Config)
    requires |rec| >= 7 && Encodes(rec, c)
    ensures ReadConfig(rec) == Some(c)
  {
    if c.pps == [] && rec[6..] == LengthPrefixed(c.sps, 2) {
      assert rec[6..] == LengthPrefixed(c.sps, 2) + [];
      TakeSetsInverts(c.sps, []);
    } else {
      var tail :| rec == ConfigBytes(rec[..6], c.sps, c.pps, tail);
      ConfigRoundTrip(rec[..6], c.sps, c.pps, tail);
    }
  }

  /** A record is accepted, with given parameter sets, exactly when it encodes them. */
  lemma ConfigAcceptedIff(rec: bytes, c: Config)
    requires |rec| >= 7
    ensures ReadConfig(rec) == Some(c) <==> Encodes(rec, c)
  {
    if ReadConfig(rec) == Some(c) {
      ConfigReadIsEncoded(rec);
    }
    if Encodes(rec, c) {
      ConfigEncodedIsRead(rec, c);
    }
  }
}
