/**
 The byte-stream format of Annex B of ITU-T H.264, and a reader for it that
 follows the detection rule of section B.2: a NAL unit ends where the bytes
 00 00 00 or 00 00 01 come next.
 */
module AnnexB {
  import opened Bytes

  type Nal = bytes

  const START_CODE: bytes := [0, 0, 0, 1]

  /** Every NAL unit preceded by a four-byte start code. */
  function StartCoded(nals: seq<Nal>): bytes
  {
    if nals == [] then [] else START_CODE + nals[0] + StartCoded(nals[1..])
  }

  /** The list without its empty members. */
  function NonEmpty(nals: seq<Nal>): seq<Nal>
  {
    if nals == [] then []
    else (if nals[0] == [] then [] else [nals[0]]) + NonEmpty(nals[1..])
  }

  /** Two zero bytes followed by zero or one begin at `i`. */
  predicate BreakAt(s: bytes, i: nat)
  {
    i + 3 <= |s| && s[i] == 0 && s[i + 1] == 0 && s[i + 2] <= 1
  }

  /** Section 7.4.1 of H.264: no 00 00 00, 00 00 01 or 00 00 02 inside, and no zero byte at the end. */
  predicate Conforming(nal: Nal)
  {
    && (forall i: nat :: i + 3 <= |nal| ==> !(nal[i] == 0 && nal[i + 1] == 0 && nal[i + 2] <= 2))
    && (nal != [] ==> nal[|nal| - 1] != 0)
  }

  predicate AllConforming(nals: seq<Nal>)
  {
    forall i :: 0 <= i < |nals| ==> Conforming(nals[i])
  }

  /** The first break at or after `i`, or the end of the data. */
  function NextBreak(s: bytes, i: nat): (j: nat)
    requires i <= |s|
    ensures i <= j <= |s|
    decreases |s| - i
  {
    if i == |s| || BreakAt(s, i) then i else NextBreak(s, i + 1)
  }

  /** The NAL units of a byte stream, as a client reads them. */
  function SplitStream(s: bytes): seq<Nal>
    decreases |s|
  {
    if |s| < 3 then []
    else if s[0] == 0 && s[1] == 0 && s[2] == 1 then
      var j := NextBreak(s, 3);
      [s[3..j]] + SplitStream(s[j..])
    else SplitStream(s[1..])
  }

  lemma {:induction false} StartCodedConcat(a: seq<Nal>, b: seq<Nal>)
    ensures StartCoded(a + b) == StartCoded(a) + StartCoded(b)
  {
    if a == [] {
      assert a + b == b;
    } else {
      HeadOfConcat(a, b);
      StartCodedConcat(a[1..], b);
      Regrouped(START_CODE + a[0], StartCoded(a[1..]), StartCoded(b));
    }
  }

  lemma {:induction false} NonEmptyConforms(nals: seq<Nal>)
    requires AllConforming(nals)
    ensures AllConforming(NonEmpty(nals))
  {
    if nals != [] {
      NonEmptyConforms(nals[1..]);
    }
  }

  /** Nothing but an empty list has an empty byte stream. */
  lemma StartCodedEmpty(nals: seq<Nal>)
    ensures StartCoded(nals) == [] <==> nals == []
  {
  }

  lemma {:induction false} NextBreakIs(s: bytes, i: nat, j: nat)
    requires i <= j <= |s|
    requires forall k :: i <= k < j ==> !BreakAt(s, k)
    requires j == |s| || BreakAt(s, j)
    ensures NextBreak(s, i) == j
    decreases j - i
  {
    if i < j {
      NextBreakIs(s, i + 1, j);
    }
  }

  lemma {:induction false} NextBreakFirst(s: bytes, i: nat, k: nat)
    requires i <= k < |s| && BreakAt(s, k)
    ensures NextBreak(s, i) <= k
    decreases k - i
  {
    if i < k && !BreakAt(s, i) {
      NextBreakFirst(s, i + 1, k);
    }
  }

  // ----- Exactly which lists survive -----

  predicate NoBreakIn(nal: Nal)
  {
    forall i: nat :: i < |nal| ==> !BreakAt(nal, i)
  }

  predicate EndsInZero(nal: Nal)
  {
    nal != [] && nal[|nal| - 1] == 0
  }

  /** No NAL unit holds a break, and none but the last ends in a zero byte. */
  predicate Splittable(nals: seq<Nal>)
  {
    nals == [] || (NoBreakIn(nals[0]) && (|nals| > 1 ==> !EndsInZero(nals[0])) && Splittable(nals[1..]))
  }

  lemma {:induction false} ConformingIsSplittable(nals: seq<Nal>)
    requires AllConforming(nals)
    ensures Splittable(nals)
  {
    if nals != [] {
      assert Conforming(nals[0]);
      ConformingIsSplittable(nals[1..]);
    }
  }

  /** A NAL unit at `from` in a stream, followed by the start codes of others. */
  predicate Embedded(s: bytes, from: nat, nal: Nal, rest: seq<Nal>)
  {
    from + |nal| <= |s| && s[from..from + |nal|] == nal && s[from + |nal|..] == StartCoded(rest)
  }

  lemma JointIsBreak(s: bytes, from: nat, nal: Nal, rest: seq<Nal>)
    requires Embedded(s, from, nal, rest) && rest != []
    ensures var j := from + |nal|;
            j + 4 <= |s| && s[j] == 0 && s[j + 1] == 0 && s[j + 2] == 0 && BreakAt(s, j)
  {
    var tail := s[from + |nal|..];
    assert tail[..4] == START_CODE;
    assert tail[0] == 0 && tail[1] == 0 && tail[2] == 0;
  }

  /** A break at a byte of the NAL unit lies inside it, or is its last zero byte run on into the next start code. */
  lemma BreakInside(s: bytes, from: nat, nal: Nal, rest: seq<Nal>, k: nat)
    requires Embedded(s, from, nal, rest) && from <= k < from + |nal|
    requires NoBreakIn(nal) && (rest != [] ==> !EndsInZero(nal))
    ensures !BreakAt(s, k)
  {
    var i := k - from;
    assert s[k] == nal[i];
    assert i + 1 < |nal| ==> s[k + 1] == nal[i + 1];
    assert i + 2 < |nal| ==> s[k + 2] == nal[i + 2];
    assert !BreakAt(nal, i);
  }

  /** The reader finds the end of the NAL unit exactly when it holds no break and leads into none. */
  lemma EndFoundIff(s: bytes, from: nat, nal: Nal, rest: seq<Nal>)
    requires Embedded(s, from, nal, rest)
    ensures NextBreak(s, from) == from + |nal| <==> NoBreakIn(nal) && (rest != [] ==> !EndsInZero(nal))
  {
    var j := from + |nal|;
    if rest != [] {
      JointIsBreak(s, from, nal, rest);
    }
    if NoBreakIn(nal) && (rest != [] ==> !EndsInZero(nal)) {
      forall k | from <= k < j
        ensures !BreakAt(s, k)
      {
        BreakInside(s, from, nal, rest, k);
      }
      NextBreakIs(s, from, j);
    } else if !NoBreakIn(nal) {
      var i: nat :| i < |nal| && BreakAt(nal, i);
      assert s[from + i] == nal[i] && s[from + i + 1] == nal[i + 1] && s[from + i + 2] == nal[i + 2];
      NextBreakFirst(s, from, from + i);
    } else {
      assert s[j - 1] == nal[|nal| - 1];
      NextBreakFirst(s, from, j - 1);
    }
  }

  lemma SplitFirst(nal: Nal, rest: seq<Nal>)
    ensures var t := [0, 0, 1] + nal + StartCoded(rest);
            Embedded(t, 3, nal, rest) && SplitStream(StartCoded([nal] + rest)) == SplitStream(t)
  {
    var t := [0, 0, 1] + nal + StartCoded(rest);
    var s := StartCoded([nal] + rest);
    HeadOfConcat([nal], rest);
    assert [nal][1..] + rest == rest;
    assert s[1..] == t;
    assert s[0] == 0 && s[1] == 0 && s[2] == 0;
    assert t[3..3 + |nal|] == nal && t[3 + |nal|..] == StartCoded(rest);
  }

  /**
   A client that splits at start codes gets back the list that was written
   exactly when no NAL unit holds a break and none but the last ends in zero.
   */
  lemma {:induction false} SplitRecoversIff(nals: seq<Nal>)
    ensures SplitStream(StartCoded(nals)) == nals <==> Splittable(nals)
  {
    if nals != [] {
      var nal, rest := nals[0], nals[1..];
      var t := [0, 0, 1] + nal + StartCoded(rest);
      assert nals == [nal] + rest;
      SplitFirst(nal, rest);
      EndFoundIff(t, 3, nal, rest);
      var j := NextBreak(t, 3);
      assert SplitStream(t) == [t[3..j]] + SplitStream(t[j..]);
      if j == 3 + |nal| {
        SplitRecoversIff(rest);
      } else {
        assert |t[3..j]| != |nal|;
      }
    }
  }

  /** In particular, conforming NAL units are recovered. */
  lemma SplitRecoversNals(nals: seq<Nal>)
    requires AllConforming(nals)
    ensures SplitStream(StartCoded(nals)) == nals
  {
    ConformingIsSplittable(nals);
    SplitRecoversIff(nals);
  }

  /** So the byte stream determines the list. */
  lemma StreamDeterminesNals(a: seq<Nal>, b: seq<Nal>)
    requires AllConforming(a) && AllConforming(b)
    requires StartCoded(a) == StartCoded(b)
    ensures a == b
  {
    SplitRecoversNals(a);
    SplitRecoversNals(b);
  }
}
