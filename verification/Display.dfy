/**
 Sizes, modes, scales and the saved display of src/display.rs. The original
 computes with 32-bit floats. Sizes here follow from what such a computation
 guarantees: each scaled side is off by less than one pixel, and exact when
 nothing is scaled.
 */
module Display {
  import opened Wrappers

  // ----- The encoder's size -----

  datatype Size = Size(w: nat, h: nat)

  function MaxNat(a: nat, b: nat): nat
  {
    if a < b then b else a
  }

  function MinReal(a: real, b: real): real
  {
    if b < a then b else a
  }

  /** The number with its lowest bit cleared. */
  function Even(n: nat): nat
  {
    n - n % 2
  }

  /** The factor that fits a size into a limit without enlarging it. */
  function FitFactor(s: Size, max: Size): real
    requires s.w > 0 && s.h > 0
  {
    MinReal(MinReal(max.w as real / s.w as real, max.h as real / s.h as real), 1.0)
  }

  function AtLeastTwo(s: Size): (t: Size)
    ensures t.w >= 2 && t.h >= 2
  {
    Size(MaxNat(s.w, 2), MaxNat(s.h, 2))
  }

  /** `x` is what a machine may compute for `n` times `k`, with an error of at most `err`. */
  predicate Computed(x: real, n: nat, k: real, err: real)
  {
    && 0.0 <= err < 1.0
    && n as real * k - err <= x <= n as real * k + err
    && (k == 1.0 ==> x == n as real)
  }

  /** `x` and `y` are what it may compute for the sides of `s`, fitted into `max`. */
  predicate Scaled(x: real, y: real, s: Size, max: Size, err: real)
  {
    var t := AtLeastTwo(s);
    Computed(x, t.w, FitFactor(t, max), err) && Computed(y, t.h, FitFactor(t, max), err)
  }

  /** A computed side cut to an integer and made even. */
  function CutEven(x: real): nat
  {
    Even(if x.Floor < 0 then 0 else x.Floor)
  }

  const MIN_SIZE := Size(640, 360)
  const MAX_SIZE := Size(1280, 800)

  /** The fitted size, from the two computed sides, before and after the lower limits apply. */
  function Fitted(x: real, y: real): Size
  {
    Size(CutEven(x), CutEven(y))
  }

  function FitEven(x: real, y: real): Size
  {
    Size(MaxNat(CutEven(x), MIN_SIZE.w), MaxNat(CutEven(y), MIN_SIZE.h))
  }

  /** `encode_size`: the size of the desktop, of at least 640x400, fitted. */
  predicate EncodeSize(x: real, y: real, desktop: Size, err: real, e: Size)
  {
    Scaled(x, y, Size(MaxNat(desktop.w, 640), MaxNat(desktop.h, 400)), MAX_SIZE, err) && e == FitEven(x, y)
  }

  /** What the recorder's command line makes of a size. */
  function RecorderSize(s: Size): Size
  {
    Size(Even(MaxNat(s.w, 2)), Even(MaxNat(s.h, 2)))
  }

  /** It makes each side even, and at least two, taking off at most one. */
  lemma RecorderSizeIs(s: Size)
    ensures var r := RecorderSize(s);
            && r.w % 2 == 0 && r.h % 2 == 0 && r.w >= 2 && r.h >= 2
            && (s.w >= 2 ==> s.w - 1 <= r.w <= s.w) && (s.h >= 2 ==> s.h - 1 <= r.h <= s.h)
            && (s.w < 2 ==> r.w == 2) && (s.h < 2 ==> r.h == 2)
  {
  }

  lemma AtLeastOne(n: nat, limit: nat)
    requires n > 0
    ensures limit as real / n as real >= 1.0 <==> n <= limit
  {
    var q := limit as real / n as real;
    assert q * n as real == limit as real;
    assert q >= 1.0 ==> q * n as real >= n as real;
    assert q < 1.0 ==> q * n as real < n as real;
  }

  lemma TimesQuotient(n: nat, limit: nat, factor: real)
    requires n > 0 && 0.0 <= factor <= limit as real / n as real
    ensures 0.0 <= n as real * factor <= limit as real
  {
    var q := limit as real / n as real;
    assert q * n as real == limit as real;
    assert n as real * factor <= n as real * q;
  }

  lemma QuotientRange(n: nat, limit: nat)
    requires n > 0
    ensures limit as real / n as real >= 0.0
  {
  }

  lemma FactorRange(s: Size, max: Size)
    requires s.w > 0 && s.h > 0
    ensures 0.0 <= FitFactor(s, max) <= max.w as real / s.w as real
    ensures FitFactor(s, max) <= max.h as real / s.h as real
  {
    QuotientRange(s.w, max.w);
    QuotientRange(s.h, max.h);
  }

  lemma FactorBounds(s: Size, max: Size)
    requires s.w > 0 && s.h > 0
    ensures var f := FitFactor(s, max);
            0.0 <= s.w as real * f <= max.w as real && 0.0 <= s.h as real * f <= max.h as real
  {
    FactorRange(s, max);
    TimesQuotient(s.w, max.w, FitFactor(s, max));
    TimesQuotient(s.h, max.h, FitFactor(s, max));
  }

  /** Exact arithmetic is one of the computations meant, with no error. */
  lemma ExactIsComputed(s: Size, max: Size)
    ensures var t := AtLeastTwo(s); var k := FitFactor(t, max);
            Scaled(t.w as real * k, t.h as real * k, s, max, 0.0)
  {
  }

  /** A cut side is even, loses less than two, and is at most `limit` if the exact value is. */
  lemma CutBounds(x: real, exact: real, limit: nat, err: real)
    requires 0.0 <= exact <= limit as real && 0.0 <= err < 1.0 && exact - err <= x <= exact + err
    ensures CutEven(x) % 2 == 0 && CutEven(x) <= limit
    ensures exact - err - 2.0 < CutEven(x) as real <= exact + err
  {
  }

  /** What is known of both computed sides: they are near exact values inside the limit, which keep the aspect ratio. */
  predicate NearExact(x: real, y: real, t: Size, max: Size, err: real, ew: real, eh: real)
  {
    && 0.0 <= err < 1.0
    && 0.0 <= ew <= max.w as real && ew - err <= x <= ew + err
    && 0.0 <= eh <= max.h as real && eh - err <= y <= eh + err
    && ew * t.h as real == eh * t.w as real
  }

  lemma ExactSides(x: real, y: real, s: Size, max: Size, err: real) returns (ew: real, eh: real)
    requires Scaled(x, y, s, max, err)
    ensures NearExact(x, y, AtLeastTwo(s), max, err, ew, eh)
  {
    var t := AtLeastTwo(s);
    FactorBounds(t, max);
    ew, eh := SidesTimes(x, y, t, max, FitFactor(t, max), err);
  }

  lemma SidesTimes(x: real, y: real, t: Size, max: Size, k: real, err: real) returns (ew: real, eh: real)
    requires Computed(x, t.w, k, err) && Computed(y, t.h, k, err)
    requires 0.0 <= t.w as real * k <= max.w as real && 0.0 <= t.h as real * k <= max.h as real
    ensures NearExact(x, y, t, max, err, ew, eh)
  {
    ew, eh := t.w as real * k, t.h as real * k;
    SwapFactors(t.w as real, t.h as real, k);
  }

  lemma SwapFactors(a: real, b: real, k: real)
    ensures a * k * b == b * k * a
  {
  }

  lemma FittedInside(x: real, y: real, s: Size, max: Size, err: real)
    requires Scaled(x, y, s, max, err)
    ensures var f := Fitted(x, y);
            f.w % 2 == 0 && f.w <= max.w && f.h % 2 == 0 && f.h <= max.h
  {
    var ew, eh := ExactSides(x, y, s, max, err);
    CutBounds(x, ew, max.w, err);
    CutBounds(y, eh, max.h, err);
  }

  /** A size that fits already is only made even, by any such computation. */
  lemma FittingSizeStays(x: real, y: real, s: Size, max: Size, err: real)
    requires 2 <= s.w <= max.w && 2 <= s.h <= max.h && Scaled(x, y, s, max, err)
    ensures Fitted(x, y) == Size(Even(s.w), Even(s.h))
  {
    AtLeastOne(s.w, max.w);
    AtLeastOne(s.h, max.h);
    assert FitFactor(s, max) == 1.0;
  }

  /**
   For every size, and by every such computation, the fitted size is even in
   both directions and lies between 640x360 and 1280x800; the recorder is
   started with just that size.
   */
  lemma FitEvenIsUsable(x: real, y: real, s: Size, err: real)
    requires Scaled(x, y, s, MAX_SIZE, err)
    ensures var e := FitEven(x, y);
            && e.w % 2 == 0 && e.h % 2 == 0 && 640 <= e.w <= 1280 && 360 <= e.h <= 800
            && RecorderSize(e) == e
  {
    FittedInside(x, y, s, MAX_SIZE, err);
  }

  /** A streamed size is usable, and streaming a desktop of at least that height again gives the same size. */
  lemma EncodeSizeIsUsable(x: real, y: real, desktop: Size, err: real, e: Size)
    requires EncodeSize(x, y, desktop, err, e)
    ensures e.w % 2 == 0 && e.h % 2 == 0 && 640 <= e.w <= 1280 && 360 <= e.h <= 800 && RecorderSize(e) == e
    ensures forall x2, y2, err2, e2 :: e.h >= 400 && EncodeSize(x2, y2, e, err2, e2) ==> e2 == e
  {
    var s := Size(MaxNat(desktop.w, 640), MaxNat(desktop.h, 400));
    FitEvenIsUsable(x, y, s, err);
    forall x2, y2, err2, e2 | e.h >= 400 && EncodeSize(x2, y2, e, err2, e2)
      ensures e2 == e
    {
      FitEvenAgain(x2, y2, e, err2);
    }
  }

  /** Fitting a usable size again does not change it. */
  lemma FitEvenAgain(x: real, y: real, e: Size, err: real)
    requires e.w % 2 == 0 && e.h % 2 == 0 && 640 <= e.w <= 1280 && 360 <= e.h <= 800
    requires Scaled(x, y, e, MAX_SIZE, err)
    ensures FitEven(x, y) == e
  {
    FittingSizeStays(x, y, e, MAX_SIZE, err);
  }

  lemma ScaleInequality(x: real, y: real, z: real)
    requires z > 0.0
    ensures x <= y ==> x * z <= y * z
    ensures x < y ==> x * z < y * z
  {
  }

  lemma RealAspect(a: real, b: real, ea: real, eb: real, c: real, d: real, err: real)
    requires a > 0.0 && b > 0.0 && ea * b == eb * a && c <= ea + err && eb - err - 2.0 < d
    ensures c * b - d * a < err * b + (2.0 + err) * a
  {
    ScaleInequality(c, ea + err, b);
    ScaleInequality(eb - err - 2.0, d, a);
    Distribute(ea, err, b);
    Distribute(eb, -(2.0 + err), a);
    assert eb - err - 2.0 == eb + -(2.0 + err);
  }

  lemma Distribute(x: real, y: real, z: real)
    ensures (x + y) * z == x * z + y * z
  {
  }

  /** The first side exceeds its share of the ratio by no more than the error above and what the second side may lose. */
  predicate DriftBelow(c: nat, d: nat, a: nat, b: nat, err: real)
  {
    c as real * b as real - d as real * a as real < err * b as real + (2.0 + err) * a as real
  }

  /** Both sides keep the aspect ratio. */
  predicate AspectWithin(f: Size, s: Size, err: real)
  {
    DriftBelow(f.w, f.h, s.w, s.h, err) && DriftBelow(f.h, f.w, s.h, s.w, err)
  }

  /**
   Fitting keeps the aspect ratio up to the two pixels a side may lose, and the
   error of the computation; in exact arithmetic the error is zero.
   */
  lemma FittedAspect(x: real, y: real, s: Size, max: Size, err: real)
    requires s.w >= 2 && s.h >= 2 && Scaled(x, y, s, max, err)
    ensures AspectWithin(Fitted(x, y), s, err)
  {
    var ew, eh := ExactSides(x, y, s, max, err);
    NearAspect(x, y, s, max, err, ew, eh);
  }

  lemma NearAspect(x: real, y: real, s: Size, max: Size, err: real, ew: real, eh: real)
    requires s.w >= 2 && s.h >= 2 && NearExact(x, y, s, max, err, ew, eh)
    ensures AspectWithin(Fitted(x, y), s, err)
  {
    SideAspect(x, y, s.w, s.h, ew, eh, max.w, max.h, err);
    SideAspect(y, x, s.h, s.w, eh, ew, max.h, max.w, err);
  }

  lemma SideAspect(x: real, y: real, a: nat, b: nat, ea: real, eb: real, la: nat, lb: nat, err: real)
    requires a > 0 && b > 0 && 0.0 <= err < 1.0 && ea * b as real == eb * a as real
    requires 0.0 <= ea <= la as real && ea - err <= x <= ea + err
    requires 0.0 <= eb <= lb as real && eb - err <= y <= eb + err
    ensures DriftBelow(CutEven(x), CutEven(y), a, b, err)
  {
    BothCut(x, y, ea, eb, la, lb, err);
    RealAspect(a as real, b as real, ea, eb, CutEven(x) as real, CutEven(y) as real, err);
  }

  lemma BothCut(x: real, y: real, ea: real, eb: real, la: nat, lb: nat, err: real)
    requires 0.0 <= err < 1.0
    requires 0.0 <= ea <= la as real && ea - err <= x <= ea + err
    requires 0.0 <= eb <= lb as real && eb - err <= y <= eb + err
    ensures CutEven(x) as real <= ea + err && eb - err - 2.0 < CutEven(y) as real
  {
    CutBounds(x, ea, la, err);
    CutBounds(y, eb, lb, err);
  }

  /** A desktop that does not fit fills an even limit in one direction, up to two pixels; exactly without an error. */
  lemma FittedFillsLimit(x: real, y: real, s: Size, max: Size, err: real)
    requires s.w >= 2 && s.h >= 2 && (s.w > max.w || s.h > max.h) && Scaled(x, y, s, max, err)
    requires max.w % 2 == 0 && max.h % 2 == 0
    ensures Fitted(x, y).w + 2 >= max.w || Fitted(x, y).h + 2 >= max.h
    ensures err == 0.0 ==> Fitted(x, y).w == max.w || Fitted(x, y).h == max.h
  {
    AtLeastOne(s.w, max.w);
    AtLeastOne(s.h, max.h);
    var sx, sy := max.w as real / s.w as real, max.h as real / s.h as real;
    assert FitFactor(s, max) == sx || FitFactor(s, max) == sy;
    if FitFactor(s, max) == sx {
      FillsSide(x, s.w, max.w, sx, err);
    } else {
      FillsSide(y, s.h, max.h, sy, err);
    }
  }

  lemma FillsSide(x: real, n: nat, limit: nat, q: real, err: real)
    requires n > 0 && limit % 2 == 0 && q == limit as real / n as real && Computed(x, n, q, err)
    ensures CutEven(x) + 2 >= limit && (err == 0.0 ==> CutEven(x) == limit)
  {
    assert n as real * q == limit as real;
    CutNear(x, limit, err);
  }

  lemma CutNear(x: real, limit: nat, err: real)
    requires limit % 2 == 0 && 0.0 <= err < 1.0 && limit as real - err <= x <= limit as real + err
    ensures CutEven(x) + 2 >= limit && (err == 0.0 ==> CutEven(x) == limit)
  {
  }

  /** A desktop that fits, once at least 640x400, is encoded at that size made even. */
  lemma FittingDesktop(x: real, y: real, desktop: Size, err: real, e: Size)
    requires EncodeSize(x, y, desktop, err, e) && desktop.w <= 1280 && desktop.h <= 800
    ensures e.w == (if desktop.w < 640 then 640 else desktop.w - desktop.w % 2)
    ensures e.h == (if desktop.h < 400 then 400 else desktop.h - desktop.h % 2)
  {
    FittingSizeStays(x, y, Size(MaxNat(desktop.w, 640), MaxNat(desktop.h, 400)), MAX_SIZE, err);
  }

  /** A larger one comes within two pixels of 1280 or of 800, and meets one of them if there is no error. */
  lemma LargeDesktop(x: real, y: real, desktop: Size, err: real, e: Size)
    requires EncodeSize(x, y, desktop, err, e) && (desktop.w > 1280 || desktop.h > 800)
    ensures e.w + 2 >= 1280 || e.h + 2 >= 800
    ensures err == 0.0 ==> e.w == 1280 || e.h == 800
  {
    var s := Size(MaxNat(desktop.w, 640), MaxNat(desktop.h, 400));
    FittedFillsLimit(x, y, s, MAX_SIZE, err);
    FittedInside(x, y, s, MAX_SIZE, err);
  }

  /**
   Every desktop of at least 640x400 keeps its aspect ratio, up to two pixels a
   side and the error, before a side that came out below 640 or 360 is raised
   to that.
   */
  lemma EncodedAspect(x: real, y: real, desktop: Size, err: real, e: Size) returns (f: Size)
    requires EncodeSize(x, y, desktop, err, e) && desktop.w >= 640 && desktop.h >= 400
    ensures AspectWithin(f, desktop, err)
    ensures e.w == (if f.w < 640 then 640 else f.w) && e.h == (if f.h < 360 then 360 else f.h)
    ensures e.w > 640 && e.h > 360 ==> AspectWithin(e, desktop, err)
  {
    f := Fitted(x, y);
    assert Size(MaxNat(desktop.w, 640), MaxNat(desktop.h, 400)) == desktop;
    FittedAspect(x, y, desktop, MAX_SIZE, err);
  }

  /** For example, in exact arithmetic 1920x1200 is encoded at 1280x800. */
  lemma EncodedExample(x: real, y: real, e: Size)
    requires EncodeSize(x, y, Size(1920, 1200), 0.0, e)
    ensures e == Size(1280, 800)
  {
    var k := FitFactor(Size(1920, 1200), MAX_SIZE);
    assert 1920.0 * k == 1280.0 && 1200.0 * k == 800.0;
  }

  // ----- The search for a mode and a scale -----

  datatype Mode = Mode(w: nat, h: nat, hz: real, name: string)

  const SCALES: seq<real> := [1.0, 1.25, 1.5, 1.75, 2.0, 2.25, 2.5, 3.0]

  function Abs(x: real): real
  {
    if x < 0.0 then -x else x
  }

  /** How far a mode at a scale is from the size wanted, and a little for a low refresh rate. */
  function Score(m: Mode, scale: real, targetW: real, targetH: real): real
    requires scale > 0.0
  {
    Abs(m.w as real / scale - targetW) + Abs(m.h as real / scale - targetH) + (120.0 - m.hz) * 0.01
  }

  datatype Choice = Choice(mode: nat, scale: nat, score: real)

  function ScoreAt(score: (Mode, real) -> real, modes: seq<Mode>, i: nat, j: nat): real
    requires i < |modes| && j < |SCALES|
  {
    score(modes[i], SCALES[j])
  }

  /** Mode `i` at scale `j` is looked at before mode `i2` at scale `j2`. */
  predicate Earlier(i: nat, j: nat, i2: nat, j2: nat)
  {
    i < i2 || (i == i2 && j < j2)
  }

  /** Of what is looked at before `(i, j)`, the choice is the earliest with the least score. */
  ghost predicate BestBefore(best: Option<Choice>, modes: seq<Mode>, i: nat, j: nat, score: (Mode, real) -> real)
  {
    match best
    case None => i == 0 && j == 0
    case Some(c) =>
      && c.mode < |modes| && c.scale < |SCALES| && Earlier(c.mode, c.scale, i, j)
      && c.score == ScoreAt(score, modes, c.mode, c.scale)
      && forall i2: nat, j2: nat :: i2 < |modes| && j2 < |SCALES| && Earlier(i2, j2, i, j) ==>
           && c.score <= ScoreAt(score, modes, i2, j2)
           && (Earlier(i2, j2, c.mode, c.scale) ==> c.score < ScoreAt(score, modes, i2, j2))
  }

  /**
   The earliest mode and scale with the least score; none only if there is no
   mode. `score` is the score as the machine computes it.
   */
  method BestMode(modes: seq<Mode>, score: (Mode, real) -> real) returns (best: Option<Choice>)
    ensures best == None <==> modes == []
    ensures best.Some? ==>
              && best.value.mode < |modes| && best.value.scale < |SCALES|
              && best.value.score == ScoreAt(score, modes, best.value.mode, best.value.scale)
              && forall i: nat, j: nat :: i < |modes| && j < |SCALES| ==>
                   && best.value.score <= ScoreAt(score, modes, i, j)
                   && (Earlier(i, j, best.value.mode, best.value.scale) ==>
                         best.value.score < ScoreAt(score, modes, i, j))
  {
    best := None;
    for i := 0 to |modes|
      invariant BestBefore(best, modes, i, 0, score)
    {
      for j := 0 to |SCALES|
        invariant BestBefore(best, modes, i, j, score)
      {
        var s := ScoreAt(score, modes, i, j);
        var better := best.None? || s < best.value.score;
        if better {
          best := Some(Choice(i, j, s));
        }
      }
    }
  }

  /** The score of mode `i` at scale `j`, in exact arithmetic. */
  function TargetScore(modes: seq<Mode>, i: nat, j: nat, targetW: real, targetH: real): real
    requires i < |modes| && j < |SCALES|
  {
    assert SCALES[j] > 0.0;
    Score(modes[i], SCALES[j], targetW, targetH)
  }

  /** How far the logical size of mode `i` at scale `j` is from the size wanted, in both directions together. */
  function Distance(modes: seq<Mode>, i: nat, j: nat, targetW: real, targetH: real): real
    requires i < |modes| && j < |SCALES|
  {
    assert SCALES[j] > 0.0;
    var dw, dh := modes[i].w as real / SCALES[j] - targetW, modes[i].h as real / SCALES[j] - targetH;
    (if dw < 0.0 then -dw else dw) + (if dh < 0.0 then -dh else dh)
  }

  /** Mode `i` at scale `j` has just the logical size wanted. */
  predicate Exact(modes: seq<Mode>, i: nat, j: nat, targetW: real, targetH: real)
    requires i < |modes| && j < |SCALES|
  {
    modes[i].w as real == targetW * SCALES[j] && modes[i].h as real == targetH * SCALES[j]
  }

  lemma QuotientIs(n: real, scale: real, t: real)
    requires scale > 0.0
    ensures n / scale == t <==> n == t * scale
  {
    var q := n / scale;
    assert q * scale == n;
    assert q != t ==> q * scale != t * scale;
  }

  lemma ExactIff(modes: seq<Mode>, i: nat, j: nat, targetW: real, targetH: real)
    requires i < |modes| && j < |SCALES|
    ensures Distance(modes, i, j, targetW, targetH) >= 0.0
    ensures Exact(modes, i, j, targetW, targetH) <==> Distance(modes, i, j, targetW, targetH) == 0.0
  {
    assert SCALES[j] > 0.0;
    QuotientIs(modes[i].w as real, SCALES[j], targetW);
    QuotientIs(modes[i].h as real, SCALES[j], targetH);
  }

  /** The score is the distance, and a hundredth for each hertz below 120. */
  lemma ScoreIs(modes: seq<Mode>, i: nat, j: nat, targetW: real, targetH: real)
    requires i < |modes| && j < |SCALES|
    ensures TargetScore(modes, i, j, targetW, targetH)
         == Distance(modes, i, j, targetW, targetH) + (120.0 - modes[i].hz) * 0.01
  {
  }

  /** Mode `i` at scale `j` is nearer than another, if not by more than a hundredth for each hertz that it is slower. */
  predicate NoFarther(modes: seq<Mode>, i: nat, j: nat, i2: nat, j2: nat, targetW: real, targetH: real)
    requires i < |modes| && j < |SCALES| && i2 < |modes| && j2 < |SCALES|
  {
    Distance(modes, i, j, targetW, targetH)
    <= Distance(modes, i2, j2, targetW, targetH) + (modes[i].hz - modes[i2].hz) * 0.01
  }

  lemma LeastIsNearest(modes: seq<Mode>, i: nat, j: nat, i2: nat, j2: nat, targetW: real, targetH: real)
    requires i < |modes| && j < |SCALES| && i2 < |modes| && j2 < |SCALES|
    requires TargetScore(modes, i, j, targetW, targetH) <= TargetScore(modes, i2, j2, targetW, targetH)
    ensures NoFarther(modes, i, j, i2, j2, targetW, targetH)
    ensures Distance(modes, i, j, targetW, targetH) == Distance(modes, i2, j2, targetW, targetH) ==>
              modes[i].hz >= modes[i2].hz
    ensures modes[i].hz == modes[i2].hz && Exact(modes, i2, j2, targetW, targetH) ==>
              Exact(modes, i, j, targetW, targetH)
  {
    ScoreIs(modes, i, j, targetW, targetH);
    ScoreIs(modes, i2, j2, targetW, targetH);
    ExactIff(modes, i, j, targetW, targetH);
    ExactIff(modes, i2, j2, targetW, targetH);
  }

  /**
   The search of `apply_viewport`, in exact arithmetic: the earliest mode and
   scale of least score. No other is nearer to the size wanted by more than a
   hundredth of what it is slower; of two at the same distance the faster mode
   wins; and if one of the same refresh rate has just the size wanted, so has
   the choice.
   */
  method BestForTarget(modes: seq<Mode>, targetW: real, targetH: real) returns (best: Option<Choice>)
    ensures best == None <==> modes == []
    ensures best.Some? ==>
              && best.value.mode < |modes| && best.value.scale < |SCALES|
              && best.value.score == TargetScore(modes, best.value.mode, best.value.scale, targetW, targetH)
              && forall i: nat, j: nat :: i < |modes| && j < |SCALES| ==>
                   && best.value.score <= TargetScore(modes, i, j, targetW, targetH)
                   && (Earlier(i, j, best.value.mode, best.value.scale) ==>
                         best.value.score < TargetScore(modes, i, j, targetW, targetH))
    ensures best.Some? ==>
              var m, s := best.value.mode, best.value.scale;
              forall i: nat, j: nat :: i < |modes| && j < |SCALES| ==>
                && NoFarther(modes, m, s, i, j, targetW, targetH)
                && (Distance(modes, m, s, targetW, targetH) == Distance(modes, i, j, targetW, targetH) ==>
                      modes[m].hz >= modes[i].hz)
                && (modes[m].hz == modes[i].hz && Exact(modes, i, j, targetW, targetH) ==>
                      Exact(modes, m, s, targetW, targetH))
  {
    var score := (m: Mode, scale: real) => if scale > 0.0 then Score(m, scale, targetW, targetH) else 0.0;
    best := BestMode(modes, score);
    forall i: nat, j: nat | i < |modes| && j < |SCALES|
      ensures ScoreAt(score, modes, i, j) == TargetScore(modes, i, j, targetW, targetH)
    {
    }
    forall i: nat, j: nat | i < |modes| && j < |SCALES|
      ensures best.Some? ==>
                var m, s := best.value.mode, best.value.scale;
                && NoFarther(modes, m, s, i, j, targetW, targetH)
                && (Distance(modes, m, s, targetW, targetH) == Distance(modes, i, j, targetW, targetH) ==>
                      modes[m].hz >= modes[i].hz)
                && (modes[m].hz == modes[i].hz && Exact(modes, i, j, targetW, targetH) ==>
                      Exact(modes, m, s, targetW, targetH))
    {
      if best.Some? {
        LeastIsNearest(modes, best.value.mode, best.value.scale, i, j, targetW, targetH);
      }
    }
  }

  /** The scales that are tried. */
  lemma ScalesTried(scale: real)
    ensures scale in SCALES <==> scale in {1.0, 1.25, 1.5, 1.75, 2.0, 2.25, 2.5, 3.0}
  {
    assert SCALES[0] == 1.0 && SCALES[1] == 1.25 && SCALES[2] == 1.5 && SCALES[3] == 1.75;
    assert SCALES[4] == 2.0 && SCALES[5] == 2.25 && SCALES[6] == 2.5 && SCALES[7] == 3.0;
  }

  // ----- Scale requests -----

  const STEPS: seq<real> := [1.0, 1.25, 1.5, 1.75, 2.0, 2.25, 2.5, 2.75, 3.0]

  /** The earliest of the first `n` steps that is nearest to `v`. */
  function NearestOf(v: real, n: nat): (k: nat)
    requires 1 <= n <= |STEPS|
    ensures k < n
    ensures forall j :: 0 <= j < n ==> Abs(STEPS[k] - v) <= Abs(STEPS[j] - v)
    ensures forall j :: 0 <= j < k ==> Abs(STEPS[k] - v) < Abs(STEPS[j] - v)
  {
    if n == 1 then 0
    else
      var k := NearestOf(v, n - 1);
      if Abs(STEPS[n - 1] - v) < Abs(STEPS[k] - v) then n - 1 else k
  }

  function SnapScale(v: real): real
  {
    STEPS[NearestOf(v, |STEPS|)]
  }

  /** A requested scale, once clamped, is met to within an eighth; one that is a step is met exactly. */
  lemma SnapIsNear(v: real)
    requires 1.0 <= v <= 3.0
    ensures Abs(SnapScale(v) - v) <= 0.125
    ensures v in STEPS ==> SnapScale(v) == v
  {
    var k := NearestOf(v, |STEPS|);
    var j := ((v - 1.0) * 4.0 + 0.5).Floor;
    assert 0 <= j < |STEPS| && STEPS[j] == 1.0 + j as real * 0.25;
    assert Abs(STEPS[j] - v) <= 0.125;
  }

  // ----- Saving and restoring the display -----

  datatype SavedOutput = SavedOutput(mode: string, scale: string, rotation: string)

  /** The display as it is, the copy in memory, and the copy on disk. */
  datatype Monitor = Monitor(current: SavedOutput, saved: Option<SavedOutput>, disk: Option<SavedOutput>)

  /**
   What happens to it. `live` says whether a desktop session runs; `readOk`,
   `saveOk` and `setOk` whether the display can be read for the search or the
   name of the output, read again for the copy, and set; `stored` whether the
   file can be written. `Adapt` is the start of a session and `Rescale` a scale
   request within one; what they set is whatever their search came to.
   */
  datatype Change =
    | Adapt(live: bool, readOk: bool, saveOk: bool, stored: bool, setOk: bool, wanted: SavedOutput)
    | Rescale(live: bool, readOk: bool, saveOk: bool, stored: bool, setOk: bool, scale: string)
    | Restore(live: bool, setOk: bool)
    | UserSets(wanted: SavedOutput)

  /** `save_current`, called only when there is no copy yet; its failure is ignored. */
  function Save(m: Monitor, saveOk: bool, stored: bool): Monitor
  {
    if m.saved.Some? || !saveOk then m
    else Monitor(m.current, Some(m.current), if stored then Some(m.current) else m.disk)
  }

  function Happens(m: Monitor, c: Change): Monitor
  {
    match c
    case Adapt(live, readOk, saveOk, stored, setOk, wanted) =>
      if !live || !readOk then m
      else
        var t := Save(m, saveOk, stored);
        if setOk then t.(current := wanted) else t
    case Rescale(live, readOk, saveOk, stored, setOk, scale) =>
      if !live then m
      else
        var t := Save(m, saveOk, stored);
        if setOk && (t.saved.Some? || readOk) then t.(current := t.current.(scale := scale)) else t
    case Restore(live, setOk) =>
      var back := if m.saved.Some? then m.saved else m.disk;
      if back.Some? && live && setOk then m.(current := back.value) else m
    case UserSets(wanted) => m.(current := wanted)
  }

  function HappenAll(m: Monitor, cs: seq<Change>): Monitor
  {
    if cs == [] then m else Happens(HappenAll(m, cs[..|cs| - 1]), cs[|cs| - 1])
  }

  /** The display is read for the copy. */
  predicate Saves(c: Change)
  {
    match c
    case Adapt(live, readOk, saveOk, _, _, _) => live && readOk && saveOk
    case Rescale(live, _, saveOk, _, _, _) => live && saveOk
    case _ => false
  }

  predicate NoneSaves(cs: seq<Change>)
  {
    forall i :: 0 <= i < |cs| ==> !Saves(cs[i])
  }

  lemma {:induction false} NothingSaved(m: Monitor, cs: seq<Change>)
    requires m.saved == None && NoneSaves(cs)
    ensures HappenAll(m, cs).saved == None && HappenAll(m, cs).disk == m.disk
  {
    if cs != [] {
      NothingSaved(m, cs[..|cs| - 1]);
    }
  }

  /** The first copy that is read stays, for as long as the process runs: the display as it was at that moment. */
  lemma {:induction false} FirstSaveStays(m: Monitor, before: seq<Change>, first: Change, after: seq<Change>)
    requires m.saved == None && NoneSaves(before) && Saves(first)
    ensures HappenAll(m, before + [first] + after).saved == Some(HappenAll(m, before).current)
    decreases |after|
  {
    var all := before + [first] + after;
    if after == [] {
      NothingSaved(m, before);
      assert all[..|before|] == before && all[|before|] == first;
    } else {
      FirstSaveStays(m, before, first, after[..|after| - 1]);
      assert all[..|all| - 1] == before + [first] + after[..|after| - 1];
    }
  }

  /** A change that copies the display and can write the file. */
  predicate Stores(c: Change)
  {
    match c
    case Adapt(live, readOk, saveOk, stored, _, _) => live && readOk && saveOk && stored
    case Rescale(live, _, saveOk, stored, _, _) => live && saveOk && stored
    case _ => false
  }

  /** The file is the first copy if that could be written, and otherwise what it was. */
  lemma {:induction false} FileStays(m: Monitor, before: seq<Change>, first: Change, after: seq<Change>)
    requires m.saved == None && NoneSaves(before) && Saves(first)
    ensures HappenAll(m, before + [first] + after).disk ==
            if Stores(first) then Some(HappenAll(m, before).current) else m.disk
    decreases |after|
  {
    var all := before + [first] + after;
    if after == [] {
      NothingSaved(m, before);
      assert all[..|before|] == before && all[|before|] == first;
    } else {
      FileStays(m, before, first, after[..|after| - 1]);
      FirstSaveStays(m, before, first, after[..|after| - 1]);
      assert all[..|all| - 1] == before + [first] + after[..|after| - 1];
    }
  }

  /** A new process on the same machine: the copy in memory is gone, and the display is whatever it is by then. */
  function Restarted(m: Monitor, current: SavedOutput): Monitor
  {
    Monitor(current, None, m.disk)
  }

  /**
   Across processes: after a first copy that was stored, any further changes,
   and a new start at any display, a restore brings back the display as it was
   at that copy, as long as the new process has read no copy of its own.
   */
  lemma StoredCopySurvives(m: Monitor, before: seq<Change>, first: Change, after: seq<Change>,
                           current: SavedOutput, later: seq<Change>)
    requires m.saved == None && NoneSaves(before) && Stores(first) && NoneSaves(later)
    ensures HappenAll(Restarted(HappenAll(m, before + [first] + after), current), later + [Restore(true, true)]).current
         == HappenAll(m, before).current
  {
    FileStays(m, before, first, after);
    var m' := Restarted(HappenAll(m, before + [first] + after), current);
    NothingSaved(m', later);
    HappensLast(m', later, Restore(true, true));
  }

  /** The display as the user last left it. */
  function UsersDisplay(m: Monitor, cs: seq<Change>): SavedOutput
  {
    if cs == [] then m.current
    else if cs[|cs| - 1].UserSets? then cs[|cs| - 1].wanted
    else UsersDisplay(m, cs[..|cs| - 1])
  }

  /** What a session or a restore sets the display to, if it does. */
  function Setting(m: Monitor, c: Change): Option<SavedOutput>
  {
    match c
    case Adapt(live, readOk, _, _, setOk, wanted) =>
      if live && readOk && setOk then Some(wanted) else None
    case Rescale(live, readOk, saveOk, _, setOk, scale) =>
      if live && setOk && (m.saved.Some? || saveOk || readOk) then Some(m.current.(scale := scale)) else None
    case Restore(live, setOk) =>
      if !live || !setOk then None else if m.saved.Some? then m.saved else m.disk
    case UserSets(_) => None
  }

  /** What a session or a restore has last set the display to since the user did, if one has. */
  function LastSetting(m: Monitor, cs: seq<Change>): Option<SavedOutput>
  {
    if cs == [] || cs[|cs| - 1].UserSets? then None
    else
      var s := Setting(HappenAll(m, cs[..|cs| - 1]), cs[|cs| - 1]);
      if s.Some? then s else LastSetting(m, cs[..|cs| - 1])
  }

  lemma {:induction false} DisplayIs(m: Monitor, cs: seq<Change>)
    ensures HappenAll(m, cs).current ==
            if LastSetting(m, cs).Some? then LastSetting(m, cs).value else UsersDisplay(m, cs)
  {
    if cs != [] {
      DisplayIs(m, cs[..|cs| - 1]);
    }
  }

  /** The changes before the first copy is read; all of them if none is. */
  function BeforeCopy(cs: seq<Change>): (before: seq<Change>)
    ensures NoneSaves(before) && before <= cs
    ensures |before| < |cs| ==> Saves(cs[|before|])
  {
    if cs == [] then []
    else
      var before := BeforeCopy(cs[..|cs| - 1]);
      if |before| == |cs| - 1 && !Saves(cs[|cs| - 1]) then cs else before
  }

  /** What a restore goes by: the copy in memory, or else the file of an earlier process. */
  lemma CopyIs(m: Monitor, cs: seq<Change>)
    requires m.saved == None
    ensures var before, end := BeforeCopy(cs), HappenAll(m, cs);
            if before == cs then end.saved == None && end.disk == m.disk
            else end.saved == Some(HappenAll(m, before).current)
  {
    var before := BeforeCopy(cs);
    if before == cs {
      NothingSaved(m, cs);
    } else {
      var n := |before|;
      FirstSaveStays(m, before, cs[n], cs[n + 1..]);
      assert before + [cs[n]] + cs[n + 1..] == cs;
    }
  }

  /** The display that a restore after these changes should bring back: as the user had left it before any copy was read. */
  function Owed(m: Monitor, cs: seq<Change>): SavedOutput
  {
    UsersDisplay(m, BeforeCopy(cs))
  }

  /** Nothing the program did stands between the display and the user's. */
  predicate Untouched(m: Monitor, cs: seq<Change>)
  {
    LastSetting(m, cs) == None || LastSetting(m, cs) == Some(UsersDisplay(m, cs))
  }

  /**
   What a successful restore brings back, from the start of a process on: the
   copy that was read first; without one the file of an earlier process;
   without that either, nothing changes. So it brings back the user's display
   exactly if no session or restore had set another one before the copy was
   read, or, when no copy was, if the file holds that display, or there is no
   file and nothing else was set.
   */
  lemma RestoreBringsBack(m: Monitor, cs: seq<Change>)
    requires m.saved == None
    ensures var before, end := BeforeCopy(cs), HappenAll(m, cs + [Restore(true, true)]).current;
            && end == (if before == cs && m.disk.Some? then m.disk.value else HappenAll(m, before).current)
            && (end == Owed(m, cs) <==>
                if before == cs && m.disk.Some? then m.disk.value == Owed(m, cs) else Untouched(m, before))
  {
    CopyIs(m, cs);
    HappensLast(m, cs, Restore(true, true));
    DisplayIs(m, BeforeCopy(cs));
  }

  /** A run that loses the user's display: nothing was changed or copied, and an old file is restored on exit. */
  lemma OldFileIsRestored(m: Monitor, x: SavedOutput)
    requires m.saved == None && m.disk == Some(x) && x != m.current
    ensures HappenAll(m, [Restore(true, true)]).current == x && Owed(m, []) == m.current
  {
    HappensLast(m, [], Restore(true, true));
    assert [] + [Restore(true, true)] == [Restore(true, true)];
  }

  lemma HappensLast(m: Monitor, cs: seq<Change>, c: Change)
    ensures HappenAll(m, cs + [c]) == Happens(HappenAll(m, cs), c)
    ensures UsersDisplay(m, cs + [c]) == if c.UserSets? then c.wanted else UsersDisplay(m, cs)
  {
    assert (cs + [c])[..|cs|] == cs;
  }

  /**
   A run that loses the user's display: a session reads the display for its
   search, fails to read it again for the copy, and sets it; the next session
   copies what the first one set, and the restore brings that back.
   */
  lemma UnsavedChangeIsLost(m: Monitor, first: SavedOutput, second: SavedOutput)
    requires m.saved == None
    ensures var run := [Adapt(true, true, false, true, true, first), Adapt(true, true, true, true, true, second),
                        Restore(true, true)];
            HappenAll(m, run).current == first && UsersDisplay(m, run) == m.current
  {
    var a, b := Adapt(true, true, false, true, true, first), Adapt(true, true, true, true, true, second);
    HappensLast(m, [], a);
    HappensLast(m, [a], b);
    HappensLast(m, [a, b], Restore(true, true));
    assert [] + [a] == [a] && [a] + [b] == [a, b];
    assert [a, b] + [Restore(true, true)] == [a, b, Restore(true, true)];
  }
}
