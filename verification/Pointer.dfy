/** The pointer position that src/input.rs tracks: 32-bit additions, clamped to the screen. */
module Pointer {

  const I32_MIN: int := -0x8000_0000
  const I32_LIMIT: int := 0x8000_0000

  predicate IsI32(v: int)
  {
    I32_MIN <= v < I32_LIMIT
  }

  /** Addition of two 32-bit integers, wrapping around. */
  function WrappingAdd(x: int, d: int): (r: int)
    requires IsI32(x) && IsI32(d)
    ensures IsI32(r)
  {
    var s := x + d;
    if s >= I32_LIMIT then s - 0x1_0000_0000 else if s < I32_MIN then s + 0x1_0000_0000 else s
  }

  function Clamp(v: int, lo: int, hi: int): int
  {
    if v < lo then lo else if v > hi then hi else v
  }

  predicate ScreenSize(size: int)
  {
    1 <= size < I32_LIMIT
  }

  /** One coordinate after a move by `d` on a screen `size` wide. */
  function Moved(x: int, d: int, size: int): int
    requires IsI32(x) && IsI32(d) && ScreenSize(size)
  {
    Clamp(WrappingAdd(x, d), 0, size - 1)
  }

  /** From a position on the screen, a move goes where it should exactly when the sum does not overflow. */
  lemma MoveIsRightIff(x: int, d: int, size: int)
    requires ScreenSize(size) && 0 <= x < size && IsI32(d)
    ensures Moved(x, d, size) == Clamp(x + d, 0, size - 1) <==> x + d < I32_LIMIT || size == 1
  {
  }

  /** Where a move goes that does not overflow: to the sum, or to the edge it would pass. */
  lemma MoveGoes(x: int, d: int, size: int)
    requires ScreenSize(size) && 0 <= x < size && IsI32(d) && x + d < 0x8000_0000
    ensures Moved(x, d, size) == if x + d < 0 then 0 else if x + d >= size then size - 1 else x + d
  {
  }

  /** A move to the right that ends at the left edge of any screen wider than one pixel. */
  lemma OverflowingMove(size: int)
    requires 1 < size < I32_LIMIT
    ensures Moved(1, I32_LIMIT - 1, size) == 0 != Clamp(1 + (I32_LIMIT - 1), 0, size - 1)
  {
  }

  datatype Point = Point(x: int, y: int)

  datatype Screen = Screen(w: int, h: int)

  predicate OnScreen(p: Point, s: Screen)
  {
    0 <= p.x < s.w && 0 <= p.y < s.h
  }

  /** A move that neither coordinate can overflow on, wherever on the screen it starts. */
  predicate SafeMove(d: Point, s: Screen)
  {
    IsI32(d.x) && IsI32(d.y) && s.w - 1 + d.x < I32_LIMIT && s.h - 1 + d.y < I32_LIMIT
  }

  /** `move_rel`: nothing happens for a move by nothing. */
  function MoveRel(p: Point, d: Point, s: Screen): Point
    requires IsI32(p.x) && IsI32(p.y) && IsI32(d.x) && IsI32(d.y) && ScreenSize(s.w) && ScreenSize(s.h)
  {
    if d.x == 0 && d.y == 0 then p else Point(Moved(p.x, d.x, s.w), Moved(p.y, d.y, s.h))
  }

  /** After any move by something the pointer is on the screen, even if it was not before. */
  lemma MoveEndsOnScreen(p: Point, d: Point, s: Screen)
    requires IsI32(p.x) && IsI32(p.y) && IsI32(d.x) && IsI32(d.y) && ScreenSize(s.w) && ScreenSize(s.h)
    requires d != Point(0, 0) || OnScreen(p, s)
    ensures OnScreen(MoveRel(p, d, s), s)
  {
  }

  /** From the screen a safe move takes each coordinate by its own amount, or to the edge it would pass. */
  lemma MoveRelGoes(p: Point, d: Point, s: Screen)
    requires ScreenSize(s.w) && ScreenSize(s.h) && OnScreen(p, s) && SafeMove(d, s)
    ensures var q := MoveRel(p, d, s);
            && q.x == (if p.x + d.x < 0 then 0 else if p.x + d.x >= s.w then s.w - 1 else p.x + d.x)
            && q.y == (if p.y + d.y < 0 then 0 else if p.y + d.y >= s.h then s.h - 1 else p.y + d.y)
  {
    MoveGoes(p.x, d.x, s.w);
    MoveGoes(p.y, d.y, s.h);
  }

  predicate AllSafe(ds: seq<Point>, s: Screen)
  {
    forall i :: 0 <= i < |ds| ==> SafeMove(ds[i], s)
  }

  function MoveAll(p: Point, ds: seq<Point>, s: Screen): (q: Point)
    requires ScreenSize(s.w) && ScreenSize(s.h) && OnScreen(p, s)
    requires AllSafe(ds, s)
    ensures OnScreen(q, s)
    decreases |ds|
  {
    if ds == [] then p
    else
      MoveEndsOnScreen(p, ds[0], s);
      MoveAll(MoveRel(p, ds[0], s), ds[1..], s)
  }

  /** A shift followed by a clamp: the shape of every sequence of moves along one axis. */
  datatype Shift = Shift(delta: int, lo: int, hi: int)

  function Shifted(f: Shift, x: int): int
  {
    Clamp(x + f.delta, f.lo, f.hi)
  }

  predicate Within(f: Shift, size: int)
  {
    0 <= f.lo <= f.hi < size
  }

  /** Shifts compose to shifts. */
  function Compose(f: Shift, g: Shift): Shift
  {
    Shift(f.delta + g.delta, Clamp(f.lo + g.delta, g.lo, g.hi), Clamp(f.hi + g.delta, g.lo, g.hi))
  }

  lemma ComposeIsComposition(f: Shift, g: Shift, x: int)
    requires f.lo <= f.hi && g.lo <= g.hi
    ensures Shifted(Compose(f, g), x) == Shifted(g, Shifted(f, x))
    ensures Compose(f, g).lo <= Compose(f, g).hi
  {
  }

  /**
   Any sequence of moves on a fixed screen is, on each axis, one shift and one
   clamp to a range inside the screen, the same for every starting point.
   */
  lemma {:induction false} MovesAreOneShift(ds: seq<Point>, s: Screen) returns (f: Shift, g: Shift)
    requires ScreenSize(s.w) && ScreenSize(s.h) && AllSafe(ds, s)
    ensures Within(f, s.w) && Within(g, s.h)
    ensures forall p :: OnScreen(p, s) ==> MoveAll(p, ds, s) == ShiftedPoint(f, g, p)
    decreases |ds|
  {
    if ds == [] {
      f, g := Shift(0, 0, s.w - 1), Shift(0, 0, s.h - 1);
    } else {
      var f1, g1 := MovesAreOneShift(ds[1..], s);
      f, g := Compose(FirstShift(ds[0].x, s.w), f1), Compose(FirstShift(ds[0].y, s.h), g1);
      forall p | OnScreen(p, s)
        ensures MoveAll(p, ds, s) == ShiftedPoint(f, g, p)
      {
        OneMoveIsShift(p, ds[0], s);
        ComposeIsComposition(FirstShift(ds[0].x, s.w), f1, p.x);
        ComposeIsComposition(FirstShift(ds[0].y, s.h), g1, p.y);
      }
    }
  }

  function FirstShift(d: int, size: int): Shift
  {
    Shift(d, 0, size - 1)
  }

  function ShiftedPoint(f: Shift, g: Shift, p: Point): Point
  {
    Point(Shifted(f, p.x), Shifted(g, p.y))
  }

  lemma OneMoveIsShift(p: Point, d: Point, s: Screen)
    requires ScreenSize(s.w) && ScreenSize(s.h) && OnScreen(p, s) && SafeMove(d, s)
    ensures OnScreen(MoveRel(p, d, s), s)
    ensures MoveRel(p, d, s) == ShiftedPoint(FirstShift(d.x, s.w), FirstShift(d.y, s.h), p)
  {
    MoveIsRightIff(p.x, d.x, s.w);
    MoveIsRightIff(p.y, d.y, s.h);
  }
}
