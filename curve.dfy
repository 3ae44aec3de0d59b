// The Hilbert-like curve that orders the cells of one cube face, one level
// of subdivision at a time.  Each level splits a cell into four quadrants,
// numbered 2 * di + dj by their (i, j) half, and the curve visits them in an
// order fixed by its current orientation: bit 0 (swap) exchanges the roles of
// i and j, bit 1 (invert) reverses both.  This module defines the curve as a
// walk over a list of base-4 digits and proves that walking forward (position
// to cell) and backward (cell to position) are inverse.
module Curve {
  import opened Bits

  /** A base-4 digit: a quadrant, a step of the curve or an orientation. */
  type Bits2 = x: nat | x < 4

  const SwapMask: Bits2 := 1
  const InvertMask: Bits2 := 2

  /** POS_TO_IJ, rows [0, 1, 3, 2], [0, 2, 3, 1], [3, 2, 0, 1], [3, 1, 0, 2]:
      the quadrant a curve of orientation o visits at step idx. */
  function PosToIJ(o: Bits2, idx: Bits2): Bits2
  {
    if o == 0 then (if idx == 0 then 0 else if idx == 1 then 1 else if idx == 2 then 3 else 2)
    else if o == 1 then (if idx == 0 then 0 else if idx == 1 then 2 else if idx == 2 then 3 else 1)
    else if o == 2 then (if idx == 0 then 3 else if idx == 1 then 2 else if idx == 2 then 0 else 1)
    else (if idx == 0 then 3 else if idx == 1 then 1 else if idx == 2 then 0 else 2)
  }

  /** POS_TO_ORIENTATION, [SWAP, 0, 0, INVERT | SWAP]: how the orientation
      changes on entering the quadrant visited at step idx. */
  function PosToOrientation(idx: Bits2): Bits2
  {
    if idx == 0 then SwapMask else if idx == 3 then InvertMask + SwapMask else 0
  }

  /** The standard curve visits its quadrants in Gray-code order, so that
      consecutive steps differ in one half only. */
  function GrayCode(idx: Bits2): Bits2
  {
    Xor2(idx, idx / 2)
  }

  /** A quadrant seen through orientation o: swap exchanges the i and j
      halves, invert flips both. */
  function Reoriented(o: Bits2, q: Bits2): Bits2
  {
    var swapped := if o % 2 == 1 then q % 2 * 2 + q / 2 else q;
    if o >= 2 then Xor2(swapped, 3) else swapped
  }

  /** Each row of POS_TO_IJ is the Gray-code order seen through the row's
      orientation. */
  lemma {:induction false} PosToIJGray(o: Bits2, idx: Bits2)
    ensures PosToIJ(o, idx) == Reoriented(o, GrayCode(idx))
  {
  }

  /** The sub-curve in the first quadrant starts in the same corner as the
      whole curve, the one in the last quadrant ends in the same corner, and
      the two in between keep the curve's orientation. */
  lemma {:induction false} PosToOrientationCorners(o: Bits2, idx: Bits2)
    ensures idx == 0 ==> PosToIJ(Xor2(o, PosToOrientation(idx)), 0) == PosToIJ(o, 0)
    ensures idx == 3 ==> PosToIJ(Xor2(o, PosToOrientation(idx)), 3) == PosToIJ(o, 3)
    ensures idx == 1 || idx == 2 ==> PosToOrientation(idx) == 0
  {
  }

  /** Whether two cells of the 4 x 4 grid two levels down share an edge. */
  predicate Neighbours(i: int, j: int, i2: int, j2: int)
  {
    (i == i2 && (j - j2 == 1 || j2 - j == 1)) || (j == j2 && (i - i2 == 1 || i2 - i == 1))
  }

  /** Two levels down the curve is continuous: the last cell of the
      sub-curve at step idx, whose orientation is updated by
      PosToOrientation, touches the first cell of the sub-curve at step
      idx + 1.  A cell of the 4 x 4 grid is a quadrant q and a quadrant q2
      inside it. */
  lemma {:induction false} SubCurvesJoin(o: Bits2, idx: Bits2)
    requires idx < 3
    ensures var q, q2 := PosToIJ(o, idx), PosToIJ(Xor2(o, PosToOrientation(idx)), 3);
      var r, r2 := PosToIJ(o, idx + 1), PosToIJ(Xor2(o, PosToOrientation(idx + 1)), 0);
      Neighbours(2 * (q / 2) + q2 / 2, 2 * (q % 2) + q2 % 2, 2 * (r / 2) + r2 / 2, 2 * (r % 2) + r2 % 2)
  {
    if o == 0 {
    } else if o == 1 {
    } else if o == 2 {
    } else {
    }
  }

  /** The step at which a curve of orientation o visits quadrant q: the
      inverse of each row of PosToIJ. */
  function IJToPos(o: Bits2, q: Bits2): (idx: Bits2)
    ensures PosToIJ(o, idx) == q
  {
    if o == 0 then (if q == 0 then 0 else if q == 1 then 1 else if q == 2 then 3 else 2)
    else if o == 1 then (if q == 0 then 0 else if q == 1 then 3 else if q == 2 then 1 else 2)
    else if o == 2 then (if q == 0 then 2 else if q == 1 then 3 else if q == 2 then 1 else 0)
    else (if q == 0 then 2 else if q == 1 then 1 else if q == 2 then 3 else 0)
  }

  /** Each row of PosToIJ is a permutation of the four quadrants. */
  lemma {:induction false} PosToIJInjective(o: Bits2, idx: Bits2)
    ensures IJToPos(o, PosToIJ(o, idx)) == idx
  {
  }

  /** The step at which a curve of orientation o visits quadrant q is idx
      exactly when the quadrant it visits at step idx is q. */
  lemma {:induction false} IJToPosIff(o: Bits2, q: Bits2, idx: Bits2)
    ensures IJToPos(o, q) == idx <==> PosToIJ(o, idx) == q
  {
  }

  /** Exclusive or of two 2-bit values. */
  function Xor2(a: Bits2, b: Bits2): Bits2
  {
    if b == 0 then a
    else if b == 1 then (if a == 0 then 1 else if a == 1 then 0 else if a == 2 then 3 else 2)
    else if b == 2 then (if a == 0 then 2 else if a == 1 then 3 else if a == 2 then 0 else 1)
    else 3 - a
  }

  /** A path down the grid hierarchy, most significant step first: the list
      grows at its fine end. */
  datatype Steps = Nil | Snoc(init: Steps, last: Bits2)

  function Length(s: Steps): nat
  {
    match s
    case Nil => 0
    case Snoc(init, _) => Length(init) + 1
  }

  /** A list of steps together with the orientation the curve has after
      the last of them. */
  datatype Path = Path(steps: Steps, o: Bits2)

  /** Following the curve, started with orientation o, along the position
      digits ds: the quadrants it passes through. */
  function Visit(o: Bits2, ds: Steps): (w: Path)
  {
    match ds
    case Nil => Path(Nil, o)
    case Snoc(init, d) =>
      var h := Visit(o, init);
      Path(Snoc(h.steps, PosToIJ(h.o, d)), Xor2(h.o, PosToOrientation(d)))
  }

  /** Locating, with the curve started with orientation o, the nested
      quadrants qs: the position digits at which it visits them. */
  function Locate(o: Bits2, qs: Steps): (w: Path)
  {
    match qs
    case Nil => Path(Nil, o)
    case Snoc(init, q) =>
      var h := Locate(o, init);
      var d := IJToPos(h.o, q);
      Path(Snoc(h.steps, d), Xor2(h.o, PosToOrientation(d)))
  }

  /** Locating the quadrants a walk passes through gives back its digits. */
  lemma {:induction false} LocateVisit(o: Bits2, ds: Steps)
    ensures var w := Visit(o, ds); Locate(o, w.steps) == Path(ds, w.o)
  {
    match ds
    case Nil =>
    case Snoc(init, d) =>
      LocateVisit(o, init);
      var h := Visit(o, init);
      PosToIJInjective(h.o, d);
  }

  /** Walking the digits at which quadrants are located gives them back. */
  lemma {:induction false} VisitLocate(o: Bits2, qs: Steps)
    ensures var w := Locate(o, qs); Visit(o, w.steps) == Path(qs, w.o)
  {
    match qs
    case Nil =>
    case Snoc(init, q) =>
      VisitLocate(o, init);
  }


  // ---------------------------------------------------------------------
  // Numbers: a position below 4^r is r base-4 digits, a cell (i, j) of the
  // 2^r x 2^r grid is r quadrants.

  /** 4^n: the number of cells of a 2^n x 2^n grid. */
  function Pow4(n: nat): (r: nat)
    ensures r >= 1
  {
    if n == 0 then 1 else 4 * Pow4(n - 1)
  }

  /** The r base-4 digits of p below 4^r. */
  function Digits(p: nat, r: nat): (ds: Steps)
  {
    if r == 0 then Nil else Snoc(Digits(p / 4, r - 1), p % 4)
  }

  /** The number whose base-4 digits are ds. */
  function Value(ds: Steps): nat
  {
    match ds
    case Nil => 0
    case Snoc(init, d) => 4 * Value(init) + d
  }

  lemma {:induction false} ValueDigits(p: nat, r: nat)
    requires p < Pow4(r)
    ensures Value(Digits(p, r)) == p
  {
    if r > 0 {
      ValueDigits(p / 4, r - 1);
    }
  }

  lemma {:induction false} DigitsValue(ds: Steps)
    ensures Value(ds) < Pow4(Length(ds)) && Digits(Value(ds), Length(ds)) == ds
  {
    match ds
    case Nil =>
    case Snoc(init, d) =>
      DigitsValue(init);
      DigitsValueStep(init, d);
  }

  lemma {:induction false} DigitsValueStep(init: Steps, d: Bits2)
    requires Value(init) < Pow4(Length(init)) && Digits(Value(init), Length(init)) == init
    ensures Value(Snoc(init, d)) < Pow4(Length(Snoc(init, d)))
    ensures Digits(Value(Snoc(init, d)), Length(Snoc(init, d))) == Snoc(init, d)
  {
    DigitsSnoc(Value(init), d, Length(init));
  }

  /** The r nested quadrants, coarsest first, that hold cell (i, j). */
  function Quadrants(i: nat, j: nat, r: nat): (qs: Steps)
  {
    if r == 0 then Nil else Snoc(Quadrants(i / 2, j / 2, r - 1), 2 * (i % 2) + j % 2)
  }

  /** The i coordinate of the cell that the nested quadrants qs pick out. */
  function IOf(qs: Steps): nat
  {
    match qs
    case Nil => 0
    case Snoc(init, q) => 2 * IOf(init) + q / 2
  }

  /** The j coordinate of that cell. */
  function JOf(qs: Steps): nat
  {
    match qs
    case Nil => 0
    case Snoc(init, q) => 2 * JOf(init) + q % 2
  }

  lemma {:induction false} IJOfQuadrants(i: nat, j: nat, r: nat)
    requires i < Pow2(r) && j < Pow2(r)
    ensures IOf(Quadrants(i, j, r)) == i && JOf(Quadrants(i, j, r)) == j
  {
    if r > 0 {
      IJOfQuadrants(i / 2, j / 2, r - 1);
    }
  }

  lemma {:induction false} IJBound(qs: Steps)
    ensures IOf(qs) < Pow2(Length(qs)) && JOf(qs) < Pow2(Length(qs))
  {
    match qs
    case Nil =>
    case Snoc(init, q) =>
      IJBound(init);
  }

  lemma {:induction false} QuadrantsIJ(qs: Steps)
    ensures Quadrants(IOf(qs), JOf(qs), Length(qs)) == qs
  {
    match qs
    case Nil =>
    case Snoc(init, q) =>
      QuadrantsIJ(init);
      QuadrantsIJSnoc(init, q);
  }

  lemma {:induction false} QuadrantsIJSnoc(init: Steps, q: Bits2)
    requires Quadrants(IOf(init), JOf(init), Length(init)) == init
    ensures Quadrants(IOf(Snoc(init, q)), JOf(Snoc(init, q)), Length(Snoc(init, q))) == Snoc(init, q)
  {
    var i, j, n := IOf(init), JOf(init), Length(init);
    assert IOf(Snoc(init, q)) == 2 * i + q / 2 && JOf(Snoc(init, q)) == 2 * j + q % 2;
    assert Length(Snoc(init, q)) == n + 1;
    QuadrantsSnoc(i, j, q, n);
  }

  /** A cell of a grid together with the orientation the curve has in it. */
  datatype Cell = Cell(i: nat, j: nat, o: Bits2)

  /** A position on the curve together with the orientation it has there. */
  datatype Spot = Spot(pos: nat, o: Bits2)

  /** The cell of the 2^r x 2^r grid that the curve started with
      orientation o visits p-th. */
  function IJOf(r: nat, o: Bits2, p: nat): Cell
  {
    var w := Visit(o, Digits(p, r));
    Cell(IOf(w.steps), JOf(w.steps), w.o)
  }

  /** The position at which the curve started with orientation o visits
      cell (i, j) of the 2^r x 2^r grid. */
  function PosOf(r: nat, o: Bits2, i: nat, j: nat): Spot
  {
    var w := Locate(o, Quadrants(i, j, r));
    Spot(Value(w.steps), w.o)
  }

  /** Walking the curve to its p-th cell and asking where that cell lies
      gives back p and the same orientation. */
  lemma {:induction false} PosOfIJOf(r: nat, o: Bits2, p: nat)
    requires p < Pow4(r)
    ensures var c := IJOf(r, o, p); PosOf(r, o, c.i, c.j) == Spot(p, c.o)
  {
    var w := Visit(o, Digits(p, r));
    QuadrantsIJ(w.steps);
    IJBound(w.steps);
    LengthVisit(o, Digits(p, r));
    LengthDigits(p, r);
    LocateVisit(o, Digits(p, r));
    ValueDigits(p, r);
  }

  /** Asking where cell (i, j) lies and walking the curve to that position
      gives back the cell and the same orientation. */
  lemma {:induction false} IJOfPosOf(r: nat, o: Bits2, i: nat, j: nat)
    requires i < Pow2(r) && j < Pow2(r)
    ensures var s := PosOf(r, o, i, j); IJOf(r, o, s.pos) == Cell(i, j, s.o)
  {
    var w := Locate(o, Quadrants(i, j, r));
    LengthLocate(o, Quadrants(i, j, r));
    LengthQuadrants(i, j, r);
    DigitsValue(w.steps);
    VisitLocate(o, Quadrants(i, j, r));
    IJOfQuadrants(i, j, r);
  }

  lemma {:induction false} LengthVisit(o: Bits2, ds: Steps)
    ensures Length(Visit(o, ds).steps) == Length(ds)
  {
    match ds
    case Nil =>
    case Snoc(init, _) => LengthVisit(o, init);
  }

  lemma {:induction false} LengthLocate(o: Bits2, qs: Steps)
    ensures Length(Locate(o, qs).steps) == Length(qs)
  {
    match qs
    case Nil =>
    case Snoc(init, _) => LengthLocate(o, init);
  }

  /** One level of PosOf: cell (2 hi + q / 2, 2 hj + q % 2) is quadrant q
      of cell (hi, hj). */
  lemma {:induction false} PosOfStep(r: nat, o: Bits2, hi: nat, hj: nat, q: Bits2)
    ensures var h := PosOf(r, o, hi, hj);
      var idx := IJToPos(h.o, q);
      PosOf(r + 1, o, 2 * hi + q / 2, 2 * hj + q % 2) == Spot(4 * h.pos + idx, Xor2(h.o, PosToOrientation(idx)))
  {
    QuadrantsSnoc(hi, hj, q, r);
  }

  /** One level of IJOf: position 4 hp + d is step d inside position hp. */
  lemma {:induction false} IJOfStep(r: nat, o: Bits2, hp: nat, d: Bits2)
    ensures var h := IJOf(r, o, hp);
      var q := PosToIJ(h.o, d);
      IJOf(r + 1, o, 4 * hp + d) == Cell(2 * h.i + q / 2, 2 * h.j + q % 2, Xor2(h.o, PosToOrientation(d)))
  {
    DigitsSnoc(hp, d, r);
  }

  lemma {:induction false} DigitsSnoc(h: nat, d: Bits2, n: nat)
    ensures Digits(4 * h + d, n + 1) == Snoc(Digits(h, n), d)
  {
    assert (4 * h + d) / 4 == h && (4 * h + d) % 4 == d;
  }

  lemma {:induction false} QuadrantsSnoc(hi: nat, hj: nat, q: Bits2, n: nat)
    ensures Quadrants(2 * hi + q / 2, 2 * hj + q % 2, n + 1) == Snoc(Quadrants(hi, hj, n), q)
  {
    HalfSplit(hi, q / 2);
    HalfSplit(hj, q % 2);
  }

  lemma {:induction false} HalfSplit(h: nat, b: nat)
    requires b < 2
    ensures (2 * h + b) / 2 == h && (2 * h + b) % 2 == b
  {
  }

  lemma {:induction false} LengthQuadrants(i: nat, j: nat, r: nat)
    ensures Length(Quadrants(i, j, r)) == r
  {
    if r > 0 {
      LengthQuadrants(i / 2, j / 2, r - 1);
    }
  }

  lemma {:induction false} LengthDigits(p: nat, r: nat)
    ensures Length(Digits(p, r)) == r
  {
    if r > 0 {
      LengthDigits(p / 4, r - 1);
    }
  }

  /** Positions on the curve over the 2^r x 2^r grid are below 4^r. */
  lemma {:induction false} PosOfBound(r: nat, o: Bits2, i: nat, j: nat)
    ensures PosOf(r, o, i, j).pos < Pow4(r)
  {
    var qs := Quadrants(i, j, r);
    LengthQuadrants(i, j, r);
    LengthLocate(o, qs);
    DigitsValue(Locate(o, qs).steps);
  }

  /** Cells the curve over the 2^r x 2^r grid visits lie in that grid. */
  lemma {:induction false} IJOfBound(r: nat, o: Bits2, p: nat)
    ensures IJOf(r, o, p).i < Pow2(r) && IJOf(r, o, p).j < Pow2(r)
  {
    var ds := Digits(p, r);
    LengthDigits(p, r);
    LengthVisit(o, ds);
    IJBound(Visit(o, ds).steps);
  }

  /** The curve visits cell (i, j) at position pos, ending with orientation
      o', exactly when its pos-th cell is (i, j) with orientation o'. */
  lemma {:induction false} CurveInverse(r: nat, o: Bits2, i: nat, j: nat, pos: nat, o': Bits2)
    requires i < Pow2(r) && j < Pow2(r) && pos < Pow4(r)
    ensures PosOf(r, o, i, j) == Spot(pos, o') <==> IJOf(r, o, pos) == Cell(i, j, o')
  {
    IJOfPosOf(r, o, i, j);
    PosOfIJOf(r, o, pos);
  }
}
