// The two 1024-entry tables that translate between 4-bit chunks of the grid
// coordinates (i, j) and 8-bit chunks of the position along the Hilbert-like
// curve, for each of the four curve orientations.  A table key packs a chunk
// and an orientation as (chunk << 2) + orientation; a table value packs the
// translated chunk and the orientation the curve has after it the same way.
module Lookup {
  import opened Bits
  import opened Curve

  const LookupBits: nat := 4
  /** 1 << (2 * LookupBits + 2) slots in each table. */
  const TableSize: nat := 1024
  /** The value an unwritten slot holds (the source's `undefined`). */
  const Unwritten: int := -1

  /** A table of 4-bit chunks covers a 16 x 16 grid and 256 positions. */
  lemma {:induction false} LookupSizes()
    ensures Pow2(LookupBits) == 16 && Pow4(LookupBits) == 256
  {
    assert Pow2(2) == 4 && Pow4(2) == 16;
  }

  /** The entry the finished (i, j) -> position table holds in slot k: the
      8-bit position and final orientation of the 4-bit chunk pair packed in
      k, walked with the orientation packed in k. */
  function PosEntry(k: nat): (v: nat)
    requires k < TableSize
    ensures v < TableSize
  {
    LookupSizes();
    PosOfBound(LookupBits, k % 4, k / 64, (k / 4) % 16);
    var s := PosOf(LookupBits, k % 4, k / 64, (k / 4) % 16);
    s.pos * 4 + s.o
  }

  /** The entry the finished position -> (i, j) table holds in slot k. */
  function IJEntry(k: nat): (v: nat)
    requires k < TableSize
    ensures v < TableSize
  {
    LookupSizes();
    IJOfBound(LookupBits, k % 4, k / 4);
    var c := IJOf(LookupBits, k % 4, k / 4);
    (c.i * 16 + c.j) * 4 + c.o
  }

  /** The (i, j) -> position entry for the chunk pair packed as ij = 16 i + j
      and orientation o. */
  lemma {:induction false} PosEntryAt(ij: nat, o: Bits2)
    requires ij < 256
    ensures var s := PosOf(LookupBits, o, ij / 16, ij % 16);
      s.pos < 256 && PosEntry(ij * 4 + o) == s.pos * 4 + s.o
  {
    LookupSizes();
    PackedSlot(ij, o);
    PosOfBound(LookupBits, o, ij / 16, ij % 16);
  }

  /** The position -> (i, j) entry for position pos and orientation o. */
  lemma {:induction false} IJEntryAt(pos: nat, o: Bits2)
    requires pos < 256
    ensures var c := IJOf(LookupBits, o, pos);
      c.i < 16 && c.j < 16 && IJEntry(pos * 4 + o) == (c.i * 16 + c.j) * 4 + c.o
  {
    LookupSizes();
    PackedPos(pos, o);
    IJOfBound(LookupBits, o, pos);
  }

  /** The two tables are inverse: LOOKUP_POS maps (ij, o) to (pos, o')
      exactly when LOOKUP_IJ maps (pos, o) to (ij, o'). */
  lemma {:induction false} TablesInverse(ij: nat, pos: nat, o: Bits2, o': Bits2)
    requires ij < 256 && pos < 256
    ensures PosEntry(ij * 4 + o) == pos * 4 + o' <==> IJEntry(pos * 4 + o) == ij * 4 + o'
  {
    var i, j := ij / 16, ij % 16;
    assert ij == 16 * i + j;
    LookupSizes();
    PosEntryAt(ij, o);
    IJEntryAt(pos, o);
    CurveInverse(LookupBits, o, i, j, pos, o');
    PackedInverse(PosOf(LookupBits, o, i, j), IJOf(LookupBits, o, pos), ij, pos, o', i, j);
  }

  /** Packing preserves an equivalence between a spot and a cell. */
  lemma {:induction false} PackedInverse(s: Spot, c: Cell, ij: nat, pos: nat, o': Bits2, i: nat, j: nat)
    requires ij == 16 * i + j && i < 16 && j < 16 && c.i < 16 && c.j < 16
    requires s == Spot(pos, o') <==> c == Cell(i, j, o')
    ensures s.pos * 4 + s.o == pos * 4 + o' <==> (c.i * 16 + c.j) * 4 + c.o == ij * 4 + o'
  {
    DigitSplit(s.pos * 4 + s.o, s.pos, s.o, pos, o', 4);
    DigitSplit((c.i * 16 + c.j) * 4 + c.o, c.i * 16 + c.j, c.o, ij, o', 4);
    DigitSplit(c.i * 16 + c.j, c.i, c.j, i, j, 16);
  }

  // ---------------------------------------------------------------------
  // What one call of the recursive table builder covers.  A call at depth
  // `level` stands for one cell of the 2^level x 2^level grid of 4-bit chunk
  // pairs, and for one stretch of 4^(4 - level) positions of the curve.

  /** Side of a depth-`level` cell, counted in 4-bit chunk coordinates:
      2^(4 - level). */
  function CellSpan(level: nat): (s: nat)
    requires level <= LookupBits
    ensures s >= 1
  {
    if level == 0 then 16 else if level == 1 then 8 else if level == 2 then 4 else if level == 3 then 2 else 1
  }

  /** Length of a depth-`level` stretch of the curve, counted in 8-bit
      positions: 4^(4 - level). */
  function StretchSpan(level: nat): (s: nat)
    requires level <= LookupBits
    ensures s >= 1
  {
    if level == 0 then 256 else if level == 1 then 64 else if level == 2 then 16 else if level == 3 then 4 else 1
  }

  /** Going one level deeper adds one binary digit to a cell coordinate. */
  lemma {:induction false} CellSpanStep(x: nat, level: nat)
    requires level < LookupBits
    ensures x / CellSpan(level + 1) == 2 * (x / CellSpan(level)) + (x / CellSpan(level + 1)) % 2
  {
  }

  /** Going one level deeper adds one base-4 digit to a curve position. */
  lemma {:induction false} StretchSpanStep(x: nat, level: nat)
    requires level < LookupBits
    ensures x / StretchSpan(level + 1) == 4 * (x / StretchSpan(level)) + (x / StretchSpan(level + 1)) % 4
  {
  }

  /** Slot k of the (i, j) -> position table belongs to the call for cell
      (i, j) at depth `level` started with orientation origO. */
  predicate InPosBlock(level: nat, i: nat, j: nat, origO: nat, k: int)
    requires level <= LookupBits
  {
    0 <= k < TableSize && k % 4 == origO
    && (k / 64) / CellSpan(level) == i && ((k / 4) % 16) / CellSpan(level) == j
  }

  /** Slot k of the position -> (i, j) table belongs to the call for curve
      stretch pos at depth `level` started with orientation origO. */
  predicate InIJBlock(level: nat, origO: nat, pos: nat, k: int)
    requires level <= LookupBits
  {
    0 <= k < TableSize && k % 4 == origO && (k / 4) / StretchSpan(level) == pos
  }

  /** Which of the four calls one level deeper, made by a call of orientation
      o, covers slot k of the (i, j) -> position table. */
  function PosChild(level: nat, o: Bits2, k: int): Bits2
    requires level < LookupBits && 0 <= k < TableSize
  {
    IJToPos(o, ((k / 64) / CellSpan(level + 1) % 2) * 2 + ((k / 4) % 16) / CellSpan(level + 1) % 2)
  }

  /** Which of the four calls one level deeper covers slot k of the
      position -> (i, j) table. */
  function IJChild(level: nat, k: int): nat
    requires level < LookupBits && 0 <= k < TableSize
  {
    (k / 4) / StretchSpan(level + 1) % 4
  }

  /** Digit arithmetic: x = 2h + d with d a binary digit equals 2i + b
      exactly when h = i and d = b. */
  lemma {:induction false} DigitSplit(x: nat, h: nat, d: nat, i: nat, b: nat, base: nat)
    requires base >= 2 && x == base * h + d && d < base && b < base
    ensures x == base * i + b <==> h == i && d == b
  {
    if x == base * i + b && h != i {
      if h < i {
        MulMonotone(base, h + 1, i);
      } else {
        MulMonotone(base, i + 1, h);
      }
    }
  }

  /** A cell of the 2^level grid has its quadrants in the 2^(level + 1) grid. */
  lemma {:induction false} HalfBound(i: nat, b: nat, level: nat)
    requires i < Pow2(level) && b < 2
    ensures 2 * i + b < Pow2(level + 1)
  {
  }

  lemma {:induction false} MulMonotone(base: nat, a: nat, b: nat)
    requires a <= b
    ensures base * a <= base * b
  {
  }

  /** One coordinate of a slot lies in half b of the depth-`level` cell
      coordinate i exactly when it lies in the depth-(level + 1) coordinate
      2i + b. */
  lemma {:induction false} CoordCovers(x: nat, level: nat, i: nat, b: nat)
    requires level < LookupBits && b < 2
    ensures x / CellSpan(level + 1) == 2 * i + b <==>
      x / CellSpan(level) == i && x / CellSpan(level + 1) % 2 == b
  {
    CellSpanStep(x, level);
    DigitSplit(x / CellSpan(level + 1), x / CellSpan(level), x / CellSpan(level + 1) % 2, i, b, 2);
  }

  /** The idx-th call one level deeper covers exactly the slots of the
      caller's cell that fall in the quadrant the curve visits idx-th. */
  lemma {:induction false} PosChildCovers(level: nat, i: nat, j: nat, origO: nat, o: Bits2, idx: Bits2, k: int)
    requires level < LookupBits && 0 <= k < TableSize
    ensures var q := PosToIJ(o, idx);
      (InPosBlock(level + 1, 2 * i + q / 2, 2 * j + q % 2, origO, k) <==>
       InPosBlock(level, i, j, origO, k) && PosChild(level, o, k) == idx)
  {
    var x, y := k / 64, (k / 4) % 16;
    var q := PosToIJ(o, idx);
    CoordCovers(x, level, i, q / 2);
    CoordCovers(y, level, j, q % 2);
    var a, b := x / CellSpan(level + 1) % 2, y / CellSpan(level + 1) % 2;
    IJToPosIff(o, a * 2 + b, idx);
    DigitSplit(q, q / 2, q % 2, a, b, 2);
  }

  /** The same for the position -> (i, j) table. */
  lemma {:induction false} IJChildCovers(level: nat, origO: nat, pos: nat, idx: nat, k: int)
    requires level < LookupBits && idx < 4 && 0 <= k < TableSize
    ensures InIJBlock(level + 1, origO, 4 * pos + idx, k) <==> InIJBlock(level, origO, pos, k) && IJChild(level, k) == idx
  {
    var p := k / 4;
    StretchSpanStep(p, level);
    DigitSplit(p / StretchSpan(level + 1), p / StretchSpan(level), p / StretchSpan(level + 1) % 4, pos, idx, 4);
  }

  /** The arguments the builder passes to its idx-th call one level deeper
      are the closed forms of that call's cell. */
  lemma {:induction false} ChildArgs(level: nat, origO: Bits2, i: nat, j: nat, pos: nat, o: Bits2, idx: Bits2,
                  q: Bits2, ci: nat, cj: nat, cpos: nat, co: Bits2)
    requires i < Pow2(level) && j < Pow2(level)
    requires PosOf(level, origO, i, j) == Spot(pos, o)
    requires q == PosToIJ(o, idx) && ci == 2 * i + q / 2 && cj == 2 * j + q % 2
    requires cpos == 4 * pos + idx && co == Xor2(o, PosToOrientation(idx))
    ensures ci < Pow2(level + 1) && cj < Pow2(level + 1)
    ensures PosOf(level + 1, origO, ci, cj) == Spot(cpos, co)
  {
    PosToIJInjective(o, idx);
    PosOfStep(level, origO, i, j, q);
    HalfBound(i, q / 2, level);
    HalfBound(j, q % 2, level);
  }

  /** Slot k of either table, split into its packed fields. */
  lemma {:induction false} SlotFields(k: int)
    requires 0 <= k < TableSize
    ensures k == ((k / 64) * 16 + (k / 4) % 16) * 4 + k % 4 && k == (k / 4) * 4 + k % 4
    ensures k / 64 < 16 && (k / 4) % 16 < 16 && k % 4 < 4
  {
  }

  /** The fields of a packed slot read back. */
  lemma {:induction false} PackedFields(i: nat, j: nat, o: nat)
    requires i < 16 && j < 16 && o < 4
    ensures var k := (i * 16 + j) * 4 + o;
      k < TableSize && k / 64 == i && (k / 4) % 16 == j && k / 4 == i * 16 + j && k % 4 == o
  {
  }

  /** The fields of slot ij * 4 + o, with ij = 16 i + j, read back. */
  lemma {:induction false} PackedSlot(ij: nat, o: nat)
    requires ij < 256 && o < 4
    ensures var k := ij * 4 + o;
      k < TableSize && k % 4 == o && k / 64 == ij / 16 && (k / 4) % 16 == ij % 16
  {
    var k := ij * 4 + o;
    assert k / 4 == ij;
    assert k == 64 * (ij / 16) + (4 * (ij % 16) + o);
  }

  lemma {:induction false} PackedPos(pos: nat, o: nat)
    requires pos < 256 && o < 4
    ensures var k := pos * 4 + o; k < TableSize && k / 4 == pos && k % 4 == o
  {
  }

  /** At the bottom of the recursion a call's cell is a single slot. */
  lemma {:induction false} LeafCell(i: nat, j: nat, origO: nat, k: int)
    requires i < 16 && j < 16 && origO < 4 && 0 <= k < TableSize
    ensures InPosBlock(LookupBits, i, j, origO, k) <==> k == (i * 16 + j) * 4 + origO
  {
    SlotFields(k);
    PackedFields(i, j, origO);
  }

  /** And so is its stretch of the curve. */
  lemma {:induction false} LeafStretch(origO: nat, pos: nat, k: int)
    requires origO < 4 && pos < 256 && 0 <= k < TableSize
    ensures InIJBlock(LookupBits, origO, pos, k) <==> k == pos * 4 + origO
  {
    SlotFields(k);
    PackedPos(pos, origO);
  }

  /** What a call at the bottom of the recursion writes is the finished
      entry of each table. */
  lemma {:induction false} LeafEntries(i: nat, j: nat, origO: Bits2, pos: nat, o: Bits2)
    requires i < 16 && j < 16
    requires PosOf(LookupBits, origO, i, j) == Spot(pos, o)
    ensures pos < 256
    ensures PosEntry((i * 16 + j) * 4 + origO) == pos * 4 + o
    ensures IJEntry(pos * 4 + origO) == (i * 16 + j) * 4 + o
  {
    LookupSizes();
    PosOfBound(LookupBits, origO, i, j);
    PackedFields(i, j, origO);
    PackedPos(pos, origO);
    IJOfPosOf(LookupBits, origO, i, j);
  }

  /** The seed call for orientation k % 4 covers slot k of both tables. */
  lemma {:induction false} SeedBlock(k: int)
    requires 0 <= k < TableSize
    ensures InPosBlock(0, 0, 0, k % 4, k) && InIJBlock(0, k % 4, 0, k)
  {
  }

  // ---------------------------------------------------------------------
  // The contents of the tables as values: the finished tables, and a table
  // with the slots of one call (or of its first n calls one level deeper)
  // filled in.

  /** The finished (i, j) -> position table. */
  function PosTable(): (t: seq<int>)
    ensures |t| == TableSize
  {
    seq(TableSize, k requires 0 <= k < TableSize => PosEntry(k))
  }

  /** The finished position -> (i, j) table. */
  function IJTable(): (t: seq<int>)
    ensures |t| == TableSize
  {
    seq(TableSize, k requires 0 <= k < TableSize => IJEntry(k))
  }

  /** Table t with the slots of the depth-`level` cell (i, j) of the seed
      call for orientation origO filled in. */
  function WithCell(level: nat, i: nat, j: nat, origO: nat, t: seq<int>): (r: seq<int>)
    requires level <= LookupBits && |t| == TableSize
    ensures |r| == TableSize
  {
    seq(TableSize, k requires 0 <= k < TableSize =>
      if InPosBlock(level, i, j, origO, k) then PosEntry(k) else t[k])
  }

  /** Table t with the slots of the first n quadrants of that cell, in the
      order a curve of orientation o visits them, filled in. */
  function WithCellChildren(level: nat, i: nat, j: nat, origO: nat, o: Bits2, n: nat, t: seq<int>): (r: seq<int>)
    requires level < LookupBits && |t| == TableSize
    ensures |r| == TableSize
  {
    seq(TableSize, k requires 0 <= k < TableSize =>
      if InPosBlock(level, i, j, origO, k) && PosChild(level, o, k) < n then PosEntry(k) else t[k])
  }

  /** Table t with the slots of the depth-`level` stretch pos of the curve of
      the seed call for orientation origO filled in. */
  function WithStretch(level: nat, origO: nat, pos: nat, t: seq<int>): (r: seq<int>)
    requires level <= LookupBits && |t| == TableSize
    ensures |r| == TableSize
  {
    seq(TableSize, k requires 0 <= k < TableSize =>
      if InIJBlock(level, origO, pos, k) then IJEntry(k) else t[k])
  }

  /** Table t with the slots of the first n quarters of that stretch filled
      in. */
  function WithStretchChildren(level: nat, origO: nat, pos: nat, n: nat, t: seq<int>): (r: seq<int>)
    requires level < LookupBits && |t| == TableSize
    ensures |r| == TableSize
  {
    seq(TableSize, k requires 0 <= k < TableSize =>
      if InIJBlock(level, origO, pos, k) && IJChild(level, k) < n then IJEntry(k) else t[k])
  }

  /** Before the first quadrant nothing of the cell is filled in. */
  lemma {:induction false} CellChildrenNone(level: nat, i: nat, j: nat, origO: nat, o: Bits2, t: seq<int>)
    requires level < LookupBits && |t| == TableSize
    ensures WithCellChildren(level, i, j, origO, o, 0, t) == t
  {
  }

  /** Filling in the idx-th quadrant of a cell, one level deeper, adds it to
      the quadrants already filled in. */
  lemma {:induction false} CellChildStep(level: nat, i: nat, j: nat, origO: nat, o: Bits2, idx: Bits2, t: seq<int>)
    requires level < LookupBits && |t| == TableSize
    ensures var q := PosToIJ(o, idx);
      WithCell(level + 1, 2 * i + q / 2, 2 * j + q % 2, origO, WithCellChildren(level, i, j, origO, o, idx, t))
      == WithCellChildren(level, i, j, origO, o, idx + 1, t)
  {
    var q := PosToIJ(o, idx);
    var a := WithCell(level + 1, 2 * i + q / 2, 2 * j + q % 2, origO, WithCellChildren(level, i, j, origO, o, idx, t));
    var b := WithCellChildren(level, i, j, origO, o, idx + 1, t);
    forall k | 0 <= k < TableSize
      ensures a[k] == b[k]
    {
      PosChildCovers(level, i, j, origO, o, idx, k);
    }
  }

  /** All four quadrants together fill in the whole cell. */
  lemma {:induction false} CellChildrenAll(level: nat, i: nat, j: nat, origO: nat, o: Bits2, t: seq<int>)
    requires level < LookupBits && |t| == TableSize
    ensures WithCellChildren(level, i, j, origO, o, 4, t) == WithCell(level, i, j, origO, t)
  {
  }

  lemma {:induction false} StretchChildrenNone(level: nat, origO: nat, pos: nat, t: seq<int>)
    requires level < LookupBits && |t| == TableSize
    ensures WithStretchChildren(level, origO, pos, 0, t) == t
  {
  }

  lemma {:induction false} StretchChildStep(level: nat, origO: nat, pos: nat, idx: Bits2, t: seq<int>)
    requires level < LookupBits && |t| == TableSize
    ensures WithStretch(level + 1, origO, 4 * pos + idx, WithStretchChildren(level, origO, pos, idx, t))
      == WithStretchChildren(level, origO, pos, idx + 1, t)
  {
    var a := WithStretch(level + 1, origO, 4 * pos + idx, WithStretchChildren(level, origO, pos, idx, t));
    var b := WithStretchChildren(level, origO, pos, idx + 1, t);
    forall k | 0 <= k < TableSize
      ensures a[k] == b[k]
    {
      IJChildCovers(level, origO, pos, idx, k);
    }
  }

  lemma {:induction false} StretchChildrenAll(level: nat, origO: nat, pos: nat, t: seq<int>)
    requires level < LookupBits && |t| == TableSize
    ensures WithStretchChildren(level, origO, pos, 4, t) == WithStretch(level, origO, pos, t)
  {
  }

  /** At the bottom of the recursion, the write into the (i, j) -> position
      table fills in exactly the call's cell. */
  lemma {:induction false} LeafWritePos(i: nat, j: nat, origO: Bits2, pos: nat, o: Bits2, pt: seq<int>)
    requires i < 16 && j < 16 && pos < 256 && |pt| == TableSize
    requires PosEntry((i * 16 + j) * 4 + origO) == pos * 4 + o
    ensures pt[(i * 16 + j) * 4 + origO := pos * 4 + o] == WithCell(LookupBits, i, j, origO, pt)
  {
    var a := pt[(i * 16 + j) * 4 + origO := pos * 4 + o];
    forall k | 0 <= k < TableSize
      ensures a[k] == WithCell(LookupBits, i, j, origO, pt)[k]
    {
      LeafCell(i, j, origO, k);
    }
  }

  /** The same for the write into the position -> (i, j) table. */
  lemma {:induction false} LeafWriteIJ(i: nat, j: nat, origO: Bits2, pos: nat, o: Bits2, it: seq<int>)
    requires i < 16 && j < 16 && pos < 256 && |it| == TableSize
    requires IJEntry(pos * 4 + origO) == (i * 16 + j) * 4 + o
    ensures it[pos * 4 + origO := (i * 16 + j) * 4 + o] == WithStretch(LookupBits, origO, pos, it)
  {
    var b := it[pos * 4 + origO := (i * 16 + j) * 4 + o];
    forall k | 0 <= k < TableSize
      ensures b[k] == WithStretch(LookupBits, origO, pos, it)[k]
    {
      LeafStretch(origO, pos, k);
    }
  }

  /** At the bottom of the recursion, the two writes of a call fill in its
      cell and its stretch. */
  lemma {:induction false} LeafWrites(i: nat, j: nat, origO: Bits2, pos: nat, o: Bits2, pt: seq<int>, it: seq<int>)
    requires i < 16 && j < 16 && |pt| == TableSize && |it| == TableSize
    requires PosOf(LookupBits, origO, i, j) == Spot(pos, o)
    ensures pos < 256
    ensures pt[(i * 16 + j) * 4 + origO := pos * 4 + o] == WithCell(LookupBits, i, j, origO, pt)
    ensures it[pos * 4 + origO := (i * 16 + j) * 4 + o] == WithStretch(LookupBits, origO, pos, it)
  {
    LeafEntries(i, j, origO, pos, o);
    LeafWritePos(i, j, origO, pos, o, pt);
    LeafWriteIJ(i, j, origO, pos, o, it);
  }

  /** The four seed calls, one per starting orientation, together fill in
      every slot of both tables. */
  lemma {:induction false} SeedsFill(pt: seq<int>, it: seq<int>)
    requires |pt| == TableSize && |it| == TableSize
    ensures WithCell(0, 0, 0, 3, WithCell(0, 0, 0, 2, WithCell(0, 0, 0, 1, WithCell(0, 0, 0, 0, pt)))) == PosTable()
    ensures WithStretch(0, 3, 0, WithStretch(0, 2, 0, WithStretch(0, 1, 0, WithStretch(0, 0, 0, it)))) == IJTable()
  {
    forall k | 0 <= k < TableSize
      ensures WithCell(0, 0, 0, 3, WithCell(0, 0, 0, 2, WithCell(0, 0, 0, 1, WithCell(0, 0, 0, 0, pt))))[k] == PosTable()[k]
      ensures WithStretch(0, 3, 0, WithStretch(0, 2, 0, WithStretch(0, 1, 0, WithStretch(0, 0, 0, it))))[k] == IJTable()[k]
    {
      SeedBlock(k);
    }
  }

  // ---------------------------------------------------------------------
  // The tables themselves, built once by the recursive subdivision.

  class LookupTables {
    /** LOOKUP_POS: (((i << 4) + j) << 2) + orientation -> (pos << 2) + orientation'. */
    var posTable: seq<int>
    /** LOOKUP_IJ: (pos << 2) + orientation -> (((i << 4) + j) << 2) + orientation'. */
    var ijTable: seq<int>

    /** Every slot of both tables holds its finished entry. */
    ghost predicate Valid()
      reads this
    {
      posTable == PosTable() && ijTable == IJTable()
    }

    /** Allocates both tables unwritten and runs the four seed calls, one per
        starting orientation. */
    constructor ()
      ensures Valid()
      ensures forall k :: 0 <= k < TableSize ==> posTable[k] != Unwritten && ijTable[k] != Unwritten
    {
      posTable := seq(TableSize, _ => Unwritten);
      ijTable := seq(TableSize, _ => Unwritten);
      new;
      SeedsFill(posTable, ijTable);
      InitCell(0, 0, 0, 0, 0, 0);
      InitCell(0, 0, 0, SwapMask, 0, SwapMask);
      InitCell(0, 0, 0, InvertMask, 0, InvertMask);
      InitCell(0, 0, 0, SwapMask + InvertMask, 0, SwapMask + InvertMask);
    }

    /** _init_lookup_cell: descends from cell (i, j) at depth `level`, whose
        position and orientation on the curve started with orientation origO
        are (pos, orientation), into its four quadrants down to depth
        LookupBits, and fills in the slots of both tables that the cell
        covers, leaving every other slot as it was. */
    method InitCell(level: nat, i: nat, j: nat, origO: Bits2, pos: nat, orientation: Bits2)
      requires |posTable| == TableSize && |ijTable| == TableSize
      requires level <= LookupBits && i < Pow2(level) && j < Pow2(level)
      requires PosOf(level, origO, i, j) == Spot(pos, orientation)
      modifies this
      ensures posTable == WithCell(level, i, j, origO, old(posTable))
      ensures ijTable == WithStretch(level, origO, pos, old(ijTable))
      decreases LookupBits - level, 1
    {
      if level == LookupBits {
        LookupSizes();
        LeafWrites(i, j, origO, pos, orientation, posTable, ijTable);
        var ij := i * 16 + j;
        posTable := posTable[ij * 4 + origO := pos * 4 + orientation];
        ijTable := ijTable[pos * 4 + origO := ij * 4 + orientation];
      } else {
        ghost var pt, it := posTable, ijTable;
        CellChildrenNone(level, i, j, origO, orientation, pt);
        StretchChildrenNone(level, origO, pos, it);
        for index := 0 to 4
          invariant posTable == WithCellChildren(level, i, j, origO, orientation, index, pt)
          invariant ijTable == WithStretchChildren(level, origO, pos, index, it)
        {
          InitQuadrant(level, i, j, origO, pos, orientation, index, pt, it);
        }
        CellChildrenAll(level, i, j, origO, orientation, pt);
        StretchChildrenAll(level, origO, pos, it);
      }
    }

    /** One pass of _init_lookup_cell's loop: descends into the quadrant
        that comes index-th along the curve, with its child position
        4 * pos + index and its orientation turned by the quadrant's
        modifier. */
    method InitQuadrant(level: nat, i: nat, j: nat, origO: Bits2, pos: nat, orientation: Bits2,
                        index: Bits2, ghost pt: seq<int>, ghost it: seq<int>)
      requires |pt| == TableSize && |it| == TableSize
      requires level < LookupBits && i < Pow2(level) && j < Pow2(level)
      requires PosOf(level, origO, i, j) == Spot(pos, orientation)
      requires posTable == WithCellChildren(level, i, j, origO, orientation, index, pt)
      requires ijTable == WithStretchChildren(level, origO, pos, index, it)
      modifies this
      ensures posTable == WithCellChildren(level, i, j, origO, orientation, index + 1, pt)
      ensures ijTable == WithStretchChildren(level, origO, pos, index + 1, it)
      decreases LookupBits - level, 0
    {
      var q := PosToIJ(orientation, index);
      var ci, cj := 2 * i + q / 2, 2 * j + q % 2;
      var cpos, co := 4 * pos + index, Xor2(orientation, PosToOrientation(index));
      ChildArgs(level, origO, i, j, pos, orientation, index, q, ci, cj, cpos, co);
      CellChildStep(level, i, j, origO, orientation, index, pt);
      StretchChildStep(level, origO, pos, index, it);
      InitCell(level + 1, ci, cj, origO, cpos, co);
    }
  }
}
