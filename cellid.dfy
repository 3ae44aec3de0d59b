// A cell identifier: a 64-bit value holding a cube face (bits 61 and up), a
// position along that face's curve, and a level marker, the lowest set bit,
// whose place gives the cell's level of subdivision.  The value is kept in an
// arbitrary-precision integer and every operation goes through the
// constructor, which reduces modulo 2^64 - 1.  Identifiers are immutable
// values; the queries that work step by step (lsb, level, advance, next,
// prev) are methods proved equal to specification functions, and the
// properties the identifier scheme promises are proved about those.
module CellIds {
  import opened Bits

  const MaxLevel: nat := 30
  const NumFaces: nat := 6
  /** 2 * MaxLevel + 1: the face number sits above this many bits. */
  const PosBits: nat := 61
  /** 6 << 61: one past the last position of the last face. */
  const WrapOffset: nat := 0xc000_0000_0000_0000
  /** 0xffffffffffffffff = 2^64 - 1, the modulus the constructor reduces by. */
  const Modulus: nat := 0xffff_ffff_ffff_ffff

  lemma {:induction false} WrapOffsetValue()
    ensures WrapOffset == Shl(NumFaces, PosBits) && Pow2(PosBits) == 0x2000_0000_0000_0000
  {
    ShlMul(NumFaces, PosBits);
    Pow2Values();
  }

  datatype CellId = CellId(id: nat)

  /** What the constructor makes of an arbitrary-precision value v: the
      identifier v modulo 2^64 - 1, the one representative in
      0 .. 2^64 - 2 (NewCellIdMod); a value already in that range is kept as
      it is.  Construct computes it the way the constructor does. */
  function NewCellId(v: int): (c: CellId)
    ensures c.id < Modulus
    ensures 0 <= v < Modulus ==> c.id == v
  {
    CellId(Reduce(v))
  }

  /** The constructor.  When the value's intValue() is negative (bit 31 of
      its two's-complement form is set) 2^64 - 1 is added first; then the
      value is reduced modulo 2^64 - 1 to a remainder that is never
      negative.  Since the amount added is the modulus itself, the test does
      not change the result. */
  method Construct(v: int) returns (c: CellId)
    ensures c == NewCellId(v)
  {
    var w := v;
    if IntValueNegative(w) {
      w := w + (0x1_0000_0000_0000_0000 - 1);
      assert Reduce(v + Modulus) == Reduce(v);
    }
    c := CellId(Reduce(w));
  }

  /** intValue() < 0 on an arbitrary-precision integer: the sign bit of its
      low 32 bits, bit 31 of its two's-complement form, is set. */
  predicate IntValueNegative(v: int)
  {
    ShrInt(v, 31) % 2 == 1
  }

  /** The remainder modulo 2^64 - 1 that is never negative, reached by
      adding or subtracting the modulus until the value lies in range. */
  function Reduce(w: int): (r: nat)
    ensures r < Modulus
    decreases if w < 0 then Modulus - w else w
  {
    if w < 0 then Reduce(w + Modulus)
    else if w < Modulus then w
    else Reduce(w - Modulus)
  }

  /** Reduce is the (Euclidean) remainder modulo 2^64 - 1. */
  lemma {:induction false} ReduceIsMod(w: int)
    ensures Reduce(w) == w % Modulus
    decreases if w < 0 then Modulus - w else w
  {
    if w < 0 {
      ReduceIsMod(w + Modulus);
    } else if w >= Modulus {
      ReduceIsMod(w - Modulus);
    }
  }

  /** The constructor computes v modulo 2^64 - 1. */
  lemma {:induction false} NewCellIdMod(v: int)
    ensures NewCellId(v).id == v % Modulus
  {
    ReduceIsMod(v);
  }

  /** |a - b|. */
  function Distance(a: int, b: int): nat
  {
    if a < b then b - a else a - b
  }

  /** clamp: the number closest to x within min .. max. */
  function Clamp(x: int, min: int, max: int): (r: int)
    ensures min <= max ==> min <= r <= max
    ensures min <= max ==> forall y :: min <= y <= max ==> Distance(r, x) <= Distance(y, x)
  {
    if x < min then min
    else if x > max then max
    else x
  }

  // ---------------------------------------------------------------------
  // The lowest set bit and the level.

  /** lsb: probes bit after bit, from bit 0 up, for the first set one; 0 for
      the identifier 0. */
  method Lsb(c: CellId) returns (r: nat)
    ensures r == LowestSetBit(c.id)
    ensures c.id == 0 ==> r == 0
    ensures c.id != 0 ==> exists t :: r == Pow2(t) && Bit(c.id, t) && Low(c.id, t) == 0
    ensures c.id != 0 ==> BitAnd(c.id, r) != 0
  {
    if c.id == 0 {
      return 0;
    }
    var lsb := 1;
    ghost var k := 0;
    while true
      invariant lsb == Pow2(k) && k <= TrailingZeros(c.id)
      decreases TrailingZeros(c.id) - k
    {
      AndPow2(c.id, k);
      if BitAnd(c.id, lsb) != 0 {
        if k < TrailingZeros(c.id) {
          BelowTrailingZeros(c.id, k);
        }
        return lsb;
      }
      ShlMul(lsb, 1);
      assert Pow2(k + 1) == 2 * Pow2(k);
      lsb := Shl(lsb, 1);
      k := k + 1;
    }
  }

  /** The level a cell identifier encodes: 30 - k when its lowest set bit is
      bit 2k with k <= 15; 15 when that bit is at an odd place or at bit 32
      or above; 0 for the identifier 0. */
  function LevelOf(id: nat): (level: nat)
    ensures level <= MaxLevel
    ensures id != 0 ==> level >= 15
  {
    if id == 0 then 0
    else
      var t := TrailingZeros(id);
      if t % 2 == 0 && t < 32 then MaxLevel - t / 2 else 15
  }

  /** The four masks level tests the lowest set bit against: the even bits
      below 16; the even bits of 0 .. 7 and 16 .. 23; of 0 .. 3, 8 .. 11,
      16 .. 19 and 24 .. 27; and every fourth bit below 32. */
  const LevelMask8: nat := 21845
  const LevelMask4: nat := 5570645
  const LevelMask2: nat := 84215045
  const LevelMask1: nat := 286331153

  /** What the four mask tests add to the level when the lowest set bit is
      bit u of masks m8, m4, m2 and m1. */
  function MaskBits(m8: nat, m4: nat, m2: nat, m1: nat, u: nat): int
  {
    (if Bit(m8, u) then 8 else 0) + (if Bit(m4, u) then 4 else 0)
    + (if Bit(m2, u) then 2 else 0) + (if Bit(m1, u) then 1 else 0)
  }

  /** What the four mask tests add for a lowest set bit at t. */
  function MaskSum(t: nat): int
  {
    MaskBits(LevelMask8, LevelMask4, LevelMask2, LevelMask1, t)
  }

  /** The mask tests count 15 - t / 2 for an even t below 32, and nothing
      otherwise. */
  lemma {:induction false} MaskSumValue(t: nat)
    ensures MaskSum(t) == if t % 2 == 0 && t < 32 then 15 - t / 2 else 0
  {
    if t >= 32 {
      Pow2Values();
      Pow2Monotone(32, t);
      Small(LevelMask8, t);
      Small(LevelMask4, t);
      Small(LevelMask2, t);
      Small(LevelMask1, t);
    } else if t < 8 {
      MaskByte0(t);
    } else if t < 16 {
      MaskSumByte1(t - 8);
    } else if t < 24 {
      MaskSumByte2(t - 16);
    } else {
      MaskSumByte3(t - 24);
    }
  }

  lemma {:induction false} MaskSumByte1(u: nat)
    requires u < 8
    ensures MaskSum(8 + u) == if u % 2 == 0 then 11 - u / 2 else 0
  {
    MaskShift(8, u);
    MaskBytes1();
    MaskByte1(u);
  }

  lemma {:induction false} MaskSumByte2(u: nat)
    requires u < 8
    ensures MaskSum(16 + u) == if u % 2 == 0 then 7 - u / 2 else 0
  {
    MaskShift(16, u);
    MaskBytes2();
    MaskByte2(u);
  }

  lemma {:induction false} MaskSumByte3(u: nat)
    requires u < 8
    ensures MaskSum(24 + u) == if u % 2 == 0 then 3 - u / 2 else 0
  {
    MaskShift(24, u);
    MaskBytes3();
    MaskByte3(u);
  }

  /** Bit n + u of a mask is bit u of the mask shifted right by n. */
  lemma {:induction false} MaskShift(n: nat, u: nat)
    ensures MaskSum(n + u) == MaskBits(Shr(LevelMask8, n), Shr(LevelMask4, n), Shr(LevelMask2, n), Shr(LevelMask1, n), u)
  {
    ShrShr(LevelMask8, n, u);
    ShrShr(LevelMask4, n, u);
    ShrShr(LevelMask2, n, u);
    ShrShr(LevelMask1, n, u);
  }

  /** The masks byte by byte. */
  lemma {:induction false} MaskBytes1()
    ensures Shr(LevelMask8, 8) == 0x55 && Shr(LevelMask4, 8) == 0x5500
    ensures Shr(LevelMask2, 8) == 0x05_0505 && Shr(LevelMask1, 8) == 0x11_1111
  {
    assert Shr(21845, 8) == 0x55;
    assert Shr(5570645, 8) == 0x5500;
    assert Shr(84215045, 8) == 0x05_0505;
    assert Shr(286331153, 8) == 0x11_1111;
  }

  lemma {:induction false} MaskBytes2()
    ensures Shr(LevelMask8, 16) == 0 && Shr(LevelMask4, 16) == 0x55
    ensures Shr(LevelMask2, 16) == 0x0505 && Shr(LevelMask1, 16) == 0x1111
  {
    MaskBytes1();
    MaskNextByte(LevelMask8, 8, 0x55, 0);
    MaskNextByte(LevelMask4, 8, 0x5500, 0x55);
    MaskNextByte(LevelMask2, 8, 0x05_0505, 0x0505);
    MaskNextByte(LevelMask1, 8, 0x11_1111, 0x1111);
  }

  lemma {:induction false} MaskBytes3()
    ensures Shr(LevelMask8, 24) == 0 && Shr(LevelMask4, 24) == 0
    ensures Shr(LevelMask2, 24) == 0x05 && Shr(LevelMask1, 24) == 0x11
  {
    MaskBytes2();
    ThirdBytes();
    MaskNextByte(LevelMask8, 16, 0, 0);
    MaskNextByte(LevelMask4, 16, 0x55, 0);
    MaskNextByte(LevelMask2, 16, 0x0505, 0x05);
    MaskNextByte(LevelMask1, 16, 0x1111, 0x11);
  }

  lemma {:induction false} ThirdBytes()
    ensures Shr(0, 8) == 0 && Shr(0x55, 8) == 0 && Shr(0x0505, 8) == 0x05 && Shr(0x1111, 8) == 0x11
  {
  }

  lemma {:induction false} MaskNextByte(m: nat, n: nat, b: nat, c: nat)
    requires Shr(m, n) == b && Shr(b, 8) == c
    ensures Shr(m, n + 8) == c
  {
    ShrShr(m, n, 8);
  }

  lemma {:induction false} MaskByte0(u: nat)
    requires u < 8
    ensures MaskBits(0x5555, 0x55_0055, 0x0505_0505, 0x1111_1111, u) == if u % 2 == 0 then 15 - u / 2 else 0
  {
    if u == 0 {
    } else if u == 1 {
    } else if u == 2 {
    } else if u == 3 {
    } else if u == 4 {
    } else if u == 5 {
    } else if u == 6 {
    } else {
      assert u == 7;
    }
  }

  lemma {:induction false} MaskByte1(u: nat)
    requires u < 8
    ensures MaskBits(0x55, 0x5500, 0x05_0505, 0x11_1111, u) == if u % 2 == 0 then 11 - u / 2 else 0
  {
    if u == 0 {
    } else if u == 1 {
    } else if u == 2 {
    } else if u == 3 {
    } else if u == 4 {
    } else if u == 5 {
    } else if u == 6 {
    } else {
      assert u == 7;
    }
  }

  lemma {:induction false} MaskByte2(u: nat)
    requires u < 8
    ensures MaskBits(0, 0x55, 0x0505, 0x1111, u) == if u % 2 == 0 then 7 - u / 2 else 0
  {
    if u == 0 {
    } else if u == 1 {
    } else if u == 2 {
    } else if u == 3 {
    } else if u == 4 {
    } else if u == 5 {
    } else if u == 6 {
    } else {
      assert u == 7;
    }
  }

  lemma {:induction false} MaskByte3(u: nat)
    requires u < 8
    ensures MaskBits(0, 0, 0x05, 0x11, u) == if u % 2 == 0 then 3 - u / 2 else 0
  {
    if u == 0 {
    } else if u == 1 {
    } else if u == 2 {
    } else if u == 3 {
    } else if u == 4 {
    } else if u == 5 {
    } else if u == 6 {
    } else {
      assert u == 7;
    }
  }

  /** Testing 2^t against a mask tests bit t of the mask. */
  lemma {:induction false} MaskTest(t: nat, mask: nat)
    ensures BitAnd(Pow2(t), mask) != 0 <==> Bit(mask, t)
  {
    AndSymmetric(Pow2(t), mask);
    AndPow2(mask, t);
  }

  /** level: starts from -1, adds 16 for a non-zero identifier, isolates the
      lowest set bit (x & -x), adds 8, 4, 2 and 1 for each mask it meets,
      and clamps the sum to 0 .. 30. */
  method Level(c: CellId) returns (level: nat)
    ensures level == LevelOf(c.id)
  {
    var x := c.id;
    var l := -1;
    if x != 0 {
      l := l + 16;
    } else {
      x := Shr(x, 32);
    }
    x := LowestSetBit(x);
    ghost var t := if c.id == 0 then 0 else TrailingZeros(c.id);
    if c.id != 0 {
      MaskTest(t, LevelMask8);
      MaskTest(t, LevelMask4);
      MaskTest(t, LevelMask2);
      MaskTest(t, LevelMask1);
      MaskSumValue(t);
    }
    if BitAnd(x, LevelMask8) != 0 {
      l := l + 8;
    }
    if BitAnd(x, LevelMask4) != 0 {
      l := l + 4;
    }
    if BitAnd(x, LevelMask2) != 0 {
      l := l + 2;
    }
    if BitAnd(x, LevelMask1) != 0 {
      l := l + 1;
    }
    level := Max(Min(l, MaxLevel), 0);
  }

  function Min(a: int, b: int): int
  {
    if a < b then a else b
  }

  /** Math.max of two integers, as a natural number when one of them is. */
  function Max(a: int, b: nat): nat
  {
    if a > b then a else b
  }

  // ---------------------------------------------------------------------
  // Face, level markers and parents.

  /** face: the bits above the 61 position bits. */
  function Face(c: CellId): nat
  {
    Shr(c.id, PosBits)
  }

  /** An identifier lies in its face's block of 2^61 values. */
  lemma {:induction false} FaceRange(c: CellId)
    ensures Shl(Face(c), PosBits) <= c.id < Shl(Face(c) + 1, PosBits)
  {
    ShrRange(c.id, PosBits);
  }

  /** An identifier built as f * 2^61 plus a position below 2^61 has face f. */
  lemma {:induction false} FaceOf(f: nat, pos: nat)
    requires pos < Pow2(PosBits)
    ensures Face(CellId(Shl(f, PosBits) + pos)) == f
  {
    SplitUnique(f, pos, PosBits);
  }

  /** Identifiers below WRAP_OFFSET lie on one of the six faces. */
  lemma {:induction false} FaceBelowWrap(c: CellId)
    requires c.id < WrapOffset
    ensures Face(c) < NumFaces
  {
    FaceRange(c);
    WrapOffsetValue();
    if Face(c) >= NumFaces {
      ShlMonotone(NumFaces, Face(c), PosBits);
      assert false;
    }
  }

  /** The place of the level marker of a cell at the given level. */
  function MarkerBit(level: nat): nat
    requires level <= MaxLevel
  {
    2 * (MaxLevel - level)
  }

  /** lsb_for_level: 1 << 2 * (30 - level), the level marker of a cell at
      that level. */
  function LsbForLevel(level: nat): (r: nat)
    requires level <= MaxLevel
    ensures r == Pow2(MarkerBit(level))
  {
    ShlOne(MarkerBit(level));
    Shl(1, MarkerBit(level))
  }

  /** The marker of levels 15 .. 30 reads back as that level. */
  lemma {:induction false} LsbForLevelLevel(level: nat)
    requires 15 <= level <= MaxLevel
    ensures LevelOf(LsbForLevel(level)) == level
  {
    var m := MarkerBit(level);
    ShlShr(1, m);
    ShlOne(m);
    LevelOfMarker(Pow2(m), level);
  }

  /** A value whose lowest set bit is the marker of a level in 15 .. 30 has
      that level. */
  lemma {:induction false} LevelOfMarker(x: nat, level: nat)
    requires 15 <= level <= MaxLevel
    requires Bit(x, MarkerBit(level)) && Low(x, MarkerBit(level)) == 0
    ensures LevelOf(x) == level
  {
    TrailingZerosExact(x, MarkerBit(level));
  }

  /** x & -(1 << m): x with its low m bits cleared. */
  function ClearLow(x: nat, m: nat): nat
  {
    Shl(Shr(x, m), m)
  }

  /** parent: clears the bits below the marker of the given level and sets
      the marker; when the identifier itself reads as level 30 it then
      subtracts 1. */
  function ParentOf(c: CellId, level: nat): (p: CellId)
    requires level <= MaxLevel
    ensures c.id < WrapOffset ==>
      p.id == Marked(c.id, MarkerBit(level)) - (if LevelOf(c.id) == MaxLevel then 1 else 0)
    ensures c.id < WrapOffset ==> p.id < WrapOffset
  {
    SetMarker(c.id, MarkerBit(level));
    MarkedBelowWrap(c.id, MarkerBit(level));
    var newLsb := LsbForLevel(level);
    var parent := BitOr(ClearLow(c.id, MarkerBit(level)), newLsb);
    NewCellId(if LevelOf(c.id) == MaxLevel then parent - 1 else parent)
  }

  /** x with its bits above m + 1 kept, bit m set and nothing below. */
  function Marked(x: nat, m: nat): nat
  {
    Shl(Shr(x, m + 1), m + 1) + Pow2(m)
  }

  /** A marked value stays below WRAP_OFFSET when x does, as WRAP_OFFSET is a
      multiple of 2^(m + 1). */
  lemma {:induction false} MarkedBelowWrap(x: nat, m: nat)
    requires m < PosBits
    ensures x < WrapOffset ==> Marked(x, m) < WrapOffset
  {
    if x >= WrapOffset {
      return;
    }
    var h := Shr(x, m + 1);
    var b := Shl(NumFaces, PosBits - (m + 1));
    WrapOffsetValue();
    ShlShl(NumFaces, PosBits - (m + 1), m + 1);
    Split(x, m + 1);
    if h >= b {
      ShlMonotone(b, h, m + 1);
      assert false;
    }
    ShlMonotone(h + 1, b, m + 1);
    ShlAdd(h, 1, m + 1);
    ShlOne(m + 1);
    assert Pow2(m + 1) == 2 * Pow2(m);
  }

  /** For an identifier below WRAP_OFFSET that does not read as level 30,
      parent(level) keeps every bit above 2 * (30 - level), sets that bit,
      clears every bit below it, and stays below WRAP_OFFSET. */
  lemma {:induction false} ParentBits(c: CellId, level: nat)
    requires level <= MaxLevel && c.id < WrapOffset && LevelOf(c.id) != MaxLevel
    ensures Shr(ParentOf(c, level).id, MarkerBit(level) + 1) == Shr(c.id, MarkerBit(level) + 1)
    ensures Bit(ParentOf(c, level).id, MarkerBit(level))
    ensures Low(ParentOf(c, level).id, MarkerBit(level)) == 0
    ensures ParentOf(c, level).id < WrapOffset
  {
    var m := MarkerBit(level);
    ParentMarked(ParentOf(c, level).id, c.id, m);
  }

  /** The bits of a value equal to Marked(x, m). */
  lemma {:induction false} ParentMarked(p: nat, x: nat, m: nat)
    requires p == Marked(x, m)
    ensures Shr(p, m + 1) == Shr(x, m + 1) && Bit(p, m) && Low(p, m) == 0
  {
    MarkerParts(Shr(x, m + 1), m);
  }

  /** parent(level) of such an identifier has level `level`, for the levels
      15 .. 30 that the level query can report. */
  lemma {:induction false} ParentLevel(c: CellId, level: nat)
    requires 15 <= level <= MaxLevel && c.id < WrapOffset && LevelOf(c.id) != MaxLevel
    ensures LevelOf(ParentOf(c, level).id) == level
  {
    ParentBits(c, level);
    LevelOfMarker(ParentOf(c, level).id, level);
  }

  /** Below level 30, taking the parent twice is taking it once. */
  lemma {:induction false} ParentIdempotent(c: CellId, level: nat)
    requires level < MaxLevel && c.id < WrapOffset && LevelOf(c.id) != MaxLevel
    ensures ParentOf(ParentOf(c, level), level) == ParentOf(c, level)
  {
    var p := ParentOf(c, level);
    var m := MarkerBit(level);
    ParentBits(c, level);
    TrailingZerosExact(p.id, m);
    ParentBits(p, level);
    SameParts(ParentOf(p, level).id, p.id, m);
  }

  /** For an identifier that reads as level 30 (an odd one), parent(level)
      lands one below the marked value: parent(30) is the identifier minus 1,
      so taking parent(30) twice does not give the same cell. */
  lemma {:induction false} ParentOfLeaf(c: CellId, level: nat)
    requires level <= MaxLevel && c.id < WrapOffset && LevelOf(c.id) == MaxLevel
    ensures ParentOf(c, level).id == Marked(c.id, MarkerBit(level)) - 1
    ensures level == MaxLevel ==> ParentOf(c, level).id == c.id - 1
  {
    if level == MaxLevel {
      Split(c.id, 1);
      LowOne(c.id);
    }
  }

  /** A cell of level 15 .. 29 is its own parent at its own level: its
      marker is already the one parent sets and nothing lies below it. */
  lemma {:induction false} ParentOwnLevel(c: CellId)
    requires 0 < c.id < WrapOffset
    requires TrailingZeros(c.id) % 2 == 0 && 2 <= TrailingZeros(c.id) <= 30
    ensures ParentOf(c, LevelOf(c.id)) == c
  {
    var level := LevelOf(c.id);
    var m := MarkerBit(level);
    assert m == TrailingZeros(c.id);
    ParentBits(c, level);
    SameParts(ParentOf(c, level).id, c.id, m);
  }

  // ---------------------------------------------------------------------
  // Stepping along the curve.

  /** 2 * (30 - level) + 1: the place of the lowest bit of a curve position
      at that level, one above the level marker. */
  function StepShift(level: nat): nat
    requires level <= MaxLevel
  {
    MarkerBit(level) + 1
  }

  /** The step count advance moves by: a negative count is raised to
      -(id >> s), a positive one lowered to (WRAP_OFFSET + lsb - id) >> s. */
  function AdvanceSteps(id: nat, steps: int): int
  {
    var s := StepShift(LevelOf(id));
    if steps < 0 then
      var minSteps := -(Shr(id, s) as int);
      if steps < minSteps then minSteps else steps
    else
      var maxSteps := ShrInt(WrapOffset + LowestSetBit(id) - id, s);
      if steps > maxSteps then maxSteps else steps
  }

  /** The value advance hands to the constructor: id plus the clamped step
      count shifted to the position bits of the identifier's level. */
  function Advanced(id: nat, steps: int): int
  {
    id + Shl(AdvanceSteps(id, steps), StepShift(LevelOf(id)))
  }

  /** advance: zero steps give the identifier back; otherwise the clamped
      steps move it along the curve at its own level. */
  function AdvanceOf(c: CellId, steps: int): CellId
  {
    if steps == 0 then c else NewCellId(Advanced(c.id, steps))
  }

  method Advance(c: CellId, steps: int) returns (r: CellId)
    ensures r == AdvanceOf(c, steps)
  {
    if steps == 0 {
      return c;
    }
    var n := steps;
    var level := Level(c);
    var stepShift := 2 * (MaxLevel - level) + 1;
    assert stepShift == StepShift(LevelOf(c.id));
    if n < 0 {
      var minSteps := -(Shr(c.id, stepShift) as int);
      if n < minSteps {
        n := minSteps;
      }
    } else {
      var lsb := Lsb(c);
      var maxSteps := ShrInt(WrapOffset + lsb - c.id, stepShift);
      if n > maxSteps {
        n := maxSteps;
      }
    }
    assert n == AdvanceSteps(c.id, steps);
    r := Construct(c.id + Shl(n, stepShift));
  }

  /** advance never goes below 0 nor, going forward, past WRAP_OFFSET + lsb;
      going back it does not pass the identifier; it keeps the low s bits,
      which hold the level marker; and steps within the clamp bounds are
      taken as they are. */
  lemma {:induction false} AdvanceBounds(c: CellId, steps: int)
    ensures 0 <= Advanced(c.id, steps)
    ensures steps <= 0 ==> Advanced(c.id, steps) <= c.id
    ensures steps >= 0 ==> c.id <= Advanced(c.id, steps) || AdvanceSteps(c.id, steps) < 0
    ensures steps >= 0 ==> Advanced(c.id, steps) <= WrapOffset + LowestSetBit(c.id) || steps == 0
    ensures Low(Advanced(c.id, steps), StepShift(LevelOf(c.id))) == Low(c.id, StepShift(LevelOf(c.id)))
    ensures -(Shr(c.id, StepShift(LevelOf(c.id))) as int) <= steps
              <= ShrInt(WrapOffset + LowestSetBit(c.id) - c.id, StepShift(LevelOf(c.id)))
            ==> Advanced(c.id, steps) == c.id + Shl(steps, StepShift(LevelOf(c.id)))
  {
    var s, lsb := StepShift(LevelOf(c.id)), LowestSetBit(c.id);
    var k := AdvanceSteps(c.id, steps);
    AdvancedIs(c.id, steps, s, k);
    ClampedBounds(c.id, steps, s, lsb, k);
  }

  /** For an identifier whose marker lies below bit 62 (every cell's marker
      is at bit 60 or below) the constructor keeps advance's value as it
      is, so advance's result itself is at least 0, does not pass the
      identifier going back, does not pass WRAP_OFFSET + lsb going forward,
      and keeps the low s bits, which hold the level marker. */
  lemma {:induction false} AdvanceResultBounds(c: CellId, steps: int)
    requires c.id < Modulus && LowestSetBit(c.id) < Pow2(62)
    ensures steps != 0 ==> AdvanceOf(c, steps).id == Advanced(c.id, steps)
    ensures steps <= 0 ==> AdvanceOf(c, steps).id <= c.id
    ensures steps > 0 ==> c.id <= AdvanceOf(c, steps).id || AdvanceSteps(c.id, steps) < 0
    ensures steps > 0 ==> AdvanceOf(c, steps).id <= WrapOffset + LowestSetBit(c.id)
    ensures Low(AdvanceOf(c, steps).id, StepShift(LevelOf(c.id))) == Low(c.id, StepShift(LevelOf(c.id)))
  {
    if steps != 0 {
      AdvanceBounds(c, steps);
      AdvanceUnreduced(c, steps, Advanced(c.id, steps), LowestSetBit(c.id));
    }
  }

  /** With a marker below bit 62 the value advance computes stays below
      2^64 - 1. */
  lemma {:induction false} AdvanceUnreduced(c: CellId, steps: int, a: int, lsb: nat)
    requires steps != 0 && c.id < Modulus && lsb == LowestSetBit(c.id) && lsb < Pow2(62)
    requires a == Advanced(c.id, steps) && 0 <= a
    requires steps <= 0 ==> a <= c.id
    requires steps >= 0 ==> a <= WrapOffset + lsb
    ensures AdvanceOf(c, steps) == CellId(a)
  {
    Pow2Values();
    assert Pow2(62) == 2 * Pow2(61);
    if c.id > 0 {
      var t := TrailingZeros(c.id);
      if t >= 62 {
        Pow2Monotone(62, t);
      } else {
        Pow2Monotone(t, 61);
      }
    }
    assert a < Modulus;
  }

  /** The bounds of AdvanceBounds, on the clamped count k. */
  lemma {:induction false} ClampedBounds(id: nat, steps: int, s: nat, lsb: nat, k: int)
    requires s == StepShift(LevelOf(id)) && lsb == LowestSetBit(id)
    requires k == AdvanceSteps(id, steps)
    ensures 0 <= id + Shl(k, s)
    ensures steps <= 0 ==> id + Shl(k, s) <= id
    ensures steps >= 0 ==> id <= id + Shl(k, s) || k < 0
    ensures steps >= 0 ==> id + Shl(k, s) <= WrapOffset + lsb || steps == 0
    ensures Low(id + Shl(k, s), s) == Low(id, s)
    ensures -(Shr(id, s) as int) <= steps <= ShrInt(WrapOffset + lsb - id, s) ==> k == steps
  {
    if steps < 0 {
      assert -(Shr(id, s) as int) <= k <= 0;
      AdvanceBack(id, k, s);
    } else {
      var m := ShrInt(WrapOffset + lsb - id, s);
      assert k <= m && (k >= 0 || k == m);
      AdvanceForward(id, lsb, k, s);
    }
    LowShift(id, k, s);
  }

  lemma {:induction false} AdvanceForward(id: nat, lsb: nat, k: int, s: nat)
    requires s <= PosBits && k <= ShrInt(WrapOffset + lsb - id, s)
    requires k >= 0 || k == ShrInt(WrapOffset + lsb - id, s)
    ensures 0 <= id + Shl(k, s) <= WrapOffset + lsb
    ensures k >= 0 ==> id <= id + Shl(k, s)
  {
    var d := WrapOffset + lsb - id;
    ShrIntBounds(d, s);
    ShlMonotone(k, ShrInt(d, s), s);
    WrapOffsetValue();
    Pow2Monotone(s, PosBits);
  }

  lemma {:induction false} AdvanceBack(id: nat, k: int, s: nat)
    requires -(Shr(id, s) as int) <= k <= 0
    ensures 0 <= id + Shl(k, s) <= id
  {
    Split(id, s);
    ShlMonotone(-(Shr(id, s) as int), k, s);
    ShlNegate(Shr(id, s), s);
  }

  /** An identifier with a set bit among its low 31 bits keeps its level
      marker among the low 2 * (30 - level) + 1 bits. */
  lemma {:induction false} MarkerInShift(x: nat)
    requires x > 0 && TrailingZeros(x) < 31
    ensures TrailingZeros(x) < StepShift(LevelOf(x))
    ensures Low(x, StepShift(LevelOf(x))) != 0
  {
    if Low(x, StepShift(LevelOf(x))) == 0 {
      TrailingZerosAtLeast(x, StepShift(LevelOf(x)));
      assert false;
    }
  }

  /** A value that agrees with such an identifier on those low bits has its
      level. */
  lemma {:induction false} SameLevel(x: nat, y: nat)
    requires x > 0 && TrailingZeros(x) < 31
    requires Low(y, StepShift(LevelOf(x))) == Low(x, StepShift(LevelOf(x)))
    ensures y > 0 && TrailingZeros(y) == TrailingZeros(x) && LevelOf(y) == LevelOf(x)
  {
    var s := StepShift(LevelOf(x));
    MarkerInShift(x);
    Split(y, s);
    TrailingZerosAgree(x, y, s);
  }

  /** A positive value whose low 31 bits are clear reads as level 15: its
      lowest set bit is at bit 31, an odd place, or at bit 32 or above,
      where the 32-bit masks see nothing. */
  lemma {:induction false} HighMarkerLevel(x: nat)
    requires x > 0 && Low(x, 31) == 0
    ensures TrailingZeros(x) >= 31 && LevelOf(x) == 15
  {
    TrailingZerosAtLeast(x, 31);
  }

  /** A positive value that agrees with a positive identifier on the low s
      bits, s being the identifier's step shift, reads as the same level;
      when the marker lies in the low 31 bits it is the same marker.  With
      the marker at bit 31 or above, both read as level 15. */
  lemma {:induction false} KeepsLevel(x: nat, y: nat)
    requires x > 0 && y > 0
    requires Low(y, StepShift(LevelOf(x))) == Low(x, StepShift(LevelOf(x)))
    ensures LevelOf(y) == LevelOf(x)
    ensures TrailingZeros(x) < 31 ==> TrailingZeros(y) == TrailingZeros(x)
  {
    if TrailingZeros(x) < 31 {
      SameLevel(x, y);
    } else {
      var t := TrailingZeros(x);
      var u := t - 31;
      assert LevelOf(x) == 15 && StepShift(15) == 31 && 31 + u == t;
      LowLow(x, 31, u);
      LowOfZero(31);
      HighMarkerLevel(y);
    }
  }

  /** advance keeps the level of an identifier unless it reaches 0 (which a
      marker at bit 31 or above allows, and one in the low 31 bits does not)
      or the reduction modulo 2^64 - 1 applies. */
  lemma {:induction false} AdvanceLevel(c: CellId, steps: int)
    requires c.id > 0 && Advanced(c.id, steps) < Modulus
    ensures Advanced(c.id, steps) > 0 ==> LevelOf(AdvanceOf(c, steps).id) == LevelOf(c.id)
    ensures TrailingZeros(c.id) < 31 ==> Advanced(c.id, steps) > 0
  {
    AdvanceBounds(c, steps);
    var a := Advanced(c.id, steps);
    if TrailingZeros(c.id) < 31 {
      MarkerInShift(c.id);
      LowOfZero(StepShift(LevelOf(c.id)));
    }
    if a > 0 {
      KeepsLevel(c.id, a);
    }
  }

  /** JavaScript's % on integers: what is left of a after taking b away
      from it, or adding b to it, as often as that does not pass 0; the
      remainder has the sign of the dividend (TruncRemIsMod). */
  function TruncRem(a: int, b: int): (r: int)
    requires b > 0
    ensures -b < r < b
    ensures a >= 0 ==> 0 <= r
    ensures a <= 0 ==> r <= 0
    ensures -b < a < b ==> r == a
    decreases if a < 0 then -a else a
  {
    if a >= b then TruncRem(a - b, b)
    else if a <= -b then TruncRem(a + b, b)
    else a
  }

  /** TruncRem truncates toward zero: it is the Euclidean remainder of |a|
      with the sign of a. */
  lemma {:induction false} TruncRemIsMod(a: int, b: int)
    requires b > 0
    ensures TruncRem(a, b) == if a >= 0 then a % b else -((-a) % b)
    decreases if a < 0 then -a else a
  {
    if a >= b {
      TruncRemIsMod(a - b, b);
      ModSub(a, b);
    } else if a <= -b {
      TruncRemIsMod(a + b, b);
      ModSub(-a, b);
      if a + b == 0 {
        ModUnique(0, b, 0, 0);
      }
    } else if a >= 0 {
      ModUnique(a, b, 0, a);
    } else {
      ModUnique(-a, b, 0, -a);
    }
  }

  /** Taking b away does not change the remainder modulo b. */
  lemma {:induction false} ModSub(a: int, b: int)
    requires b > 0
    ensures (a - b) % b == a % b
  {
    var q, r := a / b, a % b;
    assert a - b == (q - 1) * b + r;
    ModUnique(a - b, b, q - 1, r);
  }

  /** A remainder in 0 .. b - 1 that leaves a multiple of b is x % b. */
  lemma {:induction false} ModUnique(x: int, b: int, q: int, r: int)
    requires b > 0 && x == q * b + r && 0 <= r < b
    ensures x % b == r
  {
    var q2, r2 := x / b, x % b;
    var d := q - q2;
    assert d * b == r2 - r by {
      assert x == q2 * b + r2;
      assert q * b - q2 * b == d * b;
    }
    if d >= 1 {
      MulAtLeast(d, b);
    }
    if d <= -1 {
      MulAtLeast(-d, b);
    }
    assert d == 0;
  }

  lemma {:induction false} MulAtLeast(k: int, b: int)
    requires k >= 1 && b > 0
    ensures k * b >= b
  {
    assert k * b == (k - 1) * b + b;
    assert (k - 1) * b >= 0;
  }

  /** The step count advance_wrap moves by.  Counts within -(id >> s) ..
      (WRAP_OFFSET - id) >> s are kept; one past either end is reduced
      modulo `wrap` and, if still out of range, moved by one `wrap` the
      other way. */
  function AdvanceWrapSteps(id: nat, s: nat, steps: int, wrap: int): int
    requires wrap > 0
  {
    if steps < 0 then
      var minSteps := -(Shr(id, s) as int);
      if steps < minSteps then
        var t := TruncRem(steps, wrap);
        if t < minSteps then t + wrap else t
      else steps
    else
      var maxSteps := ShrInt(WrapOffset - id, s);
      if steps > maxSteps then
        var t := TruncRem(steps, wrap);
        if t > maxSteps then t - wrap else t
      else steps
  }

  /** advance_wrap: like advance, but past either end of the curve it wraps
      around by `wrap` steps instead of stopping. */
  function AdvanceWrapOf(c: CellId, steps: int, wrap: int): CellId
    requires wrap > 0
  {
    if steps == 0 then c
    else NewCellId(c.id + Shl(AdvanceWrapSteps(c.id, StepShift(LevelOf(c.id)), steps, wrap), StepShift(LevelOf(c.id))))
  }

  method AdvanceWrap(c: CellId, steps: int, wrap: int) returns (r: CellId)
    requires wrap > 0
    ensures r == AdvanceWrapOf(c, steps, wrap)
  {
    if steps == 0 {
      return c;
    }
    var n := steps;
    var level := Level(c);
    var shift := 2 * (MaxLevel - level) + 1;
    assert shift == StepShift(LevelOf(c.id));
    if n < 0 {
      var min := -(Shr(c.id, shift) as int);
      if n < min {
        n := TruncRem(n, wrap);
        if n < min {
          n := n + wrap;
        }
      }
    } else {
      var max := ShrInt(WrapOffset - c.id, shift);
      if n > max {
        n := TruncRem(n, wrap);
        if n > max {
          n := n - wrap;
        }
      }
    }
    assert n == AdvanceWrapSteps(c.id, shift, steps, wrap);
    r := Construct(c.id + Shl(n, shift));
  }

  /** Within the range where it does not wrap, advance_wrap takes the same
      step as advance. */
  lemma {:induction false} AdvanceWrapInRange(c: CellId, steps: int, wrap: int)
    requires wrap > 0
    requires -(Shr(c.id, StepShift(LevelOf(c.id))) as int) <= steps <= ShrInt(WrapOffset - c.id, StepShift(LevelOf(c.id)))
    ensures AdvanceWrapOf(c, steps, wrap) == AdvanceOf(c, steps)
  {
    if steps != 0 {
      var s := StepShift(LevelOf(c.id));
      InRangeStep(c, steps, wrap, s, c.id + Shl(steps, s));
    }
  }

  /** Within advance_wrap's bounds, advance and advance_wrap both hand
      a = id + (steps << s) to the constructor. */
  lemma {:induction false} InRangeStep(c: CellId, steps: int, wrap: int, s: nat, a: int)
    requires wrap > 0 && steps != 0 && s == StepShift(LevelOf(c.id))
    requires -(Shr(c.id, s) as int) <= steps <= ShrInt(WrapOffset - c.id, s)
    requires a == c.id + Shl(steps, s)
    ensures AdvanceWrapOf(c, steps, wrap) == NewCellId(a)
    ensures AdvanceOf(c, steps) == NewCellId(a)
  {
    InRangeWrapStep(c, steps, wrap, s, a);
    InRangePlainStep(c, steps, s, LowestSetBit(c.id), a);
  }

  /** Within advance_wrap's bounds, advance_wrap hands a = id + (steps << s)
      to the constructor, */
  lemma {:induction false} InRangeWrapStep(c: CellId, steps: int, wrap: int, s: nat, a: int)
    requires wrap > 0 && steps != 0 && s == StepShift(LevelOf(c.id))
    requires -(Shr(c.id, s) as int) <= steps <= ShrInt(WrapOffset - c.id, s)
    requires a == c.id + Shl(steps, s)
    ensures AdvanceWrapOf(c, steps, wrap) == NewCellId(a)
  {
    WrapStepsKept(c.id, s, steps, wrap, Shr(c.id, s), ShrInt(WrapOffset - c.id, s));
    AdvanceWrapOfStep(c, steps, wrap, s, steps);
  }

  /** and so does advance, whose bounds are wider. */
  lemma {:induction false} InRangePlainStep(c: CellId, steps: int, s: nat, lsb: nat, a: int)
    requires steps != 0 && s == StepShift(LevelOf(c.id)) && lsb == LowestSetBit(c.id)
    requires -(Shr(c.id, s) as int) <= steps <= ShrInt(WrapOffset - c.id, s)
    requires a == c.id + Shl(steps, s)
    ensures AdvanceOf(c, steps) == NewCellId(a)
  {
    ShrIntMonotone(WrapOffset - c.id, WrapOffset + lsb - c.id, s);
    AdvanceStepsKept(c.id, steps, s, lsb);
    AdvancedIs(c.id, steps, s, steps);
    AdvanceOfStep(c, steps, a);
  }

  lemma {:induction false} AdvanceOfStep(c: CellId, steps: int, a: int)
    requires steps != 0 && a == Advanced(c.id, steps)
    ensures AdvanceOf(c, steps) == NewCellId(a)
  {
  }

  /** A step count within advance_wrap's bounds is taken as it is. */
  lemma {:induction false} WrapStepsKept(id: nat, s: nat, steps: int, wrap: int, lo: nat, hi: int)
    requires wrap > 0 && lo == Shr(id, s) && hi == ShrInt(WrapOffset - id, s)
    requires -(lo as int) <= steps <= hi
    ensures AdvanceWrapSteps(id, s, steps, wrap) == steps
  {
  }

  /** advance hands id + (k << s) to the constructor, k being the clamped
      count. */
  lemma {:induction false} AdvancedIs(id: nat, steps: int, s: nat, k: int)
    requires s == StepShift(LevelOf(id)) && k == AdvanceSteps(id, steps)
    ensures Advanced(id, steps) == id + Shl(k, s)
  {
  }

  /** A step count within advance's clamp bounds is taken as it is. */
  lemma {:induction false} AdvanceStepsKept(id: nat, steps: int, s: nat, lsb: nat)
    requires s == StepShift(LevelOf(id)) && lsb == LowestSetBit(id)
    requires -(Shr(id, s) as int) <= steps <= ShrInt(WrapOffset + lsb - id, s)
    ensures AdvanceSteps(id, steps) == steps
  {
  }

  /** With the wrap modulus that WRAP_OFFSET >> s is meant to be, advance_wrap
      keeps an identifier below WRAP_OFFSET within 0 .. WRAP_OFFSET. */
  lemma {:induction false} AdvanceWrapBounds(c: CellId, steps: int)
    requires c.id < WrapOffset
    ensures Shr(WrapOffset, StepShift(LevelOf(c.id))) > 0
    ensures AdvanceWrapOf(c, steps, Shr(WrapOffset, StepShift(LevelOf(c.id)))).id <= WrapOffset
  {
    var s := StepShift(LevelOf(c.id));
    var w := Shr(WrapOffset, s);
    WrapStepsBounds(c.id, s, steps);
    if steps != 0 {
    }
  }

  /** A step past either end of the curve, reduced by the intended wrap
      modulus, lands inside 0 .. WRAP_OFFSET. */
  lemma {:induction false} WrapStepsBounds(id: nat, s: nat, steps: int)
    requires id < WrapOffset && s <= PosBits
    ensures Shr(WrapOffset, s) > 0
    ensures 0 <= id + Shl(AdvanceWrapSteps(id, s, steps, Shr(WrapOffset, s)), s) <= WrapOffset
  {
    var w := Shr(WrapOffset, s);
    WrapModulus(s, w);
    if steps < 0 {
      WrapStepsBelow(id, s, steps, w, AdvanceWrapSteps(id, s, steps, w));
    } else {
      WrapStepsAhead(id, s, steps, w, AdvanceWrapSteps(id, s, steps, w));
    }
  }

  /** WRAP_OFFSET >> s, shifted back, is WRAP_OFFSET again. */
  lemma {:induction false} WrapModulus(s: nat, w: nat)
    requires s <= PosBits && w == Shr(WrapOffset, s)
    ensures w > 0 && Shl(w, s) == WrapOffset
  {
    WrapOffsetValue();
    ShlShl(NumFaces, PosBits - s, s);
    ShlShr(Shl(NumFaces, PosBits - s), s);
  }

  /** WrapStepsBounds for a negative step count. */
  lemma {:induction false} WrapStepsBelow(id: nat, s: nat, steps: int, w: nat, k: int)
    requires id < WrapOffset && w > 0 && Shl(w, s) == WrapOffset
    requires steps < 0 && k == AdvanceWrapSteps(id, s, steps, w)
    ensures 0 <= id + Shl(k, s) <= WrapOffset
  {
    var min := -(Shr(id, s) as int);
    if steps < min {
      var t := TruncRem(steps, w);
      if t < min {
        WrapUnder(id, s, w, t);
      } else {
        AdvanceBack(id, t, s);
      }
    } else {
      AdvanceBack(id, steps, s);
    }
  }

  /** WrapStepsBounds for a step count of 0 or more. */
  lemma {:induction false} WrapStepsAhead(id: nat, s: nat, steps: int, w: nat, k: int)
    requires id < WrapOffset && w > 0 && Shl(w, s) == WrapOffset
    requires steps >= 0 && k == AdvanceWrapSteps(id, s, steps, w)
    ensures 0 <= id + Shl(k, s) <= WrapOffset
  {
    var max := ShrInt(WrapOffset - id, s);
    if steps > max {
      var t := TruncRem(steps, w);
      if t > max {
        WrapOver(id, s, w, t);
      } else {
        StayForward(id, s, t);
      }
    } else {
      StayForward(id, s, steps);
    }
  }

  /** A step count below -(id >> s), but above -wrap, moved up by wrap. */
  lemma {:induction false} WrapUnder(id: nat, s: nat, w: nat, t: int)
    requires Shl(w, s) == WrapOffset && -(w as int) < t < -(Shr(id, s) as int)
    ensures 0 <= id + Shl(t + w, s) <= WrapOffset
  {
    var q := Shr(id, s);
    Split(id, s);
    ShlAdd(t, w, s);
    ShlStrict(-(w as int), t, s);
    ShlNegate(w, s);
    ShlMonotone(t, -(q as int) - 1, s);
    ShlAdd(-(q as int), -1, s);
    ShlNegate(q, s);
    ShlNegate(1, s);
    ShlOne(s);
  }

  /** A step count within 0 .. (WRAP_OFFSET - id) >> s. */
  lemma {:induction false} StayForward(id: nat, s: nat, k: int)
    requires id <= WrapOffset && 0 <= k <= ShrInt(WrapOffset - id, s)
    ensures 0 <= id + Shl(k, s) <= WrapOffset
  {
    ShrIntBounds(WrapOffset - id, s);
    ShlMonotone(k, ShrInt(WrapOffset - id, s), s);
  }

  /** A step count above (WRAP_OFFSET - id) >> s, but below wrap, moved down
      by wrap. */
  lemma {:induction false} WrapOver(id: nat, s: nat, w: nat, t: int)
    requires id <= WrapOffset && Shl(w, s) == WrapOffset && ShrInt(WrapOffset - id, s) < t < w
    ensures 0 <= id + Shl(t - w, s) <= WrapOffset
  {
    var d := WrapOffset - id;
    ShrIntBounds(d, s);
    ShlAdd(t, -(w as int), s);
    ShlNegate(w, s);
    ShlStrict(t, w, s);
    ShlMonotone(ShrInt(d, s) + 1, t, s);
    ShlAdd(ShrInt(d, s), 1, s);
    ShlOne(s);
  }


  /** next: one step forward at the identifier's level; a result that reads
      as another level is replaced by its parent at the original level. */
  function NextOf(c: CellId, wrap: int): CellId
    requires wrap > 0
  {
    var level := LevelOf(c.id);
    var next := AdvanceWrapOf(c, 1, wrap);
    if LevelOf(next.id) != level then ParentOf(next, level) else next
  }

  /** prev: one step back, with the same re-parenting. */
  function PrevOf(c: CellId, wrap: int): CellId
    requires wrap > 0
  {
    var level := LevelOf(c.id);
    var prev := AdvanceWrapOf(c, -1, wrap);
    if LevelOf(prev.id) != level then ParentOf(prev, level) else prev
  }

  method Next(c: CellId, wrap: int) returns (r: CellId)
    requires wrap > 0
    ensures r == NextOf(c, wrap)
  {
    var level := Level(c);
    r := AdvanceWrap(c, 1, wrap);
    var nextLevel := Level(r);
    if nextLevel != level {
      r := ParentOf(r, level);
    }
  }

  method Prev(c: CellId, wrap: int) returns (r: CellId)
    requires wrap > 0
    ensures r == PrevOf(c, wrap)
  {
    var level := Level(c);
    r := AdvanceWrap(c, -1, wrap);
    var prevLevel := Level(r);
    if prevLevel != level {
      r := ParentOf(r, level);
    }
  }

  /** 2^s, the distance between neighbouring cells at the identifier's level. */
  function StepSize(id: nat): nat
  {
    Pow2(StepShift(LevelOf(id)))
  }

  /** A negative step count down to -(id >> s) is taken as it is. */
  lemma {:induction false} WrapStepsBack(id: nat, s: nat, steps: int, wrap: int)
    requires wrap > 0 && -(Shr(id, s) as int) <= steps < 0
    ensures AdvanceWrapSteps(id, s, steps, wrap) == steps
  {
  }

  /** A non-negative step count up to (WRAP_OFFSET - id) >> s is taken as it
      is. */
  lemma {:induction false} WrapStepsForward(id: nat, s: nat, steps: int, wrap: int)
    requires wrap > 0 && 0 <= steps <= ShrInt(WrapOffset - id, s)
    ensures AdvanceWrapSteps(id, s, steps, wrap) == steps
  {
  }

  /** next keeps the stepped value when its level has not changed. */
  lemma {:induction false} NextKeepsLevel(c: CellId, wrap: int)
    requires wrap > 0 && LevelOf(AdvanceWrapOf(c, 1, wrap).id) == LevelOf(c.id)
    ensures NextOf(c, wrap) == AdvanceWrapOf(c, 1, wrap)
  {
  }

  /** prev keeps the stepped value when its level has not changed. */
  lemma {:induction false} PrevKeepsLevel(c: CellId, wrap: int)
    requires wrap > 0 && LevelOf(AdvanceWrapOf(c, -1, wrap).id) == LevelOf(c.id)
    ensures PrevOf(c, wrap) == AdvanceWrapOf(c, -1, wrap)
  {
  }

  /** When one more cell fits below WRAP_OFFSET, next adds 2^s (giving n),
      keeps the level and does not re-parent; a marker in the low 31 bits
      stays where it is. */
  lemma {:induction false} NextStep(c: CellId, wrap: int, n: nat)
    requires wrap > 0 && c.id > 0
    requires n == c.id + StepSize(c.id) && n <= WrapOffset
    ensures AdvanceWrapOf(c, 1, wrap) == CellId(n)
    ensures TrailingZeros(c.id) < 31 ==> TrailingZeros(n) == TrailingZeros(c.id)
    ensures LevelOf(n) == LevelOf(c.id)
    ensures NextOf(c, wrap) == CellId(n)
  {
    NextAdvance(c, wrap, StepShift(LevelOf(c.id)), n);
    KeepsLevel(c.id, n);
    NextKeepsLevel(c, wrap);
  }

  /** advance_wrap by one step, with room below WRAP_OFFSET, adds 2^s and
      keeps the low s bits. */
  lemma {:induction false} NextAdvance(c: CellId, wrap: int, s: nat, n: nat)
    requires wrap > 0 && s == StepShift(LevelOf(c.id)) && n == c.id + Pow2(s) && n <= WrapOffset
    ensures AdvanceWrapOf(c, 1, wrap) == CellId(n) && Low(n, s) == Low(c.id, s)
  {
    var k := AdvanceWrapSteps(c.id, s, 1, wrap);
    StepUp(c.id, s, wrap, k);
    AdvanceWrapOfStep(c, 1, wrap, s, k);
  }

  /** When the identifier is above 2^s, prev subtracts 2^s (giving p),
      keeps the level and does not re-parent; a marker in the low 31 bits
      stays where it is. */
  lemma {:induction false} PrevStep(c: CellId, wrap: int, p: nat)
    requires wrap > 0 && StepSize(c.id) < c.id < Modulus
    requires p == c.id - StepSize(c.id)
    ensures AdvanceWrapOf(c, -1, wrap) == CellId(p)
    ensures TrailingZeros(c.id) < 31 ==> TrailingZeros(p) == TrailingZeros(c.id)
    ensures LevelOf(p) == LevelOf(c.id)
    ensures PrevOf(c, wrap) == CellId(p)
  {
    PrevAdvance(c, wrap, StepShift(LevelOf(c.id)), p);
    KeepsLevel(c.id, p);
    PrevKeepsLevel(c, wrap);
  }

  /** advance_wrap by minus one step, from at least 2^s, subtracts 2^s and
      keeps the low s bits. */
  lemma {:induction false} PrevAdvance(c: CellId, wrap: int, s: nat, p: int)
    requires wrap > 0 && s == StepShift(LevelOf(c.id)) && Pow2(s) <= c.id < Modulus && p == c.id - Pow2(s)
    ensures p >= 0 && AdvanceWrapOf(c, -1, wrap) == CellId(p) && Low(p, s) == Low(c.id, s)
  {
    var k := AdvanceWrapSteps(c.id, s, -1, wrap);
    StepDown(c.id, s, wrap, k);
    AdvanceWrapOfStep(c, -1, wrap, s, k);
  }

  /** One step up, with room below WRAP_OFFSET, adds 2^s and keeps the low
      s bits. */
  lemma {:induction false} StepUp(id: nat, s: nat, wrap: int, k: int)
    requires wrap > 0 && id + Pow2(s) <= WrapOffset && k == AdvanceWrapSteps(id, s, 1, wrap)
    ensures k == 1 && Shl(k, s) == Pow2(s)
    ensures Low(id + Pow2(s), s) == Low(id, s)
  {
    OneStep(WrapOffset - id, s);
    ShrIntNat(WrapOffset - id, s);
    WrapStepsForward(id, s, 1, wrap);
    ShlOne(s);
    LowShift(id, 1, s);
  }

  /** One step down from at least 2^s subtracts 2^s and keeps the low s
      bits. */
  lemma {:induction false} StepDown(id: nat, s: nat, wrap: int, k: int)
    requires wrap > 0 && Pow2(s) <= id && k == AdvanceWrapSteps(id, s, -1, wrap)
    ensures k == -1 && Shl(k, s) == -(Pow2(s) as int)
    ensures Low(id - Pow2(s), s) == Low(id, s)
  {
    OneStep(id, s);
    WrapStepsBack(id, s, -1, wrap);
    ShlNegate(1, s);
    ShlOne(s);
    LowShift(id, -1, s);
  }

  /** advance_wrap by a nonzero count hands id + (k << s) to the
      constructor, k being the count it settles on. */
  lemma {:induction false} AdvanceWrapOfStep(c: CellId, steps: int, wrap: int, s: nat, k: int)
    requires wrap > 0 && steps != 0 && s == StepShift(LevelOf(c.id))
    requires k == AdvanceWrapSteps(c.id, s, steps, wrap)
    ensures AdvanceWrapOf(c, steps, wrap) == NewCellId(c.id + Shl(k, s))
  {
  }

  /** A value of at least 2^s has a high part of at least 1. */
  lemma {:induction false} OneStep(x: nat, s: nat)
    requires Pow2(s) <= x
    ensures Shr(x, s) >= 1
  {
    ShlOne(s);
    ShlShr(1, s);
    ShrMonotone(Pow2(s), x, s);
  }

  /** prev undoes next when one more cell fits below WRAP_OFFSET. */
  lemma {:induction false} PrevNext(c: CellId, wrap: int)
    requires wrap > 0 && c.id > 0
    requires c.id + StepSize(c.id) <= WrapOffset
    ensures PrevOf(NextOf(c, wrap), wrap) == c
  {
    var n := c.id + StepSize(c.id);
    NextStep(c, wrap, n);
    WrapOffsetValue();
    PrevStep(CellId(n), wrap, c.id);
  }

  /** next undoes prev when the step back does not reach 0 (where
      NextPrevAtFirstStep shows it does not). */
  lemma {:induction false} NextPrev(c: CellId, wrap: int)
    requires wrap > 0
    requires StepSize(c.id) < c.id <= WrapOffset
    ensures NextOf(PrevOf(c, wrap), wrap) == c
  {
    var p := c.id - StepSize(c.id);
    WrapOffsetValue();
    PrevStep(c, wrap, p);
    NextStep(CellId(p), wrap, c.id);
  }

  /** An identifier exactly one step above 0 (its only set bit is at s) has 0
      as its predecessor, which reads as level 0; prev re-parents it to the
      bare marker of the original level. */
  lemma {:induction false} PrevFromFirstStep(c: CellId, wrap: int)
    requires wrap > 0 && c.id > 0 && c.id == StepSize(c.id) && c.id < Modulus
    ensures PrevOf(c, wrap) == CellId(LsbForLevel(LevelOf(c.id)))
  {
    PrevAdvance(c, wrap, StepShift(LevelOf(c.id)), 0);
  }

  /** At the first step of the curve next does not undo prev: 2^31 reads as
      level 15 (its set bit is at an odd place), so s = 31 and prev reaches
      0, which reads as level 0 and is re-parented to 2^30; next of that is
      2^30 + 2^31, not 2^31. */
  lemma {:induction false} NextPrevAtFirstStep(wrap: int)
    requires wrap > 0
    ensures Pow2(31) <= WrapOffset - Pow2(31)
    ensures LevelOf(Pow2(31)) == 15 && StepSize(Pow2(31)) == Pow2(31)
    ensures PrevOf(CellId(Pow2(31)), wrap) == CellId(Pow2(30))
    ensures NextOf(PrevOf(CellId(Pow2(31)), wrap), wrap) == CellId(Pow2(30) + Pow2(31))
  {
    Pow2Values();
    TrailingZerosPow2(31);
    TrailingZerosPow2(30);
    assert LevelOf(Pow2(31)) == 15 && LevelOf(Pow2(30)) == 15;
    assert StepShift(15) == 31;
    PrevFromFirstStep(CellId(Pow2(31)), wrap);
    NextStep(CellId(Pow2(30)), wrap, Pow2(30) + Pow2(31));
  }
}
