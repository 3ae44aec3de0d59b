// Translating between a cell identifier and its (face, i, j) leaf
// coordinates.  Both directions handle 4 bits of i and j (8 bits of the
// position) at a time through the lookup tables, from the top chunk down, so
// the proof first shows that the curve over 2^(r + n) x 2^(r + n) cells is
// the curve over the top r levels followed by the curve over the bottom n
// levels.
module Codec {
  import opened Bits
  import opened Curve
  import opened Lookup
  import opened CellIds

  // ---------------------------------------------------------------------
  // Splitting the curve into a coarse part and a fine part.

  /** The steps of a followed by the steps of b. */
  function Concat(a: Steps, b: Steps): (s: Steps)
    ensures Length(s) == Length(a) + Length(b)
  {
    match b
    case Nil => a
    case Snoc(init, x) => Snoc(Concat(a, init), x)
  }

  /** Locating the quadrants a, then b inside them, is locating a, then
      locating b with the orientation the curve has at the end of a. */
  lemma {:induction false} LocateConcat(o: Bits2, a: Steps, b: Steps)
    ensures var h := Locate(o, a); var t := Locate(h.o, b);
      Locate(o, Concat(a, b)) == Path(Concat(h.steps, t.steps), t.o)
  {
    match b
    case Nil =>
    case Snoc(init, _) => LocateConcat(o, a, init);
  }

  /** Walking the digits a, then b, is walking a, then walking b with the
      orientation the curve has at the end of a. */
  lemma {:induction false} VisitConcat(o: Bits2, a: Steps, b: Steps)
    ensures var h := Visit(o, a); var t := Visit(h.o, b);
      Visit(o, Concat(a, b)) == Path(Concat(h.steps, t.steps), t.o)
  {
    match b
    case Nil =>
    case Snoc(init, _) => VisitConcat(o, a, init);
  }

  /** The digits a followed by the digits b stand for a shifted up by two
      bits per digit of b, plus b. */
  lemma {:induction false} ValueConcat(a: Steps, b: Steps)
    ensures Value(Concat(a, b)) == Shl(Value(a), 2 * Length(b)) + Value(b)
  {
    match b
    case Nil =>
    case Snoc(init, d) =>
      ValueConcat(a, init);
      ValueConcatStep(a, init, d, Value(a), 2 * Length(init));
  }

  /** The inductive step of ValueConcat, with a's value and the shift
      named. */
  lemma {:induction false} ValueConcatStep(a: Steps, init: Steps, d: Bits2, v: nat, l: nat)
    requires v == Value(a) && l == 2 * Length(init)
    requires Value(Concat(a, init)) == Shl(v, l) + Value(init)
    ensures Value(Concat(a, Snoc(init, d))) == Shl(v, 2 * Length(Snoc(init, d))) + Value(Snoc(init, d))
  {
    ShlShl(v, l, 2);
    ShlTwo(Shl(v, l));
    assert Value(Concat(a, Snoc(init, d))) == 4 * Value(Concat(a, init)) + d;
    assert 2 * Length(Snoc(init, d)) == l + 2;
  }

  lemma {:induction false} ShlTwo(x: int)
    ensures Shl(x, 2) == 4 * x
  {
    assert Shl(x, 1) == 2 * x;
  }

  /** The cell picked out by quadrants a followed by b: a's cell shifted up
      by one bit per quadrant of b, plus b's cell. */
  lemma {:induction false} IJConcat(a: Steps, b: Steps)
    ensures IOf(Concat(a, b)) == Shl(IOf(a), Length(b)) + IOf(b)
    ensures JOf(Concat(a, b)) == Shl(JOf(a), Length(b)) + JOf(b)
  {
    match b
    case Nil =>
    case Snoc(init, _) =>
      IJConcat(a, init);
      ShlShl(IOf(a), Length(init), 1);
      ShlShl(JOf(a), Length(init), 1);
  }

  /** The r + n quadrants holding (i, j): the r quadrants holding the cell
      of the top bits, then the n quadrants of the low n bits. */
  lemma {:induction false} QuadrantsConcat(i: nat, j: nat, r: nat, n: nat)
    ensures Quadrants(i, j, r + n) == Concat(Quadrants(Shr(i, n), Shr(j, n), r), Quadrants(Low(i, n), Low(j, n), n))
  {
    if n > 0 {
      var m := n - 1;
      QuadrantsConcat(i / 2, j / 2, r, m);
      LowHalf(i, n, m);
      LowHalf(j, n, m);
      var q := 2 * (i % 2) + j % 2;
      var total := r + n;
      assert total - 1 == r + m;
      assert Quadrants(i, j, total) == Snoc(Quadrants(i / 2, j / 2, total - 1), q);
      var top, bottom := Quadrants(Shr(i, n), Shr(j, n), r), Quadrants(Low(i / 2, m), Low(j / 2, m), m);
      assert Quadrants(Low(i, n), Low(j, n), n) == Snoc(bottom, q);
      assert Shr(i, n) == Shr(i / 2, m) && Shr(j, n) == Shr(j / 2, m);
      assert Concat(top, Snoc(bottom, q)) == Snoc(Concat(top, bottom), q);
    }
  }

  /** The r + n base-4 digits of p: the r digits above the low 2n bits,
      then the n digits of the low 2n bits. */
  lemma {:induction false} DigitsConcat(p: nat, r: nat, n: nat)
    ensures Digits(p, r + n) == Concat(Digits(Shr(p, 2 * n), r), Digits(Low(p, 2 * n), n))
  {
    if n > 0 {
      var m := n - 1;
      DigitsConcat(p / 4, r, m);
      ShrTwo(p);
      ShrShr(p, 2, 2 * m);
      LowQuarter(p, 2 * m);
      var total := r + n;
      assert total - 1 == r + m;
      assert Digits(p, total) == Snoc(Digits(p / 4, total - 1), p % 4);
      var top, bottom := Digits(Shr(p, 2 * n), r), Digits(Low(p / 4, 2 * m), m);
      assert Digits(Low(p, 2 * n), n) == Snoc(bottom, p % 4);
      assert Concat(top, Snoc(bottom, p % 4)) == Snoc(Concat(top, bottom), p % 4);
    }
  }

  /** The low m + 2 bits of p, divided by 4, are the low m bits of p / 4. */
  lemma {:induction false} LowQuarter(p: nat, m: nat)
    ensures Low(p, m + 2) / 4 == Low(p / 4, m) && Low(p, m + 2) % 4 == p % 4
  {
    LowHalf(p, m + 2, m + 1);
    LowHalf(p / 2, m + 1, m);
    assert p / 2 / 2 == p / 4;
    QuarterUnique(Low(p, m + 2), Low(p / 4, m), 2 * ((p / 2) % 2) + p % 2);
  }

  /** PosOf over r + n levels, from PosOf over the top r levels (the cell of
      the top bits of i and j) and PosOf over the bottom n levels started
      with the orientation the top part ends with. */
  lemma {:induction false} PosChunk(r: nat, n: nat, o: Bits2, i: nat, j: nat)
    ensures var h := PosOf(r, o, Shr(i, n), Shr(j, n));
      var c := PosOf(n, h.o, Low(i, n), Low(j, n));
      PosOf(r + n, o, i, j) == Spot(Shl(h.pos, 2 * n) + c.pos, c.o)
  {
    var top, bottom := Quadrants(Shr(i, n), Shr(j, n), r), Quadrants(Low(i, n), Low(j, n), n);
    QuadrantsConcat(i, j, r, n);
    LocateConcat(o, top, bottom);
    var h := Locate(o, top);
    var t := Locate(h.o, bottom);
    ValueConcat(h.steps, t.steps);
    LengthLocate(h.o, bottom);
    LengthQuadrants(Low(i, n), Low(j, n), n);
  }

  /** IJOf over r + n levels, from IJOf over the top r levels (the position
      above the low 2n bits) and IJOf over the bottom n levels started with
      the orientation the top part ends with. */
  lemma {:induction false} IJChunk(r: nat, n: nat, o: Bits2, p: nat)
    ensures var h := IJOf(r, o, Shr(p, 2 * n));
      var c := IJOf(n, h.o, Low(p, 2 * n));
      IJOf(r + n, o, p) == Cell(Shl(h.i, n) + c.i, Shl(h.j, n) + c.j, c.o)
  {
    var top, bottom := Digits(Shr(p, 2 * n), r), Digits(Low(p, 2 * n), n);
    DigitsConcat(p, r, n);
    VisitConcat(o, top, bottom);
    var h := Visit(o, top);
    var t := Visit(h.o, bottom);
    IJConcat(h.steps, t.steps);
    LengthVisit(h.o, bottom);
    LengthDigits(Low(p, 2 * n), n);
  }

  /** 4^n == 2^(2n). */
  lemma {:induction false} Pow4Pow2(n: nat)
    ensures Pow4(n) == Pow2(2 * n)
  {
    if n > 0 {
      Pow4Pow2(n - 1);
      assert Pow2(2 * n) == 2 * Pow2(2 * n - 1) == 4 * Pow2(2 * (n - 1));
    }
  }

  /** The curve whose orientation at depth m has no invert bit, and which
      visits the origin first there, still visits the origin first one
      level deeper, with the swap bit flipped. */
  lemma {:induction false} CornerStep(o: Bits2, m: nat, c: Bits2)
    requires c < 2 && PosOf(m, o, 0, 0) == Spot(0, c)
    ensures PosOf(m + 1, o, 0, 0) == Spot(0, Xor2(c, SwapMask))
  {
    PosOfStep(m, o, 0, 0, 0);
  }

  /** The curve started with orientation 0 or 1 (no invert bit) spends its
      first two levels in the corner quadrant and comes back to the
      orientation it started with. */
  lemma {:induction false} OriginCorner(o: Bits2)
    requires o < 2
    ensures PosOf(2, o, 0, 0) == Spot(0, o)
  {
    var o1 := Xor2(o, SwapMask);
    assert o1 < 2 && Xor2(o1, SwapMask) == o;
    CornerStep(o, 0, o);
    CornerStep(o, 1, o1);
  }

  /** A face's curve starts with orientation 0 or 1, so over 32 levels it
      spends its first two levels in the corner quadrant: the leaf cells of
      a face are located exactly as by the 30-level curve. */
  lemma {:induction false} PosOfFace(o: Bits2, i: nat, j: nat)
    requires o < 2 && i < Pow2(MaxLevel) && j < Pow2(MaxLevel)
    ensures PosOf(32, o, i, j) == PosOf(MaxLevel, o, i, j)
  {
    PosChunk(2, 30, o, i, j);
    Small(i, 30);
    Small(j, 30);
    OriginCorner(o);
  }

  /** The same for walking the curve to a position below 2^60. */
  lemma {:induction false} IJOfFace(o: Bits2, p: nat)
    requires o < 2 && p < Pow2(2 * MaxLevel)
    ensures IJOf(32, o, p) == IJOf(MaxLevel, o, p)
  {
    var c := IJOf(MaxLevel, o, p);
    Pow4Pow2(MaxLevel);
    PosOfIJOf(MaxLevel, o, p);
    IJOfBound(MaxLevel, o, p);
    PosOfFace(o, c.i, c.j);
    Pow2Monotone(MaxLevel, 32);
    IJOfPosOf(32, o, c.i, c.j);
  }

  /** In that corner the top 4-bit chunks (below 4, as i and j are below
      2^30) sit at one of the first 16 of the chunk's 256 positions. */
  lemma {:induction false} TopChunk(o: Bits2, ic: nat, jc: nat)
    requires o < 2 && ic < 4 && jc < 4
    ensures PosOf(4, o, ic, jc).pos < 16
  {
    PosChunk(2, 2, o, ic, jc);
    assert Pow2(2) == 4;
    Small(ic, 2);
    Small(jc, 2);
    OriginCorner(o);
    PosOfBound(2, o, Low(ic, 2), Low(jc, 2));
    assert Pow4(2) == 16;
  }

  // ---------------------------------------------------------------------
  // The bit fiddling of one table lookup.

  /** face & SWAP_MASK is the parity of the face. */
  lemma {:induction false} FaceParity(face: nat)
    ensures BitAnd(face, SwapMask) == face % 2
  {
    AndLowMask(face, 1);
    LowOne(face);
  }

  /** (x >> s) & ((1 << 4) - 1) is the 4-bit chunk of x at bit s. */
  lemma {:induction false} ChunkOf(x: nat, s: nat)
    ensures BitAnd(Shr(x, s), Shl(1, LookupBits) - 1) == Low(Shr(x, s), 4)
  {
    ShlOne(4);
    AndLowMask(Shr(x, s), 4);
  }

  /** bits + (ic << 6) + (jc << 2) packs the chunk pair and orientation
      bits as a LOOKUP_POS key. */
  lemma {:induction false} EncodeKey(ic: nat, jc: nat, o: nat)
    requires ic < 16 && jc < 16 && o < 4
    ensures o + Shl(ic, LookupBits + 2) + Shl(jc, 2) == (16 * ic + jc) * 4 + o
    ensures (16 * ic + jc) / 16 == ic && (16 * ic + jc) % 16 == jc
  {
    ShlMul(ic, 6);
    ShlMul(jc, 2);
    assert Pow2(6) == 64;
  }

  /** A LOOKUP_POS value pos * 4 + o' unpacks with >> 2 and & 3. */
  lemma {:induction false} UnpackPos(e: nat, pos: nat, o: nat)
    requires o < 4 && e == pos * 4 + o
    ensures Shr(e, 2) == pos && BitAnd(e, SwapMask + InvertMask) == o
  {
    ShrTwo(e);
    AndLowMask(e, 2);
    LowTwo(e);
  }

  /** ORing a w-bit chunk in at bit s, below bits that start at s + w,
      adds it. */
  lemma {:induction false} OrChunk(a: nat, sp: nat, s: nat, w: nat)
    requires sp < Pow2(w)
    ensures BitOr(Shl(a, s + w), Shl(sp, s)) == Shl(a, s + w) + Shl(sp, s)
  {
    PlaceBound(sp, 0, s, w, s + w);
    OrDisjoint(a, Shl(sp, s), s + w);
  }

  /** Placing the 8-bit position chunk of a round into n, which holds the
      face at bit 60 and the position so far at bit s + 8, adds it at bit
      s: the top chunk (s = 56, below 16) lies below the face bits, and each
      later chunk (s <= 48) below the previous one. */
  lemma {:induction false} EncodeOr(face: nat, hp: nat, sp: nat, s: nat, n: nat)
    requires sp < 256 && ((s == 56 && hp == 0 && sp < 16) || s <= 48)
    requires n == Shl(face, PosBits - 1) + Shl(hp, s + 8)
    ensures BitOr(n, Shl(sp, s)) == Shl(face, PosBits - 1) + Shl(Shl(hp, 8) + sp, s)
  {
    ShlAdd(Shl(hp, 8), sp, s);
    ShlShl(hp, 8, s);
    assert PosBits - 1 == 60;
    if s == 56 && hp == 0 {
      EncodeOrTop(face, sp, s);
    } else {
      EncodeOrBelow(face, hp, sp, s, 52 - s);
    }
  }

  /** The same step as the loop writes it, with the chunk taken from the
      table entry e and placed at bit k * 2 * LOOKUP_BITS. */
  lemma {:induction false} EncodeOrStep(face: nat, hp: nat, sp: nat, k: nat, n: nat, e: nat, next: Spot)
    requires k <= 7 && sp < 256 && (k == 7 ==> hp == 0 && sp < 16)
    requires n == Shl(face, PosBits - 1) + Shl(hp, 8 * k + 8)
    requires Shr(e, 2) == sp && next.pos == Shl(hp, 8) + sp
    ensures BitOr(n, Shl(Shr(e, 2), 8 * k)) == Shl(face, PosBits - 1) + Shl(next.pos, 8 * (k - 1) + 8)
  {
    var s := 8 * k;
    assert 8 * (k - 1) + 8 == s && 8 * k + 8 == s + 8;
    EncodeOr(face, hp, sp, s, n);
  }

  lemma {:induction false} EncodeOrTop(face: nat, sp: nat, s: nat)
    requires sp < 16 && s == 56
    ensures BitOr(Shl(face, s + 4), Shl(sp, s)) == Shl(face, s + 4) + Shl(sp, s)
  {
    assert Pow2(4) == 16;
    OrChunk(face, sp, s, 4);
  }

  lemma {:induction false} EncodeOrBelow(face: nat, hp: nat, sp: nat, s: nat, top: nat)
    requires sp < 256 && top + s == 52
    ensures BitOr(Shl(face, top + s + 8) + Shl(hp, s + 8), Shl(sp, s)) == Shl(face, top + s + 8) + Shl(hp, s + 8) + Shl(sp, s)
  {
    var a, w := Shl(face, top) + hp, s + 8;
    ShlShl(face, top, w);
    ShlAdd(Shl(face, top), hp, w);
    assert Shl(a, w) == Shl(face, top + s + 8) + Shl(hp, s + 8);
    assert Pow2(8) == 256;
    OrChunk(a, sp, s, 8);
  }

  /** One round of the encoding loop: the position of the top r + 4 levels
      of (i >> sh, j >> sh) is that of the top r levels followed by the
      8-bit position of the 4-bit chunk pair at bit sh. */
  lemma {:induction false} EncodeRound(i: nat, j: nat, r: nat, sh: nat, r4: nat, sh4: nat, o0: Bits2, h: Spot)
    requires r4 == r + 4 && sh4 == sh + 4
    requires h == PosOf(r, o0, Shr(i, sh4), Shr(j, sh4))
    ensures var s := PosOf(LookupBits, h.o, Low(Shr(i, sh), 4), Low(Shr(j, sh), 4));
      && PosOf(r4, o0, Shr(i, sh), Shr(j, sh)) == Spot(Shl(h.pos, 8) + s.pos, s.o)
      && s.pos < 256
  {
    var ic, jc := Low(Shr(i, sh), 4), Low(Shr(j, sh), 4);
    PosChunk(r, 4, o0, Shr(i, sh), Shr(j, sh));
    ShrShr(i, sh, 4);
    ShrShr(j, sh, 4);
    LookupSizes();
    PosOfBound(LookupBits, h.o, ic, jc);
  }

  /** In the first round the chunk pair is below 4, and its position below
      16. */
  lemma {:induction false} EncodeTopRound(i: nat, j: nat, o0: Bits2, sh: nat)
    requires o0 < 2 && i < Pow2(MaxLevel) && j < Pow2(MaxLevel) && sh == 28
    ensures PosOf(LookupBits, o0, Low(Shr(i, sh), 4), Low(Shr(j, sh), 4)).pos < 16
  {
    ShrBelow(i, sh, 2, MaxLevel);
    ShrBelow(j, sh, 2, MaxLevel);
    assert Pow2(2) == 4 && Pow2(4) == 16;
    Small(Shr(i, sh), 4);
    Small(Shr(j, sh), 4);
    TopChunk(o0, Shr(i, sh), Shr(j, sh));
  }

  // ---------------------------------------------------------------------
  // Encoding: from_face_ij.

  /** The identifier of leaf cell (i, j) of a face as from_face_ij builds
      it: the face above bit 61, then twice the cell's position on the
      face's 30-level curve, which starts with orientation face & 1. */
  function EncodeOf(face: nat, i: nat, j: nat): CellId
  {
    NewCellId(EncodedValue(face, i, j))
  }

  /** The value handed to the constructor: face << 61 plus twice the
      position. */
  function EncodedValue(face: nat, i: nat, j: nat): nat
  {
    Shl(face, PosBits) + 2 * PosOf(MaxLevel, face % 2, i, j).pos
  }

  /** What the encoding loop knows before the round for chunk k (k = 7
      first, -1 when done): bits holds the orientation and n the face and
      the position of the top 28 - 4k levels of (i, j). */
  ghost predicate EncodeState(face: nat, i: nat, j: nat, k: int, bits: nat, n: nat)
  {
    && -1 <= k <= 7
    && var h := EncodePrefix(face, i, j, k);
    && bits == h.o
    && n == Shl(face, PosBits - 1) + Shl(h.pos, 8 * k + 8)
  }

  /** The position and orientation of the top 28 - 4k levels of (i, j),
      built chunk by chunk as the loop builds it: nothing before the first
      round, then each round's 8-bit chunk placed below the ones before it. */
  ghost function EncodePrefix(face: nat, i: nat, j: nat, k: int): Spot
    requires -1 <= k <= 7
    decreases 7 - k, 1
  {
    if k == 7 then Spot(0, face % 2)
    else
      var h := EncodePrefix(face, i, j, k + 1);
      var s := ChunkSpot(face, i, j, k);
      Spot(Shl(h.pos, 8) + s.pos, s.o)
  }

  /** The round that leaves EncodePrefix at k walks the 4-bit chunk pair of
      (i, j) at bit 4k + 4 from the orientation the rounds before it left. */
  ghost function ChunkSpot(face: nat, i: nat, j: nat, k: int): Spot
    requires -1 <= k < 7
    decreases 7 - k, 0
  {
    PosOf(LookupBits, EncodePrefix(face, i, j, k + 1).o, Low(Shr(i, 4 * k + 4), 4), Low(Shr(j, 4 * k + 4), 4))
  }

  /** One unfolding of EncodePrefix with the chunk's shift named. */
  lemma {:induction false} PrefixStep(face: nat, i: nat, j: nat, k: int, sh: nat)
    requires -1 <= k < 7 && sh == 4 * k + 4
    ensures var h := EncodePrefix(face, i, j, k + 1);
      var s := PosOf(LookupBits, h.o, Low(Shr(i, sh), 4), Low(Shr(j, sh), 4));
      EncodePrefix(face, i, j, k) == Spot(Shl(h.pos, 8) + s.pos, s.o)
  {
    assert ChunkSpot(face, i, j, k) == PosOf(LookupBits, EncodePrefix(face, i, j, k + 1).o, Low(Shr(i, sh), 4), Low(Shr(j, sh), 4));
  }

  /** EncodePrefix and the position of the top 28 - 4k levels, each behind
      a plain function so that the induction over k below sees each of them
      unfolded at most once. */
  ghost function PrefixSpot(face: nat, i: nat, j: nat, k: int): Spot
    requires -1 <= k <= 7
  {
    EncodePrefix(face, i, j, k)
  }

  ghost function TopSpot(face: nat, i: nat, j: nat, k: int): Spot
    requires -1 <= k <= 7
  {
    PosOf(28 - 4 * k, face % 2, Shr(i, 4 * k + 4), Shr(j, 4 * k + 4))
  }

  /** The chunk-by-chunk prefix is the position of the top 28 - 4k levels
      on the face's curve. */
  lemma {:induction false} PrefixPosOf(face: nat, i: nat, j: nat, k: int)
    requires -1 <= k <= 7
    ensures PrefixSpot(face, i, j, k) == TopSpot(face, i, j, k)
    decreases 7 - k
  {
    if k == 7 {
      assert Quadrants(Shr(i, 32), Shr(j, 32), 0) == Nil;
    } else {
      PrefixPosOf(face, i, j, k + 1);
      PrefixPosInduct(face, i, j, k);
    }
  }

  /** The inductive step of PrefixPosOf. */
  lemma {:induction false} PrefixPosInduct(face: nat, i: nat, j: nat, k: int)
    requires -1 <= k < 7
    requires PrefixSpot(face, i, j, k + 1) == TopSpot(face, i, j, k + 1)
    ensures PrefixSpot(face, i, j, k) == TopSpot(face, i, j, k)
  {
    var sh := 4 * k + 4;
    var h := PrefixSpot(face, i, j, k + 1);
    var c := PosOf(LookupBits, h.o, Low(Shr(i, sh), 4), Low(Shr(j, sh), 4));
    PrefixSpotStep(face, i, j, k, sh, h, c);
    TopSpotStep(face, i, j, k, sh, h, c);
  }

  /** EncodePrefix at k is the prefix at k + 1 followed by the chunk c, */
  lemma {:induction false} PrefixSpotStep(face: nat, i: nat, j: nat, k: int, sh: nat, h: Spot, c: Spot)
    requires -1 <= k < 7 && sh == 4 * k + 4
    requires h == PrefixSpot(face, i, j, k + 1)
    requires c == PosOf(LookupBits, h.o, Low(Shr(i, sh), 4), Low(Shr(j, sh), 4))
    ensures PrefixSpot(face, i, j, k) == Spot(Shl(h.pos, 8) + c.pos, c.o)
  {
    PrefixStep(face, i, j, k, sh);
  }

  /** and so is the position of the top 28 - 4k levels when the prefix at
      k + 1 is that of the top 28 - 4(k + 1). */
  lemma {:induction false} TopSpotStep(face: nat, i: nat, j: nat, k: int, sh: nat, h: Spot, c: Spot)
    requires -1 <= k < 7 && sh == 4 * k + 4
    requires h == TopSpot(face, i, j, k + 1)
    requires c == PosOf(LookupBits, h.o, Low(Shr(i, sh), 4), Low(Shr(j, sh), 4))
    ensures TopSpot(face, i, j, k) == Spot(Shl(h.pos, 8) + c.pos, c.o)
  {
    var r4, r, sh4 := 28 - 4 * k, 28 - 4 * (k + 1), 4 * (k + 1) + 4;
    EncodeRound(i, j, r, sh, r4, sh4, face % 2, h);
  }

  /** The LOOKUP_POS entry under the key packed from chunks ic, jc and
      orientation o unpacks to the chunk pair's position and exit
      orientation. */
  lemma {:induction false} PosLookup(ic: nat, jc: nat, o: Bits2, key: nat)
    requires ic < 16 && jc < 16
    requires key == o + Shl(ic, LookupBits + 2) + Shl(jc, 2)
    ensures key < TableSize
    ensures var s := PosOf(LookupBits, o, ic, jc);
      s.pos < 256 && Shr(PosEntry(key), 2) == s.pos && BitAnd(PosEntry(key), SwapMask + InvertMask) == s.o
  {
    EncodeKey(ic, jc, o);
    var ij := 16 * ic + jc;
    PosEntryAt(ij, o);
    var s := PosOf(LookupBits, o, ic, jc);
    UnpackPos(PosEntry(key), s.pos, s.o);
  }

  /** One round of from_face_ij, as the loop body computes it with the
      chunk shift k * LOOKUP_BITS = 4k and the position shift
      k * 2 * LOOKUP_BITS = 8k: the table key built from the orientation and
      the next four bits of i and j is in range, and the entry it selects
      carries the encoding state down one chunk. */
  lemma {:induction false} EncodeStep(face: nat, i: nat, j: nat, k: nat, bits: nat, n: nat, mask: nat, key: nat)
    requires i < Pow2(MaxLevel) && j < Pow2(MaxLevel)
    requires k <= 7 && EncodeState(face, i, j, k, bits, n)
    requires mask == Shl(1, LookupBits) - 1
    requires key == bits + Shl(BitAnd(Shr(i, 4 * k), mask), LookupBits + 2) + Shl(BitAnd(Shr(j, 4 * k), mask), 2)
    ensures key < TableSize
    ensures var e := PosEntry(key);
      EncodeState(face, i, j, k - 1, BitAnd(e, SwapMask + InvertMask), BitOr(n, Shl(Shr(e, 2), 8 * k)))
  {
    var h := EncodePrefix(face, i, j, k);
    var sh := 4 * k;
    PrefixStep(face, i, j, k - 1, sh);
    ChunkOf(i, sh);
    ChunkOf(j, sh);
    var ic, jc := Low(Shr(i, sh), 4), Low(Shr(j, sh), 4);
    PosLookup(ic, jc, h.o, key);
    if k == 7 {
      EncodeTopRound(i, j, h.o, sh);
    }
    var s := PosOf(LookupBits, h.o, ic, jc);
    var e := PosEntry(key);
    var next := Spot(Shl(h.pos, 8) + Shr(e, 2), BitAnd(e, SwapMask + InvertMask));
    EncodeOrStep(face, h.pos, s.pos, k, n, e, next);
  }

  /** Before the first round: nothing encoded yet, the face in place and
      the orientation the face's parity. */
  lemma {:induction false} EncodeStart(face: nat, i: nat, j: nat)
    ensures EncodeState(face, i, j, 7, BitAnd(face, SwapMask), Shl(face, PosBits - 1))
  {
    FaceParity(face);
  }

  /** After the last round the prefix covers all 32 levels, which for
      i, j < 2^30 is the cell's position on the 30-level curve. */
  lemma {:induction false} PrefixDone(face: nat, i: nat, j: nat)
    requires i < Pow2(MaxLevel) && j < Pow2(MaxLevel)
    ensures PrefixSpot(face, i, j, -1) == PosOf(MaxLevel, face % 2, i, j)
  {
    var o: Bits2 := face % 2;
    PrefixPosOf(face, i, j, -1);
    TopSpotDone(face, i, j, o);
    assert PrefixSpot(face, i, j, -1) == PosOf(MaxLevel, o, i, j);
  }

  /** The top 32 levels of i, j < 2^30 are the 30-level position. */
  lemma {:induction false} TopSpotDone(face: nat, i: nat, j: nat, o: Bits2)
    requires i < Pow2(MaxLevel) && j < Pow2(MaxLevel) && o == face % 2
    ensures TopSpot(face, i, j, -1) == PosOf(MaxLevel, o, i, j)
  {
    assert Shr(i, 0) == i && Shr(j, 0) == j;
    PosOfFace(o, i, j);
  }

  /** Doubling the final n moves the face from bit 60 to bit 61. */
  lemma {:induction false} DoubleDone(face: nat, p: nat, n: nat, top: nat)
    requires top == PosBits - 1 && n == Shl(face, top) + Shl(p, 0)
    ensures n * 2 == Shl(face, PosBits) + 2 * p
  {
    ShlTimes2(face, top, PosBits);
  }

  /** After the last round n holds the face and the position of all 32
      levels, which for i, j < 2^30 is the 30-level position. */
  lemma {:induction false} EncodeDone(face: nat, i: nat, j: nat, bits: nat, n: nat)
    requires i < Pow2(MaxLevel) && j < Pow2(MaxLevel)
    requires EncodeState(face, i, j, -1, bits, n)
    ensures n * 2 == EncodedValue(face, i, j)
  {
    var h := PrefixSpot(face, i, j, -1);
    StateDone(face, i, j, bits, n, h);
    PrefixDone(face, i, j);
    DoubledValue(face, i, j, h, n);
  }

  /** When the loop is done n holds the face above bit 60 and the prefix
      below it. */
  lemma {:induction false} StateDone(face: nat, i: nat, j: nat, bits: nat, n: nat, h: Spot)
    requires EncodeState(face, i, j, -1, bits, n) && h == PrefixSpot(face, i, j, -1)
    ensures n == Shl(face, PosBits - 1) + h.pos
  {
    assert Shl(h.pos, 0) == h.pos;
  }

  /** Doubling such an n gives the encoded value. */
  lemma {:induction false} DoubledValue(face: nat, i: nat, j: nat, h: Spot, n: nat)
    requires h == PosOf(MaxLevel, face % 2, i, j) && n == Shl(face, PosBits - 1) + h.pos
    ensures n * 2 == EncodedValue(face, i, j)
  {
    DoubleDone(face, h.pos, n, PosBits - 1);
  }

  method EncodeRoundM(tables: LookupTables, face: nat, i: nat, j: nat, k: int, bits0: nat, n0: nat) returns (bits: nat, n: nat)
    requires tables.Valid()
    requires i < Pow2(MaxLevel) && j < Pow2(MaxLevel)
    requires 0 <= k <= 7 && EncodeState(face, i, j, k, bits0, n0)
    ensures EncodeState(face, i, j, k - 1, bits, n)
  {
      bits, n := bits0, n0;
      assert k * LookupBits == 4 * k && k * 2 * LookupBits == 8 * k;
      var mask := Shl(1, LookupBits) - 1;
      ghost var old_bits := bits;
      bits := bits + Shl(BitAnd(Shr(i, k * LookupBits), mask), LookupBits + 2);
      bits := bits + Shl(BitAnd(Shr(j, k * LookupBits), mask), 2);
      EncodeStep(face, i, j, k, old_bits, n, mask, bits);
      bits := tables.posTable[bits];
      n := BitOr(n, Shl(Shr(bits, 2), k * 2 * LookupBits));
      bits := BitAnd(bits, SwapMask + InvertMask);
  }

  method FromFaceIJ(tables: LookupTables, face: nat, i: nat, j: nat) returns (c: CellId)
    requires tables.Valid()
    requires i < Pow2(MaxLevel) && j < Pow2(MaxLevel)
    ensures c == EncodeOf(face, i, j)
  {
    var n: nat := Shl(face, PosBits - 1);
    var bits: nat := BitAnd(face, SwapMask);
    EncodeStart(face, i, j);
    var k: int := 7;
    while k > -1
      invariant EncodeState(face, i, j, k, bits, n)
    {
      bits, n := EncodeRoundM(tables, face, i, j, k, bits, n);
      k := k - 1;
    }
    EncodeDone(face, i, j, bits, n);
    c := Construct(n * 2);
  }
}
