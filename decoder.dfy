// Decoding a cell identifier into its face, the (i, j) coordinates of a leaf
// cell and the curve's orientation there (faceij_orientation), and the round
// trips between decoding and from_face_ij.  Decoding reads the position bits
// 1 .. 60 of the identifier in 8-bit chunks from the top down, the first one
// only 4 bits wide, and looks each chunk up in the position -> (i, j) table.
module Decoder {
  import opened Bits
  import opened Curve
  import opened Lookup
  import opened CellIds
  import opened Codec

  /** What faceij_orientation returns. */
  datatype FaceIJ = FaceIJ(face: nat, i: nat, j: nat, orientation: Bits2)

  /** 0x1111111111111110: bits 4, 8, .., 60, the level markers of levels
      28, 26, .., 0.  A cell whose marker is one of them has its orientation
      swapped at the end. */
  const SwapLevelMarkers: nat := 0x1111_1111_1111_1110

  /** The 60 bits above bit 0 of an identifier: the position on the face's
      curve that decoding walks, the level marker of a non-leaf cell
      included. */
  function CurvePos(c: CellId): (p: nat)
    ensures p < Pow2(2 * MaxLevel)
  {
    Low(Shr(c.id, 1), 2 * MaxLevel)
  }

  /** What faceij_orientation computes: the face; the leaf cell the face's
      30-level curve, started with orientation face & 1, visits at position
      CurvePos(c); and the orientation there, swapped when the lowest set bit
      of the identifier is one of SwapLevelMarkers. */
  function DecodeOf(c: CellId): (d: FaceIJ)
    ensures d.i < Pow2(MaxLevel) && d.j < Pow2(MaxLevel)
  {
    var f := Face(c);
    var cell := IJOf(MaxLevel, f % 2, CurvePos(c));
    IJOfBound(MaxLevel, f % 2, CurvePos(c));
    var o := if BitAnd(LowestSetBit(c.id), SwapLevelMarkers) != 0 then Xor2(cell.o, SwapMask) else cell.o;
    FaceIJ(f, cell.i, cell.j, o)
  }

  // ---------------------------------------------------------------------
  // The decoding loop, chunk by chunk.

  /** The leaf coordinates of the top 28 - 4k levels, built chunk by chunk
      as the loop builds them: nothing before the first round, then each
      round's 4-bit chunks of i and j placed below the ones before. */
  ghost function DecodePrefix(p: nat, o0: Bits2, k: int): Cell
    requires -1 <= k <= 7
    decreases 7 - k, 1
  {
    if k == 7 then Cell(0, 0, o0)
    else
      var h := DecodePrefix(p, o0, k + 1);
      var d := ChunkCell(p, o0, k);
      Cell(16 * h.i + d.i, 16 * h.j + d.j, d.o)
  }

  /** The round that leaves DecodePrefix at k walks the 8-bit chunk of the
      position at bit 8k + 8 from the orientation the rounds before it left. */
  ghost function ChunkCell(p: nat, o0: Bits2, k: int): Cell
    requires -1 <= k < 7
    decreases 7 - k, 0
  {
    IJOf(LookupBits, DecodePrefix(p, o0, k + 1).o, Low(Shr(p, 8 * k + 8), 2 * LookupBits))
  }

  /** What the decoding loop knows before the round for chunk k (k = 7
      first, -1 when done): the orientation so far, and i and j holding the
      coordinates of the top 28 - 4k levels above bit 4k + 4. */
  ghost predicate DecodeState(c: CellId, k: int, o: nat, i: nat, j: nat)
  {
    -1 <= k <= 7 && StateAt(c, k, 4 * k + 4, o, i, j)
  }

  /** DecodePrefix for the identifier c.  Stating the lemmas below through
      this non-recursive function keeps the verifier from unfolding
      DecodePrefix twice wherever they mention it. */
  ghost function PrefixOf(c: CellId, k: int): Cell
    requires -1 <= k <= 7
  {
    DecodePrefix(CurvePos(c), Face(c) % 2, k)
  }

  /** DecodeState with the coordinate shift sh given by name. */
  ghost predicate StateAt(c: CellId, k: int, sh: nat, o: nat, i: nat, j: nat)
    requires -1 <= k <= 7
  {
    var h := PrefixOf(c, k);
    && o == h.o
    && i == Shl(h.i, sh)
    && j == Shl(h.j, sh)
  }

  /** Moving from the named shift back to DecodeState's 4k + 4. */
  lemma {:induction false} StateDown(c: CellId, k: int, sc: nat, o: nat, i: nat, j: nat)
    requires 0 <= k <= 7 && sc == 4 * k && StateAt(c, k - 1, sc, o, i, j)
    ensures DecodeState(c, k - 1, o, i, j)
  {
    assert 4 * (k - 1) + 4 == sc;
  }

  /** One unfolding of DecodePrefix, with the round before it (k1 = k + 1)
      and the chunk's shift named. */
  lemma {:induction false} DecodePrefixStep(p: nat, o0: Bits2, k: int, k1: int, sh: nat)
    requires -1 <= k < 7 && k1 == k + 1 && sh == 8 * k + 8
    ensures var h := DecodePrefix(p, o0, k1);
      var d := IJOf(LookupBits, h.o, Low(Shr(p, sh), 2 * LookupBits));
      DecodePrefix(p, o0, k) == Cell(16 * h.i + d.i, 16 * h.j + d.j, d.o)
  {
    assert ChunkCell(p, o0, k) == IJOf(LookupBits, DecodePrefix(p, o0, k + 1).o, Low(Shr(p, sh), 2 * LookupBits));
  }

  /** One round of decoding: the cell the curve visits at the top r + 4
      levels of p >> sh is the cell of the top r levels followed by the
      cell of the 8-bit chunk at bit sh. */
  lemma {:induction false} DecodeRound(p: nat, r: nat, sh: nat, r4: nat, sh8: nat, o0: Bits2, h: Cell)
    requires r4 == r + 4 && sh8 == sh + 8
    requires h == IJOf(r, o0, Shr(p, sh8))
    ensures var d := IJOf(LookupBits, h.o, Low(Shr(p, sh), 2 * LookupBits));
      IJOf(r4, o0, Shr(p, sh)) == Cell(16 * h.i + d.i, 16 * h.j + d.j, d.o)
  {
    IJChunk(r, 4, o0, Shr(p, sh));
    ShrShr(p, sh, 8);
    ShlMul(h.i, 4);
    ShlMul(h.j, 4);
    assert Pow2(4) == 16;
  }

  /** DecodeRound for the round that leaves DecodePrefix at k. */
  lemma {:induction false} DecodeRoundAt(p: nat, o0: Bits2, k: int, h: Cell)
    requires -1 <= k < 7
    requires h == IJOf(28 - 4 * (k + 1), o0, Shr(p, 8 * (k + 1) + 8))
    ensures var d := IJOf(LookupBits, h.o, Low(Shr(p, 8 * k + 8), 2 * LookupBits));
      IJOf(28 - 4 * k, o0, Shr(p, 8 * k + 8)) == Cell(16 * h.i + d.i, 16 * h.j + d.j, d.o)
  {
    DecodeRound(p, 28 - 4 * (k + 1), 8 * k + 8, 28 - 4 * k, 8 * (k + 1) + 8, o0, h);
  }

  /** DecodePrefix and the cell of the top 28 - 4k levels, each behind a
      plain function so that the induction over k below sees each of them
      unfolded at most once. */
  ghost function PrefixCell(p: nat, o0: Bits2, k: int): Cell
    requires -1 <= k <= 7
  {
    DecodePrefix(p, o0, k)
  }

  ghost function TopCell(p: nat, o0: Bits2, k: int): Cell
    requires -1 <= k <= 7
  {
    IJOf(28 - 4 * k, o0, Shr(p, 8 * k + 8))
  }

  /** The chunk-by-chunk prefix is the cell the face's curve visits at the
      top 28 - 4k levels of the position. */
  lemma {:induction false} DecodePrefixIJOf(p: nat, o0: Bits2, k: int)
    requires -1 <= k <= 7
    ensures PrefixCell(p, o0, k) == TopCell(p, o0, k)
    decreases 7 - k
  {
    if k == 7 {
      DecodePrefixTop(p, o0, k);
    } else {
      DecodePrefixIJOf(p, o0, k + 1);
      DecodePrefixInduct(p, o0, k);
    }
  }

  /** Before any round the prefix is empty. */
  lemma {:induction false} DecodePrefixTop(p: nat, o0: Bits2, k: int)
    requires k == 7
    ensures PrefixCell(p, o0, k) == TopCell(p, o0, k)
  {
    assert Digits(Shr(p, 8 * k + 8), 28 - 4 * k) == Nil;
  }

  /** The inductive step of DecodePrefixIJOf. */
  lemma {:induction false} DecodePrefixInduct(p: nat, o0: Bits2, k: int)
    requires -1 <= k < 7
    requires PrefixCell(p, o0, k + 1) == TopCell(p, o0, k + 1)
    ensures PrefixCell(p, o0, k) == TopCell(p, o0, k)
  {
    var sh := 8 * k + 8;
    var h := PrefixCell(p, o0, k + 1);
    var d := IJOf(LookupBits, h.o, Low(Shr(p, sh), 2 * LookupBits));
    PrefixCellStep(p, o0, k, sh, h, d);
    TopCellStep(p, o0, k, sh, h, d);
  }

  /** DecodePrefix at k is the prefix at k + 1 refined by the chunk cell d, */
  lemma {:induction false} PrefixCellStep(p: nat, o0: Bits2, k: int, sh: nat, h: Cell, d: Cell)
    requires -1 <= k < 7 && sh == 8 * k + 8
    requires h == PrefixCell(p, o0, k + 1)
    requires d == IJOf(LookupBits, h.o, Low(Shr(p, sh), 2 * LookupBits))
    ensures PrefixCell(p, o0, k) == Cell(16 * h.i + d.i, 16 * h.j + d.j, d.o)
  {
    assert ChunkCell(p, o0, k) == d;
  }

  /** and so is the cell of the top 28 - 4k levels when the prefix at k + 1
      is that of the top 28 - 4(k + 1). */
  lemma {:induction false} TopCellStep(p: nat, o0: Bits2, k: int, sh: nat, h: Cell, d: Cell)
    requires -1 <= k < 7 && sh == 8 * k + 8
    requires h == TopCell(p, o0, k + 1)
    requires d == IJOf(LookupBits, h.o, Low(Shr(p, sh), 2 * LookupBits))
    ensures TopCell(p, o0, k) == Cell(16 * h.i + d.i, 16 * h.j + d.j, d.o)
  {
    DecodeRoundAt(p, o0, k, h);
  }

  /** After the last round the prefix covers all 32 levels, which for a
      position below 2^60 is the cell of the 30-level curve. */
  lemma {:induction false} DecodePrefixDone(p: nat, o0: Bits2)
    requires o0 < 2 && p < Pow2(2 * MaxLevel)
    ensures DecodePrefix(p, o0, -1) == IJOf(MaxLevel, o0, p)
  {
    DecodePrefixIJOf(p, o0, -1);
    assert TopCell(p, o0, -1) == IJOf(MaxLevel + 2, o0, Shr(p, 0));
    assert Shr(p, 0) == p;
    IJOfFace(o0, p);
  }

  /** (x.intValue() & ((1 << w) - 1)): the two's-complement truncation to
      32 bits keeps the low 32 bits, of which the mask keeps the low w. */
  lemma {:induction false} MaskTruncated(y: nat, w: nat, mask: nat)
    requires w <= 32 && mask == Shl(1, w) - 1
    ensures BitAnd(Low(y, 32), mask) == Low(y, w)
  {
    ShlOne(w);
    AndLowMask(Low(y, 32), w);
    LowLow(y, w, 32 - w);
  }

  /** The chunk a round reads at bit 8k + 1 of the identifier, 8 bits wide
      (4 in the first round), is the 8-bit chunk of the curve position at
      bit 8k. */
  lemma {:induction false} ChunkRead(c: CellId, k: nat, w: nat, s: nat)
    requires k <= 7 && w == (if k == 7 then 4 else 8) && s == 8 * k
    ensures Low(Shr(c.id, s + 1), w) == Low(Shr(CurvePos(c), s), 2 * LookupBits)
  {
    var x := Shr(c.id, 1);
    ShrShr(c.id, 1, s);
    assert Shr(c.id, 1 + s) == Shr(c.id, s + 1);
    ShrLow(x, s, 2 * MaxLevel - s);
    var y := Shr(x, s);
    if k == 7 {
      Small(Low(y, 4), 8);
      Pow2Monotone(4, 8);
    } else {
      LowLow(y, 8, 2 * MaxLevel - s - 8);
    }
  }

  /** A LOOKUP_IJ value (i * 16 + j) * 4 + o unpacks with >> 6, (>> 2) & 15
      and & 3. */
  lemma {:induction false} UnpackIJ(e: nat, i: nat, j: nat, o: nat)
    requires i < 16 && j < 16 && o < 4 && e == (i * 16 + j) * 4 + o
    ensures Shr(e, LookupBits + 2) == i
    ensures BitAnd(Shr(e, 2), Shl(1, LookupBits) - 1) == j
    ensures BitAnd(e, SwapMask + InvertMask) == o
  {
    UnpackPos(e, i * 16 + j, o);
    ShrShr(e, 2, 4);
    ShlMul(i, 4);
    assert Pow2(4) == 16;
    SplitUnique(i, j, 4);
    ShlOne(4);
    AndLowMask(i * 16 + j, 4);
  }

  /** The LOOKUP_IJ entry under the key packed from the 8-bit chunk pc and
      orientation o unpacks to the chunk's cell and exit orientation. */
  lemma {:induction false} IJLookup(pc: nat, o: Bits2, key: nat)
    requires pc < 256 && key == o + Shl(pc, 2)
    ensures key < TableSize
    ensures var e := IJEntry(key);
      Cell(Shr(e, LookupBits + 2), BitAnd(Shr(e, 2), Shl(1, LookupBits) - 1), BitAnd(e, SwapMask + InvertMask))
        == IJOf(LookupBits, o, pc)
  {
    ShlMul(pc, 2);
    assert Pow2(2) == 4;
    IJEntryAt(pc, o);
    LookupSizes();
    var d := IJOf(LookupBits, o, pc);
    UnpackIJ(IJEntry(key), d.i, d.j, d.o);
  }

  /** Adding a 4-bit chunk shifted to bit sc = s to a value holding the
      upper bits above bit s + 4. */
  lemma {:induction false} Accumulate(hi: nat, ci: nat, s: nat, s4: nat, acc: int, t: nat)
    requires s4 == s + 4 && acc == Shl(hi, s4) && t == 16 * hi + ci
    ensures acc + Shl(ci, s) == Shl(t, s)
  {
    var a := Shl(hi, 4);
    assert a == 16 * hi by {
      ShlMul(hi, 4);
      assert Pow2(4) == 16;
    }
    ShlShl(hi, 4, s);
    ShlAdd(a, ci, s);
  }

  /** One round of faceij_orientation, as the loop body computes it with
      the read shift k * 2 * LOOKUP_BITS + 1 = 8k + 1, the chunk width
      2 * nbits and the coordinate shift k * LOOKUP_BITS = 4k: the table key
      is in range, and the entry it selects carries the decoding state down
      one chunk. */
  lemma {:induction false} DecodeStep(c: CellId, k: nat, nbits: nat, o: nat, i: nat, j: nat, mask: nat, key: nat)
    requires k <= 7 && DecodeState(c, k, o, i, j)
    requires nbits == (if k == 7 then 2 else 4) && mask == Shl(1, 2 * nbits) - 1
    requires key == o + Shl(BitAnd(Low(Shr(c.id, 8 * k + 1), 32), mask), 2)
    ensures key < TableSize
    ensures var e := IJEntry(key);
      DecodeState(c, k - 1, BitAnd(e, SwapMask + InvertMask),
        i + Shl(Shr(e, LookupBits + 2), 4 * k),
        j + Shl(BitAnd(Shr(e, 2), Shl(1, LookupBits) - 1), 4 * k))
  {
    var s := 8 * k;
    MaskTruncated(Shr(c.id, s + 1), 2 * nbits, mask);
    ChunkRead(c, k, 2 * nbits, s);
    var pc := Low(Shr(CurvePos(c), s), 2 * LookupBits);
    IJLookup(pc, o, key);
    var e := IJEntry(key);
    StateNext(c, k, s, o, i, j, Shr(e, LookupBits + 2), BitAnd(Shr(e, 2), Shl(1, LookupBits) - 1),
      BitAnd(e, SwapMask + InvertMask));
  }

  /** The decoding state moves down one chunk once the chunk read at bit
      s = 8k of the curve position is known to lead, from orientation o, to
      the cell (di, dj) with exit orientation dout. */
  lemma {:induction false} StateNext(c: CellId, k: nat, s: nat, o: Bits2, i: nat, j: nat, di: nat, dj: nat, dout: Bits2)
    requires k <= 7 && s == 8 * k && DecodeState(c, k, o, i, j)
    requires Cell(di, dj, dout) == IJOf(LookupBits, o, Low(Shr(CurvePos(c), s), 2 * LookupBits))
    ensures DecodeState(c, k - 1, dout, i + Shl(di, 4 * k), j + Shl(dj, 4 * k))
  {
    ChunkMatch(c, k, s, o, di, dj, dout);
    Descend(c, k, PrefixOf(c, k), i, j, di, dj, dout);
  }

  /** The prefix one round further down, given the cell the chunk at bit
      s = 8k leads to from the orientation o the prefix ends in. */
  lemma {:induction false} ChunkMatch(c: CellId, k: nat, s: nat, o: Bits2, di: nat, dj: nat, dout: Bits2)
    requires k <= 7 && s == 8 * k && o == PrefixOf(c, k).o
    requires Cell(di, dj, dout) == IJOf(LookupBits, o, Low(Shr(CurvePos(c), s), 2 * LookupBits))
    ensures PrefixOf(c, k - 1) == Cell(16 * PrefixOf(c, k).i + di, 16 * PrefixOf(c, k).j + dj, dout)
  {
    DecodePrefixStep(CurvePos(c), Face(c) % 2, k - 1, k, s);
  }

  /** The coordinates gathered so far, shifted to bit 4k + 4, plus the
      new chunk's coordinates at bit 4k, are the next prefix's at 4k. */
  lemma {:induction false} Descend(c: CellId, k: nat, h: Cell, i: nat, j: nat, di: nat, dj: nat, dout: Bits2)
    requires k <= 7 && i == Shl(h.i, 4 * k + 4) && j == Shl(h.j, 4 * k + 4)
    requires PrefixOf(c, k - 1) == Cell(16 * h.i + di, 16 * h.j + dj, dout)
    ensures DecodeState(c, k - 1, dout, i + Shl(di, 4 * k), j + Shl(dj, 4 * k))
  {
    var sc := 4 * k;
    var g := Cell(16 * h.i + di, 16 * h.j + dj, dout);
    Accumulate(h.i, di, sc, 4 * k + 4, i, g.i);
    Accumulate(h.j, dj, sc, 4 * k + 4, j, g.j);
    StateOfCell(c, k, sc, g, i + Shl(di, sc), j + Shl(dj, sc));
  }

  /** The decoding state below round k holds the prefix g, shifted to 4k. */
  lemma {:induction false} StateOfCell(c: CellId, k: nat, sc: nat, g: Cell, i: nat, j: nat)
    requires k <= 7 && sc == 4 * k && PrefixOf(c, k - 1) == g
    requires i == Shl(g.i, sc) && j == Shl(g.j, sc)
    ensures DecodeState(c, k - 1, g.o, i, j)
  {
    StateDown(c, k, sc, g.o, i, j);
  }

  /** Before the first round: nothing decoded yet and the orientation the
      face's parity. */
  lemma {:induction false} DecodeStart(c: CellId)
    ensures DecodeState(c, 7, BitAnd(Face(c), SwapMask), 0, 0)
  {
    FaceParity(Face(c));
  }

  /** One pass of faceij_orientation's loop: reads the chunk of the
      identifier at bit 8k + 1, looks it up with the orientation so far, and
      adds the chunks of i and j it yields at bit 4k. */
  method DecodeRoundM(tables: LookupTables, c: CellId, k: nat, nbits: nat, o0: nat, i0: nat, j0: nat)
    returns (o: nat, i: nat, j: nat)
    requires tables.Valid()
    requires k <= 7 && DecodeState(c, k, o0, i0, j0)
    requires nbits == if k == 7 then 2 else 4
    ensures DecodeState(c, k - 1, o, i, j)
  {
    assert k * 2 * LookupBits == 8 * k && k * LookupBits == 4 * k;
    var mask := Shl(1, 2 * nbits) - 1;
    o := o0 + Shl(BitAnd(Low(Shr(c.id, k * 2 * LookupBits + 1), 32), mask), 2);
    DecodeStep(c, k, nbits, o0, i0, j0, mask, o);
    o := tables.ijTable[o];
    i := i0 + Shl(Shr(o, LookupBits + 2), k * LookupBits);
    j := j0 + Shl(BitAnd(Shr(o, 2), Shl(1, LookupBits) - 1), k * LookupBits);
    o := BitAnd(o, SwapMask + InvertMask);
  }

  /** After the last round the state holds the leaf cell of the curve
      position; flipping the orientation when the lowest set bit is at an
      odd level completes DecodeOf. */
  lemma {:induction false} DecodeFinish(c: CellId, k: int, o: nat, i: nat, j: nat, lsb: nat)
    requires k == -1 && DecodeState(c, k, o, i, j) && lsb == LowestSetBit(c.id)
    ensures o < 4
    ensures DecodeOf(c) == FaceIJ(Face(c), i, j,
      if BitAnd(lsb, SwapLevelMarkers) != 0 then Xor2(o, SwapMask) else o)
  {
    var p, o0 := CurvePos(c), Face(c) % 2;
    assert 4 * -1 + 4 == 0;
    assert Shl(DecodePrefix(p, o0, -1).i, 0) == DecodePrefix(p, o0, -1).i;
    assert Shl(DecodePrefix(p, o0, -1).j, 0) == DecodePrefix(p, o0, -1).j;
    DecodePrefixDone(p, o0);
  }

  /** faceij_orientation: decodes the face, the leaf coordinates (i, j)
      and the orientation of an identifier. */
  method FaceIJOrientation(tables: LookupTables, c: CellId) returns (r: FaceIJ)
    requires tables.Valid()
    ensures r == DecodeOf(c)
  {
    var f := Face(c);
    var i: nat, j: nat := 0, 0;
    var orientation: nat := BitAnd(f, SwapMask);
    var nbits := MaxLevel - 7 * LookupBits;
    DecodeStart(c);
    var k: int := 7;
    while k >= 0
      invariant DecodeState(c, k, orientation, i, j)
      invariant nbits == if k == 7 then 2 else 4
    {
      orientation, i, j := DecodeRoundM(tables, c, k, nbits, orientation, i, j);
      nbits := LookupBits;
      k := k - 1;
    }
    var lsb := Lsb(c);
    DecodeFinish(c, k, orientation, i, j, lsb);
    if BitAnd(lsb, SwapLevelMarkers) != 0 {
      orientation := Xor2(orientation, SwapMask);
    }
    r := FaceIJ(f, i, j, orientation);
  }

  // ---------------------------------------------------------------------
  // Round trips between from_face_ij and faceij_orientation.

  /** from_face_ij's value is the face above bit 61 and twice the position
      below it, so the face and the curve position read back. */
  lemma {:induction false} EncodedParts(face: nat, pos: nat, v: nat)
    requires pos < Pow2(2 * MaxLevel) && v == Shl(face, PosBits) + 2 * pos
    ensures Shr(v, PosBits) == face && Low(Shr(v, 1), 2 * MaxLevel) == pos
  {
    var y := Shl(face, 2 * MaxLevel) + pos;
    assert Shl(face, PosBits) == 2 * Shl(face, 2 * MaxLevel);
    assert Shr(v, 1) == y;
    SplitUnique(face, pos, 2 * MaxLevel);
    ShrShr(v, 1, 2 * MaxLevel);
  }

  /** For a face below 6 that value lies below WRAP_OFFSET. */
  lemma {:induction false} EncodedBelowWrap(face: nat, pos: nat, v: nat)
    requires face < NumFaces && pos < Pow2(2 * MaxLevel) && v == Shl(face, PosBits) + 2 * pos
    ensures v < WrapOffset
  {
    ShlAdd(face, 1, 2 * MaxLevel);
    ShlOne(2 * MaxLevel);
    ShlMonotone(face + 1, NumFaces, 2 * MaxLevel);
    assert Shl(face, PosBits) == 2 * Shl(face, 2 * MaxLevel);
    assert Shl(NumFaces, PosBits) == 2 * Shl(NumFaces, 2 * MaxLevel);
    WrapOffsetValue();
  }

  /** Clearing bit 0 of x leaves its face above bit 61 and twice its curve
      position below it. */
  lemma {:induction false} ClearedBit0(x: nat, f: nat, p: nat)
    requires f == Shr(x, PosBits) && p == Low(Shr(x, 1), 2 * MaxLevel)
    ensures x - x % 2 == Shl(f, PosBits) + 2 * p
  {
    var y := Shr(x, 1);
    assert y == x / 2;
    Split(y, 2 * MaxLevel);
    ShrShr(x, 1, 2 * MaxLevel);
    assert Shl(f, PosBits) == 2 * Shl(f, 2 * MaxLevel);
  }

  /** from_face_ij's identifier lies below WRAP_OFFSET and reads back the
      face and the curve position of (i, j). */
  lemma {:induction false} EncodeFields(face: nat, i: nat, j: nat)
    requires face < NumFaces && i < Pow2(MaxLevel) && j < Pow2(MaxLevel)
    ensures EncodeOf(face, i, j).id < WrapOffset
    ensures Face(EncodeOf(face, i, j)) == face
    ensures CurvePos(EncodeOf(face, i, j)) == PosOf(MaxLevel, face % 2, i, j).pos
  {
    var o: Bits2 := face % 2;
    var s := PosOf(MaxLevel, o, i, j);
    PosOfBound(MaxLevel, o, i, j);
    Pow4Pow2(MaxLevel);
    var v := EncodedValue(face, i, j);
    assert v == Shl(face, PosBits) + 2 * s.pos;
    EncodedBelowWrap(face, s.pos, v);
    WrapOffsetValue();
    var c := EncodeOf(face, i, j);
    assert c == CellId(v);
    EncodedParts(face, s.pos, v);
  }

  /** Decoding what from_face_ij encodes gives back the face and the leaf
      coordinates, and the orientation the encoding walk ends with (swapped
      when the lowest set bit is one of SwapLevelMarkers). */
  lemma {:induction false} DecodeEncode(face: nat, i: nat, j: nat)
    requires face < NumFaces && i < Pow2(MaxLevel) && j < Pow2(MaxLevel)
    ensures EncodeOf(face, i, j).id < WrapOffset
    ensures var d := DecodeOf(EncodeOf(face, i, j));
      d.face == face && d.i == i && d.j == j
    ensures var o := PosOf(MaxLevel, face % 2, i, j).o;
      DecodeOf(EncodeOf(face, i, j)).orientation
        == if BitAnd(LowestSetBit(EncodeOf(face, i, j).id), SwapLevelMarkers) != 0 then Xor2(o, SwapMask) else o
  {
    EncodeFields(face, i, j);
    IJOfPosOf(MaxLevel, face % 2, i, j);
  }

  /** The top 28 - 4k levels of (i, j), whose position the encoder has
      built before round k, sit above the low 8k + 8 bits of the full curve
      position, and the curve walked to that top position comes back to the
      top bits of i and j with the same orientation. */
  lemma {:induction false} TopPosition(face: nat, i: nat, j: nat, k: int, r: nat, n: nat, h: Spot)
    requires i < Pow2(MaxLevel) && j < Pow2(MaxLevel)
    requires -1 <= k <= 7 && n == 4 * k + 4 && r == 28 - 4 * k
    requires h == TopSpot(face, i, j, k)
    ensures Shr(PosOf(MaxLevel, face % 2, i, j).pos, 2 * n) == h.pos
    ensures IJOf(r, face % 2, h.pos) == Cell(Shr(i, n), Shr(j, n), h.o)
  {
    var o: Bits2 := face % 2;
    assert h == PosOf(r, o, Shr(i, n), Shr(j, n));
    TopSplit(o, i, j, r, n, h);
    Pow2Monotone(MaxLevel, 32);
    ShrBelow(i, n, r, 32);
    ShrBelow(j, n, r, 32);
    IJOfPosOf(r, o, Shr(i, n), Shr(j, n));
  }

  /** The 30-level position of (i, j) is the position h of its top r
      levels followed by 2n bits for the bottom n levels (r + n = 32). */
  lemma {:induction false} TopSplit(o: Bits2, i: nat, j: nat, r: nat, n: nat, h: Spot)
    requires o < 2 && i < Pow2(MaxLevel) && j < Pow2(MaxLevel)
    requires r + n == 32 && h == PosOf(r, o, Shr(i, n), Shr(j, n))
    ensures Shr(PosOf(MaxLevel, o, i, j).pos, 2 * n) == h.pos
  {
    PosChunk(r, n, o, i, j);
    var c := PosOf(n, h.o, Low(i, n), Low(j, n));
    PosOfBound(n, h.o, Low(i, n), Low(j, n));
    Pow4Pow2(n);
    PosOfFace(o, i, j);
    SplitUnique(h.pos, c.pos, 2 * n);
  }

  /** Round by round, decoding from_face_ij's identifier retraces the
      encoding: before round k (and after the last), the decoder has read
      back the top bits of i and j above bit 4k + 4 and carries the same
      orientation as the encoder. */
  lemma {:induction false} RoundsAgree(face: nat, i: nat, j: nat, k: int)
    requires face < NumFaces && i < Pow2(MaxLevel) && j < Pow2(MaxLevel)
    requires -1 <= k <= 7
    ensures PrefixOf(EncodeOf(face, i, j), k)
      == Cell(Shr(i, 4 * k + 4), Shr(j, 4 * k + 4), EncodePrefix(face, i, j, k).o)
  {
    var o: Bits2 := face % 2;
    var p := PosOf(MaxLevel, o, i, j).pos;
    EncodeFields(face, i, j);
    var h := TopSpot(face, i, j, k);
    TopPosition(face, i, j, k, 28 - 4 * k, 4 * k + 4, h);
    assert 2 * (4 * k + 4) == 8 * k + 8;
    DecodePrefixIJOf(p, o, k);
    PrefixPosOf(face, i, j, k);
  }

  /** The two loops side by side: when from_face_ij and faceij_orientation,
      run on its result, stand before the same round k, the orientation
      bits of the one equal the orientation of the other, and the decoder's
      i and j are those of the encoder with the low 4k + 4 bits cleared. */
  lemma {:induction false} LoopStatesAgree(face: nat, i: nat, j: nat, k: int,
                                           bits: nat, n: nat, o: nat, di: nat, dj: nat)
    requires face < NumFaces && i < Pow2(MaxLevel) && j < Pow2(MaxLevel)
    requires EncodeState(face, i, j, k, bits, n)
    requires DecodeState(EncodeOf(face, i, j), k, o, di, dj)
    ensures bits == o
    ensures di == i - Low(i, 4 * k + 4) && dj == j - Low(j, 4 * k + 4)
  {
    RoundsAgree(face, i, j, k);
    Split(i, 4 * k + 4);
    Split(j, 4 * k + 4);
  }

  /** Encoding what faceij_orientation decodes gives back the identifier
      with bit 0 cleared: from_face_ij adds no lowest set bit, so the level
      marker of a non-leaf cell survives as a position bit and only the
      marker of a leaf is lost. */
  lemma {:induction false} EncodeDecode(c: CellId)
    requires c.id < Modulus
    ensures var d := DecodeOf(c);
      EncodeOf(d.face, d.i, d.j) == CellId(c.id - c.id % 2)
  {
    var d := DecodeOf(c);
    var f, p := Face(c), CurvePos(c);
    var o: Bits2 := f % 2;
    Pow4Pow2(MaxLevel);
    PosOfIJOf(MaxLevel, o, p);
    assert PosOf(MaxLevel, o, d.i, d.j).pos == p;
    ClearedBit0(c.id, f, p);
    assert EncodedValue(d.face, d.i, d.j) == c.id - c.id % 2;
  }

  /** Below WRAP_OFFSET, an identifier decodes to (face, i, j) exactly when
      it is the leaf identifier from_face_ij builds for them, with bit 0
      set or not. */
  lemma {:induction false} DecodeIff(c: CellId, face: nat, i: nat, j: nat)
    requires c.id < WrapOffset
    requires face < NumFaces && i < Pow2(MaxLevel) && j < Pow2(MaxLevel)
    ensures var d := DecodeOf(c);
      d.face == face && d.i == i && d.j == j <==> c.id - c.id % 2 == EncodeOf(face, i, j).id
  {
    var d := DecodeOf(c);
    var e, x := EncodeOf(face, i, j), c.id - c.id % 2;
    WrapOffsetValue();
    EncodeDecode(c);
    assert EncodeOf(d.face, d.i, d.j) == CellId(x);
    if x == e.id {
      FaceBelowWrap(c);
      DecodeEncode(d.face, d.i, d.j);
      DecodeEncode(face, i, j);
      assert EncodeOf(d.face, d.i, d.j) == e;
    }
  }
}
