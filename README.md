# S2 cell identifiers (simple-s2-node `geometry/cellid.js`)

This project models the core of the JavaScript port of the S2 cell
identifier, `geometry/cellid.js`, in Dafny and proves properties of it.

A cell identifier is a 64-bit value. It holds three things:

- a cube face (bits 61 and up);
- a position along that face's Hilbert-like curve;
- a level marker. This is the lowest set bit, and its place gives the cell's
  level of subdivision, from 0 to 30.

The source keeps identifiers in arbitrary-precision integers. The
constructor reduces them modulo 2^64 - 1. Every operation that builds a new
identifier goes through it. `advance` and `advance_wrap` with 0 steps are
the exception: they hand back the identifier's own value.

The model has six modules.

- `Bits` (bits.dfy) covers shifts, masks, `and`/`or` and the trailing-zero
  count on unbounded naturals. This is the arithmetic the source does with
  its big-integer library.
- `Curve` (curve.dfy) covers the `POS_TO_IJ` and `POS_TO_ORIENTATION`
  tables. It defines the curve as a walk over base-4 digits. `PosOf` goes
  from a cell to its position; `IJOf` goes from a position to its cell. The
  module proves the two are inverse.
- `Lookup` (lookup.dfy) models the `LOOKUP_POS` and `LOOKUP_IJ` tables.
  - They are built by the recursive `_init_lookup_cell` and its four seed
    calls, modelled as the class `LookupTables`.
  - The tables are `seq<int>` fields that the methods reassign.
  - Each method is proved against the entries the finished tables hold.
  - The module proves that the two tables are inverse.
- `CellIds` (cellid.dfy) covers:
  - the constructor and `clamp`;
  - `lsb`, `level` and `face`;
  - `lsb_for_level` and `parent`;
  - `advance`, `advance_wrap`, `next` and `prev`.

  The operations that work step by step are methods. Each one is proved
  equal to a specification function, and the properties are proved about
  those functions.
- `Codec` (codec.dfy) models `from_face_ij`, the chunk-by-chunk encoder. It
  proves the encoder builds face · 2^61 + 2 · (position of (i, j) on the
  face's curve).
- `Decoder` (decoder.dfy) models `faceij_orientation`, the chunk-by-chunk
  decoder. It also proves the round trips between decoding and
  `from_face_ij`.

The model keeps these quirks of the source exactly as written:

- `from_face_ij` adds no final `+ 1`, so its result carries no level marker.
- `parent` subtracts 1 when the identifier reads as level 30.
- `level` tests the lowest set bit against 32-bit masks only. A lowest set
  bit at bit 32 or above, or at an odd place, gives level 15.
- The constructor reduces modulo 2^64 - 1, not 2^64.

## Model

| member | source | states |
|---|---|---|
| Curve.IJToPos | geometry/cellid.js:22-27 | gives the step at which the curve of an orientation visits a quadrant; it picks out an entry of that orientation's row of POS_TO_IJ |
| Curve.PosToIJInjective | geometry/cellid.js:22-27 | every row of POS_TO_IJ is a permutation of the four quadrants |
| Curve.IJToPosIff | geometry/cellid.js:22-27 | a curve visits quadrant q at step idx exactly when the table maps idx to q |
| Curve.PosToIJGray | geometry/cellid.js:22-27 | each row of POS_TO_IJ is the Gray-code order 0, 1, 3, 2 of the quadrants, with i and j exchanged under SWAP and both flipped under INVERT |
| Curve.PosToOrientationCorners | geometry/cellid.js:28 | with the orientation turned by POS_TO_ORIENTATION, the sub-curve at step 0 starts in the curve's first quadrant, the one at step 3 ends in its last quadrant, and steps 1 and 2 keep the orientation |
| Curve.SubCurvesJoin | geometry/cellid.js:22-28 | two levels down, the last cell of the sub-curve at each step shares an edge with the first cell of the sub-curve at the next step |
| Curve.PosOfIJOf | geometry/cellid.js:35-54 | walking the curve to position p and asking where that cell lies gives back p, with the same final orientation |
| Curve.IJOfPosOf | geometry/cellid.js:35-54 | taking the position of cell (i, j) and walking to it gives back (i, j), with the same final orientation |
| Curve.CurveInverse | geometry/cellid.js:35-54 | the curve visits (i, j) at pos with final orientation o' if and only if its pos-th cell is (i, j) with orientation o' |
| Lookup.PosEntryAt | geometry/cellid.js:36-40 | the LOOKUP_POS entry for chunk pair (i, j) and orientation o packs the 8-bit curve position of (i, j) and the orientation after it |
| Lookup.IJEntryAt | geometry/cellid.js:36-40 | the LOOKUP_IJ entry for position pos and orientation o packs the cell the curve visits there and the orientation after it |
| Lookup.TablesInverse | geometry/cellid.js:35-59 | LOOKUP_POS maps (ij, o) to (pos, o') if and only if LOOKUP_IJ maps (pos, o) to (ij, o') |
| Lookup.SeedsFill | geometry/cellid.js:56-59 | the four seed calls, one per starting orientation, together fill every slot of both tables |
| Lookup.LookupTables.constructor | geometry/cellid.js:29-59 | two 1024-slot tables, once all four seed calls have run, hold exactly the finished entries, and no slot is left unwritten |
| Lookup.LookupTables.InitCell | geometry/cellid.js:35-54 | a call at depth `level` writes the slots of the cell it covers, with the curve position and orientation of each, and leaves every other slot as it was |
| Lookup.LookupTables.InitQuadrant | geometry/cellid.js:46-52 | one pass of the loop fills the slots of the quadrant visited index-th, at child position 4·pos + index with the turned orientation |
| CellIds.NewCellId | geometry/cellid.js:92-100 | the stored value is below 2^64 - 1, and a value already in 0 .. 2^64 - 2 is kept as it is |
| CellIds.Construct | geometry/cellid.js:92-100 | adding 2^64 - 1 when intValue() is negative and then reducing gives the same identifier as reducing alone |
| CellIds.ReduceIsMod | geometry/cellid.js:98 | the reduction is the remainder modulo 2^64 - 1 that is never negative |
| CellIds.NewCellIdMod | geometry/cellid.js:92-100 | the constructor stores v mod (2^64 - 1) |
| CellIds.Clamp | geometry/cellid.js:77-85 | when min <= max, the result lies in min .. max and no value in that range is closer to x |
| CellIds.Lsb | geometry/cellid.js:106-119 | returns 0 for the identifier 0; otherwise returns 2^t, where bit t is set and every bit below t is clear |
| CellIds.LevelOf | geometry/cellid.js:121-138 | the level is at most 30, and at least 15 for a non-zero identifier |
| CellIds.Level | geometry/cellid.js:121-138 | the mask tests compute 30 - t/2 when the lowest set bit t is even and below 32, 15 for any other non-zero identifier, and 0 for 0 |
| CellIds.FaceRange | geometry/cellid.js:140-142 | an identifier lies in its face's block face·2^61 .. (face+1)·2^61 - 1 |
| CellIds.FaceOf | geometry/cellid.js:140-142 | f·2^61 plus a position below 2^61 has face f |
| CellIds.FaceBelowWrap | geometry/cellid.js:140-142 | identifiers below WRAP_OFFSET have a face below 6 |
| CellIds.LsbForLevel | geometry/cellid.js:234-236 | the marker of a level is 2^(2·(30 - level)) |
| CellIds.LsbForLevelLevel | geometry/cellid.js:234-236 | the marker of each level 15 .. 30 reads back as that level |
| CellIds.ParentOf | geometry/cellid.js:269-276 | below WRAP_OFFSET, parent(level) keeps the bits above the marker and sets the marker; it subtracts 1 when the identifier reads as level 30; the result stays below WRAP_OFFSET, so the reduction never applies |
| CellIds.ParentBits | geometry/cellid.js:269-276 | for an identifier not at level 30: the bits above the marker are kept, the marker bit is set, the bits below it are clear, and the result stays below WRAP_OFFSET |
| CellIds.ParentLevel | geometry/cellid.js:269-276 | for levels 15 .. 30, parent(level) has level `level` |
| CellIds.ParentIdempotent | geometry/cellid.js:269-276 | below level 30, taking parent(level) twice is the same as taking it once |
| CellIds.ParentOfLeaf | geometry/cellid.js:269-276 | for an identifier that reads as level 30, parent(level) lands one below the marked value, and parent(30) is the identifier minus 1 |
| CellIds.ParentOwnLevel | geometry/cellid.js:269-276 | a cell below WRAP_OFFSET whose level is 15 .. 29 is its own parent at its own level |
| CellIds.Advance | geometry/cellid.js:144-161 | returns the identifier unchanged for 0 steps; otherwise it clamps the count to -(id >> s) .. (WRAP_OFFSET + lsb - id) >> s and adds count << s |
| CellIds.AdvanceBounds | geometry/cellid.js:144-161 | the value advance hands to the constructor is at least 0; going back it does not pass the identifier; going forward it does not pass WRAP_OFFSET + lsb; it keeps the low s bits; counts inside the bounds are not changed |
| CellIds.AdvanceResultBounds | geometry/cellid.js:144-161 | when the marker lies below bit 62 and the identifier below 2^64 - 1, the constructor keeps that value, so advance's result itself satisfies the same bounds and keeps the low s bits |
| CellIds.KeepsLevel | geometry/cellid.js:121-138 | two non-zero values that agree in their low s bits have the same level, and the same lowest set bit when it lies below bit 31 |
| CellIds.HighMarkerLevel | geometry/cellid.js:121-138 | a non-zero value whose low 31 bits are clear reads as level 15 |
| CellIds.AdvanceLevel | geometry/cellid.js:144-161 | when the reduction does not apply, advance keeps the level unless its value is 0; when the marker lies in the low 31 bits the value is never 0 |
| CellIds.TruncRem | geometry/cellid.js:179 | JavaScript's `%`: the remainder lies strictly between -b and b, has the sign of the dividend, and leaves a dividend already in that range unchanged |
| CellIds.TruncRemIsMod | geometry/cellid.js:179 | `%` is the remainder of abs(a) with the sign of a |
| CellIds.AdvanceWrap | geometry/cellid.js:166-203 | keeps counts within -(id >> s) .. (WRAP_OFFSET - id) >> s; a count past either end is reduced by the wrap modulus, and if it is still out of range it is moved by one modulus the other way |
| CellIds.AdvanceWrapInRange | geometry/cellid.js:166-203 | when the count does not wrap, advance_wrap takes the same step as advance |
| CellIds.AdvanceWrapBounds | geometry/cellid.js:166-203 | with the modulus WRAP_OFFSET >> s, advance_wrap keeps an identifier below WRAP_OFFSET within 0 .. WRAP_OFFSET |
| CellIds.Next | geometry/cellid.js:212-217 | takes one advance_wrap step forward, then takes the parent at the original level when the result's level differs |
| CellIds.Prev | geometry/cellid.js:205-210 | takes one advance_wrap step back, with the same re-parenting |
| CellIds.NextStep | geometry/cellid.js:212-217 | for a non-zero identifier with room below WRAP_OFFSET, next adds 2^s, keeps the level (and the lowest set bit when it lies below bit 31) and does not re-parent |
| CellIds.PrevStep | geometry/cellid.js:205-210 | from above 2^s, prev subtracts 2^s, keeps the level (and the lowest set bit when it lies below bit 31) and does not re-parent |
| CellIds.PrevNext | geometry/cellid.js:205-217 | for a non-zero identifier with room for one more step below WRAP_OFFSET, prev(next(c)) == c, at every level |
| CellIds.NextPrev | geometry/cellid.js:205-217 | for an identifier up to WRAP_OFFSET whose step back does not reach 0, next(prev(c)) == c, at every level |
| CellIds.PrevFromFirstStep | geometry/cellid.js:205-210 | prev of the cell one step above 0 is re-parented to the bare marker of its level |
| CellIds.NextPrevAtFirstStep | geometry/cellid.js:205-217 | 2^31 reads as level 15 with step 2^31; prev of it reaches 0 and is re-parented to 2^30, and next of that is 2^30 + 2^31, not 2^31 |
| Codec.EncodeStart | geometry/cellid.js:296-297 | before the loop, n = face << 60 and bits = face & 1 describe an empty prefix |
| Codec.PosLookup | geometry/cellid.js:300-303 | the key built from the 4-bit chunks of i and j and the orientation is a slot of LOOKUP_POS, and the entry there is that chunk pair's position and orientation |
| Codec.EncodeRoundM | geometry/cellid.js:299-305 | one round places the chunk pair's 8-bit position below the ones before it and carries the orientation on |
| Codec.PrefixPosOf | geometry/cellid.js:298-306 | the position built chunk by chunk from the top equals the curve position of the top 28 - 4k levels of (i, j) |
| Codec.EncodeDone | geometry/cellid.js:298-313 | after the loop, 2·n is face·2^61 + 2·(position of (i, j) on the face's 30-level curve, started with orientation face & 1) |
| Codec.FromFaceIJ | geometry/cellid.js:295-314 | from_face_ij returns the identifier face·2^61 + 2·PosOf(30, face & 1, i, j), with no + 1 |
| Decoder.CurvePos | geometry/cellid.js:252-253 | the position bits 1 .. 60 that decoding reads are below 2^60 |
| Decoder.MaskTruncated | geometry/cellid.js:253 | masking intValue() keeps the low bits of the shifted identifier, because the mask is narrower than 32 bits |
| Decoder.ChunkRead | geometry/cellid.js:252-253 | chunk k of the identifier (4 bits wide for the top chunk, 8 for the others) is the matching 8-bit chunk of the curve position |
| Decoder.IJLookup | geometry/cellid.js:253-258 | the key built from a position chunk and the orientation is a slot of LOOKUP_IJ, and the entry there is the cell and orientation the curve has at that chunk |
| Decoder.UnpackIJ | geometry/cellid.js:255-258 | a LOOKUP_IJ entry unpacks into its i chunk, its j chunk and the orientation |
| Decoder.DecodePrefixIJOf | geometry/cellid.js:251-260 | the coordinates built chunk by chunk from the top equal the cell the curve visits over the top 28 - 4k levels |
| Decoder.DecodePrefixDone | geometry/cellid.js:251-260 | after all eight rounds, the accumulated (i, j, orientation) is the leaf cell at the identifier's 60-bit curve position |
| Decoder.DecodeStart | geometry/cellid.js:244-249 | before the loop, i = j = 0 and orientation = face & 1 describe an empty prefix |
| Decoder.DecodeRoundM | geometry/cellid.js:251-259 | one round looks the next position chunk up and appends its i and j chunks below the ones before |
| Decoder.DecodeFinish | geometry/cellid.js:262-266 | the final orientation is flipped by SWAP_MASK exactly when the lowest set bit is one of the markers in 1229782938247303440 |
| Decoder.DecodeOf | geometry/cellid.js:243-267 | decoded i and j are leaf coordinates below 2^30 |
| Decoder.FaceIJOrientation | geometry/cellid.js:243-267 | faceij_orientation returns the face, the leaf cell the face's curve visits at the identifier's position bits, and the orientation there, swapped for the listed levels |
| Decoder.EncodedParts | geometry/cellid.js:295-314 | from_face_ij's value has the face above bit 61 and the position in bits 1 .. 60 |
| Decoder.EncodedBelowWrap | geometry/cellid.js:295-314 | for a face below 6, from_face_ij's value lies below WRAP_OFFSET |
| Decoder.EncodeFields | geometry/cellid.js:295-314 | from_face_ij(face, i, j) lies below WRAP_OFFSET, has face `face`, and its position bits are the curve position of (i, j) |
| Decoder.TopPosition | geometry/cellid.js:298-306 | the position of the top 28 - 4k levels of (i, j) is the full curve position shifted down by 8k + 8 bits, and walking it comes back to the top bits of i and j |
| Decoder.RoundsAgree | geometry/cellid.js:251-260 | before each round, the decoder run on from_face_ij's identifier holds the top bits of i and j and the orientation the encoder had before the same round |
| Decoder.LoopStatesAgree | geometry/cellid.js:251-260 | when the encoder and the decoder stand before the same round, the encoder's orientation bits equal the decoder's orientation, and the decoder's i and j are the encoder's with the low 4k + 4 bits cleared |
| Decoder.DecodeEncode | geometry/cellid.js:243-267 | decoding from_face_ij(face, i, j) gives back face, i and j, and the orientation the curve has at (i, j), swapped for the listed levels |
| Decoder.EncodeDecode | geometry/cellid.js:295-314 | encoding the face, i and j decoded from an identifier gives back the identifier with bit 0 cleared |
| Decoder.DecodeIff | geometry/cellid.js:243-267 | below WRAP_OFFSET, an identifier decodes to (face, i, j) if and only if, with bit 0 cleared, it equals from_face_ij(face, i, j) |

## Left out

- The constructor called with no argument leaves the identifier unset.
  Every modelled operation builds its identifier from a value, so this path
  is not modelled.
- The helpers `uv_to_st`, `st_to_ij`, `from_lat_lng`, `from_point`,
  `from_face_ij_wrap`, `edgeNeighbors`, `size_ij`, the uv/st/point
  conversions and `toLong` are not part of this model. They are floating
  point geometry and conversions outside the identifier scheme.
- The big-integer library is modelled by unbounded naturals and integers.
  Its `shiftRight`, `and`, `or`, `negate` and `mod` are stated as
  arithmetic. `x.and(x.negate())` in `level` is the lowest set bit, and
  `and(new_lsb.negate())` in `parent` clears the bits below the marker.
- The demo script `index.js` is not part of this model.
- CellIds.AdvanceWrap takes the wrap modulus as a parameter `wrap > 0`.
  - The source computes it in two ways. One is `WRAP_OFFSET >> shift`, a
    JavaScript shift of a big-integer object. The other is the 32-bit
    `intValue()` of `WRAP_OFFSET.shiftRight(shift)`.
  - Neither gives the intended count of cells per level as a number.
  - The modelled operation uses whatever modulus it is given.
  - CellIds.AdvanceWrapBounds proves the bound for the intended modulus,
    WRAP_OFFSET >> s.
- CellIds.Next and CellIds.Prev take the same `wrap` parameter, for the
  same reason.
- CellIds.NextPrev requires the step back not to reach 0. Prev of the
  first step of a level lands on 0, which reads as level 0 and is
  re-parented. CellIds.NextPrevAtFirstStep shows that next then does not
  undo prev.
- CellIds.AdvanceLevel promises the level only when advance's value is not
  0, since 0 reads as level 0. That can happen only when the lowest set bit
  lies at bit 31 or above.
- CellIds.Advance and CellIds.AdvanceWrap return the identifier itself for
  0 steps. The source returns `this.cellId.clone()` there
  (geometry/cellid.js:145, 167-168), which is a bare big integer, not a
  CellId object. The model does not distinguish the two.
- CellIds.AdvanceBounds states its bounds on the value advance hands to the
  constructor. CellIds.AdvanceResultBounds carries them over to the result
  when the lowest set bit lies below bit 62 and the identifier below
  2^64 - 1. Otherwise the reduction may apply: for 2^63 and the clamped
  maximum of 3 · 2^31 steps the value is 2^64 + 2^62, and the result is
  2^62 + 1.
- CellIds.ParentOwnLevel covers the levels 15 .. 29. At level 30 parent
  subtracts 1 (CellIds.ParentOfLeaf). Below level 15 `level` reads 15, so
  parent at that level moves the marker.
- The `CellId` datatype does not carry the bound id < 2^64 - 1. The
  constructor (CellIds.NewCellId) establishes it, and every lemma that needs
  it requires it.
- CellIds.ParentBits, CellIds.ParentLevel and CellIds.ParentIdempotent
  leave out identifiers that read as level 30. For those, CellIds.ParentOfLeaf
  states what parent does: it subtracts 1.
- CellIds.ParentLevel covers the levels 15 .. 30 only. For levels below 15
  the marker lies at bit 32 or above, and `level` reads 15 whatever the
  marker.
- Codec.FromFaceIJ requires i, j < 2^30. Every caller passes the result of
  `st_to_ij`, which clamps to 0 .. 2^30 - 1. This also keeps the source's
  32-bit shifts of i and j exact.
- Lookup.LookupTables.InitQuadrant, Codec.EncodeRoundM and
  Decoder.DecodeRoundM hold the bodies of the source's loops. Each one is a
  method of its own, proved against the loop invariant, rather than code
  inside the loop.
- The tables are `seq<int>` fields that the methods reassign, not
  JavaScript arrays updated in place. Unwritten slots, `undefined` in the
  source, are modelled as -1.
