# Grid-graph neighbourhood tables (vigra `multi_gridgraph_neighborhoods.hxx`)

A Dafny model of how vigra's N-dimensional grid graph precomputes, for a cell
of a `MultiArray`, which of its neighbours exist when the cell lies on the
array border.

- **Border code** (`Border`). `BorderTypeImpl<N>::exec` packs a cell's
  position into an unsigned code with two bits per dimension. Bit 2d means
  "coordinate d is 0" (low border). Bit 2d+1 means "coordinate d is
  extent-1" (high border). Code 0 is a strictly interior cell.
- **Canonical offset lists** (`Enumeration`). The direct neighbourhood
  (2N axis steps) and the indirect neighbourhood (the 3^N - 1 non-zero
  vectors of {-1,0,1}^N) are produced by recursion over a dimension level,
  from N-1 down to 0. The resulting order is the order of ascending
  stride under the canonical strides (1, 3, 9, ...). The list is
  point-symmetric, and its first half is the causal (scan-order
  predecessor) half.
- **Existence masks** (`Existence`). `exists` and `markOutside` produce, for
  a border code, one flag per canonical slot. The flag says whether the
  slot's offset avoids every set border bit of the code. For an in-bounds
  cell this is exactly "the neighbour lies inside the array"
  (`Existence.NeighborInsideArray`).
- **Tables** (`Tables`). `makeArrayNeighborhood` builds, for all 4^N
  border codes:
  - the existence mask;
  - its causal and anticausal parts;
  - the ascending list of existing slots;
  - the offsets of those slots.

  `makeArraySubNeighborhood` projects the existing offsets of every code
  onto a caller-supplied stride vector.

Modules, one per file: `Bits` (powers of two, single bits, bitwise or on
naturals), `Shapes` (coordinate vectors as `seq<int>`, dot product,
canonical strides), `Border`, `Enumeration`, `Existence` and `Tables`.

Design choices:
- Template recursion over the compile-time `Level` is ordinary recursion
  on a natural number.
- `x & (1 << i)` tests are `Bit(x, i)`, and `|=` is an explicit bitwise `Or`.
- Each slot's existence is characterised independently of the recursion by
  `Existence.Inside`: the offset may step down only along dimensions whose
  low bit is clear, and up only along dimensions whose high bit is clear.
- The indirect enumeration has an independent closed form. Slot k has
  canonical stride k - (3^N - 1)/2, skipping 0 (`Enumeration.SlotStride`).
  Ordering, symmetry and the causal split are derived from this closed form.
- The code writes point[0] first and uses the strides (1, 3), so for N = 2
  the direct list is (0,-1), (-1,0), (1,0), (0,1), with strides -3, -1, 1, 3
  (`Enumeration.DirectOffsets2D`).
- `BorderType` does not validate out-of-range points, as in the code: such
  a point simply gets the bits its coordinates produce.

## Model

| member | source | states |
|---|---|---|
| Border.BorderTypeImpl | include/vigra/multi_gridgraph_neighborhoods.hxx:51-82 | for every dimension d up to `dim`, bit 2d of the code is set iff point[d] == 0 and bit 2d+1 iff point[d] == shape[d]-1; the code is below 2^(2·dim+2) |
| Border.BorderType | include/vigra/multi_gridgraph_neighborhoods.hxx:51-82 | the full code is below 4^N, and bit i is set iff i < 2N and the matching low/high border condition holds for dimension i/2 (no stray bits) |
| Border.BorderTypeZeroIffInterior | include/vigra/multi_gridgraph_neighborhoods.hxx:44-82 | for an in-bounds point, the code is 0 iff every coordinate is strictly between 0 and extent-1 |
| Border.BorderTypeUnitExtent | include/vigra/multi_gridgraph_neighborhoods.hxx:59-62 | in a dimension of extent 1 both border bits of that dimension are set |
| Enumeration.DirectOffsets | include/vigra/multi_gridgraph_neighborhoods.hxx:98-136 | the list from `level` has 2(level+1) entries: first the -1 steps of dimensions level, level-1, ..., 0, then the +1 steps of 0, ..., level |
| Enumeration.IndirectOffsets | include/vigra/multi_gridgraph_neighborhoods.hxx:146-203 | the list from `level` has 3^(level+1) entries, one fewer on the all-centre path, each of the point's dimension |
| Enumeration.IndirectEntryInBlock | include/vigra/multi_gridgraph_neighborhoods.hxx:146-203 | every emitted vector keeps the point's components above `level` and has a step in {-1,0,1} in every dimension up to `level` |
| Enumeration.IndirectStride | include/vigra/multi_gridgraph_neighborhoods.hxx:146-203 | slot k's stride over dimensions 0..level is k minus the centre index, counting one further past the centre when the centre is skipped |
| Enumeration.IndirectComplete | include/vigra/multi_gridgraph_neighborhoods.hxx:146-203 | every vector of the block is emitted, except the all-zero step on the centre path |
| Enumeration.Offsets | include/vigra/multi_gridgraph_neighborhoods.hxx:241-253 | the canonical list `neighborOffsets[0]` has 2N (direct) or 3^N - 1 (indirect) entries, each of dimension N |
| Enumeration.OffsetStrides | include/vigra/multi_gridgraph_neighborhoods.hxx:239-251 | closed form of every slot's canonical stride: -3^(N-1-k) then 3^(k-N) for direct lists, the centred slot count for indirect ones |
| Enumeration.OffsetsAscending | include/vigra/multi_gridgraph_neighborhoods.hxx:88-90 | the canonical strides of the list ascend strictly |
| Enumeration.OffsetsDistinct | include/vigra/multi_gridgraph_neighborhoods.hxx:146-159 | no offset occurs twice in either list |
| Enumeration.DirectOffsetsAreAxisSteps | include/vigra/multi_gridgraph_neighborhoods.hxx:98-136 | a vector is in the direct list iff it has dimension N and exactly one non-zero component, which is ±1 |
| Enumeration.IndirectOffsetsComplete | include/vigra/multi_gridgraph_neighborhoods.hxx:146-203 | a vector is in the indirect list iff it has dimension N, components in {-1,0,1}, and is not zero |
| Enumeration.StridesAntisymmetric | include/vigra/multi_gridgraph_neighborhoods.hxx:94-95 | slots k and count-1-k carry opposite canonical strides |
| Enumeration.OffsetsPointSymmetric | include/vigra/multi_gridgraph_neighborhoods.hxx:94-95 | slot k is the point reflection of slot count-1-k, for both kinds |
| Enumeration.CausalIffFirstHalf | include/vigra/multi_gridgraph_neighborhoods.hxx:91-93 | no slot has stride 0, and a slot's stride is negative iff it lies in the first half of the list |
| Enumeration.DirectOffsets2D | include/vigra/multi_gridgraph_neighborhoods.hxx:98-136 | for N = 2 the direct list is (0,-1), (-1,0), (1,0), (0,1) |
| Existence.DirectExists | include/vigra/multi_gridgraph_neighborhoods.hxx:114-143 | the direct mask from `level` has 2(level+1) flags; flag k tests the low bit of dimension level-k, then the high bits of 0..level |
| Existence.DirectExistsInside | include/vigra/multi_gridgraph_neighborhoods.hxx:114-143 | the direct mask flags exactly the direct offsets that avoid every set border bit of the code |
| Existence.MarkOutside | include/vigra/multi_gridgraph_neighborhoods.hxx:177-224 | `markOutside` at level L appends exactly 3^(L+1) flags, all false |
| Existence.MarkOutsideCount | include/vigra/multi_gridgraph_neighborhoods.hxx:216-224 | a `markOutside` block counts no existing neighbour |
| Existence.IndirectExists | include/vigra/multi_gridgraph_neighborhoods.hxx:161-214 | the indirect mask is as long as the offset list it is aligned with |
| Existence.IndirectExistsInside | include/vigra/multi_gridgraph_neighborhoods.hxx:161-214 | entry k of the indirect mask holds iff offset k of the matching list avoids every set border bit in dimensions 0..level |
| Existence.Exists | include/vigra/multi_gridgraph_neighborhoods.hxx:271-279 | the mask of a border code has one flag per canonical slot |
| Existence.ExistsInside | include/vigra/multi_gridgraph_neighborhoods.hxx:267-279 | for every code, slot l exists iff its offset steps down only where the low bit is clear and up only where the high bit is clear |
| Existence.NeighborInsideArray | include/vigra/multi_gridgraph_neighborhoods.hxx:96-97 | for an in-bounds cell, slot l is flagged in the mask of the cell's border code iff the cell moved by offset l is inside the array |
| Existence.InteriorHasAllNeighbors | include/vigra/multi_gridgraph_neighborhoods.hxx:242 | border code 0 has every neighbour |
| Existence.DirectCorner2D | include/vigra/multi_gridgraph_neighborhoods.hxx:114-143 | at the low corner of a 2-D image only the two +1 steps exist |
| Existence.DirectLowCornerCount | include/vigra/multi_gridgraph_neighborhoods.hxx:114-143 | a cell on the low border only, in every dimension, has exactly N direct neighbours |
| Existence.IndirectLowCorner | include/vigra/multi_gridgraph_neighborhoods.hxx:161-214 | at such a corner the indirect mask is the cascade of `markOutside` blocks and surviving blocks given by `LowCornerMask` |
| Existence.IndirectLowCornerCount | include/vigra/multi_gridgraph_neighborhoods.hxx:161-224 | at such a corner exactly 2^N - 1 indirect neighbours exist |
| Tables.ExistingSlots | include/vigra/multi_gridgraph_neighborhoods.hxx:297-298 | the lookup list ascends strictly, holds only slots whose flag is set, and holds every such slot |
| Tables.SplitByStride | include/vigra/multi_gridgraph_neighborhoods.hxx:284-296 | causal[l] is the existence flag when slot l's canonical stride is negative and false otherwise; anticausal[l] the reverse |
| Tables.CompactSlots | include/vigra/multi_gridgraph_neighborhoods.hxx:297-301 | the pushed lookup list is the existing slots in order, and the pushed offsets are those slots' offsets |
| Tables.ScanSlots | include/vigra/multi_gridgraph_neighborhoods.hxx:284-302 | the whole slot loop: the stride-sign split together with the compacted lookup and offset lists |
| Tables.BuildRow | include/vigra/multi_gridgraph_neighborhoods.hxx:267-302 | one row: the existence characterisation, causal = exists and first half, anticausal = exists and second half, lookup = existing slots, offsets = those slots' offsets |
| Tables.InteriorRowIsCanonical | include/vigra/multi_gridgraph_neighborhoods.hxx:242-251 | for code 0 the compacted offset row is the full canonical list |
| Tables.MakeArrayNeighborhood | include/vigra/multi_gridgraph_neighborhoods.hxx:228-305 | 1 << 2N rows in every table, row 0 of the offsets is the canonical list, and every row satisfies the per-code row facts |
| Tables.ProjectRow | include/vigra/multi_gridgraph_neighborhoods.hxx:321-324 | one entry per existing slot among the first m, entry i being the dot product of the i-th existing slot's offset with the strides |
| Tables.MakeArraySubNeighborhood | include/vigra/multi_gridgraph_neighborhoods.hxx:307-324 | 1 << 2N rows; row k has one entry per existing slot of code k, in slot order, each the dot product of that slot's offset with the strides |
| Tables.ProjectionAscending | include/vigra/multi_gridgraph_neighborhoods.hxx:321-324 | under the canonical strides a projected row ascends strictly, whatever the mask |
| Tables.FullProjection | include/vigra/multi_gridgraph_neighborhoods.hxx:321-324 | with all neighbours present the projection under canonical strides is the canonical stride list |
| Tables.CanonicalSubNeighborhood | include/vigra/multi_gridgraph_neighborhoods.hxx:307-324 | under canonical strides every row of the sub-neighbourhood ascends, and a code with all neighbours (code 0) yields the canonical stride list |
| Tables.SubNeighborhoodOfTables | include/vigra/multi_gridgraph_neighborhoods.hxx:307-324 | projecting tables built by `makeArrayNeighborhood` gives, for every code, the dot products of that code's compacted offset row, entry for entry |

## Left out

- `ArrayVector`, `TinyVector` / `MultiArrayShape`, `cumprod` and `dot` live in `array_vector.hxx` and `multi_iterator.hxx`. Those files are not part of this model. Vectors are `seq<int>`, `dot` is a recursive sum (`Shapes.Dot`), and `cumprod(Shape(3)) / 3` is `Shapes.CanonicalStrides`.
- The `VERBOSE` and `#if 0` diagnostic printing (lines 255-260 and 325-336) is output only. It is not modelled.
- Template specialisation on `Level` and `N` is replaced by recursion on a natural-number level. The dimension count is a run-time argument.
- Unsigned 32-bit arithmetic is not modelled. Codes and `1 << 2*N` are unbounded naturals. Instead, N is bounded by `Border.MaxDimension` = 15 so that `1 << 2*N` and `2 << 2*(N-1)` fit in 32 bits.
- `neighborIndexLookup` (in `makeArrayNeighborhood`) and `neighborIndices` (in `makeArraySubNeighborhood`) are resized but never cleared, so rows passed in non-empty get appended to. The model builds every table from empty.
- Tables.MakeArrayNeighborhood: the tables are returned as an immutable value, not filled into caller-owned vectors. Rebuilding them is deterministic, so the repeated-call behaviour is not stated separately.
- Tables.ScanSlots: the source fills the causal/anticausal split and the compacted lists in one pass over the slots. The model uses two loops (`SplitByStride`, `CompactSlots`) with the same results.
