/**
  Per-border-code existence masks (`MakeDirectArrayNeighborhood::exists`,
  `MakeIndirectArrayNeighborhood::exists` and `markOutside`). A mask is
  aligned with the canonical offset list: entry l says whether offset l
  avoids every set border bit of the code, which for an in-bounds cell means
  that neighbour l lies inside the array (`NeighborInsideArray`).
 */
module Existence {
  import opened Bits
  import opened Shapes
  import opened Border
  import opened Enumeration

  /**
    Offset v avoids every set border bit of `code` in dimensions 0..k-1: it
    steps down only where the low-border bit is clear and up only where the
    high-border bit is clear.
   */
  predicate Inside(code: nat, v: Shape, k: nat)
    requires k <= |v|
  {
    forall d :: 0 <= d < k ==>
      (v[d] == -1 ==> !Bit(code, 2 * d)) && (v[d] == 1 ==> !Bit(code, 2 * d + 1))
  }

  lemma {:induction false} InsideStep(code: nat, v: Shape, k: nat)
    requires k < |v|
    ensures Inside(code, v, k + 1) <==>
            Inside(code, v, k) && (v[k] == -1 ==> !Bit(code, 2 * k)) && (v[k] == 1 ==> !Bit(code, 2 * k + 1))
  {
  }

  /* ---------------------------------------------------------------- direct */

  /**
    `MakeDirectArrayNeighborhood<level>::exists`: the low-border test of
    `level`, the mask of the lower dimensions, the high-border test of `level`.
   */
  function DirectExists(code: nat, level: nat): (r: seq<bool>)
    ensures |r| == 2 * (level + 1)
    ensures forall k :: 0 <= k < |r| ==>
              r[k] == if k <= level then !Bit(code, 2 * (level - k)) else !Bit(code, 2 * (k - level - 1) + 1)
  {
    if level == 0 then
      [!Bit(code, 0), !Bit(code, 1)]
    else
      [!Bit(code, 2 * level)] + DirectExists(code, level - 1) + [!Bit(code, 2 * level + 1)]
  }

  lemma {:induction false} InsideUnit(code: nat, n: nat, d: nat, s: int, k: nat)
    requires d < n && k <= n && (s == -1 || s == 1)
    ensures Inside(code, Unit(n, d, s), k) <==>
            (d < k ==> if s == -1 then !Bit(code, 2 * d) else !Bit(code, 2 * d + 1))
  {
    if k > 0 {
      InsideUnit(code, n, d, s, k - 1);
      InsideStep(code, Unit(n, d, s), k - 1);
    }
  }

  /** The direct mask marks exactly the direct offsets that avoid every set border bit. */
  lemma {:induction false} DirectExistsInside(code: nat, n: nat)
    requires 1 <= n
    ensures forall l :: 0 <= l < 2 * n ==>
              DirectExists(code, n - 1)[l] == Inside(code, Offsets(DirectNeighborhood, n)[l], n)
  {
    forall l | 0 <= l < 2 * n
      ensures DirectExists(code, n - 1)[l] == Inside(code, Offsets(DirectNeighborhood, n)[l], n)
    {
      if l < n {
        InsideUnit(code, n, n - 1 - l, -1, n);
      } else {
        InsideUnit(code, n, l - n, 1, n);
      }
    }
  }

  /* -------------------------------------------------------------- indirect */

  /**
    `MakeIndirectArrayNeighborhood<level>::markOutside`: a whole block of
    the lower dimensions is outside; three sub-blocks of `false` per level.
   */
  function MarkOutside(level: nat): (r: seq<bool>)
    ensures |r| == Pow3(level + 1)
    ensures forall k :: 0 <= k < |r| ==> !r[k]
  {
    if level == 0 then
      [false, false, false]
    else
      MarkOutside(level - 1) + MarkOutside(level - 1) + MarkOutside(level - 1)
  }

  /**
    `MakeIndirectArrayNeighborhood<level>::exists(a, code, isCenter)`: the
    -1 block when the low border of `level` is clear (else all outside), the
    0 block, then the +1 block when the high border is clear (else all
    outside). Aligned with `IndirectOffsets(point, level, isCenter)`.
   */
  function IndirectExists(code: nat, level: nat, isCenter: bool): (r: seq<bool>)
    ensures |r| == Pow3(level + 1) - (if isCenter then 1 else 0)
  {
    if level == 0 then
      [!Bit(code, 0)] + (if isCenter then [] else [true]) + [!Bit(code, 1)]
    else
      (if !Bit(code, 2 * level) then IndirectExists(code, level - 1, false) else MarkOutside(level - 1))
      + IndirectExists(code, level - 1, isCenter)
      + (if !Bit(code, 2 * level + 1) then IndirectExists(code, level - 1, false) else MarkOutside(level - 1))
  }

  /** Entry j of the block for point[L] = step, in terms of that block's mask. */
  lemma {:induction false} InsideLift(code: nat, v: Shape, L: nat, step: int)
    requires 0 < L < |v| && v[L] == step
    ensures Inside(code, v, L + 1) <==>
            Inside(code, v, L) && (step == -1 ==> !Bit(code, 2 * L)) && (step == 1 ==> !Bit(code, 2 * L + 1))
  {
    InsideStep(code, v, L);
  }

  /**
    The indirect mask marks exactly the entries of the matching offset list
    that avoid every set border bit: the cascade through `markOutside` blocks
    every diagonal that uses a blocked direction.
   */
  lemma {:induction false} IndirectExistsInside(code: nat, point: Shape, level: nat, isCenter: bool, k: nat)
    requires level < |point|
    requires k < |IndirectOffsets(point, level, isCenter)|
    ensures IndirectExists(code, level, isCenter)[k] == Inside(code, IndirectOffsets(point, level, isCenter)[k], level + 1)
    decreases level, 2
  {
    if level == 0 {
      IndirectExistsBase(code, point, isCenter, k);
    } else {
      var L := level;
      var n3 := |IndirectOffsets(point[L := -1], L - 1, false)|;
      var n3c := |IndirectOffsets(point[L := 0], L - 1, isCenter)|;
      if k < n3 {
        IndirectExistsLowPart(code, point, L, isCenter, k);
      } else if k < n3 + n3c {
        IndirectExistsMiddlePart(code, point, L, isCenter, k);
      } else {
        IndirectExistsHighPart(code, point, L, isCenter, k);
      }
    }
  }

  /** `IndirectExistsInside` for the slots of the -1 block. */
  lemma {:induction false} IndirectExistsLowPart(code: nat, point: Shape, L: nat, isCenter: bool, k: nat)
    requires 0 < L < |point|
    requires k < |IndirectOffsets(point[L := -1], L - 1, false)|
    ensures IndirectExists(code, L, isCenter)[k] == Inside(code, IndirectOffsets(point, L, isCenter)[k], L + 1)
    decreases L, 1
  {
    IndirectExistsBlock(code, point, L, -1, false, k);
  }

  /** `IndirectExistsInside` for the slots of the 0 block. */
  lemma {:induction false} IndirectExistsMiddlePart(code: nat, point: Shape, L: nat, isCenter: bool, k: nat)
    requires 0 < L < |point|
    requires |IndirectOffsets(point[L := -1], L - 1, false)| <= k
    requires k - |IndirectOffsets(point[L := -1], L - 1, false)| < |IndirectOffsets(point[L := 0], L - 1, isCenter)|
    ensures IndirectExists(code, L, isCenter)[k] == Inside(code, IndirectOffsets(point, L, isCenter)[k], L + 1)
    decreases L, 1
  {
    var n3 := |IndirectOffsets(point[L := -1], L - 1, false)|;
    IndirectExistsBlock(code, point, L, 0, isCenter, k - n3);
  }

  /** `IndirectExistsInside` for the slots of the +1 block. */
  lemma {:induction false} IndirectExistsHighPart(code: nat, point: Shape, L: nat, isCenter: bool, k: nat)
    requires 0 < L < |point|
    requires |IndirectOffsets(point[L := -1], L - 1, false)| + |IndirectOffsets(point[L := 0], L - 1, isCenter)| <= k
    requires k < |IndirectOffsets(point, L, isCenter)|
    ensures IndirectExists(code, L, isCenter)[k] == Inside(code, IndirectOffsets(point, L, isCenter)[k], L + 1)
    decreases L, 1
  {
    var n3 := |IndirectOffsets(point[L := -1], L - 1, false)|;
    var n3c := |IndirectOffsets(point[L := 0], L - 1, isCenter)|;
    IndirectExistsBlock(code, point, L, 1, false, k - n3 - n3c);
  }

  lemma {:induction false} IndirectExistsBase(code: nat, point: Shape, isCenter: bool, k: nat)
    requires 0 < |point| && k < |IndirectOffsets(point, 0, isCenter)|
    ensures IndirectExists(code, 0, isCenter)[k] == Inside(code, IndirectOffsets(point, 0, isCenter)[k], 1)
  {
    var v := IndirectOffsets(point, 0, isCenter)[k];
    assert Inside(code, v, 1) <==> (v[0] == -1 ==> !Bit(code, 0)) && (v[0] == 1 ==> !Bit(code, 1));
  }

  /** One block of `IndirectExistsInside`. */
  lemma {:induction false} IndirectExistsBlock(code: nat, point: Shape, L: nat, step: int, isCenter: bool, j: nat)
    requires 0 < L < |point| && -1 <= step <= 1
    requires j < |IndirectOffsets(point[L := step], L - 1, isCenter)|
    ensures var blocked := (step == -1 && Bit(code, 2 * L)) || (step == 1 && Bit(code, 2 * L + 1));
            (if blocked then MarkOutside(L - 1) else IndirectExists(code, L - 1, isCenter))[j]
            == Inside(code, IndirectOffsets(point[L := step], L - 1, isCenter)[j], L + 1)
    decreases L, 0
  {
    var v := IndirectOffsets(point[L := step], L - 1, isCenter)[j];
    IndirectEntryInBlock(point[L := step], L - 1, isCenter, j);
    assert v[L] == step;
    IndirectExistsInside(code, point[L := step], L - 1, isCenter, j);
    InsideLift(code, v, L, step);
  }

  /* ------------------------------------------------------ canonical masks */

  /** The existence mask of border code `code` (`neighborExists[code]`). */
  function Exists(kind: NeighborhoodType, n: nat, code: nat): (r: seq<bool>)
    requires 1 <= n
    ensures |r| == |Offsets(kind, n)|
  {
    match kind
    case DirectNeighborhood => DirectExists(code, n - 1)
    case IndirectNeighborhood => IndirectExists(code, n - 1, true)
  }

  /**
    Existence characterisation: slot l exists for border code `code` exactly
    when its offset steps down only along dimensions whose low-border bit is
    clear and up only along dimensions whose high-border bit is clear.
   */
  lemma {:induction false} ExistsInside(kind: NeighborhoodType, n: nat, code: nat)
    requires 1 <= n
    ensures forall l :: 0 <= l < |Offsets(kind, n)| ==>
              Exists(kind, n, code)[l] == Inside(code, Offsets(kind, n)[l], n)
  {
    match kind
    case DirectNeighborhood =>
      DirectExistsInside(code, n);
    case IndirectNeighborhood =>
      forall l | 0 <= l < |Offsets(kind, n)|
        ensures Exists(kind, n, code)[l] == Inside(code, Offsets(kind, n)[l], n)
      {
        IndirectExistsInside(code, Zero(n), n - 1, true, l);
      }
  }

  /** Every canonical offset steps by -1, 0 or +1 in each dimension. */
  lemma {:induction false} OffsetIsUnitStep(kind: NeighborhoodType, n: nat, l: nat)
    requires 1 <= n && l < |Offsets(kind, n)|
    ensures IsUnitStep(Offsets(kind, n)[l])
  {
    match kind
    case DirectNeighborhood =>
      var v := Offsets(kind, n)[l];
      assert v == DirectSlot(n, n - 1, l);
    case IndirectNeighborhood =>
      IndirectEntryIsNeighbor(n, l);
  }

  /**
    The geometric meaning of the masks: for an in-bounds cell of an array of
    extent `shape`, slot l is flagged in the mask of the cell's border code
    exactly when the cell moved by offset l is again inside the array.
   */
  lemma {:induction false} NeighborInsideArray(kind: NeighborhoodType, point: Shape, shape: Shape, l: nat)
    requires 1 <= |point| == |shape| <= MaxDimension
    requires InBounds(point, shape)
    requires l < |Offsets(kind, |point|)|
    ensures Exists(kind, |point|, BorderType(point, shape))[l] <==>
            InBounds(Add(point, Offsets(kind, |point|)[l]), shape)
  {
    var n := |point|;
    var code := BorderType(point, shape);
    var v := Offsets(kind, n)[l];
    var moved := Add(point, v);
    ExistsInside(kind, n, code);
    OffsetIsUnitStep(kind, n, l);
    forall d | 0 <= d < n
      ensures ((v[d] == -1 ==> !Bit(code, 2 * d)) && (v[d] == 1 ==> !Bit(code, 2 * d + 1)))
              <==> 0 <= moved[d] < shape[d]
    {
      assert Bit(code, 2 * d) <==> point[d] == 0 by {
        assert (2 * d) / 2 == d && (2 * d) % 2 == 0;
        assert Bit(code, 2 * d) <==> BorderBit(point, shape, 2 * d);
      }
      assert Bit(code, 2 * d + 1) <==> point[d] == shape[d] - 1 by {
        assert (2 * d + 1) / 2 == d && (2 * d + 1) % 2 == 1;
        assert Bit(code, 2 * d + 1) <==> BorderBit(point, shape, 2 * d + 1);
      }
    }
  }

  /** Border code 0 (strictly interior cell): every neighbour exists. */
  lemma {:induction false} InteriorHasAllNeighbors(kind: NeighborhoodType, n: nat)
    requires 1 <= n
    ensures forall l :: 0 <= l < |Exists(kind, n, 0)| ==> Exists(kind, n, 0)[l]
  {
    ExistsInside(kind, n, 0);
    forall l | 0 <= l < |Exists(kind, n, 0)|
      ensures Exists(kind, n, 0)[l]
    {
      var v := Offsets(kind, n)[l];
      forall d | 0 <= d < n
        ensures !Bit(0, 2 * d) && !Bit(0, 2 * d + 1)
      {
        BitOfZero(2 * d);
        BitOfZero(2 * d + 1);
      }
      assert Inside(0, v, n);
    }
  }

  /**
    Top-left corner of a 2-D image (low border in both dimensions): only the
    two +1 steps remain among the direct neighbours.
   */
  lemma {:induction false} DirectCorner2D()
    ensures Exists(DirectNeighborhood, 2, 5) == [false, false, true, true]
  {
    assert Bit(5, 0) && !Bit(5, 1) && Bit(5, 2) && !Bit(5, 3);
  }

  /* --------------------------------------------------------- corner counts */

  /** Number of set flags in a mask. */
  function CountTrue(mask: seq<bool>): (r: nat)
    ensures r <= |mask|
  {
    if |mask| == 0 then 0 else CountTrue(mask[..|mask| - 1]) + (if mask[|mask| - 1] then 1 else 0)
  }

  lemma {:induction false} CountTrueAppend(a: seq<bool>, b: seq<bool>)
    ensures CountTrue(a + b) == CountTrue(a) + CountTrue(b)
    decreases |b|
  {
    if |b| == 0 {
      assert a + b == a;
    } else {
      var ab := a + b;
      assert ab[..|ab| - 1] == a + b[..|b| - 1];
      assert ab[|ab| - 1] == b[|b| - 1];
      CountTrueAppend(a, b[..|b| - 1]);
    }
  }

  /** A mask without set flags counts zero. */
  lemma {:induction false} NoneSetCount(mask: seq<bool>)
    requires forall l :: 0 <= l < |mask| ==> !mask[l]
    ensures CountTrue(mask) == 0
    decreases |mask|
  {
    if |mask| > 0 {
      NoneSetCount(mask[..|mask| - 1]);
    }
  }

  lemma {:induction false} MarkOutsideCount(level: nat)
    ensures CountTrue(MarkOutside(level)) == 0
  {
    NoneSetCount(MarkOutside(level));
  }

  /** The border code sets every low-border bit and no high-border bit of dimensions 0..n-1. */
  predicate AllLowCorner(code: nat, n: nat)
  {
    forall d: nat :: d < n ==> LowOnly(code, d)
  }

  /** Dimension d is on its low border and not on its high border. */
  predicate LowOnly(code: nat, d: nat)
  {
    Bit(code, 2 * d) && !Bit(code, 2 * d + 1)
  }

  /**
    In the all-low corner only the N positive axis steps remain among the
    direct neighbours: the mask is N times `false`, then N times `true`.
   */
  lemma {:induction false} DirectLowCornerCount(code: nat, n: nat)
    requires 1 <= n && AllLowCorner(code, n)
    ensures CountTrue(Exists(DirectNeighborhood, n, code)) == n
  {
    var r := Exists(DirectNeighborhood, n, code);
    forall k | 0 <= k < 2 * n
      ensures r[k] == (k >= n)
    {
      if k < n {
        AllLowCornerAt(code, n, n - 1 - k);
      } else {
        AllLowCornerAt(code, n, k - n);
      }
    }
    assert r == seq(n, _ => false) + seq(n, _ => true);
    FlagBlockCount(n);
    CountTrueAppend(seq(n, _ => false), seq(n, _ => true));
  }

  /** Counts of the constant masks. */
  lemma {:induction false} FlagBlockCount(n: nat)
    ensures CountTrue(seq(n, _ => false)) == 0
    ensures CountTrue(seq(n, _ => true)) == n
  {
    NoneSetCount(seq(n, _ => false));
    if n > 0 {
      FlagBlockCount(n - 1);
      assert seq(n, _ => true) == seq(n - 1, _ => true) + [true];
      CountTrueAppend(seq(n - 1, _ => true), [true]);
    }
  }

  /**
    The indirect mask of the all-low corner, written without the code: the
    -1 block of every level is outside, the 0 and +1 blocks recurse.
   */
  function LowCornerMask(level: nat, isCenter: bool): seq<bool>
  {
    if level == 0 then
      [false] + (if isCenter then [] else [true]) + [true]
    else
      MarkOutside(level - 1) + LowCornerMask(level - 1, isCenter) + LowCornerMask(level - 1, false)
  }

  /** In the all-low corner the indirect mask is `LowCornerMask`. */
  lemma {:induction false} IndirectLowCorner(code: nat, n: nat, isCenter: bool)
    requires 1 <= n && AllLowCorner(code, n)
    ensures IndirectExists(code, n - 1, isCenter) == LowCornerMask(n - 1, isCenter)
  {
    AllLowCornerAt(code, n, n - 1);
    if n > 1 {
      AllLowCornerShrink(code, n);
      IndirectLowCorner(code, n - 1, isCenter);
      IndirectLowCorner(code, n - 1, false);
    }
  }

  /**
    The all-low corner mask keeps the steps in {0, 1}^(level+1): 2^(level+1)
    of them in a block that keeps its centre.
   */
  lemma {:induction false} LowCornerBlockCount(level: nat)
    ensures CountTrue(LowCornerMask(level, false)) == 2 * Pow2(level)
  {
    if level == 0 {
      LowCornerMaskBase(false);
    } else {
      LowCornerMaskSplit(level, false);
      LowCornerBlockCount(level - 1);
    }
  }

  /** The block around the centre: one fewer, the centre itself being skipped. */
  lemma {:induction false} LowCornerCenterBlockCount(level: nat)
    ensures CountTrue(LowCornerMask(level, true)) + 1 == 2 * Pow2(level)
  {
    if level == 0 {
      LowCornerMaskBase(true);
    } else {
      LowCornerMaskSplit(level, true);
      LowCornerCenterBlockCount(level - 1);
      LowCornerBlockCount(level - 1);
    }
  }

  lemma {:induction false} LowCornerMaskBase(isCenter: bool)
    ensures CountTrue(LowCornerMask(0, isCenter)) == 2 - (if isCenter then 1 else 0)
  {
    var tail := (if isCenter then [] else [true]) + [true];
    assert LowCornerMask(0, isCenter) == [false] + tail;
    CountTrueAppend([false], tail);
    CountTrueAppend(if isCenter then [] else [true], [true]);
  }

  /** The blocked -1 block adds nothing; the 0 and +1 blocks add their counts. */
  lemma {:induction false} LowCornerMaskSplit(level: nat, isCenter: bool)
    requires 0 < level
    ensures CountTrue(LowCornerMask(level, isCenter))
            == CountTrue(LowCornerMask(level - 1, isCenter)) + CountTrue(LowCornerMask(level - 1, false))
  {
    var low := MarkOutside(level - 1);
    var mid := LowCornerMask(level - 1, isCenter);
    var high := LowCornerMask(level - 1, false);
    CountTrueAppend(low + mid, high);
    CountTrueAppend(low, mid);
    MarkOutsideCount(level - 1);
  }

  /**
    In the all-low corner 2^N - 1 indirect neighbours remain: the nonzero
    steps in {0, 1}^N.
   */
  lemma {:induction false} IndirectLowCornerCount(code: nat, n: nat)
    requires 1 <= n && AllLowCorner(code, n)
    ensures CountTrue(Exists(IndirectNeighborhood, n, code)) == Pow2(n) - 1
  {
    IndirectLowCorner(code, n, true);
    LowCornerCenterCount(n);
  }

  lemma {:induction false} LowCornerCenterCount(n: nat)
    requires 1 <= n
    ensures CountTrue(LowCornerMask(n - 1, true)) == Pow2(n) - 1
  {
    LowCornerCenterBlockCount(n - 1);
    Pow2Double(n);
  }

  lemma {:induction false} AllLowCornerAt(code: nat, n: nat, d: nat)
    requires AllLowCorner(code, n) && d < n
    ensures Bit(code, 2 * d) && !Bit(code, 2 * d + 1)
  {
    assert LowOnly(code, d);
  }

  lemma {:induction false} AllLowCornerShrink(code: nat, n: nat)
    requires 0 < n && AllLowCorner(code, n)
    ensures AllLowCorner(code, n - 1)
  {
  }
}
