/**
  The canonical neighbour offset lists (`MakeDirectArrayNeighborhood::offsets`
  and `MakeIndirectArrayNeighborhood::offsets`). Both are built by recursion
  over a dimension `level`, from the highest dimension N-1 down to 0, and the
  resulting order is fixed: offsets ascend by canonical stride
  (1, 3, 9, ...), and the list is point-symmetric.
 */
module Enumeration {
  import opened Shapes

  datatype NeighborhoodType = DirectNeighborhood | IndirectNeighborhood

  /** The step s along dimension d, every other component zero. */
  function Unit(n: nat, d: nat, s: int): Shape
    requires d < n
  {
    Zero(n)[d := s]
  }

  /* ---------------------------------------------------------------- direct */

  /**
    Slot k of the direct list started at `level`: first the -1 steps of
    dimensions level, level-1, ..., 0, then the +1 steps of 0, ..., level.
   */
  function DirectSlot(n: nat, level: nat, k: nat): Shape
    requires level < n && k < 2 * (level + 1)
  {
    if k <= level then Unit(n, level - k, -1) else Unit(n, k - level - 1, 1)
  }

  /**
    `MakeDirectArrayNeighborhood<level>::offsets`: the -1 step of `level`, the
    list of the lower dimensions, then the +1 step of `level`.
   */
  function DirectOffsets(n: nat, level: nat): (r: seq<Shape>)
    requires level < n
    ensures |r| == 2 * (level + 1)
    ensures forall k :: 0 <= k < |r| ==> r[k] == DirectSlot(n, level, k)
  {
    if level == 0 then
      [Unit(n, 0, -1), Unit(n, 0, 1)]
    else
      [Unit(n, level, -1)] + DirectOffsets(n, level - 1) + [Unit(n, level, 1)]
  }

  /* -------------------------------------------------------------- indirect */

  /**
    v agrees with `point` above `level` and has a step in {-1, 0, 1} in every
    dimension 0..level: the shape of every entry the indirect recursion
    emits from `point` at `level`.
   */
  predicate InBlock(v: Shape, point: Shape, level: nat)
    requires level < |point|
  {
    && |v| == |point|
    && (forall d :: level < d < |point| ==> v[d] == point[d])
    && (forall d :: 0 <= d <= level ==> -1 <= v[d] <= 1)
  }

  /** v is zero in every dimension 0..level. */
  predicate LowZero(v: Shape, level: nat)
    requires level < |v|
  {
    forall d :: 0 <= d <= level ==> v[d] == 0
  }

  /**
    `MakeIndirectArrayNeighborhood<level>::offsets(a, point, isCenter)`: the
    blocks for point[level] = -1, 0, +1, each enumerating the lower
    dimensions; only the middle block inherits `isCenter`, so the all-zero
    offset is skipped exactly on the all-centre path.
   */
  function IndirectOffsets(point: Shape, level: nat, isCenter: bool): (r: seq<Shape>)
    requires level < |point|
    ensures |r| == Pow3(level + 1) - (if isCenter then 1 else 0)
    ensures forall k :: 0 <= k < |r| ==> |r[k]| == |point|
    decreases level
  {
    if level == 0 then
      [point[0 := -1]] + (if isCenter then [] else [point[0 := 0]]) + [point[0 := 1]]
    else
      IndirectOffsets(point[level := -1], level - 1, false)
      + IndirectOffsets(point[level := 0], level - 1, isCenter)
      + IndirectOffsets(point[level := 1], level - 1, false)
  }

  /** Every entry of an indirect list lies in the block of `point` at `level`. */
  lemma {:induction false} IndirectEntryInBlock(point: Shape, level: nat, isCenter: bool, k: nat)
    requires level < |point|
    requires k < |IndirectOffsets(point, level, isCenter)|
    ensures InBlock(IndirectOffsets(point, level, isCenter)[k], point, level)
    decreases level, 1
  {
    if level > 0 {
      var L := level;
      var n3 := |IndirectOffsets(point[L := -1], L - 1, false)|;
      var n3c := |IndirectOffsets(point[L := 0], L - 1, isCenter)|;
      if k < n3 {
        IndirectBlockEntryInBlock(point, L, -1, false, isCenter, 0, k);
      } else if k < n3 + n3c {
        IndirectBlockEntryInBlock(point, L, 0, isCenter, isCenter, n3, k - n3);
      } else {
        IndirectBlockEntryInBlock(point, L, 1, false, isCenter, n3 + n3c, k - n3 - n3c);
      }
    }
  }

  /**
    `IndirectEntryInBlock` for entry j of the block for point[L] = step,
    which sits at index base + j of the list at L.
   */
  lemma {:induction false} IndirectBlockEntryInBlock(point: Shape, L: nat, step: int, blockCenter: bool, isCenter: bool,
                                                     base: nat, j: nat)
    requires 0 < L < |point| && -1 <= step <= 1
    requires blockCenter == (step == 0 && isCenter)
    requires base == (if step == -1 then 0 else |IndirectOffsets(point[L := -1], L - 1, false)|)
                     + (if step == 1 then |IndirectOffsets(point[L := 0], L - 1, isCenter)| else 0)
    requires j < |IndirectOffsets(point[L := step], L - 1, blockCenter)|
    ensures base + j < |IndirectOffsets(point, L, isCenter)|
    ensures InBlock(IndirectOffsets(point, L, isCenter)[base + j], point, L)
    decreases L, 0
  {
    var block := IndirectOffsets(point[L := step], L - 1, blockCenter);
    IndirectEntryInBlock(point[L := step], L - 1, blockCenter, j);
    var r := IndirectOffsets(point, L, isCenter);
    var lo := IndirectOffsets(point[L := -1], L - 1, false);
    var mid := IndirectOffsets(point[L := 0], L - 1, isCenter);
    var hi := IndirectOffsets(point[L := 1], L - 1, false);
    assert r == lo + mid + hi;
    if step == -1 {
      assert block == lo && base == 0;
      assert r[base + j] == block[j];
    } else if step == 0 {
      assert block == mid && base == |lo|;
      assert r[base + j] == block[j];
    } else {
      assert block == hi && base == |lo| + |mid|;
      assert r[base + j] == block[j];
    }
    InBlockLift(block[j], point, L, step);
  }

  /** An entry of the block for point[L] = step lies in the block of `point` at L. */
  lemma {:induction false} InBlockLift(v: Shape, point: Shape, L: nat, step: int)
    requires 0 < L < |point| && -1 <= step <= 1
    requires InBlock(v, point[L := step], L - 1)
    ensures InBlock(v, point, L)
  {
    assert v[L] == step;
  }

  /**
    The index of the all-zero combination in the full 3^(level+1)
    enumeration, i.e. (3^(level+1) - 1) / 2.
   */
  function CenterSlot(level: nat): (r: nat)
    ensures 2 * r + 1 == Pow3(level + 1)
  {
    if level == 0 then 1 else Pow3(level) + CenterSlot(level - 1)
  }

  /**
    The stride over dimensions 0..level of slot k: slots count up from
    -CenterSlot in steps of one, jumping over 0 when the centre is skipped.
   */
  function SlotStride(k: nat, level: nat, isCenter: bool): int
  {
    (if isCenter && k >= CenterSlot(level) then k + 1 else k) - CenterSlot(level)
  }

  /** Slot k of an indirect list has the stride `SlotStride(k, ...)`. */
  lemma {:induction false} IndirectStride(point: Shape, level: nat, isCenter: bool, k: nat)
    requires level < |point|
    requires k < |IndirectOffsets(point, level, isCenter)|
    ensures DotUpTo(IndirectOffsets(point, level, isCenter)[k], CanonicalStrides(|point|), level + 1)
            == SlotStride(k, level, isCenter)
    decreases level, 2
  {
    var r := IndirectOffsets(point, level, isCenter);
    var s := CanonicalStrides(|point|);
    if level == 0 {
      assert DotUpTo(r[k], s, 1) == r[k][0];
    } else {
      var L := level;
      var n3 := |IndirectOffsets(point[L := -1], L - 1, false)|;
      var n3c := |IndirectOffsets(point[L := 0], L - 1, isCenter)|;
      if k < n3 {
        LowBlockStride(point, L, isCenter, k);
      } else if k < n3 + n3c {
        MiddleBlockStride(point, L, isCenter, k);
      } else {
        HighBlockStride(point, L, isCenter, k);
      }
    }
  }

  /** Slots of the block point[L] = -1. */
  lemma {:induction false} LowBlockStride(point: Shape, L: nat, isCenter: bool, k: nat)
    requires 0 < L < |point|
    requires k < |IndirectOffsets(point[L := -1], L - 1, false)|
    ensures k < |IndirectOffsets(point, L, isCenter)|
    ensures DotUpTo(IndirectOffsets(point, L, isCenter)[k], CanonicalStrides(|point|), L + 1)
            == SlotStride(k, L, isCenter)
    decreases L, 1
  {
    BlockStrideStep(point, L, -1, false, k);
    SlotStrideLow(L, k);
  }

  /** Slots of the block point[L] = 0. */
  lemma {:induction false} MiddleBlockStride(point: Shape, L: nat, isCenter: bool, k: nat)
    requires 0 < L < |point|
    requires |IndirectOffsets(point[L := -1], L - 1, false)| <= k
    requires k - |IndirectOffsets(point[L := -1], L - 1, false)| < |IndirectOffsets(point[L := 0], L - 1, isCenter)|
    ensures k < |IndirectOffsets(point, L, isCenter)|
    ensures DotUpTo(IndirectOffsets(point, L, isCenter)[k], CanonicalStrides(|point|), L + 1)
            == SlotStride(k, L, isCenter)
    decreases L, 1
  {
    var n3 := |IndirectOffsets(point[L := -1], L - 1, false)|;
    BlockStrideStep(point, L, 0, isCenter, k - n3);
    SlotStrideMiddle(L, isCenter, k);
  }

  /** Slots of the block point[L] = +1. */
  lemma {:induction false} HighBlockStride(point: Shape, L: nat, isCenter: bool, k: nat)
    requires 0 < L < |point|
    requires |IndirectOffsets(point[L := -1], L - 1, false)| + |IndirectOffsets(point[L := 0], L - 1, isCenter)| <= k
    requires k < |IndirectOffsets(point, L, isCenter)|
    ensures DotUpTo(IndirectOffsets(point, L, isCenter)[k], CanonicalStrides(|point|), L + 1)
            == SlotStride(k, L, isCenter)
    decreases L, 1
  {
    var n3 := |IndirectOffsets(point[L := -1], L - 1, false)|;
    var n3c := |IndirectOffsets(point[L := 0], L - 1, isCenter)|;
    BlockStrideStep(point, L, 1, false, k - n3 - n3c);
    SlotStrideHigh(L, isCenter, k);
  }

  /** Slot strides of the block point[L] = -1, in terms of level L-1. */
  lemma {:induction false} SlotStrideLow(L: nat, k: nat)
    requires 0 < L && k < Pow3(L)
    ensures SlotStride(k, L, false) == SlotStride(k, L - 1, false) + -1 * Pow3(L)
    ensures SlotStride(k, L, true) == SlotStride(k, L - 1, false) + -1 * Pow3(L)
  {
    assert CenterSlot(L) == Pow3(L) + CenterSlot(L - 1);
  }

  /** Slot strides of the block point[L] = 0, in terms of level L-1. */
  lemma {:induction false} SlotStrideMiddle(L: nat, isCenter: bool, k: nat)
    requires 0 < L && Pow3(L) <= k
    ensures SlotStride(k, L, isCenter) == SlotStride(k - Pow3(L), L - 1, isCenter) + 0 * Pow3(L)
  {
    assert CenterSlot(L) == Pow3(L) + CenterSlot(L - 1);
  }

  /** Slot strides of the block point[L] = +1, in terms of level L-1. */
  lemma {:induction false} SlotStrideHigh(L: nat, isCenter: bool, k: nat)
    requires 0 < L && 2 * Pow3(L) - (if isCenter then 1 else 0) <= k
    ensures SlotStride(k, L, isCenter)
            == SlotStride(k - Pow3(L) - (Pow3(L) - (if isCenter then 1 else 0)), L - 1, false) + 1 * Pow3(L)
  {
    assert CenterSlot(L) == Pow3(L) + CenterSlot(L - 1);
  }

  /**
    Entry j of the block for point[L] = step, seen as entry
    j + (step + 1) * 3^L of the list at level L.
   */
  lemma {:induction false} BlockStrideStep(point: Shape, L: nat, step: int, isCenter: bool, j: nat)
    requires 0 < L < |point| && -1 <= step <= 1
    requires j < |IndirectOffsets(point[L := step], L - 1, isCenter)|
    ensures DotUpTo(IndirectOffsets(point[L := step], L - 1, isCenter)[j], CanonicalStrides(|point|), L + 1)
            == SlotStride(j, L - 1, isCenter) + step * Pow3(L)
    decreases L, 0
  {
    var b := IndirectOffsets(point[L := step], L - 1, isCenter);
    IndirectEntryInBlock(point[L := step], L - 1, isCenter, j);
    IndirectStride(point[L := step], L - 1, isCenter, j);
    BlockStride(b[j], point[L := step], L, step);
  }

  /** Extending a block entry's stride by dimension L, where it takes `step`. */
  lemma {:induction false} BlockStride(v: Shape, point: Shape, L: nat, step: int)
    requires 0 < L < |point| && point[L] == step
    requires InBlock(v, point, L - 1)
    ensures DotUpTo(v, CanonicalStrides(|point|), L + 1)
            == DotUpTo(v, CanonicalStrides(|point|), L) + step * Pow3(L)
  {
    assert v[L] == step;
  }

  /**
    Every vector of the block, except the all-zero step on the centre path,
    is emitted by the indirect recursion.
   */
  lemma {:induction false} IndirectComplete(point: Shape, level: nat, isCenter: bool, v: Shape)
    requires level < |point|
    requires InBlock(v, point, level)
    requires !(isCenter && LowZero(v, level))
    ensures v in IndirectOffsets(point, level, isCenter)
    decreases level
  {
    var L := level;
    var q := point[L := v[L]];
    assert InBlock(v, q, L) by {
      assert forall d :: L < d < |point| ==> q[d] == point[d];
    }
    if L == 0 {
      assert v == q;
    } else {
      var center := v[L] == 0 && isCenter;
      assert InBlock(v, q, L - 1);
      assert !(center && LowZero(v, L - 1));
      IndirectComplete(q, L - 1, center, v);
    }
  }

  /* ------------------------------------------------------ canonical lists */

  /** Number of neighbour slots: 2N direct, 3^N - 1 indirect. */
  function NeighborCount(kind: NeighborhoodType, n: nat): nat
  {
    match kind
    case DirectNeighborhood => 2 * n
    case IndirectNeighborhood => Pow3(n) - 1
  }

  /**
    The canonical offset list of `makeArrayNeighborhood`
    (`neighborOffsets[0]`), started at level N-1 from the zero shape.
   */
  function Offsets(kind: NeighborhoodType, n: nat): (r: seq<Shape>)
    requires 1 <= n
    ensures |r| == NeighborCount(kind, n)
    ensures forall k :: 0 <= k < |r| ==> |r[k]| == n
  {
    match kind
    case DirectNeighborhood => DirectOffsets(n, n - 1)
    case IndirectNeighborhood => IndirectOffsets(Zero(n), n - 1, true)
  }

  /** The canonical stride of slot k. */
  function CanonicalSlotStride(kind: NeighborhoodType, n: nat, k: nat): int
    requires 1 <= n
  {
    match kind
    case DirectNeighborhood => if k < n then -(Pow3(n - 1 - k) as int) else Pow3(k - n)
    case IndirectNeighborhood => SlotStride(k, n - 1, true)
  }

  lemma {:induction false} DotUpToUnit(n: nat, d: nat, s: int, b: Shape, k: nat)
    requires d < n && k <= n && k <= |b|
    ensures DotUpTo(Unit(n, d, s), b, k) == if d < k then s * b[d] else 0
  {
    if k > 0 {
      DotUpToUnit(n, d, s, b, k - 1);
    }
  }

  /** The canonical stride of every slot, in closed form. */
  lemma {:induction false} OffsetStrides(kind: NeighborhoodType, n: nat)
    requires 1 <= n
    ensures forall k :: 0 <= k < |Offsets(kind, n)| ==>
              Dot(Offsets(kind, n)[k], CanonicalStrides(n)) == CanonicalSlotStride(kind, n, k)
  {
    var r := Offsets(kind, n);
    var s := CanonicalStrides(n);
    match kind
    case DirectNeighborhood =>
      forall k | 0 <= k < |r|
        ensures Dot(r[k], s) == CanonicalSlotStride(kind, n, k)
      {
        if k < n {
          DotUpToUnit(n, n - 1 - k, -1, s, n);
        } else {
          DotUpToUnit(n, k - n, 1, s, n);
        }
      }
    case IndirectNeighborhood =>
      forall k | 0 <= k < |r|
        ensures Dot(r[k], s) == CanonicalSlotStride(kind, n, k)
      {
        IndirectStride(Zero(n), n - 1, true, k);
      }
  }

  /** Offsets ascend strictly by canonical stride. */
  lemma {:induction false} OffsetsAscending(kind: NeighborhoodType, n: nat)
    requires 1 <= n
    ensures StrictlyIncreasing(CanonicalStrideList(Offsets(kind, n), n))
  {
    var r := Offsets(kind, n);
    var t := CanonicalStrideList(r, n);
    OffsetStrides(kind, n);
    forall i, j | 0 <= i < j < |t|
      ensures t[i] < t[j]
    {
      assert t[i] == CanonicalSlotStride(kind, n, i);
      assert t[j] == CanonicalSlotStride(kind, n, j);
      SlotStridesAscend(kind, n, i, j);
    }
  }

  lemma {:induction false} SlotStridesAscend(kind: NeighborhoodType, n: nat, i: nat, j: nat)
    requires 1 <= n && i < j
    ensures CanonicalSlotStride(kind, n, i) < CanonicalSlotStride(kind, n, j)
  {
    if kind == DirectNeighborhood {
      if j < n {
        Pow3StrictlyMonotone(n - 1 - j, n - 1 - i);
      } else if i >= n {
        Pow3StrictlyMonotone(i - n, j - n);
      }
    }
  }

  /** No offset occurs twice. */
  lemma {:induction false} OffsetsDistinct(kind: NeighborhoodType, n: nat)
    requires 1 <= n
    ensures forall i, j :: 0 <= i < j < |Offsets(kind, n)| ==> Offsets(kind, n)[i] != Offsets(kind, n)[j]
  {
    var r := Offsets(kind, n);
    var t := CanonicalStrideList(r, n);
    OffsetsAscending(kind, n);
    forall i, j | 0 <= i < j < |r|
      ensures r[i] != r[j]
    {
      assert t[i] < t[j];
    }
  }

  /** An offset with exactly one nonzero component, which is +1 or -1. */
  predicate IsAxisStep(v: Shape)
  {
    exists d :: 0 <= d < |v| && (v[d] == -1 || v[d] == 1) && v == Unit(|v|, d, v[d])
  }

  /** Every component of v is a step in {-1, 0, 1}. */
  predicate IsUnitStep(v: Shape)
  {
    forall d :: 0 <= d < |v| ==> -1 <= v[d] <= 1
  }

  /** The direct list holds exactly the 2N axis steps. */
  lemma {:induction false} DirectOffsetsAreAxisSteps(n: nat)
    requires 1 <= n
    ensures forall v :: v in Offsets(DirectNeighborhood, n) <==> |v| == n && IsAxisStep(v)
  {
    var r := Offsets(DirectNeighborhood, n);
    forall v | v in r
      ensures |v| == n && IsAxisStep(v)
    {
      var k :| 0 <= k < |r| && r[k] == v;
      var d := if k < n then n - 1 - k else k - n;
      assert v == Unit(n, d, v[d]);
    }
    forall v | |v| == n && IsAxisStep(v)
      ensures v in r
    {
      var d :| 0 <= d < |v| && (v[d] == -1 || v[d] == 1) && v == Unit(|v|, d, v[d]);
      var k := if v[d] == -1 then n - 1 - d else n + d;
      assert r[k] == v;
    }
  }

  /** The indirect list holds exactly the nonzero vectors of {-1, 0, 1}^N. */
  lemma {:induction false} IndirectOffsetsComplete(n: nat)
    requires 1 <= n
    ensures forall v :: v in Offsets(IndirectNeighborhood, n) <==>
              |v| == n && IsUnitStep(v) && v != Zero(n)
  {
    var r := Offsets(IndirectNeighborhood, n);
    forall v | v in r
      ensures |v| == n && IsUnitStep(v) && v != Zero(n)
    {
      var k :| 0 <= k < |r| && r[k] == v;
      IndirectEntryIsNeighbor(n, k);
    }
    forall v | |v| == n && IsUnitStep(v) && v != Zero(n)
      ensures v in r
    {
      assert InBlock(v, Zero(n), n - 1);
      IndirectComplete(Zero(n), n - 1, true, v);
    }
  }

  /** Each indirect slot is a nonzero vector of {-1, 0, 1}^N. */
  lemma {:induction false} IndirectEntryIsNeighbor(n: nat, k: nat)
    requires 1 <= n && k < |Offsets(IndirectNeighborhood, n)|
    ensures IsUnitStep(Offsets(IndirectNeighborhood, n)[k])
    ensures Offsets(IndirectNeighborhood, n)[k] != Zero(n)
  {
    var v := Offsets(IndirectNeighborhood, n)[k];
    IndirectEntryInBlock(Zero(n), n - 1, true, k);
    IndirectStride(Zero(n), n - 1, true, k);
    ZeroStride(n);
    assert SlotStride(k, n - 1, true) != 0;
  }

  lemma {:induction false} ZeroStride(n: nat)
    ensures Dot(Zero(n), CanonicalStrides(n)) == 0
  {
    DotUpToZero(n, CanonicalStrides(n), n);
  }

  lemma {:induction false} DotUpToZero(n: nat, b: Shape, k: nat)
    requires k <= n && k <= |b|
    ensures DotUpTo(Zero(n), b, k) == 0
  {
    if k > 0 {
      DotUpToZero(n, b, k - 1);
    }
  }

  /** Slot k and slot count-1-k hold opposite strides. */
  lemma {:induction false} StridesAntisymmetric(kind: NeighborhoodType, n: nat, k: nat)
    requires 1 <= n && k < NeighborCount(kind, n)
    ensures CanonicalSlotStride(kind, n, NeighborCount(kind, n) - 1 - k) == -CanonicalSlotStride(kind, n, k)
  {
    if kind == IndirectNeighborhood {
      assert NeighborCount(kind, n) == 2 * CenterSlot(n - 1);
    }
  }

  /** Point symmetry: slot k is the reflection of slot count-1-k. */
  lemma {:induction false} OffsetsPointSymmetric(kind: NeighborhoodType, n: nat)
    requires 1 <= n
    ensures forall k :: 0 <= k < |Offsets(kind, n)| ==>
              Offsets(kind, n)[k] == Neg(Offsets(kind, n)[|Offsets(kind, n)| - 1 - k])
  {
    var r := Offsets(kind, n);
    forall k | 0 <= k < |r|
      ensures r[k] == Neg(r[|r| - 1 - k])
    {
      match kind
      case DirectNeighborhood =>
        assert r[k] == Neg(r[|r| - 1 - k]);
      case IndirectNeighborhood =>
        IndirectSlotSymmetric(n, k);
    }
  }

  /**
    One indirect slot: the reflection of slot count-1-k is itself an entry
    (completeness), and its stride, the negated stride of slot count-1-k,
    equals the stride of slot k, which pins it to slot k.
   */
  lemma {:induction false} IndirectSlotSymmetric(n: nat, k: nat)
    requires 1 <= n && k < |Offsets(IndirectNeighborhood, n)|
    ensures Offsets(IndirectNeighborhood, n)[k]
            == Neg(Offsets(IndirectNeighborhood, n)[|Offsets(IndirectNeighborhood, n)| - 1 - k])
  {
    var r := Offsets(IndirectNeighborhood, n);
    var j := |r| - 1 - k;
    ReflectionIsEntry(n, j);
    var i :| 0 <= i < |r| && r[i] == Neg(r[j]);
    assert SlotStride(i, n - 1, true) == SlotStride(k, n - 1, true) by {
      StrideOfReflection(n, i, j);
      StridesAntisymmetric(IndirectNeighborhood, n, k);
    }
    SlotStrideInjective(i, k, n - 1);
  }

  /** Reflected slots have opposite strides. */
  lemma {:induction false} StrideOfReflection(n: nat, i: nat, j: nat)
    requires 1 <= n && i < |Offsets(IndirectNeighborhood, n)| && j < |Offsets(IndirectNeighborhood, n)|
    requires Offsets(IndirectNeighborhood, n)[i] == Neg(Offsets(IndirectNeighborhood, n)[j])
    ensures SlotStride(i, n - 1, true) == -SlotStride(j, n - 1, true)
  {
    var r := IndirectOffsets(Zero(n), n - 1, true);
    assert |Zero(n)| == n;
    IndirectStride(Zero(n), n - 1, true, i);
    IndirectStride(Zero(n), n - 1, true, j);
    DotUpToNeg(r[j], CanonicalStrides(n), n);
  }

  lemma {:induction false} SlotStrideInjective(i: nat, k: nat, level: nat)
    requires SlotStride(i, level, true) == SlotStride(k, level, true)
    ensures i == k
  {
  }

  lemma {:induction false} AllZeroIsZero(v: Shape)
    requires forall d :: 0 <= d < |v| ==> v[d] == 0
    ensures v == Zero(|v|)
  {
  }

  /** The reflection of an indirect slot is an indirect slot. */
  lemma {:induction false} ReflectionIsEntry(n: nat, j: nat)
    requires 1 <= n && j < |Offsets(IndirectNeighborhood, n)|
    ensures Neg(Offsets(IndirectNeighborhood, n)[j]) in Offsets(IndirectNeighborhood, n)
  {
    var v := Offsets(IndirectNeighborhood, n)[j];
    var w := Neg(v);
    assert LowZero(w, n - 1) ==> v == Zero(n) by {
      if LowZero(w, n - 1) {
        forall d | 0 <= d < |v|
          ensures v[d] == 0
        {
          assert w[d] == -v[d];
        }
        AllZeroIsZero(v);
      }
    }
    IndirectEntryIsNeighbor(n, j);
    assert InBlock(w, Zero(n), n - 1);
    IndirectComplete(Zero(n), n - 1, true, w);
  }

  /**
    Scan-order split: the first half of the list holds the causal neighbours
    (negative canonical stride), the second half the anticausal ones; no
    slot has stride zero.
   */
  lemma {:induction false} CausalIffFirstHalf(kind: NeighborhoodType, n: nat)
    requires 1 <= n
    ensures forall k :: 0 <= k < |Offsets(kind, n)| ==>
              Dot(Offsets(kind, n)[k], CanonicalStrides(n)) != 0 &&
              (Dot(Offsets(kind, n)[k], CanonicalStrides(n)) < 0 <==> 2 * k < |Offsets(kind, n)|)
  {
    var r := Offsets(kind, n);
    var m := |r|;
    var t := CanonicalStrideList(r, n);
    OffsetStrides(kind, n);
    OffsetsAscending(kind, n);
    forall k | 0 <= k < m
      ensures t[k] != 0 && (t[k] < 0 <==> 2 * k < m)
    {
      StridesAntisymmetric(kind, n, k);
      var j := m - 1 - k;
      assert t[j] == -t[k];
      if kind == IndirectNeighborhood {
        assert m == 2 * CenterSlot(n - 1);
      }
      if 2 * k < m {
        assert k < j;
      } else {
        assert j < k;
      }
    }
  }

  /** The direct list for N = 2, with point[0] written first. */
  lemma {:induction false} DirectOffsets2D()
    ensures Offsets(DirectNeighborhood, 2) == [[0, -1], [-1, 0], [1, 0], [0, 1]]
  {
    assert Unit(2, 1, -1) == [0, -1];
    assert Unit(2, 0, -1) == [-1, 0];
    assert Unit(2, 0, 1) == [1, 0];
    assert Unit(2, 1, 1) == [0, 1];
  }
}
