/**
  Border codes (`BorderTypeImpl`): a cell's position relative to the array
  border, two bits per dimension. Bit 2d is set when the cell lies on the low
  border of dimension d (coordinate 0), bit 2d+1 when it lies on the high
  border (coordinate extent-1).
 */
module Border {
  import opened Bits
  import opened Shapes

  /**
    Largest supported dimension count: border codes and the table count
    `1 << 2*N` are 32-bit unsigned values, so 2*N must stay below 32.
   */
  const MaxDimension: nat := 15

  /** The two border bits that dimension d contributes for `point`. */
  predicate LowBorder(point: Shape, d: nat)
    requires d < |point|
  {
    point[d] == 0
  }

  predicate HighBorder(point: Shape, shape: Shape, d: nat)
    requires d < |point| && d < |shape|
  {
    point[d] == shape[d] - 1
  }

  /**
    `BorderTypeImpl<N, dim>::exec`: the code of dimensions 0..dim, built by
    OR-ing `1 << 2*dim` and `2 << 2*dim` into the code of dimensions 0..dim-1.
   */
  function BorderTypeImpl(point: Shape, shape: Shape, dim: nat): (r: nat)
    requires |point| == |shape| && dim < |point|
    ensures r < Pow2(2 * dim + 2)
    ensures forall d :: 0 <= d <= dim ==>
              (Bit(r, 2 * d) <==> LowBorder(point, d)) &&
              (Bit(r, 2 * d + 1) <==> HighBorder(point, shape, d))
  {
    var lower := if dim == 0 then 0 else BorderTypeImpl(point, shape, dim - 1);
    var low := if LowBorder(point, dim) then Pow2(2 * dim) else 0;
    var high := if HighBorder(point, shape, dim) then Pow2(2 * dim + 1) else 0;
    var withLow := Or(lower, low);
    var res := Or(withLow, high);
    BorderImplFacts(lower, low, high, dim);
    res
  }

  /** Bit bookkeeping for one step of `BorderTypeImpl`. */
  lemma {:induction false} BorderImplFacts(lower: nat, low: nat, high: nat, dim: nat)
    requires lower < Pow2(2 * dim)
    requires low == 0 || low == Pow2(2 * dim)
    requires high == 0 || high == Pow2(2 * dim + 1)
    ensures Or(Or(lower, low), high) < Pow2(2 * dim + 2)
    ensures forall i: nat :: Bit(Or(Or(lower, low), high), i) <==>
              (i < 2 * dim && Bit(lower, i)) || (i == 2 * dim && low != 0) || (i == 2 * dim + 1 && high != 0)
  {
    var top := 2 * dim + 2;
    Pow2Monotone(2 * dim, top);
    Pow2Monotone(2 * dim + 1, top);
    assert Pow2(2 * dim + 1) < Pow2(top);
    OrBound(lower, low, top);
    OrBound(Or(lower, low), high, top);
    forall i: nat
      ensures Bit(Or(Or(lower, low), high), i) <==>
              (i < 2 * dim && Bit(lower, i)) || (i == 2 * dim && low != 0) || (i == 2 * dim + 1 && high != 0)
    {
      OrBit(Or(lower, low), high, i);
      OrBit(lower, low, i);
      if i >= 2 * dim {
        BitAboveBound(lower, 2 * dim, i);
      }
      if low == 0 { BitOfZero(i); } else { BitOfPow2(2 * dim, i); }
      if high == 0 { BitOfZero(i); } else { BitOfPow2(2 * dim + 1, i); }
    }
  }

  /** Whether bit i of the border code of `point` should be set. */
  predicate BorderBit(point: Shape, shape: Shape, i: nat)
    requires |point| == |shape|
  {
    i < 2 * |point| &&
    (if i % 2 == 0 then LowBorder(point, i / 2) else HighBorder(point, shape, i / 2))
  }

  /**
    The border code of `point` in an array of extent `shape`
    (`BorderTypeImpl<N>::exec` with its default `DIMENSION = N-1`).
   */
  function BorderType(point: Shape, shape: Shape): (r: nat)
    requires 1 <= |point| == |shape| <= MaxDimension
    ensures r < Pow2(2 * |point|)
    ensures forall i: nat :: Bit(r, i) <==> BorderBit(point, shape, i)
  {
    var n := |point|;
    var r := BorderTypeImpl(point, shape, n - 1);
    assert forall i: nat :: i >= 2 * n ==> !Bit(r, i) by {
      forall i: nat | i >= 2 * n
        ensures !Bit(r, i)
      {
        BitAboveBound(r, 2 * n, i);
      }
    }
    assert forall i: nat :: i < 2 * n ==> (Bit(r, i) <==> BorderBit(point, shape, i)) by {
      forall i: nat | i < 2 * n
        ensures Bit(r, i) <==> BorderBit(point, shape, i)
      {
        var d := i / 2;
        if i % 2 == 0 { assert i == 2 * d; } else { assert i == 2 * d + 1; }
      }
    }
    r
  }

  /** The point lies inside an array of extent `shape`. */
  predicate InBounds(point: Shape, shape: Shape)
    requires |point| == |shape|
  {
    forall d :: 0 <= d < |point| ==> 0 <= point[d] < shape[d]
  }

  /**
    Code 0 means "strictly interior": for an in-bounds point the code is 0
    exactly when no coordinate touches either border.
   */
  lemma {:induction false} BorderTypeZeroIffInterior(point: Shape, shape: Shape)
    requires 1 <= |point| == |shape| <= MaxDimension
    requires InBounds(point, shape)
    ensures BorderType(point, shape) == 0 <==> Interior(point, shape)
  {
    var n := |point|;
    var r := BorderType(point, shape);
    ZeroIffNoLowBits(r, 2 * n);
    if Interior(point, shape) {
      forall i: nat | i < 2 * n
        ensures !Bit(r, i)
      {
        InteriorHasNoBorderBit(point, shape, i);
      }
    } else {
      var d :| 0 <= d < n && !(0 < point[d] < shape[d] - 1);
      var i: nat := if point[d] == 0 then 2 * d else 2 * d + 1;
      assert i / 2 == d && i % 2 == (if point[d] == 0 then 0 else 1);
      assert BorderBit(point, shape, i);
      BitOfZero(i);
    }
  }

  predicate Interior(point: Shape, shape: Shape)
    requires |point| == |shape|
  {
    forall d :: 0 <= d < |point| ==> 0 < point[d] < shape[d] - 1
  }

  lemma {:induction false} InteriorHasNoBorderBit(point: Shape, shape: Shape, i: nat)
    requires |point| == |shape| && Interior(point, shape)
    ensures !BorderBit(point, shape, i)
  {
    if i < 2 * |point| {
      var d := i / 2;
      assert 0 < point[d] < shape[d] - 1;
    }
  }

  /**
    A dimension of extent 1 puts every cell on both of its borders at once:
    both bits of that dimension are set.
   */
  lemma {:induction false} BorderTypeUnitExtent(point: Shape, shape: Shape, d: nat)
    requires 1 <= |point| == |shape| <= MaxDimension
    requires InBounds(point, shape)
    requires d < |point| && shape[d] == 1
    ensures Bit(BorderType(point, shape), 2 * d)
    ensures Bit(BorderType(point, shape), 2 * d + 1)
  {
    assert BorderBit(point, shape, 2 * d);
    assert BorderBit(point, shape, 2 * d + 1);
  }
}
