/**
  Fixed-length integer vectors (`TinyVector` / `MultiArrayShape`) as sequences,
  with the dot product and the canonical stride vector (1, 3, 9, ...) that
  fixes the order of every neighbour list.
 */
module Shapes {

  /** A coordinate, offset, extent or stride vector; one entry per dimension. */
  type Shape = seq<int>

  /** 3^e. */
  function Pow3(e: nat): (r: nat)
    ensures r >= 1
  {
    if e == 0 then 1 else 3 * Pow3(e - 1)
  }

  lemma {:induction false} Pow3StrictlyMonotone(j: nat, k: nat)
    requires j < k
    ensures Pow3(j) < Pow3(k)
  {
    if j < k - 1 {
      Pow3StrictlyMonotone(j, k - 1);
    }
  }

  /** The default-constructed shape: all components zero. */
  function Zero(n: nat): Shape
  {
    seq(n, _ => 0)
  }

  /** Component-wise negation, the point reflection of an offset. */
  function Neg(v: Shape): Shape
  {
    seq(|v|, d requires 0 <= d < |v| => -v[d])
  }

  /** Component-wise sum: the cell reached from `a` by the offset `b`. */
  function Add(a: Shape, b: Shape): (r: Shape)
    requires |a| == |b|
    ensures |r| == |a|
  {
    seq(|a|, d requires 0 <= d < |a| => a[d] + b[d])
  }

  /** Sum of a[d] * b[d] over the first k dimensions. */
  function DotUpTo(a: Shape, b: Shape, k: nat): int
    requires k <= |a| && k <= |b|
  {
    if k == 0 then 0 else DotUpTo(a, b, k - 1) + a[k - 1] * b[k - 1]
  }

  /** `dot(a, b)`. */
  function Dot(a: Shape, b: Shape): int
    requires |a| == |b|
  {
    DotUpTo(a, b, |a|)
  }

  /**
    `cumprod(Shape(3)) / 3`: the stride vector of an array of extent 3 in
    every dimension, i.e. 3^d in dimension d.
   */
  function CanonicalStrides(n: nat): (r: Shape)
    ensures |r| == n
  {
    seq(n, d requires 0 <= d < n => Pow3(d))
  }

  predicate StrictlyIncreasing(s: seq<int>)
  {
    forall i, j :: 0 <= i < j < |s| ==> s[i] < s[j]
  }

  /** The canonical stride of every offset in a list, in list order. */
  function CanonicalStrideList(offsets: seq<Shape>, n: nat): (r: seq<int>)
    requires forall k :: 0 <= k < |offsets| ==> |offsets[k]| == n
    ensures |r| == |offsets|
  {
    seq(|offsets|, k requires 0 <= k < |offsets| => Dot(offsets[k], CanonicalStrides(n)))
  }

  /** Reflecting an offset negates its projection onto any stride vector. */
  lemma {:induction false} DotUpToNeg(a: Shape, b: Shape, k: nat)
    requires k <= |a| && k <= |b|
    ensures DotUpTo(Neg(a), b, k) == -DotUpTo(a, b, k)
  {
    if k > 0 {
      DotUpToNeg(a, b, k - 1);
      assert Neg(a)[k - 1] * b[k - 1] == -(a[k - 1] * b[k - 1]);
    }
  }
}
