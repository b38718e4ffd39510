/**
  The per-border-code lookup tables (`makeArrayNeighborhood`) and their
  projection onto a stride vector (`makeArraySubNeighborhood`).
 */
module Tables {
  import opened Bits
  import opened Shapes
  import opened Border
  import opened Enumeration
  import opened Existence

  /** Number of border codes, `1 << 2*N`. */
  function TableCount(n: nat): nat
  {
    Pow2(2 * n)
  }

  /**
    The slots whose flag is set, in ascending order: what the slot loop
    of both table builders pushes for one border code.
   */
  function ExistingSlots(mask: seq<bool>): (r: seq<int>)
    ensures StrictlyIncreasing(r)
    ensures forall i :: 0 <= i < |r| ==> 0 <= r[i] < |mask| && mask[r[i]]
    ensures forall l :: 0 <= l < |mask| && mask[l] ==> l in r
  {
    if |mask| == 0 then []
    else
      var last := |mask| - 1;
      ExistingSlots(mask[..last]) + (if mask[last] then [last] else [])
  }

  /** Extending the mask by one flag appends that slot when it is set. */
  lemma {:induction false} ExistingSlotsSnoc(mask: seq<bool>, l: nat)
    requires l < |mask|
    ensures ExistingSlots(mask[..l + 1]) == ExistingSlots(mask[..l]) + (if mask[l] then [l] else [])
  {
    assert mask[..l + 1][..l] == mask[..l];
  }

  /** The tables `makeArrayNeighborhood` fills, one row per border code. */
  datatype NeighborhoodTables = NeighborhoodTables(
    neighborOffsets: seq<seq<Shape>>,
    neighborExists: seq<seq<bool>>,
    causalNeighborExists: seq<seq<bool>>,
    anticausalNeighborExists: seq<seq<bool>>,
    neighborIndexLookup: seq<seq<int>>)

  /**
    What one row of the tables holds for border code `code`: the existence
    mask of the canonical list, its split into the causal first half and
    the anticausal second half, the ascending list of existing slots and
    the offsets of those slots.
   */
  predicate RowFacts(kind: NeighborhoodType, n: nat, code: nat, exists_: seq<bool>, causal: seq<bool>,
                     anticausal: seq<bool>, lookup: seq<int>, sub: seq<Shape>)
    requires 1 <= n
  {
    var offsets := Offsets(kind, n);
    var m := |offsets|;
    && |exists_| == m && |causal| == m && |anticausal| == m
    && (forall l :: 0 <= l < m ==> exists_[l] == Inside(code, offsets[l], n))
    && (forall l :: 0 <= l < m ==>
          causal[l] == (exists_[l] && 2 * l < m) && anticausal[l] == (exists_[l] && 2 * l >= m))
    && lookup == ExistingSlots(exists_)
    && |sub| == |lookup|
    && (forall i :: 0 <= i < |sub| ==> sub[i] == offsets[lookup[i]])
  }

  /**
    The slot loop of `makeArrayNeighborhood` for one border code: splits the
    existence flags by the sign of the canonical stride, and collects the
    existing slots and their offsets. The source does both in one pass; the
    two halves are independent, so they are written as two loops here.
   */
  method ScanSlots(offsets: seq<Shape>, n: nat, exists_: seq<bool>)
    returns (causal: seq<bool>, anticausal: seq<bool>, lookup: seq<int>, sub: seq<Shape>)
    requires |exists_| == |offsets|
    requires forall l :: 0 <= l < |offsets| ==> |offsets[l]| == n
    ensures |causal| == |offsets| && |anticausal| == |offsets|
    ensures forall l :: 0 <= l < |offsets| ==>
              causal[l] == (exists_[l] && Dot(offsets[l], CanonicalStrides(n)) < 0) &&
              anticausal[l] == (exists_[l] && Dot(offsets[l], CanonicalStrides(n)) >= 0)
    ensures lookup == ExistingSlots(exists_)
    ensures |sub| == |lookup|
    ensures forall i :: 0 <= i < |sub| ==> sub[i] == offsets[lookup[i]]
  {
    causal, anticausal := SplitByStride(offsets, n, exists_);
    lookup, sub := CompactSlots(offsets, exists_);
  }

  /** The causal / anticausal half of the slot loop. */
  method SplitByStride(offsets: seq<Shape>, n: nat, exists_: seq<bool>)
    returns (causal: seq<bool>, anticausal: seq<bool>)
    requires |exists_| == |offsets|
    requires forall l :: 0 <= l < |offsets| ==> |offsets[l]| == n
    ensures |causal| == |offsets| && |anticausal| == |offsets|
    ensures forall l :: 0 <= l < |offsets| ==>
              causal[l] == (exists_[l] && Dot(offsets[l], CanonicalStrides(n)) < 0) &&
              anticausal[l] == (exists_[l] && Dot(offsets[l], CanonicalStrides(n)) >= 0)
  {
    var strides := CanonicalStrides(n);
    causal, anticausal := [], [];
    var l := 0;
    while l < |offsets|
      invariant 0 <= l <= |offsets|
      invariant |causal| == l && |anticausal| == l
      invariant forall j :: 0 <= j < l ==>
                  causal[j] == (exists_[j] && Dot(offsets[j], strides) < 0) &&
                  anticausal[j] == (exists_[j] && Dot(offsets[j], strides) >= 0)
    {
      var stride := Dot(offsets[l], strides);
      if stride < 0 {
        causal := causal + [exists_[l]];
        anticausal := anticausal + [false];
      } else {
        causal := causal + [false];
        anticausal := anticausal + [exists_[l]];
      }
      l := l + 1;
    }
  }

  /** The lookup half of the slot loop: existing slots and their offsets, in order. */
  method CompactSlots(offsets: seq<Shape>, exists_: seq<bool>) returns (lookup: seq<int>, sub: seq<Shape>)
    requires |exists_| == |offsets|
    ensures lookup == ExistingSlots(exists_)
    ensures |sub| == |lookup|
    ensures forall i :: 0 <= i < |sub| ==> sub[i] == offsets[lookup[i]]
  {
    lookup, sub := [], [];
    var l := 0;
    while l < |offsets|
      invariant 0 <= l <= |offsets|
      invariant lookup == ExistingSlots(exists_[..l])
      invariant |sub| == |lookup|
      invariant forall i :: 0 <= i < |sub| ==> 0 <= lookup[i] < l && sub[i] == offsets[lookup[i]]
    {
      ExistingSlotsSnoc(exists_, l);
      if exists_[l] {
        lookup := lookup + [l];
        sub := sub + [offsets[l]];
      }
      l := l + 1;
    }
    assert exists_[..l] == exists_;
  }

  /**
    The body of the code loop of `makeArrayNeighborhood` for one border
    code: the existence mask, then the slot loop over the canonical list.
   */
  method BuildRow(kind: NeighborhoodType, n: nat, code: nat)
    returns (exists_: seq<bool>, causal: seq<bool>, anticausal: seq<bool>, lookup: seq<int>, sub: seq<Shape>)
    requires 1 <= n
    ensures RowFacts(kind, n, code, exists_, causal, anticausal, lookup, sub)
  {
    var offsets := Offsets(kind, n);
    exists_ := Exists(kind, n, code);
    ExistsInside(kind, n, code);
    causal, anticausal, lookup, sub := ScanSlots(offsets, n, exists_);
    CausalIffFirstHalf(kind, n);
  }

  /** For border code 0 every slot exists, so the compacted row is the canonical list. */
  lemma {:induction false} InteriorRowIsCanonical(kind: NeighborhoodType, n: nat, exists_: seq<bool>, causal: seq<bool>,
                               anticausal: seq<bool>, lookup: seq<int>, sub: seq<Shape>)
    requires 1 <= n
    requires RowFacts(kind, n, 0, exists_, causal, anticausal, lookup, sub)
    ensures sub == Offsets(kind, n)
  {
    InteriorHasAllNeighbors(kind, n);
    ExistsInside(kind, n, 0);
    ExistingSlotsAll(exists_);
  }

  /** Row `code` of the tables satisfies `RowFacts`. */
  predicate TableRow(t: NeighborhoodTables, kind: NeighborhoodType, n: nat, code: nat)
    requires 1 <= n
  {
    && code < |t.neighborOffsets| && code < |t.neighborExists| && code < |t.causalNeighborExists|
    && code < |t.anticausalNeighborExists| && code < |t.neighborIndexLookup|
    && RowFacts(kind, n, code, t.neighborExists[code], t.causalNeighborExists[code],
                t.anticausalNeighborExists[code], t.neighborIndexLookup[code], t.neighborOffsets[code])
  }

  /** Appending a row to every table keeps the earlier rows. */
  lemma {:induction false} TableRowKept(t: NeighborhoodTables, t': NeighborhoodTables, kind: NeighborhoodType, n: nat, code: nat)
    requires 1 <= n && TableRow(t, kind, n, code)
    requires |t'.neighborOffsets| > |t.neighborOffsets| && t'.neighborOffsets[..|t.neighborOffsets|] == t.neighborOffsets
    requires |t'.neighborExists| > |t.neighborExists| && t'.neighborExists[..|t.neighborExists|] == t.neighborExists
    requires |t'.causalNeighborExists| > |t.causalNeighborExists|
    requires t'.causalNeighborExists[..|t.causalNeighborExists|] == t.causalNeighborExists
    requires |t'.anticausalNeighborExists| > |t.anticausalNeighborExists|
    requires t'.anticausalNeighborExists[..|t.anticausalNeighborExists|] == t.anticausalNeighborExists
    requires |t'.neighborIndexLookup| > |t.neighborIndexLookup|
    requires t'.neighborIndexLookup[..|t.neighborIndexLookup|] == t.neighborIndexLookup
    ensures TableRow(t', kind, n, code)
  {
    assert t'.neighborOffsets[code] == t.neighborOffsets[code];
    assert t'.neighborExists[code] == t.neighborExists[code];
    assert t'.causalNeighborExists[code] == t.causalNeighborExists[code];
    assert t'.anticausalNeighborExists[code] == t.anticausalNeighborExists[code];
    assert t'.neighborIndexLookup[code] == t.neighborIndexLookup[code];
  }

  /**
    `makeArrayNeighborhood`: one row per border code; row 0 of the offsets
    is the canonical list, every other row the offsets of the existing
    neighbours (which for code 0 would be the canonical list as well).
   */
  method MakeArrayNeighborhood(n: nat, kind: NeighborhoodType) returns (t: NeighborhoodTables)
    requires 1 <= n <= MaxDimension
    ensures |t.neighborOffsets| == TableCount(n) && |t.neighborExists| == TableCount(n)
    ensures |t.causalNeighborExists| == TableCount(n) && |t.anticausalNeighborExists| == TableCount(n)
    ensures |t.neighborIndexLookup| == TableCount(n)
    ensures t.neighborOffsets[0] == Offsets(kind, n)
    ensures forall code :: 0 <= code < TableCount(n) ==> TableRow(t, kind, n, code)
    ensures WellBuilt(t, kind, n)
  {
    var size := TableCount(n);
    t := NeighborhoodTables([], [], [], [], []);
    var k := 0;
    while k < size
      invariant 0 <= k <= size
      invariant |t.neighborOffsets| == k && |t.neighborExists| == k && |t.causalNeighborExists| == k
      invariant |t.anticausalNeighborExists| == k && |t.neighborIndexLookup| == k
      invariant k > 0 ==> t.neighborOffsets[0] == Offsets(kind, n)
      invariant forall code :: 0 <= code < k ==> TableRow(t, kind, n, code)
    {
      var ex, causal, anticausal, lookup, sub := BuildRow(kind, n, k);
      var offs := sub;
      if k == 0 {
        InteriorRowIsCanonical(kind, n, ex, causal, anticausal, lookup, sub);
        offs := Offsets(kind, n);
      }
      var t' := NeighborhoodTables(t.neighborOffsets + [offs], t.neighborExists + [ex],
                                   t.causalNeighborExists + [causal], t.anticausalNeighborExists + [anticausal],
                                   t.neighborIndexLookup + [lookup]);
      forall code | 0 <= code <= k
        ensures TableRow(t', kind, n, code)
      {
        if code < k {
          TableRowKept(t, t', kind, n, code);
        }
      }
      t := t';
      k := k + 1;
    }
    RowsWellBuilt(t, kind, n);
  }

  /* ------------------------------------------------------------ projection */

  /**
    The slot loop of `makeArraySubNeighborhood` for one border code over the
    first m slots: the projection `dot(offset, strides)` of every existing
    offset, in slot order.
   */
  function ProjectRow(offsets: seq<Shape>, mask: seq<bool>, strides: Shape, m: nat): (r: seq<int>)
    requires m <= |offsets| && m <= |mask|
    requires forall l :: 0 <= l < |offsets| ==> |offsets[l]| == |strides|
    ensures |r| == |ExistingSlots(mask[..m])|
    ensures forall i :: 0 <= i < |r| ==> r[i] == Dot(offsets[ExistingSlots(mask[..m])[i]], strides)
  {
    if m == 0 then []
    else
      ExistingSlotsSnoc(mask, m - 1);
      ProjectRow(offsets, mask, strides, m - 1)
      + (if mask[m - 1] then [Dot(offsets[m - 1], strides)] else [])
  }

  /**
    `makeArraySubNeighborhood`: for every border code, the linear
    displacements of the existing neighbours under a caller-supplied stride
    vector, in slot order.
   */
  function MakeArraySubNeighborhood(allOffsets: seq<Shape>, neighborExists: seq<seq<bool>>, strides: Shape)
    : (r: seq<seq<int>>)
    requires 1 <= |strides| <= MaxDimension
    requires |neighborExists| >= TableCount(|strides|)
    requires forall k :: 0 <= k < TableCount(|strides|) ==> |neighborExists[k]| >= |allOffsets|
    requires forall l :: 0 <= l < |allOffsets| ==> |allOffsets[l]| == |strides|
    ensures |r| == TableCount(|strides|)
    ensures forall k :: 0 <= k < |r| ==>
              var slots := ExistingSlots(neighborExists[k][..|allOffsets|]);
              |r[k]| == |slots| &&
              forall i :: 0 <= i < |slots| ==> r[k][i] == Dot(allOffsets[slots[i]], strides)
  {
    seq(TableCount(|strides|), k requires 0 <= k < TableCount(|strides|) =>
      ProjectRow(allOffsets, neighborExists[k], strides, |allOffsets|))
  }

  /** The slots of an all-true mask are all slots, in order. */
  lemma {:induction false} ExistingSlotsAll(mask: seq<bool>)
    requires forall l :: 0 <= l < |mask| ==> mask[l]
    ensures |ExistingSlots(mask)| == |mask|
    ensures forall i :: 0 <= i < |mask| ==> ExistingSlots(mask)[i] == i
  {
    if |mask| > 0 {
      ExistingSlotsAll(mask[..|mask| - 1]);
    }
  }

  /**
    Under the canonical strides a projected row ascends strictly whatever
    the mask: the slot order of the canonical list is the scan order.
   */
  lemma {:induction false} ProjectionAscending(kind: NeighborhoodType, n: nat, mask: seq<bool>)
    requires 1 <= n && |mask| >= |Offsets(kind, n)|
    ensures StrictlyIncreasing(ProjectRow(Offsets(kind, n), mask, CanonicalStrides(n), |Offsets(kind, n)|))
  {
    var offsets := Offsets(kind, n);
    var m := |offsets|;
    var row := ProjectRow(offsets, mask, CanonicalStrides(n), m);
    var slots := ExistingSlots(mask[..m]);
    var sorted := CanonicalStrideList(offsets, n);
    OffsetsAscending(kind, n);
    forall i, j | 0 <= i < j < |row|
      ensures row[i] < row[j]
    {
      assert row[i] == sorted[slots[i]] && row[j] == sorted[slots[j]];
    }
  }

  /**
    With every neighbour present, the projection under the canonical
    strides is the canonical stride list itself.
   */
  lemma {:induction false} FullProjection(kind: NeighborhoodType, n: nat, mask: seq<bool>)
    requires 1 <= n && |mask| >= |Offsets(kind, n)|
    requires forall l :: 0 <= l < |Offsets(kind, n)| ==> mask[l]
    ensures ProjectRow(Offsets(kind, n), mask, CanonicalStrides(n), |Offsets(kind, n)|)
            == CanonicalStrideList(Offsets(kind, n), n)
  {
    var m := |Offsets(kind, n)|;
    ExistingSlotsAll(mask[..m]);
  }

  /**
    `makeArraySubNeighborhood` with the canonical strides: every row
    ascends, and the row of a code whose neighbours all exist (code 0) is
    the canonical stride list.
   */
  lemma {:induction false} CanonicalSubNeighborhood(kind: NeighborhoodType, n: nat, neighborExists: seq<seq<bool>>)
    requires 1 <= n <= MaxDimension
    requires |neighborExists| >= TableCount(n)
    requires forall k :: 0 <= k < TableCount(n) ==> |neighborExists[k]| >= |Offsets(kind, n)|
    ensures var r := MakeArraySubNeighborhood(Offsets(kind, n), neighborExists, CanonicalStrides(n));
            forall k :: 0 <= k < |r| ==> StrictlyIncreasing(r[k])
    ensures (forall l :: 0 <= l < |Offsets(kind, n)| ==> neighborExists[0][l]) ==>
            MakeArraySubNeighborhood(Offsets(kind, n), neighborExists, CanonicalStrides(n))[0]
            == CanonicalStrideList(Offsets(kind, n), n)
  {
    var offsets := Offsets(kind, n);
    var r := MakeArraySubNeighborhood(offsets, neighborExists, CanonicalStrides(n));
    forall k | 0 <= k < |r|
      ensures StrictlyIncreasing(r[k])
    {
      ProjectionAscending(kind, n, neighborExists[k]);
    }
    if forall l :: 0 <= l < |offsets| ==> neighborExists[0][l] {
      FullProjection(kind, n, neighborExists[0]);
    }
  }

  /** The tables `MakeArrayNeighborhood` guarantees for dimension n. */
  predicate WellBuilt(t: NeighborhoodTables, kind: NeighborhoodType, n: nat)
    requires 1 <= n
  {
    && |t.neighborOffsets| == TableCount(n) && |t.neighborExists| == TableCount(n)
    && |t.causalNeighborExists| == TableCount(n) && |t.anticausalNeighborExists| == TableCount(n)
    && |t.neighborIndexLookup| == TableCount(n)
    && (forall code :: 0 <= code < TableCount(n) ==> TableRow(t, kind, n, code))
    && (forall code :: 0 <= code < TableCount(n) ==> |t.neighborExists[code]| == |Offsets(kind, n)|)
    && (forall code, i :: 0 <= code < TableCount(n) && 0 <= i < |t.neighborOffsets[code]| ==>
          |t.neighborOffsets[code][i]| == n)
  }

  /** The row facts fix the length of every mask and of every stored offset. */
  lemma {:induction false} RowsWellBuilt(t: NeighborhoodTables, kind: NeighborhoodType, n: nat)
    requires 1 <= n
    requires |t.neighborOffsets| == TableCount(n) && |t.neighborExists| == TableCount(n)
    requires |t.causalNeighborExists| == TableCount(n) && |t.anticausalNeighborExists| == TableCount(n)
    requires |t.neighborIndexLookup| == TableCount(n)
    requires forall code :: 0 <= code < TableCount(n) ==> TableRow(t, kind, n, code)
    ensures WellBuilt(t, kind, n)
  {
    forall code | 0 <= code < TableCount(n)
      ensures |t.neighborExists[code]| == |Offsets(kind, n)|
      ensures forall i :: 0 <= i < |t.neighborOffsets[code]| ==> |t.neighborOffsets[code][i]| == n
    {
      assert TableRow(t, kind, n, code);
    }
  }

  /**
    The two builders agree: projecting the existence tables onto any stride
    vector gives, for every border code, the displacements of that code's
    compacted offset row, entry for entry.
   */
  lemma {:induction false} SubNeighborhoodOfTables(t: NeighborhoodTables, kind: NeighborhoodType, n: nat, strides: Shape)
    requires 1 <= n <= MaxDimension && |strides| == n
    requires WellBuilt(t, kind, n)
    ensures var r := MakeArraySubNeighborhood(Offsets(kind, n), t.neighborExists, strides);
            forall code :: 0 <= code < TableCount(n) ==>
              |r[code]| == |t.neighborOffsets[code]| &&
              forall i :: 0 <= i < |r[code]| ==> r[code][i] == Dot(t.neighborOffsets[code][i], strides)
  {
    var offsets := Offsets(kind, n);
    var m := |offsets|;
    var r := MakeArraySubNeighborhood(offsets, t.neighborExists, strides);
    forall code | 0 <= code < TableCount(n)
      ensures |r[code]| == |t.neighborOffsets[code]|
      ensures forall i :: 0 <= i < |r[code]| ==> r[code][i] == Dot(t.neighborOffsets[code][i], strides)
    {
      assert TableRow(t, kind, n, code);
      var ex := t.neighborExists[code];
      assert ex[..m] == ex;
    }
  }
}
