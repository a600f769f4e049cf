/** C-contiguity computed from shape and strides (solweig_core/abi.py, `ArrayView.is_contiguous`)
    against what contiguity means for addresses. */
module StridedView {

  /** How many index values an axis is walked over; an empty axis is never walked. */
  function Extent(size: nat): nat {
    if size > 1 then size else 1
  }

  /** Number of cells the axes span. */
  function Span(shape: seq<nat>): nat {
    if shape == [] then 1 else Extent(shape[0]) * Span(shape[1..])
  }

  predicate InBox(shape: seq<nat>, idx: seq<nat>) {
    |idx| == |shape| && forall k | 0 <= k < |idx| :: idx[k] < Extent(shape[k])
  }

  /** Byte offset of a cell under the strides; strides may be negative. */
  function Offset(strides: seq<int>, idx: seq<nat>): int
    requires |strides| == |idx|
  {
    if idx == [] then 0 else idx[0] * strides[0] + Offset(strides[1..], idx[1..])
  }

  /** Position of a cell when the last axis runs fastest. */
  function RowMajor(shape: seq<nat>, idx: seq<nat>): nat
    requires |shape| == |idx|
  {
    if idx == [] then 0 else idx[0] * Span(shape[1..]) + RowMajor(shape[1..], idx[1..])
  }

  ghost predicate AddressesRowMajor(shape: seq<nat>, strides: seq<int>, itemsize: nat)
    requires |shape| == |strides|
  {
    forall idx | InBox(shape, idx) :: Offset(strides, idx) == itemsize * RowMajor(shape, idx)
  }

  /** Every axis longer than one steps over exactly the cells of the axes after it. */
  predicate StridesFit(shape: seq<nat>, strides: seq<int>, itemsize: nat)
    requires |shape| == |strides|
  {
    shape == [] ||
    (StridesFit(shape[1..], strides[1..], itemsize) && (shape[0] > 1 ==> strides[0] == itemsize * Span(shape[1..])))
  }

  lemma {:induction false} FittingStridesAddress(shape: seq<nat>, strides: seq<int>, itemsize: nat, idx: seq<nat>)
    requires |shape| == |strides| && StridesFit(shape, strides, itemsize) && InBox(shape, idx)
    ensures Offset(strides, idx) == itemsize * RowMajor(shape, idx)
  {
    if idx != [] {
      assert InBox(shape[1..], idx[1..]);
      FittingStridesAddress(shape[1..], strides[1..], itemsize, idx[1..]);
      var span, rest := Span(shape[1..]), RowMajor(shape[1..], idx[1..]);
      assert idx[0] < Extent(shape[0]);
      if shape[0] > 1 {
        Regroup(idx[0], itemsize, span, rest);
      } else {
        assert idx[0] == 0;
      }
    }
  }

  lemma Regroup(i: nat, size: nat, span: nat, rest: nat)
    ensures i * (size * span) + size * rest == size * (i * span + rest)
  {
    assert i * (size * span) == size * (i * span);
  }

  function Zeros(n: nat): (z: seq<nat>)
    ensures |z| == n && forall k | 0 <= k < n :: z[k] == 0
  {
    if n == 0 then [] else [0] + Zeros(n - 1)
  }

  lemma {:induction false} OriginIsZero(shape: seq<nat>, strides: seq<int>, idx: seq<nat>)
    requires |shape| == |strides| == |idx| && forall k | 0 <= k < |idx| :: idx[k] == 0
    ensures Offset(strides, idx) == 0 && RowMajor(shape, idx) == 0
  {
    if idx != [] {
      OriginIsZero(shape[1..], strides[1..], idx[1..]);
    }
  }

  /** A stride that does not fit shows at the first cell past the origin of its axis. */
  lemma {:induction false} MisfitShows(shape: seq<nat>, strides: seq<int>, itemsize: nat) returns (idx: seq<nat>)
    requires |shape| == |strides| && !StridesFit(shape, strides, itemsize)
    ensures InBox(shape, idx) && Offset(strides, idx) != itemsize * RowMajor(shape, idx)
  {
    if !StridesFit(shape[1..], strides[1..], itemsize) {
      var tail := MisfitShows(shape[1..], strides[1..], itemsize);
      idx := [0] + tail;
      assert idx[1..] == tail;
      assert forall k | 0 < k < |idx| :: idx[k] == tail[k - 1] && shape[k] == shape[1..][k - 1];
    } else {
      idx := [1] + Zeros(|shape| - 1);
      assert idx[1..] == Zeros(|shape| - 1);
      OriginIsZero(shape[1..], strides[1..], idx[1..]);
    }
  }

  lemma FitIffAddressed(shape: seq<nat>, strides: seq<int>, itemsize: nat)
    requires |shape| == |strides|
    ensures StridesFit(shape, strides, itemsize) <==> AddressesRowMajor(shape, strides, itemsize)
  {
    if StridesFit(shape, strides, itemsize) {
      forall idx | InBox(shape, idx) ensures Offset(strides, idx) == itemsize * RowMajor(shape, idx) {
        FittingStridesAddress(shape, strides, itemsize, idx);
      }
    } else {
      var idx := MisfitShows(shape, strides, itemsize);
    }
  }

  /** True exactly when every cell's byte offset is the item size times its row-major position. */
  method IsContiguous(shape: seq<nat>, strides: seq<int>, itemsize: nat) returns (r: bool)
    requires |shape| == |strides|
    ensures r <==> AddressesRowMajor(shape, strides, itemsize)
  {
    var expected: int := itemsize;
    var axis := |shape|;
    FitIffAddressed(shape, strides, itemsize);
    while axis > 0
      invariant 0 <= axis <= |shape|
      invariant expected == itemsize * Span(shape[axis..])
      invariant StridesFit(shape[axis..], strides[axis..], itemsize)
    {
      axis := axis - 1;
      var size, stride := shape[axis], strides[axis];
      assert shape[axis..][1..] == shape[axis + 1..] && strides[axis..][1..] == strides[axis + 1..];
      if size > 1 && stride != expected {
        SuffixMisfit(shape, strides, itemsize, axis);
        return false;
      }
      if size > 1 {
        Widen(itemsize, size, Span(shape[axis + 1..]));
        expected := expected * size;
      }
    }
    assert shape[0..] == shape && strides[0..] == strides;
    r := true;
  }

  lemma Widen(itemsize: nat, size: nat, span: nat)
    ensures itemsize * span * size == itemsize * (size * span)
  {
  }

  lemma {:induction false} SuffixMisfit(shape: seq<nat>, strides: seq<int>, itemsize: nat, axis: nat)
    requires |shape| == |strides| && axis <= |shape| && !StridesFit(shape[axis..], strides[axis..], itemsize)
    ensures !StridesFit(shape, strides, itemsize)
    decreases axis
  {
    if axis == 0 {
      assert shape[0..] == shape && strides[0..] == strides;
    } else {
      assert shape[axis - 1..][1..] == shape[axis..] && strides[axis - 1..][1..] == strides[axis..];
      SuffixMisfit(shape, strides, itemsize, axis - 1);
    }
  }

  /** With no empty axis the box is the array itself, so this is contiguity of the array. */
  lemma BoxIsArray(shape: seq<nat>, idx: seq<nat>)
    requires forall k | 0 <= k < |shape| :: shape[k] >= 1
    ensures InBox(shape, idx) <==> |idx| == |shape| && forall k | 0 <= k < |idx| :: idx[k] < shape[k]
  {
  }
}
