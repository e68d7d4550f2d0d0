/** The odometer: a mutable vector of indices that walks a strided box in row-major order. */
module Odometer {
  import opened Wrappers
  import opened Ranges
  import opened Boxes
  import opened Segments

  /** The row-major offset of element p in an array with dimensions of the given sizes. */
  function Offset(sizes: seq<nat>, p: seq<nat>): nat
    requires |p| == |sizes|
  {
    if sizes == [] then 0
    else
      var last := |sizes| - 1;
      Offset(sizes[..last], p[..last]) * sizes[last] + p[last]
  }

  function DeclSizes(dims: seq<Dim>): (sizes: seq<nat>)
    ensures |sizes| == |dims|
    ensures forall i :: 0 <= i < |dims| ==> sizes[i] == dims[i].declsize
  {
    if dims == [] then [] else [dims[0].declsize] + DeclSizes(dims[1..])
  }

  /** The position of point p counted in whole strides, each wheel weighted by its step. */
  function VarmOffset(dims: seq<Dim>, steps: seq<int>, p: seq<nat>): int
    requires |p| == |dims| <= |steps|
  {
    if dims == [] then 0
    else
      var last := |dims| - 1;
      VarmOffset(dims[..last], steps, p[..last])
      + ((p[last] as int - dims[last].start) / dims[last].stride) * steps[last]
  }

  /** Turn the odometer once. When all wheels have turned over, the first is left past its stop. */
  function NextPosition(dims: seq<Dim>, p: seq<nat>): (seq<nat>, bool)
    requires |p| == |dims|
  {
    if dims == [] then (p, false)
    else
      var (q, more) := Carry(dims, p);
      if more then (q, true) else ([p[0] + dims[0].stride] + Starts(dims[1..]), false)
  }

  class Dapodometer {
    const rank: nat
    const index: array<nat>
    const start: array<nat>
    const stride: array<nat>
    const stop: array<nat>
    const declsize: array<nat>
    ghost const dims: seq<Dim>

    ghost predicate Valid()
      reads index, start, stride, stop, declsize
    {
      && rank == |dims| <= NC_MAX_VAR_DIMS
      && index.Length == start.Length == stride.Length == stop.Length == declsize.Length == NC_MAX_VAR_DIMS
      && index != start && index != stride && index != stop && index != declsize
      && (forall i :: 0 <= i < rank ==> dims[i] == Wheel(start[i], stop[i], stride[i], declsize[i]))
      && (forall i :: rank <= i < NC_MAX_VAR_DIMS ==> index[i] == 0 && stop[i] == 0)
    }

    ghost function Position(): seq<nat>
      requires index.Length == NC_MAX_VAR_DIMS && rank <= NC_MAX_VAR_DIMS
      reads index
    {
      index[..rank]
    }

    /** An odometer over slices startindex up to, but not including, stopindex. */
    constructor FromSegment(segment: DCEsegment, startindex: nat, stopindex: nat)
      requires segment.Valid() && startindex < stopindex <= NC_MAX_VAR_DIMS
      requires PositiveStrides(segment.slices[startindex..stopindex])
      ensures Valid() && fresh(index) && fresh(start) && fresh(stride) && fresh(stop) && fresh(declsize)
      ensures dims == WheelsOf(segment.slices[startindex..stopindex])
      ensures Position() == Starts(dims)
    {
      rank := stopindex - startindex;
      index := new nat[NC_MAX_VAR_DIMS](_ => 0);
      start := new nat[NC_MAX_VAR_DIMS](_ => 0);
      stride := new nat[NC_MAX_VAR_DIMS](_ => 0);
      stop := new nat[NC_MAX_VAR_DIMS](_ => 0);
      declsize := new nat[NC_MAX_VAR_DIMS](_ => 0);
      dims := WheelsOf(segment.slices[startindex..stopindex]);
      new;
      var i := 0;
      while i < rank
        invariant 0 <= i <= rank == |dims|
        invariant forall k :: 0 <= k < i ==> dims[k] == Wheel(start[k], stop[k], stride[k], declsize[k])
        invariant forall k :: 0 <= k < i ==> index[k] == start[k]
        invariant forall k :: rank <= k < NC_MAX_VAR_DIMS ==> index[k] == 0 && stop[k] == 0
        modifies index, start, stride, stop, declsize
      {
        var slice := segment.slices[i + startindex];
        SetWheel(i, slice.first, slice.last + 1, slice.stride, slice.declsize);
        assert dims[i] == WheelOf(segment.slices[startindex..stopindex][i]);
        i := i + 1;
      }
      StartsAt(dims, index[..rank]);
    }

    /** Fill in wheel i and move it to its start. */
    method SetWheel(i: nat, istart: nat, istop: nat, istride: nat, ideclsize: nat)
      requires index.Length == start.Length == stride.Length == stop.Length == declsize.Length == NC_MAX_VAR_DIMS
      requires index != start && index != stride && index != stop && index != declsize && start != stride
      requires start != stop && start != declsize && stride != stop && stride != declsize && stop != declsize
      requires i < NC_MAX_VAR_DIMS
      modifies index, start, stride, stop, declsize
      ensures start[i] == index[i] == istart && stop[i] == istop && stride[i] == istride && declsize[i] == ideclsize
      ensures forall k :: 0 <= k < NC_MAX_VAR_DIMS && k != i ==> start[k] == old(start[k]) && index[k] == old(index[k])
      ensures forall k :: 0 <= k < NC_MAX_VAR_DIMS && k != i ==> stop[k] == old(stop[k])
      ensures forall k :: 0 <= k < NC_MAX_VAR_DIMS && k != i ==> stride[k] == old(stride[k])
      ensures forall k :: 0 <= k < NC_MAX_VAR_DIMS && k != i ==> declsize[k] == old(declsize[k])
    {
      start[i] := istart;
      stop[i] := istop;
      stride[i] := istride;
      declsize[i] := ideclsize;
      index[i] := start[i];
    }

    /** Fill in wheel i from the arguments. */
    method SetFromArguments(i: nat, startp: Option<seq<nat>>, countp: Option<seq<nat>>, stridep: Option<seq<nat>>,
                            sizep: Option<seq<nat>>)
      requires index.Length == start.Length == stride.Length == stop.Length == declsize.Length == NC_MAX_VAR_DIMS
      requires index != start && index != stride && index != stop && index != declsize && start != stride
      requires start != stop && start != declsize && stride != stop && stride != declsize && stop != declsize
      requires i < NC_MAX_VAR_DIMS
      requires startp.Some? ==> i < |startp.value|
      requires countp.Some? ==> i < |countp.value|
      requires stridep.Some? ==> i < |stridep.value| && 0 < stridep.value[i]
      requires sizep.Some? ==> i < |sizep.value|
      modifies index, start, stride, stop, declsize
      ensures NewWheel(i, startp, countp, stridep, sizep) == Wheel(start[i], stop[i], stride[i], declsize[i])
      ensures index[i] == start[i]
      ensures forall k :: 0 <= k < NC_MAX_VAR_DIMS && k != i ==> start[k] == old(start[k]) && index[k] == old(index[k])
      ensures forall k :: 0 <= k < NC_MAX_VAR_DIMS && k != i ==> stop[k] == old(stop[k])
      ensures forall k :: 0 <= k < NC_MAX_VAR_DIMS && k != i ==> stride[k] == old(stride[k])
      ensures forall k :: 0 <= k < NC_MAX_VAR_DIMS && k != i ==> declsize[k] == old(declsize[k])
    {
      var istart := if startp.Some? then startp.value[i] else 0;
      var icount := if countp.Some? then countp.value[i] else if sizep.Some? then sizep.value[i] else 1;
      var istride := if stridep.Some? then stridep.value[i] else 1;
      var istop := istart + icount * istride;
      var ideclsize := if sizep.Some? then sizep.value[i] else istop - istart;
      SetWheel(i, istart, istop, istride, ideclsize);
    }

    /** An odometer over count indices of each dimension, from start by stride; a missing argument means
        start 0, stride 1, and the whole of size, or one index where there is no size either. */
    constructor New(rank: nat, startp: Option<seq<nat>>, countp: Option<seq<nat>>, stridep: Option<seq<nat>>,
                    sizep: Option<seq<nat>>)
      requires rank <= NC_MAX_VAR_DIMS
      requires startp.Some? ==> rank <= |startp.value|
      requires countp.Some? ==> rank <= |countp.value|
      requires stridep.Some? ==> rank <= |stridep.value| && forall i :: 0 <= i < rank ==> 0 < stridep.value[i]
      requires sizep.Some? ==> rank <= |sizep.value|
      ensures Valid() && fresh(index) && fresh(start) && fresh(stride) && fresh(stop) && fresh(declsize)
      ensures dims == NewWheels(rank, startp, countp, stridep, sizep)
      ensures Position() == Starts(dims)
    {
      this.rank := rank;
      index := new nat[NC_MAX_VAR_DIMS](_ => 0);
      start := new nat[NC_MAX_VAR_DIMS](_ => 0);
      stride := new nat[NC_MAX_VAR_DIMS](_ => 0);
      stop := new nat[NC_MAX_VAR_DIMS](_ => 0);
      declsize := new nat[NC_MAX_VAR_DIMS](_ => 0);
      dims := NewWheels(rank, startp, countp, stridep, sizep);
      new;
      var i := 0;
      while i < rank
        invariant 0 <= i <= rank == |dims|
        invariant forall k :: 0 <= k < i ==> dims[k] == Wheel(start[k], stop[k], stride[k], declsize[k])
        invariant forall k :: 0 <= k < i ==> index[k] == start[k]
        invariant forall k :: rank <= k < NC_MAX_VAR_DIMS ==> index[k] == 0 && stop[k] == 0
        modifies index, start, stride, stop, declsize
      {
        SetFromArguments(i, startp, countp, stridep, sizep);
        assert dims[i] == NewWheel(i, startp, countp, stridep, sizep);
        i := i + 1;
      }
      StartsAt(dims, index[..rank]);
    }

    predicate More()
      requires index.Length == stop.Length == NC_MAX_VAR_DIMS
      reads index, stop
    {
      index[0] < stop[0]
    }

    /** Convert the current position to a linear offset. */
    method Count() returns (offset: nat)
      requires Valid()
      ensures offset == Offset(DeclSizes(dims), Position())
    {
      ghost var sizes := DeclSizes(dims);
      offset := 0;
      var i := 0;
      while i < rank
        invariant 0 <= i <= rank
        invariant offset == Offset(sizes[..i], index[..i])
      {
        assert sizes[..i + 1][..i] == sizes[..i] && index[..i + 1][..i] == index[..i];
        offset := offset * declsize[i];
        offset := offset + index[i];
        i := i + 1;
      }
      assert sizes[..rank] == sizes;
    }

    /** Advance to the next point; 0 when there is none. */
    method Next() returns (more: bool)
      requires Valid()
      modifies index
      ensures Valid()
      ensures (Position(), more) == NextPosition(dims, old(Position()))
    {
      if rank == 0 {
        return false;
      }
      ghost var p := index[..rank];
      var i := rank - 1;
      while true
        invariant 0 <= i < rank
        invariant forall k :: 0 <= k <= i ==> index[k] == p[k]
        invariant forall k :: i < k < rank ==> index[k] == dims[k].start
        invariant forall k :: rank <= k < NC_MAX_VAR_DIMS ==> index[k] == 0
        invariant Carry(dims[i + 1..], p[i + 1..]) == (Starts(dims[i + 1..]), false)
        decreases i
      {
        index[i] := index[i] + stride[i];
        if index[i] < stop[i] {
          break;
        }
        if i == 0 {
          TurnedOver(dims, p, index[..rank]);
          return false;
        }
        TurnOver(dims, p, i);
        index[i] := start[i];
        i := i - 1;
      }
      TurnStops(dims, p, index[..rank], i);
      more := true;
    }

    /** Position of the current point in a target laid out with the given steps. */
    method VarmCount(steps: seq<int>) returns (offset: int)
      requires Valid() && rank <= |steps|
      requires forall i :: 0 <= i < rank ==> start[i] <= index[i]
      ensures offset == VarmOffset(dims, steps, Position())
    {
      offset := 0;
      var i := 0;
      while i < rank
        invariant 0 <= i <= rank
        invariant offset == VarmOffset(dims[..i], steps, index[..i])
      {
        assert dims[..i + 1][..i] == dims[..i] && index[..i + 1][..i] == index[..i];
        var tmp := index[i];
        tmp := tmp - start[i];
        tmp := tmp / stride[i];
        offset := offset + tmp * steps[i];
        i := i + 1;
      }
      assert dims[..rank] == dims;
    }
  }

  function NewWheel(i: nat, startp: Option<seq<nat>>, countp: Option<seq<nat>>, stridep: Option<seq<nat>>,
                    sizep: Option<seq<nat>>): Dim
    requires startp.Some? ==> i < |startp.value|
    requires countp.Some? ==> i < |countp.value|
    requires stridep.Some? ==> i < |stridep.value| && 0 < stridep.value[i]
    requires sizep.Some? ==> i < |sizep.value|
  {
    var lo := if startp.Some? then startp.value[i] else 0;
    var n := if countp.Some? then countp.value[i] else if sizep.Some? then sizep.value[i] else 1;
    var step := if stridep.Some? then stridep.value[i] else 1;
    Wheel(lo, lo + n * step, step, if sizep.Some? then sizep.value[i] else n * step)
  }

  function NewWheels(rank: nat, startp: Option<seq<nat>>, countp: Option<seq<nat>>, stridep: Option<seq<nat>>,
                     sizep: Option<seq<nat>>): (dims: seq<Dim>)
    requires startp.Some? ==> rank <= |startp.value|
    requires countp.Some? ==> rank <= |countp.value|
    requires stridep.Some? ==> rank <= |stridep.value| && forall i :: 0 <= i < rank ==> 0 < stridep.value[i]
    requires sizep.Some? ==> rank <= |sizep.value|
    ensures |dims| == rank
    ensures forall i :: 0 <= i < rank ==> dims[i] == NewWheel(i, startp, countp, stridep, sizep)
  {
    if rank == 0 then []
    else NewWheels(rank - 1, startp, countp, stridep, sizep) + [NewWheel(rank - 1, startp, countp, stridep, sizep)]
  }

  /** A wheel made from arguments runs through exactly the requested number of indices, from start by stride. */
  lemma {:induction false} NewWheelSelects(i: nat, startp: Option<seq<nat>>, countp: Option<seq<nat>>,
                                           stridep: Option<seq<nat>>, sizep: Option<seq<nat>>, k: nat)
    requires startp.Some? ==> i < |startp.value|
    requires countp.Some? ==> i < |countp.value|
    requires stridep.Some? ==> i < |stridep.value| && 0 < stridep.value[i]
    requires sizep.Some? ==> i < |sizep.value|
    ensures var digits := Digits(NewWheel(i, startp, countp, stridep, sizep));
            && |digits| == (if countp.Some? then countp.value[i] else if sizep.Some? then sizep.value[i] else 1)
            && (k < |digits| ==>
                  digits[k] == (if startp.Some? then startp.value[i] else 0)
                             + k * (if stridep.Some? then stridep.value[i] else 1))
  {
    var lo := if startp.Some? then startp.value[i] else 0;
    var n := if countp.Some? then countp.value[i] else if sizep.Some? then sizep.value[i] else 1;
    CountedSteps(lo, n, if stridep.Some? then stridep.value[i] else 1, k);
  }

  lemma {:induction false} StartsAt(dims: seq<Dim>, p: seq<nat>)
    requires |p| == |dims| && forall i :: 0 <= i < |p| ==> p[i] == dims[i].start
    ensures p == Starts(dims)
  {
    if dims != [] {
      StartsAt(dims[1..], p[1..]);
      assert p == [p[0]] + p[1..];
    }
  }

  lemma {:induction false} StartsLength(dims: seq<Dim>)
    ensures |Starts(dims)| == |dims|
    ensures forall i :: 0 <= i < |dims| ==> Starts(dims)[i] == dims[i].start
  {
    if dims != [] {
      StartsLength(dims[1..]);
    }
  }

  /** A wheel that would pass its stop turns over, together with all wheels to its right. */
  lemma {:induction false} TurnOver(dims: seq<Dim>, p: seq<nat>, i: nat)
    requires |p| == |dims| && i < |dims|
    requires Carry(dims[i + 1..], p[i + 1..]) == (Starts(dims[i + 1..]), false)
    requires dims[i].stop <= p[i] + dims[i].stride
    ensures Carry(dims[i..], p[i..]) == (Starts(dims[i..]), false)
  {
    assert dims[i..][1..] == dims[i + 1..] && p[i..][1..] == p[i + 1..];
  }

  /** The carry stops at the rightmost wheel that has room. */
  lemma {:induction false} TurnStops(dims: seq<Dim>, p: seq<nat>, q: seq<nat>, i: nat)
    requires |p| == |dims| == |q| && i < |dims|
    requires Carry(dims[i + 1..], p[i + 1..]) == (Starts(dims[i + 1..]), false)
    requires q[i] == p[i] + dims[i].stride < dims[i].stop
    requires forall k :: 0 <= k < i ==> q[k] == p[k]
    requires forall k :: i < k < |dims| ==> q[k] == dims[k].start
    ensures NextPosition(dims, p) == (q, true)
  {
    StartsAt(dims[i + 1..], q[i + 1..]);
    assert dims[i..][1..] == dims[i + 1..] && p[i..][1..] == p[i + 1..];
    CarryPrefix(dims, p, i);
    assert q == p[..i] + ([q[i]] + q[i + 1..]);
  }

  /** When even the first wheel has no room, it is left past its stop. */
  lemma {:induction false} TurnedOver(dims: seq<Dim>, p: seq<nat>, q: seq<nat>)
    requires |p| == |dims| == |q| && dims != []
    requires Carry(dims[1..], p[1..]) == (Starts(dims[1..]), false)
    requires dims[0].stop <= q[0] == p[0] + dims[0].stride
    requires forall k :: 0 < k < |dims| ==> q[k] == dims[k].start
    ensures NextPosition(dims, p) == (q, false)
  {
    StartsAt(dims[1..], q[1..]);
    assert q == [q[0]] + q[1..];
  }

  /** Turning moves along the walked box; after its last point the first wheel is past its stop. */
  lemma {:induction false} NextIsSuccessor(dims: seq<Dim>, k: nat)
    requires k < |Walked(dims)|
    ensures |Walked(dims)[k]| == |dims|
    ensures var next := NextPosition(dims, Walked(dims)[k]);
            if k + 1 < |Walked(dims)| then next == (Walked(dims)[k + 1], true)
            else !next.1 && |next.0| > 0 && dims[0].stop <= next.0[0]
    ensures dims != [] && Walked(dims)[k][0] < dims[0].stop
  {
    var clamped := [dims[0]] + ClampAll(dims[1..]);
    var p := Walked(dims)[k];
    WalkedAbove(dims, k);
    ClampAllNonEmpty(dims[1..]);
    CarryClamped(dims[1..], p[1..]);
    assert clamped[1..] == ClampAll(dims[1..]);
    assert Carry(clamped, p) == Carry(dims, p);
    CarryIsNext(clamped, k);
  }

  lemma {:induction false} WalkedAbove(dims: seq<Dim>, k: nat)
    requires k < |Walked(dims)|
    ensures dims != [] && |Walked(dims)[k]| == |dims|
    ensures dims[0].start <= Walked(dims)[k][0] < dims[0].stop
    ensures forall i :: 0 <= i < |dims| - 1 ==> dims[1..][i].start <= Walked(dims)[k][1..][i]
    ensures AllNonEmpty([dims[0]] + ClampAll(dims[1..]))
  {
    var clamped := [dims[0]] + ClampAll(dims[1..]);
    ClampAllNonEmpty(dims[1..]);
    PointsAtLeastStart(clamped, k);
    StartsLength(dims[1..]);
    StartsLength(ClampAll(dims[1..]));
    forall i | 0 <= i < |dims| - 1
      ensures dims[1..][i].start <= Walked(dims)[k][1..][i]
    {
      assert clamped[i + 1].start <= Walked(dims)[k][i + 1];
    }
    PointsMember(clamped, Walked(dims)[k]);
    StepsMember(dims[0].start, dims[0].stop, dims[0].stride, Walked(dims)[k][0]);
  }

  lemma {:induction false} FirstWalked(dims: seq<Dim>)
    requires dims != []
    ensures Walked(dims) == [] <==> dims[0].stop <= dims[0].start
    ensures Walked(dims) != [] ==> Walked(dims)[0] == Starts(dims)
  {
    var clamped := [dims[0]] + ClampAll(dims[1..]);
    ClampAllNonEmpty(dims[1..]);
    assert clamped[1..] == ClampAll(dims[1..]);
    if dims[0].stop <= dims[0].start {
      assert clamped[0] in clamped;
      SomeEmptyNoPoints(clamped);
    } else {
      PointsFirst(clamped);
    }
  }

  /** The odometer stands on the k-th point of its walk, or past the last one. */
  ghost predicate OnWalk(odom: Dapodometer, k: nat)
    reads odom.index, odom.start, odom.stride, odom.stop, odom.declsize
  {
    && odom.Valid()
    && k <= |Walked(odom.dims)|
    && (k < |Walked(odom.dims)| ==> odom.Position() == Walked(odom.dims)[k])
    && (odom.More() <==> k < |Walked(odom.dims)|)
  }

  lemma {:induction false} StartsOnWalk(odom: Dapodometer)
    requires odom.Valid() && odom.Position() == Starts(odom.dims)
    ensures OnWalk(odom, 0)
  {
    if odom.rank != 0 {
      FirstWalked(odom.dims);
      assert odom.Position()[0] == odom.index[0];
      StartsLength(odom.dims);
    }
  }

  /** Turning the odometer moves it from the k-th point of its walk to the next. */
  method Turn(odom: Dapodometer, ghost k: nat) returns (more: bool)
    requires OnWalk(odom, k) && odom.More()
    modifies odom.index
    ensures OnWalk(odom, k + 1)
    ensures more == odom.More()
  {
    NextIsSuccessor(odom.dims, k);
    more := odom.Next();
    if k + 1 < |Walked(odom.dims)| {
      NextIsSuccessor(odom.dims, k + 1);
    }
    assert odom.Position()[0] == odom.index[0];
  }

  /** No point stands twice in the list. */
  ghost predicate AllDiffer<T>(points: seq<T>)
  {
    forall i, j :: 0 <= i < j < |points| ==> points[i] != points[j]
  }

  lemma {:induction false} WalkedDiffer(dims: seq<Dim>)
    ensures AllDiffer(Walked(dims))
  {
    forall i, j | 0 <= i < j < |Walked(dims)|
      ensures Walked(dims)[i] != Walked(dims)[j]
    {
      PointsDistinct(WalkWheels(dims), i, j);
    }
  }

  /** The loop that every reader runs: the odometer visits the walked box in order, each point once, and then stops. */
  method Visit(odom: Dapodometer) returns (visited: seq<seq<nat>>)
    requires odom.Valid() && odom.Position() == Starts(odom.dims)
    modifies odom.index
    ensures odom.Valid() && !odom.More()
    ensures visited == Walked(odom.dims) && AllDiffer(visited)
  {
    visited := [];
    StartsOnWalk(odom);
    while odom.More()
      invariant OnWalk(odom, |visited|)
      invariant visited == Walked(odom.dims)[..|visited|]
      decreases |Walked(odom.dims)| - |visited|
    {
      ghost var k := |visited|;
      visited := visited + [odom.index[..odom.rank]];
      var more := Turn(odom, k);
    }
    WalkedDiffer(odom.dims);
  }
}
