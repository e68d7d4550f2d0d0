/** The projection that represents the arguments of a get-vara request, and its shifted form. */
module Requests {
  import opened Wrappers
  import opened Ranges
  import opened Slices
  import opened Tree
  import opened Segments
  import opened Projections

  /** A node on the path of the requested variable, with the unconstrained sizes of its dimensions,
      pseudo-dimensions included. */
  datatype PathNode = PathNode(node: CDFnode, dims: seq<nat>)

  predicate WellFormedPath(path: seq<PathNode>)
  {
    forall n <- path :: |n.dims| <= NC_MAX_VAR_DIMS && forall d <- n.dims :: 0 < d
  }

  /** The number of dimensions before node i of the path. */
  function RankBefore(path: seq<PathNode>, i: nat): nat
    requires i <= |path|
  {
    if i == 0 then 0 else RankBefore(path, i - 1) + |path[i - 1].dims|
  }

  /** A request of count elements from start by stride, in size_t arithmetic; clamped to the dimension when it would run
      past it. */
  function VaraSlice(start: nat, count: nat, stride: nat, declsize: nat): Slice
  {
    RequestSlice(start, count * stride, count, stride, declsize)
  }

  /** The same, for a request that covers total indices. */
  function RequestSlice(start: nat, total: nat, count: nat, stride: nat, declsize: nat): Slice
  {
    var length := Wrap(total);
    var last := Minus(Wrap(start + length), 1);
    if last >= declsize then
      var end := Minus(declsize, 1);
      Slice(start, stride, Wrap(Minus(end, start) + 1), end, count, declsize)
    else Slice(start, stride, length, last, count, declsize)
  }

  /** The argument check of the caller, in size_t arithmetic: a count of zero makes count-1 wrap. */
  predicate Accepted(start: nat, count: nat, stride: nat, declsize: nat)
  {
    1 <= stride && start < declsize && (start + stride * Minus(count, 1)) % SIZE < declsize
  }

  /** Renumber a slice to run from 0 by 1 over as many elements as it selects. */
  function ShiftSlice(s: Slice): Slice
  {
    if s.first == 0 && s.stride == 1 then s
    else Slice(0, 1, s.count, Minus(s.count, 1), s.count, s.declsize)
  }

  // ----- Building the projection

  /** The view of a segment that selects all of a node. */
  predicate IsWholeView(v: SegmentView, n: PathNode)
  {
    && v == SegmentView(n.node.ocname, true, true, |n.dims|, v.slices, Some(n.node))
    && |v.slices| == NC_MAX_VAR_DIMS && |n.dims| <= NC_MAX_VAR_DIMS
    && forall j :: 0 <= j < |n.dims| ==> v.slices[j] == MakeWhole(n.dims[j])
  }

  predicate EnoughArguments(rank: nat, startp: seq<nat>, countp: seq<nat>, stridep: seq<nat>)
  {
    rank <= |startp| && rank <= |countp| && rank <= |stridep|
  }

  /** The view of a segment of the request: dimension j of its node takes the arguments at place base + j. */
  predicate IsVaraView(v: SegmentView, n: PathNode, base: nat, startp: seq<nat>, countp: seq<nat>, stridep: seq<nat>)
  {
    && v == SegmentView(n.node.ocname, true, true, |n.dims|, v.slices, Some(n.node))
    && |v.slices| == NC_MAX_VAR_DIMS && |n.dims| <= NC_MAX_VAR_DIMS
    && EnoughArguments(base + |n.dims|, startp, countp, stridep)
    && forall j :: 0 <= j < |n.dims| ==>
         v.slices[j] == VaraSlice(startp[base + j], countp[base + j], stridep[base + j], n.dims[j])
  }

  /** The segment has the node's name, stands for the node, and has slices for all of its dimensions. */
  predicate NamesNode(v: SegmentView, n: PathNode)
  {
    && v.name == n.node.ocname && v.annotation == Some(n.node) && v.rank == |n.dims| <= |v.slices|
    && v.slicesdefined && v.slicesdeclized
  }

  method WholeSegment(n: PathNode) returns (segment: DCEsegment)
    requires |n.dims| <= NC_MAX_VAR_DIMS
    ensures fresh(segment) && segment.Valid() && IsWholeView(segment.View(), n)
  {
    segment := new DCEsegment();
    segment.annotation := Some(n.node);
    segment.name := n.node.ocname;
    segment.rank := |n.dims|;
    var j := 0;
    while j < |n.dims|
      invariant 0 <= j <= |n.dims|
      invariant |segment.slices| == NC_MAX_VAR_DIMS && segment.rank == |n.dims|
      invariant segment.name == n.node.ocname && segment.annotation == Some(n.node)
      invariant forall k :: 0 <= k < j ==> segment.slices[k] == MakeWhole(n.dims[k])
    {
      segment.slices := segment.slices[j := MakeWhole(n.dims[j])];
      j := j + 1;
    }
    segment.slicesdefined := true;
    segment.slicesdeclized := true;
  }

  /** A whole-variable projection with one segment for each node of the path. */
  method Var2Projection(path: seq<PathNode>, annotation: Option<CDFnode>) returns (projection: DCEprojection)
    requires WellFormedPath(path)
    ensures fresh(projection) && fresh(projection.variable) && fresh(projection.variable.segments)
    ensures projection.Valid() && projection.discrim == CES_VAR && projection.variable.annotation == annotation
    ensures |projection.View()| == |path|
    ensures forall i {:trigger projection.View()[i]} :: 0 <= i < |path| ==> IsWholeView(projection.View()[i], path[i])
    ensures forall i {:trigger projection.View()[i]} :: 0 <= i < |path| ==>
              && NamesNode(projection.View()[i], path[i])
              && forall j :: 0 <= j < |path[i].dims| ==>
                   var s := projection.View()[i].slices[j];
                   s.first == 0 && s.stride == 1 && s.length == s.count == s.declsize == path[i].dims[j]
  {
    var segments := [];
    var i := 0;
    while i < |path|
      invariant 0 <= i <= |path| && |segments| == i
      invariant fresh(segments) && AllValid(segments) && Separate(segments)
      invariant forall k :: 0 <= k < i ==> IsWholeView(segments[k].View(), path[k])
    {
      assert path[i] in path;
      var segment := WholeSegment(path[i]);
      segments := segments + [segment];
      i := i + 1;
    }
    var variable := new DCEvar(segments, annotation);
    projection := new DCEprojection(CES_VAR, variable, "");
  }

  /** Overwrite a slice with the arguments for its dimension. */
  method SetVara(whole: Slice, start: nat, count: nat, stride: nat) returns (slice: Slice)
    ensures slice == VaraSlice(start, count, stride, whole.declsize)
  {
    slice := whole;
    slice := slice.(first := start);
    slice := slice.(stride := stride);
    slice := slice.(count := count);
    slice := slice.(length := Wrap(count * slice.stride));
    slice := slice.(last := Minus(Wrap(slice.first + slice.length), 1));
    if slice.last >= slice.declsize {
      slice := slice.(last := Minus(slice.declsize, 1));
      slice := slice.(length := Wrap(Minus(slice.last, slice.first) + 1));
    }
  }

  /** Overwrite the slices of one segment with the arguments from dimindex on. */
  method FillVara(segment: DCEsegment, n: PathNode, dimindex: nat, startp: seq<nat>, countp: seq<nat>,
                  stridep: seq<nat>)
    requires segment.Valid() && IsWholeView(segment.View(), n)
    requires EnoughArguments(dimindex + |n.dims|, startp, countp, stridep)
    modifies segment
    ensures segment.Valid() && IsVaraView(segment.View(), n, dimindex, startp, countp, stridep)
  {
    ghost var v := segment.View();
    var j := 0;
    while j < segment.rank
      invariant 0 <= j <= segment.rank
      invariant segment.View() == v.(slices := segment.slices) && |segment.slices| == NC_MAX_VAR_DIMS
      invariant forall k :: 0 <= k < j ==>
                  segment.slices[k] == VaraSlice(startp[dimindex + k], countp[dimindex + k], stridep[dimindex + k],
                    n.dims[k])
      invariant forall k :: j <= k < |n.dims| ==> segment.slices[k] == MakeWhole(n.dims[k])
    {
      var slice := SetVara(segment.slices[j], startp[dimindex + j], countp[dimindex + j], stridep[dimindex + j]);
      segment.slices := segment.slices[j := slice];
      j := j + 1;
    }
  }

  /** One segment for each node of the path; the dimensions of all nodes, in order, take the arguments in order. */
  method BuildVaraProjection(path: seq<PathNode>, annotation: Option<CDFnode>, startp: seq<nat>, countp: seq<nat>,
                             stridep: seq<nat>) returns (projection: DCEprojection)
    requires WellFormedPath(path) && EnoughArguments(RankBefore(path, |path|), startp, countp, stridep)
    ensures fresh(projection) && fresh(projection.variable) && fresh(projection.variable.segments)
    ensures projection.Valid() && projection.discrim == CES_VAR && projection.variable.annotation == annotation
    ensures |projection.View()| == |path|
    ensures forall i {:trigger projection.View()[i]} :: 0 <= i < |path| ==>
              IsVaraView(projection.View()[i], path[i], RankBefore(path, i), startp, countp, stridep)
    ensures forall i {:trigger projection.View()[i]} :: 0 <= i < |path| ==> NamesNode(projection.View()[i], path[i])
  {
    projection := Var2Projection(path, annotation);
    FillSegments(path, projection.variable.segments, startp, countp, stridep);
  }

  method FillSegments(path: seq<PathNode>, segments: seq<DCEsegment>, startp: seq<nat>, countp: seq<nat>,
                      stridep: seq<nat>)
    requires EnoughArguments(RankBefore(path, |path|), startp, countp, stridep)
    requires |segments| == |path| && Separate(segments)
    requires forall i {:trigger segments[i]} :: 0 <= i < |path| ==>
               segments[i].Valid() && IsWholeView(segments[i].View(), path[i])
    modifies segments
    ensures forall i {:trigger segments[i]} :: 0 <= i < |path| ==>
              && segments[i].Valid()
              && IsVaraView(segments[i].View(), path[i], RankBefore(path, i), startp, countp, stridep)
  {
    var dimindex := 0;
    var i := 0;
    while i < |segments|
      invariant 0 <= i <= |segments| && dimindex == RankBefore(path, i)
      invariant forall k :: 0 <= k < |segments| ==> segments[k].Valid()
      invariant forall k {:trigger segments[k]} :: 0 <= k < i ==>
                  IsVaraView(segments[k].View(), path[k], RankBefore(path, k), startp, countp, stridep)
      invariant forall k {:trigger segments[k]} :: i <= k < |segments| ==> IsWholeView(segments[k].View(), path[k])
      modifies segments
    {
      assert segments[i] in segments;
      RankBeforeGrows(path, i + 1, |path|);
      FillVara(segments[i], path[i], dimindex, startp, countp, stridep);
      dimindex := dimindex + segments[i].rank;
      i := i + 1;
    }
  }

  lemma {:induction false} RankBeforeGrows(path: seq<PathNode>, i: nat, j: nat)
    requires i <= j <= |path|
    ensures RankBefore(path, i) <= RankBefore(path, j)
  {
    if i < j {
      RankBeforeGrows(path, i, j - 1);
    }
  }

  /** Shift every slice of the projection, in place. */
  method ShiftProjection(projection: DCEprojection)
    requires projection.Valid() && projection.discrim == CES_VAR
    modifies projection.variable.segments
    ensures projection.Valid()
    ensures |projection.View()| == |old(projection.View())|
    ensures forall i :: 0 <= i < |projection.View()| ==> projection.View()[i] == ShiftView(old(projection.View()[i]))
  {
    var segments := projection.variable.segments;
    var i := 0;
    while i < |segments|
      invariant 0 <= i <= |segments|
      invariant forall k :: 0 <= k < |segments| ==> segments[k].Valid()
      invariant forall k :: 0 <= k < i ==> segments[k].View() == ShiftView(old(segments[k].View()))
      invariant forall k :: i <= k < |segments| ==> segments[k].View() == old(segments[k].View())
      modifies segments
    {
      assert segments[i] in segments;
      ShiftSegment(segments[i]);
      i := i + 1;
    }
  }

  function ShiftSlices(slices: seq<Slice>): (r: seq<Slice>)
    ensures |r| == |slices| && forall j :: 0 <= j < |r| ==> r[j] == ShiftSlice(slices[j])
  {
    if slices == [] then [] else [ShiftSlice(slices[0])] + ShiftSlices(slices[1..])
  }

  function ShiftView(v: SegmentView): SegmentView
  {
    if v.rank <= |v.slices| then v.(slices := ShiftSlices(v.slices[..v.rank]) + v.slices[v.rank..]) else v
  }

  method ShiftSegment(seg: DCEsegment)
    requires seg.Valid()
    modifies seg
    ensures seg.Valid() && seg.View() == ShiftView(old(seg.View()))
  {
    ghost var v := seg.View();
    var j := 0;
    while j < seg.rank
      invariant 0 <= j <= seg.rank
      invariant seg.View() == v.(slices := seg.slices) && |seg.slices| == NC_MAX_VAR_DIMS
      invariant forall k :: 0 <= k < NC_MAX_VAR_DIMS ==>
                  seg.slices[k] == if k < j then ShiftSlice(v.slices[k]) else v.slices[k]
    {
      seg.slices := seg.slices[j := ShiftSlice(seg.slices[j])];
      j := j + 1;
    }
    assert seg.slices == ShiftView(v).slices;
  }

  // ----- What the slices of a request denote

  lemma {:induction false} WrapOnce(n: nat)
    requires SIZE <= n < 2 * SIZE
    ensures Wrap(n) == n - SIZE
  {
    ModOf(n, SIZE, 1, n - SIZE);
  }

  /** The end of an unclamped request, that runs past the size of the type at most once. */
  lemma {:induction false} WrappedEnd(start: nat, total: nat)
    requires start < SIZE && start + total < 2 * SIZE
    ensures Wrap(start + Wrap(total)) == if start + total < SIZE then start + total else start + total - SIZE
  {
    if SIZE <= total {
      WrapOnce(total);
    } else if SIZE <= start + total {
      WrapOnce(start + total);
    }
  }

  /** A request that fits has exactly count indices, start + k * stride, whether or not it is clamped. */
  lemma {:induction false} VaraCovers(start: nat, count: nat, stride: nat, declsize: nat)
    requires 1 <= stride && 0 < count && start + (count - 1) * stride < declsize < SIZE
    requires start + count * stride <= SIZE
    ensures MeetsHeader(VaraSlice(start, count, stride, declsize))
    ensures VaraSlice(start, count, stride, declsize).first == start
    ensures |Indices(VaraSlice(start, count, stride, declsize))| == count
  {
    var s := VaraSlice(start, count, stride, declsize);
    VaraEnd(start, count, stride, declsize);
    StepsCover(start, s.last + 1, stride, count);
    StepsCount(start, s.last + 1, stride);
  }

  lemma {:induction false} VaraEnd(start: nat, count: nat, stride: nat, declsize: nat)
    requires 1 <= stride && 0 < count && start + (count - 1) * stride < declsize < SIZE
    requires start + count * stride <= SIZE
    ensures var s := VaraSlice(start, count, stride, declsize);
            && start + (count - 1) * stride <= s.last < start + count * stride
            && s.length == s.last + 1 - start
  {
    NextMultiple(count - 1, stride);
    RequestEnd(start, count * stride, (count - 1) * stride, count, stride, declsize);
  }

  lemma {:induction false} RequestEnd(start: nat, total: nat, before: nat, count: nat, stride: nat, declsize: nat)
    requires total == before + stride && 1 <= stride && start + before < declsize < SIZE && start + total <= SIZE
    ensures var s := RequestSlice(start, total, count, stride, declsize);
            start + before <= s.last < start + total && s.length == s.last + 1 - start
  {
    WrappedEnd(start, total);
  }

  /** Sizes, indices and strides as size_t holds them; the check sees the constrained size of a dimension, and the slice
      is clamped to the unconstrained one. */
  predicate IsRequest(start: nat, count: nat, stride: nat, declsize: nat, declsize0: nat)
  {
    count < SIZE && stride < SIZE && declsize <= declsize0 < SIZE && Accepted(start, count, stride, declsize)
  }

  /** The request ends within size_t, and is not an empty one at index 0. */
  predicate IsSane(start: nat, count: nat, stride: nat)
  {
    start + count * stride <= SIZE && (0 < count || 0 < start)
  }

  /** An accepted request denotes as many indices as it asks for iff its end does not exceed the size of the type, and
      it is not an empty one at index 0. */
  lemma {:induction false} VaraDenotes(start: nat, count: nat, stride: nat, declsize: nat, declsize0: nat)
    requires IsRequest(start, count, stride, declsize, declsize0)
    ensures |Indices(VaraSlice(start, count, stride, declsize0))| == count <==> IsSane(start, count, stride)
    ensures IsSane(start, count, stride) && 0 < count ==> MeetsHeader(VaraSlice(start, count, stride, declsize0))
    ensures IsSane(start, count, stride) && 0 == count ==> VaraSlice(start, count, stride, declsize0).last + 1 == start
  {
    var s := VaraSlice(start, count, stride, declsize0);
    if count == 0 {
      assert 0 * stride == 0;
      StepsHead(start, s.last + 1, stride);
    } else if IsSane(start, count, stride) {
      AcceptedFits(start, count, stride, declsize);
      VaraCovers(start, count, stride, declsize0);
    } else {
      EndsEarly(start, count, stride, declsize, declsize0);
      StepsAt(start, s.last + 1, stride, count - 1);
    }
  }

  /** A request whose end exceeds the size of the type loses its last index. */
  lemma {:induction false} EndsEarly(start: nat, count: nat, stride: nat, declsize: nat, declsize0: nat)
    requires IsRequest(start, count, stride, declsize, declsize0) && 0 < count && SIZE < start + count * stride
    ensures VaraSlice(start, count, stride, declsize0).last < start + (count - 1) * stride
  {
    var s := VaraSlice(start, count, stride, declsize0);
    NextMultiple(count - 1, stride);
    assert s.last < SIZE;
    if start + (count - 1) * stride < SIZE {
      WrappedEnd(start, count * stride);
      assert stride * (count - 1) == (count - 1) * stride;
    }
  }

  /** The k-th index of an accepted request lies in the constrained dimension. */
  lemma {:induction false} VaraIndex(start: nat, count: nat, stride: nat, declsize: nat, declsize0: nat, k: nat)
    requires IsRequest(start, count, stride, declsize, declsize0) && IsSane(start, count, stride) && k < count
    ensures |Indices(VaraSlice(start, count, stride, declsize0))| == count
    ensures Indices(VaraSlice(start, count, stride, declsize0))[k] == start + k * stride < declsize
  {
    var s := VaraSlice(start, count, stride, declsize0);
    VaraDenotes(start, count, stride, declsize, declsize0);
    AcceptedFits(start, count, stride, declsize);
    StepsAt(start, s.last + 1, stride, k);
    MulOrder(k, count - 1, stride);
  }

  /** A request for something that ends within size_t is accepted iff its last index lies in the dimension. */
  lemma {:induction false} AcceptedIff(start: nat, count: nat, stride: nat, declsize: nat)
    requires 0 < count && 0 < stride && start + count * stride <= SIZE
    ensures Accepted(start, count, stride, declsize) <==> start + (count - 1) * stride < declsize
  {
    NextMultiple(count - 1, stride);
    assert stride * (count - 1) == (count - 1) * stride;
    if Accepted(start, count, stride, declsize) {
      AcceptedFits(start, count, stride, declsize);
    }
  }

  lemma {:induction false} AcceptedFits(start: nat, count: nat, stride: nat, declsize: nat)
    requires Accepted(start, count, stride, declsize) && 0 < count && start + count * stride <= SIZE
    ensures start + (count - 1) * stride < declsize
  {
    NextMultiple(count - 1, stride);
    assert stride * (count - 1) == (count - 1) * stride;
  }

  /** The check lets a count of zero through iff start is at least one stride in, or the dimension so long that the end
      wraps around into it. */
  lemma {:induction false} ZeroCountAccepted(start: nat, stride: nat, declsize: nat)
    requires 1 <= stride < SIZE && start < declsize < SIZE
    ensures Accepted(start, 0, stride, declsize) <==> stride <= start || SIZE + start < declsize + stride
  {
    var total := start + stride * (SIZE - 1);
    assert stride * (SIZE - 1) == stride * SIZE - stride;
    if stride <= start {
      ModOf(total, SIZE, stride, start - stride);
    } else {
      assert (stride - 1) * SIZE == stride * SIZE - SIZE;
      ModOf(total, SIZE, stride - 1, SIZE + start - stride);
    }
  }

  /** A count of zero at index 0 selects from the whole dimension; it passes the check only with a stride that is longer
      than what the dimension leaves of the type. */
  lemma {:induction false} ZeroCountAtOrigin(stride: nat, declsize: nat)
    requires 1 <= stride < SIZE && 0 < declsize < SIZE
    ensures VaraSlice(0, 0, stride, declsize).last == declsize - 1
    ensures 0 in Indices(VaraSlice(0, 0, stride, declsize))
    ensures Accepted(0, 0, stride, declsize) <==> SIZE < declsize + stride
  {
    ZeroCountAccepted(0, stride, declsize);
    assert 0 * stride == 0;
    StepsHead(0, declsize, stride);
  }

  /** A slice that selects something is renumbered to 0..count-1, keeping its count; an empty one gets a last index that
      is one below 0 in size_t arithmetic. */
  lemma {:induction false} ShiftRenumbers(s: Slice, k: nat)
    requires MeetsHeader(s) || (s.count == 0 && s.last < s.first)
    ensures ShiftSlice(s).count == s.count
    ensures MeetsHeader(s) ==> MeetsHeader(ShiftSlice(s)) && |Indices(ShiftSlice(s))| == |Indices(s)| == s.count
    ensures MeetsHeader(s) && k < s.count ==> Indices(ShiftSlice(s))[k] == k
    ensures s.last < s.first ==> ShiftSlice(s) == Slice(0, 1, 0, SIZE - 1, 0, s.declsize)
  {
    if MeetsHeader(s) {
      CountIsLength(s);
      StepsHead(s.first, s.last + 1, s.stride);
      var t := ShiftSlice(s);
      CountIsLength(t);
      StepsAt(t.first, t.last + 1, t.stride, k);
    }
  }
}
