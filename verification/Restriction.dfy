/** What restricting a URL projection by a request means: the request is looked up in the URL's selection. */
module Restriction {
  import opened Ranges
  import opened Slices
  import opened Boxes
  import opened Segments
  import opened Odometer
  import opened Offsets
  import opened Projections
  import opened Requests

  /** The source point of p: each coordinate is a position in the selection of its dimension. */
  function LookUp(outer: seq<seq<nat>>, p: seq<nat>): seq<nat>
    requires InSelection(outer, p)
  {
    if p == [] then [] else [outer[0][p[0]]] + LookUp(outer[1..], p[1..])
  }

  predicate InSelection(outer: seq<seq<nat>>, p: seq<nat>)
  {
    |p| == |outer| && forall d :: 0 <= d < |p| ==> p[d] < |outer[d]|
  }

  /** The selections of the slices, dimension by dimension. */
  function Selections(slices: seq<Slice>): (r: seq<seq<nat>>)
    requires PositiveStrides(slices)
    ensures |r| == |slices| && forall d :: 0 <= d < |r| ==> r[d] == Indices(slices[d])
  {
    if slices == [] then [] else [Indices(slices[0])] + Selections(slices[1..])
  }

  /** Wheel r reads, at each of its positions, the entry of outer that wheel v names. */
  predicate ReadsThrough(outer: seq<nat>, v: Dim, r: Dim)
  {
    && |Digits(r)| == |Digits(v)|
    && forall k :: 0 <= k < |Digits(v)| ==> Digits(v)[k] < |outer| && Digits(r)[k] == outer[Digits(v)[k]]
  }

  /** Boxes whose wheels read through selections have the same number of points, and correspond point by point. */
  lemma {:induction false} PointsReadThrough(outer: seq<seq<nat>>, vs: seq<Dim>, rs: seq<Dim>, k: nat)
    requires |outer| == |vs| == |rs|
    requires forall d :: 0 <= d < |outer| ==> ReadsThrough(outer[d], vs[d], rs[d])
    ensures |Points(rs)| == |Points(vs)|
    ensures k < |Points(vs)| ==> InSelection(outer, Points(vs)[k]) && Points(rs)[k] == LookUp(outer, Points(vs)[k])
  {
    if vs != [] {
      assert forall d :: 0 <= d < |outer[1..]| ==> ReadsThrough(outer[1..][d], vs[1..][d], rs[1..][d]);
      PointsReadThrough(outer[1..], vs[1..], rs[1..], 0);
      RowsLength(Digits(vs[0]), Points(vs[1..]));
      RowsLength(Digits(rs[0]), Points(rs[1..]));
      if k < |Points(vs)| {
        var i, j := PointsSplit(vs, k);
        PointsReadThrough(outer[1..], vs[1..], rs[1..], j);
        PointsJoin(rs, i, j);
        assert ReadsThrough(outer[0], vs[0], rs[0]);
        var p := Points(vs)[k];
        assert p[1..] == Points(vs[1..])[j];
        LookUpCons(outer, p);
      }
    }
  }

  lemma {:induction false} LookUpCons(outer: seq<seq<nat>>, p: seq<nat>)
    requires |p| == |outer| && p != [] && p[0] < |outer[0]| && InSelection(outer[1..], p[1..])
    ensures InSelection(outer, p)
    ensures LookUp(outer, p) == [outer[0][p[0]]] + LookUp(outer[1..], p[1..])
  {
    forall d | 0 <= d < |p|
      ensures p[d] < |outer[d]|
    {
      if 0 < d {
        assert p[1..][d - 1] < |outer[1..][d - 1]|;
      }
    }
  }

  /** The request stays inside what the URL selects; an empty request must at least start there. */
  predicate InRange(s: Slice, added: Slice)
    requires 0 < s.stride && 0 < added.stride
  {
    && added.first < |Indices(s)|
    && forall x <- Indices(added) :: x < |Indices(s)|
  }

  /** For a request in range, the merged slice reads the URL's selection at the requested positions. */
  lemma {:induction false} MergedReadsThrough(s: Slice, added: Slice)
    requires 0 < s.stride && 0 < added.stride && InRange(s, added)
    ensures 0 < MergeSlice(s, added).stride
    ensures ReadsThrough(Indices(s), WheelOf(added), WheelOf(MergeSlice(s, added)))
  {
    ComposeExact(s, added);
    var r, inner := Indices(MergeSlice(s, added)), Indices(added);
    SelectAt(s, added, |inner|);
    if inner != [] {
      SelectAt(s, added, |inner| - 1);
      assert inner[|inner| - 1] in inner;
    }
    assert |r| == |inner|;
    forall k | 0 <= k < |inner|
      ensures inner[k] < |Indices(s)| && r[k] == Indices(s)[inner[k]]
    {
      SelectAt(s, added, k);
      assert inner[k] in inner;
    }
    assert Digits(WheelOf(added)) == inner && Digits(WheelOf(MergeSlice(s, added))) == r;
  }

  /** A merged slice denotes the request looked up in the URL's selection iff the request starts inside it;
      otherwise the failure goes unnoticed and the URL's slice is left as it was. */
  lemma {:induction false} MergeSliceExact(s: Slice, added: Slice)
    requires 0 < s.stride && 0 < added.stride && s.first <= s.last
    ensures Indices(MergeSlice(s, added)) == Select(Indices(s), Indices(added)) <==> added.first < |Indices(s)|
    ensures |Indices(s)| <= added.first ==> MergeSlice(s, added) == s
  {
    ComposeExact(s, added);
    StepsHead(s.first, s.last + 1, s.stride);
  }

  /** A request that is accepted against what the URL selects never makes the composition fail. */
  lemma {:induction false} AcceptedComposes(s: Slice, start: nat, count: nat, stride: nat, declsize0: nat)
    requires 0 < s.stride && Accepted(start, count, stride, |Indices(s)|)
    ensures 0 < VaraSlice(start, count, stride, declsize0).stride
    ensures Compose(s, VaraSlice(start, count, stride, declsize0)).Some?
  {
    ComposeExact(s, VaraSlice(start, count, stride, declsize0));
  }

  predicate SegmentsInRange(u: SegmentView, v: SegmentView)
  {
    && Mergeable(u, v) && u.rank == v.rank
    && forall d :: 0 <= d < u.rank ==> InRange(u.slices[d], v.slices[d])
  }

  /** Restricting preserves meaning: for segments of equal rank and a request in range, the merged segment has as
      many points as the request, and its k-th point is the request's k-th point looked up in the URL's slices. */
  lemma {:induction false} RestrictionPreservesMeaning(u: SegmentView, v: SegmentView, k: nat)
    requires SegmentsInRange(u, v)
    ensures var us, vs, rs := u.slices[..u.rank], v.slices[..u.rank], MergeView(u, v).slices[..u.rank];
            && MergeView(u, v).rank == u.rank
            && PositiveStrides(us) && PositiveStrides(vs) && PositiveStrides(rs)
            && |Points(WheelsOf(rs))| == |Points(WheelsOf(vs))|
            && (k < |Points(WheelsOf(vs))| ==>
                  && InSelection(Selections(us), Points(WheelsOf(vs))[k])
                  && Points(WheelsOf(rs))[k] == LookUp(Selections(us), Points(WheelsOf(vs))[k]))
  {
    var us, vs, rs := u.slices[..u.rank], v.slices[..u.rank], MergeView(u, v).slices[..u.rank];
    forall d | 0 <= d < u.rank
      ensures 0 < us[d].stride && 0 < vs[d].stride && 0 < rs[d].stride
      ensures ReadsThrough(Indices(us[d]), WheelOf(vs[d]), WheelOf(rs[d]))
    {
      assert InRange(u.slices[d], v.slices[d]);
      MergedReadsThrough(us[d], vs[d]);
      assert rs[d] == MergedSlice(u, v, d);
    }
    assert PositiveStrides(us) && PositiveStrides(vs) && PositiveStrides(rs);
    PointsReadThrough(Selections(us), WheelsOf(vs), WheelsOf(rs), k);
  }

  /** An accepted request is in range of the URL's slice, when the check is made against what the URL selects. */
  lemma {:induction false} AcceptedInRange(s: Slice, start: nat, count: nat, stride: nat, declsize0: nat)
    requires 0 < s.stride
    requires IsRequest(start, count, stride, |Indices(s)|, declsize0) && IsSane(start, count, stride)
    ensures InRange(s, VaraSlice(start, count, stride, declsize0))
  {
    var v := VaraSlice(start, count, stride, declsize0);
    VaraDenotes(start, count, stride, |Indices(s)|, declsize0);
    forall x | x in Indices(v)
      ensures x < |Indices(s)|
    {
      var k :| 0 <= k < |Indices(v)| && Indices(v)[k] == x;
      VaraIndex(start, count, stride, |Indices(s)|, declsize0, k);
    }
  }

  // ----- Fetching a part and walking it

  lemma {:induction false} ShiftedWheel(s: Slice)
    requires MeetsHeader(s)
    ensures |Digits(WheelOf(ShiftSlice(s)))| == |Indices(s)|
    ensures Digits(Wheel(0, |Indices(s)|, 1, |Indices(s)|)) == Digits(WheelOf(ShiftSlice(s)))
  {
    ShiftRenumbers(s, 0);
    var n := |Indices(s)|;
    var dense: Dim := Wheel(0, n, 1, n);
    WholeDigits(dense, 0);
    forall k | 0 <= k < n
      ensures Digits(dense)[k] == Digits(WheelOf(ShiftSlice(s)))[k]
    {
      WholeDigits(dense, k);
      ShiftRenumbers(s, k);
    }
  }

  /** The dense array that the server returns: as many elements in each dimension as the slice selects. */
  function DenseWheels(slices: seq<Slice>): (dims: seq<Dim>)
    requires PositiveStrides(slices)
    ensures |dims| == |slices|
    ensures forall d :: 0 <= d < |dims| ==> dims[d] == Wheel(0, |Indices(slices[d])|, 1, |Indices(slices[d])|)
  {
    if slices == [] then [] else [Wheel(0, |Indices(slices[0])|, 1, |Indices(slices[0])|)] + DenseWheels(slices[1..])
  }

  lemma {:induction false} ShiftedIsDense(slices: seq<Slice>)
    requires AllMeetHeader(slices) && PositiveStrides(slices)
    ensures PositiveStrides(ShiftSlices(slices))
    ensures Points(WheelsOf(ShiftSlices(slices))) == Points(DenseWheels(slices))
  {
    if slices != [] {
      assert slices[0] in slices;
      ShiftRenumbers(slices[0], 0);
      ShiftedWheel(slices[0]);
      ShiftedIsDense(slices[1..]);
      var ts := ShiftSlices(slices);
      assert ts == [ShiftSlice(slices[0])] + ShiftSlices(slices[1..]);
      assert PositiveStrides(ts);
      assert WheelsOf(ts)[1..] == WheelsOf(ts[1..]) && DenseWheels(slices)[1..] == DenseWheels(slices[1..]);
    }
  }

  /** Walking the shifted request over the dense array of fetched elements meets them in the order in which the
      server sent them: one for each requested point, at offsets 0, 1, 2, ... */
  lemma {:induction false} ShiftedWalkIsInOrder(slices: seq<Slice>, k: nat)
    requires AllMeetHeader(slices) && PositiveStrides(slices)
    ensures PositiveStrides(ShiftSlices(slices))
    ensures |Points(WheelsOf(ShiftSlices(slices)))| == |Points(WheelsOf(slices))|
    ensures k < |Points(WheelsOf(slices))| ==>
              var p := Points(WheelsOf(ShiftSlices(slices)))[k];
              |p| == |slices| && Offset(DeclSizes(DenseWheels(slices)), p) == k
  {
    ShiftedIsDense(slices);
    assert AllWhole(DenseWheels(slices)) by {
      forall w | w in DenseWheels(slices)
        ensures IsWholeWheel(w)
      {
        var d :| 0 <= d < |slices| && DenseWheels(slices)[d] == w;
      }
    }
    WholeOffsets(DenseWheels(slices), k);
    CountProductIsPoints(slices);
    DenseCount(slices);
  }

  lemma {:induction false} DenseCount(slices: seq<Slice>)
    requires AllMeetHeader(slices) && PositiveStrides(slices)
    ensures Product(DeclSizes(DenseWheels(slices))) == |Points(WheelsOf(slices))|
  {
    if slices != [] {
      assert slices[0] in slices;
      DenseCount(slices[1..]);
      assert DenseWheels(slices)[1..] == DenseWheels(slices[1..]) && WheelsOf(slices)[1..] == WheelsOf(slices[1..]);
      RowsLength(Digits(WheelsOf(slices)[0]), Points(WheelsOf(slices[1..])));
      assert DeclSizes(DenseWheels(slices))[1..] == DeclSizes(DenseWheels(slices[1..]));
    }
  }
}
