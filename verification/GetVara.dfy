/** A get-vara request on a cached variable: build the request's projection, restrict the URL's by it, and read. */
module GetVara {
  import opened Wrappers
  import opened Ranges
  import opened Slices
  import opened Boxes
  import opened Tree
  import opened Segments
  import opened Odometer
  import opened Projections
  import opened Requests
  import opened Restriction
  import opened Readers
  import opened Nested

  // ----- One dimension

  /** A slice of the URL for a dimension of the given size. It is declared with the size that the constrained dimension
      has; its count is not looked at. */
  predicate FitsDimension(u: Slice, size: nat)
  {
    0 < u.stride && u.last < size && u.declsize <= size
  }

  /** The slice that is walked: the URL's slice restricted by the request's, or the request's where the URL has none. */
  function WalkSlice(u: Slice, v: Slice, matched: bool): Slice
    requires 0 < u.stride && 0 < v.stride
  {
    if matched then MergeSlice(u, v) else v
  }

  /** A request for one dimension: accepted against what the URL selects there. */
  predicate IsAsked(start: nat, count: nat, stride: nat, u: Slice, size: nat, matched: bool)
  {
    && FitsDimension(u, size) && (!matched ==> u == MakeWhole(size))
    && IsRequest(start, count, stride, |Indices(u)|, size)
  }

  lemma {:induction false} VaraBounds(start: nat, count: nat, stride: nat, declsize: nat, declsize0: nat)
    requires IsRequest(start, count, stride, declsize, declsize0)
    ensures var v := VaraSlice(start, count, stride, declsize0);
            v.first == start < declsize && v.last < declsize0 && v.declsize == declsize0 && v.stride == stride
  {
  }

  /** An accepted request that is whole counts its dimension right. */
  lemma {:induction false} VaraWalkable(start: nat, count: nat, stride: nat, declsize: nat, declsize0: nat)
    requires IsRequest(start, count, stride, declsize, declsize0)
    ensures IsWalkable(VaraSlice(start, count, stride, declsize0))
  {
    var v := VaraSlice(start, count, stride, declsize0);
    if IsWhole(v) {
      assert count * 1 == count;
      if count == 0 {
        ZeroCountAccepted(0, 1, declsize);
      }
    }
  }

  lemma {:induction false} ComposedWalkable(u: Slice, v: Slice)
    requires 0 < u.stride && 0 < v.stride && Compose(u, v).Some?
    ensures 0 < Compose(u, v).value.stride && IsWalkable(Compose(u, v).value)
  {
  }

  /** The walked slice stays inside the dimension, whatever is asked for. */
  lemma {:induction false} WalkSliceFits(start: nat, count: nat, stride: nat, u: Slice, size: nat, matched: bool)
    requires IsAsked(start, count, stride, u, size, matched)
    ensures 0 < VaraSlice(start, count, stride, size).stride
    ensures var r := WalkSlice(u, VaraSlice(start, count, stride, size), matched);
            && 0 < r.stride && IsWalkable(r) && r.declsize == size && r.first < size && r.last < size
            && r.first <= u.last && r.last <= u.last
  {
    var v := VaraSlice(start, count, stride, size);
    VaraBounds(start, count, stride, |Indices(u)|, size);
    VaraWalkable(start, count, stride, |Indices(u)|, size);
    if matched {
      ComposeExact(u, v);
      ComposedWalkable(u, v);
    }
  }

  /** For a sane request the walked slice reads what the URL selects at the requested positions, and it is empty iff
      nothing is requested. */
  lemma {:induction false} WalkSliceReads(start: nat, count: nat, stride: nat, u: Slice, size: nat, matched: bool)
    requires IsAsked(start, count, stride, u, size, matched) && IsSane(start, count, stride)
    ensures var v := VaraSlice(start, count, stride, size);
            && 0 < v.stride && 0 < WalkSlice(u, v, matched).stride && |Indices(v)| == count
            && ReadsThrough(Indices(u), WheelOf(v), WheelOf(WalkSlice(u, v, matched)))
            && (WalkSlice(u, v, matched).last < WalkSlice(u, v, matched).first <==> count == 0)
  {
    var v := VaraSlice(start, count, stride, size);
    VaraDenotes(start, count, stride, |Indices(u)|, size);
    AcceptedInRange(u, start, count, stride, size);
    WalkSliceFits(start, count, stride, u, size, matched);
    if matched {
      MergedReadsThrough(u, v);
    } else {
      ReadsWhole(v, size);
    }
    var r := WalkSlice(u, v, matched);
    StepsHead(r.first, r.last + 1, r.stride);
  }

  lemma {:induction false} ReadsWhole(v: Slice, size: nat)
    requires 0 < v.stride && 0 < size && InRange(MakeWhole(size), v)
    ensures ReadsThrough(Indices(MakeWhole(size)), WheelOf(v), WheelOf(v))
  {
    var outer, digits := Indices(MakeWhole(size)), Digits(WheelOf(v));
    forall k | 0 <= k < |digits|
      ensures digits[k] < |outer| && digits[k] == outer[digits[k]]
    {
      assert digits[k] in Indices(v);
      WholeSelectsAll(size, digits[k]);
    }
  }

  // ----- All dimensions

  /** The request for dimension d. */
  predicate IsAskedAt(us: seq<Slice>, startp: seq<nat>, countp: seq<nat>, stridep: seq<nat>, dims: seq<nat>,
                      matched: bool, d: nat)
    requires d < |dims| == |us| && EnoughArguments(|dims|, startp, countp, stridep)
  {
    IsAsked(startp[d], countp[d], stridep[d], us[d], dims[d], matched)
  }

  predicate AllAsked(us: seq<Slice>, startp: seq<nat>, countp: seq<nat>, stridep: seq<nat>, dims: seq<nat>,
                     matched: bool)
  {
    && |us| == |dims| && EnoughArguments(|dims|, startp, countp, stridep)
    && forall d {:trigger IsAskedAt(us, startp, countp, stridep, dims, matched, d)} :: 0 <= d < |dims| ==>
         IsAskedAt(us, startp, countp, stridep, dims, matched, d)
  }

  predicate AllSane(startp: seq<nat>, countp: seq<nat>, stridep: seq<nat>, n: nat)
    requires EnoughArguments(n, startp, countp, stridep)
  {
    forall d :: 0 <= d < n ==> IsSane(startp[d], countp[d], stridep[d])
  }

  /** The request asks for something along every dimension, and wraps around nowhere. */
  predicate AsksSomething(startp: seq<nat>, countp: seq<nat>, stridep: seq<nat>, n: nat)
    requires EnoughArguments(n, startp, countp, stridep)
  {
    AllSane(startp, countp, stridep, n) && forall d :: 0 <= d < n ==> 0 < countp[d]
  }

  function VaraSlices(startp: seq<nat>, countp: seq<nat>, stridep: seq<nat>, dims: seq<nat>, n: nat): (vs: seq<Slice>)
    requires n <= |dims| && EnoughArguments(|dims|, startp, countp, stridep)
    ensures |vs| == n
    ensures forall d {:trigger vs[d]} :: 0 <= d < n ==> vs[d] == VaraSlice(startp[d], countp[d], stridep[d], dims[d])
  {
    if n == 0 then []
    else VaraSlices(startp, countp, stridep, dims, n - 1)
         + [VaraSlice(startp[n - 1], countp[n - 1], stridep[n - 1], dims[n - 1])]
  }

  function Wholes(dims: seq<nat>): (us: seq<Slice>)
    ensures |us| == |dims| && forall d {:trigger us[d]} :: 0 <= d < |dims| ==> us[d] == MakeWhole(dims[d])
  {
    if dims == [] then [] else [MakeWhole(dims[0])] + Wholes(dims[1..])
  }

  /** The slices that are walked. */
  predicate AreWalked(rs: seq<Slice>, us: seq<Slice>, vs: seq<Slice>, matched: bool)
  {
    && |rs| == |us| == |vs|
    && forall d {:trigger IsWalkedAt(rs, us, vs, matched, d)} :: 0 <= d < |rs| ==> IsWalkedAt(rs, us, vs, matched, d)
  }

  predicate IsWalkedAt(rs: seq<Slice>, us: seq<Slice>, vs: seq<Slice>, matched: bool, d: nat)
    requires d < |rs| == |us| == |vs|
  {
    0 < us[d].stride && 0 < vs[d].stride && rs[d] == WalkSlice(us[d], vs[d], matched)
  }

  /** The data layer holds what the URL's slice reaches, and no more than there is. */
  predicate HoldsAt(us: seq<Slice>, dims: seq<nat>, helds: seq<nat>, d: nat)
    requires d < |us| == |dims| == |helds|
  {
    us[d].last < helds[d] <= dims[d]
  }

  predicate HoldEnough(us: seq<Slice>, dims: seq<nat>, helds: seq<nat>)
  {
    && |us| == |dims| == |helds|
    && forall d {:trigger HoldsAt(us, dims, helds, d)} :: 0 <= d < |dims| ==> HoldsAt(us, dims, helds, d)
  }

  /** A slice of a dimension that stays inside what is held of it. */
  predicate StaysInside(r: Slice, size: nat, held: nat)
  {
    && 0 < r.stride && IsWalkable(r) && r.declsize == size && r.first < held && r.last < held
    && (IsWhole(r) ==> held == size)
  }

  predicate AllStayInside(rs: seq<Slice>, dims: seq<nat>, helds: seq<nat>)
  {
    && |rs| == |dims| == |helds|
    && forall d {:trigger StaysInside(rs[d], dims[d], helds[d])} :: 0 <= d < |dims| ==>
         StaysInside(rs[d], dims[d], helds[d])
  }

  /** Whatever is asked for, the walk stays inside what is held. */
  lemma {:induction false} WalkFits(us: seq<Slice>, startp: seq<nat>, countp: seq<nat>, stridep: seq<nat>,
                                    dims: seq<nat>, matched: bool, rs: seq<Slice>, helds: seq<nat>)
    requires AllAsked(us, startp, countp, stridep, dims, matched) && HoldEnough(us, dims, helds)
    requires AreWalked(rs, us, VaraSlices(startp, countp, stridep, dims, |dims|), matched)
    ensures AllStayInside(rs, dims, helds)
  {
    forall d | 0 <= d < |dims|
      ensures StaysInside(rs[d], dims[d], helds[d])
    {
      assert IsAskedAt(us, startp, countp, stridep, dims, matched, d) && HoldsAt(us, dims, helds, d);
      assert IsWalkedAt(rs, us, VaraSlices(startp, countp, stridep, dims, |dims|), matched, d);
      WalkSliceFits(startp[d], countp[d], stridep[d], us[d], dims[d], matched);
    }
  }

  /** Declared with what is held, the slices can be walked. */
  lemma {:induction false} InsideIsReady(rs: seq<Slice>, dims: seq<nat>, helds: seq<nat>)
    requires AllStayInside(rs, dims, helds)
    ensures IsWalkReady(Redeclared(rs, helds), helds)
  {
    forall d | 0 <= d < |helds|
      ensures SliceFits(Redeclared(rs, helds)[d], helds[d])
    {
      assert StaysInside(rs[d], dims[d], helds[d]);
    }
  }

  /** The walked slices are declared with the sizes of the dimensions. */
  lemma {:induction false} WalkDeclared(us: seq<Slice>, startp: seq<nat>, countp: seq<nat>, stridep: seq<nat>,
                                        dims: seq<nat>, matched: bool, rs: seq<Slice>)
    requires AllAsked(us, startp, countp, stridep, dims, matched)
    requires AreWalked(rs, us, VaraSlices(startp, countp, stridep, dims, |dims|), matched)
    ensures |rs| == |dims| && Redeclared(rs, dims) == rs
  {
    forall d | 0 <= d < |dims|
      ensures rs[d].declsize == dims[d]
    {
      assert IsAskedAt(us, startp, countp, stridep, dims, matched, d);
      assert IsWalkedAt(rs, us, VaraSlices(startp, countp, stridep, dims, |dims|), matched, d);
      WalkSliceFits(startp[d], countp[d], stridep[d], us[d], dims[d], matched);
    }
  }

  /** Point k of one list is that of the other looked up in the selections. */
  predicate IsLookedUp(outer: seq<seq<nat>>, points: seq<seq<nat>>, found: seq<seq<nat>>, k: nat)
    requires k < |points| == |found|
  {
    InSelection(outer, points[k]) && found[k] == LookUp(outer, points[k])
  }

  /** The k-th element of memory is that of the k-th point, looked up in the selections. */
  ghost predicate HoldsLookedUp<T>(memory: seq<T>, outer: seq<seq<nat>>, points: seq<seq<nat>>, dims: seq<nat>,
                                   data: seq<T>, convert: T -> T)
  {
    && |memory| == |points|
    && forall k :: 0 <= k < |memory| ==>
         InSelection(outer, points[k]) && IsElement(memory[k], data, dims, LookUp(outer, points[k]), convert)
  }

  lemma {:induction false} HoldsEither<T>(memory: seq<T>, outer: seq<seq<nat>>, points: seq<seq<nat>>,
                                          found: seq<seq<nat>>, dims: seq<nat>, data: seq<T>, convert: T -> T)
    requires |points| == |found|
    requires forall k {:trigger IsLookedUp(outer, points, found, k)} :: 0 <= k < |points| ==>
               IsLookedUp(outer, points, found, k)
    ensures |memory| == |found| && Holds(memory, data, dims, found, convert)
       <==> HoldsLookedUp(memory, outer, points, dims, data, convert)
  {
    if |memory| == |points| {
      forall k | 0 <= k < |memory|
        ensures InSelection(outer, points[k]) && found[k] == LookUp(outer, points[k])
      {
        assert IsLookedUp(outer, points, found, k);
      }
    }
  }

  /** The k-th element of memory is that of the request's k-th point, looked up in what the URL selects. */
  ghost predicate HoldsRequest<T>(memory: seq<T>, us: seq<Slice>, vs: seq<Slice>, dims: seq<nat>, data: seq<T>,
                                  convert: T -> T)
    requires PositiveStrides(us) && PositiveStrides(vs)
  {
    HoldsLookedUp(memory, Selections(us), Points(WheelsOf(vs)), dims, data, convert)
  }

  /** A sane request is walked point for point, as many points as the product of its counts. */
  lemma {:induction false} WalkReads(us: seq<Slice>, startp: seq<nat>, countp: seq<nat>, stridep: seq<nat>,
                                     dims: seq<nat>, matched: bool, rs: seq<Slice>, k: nat)
    requires AllAsked(us, startp, countp, stridep, dims, matched) && AllSane(startp, countp, stridep, |dims|)
    requires AreWalked(rs, us, VaraSlices(startp, countp, stridep, dims, |dims|), matched)
    ensures var vs := VaraSlices(startp, countp, stridep, dims, |dims|);
            && PositiveStrides(us) && PositiveStrides(vs) && PositiveStrides(rs)
            && |Points(WheelsOf(rs))| == |Points(WheelsOf(vs))|
            && (k < |Points(WheelsOf(vs))| ==>
                  && InSelection(Selections(us), Points(WheelsOf(vs))[k])
                  && Points(WheelsOf(rs))[k] == LookUp(Selections(us), Points(WheelsOf(vs))[k]))
    ensures forall d :: 0 <= d < |dims| ==> (rs[d].last < rs[d].first <==> countp[d] == 0)
  {
    var vs := VaraSlices(startp, countp, stridep, dims, |dims|);
    forall d | 0 <= d < |dims|
      ensures 0 < us[d].stride && 0 < vs[d].stride && 0 < rs[d].stride
      ensures ReadsThrough(Indices(us[d]), WheelOf(vs[d]), WheelOf(rs[d]))
      ensures rs[d].last < rs[d].first <==> countp[d] == 0
    {
      assert IsAskedAt(us, startp, countp, stridep, dims, matched, d);
      assert IsWalkedAt(rs, us, vs, matched, d);
      WalkSliceReads(startp[d], countp[d], stridep[d], us[d], dims[d], matched);
    }
    PointsReadThrough(Selections(us), WheelsOf(vs), WheelsOf(rs), k);
  }

  /** The request's box: its size, and what lies in it. */
  lemma {:induction false} RequestBox(startp: seq<nat>, countp: seq<nat>, stridep: seq<nat>, csizes: seq<nat>,
                                      dims: seq<nat>)
    requires |csizes| == |dims| && EnoughArguments(|dims|, startp, countp, stridep)
    requires forall d :: 0 <= d < |dims| ==> IsRequest(startp[d], countp[d], stridep[d], csizes[d], dims[d])
    requires AllSane(startp, countp, stridep, |dims|)
    ensures var vs := VaraSlices(startp, countp, stridep, dims, |dims|);
            PositiveStrides(vs) && |Points(WheelsOf(vs))| == Product(countp[..|dims|])
  {
    var vs := VaraSlices(startp, countp, stridep, dims, |dims|);
    forall d | 0 <= d < |dims|
      ensures 0 < vs[d].stride && |Indices(vs[d])| == countp[d]
    {
      VaraDenotes(startp[d], countp[d], stridep[d], csizes[d], dims[d]);
    }
    PointsCount(WheelsOf(vs));
    CountsAre(WheelsOf(vs), countp[..|dims|]);
  }

  lemma {:induction false} CountsAre(dims: seq<Dim>, counts: seq<nat>)
    requires |dims| == |counts| && forall d :: 0 <= d < |dims| ==> |Digits(dims[d])| == counts[d]
    ensures Counts(dims) == counts
  {
    if dims != [] {
      CountsAre(dims[1..], counts[1..]);
      assert counts == [counts[0]] + counts[1..];
    }
  }

  /** Holding what the walked slices select is holding what was requested, whatever sizes the slices are declared
      with. */
  lemma {:induction false} SelectionIsRequest<T>(us: seq<Slice>, startp: seq<nat>, countp: seq<nat>, stridep: seq<nat>,
                                                 dims: seq<nat>, matched: bool, rs: seq<Slice>, helds: seq<nat>,
                                                 memory: seq<T>, data: seq<T>, convert: T -> T)
    requires AllAsked(us, startp, countp, stridep, dims, matched) && AllSane(startp, countp, stridep, |dims|)
    requires AreWalked(rs, us, VaraSlices(startp, countp, stridep, dims, |dims|), matched) && |helds| == |dims|
    ensures PositiveStrides(us) && PositiveStrides(VaraSlices(startp, countp, stridep, dims, |dims|))
    ensures PositiveStrides(rs) && PositiveStrides(Redeclared(rs, helds))
    ensures HoldsSelection(memory, Redeclared(rs, helds), data, convert)
       <==> HoldsRequest(memory, us, VaraSlices(startp, countp, stridep, dims, |dims|), helds, data, convert)
  {
    WalkReads(us, startp, countp, stridep, dims, matched, rs, 0);
    RedeclaredWheels(rs, helds);
    DeclaredPoints(WheelsOf(rs), helds);
    var points := Points(WheelsOf(VaraSlices(startp, countp, stridep, dims, |dims|)));
    forall k | 0 <= k < |points|
      ensures IsLookedUp(Selections(us), points, Points(WheelsOf(rs)), k)
    {
      WalkReads(us, startp, countp, stridep, dims, matched, rs, k);
    }
    HoldsEither(memory, Selections(us), points, Points(WheelsOf(rs)), helds, data, convert);
  }

  /** When only a part is fetched, the server's answer for the restricted projection holds the requested elements, and
      walking it with the shifted request meets them in order. */
  lemma {:induction false} FetchedPart<T>(us: seq<Slice>, startp: seq<nat>, countp: seq<nat>, stridep: seq<nat>,
                                          dims: seq<nat>, matched: bool, rs: seq<Slice>, answer: seq<T>, full: seq<T>,
                                          k: nat)
    requires AllAsked(us, startp, countp, stridep, dims, matched) && AllSane(startp, countp, stridep, |dims|)
    requires forall d :: 0 <= d < |dims| ==> 0 < countp[d]
    requires AreWalked(rs, us, VaraSlices(startp, countp, stridep, dims, |dims|), matched)
    requires PositiveStrides(rs) && HoldsSelection(answer, rs, full, Identity)
    ensures var vs := VaraSlices(startp, countp, stridep, dims, |dims|);
            && PositiveStrides(us) && PositiveStrides(vs) && PositiveStrides(ShiftSlices(vs))
            && HoldsRequest(answer, us, vs, dims, full, Identity)
            && |Points(WheelsOf(ShiftSlices(vs)))| == |answer|
            && (k < |answer| ==>
                  var p := Points(WheelsOf(ShiftSlices(vs)))[k];
                  |p| == |dims| && Offset(DeclSizes(DenseWheels(vs)), p) == k)
  {
    var vs := VaraSlices(startp, countp, stridep, dims, |dims|);
    WalkDeclared(us, startp, countp, stridep, dims, matched, rs);
    SelectionIsRequest(us, startp, countp, stridep, dims, matched, rs, dims, answer, full, Identity);
    VaraSlicesMeetHeader(us, startp, countp, stridep, dims, matched);
    ShiftedWalkIsInOrder(vs, k);
  }

  lemma {:induction false} VaraSlicesMeetHeader(us: seq<Slice>, startp: seq<nat>, countp: seq<nat>, stridep: seq<nat>,
                                                dims: seq<nat>, matched: bool)
    requires AllAsked(us, startp, countp, stridep, dims, matched) && AllSane(startp, countp, stridep, |dims|)
    requires forall d :: 0 <= d < |dims| ==> 0 < countp[d]
    ensures AllMeetHeader(VaraSlices(startp, countp, stridep, dims, |dims|))
  {
    forall d | 0 <= d < |dims|
      ensures MeetsHeader(VaraSlice(startp[d], countp[d], stridep[d], dims[d]))
    {
      assert IsAskedAt(us, startp, countp, stridep, dims, matched, d);
      VaraDenotes(startp[d], countp[d], stridep[d], |Indices(us[d])|, dims[d]);
    }
  }

  // ----- The slices of a request for a variable inside others

  /** The segments' ranks are those of the nodes. */
  predicate HaveRanks(path: seq<PathNode>, views: seq<SegmentView>)
  {
    |views| == |path| && forall k {:trigger HasRank(path[k], views[k])} :: 0 <= k < |path| ==>
      HasRank(path[k], views[k])
  }

  predicate HasRank(n: PathNode, v: SegmentView)
  {
    v.rank == |n.dims| <= |v.slices| == NC_MAX_VAR_DIMS
  }

  function LayerOf(n: PathNode, v: SegmentView): (layer: seq<Slice>)
    ensures HasRank(n, v) ==> layer == v.slices[..|n.dims|]
  {
    if HasRank(n, v) then v.slices[..|n.dims|] else []
  }

  /** The slices in use of each segment. */
  function LayersOf(path: seq<PathNode>, views: seq<SegmentView>): (layers: Layers)
    requires HaveRanks(path, views)
    ensures HaveSizes(layers, path)
    ensures forall k {:trigger layers[k]} :: 0 <= k < |path| ==> layers[k] == LayerOf(path[k], views[k])
  {
    var layers := seq(|path|, k requires 0 <= k < |path| => LayerOf(path[k], views[k]));
    assert forall k :: 0 <= k < |path| ==> HasRank(path[k], views[k]);
    layers
  }

  /** Each layer has a slice for each dimension of its node. */
  predicate HaveSizes(layers: Layers, path: seq<PathNode>)
  {
    |layers| == |path| && forall k {:trigger layers[k]} :: 0 <= k < |path| ==> |layers[k]| == |path[k].dims|
  }

  /** The slice and the dimension at place j of node i. */
  lemma {:induction false} PlaceOf(layers: Layers, path: seq<PathNode>, n: nat, i: nat, j: nat)
    requires HaveSizes(layers, path) && i < n <= |path| && j < |path[i].dims|
    ensures |SlicesUpTo(layers, n)| == RankBefore(path, n) && RankBefore(path, i) + j < RankBefore(path, n)
    ensures SlicesUpTo(layers, n)[RankBefore(path, i) + j] == layers[i][j]
    ensures DimsUpTo(path, n)[RankBefore(path, i) + j] == path[i].dims[j]
  {
    SlicesLength(layers, path, n - 1);
    var d := RankBefore(path, i) + j;
    var before, dims := SlicesUpTo(layers, n - 1), DimsUpTo(path, n - 1);
    if i < n - 1 {
      PlaceOf(layers, path, n - 1, i, j);
      assert (before + layers[n - 1])[d] == before[d] && (dims + path[n - 1].dims)[d] == dims[d];
    } else {
      assert (before + layers[i])[d] == layers[i][j] && (dims + path[i].dims)[d] == path[i].dims[j];
    }
  }

  lemma {:induction false} SlicesLength(layers: Layers, path: seq<PathNode>, n: nat)
    requires HaveSizes(layers, path) && n <= |path|
    ensures |SlicesUpTo(layers, n)| == RankBefore(path, n)
  {
    if n > 0 {
      SlicesLength(layers, path, n - 1);
    }
  }

  /** The node that a dimension belongs to. */
  lemma {:induction false} NodeOf(path: seq<PathNode>, n: nat, d: nat) returns (i: nat, j: nat)
    requires n <= |path| && d < RankBefore(path, n)
    ensures i < n && j < |path[i].dims| && d == RankBefore(path, i) + j
  {
    if d < RankBefore(path, n - 1) {
      i, j := NodeOf(path, n - 1, d);
    } else {
      i, j := n - 1, d - RankBefore(path, n - 1);
    }
  }

  /** Segment k is that of the request for node k. */
  predicate IsVaraAt(path: seq<PathNode>, views: seq<SegmentView>, startp: seq<nat>, countp: seq<nat>,
                     stridep: seq<nat>, k: nat)
    requires k < |path| == |views|
  {
    IsVaraView(views[k], path[k], RankBefore(path, k), startp, countp, stridep)
  }

  predicate AreVaraViews(path: seq<PathNode>, views: seq<SegmentView>, startp: seq<nat>, countp: seq<nat>,
                         stridep: seq<nat>)
  {
    && |views| == |path|
    && forall k {:trigger IsVaraAt(path, views, startp, countp, stridep, k)} :: 0 <= k < |path| ==>
         IsVaraAt(path, views, startp, countp, stridep, k)
  }

  lemma {:induction false} RanksOfRequest(path: seq<PathNode>, views: seq<SegmentView>, startp: seq<nat>,
                                          countp: seq<nat>, stridep: seq<nat>)
    requires AreVaraViews(path, views, startp, countp, stridep)
    ensures HaveRanks(path, views)
  {
    forall k | 0 <= k < |path|
      ensures HasRank(path[k], views[k])
    {
      assert IsVaraAt(path, views, startp, countp, stridep, k);
    }
  }

  lemma {:induction false} VaraPlace(path: seq<PathNode>, views: seq<SegmentView>, startp: seq<nat>, countp: seq<nat>,
                                     stridep: seq<nat>, i: nat, j: nat)
    requires AreVaraViews(path, views, startp, countp, stridep) && i < |path| && j < |path[i].dims|
    ensures var d := RankBefore(path, i) + j;
            && EnoughArguments(d + 1, startp, countp, stridep) && j < |views[i].slices|
            && views[i].slices[j] == VaraSlice(startp[d], countp[d], stridep[d], path[i].dims[j])
  {
    assert IsVaraAt(path, views, startp, countp, stridep, i);
  }

  /** The slices of all segments of the request's projection, one after the other, are those of its arguments: the box
      that they denote is the one that was asked for. */
  lemma {:induction false} SlicesOfRequest(path: seq<PathNode>, views: seq<SegmentView>, startp: seq<nat>,
                                           countp: seq<nat>, stridep: seq<nat>)
    requires EnoughArguments(RankBefore(path, |path|), startp, countp, stridep)
    requires AreVaraViews(path, views, startp, countp, stridep)
    ensures HaveRanks(path, views)
    ensures AllSlices(LayersOf(path, views)) == VaraSlices(startp, countp, stridep, AllDims(path), |AllDims(path)|)
  {
    RanksOfRequest(path, views, startp, countp, stridep);
    var layers, dims := LayersOf(path, views), AllDims(path);
    SlicesLength(layers, path, |path|);
    forall d | 0 <= d < |dims|
      ensures AllSlices(layers)[d] == VaraSlice(startp[d], countp[d], stridep[d], dims[d])
    {
      var i, j := NodeOf(path, |path|, d);
      PlaceOf(layers, path, |path|, i, j);
      VaraPlace(path, views, startp, countp, stridep, i, j);
    }
  }

  // ----- Back to the layers

  lemma {:induction false} LayersFromAll(layers: Layers, path: seq<PathNode>)
    requires HaveSizes(layers, path) && IsWalkReady(AllSlices(layers), AllDims(path))
    ensures LayersReady(layers, path)
  {
    forall k | 0 <= k < |path|
      ensures IsWalkReady(layers[k], path[k].dims)
    {
      forall j | 0 <= j < |path[k].dims|
        ensures SliceFits(layers[k][j], path[k].dims[j])
      {
        PlaceOf(layers, path, |path|, k, j);
        var d := RankBefore(path, k) + j;
        assert SliceFits(AllSlices(layers)[d], AllDims(path)[d]);
      }
    }
  }

  /** Nothing is asked for along the first dimension of some node, or something along all dimensions. */
  predicate IsWalkedRight(countp: seq<nat>, path: seq<PathNode>)
    requires RankBefore(path, |path|) <= |countp|
  {
    || (exists k :: 0 <= k < |path| && AsksNothingAt(countp, path, k))
    || forall d :: 0 <= d < RankBefore(path, |path|) ==> 0 < countp[d]
  }

  predicate AsksNothingAt(countp: seq<nat>, path: seq<PathNode>, k: nat)
    requires k < |path|
  {
    path[k].dims != [] && RankBefore(path, k) < |countp| && countp[RankBefore(path, k)] == 0
  }

  /** The slices are empty where nothing is asked for. */
  predicate AreEmptyWhere(rs: seq<Slice>, countp: seq<nat>)
  {
    |rs| <= |countp| && forall d :: 0 <= d < |rs| ==> (rs[d].last < rs[d].first <==> countp[d] == 0)
  }

  lemma {:induction false} BeginsRight(layers: Layers, path: seq<PathNode>, countp: seq<nat>)
    requires HaveSizes(layers, path) && AreEmptyWhere(AllSlices(layers), countp)
    ensures AllBeginFull(layers) <==> forall k :: 0 <= k < |path| ==> !AsksNothingAt(countp, path, k)
  {
    forall k | 0 <= k < |path|
      ensures BeginsFull(layers[k]) <==> !AsksNothingAt(countp, path, k)
    {
      if path[k].dims != [] {
        PlaceOf(layers, path, |path|, k, 0);
      }
    }
  }

  lemma {:induction false} FullAt(layers: Layers, path: seq<PathNode>, countp: seq<nat>, k: nat)
    requires HaveSizes(layers, path) && AreEmptyWhere(AllSlices(layers), countp) && k < |path|
    requires RankBefore(path, |path|) <= |countp| && forall d :: 0 <= d < RankBefore(path, |path|) ==> 0 < countp[d]
    ensures IsFull(layers[k])
  {
    forall j | 0 <= j < |layers[k]|
      ensures layers[k][j].first <= layers[k][j].last
    {
      PlaceOf(layers, path, |path|, k, j);
    }
  }

  lemma {:induction false} FullRight(layers: Layers, path: seq<PathNode>, countp: seq<nat>)
    requires HaveSizes(layers, path) && AreEmptyWhere(AllSlices(layers), countp)
    ensures RankBefore(path, |path|) <= |countp|
    ensures AreFull(layers) <==> forall d :: 0 <= d < RankBefore(path, |path|) ==> 0 < countp[d]
  {
    SlicesLength(layers, path, |path|);
    if AreFull(layers) {
      forall d | 0 <= d < RankBefore(path, |path|)
        ensures 0 < countp[d]
      {
        var i, j := NodeOf(path, |path|, d);
        PlaceOf(layers, path, |path|, i, j);
        assert IsFull(layers[i]);
      }
    }
    if forall d :: 0 <= d < RankBefore(path, |path|) ==> 0 < countp[d] {
      forall k | 0 <= k < |path|
        ensures IsFull(layers[k])
      {
        FullAt(layers, path, countp, k);
      }
    }
  }

  lemma {:induction false} ExactIsRight(layers: Layers, path: seq<PathNode>, countp: seq<nat>)
    requires HaveSizes(layers, path) && AreEmptyWhere(AllSlices(layers), countp)
    ensures RankBefore(path, |path|) <= |countp|
    ensures IsNestedExact(layers) <==> IsWalkedRight(countp, path)
  {
    BeginsRight(layers, path, countp);
    FullRight(layers, path, countp);
  }

  // ----- The request

  /** The segments of a projection, if it is one for the variable. */
  ghost predicate IsUrlView(p: DCEprojection?, annotation: Option<CDFnode>, view: Option<seq<SegmentView>>)
    reads if p == null then {} else {p.variable}, if p == null then [] else p.variable.segments
  {
    if p != null && p.discrim == CES_VAR && p.variable.annotation == annotation
    then p.Valid() && view == Some(p.View()) else view == None
  }

  /** For each projection of the URL, its segments if it is one for the variable. */
  ghost predicate AreUrlViews(projections: seq<DCEprojection?>, annotation: Option<CDFnode>,
                              views: seq<Option<seq<SegmentView>>>)
    reads set i | 0 <= i < |projections| && projections[i] != null :: projections[i].variable
    reads set i, j | 0 <= i < |projections| && projections[i] != null && 0 <= j < |projections[i].variable.segments| ::
            projections[i].variable.segments[j]
  {
    && |views| == |projections|
    && forall i {:trigger IsUrlView(projections[i], annotation, views[i])} :: 0 <= i < |projections| ==>
         IsUrlView(projections[i], annotation, views[i])
  }

  /** The segments of the first projection for the variable. */
  function FirstView(views: seq<Option<seq<SegmentView>>>): Option<seq<SegmentView>>
  {
    if views == [] then None else if views[0].Some? then views[0] else FirstView(views[1..])
  }

  lemma {:induction false} FirstViewAt(views: seq<Option<seq<SegmentView>>>, i: nat)
    requires i <= |views| && forall k :: 0 <= k < i ==> views[k].None?
    ensures FirstView(views)
         == if i == |views| then None else if views[i].Some? then views[i] else FirstView(views[i..])
  {
    if i == 0 {
      assert views[0..] == views;
    } else {
      FirstViewAt(views[1..], i - 1);
      assert views[1..][i - 1..] == views[i..];
    }
  }

  lemma {:induction false} FirstViewAmong(views: seq<Option<seq<SegmentView>>>)
    ensures FirstView(views).Some? ==> FirstView(views) in views
    ensures FirstView(views).None? <==> forall v <- views :: v.None?
  {
    if views != [] && views[0].None? {
      FirstViewAmong(views[1..]);
      assert views == [views[0]] + views[1..];
    }
  }

  /** The segments, along the same path, ask with the request for something inside what they select. */
  predicate IsUsable(view: seq<SegmentView>, path: seq<PathNode>, startp: seq<nat>, countp: seq<nat>, stridep: seq<nat>)
  {
    && HaveRanks(path, view)
    && AllAsked(AllSlices(LayersOf(path, view)), startp, countp, stridep, AllDims(path), true)
  }

  /** Whichever projection the URL has for the variable can be used, and if it has none all of the variable can. */
  predicate AllUsable(views: seq<Option<seq<SegmentView>>>, path: seq<PathNode>, startp: seq<nat>, countp: seq<nat>,
                      stridep: seq<nat>)
  {
    && (forall i {:trigger views[i]} :: 0 <= i < |views| && views[i].Some? ==>
          IsUsable(views[i].value, path, startp, countp, stridep))
    && ((forall v <- views :: v.None?) ==>
          AllAsked(Wholes(AllDims(path)), startp, countp, stridep, AllDims(path), false))
  }

  /** The slices that the URL has for a variable; all of it when it has none. */
  function UrlSlices(url: Option<seq<SegmentView>>, path: seq<PathNode>): seq<Slice>
    requires url.Some? ==> HaveRanks(path, url.value)
  {
    match url
    case None => Wholes(AllDims(path))
    case Some(view) => AllSlices(LayersOf(path, view))
  }

  /** The projection of the request. */
  method BuildVara(path: seq<PathNode>, annotation: Option<CDFnode>, startp: seq<nat>, countp: seq<nat>,
                   stridep: seq<nat>)
    returns (vara: DCEprojection)
    requires WellFormedPath(path) && EnoughArguments(RankBefore(path, |path|), startp, countp, stridep)
    ensures fresh(vara) && fresh(vara.variable) && fresh(vara.variable.segments)
    ensures vara.Valid() && vara.discrim == CES_VAR && vara.variable.annotation == annotation
    ensures AreVaraViews(path, vara.View(), startp, countp, stridep)
  {
    vara := BuildVaraProjection(path, annotation, startp, countp, stridep);
    forall k | 0 <= k < |path|
      ensures IsVaraAt(path, vara.View(), startp, countp, stridep, k)
    {
      assert IsVaraView(vara.View()[k], path[k], RankBefore(path, k), startp, countp, stridep);
    }
  }

  /** The views of a walk: the URL's restricted by the request's, or the request's. */
  predicate IsWalkView(walk: seq<SegmentView>, url: Option<seq<SegmentView>>, vara: seq<SegmentView>)
  {
    match url
    case None => walk == vara
    case Some(us) => AllMergeable(us, vara) && walk == MergeViews(us, vara)
  }

  lemma {:induction false} StrideAt(us: seq<Slice>, startp: seq<nat>, countp: seq<nat>, stridep: seq<nat>,
                                    dims: seq<nat>, matched: bool, d: nat)
    requires AllAsked(us, startp, countp, stridep, dims, matched) && d < |dims|
    ensures 0 < us[d].stride && 0 < VaraSlice(startp[d], countp[d], stridep[d], dims[d]).stride
  {
    assert IsAskedAt(us, startp, countp, stridep, dims, matched, d);
  }

  /** The request's segments can be merged into the URL's. */
  lemma {:induction false} UrlIsMergeable(path: seq<PathNode>, us: seq<SegmentView>, vara: seq<SegmentView>,
                                          startp: seq<nat>, countp: seq<nat>, stridep: seq<nat>)
    requires HaveRanks(path, us) && AreVaraViews(path, vara, startp, countp, stridep)
    requires AllAsked(AllSlices(LayersOf(path, us)), startp, countp, stridep, AllDims(path), true)
    ensures AllMergeable(us, vara)
  {
    RanksOfRequest(path, vara, startp, countp, stridep);
    forall k | 0 <= k < |path|
      ensures Mergeable(us[k], vara[k])
    {
      assert HasRank(path[k], us[k]) && HasRank(path[k], vara[k]);
      forall j | 0 <= j < |path[k].dims|
        ensures 0 < us[k].slices[j].stride && 0 < vara[k].slices[j].stride
      {
        PlaceOf(LayersOf(path, us), path, |path|, k, j);
        VaraPlace(path, vara, startp, countp, stridep, k, j);
        StrideAt(AllSlices(LayersOf(path, us)), startp, countp, stridep, AllDims(path), true, RankBefore(path, k) + j);
      }
    }
  }

  lemma {:induction false} MergedRanks(path: seq<PathNode>, us: seq<SegmentView>, vara: seq<SegmentView>)
    requires HaveRanks(path, us) && HaveRanks(path, vara) && AllMergeable(us, vara)
    ensures HaveRanks(path, MergeViews(us, vara))
  {
    forall k | 0 <= k < |path|
      ensures HasRank(path[k], MergeViews(us, vara)[k])
    {
      assert HasRank(path[k], us[k]) && HasRank(path[k], vara[k]);
      assert MergeViews(us, vara)[k] == MergeView(us[k], vara[k]);
    }
  }

  /** Slice j of one segment is that of the first two merged. */
  predicate SegmentMergesAt(u: SegmentView, v: SegmentView, merged: SegmentView, j: nat)
  {
    && j < |u.slices| && j < |v.slices| && j < |merged.slices| && 0 < u.slices[j].stride && 0 < v.slices[j].stride
    && merged.slices[j] == MergeSlice(u.slices[j], v.slices[j])
  }

  lemma {:induction false} MergedPlace(path: seq<PathNode>, us: seq<SegmentView>, vara: seq<SegmentView>, i: nat,
                                       j: nat)
    requires HaveRanks(path, us) && HaveRanks(path, vara) && AllMergeable(us, vara) && i < |path| && j < |path[i].dims|
    ensures HaveRanks(path, MergeViews(us, vara)) && SegmentMergesAt(us[i], vara[i], MergeViews(us, vara)[i], j)
  {
    MergedRanks(path, us, vara);
    assert HasRank(path[i], us[i]) && HasRank(path[i], vara[i]) && Mergeable(us[i], vara[i]);
    assert MergeViews(us, vara)[i] == MergeView(us[i], vara[i]);
    assert MergeView(us[i], vara[i]).slices[j] == MergedSlice(us[i], vara[i], j);
  }

  /** The slice at place j of segment i. */
  lemma {:induction false} ViewPlace(path: seq<PathNode>, views: seq<SegmentView>, i: nat, j: nat)
    requires HaveRanks(path, views) && i < |path| && j < |path[i].dims|
    ensures |AllSlices(LayersOf(path, views))| == RankBefore(path, |path|)
    ensures RankBefore(path, i) + j < RankBefore(path, |path|) && HasRank(path[i], views[i])
    ensures AllSlices(LayersOf(path, views))[RankBefore(path, i) + j] == views[i].slices[j]
  {
    var layers := LayersOf(path, views);
    SlicesLength(layers, path, |path|);
    PlaceOf(layers, path, |path|, i, j);
    assert layers[i] == LayerOf(path[i], views[i]) && HasRank(path[i], views[i]);
  }

  /** Slice d of one list is that of the first two merged. */
  predicate MergesAt(outer: seq<Slice>, inner: seq<Slice>, merged: seq<Slice>, d: nat)
  {
    && d < |outer| == |inner| == |merged| && 0 < outer[d].stride && 0 < inner[d].stride
    && merged[d] == MergeSlice(outer[d], inner[d])
  }

  lemma {:induction false} MergesAtPlace(path: seq<PathNode>, us: seq<SegmentView>, vara: seq<SegmentView>,
                                         merged: seq<SegmentView>, i: nat, j: nat)
    requires HaveRanks(path, us) && HaveRanks(path, vara) && HaveRanks(path, merged) && i < |path| && j < |path[i].dims|
    requires SegmentMergesAt(us[i], vara[i], merged[i], j)
    ensures MergesAt(AllSlices(LayersOf(path, us)), AllSlices(LayersOf(path, vara)), AllSlices(LayersOf(path, merged)),
                     RankBefore(path, i) + j)
  {
    ViewPlace(path, us, i, j);
    ViewPlace(path, vara, i, j);
    ViewPlace(path, merged, i, j);
  }

  lemma {:induction false} MergedSliceAt(path: seq<PathNode>, us: seq<SegmentView>, vara: seq<SegmentView>, d: nat)
    requires HaveRanks(path, us) && HaveRanks(path, vara) && AllMergeable(us, vara) && d < RankBefore(path, |path|)
    ensures HaveRanks(path, MergeViews(us, vara))
    ensures MergesAt(AllSlices(LayersOf(path, us)), AllSlices(LayersOf(path, vara)),
                     AllSlices(LayersOf(path, MergeViews(us, vara))), d)
  {
    var i, j := NodeOf(path, |path|, d);
    MergedPlace(path, us, vara, i, j);
    MergesAtPlace(path, us, vara, MergeViews(us, vara), i, j);
  }

  /** The slices of a walk, one after the other, are those of the URL restricted by those of the request. */
  lemma {:induction false} WalkIsWalked(path: seq<PathNode>, walk: seq<SegmentView>, url: Option<seq<SegmentView>>,
                                        vara: seq<SegmentView>, us: seq<Slice>, startp: seq<nat>, countp: seq<nat>,
                                        stridep: seq<nat>)
    requires AreVaraViews(path, vara, startp, countp, stridep) && IsWalkView(walk, url, vara)
    requires url.Some? ==> HaveRanks(path, url.value)
    requires us == UrlSlices(url, path)
    requires AllAsked(us, startp, countp, stridep, AllDims(path), url.Some?)
    ensures HaveRanks(path, walk)
    ensures AreWalked(AllSlices(LayersOf(path, walk)), us,
                      VaraSlices(startp, countp, stridep, AllDims(path), |AllDims(path)|), url.Some?)
  {
    SlicesOfRequest(path, vara, startp, countp, stridep);
    if url.Some? {
      MergedRanks(path, url.value, vara);
    }
    SlicesLength(LayersOf(path, walk), path, |path|);
    var rs, vs := AllSlices(LayersOf(path, walk)), AllSlices(LayersOf(path, vara));
    forall d | 0 <= d < |rs|
      ensures IsWalkedAt(rs, us, vs, url.Some?, d)
    {
      StrideAt(us, startp, countp, stridep, AllDims(path), url.Some?, d);
      if url.Some? {
        MergedSliceAt(path, url.value, vara, d);
      }
    }
  }

  lemma {:induction false} FirstIsUsable(views: seq<Option<seq<SegmentView>>>, path: seq<PathNode>, startp: seq<nat>,
                                         countp: seq<nat>, stridep: seq<nat>)
    requires AllUsable(views, path, startp, countp, stridep)
    ensures var url := FirstView(views);
            && (url.Some? ==> HaveRanks(path, url.value))
            && AllAsked(UrlSlices(url, path), startp, countp, stridep, AllDims(path), url.Some?)
  {
    FirstViewAmong(views);
    if FirstView(views).Some? {
      assert IsUsable(FirstView(views).value, path, startp, countp, stridep);
    }
  }

  lemma {:induction false} UsableAreMergeable(views: seq<Option<seq<SegmentView>>>, path: seq<PathNode>,
                                              startp: seq<nat>, countp: seq<nat>, stridep: seq<nat>,
                                              vara: seq<SegmentView>)
    requires AllUsable(views, path, startp, countp, stridep) && AreVaraViews(path, vara, startp, countp, stridep)
    ensures AllMergeWith(views, vara)
  {
    forall i | 0 <= i < |views| && views[i].Some?
      ensures AllMergeable(views[i].value, vara)
    {
      assert IsUsable(views[i].value, path, startp, countp, stridep);
      UrlIsMergeable(path, views[i].value, vara, startp, countp, stridep);
    }
  }

  predicate AllMergeWith(views: seq<Option<seq<SegmentView>>>, vara: seq<SegmentView>)
  {
    forall i {:trigger views[i]} :: 0 <= i < |views| && views[i].Some? ==> AllMergeable(views[i].value, vara)
  }

  /** Restrict the URL's projections by the request's. */
  method BuildWalk(projections: seq<DCEprojection?>, vara: DCEprojection, ghost views: seq<Option<seq<SegmentView>>>)
    returns (walk: DCEprojection)
    requires vara.Valid() && vara.discrim == CES_VAR && AreUrlViews(projections, vara.variable.annotation, views)
    requires AllMergeWith(views, vara.View())
    ensures walk.Valid() && IsWalkView(walk.View(), FirstView(views), vara.View())
    ensures walk.discrim == CES_VAR && walk.variable.annotation == vara.variable.annotation
  {
    forall p | p in projections && p != null && p.discrim == CES_VAR
               && p.variable.annotation == vara.variable.annotation
      ensures p.Valid() && AllMergeable(p.View(), vara.View())
    {
      var i :| 0 <= i < |projections| && projections[i] == p;
      assert IsUrlView(projections[i], vara.variable.annotation, views[i]);
    }
    var err;
    ghost var chosen;
    err, walk, chosen := RestrictProjection(projections, vara);
    var first := if chosen < 0 then |views| else chosen;
    forall k | 0 <= k < |views| && k <= first
      ensures IsUrlView(projections[k], vara.variable.annotation, views[k])
    {
    }
    FirstViewAt(views, first);
  }

  // ----- What the data layer holds

  /** The same path, with the sizes that the data layer holds of the dimensions. */
  predicate SameRanks(path: seq<PathNode>, held: seq<PathNode>)
  {
    |path| == |held| && forall k {:trigger held[k]} :: 0 <= k < |path| ==> |path[k].dims| == |held[k].dims|
  }

  lemma {:induction false} SameRanksBefore(path: seq<PathNode>, held: seq<PathNode>, n: nat)
    requires SameRanks(path, held) && n <= |path|
    ensures RankBefore(path, n) == RankBefore(held, n)
  {
    if n > 0 {
      SameRanksBefore(path, held, n - 1);
    }
  }

  /** The layers, declared with what is held. */
  function HeldLayers(layers: Layers, held: seq<PathNode>): (r: Layers)
    requires HaveSizes(layers, held)
    ensures HaveSizes(r, held)
    ensures forall k {:trigger r[k]} :: 0 <= k < |held| ==> r[k] == Redeclared(layers[k], held[k].dims)
  {
    seq(|held|, k requires 0 <= k < |held| => Redeclared(layers[k], held[k].dims))
  }

  lemma {:induction false} HeldSlices(layers: Layers, held: seq<PathNode>, n: nat)
    requires HaveSizes(layers, held) && n <= |held|
    ensures |SlicesUpTo(layers, n)| == |DimsUpTo(held, n)|
    ensures SlicesUpTo(HeldLayers(layers, held), n) == Redeclared(SlicesUpTo(layers, n), DimsUpTo(held, n))
  {
    SlicesLength(layers, held, n);
    if n > 0 {
      HeldSlices(layers, held, n - 1);
      RedeclaredConcat(SlicesUpTo(layers, n - 1), layers[n - 1], DimsUpTo(held, n - 1), held[n - 1].dims);
    }
  }

  lemma {:induction false} RedeclaredConcat(a: seq<Slice>, b: seq<Slice>, xs: seq<nat>, ys: seq<nat>)
    requires |a| == |xs| && |b| == |ys|
    ensures Redeclared(a + b, xs + ys) == Redeclared(a, xs) + Redeclared(b, ys)
  {
  }

  /** The slices of node k, and the same slices with what is held. */
  lemma {:induction false} LayerIsHeld(layers: Layers, path: seq<PathNode>, held: seq<PathNode>, k: nat)
    requires HaveSizes(layers, held) && SameRanks(path, held) && k < |held|
    requires AllStayInside(AllSlices(layers), AllDims(path), AllDims(held))
    ensures IsHeld(layers[k], HeldLayers(layers, held)[k], held[k].dims)
  {
    forall j | 0 <= j < |layers[k]|
      ensures IsWalkable(layers[k][j]) && (IsWhole(layers[k][j]) ==> layers[k][j].declsize == held[k].dims[j])
    {
      PlaceOf(layers, held, |held|, k, j);
      var d := RankBefore(held, k) + j;
      assert StaysInside(AllSlices(layers)[d], AllDims(path)[d], AllDims(held)[d]);
    }
    forall s | s in layers[k]
      ensures IsWalkable(s)
    {
      var j :| 0 <= j < |layers[k]| && layers[k][j] == s;
    }
  }

  // ----- Reading a request

  /** A sane request has been read iff nothing is asked for along some node's first dimension or something along all. */
  ghost predicate IsReadRight<T>(memory: seq<T>, us: seq<Slice>, startp: seq<nat>, countp: seq<nat>, stridep: seq<nat>,
                                 path: seq<PathNode>, helds: seq<nat>, data: seq<T>, convert: T -> T)
    requires EnoughArguments(|AllDims(path)|, startp, countp, stridep)
  {
    AllSane(startp, countp, stridep, |AllDims(path)|) ==>
      var vs := VaraSlices(startp, countp, stridep, AllDims(path), |AllDims(path)|);
      && PositiveStrides(us) && PositiveStrides(vs)
      && (HoldsRequest(memory, us, vs, helds, data, convert) <==> IsWalkedRight(countp, path))
  }

  /** Holding what was requested means that the nested walk was exact. */
  lemma {:induction false} RequestIsExact<T>(us: seq<Slice>, startp: seq<nat>, countp: seq<nat>, stridep: seq<nat>,
                                             dims: seq<nat>, matched: bool, layers: Layers, held: seq<PathNode>,
                                             memory: seq<T>, data: seq<T>, convert: T -> T)
    requires AllAsked(us, startp, countp, stridep, dims, matched) && AllSane(startp, countp, stridep, |dims|)
    requires HaveSizes(layers, held) && |AllDims(held)| == |dims|
    requires AreWalked(AllSlices(layers), us, VaraSlices(startp, countp, stridep, dims, |dims|), matched)
    requires LayersReady(HeldLayers(layers, held), held)
    requires HoldsNested(memory, HeldLayers(layers, held), held, data, convert)
    ensures PositiveStrides(us) && PositiveStrides(VaraSlices(startp, countp, stridep, dims, |dims|))
    ensures HoldsRequest(memory, us, VaraSlices(startp, countp, stridep, dims, |dims|), AllDims(held), data, convert)
       <==> IsNestedExact(HeldLayers(layers, held))
  {
    NestedIsSelection(HeldLayers(layers, held), held, memory, data, convert);
    HeldSlices(layers, held, |held|);
    SelectionIsRequest(us, startp, countp, stridep, dims, matched, AllSlices(layers), AllDims(held), memory, data,
                       convert);
  }

  lemma {:induction false} CountsAreEmpty(us: seq<Slice>, startp: seq<nat>, countp: seq<nat>, stridep: seq<nat>,
                                          dims: seq<nat>, matched: bool, rs: seq<Slice>, helds: seq<nat>)
    requires AllAsked(us, startp, countp, stridep, dims, matched) && AllSane(startp, countp, stridep, |dims|)
    requires AreWalked(rs, us, VaraSlices(startp, countp, stridep, dims, |dims|), matched) && |helds| == |dims|
    ensures AreEmptyWhere(Redeclared(rs, helds), countp)
  {
    WalkReads(us, startp, countp, stridep, dims, matched, rs, 0);
  }

  lemma {:induction false} SameRight(path: seq<PathNode>, held: seq<PathNode>, countp: seq<nat>)
    requires SameRanks(path, held) && RankBefore(path, |path|) <= |countp|
    ensures RankBefore(held, |held|) == RankBefore(path, |path|)
    ensures IsWalkedRight(countp, held) <==> IsWalkedRight(countp, path)
  {
    SameRanksBefore(path, held, |path|);
    forall k | 0 <= k < |path|
      ensures AsksNothingAt(countp, held, k) <==> AsksNothingAt(countp, path, k)
    {
      SameRanksBefore(path, held, k);
    }
  }

  lemma {:induction false} ReadIsRight<T>(us: seq<Slice>, startp: seq<nat>, countp: seq<nat>, stridep: seq<nat>,
                                          path: seq<PathNode>, matched: bool, layers: Layers, held: seq<PathNode>,
                                          memory: seq<T>, data: seq<T>, convert: T -> T)
    requires AllAsked(us, startp, countp, stridep, AllDims(path), matched) && SameRanks(path, held)
    requires HaveSizes(layers, held)
    requires AreWalked(AllSlices(layers), us, VaraSlices(startp, countp, stridep, AllDims(path), |AllDims(path)|),
                       matched)
    requires LayersReady(HeldLayers(layers, held), held)
    requires HoldsNested(memory, HeldLayers(layers, held), held, data, convert)
    ensures IsReadRight(memory, us, startp, countp, stridep, path, AllDims(held), data, convert)
  {
    SameRanksBefore(path, held, |path|);
    if AllSane(startp, countp, stridep, |AllDims(path)|) {
      RequestIsExact(us, startp, countp, stridep, AllDims(path), matched, layers, held, memory, data, convert);
      CountsAreEmpty(us, startp, countp, stridep, AllDims(path), matched, AllSlices(layers), AllDims(held));
      HeldSlices(layers, held, |held|);
      ExactIsRight(HeldLayers(layers, held), held, countp);
      SameRight(path, held, countp);
    }
  }

  lemma {:induction false} SameHaveSizes(layers: Layers, path: seq<PathNode>, held: seq<PathNode>)
    requires SameRanks(path, held) && HaveSizes(layers, path)
    ensures HaveSizes(layers, held)
  {
    forall k | 0 <= k < |held|
      ensures |layers[k]| == |held[k].dims|
    {
      assert |layers[k]| == |path[k].dims|;
    }
  }

  lemma {:induction false} WalkIsReady(us: seq<Slice>, startp: seq<nat>, countp: seq<nat>, stridep: seq<nat>,
                                       path: seq<PathNode>, matched: bool, layers: Layers, held: seq<PathNode>)
    requires AllAsked(us, startp, countp, stridep, AllDims(path), matched) && SameRanks(path, held)
    requires HaveSizes(layers, held) && HoldEnough(us, AllDims(path), AllDims(held))
    requires AreWalked(AllSlices(layers), us, VaraSlices(startp, countp, stridep, AllDims(path), |AllDims(path)|),
                       matched)
    ensures AllStayInside(AllSlices(layers), AllDims(path), AllDims(held))
    ensures LayersReady(HeldLayers(layers, held), held)
  {
    WalkFits(us, startp, countp, stridep, AllDims(path), matched, AllSlices(layers), AllDims(held));
    InsideIsReady(AllSlices(layers), AllDims(path), AllDims(held));
    HeldSlices(layers, held, |held|);
    LayersFromAll(HeldLayers(layers, held), held);
  }

  /** The segments of a walk that stays inside what is held. */
  lemma {:induction false} ViewsAreLayers(walk: DCEprojection, path: seq<PathNode>, held: seq<PathNode>)
    requires walk.Valid() && HaveRanks(path, walk.View()) && forall n <- path :: |n.dims| <= NC_MAX_VAR_DIMS
    requires SameRanks(path, held) && HaveSizes(LayersOf(path, walk.View()), held)
    requires AllStayInside(AllSlices(LayersOf(path, walk.View())), AllDims(path), AllDims(held))
    ensures AreLayers(walk.variable.segments, HeldLayers(LayersOf(path, walk.View()), held), held)
  {
    var layers := LayersOf(path, walk.View());
    forall k | 0 <= k < |held|
      ensures IsLayer(walk.variable.segments, HeldLayers(layers, held), held, k)
    {
      assert path[k] in path && walk.variable.segments[k] in walk.variable.segments;
      assert walk.View()[k] == walk.variable.segments[k].View() && HasRank(path[k], walk.View()[k]);
      assert layers[k] == LayerOf(path[k], walk.View()[k]);
      LayerIsHeld(layers, path, held, k);
    }
  }

  /** The walk of a request, its slices taken together. */
  predicate IsWalkOf(rs: seq<Slice>, url: Option<seq<SegmentView>>, path: seq<PathNode>, startp: seq<nat>,
                     countp: seq<nat>, stridep: seq<nat>)
    requires url.Some? ==> HaveRanks(path, url.value)
  {
    && AllAsked(UrlSlices(url, path), startp, countp, stridep, AllDims(path), url.Some?)
    && AreWalked(rs, UrlSlices(url, path), VaraSlices(startp, countp, stridep, AllDims(path), |AllDims(path)|),
                 url.Some?)
  }

  lemma {:induction false} WalkOfRequest(views: seq<Option<seq<SegmentView>>>, path: seq<PathNode>, startp: seq<nat>,
                                         countp: seq<nat>, stridep: seq<nat>, vara: seq<SegmentView>,
                                         walk: seq<SegmentView>)
    requires AllUsable(views, path, startp, countp, stridep) && AreVaraViews(path, vara, startp, countp, stridep)
    requires IsWalkView(walk, FirstView(views), vara)
    ensures HaveRanks(path, walk) && (FirstView(views).Some? ==> HaveRanks(path, FirstView(views).value))
    ensures IsWalkOf(AllSlices(LayersOf(path, walk)), FirstView(views), path, startp, countp, stridep)
  {
    FirstIsUsable(views, path, startp, countp, stridep);
    WalkIsWalked(path, walk, FirstView(views), vara, UrlSlices(FirstView(views), path), startp, countp, stridep);
  }

  lemma {:induction false} VaraNamesNodes(path: seq<PathNode>, vara: seq<SegmentView>, startp: seq<nat>,
                                          countp: seq<nat>, stridep: seq<nat>)
    requires AreVaraViews(path, vara, startp, countp, stridep)
    ensures forall k {:trigger vara[k]} :: 0 <= k < |path| ==> NamesNode(vara[k], path[k])
  {
    forall k | 0 <= k < |path|
      ensures NamesNode(vara[k], path[k])
    {
      assert IsVaraAt(path, vara, startp, countp, stridep, k);
    }
  }

  /** Build the request's projection, beside those of the URL. */
  method BuildBeside(projections: seq<DCEprojection?>, path: seq<PathNode>, annotation: Option<CDFnode>,
                     startp: seq<nat>, countp: seq<nat>, stridep: seq<nat>, ghost views: seq<Option<seq<SegmentView>>>)
    returns (vara: DCEprojection)
    requires WellFormedPath(path) && EnoughArguments(RankBefore(path, |path|), startp, countp, stridep)
    requires AreUrlViews(projections, annotation, views)
    ensures vara.Valid() && vara.discrim == CES_VAR && vara.variable.annotation == annotation
    ensures AreVaraViews(path, vara.View(), startp, countp, stridep)
    ensures AreUrlViews(projections, annotation, views)
  {
    vara := BuildVara(path, annotation, startp, countp, stridep);
  }

  /** Build the request's projection, and restrict the URL's by it. */
  method RequestWalk(projections: seq<DCEprojection?>, path: seq<PathNode>, annotation: Option<CDFnode>,
                     startp: seq<nat>, countp: seq<nat>, stridep: seq<nat>, ghost views: seq<Option<seq<SegmentView>>>)
    returns (walk: DCEprojection)
    requires WellFormedPath(path) && EnoughArguments(RankBefore(path, |path|), startp, countp, stridep)
    requires AreUrlViews(projections, annotation, views) && AllUsable(views, path, startp, countp, stridep)
    ensures walk.Valid() && HaveRanks(path, walk.View())
    ensures walk.discrim == CES_VAR && walk.variable.annotation == annotation
    ensures FirstView(views).None? ==>
              forall k {:trigger walk.View()[k]} :: 0 <= k < |path| ==> NamesNode(walk.View()[k], path[k])
    ensures FirstView(views).Some? ==> HaveRanks(path, FirstView(views).value)
    ensures IsWalkOf(AllSlices(LayersOf(path, walk.View())), FirstView(views), path, startp, countp, stridep)
  {
    var vara := BuildBeside(projections, path, annotation, startp, countp, stridep, views);
    UsableAreMergeable(views, path, startp, countp, stridep, vara.View());
    walk := BuildWalk(projections, vara, views);
    VaraNamesNodes(path, vara.View(), startp, countp, stridep);
    WalkOfRequest(views, path, startp, countp, stridep, vara.View(), walk.View());
  }

  /** The data layer holds enough of the variable for what the URL selects. */
  predicate IsEnoughHeld(url: Option<seq<SegmentView>>, path: seq<PathNode>, held: seq<PathNode>)
    requires url.Some? ==> HaveRanks(path, url.value)
  {
    SameRanks(path, held) && HoldEnough(UrlSlices(url, path), AllDims(path), AllDims(held))
  }

  /** The layers of the walk of a request can be walked over what the data layer holds. */
  predicate IsReadable(layers: Layers, url: Option<seq<SegmentView>>, path: seq<PathNode>, held: seq<PathNode>,
                       startp: seq<nat>, countp: seq<nat>, stridep: seq<nat>)
  {
    && HaveSizes(layers, held) && (url.Some? ==> HaveRanks(path, url.value)) && IsEnoughHeld(url, path, held)
    && IsWalkOf(AllSlices(layers), url, path, startp, countp, stridep) && LayersReady(HeldLayers(layers, held), held)
  }

  lemma {:induction false} WalkOfIsReady(walk: DCEprojection, url: Option<seq<SegmentView>>, path: seq<PathNode>,
                                         held: seq<PathNode>, startp: seq<nat>, countp: seq<nat>, stridep: seq<nat>)
    requires WellFormedPath(path) && walk.Valid() && HaveRanks(path, walk.View())
    requires (url.Some? ==> HaveRanks(path, url.value)) && IsEnoughHeld(url, path, held)
    requires IsWalkOf(AllSlices(LayersOf(path, walk.View())), url, path, startp, countp, stridep)
    ensures IsReadable(LayersOf(path, walk.View()), url, path, held, startp, countp, stridep)
    ensures AreLayers(walk.variable.segments, HeldLayers(LayersOf(path, walk.View()), held), held)
  {
    var layers := LayersOf(path, walk.View());
    SameHaveSizes(layers, path, held);
    WalkIsReady(UrlSlices(url, path), startp, countp, stridep, path, url.Some?, layers, held);
    ViewsAreLayers(walk, path, held);
  }

  lemma {:induction false} WalkOfIsRight<T>(layers: Layers, url: Option<seq<SegmentView>>, path: seq<PathNode>,
                                            held: seq<PathNode>, startp: seq<nat>, countp: seq<nat>, stridep: seq<nat>,
                                            memory: seq<T>, data: seq<T>, convert: T -> T)
    requires IsReadable(layers, url, path, held, startp, countp, stridep)
    requires HoldsNested(memory, HeldLayers(layers, held), held, data, convert)
    ensures EnoughArguments(|AllDims(path)|, startp, countp, stridep)
    ensures IsReadRight(memory, UrlSlices(url, path), startp, countp, stridep, path, AllDims(held), data, convert)
  {
    ReadIsRight(UrlSlices(url, path), startp, countp, stridep, path, url.Some?, layers, held, memory, data, convert);
  }

  /** Read what a walk selects. */
  method ReadAlong<T>(segments: seq<DCEsegment>, content: Content<T>, held: seq<PathNode>, requireconversion: bool,
                      convert: T -> T, ghost layers: Layers, ghost url: Option<seq<SegmentView>>,
                      ghost path: seq<PathNode>, ghost startp: seq<nat>, ghost countp: seq<nat>,
                      ghost stridep: seq<nat>) returns (memory: seq<T>)
    requires IsReadable(layers, url, path, held, startp, countp, stridep) && HasShape(content, held)
    requires AreLayers(segments, HeldLayers(layers, held), held)
    ensures IsReadRight(memory, UrlSlices(url, path), startp, countp, stridep, path, AllDims(held), Flat(content),
                        if requireconversion then convert else Identity)
  {
    memory := MoveTo(content, held, segments, requireconversion, convert, HeldLayers(layers, held));
    WalkOfIsRight(layers, url, path, held, startp, countp, stridep, memory, Flat(content),
                  if requireconversion then convert else Identity);
  }

  /** Read the requested part of a cached variable, at the end of a path. For a sane request memory holds its elements,
      looked up in what the URL selects, iff nothing is asked for along some node's first dimension or something along
      all dimensions. The data layer may hold less of a dimension than there is, if it holds what the URL selects. */
  method ReadVara<T>(projections: seq<DCEprojection?>, path: seq<PathNode>, annotation: Option<CDFnode>,
                     startp: seq<nat>, countp: seq<nat>, stridep: seq<nat>, content: Content<T>, held: seq<PathNode>,
                     requireconversion: bool, convert: T -> T, ghost views: seq<Option<seq<SegmentView>>>)
    returns (memory: seq<T>)
    requires WellFormedPath(path) && EnoughArguments(RankBefore(path, |path|), startp, countp, stridep)
    requires AreUrlViews(projections, annotation, views) && AllUsable(views, path, startp, countp, stridep)
    requires FirstView(views).Some? ==> HaveRanks(path, FirstView(views).value)
    requires IsEnoughHeld(FirstView(views), path, held) && HasShape(content, held)
    ensures IsReadRight(memory, UrlSlices(FirstView(views), path), startp, countp, stridep, path, AllDims(held),
                        Flat(content), if requireconversion then convert else Identity)
  {
    var walk := RequestWalk(projections, path, annotation, startp, countp, stridep, views);
    WalkOfIsReady(walk, FirstView(views), path, held, startp, countp, stridep);
    memory := ReadAlong(walk.variable.segments, content, held, requireconversion, convert,
                        LayersOf(path, walk.View()), FirstView(views), path, startp, countp, stridep);
  }
}
