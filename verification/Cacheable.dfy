/** When the answer to a fetch holds whole variables, so that it can serve other requests from the cache. */
module Cacheable {
  import opened Wrappers
  import opened Ranges
  import opened Slices
  import opened Boxes
  import opened Tree
  import opened Segments
  import opened Odometer
  import opened Offsets
  import opened Projections
  import opened Requests
  import opened Restriction
  import opened Readers
  import opened Nested
  import opened GetVara
  import opened Cache

  /** A fetch's constraint: its projections, and how many selections it has. */
  datatype Constraint = Constraint(projections: seq<DCEprojection>, selections: nat)

  /** The slice is all of a dimension. */
  predicate IsWholeSlice(s: Slice, size: nat)
  {
    s.first == 0 && s.stride == 1 && s.length == size
  }

  /** The segment has rank 0, or its slices are known to be all of its node's declared dimensions. */
  predicate IsWholeOf(v: SegmentView)
  {
    v.rank == 0
    || (&& v.slicesdefined && v.annotation.Some? && |v.annotation.value.dimset0| <= |v.slices|
        && forall i :: 0 <= i < |v.annotation.value.dimset0| ==>
             IsWholeSlice(v.slices[i], v.annotation.value.dimset0[i].dim.declsize))
  }

  /** Every projection is of a variable, with whole segments. */
  ghost predicate IsWholeProjection(p: DCEprojection)
    reads p.variable, p.variable.segments
  {
    p.discrim == CES_VAR && forall s <- p.variable.segments :: IsWholeOf(s.View())
  }

  /** The annotated node's declared dimensions have slices in the segment. */
  ghost predicate IsRanked(s: DCEsegment)
    reads s
  {
    s.Valid() && (s.annotation.Some? ==> |s.annotation.value.dimset0| <= NC_MAX_VAR_DIMS)
  }

  method IsWholeSegmentOf(segment: DCEsegment) returns (whole: bool)
    requires IsRanked(segment)
    ensures whole <==> IsWholeOf(segment.View())
    ensures segment.rank == 0 ==> whole
    ensures 0 < segment.rank && (!segment.slicesdefined || segment.annotation.None?) ==> !whole
  {
    if segment.rank == 0 {
      return true;
    }
    if !segment.slicesdefined || segment.annotation.None? {
      return false;
    }
    var dimset := segment.annotation.value.dimset0;
    whole := true;
    var i := 0;
    while i < |dimset|
      invariant 0 <= i <= |dimset| && whole
      invariant forall k :: 0 <= k < i ==> IsWholeSlice(segment.slices[k], dimset[k].dim.declsize)
    {
      var slice := segment.slices[i];
      if slice.first != 0 || slice.stride != 1 || slice.length != dimset[i].dim.declsize {
        assert !IsWholeSlice(segment.slices[i], dimset[i].dim.declsize);
        return false;
      }
      i := i + 1;
    }
  }

  method IsCacheableProjection(p: DCEprojection) returns (cacheable: bool)
    requires forall s <- p.variable.segments :: IsRanked(s)
    ensures cacheable <==> IsWholeProjection(p)
  {
    if p.discrim != CES_VAR {
      return false;
    }
    var i := 0;
    while i < |p.variable.segments|
      invariant 0 <= i <= |p.variable.segments|
      invariant forall k :: 0 <= k < i ==> IsWholeOf(p.variable.segments[k].View())
    {
      assert p.variable.segments[i] in p.variable.segments;
      var whole := IsWholeSegmentOf(p.variable.segments[i]);
      if !whole {
        return false;
      }
      i := i + 1;
    }
    return true;
  }

  /** No selections, and only whole variables; a fetch without a constraint brings in everything. */
  ghost predicate IsCacheable(con: Option<Constraint>)
    reads if con.None? then {} else set i | 0 <= i < |con.value.projections| :: con.value.projections[i].variable
    reads if con.None? then {} else
            set i, j | 0 <= i < |con.value.projections| && 0 <= j < |con.value.projections[i].variable.segments| ::
              con.value.projections[i].variable.segments[j]
  {
    con.Some? ==>
      && con.value.selections == 0
      && forall i :: 0 <= i < |con.value.projections| ==> IsWholeProjection(con.value.projections[i])
  }

  method IsCacheableConstraint(con: Option<Constraint>) returns (cacheable: bool)
    requires con.Some? ==> forall p <- con.value.projections :: forall s <- p.variable.segments :: IsRanked(s)
    ensures cacheable <==> IsCacheable(con)
    ensures con.None? ==> cacheable
    ensures con.Some? && con.value.selections > 0 ==> !cacheable
    ensures con.Some? && con.value.selections == 0 ==>
              (cacheable <==>
                forall p <- con.value.projections ::
                  p.discrim == CES_VAR && forall s <- p.variable.segments :: IsWholeOf(s.View()))
  {
    if con.None? {
      return true;
    }
    if con.value.selections > 0 {
      return false;
    }
    var i := 0;
    while i < |con.value.projections|
      invariant 0 <= i <= |con.value.projections|
      invariant forall k :: 0 <= k < i ==> IsWholeProjection(con.value.projections[k])
    {
      assert con.value.projections[i] in con.value.projections;
      cacheable := IsCacheableProjection(con.value.projections[i]);
      if !cacheable {
        return;
      }
      i := i + 1;
    }
    return true;
  }

  /** Put the answer to a fetch into the cache: later searches find it iff its constraint is cacheable. */
  method BuildCacheNode(cache: NCcache, con: Option<Constraint>, xdrsize: nat, vars: seq<CDFnode>)
    returns (cachenode: CacheNode)
    requires cache.Valid()
    requires con.Some? ==> forall p <- con.value.projections :: forall s <- p.variable.segments :: IsRanked(s)
    modifies cache
    ensures cache.Valid() && cachenode.wholevariable == old(IsCacheable(con))
    ensures cache.View() == Step(old(cache.View()), Insert(cachenode.wholevariable, xdrsize, vars))
    ensures cache.nodes != [] && cachenode == cache.nodes[|cache.nodes| - 1]
    ensures forall v <- vars :: Serves(cachenode, v) <==> old(IsCacheable(con))
    ensures cachenode.vars == vars && cachenode.xdrsize == xdrsize
    ensures con.Some? && con.value.selections > 0 ==> !cachenode.wholevariable
    ensures con.None? ==> cachenode.wholevariable
  {
    var whole := IsCacheableConstraint(con);
    cachenode := cache.InsertNode(whole, xdrsize, vars);
  }

  // ----- What it means to be whole

  /** A slice that selects something is all of a dimension iff it selects as many indices as there are, by stride 1 from
      the first on. */
  lemma {:induction false} WholeSliceIff(s: Slice, size: nat)
    requires MeetsHeader(s)
    ensures 0 < |Indices(s)|
    ensures IsWholeSlice(s, size) <==> s.stride == 1 && |Indices(s)| == size && Indices(s)[0] == 0
  {
    CountIsLength(s);
    StepsHead(s.first, s.last + 1, s.stride);
    if s.stride == 1 {
      Quotient(s.length, 1, s.length);
    }
  }

  /** A segment with known slices that select something is whole iff each slice takes all that its dimension has. */
  lemma {:induction false} WholeIff(v: SegmentView, node: CDFnode)
    requires v.annotation == Some(node) && v.slicesdefined && 0 < v.rank == |node.dimset0| <= |v.slices|
    requires forall i :: 0 <= i < v.rank ==> MeetsHeader(v.slices[i])
    ensures IsWholeOf(v)
       <==> forall i :: 0 <= i < v.rank ==>
              && v.slices[i].stride == 1 && |Indices(v.slices[i])| == node.dimset0[i].dim.declsize
              && 0 in Indices(v.slices[i])
  {
    forall i | 0 <= i < v.rank
      ensures IsWholeSlice(v.slices[i], node.dimset0[i].dim.declsize)
         <==> && v.slices[i].stride == 1 && |Indices(v.slices[i])| == node.dimset0[i].dim.declsize
              && 0 in Indices(v.slices[i])
    {
      var s := v.slices[i];
      WholeSliceIff(s, node.dimset0[i].dim.declsize);
      StepsMember(s.first, s.last + 1, s.stride, 0);
      StepsHead(s.first, s.last + 1, s.stride);
      assert Indices(s)[0] in Indices(s);
    }
  }

  // ----- What a whole answer holds

  /** The sizes of a node's declared dimensions. They are those that the URL's constraint leaves. */
  predicate HasDeclaredSizes(h: PathNode)
  {
    |h.node.dimset0| == |h.dims| && forall i :: 0 <= i < |h.dims| ==> h.node.dimset0[i].dim.declsize == h.dims[i]
  }

  /** The server is asked for all of a dimension that the client knows of. */
  predicate IsAllOf(s: Slice, size: nat, held: nat)
  {
    IsWholeSlice(s, held) && MeetsHeader(s) && s.declsize == size && held <= size
  }

  /** The segment is a whole one, and the answer to its fetch has the sizes of h: a segment without slices brings in
      all of the node, and others what the client takes for all of it. */
  predicate IsWholeAt(v: SegmentView, n: PathNode, h: PathNode)
  {
    && IsWholeOf(v) && |h.dims| == |n.dims|
    && if v.rank == 0 then h.dims == n.dims && forall d <- n.dims :: 0 < d
       else
         && HasRank(n, v) && v.annotation == Some(h.node) && HasDeclaredSizes(h)
         && forall j :: 0 <= j < |n.dims| ==>
              MeetsHeader(v.slices[j]) && v.slices[j].declsize == n.dims[j] && h.dims[j] <= n.dims[j]
  }

  /** What the server selects by a segment: everything, if it has no slices. */
  function ServedLayer(n: PathNode, v: SegmentView): seq<Slice>
  {
    if v.rank == 0 then Wholes(n.dims) else LayerOf(n, v)
  }

  function ServedLayers(path: seq<PathNode>, views: seq<SegmentView>): (layers: Layers)
    requires |views| == |path|
    ensures |layers| == |path| && forall k :: 0 <= k < |path| ==> layers[k] == ServedLayer(path[k], views[k])
  {
    seq(|path|, k requires 0 <= k < |path| => ServedLayer(path[k], views[k]))
  }

  predicate AreAllOf(layer: seq<Slice>, sizes: seq<nat>, helds: seq<nat>)
  {
    && |layer| == |sizes| == |helds|
    && forall j {:trigger IsAllOf(layer[j], sizes[j], helds[j])} :: 0 <= j < |layer| ==>
         IsAllOf(layer[j], sizes[j], helds[j])
  }

  lemma {:induction false} WholeLayer(v: SegmentView, n: PathNode, h: PathNode)
    requires IsWholeAt(v, n, h)
    ensures AreAllOf(ServedLayer(n, v), n.dims, h.dims)
  {
    var layer := ServedLayer(n, v);
    forall j | 0 <= j < |layer|
      ensures IsAllOf(layer[j], n.dims[j], h.dims[j])
    {
      if v.rank == 0 {
        assert n.dims[j] in n.dims;
        WholeSelectsAll(n.dims[j], 0);
      }
    }
  }

  lemma {:induction false} WholeConcat(a: seq<Slice>, b: seq<Slice>, xs: seq<nat>, ys: seq<nat>, hs: seq<nat>,
                                       gs: seq<nat>)
    requires AreAllOf(a, xs, hs) && AreAllOf(b, ys, gs)
    ensures AreAllOf(a + b, xs + ys, hs + gs)
  {
    forall j | 0 <= j < |a + b|
      ensures IsAllOf((a + b)[j], (xs + ys)[j], (hs + gs)[j])
    {
      if j < |a| {
        assert IsAllOf(a[j], xs[j], hs[j]);
      } else {
        assert IsAllOf(b[j - |a|], ys[j - |a|], gs[j - |a|]);
      }
    }
  }

  /** Every segment of the projection is a whole one of the path. */
  predicate AreWhole(views: seq<SegmentView>, path: seq<PathNode>, held: seq<PathNode>)
  {
    && |views| == |path| == |held|
    && forall k {:trigger IsWholeAt(views[k], path[k], held[k])} :: 0 <= k < |path| ==>
         IsWholeAt(views[k], path[k], held[k])
  }

  lemma {:induction false} WholeLayers(views: seq<SegmentView>, path: seq<PathNode>, held: seq<PathNode>, n: nat)
    requires AreWhole(views, path, held) && n <= |path|
    ensures AreAllOf(SlicesUpTo(ServedLayers(path, views), n), DimsUpTo(path, n), DimsUpTo(held, n))
  {
    if n > 0 {
      WholeLayers(views, path, held, n - 1);
      var layers := ServedLayers(path, views);
      assert IsWholeAt(views[n - 1], path[n - 1], held[n - 1]);
      WholeLayer(views[n - 1], path[n - 1], held[n - 1]);
      WholeConcat(SlicesUpTo(layers, n - 1), layers[n - 1], DimsUpTo(path, n - 1), path[n - 1].dims,
                  DimsUpTo(held, n - 1), held[n - 1].dims);
    }
  }

  /** The slices select the first held ones of dimensions of the given sizes. */
  predicate IsWholeLayer(layer: seq<Slice>, sizes: seq<nat>, helds: seq<nat>)
  {
    && PositiveStrides(layer) && |layer| == |helds| == |sizes| && DeclSizes(WheelsOf(layer)) == sizes
    && AllWhole(DeclaredAs(WheelsOf(layer), helds)) && forall i :: 0 <= i < |sizes| ==> helds[i] <= sizes[i]
  }

  lemma {:induction false} SlicesAreWhole(layer: seq<Slice>, sizes: seq<nat>, helds: seq<nat>)
    requires AreAllOf(layer, sizes, helds)
    ensures IsWholeLayer(layer, sizes, helds)
  {
    forall s | s in layer
      ensures 0 < s.stride
    {
      var j :| 0 <= j < |layer| && layer[j] == s;
      assert IsAllOf(layer[j], sizes[j], helds[j]);
    }
    forall j | 0 <= j < |layer|
      ensures DeclSizes(WheelsOf(layer))[j] == sizes[j] && helds[j] <= sizes[j]
    {
      assert IsAllOf(layer[j], sizes[j], helds[j]);
    }
    var held := DeclaredAs(WheelsOf(layer), helds);
    forall d | d in held
      ensures IsWholeWheel(d)
    {
      var j :| 0 <= j < |held| && held[j] == d;
      DeclaredAt(WheelsOf(layer), helds, j);
      assert IsAllOf(layer[j], sizes[j], helds[j]);
    }
  }

  /** The answer has the full array's element at the point. */
  predicate AgreesAt<T(==)>(answer: seq<T>, helds: seq<nat>, full: seq<T>, dims: seq<nat>, p: seq<nat>)
  {
    && |p| == |helds| == |dims| && Offset(helds, p) < |answer| && Offset(dims, p) < |full|
    && answer[Offset(helds, p)] == full[Offset(dims, p)]
  }

  /** The answer is the corner of the full array that has the given sizes. */
  ghost predicate IsCorner<T>(answer: seq<T>, helds: seq<nat>, full: seq<T>, dims: seq<nat>)
  {
    && |answer| == Product(helds)
    && forall p {:trigger AgreesAt(answer, helds, full, dims, p)} :: Within(helds, p) ==>
         AgreesAt(answer, helds, full, dims, p)
  }

  /** The points of whole dimensions are those within their sizes, each at its own offset. */
  lemma {:induction false} PlaceWithin(dims: seq<Dim>, p: seq<nat>) returns (k: nat)
    requires AllWhole(dims) && Within(DeclSizes(dims), p)
    ensures k < |Points(dims)| && Points(dims)[k] == p && Offset(DeclSizes(dims), p) == k
  {
    forall i | 0 <= i < |p|
      ensures p[i] in Digits(dims[i])
    {
      assert dims[i] in dims && p[i] < DeclSizes(dims)[i];
      WholeDigits(dims[i], p[i]);
    }
    PointsMember(dims, p);
    k :| 0 <= k < |Points(dims)| && Points(dims)[k] == p;
    WholeOffsets(dims, k);
  }

  lemma {:induction false} PointOfWhole(dims: seq<Dim>, k: nat)
    requires AllWhole(dims) && k < |Points(dims)|
    ensures Within(DeclSizes(dims), Points(dims)[k]) && Offset(DeclSizes(dims), Points(dims)[k]) == k
  {
    WholeFits(dims);
    PointWithin(dims, k);
    WholeOffsets(dims, k);
  }

  lemma {:induction false} WholeFits(dims: seq<Dim>)
    requires AllWhole(dims)
    ensures AllFit(dims)
  {
    forall d | d in dims
      ensures Fits(d)
    {
      assert IsWholeWheel(d);
      forall x | x in Digits(d)
        ensures x < d.declsize
      {
        StepsMember(d.start, d.stop, d.stride, x);
      }
    }
  }

  lemma {:induction false} SelectionIsCorner<T>(slices: seq<Slice>, dims: seq<nat>, helds: seq<nat>, answer: seq<T>,
                                                full: seq<T>)
    requires IsWholeLayer(slices, dims, helds) && |full| == Product(dims)
    ensures HoldsSelection(answer, slices, full, Identity) <==> IsCorner(answer, helds, full, dims)
  {
    var ws, hs := WheelsOf(slices), DeclaredAs(WheelsOf(slices), helds);
    DeclaredPoints(ws, helds);
    WholeOffsets(hs, 0);
    if HoldsSelection(answer, slices, full, Identity) {
      forall p | Within(helds, p)
        ensures AgreesAt(answer, helds, full, dims, p)
      {
        var k := PlaceWithin(hs, p);
        assert IsElement(answer[k], full, dims, Points(ws)[k], Identity);
      }
    }
    if IsCorner(answer, helds, full, dims) {
      forall k | 0 <= k < |answer|
        ensures IsElement(answer[k], full, dims, Points(ws)[k], Identity)
      {
        PointOfWhole(hs, k);
        assert AgreesAt(answer, helds, full, dims, Points(ws)[k]);
      }
    }
  }

  /** The answer to the fetch of whole segments is a corner of the variable: that of the sizes which the constraint of
      the URL leaves, with all of the dimensions whose segment has no slices. */
  lemma {:induction false} WholeAnswer<T>(views: seq<SegmentView>, path: seq<PathNode>, held: seq<PathNode>,
                                          answer: seq<T>, full: seq<T>)
    requires AreWhole(views, path, held) && |full| == Product(AllDims(path))
    ensures PositiveStrides(AllSlices(ServedLayers(path, views)))
    ensures HoldsSelection(answer, AllSlices(ServedLayers(path, views)), full, Identity)
       <==> IsCorner(answer, AllDims(held), full, AllDims(path))
  {
    WholeLayers(views, path, held, |path|);
    SlicesAreWhole(AllSlices(ServedLayers(path, views)), AllDims(path), AllDims(held));
    SelectionIsCorner(AllSlices(ServedLayers(path, views)), AllDims(path), AllDims(held), answer, full);
  }

  /** A corner of all sizes is everything, in row-major order. */
  lemma {:induction false} CornerIsAll<T>(answer: seq<T>, full: seq<T>, dims: seq<nat>)
    requires |full| == Product(dims)
    ensures IsCorner(answer, dims, full, dims) <==> answer == full
  {
    var ws := WholeWheels(dims);
    WholeOffsets(ws, 0);
    if IsCorner(answer, dims, full, dims) {
      forall k | 0 <= k < |answer|
        ensures answer[k] == full[k]
      {
        PointOfWhole(ws, k);
        assert AgreesAt(answer, dims, full, dims, Points(ws)[k]);
      }
    }
    if answer == full {
      forall p | Within(dims, p)
        ensures AgreesAt(answer, dims, full, dims, p)
      {
        OffsetBound(dims, p);
      }
    }
  }

  function WholeWheels(dims: seq<nat>): (ws: seq<Dim>)
    ensures AllWhole(ws) && DeclSizes(ws) == dims
  {
    var ws := seq(|dims|, i requires 0 <= i < |dims| => Wheel(0, dims[i], 1, dims[i]));
    ws
  }

  // ----- What is read from a cached answer

  /** What the URL selects lies in the corner that the answer holds. */
  lemma {:induction false} FoundWithin(us: seq<Slice>, dims: seq<nat>, helds: seq<nat>, p: seq<nat>)
    requires HoldEnough(us, dims, helds) && PositiveStrides(us) && InSelection(Selections(us), p)
    ensures Within(helds, LookUp(Selections(us), p))
  {
    var q := LookUp(Selections(us), p);
    LookUpAt(Selections(us), p);
    forall d | 0 <= d < |q|
      ensures q[d] < helds[d]
    {
      assert HoldsAt(us, dims, helds, d);
      assert q[d] == Indices(us[d])[p[d]];
      assert q[d] in Indices(us[d]);
      StepsMember(us[d].first, us[d].last + 1, us[d].stride, q[d]);
    }
  }

  lemma {:induction false} LookUpAt(outer: seq<seq<nat>>, p: seq<nat>)
    requires InSelection(outer, p)
    ensures |LookUp(outer, p)| == |p| && forall d :: 0 <= d < |p| ==> LookUp(outer, p)[d] == outer[d][p[d]]
  {
    if p != [] {
      assert InSelection(outer[1..], p[1..]);
      LookUpAt(outer[1..], p[1..]);
      forall d | 0 <= d < |p|
        ensures LookUp(outer, p)[d] == outer[d][p[d]]
      {
        assert d > 0 ==> LookUp(outer, p)[d] == LookUp(outer[1..], p[1..])[d - 1];
      }
    }
  }

  /** A request that is read from such an answer is read from the variable. */
  lemma {:induction false} RequestFromCorner<T>(us: seq<Slice>, vs: seq<Slice>, dims: seq<nat>, helds: seq<nat>,
                                                memory: seq<T>, answer: seq<T>, full: seq<T>, convert: T -> T)
    requires HoldEnough(us, dims, helds) && PositiveStrides(us) && PositiveStrides(vs)
    requires IsCorner(answer, helds, full, dims)
    ensures HoldsRequest(memory, us, vs, helds, answer, convert) <==> HoldsRequest(memory, us, vs, dims, full, convert)
  {
    var outer, points := Selections(us), Points(WheelsOf(vs));
    if |memory| == |points| {
      forall k | 0 <= k < |memory| && InSelection(outer, points[k])
        ensures IsElement(memory[k], answer, helds, LookUp(outer, points[k]), convert)
           <==> IsElement(memory[k], full, dims, LookUp(outer, points[k]), convert)
      {
        FoundWithin(us, dims, helds, points[k]);
        assert AgreesAt(answer, helds, full, dims, LookUp(outer, points[k]));
      }
    }
  }

  /** A request that is read right from the cached answer to a fetch of whole segments is read right from the variable,
      and the other way round. */
  lemma {:induction false} CachedIsRight<T>(us: seq<Slice>, startp: seq<nat>, countp: seq<nat>, stridep: seq<nat>,
                                            path: seq<PathNode>, held: seq<PathNode>, memory: seq<T>, answer: seq<T>,
                                            full: seq<T>, convert: T -> T)
    requires EnoughArguments(|AllDims(path)|, startp, countp, stridep) && HoldEnough(us, AllDims(path), AllDims(held))
    requires IsCorner(answer, AllDims(held), full, AllDims(path))
    ensures IsReadRight(memory, us, startp, countp, stridep, path, AllDims(held), answer, convert)
       <==> IsReadRight(memory, us, startp, countp, stridep, path, AllDims(path), full, convert)
  {
    var vs := VaraSlices(startp, countp, stridep, AllDims(path), |AllDims(path)|);
    if PositiveStrides(us) && PositiveStrides(vs) {
      RequestFromCorner(us, vs, AllDims(path), AllDims(held), memory, answer, full, convert);
    }
  }
}
