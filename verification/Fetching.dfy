/** Fetching a part: the text that goes into the URL selects, when the server reads it, exactly what was requested. */
module Fetching {
  import opened Wrappers
  import opened Ranges
  import opened Slices
  import opened Boxes
  import opened Segments
  import opened Odometer
  import opened Projections
  import opened Requests
  import opened Readers
  import opened Nested
  import opened GetVara
  import opened Parts
  import opened Printer
  import opened Lexer
  import opened Parser
  import opened RoundTrip

  // ----- URL slices as they are parsed

  /** A parsed range as it is qualified: with the size that it leaves of its dimension. */
  function QualifiedRange(first: nat, stride: nat, last: nat): Slice
    requires IsLegalRange(first, stride, last)
  {
    var s := RangeSlice(first, stride, last);
    s.(declsize := |Indices(s)|)
  }

  /** A parsed range can be used iff it ends inside the dimension: that the parser rounds its count down does not
      matter, and neither does that it is qualified with the constrained size. */
  lemma {:induction false} ParsedFits(first: nat, stride: nat, last: nat, size: nat)
    requires IsLegalRange(first, stride, last)
    ensures FitsDimension(QualifiedRange(first, stride, last), size) <==> last < size
  {
    NoMoreSteps(first, last + 1, stride);
  }

  /** Restricting it gives the slice the declared size of the dimension back. */
  lemma {:induction false} SizeIsRestored(start: nat, count: nat, stride: nat, u: Slice, size: nat)
    requires IsAsked(start, count, stride, u, size, true)
    ensures 0 < VaraSlice(start, count, stride, size).stride
    ensures MergeSlice(u, VaraSlice(start, count, stride, size)).declsize == size
  {
    WalkSliceFits(start, count, stride, u, size, true);
  }

  lemma {:induction false} EverySecond()
    ensures Steps(0, 5, 2) == [0, 2, 4]
  {
    assert Steps(6, 5, 2) == [] && Steps(4, 5, 2) == [4] + Steps(6, 5, 2);
    assert Steps(2, 5, 2) == [2] + Steps(4, 5, 2);
  }

  /** [0:2:4] of 5 selects 0, 2 and 4. Its count is 2 and its declared size 3, but all three can be requested. */
  lemma {:induction false} RoundedDownIsUsable()
    ensures var u := QualifiedRange(0, 2, 4);
            && u.count == 2 && u.declsize == 3 && !MeetsHeader(u) && Indices(u) == [0, 2, 4]
            && IsAsked(0, 3, 1, u, 5, true)
  {
    EverySecond();
    assert QualifiedRange(0, 2, 4) == Slice(0, 2, 5, 4, 2, 3);
  }

  // ----- What is printed can be read

  lemma {:induction false} WalkSlicePrints(start: nat, count: nat, stride: nat, u: Slice, size: nat, matched: bool)
    requires IsAsked(start, count, stride, u, size, matched) && IsSane(start, count, stride) && 0 < count
    ensures var v := VaraSlice(start, count, stride, size);
            0 < v.stride && IsPrintable(WalkSlice(u, v, matched)) && WalkSlice(u, v, matched).declsize == size
  {
    var v := VaraSlice(start, count, stride, size);
    VaraDenotes(start, count, stride, |Indices(u)|, size);
    WalkSliceFits(start, count, stride, u, size, matched);
    if matched {
      ComposeExact(u, v);
      ComposeMeetsHeader(u, v);
    }
  }

  /** Slice d of the walk can be printed, and is declared with the size of its dimension. */
  predicate PrintsAt(r: Slice, size: nat)
  {
    IsPrintable(r) && r.declsize == size
  }

  /** A segment whose slices in use all print. */
  predicate LayerPrints(layer: seq<Slice>, sizes: seq<nat>)
  {
    |layer| == |sizes| && forall j {:trigger PrintsAt(layer[j], sizes[j])} :: 0 <= j < |sizes| ==>
      PrintsAt(layer[j], sizes[j])
  }

  predicate LayersPrint(layers: Layers, path: seq<PathNode>)
  {
    && |layers| == |path|
    && forall k {:trigger LayerPrints(layers[k], path[k].dims)} :: 0 <= k < |path| ==>
         LayerPrints(layers[k], path[k].dims)
  }

  lemma {:induction false} LayersFromWalk(layers: Layers, path: seq<PathNode>)
    requires HaveSizes(layers, path)
    requires |AllSlices(layers)| == |AllDims(path)|
    requires forall d {:trigger PrintsAt(AllSlices(layers)[d], AllDims(path)[d])} :: 0 <= d < |AllDims(path)| ==>
               PrintsAt(AllSlices(layers)[d], AllDims(path)[d])
    ensures LayersPrint(layers, path)
  {
    forall k | 0 <= k < |path|
      ensures LayerPrints(layers[k], path[k].dims)
    {
      forall j | 0 <= j < |path[k].dims|
        ensures PrintsAt(layers[k][j], path[k].dims[j])
      {
        PlaceOf(layers, path, |path|, k, j);
        var d := RankBefore(path, k) + j;
        assert PrintsAt(AllSlices(layers)[d], AllDims(path)[d]);
      }
    }
  }

  // ----- What the server reads

  /** A parsed segment has no slices, or one for each dimension of its node. */
  predicate FitsNode(p: ParsedSegment, n: PathNode)
  {
    p.slices == [] || |p.slices| == |n.dims|
  }

  /** The parsed segments belong to the nodes of the path. */
  predicate AreParsed(parsed: seq<ParsedSegment>, path: seq<PathNode>)
  {
    |parsed| == |path| && forall k {:trigger FitsNode(parsed[k], path[k])} :: 0 <= k < |path| ==>
      FitsNode(parsed[k], path[k])
  }

  /** The slices of each parsed segment, with the sizes of its node's dimensions; whole ones where it has none. */
  function ReadLayers(parsed: seq<ParsedSegment>, path: seq<PathNode>): (layers: Layers)
    requires AreParsed(parsed, path)
    ensures HaveSizes(layers, path)
  {
    if path == [] then []
    else
      assert FitsNode(parsed[0], path[0]);
      assert forall k :: 0 < k < |path| ==> FitsNode(parsed[k], path[k]);
      [Qualified(parsed[0].slices, path[0].dims)] + ReadLayers(parsed[1..], path[1..])
  }

  /** The two slices select the same of equally long dimensions. */
  predicate Alike(a: Slice, b: Slice)
  {
    0 < a.stride && 0 < b.stride && Indices(a) == Indices(b) && a.declsize == b.declsize
  }

  predicate AreAlike(xs: seq<Slice>, ys: seq<Slice>)
  {
    |xs| == |ys| && forall d {:trigger Alike(xs[d], ys[d])} :: 0 <= d < |xs| ==> Alike(xs[d], ys[d])
  }

  lemma {:induction false} AlikePoints(xs: seq<Slice>, ys: seq<Slice>)
    requires AreAlike(xs, ys)
    ensures PositiveStrides(xs) && PositiveStrides(ys)
    ensures Points(WheelsOf(xs)) == Points(WheelsOf(ys)) && DeclSizes(WheelsOf(xs)) == DeclSizes(WheelsOf(ys))
  {
    if xs != [] {
      assert Alike(xs[0], ys[0]);
      forall d | 0 <= d < |xs| - 1
        ensures Alike(xs[1..][d], ys[1..][d])
      {
        assert Alike(xs[d + 1], ys[d + 1]);
      }
      AlikePoints(xs[1..], ys[1..]);
      assert xs == [xs[0]] + xs[1..] && ys == [ys[0]] + ys[1..];
      assert WheelsOf(xs)[1..] == WheelsOf(xs[1..]) && WheelsOf(ys)[1..] == WheelsOf(ys[1..]);
    }
  }

  lemma {:induction false} AlikeConcat(a: seq<Slice>, b: seq<Slice>, xs: seq<Slice>, ys: seq<Slice>)
    requires AreAlike(a, b) && AreAlike(xs, ys)
    ensures AreAlike(a + xs, b + ys)
  {
    forall d | 0 <= d < |a + xs|
      ensures Alike((a + xs)[d], (b + ys)[d])
    {
      if d < |a| {
        assert Alike(a[d], b[d]);
      } else {
        assert Alike(xs[d - |a|], ys[d - |a|]);
      }
    }
  }

  lemma {:induction false} AlikeLayers(xs: Layers, ys: Layers, n: nat)
    requires n <= |xs| == |ys| && forall k {:trigger AreAlike(xs[k], ys[k])} :: 0 <= k < |xs| ==> AreAlike(xs[k], ys[k])
    ensures AreAlike(SlicesUpTo(xs, n), SlicesUpTo(ys, n))
  {
    if n > 0 {
      AlikeLayers(xs, ys, n - 1);
      assert AreAlike(xs[n - 1], ys[n - 1]);
      AlikeConcat(SlicesUpTo(xs, n - 1), SlicesUpTo(ys, n - 1), xs[n - 1], ys[n - 1]);
    }
  }

  /** What is read of a printed segment selects what the segment does. */
  lemma {:induction false} ReadAlike(n: PathNode, v: SegmentView)
    requires HasRank(n, v) && IsIdentifier(v.name) && LayerPrints(LayerOf(n, v), n.dims)
    ensures PrintableSegment(v) && FitsNode(Reread(v), n)
    ensures AreAlike(Qualified(Reread(v).slices, n.dims), LayerOf(n, v))
  {
    var layer := LayerOf(n, v);
    forall s | s in InUse(v)
      ensures IsPrintable(s)
    {
      var j :| 0 <= j < |layer| && layer[j] == s;
      assert PrintsAt(layer[j], n.dims[j]);
    }
    forall j | 0 <= j < |n.dims|
      ensures n.dims[j] == DeclaredSizes(InUse(v))[j]
    {
      assert PrintsAt(layer[j], n.dims[j]);
    }
    assert n.dims == DeclaredSizes(InUse(v));
    forall j | 0 <= j < |n.dims|
      ensures Alike(Qualified(Reread(v).slices, n.dims)[j], layer[j])
    {
      PrintParseQualify(v, j);
    }
  }

  lemma {:induction false} RereadAt(views: seq<SegmentView>, k: nat)
    requires k < |views|
    ensures |RereadSegments(views)| == |views| && RereadSegments(views)[k] == Reread(views[k])
  {
    if k > 0 {
      RereadAt(views[1..], k - 1);
    } else if |views| > 1 {
      RereadAt(views[1..], 0);
    }
  }

  lemma {:induction false} ReadLayersAt(parsed: seq<ParsedSegment>, path: seq<PathNode>, k: nat)
    requires AreParsed(parsed, path) && k < |path|
    ensures FitsNode(parsed[k], path[k]) && ReadLayers(parsed, path)[k] == Qualified(parsed[k].slices, path[k].dims)
  {
    assert FitsNode(parsed[k], path[k]);
    if k > 0 {
      assert forall k :: 0 < k < |path| ==> FitsNode(parsed[k], path[k]);
      ReadLayersAt(parsed[1..], path[1..], k - 1);
    }
  }

  predicate AreIdentifiers(views: seq<SegmentView>)
  {
    forall k :: 0 <= k < |views| ==> IsIdentifier(views[k].name)
  }

  /** What is read of the printed segments. */
  lemma {:induction false} ReadSegmentsAlike(path: seq<PathNode>, walk: seq<SegmentView>)
    requires path != [] && HaveRanks(path, walk) && AreIdentifiers(walk) && LayersPrint(LayersOf(path, walk), path)
    ensures PrintableSegments(walk) && AreParsed(RereadSegments(walk), path)
    ensures AreAlike(AllSlices(ReadLayers(RereadSegments(walk), path)), AllSlices(LayersOf(path, walk)))
  {
    var parsed, layers := RereadSegments(walk), LayersOf(path, walk);
    RereadAt(walk, 0);
    forall k | 0 <= k < |path|
      ensures PrintableSegment(walk[k]) && FitsNode(parsed[k], path[k])
      ensures AreAlike(Qualified(parsed[k].slices, path[k].dims), layers[k])
    {
      RereadAt(walk, k);
      assert HasRank(path[k], walk[k]) && LayerPrints(layers[k], path[k].dims);
      ReadAlike(path[k], walk[k]);
    }
    var read := ReadLayers(parsed, path);
    forall k | 0 <= k < |path|
      ensures AreAlike(read[k], layers[k])
    {
      ReadLayersAt(parsed, path, k);
    }
    AlikeLayers(read, layers, |path|);
  }

  // ----- The whole way

  /** The layers of a walk print when something is asked for along every dimension. */
  lemma {:induction false} RequestPrints(path: seq<PathNode>, walk: seq<SegmentView>, url: Option<seq<SegmentView>>,
                                         startp: seq<nat>, countp: seq<nat>, stridep: seq<nat>)
    requires HaveRanks(path, walk) && (url.Some? ==> HaveRanks(path, url.value))
    requires IsWalkOf(AllSlices(LayersOf(path, walk)), url, path, startp, countp, stridep)
    requires AsksSomething(startp, countp, stridep, |AllDims(path)|)
    ensures LayersPrint(LayersOf(path, walk), path)
  {
    var layers, dims := LayersOf(path, walk), AllDims(path);
    SlicesLength(layers, path, |path|);
    forall d | 0 <= d < |dims|
      ensures PrintsAt(AllSlices(layers)[d], dims[d])
    {
      var us, vs := UrlSlices(url, path), VaraSlices(startp, countp, stridep, dims, |dims|);
      assert IsAskedAt(us, startp, countp, stridep, dims, url.Some?, d);
      assert IsWalkedAt(AllSlices(layers), us, vs, url.Some?, d);
      WalkSlicePrints(startp[d], countp[d], stridep[d], us[d], dims[d], url.Some?);
    }
    LayersFromWalk(layers, path);
  }

  lemma {:induction false} SelectionAlike<T>(xs: seq<Slice>, ys: seq<Slice>, answer: seq<T>, full: seq<T>)
    requires AreAlike(xs, ys)
    ensures PositiveStrides(xs) && PositiveStrides(ys)
    ensures HoldsSelection(answer, xs, full, Identity) <==> HoldsSelection(answer, ys, full, Identity)
  {
    AlikePoints(xs, ys);
  }

  /** The answer holds what is requested, looked up in what the URL selects. */
  ghost predicate HoldsAsked<T>(answer: seq<T>, url: Option<seq<SegmentView>>, path: seq<PathNode>, startp: seq<nat>,
                                countp: seq<nat>, stridep: seq<nat>, full: seq<T>)
    requires EnoughArguments(|AllDims(path)|, startp, countp, stridep)
  {
    && (url.Some? ==> HaveRanks(path, url.value)) && PositiveStrides(UrlSlices(url, path))
    && PositiveStrides(VaraSlices(startp, countp, stridep, AllDims(path), |AllDims(path)|))
    && HoldsRequest(answer, UrlSlices(url, path), VaraSlices(startp, countp, stridep, AllDims(path), |AllDims(path)|),
                    AllDims(path), full, Identity)
  }

  /** The server reads the text of a fetch projection as the same segments, and what it selects by them is what the
      request asks for, looked up in what the URL selects. */
  lemma {:induction false} FetchedText<T>(path: seq<PathNode>, walk: seq<SegmentView>, url: Option<seq<SegmentView>>,
                                          startp: seq<nat>, countp: seq<nat>, stridep: seq<nat>, answer: seq<T>,
                                          full: seq<T>)
    requires path != [] && HaveRanks(path, walk) && (url.Some? ==> HaveRanks(path, url.value)) && AreIdentifiers(walk)
    requires IsWalkOf(AllSlices(LayersOf(path, walk)), url, path, startp, countp, stridep)
    requires AsksSomething(startp, countp, stridep, |AllDims(path)|)
    ensures ParseConstraint(Tokens(PrintProjections([walk]))) == Parsed([RereadSegments(walk)])
    ensures AreParsed(RereadSegments(walk), path)
    ensures var read := AllSlices(ReadLayers(RereadSegments(walk), path));
            && PositiveStrides(read)
            && (HoldsSelection(answer, read, full, Identity)
                <==> HoldsAsked(answer, url, path, startp, countp, stridep, full))
  {
    RequestPrints(path, walk, url, startp, countp, stridep);
    ReadSegmentsAlike(path, walk);
    PrintableSegmentsAreLegal(walk);
    TextIsRead(walk);
    SelectionAlike(AllSlices(ReadLayers(RereadSegments(walk), path)), AllSlices(LayersOf(path, walk)), answer, full);
    SelectionOfWalk(path, AllSlices(LayersOf(path, walk)), url, startp, countp, stridep, answer, full);
  }

  lemma {:induction false} TextIsRead(walk: seq<SegmentView>)
    requires walk != [] && forall seg <- walk :: WrittenSegment(seg)
    ensures ParseConstraint(Tokens(PrintProjections([walk])))
         == if SegmentsAreLegal(walk) then Parsed([RereadSegments(walk)]) else Failed(NC_EDAPCONSTRAINT)
  {
    PrintThenParse([walk]);
    assert [walk][1..] == [];
    assert RereadAll([walk]) == [RereadSegments(walk)] + RereadAll([walk][1..]);
  }

  lemma {:induction false} SelectionOfWalk<T>(path: seq<PathNode>, rs: seq<Slice>, url: Option<seq<SegmentView>>,
                                              startp: seq<nat>, countp: seq<nat>, stridep: seq<nat>, answer: seq<T>,
                                              full: seq<T>)
    requires (url.Some? ==> HaveRanks(path, url.value)) && IsWalkOf(rs, url, path, startp, countp, stridep)
    requires AsksSomething(startp, countp, stridep, |AllDims(path)|)
    ensures PositiveStrides(rs)
    ensures HoldsSelection(answer, rs, full, Identity) <==> HoldsAsked(answer, url, path, startp, countp, stridep, full)
  {
    var dims, us := AllDims(path), UrlSlices(url, path);
    WalkDeclared(us, startp, countp, stridep, dims, url.Some?, rs);
    SelectionIsRequest(us, startp, countp, stridep, dims, url.Some?, rs, dims, answer, full, Identity);
  }

  /** What the server sends for the text is the answer to the request, which is then read in. */
  lemma {:induction false} ServedIsAnswer<T>(path: seq<PathNode>, walk: seq<SegmentView>,
                                             url: Option<seq<SegmentView>>, startp: seq<nat>, countp: seq<nat>,
                                             stridep: seq<nat>, content: Content<T>, held: seq<PathNode>, full: seq<T>)
    requires path != [] && HaveRanks(path, walk) && (url.Some? ==> HaveRanks(path, url.value)) && AreIdentifiers(walk)
    requires IsWalkOf(AllSlices(LayersOf(path, walk)), url, path, startp, countp, stridep)
    requires AsksSomething(startp, countp, stridep, |AllDims(path)|)
    requires HasShape(content, held) && AreCounted(path, held, countp)
    ensures AreParsed(RereadSegments(walk), path)
    ensures var read := AllSlices(ReadLayers(RereadSegments(walk), path));
            && PositiveStrides(read)
            && (HoldsSelection(Flat(content), read, full, Identity)
                <==> IsAnswer(content, held, UrlSlices(url, path), path, startp, countp, stridep, full))
  {
    FetchedText(path, walk, url, startp, countp, stridep, Flat(content), full);
  }

  // ----- A request for nothing

  /** The strides of the URL and of the request, multiplied, leave room for one more step. */
  predicate StridesFit(us: seq<Slice>, stridep: seq<nat>, n: nat)
  {
    n <= |us| && n <= |stridep| && forall d :: 0 <= d < n ==> us[d].stride * (stridep[d] + 1) <= SIZE
  }

  /** The slice can be printed, and is printed as a legal range iff something is asked for; a slice of which nothing is
      asked does not begin at 0. */
  predicate WritesAt(r: Slice, count: nat)
  {
    IsWritten(r) && (IsLegal(r) <==> 0 < count) && (count == 0 ==> 0 < r.first)
  }

  /** The request for no elements ends before it starts. */
  lemma {:induction false} EmptyVara(start: nat, stride: nat, size: nat)
    requires 0 < start < size < SIZE
    ensures VaraSlice(start, 0, stride, size) == Slice(start, stride, 0, start - 1, 0, size)
  {
    assert 0 * stride == 0;
  }

  lemma {:induction false} EmptyComposed(u: Slice, start: nat, stride: nat, size: nat)
    requires 0 < u.stride && 0 < stride && 0 < start && u.last < SIZE
    requires MapIndex(u, start) <= u.last
    ensures var v := Slice(start, stride, 0, start - 1, 0, size);
            && Compose(u, v).Some?
            && var r := Compose(u, v).value;
               && r.first == MapIndex(u, start) && r.stride == u.stride * stride && r.last + u.stride == r.first
               && r.length == (if u.stride == 1 then 0 else SIZE + 1 - u.stride)
               && r.count == CeilDiv(r.length, r.stride)
  {
    ComposeWithEmpty(u, Slice(start, stride, 0, start - 1, 0, size));
  }

  lemma {:induction false} ManySteps(length: nat, stride: nat)
    requires 0 < stride < length
    ensures CeilDiv(length, stride) > 1
  {
    var n := length + (stride - 1);
    assert n == (n / stride) * stride + n % stride;
    if n / stride <= 1 {
      MulOrder(n / stride, 1, stride);
    }
  }

  /** Its printed last index lies before its first. */
  lemma {:induction false} EmptyIsIllegal(r: Slice, step: nat)
    requires 0 < step <= r.first < SIZE && 0 < r.stride && r.stride + step <= SIZE
    requires r.length == (if step == 1 then 0 else SIZE + 1 - step) && r.count == CeilDiv(r.length, r.stride)
    ensures IsWritten(r) && !IsLegal(r)
  {
    if step == 1 {
      Quotient(r.stride - 1, r.stride, 0);
    } else {
      ManySteps(r.length, r.stride);
      ModOf(r.first + r.length, SIZE, 1, r.first + 1 - step);
    }
  }

  lemma {:induction false} MappedBounds(u: Slice, start: nat)
    requires 0 < u.stride && 0 < start < |Indices(u)|
    ensures u.stride <= MapIndex(u, start) <= u.last
  {
    StepsAt(u.first, u.last + 1, u.stride, start);
    MulOrder(1, start, u.stride);
  }

  /** Nothing asked for is printed as an illegal range. */
  lemma {:induction false} EmptyWrites(start: nat, stride: nat, u: Slice, size: nat, matched: bool)
    requires IsAsked(start, 0, stride, u, size, matched) && IsSane(start, 0, stride)
    requires u.stride * (stride + 1) <= SIZE
    ensures 0 < VaraSlice(start, 0, stride, size).stride
    ensures WritesAt(WalkSlice(u, VaraSlice(start, 0, stride, size), matched), 0)
  {
    EmptyVara(start, stride, size);
    var v := VaraSlice(start, 0, stride, size);
    assert u.stride * (stride + 1) == u.stride * stride + u.stride;
    if matched {
      MappedBounds(u, start);
      EmptyComposed(u, start, stride, size);
      EmptyIsIllegal(MergeSlice(u, v), u.stride);
    } else {
      Quotient(stride - 1, stride, 0);
      EmptyIsIllegal(v, 1);
    }
  }

  lemma {:induction false} WalkSliceWrites(start: nat, count: nat, stride: nat, u: Slice, size: nat, matched: bool)
    requires IsAsked(start, count, stride, u, size, matched) && IsSane(start, count, stride)
    requires u.stride * (stride + 1) <= SIZE
    ensures 0 < VaraSlice(start, count, stride, size).stride
    ensures WritesAt(WalkSlice(u, VaraSlice(start, count, stride, size), matched), count)
  {
    if count == 0 {
      EmptyWrites(start, stride, u, size, matched);
    } else {
      WalkSlicePrints(start, count, stride, u, size, matched);
      PrintableIsLegal(WalkSlice(u, VaraSlice(start, count, stride, size), matched));
    }
  }

  lemma {:induction false} LegalEach(slices: seq<Slice>)
    ensures AreLegal(slices) <==> forall j :: 0 <= j < |slices| ==> IsLegal(slices[j])
  {
    if slices != [] {
      LegalEach(slices[1..]);
      assert forall j :: 0 < j < |slices| ==> slices[j] == slices[1..][j - 1];
    }
  }

  /** A segment is printed legally iff something is asked for along all of its dimensions. */
  lemma {:induction false} SegmentWrites(n: PathNode, v: SegmentView, counts: seq<nat>)
    requires HasRank(n, v) && IsIdentifier(v.name) && |counts| == |n.dims|
    requires forall j {:trigger WritesAt(LayerOf(n, v)[j], counts[j])} :: 0 <= j < |n.dims| ==>
               WritesAt(LayerOf(n, v)[j], counts[j])
    ensures WrittenSegment(v)
    ensures AreLegal(Shown(v)) <==> forall j :: 0 <= j < |n.dims| ==> 0 < counts[j]
  {
    var layer := LayerOf(n, v);
    assert InUse(v) == layer;
    forall s | s in layer
      ensures IsWritten(s)
    {
      var j :| 0 <= j < |layer| && layer[j] == s;
      assert WritesAt(layer[j], counts[j]);
    }
    LegalEach(layer);
    forall j | 0 <= j < |n.dims|
      ensures (IsLegal(layer[j]) <==> 0 < counts[j]) && (counts[j] == 0 ==> !IsWhole(layer[j]))
    {
      assert WritesAt(layer[j], counts[j]);
    }
    if j :| 0 <= j < |n.dims| && counts[j] == 0 {
      assert layer[j] in InUse(v);
    }
  }

  lemma {:induction false} LegalSegments(segments: seq<SegmentView>)
    ensures SegmentsAreLegal(segments) <==> forall k :: 0 <= k < |segments| ==> AreLegal(Shown(segments[k]))
  {
    if segments != [] {
      LegalSegments(segments[1..]);
      assert forall k :: 0 < k < |segments| ==> segments[k] == segments[1..][k - 1];
    }
  }

  /** The counts along the dimensions of node k. */
  function CountsAt(path: seq<PathNode>, countp: seq<nat>, k: nat): (counts: seq<nat>)
    requires k < |path| && RankBefore(path, |path|) <= |countp|
    ensures |counts| == |path[k].dims| && RankBefore(path, k) + |counts| <= RankBefore(path, |path|)
    ensures forall j {:trigger counts[j]} :: 0 <= j < |counts| ==> counts[j] == countp[RankBefore(path, k) + j]
  {
    RankBeforeGrows(path, k + 1, |path|);
    countp[RankBefore(path, k)..RankBefore(path, k + 1)]
  }

  predicate AsksAlong(path: seq<PathNode>, countp: seq<nat>, k: nat)
    requires k < |path| && RankBefore(path, |path|) <= |countp|
  {
    forall j :: 0 <= j < |path[k].dims| ==> 0 < CountsAt(path, countp, k)[j]
  }

  lemma {:induction false} WritesAlong(us: seq<Slice>, startp: seq<nat>, countp: seq<nat>, stridep: seq<nat>,
                                       dims: seq<nat>, matched: bool, rs: seq<Slice>, d: nat)
    requires AllAsked(us, startp, countp, stridep, dims, matched) && AllSane(startp, countp, stridep, |dims|)
    requires AreWalked(rs, us, VaraSlices(startp, countp, stridep, dims, |dims|), matched)
    requires StridesFit(us, stridep, |dims|) && d < |dims|
    ensures WritesAt(rs[d], countp[d])
  {
    assert IsAskedAt(us, startp, countp, stridep, dims, matched, d);
    assert IsWalkedAt(rs, us, VaraSlices(startp, countp, stridep, dims, |dims|), matched, d);
    WalkSliceWrites(startp[d], countp[d], stridep[d], us[d], dims[d], matched);
  }

  /** Slice j of node k. */
  lemma {:induction false} WalkWritesAt(path: seq<PathNode>, layers: Layers, url: Option<seq<SegmentView>>,
                                        startp: seq<nat>, countp: seq<nat>, stridep: seq<nat>, k: nat, j: nat)
    requires HaveSizes(layers, path) && (url.Some? ==> HaveRanks(path, url.value))
    requires IsWalkOf(AllSlices(layers), url, path, startp, countp, stridep)
    requires AllSane(startp, countp, stridep, |AllDims(path)|) && k < |path| && j < |path[k].dims|
    requires StridesFit(UrlSlices(url, path), stridep, |AllDims(path)|)
    ensures WritesAt(layers[k][j], CountsAt(path, countp, k)[j])
  {
    PlaceOf(layers, path, |path|, k, j);
    WritesAlong(UrlSlices(url, path), startp, countp, stridep, AllDims(path), url.Some?, AllSlices(layers),
                RankBefore(path, k) + j);
  }

  lemma {:induction false} WalkWrites(path: seq<PathNode>, walk: seq<SegmentView>, url: Option<seq<SegmentView>>,
                                      startp: seq<nat>, countp: seq<nat>, stridep: seq<nat>, k: nat)
    requires HaveRanks(path, walk) && (url.Some? ==> HaveRanks(path, url.value)) && AreIdentifiers(walk)
    requires IsWalkOf(AllSlices(LayersOf(path, walk)), url, path, startp, countp, stridep)
    requires AllSane(startp, countp, stridep, |AllDims(path)|) && k < |path|
    requires StridesFit(UrlSlices(url, path), stridep, |AllDims(path)|)
    ensures WrittenSegment(walk[k]) && (AreLegal(Shown(walk[k])) <==> AsksAlong(path, countp, k))
  {
    assert HasRank(path[k], walk[k]) && LayersOf(path, walk)[k] == LayerOf(path[k], walk[k]);
    var counts := CountsAt(path, countp, k);
    forall j | 0 <= j < |path[k].dims|
      ensures WritesAt(LayerOf(path[k], walk[k])[j], counts[j])
    {
      WalkWritesAt(path, LayersOf(path, walk), url, startp, countp, stridep, k, j);
    }
    SegmentWrites(path[k], walk[k], counts);
  }

  lemma {:induction false} WalkIsLegal(path: seq<PathNode>, walk: seq<SegmentView>, url: Option<seq<SegmentView>>,
                                       startp: seq<nat>, countp: seq<nat>, stridep: seq<nat>)
    requires path != [] && HaveRanks(path, walk) && (url.Some? ==> HaveRanks(path, url.value)) && AreIdentifiers(walk)
    requires IsWalkOf(AllSlices(LayersOf(path, walk)), url, path, startp, countp, stridep)
    requires AllSane(startp, countp, stridep, |AllDims(path)|)
    requires StridesFit(UrlSlices(url, path), stridep, |AllDims(path)|)
    ensures forall seg <- walk :: WrittenSegment(seg)
    ensures SegmentsAreLegal(walk) <==> forall d :: 0 <= d < |AllDims(path)| ==> 0 < countp[d]
  {
    forall k | 0 <= k < |path|
      ensures WrittenSegment(walk[k]) && (AreLegal(Shown(walk[k])) <==> AsksAlong(path, countp, k))
    {
      WalkWrites(path, walk, url, startp, countp, stridep, k);
    }
    LegalSegments(walk);
    EachCount(path, countp);
  }

  /** The text of a fetch projection is read iff something is asked for along every dimension. A dimension with an
      accepted count of zero is printed as a range that ends before it starts. */
  lemma {:induction false} TextIsLegal(path: seq<PathNode>, walk: seq<SegmentView>, url: Option<seq<SegmentView>>,
                                       startp: seq<nat>, countp: seq<nat>, stridep: seq<nat>)
    requires path != [] && HaveRanks(path, walk) && (url.Some? ==> HaveRanks(path, url.value)) && AreIdentifiers(walk)
    requires IsWalkOf(AllSlices(LayersOf(path, walk)), url, path, startp, countp, stridep)
    requires AllSane(startp, countp, stridep, |AllDims(path)|)
    requires StridesFit(UrlSlices(url, path), stridep, |AllDims(path)|)
    ensures ParseConstraint(Tokens(PrintProjections([walk])))
         == if forall d :: 0 <= d < |AllDims(path)| ==> 0 < countp[d] then Parsed([RereadSegments(walk)])
            else Failed(NC_EDAPCONSTRAINT)
  {
    WalkIsLegal(path, walk, url, startp, countp, stridep);
    TextIsRead(walk);
  }

  lemma {:induction false} EachCount(path: seq<PathNode>, countp: seq<nat>)
    requires RankBefore(path, |path|) <= |countp|
    ensures (forall k {:trigger AsksAlong(path, countp, k)} :: 0 <= k < |path| ==> AsksAlong(path, countp, k))
       <==> forall d :: 0 <= d < RankBefore(path, |path|) ==> 0 < countp[d]
  {
    if forall k {:trigger AsksAlong(path, countp, k)} :: 0 <= k < |path| ==> AsksAlong(path, countp, k) {
      forall d | 0 <= d < RankBefore(path, |path|)
        ensures 0 < countp[d]
      {
        var k, j := NodeOf(path, |path|, d);
        assert AsksAlong(path, countp, k) && CountsAt(path, countp, k)[j] == countp[d];
      }
    }
  }

  /** One of two rows is asked for, and none of three columns: [0][1:0] goes into the URL. */
  lemma {:induction false} NoColumns()
    ensures Accepted(0, 1, 1, 2) && Accepted(1, 0, 1, 3)
    ensures var slices := [VaraSlice(0, 1, 1, 2), VaraSlice(1, 0, 1, 3)];
            PrintSlices(slices) == "[0][1:0]" && !AreLegal(slices)
  {
    EmptyVara(1, 1, 3);
    var slices := [VaraSlice(0, 1, 1, 2), VaraSlice(1, 0, 1, 3)];
    assert Decimal(1) == "1" && Decimal(0) == "0";
    assert PrintSlice(slices[0]) == "[0]" && PrintSlice(slices[1]) == "[1:0]" && !IsLegal(slices[1]);
    assert slices[1..] == [slices[1]] && slices[1..][1..] == [];
    assert PrintSlices(slices[1..]) == "[1:0]" + "";
    assert !AreLegal(slices[1..]);
  }
}
