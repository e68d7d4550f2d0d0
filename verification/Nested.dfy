/** Reading a variable that lies inside other nodes: the descent through grids, structures and arrays of structures. */
module Nested {
  import opened Ranges
  import opened Slices
  import opened Boxes
  import opened Segments
  import opened Odometer
  import opened Offsets
  import opened Requests
  import opened Readers

  // ----- Slices that can be walked over an array

  /** A slice that stays inside a dimension of the given size. */
  predicate SliceFits(r: Slice, size: nat)
  {
    0 < r.stride && r.declsize == size && r.first < size && r.last < size
  }

  /** The slices can be walked over an array of the given dimensions. */
  predicate IsWalkReady(rs: seq<Slice>, dims: seq<nat>)
  {
    |rs| == |dims| && forall d {:trigger SliceFits(rs[d], dims[d])} :: 0 <= d < |dims| ==> SliceFits(rs[d], dims[d])
  }

  lemma {:induction false} ReadyStrides(rs: seq<Slice>, dims: seq<nat>)
    requires IsWalkReady(rs, dims)
    ensures PositiveStrides(rs)
  {
    forall r | r in rs
      ensures 0 < r.stride
    {
      var d :| 0 <= d < |rs| && rs[d] == r;
      assert SliceFits(rs[d], dims[d]);
    }
  }

  lemma {:induction false} ClampAt(dims: seq<Dim>, i: nat)
    requires i < |dims|
    ensures |ClampAll(dims)| == |dims| && ClampAll(dims)[i] == Clamp(dims[i])
  {
    ClampSizes(dims);
    if i > 0 {
      ClampAt(dims[1..], i - 1);
    }
  }

  lemma {:induction false} WheelFits(r: Slice, size: nat)
    requires SliceFits(r, size)
    ensures Fits(WheelOf(r)) && Fits(Clamp(WheelOf(r)))
  {
    forall x | x in Digits(WheelOf(r))
      ensures x < r.declsize
    {
      StepsMember(r.first, r.last + 1, r.stride, x);
    }
    forall x | x in Digits(Clamp(WheelOf(r)))
      ensures x < r.declsize
    {
      StepsMember(r.first, Clamp(WheelOf(r)).stop, r.stride, x);
    }
  }

  /** The walk stays inside the array. */
  lemma {:induction false} ReadyFits(rs: seq<Slice>, dims: seq<nat>)
    requires IsWalkReady(rs, dims)
    ensures PositiveStrides(rs) && AllFit(WalkWheels(WheelsOf(rs)))
    ensures DeclSizes(WheelsOf(rs)) == dims && DeclSizes(WalkWheels(WheelsOf(rs))) == dims
  {
    ReadyStrides(rs, dims);
    var ws := WheelsOf(rs);
    var walk := WalkWheels(ws);
    WalkSizes(ws);
    forall d | 0 <= d < |dims|
      ensures DeclSizes(ws)[d] == dims[d]
    {
      assert SliceFits(rs[d], dims[d]);
    }
    forall w | w in walk
      ensures Fits(w)
    {
      var i :| 0 <= i < |walk| && walk[i] == w;
      assert SliceFits(rs[i], dims[i]);
      WheelFits(rs[i], dims[i]);
      if i > 0 {
        ClampAt(ws[1..], i - 1);
        assert w == ClampAll(ws[1..])[i - 1] && ws[1..][i - 1] == ws[i];
      }
    }
  }

  // ----- The dimensions and the slices along a path

  /** The dimensions of the first i nodes of a path, in order. */
  function DimsUpTo(path: seq<PathNode>, i: nat): (dims: seq<nat>)
    requires i <= |path|
    ensures |dims| == RankBefore(path, i)
  {
    if i == 0 then [] else DimsUpTo(path, i - 1) + path[i - 1].dims
  }

  function AllDims(path: seq<PathNode>): seq<nat>
  {
    DimsUpTo(path, |path|)
  }

  lemma {:induction false} DimsCons(path: seq<PathNode>, i: nat)
    requires 0 < i <= |path|
    ensures DimsUpTo(path, i) == path[0].dims + DimsUpTo(path[1..], i - 1)
  {
    if i > 1 {
      DimsCons(path, i - 1);
      assert path[1..][i - 2] == path[i - 1];
    }
  }

  /** The slices in use of each segment, from the outermost to the variable's. */
  type Layers = seq<seq<Slice>>

  function SlicesUpTo(layers: Layers, i: nat): seq<Slice>
    requires i <= |layers|
  {
    if i == 0 then [] else SlicesUpTo(layers, i - 1) + layers[i - 1]
  }

  function AllSlices(layers: Layers): seq<Slice>
  {
    SlicesUpTo(layers, |layers|)
  }

  lemma {:induction false} SlicesCons(layers: Layers, i: nat)
    requires 0 < i <= |layers|
    ensures SlicesUpTo(layers, i) == layers[0] + SlicesUpTo(layers[1..], i - 1)
  {
    if i > 1 {
      SlicesCons(layers, i - 1);
      assert layers[1..][i - 2] == layers[i - 1];
    }
  }

  /** Each node's slices can be walked over its dimensions. */
  predicate LayersReady(layers: Layers, path: seq<PathNode>)
  {
    && |layers| == |path|
    && forall k {:trigger IsWalkReady(layers[k], path[k].dims)} :: 0 <= k < |path| ==>
         IsWalkReady(layers[k], path[k].dims)
  }

  lemma {:induction false} ReadyTail(layers: Layers, path: seq<PathNode>)
    requires LayersReady(layers, path) && path != []
    ensures IsWalkReady(layers[0], path[0].dims) && LayersReady(layers[1..], path[1..])
  {
    forall k | 0 <= k < |path| - 1
      ensures IsWalkReady(layers[1..][k], path[1..][k].dims)
    {
      assert IsWalkReady(layers[k + 1], path[k + 1].dims);
    }
  }

  // ----- The walk of all odometers together

  /** Every layer is walked with an odometer of its own. */
  function WalkOf(layers: Layers, path: seq<PathNode>): seq<Dim>
    requires LayersReady(layers, path)
  {
    if path == [] then []
    else
      ReadyTail(layers, path);
      ReadyStrides(layers[0], path[0].dims);
      WalkWheels(WheelsOf(layers[0])) + WalkOf(layers[1..], path[1..])
  }

  lemma {:induction false} WalkOfFits(layers: Layers, path: seq<PathNode>)
    requires LayersReady(layers, path)
    ensures AllFit(WalkOf(layers, path)) && DeclSizes(WalkOf(layers, path)) == AllDims(path)
  {
    if path != [] {
      ReadyTail(layers, path);
      ReadyFits(layers[0], path[0].dims);
      WalkOfFits(layers[1..], path[1..]);
      DeclSizesConcat(WalkWheels(WheelsOf(layers[0])), WalkOf(layers[1..], path[1..]));
      DimsCons(path, |path|);
    }
  }

  /** Memory holds, in order, the elements that the nested walk comes to. */
  ghost predicate HoldsNested<T>(memory: seq<T>, layers: Layers, path: seq<PathNode>, data: seq<T>, convert: T -> T)
    requires LayersReady(layers, path)
  {
    var points := Points(WalkOf(layers, path));
    |memory| == |points| && Holds(memory, data, AllDims(path), points, convert)
  }

  // ----- When the nested walk is the box of the slices

  /** The layer's first slice selects something, if it has one. */
  predicate BeginsFull(layer: seq<Slice>)
  {
    layer == [] || layer[0].first <= layer[0].last
  }

  predicate IsFull(layer: seq<Slice>)
  {
    forall i :: 0 <= i < |layer| ==> layer[i].first <= layer[i].last
  }

  predicate AllBeginFull(layers: Layers)
  {
    forall k :: 0 <= k < |layers| ==> BeginsFull(layers[k])
  }

  predicate AreFull(layers: Layers)
  {
    forall k :: 0 <= k < |layers| ==> IsFull(layers[k])
  }

  /** Some layer selects nothing along its first dimension, or every slice selects something. */
  predicate IsNestedExact(layers: Layers)
  {
    !AllBeginFull(layers) || AreFull(layers)
  }

  lemma {:induction false} FullTail(layers: Layers)
    requires layers != []
    ensures AllBeginFull(layers) <==> BeginsFull(layers[0]) && AllBeginFull(layers[1..])
    ensures AreFull(layers) <==> IsFull(layers[0]) && AreFull(layers[1..])
  {
    assert forall k :: 0 < k < |layers| ==> layers[k] == layers[1..][k - 1];
  }

  lemma {:induction false} NonEmptyConcat(a: seq<Dim>, b: seq<Dim>)
    ensures AllNonEmpty(a + b) <==> AllNonEmpty(a) && AllNonEmpty(b)
  {
    if AllNonEmpty(a + b) {
      forall d | d in a || d in b
        ensures d in a + b
      {
      }
    }
  }

  lemma {:induction false} LayerWalk(layer: seq<Slice>)
    requires PositiveStrides(layer)
    ensures AllNonEmpty(WalkWheels(WheelsOf(layer))) <==> BeginsFull(layer)
    ensures AllNonEmpty(WheelsOf(layer)) <==> IsFull(layer)
    ensures IsFull(layer) ==> WalkWheels(WheelsOf(layer)) == WheelsOf(layer)
  {
    var ws := WheelsOf(layer);
    NonEmptyWheels(layer);
    if layer != [] {
      ClampAllNonEmpty(ws[1..]);
      NonEmptyConcat([ws[0]], ClampAll(ws[1..]));
      NonEmptyConcat([ws[0]], ws[1..]);
      assert ws == [ws[0]] + ws[1..];
    }
  }

  lemma {:induction false} AllWheels(layers: Layers, path: seq<PathNode>)
    requires LayersReady(layers, path)
    ensures PositiveStrides(AllSlices(layers)) && DeclSizes(WheelsOf(AllSlices(layers))) == AllDims(path)
    ensures path != [] ==>
              && PositiveStrides(layers[0]) && PositiveStrides(AllSlices(layers[1..]))
              && WheelsOf(AllSlices(layers)) == WheelsOf(layers[0]) + WheelsOf(AllSlices(layers[1..]))
  {
    if path != [] {
      ReadyTail(layers, path);
      ReadyFits(layers[0], path[0].dims);
      AllWheels(layers[1..], path[1..]);
      SlicesCons(layers, |layers|);
      WheelsConcat(layers[0], AllSlices(layers[1..]));
      DeclSizesConcat(WheelsOf(layers[0]), WheelsOf(AllSlices(layers[1..])));
      DimsCons(path, |path|);
    }
  }

  lemma {:induction false} BoxIsFull(layers: Layers, path: seq<PathNode>)
    requires LayersReady(layers, path)
    ensures PositiveStrides(AllSlices(layers))
    ensures AllNonEmpty(WheelsOf(AllSlices(layers))) <==> AreFull(layers)
  {
    AllWheels(layers, path);
    if path != [] {
      ReadyTail(layers, path);
      BoxIsFull(layers[1..], path[1..]);
      FullTail(layers);
      LayerWalk(layers[0]);
      NonEmptyConcat(WheelsOf(layers[0]), WheelsOf(AllSlices(layers[1..])));
    }
  }

  lemma {:induction false} WalkBeginsFull(layers: Layers, path: seq<PathNode>)
    requires LayersReady(layers, path)
    ensures AllNonEmpty(WalkOf(layers, path)) <==> AllBeginFull(layers)
  {
    if path != [] {
      ReadyTail(layers, path);
      ReadyStrides(layers[0], path[0].dims);
      WalkBeginsFull(layers[1..], path[1..]);
      FullTail(layers);
      LayerWalk(layers[0]);
      NonEmptyConcat(WalkWheels(WheelsOf(layers[0])), WalkOf(layers[1..], path[1..]));
    }
  }

  lemma {:induction false} FullWalk(layers: Layers, path: seq<PathNode>)
    requires LayersReady(layers, path) && AreFull(layers)
    ensures PositiveStrides(AllSlices(layers)) && WalkOf(layers, path) == WheelsOf(AllSlices(layers))
  {
    AllWheels(layers, path);
    if path != [] {
      ReadyTail(layers, path);
      ReadyStrides(layers[0], path[0].dims);
      FullTail(layers);
      FullWalk(layers[1..], path[1..]);
      LayerWalk(layers[0]);
    }
  }

  /** What the nested walk has read is what all slices together select iff some layer selects nothing along its first
      dimension, or every slice selects something. */
  lemma {:induction false} NestedIsSelection<T>(layers: Layers, path: seq<PathNode>, memory: seq<T>, data: seq<T>,
                                                convert: T -> T)
    requires LayersReady(layers, path) && HoldsNested(memory, layers, path, data, convert)
    ensures PositiveStrides(AllSlices(layers))
    ensures HoldsSelection(memory, AllSlices(layers), data, convert) <==> IsNestedExact(layers)
  {
    AllWheels(layers, path);
    BoxIsFull(layers, path);
    WalkBeginsFull(layers, path);
    var box, walk := WheelsOf(AllSlices(layers)), WalkOf(layers, path);
    if !AllNonEmpty(box) {
      SomeEmptyNoPoints(box);
    }
    if AreFull(layers) {
      FullWalk(layers, path);
    }
    if AllNonEmpty(walk) {
      PointsFirst(walk);
    } else {
      SomeEmptyNoPoints(walk);
      assert Holds(memory, data, AllDims(path), [], convert);
    }
  }

  // ----- What the data layer holds

  /** The content of the next node on the path: an atomic variable's elements, the field of a single instance, or the
      instances of an array of structures. */
  datatype Content<T> = Atomic(data: seq<T>) | Field(field: Content<T>) | Instances(elements: seq<Content<T>>)

  ghost predicate HasShape<T>(c: Content<T>, path: seq<PathNode>)
    decreases |path|
  {
    && path != []
    && if |path| == 1 then c.Atomic? && |c.data| == Product(path[0].dims)
       else if path[0].dims == [] then c.Field? && HasShape(c.field, path[1..])
       else c.Instances? && |c.elements| == Product(path[0].dims) && forall e <- c.elements :: HasShape(e, path[1..])
  }

  /** All elements, in row-major order over the dimensions of all nodes. */
  function Flat<T>(c: Content<T>): seq<T>
  {
    match c
    case Atomic(data) => data
    case Field(field) => Flat(field)
    case Instances(elements) => FlatAll(elements)
  }

  function FlatAll<T>(elements: seq<Content<T>>): seq<T>
  {
    if elements == [] then [] else Flat(elements[0]) + FlatAll(elements[1..])
  }

  lemma {:induction false} ProductConcat(a: seq<nat>, b: seq<nat>)
    ensures Product(a + b) == Product(a) * Product(b)
  {
    if a == [] {
      assert a + b == b;
    } else {
      assert (a + b)[1..] == a[1..] + b;
      ProductConcat(a[1..], b);
      assert a[0] * (Product(a[1..]) * Product(b)) == (a[0] * Product(a[1..])) * Product(b);
    }
  }

  lemma {:induction false} FlatAllSize<T>(elements: seq<Content<T>>, n: nat)
    requires forall e <- elements :: |Flat(e)| == n
    ensures |FlatAll(elements)| == |elements| * n
  {
    if elements != [] {
      FlatAllSize(elements[1..], n);
      assert (|elements| - 1) * n + n == |elements| * n;
    }
  }

  lemma {:induction false} FlatAllAt<T>(elements: seq<Content<T>>, n: nat, i: nat, j: nat)
    requires (forall e <- elements :: |Flat(e)| == n) && i < |elements| && j < n
    ensures i * n + j < |FlatAll(elements)| && FlatAll(elements)[i * n + j] == Flat(elements[i])[j]
  {
    if i == 0 {
      assert 0 * n + j == j;
    } else {
      FlatAllAt(elements[1..], n, i - 1, j);
      PreviousRow(i, j, n);
      var m: nat := (i - 1) * n + j;
      assert (Flat(elements[0]) + FlatAll(elements[1..]))[n + m] == FlatAll(elements[1..])[m];
    }
  }

  lemma {:induction false} FlatSize<T>(c: Content<T>, path: seq<PathNode>)
    requires HasShape(c, path)
    ensures |Flat(c)| == Product(AllDims(path))
    decreases |path|
  {
    DimsCons(path, |path|);
    if |path| == 1 {
      assert path[0].dims + [] == path[0].dims;
    } else if path[0].dims == [] {
      FlatSize(c.field, path[1..]);
      assert [] + AllDims(path[1..]) == AllDims(path[1..]);
    } else {
      forall e | e in c.elements
        ensures |Flat(e)| == Product(AllDims(path[1..]))
      {
        FlatSize(e, path[1..]);
      }
      FlatAllSize(c.elements, Product(AllDims(path[1..])));
      ProductConcat(path[0].dims, AllDims(path[1..]));
    }
  }

  // ----- The descent

  /** The slices in use of a segment, and the same slices declared with the sizes that the data layer holds. */
  predicate IsHeld(slices: seq<Slice>, held: seq<Slice>, sizes: seq<nat>)
  {
    AllWalkable(slices) && HoldsWholes(slices, sizes) && held == Redeclared(slices, sizes)
  }

  /** The segments of a walk, and their slices in use, with the sizes that the data layer holds. */
  ghost predicate AreLayers(segments: seq<DCEsegment>, layers: Layers, path: seq<PathNode>)
    reads segments
  {
    && |segments| == |layers| == |path|
    && forall k {:trigger IsLayer(segments, layers, path, k)} :: 0 <= k < |path| ==> IsLayer(segments, layers, path, k)
  }

  ghost predicate IsLayer(segments: seq<DCEsegment>, layers: Layers, path: seq<PathNode>, k: nat)
    requires k < |segments| == |layers| == |path|
    reads segments[k]
  {
    && segments[k].Valid() && segments[k].rank == |path[k].dims| <= NC_MAX_VAR_DIMS
    && IsHeld(segments[k].slices[..segments[k].rank], layers[k], path[k].dims)
  }

  lemma {:induction false} HeldWalk(slices: seq<Slice>, held: seq<Slice>, sizes: seq<nat>)
    requires IsHeld(slices, held, sizes)
    ensures PositiveStrides(slices) && PositiveStrides(held) && Walked(WheelsOf(held)) == Walked(WheelsOf(slices))
  {
    StridesOf(slices, 0);
    RedeclaredWheels(slices, sizes);
    DeclaredWalk(WheelsOf(slices), sizes);
  }

  lemma {:induction false} LastWalk<T>(layers: Layers, path: seq<PathNode>, memory: seq<T>, data: seq<T>,
                                       convert: T -> T)
    requires LayersReady(layers, path) && |path| == 1
    ensures IsWalkReady(layers[0], path[0].dims) && PositiveStrides(layers[0])
    ensures WalkOf(layers, path) == WalkWheels(WheelsOf(layers[0])) && AllDims(path) == path[0].dims
    ensures |data| == Product(path[0].dims) ==> CoversWalk(WheelsOf(layers[0]), data)
    ensures layers[0] != [] && HoldsWalk(memory, layers[0], data, convert) ==>
              HoldsNested(memory, layers, path, data, convert)
  {
    ReadyTail(layers, path);
    ReadyFits(layers[0], path[0].dims);
    assert DimsUpTo(path, 0) + path[0].dims == path[0].dims;
  }

  method ReadScalar<T>(data: seq<T>, requireconversion: bool,
                       convert: T -> T, ghost layers: Layers, ghost path: seq<PathNode>)
    returns (memory: seq<T>)
    requires LayersReady(layers, path) && |path| == 1 && path[0].dims == [] && |data| == 1
    ensures HoldsNested(memory, layers, path, data, if requireconversion then convert else Identity)
  {
    memory := [if requireconversion then convert(data[0]) else data[0]];
    LastWalk(layers, path, memory, data, convert);
    assert IsElement(memory[0], data, [], [], if requireconversion then convert else Identity);
  }

  method ReadArray<T>(segment: DCEsegment, data: seq<T>, requireconversion: bool, convert: T -> T, ghost layers: Layers,
                      path: seq<PathNode>) returns (memory: seq<T>)
    requires LayersReady(layers, path) && |path| == 1 && |data| == Product(path[0].dims)
    requires segment.Valid() && 0 < segment.rank <= NC_MAX_VAR_DIMS
    requires IsHeld(segment.slices[..segment.rank], layers[0], path[0].dims)
    ensures HoldsNested(memory, layers, path, data, if requireconversion then convert else Identity)
  {
    LastWalk(layers, path, [], data, convert);
    HeldWalk(segment.slices[..segment.rank], layers[0], path[0].dims);
    var err;
    err, memory := Extract(segment, segment.rank, path[0].dims, data, requireconversion, convert);
    LastWalk(layers, path, memory, data, if requireconversion then convert else Identity);
  }

  /** The variable itself: a scalar is read directly. */
  method ReadLeaf<T>(segment: DCEsegment, data: seq<T>, requireconversion: bool, convert: T -> T, ghost layers: Layers,
                     path: seq<PathNode>) returns (memory: seq<T>)
    requires AreLayers([segment], layers, path) && LayersReady(layers, path)
    requires |path| == 1 && |data| == Product(path[0].dims)
    ensures HoldsNested(memory, layers, path, data, if requireconversion then convert else Identity)
  {
    assert IsLayer([segment], layers, path, 0);
    if segment.rank == 0 {
      memory := ReadScalar(data, requireconversion, convert, layers, path);
    } else {
      memory := ReadArray(segment, data, requireconversion, convert, layers, path);
    }
  }

  lemma {:induction false} ThroughField<T>(layers: Layers, path: seq<PathNode>, memory: seq<T>, data: seq<T>,
                                           convert: T -> T)
    requires LayersReady(layers, path) && path != [] && path[0].dims == []
    requires LayersReady(layers[1..], path[1..]) && HoldsNested(memory, layers[1..], path[1..], data, convert)
    ensures HoldsNested(memory, layers, path, data, convert)
  {
    ReadyTail(layers, path);
    DimsCons(path, |path|);
    assert WalkWheels(WheelsOf(layers[0])) + WalkOf(layers[1..], path[1..]) == WalkOf(layers[1..], path[1..]);
    assert [] + AllDims(path[1..]) == AllDims(path[1..]);
  }

  /** Memory holds the rows of the given outer points. */
  ghost predicate HoldsRows<T>(memory: seq<T>, heads: seq<seq<nat>>, rest: seq<seq<nat>>, dims: seq<nat>, data: seq<T>,
                               convert: T -> T)
  {
    |memory| == |Cross(heads, rest)| && Holds(memory, data, dims, Cross(heads, rest), convert)
  }

  lemma {:induction false} HoldsConcat<T>(a: seq<T>, b: seq<T>, dims: seq<nat>, data: seq<T>, ps: seq<seq<nat>>,
                                          qs: seq<seq<nat>>, convert: T -> T)
    requires |a| == |ps| && Holds(a, data, dims, ps, convert) && |b| == |qs| && Holds(b, data, dims, qs, convert)
    ensures Holds(a + b, data, dims, ps + qs, convert)
  {
    forall k | 0 <= k < |a + b|
      ensures IsElement((a + b)[k], data, dims, (ps + qs)[k], convert)
    {
      if k >= |a| {
        assert IsElement(b[k - |a|], data, dims, qs[k - |a|], convert);
      }
    }
  }

  lemma {:induction false} CrossNext(walked: seq<seq<nat>>, i: nat, rest: seq<seq<nat>>)
    requires i < |walked|
    ensures Cross(walked[..i + 1], rest) == Cross(walked[..i], rest) + Extended(walked[i], rest)
  {
    var p := [walked[i]];
    assert walked[..i + 1] == walked[..i] + p;
    CrossConcat(walked[..i], p, rest);
    assert p[1..] == [];
    assert Extended(walked[i], rest) + Cross([], rest) == Extended(walked[i], rest);
  }

  lemma {:induction false} OneMoreRow<T>(memory: seq<T>, more: seq<T>, walked: seq<seq<nat>>, i: nat,
                                         rest: seq<seq<nat>>, dims: seq<nat>, data: seq<T>, convert: T -> T)
    requires i < |walked| && HoldsRows(memory, walked[..i], rest, dims, data, convert)
    requires |more| == |rest| && Holds(more, data, dims, Extended(walked[i], rest), convert)
    ensures HoldsRows(memory + more, walked[..i + 1], rest, dims, data, convert)
  {
    CrossNext(walked, i, rest);
    HoldsConcat(memory, more, dims, data, Cross(walked[..i], rest), Extended(walked[i], rest), convert);
  }

  /** The instances of an array of structures, each holding the rest of the path. */
  ghost predicate AreInstances<T>(elements: seq<Content<T>>, sizes: seq<nat>, tail: seq<PathNode>)
  {
    |elements| == Product(sizes) && forall e <- elements :: HasShape(e, tail)
  }

  /** What is read from the instance at an outer point are the elements at that point followed by the inner ones. */
  lemma {:induction false} RowOfInstance<T>(elements: seq<Content<T>>, sizes: seq<nat>, tail: seq<PathNode>,
                                            p: seq<nat>, more: seq<T>, rest: seq<seq<nat>>, convert: T -> T)
    requires AreInstances(elements, sizes, tail) && |p| == |sizes| && Offset(sizes, p) < |elements| && |more| == |rest|
    requires Holds(more, Flat(elements[Offset(sizes, p)]), AllDims(tail), rest, convert)
    ensures Holds(more, FlatAll(elements), sizes + AllDims(tail), Extended(p, rest), convert)
  {
    var inner, o := AllDims(tail), Offset(sizes, p);
    forall e | e in elements
      ensures |Flat(e)| == Product(inner)
    {
      FlatSize(e, tail);
    }
    forall k | 0 <= k < |more|
      ensures IsElement(more[k], FlatAll(elements), sizes + inner, Extended(p, rest)[k], convert)
    {
      assert IsElement(more[k], Flat(elements[o]), inner, rest[k], convert);
      ExtendedAt(p, rest, k);
      OffsetConcat(sizes, inner, p, rest[k]);
      FlatAllAt(elements, Product(inner), o, Offset(inner, rest[k]));
    }
  }

  /** The instance at an outer point that is visited. */
  lemma {:induction false} InstanceAt(rs: seq<Slice>, dims: seq<nat>, k: nat)
    requires IsWalkReady(rs, dims) && PositiveStrides(rs) && k < |Walked(WheelsOf(rs))|
    ensures var p := Walked(WheelsOf(rs))[k];
            |p| == |dims| && Offset(dims, p) < Product(dims)
  {
    ReadyFits(rs, dims);
    PointWithin(WalkWheels(WheelsOf(rs)), k);
    OffsetBound(dims, Walked(WheelsOf(rs))[k]);
  }

  lemma {:induction false} AllRows<T>(layers: Layers, path: seq<PathNode>, memory: seq<T>, data: seq<T>,
                                      convert: T -> T)
    requires LayersReady(layers, path) && |path| > 1
    ensures PositiveStrides(layers[0]) && LayersReady(layers[1..], path[1..])
    ensures var rest, dims := Points(WalkOf(layers[1..], path[1..])), path[0].dims + AllDims(path[1..]);
            layers[0] != [] && HoldsRows(memory, Walked(WheelsOf(layers[0])), rest, dims, data, convert) ==>
              HoldsNested(memory, layers, path, data, convert)
  {
    ReadyTail(layers, path);
    ReadyStrides(layers[0], path[0].dims);
    PointsConcat(WalkWheels(WheelsOf(layers[0])), WalkOf(layers[1..], path[1..]));
    DimsCons(path, |path|);
  }

  lemma {:induction false} LayersTail(segments: seq<DCEsegment>, layers: Layers, path: seq<PathNode>)
    requires AreLayers(segments, layers, path) && path != []
    ensures AreLayers(segments[1..], layers[1..], path[1..]) && IsLayer(segments, layers, path, 0)
  {
    forall k | 0 <= k < |path| - 1
      ensures IsLayer(segments[1..], layers[1..], path[1..], k)
    {
      assert IsLayer(segments, layers, path, k + 1);
    }
  }

  /** Move to the variable at the end of the path, and read it. What is left of the path says how deep the descent is.
      */
  method MoveTo<T>(content: Content<T>, path: seq<PathNode>, segments: seq<DCEsegment>, requireconversion: bool,
                   convert: T -> T, ghost layers: Layers) returns (memory: seq<T>)
    requires AreLayers(segments, layers, path) && LayersReady(layers, path) && HasShape(content, path)
    ensures HoldsNested(memory, layers, path, Flat(content), if requireconversion then convert else Identity)
    decreases |path|, 1
  {
    LayersTail(segments, layers, path);
    ReadyTail(layers, path);
    match content
    case Atomic(data) =>
      assert segments == [segments[0]];
      memory := ReadLeaf(segments[0], data, requireconversion, convert, layers, path);
    case Field(field) =>
      memory := MoveTo(field, path[1..], segments[1..], requireconversion, convert, layers[1..]);
      ThroughField(layers, path, memory, Flat(content), if requireconversion then convert else Identity);
    case Instances(elements) =>
      memory := MoveToEach(elements, path, segments, requireconversion, convert, layers);
  }

  /** Move to each instance of an array of structures that the odometer visits. */
  method MoveToEach<T>(elements: seq<Content<T>>, path: seq<PathNode>, segments: seq<DCEsegment>,
                       requireconversion: bool, convert: T -> T, ghost layers: Layers) returns (memory: seq<T>)
    requires AreLayers(segments, layers, path) && LayersReady(layers, path) && HasShape(Instances(elements), path)
    ensures HoldsNested(memory, layers, path, FlatAll(elements), if requireconversion then convert else Identity)
    decreases |path|, 0
  {
    LayersTail(segments, layers, path);
    ReadyTail(layers, path);
    ReadyStrides(layers[0], path[0].dims);
    memory := WalkInstances(segments[0], elements, path[0].dims, path[1..], segments[1..], requireconversion, convert,
                            layers[0], layers[1..]);
    AllRows(layers, path, memory, FlatAll(elements), if requireconversion then convert else Identity);
  }

  /** The odometer walks over the instances, and the rows of those behind it have been read. */
  ghost predicate IsWalking<T>(odom: Dapodometer, i: nat, memory: seq<T>, rest: seq<seq<nat>>, dims: seq<nat>,
                               data: seq<T>, convert: T -> T)
    reads odom.index, odom.start, odom.stride, odom.stop, odom.declsize
  {
    OnWalk(odom, i) && HoldsRows(memory, Walked(odom.dims)[..i], rest, dims, data, convert)
  }

  method WalkInstances<T>(segment: DCEsegment, elements: seq<Content<T>>, sizes: seq<nat>, tail: seq<PathNode>,
                          inner: seq<DCEsegment>, requireconversion: bool, convert: T -> T, ghost rs: seq<Slice>,
                          ghost layers: Layers) returns (memory: seq<T>)
    requires segment.Valid() && 0 < segment.rank <= NC_MAX_VAR_DIMS
    requires IsHeld(segment.slices[..segment.rank], rs, sizes)
    requires IsWalkReady(rs, sizes) && PositiveStrides(rs) && AreInstances(elements, sizes, tail)
    requires LayersReady(layers, tail) && AreLayers(inner, layers, tail)
    ensures HoldsRows(memory, Walked(WheelsOf(rs)), Points(WalkOf(layers, tail)), sizes + AllDims(tail),
                      FlatAll(elements), if requireconversion then convert else Identity)
    decreases |tail|, 5
  {
    ghost var rest, dims, data := Points(WalkOf(layers, tail)), sizes + AllDims(tail), FlatAll(elements);
    ghost var c := if requireconversion then convert else Identity;
    HeldWalk(segment.slices[..segment.rank], rs, sizes);
    assert segment.slices[0..segment.rank] == segment.slices[..segment.rank];
    var odom := new Dapodometer.FromSegment(segment, 0, segment.rank);
    memory := StartWalking(odom, rest, dims, data, c);
    ghost var i := 0;
    while odom.More()
      invariant fresh(odom.index) && IsWalking(odom, i, memory, rest, dims, data, c)
      invariant AreLayers(inner, layers, tail)
      decreases |Walked(odom.dims)| - i
    {
      memory := MoveToNext(odom, i, memory, elements, sizes, tail, inner, requireconversion, convert, rs, layers);
      i := i + 1;
    }
    RowsDone(odom, i, memory, rest, dims, data, c);
  }

  lemma {:induction false} RowsDone<T>(odom: Dapodometer, i: nat, memory: seq<T>, rest: seq<seq<nat>>, dims: seq<nat>,
                                       data: seq<T>, convert: T -> T)
    requires IsWalking(odom, i, memory, rest, dims, data, convert) && !odom.More()
    ensures HoldsRows(memory, Walked(odom.dims), rest, dims, data, convert)
  {
    assert Walked(odom.dims)[..i] == Walked(odom.dims);
  }

  method StartWalking<T>(odom: Dapodometer, ghost rest: seq<seq<nat>>, ghost dims: seq<nat>, ghost data: seq<T>,
                         ghost convert: T -> T) returns (memory: seq<T>)
    requires odom.Valid() && odom.Position() == Starts(odom.dims)
    ensures memory == [] && IsWalking(odom, 0, memory, rest, dims, data, convert)
  {
    StartsOnWalk(odom);
    memory := [];
  }

  /** Read the field of the instance at the current point, and turn the odometer. */
  method MoveToNext<T>(odom: Dapodometer, ghost i: nat, memory: seq<T>, elements: seq<Content<T>>, sizes: seq<nat>,
                       tail: seq<PathNode>, inner: seq<DCEsegment>, requireconversion: bool, convert: T -> T,
                       ghost rs: seq<Slice>, ghost layers: Layers) returns (longer: seq<T>)
    requires IsWalkReady(rs, sizes) && PositiveStrides(rs) && Walked(odom.dims) == Walked(WheelsOf(rs))
    requires AreInstances(elements, sizes, tail) && LayersReady(layers, tail) && AreLayers(inner, layers, tail)
    requires IsWalking(odom, i, memory, Points(WalkOf(layers, tail)), sizes + AllDims(tail), FlatAll(elements),
                       if requireconversion then convert else Identity)
    requires odom.More()
    modifies odom.index
    ensures IsWalking(odom, i + 1, longer, Points(WalkOf(layers, tail)), sizes + AllDims(tail), FlatAll(elements),
                      if requireconversion then convert else Identity)
    ensures AreLayers(inner, layers, tail)
    decreases |tail|, 4
  {
    var more := ReadCurrent(odom, i, elements, sizes, tail, inner, requireconversion, convert, rs, layers);
    AddRow(odom, i, memory, more, Points(WalkOf(layers, tail)), sizes + AllDims(tail), FlatAll(elements),
           if requireconversion then convert else Identity);
    longer := memory + more;
  }

  /** Read the field of the instance at the current point. */
  method ReadCurrent<T>(odom: Dapodometer, ghost i: nat, elements: seq<Content<T>>, sizes: seq<nat>,
                        tail: seq<PathNode>, inner: seq<DCEsegment>, requireconversion: bool, convert: T -> T,
                        ghost rs: seq<Slice>, ghost layers: Layers) returns (more: seq<T>)
    requires OnWalk(odom, i) && odom.More()
    requires IsWalkReady(rs, sizes) && PositiveStrides(rs) && Walked(odom.dims) == Walked(WheelsOf(rs))
    requires AreInstances(elements, sizes, tail) && LayersReady(layers, tail) && AreLayers(inner, layers, tail)
    ensures |more| == |Points(WalkOf(layers, tail))|
    ensures Holds(more, FlatAll(elements), sizes + AllDims(tail),
                  Extended(odom.Position(), Points(WalkOf(layers, tail))),
                  if requireconversion then convert else Identity)
    decreases |tail|, 3
  {
    InstanceAt(rs, sizes, i);
    more := ReadInstance(odom.index[..odom.rank], elements, sizes, tail, inner, requireconversion, convert, layers);
  }

  /** The row of the current point has been read: turn the odometer. */
  method AddRow<T>(odom: Dapodometer, ghost i: nat, ghost memory: seq<T>, ghost more: seq<T>, ghost rest: seq<seq<nat>>,
                   ghost dims: seq<nat>, ghost data: seq<T>, ghost convert: T -> T)
    requires IsWalking(odom, i, memory, rest, dims, data, convert) && odom.More()
    requires |more| == |rest| && Holds(more, data, dims, Extended(odom.Position(), rest), convert)
    modifies odom.index
    ensures IsWalking(odom, i + 1, memory + more, rest, dims, data, convert)
  {
    OneMoreRow(memory, more, Walked(odom.dims), i, rest, dims, data, convert);
    var turned := Turn(odom, i);
  }

  /** Read the field of the instance at an outer point. */
  method ReadInstance<T>(point: seq<nat>, elements: seq<Content<T>>, sizes: seq<nat>, tail: seq<PathNode>,
                         inner: seq<DCEsegment>, requireconversion: bool, convert: T -> T, ghost layers: Layers)
    returns (more: seq<T>)
    requires AreInstances(elements, sizes, tail) && LayersReady(layers, tail) && AreLayers(inner, layers, tail)
    requires |point| == |sizes| && Offset(sizes, point) < Product(sizes)
    ensures |more| == |Points(WalkOf(layers, tail))|
    ensures Holds(more, FlatAll(elements), sizes + AllDims(tail), Extended(point, Points(WalkOf(layers, tail))),
                  if requireconversion then convert else Identity)
    decreases |tail|, 2
  {
    var element := elements[Offset(sizes, point)];
    more := MoveTo(element, tail, inner, requireconversion, convert, layers);
    RowOfInstance(elements, sizes, tail, point, more, Points(WalkOf(layers, tail)),
                  if requireconversion then convert else Identity);
  }
}
