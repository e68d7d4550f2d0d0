/** Extracting the elements that a segment selects from an array held in the cache. */
module Readers {
  import opened Wrappers
  import opened Ranges
  import opened Slices
  import opened Boxes
  import opened Segments
  import opened Odometer
  import opened Offsets
  import opened Requests

  /** The data access layer: count consecutive elements of a row-major array, from the element at index on. */
  function ReadN<T>(data: seq<T>, sizes: seq<nat>, index: seq<nat>, count: nat): Option<seq<T>>
    requires |index| == |sizes|
  {
    var offset := Offset(sizes, index);
    if offset + count <= |data| then Some(data[offset..offset + count]) else None
  }

  function Identity<T>(x: T): T { x }

  /** Element k of memory is the converted element of data at the k-th point. */
  ghost predicate Holds<T>(memory: seq<T>, data: seq<T>, sizes: seq<nat>, points: seq<seq<nat>>, convert: T -> T)
  {
    && |memory| <= |points|
    && forall k {:trigger IsElement(memory[k], data, sizes, points[k], convert)} :: 0 <= k < |memory| ==>
         IsElement(memory[k], data, sizes, points[k], convert)
  }

  ghost predicate IsElement<T>(x: T, data: seq<T>, sizes: seq<nat>, point: seq<nat>, convert: T -> T)
  {
    |point| == |sizes| && Offset(sizes, point) < |data| && x == convert(data[Offset(sizes, point)])
  }

  /** The box stays inside an array declared with the wheels' sizes. */
  ghost predicate Covers<T>(dims: seq<Dim>, data: seq<T>)
  {
    AllFit(dims) && |data| == Product(DeclSizes(dims))
  }

  /** So does the walk: empty wheels after the first must start inside it. */
  ghost predicate CoversWalk<T>(dims: seq<Dim>, data: seq<T>)
  {
    Covers(WalkWheels(dims), data)
  }

  // ----- The sizes that the data layer holds

  /** The wheels, declared with other sizes: a cached array may hold less of a dimension than there is. */
  function DeclaredAs(dims: seq<Dim>, sizes: seq<nat>): (r: seq<Dim>)
    requires |dims| == |sizes|
    ensures |r| == |dims| && DeclSizes(r) == sizes
  {
    if dims == [] then []
    else [Wheel(dims[0].start, dims[0].stop, dims[0].stride, sizes[0])] + DeclaredAs(dims[1..], sizes[1..])
  }

  /** The slices, declared with other sizes. */
  function Redeclared(slices: seq<Slice>, sizes: seq<nat>): (r: seq<Slice>)
    requires |slices| == |sizes|
    ensures |r| == |slices| && forall i :: 0 <= i < |r| ==> r[i] == slices[i].(declsize := sizes[i])
  {
    seq(|slices|, i requires 0 <= i < |slices| => slices[i].(declsize := sizes[i]))
  }

  /** The declared sizes do not matter for what is walked. */
  lemma {:induction false} DeclaredPoints(dims: seq<Dim>, sizes: seq<nat>)
    requires |dims| == |sizes|
    ensures Points(DeclaredAs(dims, sizes)) == Points(dims)
  {
    if dims != [] {
      DeclaredPoints(dims[1..], sizes[1..]);
      assert DeclaredAs(dims, sizes)[1..] == DeclaredAs(dims[1..], sizes[1..]);
    }
  }

  lemma {:induction false} DeclaredClamp(dims: seq<Dim>, sizes: seq<nat>)
    requires |dims| == |sizes|
    ensures |ClampAll(dims)| == |dims| && ClampAll(DeclaredAs(dims, sizes)) == DeclaredAs(ClampAll(dims), sizes)
  {
    if dims != [] {
      var declared := DeclaredAs(dims, sizes);
      DeclaredClamp(dims[1..], sizes[1..]);
      assert declared[1..] == DeclaredAs(dims[1..], sizes[1..]);
      assert ClampAll(dims)[1..] == ClampAll(dims[1..]);
    }
  }

  lemma {:induction false} DeclaredWalk(dims: seq<Dim>, sizes: seq<nat>)
    requires |dims| == |sizes|
    ensures |WalkWheels(dims)| == |dims| && WalkWheels(DeclaredAs(dims, sizes)) == DeclaredAs(WalkWheels(dims), sizes)
    ensures Walked(DeclaredAs(dims, sizes)) == Walked(dims)
  {
    if dims != [] {
      var declared, walk := DeclaredAs(dims, sizes), WalkWheels(dims);
      DeclaredClamp(dims[1..], sizes[1..]);
      assert declared[1..] == DeclaredAs(dims[1..], sizes[1..]);
      assert walk[1..] == ClampAll(dims[1..]);
      DeclaredPoints(walk, sizes);
    }
  }

  lemma {:induction false} RedeclaredWheels(slices: seq<Slice>, sizes: seq<nat>)
    requires |slices| == |sizes| && PositiveStrides(slices)
    ensures PositiveStrides(Redeclared(slices, sizes))
    ensures WheelsOf(Redeclared(slices, sizes)) == DeclaredAs(WheelsOf(slices), sizes)
  {
    var held := Redeclared(slices, sizes);
    forall s | s in held
      ensures 0 < s.stride
    {
      var i :| 0 <= i < |held| && held[i] == s;
      assert slices[i] in slices;
    }
    if slices != [] {
      assert held[1..] == Redeclared(slices[1..], sizes[1..]);
      RedeclaredWheels(slices[1..], sizes[1..]);
      assert WheelsOf(slices)[1..] == WheelsOf(slices[1..]);
    }
  }

  lemma {:induction false} DeclaredAt(dims: seq<Dim>, sizes: seq<nat>, i: nat)
    requires i < |dims| == |sizes|
    ensures DeclaredAs(dims, sizes)[i] == Wheel(dims[i].start, dims[i].stop, dims[i].stride, sizes[i])
  {
    if i > 0 {
      DeclaredAt(dims[1..], sizes[1..], i - 1);
    }
  }

  lemma {:induction false} DeclaredConcat(a: seq<Dim>, b: seq<Dim>, sizes: seq<nat>)
    requires |a| + |b| == |sizes|
    ensures DeclaredAs(a + b, sizes) == DeclaredAs(a, sizes[..|a|]) + DeclaredAs(b, sizes[|a|..])
  {
    if a == [] {
      assert a + b == b && sizes[0..] == sizes;
    } else {
      assert (a + b)[1..] == a[1..] + b;
      assert sizes[1..][..|a| - 1] == sizes[..|a|][1..] && sizes[1..][|a| - 1..] == sizes[|a|..];
      DeclaredConcat(a[1..], b, sizes[1..]);
    }
  }

  /** For slices that select something, the run walks exactly the box, and the counts give its size. */
  lemma {:induction false} HeaderWalk(slices: seq<Slice>)
    requires AllMeetHeader(slices) && PositiveStrides(slices) && slices != []
    ensures Walked(WheelsOf(slices)) == Points(WheelsOf(slices)) != []
    ensures CountProduct(slices) == |Points(WheelsOf(slices))|
  {
    var dims := WheelsOf(slices);
    CountProductIsPoints(slices);
    assert dims == [dims[0]] + dims[1..];
    WalkedIsBox(dims);
    PointsFirst(dims);
  }

  lemma {:induction false} WholeSuffix(slices: seq<Slice>)
    requires AllMeetHeader(slices) && PositiveStrides(slices)
    requires forall s <- slices :: IsWhole(s)
    ensures AllWhole(WheelsOf(slices))
  {
    var dims := WheelsOf(slices);
    forall d | d in dims
      ensures IsWholeWheel(d)
    {
      var i :| 0 <= i < |dims| && dims[i] == d;
      assert slices[i] in slices;
    }
  }

  /** The element of one point of the walk lies in the data. */
  lemma {:induction false} ReadsInside<T>(dims: seq<Dim>, data: seq<T>, k: nat)
    requires Covers(dims, data) && k < |Points(dims)|
    ensures |Points(dims)[k]| == |dims|
    ensures Offset(DeclSizes(dims), Points(dims)[k]) < |data|
  {
    PointWithin(dims, k);
    OffsetBound(DeclSizes(dims), Points(dims)[k]);
  }

  /** Element-wise reading: one element for each point the odometer visits. */
  method ReadEach<T>(odom: Dapodometer, sizes: seq<nat>, data: seq<T>, convert: T -> T)
    returns (err: ErrCode, memory: seq<T>)
    requires odom.Valid() && odom.Position() == Starts(odom.dims)
    requires |sizes| == |odom.dims| && CoversWalk(DeclaredAs(odom.dims, sizes), data)
    modifies odom.index
    ensures err == NC_NOERR
    ensures |memory| == |Walked(odom.dims)| && Holds(memory, data, sizes, Walked(odom.dims), convert)
  {
    StartsOnWalk(odom);
    memory := [];
    while odom.More()
      invariant OnWalk(odom, |memory|)
      invariant Holds(memory, data, sizes, Walked(odom.dims), convert)
      decreases |Walked(odom.dims)| - |memory|
    {
      memory := ReadNext(odom, sizes, data, convert, memory);
    }
    err := NC_NOERR;
  }

  /** Read the element at the current point, and turn the odometer. */
  method ReadNext<T>(odom: Dapodometer, sizes: seq<nat>, data: seq<T>, convert: T -> T, memory: seq<T>)
    returns (longer: seq<T>)
    requires |sizes| == |odom.dims| && CoversWalk(DeclaredAs(odom.dims, sizes), data)
    requires OnWalk(odom, |memory|) && odom.More() && Holds(memory, data, sizes, Walked(odom.dims), convert)
    modifies odom.index
    ensures OnWalk(odom, |longer|) && |longer| == |memory| + 1
    ensures Holds(longer, data, sizes, Walked(odom.dims), convert)
  {
    ghost var k := |memory|;
    WalkInside(odom.dims, sizes, data, k);
    var value := FetchOne(odom.index[..odom.rank], sizes, data, convert);
    OneMoreElement(memory, value, data, sizes, Walked(odom.dims), convert);
    longer := memory + [value];
    var more := Turn(odom, k);
  }

  /** Read and convert the element at a point. */
  method FetchOne<T>(point: seq<nat>, sizes: seq<nat>, data: seq<T>, convert: T -> T) returns (value: T)
    requires |point| == |sizes| && Offset(sizes, point) < |data|
    ensures IsElement(value, data, sizes, point, convert)
  {
    var one := ReadN(data, sizes, point, 1);
    value := convert(one.value[0]);
  }

  lemma {:induction false} OneMoreElement<T>(memory: seq<T>, x: T, data: seq<T>, sizes: seq<nat>, points: seq<seq<nat>>,
                                             convert: T -> T)
    requires Holds(memory, data, sizes, points, convert) && |memory| < |points|
    requires IsElement(x, data, sizes, points[|memory|], convert)
    ensures Holds(memory + [x], data, sizes, points, convert)
  {
    forall k | 0 <= k < |memory| + 1
      ensures IsElement((memory + [x])[k], data, sizes, points[k], convert)
    {
      assert k < |memory| ==> IsElement(memory[k], data, sizes, points[k], convert);
    }
  }

  /** The element of one point of the walk lies in the data. */
  lemma {:induction false} WalkInside<T>(dims: seq<Dim>, sizes: seq<nat>, data: seq<T>, k: nat)
    requires |sizes| == |dims| && CoversWalk(DeclaredAs(dims, sizes), data) && k < |Walked(dims)|
    ensures |Walked(dims)[k]| == |dims|
    ensures Offset(sizes, Walked(dims)[k]) < |data|
  {
    var declared := DeclaredAs(dims, sizes);
    DeclaredWalk(dims, sizes);
    WalkSizes(declared);
    ReadsInside(WalkWheels(declared), data, k);
  }

  /** Chunked reading: the odometer walks the wheels before the whole ones; those are read as one chunk. */
  method ReadChunks<T>(odom: Dapodometer, ghost prefix: seq<Dim>, ghost whole: seq<Dim>, sizes: seq<nat>, count: nat,
                       data: seq<T>) returns (err: ErrCode, memory: seq<T>)
    requires odom.Valid() && odom.Position() == Starts(odom.dims) && |prefix| == odom.rank
    requires odom.rank + |whole| <= NC_MAX_VAR_DIMS && Points(prefix) == Walked(odom.dims)
    requires AllWhole(whole) && count == |Points(whole)| > 0
    requires sizes == DeclSizes(prefix + whole) && Covers(prefix + whole, data)
    modifies odom.index
    ensures err == NC_NOERR
    ensures |memory| == |Points(prefix + whole)| && Holds(memory, data, sizes, Points(prefix + whole), Identity)
  {
    StartsOnWalk(odom);
    ghost var c := 0;
    memory := [];
    while odom.More()
      invariant OnWalk(odom, c)
      invariant |memory| == c * count
      invariant Holds(memory, data, sizes, Points(prefix + whole), Identity)
      decreases |Points(prefix)| - c
    {
      memory := ReadChunk(odom, prefix, whole, sizes, count, data, c, memory);
      c := c + 1;
    }
    ChunkCount(prefix, whole);
    err := NC_NOERR;
  }

  /** Read the chunk at the current point, and turn the odometer. */
  method ReadChunk<T>(odom: Dapodometer, ghost prefix: seq<Dim>, ghost whole: seq<Dim>, sizes: seq<nat>, count: nat,
                      data: seq<T>, ghost c: nat, memory: seq<T>) returns (longer: seq<T>)
    requires OnWalk(odom, c) && odom.More() && odom.rank + |whole| <= NC_MAX_VAR_DIMS
    requires |prefix| == odom.rank && Points(prefix) == Walked(odom.dims)
    requires AllWhole(whole) && count == |Points(whole)| > 0
    requires sizes == DeclSizes(prefix + whole) && Covers(prefix + whole, data)
    requires |memory| == c * count && Holds(memory, data, sizes, Points(prefix + whole), Identity)
    modifies odom.index
    ensures OnWalk(odom, c + 1) && |longer| == (c + 1) * count
    ensures Holds(longer, data, sizes, Points(prefix + whole), Identity)
  {
    PaddedIndex(odom, c, |whole|);
    var chunk := FetchChunk(odom.index[..|sizes|], prefix, whole, sizes, count, data, c);
    AppendChunk(prefix, whole, sizes, data, c, memory, chunk);
    longer := memory + chunk;
    var more := Turn(odom, c);
  }

  method FetchChunk<T>(index: seq<nat>, ghost prefix: seq<Dim>, ghost whole: seq<Dim>, sizes: seq<nat>, count: nat,
                       data: seq<T>, ghost c: nat) returns (chunk: seq<T>)
    requires AllWhole(whole) && count == |Points(whole)| > 0
    requires sizes == DeclSizes(prefix + whole) && Covers(prefix + whole, data)
    requires c < |Points(prefix)| && index == Points(prefix)[c] + Zeros(|whole|)
    ensures |Points(prefix)[c]| == |prefix|
    ensures ReadN(data, sizes, Points(prefix)[c] + Zeros(|whole|), count) == Some(chunk)
  {
    ChunkInside(prefix, whole, sizes, data, c);
    chunk := ReadN(data, sizes, index, count).value;
  }

  /** Beyond its rank the index of an odometer holds zeros. */
  lemma {:induction false} PaddedIndex(odom: Dapodometer, c: nat, n: nat)
    requires OnWalk(odom, c) && c < |Walked(odom.dims)| && odom.rank + n <= NC_MAX_VAR_DIMS
    ensures odom.index[..odom.rank + n] == Walked(odom.dims)[c] + Zeros(n)
  {
    assert odom.Position() == Walked(odom.dims)[c];
  }

  lemma {:induction false} ChunkPoint(prefix: seq<Dim>, whole: seq<Dim>, c: nat, j: nat) returns (k: nat)
    requires AllWhole(whole) && c < |Points(prefix)| && j < |Points(whole)|
    ensures |Points(prefix)[c]| == |prefix|
    ensures k == c * |Points(whole)| + j && k < |Points(prefix + whole)|
    ensures |Points(prefix + whole)[k]| == |prefix + whole|
    ensures Offset(DeclSizes(prefix + whole), Points(prefix + whole)[k])
         == Offset(DeclSizes(prefix + whole), Points(prefix)[c] + Zeros(|whole|)) + j
  {
    ChunksRefineElements(prefix, whole, c, j);
    k := c * |Points(whole)| + j;
  }

  /** Element j of the c-th chunk lies inside the data, j elements after the start of the chunk. */
  lemma {:induction false} ChunkAt<T>(prefix: seq<Dim>, whole: seq<Dim>, sizes: seq<nat>, data: seq<T>, c: nat, j: nat)
    returns (k: nat)
    requires AllWhole(whole) && sizes == DeclSizes(prefix + whole) && Covers(prefix + whole, data)
    requires c < |Points(prefix)| && j < |Points(whole)|
    ensures |Points(prefix)[c]| == |prefix|
    ensures k == c * |Points(whole)| + j && k < |Points(prefix + whole)| && |Points(prefix + whole)[k]| == |sizes|
    ensures Offset(sizes, Points(prefix + whole)[k]) == Offset(sizes, Points(prefix)[c] + Zeros(|whole|)) + j < |data|
  {
    k := ChunkPoint(prefix, whole, c, j);
    ReadsInside(prefix + whole, data, k);
  }

  /** A chunk lies inside the data. */
  lemma {:induction false} ChunkInside<T>(prefix: seq<Dim>, whole: seq<Dim>, sizes: seq<nat>, data: seq<T>, c: nat)
    requires AllWhole(whole) && sizes == DeclSizes(prefix + whole) && Covers(prefix + whole, data)
    requires c < |Points(prefix)| && |Points(whole)| > 0
    ensures |Points(prefix)[c]| == |prefix|
    ensures Offset(sizes, Points(prefix)[c] + Zeros(|whole|)) + |Points(whole)| <= |data|
  {
    var k := ChunkAt(prefix, whole, sizes, data, c, |Points(whole)| - 1);
  }

  /** Element j of the c-th chunk is the element of the corresponding point of the full walk. */
  lemma {:induction false} ChunkElement<T>(prefix: seq<Dim>, whole: seq<Dim>, sizes: seq<nat>, data: seq<T>, c: nat,
                                           chunk: seq<T>, j: nat)
    requires AllWhole(whole) && sizes == DeclSizes(prefix + whole) && Covers(prefix + whole, data)
    requires c < |Points(prefix)| && |Points(prefix)[c]| == |prefix| && j < |Points(whole)|
    requires ReadN(data, sizes, Points(prefix)[c] + Zeros(|whole|), |Points(whole)|) == Some(chunk)
    ensures c * |Points(whole)| + j < |Points(prefix + whole)| && |chunk| == |Points(whole)|
    ensures IsElement(chunk[j], data, sizes, Points(prefix + whole)[c * |Points(whole)| + j], Identity)
  {
    var k := ChunkAt(prefix, whole, sizes, data, c, j);
  }

  /** Appending the c-th chunk appends the elements of the next points of the full walk. */
  lemma {:induction false} AppendChunk<T>(prefix: seq<Dim>, whole: seq<Dim>, sizes: seq<nat>, data: seq<T>, c: nat,
                                          memory: seq<T>, chunk: seq<T>)
    requires AllWhole(whole) && sizes == DeclSizes(prefix + whole) && Covers(prefix + whole, data)
    requires c < |Points(prefix)| && |Points(prefix)[c]| == |prefix| && |Points(whole)| > 0
    requires |memory| == c * |Points(whole)| && Holds(memory, data, sizes, Points(prefix + whole), Identity)
    requires ReadN(data, sizes, Points(prefix)[c] + Zeros(|whole|), |Points(whole)|) == Some(chunk)
    ensures |memory + chunk| == (c + 1) * |Points(whole)|
    ensures Holds(memory + chunk, data, sizes, Points(prefix + whole), Identity)
  {
    var points := Points(prefix + whole);
    ChunkElement(prefix, whole, sizes, data, c, chunk, |Points(whole)| - 1);
    forall k | |memory| <= k < |memory + chunk|
      ensures IsElement((memory + chunk)[k], data, sizes, points[k], Identity)
    {
      ChunkElement(prefix, whole, sizes, data, c, chunk, k - |memory|);
    }
    NextChunk(c, |chunk|);
  }

  lemma {:induction false} NextChunk(c: nat, n: nat)
    ensures c * n + n == (c + 1) * n
  {
  }

  /** A walk over whole dimensions only reads the array from front to back. */
  lemma {:induction false} WholeIsInOrder<T>(dims: seq<Dim>, sizes: seq<nat>, data: seq<T>)
    requires AllWhole(dims) && sizes == DeclSizes(dims) && Covers(dims, data)
    ensures |data| == |Points(dims)| && Holds(data, data, sizes, Points(dims), Identity)
  {
    WholeOffsets(dims, 0);
    forall k | 0 <= k < |data|
      ensures IsElement(data[k], data, sizes, Points(dims)[k], Identity)
    {
      WholeOffsets(dims, k);
    }
  }

  /** A slice that the reader can meet: when it is whole, it also selects something and counts right. An empty slice,
      as for a count of zero, is never whole. */
  predicate IsWalkable(s: Slice)
  {
    0 < s.stride && (IsWhole(s) ==> MeetsHeader(s))
  }

  predicate AllWalkable(slices: seq<Slice>)
  {
    forall s <- slices :: IsWalkable(s)
  }

  /** Only the first slice may be empty without the others being walked. */
  predicate IsExact(slices: seq<Slice>)
    requires slices != []
  {
    slices[0].last < slices[0].first || forall i :: 0 < i < |slices| ==> slices[i].first <= slices[i].last
  }

  /** Slices that are whole from safeindex on can be read in chunks. */
  lemma {:induction false} ChunkPlan(slices: seq<Slice>, safeindex: nat)
    requires AllWalkable(slices) && 0 < safeindex < |slices|
    requires forall i :: safeindex <= i < |slices| ==> IsWhole(slices[i])
    ensures PositiveStrides(slices) && PositiveStrides(slices[..safeindex]) && PositiveStrides(slices[safeindex..])
    ensures var prefix, whole := WheelsOf(slices[..safeindex]), WheelsOf(slices[safeindex..]);
            && WheelsOf(slices) == prefix + whole
            && AllWhole(whole)
            && CountProduct(slices[safeindex..]) == |Points(whole)| > 0
  {
    TailIsWhole(slices, safeindex);
    StridesOf(slices, safeindex);
    WheelsConcat(slices[..safeindex], slices[safeindex..]);
    assert slices == slices[..safeindex] + slices[safeindex..];
    HeaderWalk(slices[safeindex..]);
    WholeSuffix(slices[safeindex..]);
  }

  lemma {:induction false} TailIsWhole(slices: seq<Slice>, safeindex: nat)
    requires AllWalkable(slices) && safeindex <= |slices|
    requires forall i :: safeindex <= i < |slices| ==> IsWhole(slices[i])
    ensures AllMeetHeader(slices[safeindex..]) && forall s <- slices[safeindex..] :: IsWhole(s)
  {
    forall s | s in slices[safeindex..]
      ensures MeetsHeader(s) && IsWhole(s)
    {
      var i :| safeindex <= i < |slices| && slices[i] == s;
      assert IsWalkable(slices[i]);
    }
  }

  lemma {:induction false} StridesOf(slices: seq<Slice>, n: nat)
    requires AllWalkable(slices) && n <= |slices|
    ensures PositiveStrides(slices) && PositiveStrides(slices[..n]) && PositiveStrides(slices[n..])
  {
    forall s | s in slices
      ensures 0 < s.stride
    {
      assert IsWalkable(s);
    }
    assert forall s <- slices[..n] :: s in slices;
    assert forall s <- slices[n..] :: s in slices;
  }

  lemma {:induction false} WheelsConcat(a: seq<Slice>, b: seq<Slice>)
    requires PositiveStrides(a) && PositiveStrides(b)
    ensures PositiveStrides(a + b) && WheelsOf(a + b) == WheelsOf(a) + WheelsOf(b)
  {
    assert forall s <- a + b :: s in a || s in b;
  }

  /** What the slices of a segment select from the cached array, in order. */
  ghost predicate HoldsSelection<T>(memory: seq<T>, slices: seq<Slice>, data: seq<T>, convert: T -> T)
    requires PositiveStrides(slices)
  {
    var dims := WheelsOf(slices);
    |memory| == |Points(dims)| && Holds(memory, data, DeclSizes(dims), Points(dims), convert)
  }

  /** What the odometer visits in the cached array, in order. */
  ghost predicate HoldsWalk<T>(memory: seq<T>, slices: seq<Slice>, data: seq<T>, convert: T -> T)
    requires PositiveStrides(slices)
  {
    var dims := WheelsOf(slices);
    |memory| == |Walked(dims)| && Holds(memory, data, DeclSizes(dims), Walked(dims), convert)
  }

  lemma {:induction false} NonEmptyWheels(slices: seq<Slice>)
    requires PositiveStrides(slices)
    ensures AllNonEmpty(WheelsOf(slices)) <==> forall i :: 0 <= i < |slices| ==> slices[i].first <= slices[i].last
  {
    var dims := WheelsOf(slices);
    if AllNonEmpty(dims) {
      forall i | 0 <= i < |slices|
        ensures slices[i].first <= slices[i].last
      {
        assert dims[i] in dims;
      }
    }
  }

  lemma {:induction false} ExactWalk(slices: seq<Slice>)
    requires AllWalkable(slices) && slices != [] && PositiveStrides(slices)
    ensures Walked(WheelsOf(slices)) == Points(WheelsOf(slices)) <==> IsExact(slices)
    ensures !IsExact(slices) ==> |Points(WheelsOf(slices))| == 0 < |Walked(WheelsOf(slices))|
  {
    var dims := WheelsOf(slices);
    WalkedIsBox(dims);
    assert dims[1..] == WheelsOf(slices[1..]);
    NonEmptyWheels(slices[1..]);
    assert (forall i :: 0 <= i < |slices[1..]| ==> slices[1..][i].first <= slices[1..][i].last)
      <==> (forall i :: 0 < i < |slices| ==> slices[i].first <= slices[i].last) by {
      assert forall i :: 0 < i < |slices| ==> slices[i] == slices[1..][i - 1];
    }
    if !IsExact(slices) {
      NonEmptyWheels(slices);
      SomeEmptyNoPoints(dims);
      FirstWalked(dims);
    }
  }

  /** What was walked is what was selected iff the first slice is empty or no later one is. */
  lemma {:induction false} WalkIsSelection<T>(memory: seq<T>, slices: seq<Slice>, sizes: seq<nat>, data: seq<T>,
                                              convert: T -> T)
    requires AllWalkable(slices) && slices != [] && PositiveStrides(slices) && |slices| == |sizes|
    requires PositiveStrides(Redeclared(slices, sizes))
    requires HoldsWalk(memory, Redeclared(slices, sizes), data, convert)
    ensures HoldsSelection(memory, Redeclared(slices, sizes), data, convert) <==> IsExact(slices)
  {
    ExactWalk(slices);
    WalkableHeld(slices, sizes);
  }

  /** The array holds all of the dimensions that are taken whole. */
  predicate HoldsWholes(slices: seq<Slice>, sizes: seq<nat>)
  {
    |slices| == |sizes| && forall i :: 0 <= i < |slices| && IsWhole(slices[i]) ==> slices[i].declsize == sizes[i]
  }

  /** One shot: every slice is whole. */
  method ExtractAll<T>(segment: DCEsegment, rank0: nat, sizes: seq<nat>, data: seq<T>)
    returns (err: ErrCode, memory: seq<T>)
    requires segment.Valid() && segment.slicesdefined && 0 < rank0 <= NC_MAX_VAR_DIMS
    requires AllMeetHeader(segment.slices[..rank0]) && PositiveStrides(segment.slices[..rank0])
    requires sizes == DeclSizes(WheelsOf(segment.slices[..rank0]))
    requires Covers(WheelsOf(segment.slices[..rank0]), data)
    requires forall i :: 0 <= i < rank0 ==> IsWhole(segment.slices[i])
    ensures err == NC_NOERR && HoldsWalk(memory, segment.slices[..rank0], data, Identity)
  {
    ghost var slices := segment.slices[..rank0];
    assert segment.slices[0..rank0] == slices;
    HeaderWalk(slices);
    WholeSuffix(slices);
    WholeIsInOrder(WheelsOf(slices), sizes, data);
    OffsetOfZeros(sizes);
    var count := segment.SegmentSize(0, rank0);
    var all := ReadN(data, sizes, Zeros(rank0), count);
    if all.None? {
      return NC_EINVALCOORDS, [];
    }
    err, memory := NC_NOERR, all.value;
  }

  /** The slices from safeindex on are whole, so that the others can be walked with chunks of them. */
  lemma {:induction false} SplitWalk(slices: seq<Slice>, sizes: seq<nat>, safeindex: nat)
    returns (prefix: seq<Dim>, whole: seq<Dim>)
    requires AllWalkable(slices) && PositiveStrides(slices) && 0 < safeindex < |slices| && HoldsWholes(slices, sizes)
    requires forall i :: safeindex <= i < |slices| ==> IsWhole(slices[i])
    ensures PositiveStrides(slices[..safeindex]) && PositiveStrides(Redeclared(slices, sizes))
    ensures |prefix| == safeindex && Points(prefix) == Walked(WheelsOf(slices[..safeindex]))
    ensures |whole| == |slices| - safeindex && AllWhole(whole)
    ensures CountProduct(slices[safeindex..]) == |Points(whole)| > 0
    ensures WalkWheels(WheelsOf(Redeclared(slices, sizes))) == prefix + whole && DeclSizes(prefix + whole) == sizes
    ensures DeclSizes(WheelsOf(Redeclared(slices, sizes))) == sizes
  {
    ChunkPlan(slices, safeindex);
    var a := WheelsOf(slices[..safeindex]);
    whole := WheelsOf(slices[safeindex..]);
    RedeclaredWheels(slices, sizes);
    DeclaredConcat(a, whole, sizes);
    WholeStays(slices, sizes, safeindex);
    DeclaredWalk(a, sizes[..safeindex]);
    prefix := DeclaredAs(WalkWheels(a), sizes[..safeindex]);
    DeclaredPoints(WalkWheels(a), sizes[..safeindex]);
    WholeNonEmpty(whole, 0);
    WalkWheelsConcat(DeclaredAs(a, sizes[..safeindex]), whole);
    WalkSizes(WheelsOf(Redeclared(slices, sizes)));
  }

  lemma {:induction false} WholeStays(slices: seq<Slice>, sizes: seq<nat>, safeindex: nat)
    requires PositiveStrides(slices) && safeindex <= |slices| && HoldsWholes(slices, sizes)
    requires forall i :: safeindex <= i < |slices| ==> IsWhole(slices[i])
    ensures PositiveStrides(slices[safeindex..])
    ensures DeclaredAs(WheelsOf(slices[safeindex..]), sizes[safeindex..]) == WheelsOf(slices[safeindex..])
  {
    assert forall s <- slices[safeindex..] :: s in slices;
    RedeclaredWheels(slices[safeindex..], sizes[safeindex..]);
    assert Redeclared(slices[safeindex..], sizes[safeindex..]) == slices[safeindex..];
  }

  lemma {:induction false} SplitIsWalk<T>(memory: seq<T>, held: seq<Slice>, prefix: seq<Dim>, whole: seq<Dim>,
                                          sizes: seq<nat>, data: seq<T>)
    requires PositiveStrides(held) && held != [] && WalkWheels(WheelsOf(held)) == prefix + whole
    requires DeclSizes(WheelsOf(held)) == sizes && |memory| == |Points(prefix + whole)|
    requires Holds(memory, data, sizes, Points(prefix + whole), Identity)
    ensures HoldsWalk(memory, held, data, Identity)
  {
  }

  /** Chunks: the slices from safeindex on are whole. */
  method ExtractChunks<T>(segment: DCEsegment, safeindex: nat, rank0: nat, sizes: seq<nat>, data: seq<T>)
    returns (err: ErrCode, memory: seq<T>)
    requires segment.Valid() && segment.slicesdefined && 0 < safeindex < rank0 <= NC_MAX_VAR_DIMS
    requires AllWalkable(segment.slices[..rank0]) && PositiveStrides(segment.slices[..rank0])
    requires HoldsWholes(segment.slices[..rank0], sizes)
    requires PositiveStrides(Redeclared(segment.slices[..rank0], sizes))
    requires CoversWalk(WheelsOf(Redeclared(segment.slices[..rank0], sizes)), data)
    requires forall i :: safeindex <= i < rank0 ==> IsWhole(segment.slices[i])
    ensures err == NC_NOERR && HoldsWalk(memory, Redeclared(segment.slices[..rank0], sizes), data, Identity)
  {
    ghost var slices := segment.slices[..rank0];
    ghost var prefix, whole := SplitWalk(slices, sizes, safeindex);
    assert segment.slices[0..safeindex] == slices[..safeindex]
           && segment.slices[safeindex..rank0] == slices[safeindex..];
    err, memory := ReadSplit(segment, safeindex, rank0, sizes, data, prefix, whole);
    SplitIsWalk(memory, Redeclared(slices, sizes), prefix, whole, sizes, data);
  }

  /** Walk the slices before safeindex, reading the others as one chunk at each point. */
  method ReadSplit<T>(segment: DCEsegment, safeindex: nat, rank0: nat, sizes: seq<nat>, data: seq<T>,
                      ghost prefix: seq<Dim>, ghost whole: seq<Dim>)
    returns (err: ErrCode, memory: seq<T>)
    requires segment.Valid() && segment.slicesdefined && 0 < safeindex < rank0 <= NC_MAX_VAR_DIMS
    requires PositiveStrides(segment.slices[0..safeindex]) && |prefix| == safeindex && |whole| == rank0 - safeindex
    requires Points(prefix) == Walked(WheelsOf(segment.slices[0..safeindex]))
    requires AllWhole(whole) && CountProduct(segment.slices[safeindex..rank0]) == |Points(whole)| > 0
    requires sizes == DeclSizes(prefix + whole) && Covers(prefix + whole, data)
    ensures err == NC_NOERR
    ensures |memory| == |Points(prefix + whole)| && Holds(memory, data, sizes, Points(prefix + whole), Identity)
  {
    var count := segment.SegmentSize(safeindex, rank0);
    var odom := new Dapodometer.FromSegment(segment, 0, safeindex);
    err, memory := ReadChunks(odom, prefix, whole, sizes, count, data);
  }

  /** Element by element, each converted. */
  method ExtractEach<T>(segment: DCEsegment, rank0: nat, sizes: seq<nat>, data: seq<T>, convert: T -> T)
    returns (err: ErrCode, memory: seq<T>)
    requires segment.Valid() && 0 < rank0 == |sizes| <= NC_MAX_VAR_DIMS && PositiveStrides(segment.slices[..rank0])
    requires PositiveStrides(Redeclared(segment.slices[..rank0], sizes))
    requires CoversWalk(WheelsOf(Redeclared(segment.slices[..rank0], sizes)), data)
    ensures err == NC_NOERR && HoldsWalk(memory, Redeclared(segment.slices[..rank0], sizes), data, convert)
  {
    ghost var slices := segment.slices[..rank0];
    assert segment.slices[0..rank0] == slices;
    RedeclaredWheels(slices, sizes);
    DeclaredWalk(WheelsOf(slices), sizes);
    var odom := new Dapodometer.FromSegment(segment, 0, rank0);
    err, memory := ReadEach(odom, sizes, data, convert);
  }

  lemma {:induction false} WalkableHeld(slices: seq<Slice>, sizes: seq<nat>)
    requires AllWalkable(slices) && PositiveStrides(slices) && slices != [] && |slices| == |sizes|
    ensures PositiveStrides(Redeclared(slices, sizes)) && IsExact(Redeclared(slices, sizes)) == IsExact(slices)
    ensures Walked(WheelsOf(Redeclared(slices, sizes))) == Walked(WheelsOf(slices))
    ensures Points(WheelsOf(Redeclared(slices, sizes))) == Points(WheelsOf(slices))
  {
    RedeclaredWheels(slices, sizes);
    DeclaredWalk(WheelsOf(slices), sizes);
    DeclaredPoints(WheelsOf(slices), sizes);
  }

  /** Read at one shot, in chunks, or element by element. */
  method ExtractBest<T>(segment: DCEsegment, rank0: nat, sizes: seq<nat>, data: seq<T>, requireconversion: bool,
                        convert: T -> T) returns (err: ErrCode, memory: seq<T>)
    requires segment.Valid() && 0 < rank0 <= NC_MAX_VAR_DIMS
    requires AllWalkable(segment.slices[..rank0]) && PositiveStrides(segment.slices[..rank0])
    requires HoldsWholes(segment.slices[..rank0], sizes)
    requires PositiveStrides(Redeclared(segment.slices[..rank0], sizes))
    requires CoversWalk(WheelsOf(Redeclared(segment.slices[..rank0], sizes)), data)
    ensures err == NC_NOERR
    ensures HoldsWalk(memory, Redeclared(segment.slices[..rank0], sizes), data,
                      if requireconversion then convert else Identity)
  {
    var safeindex := segment.SafeIndex(0, rank0);
    if !requireconversion && safeindex == 0 {
      AllWholeWalk(segment.slices[..rank0], sizes, data);
      err, memory := ExtractAll(segment, rank0, sizes, data);
    } else if !requireconversion && 0 < safeindex < rank0 {
      err, memory := ExtractChunks(segment, safeindex, rank0, sizes, data);
    } else {
      err, memory := ExtractEach(segment, rank0, sizes, data, if requireconversion then convert else Identity);
    }
  }

  /** Reading the requested part of a cached variable, whichever way is taken (at one shot, in chunks, or element by
      element), yields the elements at the points that the odometer visits, in order. They are the elements that the
      slices select iff the first slice is empty or no later one is. The cached array has sizes of its own. */
  method Extract<T>(segment: DCEsegment, rank0: nat, sizes: seq<nat>, data: seq<T>, requireconversion: bool,
                    convert: T -> T) returns (err: ErrCode, memory: seq<T>)
    requires segment.Valid() && 0 < rank0 <= NC_MAX_VAR_DIMS
    requires AllWalkable(segment.slices[..rank0]) && PositiveStrides(segment.slices[..rank0])
    requires HoldsWholes(segment.slices[..rank0], sizes)
    requires PositiveStrides(Redeclared(segment.slices[..rank0], sizes))
    requires CoversWalk(WheelsOf(Redeclared(segment.slices[..rank0], sizes)), data)
    ensures err == NC_NOERR
    ensures HoldsWalk(memory, Redeclared(segment.slices[..rank0], sizes), data,
                      if requireconversion then convert else Identity)
    ensures HoldsSelection(memory, Redeclared(segment.slices[..rank0], sizes), data,
                           if requireconversion then convert else Identity)
       <==> IsExact(segment.slices[..rank0])
  {
    err, memory := ExtractBest(segment, rank0, sizes, data, requireconversion, convert);
    WalkIsSelection(memory, segment.slices[..rank0], sizes, data, if requireconversion then convert else Identity);
  }

  lemma {:induction false} AllStay(slices: seq<Slice>, sizes: seq<nat>)
    requires HoldsWholes(slices, sizes) && PositiveStrides(slices)
    requires forall i :: 0 <= i < |slices| ==> IsWhole(slices[i])
    ensures Redeclared(slices, sizes) == slices && sizes == DeclSizes(WheelsOf(slices))
  {
    assert Redeclared(slices, sizes) == slices;
  }

  lemma {:induction false} AllWholeWalk<T>(slices: seq<Slice>, sizes: seq<nat>, data: seq<T>)
    requires AllWalkable(slices) && PositiveStrides(slices) && slices != [] && HoldsWholes(slices, sizes)
    requires forall i :: 0 <= i < |slices| ==> IsWhole(slices[i])
    requires PositiveStrides(Redeclared(slices, sizes)) && CoversWalk(WheelsOf(Redeclared(slices, sizes)), data)
    ensures Redeclared(slices, sizes) == slices && sizes == DeclSizes(WheelsOf(slices))
    ensures AllMeetHeader(slices) && Covers(WheelsOf(slices), data)
  {
    AllStay(slices, sizes);
    forall s | s in slices
      ensures MeetsHeader(s)
    {
      var i :| 0 <= i < |slices| && slices[i] == s;
      assert IsWhole(slices[i]);
    }
    var dims := WheelsOf(slices);
    NonEmptyWheels(slices);
    ClampAllNonEmpty(dims[1..]);
    assert WalkWheels(dims) == dims;
  }

  // ----- An accepted request that is read wrongly

  /** A request of two rows and no columns is accepted for a 3 by 3 array; its box is empty, but two elements are read.
      */
  lemma {:induction false} EmptyRequestReadsTwo()
    ensures Accepted(0, 2, 1, 3) && Accepted(1, 0, 1, 3)
    ensures var slices := [VaraSlice(0, 2, 1, 3), VaraSlice(1, 0, 1, 3)];
            && AllWalkable(slices) && PositiveStrides(slices) && !IsExact(slices)
            && Points(WheelsOf(slices)) == [] && |Walked(WheelsOf(slices))| == 2
  {
    var slices := [Slice(0, 1, 2, 1, 2, 3), Slice(1, 1, 0, 0, 0, 3)];
    assert slices == [VaraSlice(0, 2, 1, 3), VaraSlice(1, 0, 1, 3)];
    ExactWalk(slices);
    TwoByNone(WheelsOf(slices));
  }

  lemma {:induction false} TwoByNone(dims: seq<Dim>)
    requires dims == [Wheel(0, 2, 1, 3), Wheel(1, 1, 1, 3)]
    ensures |Walked(dims)| == 2
  {
    assert dims[1..] == [Wheel(1, 1, 1, 3)] && dims[1..][1..] == [];
    assert ClampAll(dims[1..]) == [Wheel(1, 2, 1, 3)];
    assert WalkWheels(dims) == [Wheel(0, 2, 1, 3), Wheel(1, 2, 1, 3)];
    TwoPoints();
  }

  lemma {:induction false} TwoPoints()
    ensures |Points([Wheel(0, 2, 1, 3), Wheel(1, 2, 1, 3)])| == 2
  {
    var dims: seq<Dim> := [Wheel(0, 2, 1, 3), Wheel(1, 2, 1, 3)];
    PointsCount(dims);
    CountedSteps(0, 2, 1, 0);
    CountedSteps(1, 1, 1, 0);
    assert dims[1..] == [Wheel(1, 2, 1, 3)] && dims[1..][1..] == [];
    assert Counts(dims[1..]) == [1] && Counts(dims) == [2, 1];
    assert [2, 1][1..] == [1] && Product([1]) == 1 && Product([2, 1]) == 2;
  }
}
