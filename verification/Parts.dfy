/** Reading the answer to a partial fetch: the server has applied the constraint, and what it sent is read in. */
module Parts {
  import opened Wrappers
  import opened Ranges
  import opened Slices
  import opened Boxes
  import opened Tree
  import opened Segments
  import opened Odometer
  import opened Offsets
  import opened Projections
  import opened Requests
  import opened Restriction
  import opened Readers
  import opened Nested
  import opened GetVara
  import opened Cacheable

  // ----- The caller's memory

  /** What has been written from the beginning of the memory on, and where the next element goes. */
  datatype MemoryView<T> = MemoryView(written: seq<T>, next: nat)

  /** Values are copied to where the next element goes, over what is there, and the place is moved on. */
  function Copied<T>(m: MemoryView<T>, values: seq<T>, advance: nat): MemoryView<T>
  {
    if m.next > |m.written| then m
    else
      var after := m.next + |values|;
      MemoryView(m.written[..m.next] + values + if after < |m.written| then m.written[after..] else [],
                 m.next + advance)
  }

  class NCMemory<T> {
    var written: seq<T>
    var next: nat

    ghost function View(): MemoryView<T>
      reads this
    {
      MemoryView(written, next)
    }

    constructor ()
      ensures View() == MemoryView([], 0)
    {
      written, next := [], 0;
    }

    method Copy(values: seq<T>, advance: nat)
      requires next <= |written|
      modifies this
      ensures View() == Copied(old(View()), values, advance)
      ensures next == old(next) + advance
      ensures |written| == if old(next) + |values| < |old(written)| then |old(written)| else old(next) + |values|
      ensures forall k :: 0 <= k < |written| ==>
                written[k] == if old(next) <= k < old(next) + |values| then values[k - old(next)] else old(written)[k]
    {
      var after := next + |values|;
      written := written[..next] + values + if after < |written| then written[after..] else [];
      next := next + advance;
    }
  }

  function Converted<T>(data: seq<T>, convert: T -> T): (r: seq<T>)
    ensures |r| == |data| && forall k :: 0 <= k < |r| ==> r[k] == convert(data[k])
  {
    seq(|data|, k requires 0 <= k < |data| => convert(data[k]))
  }

  // ----- What memory holds in the end

  /** The answer for a variable is copied; the place moves on for a scalar and for values that are converted, but not
      for an array that is read straight to memory. */
  function After<T>(m: MemoryView<T>, c: Content<T>, bumps: bool, convert: T -> T): MemoryView<T>
    decreases c
  {
    match c
    case Atomic(data) => Copied(m, Converted(data, convert), if bumps then |data| else 0)
    case Field(field) => After(m, field, bumps, convert)
    case Instances(elements) => AfterAll(m, elements, bumps, convert)
  }

  function AfterAll<T>(m: MemoryView<T>, elements: seq<Content<T>>, bumps: bool, convert: T -> T): MemoryView<T>
    decreases elements
  {
    if elements == [] then m
    else After(AfterAll(m, elements[..|elements| - 1], bumps, convert), elements[|elements| - 1], bumps, convert)
  }

  /** The elements of the variable inside the last instances. */
  function LastOf<T>(c: Content<T>): seq<T>
  {
    match c
    case Atomic(data) => data
    case Field(field) => LastOf(field)
    case Instances(elements) => if elements == [] then [] else LastOf(elements[|elements| - 1])
  }

  lemma {:induction false} FlatAllConcat<T>(a: seq<Content<T>>, b: seq<Content<T>>)
    ensures FlatAll(a + b) == FlatAll(a) + FlatAll(b)
  {
    if a == [] {
      assert a + b == b;
    } else {
      assert (a + b)[1..] == a[1..] + b;
      FlatAllConcat(a[1..], b);
    }
  }

  lemma {:induction false} FlatAllSnoc<T>(elements: seq<Content<T>>)
    requires elements != []
    ensures FlatAll(elements) == FlatAll(elements[..|elements| - 1]) + Flat(elements[|elements| - 1])
  {
    var last := [elements[|elements| - 1]];
    assert elements == elements[..|elements| - 1] + last;
    FlatAllConcat(elements[..|elements| - 1], last);
    assert last[1..] == [];
    assert FlatAll(last) == Flat(last[0]) + [];
  }

  lemma {:induction false} ConvertedConcat<T>(a: seq<T>, b: seq<T>, convert: T -> T)
    ensures Converted(a + b, convert) == Converted(a, convert) + Converted(b, convert)
  {
  }

  /** When the place moves on, all elements are added in order. */
  lemma {:induction false} AddsAll<T>(m: MemoryView<T>, c: Content<T>, convert: T -> T)
    requires m.next == |m.written|
    ensures var written := m.written + Converted(Flat(c), convert);
            After(m, c, true, convert) == MemoryView(written, |written|)
    decreases c
  {
    match c
    case Atomic(data) =>
    case Field(field) => AddsAll(m, field, convert);
    case Instances(elements) => AddsEach(m, elements, convert);
  }

  lemma {:induction false} AddsEach<T>(m: MemoryView<T>, elements: seq<Content<T>>, convert: T -> T)
    requires m.next == |m.written|
    ensures var written := m.written + Converted(FlatAll(elements), convert);
            AfterAll(m, elements, true, convert) == MemoryView(written, |written|)
    decreases elements
  {
    if elements != [] {
      var before, last := elements[..|elements| - 1], elements[|elements| - 1];
      AddsEach(m, before, convert);
      AddsAll(AfterAll(m, before, true, convert), last, convert);
      FlatAllSnoc(elements);
      ConvertedConcat(FlatAll(before), Flat(last), convert);
    }
  }

  /** The sizes of what the data layer holds are positive. */
  predicate IsNonEmpty(held: seq<PathNode>)
  {
    forall k {:trigger held[k]} :: 0 <= k < |held| ==> forall d <- held[k].dims :: 0 < d
  }

  lemma {:induction false} ProductPositive(sizes: seq<nat>)
    requires forall d <- sizes :: 0 < d
    ensures 0 < Product(sizes)
  {
    if sizes != [] {
      assert sizes[0] in sizes && forall d <- sizes[1..] :: d in sizes;
      ProductPositive(sizes[1..]);
      MulOrder(1, sizes[0], Product(sizes[1..]));
    }
  }

  lemma {:induction false} NonEmptyTail(held: seq<PathNode>)
    requires IsNonEmpty(held) && held != []
    ensures IsNonEmpty(held[1..]) && 0 < Product(held[0].dims)
  {
    ProductPositive(held[0].dims);
    forall k | 0 <= k < |held[1..]|
      ensures forall d <- held[1..][k].dims :: 0 < d
    {
      assert held[1..][k] == held[k + 1];
    }
  }

  /** The memory is as yet empty, or has been written to as far as one answer goes. */
  predicate IsBlank<T>(m: MemoryView<T>, held: seq<PathNode>)
  {
    held != [] && m.next == 0 && (m.written == [] || |m.written| == Product(held[|held| - 1].dims))
  }

  /** When the place is not moved on, each answer is copied over the one before. */
  lemma {:induction false} LeavesLast<T>(m: MemoryView<T>, c: Content<T>, held: seq<PathNode>, convert: T -> T)
    requires HasShape(c, held) && IsNonEmpty(held) && IsBlank(m, held)
    ensures |LastOf(c)| == Product(held[|held| - 1].dims)
    ensures After(m, c, false, convert) == MemoryView(Converted(LastOf(c), convert), 0)
    decreases c
  {
    NonEmptyTail(held);
    match c
    case Atomic(data) =>
    case Field(field) =>
      assert held[1..][|held| - 2] == held[|held| - 1];
      LeavesLast(m, field, held[1..], convert);
    case Instances(elements) =>
      assert held[1..][|held| - 2] == held[|held| - 1];
      LeavesLastOfAll(m, elements, held[1..], convert);
  }

  lemma {:induction false} LeavesLastOfAll<T>(m: MemoryView<T>, elements: seq<Content<T>>, held: seq<PathNode>,
                                              convert: T -> T)
    requires (forall e <- elements :: HasShape(e, held)) && IsNonEmpty(held) && IsBlank(m, held)
    ensures elements == [] ==> AfterAll(m, elements, false, convert) == m
    ensures elements != [] ==>
              var last := LastOf(elements[|elements| - 1]);
              && |last| == Product(held[|held| - 1].dims)
              && AfterAll(m, elements, false, convert) == MemoryView(Converted(last, convert), 0)
    decreases elements
  {
    if elements != [] {
      var before, last := elements[..|elements| - 1], elements[|elements| - 1];
      LeavesLastOfAll(m, before, held, convert);
      assert last in elements;
      LeavesLast(AfterAll(m, before, false, convert), last, held, convert);
    }
  }

  /** How many times the variable itself is read. */
  function OuterCount(held: seq<PathNode>): nat
    requires held != []
  {
    Product(DimsUpTo(held, |held| - 1))
  }

  lemma {:induction false} OuterCons(held: seq<PathNode>)
    requires |held| > 1
    ensures OuterCount(held) == Product(held[0].dims) * OuterCount(held[1..])
  {
    DimsCons(held, |held| - 1);
    ProductConcat(held[0].dims, DimsUpTo(held[1..], |held| - 2));
  }

  lemma {:induction false} OneEach(a: nat, b: nat)
    requires a * b == 1
    ensures a == 1 && b == 1
  {
    assert a != 0 && b != 0;
    if a > 1 {
      MulOrder(2, a, b);
    }
  }

  /** A variable that is read once is the last one. */
  lemma {:induction false} OneInstance<T>(c: Content<T>, held: seq<PathNode>)
    requires HasShape(c, held) && OuterCount(held) == 1
    ensures LastOf(c) == Flat(c)
    decreases c
  {
    match c
    case Atomic(data) =>
    case Field(field) =>
      OuterCons(held);
      OneInstance(field, held[1..]);
    case Instances(elements) =>
      OuterCons(held);
      OneEach(Product(held[0].dims), OuterCount(held[1..]));
      OneInstance(elements[0], held[1..]);
      assert elements == [elements[0]] && elements[1..] == [];
      assert FlatAll(elements) == Flat(elements[0]) + [];
  }

  /** The last answer is everything iff there is only one. */
  lemma {:induction false} LastIsAll<T>(c: Content<T>, held: seq<PathNode>)
    requires HasShape(c, held) && IsNonEmpty(held)
    ensures |LastOf(c)| == |Flat(c)| <==> OuterCount(held) == 1
    ensures OuterCount(held) == 1 ==> LastOf(c) == Flat(c)
  {
    var last := held[|held| - 1].dims;
    LeavesLast(MemoryView([], 0), c, held, x => x);
    FlatSize(c, held);
    ProductConcat(DimsUpTo(held, |held| - 1), last);
    ProductPositive(last);
    if OuterCount(held) == 1 {
      OneInstance(c, held);
    } else {
      NotOnce(OuterCount(held), Product(last));
    }
  }

  lemma {:induction false} NotOnce(a: nat, b: nat)
    requires a != 1 && 0 < b
    ensures a * b != b
  {
    if a > 1 {
      MulOrder(2, a, b);
    }
  }

  // ----- Reading what the server has selected

  /** The slice is all of a dimension of what was sent. */
  predicate Spans(s: Slice, size: nat)
  {
    MeetsHeader(s) && IsWholeSlice(s, size)
  }

  predicate AllSpan(slices: seq<Slice>, sizes: seq<nat>)
  {
    && |slices| == |sizes|
    && forall j {:trigger Spans(slices[j], sizes[j])} :: 0 <= j < |slices| ==> Spans(slices[j], sizes[j])
  }

  /** The segment's slices are all of what was sent for the node. */
  ghost predicate IsSpan(segment: DCEsegment, n: PathNode)
    reads segment
  {
    && segment.Valid() && segment.slicesdefined && segment.rank == |n.dims| <= NC_MAX_VAR_DIMS
    && AllSpan(segment.slices[..segment.rank], n.dims)
  }

  ghost predicate AreSpans(segments: seq<DCEsegment>, held: seq<PathNode>)
    reads segments
  {
    && |segments| == |held|
    && forall k {:trigger IsSpan(segments[k], held[k])} :: 0 <= k < |held| ==> IsSpan(segments[k], held[k])
  }

  lemma {:induction false} SpansTail(segments: seq<DCEsegment>, held: seq<PathNode>)
    requires AreSpans(segments, held) && held != []
    ensures IsSpan(segments[0], held[0]) && AreSpans(segments[1..], held[1..])
  {
    forall k | 0 <= k < |held| - 1
      ensures IsSpan(segments[1..][k], held[1..][k])
    {
      assert IsSpan(segments[k + 1], held[k + 1]);
    }
  }

  lemma {:induction false} SpanStrides(slices: seq<Slice>, sizes: seq<nat>)
    requires AllSpan(slices, sizes)
    ensures PositiveStrides(slices) && AllMeetHeader(slices)
  {
    forall s | s in slices
      ensures MeetsHeader(s)
    {
      var j :| 0 <= j < |slices| && slices[j] == s;
      assert Spans(slices[j], sizes[j]);
    }
  }

  lemma {:induction false} SpanIsWhole(slices: seq<Slice>, sizes: seq<nat>)
    requires AllSpan(slices, sizes) && PositiveStrides(slices)
    ensures AllWhole(DeclaredAs(WheelsOf(slices), sizes))
  {
    var held := DeclaredAs(WheelsOf(slices), sizes);
    forall d | d in held
      ensures IsWholeWheel(d)
    {
      var j :| 0 <= j < |held| && held[j] == d;
      DeclaredAt(WheelsOf(slices), sizes, j);
      assert Spans(slices[j], sizes[j]);
    }
  }

  /** The odometer meets what was sent in the order in which it was sent. */
  lemma {:induction false} SpanWalk(slices: seq<Slice>, sizes: seq<nat>, k: nat)
    requires AllSpan(slices, sizes) && slices != []
    ensures PositiveStrides(slices) && |Walked(WheelsOf(slices))| == CountProduct(slices) == Product(sizes)
    ensures k < Product(sizes) ==>
              |Walked(WheelsOf(slices))[k]| == |sizes| && Offset(sizes, Walked(WheelsOf(slices))[k]) == k
  {
    SpanStrides(slices, sizes);
    SpanIsWhole(slices, sizes);
    HeaderWalk(slices);
    DeclaredPoints(WheelsOf(slices), sizes);
    WholeOffsets(DeclaredAs(WheelsOf(slices), sizes), k);
  }

  lemma {:induction false} SpanCovers<T>(slices: seq<Slice>, sizes: seq<nat>, data: seq<T>)
    requires AllSpan(slices, sizes) && slices != [] && |data| == Product(sizes)
    ensures PositiveStrides(slices) && CoversWalk(DeclaredAs(WheelsOf(slices), sizes), data)
  {
    SpanStrides(slices, sizes);
    SpanIsWhole(slices, sizes);
    var ws := WheelsOf(slices);
    forall i | 0 <= i < |slices|
      ensures slices[i].first <= slices[i].last
    {
      assert Spans(slices[i], sizes[i]);
    }
    NonEmptyWheels(slices);
    ClampAllNonEmpty(ws[1..]);
    assert WalkWheels(ws) == ws;
    DeclaredWalk(ws, sizes);
    WholeFits(DeclaredAs(ws, sizes));
  }

  /** What the walk reads is all that was sent, in order. */
  lemma {:induction false} WalkIsAll<T>(memory: seq<T>, slices: seq<Slice>, sizes: seq<nat>, data: seq<T>,
                                        convert: T -> T)
    requires AllSpan(slices, sizes) && slices != [] && |data| == Product(sizes) && PositiveStrides(slices)
    requires |memory| == |Walked(WheelsOf(slices))| && Holds(memory, data, sizes, Walked(WheelsOf(slices)), convert)
    ensures memory == Converted(data, convert)
  {
    SpanWalk(slices, sizes, 0);
    forall k | 0 <= k < |memory|
      ensures memory[k] == Converted(data, convert)[k]
    {
      SpanWalk(slices, sizes, k);
      assert IsElement(memory[k], data, sizes, Walked(WheelsOf(slices))[k], convert);
    }
  }

  /** One by one, each converted. */
  method ReadEachPart<T>(segment: DCEsegment, sizes: seq<nat>, data: seq<T>, convert: T -> T)
    returns (err: ErrCode, values: seq<T>)
    requires segment.Valid() && 0 < segment.rank == |sizes| <= NC_MAX_VAR_DIMS
    requires AllSpan(segment.slices[..segment.rank], sizes) && |data| == Product(sizes)
    ensures err == NC_NOERR && values == Converted(data, convert)
  {
    ghost var slices := segment.slices[..segment.rank];
    assert segment.slices[0..segment.rank] == slices;
    SpanCovers(slices, sizes, data);
    var odom := new Dapodometer.FromSegment(segment, 0, segment.rank);
    err, values := ReadEach(odom, sizes, data, convert);
    WalkIsAll(values, slices, sizes, data, convert);
  }

  lemma {:induction false} SpanInside(slices: seq<Slice>, sizes: seq<nat>)
    requires AllSpan(slices, sizes) && slices != []
    ensures AllMeetHeader(slices) && AreInside(slices, sizes) && CountProduct(slices) == Product(sizes)
  {
    SpanStrides(slices, sizes);
    SpanWalk(slices, sizes, 0);
    forall d | 0 <= d < |slices|
      ensures slices[d].first <= slices[d].last < sizes[d]
    {
      assert Spans(slices[d], sizes[d]);
    }
  }

  lemma {:induction false} PrefixFromOrigin<T>(sizes: seq<nat>, data: seq<T>, n: nat)
    requires n <= |data|
    ensures ReadN(data, sizes, Zeros(|sizes|), n) == Some(data[..n])
  {
    OffsetOfZeros(sizes);
    assert data[0..n] == data[..n];
  }

  lemma {:induction false} FromOrigin<T>(slices: seq<Slice>, sizes: seq<nat>, data: seq<T>)
    requires AllMeetHeader(slices) && AreInside(slices, sizes) && |data| == Product(sizes)
    ensures CountProduct(slices) == |Points(WheelsOf(slices))| <= |data|
    ensures ReadN(data, sizes, Zeros(|sizes|), CountProduct(slices)) == Some(data[..CountProduct(slices)])
  {
    CountProductIsPoints(slices);
    InsideCount(slices, sizes);
    PrefixFromOrigin(sizes, data, CountProduct(slices));
  }

  /** As many elements as the counts of the slices say, from the first of the array on. */
  method ReadStraight<T>(segment: DCEsegment, sizes: seq<nat>, data: seq<T>) returns (err: ErrCode, values: seq<T>)
    requires segment.Valid() && segment.slicesdefined && 0 < segment.rank == |sizes| <= NC_MAX_VAR_DIMS
    requires AllMeetHeader(segment.slices[..segment.rank]) && AreInside(segment.slices[..segment.rank], sizes)
    requires |data| == Product(sizes)
    ensures err == NC_NOERR && CountProduct(segment.slices[..segment.rank]) <= |data|
    ensures values == data[..CountProduct(segment.slices[..segment.rank])]
  {
    FromOrigin(segment.slices[..segment.rank], sizes, data);
    var count := segment.SegmentSize(0, segment.rank);
    assert segment.slices[0..segment.rank] == segment.slices[..segment.rank];
    var all := ReadN(data, sizes, Zeros(segment.rank), count);
    if all.None? {
      return NC_EINVALCOORDS, [];
    }
    err, values := NC_NOERR, all.value;
  }

  /** What was sent for a variable, and how far the place in memory moves on: not at all behind an array that needs no
      conversion. */
  method ReadPart<T>(segment: DCEsegment, n: PathNode, data: seq<T>, requireconversion: bool, convert: T -> T)
    returns (values: seq<T>, advance: nat)
    requires IsSpan(segment, n) && |data| == Product(n.dims)
    ensures values == Converted(data, if requireconversion then convert else Identity)
    ensures advance == if requireconversion || n.dims == [] then |data| else 0
  {
    var err;
    if segment.rank == 0 {
      values, advance := [if requireconversion then convert(data[0]) else data[0]], 1;
    } else if requireconversion {
      err, values := ReadEachPart(segment, n.dims, data, convert);
      advance := |values|;
    } else {
      SpanInside(segment.slices[..segment.rank], n.dims);
      err, values := ReadStraight(segment, n.dims, data);
      advance := 0;
    }
  }

  /** Copy what was sent for a variable into memory. */
  method ExtractPart<T>(segment: DCEsegment, n: PathNode, data: seq<T>, requireconversion: bool, convert: T -> T,
                        memory: NCMemory<T>)
    requires IsSpan(segment, n) && |data| == Product(n.dims) && memory.next <= |memory.written|
    modifies memory
    ensures memory.next <= |memory.written|
    ensures memory.View() == Copied(old(memory.View()),
                                    Converted(data, if requireconversion then convert else Identity),
                                    if requireconversion || n.dims == [] then |data| else 0)
  {
    var values, advance := ReadPart(segment, n, data, requireconversion, convert);
    memory.Copy(values, advance);
  }

  /** The place in memory moves on behind each answer. */
  predicate MovesOn(held: seq<PathNode>, requireconversion: bool)
    requires held != []
  {
    requireconversion || held[|held| - 1].dims == []
  }

  /** Move to the variable at the end of the path, and copy what was sent. */
  method MoveToPart<T>(content: Content<T>, held: seq<PathNode>, segments: seq<DCEsegment>, requireconversion: bool,
                       convert: T -> T, memory: NCMemory<T>)
    requires HasShape(content, held) && AreSpans(segments, held) && memory.next <= |memory.written|
    modifies memory
    ensures memory.next <= |memory.written| && AreSpans(segments, held)
    ensures memory.View() == After(old(memory.View()), content, MovesOn(held, requireconversion),
                                   if requireconversion then convert else Identity)
    decreases |held|, 1
  {
    SpansTail(segments, held);
    match content
    case Atomic(data) =>
      ExtractPart(segments[0], held[0], data, requireconversion, convert, memory);
    case Field(field) =>
      MoveToPart(field, held[1..], segments[1..], requireconversion, convert, memory);
    case Instances(elements) =>
      MoveToParts(segments[0], elements, held[0], held[1..], segments[1..], requireconversion, convert, memory);
  }

  /** Move to each instance that was sent. */
  method MoveToParts<T>(segment: DCEsegment, elements: seq<Content<T>>, n: PathNode, tail: seq<PathNode>,
                        inner: seq<DCEsegment>, requireconversion: bool, convert: T -> T, memory: NCMemory<T>)
    requires IsSpan(segment, n) && n.dims != [] && |elements| == Product(n.dims) && tail != []
    requires (forall e <- elements :: HasShape(e, tail)) && AreSpans(inner, tail) && memory.next <= |memory.written|
    modifies memory
    ensures memory.next <= |memory.written| && AreSpans(inner, tail)
    ensures memory.View() == AfterAll(old(memory.View()), elements, MovesOn(tail, requireconversion),
                                      if requireconversion then convert else Identity)
    decreases |tail|, 3
  {
    ghost var before, slices := memory.View(), segment.slices[..segment.rank];
    SpanWalk(slices, n.dims, 0);
    assert segment.slices[0..segment.rank] == slices;
    var odom := new Dapodometer.FromSegment(segment, 0, segment.rank);
    StartsOnWalk(odom);
    ghost var i := 0;
    while odom.More()
      invariant fresh(odom.index) && OnWalk(odom, i) && odom.dims == WheelsOf(slices)
      invariant AreSpans(inner, tail) && memory.next <= |memory.written|
      invariant memory.View() == AfterAll(before, elements[..i], MovesOn(tail, requireconversion),
                                          if requireconversion then convert else Identity)
      decreases |elements| - i
    {
      SpanWalk(slices, n.dims, i);
      MoveToNextPart(odom, i, elements, n.dims, tail, inner, requireconversion, convert, memory, before);
      i := i + 1;
    }
    assert elements[..i] == elements;
  }

  /** Move to the instance at the current point, and turn the odometer. */
  method MoveToNextPart<T>(odom: Dapodometer, ghost i: nat, elements: seq<Content<T>>, sizes: seq<nat>,
                           tail: seq<PathNode>, inner: seq<DCEsegment>, requireconversion: bool, convert: T -> T,
                           memory: NCMemory<T>, ghost before: MemoryView<T>)
    requires OnWalk(odom, i) && odom.More() && |odom.Position()| == |sizes| && i < |elements|
    requires Offset(sizes, odom.Position()) == i && tail != [] && (forall e <- elements :: HasShape(e, tail))
    requires AreSpans(inner, tail) && memory.next <= |memory.written|
    requires memory.View() == AfterAll(before, elements[..i], MovesOn(tail, requireconversion),
                                       if requireconversion then convert else Identity)
    modifies odom.index, memory
    ensures OnWalk(odom, i + 1) && AreSpans(inner, tail) && memory.next <= |memory.written|
    ensures memory.View() == AfterAll(before, elements[..i + 1], MovesOn(tail, requireconversion),
                                      if requireconversion then convert else Identity)
    decreases |tail|, 2
  {
    MoveToPart(elements[Offset(sizes, odom.index[..odom.rank])], tail, inner, requireconversion, convert, memory);
    assert elements[..i + 1][..i] == elements[..i];
    var more := Turn(odom, i);
  }

  // ----- The answer to a request

  /** The path, with the sizes of what was sent: as many as were asked for. */
  predicate AreCounted(path: seq<PathNode>, held: seq<PathNode>, countp: seq<nat>)
  {
    SameRanks(path, held) && |AllDims(path)| <= |countp| && AllDims(held) == countp[..|AllDims(path)|]
  }

  lemma {:induction false} ShiftedSpans(start: nat, count: nat, stride: nat, declsize: nat, declsize0: nat)
    requires IsRequest(start, count, stride, declsize, declsize0) && IsSane(start, count, stride) && 0 < count
    ensures Spans(ShiftSlice(VaraSlice(start, count, stride, declsize0)), count)
  {
    var v := VaraSlice(start, count, stride, declsize0);
    VaraDenotes(start, count, stride, declsize, declsize0);
    CountIsLength(v);
    ShiftRenumbers(v, 0);
  }

  /** The size and the count at place j of node k. */
  lemma {:induction false} CountPlace(path: seq<PathNode>, held: seq<PathNode>, views: seq<SegmentView>,
                                      countp: seq<nat>, k: nat, j: nat)
    requires HaveRanks(path, views) && AreCounted(path, held, countp) && k < |path| && j < |held[k].dims|
    ensures j < |path[k].dims| && RankBefore(path, k) + j < |AllDims(path)|
    ensures AllDims(path)[RankBefore(path, k) + j] == path[k].dims[j]
    ensures countp[RankBefore(path, k) + j] == held[k].dims[j]
  {
    assert |held[k].dims| == |path[k].dims|;
    SameHaveSizes(LayersOf(path, views), path, held);
    SameRanksBefore(path, held, k);
    PlaceOf(LayersOf(path, views), path, |path|, k, j);
    PlaceOf(LayersOf(path, views), held, |held|, k, j);
  }

  lemma {:induction false} ShiftedSlice(us: seq<Slice>, path: seq<PathNode>, held: seq<PathNode>,
                                        views: seq<SegmentView>, startp: seq<nat>, countp: seq<nat>,
                                        stridep: seq<nat>, matched: bool, k: nat, j: nat)
    requires AllAsked(us, startp, countp, stridep, AllDims(path), matched) && AreCounted(path, held, countp)
    requires AsksSomething(startp, countp, stridep, |AllDims(path)|)
    requires AreVaraViews(path, views, startp, countp, stridep) && k < |path| && j < |held[k].dims|
    ensures j < |views[k].slices| && Spans(ShiftSlice(views[k].slices[j]), held[k].dims[j])
  {
    var d := RankBefore(path, k) + j;
    RanksOfRequest(path, views, startp, countp, stridep);
    CountPlace(path, held, views, countp, k, j);
    VaraPlace(path, views, startp, countp, stridep, k, j);
    assert IsAskedAt(us, startp, countp, stridep, AllDims(path), matched, d);
    ShiftedSpans(startp[d], countp[d], stridep[d], |Indices(us[d])|, AllDims(path)[d]);
  }

  lemma {:induction false} ShiftedLayer(us: seq<Slice>, path: seq<PathNode>, held: seq<PathNode>,
                                        views: seq<SegmentView>, startp: seq<nat>, countp: seq<nat>,
                                        stridep: seq<nat>, matched: bool, k: nat)
    requires AllAsked(us, startp, countp, stridep, AllDims(path), matched) && AreCounted(path, held, countp)
    requires AsksSomething(startp, countp, stridep, |AllDims(path)|)
    requires AreVaraViews(path, views, startp, countp, stridep) && k < |path|
    ensures views[k].rank == |held[k].dims| <= |views[k].slices|
    ensures AllSpan(ShiftView(views[k]).slices[..|held[k].dims|], held[k].dims)
  {
    assert IsVaraAt(path, views, startp, countp, stridep, k) && |held[k].dims| == |path[k].dims|;
    forall j | 0 <= j < |held[k].dims|
      ensures Spans(ShiftView(views[k]).slices[j], held[k].dims[j])
    {
      ShiftedSlice(us, path, held, views, startp, countp, stridep, matched, k, j);
    }
  }

  lemma {:induction false} SpansAreNonEmpty(segments: seq<DCEsegment>, held: seq<PathNode>)
    requires AreSpans(segments, held)
    ensures IsNonEmpty(held)
  {
    forall k | 0 <= k < |held|
      ensures forall d <- held[k].dims :: 0 < d
    {
      assert IsSpan(segments[k], held[k]);
      forall d | d in held[k].dims
        ensures 0 < d
      {
        var j :| 0 <= j < |held[k].dims| && held[k].dims[j] == d;
        assert Spans(segments[k].slices[..segments[k].rank][j], held[k].dims[j]);
      }
    }
  }

  lemma {:induction false} ConvertedRequest<T>(answer: seq<T>, us: seq<Slice>, vs: seq<Slice>, dims: seq<nat>,
                                               full: seq<T>, convert: T -> T)
    requires PositiveStrides(us) && PositiveStrides(vs) && HoldsRequest(answer, us, vs, dims, full, Identity)
    ensures HoldsRequest(Converted(answer, convert), us, vs, dims, full, convert)
  {
    var outer, points := Selections(us), Points(WheelsOf(vs));
    forall k | 0 <= k < |answer|
      ensures InSelection(outer, points[k])
      ensures IsElement(Converted(answer, convert)[k], full, dims, LookUp(outer, points[k]), convert)
    {
      assert IsElement(answer[k], full, dims, LookUp(outer, points[k]), Identity);
    }
  }

  /** What memory holds in the end is what was requested iff the place in memory moves on, or the variable is read only
      once. */
  lemma {:induction false} PartIsRight<T>(content: Content<T>, held: seq<PathNode>, us: seq<Slice>, vs: seq<Slice>,
                                          dims: seq<nat>, full: seq<T>, moves: bool, convert: T -> T)
    requires HasShape(content, held) && IsNonEmpty(held) && PositiveStrides(us) && PositiveStrides(vs)
    requires HoldsRequest(Flat(content), us, vs, dims, full, Identity)
    ensures var memory := After(MemoryView([], 0), content, moves, convert);
            HoldsRequest(memory.written, us, vs, dims, full, convert) <==> moves || OuterCount(held) == 1
  {
    ConvertedRequest(Flat(content), us, vs, dims, full, convert);
    if moves {
      AddsAll(MemoryView([], 0), content, convert);
      assert [] + Converted(Flat(content), convert) == Converted(Flat(content), convert);
    } else {
      LeavesLast(MemoryView([], 0), content, held, convert);
      LastIsAll(content, held);
    }
  }

  /** The answer to the fetch of a request: as many elements as were asked for, those that the URL selects there. */
  ghost predicate IsAnswer<T>(content: Content<T>, held: seq<PathNode>, us: seq<Slice>, path: seq<PathNode>,
                              startp: seq<nat>, countp: seq<nat>, stridep: seq<nat>, full: seq<T>)
    requires EnoughArguments(|AllDims(path)|, startp, countp, stridep)
  {
    var vs := VaraSlices(startp, countp, stridep, AllDims(path), |AllDims(path)|);
    && HasShape(content, held) && AreCounted(path, held, countp) && PositiveStrides(us) && PositiveStrides(vs)
    && HoldsRequest(Flat(content), us, vs, AllDims(path), full, Identity)
  }

  /** The segments have the given slices, shifted. */
  ghost predicate AreShifted(walk: DCEprojection, views: seq<SegmentView>)
    reads walk.variable, walk.variable.segments
  {
    && walk.Valid() && |walk.View()| == |views|
    && forall k {:trigger walk.View()[k]} :: 0 <= k < |views| ==> walk.View()[k] == ShiftView(views[k])
  }

  /** The projection of the request, cloned and shifted. */
  method ShiftedVara(path: seq<PathNode>, annotation: Option<CDFnode>, startp: seq<nat>, countp: seq<nat>,
                     stridep: seq<nat>) returns (walk: DCEprojection, ghost views: seq<SegmentView>)
    requires WellFormedPath(path) && EnoughArguments(RankBefore(path, |path|), startp, countp, stridep)
    ensures AreVaraViews(path, views, startp, countp, stridep) && AreShifted(walk, views)
  {
    var vara := BuildVara(path, annotation, startp, countp, stridep);
    views := vara.View();
    walk := CloneProjection(vara);
    ShiftProjection(walk);
  }

  lemma {:induction false} ShiftedAreSpans(walk: DCEprojection, views: seq<SegmentView>, us: seq<Slice>,
                                           path: seq<PathNode>, held: seq<PathNode>, startp: seq<nat>,
                                           countp: seq<nat>, stridep: seq<nat>, matched: bool)
    requires AllAsked(us, startp, countp, stridep, AllDims(path), matched) && AreCounted(path, held, countp)
    requires AsksSomething(startp, countp, stridep, |AllDims(path)|)
    requires AreVaraViews(path, views, startp, countp, stridep) && AreShifted(walk, views)
    ensures AreSpans(walk.variable.segments, held)
  {
    forall k | 0 <= k < |held|
      ensures IsSpan(walk.variable.segments[k], held[k])
    {
      ShiftedLayer(us, path, held, views, startp, countp, stridep, matched, k);
      assert walk.variable.segments[k] in walk.variable.segments;
      assert walk.View()[k] == ShiftView(views[k]);
      assert IsVaraAt(path, views, startp, countp, stridep, k);
    }
  }

  /** The shifted projection of the request walks over all that was sent. */
  method ShiftedWalk(path: seq<PathNode>, annotation: Option<CDFnode>, startp: seq<nat>, countp: seq<nat>,
                     stridep: seq<nat>, ghost held: seq<PathNode>, ghost us: seq<Slice>, ghost matched: bool)
    returns (walk: DCEprojection)
    requires WellFormedPath(path) && EnoughArguments(RankBefore(path, |path|), startp, countp, stridep)
    requires AllAsked(us, startp, countp, stridep, AllDims(path), matched) && AreCounted(path, held, countp)
    requires AsksSomething(startp, countp, stridep, |AllDims(path)|)
    ensures AreSpans(walk.variable.segments, held) && IsNonEmpty(held)
  {
    ghost var views;
    walk, views := ShiftedVara(path, annotation, startp, countp, stridep);
    ShiftedAreSpans(walk, views, us, path, held, startp, countp, stridep, matched);
    SpansAreNonEmpty(walk.variable.segments, held);
  }

  /** Read in what was sent, into empty memory. */
  method ReadSpans<T>(content: Content<T>, held: seq<PathNode>, segments: seq<DCEsegment>, requireconversion: bool,
                      convert: T -> T) returns (memory: NCMemory<T>)
    requires HasShape(content, held) && AreSpans(segments, held)
    ensures memory.View() == After(MemoryView([], 0), content, MovesOn(held, requireconversion),
                                   if requireconversion then convert else Identity)
  {
    memory := new NCMemory();
    MoveToPart(content, held, segments, requireconversion, convert, memory);
  }

  /** Read in what was sent for a request. What memory holds in the end is what was requested iff the values need a
      conversion, or the variable has no dimensions of its own, or it is read only once. */
  method ReadFetched<T>(path: seq<PathNode>, annotation: Option<CDFnode>, startp: seq<nat>, countp: seq<nat>,
                        stridep: seq<nat>, content: Content<T>, held: seq<PathNode>, requireconversion: bool,
                        convert: T -> T, ghost us: seq<Slice>, ghost matched: bool, ghost full: seq<T>)
    returns (memory: NCMemory<T>)
    requires WellFormedPath(path) && EnoughArguments(RankBefore(path, |path|), startp, countp, stridep)
    requires AllAsked(us, startp, countp, stridep, AllDims(path), matched)
    requires AsksSomething(startp, countp, stridep, |AllDims(path)|)
    requires IsAnswer(content, held, us, path, startp, countp, stridep, full)
    ensures HoldsRequest(memory.written, us, VaraSlices(startp, countp, stridep, AllDims(path), |AllDims(path)|),
                         AllDims(path), full, if requireconversion then convert else Identity)
       <==> MovesOn(held, requireconversion) || OuterCount(held) == 1
  {
    var walk := ShiftedWalk(path, annotation, startp, countp, stridep, held, us, matched);
    memory := ReadSpans(content, held, walk.variable.segments, requireconversion, convert);
    PartIsRight(content, held, us, VaraSlices(startp, countp, stridep, AllDims(path), |AllDims(path)|), AllDims(path),
                full, MovesOn(held, requireconversion), if requireconversion then convert else Identity);
  }

  // ----- Arrays of structures around a variable that is fetched whole

  /** The slice selects 0, 1, 2 and so on. */
  predicate CountsUp(r: Slice)
  {
    r.first == 0 && (r.stride == 1 || r.last < r.stride)
  }

  lemma {:induction false} LastInPlace(first: nat, stride: nat, m: nat)
    requires 0 < stride
    ensures first + m * stride <= m <==> first == 0 && (stride == 1 || m == 0)
  {
    MulOrder(1, stride, m);
    if stride > 1 {
      MulOrder(2, stride, m);
    }
  }

  /** The last of the slice's indices. */
  lemma {:induction false} LastIndex(r: Slice)
    requires 0 < r.stride && r.first <= r.last
    ensures 0 < |Indices(r)| && (|Indices(r)| == 1 <==> r.last < r.first + r.stride)
    ensures Indices(r)[|Indices(r)| - 1] == r.first + (|Indices(r)| - 1) * r.stride
  {
    StepsHead(r.first, r.last + 1, r.stride);
    StepsAt(r.first, r.last + 1, r.stride, |Indices(r)| - 1);
    StepsAt(r.first, r.last + 1, r.stride, 1);
  }

  lemma {:induction false} CountsUpAt(r: Slice, k: nat)
    requires 0 < r.stride && r.first <= r.last
    ensures var n := |Indices(r)|;
            0 < n && (CountsUp(r) <==> Indices(r)[n - 1] < n) && (CountsUp(r) && k < n ==> Indices(r)[k] == k)
  {
    LastIndex(r);
    LastInPlace(r.first, r.stride, |Indices(r)| - 1);
    StepsAt(r.first, r.last + 1, r.stride, k);
  }

  /** The point with the last index of slice d, and the first of the others. */
  lemma {:induction false} PointWithLast(rs: seq<Slice>, d: nat) returns (p: seq<nat>)
    requires PositiveStrides(rs) && IsFull(rs) && d < |rs|
    ensures p in Points(WheelsOf(rs)) && |p| == |rs|
    ensures 0 < |Indices(rs[d])| && p[d] == Indices(rs[d])[|Indices(rs[d])| - 1]
  {
    forall i | 0 <= i < |rs|
      ensures 0 < |Indices(rs[i])|
    {
      StepsHead(rs[i].first, rs[i].last + 1, rs[i].stride);
    }
    p := seq(|rs|, i requires 0 <= i < |rs| =>
      Indices(rs[i])[if i == d then |Indices(rs[i])| - 1 else 0]);
    PointsMember(WheelsOf(rs), p);
  }

  predicate AllCountUp(rs: seq<Slice>)
  {
    forall d {:trigger CountsUp(rs[d])} :: 0 <= d < |rs| ==> CountsUp(rs[d])
  }

  /** The point is one of what was sent. */
  predicate IsSent(rs: seq<Slice>, p: seq<nat>)
    requires PositiveStrides(rs)
  {
    InSelection(Selections(rs), p)
  }

  /** What was sent for the point is what is there. */
  predicate IsFound(rs: seq<Slice>, p: seq<nat>)
    requires PositiveStrides(rs)
  {
    IsSent(rs, p) && LookUp(Selections(rs), p) == p
  }

  lemma {:induction false} StaysAt(rs: seq<Slice>, p: seq<nat>)
    requires PositiveStrides(rs) && IsFull(rs) && AllCountUp(rs) && p in Points(WheelsOf(rs))
    ensures IsSent(rs, p) && IsFound(rs, p)
  {
    PointsMember(WheelsOf(rs), p);
    forall d | 0 <= d < |rs|
      ensures p[d] < |Indices(rs[d])| && Indices(rs[d])[p[d]] == p[d]
    {
      assert p[d] in Digits(WheelsOf(rs)[d]) && CountsUp(rs[d]);
      var k :| 0 <= k < |Indices(rs[d])| && Indices(rs[d])[k] == p[d];
      CountsUpAt(rs[d], k);
    }
    LookUpAt(Selections(rs), p);
  }

  /** When the slices of a variable are dropped for its fetch, those of the arrays of structures around it are not: the
      server sends what they select, and the walk takes the same slices as places in what was sent. It stays inside iff
      each slice selects 0, 1, 2 and so on; then it also comes to what it should. */
  lemma {:induction false} OuterWalkStays(rs: seq<Slice>)
    requires PositiveStrides(rs) && IsFull(rs)
    ensures (forall p {:trigger IsSent(rs, p)} :: p in Points(WheelsOf(rs)) ==> IsSent(rs, p)) <==> AllCountUp(rs)
    ensures (forall p {:trigger IsFound(rs, p)} :: p in Points(WheelsOf(rs)) ==> IsFound(rs, p)) <==> AllCountUp(rs)
  {
    if AllCountUp(rs) {
      forall p | p in Points(WheelsOf(rs))
        ensures IsSent(rs, p) && IsFound(rs, p)
      {
        StaysAt(rs, p);
      }
    } else {
      var d :| 0 <= d < |rs| && !CountsUp(rs[d]);
      var p := PointWithLast(rs, d);
      CountsUpAt(rs[d], 0);
      assert !IsSent(rs, p) && !IsFound(rs, p);
    }
  }

  /** Structures 5 and 6 of an array of 7 are requested, and sent. But then structure 5 of 2 is looked for. */
  lemma {:induction false} OuterWalkLost()
    ensures Accepted(5, 2, 1, 7)
    ensures var rs := [VaraSlice(5, 2, 1, 7)];
            && PositiveStrides(rs) && IsFull(rs) && !CountsUp(rs[0]) && Indices(rs[0]) == [5, 6]
            && !IsSent(rs, [5])
  {
    assert Steps(7, 7, 1) == [] && Steps(6, 7, 1) == [6] + Steps(7, 7, 1) && Steps(5, 7, 1) == [5] + Steps(6, 7, 1);
    assert VaraSlice(5, 2, 1, 7) == Slice(5, 1, 2, 6, 2, 7);
  }

  // ----- An array that is read straight to memory

  /** The slice selects all of its dimension. */
  predicate TakesAll(r: Slice, size: nat)
  {
    0 < r.stride && |Indices(r)| == size
  }

  /** Single first indices, then a run of indices from the first on, and then all of each dimension. */
  predicate LeadsIn(rs: seq<Slice>, sizes: seq<nat>)
    requires |rs| == |sizes|
  {
    rs == []
    || (&& CountsUp(rs[0])
        && if rs[0].last < rs[0].stride then LeadsIn(rs[1..], sizes[1..])
           else forall d :: 0 < d < |rs| ==> TakesAll(rs[d], sizes[d]))
  }

  /** The slices stay inside their dimensions, and select something. */
  predicate AreInside(rs: seq<Slice>, sizes: seq<nat>)
  {
    && PositiveStrides(rs) && |rs| == |sizes|
    && forall d {:trigger rs[d]} :: 0 <= d < |rs| ==> rs[d].first <= rs[d].last < sizes[d]
  }

  lemma {:induction false} InsideTail(rs: seq<Slice>, sizes: seq<nat>)
    requires AreInside(rs, sizes) && rs != []
    ensures AreInside(rs[1..], sizes[1..]) && WheelsOf(rs)[1..] == WheelsOf(rs[1..])
  {
    assert forall r <- rs[1..] :: r in rs;
  }

  /** There is a first point, and no more points than elements. */
  lemma {:induction false} InsideCount(rs: seq<Slice>, sizes: seq<nat>)
    requires AreInside(rs, sizes)
    ensures 0 < |Points(WheelsOf(rs))| <= Product(sizes)
    ensures |Points(WheelsOf(rs))| == Product(sizes) <==> forall d :: 0 <= d < |rs| ==> TakesAll(rs[d], sizes[d])
  {
    if rs != [] {
      InsideTail(rs, sizes);
      InsideCount(rs[1..], sizes[1..]);
      var m, n := |Indices(rs[0])|, |Points(WheelsOf(rs[1..]))|;
      LastIndex(rs[0]);
      RowsLength(Indices(rs[0]), Points(WheelsOf(rs[1..])));
      NoMoreIndices(rs[0], sizes[0]);
      ProductOrder(m, sizes[0], n, Product(sizes[1..]));
      assert (forall d :: 0 <= d < |rs| ==> TakesAll(rs[d], sizes[d]))
        <==> TakesAll(rs[0], sizes[0]) && forall d :: 0 <= d < |rs| - 1 ==> TakesAll(rs[1..][d], sizes[1..][d]) by {
        assert forall d :: 0 < d < |rs| ==> rs[d] == rs[1..][d - 1] && sizes[d] == sizes[1..][d - 1];
      }
    }
  }

  lemma {:induction false} NoMoreIndices(r: Slice, size: nat)
    requires 0 < r.stride && r.last < size
    ensures |Indices(r)| <= size
  {
    NoMoreSteps(r.first, r.last + 1, r.stride);
  }

  lemma {:induction false} ProductOrder(a: nat, b: nat, c: nat, d: nat)
    requires 0 < a <= b && 0 < c <= d
    ensures 0 < a * c <= b * d && (a * c == b * d <==> a == b && c == d)
  {
    MulOrder(1, a, c);
    MulOrder(a, b, c);
    MulOrder(c, d, b);
    if a < b {
      MulOrder(a + 1, b, c);
      assert (a + 1) * c == a * c + c;
    }
    if c < d {
      MulOrder(c + 1, d, b);
      assert (c + 1) * b == c * b + b;
    }
  }

  /** Element k of what is selected is element k of the array. */
  ghost predicate AreInOrder(rs: seq<Slice>, sizes: seq<nat>)
    requires PositiveStrides(rs)
  {
    var points := Points(WheelsOf(rs));
    forall k {:trigger points[k]} :: 0 <= k < |points| ==> |points[k]| == |sizes| && Offset(sizes, points[k]) == k
  }

  /** The place of the point that has index i along the first dimension and is point j along the others. */
  lemma {:induction false} JoinedPoint(dims: seq<Dim>, i: nat, j: nat) returns (k: nat)
    requires dims != [] && i < |Digits(dims[0])| && j < |Points(dims[1..])|
    ensures k == i * |Points(dims[1..])| + j && k < |Points(dims)|
    ensures |Points(dims)[k]| == |dims| && Points(dims)[k][0] == Digits(dims[0])[i]
    ensures Points(dims)[k][1..] == Points(dims[1..])[j]
  {
    PointsJoin(dims, i, j);
    k := i * |Points(dims[1..])| + j;
    PointLength(dims, k);
  }

  lemma {:induction false} JoinedOffset(rs: seq<Slice>, sizes: seq<nat>, i: nat, j: nat)
    requires AreInside(rs, sizes) && rs != [] && PositiveStrides(rs[1..])
    requires i < |Indices(rs[0])| && j < |Points(WheelsOf(rs[1..]))|
    ensures var points, inner := Points(WheelsOf(rs)), Points(WheelsOf(rs[1..]));
            var k := i * |inner| + j;
            && k < |points| && |points[k]| == |rs| && |inner[j]| == |rs| - 1
            && Offset(sizes, points[k]) == Indices(rs[0])[i] * Product(sizes[1..]) + Offset(sizes[1..], inner[j])
  {
    InsideTail(rs, sizes);
    var k := JoinedPoint(WheelsOf(rs), i, j);
    OffsetCons(sizes, Points(WheelsOf(rs))[k]);
  }

  lemma {:induction false} AllLeadsIn(rs: seq<Slice>, sizes: seq<nat>)
    requires AreInside(rs, sizes) && forall d :: 0 <= d < |rs| ==> TakesAll(rs[d], sizes[d])
    ensures LeadsIn(rs, sizes)
  {
    if rs != [] {
      InsideTail(rs, sizes);
      CountsUpAt(rs[0], 0);
      LastIndex(rs[0]);
      StepsMember(rs[0].first, rs[0].last + 1, rs[0].stride, Indices(rs[0])[|Indices(rs[0])| - 1]);
      AllLeadsIn(rs[1..], sizes[1..]);
    }
  }

  lemma {:induction false} FirstRowAt(rs: seq<Slice>, sizes: seq<nat>, j: nat)
    requires AreInside(rs, sizes) && rs != [] && AreInOrder(rs, sizes) && PositiveStrides(rs[1..])
    requires j < |Points(WheelsOf(rs[1..]))|
    ensures |Points(WheelsOf(rs[1..]))[j]| == |rs| - 1
    ensures rs[0].first * Product(sizes[1..]) + Offset(sizes[1..], Points(WheelsOf(rs[1..]))[j]) == j
  {
    StepsHead(rs[0].first, rs[0].last + 1, rs[0].stride);
    JoinedOffset(rs, sizes, 0, j);
    assert 0 * |Points(WheelsOf(rs[1..]))| == 0;
  }

  lemma {:induction false} NothingBefore(x: nat, w: nat, y: nat)
    requires x * w + y == 0 && 0 < w
    ensures x == 0
  {
    MulOrder(1, w, x);
  }

  lemma {:induction false} FirstRow(rs: seq<Slice>, sizes: seq<nat>)
    requires AreInside(rs, sizes) && rs != [] && AreInOrder(rs, sizes)
    ensures rs[0].first == 0 && PositiveStrides(rs[1..]) && AreInOrder(rs[1..], sizes[1..])
  {
    InsideTail(rs, sizes);
    InsideCount(rs[1..], sizes[1..]);
    var inner := Points(WheelsOf(rs[1..]));
    FirstRowAt(rs, sizes, 0);
    NothingBefore(rs[0].first, Product(sizes[1..]), Offset(sizes[1..], inner[0]));
    forall j | 0 <= j < |inner|
      ensures |inner[j]| == |sizes[1..]| && Offset(sizes[1..], inner[j]) == j
    {
      FirstRowAt(rs, sizes, j);
    }
  }

  lemma {:induction false} NoGap(stride: nat, w: nat, n: nat)
    requires 0 < stride && stride * w == n <= w && 0 < n
    ensures stride == 1 && n == w
  {
    if stride > 1 {
      MulOrder(2, stride, w);
    }
  }

  lemma {:induction false} SecondRowAt(rs: seq<Slice>, sizes: seq<nat>)
    requires AreInside(rs, sizes) && rs != [] && AreInOrder(rs, sizes) && rs[0].first == 0
    requires rs[0].stride <= rs[0].last && PositiveStrides(rs[1..]) && AreInOrder(rs[1..], sizes[1..])
    requires 0 < |Points(WheelsOf(rs[1..]))|
    ensures rs[0].stride * Product(sizes[1..]) == |Points(WheelsOf(rs[1..]))|
  {
    var inner := Points(WheelsOf(rs[1..]));
    StepsAt(rs[0].first, rs[0].last + 1, rs[0].stride, 1);
    JoinedOffset(rs, sizes, 1, 0);
    assert 1 * |inner| == |inner| && 1 * rs[0].stride == rs[0].stride;
    assert Offset(sizes[1..], inner[0]) == 0;
  }

  /** When there is a second row, it begins right behind the first, which therefore takes all of the other
      dimensions. */
  lemma {:induction false} SecondRow(rs: seq<Slice>, sizes: seq<nat>)
    requires AreInside(rs, sizes) && rs != [] && AreInOrder(rs, sizes) && rs[0].first == 0
    requires rs[0].stride <= rs[0].last && PositiveStrides(rs[1..]) && AreInOrder(rs[1..], sizes[1..])
    ensures rs[0].stride == 1 && forall d :: 0 < d < |rs| ==> TakesAll(rs[d], sizes[d])
  {
    InsideTail(rs, sizes);
    InsideCount(rs[1..], sizes[1..]);
    SecondRowAt(rs, sizes);
    NoGap(rs[0].stride, Product(sizes[1..]), |Points(WheelsOf(rs[1..]))|);
    assert forall d :: 0 < d < |rs| ==> rs[d] == rs[1..][d - 1] && sizes[d] == sizes[1..][d - 1];
  }

  lemma {:induction false} RowsInOrder(rs: seq<Slice>, sizes: seq<nat>)
    requires AreInside(rs, sizes) && rs != [] && CountsUp(rs[0])
    requires PositiveStrides(rs[1..]) && AreInOrder(rs[1..], sizes[1..])
    requires rs[0].last < rs[0].stride || |Points(WheelsOf(rs[1..]))| == Product(sizes[1..])
    ensures AreInOrder(rs, sizes)
  {
    InsideTail(rs, sizes);
    LastIndex(rs[0]);
    var points, inner := Points(WheelsOf(rs)), Points(WheelsOf(rs[1..]));
    forall k | 0 <= k < |points|
      ensures |points[k]| == |sizes| && Offset(sizes, points[k]) == k
    {
      var i, j := PointsSplit(WheelsOf(rs), k);
      CountsUpAt(rs[0], i);
      JoinedOffset(rs, sizes, i, j);
      SamePlace(i, |inner|, Product(sizes[1..]));
    }
  }

  /** Rows of n elements begin where rows of w do, if there is only one or they are equally long. */
  lemma {:induction false} SamePlace(i: nat, n: nat, w: nat)
    requires i == 0 || n == w
    ensures i * n == i * w
  {
  }

  /** Reading as many elements as are selected, from the first of the array on, reads those that are selected iff the
      slices take single first indices, then a run from the first on, and then all of each dimension. */
  lemma {:induction false} StraightIsInOrder(rs: seq<Slice>, sizes: seq<nat>)
    requires AreInside(rs, sizes)
    ensures AreInOrder(rs, sizes) <==> LeadsIn(rs, sizes)
  {
    if rs != [] {
      InsideTail(rs, sizes);
      StraightIsInOrder(rs[1..], sizes[1..]);
      InsideCount(rs[1..], sizes[1..]);
      if AreInOrder(rs, sizes) {
        FirstRow(rs, sizes);
        if rs[0].stride <= rs[0].last {
          SecondRow(rs, sizes);
        }
      }
      if LeadsIn(rs, sizes) {
        if rs[0].stride <= rs[0].last {
          assert forall d :: 0 <= d < |rs| - 1 ==> rs[1..][d] == rs[d + 1] && sizes[1..][d] == sizes[d + 1];
          AllLeadsIn(rs[1..], sizes[1..]);
        }
        RowsInOrder(rs, sizes);
      }
    }
  }

  /** What is read straight is what the slices select, for all data or for any without equal elements. */
  lemma {:induction false} StraightIsSelection<T>(rs: seq<Slice>, sizes: seq<nat>, data: seq<T>)
    requires AreInside(rs, sizes) && |data| == Product(sizes)
    ensures |Points(WheelsOf(rs))| <= |data| && PositiveStrides(Redeclared(rs, sizes))
    ensures LeadsIn(rs, sizes) ==>
              HoldsSelection(data[..|Points(WheelsOf(rs))|], Redeclared(rs, sizes), data, Identity)
    ensures HoldsSelection(data[..|Points(WheelsOf(rs))|], Redeclared(rs, sizes), data, Identity) && AllDiffer(data) ==>
              LeadsIn(rs, sizes)
  {
    InsideCount(rs, sizes);
    StraightIsInOrder(rs, sizes);
    RedeclaredWheels(rs, sizes);
    DeclaredPoints(WheelsOf(rs), sizes);
    var points := Points(WheelsOf(rs));
    var values := data[..|points|];
    if LeadsIn(rs, sizes) {
      forall k | 0 <= k < |values|
        ensures IsElement(values[k], data, sizes, points[k], Identity)
      {
        assert |points[k]| == |sizes| && Offset(sizes, points[k]) == k;
      }
    }
    if HoldsSelection(values, Redeclared(rs, sizes), data, Identity) && AllDiffer(data) {
      forall k | 0 <= k < |points|
        ensures |points[k]| == |sizes| && Offset(sizes, points[k]) == k
      {
        assert IsElement(values[k], data, sizes, points[k], Identity);
      }
    }
  }
}
