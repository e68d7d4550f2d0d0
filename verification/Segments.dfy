/** Segments of a projection: a name and the slices applied to it. The fixed-size array of slices is embedded in
    the segment, so it is a sequence-valued field here: no other object can alias it. */
module Segments {
  import opened Wrappers
  import opened Ranges
  import opened Slices
  import opened Boxes
  import opened Tree

  const NC_MAX_VAR_DIMS: nat := 1024

  const ZERO_SLICE := Slice(0, 0, 0, 0, 0, 0)

  function ZeroSlices(n: nat): (r: seq<Slice>)
    ensures |r| == n && forall i :: 0 <= i < n ==> r[i] == ZERO_SLICE
  {
    seq(n, i => ZERO_SLICE)
  }

  /** The value of a segment: what a clone must preserve. */
  datatype SegmentView = SegmentView(name: string, slicesdefined: bool, slicesdeclized: bool, rank: nat,
                                     slices: seq<Slice>, annotation: Option<CDFnode>)

  predicate PositiveStrides(slices: seq<Slice>)
  {
    forall s <- slices :: 0 < s.stride
  }

  predicate AllMeetHeader(slices: seq<Slice>)
  {
    forall s <- slices :: MeetsHeader(s)
  }

  function WheelOf(s: Slice): (d: Dim)
    requires 0 < s.stride
    ensures Digits(d) == Indices(s)
  {
    Wheel(s.first, s.last + 1, s.stride, s.declsize)
  }

  function WheelsOf(slices: seq<Slice>): (dims: seq<Dim>)
    requires PositiveStrides(slices)
    ensures |dims| == |slices|
    ensures forall i :: 0 <= i < |slices| ==> dims[i] == WheelOf(slices[i])
  {
    if slices == [] then [] else [WheelOf(slices[0])] + WheelsOf(slices[1..])
  }

  /** The number of elements that count fields promise. */
  function CountProduct(slices: seq<Slice>): nat
  {
    if slices == [] then 1 else slices[0].count * CountProduct(slices[1..])
  }

  class DCEsegment {
    var name: string
    var slicesdefined: bool
    var slicesdeclized: bool
    var rank: nat
    var slices: seq<Slice>
    var annotation: Option<CDFnode>

    ghost predicate Valid()
      reads this
    {
      |slices| == NC_MAX_VAR_DIMS && rank <= NC_MAX_VAR_DIMS
    }

    ghost function View(): SegmentView
      reads this
    {
      SegmentView(name, slicesdefined, slicesdeclized, rank, slices, annotation)
    }

    /** A zeroed segment, as calloc leaves it. */
    constructor ()
      ensures Valid()
      ensures View() == SegmentView("", false, false, 0, ZeroSlices(NC_MAX_VAR_DIMS), None)
    {
      name, slicesdefined, slicesdeclized, rank, annotation := "", false, false, 0, None;
      slices := ZeroSlices(NC_MAX_VAR_DIMS);
    }

    /** Compose slice j with s2 in place; a slice whose composition fails is left alone. */
    method ComposeSlice(j: nat, s2: Slice) returns (err: ErrCode)
      requires Valid() && j < NC_MAX_VAR_DIMS
      requires 0 < slices[j].stride && 0 < s2.stride
      modifies `slices
      ensures err == (if Compose(old(slices[j]), s2).Some? then NC_NOERR else NC_EINVALCOORDS)
      ensures slices == if err == NC_NOERR then old(slices)[j := Compose(old(slices[j]), s2).value] else old(slices)
    {
      var s1 := slices[j];
      var stride := s1.stride * s2.stride;
      var first := MapIndex(s1, s2.first);
      if first > s1.last {
        return NC_EINVALCOORDS;
      }
      var lastx := MapIndex(s1, s2.last);
      var last := Min(s1.last, lastx);
      var length := Minus(last + 1, first);
      var declsize := Max(s1.declsize, s2.declsize);
      assert stride == Times(s1.stride, s2.stride);
      var count := (length + (stride - 1)) / stride;
      slices := slices[j := Slice(first, stride, length, last, count, declsize)];
      err := NC_NOERR;
    }

    /** Index of the leftmost slice from which on every slice up to stop is whole; stop when there is none.
        With start at or beyond stop, the slice at start alone decides. */
    method SafeIndex(start: nat, stop: nat) returns (safe: nat)
      requires Valid() && start < NC_MAX_VAR_DIMS && stop <= NC_MAX_VAR_DIMS
      ensures !slicesdefined || stop == 0 ==> safe == stop
      ensures slicesdefined && start < stop ==>
                && start <= safe <= stop
                && (forall i :: safe <= i < stop ==> IsWhole(slices[i]))
                && (start < safe ==> !IsWhole(slices[safe - 1]))
      ensures slicesdefined && 0 < stop <= start ==> safe == if IsWhole(slices[start]) then start else start + 1
    {
      if !slicesdefined {
        return stop;
      }
      if stop == 0 {
        return stop;
      }
      safe := stop - 1;
      while start < safe
        invariant start < stop ==> start <= safe < stop
        invariant stop <= start ==> safe == stop - 1
        invariant forall i :: safe < i < stop ==> IsWhole(slices[i])
        decreases safe
      {
        if !IsWhole(slices[safe]) {
          return safe + 1;
        }
        safe := safe - 1;
      }
      safe := if IsWhole(slices[start]) then start else start + 1;
    }

    /** The number of elements selected by slices start up to stop; 0 when the slices are not defined. */
    method SegmentSize(start: nat, stop: nat) returns (count: nat)
      requires Valid() && stop <= NC_MAX_VAR_DIMS
      ensures count == if !slicesdefined then 0 else if start <= stop then CountProduct(slices[start..stop]) else 1
    {
      if !slicesdefined {
        return 0;
      }
      count := 1;
      var i := start;
      while i < stop
        invariant start <= i && (start <= stop ==> i <= stop) && (stop < start ==> i == start)
        invariant count == if start <= stop then CountProduct(slices[start..i]) else 1
      {
        CountProductSnoc(slices[start..i], slices[i]);
        assert slices[start..i + 1] == slices[start..i] + [slices[i]];
        count := count * slices[i].count;
        i := i + 1;
      }
    }
  }

  lemma {:induction false} CountProductSnoc(slices: seq<Slice>, s: Slice)
    ensures CountProduct(slices + [s]) == CountProduct(slices) * s.count
  {
    if slices == [] {
      assert slices + [s] == [s];
      assert CountProduct([s]) == s.count * CountProduct([]);
    } else {
      assert (slices + [s])[1..] == slices[1..] + [s];
      CountProductSnoc(slices[1..], s);
      assert slices[0].count * (CountProduct(slices[1..]) * s.count)
          == (slices[0].count * CountProduct(slices[1..])) * s.count;
    }
  }

  /** Under the header invariant, the counts promise exactly the number of points of the box. */
  lemma {:induction false} CountProductIsPoints(slices: seq<Slice>)
    requires AllMeetHeader(slices)
    ensures CountProduct(slices) == |Points(WheelsOf(slices))|
    ensures AllNonEmpty(WheelsOf(slices))
  {
    if slices != [] {
      CountProductIsPoints(slices[1..]);
      assert slices[0] in slices;
      CountIsLength(slices[0]);
      assert WheelsOf(slices)[1..] == WheelsOf(slices[1..]);
      RowsLength(Digits(WheelOf(slices[0])), Points(WheelsOf(slices[1..])));
    }
  }

  // ----- The two candidate stop rules

  /** The wheel that the commented-out rule would build: count strides from first on. */
  function CountedWheel(s: Slice): Dim
    requires 0 < s.stride
  {
    Wheel(s.first, s.first + s.count * s.stride, s.stride, s.declsize)
  }

  function CountedWheels(slices: seq<Slice>): (dims: seq<Dim>)
    requires PositiveStrides(slices)
    ensures |dims| == |slices|
  {
    if slices == [] then [] else [CountedWheel(slices[0])] + CountedWheels(slices[1..])
  }

  lemma {:induction false} CountedDigits(s: Slice)
    requires MeetsHeader(s)
    ensures Digits(CountedWheel(s)) == Indices(s)
  {
    CountIsLength(s);
    assert (s.count - 1) * s.stride + s.stride == s.count * s.stride;
    StepsSameCover(s.first, s.last + 1, s.first + s.count * s.stride, s.stride, s.count);
  }

  /** Stopping after last and stopping after count strides walk the same points in the same order. */
  lemma {:induction false} StopRulesAgree(slices: seq<Slice>)
    requires AllMeetHeader(slices) && PositiveStrides(slices)
    ensures Points(CountedWheels(slices)) == Points(WheelsOf(slices))
  {
    if slices != [] {
      assert slices[0] in slices;
      CountedDigits(slices[0]);
      StopRulesAgree(slices[1..]);
      assert CountedWheels(slices)[1..] == CountedWheels(slices[1..]);
      assert WheelsOf(slices)[1..] == WheelsOf(slices[1..]);
    }
  }
}
