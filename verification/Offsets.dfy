/** The linear offsets met along a run of the odometer, and why a suffix of whole dimensions is one chunk. */
module Offsets {
  import opened Ranges
  import opened Boxes
  import opened Odometer

  /** Every index that the wheel reaches lies inside the declared dimension. */
  predicate Fits(d: Dim)
  {
    forall x <- Digits(d) :: x < d.declsize
  }

  predicate AllFit(dims: seq<Dim>)
  {
    forall d <- dims :: Fits(d)
  }

  predicate Within(sizes: seq<nat>, p: seq<nat>)
  {
    |p| == |sizes| && forall i :: 0 <= i < |p| ==> p[i] < sizes[i]
  }

  /** The wheel runs over its whole dimension, one index at a time. */
  predicate IsWholeWheel(d: Dim)
  {
    d.start == 0 && d.stride == 1 && d.stop == d.declsize
  }

  predicate AllWhole(dims: seq<Dim>)
  {
    forall d <- dims :: IsWholeWheel(d)
  }

  /** The steps of a dense row-major target: each wheel is weighted by the number of points to its right. */
  function RowMajorSteps(dims: seq<Dim>): (steps: seq<int>)
    ensures |steps| == |dims|
  {
    if dims == [] then [] else [|Points(dims[1..])|] + RowMajorSteps(dims[1..])
  }

  // ----- Offsets are faithful

  lemma {:induction false} ProductSnoc(sizes: seq<nat>, n: nat)
    ensures Product(sizes + [n]) == Product(sizes) * n
  {
    if sizes == [] {
      assert sizes + [n] == [n];
      assert Product([n]) == n * Product([]);
    } else {
      assert (sizes + [n])[1..] == sizes[1..] + [n];
      ProductSnoc(sizes[1..], n);
      assert sizes[0] * (Product(sizes[1..]) * n) == (sizes[0] * Product(sizes[1..])) * n;
    }
  }

  lemma {:induction false} Horner(x: nat, y: nat, z: nat, n: nat)
    ensures (x * y + z) * n == x * (y * n) + z * n
  {
    assert x * (y * n) == (x * y) * n;
  }

  /** Offsets read from the left: the first index is weighted by the size of everything to its right. */
  lemma {:induction false} OffsetCons(sizes: seq<nat>, p: seq<nat>)
    requires |p| == |sizes| && sizes != []
    ensures Offset(sizes, p) == p[0] * Product(sizes[1..]) + Offset(sizes[1..], p[1..])
    decreases |sizes|
  {
    var last := |sizes| - 1;
    if last == 0 {
      assert sizes[1..] == [] && Product(sizes[1..]) == 1;
    } else {
      OffsetCons(sizes[..last], p[..last]);
      assert sizes[..last][1..] == sizes[1..][..last - 1] && p[..last][1..] == p[1..][..last - 1];
      ProductSnoc(sizes[1..][..last - 1], sizes[last]);
      assert sizes[1..] == sizes[1..][..last - 1] + [sizes[last]];
      Horner(p[0], Product(sizes[1..][..last - 1]), Offset(sizes[1..][..last - 1], p[1..][..last - 1]), sizes[last]);
    }
  }

  /** Offsets stay below the size of the array. */
  lemma {:induction false} OffsetBound(sizes: seq<nat>, p: seq<nat>)
    requires Within(sizes, p)
    ensures Offset(sizes, p) < Product(sizes)
  {
    if sizes != [] {
      OffsetCons(sizes, p);
      OffsetBound(sizes[1..], p[1..]);
      MulOrder(p[0] + 1, sizes[0], Product(sizes[1..]));
      assert (p[0] + 1) * Product(sizes[1..]) == p[0] * Product(sizes[1..]) + Product(sizes[1..]);
    }
  }

  /** Offsets follow the row-major order of the elements. */
  lemma {:induction false} OffsetOrder(sizes: seq<nat>, p: seq<nat>, q: seq<nat>)
    requires Within(sizes, p) && Within(sizes, q) && LexLess(p, q)
    ensures Offset(sizes, p) < Offset(sizes, q)
  {
    OffsetCons(sizes, p);
    OffsetCons(sizes, q);
    if p[0] == q[0] {
      OffsetOrder(sizes[1..], p[1..], q[1..]);
    } else {
      OffsetBound(sizes[1..], p[1..]);
      MulOrder(p[0] + 1, q[0], Product(sizes[1..]));
      assert (p[0] + 1) * Product(sizes[1..]) == p[0] * Product(sizes[1..]) + Product(sizes[1..]);
    }
  }

  lemma {:induction false} PointWithin(dims: seq<Dim>, k: nat)
    requires AllFit(dims) && k < |Points(dims)|
    ensures Within(DeclSizes(dims), Points(dims)[k])
  {
    var p := Points(dims)[k];
    PointsMember(dims, p);
    forall i | 0 <= i < |p|
      ensures p[i] < DeclSizes(dims)[i]
    {
      assert dims[i] in dims;
      assert p[i] in Digits(dims[i]);
    }
  }

  /** Along a run the offsets strictly increase and stay inside the array, so no two points share one. */
  lemma {:induction false} OffsetsFaithful(dims: seq<Dim>, k1: nat, k2: nat)
    requires AllFit(dims) && k1 < k2 < |Points(dims)|
    ensures |Points(dims)[k1]| == |Points(dims)[k2]| == |dims|
    ensures Offset(DeclSizes(dims), Points(dims)[k1]) < Offset(DeclSizes(dims), Points(dims)[k2])
                                                      < Product(DeclSizes(dims))
  {
    PointWithin(dims, k1);
    PointWithin(dims, k2);
    PointsOrdered(dims, k1, k2);
    OffsetOrder(DeclSizes(dims), Points(dims)[k1], Points(dims)[k2]);
    OffsetBound(DeclSizes(dims), Points(dims)[k2]);
  }

  // ----- Counting points

  lemma {:induction false} VarmCons(dims: seq<Dim>, steps: seq<int>, p: seq<nat>)
    requires |p| == |dims| <= |steps| && dims != []
    ensures VarmOffset(dims, steps, p)
         == ((p[0] as int - dims[0].start) / dims[0].stride) * steps[0] + VarmOffset(dims[1..], steps[1..], p[1..])
    decreases |dims|
  {
    var last := |dims| - 1;
    if last == 0 {
      assert VarmOffset(dims[..0], steps, p[..0]) == 0;
      assert VarmOffset(dims[1..], steps[1..], p[1..]) == 0;
    } else {
      VarmCons(dims[..last], steps, p[..last]);
      assert dims[..last][1..] == dims[1..][..last - 1] && p[..last][1..] == p[1..][..last - 1];
      assert steps[1..][last - 1] == steps[last];
    }
  }

  /** At step k of a run, the weighted stride count with row-major steps is k. */
  lemma {:induction false} VarmCountsPoints(dims: seq<Dim>, k: nat)
    requires k < |Points(dims)|
    ensures |Points(dims)[k]| == |dims|
    ensures VarmOffset(dims, RowMajorSteps(dims), Points(dims)[k]) == k
  {
    PointLength(dims, k);
    if dims != [] {
      var p := Points(dims)[k];
      var i, j := PointsSplit(dims, k);
      VarmCountsPoints(dims[1..], j);
      VarmCons(dims, RowMajorSteps(dims), p);
      assert RowMajorSteps(dims)[1..] == RowMajorSteps(dims[1..]);
      assert p[1..] == Points(dims[1..])[j];
      StepsAt(dims[0].start, dims[0].stop, dims[0].stride, i);
      DividesBack(i, dims[0].stride);
      assert p[0] as int - dims[0].start == i * dims[0].stride;
    }
  }

  lemma {:induction false} DividesBack(i: nat, d: nat)
    requires 0 < d
    ensures (i * d) / d == i
  {
    assert (i + 1) * d == i * d + d;
    Quotient(i * d, d, i);
  }

  // ----- A suffix of whole dimensions is one chunk

  lemma {:induction false} WholeDigits(d: Dim, i: nat)
    requires IsWholeWheel(d)
    ensures |Digits(d)| == d.declsize
    ensures i < d.declsize ==> Digits(d)[i] == i
  {
    StepsAt(0, d.stop, 1, i);
    StepsAt(0, d.stop, 1, d.declsize);
    if 0 < d.declsize {
      StepsAt(0, d.stop, 1, d.declsize - 1);
    }
  }

  /** A run over whole dimensions meets the offsets 0, 1, 2, ... in turn. */
  lemma {:induction false} WholeOffsets(dims: seq<Dim>, k: nat)
    requires AllWhole(dims)
    ensures |Points(dims)| == Product(DeclSizes(dims))
    ensures k < |Points(dims)| ==> |Points(dims)[k]| == |dims| && Offset(DeclSizes(dims), Points(dims)[k]) == k
  {
    if dims != [] {
      WholeDigits(dims[0], 0);
      WholeOffsets(dims[1..], 0);
      RowsLength(Digits(dims[0]), Points(dims[1..]));
      assert DeclSizes(dims)[1..] == DeclSizes(dims[1..]);
      if k < |Points(dims)| {
        var i, j := PointsSplit(dims, k);
        WholeDigits(dims[0], i);
        WholeOffsets(dims[1..], j);
        OffsetCons(DeclSizes(dims), Points(dims)[k]);
        assert Points(dims)[k][1..] == Points(dims[1..])[j];
      }
    }
  }

  /** Every element of the left list followed by every element of the right one. */
  function Cross(ps: seq<seq<nat>>, qs: seq<seq<nat>>): seq<seq<nat>>
  {
    if ps == [] then [] else Extended(ps[0], qs) + Cross(ps[1..], qs)
  }

  function Extended(p: seq<nat>, qs: seq<seq<nat>>): (r: seq<seq<nat>>)
    ensures |r| == |qs|
  {
    if qs == [] then [] else [p + qs[0]] + Extended(p, qs[1..])
  }

  lemma {:induction false} ExtendedAt(p: seq<nat>, qs: seq<seq<nat>>, k: nat)
    requires k < |qs|
    ensures Extended(p, qs)[k] == p + qs[k]
  {
    if k != 0 {
      ExtendedAt(p, qs[1..], k - 1);
    }
  }

  lemma {:induction false} CrossConcat(ps: seq<seq<nat>>, ps': seq<seq<nat>>, qs: seq<seq<nat>>)
    ensures Cross(ps + ps', qs) == Cross(ps, qs) + Cross(ps', qs)
  {
    if ps == [] {
      assert ps + ps' == ps';
    } else {
      CrossConcat(ps[1..], ps', qs);
      assert (ps + ps')[0] == ps[0] && (ps + ps')[1..] == ps[1..] + ps';
      var e, x, y := Extended(ps[0], qs), Cross(ps[1..], qs), Cross(ps', qs);
      assert e + (x + y) == (e + x) + y;
    }
  }

  lemma {:induction false} PrefixedConcat(h: nat, ps: seq<seq<nat>>, qs: seq<seq<nat>>)
    ensures Prefixed(h, ps + qs) == Prefixed(h, ps) + Prefixed(h, qs)
  {
    PrefixedAt(h, ps);
    PrefixedAt(h, qs);
    PrefixedAt(h, ps + qs);
  }

  lemma {:induction false} PrefixedCross(h: nat, ps: seq<seq<nat>>, qs: seq<seq<nat>>)
    ensures Prefixed(h, Cross(ps, qs)) == Cross(Prefixed(h, ps), qs)
  {
    if ps != [] {
      PrefixedCross(h, ps[1..], qs);
      PrefixedConcat(h, Extended(ps[0], qs), Cross(ps[1..], qs));
      PrefixedExtended(h, ps[0], qs);
    }
  }

  lemma {:induction false} PrefixedExtended(h: nat, p: seq<nat>, qs: seq<seq<nat>>)
    ensures Prefixed(h, Extended(p, qs)) == Extended([h] + p, qs)
  {
    if qs != [] {
      PrefixedExtended(h, p, qs[1..]);
      assert [h] + (p + qs[0]) == [h] + p + qs[0];
    }
  }

  lemma {:induction false} ExtendedByNothing(qs: seq<seq<nat>>)
    ensures Extended([], qs) == qs
  {
    if qs != [] {
      ExtendedByNothing(qs[1..]);
      assert [] + qs[0] == qs[0];
    }
  }

  lemma {:induction false} RowsCross(heads: seq<nat>, ps: seq<seq<nat>>, qs: seq<seq<nat>>)
    ensures Rows(heads, Cross(ps, qs)) == Cross(Rows(heads, ps), qs)
  {
    if heads != [] {
      RowsCross(heads[1..], ps, qs);
      PrefixedCross(heads[0], ps, qs);
      CrossConcat(Prefixed(heads[0], ps), Rows(heads[1..], ps), qs);
    }
  }

  /** The box over two groups of dimensions is walked group by group. */
  lemma {:induction false} PointsConcat(a: seq<Dim>, b: seq<Dim>)
    ensures Points(a + b) == Cross(Points(a), Points(b))
  {
    if a == [] {
      assert a + b == b;
      assert Cross([[]], Points(b)) == Extended([], Points(b)) + Cross([], Points(b));
      ExtendedByNothing(Points(b));
    } else {
      assert (a + b)[1..] == a[1..] + b;
      PointsConcat(a[1..], b);
      RowsCross(Digits(a[0]), Points(a[1..]), Points(b));
    }
  }

  lemma {:induction false} OffsetSnoc(sizes: seq<nat>, n: nat, p: seq<nat>, x: nat)
    requires |p| == |sizes|
    ensures Offset(sizes + [n], p + [x]) == Offset(sizes, p) * n + x
  {
    assert (sizes + [n])[..|sizes|] == sizes && (p + [x])[..|p|] == p;
  }

  lemma {:induction false} OffsetConcat(a: seq<nat>, b: seq<nat>, p: seq<nat>, q: seq<nat>)
    requires |p| == |a| && |q| == |b|
    ensures Offset(a + b, p + q) == Offset(a, p) * Product(b) + Offset(b, q)
    decreases |b|
  {
    if b == [] {
      assert a + b == a && p + q == p;
    } else {
      var last := |b| - 1;
      var b', n, q', x := b[..last], b[last], q[..last], q[last];
      OffsetConcat(a, b', p, q');
      assert b == b' + [n] && a + b == a + b' + [n] && p + q == p + q' + [x];
      OffsetSnoc(a + b', n, p + q', x);
      ProductSnoc(b', n);
      Horner(Offset(a, p), Product(b'), Offset(b', q'), n);
    }
  }

  lemma {:induction false} DeclSizesConcat(a: seq<Dim>, b: seq<Dim>)
    ensures DeclSizes(a + b) == DeclSizes(a) + DeclSizes(b)
  {
    forall i | 0 <= i < |a + b|
      ensures DeclSizes(a + b)[i] == (DeclSizes(a) + DeclSizes(b))[i]
    {
    }
  }

  lemma {:induction false} CrossLength(ps: seq<seq<nat>>, qs: seq<seq<nat>>)
    ensures |Cross(ps, qs)| == |ps| * |qs|
  {
    if ps != [] {
      CrossLength(ps[1..], qs);
    }
  }

  lemma {:induction false} CrossAt(ps: seq<seq<nat>>, qs: seq<seq<nat>>, i: nat, j: nat)
    requires i < |ps| && j < |qs|
    ensures i * |qs| + j < |Cross(ps, qs)|
    ensures Cross(ps, qs)[i * |qs| + j] == ps[i] + qs[j]
  {
    if i == 0 {
      ExtendedAt(ps[0], qs, j);
      assert i * |qs| + j == j;
    } else {
      CrossAt(ps[1..], qs, i - 1, j);
      PreviousRow(i, j, |qs|);
      var m: nat := (i - 1) * |qs| + j;
      assert (Extended(ps[0], qs) + Cross(ps[1..], qs))[|qs| + m] == Cross(ps[1..], qs)[m];
    }
  }

  lemma {:induction false} ChunkCount(a: seq<Dim>, b: seq<Dim>)
    ensures |Points(a + b)| == |Points(a)| * |Points(b)|
  {
    PointsConcat(a, b);
    CrossLength(Points(a), Points(b));
  }

  lemma {:induction false} ChunkOffset(a: seq<Dim>, b: seq<Dim>, p: seq<nat>, j: nat)
    requires AllWhole(b) && |p| == |a| && j < |Points(b)|
    ensures |Points(b)[j]| == |b|
    ensures Offset(DeclSizes(a + b), p + Points(b)[j]) == Offset(DeclSizes(a + b), p + Zeros(|b|)) + j
    ensures Offset(DeclSizes(a + b), p + Zeros(|b|)) == Offset(DeclSizes(a), p) * Product(DeclSizes(b))
  {
    WholeOffsets(b, j);
    DeclSizesConcat(a, b);
    OffsetConcat(DeclSizes(a), DeclSizes(b), p, Points(b)[j]);
    OffsetConcat(DeclSizes(a), DeclSizes(b), p, Zeros(|b|));
    OffsetOfZeros(DeclSizes(b));
  }

  /** Point k begins with the row, and lies j places after the row followed by zeros. */
  predicate IsInChunk(sizes: seq<nat>, row: seq<nat>, zeros: seq<nat>, points: seq<seq<nat>>, k: nat, j: nat)
  {
    && k < |points| && |points[k]| == |sizes| == |row| + |zeros| && points[k][..|row|] == row
    && Offset(sizes, points[k]) == Offset(sizes, row + zeros) + j
  }

  /** Chunked reading refines element-wise reading: when the dimensions b are whole, the full walk over a and b
      is the walk over a alone with each point expanded to as many elements as b has, and the elements of the
      i-th chunk have consecutive offsets, starting where the i-th point followed by zeros lies. */
  lemma {:induction false} ChunksRefineElements(a: seq<Dim>, b: seq<Dim>, i: nat, j: nat)
    requires AllWhole(b)
    requires i < |Points(a)| && j < |Points(b)|
    ensures |Points(a)[i]| == |a|
    ensures IsInChunk(DeclSizes(a + b), Points(a)[i], Zeros(|b|), Points(a + b), i * |Points(b)| + j, j)
  {
    PointLength(a, i);
    PointsConcat(a, b);
    CrossAt(Points(a), Points(b), i, j);
    ChunkOffset(a, b, Points(a)[i], j);
  }

  // ----- The same for the walk of an odometer, which visits empty inner wheels once

  lemma {:induction false} ClampConcat(a: seq<Dim>, b: seq<Dim>)
    ensures ClampAll(a + b) == ClampAll(a) + ClampAll(b)
  {
    if a == [] {
      assert a + b == b;
    } else {
      assert (a + b)[1..] == a[1..] + b;
      ClampConcat(a[1..], b);
    }
  }

  lemma {:induction false} WalkWheelsConcat(a: seq<Dim>, b: seq<Dim>)
    requires a != [] && AllNonEmpty(b)
    ensures WalkWheels(a + b) == WalkWheels(a) + b
  {
    assert (a + b)[1..] == a[1..] + b;
    ClampConcat(a[1..], b);
    ClampAllNonEmpty(b);
  }

  /** The walk over a and b is the walk over a with each point extended by the points of b, when b has no empty wheel.
      */
  lemma {:induction false} WalkedConcat(a: seq<Dim>, b: seq<Dim>)
    requires a != [] && AllNonEmpty(b)
    ensures Walked(a + b) == Cross(Walked(a), Points(b))
  {
    WalkWheelsConcat(a, b);
    PointsConcat(WalkWheels(a), b);
  }

  lemma {:induction false} WalkSizes(dims: seq<Dim>)
    ensures |WalkWheels(dims)| == |dims| && DeclSizes(WalkWheels(dims)) == DeclSizes(dims)
  {
    if dims != [] {
      ClampSizes(dims[1..]);
      var walk := WalkWheels(dims);
      assert walk[1..] == ClampAll(dims[1..]);
      assert dims == [dims[0]] + dims[1..] && walk == [dims[0]] + walk[1..];
    }
  }

  lemma {:induction false} ClampSizes(dims: seq<Dim>)
    ensures |ClampAll(dims)| == |dims| && DeclSizes(ClampAll(dims)) == DeclSizes(dims)
  {
    if dims != [] {
      ClampSizes(dims[1..]);
      assert ClampAll(dims)[1..] == ClampAll(dims[1..]);
    }
  }

  lemma {:induction false} WalkOfConcat(a: seq<Dim>, b: seq<Dim>)
    requires a != [] && AllNonEmpty(b)
    ensures |WalkWheels(a)| == |a| && DeclSizes(WalkWheels(a) + b) == DeclSizes(a + b)
    ensures Walked(a) == Points(WalkWheels(a)) && Walked(a + b) == Points(WalkWheels(a) + b)
  {
    WalkWheelsConcat(a, b);
    WalkSizes(a);
    DeclSizesConcat(a, b);
    DeclSizesConcat(WalkWheels(a), b);
  }

  /** Chunked reading refines element-wise reading for every run of the odometer: the elements of the chunk at the i-th
      point of the walk over a are those of consecutive points of the walk over a and b, at consecutive offsets. */
  lemma {:induction false} ChunksRefineWalk(a: seq<Dim>, b: seq<Dim>, i: nat, j: nat)
    requires a != [] && AllWhole(b)
    requires i < |Walked(a)| && j < |Points(b)|
    ensures |Walked(a)[i]| == |a|
    ensures IsInChunk(DeclSizes(a + b), Walked(a)[i], Zeros(|b|), Walked(a + b), i * |Points(b)| + j, j)
  {
    var aw := WalkWheels(a);
    WholeNonEmpty(b, j);
    WalkOfConcat(a, b);
    ChunksRefineElements(aw, b, i, j);
  }

  lemma {:induction false} WholeNonEmpty(b: seq<Dim>, j: nat)
    requires j < |Points(b)|
    ensures AllNonEmpty(b)
  {
    if !AllNonEmpty(b) {
      SomeEmptyNoPoints(b);
    }
  }

  function Zeros(n: nat): (z: seq<nat>)
    ensures |z| == n && forall i :: 0 <= i < n ==> z[i] == 0
  {
    if n == 0 then [] else Zeros(n - 1) + [0]
  }

  lemma {:induction false} OffsetOfZeros(sizes: seq<nat>)
    ensures Offset(sizes, Zeros(|sizes|)) == 0
  {
    if sizes != [] {
      var last := |sizes| - 1;
      OffsetOfZeros(sizes[..last]);
      assert Zeros(|sizes|)[..last] == Zeros(last);
    }
  }
}
