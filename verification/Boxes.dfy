/** The n-dimensional strided box that an odometer walks, and the row-major order of its points. */
module Boxes {
  import opened Ranges

  /** One wheel: the indices start, start+stride, ... below stop, of a dimension declared with declsize elements. */
  datatype Wheel = Wheel(start: nat, stop: nat, stride: nat, declsize: nat)

  type Dim = d: Wheel | 0 < d.stride witness Wheel(0, 0, 1, 0)

  function Digits(d: Dim): seq<nat>
  {
    Steps(d.start, d.stop, d.stride)
  }

  predicate AllNonEmpty(dims: seq<Dim>)
  {
    forall d <- dims :: d.start < d.stop
  }

  function Starts(dims: seq<Dim>): seq<nat>
  {
    if dims == [] then [] else [dims[0].start] + Starts(dims[1..])
  }

  function Prefixed(h: nat, tails: seq<seq<nat>>): seq<seq<nat>>
  {
    if tails == [] then [] else [[h] + tails[0]] + Prefixed(h, tails[1..])
  }

  function Rows(heads: seq<nat>, tails: seq<seq<nat>>): seq<seq<nat>>
  {
    if heads == [] then [] else Prefixed(heads[0], tails) + Rows(heads[1..], tails)
  }

  /** All points of the box, the last coordinate varying fastest. */
  function Points(dims: seq<Dim>): seq<seq<nat>>
  {
    if dims == [] then [[]] else Rows(Digits(dims[0]), Points(dims[1..]))
  }

  predicate InBox(dims: seq<Dim>, p: seq<nat>)
  {
    |p| == |dims| && forall i :: 0 <= i < |p| ==> p[i] in Digits(dims[i])
  }

  predicate LexLess(p: seq<nat>, q: seq<nat>)
  {
    && p != [] && q != []
    && (p[0] < q[0] || (p[0] == q[0] && LexLess(p[1..], q[1..])))
  }

  function Counts(dims: seq<Dim>): seq<nat>
  {
    if dims == [] then [] else [|Digits(dims[0])|] + Counts(dims[1..])
  }

  // ----- Rows laid out one after the other

  lemma {:induction false} PrefixedAt(h: nat, tails: seq<seq<nat>>)
    ensures |Prefixed(h, tails)| == |tails|
    ensures forall j :: 0 <= j < |tails| ==> Prefixed(h, tails)[j] == [h] + tails[j]
  {
    if tails != [] {
      PrefixedAt(h, tails[1..]);
    }
  }

  lemma {:induction false} RowsLength(heads: seq<nat>, tails: seq<seq<nat>>)
    ensures |Rows(heads, tails)| == |heads| * |tails|
  {
    if heads != [] {
      PrefixedAt(heads[0], tails);
      RowsLength(heads[1..], tails);
    }
  }

  lemma {:induction false} PreviousRow(i: nat, j: nat, cols: nat)
    requires 0 < i
    ensures i * cols + j == cols + ((i - 1) * cols + j)
  {
  }

  /** Row i, column j of the layout. */
  lemma {:induction false} RowsAt(heads: seq<nat>, tails: seq<seq<nat>>, i: nat, j: nat)
    requires i < |heads| && j < |tails|
    ensures i * |tails| + j < |Rows(heads, tails)|
    ensures Rows(heads, tails)[i * |tails| + j] == [heads[i]] + tails[j]
  {
    PrefixedAt(heads[0], tails);
    if i == 0 {
      assert i * |tails| + j == j;
    } else {
      RowsAt(heads[1..], tails, i - 1, j);
      PreviousRow(i, j, |tails|);
      var m: nat := (i - 1) * |tails| + j;
      assert (Prefixed(heads[0], tails) + Rows(heads[1..], tails))[|tails| + m] == Rows(heads[1..], tails)[m];
    }
  }

  /** Every position of the layout is some row and column. */
  lemma {:induction false} RowOf(k: nat, rows: nat, cols: nat) returns (i: nat, j: nat)
    requires k < rows * cols
    ensures i < rows && j < cols && k == i * cols + j
  {
    i, j := k / cols, k % cols;
    assert k == i * cols + j;
    assert rows <= i ==> rows * cols <= i * cols;
  }

  /** Positions of the layout are ordered by row, then by column. */
  lemma {:induction false} RowOrder(i1: nat, j1: nat, i2: nat, j2: nat, cols: nat)
    requires j1 < cols && j2 < cols
    requires i1 * cols + j1 < i2 * cols + j2
    ensures i1 < i2 || (i1 == i2 && j1 < j2)
  {
    assert i2 < i1 ==> (i2 + 1) * cols <= i1 * cols && (i2 + 1) * cols == i2 * cols + cols;
  }

  // ----- Points enumerates the box once, in order

  /** There are as many points as the product of the counts. */
  lemma {:induction false} PointsCount(dims: seq<Dim>)
    ensures |Points(dims)| == Product(Counts(dims))
  {
    if dims != [] {
      PointsCount(dims[1..]);
      RowsLength(Digits(dims[0]), Points(dims[1..]));
    }
  }

  /** The decomposition of the k-th point: the head is digit i, the tail is point j of the remaining box. */
  lemma {:induction false} PointsSplit(dims: seq<Dim>, k: nat) returns (i: nat, j: nat)
    requires dims != [] && k < |Points(dims)|
    ensures i < |Digits(dims[0])| && j < |Points(dims[1..])|
    ensures k == i * |Points(dims[1..])| + j
    ensures Points(dims)[k] == [Digits(dims[0])[i]] + Points(dims[1..])[j]
  {
    var heads, tails := Digits(dims[0]), Points(dims[1..]);
    RowsLength(heads, tails);
    i, j := RowOf(k, |heads|, |tails|);
    RowsAt(heads, tails, i, j);
  }

  lemma {:induction false} PointsJoin(dims: seq<Dim>, i: nat, j: nat)
    requires dims != []
    requires i < |Digits(dims[0])| && j < |Points(dims[1..])|
    ensures i * |Points(dims[1..])| + j < |Points(dims)|
    ensures Points(dims)[i * |Points(dims[1..])| + j] == [Digits(dims[0])[i]] + Points(dims[1..])[j]
  {
    RowsAt(Digits(dims[0]), Points(dims[1..]), i, j);
  }

  lemma {:induction false} PrefixedMember(h: nat, tails: seq<seq<nat>>, p: seq<nat>)
    ensures p in Prefixed(h, tails) <==> p != [] && p[0] == h && p[1..] in tails
  {
    if tails != [] {
      PrefixedMember(h, tails[1..], p);
      assert p != [] ==> p == [p[0]] + p[1..];
    }
  }

  lemma {:induction false} RowsMember(heads: seq<nat>, tails: seq<seq<nat>>, p: seq<nat>)
    ensures p in Rows(heads, tails) <==> p != [] && p[0] in heads && p[1..] in tails
  {
    if heads != [] {
      PrefixedMember(heads[0], tails, p);
      RowsMember(heads[1..], tails, p);
    }
  }

  lemma {:induction false} InBoxCons(dims: seq<Dim>, p: seq<nat>)
    requires dims != [] && p != []
    ensures InBox(dims, p) <==> p[0] in Digits(dims[0]) && InBox(dims[1..], p[1..])
  {
    if p[0] in Digits(dims[0]) && InBox(dims[1..], p[1..]) {
      forall i | 0 <= i < |p|
        ensures p[i] in Digits(dims[i])
      {
        if 0 < i {
          assert p[1..][i - 1] in Digits(dims[1..][i - 1]);
        }
      }
    }
  }

  /** Exactly the points of the box are enumerated. */
  lemma {:induction false} PointsMember(dims: seq<Dim>, p: seq<nat>)
    ensures p in Points(dims) <==> InBox(dims, p)
  {
    if dims != [] {
      RowsMember(Digits(dims[0]), Points(dims[1..]), p);
      if p != [] {
        InBoxCons(dims, p);
        PointsMember(dims[1..], p[1..]);
      }
    }
  }

  /** The enumeration is strictly increasing, hence meets each point once. */
  lemma {:induction false} PointsOrdered(dims: seq<Dim>, k1: nat, k2: nat)
    requires k1 < k2 < |Points(dims)|
    ensures LexLess(Points(dims)[k1], Points(dims)[k2])
  {
    if dims != [] {
      var i1, j1 := PointsSplit(dims, k1);
      var i2, j2 := PointsSplit(dims, k2);
      RowOrder(i1, j1, i2, j2, |Points(dims[1..])|);
      if i1 == i2 {
        PointsOrdered(dims[1..], j1, j2);
      } else {
        StepsOrdered(dims[0].start, dims[0].stop, dims[0].stride, i1, i2);
      }
    }
  }

  lemma {:induction false} LexLessIrreflexive(p: seq<nat>)
    ensures !LexLess(p, p)
  {
    if p != [] {
      LexLessIrreflexive(p[1..]);
    }
  }

  lemma {:induction false} PointsDistinct(dims: seq<Dim>, k1: nat, k2: nat)
    requires k1 < |Points(dims)| && k2 < |Points(dims)|
    ensures Points(dims)[k1] == Points(dims)[k2] <==> k1 == k2
  {
    LexLessIrreflexive(Points(dims)[k1]);
    if k1 < k2 {
      PointsOrdered(dims, k1, k2);
    } else if k2 < k1 {
      PointsOrdered(dims, k2, k1);
    }
  }

  lemma {:induction false} PointLength(dims: seq<Dim>, k: nat)
    requires k < |Points(dims)|
    ensures |Points(dims)[k]| == |dims|
  {
    if dims != [] {
      var i, j := PointsSplit(dims, k);
      PointLength(dims[1..], j);
    }
  }

  lemma {:induction false} PointsFirst(dims: seq<Dim>)
    requires AllNonEmpty(dims)
    ensures |Points(dims)| > 0 && Points(dims)[0] == Starts(dims)
  {
    if dims != [] {
      PointsFirst(dims[1..]);
      PointsJoin(dims, 0, 0);
    }
  }

  // ----- One turn of the odometer

  /** Advance by one point; false when every wheel has turned over, which leaves all wheels at their start. */
  function Carry(dims: seq<Dim>, p: seq<nat>): (seq<nat>, bool)
    requires |p| == |dims|
  {
    if dims == [] then ([], false)
    else
      var (q, more) := Carry(dims[1..], p[1..]);
      var x := p[0] + dims[0].stride;
      if more then ([p[0]] + q, true)
      else if x < dims[0].stop then ([x] + q, true)
      else ([dims[0].start] + q, false)
  }

  /** Carry moves from each point to the next, and reports the last one. */
  lemma {:induction false} CarryIsNext(dims: seq<Dim>, k: nat)
    requires AllNonEmpty(dims) && k < |Points(dims)|
    requires |Points(dims)[k]| == |dims|
    ensures Carry(dims, Points(dims)[k])
         == if k + 1 < |Points(dims)| then (Points(dims)[k + 1], true) else (Starts(dims), false)
  {
    if dims != [] {
      var i, j := PointsSuccessor(dims, k);
      assert Points(dims)[k][1..] == Points(dims[1..])[j];
      PointLength(dims[1..], j);
      CarryIsNext(dims[1..], j);
      PointsFirst(dims[1..]);
      NextDigit(dims[0], i);
    }
  }

  /** The point after the k-th: the next column, or the first column of the next row. */
  lemma {:induction false} PointsSuccessor(dims: seq<Dim>, k: nat) returns (i: nat, j: nat)
    requires dims != [] && k < |Points(dims)|
    ensures i < |Digits(dims[0])| && j < |Points(dims[1..])|
    ensures Points(dims)[k] == [Digits(dims[0])[i]] + Points(dims[1..])[j]
    ensures j + 1 < |Points(dims[1..])| ==>
              k + 1 < |Points(dims)| && Points(dims)[k + 1] == [Digits(dims[0])[i]] + Points(dims[1..])[j + 1]
    ensures j + 1 == |Points(dims[1..])| && i + 1 < |Digits(dims[0])| ==>
              k + 1 < |Points(dims)| && Points(dims)[k + 1] == [Digits(dims[0])[i + 1]] + Points(dims[1..])[0]
    ensures j + 1 == |Points(dims[1..])| && i + 1 == |Digits(dims[0])| ==> k + 1 == |Points(dims)|
  {
    i, j := PointsSplit(dims, k);
    RowsLength(Digits(dims[0]), Points(dims[1..]));
    if j + 1 < |Points(dims[1..])| {
      PointsJoin(dims, i, j + 1);
    } else {
      NextRow(i, j, |Points(dims[1..])|);
      if i + 1 < |Digits(dims[0])| {
        PointsJoin(dims, i + 1, 0);
      }
    }
  }

  lemma {:induction false} NextDigit(d: Dim, i: nat)
    requires i < |Digits(d)|
    ensures i + 1 < |Digits(d)| <==> Digits(d)[i] + d.stride < d.stop
    ensures i + 1 < |Digits(d)| ==> Digits(d)[i + 1] == Digits(d)[i] + d.stride
  {
    StepsAt(d.start, d.stop, d.stride, i);
    StepsAt(d.start, d.stop, d.stride, i + 1);
  }

  lemma {:induction false} NextRow(i: nat, j: nat, cols: nat)
    requires j + 1 == cols
    ensures i * cols + j + 1 == (i + 1) * cols
  {
  }

  /** A carry that stops inside the wheels from i on leaves the wheels before i alone. */
  lemma {:induction false} CarryPrefix(dims: seq<Dim>, p: seq<nat>, i: nat)
    requires |p| == |dims| && i <= |dims|
    requires Carry(dims[i..], p[i..]).1
    ensures Carry(dims, p) == (p[..i] + Carry(dims[i..], p[i..]).0, true)
  {
    if i != 0 {
      assert dims[1..][i - 1..] == dims[i..] && p[1..][i - 1..] == p[i..];
      CarryPrefix(dims[1..], p[1..], i - 1);
      var q := Carry(dims[i..], p[i..]).0;
      assert [p[0]] + (p[1..][..i - 1] + q) == p[..i] + q;
    } else {
      assert dims[0..] == dims && p[0..] == p;
      assert p[..0] + Carry(dims, p).0 == Carry(dims, p).0;
    }
  }

  // ----- A run of the odometer that does not look at wheels other than the first

  /** dapodom_more tests the first wheel only, so an empty inner wheel is visited once, at its start. */
  function Clamp(d: Dim): Dim
  {
    if d.start < d.stop then d else Wheel(d.start, d.start + 1, d.stride, d.declsize)
  }

  function ClampAll(dims: seq<Dim>): seq<Dim>
  {
    if dims == [] then [] else [Clamp(dims[0])] + ClampAll(dims[1..])
  }

  function WalkWheels(dims: seq<Dim>): seq<Dim>
  {
    if dims == [] then [] else [dims[0]] + ClampAll(dims[1..])
  }

  /** The box an odometer run really walks; an odometer without wheels is never positioned on anything. */
  function Walked(dims: seq<Dim>): seq<seq<nat>>
  {
    if dims == [] then [] else Points(WalkWheels(dims))
  }

  lemma {:induction false} ClampAllNonEmpty(dims: seq<Dim>)
    ensures |ClampAll(dims)| == |dims| && AllNonEmpty(ClampAll(dims))
    ensures Starts(ClampAll(dims)) == Starts(dims)
    ensures ClampAll(dims) == dims <==> AllNonEmpty(dims)
  {
    if dims != [] {
      ClampAllNonEmpty(dims[1..]);
      assert dims == [dims[0]] + dims[1..];
      if AllNonEmpty(dims) {
        assert dims[0] in dims;
        assert AllNonEmpty(dims[1..]);
      }
    }
  }

  /** Turning the clamped wheels is turning the given ones. */
  lemma {:induction false} CarryClamped(dims: seq<Dim>, p: seq<nat>)
    requires |p| == |dims| == |ClampAll(dims)|
    requires forall i :: 0 <= i < |p| ==> dims[i].start <= p[i]
    ensures Carry(ClampAll(dims), p) == Carry(dims, p)
  {
    if dims != [] {
      forall i | 0 <= i < |p[1..]|
        ensures dims[1..][i].start <= p[1..][i]
      {
        assert dims[i + 1].start <= p[i + 1];
      }
      ClampAllNonEmpty(dims[1..]);
      CarryClamped(dims[1..], p[1..]);
      assert ClampAll(dims)[1..] == ClampAll(dims[1..]);
    }
  }

  lemma {:induction false} PointsAtLeastStart(dims: seq<Dim>, k: nat)
    requires k < |Points(dims)|
    ensures |Points(dims)[k]| == |dims|
    ensures forall i :: 0 <= i < |dims| ==> dims[i].start <= Points(dims)[k][i]
  {
    PointLength(dims, k);
    PointsMember(dims, Points(dims)[k]);
    forall i | 0 <= i < |dims|
      ensures dims[i].start <= Points(dims)[k][i]
    {
      StepsMember(dims[i].start, dims[i].stop, dims[i].stride, Points(dims)[k][i]);
    }
  }

  lemma {:induction false} SomeEmptyNoPoints(dims: seq<Dim>)
    requires !AllNonEmpty(dims)
    ensures Points(dims) == []
  {
    RowsLength(Digits(dims[0]), Points(dims[1..]));
    if dims[0].start < dims[0].stop {
      assert !AllNonEmpty(dims[1..]) by {
        var d :| d in dims && d.stop <= d.start;
        assert d in dims[1..];
      }
      SomeEmptyNoPoints(dims[1..]);
      assert |Digits(dims[0])| * 0 == 0;
    }
  }

  /** A run walks exactly the box iff its first wheel is empty or no wheel is. */
  lemma {:induction false} WalkedIsBox(dims: seq<Dim>)
    requires dims != []
    ensures Walked(dims) == Points(dims) <==> dims[0].stop <= dims[0].start || AllNonEmpty(dims[1..])
  {
    var clamped := [dims[0]] + ClampAll(dims[1..]);
    ClampAllNonEmpty(dims[1..]);
    assert dims == [dims[0]] + dims[1..];
    if dims[0].stop <= dims[0].start {
      assert clamped[0] in clamped && dims[0] in dims;
      SomeEmptyNoPoints(clamped);
      SomeEmptyNoPoints(dims);
    } else if !AllNonEmpty(dims[1..]) {
      var d :| d in dims[1..] && d.stop <= d.start;
      assert d in dims;
      SomeEmptyNoPoints(dims);
      PointsFirst(clamped);
    }
  }
}
