/** Strided ranges of indices: the sets of positions that a slice or one wheel of an odometer denotes. */
module Ranges {

  /** The indices lo, lo+stride, lo+2*stride, ... that lie below stop. */
  function Steps(lo: nat, stop: nat, stride: nat): seq<nat>
    requires 0 < stride
    decreases stop - lo
  {
    if stop <= lo then [] else [lo] + Steps(lo + stride, stop, stride)
  }

  function Product(xs: seq<nat>): nat
  {
    if xs == [] then 1 else xs[0] * Product(xs[1..])
  }

  /** Position k is in the range iff lo + k*stride is below stop, and that is the index found there. */
  lemma {:induction false} StepsAt(lo: nat, stop: nat, stride: nat, k: nat)
    requires 0 < stride
    ensures k < |Steps(lo, stop, stride)| <==> lo + k * stride < stop
    ensures k < |Steps(lo, stop, stride)| ==> Steps(lo, stop, stride)[k] == lo + k * stride
    decreases stop - lo
  {
    if stop <= lo {
      assert 0 <= k * stride;
    } else if k == 0 {
    } else {
      StepsAt(lo + stride, stop, stride, k - 1);
      assert (k - 1) * stride == k * stride - stride;
    }
  }

  lemma {:induction false} StepsOrdered(lo: nat, stop: nat, stride: nat, i: nat, j: nat)
    requires 0 < stride && i < j < |Steps(lo, stop, stride)|
    ensures Steps(lo, stop, stride)[i] < Steps(lo, stop, stride)[j]
  {
    StepsAt(lo, stop, stride, i);
    StepsAt(lo, stop, stride, j);
    MulOrder(i + 1, j, stride);
    assert (i + 1) * stride == i * stride + stride;
  }

  /** StepsAt characterises the range: no other sequence obeys it. */
  lemma {:induction false} StepsUnique(s: seq<nat>, lo: nat, stop: nat, stride: nat)
    requires 0 < stride
    requires forall k: nat {:trigger s[k]} :: k < |s| ==> lo + k * stride < stop && s[k] == lo + k * stride
    requires stop <= lo + |s| * stride
    ensures s == Steps(lo, stop, stride)
  {
    var t := Steps(lo, stop, stride);
    assert |t| < |s| ==> s[|t|] == lo + |t| * stride;
    StepsAt(lo, stop, stride, |s|);
    StepsAt(lo, stop, stride, |t|);
    assert |s| == |t|;
    forall k | 0 <= k < |s|
      ensures s[k] == t[k]
    {
      assert s[k] == lo + k * stride;
      StepsAt(lo, stop, stride, k);
    }
  }

  lemma {:induction false} NextMultiple(q: nat, d: nat)
    ensures (q + 1) * d == q * d + d
  {
  }

  lemma {:induction false} DivisionBounds(n: nat, d: nat, q: nat)
    requires 0 < d && n / d == q
    ensures q * d <= n < (q + 1) * d
  {
    NextMultiple(q, d);
  }

  lemma {:induction false} Quotient(n: nat, d: nat, q: nat)
    requires 0 < d
    requires q * d <= n < (q + 1) * d
    ensures n / d == q
  {
    var p := n / d;
    DivisionBounds(n, d, p);
    if p < q {
      MulOrder(p + 1, q, d);
    } else if q < p {
      MulOrder(q + 1, p, d);
    }
  }

  lemma {:induction false} NextQuotient(n: nat, d: nat, q: nat)
    requires 0 < d && q * d <= n < (q + 1) * d
    ensures (n + d) / d == q + 1
  {
    NextMultiple(q, d);
    NextMultiple(q + 1, d);
    Quotient(n + d, d, q + 1);
  }

  lemma {:induction false} OneStepMore(n: nat, d: nat)
    requires 0 < d
    ensures (n + d) / d == n / d + 1
  {
    var q := n / d;
    DivisionBounds(n, d, q);
    NextQuotient(n, d, q);
  }

  /** The number of positions is the distance divided by the stride, rounded up. */
  lemma {:induction false} StepsCount(lo: nat, stop: nat, stride: nat)
    requires 0 < stride
    ensures |Steps(lo, stop, stride)| == if stop <= lo then 0 else (stop - lo + stride - 1) / stride
    decreases stop - lo
  {
    if lo < stop {
      StepsCount(lo + stride, stop, stride);
      var d := stop - lo;
      OneStepMore(d - 1, stride);
      if d <= stride {
        Quotient(d - 1, stride, 0);
      }
    }
  }

  lemma {:induction false} StepsHead(lo: nat, stop: nat, stride: nat)
    requires 0 < stride
    ensures Steps(lo, stop, stride) != [] <==> lo < stop
    ensures lo < stop ==> Steps(lo, stop, stride)[0] == lo
  {
  }

  lemma {:induction false} ModOf(n: nat, d: nat, q: nat, r: nat)
    requires r < d && n == q * d + r
    ensures n % d == r
  {
    assert (q + 1) * d == q * d + d;
    Quotient(n, d, q);
  }

  lemma {:induction false} StepsMember(lo: nat, stop: nat, stride: nat, x: nat)
    requires 0 < stride
    ensures x in Steps(lo, stop, stride) <==> lo <= x < stop && (x - lo) % stride == 0
  {
    var s := Steps(lo, stop, stride);
    if x in s {
      var k :| 0 <= k < |s| && s[k] == x;
      StepsAt(lo, stop, stride, k);
      ModOf(x - lo, stride, k, 0);
    }
    if lo <= x < stop && (x - lo) % stride == 0 {
      var q := (x - lo) / stride;
      assert x - lo == q * stride;
      StepsAt(lo, stop, stride, q);
      assert s[q] == x;
    }
  }

  lemma {:induction false} NoMoreSteps(lo: nat, stop: nat, stride: nat)
    requires 0 < stride
    ensures |Steps(lo, stop, stride)| <= if lo < stop then stop - lo else 0
    decreases stop - lo
  {
    if lo < stop {
      NoMoreSteps(lo + stride, stop, stride);
    }
  }

  lemma {:induction false} MulOrder(a: nat, b: nat, c: nat)
    requires a <= b
    ensures a * c <= b * c
  {
  }

  /** n strides that just cover the distance to stop select n indices. */
  lemma {:induction false} StepsCover(lo: nat, stop: nat, stride: nat, n: nat)
    requires 0 < stride && 0 < n
    requires lo + (n - 1) * stride < stop <= lo + n * stride
    ensures |Steps(lo, stop, stride)| == n
  {
    StepsAt(lo, stop, stride, n - 1);
    StepsAt(lo, stop, stride, n);
  }

  /** A count of strides that just covers the distance to stop gives the same range. */
  lemma {:induction false} StepsSameCover(lo: nat, stop: nat, stop': nat, stride: nat, n: nat)
    requires 0 < stride
    requires n == |Steps(lo, stop, stride)|
    requires lo < stop && lo + (n - 1) * stride < stop' <= lo + n * stride
    ensures Steps(lo, stop, stride) == Steps(lo, stop', stride)
  {
    var s := Steps(lo, stop, stride);
    forall k: nat | k < |s|
      ensures lo + k * stride < stop' && s[k] == lo + k * stride
    {
      StepsAt(lo, stop, stride, k);
      MulOrder(k, n - 1, stride);
    }
    StepsUnique(s, lo, stop', stride);
  }

  /** A range that ends after n strides has n positions. */
  lemma {:induction false} CountedSteps(lo: nat, n: nat, stride: nat, k: nat)
    requires 0 < stride
    ensures |Steps(lo, lo + n * stride, stride)| == n
    ensures k < n ==> Steps(lo, lo + n * stride, stride)[k] == lo + k * stride
    decreases n
  {
    if n > 0 {
      NextMultiple(n - 1, stride);
      CountedSteps(lo + stride, n - 1, stride, if k == 0 then 0 else k - 1);
      if k > 0 {
        NextMultiple(k - 1, stride);
      }
    }
  }
}
