/** One slice [first:stride:last] of a constraint expression, and the composition of two slices. */
module Slices {
  import opened Wrappers
  import opened Ranges

  /** The number of values of the source's 64-bit size_t. */
  const SIZE: nat := 0x1_0000_0000_0000_0000

  /** Subtraction on size_t: below zero it wraps around. */
  function Minus(a: nat, b: nat): nat
  {
    if b <= a then a - b else (a - b) % SIZE
  }

  /** The value of a sum or product on size_t. */
  function Wrap(n: nat): (r: nat)
    ensures r < SIZE && (n < SIZE ==> r == n)
  {
    n % SIZE
  }

  function Min(a: nat, b: nat): nat { if a < b then a else b }

  function Max(a: nat, b: nat): nat { if a > b then a else b }

  /** Elements of stride needed to cover length, rounded up. */
  function CeilDiv(length: nat, stride: nat): nat
    requires 0 < stride
  {
    (length + (stride - 1)) / stride
  }

  datatype Slice = Slice(first: nat, stride: nat, length: nat, last: nat, count: nat, declsize: nat)

  /** The invariant that dceconstraints.h states for a slice that selects something. */
  predicate MeetsHeader(s: Slice)
  {
    && 0 < s.stride
    && 0 < s.length
    && s.last == s.first + s.length - 1
    && s.count == CeilDiv(s.length, s.stride)
  }

  /** What a slice denotes: the indices it selects, in order. */
  function Indices(s: Slice): seq<nat>
    requires 0 < s.stride
  {
    Steps(s.first, s.last + 1, s.stride)
  }

  /** What remains of a list of positions when only those inside base are looked up in it. */
  function Select(base: seq<nat>, picks: seq<nat>): seq<nat>
  {
    if picks == [] then []
    else if picks[0] < |base| then [base[picks[0]]] + Select(base, picks[1..])
    else Select(base, picks[1..])
  }

  /** The index of the original data behind position i of the output of s. */
  function MapIndex(s: Slice, i: nat): nat
  {
    s.first + s.stride * i
  }

  /** Apply s2 to the output of s1. */
  function Compose(s1: Slice, s2: Slice): Option<Slice>
    requires 0 < s1.stride && 0 < s2.stride
  {
    var first := MapIndex(s1, s2.first);
    if first > s1.last then
      None
    else
      var last := Min(s1.last, MapIndex(s1, s2.last));
      Some(Span(first, Times(s1.stride, s2.stride), last, Max(s1.declsize, s2.declsize)))
  }

  /** A slice from first to last, with the length and count that belong to it. */
  function Span(first: nat, stride: nat, last: nat, declsize: nat): Slice
    requires 0 < stride
  {
    var length := Minus(last + 1, first);
    Slice(first, stride, length, last, CeilDiv(length, stride), declsize)
  }

  function Times(a: nat, b: nat): (r: nat)
    ensures 0 < a && 0 < b ==> 0 < r
  {
    a * b
  }

  /** Composition of slices that may already have failed. */
  function ComposeAll(s1: Option<Slice>, s2: Option<Slice>): Option<Slice>
    requires s1.Some? ==> 0 < s1.value.stride
    requires s2.Some? ==> 0 < s2.value.stride
  {
    if s1.Some? && s2.Some? then Compose(s1.value, s2.value) else None
  }

  predicate IsWhole(s: Slice)
  {
    s.first == 0 && s.stride == 1 && s.length == s.declsize
  }

  function MakeWhole(declsize: nat): Slice
  {
    Slice(0, 1, declsize, Minus(declsize, 1), declsize, declsize)
  }

  // ----- A slice and the sequence it denotes

  /** Under the header invariant, count is the number of indices the slice selects. */
  lemma {:induction false} CountIsLength(s: Slice)
    requires MeetsHeader(s)
    ensures |Indices(s)| == s.count
    ensures s.first in Indices(s)
  {
    StepsCount(s.first, s.last + 1, s.stride);
    StepsHead(s.first, s.last + 1, s.stride);
  }

  lemma {:induction false} WholeSelectsAll(n: nat, k: nat)
    requires 0 < n
    ensures MeetsHeader(MakeWhole(n)) && IsWhole(MakeWhole(n))
    ensures |Indices(MakeWhole(n))| == n
    ensures k < n ==> Indices(MakeWhole(n))[k] == k
  {
    CountIsLength(MakeWhole(n));
    StepsAt(0, n, 1, k);
  }

  // ----- Composition is exact

  lemma {:induction false} MapIndexTwice(s1: Slice, s2: Slice, i: nat)
    ensures MapIndex(s1, MapIndex(s2, i)) == MapIndex(s1, s2.first) + Times(s1.stride, s2.stride) * i
  {
    assert s1.stride * (s2.first + s2.stride * i) == s1.stride * s2.first + s1.stride * (s2.stride * i);
    assert s1.stride * (s2.stride * i) == (s1.stride * s2.stride) * i;
  }

  lemma {:induction false} MapIndexOrder(s: Slice, i: nat, j: nat)
    requires 0 < s.stride
    ensures i <= j <==> MapIndex(s, i) <= MapIndex(s, j)
    ensures MapIndex(s, Min(i, j)) == Min(MapIndex(s, i), MapIndex(s, j))
  {
    assert i <= j ==> s.stride * i <= s.stride * j;
    assert j < i ==> s.stride * j + s.stride == s.stride * (j + 1) && s.stride * (j + 1) <= s.stride * i;
  }

  /** The index that a slice has at a position, if it has one. */
  lemma {:induction false} OutputAt(s: Slice, i: nat)
    requires 0 < s.stride
    ensures i < |Indices(s)| <==> MapIndex(s, i) <= s.last
    ensures i < |Indices(s)| ==> Indices(s)[i] == MapIndex(s, i)
  {
    StepsAt(s.first, s.last + 1, s.stride, i);
  }

  /** The index that a composition has at a position, if it has one. */
  lemma {:induction false} ComposedAt(s1: Slice, s2: Slice, k: nat)
    requires 0 < s1.stride && 0 < s2.stride && Compose(s1, s2).Some?
    ensures var r, x := Compose(s1, s2).value, MapIndex(s1, MapIndex(s2, k));
            && (k < |Indices(r)| <==> x <= s1.last && MapIndex(s2, k) <= s2.last)
            && (k < |Indices(r)| ==> Indices(r)[k] == x)
  {
    var r := Compose(s1, s2).value;
    OutputAt(r, k);
    ComposedIndex(s1, s2, k);
    MapIndexOrder(s1, MapIndex(s2, k), s2.last);
  }

  lemma {:induction false} ComposedIndex(s1: Slice, s2: Slice, k: nat)
    requires 0 < s1.stride && 0 < s2.stride && Compose(s1, s2).Some?
    ensures MapIndex(Compose(s1, s2).value, k) == MapIndex(s1, MapIndex(s2, k))
  {
    MapIndexTwice(s1, s2, k);
  }

  /** The k-th index of the composition is s1's output at the k-th position s2 names; it exists
      exactly as long as that position exists in s2 and lies inside s1's output. */
  lemma {:induction false} SelectAt(s1: Slice, s2: Slice, k: nat)
    requires 0 < s1.stride && 0 < s2.stride
    requires Compose(s1, s2).Some?
    ensures var r := Indices(Compose(s1, s2).value);
            var outer, inner := Indices(s1), Indices(s2);
            && (k < |r| <==> k < |inner| && inner[k] < |outer|)
            && (k < |r| ==> r[k] == outer[inner[k]])
  {
    ComposedAt(s1, s2, k);
    OutputAt(s2, k);
    OutputAt(s1, MapIndex(s2, k));
  }

  /** When the positions inside base come first, Select looks up exactly those. */
  lemma {:induction false} SelectPrefix(base: seq<nat>, picks: seq<nat>, r: seq<nat>)
    requires forall k :: 0 <= k < |picks| ==> (k < |r| <==> picks[k] < |base|)
    requires |r| <= |picks|
    requires forall k :: 0 <= k < |r| ==> r[k] == base[picks[k]]
    ensures Select(base, picks) == r
  {
    if picks != [] {
      if picks[0] < |base| {
        SelectPrefix(base, picks[1..], r[1..]);
      } else {
        SelectPrefix(base, picks[1..], r);
      }
    }
  }

  /** The composition denotes s1's output looked up at s2's positions, those past its end being dropped;
      it fails iff s2 starts past that output. */
  lemma {:induction false} ComposeExact(s1: Slice, s2: Slice)
    requires 0 < s1.stride && 0 < s2.stride
    ensures Compose(s1, s2).Some? <==> s2.first < |Indices(s1)|
    ensures Compose(s1, s2).Some? ==> Indices(Compose(s1, s2).value) == Select(Indices(s1), Indices(s2))
    ensures Compose(s1, s2).None? ==> Select(Indices(s1), Indices(s2)) == []
  {
    var picks := Indices(s2);
    StepsAt(s1.first, s1.last + 1, s1.stride, s2.first);
    assert s2.first * s1.stride == s1.stride * s2.first;
    if Compose(s1, s2).Some? {
      var r := Indices(Compose(s1, s2).value);
      SelectAt(s1, s2, |picks|);
      forall k: nat
        ensures k < |r| <==> k < |picks| && picks[k] < |Indices(s1)|
        ensures k < |r| ==> r[k] == Indices(s1)[picks[k]]
      {
        SelectAt(s1, s2, k);
      }
      assert |r| <= |picks|;
      SelectPrefix(Indices(s1), picks, r);
    } else {
      forall k | 0 <= k < |picks|
        ensures |Indices(s1)| <= picks[k]
      {
        StepsAt(s2.first, s2.last + 1, s2.stride, k);
      }
      SelectPrefix(Indices(s1), picks, []);
    }
  }

  /** Composition establishes the header invariant, whatever counts and lengths came in. */
  lemma {:induction false} ComposeMeetsHeader(s1: Slice, s2: Slice)
    requires 0 < s1.stride && 0 < s2.stride
    requires Compose(s1, s2).Some? && s2.first <= s2.last
    ensures MeetsHeader(Compose(s1, s2).value)
  {
    assert s1.stride * s2.first <= s1.stride * s2.last;
  }

  /** Composing with an empty slice (last = first-1) meets the header's equation for last iff s1 has stride 1;
      with a larger stride the computed length wraps around. */
  lemma {:induction false} ComposeWithEmpty(s1: Slice, s2: Slice)
    requires 0 < s1.stride < SIZE && 0 < s2.stride
    requires Compose(s1, s2).Some? && s2.first == s2.last + 1
    ensures var r := Compose(s1, s2).value;
            && r.last + s1.stride == r.first
            && (r.last + 1 == r.first + r.length <==> s1.stride == 1)
            && (s1.stride != 1 ==> r.length == SIZE + 1 - s1.stride)
  {
    assert s1.stride * s2.first == s1.stride * s2.last + s1.stride;
  }

  // ----- Composition is associative, with whole slices as identities

  lemma {:induction false} TimesAssociative(x: nat, y: nat, z: nat)
    ensures Times(Times(x, y), z) == Times(x, Times(y, z))
  {
    assert (x * y) * z == x * (y * z);
  }

  /** The composition fails, or gives an index, just as the maps of indices do. */
  lemma {:induction false} IndexOfComposition(a: Slice, b: Slice, i: nat)
    requires 0 < a.stride && 0 < b.stride && Compose(a, b).Some?
    ensures MapIndex(Compose(a, b).value, i) == MapIndex(a, MapIndex(b, i))
  {
    MapIndexTwice(a, b, i);
  }

  /** First or last index in s of a position: beyond the shorter end iff beyond one of the two. */
  lemma {:induction false} BeyondEnd(a: Slice, b: Slice, i: nat)
    requires 0 < a.stride
    ensures Min(a.last, MapIndex(a, b.last)) < MapIndex(a, i) <==> a.last < MapIndex(a, i) || b.last < i
  {
    MapIndexOrder(a, i, b.last);
  }

  lemma {:induction false} EndOfThree(a: Slice, b: Slice, i: nat)
    requires 0 < a.stride
    ensures Min(Min(a.last, MapIndex(a, b.last)), MapIndex(a, i)) == Min(a.last, MapIndex(a, Min(b.last, i)))
  {
    MapIndexOrder(a, b.last, i);
  }

  /** Both groupings fail together, and agree in every field when they succeed. */
  lemma {:induction false} ComposeAssociative(a: Slice, b: Slice, c: Slice)
    requires 0 < a.stride && 0 < b.stride && 0 < c.stride
    ensures ComposeAll(Compose(a, b), Some(c)) == ComposeAll(Some(a), Compose(b, c))
  {
    BeyondEnd(a, b, MapIndex(b, c.first));
    if Compose(a, b).Some? {
      IndexOfComposition(a, b, c.first);
      IndexOfComposition(a, b, c.last);
      EndOfThree(a, b, MapIndex(b, c.last));
      TimesAssociative(a.stride, b.stride, c.stride);
    } else {
      FirstNotBefore(b, c.first);
      MapIndexOrder(a, b.first, MapIndex(b, c.first));
    }
  }

  lemma {:induction false} FirstNotBefore(s: Slice, i: nat)
    ensures s.first <= MapIndex(s, i)
  {
    assert 0 <= s.stride * i;
  }

  /** A non-empty whole slice on the left changes nothing iff it covers s and is no longer than its dimension. */
  lemma {:induction false} WholeIsLeftIdentity(n: nat, s: Slice)
    requires MeetsHeader(s) && 0 < n
    ensures Compose(MakeWhole(n), s) == Some(s) <==> s.last < n <= s.declsize
  {
  }

  /** Composing on the right with a whole slice that covers the output keeps the selected indices. */
  lemma {:induction false} WholeIsRightIdentity(s: Slice, n: nat)
    requires MeetsHeader(s) && s.count <= n
    ensures Compose(s, MakeWhole(n)).Some?
    ensures Indices(Compose(s, MakeWhole(n)).value) == Indices(s)
  {
    CountIsLength(s);
    var r := Compose(s, MakeWhole(n)).value;
    assert r.first == s.first && r.stride == s.stride;
    StepsAt(s.first, s.last + 1, s.stride, n - 1);
    StepsAt(s.first, s.last + 1, s.stride, s.count - 1);
    StepsAt(s.first, s.last + 1, s.stride, s.count);
    assert (s.count - 1) * s.stride <= (n - 1) * s.stride;
    assert (n - 1) * s.stride == s.stride * (n - 1);
    StepsSameCover(s.first, s.last + 1, r.last + 1, s.stride, s.count);
  }
}
