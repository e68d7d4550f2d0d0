/** Projections: their cloning, and the restriction of a URL projection by the projection of a request. */
module Projections {
  import opened Wrappers
  import opened Slices
  import opened Tree
  import opened Segments

  /** A projection names a variable or calls a function. */
  datatype Discrim = CES_VAR | CES_FCN

  // ----- The merge on values

  /** A slice merged with an added one: their composition. The error code of a failure is not looked at. */
  function MergeSlice(s: Slice, added: Slice): Slice
    requires 0 < s.stride && 0 < added.stride
  {
    var r := Compose(s, added);
    if r.Some? then r.value else s
  }

  /** Strides that the merge multiplies. */
  predicate Mergeable(m: SegmentView, a: SegmentView)
  {
    && |m.slices| == |a.slices| == NC_MAX_VAR_DIMS
    && m.rank <= NC_MAX_VAR_DIMS && a.rank <= NC_MAX_VAR_DIMS
    && forall j :: 0 <= j < m.rank && j < a.rank ==> 0 < m.slices[j].stride && 0 < a.slices[j].stride
  }

  /** Slice j of the merge: a slice that only one side has is kept or copied. */
  function MergedSlice(m: SegmentView, a: SegmentView, j: nat): Slice
    requires Mergeable(m, a) && j < NC_MAX_VAR_DIMS
  {
    if a.rank <= j then m.slices[j]
    else if j < m.rank then MergeSlice(m.slices[j], a.slices[j])
    else a.slices[j]
  }

  function MergedSlices(m: SegmentView, a: SegmentView): (r: seq<Slice>)
    requires Mergeable(m, a)
    ensures |r| == NC_MAX_VAR_DIMS
  {
    seq(NC_MAX_VAR_DIMS, j requires 0 <= j < NC_MAX_VAR_DIMS => MergedSlice(m, a, j))
  }

  function MergeView(m: SegmentView, a: SegmentView): SegmentView
    requires Mergeable(m, a)
  {
    m.(slices := MergedSlices(m, a), rank := Max(m.rank, a.rank))
  }

  predicate AllMergeable(ms: seq<SegmentView>, adds: seq<SegmentView>)
  {
    |ms| == |adds| && forall i {:trigger Mergeable(ms[i], adds[i])} :: 0 <= i < |ms| ==> Mergeable(ms[i], adds[i])
  }

  function MergeViews(ms: seq<SegmentView>, adds: seq<SegmentView>): (r: seq<SegmentView>)
    requires AllMergeable(ms, adds)
    ensures |r| == |ms| && forall i :: 0 <= i < |ms| ==> r[i] == MergeView(ms[i], adds[i])
  {
    if ms == [] then []
    else
      assert Mergeable(ms[0], adds[0]);
      [MergeView(ms[0], adds[0])] + MergeViews(ms[1..], adds[1..])
  }

  // ----- Projections on the heap

  ghost function Views(segments: seq<DCEsegment>): (r: seq<SegmentView>)
    reads segments
    ensures |r| == |segments| && forall i :: 0 <= i < |r| ==> r[i] == segments[i].View()
  {
    if segments == [] then [] else [segments[0].View()] + Views(segments[1..])
  }

  /** Each segment is an object of its own. */
  ghost predicate Separate(segments: seq<DCEsegment>)
  {
    forall i, j :: 0 <= i < j < |segments| ==> segments[i] != segments[j]
  }

  ghost predicate AllValid(segments: seq<DCEsegment>)
    reads segments
  {
    forall s <- segments :: s.Valid()
  }

  class DCEvar {
    var segments: seq<DCEsegment>
    var annotation: Option<CDFnode>

    constructor (segments: seq<DCEsegment>, annotation: Option<CDFnode>)
      ensures this.segments == segments && this.annotation == annotation
    {
      this.segments, this.annotation := segments, annotation;
    }
  }

  class DCEprojection {
    const discrim: Discrim
    const variable: DCEvar
    const call: string

    constructor (discrim: Discrim, variable: DCEvar, call: string)
      ensures this.discrim == discrim && this.variable == variable && this.call == call
    {
      this.discrim, this.variable, this.call := discrim, variable, call;
    }

    ghost predicate Valid()
      reads variable, variable.segments
    {
      AllValid(variable.segments) && Separate(variable.segments)
    }

    ghost function View(): seq<SegmentView>
      reads variable, variable.segments
    {
      Views(variable.segments)
    }
  }

  // ----- Cloning

  method CloneSegment(orig: DCEsegment) returns (clone: DCEsegment)
    requires orig.Valid()
    ensures fresh(clone) && clone.Valid()
    ensures clone.View() == orig.View()
    ensures clone.name == orig.name && clone.annotation == orig.annotation && clone.rank == orig.rank
    ensures clone.slicesdefined == orig.slicesdefined && clone.slicesdeclized == orig.slicesdeclized
    ensures clone.slices == orig.slices
  {
    clone := new DCEsegment();
    clone.name, clone.annotation := orig.name, orig.annotation;
    clone.slicesdefined, clone.slicesdeclized, clone.rank := orig.slicesdefined, orig.slicesdeclized, orig.rank;
    clone.slices := orig.slices;
  }

  method CloneSegments(list: seq<DCEsegment>) returns (clone: seq<DCEsegment>)
    requires AllValid(list)
    ensures fresh(clone) && AllValid(clone) && Separate(clone)
    ensures Views(clone) == Views(list)
  {
    clone := [];
    var i := 0;
    while i < |list|
      invariant 0 <= i <= |list| && |clone| == i
      invariant fresh(clone) && AllValid(clone) && Separate(clone)
      invariant forall k :: 0 <= k < i ==> clone[k].View() == list[k].View()
    {
      var newnode := CloneSegment(list[i]);
      clone := clone + [newnode];
      i := i + 1;
    }
  }

  /** A deep copy: equal to the original, sharing no storage with anything. */
  method CloneProjection(orig: DCEprojection) returns (clone: DCEprojection)
    requires orig.Valid()
    ensures fresh(clone) && fresh(clone.variable) && fresh(clone.variable.segments)
    ensures clone.Valid()
    ensures clone.discrim == orig.discrim && clone.call == orig.call
    ensures clone.variable.annotation == orig.variable.annotation && clone.View() == orig.View()
  {
    var segments := CloneSegments(orig.variable.segments);
    var variable := new DCEvar(segments, orig.variable.annotation);
    clone := new DCEprojection(orig.discrim, variable, orig.call);
  }

  // ----- Merging in place

  method MergeSegment(merged: DCEsegment, added: DCEsegment)
    requires merged.Valid() && added.Valid() && merged != added
    requires Mergeable(merged.View(), added.View())
    modifies merged
    ensures merged.Valid()
    ensures merged.View() == MergeView(old(merged.View()), added.View())
    ensures merged.name == old(merged.name) && merged.annotation == old(merged.annotation)
    ensures merged.rank == if added.rank > old(merged.rank) then added.rank else old(merged.rank)
    ensures forall j :: old(merged.rank) <= j < added.rank ==> merged.slices[j] == added.slices[j]
    ensures forall j :: added.rank <= j < NC_MAX_VAR_DIMS ==> merged.slices[j] == old(merged.slices)[j]
  {
    ghost var m, a := merged.View(), added.View();
    var j := 0;
    while j < added.rank
      invariant 0 <= j <= added.rank
      invariant merged.View() == m.(slices := merged.slices) && |merged.slices| == NC_MAX_VAR_DIMS
      invariant forall k :: 0 <= k < j ==> merged.slices[k] == MergedSlice(m, a, k)
      invariant forall k :: j <= k < NC_MAX_VAR_DIMS ==> merged.slices[k] == m.slices[k]
      modifies merged
    {
      assert merged.slices[j] == m.slices[j];
      if j < merged.rank {
        var err := merged.ComposeSlice(j, added.slices[j]);
      } else {
        merged.slices := merged.slices[j := added.slices[j]];
      }
      j := j + 1;
    }
    if added.rank > merged.rank {
      merged.rank := added.rank;
    }
    assert merged.slices == MergedSlices(m, a);
  }

  /** Segment k of a list that is being merged, of which the first i have been done. */
  ghost predicate IsMergedAt(segments: seq<DCEsegment>, ms: seq<SegmentView>, views: seq<SegmentView>, i: nat, k: nat)
    requires k < |segments| == |ms| == |views| && AllMergeable(ms, views)
    reads segments
  {
    segments[k].Valid() && segments[k].View() == if k < i then MergeViews(ms, views)[k] else ms[k]
  }

  ghost predicate AreMergedTo(segments: seq<DCEsegment>, ms: seq<SegmentView>, views: seq<SegmentView>, i: nat)
    reads segments
  {
    && |segments| == |ms| == |views| && AllMergeable(ms, views)
    && forall k {:trigger IsMergedAt(segments, ms, views, i, k)} :: 0 <= k < |ms| ==>
         IsMergedAt(segments, ms, views, i, k)
  }

  /** The added segments are valid, as they were, and apart from the merged ones. */
  ghost predicate AreAdded(segments: seq<DCEsegment>, adds: seq<DCEsegment>, views: seq<SegmentView>)
    reads adds
  {
    && |adds| == |views| && (forall s <- segments :: s !in adds)
    && forall k {:trigger adds[k]} :: 0 <= k < |adds| ==> adds[k].Valid() && adds[k].View() == views[k]
  }

  method MergeAt(segments: seq<DCEsegment>, adds: seq<DCEsegment>, i: nat, ghost ms: seq<SegmentView>,
                 ghost views: seq<SegmentView>)
    requires i < |segments| && Separate(segments) && AreMergedTo(segments, ms, views, i)
             && AreAdded(segments, adds, views)
    modifies segments[i]
    ensures AreMergedTo(segments, ms, views, i + 1) && AreAdded(segments, adds, views)
  {
    assert IsMergedAt(segments, ms, views, i, i) && Mergeable(ms[i], views[i]);
    assert segments[i] in segments && adds[i] in adds;
    MergeSegment(segments[i], adds[i]);
    ghost var n := i + 1;
    forall k | 0 <= k < |ms|
      ensures IsMergedAt(segments, ms, views, n, k)
    {
      assert old(IsMergedAt(segments, ms, views, i, k));
      assert k != i ==> segments[k] != segments[i];
    }
  }

  method MergeSegments(segments: seq<DCEsegment>, adds: seq<DCEsegment>, ghost ms: seq<SegmentView>,
                       ghost views: seq<SegmentView>)
    requires Separate(segments) && AreMergedTo(segments, ms, views, 0) && AreAdded(segments, adds, views)
    modifies segments
    ensures AreMergedTo(segments, ms, views, |segments|) && AreAdded(segments, adds, views)
  {
    var i := 0;
    while i < |segments|
      invariant 0 <= i <= |segments|
      invariant AreMergedTo(segments, ms, views, i) && AreAdded(segments, adds, views)
      modifies segments
    {
      assert segments[i] in segments;
      MergeAt(segments, adds, i, ms, views);
      i := i + 1;
    }
  }

  lemma {:induction false} StartMerging(segments: seq<DCEsegment>, ms: seq<SegmentView>, views: seq<SegmentView>)
    requires AllValid(segments) && ms == Views(segments) && AllMergeable(ms, views)
    ensures AreMergedTo(segments, ms, views, 0)
  {
  }

  lemma {:induction false} StartAdding(segments: seq<DCEsegment>, adds: seq<DCEsegment>)
    requires AllValid(adds) && forall s <- segments :: s !in adds
    ensures AreAdded(segments, adds, Views(adds))
  {
  }

  lemma {:induction false} EndAdding(segments: seq<DCEsegment>, adds: seq<DCEsegment>, views: seq<SegmentView>)
    requires AreAdded(segments, adds, views)
    ensures AllValid(adds) && Views(adds) == views
  {
    forall k | 0 <= k < |adds|
      ensures adds[k].Valid() && adds[k].View() == views[k]
    {
    }
  }

  lemma {:induction false} EndMerging(segments: seq<DCEsegment>, ms: seq<SegmentView>, views: seq<SegmentView>)
    requires AreMergedTo(segments, ms, views, |segments|)
    ensures AllValid(segments) && Views(segments) == MergeViews(ms, views)
  {
    forall k | 0 <= k < |segments|
      ensures segments[k].Valid() && segments[k].View() == MergeViews(ms, views)[k]
    {
      assert IsMergedAt(segments, ms, views, |segments|, k);
    }
  }

  /** Modify merged to include addition; always reports success. */
  method MergeProjections(merged: DCEprojection, addition: DCEprojection) returns (err: ErrCode)
    requires merged.Valid() && addition.Valid() && merged.discrim == CES_VAR && addition.discrim == CES_VAR
    requires forall s <- merged.variable.segments :: s !in addition.variable.segments
    requires AllMergeable(merged.View(), addition.View())
    modifies merged.variable.segments
    ensures err == NC_NOERR
    ensures merged.Valid() && addition.View() == old(addition.View())
    ensures merged.View() == MergeViews(old(merged.View()), addition.View())
  {
    ghost var ms, views, segments := merged.View(), addition.View(), merged.variable.segments;
    StartMerging(segments, ms, views);
    StartAdding(segments, addition.variable.segments);
    MergeSegments(merged.variable.segments, addition.variable.segments, ms, views);
    EndMerging(segments, ms, views);
    EndAdding(segments, addition.variable.segments, views);
    err := NC_NOERR;
  }

  /** Look for the first projection in the list of the variable of v; -1 when there is none. */
  method FindProjection(projections: seq<DCEprojection?>, v: DCEprojection) returns (i: int)
    ensures -1 <= i < |projections|
    ensures 0 <= i ==>
              && projections[i] != null && projections[i].discrim == CES_VAR
              && projections[i].variable.annotation == v.variable.annotation
    ensures forall k :: 0 <= k < (if i < 0 then |projections| else i) ==>
              || projections[k] == null || projections[k].discrim != CES_VAR
              || projections[k].variable.annotation != v.variable.annotation
  {
    i := 0;
    while i < |projections|
      invariant 0 <= i <= |projections|
      invariant forall k :: 0 <= k < i ==>
                  || projections[k] == null || projections[k].discrim != CES_VAR
                  || projections[k].variable.annotation != v.variable.annotation
    {
      var p1 := projections[i];
      if p1 != null && p1.discrim == CES_VAR && p1.variable.annotation == v.variable.annotation {
        return;
      }
      i := i + 1;
    }
    i := -1;
  }

  /** A copy of a projection, merged with v. */
  method CloneAndMerge(found: DCEprojection, v: DCEprojection, ghost ms: seq<SegmentView>,
                       ghost views: seq<SegmentView>)
    returns (err: ErrCode, result: DCEprojection)
    requires found.discrim == CES_VAR && v.discrim == CES_VAR && found.Valid() && v.Valid()
    requires ms == found.View() && views == v.View() && AllMergeable(ms, views)
    ensures err == NC_NOERR
    ensures fresh(result) && fresh(result.variable) && fresh(result.variable.segments) && result.Valid()
    ensures result.discrim == CES_VAR && result.variable.annotation == old(found.variable.annotation)
    ensures result.View() == MergeViews(ms, views)
  {
    result := CloneProjection(found);
    err := MergeProjections(result, v);
  }

  /** A projection for fetching the variable of v: a copy of its projection in the list, merged with v; a copy of
      v where there is none. Nothing that exists before the call changes. */
  method RestrictProjection(projections: seq<DCEprojection?>, v: DCEprojection)
    returns (err: ErrCode, result: DCEprojection, ghost chosen: int)
    requires v.discrim == CES_VAR && v.Valid()
    requires forall p <- projections ::
               p != null && p.discrim == CES_VAR && p.variable.annotation == v.variable.annotation ==>
                 p.Valid() && AllMergeable(p.View(), v.View())
    ensures err == NC_NOERR
    ensures fresh(result) && fresh(result.variable) && fresh(result.variable.segments) && result.Valid()
    ensures -1 <= chosen < |projections|
    ensures 0 <= chosen ==>
              && projections[chosen] != null && projections[chosen].discrim == CES_VAR
              && projections[chosen].variable.annotation == v.variable.annotation
    ensures forall k :: 0 <= k < (if chosen < 0 then |projections| else chosen) ==>
              || projections[k] == null || projections[k].discrim != CES_VAR
              || projections[k].variable.annotation != v.variable.annotation
    ensures result.discrim == CES_VAR && result.variable.annotation == v.variable.annotation
    ensures result.View() == if chosen < 0 then v.View() else MergeViews(projections[chosen].View(), v.View())
  {
    var i := FindProjection(projections, v);
    chosen := i;
    if i < 0 {
      result := CloneProjection(v);
      return NC_NOERR, result, chosen;
    }
    assert projections[i] in projections;
    err, result := CloneAndMerge(projections[i], v, projections[i].View(), v.View());
  }
}
