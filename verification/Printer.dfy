/** Printing projections as the text that goes into a URL. */
module Printer {
  import opened Slices
  import opened Segments
  import opened Projections

  function Digit(d: nat): char
    requires d < 10
  {
    '0' + d as char
  }

  /** The decimal notation of a number, as %lu prints it. */
  function Decimal(n: nat): string
  {
    if n < 10 then [Digit(n)] else Decimal(n / 10) + [Digit(n % 10)]
  }

  /** The last index, computed anew from first and length. */
  function PrintedLast(s: Slice): nat
  {
    Minus(Wrap(s.first + s.length), 1)
  }

  function PrintSlice(s: Slice): string
  {
    if s.count == 1 then "[" + Decimal(s.first) + "]"
    else if s.stride == 1 then "[" + Decimal(s.first) + ":" + Decimal(PrintedLast(s)) + "]"
    else "[" + Decimal(s.first) + ":" + Decimal(s.stride) + ":" + Decimal(PrintedLast(s)) + "]"
  }

  function PrintSlices(slices: seq<Slice>): string
  {
    if slices == [] then "" else PrintSlice(slices[0]) + PrintSlices(slices[1..])
  }

  /** The slices in use. */
  function InUse(seg: SegmentView): seq<Slice>
  {
    if seg.rank <= |seg.slices| then seg.slices[..seg.rank] else seg.slices
  }

  /** The slices are known and all of them are whole. */
  predicate IsWholeSegment(seg: SegmentView)
  {
    seg.slicesdefined && forall s <- InUse(seg) :: IsWhole(s)
  }

  function PrintSegment(seg: SegmentView): string
  {
    if IsWholeSegment(seg) then seg.name else seg.name + PrintSlices(InUse(seg))
  }

  function PrintSegments(segments: seq<SegmentView>): string
  {
    if segments == [] then ""
    else if |segments| == 1 then PrintSegment(segments[0])
    else PrintSegment(segments[0]) + "." + PrintSegments(segments[1..])
  }

  function PrintProjections(projections: seq<seq<SegmentView>>): string
  {
    if projections == [] then ""
    else if |projections| == 1 then PrintSegments(projections[0])
    else PrintSegments(projections[0]) + "," + PrintProjections(projections[1..])
  }

  // ----- Dumping into a buffer

  class NCbytes {
    var content: string

    constructor ()
      ensures content == ""
    {
      content := "";
    }

    method Cat(s: string)
      modifies this
      ensures content == old(content) + s
    {
      content := content + s;
    }
  }

  method DumpSlice(slice: Slice, buf: NCbytes)
    modifies buf
    ensures buf.content == old(buf.content) + PrintSlice(slice)
  {
    var last := Minus(Wrap(slice.first + slice.length), 1);
    var tmp;
    if slice.count == 1 {
      tmp := "[" + Decimal(slice.first) + "]";
    } else if slice.stride == 1 {
      tmp := "[" + Decimal(slice.first) + ":" + Decimal(last) + "]";
    } else {
      tmp := "[" + Decimal(slice.first) + ":" + Decimal(slice.stride) + ":" + Decimal(last) + "]";
    }
    buf.Cat(tmp);
  }

  lemma {:induction false} Glue(a: string, b: string, c: string)
    ensures a + b + c == a + (b + c)
  {
  }

  lemma {:induction false} PrintSlicesFrom(before: string, slices: seq<Slice>, i: nat)
    requires i < |slices|
    ensures before + PrintSlice(slices[i]) + PrintSlices(slices[i + 1..]) == before + PrintSlices(slices[i..])
  {
    assert slices[i..][1..] == slices[i + 1..];
    Glue(before, PrintSlice(slices[i]), PrintSlices(slices[i + 1..]));
  }

  method DumpSlices(slices: seq<Slice>, buf: NCbytes)
    modifies buf
    ensures buf.content == old(buf.content) + PrintSlices(slices)
  {
    var i := 0;
    while i < |slices|
      invariant 0 <= i <= |slices|
      invariant buf.content + PrintSlices(slices[i..]) == old(buf.content) + PrintSlices(slices)
    {
      PrintSlicesFrom(buf.content, slices, i);
      DumpSlice(slices[i], buf);
      i := i + 1;
    }
  }

  /** Are the slices known, and all whole? */
  method IsWholeNow(segment: DCEsegment) returns (whole: bool)
    requires segment.Valid()
    ensures whole <==> IsWholeSegment(segment.View())
  {
    if !segment.slicesdefined {
      return false;
    }
    whole := true;
    var i := 0;
    while i < segment.rank
      invariant 0 <= i <= segment.rank && whole
      invariant forall k :: 0 <= k < i ==> IsWhole(segment.slices[k])
    {
      if !IsWhole(segment.slices[i]) {
        assert segment.slices[i] in InUse(segment.View());
        return false;
      }
      i := i + 1;
    }
  }

  method DumpSegment(segment: DCEsegment, buf: NCbytes)
    requires segment.Valid()
    modifies buf
    ensures buf.content == old(buf.content) + PrintSegment(segment.View())
  {
    Glue(buf.content, segment.name, PrintSlices(segment.slices[..segment.rank]));
    buf.Cat(segment.name);
    var whole := IsWholeNow(segment);
    if !whole {
      DumpSlices(segment.slices[..segment.rank], buf);
    }
  }

  /** The text of the first n parts of a list, separated by sep. */
  function Joined(parts: seq<string>, n: nat, sep: string): string
    requires n <= |parts|
  {
    if n == 0 then "" else if n == 1 then parts[0] else Joined(parts, n - 1, sep) + sep + parts[n - 1]
  }

  function SegmentTexts(segments: seq<SegmentView>): (r: seq<string>)
    ensures |r| == |segments| && forall i :: 0 <= i < |r| ==> r[i] == PrintSegment(segments[i])
  {
    if segments == [] then [] else [PrintSegment(segments[0])] + SegmentTexts(segments[1..])
  }

  function ProjectionTexts(projections: seq<seq<SegmentView>>): (r: seq<string>)
    ensures |r| == |projections| && forall i :: 0 <= i < |r| ==> r[i] == PrintSegments(projections[i])
  {
    if projections == [] then [] else [PrintSegments(projections[0])] + ProjectionTexts(projections[1..])
  }

  lemma {:induction false} JoinedCons(parts: seq<string>, n: nat, sep: string)
    requires 2 <= n <= |parts|
    ensures Joined(parts, n, sep) == parts[0] + sep + Joined(parts[1..], n - 1, sep)
  {
    if n > 2 {
      JoinedCons(parts, n - 1, sep);
      var inner := Joined(parts[1..], n - 2, sep);
      Glue(parts[0] + sep, inner, sep);
      Glue(parts[0] + sep, inner + sep, parts[n - 1]);
    }
  }

  lemma {:induction false} TextsTail(segments: seq<SegmentView>)
    requires segments != []
    ensures SegmentTexts(segments)[1..] == SegmentTexts(segments[1..])
  {
    assert SegmentTexts(segments) == [PrintSegment(segments[0])] + SegmentTexts(segments[1..]);
  }

  lemma {:induction false} SegmentsAreJoined(segments: seq<SegmentView>)
    ensures PrintSegments(segments) == Joined(SegmentTexts(segments), |segments|, ".")
  {
    if |segments| > 1 {
      SegmentsAreJoined(segments[1..]);
      TextsTail(segments);
      JoinedCons(SegmentTexts(segments), |segments|, ".");
    }
  }

  lemma {:induction false} ProjectionsAreJoined(projections: seq<seq<SegmentView>>)
    ensures PrintProjections(projections) == Joined(ProjectionTexts(projections), |projections|, ",")
  {
    if |projections| > 1 {
      ProjectionsAreJoined(projections[1..]);
      JoinedCons(ProjectionTexts(projections), |projections|, ",");
      assert ProjectionTexts(projections)[1..] == ProjectionTexts(projections[1..]);
    }
  }

  /** What one more part adds. */
  lemma {:induction false} JoinedNext(before: string, parts: seq<string>, n: nat, sep: string)
    requires n < |parts|
    ensures before + Joined(parts, n + 1, sep)
         == (if n == 0 then before + Joined(parts, n, sep) else before + Joined(parts, n, sep) + sep) + parts[n]
  {
    if n > 0 {
      var joined := Joined(parts, n, sep);
      Glue(before, joined, sep);
      Glue(before, joined + sep, parts[n]);
    }
  }

  /** A separator before every part but the first. */
  method Punctuate(i: nat, sep: string, buf: NCbytes)
    modifies buf
    ensures buf.content == if i == 0 then old(buf.content) else old(buf.content) + sep
  {
    if i > 0 {
      buf.Cat(sep);
    }
  }

  /** Text i is that of segment i. */
  ghost predicate IsTextOf(list: seq<DCEsegment>, texts: seq<string>, i: nat)
    requires i < |list| == |texts|
    reads list[i]
  {
    list[i].Valid() && texts[i] == PrintSegment(list[i].View())
  }

  /** The texts are those of the segments. */
  ghost predicate AreTexts(list: seq<DCEsegment>, texts: seq<string>)
    reads list
  {
    |texts| == |list| && forall i {:trigger IsTextOf(list, texts, i)} :: 0 <= i < |list| ==> IsTextOf(list, texts, i)
  }

  /** One more segment, after its separator. */
  method DumpMember(list: seq<DCEsegment>, i: nat, buf: NCbytes, ghost before: string, ghost texts: seq<string>)
    requires AreTexts(list, texts) && i < |list| == |texts|
    requires buf.content == before + Joined(texts, i, ".")
    modifies buf
    ensures AreTexts(list, texts)
    ensures buf.content == before + Joined(texts, i + 1, ".")
  {
    assert IsTextOf(list, texts, i);
    JoinedNext(before, texts, i, ".");
    Punctuate(i, ".", buf);
    DumpSegment(list[i], buf);
  }

  /** The list of a variable's segments, separated by dots. */
  method SegmentsToBuffer(list: seq<DCEsegment>, buf: NCbytes, ghost texts: seq<string>)
    requires AreTexts(list, texts) && |texts| == |list|
    modifies buf
    ensures buf.content == old(buf.content) + Joined(texts, |texts|, ".")
  {
    var i := 0;
    while i < |list|
      invariant 0 <= i <= |list| && AreTexts(list, texts)
      invariant buf.content == old(buf.content) + Joined(texts, i, ".")
    {
      DumpMember(list, i, buf, old(buf.content), texts);
      i := i + 1;
    }
  }

  /** A variable projection, and its segments as values. */
  ghost predicate Shows(projection: DCEprojection, view: seq<SegmentView>)
    reads projection.variable, projection.variable.segments
  {
    && projection.discrim == CES_VAR && |view| == |projection.variable.segments|
    && forall k :: 0 <= k < |view| ==>
         projection.variable.segments[k].Valid() && projection.variable.segments[k].View() == view[k]
  }

  method DumpProjection(projection: DCEprojection, buf: NCbytes, ghost view: seq<SegmentView>)
    requires Shows(projection, view)
    modifies buf
    ensures buf.content == old(buf.content) + PrintSegments(view)
  {
    SegmentsAreJoined(view);
    ghost var texts := SegmentTexts(view);
    assert forall i :: 0 <= i < |view| ==> IsTextOf(projection.variable.segments, texts, i);
    SegmentsToBuffer(projection.variable.segments, buf, texts);
  }

  /** One more projection of a list. */
  method DumpNext(projection: DCEprojection, i: nat, buf: NCbytes, ghost before: string,
                  ghost views: seq<seq<SegmentView>>)
    requires i < |views| && Shows(projection, views[i])
    requires buf.content == before + Joined(ProjectionTexts(views), i, ",")
    modifies buf
    ensures buf.content == before + Joined(ProjectionTexts(views), i + 1, ",")
  {
    JoinedNext(before, ProjectionTexts(views), i, ",");
    Punctuate(i, ",", buf);
    DumpProjection(projection, buf, views[i]);
  }

  /** The list of projections, separated by commas. */
  method ProjectionsToBuffer(list: seq<DCEprojection>, buf: NCbytes, ghost views: seq<seq<SegmentView>>)
    requires |views| == |list|
    requires forall i :: 0 <= i < |list| ==> Shows(list[i], views[i])
    modifies buf
    ensures buf.content == old(buf.content) + Joined(ProjectionTexts(views), |views|, ",")
  {
    var i := 0;
    while i < |list|
      invariant 0 <= i <= |list|
      invariant buf.content == old(buf.content) + Joined(ProjectionTexts(views), i, ",")
    {
      DumpNext(list[i], i, buf, old(buf.content), views);
      i := i + 1;
    }
  }

  method BuildProjectionString(list: seq<DCEprojection>, ghost views: seq<seq<SegmentView>>) returns (pstring: string)
    requires |views| == |list|
    requires forall i :: 0 <= i < |list| ==> Shows(list[i], views[i])
    ensures pstring == PrintProjections(views)
  {
    var buf := new NCbytes();
    ProjectionsToBuffer(list, buf, views);
    pstring := buf.content;
    ProjectionsAreJoined(views);
    Glue("", "", pstring);
  }
}
