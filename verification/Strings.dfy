/** Reading a variable of strings: its last dimension runs over the characters of each string. */
module Strings {
  import opened Ranges
  import opened Slices
  import opened Boxes
  import opened Segments
  import opened Odometer
  import opened Offsets
  import opened Requests
  import opened Readers
  import opened Nested
  import opened Parts

  const NC_FILL_CHAR := 0 as char

  // ----- One string

  /** The character at a place; beyond its end a string is padded. */
  function CharAt(s: string, i: nat): char
  {
    if i < |s| then s[i] else NC_FILL_CHAR
  }

  function CharsAt(s: string, places: seq<nat>): (chars: string)
    ensures |chars| == |places| && forall j :: 0 <= j < |places| ==> chars[j] == CharAt(s, places[j])
  {
    seq(|places|, j requires 0 <= j < |places| => CharAt(s, places[j]))
  }

  /** The places that are taken: the loop ends at the length of the slice, not behind its last index. */
  function Taken(slice: Slice): seq<nat>
    requires 0 < slice.stride
  {
    Steps(slice.first, slice.length, slice.stride)
  }

  /** The places are first, first + stride and so on, below the length. */
  lemma {:induction false} TakenAt(slice: Slice, j: nat)
    requires 0 < slice.stride
    ensures j < |Taken(slice)| <==> slice.first + j * slice.stride < slice.length
    ensures j < |Taken(slice)| ==> Taken(slice)[j] == slice.first + j * slice.stride
  {
    StepsAt(slice.first, slice.length, slice.stride, j);
  }

  /** Stride across the string: character j is that at place first + j * stride, or a fill character behind the end of
      the string. */
  method SliceString(s: string, slice: Slice) returns (chars: string)
    requires 0 < slice.stride
    ensures chars == CharsAt(s, Taken(slice))
    ensures |chars| == |Taken(slice)|
    ensures forall j :: 0 <= j < |chars| ==>
              var i := slice.first + j * slice.stride;
              i < slice.length && chars[j] == if i < |s| then s[i] else 0 as char
  {
    forall j | 0 <= j < |Taken(slice)|
      ensures slice.first + j * slice.stride < slice.length && Taken(slice)[j] == slice.first + j * slice.stride
    {
      TakenAt(slice, j);
    }
    chars := "";
    var i := slice.first;
    while i < slice.length
      invariant slice.first <= i
      invariant chars + CharsAt(s, Steps(i, slice.length, slice.stride)) == CharsAt(s, Taken(slice))
      decreases slice.length - i
    {
      NextChar(s, i, slice);
      chars := chars + [if i < |s| then s[i] else NC_FILL_CHAR];
      i := i + slice.stride;
    }
  }

  lemma {:induction false} NextChar(s: string, i: nat, slice: Slice)
    requires 0 < slice.stride && i < slice.length
    ensures CharsAt(s, Steps(i, slice.length, slice.stride))
         == [CharAt(s, i)] + CharsAt(s, Steps(i + slice.stride, slice.length, slice.stride))
  {
  }

  /** The last selected index lies below the length of the slice. */
  predicate EndsBelowLength(slice: Slice)
  {
    0 < slice.count && slice.first + (slice.count - 1) * slice.stride < slice.length
  }

  /** The characters that are taken are those selected iff the last selected index lies below the length. */
  lemma {:induction false} TakenIsSelected(slice: Slice)
    requires MeetsHeader(slice)
    ensures Taken(slice) == Indices(slice) <==> EndsBelowLength(slice)
    ensures |Taken(slice)| == |Indices(slice)| <==> EndsBelowLength(slice)
  {
    CountIsLength(slice);
    var n := slice.count;
    StepsAt(slice.first, slice.length, slice.stride, n - 1);
    StepsAt(slice.first, slice.length, slice.stride, n);
    StepsAt(slice.first, slice.last + 1, slice.stride, n);
    if EndsBelowLength(slice) {
      forall k | 0 <= k < n
        ensures Taken(slice)[k] == Indices(slice)[k]
      {
        StepsAt(slice.first, slice.length, slice.stride, k);
        StepsAt(slice.first, slice.last + 1, slice.stride, k);
      }
    }
  }

  /** With stride 1 the condition is that the first character is asked for. */
  lemma {:induction false} RunIsSelected(slice: Slice)
    requires MeetsHeader(slice) && slice.stride == 1
    ensures EndsBelowLength(slice) <==> slice.first == 0
  {
    assert (slice.count - 1) * 1 == slice.count - 1;
    Quotient(slice.length, 1, slice.length);
  }

  /** The characters 5 and 6 of strings of 8 are asked for: none is read. */
  lemma {:induction false} TailIsMissed()
    ensures Accepted(5, 2, 1, 8) && MeetsHeader(VaraSlice(5, 2, 1, 8))
    ensures Taken(VaraSlice(5, 2, 1, 8)) == [] && |Indices(VaraSlice(5, 2, 1, 8))| == 2
  {
    assert VaraSlice(5, 2, 1, 8) == Slice(5, 1, 2, 6, 2, 8);
    CountIsLength(VaraSlice(5, 2, 1, 8));
  }

  /** When a part was fetched, the server has sent whole strings, but the slice of their characters has been shifted
      like the others: the first characters are taken, and are those selected iff it selects 0, 1, 2 and so on. */
  lemma {:induction false} ShiftedIsSelected(slice: Slice)
    requires MeetsHeader(slice)
    ensures 0 < ShiftSlice(slice).stride && |Taken(ShiftSlice(slice))| == |Indices(slice)|
    ensures Taken(ShiftSlice(slice)) == Indices(slice) <==> CountsUp(slice)
  {
    var t, n := ShiftSlice(slice), slice.count;
    CountIsLength(slice);
    ShiftRenumbers(slice, 0);
    assert t.length == t.last + 1;
    LastIndex(slice);
    CountsUpAt(slice, 0);
    ShiftRenumbers(slice, n - 1);
    if CountsUp(slice) {
      forall k | 0 <= k < n
        ensures Taken(t)[k] == Indices(slice)[k]
      {
        CountsUpAt(slice, k);
        ShiftRenumbers(slice, k);
      }
    }
  }

  // ----- An array of strings

  /** The given places of each string, one string after the other. */
  function Chars(strings: seq<string>, places: seq<nat>): string
  {
    if strings == [] then ""
    else Chars(strings[..|strings| - 1], places) + CharsAt(strings[|strings| - 1], places)
  }

  /** Character j of string k, among the given places of all strings. */
  lemma {:induction false} CharsAre(strings: seq<string>, places: seq<nat>, k: nat, j: nat)
    requires k < |strings| && j < |places|
    ensures k * |places| + j < |Chars(strings, places)|
    ensures Chars(strings, places)[k * |places| + j]
            == if places[j] < |strings[k]| then strings[k][places[j]] else 0 as char
  {
    var last := |strings| - 1;
    CharsLength(strings[..last], places);
    if k < last {
      CharsAre(strings[..last], places, k, j);
    }
  }

  lemma {:induction false} OneMore(n: nat, m: nat)
    ensures n * m + m == (n + 1) * m
  {
  }

  lemma {:induction false} CharsLength(strings: seq<string>, places: seq<nat>)
    ensures |Chars(strings, places)| == |strings| * |places|
  {
    if strings != [] {
      CharsLength(strings[..|strings| - 1], places);
      OneMore(|strings| - 1, |places|);
    }
  }

  /** The string at a point. */
  function StringAt(data: seq<string>, sizes: seq<nat>, point: seq<nat>): string
  {
    if |point| == |sizes| && Offset(sizes, point) < |data| then data[Offset(sizes, point)] else ""
  }

  function StringsAt(data: seq<string>, sizes: seq<nat>, points: seq<seq<nat>>): (strings: seq<string>)
    ensures |strings| == |points|
    ensures forall k :: 0 <= k < |points| ==> strings[k] == StringAt(data, sizes, points[k])
  {
    seq(|points|, k requires 0 <= k < |points| => StringAt(data, sizes, points[k]))
  }

  /** The points that are visited; a variable without dimensions of its own has one string, and needs no odometer. */
  function Visited(slices: seq<Slice>): seq<seq<nat>>
    requires PositiveStrides(slices)
  {
    if slices == [] then [[]] else Walked(WheelsOf(slices))
  }

  /** The walk stays inside the array of strings. */
  ghost predicate CoversStrings(slices: seq<Slice>, sizes: seq<nat>, data: seq<string>)
  {
    && |slices| == |sizes| && PositiveStrides(slices) && PositiveStrides(Redeclared(slices, sizes))
    && if slices == [] then |data| == 1 else CoversWalk(WheelsOf(Redeclared(slices, sizes)), data)
  }

  lemma {:induction false} WalkedStrings(read: seq<string>, slices: seq<Slice>, sizes: seq<nat>, data: seq<string>)
    requires CoversStrings(slices, sizes, data) && slices != []
    requires HoldsWalk(read, Redeclared(slices, sizes), data, Identity)
    ensures read == StringsAt(data, sizes, Visited(slices))
  {
    RedeclaredWheels(slices, sizes);
    DeclaredWalk(WheelsOf(slices), sizes);
    var points := Walked(WheelsOf(slices));
    forall k | 0 <= k < |read|
      ensures read[k] == StringAt(data, sizes, points[k])
    {
      assert IsElement(read[k], data, sizes, points[k], Identity);
    }
  }

  /** A visited point has a string. */
  lemma {:induction false} VisitedInside(slices: seq<Slice>, sizes: seq<nat>, data: seq<string>, k: nat)
    requires CoversStrings(slices, sizes, data) && k < |Visited(slices)|
    ensures |Visited(slices)[k]| == |sizes| && Offset(sizes, Visited(slices)[k]) < |data|
  {
    if slices != [] {
      RedeclaredWheels(slices, sizes);
      WalkInside(WheelsOf(slices), sizes, data, k);
    }
  }

  /** The character at place i of the string at point p; the null character behind the end of the string. */
  predicate IsCharOf(c: char, data: seq<string>, sizes: seq<nat>, p: seq<nat>, i: nat)
  {
    && |p| == |sizes| && Offset(sizes, p) < |data|
    && c == if i < |data[Offset(sizes, p)]| then data[Offset(sizes, p)][i] else 0 as char
  }

  /** Character k * m + j is that at the j-th of m places of the string at the k-th point. */
  predicate HoldsCharAt(memory: string, points: seq<seq<nat>>, places: seq<nat>, sizes: seq<nat>, data: seq<string>,
                        k: nat, j: nat)
    requires k < |points| && j < |places|
  {
    k * |places| + j < |memory| && IsCharOf(memory[k * |places| + j], data, sizes, points[k], places[j])
  }

  /** For each point in turn, memory holds the characters at the places of its string. */
  ghost predicate HoldsChars(memory: string, points: seq<seq<nat>>, places: seq<nat>, sizes: seq<nat>,
                             data: seq<string>)
  {
    && |memory| == |points| * |places|
    && forall k, j {:trigger HoldsCharAt(memory, points, places, sizes, data, k, j)} ::
         0 <= k < |points| && 0 <= j < |places| ==> HoldsCharAt(memory, points, places, sizes, data, k, j)
  }

  lemma {:induction false} CharIsHeld(points: seq<seq<nat>>, places: seq<nat>, sizes: seq<nat>, data: seq<string>,
                                      k: nat, j: nat)
    requires k < |points| && j < |places| && |points[k]| == |sizes| && Offset(sizes, points[k]) < |data|
    ensures HoldsCharAt(Chars(StringsAt(data, sizes, points), places), points, places, sizes, data, k, j)
  {
    CharsAre(StringsAt(data, sizes, points), places, k, j);
  }

  lemma {:induction false} CharsAreHeld(points: seq<seq<nat>>, places: seq<nat>, sizes: seq<nat>, data: seq<string>)
    requires forall k {:trigger points[k]} :: 0 <= k < |points| ==>
               |points[k]| == |sizes| && Offset(sizes, points[k]) < |data|
    ensures HoldsChars(Chars(StringsAt(data, sizes, points), places), points, places, sizes, data)
  {
    CharsLength(StringsAt(data, sizes, points), places);
    forall k, j | 0 <= k < |points| && 0 <= j < |places|
      ensures HoldsCharAt(Chars(StringsAt(data, sizes, points), places), points, places, sizes, data, k, j)
    {
      CharIsHeld(points, places, sizes, data, k, j);
    }
  }

  lemma {:induction false} ExtractedChars(slices: seq<Slice>, slice: Slice, sizes: seq<nat>, data: seq<string>)
    requires CoversStrings(slices, sizes, data) && 0 < slice.stride
    ensures HoldsChars(Chars(StringsAt(data, sizes, Visited(slices)), Taken(slice)), Visited(slices), Taken(slice),
                       sizes, data)
  {
    forall k | 0 <= k < |Visited(slices)|
      ensures |Visited(slices)[k]| == |sizes| && Offset(sizes, Visited(slices)[k]) < |data|
    {
      VisitedInside(slices, sizes, data, k);
    }
    CharsAreHeld(Visited(slices), Taken(slice), sizes, data);
  }

  /** Read the strings, and then slice each: for each visited point in turn, memory holds the characters of its string
      at the places taken. */
  method ExtractString(segment: DCEsegment, rank0: nat, sizes: seq<nat>, data: seq<string>) returns (memory: string)
    requires segment.Valid() && rank0 < NC_MAX_VAR_DIMS && 0 < segment.slices[rank0].stride
    requires CoversStrings(segment.slices[..rank0], sizes, data)
    ensures memory == Chars(StringsAt(data, sizes, Visited(segment.slices[..rank0])), Taken(segment.slices[rank0]))
    ensures HoldsChars(memory, Visited(segment.slices[..rank0]), Taken(segment.slices[rank0]), sizes, data)
  {
    var err, strings;
    if rank0 == 0 {
      strings := [data[0]];
      assert strings == StringsAt(data, sizes, [[]]);
    } else {
      err, strings := ExtractEach(segment, rank0, sizes, data, Identity);
      WalkedStrings(strings, segment.slices[..rank0], sizes, data);
    }
    memory := SliceStrings(strings, segment.slices[rank0]);
    ExtractedChars(segment.slices[..rank0], segment.slices[rank0], sizes, data);
  }

  method SliceStrings(strings: seq<string>, slice: Slice) returns (memory: string)
    requires 0 < slice.stride
    ensures memory == Chars(strings, Taken(slice))
  {
    memory := "";
    var i := 0;
    while i < |strings|
      invariant 0 <= i <= |strings| && memory == Chars(strings[..i], Taken(slice))
    {
      var chars := SliceString(strings[i], slice);
      assert strings[..i + 1][..i] == strings[..i];
      memory := memory + chars;
      i := i + 1;
    }
    assert strings[..i] == strings;
  }

  /** When every slice selects something, the points that are visited are those selected, and there are some. */
  lemma {:induction false} FullVisited(slices: seq<Slice>)
    requires PositiveStrides(slices) && AllWalkable(slices) && IsFull(slices)
    ensures Visited(slices) == Points(WheelsOf(slices)) != []
  {
    NonEmptyWheels(slices);
    PointsFirst(WheelsOf(slices));
    if slices != [] {
      ExactWalk(slices);
    }
  }

  /** Otherwise nothing is selected, and something is visited iff the first slice is not the empty one. */
  lemma {:induction false} NotFullVisited(slices: seq<Slice>)
    requires PositiveStrides(slices) && AllWalkable(slices) && !IsFull(slices)
    ensures slices != [] && Points(WheelsOf(slices)) == []
    ensures Visited(slices) == [] <==> slices[0].last < slices[0].first
  {
    ExactWalk(slices);
    NonEmptyWheels(slices);
    SomeEmptyNoPoints(WheelsOf(slices));
  }

  lemma {:induction false} SameFactor(n: nat, a: nat, b: nat)
    requires 0 < n && n * a == n * b
    ensures a == b
  {
    DividesBack(a, n);
    DividesBack(b, n);
  }

  /** What is read of an array of strings is what was selected iff, when every dimension before the last selects
      something, the last selected character lies below the length of the last slice; and when one does not, the first
      dimension is empty or the characters begin behind that length. */
  lemma {:induction false} StringsAreSelected(memory: string, slices: seq<Slice>, slice: Slice, sizes: seq<nat>,
                                              data: seq<string>)
    requires PositiveStrides(slices) && AllWalkable(slices) && MeetsHeader(slice)
    requires HoldsChars(memory, Visited(slices), Taken(slice), sizes, data)
    ensures HoldsChars(memory, Points(WheelsOf(slices)), Indices(slice), sizes, data)
       <==> if IsFull(slices) then EndsBelowLength(slice)
            else slices[0].last < slices[0].first || slice.length <= slice.first
  {
    if IsFull(slices) {
      FullVisited(slices);
      TakenIsSelected(slice);
      if |Visited(slices)| * |Taken(slice)| == |Visited(slices)| * |Indices(slice)| {
        SameFactor(|Visited(slices)|, |Taken(slice)|, |Indices(slice)|);
      }
    } else {
      NotFullVisited(slices);
      StepsHead(slice.first, slice.length, slice.stride);
      NothingRead(|Visited(slices)|, |Taken(slice)|);
    }
  }

  lemma {:induction false} NothingRead(n: nat, m: nat)
    ensures n * m == 0 <==> n == 0 || m == 0
  {
    if 0 < n && 0 < m {
      MulOrder(1, n, m);
    }
  }
}
