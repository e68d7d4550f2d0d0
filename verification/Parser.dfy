/** Parsing the projections of a constraint expression: the grammar on tokens, and its actions. */
module Parser {
  import opened Wrappers
  import opened Slices
  import opened Segments
  import opened Printer
  import opened Lexer

  /** A segment as parsed: slices as written, none when only the name is given. */
  datatype ParsedSegment = ParsedSegment(name: string, slices: seq<Slice>)

  // ----- Reading numbers

  function DigitValue(c: char): nat
    requires IsDigit(c)
  {
    (c - '0') as nat
  }

  /** The value of a string of digits. */
  function DigitsValue(s: string): nat
    requires forall c <- s :: IsDigit(c)
  {
    if s == "" then 0 else DigitsValue(s[..|s| - 1]) * 10 + DigitValue(s[|s| - 1])
  }

  /** sscanf with %lu: an optional sign and the digits after it; a value too large saturates, and a minus sign
      negates modulo the size of the type. */
  function ScanLu(text: string): Option<nat>
  {
    var t := StripSign(text);
    var n := Run(t, IsDigit);
    if n == 0 then None
    else
      RunAll(t, IsDigit);
      var v := DigitsValue(t[..n]);
      if SIZE <= v then Some(SIZE - 1)
      else if text[0] == '-' && 0 < v then Some(SIZE - v)
      else Some(v)
  }

  lemma {:induction false} RunAll(s: string, p: char -> bool)
    ensures forall c <- s[..Run(s, p)] :: p(c)
    ensures Run(s, p) < |s| ==> !p(s[Run(s, p)])
  {
    if s != "" && p(s[0]) {
      RunAll(s[1..], p);
      assert s[..Run(s, p)] == [s[0]] + s[1..][..Run(s[1..], p)];
    }
  }

  // ----- The actions, on values

  /** The slice of a range; a stride of 0 is replaced by 1. The count is rounded down. */
  function RangeSlice(first: nat, stride: nat, last: nat): Slice
  {
    var step := if stride == 0 then 1 else stride;
    var length := Minus(last, first) + 1;
    Slice(first, step, length, last, length / step, 0)
  }

  /** A stride of 0 and a last index before the first are reported. */
  predicate IsLegalRange(first: nat, stride: nat, last: nat)
  {
    stride != 0 && first <= last
  }

  /** The range action: None when a number cannot be read, else the slice and whether the range is legal. A missing
      last index repeats the first; a missing stride is 1. */
  function Range(sfirst: string, sstride: Option<string>, slast: Option<string>): Option<(Slice, bool)>
  {
    var first := ScanLu(sfirst);
    var last := if slast.Some? then ScanLu(slast.value) else first;
    var stride := if sstride.Some? then ScanLu(sstride.value) else Some(1);
    if first.None? || last.None? || stride.None? then None
    else Some((RangeSlice(first.value, stride.value, last.value), IsLegalRange(first.value, stride.value, last.value)))
  }

  // ----- The grammar

  /** The tokens of one range, from its bracket on. */
  function ParseRange(ts: seq<Token>): (r: Option<(Slice, bool, seq<Token>)>)
    ensures r.Some? ==> |r.value.2| < |ts|
  {
    if |ts| >= 3 && ts[0] == Symbol('[') && ts[1].Number? && ts[2] == Symbol(']') then
      var s := Range(ts[1].text, None, None);
      if s.Some? then Some((s.value.0, s.value.1, ts[3..])) else None
    else if |ts| >= 5
            && ts[0] == Symbol('[') && ts[1].Number? && ts[2] == Symbol(':') && ts[3].Number? && ts[4] == Symbol(']')
    then
      var s := Range(ts[1].text, None, Some(ts[3].text));
      if s.Some? then Some((s.value.0, s.value.1, ts[5..])) else None
    else if |ts| >= 7
            && ts[0] == Symbol('[') && ts[1].Number? && ts[2] == Symbol(':') && ts[3].Number? && ts[4] == Symbol(':')
            && ts[5].Number? && ts[6] == Symbol(']') then
      var s := Range(ts[1].text, Some(ts[3].text), Some(ts[5].text));
      if s.Some? then Some((s.value.0, s.value.1, ts[7..])) else None
    else None
  }

  /** As many ranges as there are brackets. */
  function ParseRanges(ts: seq<Token>): (r: Option<(seq<Slice>, bool, seq<Token>)>)
    ensures r.Some? ==> |r.value.2| <= |ts|
    decreases |ts|
  {
    if ts == [] || ts[0] != Symbol('[') then Some(([], true, ts))
    else
      var one := ParseRange(ts);
      if one.None? then None
      else
        var more := ParseRanges(one.value.2);
        if more.None? then None
        else Some(([one.value.0] + more.value.0, one.value.1 && more.value.1, more.value.2))
  }

  /** A word and its ranges. */
  function ParseSegment(ts: seq<Token>): (r: Option<(ParsedSegment, bool, seq<Token>)>)
    ensures r.Some? ==> |r.value.2| < |ts|
  {
    if ts == [] || !ts[0].Word? then None
    else
      var slices := ParseRanges(ts[1..]);
      if slices.None? then None
      else Some((ParsedSegment(ts[0].text, slices.value.0), slices.value.1, slices.value.2))
  }

  /** Segments separated by dots. */
  function ParseSegments(ts: seq<Token>): (r: Option<(seq<ParsedSegment>, bool, seq<Token>)>)
    ensures r.Some? ==> |r.value.2| < |ts|
    decreases |ts|
  {
    var one := ParseSegment(ts);
    if one.None? then None
    else if one.value.2 == [] || one.value.2[0] != Symbol('.') then Some(([one.value.0], one.value.1, one.value.2))
    else
      var more := ParseSegments(one.value.2[1..]);
      if more.None? then None
      else Some(([one.value.0] + more.value.0, one.value.1 && more.value.1, more.value.2))
  }

  /** Projections separated by commas. */
  function ParseProjections(ts: seq<Token>): (r: Option<(seq<seq<ParsedSegment>>, bool, seq<Token>)>)
    decreases |ts|
  {
    var one := ParseSegments(ts);
    if one.None? then None
    else if one.value.2 == [] || one.value.2[0] != Symbol(',') then Some(([one.value.0], one.value.1, one.value.2))
    else
      var more := ParseProjections(one.value.2[1..]);
      if more.None? then None
      else Some(([one.value.0] + more.value.0, one.value.1 && more.value.1, more.value.2))
  }

  /** The whole expression: an optional question mark, then projections up to the end; or nothing at all. */
  function ParseConstraint(ts: seq<Token>): Result
  {
    if ts == [] then Parsed([])
    else
      var body := if ts[0] == Symbol('?') then ts[1..] else ts;
      var r := ParseProjections(body);
      if r.Some? && r.value.1 && r.value.2 == [] then Parsed(r.value.0) else Failed(NC_EDAPCONSTRAINT)
  }

  datatype Result = Parsed(projections: seq<seq<ParsedSegment>>) | Failed(err: ErrCode)

  // ----- The actions on the heap

  class DCEparsestate {
    var errorcode: ErrCode

    constructor ()
      ensures errorcode == NC_NOERR
    {
      errorcode := NC_NOERR;
    }

    method Error()
      modifies this
      ensures errorcode == NC_EDAPCONSTRAINT
    {
      errorcode := NC_EDAPCONSTRAINT;
    }
  }

  /** Build the slice of a range; an illegal range is reported in the parse state and built all the same. */
  method RangeAction(state: DCEparsestate, sfirst: string, sstride: Option<string>, slast: Option<string>)
    returns (slice: Option<Slice>)
    modifies state
    ensures Range(sfirst, sstride, slast).None? ==> slice.None? && state.errorcode == old(state.errorcode)
    ensures Range(sfirst, sstride, slast).Some? ==>
              var (s, legal) := Range(sfirst, sstride, slast).value;
              slice == Some(s) && state.errorcode == if legal then old(state.errorcode) else NC_EDAPCONSTRAINT
  {
    var first, stride, last := 0, 0, 0;
    var scanned := ScanLu(sfirst);
    if scanned.None? {
      return None;
    }
    first := scanned.value;
    if slast.Some? {
      scanned := ScanLu(slast.value);
      if scanned.None? {
        return None;
      }
      last := scanned.value;
    } else {
      last := first;
    }
    if sstride.Some? {
      scanned := ScanLu(sstride.value);
      if scanned.None? {
        return None;
      }
      stride := scanned.value;
    } else {
      stride := 1;
    }
    var s := MakeRange(state, first, stride, last);
    slice := Some(s);
  }

  method MakeRange(state: DCEparsestate, first: nat, stride: nat, last: nat) returns (s: Slice)
    modifies state
    ensures s == RangeSlice(first, stride, last)
    ensures state.errorcode == if IsLegalRange(first, stride, last) then old(state.errorcode) else NC_EDAPCONSTRAINT
  {
    if stride == 0 {
      state.Error();
    }
    if last < first {
      state.Error();
    }
    s := ZERO_SLICE.(first := first, stride := if stride == 0 then 1 else stride, last := last);
    s := s.(length := Minus(s.last, s.first) + 1);
    s := s.(count := s.length / s.stride);
  }

  /** Build the segment of a name and its ranges. */
  method SegmentAction(name: string, slices: seq<Slice>) returns (segment: DCEsegment)
    requires |slices| <= NC_MAX_VAR_DIMS
    ensures fresh(segment) && segment.Valid()
    ensures segment.name == name && segment.rank == |slices| && segment.annotation.None?
    ensures segment.slicesdefined <==> slices != []
    ensures !segment.slicesdeclized && InUse(segment.View()) == slices
  {
    segment := new DCEsegment();
    segment.name := name;
    if |slices| > 0 {
      segment.rank := |slices|;
      segment.slicesdefined := true;
      var i := 0;
      while i < |slices|
        invariant 0 <= i <= |slices| == segment.rank && segment.Valid()
        invariant segment.name == name && segment.annotation.None? && segment.slicesdefined && !segment.slicesdeclized
        invariant segment.slices[..i] == slices[..i]
      {
        segment.slices := segment.slices[i := slices[i]];
        i := i + 1;
      }
    } else {
      segment.slicesdefined := false;
    }
  }
}
