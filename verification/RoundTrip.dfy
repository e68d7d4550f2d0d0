/** Printing projections and reading them back. */
module RoundTrip {
  import opened Wrappers
  import opened Ranges
  import opened Slices
  import opened Segments
  import opened Lexer
  import opened Printer
  import opened Parser

  predicate IsNameStart(c: char)
  {
    'a' <= c <= 'z' || 'A' <= c <= 'Z' || c == '_' || c == '/' || c == '\\'
  }

  predicate IsNameChar(c: char)
  {
    IsNameStart(c) || '0' <= c <= '9' || c == '-' || c == '+'
  }

  /** A name of letters, digits, and the marks that need no escape in a URL; it does not begin like a number. */
  predicate IsIdentifier(name: string)
  {
    name != "" && IsNameStart(name[0]) && forall c <- name :: IsNameChar(c)
  }

  /** A slice that selects something and whose last index fits the type. */
  predicate IsPrintable(s: Slice)
  {
    MeetsHeader(s) && s.last < SIZE
  }

  predicate PrintableSegment(seg: SegmentView)
  {
    && IsIdentifier(seg.name) && seg.rank <= |seg.slices|
    && forall s <- InUse(seg) :: IsPrintable(s)
  }

  predicate PrintableSegments(segments: seq<SegmentView>)
  {
    segments != [] && forall seg <- segments :: PrintableSegment(seg)
  }

  /** A slice whose first index and stride fit the type. */
  predicate IsWritten(s: Slice)
  {
    s.first < SIZE && 0 < s.stride && (s.count == 1 || s.stride < SIZE)
  }

  predicate WrittenSegment(seg: SegmentView)
  {
    && IsIdentifier(seg.name) && seg.rank <= |seg.slices|
    && forall s <- InUse(seg) :: IsWritten(s)
  }

  predicate WrittenSegments(segments: seq<SegmentView>)
  {
    segments != [] && forall seg <- segments :: WrittenSegment(seg)
  }

  // ----- The tokens that are printed

  function SliceTokens(s: Slice): seq<Token>
  {
    var first, last := Number(Decimal(s.first)), Number(Decimal(PrintedLast(s)));
    if s.count == 1 then [Symbol('['), first, Symbol(']')]
    else if s.stride == 1 then [Symbol('['), first, Symbol(':'), last, Symbol(']')]
    else [Symbol('['), first, Symbol(':'), Number(Decimal(s.stride)), Symbol(':'), last, Symbol(']')]
  }

  function SlicesTokens(slices: seq<Slice>): seq<Token>
  {
    if slices == [] then [] else SliceTokens(slices[0]) + SlicesTokens(slices[1..])
  }

  function SegmentTokens(seg: SegmentView): seq<Token>
  {
    [Word(seg.name)] + if IsWholeSegment(seg) then [] else SlicesTokens(InUse(seg))
  }

  function SegmentsTokens(segments: seq<SegmentView>): seq<Token>
  {
    if segments == [] then []
    else if |segments| == 1 then SegmentTokens(segments[0])
    else SegmentTokens(segments[0]) + [Symbol('.')] + SegmentsTokens(segments[1..])
  }

  function ProjectionsTokens(projections: seq<seq<SegmentView>>): seq<Token>
  {
    if projections == [] then []
    else if |projections| == 1 then SegmentsTokens(projections[0])
    else SegmentsTokens(projections[0]) + [Symbol(',')] + ProjectionsTokens(projections[1..])
  }

  // ----- Lexing what was printed

  lemma {:induction false} RunWhole(a: string, rest: string, p: char -> bool)
    requires forall c <- a :: p(c)
    requires rest == "" || !p(rest[0])
    ensures Run(a + rest, p) == |a|
  {
    if a == "" {
      assert a + rest == rest;
    } else {
      assert (a + rest)[1..] == a[1..] + rest;
      RunWhole(a[1..], rest, p);
    }
  }

  lemma {:induction false} DecimalDigits(n: nat)
    ensures AllDigits(Decimal(n))
  {
    if 10 <= n {
      DecimalDigits(n / 10);
    }
  }

  lemma {:induction false} DecimalValue(n: nat)
    ensures AllDigits(Decimal(n)) && DigitsValue(Decimal(n)) == n
  {
    DecimalDigits(n);
    if n < 10 {
      assert Decimal(n)[..0] == "";
      assert DigitsValue(Decimal(n)) == DigitsValue("") * 10 + DigitValue(Digit(n));
    } else {
      DecimalValue(n / 10);
      var d := Decimal(n / 10);
      assert Decimal(n)[..|d|] == d;
    }
  }

  /** The text of a token. */
  function TokenText(t: Token): string
  {
    match t
    case Word(text) => text
    case Number(text) => text
    case Symbol(c) => [c]
    case _ => ""
  }

  function Text(ts: seq<Token>): string
  {
    if ts == [] then "" else TokenText(ts[0]) + Text(ts[1..])
  }

  predicate IsPunctuation(c: char)
  {
    c == '[' || c == ']' || c == ':' || c == '.' || c == ','
  }

  /** A printed token and the one after it: a word ends at punctuation or at the end, a number at a colon or bracket. */
  predicate Delimited(t: Token, next: Option<Token>)
  {
    match t
    case Word(text) => IsIdentifier(text) && (next.None? || (next.value.Symbol? && IsPunctuation(next.value.c)))
    case Number(text) => AllDigits(text) && (next == Some(Symbol(':')) || next == Some(Symbol(']')))
    case Symbol(c) => IsPunctuation(c)
    case _ => false
  }

  function First(ts: seq<Token>): Option<Token>
  {
    if ts == [] then None else Some(ts[0])
  }

  predicate AllDelimited(ts: seq<Token>)
  {
    ts == [] || (Delimited(ts[0], First(ts[1..])) && AllDelimited(ts[1..]))
  }

  /** The first of delimited tokens is lexed off their text. */
  lemma {:induction false} LexOne(t: Token, ts: seq<Token>)
    requires AllDelimited(ts) && Delimited(t, First(ts))
    ensures NextToken(TokenText(t) + Text(ts)) == (t, Text(ts))
  {
    var text, rest := TokenText(t), Text(ts);
    var s := text + rest;
    assert s[..|text|] == text && s[|text|..] == rest;
    match t
    case Word(_) =>
      RunWhole(text, rest, IsWordChar);
      assert text[0] in text;
    case Number(_) =>
      RunWhole(text, rest, IsNumCharN);
      assert text[0] in text;
      assert StripSign(text) == text;
    case Symbol(c) =>
  }

  /** Delimited tokens are recovered from their text. */
  lemma {:induction false} LexText(ts: seq<Token>)
    requires AllDelimited(ts)
    ensures Tokens(Text(ts)) == ts
  {
    if ts != [] {
      LexOne(ts[0], ts[1..]);
      LexText(ts[1..]);
    }
  }

  lemma {:induction false} TextCons(t: Token, ts: seq<Token>)
    requires AllDelimited(ts) && Delimited(t, First(ts))
    ensures AllDelimited([t] + ts) && Text([t] + ts) == TokenText(t) + Text(ts)
  {
    assert ([t] + ts)[1..] == ts;
  }

  lemma {:induction false} TextConcat(a: seq<Token>, b: seq<Token>)
    requires AllDelimited(a) && AllDelimited(b)
    requires b == [] || b[0].Symbol? || (a != [] && a[|a| - 1].Symbol?)
    ensures AllDelimited(a + b) && Text(a + b) == Text(a) + Text(b)
  {
    if a == [] {
      assert a + b == b;
    } else if |a| == 1 {
      assert a + b == [a[0]] + b;
      TextCons(a[0], b);
      assert a[1..] == [] && Text(a[1..]) == "";
    } else {
      TextConcat(a[1..], b);
      assert First(a[1..] + b) == First(a[1..]);
      TextCons(a[0], a[1..] + b);
      GlueTokens([a[0]], a[1..], b);
      assert [a[0]] + a[1..] == a;
      Glue(TokenText(a[0]), Text(a[1..]), Text(b));
    }
  }

  // ----- What is printed is the text of the printed tokens

  /** A mark, a number and what follows. */
  lemma {:induction false} MarkedText(c: char, x: string, ts: seq<Token>)
    requires IsPunctuation(c) && AllDigits(x) && AllDelimited(ts)
    requires First(ts) == Some(Symbol(':')) || First(ts) == Some(Symbol(']'))
    ensures AllDelimited([Symbol(c)] + ([Number(x)] + ts))
    ensures Text([Symbol(c)] + ([Number(x)] + ts)) == [c] + (x + Text(ts))
  {
    TextCons(Number(x), ts);
    TextCons(Symbol(c), [Number(x)] + ts);
  }

  lemma {:induction false} BracketText()
    ensures AllDelimited([Symbol(']')]) && Text([Symbol(']')]) == "]"
  {
    TextCons(Symbol(']'), []);
    assert [Symbol(']')] + [] == [Symbol(']')];
  }

  lemma {:induction false} RangeText1(x: string)
    requires AllDigits(x)
    ensures var ts := [Symbol('['), Number(x), Symbol(']')]; AllDelimited(ts) && Text(ts) == "[" + x + "]"
  {
    BracketText();
    MarkedText('[', x, [Symbol(']')]);
    assert [Symbol('[')] + ([Number(x)] + [Symbol(']')]) == [Symbol('['), Number(x), Symbol(']')];
    assert "[" + (x + "]") == "[" + x + "]";
  }

  lemma {:induction false} TailText1(y: string)
    requires AllDigits(y)
    ensures var ts := [Symbol(':'), Number(y), Symbol(']')]; AllDelimited(ts) && Text(ts) == ":" + (y + "]")
  {
    BracketText();
    MarkedText(':', y, [Symbol(']')]);
    assert [Symbol(':')] + ([Number(y)] + [Symbol(']')]) == [Symbol(':'), Number(y), Symbol(']')];
  }

  lemma {:induction false} TailText2(y: string, z: string)
    requires AllDigits(y) && AllDigits(z)
    ensures var ts := [Symbol(':'), Number(y), Symbol(':'), Number(z), Symbol(']')];
            AllDelimited(ts) && Text(ts) == ":" + (y + (":" + (z + "]")))
  {
    TailText1(z);
    var tail := [Symbol(':'), Number(z), Symbol(']')];
    MarkedText(':', y, tail);
    assert [Symbol(':')] + ([Number(y)] + tail) == [Symbol(':'), Number(y), Symbol(':'), Number(z), Symbol(']')];
  }

  lemma {:induction false} RangeText2(x: string, y: string)
    requires AllDigits(x) && AllDigits(y)
    ensures var ts := [Symbol('['), Number(x), Symbol(':'), Number(y), Symbol(']')];
            AllDelimited(ts) && Text(ts) == "[" + x + ":" + y + "]"
  {
    TailText1(y);
    var tail := [Symbol(':'), Number(y), Symbol(']')];
    MarkedText('[', x, tail);
    assert [Symbol('[')] + ([Number(x)] + tail) == [Symbol('['), Number(x), Symbol(':'), Number(y), Symbol(']')];
    assert "[" + (x + (":" + (y + "]"))) == "[" + x + ":" + y + "]";
  }

  lemma {:induction false} RangeText3(x: string, y: string, z: string)
    requires AllDigits(x) && AllDigits(y) && AllDigits(z)
    ensures var ts := [Symbol('['), Number(x), Symbol(':'), Number(y), Symbol(':'), Number(z), Symbol(']')];
            AllDelimited(ts) && Text(ts) == "[" + x + ":" + y + ":" + z + "]"
  {
    TailText2(y, z);
    var tail := [Symbol(':'), Number(y), Symbol(':'), Number(z), Symbol(']')];
    MarkedText('[', x, tail);
    assert [Symbol('[')] + ([Number(x)] + tail)
        == [Symbol('['), Number(x), Symbol(':'), Number(y), Symbol(':'), Number(z), Symbol(']')];
    FlatText(x, y, z);
  }

  lemma {:induction false} FlatText(x: string, y: string, z: string)
    ensures "[" + (x + (":" + (y + (":" + (z + "]"))))) == "[" + x + ":" + y + ":" + z + "]"
  {
  }

  lemma {:induction false} SliceText(s: Slice)
    ensures Text(SliceTokens(s)) == PrintSlice(s)
    ensures AllDelimited(SliceTokens(s))
    ensures SliceTokens(s)[0] == Symbol('[') && SliceTokens(s)[|SliceTokens(s)| - 1] == Symbol(']')
  {
    var first, stride, last := Decimal(s.first), Decimal(s.stride), Decimal(PrintedLast(s));
    DecimalDigits(s.first);
    DecimalDigits(s.stride);
    DecimalDigits(PrintedLast(s));
    if s.count == 1 {
      RangeText1(first);
    } else if s.stride == 1 {
      RangeText2(first, last);
    } else {
      RangeText3(first, stride, last);
    }
  }

  lemma {:induction false} SlicesText(slices: seq<Slice>)
    ensures Text(SlicesTokens(slices)) == PrintSlices(slices)
    ensures AllDelimited(SlicesTokens(slices))
    ensures slices != [] ==> SlicesTokens(slices) != [] && SlicesTokens(slices)[0] == Symbol('[')
  {
    if slices != [] {
      SliceText(slices[0]);
      SlicesText(slices[1..]);
      TextConcat(SliceTokens(slices[0]), SlicesTokens(slices[1..]));
    }
  }

  lemma {:induction false} SegmentText(seg: SegmentView)
    requires WrittenSegment(seg)
    ensures Text(SegmentTokens(seg)) == PrintSegment(seg)
    ensures AllDelimited(SegmentTokens(seg))
  {
    var slices := if IsWholeSegment(seg) then [] else InUse(seg);
    SlicesText(slices);
    TextCons(Word(seg.name), SlicesTokens(slices));
    assert SegmentTokens(seg) == [Word(seg.name)] + SlicesTokens(slices);
    assert seg.name + "" == seg.name;
  }

  /** Two delimited lists with a separator between them. */
  lemma {:induction false} SeparatedText(a: seq<Token>, sep: char, b: seq<Token>)
    requires AllDelimited(a) && AllDelimited(b) && IsPunctuation(sep)
    ensures AllDelimited(a + [Symbol(sep)] + b)
    ensures Text(a + [Symbol(sep)] + b) == Text(a) + [sep] + Text(b)
  {
    TextCons(Symbol(sep), b);
    var tail := [Symbol(sep)] + b;
    TextConcat(a, tail);
    GlueTokens(a, [Symbol(sep)], b);
    Glue(Text(a), [sep], Text(b));
  }

  lemma {:induction false} SegmentsText(segments: seq<SegmentView>)
    requires WrittenSegments(segments)
    ensures Text(SegmentsTokens(segments)) == PrintSegments(segments)
    ensures AllDelimited(SegmentsTokens(segments))
  {
    assert segments[0] in segments;
    SegmentText(segments[0]);
    if |segments| > 1 {
      SegmentsText(segments[1..]);
      SeparatedText(SegmentTokens(segments[0]), '.', SegmentsTokens(segments[1..]));
    }
  }

  lemma {:induction false} ProjectionsText(projections: seq<seq<SegmentView>>)
    requires forall p <- projections :: WrittenSegments(p)
    ensures Text(ProjectionsTokens(projections)) == PrintProjections(projections)
    ensures AllDelimited(ProjectionsTokens(projections))
  {
    if projections != [] {
      assert projections[0] in projections;
      SegmentsText(projections[0]);
      if |projections| > 1 {
        ProjectionsText(projections[1..]);
        SeparatedText(SegmentsTokens(projections[0]), ',', ProjectionsTokens(projections[1..]));
      }
    }
  }

  /** The printed text lexes to the printed tokens. */
  lemma {:induction false} LexProjections(projections: seq<seq<SegmentView>>)
    requires forall p <- projections :: WrittenSegments(p)
    ensures Tokens(PrintProjections(projections)) == ProjectionsTokens(projections)
  {
    ProjectionsText(projections);
    LexText(ProjectionsTokens(projections));
  }

  // ----- Parsing the tokens

  /** What a printed slice reads back as. */
  function ReadBack(s: Slice): Slice
  {
    if s.count == 1 then RangeSlice(s.first, 1, s.first)
    else if s.stride == 1 then RangeSlice(s.first, 1, PrintedLast(s))
    else RangeSlice(s.first, s.stride, PrintedLast(s))
  }

  function ReadBackAll(slices: seq<Slice>): (r: seq<Slice>)
    ensures |r| == |slices| && forall i :: 0 <= i < |r| ==> r[i] == ReadBack(slices[i])
  {
    if slices == [] then [] else [ReadBack(slices[0])] + ReadBackAll(slices[1..])
  }

  function Reread(seg: SegmentView): ParsedSegment
  {
    ParsedSegment(seg.name, if IsWholeSegment(seg) then [] else ReadBackAll(InUse(seg)))
  }

  function RereadSegments(segments: seq<SegmentView>): (r: seq<ParsedSegment>)
  {
    if segments == [] then [] else [Reread(segments[0])] + RereadSegments(segments[1..])
  }

  function RereadAll(projections: seq<seq<SegmentView>>): (r: seq<seq<ParsedSegment>>)
  {
    if projections == [] then [] else [RereadSegments(projections[0])] + RereadAll(projections[1..])
  }

  lemma {:induction false} ScanDecimal(n: nat)
    requires n < SIZE
    ensures ScanLu(Decimal(n)) == Some(n)
  {
    var d := Decimal(n);
    DecimalValue(n);
    assert d[0] in d;
    RunWhole(d, "", IsDigit);
    assert d + "" == d && d[..|d|] == d;
  }

  /** The result of parsing a range whose numbers have been read. */
  function Ranged(s: Option<(Slice, bool)>, rest: seq<Token>): Option<(Slice, bool, seq<Token>)>
  {
    if s.Some? then Some((s.value.0, s.value.1, rest)) else None
  }

  lemma {:induction false} ParseRange1(x: string, rest: seq<Token>)
    ensures ParseRange([Symbol('['), Number(x), Symbol(']')] + rest) == Ranged(Range(x, None, None), rest)
  {
    var ts := [Symbol('['), Number(x), Symbol(']')] + rest;
    assert ts[3..] == rest;
  }

  lemma {:induction false} ParseRange2(x: string, y: string, rest: seq<Token>)
    ensures ParseRange([Symbol('['), Number(x), Symbol(':'), Number(y), Symbol(']')] + rest)
         == Ranged(Range(x, None, Some(y)), rest)
  {
    var ts := [Symbol('['), Number(x), Symbol(':'), Number(y), Symbol(']')] + rest;
    assert ts[5..] == rest;
  }

  lemma {:induction false} ParseRange3(x: string, y: string, z: string, rest: seq<Token>)
    ensures ParseRange([Symbol('['), Number(x), Symbol(':'), Number(y), Symbol(':'), Number(z), Symbol(']')] + rest)
         == Ranged(Range(x, Some(y), Some(z)), rest)
  {
    var head := [Symbol('['), Number(x), Symbol(':'), Number(y), Symbol(':'), Number(z), Symbol(']')];
    var ts := head + rest;
    assert ts[..7] == head && ts[7..] == rest;
    assert ts[4] == Symbol(':') && ts[6] == Symbol(']');
  }

  lemma {:induction false} RangeOfDecimals(first: nat, stride: nat, last: nat)
    requires first < SIZE && last < SIZE && stride < SIZE
    ensures Range(Decimal(first), None, None) == Some((RangeSlice(first, 1, first), true))
    ensures Range(Decimal(first), None, Some(Decimal(last)))
         == Some((RangeSlice(first, 1, last), IsLegalRange(first, 1, last)))
    ensures Range(Decimal(first), Some(Decimal(stride)), Some(Decimal(last)))
         == Some((RangeSlice(first, stride, last), IsLegalRange(first, stride, last)))
  {
    ScanDecimal(first);
    ScanDecimal(stride);
    ScanDecimal(last);
  }

  /** The slices that are printed. */
  function Shown(seg: SegmentView): seq<Slice>
  {
    if IsWholeSegment(seg) then [] else InUse(seg)
  }

  /** The printed slice is a legal range. */
  predicate IsLegal(s: Slice)
  {
    s.count == 1 || s.first <= PrintedLast(s)
  }

  predicate AreLegal(slices: seq<Slice>)
  {
    slices == [] || (IsLegal(slices[0]) && AreLegal(slices[1..]))
  }

  predicate SegmentsAreLegal(segments: seq<SegmentView>)
  {
    segments == [] || (AreLegal(Shown(segments[0])) && SegmentsAreLegal(segments[1..]))
  }

  predicate ProjectionsAreLegal(projections: seq<seq<SegmentView>>)
  {
    projections == [] || (SegmentsAreLegal(projections[0]) && ProjectionsAreLegal(projections[1..]))
  }

  lemma {:induction false} ParseSlice(s: Slice, rest: seq<Token>)
    requires IsWritten(s)
    ensures ParseRange(SliceTokens(s) + rest) == Some((ReadBack(s), IsLegal(s), rest))
  {
    RangeOfDecimals(s.first, if s.count == 1 then 1 else s.stride, PrintedLast(s));
    var first, stride, last := Decimal(s.first), Decimal(s.stride), Decimal(PrintedLast(s));
    if s.count == 1 {
      ParseRange1(first, rest);
      assert SliceTokens(s) == [Symbol('['), Number(first), Symbol(']')];
    } else if s.stride == 1 {
      ParseRange2(first, last, rest);
      assert SliceTokens(s) == [Symbol('['), Number(first), Symbol(':'), Number(last), Symbol(']')];
    } else {
      ParseRange3(first, stride, last, rest);
      assert SliceTokens(s)
          == [Symbol('['), Number(first), Symbol(':'), Number(stride), Symbol(':'), Number(last), Symbol(']')];
    }
  }

  lemma {:induction false} ParseSlices(slices: seq<Slice>, rest: seq<Token>)
    requires forall s <- slices :: IsWritten(s)
    requires rest == [] || rest[0] != Symbol('[')
    ensures ParseRanges(SlicesTokens(slices) + rest) == Some((ReadBackAll(slices), AreLegal(slices), rest))
  {
    if slices == [] {
      assert [] + rest == rest;
    } else {
      var more := SlicesTokens(slices[1..]) + rest;
      assert SlicesTokens(slices) + rest == SliceTokens(slices[0]) + more;
      assert slices[0] in slices;
      ParseSlice(slices[0], more);
      ParseSlices(slices[1..], rest);
    }
  }

  predicate AfterSegment(rest: seq<Token>)
  {
    rest == [] || rest[0] == Symbol('.') || rest[0] == Symbol(',')
  }

  /** A name, and ranges that parse. */
  lemma {:induction false} ParseSegmentCons(name: string, ts: seq<Token>, slices: seq<Slice>, legal: bool,
                                             rest: seq<Token>)
    requires ParseRanges(ts) == Some((slices, legal, rest))
    ensures ParseSegment([Word(name)] + ts) == Some((ParsedSegment(name, slices), legal, rest))
  {
    assert ([Word(name)] + ts)[1..] == ts;
  }

  lemma {:induction false} ParseNamed(name: string, slices: seq<Slice>, rest: seq<Token>)
    requires (forall s <- slices :: IsWritten(s)) && AfterSegment(rest)
    ensures ParseSegment([Word(name)] + (SlicesTokens(slices) + rest))
         == Some((ParsedSegment(name, ReadBackAll(slices)), AreLegal(slices), rest))
  {
    ParseSlices(slices, rest);
    ParseSegmentCons(name, SlicesTokens(slices) + rest, ReadBackAll(slices), AreLegal(slices), rest);
  }

  lemma {:induction false} GlueTokens(a: seq<Token>, b: seq<Token>, c: seq<Token>)
    ensures a + b + c == a + (b + c)
  {
  }

  lemma {:induction false} ShownTokens(seg: SegmentView)
    ensures SegmentTokens(seg) == [Word(seg.name)] + SlicesTokens(Shown(seg))
    ensures Reread(seg) == ParsedSegment(seg.name, ReadBackAll(Shown(seg)))
  {
  }

  lemma {:induction false} ParsePrintedSegment(seg: SegmentView, rest: seq<Token>)
    requires WrittenSegment(seg) && AfterSegment(rest)
    ensures ParseSegment(SegmentTokens(seg) + rest) == Some((Reread(seg), AreLegal(Shown(seg)), rest))
  {
    ShownTokens(seg);
    ParseNamed(seg.name, Shown(seg), rest);
    GlueTokens([Word(seg.name)], SlicesTokens(Shown(seg)), rest);
  }

  /** One segment, a dot, and the segments after it. */
  lemma {:induction false} ParseSegmentsCons(ts: seq<Token>, seg: ParsedSegment, legal: bool, more: seq<Token>,
                                             segs: seq<ParsedSegment>, allLegal: bool, rest: seq<Token>)
    requires ParseSegment(ts) == Some((seg, legal, [Symbol('.')] + more))
    requires ParseSegments(more) == Some((segs, allLegal, rest))
    ensures ParseSegments(ts) == Some(([seg] + segs, legal && allLegal, rest))
  {
    assert ([Symbol('.')] + more)[1..] == more;
  }

  lemma {:induction false} ParseSegmentsLast(ts: seq<Token>, seg: ParsedSegment, legal: bool, rest: seq<Token>)
    requires ParseSegment(ts) == Some((seg, legal, rest)) && (rest == [] || rest[0] == Symbol(','))
    ensures ParseSegments(ts) == Some(([seg], legal, rest))
  {
  }

  lemma {:induction false} SegmentsTokensCons(segments: seq<SegmentView>, rest: seq<Token>)
    requires |segments| > 1
    ensures SegmentsTokens(segments) + rest
         == SegmentTokens(segments[0]) + ([Symbol('.')] + (SegmentsTokens(segments[1..]) + rest))
    ensures RereadSegments(segments) == [Reread(segments[0])] + RereadSegments(segments[1..])
  {
  }

  lemma {:induction false} ParsePrintedSegments(segments: seq<SegmentView>, rest: seq<Token>)
    requires WrittenSegments(segments) && (rest == [] || rest[0] == Symbol(','))
    ensures ParseSegments(SegmentsTokens(segments) + rest)
         == Some((RereadSegments(segments), SegmentsAreLegal(segments), rest))
  {
    var seg, tail := segments[0], segments[1..];
    assert seg in segments;
    if tail == [] {
      ParsePrintedSegment(seg, rest);
      ParseSegmentsLast(SegmentTokens(seg) + rest, Reread(seg), AreLegal(Shown(seg)), rest);
      assert RereadSegments(segments) == [Reread(seg)];
    } else {
      ParsePrintedSegments(tail, rest);
      var more := SegmentsTokens(tail) + rest;
      ParsePrintedSegment(seg, [Symbol('.')] + more);
      ParseSegmentsCons(SegmentTokens(seg) + ([Symbol('.')] + more), Reread(seg), AreLegal(Shown(seg)), more,
                        RereadSegments(tail), SegmentsAreLegal(tail), rest);
      SegmentsTokensCons(segments, rest);
    }
  }

  /** One projection, a comma, and the projections after it. */
  lemma {:induction false} ParseProjectionsCons(ts: seq<Token>, one: seq<ParsedSegment>, legal: bool, more: seq<Token>,
                                                all: seq<seq<ParsedSegment>>, allLegal: bool)
    requires ParseSegments(ts) == Some((one, legal, [Symbol(',')] + more))
    requires ParseProjections(more) == Some((all, allLegal, []))
    ensures ParseProjections(ts) == Some(([one] + all, legal && allLegal, []))
  {
    assert ([Symbol(',')] + more)[1..] == more;
  }

  lemma {:induction false} ParseProjectionsLast(ts: seq<Token>, one: seq<ParsedSegment>, legal: bool)
    requires ParseSegments(ts) == Some((one, legal, []))
    ensures ParseProjections(ts) == Some(([one], legal, []))
  {
  }

  lemma {:induction false} ProjectionsTokensCons(projections: seq<seq<SegmentView>>)
    requires |projections| > 1
    ensures ProjectionsTokens(projections)
         == SegmentsTokens(projections[0]) + ([Symbol(',')] + ProjectionsTokens(projections[1..]))
    ensures RereadAll(projections) == [RereadSegments(projections[0])] + RereadAll(projections[1..])
  {
  }

  lemma {:induction false} ParsePrintedProjections(projections: seq<seq<SegmentView>>)
    requires projections != [] && forall p <- projections :: WrittenSegments(p)
    ensures ParseProjections(ProjectionsTokens(projections))
         == Some((RereadAll(projections), ProjectionsAreLegal(projections), []))
  {
    var one, tail := projections[0], projections[1..];
    assert one in projections;
    if tail == [] {
      ParsePrintedSegments(one, []);
      ParseProjectionsLast(SegmentsTokens(one) + [], RereadSegments(one), SegmentsAreLegal(one));
      assert SegmentsTokens(one) + [] == SegmentsTokens(one);
      assert RereadAll(projections) == [RereadSegments(one)];
    } else {
      ParsePrintedProjections(tail);
      var more := ProjectionsTokens(tail);
      ParsePrintedSegments(one, [Symbol(',')] + more);
      ParseProjectionsCons(SegmentsTokens(one) + ([Symbol(',')] + more), RereadSegments(one), SegmentsAreLegal(one),
                           more, RereadAll(tail), ProjectionsAreLegal(tail));
      ProjectionsTokensCons(projections);
    }
  }

  /** Printing a list of projections and parsing the text gives the same projections, segments and names, with every
      printed slice read back and every whole segment bare; if a printed range is not legal, it gives an error. */
  lemma {:induction false} PrintThenParse(projections: seq<seq<SegmentView>>)
    requires forall p <- projections :: WrittenSegments(p)
    ensures ParseConstraint(Tokens(PrintProjections(projections)))
         == if ProjectionsAreLegal(projections) then Parsed(RereadAll(projections)) else Failed(NC_EDAPCONSTRAINT)
  {
    LexProjections(projections);
    if projections != [] {
      ParsePrintedProjections(projections);
      assert projections[0] in projections;
      FirstIsWord(projections);
    }
  }

  /** A stride that is printed fits the type. */
  lemma {:induction false} StrideIsShort(s: Slice)
    requires MeetsHeader(s) && s.count != 1
    ensures s.stride <= s.last
  {
    if s.length <= s.stride {
      assert 1 * s.stride == s.stride;
      Quotient(s.length + (s.stride - 1), s.stride, 1);
    }
  }

  /** Slices that select something are printed as legal ranges, with their last index. */
  lemma {:induction false} PrintableIsLegal(s: Slice)
    requires IsPrintable(s)
    ensures IsWritten(s) && IsLegal(s) && PrintedLast(s) == s.last
  {
    if s.count != 1 {
      StrideIsShort(s);
    }
    if s.last + 1 == SIZE {
      ModOf(SIZE, SIZE, 1, 0);
    }
  }

  lemma {:induction false} PrintableAreLegal(slices: seq<Slice>)
    requires forall s <- slices :: IsPrintable(s)
    ensures (forall s <- slices :: IsWritten(s)) && AreLegal(slices)
  {
    if slices != [] {
      assert slices[0] in slices;
      PrintableIsLegal(slices[0]);
      PrintableAreLegal(slices[1..]);
      assert slices == [slices[0]] + slices[1..];
    }
  }

  lemma {:induction false} PrintableSegmentsAreLegal(segments: seq<SegmentView>)
    requires forall seg <- segments :: PrintableSegment(seg)
    ensures (forall seg <- segments :: WrittenSegment(seg)) && SegmentsAreLegal(segments)
  {
    if segments != [] {
      assert segments[0] in segments;
      PrintableAreLegal(InUse(segments[0]));
      PrintableSegmentsAreLegal(segments[1..]);
      assert segments == [segments[0]] + segments[1..];
    }
  }

  lemma {:induction false} FirstIsWord(projections: seq<seq<SegmentView>>)
    requires projections != [] && WrittenSegments(projections[0])
    ensures ProjectionsTokens(projections) != [] && ProjectionsTokens(projections)[0].Word?
  {
  }

  // ----- What is read back means the same

  /** A printed slice that meets the header invariant reads back to the same indices. */
  lemma {:induction false} ReadBackKeepsIndices(s: Slice)
    requires IsPrintable(s)
    ensures Indices(ReadBack(s)) == Indices(s)
  {
    CountIsLength(s);
    PrintableIsLegal(s);
    StepsHead(s.first, s.last + 1, s.stride);
    if s.count == 1 {
      StepsCount(s.first, s.first + 1, 1);
      StepsHead(s.first, s.first + 1, 1);
    }
  }

  /** A segment prints as its bare name iff it has no slices or all of them are known, and select all of the size that
      they are declared with. */
  lemma {:induction false} BareIffWhole(seg: SegmentView)
    requires seg.rank <= |seg.slices|
    ensures PrintSegment(seg) == seg.name
       <==> || seg.rank == 0
            || (&& seg.slicesdefined
                && forall j {:trigger seg.slices[j]} :: 0 <= j < seg.rank ==>
                     && seg.slices[j].first == 0 && seg.slices[j].stride == 1
                     && seg.slices[j].length == seg.slices[j].declsize)
    ensures Reread(seg).slices == [] <==> seg.rank == 0 || IsWholeSegment(seg)
  {
    if InUse(seg) != [] {
      assert |PrintSlice(InUse(seg)[0])| > 0;
    }
    forall j | 0 <= j < seg.rank
      ensures seg.slices[j] in InUse(seg)
    {
      assert InUse(seg)[j] == seg.slices[j];
    }
  }

  /** A slice parsed from text meets the header invariant iff its stride divides its length. */
  lemma {:induction false} ParsedCount(first: nat, stride: nat, last: nat)
    requires IsLegalRange(first, stride, last) && last - first < SIZE
    ensures MeetsHeader(RangeSlice(first, stride, last)) <==> (last - first + 1) % stride == 0
  {
    var length := last - first + 1;
    var q, r := length / stride, length % stride;
    assert length == q * stride + r;
    if r == 0 {
      assert (q + 1) * stride == q * stride + stride;
      Quotient(length + (stride - 1), stride, q);
    } else {
      assert (q + 1) * stride == q * stride + stride && (q + 2) * stride == (q + 1) * stride + stride;
      Quotient(length + (stride - 1), stride, q + 1);
    }
  }

  /** A parsed slice printed again keeps its indices iff its length is not strictly between one and two strides: there
      the rounded-down count is 1, and the second index is lost. */
  lemma {:induction false} ReprintKeepsIndices(first: nat, stride: nat, last: nat)
    requires IsLegalRange(first, stride, last) && last < SIZE
    ensures var s := RangeSlice(first, stride, last);
            Indices(ReadBack(s)) == Indices(s) <==> !(stride < last - first + 1 < 2 * stride)
  {
    var s := RangeSlice(first, stride, last);
    var length := last - first + 1;
    assert s.length == length && PrintedLast(s) == last;
    assert s.count == 1 <==> stride <= length < 2 * stride by {
      assert length == (length / stride) * stride + length % stride;
      if stride <= length < 2 * stride {
        Quotient(length, stride, 1);
      }
    }
    if s.count == 1 {
      StepsCount(first, first + 1, 1);
      StepsHead(first, first + 1, 1);
      StepsHead(first, last + 1, stride);
      StepsAt(first, last + 1, stride, 1);
    }
  }

  /** The range [0:3:3] selects 0 and 3; it is parsed, printed as [0], and then selects 0 only. */
  lemma {:induction false} IndexIsLost()
    ensures Range("0", Some("3"), Some("3")) == Some((RangeSlice(0, 3, 3), true))
    ensures Indices(RangeSlice(0, 3, 3)) == [0, 3] && !MeetsHeader(RangeSlice(0, 3, 3))
    ensures PrintSlice(RangeSlice(0, 3, 3)) == "[0]" && Indices(ReadBack(RangeSlice(0, 3, 3))) == [0]
  {
    assert Decimal(0) == "0" && Decimal(3) == "3";
    RangeOfDecimals(0, 3, 3);
    var s := RangeSlice(0, 3, 3);
    assert s == Slice(0, 3, 4, 3, 1, 0);
    assert Steps(0, 4, 3) == [0] + Steps(3, 4, 3) && Steps(3, 4, 3) == [3] + Steps(6, 4, 3);
    ParsedCount(0, 3, 3);
    assert ReadBack(s) == RangeSlice(0, 1, 0);
    assert Steps(0, 1, 1) == [0] + Steps(1, 1, 1);
  }

  // ----- Qualification

  /** The slices that a parsed segment gets when it is matched against dimensions of the given sizes. */
  function Qualified(slices: seq<Slice>, dims: seq<nat>): (r: seq<Slice>)
    requires slices == [] || |slices| == |dims|
    ensures |r| == |dims|
    ensures forall j :: 0 <= j < |dims| ==>
              r[j] == if slices == [] then MakeWhole(dims[j]) else slices[j].(declsize := dims[j])
  {
    seq(|dims|, j requires 0 <= j < |dims| =>
      if slices == [] then MakeWhole(dims[j]) else slices[j].(declsize := dims[j]))
  }

  /** Fill in the sizes of a segment's slices in place; a segment without slices becomes whole. */
  method QualifySizes(seg: DCEsegment, dimset: seq<nat>, hasstringdim: bool)
    requires seg.Valid() && |dimset| <= NC_MAX_VAR_DIMS && (hasstringdim ==> dimset != [])
    modifies seg
    ensures seg.Valid() && seg.slicesdefined && seg.slicesdeclized
    ensures seg.name == old(seg.name) && seg.annotation == old(seg.annotation)
    ensures seg.rank == if hasstringdim then |dimset| - 1 else |dimset|
    ensures seg.slices[..seg.rank]
         == Qualified(if old(seg.slicesdefined) then old(seg.slices)[..seg.rank] else [], dimset[..seg.rank])
  {
    seg.rank := |dimset|;
    if hasstringdim {
      seg.rank := seg.rank - 1;
    }
    var j := 0;
    while j < seg.rank
      invariant 0 <= j <= seg.rank && seg.Valid()
      invariant seg.rank == if hasstringdim then |dimset| - 1 else |dimset|
      invariant seg.name == old(seg.name) && seg.annotation == old(seg.annotation)
      invariant seg.slicesdefined == old(seg.slicesdefined)
      invariant forall k :: 0 <= k < j ==>
                  seg.slices[k] == if seg.slicesdefined then old(seg.slices)[k].(declsize := dimset[k])
                  else MakeWhole(dimset[k])
      invariant forall k :: j <= k < NC_MAX_VAR_DIMS ==> seg.slices[k] == old(seg.slices)[k]
    {
      if seg.slicesdefined {
        seg.slices := seg.slices[j := seg.slices[j].(declsize := dimset[j])];
      } else {
        seg.slices := seg.slices[j := MakeWhole(dimset[j])];
      }
      j := j + 1;
    }
    seg.slicesdefined := true;
    seg.slicesdeclized := true;
  }

  function DeclaredSizes(slices: seq<Slice>): (r: seq<nat>)
    ensures |r| == |slices| && forall j :: 0 <= j < |r| ==> r[j] == slices[j].declsize
  {
    if slices == [] then [] else [slices[0].declsize] + DeclaredSizes(slices[1..])
  }

  /** The slice that a printed segment gets back at place j. */
  lemma {:induction false} QualifiedBack(seg: SegmentView, j: nat)
    requires PrintableSegment(seg) && j < seg.rank
    ensures var dims, read := DeclaredSizes(InUse(seg)), Reread(seg).slices;
            && (read == [] || |read| == |dims|)
            && Qualified(read, dims)[j]
               == if IsWholeSegment(seg) then MakeWhole(InUse(seg)[j].declsize)
                  else ReadBack(InUse(seg)[j]).(declsize := InUse(seg)[j].declsize)
  {
  }

  lemma {:induction false} WholePrintable(s: Slice)
    requires IsPrintable(s) && IsWhole(s)
    ensures MakeWhole(s.declsize) == s
  {
  }

  lemma {:induction false} DeclaredBack(s: Slice, size: nat)
    requires IsPrintable(s)
    ensures 0 < ReadBack(s).stride && Indices(ReadBack(s).(declsize := size)) == Indices(s)
  {
    ReadBackKeepsIndices(s);
  }

  /** A segment that is printed, read back, and qualified with the sizes it was declared with selects what it did. */
  lemma {:induction false} PrintParseQualify(seg: SegmentView, j: nat)
    requires PrintableSegment(seg) && j < seg.rank
    ensures var dims := DeclaredSizes(InUse(seg));
            var read := Reread(seg).slices;
            && (read == [] || |read| == |dims|) && 0 < InUse(seg)[j].stride
            && 0 < Qualified(read, dims)[j].stride
            && Indices(Qualified(read, dims)[j]) == Indices(InUse(seg)[j])
            && (IsWholeSegment(seg) ==> Qualified(read, dims)[j] == InUse(seg)[j])
  {
    var s := InUse(seg)[j];
    assert s in InUse(seg);
    QualifiedBack(seg, j);
    if IsWholeSegment(seg) {
      WholePrintable(s);
    } else {
      DeclaredBack(s, s.declsize);
    }
  }
}
