/** The notation of constraint expressions, character by character: what is a word, a number or a mark, and what a
    projection and a range look like. */
module Notation {
  import opened Wrappers
  import opened Slices
  import opened Lexer
  import opened Printer
  import opened Parser
  import opened RoundTrip

  // ----- Words

  /** What may follow a name or a number in a projection. */
  predicate IsEnded(rest: string)
  {
    rest == "" || rest[0] == '[' || rest[0] == ']' || rest[0] == ':' || rest[0] == '.' || rest[0] == ','
  }

  /** A text of letters, digits and the characters _ - + / % and backslash, that does not begin like a number, is one
      word up to whatever mark follows it. */
  lemma {:induction false} WordIsRead(text: string, rest: string)
    requires text != "" && !('0' <= text[0] <= '9') && text[0] != '-' && text[0] != '+'
    requires forall c <- text ::
               || 'a' <= c <= 'z' || 'A' <= c <= 'Z' || '0' <= c <= '9'
               || c == '_' || c == '-' || c == '+' || c == '/' || c == '%' || c == '\\'
    requires IsEnded(rest)
    ensures NextToken(text + rest) == (Word(text), rest)
  {
    RunWhole(text, rest, IsWordChar);
    assert text[0] in text;
    assert (text + rest)[0] == text[0];
    assert (text + rest)[..|text|] == text && (text + rest)[|text|..] == rest;
  }

  lemma {:induction false} TokenFits(s: string)
    ensures NextToken(s).0.Word? ==> |NextToken(s).0.text| <= |s|
    ensures s != "" && IsSkipped(s[0]) && NextToken(s).0.Word? ==> |NextToken(s).0.text| < |s|
  {
    if s != "" && IsSkipped(s[0]) {
      TokenFits(s[1..]);
    }
  }

  lemma {:induction false} RunIsAll(s: string, p: char -> bool)
    requires Run(s, p) == |s|
    ensures forall c <- s :: p(c)
  {
    if s != "" {
      RunIsAll(s[1..], p);
      assert s == [s[0]] + s[1..];
    }
  }

  /** The names of the round trip are exactly the texts without escapes that do not begin like a number and are lexed as
      one word. */
  lemma {:induction false} IdentifierIff(name: string)
    ensures IsIdentifier(name) <==>
              && name != "" && !('0' <= name[0] <= '9') && name[0] != '-' && name[0] != '+' && '%' !in name
              && NextToken(name) == (Word(name), "")
  {
    if IsIdentifier(name) {
      WordIsRead(name, "");
      assert name + "" == name && name[0] in name;
    }
    if name != "" && !IsNumChar1(name[0]) && '%' !in name && NextToken(name) == (Word(name), "") {
      TokenFits(name);
      RunIsAll(name, IsWordChar);
      assert name[0] in name;
    }
  }

  // ----- Numbers, marks and blanks

  /** Digits, with or without a sign, are a number up to a mark that is no dot. */
  lemma {:induction false} NumberIsRead(sign: string, digits: string, rest: string)
    requires (sign == "" || sign == "+" || sign == "-") && digits != "" && forall c <- digits :: '0' <= c <= '9'
    requires IsEnded(rest) && (rest == "" || rest[0] != '.')
    ensures NextToken(sign + digits + rest) == (Number(sign + digits), rest)
  {
    var text := sign + digits;
    assert digits[0] in digits;
    forall c | c in text
      ensures IsNumCharN(c)
    {
      assert c in sign || c in digits;
    }
    assert StripSign(text) == digits by {
      assert sign == "" ==> text == digits;
    }
    NumberEnds(text, rest);
  }

  lemma {:induction false} NumberEnds(text: string, rest: string)
    requires text != "" && IsNumChar1(text[0]) && IsNumber(text) && forall c <- text :: IsNumCharN(c)
    requires rest == "" || (!IsNumCharN(rest[0]) && !IsWordChar(rest[0]))
    ensures NextToken(text + rest) == (Number(text), rest)
  {
    RunWhole(text, rest, IsNumCharN);
    assert (text + rest)[0] == text[0];
    assert (text + rest)[..|text|] == text && (text + rest)[|text|..] == rest;
  }

  /** Digits followed by a letter that does not go on with the number are a word of their own. */
  lemma {:induction false} FunnyWordIsRead(digits: string, c: char, rest: string)
    requires digits != "" && forall d <- digits :: '0' <= d <= '9'
    requires ('a' <= c <= 'z' || 'A' <= c <= 'Z' || c == '_') && c != 'e' && c != 'E'
    ensures NextToken(digits + ([c] + rest)) == (Word(digits), [c] + rest)
  {
    var tail := [c] + rest;
    RunWhole(digits, tail, IsNumCharN);
    assert digits[0] in digits && (digits + tail)[0] == digits[0];
    assert (digits + tail)[..|digits|] == digits && (digits + tail)[|digits|..] == tail;
  }

  lemma {:induction false} ExponentIs(e: char, sign: string, exponent: string)
    requires (e == 'e' || e == 'E') && exponent != "" && (sign == "" || sign == "+" || sign == "-")
    requires forall c <- exponent :: '0' <= c <= '9'
    ensures var power := [e] + (sign + exponent); IsExponent(power) && forall c <- power :: IsNumCharN(c)
  {
    var power := [e] + (sign + exponent);
    assert power[1..] == sign + exponent && exponent[0] in exponent;
    assert StripSign(sign + exponent) == exponent by {
      assert sign == "" ==> sign + exponent == exponent;
    }
    forall c | c in power
      ensures IsNumCharN(c)
    {
      assert c in sign || c in exponent || c == e;
    }
  }

  lemma {:induction false} FloatIs(whole: string, fraction: string, power: string)
    requires whole != "" && (forall c <- whole :: '0' <= c <= '9') && forall c <- fraction :: '0' <= c <= '9'
    requires IsExponent(power)
    ensures IsFloat(whole + ("." + (fraction + power)))
  {
    var tail := "." + (fraction + power);
    var text := whole + tail;
    assert whole[0] in whole && text[0] == whole[0] && StripSign(text) == text;
    RunWhole(whole, tail, IsDigit);
    assert text[|whole|] == '.' && text[|whole| + 1..] == fraction + power;
    RunWhole(fraction, power, IsDigit);
    assert text[|whole| + 1 + |fraction|..] == power;
  }

  lemma {:induction false} FloatChars(whole: string, fraction: string, power: string)
    requires whole != "" && (forall c <- whole :: '0' <= c <= '9') && forall c <- fraction :: '0' <= c <= '9'
    requires forall c <- power :: IsNumCharN(c)
    ensures var text := whole + ("." + (fraction + power)); IsNumChar1(text[0]) && forall c <- text :: IsNumCharN(c)
  {
    var text := whole + ("." + (fraction + power));
    assert whole[0] in whole && text[0] == whole[0];
    forall c | c in text
      ensures IsNumCharN(c)
    {
      assert c in whole || c == '.' || c in fraction || c in power;
    }
  }

  /** A whole part, a fraction and an exponent are one number up to a mark. */
  lemma {:induction false} FloatIsRead(whole: string, fraction: string, e: char, sign: string, exponent: string,
                                       rest: string)
    requires (e == 'e' || e == 'E') && whole != "" && exponent != "" && (sign == "" || sign == "+" || sign == "-")
    requires (forall c <- whole :: '0' <= c <= '9') && (forall c <- fraction :: '0' <= c <= '9')
    requires (forall c <- exponent :: '0' <= c <= '9') && IsEnded(rest) && (rest == "" || rest[0] != '.')
    ensures var text := whole + ("." + (fraction + ([e] + (sign + exponent))));
            NextToken(text + rest) == (Number(text), rest)
  {
    ExponentIs(e, sign, exponent);
    FloatIs(whole, fraction, [e] + (sign + exponent));
    FloatChars(whole, fraction, [e] + (sign + exponent));
    NumberEnds(whole + ("." + (fraction + ([e] + (sign + exponent)))), rest);
  }

  /** Any other printed character is a token of its own. */
  lemma {:induction false} MarkIsRead(c: char, rest: string)
    requires ' ' < c < '\U{7F}' && c != '"'
    requires !('a' <= c <= 'z') && !('A' <= c <= 'Z') && !('0' <= c <= '9')
    requires c != '_' && c != '-' && c != '+' && c != '/' && c != '%' && c != '\\'
    ensures NextToken([c] + rest) == (Symbol(c), rest)
  {
    assert ([c] + rest)[1..] == rest;
  }

  /** Blanks, control characters and what is beyond ASCII are skipped. */
  lemma {:induction false} BlankIsSkipped(c: char, rest: string)
    requires c <= ' ' || '\U{7F}' <= c
    ensures NextToken([c] + rest) == NextToken(rest)
  {
    assert ([c] + rest)[1..] == rest;
  }

  // ----- The value of a number

  /** A number that is too large is read as the largest there is; a sign negates modulo 2^64. */
  lemma {:induction false} ScanIs(n: nat)
    ensures ScanLu(Decimal(n)) == Some(if n < SIZE then n else SIZE - 1)
    ensures ScanLu("+" + Decimal(n)) == ScanLu(Decimal(n))
    ensures ScanLu("-" + Decimal(n)) == Some(if SIZE <= n then SIZE - 1 else if n == 0 then 0 else SIZE - n)
    ensures SIZE == 18446744073709551616
  {
    var d := Decimal(n);
    DecimalValue(n);
    assert d[0] in d;
    RunWhole(d, "", IsDigit);
    assert d + "" == d && d[..|d|] == d;
    assert ("+" + d)[1..] == d && ("-" + d)[1..] == d;
  }

  /** One hundred and twenty is written 1, 2, 0. */
  lemma {:induction false} OneTwenty()
    ensures Decimal(120) == "120" && ScanLu("120") == Some(120)
  {
    assert Decimal(12) == Decimal(1) + ['2'] == "12" && Decimal(120) == Decimal(12) + ['0'];
    ScanIs(120);
  }

  // ----- Ranges and projections

  lemma {:induction false} OneRangeParsed(ts: seq<Token>, s: Slice, legal: bool)
    requires ts != [] && ts[0] == Symbol('[') && ParseRange(ts) == Some((s, legal, []))
    ensures ParseRanges(ts) == Some(([s], legal, []))
  {
    assert ParseRanges([]) == Some(([], true, []));
    assert [s] + [] == [s];
  }

  lemma {:induction false} AllParsed(ts: seq<Token>, ps: seq<seq<ParsedSegment>>, legal: bool)
    requires ts != [] && ts[0].Word? && ParseProjections(ts) == Some((ps, legal, []))
    ensures ParseConstraint(ts) == if legal then Parsed(ps) else Failed(NC_EDAPCONSTRAINT)
    ensures ParseConstraint([Symbol('?')] + ts) == ParseConstraint(ts)
  {
    assert ([Symbol('?')] + ts)[1..] == ts;
  }

  lemma {:induction false} NamedRangeParsed(name: string, ts: seq<Token>, s: Slice, legal: bool)
    requires ts != [] && ts[0] == Symbol('[') && ParseRange(ts) == Some((s, legal, []))
    ensures ParseConstraint([Word(name)] + ts)
         == if legal then Parsed([[ParsedSegment(name, [s])]]) else Failed(NC_EDAPCONSTRAINT)
  {
    var all := [Word(name)] + ts;
    OneRangeParsed(ts, s, legal);
    ParseSegmentCons(name, ts, [s], legal, []);
    ParseSegmentsLast(all, ParsedSegment(name, [s]), legal, []);
    ParseProjectionsLast(all, [ParsedSegment(name, [s])], legal);
    AllParsed(all, [[ParsedSegment(name, [s])]], legal);
  }

  /** A name and the tokens of one range. */
  lemma {:induction false} RangeOfName(name: string, ts: seq<Token>, s: Slice, legal: bool)
    requires IsIdentifier(name) && AllDelimited(ts) && ts != [] && ts[0] == Symbol('[')
    requires ParseRange(ts) == Some((s, legal, []))
    ensures ParseConstraint(Tokens(name + Text(ts)))
         == if legal then Parsed([[ParsedSegment(name, [s])]]) else Failed(NC_EDAPCONSTRAINT)
  {
    TextCons(Word(name), ts);
    LexText([Word(name)] + ts);
    NamedRangeParsed(name, ts, s, legal);
  }

  lemma {:induction false} ThreeParts(name: string, x: string, y: string, z: string, s: Slice, legal: bool)
    requires IsIdentifier(name) && AllDigits(x) && AllDigits(y) && AllDigits(z)
    requires Range(x, Some(y), Some(z)) == Some((s, legal))
    ensures ParseConstraint(Tokens(name + ("[" + x + ":" + y + ":" + z + "]")))
         == if legal then Parsed([[ParsedSegment(name, [s])]]) else Failed(NC_EDAPCONSTRAINT)
  {
    var ts := [Symbol('['), Number(x), Symbol(':'), Number(y), Symbol(':'), Number(z), Symbol(']')];
    RangeText3(x, y, z);
    ParseRange3(x, y, z, []);
    assert ts + [] == ts;
    RangeOfName(name, ts, s, legal);
  }

  lemma {:induction false} TwoParts(name: string, x: string, z: string, s: Slice, legal: bool)
    requires IsIdentifier(name) && AllDigits(x) && AllDigits(z) && Range(x, None, Some(z)) == Some((s, legal))
    ensures ParseConstraint(Tokens(name + ("[" + x + ":" + z + "]")))
         == if legal then Parsed([[ParsedSegment(name, [s])]]) else Failed(NC_EDAPCONSTRAINT)
  {
    var ts := [Symbol('['), Number(x), Symbol(':'), Number(z), Symbol(']')];
    RangeText2(x, z);
    ParseRange2(x, z, []);
    assert ts + [] == ts;
    RangeOfName(name, ts, s, legal);
  }

  lemma {:induction false} RangeSliceIs(x: nat, y: nat, z: nat)
    ensures IsLegalRange(x, y, z) <==> y != 0 && x <= z
    ensures y != 0 && x <= z ==> RangeSlice(x, y, z) == Slice(x, y, z - x + 1, z, (z - x + 1) / y, 0)
  {
  }

  /** name[x:y:z] selects x, x+y and so on up to z. It is an error if the stride is 0, or the last before the first. */
  lemma {:induction false} RangeIsRead(name: string, x: nat, y: nat, z: nat)
    requires IsIdentifier(name) && x < SIZE && y < SIZE && z < SIZE
    ensures ParseConstraint(Tokens(name + ("[" + Decimal(x) + ":" + Decimal(y) + ":" + Decimal(z) + "]")))
         == if y == 0 || z < x then Failed(NC_EDAPCONSTRAINT)
            else Parsed([[ParsedSegment(name, [Slice(x, y, z - x + 1, z, (z - x + 1) / y, 0)])]])
  {
    DecimalDigits(x);
    DecimalDigits(y);
    DecimalDigits(z);
    RangeOfDecimals(x, y, z);
    RangeSliceIs(x, y, z);
    ThreeParts(name, Decimal(x), Decimal(y), Decimal(z), RangeSlice(x, y, z), IsLegalRange(x, y, z));
  }

  /** name[x:z] selects all from x to z. */
  lemma {:induction false} RunIsRead(name: string, x: nat, z: nat)
    requires IsIdentifier(name) && x < SIZE && z < SIZE
    ensures ParseConstraint(Tokens(name + ("[" + Decimal(x) + ":" + Decimal(z) + "]")))
         == if z < x then Failed(NC_EDAPCONSTRAINT)
            else Parsed([[ParsedSegment(name, [Slice(x, 1, z - x + 1, z, z - x + 1, 0)])]])
  {
    DecimalDigits(x);
    DecimalDigits(z);
    RangeOfDecimals(x, 1, z);
    RangeSliceIs(x, 1, z);
    TwoParts(name, Decimal(x), Decimal(z), RangeSlice(x, 1, z), IsLegalRange(x, 1, z));
  }

  /** name[x] selects x alone. */
  lemma {:induction false} IndexIsRead(name: string, x: nat)
    requires IsIdentifier(name) && x < SIZE
    ensures ParseConstraint(Tokens(name + ("[" + Decimal(x) + "]")))
         == Parsed([[ParsedSegment(name, [Slice(x, 1, 1, x, 1, 0)])]])
  {
    var ts := [Symbol('['), Number(Decimal(x)), Symbol(']')];
    DecimalDigits(x);
    RangeText1(Decimal(x));
    RangeOfDecimals(x, 1, x);
    ParseRange1(Decimal(x), []);
    assert ts + [] == ts;
    RangeOfName(name, ts, RangeSlice(x, 1, x), true);
  }

  /** Dots stand between the segments of a projection, commas between projections; a question mark may come first. */
  lemma {:induction false} ListIsRead(a: string, b: string, c: string)
    requires IsIdentifier(a) && IsIdentifier(b) && IsIdentifier(c)
    ensures var read := Parsed([[ParsedSegment(a, []), ParsedSegment(b, [])], [ParsedSegment(c, [])]]);
            && ParseConstraint(Tokens(a + ("." + (b + ("," + c))))) == read
            && ParseConstraint(Tokens("?" + (a + ("." + (b + ("," + c)))))) == read
  {
    var last := [Word(c)];
    TextCons(Word(c), []);
    TextCons(Symbol(','), last);
    var second := [Word(b)] + ([Symbol(',')] + last);
    TextCons(Word(b), [Symbol(',')] + last);
    TextCons(Symbol('.'), second);
    var all := [Word(a)] + ([Symbol('.')] + second);
    TextCons(Word(a), [Symbol('.')] + second);
    LexText(all);
    var text := a + ("." + (b + ("," + c)));
    assert c + "" == c && Text(all) == text;
    MarkIsRead('?', text);
    assert Tokens("?" + text) == [Symbol('?')] + all;
    ListIsParsed(a, b, c, all);
  }

  lemma {:induction false} ListIsParsed(a: string, b: string, c: string, ts: seq<Token>)
    requires ts == [Word(a), Symbol('.'), Word(b), Symbol(','), Word(c)]
    ensures var read := Parsed([[ParsedSegment(a, []), ParsedSegment(b, [])], [ParsedSegment(c, [])]]);
            ParseConstraint(ts) == read && ParseConstraint([Symbol('?')] + ts) == read
  {
    NameIsParsed(c, []);
    assert [Word(c)] + [] == ts[4..];
    ParseSegmentsLast(ts[4..], ParsedSegment(c, []), true, []);
    ParseProjectionsLast(ts[4..], [ParsedSegment(c, [])], true);
    var rest := [Symbol(',')] + ts[4..];
    NameIsParsed(b, rest);
    assert [Word(b)] + rest == ts[2..];
    ParseSegmentsLast(ts[2..], ParsedSegment(b, []), true, rest);
    NameIsParsed(a, [Symbol('.')] + ts[2..]);
    assert [Word(a)] + ([Symbol('.')] + ts[2..]) == ts;
    ParseSegmentsCons(ts, ParsedSegment(a, []), true, ts[2..], [ParsedSegment(b, [])], true, rest);
    var one := [ParsedSegment(a, [])] + [ParsedSegment(b, [])];
    ParseProjectionsCons(ts, one, true, ts[4..], [[ParsedSegment(c, [])]], true);
    assert one == [ParsedSegment(a, []), ParsedSegment(b, [])];
    AllParsed(ts, [one] + [[ParsedSegment(c, [])]], true);
  }

  lemma {:induction false} NameIsParsed(name: string, rest: seq<Token>)
    requires rest == [] || rest[0] != Symbol('[')
    ensures ParseSegment([Word(name)] + rest) == Some((ParsedSegment(name, []), true, rest))
  {
    ParseSegmentCons(name, rest, [], true, rest);
  }
}
