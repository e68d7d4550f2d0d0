/** The lexer of constraint expressions, for words, numbers and single-character tokens. */
module Lexer {
  datatype Token =
    | Word(text: string)
    | Number(text: string)
    | Symbol(c: char)
    | End
    | Unmodelled  // string constants, and words that back up to a dot

  predicate IsDigit(c: char)
  {
    '0' <= c <= '9'
  }

  predicate IsLetter(c: char)
  {
    'a' <= c <= 'z' || 'A' <= c <= 'Z'
  }

  /** The characters of wordchars1 and wordcharsn. */
  predicate IsWordChar(c: char)
  {
    IsLetter(c) || IsDigit(c) || c == '-' || c == '+' || c == '_' || c == '/' || c == '%' || c == '\\'
  }

  /** The characters of numchars1. */
  predicate IsNumChar1(c: char)
  {
    c == '+' || c == '-' || IsDigit(c)
  }

  /** The characters of numcharsn. */
  predicate IsNumCharN(c: char)
  {
    c == 'E' || c == 'e' || c == '.' || c == '+' || c == '-' || IsDigit(c)
  }

  /** Blanks, control characters and everything beyond ASCII are skipped. */
  predicate IsSkipped(c: char)
  {
    c <= ' ' || '\U{7F}' <= c
  }

  // ----- What one token is

  /** The length of the longest prefix whose characters satisfy p. */
  function Run(s: string, p: char -> bool): (n: nat)
    ensures n <= |s|
  {
    if s == "" || !p(s[0]) then 0 else 1 + Run(s[1..], p)
  }

  function StripSign(s: string): string
  {
    if s != "" && (s[0] == '+' || s[0] == '-') then s[1..] else s
  }

  predicate AllDigits(s: string)
  {
    s != "" && forall c <- s :: IsDigit(c)
  }

  /** Would strtoll consume all of it? */
  predicate IsInteger(s: string)
  {
    AllDigits(StripSign(s))
  }

  predicate IsExponent(s: string)
  {
    s == "" || ((s[0] == 'e' || s[0] == 'E') && IsInteger(s[1..]))
  }

  /** Would strtod consume all of it? */
  predicate IsFloat(s: string)
  {
    var t := StripSign(s);
    var whole := Run(t, IsDigit);
    if whole < |t| && t[whole] == '.' then
      var fraction := Run(t[whole + 1..], IsDigit);
      0 < whole + fraction && IsExponent(t[whole + 1 + fraction..])
    else
      0 < whole && IsExponent(t[whole..])
  }

  predicate IsNumber(s: string)
  {
    IsInteger(s) || IsFloat(s)
  }

  /** The first token of s, and what follows it. */
  function NextToken(s: string): (r: (Token, string))
    ensures !r.0.End? && !r.0.Unmodelled? ==> |r.1| < |s|
  {
    if s == "" then (End, "")
    else if IsSkipped(s[0]) then NextToken(s[1..])
    else if s[0] == '"' then (Unmodelled, "")
    else if IsNumChar1(s[0]) then
      var n := Run(s, IsNumCharN);
      var text, rest := s[..n], s[n..];
      if IsNumber(text) && (rest == "" || !IsWordChar(rest[0])) then (Number(text), rest)
      else if '.' in text then (Unmodelled, "")
      else (Word(text), rest)
    else if IsWordChar(s[0]) then
      var n := Run(s, IsWordChar);
      (Word(s[..n]), s[n..])
    else
      (Symbol(s[0]), s[1..])
  }

  function Tokens(s: string): seq<Token>
    decreases |s|
  {
    var (token, rest) := NextToken(s);
    if token.End? then []
    else if token.Unmodelled? then [Unmodelled]
    else [token] + Tokens(rest)
  }

  // ----- The scanner

  class DCElexstate {
    const input: string
    var next: nat
    var yytext: string

    ghost predicate Valid()
      reads this
    {
      next <= |input|
    }

    constructor (input: string)
      ensures Valid() && this.input == input && next == 0
    {
      this.input, next, yytext := input, 0, "";
    }

    /** Append the characters from p on that belong to the class to the token text. */
    method Scan(p: nat, belongs: char -> bool) returns (q: nat)
      requires p <= |input|
      modifies `yytext
      ensures q == p + Run(input[p..], belongs) <= |input|
      ensures yytext == old(yytext) + input[p..q]
    {
      q := p;
      while q < |input| && belongs(input[q])
        invariant p <= q <= |input|
        invariant p + Run(input[p..], belongs) == q + Run(input[q..], belongs)
        invariant yytext == old(yytext) + input[p..q]
      {
        assert input[q..][1..] == input[q + 1..];
        yytext := yytext + [input[q]];
        q := q + 1;
      }
    }

    /** Skip what no token starts with. */
    method Skip() returns (p: nat)
      requires Valid()
      ensures next <= p <= |input| && (p < |input| ==> !IsSkipped(input[p]))
      ensures NextToken(input[p..]) == NextToken(input[next..])
    {
      p := next;
      while p < |input| && IsSkipped(input[p])
        invariant next <= p <= |input|
        invariant NextToken(input[p..]) == NextToken(input[next..])
      {
        assert input[p..][1..] == input[p + 1..];
        p := p + 1;
      }
    }

    /** Read a number, or a word that starts like one. */
    method LexNumber(p: nat) returns (token: Token, q: nat)
      requires p < |input| && IsNumChar1(input[p]) && yytext == "" && !IsSkipped(input[p]) && input[p] != '"'
      modifies `yytext
      ensures q <= |input| && token == NextToken(input[p..]).0
      ensures !token.Unmodelled? ==> input[q..] == NextToken(input[p..]).1
    {
      ghost var s := input[p..];
      q := Scan(p, IsNumCharN);
      assert yytext == s[..q - p] && input[q..] == s[q - p..];
      if IsNumber(yytext) && (q == |input| || !IsWordChar(input[q])) {
        token := Number(yytext);
      } else if '.' in yytext {
        token := Unmodelled;
      } else {
        token := Word(yytext);
      }
    }

    /** Read a word. */
    method LexWord(p: nat) returns (token: Token, q: nat)
      requires p < |input| && IsWordChar(input[p]) && !IsNumChar1(input[p]) && yytext == ""
      modifies `yytext
      ensures q <= |input| && (token, input[q..]) == NextToken(input[p..])
    {
      ghost var s := input[p..];
      q := Scan(p, IsWordChar);
      assert yytext == s[..q - p] && input[q..] == s[q - p..];
      token := Word(yytext);
    }

    /** Read one token. */
    method Lex() returns (token: Token)
      requires Valid()
      modifies this
      ensures Valid()
      ensures token == NextToken(old(input[next..])).0
      ensures !token.Unmodelled? ==> input[next..] == NextToken(old(input[next..])).1
    {
      yytext := "";
      var p := Skip();
      if p == |input| {
        next := p;
        return End;
      }
      var c := input[p];
      if c == '"' {
        token := Unmodelled;
      } else if IsNumChar1(c) {
        token, p := LexNumber(p);
      } else if IsWordChar(c) {
        token, p := LexWord(p);
      } else {
        assert input[p..][1..] == input[p + 1..];
        token := Symbol(c);
        yytext := yytext + [c];
        p := p + 1;
      }
      next := p;
    }
  }
}
