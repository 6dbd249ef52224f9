/**
  lexer.cpp: a hand-written scanner over 8-bit characters. The functions say where trivia and
  tokens end; the class is the scanner, which also tracks line, column and offset.
  Character classes are those of the C locale.
 */
module Lexer {
  import opened Common

  datatype TokenType =
    | EndOfFile | Invalid
    | Select | From | Where | Insert | Into | Values | Create | Table | Drop | NullKeyword
    | AndKeyword | OrKeyword | NotKeyword | As | Order | By | Limit | True | False
    | Identifier | IntegerToken | StringToken
    | PlusSign | MinusSign | StarSign | Slash | EqualSign | NotEqualSign | LessSign | LessEqualSign | GreaterSign | GreaterEqualSign
    | LeftParen | RightParen | Comma | Dot | Semicolon

  datatype Location = Location(line: nat, column: nat, offset: nat)
  datatype Token = Token(ty: TokenType, lexeme: Text, start: Location, end: Location)

  const KEYWORDS: seq<(Text, TokenType)> := [
    ("select", Select), ("from", From), ("where", Where), ("insert", Insert), ("into", Into),
    ("values", Values), ("create", Create), ("table", Table), ("drop", Drop), ("null", NullKeyword),
    ("and", AndKeyword), ("or", OrKeyword), ("not", NotKeyword), ("as", As), ("order", Order),
    ("by", By), ("limit", Limit), ("true", True), ("false", False)]

  // ---------------------------------------------------------------- characters

  predicate IsSpace(c: ByteChar) {
    c == ' ' || 9 <= c as int <= 13
  }

  predicate IsDigit(c: ByteChar) {
    '0' <= c <= '9'
  }

  predicate IsAlpha(c: ByteChar) {
    'a' <= c <= 'z' || 'A' <= c <= 'Z' || c == '_'
  }

  predicate IsAlphaNumeric(c: ByteChar) {
    IsAlpha(c) || IsDigit(c)
  }

  // Peek and PeekNext: NUL past the end.
  function CharAt(input: Text, pos: nat): ByteChar {
    if pos < |input| then input[pos] else 0 as char
  }

  predicate StartsLineComment(input: Text, pos: nat) {
    CharAt(input, pos) == '-' && CharAt(input, pos + 1) == '-'
  }

  predicate StartsBlockComment(input: Text, pos: nat) {
    CharAt(input, pos) == '/' && CharAt(input, pos + 1) == '*'
  }

  predicate EndsBlockComment(input: Text, pos: nat) {
    CharAt(input, pos) == '*' && CharAt(input, pos + 1) == '/'
  }

  predicate IsLineEnd(c: ByteChar) {
    c == '\n' || c == '\r'
  }

  // ---------------------------------------------------------------- where things end

  function LineCommentEnd(input: Text, pos: nat): (end: nat)
    requires pos <= |input|
    ensures pos <= end <= |input|
    decreases |input| - pos
  {
    if pos == |input| || IsLineEnd(input[pos]) then pos else LineCommentEnd(input, pos + 1)
  }

  // None for an unterminated comment.
  function BlockCommentEnd(input: Text, pos: nat): (end: Option<nat>)
    requires pos <= |input|
    ensures end.Some? ==> pos < end.value <= |input|
    decreases |input| - pos
  {
    if pos == |input| then None
    else if EndsBlockComment(input, pos) then Some(pos + 2)
    else BlockCommentEnd(input, pos + 1)
  }

  // None when the input ends inside a block comment.
  function TriviaEnd(input: Text, pos: nat): (end: Option<nat>)
    requires pos <= |input|
    ensures end.Some? ==> pos <= end.value <= |input|
    decreases |input| - pos
  {
    if pos == |input| then Some(pos)
    else if IsSpace(input[pos]) then TriviaEnd(input, pos + 1)
    else if StartsLineComment(input, pos) then TriviaEnd(input, LineCommentEnd(input, pos + 2))
    else if StartsBlockComment(input, pos) then
      var end := BlockCommentEnd(input, pos + 2);
      if end.None? then None else TriviaEnd(input, end.value)
    else Some(pos)
  }

  function IdentifierEnd(input: Text, pos: nat): (end: nat)
    requires pos <= |input|
    ensures pos <= end <= |input|
    decreases |input| - pos
  {
    if pos < |input| && IsAlphaNumeric(input[pos]) then IdentifierEnd(input, pos + 1) else pos
  }

  function NumberEnd(input: Text, pos: nat): (end: nat)
    requires pos <= |input|
    ensures pos <= end <= |input|
    decreases |input| - pos
  {
    if pos < |input| && IsDigit(input[pos]) then NumberEnd(input, pos + 1) else pos
  }

  // From inside a string: the position after the closing quote; a doubled quote does not close.
  function StringEnd(input: Text, pos: nat): (end: Option<nat>)
    requires pos <= |input|
    ensures end.Some? ==> pos < end.value <= |input|
    decreases |input| - pos
  {
    if pos == |input| then None
    else if input[pos] != '\'' then StringEnd(input, pos + 1)
    else if CharAt(input, pos + 1) == '\'' then StringEnd(input, pos + 2)
    else Some(pos + 1)
  }

  function LookupIn(table: seq<(Text, TokenType)>, key: Text): TokenType {
    if table == [] then Identifier
    else if table[0].0 == key then table[0].1
    else LookupIn(table[1..], key)
  }

  function LookupKeyword(text: Text): (ty: TokenType)
    ensures IsWord(ty)
  {
    LookupFindsWords(KEYWORDS, FoldIdentifierKey(text));
    LookupIn(KEYWORDS, FoldIdentifierKey(text))
  }

  function OperatorToken(input: Text, pos: nat): (r: (TokenType, nat))
    requires pos < |input|
    ensures pos < r.1 <= |input|
  {
    var next := CharAt(input, pos + 1);
    match input[pos]
    case '+' => (PlusSign, pos + 1)
    case '-' => (MinusSign, pos + 1)
    case '*' => (StarSign, pos + 1)
    case '/' => (Slash, pos + 1)
    case '=' => (EqualSign, pos + 1)
    case '!' => if next == '=' then (NotEqualSign, pos + 2) else (Invalid, pos + 1)
    case '<' => if next == '=' then (LessEqualSign, pos + 2) else if next == '>' then (NotEqualSign, pos + 2) else (LessSign, pos + 1)
    case '>' => if next == '=' then (GreaterEqualSign, pos + 2) else (GreaterSign, pos + 1)
    case '(' => (LeftParen, pos + 1)
    case ')' => (RightParen, pos + 1)
    case ',' => (Comma, pos + 1)
    case '.' => (Dot, pos + 1)
    case ';' => (Semicolon, pos + 1)
    case _ => (Invalid, pos + 1)
  }

  // Type and end of the token at pos.
  function TokenAt(input: Text, pos: nat): (r: (TokenType, nat))
    requires pos <= |input|
    ensures pos <= r.1 <= |input|
    ensures r.0 == EndOfFile <==> pos == |input|
    ensures pos < |input| ==> pos < r.1
  {
    if pos == |input| then (EndOfFile, pos)
    else if IsAlpha(input[pos]) then
      var end := IdentifierEnd(input, pos + 1);
      (LookupKeyword(input[pos..end]), end)
    else if IsDigit(input[pos]) then (IntegerToken, NumberEnd(input, pos + 1))
    else if input[pos] == '\'' then
      var end := StringEnd(input, pos + 1);
      if end.Some? then (StringToken, end.value) else (Invalid, |input|)
    else OperatorToken(input, pos)
  }

  // Keywords and identifiers.
  predicate IsWord(ty: TokenType) {
    || ty.Select? || ty.From? || ty.Where? || ty.Insert? || ty.Into? || ty.Values? || ty.Create? || ty.Table? || ty.Drop?
    || ty.NullKeyword? || ty.AndKeyword? || ty.OrKeyword? || ty.NotKeyword? || ty.As? || ty.Order? || ty.By? || ty.Limit?
    || ty.True? || ty.False? || ty.Identifier?
  }

  lemma {:induction false} LookupFindsWords(table: seq<(Text, TokenType)>, key: Text)
    requires forall i :: 0 <= i < |table| ==> IsWord(table[i].1)
    ensures IsWord(LookupIn(table, key))
  {
    if table != [] {
      LookupFindsWords(table[1..], key);
    }
  }

  // ---------------------------------------------------------------- locations and token lists

  function Advanced(at: Location, c: ByteChar): Location {
    if c == '\n' then Location(at.line + 1, 1, at.offset + 1) else Location(at.line, at.column + 1, at.offset + 1)
  }

  // The location after the first n characters.
  function LocationAt(input: Text, n: nat): (at: Location)
    requires n <= |input|
    ensures at.offset == n
  {
    if n == 0 then Location(1, 1, 0) else Advanced(LocationAt(input, n - 1), input[n - 1])
  }

  // Position n is on the line that begins at `start`.
  ghost predicate LineBegins(input: Text, start: nat, n: nat) {
    && start <= n <= |input| && (start == 0 || input[start - 1] == '\n')
    && forall j :: start <= j < n ==> input[j] != '\n'
  }

  // The line is one more than the newlines before, the column one more than the characters
  // before on the same line.
  lemma {:induction false} LocationsCount(input: Text, n: nat)
    requires n <= |input|
    ensures LocationAt(input, n).line == 1 + multiset(input[..n])['\n'] && LocationAt(input, n).offset == n
    ensures exists start :: LineBegins(input, start, n) && LocationAt(input, n).column == 1 + n - start
  {
    if n == 0 {
      assert LineBegins(input, 0, 0);
    } else {
      LocationsCount(input, n - 1);
      assert input[..n] == input[..n - 1] + [input[n - 1]];
      var start :| LineBegins(input, start, n - 1) && LocationAt(input, n - 1).column == 1 + (n - 1) - start;
      assert LineBegins(input, if input[n - 1] == '\n' then n else start, n);
    }
  }

  function MakeToken(input: Text, start: nat, end: nat, ty: TokenType): Token
    requires start <= end <= |input|
  {
    Token(ty, input[start..end], LocationAt(input, start), LocationAt(input, end))
  }

  // The tokens scanned from pos, and whether scanning reached the end of the input rather
  // than an unterminated comment.
  datatype Scanned = Scanned(tokens: seq<Token>, complete: bool)

  function ScanFrom(input: Text, pos: nat): Scanned
    requires pos <= |input|
    decreases |input| - pos
  {
    var start := TriviaEnd(input, pos);
    if start.None? then Scanned([], false)
    else
      var (ty, end) := TokenAt(input, start.value);
      var token := MakeToken(input, start.value, end, ty);
      if ty == EndOfFile then Scanned([token], true)
      else
        var rest := ScanFrom(input, end);
        Scanned([token] + rest.tokens, rest.complete)
  }

  function TokenizeText(input: Text): Result<seq<Token>> {
    var scanned := ScanFrom(input, 0);
    if scanned.complete then Ok(scanned.tokens) else Err(ParseError)
  }

  // ---------------------------------------------------------------- the code

  class Scanner {
    const input: Text
    var current: nat
    var location: Location
    var start: nat
    var startLocation: Location

    // The tracked location is a function of the consumed prefix.
    ghost predicate Valid()
      reads this
    {
      && current <= |input| && location == LocationAt(input, current)
      && start <= current && startLocation == LocationAt(input, start)
    }

    constructor (text: Text)
      ensures Valid() && input == text && current == 0
    {
      input := text;
      current, location := 0, Location(1, 1, 0);
      start, startLocation := 0, Location(1, 1, 0);
    }

    method Advance() returns (c: ByteChar)
      requires Valid() && current < |input|
      modifies this`current, this`location
      ensures Valid() && current == old(current) + 1 && c == input[old(current)]
    {
      c := input[current];
      current := current + 1;
      location := Advanced(location, c);
    }

    method Match(expected: ByteChar) returns (matched: bool)
      requires Valid()
      modifies this`current, this`location
      ensures Valid() && matched == (old(current) < |input| && input[old(current)] == expected)
      ensures current == if matched then old(current) + 1 else old(current)
    {
      if current >= |input| || input[current] != expected {
        return false;
      }
      var _ := Advance();
      return true;
    }

    // Line comments run up to the line end but do not consume it.
    method SkipLineComment()
      requires Valid() && current < |input| && StartsLineComment(input, current)
      modifies this`current, this`location
      ensures Valid() && current == LineCommentEnd(input, old(current) + 2)
    {
      var _ := Advance();
      var _ := Advance();
      while current < |input| && !IsLineEnd(CharAt(input, current))
        invariant Valid() && old(current) + 2 <= current
        invariant LineCommentEnd(input, current) == LineCommentEnd(input, old(current) + 2)
        decreases |input| - current
      {
        var _ := Advance();
      }
    }

    method SkipBlockComment() returns (terminated: bool)
      requires Valid() && current < |input| && StartsBlockComment(input, current)
      modifies this`current, this`location
      ensures Valid() && terminated == BlockCommentEnd(input, old(current) + 2).Some?
      ensures terminated ==> current == BlockCommentEnd(input, old(current) + 2).value
    {
      var _ := Advance();
      var _ := Advance();
      while current < |input|
        invariant Valid() && old(current) + 2 <= current
        invariant BlockCommentEnd(input, current) == BlockCommentEnd(input, old(current) + 2)
        decreases |input| - current
      {
        if CharAt(input, current) == '*' && CharAt(input, current + 1) == '/' {
          var _ := Advance();
          var _ := Advance();
          return true;
        }
        var _ := Advance();
      }
      return false;
    }

    // False on an unterminated block comment.
    method SkipTrivia() returns (ok: bool)
      requires Valid()
      modifies this`current, this`location
      ensures Valid() && ok == TriviaEnd(input, old(current)).Some?
      ensures ok ==> current == TriviaEnd(input, old(current)).value
    {
      hide LocationAt;
      while current < |input|
        invariant Valid()
        invariant TriviaEnd(input, current) == TriviaEnd(input, old(current))
        decreases |input| - current
      {
        var character := CharAt(input, current);
        if IsSpace(character) {
          var _ := Advance();
        } else if character == '-' && CharAt(input, current + 1) == '-' {
          SkipLineComment();
        } else if character == '/' && CharAt(input, current + 1) == '*' {
          var terminated := SkipBlockComment();
          if !terminated {
            return false;
          }
        } else {
          return true;
        }
      }
      return true;
    }

    method Make(ty: TokenType) returns (token: Token)
      requires Valid()
      ensures token == MakeToken(input, start, current, ty)
    {
      token := Token(ty, input[start..current], startLocation, location);
    }

    method ScanIdentifierOrKeyword() returns (token: Token)
      requires Valid() && start == current < |input| && IsAlpha(input[current])
      modifies this`current, this`location
      ensures Valid() && (token.ty, current) == TokenAt(input, start) && token == MakeToken(input, start, current, token.ty)
    {
      while current < |input| && IsAlphaNumeric(CharAt(input, current))
        invariant Valid()
        invariant IdentifierEnd(input, current) == IdentifierEnd(input, start)
        decreases |input| - current
      {
        var _ := Advance();
      }
      token := Make(LookupKeyword(input[start..current]));
    }

    method ScanNumber() returns (token: Token)
      requires Valid() && start == current < |input| && IsDigit(input[current]) && !IsAlpha(input[current])
      modifies this`current, this`location
      ensures Valid() && (token.ty, current) == TokenAt(input, start) && token == MakeToken(input, start, current, token.ty)
    {
      while current < |input| && IsDigit(CharAt(input, current))
        invariant Valid()
        invariant NumberEnd(input, current) == NumberEnd(input, start)
        decreases |input| - current
      {
        var _ := Advance();
      }
      token := Make(IntegerToken);
    }

    method ScanString() returns (token: Token)
      requires Valid() && start == current < |input| && input[current] == '\''
      modifies this`current, this`location
      ensures Valid() && (token.ty, current) == TokenAt(input, start) && token == MakeToken(input, start, current, token.ty)
    {
      var _ := Advance();
      while current < |input|
        invariant Valid() && start < current
        invariant StringEnd(input, current) == StringEnd(input, start + 1)
        decreases |input| - current
      {
        var character := Advance();
        if character == '\'' {
          if CharAt(input, current) == '\'' {
            var _ := Advance();
          } else {
            token := Make(StringToken);
            return;
          }
        }
      }
      token := Make(Invalid);
    }

    method ScanOperatorOrPunctuation() returns (token: Token)
      requires Valid() && start == current < |input|
      modifies this`current, this`location
      ensures Valid() && (token.ty, current) == OperatorToken(input, start) && token == MakeToken(input, start, current, token.ty)
    {
      var character := Advance();
      var ty := Invalid;
      match character {
        case '+' => ty := PlusSign;
        case '-' => ty := MinusSign;
        case '*' => ty := StarSign;
        case '/' => ty := Slash;
        case '=' => ty := EqualSign;
        case '!' =>
          var m := Match('=');
          if m { ty := NotEqualSign; }
        case '<' =>
          var m := Match('=');
          if m {
            ty := LessEqualSign;
          } else {
            var n := Match('>');
            ty := if n then NotEqualSign else LessSign;
          }
        case '>' =>
          var m := Match('=');
          ty := if m then GreaterEqualSign else GreaterSign;
        case '(' => ty := LeftParen;
        case ')' => ty := RightParen;
        case ',' => ty := Comma;
        case '.' => ty := Dot;
        case ';' => ty := Semicolon;
        case _ =>
      }
      token := Make(ty);
    }

    method ScanToken() returns (token: Token)
      requires Valid() && start == current
      modifies this`current, this`location
      ensures Valid() && (token.ty, current) == TokenAt(input, start) && token == MakeToken(input, start, current, token.ty)
    {
      if current >= |input| {
        token := Make(EndOfFile);
      } else if IsAlpha(CharAt(input, current)) {
        token := ScanIdentifierOrKeyword();
      } else if IsDigit(CharAt(input, current)) {
        token := ScanNumber();
      } else if CharAt(input, current) == '\'' {
        token := ScanString();
      } else {
        token := ScanOperatorOrPunctuation();
      }
    }

    method Tokenize() returns (r: Result<seq<Token>>)
      requires Valid()
      modifies this
      ensures var scanned := ScanFrom(input, old(current)); r == if scanned.complete then Ok(scanned.tokens) else Err(ParseError)
      ensures old(current) == 0 ==> r == TokenizeText(input)
    {
      hide LocationAt, TriviaEnd, TokenAt;
      var tokens: seq<Token> := [];
      ghost var first := current;
      assert tokens + ScanFrom(input, first).tokens == ScanFrom(input, first).tokens;
      while true
        invariant Valid()
        invariant ScanFrom(input, first) == Scanned(tokens + ScanFrom(input, current).tokens, ScanFrom(input, current).complete)
        decreases |input| - current
      {
        ghost var before := current;
        var ok := SkipTrivia();
        if !ok {
          return Err(ParseError);
        }
        start, startLocation := current, location;
        var token := ScanToken();
        ghost var rest := ScanFrom(input, current);
        assert token.ty != EndOfFile ==> ScanFrom(input, before) == Scanned([token] + rest.tokens, rest.complete);
        assert tokens + ([token] + rest.tokens) == (tokens + [token]) + rest.tokens;
        tokens := tokens + [token];
        if token.ty == EndOfFile {
          return Ok(tokens);
        }
      }
    }
  }
}
