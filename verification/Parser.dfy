/**
  parser.cpp: recursive descent with precedence climbing over a token list. The functions give
  the parse at a position; the class moves a cursor and is proved to compute them.
 */
module Parser {
  import opened Common
  import opened Lexer
  import opened LexerTiling
  import opened Expressions

  datatype Expr =
    | IntegerLiteral(i: int64)
    | StringLiteral(s: Text)
    | BooleanLiteral(b: bool)
    | NullLiteral
    | ColumnRef(name: Text)
    | UnaryExpr(op: UnaryOperator, operand: Expr)
    | BinaryExpr(left: Expr, bop: BinaryOperator, right: Expr)
    | StarExpr

  // An empty alias, table name or where means the clause is absent.
  datatype SelectProjection = SelectProjection(expression: Expr, alias: Text)
  datatype TypeName = IntType | TextType | BoolType
  datatype ColumnDefinition = ColumnDefinition(name: Text, ty: TypeName)

  datatype Statement =
    | SelectStatement(projections: seq<SelectProjection>, tableName: Text, where: Option<Expr>)
    | InsertStatement(tableName: Text, values: seq<Expr>)
    | CreateTableStatement(tableName: Text, columns: seq<ColumnDefinition>)

  // A parsed thing and the position after it.
  type Parsed<T> = Result<(T, nat)>

  // The constructor guarantees a final EOF, so the cursor never runs off the list.
  predicate Terminated(ts: seq<Lexeme>) {
    ts != [] && ts[|ts| - 1].ty == EndOfFile
  }

  // ---------------------------------------------------------------- tables

  function BinaryPrecedence(ty: TokenType): int {
    match ty
    case OrKeyword => 1
    case AndKeyword => 2
    case EqualSign => 4
    case NotEqualSign => 4
    case LessSign => 4
    case LessEqualSign => 4
    case GreaterSign => 4
    case GreaterEqualSign => 4
    case PlusSign => 5
    case MinusSign => 5
    case StarSign => 6
    case Slash => 6
    case _ => -1
  }

  const NOT_PRECEDENCE: nat := 3

  function TokenToBinaryOperator(ty: TokenType): BinaryOperator
    requires BinaryPrecedence(ty) >= 0
  {
    match ty
    case OrKeyword => Or
    case AndKeyword => And
    case EqualSign => Equal
    case NotEqualSign => NotEqual
    case LessSign => Less
    case LessEqualSign => LessEqual
    case GreaterSign => Greater
    case GreaterEqualSign => GreaterEqual
    case PlusSign => Add
    case MinusSign => Subtract
    case StarSign => Multiply
    case Slash => Divide
  }

  // ---------------------------------------------------------------- literals

  predicate AllDigits(text: Text) {
    forall i :: 0 <= i < |text| ==> IsDigit(text[i])
  }

  function DigitsValue(text: Text): nat
    requires AllDigits(text)
  {
    if text == [] then 0
    else 10 * DigitsValue(text[..|text| - 1]) + (text[|text| - 1] as int - '0' as int)
  }

  // std::stoll on the digit run of an Integer token; None when it throws.
  function IntegerValue(text: Text): Option<int64> {
    if text == [] || !AllDigits(text) then None
    else if DigitsValue(text) > INT64_MAX then None
    else Some(DigitsValue(text))
  }

  // The spelling of the one magnitude that only a minus sign makes representable.
  const MIN_MAGNITUDE: Text := "9223372036854775808"

  // The body of a quoted lexeme from index i on, doubled quotes decoded.
  function UnescapeFrom(lexeme: Text, i: nat): Text
    decreases |lexeme| - i
  {
    if i + 1 >= |lexeme| then []
    else if lexeme[i] == '\'' && i + 2 < |lexeme| && lexeme[i + 1] == '\'' then ['\''] + UnescapeFrom(lexeme, i + 2)
    else [lexeme[i]] + UnescapeFrom(lexeme, i + 1)
  }

  // None for a malformed lexeme.
  function UnescapeSqlString(lexeme: Text): Option<Text> {
    if |lexeme| < 2 || lexeme[0] != '\'' || lexeme[|lexeme| - 1] != '\'' then None
    else Some(UnescapeFrom(lexeme, 1))
  }

  // ---------------------------------------------------------------- expressions

  function ParseDotted(ts: seq<Lexeme>, name: Text, pos: nat): (r: Parsed<Text>)
    requires Terminated(ts) && pos < |ts|
    ensures r.Ok? ==> pos <= r.value.1 < |ts|
    ensures r.Err? ==> r.error == ParseError
    decreases |ts| - pos
  {
    if ts[pos].ty != Dot then Ok((name, pos))
    else if ts[pos + 1].ty != Identifier then Err(ParseError)
    else ParseDotted(ts, name + "." + ts[pos + 1].text, pos + 2)
  }

  function ParsePrimary(ts: seq<Lexeme>, pos: nat): (r: Parsed<Expr>)
    requires Terminated(ts) && pos < |ts|
    ensures r.Ok? ==> pos < r.value.1 < |ts|
    ensures r.Err? ==> r.error == ParseError
    decreases |ts| - pos, 0
  {
    var t := ts[pos];
    match t.ty
    case IntegerToken =>
      var v := IntegerValue(t.text);
      if v.None? then Err(ParseError) else Ok((IntegerLiteral(v.value), pos + 1))
    case StringToken =>
      var s := UnescapeSqlString(t.text);
      if s.None? then Err(ParseError) else Ok((StringLiteral(s.value), pos + 1))
    case True => Ok((BooleanLiteral(true), pos + 1))
    case False => Ok((BooleanLiteral(false), pos + 1))
    case NullKeyword => Ok((NullLiteral, pos + 1))
    case StarSign => Ok((StarExpr, pos + 1))
    case Identifier =>
      var (name, next) :- ParseDotted(ts, t.text, pos + 1);
      Ok((ColumnRef(name), next))
    case LeftParen =>
      var (e, next) :- ParseExpr(ts, pos + 1, 0);
      if ts[next].ty != RightParen then Err(ParseError) else Ok((e, next + 1))
    case _ => Err(ParseError)
  }

  function ParsePrefix(ts: seq<Lexeme>, pos: nat): (r: Parsed<Expr>)
    requires Terminated(ts) && pos < |ts|
    ensures r.Ok? ==> pos < r.value.1 < |ts|
    ensures r.Err? ==> r.error == ParseError
    decreases |ts| - pos, 1
  {
    if ts[pos].ty == MinusSign && ts[pos + 1] == Lexeme(IntegerToken, MIN_MAGNITUDE) then
      Ok((IntegerLiteral(INT64_MIN), pos + 2))
    else if ts[pos].ty == PlusSign || ts[pos].ty == MinusSign then
      var (e, next) :- ParsePrefix(ts, pos + 1);
      Ok((UnaryExpr(if ts[pos].ty == PlusSign then Plus else Minus, e), next))
    else ParsePrimary(ts, pos)
  }

  // The operator loop of precedence climbing: extend left while operators bind tightly enough.
  function ParseOperators(ts: seq<Lexeme>, left: Expr, pos: nat, min: nat): (r: Parsed<Expr>)
    requires Terminated(ts) && pos < |ts|
    ensures r.Ok? ==> pos <= r.value.1 < |ts|
    ensures r.Err? ==> r.error == ParseError
    decreases |ts| - pos, 0
  {
    var precedence := BinaryPrecedence(ts[pos].ty);
    if precedence < min then Ok((left, pos))
    else
      var (right, next) :- ParseExpr(ts, pos + 1, precedence + 1);
      ParseOperators(ts, BinaryExpr(left, TokenToBinaryOperator(ts[pos].ty), right), next, min)
  }

  // A leading NOT returns without entering the operator loop.
  function ParseExpr(ts: seq<Lexeme>, pos: nat, min: nat): (r: Parsed<Expr>)
    requires Terminated(ts) && pos < |ts|
    ensures r.Ok? ==> pos < r.value.1 < |ts|
    ensures r.Err? ==> r.error == ParseError
    decreases |ts| - pos, 2
  {
    if min <= NOT_PRECEDENCE && ts[pos].ty == NotKeyword then
      var (e, next) :- ParseExpr(ts, pos + 1, NOT_PRECEDENCE);
      Ok((UnaryExpr(Not, e), next))
    else
      var (left, next) :- ParsePrefix(ts, pos);
      ParseOperators(ts, left, next, min)
  }

  // ---------------------------------------------------------------- statements

  // Comma-separated expressions after those already collected.
  function ParseMoreExpressions(ts: seq<Lexeme>, done: seq<Expr>, pos: nat): (r: Parsed<seq<Expr>>)
    requires Terminated(ts) && pos < |ts|
    ensures r.Ok? ==> pos <= r.value.1 < |ts|
    ensures r.Err? ==> r.error == ParseError
    decreases |ts| - pos
  {
    if ts[pos].ty != Comma then Ok((done, pos))
    else
      var (e, next) :- ParseExpr(ts, pos + 1, 0);
      ParseMoreExpressions(ts, done + [e], next)
  }

  function ParseExpressionList(ts: seq<Lexeme>, pos: nat): (r: Parsed<seq<Expr>>)
    requires Terminated(ts) && pos < |ts|
    ensures r.Ok? ==> pos < r.value.1 < |ts|
  {
    var (e, next) :- ParseExpr(ts, pos, 0);
    ParseMoreExpressions(ts, [e], next)
  }

  function ParseProjection(ts: seq<Lexeme>, pos: nat): (r: Parsed<SelectProjection>)
    requires Terminated(ts) && pos < |ts|
    ensures r.Ok? ==> pos < r.value.1 < |ts|
    ensures r.Err? ==> r.error == ParseError
  {
    var (e, next) :- ParseExpr(ts, pos, 0);
    if ts[next].ty != As then Ok((SelectProjection(e, []), next))
    else if ts[next + 1].ty != Identifier then Err(ParseError)
    else Ok((SelectProjection(e, ts[next + 1].text), next + 2))
  }

  function ParseProjections(ts: seq<Lexeme>, done: seq<SelectProjection>, pos: nat): (r: Parsed<seq<SelectProjection>>)
    requires Terminated(ts) && pos < |ts|
    ensures r.Ok? ==> pos < r.value.1 < |ts|
    ensures r.Err? ==> r.error == ParseError
    decreases |ts| - pos
  {
    var (p, next) :- ParseProjection(ts, pos);
    if ts[next].ty == Comma then ParseProjections(ts, done + [p], next + 1) else Ok((done + [p], next))
  }

  function ParseFrom(ts: seq<Lexeme>, pos: nat): (r: Parsed<Text>)
    requires Terminated(ts) && pos < |ts|
    ensures r.Ok? ==> pos <= r.value.1 < |ts|
    ensures r.Err? ==> r.error == ParseError
  {
    if ts[pos].ty != From then Ok(([], pos))
    else if ts[pos + 1].ty != Identifier then Err(ParseError)
    else Ok((ts[pos + 1].text, pos + 2))
  }

  function ParseWhere(ts: seq<Lexeme>, pos: nat): (r: Parsed<Option<Expr>>)
    requires Terminated(ts) && pos < |ts|
    ensures r.Ok? ==> pos <= r.value.1 < |ts|
    ensures r.Err? ==> r.error == ParseError
  {
    if ts[pos].ty != Where then Ok((None, pos))
    else
      var (e, next) :- ParseExpr(ts, pos + 1, 0);
      Ok((Some(e), next))
  }

  function ParseSelect(ts: seq<Lexeme>, pos: nat): (r: Parsed<Statement>)
    requires Terminated(ts) && pos < |ts|
    ensures r.Ok? ==> pos < r.value.1 < |ts|
  {
    var (projections, afterList) :- ParseProjections(ts, [], pos);
    var (table, afterFrom) :- ParseFrom(ts, afterList);
    var (where, next) :- ParseWhere(ts, afterFrom);
    Ok((SelectStatement(projections, table, where), next))
  }

  // Consume: the position after a token of the required type.
  function Take(ts: seq<Lexeme>, pos: nat, ty: TokenType): (r: Result<nat>)
    requires Terminated(ts) && pos < |ts| && ty != EndOfFile
    ensures r.Ok? ==> r.value == pos + 1 < |ts|
    ensures r.Err? ==> r.error == ParseError
  {
    if ts[pos].ty == ty then Ok(pos + 1) else Err(ParseError)
  }

  function ParseInsert(ts: seq<Lexeme>, pos: nat): (r: Parsed<Statement>)
    requires Terminated(ts) && pos < |ts|
    ensures r.Ok? ==> pos < r.value.1 < |ts|
  {
    var name :- Take(ts, pos, Into);
    var keyword :- Take(ts, name, Identifier);
    var open :- Take(ts, keyword, Values);
    var list :- Take(ts, open, LeftParen);
    var (values, close) :- ParseExpressionList(ts, list);
    var next :- Take(ts, close, RightParen);
    Ok((InsertStatement(ts[name].text, values), next))
  }

  function ParseTypeName(t: Lexeme): Option<TypeName> {
    if t.ty != Identifier then None
    else
      var name := FoldIdentifierKey(t.text);
      if name == "int" || name == "integer" then Some(IntType)
      else if name == "text" then Some(TextType)
      else if name == "bool" || name == "boolean" then Some(BoolType)
      else None
  }

  function ParseColumns(ts: seq<Lexeme>, done: seq<ColumnDefinition>, pos: nat): (r: Parsed<seq<ColumnDefinition>>)
    requires Terminated(ts) && pos < |ts|
    ensures r.Ok? ==> pos < r.value.1 < |ts|
    ensures r.Err? ==> r.error == ParseError
    decreases |ts| - pos
  {
    if ts[pos].ty != Identifier then Err(ParseError)
    else
      var ty := ParseTypeName(ts[pos + 1]);
      if ty.None? then Err(ParseError)
      else
        var columns := done + [ColumnDefinition(ts[pos].text, ty.value)];
        if ts[pos + 2].ty == Comma then ParseColumns(ts, columns, pos + 3) else Ok((columns, pos + 2))
  }

  function ParseCreateTable(ts: seq<Lexeme>, pos: nat): (r: Parsed<Statement>)
    requires Terminated(ts) && pos < |ts|
    ensures r.Ok? ==> pos < r.value.1 < |ts|
  {
    var name :- Take(ts, pos, Table);
    var open :- Take(ts, name, Identifier);
    var list :- Take(ts, open, LeftParen);
    var (columns, close) :- ParseColumns(ts, [], list);
    var next :- Take(ts, close, RightParen);
    Ok((CreateTableStatement(ts[name].text, columns), next))
  }

  function ParseByKeyword(ts: seq<Lexeme>): (r: Parsed<Statement>)
    requires Terminated(ts)
    ensures r.Ok? ==> 0 < r.value.1 < |ts|
  {
    match ts[0].ty
    case Select => ParseSelect(ts, 1)
    case Insert => ParseInsert(ts, 1)
    case Create => ParseCreateTable(ts, 1)
    case _ => Err(ParseError)
  }

  // One statement, an optional semicolon, and nothing else.
  function ParseStatement(ts: seq<Lexeme>): Result<Statement>
    requires Terminated(ts)
  {
    var (statement, next) :- ParseByKeyword(ts);
    var last := if ts[next].ty == Semicolon then next + 1 else next;
    if ts[last].ty == EndOfFile then Ok(statement) else Err(ParseError)
  }

  // ---------------------------------------------------------------- the code

  class TokenParser {
    const tokens: seq<Token>
    var current: nat

    ghost predicate Valid()
      reads this
    {
      Terminated(Lexemes(tokens)) && current < |tokens|
    }

    // Appends the EOF sentinel when the stream lacks one.
    constructor (given: seq<Token>)
      ensures Valid() && current == 0
      ensures tokens == given ||
              (|tokens| == |given| + 1 && tokens[..|given|] == given && tokens[|given|].ty == EndOfFile && tokens[|given|].lexeme == [])
      ensures Terminated(Lexemes(given)) ==> tokens == given
    {
      var list := given;
      if given == [] {
        list := [Token(EndOfFile, [], Location(1, 1, 0), Location(1, 1, 0))];
      } else if given[|given| - 1].ty != EndOfFile {
        var at := given[|given| - 1].end;
        list := given + [Token(EndOfFile, [], at, at)];
      }
      tokens := list;
      current := 0;
    }

    // The outcome of a parsing method: the given parse, with the cursor moved past it.
    ghost predicate Follows<T(!new)>(r: Result<T>, spec: Parsed<T>)
      reads this
    {
      if spec.Ok? then r == Ok(spec.value.0) && current == spec.value.1 else r == Err(spec.error)
    }

    function Peek(): Lexeme
      requires current < |tokens|
      reads this
    {
      Lexeme(tokens[current].ty, tokens[current].lexeme)
    }

    method Match(ty: TokenType) returns (matched: bool)
      requires Valid() && ty != EndOfFile
      modifies this
      ensures Valid() && matched == (tokens[old(current)].ty == ty)
      ensures current == if matched then old(current) + 1 else old(current)
    {
      if tokens[current].ty != ty {
        return false;
      }
      assert Lexemes(tokens)[|tokens| - 1].ty == EndOfFile;
      current := current + 1;
      return true;
    }

    method ParseDottedName(first: Text) returns (r: Result<Text>)
      requires Valid()
      modifies this
      ensures Valid() && current >= old(current) && Follows(r, ParseDotted(Lexemes(tokens), first, old(current)))
    {
      ghost var ts := Lexemes(tokens);
      var name: Text := first;
      while tokens[current].ty == Dot
        invariant Valid() && current >= old(current)
        invariant ParseDotted(ts, name, current) == ParseDotted(ts, first, old(current))
        decreases |tokens| - current
      {
        var dot := Match(Dot);
        if tokens[current].ty != Identifier { return Err(ParseError); }
        name := name + "." + tokens[current].lexeme;
        var part := Match(Identifier);
      }
      return Ok(name);
    }

    method ParsePrimaryExpression() returns (r: Result<Expr>)
      requires Valid()
      modifies this
      ensures Valid() && Follows(r, ParsePrimary(Lexemes(tokens), old(current)))
      decreases |tokens| - current, 0
    {
      hide IntegerValue, UnescapeSqlString, ParseExpr, ParseDotted;
      ghost var ts := Lexemes(tokens);
      var t := Peek();
      if t.ty == EndOfFile { return Err(ParseError); }
      var taken := Match(t.ty);
      match t.ty {
        case IntegerToken =>
          var v := IntegerValue(t.text);
          if v.None? { return Err(ParseError); }
          return Ok(IntegerLiteral(v.value));
        case StringToken =>
          var s := UnescapeSqlString(t.text);
          if s.None? { return Err(ParseError); }
          return Ok(StringLiteral(s.value));
        case True => return Ok(BooleanLiteral(true));
        case False => return Ok(BooleanLiteral(false));
        case NullKeyword => return Ok(NullLiteral);
        case StarSign => return Ok(StarExpr);
        case Identifier =>
          var name := ParseDottedName(t.text);
          if name.Err? { return Err(name.error); }
          return Ok(ColumnRef(name.value));
        case LeftParen =>
          var e := ParseExpression(0);
          if e.Err? { return e; }
          var closed := Match(RightParen);
          if !closed { return Err(ParseError); }
          return e;
        case _ =>
          return Err(ParseError);
      }
    }

    method ParsePrefixExpression() returns (r: Result<Expr>)
      requires Valid()
      modifies this
      ensures Valid() && Follows(r, ParsePrefix(Lexemes(tokens), old(current)))
      decreases |tokens| - current, 1
    {
      hide ParsePrimary;
      ghost var ts := Lexemes(tokens);
      var sign := tokens[current].ty;
      if sign != PlusSign && sign != MinusSign {
        r := ParsePrimaryExpression();
        return;
      }
      var taken := Match(sign);
      if sign == MinusSign && tokens[current].ty == IntegerToken && tokens[current].lexeme == MIN_MAGNITUDE {
        var magnitude := Match(IntegerToken);
        return Ok(IntegerLiteral(INT64_MIN));
      }
      var operand := ParsePrefixExpression();
      if operand.Err? { return operand; }
      return Ok(UnaryExpr(if sign == PlusSign then Plus else Minus, operand.value));
    }

    method ParseExpression(min: nat) returns (r: Result<Expr>)
      requires Valid()
      modifies this
      ensures Valid() && Follows(r, ParseExpr(Lexemes(tokens), old(current), min))
      decreases |tokens| - current, 2
    {
      hide ParsePrefix, TokenToBinaryOperator, BinaryPrecedence;
      ghost var ts := Lexemes(tokens);
      if min <= NOT_PRECEDENCE && tokens[current].ty == NotKeyword {
        var taken := Match(NotKeyword);
        var operand := ParseExpression(NOT_PRECEDENCE);
        if operand.Err? { return operand; }
        return Ok(UnaryExpr(Not, operand.value));
      }

      var first := ParsePrefixExpression();
      if first.Err? { return first; }
      var left := first.value;
      while true
        invariant Valid() && current > old(current)
        invariant ParseExpr(ts, old(current), min) == ParseOperators(ts, left, current, min)
        decreases |tokens| - current
      {
        var operator := tokens[current].ty;
        var precedence := BinaryPrecedence(operator);
        if precedence < min {
          return Ok(left);
        }
        OperatorsAreNotEof(operator);
        var taken := Match(operator);
        var right := ParseExpression(precedence + 1);
        if right.Err? { return right; }
        left := BinaryExpr(left, TokenToBinaryOperator(operator), right.value);
      }
    }

    method ParseList() returns (r: Result<seq<Expr>>)
      requires Valid()
      modifies this
      ensures Valid() && Follows(r, ParseExpressionList(Lexemes(tokens), old(current)))
    {
      hide ParseExpr;
      ghost var ts := Lexemes(tokens);
      var first := ParseExpression(0);
      if first.Err? { return Err(first.error); }
      var expressions := [first.value];
      var comma := Match(Comma);
      while comma
        invariant Valid() && (comma ==> ts[current - 1].ty == Comma && current > 0)
        invariant ParseExpressionList(ts, old(current)) ==
                  ParseMoreExpressions(ts, expressions, if comma then current - 1 else current)
        invariant !comma ==> ts[current].ty != Comma
        decreases |tokens| - current, comma
      {
        var e := ParseExpression(0);
        if e.Err? { return Err(e.error); }
        expressions := expressions + [e.value];
        comma := Match(Comma);
      }
      return Ok(expressions);
    }

    method ParseOneProjection() returns (r: Result<SelectProjection>)
      requires Valid()
      modifies this
      ensures Valid() && Follows(r, ParseProjection(Lexemes(tokens), old(current)))
    {
      hide ParseExpr;
      var e := ParseExpression(0);
      if e.Err? { return Err(e.error); }
      var alias := Match(As);
      if !alias { return Ok(SelectProjection(e.value, [])); }
      if tokens[current].ty != Identifier { return Err(ParseError); }
      var name := tokens[current].lexeme;
      var taken := Match(Identifier);
      return Ok(SelectProjection(e.value, name));
    }

    method ParseProjectionList() returns (r: Result<seq<SelectProjection>>)
      requires Valid()
      modifies this
      ensures Valid() && Follows(r, ParseProjections(Lexemes(tokens), [], old(current)))
    {
      hide ParseProjection;
      ghost var ts := Lexemes(tokens);
      var projections: seq<SelectProjection> := [];
      while true
        invariant Valid()
        invariant ParseProjections(ts, [], old(current)) == ParseProjections(ts, projections, current)
        decreases |tokens| - current
      {
        var p := ParseOneProjection();
        if p.Err? { return Err(p.error); }
        projections := projections + [p.value];
        var comma := Match(Comma);
        if !comma {
          return Ok(projections);
        }
      }
    }

    method ParseSelectStatement() returns (r: Result<Statement>)
      requires Valid()
      modifies this
      ensures Valid() && Follows(r, ParseSelect(Lexemes(tokens), old(current)))
    {
      hide ParseProjections, ParseExpr;
      var projections := ParseProjectionList();
      if projections.Err? { return Err(projections.error); }
      var table: Text := [];
      var from := Match(From);
      if from {
        if tokens[current].ty != Identifier { return Err(ParseError); }
        table := tokens[current].lexeme;
        var taken := Match(Identifier);
      }
      var condition: Option<Expr> := None;
      var where := Match(Where);
      if where {
        var e := ParseExpression(0);
        if e.Err? { return Err(e.error); }
        condition := Some(e.value);
      }
      return Ok(SelectStatement(projections.value, table, condition));
    }

    method ParseInsertStatement() returns (r: Result<Statement>)
      requires Valid()
      modifies this
      ensures Valid() && Follows(r, ParseInsert(Lexemes(tokens), old(current)))
    {
      hide ParseExpressionList;
      var into := Match(Into);
      if !into { return Err(ParseError); }
      var table := tokens[current].lexeme;
      var name := Match(Identifier);
      if !name { return Err(ParseError); }
      var keyword := Match(Values);
      if !keyword { return Err(ParseError); }
      var open := Match(LeftParen);
      if !open { return Err(ParseError); }
      var values := ParseList();
      if values.Err? { return Err(values.error); }
      var close := Match(RightParen);
      if !close { return Err(ParseError); }
      return Ok(InsertStatement(table, values.value));
    }

    method ParseColumnList() returns (r: Result<seq<ColumnDefinition>>)
      requires Valid()
      modifies this
      ensures Valid() && Follows(r, ParseColumns(Lexemes(tokens), [], old(current)))
    {
      hide ParseTypeName;
      ghost var ts := Lexemes(tokens);
      var columns: seq<ColumnDefinition> := [];
      while true
        invariant Valid()
        invariant ParseColumns(ts, [], old(current)) == ParseColumns(ts, columns, current)
        decreases |tokens| - current
      {
        if tokens[current].ty != Identifier { return Err(ParseError); }
        var name := tokens[current].lexeme;
        var taken := Match(Identifier);
        var ty := ParseTypeName(Peek());
        if ty.None? { return Err(ParseError); }
        TypeNamesAreIdentifiers(Peek());
        var typeTaken := Match(Identifier);
        columns := columns + [ColumnDefinition(name, ty.value)];
        var comma := Match(Comma);
        if !comma {
          return Ok(columns);
        }
      }
    }

    method ParseCreateTableStatement() returns (r: Result<Statement>)
      requires Valid()
      modifies this
      ensures Valid() && Follows(r, ParseCreateTable(Lexemes(tokens), old(current)))
    {
      hide ParseColumns;
      var keyword := Match(Table);
      if !keyword { return Err(ParseError); }
      var table := tokens[current].lexeme;
      var name := Match(Identifier);
      if !name { return Err(ParseError); }
      var open := Match(LeftParen);
      if !open { return Err(ParseError); }
      var columns := ParseColumnList();
      if columns.Err? { return Err(columns.error); }
      var close := Match(RightParen);
      if !close { return Err(ParseError); }
      return Ok(CreateTableStatement(table, columns.value));
    }

    method ParseLeadingKeyword() returns (r: Result<Statement>)
      requires Valid() && current == 0
      modifies this
      ensures Valid() && Follows(r, ParseByKeyword(Lexemes(tokens)))
    {
      hide ParseSelect, ParseInsert, ParseCreateTable;
      var first := tokens[0].ty;
      if first == Select {
        var taken := Match(Select);
        r := ParseSelectStatement();
      } else if first == Insert {
        var taken := Match(Insert);
        r := ParseInsertStatement();
      } else if first == Create {
        var taken := Match(Create);
        r := ParseCreateTableStatement();
      } else {
        return Err(ParseError);
      }
    }

    method Parse() returns (r: Result<Statement>)
      requires Valid() && current == 0
      modifies this
      ensures r == ParseStatement(Lexemes(tokens))
    {
      hide ParseByKeyword;
      r := ParseLeadingKeyword();
      if r.Err? { return; }
      var semicolon := Match(Semicolon);
      if tokens[current].ty != EndOfFile { return Err(ParseError); }
    }
  }

  lemma OperatorsAreNotEof(ty: TokenType)
    requires BinaryPrecedence(ty) >= 0
    ensures ty != EndOfFile
  {
  }

  lemma TypeNamesAreIdentifiers(t: Lexeme)
    requires ParseTypeName(t).Some?
    ensures t.ty == Identifier
  {
  }
}
