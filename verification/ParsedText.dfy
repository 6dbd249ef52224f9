/**
  Source text in, source text out: every text that parses to a statement has, once printed, a
  text that parses to the same statement. What makes it so is that the names a parser returns
  come from identifier tokens, so they are spelled as words again.
 */
module ParsedText {
  import opened Common
  import opened Lexer
  import opened LexerTiling
  import opened Parser
  import opened Printer
  import opened StatementPrinter
  import opened SourceText
  import opened Engine

  ghost predicate IsName(name: Text) {
    IsWordOf(Lexeme(Identifier, name))
  }

  // The names among the tokens are words.
  ghost predicate NamesIn(ts: seq<Lexeme>) {
    forall t :: t in ts && t.ty == Identifier ==> IsName(t.text)
  }

  // ---------------------------------------------------------------- trees made of words

  ghost predicate ExprNames(e: Expr) {
    match e
    case ColumnRef(name) => NamesIn(PrintColumn(name))
    case UnaryExpr(_, x) => ExprNames(x)
    case BinaryExpr(l, _, r) => ExprNames(l) && ExprNames(r)
    case _ => true
  }

  ghost predicate ProjectionNames(p: SelectProjection) {
    ExprNames(p.expression) && (p.alias == [] || IsName(p.alias))
  }

  ghost predicate StatementNames(s: Statement) {
    match s
    case SelectStatement(projections, table, where) =>
      && (forall p :: p in projections ==> ProjectionNames(p))
      && (table == [] || IsName(table))
      && (where.Some? ==> ExprNames(where.value))
    case InsertStatement(table, values) => IsName(table) && forall e :: e in values ==> ExprNames(e)
    case CreateTableStatement(table, columns) => IsName(table) && forall c :: c in columns ==> IsName(c.name)
  }

  // ---------------------------------------------------------------- dotted names

  lemma {:induction false} FirstDotBefore(body: Text, more: Text)
    requires more != [] && more[0] == '.'
    ensures FirstDot(body + more) == FirstDot(body)
  {
    if body == [] {
      assert body + more == more;
    } else {
      assert (body + more)[1..] == body[1..] + more;
      FirstDotBefore(body[1..], more);
    }
  }

  lemma {:induction false} NoDotInside(part: Text)
    requires forall i :: 0 <= i < |part| ==> part[i] != '.'
    ensures FirstDot(part) == |part|
  {
    if part != [] {
      NoDotInside(part[1..]);
    }
  }

  lemma NamesHaveNoDot(name: Text)
    requires IsName(name)
    ensures FirstDot(name) == |name|
  {
    hide LookupKeyword, IsWordOf;
    NameIsWordExactly(name);
    NoDotInside(name);
  }

  lemma OneDottedPart(part: Text)
    requires FirstDot(part) == |part|
    ensures DottedTail("." + part) == [Fixed(Dot), Lexeme(Identifier, part)]
  {
    hide DottedTail, FirstDot, Spelling;
    var all := "." + part;
    DottedTailCons(all);
    DottedTailCons([]);
    assert all[1..] == part && part[|part|..] == [] && part[..|part|] == part;
  }

  lemma {:induction false} TailGrows(rest: Text, part: Text)
    requires (rest != [] ==> rest[0] == '.') && FirstDot(part) == |part|
    ensures DottedTail(rest + "." + part) == DottedTail(rest) + [Fixed(Dot), Lexeme(Identifier, part)]
    decreases |rest|
  {
    hide DottedTail, FirstDot, Spelling;
    if rest == [] {
      OneDottedPart(part);
      DottedTailCons([]);
      assert rest + "." + part == "." + part;
    } else {
      TailStep(rest, part);
      TailGrows(rest[1..][FirstDot(rest[1..])..], part);
    }
  }

  // The first part of a tail does not change when a part is added behind.
  lemma TailStep(rest: Text, part: Text)
    requires rest != [] && rest[0] == '.'
    ensures var body := rest[1..];
            var k := FirstDot(body);
            var first := [Fixed(Dot)] + [Lexeme(Identifier, body[..k])];
            && DottedTail(rest) == first + DottedTail(body[k..])
            && DottedTail(rest + "." + part) == first + DottedTail(body[k..] + "." + part)
  {
    hide DottedTail, FirstDot, Spelling;
    var more := "." + part;
    var body := rest[1..];
    var k := FirstDot(body);
    DottedTailCons(rest);
    DottedTailCons(rest + "." + part);
    FirstDotBefore(body, more);
    assert (rest + "." + part)[1..] == body + more;
    assert (body + more)[..k] == body[..k] && (body + more)[k..] == body[k..] + "." + part;
  }

  lemma DottedNameGrows(name: Text, part: Text)
    requires NamesIn(PrintColumn(name)) && IsName(part)
    ensures NamesIn(PrintColumn(name + "." + part))
  {
    hide IsName, DottedTail, FirstDot, Spelling;
    var k := FirstDot(name);
    var more := "." + part;
    NamesHaveNoDot(part);
    FirstDotBefore(name, more);
    assert name + "." + part == name + more;
    assert (name + more)[..k] == name[..k] && (name + more)[k..] == name[k..] + "." + part;
    TailGrows(name[k..], part);
    assert PrintColumn(name + "." + part) == PrintColumn(name) + [Fixed(Dot), Lexeme(Identifier, part)];
  }

  lemma SingleName(name: Text)
    requires IsName(name)
    ensures NamesIn(PrintColumn(name))
  {
    hide IsName, FirstDot;
    NamesHaveNoDot(name);
    assert name[|name|..] == [] && name[..|name|] == name;
    DottedTailCons([]);
    assert PrintColumn(name) == [Lexeme(Identifier, name)];
  }

  // ---------------------------------------------------------------- the parser keeps words

  lemma {:induction false} DottedNames(ts: seq<Lexeme>, name: Text, pos: nat)
    requires Terminated(ts) && pos < |ts| && NamesIn(ts) && NamesIn(PrintColumn(name)) && ParseDotted(ts, name, pos).Ok?
    ensures NamesIn(PrintColumn(ParseDotted(ts, name, pos).value.0))
    decreases |ts| - pos
  {
    hide IsName, PrintColumn;
    if ts[pos].ty == Dot {
      assert ts[pos + 1] in ts;
      DottedNameGrows(name, ts[pos + 1].text);
      DottedNames(ts, name + "." + ts[pos + 1].text, pos + 2);
    }
  }

  lemma {:induction false} PrimaryNames(ts: seq<Lexeme>, pos: nat)
    requires Terminated(ts) && pos < |ts| && NamesIn(ts) && ParsePrimary(ts, pos).Ok?
    ensures ExprNames(ParsePrimary(ts, pos).value.0)
    decreases |ts| - pos, 0
  {
    hide IsName, ParseDotted, PrintColumn;
    if ts[pos].ty == LeftParen {
      ParsedNames(ts, pos + 1, 0);
    } else if ts[pos].ty == Identifier {
      assert ts[pos] in ts;
      SingleName(ts[pos].text);
      DottedNames(ts, ts[pos].text, pos + 1);
    }
  }

  lemma {:induction false} PrefixNames(ts: seq<Lexeme>, pos: nat)
    requires Terminated(ts) && pos < |ts| && NamesIn(ts) && ParsePrefix(ts, pos).Ok?
    ensures ExprNames(ParsePrefix(ts, pos).value.0)
    decreases |ts| - pos, 1
  {
    hide ParsePrimary, NamesIn;
    if ts[pos].ty == MinusSign && ts[pos + 1] == Lexeme(IntegerToken, MIN_MAGNITUDE) {
    } else if ts[pos].ty == PlusSign || ts[pos].ty == MinusSign {
      PrefixNames(ts, pos + 1);
    } else {
      PrimaryNames(ts, pos);
    }
  }

  lemma {:induction false} OperatorNames(ts: seq<Lexeme>, left: Expr, pos: nat, min: nat)
    requires Terminated(ts) && pos < |ts| && NamesIn(ts) && ExprNames(left) && ParseOperators(ts, left, pos, min).Ok?
    ensures ExprNames(ParseOperators(ts, left, pos, min).value.0)
    decreases |ts| - pos, 0
  {
    hide ParseExpr, NamesIn;
    var precedence := BinaryPrecedence(ts[pos].ty);
    if precedence >= min {
      ParsedNames(ts, pos + 1, precedence + 1);
      var (right, next) := ParseExpr(ts, pos + 1, precedence + 1).value;
      OperatorNames(ts, BinaryExpr(left, TokenToBinaryOperator(ts[pos].ty), right), next, min);
    }
  }

  lemma {:induction false} ParsedNames(ts: seq<Lexeme>, pos: nat, min: nat)
    requires Terminated(ts) && pos < |ts| && NamesIn(ts) && ParseExpr(ts, pos, min).Ok?
    ensures ExprNames(ParseExpr(ts, pos, min).value.0)
    decreases |ts| - pos, 2
  {
    hide ParsePrefix, ParseOperators, NamesIn;
    if min <= NOT_PRECEDENCE && ts[pos].ty == NotKeyword {
      ParsedNames(ts, pos + 1, NOT_PRECEDENCE);
    } else {
      PrefixNames(ts, pos);
      var (left, next) := ParsePrefix(ts, pos).value;
      OperatorNames(ts, left, next, min);
    }
  }

  lemma {:induction false} ProjectionListNames(ts: seq<Lexeme>, done: seq<SelectProjection>, pos: nat)
    requires Terminated(ts) && pos < |ts| && NamesIn(ts) && ParseProjections(ts, done, pos).Ok?
    requires forall p :: p in done ==> ProjectionNames(p)
    ensures forall p :: p in ParseProjections(ts, done, pos).value.0 ==> ProjectionNames(p)
    decreases |ts| - pos
  {
    hide ExprNames, IsName, ParseExpr;
    ParsedNames(ts, pos, 0);
    var (p, next) := ParseProjection(ts, pos).value;
    var (e, after) := ParseExpr(ts, pos, 0).value;
    if ts[after].ty == As {
      assert ts[after + 1] in ts;
    }
    if ts[next].ty == Comma {
      ProjectionListNames(ts, done + [p], next + 1);
    }
  }

  lemma {:induction false} ListNames(ts: seq<Lexeme>, done: seq<Expr>, pos: nat)
    requires Terminated(ts) && pos < |ts| && NamesIn(ts) && ParseMoreExpressions(ts, done, pos).Ok?
    requires forall e :: e in done ==> ExprNames(e)
    ensures forall e :: e in ParseMoreExpressions(ts, done, pos).value.0 ==> ExprNames(e)
    decreases |ts| - pos
  {
    hide ExprNames, NamesIn, ParseExpr;
    if ts[pos].ty == Comma {
      ParsedNames(ts, pos + 1, 0);
      var (e, next) := ParseExpr(ts, pos + 1, 0).value;
      ListNames(ts, done + [e], next);
    }
  }

  lemma {:induction false} ColumnListNames(ts: seq<Lexeme>, done: seq<ColumnDefinition>, pos: nat)
    requires Terminated(ts) && pos < |ts| && NamesIn(ts) && ParseColumns(ts, done, pos).Ok?
    requires forall c :: c in done ==> IsName(c.name)
    ensures forall c :: c in ParseColumns(ts, done, pos).value.0 ==> IsName(c.name)
    decreases |ts| - pos
  {
    hide IsName, ParseTypeName;
    assert ts[pos] in ts;
    if ts[pos + 2].ty == Comma {
      ColumnListNames(ts, done + [ColumnDefinition(ts[pos].text, ParseTypeName(ts[pos + 1]).value)], pos + 3);
    }
  }

  // A statement parsed from words is made of words.
  lemma ParsedStatementNames(ts: seq<Lexeme>)
    requires Terminated(ts) && NamesIn(ts) && ParseStatement(ts).Ok?
    ensures StatementNames(ParseStatement(ts).value)
  {
    hide ExprNames, IsName, ParseExpr, ParseProjections, ParseColumns, ParseMoreExpressions, ProjectionNames;
    if ts[0].ty == Select {
      ProjectionListNames(ts, [], 1);
      var (_, afterList) := ParseProjections(ts, [], 1).value;
      var (_, afterFrom) := ParseFrom(ts, afterList).value;
      if ts[afterList].ty == From {
        assert ts[afterList + 1] in ts;
      }
      if ts[afterFrom].ty == Where {
        ParsedNames(ts, afterFrom + 1, 0);
      }
    } else if ts[0].ty == Insert {
      assert ts[2] in ts;
      ParsedNames(ts, 5, 0);
      var (e, next) := ParseExpr(ts, 5, 0).value;
      ListNames(ts, [e], next);
    } else {
      assert ts[2] in ts;
      ColumnListNames(ts, [], 4);
    }
  }

  // ---------------------------------------------------------------- the printer keeps words

  lemma {:induction false} BodyNames(e: Expr)
    requires ExprNames(e)
    ensures NamesIn(PrintBody(e))
    decreases e, 0
  {
    hide IsName, Spelling, PrintColumn, PrintOperand, PrintNotOperand;
    if e.UnaryExpr? {
      OperandNames(e.operand, PREFIX_LEVEL);
      NotOperandNames(e.operand);
    } else if e.BinaryExpr? {
      OperandNames(e.left, Precedence(e.bop));
      OperandNames(e.right, Precedence(e.bop) + 1);
      assert OperatorType(e.bop) != Identifier;
    }
  }

  lemma {:induction false} OperandNames(e: Expr, level: nat)
    requires ExprNames(e)
    ensures NamesIn(PrintOperand(e, level))
    decreases e, 1
  {
    hide IsName, ExprNames, Spelling, PrintBody;
    BodyNames(e);
  }

  lemma {:induction false} NotOperandNames(e: Expr)
    requires ExprNames(e)
    ensures NamesIn(PrintNotOperand(e))
    decreases e, 2
  {
    hide IsName, ExprNames, PrintBody, PrintOperand;
    BodyNames(e);
    OperandNames(e, NOT_PRECEDENCE);
  }

  lemma {:induction false} PrintedProjectionNames(ps: seq<SelectProjection>)
    requires forall p :: p in ps ==> ProjectionNames(p)
    ensures NamesIn(PrintProjections(ps))
  {
    hide IsName, ExprNames, Spelling, PrintBody;
    if ps != [] {
      assert ProjectionNames(ps[0]);
      BodyNames(ps[0].expression);
      PrintedProjectionNames(ps[1..]);
    }
  }

  lemma {:induction false} PrintedMoreNames(es: seq<Expr>)
    requires forall e :: e in es ==> ExprNames(e)
    ensures NamesIn(PrintMore(es))
  {
    hide IsName, ExprNames, Spelling, PrintBody;
    if es != [] {
      BodyNames(es[0]);
      PrintedMoreNames(es[1..]);
    }
  }

  lemma {:induction false} LookupMisses(table: seq<(Text, TokenType)>, key: Text)
    requires forall i :: 0 <= i < |table| ==> table[i].0 != key
    ensures LookupIn(table, key) == Identifier
  {
    if table != [] {
      LookupMisses(table[1..], key);
    }
  }

  // The type names are letters and no keywords.
  lemma LettersAreName(name: Text)
    requires name != [] && AllLetters(name) && forall i :: 0 <= i < |KEYWORDS| ==> KEYWORDS[i].0 != name
    ensures IsName(name)
  {
    hide IsWordOf, LookupIn;
    LookupMisses(KEYWORDS, name);
    LettersFold(name);
    NameIsWordExactly(name);
  }

  lemma TypeIsWord(ty: TypeName)
    ensures IsName(TypeLexeme(ty).text)
  {
    hide IsName, Code;
    var name := TypeLexeme(ty).text;
    KeywordCodes();
    TypeCode(ty);
    forall i | 0 <= i < |KEYWORDS| ensures KEYWORDS[i].0 != name {
      assert Code(KEYWORDS[i].0) == CODES[i];
      if name == "text" {
        assert KEYWORDS[17].0 == "true" && "true"[1] != "text"[1];
      }
    }
    LettersAreName(name);
  }

  lemma TypeCode(ty: TypeName)
    ensures var name := TypeLexeme(ty).text;
            && name != [] && AllLetters(name)
            && Code(name) == match ty { case IntType => 256 * 3 + 105 case TextType => 256 * 4 + 116 case BoolType => 256 * 4 + 98 }
  {
  }

  lemma {:induction false} PrintedColumnNames(cs: seq<ColumnDefinition>)
    requires forall c :: c in cs ==> IsName(c.name)
    ensures NamesIn(PrintColumns(cs))
  {
    hide IsName, Spelling, TypeLexeme;
    if cs != [] {
      assert IsName(cs[0].name);
      TypeIsWord(cs[0].ty);
      PrintedColumnNames(cs[1..]);
    }
  }

  lemma NamesInBoth(a: seq<Lexeme>, b: seq<Lexeme>)
    requires NamesIn(a) && NamesIn(b)
    ensures NamesIn(a + b)
  {
    hide IsName;
  }

  lemma PrintedStatementNames(s: Statement)
    requires Printable(s) && StatementNames(s)
    ensures NamesIn(PrintStatement(s))
  {
    hide IsName, NamesIn, ExprNames, Spelling, PrintBody, PrintProjections, PrintMore, PrintColumns, PrintFrom, PrintWhere,
         Producible, ProjectionNames;
    FixedIsNoName(Select);
    FixedIsNoName(RightParen);
    match s
    case SelectStatement(projections, table, where) =>
      FromHead(table);
      PrintedProjectionNames(projections);
      ConditionNames(where);
      NamesInBoth(PrintFrom(table), PrintWhere(where));
      NamesInBoth(PrintProjections(projections), PrintFrom(table) + PrintWhere(where));
      NamesInBoth([Fixed(Select)], PrintProjections(projections) + (PrintFrom(table) + PrintWhere(where)));
    case InsertStatement(table, values) =>
      InsertHead(table);
      BodyNames(values[0]);
      PrintedMoreNames(values[1..]);
      var body, more := PrintBody(values[0]), PrintMore(values[1..]);
      NamesInBoth(more, [Fixed(RightParen)]);
      NamesInBoth(body, more + [Fixed(RightParen)]);
      NamesInBoth([Fixed(Insert), Fixed(Into), Lexeme(Identifier, table), Fixed(Values), Fixed(LeftParen)], body + (more + [Fixed(RightParen)]));
    case CreateTableStatement(table, columns) =>
      CreateHead(table);
      PrintedColumnNames(columns);
      NamesInBoth(PrintColumns(columns), [Fixed(RightParen)]);
      NamesInBoth([Fixed(Create), Fixed(Table), Lexeme(Identifier, table), Fixed(LeftParen)], PrintColumns(columns) + [Fixed(RightParen)]);
  }

  lemma FixedIsNoName(ty: TokenType)
    requires ty != Identifier
    ensures NamesIn([Fixed(ty)])
  {
    hide IsName, Spelling;
  }

  // Two fixed tokens before a table's name, and others behind it.
  lemma NameAmongFixed(a: TokenType, b: TokenType, table: Text, c: seq<Lexeme>)
    requires a != Identifier && b != Identifier && IsName(table) && NamesIn(c)
    ensures NamesIn([Fixed(a), Fixed(b), Lexeme(Identifier, table)] + c)
  {
    hide IsName, NamesIn, Spelling;
    FixedIsNoName(a);
    FixedIsNoName(b);
    NameIsName(table);
    NamesInBoth([Fixed(b)], [Lexeme(Identifier, table)]);
    NamesInBoth([Fixed(a)], [Fixed(b)] + [Lexeme(Identifier, table)]);
    assert [Fixed(a)] + ([Fixed(b)] + [Lexeme(Identifier, table)]) == [Fixed(a), Fixed(b), Lexeme(Identifier, table)];
    NamesInBoth([Fixed(a), Fixed(b), Lexeme(Identifier, table)], c);
  }

  lemma NameIsName(name: Text)
    requires IsName(name)
    ensures NamesIn([Lexeme(Identifier, name)])
  {
    hide IsName;
  }

  lemma InsertHead(table: Text)
    requires IsName(table)
    ensures NamesIn([Fixed(Insert), Fixed(Into), Lexeme(Identifier, table), Fixed(Values), Fixed(LeftParen)])
  {
    hide IsName, NamesIn, Fixed;
    FixedIsNoName(Values);
    FixedIsNoName(LeftParen);
    NamesInBoth([Fixed(Values)], [Fixed(LeftParen)]);
    NameAmongFixed(Insert, Into, table, [Fixed(Values)] + [Fixed(LeftParen)]);
    assert [Fixed(Insert), Fixed(Into), Lexeme(Identifier, table)] + ([Fixed(Values)] + [Fixed(LeftParen)]) ==
           [Fixed(Insert), Fixed(Into), Lexeme(Identifier, table), Fixed(Values), Fixed(LeftParen)];
  }

  lemma CreateHead(table: Text)
    requires IsName(table)
    ensures NamesIn([Fixed(Create), Fixed(Table), Lexeme(Identifier, table), Fixed(LeftParen)])
  {
    hide IsName, NamesIn, Fixed;
    FixedIsNoName(LeftParen);
    NameAmongFixed(Create, Table, table, [Fixed(LeftParen)]);
    assert [Fixed(Create), Fixed(Table), Lexeme(Identifier, table)] + [Fixed(LeftParen)] ==
           [Fixed(Create), Fixed(Table), Lexeme(Identifier, table), Fixed(LeftParen)];
  }

  lemma FromHead(table: Text)
    requires table == [] || IsName(table)
    ensures NamesIn(PrintFrom(table))
  {
    hide IsName, NamesIn, Spelling;
    NoNames();
    if table != [] {
      FixedIsNoName(From);
      NameIsName(table);
      NamesInBoth([Fixed(From)], [Lexeme(Identifier, table)]);
      assert [Fixed(From)] + [Lexeme(Identifier, table)] == [Fixed(From), Lexeme(Identifier, table)];
    }
  }

  lemma NoNames()
    ensures NamesIn([])
  {
  }

  lemma ConditionNames(where: Option<Expr>)
    requires where.Some? ==> ExprNames(where.value)
    ensures NamesIn(PrintWhere(where))
  {
    hide IsName, ExprNames, PrintBody;
    if where.Some? {
      BodyNames(where.value);
    }
  }

  // ---------------------------------------------------------------- the lexer finds words

  lemma {:induction false} TiledNames(input: Text, pos: nat, tokens: seq<Token>)
    requires Tiles(input, pos, tokens)
    ensures NamesIn(Lexemes(tokens))
    decreases |tokens|
  {
    hide IsTrivia, RelexesAlone, LocationAt, CannotGrow;
    var t := tokens[0];
    LexemesOfCons(t, tokens[1..]);
    assert tokens == [t] + tokens[1..];
    if |tokens| > 1 {
      TiledNames(input, t.end.offset, tokens[1..]);
      if t.ty == Identifier {
        TokenIsWord(t);
      }
    } else {
      assert Lexemes([]) == [];
    }
  }

  lemma TokenIsWord(t: Token)
    requires RelexesAlone(t) && t.ty == Identifier && t.lexeme != []
    ensures IsName(t.lexeme)
  {
    hide TokenAt, AtToken, RelexesAlone;
    AloneIsOneToken(t);
  }

  // Whatever text a statement was parsed from, its printed text parses to the same statement.
  lemma ParsedTextParsesBack(sql: Text)
    requires ParseSql(sql).Ok?
    ensures var s := ParseSql(sql).value; Printable(s) && ParseSql(StatementText(s)) == Ok(s)
  {
    hide IsName, NamesIn, StatementNames, Tiles, ScanFrom, ParseStatement, PrintStatement, StatementText, Printable;
    var tokens := TokenizeText(sql).value;
    ScanEndsWithEof(sql, 0);
    TokensTileTheInput(sql, tokens);
    TiledNames(sql, 0, tokens);
    var s := ParseSql(sql).value;
    ParsedStatementsArePrintable(Lexemes(tokens));
    ParsedStatementNames(Lexemes(tokens));
    PrintedStatementNames(s);
    WordsThroughout(s);
    StatementTextParsesBack(s);
  }

  lemma WordsThroughout(s: Statement)
    requires Printable(s) && NamesIn(PrintStatement(s))
    ensures NamesAreWords(s)
  {
    hide IsWordOf, PrintStatement;
  }
}
