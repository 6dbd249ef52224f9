/**
  The printer extended to whole statements, and the same inverse on their tokens: a printed
  statement, with or without a semicolon, parses back to itself.
 */
module StatementPrinter {
  import opened Common
  import opened Lexer
  import opened LexerTiling
  import opened Parser
  import opened Printer

  // ---------------------------------------------------------------- tokens of a statement

  function PrintProjection(p: SelectProjection): seq<Lexeme> {
    PrintBody(p.expression) + (if p.alias == [] then [] else [Fixed(As), Lexeme(Identifier, p.alias)])
  }

  function PrintProjections(ps: seq<SelectProjection>): seq<Lexeme> {
    if ps == [] then []
    else if |ps| == 1 then PrintProjection(ps[0])
    else PrintProjection(ps[0]) + ([Fixed(Comma)] + PrintProjections(ps[1..]))
  }

  function PrintFrom(table: Text): seq<Lexeme> {
    if table == [] then [] else [Fixed(From), Lexeme(Identifier, table)]
  }

  function PrintWhere(where: Option<Expr>): seq<Lexeme> {
    if where.None? then [] else [Fixed(Where)] + PrintBody(where.value)
  }

  // Each expression behind a comma.
  function PrintMore(es: seq<Expr>): seq<Lexeme> {
    if es == [] then [] else [Fixed(Comma)] + (PrintBody(es[0]) + PrintMore(es[1..]))
  }

  function TypeLexeme(ty: TypeName): (t: Lexeme)
    ensures ParseTypeName(t) == Some(ty)
  {
    var text: Text := match ty { case IntType => "int" case TextType => "text" case BoolType => "bool" };
    assert FoldIdentifierKey(text) == text;
    Lexeme(Identifier, text)
  }

  function PrintColumns(cs: seq<ColumnDefinition>): seq<Lexeme> {
    if cs == [] then []
    else
      [Lexeme(Identifier, cs[0].name)] +
      ([TypeLexeme(cs[0].ty)] + if |cs| == 1 then [] else [Fixed(Comma)] + PrintColumns(cs[1..]))
  }

  function PrintStatement(s: Statement): seq<Lexeme>
    requires Printable(s)
  {
    match s
    case SelectStatement(projections, table, where) =>
      [Fixed(Select)] + (PrintProjections(projections) + (PrintFrom(table) + PrintWhere(where)))
    case InsertStatement(table, values) =>
      [Fixed(Insert), Fixed(Into), Lexeme(Identifier, table), Fixed(Values), Fixed(LeftParen)] +
      (PrintBody(values[0]) + (PrintMore(values[1..]) + [Fixed(RightParen)]))
    case CreateTableStatement(table, columns) =>
      [Fixed(Create), Fixed(Table), Lexeme(Identifier, table), Fixed(LeftParen)] +
      (PrintColumns(columns) + [Fixed(RightParen)])
  }

  // What the grammar can produce: non-empty lists of producible expressions.
  predicate Printable(s: Statement) {
    match s
    case SelectStatement(projections, _, where) =>
      && projections != []
      && (forall p :: p in projections ==> Producible(p.expression))
      && (where.Some? ==> Producible(where.value))
    case InsertStatement(_, values) => values != [] && forall e :: e in values ==> Producible(e)
    case CreateTableStatement(_, columns) => columns != []
  }

  // ---------------------------------------------------------------- parsing inverts printing

  // A token that ends an expression and continues neither a list nor an alias.
  predicate EndsList(t: Lexeme) {
    EndsExpression(t) && t.ty != Comma && t.ty != As
  }

  lemma ProjectionParses(ts: seq<Lexeme>, pos: nat, p: SelectProjection)
    requires Terminated(ts) && Producible(p.expression) && Here(ts, pos, PrintProjection(p))
    requires var end := ts[pos + |PrintProjection(p)|]; EndsExpression(end) && end.ty != As
    ensures ParseProjection(ts, pos) == Ok((p, pos + |PrintProjection(p)|))
  {
    hide ParseExpr, PrintBody, Here;
    var body := PrintBody(p.expression);
    HereBound(ts, pos, PrintProjection(p));
    if p.alias == [] {
      assert PrintProjection(p) == body + [] == body;
      BodyParses(ts, pos, p.expression);
    } else {
      var name := Lexeme(Identifier, p.alias);
      assert [Fixed(As), name] == [Fixed(As)] + [name];
      HereAppend(ts, pos, body, [Fixed(As)] + [name]);
      HereCons(ts, pos + |body|, Fixed(As), [name]);
      HereCons(ts, pos + |body| + 1, name, []);
      BodyParses(ts, pos, p.expression);
    }
  }

  lemma ProjectionsTake(ts: seq<Lexeme>, pos: nat, done: seq<SelectProjection>, p: SelectProjection, next: nat)
    requires Terminated(ts) && pos < next < |ts| && ParseProjection(ts, pos) == Ok((p, next))
    ensures ParseProjections(ts, done, pos) ==
            if ts[next].ty == Comma then ParseProjections(ts, done + [p], next + 1) else Ok((done + [p], next))
  {
    hide ParseProjection;
  }

  lemma {:induction false} ProjectionsParse(ts: seq<Lexeme>, pos: nat, done: seq<SelectProjection>, ps: seq<SelectProjection>)
    requires Terminated(ts) && ps != [] && (forall p :: p in ps ==> Producible(p.expression))
    requires Here(ts, pos, PrintProjections(ps)) && EndsList(ts[pos + |PrintProjections(ps)|])
    ensures ParseProjections(ts, done, pos) == Ok((done + ps, pos + |PrintProjections(ps)|))
    decreases |ps|
  {
    hide ParseProjection, ParseProjections, PrintProjection, PrintProjections, Here, BinaryPrecedence, Spelling,
         EndsExpression, EndsList, Producible;
    HereBound(ts, pos, PrintProjections(ps));
    ProjectionsPrint(ps);
    var first := PrintProjection(ps[0]);
    var next := pos + |first|;
    assert ps[0] in ps;
    if |ps| == 1 {
      ListEnds(ts[next]);
      ProjectionParses(ts, pos, ps[0]);
      ProjectionsTake(ts, pos, done, ps[0], next);
      assert ps == [ps[0]];
    } else {
      var tail := ps[1..];
      var rest := PrintProjections(tail);
      HereAppend(ts, pos, first, [Fixed(Comma)] + rest);
      HereCons(ts, next, Fixed(Comma), rest);
      CommaEnds(ts[next]);
      ProjectionParses(ts, pos, ps[0]);
      ProjectionsTake(ts, pos, done, ps[0], next);
      forall p | p in tail ensures Producible(p.expression) {
        assert p in ps;
      }
      ProjectionsParse(ts, next + 1, done + [ps[0]], tail);
      ListGrows(done, ps);
    }
  }

  lemma ListGrows<T>(done: seq<T>, list: seq<T>)
    requires list != []
    ensures done + [list[0]] + list[1..] == done + list
  {
    assert list == [list[0]] + list[1..];
  }

  lemma ListEnds(t: Lexeme)
    requires EndsList(t)
    ensures EndsExpression(t) && t.ty != Comma && t.ty != As
  {
  }

  lemma ProjectionsPrint(ps: seq<SelectProjection>)
    requires ps != []
    ensures PrintProjections(ps) ==
            if |ps| == 1 then PrintProjection(ps[0]) else PrintProjection(ps[0]) + ([Fixed(Comma)] + PrintProjections(ps[1..]))
  {
    hide PrintProjection;
  }

  lemma CommaEnds(t: Lexeme)
    requires t == Fixed(Comma)
    ensures EndsExpression(t) && t.ty == Comma
  {
  }

  lemma MoreTake(ts: seq<Lexeme>, pos: nat, done: seq<Expr>, e: Expr, next: nat)
    requires Terminated(ts) && pos + 1 < next < |ts| && ts[pos].ty == Comma && ParseExpr(ts, pos + 1, 0) == Ok((e, next))
    ensures ParseMoreExpressions(ts, done, pos) == ParseMoreExpressions(ts, done + [e], next)
  {
    hide ParseExpr;
  }

  lemma MorePrints(es: seq<Expr>)
    requires es != []
    ensures PrintMore(es) == [Fixed(Comma)] + (PrintBody(es[0]) + PrintMore(es[1..]))
  {
    hide PrintBody;
  }

  // A comma or what comes after the list.
  lemma MoreStarts(ts: seq<Lexeme>, pos: nat, es: seq<Expr>)
    requires Here(ts, pos, PrintMore(es)) && EndsExpression(ts[pos + |PrintMore(es)|])
    ensures EndsExpression(ts[pos])
  {
    hide PrintBody, Spelling;
    if es != [] {
      HereCons(ts, pos, Fixed(Comma), PrintBody(es[0]) + PrintMore(es[1..]));
      CommaEnds(ts[pos]);
    }
  }

  lemma {:induction false} MoreParses(ts: seq<Lexeme>, pos: nat, done: seq<Expr>, es: seq<Expr>)
    requires Terminated(ts) && (forall e :: e in es ==> Producible(e))
    requires Here(ts, pos, PrintMore(es)) && EndsList(ts[pos + |PrintMore(es)|])
    ensures ParseMoreExpressions(ts, done, pos) == Ok((done + es, pos + |PrintMore(es)|))
    decreases |es|
  {
    hide ParseExpr, PrintBody, Here, PrintMore, Spelling, BinaryPrecedence, EndsExpression;
    HereBound(ts, pos, PrintMore(es));
    if es == [] {
      assert done + es == done;
      assert PrintMore(es) == [] by { NoMore(); }
    } else {
      hide ParseMoreExpressions;
      MorePrints(es);
      var tail := es[1..];
      var first, rest := PrintBody(es[0]), PrintMore(tail);
      HereCons(ts, pos, Fixed(Comma), first + rest);
      HereAppend(ts, pos + 1, first, rest);
      HereBound(ts, pos + 1 + |first|, rest);
      MoreStarts(ts, pos + 1 + |first|, tail);
      BodyParses(ts, pos + 1, es[0]);
      MoreTake(ts, pos, done, es[0], pos + 1 + |first|);
      MoreParses(ts, pos + 1 + |first|, done + [es[0]], tail);
      ListGrows(done, es);
    }
  }

  lemma NoMore()
    ensures PrintMore([]) == []
  {
  }

  lemma ColumnsPrint(cs: seq<ColumnDefinition>)
    requires cs != []
    ensures PrintColumns(cs) ==
            [Lexeme(Identifier, cs[0].name)] + ([TypeLexeme(cs[0].ty)] + if |cs| == 1 then [] else [Fixed(Comma)] + PrintColumns(cs[1..]))
  {
    hide TypeLexeme;
  }

  lemma ColumnsTake(ts: seq<Lexeme>, pos: nat, done: seq<ColumnDefinition>, c: ColumnDefinition)
    requires Terminated(ts) && pos + 2 < |ts| && ts[pos] == Lexeme(Identifier, c.name) && ParseTypeName(ts[pos + 1]) == Some(c.ty)
    ensures ParseColumns(ts, done, pos) ==
            if ts[pos + 2].ty == Comma then ParseColumns(ts, done + [c], pos + 3) else Ok((done + [c], pos + 2))
  {
    hide ParseTypeName;
  }

  lemma {:induction false} ColumnsParse(ts: seq<Lexeme>, pos: nat, done: seq<ColumnDefinition>, cs: seq<ColumnDefinition>)
    requires Terminated(ts) && cs != []
    requires Here(ts, pos, PrintColumns(cs)) && ts[pos + |PrintColumns(cs)|].ty != Comma
    ensures ParseColumns(ts, done, pos) == Ok((done + cs, pos + |PrintColumns(cs)|))
    decreases |cs|
  {
    hide ParseTypeName, TypeLexeme, Here, ParseColumns, PrintColumns;
    HereBound(ts, pos, PrintColumns(cs));
    var ty, tail := TypeLexeme(cs[0].ty), cs[1..];
    var rest := if |cs| == 1 then [] else [Fixed(Comma)] + PrintColumns(tail);
    ColumnsPrint(cs);
    HereCons(ts, pos, Lexeme(Identifier, cs[0].name), [ty] + rest);
    HereCons(ts, pos + 1, ty, rest);
    ColumnsTake(ts, pos, done, cs[0]);
    if |cs| == 1 {
      assert cs == [cs[0]];
    } else {
      HereCons(ts, pos + 2, Fixed(Comma), PrintColumns(tail));
      ColumnsParse(ts, pos + 3, done + [cs[0]], tail);
      ListGrows(done, cs);
    }
  }

  lemma FromParses(ts: seq<Lexeme>, pos: nat, table: Text)
    requires Terminated(ts) && Here(ts, pos, PrintFrom(table)) && ts[pos + |PrintFrom(table)|].ty != From
    ensures ParseFrom(ts, pos) == Ok((table, pos + |PrintFrom(table)|))
  {
    if table != [] {
      HereCons(ts, pos, Fixed(From), [Lexeme(Identifier, table)]);
    }
  }

  lemma WhereParses(ts: seq<Lexeme>, pos: nat, where: Option<Expr>)
    requires Terminated(ts) && (where.Some? ==> Producible(where.value))
    requires Here(ts, pos, PrintWhere(where)) && EndsExpression(ts[pos + |PrintWhere(where)|]) && ts[pos + |PrintWhere(where)|].ty != Where
    ensures ParseWhere(ts, pos) == Ok((where, pos + |PrintWhere(where)|))
  {
    hide ParseExpr, PrintBody;
    if where.Some? {
      HereCons(ts, pos, Fixed(Where), PrintBody(where.value));
      BodyParses(ts, pos + 1, where.value);
    }
  }

  // A token that ends a statement.
  predicate EndsStatement(t: Lexeme) {
    t.ty == Semicolon || t.ty == EndOfFile
  }

  lemma HeadTokens(ts: seq<Lexeme>, head: seq<Lexeme>)
    requires Here(ts, 0, head)
    ensures |head| < |ts| && forall i :: 0 <= i < |head| ==> ts[i] == head[i]
  {
    assert forall i :: 0 <= i < |head| ==> ts[0..|head|][i] == ts[i];
  }

  // The parts of each statement, parsed in place, make the statement.
  lemma SelectAssembles(ts: seq<Lexeme>, s: Statement, from: nat, where: nat, end: nat)
    requires Terminated(ts) && s.SelectStatement? && 1 < from < |ts| && where < |ts| && end < |ts| && ts[0].ty == Select
    requires ParseProjections(ts, [], 1) == Ok((s.projections, from))
    requires ParseFrom(ts, from) == Ok((s.tableName, where)) && ParseWhere(ts, where) == Ok((s.where, end))
    ensures ParseByKeyword(ts) == Ok((s, end))
  {
    hide ParseProjections, ParseFrom, ParseWhere;
  }

  lemma InsertAssembles(ts: seq<Lexeme>, s: Statement, first: Expr, more: nat, end: nat)
    requires Terminated(ts) && s.InsertStatement? && 5 < more < |ts| && end + 1 < |ts|
    requires ts[0].ty == Insert && ts[1].ty == Into && ts[2] == Lexeme(Identifier, s.tableName) && ts[3].ty == Values
    requires ts[4].ty == LeftParen && ts[end].ty == RightParen
    requires ParseExpr(ts, 5, 0) == Ok((first, more)) && ParseMoreExpressions(ts, [first], more) == Ok((s.values, end))
    ensures ParseByKeyword(ts) == Ok((s, end + 1))
  {
    hide ParseExpr, ParseMoreExpressions;
  }

  lemma CreateAssembles(ts: seq<Lexeme>, s: Statement, end: nat)
    requires Terminated(ts) && s.CreateTableStatement? && 4 < end && end + 1 < |ts|
    requires ts[0].ty == Create && ts[1].ty == Table && ts[2] == Lexeme(Identifier, s.tableName)
    requires ts[3].ty == LeftParen && ts[end].ty == RightParen
    requires ParseColumns(ts, [], 4) == Ok((s.columns, end))
    ensures ParseByKeyword(ts) == Ok((s, end + 1))
  {
    hide ParseColumns;
  }

  lemma SelectParses(ts: seq<Lexeme>, s: Statement)
    requires Terminated(ts) && s.SelectStatement? && Printable(s)
    requires Here(ts, 0, PrintStatement(s)) && EndsStatement(ts[|PrintStatement(s)|])
    ensures ParseByKeyword(ts) == Ok((s, |PrintStatement(s)|))
  {
    hide ParseProjections, ParseFrom, ParseWhere, ParseByKeyword, PrintProjections, PrintFrom, PrintWhere, Here,
         EndsList, EndsStatement, EndsExpression, Producible, PrintBody, Spelling;
    var list, from, condition := PrintProjections(s.projections), PrintFrom(s.tableName), PrintWhere(s.where);
    HereCons(ts, 0, Fixed(Select), list + (from + condition));
    HereAppend(ts, 1, list, from + condition);
    HereAppend(ts, 1 + |list|, from, condition);
    var b := 1 + |list| + |from|;
    HereBound(ts, b, condition);
    WhereStarts(ts, b, s.where);
    FromStarts(ts, 1 + |list|, s.tableName);
    WhereParses(ts, b, s.where);
    FromParses(ts, 1 + |list|, s.tableName);
    ProjectionsParse(ts, 1, [], s.projections);
    assert [] + s.projections == s.projections;
    SelectAssembles(ts, s, 1 + |list|, b, b + |condition|);
  }

  lemma WhereStarts(ts: seq<Lexeme>, pos: nat, where: Option<Expr>)
    requires Here(ts, pos, PrintWhere(where)) && EndsStatement(ts[pos + |PrintWhere(where)|])
    ensures EndsList(ts[pos]) && ts[pos].ty != From
    ensures var t := ts[pos + |PrintWhere(where)|]; EndsExpression(t) && t.ty != Where
  {
    hide PrintBody;
    if where.Some? {
      HereCons(ts, pos, Fixed(Where), PrintBody(where.value));
    }
  }

  lemma FromStarts(ts: seq<Lexeme>, pos: nat, table: Text)
    requires Here(ts, pos, PrintFrom(table)) && EndsList(ts[pos + |PrintFrom(table)|])
    ensures EndsList(ts[pos])
  {
    if table != [] {
      HereCons(ts, pos, Fixed(From), [Lexeme(Identifier, table)]);
    }
  }

  lemma InsertParses(ts: seq<Lexeme>, s: Statement)
    requires Terminated(ts) && s.InsertStatement? && Printable(s)
    requires Here(ts, 0, PrintStatement(s)) && EndsStatement(ts[|PrintStatement(s)|])
    ensures ParseByKeyword(ts) == Ok((s, |PrintStatement(s)|))
  {
    hide ParseExpr, ParseMoreExpressions, ParseByKeyword, PrintBody, PrintMore, Here, Producible, Spelling,
         EndsStatement, EndsExpression, BinaryPrecedence;
    var head := [Fixed(Insert), Fixed(Into), Lexeme(Identifier, s.tableName), Fixed(Values), Fixed(LeftParen)];
    var e, tail := s.values[0], s.values[1..];
    var first, more := PrintBody(e), PrintMore(tail);
    HereAppend(ts, 0, head, first + (more + [Fixed(RightParen)]));
    HeadTokens(ts, head);
    ValuesParse(ts, 5, s.values);
    InsertAssembles(ts, s, e, 5 + |first|, 5 + |first| + |more|);
  }

  lemma ValuesParse(ts: seq<Lexeme>, pos: nat, es: seq<Expr>)
    requires Terminated(ts) && es != [] && (forall e :: e in es ==> Producible(e))
    requires Here(ts, pos, PrintBody(es[0]) + (PrintMore(es[1..]) + [Fixed(RightParen)]))
    ensures var more := pos + |PrintBody(es[0])|;
            var end := more + |PrintMore(es[1..])|;
            && pos < more < |ts| && end + 1 < |ts| && ts[end] == Fixed(RightParen)
            && ParseExpr(ts, pos, 0) == Ok((es[0], more)) && ParseMoreExpressions(ts, [es[0]], more) == Ok((es, end))
  {
    hide ParseExpr, ParseMoreExpressions, PrintBody, PrintMore, Here, Producible, Spelling, EndsExpression, EndsList,
         BinaryPrecedence;
    var first, tail := PrintBody(es[0]), es[1..];
    forall e | e in tail ensures Producible(e) {
      assert e in es;
    }
    var more := PrintMore(tail);
    ListThenParen(ts, pos, first, more);
    MoreStarts(ts, pos + |first|, tail);
    BodyParses(ts, pos, es[0]);
    MoreParses(ts, pos + |first|, [es[0]], tail);
    assert [es[0]] + tail == es;
  }

  lemma ListThenParen(ts: seq<Lexeme>, pos: nat, first: seq<Lexeme>, more: seq<Lexeme>)
    requires Here(ts, pos, first + (more + [Fixed(RightParen)]))
    ensures Here(ts, pos, first) && Here(ts, pos + |first|, more)
    ensures var end := pos + |first| + |more|;
            end + 1 < |ts| && ts[end] == Fixed(RightParen) && EndsList(ts[end]) && EndsExpression(ts[end])
  {
    hide Here, Spelling, EndsExpression;
    HereAppend(ts, pos, first, more + [Fixed(RightParen)]);
    HereAppend(ts, pos + |first|, more, [Fixed(RightParen)]);
    var end := pos + |first| + |more|;
    HereCons(ts, end, Fixed(RightParen), []);
    ParenEnds(ts[end]);
  }

  lemma CreateParses(ts: seq<Lexeme>, s: Statement)
    requires Terminated(ts) && s.CreateTableStatement? && Printable(s)
    requires Here(ts, 0, PrintStatement(s)) && EndsStatement(ts[|PrintStatement(s)|])
    ensures ParseByKeyword(ts) == Ok((s, |PrintStatement(s)|))
  {
    hide ParseColumns, PrintColumns, ParseByKeyword, Here, Spelling, EndsStatement, EndsExpression, BinaryPrecedence;
    var head := [Fixed(Create), Fixed(Table), Lexeme(Identifier, s.tableName), Fixed(LeftParen)];
    var list := PrintColumns(s.columns);
    HereAppend(ts, 0, head, list + [Fixed(RightParen)]);
    HeadTokens(ts, head);
    ColumnsThenParen(ts, 4, s.columns);
    CreateAssembles(ts, s, 4 + |list|);
  }

  lemma ColumnsThenParen(ts: seq<Lexeme>, pos: nat, cs: seq<ColumnDefinition>)
    requires Terminated(ts) && cs != [] && Here(ts, pos, PrintColumns(cs) + [Fixed(RightParen)])
    ensures var end := pos + |PrintColumns(cs)|;
            end + 1 < |ts| && ts[end].ty == RightParen && ParseColumns(ts, [], pos) == Ok((cs, end))
  {
    hide ParseColumns, PrintColumns, Here, Spelling, EndsExpression;
    var list := PrintColumns(cs);
    HereAppend(ts, pos, list, [Fixed(RightParen)]);
    HereCons(ts, pos + |list|, Fixed(RightParen), []);
    ParenEnds(ts[pos + |list|]);
    ColumnsParse(ts, pos, [], cs);
    assert [] + cs == cs;
  }

  // A printed statement, with or without its semicolon, parses back to itself.
  lemma StatementParsesBack(s: Statement, semicolon: bool)
    requires Printable(s)
    ensures var ts := PrintStatement(s) + (if semicolon then [Fixed(Semicolon), EOF_LEXEME] else [EOF_LEXEME]);
            Terminated(ts) && ParseStatement(ts) == Ok(s)
  {
    hide ParseByKeyword, PrintStatement, Producible;
    var ls := PrintStatement(s);
    var ts := ls + (if semicolon then [Fixed(Semicolon), EOF_LEXEME] else [EOF_LEXEME]);
    assert ts[0..|ls|] == ls;
    if s.SelectStatement? {
      SelectParses(ts, s);
    } else if s.InsertStatement? {
      InsertParses(ts, s);
    } else {
      CreateParses(ts, s);
    }
  }

  // ---------------------------------------------------------------- what the parser produces

  lemma {:induction false} ParsedProjectionsAreProducible(ts: seq<Lexeme>, done: seq<SelectProjection>, pos: nat)
    requires Terminated(ts) && pos < |ts| && ParseProjections(ts, done, pos).Ok?
    requires forall p :: p in done ==> Producible(p.expression)
    ensures var ps := ParseProjections(ts, done, pos).value.0;
            ps != [] && forall p :: p in ps ==> Producible(p.expression)
    decreases |ts| - pos
  {
    hide Producible, ParseExpr;
    ExprIsProducible(ts, pos, 0);
    var (p, next) := ParseProjection(ts, pos).value;
    if ts[next].ty == Comma {
      ParsedProjectionsAreProducible(ts, done + [p], next + 1);
    }
  }

  lemma {:induction false} ParsedListsAreProducible(ts: seq<Lexeme>, done: seq<Expr>, pos: nat)
    requires Terminated(ts) && pos < |ts| && ParseMoreExpressions(ts, done, pos).Ok?
    requires forall e :: e in done ==> Producible(e)
    ensures var es := ParseMoreExpressions(ts, done, pos).value.0; |es| >= |done| && forall e :: e in es ==> Producible(e)
    decreases |ts| - pos
  {
    hide Producible, ParseExpr;
    if ts[pos].ty == Comma {
      ExprIsProducible(ts, pos + 1, 0);
      var (e, next) := ParseExpr(ts, pos + 1, 0).value;
      ParsedListsAreProducible(ts, done + [e], next);
    }
  }

  lemma {:induction false} ParsedColumnsExist(ts: seq<Lexeme>, done: seq<ColumnDefinition>, pos: nat)
    requires Terminated(ts) && pos < |ts| && ParseColumns(ts, done, pos).Ok?
    ensures ParseColumns(ts, done, pos).value.0 != []
    decreases |ts| - pos
  {
    hide ParseTypeName;
    if ts[pos + 2].ty == Comma {
      ParsedColumnsExist(ts, done + [ColumnDefinition(ts[pos].text, ParseTypeName(ts[pos + 1]).value)], pos + 3);
    }
  }

  lemma ParsedInsertIsPrintable(ts: seq<Lexeme>)
    requires Terminated(ts) && ts[0].ty == Insert && ParseByKeyword(ts).Ok?
    ensures Printable(ParseByKeyword(ts).value.0)
  {
    hide Producible, ParseExpr, ParseMoreExpressions;
    ExprIsProducible(ts, 5, 0);
    var (e, next) := ParseExpr(ts, 5, 0).value;
    ParsedListsAreProducible(ts, [e], next);
  }

  // Every statement the parser returns is one the printer covers.
  lemma ParsedStatementsArePrintable(ts: seq<Lexeme>)
    requires Terminated(ts) && ParseStatement(ts).Ok?
    ensures Printable(ParseStatement(ts).value)
  {
    hide Producible, ParseExpr, ParseProjections, ParseColumns, ParseMoreExpressions;
    if ts[0].ty == Select {
      ParsedProjectionsAreProducible(ts, [], 1);
      var (_, afterList) := ParseProjections(ts, [], 1).value;
      var (_, afterFrom) := ParseFrom(ts, afterList).value;
      if ts[afterFrom].ty == Where {
        ExprIsProducible(ts, afterFrom + 1, 0);
      }
    } else if ts[0].ty == Insert {
      ParsedInsertIsPrintable(ts);
    } else {
      ParsedColumnsExist(ts, [], 4);
    }
  }

  // Printing a parsed statement and parsing that gives the same statement.
  lemma ReparsingAStatementIsIdentity(ts: seq<Lexeme>, semicolon: bool)
    requires Terminated(ts) && ParseStatement(ts).Ok?
    ensures var s := ParseStatement(ts).value;
            && Printable(s)
            && var printed := PrintStatement(s) + (if semicolon then [Fixed(Semicolon), EOF_LEXEME] else [EOF_LEXEME]);
            Terminated(printed) && ParseStatement(printed) == Ok(s)
  {
    ParsedStatementsArePrintable(ts);
    StatementParsesBack(ParseStatement(ts).value, semicolon);
  }
}
